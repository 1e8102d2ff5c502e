/**
 The opcode table: mnemonics, stack effects, inline data, block boundaries.
 Bytes outside the table decode to unknown opcodes.
 */
module Opcodes {
  import opened Words

  datatype Op =
    | STOP | ADD | MUL | SUB | DIV | SDIV | MOD | SMOD | ADDMOD | MULMOD | EXP | SIGNEXTEND
    | LT | GT | SLT | SGT | EQ | ISZERO | AND | OR | XOR | NOT | BYTE | SHL | SHR | SAR
    | KECCAK256
    | ADDRESS | BALANCE | ORIGIN | CALLER | CALLVALUE | CALLDATALOAD | CALLDATASIZE | CALLDATACOPY
    | CODESIZE | CODECOPY | GASPRICE | EXTCODESIZE | EXTCODECOPY | RETURNDATASIZE | RETURNDATACOPY | EXTCODEHASH
    | BLOCKHASH | COINBASE | TIMESTAMP | NUMBER | PREVRANDAO | GASLIMIT | CHAINID | SELFBALANCE | BASEFEE
    | BLOBHASH | BLOBBASEFEE
    | POP | MLOAD | MSTORE | MSTORE8 | SLOAD | SSTORE | JUMP | JUMPI | PC | MSIZE | GAS | JUMPDEST
    | TLOAD | TSTORE | MCOPY
    | PUSH(n: nat) | DUP(n: nat) | SWAP(n: nat) | LOG(n: nat)
    | CREATE | CALL | CALLCODE | RETURN | DELEGATECALL | CREATE2 | STATICCALL | REVERT | INVALID | SELFDESTRUCT
    | UNKNOWN(code: Byte)

  /** The mnemonic that the table gives to a byte; bytes outside the table are unknown opcodes. */
  function Decode(b: Byte): (op: Op)
    ensures op.PUSH? <==> 0x5F <= b <= 0x7F
    ensures op.PUSH? ==> op.n == b - 0x5F
    ensures op.DUP? <==> 0x80 <= b <= 0x8F
    ensures op.DUP? ==> op.n == b - 0x7F
    ensures op.SWAP? <==> 0x90 <= b <= 0x9F
    ensures op.SWAP? ==> op.n == b - 0x8F
    ensures op.LOG? <==> 0xA0 <= b <= 0xA4
    ensures op.LOG? ==> op.n == b - 0xA0
    ensures op.JUMPDEST? <==> b == 0x5B
  {
    if 0x5F <= b <= 0x7F then PUSH(b - 0x5F)
    else if 0x80 <= b <= 0x8F then DUP(b - 0x7F)
    else if 0x90 <= b <= 0x9F then SWAP(b - 0x8F)
    else if 0xA0 <= b <= 0xA4 then LOG(b - 0xA0)
    else if b < 0x20 then DecodeArithmetic(b)
    else if b < 0x50 then DecodeEnvironment(b)
    else if b < 0x5F then DecodeStateAndFlow(b)
    else DecodeSystem(b)
  }

  function DecodeArithmetic(b: Byte): (op: Op)
    ensures !op.PUSH? && !op.DUP? && !op.SWAP? && !op.LOG? && !op.JUMPDEST?
  {
    match b as int
    case 0x00 => STOP
    case 0x01 => ADD
    case 0x02 => MUL
    case 0x03 => SUB
    case 0x04 => DIV
    case 0x05 => SDIV
    case 0x06 => MOD
    case 0x07 => SMOD
    case 0x08 => ADDMOD
    case 0x09 => MULMOD
    case 0x0A => EXP
    case 0x0B => SIGNEXTEND
    case 0x10 => LT
    case 0x11 => GT
    case 0x12 => SLT
    case 0x13 => SGT
    case 0x14 => EQ
    case 0x15 => ISZERO
    case 0x16 => AND
    case 0x17 => OR
    case 0x18 => XOR
    case 0x19 => NOT
    case 0x1A => BYTE
    case 0x1B => SHL
    case 0x1C => SHR
    case 0x1D => SAR
    case _ => UNKNOWN(b)
  }

  function DecodeEnvironment(b: Byte): (op: Op)
    ensures !op.PUSH? && !op.DUP? && !op.SWAP? && !op.LOG? && !op.JUMPDEST?
  {
    match b as int
    case 0x20 => KECCAK256
    case 0x30 => ADDRESS
    case 0x31 => BALANCE
    case 0x32 => ORIGIN
    case 0x33 => CALLER
    case 0x34 => CALLVALUE
    case 0x35 => CALLDATALOAD
    case 0x36 => CALLDATASIZE
    case 0x37 => CALLDATACOPY
    case 0x38 => CODESIZE
    case 0x39 => CODECOPY
    case 0x3A => GASPRICE
    case 0x3B => EXTCODESIZE
    case 0x3C => EXTCODECOPY
    case 0x3D => RETURNDATASIZE
    case 0x3E => RETURNDATACOPY
    case 0x3F => EXTCODEHASH
    case 0x40 => BLOCKHASH
    case 0x41 => COINBASE
    case 0x42 => TIMESTAMP
    case 0x43 => NUMBER
    case 0x44 => PREVRANDAO
    case 0x45 => GASLIMIT
    case 0x46 => CHAINID
    case 0x47 => SELFBALANCE
    case 0x48 => BASEFEE
    case 0x49 => BLOBHASH
    case 0x4A => BLOBBASEFEE
    case _ => UNKNOWN(b)
  }

  function DecodeStateAndFlow(b: Byte): (op: Op)
    ensures !op.PUSH? && !op.DUP? && !op.SWAP? && !op.LOG?
    ensures op.JUMPDEST? <==> b == 0x5B
  {
    match b as int
    case 0x50 => POP
    case 0x51 => MLOAD
    case 0x52 => MSTORE
    case 0x53 => MSTORE8
    case 0x54 => SLOAD
    case 0x55 => SSTORE
    case 0x56 => JUMP
    case 0x57 => JUMPI
    case 0x58 => PC
    case 0x59 => MSIZE
    case 0x5A => GAS
    case 0x5B => JUMPDEST
    case 0x5C => TLOAD
    case 0x5D => TSTORE
    case 0x5E => MCOPY
    case _ => UNKNOWN(b)
  }

  function DecodeSystem(b: Byte): (op: Op)
    ensures !op.PUSH? && !op.DUP? && !op.SWAP? && !op.LOG? && !op.JUMPDEST?
  {
    match b as int
    case 0xF0 => CREATE
    case 0xF1 => CALL
    case 0xF2 => CALLCODE
    case 0xF3 => RETURN
    case 0xF4 => DELEGATECALL
    case 0xF5 => CREATE2
    case 0xFA => STATICCALL
    case 0xFD => REVERT
    case 0xFE => INVALID
    case 0xFF => SELFDESTRUCT
    case _ => UNKNOWN(b)
  }

  /** How many words the instruction takes from the stack. */
  function StackIn(op: Op): nat {
    match op
    case DUP(n) => n
    case SWAP(n) => n + 1
    case LOG(n) => n + 2
    case CALL | CALLCODE => 7
    case DELEGATECALL | STATICCALL => 6
    case EXTCODECOPY | CREATE2 => 4
    case ADDMOD | MULMOD | CALLDATACOPY | CODECOPY | RETURNDATACOPY | MCOPY | CREATE => 3
    case ADD | MUL | SUB | DIV | SDIV | MOD | SMOD | EXP | SIGNEXTEND
       | LT | GT | SLT | SGT | EQ | AND | OR | XOR | BYTE | SHL | SHR | SAR | KECCAK256
       | MSTORE | MSTORE8 | SSTORE | TSTORE | JUMPI | RETURN | REVERT => 2
    case ISZERO | NOT | BALANCE | CALLDATALOAD | EXTCODESIZE | EXTCODEHASH | BLOCKHASH | BLOBHASH
       | POP | MLOAD | SLOAD | TLOAD | JUMP | SELFDESTRUCT => 1
    case _ => 0
  }

  /** How many words the instruction leaves in their place. */
  function StackOut(op: Op): nat {
    match op
    case DUP(n) => n + 1
    case SWAP(n) => n + 1
    case LOG(_) => 0
    case CALLDATACOPY | CODECOPY | EXTCODECOPY | RETURNDATACOPY | MCOPY
       | MSTORE | MSTORE8 | SSTORE | TSTORE | POP
       | STOP | JUMP | JUMPI | JUMPDEST | RETURN | REVERT | INVALID | SELFDESTRUCT | UNKNOWN(_) => 0
    case _ => 1
  }

  /** Inline bytes after the opcode: only PUSH1 to PUSH32 have any. */
  function DataBytes(op: Op): nat {
    if op.PUSH? then op.n else 0
  }

  /** Opcodes that end a basic block. */
  predicate IsTerminator(op: Op) {
    op.STOP? || op.JUMP? || op.JUMPI? || op.RETURN? || op.REVERT? || op.INVALID? || op.SELFDESTRUCT?
  }
}
