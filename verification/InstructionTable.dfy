/** The two opcode tables. */
module InstructionTable {
  import opened Words
  import opened Opcodes
  import Evm

  lemma ArithmeticStands(b: Byte)
    requires b < 0x20
    ensures Evm.Stands(b, DecodeArithmetic(b))
  {
  }

  lemma EnvironmentStands(b: Byte)
    requires 0x20 <= b < 0x50
    ensures Evm.Stands(b, DecodeEnvironment(b))
  {
  }

  lemma StateAndFlowStands(b: Byte)
    requires 0x50 <= b < 0x5F
    ensures Evm.Stands(b, DecodeStateAndFlow(b))
  {
  }

  lemma SystemStands(b: Byte)
    requires 0xA5 <= b
    ensures Evm.Stands(b, DecodeSystem(b))
  {
  }

  lemma DecodedStands(b: Byte)
    ensures Evm.Stands(b, Decode(b))
  {
    hide DecodeArithmetic, DecodeEnvironment, DecodeStateAndFlow, DecodeSystem;
    if b < 0x20 {
      ArithmeticStands(b);
    } else if b < 0x50 {
      EnvironmentStands(b);
    } else if b < 0x5F {
      StateAndFlowStands(b);
    } else if 0xA5 <= b {
      SystemStands(b);
    }
  }

  lemma StandsDecoded(b: Byte, op: Op)
    requires Evm.Stands(b, op)
    ensures op == Decode(b)
  {
    match op
    case STOP | ADD | MUL | SUB | DIV | SDIV | MOD | SMOD | ADDMOD | MULMOD | EXP | SIGNEXTEND
       | LT | GT | SLT | SGT | EQ | ISZERO | AND | OR | XOR | NOT | BYTE | SHL | SHR | SAR
       | KECCAK256
       | ADDRESS | BALANCE | ORIGIN | CALLER | CALLVALUE | CALLDATALOAD | CALLDATASIZE | CALLDATACOPY
       | CODESIZE | CODECOPY | GASPRICE | EXTCODESIZE | EXTCODECOPY | RETURNDATASIZE | RETURNDATACOPY | EXTCODEHASH
       | BLOCKHASH | COINBASE | TIMESTAMP | NUMBER | PREVRANDAO | GASLIMIT | CHAINID | SELFBALANCE | BASEFEE
       | BLOBHASH | BLOBBASEFEE
       | POP | MLOAD | MSTORE | MSTORE8 | SLOAD | SSTORE | JUMP | JUMPI | PC | MSIZE | GAS | JUMPDEST
       | TLOAD | TSTORE | MCOPY
       | CREATE | CALL | CALLCODE | RETURN | DELEGATECALL | CREATE2 | STATICCALL | REVERT | INVALID | SELFDESTRUCT =>
    case _ =>
  }

  lemma EffectsAre(op: Op)
    ensures StackIn(op) == Evm.Table(op).removed && StackOut(op) == Evm.Table(op).added
  {
    match op
    case STOP | ADD | MUL | SUB | DIV | SDIV | MOD | SMOD | ADDMOD | MULMOD | EXP | SIGNEXTEND
       | LT | GT | SLT | SGT | EQ | ISZERO | AND | OR | XOR | NOT | BYTE | SHL | SHR | SAR
       | KECCAK256
       | ADDRESS | BALANCE | ORIGIN | CALLER | CALLVALUE | CALLDATALOAD | CALLDATASIZE | CALLDATACOPY
       | CODESIZE | CODECOPY | GASPRICE | EXTCODESIZE | EXTCODECOPY | RETURNDATASIZE | RETURNDATACOPY | EXTCODEHASH
       | BLOCKHASH | COINBASE | TIMESTAMP | NUMBER | PREVRANDAO | GASLIMIT | CHAINID | SELFBALANCE | BASEFEE
       | BLOBHASH | BLOBBASEFEE
       | POP | MLOAD | MSTORE | MSTORE8 | SLOAD | SSTORE | JUMP | JUMPI | PC | MSIZE | GAS | JUMPDEST
       | TLOAD | TSTORE | MCOPY
       | CREATE | CALL | CALLCODE | RETURN | DELEGATECALL | CREATE2 | STATICCALL | REVERT | INVALID | SELFDESTRUCT =>
    case _ =>
  }

  /** A byte stands for an instruction of the tables exactly if it is decoded to that instruction. */
  lemma DecodeIff(b: Byte, op: Op)
    ensures Evm.Stands(b, op) <==> op == Decode(b)
  {
    hide Decode, Evm.Stands;
    DecodedStands(b);
    if Evm.Stands(b, op) {
      StandsDecoded(b, op);
    }
  }

  /** The terminators are the jumps and the instructions of the tables that halt the machine. */
  lemma TerminatorIff(op: Op)
    ensures IsTerminator(op) <==> op.JUMP? || op.JUMPI? || (Evm.Halts(op) && !op.UNKNOWN?)
  {
  }

  /** The machine runs what the decoder reads. */
  lemma StepIs(code: seq<Byte>, s: Evm.Machine, t: Evm.Machine)
    requires s.pc < |code|
    ensures Evm.Stands(code[s.pc], Decode(code[s.pc]))
    ensures Evm.Step(code, s, t) <==> Evm.Runs(code, Decode(code[s.pc]), s, t)
  {
    hide Decode, Evm.Stands, Evm.Runs;
    DecodedStands(code[s.pc]);
    forall op | Evm.Stands(code[s.pc], op) ensures op == Decode(code[s.pc]) {
      DecodeIff(code[s.pc], op);
    }
  }

  /** The machine finds the next instruction behind the inline bytes. */
  lemma NextStartIs(pc: nat, b: Byte)
    ensures Evm.NextStart(pc, b) == pc + 1 + DataBytes(Decode(b))
  {
    hide DecodeArithmetic, DecodeEnvironment, DecodeStateAndFlow, DecodeSystem;
  }
}
