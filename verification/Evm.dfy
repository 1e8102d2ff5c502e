/**
 The machine the analysers approximate: control flow, stack discipline and
 arithmetic of the EVM on raw bytes, after the Ethereum Yellow Paper. Words
 read from memory, storage, calls or the environment are left open, and gas
 is not counted, so every real run is a run of this machine.
 */
module Evm {
  import opened Words
  import opened Opcodes
  import opened Bits

  /** The top of the stack is its last element. */
  datatype Machine = Machine(pc: nat, stack: seq<Word>)

  /** A row of the instruction tables: the opcode byte, the words removed from the stack and the words added. */
  datatype Row = Row(code: nat, removed: nat, added: nat)

  /**
   Section H.2 of the Yellow Paper, with PUSH0 (EIP-3855), TLOAD and TSTORE
   (EIP-1153), MCOPY (EIP-5656), BLOBHASH (EIP-4844) and BLOBBASEFEE (EIP-7516).
   */
  function Table(op: Op): Row {
    match op
    case STOP => Row(0x00, 0, 0)
    case ADD => Row(0x01, 2, 1)
    case MUL => Row(0x02, 2, 1)
    case SUB => Row(0x03, 2, 1)
    case DIV => Row(0x04, 2, 1)
    case SDIV => Row(0x05, 2, 1)
    case MOD => Row(0x06, 2, 1)
    case SMOD => Row(0x07, 2, 1)
    case ADDMOD => Row(0x08, 3, 1)
    case MULMOD => Row(0x09, 3, 1)
    case EXP => Row(0x0A, 2, 1)
    case SIGNEXTEND => Row(0x0B, 2, 1)
    case LT => Row(0x10, 2, 1)
    case GT => Row(0x11, 2, 1)
    case SLT => Row(0x12, 2, 1)
    case SGT => Row(0x13, 2, 1)
    case EQ => Row(0x14, 2, 1)
    case ISZERO => Row(0x15, 1, 1)
    case AND => Row(0x16, 2, 1)
    case OR => Row(0x17, 2, 1)
    case XOR => Row(0x18, 2, 1)
    case NOT => Row(0x19, 1, 1)
    case BYTE => Row(0x1A, 2, 1)
    case SHL => Row(0x1B, 2, 1)
    case SHR => Row(0x1C, 2, 1)
    case SAR => Row(0x1D, 2, 1)
    case KECCAK256 => Row(0x20, 2, 1)
    case ADDRESS => Row(0x30, 0, 1)
    case BALANCE => Row(0x31, 1, 1)
    case ORIGIN => Row(0x32, 0, 1)
    case CALLER => Row(0x33, 0, 1)
    case CALLVALUE => Row(0x34, 0, 1)
    case CALLDATALOAD => Row(0x35, 1, 1)
    case CALLDATASIZE => Row(0x36, 0, 1)
    case CALLDATACOPY => Row(0x37, 3, 0)
    case CODESIZE => Row(0x38, 0, 1)
    case CODECOPY => Row(0x39, 3, 0)
    case GASPRICE => Row(0x3A, 0, 1)
    case EXTCODESIZE => Row(0x3B, 1, 1)
    case EXTCODECOPY => Row(0x3C, 4, 0)
    case RETURNDATASIZE => Row(0x3D, 0, 1)
    case RETURNDATACOPY => Row(0x3E, 3, 0)
    case EXTCODEHASH => Row(0x3F, 1, 1)
    case BLOCKHASH => Row(0x40, 1, 1)
    case COINBASE => Row(0x41, 0, 1)
    case TIMESTAMP => Row(0x42, 0, 1)
    case NUMBER => Row(0x43, 0, 1)
    case PREVRANDAO => Row(0x44, 0, 1)
    case GASLIMIT => Row(0x45, 0, 1)
    case CHAINID => Row(0x46, 0, 1)
    case SELFBALANCE => Row(0x47, 0, 1)
    case BASEFEE => Row(0x48, 0, 1)
    case BLOBHASH => Row(0x49, 1, 1)
    case BLOBBASEFEE => Row(0x4A, 0, 1)
    case POP => Row(0x50, 1, 0)
    case MLOAD => Row(0x51, 1, 1)
    case MSTORE => Row(0x52, 2, 0)
    case MSTORE8 => Row(0x53, 2, 0)
    case SLOAD => Row(0x54, 1, 1)
    case SSTORE => Row(0x55, 2, 0)
    case JUMP => Row(0x56, 1, 0)
    case JUMPI => Row(0x57, 2, 0)
    case PC => Row(0x58, 0, 1)
    case MSIZE => Row(0x59, 0, 1)
    case GAS => Row(0x5A, 0, 1)
    case JUMPDEST => Row(0x5B, 0, 0)
    case TLOAD => Row(0x5C, 1, 1)
    case TSTORE => Row(0x5D, 2, 0)
    case MCOPY => Row(0x5E, 3, 0)
    case PUSH(n) => Row(0x5F + n, 0, 1)
    case DUP(n) => Row(0x7F + n, n, n + 1)
    case SWAP(n) => Row(0x8F + n, n + 1, n + 1)
    case LOG(n) => Row(0xA0 + n, n + 2, 0)
    case CREATE => Row(0xF0, 3, 1)
    case CALL => Row(0xF1, 7, 1)
    case CALLCODE => Row(0xF2, 7, 1)
    case RETURN => Row(0xF3, 2, 0)
    case DELEGATECALL => Row(0xF4, 6, 1)
    case CREATE2 => Row(0xF5, 4, 1)
    case STATICCALL => Row(0xFA, 6, 1)
    case REVERT => Row(0xFD, 2, 0)
    case INVALID => Row(0xFE, 0, 0)
    case SELFDESTRUCT => Row(0xFF, 1, 0)
    case UNKNOWN(b) => Row(b, 0, 0)
  }

  /** Bytes that are no instruction. */
  predicate Unassigned(b: Byte) {
    || 0x0C <= b <= 0x0F || 0x1E <= b <= 0x1F || 0x21 <= b <= 0x2F || 0x4B <= b <= 0x4F
    || 0xA5 <= b <= 0xEF || 0xF6 <= b <= 0xF9 || 0xFB <= b <= 0xFC
  }

  /** The byte stands for this instruction. */
  predicate Stands(b: Byte, op: Op) {
    && Table(op).code == b
    && match op
       case PUSH(n) => n <= 32
       case DUP(n) => 1 <= n <= 16
       case SWAP(n) => 1 <= n <= 16
       case LOG(n) => n <= 4
       case UNKNOWN(c) => Unassigned(c)
       case _ => true
  }

  /** Where the instruction after the one at `i` starts (section 9.4.3 of the Yellow Paper). */
  function NextStart(i: nat, b: Byte): nat {
    if 0x60 <= b <= 0x7F then i + b - 0x60 + 2 else i + 1
  }

  /** The valid jump destinations at or after `i` (section 9.4.3 of the Yellow Paper). */
  function ValidJumps(code: seq<Byte>, i: nat): set<nat>
    decreases |code| - i
  {
    if i >= |code| then {}
    else if code[i] == 0x5B then ValidJumps(code, NextStart(i, code[i])) + {i}
    else ValidJumps(code, NextStart(i, code[i]))
  }

  /** The byte at `i`; code is followed by zeros. */
  function CodeByte(code: seq<Byte>, i: nat): Byte {
    if i < |code| then code[i] else 0
  }

  function PushBytes(code: seq<Byte>, pc: nat, n: nat): (r: seq<Byte>)
    ensures |r| == n
  {
    if n == 0 then [] else PushBytes(code, pc, n - 1) + [CodeByte(code, pc + n)]
  }

  function PushWord(code: seq<Byte>, pc: nat, n: nat): Word
    requires n <= 32
  {
    BigEndianBound(PushBytes(code, pc, n));
    Pow256Monotone(n, 32);
    PowerOfTwo256();
    FromBigEndian(PushBytes(code, pc, n))
  }

  function Truth(b: bool): Word { if b then 1 else 0 }

  function Divide(x: Word, y: Word): Word { if y == 0 then 0 else x / y }

  function Modulo(x: Word, y: Word): Word { if y == 0 then 0 else x % y }

  function ShiftLeft(value: Word, shift: Word): Word {
    if shift >= 256 then 0 else Wrap(value * Pow(2, shift))
  }

  /** `x >> k`, one bit at a time. */
  function Halve(x: nat, k: nat): (r: nat)
    ensures r <= x
  {
    if k == 0 then x else Halve(x / 2, k - 1)
  }

  function ShiftRight(value: Word, shift: Word): Word {
    if shift >= 256 then 0 else Halve(value, shift)
  }

  function And(x: Word, y: Word): Word {
    BitAndBound(x, y);
    BitAnd(x, y)
  }

  function Or(x: Word, y: Word): Word {
    PowerOfTwo256();
    BitOrBound(x, y, 256);
    BitOr(x, y)
  }

  function Xor(x: Word, y: Word): Word {
    PowerOfTwo256();
    BitOrBound(x, y, 256);
    BitXor(x, y)
  }

  function Not(x: Word): Word { MODULUS - 1 - x }

  /** The bitwise instructions work on each of the 256 bits; a shift moves them all. */
  lemma WordBits(x: Word, y: Word, i: nat)
    requires i < 256
    ensures Pow(2, i) > 0 && (Bit(x, i) <==> (x / Pow(2, i)) % 2 == 1)
    ensures Bit(And(x, y), i) <==> Bit(x, i) && Bit(y, i)
    ensures Bit(Or(x, y), i) <==> Bit(x, i) || Bit(y, i)
    ensures Bit(Xor(x, y), i) <==> Bit(x, i) != Bit(y, i)
    ensures Bit(Not(x), i) <==> !Bit(x, i)
    ensures Bit(ShiftLeft(x, y), i) <==> i >= y && Bit(x, i - y)
    ensures Bit(ShiftRight(x, y), i) <==> i + y < 256 && Bit(x, i + y)
  {
    hide Bit, BitAnd, BitOr, BitXor, Halve, Pow;
    BitIsQuotient(x, i);
    AndBits(x, y, i);
    OrBits(x, y, i);
    XorBits(x, y, i);
    PowerOfTwo256();
    NotBits(x, 256, i);
    ShiftBits(x, y, i);
  }

  lemma {:induction false} ShiftBits(x: Word, y: Word, i: nat)
    requires i < 256
    ensures Bit(ShiftLeft(x, y), i) <==> i >= y && Bit(x, i - y)
    ensures Bit(ShiftRight(x, y), i) <==> i + y < 256 && Bit(x, i + y)
  {
    hide Bit, Halve, Pow;
    ZeroBits(i);
    PowerOfTwo256();
    if y < 256 {
      ProductBits(x, y, i);
      RemainderBits(x * Pow(2, y), 256, i);
      HalveBits(x, y, i);
      if i + y >= 256 {
        HighBits(x, 256, i + y);
      }
    }
  }

  lemma {:induction false} HalveBits(x: nat, k: nat, i: nat)
    ensures Bit(Halve(x, k), i) <==> Bit(x, i + k)
  {
    if k > 0 {
      HalveBits(x / 2, k - 1, i);
    }
  }

  /** The binary instructions with a value that depends on their operands alone; `x` is the top of the stack. */
  function Binary(op: Op, x: Word, y: Word): Option<Word> {
    match op
    case ADD => Some(Wrap(x + y))
    case MUL => Some(Wrap(x * y))
    case SUB => Some(Wrap(x - y))
    case DIV => Some(Divide(x, y))
    case MOD => Some(Modulo(x, y))
    case EXP => Some(Wrap(Pow(x, y)))
    case LT => Some(Truth(x < y))
    case GT => Some(Truth(x > y))
    case EQ => Some(Truth(x == y))
    case AND => Some(And(x, y))
    case OR => Some(Or(x, y))
    case XOR => Some(Xor(x, y))
    case SHL => Some(ShiftLeft(y, x))
    case SHR => Some(ShiftRight(y, x))
    case _ => None
  }

  function Unary(op: Op, x: Word): Option<Word> {
    match op
    case ISZERO => Some(Truth(x == 0))
    case NOT => Some(Not(x))
    case _ => None
  }

  /** Opcodes after which the machine does not continue with the next instruction. */
  predicate Halts(op: Op) {
    op.STOP? || op.RETURN? || op.REVERT? || op.INVALID? || op.SELFDESTRUCT? || op.UNKNOWN?
  }

  /** The `k`-th word from the top, counting from 0. */
  function Peek(stack: seq<Word>, k: nat): Word
    requires k < |stack|
  {
    stack[|stack| - 1 - k]
  }

  function Drop(stack: seq<Word>, k: nat): seq<Word>
    requires k <= |stack|
  {
    stack[..|stack| - k]
  }

  /** The stack after a DUP, SWAP or PUSH. */
  function Shuffle(code: seq<Byte>, pc: nat, op: Op, stack: seq<Word>): seq<Word>
    requires op.DUP? || op.SWAP? || op.PUSH?
    requires op.PUSH? ==> op.n <= 32
    requires op.DUP? ==> 1 <= op.n <= |stack|
    requires op.SWAP? ==> 1 <= op.n < |stack|
  {
    match op
    case PUSH(n) => stack + [PushWord(code, pc, n)]
    case DUP(n) => stack + [Peek(stack, n - 1)]
    case SWAP(n) =>
      stack[|stack| - 1 := Peek(stack, n)][|stack| - 1 - n := Peek(stack, 0)]
  }

  /** The stack after an instruction that neither halts, nor is a PUSH, DUP or SWAP. */
  ghost predicate StackStep(op: Op, pc: nat, stack: seq<Word>, after: seq<Word>)
    requires |stack| >= Table(op).removed
  {
    var Row(_, removed, added) := Table(op);
    && |after| == |stack| - removed + added
    && Drop(stack, removed) <= after
    && (op.PC? ==> Peek(after, 0) == Wrap(pc))
    && (removed == 1 && added == 1 && Unary(op, Peek(stack, 0)).Some? ==>
          Peek(after, 0) == Unary(op, Peek(stack, 0)).value)
    && (removed == 2 && added == 1 && Binary(op, Peek(stack, 0), Peek(stack, 1)).Some? ==>
          Peek(after, 0) == Binary(op, Peek(stack, 0), Peek(stack, 1)).value)
  }

  /** The instruction takes the machine from `s` to `t`. */
  ghost predicate Runs(code: seq<Byte>, op: Op, s: Machine, t: Machine)
    requires s.pc < |code| && Stands(code[s.pc], op)
  {
    && !Halts(op)
    && |s.stack| >= Table(op).removed
    && if op.PUSH? || op.DUP? || op.SWAP? then
         t == Machine(NextStart(s.pc, code[s.pc]), Shuffle(code, s.pc, op, s.stack))
       else
         && StackStep(op, s.pc, s.stack, t.stack)
         && if op.JUMP? || (op.JUMPI? && Peek(s.stack, 1) != 0) then
              t.pc == Peek(s.stack, 0) && t.pc in ValidJumps(code, 0)
            else
              t.pc == NextStart(s.pc, code[s.pc])
  }

  ghost predicate Step(code: seq<Byte>, s: Machine, t: Machine) {
    s.pc < |code| && exists op :: Stands(code[s.pc], op) && Runs(code, op, s, t)
  }

  /** A run from the first byte with an empty stack. */
  ghost predicate IsRun(code: seq<Byte>, run: seq<Machine>) {
    && |run| > 0 && run[0] == Machine(0, [])
    && forall i, j :: 0 <= i && j == i + 1 && j < |run| ==> Step(code, run[i], run[j])
  }
}
