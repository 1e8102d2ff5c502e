/** The linear sweep. */
module Disassembler {
  // From bytes to instructions, and what no sweep loses.

  import opened Words
  import opened Opcodes
  import opened HexText
  import opened Numerals
  import Evm

  datatype Instruction = Instruction(
    offset: nat, op: Op, opcodeByte: Byte, operandValue: Option<nat>, raw: seq<Byte>, size: nat)

  datatype DisassemblyError =
    | InvalidHex
    | EofFormatDetected(version: Byte)
    | TruncatedPush(offset: nat, expected: nat, got: nat)

  datatype DisassemblyResult = DisassemblyResult(
    instructions: seq<Instruction>, bytecodeSize: nat, errors: seq<DisassemblyError>)

  /** The instruction the sweep reads at `pc`; a PUSH cut off by the end of the code keeps the bytes that are left. */
  function InstructionAt(code: seq<Byte>, pc: nat): (i: Instruction)
    requires pc < |code|
    ensures i.size > 0 && pc + i.size <= |code|
    ensures i.offset == pc && i.opcodeByte == code[pc] && i.op == Decode(code[pc]) && i.raw == code[pc..pc + i.size]
    ensures i.size == if pc + 1 + DataBytes(i.op) > |code| then |code| - pc else 1 + DataBytes(i.op)
  {
    var op := Decode(code[pc]);
    if DataBytes(op) > 0 then
      var end := if pc + 1 + DataBytes(op) > |code| then |code| else pc + 1 + DataBytes(op);
      Instruction(pc, op, code[pc], Some(FromBigEndian(code[pc+1..end])), code[pc..end], end - pc)
    else
      Instruction(pc, op, code[pc], if op.PUSH? then Some(0) else None, [code[pc]], 1)
  }

  function SweepFrom(code: seq<Byte>, pc: nat): seq<Instruction>
    requires pc <= |code|
    decreases |code| - pc
  {
    if pc == |code| then []
    else
      var i := InstructionAt(code, pc);
      [i] + SweepFrom(code, pc + i.size)
  }

  predicate IsEof(code: seq<Byte>) {
    |code| >= 2 && code[0] == 0xEF && code[1] == 0x00
  }

  /** EIP-3540: an EOF container starts with the bytes EF and 00. */
  lemma EofIs(code: seq<Byte>)
    ensures IsEof(code) <==> [0xEF, 0x00] <= code
  {
  }

  function Instructions(code: seq<Byte>): seq<Instruction> {
    if IsEof(code) then [] else SweepFrom(code, 0)
  }

  /** One report for every PUSH with fewer operand bytes than its opcode announces. */
  function Truncations(instrs: seq<Instruction>): seq<DisassemblyError> {
    if instrs == [] then []
    else
      var i := instrs[|instrs|-1];
      var init := Truncations(instrs[..|instrs|-1]);
      if 1 <= i.size <= DataBytes(i.op) then init + [TruncatedPush(i.offset, DataBytes(i.op), i.size - 1)] else init
  }

  /** One turn of the sweep loop: the instruction at `pc`, and the report if the code ends inside it. */
  method ReadInstruction(code: seq<Byte>, pc: nat) returns (i: Instruction, errors: seq<DisassemblyError>)
    requires pc < |code|
    ensures i == InstructionAt(code, pc)
    ensures errors == if i.size <= DataBytes(i.op) then [TruncatedPush(pc, DataBytes(i.op), i.size - 1)] else []
  {
    var op := Decode(code[pc]);
    errors := [];
    if DataBytes(op) > 0 {
      var dataStart := pc + 1;
      var dataEnd := dataStart + DataBytes(op);
      if dataEnd > |code| {
        var remaining := code[dataStart..];
        assert remaining == code[dataStart..|code|] && code[pc..] == code[pc..|code|];
        errors := [TruncatedPush(pc, DataBytes(op), |remaining|)];
        i := Instruction(pc, op, code[pc], Some(FromBigEndian(remaining)), code[pc..], 1 + |remaining|);
      } else {
        var operand := code[dataStart..dataEnd];
        i := Instruction(pc, op, code[pc], Some(FromBigEndian(operand)), code[pc..dataEnd], 1 + DataBytes(op));
      }
    } else {
      i := Instruction(pc, op, code[pc], if op.PUSH? then Some(0) else None, [code[pc]], 1);
    }
  }

  lemma TruncationsAppend(instrs: seq<Instruction>, i: Instruction)
    requires i.size > 0
    ensures Truncations(instrs + [i]) == Truncations(instrs) +
      if i.size <= DataBytes(i.op) then [TruncatedPush(i.offset, DataBytes(i.op), i.size - 1)] else []
  {
    assert (instrs + [i])[..|instrs|] == instrs;
  }

  lemma AppendStep(code: seq<Byte>, pc: nat, done: seq<Instruction>)
    requires pc < |code|
    ensures var i := InstructionAt(code, pc);
      done + SweepFrom(code, pc) == (done + [i]) + SweepFrom(code, pc + i.size)
  {
    hide InstructionAt;
    var i := InstructionAt(code, pc);
    assert done + ([i] + SweepFrom(code, pc + i.size)) == (done + [i]) + SweepFrom(code, pc + i.size);
  }

  lemma SweepEnd(code: seq<Byte>)
    ensures SweepFrom(code, |code|) == []
  {
  }

  lemma NoTruncations()
    ensures Truncations([]) == []
  {
  }

  method DisassembleBytes(code: seq<Byte>) returns (r: DisassemblyResult)
    ensures r.instructions == Instructions(code) && r.bytecodeSize == |code|
    ensures IsEof(code) ==> r.errors == [EofFormatDetected(if |code| > 2 then code[2] else 0)]
    ensures !IsEof(code) ==> r.errors == Truncations(r.instructions)
  {
    hide Decode, InstructionAt, DataBytes, SweepFrom, Truncations;
    if IsEof(code) {
      return DisassemblyResult([], |code|, [EofFormatDetected(if |code| > 2 then code[2] else 0)]);
    }
    var instructions: seq<Instruction> := [];
    var errors: seq<DisassemblyError> := [];
    var pc := 0;
    NoTruncations();
    assert [] + SweepFrom(code, 0) == SweepFrom(code, 0);
    while pc < |code|
      invariant pc <= |code|
      invariant instructions + SweepFrom(code, pc) == SweepFrom(code, 0)
      invariant errors == Truncations(instructions)
    {
      var i, found := ReadInstruction(code, pc);
      TruncationsAppend(instructions, i);
      AppendStep(code, pc, instructions);
      instructions := instructions + [i];
      errors := errors + found;
      pc := pc + i.size;
    }
    SweepEnd(code);
    assert instructions + [] == instructions;
    r := DisassemblyResult(instructions, |code|, errors);
  }

  predicate IsDropped(c: char) {
    c == ' ' || c == '\n' || c == '\r'
  }

  /** What is left of the input text before it is decoded; an odd digit is completed by a leading zero. */
  function CleanText(s: string): string {
    var t := Without(WithoutPrefix(TrimRight(TrimLeft(s))), IsDropped);
    if |t| % 2 != 0 then "0" + t else t
  }

  method Disassemble(s: string) returns (r: DisassemblyResult)
    ensures FromHex(CleanText(s)).None? ==> r == DisassemblyResult([], 0, [InvalidHex])
    ensures FromHex(CleanText(s)).Some? ==>
      var code := FromHex(CleanText(s)).value;
      && r.instructions == Instructions(code) && r.bytecodeSize == |code|
      && (IsEof(code) ==> r.errors == [EofFormatDetected(if |code| > 2 then code[2] else 0)])
      && (!IsEof(code) ==> r.errors == Truncations(r.instructions))
  {
    hide CleanText, FromHex, Instructions, Truncations;
    match FromHex(CleanText(s))
    case None => r := DisassemblyResult([], 0, [InvalidHex]);
    case Some(code) => r := DisassembleBytes(code);
  }

  lemma CleanHex(s: string)
    requires AllHex(s) && |s| % 2 == 0
    ensures CleanText(s) == s && CleanText("0x" + s) == s
  {
    TrimNothing(s);
    HexHasNoPrefix(s);
    assert ("0x" + s)[2..] == s;
    hide TrimLeft, TrimRight, FromHex, Without;
    WithoutNothing(s, IsDropped);
  }

  /** Whitespace around the text makes no difference. */
  lemma SurroundingDropped(a: string, s: string, b: string)
    requires AllSpace(a) && AllSpace(b)
    ensures CleanText(a + s + b) == CleanText(s)
  {
    SurroundTrimmed(a, s, b);
  }

  lemma CleanOddHex(s: string)
    requires AllHex(s) && |s| % 2 == 1
    ensures CleanText(s) == "0" + s
  {
    TrimNothing(s);
    HexHasNoPrefix(s);
    hide TrimLeft, TrimRight, FromHex, Without;
    WithoutNothing(s, IsDropped);
  }

  /** Digits of any number are read as the bytes of the number they denote, as few as hold that many digits. */
  lemma DigitsAreNumber(s: string)
    requires AllHex(s)
    ensures FromHex(CleanText(s)).Some?
    ensures var code := FromHex(CleanText(s)).value; FromBigEndian(code) == HexNumber(s) && |code| == (|s| + 1) / 2
  {
    hide FromHex, CleanText, HexNumber, FromBigEndian;
    if |s| % 2 == 0 {
      CleanHex(s);
      HexIsNumber(s);
    } else {
      CleanOddHex(s);
      HexIsNumber("0" + s);
      ZeroInFront(s);
    }
  }

  /** Inside digits, a character is dropped exactly if it is a space or ends a line. */
  lemma DroppedIff(a: string, c: char, b: string)
    requires AllHex(a) && AllHex(b) && |a| >= 2 && b != "" && |a + b| % 2 == 0
    ensures CleanText(a + [c] + b) == a + b <==> c in " \n\r"
  {
    DigitsStay(IsDropped);
    hide IsHexDigit, Without, WithoutPrefix, TrimRight, TrimLeft;
    InnerDrop(a, c, b, IsDropped);
    assert IsDropped(c) <==> c in " \n\r";
    assert |a + [c] + b| == |a + b| + 1;
    assert |"0" + (a + [c] + b)| != |a + b|;
  }

  /** Hexadecimal text of either form is read as the bytes it was written from. */
  lemma HexTextReads(code: seq<Byte>)
    ensures FromHex(CleanText(ToHex(code))) == Some(code)
    ensures FromHex(CleanText("0x" + ToHex(code))) == Some(code)
  {
    hide ToHex, FromHex, CleanText, AllHex;
    ToHexIsHex(code);
    HexRoundTrip(code);
    CleanHex(ToHex(code));
  }

  // ---- The sweep is lossless ----

  function Concat(parts: seq<seq<Byte>>): seq<Byte> {
    if parts == [] then [] else parts[0] + Concat(parts[1..])
  }

  function Raws(instrs: seq<Instruction>): seq<seq<Byte>> {
    if instrs == [] then [] else [instrs[0].raw] + Raws(instrs[1..])
  }

  /** The bytes that the opcode byte, the operand value and the size alone determine. */
  function Assemble(i: Instruction): seq<Byte> {
    if i.size == 0 then []
    else [i.opcodeByte] + ToBigEndian(i.operandValue.GetOr(0), i.size - 1)
  }

  /** Consecutive instructions cover `pc .. end` without gap or overlap. */
  ghost predicate Tiles(instrs: seq<Instruction>, pc: nat, end: nat)
    decreases |instrs|
  {
    if instrs == [] then pc == end
    else instrs[0].offset == pc && instrs[0].size > 0 && Tiles(instrs[1..], pc + instrs[0].size, end)
  }

  lemma {:induction false} SweepTiles(code: seq<Byte>, pc: nat)
    requires pc <= |code|
    ensures Tiles(SweepFrom(code, pc), pc, |code|)
    decreases |code| - pc
  {
    hide Decode, InstructionAt;
    if pc < |code| {
      var i := InstructionAt(code, pc);
      var rest := SweepFrom(code, pc + i.size);
      SweepTiles(code, pc + i.size);
      assert ([i] + rest)[1..] == rest;
    }
  }

  lemma SplitTail<T>(s: seq<T>, a: nat, b: nat)
    requires a <= b <= |s|
    ensures s[a..] == s[a..b] + s[b..]
  {
  }

  lemma {:induction false} SweepConcatenates(code: seq<Byte>, pc: nat)
    requires pc <= |code|
    ensures Concat(Raws(SweepFrom(code, pc))) == code[pc..]
    decreases |code| - pc
  {
    hide Decode, InstructionAt;
    if pc < |code| {
      var i := InstructionAt(code, pc);
      var rest := SweepFrom(code, pc + i.size);
      SweepConcatenates(code, pc + i.size);
      assert ([i] + rest)[1..] == rest;
      assert Raws(SweepFrom(code, pc)) == [i.raw] + Raws(rest);
      assert ([i.raw] + Raws(rest))[1..] == Raws(rest);
      SplitTail(code, pc, pc + i.size);
    }
  }

  /** Every instruction of the sweep is read at its own offset. */
  lemma {:induction false} SweepReads(code: seq<Byte>, pc: nat, k: nat)
    requires pc <= |code| && k < |SweepFrom(code, pc)|
    ensures var i := SweepFrom(code, pc)[k]; pc <= i.offset < |code| && i == InstructionAt(code, i.offset)
    decreases |code| - pc
  {
    hide Decode, InstructionAt;
    if k > 0 {
      SweepReads(code, pc + InstructionAt(code, pc).size, k - 1);
    }
  }

  /** Reassembling opcode byte and operand value gives back the instruction's bytes, and operands fit their width. */
  lemma InstructionLossless(code: seq<Byte>, pc: nat)
    requires pc < |code|
    ensures var i := InstructionAt(code, pc);
      && Assemble(i) == i.raw == code[pc..pc + i.size]
      && (i.operandValue.Some? <==> i.op.PUSH?)
      && (i.op.PUSH? ==> i.operandValue.value < Pow(256, DataBytes(i.op)) && i.size - 1 <= DataBytes(i.op) <= 32)
  {
    hide Decode, FromBigEndian, ToBigEndian;
    var i := InstructionAt(code, pc);
    var data := code[pc + 1..pc + i.size];
    assert code[pc..pc + i.size] == [code[pc]] + data;
    BigEndianRoundTrip(data);
    BigEndianBound(data);
    if i.op.PUSH? {
      Pow256Monotone(|data|, DataBytes(i.op));
    }
    if DataBytes(i.op) == 0 {
      assert data == [];
    }
  }

  /** The JUMPDEST offsets of the sweep are the valid jump destinations of the machine. */
  lemma {:induction false} JumpdestsAreValidJumps(code: seq<Byte>, pc: nat, t: nat)
    requires pc <= |code|
    ensures (exists i :: i in SweepFrom(code, pc) && i.op.JUMPDEST? && i.offset == t) <==> t in Evm.ValidJumps(code, pc)
    decreases |code| - pc
  {
    hide InstructionAt, DecodeArithmetic, DecodeEnvironment, DecodeStateAndFlow, DecodeSystem;
    if pc < |code| {
      var i := InstructionAt(code, pc);
      var rest := SweepFrom(code, pc + i.size);
      JumpdestsAreValidJumps(code, pc + i.size, t);
      assert forall x :: x in SweepFrom(code, pc) <==> x == i || x in rest;
      if Evm.NextStart(pc, code[pc]) > |code| {
        assert pc + i.size == |code|;
      } else {
        assert pc + i.size == Evm.NextStart(pc, code[pc]);
      }
    }
  }

  /**
   For code that is not an EOF container the sweep loses nothing: it tiles the
   code, its raw bytes concatenate to the code, and its JUMPDESTs are exactly
   the valid jump destinations.
   */
  lemma DisassemblyLossless(code: seq<Byte>)
    requires !IsEof(code)
    ensures Tiles(Instructions(code), 0, |code|)
    ensures Concat(Raws(Instructions(code))) == code
    ensures forall i :: i in Instructions(code) ==> Assemble(i) == i.raw
    ensures forall t: nat ::
      ((exists i :: i in Instructions(code) && i.op.JUMPDEST? && i.offset == t) <==> t in Evm.ValidJumps(code, 0))
  {
    hide Decode, InstructionAt;
    SweepTiles(code, 0);
    SweepConcatenates(code, 0);
    assert code[0..] == code;
    forall i | i in Instructions(code) ensures Assemble(i) == i.raw {
      var k :| 0 <= k < |Instructions(code)| && Instructions(code)[k] == i;
      SweepReads(code, 0, k);
      InstructionLossless(code, i.offset);
    }
    forall t: nat ensures (exists i :: i in Instructions(code) && i.op.JUMPDEST? && i.offset == t)
      <==> t in Evm.ValidJumps(code, 0)
    {
      JumpdestsAreValidJumps(code, 0, t);
    }
  }

  lemma {:induction false} PushBytesAre(code: seq<Byte>, pc: nat, n: nat)
    requires pc + 1 + n <= |code|
    ensures Evm.PushBytes(code, pc, n) == code[pc+1..pc+1+n]
  {
    if n > 0 {
      PushBytesAre(code, pc, n - 1);
    }
  }

  /** A PUSH that the code does not cut off pushes its operand value. */
  lemma PushedWord(code: seq<Byte>, pc: nat)
    requires pc < |code| && Decode(code[pc]).PUSH? && pc + 1 + DataBytes(Decode(code[pc])) <= |code|
    ensures InstructionAt(code, pc).operandValue == Some(Evm.PushWord(code, pc, Decode(code[pc]).n))
    ensures InstructionAt(code, pc).size == 1 + DataBytes(Decode(code[pc]))
  {
    PushBytesAre(code, pc, Decode(code[pc]).n);
  }
}
