/** Bytecode whose blocks form the chain on which the cap on sweeps fails. */
module ChainCode {
  import opened Words
  import opened Opcodes
  import opened Disassembler
  import opened Blocks
  import opened Graphs
  import opened Dominators
  import opened ControlFlow
  import opened SweepOrder

  /** The last block number whose offset fits in a PUSH2. */
  const MAX_BLOCKS: nat := 13107

  /** Block 0 is PUSH2 and JUMP; every other block starts with a JUMPDEST, and block 1 ends with a STOP. */
  function Offset(b: nat): nat {
    if b == 0 then 0 else 5 * b - 1
  }

  function Target(n: nat, b: nat): nat
    requires n >= 2
  {
    if b == 0 then n - 1 else if b == 1 then 0 else b - 1
  }

  function EndByte(b: nat): Byte {
    if b == 1 then 0x00 else 0x56
  }

  function ByteOf(n: nat, b: nat, r: nat): Byte
    requires 2 <= n <= MAX_BLOCKS && b < n && r < 5
  {
    if r == 0 then 0x5B
    else if r == 1 then 0x61
    else if r == 2 then Offset(Target(n, b)) / 256
    else if r == 3 then Offset(Target(n, b)) % 256
    else EndByte(b)
  }

  function Code(n: nat): (c: seq<Byte>)
    requires 2 <= n <= MAX_BLOCKS
    ensures |c| == 5 * n - 1
  {
    seq(5 * n - 1, i requires 0 <= i < 5 * n - 1 => ByteOf(n, (i + 1) / 5, (i + 1) % 5))
  }

  lemma CodeAt(n: nat, b: nat, r: nat)
    requires 2 <= n <= MAX_BLOCKS && b < n && r < 5 && (b > 0 || r > 0)
    ensures 0 <= 5 * b + r - 1 < |Code(n)| && Code(n)[5 * b + r - 1] == ByteOf(n, b, r)
  {
    assert (5 * b + r) / 5 == b && (5 * b + r) % 5 == r;
  }

  // ---- Its instructions and blocks ----

  function First(b: nat): Instruction
    requires b > 0
  {
    Instruction(5 * b - 1, JUMPDEST, 0x5B, None, [0x5B], 1)
  }

  function Push(n: nat, b: nat): Instruction
    requires 2 <= n <= MAX_BLOCKS && b < n
  {
    var t := Offset(Target(n, b));
    Instruction(5 * b, PUSH(2), 0x61, Some(t), [0x61, t / 256, t % 256], 3)
  }

  function End(b: nat): Instruction {
    Instruction(5 * b + 3, if b == 1 then STOP else JUMP, EndByte(b), None, [EndByte(b)], 1)
  }

  function Block(n: nat, b: nat): Segment
    requires 2 <= n <= MAX_BLOCKS && b < n
  {
    if b == 0 then [Push(n, b), End(b)] else [First(b), Push(n, b), End(b)]
  }

  function Segments(n: nat): (segs: seq<Segment>)
    requires 2 <= n <= MAX_BLOCKS
    ensures |segs| == n && forall b :: 0 <= b < n ==> segs[b] == Block(n, b)
  {
    seq(n, b requires 0 <= b < n => Block(n, b))
  }

  lemma DecodeChain()
    ensures Decode(0x5B) == JUMPDEST && Decode(0x61) == PUSH(2) && Decode(0x56) == JUMP && Decode(0x00) == STOP
  {
  }

  lemma ReadsBlock(n: nat, b: nat)
    requires 2 <= n <= MAX_BLOCKS && b < n
    ensures b > 0 ==> InstructionAt(Code(n), 5 * b - 1) == First(b)
    ensures InstructionAt(Code(n), 5 * b) == Push(n, b)
    ensures InstructionAt(Code(n), 5 * b + 3) == End(b)
  {
    hide Decode, FromBigEndian, Code;
    DecodeChain();
    var code := Code(n);
    if b > 0 {
      CodeAt(n, b, 0);
    }
    CodeAt(n, b, 1);
    CodeAt(n, b, 2);
    CodeAt(n, b, 3);
    CodeAt(n, b, 4);
    var t := Offset(Target(n, b));
    TwoBytes(t / 256, t % 256);
    assert code[5 * b + 1..5 * b + 3] == [t / 256, t % 256];
    assert code[5 * b..5 * b + 3] == [0x61, t / 256, t % 256];
  }

  /** The instructions from block `b` on. */
  function From(n: nat, b: nat): Segment
    requires 2 <= n <= MAX_BLOCKS && b <= n
    decreases n - b
  {
    if b == n then [] else Block(n, b) + From(n, b + 1)
  }

  lemma SweepStep(code: seq<Byte>, pc: nat, i: Instruction)
    requires pc < |code| && InstructionAt(code, pc) == i
    ensures pc + i.size <= |code| && SweepFrom(code, pc) == [i] + SweepFrom(code, pc + i.size)
  {
  }

  lemma {:induction false} SweepOfChain(n: nat, b: nat)
    requires 2 <= n <= MAX_BLOCKS && b <= n
    ensures SweepFrom(Code(n), Offset(b)) == From(n, b)
    decreases n - b
  {
    hide Code, Block, SweepFrom, InstructionAt;
    if b < n {
      SweepOfChain(n, b + 1);
      BlockSwept(n, b);
    } else {
      SweepEnd(Code(n));
    }
  }

  lemma InFront(a: Instruction, b: Instruction, c: Instruction, rest: Segment)
    ensures [b] + ([c] + rest) == [b, c] + rest
    ensures [a] + ([b] + ([c] + rest)) == [a, b, c] + rest
  {
  }

  lemma BlockSwept(n: nat, b: nat)
    requires 2 <= n <= MAX_BLOCKS && b < n
    ensures SweepFrom(Code(n), Offset(b)) == Block(n, b) + SweepFrom(Code(n), Offset(b + 1))
  {
    hide InstructionAt, Code, SweepFrom, Push, End, First;
    var code := Code(n);
    var rest := SweepFrom(code, Offset(b + 1));
    ReadsBlock(n, b);
    Sizes(n, b);
    SweepStep(code, 5 * b + 3, End(b));
    SweepStep(code, 5 * b, Push(n, b));
    InFront(if b > 0 then First(b) else End(b), Push(n, b), End(b), rest);
    if b > 0 {
      SweepStep(code, 5 * b - 1, First(b));
    }
  }

  lemma Sizes(n: nat, b: nat)
    requires 2 <= n <= MAX_BLOCKS && b < n
    ensures Push(n, b).size == 3 && End(b).size == 1 && (b > 0 ==> First(b).size == 1)
  {
  }

  lemma {:induction false} FlattenOfChain(n: nat, b: nat)
    requires 2 <= n <= MAX_BLOCKS && b <= n
    ensures Flatten(Segments(n)[..b]) + From(n, b) == From(n, 0)
  {
    hide Block;
    if b > 0 {
      FlattenOfChain(n, b - 1);
      assert Segments(n)[..b][..b-1] == Segments(n)[..b-1];
    }
  }

  lemma ChainNotEof(n: nat)
    requires 2 <= n <= MAX_BLOCKS
    ensures !IsEof(Code(n))
  {
    CodeAt(n, 0, 1);
  }

  lemma ChainBlocks(n: nat)
    requires 2 <= n <= MAX_BLOCKS
    ensures BlocksOf(Code(n), Segments(n))
  {
    hide Code, Flatten, SweepFrom, LaidOut, From, IsEof;
    ChainNotEof(n);
    InstructionsLaidOut(Code(n));
    SweepOfChain(n, 0);
    FlattenOfChain(n, n);
    NothingBehind(n);
    forall b | 0 <= b < n ensures IsBlock(Segments(n)[b]) && IsTerminator(Last(Segments(n)[b]).op) {
      OneBlock(n, b);
    }
  }

  lemma NothingBehind(n: nat)
    requires 2 <= n <= MAX_BLOCKS
    ensures Flatten(Segments(n)[..n]) + From(n, n) == Flatten(Segments(n))
  {
    assert Segments(n)[..n] == Segments(n);
  }

  lemma OneBlock(n: nat, b: nat)
    requires 2 <= n <= MAX_BLOCKS && b < n
    ensures IsBlock(Block(n, b)) && IsTerminator(Last(Block(n, b)).op)
  {
  }

  // ---- Its static edges ----

  lemma ChainExits(n: nat, b: nat)
    requires 2 <= n <= MAX_BLOCKS && b < n && BlocksOf(Code(n), Segments(n))
    ensures Exits(Code(n), Segments(n), b) == if b == 1 then [] else [(Target(n, b), Offset(Target(n, b)))]
  {
    hide BlocksOf, Code, JumpdestOffsets, BlockAt, Instructions, Decode;
    var segs, t := Segments(n), Target(n, b);
    if b != 1 {
      assert segs[t] == Block(n, t);
      assert PushedEdge(segs, b, (t, Offset(t)));
      ExitsAre(Code(n), segs, b, (t, Offset(t)));
    }
  }

  lemma ChainNeighbours(n: nat, b: nat)
    requires n >= 2
    ensures Neighbours(ChainSuccs(n), b) == if b < n && b != 1 then [Target(n, b)] else []
  {
  }

  lemma FirstsOfOne(x: nat, y: nat)
    ensures Firsts([(x, y)]) == [x] && Firsts([]) == []
  {
  }

  /** The static edges of this code are those of the chain. */
  lemma ChainIsCode(n: nat)
    requires 2 <= n <= MAX_BLOCKS
    ensures BlocksOf(Code(n), Segments(n)) && EdgesAre(Code(n), Segments(n), ChainSuccs(n))
  {
    ChainBlocks(n);
    NoEmptyBlock(Sliced(Code(n), Segments(n)));
    hide BlocksOf, Code, Exits, Block, Segments, ChainSuccs;
    forall b: nat
      ensures Neighbours(ChainSuccs(n), b) == if b < n then Firsts(Exits(Code(n), Segments(n), b)) else []
    {
      ChainNeighbours(n, b);
      if b < n {
        ChainExits(n, b);
        FirstsOfOne(Target(n, b), Offset(Target(n, b)));
      }
    }
  }

  /**
   So there is bytecode of 103 blocks for which the reported dominators are
   wrong: with that many blocks or more, block 2 is reported as dominated by
   block 1, which a path of static edges avoids.
   */
  lemma {:induction false} CodeGetsWrongDominators(n: nat)
    requires 103 <= n <= MAX_BLOCKS
    ensures BlocksOf(Code(n), Segments(n)) && EdgesAre(Code(n), Segments(n), ChainSuccs(n))
    ensures Chain(n).Describes(ChainSuccs(n))
    ensures 1 in DomsOf(AfterRounds(Chain(n), MAX_ROUNDS), 2) && !Dominates(ChainSuccs(n), 0, 1, 2)
  {
    hide Code, Segments, BlocksOf, EdgesAre, AfterRounds;
    ChainIsCode(n);
    CapGivesWrongDominators(n, MAX_ROUNDS);
  }
}
