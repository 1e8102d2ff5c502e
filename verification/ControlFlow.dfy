/** From bytes to dominators. */
module ControlFlow {
  // Every run of the machine walks the static edges of the basic blocks, so the
  // blocks reported as dominators have run before.

  import opened Words
  import opened Opcodes
  import opened Disassembler
  import opened Blocks
  import opened Graphs
  import opened Dominators
  import opened InstructionTable
  import Evm

  // ---- Positions of instructions ----

  /** Instructions sit end to end from offset 0, each as the sweep reads it. */
  ghost predicate LaidOut(code: seq<Byte>, instrs: seq<Instruction>) {
    && (forall a :: 0 <= a < |instrs| ==>
          instrs[a].offset < |code| && instrs[a] == InstructionAt(code, instrs[a].offset))
    && (forall a, b :: 0 <= a && b == a + 1 && b < |instrs| ==> instrs[b].offset == instrs[a].offset + instrs[a].size)
    && (instrs != [] ==> instrs[0].offset == 0 && Last(instrs).offset + Last(instrs).size == |code|)
    && (instrs == [] ==> code == [])
  }

  lemma {:induction false} SweepIsChained(code: seq<Byte>, pc: nat)
    requires pc < |code|
    ensures var s := SweepFrom(code, pc);
      && s != [] && s[0].offset == pc && Last(s).offset + Last(s).size == |code|
      && forall a, b :: 0 <= a && b == a + 1 && b < |s| ==> s[b].offset == s[a].offset + s[a].size
    decreases |code| - pc
  {
    hide InstructionAt, Decode;
    var i := InstructionAt(code, pc);
    if pc + i.size < |code| {
      SweepIsChained(code, pc + i.size);
      var rest := SweepFrom(code, pc + i.size);
      var s := SweepFrom(code, pc);
      assert s == [i] + rest;
      forall a, b | 0 <= a && b == a + 1 && b < |s| ensures s[b].offset == s[a].offset + s[a].size {
        assert s[b] == rest[a];
        assert a > 0 ==> s[a] == rest[a-1];
      }
    }
  }

  lemma InstructionsLaidOut(code: seq<Byte>)
    requires !IsEof(code)
    ensures LaidOut(code, Instructions(code))
  {
    if code != [] {
      SweepIsChained(code, 0);
      forall a | 0 <= a < |Instructions(code)|
        ensures var x := Instructions(code)[a]; x.offset < |code| && x == InstructionAt(code, x.offset)
      {
        SweepReads(code, 0, a);
      }
    }
  }

  lemma {:induction false} OffsetsIncrease(code: seq<Byte>, instrs: seq<Instruction>, a: nat, b: nat)
    requires LaidOut(code, instrs) && a < b < |instrs|
    ensures instrs[a].offset < instrs[b].offset
    decreases b
  {
    if a < b - 1 {
      OffsetsIncrease(code, instrs, a, b - 1);
    }
    assert instrs[b].offset == instrs[b-1].offset + instrs[b-1].size;
  }

  /** How many instructions come before block `i`. */
  function StartIndex(segs: seq<Segment>, i: nat): nat
    requires i <= |segs|
  {
    |Flatten(segs[..i])|
  }

  lemma {:induction false} FlattenIndex(segs: seq<Segment>, i: nat, j: nat)
    requires i < |segs| && j < |segs[i]|
    ensures StartIndex(segs, i) + |segs[i]| == StartIndex(segs, i + 1)
    ensures StartIndex(segs, i) + j < |Flatten(segs)| && Flatten(segs)[StartIndex(segs, i) + j] == segs[i][j]
    decreases |segs|
  {
    assert segs[..i+1][..i] == segs[..i];
    if i < |segs| - 1 {
      var init := segs[..|segs|-1];
      FlattenIndex(init, i, j);
      assert init[..i] == segs[..i] && init[..i+1] == segs[..i+1];
    } else {
      assert segs[..|segs|] == segs;
    }
  }

  lemma {:induction false} FlattenPosition(segs: seq<Segment>, g: nat) returns (i: nat, j: nat)
    requires g < |Flatten(segs)|
    ensures i < |segs| && j < |segs[i]| && g == StartIndex(segs, i) + j && Flatten(segs)[g] == segs[i][j]
    decreases |segs|
  {
    var init := segs[..|segs|-1];
    if g < |Flatten(init)| {
      i, j := FlattenPosition(init, g);
      assert init[..i] == segs[..i];
    } else {
      i, j := |segs| - 1, g - |Flatten(init)|;
    }
  }

  /** Blocks of some code, cut from its sweep. */
  ghost predicate BlocksOf(code: seq<Byte>, segs: seq<Segment>) {
    && !IsEof(code)
    && LaidOut(code, Instructions(code))
    && IsPartition(segs, Instructions(code))
  }

  /** The cut computed for any legacy code. */
  lemma CutBlocksOf(code: seq<Byte>)
    requires !IsEof(code)
    ensures BlocksOf(code, Cut(Instructions(code)))
  {
    InstructionsLaidOut(code);
    CutIsPartition(Instructions(code));
  }

  ghost predicate At(segs: seq<Segment>, i: nat, j: nat, pc: nat) {
    i < |segs| && j < |segs[i]| && segs[i][j].offset == pc
  }

  /** An offset belongs to one position only. */
  lemma PositionUnique(code: seq<Byte>, segs: seq<Segment>, i: nat, j: nat, k: nat, m: nat, pc: nat)
    requires BlocksOf(code, segs) && At(segs, i, j, pc) && At(segs, k, m, pc)
    ensures i == k && j == m
  {
    hide InstructionAt, Decode;
    var instrs := Instructions(code);
    FlattenIndex(segs, i, j);
    FlattenIndex(segs, k, m);
    var g, h := StartIndex(segs, i) + j, StartIndex(segs, k) + m;
    if g < h {
      OffsetsIncrease(code, instrs, g, h);
    } else if h < g {
      OffsetsIncrease(code, instrs, h, g);
    }
    if i < k {
      StartsIncrease(segs, i + 1, k);
    } else if k < i {
      StartsIncrease(segs, k + 1, i);
    }
  }

  lemma {:induction false} StartsIncrease(segs: seq<Segment>, i: nat, k: nat)
    requires i <= k <= |segs| && forall i :: 0 <= i < |segs| ==> segs[i] != []
    ensures StartIndex(segs, i) <= StartIndex(segs, k)
    decreases k
  {
    if i < k {
      StartsIncrease(segs, i, k - 1);
      FlattenIndex(segs, k - 1, 0);
    }
  }

  // ---- Static edges ----

  /** The index maps the start offset of every block to that block. */
  lemma {:induction false} BlockAtStart(code: seq<Byte>, segs: seq<Segment>, n: nat, i: nat)
    requires BlocksOf(code, segs) && i < n <= |segs|
    ensures segs[i][0].offset in BlockAt(segs, n) && BlockAt(segs, n)[segs[i][0].offset] == i
    decreases n
  {
    hide Decode, InstructionAt, Instructions, LaidOut, CutsForced, IsEof;
    if i < n - 1 {
      BlockAtStart(code, segs, n - 1, i);
      if segs[i][0].offset == segs[n-1][0].offset {
        PositionUnique(code, segs, i, 0, n - 1, 0, segs[i][0].offset);
      }
    }
  }

  lemma {:induction false} BlockAtOnlyStarts(segs: seq<Segment>, n: nat, t: nat)
    requires n <= |segs| && (forall i :: 0 <= i < |segs| ==> segs[i] != []) && t in BlockAt(segs, n)
    ensures BlockAt(segs, n)[t] < n && segs[BlockAt(segs, n)[t]][0].offset == t
    decreases n
  {
    if t != segs[n-1][0].offset {
      BlockAtOnlyStarts(segs, n - 1, t);
    }
  }

  function Exits(code: seq<Byte>, segs: seq<Segment>, i: nat): seq<(nat, nat)>
    requires i < |segs| && forall i :: 0 <= i < |segs| ==> segs[i] != []
  {
    StaticExits(segs, JumpdestOffsets(Instructions(code)), i)
  }

  /** The instruction before the last is a PUSH. */
  predicate PushedLast(s: Segment) {
    |s| >= 2 && s[|s|-2].op.PUSH?
  }

  /** A jump whose target is pushed just before it, to a block that starts with a JUMPDEST. */
  predicate PushedEdge(segs: seq<Segment>, i: nat, e: (nat, nat))
    requires i < |segs| && forall i :: 0 <= i < |segs| ==> segs[i] != []
  {
    && (Last(segs[i]).op.JUMP? || Last(segs[i]).op.JUMPI?)
    && PushedLast(segs[i]) && segs[i][|segs[i]|-2].operandValue == Some(e.1)
    && e.0 < |segs| && segs[e.0][0].offset == e.1 && segs[e.0][0].op.JUMPDEST?
  }

  /** On to the next block, after a JUMPI or an instruction that ends no block. */
  predicate NextEdge(segs: seq<Segment>, i: nat, e: (nat, nat))
    requires i < |segs| && forall i :: 0 <= i < |segs| ==> segs[i] != []
  {
    && e.0 == i + 1 < |segs| && segs[i+1][0].offset == e.1
    && (Last(segs[i]).op.JUMPI? || !IsTerminator(Last(segs[i]).op))
  }

  /** These are the static edges, and no others. */
  lemma ExitsAre(code: seq<Byte>, segs: seq<Segment>, i: nat, e: (nat, nat))
    requires BlocksOf(code, segs) && i < |segs|
    ensures e in Exits(code, segs, i) <==> PushedEdge(segs, i, e) || NextEdge(segs, i, e)
  {
    hide Decode, InstructionAt, SweepFrom, LaidOut, CutsForced, BlockAt, JumpdestOffsets;
    var jumpdests, blockAt := JumpdestOffsets(Instructions(code)), BlockAt(segs, |segs|);
    if PushedEdge(segs, i, e) {
      StartIsJumpdest(code, segs, e.0);
      BlockAtStart(code, segs, |segs|, e.0);
      PushedExit(segs, jumpdests, i, e.1);
    } else if NextEdge(segs, i, e) {
      NextExit(segs, jumpdests, i);
    } else if e in Exits(code, segs, i) {
      var target := PushedTarget(segs[i], jumpdests, blockAt);
      assert target.Some? && e == (blockAt[target.value], target.value);
      PushedLands(code, segs, e.1);
    }
  }

  lemma StartIsJumpdest(code: seq<Byte>, segs: seq<Segment>, k: nat)
    requires BlocksOf(code, segs) && k < |segs| && segs[k][0].op.JUMPDEST?
    ensures segs[k][0].offset in JumpdestOffsets(Instructions(code))
  {
    hide Decode, InstructionAt, SweepFrom, LaidOut, CutsForced;
    FlattenIndex(segs, k, 0);
    assert segs[k][0] in Instructions(code);
  }

  lemma PushedLands(code: seq<Byte>, segs: seq<Segment>, t: nat)
    requires BlocksOf(code, segs) && t in JumpdestOffsets(Instructions(code)) && t in BlockAt(segs, |segs|)
    ensures var k := BlockAt(segs, |segs|)[t]; k < |segs| && segs[k][0].offset == t && segs[k][0].op.JUMPDEST?
  {
    hide Decode, InstructionAt, SweepFrom, LaidOut, CutsForced, BlockAt;
    BlockAtOnlyStarts(segs, |segs|, t);
    var x :| x in Instructions(code) && x.op.JUMPDEST? && x.offset == t;
    var k, m := JumpdestStartsBlock(code, segs, x);
    PositionUnique(code, segs, k, m, BlockAt(segs, |segs|)[t], 0, t);
  }

  lemma JumpdestStartsBlock(code: seq<Byte>, segs: seq<Segment>, x: Instruction) returns (i: nat, j: nat)
    requires BlocksOf(code, segs) && x in Instructions(code) && x.op.JUMPDEST?
    ensures At(segs, i, j, x.offset) && j == 0 && segs[i][0] == x
  {
    var g :| 0 <= g < |Instructions(code)| && Instructions(code)[g] == x;
    i, j := FlattenPosition(segs, g);
  }

  // ---- Runs and static edges ----

  /** Legacy code with its blocks. */
  datatype Sliced = Sliced(code: seq<Byte>, segs: seq<Segment>)

  type Program = p: Sliced | BlocksOf(p.code, p.segs) witness Sliced([], [])

  lemma NoEmptyBlock(p: Program)
    ensures forall i :: 0 <= i < |p.segs| ==> p.segs[i] != []
  {
  }

  /** Just after a PUSH, its operand is on top of the stack. */
  ghost predicate Primed(segs: seq<Segment>, i: nat, j: nat, stack: seq<Word>)
    requires i < |segs| && j < |segs[i]|
  {
    j > 0 && segs[i][j-1].op.PUSH? ==>
      |stack| > 0 && segs[i][j-1].operandValue == Some(Evm.Peek(stack, 0))
  }

  lemma PushedExit(segs: seq<Segment>, jumpdests: set<nat>, i: nat, t: nat)
    requires i < |segs| && forall i :: 0 <= i < |segs| ==> segs[i] != []
    requires Last(segs[i]).op.JUMP? || Last(segs[i]).op.JUMPI?
    requires PushedLast(segs[i]) && segs[i][|segs[i]|-2].operandValue == Some(t)
    requires t in jumpdests && t in BlockAt(segs, |segs|)
    ensures (BlockAt(segs, |segs|)[t], t) in StaticExits(segs, jumpdests, i)
  {
    assert PushedTarget(segs[i], jumpdests, BlockAt(segs, |segs|)) == Some(t);
    assert StaticExits(segs, jumpdests, i)[0] == (BlockAt(segs, |segs|)[t], t);
  }

  lemma NextExit(segs: seq<Segment>, jumpdests: set<nat>, i: nat)
    requires i + 1 < |segs| && forall i :: 0 <= i < |segs| ==> segs[i] != []
    requires Last(segs[i]).op.JUMPI? || !IsTerminator(Last(segs[i]).op)
    ensures (i + 1, segs[i+1][0].offset) in StaticExits(segs, jumpdests, i)
  {
    var es := StaticExits(segs, jumpdests, i);
    assert es[|es|-1] == (i + 1, segs[i+1][0].offset);
  }

  /** A valid jump destination starts a block with its JUMPDEST. */
  lemma DestinationStartsBlock(p: Program, dest: nat) returns (k: nat)
    requires dest in Evm.ValidJumps(p.code, 0)
    ensures At(p.segs, k, 0, dest) && p.segs[k][0].op.JUMPDEST?
  {
    hide Decode, InstructionAt, SweepFrom, LaidOut, CutsForced;
    JumpdestsAreValidJumps(p.code, 0, dest);
    var x :| x in Instructions(p.code) && x.op.JUMPDEST? && x.offset == dest;
    var j;
    k, j := JumpdestStartsBlock(p.code, p.segs, x);
  }

  /** The machine jumps here, rather than going on. */
  predicate TakesJump(code: seq<Byte>, s: Evm.Machine) {
    && s.pc < |code|
    && (Decode(code[s.pc]).JUMP? || (Decode(code[s.pc]).JUMPI? && |s.stack| >= 2 && Evm.Peek(s.stack, 1) != 0))
  }

  /** The blocks show a jump from block `i` to `dest`: a PUSH stands before it, or a JUMPI goes where it would fall. */
  predicate JumpShown(segs: seq<Segment>, i: nat, dest: nat)
    requires i < |segs| && forall i :: 0 <= i < |segs| ==> segs[i] != []
  {
    PushedLast(segs[i]) || (Last(segs[i]).op.JUMPI? && i + 1 < |segs| && segs[i+1][0].offset == dest)
  }

  /** A jump takes a static edge exactly when the blocks show it. */
  lemma JumpIsStaticIff(p: Program, s: Evm.Machine, t: Evm.Machine, i: nat, j: nat) returns (k: nat)
    requires At(p.segs, i, j, s.pc) && Primed(p.segs, i, j, s.stack)
    requires Evm.Step(p.code, s, t) && TakesJump(p.code, s)
    ensures At(p.segs, k, 0, t.pc)
    ensures (k, t.pc) in Exits(p.code, p.segs, i) <==> JumpShown(p.segs, i, t.pc)
    ensures (exists e :: e in Exits(p.code, p.segs, i) && e.1 == t.pc) <==> JumpShown(p.segs, i, t.pc)
  {
    hide Decode, InstructionAt, BlocksOf, Evm.StackStep, Evm.Shuffle, Evm.Step, Evm.Table, Evm.Stands, Exits;
    PositionDecodes(p, i, j, s.pc);
    StepIs(p.code, s, t);
    NoEmptyBlock(p);
    k := DestinationStartsBlock(p, t.pc);
    ExitsAre(p.code, p.segs, i, (k, t.pc));
    if JumpShown(p.segs, i, t.pc) && !PushedLast(p.segs[i]) {
      PositionUnique(p.code, p.segs, k, 0, i + 1, 0, t.pc);
    }
    forall e | e in Exits(p.code, p.segs, i) && e.1 == t.pc ensures JumpShown(p.segs, i, t.pc) {
      ExitsAre(p.code, p.segs, i, e);
    }
  }

  /** Behind a block there is the next one. */
  lemma NextBlock(p: Program, i: nat)
    requires i < |p.segs| && Last(p.segs[i]).offset + Last(p.segs[i]).size < |p.code|
    ensures i + 1 < |p.segs|
    ensures p.segs[i+1][0].offset == Last(p.segs[i]).offset + Last(p.segs[i]).size
  {
    hide Decode, InstructionAt, Instructions, CutsForced, Flatten, StartIndex;
    var instrs := Instructions(p.code);
    var j := |p.segs[i]| - 1;
    FlattenIndex(p.segs, i, j);
    var g := StartIndex(p.segs, i) + j;
    assert instrs[g] == Last(p.segs[i]);
    WholeStart(p.segs);
    if i + 1 < |p.segs| {
      FlattenIndex(p.segs, i + 1, 0);
      assert instrs[g + 1].offset == instrs[g].offset + instrs[g].size;
    }
  }

  lemma WholeStart(segs: seq<Segment>)
    ensures StartIndex(segs, |segs|) == |Flatten(segs)|
  {
    assert segs[..|segs|] == segs;
  }

  /** The instruction at a position is the one the machine decodes there. */
  lemma PositionDecodes(p: Program, i: nat, j: nat, pc: nat)
    requires At(p.segs, i, j, pc)
    ensures pc < |p.code| && p.segs[i][j] == InstructionAt(p.code, pc)
    ensures j + 1 < |p.segs[i]| ==> p.segs[i][j+1].offset == pc + p.segs[i][j].size
    ensures IsTerminator(p.segs[i][j].op) ==> j == |p.segs[i]| - 1
  {
    assert BlocksOf(p.code, p.segs) && IsPartition(p.segs, Instructions(p.code));
    hide InstructionAt, Decode, IsTerminator, Instructions, StartIndex, CutsForced;
    FlattenIndex(p.segs, i, j);
    var g := StartIndex(p.segs, i) + j;
    assert Instructions(p.code)[g] == p.segs[i][j];
    if j + 1 < |p.segs[i]| {
      FlattenIndex(p.segs, i, j + 1);
      assert Instructions(p.code)[g + 1] == p.segs[i][j + 1];
    }
  }

  /** A step that does not jump goes on to the next instruction, with a pushed operand on the stack. */
  lemma StepAdvances(code: seq<Byte>, s: Evm.Machine, t: Evm.Machine)
    requires s.pc < |code| && Evm.Step(code, s, t) && t.pc < |code| && !TakesJump(code, s)
    ensures t.pc == s.pc + InstructionAt(code, s.pc).size
    ensures Decode(code[s.pc]).JUMPI? || !IsTerminator(Decode(code[s.pc]))
    ensures Decode(code[s.pc]).PUSH? ==>
      |t.stack| > 0 && InstructionAt(code, s.pc).operandValue == Some(Evm.Peek(t.stack, 0))
  {
    hide Decode, Evm.StackStep, Evm.Step, Evm.Stands, Evm.PushWord;
    StepIs(code, s, t);
    NextStartIs(s.pc, code[s.pc]);
    TerminatorIff(Decode(code[s.pc]));
    if Decode(code[s.pc]).PUSH? {
      PushedWord(code, s.pc);
    }
  }

  /** Falling out of a block goes to the next one. */
  lemma FellThrough(p: Program, i: nat, pc: nat)
    requires i < |p.segs|
    requires pc == Last(p.segs[i]).offset + Last(p.segs[i]).size < |p.code|
    requires Last(p.segs[i]).op.JUMPI? || !IsTerminator(Last(p.segs[i]).op)
    ensures At(p.segs, i + 1, 0, pc) && (i + 1, pc) in Exits(p.code, p.segs, i)
  {
    hide Decode, InstructionAt, StaticExits, Flatten, CutsForced, LaidOut, Instructions, IsTerminator;
    NextBlock(p, i);
    NextExit(p.segs, JumpdestOffsets(Instructions(p.code)), i);
  }

  /** From instruction `j` of block `i` to instruction `m` of block `k`, at `dest`. */
  ghost predicate Follows(p: Program, s: Evm.Machine, dest: nat, i: nat, j: nat, k: nat, m: nat)
    requires i < |p.segs|
  {
    NoEmptyBlock(p);
    if TakesJump(p.code, s)
    then m == 0 && ((k, dest) in Exits(p.code, p.segs, i) <==> JumpShown(p.segs, i, dest))
    else (k == i && m == j + 1) || (m == 0 && (k, dest) in Exits(p.code, p.segs, i))
  }

  /** One step stays inside the block, takes a static edge to the start of another, or jumps where no block shows. */
  lemma {:induction false} StepTakesEdge(p: Program, s: Evm.Machine, t: Evm.Machine, i: nat, j: nat)
    returns (k: nat, m: nat)
    requires At(p.segs, i, j, s.pc) && Primed(p.segs, i, j, s.stack)
    requires Evm.Step(p.code, s, t) && t.pc < |p.code|
    ensures At(p.segs, k, m, t.pc) && Primed(p.segs, k, m, t.stack)
    ensures Follows(p, s, t.pc, i, j, k, m)
  {
    hide Decode, InstructionAt, BlocksOf, Evm.Step, Exits;
    PositionDecodes(p, i, j, s.pc);
    if TakesJump(p.code, s) {
      k := JumpIsStaticIff(p, s, t, i, j);
      m := 0;
    } else {
      StepAdvances(p.code, s, t);
      if j < |p.segs[i]| - 1 {
        k, m := i, j + 1;
      } else {
        FellThrough(p, i, t.pc);
        k, m := i + 1, 0;
      }
    }
  }

  /** The step stays in its block, or takes a static edge. */
  ghost predicate OnEdge(p: Program, s: Evm.Machine, t: Evm.Machine) {
    exists i: nat, j: nat, k: nat, m: nat :: At(p.segs, i, j, s.pc) && At(p.segs, k, m, t.pc)
      && ((k == i && m == j + 1) || (m == 0 && (k, t.pc) in Exits(p.code, p.segs, i)))
  }

  /** If the step jumps, the blocks show the jump. */
  ghost predicate StepShown(p: Program, s: Evm.Machine, t: Evm.Machine) {
    TakesJump(p.code, s) ==> exists i: nat, j: nat :: At(p.segs, i, j, s.pc) && JumpShown(p.segs, i, t.pc)
  }

  ghost predicate RunOnEdges(p: Program, run: seq<Evm.Machine>) {
    forall a, b :: 0 <= a && b == a + 1 && b < |run| ==> OnEdge(p, run[a], run[b])
  }

  /** The blocks show every jump that the run takes. */
  ghost predicate RunShown(p: Program, run: seq<Evm.Machine>) {
    forall a, b :: 0 <= a && b == a + 1 && b < |run| ==> StepShown(p, run[a], run[b])
  }

  lemma StepOnEdgeIff(p: Program, s: Evm.Machine, t: Evm.Machine, i: nat, j: nat)
    requires At(p.segs, i, j, s.pc) && Primed(p.segs, i, j, s.stack)
    requires Evm.Step(p.code, s, t) && t.pc < |p.code|
    ensures OnEdge(p, s, t) <==> StepShown(p, s, t)
  {
    hide BlocksOf, Evm.Step, Exits, Decode;
    NoEmptyBlock(p);
    var k, m := StepTakesEdge(p, s, t, i, j);
    if OnEdge(p, s, t) {
      var i2: nat, j2: nat, k2: nat, m2: nat :| At(p.segs, i2, j2, s.pc) && At(p.segs, k2, m2, t.pc)
        && ((k2 == i2 && m2 == j2 + 1) || (m2 == 0 && (k2, t.pc) in Exits(p.code, p.segs, i2)));
      PositionUnique(p.code, p.segs, i, j, i2, j2, s.pc);
      PositionUnique(p.code, p.segs, k, m, k2, m2, t.pc);
    }
    if StepShown(p, s, t) && TakesJump(p.code, s) {
      var i2: nat, j2: nat :| At(p.segs, i2, j2, s.pc) && JumpShown(p.segs, i2, t.pc);
      PositionUnique(p.code, p.segs, i, j, i2, j2, s.pc);
    }
  }

  /** Wherever a run has got to, it is at an instruction of some block, with its pushed operand. */
  lemma {:induction false} RunPosition(p: Program, run: seq<Evm.Machine>) returns (i: nat, j: nat)
    requires Evm.IsRun(p.code, run) && run[|run|-1].pc < |p.code|
    ensures At(p.segs, i, j, run[|run|-1].pc) && Primed(p.segs, i, j, run[|run|-1].stack)
    decreases |run|
  {
    hide BlocksOf, Evm.Step, Evm.IsRun;
    if |run| <= 1 {
      RunStarts(p.code, run);
      FirstPosition(p);
      i, j := 0, 0;
    } else {
      var n := |run| - 1;
      LastStep(p.code, run);
      i, j := RunPosition(p, run[..n]);
      i, j := StepTakesEdge(p, run[n-1], run[n], i, j);
    }
  }

  /** A run walks static edges all the way exactly when the blocks show every jump it takes. */
  lemma {:induction false} RunFollowsIff(p: Program, run: seq<Evm.Machine>)
    requires Evm.IsRun(p.code, run) && run[|run|-1].pc < |p.code|
    ensures RunOnEdges(p, run) <==> RunShown(p, run)
    decreases |run|
  {
    hide BlocksOf, Evm.Step, Evm.IsRun, OnEdge, StepShown;
    if |run| > 1 {
      var n := |run| - 1;
      LastStep(p.code, run);
      RunFollowsIff(p, run[..n]);
      var i, j := RunPosition(p, run[..n]);
      StepOnEdgeIff(p, run[n-1], run[n], i, j);
      OnEdgesStepwise(p, run);
      ShownStepwise(p, run);
    }
  }

  lemma OnEdgesStepwise(p: Program, run: seq<Evm.Machine>)
    requires |run| > 1
    ensures var n := |run| - 1; RunOnEdges(p, run) <==> RunOnEdges(p, run[..n]) && OnEdge(p, run[n-1], run[n])
  {
    hide OnEdge;
    var n := |run| - 1;
    var init := run[..n];
    assert forall a :: 0 <= a < n ==> init[a] == run[a];
    if RunOnEdges(p, run) {
      forall a, b | 0 <= a && b == a + 1 && b < n ensures OnEdge(p, init[a], init[b]) {
        assert OnEdge(p, run[a], run[b]);
      }
    }
    if RunOnEdges(p, init) && OnEdge(p, run[n-1], run[n]) {
      forall a, b | 0 <= a && b == a + 1 && b < |run| ensures OnEdge(p, run[a], run[b]) {
        if b < n { assert OnEdge(p, init[a], init[b]); }
      }
    }
  }

  lemma ShownStepwise(p: Program, run: seq<Evm.Machine>)
    requires |run| > 1
    ensures var n := |run| - 1; RunShown(p, run) <==> RunShown(p, run[..n]) && StepShown(p, run[n-1], run[n])
  {
    hide StepShown;
    var n := |run| - 1;
    var init := run[..n];
    assert forall a :: 0 <= a < n ==> init[a] == run[a];
    if RunShown(p, run) {
      forall a, b | 0 <= a && b == a + 1 && b < n ensures StepShown(p, init[a], init[b]) {
        assert StepShown(p, run[a], run[b]);
      }
    }
    if RunShown(p, init) && StepShown(p, run[n-1], run[n]) {
      forall a, b | 0 <= a && b == a + 1 && b < |run| ensures StepShown(p, run[a], run[b]) {
        if b < n { assert StepShown(p, init[a], init[b]); }
      }
    }
  }

  // ---- Static edges and steps ----

  /**
   Some step of the machine goes from the last instruction of block `i` to
   `dest`, on a stack with the operand of the PUSH just before, if there is one.
   */
  ghost predicate Taken(p: Program, i: nat, dest: nat)
    requires i < |p.segs|
  {
    NoEmptyBlock(p);
    exists s: Evm.Machine, t: Evm.Machine :: s.pc == Last(p.segs[i]).offset && t.pc == dest
      && Primed(p.segs, i, |p.segs[i]| - 1, s.stack) && Evm.Step(p.code, s, t)
  }

  /** A word that an instruction may leave in place of its operands. */
  function Left(op: Op, pc: nat, stack: seq<Word>): Word
    requires |stack| >= Evm.Table(op).removed
  {
    if op.PC? then Wrap(pc)
    else if Evm.Table(op).removed == 1 then Evm.Unary(op, Evm.Peek(stack, 0)).GetOr(0)
    else if Evm.Table(op).removed == 2 then Evm.Binary(op, Evm.Peek(stack, 0), Evm.Peek(stack, 1)).GetOr(0)
    else 0
  }

  lemma AddsAtMostOne(op: Op)
    ensures !op.DUP? && !op.SWAP? ==> Evm.Table(op).added <= 1
    ensures op.PC? ==> Evm.Table(op).removed == 0 && Evm.Table(op).added == 1
    ensures op.JUMPI? ==> Evm.Table(op).removed == 2
  {
    EffectsAre(op);
    hide Evm.Table;
  }

  lemma LeftIs(op: Op, pc: nat, stack: seq<Word>)
    requires |stack| >= Evm.Table(op).removed
    ensures op.PC? ==> Left(op, pc, stack) == Wrap(pc)
    ensures Evm.Table(op).removed == 1 && Evm.Unary(op, Evm.Peek(stack, 0)).Some? ==>
      Left(op, pc, stack) == Evm.Unary(op, Evm.Peek(stack, 0)).value
    ensures Evm.Table(op).removed == 2 && Evm.Binary(op, Evm.Peek(stack, 0), Evm.Peek(stack, 1)).Some? ==>
      Left(op, pc, stack) == Evm.Binary(op, Evm.Peek(stack, 0), Evm.Peek(stack, 1)).value
  {
    AddsAtMostOne(op);
    hide Evm.Unary, Evm.Binary, Evm.Table;
  }

  lemma CanLeave(op: Op, pc: nat, stack: seq<Word>)
    requires |stack| >= Evm.Table(op).removed && Evm.Table(op).added == 1
    ensures Evm.StackStep(op, pc, stack, Evm.Drop(stack, Evm.Table(op).removed) + [Left(op, pc, stack)])
  {
    LeftIs(op, pc, stack);
    hide Evm.Unary, Evm.Binary, Evm.Table, Left;
    var rest := Evm.Drop(stack, Evm.Table(op).removed);
    assert Evm.Peek(rest + [Left(op, pc, stack)], 0) == Left(op, pc, stack);
  }

  lemma CanStep(op: Op, pc: nat, stack: seq<Word>) returns (after: seq<Word>)
    requires !op.PUSH? && !op.DUP? && !op.SWAP? && |stack| >= Evm.Table(op).removed
    ensures Evm.StackStep(op, pc, stack, after)
  {
    AddsAtMostOne(op);
    hide Evm.Unary, Evm.Binary, Evm.Table, Left;
    after := Evm.Drop(stack, Evm.Table(op).removed);
    if Evm.Table(op).added == 1 {
      CanLeave(op, pc, stack);
      after := after + [Left(op, pc, stack)];
    }
  }

  lemma ShuffleNeeds(op: Op, b: Byte)
    requires Evm.Stands(b, op)
    ensures op.PUSH? ==> op.n <= 32
    ensures op.DUP? ==> 1 <= op.n == Evm.Table(op).removed
    ensures op.SWAP? ==> 1 <= op.n == Evm.Table(op).removed - 1
  {
  }

  lemma CanShuffle(code: seq<Byte>, s: Evm.Machine, op: Op) returns (t: Evm.Machine)
    requires s.pc < |code| && Evm.Stands(code[s.pc], op) && (op.PUSH? || op.DUP? || op.SWAP?)
    requires |s.stack| >= Evm.Table(op).removed
    ensures t.pc == Evm.NextStart(s.pc, code[s.pc]) && Evm.Runs(code, op, s, t)
  {
    ShuffleNeeds(op, code[s.pc]);
    hide Evm.Table, Evm.StackStep, Evm.Stands, Evm.PushWord;
    t := Evm.Machine(Evm.NextStart(s.pc, code[s.pc]), Evm.Shuffle(code, s.pc, op, s.stack));
  }

  /** On any stack that is high enough, an instruction that neither halts nor jumps can go on to the next. */
  lemma CanGoOn(code: seq<Byte>, s: Evm.Machine, op: Op) returns (t: Evm.Machine)
    requires s.pc < |code| && Evm.Stands(code[s.pc], op) && !Evm.Halts(op) && !op.JUMP?
    requires |s.stack| >= Evm.Table(op).removed && (op.JUMPI? ==> |s.stack| >= 2 && Evm.Peek(s.stack, 1) == 0)
    ensures t.pc == Evm.NextStart(s.pc, code[s.pc]) && Evm.Runs(code, op, s, t)
  {
    AddsAtMostOne(op);
    hide Evm.Table, Evm.StackStep, Evm.Stands, Evm.Shuffle, Evm.NextStart;
    if op.PUSH? || op.DUP? || op.SWAP? {
      hide Evm.Runs;
      t := CanShuffle(code, s, op);
    } else {
      var after := CanStep(op, s.pc, s.stack);
      t := Evm.Machine(Evm.NextStart(s.pc, code[s.pc]), after);
    }
  }

  lemma CanJump(code: seq<Byte>, s: Evm.Machine, op: Op, dest: Word) returns (t: Evm.Machine)
    requires s.pc < |code| && Evm.Stands(code[s.pc], op) && (op.JUMP? || op.JUMPI?) && dest in Evm.ValidJumps(code, 0)
    requires s.stack == [1, dest]
    ensures t.pc == dest && Evm.Runs(code, op, s, t)
  {
    t := Evm.Machine(dest, if op.JUMP? then [1] else []);
  }

  lemma PushedFits(p: Program, i: nat)
    requires i < |p.segs| && PushedLast(p.segs[i])
    ensures var v := p.segs[i][|p.segs[i]|-2].operandValue; v.Some? && v.value < MODULUS
  {
    hide Decode, InstructionAt, BlocksOf;
    var j := |p.segs[i]| - 2;
    var push := p.segs[i][j];
    PositionDecodes(p, i, j, push.offset);
    InstructionLossless(p.code, push.offset);
    Pow256Monotone(DataBytes(push.op), 32);
    PowerOfTwo256();
  }

  lemma PushedIsDestination(p: Program, i: nat, e: (nat, nat))
    requires i < |p.segs| && PushedEdge(p.segs, i, e)
    ensures e.1 < MODULUS && e.1 in Evm.ValidJumps(p.code, 0)
  {
    hide Decode, InstructionAt, Instructions, LaidOut, CutsForced, IsEof;
    PushedFits(p, i);
    StartIsJumpdest(p.code, p.segs, e.0);
    LegacyJumpdests(p.code, e.1);
  }

  lemma LegacyJumpdests(code: seq<Byte>, t: nat)
    requires !IsEof(code) && t in JumpdestOffsets(Instructions(code))
    ensures t in Evm.ValidJumps(code, 0)
  {
    hide Decode, InstructionAt;
    JumpdestsAreValidJumps(code, 0, t);
  }

  /** A stack of zeros that is high enough, with the operand of the PUSH before the last instruction on top. */
  lemma PrimedStack(p: Program, i: nat, n: nat) returns (stack: seq<Word>)
    requires i < |p.segs| && p.segs[i] != []
    ensures |stack| >= n && |stack| >= 2 && Evm.Peek(stack, 1) == 0 && Primed(p.segs, i, |p.segs[i]| - 1, stack)
  {
    hide Decode, InstructionAt, BlocksOf;
    stack := seq(n + 2, _ => 0);
    if PushedLast(p.segs[i]) {
      var push := p.segs[i][|p.segs[i]|-2];
      PushedFits(p, i);
      stack := stack[n + 1 := push.operandValue.value];
    }
  }

  /** The last byte of the block that is read as an opcode is one. */
  ghost predicate EndsInInstruction(p: Program, i: nat)
    requires i < |p.segs|
  {
    NoEmptyBlock(p);
    !Last(p.segs[i]).op.UNKNOWN?
  }

  /** A static edge is taken by some step, unless it leaves a block that ends with no instruction at all. */
  lemma EdgeIsTaken(p: Program, i: nat, e: (nat, nat))
    requires i < |p.segs| && e in Exits(p.code, p.segs, i)
    ensures Taken(p, i, e.1) <==> EndsInInstruction(p, i)
  {
    hide Decode, InstructionAt, BlocksOf, Exits, Evm.Step, Evm.Stands, Evm.Table;
    NoEmptyBlock(p);
    var last := Last(p.segs[i]);
    PositionDecodes(p, i, |p.segs[i]| - 1, last.offset);
    ExitsAre(p.code, p.segs, i, e);
    TerminatorIff(last.op);
    if last.op.UNKNOWN? {
      forall s: Evm.Machine, t: Evm.Machine | s.pc == last.offset ensures !Evm.Step(p.code, s, t) {
        StepIs(p.code, s, t);
      }
    } else {
      var s, t := Evm.Machine(last.offset, [1, 0]), Evm.Machine(0, []);
      StepIs(p.code, s, t);
      if PushedEdge(p.segs, i, e) {
        PushedIsDestination(p, i, e);
        s := Evm.Machine(last.offset, [1, e.1]);
        t := CanJump(p.code, s, last.op, e.1);
      } else {
        var stack := PrimedStack(p, i, Evm.Table(last.op).removed);
        s := Evm.Machine(last.offset, stack);
        t := CanGoOn(p.code, s, last.op);
        NextStartIs(last.offset, p.code[last.offset]);
        NextEdgeIsNext(p, i, e);
      }
      StepIs(p.code, s, t);
    }
  }

  /** Some step leads from the end of block `i` to the start of block `e.0`, and if it jumps, the blocks show it. */
  ghost predicate StepsTo(p: Program, i: nat, e: (nat, nat))
    requires i < |p.segs|
  {
    NoEmptyBlock(p);
    && e.0 < |p.segs| && p.segs[e.0][0].offset == e.1 && Taken(p, i, e.1)
    && (Last(p.segs[i]).op.JUMP? || Last(p.segs[i]).op.JUMPI? ==> JumpShown(p.segs, i, e.1))
  }

  /**
   The static edges out of a block that ends in an instruction are exactly
   the steps out of it, those jumps excepted that the blocks do not show.
   */
  lemma EdgesAreSteps(p: Program, i: nat, e: (nat, nat))
    requires i < |p.segs| && EndsInInstruction(p, i)
    ensures e in Exits(p.code, p.segs, i) <==> StepsTo(p, i, e)
  {
    hide Decode, InstructionAt, BlocksOf, Exits, Evm.Step;
    NoEmptyBlock(p);
    if e in Exits(p.code, p.segs, i) {
      EdgeIsTaken(p, i, e);
      ExitsAre(p.code, p.segs, i, e);
    } else if e.0 < |p.segs| && p.segs[e.0][0].offset == e.1 && Taken(p, i, e.1) {
      var j := |p.segs[i]| - 1;
      var s: Evm.Machine, t: Evm.Machine :| s.pc == Last(p.segs[i]).offset && t.pc == e.1
        && Primed(p.segs, i, j, s.stack) && Evm.Step(p.code, s, t);
      PositionDecodes(p, i, j, s.pc);
      PositionDecodes(p, e.0, 0, e.1);
      var k, m := StepTakesEdge(p, s, t, i, j);
      PositionUnique(p.code, p.segs, k, m, e.0, 0, e.1);
    }
  }

  /** A block is followed by the next instruction, so its last one is not cut off. */
  lemma NextEdgeIsNext(p: Program, i: nat, e: (nat, nat))
    requires i < |p.segs| && NextEdge(p.segs, i, e)
    ensures e.1 == Last(p.segs[i]).offset + 1 + DataBytes(Last(p.segs[i]).op)
  {
    hide Decode, InstructionAt, Instructions, CutsForced, Flatten, StartIndex, IsEof;
    var instrs, j := Instructions(p.code), |p.segs[i]| - 1;
    FlattenIndex(p.segs, i, j);
    FlattenIndex(p.segs, i + 1, 0);
    var g := StartIndex(p.segs, i) + j;
    assert instrs[g + 1].offset == instrs[g].offset + instrs[g].size;
    PositionDecodes(p, i, j, instrs[g].offset);
    PositionDecodes(p, i + 1, 0, e.1);
  }

  /** Every JUMP and JUMPI has a PUSH just before it in its block. */
  predicate JumpsPushed(segs: seq<Segment>)
    requires forall i :: 0 <= i < |segs| ==> segs[i] != []
  {
    forall i :: 0 <= i < |segs| && (Last(segs[i]).op.JUMP? || Last(segs[i]).op.JUMPI?) ==> PushedLast(segs[i])
  }

  /** Then the blocks show every jump of every run. */
  lemma {:induction false} PushedIsShown(p: Program, run: seq<Evm.Machine>)
    requires JumpsPushed(p.segs) && Evm.IsRun(p.code, run) && run[|run|-1].pc < |p.code|
    ensures RunShown(p, run)
    decreases |run|
  {
    hide BlocksOf, Evm.Step, Evm.IsRun, StepShown;
    if |run| > 1 {
      var n := |run| - 1;
      LastStep(p.code, run);
      PushedIsShown(p, run[..n]);
      ShownStepwise(p, run);
      var i, j := RunPosition(p, run[..n]);
      PushedStepShown(p, run[n-1], run[n], i, j);
    }
  }

  lemma PushedStepShown(p: Program, s: Evm.Machine, t: Evm.Machine, i: nat, j: nat)
    requires JumpsPushed(p.segs) && At(p.segs, i, j, s.pc)
    ensures StepShown(p, s, t)
  {
    hide BlocksOf, Decode, InstructionAt;
    PositionDecodes(p, i, j, s.pc);
  }

  /** Some state of the run is at the start of block `x`. */
  ghost predicate Entered(segs: seq<Segment>, run: seq<Evm.Machine>, x: nat) {
    x < |segs| && segs[x] != [] && exists t :: 0 <= t < |run| && run[t].pc == segs[x][0].offset
  }

  /** The successor relation of the blocks. */
  ghost predicate EdgesAre(code: seq<Byte>, segs: seq<Segment>, succs: Adjacency)
    requires forall i :: 0 <= i < |segs| ==> segs[i] != []
  {
    forall b: nat :: Neighbours(succs, b) == if b < |segs| then Firsts(Exits(code, segs, b)) else []
  }

  /** A static edge out of the last block of a path extends it. */
  lemma ExitExtendsPath(p: Program, succs: Adjacency, i: nat, e: (nat, nat), path: seq<nat>)
    requires EdgesAre(p.code, p.segs, succs)
    requires i < |p.segs| && e in Exits(p.code, p.segs, i) && PathFromTo(succs, 0, i, path)
    ensures PathFromTo(succs, 0, e.0, path + [e.0])
  {
    hide LaidOut, StaticExits, Instructions, CutsForced;
    var es := Exits(p.code, p.segs, i);
    var x :| 0 <= x < |es| && es[x] == e;
    assert Firsts(es)[x] == e.0;
    assert Edge(succs, i, e.0);
    ExtendPath(succs, 0, i, e.0, path);
  }

  lemma EnteredGrows(segs: seq<Segment>, run: seq<Evm.Machine>, n: nat, path: seq<nat>)
    requires n <= |run| && forall x :: x in path ==> Entered(segs, run[..n], x)
    ensures forall x :: x in path ==> Entered(segs, run, x)
  {
    forall x | x in path ensures Entered(segs, run, x) {
      var t :| 0 <= t < |run[..n]| && run[..n][t].pc == segs[x][0].offset;
      assert run[t].pc == segs[x][0].offset;
    }
  }

  lemma RunStarts(code: seq<Byte>, run: seq<Evm.Machine>)
    requires Evm.IsRun(code, run)
    ensures |run| > 0 && run[0] == Evm.Machine(0, [])
  {
    hide Evm.Step;
  }

  lemma LastStep(code: seq<Byte>, run: seq<Evm.Machine>)
    requires Evm.IsRun(code, run) && |run| > 1
    ensures var n := |run| - 1;
      && Evm.IsRun(code, run[..n]) && run[..n][n-1] == run[n-1]
      && Evm.Step(code, run[n-1], run[n]) && run[n-1].pc < |code|
  {
    assert Evm.Step(code, run[|run|-2], run[|run|-1]);
  }

  lemma FirstPosition(p: Program)
    requires p.code != []
    ensures At(p.segs, 0, 0, 0)
  {
    hide Instructions, InstructionAt, CutsForced, StartIndex, Flatten, IsEof;
    FlattenOfNone();
    assert p.segs != [];
    FlattenIndex(p.segs, 0, 0);
    assert p.segs[..0] == [];
    StartsAtZero(p.segs);
  }

  lemma FlattenOfNone()
    ensures Flatten([]) == []
  {
  }

  lemma StartsAtZero(segs: seq<Segment>)
    ensures StartIndex(segs, 0) == 0
  {
  }

  lemma ShownStepTakesEdge(p: Program, s: Evm.Machine, t: Evm.Machine, i: nat, j: nat) returns (k: nat, m: nat)
    requires At(p.segs, i, j, s.pc) && Primed(p.segs, i, j, s.stack)
    requires Evm.Step(p.code, s, t) && t.pc < |p.code| && StepShown(p, s, t)
    ensures At(p.segs, k, m, t.pc) && Primed(p.segs, k, m, t.stack)
    ensures (k == i && m == j + 1) || (m == 0 && (k, t.pc) in Exits(p.code, p.segs, i))
  {
    hide BlocksOf, Evm.Step, Exits, Decode;
    NoEmptyBlock(p);
    k, m := StepTakesEdge(p, s, t, i, j);
    if TakesJump(p.code, s) {
      var i2: nat, j2: nat :| At(p.segs, i2, j2, s.pc) && JumpShown(p.segs, i2, t.pc);
      PositionUnique(p.code, p.segs, i, j, i2, j2, s.pc);
    }
  }

  /** The blocks a run enters, in order, form a path of static edges from block 0. */
  lemma {:induction false} RunWalksEdges(p: Program, succs: Adjacency, run: seq<Evm.Machine>)
    returns (i: nat, j: nat, path: seq<nat>)
    requires EdgesAre(p.code, p.segs, succs)
    requires Evm.IsRun(p.code, run) && run[|run|-1].pc < |p.code| && RunShown(p, run)
    ensures At(p.segs, i, j, run[|run|-1].pc) && Primed(p.segs, i, j, run[|run|-1].stack)
    ensures PathFromTo(succs, 0, i, path) && forall x :: x in path ==> Entered(p.segs, run, x)
    decreases |run|
  {
    hide BlocksOf, Evm.Step, Evm.IsRun, EdgesAre, StaticExits, RunShown, OnEdge;
    if |run| <= 1 {
      RunStarts(p.code, run);
      FirstPosition(p);
      i, j, path := 0, 0, [0];
      assert Entered(p.segs, run, 0);
    } else {
      var n := |run| - 1;
      LastStep(p.code, run);
      ShownStepwise(p, run);
      i, j, path := RunWalksEdges(p, succs, run[..n]);
      EnteredGrows(p.segs, run, n, path);
      var k, m := ShownStepTakesEdge(p, run[n-1], run[n], i, j);
      if !(k == i && m == j + 1) {
        ExitExtendsPath(p, succs, i, (k, run[n].pc), path);
        assert Entered(p.segs, run, k);
        path := path + [k];
      }
      i, j := k, m;
    }
  }

  /**
   Whenever a run is inside block `n`, block `n` was found reachable, and every
   block that the sweeps list as dominator of `n` has been entered before,
   provided the sweeps converged.
   */
  lemma {:induction false} DominatorsHaveRun(
    p: Program, succs: Adjacency, pr: Problem, run: seq<Evm.Machine>)
    returns (n: nat, j: nat)
    requires EdgesAre(p.code, p.segs, succs)
    requires pr.Describes(succs) && pr.entry == 0
    requires Converged(pr)
    requires Evm.IsRun(p.code, run) && run[|run|-1].pc < |p.code| && RunShown(p, run)
    ensures At(p.segs, n, j, run[|run|-1].pc)
    ensures n in pr.reachable && n in AfterRounds(pr, MAX_ROUNDS)
    ensures forall d :: d in AfterRounds(pr, MAX_ROUNDS)[n] ==> Entered(p.segs, run, d)
  {
    var path;
    n, j, path := RunWalksEdges(p, succs, run);
    ConvergedIff(pr, succs);
  }

  // ---- The pushed jump is needed ----

  /** PUSH1 4, DUP1, JUMP, JUMPDEST: the jump target is computed, not pushed last. */
  const COMPUTED_JUMP: seq<Byte> := [0x60, 0x04, 0x80, 0x56, 0x5B]

  lemma SweepOfComputedJump() returns (a: Instruction, b: Instruction, c: Instruction, d: Instruction)
    ensures Instructions(COMPUTED_JUMP) == [a, b, c, d]
    ensures a.op == PUSH(1) && b.op == DUP(1) && c.op == JUMP && d.op == JUMPDEST && d.offset == 4
  {
    DecodeComputedJump();
    hide InstructionAt, Decode;
    var code := COMPUTED_JUMP;
    a, b, c, d := InstructionAt(code, 0), InstructionAt(code, 2), InstructionAt(code, 3), InstructionAt(code, 4);
    assert SweepFrom(code, 5) == [];
    assert SweepFrom(code, 4) == [d];
    assert SweepFrom(code, 3) == [c] + SweepFrom(code, 4);
    assert SweepFrom(code, 2) == [b] + SweepFrom(code, 3);
    assert SweepFrom(code, 0) == [a] + SweepFrom(code, 2);
  }

  lemma CutOfComputedJump(a: Instruction, b: Instruction, c: Instruction, d: Instruction)
    requires a.op.PUSH? && b.op.DUP? && c.op.JUMP? && d.op.JUMPDEST?
    ensures Cut([a, b, c, d]) == [[a, b, c], [d]]
  {
    var all := [a, b, c, d];
    assert all[..3] == [a, b, c] && [a, b, c][..2] == [a, b] && [a, b][..1] == [a] && [a][..0] == [];
    assert CutState([]).0 == [] && CutState([]).1 == [];
    assert CutState([a]).0 == [] && CutState([a]).1 == [a];
    assert CutState([a, b]).0 == [] && CutState([a, b]).1 == [a, b];
    assert [a, b] + [c] == [a, b, c];
    assert CutState([a, b, c]).0 == [[a, b, c]] && CutState([a, b, c]).1 == [];
    assert CutState(all).0 == [[a, b, c]] && CutState(all).1 == [d];
  }

  lemma PushStep()
    ensures Evm.Step(COMPUTED_JUMP, Evm.Machine(0, []), Evm.Machine(2, [4]))
  {
    FourPushed();
    hide Evm.PushWord, Decode, Evm.Step;
    DecodeComputedJump();
    StepIs(COMPUTED_JUMP, Evm.Machine(0, []), Evm.Machine(2, [4]));
  }

  lemma FourPushed()
    ensures Evm.PushWord(COMPUTED_JUMP, 0, 1) == 4
  {
    assert Evm.PushBytes(COMPUTED_JUMP, 0, 0) == [];
    assert Evm.PushBytes(COMPUTED_JUMP, 0, 1) == [4];
    assert [4 as Byte][..0] == [] && FromBigEndian([4 as Byte]) == 4;
  }

  lemma DupStep()
    ensures Evm.Step(COMPUTED_JUMP, Evm.Machine(2, [4]), Evm.Machine(3, [4, 4]))
  {
    hide Decode, Evm.Step;
    DecodeComputedJump();
    StepIs(COMPUTED_JUMP, Evm.Machine(2, [4]), Evm.Machine(3, [4, 4]));
    assert [4 as Word] + [4] == [4, 4];
  }

  lemma JumpStep()
    ensures Evm.Step(COMPUTED_JUMP, Evm.Machine(3, [4, 4]), Evm.Machine(4, [4]))
  {
    var code := COMPUTED_JUMP;
    hide Decode, Evm.Step;
    DecodeComputedJump();
    StepIs(code, Evm.Machine(3, [4, 4]), Evm.Machine(4, [4]));
    assert Evm.StackStep(JUMP, 3, [4, 4], [4]);
    assert 4 in Evm.ValidJumps(code, 4);
    assert 4 in Evm.ValidJumps(code, 3);
    assert 4 in Evm.ValidJumps(code, 2);
    assert 4 in Evm.ValidJumps(code, 0);
  }

  lemma RunOfComputedJump() returns (run: seq<Evm.Machine>)
    ensures Evm.IsRun(COMPUTED_JUMP, run) && run[|run|-1].pc == 4
  {
    hide Evm.Step, Evm.ValidJumps;
    PushStep();
    DupStep();
    JumpStep();
    run := [Evm.Machine(0, []), Evm.Machine(2, [4]), Evm.Machine(3, [4, 4]), Evm.Machine(4, [4])];
  }

  lemma DecodeComputedJump()
    ensures Decode(0x60) == PUSH(1) && Decode(0x80) == DUP(1) && Decode(0x56) == JUMP && Decode(0x5B) == JUMPDEST
  {
  }

  lemma ComputedJumpIsLegacy()
    ensures !IsEof(COMPUTED_JUMP)
  {
  }

  lemma BlocksOfComputedJump() returns (segs: seq<Segment>)
    ensures BlocksOf(COMPUTED_JUMP, segs) && segs == Cut(Instructions(COMPUTED_JUMP))
    ensures |segs| == 2 && |segs[0]| == 3 && |segs[1]| == 1
    ensures segs[0][1].op == DUP(1) && segs[0][2].op == JUMP && segs[1][0].offset == 4
  {
    hide *;
    ComputedJumpIsLegacy();
    CutBlocksOf(COMPUTED_JUMP);
    var a, b, c, d := SweepOfComputedJump();
    CutOfComputedJump(a, b, c, d);
    segs := [[a, b, c], [d]];
  }

  /** A run that enters block 1 although no static edge leaves block 0. */
  ghost predicate Escapes(code: seq<Byte>, segs: seq<Segment>, run: seq<Evm.Machine>) {
    && BlocksOf(code, segs) && segs == Cut(Instructions(code)) && |segs| == 2
    && Exits(code, segs, 0) == [] && !JumpsPushed(segs)
    && Evm.IsRun(code, run) && At(segs, 1, 0, run[|run|-1].pc)
  }

  /** Without the PUSH before it, a jump can reach a block that no static edge reaches. */
  lemma ComputedJumpEscapes() returns (run: seq<Evm.Machine>, segs: seq<Segment>)
    ensures Escapes(COMPUTED_JUMP, segs, run)
  {
    hide IsEof, Instructions, Cut, Evm.IsRun, BlocksOf;
    segs := BlocksOfComputedJump();
    run := RunOfComputedJump();
  }
}
