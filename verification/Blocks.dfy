/** Basic blocks and their static exits. */
module Blocks {
  import opened Words
  import opened Opcodes
  import opened Disassembler

  type Segment = seq<Instruction>

  datatype BlockType = EntryBlock | JumpdestBlock | FallthroughBlock

  class BasicBlock {
    const id: nat
    const startOffset: nat
    const endOffset: nat
    const instructions: Segment
    const blockType: BlockType
    const terminator: Option<Op>
    var exitsTo: seq<nat>
    var exitOffsets: seq<nat>

    constructor (id: nat, instructions: Segment)
      requires instructions != [] && Last(instructions).size > 0
      ensures this.id == id && this.instructions == instructions
      ensures startOffset == instructions[0].offset
      ensures endOffset == Last(instructions).offset + Last(instructions).size - 1
      ensures terminator == if IsTerminator(Last(instructions).op) then Some(Last(instructions).op) else None
      ensures blockType == if id == 0 then EntryBlock
        else if instructions[0].op.JUMPDEST? then JumpdestBlock else FallthroughBlock
      ensures exitsTo == [] && exitOffsets == []
    {
      var last := Last(instructions);
      this.id := id;
      this.startOffset := instructions[0].offset;
      this.endOffset := last.offset + last.size - 1;
      this.instructions := instructions;
      this.blockType := if id == 0 then EntryBlock
        else if instructions[0].op.JUMPDEST? then JumpdestBlock else FallthroughBlock;
      this.terminator := if IsTerminator(last.op) then Some(last.op) else None;
      this.exitsTo := [];
      this.exitOffsets := [];
    }
  }

  function Last<T>(s: seq<T>): T
    requires s != []
  {
    s[|s|-1]
  }

  // ---- The partition into blocks ----

  function Flatten(segs: seq<Segment>): Segment {
    if segs == [] then [] else Flatten(segs[..|segs|-1]) + segs[|segs|-1]
  }

  /** A JUMPDEST occurs only first and a terminator only last. */
  ghost predicate IsBlock(s: Segment) {
    && s != []
    && (forall k :: 0 < k < |s| ==> !s[k].op.JUMPDEST?)
    && (forall k :: 0 <= k < |s| - 1 ==> !IsTerminator(s[k].op))
  }

  /** Blocks are cut only after a terminator or before a JUMPDEST. */
  ghost predicate CutsForced(segs: seq<Segment>)
    requires forall i :: 0 <= i < |segs| ==> segs[i] != []
  {
    forall i, j :: 0 <= i && j == i + 1 && j < |segs| ==>
      IsTerminator(Last(segs[i]).op) || segs[j][0].op.JUMPDEST?
  }

  ghost predicate IsPartition(segs: seq<Segment>, instrs: seq<Instruction>) {
    && (forall i :: 0 <= i < |segs| ==> IsBlock(segs[i]))
    && CutsForced(segs)
    && Flatten(segs) == instrs
  }

  /** There is only one partition into maximal blocks. */
  lemma {:induction false} PartitionUnique(a: seq<Segment>, b: seq<Segment>, instrs: seq<Instruction>)
    requires IsPartition(a, instrs) && IsPartition(b, instrs)
    ensures a == b
    decreases |instrs|
  {
    if a != [] && b != [] {
      var a0, b0 := a[..|a|-1], b[..|b|-1];
      var n: nat, m: nat := |instrs| - |Last(a)|, |instrs| - |Last(b)|;
      if n > m {
        LastCut(a, instrs);
        InsideLastBlock(b, instrs, n);
      } else if m > n {
        LastCut(b, instrs);
        InsideLastBlock(a, instrs, m);
      } else {
        assert Last(a) == instrs[n..] == Last(b);
        assert Flatten(a0) == instrs[..n] == Flatten(b0);
        PartitionUnique(a0, b0, instrs[..n]);
        assert a == a0 + [Last(a)] && b == b0 + [Last(b)];
      }
    }
  }

  lemma LastCut(segs: seq<Segment>, instrs: seq<Instruction>)
    requires IsPartition(segs, instrs) && segs != [] && |Last(segs)| < |instrs|
    ensures var n := |instrs| - |Last(segs)|; IsTerminator(instrs[n-1].op) || instrs[n].op.JUMPDEST?
  {
    var n := |instrs| - |Last(segs)|;
    var init := segs[..|segs|-1];
    assert Flatten(init) == instrs[..n];
    assert Last(init) == segs[|segs|-2];
    assert Flatten(init)[n - 1] == Last(Last(init));
    assert instrs[n] == Last(segs)[0];
  }

  lemma InsideLastBlock(segs: seq<Segment>, instrs: seq<Instruction>, k: nat)
    requires IsPartition(segs, instrs) && segs != [] && |instrs| - |Last(segs)| < k < |instrs|
    ensures !IsTerminator(instrs[k-1].op) && !instrs[k].op.JUMPDEST?
  {
    var m := |instrs| - |Last(segs)|;
    assert instrs[k] == Last(segs)[k - m] && instrs[k-1] == Last(segs)[k - 1 - m];
  }

  ghost function Segments(blocks: seq<BasicBlock>): seq<Segment> {
    seq(|blocks|, i requires 0 <= i < |blocks| => blocks[i].instructions)
  }

  ghost predicate Numbered(blocks: seq<BasicBlock>) {
    && (forall i :: 0 <= i < |blocks| ==>
          && blocks[i].id == i && blocks[i].instructions != []
          && blocks[i].startOffset == blocks[i].instructions[0].offset)
    && (forall i, j :: 0 <= i < j < |blocks| ==> blocks[i] != blocks[j])
  }

  // ---- Static exits ----

  /** The offsets of the JUMPDEST instructions. */
  function JumpdestOffsets(instrs: seq<Instruction>): (r: set<nat>)
    ensures forall t :: t in r <==> exists i :: i in instrs && i.op.JUMPDEST? && i.offset == t
  {
    if instrs == [] then {}
    else
      var n := |instrs| - 1;
      assert instrs == instrs[..n] + [instrs[n]];
      var init := JumpdestOffsets(instrs[..n]);
      if instrs[n].op.JUMPDEST? then init + {instrs[n].offset} else init
  }

  /** The block that starts at each offset, for the first `n` blocks. */
  function BlockAt(segs: seq<Segment>, n: nat): map<nat, nat>
    requires n <= |segs| && forall i :: 0 <= i < |segs| ==> segs[i] != []
  {
    if n == 0 then map[] else BlockAt(segs, n - 1)[segs[n-1][0].offset := n - 1]
  }

  /** The constant pushed just before the last instruction, if it names a block that starts with a JUMPDEST. */
  function PushedTarget(s: Segment, jumpdests: set<nat>, blockAt: map<nat, nat>): Option<nat> {
    if |s| >= 2 && s[|s|-2].op.PUSH? && s[|s|-2].operandValue.Some?
      && s[|s|-2].operandValue.value in jumpdests && s[|s|-2].operandValue.value in blockAt
    then s[|s|-2].operandValue else None
  }

  /** The exits of a block that ends with `op`, given its pushed target and the block after it. */
  function ExitList(op: Op, pushed: Option<(nat, nat)>, next: Option<(nat, nat)>): seq<(nat, nat)> {
    var p := if pushed.Some? then [pushed.value] else [];
    var n := if next.Some? then [next.value] else [];
    if op.JUMP? then p
    else if op.JUMPI? then p + n
    else if IsTerminator(op) then []
    else n
  }

  /** The exits of block `i` as (block id, offset) pairs. */
  function StaticExits(segs: seq<Segment>, jumpdests: set<nat>, i: nat): seq<(nat, nat)>
    requires i < |segs| && forall i :: 0 <= i < |segs| ==> segs[i] != []
  {
    var blockAt := BlockAt(segs, |segs|);
    var target := PushedTarget(segs[i], jumpdests, blockAt);
    ExitList(
      Last(segs[i]).op,
      if target.Some? then Some((blockAt[target.value], target.value)) else None,
      if i + 1 < |segs| then Some((i + 1, segs[i+1][0].offset)) else None)
  }

  function Firsts(s: seq<(nat, nat)>): (r: seq<nat>)
    ensures |r| == |s| && forall k :: 0 <= k < |s| ==> r[k] == s[k].0
  {
    seq(|s|, k requires 0 <= k < |s| => s[k].0)
  }

  function Seconds(s: seq<(nat, nat)>): (r: seq<nat>)
    ensures |r| == |s| && forall k :: 0 <= k < |s| ==> r[k] == s[k].1
  {
    seq(|s|, k requires 0 <= k < |s| => s[k].1)
  }

  /** Append the exits that the block's last instruction allows. */
  method AddExits(block: BasicBlock, pushed: Option<(nat, nat)>, next: Option<(nat, nat)>)
    requires block.instructions != []
    modifies block
    ensures block.exitsTo == old(block.exitsTo) + Firsts(ExitList(Last(block.instructions).op, pushed, next))
    ensures block.exitOffsets == old(block.exitOffsets) + Seconds(ExitList(Last(block.instructions).op, pushed, next))
  {
    var last := Last(block.instructions);
    if last.op.JUMP? {
      if pushed.Some? {
        block.exitsTo := block.exitsTo + [pushed.value.0];
        block.exitOffsets := block.exitOffsets + [pushed.value.1];
      }
    } else if last.op.JUMPI? {
      if pushed.Some? {
        block.exitsTo := block.exitsTo + [pushed.value.0];
        block.exitOffsets := block.exitOffsets + [pushed.value.1];
      }
      if next.Some? {
        block.exitsTo := block.exitsTo + [next.value.0];
        block.exitOffsets := block.exitOffsets + [next.value.1];
      }
    } else if !IsTerminator(last.op) {
      if next.Some? {
        block.exitsTo := block.exitsTo + [next.value.0];
        block.exitOffsets := block.exitOffsets + [next.value.1];
      }
    }
  }

  method IndexBlocks(blocks: seq<BasicBlock>) returns (blockAt: map<nat, nat>)
    requires Numbered(blocks)
    ensures blockAt == BlockAt(Segments(blocks), |blocks|)
  {
    blockAt := map[];
    for i := 0 to |blocks|
      invariant blockAt == BlockAt(Segments(blocks), i)
    {
      blockAt := blockAt[blocks[i].startOffset := blocks[i].id];
    }
  }

  method ResolveEdges(blocks: seq<BasicBlock>, jumpdests: set<nat>)
    requires Numbered(blocks)
    modifies blocks
    ensures forall i :: 0 <= i < |blocks| ==>
      && blocks[i].exitsTo == old(blocks[i].exitsTo) + Firsts(StaticExits(Segments(blocks), jumpdests, i))
      && blocks[i].exitOffsets == old(blocks[i].exitOffsets) + Seconds(StaticExits(Segments(blocks), jumpdests, i))
  {
    hide StaticExits, BlockAt;
    ghost var segs := Segments(blocks);
    var blockAt := IndexBlocks(blocks);
    ghost var exits := seq(|blocks|, k requires 0 <= k < |blocks| => StaticExits(segs, jumpdests, k));
    for i := 0 to |blocks|
      invariant forall k :: 0 <= k < i ==>
        && blocks[k].exitsTo == old(blocks[k].exitsTo) + Firsts(exits[k])
        && blocks[k].exitOffsets == old(blocks[k].exitOffsets) + Seconds(exits[k])
      invariant forall k :: i <= k < |blocks| ==>
        && blocks[k].exitsTo == old(blocks[k].exitsTo)
        && blocks[k].exitOffsets == old(blocks[k].exitOffsets)
    {
      var block := blocks[i];
      var target := PushedTarget(block.instructions, jumpdests, blockAt);
      var pushed := if target.Some? then Some((blockAt[target.value], target.value)) else None;
      var next := if i + 1 < |blocks| then Some((blocks[i+1].id, blocks[i+1].startOffset)) else None;
      ExitsOf(segs, jumpdests, i, pushed, next);
      AddExits(block, pushed, next);
    }
  }

  lemma ExitsOf(segs: seq<Segment>, jumpdests: set<nat>, i: nat, pushed: Option<(nat, nat)>, next: Option<(nat, nat)>)
    requires i < |segs| && forall i :: 0 <= i < |segs| ==> segs[i] != []
    requires pushed ==
      var blockAt := BlockAt(segs, |segs|);
      var target := PushedTarget(segs[i], jumpdests, blockAt);
      if target.Some? then Some((blockAt[target.value], target.value)) else None
    requires next == if i + 1 < |segs| then Some((i + 1, segs[i+1][0].offset)) else None
    ensures StaticExits(segs, jumpdests, i) == ExitList(Last(segs[i]).op, pushed, next)
  {
  }

  method CollectJumpdests(instrs: seq<Instruction>) returns (jumpdests: set<nat>)
    ensures jumpdests == JumpdestOffsets(instrs)
  {
    jumpdests := {};
    for i := 0 to |instrs|
      invariant jumpdests == JumpdestOffsets(instrs[..i])
    {
      assert instrs[..i+1][..i] == instrs[..i];
      if instrs[i].op.JUMPDEST? {
        jumpdests := jumpdests + {instrs[i].offset};
      }
    }
    assert instrs[..|instrs|] == instrs;
  }

  /** The blocks closed and the instructions collected since the last cut, after the loop has handled `prefix`. */
  function CutState(prefix: seq<Instruction>): (seq<Segment>, Segment) {
    if prefix == [] then ([], [])
    else
      var n := |prefix| - 1;
      CutStep(CutState(prefix[..n]), n == 0 || IsTerminator(prefix[n-1].op), prefix[n])
  }

  /** One turn of the loop: cut before a block start, add the instruction, cut after a terminator. */
  function CutStep(st: (seq<Segment>, Segment), afterCut: bool, inst: Instruction): (seq<Segment>, Segment) {
    var (segs, current) := st;
    var (segs1, current1) :=
      if (afterCut || inst.op.JUMPDEST?) && current != [] then (segs + [current], [inst]) else (segs, current + [inst]);
    if IsTerminator(inst.op) then (segs1 + [current1], []) else (segs1, current1)
  }

  function Cut(instrs: seq<Instruction>): seq<Segment> {
    var (segs, current) := CutState(instrs);
    if current != [] then segs + [current] else segs
  }

  /** What the state says about the instructions handled so far. */
  ghost predicate Cutting(segs: seq<Segment>, current: Segment, done: seq<Instruction>) {
    && IsPartition(segs, done)
    && (current == [] && done != [] ==> IsTerminator(Last(done).op))
    && (current != [] ==> IsBlock(current) && !IsTerminator(Last(current).op) && MayFollow(segs, current))
  }

  ghost predicate MayFollow(segs: seq<Segment>, current: Segment)
    requires current != [] && forall i :: 0 <= i < |segs| ==> segs[i] != []
  {
    segs != [] ==> IsTerminator(Last(Last(segs)).op) || current[0].op.JUMPDEST?
  }

  lemma ClosePartition(segs: seq<Segment>, current: Segment, done: seq<Instruction>)
    requires IsPartition(segs, done) && IsBlock(current) && MayFollow(segs, current)
    ensures IsPartition(segs + [current], done + current)
  {
    assert (segs + [current])[..|segs|] == segs;
  }

  lemma LastOfPartition(segs: seq<Segment>, done: seq<Instruction>)
    requires IsPartition(segs, done)
    ensures segs != [] <==> done != []
    ensures segs != [] ==> Last(Last(segs)) == Last(done)
  {
  }

  lemma AddToBlock(current: Segment, inst: Instruction)
    requires IsBlock(current) && !IsTerminator(Last(current).op) && !inst.op.JUMPDEST?
    ensures IsBlock(current + [inst])
  {
  }

  lemma {:induction false} CutStateInvariant(prefix: seq<Instruction>) returns (done: seq<Instruction>)
    ensures Cutting(CutState(prefix).0, CutState(prefix).1, done)
    ensures done + CutState(prefix).1 == prefix
  {
    if prefix == [] {
      done := [];
    } else {
      var n := |prefix| - 1;
      var done0 := CutStateInvariant(prefix[..n]);
      assert n > 0 ==> prefix[n-1] == Last(prefix[..n]);
      done := CutStepInvariant(CutState(prefix[..n]), done0, n == 0 || IsTerminator(prefix[n-1].op), prefix[n]);
      assert prefix == prefix[..n] + [prefix[n]];
    }
  }

  lemma CutStepInvariant(st: (seq<Segment>, Segment), done: seq<Instruction>, afterCut: bool, inst: Instruction)
    returns (done2: seq<Instruction>)
    requires Cutting(st.0, st.1, done)
    requires afterCut <==> (done + st.1 == [] || IsTerminator(Last(done + st.1).op))
    ensures Cutting(CutStep(st, afterCut, inst).0, CutStep(st, afterCut, inst).1, done2)
    ensures done2 + CutStep(st, afterCut, inst).1 == done + st.1 + [inst]
  {
    hide Flatten;
    var (segs, current) := st;
    LastOfPartition(segs, done);
    var cut := (afterCut || inst.op.JUMPDEST?) && current != [];
    var segs1 := if cut then segs + [current] else segs;
    var current1 := if cut then [inst] else current + [inst];
    var done1 := if cut then done + current else done;
    if current == [] {
      assert current1 == [inst];
    } else {
      assert Last(done + current) == Last(current);
      if cut {
        ClosePartition(segs, current, done);
      } else {
        AddToBlock(current, inst);
      }
    }
    assert IsPartition(segs1, done1) && IsBlock(current1) && MayFollow(segs1, current1);
    assert done1 + current1 == done + current + [inst];
    FinishStep(segs1, current1, done1, inst);
    done2 := if IsTerminator(inst.op) then done1 + current1 else done1;
  }

  /** Cut after a terminator, or leave the block open. */
  lemma FinishStep(segs: seq<Segment>, current: Segment, done: seq<Instruction>, inst: Instruction)
    requires IsPartition(segs, done) && IsBlock(current) && MayFollow(segs, current) && Last(current) == inst
    ensures IsTerminator(inst.op) ==>
      Cutting(segs + [current], [], done + current) && done + current + [] == done + current
    ensures !IsTerminator(inst.op) ==> Cutting(segs, current, done)
  {
    ClosePartition(segs, current, done);
  }

  /** The loop cuts any instruction list into its maximal blocks. */
  lemma {:induction false} CutIsPartition(instrs: seq<Instruction>)
    ensures IsPartition(Cut(instrs), instrs)
  {
    var done := CutStateInvariant(instrs);
    var (segs, current) := CutState(instrs);
    if current == [] {
      assert done == instrs;
    } else {
      ClosePartition(segs, current, done);
    }
  }

  /** `blocks` is followed by one new block, made of `current`. */
  method CloseBlock(blocks: seq<BasicBlock>, current: Segment) returns (r: seq<BasicBlock>)
    requires Numbered(blocks) && current != [] && Last(current).size > 0
    ensures |r| == |blocks| + 1 && r[..|blocks|] == blocks && fresh(r[|blocks|])
    ensures Numbered(r) && Segments(r) == Segments(blocks) + [current]
    ensures r[|blocks|].exitsTo == [] && r[|blocks|].exitOffsets == []
  {
    var b := new BasicBlock(|blocks|, current);
    r := blocks + [b];
  }

  /** `after` continues `before` with new blocks that have no exits. */
  twostate predicate Extends(before: seq<BasicBlock>, new after: seq<BasicBlock>)
    reads after
  {
    && before <= after
    && forall k :: |before| <= k < |after| ==> fresh(after[k]) && after[k].exitsTo == [] && after[k].exitOffsets == []
  }

  method AddInstruction(blocks: seq<BasicBlock>, current: Segment, afterCut: bool, inst: Instruction)
    returns (r: seq<BasicBlock>, current2: Segment)
    requires Numbered(blocks) && inst.size > 0 && (current != [] ==> Last(current).size > 0)
    ensures Extends(blocks, r) && Numbered(r)
    ensures Segments(r) == CutStep((Segments(blocks), current), afterCut, inst).0
    ensures current2 == CutStep((Segments(blocks), current), afterCut, inst).1
    ensures current2 != [] ==> Last(current2).size > 0
  {
    r, current2 := blocks, current;
    if (afterCut || inst.op.JUMPDEST?) && current2 != [] {
      r := CloseBlock(r, current2);
      current2 := [];
      assert current2 + [inst] == [inst];
    }
    current2 := current2 + [inst];
    if IsTerminator(inst.op) {
      r := CloseBlock(r, current2);
      current2 := [];
    }
  }

  /** The loop over the instructions, with the cut after the last one. */
  method CutBlocks(instrs: seq<Instruction>) returns (blocks: seq<BasicBlock>)
    requires forall i :: 0 <= i < |instrs| ==> instrs[i].size > 0
    ensures Extends([], blocks) && Numbered(blocks)
    ensures Segments(blocks) == Cut(instrs)
  {
    blocks := [];
    var current: Segment := [];
    for i := 0 to |instrs|
      invariant Extends([], blocks) && Numbered(blocks)
      invariant Segments(blocks) == CutState(instrs[..i]).0 && current == CutState(instrs[..i]).1
      invariant current != [] ==> Last(current).size > 0
    {
      assert instrs[..i+1][..i] == instrs[..i];
      blocks, current := AddInstruction(blocks, current, i == 0 || IsTerminator(instrs[i-1].op), instrs[i]);
    }
    assert instrs[..|instrs|] == instrs;
    if current != [] {
      blocks := CloseBlock(blocks, current);
    }
  }

  method BuildBasicBlocks(instrs: seq<Instruction>) returns (blocks: seq<BasicBlock>, jumpdests: set<nat>)
    requires forall i :: 0 <= i < |instrs| ==> instrs[i].size > 0
    ensures Numbered(blocks) && forall k :: 0 <= k < |blocks| ==> fresh(blocks[k])
    ensures jumpdests == JumpdestOffsets(instrs)
    ensures Segments(blocks) == Cut(instrs) && IsPartition(Segments(blocks), instrs)
    ensures forall i :: 0 <= i < |blocks| ==>
      && blocks[i].exitsTo == Firsts(StaticExits(Segments(blocks), jumpdests, i))
      && blocks[i].exitOffsets == Seconds(StaticExits(Segments(blocks), jumpdests, i))
  {
    CutIsPartition(instrs);
    if instrs == [] {
      return [], {};
    }
    jumpdests := CollectJumpdests(instrs);
    blocks := CutBlocks(instrs);
    ResolveEdges(blocks, jumpdests);
  }
}
