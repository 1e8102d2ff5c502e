/** Cutting the control-flow graph into functions. */
module Slicer {
  // Bounded searches, return edges and ownership of blocks.

  import opened Words
  import opened Graphs
  import opened Opcodes
  import opened Disassembler
  import opened Blocks

  // ---- Distance ----

  /** Some path of at most `k` edges leads from `a` to `n` without entering `ex`. */
  ghost predicate Near(g: Adjacency, ex: set<nat>, a: nat, k: nat, n: nat) {
    exists p :: NearBy(g, ex, a, k, n, p)
  }

  ghost predicate NearBy(g: Adjacency, ex: set<nat>, a: nat, k: nat, n: nat, p: seq<nat>) {
    PathFromTo(g, a, n, p) && |p| <= k + 1 && forall x :: x in p ==> x !in ex
  }

  lemma NearSelf(g: Adjacency, ex: set<nat>, a: nat)
    ensures forall n :: Near(g, ex, a, 0, n) <==> n == a && a !in ex
  {
    if a !in ex {
      assert NearBy(g, ex, a, 0, a, [a]);
    }
  }

  lemma NearFarther(g: Adjacency, ex: set<nat>, a: nat, k: nat, n: nat)
    requires Near(g, ex, a, k, n)
    ensures Near(g, ex, a, k + 1, n) && n !in ex
  {
    var p :| NearBy(g, ex, a, k, n, p);
    assert NearBy(g, ex, a, k + 1, n, p);
  }

  lemma NearEdge(g: Adjacency, ex: set<nat>, a: nat, k: nat, n: nat, s: nat)
    requires Near(g, ex, a, k, n) && Edge(g, n, s) && s !in ex
    ensures Near(g, ex, a, k + 1, s)
  {
    var p :| NearBy(g, ex, a, k, n, p);
    ExtendPath(g, a, n, s, p);
    assert NearBy(g, ex, a, k + 1, s, p + [s]);
  }

  /** One more edge reaches a neighbour, or what was reached before. */
  lemma NearStep(g: Adjacency, ex: set<nat>, a: nat, k: nat, n: nat)
    requires Near(g, ex, a, k + 1, n) && !Near(g, ex, a, k, n)
    ensures exists m :: Near(g, ex, a, k, m) && Edge(g, m, n)
    ensures n !in ex
  {
    var p :| NearBy(g, ex, a, k + 1, n, p);
    assert !NearBy(g, ex, a, k, n, p);
    var j := |p| - 2;
    assert Edge(g, p[j], p[j + 1]);
    Prefix(g, a, n, p, j);
    assert NearBy(g, ex, a, k, p[j], p[..j + 1]);
  }

  /** Reached at any distance. */
  ghost predicate ReachesOutside(g: Adjacency, ex: set<nat>, a: nat, n: nat) {
    exists k: nat :: Near(g, ex, a, k, n)
  }

  lemma {:induction false} ClosedHoldsNear(g: Adjacency, ex: set<nat>, a: nat, s: set<nat>, k: nat, n: nat)
    requires a in ex || a in s
    requires forall x, y :: x in s && Edge(g, x, y) && y !in ex ==> y in s
    requires Near(g, ex, a, k, n)
    ensures n in s
  {
    NearSelf(g, ex, a);
    if k > 0 {
      if Near(g, ex, a, k - 1, n) {
        ClosedHoldsNear(g, ex, a, s, k - 1, n);
      } else {
        NearStep(g, ex, a, k - 1, n);
        var m :| Near(g, ex, a, k - 1, m) && Edge(g, m, n);
        ClosedHoldsNear(g, ex, a, s, k - 1, m);
      }
    }
  }

  // ---- The search of a function body ----

  /** Everything nearer than `d` is in `s`, and nothing farther than `d`. */
  ghost predicate FilledTo(g: Adjacency, ex: set<nat>, a: nat, s: set<nat>, d: nat) {
    && (forall n :: n in s ==> Near(g, ex, a, d, n))
    && (forall n, k: nat :: k < d && Near(g, ex, a, k, n) ==> n in s)
  }

  /** The first `m` blocks of the queue belong to distance `d`, the others to the next. */
  ghost predicate Levelled(g: Adjacency, ex: set<nat>, a: nat, visited: set<nat>, queue: seq<nat>, d: nat, m: nat) {
    && m <= |queue|
    && FilledTo(g, ex, a, visited, d)
    && (forall i :: 0 <= i < |queue| && queue[i] !in ex ==> Near(g, ex, a, if i < m then d else d + 1, queue[i]))
    && (forall n :: Near(g, ex, a, d, n) ==> n in visited || n in queue[..m])
  }

  ghost predicate EdgesQueued(g: Adjacency, ex: set<nat>, visited: set<nat>, queue: seq<nat>) {
    forall n, s :: n in visited && Edge(g, n, s) && s !in ex ==> s in visited || s in queue
  }

  lemma NextLevel(g: Adjacency, ex: set<nat>, a: nat, visited: set<nat>, queue: seq<nat>, d: nat)
    requires Levelled(g, ex, a, visited, queue, d, 0) && EdgesQueued(g, ex, visited, queue)
    ensures Levelled(g, ex, a, visited, queue, d + 1, |queue|)
  {
    forall n | n in visited ensures Near(g, ex, a, d + 1, n) {
      NearFarther(g, ex, a, d, n);
    }
    assert queue[..|queue|] == queue;
    forall n | Near(g, ex, a, d + 1, n) ensures n in visited || n in queue {
      if !Near(g, ex, a, d, n) {
        NearStep(g, ex, a, d, n);
      }
    }
  }

  lemma SkipFirst(g: Adjacency, ex: set<nat>, a: nat, visited: set<nat>, queue: seq<nat>, d: nat, m: nat)
    requires 0 < m && Levelled(g, ex, a, visited, queue, d, m) && EdgesQueued(g, ex, visited, queue)
    requires queue[0] in visited || queue[0] in ex
    ensures Levelled(g, ex, a, visited, queue[1..], d, m - 1) && EdgesQueued(g, ex, visited, queue[1..])
  {
    hide FilledTo;
    var rest := queue[1..];
    assert queue == [queue[0]] + rest && queue[..m] == [queue[0]] + rest[..m - 1];
    forall i | 0 <= i < |rest| && rest[i] !in ex ensures Near(g, ex, a, if i < m - 1 then d else d + 1, rest[i]) {
      assert rest[i] == queue[i + 1];
    }
    forall n | Near(g, ex, a, d, n) ensures n in visited || n in rest[..m - 1] {
      NearFarther(g, ex, a, d, n);
    }
  }

  /** The neighbours of a visited block, put behind the queue. */
  ghost predicate Appended(g: Adjacency, ex: set<nat>, visited: set<nat>, bid: nat, queue: seq<nat>, queue': seq<nat>) {
    && queue <= queue'
    && (forall i :: |queue| <= i < |queue'| ==> Edge(g, bid, queue'[i]) && queue'[i] !in ex)
    && (forall s :: Edge(g, bid, s) && s !in ex ==> s in visited || s in queue')
  }

  method Enqueue(succs: Adjacency, exclude: set<nat>, visited: set<nat>, bid: nat,
      queue: seq<nat>) returns (queue': seq<nat>)
    ensures Appended(succs, exclude, visited, bid, queue, queue')
  {
    queue' := queue;
    var neighbours := Neighbours(succs, bid);
    for i := 0 to |neighbours|
      invariant queue <= queue'
      invariant forall k :: |queue| <= k < |queue'| ==> queue'[k] in neighbours && queue'[k] !in exclude
      invariant forall s :: s in neighbours[..i] && s !in exclude ==> s in visited || s in queue'
    {
      assert neighbours[..i + 1] == neighbours[..i] + [neighbours[i]];
      if neighbours[i] !in visited && neighbours[i] !in exclude {
        queue' := queue' + [neighbours[i]];
      }
    }
    assert neighbours[..|neighbours|] == neighbours;
  }

  lemma VisitFirst(g: Adjacency, ex: set<nat>, a: nat, visited: set<nat>, queue: seq<nat>, d: nat, m: nat,
      queue': seq<nat>)
    requires 0 < m && Levelled(g, ex, a, visited, queue, d, m) && EdgesQueued(g, ex, visited, queue)
    requires queue[0] !in visited && queue[0] !in ex
    requires Appended(g, ex, visited + {queue[0]}, queue[0], queue[1..], queue')
    ensures Levelled(g, ex, a, visited + {queue[0]}, queue', d, m - 1)
    ensures EdgesQueued(g, ex, visited + {queue[0]}, queue')
  {
    var bid, rest := queue[0], queue[1..];
    assert Near(g, ex, a, d, bid);
    assert queue == [bid] + rest && queue[..m] == [bid] + rest[..m - 1];
    assert queue'[..m - 1] == rest[..m - 1];
    forall i | 0 <= i < |queue'| && queue'[i] !in ex ensures Near(g, ex, a, if i < m - 1 then d else d + 1, queue'[i]) {
      if i < |rest| {
        assert queue'[i] == rest[i] == queue[i + 1];
      } else {
        NearEdge(g, ex, a, d, bid, queue'[i]);
      }
    }
    assert forall x :: x in rest ==> x in queue';
  }

  lemma SearchStarts(g: Adjacency, ex: set<nat>, a: nat)
    ensures Levelled(g, ex, a, {}, [a], 0, 1) && EdgesQueued(g, ex, {}, [a])
  {
    NearSelf(g, ex, a);
    assert [a][..1] == [a];
  }

  /** An empty queue means that nothing is left to find. */
  lemma SearchEnds(g: Adjacency, ex: set<nat>, a: nat, visited: set<nat>, queue: seq<nat>, d: nat, m: nat)
    requires Levelled(g, ex, a, visited, queue, d, m) && EdgesQueued(g, ex, visited, queue)
    requires a in ex || a in visited || a in queue
    ensures FilledTo(g, ex, a, visited, d)
    ensures queue == [] ==> forall n :: n in visited <==> ReachesOutside(g, ex, a, n)
  {
    if queue == [] {
      forall n | ReachesOutside(g, ex, a, n) ensures n in visited {
        var k: nat :| Near(g, ex, a, k, n);
        ClosedHoldsNear(g, ex, a, visited, k, n);
      }
    }
  }

  method BfsReachable(start: nat, succs: Adjacency, exclude: set<nat>, maxBlocks: nat)
    returns (visited: set<nat>, ghost depth: nat)
    ensures |visited| <= maxBlocks
    ensures FilledTo(succs, exclude, start, visited, depth)
    ensures |visited| < maxBlocks ==> forall n :: n in visited <==> ReachesOutside(succs, exclude, start, n)
  {
    visited := {};
    var queue := [start];
    depth := 0;
    ghost var m: nat := 1;
    SearchStarts(succs, exclude, start);
    hide Levelled, EdgesQueued, FilledTo, Appended, ReachesOutside;
    while queue != [] && |visited| < maxBlocks
      invariant |visited| <= maxBlocks
      invariant Levelled(succs, exclude, start, visited, queue, depth, m)
      invariant EdgesQueued(succs, exclude, visited, queue)
      invariant start in exclude || start in visited || start in queue
      decreases maxBlocks - |visited|, |queue|
    {
      if m == 0 {
        NextLevel(succs, exclude, start, visited, queue, depth);
        depth, m := depth + 1, |queue|;
      }
      var bid := queue[0];
      if bid in visited || bid in exclude {
        SkipFirst(succs, exclude, start, visited, queue, depth, m);
        queue := queue[1..];
      } else {
        var next := Enqueue(succs, exclude, visited + {bid}, bid, queue[1..]);
        VisitFirst(succs, exclude, start, visited, queue, depth, m, next);
        visited := visited + {bid};
        queue := next;
      }
      m := m - 1;
    }
    SearchEnds(succs, exclude, start, visited, queue, depth, m);
  }

  /** The search is complete exactly when the cap is not smaller than what there is to find. */
  lemma CapIff(g: Adjacency, ex: set<nat>, a: nat, visited: set<nat>, d: nat, cap: nat, all: set<nat>)
    requires |visited| <= cap && FilledTo(g, ex, a, visited, d)
    requires |visited| < cap ==> forall n :: n in visited <==> ReachesOutside(g, ex, a, n)
    requires forall n :: n in all <==> ReachesOutside(g, ex, a, n)
    ensures visited <= all && (visited == all <==> |all| <= cap)
  {
    forall n | n in visited ensures n in all {
      assert Near(g, ex, a, d, n);
    }
    SubsetSize(visited, all);
  }

  // ---- Level by level ----

  /** `reachable_blocks`: levels of blocks up to a depth; excluded blocks play no part in it. */
  method ReachableBlocks(start: nat, succs: Adjacency, maxDepth: int) returns (visited: set<nat>)
    ensures maxDepth <= 0 ==> visited == {}
    ensures maxDepth > 0 ==> forall n :: n in visited <==> Near(succs, {}, start, maxDepth - 1, n)
  {
    visited := {};
    var frontier := [start];
    var depth := 0;
    NearSelf(succs, {}, start);
    while frontier != [] && depth < maxDepth
      invariant depth == 0 || depth <= maxDepth
      invariant depth == 0 ==> visited == {} && frontier == [start]
      invariant depth > 0 ==> AtDepth(succs, start, visited, frontier, depth - 1)
      decreases maxDepth - depth
    {
      var before := visited;
      var next: seq<nat>;
      visited, next := VisitLevel(succs, before, frontier);
      if depth == 0 {
        FirstLevel(succs, start, next, visited);
      } else {
        LevelDone(succs, start, before, frontier, depth - 1, visited, next);
      }
      frontier := next;
      depth := depth + 1;
    }
    if depth > 0 && depth < maxDepth {
      NoMoreLevels(succs, start, visited, depth - 1, maxDepth - 1);
    }
  }

  /** `visited` is what lies within distance `k`, and `frontier` holds what is one edge farther. */
  ghost predicate AtDepth(g: Adjacency, a: nat, visited: set<nat>, frontier: seq<nat>, k: nat) {
    && (forall n :: n in visited <==> Near(g, {}, a, k, n))
    && (forall n :: n in frontier ==> Near(g, {}, a, k + 1, n))
    && (forall n :: Near(g, {}, a, k + 1, n) ==> n in visited || n in frontier)
  }

  /** One level: the new blocks of the frontier are visited and their exits collected. */
  method VisitLevel(succs: Adjacency, before: set<nat>, frontier: seq<nat>) returns (visited: set<nat>, next: seq<nat>)
    ensures forall n :: n in visited <==> n in before || n in frontier
    ensures forall s :: s in next <==> exists n :: n in frontier && n !in before && Edge(succs, n, s)
  {
    visited, next := before, [];
    for i := 0 to |frontier|
      invariant forall n :: n in visited <==> n in before || n in frontier[..i]
      invariant forall s :: s in next <==> exists n :: n in frontier[..i] && n !in before && Edge(succs, n, s)
    {
      var bid := frontier[i];
      assert frontier[..i + 1] == frontier[..i] + [bid];
      if bid !in visited {
        visited := visited + {bid};
        next := next + Neighbours(succs, bid);
      }
    }
    assert frontier[..|frontier|] == frontier;
  }

  lemma FirstLevel(g: Adjacency, a: nat, next: seq<nat>, visited: set<nat>)
    requires forall n :: n in visited <==> n in [a]
    requires forall s :: s in next <==> exists n :: n in [a] && n !in {} && Edge(g, n, s)
    ensures AtDepth(g, a, visited, next, 0)
  {
    NearSelf(g, {}, a);
    forall n | n in next ensures Near(g, {}, a, 1, n) {
      NearEdge(g, {}, a, 0, a, n);
    }
    forall n | Near(g, {}, a, 1, n) ensures n in visited || n in next {
      if !Near(g, {}, a, 0, n) {
        NearStep(g, {}, a, 0, n);
      }
    }
  }

  lemma LevelDone(g: Adjacency, a: nat, before: set<nat>, frontier: seq<nat>, k: nat, visited: set<nat>, next: seq<nat>)
    requires AtDepth(g, a, before, frontier, k)
    requires forall n :: n in visited <==> n in before || n in frontier
    requires forall s :: s in next <==> exists n :: n in frontier && n !in before && Edge(g, n, s)
    ensures AtDepth(g, a, visited, next, k + 1)
  {
    forall n ensures n in visited <==> Near(g, {}, a, k + 1, n) {
      if n in before {
        NearFarther(g, {}, a, k, n);
      }
    }
    forall s | s in next ensures Near(g, {}, a, k + 2, s) {
      var n :| n in frontier && n !in before && Edge(g, n, s);
      NearEdge(g, {}, a, k + 1, n, s);
    }
    forall s | Near(g, {}, a, k + 2, s) ensures s in visited || s in next {
      if !Near(g, {}, a, k + 1, s) {
        NearStep(g, {}, a, k + 1, s);
        var m :| Near(g, {}, a, k + 1, m) && Edge(g, m, s);
        if m in before {
          NearEdge(g, {}, a, k, m, s);
        }
      }
    }
  }

  lemma {:induction false} NoMoreLevels(g: Adjacency, a: nat, visited: set<nat>, k: nat, k': nat)
    requires k <= k' && AtDepth(g, a, visited, [], k)
    ensures forall n :: n in visited <==> Near(g, {}, a, k', n)
    decreases k' - k
  {
    if k < k' {
      forall n | n in visited ensures Near(g, {}, a, k + 1, n) {
        NearFarther(g, {}, a, k, n);
      }
      LevelDone(g, a, visited, [], k, visited, []);
      NoMoreLevels(g, a, visited, k + 1, k');
    }
  }

  // ---- Return addresses ----

  /** The operands of the pushes of a block, in order. */
  function Pushed(instrs: Segment): seq<nat> {
    if instrs == [] then []
    else
      var i := instrs[|instrs|-1];
      Pushed(instrs[..|instrs|-1]) + (if i.op.PUSH? && i.operandValue.Some? then [i.operandValue.value] else [])
  }

  predicate IsPush(i: Instruction) {
    i.op.PUSH? && i.operandValue.Some?
  }

  /** The places of the pushes, in order. */
  ghost predicate PushPlaces(instrs: Segment, at: seq<nat>) {
    && (forall i, j :: 0 <= i < j < |at| ==> at[i] < at[j])
    && (forall k: nat :: k in at <==> k < |instrs| && IsPush(instrs[k]))
  }

  /** The pushed values are those at these places, in order. */
  lemma {:induction false} PushedAre(instrs: Segment) returns (at: seq<nat>)
    ensures PushPlaces(instrs, at) && |at| == |Pushed(instrs)|
    ensures forall i :: 0 <= i < |at| ==> at[i] < |instrs| && instrs[at[i]].operandValue == Some(Pushed(instrs)[i])
  {
    at := [];
    if instrs != [] {
      var n := |instrs| - 1;
      var before := PushedAre(instrs[..n]);
      at := before;
      if IsPush(instrs[n]) {
        at := before + [n];
      }
      OnePlaceMore(instrs, before);
    }
  }

  lemma OnePlaceMore(instrs: Segment, at: seq<nat>)
    requires instrs != [] && PushPlaces(instrs[..|instrs|-1], at)
    ensures PushPlaces(instrs, if IsPush(instrs[|instrs|-1]) then at + [|instrs| - 1] else at)
  {
    hide IsPush;
    var n := |instrs| - 1;
    assert forall i :: 0 <= i < |at| ==> at[i] in at;
    assert forall k: nat :: k < n ==> instrs[..n][k] == instrs[k];
    assert forall k: nat :: k in at + [n] <==> k in at || k == n;
  }

  /** One of the first `n` values is a JUMPDEST at the start of block `t`. */
  ghost predicate ReturnsWithin(values: seq<nat>, n: int, offsetToBlock: map<nat, nat>, jumpdests: set<nat>, t: nat)
    requires n <= |values|
  {
    exists i :: 0 <= i < n && values[i] in jumpdests && values[i] in offsetToBlock && offsetToBlock[values[i]] == t
  }

  /** A block that jumps may be returned to at any JUMPDEST it pushed before the jump target. */
  ghost predicate ReturnsTo(instrs: Segment, offsetToBlock: map<nat, nat>, jumpdests: set<nat>, t: nat) {
    && instrs != [] && Last(instrs).op.JUMP?
    && ReturnsWithin(Pushed(instrs), |Pushed(instrs)| - 1, offsetToBlock, jumpdests, t)
  }

  ghost predicate ReturnEdge(blocks: seq<BasicBlock>, offsetToBlock: map<nat, nat>, jumpdests: set<nat>,
      a: nat, t: nat) {
    exists k :: 0 <= k < |blocks| && blocks[k].id == a && ReturnsTo(blocks[k].instructions, offsetToBlock, jumpdests, t)
  }

  ghost predicate OnlyAdds(succs0: Adjacency, succs: Adjacency) {
    forall a :: a in succs0 ==> a in succs && succs0[a] <= succs[a]
  }

  method ResolveReturnAddressEdges(blocks: seq<BasicBlock>, offsetToBlock: map<nat, nat>, jumpdests: set<nat>,
                                   succs0: Adjacency)
    returns (succs: Adjacency)
    requires forall k :: 0 <= k < |blocks| ==> blocks[k].id in succs0
    ensures OnlyAdds(succs0, succs)
    ensures forall a, t :: Edge(succs, a, t) <==> Edge(succs0, a, t) || ReturnEdge(blocks, offsetToBlock, jumpdests, a, t)
  {
    hide ReturnsTo, Pushed;
    succs := succs0;
    for k := 0 to |blocks|
      invariant OnlyAdds(succs0, succs)
      invariant forall a, t :: Edge(succs, a, t) <==>
        Edge(succs0, a, t) || ReturnEdge(blocks[..k], offsetToBlock, jumpdests, a, t)
    {
      ghost var before := succs;
      succs := AddReturnEdges(blocks[k].id, blocks[k].instructions, offsetToBlock, jumpdests, succs);
      forall a, t ensures Edge(succs, a, t) <==>
        Edge(succs0, a, t) || ReturnEdge(blocks[..k + 1], offsetToBlock, jumpdests, a, t)
      {
        OneBlockMore(blocks, k, offsetToBlock, jumpdests, a, t);
      }
    }
    assert blocks[..|blocks|] == blocks;
  }

  lemma OneBlockMore(blocks: seq<BasicBlock>, k: nat, offsetToBlock: map<nat, nat>, jumpdests: set<nat>, a: nat, t: nat)
    requires k < |blocks|
    ensures ReturnEdge(blocks[..k + 1], offsetToBlock, jumpdests, a, t) <==>
      ReturnEdge(blocks[..k], offsetToBlock, jumpdests, a, t)
      || (blocks[k].id == a && ReturnsTo(blocks[k].instructions, offsetToBlock, jumpdests, t))
  {
    hide ReturnsTo;
    assert blocks[..k + 1] == blocks[..k] + [blocks[k]];
    if ReturnEdge(blocks[..k], offsetToBlock, jumpdests, a, t) {
      var j :| 0 <= j < k && blocks[..k][j].id == a && ReturnsTo(blocks[..k][j].instructions, offsetToBlock, jumpdests, t);
      assert blocks[..k + 1][j] == blocks[..k][j];
    }
    assert blocks[..k + 1][k] == blocks[k];
  }

  /** The edges of one block. */
  method AddReturnEdges(id: nat, instrs: Segment, offsetToBlock: map<nat, nat>, jumpdests: set<nat>, succs0: Adjacency)
    returns (succs: Adjacency)
    requires id in succs0
    ensures OnlyAdds(succs0, succs)
    ensures forall a, t :: Edge(succs, a, t) <==>
      Edge(succs0, a, t) || (a == id && ReturnsTo(instrs, offsetToBlock, jumpdests, t))
  {
    succs := succs0;
    if instrs == [] || !Last(instrs).op.JUMP? {
      return;
    }
    var values := Pushed(instrs);
    if |values| < 2 {
      return;
    }
    for i := 0 to |values| - 1
      invariant id in succs && OnlyAdds(succs0, succs)
      invariant forall a :: a != id ==> Neighbours(succs, a) == Neighbours(succs0, a)
      invariant forall t :: t in succs[id] <==> t in succs0[id] || ReturnsWithin(values, i, offsetToBlock, jumpdests, t)
    {
      var v := values[i];
      if v in jumpdests && v in offsetToBlock && offsetToBlock[v] !in succs[id] {
        succs := succs[id := succs[id] + [offsetToBlock[v]]];
      }
    }
  }

  /** More edges never shorten what a search can find. */
  lemma {:induction false} MoreEdgesReachMore(g: Adjacency, g': Adjacency, ex: set<nat>, a: nat, k: nat, n: nat)
    requires forall x, y :: Edge(g, x, y) ==> Edge(g', x, y)
    requires Near(g, ex, a, k, n)
    ensures Near(g', ex, a, k, n)
  {
    var p :| NearBy(g, ex, a, k, n, p);
    assert NearBy(g', ex, a, k, n, p);
  }

  // ---- Ownership ----

  datatype FunctionEntry = FunctionEntry(selector: string, jumpTarget: Option<nat>)

  datatype FunctionUnit = FunctionUnit(
    selector: string, name: Option<string>, entryPc: nat, entryBlockId: Option<nat>, body: set<nat>)

  /** `resolved_map.get(selector)`. */
  function NameOf(resolved: map<string, string>, selector: string): Option<string> {
    if selector in resolved then Some(resolved[selector]) else None
  }

  /** Block `b` starts at `offset`. */
  predicate StartsAt(offsetToBlock: map<nat, nat>, offset: nat, b: nat) {
    offset in offsetToBlock.Keys && offsetToBlock[offset] == b
  }

  /** The block at the jump target of an entry. */
  function EntryBlock(e: FunctionEntry, offsetToBlock: map<nat, nat>): (r: Option<nat>)
    ensures forall b: nat :: r == Some(b) <==> e.jumpTarget.Some? && StartsAt(offsetToBlock, e.jumpTarget.value, b)
  {
    if e.jumpTarget.Some? && e.jumpTarget.value in offsetToBlock then Some(offsetToBlock[e.jumpTarget.value]) else None
  }

  type Reach = map<string, set<nat>>

  ghost predicate Holds(reach: Reach, names: seq<string>, s: string, b: nat) {
    s in names && s in reach && b in reach[s]
  }

  /** Exactly one of the selectors reaches `b`. */
  ghost predicate OwnedBy(reach: Reach, names: seq<string>, s: string, b: nat) {
    Holds(reach, names, s, b) && forall s' :: Holds(reach, names, s', b) ==> s' == s
  }

  ghost predicate SharedIn(reach: Reach, names: seq<string>, b: nat) {
    exists s, s' :: s != s' && Holds(reach, names, s, b) && Holds(reach, names, s', b)
  }

  function OwnersOf(owners: map<nat, seq<string>>, b: nat): seq<string> {
    if b in owners then owners[b] else []
  }

  /** `owners` lists, for every block, the selectors of `names` that reach it, once each. */
  ghost predicate ListsOwners(reach: Reach, names: seq<string>, owners: map<nat, seq<string>>) {
    && (forall b :: b in owners ==> OwnersOf(owners, b) != [])
    && (forall b :: NoRepeats(OwnersOf(owners, b)))
    && (forall b, s :: s in OwnersOf(owners, b) <==> Holds(reach, names, s, b))
  }

  ghost predicate NoRepeats(names: seq<string>) {
    forall i, j :: 0 <= i < j < |names| ==> names[i] != names[j]
  }

  /** Put `s` behind the owners of every block in `blocks`. */
  method AddOwner(owners0: map<nat, seq<string>>, blocks: set<nat>, s: string) returns (owners: map<nat, seq<string>>)
    ensures owners.Keys == owners0.Keys + blocks
    ensures forall b :: OwnersOf(owners, b) == OwnersOf(owners0, b) + (if b in blocks then [s] else [])
  {
    owners := owners0;
    var rest := blocks;
    while rest != {}
      invariant rest <= blocks
      invariant owners.Keys == owners0.Keys + (blocks - rest)
      invariant forall b :: OwnersOf(owners, b) == OwnersOf(owners0, b) + (if b in blocks - rest then [s] else [])
      decreases rest
    {
      var b :| b in rest;
      rest := rest - {b};
      owners := owners[b := OwnersOf(owners, b) + [s]];
    }
  }

  lemma OneOwnerMore(reach: Reach, names: seq<string>, k: nat, before: map<nat, seq<string>>, after: map<nat,
      seq<string>>)
    requires k < |names| && names[k] in reach && names[k] !in names[..k]
    requires ListsOwners(reach, names[..k], before)
    requires after.Keys == before.Keys + reach[names[k]]
    requires forall b :: OwnersOf(after, b) == OwnersOf(before, b) + (if b in reach[names[k]] then [names[k]] else [])
    ensures ListsOwners(reach, names[..k + 1], after)
  {
    var s := names[k];
    assert names[..k + 1] == names[..k] + [s];
    forall b ensures NoRepeats(OwnersOf(after, b)) {
      assert s !in OwnersOf(before, b) by {
        assert !Holds(reach, names[..k], s, b);
      }
      assert NoRepeats(OwnersOf(before, b));
    }
    forall b, x ensures x in OwnersOf(after, b) <==> Holds(reach, names[..k + 1], x, b) {
      assert x in OwnersOf(before, b) <==> Holds(reach, names[..k], x, b);
    }
  }

  /** Blocks reached from one selector belong to it, blocks reached from more are shared. */
  method ClassifyBlocks(reach: Reach, names: seq<string>) returns (owned: map<nat, string>, shared: set<nat>)
    requires NoRepeats(names) && forall s :: s in names <==> s in reach
    ensures forall b, s :: (b in owned && owned[b] == s) <==> OwnedBy(reach, names, s, b)
    ensures forall b :: b in shared <==> SharedIn(reach, names, b)
  {
    var owners: map<nat, seq<string>> := map[];
    for k := 0 to |names|
      invariant ListsOwners(reach, names[..k], owners)
    {
      assert names[k] in names;
      var next := AddOwner(owners, reach[names[k]], names[k]);
      OneOwnerMore(reach, names, k, owners, next);
      owners := next;
    }
    assert names[..|names|] == names;
    owned := map b | b in owners && |owners[b]| == 1 :: owners[b][0];
    shared := set b | b in owners && |owners[b]| != 1;
    OwnersDecide(reach, names, owners);
  }

  lemma OwnersDecide(reach: Reach, names: seq<string>, owners: map<nat, seq<string>>)
    requires ListsOwners(reach, names, owners)
    ensures forall b, s :: (b in owners && |owners[b]| == 1 && owners[b][0] == s) <==> OwnedBy(reach, names, s, b)
    ensures forall b :: (b in owners && |owners[b]| != 1) <==> SharedIn(reach, names, b)
  {
    forall b, s ensures (b in owners && |owners[b]| == 1 && owners[b][0] == s) <==> OwnedBy(reach, names, s, b) {
      OwnersOfBlock(reach, names, owners, b);
    }
    forall b ensures (b in owners && |owners[b]| != 1) <==> SharedIn(reach, names, b) {
      OwnersOfBlock(reach, names, owners, b);
    }
  }

  lemma OwnersOfBlock(reach: Reach, names: seq<string>, owners: map<nat, seq<string>>, b: nat)
    requires ListsOwners(reach, names, owners)
    ensures b in owners <==> exists s :: Holds(reach, names, s, b)
    ensures forall s :: OwnedBy(reach, names, s, b) <==> OwnersOf(owners, b) == [s]
    ensures SharedIn(reach, names, b) <==> |OwnersOf(owners, b)| > 1
  {
    var os := OwnersOf(owners, b);
    assert NoRepeats(os);
    assert forall s :: s in os <==> Holds(reach, names, s, b);
    if |os| > 0 {
      assert os[0] in os;
    }
    if |os| > 1 {
      assert os[1] in os && os[0] != os[1];
    }
    if |os| == 1 {
      assert os == [os[0]];
    }
  }

  const MAX_BLOCKS: nat := 500

  /** What the bounded search may return for a function that starts at block `start`. */
  ghost predicate IsBody(start: nat, succs: Adjacency, dispatcher: set<nat>, body: set<nat>) {
    && |body| <= 500
    && (exists d :: FilledTo(succs, dispatcher, start, body, d))
    && (|body| < 500 ==> forall n :: n in body <==> ReachesOutside(succs, dispatcher, start, n))
  }

  /** Where the last entry with selector `s` and a known block starts. */
  function StartOf(entries: seq<FunctionEntry>, offsetToBlock: map<nat, nat>, s: string): Option<nat> {
    if entries == [] then None
    else
      var e := entries[|entries|-1];
      if e.selector == s && EntryBlock(e, offsetToBlock).Some? then EntryBlock(e, offsetToBlock)
      else StartOf(entries[..|entries|-1], offsetToBlock, s)
  }

  /** One search result for each selector that has a known block, found from that block. */
  ghost predicate ReachIs(entries: seq<FunctionEntry>, offsetToBlock: map<nat, nat>, succs: Adjacency,
                          dispatcher: set<nat>, reach: Reach) {
    forall s :: (s in reach <==> StartOf(entries, offsetToBlock, s).Some?)
      && (s in reach ==> IsBody(StartOf(entries, offsetToBlock, s).value, succs, dispatcher, reach[s]))
  }

  lemma OneEntryMore(entries: seq<FunctionEntry>, offsetToBlock: map<nat, nat>, i: nat, s: string)
    requires i < |entries|
    ensures StartOf(entries[..i + 1], offsetToBlock, s) ==
      if entries[i].selector == s && EntryBlock(entries[i], offsetToBlock).Some? then EntryBlock(entries[i], offsetToBlock)
      else StartOf(entries[..i], offsetToBlock, s)
  {
    assert entries[..i + 1][..i] == entries[..i];
  }

  /** The blocks found for each selector; a later entry with the same selector replaces an earlier one. */
  method ReachOfEntries(entries: seq<FunctionEntry>, offsetToBlock: map<nat, nat>, succs: Adjacency,
      dispatcher: set<nat>)
    returns (reach: Reach, names: seq<string>)
    ensures forall s :: s in names <==> s in reach
    ensures NoRepeats(names)
    ensures ReachIs(entries, offsetToBlock, succs, dispatcher, reach)
  {
    hide IsBody, EntryBlock, FilledTo;
    reach, names := map[], [];
    for i := 0 to |entries|
      invariant forall s :: s in names <==> s in reach
      invariant NoRepeats(names)
      invariant ReachIs(entries[..i], offsetToBlock, succs, dispatcher, reach)
    {
      var e := entries[i];
      var start := EntryBlock(e, offsetToBlock);
      forall s
        ensures StartOf(entries[..i + 1], offsetToBlock, s)
             == if e.selector == s && start.Some? then start else StartOf(entries[..i], offsetToBlock, s)
      {
        OneEntryMore(entries, offsetToBlock, i, s);
      }
      if start.Some? {
        var found := SearchBody(start.value, succs, dispatcher);
        if e.selector !in reach {
          names := names + [e.selector];
        }
        reach := reach[e.selector := found];
      }
    }
    assert entries[..|entries|] == entries;
  }

  method SearchBody(start: nat, succs: Adjacency, dispatcher: set<nat>) returns (found: set<nat>)
    ensures IsBody(start, succs, dispatcher, found)
  {
    ghost var depth;
    found, depth := BfsReachable(start, succs, dispatcher, MAX_BLOCKS);
  }

  /** A body never enters the dispatcher. */
  lemma BodyAvoids(start: nat, succs: Adjacency, dispatcher: set<nat>, body: set<nat>)
    requires IsBody(start, succs, dispatcher, body)
    ensures body * dispatcher == {}
  {
    var d :| FilledTo(succs, dispatcher, start, body, d);
    forall n | n in body ensures n !in dispatcher {
      NearFarther(succs, dispatcher, start, d, n);
    }
  }

  lemma OwnedOrShared(reach: Reach, names: seq<string>, s: string, b: nat)
    ensures Holds(reach, names, s, b) ==> OwnedBy(reach, names, s, b) || SharedIn(reach, names, b)
    ensures OwnedBy(reach, names, s, b) ==> !SharedIn(reach, names, b)
  {
  }

  /** The entries that have a jump target. */
  function WithTarget(entries: seq<FunctionEntry>): (r: seq<FunctionEntry>)
    ensures forall e :: e in r ==> e.jumpTarget.Some?
  {
    if entries == [] then []
    else
      var n := |entries| - 1;
      if entries[n].jumpTarget.Some? then WithTarget(entries[..n]) + [entries[n]] else WithTarget(entries[..n])
  }

  /** One unit for each entry, in order, with its own selector, target and block, and the body of its selector. */
  ghost predicate UnitsMatch(units: seq<FunctionUnit>, entries: seq<FunctionEntry>, offsetToBlock: map<nat, nat>,
                             resolved: map<string, string>, reach: Reach)
  {
    && |units| == |entries|
    && forall i :: 0 <= i < |units| ==>
         && units[i].selector == entries[i].selector
         && (entries[i].selector in resolved.Keys ==> units[i].name == Some(resolved[entries[i].selector]))
         && (entries[i].selector !in resolved.Keys ==> units[i].name == None)
         && Some(units[i].entryPc) == entries[i].jumpTarget
         && (forall b: nat :: units[i].entryBlockId == Some(b) <==> StartsAt(offsetToBlock, units[i].entryPc, b))
         && units[i].body == if units[i].selector in reach then reach[units[i].selector] else {}
  }

  lemma OneUnitMore(units: seq<FunctionUnit>, entries: seq<FunctionEntry>, i: nat, offsetToBlock: map<nat, nat>,
      resolved: map<string, string>, reach: Reach, u: FunctionUnit)
    requires i < |entries| && UnitsMatch(units, WithTarget(entries[..i]), offsetToBlock, resolved, reach)
    requires entries[i].jumpTarget.Some? ==> UnitsMatch([u], [entries[i]], offsetToBlock, resolved, reach)
    ensures UnitsMatch(if entries[i].jumpTarget.Some? then units + [u] else units, WithTarget(entries[..i + 1]),
                       offsetToBlock, resolved, reach)
  {
    assert entries[..i + 1][..i] == entries[..i];
    if entries[i].jumpTarget.Some? {
      assert [u][0] == u && [entries[i]][0] == entries[i];
    }
  }

  /** The units around a given dispatcher, in the order of their entries, and which blocks belong to which. */
  method CollectUnits(entries: seq<FunctionEntry>, offsetToBlock: map<nat, nat>, succs: Adjacency,
      dispatcher: set<nat>, resolved: map<string, string>)
    returns (units: seq<FunctionUnit>, owned: map<nat, string>, shared: set<nat>, ghost reach: Reach,
      ghost names: seq<string>)
    ensures ReachIs(entries, offsetToBlock, succs, dispatcher, reach) && forall s :: s in names <==> s in reach
    ensures UnitsMatch(units, WithTarget(entries), offsetToBlock, resolved, reach)
    ensures forall b, s :: (b in owned && owned[b] == s) <==> OwnedBy(reach, names, s, b)
    ensures forall b :: b in shared <==> SharedIn(reach, names, b)
    ensures forall u :: u in units ==> u.body * dispatcher == {}
    ensures forall u, b :: u in units && b in u.body ==> (b in owned && owned[b] == u.selector) || b in shared
    ensures forall b :: b in owned ==> b !in shared
  {
    hide IsBody, EntryBlock, UnitsMatch, WithTarget;
    var found, order := ReachOfEntries(entries, offsetToBlock, succs, dispatcher);
    reach, names := found, order;
    owned, shared := ClassifyBlocks(found, order);
    units := [];
    NoUnits(offsetToBlock, resolved, reach);
    for i := 0 to |entries|
      invariant UnitsMatch(units, WithTarget(entries[..i]), offsetToBlock, resolved, reach)
    {
      var e := entries[i];
      ghost var u := FunctionUnit(
        e.selector, NameOf(resolved, e.selector), e.jumpTarget.GetOr(0), EntryBlock(e, offsetToBlock),
        if e.selector in reach then reach[e.selector] else {});
      OneUnit(u, e, offsetToBlock, resolved, reach);
      OneUnitMore(units, entries, i, offsetToBlock, resolved, reach, u);
      if e.jumpTarget.Some? {
        var body := if e.selector in found then found[e.selector] else {};
        units := units + [FunctionUnit(
          e.selector, NameOf(resolved, e.selector), e.jumpTarget.value, EntryBlock(e, offsetToBlock), body)];
      }
    }
    assert entries[..|entries|] == entries;
    UnitBodies(entries, offsetToBlock, succs, dispatcher, resolved, reach, names, units);
    forall b | b in owned ensures b !in shared {
      OwnedOrShared(reach, names, owned[b], b);
    }
  }

  lemma OneUnit(u: FunctionUnit, e: FunctionEntry, offsetToBlock: map<nat, nat>, resolved: map<string, string>,
      reach: Reach)
    requires u.selector == e.selector && u.name == NameOf(resolved, e.selector) && u.entryPc == e.jumpTarget.GetOr(0)
    requires u.entryBlockId == EntryBlock(e, offsetToBlock)
    requires u.body == if e.selector in reach then reach[e.selector] else {}
    ensures e.jumpTarget.Some? ==> UnitsMatch([u], [e], offsetToBlock, resolved, reach)
  {
  }

  lemma NoUnits(offsetToBlock: map<nat, nat>, resolved: map<string, string>, reach: Reach)
    ensures UnitsMatch([], WithTarget([]), offsetToBlock, resolved, reach)
  {
  }

  /** Every body avoids the dispatcher, and its blocks are owned by that function or shared. */
  lemma UnitBodies(entries: seq<FunctionEntry>, offsetToBlock: map<nat, nat>, succs: Adjacency, dispatcher: set<nat>,
      resolved: map<string, string>, reach: Reach, names: seq<string>, units: seq<FunctionUnit>)
    requires ReachIs(entries, offsetToBlock, succs, dispatcher, reach) && forall s :: s in names <==> s in reach
    requires UnitsMatch(units, WithTarget(entries), offsetToBlock, resolved, reach)
    ensures forall u :: u in units ==> u.body * dispatcher == {}
    ensures forall u, b :: u in units && b in u.body ==> OwnedBy(reach, names, u.selector, b) || SharedIn(reach, names, b)
  {
    hide IsBody, WithTarget;
    forall u | u in units ensures u.body * dispatcher == {} {
      if u.selector in reach {
        BodyAvoids(StartOf(entries, offsetToBlock, u.selector).value, succs, dispatcher, u.body);
      }
    }
    forall u, b | u in units && b in u.body
      ensures OwnedBy(reach, names, u.selector, b) || SharedIn(reach, names, b)
    {
      assert Holds(reach, names, u.selector, b);
      OwnedOrShared(reach, names, u.selector, b);
    }
  }
}
