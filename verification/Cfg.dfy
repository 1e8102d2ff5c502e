/** Reachability, back edges and natural loops. */
module Cfg {
  // The exits of loops, and how loops nest.

  import opened Graphs
  import opened Dominators

  datatype BackEdge = BackEdge(source: nat, target: nat)

  /** The structural part of a loop record; the body is kept as a set. */
  datatype LoopInfo = LoopInfo(header: nat, tail: nat, body: set<nat>, exits: seq<nat>)

  datatype CfgAnalysis = CfgAnalysis(
    loops: seq<LoopInfo>, backEdges: seq<BackEdge>, dominators: DomMap, reachable: set<nat>)

  // ---- Reachability ----

  /** Some path from `a` to `b` stays inside `ids`. */
  ghost predicate ReachesWithin(g: Adjacency, ids: set<nat>, a: nat, b: nat) {
    exists p :: PathFromTo(g, a, b, p) && forall x :: x in p ==> x in ids
  }

  lemma ExtendWithin(g: Adjacency, ids: set<nat>, a: nat, b: nat, c: nat)
    requires ReachesWithin(g, ids, a, b) && Edge(g, b, c) && c in ids
    ensures ReachesWithin(g, ids, a, c)
  {
    var p :| PathFromTo(g, a, b, p) && forall x :: x in p ==> x in ids;
    ExtendPath(g, a, b, c, p);
  }

  /** A set that holds the entry and is closed under edges inside `ids` holds everything reached. */
  lemma {:induction false} ClosedHoldsReached(g: Adjacency, ids: set<nat>, entry: nat, s: set<nat>, b: nat, p: seq<nat>)
    requires entry in s && forall x, y :: x in s && Edge(g, x, y) && y in ids ==> y in s
    requires PathFromTo(g, entry, b, p) && forall x :: x in p ==> x in ids
    ensures b in s
    decreases |p|
  {
    if |p| > 1 {
      var j := |p| - 2;
      Prefix(g, entry, b, p, j);
      ClosedHoldsReached(g, ids, entry, s, p[j], p[..j+1]);
      assert Edge(g, p[j], p[j+1]);
    }
  }

  method ComputeReachable(entry: nat, succs: Adjacency, allIds: set<nat>) returns (visited: set<nat>)
    ensures forall n :: n in visited <==> ReachesWithin(succs, allIds, entry, n)
  {
    visited := {};
    var queue := [entry];
    assert PathFromTo(succs, entry, entry, [entry]);
    while queue != []
      invariant visited <= allIds
      invariant forall n :: n in visited ==> ReachesWithin(succs, allIds, entry, n)
      invariant forall n :: n in queue && n in allIds ==> ReachesWithin(succs, allIds, entry, n)
      invariant entry in allIds ==> entry in visited || entry in queue
      invariant forall n, s :: n in visited && Edge(succs, n, s) && s in allIds ==> s in visited || s in queue
      decreases allIds - visited, |queue|
    {
      var node := queue[0];
      ghost var old_queue := queue;
      queue := queue[1..];
      assert old_queue == [node] + queue;
      if node in visited || node !in allIds {
        continue;
      }
      visited := visited + {node};
      var neighbours := Neighbours(succs, node);
      ghost var rest := queue;
      for i := 0 to |neighbours|
        invariant forall n :: n in rest ==> n in queue
        invariant forall n :: n in queue ==> n in rest || n in neighbours
        invariant forall s :: s in neighbours[..i] ==> s in visited || s in queue
      {
        assert neighbours[..i+1] == neighbours[..i] + [neighbours[i]];
        if neighbours[i] !in visited {
          queue := queue + [neighbours[i]];
        }
      }
      forall n | n in queue && n in allIds ensures ReachesWithin(succs, allIds, entry, n) {
        if n in neighbours {
          ExtendWithin(succs, allIds, entry, node, n);
        }
      }
    }
    forall n | ReachesWithin(succs, allIds, entry, n) ensures n in visited {
      var p :| PathFromTo(succs, entry, n, p) && forall x :: x in p ==> x in allIds;
      assert p[0] in allIds;
      ClosedHoldsReached(succs, allIds, entry, visited, n, p);
    }
  }

  // ---- Back edges ----

  /** `order` is the order in which the reachable set iterates. */
  method FindBackEdges(succs: Adjacency, doms: DomMap, order: seq<nat>) returns (edges: seq<BackEdge>)
    ensures forall e :: e in edges <==>
      e.source in order && Edge(succs, e.source, e.target) && e.target in DomsOf(doms, e.source)
  {
    edges := [];
    for i := 0 to |order|
      invariant forall e :: e in edges <==>
        e.source in order[..i] && Edge(succs, e.source, e.target) && e.target in DomsOf(doms, e.source)
    {
      var a := order[i];
      assert order[..i+1] == order[..i] + [a];
      var ss := Neighbours(succs, a);
      ghost var before := edges;
      for j := 0 to |ss|
        invariant forall e :: e in edges <==>
          e in before || (e.source == a && e.target in ss[..j] && e.target in DomsOf(doms, a))
      {
        assert ss[..j+1] == ss[..j] + [ss[j]];
        if ss[j] in DomsOf(doms, a) {
          edges := edges + [BackEdge(a, ss[j])];
        }
      }
      assert ss[..|ss|] == ss;
    }
    assert order[..|order|] == order;
  }

  // ---- Natural loops ----

  /** The natural loop of the edge `tail -> header`: the header and what reaches the tail around it. */
  ghost predicate InLoop(g: Adjacency, header: nat, tail: nat, n: nat) {
    n == header || ReachesAvoiding(g, n, tail, header)
  }

  /** All blocks that occur in an adjacency dictionary. */
  function Listed(g: Adjacency): set<nat> {
    set n, i | n in g && 0 <= i < |g[n]| :: g[n][i]
  }

  lemma {:induction false} BackwardsClosed(g: Adjacency, header: nat, tail: nat, s: set<nat>, n: nat, p: seq<nat>)
    requires tail in s && forall x, y :: y in s && y != header && Edge(g, x, y) ==> x in s
    requires PathFromTo(g, n, tail, p) && header !in p
    ensures n in s
    decreases |p|
  {
    if |p| > 1 {
      Suffix(g, n, tail, p, 1);
      assert forall x :: x in p[1..] ==> x in p;
      BackwardsClosed(g, header, tail, s, p[1], p[1..]);
      assert Edge(g, p[0], p[1]);
    }
  }

  /** The inner loop: add the predecessors not seen yet to the body and the worklist. */
  method PushNew(ps: seq<nat>, body0: set<nat>, worklist0: seq<nat>) returns (body: set<nat>, worklist: seq<nat>)
    ensures forall n :: n in body <==> n in body0 || n in ps
    ensures forall n :: n in worklist <==> n in worklist0 || (n in ps && n !in body0)
    ensures body == body0 ==> worklist == worklist0
  {
    body, worklist := body0, worklist0;
    for i := 0 to |ps|
      invariant forall n :: n in body <==> n in body0 || n in ps[..i]
      invariant forall n :: n in worklist <==> n in worklist0 || (n in ps[..i] && n !in body0)
      invariant body == body0 ==> worklist == worklist0
    {
      assert ps[..i+1] == ps[..i] + [ps[i]];
      if ps[i] !in body {
        body := body + {ps[i]};
        worklist := worklist + [ps[i]];
      }
    }
    assert ps[..|ps|] == ps;
  }

  method NaturalLoopBody(header: nat, tail: nat, ghost succs: Adjacency, preds: Adjacency) returns (body: set<nat>)
    requires Inverse(succs, preds)
    ensures forall n :: n in body <==> InLoop(succs, header, tail, n)
  {
    body := {header, tail};
    if header == tail {
      return;
    }
    assert PathFromTo(succs, tail, tail, [tail]);
    var worklist := [tail];
    while worklist != []
      invariant header in body && tail in body
      invariant body <= Listed(preds) + {header, tail}
      invariant forall n :: n in body ==> InLoop(succs, header, tail, n)
      invariant forall n :: n in worklist ==> n in body && n != header
      invariant forall x, y :: y in body && y != header && y !in worklist && Edge(succs, x, y) ==> x in body
      decreases Listed(preds) + {header, tail} - body, |worklist|
    {
      var last := |worklist| - 1;
      var node := worklist[last];
      ghost var was := worklist;
      worklist := worklist[..last];
      assert was == worklist + [node];
      ghost var body0 := body;
      var ps := Neighbours(preds, node);
      body, worklist := PushNew(ps, body, worklist);
      forall n | n in body && n !in body0 ensures InLoop(succs, header, tail, n) {
        assert Edge(succs, n, node);
        PrependEdge(succs, n, node, tail, header);
      }
      forall x: nat, y: nat | y in body && y != header && y !in worklist && Edge(succs, x, y) ensures x in body {
        assert y in body0;
        if y == node {
          assert x in ps;
        } else {
          assert y !in was;
        }
      }
    }
    forall n | InLoop(succs, header, tail, n) ensures n in body {
      if n != header {
        var p :| PathFromTo(succs, n, tail, p) && header !in p;
        BackwardsClosed(succs, header, tail, body, n, p);
      }
    }
  }

  /** The blocks outside `body` that some block of `body` exits to, each once. */
  method ExitBlocks(body: set<nat>, succs: Adjacency) returns (exits: seq<nat>)
    ensures Distinct(exits)
    ensures forall s :: s in exits <==> s !in body && exists b :: b in body && Edge(succs, b, s)
  {
    exits := [];
    var todo := body;
    while todo != {}
      invariant todo <= body && Distinct(exits)
      invariant forall s :: s in exits <==> s !in body && exists b :: b in body - todo && Edge(succs, b, s)
      decreases todo
    {
      var b :| b in todo;
      ghost var done := body - todo;
      todo := todo - {b};
      assert body - todo == done + {b};
      var ss := Neighbours(succs, b);
      ghost var before := exits;
      for j := 0 to |ss|
        invariant Distinct(exits)
        invariant forall s :: s in exits <==> s in before || (s in ss[..j] && s !in body)
      {
        assert ss[..j+1] == ss[..j] + [ss[j]];
        if ss[j] !in body && ss[j] !in exits {
          exits := exits + [ss[j]];
        }
      }
      assert ss[..|ss|] == ss;
      forall s ensures s in exits <==> s !in body && exists x :: x in body - todo && Edge(succs, x, s) {
        if s in ss && s !in body { assert b in body - todo && Edge(succs, b, s); }
      }
    }
    assert body - todo == body;
  }

  /** Control enters a natural loop only at its header. */
  lemma LoopEnteredAtHeader(g: Adjacency, header: nat, tail: nat, x: nat, y: nat)
    requires InLoop(g, header, tail, y) && !InLoop(g, header, tail, x) && Edge(g, x, y)
    ensures y == header
  {
    if y != header {
      PrependEdge(g, x, y, tail, header);
    }
  }

  /** A header that dominates the tail dominates every reachable member. */
  lemma HeaderDominatesBody(g: Adjacency, entry: nat, header: nat, tail: nat, n: nat)
    requires Dominates(g, entry, header, tail) && InLoop(g, header, tail, n)
    ensures Dominates(g, entry, header, n)
  {
    if n != header {
      var q :| PathFromTo(g, n, tail, q) && header !in q;
      forall p | PathFromTo(g, entry, n, p) ensures header in p {
        ConcatPaths(g, entry, n, tail, p, q);
      }
    }
  }

  // ---- Nesting ----

  /** A loop with its edge `tail -> header` and a header that dominates the tail. */
  ghost predicate NaturalBackEdge(g: Adjacency, entry: nat, header: nat, tail: nat) {
    Edge(g, tail, header) && Dominates(g, entry, header, tail) && Reaches(g, entry, tail)
  }

  lemma ReachesHeader(g: Adjacency, entry: nat, header: nat, tail: nat)
    requires NaturalBackEdge(g, entry, header, tail)
    ensures Reaches(g, entry, header)
  {
    var p :| PathFromTo(g, entry, tail, p);
    ExtendPath(g, entry, tail, header, p);
  }

  /** A dominator `h2` of `x`, not itself dominating `h1`, reaches `x` around `h1`. */
  lemma {:induction false} DominatorReachesAround(g: Adjacency, entry: nat, h1: nat, h2: nat, x: nat)
    requires Reaches(g, entry, x) && Dominates(g, entry, h2, x) && !Dominates(g, entry, h2, h1)
    ensures ReachesAvoiding(g, h2, x, h1)
  {
    var p :| PathFromTo(g, entry, x, p);
    var i := LastVisit(p, h2);
    Suffix(g, entry, x, p, i);
    if h1 in p[i..] {
      var k :| 0 <= k < |p[i..]| && p[i..][k] == h1;
      assert p[i + k] == h1 && h1 != h2;
      assert p[i+1..] == p[i+1..i+k] + p[i+k..];
      SpliceAvoids(g, entry, h1, x, h2, p, i + k);
    }
  }

  /** A member of the inner loop reaches its header around the outer header. */
  lemma {:induction false} MemberReachesHeader(g: Adjacency, h1: nat, h2: nat, t2: nat, y: nat)
    requires h1 != h2 && Edge(g, t2, h2) && InLoop(g, h2, t2, y) && !InLoop(g, h2, t2, h1)
    ensures ReachesAvoiding(g, y, h2, h1)
  {
    if y == h2 {
      assert PathFromTo(g, h2, h2, [h2]);
    } else {
      var p :| PathFromTo(g, y, t2, p) && h2 !in p;
      if h1 in p {
        var k :| 0 <= k < |p| && p[k] == h1;
        Suffix(g, y, t2, p, k);
      }
      AppendEdgeAvoiding(g, y, t2, h2, h1);
    }
  }

  /** If the outer header dominates the inner one and the loops share a reachable block, the inner loop lies inside. */
  lemma {:induction false} SharedBlockNests(
    g: Adjacency, entry: nat, h1: nat, t1: nat, h2: nat, t2: nat, x: nat, y: nat)
    requires h1 != h2 && NaturalBackEdge(g, entry, h1, t1) && NaturalBackEdge(g, entry, h2, t2)
    requires Dominates(g, entry, h1, h2)
    requires Reaches(g, entry, x) && InLoop(g, h1, t1, x) && InLoop(g, h2, t2, x)
    requires InLoop(g, h2, t2, y)
    ensures InLoop(g, h1, t1, y)
  {
    ReachesHeader(g, entry, h2, t2);
    ReachesHeader(g, entry, h1, t1);
    if Dominates(g, entry, h2, h1) {
      DominanceAntisymmetric(g, entry, h1, h2);
    }
    HeaderDominatesBody(g, entry, h2, t2, x);
    if InLoop(g, h2, t2, h1) {
      HeaderDominatesBody(g, entry, h2, t2, h1);
    }
    MemberReachesHeader(g, h1, h2, t2, y);
    DominatorReachesAround(g, entry, h1, h2, x);
    AvoidingTransitive(g, y, h2, x, h1);
    AvoidingTransitive(g, y, x, t1, h1);
  }

  /** Reachable natural loops with different headers are disjoint or nested. */
  lemma {:induction false} LoopsNest(g: Adjacency, entry: nat, h1: nat, t1: nat, h2: nat, t2: nat)
    requires h1 != h2 && NaturalBackEdge(g, entry, h1, t1) && NaturalBackEdge(g, entry, h2, t2)
    ensures
      || (forall n :: Reaches(g, entry, n) ==> !(InLoop(g, h1, t1, n) && InLoop(g, h2, t2, n)))
      || (forall n :: InLoop(g, h2, t2, n) ==> InLoop(g, h1, t1, n))
      || (forall n :: InLoop(g, h1, t1, n) ==> InLoop(g, h2, t2, n))
  {
    if x :| Reaches(g, entry, x) && InLoop(g, h1, t1, x) && InLoop(g, h2, t2, x) {
      HeaderDominatesBody(g, entry, h1, t1, x);
      HeaderDominatesBody(g, entry, h2, t2, x);
      DominatorsOrdered(g, entry, h1, h2, x);
      if Dominates(g, entry, h1, h2) {
        forall y | InLoop(g, h2, t2, y) ensures InLoop(g, h1, t1, y) {
          SharedBlockNests(g, entry, h1, t1, h2, t2, x, y);
        }
      } else {
        forall y | InLoop(g, h1, t1, y) ensures InLoop(g, h2, t2, y) {
          SharedBlockNests(g, entry, h2, t2, h1, t1, x, y);
        }
      }
    }
  }

  // ---- The whole analysis ----

  /** `preds` lists the blocks below `b` that exit to each block. */
  ghost predicate PredsBelow(preds: Adjacency, exits: seq<seq<nat>>, b: nat)
    requires b <= |exits|
  {
    forall x: nat, y: nat :: Edge(preds, x, y) <==> (y < b && x in exits[y])
  }

  /** `for s in exits: predecessors.setdefault(s, []).append(b)`. */
  method AppendPreds(preds0: Adjacency, exits: seq<nat>, b: nat) returns (preds: Adjacency)
    ensures forall x: nat, y: nat :: Edge(preds, x, y) <==> Edge(preds0, x, y) || (y == b && x in exits)
  {
    preds := preds0;
    for j := 0 to |exits|
      invariant forall x: nat, y: nat :: Edge(preds, x, y) <==> Edge(preds0, x, y) || (y == b && x in exits[..j])
    {
      ghost var before := preds;
      var s := exits[j];
      assert exits[..j+1] == exits[..j] + [s];
      preds := preds[s := Neighbours(preds, s) + [b]];
      assert forall x: nat, y: nat :: Edge(preds, x, y) <==> Edge(before, x, y) || (y == b && x == s);
    }
    assert exits[..|exits|] == exits;
  }

  /** The adjacency dictionaries built from the static exits of blocks `0 .. n-1`. */
  method BuildAdjacency(exits: seq<seq<nat>>) returns (succs: Adjacency, preds: Adjacency, allIds: set<nat>)
    ensures forall b: nat :: b in allIds <==> b < |exits|
    ensures succs.Keys == allIds && forall b :: b in succs ==> succs[b] == exits[b]
    ensures Inverse(succs, preds) && allIds <= preds.Keys
  {
    succs, preds, allIds := map[], map[], {};
    for b := 0 to |exits|
      invariant forall x: nat :: x in allIds <==> x < b
      invariant succs.Keys == allIds && forall x :: x in succs ==> succs[x] == exits[x]
      invariant PredsBelow(preds, exits, b)
    {
      allIds := allIds + {b};
      succs := succs[b := exits[b]];
      preds := AppendPreds(preds, exits[b], b);
    }
    ghost var built := preds;
    var todo := allIds;
    while todo != {}
      invariant forall x: nat, y: nat :: Edge(preds, x, y) <==> Edge(built, x, y)
      invariant todo <= allIds && allIds - todo <= preds.Keys
      decreases todo
    {
      var b :| b in todo;
      todo := todo - {b};
      if b !in preds {
        preds := preds[b := []];
      }
    }
    forall a: nat, b: nat ensures Edge(succs, a, b) <==> Edge(preds, b, a) {
      assert Edge(built, b, a) <==> a < |exits| && b in exits[a];
    }
  }

  /** What the loop records of one analysis say about the graph. */
  ghost predicate LoopsDescribe(g: Adjacency, loops: seq<LoopInfo>, edges: seq<BackEdge>) {
    && |loops| == |edges|
    && forall i :: 0 <= i < |loops| ==>
      && loops[i].header == edges[i].target && loops[i].tail == edges[i].source
      && (forall n :: n in loops[i].body <==> InLoop(g, loops[i].header, loops[i].tail, n))
      && Distinct(loops[i].exits)
      && (forall s :: s in loops[i].exits <==> s !in loops[i].body && exists b :: b in loops[i].body && Edge(g, b, s))
  }

  method ComputeLoops(edges: seq<BackEdge>, succs: Adjacency, preds: Adjacency) returns (loops: seq<LoopInfo>)
    requires Inverse(succs, preds)
    ensures LoopsDescribe(succs, loops, edges)
  {
    loops := [];
    for i := 0 to |edges|
      invariant LoopsDescribe(succs, loops, edges[..i])
    {
      var body := NaturalLoopBody(edges[i].target, edges[i].source, succs, preds);
      var exits := ExitBlocks(body, succs);
      loops := loops + [LoopInfo(edges[i].target, edges[i].source, body, exits)];
    }
    assert edges[..|edges|] == edges;
  }

  /** The order in which a set of blocks iterates: any listing without repetition. */
  method IterationOrder(s: set<nat>) returns (order: seq<nat>)
    ensures Distinct(order) && forall n :: n in order <==> n in s
  {
    order := [];
    var todo := s;
    while todo != {}
      invariant todo <= s && Distinct(order)
      invariant forall n :: n in order <==> n in s && n !in todo
      decreases todo
    {
      var n :| n in todo;
      todo := todo - {n};
      order := order + [n];
    }
  }

  /**
   The structural part of the analysis. If the sweeps converged, the dominators
   are exact, so every recorded loop is a natural loop that control enters only
   at its header, and loops with different headers nest.
   */
  method AnalyzeCfg(exits: seq<seq<nat>>) returns (r: CfgAnalysis, ghost pr: Problem, ghost succs: Adjacency)
    requires forall b, s :: 0 <= b < |exits| && s in exits[b] ==> s < |exits|
    ensures exits == [] ==> r == CfgAnalysis([], [], map[], {})
    ensures forall b: nat :: Neighbours(succs, b) == if b < |exits| then exits[b] else []
    ensures exits != [] ==>
      && pr.Describes(succs) && pr.entry == 0 && pr.reachable == r.reachable
      && r.dominators == AfterRounds(pr, MAX_ROUNDS)
      && LoopsDescribe(succs, r.loops, r.backEdges)
      && (forall e :: e in r.backEdges <==>
            e.source in r.reachable && Edge(succs, e.source, e.target) && e.target in DomsOf(r.dominators, e.source))
  {
    if exits == [] {
      succs := map[];
      pr := Problem(0, map[], {0}, [0]);
      r := CfgAnalysis([], [], map[], {});
      return;
    }
    var succs0, preds, allIds := BuildAdjacency(exits);
    succs := succs0;
    var reachable := ComputeReachable(0, succs0, allIds);
    forall n ensures n in reachable <==> Reaches(succs0, 0, n) {
      if p :| PathFromTo(succs0, 0, n, p) {
        PathStaysBelow(exits, succs0, n, p);
      }
    }
    var order := IterationOrder(reachable);
    assert PathFromTo(succs0, 0, 0, [0]);
    var problem := Problem(0, preds, reachable, order);
    pr := problem;
    var doms := ComputeDominators(problem);
    var edges := FindBackEdges(succs0, doms, order);
    var loops := ComputeLoops(edges, succs0, preds);
    r := CfgAnalysis(loops, edges, doms, reachable);
  }

  lemma PathStaysBelow(exits: seq<seq<nat>>, succs: Adjacency, n: nat, p: seq<nat>)
    requires exits != [] && forall b, s :: 0 <= b < |exits| && s in exits[b] ==> s < |exits|
    requires forall b: nat :: Neighbours(succs, b) == if b < |exits| then exits[b] else []
    requires PathFromTo(succs, 0, n, p)
    ensures forall x :: x in p ==> x < |exits|
  {
    forall j | 0 <= j < |p| ensures p[j] < |exits| {
      if j > 0 {
        assert Edge(succs, p[j-1], p[j]);
      }
    }
  }

  /** What one analysis whose sweeps converged establishes about its loops. */
  lemma {:induction false} RecordedLoops(
    pr: Problem, succs: Adjacency, doms: DomMap, loops: seq<LoopInfo>, edges: seq<BackEdge>, i: nat, j: nat)
    requires pr.Describes(succs) && Converged(pr) && doms == AfterRounds(pr, MAX_ROUNDS)
    requires LoopsDescribe(succs, loops, edges)
    requires forall e :: e in edges <==>
      e.source in pr.reachable && Edge(succs, e.source, e.target) && e.target in DomsOf(doms, e.source)
    requires i < |loops| && j < |loops|
    ensures forall n :: n in loops[i].body && n in pr.reachable ==> Dominates(succs, pr.entry, loops[i].header, n)
    ensures forall x, y :: x !in loops[i].body && y in loops[i].body && Edge(succs, x, y) ==> y == loops[i].header
    ensures loops[i].header != loops[j].header ==>
      || loops[i].body * loops[j].body * pr.reachable == {}
      || loops[i].body <= loops[j].body
      || loops[j].body <= loops[i].body
  {
    ConvergedIff(pr, succs);
    var a, b := loops[i], loops[j];
    assert edges[i] in edges && edges[j] in edges;
    forall n | n in a.body && n in pr.reachable ensures Dominates(succs, pr.entry, a.header, n) {
      HeaderDominatesBody(succs, pr.entry, a.header, a.tail, n);
    }
    forall x, y | x !in a.body && y in a.body && Edge(succs, x, y) ensures y == a.header {
      LoopEnteredAtHeader(succs, a.header, a.tail, x, y);
    }
    if a.header != b.header {
      LoopsNest(succs, pr.entry, a.header, a.tail, b.header, b.tail);
    }
  }

  /**
   No back edge is ever missed, even when the sweeps were cut off; and if they
   converged nothing else is reported.
   */
  lemma {:induction false} BackEdgesFound(
    pr: Problem, succs: Adjacency, doms: DomMap, edges: seq<BackEdge>, a: nat, b: nat)
    requires pr.Describes(succs) && doms == AfterRounds(pr, MAX_ROUNDS)
    requires forall e :: e in edges <==>
      e.source in pr.reachable && Edge(succs, e.source, e.target) && e.target in DomsOf(doms, e.source)
    ensures NaturalBackEdge(succs, pr.entry, b, a) ==> BackEdge(a, b) in edges
    ensures Converged(pr) && BackEdge(a, b) in edges ==> NaturalBackEdge(succs, pr.entry, b, a)
  {
    RoundsComplete(pr, succs, MAX_ROUNDS);
    ConvergedIff(pr, succs);
  }
}
