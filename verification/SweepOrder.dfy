/** What k sweeps list, told from the graph and the order alone. */
module SweepOrder {
  import opened Words
  import opened Graphs
  import opened Dominators

  /** Where `n` stands in the order of iteration. */
  function Position(order: seq<nat>, n: nat): (i: nat)
    requires n in order
    ensures i < |order| && order[i] == n
  {
    if order[|order|-1] == n then |order| - 1
    else
      assert order == order[..|order|-1] + [order[|order|-1]];
      Position(order[..|order|-1], n)
  }

  /** A sweep handles `p` before `n`. */
  predicate Before(order: seq<nat>, p: nat, n: nat) {
    p in order && n in order && Position(order, p) < Position(order, n)
  }

  /** How many edges of a path, not counting its first, lead to a block that a sweep handles no later. */
  function Retreats(order: seq<nat>, path: seq<nat>): nat {
    if |path| <= 2 then 0
    else Retreats(order, path[..|path|-1]) + if Before(order, path[|path|-2], path[|path|-1]) then 0 else 1
  }

  // ---- One sweep ----

  lemma UpdateElsewhere(pr: Problem, doms: DomMap, n: nat, m: nat)
    requires m != n
    ensures DomsOf(Update(pr, doms, n), m) == DomsOf(doms, m)
  {
    hide ReachablePreds, Meet;
  }

  /** The sweep changes a block only at its turn. */
  lemma {:induction false} TurnOnly(pr: Problem, doms: DomMap, m: nat, x: nat)
    requires Distinct(pr.order) && x < |pr.order| && m <= |pr.order|
    ensures m <= x ==> DomsOf(Sweep(pr, doms, pr.order[..m]), pr.order[x]) == DomsOf(doms, pr.order[x])
    ensures m > x ==>
      DomsOf(Sweep(pr, doms, pr.order[..m]), pr.order[x]) == DomsOf(Sweep(pr, doms, pr.order[..x+1]), pr.order[x])
    decreases m
  {
    hide Update, DomsOf;
    if m > 0 && m != x + 1 {
      TurnOnly(pr, doms, m - 1, x);
      assert pr.order[..m][..m-1] == pr.order[..m-1];
      UpdateElsewhere(pr, Sweep(pr, doms, pr.order[..m-1]), pr.order[m-1], pr.order[x]);
    }
  }

  /** What the turn of `n` sees of `p` in sweep `k`. */
  function Seen(pr: Problem, k: nat, p: nat, n: nat): set<nat>
    requires k > 0
  {
    DomsOf(AfterRounds(pr, if Before(pr.order, p, n) then k else k - 1), p)
  }

  lemma PositionIs(order: seq<nat>, x: nat)
    requires Distinct(order) && x < |order|
    ensures order[x] in order && Position(order, order[x]) == x
  {
  }

  /** At its turn a block sees what this sweep made of the blocks before it, and what the last one made of the others. */
  lemma TurnSees(pr: Problem, k: nat, x: nat, p: nat)
    requires pr.Valid() && k > 0 && x < |pr.order| && p in pr.reachable
    ensures DomsOf(Sweep(pr, AfterRounds(pr, k - 1), pr.order[..x]), p) == Seen(pr, k, p, pr.order[x])
  {
    hide DomsOf, Sweep;
    var y := Position(pr.order, p);
    PositionIs(pr.order, x);
    var doms := AfterRounds(pr, k - 1);
    TurnOnly(pr, doms, x, y);
    TurnOnly(pr, doms, |pr.order|, y);
    assert pr.order[..|pr.order|] == pr.order;
  }

  /** After sweep `k`, a block lists itself and what all its reachable predecessors listed when it was handled. */
  lemma RoundEquation(pr: Problem, k: nat, n: nat, d: nat)
    requires pr.Valid() && k > 0 && n in pr.reachable && n != pr.entry
    requires ReachablePreds(Neighbours(pr.preds, n), pr.reachable) != []
    ensures d in DomsOf(AfterRounds(pr, k), n) <==>
      d == n || (d in pr.reachable && forall p :: Edge(pr.preds, n, p) && p in pr.reachable ==> d in Seen(pr, k, p, n))
  {
    hide Sweep, Seen, Position;
    var x := Position(pr.order, n);
    var doms := AfterRounds(pr, k - 1);
    var before := Sweep(pr, doms, pr.order[..x]);
    TurnIsLast(pr, k, x);
    var ps := ReachablePreds(Neighbours(pr.preds, n), pr.reachable);
    forall p | p in ps ensures DomsOf(before, p) == Seen(pr, k, p, n) {
      TurnSees(pr, k, x, p);
    }
    assert DomsOf(AfterRounds(pr, k), n) == Meet(ps, before, pr.reachable) + {n};
  }

  lemma TurnIsLast(pr: Problem, k: nat, x: nat)
    requires pr.Valid() && k > 0 && x < |pr.order|
    ensures DomsOf(AfterRounds(pr, k), pr.order[x])
         == DomsOf(Update(pr, Sweep(pr, AfterRounds(pr, k - 1), pr.order[..x]), pr.order[x]), pr.order[x])
  {
    hide Update, DomsOf;
    var doms := AfterRounds(pr, k - 1);
    TurnOnly(pr, doms, |pr.order|, x);
    assert pr.order[..|pr.order|] == pr.order;
    assert pr.order[..x+1][..x] == pr.order[..x];
  }

  // ---- All sweeps ----

  lemma HasReachablePred(pr: Problem, succs: Adjacency, n: nat)
    requires pr.Describes(succs) && n in pr.reachable && n != pr.entry
    ensures ReachablePreds(Neighbours(pr.preds, n), pr.reachable) != []
  {
    hide Distinct;
    var p :| PathFromTo(succs, pr.entry, n, p);
    var j := |p| - 2;
    assert Edge(succs, p[j], p[j+1]);
    Prefix(succs, pr.entry, n, p, j);
    assert p[j] in ReachablePreds(Neighbours(pr.preds, n), pr.reachable);
  }

  lemma EntryListsItself(pr: Problem, succs: Adjacency, k: nat)
    requires pr.Describes(succs)
    ensures DomsOf(AfterRounds(pr, k), pr.entry) == {pr.entry}
    ensures AfterRounds(pr, k).Keys == pr.reachable
  {
    RoundsPrecise(pr, succs, k);
  }

  lemma RetreatsOfExtension(order: seq<nat>, path: seq<nat>, n: nat)
    requires |path| >= 2
    ensures Retreats(order, path + [n]) == Retreats(order, path) + if Before(order, path[|path|-1], n) then 0 else 1
  {
    assert (path + [n])[..|path|] == path;
  }

  /** A listed block other than the block itself was listed at every predecessor. */
  lemma ListedAtPredecessor(pr: Problem, succs: Adjacency, k: nat, n: nat, d: nat, p: nat)
    requires pr.Describes(succs) && n in pr.reachable && n != pr.entry && k > 0
    requires d in DomsOf(AfterRounds(pr, k), n) && d != n
    ensures Edge(succs, p, n) && p in pr.reachable ==> d in Seen(pr, k, p, n)
  {
    hide AfterRounds, Before, DomsOf, Seen, Distinct;
    HasReachablePred(pr, succs, n);
    RoundEquation(pr, k, n, d);
    assert Edge(succs, p, n) <==> Edge(pr.preds, n, p);
  }

  lemma LastEdge(pr: Problem, succs: Adjacency, n: nat, path: seq<nat>)
    requires pr.Describes(succs) && n != pr.entry && PathFromTo(succs, pr.entry, n, path)
    ensures |path| >= 2
    ensures var init := path[..|path|-1]; var p := init[|init|-1];
      path == init + [n] && Edge(succs, p, n) && p in pr.reachable && PathFromTo(succs, pr.entry, p, init)
      && init[0] == pr.entry && (p != pr.entry ==> |init| >= 2)
  {
    hide Distinct;
    var j := |path| - 2;
    assert Edge(succs, path[j], path[j+1]);
    Prefix(succs, pr.entry, n, path, j);
  }

  /** A listed block lies on every path with fewer retreating edges than sweeps. */
  lemma {:induction false} ListedIsOnPath(pr: Problem, succs: Adjacency, k: nat, n: nat, d: nat, path: seq<nat>)
    requires pr.Describes(succs) && n in pr.reachable && n != pr.entry
    requires d in DomsOf(AfterRounds(pr, k), n)
    requires PathFromTo(succs, pr.entry, n, path) && Retreats(pr.order, path) < k
    ensures d in path
    decreases |path|
  {
    hide AfterRounds, Before, DomsOf, PathFromTo, Retreats, Edge, Inverse, Distinct, Reaches;
    LastEdge(pr, succs, n, path);
    if d != n {
      var init := path[..|path|-1];
      var p := init[|init|-1];
      ListedAtPredecessor(pr, succs, k, n, d, p);
      if p == pr.entry {
        EntryListsItself(pr, succs, k);
        EntryListsItself(pr, succs, k - 1);
        assert d == path[0];
      } else {
        RetreatsOfExtension(pr.order, init, n);
        ListedIsOnPath(pr, succs, if Before(pr.order, p, n) then k else k - 1, p, d, init);
      }
    }
  }

  /** A reachable block that is not listed was missing at some predecessor. */
  lemma MissingAtPredecessor(pr: Problem, succs: Adjacency, k: nat, n: nat, d: nat) returns (p: nat)
    requires pr.Describes(succs) && n in pr.reachable && n != pr.entry && d in pr.reachable && k > 0
    requires d !in DomsOf(AfterRounds(pr, k), n)
    ensures Edge(succs, p, n) && p in pr.reachable && d !in Seen(pr, k, p, n) && d != n
  {
    hide AfterRounds, Before, DomsOf, Seen, Distinct;
    HasReachablePred(pr, succs, n);
    RoundEquation(pr, k, n, d);
    p :| Edge(pr.preds, n, p) && p in pr.reachable && d !in Seen(pr, k, p, n);
  }

  lemma EdgeIsPath(succs: Adjacency, p: nat, n: nat)
    requires Edge(succs, p, n)
    ensures PathFromTo(succs, p, n, [p, n])
  {
  }

  /** Such a block is avoided by a path with fewer retreating edges than sweeps. */
  lemma {:induction false} UnlistedIsAvoided(pr: Problem, succs: Adjacency, k: nat, n: nat, d: nat)
    returns (path: seq<nat>)
    requires pr.Describes(succs) && n in pr.reachable && n != pr.entry && d in pr.reachable
    requires d !in DomsOf(AfterRounds(pr, k), n)
    ensures PathFromTo(succs, pr.entry, n, path) && Retreats(pr.order, path) < k && d !in path
    decreases k, Position(pr.order, n)
  {
    if k == 0 {
      EverythingAtFirst(pr, n);
    } else {
      var p := MissingAtPredecessor(pr, succs, k, n, d);
      hide AfterRounds, Before, DomsOf, Position, Inverse, Distinct, Reaches, PathFromTo;
      if p == pr.entry {
        EntryListsItself(pr, succs, k);
        EntryListsItself(pr, succs, k - 1);
        EdgeIsPath(succs, p, n);
        path := [p, n];
      } else {
        BeforeIsLower(pr.order, p, n);
        path := UnlistedIsAvoided(pr, succs, if Before(pr.order, p, n) then k else k - 1, p, d);
        PathNotShort(succs, pr.entry, p, path);
        RetreatsOfExtension(pr.order, path, n);
        ExtendPath(succs, pr.entry, p, n, path);
        path := path + [n];
      }
    }
  }

  lemma EverythingAtFirst(pr: Problem, n: nat)
    requires n in pr.reachable && n != pr.entry
    ensures DomsOf(AfterRounds(pr, 0), n) == pr.reachable
  {
  }

  lemma PathNotShort(succs: Adjacency, a: nat, b: nat, path: seq<nat>)
    requires PathFromTo(succs, a, b, path) && a != b
    ensures |path| >= 2 && path[|path|-1] == b
  {
  }

  lemma BeforeIsLower(order: seq<nat>, p: nat, n: nat)
    requires p in order && n in order
    ensures Before(order, p, n) <==> Position(order, p) < Position(order, n)
  {
  }

  lemma ListedReachable(pr: Problem, k: nat, n: nat, d: nat)
    requires pr.Valid() && d in DomsOf(AfterRounds(pr, k), n)
    ensures d in pr.reachable
  {
    hide AfterRounds;
    ListedIsReachable(pr, k);
  }

  /**
   After `k` sweeps, a block other than the entry lists exactly the reachable
   blocks that lie on all its entry paths with fewer than `k` retreating edges.
   */
  lemma {:induction false} ListedIff(pr: Problem, succs: Adjacency, k: nat, n: nat, d: nat)
    requires pr.Describes(succs) && n in pr.reachable && n != pr.entry
    ensures d in DomsOf(AfterRounds(pr, k), n) <==>
      d in pr.reachable
      && forall path :: PathFromTo(succs, pr.entry, n, path) && Retreats(pr.order, path) < k ==> d in path
  {
    hide AfterRounds, DomsOf, Retreats;
    if d in DomsOf(AfterRounds(pr, k), n) {
      ListedReachable(pr, k, n, d);
      forall path | PathFromTo(succs, pr.entry, n, path) && Retreats(pr.order, path) < k ensures d in path {
        ListedIsOnPath(pr, succs, k, n, d, path);
      }
    } else if d in pr.reachable {
      var path := UnlistedIsAvoided(pr, succs, k, n, d);
    }
  }

  // ---- When k sweeps are enough ----

  /** Some entry path with fewer than `k` retreating edges avoids `d`. */
  ghost predicate SoonAvoided(pr: Problem, succs: Adjacency, n: nat, d: nat, k: nat) {
    exists path :: PathFromTo(succs, pr.entry, n, path) && Retreats(pr.order, path) < k && d !in path
  }

  /** Whatever some entry path avoids, one with fewer than `k` retreating edges avoids. */
  ghost predicate AllSoonAvoided(pr: Problem, succs: Adjacency, k: nat) {
    forall n, d ::
      n in pr.reachable && n != pr.entry && d in pr.reachable && ReachesAvoiding(succs, pr.entry, n, d) ==>
        SoonAvoided(pr, succs, n, d, k)
  }

  lemma ListedUnlessAvoided(pr: Problem, succs: Adjacency, k: nat, n: nat, d: nat)
    requires pr.Describes(succs) && n in pr.reachable && n != pr.entry && d in pr.reachable
    ensures d in DomsOf(AfterRounds(pr, k), n) <==> !SoonAvoided(pr, succs, n, d, k)
    ensures Dominates(succs, pr.entry, d, n) <==> !ReachesAvoiding(succs, pr.entry, n, d)
  {
    hide AfterRounds, DomsOf, Retreats, PathFromTo;
    ListedIff(pr, succs, k, n, d);
  }

  /** On the entry, and about blocks that are not reachable, the map is always right. */
  lemma EasyCases(pr: Problem, succs: Adjacency, k: nat, n: nat, d: nat)
    requires pr.Describes(succs) && n in pr.reachable && (n == pr.entry || d !in pr.reachable)
    ensures d in DomsOf(AfterRounds(pr, k), n) <==> Dominates(succs, pr.entry, d, n)
  {
    hide AfterRounds;
    EntryListsItself(pr, succs, k);
    RoundsComplete(pr, succs, k);
    if n == pr.entry {
      assert PathFromTo(succs, pr.entry, pr.entry, [pr.entry]);
    } else {
      ListedIsReachable(pr, k);
    }
  }

  /** The result of `k` sweeps is exactly dominance on paths if and only if the graph and the order allow it. */
  lemma {:induction false} ExactIff(pr: Problem, succs: Adjacency, k: nat)
    requires pr.Describes(succs)
    ensures Exact(pr, succs, AfterRounds(pr, k)) <==> AllSoonAvoided(pr, succs, k)
  {
    hide AfterRounds, Dominates, ReachesAvoiding, SoonAvoided;
    EntryListsItself(pr, succs, k);
    forall n, d | n in pr.reachable && n != pr.entry && d in pr.reachable
      ensures d in DomsOf(AfterRounds(pr, k), n) <==> !SoonAvoided(pr, succs, n, d, k)
      ensures Dominates(succs, pr.entry, d, n) <==> !ReachesAvoiding(succs, pr.entry, n, d)
      ensures SoonAvoided(pr, succs, n, d, k) ==> ReachesAvoiding(succs, pr.entry, n, d)
    {
      ListedUnlessAvoided(pr, succs, k, n, d);
      SoonIsAvoided(pr, succs, n, d, k);
    }
    forall n, d | n in pr.reachable && (n == pr.entry || d !in pr.reachable)
      ensures d in DomsOf(AfterRounds(pr, k), n) <==> Dominates(succs, pr.entry, d, n)
    {
      EasyCases(pr, succs, k, n, d);
    }
  }

  lemma SoonIsAvoided(pr: Problem, succs: Adjacency, n: nat, d: nat, k: nat)
    ensures SoonAvoided(pr, succs, n, d, k) ==> ReachesAvoiding(succs, pr.entry, n, d)
  {
  }

  // ---- Orders without retreating edges ----

  /** Every edge between reachable blocks that leaves another block than the entry goes forward in the order. */
  ghost predicate Forward(pr: Problem, succs: Adjacency) {
    forall p, n :: Edge(succs, p, n) && p in pr.reachable && p != pr.entry ==> Before(pr.order, p, n)
  }

  lemma {:induction false} NoRetreats(pr: Problem, succs: Adjacency, n: nat, path: seq<nat>)
    requires pr.Describes(succs) && Forward(pr, succs) && PathFromTo(succs, pr.entry, n, path)
    requires pr.entry !in path[1..]
    ensures Retreats(pr.order, path) == 0
    decreases |path|
  {
    hide Before;
    if |path| > 2 {
      var j := |path| - 2;
      Prefix(succs, pr.entry, n, path, j);
      assert path[..j+1][1..] == path[1..][..j];
      NoRetreats(pr, succs, path[j], path[..j+1]);
      assert path[j] == path[1..][j-1];
      assert Edge(succs, path[j], path[j+1]);
    }
  }

  /** Such an order needs one sweep, however many blocks there are. */
  lemma {:induction false} OneSweepIsEnough(pr: Problem, succs: Adjacency)
    requires pr.Describes(succs) && Forward(pr, succs)
    ensures Exact(pr, succs, AfterRounds(pr, 1))
  {
    hide AfterRounds, Forward, Retreats;
    forall n, d | n in pr.reachable && n != pr.entry && d in pr.reachable && ReachesAvoiding(succs, pr.entry, n, d)
      ensures SoonAvoided(pr, succs, n, d, 1)
    {
      var p :| PathFromTo(succs, pr.entry, n, p) && d !in p;
      var q := SimplePath(succs, pr.entry, n, p);
      assert q[0] == pr.entry;
      NoRetreats(pr, succs, n, q);
    }
    ExactIff(pr, succs, 1);
  }
}
