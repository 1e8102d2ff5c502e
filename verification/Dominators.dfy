/** The iterative dominator computation. */
module Dominators {
  // What k sweeps over the reachable blocks compute, for every iteration order.

  import opened Graphs
  import opened Words

  /** The cap on sweeps. */
  const MAX_ROUNDS: nat := 100

  type DomMap = map<nat, set<nat>>

  /** One run: entry block, predecessor lists, reachable blocks, and the order in which the reachable set iterates. */
  datatype Problem = Problem(entry: nat, preds: Adjacency, reachable: set<nat>, order: seq<nat>) {
    ghost predicate Valid() {
      && entry in reachable
      && Distinct(order)
      && forall n :: n in order <==> n in reachable
    }

    /** The reachable set is what the successor relation reaches from the entry. */
    ghost predicate Describes(succs: Adjacency) {
      && Valid()
      && Inverse(succs, preds)
      && forall n :: n in reachable <==> Reaches(succs, entry, n)
    }
  }

  function ReachablePreds(ps: seq<nat>, reachable: set<nat>): (r: seq<nat>)
    ensures forall p :: p in r <==> p in ps && p in reachable
  {
    if ps == [] then []
    else
      var n := |ps| - 1;
      var init := ReachablePreds(ps[..n], reachable);
      assert ps == ps[..n] + [ps[n]];
      if ps[n] in reachable then init + [ps[n]] else init
  }

  /** `doms.get(p, set())`. */
  function DomsOf(doms: DomMap, p: nat): set<nat> {
    if p in doms then doms[p] else {}
  }

  /** The intersection of `top` with the dominator sets of all of `ps`. */
  function Meet(ps: seq<nat>, doms: DomMap, top: set<nat>): (r: set<nat>)
    ensures forall x :: x in r <==> x in top && forall p :: p in ps ==> x in DomsOf(doms, p)
  {
    if ps == [] then top
    else
      var n := |ps| - 1;
      assert ps == ps[..n] + [ps[n]];
      Meet(ps[..n], doms, top) * DomsOf(doms, ps[n])
  }

  /** The map after the loop body has handled block `n`. */
  function Update(pr: Problem, doms: DomMap, n: nat): DomMap {
    var ps := ReachablePreds(Neighbours(pr.preds, n), pr.reachable);
    if n == pr.entry || ps == [] then doms
    else doms[n := Meet(ps, doms, pr.reachable) + {n}]
  }

  /** The map after the blocks of `order` have been handled one after another. */
  function Sweep(pr: Problem, doms: DomMap, order: seq<nat>): DomMap {
    if order == [] then doms
    else Update(pr, Sweep(pr, doms, order[..|order|-1]), order[|order|-1])
  }

  function Initial(pr: Problem): DomMap {
    map n | n in pr.reachable :: if n == pr.entry then {pr.entry} else pr.reachable
  }

  /** The map after `k` full sweeps. */
  function AfterRounds(pr: Problem, k: nat): DomMap {
    if k == 0 then Initial(pr) else Sweep(pr, AfterRounds(pr, k - 1), pr.order)
  }

  /** The inner loop: intersect `top` with the dominators of each predecessor in turn. */
  method MeetAll(ps: seq<nat>, doms: DomMap, top: set<nat>) returns (r: set<nat>)
    ensures r == Meet(ps, doms, top)
  {
    r := top;
    for j := 0 to |ps|
      invariant r == Meet(ps[..j], doms, top)
    {
      assert ps[..j+1][..j] == ps[..j];
      r := r * DomsOf(doms, ps[j]);
    }
    assert ps[..|ps|] == ps;
  }

  /** One pass of the loop over the reachable blocks. */
  method SweepOnce(pr: Problem, before: DomMap) returns (doms: DomMap, changed: bool)
    requires pr.Valid() && before.Keys == pr.reachable
    ensures doms.Keys == pr.reachable
    ensures doms == Sweep(pr, before, pr.order)
    ensures !changed ==> doms == before
  {
    hide Distinct, Meet, ReachablePreds, Sweep, Update;
    doms, changed := before, false;
    NoTurns(pr, before);
    for i := 0 to |pr.order|
      invariant doms.Keys == pr.reachable
      invariant doms == Sweep(pr, before, pr.order[..i])
      invariant !changed ==> doms == before
    {
      var n := pr.order[i];
      assert n in pr.order;
      NextTurn(pr, before, i);
      var ps := ReachablePreds(Neighbours(pr.preds, n), pr.reachable);
      TurnIs(pr, doms, n);
      if n == pr.entry || ps == [] {
        continue;
      }
      var newDom := MeetAll(ps, doms, pr.reachable);
      newDom := newDom + {n};
      if newDom != doms[n] {
        doms := doms[n := newDom];
        changed := true;
      } else {
        assert doms[n := newDom] == doms;
      }
    }
    assert pr.order[..|pr.order|] == pr.order;
  }

  lemma NoTurns(pr: Problem, doms: DomMap)
    ensures Sweep(pr, doms, pr.order[..0]) == doms
  {
  }

  lemma NextTurn(pr: Problem, doms: DomMap, i: nat)
    requires i < |pr.order|
    ensures Sweep(pr, doms, pr.order[..i+1]) == Update(pr, Sweep(pr, doms, pr.order[..i]), pr.order[i])
  {
    assert pr.order[..i+1][..i] == pr.order[..i];
  }

  lemma TurnIs(pr: Problem, doms: DomMap, n: nat)
    ensures var ps := ReachablePreds(Neighbours(pr.preds, n), pr.reachable);
      Update(pr, doms, n) ==
        if n == pr.entry || ps == [] then doms else doms[n := Meet(ps, doms, pr.reachable) + {n}]
  {
  }

  method ComputeDominators(pr: Problem) returns (doms: DomMap)
    requires pr.Valid()
    ensures doms == AfterRounds(pr, MAX_ROUNDS)
  {
    hide Sweep, Distinct;
    doms := map[];
    for i := 0 to |pr.order|
      invariant forall n :: n in doms <==> n in pr.order[..i]
      invariant forall n :: n in doms ==> doms[n] == if n == pr.entry then {pr.entry} else pr.reachable
    {
      var n := pr.order[i];
      doms := doms[n := if n == pr.entry then {pr.entry} else pr.reachable];
      assert pr.order[..i+1] == pr.order[..i] + [n];
    }
    assert pr.order[..|pr.order|] == pr.order;
    assert doms == Initial(pr);

    var changed := true;
    var iterations := 0;
    while changed && iterations < MAX_ROUNDS
      invariant iterations <= MAX_ROUNDS
      invariant doms.Keys == pr.reachable
      invariant doms == AfterRounds(pr, iterations)
      invariant !changed ==> Sweep(pr, doms, pr.order) == doms
      decreases MAX_ROUNDS - iterations
    {
      iterations := iterations + 1;
      doms, changed := SweepOnce(pr, doms);
    }
    if iterations < MAX_ROUNDS {
      FixpointStays(pr, iterations, MAX_ROUNDS);
    }
  }

  /** Once a sweep changes nothing, no later sweep does. */
  lemma {:induction false} FixpointStays(pr: Problem, k: nat, m: nat)
    requires k <= m && Sweep(pr, AfterRounds(pr, k), pr.order) == AfterRounds(pr, k)
    ensures AfterRounds(pr, m) == AfterRounds(pr, k)
    decreases m
  {
    if k < m {
      FixpointStays(pr, k, m - 1);
    }
  }

  // ---- What the map means ----

  /** Every path-defined dominator of every reachable block is listed. */
  ghost predicate Complete(pr: Problem, succs: Adjacency, doms: DomMap) {
    && doms.Keys == pr.reachable
    && forall n, d :: n in pr.reachable && Dominates(succs, pr.entry, d, n) ==> d in doms[n]
  }

  /** A listed block lies on every entry path of at most `k` edges. */
  ghost predicate PreciseAt(pr: Problem, succs: Adjacency, doms: DomMap, n: nat, k: nat) {
    n in doms && forall d, p :: d in doms[n] && PathFromTo(succs, pr.entry, n, p) && |p| <= k + 1 ==> d in p
  }

  /** The map lists exactly the path-defined dominators. */
  ghost predicate Exact(pr: Problem, succs: Adjacency, doms: DomMap) {
    && doms.Keys == pr.reachable
    && forall n, d :: n in pr.reachable ==> (d in doms[n] <==> Dominates(succs, pr.entry, d, n))
  }

  lemma DominatesPredecessor(succs: Adjacency, entry: nat, d: nat, p: nat, n: nat)
    requires Dominates(succs, entry, d, n) && Edge(succs, p, n) && d != n
    ensures Dominates(succs, entry, d, p)
  {
    forall r | PathFromTo(succs, entry, p, r) ensures d in r {
      ExtendPath(succs, entry, p, n, r);
      assert d in r + [n];
    }
  }

  lemma UpdateComplete(pr: Problem, succs: Adjacency, doms: DomMap, n: nat)
    requires pr.Describes(succs) && Complete(pr, succs, doms) && n in pr.reachable
    ensures Complete(pr, succs, Update(pr, doms, n))
  {
    hide Distinct;
    var ps := ReachablePreds(Neighbours(pr.preds, n), pr.reachable);
    if n != pr.entry && ps != [] {
      var nd := Meet(ps, doms, pr.reachable) + {n};
      forall d | Dominates(succs, pr.entry, d, n) && d != n ensures d in nd {
        var q :| PathFromTo(succs, pr.entry, n, q);
        var i :| 0 <= i < |q| && q[i] == d;
        Prefix(succs, pr.entry, n, q, i);
        assert d in pr.reachable;
        forall p | p in ps ensures d in DomsOf(doms, p) {
          DominatesPredecessor(succs, pr.entry, d, p, n);
        }
      }
    }
  }

  lemma {:induction false} SweepComplete(pr: Problem, succs: Adjacency, doms: DomMap, order: seq<nat>)
    requires pr.Describes(succs) && Complete(pr, succs, doms)
    requires forall n :: n in order ==> n in pr.reachable
    ensures Complete(pr, succs, Sweep(pr, doms, order))
  {
    if order != [] {
      SweepComplete(pr, succs, doms, order[..|order|-1]);
      UpdateComplete(pr, succs, Sweep(pr, doms, order[..|order|-1]), order[|order|-1]);
    }
  }

  /** At every round, cap or no cap, no dominator is missing. */
  lemma {:induction false} RoundsComplete(pr: Problem, succs: Adjacency, k: nat)
    requires pr.Describes(succs)
    ensures Complete(pr, succs, AfterRounds(pr, k))
  {
    if k == 0 {
      forall n, d | n in pr.reachable && Dominates(succs, pr.entry, d, n)
        ensures d in Initial(pr)[n]
      {
        var q :| PathFromTo(succs, pr.entry, n, q);
        var i :| 0 <= i < |q| && q[i] == d;
        Prefix(succs, pr.entry, n, q, i);
        assert PathFromTo(succs, pr.entry, pr.entry, [pr.entry]);
      }
    } else {
      RoundsComplete(pr, succs, k - 1);
      SweepComplete(pr, succs, AfterRounds(pr, k - 1), pr.order);
    }
  }

  lemma UpdatePrecise(pr: Problem, succs: Adjacency, doms: DomMap, n: nat, k: nat)
    requires pr.Describes(succs) && n in pr.reachable && doms.Keys == pr.reachable
    requires doms[pr.entry] == {pr.entry}
    requires forall m :: m in pr.reachable ==> PreciseAt(pr, succs, doms, m, k)
    ensures Update(pr, doms, n).Keys == pr.reachable && Update(pr, doms, n)[pr.entry] == {pr.entry}
    ensures forall m :: m in pr.reachable && m != n ==> Update(pr, doms, n)[m] == doms[m]
    ensures PreciseAt(pr, succs, Update(pr, doms, n), n, k + 1)
  {
    var after := Update(pr, doms, n);
    forall d, p | d in after[n] && PathFromTo(succs, pr.entry, n, p) && |p| <= k + 2
      ensures d in p
    {
      if n != pr.entry {
        var j := |p| - 2;
        assert 0 <= j && Edge(succs, p[j], p[j+1]);
        var m := p[j];
        Prefix(succs, pr.entry, n, p, j);
        assert m in ReachablePreds(Neighbours(pr.preds, n), pr.reachable);
        assert PreciseAt(pr, succs, doms, m, k);
        if d != n {
          assert d in DomsOf(doms, m);
          assert d in p[..j+1];
        }
      }
    }
  }

  lemma {:induction false} SweepPrecise(pr: Problem, succs: Adjacency, doms: DomMap, order: seq<nat>, k: nat)
    requires pr.Describes(succs) && doms.Keys == pr.reachable
    requires Distinct(order) && forall n :: n in order ==> n in pr.reachable
    requires doms[pr.entry] == {pr.entry}
    requires forall m :: m in pr.reachable ==> PreciseAt(pr, succs, doms, m, k)
    ensures Sweep(pr, doms, order).Keys == pr.reachable
    ensures Sweep(pr, doms, order)[pr.entry] == {pr.entry}
    ensures forall m :: m in pr.reachable ==> PreciseAt(pr, succs, Sweep(pr, doms, order), m, k)
    ensures forall m :: m in order ==> PreciseAt(pr, succs, Sweep(pr, doms, order), m, k + 1)
  {
    hide Update;
    if order != [] {
      var init, last := order[..|order|-1], order[|order|-1];
      assert order == init + [last];
      SweepPrecise(pr, succs, doms, init, k);
      UpdatePrecise(pr, succs, Sweep(pr, doms, init), last, k);
    }
  }

  /** After `k` sweeps in any order, listed blocks lie on every entry path of at most `k` edges. */
  lemma {:induction false} RoundsPrecise(pr: Problem, succs: Adjacency, k: nat)
    requires pr.Describes(succs)
    ensures AfterRounds(pr, k).Keys == pr.reachable
    ensures AfterRounds(pr, k)[pr.entry] == {pr.entry}
    ensures forall n :: n in pr.reachable ==> PreciseAt(pr, succs, AfterRounds(pr, k), n, k)
  {
    if k == 0 {
      forall n, d, p | n in pr.reachable && d in Initial(pr)[n] && PathFromTo(succs, pr.entry, n, p) && |p| <= 1
        ensures d in p
      {
        assert p[0] == pr.entry == n;
      }
    } else {
      RoundsPrecise(pr, succs, k - 1);
      SweepPrecise(pr, succs, AfterRounds(pr, k - 1), pr.order, k - 1);
    }
  }

  lemma PreciseForAllIsExact(pr: Problem, succs: Adjacency, doms: DomMap)
    requires pr.Describes(succs) && Complete(pr, succs, doms)
    requires forall n, k :: n in pr.reachable ==> PreciseAt(pr, succs, doms, n, k)
    ensures Exact(pr, succs, doms)
  {
    forall n, d | n in pr.reachable && d in doms[n] ensures Dominates(succs, pr.entry, d, n) {
      forall p | PathFromTo(succs, pr.entry, n, p) ensures d in p {
        assert PreciseAt(pr, succs, doms, n, |p|);
      }
    }
  }

  lemma {:induction false} FixpointIsExact(pr: Problem, succs: Adjacency, k: nat)
    requires pr.Describes(succs) && AfterRounds(pr, k + 1) == AfterRounds(pr, k)
    ensures Exact(pr, succs, AfterRounds(pr, k))
  {
    var doms := AfterRounds(pr, k);
    RoundsComplete(pr, succs, k);
    forall n, m: nat | n in pr.reachable ensures PreciseAt(pr, succs, doms, n, m) {
      if m <= k {
        RoundsPrecise(pr, succs, k);
      } else {
        FixpointStays(pr, k, m);
        RoundsPrecise(pr, succs, m);
      }
    }
    PreciseForAllIsExact(pr, succs, doms);
  }

  lemma {:induction false} ExactIsFixpoint(pr: Problem, succs: Adjacency, k: nat)
    requires pr.Describes(succs) && Exact(pr, succs, AfterRounds(pr, k))
    ensures AfterRounds(pr, k + 1) == AfterRounds(pr, k)
  {
    hide Distinct;
    var doms, next := AfterRounds(pr, k), AfterRounds(pr, k + 1);
    RoundsComplete(pr, succs, k + 1);
    RoundsPrecise(pr, succs, k);
    forall n, m: nat | n in pr.reachable ensures PreciseAt(pr, succs, next, n, m) {
      forall x | x in pr.reachable ensures PreciseAt(pr, succs, doms, x, m) {}
      SweepPrecise(pr, succs, doms, pr.order, m);
    }
    PreciseForAllIsExact(pr, succs, next);
    forall n | n in pr.reachable ensures next[n] == doms[n] {
      assert forall d :: d in next[n] <==> d in doms[n];
    }
  }

  /**
   The result of `k` sweeps is exactly dominance on paths if and only if one
   more sweep would change nothing.
   */
  lemma {:induction false} ExactIffFixpoint(pr: Problem, succs: Adjacency, k: nat)
    requires pr.Describes(succs)
    ensures Exact(pr, succs, AfterRounds(pr, k)) <==> AfterRounds(pr, k + 1) == AfterRounds(pr, k)
  {
    if AfterRounds(pr, k + 1) == AfterRounds(pr, k) {
      FixpointIsExact(pr, succs, k);
    }
    if Exact(pr, succs, AfterRounds(pr, k)) {
      ExactIsFixpoint(pr, succs, k);
    }
  }

  /** With `r` reachable blocks, `r - 2` sweeps are enough, whatever the iteration order. */
  lemma {:induction false} ExactAfterEnoughRounds(pr: Problem, succs: Adjacency, k: nat)
    requires pr.Describes(succs) && |pr.reachable| <= k + 2
    ensures Exact(pr, succs, AfterRounds(pr, k))
  {
    hide AfterRounds, Dominates, PathFromTo;
    var doms := AfterRounds(pr, k);
    RoundsComplete(pr, succs, k);
    RoundsPrecise(pr, succs, k);
    ListedIsReachable(pr, k);
    forall n, d | n in pr.reachable && d in doms[n] ensures Dominates(succs, pr.entry, d, n) {
      if !Dominates(succs, pr.entry, d, n) {
        var q := ShortAvoidingPath(pr, succs, d, n);
      }
    }
  }

  /** A block that does not dominate is avoided by a path of at most `r - 2` edges. */
  lemma ShortAvoidingPath(pr: Problem, succs: Adjacency, d: nat, n: nat) returns (q: seq<nat>)
    requires pr.Describes(succs) && d in pr.reachable && !Dominates(succs, pr.entry, d, n)
    ensures PathFromTo(succs, pr.entry, n, q) && |q| <= |pr.reachable| - 1 && d !in q
  {
    var p :| PathFromTo(succs, pr.entry, n, p) && d !in p;
    q := SimplePath(succs, pr.entry, n, p);
    forall x | x in q ensures x in pr.reachable - {d} {
      var i :| 0 <= i < |q| && q[i] == x;
      Prefix(succs, pr.entry, n, q, i);
    }
    DistinctFits(q, pr.reachable - {d});
  }

  /** The sweeps reached their fixpoint before the cap; at most 102 reachable blocks always suffice for that. */
  ghost predicate Converged(pr: Problem) {
    || |pr.reachable| <= 102
    || AfterRounds(pr, MAX_ROUNDS + 1) == AfterRounds(pr, MAX_ROUNDS)
  }

  /** The reported dominators are right exactly when the sweeps converged. */
  lemma ConvergedIff(pr: Problem, succs: Adjacency)
    requires pr.Describes(succs)
    ensures Exact(pr, succs, AfterRounds(pr, MAX_ROUNDS)) <==> Converged(pr)
  {
    hide AfterRounds, Exact;
    ExactIffFixpoint(pr, succs, MAX_ROUNDS);
    if |pr.reachable| <= 102 {
      ExactAfterEnoughRounds(pr, succs, MAX_ROUNDS);
    }
  }

  lemma {:induction false} SweepListsReachable(pr: Problem, doms: DomMap, order: seq<nat>)
    requires pr.Valid() && forall n :: n in order ==> n in pr.reachable
    requires forall n :: n in doms ==> doms[n] <= pr.reachable
    ensures forall n :: n in Sweep(pr, doms, order) ==> Sweep(pr, doms, order)[n] <= pr.reachable
  {
    if order != [] {
      SweepListsReachable(pr, doms, order[..|order|-1]);
    }
  }

  lemma {:induction false} ListedIsReachable(pr: Problem, k: nat)
    requires pr.Valid()
    ensures forall n :: n in AfterRounds(pr, k) ==> AfterRounds(pr, k)[n] <= pr.reachable
  {
    if k > 0 {
      ListedIsReachable(pr, k - 1);
      SweepListsReachable(pr, AfterRounds(pr, k - 1), pr.order);
    }
  }

  // ---- The sweeps descend ----

  /** Block by block, `d` lists no more than `e`. */
  ghost predicate Within(pr: Problem, d: DomMap, e: DomMap) {
    && d.Keys == pr.reachable && e.Keys == pr.reachable
    && forall n :: n in pr.reachable ==> d[n] <= e[n]
  }

  lemma UpdateMonotone(pr: Problem, d: DomMap, e: DomMap, n: nat)
    requires Within(pr, d, e) && n in pr.reachable
    ensures Within(pr, Update(pr, d, n), Update(pr, e, n))
  {
    hide Meet, ReachablePreds;
    var ps := ReachablePreds(Neighbours(pr.preds, n), pr.reachable);
    MeetMonotone(pr, ps, d, e);
  }

  lemma MeetMonotone(pr: Problem, ps: seq<nat>, d: DomMap, e: DomMap)
    requires Within(pr, d, e)
    ensures Meet(ps, d, pr.reachable) <= Meet(ps, e, pr.reachable)
  {
  }

  lemma {:induction false} SweepMonotone(pr: Problem, d: DomMap, e: DomMap, order: seq<nat>)
    requires Within(pr, d, e) && forall n :: n in order ==> n in pr.reachable
    ensures Within(pr, Sweep(pr, d, order), Sweep(pr, e, order))
  {
    hide Update, Within;
    if order != [] {
      var k := |order| - 1;
      assert order == order[..k] + [order[k]];
      SweepMonotone(pr, d, e, order[..k]);
      UpdateMonotone(pr, Sweep(pr, d, order[..k]), Sweep(pr, e, order[..k]), order[k]);
    }
  }

  /** The first map lists everything that can ever be listed. */
  lemma {:induction false} SweepBelowInitial(pr: Problem, d: DomMap, order: seq<nat>)
    requires Within(pr, d, Initial(pr)) && pr.entry in pr.reachable && forall n :: n in order ==> n in pr.reachable
    ensures Within(pr, Sweep(pr, d, order), Initial(pr))
  {
    if order != [] {
      var k := |order| - 1;
      assert order == order[..k] + [order[k]];
      SweepBelowInitial(pr, d, order[..k]);
    }
  }

  /** No sweep ever adds a dominator back. */
  lemma {:induction false} RoundsShrink(pr: Problem, k: nat)
    requires pr.Valid()
    ensures Within(pr, AfterRounds(pr, k + 1), AfterRounds(pr, k))
  {
    hide Sweep, Initial;
    assert Within(pr, Initial(pr), Initial(pr)) by { InitialWithin(pr); }
    if k == 0 {
      SweepBelowInitial(pr, Initial(pr), pr.order);
    } else {
      RoundsShrink(pr, k - 1);
      SweepMonotone(pr, AfterRounds(pr, k), AfterRounds(pr, k - 1), pr.order);
    }
  }

  lemma InitialWithin(pr: Problem)
    ensures Within(pr, Initial(pr), Initial(pr))
  {
  }

  /** The sizes of all dominator sets together. */
  function TotalSize(doms: DomMap, order: seq<nat>): nat {
    if order == [] then 0 else TotalSize(doms, order[..|order|-1]) + |DomsOf(doms, order[|order|-1])|
  }

  lemma {:induction false} TotalOfSubsets(d: DomMap, e: DomMap, order: seq<nat>)
    requires forall n :: n in order ==> DomsOf(d, n) <= DomsOf(e, n)
    ensures TotalSize(d, order) <= TotalSize(e, order)
    ensures TotalSize(d, order) == TotalSize(e, order) ==> forall n :: n in order ==> DomsOf(d, n) == DomsOf(e, n)
    decreases |order|
  {
    hide DomsOf;
    if order != [] {
      var k := |order| - 1;
      assert order == order[..k] + [order[k]];
      TotalOfSubsets(d, e, order[..k]);
      SubsetSize(DomsOf(d, order[k]), DomsOf(e, order[k]));
    }
  }

  lemma SameTotalSameMap(pr: Problem, d: DomMap, e: DomMap)
    requires pr.Valid() && Within(pr, d, e) && TotalSize(d, pr.order) == TotalSize(e, pr.order)
    ensures d == e
  {
    hide TotalSize;
    TotalOfSubsets(d, e, pr.order);
    forall n | n in pr.reachable ensures d[n] == e[n] {
      assert n in pr.order;
      assert DomsOf(d, n) == DomsOf(e, n);
    }
  }

  /** A sweep that changes anything makes the sets smaller in total, so even without the cap the loop would end. */
  lemma SizeDecreases(pr: Problem, k: nat)
    requires pr.Valid() && AfterRounds(pr, k + 1) != AfterRounds(pr, k)
    ensures TotalSize(AfterRounds(pr, k + 1), pr.order) < TotalSize(AfterRounds(pr, k), pr.order)
  {
    hide AfterRounds, TotalSize;
    RoundsShrink(pr, k);
    var d, e := AfterRounds(pr, k + 1), AfterRounds(pr, k);
    TotalOfSubsets(d, e, pr.order);
    if TotalSize(d, pr.order) == TotalSize(e, pr.order) {
      SameTotalSameMap(pr, d, e);
    }
  }

  // ---- The cap matters: 103 blocks are enough to get a wrong answer ----

  function Below(n: nat): (r: set<nat>)
    ensures forall b: nat :: b in r <==> b < n
  {
    if n == 0 then {} else Below(n - 1) + {n - 1}
  }

  function Ascending(n: nat): (r: seq<nat>)
    ensures |r| == n && forall i :: 0 <= i < n ==> r[i] == i
  {
    if n == 0 then [] else Ascending(n - 1) + [n - 1]
  }

  /** Blocks `0 -> n-1 -> n-2 -> ... -> 1`. */
  function ChainSuccs(n: nat): Adjacency
    requires n >= 2
  {
    map b | b in Below(n) :: if b == 0 then [n - 1] else if b == 1 then [] else [b - 1]
  }

  function ChainPreds(n: nat): Adjacency
    requires n >= 2
  {
    map b | b in Below(n) :: if b == 0 then [] else if b == n - 1 then [0] else [b + 1]
  }

  /** The chain, with its blocks swept in ascending order. */
  function Chain(n: nat): (pr: Problem)
    requires n >= 2
    ensures pr.Valid() && IsChain(pr, n)
  {
    var order := Ascending(n);
    assert forall b :: b in Below(n) ==> order[b] == b;
    Problem(0, ChainPreds(n), Below(n), order)
  }

  ghost predicate IsChain(pr: Problem, n: nat) {
    && pr.entry == 0 && pr.reachable == Below(n)
    && |pr.order| == n && (forall i :: 0 <= i < n ==> pr.order[i] == i)
    && (forall b :: 1 <= b < n - 1 ==> Neighbours(pr.preds, b) == [b + 1])
  }

  lemma ChainPath(n: nat, b: nat) returns (p: seq<nat>)
    requires n >= 2 && 1 <= b < n
    ensures PathFromTo(ChainSuccs(n), 0, b, p)
    ensures forall x :: x in p ==> x == 0 || b <= x
    decreases n - b
  {
    if b == n - 1 {
      p := [0, b];
    } else {
      p := ChainPath(n, b + 1);
      ExtendPath(ChainSuccs(n), 0, b + 1, b, p);
      p := p + [b];
    }
  }

  lemma ChainReachesBelow(n: nat, a: nat, b: nat, p: seq<nat>)
    requires n >= 2 && a < n && PathFromTo(ChainSuccs(n), a, b, p)
    ensures b < n
  {
    if |p| > 1 {
      var j := |p| - 2;
      assert Edge(ChainSuccs(n), p[j], p[j+1]);
    }
  }

  lemma ChainInverse(n: nat)
    requires n >= 2
    ensures Inverse(ChainSuccs(n), ChainPreds(n))
  {
    forall a: nat, b: nat ensures Edge(ChainSuccs(n), a, b) <==> Edge(ChainPreds(n), b, a) {
      assert Edge(ChainSuccs(n), a, b) <==> a < n && (if a == 0 then b == n - 1 else a > 1 && b == a - 1);
      assert Edge(ChainPreds(n), b, a) <==> 0 < b < n && (if b == n - 1 then a == 0 else a == b + 1);
    }
  }

  lemma ChainReachable(n: nat, b: nat)
    requires n >= 2
    ensures b < n <==> Reaches(ChainSuccs(n), 0, b)
  {
    var g := ChainSuccs(n);
    if b == 0 {
      assert PathFromTo(g, 0, 0, [0]);
    } else if b < n {
      var p := ChainPath(n, b);
    } else if Reaches(g, 0, b) {
      var p :| PathFromTo(g, 0, b, p);
      ChainReachesBelow(n, 0, b, p);
    }
  }

  /** What `k` ascending sweeps know about block `b`: nothing yet, when `b < n - k`. */
  ghost predicate ChainUntouched(n: nat, k: nat, doms: DomMap) {
    && doms.Keys == Below(n)
    && forall b :: 1 <= b < n - k ==> doms[b] == Below(n)
  }

  /** A block whose only predecessor still lists everything keeps listing everything. */
  lemma ChainUpdate(pr: Problem, n: nat, doms: DomMap, b: nat)
    requires IsChain(pr, n) && doms.Keys == Below(n) && 1 <= b < n - 1 && doms[b + 1] == Below(n)
    ensures Update(pr, doms, b)[b] == Below(n)
  {
    assert b + 1 in [b + 1] && b + 1 in pr.reachable;
    var ps := ReachablePreds([b + 1], pr.reachable);
    assert b + 1 in ps;
    assert forall p :: p in ps ==> p == b + 1;
  }

  /** Block `b` is the only one that its turn changes, and it stays untouched while its predecessor is. */
  lemma ChainTurn(pr: Problem, n: nat, k: nat, doms: DomMap, mid: DomMap, b: nat)
    requires IsChain(pr, n) && b < n && ChainUntouched(n, k, doms)
    requires ChainUntouched(n, k + 1, mid) && forall x :: b <= x < n ==> mid[x] == doms[x]
    ensures ChainUntouched(n, k + 1, Update(pr, mid, b))
    ensures forall x :: b + 1 <= x < n ==> Update(pr, mid, b)[x] == doms[x]
  {
    hide ReachablePreds, Meet;
    if 1 <= b < n - k - 1 {
      ChainUpdate(pr, n, mid, b);
    }
  }

  lemma {:induction false} ChainSweep(pr: Problem, n: nat, k: nat, doms: DomMap, m: nat)
    requires IsChain(pr, n) && m <= n && ChainUntouched(n, k, doms)
    ensures ChainUntouched(n, k + 1, Sweep(pr, doms, pr.order[..m]))
    ensures forall b :: m <= b < n ==> Sweep(pr, doms, pr.order[..m])[b] == doms[b]
  {
    hide Update, ChainUntouched;
    if m == 0 {
      assert pr.order[..0] == [];
      ChainUntouchedWeakens(n, k, doms);
    } else {
      var b := m - 1;
      ChainSweep(pr, n, k, doms, b);
      assert pr.order[..m][..b] == pr.order[..b];
      var mid := Sweep(pr, doms, pr.order[..b]);
      assert Sweep(pr, doms, pr.order[..m]) == Update(pr, mid, b);
      ChainUntouchedWeakens(n, k, doms);
      ChainUntouchedWeakens(n, k + 1, mid);
      ChainTurn(pr, n, k, doms, mid, b);
      ChainUntouchedWeakens(n, k + 1, Update(pr, mid, b));
    }
  }

  lemma ChainUntouchedWeakens(n: nat, k: nat, doms: DomMap)
    requires ChainUntouched(n, k, doms)
    ensures doms.Keys == Below(n) && ChainUntouched(n, k + 1, doms)
  {
  }

  lemma {:induction false} ChainRounds(pr: Problem, n: nat, k: nat)
    requires IsChain(pr, n)
    ensures ChainUntouched(n, k, AfterRounds(pr, k))
  {
    if k > 0 {
      ChainRounds(pr, n, k - 1);
      ChainSweep(pr, n, k - 1, AfterRounds(pr, k - 1), n);
      assert pr.order[..n] == pr.order;
    }
  }

  /**
   With three or more blocks than sweeps, block 2 is reported as dominated by
   block 1, which no path to block 2 visits.
   */
  lemma {:induction false} CapGivesWrongDominators(n: nat, k: nat)
    requires n >= k + 3
    ensures Chain(n).Describes(ChainSuccs(n)) && |Chain(n).reachable| == n
    ensures 2 in AfterRounds(Chain(n), k) && 1 in AfterRounds(Chain(n), k)[2]
    ensures !Dominates(ChainSuccs(n), 0, 1, 2)
    ensures !Exact(Chain(n), ChainSuccs(n), AfterRounds(Chain(n), k))
  {
    var pr := Chain(n);
    ChainInverse(n);
    forall b: nat ensures b in pr.reachable <==> Reaches(ChainSuccs(n), 0, b) {
      ChainReachable(n, b);
    }
    BelowSize(n);
    ChainRounds(pr, n, k);
    var p := ChainPath(n, 2);
    assert 1 !in p;
  }

  lemma {:induction false} BelowSize(n: nat)
    ensures |Below(n)| == n
  {
    if n > 0 {
      BelowSize(n - 1);
    }
  }
}
