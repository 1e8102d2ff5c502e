/**
 Paths over the adjacency dictionaries that the CFG stage builds: a block id
 maps to the list of its neighbours, and a missing key means no neighbours.
 */
module Graphs {

  type Adjacency = map<nat, seq<nat>>

  /** `adjacency.get(n, [])`. */
  function Neighbours(g: Adjacency, n: nat): seq<nat> {
    if n in g then g[n] else []
  }

  ghost predicate Edge(g: Adjacency, a: nat, b: nat) {
    b in Neighbours(g, a)
  }

  /** `preds` lists, for every block, exactly the blocks with an edge to it. */
  ghost predicate Inverse(succs: Adjacency, preds: Adjacency) {
    forall a, b :: Edge(succs, a, b) <==> Edge(preds, b, a)
  }

  ghost predicate IsPath(g: Adjacency, p: seq<nat>) {
    |p| > 0 && forall i, j :: 0 <= i && j == i + 1 && j < |p| ==> Edge(g, p[i], p[j])
  }

  ghost predicate PathFromTo(g: Adjacency, a: nat, b: nat, p: seq<nat>) {
    IsPath(g, p) && p[0] == a && p[|p|-1] == b
  }

  ghost predicate Reaches(g: Adjacency, a: nat, b: nat) {
    exists p :: PathFromTo(g, a, b, p)
  }

  /** Some path from `a` to `b` never visits `h`. */
  ghost predicate ReachesAvoiding(g: Adjacency, a: nat, b: nat, h: nat) {
    exists p :: PathFromTo(g, a, b, p) && h !in p
  }

  /** Every path from `entry` to `n` visits `d`. */
  ghost predicate Dominates(g: Adjacency, entry: nat, d: nat, n: nat) {
    forall p :: PathFromTo(g, entry, n, p) ==> d in p
  }

  lemma ConcatPaths(g: Adjacency, a: nat, b: nat, c: nat, p: seq<nat>, q: seq<nat>)
    requires PathFromTo(g, a, b, p) && PathFromTo(g, b, c, q)
    ensures PathFromTo(g, a, c, p + q[1..])
    ensures forall x :: x in p + q[1..] <==> x in p || x in q
  {
    var r := p + q[1..];
    forall i, j | 0 <= i && j == i + 1 && j < |r| ensures Edge(g, r[i], r[j]) {
      if j < |p| {
        assert r[i] == p[i] && r[j] == p[j];
      } else {
        assert r[i] == q[i - |p| + 1];
        assert r[j] == q[j - |p| + 1];
      }
    }
    assert r[|r|-1] == c;
    forall x ensures x in r <==> x in p || x in q {
      if x in q {
        var i :| 0 <= i < |q| && q[i] == x;
        if i == 0 { assert x == p[|p|-1]; } else { assert x == q[1..][i-1]; }
      }
    }
  }

  lemma ExtendPath(g: Adjacency, a: nat, b: nat, c: nat, p: seq<nat>)
    requires PathFromTo(g, a, b, p) && Edge(g, b, c)
    ensures PathFromTo(g, a, c, p + [c])
  {
    var r := p + [c];
    forall i, j | 0 <= i && j == i + 1 && j < |r| ensures Edge(g, r[i], r[j]) {
      if j < |p| { assert r[i] == p[i] && r[j] == p[j]; }
    }
  }

  lemma PrependEdge(g: Adjacency, a: nat, b: nat, c: nat, h: nat)
    requires Edge(g, a, b) && ReachesAvoiding(g, b, c, h) && a != h
    ensures ReachesAvoiding(g, a, c, h)
  {
    var q :| PathFromTo(g, b, c, q) && h !in q;
    ExtendPath(g, a, a, b, [a]);
    ConcatPaths(g, a, b, c, [a] + [b], q);
  }

  lemma AppendEdgeAvoiding(g: Adjacency, a: nat, b: nat, c: nat, h: nat)
    requires ReachesAvoiding(g, a, b, h) && Edge(g, b, c) && c != h
    ensures ReachesAvoiding(g, a, c, h)
  {
    var p :| PathFromTo(g, a, b, p) && h !in p;
    ExtendPath(g, a, b, c, p);
  }

  lemma AvoidingTransitive(g: Adjacency, a: nat, b: nat, c: nat, h: nat)
    requires ReachesAvoiding(g, a, b, h) && ReachesAvoiding(g, b, c, h)
    ensures ReachesAvoiding(g, a, c, h)
  {
    var p :| PathFromTo(g, a, b, p) && h !in p;
    var q :| PathFromTo(g, b, c, q) && h !in q;
    ConcatPaths(g, a, b, c, p, q);
  }

  lemma Prefix(g: Adjacency, a: nat, b: nat, p: seq<nat>, k: nat)
    requires PathFromTo(g, a, b, p) && k < |p|
    ensures PathFromTo(g, a, p[k], p[..k+1])
  {
    var q := p[..k+1];
    forall i, j | 0 <= i && j == i + 1 && j < |q| ensures Edge(g, q[i], q[j]) {
      assert q[i] == p[i] && q[j] == p[j];
    }
  }

  lemma Suffix(g: Adjacency, a: nat, b: nat, p: seq<nat>, k: nat)
    requires PathFromTo(g, a, b, p) && k < |p|
    ensures PathFromTo(g, p[k], b, p[k..])
  {
    var q := p[k..];
    forall i, j | 0 <= i && j == i + 1 && j < |q| ensures Edge(g, q[i], q[j]) {
      assert q[i] == p[k+i] && q[j] == p[k+j];
    }
  }

  /** The suffix of a path that starts at the last visit of `h`. */
  lemma LastVisit(p: seq<nat>, h: nat) returns (k: nat)
    requires h in p
    ensures k < |p| && p[k] == h && h !in p[k+1..]
  {
    if p[|p|-1] == h {
      k := |p| - 1;
    } else {
      var q := p[..|p|-1];
      assert p == q + [p[|p|-1]];
      k := LastVisit(q, h);
      assert p[k+1..] == q[k+1..] + [p[|p|-1]];
    }
  }

  ghost predicate Distinct(p: seq<nat>) {
    forall i, j :: 0 <= i < j < |p| ==> p[i] != p[j]
  }

  /** Cutting cycles out of a path leaves a simple path with no new blocks. */
  lemma SimplePath(g: Adjacency, a: nat, b: nat, p: seq<nat>) returns (q: seq<nat>)
    requires PathFromTo(g, a, b, p)
    ensures PathFromTo(g, a, b, q) && Distinct(q)
    ensures forall x :: x in q ==> x in p
    decreases |p|
  {
    if Distinct(p) {
      q := p;
    } else {
      var i, j :| 0 <= i < j < |p| && p[i] == p[j];
      Prefix(g, a, b, p, i);
      Suffix(g, a, b, p, j);
      ConcatPaths(g, a, p[i], b, p[..i+1], p[j..]);
      var r := p[..i+1] + p[j..][1..];
      q := SimplePath(g, a, b, r);
    }
  }

  lemma DistinctFits(p: seq<nat>, s: set<nat>)
    requires Distinct(p) && forall x :: x in p ==> x in s
    ensures |p| <= |s|
  {
    if p != [] {
      var last := p[|p|-1];
      var rest := p[..|p|-1];
      forall x | x in rest ensures x in s - {last} {
        var i :| 0 <= i < |rest| && rest[i] == x;
        assert p[i] == x;
      }
      DistinctFits(rest, s - {last});
    }
  }

  /** Two dominators of one reachable block are ordered by dominance. */
  lemma {:induction false} DominatorsOrdered(g: Adjacency, entry: nat, d: nat, e: nat, n: nat)
    requires Reaches(g, entry, n)
    requires Dominates(g, entry, d, n) && Dominates(g, entry, e, n)
    ensures Dominates(g, entry, d, e) || Dominates(g, entry, e, d)
  {
    if !Dominates(g, entry, d, e) && !Dominates(g, entry, e, d) {
      var p :| PathFromTo(g, entry, n, p);
      var i := LastVisit(p, d);
      var j := LastVisit(p, e);
      if i < j {
        SpliceAvoids(g, entry, e, n, d, p, j);
      } else if j < i {
        SpliceAvoids(g, entry, d, n, e, p, i);
      }
    }
  }

  /** If `x` is visited after `h` for the last time, going to `x` around `h` refutes dominance. */
  lemma SpliceAvoids(g: Adjacency, entry: nat, x: nat, n: nat, h: nat, p: seq<nat>, k: nat)
    requires PathFromTo(g, entry, n, p) && k < |p| && p[k] == x && h !in p[k..]
    requires !Dominates(g, entry, h, x)
    ensures !Dominates(g, entry, h, n)
  {
    var q :| PathFromTo(g, entry, x, q) && h !in q;
    Suffix(g, entry, n, p, k);
    ConcatPaths(g, entry, x, n, q, p[k..]);
  }

  /** Dominance between distinct reachable blocks is one-way. */
  lemma {:induction false} DominanceAntisymmetric(g: Adjacency, entry: nat, d: nat, n: nat)
    requires Reaches(g, entry, n)
    requires Dominates(g, entry, d, n) && Dominates(g, entry, n, d)
    ensures d == n
  {
    var p :| PathFromTo(g, entry, n, p);
    var q := SimplePath(g, entry, n, p);
    if d != n {
      var i :| 0 <= i < |q| && q[i] == d;
      Prefix(g, entry, n, q, i);
    }
  }
}
