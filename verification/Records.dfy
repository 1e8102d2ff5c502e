/** Stable sorting by a key, and insertion-ordered records with string keys. */
module Records {
  import opened Words

  // ---- Stable sort ----

  predicate Ordered<T>(s: seq<T>, key: T -> int) {
    forall i, j :: 0 <= i < j < |s| ==> key(s[i]) <= key(s[j])
  }

  /** Put `x` behind the elements of a sorted sequence whose key is not greater. */
  function Insert<T>(s: seq<T>, x: T, key: T -> int): (r: seq<T>)
    ensures |r| == |s| + 1
  {
    if s != [] && key(s[|s|-1]) > key(x) then Insert(s[..|s|-1], x, key) + [s[|s|-1]] else s + [x]
  }

  /** The stable ascending sort: equal keys keep their order. */
  function SortBy<T>(s: seq<T>, key: T -> int): (r: seq<T>)
    ensures |r| == |s|
  {
    if s == [] then [] else Insert(SortBy(s[..|s|-1], key), s[|s|-1], key)
  }

  lemma {:induction false} InsertKeepsElements<T>(s: seq<T>, x: T, key: T -> int)
    ensures multiset(Insert(s, x, key)) == multiset(s) + multiset{x}
  {
    if s != [] && key(s[|s|-1]) > key(x) {
      assert s == s[..|s|-1] + [s[|s|-1]];
      InsertKeepsElements(s[..|s|-1], x, key);
    }
  }

  lemma {:induction false} InsertKeepsOrder<T>(s: seq<T>, x: T, key: T -> int)
    requires Ordered(s, key)
    ensures Ordered(Insert(s, x, key), key)
    ensures forall i :: 0 <= i <= |s| ==>
      key(Insert(s, x, key)[i]) <= if s != [] && key(s[|s|-1]) > key(x) then key(s[|s|-1]) else key(x)
  {
    if s != [] && key(s[|s|-1]) > key(x) {
      var init := s[..|s|-1];
      InsertKeepsOrder(init, x, key);
      assert init != [] ==> key(init[|init|-1]) <= key(s[|s|-1]);
    }
  }

  lemma {:induction false} SortByKeeps<T>(s: seq<T>, key: T -> int)
    ensures multiset(SortBy(s, key)) == multiset(s)
    ensures Ordered(SortBy(s, key), key)
  {
    if s != [] {
      var init := s[..|s|-1];
      assert s == init + [s[|s|-1]];
      SortByKeeps(init, key);
      InsertKeepsElements(SortBy(init, key), s[|s|-1], key);
      InsertKeepsOrder(SortBy(init, key), s[|s|-1], key);
    }
  }

  /** The elements with key `k`, in order. */
  function OfKey<T>(s: seq<T>, key: T -> int, k: int): seq<T> {
    if s == [] then []
    else OfKey(s[..|s|-1], key, k) + if key(s[|s|-1]) == k then [s[|s|-1]] else []
  }

  lemma {:induction false} InsertIsStable<T>(s: seq<T>, x: T, key: T -> int, k: int)
    ensures OfKey(Insert(s, x, key), key, k) == OfKey(s, key, k) + if key(x) == k then [x] else []
  {
    var r := Insert(s, x, key);
    if s != [] && key(s[|s|-1]) > key(x) {
      InsertIsStable(s[..|s|-1], x, key, k);
      assert r[..|r|-1] == Insert(s[..|s|-1], x, key);
    } else {
      assert r[..|r|-1] == s;
    }
  }

  /** Elements of equal key keep their order. */
  lemma {:induction false} SortIsStable<T>(s: seq<T>, key: T -> int, k: int)
    ensures OfKey(SortBy(s, key), key, k) == OfKey(s, key, k)
  {
    if s != [] {
      SortIsStable(s[..|s|-1], key, k);
      InsertIsStable(SortBy(s[..|s|-1], key), s[|s|-1], key, k);
    }
  }

  lemma SameElements<T>(s: seq<T>, r: seq<T>)
    requires multiset(s) == multiset(r)
    ensures forall x :: x in s <==> x in r
  {
    forall x ensures x in s <==> x in r {
      assert x in s <==> x in multiset(s);
      assert x in r <==> x in multiset(r);
    }
  }

  // ---- Records ----

  /** A JavaScript object used as a dictionary: entries in insertion order, one per key. */
  type Records<V> = seq<(string, V)>

  ghost predicate DistinctKeys<V>(r: Records<V>) {
    forall i, j :: 0 <= i < j < |r| ==> r[i].0 != r[j].0
  }

  function Find<V>(r: Records<V>, k: string): Option<V> {
    if r == [] then None
    else if r[|r|-1].0 == k then Some(r[|r|-1].1)
    else Find(r[..|r|-1], k)
  }

  /** `r[k] = v`: replaced in place, or appended. */
  function Put<V>(r: Records<V>, k: string, v: V): Records<V> {
    if r == [] then [(k, v)]
    else if r[|r|-1].0 == k then r[..|r|-1] + [(k, v)]
    else if Find(r, k).Some? then Put(r[..|r|-1], k, v) + [r[|r|-1]]
    else r + [(k, v)]
  }

  /** `delete r[k]`. */
  function Remove<V>(r: Records<V>, k: string): Records<V> {
    if r == [] then []
    else if r[|r|-1].0 == k then Remove(r[..|r|-1], k)
    else Remove(r[..|r|-1], k) + [r[|r|-1]]
  }

  /** Reading back after writing. */
  lemma {:induction false} FindAfterPut<V>(r: Records<V>, k: string, v: V, k2: string)
    ensures Find(Put(r, k, v), k2) == if k2 == k then Some(v) else Find(r, k2)
  {
    if r != [] && r[|r|-1].0 != k && Find(r, k).Some? {
      var init, last := r[..|r|-1], r[|r|-1];
      FindAfterPut(init, k, v, k2);
      var p := Put(init, k, v) + [last];
      assert p[..|p|-1] == Put(init, k, v);
    } else if r != [] && r[|r|-1].0 == k {
      var p := r[..|r|-1] + [(k, v)];
      assert p[..|p|-1] == r[..|r|-1];
    } else {
      var p := r + [(k, v)];
      assert p[..|p|-1] == r;
      if r == [] { assert [(k, v)] == p; }
    }
  }

  /** Reading back after deleting. */
  lemma {:induction false} FindAfterRemove<V>(r: Records<V>, k: string, k2: string)
    ensures Find(Remove(r, k), k2) == if k2 == k then None else Find(r, k2)
  {
    if r != [] {
      var init, last := r[..|r|-1], r[|r|-1];
      FindAfterRemove(init, k, k2);
      if last.0 != k {
        var p := Remove(init, k) + [last];
        assert p[..|p|-1] == Remove(init, k);
      }
    }
  }

  // ---- Pruning ----

  /** Keep the `maxEntries` entries with the latest time stamps. */
  function Prune<V>(r: Records<V>, maxEntries: nat, time: V -> int): Records<V> {
    if |r| <= maxEntries then r
    else SortBy(r, (e: (string, V)) => time(e.1))[|r| - maxEntries..]
  }

  /** Pruning keeps at most the limit, invents nothing, and keeps no entry older than one it drops. */
  lemma {:induction false} PruneKeepsLatest<V>(r: Records<V>, maxEntries: nat, time: V -> int)
    ensures |Prune(r, maxEntries, time)| == if |r| <= maxEntries then |r| else maxEntries
    ensures multiset(Prune(r, maxEntries, time)) <= multiset(r)
    ensures forall kept, dropped ::
      kept in Prune(r, maxEntries, time) && dropped in multiset(r) - multiset(Prune(r, maxEntries, time)) ==>
        time(dropped.1) <= time(kept.1)
  {
    if |r| > maxEntries {
      var key := (e: (string, V)) => time(e.1);
      var s := SortBy(r, key);
      var n := |r| - maxEntries;
      SortByKeeps(r, key);
      assert s == s[..n] + s[n..];
      assert multiset(s) == multiset(s[..n]) + multiset(s[n..]);
      forall kept, dropped | kept in s[n..] && dropped in multiset(r) - multiset(s[n..])
        ensures time(dropped.1) <= time(kept.1)
      {
        assert dropped in multiset(s[..n]);
        var i :| 0 <= i < |s[..n]| && s[..n][i] == dropped;
        var j :| 0 <= j < |s[n..]| && s[n..][j] == kept;
        assert key(s[i]) <= key(s[n + j]);
      }
    }
  }

  /** A second pruning changes nothing. */
  lemma PruneIdempotent<V>(r: Records<V>, maxEntries: nat, time: V -> int)
    ensures Prune(Prune(r, maxEntries, time), maxEntries, time) == Prune(r, maxEntries, time)
  {
  }

  lemma {:induction false} PruneKeepsDistinct<V>(r: Records<V>, maxEntries: nat, time: V -> int)
    requires DistinctKeys(r)
    ensures DistinctKeys(Prune(r, maxEntries, time))
  {
    if |r| > maxEntries {
      var key := (e: (string, V)) => time(e.1);
      SortByKeeps(r, key);
      DistinctPermutation(r, SortBy(r, key));
    }
  }

  lemma DistinctPermutation<V>(r: Records<V>, s: Records<V>)
    requires DistinctKeys(r) && multiset(r) == multiset(s)
    ensures DistinctKeys(s)
  {
    forall i, j | 0 <= i < j < |s| ensures s[i].0 != s[j].0 {
      if s[i].0 == s[j].0 {
        assert s[i] in multiset(r) && s[j] in multiset(r);
        var a :| 0 <= a < |r| && r[a] == s[i];
        var b :| 0 <= b < |r| && r[b] == s[j];
        assert a == b;
        TwiceInSeq(s, i, j);
        OnceInDistinct(r, a);
      }
    }
  }

  lemma TwiceInSeq<T>(s: seq<T>, i: nat, j: nat)
    requires i < j < |s| && s[i] == s[j]
    ensures multiset(s)[s[i]] >= 2
  {
    assert s == s[..i] + [s[i]] + s[i+1..j] + [s[j]] + s[j+1..];
  }

  lemma OnceInDistinct<V>(r: Records<V>, a: nat)
    requires DistinctKeys(r) && a < |r|
    ensures multiset(r)[r[a]] == 1
  {
    assert r == r[..a] + [r[a]] + r[a+1..];
    assert r[a] !in r[..a] && r[a] !in r[a+1..];
  }
}
