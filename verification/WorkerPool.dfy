/** The bounded worker pool. */
module WorkerPool {
  // A few runners share one index into the items.

  datatype Runner = Checking | Working(item: nat) | Done | Failed

  /** `started` logs the items in the order in which a worker was called on them. */
  datatype Pool = Pool(items: nat, index: nat, runners: seq<Runner>, started: seq<nat>)

  function Limit(concurrency: int): nat {
    if concurrency < 1 then 1 else concurrency
  }

  function Min(a: nat, b: nat): nat { if a <= b then a else b }

  ghost predicate Init(concurrency: int, s: Pool) {
    && s.index == 0 && s.started == []
    && |s.runners| == Min(Limit(concurrency), s.items)
    && forall r :: 0 <= r < |s.runners| ==> s.runners[r].Checking?
  }

  /** A runner looks at the index: it takes the next item and moves the index, or stops. */
  ghost predicate Look(s: Pool, t: Pool, r: nat) {
    && r < |s.runners| && s.runners[r].Checking?
    && t == if s.index < s.items
            then Pool(s.items, s.index + 1, s.runners[r := Working(s.index)], s.started + [s.index])
            else s.(runners := s.runners[r := Done])
  }

  /** A worker returns; the runner looks again. */
  ghost predicate Return(s: Pool, t: Pool, r: nat) {
    r < |s.runners| && s.runners[r].Working? && t == s.(runners := s.runners[r := Checking])
  }

  /** A worker throws: its runner ends, the others go on. */
  ghost predicate Throw(s: Pool, t: Pool, r: nat) {
    r < |s.runners| && s.runners[r].Working? && t == s.(runners := s.runners[r := Failed])
  }

  ghost predicate Next(s: Pool, t: Pool) {
    exists r: nat :: Look(s, t, r) || Return(s, t, r) || Throw(s, t, r)
  }

  ghost predicate IsRun(concurrency: int, run: seq<Pool>) {
    && run != [] && Init(concurrency, run[0])
    && forall i, j :: 0 <= i && j == i + 1 && j < |run| ==> Next(run[i], run[j])
  }

  /** As many runners as allowed, but no more than items; a limit below one allows one. */
  predicate RightNumber(concurrency: int, runners: nat, items: nat) {
    && runners <= items && (runners <= concurrency || runners <= 1)
    && (runners == items || runners == concurrency >= 1 || (runners == 1 && concurrency < 1))
  }

  ghost predicate Inv(concurrency: int, s: Pool) {
    && s.index <= s.items && |s.started| == s.index
    && (forall i :: 0 <= i < s.index ==> s.started[i] == i)
    && RightNumber(concurrency, |s.runners|, s.items)
    && (forall r :: 0 <= r < |s.runners| && s.runners[r].Working? ==> s.runners[r].item < s.index)
    && (forall q, r :: 0 <= q < r < |s.runners| && s.runners[q].Working? && s.runners[r].Working? ==>
          s.runners[q].item != s.runners[r].item)
    && (forall r :: 0 <= r < |s.runners| && s.runners[r].Done? ==> s.index == s.items)
  }

  /**
   In every interleaving the items are started one by one in order, at most
   `max(1, concurrency)` are in flight, and no item is in flight twice.
   */
  lemma {:induction false} RunsKeepInv(concurrency: int, run: seq<Pool>, k: nat)
    requires IsRun(concurrency, run) && k < |run|
    ensures Inv(concurrency, run[k])
  {
    if k > 0 {
      RunsKeepInv(concurrency, run, k - 1);
      assert Next(run[k-1], run[k]);
    }
  }

  /** A worker that throws ends its runner for good. */
  lemma {:induction false} ThrowEndsRunner(concurrency: int, run: seq<Pool>, k: nat, j: nat, r: nat)
    requires IsRun(concurrency, run) && k < j < |run| && Throw(run[k], run[k + 1], r)
    ensures r < |run[j].runners| && run[j].runners[r].Failed?
  {
    if j > k + 1 {
      ThrowEndsRunner(concurrency, run, k, j - 1, r);
      assert Next(run[j - 1], run[j]);
    }
  }

  ghost predicate Quiet(s: Pool) {
    forall r :: 0 <= r < |s.runners| ==> s.runners[r].Done? || s.runners[r].Failed?
  }

  /**
   When every runner has ended, every item was started exactly once, in
   order, unless every runner died on an item of its own.
   */
  lemma QuietMeansAllStarted(concurrency: int, run: seq<Pool>, k: nat)
    requires IsRun(concurrency, run) && k < |run| && Quiet(run[k])
    ensures
      || (|run[k].started| == run[k].items && forall i :: 0 <= i < run[k].items ==> run[k].started[i] == i)
      || (run[k].runners != [] && forall r :: 0 <= r < |run[k].runners| ==> run[k].runners[r].Failed?)
  {
    RunsKeepInv(concurrency, run, k);
  }

  // ---- The pool comes to rest ----

  function Pending(r: Runner): nat {
    match r
    case Checking => 1
    case Working(_) => 2
    case _ => 0
  }

  function RunnersLeft(runners: seq<Runner>): nat {
    if runners == [] then 0 else RunnersLeft(runners[..|runners|-1]) + Pending(runners[|runners|-1])
  }

  function StepsLeft(s: Pool): nat
    requires s.index <= s.items
  {
    2 * (s.items - s.index) + RunnersLeft(s.runners)
  }

  lemma {:induction false} RunnersLeftUpdate(runners: seq<Runner>, r: nat, x: Runner)
    requires r < |runners|
    ensures RunnersLeft(runners[r := x]) == RunnersLeft(runners) - Pending(runners[r]) + Pending(x)
  {
    var n := |runners| - 1;
    if r < n {
      RunnersLeftUpdate(runners[..n], r, x);
      assert runners[r := x][..n] == runners[..n][r := x];
    } else {
      assert runners[r := x][..n] == runners[..n];
    }
  }

  /** Every step brings the pool closer to rest. */
  lemma StepsDecrease(concurrency: int, s: Pool, t: Pool)
    requires Inv(concurrency, s) && Next(s, t)
    ensures t.index <= t.items && StepsLeft(t) < StepsLeft(s)
  {
    var r: nat :| Look(s, t, r) || Return(s, t, r) || Throw(s, t, r);
    RunnersLeftUpdate(s.runners, r, t.runners[r]);
  }

  /** And it rests only when every runner has ended: until then some runner can look, or its worker can return. */
  lemma RestsIffQuiet(s: Pool)
    ensures (exists t :: Next(s, t)) <==> !Quiet(s)
  {
    if !Quiet(s) {
      var r: nat :| r < |s.runners| && !s.runners[r].Done? && !s.runners[r].Failed?;
      var t := if s.runners[r].Working? then s.(runners := s.runners[r := Checking])
        else if s.index < s.items
        then Pool(s.items, s.index + 1, s.runners[r := Working(s.index)], s.started + [s.index])
        else s.(runners := s.runners[r := Done]);
      assert Look(s, t, r) || Return(s, t, r);
      assert Next(s, t);
    }
  }
}
