/** The queue of checkpoint saves. */
module SaveQueue {
  // Every caller edits the shared checkpoint and queues a save in one
  // uninterrupted turn, and everything else interleaves.

  import opened Words
  import opened Checkpoint

  /** Where the write of a save stands: the directory, the temporary file, its renaming, and one retry of all three. */
  datatype Stage =
    | MakingDir
    | Writing(payload: Snapshot, retried: bool)
    | Renaming(payload: Snapshot, retried: bool)
    | RemakingDir(payload: Snapshot)

  /** One call of save. */
  datatype Job = Waiting | Running(stage: Stage) | Settled(ok: bool)

  /** The checkpoint in memory, the checkpoint file, and all saves in the order of their calls. */
  datatype Store = Store(mem: Snapshot, file: Option<Snapshot>, jobs: seq<Job>)

  ghost predicate Init(s: Store) {
    s.jobs == []
  }

  /** A caller changes the checkpoint in any way and calls save. */
  ghost predicate Call(s: Store, t: Store) {
    t.file == s.file && t.jobs == s.jobs + [Waiting]
  }

  /** The promise a save was chained to has settled, well or badly: it trims the checkpoint and starts writing. */
  ghost predicate Begin(limits: Limits, s: Store, t: Store, i: nat) {
    && i < |s.jobs| && s.jobs[i].Waiting? && (i > 0 ==> s.jobs[i-1].Settled?)
    && exists now :: t == s.(mem := Trimmed(s.mem, limits, now), jobs := s.jobs[i := Running(MakingDir)])
  }

  /** What may become of a running write. The payload is fixed once the directory exists. */
  ghost predicate Advance(s: Store, t: Store, i: nat) {
    && i < |s.jobs| && s.jobs[i].Running? && t.mem == s.mem && |t.jobs| == |s.jobs|
    && t.jobs == s.jobs[i := t.jobs[i]]
    && var next := t.jobs[i];
    match s.jobs[i].stage
    case MakingDir => t.file == s.file && (next == Running(Writing(s.mem, false)) || next == Settled(false))
    case Writing(p, retried) =>
      && t.file == s.file
      && (next == Running(Renaming(p, retried)) || next == Settled(false) || (!retried && next == Running(RemakingDir(p))))
    case Renaming(p, retried) =>
      if next == Settled(true) then t.file == Some(p)
      else t.file == s.file && (next == Settled(false) || (!retried && next == Running(RemakingDir(p))))
    case RemakingDir(p) => t.file == s.file && (next == Running(Writing(p, true)) || next == Settled(false))
  }

  /** A step of some save. */
  ghost predicate Work(limits: Limits, s: Store, t: Store) {
    exists i: nat :: Begin(limits, s, t, i) || Advance(s, t, i)
  }

  ghost predicate Next(limits: Limits, s: Store, t: Store) {
    Call(s, t) || Work(limits, s, t)
  }

  ghost predicate IsRun(limits: Limits, run: seq<Store>) {
    && run != [] && Init(run[0])
    && forall i, j :: 0 <= i && j == i + 1 && j < |run| ==> Next(limits, run[i], run[j])
  }

  // ---- What every state satisfies ----

  /** Saves settle in the order of their calls. */
  ghost predicate InOrder(jobs: seq<Job>) {
    forall i, j :: 0 <= i < j < |jobs| && !jobs[j].Waiting? ==> jobs[i].Settled?
  }

  /** What the last save, once begun, says about memory and file. */
  ghost predicate LastIsCurrent(limits: Limits, s: Store) {
    s.jobs != [] ==>
      match s.jobs[|s.jobs|-1]
      case Waiting => true
      case Running(MakingDir) => WithinLimits(s.mem, limits)
      case Running(Writing(p, _)) => p == s.mem && WithinLimits(s.mem, limits)
      case Running(Renaming(p, _)) => p == s.mem && WithinLimits(s.mem, limits)
      case Running(RemakingDir(p)) => p == s.mem && WithinLimits(s.mem, limits)
      case Settled(ok) => ok ==> s.file == Some(s.mem) && WithinLimits(s.mem, limits)
  }

  ghost predicate Inv(limits: Limits, s: Store) {
    InOrder(s.jobs) && LastIsCurrent(limits, s)
  }

  lemma BeginKeepsInv(limits: Limits, s: Store, t: Store, i: nat)
    requires Inv(limits, s) && Begin(limits, s, t, i)
    ensures Inv(limits, t)
  {
    hide WithinLimits, Trimmed;
    var now :| t == s.(mem := Trimmed(s.mem, limits, now), jobs := s.jobs[i := Running(MakingDir)]);
    TrimmedWithinLimits(s.mem, limits, now);
    if i < |s.jobs| - 1 {
      assert s.jobs[|s.jobs|-1].Waiting?;
    }
  }

  lemma AdvanceKeepsInv(limits: Limits, s: Store, t: Store, i: nat)
    requires Inv(limits, s) && Advance(s, t, i)
    ensures Inv(limits, t)
  {
    hide WithinLimits;
    if i < |s.jobs| - 1 {
      assert s.jobs[|s.jobs|-1].Waiting?;
    }
  }

  lemma WorkKeepsInv(limits: Limits, s: Store, t: Store)
    requires Inv(limits, s) && Work(limits, s, t)
    ensures Inv(limits, t)
  {
    hide Inv, Begin, Advance;
    var i: nat :| Begin(limits, s, t, i) || Advance(s, t, i);
    if Begin(limits, s, t, i) {
      BeginKeepsInv(limits, s, t, i);
    } else {
      AdvanceKeepsInv(limits, s, t, i);
    }
  }

  lemma {:induction false} RunsKeepInv(limits: Limits, run: seq<Store>, k: nat)
    requires IsRun(limits, run) && k < |run|
    ensures Inv(limits, run[k])
  {
    if k > 0 {
      hide WithinLimits, Begin, Advance;
      RunsKeepInv(limits, run, k - 1);
      var s, t := run[k-1], run[k];
      assert Next(limits, s, t);
      if Work(limits, s, t) {
        WorkKeepsInv(limits, s, t);
      }
    }
  }

  // ---- The file ----

  /** Save `i` renames its temporary file, and with that settles well. */
  predicate RenamedAt(s: Store, t: Store, i: nat) {
    && i < |s.jobs| && s.jobs[i].Running? && s.jobs[i].stage.Renaming?
    && i < |t.jobs| && t.jobs[i] == Settled(true) && t.file == Some(s.jobs[i].stage.payload)
  }

  /** Only a renaming that succeeds changes the file, to the payload of that write. */
  lemma FileOnlyByRenaming(limits: Limits, s: Store, t: Store)
    requires Next(limits, s, t) && t.file != s.file
    ensures exists i: nat :: Advance(s, t, i) && RenamedAt(s, t, i)
  {
    hide Trimmed;
    var i: nat :| Begin(limits, s, t, i) || Advance(s, t, i);
    assert Advance(s, t, i);
  }

  // ---- The one retry ----

  /** The stages of a write whose first renaming fails and whose retry succeeds. */
  function RetriedWrite(p: Snapshot): seq<Job> {
    [Running(MakingDir), Running(Writing(p, false)), Running(Renaming(p, false)), Running(RemakingDir(p)),
     Running(Writing(p, true)), Running(Renaming(p, true)), Settled(true)]
  }

  /** From its beginning a write can fail once and still leave the checkpoint in the file. */
  lemma OneFailureIsSurvived(s: Store, i: nat) returns (run: seq<Store>)
    requires i < |s.jobs| && s.jobs[i] == Running(MakingDir)
    ensures |run| == 7 && run[0] == s && run[6].file == Some(s.mem)
    ensures forall a, b :: 0 <= a && b == a + 1 && b < 7 ==> Advance(run[a], run[b], i)
    ensures forall a :: 0 <= a < 7 ==> |run[a].jobs| == |s.jobs| && run[a].jobs[i] == RetriedWrite(s.mem)[a]
  {
    var stages := RetriedWrite(s.mem);
    run := seq(7, a requires 0 <= a < 7 => Store(s.mem, if a < 6 then s.file else Some(s.mem), s.jobs[i := stages[a]]));
    assert s.jobs[i := stages[0]] == s.jobs;
    forall a, b | 0 <= a && b == a + 1 && b < 7 ensures Advance(run[a], run[b], i) {
      assert run[b].jobs == run[a].jobs[i := run[b].jobs[i]];
    }
  }

  /** What is retried is not retried again, and only a write or a renaming is retried. */
  lemma NoSecondRetry(s: Store, t: Store, i: nat)
    requires Advance(s, t, i) && t.jobs[i].Running? && t.jobs[i].stage.RemakingDir?
    ensures s.jobs[i].Running?
    ensures match s.jobs[i].stage
      case Writing(p, retried) => !retried && t.jobs[i].stage.payload == p
      case Renaming(p, retried) => !retried && t.jobs[i].stage.payload == p
      case _ => false
  {
  }

  /** In every interleaving at most one write is in progress. */
  lemma AtMostOneWriter(limits: Limits, run: seq<Store>, k: nat, i: nat, j: nat)
    requires IsRun(limits, run) && k < |run| && i < |run[k].jobs| && j < |run[k].jobs|
    requires run[k].jobs[i].Running? && run[k].jobs[j].Running?
    ensures i == j
  {
    RunsKeepInv(limits, run, k);
  }

  ghost predicate Drained(s: Store) {
    forall i :: 0 <= i < |s.jobs| ==> s.jobs[i].Settled?
  }

  /** Once the queue has drained and its last save succeeded, the file is the checkpoint, within all limits. */
  lemma DrainedFileIsCurrent(limits: Limits, run: seq<Store>, k: nat)
    requires IsRun(limits, run) && k < |run| && Drained(run[k])
    requires run[k].jobs != [] && run[k].jobs[|run[k].jobs|-1] == Settled(true)
    ensures run[k].file == Some(run[k].mem) && WithinLimits(run[k].mem, limits)
  {
    RunsKeepInv(limits, run, k);
  }

  // ---- No save blocks a later one ----

  function Left(j: Job): nat {
    match j
    case Waiting => 7
    case Running(MakingDir) => 6
    case Running(Writing(_, retried)) => if retried then 2 else 5
    case Running(Renaming(_, retried)) => if retried then 1 else 4
    case Running(RemakingDir(_)) => 3
    case Settled(_) => 0
  }

  /** How many steps the queue can still take without new calls. */
  function WorkLeft(jobs: seq<Job>): nat {
    if jobs == [] then 0 else WorkLeft(jobs[..|jobs|-1]) + Left(jobs[|jobs|-1])
  }

  lemma {:induction false} WorkLeftUpdate(jobs: seq<Job>, i: nat, j: Job)
    requires i < |jobs|
    ensures WorkLeft(jobs[i := j]) == WorkLeft(jobs) - Left(jobs[i]) + Left(j)
  {
    var n := |jobs| - 1;
    if i < n {
      WorkLeftUpdate(jobs[..n], i, j);
      assert jobs[i := j][..n] == jobs[..n][i := j];
    } else {
      assert jobs[i := j][..n] == jobs[..n];
    }
  }

  /** Every step of a save uses up work, so the queue drains whether its writes succeed or fail. */
  lemma WorkDecreases(limits: Limits, s: Store, t: Store)
    requires Work(limits, s, t)
    ensures WorkLeft(t.jobs) < WorkLeft(s.jobs) && |t.jobs| == |s.jobs|
  {
    hide Trimmed;
    var i: nat :| Begin(limits, s, t, i) || Advance(s, t, i);
    WorkLeftUpdate(s.jobs, i, t.jobs[i]);
    if Begin(limits, s, t, i) {
      assert t.jobs == s.jobs[i := t.jobs[i]];
    }
  }

  /** As long as a save has not settled, some save can make a step, whatever became of the earlier ones. */
  lemma {:induction false} NeverStuck(limits: Limits, s: Store) returns (t: Store)
    requires Inv(limits, s) && !Drained(s)
    ensures Work(limits, s, t)
  {
    hide WithinLimits, Trimmed, LastIsCurrent;
    var i := FirstUnsettled(s.jobs);
    match s.jobs[i]
    case Waiting =>
      t := s.(mem := Trimmed(s.mem, limits, 0), jobs := s.jobs[i := Running(MakingDir)]);
      assert Begin(limits, s, t, i);
    case Running(_) =>
      t := s.(jobs := s.jobs[i := Settled(false)]);
      assert Advance(s, t, i);
  }

  lemma {:induction false} FirstUnsettled(jobs: seq<Job>) returns (i: nat)
    requires exists k :: 0 <= k < |jobs| && !jobs[k].Settled?
    ensures i < |jobs| && !jobs[i].Settled? && forall k :: 0 <= k < i ==> jobs[k].Settled?
  {
    var n := |jobs| - 1;
    if k :| 0 <= k < n && !jobs[k].Settled? {
      assert !jobs[..n][k].Settled?;
      i := FirstUnsettled(jobs[..n]);
      assert forall m :: 0 <= m < i ==> jobs[..n][m] == jobs[m];
    } else {
      i := n;
    }
  }

  /** Steps of saves only. */
  ghost predicate IsQuietRun(limits: Limits, run: seq<Store>) {
    run != [] && forall i, j :: 0 <= i && j == i + 1 && j < |run| ==> Work(limits, run[i], run[j])
  }

  /** No save can make a step. */
  ghost predicate Stopped(limits: Limits, s: Store) {
    forall t :: !Work(limits, s, t)
  }

  lemma StopsIffDrained(limits: Limits, s: Store)
    requires Inv(limits, s)
    ensures Stopped(limits, s) <==> Drained(s)
  {
    hide Inv, Trimmed;
    if !Drained(s) {
      var t := NeverStuck(limits, s);
    }
  }

  /** Without new calls every run ends within the work left, and only with the queue drained. */
  lemma {:induction false} QuietRunsEnd(limits: Limits, run: seq<Store>)
    requires IsQuietRun(limits, run)
    ensures |run| - 1 + WorkLeft(run[|run|-1].jobs) <= WorkLeft(run[0].jobs)
    ensures Inv(limits, run[0]) ==> Inv(limits, run[|run|-1])
    ensures Inv(limits, run[0]) ==> (Stopped(limits, run[|run|-1]) <==> Drained(run[|run|-1]))
  {
    hide Work, Inv, Drained, Stopped;
    if |run| > 1 {
      var n := |run| - 1;
      QuietRunsEnd(limits, run[..n]);
      assert Work(limits, run[n-1], run[n]);
      WorkDecreases(limits, run[n-1], run[n]);
      if Inv(limits, run[0]) {
        WorkKeepsInv(limits, run[n-1], run[n]);
      }
    }
    if Inv(limits, run[0]) {
      StopsIffDrained(limits, run[|run|-1]);
    }
  }
}
