/** The webhook ledger. */
module Ledger {
  // Which events were accepted, which are waiting, and how often each failed,
  // over every interleaving of emissions with distinct ids.

  import opened Words
  import opened Records
  import opened Checkpoint

  /**
   An emission after its duplicate check: its request is out, or its ledger
   entry, a delivery or a failure, is made and being saved.
   */
  datatype Emission = Posting(event: WebhookEvent) | Saving(event: WebhookEvent, delivery: bool)

  /**
   The checkpoint, the emissions in flight by event id, the ids emitted so
   far, how often each id was accepted and refused in this run, the ids whose
   save after acceptance was rejected, and the failures of each id in this run
   since it was last marked delivered.
   */
  datatype State = State(
    mem: Snapshot,
    inFlight: map<string, Emission>,
    emitted: set<string>,
    accepted: map<string, nat>,
    refused: map<string, nat>,
    rejected: set<string>,
    failures: map<string, seq<Failure>>)

  /** A failure as it is recorded. */
  datatype Failure = Failure(event: WebhookEvent, at: int, reason: string)

  function FailuresOf(s: State, id: string): seq<Failure> {
    if id in s.failures then s.failures[id] else []
  }

  function Count(m: map<string, nat>, id: string): nat {
    if id in m then m[id] else 0
  }

  function IsDelivered(cp: Snapshot, id: string): bool {
    Find(cp.deliveredEvents, id).Some?
  }

  function IsPending(cp: Snapshot, id: string): bool {
    Find(cp.pendingWebhookEvents, id).Some?
  }

  function Attempts(cp: Snapshot, id: string): nat {
    match Find(cp.pendingWebhookEvents, id)
    case None => 0
    case Some(p) => p.attempts
  }

  function InBoth(cp: Snapshot, id: string): bool {
    IsDelivered(cp, id) && IsPending(cp, id)
  }

  /** A run starts from any loaded checkpoint. */
  ghost predicate Init(s: State) {
    s.inFlight == map[] && s.emitted == {} && s.accepted == map[] && s.refused == map[] && s.rejected == {} && s.failures == map[]
  }

  /** Delivered events are skipped; for the others the request goes out at once. */
  ghost predicate Emit(s: State, t: State, event: WebhookEvent) {
    && event.id !in s.inFlight
    && t == if IsDelivered(s.mem, event.id) then s.(emitted := s.emitted + {event.id})
            else s.(emitted := s.emitted + {event.id}, inFlight := s.inFlight[event.id := Posting(event)])
  }

  /** The receiver accepts: the event is marked delivered and the save begins. */
  ghost predicate Accept(s: State, t: State, id: string) {
    && id in s.inFlight && s.inFlight[id].Posting? && s.inFlight[id].event.id == id
    && exists now :: t == s.(
         mem := Delivered(s.mem, s.inFlight[id].event, now),
         inFlight := s.inFlight[id := Saving(s.inFlight[id].event, true)],
         accepted := s.accepted[id := Count(s.accepted, id) + 1],
         failures := s.failures[id := []])
  }

  /** The receiver refuses for good: the failure is recorded and the save begins. */
  ghost predicate Refuse(s: State, t: State, id: string) {
    && id in s.inFlight && s.inFlight[id].Posting? && s.inFlight[id].event.id == id
    && exists now, reason :: t == s.(
         mem := Pending(s.mem, s.inFlight[id].event, reason, now),
         inFlight := s.inFlight[id := Saving(s.inFlight[id].event, false)],
         refused := s.refused[id := Count(s.refused, id) + 1],
         failures := s.failures[id := FailuresOf(s, id) + [Failure(s.inFlight[id].event, now, reason)]])
  }

  /** The save returns and the emission is over. */
  ghost predicate Saved(s: State, t: State, id: string) {
    id in s.inFlight && s.inFlight[id].Saving? && t == s.(inFlight := s.inFlight - {id})
  }

  /**
   The save rejects: after a delivery the handler records a failure as well and
   saves again; after a failure the error ends the emission.
   */
  ghost predicate Reject(s: State, t: State, id: string) {
    && id in s.inFlight && s.inFlight[id].Saving? && s.inFlight[id].event.id == id
    && if s.inFlight[id].delivery then exists now, reason :: RejectDelivery(s, t, id, now, reason)
       else t == s.(inFlight := s.inFlight - {id})
  }

  ghost predicate RejectDelivery(s: State, t: State, id: string, now: int, reason: string)
    requires id in s.inFlight
  {
    t == s.(
      mem := Pending(s.mem, s.inFlight[id].event, reason, now),
      inFlight := s.inFlight[id := Saving(s.inFlight[id].event, false)],
      rejected := s.rejected + {id},
      failures := s.failures[id := FailuresOf(s, id) + [Failure(s.inFlight[id].event, now, reason)]])
  }

  ghost predicate Next(s: State, t: State) {
    || (exists e: WebhookEvent :: Emit(s, t, e))
    || (exists id: string :: Accept(s, t, id) || Refuse(s, t, id) || Saved(s, t, id) || Reject(s, t, id))
  }

  ghost predicate IsRun(run: seq<State>) {
    && run != [] && Init(run[0])
    && forall i, j :: 0 <= i && j == i + 1 && j < |run| ==> Next(run[i], run[j])
  }

  // ---- What one event's entries look like ----

  /** Everything the ledger promises about one id; `first` is the checkpoint the run started from. */
  ghost predicate Entry(first: Snapshot, s: State, id: string) {
    && (id in s.inFlight ==> FlightEntry(first, s, id, s.inFlight[id]))
    && (id in s.emitted && !(id in s.inFlight && s.inFlight[id].Posting?) ==>
          IsDelivered(s.mem, id) || IsPending(s.mem, id))
    && Count(s.accepted, id) == (if IsDelivered(s.mem, id) && !IsDelivered(first, id) then 1 else 0)
    && (IsDelivered(first, id) ==>
          IsDelivered(s.mem, id) && IsPending(s.mem, id) == IsPending(first, id) && Count(s.refused, id) == 0)
    && (InBoth(s.mem, id) <==> InBoth(first, id) || id in s.rejected)
    && (id in s.rejected ==> !IsDelivered(first, id))
    && (IsPending(s.mem, id) ==>
          Attempts(s.mem, id) == if id in s.rejected then 1 else Attempts(first, id) + Count(s.refused, id))
    && (!IsDelivered(s.mem, id) ==> (IsPending(s.mem, id) <==> IsPending(first, id) || Count(s.refused, id) > 0))
  }

  /** An emission in flight is of an event not delivered before; its delivery is in no other record yet. */
  ghost predicate FlightEntry(first: Snapshot, s: State, id: string, f: Emission) {
    && f.event.id == id && id in s.emitted && !IsDelivered(first, id)
    && (f.Posting? ==> !IsDelivered(s.mem, id))
    && (f.Saving? && f.delivery ==> IsDelivered(s.mem, id) && !IsPending(s.mem, id))
  }

  ghost predicate Inv(first: Snapshot, s: State) {
    forall id :: Entry(first, s, id)
  }

  lemma DeliveredView(cp: Snapshot, event: WebhookEvent, now: int, id: string)
    ensures var after := Delivered(cp, event, now);
      && IsDelivered(after, id) == (id == event.id || IsDelivered(cp, id))
      && IsPending(after, id) == (id != event.id && IsPending(cp, id))
      && Attempts(after, id) == if id == event.id then 0 else Attempts(cp, id)
  {
    FindAfterPut(cp.deliveredEvents, event.id, DeliveredRecord(now, event.kind), id);
    FindAfterRemove(cp.pendingWebhookEvents, event.id, id);
  }

  lemma PendingView(cp: Snapshot, event: WebhookEvent, reason: string, now: int, id: string)
    ensures var after := Pending(cp, event, reason, now);
      && IsDelivered(after, id) == IsDelivered(cp, id)
      && IsPending(after, id) == (id == event.id || IsPending(cp, id))
      && Attempts(after, id) == Attempts(cp, id) + if id == event.id then 1 else 0
  {
    FindAfterPut(cp.pendingWebhookEvents, event.id, NextPending(cp, event, reason, now), id);
  }

  lemma NotPendingYet(cp: Snapshot, id: string)
    ensures !IsPending(cp, id) ==> Attempts(cp, id) == 0
  {
  }

  lemma AcceptKeepsEntry(first: Snapshot, s: State, t: State, a: string, id: string)
    requires Accept(s, t, a) && Entry(first, s, a) && Entry(first, s, id)
    ensures Entry(first, t, id)
  {
    hide Delivered, IsDelivered, IsPending, Attempts;
    var now :| t == s.(
      mem := Delivered(s.mem, s.inFlight[a].event, now),
      inFlight := s.inFlight[a := Saving(s.inFlight[a].event, true)],
      accepted := s.accepted[a := Count(s.accepted, a) + 1],
      failures := s.failures[a := []]);
    DeliveredView(s.mem, s.inFlight[a].event, now, id);
  }

  lemma RefuseKeepsEntry(first: Snapshot, s: State, t: State, a: string, id: string)
    requires Refuse(s, t, a) && Entry(first, s, a) && Entry(first, s, id)
    ensures Entry(first, t, id)
  {
    hide Pending, IsDelivered, IsPending, Attempts;
    var now, reason :| t == s.(
      mem := Pending(s.mem, s.inFlight[a].event, reason, now),
      inFlight := s.inFlight[a := Saving(s.inFlight[a].event, false)],
      refused := s.refused[a := Count(s.refused, a) + 1],
      failures := s.failures[a := FailuresOf(s, a) + [Failure(s.inFlight[a].event, now, reason)]]);
    NotPendingYet(s.mem, a);
    NotPendingYet(first, a);
    PendingView(s.mem, s.inFlight[a].event, reason, now, id);
  }

  lemma RejectKeepsEntry(first: Snapshot, s: State, t: State, a: string, id: string)
    requires Reject(s, t, a) && Entry(first, s, a) && Entry(first, s, id)
    ensures Entry(first, t, id)
  {
    hide Pending, IsDelivered, IsPending, Attempts;
    if s.inFlight[a].delivery {
      var now, reason :| RejectDelivery(s, t, a, now, reason);
      NotPendingYet(s.mem, a);
      PendingView(s.mem, s.inFlight[a].event, reason, now, id);
    }
  }

  lemma NextKeepsInv(first: Snapshot, s: State, t: State)
    requires Inv(first, s) && Next(s, t)
    ensures Inv(first, t)
  {
    hide Entry, Accept, Refuse, Reject;
    forall id ensures Entry(first, t, id) {
      assert Entry(first, s, id);
      if e: WebhookEvent :| Emit(s, t, e) {
        EmitKeepsEntry(first, s, t, e, id);
      } else {
        var a: string :| Accept(s, t, a) || Refuse(s, t, a) || Saved(s, t, a) || Reject(s, t, a);
        assert Entry(first, s, a);
        if Accept(s, t, a) {
          AcceptKeepsEntry(first, s, t, a, id);
        } else if Refuse(s, t, a) {
          RefuseKeepsEntry(first, s, t, a, id);
        } else if Reject(s, t, a) {
          RejectKeepsEntry(first, s, t, a, id);
        } else {
          SavedKeepsEntry(first, s, t, a, id);
        }
      }
    }
  }

  lemma EmitKeepsEntry(first: Snapshot, s: State, t: State, e: WebhookEvent, id: string)
    requires Emit(s, t, e) && Entry(first, s, id)
    ensures Entry(first, t, id)
  {
    hide IsDelivered, IsPending, Attempts;
  }

  lemma SavedKeepsEntry(first: Snapshot, s: State, t: State, a: string, id: string)
    requires Saved(s, t, a) && Entry(first, s, id)
    ensures Entry(first, t, id)
  {
    hide IsDelivered, IsPending, Attempts;
  }

  lemma {:induction false} RunsKeepInv(run: seq<State>, k: nat)
    requires IsRun(run) && k < |run|
    ensures Inv(run[0].mem, run[k])
  {
    hide Entry, Next;
    if k == 0 {
      forall id ensures Entry(run[0].mem, run[0], id) {
        InitEntry(run[0], id);
      }
    } else {
      RunsKeepInv(run, k - 1);
      NextKeepsInv(run[0].mem, run[k-1], run[k]);
    }
  }

  lemma InitEntry(s: State, id: string)
    requires Init(s)
    ensures Entry(s.mem, s, id)
  {
  }

  /**
   In every run, exactly these events are in both records: those loaded so, and
   those whose save after acceptance was rejected.
   */
  lemma InBothIff(run: seq<State>, k: nat, id: string)
    requires IsRun(run) && k < |run|
    ensures InBoth(run[k].mem, id) <==> InBoth(run[0].mem, id) || id in run[k].rejected
  {
    hide IsRun, IsDelivered, IsPending, Attempts, InBoth, FlightEntry;
    RunsKeepInv(run, k);
    assert Entry(run[0].mem, run[k], id);
  }

  /** Every event emitted and no longer in flight is in one of the two records, and in only one but for those. */
  lemma EmittedEndsInOneRecord(run: seq<State>, k: nat, id: string)
    requires IsRun(run) && k < |run| && id in run[k].emitted && id !in run[k].inFlight
    ensures IsDelivered(run[k].mem, id) || IsPending(run[k].mem, id)
    ensures IsDelivered(run[k].mem, id) != IsPending(run[k].mem, id) <==>
      !InBoth(run[0].mem, id) && id !in run[k].rejected
  {
    hide IsRun, IsDelivered, IsPending, Attempts, FlightEntry;
    RunsKeepInv(run, k);
    assert Entry(run[0].mem, run[k], id);
  }

  /** No event is accepted twice, nor asked for again once it is delivered. */
  lemma NeverPostedAgain(run: seq<State>, k: nat, id: string)
    requires IsRun(run) && k < |run|
    ensures Count(run[k].accepted, id) <= 1
    ensures IsDelivered(run[0].mem, id) ==> Count(run[k].accepted, id) == 0
    ensures IsDelivered(run[k].mem, id) ==> !(id in run[k].inFlight && run[k].inFlight[id].Posting?)
  {
    hide IsRun, IsDelivered, IsPending, Attempts, InBoth;
    RunsKeepInv(run, k);
    assert Entry(run[0].mem, run[k], id);
  }

  /**
   The attempts of a waiting event count its failures, in this run and in
   earlier ones; after a rejected save they start over at 1.
   */
  lemma AttemptsCountFailures(run: seq<State>, k: nat, id: string)
    requires IsRun(run) && k < |run| && IsPending(run[k].mem, id)
    ensures Attempts(run[k].mem, id) ==
      if id in run[k].rejected then 1 else Attempts(run[0].mem, id) + Count(run[k].refused, id)
  {
    hide IsRun, IsDelivered, IsPending, Attempts, InBoth, FlightEntry;
    RunsKeepInv(run, k);
    assert Entry(run[0].mem, run[k], id);
  }

  // ---- The waiting record ----

  /** The record of an event that had record `start` and then failed like this. */
  function RecordAfter(start: Option<PendingRecord>, failures: seq<Failure>): Option<PendingRecord> {
    if failures == [] then start
    else
      var last := failures[|failures|-1];
      Some(PendingRecord(last.event, if start.Some? then start.value.firstFailedAt else failures[0].at,
        last.at, last.reason, |failures| + if start.Some? then start.value.attempts else 0))
  }

  /** The loaded record of an event, unless it was accepted since. */
  function StartOf(first: Snapshot, s: State, id: string): Option<PendingRecord> {
    if Count(s.accepted, id) > 0 then None else Find(first.pendingWebhookEvents, id)
  }

  ghost predicate RecordRight(first: Snapshot, s: State, id: string) {
    && Find(s.mem.pendingWebhookEvents, id) == RecordAfter(StartOf(first, s, id), FailuresOf(s, id))
    && (id in s.inFlight ==> s.inFlight[id].event.id == id)
  }

  lemma FailureAppends(cp: Snapshot, event: WebhookEvent, reason: string, now: int, start: Option<PendingRecord>,
      failures: seq<Failure>, id: string)
    requires Find(cp.pendingWebhookEvents, event.id) == RecordAfter(start, failures)
    ensures Find(Pending(cp, event, reason, now).pendingWebhookEvents, id) ==
      if id == event.id then RecordAfter(start, failures + [Failure(event, now, reason)])
      else Find(cp.pendingWebhookEvents, id)
  {
    FindAfterPut(cp.pendingWebhookEvents, event.id, NextPending(cp, event, reason, now), id);
  }

  lemma AcceptKeepsRecord(first: Snapshot, s: State, t: State, a: string, id: string)
    requires Accept(s, t, a) && RecordRight(first, s, id)
    ensures RecordRight(first, t, id)
  {
    hide RecordAfter, Delivered;
    var now :| t.mem == Delivered(s.mem, s.inFlight[a].event, now);
    FindAfterRemove(s.mem.pendingWebhookEvents, a, id);
    AcceptedRecord(s.mem, s.inFlight[a].event, now);
    NoFailures();
  }

  lemma RefuseKeepsRecord(first: Snapshot, s: State, t: State, a: string, id: string)
    requires Refuse(s, t, a) && RecordRight(first, s, a) && RecordRight(first, s, id)
    ensures RecordRight(first, t, id)
  {
    hide RecordAfter, Pending;
    var now, reason :| t.mem == Pending(s.mem, s.inFlight[a].event, reason, now)
      && t.failures == s.failures[a := FailuresOf(s, a) + [Failure(s.inFlight[a].event, now, reason)]];
    FailureAppends(s.mem, s.inFlight[a].event, reason, now, StartOf(first, s, a), FailuresOf(s, a), id);
  }

  lemma RejectKeepsRecord(first: Snapshot, s: State, t: State, a: string, id: string)
    requires Reject(s, t, a) && RecordRight(first, s, a) && RecordRight(first, s, id)
    ensures RecordRight(first, t, id)
  {
    hide RecordAfter, Pending;
    if s.inFlight[a].delivery {
      var now, reason :| RejectDelivery(s, t, a, now, reason);
      FailureAppends(s.mem, s.inFlight[a].event, reason, now, StartOf(first, s, a), FailuresOf(s, a), id);
    }
  }

  lemma {:induction false} NextKeepsRecord(first: Snapshot, s: State, t: State, id: string)
    requires Next(s, t) && forall x :: RecordRight(first, s, x)
    ensures RecordRight(first, t, id)
  {
    hide RecordRight, Accept, Refuse, Reject;
    assert RecordRight(first, s, id);
    if e: WebhookEvent :| Emit(s, t, e) {
      QuietKeepsRecord(first, s, t, id);
    } else {
      var a: string :| Accept(s, t, a) || Refuse(s, t, a) || Saved(s, t, a) || Reject(s, t, a);
      assert RecordRight(first, s, a);
      if Accept(s, t, a) {
        AcceptKeepsRecord(first, s, t, a, id);
      } else if Refuse(s, t, a) {
        RefuseKeepsRecord(first, s, t, a, id);
      } else if Reject(s, t, a) {
        RejectKeepsRecord(first, s, t, a, id);
      } else {
        QuietKeepsRecord(first, s, t, id);
      }
    }
  }

  lemma QuietKeepsRecord(first: Snapshot, s: State, t: State, id: string)
    requires RecordRight(first, s, id) && t.mem == s.mem && t.failures == s.failures && t.accepted == s.accepted
    requires id in t.inFlight ==> (id in s.inFlight && t.inFlight[id] == s.inFlight[id]) || t.inFlight[id].event.id == id
    ensures RecordRight(first, t, id)
  {
  }

  lemma AcceptedRecord(cp: Snapshot, event: WebhookEvent, now: int)
    ensures Delivered(cp, event, now).pendingWebhookEvents == Remove(cp.pendingWebhookEvents, event.id)
  {
  }

  lemma NoFailures()
    ensures RecordAfter(None, []) == None
  {
  }

  /**
   In every state of every run the record of a waiting event has the time of
   its first failure, the time and reason of its last, and their number; a
   loaded record goes on, and an acceptance starts afresh.
   */
  lemma {:induction false} RecordOfFailures(run: seq<State>, k: nat, id: string)
    requires IsRun(run) && k < |run|
    ensures Find(run[k].mem.pendingWebhookEvents, id) ==
      RecordAfter(StartOf(run[0].mem, run[k], id), FailuresOf(run[k], id))
  {
    RecordsStayRight(run, k);
    assert RecordRight(run[0].mem, run[k], id);
  }

  lemma {:induction false} RecordsStayRight(run: seq<State>, k: nat)
    requires IsRun(run) && k < |run|
    ensures forall id :: RecordRight(run[0].mem, run[k], id)
  {
    hide RecordRight, Next;
    if k == 0 {
      forall id ensures RecordRight(run[0].mem, run[0], id) {
        FirstRecord(run[0], id);
      }
    } else {
      RecordsStayRight(run, k - 1);
      assert Next(run[k-1], run[k]);
      forall id ensures RecordRight(run[0].mem, run[k], id) {
        NextKeepsRecord(run[0].mem, run[k-1], run[k], id);
      }
    }
  }

  lemma FirstRecord(s: State, id: string)
    requires Init(s)
    ensures RecordRight(s.mem, s, id)
  {
  }

  /** A run of four states reaches such an event from any checkpoint that has not delivered it. */
  lemma RejectedSaveLeavesBoth(cp: Snapshot, event: WebhookEvent, reason: string, now: int) returns (run: seq<State>)
    requires !IsDelivered(cp, event.id)
    ensures IsRun(run) && run[0].mem == cp && InBoth(run[|run|-1].mem, event.id) && event.id in run[|run|-1].rejected
  {
    hide Delivered, Pending, IsDelivered, IsPending;
    var id := event.id;
    var s0 := State(cp, map[], {}, map[], map[], {}, map[]);
    var s1 := s0.(emitted := s0.emitted + {id}, inFlight := s0.inFlight[id := Posting(event)]);
    var s2 := s1.(mem := Delivered(cp, event, now), inFlight := s1.inFlight[id := Saving(event, true)],
                  accepted := s1.accepted[id := Count(s1.accepted, id) + 1], failures := s1.failures[id := []]);
    var s3 := s2.(mem := Pending(s2.mem, event, reason, now), inFlight := s2.inFlight[id := Saving(event, false)],
                  rejected := s2.rejected + {id},
                  failures := s2.failures[id := FailuresOf(s2, id) + [Failure(event, now, reason)]]);
    assert Emit(s0, s1, event);
    assert Accept(s1, s2, id);
    assert RejectDelivery(s2, s3, id, now, reason);
    assert Reject(s2, s3, id);
    run := [s0, s1, s2, s3];
    DeliveredView(cp, event, now, id);
    PendingView(s2.mem, event, reason, now, id);
  }
}
