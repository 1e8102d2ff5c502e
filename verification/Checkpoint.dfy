/** The runner checkpoint and the functions that replace or edit it. */
module Checkpoint {
  import opened Words
  import opened Records

  type Hash = string

  /** A block header as the chain reports it. */
  datatype Block = Block(number: int, hash: Hash, parentHash: Hash)

  datatype HistoryEntry = HistoryEntry(number: int, hash: Hash, parentHash: Hash, processedAt: int)

  datatype WebhookEvent = WebhookEvent(id: string, kind: string)

  datatype DeliveredRecord = DeliveredRecord(deliveredAt: int, kind: string)

  datatype PendingRecord = PendingRecord(
    event: WebhookEvent, firstFailedAt: int, lastFailedAt: int, failureReason: string, attempts: nat)

  datatype CachedAudit = CachedAudit(createdAt: int, payload: string)

  /** The contents of a checkpoint. */
  datatype Snapshot = Snapshot(
    chainId: int,
    lastProcessedBlock: int,
    updatedAt: int,
    history: seq<HistoryEntry>,
    resultCache: Records<CachedAudit>,
    deliveredEvents: Records<DeliveredRecord>,
    pendingWebhookEvents: Records<PendingRecord>)

  datatype Limits = Limits(
    maxHistory: nat, maxResultCacheEntries: nat, maxDeliveredEventEntries: nat, maxPendingWebhookEntries: nat)

  function Max(a: int, b: int): (r: int)
    ensures r >= a && r >= b && (r == a || r == b)
  {
    if a >= b then a else b
  }

  /** `s.slice(-n)`; for `n == 0` that is the whole sequence. */
  function SliceLast<T>(s: seq<T>, n: nat): (r: seq<T>)
    ensures n > 0 ==> |r| <= n
    ensures |r| <= |s| && r == s[|s| - |r|..]
    ensures n > 0 && s != [] ==> r != []
  {
    if n == 0 || |s| <= n then s else s[|s| - n..]
  }

  /** `history.filter((entry) => entry.number <= bound)`. */
  function UpTo(h: seq<HistoryEntry>, bound: int): seq<HistoryEntry> {
    if h == [] then []
    else
      var n := |h| - 1;
      if h[n].number <= bound then UpTo(h[..n], bound) + [h[n]] else UpTo(h[..n], bound)
  }

  /** `history.filter((entry) => entry.number !== number)`. */
  function Without(h: seq<HistoryEntry>, number: int): seq<HistoryEntry> {
    if h == [] then []
    else
      var n := |h| - 1;
      if h[n].number != number then Without(h[..n], number) + [h[n]] else Without(h[..n], number)
  }

  function CreateEmpty(chainId: int, startBlock: int, now: int): Snapshot {
    Snapshot(chainId, Max(startBlock - 1, -1), now, [], [], [], [])
  }

  function UpdateHistory(cp: Snapshot, block: Block, maxHistory: nat, now: int): Snapshot {
    var history := SliceLast(
      Without(cp.history, block.number) + [HistoryEntry(block.number, block.hash, block.parentHash, now)], maxHistory);
    cp.(lastProcessedBlock := block.number, updatedAt := now, history := history)
  }

  function Rewind(cp: Snapshot, toBlock: int, now: int): Snapshot {
    cp.(lastProcessedBlock := toBlock, updatedAt := now, history := UpTo(cp.history, toBlock))
  }

  /** The part of a save that edits the checkpoint before it is written. */
  function Trimmed(cp: Snapshot, limits: Limits, now: int): Snapshot {
    cp.(updatedAt := now,
        history := SliceLast(cp.history, limits.maxHistory),
        resultCache := Prune(cp.resultCache, limits.maxResultCacheEntries, (e: CachedAudit) => e.createdAt),
        deliveredEvents := Prune(cp.deliveredEvents, limits.maxDeliveredEventEntries, (e: DeliveredRecord) => e.deliveredAt),
        pendingWebhookEvents := Prune(cp.pendingWebhookEvents, limits.maxPendingWebhookEntries, (e: PendingRecord) => e.lastFailedAt))
  }

  predicate WithinLimits(cp: Snapshot, limits: Limits) {
    && (limits.maxHistory > 0 ==> |cp.history| <= limits.maxHistory)
    && |cp.resultCache| <= limits.maxResultCacheEntries
    && |cp.deliveredEvents| <= limits.maxDeliveredEventEntries
    && |cp.pendingWebhookEvents| <= limits.maxPendingWebhookEntries
  }

  lemma TrimmedWithinLimits(cp: Snapshot, limits: Limits, now: int)
    ensures WithinLimits(Trimmed(cp, limits, now), limits)
  {
    PruneKeepsLatest(cp.resultCache, limits.maxResultCacheEntries, (e: CachedAudit) => e.createdAt);
    PruneKeepsLatest(cp.deliveredEvents, limits.maxDeliveredEventEntries, (e: DeliveredRecord) => e.deliveredAt);
    PruneKeepsLatest(cp.pendingWebhookEvents, limits.maxPendingWebhookEntries, (e: PendingRecord) => e.lastFailedAt);
  }

  /** What a save drops is never newer than what it keeps, and nothing is dropped without need. */
  lemma TrimmedKeepsLatest(cp: Snapshot, limits: Limits, now: int)
    ensures var t := Trimmed(cp, limits, now);
      && t.updatedAt == now && t.chainId == cp.chainId && t.lastProcessedBlock == cp.lastProcessedBlock
      && t.history == cp.history[|cp.history| - |t.history|..]
      && multiset(t.resultCache) <= multiset(cp.resultCache)
      && multiset(t.deliveredEvents) <= multiset(cp.deliveredEvents)
      && multiset(t.pendingWebhookEvents) <= multiset(cp.pendingWebhookEvents)
      && (t.history != cp.history ==> |t.history| == limits.maxHistory > 0)
      && (t.resultCache != cp.resultCache ==> |t.resultCache| == limits.maxResultCacheEntries)
      && (t.deliveredEvents != cp.deliveredEvents ==> |t.deliveredEvents| == limits.maxDeliveredEventEntries)
      && (t.pendingWebhookEvents != cp.pendingWebhookEvents ==>
            |t.pendingWebhookEvents| == limits.maxPendingWebhookEntries)
    ensures var t := Trimmed(cp, limits, now);
      forall kept, dropped ::
        kept in t.resultCache && dropped in multiset(cp.resultCache) - multiset(t.resultCache) ==>
          dropped.1.createdAt <= kept.1.createdAt
    ensures var t := Trimmed(cp, limits, now);
      forall kept, dropped ::
        kept in t.deliveredEvents && dropped in multiset(cp.deliveredEvents) - multiset(t.deliveredEvents) ==>
          dropped.1.deliveredAt <= kept.1.deliveredAt
    ensures var t := Trimmed(cp, limits, now);
      forall kept, dropped ::
        kept in t.pendingWebhookEvents
        && dropped in multiset(cp.pendingWebhookEvents) - multiset(t.pendingWebhookEvents) ==>
          dropped.1.lastFailedAt <= kept.1.lastFailedAt
  {
    PruneKeepsLatest(cp.resultCache, limits.maxResultCacheEntries, (e: CachedAudit) => e.createdAt);
    PruneKeepsLatest(cp.deliveredEvents, limits.maxDeliveredEventEntries, (e: DeliveredRecord) => e.deliveredAt);
    PruneKeepsLatest(cp.pendingWebhookEvents, limits.maxPendingWebhookEntries, (e: PendingRecord) => e.lastFailedAt);
  }

  /** An empty checkpoint ends one block before the first, which is at least block 0. */
  lemma EmptyIs(chainId: int, startBlock: int, now: int)
    ensures var cp := CreateEmpty(chainId, startBlock, now);
      && cp.lastProcessedBlock == (if startBlock > 0 then startBlock - 1 else -1)
      && cp.chainId == chainId && cp.updatedAt == now && cp.history == [] && cp.resultCache == []
      && cp.deliveredEvents == [] && cp.pendingWebhookEvents == []
  {
  }

  /** A rewind goes back to the block, and drops the entries above it and no others. */
  lemma {:induction false} RewindIs(cp: Snapshot, toBlock: int, now: int)
    ensures var r := Rewind(cp, toBlock, now);
      && r == cp.(lastProcessedBlock := toBlock, updatedAt := now, history := r.history)
      && forall e :: e in r.history <==> e in cp.history && e.number <= toBlock
  {
    UpToIs(cp.history, toBlock);
  }

  lemma {:induction false} UpToIs(h: seq<HistoryEntry>, bound: int)
    ensures forall e :: e in UpTo(h, bound) <==> e in h && e.number <= bound
  {
    if h != [] {
      UpToIs(h[..|h|-1], bound);
      assert h == h[..|h|-1] + [h[|h|-1]];
    }
  }

  function Delivered(cp: Snapshot, event: WebhookEvent, now: int): Snapshot {
    cp.(deliveredEvents := Put(cp.deliveredEvents, event.id, DeliveredRecord(now, event.kind)),
        pendingWebhookEvents := Remove(cp.pendingWebhookEvents, event.id))
  }

  function NextPending(cp: Snapshot, event: WebhookEvent, reason: string, now: int): PendingRecord {
    match Find(cp.pendingWebhookEvents, event.id)
    case None => PendingRecord(event, now, now, reason, 1)
    case Some(p) => PendingRecord(event, p.firstFailedAt, now, reason, p.attempts + 1)
  }

  function Pending(cp: Snapshot, event: WebhookEvent, reason: string, now: int): Snapshot {
    cp.(pendingWebhookEvents := Put(cp.pendingWebhookEvents, event.id, NextPending(cp, event, reason, now)))
  }

  /** The checkpoint object that the whole runner shares and edits in place. */
  class RunnerCheckpoint {
    var chainId: int
    var lastProcessedBlock: int
    var updatedAt: int
    var history: seq<HistoryEntry>
    var resultCache: Records<CachedAudit>
    var deliveredEvents: Records<DeliveredRecord>
    var pendingWebhookEvents: Records<PendingRecord>

    function Contents(): Snapshot
      reads this
    {
      Snapshot(chainId, lastProcessedBlock, updatedAt, history, resultCache, deliveredEvents, pendingWebhookEvents)
    }

    constructor (s: Snapshot)
      ensures Contents() == s
    {
      chainId, lastProcessedBlock, updatedAt, history := s.chainId, s.lastProcessedBlock, s.updatedAt, s.history;
      resultCache, deliveredEvents, pendingWebhookEvents := s.resultCache, s.deliveredEvents, s.pendingWebhookEvents;
    }

    /** `Object.assign(checkpoint, s)`. */
    method Assign(s: Snapshot)
      modifies this
      ensures Contents() == s
    {
      chainId, lastProcessedBlock, updatedAt, history := s.chainId, s.lastProcessedBlock, s.updatedAt, s.history;
      resultCache, deliveredEvents, pendingWebhookEvents := s.resultCache, s.deliveredEvents, s.pendingWebhookEvents;
    }

    method MarkEventDelivered(event: WebhookEvent, now: int)
      modifies this
      ensures Contents() == Delivered(old(Contents()), event, now)
      ensures Find(deliveredEvents, event.id).Some? && Find(pendingWebhookEvents, event.id).None?
      ensures forall k :: k != event.id ==> Find(deliveredEvents, k) == old(Find(deliveredEvents, k))
      ensures forall k :: k != event.id ==> Find(pendingWebhookEvents, k) == old(Find(pendingWebhookEvents, k))
    {
      ghost var d, p := deliveredEvents, pendingWebhookEvents;
      deliveredEvents := Put(deliveredEvents, event.id, DeliveredRecord(now, event.kind));
      pendingWebhookEvents := Remove(pendingWebhookEvents, event.id);
      forall k ensures Find(deliveredEvents, k) == if k == event.id then Some(DeliveredRecord(now, event.kind)) else Find(d, k) {
        FindAfterPut(d, event.id, DeliveredRecord(now, event.kind), k);
      }
      forall k ensures Find(pendingWebhookEvents, k) == if k == event.id then None else Find(p, k) {
        FindAfterRemove(p, event.id, k);
      }
    }

    method RecordPendingWebhook(event: WebhookEvent, reason: string, now: int) returns (next: PendingRecord)
      modifies this
      ensures Contents() == Pending(old(Contents()), event, reason, now)
      ensures next == NextPending(old(Contents()), event, reason, now)
      ensures Find(pendingWebhookEvents, event.id) == Some(next)
      ensures forall k :: k != event.id ==> Find(pendingWebhookEvents, k) == old(Find(pendingWebhookEvents, k))
    {
      var previous := Find(pendingWebhookEvents, event.id);
      next := PendingRecord(
        event,
        if previous.Some? then previous.value.firstFailedAt else now,
        now,
        reason,
        (if previous.Some? then previous.value.attempts else 0) + 1);
      ghost var p := pendingWebhookEvents;
      pendingWebhookEvents := Put(pendingWebhookEvents, event.id, next);
      forall k ensures Find(pendingWebhookEvents, k) == if k == event.id then Some(next) else Find(p, k) {
        FindAfterPut(p, event.id, next, k);
      }
    }
  }
}
