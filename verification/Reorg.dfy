/** Following a chain that may reorganise. */
module Reorg {
  // The rewind before each block, whole runs with crashes and reloads, and what
  // the stored history always means.

  import opened Words
  import opened Records
  import opened Checkpoint

  datatype Config = Config(startBlock: int, maxReorgDepth: int, limits: Limits) {
    /** What the configuration loader enforces, as far as it is needed. */
    predicate Valid() {
      startBlock >= 0 && limits.maxHistory >= 1
    }
  }

  /** The canonical chain at one moment, indexed by block number. */
  type Chain = seq<Block>

  // ---- The rewind ----

  function FindNumber(h: seq<HistoryEntry>, n: int): Option<HistoryEntry> {
    if h == [] then None else if h[0].number == n then Some(h[0]) else FindNumber(h[1..], n)
  }

  predicate OnChain(c: Chain, e: HistoryEntry) {
    0 <= e.number < |c| && c[e.number].hash == e.hash
  }

  /** Where to rewind to: the first entry in the list that is on the chain, unless one too deep comes first. */
  function RewindTarget(entries: seq<HistoryEntry>, c: Chain, b: int, maxDepth: int, fallback: int): int {
    if entries == [] || b - entries[0].number > maxDepth then fallback
    else if OnChain(c, entries[0]) then entries[0].number
    else RewindTarget(entries[1..], c, b, maxDepth, fallback)
  }

  function NewestFirst(h: seq<HistoryEntry>): seq<HistoryEntry> {
    SortBy(h, (e: HistoryEntry) => -e.number)
  }

  /** The checkpoint after the check that precedes block `b`; a rewound checkpoint is saved. */
  function ReorgSafe(cp: Snapshot, c: Chain, b: int, cfg: Config, now: int): Snapshot
    requires 0 <= b < |c|
  {
    var previous := FindNumber(cp.history, b - 1);
    if previous.None? || previous.value.hash == c[b].parentHash then cp
    else
      var target := RewindTarget(NewestFirst(cp.history), c, b, cfg.maxReorgDepth, Max(cfg.startBlock - 1, -1));
      Trimmed(Rewind(cp, target, now), cfg.limits, now)
  }

  /** The checkpoint after block `b` of chain `c` has been handled and saved. */
  function BlockDone(cp: Snapshot, c: Chain, b: int, cfg: Config, now: int): Snapshot
    requires 0 <= b < |c|
  {
    Trimmed(UpdateHistory(ReorgSafe(cp, c, b, cfg, now), c[b], cfg.limits.maxHistory, now), cfg.limits, now)
  }

  method EnsureReorgSafeCheckpoint(cp: RunnerCheckpoint, c: Chain, b: int, cfg: Config, now: int)
    requires 0 <= b < |c|
    modifies cp
    ensures cp.Contents() == ReorgSafe(old(cp.Contents()), c, b, cfg, now)
  {
    hide Trimmed, Rewind, NewestFirst;
    var previous := FindNumber(cp.history, b - 1);
    if previous.None? || previous.value.hash == c[b].parentHash {
      return;
    }
    var history := NewestFirst(cp.history);
    var rewindTo := Max(cfg.startBlock - 1, -1);
    var i := 0;
    while i < |history|
      invariant 0 <= i <= |history|
      invariant RewindTarget(history[i..], c, b, cfg.maxReorgDepth, rewindTo)
             == RewindTarget(history, c, b, cfg.maxReorgDepth, rewindTo)
      invariant rewindTo == Max(cfg.startBlock - 1, -1)
    {
      var entry := history[i];
      if b - entry.number > cfg.maxReorgDepth {
        break;
      }
      if OnChain(c, entry) {
        rewindTo := entry.number;
        break;
      }
      assert history[i..][1..] == history[i+1..];
      i := i + 1;
    }
    cp.Assign(Rewind(cp.Contents(), rewindTo, now));
    cp.Assign(Trimmed(cp.Contents(), cfg.limits, now));
  }

  // ---- All blocks there ever are ----

  /** A hash names one block, and a block's parent is one lower. */
  ghost predicate IsUniverse(u: Hash -> Block) {
    forall h :: NamedBlock(u, h)
  }

  ghost predicate NamedBlock(u: Hash -> Block, h: Hash) {
    u(h).hash == h && u(h).number >= 0 && (u(h).number > 0 ==> u(u(h).parentHash).number == u(h).number - 1)
  }

  ghost predicate IsChain(u: Hash -> Block, c: Chain) {
    && (forall n :: 0 <= n < |c| ==> c[n].number == n && u(c[n].hash) == c[n])
    && (forall m, n :: 0 <= m && n == m + 1 && n < |c| ==> c[n].parentHash == c[m].hash)
  }

  /** The ancestor of block `h` at height `n`. */
  ghost function Ancestor(u: Hash -> Block, h: Hash, n: int): Hash
    requires IsUniverse(u) && n >= 0
    decreases u(h).number
  {
    assert NamedBlock(u, h);
    if u(h).number <= n then h else Ancestor(u, u(h).parentHash, n)
  }

  lemma {:induction false} AncestorVia(u: Hash -> Block, h: Hash, m: int, n: int)
    requires IsUniverse(u) && 0 <= n <= m
    ensures Ancestor(u, h, n) == Ancestor(u, Ancestor(u, h, m), n)
    decreases u(h).number
  {
    assert NamedBlock(u, h);
    if u(h).number > m {
      AncestorVia(u, u(h).parentHash, m, n);
    }
  }

  lemma {:induction false} ChainAncestor(u: Hash -> Block, c: Chain, b: int, n: int)
    requires IsUniverse(u) && IsChain(u, c) && 0 <= n <= b < |c|
    ensures Ancestor(u, c[b].hash, n) == c[n].hash
    decreases b
  {
    if n < b {
      ChainAncestor(u, c, b - 1, n);
    }
  }

  // ---- What a history means ----

  /** Real blocks from `start` on, strictly rising, each an ancestor of the next. */
  ghost predicate GoodHistory(u: Hash -> Block, start: int, h: seq<HistoryEntry>)
    requires IsUniverse(u) && start >= 0
  {
    && (forall i :: 0 <= i < |h| ==>
          h[i].number >= start && u(h[i].hash) == Block(h[i].number, h[i].hash, h[i].parentHash))
    && (forall i, j :: 0 <= i && j == i + 1 && j < |h| ==>
          h[i].number < h[j].number && Ancestor(u, h[j].hash, h[i].number) == h[i].hash)
  }

  ghost predicate Good(u: Hash -> Block, start: int, cp: Snapshot)
    requires IsUniverse(u) && start >= 0
  {
    && GoodHistory(u, start, cp.history)
    && cp.lastProcessedBlock >= start - 1
    && (cp.history != [] ==> cp.history[|cp.history|-1].number == cp.lastProcessedBlock)
  }

  ghost predicate AllOnChain(c: Chain, h: seq<HistoryEntry>) {
    forall i :: 0 <= i < |h| ==> OnChain(c, h[i])
  }

  lemma {:induction false} EarlierIsAncestor(u: Hash -> Block, start: int, h: seq<HistoryEntry>, i: nat, j: nat)
    requires IsUniverse(u) && start >= 0 && GoodHistory(u, start, h) && i <= j < |h|
    ensures i < j ==> h[i].number < h[j].number
    ensures Ancestor(u, h[j].hash, h[i].number) == h[i].hash
    decreases j
  {
    if i < j {
      EarlierIsAncestor(u, start, h, i, j - 1);
      AncestorVia(u, h[j].hash, h[j-1].number, h[i].number);
    }
  }

  /** If an entry is on the chain, so are all entries before it. */
  lemma EarlierOnChain(u: Hash -> Block, start: int, h: seq<HistoryEntry>, c: Chain, i: nat, j: nat)
    requires IsUniverse(u) && start >= 0 && GoodHistory(u, start, h) && IsChain(u, c) && i <= j < |h|
    requires OnChain(c, h[j])
    ensures OnChain(c, h[i])
  {
    EarlierIsAncestor(u, start, h, i, j);
    ChainAncestor(u, c, h[j].number, h[i].number);
  }

  lemma SuffixGood(u: Hash -> Block, start: int, h: seq<HistoryEntry>, k: nat)
    requires IsUniverse(u) && start >= 0 && GoodHistory(u, start, h) && k <= |h|
    ensures GoodHistory(u, start, h[k..])
  {
    forall i, j | 0 <= i && j == i + 1 && j < |h[k..]|
      ensures h[k..][i].number < h[k..][j].number && Ancestor(u, h[k..][j].hash, h[k..][i].number) == h[k..][i].hash
    {
      assert h[k + i].number < h[k + j].number;
    }
  }

  ghost predicate Rising(h: seq<HistoryEntry>) {
    forall i, j :: 0 <= i < j < |h| ==> h[i].number < h[j].number
  }

  lemma GoodIsRising(u: Hash -> Block, start: int, h: seq<HistoryEntry>)
    requires IsUniverse(u) && start >= 0 && GoodHistory(u, start, h)
    ensures Rising(h)
  {
    forall i, j | 0 <= i < j < |h| ensures h[i].number < h[j].number {
      EarlierIsAncestor(u, start, h, i, j);
    }
  }

  /** Keeping the entries of a rising history up to a bound keeps a prefix. */
  lemma {:induction false} UpToIsPrefix(h: seq<HistoryEntry>, bound: int) returns (k: nat)
    requires Rising(h)
    ensures k <= |h| && UpTo(h, bound) == h[..k]
    ensures forall i :: 0 <= i < |h| ==> (i < k <==> h[i].number <= bound)
  {
    hide Rising;
    if h == [] {
      k := 0;
    } else {
      var n := |h| - 1;
      var init := h[..n];
      RisingPrefix(h);
      k := UpToIsPrefix(init, bound);
      assert forall i :: 0 <= i < n ==> init[i] == h[i];
      assert k < n ==> init[k].number > bound;
      if h[n].number <= bound {
        assert init + [h[n]] == h;
        k := n + 1;
      } else {
        assert init[..k] == h[..k];
      }
    }
  }

  lemma RisingPrefix(h: seq<HistoryEntry>)
    requires Rising(h) && h != []
    ensures Rising(h[..|h|-1])
    ensures forall i :: 0 <= i < |h| - 1 ==> h[i].number < h[|h|-1].number
  {
  }

  /** Nothing is filtered out of a history that never mentions the number. */
  lemma {:induction false} WithoutAbsent(h: seq<HistoryEntry>, number: int)
    requires forall i :: 0 <= i < |h| ==> h[i].number != number
    ensures Without(h, number) == h
  {
    if h != [] {
      WithoutAbsent(h[..|h|-1], number);
    }
  }

  lemma PrefixGood(u: Hash -> Block, start: int, h: seq<HistoryEntry>, k: nat)
    requires IsUniverse(u) && start >= 0 && GoodHistory(u, start, h) && k <= |h|
    ensures GoodHistory(u, start, h[..k])
  {
    forall i, j | 0 <= i && j == i + 1 && j < k
      ensures h[..k][i].number < h[..k][j].number && Ancestor(u, h[..k][j].hash, h[..k][i].number) == h[..k][i].hash
    {
      assert h[i].number < h[j].number;
    }
  }

  /** The rewind goes to an entry on the chain, or before the first block. */
  lemma {:induction false} TargetOnChain(entries: seq<HistoryEntry>, c: Chain, b: int, maxDepth: int, fallback: int)
    ensures var t := RewindTarget(entries, c, b, maxDepth, fallback);
      t == fallback || exists e :: e in entries && e.number == t && OnChain(c, e) && b - t <= maxDepth
  {
    if entries != [] && !(b - entries[0].number > maxDepth) {
      if OnChain(c, entries[0]) {
        assert entries[0] in entries;
      } else {
        TargetOnChain(entries[1..], c, b, maxDepth, fallback);
      }
    }
  }

  /** It is the newest entry on the chain within the depth limit. */
  lemma {:induction false} TargetIsNewest(
    entries: seq<HistoryEntry>, c: Chain, b: int, maxDepth: int, fallback: int, e: HistoryEntry)
    requires forall i, j :: 0 <= i < j < |entries| ==> entries[i].number >= entries[j].number
    requires e in entries && OnChain(c, e) && b - e.number <= maxDepth
    ensures RewindTarget(entries, c, b, maxDepth, fallback) >= e.number
  {
    var i :| 0 <= i < |entries| && entries[i] == e;
    if !OnChain(c, entries[0]) {
      TargetIsNewest(entries[1..], c, b, maxDepth, fallback, e);
    }
  }

  /** What the rewind keeps: exactly the entries up to the newest one still on the chain within the depth limit. */
  lemma {:induction false} RewindIsRight(u: Hash -> Block, cp: Snapshot, c: Chain, b: int,
      cfg: Config) returns (target: int)
    requires IsUniverse(u) && IsChain(u, c) && 0 <= b < |c| && cfg.Valid() && Good(u, cfg.startBlock, cp)
    ensures target == RewindTarget(NewestFirst(cp.history), c, b, cfg.maxReorgDepth, Max(cfg.startBlock - 1, -1))
    ensures target == cfg.startBlock - 1 || exists e :: e in cp.history && e.number == target && OnChain(c, e)
    ensures forall e :: e in cp.history && OnChain(c, e) && b - e.number <= cfg.maxReorgDepth ==> e.number <= target
  {
    var key := (e: HistoryEntry) => -e.number;
    var s := NewestFirst(cp.history);
    SortByKeeps(cp.history, key);
    SameElements(cp.history, s);
    target := RewindTarget(s, c, b, cfg.maxReorgDepth, Max(cfg.startBlock - 1, -1));
    TargetOnChain(s, c, b, cfg.maxReorgDepth, Max(cfg.startBlock - 1, -1));
    forall e | e in cp.history && OnChain(c, e) && b - e.number <= cfg.maxReorgDepth ensures e.number <= target {
      assert forall i, j :: 0 <= i < j < |s| ==> key(s[i]) <= key(s[j]);
      TargetIsNewest(s, c, b, cfg.maxReorgDepth, Max(cfg.startBlock - 1, -1), e);
    }
  }

  lemma FindNumberSpec(h: seq<HistoryEntry>, n: int)
    ensures FindNumber(h, n).Some? ==> FindNumber(h, n).value in h && FindNumber(h, n).value.number == n
    ensures FindNumber(h, n).None? ==> forall e :: e in h ==> e.number != n
  {
    if h != [] && h[0].number != n {
      FindNumberSpec(h[1..], n);
    }
  }

  lemma TrimmedGood(u: Hash -> Block, start: int, cp: Snapshot, limits: Limits, now: int)
    requires IsUniverse(u) && start >= 0 && Good(u, start, cp)
    ensures Good(u, start, Trimmed(cp, limits, now))
    ensures Trimmed(cp, limits, now).lastProcessedBlock == cp.lastProcessedBlock
    ensures forall c :: AllOnChain(c, cp.history) ==> AllOnChain(c, Trimmed(cp, limits, now).history)
  {
    hide Prune, GoodHistory, AllOnChain;
    var h := SliceLast(cp.history, limits.maxHistory);
    SuffixGood(u, start, cp.history, |cp.history| - |h|);
    forall c | AllOnChain(c, cp.history) ensures AllOnChain(c, h) {
      SuffixOnChain(c, cp.history, |cp.history| - |h|);
    }
  }

  /**
   After the check before block `b`, every entry left is on the chain just
   observed, below `b`.
   */
  lemma {:induction false} ReorgSafeGood(u: Hash -> Block, cp: Snapshot, c: Chain, b: int, cfg: Config, now: int)
    requires IsUniverse(u) && IsChain(u, c) && 0 <= b < |c| && cfg.Valid()
    requires Good(u, cfg.startBlock, cp) && cp.lastProcessedBlock == b - 1
    ensures Good(u, cfg.startBlock, ReorgSafe(cp, c, b, cfg, now))
    ensures ReorgSafe(cp, c, b, cfg, now).lastProcessedBlock <= b - 1
    ensures AllOnChain(c, ReorgSafe(cp, c, b, cfg, now).history)
  {
    hide Trimmed, NamedBlock, Ancestor, RewindTarget, NewestFirst, FindNumber, AllOnChain, IsChain, GoodHistory;
    var previous := FindNumber(cp.history, b - 1);
    if previous.None? || previous.value.hash == c[b].parentHash {
      NoReorgGood(u, cp, c, b, cfg);
    } else {
      var target := RewindIsRight(u, cp, c, b, cfg);
      RewindGood(u, cp, c, b, cfg, target, now);
      TrimmedGood(u, cfg.startBlock, Rewind(cp, target, now), cfg.limits, now);
    }
  }

  /** Without a reorganisation the whole history is on the observed chain already. */
  lemma NoReorgGood(u: Hash -> Block, cp: Snapshot, c: Chain, b: int, cfg: Config)
    requires IsUniverse(u) && IsChain(u, c) && 0 <= b < |c| && cfg.Valid()
    requires Good(u, cfg.startBlock, cp) && cp.lastProcessedBlock == b - 1
    requires var previous := FindNumber(cp.history, b - 1); previous.None? || previous.value.hash == c[b].parentHash
    ensures AllOnChain(c, cp.history)
  {
    hide NamedBlock, Ancestor, FindNumber;
    var h := cp.history;
    FindNumberSpec(h, b - 1);
    if h != [] {
      assert h[|h|-1] in h;
      var previous := FindNumber(h, b - 1);
      var k :| 0 <= k < |h| && h[k] == previous.value;
      assert c[b].parentHash == c[b-1].hash;
      if k < |h| - 1 {
        EarlierIsAncestor(u, cfg.startBlock, h, k, |h| - 1);
      }
      AllEarlierOnChain(u, cfg.startBlock, h, c, |h| - 1);
    }
  }

  lemma AllEarlierOnChain(u: Hash -> Block, start: int, h: seq<HistoryEntry>, c: Chain, j: nat)
    requires IsUniverse(u) && start >= 0 && GoodHistory(u, start, h) && IsChain(u, c) && j < |h| && OnChain(c, h[j])
    ensures forall i :: 0 <= i <= j ==> OnChain(c, h[i])
  {
    forall i | 0 <= i <= j ensures OnChain(c, h[i]) {
      EarlierOnChain(u, start, h, c, i, j);
    }
  }

  lemma {:induction false} RewindGood(u: Hash -> Block, cp: Snapshot, c: Chain, b: int, cfg: Config,
      target: int, now: int)
    requires IsUniverse(u) && IsChain(u, c) && 0 <= b < |c| && cfg.Valid()
    requires Good(u, cfg.startBlock, cp) && cp.lastProcessedBlock == b - 1 && b >= cfg.startBlock
    requires target == cfg.startBlock - 1 || exists e :: e in cp.history && e.number == target && OnChain(c, e)
    ensures Good(u, cfg.startBlock, Rewind(cp, target, now)) && AllOnChain(c, Rewind(cp, target, now).history)
    ensures target <= b - 1
  {
    hide Ancestor, UpTo, IsChain, NamedBlock;
    var h := cp.history;
    GoodIsRising(u, cfg.startBlock, h);
    var k := UpToIsPrefix(h, target);
    PrefixGood(u, cfg.startBlock, h, k);
    if target != cfg.startBlock - 1 {
      var e :| e in h && e.number == target && OnChain(c, e);
      var m :| 0 <= m < |h| && h[m] == e;
      assert k > m;
      if k > m + 1 {
        EarlierIsAncestor(u, cfg.startBlock, h, m, k - 1);
      }
      AllEarlierOnChain(u, cfg.startBlock, h, c, m);
      EarlierIsAncestor(u, cfg.startBlock, h, m, |h| - 1);
    }
  }

  /** Adding the block just handled keeps the history good, and wholly on the observed chain. */
  lemma {:induction false} UpdateHistoryGood(u: Hash -> Block, cp: Snapshot, c: Chain, b: int, cfg: Config, now: int)
    requires IsUniverse(u) && IsChain(u, c) && cfg.Valid() && cfg.startBlock <= b < |c|
    requires Good(u, cfg.startBlock, cp) && cp.lastProcessedBlock <= b - 1 && AllOnChain(c, cp.history)
    ensures var after := UpdateHistory(cp, c[b], cfg.limits.maxHistory, now);
      Good(u, cfg.startBlock, after) && after.lastProcessedBlock == b && AllOnChain(c, after.history)
  {
    assert c[b].number == b;
    hide NamedBlock, Without, Ancestor, AllOnChain, IsChain, GoodHistory;
    var h := cp.history;
    GoodIsRising(u, cfg.startBlock, h);
    WithoutAbsent(h, b);
    var entry := HistoryEntry(c[b].number, c[b].hash, c[b].parentHash, now);
    var longer := h + [entry];
    AppendGood(u, cfg.startBlock, h, c, b, entry);
    var after := SliceLast(longer, cfg.limits.maxHistory);
    SuffixGood(u, cfg.startBlock, longer, |longer| - |after|);
    SuffixOnChain(c, longer, |longer| - |after|);
    assert after[|after|-1] == entry;
  }

  lemma SuffixOnChain(c: Chain, h: seq<HistoryEntry>, k: nat)
    requires AllOnChain(c, h) && k <= |h|
    ensures AllOnChain(c, h[k..])
  {
  }

  /** A block of the observed chain may follow a history that lies on that chain below it. */
  lemma AppendGood(u: Hash -> Block, start: int, h: seq<HistoryEntry>, c: Chain, b: int, entry: HistoryEntry)
    requires IsUniverse(u) && IsChain(u, c) && 0 <= start <= b < |c| && GoodHistory(u, start, h) && AllOnChain(c, h)
    requires h != [] ==> h[|h|-1].number < b
    requires entry.number == b && entry.hash == c[b].hash && entry.parentHash == c[b].parentHash
    ensures GoodHistory(u, start, h + [entry]) && AllOnChain(c, h + [entry])
  {
    hide Ancestor, NamedBlock;
    var n := |h|;
    var longer := h + [entry];
    if n > 0 {
      ChainAncestor(u, c, b, h[n-1].number);
    }
    forall i, j | 0 <= i && j == i + 1 && j < |longer|
      ensures longer[i].number < longer[j].number && Ancestor(u, longer[j].hash, longer[i].number) == longer[i].hash
    {
      if j < n { assert h[i].number < h[j].number; }
    }
  }

  // ---- A range of blocks ----

  /** The checkpoint after the blocks `from ..`, where `chains[k]` is the chain seen while block `from + k` is handled. */
  function RangeDone(cp: Snapshot, from: int, chains: seq<Chain>, cfg: Config, now: int): Snapshot
    requires from >= 0 && forall k :: 0 <= k < |chains| ==> from + k < |chains[k]|
  {
    if chains == [] then cp
    else
      var n := |chains| - 1;
      BlockDone(RangeDone(cp, from, chains[..n], cfg, now), chains[n], from + n, cfg, now)
  }

  /** The range starts right behind a good checkpoint, and each block is fetched from some chain. */
  ghost predicate RangeReady(u: Hash -> Block, cp: Snapshot, from: int, chains: seq<Chain>, cfg: Config)
    requires IsUniverse(u)
  {
    && cfg.Valid() && Good(u, cfg.startBlock, cp) && cp.lastProcessedBlock == from - 1
    && forall k :: 0 <= k < |chains| ==> IsChain(u, chains[k]) && from + k < |chains[k]|
  }

  /** A good checkpoint that ends at the last block of the range and lies on the chain seen last. */
  ghost predicate RangeHandled(u: Hash -> Block, after: Snapshot, from: int, chains: seq<Chain>, cfg: Config)
    requires IsUniverse(u) && cfg.Valid()
  {
    && Good(u, cfg.startBlock, after) && after.lastProcessedBlock == from + |chains| - 1
    && (chains != [] ==> after.history != [] && AllOnChain(chains[|chains|-1], after.history))
  }

  lemma {:induction false} RangeDoneGood(
    u: Hash -> Block, cp: Snapshot, from: int, chains: seq<Chain>, cfg: Config, now: int)
    requires IsUniverse(u) && from >= 0 && RangeReady(u, cp, from, chains, cfg)
    ensures RangeHandled(u, RangeDone(cp, from, chains, cfg, now), from, chains, cfg)
  {
    hide Good, IsChain, AllOnChain, ReorgSafe, UpdateHistory, Trimmed, IsUniverse;
    if chains != [] {
      var n := |chains| - 1;
      RangeDoneGood(u, cp, from, chains[..n], cfg, now);
      var before := RangeDone(cp, from, chains[..n], cfg, now);
      StartsInRange(u, cp, from, cfg);
      ReorgSafeGood(u, before, chains[n], from + n, cfg, now);
      var safe := ReorgSafe(before, chains[n], from + n, cfg, now);
      UpdateHistoryGood(u, safe, chains[n], from + n, cfg, now);
      TrimmedGood(u, cfg.startBlock, UpdateHistory(safe, chains[n][from + n], cfg.limits.maxHistory, now), cfg.limits, now);
      DoneNotEmpty(before, chains[n], from + n, cfg, now);
    }
  }

  lemma DoneNotEmpty(cp: Snapshot, c: Chain, b: int, cfg: Config, now: int)
    requires cfg.Valid() && 0 <= b < |c|
    ensures BlockDone(cp, c, b, cfg, now).history != []
  {
    hide ReorgSafe, Without, Prune;
  }

  lemma StartsInRange(u: Hash -> Block, cp: Snapshot, from: int, cfg: Config)
    requires IsUniverse(u) && cfg.Valid() && Good(u, cfg.startBlock, cp) && cp.lastProcessedBlock == from - 1
    ensures cfg.startBlock <= from
  {
  }

  /** For every universe of blocks `u`: a good checkpoint stays good and ends on the chain seen last. */
  method ProcessRange(cp: RunnerCheckpoint, from: int, chains: seq<Chain>, cfg: Config, now: int, ghost u: Hash -> Block)
    requires from >= 0 && forall k :: 0 <= k < |chains| ==> from + k < |chains[k]|
    modifies cp
    ensures cp.Contents() == RangeDone(old(cp.Contents()), from, chains, cfg, now)
    ensures IsUniverse(u) && RangeReady(u, old(cp.Contents()), from, chains, cfg) ==>
      RangeHandled(u, cp.Contents(), from, chains, cfg)
  {
    hide Trimmed, ReorgSafe, UpdateHistory, RangeReady, RangeHandled, IsUniverse;
    for k := 0 to |chains|
      invariant cp.Contents() == RangeDone(old(cp.Contents()), from, chains[..k], cfg, now)
    {
      assert chains[..k+1][..k] == chains[..k];
      EnsureReorgSafeCheckpoint(cp, chains[k], from + k, cfg, now);
      cp.Assign(UpdateHistory(cp.Contents(), chains[k][from + k], cfg.limits.maxHistory, now));
      cp.Assign(Trimmed(cp.Contents(), cfg.limits, now));
    }
    assert chains[..|chains|] == chains;
    if IsUniverse(u) && RangeReady(u, old(cp.Contents()), from, chains, cfg) {
      RangeDoneGood(u, old(cp.Contents()), from, chains, cfg, now);
    }
  }

  ghost predicate HasNumber(h: seq<HistoryEntry>, n: int) {
    exists i :: 0 <= i < |h| && h[i].number == n
  }

  /**
   The block before `b` is missing from the history after block `b` exactly
   when a reorganisation was detected: the rewound blocks are not scanned
   again.
   */
  lemma {:induction false} GapIffReorg(u: Hash -> Block, cp: Snapshot, c: Chain, b: int, cfg: Config, now: int)
    requires IsUniverse(u) && IsChain(u, c) && cfg.Valid() && cfg.limits.maxHistory >= 2 && 0 <= b < |c|
    requires Good(u, cfg.startBlock, cp) && cp.lastProcessedBlock == b - 1 && cp.history != []
    ensures HasNumber(BlockDone(cp, c, b, cfg, now).history, b - 1)
      <==> cp.history[|cp.history|-1].hash == c[b].parentHash
  {
    hide Trimmed, Ancestor, NamedBlock, RewindTarget, NewestFirst, UpdateHistory;
    PreviousIsLast(u, cfg.startBlock, cp.history, b - 1);
    var safe := ReorgSafe(cp, c, b, cfg, now);
    ReorgSafeGood(u, cp, c, b, cfg, now);
    if cp.history[|cp.history|-1].hash == c[b].parentHash {
      KeepsPrevious(cp, c[b], cfg, now);
    } else {
      var target := RewindIsRight(u, cp, c, b, cfg);
      TargetBelowPrevious(u, cp, c, b, cfg, target);
      TrimmedGood(u, cfg.startBlock, Rewind(cp, target, now), cfg.limits, now);
      NoPreviousAfter(u, cfg, safe, c, b, now);
    }
  }

  lemma TargetBelowPrevious(u: Hash -> Block, cp: Snapshot, c: Chain, b: int, cfg: Config, target: int)
    requires IsUniverse(u) && IsChain(u, c) && cfg.Valid() && 0 <= b < |c|
    requires Good(u, cfg.startBlock, cp) && cp.lastProcessedBlock == b - 1 && cp.history != []
    requires cp.history[|cp.history|-1].hash != c[b].parentHash
    requires target == cfg.startBlock - 1 || exists e :: e in cp.history && e.number == target && OnChain(c, e)
    ensures target < b - 1 && Good(u, cfg.startBlock, Rewind(cp, target, 0))
    ensures forall now :: Good(u, cfg.startBlock, Rewind(cp, target, now))
  {
    RewindGood(u, cp, c, b, cfg, target, 0);
    if target == b - 1 {
      if e :| e in cp.history && e.number == target && OnChain(c, e) {
        PreviousIsUnique(u, cfg.startBlock, cp.history, e);
      }
    }
    forall now ensures Good(u, cfg.startBlock, Rewind(cp, target, now)) {
      RewindGood(u, cp, c, b, cfg, target, now);
    }
  }

  /** Nothing numbered `b - 1` appears when block `b` follows an older block. */
  lemma NoPreviousAfter(u: Hash -> Block, cfg: Config, safe: Snapshot, c: Chain, b: int, now: int)
    requires IsUniverse(u) && IsChain(u, c) && cfg.Valid() && cfg.startBlock <= b < |c|
    requires Good(u, cfg.startBlock, safe) && AllOnChain(c, safe.history) && safe.lastProcessedBlock < b - 1
    ensures !HasNumber(Trimmed(UpdateHistory(safe, c[b], cfg.limits.maxHistory, now), cfg.limits, now).history, b - 1)
  {
    NumberOnChain(u, c, b);
    GoodIsRising(u, cfg.startBlock, safe.history);
    NoneAfterAppend(safe, c[b], cfg, now);
  }

  lemma NoneAfterAppend(safe: Snapshot, block: Block, cfg: Config, now: int)
    requires Rising(safe.history)
    requires safe.history != [] ==> safe.history[|safe.history|-1].number < block.number - 1
    ensures !HasNumber(
      Trimmed(UpdateHistory(safe, block, cfg.limits.maxHistory, now), cfg.limits, now).history, block.number - 1)
  {
    hide Prune, Without, SliceLast, HasNumber;
    var h := safe.history;
    AbsentAbove(h, block.number);
    WithoutAbsent(h, block.number);
    var longer := h + [HistoryEntry(block.number, block.hash, block.parentHash, now)];
    AbsentAfterAppend(h, longer[|h|], block.number - 1);
    AbsentInSlice(longer, cfg.limits.maxHistory, block.number - 1);
    AbsentInSlice(SliceLast(longer, cfg.limits.maxHistory), cfg.limits.maxHistory, block.number - 1);
  }

  lemma AbsentAbove(h: seq<HistoryEntry>, n: int)
    requires Rising(h) && (h != [] ==> h[|h|-1].number < n - 1)
    ensures !HasNumber(h, n - 1) && forall i :: 0 <= i < |h| ==> h[i].number != n
  {
  }

  lemma AbsentAfterAppend(h: seq<HistoryEntry>, e: HistoryEntry, n: int)
    requires !HasNumber(h, n) && e.number != n
    ensures !HasNumber(h + [e], n)
  {
  }

  lemma AbsentInSlice(h: seq<HistoryEntry>, k: nat, n: int)
    requires !HasNumber(h, n)
    ensures !HasNumber(SliceLast(h, k), n)
  {
  }

  lemma PreviousIsUnique(u: Hash -> Block, start: int, h: seq<HistoryEntry>, e: HistoryEntry)
    requires IsUniverse(u) && start >= 0 && GoodHistory(u, start, h) && e in h && e.number == h[|h|-1].number
    ensures e == h[|h|-1]
  {
    var k :| 0 <= k < |h| && h[k] == e;
    EarlierIsAncestor(u, start, h, k, |h| - 1);
  }

  lemma PreviousIsLast(u: Hash -> Block, start: int, h: seq<HistoryEntry>, n: int)
    requires IsUniverse(u) && start >= 0 && GoodHistory(u, start, h) && h != [] && h[|h|-1].number == n
    ensures FindNumber(h, n) == Some(h[|h|-1])
  {
    FindNumberSpec(h, n);
    assert h[|h|-1] in h;
    PreviousIsUnique(u, start, h, FindNumber(h, n).value);
  }

  lemma KeepsPrevious(cp: Snapshot, block: Block, cfg: Config, now: int)
    requires cfg.limits.maxHistory >= 2 && cp.history != []
    requires cp.history[|cp.history|-1].number == block.number - 1
    ensures HasNumber(Trimmed(UpdateHistory(cp, block, cfg.limits.maxHistory, now), cfg.limits, now).history, block.number - 1)
  {
    hide Prune, Without;
    var h := cp.history;
    WithoutKeepsLast(h, block.number);
    var longer := Without(h, block.number) + [HistoryEntry(block.number, block.hash, block.parentHash, now)];
    var r := SliceLast(longer, cfg.limits.maxHistory);
    assert |r| >= 2 && r[|r|-2] == longer[|longer|-2] == h[|h|-1];
    assert SliceLast(r, cfg.limits.maxHistory) == r;
  }

  lemma WithoutKeepsLast(h: seq<HistoryEntry>, number: int)
    requires h != [] && h[|h|-1].number != number
    ensures var r := Without(h, number); r != [] && r[|r|-1] == h[|h|-1]
  {
  }

  // ---- The blocks a range keeps ----

  /** The block fetched for `from + k` is a child of the block handled before it. */
  predicate Follows(cp: Snapshot, from: int, chains: seq<Chain>, k: nat)
    requires from >= 0 && k < |chains| && forall i :: 0 <= i < |chains| ==> from + i < |chains[i]|
  {
    if k > 0 then chains[k-1][from + k - 1].hash == chains[k][from + k].parentHash
    else cp.history != [] ==> cp.history[|cp.history|-1].hash == chains[0][from].parentHash
  }

  /** The history has every number from the block before the range, if it had one, up to `last`. */
  ghost predicate NoneMissing(cp: Snapshot, from: int, last: int, h: seq<HistoryEntry>) {
    forall n :: from - 1 <= n <= last && (n >= from || cp.history != []) ==> HasNumber(h, n)
  }

  /** A block that is missing stays missing. */
  lemma MissingStays(cp: Snapshot, c: Chain, b: int, cfg: Config, now: int, n: int)
    requires 0 <= b < |c| && c[b].number == b && n != b && !HasNumber(cp.history, n)
    ensures !HasNumber(BlockDone(cp, c, b, cfg, now).history, n)
  {
    hide Prune, HasNumber, SliceLast, Without, UpTo, RewindTarget, NewestFirst;
    var previous := FindNumber(cp.history, b - 1);
    var safe := ReorgSafe(cp, c, b, cfg, now);
    assert !HasNumber(safe.history, n) by {
      if previous.Some? && previous.value.hash != c[b].parentHash {
        var target := RewindTarget(NewestFirst(cp.history), c, b, cfg.maxReorgDepth, Max(cfg.startBlock - 1, -1));
        AbsentUpTo(cp.history, target, n);
        AbsentInSlice(UpTo(cp.history, target), cfg.limits.maxHistory, n);
      }
    }
    AbsentWithout(safe.history, b, n);
    var entry := HistoryEntry(c[b].number, c[b].hash, c[b].parentHash, now);
    AbsentAfterAppend(Without(safe.history, b), entry, n);
    var longer := Without(safe.history, b) + [entry];
    AbsentInSlice(longer, cfg.limits.maxHistory, n);
    AbsentInSlice(SliceLast(longer, cfg.limits.maxHistory), cfg.limits.maxHistory, n);
  }

  lemma {:induction false} AbsentUpTo(h: seq<HistoryEntry>, bound: int, n: int)
    requires !HasNumber(h, n)
    ensures !HasNumber(UpTo(h, bound), n)
  {
    if h != [] {
      AbsentInSlice(h[..|h|-1], 0, n) by { AbsentInPrefix(h, n); }
      AbsentUpTo(h[..|h|-1], bound, n);
    }
  }

  lemma {:induction false} AbsentWithout(h: seq<HistoryEntry>, number: int, n: int)
    requires !HasNumber(h, n)
    ensures !HasNumber(Without(h, number), n)
  {
    if h != [] {
      AbsentInPrefix(h, n);
      AbsentWithout(h[..|h|-1], number, n);
    }
  }

  lemma AbsentInPrefix(h: seq<HistoryEntry>, n: int)
    requires h != [] && !HasNumber(h, n)
    ensures !HasNumber(h[..|h|-1], n)
  {
    var init := h[..|h|-1];
    forall i | 0 <= i < |init| ensures init[i].number != n {
      assert h[i] == init[i];
    }
  }

  /** In a rising history the numbers fall at least one per entry. */
  lemma {:induction false} AtMostSoFar(h: seq<HistoryEntry>, i: nat)
    requires Rising(h) && i < |h|
    ensures h[|h|-1].number - h[i].number >= |h| - 1 - i
    decreases |h| - i
  {
    if i < |h| - 1 {
      AtMostSoFar(h, i + 1);
    }
  }

  /** Handling a block that follows keeps the recent ones. */
  lemma RecentKept(u: Hash -> Block, cp: Snapshot, c: Chain, b: int, cfg: Config, now: int, n: int)
    requires IsUniverse(u) && IsChain(u, c) && cfg.Valid() && 0 <= b < |c|
    requires Good(u, cfg.startBlock, cp) && cp.lastProcessedBlock == b - 1 && HasNumber(cp.history, n)
    requires cp.history != [] && cp.history[|cp.history|-1].hash == c[b].parentHash
    requires b - n < cfg.limits.maxHistory
    ensures HasNumber(BlockDone(cp, c, b, cfg, now).history, n)
  {
    hide UpdateHistory, Trimmed, Good, GoodHistory, FindNumber, IsUniverse, IsChain, HasNumber;
    GoodEnds(u, cp, cfg);
    PreviousIsLast(u, cfg.startBlock, cp.history, b - 1);
    GoodIsRising(u, cfg.startBlock, cp.history);
    NumberOnChain(u, c, b);
    AppendKeeps(cp, c[b], cfg, now, n);
  }

  lemma GoodEnds(u: Hash -> Block, cp: Snapshot, cfg: Config)
    requires IsUniverse(u) && cfg.Valid() && Good(u, cfg.startBlock, cp)
    ensures GoodHistory(u, cfg.startBlock, cp.history)
    ensures cp.history != [] ==> cp.history[|cp.history|-1].number == cp.lastProcessedBlock
  {
  }

  lemma AppendKeeps(cp: Snapshot, block: Block, cfg: Config, now: int, n: int)
    requires Rising(cp.history) && HasNumber(cp.history, n) && block.number - n < cfg.limits.maxHistory
    requires cp.history != [] && cp.history[|cp.history|-1].number == block.number - 1
    ensures HasNumber(Trimmed(UpdateHistory(cp, block, cfg.limits.maxHistory, now), cfg.limits, now).history, n)
  {
    hide Prune, Without, SliceLast;
    var h := cp.history;
    WithoutAbsent(h, block.number);
    var i :| 0 <= i < |h| && h[i].number == n;
    AtMostSoFar(h, i);
    KeptInSlice(h, HistoryEntry(block.number, block.hash, block.parentHash, now), cfg.limits.maxHistory, i);
  }

  lemma KeptInSlice(h: seq<HistoryEntry>, e: HistoryEntry, m: nat, i: nat)
    requires i < |h| && |h| - i < m
    ensures HasNumber(SliceLast(SliceLast(h + [e], m), m), h[i].number)
  {
    var longer := h + [e];
    var r := SliceLast(longer, m);
    assert SliceLast(r, m) == r;
    assert r[i - (|longer| - |r|)] == longer[i] == h[i];
  }

  /** What handling the next block does to one number: the block before is kept if it is the parent. */
  lemma NextInRange(u: Hash -> Block, cp: Snapshot, c: Chain, b: int, cfg: Config, now: int, n: int)
    requires IsUniverse(u) && IsChain(u, c) && cfg.Valid() && cfg.limits.maxHistory >= 2 && 0 <= b < |c|
    requires Good(u, cfg.startBlock, cp) && cp.lastProcessedBlock == b - 1 && cp.history != []
    requires b - cfg.limits.maxHistory < n < b
    ensures var follows := cp.history[|cp.history|-1].hash == c[b].parentHash;
      var after := BlockDone(cp, c, b, cfg, now).history;
      && (n == b - 1 ==> (HasNumber(after, n) <==> follows))
      && (HasNumber(after, n) ==> HasNumber(cp.history, n))
      && (follows && HasNumber(cp.history, n) ==> HasNumber(after, n))
  {
    hide BlockDone, HasNumber, Good, IsChain, IsUniverse;
    GapIffReorg(u, cp, c, b, cfg, now);
    NumberOnChain(u, c, b);
    if !HasNumber(cp.history, n) {
      MissingStays(cp, c, b, cfg, now, n);
    } else if cp.history[|cp.history|-1].hash == c[b].parentHash {
      RecentKept(u, cp, c, b, cfg, now, n);
    }
  }

  /** The last entry before a block of the range is the block handled before it. */
  lemma LastBefore(u: Hash -> Block, cp: Snapshot, before: Snapshot, from: int, chains: seq<Chain>, cfg: Config)
    requires IsUniverse(u) && from >= 0 && RangeReady(u, cp, from, chains, cfg)
    requires |chains| > 1 || (|chains| == 1 && cp.history != [])
    requires RangeHandled(u, before, from, chains[..|chains|-1], cfg) && (|chains| == 1 ==> before == cp)
    ensures var n, h := |chains| - 1, before.history;
      h != [] && (h[|h|-1].hash == chains[n][from + n].parentHash <==> Follows(cp, from, chains, n))
  {
    hide IsChain, GoodHistory, IsUniverse;
    var n, h := |chains| - 1, before.history;
    if n > 0 {
      assert OnChain(chains[..n][n-1], h[|h|-1]);
    }
  }

  /**
   With room for the whole range, its history has every block number from the
   one before it on exactly when no block of the range revealed a
   reorganisation.
   */
  lemma {:induction false} RangeGapIff(
    u: Hash -> Block, cp: Snapshot, from: int, chains: seq<Chain>, cfg: Config, now: int)
    requires IsUniverse(u) && from >= 0 && RangeReady(u, cp, from, chains, cfg)
    requires cfg.limits.maxHistory > |chains|
    ensures NoneMissing(cp, from, from + |chains| - 2, RangeDone(cp, from, chains, cfg, now).history)
      <==> forall k :: 0 <= k < |chains| ==> Follows(cp, from, chains, k)
  {
    hide IsChain, Good, BlockDone, HasNumber, IsUniverse, AllOnChain;
    if chains != [] {
      var n := |chains| - 1;
      var init := chains[..n];
      RangeGapIff(u, cp, from, init, cfg, now);
      assert forall k :: 0 <= k < n ==> (Follows(cp, from, init, k) <==> Follows(cp, from, chains, k));
      RangeDoneGood(u, cp, from, init, cfg, now);
      if n > 0 || cp.history != [] {
        RangeGapStep(u, cp, from, chains, cfg, now);
      } else {
        assert RangeDone(cp, from, init, cfg, now) == cp;
      }
    }
  }

  lemma RangeGapStep(u: Hash -> Block, cp: Snapshot, from: int, chains: seq<Chain>, cfg: Config, now: int)
    requires IsUniverse(u) && from >= 0 && RangeReady(u, cp, from, chains, cfg) && cfg.limits.maxHistory > |chains|
    requires |chains| > 1 || (|chains| == 1 && cp.history != [])
    ensures var last := from + |chains| - 2;
      NoneMissing(cp, from, last, RangeDone(cp, from, chains, cfg, now).history)
      <==> NoneMissing(cp, from, last - 1, RangeDone(cp, from, chains[..|chains|-1], cfg, now).history)
           && Follows(cp, from, chains, |chains| - 1)
  {
    hide IsChain, Good, BlockDone, HasNumber, IsUniverse, AllOnChain, Follows;
    var n := |chains| - 1;
    RangeDoneGood(u, cp, from, chains[..n], cfg, now);
    var before := RangeDone(cp, from, chains[..n], cfg, now);
    LastBefore(u, cp, before, from, chains, cfg);
    var after := RangeDone(cp, from, chains, cfg, now).history;
    forall x | from - 1 <= x < from + n
      ensures x == from + n - 1 ==> (HasNumber(after, x) <==> Follows(cp, from, chains, n))
      ensures HasNumber(after, x) ==> HasNumber(before.history, x)
      ensures Follows(cp, from, chains, n) && HasNumber(before.history, x) ==> HasNumber(after, x)
    {
      NextInRange(u, before, chains[n], from + n, cfg, now, x);
    }
    assert HasNumber(after, from + n - 1) <==> Follows(cp, from, chains, n);
  }

  // ---- Whole runs, with crashes ----

  datatype Phase =
    | Idle
    | Ranging(next: int, to: int)
    | Checked(next: int, to: int, chain: Chain)
    | Down

  /**
   The process and its checkpoint file. `seen` is the chain observed for the
   last block, and `scanned` the blocks handled since the process started.
   */
  datatype Node = Node(
    mem: Snapshot, disk: Option<Snapshot>, phase: Phase, seen: Option<Chain>, scanned: seq<Block>)

  ghost predicate Init(s: Node) {
    s.disk.None? && s.phase.Down? && s.seen.None? && s.scanned == []
  }

  /** Start, or start again after a crash: the file if there is one, an empty checkpoint if not. */
  ghost predicate Start(cfg: Config, s: Node, t: Node) {
    && s.phase.Down? && t.phase.Idle? && t.seen.None? && t.scanned == [] && t.disk == s.disk
    && if s.disk.Some? then t.mem == s.disk.value
       else exists chainId, now :: t.mem == CreateEmpty(chainId, cfg.startBlock, now)
  }

  ghost predicate Poll(s: Node, t: Node) {
    && s.phase.Idle?
    && t.phase.Ranging? && t.phase.to > s.mem.lastProcessedBlock
    && t == s.(phase := Ranging(s.mem.lastProcessedBlock + 1, t.phase.to))
  }

  /** Fetch the next block and check for a reorganisation, on any chain at all. */
  ghost predicate Check(u: Hash -> Block, cfg: Config, s: Node, t: Node) {
    && s.phase.Ranging? && 0 <= s.phase.next <= s.phase.to
    && exists c: Chain, now :: IsChain(u, c) && s.phase.next < |c|
         && t == s.(mem := ReorgSafe(s.mem, c, s.phase.next, cfg, now),
                    phase := Checked(s.phase.next, s.phase.to, c), seen := Some(c))
  }

  /** Deployments of the block edit the records, never the history. */
  ghost predicate Edit(s: Node, t: Node) {
    && s.phase.Checked?
    && t == s.(mem := t.mem)
    && t.mem.history == s.mem.history && t.mem.lastProcessedBlock == s.mem.lastProcessedBlock
  }

  /** A save trims the checkpoint; its write may fail. */
  ghost predicate Save(cfg: Config, s: Node, t: Node) {
    !s.phase.Down? && exists now :: SaveAt(cfg, s, t, now)
  }

  ghost predicate SaveAt(cfg: Config, s: Node, t: Node, now: int) {
    && t.mem == Trimmed(s.mem, cfg.limits, now)
    && (t == s.(mem := t.mem, disk := Some(t.mem)) || t == s.(mem := t.mem))
  }

  /** The node after block `b` of chain `c` entered the history at time `now`. */
  ghost function Finished(cfg: Config, s: Node, c: Chain, b: int, to: int, now: int): Node
    requires 0 <= b < |c|
  {
    Node(UpdateHistory(s.mem, c[b], cfg.limits.maxHistory, now), s.disk,
         if b + 1 <= to then Ranging(b + 1, to) else Idle, s.seen, s.scanned + [c[b]])
  }

  ghost predicate Finish(cfg: Config, s: Node, t: Node) {
    && s.phase.Checked? && 0 <= s.phase.next < |s.phase.chain|
    && exists now :: t == Finished(cfg, s, s.phase.chain, s.phase.next, s.phase.to, now)
  }

  /** The process can die at any moment. */
  ghost predicate Crash(s: Node, t: Node) {
    t == s.(phase := Down, seen := None, scanned := [])
  }

  ghost predicate Next(u: Hash -> Block, cfg: Config, s: Node, t: Node) {
    || Start(cfg, s, t) || Poll(s, t) || Check(u, cfg, s, t) || Edit(s, t)
    || Save(cfg, s, t) || Finish(cfg, s, t) || Crash(s, t)
  }

  ghost predicate IsRun(u: Hash -> Block, cfg: Config, run: seq<Node>) {
    && run != [] && Init(run[0])
    && forall i, j :: 0 <= i && j == i + 1 && j < |run| ==> Next(u, cfg, run[i], run[j])
  }

  /** Blocks handled since the process started, in strictly rising order, all below `bound`. */
  ghost predicate ScannedBelow(scanned: seq<Block>, bound: int) {
    && (forall i, j :: 0 <= i < j < |scanned| ==> scanned[i].number < scanned[j].number)
    && (forall i :: 0 <= i < |scanned| ==> scanned[i].number < bound)
  }

  ghost predicate PhaseInv(u: Hash -> Block, cfg: Config, s: Node) {
    match s.phase
    case Down => s.seen.None? && s.scanned == []
    case Idle => ScannedBelow(s.scanned, s.mem.lastProcessedBlock + 1)
    case Ranging(next, _) => s.mem.lastProcessedBlock == next - 1 && ScannedBelow(s.scanned, next)
    case Checked(next, _, c) =>
      && IsChain(u, c) && cfg.startBlock <= next < |c| && s.seen == Some(c)
      && s.mem.lastProcessedBlock <= next - 1 && ScannedBelow(s.scanned, next)
  }

  /** Holds in every state of every run. */
  ghost predicate Inv(u: Hash -> Block, cfg: Config, s: Node)
    requires IsUniverse(u) && cfg.Valid()
  {
    && (s.disk.Some? ==> Good(u, cfg.startBlock, s.disk.value))
    && (!s.phase.Down? ==> Good(u, cfg.startBlock, s.mem))
    && (s.seen.Some? ==> IsChain(u, s.seen.value) && AllOnChain(s.seen.value, s.mem.history))
    && PhaseInv(u, cfg, s)
  }

  lemma SaveKeepsInv(u: Hash -> Block, cfg: Config, s: Node, t: Node)
    requires IsUniverse(u) && cfg.Valid() && Inv(u, cfg, s) && Save(cfg, s, t)
    ensures Inv(u, cfg, t)
  {
    hide Good, IsChain, AllOnChain, ScannedBelow, Trimmed;
    var now :| SaveAt(cfg, s, t, now);
    TrimmedGood(u, cfg.startBlock, s.mem, cfg.limits, now);
  }

  lemma CheckKeepsInv(u: Hash -> Block, cfg: Config, s: Node, t: Node)
    requires IsUniverse(u) && cfg.Valid() && Inv(u, cfg, s) && Check(u, cfg, s, t)
    ensures Inv(u, cfg, t)
  {
    assert s.mem.lastProcessedBlock >= cfg.startBlock - 1;
    hide Good, IsChain, AllOnChain, ScannedBelow, ReorgSafe;
    var c: Chain, now :| IsChain(u, c) && s.phase.next < |c|
      && t == s.(mem := ReorgSafe(s.mem, c, s.phase.next, cfg, now),
                 phase := Checked(s.phase.next, s.phase.to, c), seen := Some(c));
    ReorgSafeGood(u, s.mem, c, s.phase.next, cfg, now);
  }

  lemma FinishKeepsInv(u: Hash -> Block, cfg: Config, s: Node, c: Chain, b: int, to: int, now: int)
    requires IsUniverse(u) && cfg.Valid() && Inv(u, cfg, s) && s.phase == Checked(b, to, c) && 0 <= b < |c|
    ensures Inv(u, cfg, Finished(cfg, s, c, b, to, now))
  {
    hide Good, IsChain, AllOnChain, UpdateHistory, ScannedBelow, NamedBlock, IsUniverse;
    NumberOnChain(u, c, b);
    UpdateHistoryGood(u, s.mem, c, b, cfg, now);
    ScannedGrows(s.scanned, c[b]);
  }

  lemma NumberOnChain(u: Hash -> Block, c: Chain, b: int)
    requires IsChain(u, c) && 0 <= b < |c|
    ensures c[b].number == b
  {
  }

  /** Without a checkpoint file the first block that is handled is the configured one. */
  lemma StartsAtFirstBlock(cfg: Config, s: Node, t: Node, r: Node)
    requires cfg.Valid() && s.disk.None? && Start(cfg, s, t) && Poll(t, r)
    ensures r.phase.next == cfg.startBlock
  {
  }

  lemma FinishStep(cfg: Config, s: Node, t: Node)
    requires Finish(cfg, s, t)
    ensures s.phase.Checked? && 0 <= s.phase.next < |s.phase.chain|
    ensures exists now :: t == Finished(cfg, s, s.phase.chain, s.phase.next, s.phase.to, now)
  {
  }

  lemma NextKeepsInv(u: Hash -> Block, cfg: Config, s: Node, t: Node)
    requires IsUniverse(u) && cfg.Valid() && Inv(u, cfg, s) && Next(u, cfg, s, t)
    ensures Inv(u, cfg, t)
  {
    hide Check, Save, Finish, IsChain, ScannedBelow;
    if Check(u, cfg, s, t) {
      CheckKeepsInv(u, cfg, s, t);
    } else if Save(cfg, s, t) {
      SaveKeepsInv(u, cfg, s, t);
    } else if Finish(cfg, s, t) {
      FinishStep(cfg, s, t);
      var now :| t == Finished(cfg, s, s.phase.chain, s.phase.next, s.phase.to, now);
      FinishKeepsInv(u, cfg, s, s.phase.chain, s.phase.next, s.phase.to, now);
    } else if Start(cfg, s, t) {
      assert ScannedBelow([], t.mem.lastProcessedBlock + 1) by { NothingScanned(t.mem.lastProcessedBlock + 1); }
    }
  }

  lemma ScannedGrows(scanned: seq<Block>, block: Block)
    requires ScannedBelow(scanned, block.number)
    ensures ScannedBelow(scanned + [block], block.number + 1)
  {
  }

  lemma NothingScanned(bound: int)
    ensures ScannedBelow([], bound)
  {
  }

  /**
   In every state of every run, whatever the chain does between blocks and
   wherever the process crashes: the stored and the live history are strictly
   rising chains of ancestors that end at the last processed block, and after
   each block every entry lies on the chain just observed.
   */
  lemma {:induction false} RunsStayGood(u: Hash -> Block, cfg: Config, run: seq<Node>, k: nat)
    requires IsUniverse(u) && cfg.Valid() && IsRun(u, cfg, run) && k < |run|
    ensures Inv(u, cfg, run[k])
  {
    if k > 0 {
      hide Inv, Next;
      RunsStayGood(u, cfg, run, k - 1);
      NextKeepsInv(u, cfg, run[k-1], run[k]);
    }
  }
}
