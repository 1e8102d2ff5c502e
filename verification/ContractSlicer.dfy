/** Slicing a contract: edges, dispatcher, units. */
module ContractSlicer {
  import opened Words
  import opened Graphs
  import opened Opcodes
  import opened Disassembler
  import opened InstructionTable
  import opened Blocks
  import opened Cfg
  import opened Slicer
  import Evm

  datatype SliceResult = SliceResult(
    functions: seq<FunctionUnit>, dispatcher: set<nat>, shared: set<nat>, owned: map<nat, string>)

  // ---- Edges ----

  /** `b` leaves `a` by one of its exits. */
  ghost predicate ExitEdge(blocks: seq<BasicBlock>, a: nat, b: nat)
    reads blocks
  {
    a < |blocks| && b in blocks[a].exitsTo
  }

  /** The successor dictionary of the slicer: a copy of the exits of every block. */
  method CopyExits(blocks: seq<BasicBlock>) returns (succs: Adjacency)
    requires Numbered(blocks)
    ensures forall a, b :: Edge(succs, a, b) <==> ExitEdge(blocks, a, b)
    ensures forall k :: 0 <= k < |blocks| ==> blocks[k].id in succs
  {
    succs := map[];
    for i := 0 to |blocks|
      invariant forall a: nat :: a in succs <==> a < i
      invariant forall a :: a in succs ==> succs[a] == blocks[a].exitsTo
    {
      succs := succs[blocks[i].id := blocks[i].exitsTo];
    }
  }

  // ---- The dispatcher ----

  /** Instructions of a selector comparison. */
  predicate Compares(op: Op) {
    op == PUSH(4) || op.CALLDATALOAD? || op.CALLDATASIZE?
  }

  predicate HasComparison(instrs: Segment) {
    exists i :: 0 <= i < |instrs| && Compares(instrs[i].op)
  }

  predicate IsTarget(entries: seq<FunctionEntry>, offset: nat) {
    exists i :: 0 <= i < |entries| && entries[i].jumpTarget == Some(offset)
  }

  /** Block `b` looks like a part of a dispatcher that ends at `end`. */
  predicate LooksLikeDispatcher(blocks: seq<BasicBlock>, entries: seq<FunctionEntry>, end: nat, b: nat)
    requires b < |blocks|
  {
    && (IsTarget(entries, blocks[b].startOffset) ==> b == 0)
    && (b == 0 || HasComparison(blocks[b].instructions) || b < |blocks| / 4)
    && blocks[b].startOffset < end + 0x100
  }

  ghost function DispatcherLike(blocks: seq<BasicBlock>, entries: seq<FunctionEntry>, end: nat): (r: set<nat>)
    ensures forall b: nat :: b in r <==> b < |blocks| && LooksLikeDispatcher(blocks, entries, end, b)
  {
    set b: nat | b < |blocks| && LooksLikeDispatcher(blocks, entries, end, b)
  }

  ghost function Targets(succs: Adjacency): (r: set<nat>)
    ensures forall a, b :: Edge(succs, a, b) ==> b in r
  {
    set a, i | a in succs && 0 <= i < |succs[a]| :: succs[a][i]
  }

  /** On instructions as the sweep reads them: the bytes of PUSH4, CALLDATALOAD and CALLDATASIZE. */
  lemma ComparisonIff(instrs: Segment)
    requires forall i :: 0 <= i < |instrs| ==> instrs[i].op == Decode(instrs[i].opcodeByte)
    ensures HasComparison(instrs) <==>
      exists i :: 0 <= i < |instrs| && instrs[i].opcodeByte in [0x63, 0x35, 0x36]
  {
    hide Decode, Compares;
    forall i | 0 <= i < |instrs| ensures Compares(instrs[i].op) <==> instrs[i].opcodeByte in [0x63, 0x35, 0x36] {
      ComparesIff(instrs[i].opcodeByte);
    }
  }

  lemma StandsForComparison(b: Byte)
    ensures Evm.Stands(b, PUSH(4)) <==> b == 0x63
    ensures Evm.Stands(b, CALLDATALOAD) <==> b == 0x35
    ensures Evm.Stands(b, CALLDATASIZE) <==> b == 0x36
  {
  }

  lemma ComparesIff(b: Byte)
    ensures Compares(Decode(b)) <==> b == 0x63 || b == 0x35 || b == 0x36
  {
    StandsForComparison(b);
    hide Decode, Evm.Stands, Evm.Table;
    DecodeIff(b, PUSH(4));
    DecodeIff(b, CALLDATALOAD);
    DecodeIff(b, CALLDATASIZE);
  }

  /** The offsets that some entry jumps to. */
  method EntryOffsets(entries: seq<FunctionEntry>) returns (offsets: set<nat>)
    ensures forall t: nat :: t in offsets <==> IsTarget(entries, t)
  {
    offsets := {};
    for i := 0 to |entries|
      invariant forall t: nat :: t in offsets <==> IsTarget(entries[..i], t)
    {
      if entries[i].jumpTarget.Some? {
        offsets := offsets + {entries[i].jumpTarget.value};
      }
      OneMoreTarget(entries, i);
    }
    assert entries[..|entries|] == entries;
  }

  lemma OneMoreTarget(entries: seq<FunctionEntry>, i: nat)
    requires i < |entries|
    ensures forall t: nat ::
      IsTarget(entries[..i + 1], t) <==> IsTarget(entries[..i], t) || entries[i].jumpTarget == Some(t)
  {
    var before, now := entries[..i], entries[..i + 1];
    assert now == before + [entries[i]];
    forall t: nat ensures IsTarget(now, t) <==> IsTarget(before, t) || entries[i].jumpTarget == Some(t) {
      if k :| 0 <= k < |before| && before[k].jumpTarget == Some(t) {
        assert now[k].jumpTarget == Some(t);
      }
      if entries[i].jumpTarget == Some(t) {
        assert now[i].jumpTarget == Some(t);
      }
    }
  }

  /** The checks of one block: no entry but block 0, a comparison or an early block, and not far behind the end. */
  method CheckBlock(blocks: seq<BasicBlock>, offsets: set<nat>, entries: seq<FunctionEntry>, end: nat, bid: nat)
    returns (yes: bool)
    requires bid < |blocks| && forall t: nat :: t in offsets <==> IsTarget(entries, t)
    ensures yes <==> LooksLikeDispatcher(blocks, entries, end, bid)
  {
    hide IsTarget;
    var instrs := blocks[bid].instructions;
    if blocks[bid].startOffset in offsets && bid != 0 {
      return false;
    }
    var comparison := false;
    var i := 0;
    while i < |instrs| && !comparison
      invariant i <= |instrs| && (comparison ==> HasComparison(instrs))
      invariant !comparison ==> forall k :: 0 <= k < i ==> !Compares(instrs[k].op)
    {
      var op := instrs[i].op;
      if op == PUSH(4) {
        comparison := true;
      } else if op == CALLDATALOAD || op == CALLDATASIZE {
        comparison := true;
      }
      assert comparison ==> Compares(instrs[i].op);
      i := i + 1;
    }
    if bid == 0 || comparison || bid < |blocks| / 4 {
      return blocks[bid].startOffset < end + 0x100;
    }
    return false;
  }

  /** What a walk from block 0 over the blocks of `like` knows on its way. */
  ghost predicate Walking(g: Adjacency, like: set<nat>, all: set<nat>, visited: set<nat>, found: set<nat>,
                          queue: seq<nat>)
  {
    && visited <= all && (forall n :: n in queue ==> n in all)
    && found == visited * like
    && (forall n :: n in found || (n in queue && n in like) ==> ReachesWithin(g, like, 0, n))
    && (0 in visited || 0 in queue)
    && (forall n, s :: n in found && Edge(g, n, s) ==> s in visited || s in queue)
  }

  lemma WalkStarts(g: Adjacency, like: set<nat>, all: set<nat>)
    requires 0 in all
    ensures Walking(g, like, all, {}, {}, [0])
  {
    assert PathFromTo(g, 0, 0, [0]);
  }

  /** A block that was visited before, or is not part of the dispatcher, leads nowhere new. */
  lemma WalkPast(g: Adjacency, like: set<nat>, all: set<nat>, visited: set<nat>, found: set<nat>, queue: seq<nat>)
    requires queue != [] && Walking(g, like, all, visited, found, queue)
    requires queue[0] in visited || queue[0] !in like
    ensures Walking(g, like, all, visited + {queue[0]}, found, queue[1..])
  {
    hide ReachesWithin;
    assert queue == [queue[0]] + queue[1..];
  }

  lemma WalkOn(g: Adjacency, like: set<nat>, all: set<nat>, visited: set<nat>, found: set<nat>, queue: seq<nat>,
      next: seq<nat>)
    requires queue != [] && Walking(g, like, all, visited, found, queue)
    requires queue[0] !in visited && queue[0] in like && forall s :: Edge(g, queue[0], s) ==> s in all
    requires NewBehind(queue[1..], Neighbours(g, queue[0]), visited + {queue[0]}, next)
    ensures Walking(g, like, all, visited + {queue[0]}, found + {queue[0]}, next)
  {
    hide ReachesWithin;
    var bid := queue[0];
    assert queue == [bid] + queue[1..];
    forall n | n in next && n in like ensures ReachesWithin(g, like, 0, n) {
      if n !in queue {
        ExtendWithin(g, like, 0, bid, n);
      }
    }
  }

  lemma WalkEnds(g: Adjacency, like: set<nat>, all: set<nat>, visited: set<nat>, found: set<nat>)
    requires Walking(g, like, all, visited, found, [])
    ensures forall n :: n in found <==> ReachesWithin(g, like, 0, n)
  {
    forall n | ReachesWithin(g, like, 0, n) ensures n in found {
      var p :| PathFromTo(g, 0, n, p) && forall x :: x in p ==> x in like;
      assert p[0] in like;
      ClosedHoldsReached(g, like, 0, found, n, p);
    }
  }

  /** `next` is `queue` with the neighbours that were not visited behind it. */
  ghost predicate NewBehind(queue: seq<nat>, neighbours: seq<nat>, visited: set<nat>, next: seq<nat>) {
    && (forall n :: n in queue ==> n in next)
    && (forall n :: n in next ==> n in queue || n in neighbours)
    && (forall n :: n in neighbours ==> n in visited || n in next)
  }

  method AppendNew(queue: seq<nat>, neighbours: seq<nat>, visited: set<nat>) returns (next: seq<nat>)
    ensures NewBehind(queue, neighbours, visited, next)
  {
    next := queue;
    for i := 0 to |neighbours|
      invariant forall n :: n in queue ==> n in next
      invariant forall n :: n in next ==> n in queue || n in neighbours
      invariant forall n :: n in neighbours[..i] ==> n in visited || n in next
    {
      assert neighbours[..i + 1] == neighbours[..i] + [neighbours[i]];
      if neighbours[i] !in visited {
        next := next + [neighbours[i]];
      }
    }
    assert neighbours[..|neighbours|] == neighbours;
  }

  /** The blocks around the selector comparisons, walked from block 0 over such blocks only. */
  method FindDispatcher(blocks: seq<BasicBlock>, entries: seq<FunctionEntry>, succs: Adjacency, end: Option<nat>)
    returns (found: set<nat>)
    requires Numbered(blocks)
    ensures end.None? ==> found == {}
    ensures end.Some? ==>
      forall n :: n in found <==> ReachesWithin(succs, DispatcherLike(blocks, entries, end.value), 0, n)
  {
    hide ReachesWithin, LooksLikeDispatcher, IsTarget, Walking, NewBehind;
    found := {};
    if end.None? {
      return;
    }
    ghost var like := DispatcherLike(blocks, entries, end.value);
    ghost var all := Targets(succs) + {0};
    var offsets := EntryOffsets(entries);
    var visited: set<nat> := {};
    var queue := [0];
    WalkStarts(succs, like, all);
    while queue != []
      invariant visited <= all && forall n :: n in queue ==> n in all
      invariant Walking(succs, like, all, visited, found, queue)
      decreases all - visited, |queue|
    {
      var bid := queue[0];
      if bid in visited {
        WalkPast(succs, like, all, visited, found, queue);
        assert visited + {bid} == visited;
        queue := queue[1..];
      } else {
        var checked := false;
        if bid < |blocks| {
          checked := CheckBlock(blocks, offsets, entries, end.value, bid);
        }
        if checked {
          var next := AppendNew(queue[1..], Neighbours(succs, bid), visited + {bid});
          WalkOn(succs, like, all, visited, found, queue, next);
          visited, found, queue := visited + {bid}, found + {bid}, next;
        } else {
          WalkPast(succs, like, all, visited, found, queue);
          visited, queue := visited + {bid}, queue[1..];
        }
      }
      StaysWithin(succs, like, all, visited, found, queue);
    }
    WalkEnds(succs, like, all, visited, found);
  }

  lemma StaysWithin(g: Adjacency, like: set<nat>, all: set<nat>, visited: set<nat>, found: set<nat>, queue: seq<nat>)
    requires Walking(g, like, all, visited, found, queue)
    ensures visited <= all && forall n :: n in queue ==> n in all
  {
  }

  // ---- The order of the units ----

  /** Strings compare character by character. */
  predicate Less(a: string, b: string) {
    b != "" && (a == "" || a[0] < b[0] || (a[0] == b[0] && Less(a[1..], b[1..])))
  }

  /** The first difference decides, and a prefix comes first. */
  lemma {:induction false} LessIff(a: string, b: string)
    ensures Less(a, b) <==> exists k: nat ::
      k <= |a| && k < |b| && a[..k] == b[..k] && (k == |a| || a[k] < b[k])
  {
    if a != "" && b != "" && a[0] == b[0] {
      var a1, b1 := a[1..], b[1..];
      LessIff(a1, b1);
      if k: nat :| k <= |a1| && k < |b1| && a1[..k] == b1[..k] && (k == |a1| || a1[k] < b1[k]) {
        assert a[..k + 1] == [a[0]] + a1[..k] && b[..k + 1] == [b[0]] + b1[..k];
      }
      if k: nat :| k <= |a| && k < |b| && a[..k] == b[..k] && (k == |a| || a[k] < b[k]) {
        assert k > 0 && a1[..k - 1] == a[..k][1..] && b1[..k - 1] == b[..k][1..];
      }
    } else if b != "" {
      assert a[..0] == b[..0];
      forall k: nat | 0 < k <= |a| && k < |b| ensures a[..k] != b[..k] {
        assert a[..k][0] == a[0] && b[..k][0] == b[0];
      }
    }
  }

  lemma {:induction false} NotLessTransitive(a: string, b: string, c: string)
    requires !Less(b, a) && !Less(c, b)
    ensures !Less(c, a)
  {
    if a != "" && b != "" && c != "" && a[0] == b[0] == c[0] {
      NotLessTransitive(a[1..], b[1..], c[1..]);
    }
  }

  lemma {:induction false} LessOneWay(a: string, b: string)
    requires Less(a, b)
    ensures !Less(b, a)
  {
    if a != "" && a[0] == b[0] {
      LessOneWay(a[1..], b[1..]);
    }
  }

  function Insert(units: seq<FunctionUnit>, u: FunctionUnit): seq<FunctionUnit> {
    if units != [] && Less(u.selector, Last(units).selector) then Insert(units[..|units|-1], u) + [Last(units)]
    else units + [u]
  }

  /** `functions.sort(key=lambda f: f.selector)`. */
  function Sorted(units: seq<FunctionUnit>): seq<FunctionUnit> {
    if units == [] then [] else Insert(Sorted(units[..|units|-1]), Last(units))
  }

  predicate InOrder(units: seq<FunctionUnit>) {
    forall i, j :: 0 <= i < j < |units| ==> !Less(units[j].selector, units[i].selector)
  }

  /** The units of one selector, in order. */
  function OfSelector(units: seq<FunctionUnit>, s: string): seq<FunctionUnit> {
    if units == [] then []
    else OfSelector(units[..|units|-1], s) + if Last(units).selector == s then [Last(units)] else []
  }

  lemma {:induction false} InsertKeepsOrder(units: seq<FunctionUnit>, u: FunctionUnit)
    requires InOrder(units)
    ensures InOrder(Insert(units, u))
    ensures forall x :: x in Insert(units, u) <==> x in units || x == u
  {
    var n := |units| - 1;
    if units != [] && Less(u.selector, Last(units).selector) {
      assert units == units[..n] + [Last(units)];
      InsertKeepsOrder(units[..n], u);
      LessOneWay(u.selector, Last(units).selector);
      var r := Insert(units[..n], u);
      forall i | 0 <= i < |r| ensures !Less(Last(units).selector, r[i].selector) {
        assert r[i] in r;
      }
    } else if units != [] {
      forall i | 0 <= i < |units| ensures !Less(u.selector, units[i].selector) {
        if i < n {
          NotLessTransitive(units[i].selector, Last(units).selector, u.selector);
        }
      }
    }
  }

  lemma {:induction false} InsertIsStable(units: seq<FunctionUnit>, u: FunctionUnit, s: string)
    ensures OfSelector(Insert(units, u), s) == OfSelector(units, s) + if u.selector == s then [u] else []
  {
    var r := Insert(units, u);
    if units != [] && Less(u.selector, Last(units).selector) {
      var init := units[..|units|-1];
      InsertIsStable(init, u, s);
      LessOneWay(u.selector, Last(units).selector);
      assert r[..|r|-1] == Insert(init, u);
    } else {
      assert r[..|r|-1] == units;
    }
  }

  /** The sort orders the units and keeps those of each selector as they were, so none is lost and none added. */
  lemma {:induction false} SortedIsStable(units: seq<FunctionUnit>, s: string)
    ensures InOrder(Sorted(units)) && OfSelector(Sorted(units), s) == OfSelector(units, s)
  {
    if units != [] {
      var init := units[..|units|-1];
      SortedIsStable(init, s);
      InsertKeepsOrder(Sorted(init), Last(units));
      InsertIsStable(Sorted(init), Last(units), s);
    }
  }

  lemma {:induction false} SortedMembers(units: seq<FunctionUnit>)
    ensures forall u :: u in Sorted(units) <==> u in units
  {
    if units != [] {
      var init := units[..|units|-1];
      assert units == init + [Last(units)];
      SortedMembers(init);
      SortedIsStable(init, "");
      InsertKeepsOrder(Sorted(init), Last(units));
    }
  }

  // ---- The whole ----

  /** The edges a body is searched over: the exits of every block, and its return edges. */
  ghost predicate SearchEdges(blocks: seq<BasicBlock>, jumpdests: set<nat>, succs: Adjacency)
    requires Numbered(blocks)
    reads blocks
  {
    forall a, b :: Edge(succs, a, b) <==>
      ExitEdge(blocks, a, b) || ReturnEdge(blocks, BlockAt(Segments(blocks), |blocks|), jumpdests, a, b)
  }

  method SliceFunctions(blocks: seq<BasicBlock>, jumpdests: set<nat>, entries: seq<FunctionEntry>,
      end: Option<nat>, resolved: map<string, string>)
    returns (r: SliceResult, ghost succs: Adjacency, ghost reach: Reach, ghost names: seq<string>,
      ghost collected: seq<FunctionUnit>)
    requires Numbered(blocks)
    ensures blocks == [] || entries == [] ==> r == SliceResult([], {}, {}, map[])
    ensures blocks != [] && entries != [] ==>
      var offsetToBlock := BlockAt(Segments(blocks), |blocks|);
      && SearchEdges(blocks, jumpdests, succs)
      && (end.None? ==> r.dispatcher == {})
      && (end.Some? ==> forall n ::
            n in r.dispatcher <==> ReachesWithin(succs, DispatcherLike(blocks, entries, end.value), 0, n))
      && ReachIs(entries, offsetToBlock, succs, r.dispatcher, reach) && (forall s :: s in names <==> s in reach)
      && UnitsMatch(collected, WithTarget(entries), offsetToBlock, resolved, reach)
      && InOrder(r.functions) && (forall s :: OfSelector(r.functions, s) == OfSelector(collected, s))
      && (forall b, s :: (b in r.owned && r.owned[b] == s) <==> OwnedBy(reach, names, s, b))
      && (forall b :: b in r.shared <==> SharedIn(reach, names, b))
    ensures forall u :: u in r.functions ==> u.body * r.dispatcher == {}
    ensures forall u, b :: u in r.functions && b in u.body ==>
      (b in r.owned && r.owned[b] == u.selector) || b in r.shared
    ensures forall b :: b in r.owned ==> b !in r.shared
  {
    succs, reach, names, collected := map[], map[], [], [];
    if blocks == [] || entries == [] {
      return SliceResult([], {}, {}, map[]), succs, reach, names, collected;
    }
    hide ReachIs, UnitsMatch, ReachesWithin, ReturnEdge, Sorted, InOrder, OfSelector, WithTarget, OwnedBy, SharedIn;
    var exits := CopyExits(blocks);
    var offsetToBlock := IndexBlocks(blocks);
    var edges := ResolveReturnAddressEdges(blocks, offsetToBlock, jumpdests, exits);
    succs := edges;
    var dispatcher := FindDispatcher(blocks, entries, edges, end);
    var units, owned, shared;
    units, owned, shared, reach, names := CollectUnits(entries, offsetToBlock, edges, dispatcher, resolved);
    collected := units;
    SortedIsStable(units, "");
    forall s ensures OfSelector(Sorted(units), s) == OfSelector(units, s) {
      SortedIsStable(units, s);
    }
    SortedMembers(units);
    r := SliceResult(Sorted(units), dispatcher, shared, owned);
  }
}
