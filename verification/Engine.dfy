/** The sequence matcher of the detector engine. */
module Engine {
  // A join of the state model with bound variables.

  import opened Words

  // ---- The state model. A missing field and a null field are both `None`. ----

  datatype Writer = Writer(path: Option<string>, guardRefs: seq<string>, origin: Option<string>,
    userControlled: bool, reachability: Option<string>, callerConstraint: Option<string>)

  datatype Reader = Reader(path: Option<string>, guardRefs: seq<string>, usedIn: Option<string>,
    authorizedEffects: set<string>, reachableEffects: set<string>)

  datatype Slot = Slot(slot: Option<string>, role: Option<string>, roleConfidence: Option<real>,
    confidence: Option<real>, proxyKind: Option<string>, usable: Option<bool>, guards: seq<string>,
    writers: seq<Writer>, readers: seq<Reader>)

  datatype Call = Call(kind: string, target: Option<string>, targetSlot: Option<string>,
    targetOrigin: Option<string>, controllability: Option<string>, validation: Option<string>,
    returnConsumed: bool, returnEffects: set<string>, reachableEffects: set<string>, usable: Option<bool>)

  datatype Model = Model(slots: seq<Slot>, calls: seq<Call>)

  // ---- Rules ----

  /** The part of a storage constraint that is about the slot. */
  datatype SlotConstraint = SlotConstraint(roles: set<string>, sameSlotAs: Option<string>,
    minConfidence: real, proxyKind: Option<string>)

  datatype WriteConstraint = WriteConstraint(slot: SlotConstraint, userControlled: bool,
    reachability: Option<string>, callerConstraint: Option<string>, origins: set<string>)

  datatype ReadConstraint = ReadConstraint(slot: SlotConstraint, usedIn: Option<string>)

  datatype DelegateConstraint = DelegateConstraint(origins: set<string>, sameSlotAs: Option<string>,
    controllability: Option<string>)

  datatype CallConstraint = CallConstraint(origins: set<string>, controllability: Option<string>,
    validation: Option<string>, returnConsumed: bool, sameTargetAs: Option<string>, returnEffects: set<string>)

  /** The match part of a step; more than one constraint may be given, the first in this order is used. */
  datatype Match = Match(write: Option<WriteConstraint>, read: Option<ReadConstraint>,
    delegate: Option<DelegateConstraint>, external: Option<CallConstraint>,
    authorizedEffects: set<string>, reachableEffects: set<string>)

  /** One entry of a step's bind table. */
  datatype Bind = Bind(key: string, name: string)

  datatype Step = Step(id: Option<string>, pattern: Match, bind: seq<Bind>)

  // ---- Contexts ----

  type Bindings = map<string, Option<string>>

  datatype Picked =
    | WriterOf(slot: Option<string>, role: Option<string>, writer: Writer)
    | ReaderOf(slot: Option<string>, role: Option<string>, reader: Reader)
    | CallOf(call: Call)

  datatype Entry = Entry(id: Option<string>, picked: Picked)

  datatype Context = Context(bindings: Bindings, steps: seq<Entry>, slotRefs: seq<Option<string>>,
    guardRefs: seq<string>, delegateRefs: seq<Option<string>>)

  const START := Context(map[], [], [], [], [])

  /** `bindings.get(name)`: an unbound variable reads as null. */
  function Lookup(b: Bindings, name: string): Option<string> {
    if name in b then b[name] else None
  }

  /** A constraint string is in force unless it is missing or empty. */
  predicate Given(x: Option<string>) {
    x.Some? && x.value != ""
  }

  predicate Usable(usable: Option<bool>) {
    usable.None? || usable.value
  }

  predicate OneOf(x: Option<string>, allowed: set<string>) {
    allowed == {} || (x.Some? && x.value in allowed)
  }

  predicate Touches(wanted: set<string>, found: set<string>) {
    wanted == {} || wanted * found != {}
  }

  // ---- The constraint predicates ----

  predicate MatchSlot(s: Slot, c: SlotConstraint, b: Bindings, strict: bool) {
    && (strict ==> Usable(s.usable))
    && OneOf(s.role, c.roles)
    && (Given(c.sameSlotAs) ==> s.slot == Lookup(b, c.sameSlotAs.value))
    && c.minConfidence <= s.roleConfidence.GetOr(s.confidence.GetOr(0.0))
    && (Given(c.proxyKind) ==> s.proxyKind == c.proxyKind)
  }

  predicate MatchWriter(w: Writer, c: WriteConstraint) {
    && (c.userControlled ==> w.userControlled)
    && (Given(c.reachability) ==> w.reachability == c.reachability)
    && (Given(c.callerConstraint) ==> w.callerConstraint == c.callerConstraint)
    && OneOf(w.origin, c.origins)
  }

  predicate MatchReader(r: Reader, c: ReadConstraint, m: Match) {
    && (Given(c.usedIn) ==> r.usedIn == c.usedIn)
    && Touches(m.authorizedEffects, r.authorizedEffects)
    && Touches(m.reachableEffects, r.reachableEffects)
  }

  predicate MatchDelegatecall(call: Call, c: DelegateConstraint, b: Bindings, strict: bool) {
    && (strict ==> Usable(call.usable))
    && call.kind == "delegatecall"
    && OneOf(call.targetOrigin, c.origins)
    && (Given(c.sameSlotAs) ==> call.targetSlot == Lookup(b, c.sameSlotAs.value))
    && (Given(c.controllability) ==> call.controllability == c.controllability)
  }

  predicate MatchExternalCall(call: Call, c: CallConstraint, m: Match, b: Bindings, strict: bool) {
    && (strict ==> Usable(call.usable))
    && (call.kind == "external_call" || call.kind == "call" || call.kind == "staticcall")
    && OneOf(call.targetOrigin, c.origins)
    && (Given(c.controllability) ==> call.controllability == c.controllability)
    && (Given(c.validation) ==> call.validation == c.validation)
    && (c.returnConsumed ==> call.returnConsumed)
    && (Given(c.sameTargetAs) ==> call.target == Lookup(b, c.sameTargetAs.value))
    && Touches(c.returnEffects, call.returnEffects)
    && Touches(m.reachableEffects, call.returnEffects + call.reachableEffects)
  }

  // ---- What a step may choose ----

  /** A row of the index a step searches, and an item of that row; a call has no items below it. */
  datatype Choice = Choice(row: nat, item: nat)

  /** How many rows the index has that the step searches. */
  function Rows(m: Model, step: Step): nat {
    if step.pattern.write.Some? || step.pattern.read.Some? then |m.slots|
    else if step.pattern.delegate.Some? || step.pattern.external.Some? then |m.calls|
    else 0
  }

  function Items(m: Model, step: Step, row: nat): nat
    requires row < Rows(m, step)
  {
    if step.pattern.write.Some? then |m.slots[row].writers|
    else if step.pattern.read.Some? then |m.slots[row].readers|
    else 1
  }

  predicate InRange(m: Model, step: Step, c: Choice) {
    c.row < Rows(m, step) && c.item < Items(m, step, c.row)
  }

  /** The relation a step stands for: choice `c` satisfies it under bindings `b`. */
  predicate Fits(m: Model, step: Step, b: Bindings, strict: bool, c: Choice) {
    && InRange(m, step, c)
    && var p := step.pattern;
      if p.write.Some? then
        && MatchSlot(m.slots[c.row], p.write.value.slot, b, strict)
        && MatchWriter(m.slots[c.row].writers[c.item], p.write.value)
      else if p.read.Some? then
        && MatchSlot(m.slots[c.row], p.read.value.slot, b, strict)
        && MatchReader(m.slots[c.row].readers[c.item], p.read.value, p)
      else if p.delegate.Some? then
        MatchDelegatecall(m.calls[c.row], p.delegate.value, b, strict)
      else
        MatchExternalCall(m.calls[c.row], p.external.value, p, b, strict)
  }

  /** What choice `c` picks from the state model. */
  function PickedBy(m: Model, step: Step, c: Choice): Picked
    requires InRange(m, step, c)
  {
    if step.pattern.write.Some? then
      WriterOf(m.slots[c.row].slot, m.slots[c.row].role, m.slots[c.row].writers[c.item])
    else if step.pattern.read.Some? then
      ReaderOf(m.slots[c.row].slot, m.slots[c.row].role, m.slots[c.row].readers[c.item])
    else
      CallOf(m.calls[c.row])
  }

  /** The guards of the chosen slot. */
  function GuardsOf(m: Model, step: Step, c: Choice): seq<string>
    requires InRange(m, step, c)
  {
    if step.pattern.write.Some? || step.pattern.read.Some? then m.slots[c.row].guards else []
  }

  // ---- Extending a context ----

  /** The value bound for `key`; `None` when the key says nothing about what was picked. */
  function ValueFor(key: string, p: Picked): Option<Option<string>> {
    if p.CallOf? then
      if key == "call_target" then Some(p.call.target) else None
    else if key == "slot" then Some(p.slot)
    else if key == "path" then Some(if p.WriterOf? then p.writer.path else p.reader.path)
    else if key == "guard" then
      var refs := if p.WriterOf? then p.writer.guardRefs else p.reader.guardRefs;
      Some(if refs == [] then None else Some(refs[0]))
    else if key == "value_origin" then Some(if p.WriterOf? then p.writer.origin else None)
    else None
  }

  /** A bind entry takes effect only for a name that starts with a dollar sign. */
  predicate Binds(x: Bind, p: Picked) {
    "$" <= x.name && ValueFor(x.key, p).Some?
  }

  function Bound(b: Bindings, bind: seq<Bind>, p: Picked): Bindings {
    if bind == [] then b
    else
      var before := Bound(b, bind[..|bind|-1], p);
      var last := bind[|bind|-1];
      if Binds(last, p) then before[last.name := ValueFor(last.key, p).value] else before
  }

  function Extended(ctx: Context, step: Step, p: Picked, guards: seq<string>): Context {
    Context(Bound(ctx.bindings, step.bind, p), ctx.steps + [Entry(step.id, p)],
      if p.CallOf? then ctx.slotRefs else ctx.slotRefs + [p.slot],
      if p.CallOf? then ctx.guardRefs else ctx.guardRefs + guards,
      if p.CallOf? then ctx.delegateRefs + [p.call.target] else ctx.delegateRefs)
  }

  method ExtendContext(ctx: Context, step: Step, p: Picked, guards: seq<string>) returns (r: Context)
    ensures r == Extended(ctx, step, p, guards)
  {
    var bindings := ctx.bindings;
    for i := 0 to |step.bind|
      invariant bindings == Bound(ctx.bindings, step.bind[..i], p)
    {
      var x := step.bind[i];
      assert step.bind[..i + 1][..i] == step.bind[..i];
      if "$" <= x.name {
        match ValueFor(x.key, p)
        case Some(value) => bindings := bindings[x.name := value];
        case None =>
      }
    }
    assert step.bind[..|step.bind|] == step.bind;
    r := ctx.(bindings := bindings, steps := ctx.steps + [Entry(step.id, p)]);
    if p.CallOf? {
      r := r.(delegateRefs := r.delegateRefs + [p.call.target]);
    } else {
      r := r.(slotRefs := r.slotRefs + [p.slot], guardRefs := r.guardRefs + guards);
    }
  }

  // ---- The join ----

  /** The context that one choice makes of another. */
  function After(m: Model, ctx: Context, step: Step, strict: bool, c: Choice): Context
    requires Fits(m, step, ctx.bindings, strict, c)
  {
    Extended(ctx, step, PickedBy(m, step, c), GuardsOf(m, step, c))
  }

  /** The context at the end of a run of choices, `None` when some choice does not fit. */
  function Follow(m: Model, steps: seq<Step>, strict: bool, run: seq<Choice>): Option<Context>
    requires |run| == |steps|
  {
    if run == [] then Some(START)
    else
      var n := |run| - 1;
      match Follow(m, steps[..n], strict, run[..n])
      case None => None
      case Some(ctx) =>
        if Fits(m, steps[n], ctx.bindings, strict, run[n]) then Some(After(m, ctx, steps[n], strict, run[n])) else None
  }

  /** A run of choices is a match when every choice fits under the bindings of those before it. */
  predicate IsMatch(m: Model, steps: seq<Step>, strict: bool, run: seq<Choice>) {
    |run| == |steps| && Follow(m, steps, strict, run).Some?
  }

  predicate ChoiceBefore(c: Choice, d: Choice) {
    c.row < d.row || (c.row == d.row && c.item < d.item)
  }

  /** The first difference decides. */
  predicate RunBefore(r: seq<Choice>, s: seq<Choice>) {
    r != [] && s != [] && (ChoiceBefore(r[0], s[0]) || (r[0] == s[0] && RunBefore(r[1..], s[1..])))
  }

  ghost predicate InOrder(runs: seq<seq<Choice>>) {
    forall i, j :: 0 <= i < j < |runs| ==> RunBefore(runs[i], runs[j])
  }

  ghost predicate AreMatches(m: Model, steps: seq<Step>, strict: bool, runs: seq<seq<Choice>>) {
    forall run :: run in runs <==> IsMatch(m, steps, strict, run)
  }

  ghost predicate Yields(m: Model, steps: seq<Step>, strict: bool, runs: seq<seq<Choice>>, contexts: seq<Context>) {
    && |runs| == |contexts|
    && forall k :: 0 <= k < |runs| ==> |runs[k]| == |steps| && Follow(m, steps, strict, runs[k]) == Some(contexts[k])
  }

  /** `contexts` are the contexts of all matches, in order, without loss or repetition. */
  ghost predicate IsJoin(m: Model, steps: seq<Step>, strict: bool, contexts: seq<Context>) {
    exists runs :: InOrder(runs) && AreMatches(m, steps, strict, runs) && Yields(m, steps, strict, runs, contexts)
  }

  // ---- The choices of one step ----

  /** The first `n` items of a row that fit. */
  function RowChoices(m: Model, step: Step, b: Bindings, strict: bool, row: nat, n: nat): seq<Choice> {
    if n == 0 then []
    else
      var c := Choice(row, n - 1);
      RowChoices(m, step, b, strict, row, n - 1) + (if Fits(m, step, b, strict, c) then [c] else [])
  }

  /** The fitting items of the first `n` rows. */
  function ChoicesUpTo(m: Model, step: Step, b: Bindings, strict: bool, n: nat): seq<Choice>
    requires n <= Rows(m, step)
  {
    if n == 0 then []
    else ChoicesUpTo(m, step, b, strict, n - 1) + RowChoices(m, step, b, strict, n - 1, Items(m, step, n - 1))
  }

  function StepChoices(m: Model, step: Step, b: Bindings, strict: bool): seq<Choice> {
    ChoicesUpTo(m, step, b, strict, Rows(m, step))
  }

  ghost predicate ChoicesInOrder(cs: seq<Choice>) {
    forall i, j :: 0 <= i < j < |cs| ==> ChoiceBefore(cs[i], cs[j])
  }

  lemma {:induction false} RowIsExact(m: Model, step: Step, b: Bindings, strict: bool, row: nat, n: nat)
    ensures forall c :: c in RowChoices(m, step, b, strict, row, n) <==> c.row == row && c.item < n && Fits(m, step, b, strict, c)
    ensures ChoicesInOrder(RowChoices(m, step, b, strict, row, n))
  {
    hide Fits;
    if n > 0 {
      RowIsExact(m, step, b, strict, row, n - 1);
      var before := RowChoices(m, step, b, strict, row, n - 1);
      forall i | 0 <= i < |before| ensures ChoiceBefore(before[i], Choice(row, n - 1)) {
        assert before[i] in before;
      }
    }
  }

  lemma RowsInOrder(before: seq<Choice>, row: seq<Choice>, n: nat)
    requires ChoicesInOrder(before) && ChoicesInOrder(row)
    requires (forall c :: c in before ==> c.row < n) && (forall c :: c in row ==> c.row == n)
    ensures ChoicesInOrder(before + row)
  {
    forall i, j | 0 <= i < |before| && 0 <= j < |row| ensures ChoiceBefore(before[i], row[j]) {
      assert before[i] in before && row[j] in row;
    }
  }

  lemma {:induction false} RowsAreExact(m: Model, step: Step, b: Bindings, strict: bool, n: nat)
    requires n <= Rows(m, step)
    ensures forall c :: c in ChoicesUpTo(m, step, b, strict, n) <==> c.row < n && Fits(m, step, b, strict, c)
    ensures ChoicesInOrder(ChoicesUpTo(m, step, b, strict, n))
  {
    if n > 0 {
      RowsAreExact(m, step, b, strict, n - 1);
      var items := Items(m, step, n - 1);
      RowIsExact(m, step, b, strict, n - 1, items);
      assert forall c: Choice :: c.row == n - 1 && Fits(m, step, b, strict, c) ==> c.item < items;
      hide Fits, RowChoices, Items, Rows, ChoicesInOrder;
      RowsInOrder(ChoicesUpTo(m, step, b, strict, n - 1), RowChoices(m, step, b, strict, n - 1, items), n - 1);
    } else {
      assert ChoicesInOrder([]);
    }
  }

  /** A step finds exactly the choices that fit, each once, in index order. */
  lemma StepIsExact(m: Model, step: Step, b: Bindings, strict: bool)
    ensures forall c :: c in StepChoices(m, step, b, strict) <==> Fits(m, step, b, strict, c)
    ensures ChoicesInOrder(StepChoices(m, step, b, strict))
  {
    RowsAreExact(m, step, b, strict, Rows(m, step));
    assert forall c :: Fits(m, step, b, strict, c) ==> c.row < Rows(m, step);
  }

  ghost predicate AllFit(m: Model, step: Step, b: Bindings, strict: bool, cs: seq<Choice>) {
    forall i :: 0 <= i < |cs| ==> Fits(m, step, b, strict, cs[i])
  }

  lemma StepChoicesFit(m: Model, step: Step, b: Bindings, strict: bool)
    ensures AllFit(m, step, b, strict, StepChoices(m, step, b, strict))
  {
    hide Fits, StepChoices;
    StepIsExact(m, step, b, strict);
    var cs := StepChoices(m, step, b, strict);
    assert forall i :: 0 <= i < |cs| ==> cs[i] in cs;
  }

  /** The contexts that a list of choices makes of one context. */
  function AfterAll(m: Model, ctx: Context, step: Step, strict: bool, cs: seq<Choice>): (r: seq<Context>)
    requires AllFit(m, step, ctx.bindings, strict, cs)
    ensures |r| == |cs|
    ensures forall i :: 0 <= i < |cs| ==> r[i] == After(m, ctx, step, strict, cs[i])
  {
    if cs == [] then []
    else AfterAll(m, ctx, step, strict, cs[..|cs|-1]) + [After(m, ctx, step, strict, cs[|cs|-1])]
  }

  function StepContexts(m: Model, ctx: Context, step: Step, strict: bool): seq<Context> {
    StepChoicesFit(m, step, ctx.bindings, strict);
    AfterAll(m, ctx, step, strict, StepChoices(m, step, ctx.bindings, strict))
  }

  // ---- The loops of one step ----

  ghost predicate Collected(m: Model, ctx: Context, step: Step, strict: bool, cs: seq<Choice>, results: seq<Context>) {
    AllFit(m, step, ctx.bindings, strict, cs) && results == AfterAll(m, ctx, step, strict, cs)
  }

  lemma Collect(m: Model, ctx: Context, step: Step, strict: bool, cs: seq<Choice>, results: seq<Context>, c: Choice)
    requires Collected(m, ctx, step, strict, cs, results) && Fits(m, step, ctx.bindings, strict, c)
    ensures Collected(m, ctx, step, strict, cs + [c], results + [After(m, ctx, step, strict, c)])
  {
    hide Fits, After;
    assert (cs + [c])[..|cs|] == cs;
  }

  /** A row whose slot does not fit has no choices. */
  lemma {:induction false} SkippedRow(m: Model, step: Step, b: Bindings, strict: bool, row: nat, n: nat)
    requires forall item :: !Fits(m, step, b, strict, Choice(row, item))
    ensures RowChoices(m, step, b, strict, row, n) == []
  {
    hide Fits;
    if n > 0 {
      SkippedRow(m, step, b, strict, row, n - 1);
    }
  }

  lemma WriteFits(m: Model, step: Step, b: Bindings, strict: bool, row: nat, item: nat)
    requires step.pattern.write.Some? && row < |m.slots| && item < |m.slots[row].writers|
    ensures Fits(m, step, b, strict, Choice(row, item)) <==>
      MatchSlot(m.slots[row], step.pattern.write.value.slot, b, strict)
      && MatchWriter(m.slots[row].writers[item], step.pattern.write.value)
  {
    hide MatchSlot, MatchWriter;
  }

  lemma ReadFits(m: Model, step: Step, b: Bindings, strict: bool, row: nat, item: nat)
    requires step.pattern.write.None? && step.pattern.read.Some? && row < |m.slots| && item < |m.slots[row].readers|
    ensures Fits(m, step, b, strict, Choice(row, item)) <==>
      MatchSlot(m.slots[row], step.pattern.read.value.slot, b, strict)
      && MatchReader(m.slots[row].readers[item], step.pattern.read.value, step.pattern)
  {
    hide MatchSlot, MatchReader;
  }

  lemma SkippedWriteRow(m: Model, step: Step, b: Bindings, strict: bool, row: nat)
    requires step.pattern.write.Some? && row < |m.slots|
    requires !MatchSlot(m.slots[row], step.pattern.write.value.slot, b, strict)
    ensures RowChoices(m, step, b, strict, row, |m.slots[row].writers|) == []
  {
    hide MatchSlot, MatchWriter, RowChoices;
    SkippedRow(m, step, b, strict, row, |m.slots[row].writers|);
  }

  lemma SkippedReadRow(m: Model, step: Step, b: Bindings, strict: bool, row: nat)
    requires step.pattern.write.None? && step.pattern.read.Some? && row < |m.slots|
    requires !MatchSlot(m.slots[row], step.pattern.read.value.slot, b, strict)
    ensures RowChoices(m, step, b, strict, row, |m.slots[row].readers|) == []
  {
    hide MatchSlot, MatchReader, RowChoices;
    SkippedRow(m, step, b, strict, row, |m.slots[row].readers|);
  }

  lemma NoneCollected(m: Model, ctx: Context, step: Step, strict: bool)
    ensures Collected(m, ctx, step, strict, [], [])
  {
  }

  /** Everything was collected. */
  lemma AllCollected(m: Model, ctx: Context, step: Step, strict: bool, results: seq<Context>)
    requires Collected(m, ctx, step, strict, StepChoices(m, step, ctx.bindings, strict), results)
    ensures results == StepContexts(m, ctx, step, strict)
  {
    hide Fits, StepChoices, After;
  }

  method MatchWrites(m: Model, step: Step, ctx: Context, strict: bool) returns (results: seq<Context>)
    requires step.pattern.write.Some?
    ensures results == StepContexts(m, ctx, step, strict)
  {
    hide After, Extended, MatchSlot, MatchWriter, Fits, Collected;
    NoneCollected(m, ctx, step, strict);
    var constraint := step.pattern.write.value;
    results := [];
    ghost var chosen: seq<Choice> := [];
    for i := 0 to |m.slots|
      invariant chosen == ChoicesUpTo(m, step, ctx.bindings, strict, i)
      invariant Collected(m, ctx, step, strict, chosen, results)
    {
      var slot := m.slots[i];
      if !MatchSlot(slot, constraint.slot, ctx.bindings, strict) {
        SkippedWriteRow(m, step, ctx.bindings, strict, i);
        continue;
      }
      for j := 0 to |slot.writers|
        invariant chosen == ChoicesUpTo(m, step, ctx.bindings, strict, i) + RowChoices(m, step, ctx.bindings, strict, i, j)
        invariant Collected(m, ctx, step, strict, chosen, results)
      {
        WriteFits(m, step, ctx.bindings, strict, i, j);
        if !MatchWriter(slot.writers[j], constraint) {
          continue;
        }
        var r := ExtendContext(ctx, step, WriterOf(slot.slot, slot.role, slot.writers[j]), slot.guards);
        ghost var c := Choice(i, j);
        AfterIsExtended(m, ctx, step, strict, c);
        Collect(m, ctx, step, strict, chosen, results, c);
        results := results + [r];
        chosen := chosen + [c];
      }
    }
    AllCollected(m, ctx, step, strict, results);
  }

  lemma AfterIsExtended(m: Model, ctx: Context, step: Step, strict: bool, c: Choice)
    requires Fits(m, step, ctx.bindings, strict, c)
    ensures After(m, ctx, step, strict, c) == Extended(ctx, step, PickedBy(m, step, c), GuardsOf(m, step, c))
  {
  }

  method MatchReads(m: Model, step: Step, ctx: Context, strict: bool) returns (results: seq<Context>)
    requires step.pattern.write.None? && step.pattern.read.Some?
    ensures results == StepContexts(m, ctx, step, strict)
  {
    hide After, Extended, MatchSlot, MatchReader, Fits, Collected;
    NoneCollected(m, ctx, step, strict);
    var constraint := step.pattern.read.value;
    results := [];
    ghost var chosen: seq<Choice> := [];
    for i := 0 to |m.slots|
      invariant chosen == ChoicesUpTo(m, step, ctx.bindings, strict, i)
      invariant Collected(m, ctx, step, strict, chosen, results)
    {
      var slot := m.slots[i];
      if !MatchSlot(slot, constraint.slot, ctx.bindings, strict) {
        SkippedReadRow(m, step, ctx.bindings, strict, i);
        continue;
      }
      for j := 0 to |slot.readers|
        invariant chosen == ChoicesUpTo(m, step, ctx.bindings, strict, i) + RowChoices(m, step, ctx.bindings, strict, i, j)
        invariant Collected(m, ctx, step, strict, chosen, results)
      {
        ReadFits(m, step, ctx.bindings, strict, i, j);
        if !MatchReader(slot.readers[j], constraint, step.pattern) {
          continue;
        }
        var r := ExtendContext(ctx, step, ReaderOf(slot.slot, slot.role, slot.readers[j]), slot.guards);
        ghost var c := Choice(i, j);
        AfterIsExtended(m, ctx, step, strict, c);
        Collect(m, ctx, step, strict, chosen, results, c);
        results := results + [r];
        chosen := chosen + [c];
      }
    }
    AllCollected(m, ctx, step, strict, results);
  }

  /** A call row holds the call alone. */
  lemma CallRow(m: Model, step: Step, b: Bindings, strict: bool, row: nat)
    requires step.pattern.write.None? && step.pattern.read.None? && row < Rows(m, step)
    ensures ChoicesUpTo(m, step, b, strict, row + 1) ==
      ChoicesUpTo(m, step, b, strict, row) + (if Fits(m, step, b, strict, Choice(row, 0)) then [Choice(row, 0)] else [])
  {
    hide Fits;
    assert RowChoices(m, step, b, strict, row, 0) == [];
  }

  method MatchDelegatecalls(m: Model, step: Step, ctx: Context, strict: bool) returns (results: seq<Context>)
    requires step.pattern.write.None? && step.pattern.read.None? && step.pattern.delegate.Some?
    ensures results == StepContexts(m, ctx, step, strict)
  {
    hide After, Extended, MatchDelegatecall;
    results := [];
    ghost var chosen: seq<Choice> := [];
    for i := 0 to |m.calls|
      invariant chosen == ChoicesUpTo(m, step, ctx.bindings, strict, i)
      invariant Collected(m, ctx, step, strict, chosen, results)
    {
      CallRow(m, step, ctx.bindings, strict, i);
      if MatchDelegatecall(m.calls[i], step.pattern.delegate.value, ctx.bindings, strict) {
        var r := ExtendContext(ctx, step, CallOf(m.calls[i]), []);
        ghost var c := Choice(i, 0);
        AfterIsExtended(m, ctx, step, strict, c);
        Collect(m, ctx, step, strict, chosen, results, c);
        results := results + [r];
        chosen := chosen + [c];
      }
    }
  }

  method MatchExternalCalls(m: Model, step: Step, ctx: Context, strict: bool) returns (results: seq<Context>)
    requires step.pattern.write.None? && step.pattern.read.None?
    requires step.pattern.delegate.None? && step.pattern.external.Some?
    ensures results == StepContexts(m, ctx, step, strict)
  {
    hide After, Extended, MatchExternalCall;
    results := [];
    ghost var chosen: seq<Choice> := [];
    for i := 0 to |m.calls|
      invariant chosen == ChoicesUpTo(m, step, ctx.bindings, strict, i)
      invariant Collected(m, ctx, step, strict, chosen, results)
    {
      CallRow(m, step, ctx.bindings, strict, i);
      if MatchExternalCall(m.calls[i], step.pattern.external.value, step.pattern, ctx.bindings, strict) {
        var r := ExtendContext(ctx, step, CallOf(m.calls[i]), []);
        ghost var c := Choice(i, 0);
        AfterIsExtended(m, ctx, step, strict, c);
        Collect(m, ctx, step, strict, chosen, results, c);
        results := results + [r];
        chosen := chosen + [c];
      }
    }
  }

  method MatchStep(m: Model, step: Step, ctx: Context, strict: bool) returns (results: seq<Context>)
    ensures results == StepContexts(m, ctx, step, strict)
  {
    if step.pattern.write.Some? {
      results := MatchWrites(m, step, ctx, strict);
    } else if step.pattern.read.Some? {
      results := MatchReads(m, step, ctx, strict);
    } else if step.pattern.delegate.Some? {
      results := MatchDelegatecalls(m, step, ctx, strict);
    } else if step.pattern.external.Some? {
      results := MatchExternalCalls(m, step, ctx, strict);
    } else {
      results := [];
    }
  }

  // ---- The whole sequence ----

  function SpreadContexts(m: Model, step: Step, strict: bool, contexts: seq<Context>): seq<Context> {
    if contexts == [] then []
    else
      SpreadContexts(m, step, strict, contexts[..|contexts|-1])
      + StepContexts(m, contexts[|contexts|-1], step, strict)
  }

  function Joined(m: Model, steps: seq<Step>, strict: bool): seq<Context> {
    if steps == [] then [START]
    else SpreadContexts(m, steps[|steps|-1], strict, Joined(m, steps[..|steps|-1], strict))
  }

  /** For an empty sequence the rule is matched by its contract predicates, whose result is a parameter. */
  method MatchSequences(m: Model, steps: seq<Step>, strict: bool, contractMatches: seq<Context>)
    returns (contexts: seq<Context>)
    ensures steps != [] ==> IsJoin(m, steps, strict, contexts)
    ensures steps == [] ==> contexts == contractMatches
  {
    hide IsJoin, StepContexts;
    if steps == [] {
      return contractMatches;
    }
    contexts := [START];
    for i := 0 to |steps|
      invariant contexts == Joined(m, steps[..i], strict)
    {
      var next: seq<Context> := [];
      for k := 0 to |contexts|
        invariant next == SpreadContexts(m, steps[i], strict, contexts[..k])
      {
        var matches := MatchStep(m, steps[i], contexts[k], strict);
        assert contexts[..k + 1][..k] == contexts[..k];
        next := next + matches;
      }
      assert contexts[..|contexts|] == contexts;
      assert steps[..i + 1][..i] == steps[..i];
      contexts := next;
    }
    assert steps[..|steps|] == steps;
    JoinIsExact(m, steps, strict);
  }

  // ---- Why the loops compute the join ----

  /** One run with each of the choices behind it. */
  function Branches(run: seq<Choice>, cs: seq<Choice>): (r: seq<seq<Choice>>)
    ensures |r| == |cs|
    ensures forall i :: 0 <= i < |cs| ==> r[i] == run + [cs[i]]
  {
    if cs == [] then [] else Branches(run, cs[..|cs|-1]) + [run + [cs[|cs|-1]]]
  }

  ghost function SpreadRuns(m: Model, step: Step, strict: bool, runs: seq<seq<Choice>>,
      contexts: seq<Context>): (r: seq<seq<Choice>>)
    requires |runs| == |contexts|
    ensures |r| == |SpreadContexts(m, step, strict, contexts)|
  {
    if runs == [] then []
    else
      var n := |runs| - 1;
      SpreadRuns(m, step, strict, runs[..n], contexts[..n])
      + Branches(runs[n], StepChoices(m, step, contexts[n].bindings, strict))
  }

  /** `run` continues run `k` with a choice that fits its context. */
  ghost predicate ContinuesAt(m: Model, step: Step, strict: bool, runs: seq<seq<Choice>>, contexts: seq<Context>,
                              run: seq<Choice>, k: nat)
    requires |runs| == |contexts|
  {
    && k < |runs| && run != [] && run[..|run|-1] == runs[k]
    && Fits(m, step, contexts[k].bindings, strict, run[|run|-1])
  }

  ghost predicate Continues(m: Model, step: Step, strict: bool, runs: seq<seq<Choice>>, contexts: seq<Context>,
      run: seq<Choice>)
    requires |runs| == |contexts|
  {
    exists k :: ContinuesAt(m, step, strict, runs, contexts, run, k)
  }

  /** Either the last run is continued or one before it. */
  lemma ContinuesSplit(m: Model, step: Step, strict: bool, runs: seq<seq<Choice>>, contexts: seq<Context>,
      run: seq<Choice>)
    requires |runs| == |contexts| && runs != []
    ensures var n := |runs| - 1;
      Continues(m, step, strict, runs, contexts, run) <==>
      Continues(m, step, strict, runs[..n], contexts[..n], run) || ContinuesAt(m, step, strict, runs, contexts, run, n)
  {
    hide Fits;
    var n := |runs| - 1;
    forall k: nat | k < n
      ensures ContinuesAt(m, step, strict, runs, contexts, run, k) ==
        ContinuesAt(m, step, strict, runs[..n], contexts[..n], run, k)
    {
      assert runs[k] == runs[..n][k] && contexts[k] == contexts[..n][k];
    }
  }

  lemma {:induction false} SpreadIsExact(m: Model, step: Step, strict: bool, runs: seq<seq<Choice>>,
      contexts: seq<Context>, run: seq<Choice>)
    requires |runs| == |contexts|
    ensures run in SpreadRuns(m, step, strict, runs, contexts) <==> Continues(m, step, strict, runs, contexts, run)
    decreases |runs|
  {
    if runs != [] {
      var n := |runs| - 1;
      hide Fits, StepChoices, Continues;
      SpreadIsExact(m, step, strict, runs[..n], contexts[..n], run);
      ContinuesSplit(m, step, strict, runs, contexts, run);
      StepIsExact(m, step, contexts[n].bindings, strict);
      BranchMember(runs[n], StepChoices(m, step, contexts[n].bindings, strict), run);
    }
  }

  lemma BranchMember(run: seq<Choice>, cs: seq<Choice>, x: seq<Choice>)
    ensures x in Branches(run, cs) <==> x != [] && x[..|x|-1] == run && x[|x|-1] in cs
  {
    if x in Branches(run, cs) {
      var i :| 0 <= i < |cs| && Branches(run, cs)[i] == x;
      assert x == run + [cs[i]];
    }
    if x != [] && x[..|x|-1] == run && x[|x|-1] in cs {
      var i :| 0 <= i < |cs| && cs[i] == x[|x|-1];
      assert Branches(run, cs)[i] == x;
    }
  }

  lemma {:induction false} RunBeforeExtends(r: seq<Choice>, s: seq<Choice>, c: Choice, d: Choice)
    requires RunBefore(r, s)
    ensures RunBefore(r + [c], s + [d])
  {
    assert (r + [c])[1..] == r[1..] + [c] && (s + [d])[1..] == s[1..] + [d];
    if r[0] == s[0] && RunBefore(r[1..], s[1..]) {
      RunBeforeExtends(r[1..], s[1..], c, d);
    }
  }

  lemma {:induction false} SiblingsInOrder(r: seq<Choice>, c: Choice, d: Choice)
    requires ChoiceBefore(c, d)
    ensures RunBefore(r + [c], r + [d])
  {
    if r != [] {
      assert (r + [c])[1..] == r[1..] + [c] && (r + [d])[1..] == r[1..] + [d];
      SiblingsInOrder(r[1..], c, d);
    }
  }

  lemma {:induction false} SpreadInOrder(m: Model, step: Step, strict: bool, runs: seq<seq<Choice>>,
      contexts: seq<Context>)
    requires |runs| == |contexts| && InOrder(runs)
    ensures InOrder(SpreadRuns(m, step, strict, runs, contexts))
    decreases |runs|
  {
    hide Fits, StepChoices, RunBefore;
    if runs != [] {
      var n := |runs| - 1;
      var before := SpreadRuns(m, step, strict, runs[..n], contexts[..n]);
      var cs := StepChoices(m, step, contexts[n].bindings, strict);
      SpreadInOrder(m, step, strict, runs[..n], contexts[..n]);
      StepIsExact(m, step, contexts[n].bindings, strict);
      forall i, j | 0 <= i < |before| && 0 <= j < |cs| ensures RunBefore(before[i], runs[n] + [cs[j]]) {
        EarlierRunStaysEarlier(m, step, strict, runs, contexts, before[i], cs[j]);
      }
      forall i, j | 0 <= i < j < |cs| ensures RunBefore(runs[n] + [cs[i]], runs[n] + [cs[j]]) {
        SiblingsInOrder(runs[n], cs[i], cs[j]);
      }
    }
  }

  lemma EarlierRunStaysEarlier(m: Model, step: Step, strict: bool, runs: seq<seq<Choice>>, contexts: seq<Context>,
                               run: seq<Choice>, d: Choice)
    requires |runs| == |contexts| && InOrder(runs) && runs != []
    requires run in SpreadRuns(m, step, strict, runs[..|runs|-1], contexts[..|runs|-1])
    ensures RunBefore(run, runs[|runs|-1] + [d])
  {
    hide Fits, StepChoices, RunBefore, SpreadRuns;
    var n := |runs| - 1;
    SpreadIsExact(m, step, strict, runs[..n], contexts[..n], run);
    var k: nat :| ContinuesAt(m, step, strict, runs[..n], contexts[..n], run, k);
    assert runs[..n][k] == runs[k];
    RunBeforeExtends(runs[k], runs[n], run[|run|-1], d);
    assert run == runs[k] + [run[|run|-1]];
  }

  /** One more step of a run. */
  lemma FollowOne(m: Model, steps: seq<Step>, strict: bool, run: seq<Choice>, c: Choice)
    requires steps != [] && |run| == |steps| - 1
    ensures Follow(m, steps, strict, run + [c]) == (
      match Follow(m, steps[..|steps|-1], strict, run)
      case None => None
      case Some(ctx) =>
        if Fits(m, steps[|steps|-1], ctx.bindings, strict, c)
        then Some(After(m, ctx, steps[|steps|-1], strict, c)) else None)
  {
    hide Fits, After;
    assert (run + [c])[..|run|] == run;
  }

  lemma {:induction false} SpreadYields(m: Model, steps: seq<Step>, strict: bool, runs: seq<seq<Choice>>,
      contexts: seq<Context>)
    requires steps != [] && Yields(m, steps[..|steps|-1], strict, runs, contexts)
    ensures Yields(m, steps, strict, SpreadRuns(m, steps[|steps|-1], strict, runs, contexts),
                   SpreadContexts(m, steps[|steps|-1], strict, contexts))
    decreases |runs|
  {
    hide Fits, StepChoices, Follow, After;
    if runs != [] {
      var n := |runs| - 1;
      var step := steps[|steps|-1];
      SpreadYields(m, steps, strict, runs[..n], contexts[..n]);
      var cs := StepChoices(m, step, contexts[n].bindings, strict);
      StepChoicesFit(m, step, contexts[n].bindings, strict);
      forall j | 0 <= j < |cs|
        ensures Follow(m, steps, strict, runs[n] + [cs[j]]) == Some(After(m, contexts[n], step, strict, cs[j]))
      {
        FollowOne(m, steps, strict, runs[n], cs[j]);
      }
      BranchesYield(m, steps, strict, runs[n], contexts[n]);
      YieldsConcat(m, steps, strict, SpreadRuns(m, step, strict, runs[..n], contexts[..n]),
        SpreadContexts(m, step, strict, contexts[..n]), Branches(runs[n], cs), StepContexts(m, contexts[n], step, strict));
    }
  }

  lemma BranchesYield(m: Model, steps: seq<Step>, strict: bool, run: seq<Choice>, ctx: Context)
    requires steps != [] && |run| == |steps| - 1 && Follow(m, steps[..|steps|-1], strict, run) == Some(ctx)
    ensures Yields(m, steps, strict, Branches(run, StepChoices(m, steps[|steps|-1], ctx.bindings, strict)),
                   StepContexts(m, ctx, steps[|steps|-1], strict))
  {
    hide Fits, StepChoices, Follow, After;
    var step := steps[|steps|-1];
    var cs := StepChoices(m, step, ctx.bindings, strict);
    StepChoicesFit(m, step, ctx.bindings, strict);
    forall j | 0 <= j < |cs|
      ensures Follow(m, steps, strict, run + [cs[j]]) == Some(After(m, ctx, step, strict, cs[j]))
    {
      FollowOne(m, steps, strict, run, cs[j]);
    }
  }

  lemma YieldsConcat(m: Model, steps: seq<Step>, strict: bool, runs: seq<seq<Choice>>, contexts: seq<Context>,
                     runs': seq<seq<Choice>>, contexts': seq<Context>)
    requires Yields(m, steps, strict, runs, contexts) && Yields(m, steps, strict, runs', contexts')
    ensures Yields(m, steps, strict, runs + runs', contexts + contexts')
  {
    hide Follow;
  }

  lemma SpreadMatches(m: Model, steps: seq<Step>, strict: bool, runs: seq<seq<Choice>>, contexts: seq<Context>)
    requires steps != [] && Yields(m, steps[..|steps|-1], strict, runs, contexts)
    requires AreMatches(m, steps[..|steps|-1], strict, runs)
    ensures AreMatches(m, steps, strict, SpreadRuns(m, steps[|steps|-1], strict, runs, contexts))
  {
    hide Fits, Follow, After, SpreadRuns;
    var n := |steps| - 1;
    forall run ensures run in SpreadRuns(m, steps[n], strict, runs, contexts) <==> IsMatch(m, steps, strict, run) {
      SpreadIsExact(m, steps[n], strict, runs, contexts, run);
      if Continues(m, steps[n], strict, runs, contexts, run) {
        var init, last := run[..|run|-1], run[|run|-1];
        var k: nat :| ContinuesAt(m, steps[n], strict, runs, contexts, run, k);
        assert run == init + [last];
        FollowOne(m, steps, strict, init, last);
      }
      if IsMatch(m, steps, strict, run) {
        var init, last := run[..n], run[n];
        assert run == init + [last];
        FollowOne(m, steps, strict, init, last);
        assert IsMatch(m, steps[..n], strict, init);
        assert init in runs;
        var k :| 0 <= k < |runs| && runs[k] == init;
        assert ContinuesAt(m, steps[n], strict, runs, contexts, run, k);
      }
    }
  }

  ghost function JoinedRuns(m: Model, steps: seq<Step>, strict: bool): (runs: seq<seq<Choice>>)
    ensures |runs| == |Joined(m, steps, strict)|
  {
    if steps == [] then [[]]
    else
      var n := |steps| - 1;
      SpreadRuns(m, steps[n], strict, JoinedRuns(m, steps[..n], strict), Joined(m, steps[..n], strict))
  }

  lemma {:induction false} JoinedRunsAreExact(m: Model, steps: seq<Step>, strict: bool)
    ensures InOrder(JoinedRuns(m, steps, strict))
    ensures AreMatches(m, steps, strict, JoinedRuns(m, steps, strict))
    ensures Yields(m, steps, strict, JoinedRuns(m, steps, strict), Joined(m, steps, strict))
    decreases |steps|
  {
    hide SpreadRuns, SpreadContexts, RunBefore, InOrder;
    if steps == [] {
      OneRunInOrder();
      NoSteps(m, strict);
    } else {
      var n := |steps| - 1;
      var runs, contexts := JoinedRuns(m, steps[..n], strict), Joined(m, steps[..n], strict);
      JoinedRunsAreExact(m, steps[..n], strict);
      hide Yields, AreMatches;
      SpreadInOrder(m, steps[n], strict, runs, contexts);
      SpreadMatches(m, steps, strict, runs, contexts);
      SpreadYields(m, steps, strict, runs, contexts);
    }
  }

  lemma OneRunInOrder()
    ensures InOrder([[]])
  {
  }

  lemma NoSteps(m: Model, strict: bool)
    ensures AreMatches(m, [], strict, [[]])
    ensures Yields(m, [], strict, [[]], [START])
  {
    forall run ensures run in [[]] <==> IsMatch(m, [], strict, run) {
    }
  }

  /** The nested loops compute the join of the index with itself, once per step. */
  lemma JoinIsExact(m: Model, steps: seq<Step>, strict: bool)
    ensures IsJoin(m, steps, strict, Joined(m, steps, strict))
  {
    JoinedRunsAreExact(m, steps, strict);
    assert InOrder(JoinedRuns(m, steps, strict));
  }

  // ---- The order leaves one result only ----

  lemma {:induction false} RunBeforeAsymmetric(r: seq<Choice>, s: seq<Choice>)
    requires RunBefore(r, s)
    ensures !RunBefore(s, r) && r != s
  {
    if r[0] == s[0] {
      RunBeforeAsymmetric(r[1..], s[1..]);
    }
  }

  lemma {:induction false} ListingsAgree(a: seq<seq<Choice>>, b: seq<seq<Choice>>)
    requires InOrder(a) && InOrder(b)
    requires forall run :: run in a <==> run in b
    ensures a == b
    decreases |a|
  {
    hide RunBefore;
    if a == [] || b == [] {
      SomeMember(a);
      SomeMember(b);
    } else {
      assert a[0] in b && b[0] in a;
      var i :| 0 <= i < |a| && a[i] == b[0];
      var j :| 0 <= j < |b| && b[j] == a[0];
      if i > 0 && j > 0 {
        RunBeforeAsymmetric(a[0], a[i]);
      }
      TailMembers(a);
      TailMembers(b);
      ListingsAgree(a[1..], b[1..]);
      assert a == [a[0]] + a[1..] && b == [b[0]] + b[1..];
    }
  }

  lemma SomeMember(a: seq<seq<Choice>>)
    ensures a != [] <==> exists run :: run in a
  {
    if a != [] {
      assert a[0] in a;
    }
  }

  lemma TailMembers(a: seq<seq<Choice>>)
    requires InOrder(a) && a != []
    ensures InOrder(a[1..]) && forall run :: run in a[1..] <==> run in a && run != a[0]
  {
    hide RunBefore;
    forall i | 0 < i < |a| ensures a[i] != a[0] {
      RunBeforeAsymmetric(a[0], a[i]);
    }
    forall run | run in a && run != a[0] ensures run in a[1..] {
      var i :| 0 <= i < |a| && a[i] == run;
      assert a[1..][i-1] == run;
    }
  }

  /** A rule and a state model have one join: nothing is left to the order of evaluation. */
  lemma JoinIsUnique(m: Model, steps: seq<Step>, strict: bool, a: seq<Context>, b: seq<Context>)
    requires IsJoin(m, steps, strict, a) && IsJoin(m, steps, strict, b)
    ensures a == b
  {
    hide InOrder, Follow;
    var ra :| InOrder(ra) && AreMatches(m, steps, strict, ra) && Yields(m, steps, strict, ra, a);
    var rb :| InOrder(rb) && AreMatches(m, steps, strict, rb) && Yields(m, steps, strict, rb, b);
    ListingsAgree(ra, rb);
    forall k | 0 <= k < |a| ensures a[k] == b[k] {
      assert Follow(m, steps, strict, ra[k]) == Some(a[k]);
      assert Follow(m, steps, strict, rb[k]) == Some(b[k]);
    }
  }

  // ---- What a join means ----

  /** The bindings a step of a match was tested against. */
  function BindingsAt(m: Model, steps: seq<Step>, strict: bool, run: seq<Choice>, p: nat): Bindings
    requires p <= |run| == |steps| && Follow(m, steps[..p], strict, run[..p]).Some?
  {
    Follow(m, steps[..p], strict, run[..p]).value.bindings
  }

  lemma {:induction false} PrefixMatches(m: Model, steps: seq<Step>, strict: bool, run: seq<Choice>, p: nat)
    requires IsMatch(m, steps, strict, run) && p <= |run|
    ensures IsMatch(m, steps[..p], strict, run[..p])
    ensures p < |run| ==> Fits(m, steps[p], BindingsAt(m, steps, strict, run, p), strict, run[p])
    decreases |run|
  {
    hide Fits, After;
    if p == |run| {
      assert run[..p] == run && steps[..p] == steps;
    } else if p < |run| - 1 {
      var n := |run| - 1;
      PrefixMatches(m, steps[..n], strict, run[..n], p);
      assert run[..n][..p] == run[..p] && steps[..n][..p] == steps[..p];
    }
  }

  /** The last entry for `name` binds it to `key`. */
  ghost predicate LastBinds(bind: seq<Bind>, name: string, key: string) {
    exists i :: 0 <= i < |bind| && bind[i] == Bind(key, name) && forall j :: i < j < |bind| ==> bind[j].name != name
  }

  predicate NeverNames(bind: seq<Bind>, name: string) {
    forall i :: 0 <= i < |bind| ==> bind[i].name != name
  }

  lemma {:induction false} UnnamedIsKept(b: Bindings, bind: seq<Bind>, p: Picked, name: string)
    requires NeverNames(bind, name)
    ensures Lookup(Bound(b, bind, p), name) == Lookup(b, name)
    decreases |bind|
  {
    if bind != [] {
      UnnamedIsKept(b, bind[..|bind|-1], p, name);
    }
  }

  lemma {:induction false} LastBindCounts(b: Bindings, bind: seq<Bind>, p: Picked, name: string, key: string)
    requires LastBinds(bind, name, key) && "$" <= name && ValueFor(key, p).Some?
    ensures Lookup(Bound(b, bind, p), name) == ValueFor(key, p).value
    decreases |bind|
  {
    var i :| 0 <= i < |bind| && bind[i] == Bind(key, name) && forall j :: i < j < |bind| ==> bind[j].name != name;
    var n := |bind| - 1;
    if i < n {
      assert bind[..n][i] == bind[i];
      LastBindCounts(b, bind[..n], p, name, key);
    }
  }

  lemma NextBindings(m: Model, steps: seq<Step>, strict: bool, run: seq<Choice>, p: nat)
    requires IsMatch(m, steps, strict, run) && p < |run|
    ensures IsMatch(m, steps[..p], strict, run[..p]) && IsMatch(m, steps[..p + 1], strict, run[..p + 1])
    ensures InRange(m, steps[p], run[p])
    ensures BindingsAt(m, steps, strict, run, p + 1) ==
      Bound(BindingsAt(m, steps, strict, run, p), steps[p].bind, PickedBy(m, steps[p], run[p]))
  {
    hide Bound, PickedBy, GuardsOf;
    PrefixMatches(m, steps, strict, run, p);
    PrefixMatches(m, steps, strict, run, p + 1);
    assert run[..p + 1][..p] == run[..p] && steps[..p + 1][..p] == steps[..p];
    assert run[..p + 1][p] == run[p] && steps[..p + 1][p] == steps[p];
  }

  /** A variable holds what step `p` bound to it until a later step names it again. */
  lemma {:induction false} BindingLasts(m: Model, steps: seq<Step>, strict: bool, run: seq<Choice>, p: nat, q: nat,
                                        name: string, key: string)
    requires IsMatch(m, steps, strict, run) && p < q < |run|
    requires "$" <= name && LastBinds(steps[p].bind, name, key)
    requires InRange(m, steps[p], run[p]) && ValueFor(key, PickedBy(m, steps[p], run[p])).Some?
    requires forall r :: p < r < q ==> NeverNames(steps[r].bind, name)
    ensures IsMatch(m, steps[..q], strict, run[..q])
    ensures Lookup(BindingsAt(m, steps, strict, run, q), name) == ValueFor(key, PickedBy(m, steps[p], run[p])).value
    decreases q
  {
    hide Bound, PickedBy, ValueFor, Fits, Follow, InRange, LastBinds, NeverNames;
    NextBindings(m, steps, strict, run, q - 1);
    var before := BindingsAt(m, steps, strict, run, q - 1);
    var picked := PickedBy(m, steps[q - 1], run[q - 1]);
    if q - 1 == p {
      LastBindCounts(before, steps[p].bind, picked, name, key);
    } else {
      BindingLasts(m, steps, strict, run, p, q - 1, name, key);
      UnnamedIsKept(before, steps[q - 1].bind, picked, name);
    }
  }

  predicate OnStorage(step: Step) {
    step.pattern.write.Some? || step.pattern.read.Some?
  }

  /** The variable that the step's slot must agree with. */
  function JoinVariable(step: Step): Option<string> {
    if step.pattern.write.Some? then step.pattern.write.value.slot.sameSlotAs
    else if step.pattern.read.Some? then step.pattern.read.value.slot.sameSlotAs
    else if step.pattern.delegate.Some? then step.pattern.delegate.value.sameSlotAs
    else None
  }

  /** In every match, a step joined on a variable uses the slot of the step that bound it. */
  lemma SameSlotJoins(m: Model, steps: seq<Step>, strict: bool, run: seq<Choice>, p: nat, q: nat, name: string)
    requires IsMatch(m, steps, strict, run) && p < q < |run|
    requires "$" <= name && OnStorage(steps[p]) && LastBinds(steps[p].bind, name, "slot")
    requires forall r :: p < r < q ==> NeverNames(steps[r].bind, name)
    requires JoinVariable(steps[q]) == Some(name)
    ensures InRange(m, steps[p], run[p]) && InRange(m, steps[q], run[q])
    ensures OnStorage(steps[q]) ==> m.slots[run[q].row].slot == m.slots[run[p].row].slot
    ensures !OnStorage(steps[q]) ==> m.calls[run[q].row].targetSlot == m.slots[run[p].row].slot
  {
    hide Follow, LastBinds, NeverNames;
    NextBindings(m, steps, strict, run, p);
    PrefixMatches(m, steps, strict, run, q);
    BindingLasts(m, steps, strict, run, p, q, name, "slot");
    assert Fits(m, steps[q], BindingsAt(m, steps, strict, run, q), strict, run[q]);
    hide BindingsAt;
    assert name != "";
  }

  /** The same for calls: a joined external call goes to the target of the call that bound the variable. */
  lemma SameTargetJoins(m: Model, steps: seq<Step>, strict: bool, run: seq<Choice>, p: nat, q: nat, name: string)
    requires IsMatch(m, steps, strict, run) && p < q < |run|
    requires "$" <= name && !OnStorage(steps[p]) && LastBinds(steps[p].bind, name, "call_target")
    requires forall r :: p < r < q ==> NeverNames(steps[r].bind, name)
    requires !OnStorage(steps[q]) && steps[q].pattern.delegate.None? && steps[q].pattern.external.Some?
    requires steps[q].pattern.external.value.sameTargetAs == Some(name)
    ensures InRange(m, steps[p], run[p]) && InRange(m, steps[q], run[q])
    ensures m.calls[run[q].row].target == m.calls[run[p].row].target
  {
    hide Follow, LastBinds, NeverNames;
    NextBindings(m, steps, strict, run, p);
    PrefixMatches(m, steps, strict, run, q);
    BindingLasts(m, steps, strict, run, p, q, name, "call_target");
    assert Fits(m, steps[q], BindingsAt(m, steps, strict, run, q), strict, run[q]);
    hide BindingsAt;
    assert name != "";
  }

  // ---- A larger state model ----

  predicate SlotGrows(s: Slot, s': Slot) {
    && s == s'.(writers := s.writers, readers := s.readers)
    && (forall w :: w in s.writers ==> w in s'.writers)
    && (forall r :: r in s.readers ==> r in s'.readers)
  }

  ghost predicate HasGrown(s: Slot, m': Model) {
    exists i :: 0 <= i < |m'.slots| && SlotGrows(s, m'.slots[i])
  }

  /** `m'` has all that `m` has, perhaps elsewhere and with more beside it. */
  ghost predicate Enlarges(m': Model, m: Model) {
    && (forall i :: 0 <= i < |m.slots| ==> HasGrown(m.slots[i], m'))
    && (forall c :: c in m.calls ==> c in m'.calls)
  }

  lemma ChoiceSurvives(m: Model, m': Model, step: Step, b: Bindings, strict: bool, c: Choice) returns (c': Choice)
    requires Enlarges(m', m) && Fits(m, step, b, strict, c)
    ensures Fits(m', step, b, strict, c')
    ensures PickedBy(m', step, c') == PickedBy(m, step, c) && GuardsOf(m', step, c') == GuardsOf(m, step, c)
  {
    if OnStorage(step) {
      assert HasGrown(m.slots[c.row], m');
      var row :| 0 <= row < |m'.slots| && SlotGrows(m.slots[c.row], m'.slots[row]);
      if step.pattern.write.Some? {
        assert m.slots[c.row].writers[c.item] in m'.slots[row].writers;
        var item :| 0 <= item < |m'.slots[row].writers| && m'.slots[row].writers[item] == m.slots[c.row].writers[c.item];
        c' := Choice(row, item);
      } else {
        assert m.slots[c.row].readers[c.item] in m'.slots[row].readers;
        var item :| 0 <= item < |m'.slots[row].readers| && m'.slots[row].readers[item] == m.slots[c.row].readers[c.item];
        c' := Choice(row, item);
      }
    } else {
      assert m.calls[c.row] in m'.calls;
      var row :| 0 <= row < |m'.calls| && m'.calls[row] == m.calls[c.row];
      c' := Choice(row, 0);
    }
  }

  lemma {:induction false} MatchSurvives(m: Model, m': Model, steps: seq<Step>, strict: bool, run: seq<Choice>)
    returns (run': seq<Choice>)
    requires Enlarges(m', m) && IsMatch(m, steps, strict, run)
    ensures IsMatch(m', steps, strict, run') && Follow(m', steps, strict, run') == Follow(m, steps, strict, run)
    decreases |run|
  {
    hide Fits, Enlarges, PickedBy, GuardsOf, Extended;
    if run == [] {
      run' := [];
    } else {
      var n := |run| - 1;
      var init := MatchSurvives(m, m', steps[..n], strict, run[..n]);
      var ctx := Follow(m, steps[..n], strict, run[..n]).value;
      var c := ChoiceSurvives(m, m', steps[n], ctx.bindings, strict, run[n]);
      run' := init + [c];
      assert run'[..n] == init;
    }
  }

  /** Adding slots, writers, readers or calls to the indexes never removes a match. */
  lemma EnlargingOnlyAdds(m: Model, m': Model, steps: seq<Step>, strict: bool, a: seq<Context>, b: seq<Context>, k: nat)
    requires Enlarges(m', m) && IsJoin(m, steps, strict, a) && IsJoin(m', steps, strict, b) && k < |a|
    ensures a[k] in b
  {
    hide Enlarges, Follow, InOrder;
    var ra :| InOrder(ra) && AreMatches(m, steps, strict, ra) && Yields(m, steps, strict, ra, a);
    var rb :| InOrder(rb) && AreMatches(m', steps, strict, rb) && Yields(m', steps, strict, rb, b);
    assert Follow(m, steps, strict, ra[k]) == Some(a[k]);
    var run := MatchSurvives(m, m', steps, strict, ra[k]);
    assert run in rb;
    var j :| 0 <= j < |rb| && rb[j] == run;
    assert b[j] == a[k];
  }

  // ---- A larger state model, with everything as often as before ----

  /** Where the slots, their writers and readers, and the calls of a model stand in a larger one. */
  datatype Places = Places(slots: seq<nat>, writers: seq<seq<nat>>, readers: seq<seq<nat>>, calls: seq<nat>)

  ghost predicate AllDifferent(at: seq<nat>) {
    forall i, j :: 0 <= i < j < |at| ==> at[i] != at[j]
  }

  /** Each element of `s` stands in `s'` at a place of its own. */
  ghost predicate Placed<T>(s: seq<T>, s': seq<T>, at: seq<nat>) {
    |at| == |s| && AllDifferent(at) && forall i :: 0 <= i < |s| ==> at[i] < |s'| && s'[at[i]] == s[i]
  }

  ghost predicate SlotPlaced(s: Slot, s': Slot, writers: seq<nat>, readers: seq<nat>) {
    && s == s'.(writers := s.writers, readers := s.readers)
    && Placed(s.writers, s'.writers, writers) && Placed(s.readers, s'.readers, readers)
  }

  ghost predicate Contains(m': Model, m: Model, at: Places) {
    && |at.slots| == |at.writers| == |at.readers| == |m.slots| && AllDifferent(at.slots)
    && (forall i :: 0 <= i < |m.slots| ==>
          at.slots[i] < |m'.slots| && SlotPlaced(m.slots[i], m'.slots[at.slots[i]], at.writers[i], at.readers[i]))
    && Placed(m.calls, m'.calls, at.calls)
  }

  /** The same choice in the larger model. */
  ghost function Moved(m': Model, m: Model, at: Places, step: Step, c: Choice): Choice
    requires Contains(m', m, at) && InRange(m, step, c)
  {
    if step.pattern.write.Some? then Choice(at.slots[c.row], at.writers[c.row][c.item])
    else if step.pattern.read.Some? then Choice(at.slots[c.row], at.readers[c.row][c.item])
    else Choice(at.calls[c.row], c.item)
  }

  lemma MovedFits(m': Model, m: Model, at: Places, step: Step, b: Bindings, strict: bool, c: Choice)
    requires Contains(m', m, at) && Fits(m, step, b, strict, c)
    ensures var c' := Moved(m', m, at, step, c);
      Fits(m', step, b, strict, c') && PickedBy(m', step, c') == PickedBy(m, step, c)
      && GuardsOf(m', step, c') == GuardsOf(m, step, c)
  {
    hide MatchWriter, MatchReader, MatchDelegatecall, MatchExternalCall, AllDifferent;
    if OnStorage(step) {
      assert SlotPlaced(m.slots[c.row], m'.slots[at.slots[c.row]], at.writers[c.row], at.readers[c.row]);
    }
  }

  lemma MovedApart(m': Model, m: Model, at: Places, step: Step, c: Choice, d: Choice)
    requires Contains(m', m, at) && InRange(m, step, c) && InRange(m, step, d)
    requires Moved(m', m, at, step, c) == Moved(m', m, at, step, d)
    ensures c == d
  {
    if OnStorage(step) {
      assert c.row == d.row;
      assert SlotPlaced(m.slots[c.row], m'.slots[at.slots[c.row]], at.writers[c.row], at.readers[c.row]);
    }
  }

  lemma LastFits(m: Model, steps: seq<Step>, strict: bool, run: seq<Choice>)
    requires IsMatch(m, steps, strict, run) && run != []
    ensures var n := |run| - 1;
      && IsMatch(m, steps[..n], strict, run[..n]) && InRange(m, steps[n], run[n])
      && Fits(m, steps[n], Follow(m, steps[..n], strict, run[..n]).value.bindings, strict, run[n])
  {
    hide Fits;
    var n := |run| - 1;
    FitsInRange(m, steps[n], Follow(m, steps[..n], strict, run[..n]).value.bindings, strict, run[n]);
  }

  lemma FitsInRange(m: Model, step: Step, b: Bindings, strict: bool, c: Choice)
    requires Fits(m, step, b, strict, c)
    ensures InRange(m, step, c)
  {
  }

  ghost function MovedRun(m': Model, m: Model, at: Places, steps: seq<Step>, strict: bool,
                          run: seq<Choice>): (r: seq<Choice>)
    requires Contains(m', m, at) && IsMatch(m, steps, strict, run)
    ensures |r| == |run|
  {
    if run == [] then []
    else
      LastFits(m, steps, strict, run);
      var n := |run| - 1;
      MovedRun(m', m, at, steps[..n], strict, run[..n]) + [Moved(m', m, at, steps[n], run[n])]
  }

  lemma {:induction false} MovedRunMatches(
    m': Model, m: Model, at: Places, steps: seq<Step>, strict: bool, run: seq<Choice>)
    requires Contains(m', m, at) && IsMatch(m, steps, strict, run)
    ensures var r := MovedRun(m', m, at, steps, strict, run);
      IsMatch(m', steps, strict, r) && Follow(m', steps, strict, r) == Follow(m, steps, strict, run)
    decreases |run|
  {
    hide Fits, Contains, PickedBy, GuardsOf, Extended, Moved, InRange;
    if run != [] {
      var n := |run| - 1;
      LastFits(m, steps, strict, run);
      MovedRunMatches(m', m, at, steps[..n], strict, run[..n]);
      MovedFits(m', m, at, steps[n], Follow(m, steps[..n], strict, run[..n]).value.bindings, strict, run[n]);
      var r := MovedRun(m', m, at, steps, strict, run);
      assert r[..n] == MovedRun(m', m, at, steps[..n], strict, run[..n]);
    }
  }

  lemma {:induction false} MovedRunsApart(
    m': Model, m: Model, at: Places, steps: seq<Step>, strict: bool, r: seq<Choice>, s: seq<Choice>)
    requires Contains(m', m, at) && IsMatch(m, steps, strict, r) && IsMatch(m, steps, strict, s)
    requires MovedRun(m', m, at, steps, strict, r) == MovedRun(m', m, at, steps, strict, s)
    ensures r == s
    decreases |r|
  {
    hide Fits, Contains, Moved, InRange, Follow;
    if r != [] {
      var n := |r| - 1;
      LastFits(m, steps, strict, r);
      LastFits(m, steps, strict, s);
      var q := MovedRun(m', m, at, steps, strict, r);
      assert q[..n] == MovedRun(m', m, at, steps[..n], strict, r[..n]);
      assert q[..n] == MovedRun(m', m, at, steps[..n], strict, s[..n]);
      MovedRunsApart(m', m, at, steps[..n], strict, r[..n], s[..n]);
      MovedApart(m', m, at, steps[n], r[n], s[n]);
      assert r == r[..n] + [r[n]] && s == s[..n] + [s[n]];
    }
  }

  lemma {:induction false} BeforeIsDifferent(r: seq<Choice>, s: seq<Choice>)
    requires RunBefore(r, s)
    ensures r != s
  {
    if r[0] == s[0] {
      BeforeIsDifferent(r[1..], s[1..]);
    }
  }

  /**
   A state model that has everything at least as often as a smaller one finds
   all its matches, each at a place of its own.
   */
  lemma EnlargingEmbeds(m': Model, m: Model, at: Places, steps: seq<Step>, strict: bool, a: seq<Context>, b: seq<Context>)
    returns (places: seq<nat>)
    requires Contains(m', m, at) && IsJoin(m, steps, strict, a) && IsJoin(m', steps, strict, b)
    ensures Placed(a, b, places)
  {
    hide Contains, Follow, MovedRun;
    var ra :| InOrder(ra) && AreMatches(m, steps, strict, ra) && Yields(m, steps, strict, ra, a);
    var rb :| InOrder(rb) && AreMatches(m', steps, strict, rb) && Yields(m', steps, strict, rb, b);
    places := PlacesOfRuns(m', m, at, steps, strict, ra, rb, |ra|);
    forall k | 0 <= k < |a| ensures b[places[k]] == a[k] {
      MovedRunMatches(m', m, at, steps, strict, ra[k]);
    }
  }

  lemma {:induction false} PlacesOfRuns(m': Model, m: Model, at: Places, steps: seq<Step>, strict: bool,
      ra: seq<seq<Choice>>, rb: seq<seq<Choice>>, n: nat) returns (places: seq<nat>)
    requires Contains(m', m, at) && InOrder(ra) && n <= |ra|
    requires AreMatches(m, steps, strict, ra) && AreMatches(m', steps, strict, rb)
    ensures |places| == n && AllDifferent(places)
    ensures forall k :: 0 <= k < n ==>
      && IsMatch(m, steps, strict, ra[k]) && places[k] < |rb|
      && rb[places[k]] == MovedRun(m', m, at, steps, strict, ra[k])
  {
    hide Contains, Follow, MovedRun, RunBefore, IsMatch;
    if n == 0 {
      places := [];
    } else {
      var init := PlacesOfRuns(m', m, at, steps, strict, ra, rb, n - 1);
      var run := ra[n-1];
      assert run in ra;
      MovedRunMatches(m', m, at, steps, strict, run);
      var r := MovedRun(m', m, at, steps, strict, run);
      assert r in rb;
      var j :| 0 <= j < |rb| && rb[j] == r;
      forall k | 0 <= k < n - 1 ensures init[k] != j {
        assert RunBefore(ra[k], run);
        BeforeIsDifferent(ra[k], run);
        if init[k] == j {
          MovedRunsApart(m', m, at, steps, strict, ra[k], run);
        }
      }
      places := init + [j];
    }
  }
}
