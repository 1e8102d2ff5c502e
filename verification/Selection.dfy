/** What the constraints of a rule select. */
module Selection {
  // Every field of a constraint narrows the matches to those whose picked
  // record has the value, and a constraint without fields narrows nothing.

  import opened Words
  import opened Engine

  /** One field of a constraint with its value. */
  datatype Condition =
    | Roles(vs: set<string>) | SlotOf(name: string) | Confidence(least: real) | ProxyKind(v: string)
    | UserControlled | Reachability(v: string) | CallerConstraint(v: string) | Origins(vs: set<string>)
    | UsedIn(v: string) | AuthorizedEffects(vs: set<string>) | ReachableEffects(vs: set<string>)
    | Controllability(v: string) | Validation(v: string) | ReturnConsumed | TargetOf(name: string)
    | ReturnEffects(vs: set<string>)

  /** Missing, null or empty: the constraint says nothing here yet. */
  predicate Absent(x: Option<string>) {
    x == None || x == Some("")
  }

  /** The value a variable has, null if it has none. */
  function ValueOf(b: Bindings, name: string): Option<string> {
    if name in b.Keys then b[name] else None
  }

  predicate Among(x: Option<string>, vs: set<string>) {
    match x
    case None => false
    case Some(v) => v in vs
  }

  predicate Common(vs: set<string>, ws: set<string>) {
    exists v :: v in vs && v in ws
  }

  // ---- Slots ----

  predicate SlotOpen(c: SlotConstraint, x: Condition) {
    match x
    case Roles(vs) => vs != {} && c.roles == {}
    case SlotOf(name) => name != "" && Absent(c.sameSlotAs)
    case Confidence(least) => c.minConfidence <= least
    case ProxyKind(v) => v != "" && Absent(c.proxyKind)
    case _ => false
  }

  function SlotAdded(c: SlotConstraint, x: Condition): SlotConstraint
    requires SlotOpen(c, x)
  {
    match x
    case Roles(vs) => c.(roles := vs)
    case SlotOf(name) => c.(sameSlotAs := Some(name))
    case Confidence(least) => c.(minConfidence := least)
    case ProxyKind(v) => c.(proxyKind := Some(v))
  }

  /** The slot has the value; its confidence is that of its role, else its own, else zero. */
  predicate SlotHas(s: Slot, b: Bindings, x: Condition) {
    match x
    case Roles(vs) => Among(s.role, vs)
    case SlotOf(name) => s.slot == ValueOf(b, name)
    case Confidence(least) =>
      least <= (if s.roleConfidence.Some? then s.roleConfidence.value
                else if s.confidence.Some? then s.confidence.value else 0.0)
    case ProxyKind(v) => s.proxyKind == Some(v)
    case _ => false
  }

  lemma SlotLaw(s: Slot, c: SlotConstraint, x: Condition, b: Bindings, strict: bool)
    requires SlotOpen(c, x)
    ensures MatchSlot(s, SlotAdded(c, x), b, strict) <==> MatchSlot(s, c, b, strict) && SlotHas(s, b, x)
  {
  }

  // ---- Writers and readers ----

  predicate WriterOpen(c: WriteConstraint, x: Condition) {
    match x
    case UserControlled => !c.userControlled
    case Reachability(v) => v != "" && Absent(c.reachability)
    case CallerConstraint(v) => v != "" && Absent(c.callerConstraint)
    case Origins(vs) => vs != {} && c.origins == {}
    case _ => false
  }

  function WriterAdded(c: WriteConstraint, x: Condition): WriteConstraint
    requires WriterOpen(c, x)
  {
    match x
    case UserControlled => c.(userControlled := true)
    case Reachability(v) => c.(reachability := Some(v))
    case CallerConstraint(v) => c.(callerConstraint := Some(v))
    case Origins(vs) => c.(origins := vs)
  }

  predicate WriterHas(w: Writer, x: Condition) {
    match x
    case UserControlled => w.userControlled
    case Reachability(v) => w.reachability == Some(v)
    case CallerConstraint(v) => w.callerConstraint == Some(v)
    case Origins(vs) => Among(w.origin, vs)
    case _ => false
  }

  lemma WriterLaw(w: Writer, c: WriteConstraint, x: Condition)
    requires WriterOpen(c, x)
    ensures MatchWriter(w, WriterAdded(c, x)) <==> MatchWriter(w, c) && WriterHas(w, x)
  {
  }

  predicate ReaderHas(r: Reader, x: Condition) {
    match x
    case UsedIn(v) => r.usedIn == Some(v)
    case AuthorizedEffects(vs) => Common(vs, r.authorizedEffects)
    case ReachableEffects(vs) => Common(vs, r.reachableEffects)
    case _ => false
  }

  // ---- Calls ----

  predicate DelegateOpen(c: DelegateConstraint, x: Condition) {
    match x
    case Origins(vs) => vs != {} && c.origins == {}
    case SlotOf(name) => name != "" && Absent(c.sameSlotAs)
    case Controllability(v) => v != "" && Absent(c.controllability)
    case _ => false
  }

  function DelegateAdded(c: DelegateConstraint, x: Condition): DelegateConstraint
    requires DelegateOpen(c, x)
  {
    match x
    case Origins(vs) => c.(origins := vs)
    case SlotOf(name) => c.(sameSlotAs := Some(name))
    case Controllability(v) => c.(controllability := Some(v))
  }

  predicate ExternalOpen(c: CallConstraint, x: Condition) {
    match x
    case Origins(vs) => vs != {} && c.origins == {}
    case Controllability(v) => v != "" && Absent(c.controllability)
    case Validation(v) => v != "" && Absent(c.validation)
    case ReturnConsumed => !c.returnConsumed
    case TargetOf(name) => name != "" && Absent(c.sameTargetAs)
    case ReturnEffects(vs) => vs != {} && c.returnEffects == {}
    case _ => false
  }

  function ExternalAdded(c: CallConstraint, x: Condition): CallConstraint
    requires ExternalOpen(c, x)
  {
    match x
    case Origins(vs) => c.(origins := vs)
    case Controllability(v) => c.(controllability := Some(v))
    case Validation(v) => c.(validation := Some(v))
    case ReturnConsumed => c.(returnConsumed := true)
    case TargetOf(name) => c.(sameTargetAs := Some(name))
    case ReturnEffects(vs) => c.(returnEffects := vs)
  }

  predicate CallHas(call: Call, b: Bindings, x: Condition) {
    match x
    case Origins(vs) => Among(call.targetOrigin, vs)
    case SlotOf(name) => call.targetSlot == ValueOf(b, name)
    case TargetOf(name) => call.target == ValueOf(b, name)
    case Controllability(v) => call.controllability == Some(v)
    case Validation(v) => call.validation == Some(v)
    case ReturnConsumed => call.returnConsumed
    case ReturnEffects(vs) => Common(vs, call.returnEffects)
    case ReachableEffects(vs) => Common(vs, call.returnEffects) || Common(vs, call.reachableEffects)
    case _ => false
  }

  lemma DelegateLaw(call: Call, c: DelegateConstraint, x: Condition, b: Bindings, strict: bool)
    requires DelegateOpen(c, x)
    ensures MatchDelegatecall(call, DelegateAdded(c, x), b, strict) <==>
      MatchDelegatecall(call, c, b, strict) && CallHas(call, b, x)
  {
  }

  lemma TouchesCommon(vs: set<string>, ws: set<string>)
    requires vs != {}
    ensures Touches(vs, ws) <==> Common(vs, ws)
  {
    if Common(vs, ws) {
      var v :| v in vs && v in ws;
      assert v in vs * ws;
    }
    if vs * ws != {} {
      var v :| v in vs * ws;
      assert v in vs && v in ws;
    }
  }

  lemma ExternalLaw(call: Call, c: CallConstraint, x: Condition, m: Match, b: Bindings, strict: bool)
    requires ExternalOpen(c, x)
    ensures MatchExternalCall(call, ExternalAdded(c, x), m, b, strict) <==>
      MatchExternalCall(call, c, m, b, strict) && CallHas(call, b, x)
  {
    hide Common;
    if x.ReturnEffects? {
      TouchesCommon(x.vs, call.returnEffects);
    }
  }

  // ---- Steps ----

  predicate ReadOpen(p: Match, c: ReadConstraint, x: Condition) {
    match x
    case UsedIn(v) => v != "" && Absent(c.usedIn)
    case AuthorizedEffects(vs) => vs != {} && p.authorizedEffects == {}
    case ReachableEffects(vs) => vs != {} && p.reachableEffects == {}
    case _ => false
  }

  /** The step looks at this field of what it picks, and its constraint says nothing about it yet. */
  predicate Open(p: Match, x: Condition) {
    if p.write.Some? then SlotOpen(p.write.value.slot, x) || WriterOpen(p.write.value, x)
    else if p.read.Some? then SlotOpen(p.read.value.slot, x) || ReadOpen(p, p.read.value, x)
    else if p.delegate.Some? then DelegateOpen(p.delegate.value, x)
    else if p.external.None? then false
    else ExternalOpen(p.external.value, x) || (x.ReachableEffects? && x.vs != {} && p.reachableEffects == {})
  }

  function Added(p: Match, x: Condition): Match
    requires Open(p, x)
  {
    if p.write.Some? then
      var c := p.write.value;
      p.(write := Some(if SlotOpen(c.slot, x) then c.(slot := SlotAdded(c.slot, x)) else WriterAdded(c, x)))
    else if x.AuthorizedEffects? then p.(authorizedEffects := x.vs)
    else if x.ReachableEffects? then p.(reachableEffects := x.vs)
    else if p.read.Some? then
      var c := p.read.value;
      p.(read := Some(if SlotOpen(c.slot, x) then c.(slot := SlotAdded(c.slot, x)) else c.(usedIn := Some(x.v))))
    else if p.delegate.Some? then p.(delegate := Some(DelegateAdded(p.delegate.value, x)))
    else p.(external := Some(ExternalAdded(p.external.value, x)))
  }

  /** What choice `c` picks has the value of the condition. */
  predicate Has(m: Model, step: Step, b: Bindings, x: Condition, c: Choice)
    requires InRange(m, step, c)
  {
    var p := step.pattern;
    if p.write.Some? || p.read.Some? then
      if x.Roles? || x.SlotOf? || x.Confidence? || x.ProxyKind? then SlotHas(m.slots[c.row], b, x)
      else if p.write.Some? then WriterHas(m.slots[c.row].writers[c.item], x)
      else ReaderHas(m.slots[c.row].readers[c.item], x)
    else CallHas(m.calls[c.row], b, x)
  }

  function Narrowed(step: Step, x: Condition): Step
    requires Open(step.pattern, x)
  {
    step.(pattern := Added(step.pattern, x))
  }

  /** A narrowed step searches and picks the same. */
  lemma SamePlaces(m: Model, step: Step, x: Condition, c: Choice)
    requires Open(step.pattern, x)
    ensures InRange(m, Narrowed(step, x), c) <==> InRange(m, step, c)
    ensures InRange(m, step, c) ==> PickedBy(m, Narrowed(step, x), c) == PickedBy(m, step, c)
    ensures InRange(m, step, c) ==> GuardsOf(m, Narrowed(step, x), c) == GuardsOf(m, step, c)
  {
    hide SlotOpen, WriterOpen, ReadOpen, DelegateOpen, ExternalOpen;
  }

  lemma WriteLaw(m: Model, step: Step, x: Condition, b: Bindings, strict: bool, c: Choice)
    requires step.pattern.write.Some? && Open(step.pattern, x) && InRange(m, step, c)
    ensures InRange(m, Narrowed(step, x), c)
    ensures Fits(m, Narrowed(step, x), b, strict, c) <==> Fits(m, step, b, strict, c) && Has(m, step, b, x, c)
  {
    SamePlaces(m, step, x, c);
    var k := step.pattern.write.value;
    if SlotOpen(k.slot, x) {
      SlotLaw(m.slots[c.row], k.slot, x, b, strict);
      hide MatchSlot, MatchWriter, SlotAdded, SlotHas;
    } else {
      WriterLaw(m.slots[c.row].writers[c.item], k, x);
      hide MatchSlot, MatchWriter, SlotOpen, WriterHas;
    }
  }

  lemma ReadLaw(m: Model, step: Step, x: Condition, b: Bindings, strict: bool, c: Choice)
    requires step.pattern.write.None? && step.pattern.read.Some? && Open(step.pattern, x) && InRange(m, step, c)
    ensures InRange(m, Narrowed(step, x), c)
    ensures Fits(m, Narrowed(step, x), b, strict, c) <==> Fits(m, step, b, strict, c) && Has(m, step, b, x, c)
  {
    SamePlaces(m, step, x, c);
    var k, r := step.pattern.read.value, m.slots[c.row].readers[c.item];
    if SlotOpen(k.slot, x) {
      SlotLaw(m.slots[c.row], k.slot, x, b, strict);
      hide MatchSlot, SlotHas;
    } else {
      if x.AuthorizedEffects? {
        TouchesCommon(x.vs, r.authorizedEffects);
      } else if x.ReachableEffects? {
        TouchesCommon(x.vs, r.reachableEffects);
      }
      hide MatchSlot, Common;
    }
  }

  lemma CommonUnion(vs: set<string>, a: set<string>, b: set<string>)
    ensures Common(vs, a + b) <==> Common(vs, a) || Common(vs, b)
  {
  }

  lemma CallLaw(m: Model, step: Step, x: Condition, b: Bindings, strict: bool, c: Choice)
    requires step.pattern.write.None? && step.pattern.read.None? && Open(step.pattern, x) && InRange(m, step, c)
    ensures InRange(m, Narrowed(step, x), c)
    ensures Fits(m, Narrowed(step, x), b, strict, c) <==> Fits(m, step, b, strict, c) && Has(m, step, b, x, c)
  {
    SamePlaces(m, step, x, c);
    var p, call := step.pattern, m.calls[c.row];
    if p.delegate.Some? {
      DelegateLaw(call, p.delegate.value, x, b, strict);
      hide MatchDelegatecall, DelegateAdded, CallHas;
    } else if x.ReachableEffects? {
      TouchesCommon(x.vs, call.returnEffects + call.reachableEffects);
      CommonUnion(x.vs, call.returnEffects, call.reachableEffects);
      hide Common;
    } else {
      ExternalLaw(call, p.external.value, x, p, b, strict);
      hide MatchExternalCall, ExternalAdded, CallHas;
    }
  }

  /** Under the same bindings a narrowed step fits what fitted before and has the value. */
  lemma FitsLaw(m: Model, step: Step, x: Condition, b: Bindings, strict: bool, c: Choice)
    requires Open(step.pattern, x)
    ensures InRange(m, Narrowed(step, x), c) <==> InRange(m, step, c)
    ensures Fits(m, Narrowed(step, x), b, strict, c) <==>
      InRange(m, step, c) && Fits(m, step, b, strict, c) && Has(m, step, b, x, c)
  {
    SamePlaces(m, step, x, c);
    FitsInRangeOnly(m, step, b, strict, c);
    FitsInRangeOnly(m, Narrowed(step, x), b, strict, c);
    hide Fits, Has, InRange, Open, Narrowed;
    if InRange(m, step, c) {
      if step.pattern.write.Some? {
        WriteLaw(m, step, x, b, strict, c);
      } else if step.pattern.read.Some? {
        ReadLaw(m, step, x, b, strict, c);
      } else {
        CallLaw(m, step, x, b, strict, c);
      }
    }
  }

  lemma FitsInRangeOnly(m: Model, step: Step, b: Bindings, strict: bool, c: Choice)
    ensures Fits(m, step, b, strict, c) ==> InRange(m, step, c)
  {
    hide InRange, MatchSlot, MatchWriter, MatchReader, MatchDelegatecall, MatchExternalCall;
  }

  lemma SameAfter(m: Model, ctx: Context, step: Step, x: Condition, strict: bool, c: Choice)
    requires Open(step.pattern, x) && Fits(m, step, ctx.bindings, strict, c)
    requires Fits(m, Narrowed(step, x), ctx.bindings, strict, c)
    ensures After(m, ctx, Narrowed(step, x), strict, c) == After(m, ctx, step, strict, c)
  {
    FitsInRangeOnly(m, step, ctx.bindings, strict, c);
    SamePlaces(m, step, x, c);
    hide Fits, PickedBy, GuardsOf, InRange, Added, Open;
  }

  // ---- Rules ----

  /** The rule with one more field given in step `k`. */
  function NarrowedRule(steps: seq<Step>, k: nat, x: Condition): seq<Step>
    requires k < |steps| && Open(steps[k].pattern, x)
  {
    steps[k := Narrowed(steps[k], x)]
  }

  /** The run fits up to step `k`, and what it picks there has the value. */
  predicate HasAt(m: Model, steps: seq<Step>, strict: bool, run: seq<Choice>, k: nat, x: Condition) {
    && k < |steps| == |run| && Follow(m, steps[..k], strict, run[..k]).Some?
    && InRange(m, steps[k], run[k])
    && Has(m, steps[k], Follow(m, steps[..k], strict, run[..k]).value.bindings, x, run[k])
  }

  lemma FollowStep(m: Model, steps: seq<Step>, strict: bool, run: seq<Choice>)
    requires |run| == |steps| && run != []
    ensures var n := |run| - 1;
      var before := Follow(m, steps[..n], strict, run[..n]);
      if before.Some? && Fits(m, steps[n], before.value.bindings, strict, run[n])
      then Follow(m, steps, strict, run) == Some(After(m, before.value, steps[n], strict, run[n]))
      else Follow(m, steps, strict, run).None?
  {
    hide Fits, After;
  }

  /** The matches of the narrowed rule are the matches whose pick in step `k` has the value, with the same contexts. */
  lemma {:induction false} FieldSelects(m: Model, steps: seq<Step>, k: nat, x: Condition, strict: bool, run: seq<Choice>)
    requires k < |steps| && Open(steps[k].pattern, x)
    ensures IsMatch(m, NarrowedRule(steps, k, x), strict, run) <==>
      IsMatch(m, steps, strict, run) && HasAt(m, steps, strict, run, k, x)
    ensures IsMatch(m, NarrowedRule(steps, k, x), strict, run) ==>
      Follow(m, NarrowedRule(steps, k, x), strict, run) == Follow(m, steps, strict, run)
    decreases |steps|
  {
    hide Fits, Has, InRange, Open, Narrowed, After, Follow;
    if |run| == |steps| {
      var n := |steps| - 1;
      var narrowed := NarrowedRule(steps, k, x);
      FollowStep(m, steps, strict, run);
      FollowStep(m, narrowed, strict, run);
      if k == n {
        assert narrowed[..n] == steps[..n];
        var before := Follow(m, steps[..n], strict, run[..n]);
        if before.Some? {
          FitsLaw(m, steps[n], x, before.value.bindings, strict, run[n]);
          if Fits(m, narrowed[n], before.value.bindings, strict, run[n]) {
            SameAfter(m, before.value, steps[n], x, strict, run[n]);
          }
        }
      } else {
        assert narrowed[..n] == NarrowedRule(steps[..n], k, x) && narrowed[n] == steps[n];
        assert steps[..n][..k] == steps[..k] && run[..n][..k] == run[..k];
        FieldSelects(m, steps[..n], k, x, strict, run[..n]);
      }
    }
  }

  // ---- Constraints without fields ----

  predicate SlotFree(c: SlotConstraint) {
    c.roles == {} && Absent(c.sameSlotAs) && c.minConfidence == 0.0 && Absent(c.proxyKind)
  }

  /** The constraint in use gives no field. */
  predicate Free(p: Match) {
    match (p.write, p.read, p.delegate, p.external)
    case (Some(c), _, _, _) =>
      SlotFree(c.slot) && !c.userControlled && Absent(c.reachability) && Absent(c.callerConstraint) && c.origins == {}
    case (None, Some(c), _, _) =>
      SlotFree(c.slot) && Absent(c.usedIn) && p.authorizedEffects == {} && p.reachableEffects == {}
    case (None, None, Some(c), _) =>
      c.origins == {} && Absent(c.sameSlotAs) && Absent(c.controllability)
    case (None, None, None, Some(c)) =>
      && c.origins == {} && Absent(c.controllability) && Absent(c.validation) && !c.returnConsumed
      && Absent(c.sameTargetAs) && c.returnEffects == {} && p.reachableEffects == {}
    case _ => true
  }

  /** A call of the kind the step is about; a slot whose confidence is not negative. */
  predicate RightKind(m: Model, step: Step, c: Choice)
    requires InRange(m, step, c)
  {
    var p := step.pattern;
    if p.write.Some? || p.read.Some? then SlotHas(m.slots[c.row], map[], Confidence(0.0))
    else if p.delegate.Some? then m.calls[c.row].kind == "delegatecall"
    else m.calls[c.row].kind in {"external_call", "call", "staticcall"}
  }

  lemma FreeFits(m: Model, step: Step, b: Bindings, c: Choice)
    requires Free(step.pattern)
    ensures Fits(m, step, b, false, c) <==> InRange(m, step, c) && RightKind(m, step, c)
  {
  }

  /** A further step whose constraint gives no field accepts every record of its kind. */
  lemma FreeAccepts(m: Model, steps: seq<Step>, step: Step, run: seq<Choice>, c: Choice)
    requires Free(step.pattern)
    ensures IsMatch(m, steps + [step], false, run + [c]) <==>
      IsMatch(m, steps, false, run) && InRange(m, step, c) && RightKind(m, step, c)
  {
    hide Fits, InRange, RightKind, After, Follow, Free;
    if |run| == |steps| {
      var more, longer := steps + [step], run + [c];
      assert more[..|steps|] == steps && longer[..|steps|] == run;
      FollowStep(m, more, false, longer);
      if Follow(m, steps, false, run).Some? {
        FreeFits(m, step, Follow(m, steps, false, run).value.bindings, c);
      }
    }
  }

  // ---- Strict matching ----

  /** What is picked is not marked unusable. */
  predicate PickUsable(m: Model, step: Step, c: Choice)
    requires InRange(m, step, c)
  {
    (if step.pattern.write.Some? || step.pattern.read.Some? then m.slots[c.row].usable else m.calls[c.row].usable)
      != Some(false)
  }

  lemma StrictFits(m: Model, step: Step, b: Bindings, c: Choice)
    ensures Fits(m, step, b, true, c) <==>
      InRange(m, step, c) && Fits(m, step, b, false, c) && PickUsable(m, step, c)
  {
    hide MatchWriter, MatchReader, OneOf, Touches, Given;
  }

  ghost predicate AllUsable(m: Model, steps: seq<Step>, run: seq<Choice>)
    requires |run| == |steps|
  {
    forall k :: 0 <= k < |run| ==> InRange(m, steps[k], run[k]) && PickUsable(m, steps[k], run[k])
  }

  lemma {:induction false} AllUsableStepwise(m: Model, steps: seq<Step>, run: seq<Choice>)
    requires |run| == |steps| && run != []
    ensures var n := |run| - 1;
      AllUsable(m, steps, run) <==>
        AllUsable(m, steps[..n], run[..n]) && InRange(m, steps[n], run[n]) && PickUsable(m, steps[n], run[n])
  {
    hide InRange, PickUsable;
    var n := |run| - 1;
    var before, earlier := steps[..n], run[..n];
    assert forall k :: 0 <= k < n ==> before[k] == steps[k] && earlier[k] == run[k];
  }

  /** Strict matching leaves out the matches that pick a record marked unusable, and no others. */
  lemma {:induction false} StrictSelects(m: Model, steps: seq<Step>, run: seq<Choice>)
    ensures IsMatch(m, steps, true, run) <==> IsMatch(m, steps, false, run) && AllUsable(m, steps, run)
    ensures IsMatch(m, steps, true, run) ==> Follow(m, steps, true, run) == Follow(m, steps, false, run)
    decreases |steps|
  {
    hide Fits, InRange, PickUsable, Follow, AllUsable, Extended, PickedBy, GuardsOf;
    if |run| == |steps| {
      if run == [] {
        NoRun(m, steps, run);
      } else {
        var n := |run| - 1;
        FollowStep(m, steps, true, run);
        FollowStep(m, steps, false, run);
        AllUsableStepwise(m, steps, run);
        StrictSelects(m, steps[..n], run[..n]);
        if Follow(m, steps[..n], false, run[..n]).Some? {
          StrictFits(m, steps[n], Follow(m, steps[..n], false, run[..n]).value.bindings, run[n]);
        }
      }
    }
  }

  lemma NoRun(m: Model, steps: seq<Step>, run: seq<Choice>)
    requires steps == [] && run == []
    ensures Follow(m, steps, true, run) == Follow(m, steps, false, run) == Some(START) && AllUsable(m, steps, run)
  {
  }

  // ---- Bound values ----

  /** A table entry with a dollar name binds the field of the picked record that its key stands for, or nothing. */
  lemma BoundValue(b: Bindings, x: Bind, p: Picked)
    requires "$" <= x.name
    ensures var now := Bound(b, [x], p);
      && (forall name :: name in b && name != x.name ==> name in now && now[name] == b[name])
      && match (p, x.key)
         case (CallOf(call), "call_target") => Lookup(now, x.name) == call.target
         case (CallOf(_), _) => now == b
         case (WriterOf(slot, _, _), "slot") => Lookup(now, x.name) == slot
         case (ReaderOf(slot, _, _), "slot") => Lookup(now, x.name) == slot
         case (WriterOf(_, _, w), "path") => Lookup(now, x.name) == w.path
         case (ReaderOf(_, _, r), "path") => Lookup(now, x.name) == r.path
         case (WriterOf(_, _, w), "guard") =>
           Lookup(now, x.name) == (if w.guardRefs == [] then None else Some(w.guardRefs[0]))
         case (ReaderOf(_, _, r), "guard") =>
           Lookup(now, x.name) == (if r.guardRefs == [] then None else Some(r.guardRefs[0]))
         case (WriterOf(_, _, w), "value_origin") => Lookup(now, x.name) == w.origin
         case (ReaderOf(_, _, _), "value_origin") => Lookup(now, x.name) == None && x.name in now
         case _ => now == b
  {
    assert Bound(b, [], p) == b;
    assert [x][..0] == [];
  }

  /** A name without a dollar sign is never bound. */
  lemma {:induction false} OnlyDollarNames(b: Bindings, bind: seq<Bind>, p: Picked)
    ensures forall name :: name in Bound(b, bind, p) && name !in b ==> "$" <= name
  {
    hide ValueFor;
    if bind != [] {
      OnlyDollarNames(b, bind[..|bind|-1], p);
    }
  }
}
