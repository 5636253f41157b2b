/**
 * TaskbarTAP, an appearance plugin for taskbars only: a table of up to eight
 * taskbars, each holding the handles of its Rectangle#BackgroundFill,
 * Rectangle#BackgroundStroke and TaskbarFrame elements. The fill and stroke
 * rectangles get their Fill and Opacity written (or cleared back to the
 * template) whenever the appearance changes.
 */
module TaskbarTap {
  import opened Xaml
  import Modes

  const MAX_TASKBARS: nat := 8
  /** What GetTaskbarTAPVersion reports (v1.0). */
  const TAP_VERSION: int := 1

  /** One slot of m_taskbars; a handle of 0 means "no element". */
  datatype TaskbarInfo = TaskbarInfo(fill: Handle, stroke: Handle, frame: Handle, active: bool)

  /** A slot as the constructor's memset leaves it. */
  const EMPTY_INFO: TaskbarInfo := TaskbarInfo(0, 0, 0, false)
  /** A slot as an Add opens it, before the element's handle is stored. */
  const OPENED_INFO: TaskbarInfo := TaskbarInfo(0, 0, 0, true)

  /** An inactive slot keeps no handles. */
  predicate Vacant(t: TaskbarInfo) {
    t.fill == 0 && t.stroke == 0 && t.frame == 0
  }

  // ---------------------------------------------------------------------------
  // Classification and slot selection

  datatype ElementKind = BackgroundFill | BackgroundStroke | TaskbarFrame

  predicate IsBackgroundFill(name: WString, typeName: WString) {
    name == "BackgroundFill" && Contains(typeName, "Rectangle")
  }

  predicate IsBackgroundStroke(name: WString, typeName: WString) {
    name == "BackgroundStroke" && Contains(typeName, "Rectangle")
  }

  predicate IsTaskbarFrame(typeName: WString) {
    Contains(typeName, "TaskbarFrame")
  }

  /** The kind an added element is tracked as; fill is tested before stroke, stroke before frame. */
  function Classify(e: VisualElement): Option<ElementKind> {
    if e.name.None? || e.typeName.None? then None
    else if IsBackgroundFill(e.name.value, e.typeName.value) then Some(BackgroundFill)
    else if IsBackgroundStroke(e.name.value, e.typeName.value) then Some(BackgroundStroke)
    else if IsTaskbarFrame(e.typeName.value) then Some(TaskbarFrame)
    else None
  }

  /** The three rules, each in both directions; an element with a null name or type is never tracked. */
  lemma ClassifyRules(e: VisualElement)
    ensures Classify(e).Some? ==> e.name.Some? && e.typeName.Some?
    ensures e.name.Some? && e.typeName.Some? ==>
      var name, typeName := e.name.value, e.typeName.value;
      && (Classify(e) == Some(BackgroundFill) <==> IsBackgroundFill(name, typeName))
      && (Classify(e) == Some(BackgroundStroke) <==> IsBackgroundStroke(name, typeName))
      && (Classify(e) == Some(TaskbarFrame) <==>
            IsTaskbarFrame(typeName) && !IsBackgroundFill(name, typeName) && !IsBackgroundStroke(name, typeName))
  {
  }

  /** The handle field an element of kind k is stored in. */
  function Field(t: TaskbarInfo, k: ElementKind): Handle {
    match k
    case BackgroundFill => t.fill
    case BackgroundStroke => t.stroke
    case TaskbarFrame => t.frame
  }

  /** The slot with the field of kind k set to h: exactly one field changes. */
  function WithField(t: TaskbarInfo, k: ElementKind, h: Handle): (r: TaskbarInfo)
    ensures Field(r, k) == h && r.active == t.active
    ensures forall k' :: k' != k ==> Field(r, k') == Field(t, k')
  {
    match k
    case BackgroundFill => t.(fill := h)
    case BackgroundStroke => t.(stroke := h)
    case TaskbarFrame => t.(frame := h)
  }

  /** A slot an element of kind k may join: an active slot with that field empty, and never for a frame. */
  predicate Reusable(t: TaskbarInfo, k: ElementKind) {
    k != TaskbarFrame && t.active && Field(t, k) == 0
  }

  /** The lowest-index reusable slot, if any. */
  function FirstReusable(slots: seq<TaskbarInfo>, k: ElementKind): (r: Option<nat>)
    ensures r.Some? ==>
      && r.value < |slots| && Reusable(slots[r.value], k)
      && forall j :: 0 <= j < r.value ==> !Reusable(slots[j], k)
    ensures r.None? ==> forall j :: 0 <= j < |slots| ==> !Reusable(slots[j], k)
    ensures k == TaskbarFrame ==> r.None?
    decreases |slots|
  {
    if slots == [] then None
    else
      var n := |slots|;
      match FirstReusable(slots[..n - 1], k)
      case Some(i) => Some(i)
      case None => if Reusable(slots[n - 1], k) then Some(n - 1) else None
  }

  /** The slot an Add of kind k writes to: the first reusable one, else a new one while there is room. */
  function ChosenSlot(slots: seq<TaskbarInfo>, count: nat, k: ElementKind): (r: Option<nat>)
    requires |slots| == MAX_TASKBARS && count <= MAX_TASKBARS
    ensures r.Some? ==> r.value <= count && r.value < MAX_TASKBARS
  {
    match FirstReusable(slots[..count], k)
    case Some(i) => Some(i)
    case None => if count < MAX_TASKBARS then Some(count) else None
  }

  /** The table after an Add of kind k with handle h. */
  function Placed(slots: seq<TaskbarInfo>, count: nat, k: ElementKind, h: Handle): seq<TaskbarInfo>
    requires |slots| == MAX_TASKBARS && count <= MAX_TASKBARS
  {
    match ChosenSlot(slots, count, k)
    case None => slots
    case Some(i) => slots[i := WithField(if i == count then OPENED_INFO else slots[i], k, h)]
  }

  /** The fill count after an Add of kind k. */
  function PlacedCount(slots: seq<TaskbarInfo>, count: nat, k: ElementKind): nat
    requires |slots| == MAX_TASKBARS && count <= MAX_TASKBARS
  {
    if ChosenSlot(slots, count, k) == Some(count) then count + 1 else count
  }

  /** The count grows by at most one and never past eight; at capacity with nothing to reuse the table is unchanged. */
  lemma PlaceBounded(slots: seq<TaskbarInfo>, count: nat, k: ElementKind, h: Handle)
    requires |slots| == MAX_TASKBARS && count <= MAX_TASKBARS
    ensures |Placed(slots, count, k, h)| == MAX_TASKBARS
    ensures PlacedCount(slots, count, k) <= MAX_TASKBARS
    ensures PlacedCount(slots, count, k) == count || PlacedCount(slots, count, k) == count + 1
    ensures ChosenSlot(slots, count, k).None? <==> count == MAX_TASKBARS && FirstReusable(slots[..count], k).None?
    ensures ChosenSlot(slots, count, k).None? ==> Placed(slots, count, k, h) == slots && PlacedCount(slots, count, k) == count
  {
  }

  /**
   * The chosen slot gets h in the field of kind k and nothing else changes:
   * a reused slot keeps its other handles, a new slot is active with the
   * other handles 0, and every other slot is untouched.
   */
  lemma PlaceWritesOneField(slots: seq<TaskbarInfo>, count: nat, k: ElementKind, h: Handle)
    requires |slots| == MAX_TASKBARS && count <= MAX_TASKBARS
    requires ChosenSlot(slots, count, k).Some?
    ensures var i, after := ChosenSlot(slots, count, k).value, Placed(slots, count, k, h);
      && (forall j :: 0 <= j < MAX_TASKBARS && j != i ==> after[j] == slots[j])
      && after[i].active && Field(after[i], k) == h
      && (forall k' :: k' != k ==> Field(after[i], k') == (if i == count then 0 else Field(slots[i], k')))
  {
  }

  /** A fill or stroke joins the lowest reusable slot below the count; a frame always opens a new slot. */
  lemma PlaceReusesLowest(slots: seq<TaskbarInfo>, count: nat, k: ElementKind)
    requires |slots| == MAX_TASKBARS && count <= MAX_TASKBARS
    ensures k == TaskbarFrame ==> ChosenSlot(slots, count, k) == (if count < MAX_TASKBARS then Some(count) else None)
    ensures forall i :: 0 <= i < count && ChosenSlot(slots, count, k) == Some(i) ==>
      && Reusable(slots[i], k)
      && forall j :: 0 <= j < i ==> !Reusable(slots[j], k)
    ensures ChosenSlot(slots, count, k) == Some(count) ==> forall j :: 0 <= j < count ==> !Reusable(slots[j], k)
  {
    var prefix := slots[..count];
    assert forall j :: 0 <= j < count ==> prefix[j] == slots[j];
  }

  /** What a Remove of h does to one slot: fields holding h become 0, then a slot left empty is deactivated. */
  function Scrub(t: TaskbarInfo, h: Handle): TaskbarInfo {
    var z := TaskbarInfo(
      if t.fill == h then 0 else t.fill,
      if t.stroke == h then 0 else t.stroke,
      if t.frame == h then 0 else t.frame,
      t.active);
    if z.active && Vacant(z) then z.(active := false) else z
  }

  /** A Remove applied to every slot of a table. */
  function ScrubAll(slots: seq<TaskbarInfo>, h: Handle): (r: seq<TaskbarInfo>)
    ensures |r| == |slots|
  {
    seq(|slots|, i requires 0 <= i < |slots| => Scrub(slots[i], h))
  }

  /** Every field equal to h is zeroed and no other changes; only slots left empty lose their active flag. */
  lemma ScrubEffect(t: TaskbarInfo, h: Handle)
    ensures forall k :: Field(Scrub(t, h), k) == (if Field(t, k) == h then 0 else Field(t, k))
    ensures Scrub(t, h).active <==> t.active && !Vacant(Scrub(t, h))
    ensures h != 0 ==> forall k :: Field(Scrub(t, h), k) != h
  {
  }

  // ---------------------------------------------------------------------------
  // SetXamlProperty / ClearXamlProperty

  /** The HRESULT class a helper returns, with the operations it requested. */
  datatype Outcome = Outcome(status: Status, ops: seq<Op>)

  /**
   * SetXamlProperty: a missing service or a 0 handle is refused before any
   * call; otherwise CreateInstance, GetPropertyIndex and SetProperty, stopping
   * at the first failure.
   */
  function SetXamlProperty(service: Option<XamlService>, h: Handle, p: Property, v: Value): (r: Outcome)
    ensures r.status == InvalidArg <==> service.None? || h == 0
    ensures r.status == InvalidArg ==> r.ops == []
    ensures r.status != InvalidArg ==> 1 <= |r.ops| <= 2 && r.ops[0] == CreateInstance(v)
    ensures |r.ops| == 2 <==>
      service.Some? && h != 0 && v in service.value.creatable && (h, p) in service.value.indices
    ensures |r.ops| == 2 ==> r.ops[1] == SetProperty(h, p, service.value.indices[(h, p)], v)
    ensures r.status == Ok ==> |r.ops| == 2
  {
    if service.None? || h == 0 then Outcome(InvalidArg, [])
    else
      var svc := service.value;
      if v !in svc.creatable || (h, p) !in svc.indices then Outcome(ServiceFailure, [CreateInstance(v)])
      else
        var k := svc.indices[(h, p)];
        Outcome(if (h, k) in svc.rejected then ServiceFailure else Ok, [CreateInstance(v), SetProperty(h, p, k, v)])
  }

  /** ClearXamlProperty: the same guard, then GetPropertyIndex and ClearProperty. */
  function ClearXamlProperty(service: Option<XamlService>, h: Handle, p: Property): (r: Outcome)
    ensures r.status == InvalidArg <==> service.None? || h == 0
    ensures |r.ops| <= 1
    ensures |r.ops| == 1 <==> service.Some? && h != 0 && (h, p) in service.value.indices
    ensures |r.ops| == 1 ==> r.ops[0] == ClearProperty(h, p, service.value.indices[(h, p)])
    ensures r.status == Ok ==> |r.ops| == 1
  {
    if service.None? || h == 0 then Outcome(InvalidArg, [])
    else
      var svc := service.value;
      if (h, p) !in svc.indices then Outcome(ServiceFailure, [])
      else
        var k := svc.indices[(h, p)];
        Outcome(if (h, k) in svc.rejected then ServiceFailure else Ok, [ClearProperty(h, p, k)])
  }

  /** The status tells the truth: Ok means the value is on the property, anything else means nothing changed. */
  lemma SetXamlPropertyEffect(svc: XamlService, h: Handle, p: Property, v: Value, st: Overrides)
    ensures var r := SetXamlProperty(Some(svc), h, p, v);
      && (r.status == Ok ==> PerformAll(svc, r.ops, st) == st[(h, p) := v])
      && (r.status != Ok ==> PerformAll(svc, r.ops, st) == st)
  {
    var r := SetXamlProperty(Some(svc), h, p, v);
    if |r.ops| == 2 {
      var write := r.ops[1];
      assert r.ops[1..] == [write] && r.ops[1..][1..] == [];
      assert PerformAll(svc, r.ops, st) == PerformAll(svc, [write], st);
      assert PerformAll(svc, [write], st) == Perform(svc, write, st);
    } else if |r.ops| == 1 {
      assert r.ops[1..] == [];
    }
  }

  /** Ok means the override is gone, anything else means nothing changed. */
  lemma ClearXamlPropertyEffect(svc: XamlService, h: Handle, p: Property, st: Overrides)
    ensures var r := ClearXamlProperty(Some(svc), h, p);
      && (r.status == Ok ==> PerformAll(svc, r.ops, st) == st - {(h, p)})
      && (r.status != Ok ==> PerformAll(svc, r.ops, st) == st)
  {
    var r := ClearXamlProperty(Some(svc), h, p);
    if |r.ops| == 1 {
      assert r.ops[1..] == [];
    }
  }

  // ---------------------------------------------------------------------------
  // ApplyAppearance

  /** One property request of the appearance table: write a value, or clear back to the template. */
  datatype Request = Write(prop: Property, value: Value) | Reset(prop: Property)

  /** The switch statements of ApplyAppearance; a frame is never written. */
  function Requests(mode: Modes.Mode, k: ElementKind): seq<Request> {
    match k
    case TaskbarFrame => []
    case BackgroundFill =>
      (match mode
       case Transparent => [Write(Fill, BrushValue(TransparentBrush)), Write(Opacity, OpacityValue(Zero))]
       case Acrylic => [Write(Fill, BrushValue(DarkTint)), Write(Opacity, OpacityValue(Full))]
       case Default => [Reset(Fill), Reset(Opacity)])
    case BackgroundStroke =>
      (match mode
       case Default => [Reset(Fill), Reset(Opacity)]
       case _ => [Write(Fill, BrushValue(TransparentBrush)), Write(Opacity, OpacityValue(Zero))])
  }

  /** The helper call a request becomes. */
  function Issue(service: Option<XamlService>, h: Handle, q: Request): Outcome {
    match q
    case Write(p, v) => SetXamlProperty(service, h, p, v)
    case Reset(p) => ClearXamlProperty(service, h, p)
  }

  /** The operations of a run of requests on one handle, in order; every status is ignored. */
  function RequestOps(service: Option<XamlService>, h: Handle, qs: seq<Request>): seq<Op>
    decreases |qs|
  {
    if qs == [] then [] else Issue(service, h, qs[0]).ops + RequestOps(service, h, qs[1..])
  }

  /** The operations ApplyAppearance issues for one element handle of kind k. */
  function ElementOps(service: Option<XamlService>, h: Handle, mode: Modes.Mode, k: ElementKind): seq<Op> {
    RequestOps(service, h, Requests(mode, k))
  }

  /** The operations for one slot: nothing for an inactive slot, then the fill and the stroke when non-zero. */
  function SlotOps(service: Option<XamlService>, t: TaskbarInfo, mode: Modes.Mode): seq<Op> {
    if !t.active then []
    else
      (if t.fill != 0 then ElementOps(service, t.fill, mode, BackgroundFill) else [])
      + (if t.stroke != 0 then ElementOps(service, t.stroke, mode, BackgroundStroke) else [])
  }

  /** The operations ApplyAppearance issues over the given slots, in slot order; none without a service. */
  function AppearanceOps(service: Option<XamlService>, slots: seq<TaskbarInfo>, mode: Modes.Mode): seq<Op>
    decreases |slots|
  {
    if service.None? || slots == [] then []
    else AppearanceOps(service, slots[..|slots| - 1], mode) + SlotOps(service, slots[|slots| - 1], mode)
  }

  lemma AppearanceOpsStep(service: Option<XamlService>, slots: seq<TaskbarInfo>, i: nat, mode: Modes.Mode)
    requires service.Some? && i < |slots|
    ensures AppearanceOps(service, slots[..i + 1], mode)
      == AppearanceOps(service, slots[..i], mode) + SlotOps(service, slots[i], mode)
  {
    assert slots[..i + 1][..i] == slots[..i];
  }

  /** Requests on h only ever set or clear properties of h, and nothing at all for handle 0. */
  lemma {:induction false} RequestOpsTarget(service: Option<XamlService>, h: Handle, qs: seq<Request>, g: Handle)
    requires Mutates(RequestOps(service, h, qs), g)
    ensures g == h && h != 0
    decreases |qs|
  {
    var first := Issue(service, h, qs[0]).ops;
    var rest := RequestOps(service, h, qs[1..]);
    assert RequestOps(service, h, qs) == first + rest;
    MutatesAppend(first, rest, g);
    if Mutates(first, g) {
      var i :| 0 <= i < |first| && !first[i].CreateInstance? && first[i].target == g;
    } else {
      RequestOpsTarget(service, h, qs[1..], g);
    }
  }

  /** A mutation in a concatenation comes from one of its parts. */
  lemma MutatesAppend(a: seq<Op>, b: seq<Op>, g: Handle)
    requires Mutates(a + b, g)
    ensures Mutates(a, g) || Mutates(b, g)
  {
    var i :| 0 <= i < |a + b| && !(a + b)[i].CreateInstance? && (a + b)[i].target == g;
    if i >= |a| {
      assert b[i - |a|] == (a + b)[i];
    }
  }

  /** One slot's operations only touch its own fill and stroke handles, and only when it is active. */
  lemma SlotOpsTargets(service: Option<XamlService>, t: TaskbarInfo, mode: Modes.Mode, g: Handle)
    requires Mutates(SlotOps(service, t, mode), g)
    ensures g != 0 && t.active && (t.fill == g || t.stroke == g)
  {
    var fillOps := if t.fill != 0 then ElementOps(service, t.fill, mode, BackgroundFill) else [];
    var strokeOps := if t.stroke != 0 then ElementOps(service, t.stroke, mode, BackgroundStroke) else [];
    assert t.active && SlotOps(service, t, mode) == fillOps + strokeOps;
    MutatesAppend(fillOps, strokeOps, g);
    if Mutates(fillOps, g) {
      RequestOpsTarget(service, t.fill, Requests(mode, BackgroundFill), g);
    } else {
      RequestOpsTarget(service, t.stroke, Requests(mode, BackgroundStroke), g);
    }
  }

  /** ApplyAppearance only sets or clears properties of the fill and stroke handles of active slots. */
  lemma {:induction false} AppearanceOpsTargets(service: Option<XamlService>, slots: seq<TaskbarInfo>, mode: Modes.Mode, g: Handle)
    requires Mutates(AppearanceOps(service, slots, mode), g)
    ensures g != 0 && exists i :: 0 <= i < |slots| && slots[i].active && (slots[i].fill == g || slots[i].stroke == g)
    decreases |slots|
  {
    var n := |slots|;
    var prev := AppearanceOps(service, slots[..n - 1], mode);
    var last := SlotOps(service, slots[n - 1], mode);
    assert AppearanceOps(service, slots, mode) == prev + last;
    MutatesAppend(prev, last, g);
    if Mutates(prev, g) {
      AppearanceOpsTargets(service, slots[..n - 1], mode, g);
      var i :| 0 <= i < n - 1 && slots[..n - 1][i].active
        && (slots[..n - 1][i].fill == g || slots[..n - 1][i].stroke == g);
      assert slots[i] == slots[..n - 1][i];
    } else {
      SlotOpsTargets(service, slots[n - 1], mode, g);
    }
  }

  /** After a Remove of a non-zero handle, no later ApplyAppearance touches that handle. */
  lemma RemovedNotTouched(service: Option<XamlService>, slots: seq<TaskbarInfo>, mode: Modes.Mode, h: Handle)
    requires h != 0
    ensures !Mutates(AppearanceOps(service, ScrubAll(slots, h), mode), h)
  {
    if Mutates(AppearanceOps(service, ScrubAll(slots, h), mode), h) {
      AppearanceOpsTargets(service, ScrubAll(slots, h), mode, h);
    }
  }

  // ---------------------------------------------------------------------------
  // Effects on a cooperative service

  /** A service that accepts every request on h. */
  ghost predicate Cooperative(svc: XamlService, h: Handle) {
    && h != 0
    && (h, Fill) in svc.indices
    && (h, Opacity) in svc.indices
    && (forall v: Value :: v in svc.creatable)
    && svc.rejected == {}
  }

  /** The overrides one successful request leaves on h. */
  function Granted(st: Overrides, h: Handle, q: Request): Overrides {
    match q
    case Write(p, v) => st[(h, p) := v]
    case Reset(p) => st - {(h, p)}
  }

  /** The overrides a run of requests leaves on h when every one succeeds. */
  function Applied(st: Overrides, h: Handle, qs: seq<Request>): Overrides
    decreases |qs|
  {
    if qs == [] then st else Applied(Granted(st, h, qs[0]), h, qs[1..])
  }

  /** On a cooperative service every request succeeds, in order. */
  lemma {:induction false} RequestOpsEffect(svc: XamlService, h: Handle, qs: seq<Request>, st: Overrides)
    requires Cooperative(svc, h)
    ensures PerformAll(svc, RequestOps(Some(svc), h, qs), st) == Applied(st, h, qs)
    decreases |qs|
  {
    if qs != [] {
      var first := Issue(Some(svc), h, qs[0]);
      var rest := RequestOps(Some(svc), h, qs[1..]);
      PerformAllAppend(svc, first.ops, rest, st);
      var next := Granted(st, h, qs[0]);
      // Cooperative resolves both properties, and a request names one of the two
      assert (h, qs[0].prop) in svc.indices by {
        match qs[0].prop {
          case Fill =>
          case Opacity =>
        }
      }
      if qs[0].Write? {
        assert qs[0].value in svc.creatable;
        SetXamlPropertyEffect(svc, h, qs[0].prop, qs[0].value, st);
      } else {
        ClearXamlPropertyEffect(svc, h, qs[0].prop, st);
      }
      assert PerformAll(svc, first.ops, st) == next;
      RequestOpsEffect(svc, h, qs[1..], next);
    }
  }

  /** The overrides ApplyAppearance leaves on a cooperative fill or stroke element, by mode. */
  lemma ElementEffect(svc: XamlService, h: Handle, mode: Modes.Mode, k: ElementKind, st: Overrides)
    requires Cooperative(svc, h) && k != TaskbarFrame
    ensures var after := PerformAll(svc, ElementOps(Some(svc), h, mode, k), st);
      && (mode == Modes.Default ==> after == st - {(h, Fill)} - {(h, Opacity)})
      && (mode == Modes.Transparent || (mode == Modes.Acrylic && k == BackgroundStroke) ==>
            after == st[(h, Fill) := BrushValue(TransparentBrush)][(h, Opacity) := OpacityValue(Zero)])
      && (mode == Modes.Acrylic && k == BackgroundFill ==>
            after == st[(h, Fill) := BrushValue(DarkTint)][(h, Opacity) := OpacityValue(Full)])
  {
    var qs := Requests(mode, k);
    RequestOpsEffect(svc, h, qs, st);
    var mid := Granted(st, h, qs[0]);
    assert Applied(st, h, qs) == Applied(mid, h, qs[1..]);
    assert Applied(mid, h, qs[1..]) == Applied(Granted(mid, h, qs[1]), h, qs[1..][1..]);
    assert qs[1..][1..] == [];
  }

  /** Transparent followed by Default gives the element back its template Fill and Opacity. */
  lemma DefaultRestoresTemplate(svc: XamlService, h: Handle, k: ElementKind, st: Overrides)
    requires Cooperative(svc, h) && k != TaskbarFrame
    ensures var after := PerformAll(svc, ElementOps(Some(svc), h, Modes.Default, k),
                          PerformAll(svc, ElementOps(Some(svc), h, Modes.Transparent, k), st));
      && (h, Fill) !in after && (h, Opacity) !in after
      && after == st - {(h, Fill)} - {(h, Opacity)}
  {
    ElementEffect(svc, h, Modes.Transparent, k, st);
    var mid := PerformAll(svc, ElementOps(Some(svc), h, Modes.Transparent, k), st);
    ElementEffect(svc, h, Modes.Default, k, mid);
    assert mid - {(h, Fill)} - {(h, Opacity)} == st - {(h, Fill)} - {(h, Opacity)};
  }

  // ---------------------------------------------------------------------------
  // The watcher and its table

  /** The VisualTreeWatcher: eight taskbar slots, a fill count, and the log of requested operations. */
  class VisualTreeWatcher {
    /** m_pService; None when the interface is missing. */
    var service: Option<XamlService>
    /** The table itself is allocated once, by the constructor. */
    const taskbars: array<TaskbarInfo>
    var taskbarCount: nat
    /** Operations requested from the diagnostics service, oldest first. */
    var ops: seq<Op>

    ghost predicate Valid()
      reads this, taskbars
    {
      && taskbars.Length == MAX_TASKBARS
      && taskbarCount <= MAX_TASKBARS
      && (forall i :: 0 <= i < taskbarCount && !taskbars[i].active ==> Vacant(taskbars[i]))
    }

    constructor (service: Option<XamlService>)
      ensures Valid() && fresh(taskbars)
      ensures this.service == service && taskbarCount == 0 && ops == []
      ensures forall i :: 0 <= i < MAX_TASKBARS ==> taskbars[i] == EMPTY_INFO
    {
      this.service := service;
      taskbars := new TaskbarInfo[MAX_TASKBARS](_ => EMPTY_INFO);
      taskbarCount := 0;
      ops := [];
    }

    /** ApplyAppearance: the appearance requests for every active slot's fill and stroke, in slot order. */
    method ApplyAppearance(mode: Modes.Mode)
      requires Valid()
      modifies this`ops
      ensures ops == old(ops) + AppearanceOps(service, taskbars[..taskbarCount], mode)
    {
      if service.None? {
        return;
      }
      var slots := taskbars[..taskbarCount];
      // the operations of this pass, appended to the log once the pass ends
      var pass: seq<Op> := [];
      var i := 0;
      while i < |slots|
        invariant i <= |slots|
        invariant pass == AppearanceOps(service, slots[..i], mode)
        invariant ops == old(ops)
      {
        AppearanceOpsStep(service, slots, i, mode);
        // SlotOps skips an inactive slot and a zero fill or stroke handle
        pass := pass + SlotOps(service, slots[i], mode);
        i := i + 1;
      }
      assert slots[..i] == slots;
      ops := ops + pass;
    }

    /** The slot search of an Add: the lowest active slot whose field of kind k is empty. */
    method FindReusable(k: ElementKind) returns (slot: int)
      requires Valid()
      ensures slot < 0 <==> FirstReusable(taskbars[..taskbarCount], k).None?
      ensures slot >= 0 ==> FirstReusable(taskbars[..taskbarCount], k) == Some(slot)
    {
      slot := -1;
      if k == TaskbarFrame {
        return;
      }
      var i := 0;
      while i < taskbarCount && slot < 0
        invariant 0 <= i <= taskbarCount
        invariant slot < 0 ==> forall j :: 0 <= j < i ==> !Reusable(taskbars[j], k)
        invariant slot >= 0 ==>
          slot < i && Reusable(taskbars[slot], k) && forall j :: 0 <= j < slot ==> !Reusable(taskbars[j], k)
      {
        if taskbars[i].active {
          if k == BackgroundFill && taskbars[i].fill == 0 {
            slot := i;
          } else if k == BackgroundStroke && taskbars[i].stroke == 0 {
            slot := i;
          }
        }
        i := i + 1;
      }
      var prefix := taskbars[..taskbarCount];
      assert forall j :: 0 <= j < taskbarCount ==> prefix[j] == taskbars[j];
    }

    /**
     * The slot selection and store of an Add of kind k: the first reusable
     * slot, else a new slot while there is room; returns whether a slot was written.
     */
    method PlaceElement(k: ElementKind, h: Handle) returns (placed: bool)
      requires Valid()
      modifies this`taskbarCount, taskbars
      ensures Valid()
      ensures placed <==> ChosenSlot(old(taskbars[..]), old(taskbarCount), k).Some?
      ensures taskbars[..] == Placed(old(taskbars[..]), old(taskbarCount), k, h)
      ensures taskbarCount == PlacedCount(old(taskbars[..]), old(taskbarCount), k)
    {
      ghost var before := taskbars[..];
      ghost var count := taskbarCount;
      assert before[..count] == taskbars[..taskbarCount];
      var slot := FindReusable(k);
      var isNew := false;
      if slot < 0 && taskbarCount < MAX_TASKBARS {
        slot := taskbarCount;
        taskbarCount := taskbarCount + 1;
        taskbars[slot] := OPENED_INFO;
        isNew := true;
      }
      if slot < 0 {
        return false;
      }
      assert ChosenSlot(before, count, k) == Some(slot);
      assert slot == count <==> isNew;
      match k {
        case BackgroundFill => taskbars[slot] := taskbars[slot].(fill := h);
        case BackgroundStroke => taskbars[slot] := taskbars[slot].(stroke := h);
        case TaskbarFrame => taskbars[slot] := taskbars[slot].(frame := h);
      }
      assert taskbars[slot] == WithField(if isNew then OPENED_INFO else before[slot], k, h);
      return true;
    }

    /** The Remove branch: scrub every slot below the count. */
    method ForgetHandle(h: Handle)
      requires Valid()
      modifies taskbars
      ensures Valid()
      ensures taskbars[..taskbarCount] == ScrubAll(old(taskbars[..taskbarCount]), h)
      ensures taskbars[taskbarCount..] == old(taskbars[taskbarCount..])
    {
      var i := 0;
      while i < taskbarCount
        invariant i <= taskbarCount
        invariant forall j :: 0 <= j < i ==> taskbars[j] == Scrub(old(taskbars[j]), h)
        invariant forall j :: i <= j < MAX_TASKBARS ==> taskbars[j] == old(taskbars[j])
      {
        if taskbars[i].fill == h {
          taskbars[i] := taskbars[i].(fill := 0);
        }
        if taskbars[i].stroke == h {
          taskbars[i] := taskbars[i].(stroke := 0);
        }
        if taskbars[i].frame == h {
          taskbars[i] := taskbars[i].(frame := 0);
        }
        if taskbars[i].active && taskbars[i].fill == 0 && taskbars[i].stroke == 0 && taskbars[i].frame == 0 {
          taskbars[i] := taskbars[i].(active := false);
        }
        i := i + 1;
      }
    }

    /** OnVisualTreeChange; the global g_appearance it reads is a parameter. */
    method OnVisualTreeChange(mutation: Mutation, element: VisualElement, appearance: Modes.Mode)
      requires Valid()
      modifies this, taskbars
      ensures Valid() && service == old(service)
      ensures mutation == Add && Classify(element).Some? ==>
        var k := Classify(element).value;
        var chosen := ChosenSlot(old(taskbars[..]), old(taskbarCount), k);
        && taskbars[..] == Placed(old(taskbars[..]), old(taskbarCount), k, element.handle)
        && taskbarCount == PlacedCount(old(taskbars[..]), old(taskbarCount), k)
        && ops == old(ops) + (if chosen.Some? && appearance != Modes.Default
                              then AppearanceOps(service, taskbars[..taskbarCount], appearance) else [])
      ensures mutation == Add && Classify(element).None? ==>
        taskbarCount == old(taskbarCount) && taskbars[..] == old(taskbars[..]) && ops == old(ops)
      ensures mutation == Remove ==>
        && taskbarCount == old(taskbarCount) && ops == old(ops)
        && taskbars[..taskbarCount] == ScrubAll(old(taskbars[..taskbarCount]), element.handle)
        && taskbars[taskbarCount..] == old(taskbars[taskbarCount..])
    {
      if mutation == Add {
        if element.name.Some? && element.typeName.Some? {
          var name, typeName := element.name.value, element.typeName.value;
          var isFill := name == "BackgroundFill" && Contains(typeName, "Rectangle");
          var isStroke := name == "BackgroundStroke" && Contains(typeName, "Rectangle");
          var isFrame := Contains(typeName, "TaskbarFrame");
          if isFill || isStroke || isFrame {
            var k := if isFill then BackgroundFill else if isStroke then BackgroundStroke else TaskbarFrame;
            assert Classify(element) == Some(k);
            var placed := PlaceElement(k, element.handle);
            if placed && appearance != Modes.Default {
              ApplyAppearance(appearance);
            }
          }
        }
      } else {
        ForgetHandle(element.handle);
      }
    }
  }

  // ---------------------------------------------------------------------------
  // The module's globals and exported functions

  /** The appearance after one MonitorThread pass over the shared slot. */
  function Adopt(current: Modes.Mode, mapped: bool, shared: int): (m: Modes.Mode)
    ensures m != current ==> mapped && Modes.ToInt(m) == shared
    ensures mapped && Modes.FromInt(shared).Some? ==> Modes.ToInt(m) == shared
  {
    if mapped && 0 <= shared <= 2 && shared != Modes.ToInt(current) then Modes.FromInt(shared).value else current
  }

  /**
   * The exported setters leave the shared slot alone, so a poll after a
   * setter goes back to whatever valid value the slot holds.
   */
  lemma PollOverridesSetter(selected: Modes.Mode, shared: int)
    requires Modes.FromInt(shared).Some?
    ensures Adopt(selected, true, shared) == Modes.FromInt(shared).value
  {
    Modes.IntRoundTrip(shared);
    Modes.ToIntInjective(Adopt(selected, true, shared), Modes.FromInt(shared).value);
  }

  /** The injected module's process-wide state: g_appearance, the shared mode slot and g_pWatcher. */
  class TaskbarTapModule {
    var appearance: Modes.Mode
    /** g_pSharedMode != nullptr */
    var sharedMapped: bool
    /** *g_pSharedMode, which a controller process may overwrite at any time */
    var sharedMode: int
    var watcher: VisualTreeWatcher?

    ghost predicate Valid()
      reads this, watcher, if watcher != null then {watcher.taskbars} else {}
    {
      watcher != null ==> watcher.Valid()
    }

    /** The state at DLL load: the appearance starts as Transparent. */
    constructor ()
      ensures Valid()
      ensures appearance == Modes.Transparent && !sharedMapped && watcher == null
    {
      appearance := Modes.Transparent;
      sharedMapped := false;
      sharedMode := 0;
      watcher := null;
    }

    /**
     * SetSite once the site is known: the previous watcher is released; with
     * both diagnostics interfaces available a fresh watcher is created and the
     * shared mode slot is seeded with the current appearance (`mapped` says
     * whether the slot could be created).
     */
    method SetSite(site: Option<XamlService>, mapped: bool)
      requires Valid()
      modifies this
      ensures Valid() && appearance == old(appearance)
      ensures site.None? ==> watcher == null && sharedMapped == old(sharedMapped) && sharedMode == old(sharedMode)
      ensures site.Some? ==>
        && watcher != null && fresh(watcher) && fresh(watcher.taskbars)
        && watcher.service == site && watcher.taskbarCount == 0 && watcher.ops == []
        && (forall i :: 0 <= i < MAX_TASKBARS ==> watcher.taskbars[i] == EMPTY_INFO)
        && sharedMapped == mapped && sharedMode == (if mapped then Modes.ToInt(appearance) else old(sharedMode))
    {
      watcher := null;
      if site.None? {
        return;
      }
      watcher := new VisualTreeWatcher(site);
      sharedMapped := mapped;
      if mapped {
        sharedMode := Modes.ToInt(appearance);
      }
    }

    /** The diagnostics subsystem delivering one tree change to the watcher. */
    method Deliver(mutation: Mutation, element: VisualElement)
      requires Valid() && watcher != null
      modifies watcher, watcher.taskbars
      ensures Valid() && watcher.service == old(watcher.service)
      ensures mutation == Remove ==> watcher.ops == old(watcher.ops) && watcher.taskbarCount == old(watcher.taskbarCount)
    {
      watcher.OnVisualTreeChange(mutation, element, appearance);
    }

    /** The body shared by the three exported setters: assign the appearance and reapply it. */
    method Select(m: Modes.Mode) returns (hr: Status)
      requires Valid()
      modifies this, watcher
      ensures Valid() && watcher == old(watcher) && hr == Ok && appearance == m
      ensures sharedMapped == old(sharedMapped) && sharedMode == old(sharedMode)
      ensures watcher != null ==>
        && watcher.taskbarCount == old(watcher.taskbarCount) && watcher.service == old(watcher.service)
        && watcher.ops == old(watcher.ops) + AppearanceOps(old(watcher.service), old(watcher.taskbars[..watcher.taskbarCount]), m)
    {
      appearance := m;
      if watcher != null {
        watcher.ApplyAppearance(appearance);
      }
      return Ok;
    }

    method SetTaskbarTransparent() returns (hr: Status)
      requires Valid()
      modifies this, watcher
      ensures Valid() && watcher == old(watcher) && hr == Ok && appearance == Modes.Transparent
      ensures sharedMapped == old(sharedMapped) && sharedMode == old(sharedMode)
      ensures watcher != null ==>
        && watcher.taskbarCount == old(watcher.taskbarCount) && watcher.service == old(watcher.service)
        && watcher.ops == old(watcher.ops)
             + AppearanceOps(old(watcher.service), old(watcher.taskbars[..watcher.taskbarCount]), Modes.Transparent)
    {
      hr := Select(Modes.Transparent);
    }

    method SetTaskbarAcrylic() returns (hr: Status)
      requires Valid()
      modifies this, watcher
      ensures Valid() && watcher == old(watcher) && hr == Ok && appearance == Modes.Acrylic
      ensures sharedMapped == old(sharedMapped) && sharedMode == old(sharedMode)
      ensures watcher != null ==>
        && watcher.taskbarCount == old(watcher.taskbarCount) && watcher.service == old(watcher.service)
        && watcher.ops == old(watcher.ops)
             + AppearanceOps(old(watcher.service), old(watcher.taskbars[..watcher.taskbarCount]), Modes.Acrylic)
    {
      hr := Select(Modes.Acrylic);
    }

    method SetTaskbarDefault() returns (hr: Status)
      requires Valid()
      modifies this, watcher
      ensures Valid() && watcher == old(watcher) && hr == Ok && appearance == Modes.Default
      ensures sharedMapped == old(sharedMapped) && sharedMode == old(sharedMode)
      ensures watcher != null ==>
        && watcher.taskbarCount == old(watcher.taskbarCount) && watcher.service == old(watcher.service)
        && watcher.ops == old(watcher.ops)
             + AppearanceOps(old(watcher.service), old(watcher.taskbars[..watcher.taskbarCount]), Modes.Default)
    {
      hr := Select(Modes.Default);
    }

    /** GetTaskbarTAPVersion */
    function GetTaskbarTAPVersion(): (v: int)
      ensures v == TAP_VERSION
    {
      1
    }

    /** One pass of MonitorThread: adopt a changed, valid value from the shared slot and reapply it. */
    method Poll()
      requires Valid()
      modifies this, watcher
      ensures Valid() && watcher == old(watcher)
      ensures sharedMapped == old(sharedMapped) && sharedMode == old(sharedMode)
      ensures appearance == Adopt(old(appearance), sharedMapped, sharedMode)
      ensures watcher != null ==>
        && watcher.taskbarCount == old(watcher.taskbarCount) && watcher.service == old(watcher.service)
        && watcher.ops == old(watcher.ops)
             + (if appearance != old(appearance)
                then AppearanceOps(old(watcher.service), old(watcher.taskbars[..watcher.taskbarCount]), appearance)
                else [])
    {
      if sharedMapped {
        var newMode := sharedMode;
        if newMode >= 0 && newMode <= 2 && newMode != Modes.ToInt(appearance) {
          Modes.IntRoundTrip(newMode);
          appearance := Modes.FromInt(newMode).value;
          if watcher != null {
            watcher.ApplyAppearance(appearance);
          }
        }
      }
    }
  }
}
