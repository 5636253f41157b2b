/**
 * ShellTAP, the generic appearance plugin: a configuration record of up to
 * eight name/type descriptors selects the XAML elements to track; tracked
 * elements get their Opacity (and, below full opacity, their Fill) rewritten
 * whenever an element is added or the appearance mode changes.
 */
module ShellTap {
  import opened Xaml
  import Modes

  const CONFIG_VERSION: int := 1
  const MAX_TARGETS: nat := 8
  const NAME_CAPACITY: nat := 64
  const TYPE_CAPACITY: nat := 128
  const MAX_TRACKED: nat := 32
  /** g_mode before any configuration is read: MODE_TRANSPARENT. */
  const INITIAL_MODE: int := 1
  /** UINT_MAX, the "property not found" index of the property-chain scan. */
  const NO_INDEX: nat := 0xFFFF_FFFF

  /** The ShellTAPConfig record as laid out in the shared configuration segment. */
  datatype ShellTapConfig = ShellTapConfig(
    version: int,
    mode: int,
    targetCount: int,
    targetNames: seq<WString>,
    targetTypes: seq<WString>,
    logPath: WString,
    flags: int)

  /** The fixed layout: eight name slots of 64 and eight type slots of 128 wide chars, NUL included. */
  predicate WellFormed(c: ShellTapConfig) {
    && |c.targetNames| == MAX_TARGETS
    && |c.targetTypes| == MAX_TARGETS
    && (forall i :: 0 <= i < MAX_TARGETS ==> |c.targetNames[i]| < NAME_CAPACITY)
    && (forall i :: 0 <= i < MAX_TARGETS ==> |c.targetTypes[i]| < TYPE_CAPACITY)
  }

  /** The zero-initialised g_config. */
  function ZeroConfig(): (c: ShellTapConfig)
    ensures WellFormed(c) && c.version != CONFIG_VERSION && c.targetCount == 0
  {
    ShellTapConfig(0, 0, 0, seq(MAX_TARGETS, _ => ""), seq(MAX_TARGETS, _ => ""), "", 0)
  }

  /** How many descriptors the matcher looks at: min(targetCount, 8), and none for a negative count. */
  function ScannedCount(c: ShellTapConfig): (n: nat)
    ensures n <= MAX_TARGETS
    ensures c.targetCount >= 0 ==> n <= c.targetCount
    ensures 0 <= c.targetCount <= MAX_TARGETS ==> n == c.targetCount
    ensures c.targetCount >= MAX_TARGETS ==> n == MAX_TARGETS
    ensures c.targetCount <= 0 ==> n == 0
  {
    if c.targetCount <= 0 then 0 else if c.targetCount < MAX_TARGETS then c.targetCount else MAX_TARGETS
  }

  /** A name pattern matches when it is exactly "*" or equals the name; "Back*" is literal. */
  predicate NameMatches(pattern: WString, name: WString) {
    pattern == "*" || pattern == name
  }

  /** A type pattern matches when it is exactly "*" or occurs inside the type name. */
  predicate TypeMatches(pattern: WString, typeName: WString) {
    pattern == "*" || Contains(typeName, pattern)
  }

  predicate DescriptorMatches(c: ShellTapConfig, i: nat, name: WString, typeName: WString)
    requires WellFormed(c) && i < MAX_TARGETS
  {
    NameMatches(c.targetNames[i], name) && TypeMatches(c.targetTypes[i], typeName)
  }

  /** Some scanned descriptor matches the element on both fields. */
  predicate Matched(c: ShellTapConfig, name: WString, typeName: WString)
    requires WellFormed(c)
  {
    exists i :: 0 <= i < ScannedCount(c) && DescriptorMatches(c, i, name, typeName)
  }

  /** The stroke heuristic: the name contains "Stroke". */
  predicate IsStrokeName(name: WString) {
    Contains(name, "Stroke")
  }

  /** MatchesTarget: scans the descriptors in order and stops at the first match. */
  method MatchesTarget(c: ShellTapConfig, name: WString, typeName: WString)
    returns (matched: bool, isStroke: bool)
    requires WellFormed(c)
    ensures matched <==> Matched(c, name, typeName)
    ensures isStroke <==> matched && IsStrokeName(name)
  {
    isStroke := false;
    var i := 0;
    while i < c.targetCount && i < MAX_TARGETS
      invariant 0 <= i <= ScannedCount(c)
      invariant forall j :: 0 <= j < i ==> !DescriptorMatches(c, j, name, typeName)
      invariant !isStroke
    {
      var nameMatch := c.targetNames[i] == "*" || name == c.targetNames[i];
      var typeMatch := c.targetTypes[i] == "*" || Contains(typeName, c.targetTypes[i]);
      if nameMatch && typeMatch {
        assert DescriptorMatches(c, i, name, typeName);
        if Contains(name, "Stroke") {
          isStroke := true;
        }
        return true, isStroke;
      }
      i := i + 1;
    }
    return false, isStroke;
  }

  /** One slot of the tracked-element table. */
  datatype TrackedElement = TrackedElement(
    handle: Handle,
    name: WString,
    typeName: WString,
    isStroke: bool,
    active: bool)

  /** A slot as the constructor's memset leaves it. */
  const EMPTY_SLOT: TrackedElement := TrackedElement(0, "", "", false, false)

  /** The slot an accepted Add fills: names are cut to 63 and 127 characters. */
  function NewSlot(h: Handle, name: WString, typeName: WString): (t: TrackedElement)
    ensures t.active && t.handle == h
    ensures |t.name| < NAME_CAPACITY && |t.typeName| < TYPE_CAPACITY
    ensures |t.name| <= |name| && |t.typeName| <= |typeName|
    ensures t.name == name[..|t.name|] && t.typeName == typeName[..|t.typeName|]
    ensures |t.name| == if |name| < NAME_CAPACITY then |name| else NAME_CAPACITY - 1
    ensures |t.typeName| == if |typeName| < TYPE_CAPACITY then |typeName| else TYPE_CAPACITY - 1
    ensures t.isStroke <==> IsStrokeName(name)
  {
    TrackedElement(h, Truncate(name, NAME_CAPACITY - 1), Truncate(typeName, TYPE_CAPACITY - 1), IsStrokeName(name), true)
  }

  /** The preconditions of the Add branch under which a slot is filled. */
  predicate TracksOnAdd(e: VisualElement, discovery: bool, c: ShellTapConfig, count: nat)
    requires WellFormed(c)
  {
    && !discovery
    && e.name.Some? && e.typeName.Some?
    && Matched(c, e.name.value, e.typeName.value)
    && count < MAX_TRACKED
  }

  /** What a Remove does to one slot. */
  function RemovedFrom(t: TrackedElement, h: Handle): TrackedElement {
    if t.handle == h then t.(active := false, handle := 0) else t
  }

  // ---------------------------------------------------------------------------
  // Appearance: what ApplyToElement and SetElementOpacity ask of the service

  /** The opacity ApplyToElement picks: a mode outside 0..2 keeps the initial 1.0. */
  function TargetOpacity(mode: int, isStroke: bool): OpacityLevel {
    match Modes.FromInt(mode)
    case Some(Transparent) => Zero
    case Some(Acrylic) => if isStroke then Zero else Dim
    case _ => Full
  }

  /** The index of the last chain entry named `name`, if any. */
  function LastIndex(chain: seq<ChainEntry>, name: WString): Option<nat>
    decreases |chain|
  {
    if chain == [] then None
    else if chain[|chain| - 1].name == Some(name) then Some(chain[|chain| - 1].index)
    else LastIndex(chain[..|chain| - 1], name)
  }

  /** LastIndex finds the index of an entry with that name, and no later entry has the name. */
  lemma {:induction false} LastIndexIsLast(chain: seq<ChainEntry>, name: WString)
    ensures LastIndex(chain, name).None? <==> forall j :: 0 <= j < |chain| ==> chain[j].name != Some(name)
    ensures LastIndex(chain, name).Some? ==>
      exists j :: 0 <= j < |chain| && chain[j].name == Some(name) && chain[j].index == LastIndex(chain, name).value
        && forall j' :: j < j' < |chain| ==> chain[j'].name != Some(name)
    decreases |chain|
  {
    if chain != [] {
      var n := |chain|;
      var init := chain[..n - 1];
      LastIndexIsLast(init, name);
      if chain[n - 1].name != Some(name) {
        assert forall j :: 0 <= j < n - 1 ==> init[j] == chain[j];
        if LastIndex(init, name).Some? {
          var j :| 0 <= j < n - 1 && init[j].name == Some(name) && init[j].index == LastIndex(init, name).value
            && forall j' :: j < j' < n - 1 ==> init[j'].name != Some(name);
          assert chain[j] == init[j];
        }
      }
    }
  }

  /** The scan's result, with UINT_MAX for "not found". */
  function ScanIndex(chain: seq<ChainEntry>, name: WString): nat {
    match LastIndex(chain, name)
    case None => NO_INDEX
    case Some(k) => k
  }

  /** The property-index scan of SetElementOpacity: one pass, later entries overwrite earlier ones. */
  method ScanPropertyIndices(chain: seq<ChainEntry>) returns (fillIndex: nat, opacityIndex: nat)
    ensures fillIndex == ScanIndex(chain, "Fill")
    ensures opacityIndex == ScanIndex(chain, "Opacity")
  {
    fillIndex, opacityIndex := NO_INDEX, NO_INDEX;
    var p := 0;
    while p < |chain|
      invariant p <= |chain|
      invariant fillIndex == ScanIndex(chain[..p], "Fill")
      invariant opacityIndex == ScanIndex(chain[..p], "Opacity")
    {
      assert chain[..p + 1][..p] == chain[..p];
      if chain[p].name.Some? {
        var propName := chain[p].name.value;
        if propName == "Fill" {
          fillIndex := chain[p].index;
        }
        if propName == "Opacity" {
          opacityIndex := chain[p].index;
        }
      }
      p := p + 1;
    }
    assert chain[..p] == chain;
  }

  /** CreateInstance for the value, then SetProperty when the instance was created. */
  function CreateThenSet(svc: XamlService, h: Handle, p: Property, k: nat, v: Value): seq<Op> {
    [CreateInstance(v)] + (if v in svc.creatable then [SetProperty(h, p, k, v)] else [])
  }

  /** The operations ApplyToElement issues for one element handle. */
  function ElementOps(svc: XamlService, h: Handle, mode: int, isStroke: bool): seq<Op> {
    if h !in svc.chains then []
    else
      var chain := svc.chains[h];
      var o := TargetOpacity(mode, isStroke);
      var opacityIndex := ScanIndex(chain, "Opacity");
      var fillIndex := ScanIndex(chain, "Fill");
      (if opacityIndex != NO_INDEX then CreateThenSet(svc, h, Opacity, opacityIndex, OpacityValue(o)) else [])
      + (if fillIndex != NO_INDEX && o != Full
         then CreateThenSet(svc, h, Fill, fillIndex, BrushValue(TransparentBrush)) else [])
  }

  /** The operations for one slot: only active slots with a non-zero handle are touched. */
  function SlotOps(svc: XamlService, t: TrackedElement, mode: int): seq<Op> {
    if t.active && t.handle != 0 then ElementOps(svc, t.handle, mode, t.isStroke) else []
  }

  /** The operations ApplyMode issues over the given slots, in slot order. */
  function ModeOps(service: Option<XamlService>, slots: seq<TrackedElement>, mode: int): seq<Op>
    decreases |slots|
  {
    if service.None? || slots == [] then []
    else ModeOps(service, slots[..|slots| - 1], mode) + SlotOps(service.value, slots[|slots| - 1], mode)
  }

  lemma ModeOpsStep(service: Option<XamlService>, slots: seq<TrackedElement>, i: nat, mode: int)
    requires service.Some? && i < |slots|
    ensures ModeOps(service, slots[..i + 1], mode)
      == ModeOps(service, slots[..i], mode) + SlotOps(service.value, slots[i], mode)
  {
    assert slots[..i + 1][..i] == slots[..i];
  }

  // ---------------------------------------------------------------------------
  // Properties of the appearance mapping

  /** Every operation ApplyToElement issues for h targets h; sets carry the chosen levels and the last indices. */
  lemma ElementOpsShape(svc: XamlService, h: Handle, mode: int, isStroke: bool)
    ensures forall op :: op in ElementOps(svc, h, mode, isStroke) && !op.CreateInstance? ==>
      && op.SetProperty? && op.target == h && h in svc.chains
      && op.value in svc.creatable
      && (op.prop == Opacity ==>
            && op.value == OpacityValue(TargetOpacity(mode, isStroke))
            && op.index == ScanIndex(svc.chains[h], "Opacity") && op.index != NO_INDEX)
      && (op.prop == Fill ==>
            op.value == BrushValue(TransparentBrush) && TargetOpacity(mode, isStroke) != Full
            && op.index == ScanIndex(svc.chains[h], "Fill") && op.index != NO_INDEX)
  {
  }

  /** The opacity levels: 0 for Transparent, 0 for strokes and 0.3 otherwise under Acrylic, 1 for Default. */
  lemma TargetOpacityByMode(isStroke: bool)
    ensures TargetOpacity(Modes.ToInt(Modes.Transparent), isStroke) == Zero
    ensures TargetOpacity(Modes.ToInt(Modes.Acrylic), isStroke) == (if isStroke then Zero else Dim)
    ensures TargetOpacity(Modes.ToInt(Modes.Default), isStroke) == Full
    ensures forall m :: !(0 <= m <= 2) ==> TargetOpacity(m, isStroke) == Full
  {
  }

  /** ApplyMode never issues an operation on a slot that is inactive or has handle 0. */
  lemma {:induction false} ModeOpsOnlyLive(service: Option<XamlService>, slots: seq<TrackedElement>, mode: int, h: Handle)
    requires Mutates(ModeOps(service, slots, mode), h)
    ensures exists i :: 0 <= i < |slots| && slots[i].active && slots[i].handle == h && h != 0
    decreases |slots|
  {
    var ops := ModeOps(service, slots, mode);
    var k :| 0 <= k < |ops| && !ops[k].CreateInstance? && ops[k].target == h;
    var n := |slots|;
    var prev := ModeOps(service, slots[..n - 1], mode);
    var last := SlotOps(service.value, slots[n - 1], mode);
    assert ops == prev + last;
    if k < |prev| {
      assert prev[k] == ops[k];
      ModeOpsOnlyLive(service, slots[..n - 1], mode, h);
      var i :| 0 <= i < n - 1 && slots[..n - 1][i].active && slots[..n - 1][i].handle == h && h != 0;
      assert slots[i] == slots[..n - 1][i];
    } else {
      assert last[k - |prev|] == ops[k];
      ElementOpsShape(service.value, slots[n - 1].handle, mode, slots[n - 1].isStroke);
      assert ops[k] in last;
    }
  }

  /** A service that creates every value and rejects no property write. */
  ghost predicate Compliant(svc: XamlService) {
    && (forall v: Value :: v in svc.creatable)
    && svc.rejected == {}
  }

  /** CreateInstance then SetProperty, both succeeding, leaves the value on the property. */
  lemma CreateThenSetEffect(svc: XamlService, h: Handle, p: Property, k: nat, v: Value, st: Overrides)
    requires v in svc.creatable && (h, k) !in svc.rejected
    ensures PerformAll(svc, CreateThenSet(svc, h, p, k, v), st) == st[(h, p) := v]
  {
    var ops := CreateThenSet(svc, h, p, k, v);
    assert ops == [CreateInstance(v), SetProperty(h, p, k, v)];
    assert ops[1..] == [SetProperty(h, p, k, v)];
    assert ops[1..][1..] == [];
    calc {
      PerformAll(svc, ops, st);
      PerformAll(svc, ops[1..], Perform(svc, CreateInstance(v), st));
      PerformAll(svc, ops[1..], st);
      PerformAll(svc, ops[1..][1..], Perform(svc, SetProperty(h, p, k, v), st));
      PerformAll(svc, [], st[(h, p) := v]);
    }
  }

  /**
   * What ApplyToElement leaves on an element of a compliant service: nothing
   * for a handle that does not resolve; otherwise the chosen opacity when the
   * chain has an Opacity entry, and the transparent brush below 1 when it has
   * a Fill entry.
   */
  lemma ElementEffect(svc: XamlService, h: Handle, mode: int, isStroke: bool, st: Overrides)
    requires Compliant(svc)
    ensures var o := TargetOpacity(mode, isStroke);
      var after := PerformAll(svc, ElementOps(svc, h, mode, isStroke), st);
      && (h !in svc.chains ==> after == st)
      && (h in svc.chains ==>
            var withOpacity := if ScanIndex(svc.chains[h], "Opacity") != NO_INDEX
                               then st[(h, Opacity) := OpacityValue(o)] else st;
            after == if ScanIndex(svc.chains[h], "Fill") != NO_INDEX && o != Full
                     then withOpacity[(h, Fill) := BrushValue(TransparentBrush)] else withOpacity)
  {
    if h in svc.chains {
      var o := TargetOpacity(mode, isStroke);
      var chain := svc.chains[h];
      var opacityIndex := ScanIndex(chain, "Opacity");
      var fillIndex := ScanIndex(chain, "Fill");
      var a := if opacityIndex != NO_INDEX then CreateThenSet(svc, h, Opacity, opacityIndex, OpacityValue(o)) else [];
      var b := if fillIndex != NO_INDEX && o != Full
               then CreateThenSet(svc, h, Fill, fillIndex, BrushValue(TransparentBrush)) else [];
      assert ElementOps(svc, h, mode, isStroke) == a + b;
      PerformAllAppend(svc, a, b, st);
      var withOpacity := if opacityIndex != NO_INDEX then st[(h, Opacity) := OpacityValue(o)] else st;
      if opacityIndex != NO_INDEX {
        assert OpacityValue(o) in svc.creatable;
        CreateThenSetEffect(svc, h, Opacity, opacityIndex, OpacityValue(o), st);
      }
      assert PerformAll(svc, a, st) == withOpacity;
      if fillIndex != NO_INDEX && o != Full {
        assert BrushValue(TransparentBrush) in svc.creatable;
        CreateThenSetEffect(svc, h, Fill, fillIndex, BrushValue(TransparentBrush), withOpacity);
      }
    }
  }

  /**
   * Transparent followed by Default does not give the element its Fill back:
   * Default writes Opacity 1 and never touches Fill, so the transparent brush stays.
   */
  lemma DefaultKeepsTransparentFill(svc: XamlService, h: Handle, isStroke: bool, st: Overrides)
    requires Compliant(svc) && h in svc.chains
    requires ScanIndex(svc.chains[h], "Opacity") != NO_INDEX && ScanIndex(svc.chains[h], "Fill") != NO_INDEX
    ensures var after := PerformAll(svc, ElementOps(svc, h, Modes.ToInt(Modes.Default), isStroke),
                          PerformAll(svc, ElementOps(svc, h, Modes.ToInt(Modes.Transparent), isStroke), st));
      && (h, Fill) in after && after[(h, Fill)] == BrushValue(TransparentBrush)
      && (h, Opacity) in after && after[(h, Opacity)] == OpacityValue(Full)
  {
    ElementEffect(svc, h, Modes.ToInt(Modes.Transparent), isStroke, st);
    var mid := PerformAll(svc, ElementOps(svc, h, Modes.ToInt(Modes.Transparent), isStroke), st);
    ElementEffect(svc, h, Modes.ToInt(Modes.Default), isStroke, mid);
  }

  // ---------------------------------------------------------------------------
  // The watcher and its table

  /** The VisualTreeWatcher: a fixed table of 32 slots, a fill count, and the log of requested operations. */
  class VisualTreeWatcher {
    /** m_pDiag / m_pService; None when the interfaces are missing. */
    var service: Option<XamlService>
    /** The table itself is allocated once, by the constructor. */
    const tracked: array<TrackedElement>
    var trackedCount: nat
    /** Operations requested from the diagnostics service, oldest first. */
    var ops: seq<Op>
    /** Elements written to the discovery log. */
    var discoveryLog: seq<VisualElement>

    ghost predicate Valid()
      reads this, tracked
    {
      && tracked.Length == MAX_TRACKED
      && trackedCount <= MAX_TRACKED
      && (forall i :: 0 <= i < trackedCount ==> tracked[i].active || tracked[i].handle == 0)
    }

    constructor (service: Option<XamlService>)
      ensures Valid() && fresh(tracked)
      ensures this.service == service && trackedCount == 0 && ops == [] && discoveryLog == []
      ensures forall i :: 0 <= i < MAX_TRACKED ==> tracked[i] == EMPTY_SLOT
    {
      this.service := service;
      tracked := new TrackedElement[MAX_TRACKED](_ => EMPTY_SLOT);
      trackedCount := 0;
      ops := [];
      discoveryLog := [];
    }

    /** GetTrackedCount: every slot ever filled, removed ones included. */
    function GetTrackedCount(): (n: nat)
      requires Valid()
      reads this, tracked
      ensures n <= MAX_TRACKED
    {
      trackedCount
    }

    /** ApplyMode: ApplyToElement on every active slot with a non-zero handle, in slot order. */
    method ApplyMode(mode: int)
      requires Valid()
      modifies this`ops
      ensures ops == old(ops) + ModeOps(service, tracked[..trackedCount], mode)
    {
      if service.None? {
        return;
      }
      var svc := service.value;
      var slots := tracked[..trackedCount];
      // the operations of this pass, appended to the log once the pass ends
      var pass: seq<Op> := [];
      var i := 0;
      while i < |slots|
        invariant i <= |slots|
        invariant pass == ModeOps(service, slots[..i], mode)
        invariant ops == old(ops)
      {
        ModeOpsStep(service, slots, i, mode);
        // SlotOps skips a slot that is inactive or has handle 0
        pass := pass + SlotOps(svc, slots[i], mode);
        i := i + 1;
      }
      assert slots[..i] == slots;
      ops := ops + pass;
    }

    /** OnVisualTreeChange; the globals it reads (g_discoveryMode, g_config, g_mode) are parameters. */
    method OnVisualTreeChange(mutation: Mutation, element: VisualElement, discovery: bool, config: ShellTapConfig, mode: int)
      requires Valid() && WellFormed(config)
      modifies this, tracked
      ensures Valid() && service == old(service)
      ensures discoveryLog == if mutation == Add && discovery then old(discoveryLog) + [element] else old(discoveryLog)
      ensures mutation == Add && TracksOnAdd(element, discovery, config, old(trackedCount)) ==>
        && trackedCount == old(trackedCount) + 1
        && tracked[old(trackedCount)] == NewSlot(element.handle, element.name.value, element.typeName.value)
        && (forall i :: 0 <= i < MAX_TRACKED && i != old(trackedCount) ==> tracked[i] == old(tracked[i]))
        && ops == old(ops) + (if mode != Modes.ToInt(Modes.Default) then ModeOps(service, tracked[..trackedCount], mode) else [])
      ensures mutation == Add && !TracksOnAdd(element, discovery, config, old(trackedCount)) ==>
        trackedCount == old(trackedCount) && tracked[..] == old(tracked[..]) && ops == old(ops)
      ensures mutation == Remove ==>
        && trackedCount == old(trackedCount) && ops == old(ops)
        && (forall i :: 0 <= i < trackedCount ==> tracked[i] == RemovedFrom(old(tracked[i]), element.handle))
        && (forall i :: trackedCount <= i < MAX_TRACKED ==> tracked[i] == old(tracked[i]))
    {
      if mutation == Add {
        if discovery {
          discoveryLog := discoveryLog + [element];
        }
        if !discovery && element.name.Some? && element.typeName.Some? {
          var isStroke;
          var matched;
          matched, isStroke := MatchesTarget(config, element.name.value, element.typeName.value);
          if matched && trackedCount < MAX_TRACKED {
            var slot := trackedCount;
            trackedCount := trackedCount + 1;
            tracked[slot] := TrackedElement(
              element.handle,
              Truncate(element.name.value, NAME_CAPACITY - 1),
              Truncate(element.typeName.value, TYPE_CAPACITY - 1),
              isStroke,
              true);
            if mode != Modes.ToInt(Modes.Default) {
              ApplyMode(mode);
            }
          }
        }
      } else {
        var i := 0;
        while i < trackedCount
          invariant i <= trackedCount
          invariant trackedCount == old(trackedCount)
          invariant ops == old(ops) && discoveryLog == old(discoveryLog) && service == old(service)
          invariant forall j :: 0 <= j < i ==> tracked[j] == RemovedFrom(old(tracked[j]), element.handle)
          invariant forall j :: i <= j < MAX_TRACKED ==> tracked[j] == old(tracked[j])
        {
          if tracked[i].handle == element.handle {
            tracked[i] := tracked[i].(active := false, handle := 0);
          }
          i := i + 1;
        }
      }
    }
  }

  /** After a Remove of a non-zero handle, no slot holds that handle any more. */
  lemma RemoveClearsHandle(slots: seq<TrackedElement>, h: Handle)
    requires h != 0
    ensures forall i :: 0 <= i < |slots| ==> RemovedFrom(slots[i], h).handle != h
    ensures forall i :: 0 <= i < |slots| && slots[i].handle != h ==> RemovedFrom(slots[i], h) == slots[i]
  {
  }

  // ---------------------------------------------------------------------------
  // The module's globals and exported functions

  /** The injected module's process-wide state: g_mode, g_discoveryMode, g_config, the shared mode slot and g_pWatcher. */
  class ShellTapModule {
    var mode: int
    var discovery: bool
    var config: ShellTapConfig
    /** g_pSharedMode != nullptr */
    var sharedMapped: bool
    /** *g_pSharedMode, which a controller process may overwrite at any time */
    var sharedMode: int
    var watcher: VisualTreeWatcher?

    ghost predicate Valid()
      reads this, watcher, if watcher != null then {watcher.tracked} else {}
    {
      && WellFormed(config)
      && (watcher != null ==> watcher.Valid() && (discovery ==> watcher.trackedCount == 0))
    }

    /** The state at DLL load, before the configuration is read. */
    constructor ()
      ensures Valid()
      ensures mode == INITIAL_MODE && discovery && config == ZeroConfig()
      ensures !sharedMapped && watcher == null
    {
      mode := INITIAL_MODE;
      discovery := true;
      config := ZeroConfig();
      sharedMapped := false;
      sharedMode := 0;
      watcher := null;
    }

    /**
     * ReadConfig's acceptance logic. `segment` is the record read from the
     * configuration segment (None when the segment does not exist; a view that
     * cannot be mapped reads as the zeroed record). Runs at load time, before
     * the diagnostics site creates the watcher.
     */
    method ReadConfig(segment: Option<ShellTapConfig>) returns (accepted: bool)
      requires Valid() && watcher == null
      requires segment.Some? ==> WellFormed(segment.value)
      modifies this
      ensures Valid() && watcher == null
      ensures sharedMapped == old(sharedMapped) && sharedMode == old(sharedMode)
      ensures config == if segment.Some? then segment.value else old(config)
      ensures accepted <==> segment.Some? && segment.value.version == CONFIG_VERSION
      ensures accepted ==> mode == segment.value.mode && (discovery <==> segment.value.targetCount == 0)
      ensures !accepted ==> mode == old(mode) && discovery == old(discovery)
    {
      if segment.None? {
        return false;
      }
      config := segment.value;
      if config.version != CONFIG_VERSION {
        return false;
      }
      mode := config.mode;
      discovery := config.targetCount == 0;
      return true;
    }

    /**
     * SetSite once the site is known: the previous watcher is released; with
     * both diagnostics interfaces available a fresh watcher is created and the
     * shared mode slot is seeded with the current mode (`mapped` says whether
     * the slot could be created).
     */
    method SetSite(site: Option<XamlService>, mapped: bool)
      requires Valid()
      modifies this
      ensures Valid()
      ensures mode == old(mode) && discovery == old(discovery) && config == old(config)
      ensures site.None? ==> watcher == null && sharedMapped == old(sharedMapped) && sharedMode == old(sharedMode)
      ensures site.Some? ==>
        && watcher != null && fresh(watcher) && fresh(watcher.tracked)
        && watcher.service == site && watcher.trackedCount == 0 && watcher.ops == [] && watcher.discoveryLog == []
        && (forall i :: 0 <= i < MAX_TRACKED ==> watcher.tracked[i] == EMPTY_SLOT)
        && sharedMapped == mapped && sharedMode == (if mapped then mode else old(sharedMode))
    {
      watcher := null;
      if site.None? {
        return;
      }
      watcher := new VisualTreeWatcher(site);
      sharedMapped := mapped;
      if mapped {
        sharedMode := mode;
      }
    }

    /** The diagnostics subsystem delivering one tree change to the watcher. */
    method Deliver(mutation: Mutation, element: VisualElement)
      requires Valid() && watcher != null
      modifies watcher, watcher.tracked
      ensures Valid()
      ensures discovery ==> watcher.ops == old(watcher.ops) && watcher.trackedCount == 0
    {
      watcher.OnVisualTreeChange(mutation, element, discovery, config, mode);
    }

    /** GetShellTAPMode: the current g_mode, which may lie outside 0..2 after ReadConfig. */
    function GetShellTAPMode(): (m: int)
      reads this
      ensures m == mode
    {
      mode
    }

    /** GetShellTAPAppliedCount: the watcher's fill count, 0 without a watcher. */
    function GetShellTAPAppliedCount(): (n: int)
      requires Valid()
      reads this, watcher, if watcher != null then {watcher.tracked} else {}
      ensures 0 <= n <= MAX_TRACKED
      ensures watcher == null ==> n == 0
      ensures watcher != null && discovery ==> n == 0
    {
      if watcher == null then 0 else watcher.GetTrackedCount()
    }

    /** SetShellTAPMode: rejects values outside 0..2; otherwise sets, mirrors and reapplies the mode. */
    method SetShellTAPMode(m: int) returns (hr: Status)
      requires Valid()
      modifies this, watcher
      ensures Valid() && watcher == old(watcher)
      ensures discovery == old(discovery) && config == old(config) && sharedMapped == old(sharedMapped)
      ensures watcher != null ==>
        && watcher.trackedCount == old(watcher.trackedCount) && watcher.service == old(watcher.service)
        && watcher.discoveryLog == old(watcher.discoveryLog)
      ensures Modes.FromInt(m).None? ==>
        hr == InvalidArg && mode == old(mode) && sharedMode == old(sharedMode)
        && (watcher != null ==> watcher.ops == old(watcher.ops))
      ensures Modes.FromInt(m).Some? ==>
        && hr == Ok && GetShellTAPMode() == m
        && sharedMode == (if sharedMapped then m else old(sharedMode))
        && (watcher != null ==>
              watcher.ops == old(watcher.ops) + ModeOps(old(watcher.service), old(watcher.tracked[..watcher.trackedCount]), m))
      ensures watcher != null && discovery ==> watcher.ops == old(watcher.ops)
    {
      if m < 0 || m > 2 {
        return InvalidArg;
      }
      mode := m;
      if sharedMapped {
        sharedMode := m;
      }
      if watcher != null {
        watcher.ApplyMode(mode);
      }
      return Ok;
    }

    /** One pass of MonitorThread: adopt a changed, valid value from the shared slot and reapply it. */
    method Poll()
      requires Valid()
      modifies this, watcher
      ensures Valid() && watcher == old(watcher)
      ensures discovery == old(discovery) && config == old(config)
      ensures sharedMapped == old(sharedMapped) && sharedMode == old(sharedMode)
      ensures watcher != null ==>
        && watcher.trackedCount == old(watcher.trackedCount) && watcher.service == old(watcher.service)
        && watcher.discoveryLog == old(watcher.discoveryLog)
      ensures var adopt := sharedMapped && Modes.FromInt(sharedMode).Some? && sharedMode != old(mode);
        && mode == (if adopt then sharedMode else old(mode))
        && (watcher != null ==>
              watcher.ops == old(watcher.ops)
                + (if adopt then ModeOps(old(watcher.service), old(watcher.tracked[..watcher.trackedCount]), mode) else []))
      ensures watcher != null && discovery ==> watcher.ops == old(watcher.ops)
    {
      if sharedMapped {
        var newMode := sharedMode;
        if newMode >= 0 && newMode <= 2 && newMode != mode {
          mode := newMode;
          if watcher != null {
            watcher.ApplyMode(mode);
          }
        }
      }
    }
  }
}
