/**
 * Values shared by both appearance plugins: element handles, the property
 * values the plugins write, the log of operations they request from the
 * XAML diagnostics service, and a value that stands for that service's
 * answers.
 */
module Xaml {

  datatype Option<+T> = None | Some(value: T)

  /** An InstanceHandle; 0 means "no element". */
  type Handle = nat

  /** Wide strings; a C string never holds its terminating NUL. */
  type WString = seq<char>

  /** The two properties the plugins touch. */
  datatype Property = Fill | Opacity

  /** The three opacity levels written anywhere in the plugins: 0, 0.3 and 1. */
  datatype OpacityLevel = Zero | Dim | Full

  /** Solid colour brushes: "Transparent" and "#44000000". */
  datatype Brush = TransparentBrush | DarkTint

  datatype Value = OpacityValue(level: OpacityLevel) | BrushValue(brush: Brush)

  /** The operations a plugin asks the diagnostics service to perform. */
  datatype Op =
    | CreateInstance(value: Value)
    | SetProperty(target: Handle, prop: Property, index: nat, value: Value)
    | ClearProperty(target: Handle, prop: Property, index: nat)

  /** The HRESULT classes the modelled code distinguishes. */
  datatype Status = Ok | InvalidArg | ServiceFailure

  /** One entry of an element's property chain: a possibly missing name and its index. */
  datatype ChainEntry = ChainEntry(name: Option<WString>, index: nat)

  /**
   * What the diagnostics service answers:
   * - chains: the property chain of each handle that resolves to an element
   *   (absent: GetIInspectableFromHandle / GetPropertyValuesChain fail);
   * - indices: GetPropertyIndex results;
   * - creatable: the values CreateInstance succeeds for;
   * - rejected: (handle, index) pairs on which SetProperty / ClearProperty fail.
   */
  datatype XamlService = XamlService(
    chains: map<Handle, seq<ChainEntry>>,
    indices: map<(Handle, Property), nat>,
    creatable: set<Value>,
    rejected: set<(Handle, nat)>)

  datatype Mutation = Add | Remove

  /** A VisualElement as delivered to OnVisualTreeChange; name and type may be null. */
  datatype VisualElement = VisualElement(handle: Handle, name: Option<WString>, typeName: Option<WString>)

  /** wcsstr / std::wstring::find: does `pattern` occur in `s`? */
  predicate Contains(s: WString, pattern: WString) {
    exists i :: 0 <= i <= |s| - |pattern| && OccursAt(s, pattern, i)
  }

  /** `pattern` occurs in `s` starting at position i. */
  predicate OccursAt(s: WString, pattern: WString, i: int) {
    0 <= i && i + |pattern| <= |s| && s[i..i + |pattern|] == pattern
  }

  /** wcsncpy_s(dest, src, n) with n below the buffer size: exactly the first min(|s|, n) characters are kept. */
  function Truncate(s: WString, n: nat): (r: WString)
    ensures |r| <= n && |r| <= |s|
    ensures r == s[..|r|]
    ensures |s| <= n ==> r == s
    ensures |s| > n ==> |r| == n
  {
    if |s| <= n then s else s[..n]
  }

  /** Property overrides an element carries: a missing key is the template value. */
  type Overrides = map<(Handle, Property), Value>

  /** The effect of one operation on the overrides, as the service performs it. */
  function Perform(svc: XamlService, op: Op, st: Overrides): Overrides {
    match op
    case CreateInstance(_) => st
    case SetProperty(h, p, k, v) => if (h, k) in svc.rejected then st else st[(h, p) := v]
    case ClearProperty(h, p, k) => if (h, k) in svc.rejected then st else st - {(h, p)}
  }

  /** The effect of a log of operations, in order. */
  function PerformAll(svc: XamlService, ops: seq<Op>, st: Overrides): Overrides
    decreases |ops|
  {
    if ops == [] then st else PerformAll(svc, ops[1..], Perform(svc, ops[0], st))
  }

  lemma {:induction false} PerformAllAppend(svc: XamlService, a: seq<Op>, b: seq<Op>, st: Overrides)
    ensures PerformAll(svc, a + b, st) == PerformAll(svc, b, PerformAll(svc, a, st))
    decreases |a|
  {
    if a == [] {
      assert a + b == b;
    } else {
      assert (a + b)[1..] == a[1..] + b;
      PerformAllAppend(svc, a[1..], b, Perform(svc, a[0], st));
    }
  }

  /** Handles a log mutates (sets or clears a property on). */
  predicate Mutates(ops: seq<Op>, h: Handle) {
    exists i :: 0 <= i < |ops| && !ops[i].CreateInstance? && ops[i].target == h
  }
}
