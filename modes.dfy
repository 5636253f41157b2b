/**
 * The appearance mode shared by both plugins (AppearanceMode in ShellTAP,
 * TaskbarAppearance in TaskbarTAP): Default = 0, Transparent = 1, Acrylic = 2.
 */
module Modes {
  import opened Xaml

  datatype Mode = Default | Transparent | Acrylic

  /** The integer an enum value carries. */
  function ToInt(m: Mode): (i: int)
    ensures 0 <= i <= 2
  {
    match m
    case Default => 0
    case Transparent => 1
    case Acrylic => 2
  }

  /** Decodes an integer written by a controller; only 0..2 name a mode. */
  function FromInt(i: int): (r: Option<Mode>)
    ensures r.Some? <==> 0 <= i <= 2
  {
    if i == 0 then Some(Default)
    else if i == 1 then Some(Transparent)
    else if i == 2 then Some(Acrylic)
    else None
  }

  lemma ModeRoundTrip(m: Mode)
    ensures FromInt(ToInt(m)) == Some(m)
  {
  }

  lemma IntRoundTrip(i: int)
    requires 0 <= i <= 2
    ensures FromInt(i).Some? && ToInt(FromInt(i).value) == i
  {
  }

  /** The enum values are pairwise distinct integers. */
  lemma ToIntInjective(m1: Mode, m2: Mode)
    ensures ToInt(m1) == ToInt(m2) ==> m1 == m2
  {
  }
}
