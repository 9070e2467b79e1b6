/**
 How the auto-lock duration is resolved from configuration
 (src/session/user-auto-lock-preference.ts, src/session/auto-lock.ts).
 */
module AutoLockMinutes {
  import opened Prelude

  const DEFAULT_MINUTES := 15.0
  const MIN_MINUTES := 1.0
  const MAX_MINUTES := 1440.0

  /** A JavaScript number. Signed zeros are not told apart and finite values are exact. */
  datatype Number = NaN | PositiveInfinity | NegativeInfinity | Finite(value: real) {
    /** `Number.isFinite(x) && x > 0` */
    predicate IsPositiveFinite() {
      Finite? && value > 0.0
    }
  }

  /** `resolved` is what the resolver callback currently answers; absent stands for undefined and null. */
  datatype Config = Config(autoLockMinutes: Option<Number>, resolved: Option<Number>)

  function Max(x: real, y: real): real {
    if x < y then y else x
  }

  function Min(x: real, y: real): real {
    if x < y then x else y
  }

  /** `Math.round`: the nearest integer, halves going up. */
  function Round(x: real): real {
    (x + 0.5).Floor as real
  }

  function Clamp(minutes: Number, min: real, max: real): (r: real)
    ensures min <= r <= Max(min, max)
    ensures !minutes.Finite? ==> r == min
  {
    var ceiling := Max(min, max);
    if !minutes.Finite? then min else Min(Max(Round(minutes.value), min), ceiling)
  }

  function OrElse(first: Option<Number>, second: Number): Number {
    if first.Some? then first.value else second
  }

  function AdminCeiling(config: Config): real {
    var raw := OrElse(config.autoLockMinutes, Finite(DEFAULT_MINUTES));
    Clamp(if raw.IsPositiveFinite() then raw else Finite(DEFAULT_MINUTES), MIN_MINUTES, MAX_MINUTES)
  }

  function ResolveMinutes(config: Config): real {
    var resolved := OrElse(config.resolved, OrElse(config.autoLockMinutes, Finite(DEFAULT_MINUTES)));
    var minutes := if resolved.IsPositiveFinite() then resolved else Finite(DEFAULT_MINUTES);
    Clamp(minutes, MIN_MINUTES, AdminCeiling(config))
  }

  ghost predicate IsWhole(x: real) {
    x == x.Floor as real
  }

  /** Clamping to whole bounds yields a whole number of minutes. */
  lemma ClampIsWhole(minutes: Number, min: real, max: real)
    requires IsWhole(min) && IsWhole(max)
    ensures IsWhole(Clamp(minutes, min, max))
  {
    if minutes.Finite? {
      var n := (minutes.value + 0.5).Floor;
      assert Round(minutes.value) == n as real;
      assert (n as real).Floor == n;
    }
  }

  /** For every configuration, NaN and infinities included, the duration is a whole number in 1..1440. */
  lemma MinutesAreWholeAndBounded(config: Config)
    ensures IsWhole(ResolveMinutes(config))
    ensures 1.0 <= ResolveMinutes(config) <= AdminCeiling(config) <= 1440.0
  {
    assert IsWhole(MIN_MINUTES) && IsWhole(MAX_MINUTES);
    var raw := OrElse(config.autoLockMinutes, Finite(DEFAULT_MINUTES));
    ClampIsWhole(if raw.IsPositiveFinite() then raw else Finite(DEFAULT_MINUTES), MIN_MINUTES, MAX_MINUTES);
    var resolved := OrElse(config.resolved, OrElse(config.autoLockMinutes, Finite(DEFAULT_MINUTES)));
    ClampIsWhole(if resolved.IsPositiveFinite() then resolved else Finite(DEFAULT_MINUTES), MIN_MINUTES, AdminCeiling(config));
  }

  function TimeoutMs(config: Config): (ms: int)
    ensures 60_000 <= ms <= 86_400_000
  {
    MinutesAreWholeAndBounded(config);
    ResolveMinutes(config).Floor * 60 * 1000
  }

  // ---------------------------------------------------------------- which number it is

  /** The whole number nearest to `x`; of two, the greater. */
  ghost predicate IsNearest(n: real, x: real) {
    IsWhole(n) && x - 0.5 < n <= x + 0.5
  }

  lemma RoundIsNearest(x: real)
    ensures IsNearest(Round(x), x)
  {
    var n := (x + 0.5).Floor;
    assert (n as real).Floor == n;
  }

  lemma FloorBelow(y: real, w: int)
    requires y < w as real + 1.0
    ensures y.Floor <= w
  {
  }

  lemma FloorAbove(y: real, w: int)
    requires w as real <= y
    ensures w <= y.Floor
  {
  }

  /** Rounding keeps a number on its side of a whole one. */
  lemma RoundStays(x: real, whole: real)
    requires IsWhole(whole)
    ensures x <= whole ==> Round(x) <= whole
    ensures whole <= x ==> whole <= Round(x)
  {
    var w := whole.Floor;
    if x <= whole {
      FloorBelow(x + 0.5, w);
    }
    if whole <= x {
      FloorAbove(x + 0.5, w);
    }
  }

  /** The administrator's number is the ceiling: the nearest whole one in 1..1440, or 15 if it is none to use. */
  lemma CeilingFollowsConfiguration(config: Config)
    ensures var a := config.autoLockMinutes;
            && (a.None? || !a.value.Finite? || a.value.value <= 0.0 ==> AdminCeiling(config) == 15.0)
            && (a.Some? && a.value.Finite? && 0.0 < a.value.value <= 1.0 ==> AdminCeiling(config) == 1.0)
            && (a.Some? && a.value.Finite? && 1.0 <= a.value.value <= 1440.0 ==> IsNearest(AdminCeiling(config), a.value.value))
            && (a.Some? && a.value.Finite? && 1440.0 <= a.value.value ==> AdminCeiling(config) == 1440.0)
  {
    RoundIsNearest(15.0);
    if config.autoLockMinutes.Some? && config.autoLockMinutes.value.Finite? {
      var x := config.autoLockMinutes.value.value;
      RoundIsNearest(x);
      RoundStays(x, 1.0);
      RoundStays(x, 1440.0);
    }
  }

  /**
   The number asked for is the user's if there is one, else the administrator's, else 15; if it is not
   finite and positive it is 15 as well. The duration is the nearest whole number to it, but at least 1
   and at most the ceiling.
   */
  lemma MinutesFollowConfiguration(config: Config, asked: Number, x: real)
    requires asked == if config.resolved.Some? then config.resolved.value
                      else if config.autoLockMinutes.Some? then config.autoLockMinutes.value else Finite(15.0)
    requires x == if asked.Finite? && asked.value > 0.0 then asked.value else 15.0
    ensures x <= 1.0 ==> ResolveMinutes(config) == 1.0
    ensures 1.0 <= x <= AdminCeiling(config) ==> IsNearest(ResolveMinutes(config), x)
    ensures AdminCeiling(config) <= x ==> ResolveMinutes(config) == AdminCeiling(config)
  {
    MinutesAreWholeAndBounded(config);
    var raw := OrElse(config.autoLockMinutes, Finite(DEFAULT_MINUTES));
    ClampIsWhole(if raw.IsPositiveFinite() then raw else Finite(DEFAULT_MINUTES), MIN_MINUTES, MAX_MINUTES);
    RoundIsNearest(x);
    RoundStays(x, 1.0);
    RoundStays(x, AdminCeiling(config));
  }

  lemma TimeoutIsMinutes(config: Config)
    ensures TimeoutMs(config) as real == ResolveMinutes(config) * 60_000.0
  {
    MinutesAreWholeAndBounded(config);
  }
}
