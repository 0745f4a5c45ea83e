/**
 The clock comparisons of src/verifier.rs on 64-bit signed integers, additions and subtractions
 wrapping around as they do in a release build, and exactly when they mean what they say.
 */
module Temporal {
  import opened Config
  import opened Json
  import opened ReplayProtocol

  type I64 = x: int | I64_MIN <= x <= I64_MAX

  const TWO_64: int := 0x1_0000_0000_0000_0000

  function Wrap(x: int): I64 {
    (x - I64_MIN) % TWO_64 + I64_MIN
  }

  function Abs(x: I64): I64 {
    if x < 0 then Wrap(0 - x as int) else x
  }

  /** `now_secs()` and the configured tolerance stay far from the ends of the type. */
  predicate SaneClock(now: int, toleranceSecs: nat) {
    0 <= now < 0x2000_0000_0000_0000 && toleranceSecs < 0x1000_0000_0000_0000
  }

  /** `(now - iat).abs() > window` is false. */
  predicate PassesFreshness(now: I64, iat: I64, toleranceSecs: nat) {
    var window := Wrap(FreshnessWindow(toleranceSecs));
    !(Abs(Wrap(now - iat)) > window)
  }

  predicate PassesExp(now: I64, exp: I64, toleranceSecs: nat) {
    !(Wrap(now - Wrap(toleranceSecs)) > exp)
  }

  predicate PassesNbf(now: I64, nbf: I64, toleranceSecs: nat) {
    !(Wrap(now + Wrap(toleranceSecs)) < nbf)
  }

  predicate PassesIat(now: I64, iat: I64, toleranceSecs: nat) {
    !(Wrap(iat - Wrap(toleranceSecs)) > now)
  }

  lemma WrapInRange(x: int)
    requires I64_MIN <= x <= I64_MAX
    ensures Wrap(x) == x
  {}

  lemma WrapAbove(x: int)
    requires I64_MAX < x <= I64_MAX + TWO_64
    ensures Wrap(x) == x - TWO_64
  {
    assert (x - I64_MIN) % TWO_64 == x - I64_MIN - TWO_64;
  }

  lemma WrapBelow(x: int)
    requires I64_MIN - TWO_64 <= x < I64_MIN
    ensures Wrap(x) == x + TWO_64
  {
    assert (x - I64_MIN) % TWO_64 == x - I64_MIN + TWO_64;
  }

  /**
   The freshness comparison is the symmetric window of the replay protocol for every `iat` but one: the
   `iat` exactly 2^63 seconds before now, whose distance has no absolute value in the type.
   */
  lemma FreshnessMeansWindowIff(now: I64, iat: I64, toleranceSecs: nat)
    requires SaneClock(now, toleranceSecs)
    ensures (PassesFreshness(now, iat, toleranceSecs) <==> IsFresh(toleranceSecs, now, iat)) <==> now - iat != -I64_MIN
  {
    WrapInRange(FreshnessWindow(toleranceSecs));
    var d := now - iat;
    if d <= I64_MAX {
      WrapInRange(d);
      if d < 0 {
        WrapInRange(-d);
      }
    } else {
      WrapAbove(d);
      if d == -I64_MIN {
        WrapAbove(-I64_MIN);
      } else {
        WrapInRange(TWO_64 - d);
      }
    }
  }

  /**
   Expiry and not-before compare as over the integers; the issue time does unless subtracting the
   tolerance leaves the type, which refuses a token issued impossibly long ago.
   */
  lemma TokenTimesMeanIff(now: I64, t: I64, toleranceSecs: nat)
    requires SaneClock(now, toleranceSecs)
    ensures PassesExp(now, t, toleranceSecs) <==> now - toleranceSecs <= t
    ensures PassesNbf(now, t, toleranceSecs) <==> t <= now + toleranceSecs
    ensures (PassesIat(now, t, toleranceSecs) <==> t <= now + toleranceSecs) <==> t >= I64_MIN + toleranceSecs
  {
    WrapInRange(toleranceSecs);
    WrapInRange(now - toleranceSecs);
    WrapInRange(now + toleranceSecs);
    if t >= I64_MIN + toleranceSecs {
      WrapInRange(t - toleranceSecs);
    } else {
      WrapBelow(t - toleranceSecs);
    }
  }
}
