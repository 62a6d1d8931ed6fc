/**
  * The fixed-point acceleration ramp of the stepper driver: all quantities are unsigned
  * integers of 16 or 32 bits, and every truncation of the code is written out.
  */
module Ramp {

  type u16 = x: int | 0 <= x < 0x1_0000
  type u32 = x: int | 0 <= x < 0x1_0000_0000

  // ---------------------------------------------------------------------
  // The code
  // ---------------------------------------------------------------------

  /** The length in clocks after two bits of precision have been dropped. */
  function Coarse(clocks: u32): (n: u32)
    ensures 4 * n <= clocks < 4 * n + 4
  {
    clocks / 4
  }

  function MaxDivMin(minWL: u16, maxWL: u16): (r: u16)
    requires maxWL > 0
  {
    (minWL * 0x1_0000 / maxWL) % 0x1_0000
  }

  function InvTotalTime(clocksRamp: u32): (r: u32)
    requires Coarse(clocksRamp) > 0
  {
    0xFFFF_FFFF / Coarse(clocksRamp)
  }

  /** The lengths that ramp_compute's assertions let through. */
  predicate AcceptedLength(clocksRamp: u32) {
    clocksRamp < 0x400_0000 && Coarse(clocksRamp) > 0 && InvTotalTime(clocksRamp) < 0x100_0000
  }

  class Ramp {
    var clocksRamp: u32
    var minWL: u16
    var maxWL: u16
    var maxDivMin: u16
    var invTotalTime: u32

    ghost predicate Computed()
      reads this
    {
      && maxWL > 0 && minWL <= maxWL && AcceptedLength(clocksRamp)
      && maxDivMin == MaxDivMin(minWL, maxWL) && invTotalTime == InvTotalTime(clocksRamp)
    }

    /** ramp_compute: the ratio and the reciprocal are the true ones, rounded down. */
    method Compute(clocks: u32, min: u16, max: u16)
      requires max > 0 && min <= max && AcceptedLength(clocks)
      modifies this
      ensures Computed() && clocksRamp == clocks && minWL == min && maxWL == max
      ensures 0 < min < max ==> maxDivMin * max <= min * 0x1_0000 < (maxDivMin + 1) * max
      ensures invTotalTime * Coarse(clocks) <= 0xFFFF_FFFF < (invTotalTime + 1) * Coarse(clocks)
    {
      clocksRamp, minWL, maxWL := clocks, min, max;
      maxDivMin := MaxDivMin(min, max);
      invTotalTime := InvTotalTime(clocks);
      DivBounds(0xFFFF_FFFF, Coarse(clocks));
      if 0 < min < max {
        RatioIs(min, max);
      }
    }

    /**
      * ramp_evaluate on the ramp, from where it does not divide by zero. For wavelengths that
      * leave room, the result lies between the shortest one and the bound set by the ratio, and
      * close to the exact value of the formula.
      */
    method Evaluate(curClock: u32) returns (r: u16)
      requires Computed() && curClock <= clocksRamp && Coarse(curClock) * invTotalTime >= 0x1_0000
      ensures var d := Denominator(Time(curClock, invTotalTime), maxDivMin); d != 0 && r == Value(minWL, d)
      ensures minWL > 0 && Roomy(minWL, maxWL) ==> Sound(r, minWL, maxWL, Time(curClock, invTotalTime))
    {
      DividesByZeroIff(clocksRamp, curClock, maxDivMin);
      var t := Time(curClock, invTotalTime);
      var denom := Denominator(t, maxDivMin);
      r := Value(minWL, denom);
      if minWL > 0 && Roomy(minWL, maxWL) {
        TimeIsPositive(clocksRamp, curClock);
        ResultIsSound(minWL, maxWL, t);
      }
    }
  }

  /** The current time as a fraction of the ramp, scaled by 2 to the 16 and cut to 16 bits. */
  function Time(curClock: u32, inv: u32): (t: u16) {
    (Coarse(curClock) * inv) / 0x1_0000 % 0x1_0000
  }

  function FixMult16(a: u16, b: u32): (r: u16) {
    (b * a) % 0x1_0000_0000 / 0x1_0000 % 0x1_0000
  }

  /** The complement of t plus one is computed in 16 bits, and is zero for t = 0. */
  function Denominator(t: u16, maxDivMin: u16): (d: u16) {
    (FixMult16((0xFFFF - t + 1) % 0x1_0000, maxDivMin) + t) % 0x1_0000
  }

  function Value(minWL: u16, denom: u16): (r: u16)
    requires denom != 0
  {
    (minWL * 0x1_0000) % 0x1_0000_0000 / denom % 0x1_0000
  }

  // ---------------------------------------------------------------------
  // Products and quotients
  // ---------------------------------------------------------------------

  lemma MulLe(a: nat, b: nat, c: nat, d: nat)
    requires a <= b && c <= d
    ensures a * c <= b * d
  {
    assert a * c <= b * c;
    assert b * c <= b * d;
  }

  lemma MulLt(a: nat, b: nat, c: nat)
    requires a < b && c > 0
    ensures a * c < b * c
  {
  }

  lemma DivLe(a: nat, b: nat, d: nat)
    requires a <= b && d > 0
    ensures a / d <= b / d
  {
    DivBounds(a, d);
    DivBounds(b, d);
    if a / d > b / d {
      MulLe(b / d + 1, a / d, d, d);
    }
  }

  lemma DivAnti(a: nat, d: nat, e: nat)
    requires 0 < d <= e
    ensures a / e <= a / d
  {
    DivBounds(a, d);
    DivBounds(a, e);
    if a / e > a / d {
      MulLe(a / d + 1, a / e, d, e);
    }
  }

  lemma DivBounds(a: nat, d: nat)
    requires d > 0
    ensures a / d * d <= a < (a / d + 1) * d
    ensures a / d >= 0
  {
    assert a == a / d * d + a % d;
    assert (a / d + 1) * d == a / d * d + d;
  }

  lemma DivIs(a: nat, d: nat, q: nat)
    requires d > 0 && q * d <= a < (q + 1) * d
    ensures a / d == q
  {
    DivBounds(a, d);
    if a / d < q {
      MulLe(a / d + 1, q, d, d);
    } else if a / d > q {
      MulLe(q + 1, a / d, d, d);
    }
  }

  // ---------------------------------------------------------------------
  // Time
  // ---------------------------------------------------------------------

  /** Within the ramp, the product of clock and reciprocal stays inside 32 bits: nothing is cut off. */
  lemma TimeFits(clocksRamp: u32, curClock: u32)
    requires AcceptedLength(clocksRamp) && curClock <= clocksRamp
    ensures Coarse(curClock) * InvTotalTime(clocksRamp) <= 0xFFFF_FFFF
    ensures Time(curClock, InvTotalTime(clocksRamp)) == Coarse(curClock) * InvTotalTime(clocksRamp) / 0x1_0000
  {
    var c, n := Coarse(curClock), Coarse(clocksRamp);
    CoarseGrows(curClock, clocksRamp);
    ProductFits(c, n, InvTotalTime(clocksRamp));
    HighHalf(c * InvTotalTime(clocksRamp));
  }

  lemma CoarseGrows(earlier: u32, later: u32)
    requires earlier <= later
    ensures Coarse(earlier) <= Coarse(later)
  {
  }

  lemma ProductFits(c: nat, n: nat, inv: nat)
    requires n > 0 && c <= n && inv == 0xFFFF_FFFF / n
    ensures 0 <= c * inv <= 0xFFFF_FFFF
  {
    DivBounds(0xFFFF_FFFF, n);
    MulLe(c, n, inv, inv);
  }

  lemma HighHalf(p: nat)
    requires p <= 0xFFFF_FFFF
    ensures p / 0x1_0000 % 0x1_0000 == p / 0x1_0000
  {
  }

  lemma TimeGrows(clocksRamp: u32, earlier: u32, later: u32)
    requires AcceptedLength(clocksRamp) && earlier <= later <= clocksRamp
    ensures Time(earlier, InvTotalTime(clocksRamp)) <= Time(later, InvTotalTime(clocksRamp))
  {
    TimeFits(clocksRamp, earlier);
    TimeFits(clocksRamp, later);
    CoarseGrows(earlier, later);
    MulLe(Coarse(earlier), Coarse(later), InvTotalTime(clocksRamp), InvTotalTime(clocksRamp));
    DivLe(Coarse(earlier) * InvTotalTime(clocksRamp), Coarse(later) * InvTotalTime(clocksRamp), 0x1_0000);
  }

  lemma TimeIsPositive(clocksRamp: u32, curClock: u32)
    requires AcceptedLength(clocksRamp) && curClock <= clocksRamp
    requires Coarse(curClock) * InvTotalTime(clocksRamp) >= 0x1_0000
    ensures Time(curClock, InvTotalTime(clocksRamp)) >= 1
  {
    TimeFits(clocksRamp, curClock);
    DivLe(0x1_0000, Coarse(curClock) * InvTotalTime(clocksRamp), 0x1_0000);
  }

  lemma ShortOfTime(c: nat, n: nat, inv: nat, t: nat)
    requires n >= 256 && c <= n && c < 0x100_0000
    requires inv * n <= 0xFFFF_FFFF < (inv + 1) * n
    requires t * 0x1_0000 <= c * inv < (t + 1) * 0x1_0000
    ensures t * n <= 0x1_0000 * c < t * n + 258 * n
  {
    calc {
      t * n * 0x1_0000;
      == { Swap(t, n, 0x1_0000); }
      t * 0x1_0000 * n;
      <= { MulLe(t * 0x1_0000, c * inv, n, n); }
      c * inv * n;
      == { Regroup(c, inv, n); }
      c * (inv * n);
      <= { MulLe(c, c, inv * n, 0xFFFF_FFFF); }
      c * 0xFFFF_FFFF;
    }
    calc {
      c * 0x1_0000_0000;
      <= { MulLe(c, c, 0x1_0000_0000, (inv + 1) * n); }
      c * ((inv + 1) * n);
      == { Regroup(c, inv + 1, n); Spread(c, inv); }
      (c * inv + c) * n;
      <= { MulLe(c * inv + c, (t + 1) * 0x1_0000 - 1 + c, n, n); }
      ((t + 1) * 0x1_0000 - 1 + c) * n;
      <= { MulLe((t + 1) * 0x1_0000 - 1 + c, (t + 257) * 0x1_0000, n, n); }
      (t + 257) * 0x1_0000 * n;
      == { Swap(t + 257, 0x1_0000, n); }
      (t + 257) * n * 0x1_0000;
    }
    assert (t + 257) * n == t * n + 257 * n;
  }

  lemma Swap(a: nat, b: nat, c: nat)
    ensures a * b * c == a * c * b
  {
  }

  lemma Regroup(a: nat, b: nat, c: nat)
    ensures a * b * c == a * (b * c)
  {
  }

  lemma Spread(a: nat, b: nat)
    ensures a * (b + 1) == a * b + a
  {
  }

  /** The scaled time is never ahead of the true fraction of the ramp, and less than 258 / 65536 behind it. */
  lemma TimeError(clocksRamp: u32, curClock: u32)
    requires AcceptedLength(clocksRamp) && curClock <= clocksRamp
    ensures var (t, c, n) := (Time(curClock, InvTotalTime(clocksRamp)), Coarse(curClock), Coarse(clocksRamp));
            t * n <= 0x1_0000 * c < t * n + 258 * n
  {
    var n, inv := Coarse(clocksRamp), InvTotalTime(clocksRamp);
    TimeFits(clocksRamp, curClock);
    DivBounds(0xFFFF_FFFF, n);
    DivBounds(Coarse(curClock) * inv, 0x1_0000);
    assert n >= 256 by {
      if n < 256 {
        DivAnti(0xFFFF_FFFF, n, 255);
      }
    }
    ShortOfTime(Coarse(curClock), n, inv, Time(curClock, inv));
  }

  // ---------------------------------------------------------------------
  // The denominator
  // ---------------------------------------------------------------------

  lemma FixMultIs(a: u16, b: u16)
    ensures FixMult16(a, b) == b * a / 0x1_0000
  {
    MulLe(b, 0xFFFF, a, 0xFFFF);
    MiddleHalf(b * a);
  }

  lemma MiddleHalf(p: nat)
    requires p <= 0xFFFF * 0xFFFF
    ensures p % 0x1_0000_0000 / 0x1_0000 % 0x1_0000 == p / 0x1_0000
  {
  }

  /** Bounds of a quotient by 2 to the 16, from bounds of the dividend. */
  lemma QuotientRange(p: nat, r: u16, t: u16)
    requires t >= 1 && p <= 0xFFFF * (0x1_0000 - t) && 0x1_0000 * r <= p + 0xFFFF * t
    ensures p / 0x1_0000 + t <= 0xFFFF && r <= p / 0x1_0000 + t
  {
  }

  lemma ProductRange(r: u16, t: u16)
    ensures 0 <= r * (0x1_0000 - t) <= 0xFFFF * (0x1_0000 - t)
    ensures 0x1_0000 * r <= r * (0x1_0000 - t) + 0xFFFF * t
  {
    MulLe(r, 0xFFFF, 0x1_0000 - t, 0x1_0000 - t);
    MulLe(r, 0xFFFF, t, t);
    assert r * (0x1_0000 - t) == 0x1_0000 * r - r * t;
  }

  /** For every t but zero, no step of the denominator wraps around. */
  lemma DenominatorIs(t: u16, r: u16)
    requires t >= 1
    ensures Denominator(t, r) == r * (0x1_0000 - t) / 0x1_0000 + t
    ensures t <= Denominator(t, r) && r <= Denominator(t, r) <= 0xFFFF
  {
    var a := 0x1_0000 - t;
    FixMultIs(a, r);
    ProductRange(r, t);
    QuotientRange(r * a, r, t);
    Assembled(t, r, a, r * a / 0x1_0000);
  }

  lemma Assembled(t: u16, r: u16, a: u16, q: nat)
    requires t >= 1 && a == 0x1_0000 - t && q == FixMult16(a, r) && q + t <= 0xFFFF
    ensures Denominator(t, r) == q + t
  {
    assert (0xFFFF - t + 1) % 0x1_0000 == a;
  }

  /** At t = 0 the complement wraps to zero and with it the denominator: the code divides by zero. */
  lemma DenominatorZeroIff(t: u16, r: u16)
    ensures Denominator(t, r) == 0 <==> t == 0
  {
    if t >= 1 {
      DenominatorIs(t, r);
    }
  }

  lemma DenominatorGrows(s: u16, t: u16, r: u16)
    requires 1 <= s <= t
    ensures Denominator(s, r) <= Denominator(t, r)
  {
    DenominatorIs(s, r);
    DenominatorIs(t, r);
    MulLe(r, 0xFFFF, t - s, t - s);
    assert r * (0x1_0000 - s) == r * (0x1_0000 - t) + r * (t - s);
    QuotientsGrow(r * (0x1_0000 - s), r * (0x1_0000 - t), t - s);
  }

  lemma QuotientsGrow(p: nat, q: nat, k: nat)
    requires p <= q + 0xFFFF * k
    ensures p / 0x1_0000 <= q / 0x1_0000 + k
  {
  }

  /** The ratio of the wavelengths, rounded down; it fits 16 bits because they differ. */
  lemma RatioIs(minWL: u16, maxWL: u16)
    requires 0 < minWL < maxWL
    ensures var r := MaxDivMin(minWL, maxWL);
            r == minWL * 0x1_0000 / maxWL && r * maxWL <= minWL * 0x1_0000 < (r + 1) * maxWL
  {
    DivBounds(minWL * 0x1_0000, maxWL);
    MulLt(minWL, maxWL, 0x1_0000);
    if minWL * 0x1_0000 / maxWL >= 0x1_0000 {
      MulLe(0x1_0000, minWL * 0x1_0000 / maxWL, maxWL, maxWL);
    }
  }

  /** The denominator of the formula at time t, scaled by 2 to the 16 and multiplied by the longest wavelength. */
  function Exact(min: int, max: int, t: int): (e: int) {
    min * (0x1_0000 - t) + max * t
  }

  /** Not above the exact value, and less than two below it. */
  ghost predicate JustBelow(d: int, max: int, e: int) {
    d * max <= e < (d + 2) * max
  }

  /** A ratio rounded down. */
  ghost predicate RoundedRatio(r: int, min: int, max: int) {
    r * max <= min * 0x1_0000 < (r + 1) * max
  }

  /** The denominator as it comes out when nothing wraps. */
  function PlainDenominator(t: nat, r: nat): (d: int)
    requires t <= 0x1_0000
  {
    r * (0x1_0000 - t) / 0x1_0000 + t
  }

  /** The denominator lies less than two below the exact value of the formula: (min / max) * (1 - t) + t. */
  lemma DenominatorError(minWL: u16, maxWL: u16, t: u16)
    requires 0 < minWL < maxWL && t >= 1
    ensures JustBelow(Denominator(t, MaxDivMin(minWL, maxWL)), maxWL, Exact(minWL, maxWL, t))
  {
    var r := MaxDivMin(minWL, maxWL);
    RatioIsRounded(minWL, maxWL);
    DenominatorIsPlain(t, r);
    ErrorOf(minWL, maxWL, t, r);
  }

  lemma RatioIsRounded(minWL: u16, maxWL: u16)
    requires 0 < minWL < maxWL
    ensures RoundedRatio(MaxDivMin(minWL, maxWL), minWL, maxWL)
  {
    RatioIs(minWL, maxWL);
  }

  lemma DenominatorIsPlain(t: u16, r: u16)
    requires t >= 1
    ensures Denominator(t, r) == PlainDenominator(t, r)
  {
    DenominatorIs(t, r);
  }

  lemma ErrorOf(min: nat, max: nat, t: nat, r: nat)
    requires max > 0 && 1 <= t < 0x1_0000 && RoundedRatio(r, min, max)
    ensures JustBelow(PlainDenominator(t, r), max, Exact(min, max, t))
  {
    var u := 0x1_0000 - t;
    var q := r * u / 0x1_0000;
    DivBounds(r * u, 0x1_0000);
    ErrorParts(min, max, t, r, u, q);
  }

  lemma ErrorParts(min: nat, max: nat, t: nat, r: nat, u: nat, q: nat)
    requires max > 0 && 0 < u < 0x1_0000 && RoundedRatio(r, min, max)
    requires q * 0x1_0000 <= r * u < (q + 1) * 0x1_0000
    ensures JustBelow(q + t, max, min * u + max * t)
  {
    Below(min, max, r, u, q);
    AddBoth(min * u, max, t, q);
  }

  lemma AddBoth(x: nat, max: nat, t: nat, q: nat)
    requires q * max <= x < (q + 2) * max
    ensures (q + t) * max <= x + max * t < (q + t + 2) * max
  {
    assert (q + t) * max == q * max + max * t;
    assert (q + t + 2) * max == (q + 2) * max + max * t;
  }

  lemma Below(min: nat, max: nat, r: nat, u: nat, q: nat)
    requires 0 < u < 0x1_0000 && max > 0
    requires r * max <= min * 0x1_0000 < (r + 1) * max
    requires q * 0x1_0000 <= r * u < (q + 1) * 0x1_0000
    ensures q * max <= min * u < (q + 2) * max
  {
    calc {
      q * max * 0x1_0000;
      == { Swap(q, max, 0x1_0000); }
      q * 0x1_0000 * max;
      <= { MulLe(q * 0x1_0000, r * u, max, max); }
      r * u * max;
      == { Swap(r, u, max); }
      r * max * u;
      <= { MulLe(r * max, min * 0x1_0000, u, u); }
      min * 0x1_0000 * u;
      == { Swap(min, 0x1_0000, u); }
      min * u * 0x1_0000;
    }
    calc {
      min * u * 0x1_0000;
      == { Swap(min, u, 0x1_0000); }
      min * 0x1_0000 * u;
      < { MulLt(min * 0x1_0000, (r + 1) * max, u); }
      (r + 1) * max * u;
      == { Swap(r + 1, max, u); }
      (r + 1) * u * max;
      <= { assert (r + 1) * u == r * u + u; MulLe((r + 1) * u, (q + 2) * 0x1_0000, max, max); }
      (q + 2) * 0x1_0000 * max;
      == { Swap(q + 2, 0x1_0000, max); }
      (q + 2) * max * 0x1_0000;
    }
  }

  // ---------------------------------------------------------------------
  // The result
  // ---------------------------------------------------------------------

  /** Wavelengths that differ, and whose ratio leaves room for every quotient. */
  predicate Roomy(minWL: u16, maxWL: u16) {
    minWL < maxWL && minWL * (0x1_0000 - maxWL) >= maxWL
  }

  /** All different wavelengths up to 32768 are among them. */
  lemma ShortWavelengthsAreRoomy(minWL: u16, maxWL: u16)
    requires 0 < minWL < maxWL <= 32768
    ensures Roomy(minWL, maxWL)
  {
    MulLe(1, minWL, 32768, 0x1_0000 - maxWL);
  }

  /** They are those whose scaled ratio exceeds the shorter wavelength. */
  lemma RatioExceedsIff(minWL: u16, maxWL: u16)
    requires 0 < minWL < maxWL
    ensures Roomy(minWL, maxWL) <==> minWL < MaxDivMin(minWL, maxWL)
  {
    RatioIs(minWL, maxWL);
    Exceeds(minWL, maxWL, MaxDivMin(minWL, maxWL));
  }

  lemma Exceeds(min: nat, max: nat, r: nat)
    requires 0 < max < 0x1_0000 && r * max <= min * 0x1_0000 < (r + 1) * max
    ensures min * (0x1_0000 - max) >= max <==> min < r
  {
    assert min * (0x1_0000 - max) == min * 0x1_0000 - min * max;
    assert (min + 1) * max == min * max + max;
    if min < r {
      MulLe(min + 1, r, max, max);
    } else {
      MulLe(r + 1, min + 1, max, max);
    }
  }

  /** The result is the quotient itself, and not what is left of it in 16 bits. */
  predicate Uncut(minWL: u16, d: u16) {
    d > 0 && Value(minWL, d) == minWL * 0x1_0000 / d
  }

  lemma UncutIff(minWL: u16, d: u16)
    requires d > 0
    ensures Uncut(minWL, d) <==> minWL < d
  {
    var p := minWL * 0x1_0000;
    assert p % 0x1_0000_0000 == p;
    FitsIff(minWL, d, p / d);
    Residual(p / d);
  }

  lemma FitsIff(min: nat, d: nat, q: nat)
    requires d > 0 && q == min * 0x1_0000 / d
    ensures 0 <= q && (q < 0x1_0000 <==> min < d)
  {
    DivBounds(min * 0x1_0000, d);
    if min < d && q >= 0x1_0000 {
      MulLe(0x1_0000, q, d, d);
    }
    if min >= d && q < 0x1_0000 {
      MulLe(q + 1, 0x1_0000, d, d);
    }
  }

  lemma Residual(q: nat)
    ensures q % 0x1_0000 == q <==> q < 0x1_0000
  {
  }

  /** The result lies between the shortest wavelength and the bound set by the ratio, and is not cut off. */
  lemma ResultRange(minWL: u16, maxWL: u16, t: u16)
    requires 0 < minWL && Roomy(minWL, maxWL) && t >= 1
    ensures var r := MaxDivMin(minWL, maxWL);
            var d := Denominator(t, r);
            && r > 0 && Uncut(minWL, d)
            && minWL <= Value(minWL, d) <= minWL * 0x1_0000 / r
  {
    var r := MaxDivMin(minWL, maxWL);
    var d := Denominator(t, r);
    var p := minWL * 0x1_0000;
    RatioExceedsIff(minWL, maxWL);
    DenominatorIs(t, r);
    UncutIff(minWL, d);
    DivAnti(p, r, d);
    DivAnti(p, d, 0x1_0000);
    DivIs(p, 0x1_0000, minWL);
  }

  /**
    * The exact value of the formula is min * max * 2 to the 16 / Exact. The result is less than
    * one below it, and no more above it than an error of two in the scaled denominator makes it.
    */
  ghost predicate Near(r: int, minWL: u16, maxWL: u16, t: u16) {
    var e := Exact(minWL, maxWL, t);
    r * (e - 2 * maxWL) <= minWL * 0x1_0000 * maxWL < (r + 1) * e
  }

  lemma ResultError(minWL: u16, maxWL: u16, t: u16)
    requires 0 < minWL && Roomy(minWL, maxWL) && t >= 1
    ensures var d := Denominator(t, MaxDivMin(minWL, maxWL)); d > 0 && Near(Value(minWL, d), minWL, maxWL, t)
  {
    var d := Denominator(t, MaxDivMin(minWL, maxWL));
    ResultRange(minWL, maxWL, t);
    DenominatorError(minWL, maxWL, t);
    DivBounds(minWL * 0x1_0000, d);
    QuotientNear(minWL * 0x1_0000, d, Value(minWL, d), maxWL, Exact(minWL, maxWL, t));
  }

  /** In range, and close to the exact value. */
  ghost predicate Sound(r: u16, minWL: u16, maxWL: u16, t: u16)
    requires maxWL > 0
  {
    && MaxDivMin(minWL, maxWL) > 0 && minWL <= r <= minWL * 0x1_0000 / MaxDivMin(minWL, maxWL)
    && Near(r, minWL, maxWL, t)
  }

  lemma ResultIsSound(minWL: u16, maxWL: u16, t: u16)
    requires 0 < minWL && Roomy(minWL, maxWL) && t >= 1
    ensures var d := Denominator(t, MaxDivMin(minWL, maxWL)); d > 0 && Sound(Value(minWL, d), minWL, maxWL, t)
  {
    ResultRange(minWL, maxWL, t);
    ResultError(minWL, maxWL, t);
  }

  lemma QuotientNear(p: nat, d: nat, r: nat, max: nat, e: int)
    requires r * d <= p < (r + 1) * d && max > 0
    requires JustBelow(d, max, e)
    ensures r * (e - 2 * max) <= p * max < (r + 1) * e
  {
    assert (d + 2) * max == d * max + 2 * max;
    calc {
      r * (e - 2 * max);
      <= { Below0(r, e - 2 * max, d * max); }
      r * (d * max);
      == { Regroup(r, d, max); }
      r * d * max;
      <= { MulLe(r * d, p, max, max); }
      p * max;
    }
    calc {
      p * max;
      < { MulLt(p, (r + 1) * d, max); }
      (r + 1) * d * max;
      == { Regroup(r + 1, d, max); }
      (r + 1) * (d * max);
      <= { MulLe(r + 1, r + 1, d * max, e); }
      (r + 1) * e;
    }
  }

  /** The same as MulLe, for a factor that may be negative. */
  lemma Below0(r: nat, a: int, b: nat)
    requires a <= b
    ensures r * a <= r * b
  {
  }

  /** Later on the ramp the wavelength is never longer. */
  lemma ResultShrinks(clocksRamp: u32, minWL: u16, maxWL: u16, earlier: u32, later: u32)
    requires AcceptedLength(clocksRamp) && 0 < minWL && Roomy(minWL, maxWL)
    requires earlier <= later <= clocksRamp && Time(earlier, InvTotalTime(clocksRamp)) >= 1
    ensures var (r, inv) := (MaxDivMin(minWL, maxWL), InvTotalTime(clocksRamp));
            var (d, e) := (Denominator(Time(earlier, inv), r), Denominator(Time(later, inv), r));
            d > 0 && e > 0 && Value(minWL, e) <= Value(minWL, d)
  {
    var r, inv := MaxDivMin(minWL, maxWL), InvTotalTime(clocksRamp);
    var s, t := Time(earlier, inv), Time(later, inv);
    TimeGrows(clocksRamp, earlier, later);
    DenominatorGrows(s, t, r);
    ResultRange(minWL, maxWL, s);
    ResultRange(minWL, maxWL, t);
    DivAnti(minWL * 0x1_0000, Denominator(s, r), Denominator(t, r));
  }

  // ---------------------------------------------------------------------
  // Where the conditions come from
  // ---------------------------------------------------------------------

  /** Exactly when the code divides by zero: as long as the scaled time is still cut to zero. */
  lemma DividesByZeroIff(clocksRamp: u32, curClock: u32, r: u16)
    requires AcceptedLength(clocksRamp) && curClock <= clocksRamp
    ensures Denominator(Time(curClock, InvTotalTime(clocksRamp)), r) == 0 <==>
            Coarse(curClock) * InvTotalTime(clocksRamp) < 0x1_0000
  {
    TimeFits(clocksRamp, curClock);
    DenominatorZeroIff(Time(curClock, InvTotalTime(clocksRamp)), r);
    DivBounds(Coarse(curClock) * InvTotalTime(clocksRamp), 0x1_0000);
  }

  /** The documentation warns of curClock zero only; the first few clocks divide by zero as well. */
  lemma FirstClocksDivideByZero(curClock: u32, r: u16)
    requires curClock < 20
    ensures AcceptedLength(0x10_0000) && Denominator(Time(curClock, InvTotalTime(0x10_0000)), r) == 0
  {
    LongRamp();
    MulLe(Coarse(curClock), 4, 16383, 16383);
    DividesByZeroIff(0x10_0000, curClock, r);
  }

  /** A ramp of 2 to the 20 clocks. */
  lemma LongRamp()
    ensures AcceptedLength(0x10_0000) && InvTotalTime(0x10_0000) == 16383
  {
  }

  /** Equal wavelengths pass the assertion, but their ratio is cut to zero. */
  lemma EqualWavelengths(w: u16)
    requires w > 0
    ensures MaxDivMin(w, w) == 0
  {
    DivIs(w * 0x1_0000, w, 0x1_0000);
  }

  /** No clock of any accepted ramp between these wavelengths has its result cut off. */
  ghost predicate NeverCut(minWL: u16, maxWL: u16)
    requires maxWL > 0
  {
    forall clocksRamp: u32, curClock: u32 ::
      AcceptedLength(clocksRamp) && curClock <= clocksRamp && Time(curClock, InvTotalTime(clocksRamp)) >= 1 ==>
        Uncut(minWL, Denominator(Time(curClock, InvTotalTime(clocksRamp)), MaxDivMin(minWL, maxWL)))
  }

  /** At the first step of time the denominator is the ratio itself. */
  lemma FirstDenominator(r: u16)
    ensures Denominator(1, r) == if r == 0 then 1 else r
  {
    DenominatorIs(1, r);
  }

  /** A clock that leads to the first step of time, on an accepted ramp. */
  lemma FirstStep()
    ensures AcceptedLength(0x10_0000) && Time(20, InvTotalTime(0x10_0000)) == 1
  {
    LongRamp();
  }

  lemma RatioIsPositive(minWL: u16, maxWL: u16)
    requires 0 < minWL < maxWL
    ensures MaxDivMin(minWL, maxWL) > 0
  {
    RatioIs(minWL, maxWL);
  }

  /**
    * Exactly when no result is cut off. Of the wavelengths that ramp_compute accepts, it fails for
    * equal ones and for those that are not roomy; all of them fail at the first step of time.
    */
  lemma NeverCutIff(minWL: u16, maxWL: u16)
    requires 0 < minWL <= maxWL
    ensures NeverCut(minWL, maxWL) <==> Roomy(minWL, maxWL)
  {
    var r := MaxDivMin(minWL, maxWL);
    if Roomy(minWL, maxWL) {
      forall clocksRamp: u32, curClock: u32 |
        AcceptedLength(clocksRamp) && curClock <= clocksRamp && Time(curClock, InvTotalTime(clocksRamp)) >= 1
        ensures Uncut(minWL, Denominator(Time(curClock, InvTotalTime(clocksRamp)), r))
      {
        ResultRange(minWL, maxWL, Time(curClock, InvTotalTime(clocksRamp)));
      }
    } else {
      CutAtFirstStep(minWL, maxWL);
      FirstStep();
    }
  }

  lemma CutAtFirstStep(minWL: u16, maxWL: u16)
    requires 0 < minWL <= maxWL && !Roomy(minWL, maxWL)
    ensures !Uncut(minWL, Denominator(1, MaxDivMin(minWL, maxWL)))
  {
    var r := MaxDivMin(minWL, maxWL);
    FirstDenominator(r);
    UncutIff(minWL, Denominator(1, r));
    if minWL == maxWL {
      EqualWavelengths(minWL);
    } else {
      RatioExceedsIff(minWL, maxWL);
      RatioIsPositive(minWL, maxWL);
    }
  }

  /** With wavelengths 1 and 65535 and a ramp of 2 to the 20 clocks, clock 20 has a result of zero. */
  lemma LongWavelengthCutOff()
    ensures AcceptedLength(0x10_0000)
    ensures var d := Denominator(Time(20, InvTotalTime(0x10_0000)), MaxDivMin(1, 65535)); d > 0 && Value(1, d) == 0
  {
    FirstStep();
    assert MaxDivMin(1, 65535) == 1;
    FirstDenominator(1);
  }
}
