/** The fixed-point clock and its drift watchdog (src/monotonictimer.cpp).
    `double` is modelled as `real`: the bounds are those of ideal arithmetic. */
module Clock {
  import opened Bytes

  const Two32: int := 0x1_0000_0000
  const Two64: int := 0x1_0000_0000_0000_0000
  const Two96: int := 0x1_0000_0000_0000_0000_0000_0000

  /** `get` at `ticks` after the start: 32.32 fixed point in 128 bits, cut to 64. */
  function Get(ticks: U64, multiplier: U64): U64 {
    ticks * multiplier / Two32 % Two64
  }

  // ---------------------------------------------------------------- integer facts

  lemma MulMonotone(a: int, b: int, m: int)
    requires a <= b && 0 <= m
    ensures a * m <= b * m
  {
  }

  lemma DivBounds(x: int, d: int)
    requires d > 0
    ensures d * (x / d) <= x < d * (x / d) + d
  {
  }

  lemma DivUnique(x: int, d: int, q: int)
    requires d > 0 && d * q <= x < d * q + d
    ensures x / d == q
  {
    DivBounds(x, d);
    var p := x / d;
    if p < q { MulMonotone(p + 1, q, d); }
    if q < p { MulMonotone(q + 1, p, d); }
  }

  // ---------------------------------------------------------------- the fixed-point clock

  /** While the product stays below 2^96 nothing is cut off. */
  lemma GetExact(n: U64, m: U64)
    requires n * m < Two96
    ensures Get(n, m) == n * m / Two32
    ensures Two32 * Get(n, m) <= n * m < Two32 * Get(n, m) + Two32
  {
    DivBounds(n * m, Two32);
  }

  lemma GetMonotone(a: U64, b: U64, m: U64)
    requires a <= b && b * m < Two96
    ensures Get(a, m) <= Get(b, m)
  {
    MulMonotone(a, b, m);
    GetExact(a, m);
    GetExact(b, m);
  }

  /** Elapsed intervals add up to within one nanosecond. */
  lemma GetAdditive(a: U64, b: U64, m: U64)
    requires a + b < Two64 && (a + b) * m < Two96
    ensures Get(a, m) + Get(b, m) <= Get(a + b, m) <= Get(a, m) + Get(b, m) + 1
  {
    assert (a + b) * m == a * m + b * m;
    MulMonotone(0, a, m);
    MulMonotone(0, b, m);
    GetExact(a, m);
    GetExact(b, m);
    GetExact(a + b, m);
  }

  /** The smallest tick gap worth a whole nanosecond, ceil(2^32 / multiplier). */
  function StrictGap(m: U64): int
    requires m > 0
  {
    (Two32 + m - 1) / m
  }

  lemma StrictGapMeaning(m: U64, g: int)
    requires m > 0
    ensures g >= StrictGap(m) <==> g * m >= Two32
  {
    DivBounds(Two32 + m - 1, m);
    var c := StrictGap(m);
    if g >= c { MulMonotone(c, g, m); } else { MulMonotone(g + 1, c, m); }
  }

  lemma GetStrict(n: U64, g: U64, m: U64)
    requires n + g < Two64 && (n + g) * m < Two96
    requires g * m >= Two32
    ensures Get(n, m) < Get(n + g, m)
  {
    assert (n + g) * m == n * m + g * m;
    MulMonotone(0, n, m);
    GetExact(n, m);
    GetExact(n + g, m);
  }

  ghost predicate StrictAcross(g: U64, m: U64) {
    forall n: U64 | n + g < Two64 && (n + g) * m < Two96 :: Get(n, m) < Get(n + g, m)
  }

  /** Exactly the gaps of at least ceil(2^32 / multiplier) ticks always advance the clock. */
  lemma StrictExactlyFromGap(g: U64, m: U64)
    requires m > 0 && g * m < Two96
    ensures StrictAcross(g, m) <==> g >= StrictGap(m)
  {
    StrictGapMeaning(m, g);
    if g >= StrictGap(m) {
      forall n: U64 | n + g < Two64 && (n + g) * m < Two96 ensures Get(n, m) < Get(n + g, m) {
        GetStrict(n, g, m);
      }
    } else {
      GetExact(g, m);
      assert Get(0, m) == 0 && 0 + g == g;
    }
  }

  ghost predicate MonotoneUpTo(limit: U64, m: U64) {
    forall a: U64, b: U64 | a <= b <= limit :: Get(a, m) <= Get(b, m)
  }

  /** At the first tick count whose product reaches 2^96 the clock falls back. */
  lemma TruncationFallsBack(n: U64, m: U64)
    requires 0 < n && (n - 1) * m < Two96 <= n * m
    ensures Get(n, m) < Get(n - 1, m)
  {
    var x := n * m;
    assert (n - 1) * m == x - m;
    GetExact(n - 1, m);
    DivBounds(x, Two32);
    var q := x / Two32;
    assert Two64 <= q < 2 * Two64;
    assert q % Two64 == q - Two64;
  }

  lemma FirstTruncation(limit: U64, m: U64) returns (n: U64)
    requires limit * m >= Two96
    ensures 0 < n <= limit && (n - 1) * m < Two96 <= n * m
  {
    n := limit;
    while (n - 1) * m >= Two96
      invariant 0 < n <= limit && n * m >= Two96
    {
      n := n - 1;
    }
  }

  /** The clock never runs backwards up to `limit` ticks exactly when the product stays below 2^96. */
  lemma MonotoneExactlyWithoutTruncation(limit: U64, m: U64)
    ensures MonotoneUpTo(limit, m) <==> limit * m < Two96
  {
    if limit * m < Two96 {
      forall a: U64, b: U64 | a <= b <= limit ensures Get(a, m) <= Get(b, m) {
        MulMonotone(b, limit, m);
        GetMonotone(a, b, m);
      }
    } else {
      var n := FirstTruncation(limit, m);
      TruncationFallsBack(n, m);
      var p: U64 := n - 1;
      assert p <= n <= limit && Get(n, m) < Get(p, m);
    }
  }

  // ---------------------------------------------------------------- against the exact time

  /** The constructor's multiplier: (1000 << 32) / frequency, cut to an integer. */
  function Multiplier(frequency: real): int
    requires frequency > 0.0
  {
    (4294967296000.0 / frequency).Floor
  }

  /** Nanoseconds that `ticks` take at `frequency` MHz. */
  function ExactNs(ticks: U64, frequency: real): real
    requires frequency > 0.0
  {
    ticks as real * 1000.0 / frequency
  }

  lemma ScaleBounds(n: real, m: real, k: real, p: real, s: real)
    requires n >= 0.0 && m <= k < m + 1.0 && p == n * m && s == n * k
    ensures p <= s <= p + n
  {
    var g := k - m;
    assert s == p + n * g;
    TimesFraction(n, g);
  }

  lemma TimesFraction(n: real, g: real)
    requires n >= 0.0 && 0.0 <= g <= 1.0
    ensures 0.0 <= n * g <= n
  {
    var h := 1.0 - g;
    assert n * h >= 0.0;
    assert n * g == n - n * h;
  }

  lemma ExactScaled(n: real, f: real)
    requires f > 0.0
    ensures n * (4294967296000.0 / f) == (n * 1000.0 / f) * 4294967296.0
  {
  }

  /** Both roundings together: the multiplier's, worth `n` at most, and the final shift's. */
  lemma DivideOut(t: real, e: real, n: real, p: real)
    requires p <= e * 4294967296.0 <= p + n
    requires t * 4294967296.0 <= p < t * 4294967296.0 + 4294967296.0
    ensures e - n / 4294967296.0 - 1.0 < t <= e
  {
  }

  lemma ProductAsReal(a: int, b: int)
    ensures a as real * b as real == (a * b) as real
  {
  }

  lemma GetAsReal(n: U64, m: U64)
    requires n * m < Two96
    ensures var t := Get(n, m) as real;
            t * 4294967296.0 <= n as real * m as real < t * 4294967296.0 + 4294967296.0
  {
    GetExact(n, m);
    ProductAsReal(n, m);
    ProductAsReal(Get(n, m), Two32);
  }

  /** The reading is never ahead of the exact time and lags it by less than ticks/2^32 + 1. */
  lemma GetError(n: U64, frequency: real)
    requires frequency > 0.0 && Multiplier(frequency) < Two64 && n * Multiplier(frequency) < Two96
    ensures var t := Get(n, Multiplier(frequency)) as real;
            ExactNs(n, frequency) - n as real / 4294967296.0 - 1.0 < t <= ExactNs(n, frequency)
  {
    var m := Multiplier(frequency);
    var k := 4294967296000.0 / frequency;
    assert m as real <= k < m as real + 1.0;
    assert n as real * k == ExactNs(n, frequency) * 4294967296.0 by { ExactScaled(n as real, frequency); }
    GetAsReal(n, m);
    var p, e := n as real * m as real, ExactNs(n, frequency);
    ScaleBounds(n as real, m as real, k, p, e * 4294967296.0);
    DivideOut(Get(n, m) as real, e, n as real, p);
  }

  // ---------------------------------------------------------------- the watchdog

  function Abs(x: real): real {
    if x < 0.0 then -x else x
  }

  /** The callback's test on `ticks` counted over `dt` nanoseconds of OS time. */
  predicate CheckPasses(frequency: real, threshold: real, ticks: U64, dt: U64)
    requires frequency > 0.0
  {
    dt != 0 && Abs(frequency - 1000.0 * ticks as real / dt as real) / frequency < threshold
  }

  lemma RelativeToAbsolute(f: real, x: real, d: real, t: real)
    requires f > 0.0 && d > 0.0 && Abs(f - 1000.0 * x / d) / f < t
    ensures Abs(d - x * 1000.0 / f) < t * d
  {
    RelativeProduct(f, x, d);
    ScaleLess(Abs(f - 1000.0 * x / d) / f, t, d);
  }

  lemma AbsoluteToRelative(f: real, x: real, d: real, t: real)
    requires f > 0.0 && d > 0.0 && Abs(d - x * 1000.0 / f) < t * d
    ensures Abs(f - 1000.0 * x / d) / f < t
  {
    var y := 1000.0 * x / d;
    var e := x * 1000.0 / f;
    var a := Abs(f - y) / f;
    RelativeProduct(f, x, d);
    ScaleLess(a, t, d);
  }

  lemma ScaleLess(a: real, t: real, d: real)
    requires d > 0.0
    ensures a < t <==> a * d < t * d
  {
    var g := t - a;
    assert t * d == a * d + g * d;
    assert g > 0.0 <==> g * d > 0.0;
  }

  /** The relative deviation of the frequencies, times the elapsed time, is the deviation of the times. */
  lemma RelativeProduct(f: real, x: real, d: real)
    requires f > 0.0 && d > 0.0
    ensures Abs(d - x * 1000.0 / f) == Abs(f - 1000.0 * x / d) / f * d
  {
    var y := 1000.0 * x / d;
    var e := x * 1000.0 / f;
    var a := Abs(f - y) / f;
    assert e * f == 1000.0 * x == y * d;
    assert (d - e) * f == (f - y) * d;
    assert Abs(d - e) * f == Abs(f - y) * d by {
      if f - y < 0.0 { assert (f - y) * d < 0.0; } else { assert (f - y) * d >= 0.0; }
      if d - e < 0.0 { assert (d - e) * f < 0.0; } else { assert (d - e) * f >= 0.0; }
    }
    assert a * f == Abs(f - y);
    CancelFactor(Abs(d - e), a * d, f);
  }

  /** The check passes exactly if OS time has moved and differs from the time the ticks take by less
      than the threshold's share of it. */
  lemma CheckPassesIff(frequency: real, threshold: real, n: U64, dt: U64)
    requires frequency > 0.0
    ensures CheckPasses(frequency, threshold, n, dt)
       <==> dt != 0 && Abs(dt as real - ExactNs(n, frequency)) < threshold * dt as real
  {
    if dt != 0 {
      if CheckPasses(frequency, threshold, n, dt) {
        RelativeToAbsolute(frequency, n as real, dt as real, threshold);
      }
      if Abs(dt as real - ExactNs(n, frequency)) < threshold * dt as real {
        AbsoluteToRelative(frequency, n as real, dt as real, threshold);
      }
    }
  }

  /** No false alarm: a reading that agrees with OS time to within the threshold, less the fixed-point
      error, passes the check. */
  lemma GoodReadingPasses(frequency: real, threshold: real, n: U64, dt: U64)
    requires frequency > 0.0 && Multiplier(frequency) < Two64 && n * Multiplier(frequency) < Two96
    requires dt != 0
    requires Abs(dt as real - Get(n, Multiplier(frequency)) as real) + n as real / 4294967296.0 + 1.0
          <= threshold * dt as real
    ensures CheckPasses(frequency, threshold, n, dt)
  {
    GetError(n, frequency);
    CheckPassesIff(frequency, threshold, n, dt);
  }

  lemma CancelFactor(x: real, y: real, f: real)
    requires f > 0.0 && x * f == y * f
    ensures x == y
  {
  }

  /** Whenever the check passes, the clock agrees with OS time up to the threshold and the
      fixed-point error. */
  lemma WatchdogBounds(frequency: real, threshold: real, n: U64, dt: U64)
    requires frequency > 0.0 && Multiplier(frequency) < Two64 && n * Multiplier(frequency) < Two96
    requires CheckPasses(frequency, threshold, n, dt)
    ensures var t := Get(n, Multiplier(frequency)) as real;
            && dt as real - threshold * dt as real - n as real / 4294967296.0 - 1.0 < t
            && t < dt as real + threshold * dt as real
  {
    GetError(n, frequency);
    RelativeToAbsolute(frequency, n as real, dt as real, threshold);
    var e := ExactNs(n, frequency);
    assert Abs(dt as real - e) < threshold * dt as real;
  }

  /** A still valid clock was within these bounds at every check so far. */
  ghost predicate StillValid(frequency: real, threshold: real, checks: seq<(U64, U64)>)
    requires frequency > 0.0
  {
    forall i | 0 <= i < |checks| :: CheckPasses(frequency, threshold, checks[i].0, checks[i].1)
  }

  // ---------------------------------------------------------------- perf calibration

  /** `readFrequency`'s last formula, in MHz. */
  function ReadFrequency(shift: nat, mult: nat): real {
    if mult > 0 then 1000.0 * Pow2(shift) as real / mult as real else 0.0
  }

  /** Exactly a positive multiplier gives a credible frequency. */
  lemma CredibleIff(shift: nat, mult: nat)
    ensures ReadFrequency(shift, mult) > 0.0 <==> mult > 0
  {
    if mult > 0 { DivideFractions(1.0, Pow2(shift) as real, mult as real); }
  }

  lemma {:induction false} Pow2Add(a: nat, b: nat)
    ensures Pow2(a + b) == Pow2(a) * Pow2(b)
  {
    if a > 0 {
      Pow2Add(a - 1, b);
      assert Pow2(a + b) == 2 * Pow2(a - 1 + b);
    }
  }

  lemma Pow2At32()
    ensures Pow2(32) == Two32
  {
    assert Pow2(8) == 256;
    assert Pow2(16) == 0x1_0000 by { Pow2Add(8, 8); }
    Pow2Add(16, 16);
  }

  lemma FloorOfQuotient(a: int, b: int, x: real)
    requires b > 0 && x == a as real / b as real
    ensures x.Floor == a / b
  {
    DivBounds(a, b);
    var q := a / b;
    ProductAsReal(b, q);
    QuotientBetween(a as real, b as real, q as real, (b * q) as real, x);
  }

  lemma FactorBounds(b: real, y: real)
    requires b > 0.0
    ensures y < 0.0 ==> b * y < 0.0
    ensures y >= 1.0 ==> b * y >= b
  {
    if y >= 1.0 {
      var z := y - 1.0;
      assert b * z >= 0.0;
      assert b * y == b + b * z;
    }
  }

  lemma QuotientBetween(a: real, b: real, q: real, p: real, x: real)
    requires b > 0.0 && p == b * q && p <= a < p + b && x == a / b
    ensures q <= x < q + 1.0
  {
    assert b * x == a;
    var y := x - q;
    assert b * y == a - p;
    FactorBounds(b, y);
  }

  lemma DivideFractions(k: real, p: real, m: real)
    requires p > 0.0 && m > 0.0
    ensures 1000.0 * p / m > 0.0
    ensures (1000.0 * k) / (1000.0 * p / m) == k * m / p
  {
    var f := 1000.0 * p / m;
    assert f * m == 1000.0 * p;
    assert (k * m / p) * f == 1000.0 * k by {
      assert (k * m / p) * p == k * m;
      assert (k * m / p) * f * m == (k * m / p) * p * 1000.0;
      CancelFactor((k * m / p) * f, 1000.0 * k, m);
    }
    CancelFactor(1000.0 * k / f, k * m / p, f);
  }

  /** Reading perf's pair and building the multiplier is one exact integer division. */
  lemma CalibratedMultiplier(shift: nat, mult: nat)
    requires mult > 0
    ensures ReadFrequency(shift, mult) > 0.0
    ensures Multiplier(ReadFrequency(shift, mult)) == Two32 * mult / Pow2(shift)
  {
    DivideFractions(4294967296.0, Pow2(shift) as real, mult as real);
    ProductAsReal(Two32, mult);
    FloorOfQuotient(Two32 * mult, Pow2(shift), 4294967296.0 * mult as real / Pow2(shift) as real);
  }

  lemma ScaledQuotient(x: int, c: int, d: int)
    requires c > 0 && d > 0
    ensures c * d > 0 && x * c / (d * c) == x / d
  {
    DivBounds(x, d);
    ScaledBounds(x, c, d, x / d);
    DivUnique(x * c, d * c, x / d);
  }

  lemma ScaledBounds(x: int, c: int, d: int, q: int)
    requires c > 0 && d > 0 && d * q <= x < d * q + d
    ensures c * d > 0 && (d * c) * q <= x * c < (d * c) * q + d * c
  {
    MulMonotone(d * q, x, c);
    MulMonotone(x + 1, d * q + d, c);
    assert (d * c) * q == (d * q) * c;
    assert (d * q + d) * c == (d * q) * c + d * c;
  }

  lemma MultiplierForSmallShift(shift: nat, mult: nat)
    requires shift <= 32 && 0 < mult < Two32
    ensures Two32 == Pow2(shift) * Pow2(32 - shift)
    ensures Two32 * mult / Pow2(shift) == mult * Pow2(32 - shift) < Two64
  {
    var c, d := Pow2(32 - shift), Pow2(shift);
    assert d * c == Two32 by { Pow2At32(); Pow2Add(shift, 32 - shift); }
    assert Two32 * mult == d * (mult * c);
    DivUnique(Two32 * mult, d, mult * c);
    assert mult * c < Two64 by {
      MulMonotone(1, d, c);
      MulMonotone(c, Two32, mult);
      MulMonotone(mult, Two32 - 1, Two32);
    }
  }

  /** For shifts up to 32 the composed clock is floor(ticks * mult / 2^shift), cut to 64 bits. */
  lemma CalibrationExact(shift: nat, mult: nat, n: U64)
    requires shift <= 32 && 0 < mult < Two32
    ensures ReadFrequency(shift, mult) > 0.0
    ensures 0 <= Multiplier(ReadFrequency(shift, mult)) < Two64
    ensures Get(n, Multiplier(ReadFrequency(shift, mult))) == n * mult / Pow2(shift) % Two64
  {
    CalibratedMultiplier(shift, mult);
    MultiplierForSmallShift(shift, mult);
    SmallShiftExact(n, mult, Pow2(32 - shift), Pow2(shift));
  }

  lemma SmallShiftExact(n: int, mult: int, c: int, d: int)
    requires c > 0 && d > 0 && d * c == Two32
    ensures n * (mult * c) / Two32 == n * mult / d
  {
    ScaledQuotient(n * mult, c, d);
    assert n * (mult * c) == (n * mult) * c;
  }

  lemma MultiplierForLargeShift(shift: nat, mult: nat)
    requires 32 < shift && 0 < mult < Two32
    ensures Pow2(shift) == Two32 * Pow2(shift - 32)
    ensures 0 <= Two32 * mult / Pow2(shift) == mult / Pow2(shift - 32) < Two64
  {
    var e := Pow2(shift - 32);
    assert Pow2(shift) == Two32 * e by { Pow2At32(); Pow2Add(32, shift - 32); }
    ScaledQuotient(mult, Two32, e);
    assert mult * Two32 == Two32 * mult && e * Two32 == Two32 * e;
    DivBounds(mult, e);
    assert 0 <= mult / e <= mult by {
      if mult / e > mult { MulMonotone(1, e, mult / e); }
    }
  }

  lemma {:induction false} Pow2Below64(k: nat)
    requires k <= 63
    ensures Pow2(k) < Two64
  {
    assert Pow2(64) == Two64 by { Pow2At32(); Pow2Add(32, 32); }
    Pow2Add(k, 64 - k);
    assert Pow2(64 - k) == 2 * Pow2(63 - k);
    MulMonotone(2, Pow2(64 - k), Pow2(k));
  }

  ghost predicate CalibrationIsExact(shift: nat, mult: nat)
    requires mult > 0 && ReadFrequency(shift, mult) > 0.0 && 0 <= Multiplier(ReadFrequency(shift, mult)) < Two64
  {
    forall n: U64 :: Get(n, Multiplier(ReadFrequency(shift, mult))) == n * mult / Pow2(shift) % Two64
  }

  /** Beyond a shift of 32 the calibration stays exact just when the low bits of `mult` that
      the multiplier loses are zero. */
  lemma CalibrationExactIff(shift: nat, mult: nat)
    requires shift <= 63 && 0 < mult < Two32
    ensures ReadFrequency(shift, mult) > 0.0
    ensures 0 <= Multiplier(ReadFrequency(shift, mult)) < Two64
    ensures CalibrationIsExact(shift, mult) <==> shift <= 32 || mult % Pow2(shift - 32) == 0
  {
    CalibratedMultiplier(shift, mult);
    if shift <= 32 {
      MultiplierForSmallShift(shift, mult);
      forall n: U64 ensures Get(n, Multiplier(ReadFrequency(shift, mult))) == n * mult / Pow2(shift) % Two64 {
        CalibrationExact(shift, mult, n);
      }
    } else {
      MultiplierForLargeShift(shift, mult);
      if mult % Pow2(shift - 32) == 0 {
        forall n: U64 ensures Get(n, Multiplier(ReadFrequency(shift, mult))) == n * mult / Pow2(shift) % Two64 {
          LargeShiftExact(shift, mult, n);
        }
      } else {
        LargeShiftInexact(shift, mult);
      }
    }
  }

  lemma LargeShiftExact(shift: nat, mult: nat, n: U64)
    requires 32 < shift && mult % Pow2(shift - 32) == 0
    requires Pow2(shift) == Two32 * Pow2(shift - 32)
    ensures n * (mult / Pow2(shift - 32)) / Two32 == n * mult / Pow2(shift)
  {
    var e := Pow2(shift - 32);
    var m := mult / e;
    assert m * e == mult;
    ScaledQuotient(n * m, e, Two32);
    assert (n * m) * e == n * mult;
  }

  lemma LargeShiftInexact(shift: nat, mult: nat)
    requires 32 < shift <= 63 && 0 < mult < Two32 && mult % Pow2(shift - 32) != 0
    requires ReadFrequency(shift, mult) > 0.0
    requires Multiplier(ReadFrequency(shift, mult)) == mult / Pow2(shift - 32)
    requires 0 <= mult / Pow2(shift - 32) < Two64 && Pow2(shift) == Two32 * Pow2(shift - 32)
    ensures !CalibrationIsExact(shift, mult)
  {
    var e := Pow2(shift - 32);
    var m := mult / e;
    Pow2Below64(shift);
    var n: U64 := Pow2(shift);
    QuotientsDiffer(n, e, mult, m);
    assert Get(n, m) != n * mult / Pow2(shift) % Two64;
  }

  /** At a tick count of 2^shift the two quotients are `mult` without and with its low bits. */
  lemma QuotientsDiffer(n: int, e: int, mult: int, m: int)
    requires e > 0 && n == Two32 * e && mult % e != 0 && m == mult / e && 0 < mult < Two32
    ensures 0 <= n * m / Two32 < n * mult / n == mult
  {
    DivBounds(mult, e);
    assert n * m == Two32 * (e * m);
    DivUnique(n * m, Two32, e * m);
    DivUnique(n * mult, n, mult);
  }

  // ---------------------------------------------------------------- the class

  function Wrap64(x: int): U64 {
    x % Two64
  }

  /** As long as the counter has not wrapped, the reading is the product without its last 32 bits. */
  lemma TicksExact(tsc: U64, startTsc: U64, m: U64)
    ensures tsc >= startTsc && (tsc - startTsc) * m < Two96 ==>
              var ns := Get(Wrap64(tsc - startTsc), m);
              0x1_0000_0000 * ns <= (tsc - startTsc) * m < 0x1_0000_0000 * (ns + 1)
  {
    if tsc >= startTsc && (tsc - startTsc) * m < Two96 { GetExact(tsc - startTsc, m); }
  }

  class MonotonicTimer {
    const deviationThreshold: real
    const frequency: real
    const nsPerTickMultiplier: U64
    const startTime: U64
    const startTsc: U64
    var valid: bool
    ghost var checks: seq<(U64, U64)>

    ghost predicate Valid()
      reads this
    {
      && frequency > 0.0
      && nsPerTickMultiplier == Multiplier(frequency)
      && (valid <==> StillValid(frequency, deviationThreshold, checks))
    }

    /** The part of the constructor after a credible frequency was read; a frequency that
        is not positive makes the source throw, so that no object exists. */
    constructor (threshold: real, frequency: real, time: U64, tsc: U64)
      requires frequency > 0.0 && Multiplier(frequency) < Two64
      ensures Valid() && valid && checks == []
      ensures deviationThreshold == threshold && this.frequency == frequency
      ensures startTime == time && startTsc == tsc
    {
      deviationThreshold, this.frequency := threshold, frequency;
      assert 4294967296000.0 / frequency >= 0.0;
      nsPerTickMultiplier := Multiplier(frequency);
      startTime, startTsc := time, tsc;
      valid, checks := true, [];
    }

    method GetNs(tsc: U64) returns (ns: U64)
      requires Valid()
      ensures ns == Get(Wrap64(tsc - startTsc), nsPerTickMultiplier)
      ensures tsc >= startTsc && (tsc - startTsc) * nsPerTickMultiplier < Two96 ==>
                0x1_0000_0000 * ns <= (tsc - startTsc) * nsPerTickMultiplier < 0x1_0000_0000 * (ns + 1)
    {
      var ticks := Wrap64(tsc - startTsc);
      TicksExact(tsc, startTsc, nsPerTickMultiplier);
      hide Wrap64;
      ns := ticks * nsPerTickMultiplier / Two32 % Two64;
    }

    /** The watchdog check; once lost, validity never returns. */
    method Callback(time: U64, tsc: U64)
      requires Valid()
      modifies this
      ensures Valid()
      ensures checks == old(checks) + [(Wrap64(tsc - startTsc), Wrap64(time - startTime))]
      ensures var n, dt := Wrap64(tsc - startTsc), Wrap64(time - startTime);
              valid <==> old(valid) && dt != 0 && Abs(dt as real - ExactNs(n, frequency)) < deviationThreshold * dt as real
    {
      CheckPassesIff(frequency, deviationThreshold, Wrap64(tsc - startTsc), Wrap64(time - startTime));
      ghost var check := (Wrap64(tsc - startTsc), Wrap64(time - startTime));
      checks := checks + [check];
      assert checks[|checks| - 1] == check;
      assert forall i | 0 <= i < |checks| - 1 :: checks[i] == old(checks)[i];
      if time == startTime {
        valid := false;
        return;
      }
      var measured := 1000.0 * Wrap64(tsc - startTsc) as real / Wrap64(time - startTime) as real;
      var deviation := Abs(frequency - measured) / frequency;
      if deviation >= deviationThreshold {
        valid := false;
      }
    }
  }

  /** A clock that is still valid was within the bounds at every check it has been through. */
  lemma StillValidWasInBounds(frequency: real, threshold: real, checks: seq<(U64, U64)>, i: nat)
    requires frequency > 0.0 && Multiplier(frequency) < Two64
    requires StillValid(frequency, threshold, checks) && i < |checks|
    requires checks[i].0 * Multiplier(frequency) < Two96
    ensures var (n, dt) := checks[i];
            var t := Get(n, Multiplier(frequency)) as real;
            && dt as real - threshold * dt as real - n as real / 4294967296.0 - 1.0 < t
            && t < dt as real + threshold * dt as real
  {
    WatchdogBounds(frequency, threshold, checks[i].0, checks[i].1);
  }
}
