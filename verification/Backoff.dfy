/** Clamped exponential backoff with jitter; exact arithmetic in place of double and of a long that overflows. */
module Backoff {
  import opened Bytes

  const LONG_MAX: int := TWO_63 - 1

  datatype TimeUnit = MILLISECONDS | SECONDS | MINUTES

  function ToMillis(unit: TimeUnit, duration: int): int {
    match unit
    case MILLISECONDS => duration
    case SECONDS => duration * 1000
    case MINUTES => duration * 60 * 1000
  }

  function Min(a: int, b: int): int { if b < a then b else a }

  function Max(a: int, b: int): int { if a < b then b else a }

  /** (long)pow(factor, attempt): for a negative attempt a fraction, truncated, unless the factor is 1 or -1. */
  function Power(factor: int, attempt: int): int
    decreases if attempt < 0 then 0 else attempt
  {
    if attempt == 0 then 1
    else if attempt > 0 then factor * Power(factor, attempt - 1)
    else if factor == 1 || (factor == -1 && attempt % 2 == 0) then 1
    else if factor == -1 then -1 else 0
  }

  type int32 = x: int | -TWO_31 <= x < TWO_31

  /** What the world adds to one delay: the value of rand(), and what a cast to int makes of a value outside int. */
  datatype Draw = Draw(rand: nat, wild: int32)
  {
    function Random(): (r: real)
      ensures 0.0 <= r <= 0.999999
    {
      (rand % 1000000) as real / 1000000.0
    }
  }

  datatype Config = Config(base: int, factor: int, cap: int, maxAttempts: int, jitter: real)

  function Clamp(c: Config, duration: int): int {
    Min(Max(if duration < 0 then LONG_MAX else duration, c.base), c.cap)
  }

  /** floor(random * duration * jitter) */
  function Deviation(duration: int, jitter: real, random: real): int {
    (random * duration as real * jitter).Floor
  }

  /** The duration after the first deviation and the clamp. */
  function Jittered(c: Config, attempt: int, random: real): int {
    var duration := c.base * Power(c.factor, attempt);
    var deviation := Deviation(duration, c.jitter, random);
    Clamp(c, if (random * 10.0).Floor % 2 == 0 then duration - deviation else duration + deviation)
  }

  function CastToInt(x: int, wild: int32): int { if -TWO_31 <= x < TWO_31 then x else wild }

  /** The second deviation, taken from a duration that is the cap. */
  function CapDeviation(c: Config, d: Draw): int { CastToInt(Deviation(c.cap, c.jitter, d.Random()), d.wild) }

  /** backoff(attempt). */
  function BackoffOf(c: Config, attempt: int, d: Draw): int {
    if c.jitter == 0.0 then Clamp(c, c.base * Power(c.factor, attempt)) else
    var jittered := Jittered(c, attempt, d.Random());
    Max(if jittered == c.cap then jittered - CapDeviation(c, d) else jittered, c.base)
  }

  lemma Product(a: real, b: real)
    requires a >= 0.0 && b >= 0.0
    ensures a * b >= 0.0
  {
  }

  lemma Scaled(f: real, d: real, top: real)
    requires 0.0 <= f < 1.0 && 0.0 <= d <= top
    ensures 0.0 <= f * d <= top
    ensures d < top ==> f * d < top
  {
    Product(f, d);
    Product(1.0 - f, d);
    assert (1.0 - f) * d == d - f * d;
  }

  lemma FloorRange(x: real, n: int)
    requires 0.0 <= x <= n as real
    ensures 0 <= x.Floor <= n && (x < n as real ==> x.Floor < n)
  {
  }

  /** The deviation never exceeds the duration it is taken from. */
  lemma DeviationRange(duration: nat, jitter: real, random: real)
    requires 0.0 <= jitter < 1.0 && 0.0 <= random < 1.0
    ensures 0 <= Deviation(duration, jitter, random) <= duration
  {
    var d := duration as real;
    Scaled(random, d, d);
    Scaled(jitter, random * d, d);
    Regrouped(random, d, jitter);
    FloorRange(jitter * (random * d), duration);
  }

  lemma Regrouped(random: real, d: real, jitter: real)
    ensures random * d * jitter == jitter * (random * d) == random * (d * jitter)
  {
  }

  lemma NegatedCap(cap: int, jitter: real, random: real)
    requires cap < 0
    ensures var d := (-cap) as real;
            random * cap as real * jitter == -(random * d * jitter) && cap as real * jitter == -(d * jitter)
  {
  }

  lemma NegativeFloor(x: real, n: int)
    requires 0.0 <= x <= n as real
    ensures -n <= (-x).Floor <= 0
  {
  }

  lemma DeviationOfNegative(cap: int, jitter: real, random: real)
    requires cap < 0 && 0.0 <= jitter < 1.0 && 0.0 <= random < 1.0
    ensures cap <= Deviation(cap, jitter, random) <= 0
  {
    var d := (-cap) as real;
    Scaled(random, d, d);
    Scaled(jitter, random * d, d);
    Regrouped(random, d, jitter);
    NegatedCap(cap, jitter, random);
    NegativeFloor(jitter * (random * d), -cap);
  }

  // ---------------------------------------------------------------- the bounds of a delay

  predicate WithinBounds(c: Config, delay: int) { c.base <= delay <= Max(c.base, c.cap) }

  /** The second deviation came out of the cast so far below zero that subtracting it exceeds the bound. */
  predicate CastExceeds(c: Config, d: Draw) {
    CapDeviation(c, d) < Min(0, c.cap - c.base)
  }

  /** Without jitter, cap is at least base; with jitter, the cap is not reached or the cast does no harm. */
  predicate KeepsBounds(c: Config, attempt: int, d: Draw) {
    if c.jitter == 0.0 then c.base <= c.cap else Jittered(c, attempt, d.Random()) != c.cap || !CastExceeds(c, d)
  }

  /** For every configuration, attempt and draw, exactly when the delay lies between base and max(base, cap). */
  lemma DelayWithinBounds(c: Config, attempt: int, d: Draw)
    ensures WithinBounds(c, BackoffOf(c, attempt, d)) <==> KeepsBounds(c, attempt, d)
    ensures c.jitter == 0.0 && c.cap < c.base ==> BackoffOf(c, attempt, d) == c.cap
  {
    hide Power, Deviation, CastToInt;
  }

  /** The cast does harm only to a deviation of 2^31 or more; with base <= cap, exactly if it makes that negative. */
  lemma CastHarm(c: Config, d: Draw)
    requires c.base >= 0 && 0.0 <= c.jitter < 1.0
    ensures CastExceeds(c, d) ==> Deviation(c.cap, c.jitter, d.Random()) >= TWO_31
    ensures c.base <= c.cap ==>
              (CastExceeds(c, d) <==> Deviation(c.cap, c.jitter, d.Random()) >= TWO_31 && d.wild < 0)
  {
    hide Deviation;
    if c.cap >= 0 {
      DeviationRange(c.cap, c.jitter, d.Random());
    } else {
      DeviationOfNegative(c.cap, c.jitter, d.Random());
    }
  }

  /** However it is jittered, the duration of this attempt reaches the cap. */
  predicate ReachesCap(c: Config, attempt: int) {
    c.base * Power(c.factor, attempt) >= 0
    && (c.base * Power(c.factor, attempt)) as real * (1.0 - c.jitter) >= c.cap as real
  }

  /**
   * Over all draws and whatever casts outside int yield: with jitter in (0, 1) and an attempt that reaches a
   * cap of at least base, the bounds are always kept if and only if cap * jitter * 0.999999 is below 2^31.
   */
  lemma BoundsForEveryDraw(c: Config, attempt: int)
    requires 0 <= c.base <= c.cap <= LONG_MAX && 0.0 < c.jitter < 1.0 && ReachesCap(c, attempt)
    ensures (forall d: Draw :: WithinBounds(c, BackoffOf(c, attempt, d)))
            <==> c.cap as real * c.jitter * 0.999999 < TWO_31 as real
  {
    hide Power, Deviation, CastToInt, BackoffOf, Jittered, WithinBounds;
    var most := c.cap as real * c.jitter;
    if most * 0.999999 < TWO_31 as real {
      forall d: Draw ensures WithinBounds(c, BackoffOf(c, attempt, d)) {
        DelayWithinBounds(c, attempt, d);
        SmallCast(c, attempt, d);
      }
    } else {
      var d := Draw(999999, -1);
      assert d.Random() == 0.999999;
      LargestDraw(c.cap, c.jitter, d.Random());
      DelayWithinBounds(c, attempt, d);
      CastHarm(c, d);
      CapReached(c, attempt, d.Random());
      assert !WithinBounds(c, BackoffOf(c, attempt, d));
    }
  }

  /** The deviation of the largest draw leaves int if any does. */
  lemma LargestDraw(cap: nat, jitter: real, random: real)
    requires 0.0 <= jitter < 1.0 && 0.0 <= random <= 0.999999
    ensures cap as real * jitter * 0.999999 < TWO_31 as real ==> Deviation(cap, jitter, random) < TWO_31
    ensures random == 0.999999 && cap as real * jitter * 0.999999 >= TWO_31 as real ==>
              Deviation(cap, jitter, random) >= TWO_31
  {
    var most := cap as real * jitter;
    Product(cap as real, jitter);
    Product(0.999999 - random, most);
    assert (0.999999 - random) * most == 0.999999 * most - random * most;
    Regrouped(random, cap as real, jitter);
  }

  /** Casts that stay within int keep the bounds. */
  lemma SmallCast(c: Config, attempt: int, d: Draw)
    ensures 0 <= c.base <= c.cap && 0.0 <= c.jitter < 1.0 && c.cap as real * c.jitter * 0.999999 < TWO_31 as real ==>
              KeepsBounds(c, attempt, d)
  {
    hide CastExceeds, Jittered, Deviation;
    if 0 <= c.base <= c.cap && 0.0 <= c.jitter < 1.0 {
      CastHarm(c, d);
      LargestDraw(c.cap, c.jitter, d.Random());
    }
  }

  lemma CapReached(c: Config, attempt: int, random: real)
    requires 0 <= c.base <= c.cap <= LONG_MAX && 0.0 < c.jitter < 1.0 && ReachesCap(c, attempt) && 0.0 <= random < 1.0
    ensures Jittered(c, attempt, random) == c.cap
  {
    hide Power, Deviation;
    var duration := c.base * Power(c.factor, attempt);
    var deviation := Deviation(duration, c.jitter, random);
    DeviationRange(duration, c.jitter, random);
    DeviationShare(duration, c.jitter, random);
    assert (duration - deviation) as real >= c.cap as real;
  }

  /** A deviation is at most the jitter's share of its duration. */
  lemma DeviationShare(duration: nat, jitter: real, random: real)
    requires 0.0 <= jitter < 1.0 && 0.0 <= random < 1.0
    ensures Deviation(duration, jitter, random) as real <= duration as real * jitter
    ensures (duration - Deviation(duration, jitter, random)) as real >= duration as real * (1.0 - jitter)
  {
    var d := duration as real;
    Product(d, jitter);
    Scaled(random, d * jitter, d * jitter);
    Regrouped(random, d, jitter);
    assert d * (1.0 - jitter) == d - d * jitter;
  }

  /** A delay above cap, if the cast wraps round: base and cap 2^33, jitter 0.5, draw 0.6. */
  lemma CastExample()
    ensures var (c, d) := (Config(0x2_0000_0000, 2, 0x2_0000_0000, 16, 0.5), Draw(600000, -1717986919));
            && !WithinBounds(c, BackoffOf(c, 0, d)) && BackoffOf(c, 0, d) == 0x2_0000_0000 + 1717986919
            && d.wild == ToInt32(Deviation(c.cap, c.jitter, d.Random()))
  {
    var (c, d) := (Config(0x2_0000_0000, 2, 0x2_0000_0000, 16, 0.5), Draw(600000, -1717986919));
    assert d.Random() == 0.6;
    assert Deviation(c.cap, c.jitter, 0.6) == 2576980377;
  }

  /**
   * Delays between the bounds: the deviation is the draw's share of the jitter's share of base * factor^attempt,
   * rounded down; it is taken off if the first decimal of the draw is even, and added if it is odd.
   */
  lemma JitteredDelays()
    ensures var c := Config(100, 2, 100000, 16, 0.5);
            && BackoffOf(c, 3, Draw(250000, 0)) == 800 - 100 && BackoffOf(c, 3, Draw(350000, 0)) == 800 + 140
            && BackoffOf(c, 3, Draw(1000001, 0)) == 800 && BackoffOf(c, 3, Draw(999999, 0)) == 800 + 399
            && BackoffOf(c, 0, Draw(650000, 0)) == 100 && BackoffOf(c, -1, Draw(0, 0)) == 100
  {
    var c := Config(100, 2, 100000, 16, 0.5);
    assert Power(2, 3) == 2 * Power(2, 2) && Power(2, 2) == 4;
    Example(c, 3, 800, Draw(250000, 0), 0.25, 100);
    Example(c, 3, 800, Draw(350000, 0), 0.35, 140);
    Example(c, 3, 800, Draw(1000001, 0), 0.000001, 0);
    Example(c, 3, 800, Draw(999999, 0), 0.999999, 399);
    Example(c, 0, 100, Draw(650000, 0), 0.65, 32);
    Example(c, -1, 0, Draw(0, 0), 0.0, 0);
  }

  lemma Example(c: Config, attempt: int, duration: int, d: Draw, random: real, deviation: int)
    requires 0 < c.base < c.cap && c.jitter != 0.0 && c.base * Power(c.factor, attempt) == duration
    requires d.Random() == random && Deviation(duration, c.jitter, random) == deviation
    requires 0 <= deviation <= duration && duration + deviation < c.cap
    ensures BackoffOf(c, attempt, d)
            == Max(c.base, if (random * 10.0).Floor % 2 == 0 then duration - deviation else duration + deviation)
  {
    hide Power, Deviation;
  }

  lemma Units()
    ensures ToMillis(MILLISECONDS, 7) == 7 && ToMillis(SECONDS, 7) == 7000 && ToMillis(MINUTES, 7) == 420000
  {
  }

  // ---------------------------------------------------------------- runs without jitter

  /** min(k, maxAttempts): the attempt of the k-th sleep since a reset, counting from 0. */
  function AttemptOf(c: Config, k: nat): int { Min(k, c.maxAttempts) }

  lemma {:induction false} PowerGrows(factor: nat, a: nat, b: nat)
    requires factor > 0 && a <= b
    ensures 1 <= Power(factor, a) <= Power(factor, b)
    decreases b
  {
    if a < b {
      PowerGrows(factor, a, b - 1);
      assert factor * Power(factor, b - 1) >= Power(factor, b - 1);
    } else if b > 0 {
      PowerGrows(factor, a - 1, b - 1);
      assert factor * Power(factor, b - 1) >= Power(factor, b - 1);
    }
  }

  /** The k-th delay since a reset when there is no jitter. */
  function DelayOf(c: Config, k: nat): int { Clamp(c, c.base * Power(c.factor, AttemptOf(c, k))) }

  lemma DelayWithoutJitter(c: Config, k: nat, d: Draw)
    requires c.jitter == 0.0
    ensures BackoffOf(c, AttemptOf(c, k), d) == DelayOf(c, k)
  {
  }

  /**
   * What a caller can look at: a factor that is not negative, or too few attempts to come back from the
   * cap a negative product is sent to, or a cap that the smallest positive product reaches anyway.
   */
  predicate Grows(c: Config) {
    if c.base >= 0 then c.factor >= 0 || c.base == 0 || c.maxAttempts < 2 || c.cap <= c.base * (c.factor * c.factor)
    else c.factor >= 1 || c.maxAttempts < 1 || c.cap <= c.base * c.factor
  }

  /** For every configuration whose base and cap are longs: without jitter the delays never decrease iff it Grows. */
  lemma DelaysGrow(c: Config)
    requires c.base <= LONG_MAX && c.cap <= LONG_MAX
    ensures (forall k: nat :: DelayOf(c, k) <= DelayOf(c, k + 1)) <==> Grows(c)
  {
    if Grows(c) {
      forall k: nat ensures DelayOf(c, k) <= DelayOf(c, k + 1) { GrowsAt(c, k); }
    } else {
      var k := ShrinksAt(c);
      assert DelayOf(c, k) > DelayOf(c, k + 1);
    }
  }

  lemma GrowsAt(c: Config, k: nat)
    requires c.base <= LONG_MAX && c.cap <= LONG_MAX && Grows(c)
    ensures DelayOf(c, k) <= DelayOf(c, k + 1)
  {
    var a, b := AttemptOf(c, k), AttemptOf(c, k + 1);
    if 0 <= a < b {
      if c.factor >= 1 {
        PowerGrows(c.factor, a, b);
        hide Power;
        if c.base >= 0 {
          ProductGrows(c.base, Power(c.factor, a), Power(c.factor, b));
        } else {
          ProductGrows(-c.base, 1, Power(c.factor, a));
          ProductGrows(-c.base, 1, Power(c.factor, b));
        }
      } else if c.factor == 0 {
        assert Power(0, b) == 0 && Power(0, a) == if a == 0 then 1 else 0;
      } else if c.base != 0 {
        NegativeProduct(c, a);
        NegativeProduct(c, b);
      }
    }
  }

  /** Even powers of a negative factor: 1, then at least its square; odd ones: at most the factor. */
  lemma {:induction false} PowerOfNegative(factor: int, n: nat)
    requires factor < 0
    ensures n % 2 == 0 ==> Power(factor, n) >= if n == 0 then 1 else factor * factor
    ensures n % 2 == 1 ==> Power(factor, n) <= factor
    decreases n
  {
    if n >= 2 {
      PowerOfNegative(factor, n - 2);
      var p := Power(factor, n - 2);
      assert Power(factor, n) == factor * (factor * p);
      hide Power;
      SquareTimes(factor, p);
    }
  }

  lemma SquareTimes(factor: int, p: int)
    requires factor < 0 && p != 0
    ensures p >= 1 ==> factor * (factor * p) >= factor * factor
    ensures p <= -1 ==> factor * (factor * p) <= p
  {
    var square := factor * factor;
    assert square >= 1;
    assert factor * (factor * p) == square * p;
    if p >= 1 {
      assert square * (p - 1) >= 0;
    } else {
      assert (square - 1) * -p >= 0;
    }
  }

  /** The products with a negative factor: of alternating sign, and never smaller than the first of their sign. */
  lemma SignedProduct(base: int, factor: int, a: nat)
    requires factor < 0
    ensures var x := base * Power(factor, a);
            && (base > 0 && a % 2 == 1 ==> x < 0)
            && (base > 0 && a % 2 == 0 && a > 0 ==> x >= base * (factor * factor))
            && (base < 0 && a % 2 == 0 ==> x < 0)
            && (base < 0 && a % 2 == 1 ==> x >= base * factor)
  {
    PowerOfNegative(factor, a);
    var p, square := Power(factor, a), factor * factor;
    SquarePositive(factor);
    hide Power;
    if base > 0 && a % 2 == 1 {
      ProductNegative(base, p);
    } else if base > 0 && a > 0 {
      ProductGrows(base, square, p);
    } else if base < 0 && a % 2 == 0 {
      ProductNegative(p, base);
    } else if base < 0 {
      ProductOfNegatives(base, factor, p);
    }
  }

  lemma SquarePositive(factor: int)
    requires factor < 0
    ensures factor * factor >= 1
  {
  }

  lemma ProductNegative(p: int, q: int)
    requires p > 0 && q < 0
    ensures p * q < 0
  {
    assert p * -q >= 1;
  }

  lemma ProductOfNegatives(base: int, factor: int, p: int)
    requires base < 0 && p <= factor < 0
    ensures base * p >= base * factor
  {
    assert base * (factor - p) <= 0;
  }

  /** With a negative factor and a cap that the smallest positive product reaches, every later delay is the cap. */
  lemma NegativeProduct(c: Config, a: nat)
    requires c.base <= LONG_MAX && c.cap <= LONG_MAX && c.factor < 0 && c.base != 0
    ensures var d := Clamp(c, c.base * Power(c.factor, a));
            && (c.base > 0 && a == 0 ==> d == Min(c.base, c.cap))
            && (c.base > 0 && a > 0 && (a == 1 || c.cap <= c.base * (c.factor * c.factor)) ==> d == c.cap)
            && (c.base < 0 && (a == 0 || c.cap <= c.base * c.factor) ==> d == c.cap)
  {
    SignedProduct(c.base, c.factor, a);
    var x := c.base * Power(c.factor, a);
    if a == 0 { assert x == c.base; }
    hide Power;
    assert c.base < 0 ==> c.base * c.factor >= 0;
  }

  lemma FirstPowers(factor: int)
    ensures Power(factor, 0) == 1 && Power(factor, 1) == factor && Power(factor, 2) == factor * factor
  {
  }

  /** Clamping a product between base and cap leaves it alone; a negative one becomes the cap. */
  lemma ClampCases(c: Config, duration: int)
    requires c.base <= LONG_MAX && c.cap <= LONG_MAX
    ensures duration < 0 ==> Clamp(c, duration) == c.cap
    ensures duration >= 0 && c.base <= duration ==> Clamp(c, duration) == Min(duration, c.cap)
  {
  }

  /** Otherwise the delays already shrink at the first or the second step. */
  lemma ShrinksAt(c: Config) returns (k: nat)
    requires c.base <= LONG_MAX && c.cap <= LONG_MAX && !Grows(c)
    ensures k <= 1 && DelayOf(c, k) > DelayOf(c, k + 1)
  {
    k := if c.base >= 0 then 1 else 0;
    FirstPowers(c.factor);
    hide Power, Clamp;
    var first, second := c.base * c.factor, c.base * (c.factor * c.factor);
    if c.base > 0 {
      SignedProduct(c.base, c.factor, 1);
      ProductGrows(c.base, 1, c.factor * c.factor);
      ClampCases(c, first);
      ClampCases(c, second);
    } else {
      ProductGrows(-c.base, 0, -c.factor);
      assert -c.base * -c.factor == first;
      ClampCases(c, c.base);
      ClampCases(c, first);
    }
  }

  lemma ProductGrows(base: nat, p: nat, q: nat)
    requires p <= q
    ensures 0 <= base * p <= base * q
  {
    assert base * (q - p) >= 0;
  }

  /** For example: with factor -2 the second delay is the cap and the third 400 ms. */
  lemma NegativeFactorShrinks()
    ensures var c := Config(100, -2, 100000, 16, 0.0);
            !Grows(c) && DelayOf(c, 1) == 100000 && DelayOf(c, 2) == 400
  {
    assert Power(-2, 0) == 1 && Power(-2, 1) == -2 && Power(-2, 2) == 4;
  }

  /** With the default settings the delays double from 100 ms on and stay at 6553600 ms from the 17th sleep. */
  lemma {:induction false} DefaultDelays(k: nat)
    ensures var (c, d) := (Config(100, 2, LONG_MAX, 16, 0.0), Draw(0, 0));
            && (k == 0 ==> BackoffOf(c, AttemptOf(c, k), d) == 100)
            && (k < 16 ==> BackoffOf(c, AttemptOf(c, k + 1), d) == 2 * BackoffOf(c, AttemptOf(c, k), d))
            && (k >= 16 ==> BackoffOf(c, AttemptOf(c, k), d) == 6553600)
  {
    assert Power(2, 4) == 2 * Power(2, 3) && Power(2, 3) == 2 * Power(2, 2) && Power(2, 2) == 4;
    assert Power(2, 8) == 2 * Power(2, 7) && Power(2, 7) == 2 * Power(2, 6) && Power(2, 6) == 2 * Power(2, 5) == 64;
    assert Power(2, 12) == 2 * Power(2, 11) && Power(2, 11) == 2 * Power(2, 10) && Power(2, 10) == 2 * Power(2, 9);
    assert Power(2, 16) == 2 * Power(2, 15) && Power(2, 15) == 2 * Power(2, 14) && Power(2, 14) == 2 * Power(2, 13);
    assert Power(2, 16) == 65536;
    if k < 16 {
      PowerGrows(2, k, k + 1);
      PowerGrows(2, k + 1, 16);
      assert Power(2, k + 1) == 2 * Power(2, k);
    }
  }

  // ---------------------------------------------------------------- the class

  class Backoff {
    var base: int
    var factor: int
    var cap: int
    var maxAttempts: int
    var attempts: int
    var jitter: real

    constructor ()
      ensures AsConfig() == Config(100, 2, LONG_MAX, 16, 0.0) && attempts == 0
    {
      base, factor, cap, maxAttempts, attempts, jitter := 100, 2, LONG_MAX, 16, 0, 0.0;
    }

    /** The constructor with parameters does not set `attempts`: only a reset makes it known. */
    constructor WithParameters(base: int, factor: int, cap: int, maxAttempts: int, jitter: real)
      ensures AsConfig() == Config(base, factor, cap, maxAttempts, jitter)
    {
      this.base, this.factor, this.cap, this.maxAttempts, this.jitter := base, factor, cap, maxAttempts, jitter;
    }

    function AsConfig(): Config
      reads this
    {
      Config(base, factor, cap, maxAttempts, jitter)
    }

    method Reset()
      modifies this`attempts
      ensures attempts == 0
    {
      if attempts != 0 {
        attempts := 0;
      }
    }

    method SetBase(unit: TimeUnit, duration: int)
      modifies this`base
      ensures AsConfig() == old(AsConfig()).(base := ToMillis(unit, duration))
    {
      base := ToMillis(unit, duration);
    }

    method SetCap(unit: TimeUnit, duration: int)
      modifies this`cap
      ensures AsConfig() == old(AsConfig()).(cap := ToMillis(unit, duration))
    {
      cap := ToMillis(unit, duration);
    }

    /** backoff(attempt), step by step on its local duration. */
    method Delay(attempt: int, d: Draw) returns (duration: int)
      ensures duration == BackoffOf(AsConfig(), attempt, d)
    {
      hide Power, Deviation, CastToInt;
      var random := d.Random();
      duration := base * Power(factor, attempt);
      if jitter != 0.0 {
        var deviation := Deviation(duration, jitter, random);
        if (random * 10.0).Floor % 2 == 0 {
          duration := duration - deviation;
        } else {
          duration := duration + deviation;
        }
        if duration < 0 {
          duration := LONG_MAX;
        }
        duration := Min(Max(duration, base), cap);
        if duration == cap {
          deviation := CastToInt(Deviation(duration, jitter, random), d.wild);
          duration := duration - deviation;
        }
        return Max(duration, base);
      }
      if duration < 0 {
        duration := LONG_MAX;
      }
      duration := Min(Max(duration, base), cap);
    }

    /** sleep(): the delay it sleeps for. */
    method Sleep(d: Draw) returns (delay: int)
      modifies this`attempts
      ensures delay == BackoffOf(AsConfig(), Min(old(attempts), maxAttempts), d)
      ensures attempts == old(attempts) + if old(attempts) < maxAttempts then 1 else 0
    {
      if attempts < maxAttempts {
        var attempt := attempts;
        attempts := attempts + 1;
        delay := Delay(attempt, d);
      } else {
        delay := Delay(maxAttempts, d);
      }
    }

    /**
     * n sleeps after a reset: the k-th one lasts as long as attempt min(k, maxAttempts) says. Without jitter
     * that is base * factor^min(k, maxAttempts), clamped, and three or more delays never decrease exactly if
     * the configuration Grows. With or without, the k-th delay lies between base and max(base, cap) exactly if
     * its draw keeps the bounds, and all of them do if casts stay within int.
     */
    method SleepRun(draws: seq<Draw>) returns (delays: seq<int>)
      modifies this`attempts
      ensures |delays| == |draws|
      ensures forall k | 0 <= k < |delays| :: delays[k] == BackoffOf(AsConfig(), AttemptOf(AsConfig(), k), draws[k])
      ensures forall k | 0 <= k < |delays| ::
                WithinBounds(AsConfig(), delays[k]) <==> KeepsBounds(AsConfig(), AttemptOf(AsConfig(), k), draws[k])
      ensures 0 <= base <= cap && 0.0 <= jitter < 1.0 && cap as real * jitter * 0.999999 < TWO_31 as real ==>
                forall k | 0 <= k < |delays| :: WithinBounds(AsConfig(), delays[k])
      ensures jitter == 0.0 ==> forall k | 0 <= k < |delays| :: delays[k] == DelayOf(AsConfig(), k)
      ensures jitter == 0.0 && base <= LONG_MAX && cap <= LONG_MAX && (Grows(AsConfig()) || |draws| >= 3) ==>
                ((forall k | 0 <= k < |delays| - 1 :: delays[k] <= delays[k + 1]) <==> Grows(AsConfig()))
    {
      hide DelayOf, BackoffOf, Grows, WithinBounds, KeepsBounds;
      Reset();
      delays := [];
      for k := 0 to |draws|
        invariant |delays| == k && attempts == if maxAttempts > 0 then Min(k, maxAttempts) else 0
        invariant forall i | 0 <= i < k :: delays[i] == BackoffOf(AsConfig(), AttemptOf(AsConfig(), i), draws[i])
        invariant jitter == 0.0 ==> forall i | 0 <= i < k :: delays[i] == DelayOf(AsConfig(), i)
      {
        var delay := Sleep(draws[k]);
        if jitter == 0.0 { DelayWithoutJitter(AsConfig(), k, draws[k]); }
        delays := delays + [delay];
      }
      forall k | 0 <= k < |delays|
        ensures WithinBounds(AsConfig(), delays[k]) <==> KeepsBounds(AsConfig(), AttemptOf(AsConfig(), k), draws[k])
        ensures 0 <= base <= cap && 0.0 <= jitter < 1.0 && cap as real * jitter * 0.999999 < TWO_31 as real ==>
                  WithinBounds(AsConfig(), delays[k])
      {
        DelayWithinBounds(AsConfig(), AttemptOf(AsConfig(), k), draws[k]);
        SmallCast(AsConfig(), AttemptOf(AsConfig(), k), draws[k]);
      }
      if jitter == 0.0 && base <= LONG_MAX && cap <= LONG_MAX {
        DelaysGrow(AsConfig());
        if !Grows(AsConfig()) && |draws| >= 3 {
          ghost var k := ShrinksAt(AsConfig());
          assert delays[k] > delays[k + 1];
        }
      }
    }
  }
}
