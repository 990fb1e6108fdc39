/**
  Where the activity average comes to rest at `n` evenly spaced creations a day, and how that compares with the
  steady state documented in `programs/oracles/src/config.rs` and `programs/oracles/src/stake_floor.rs`.
 */
module FeeRest {
  import opened Arith
  import opened FeeEma
  import opened FeeRuns
  import opened StakeCurve

  // ---- one creation, `gap` seconds after the last ----

  /** The stored average after a creation that comes `gap` seconds after the last, at most one half-life. */
  function NextAverage(gap: nat, ema: nat): int
    requires gap <= H
  {
    Min(ema * (K - gap) / K + FEE_EMA_INCREMENT, U64_MAX)
  }

  /** The least and the greatest average that such a creation leaves as it was. */
  function LeastRest(gap: nat): int
    requires gap > 0
  {
    K * (FEE_EMA_INCREMENT - 1) / gap + 1
  }

  function GreatestRest(gap: nat): int
    requires gap > 0
  {
    K * FEE_EMA_INCREMENT / gap
  }

  /** Up to one half-life the decay keeps the share `1 - gap/2H`, rounded down once; at one half-life it halves. */
  lemma DecayOverSpacing(gap: nat, ema: nat)
    requires 0 < gap <= H
    ensures Decay(ema, gap) == ema * (K - gap) / K
  {
    assert Pow2(0) == 1 && Pow2(1) == 2;
    if gap == H {
      assert Decay(ema, gap) == (ema / 2) * K / K;
    }
  }

  lemma SpacedStep(a: Activity, curve: Curve, gap: nat, now: i64)
    requires 0 < gap <= H && now == a.lastCreationUnix + gap
    ensures Charge(a, curve, now).decayedEma == a.feeEma * (K - gap) / K
    ensures After(a, now) == Activity(NextAverage(gap, a.feeEma), now)
  {
    DecayFeeEmaIsDecay(a.feeEma, a.lastCreationUnix, now);
    DecayOverSpacing(gap, a.feeEma);
  }

  // ---- where the average rests ----

  /** The decay takes at most `drop` off the average exactly when the average times the gap is small enough. */
  lemma DropsAtMostIff(gap: nat, ema: nat, drop: int)
    requires gap <= H
    ensures ema - drop <= ema * (K - gap) / K <==> ema * gap <= K * drop
  {
    var x := ema * (K - gap);
    assert x == ema * K - ema * gap;
    assert (ema - drop) * K == ema * K - K * drop;
    if ema * gap <= K * drop {
      DivAtLeast(x, K, ema - drop);
    } else {
      DivBelow(x, K, ema - drop);
    }
  }

  /** The two rests, without their quotients. */
  lemma RestBounds(gap: nat, ema: int)
    requires 0 < gap <= H
    ensures ema < LeastRest(gap) <==> ema * gap <= K * (FEE_EMA_INCREMENT - 1)
    ensures ema <= GreatestRest(gap) <==> ema * gap <= K * FEE_EMA_INCREMENT
  {
    QuotientAtLeastIff(K * (FEE_EMA_INCREMENT - 1), gap, ema);
    QuotientAtLeastIff(K * FEE_EMA_INCREMENT, gap, ema);
  }

  lemma QuotientAtLeastIff(x: int, d: int, q: int)
    requires d > 0
    ensures q <= x / d <==> q * d <= x
  {
    if q * d <= x {
      DivAtLeast(x, d, q);
    } else {
      DivBelow(x, d, q);
    }
  }

  lemma RestsAreOrdered(gap: nat)
    requires 0 < gap <= H
    ensures FEE_EMA_INCREMENT <= LeastRest(gap) <= GreatestRest(gap) < U64_MAX - FEE_EMA_INCREMENT
  {
    RestBounds(gap, FEE_EMA_INCREMENT - 1);
    RestBounds(gap, U64_MAX - FEE_EMA_INCREMENT);
    MulMono(1, gap, U64_MAX - FEE_EMA_INCREMENT);
    MulMono(gap, H, FEE_EMA_INCREMENT - 1);
    var top := LeastRest(gap) - 1;
    RestBounds(gap, top);
    MulAdd(top, 1, gap);
    RestBounds(gap, top + 1);
  }

  lemma DecayedMono(gap: nat, x: nat, y: nat)
    requires gap <= H && x <= y
    ensures x * (K - gap) / K <= y * (K - gap) / K
  {
    MulMono(x, y, K - gap);
    DivMono(x * (K - gap), y * (K - gap), K);
  }

  lemma AtLeastRest(gap: nat)
    requires 0 < gap <= H
    ensures LeastRest(gap) * (K - gap) / K + FEE_EMA_INCREMENT == LeastRest(gap)
    ensures GreatestRest(gap) * (K - gap) / K + FEE_EMA_INCREMENT == GreatestRest(gap)
  {
    RestsAreOrdered(gap);
    var least, greatest := LeastRest(gap), GreatestRest(gap);
    RestBounds(gap, least);
    RestBounds(gap, greatest);
    DropsAtMostIff(gap, least, FEE_EMA_INCREMENT);
    DropsAtMostIff(gap, least, FEE_EMA_INCREMENT - 1);
    DropsAtMostIff(gap, greatest, FEE_EMA_INCREMENT);
    DropsAtMostIff(gap, greatest, FEE_EMA_INCREMENT - 1);
  }

  /**
    One creation moves the average towards the rests and never across them: up to the least from below, down to the
    greatest from above, and not at all in between.
   */
  lemma MovesTowardsRest(gap: nat, ema: u64)
    requires 0 < gap <= H
    ensures ema < LeastRest(gap) ==> ema < NextAverage(gap, ema) <= LeastRest(gap)
    ensures LeastRest(gap) <= ema <= GreatestRest(gap) ==> NextAverage(gap, ema) == ema
    ensures GreatestRest(gap) < ema ==> GreatestRest(gap) <= NextAverage(gap, ema) < ema
  {
    RestsAreOrdered(gap);
    RestBounds(gap, ema);
    DropsAtMostIff(gap, ema, FEE_EMA_INCREMENT);
    DropsAtMostIff(gap, ema, FEE_EMA_INCREMENT - 1);
    AtLeastRest(gap);
    if ema < LeastRest(gap) {
      DecayedMono(gap, ema, LeastRest(gap));
    } else if GreatestRest(gap) < ema {
      DecayedMono(gap, GreatestRest(gap), ema);
    }
  }

  /**
    At every spacing up to one half-life an average stays as it is if and only if average times spacing lies within one
    base unit of `2H` creation units, and then each creation is charged one unit less.
   */
  lemma RestIff(a: Activity, curve: Curve, gap: nat, now: i64)
    requires 0 < gap <= H && now == a.lastCreationUnix + gap
    ensures After(a, now).feeEma == a.feeEma
            <==> K * (FEE_EMA_INCREMENT - 1) < a.feeEma * gap <= K * FEE_EMA_INCREMENT
    ensures After(a, now).feeEma == a.feeEma <==> LeastRest(gap) <= a.feeEma <= GreatestRest(gap)
    ensures After(a, now).feeEma == a.feeEma ==> Charge(a, curve, now).fee == a.feeEma - FEE_EMA_INCREMENT
  {
    SpacedStep(a, curve, gap, now);
    RestBounds(gap, a.feeEma);
    MovesTowardsRest(gap, a.feeEma);
    RestsAreOrdered(gap);
    FeeIsEma(Charge(a, curve, now).decayedEma);
  }

  /** One creation changes the average as MovesTowardsRest says, whatever it is. */
  lemma CreationMovesTowardsRest(a: Activity, gap: nat, now: i64)
    requires 0 < gap <= H && now == a.lastCreationUnix + gap
    ensures a.feeEma < LeastRest(gap) ==> a.feeEma < After(a, now).feeEma <= LeastRest(gap)
    ensures GreatestRest(gap) < a.feeEma ==> GreatestRest(gap) <= After(a, now).feeEma < a.feeEma
  {
    SpacedStep(a, Curve(0, 0, 0), gap, now);
    MovesTowardsRest(gap, a.feeEma);
  }

  /**
    What the shipped curve means for a protocol at rest: the floor is 0 exactly at spacings of three hours and more, and
    full exactly at spacings of 119 seconds and less. In between the charged average is strictly inside the ramp.
   */
  lemma ShippedCurveAtRest(a: Activity, max: u64, gap: nat, now: i64)
    requires 0 < gap <= H && now == a.lastCreationUnix + gap && max > 0
    requires After(a, now).feeEma == a.feeEma
    ensures STAKE_FLOOR_EMA_THRESHOLD == 15_000_000_000 && STAKE_FLOOR_EMA_CAP == 1_443_000_000_000
    ensures
      var r := Charge(a, Curve(STAKE_FLOOR_EMA_THRESHOLD, STAKE_FLOOR_EMA_CAP, max), now);
      && (gap >= 10_800 <==> r.decayedEma <= STAKE_FLOOR_EMA_THRESHOLD)
      && (gap >= 10_800 ==> r.minStake == 0)
      && (gap <= 119 <==> STAKE_FLOOR_EMA_CAP <= r.decayedEma)
      && (gap <= 119 <==> r.minStake == max)
  {
    var curve := Curve(STAKE_FLOOR_EMA_THRESHOLD, STAKE_FLOOR_EMA_CAP, max);
    var d := Charge(a, curve, now).decayedEma;
    var e: nat := a.feeEma;
    RestIff(a, curve, gap, now);
    FeeIsEma(d);
    if gap >= 10_800 {
      MulMono(10_800, gap, e);
    } else {
      MulMono(gap, 10_799, e);
    }
    if gap <= 119 {
      MulMono(gap, 119, e);
    } else {
      MulMono(120, gap, e);
    }
    FloorEnds(d, curve.threshold, curve.cap, max);
  }

  /** Each creation comes `gap` seconds after the one before. */
  ghost predicate Even(last: i64, gap: nat, times: seq<i64>)
    decreases |times|
  {
    times != [] ==> times[0] == last + gap && Even(times[0], gap, times[1..])
  }

  /**
    A run of evenly spaced creations that starts at or below the least rest climbs to it and never passes it, and no
    creation is charged more than the least rest less one unit.
   */
  lemma {:induction false} EvenRunClimbs(a: Activity, curve: Curve, gap: nat, times: seq<i64>)
    requires 0 < gap <= H && a.feeEma <= LeastRest(gap) && Even(a.lastCreationUnix, gap, times)
    ensures Min(LeastRest(gap), a.feeEma + |times|) <= RunAfter(a, times).feeEma <= LeastRest(gap)
    ensures forall i :: 0 <= i < |times| ==> Receipts(a, curve, times)[i].fee <= LeastRest(gap) - FEE_EMA_INCREMENT
    decreases |times|
  {
    if times != [] {
      var now := times[0];
      SpacedStep(a, curve, gap, now);
      MovesTowardsRest(gap, a.feeEma);
      RestsAreOrdered(gap);
      AtLeastRest(gap);
      DecayedMono(gap, a.feeEma, LeastRest(gap));
      FeeIsEma(Charge(a, curve, now).decayedEma);
      EvenRunClimbs(After(a, now), curve, gap, times[1..]);
    }
  }

  /** From an idle protocol the average never passes the least rest, and is exactly there after enough creations. */
  lemma IdleStartRestsAtLeast(last: i64, first: i64, curve: Curve, gap: nat, times: seq<i64>)
    requires 0 < gap <= H && Even(first, gap, times)
    ensures RunAfter(Activity(0, last), [first] + times).feeEma <= LeastRest(gap)
    ensures |times| >= LeastRest(gap) - FEE_EMA_INCREMENT ==>
      RunAfter(Activity(0, last), [first] + times).feeEma == LeastRest(gap)
  {
    var a := After(Activity(0, last), first);
    assert a == Activity(FEE_EMA_INCREMENT, first);
    assert ([first] + times)[1..] == times;
    RestsAreOrdered(gap);
    EvenRunClimbs(a, curve, gap, times);
  }

  // ---- whole numbers of creations a day ----

  /** The rests at `n` creations in a half-life of one day. */
  function DailyLeastRest(n: nat): int {
    2 * n * (FEE_EMA_INCREMENT - 1) + 1
  }

  function DailyGreatestRest(n: nat): int {
    2 * n * FEE_EMA_INCREMENT
  }

  /** At `n` creations a day the rests are the averages within `2n` base units below `2n` creation units. */
  lemma DailyRests(n: nat)
    requires 0 < n <= H && H % n == 0
    ensures n * (H / n) == H && 0 < H / n <= H
    ensures LeastRest(H / n) == DailyLeastRest(n) && GreatestRest(H / n) == DailyGreatestRest(n)
  {
    var gap := H / n;
    assert n * gap == H;
    if gap <= 0 {
      MulMono(gap, 0, n);
    }
    MulMono(1, n, gap);
    ExactQuotient(n, gap, FEE_EMA_INCREMENT - 1);
    ExactQuotient(n, gap, FEE_EMA_INCREMENT);
  }

  lemma ExactQuotient(n: nat, gap: nat, units: nat)
    requires n * gap == H && gap > 0
    ensures K * units / gap == 2 * n * units
  {
    var q := 2 * n * units;
    assert q * gap == K * units by {
      MulAssoc(2 * n, units, gap);
      MulAssoc(2, n, gap);
    }
    MulAdd(q, 1, gap);
    FloorIs(K * units, gap, q);
  }

  // ---- the documented steady state ----

  const UNIT: real := FEE_EMA_INCREMENT as real

  function Power(x: real, n: nat): real {
    if n == 0 then 1.0 else x * Power(x, n - 1)
  }

  /** The documented steady state `x = INCREMENT / (1 - 2^(-1/n))` without its root: `((x - INCREMENT) / x)^n = 1/2`. */
  ghost predicate DocumentedRest(n: nat, x: real) {
    x > UNIT && 2.0 * Power(x - UNIT, n) == Power(x, n)
  }

  lemma RealMulMono(a: real, b: real, k: real)
    requires a <= b && 0.0 <= k
    ensures a * k <= b * k
  {
  }

  lemma RealMulAssoc(a: real, b: real, c: real)
    ensures a * (b * c) == (a * b) * c
  {
  }

  lemma {:induction false} PowerPositive(x: real, n: nat)
    requires x > 0.0
    ensures Power(x, n) > 0.0
  {
    if n > 0 {
      PowerPositive(x, n - 1);
    }
  }

  lemma {:induction false} PowerAdd(x: real, a: nat, b: nat)
    ensures Power(x, a + b) == Power(x, a) * Power(x, b)
  {
    if a > 0 {
      PowerAdd(x, a - 1, b);
      RealMulAssoc(x, Power(x, a - 1), Power(x, b));
    }
  }

  /** Bernoulli's inequality, multiplied out: `(1 - u/x)^k >= 1 - ku/x`. */
  lemma {:induction false} BernoulliBelow(x: real, u: real, k: nat)
    requires x >= u > 0.0
    ensures Power(x - u, k) * x >= Power(x, k) * (x - k as real * u)
  {
    if k > 0 {
      var j := (k - 1) as real;
      var p, q := Power(x - u, k - 1), Power(x, k - 1);
      BernoulliBelow(x, u, k - 1);
      PowerPositive(x, k - 1);
      RealMulMono(q * (x - j * u), p * x, x - u);
      assert (q * (x - j * u)) * (x - u) == q * (x * (x - k as real * u)) + q * (j * u * u);
      assert q * (j * u * u) >= 0.0;
      assert ((x - u) * p) * x == (p * x) * (x - u);
      assert (x * q) * (x - k as real * u) == q * (x * (x - k as real * u));
    }
  }

  /** Bernoulli's inequality for growth, multiplied out: `(1 + u/y)^k >= 1 + ku/y`. */
  lemma {:induction false} BernoulliAbove(y: real, u: real, k: nat)
    requires y > 0.0 && u > 0.0
    ensures Power(y + u, k) * y >= Power(y, k) * (y + k as real * u)
  {
    if k > 0 {
      var j := (k - 1) as real;
      var p, q := Power(y + u, k - 1), Power(y, k - 1);
      BernoulliAbove(y, u, k - 1);
      PowerPositive(y, k - 1);
      RealMulMono(q * (y + j * u), p * y, y + u);
      assert (q * (y + j * u)) * (y + u) == q * (y * (y + k as real * u)) + q * (j * u * u);
      assert q * (j * u * u) >= 0.0;
      assert ((y + u) * p) * y == (p * y) * (y + u);
      assert (y * q) * (y + k as real * u) == q * (y * (y + k as real * u));
    }
  }

  /** Below `n + 1` units an average loses more than the documented half over a day. */
  lemma BelowDocumented(n: nat, x: real)
    requires n > 0 && UNIT < x < (n + 1) as real * UNIT
    ensures 2.0 * Power(x - UNIT, n) < Power(x, n)
  {
    var y := x - UNIT;
    var p, q := Power(x, n), Power(y, n);
    PowerPositive(y, n);
    BernoulliAbove(y, UNIT, n);
    assert q * (y + n as real * UNIT) > q * (2.0 * y) by { RealMulStrict(2.0 * y, y + n as real * UNIT, q); }
    assert q * (2.0 * y) == (2.0 * q) * y;
    RealCancel(2.0 * q, p, y);
  }

  lemma RealMulStrict(a: real, b: real, k: real)
    requires a < b && 0.0 < k
    ensures k * a < k * b
  {
  }

  lemma RealCancel(a: real, b: real, k: real)
    requires k > 0.0 && a * k < b * k
    ensures a < b
  {
    if b <= a {
      RealMulMono(b, a, k);
    }
  }

  /** With `n` split in halves, two Bernoulli factors leave a second-order term over, and it suffices. */
  lemma HalvesSuffice(a: int, b: int, x: real)
    requires 1 <= a <= b <= a + 1 && x > (DailyLeastRest(a + b) - 1) as real
    ensures 2.0 * ((x - a as real * UNIT) * (x - b as real * UNIT)) > x * x
    ensures x - a as real * UNIT > 0.0 && x - b as real * UNIT > 0.0
  {
    var n := (a + b) as real;
    var top := 2.0 * n * UNIT;
    var ab := (a * b) as real;
    assert ab == a as real * b as real;
    assert n * n <= 5.0 * ab by {
      assert (a + b) * (a + b) <= 5 * (a * b) by { SquareOfHalves(a, b); }
      assert n * n == ((a + b) * (a + b)) as real;
    }
    assert x * (top - x) < 4.0 * n * n * UNIT by { Parabola(n, top, x); }
    assert 2.0 * ((x - a as real * UNIT) * (x - b as real * UNIT)) - x * x
        == 2.0 * ab * UNIT * UNIT - x * (top - x);
    assert 4.0 * n * n * UNIT <= 2.0 * ab * UNIT * UNIT;
  }

  lemma SquareOfHalves(a: int, b: int)
    requires 1 <= a <= b <= a + 1
    ensures (a + b) * (a + b) <= 5 * (a * b)
  {
    if b == a {
    } else {
      assert (a + b) * (a + b) == 4 * (a * a) + 4 * a + 1;
      assert a * b == a * a + a;
    }
  }

  lemma Parabola(n: real, top: real, x: real)
    requires n >= 1.0 && top == 2.0 * n * UNIT && x > top - 2.0 * n
    ensures x * (top - x) < 4.0 * n * n * UNIT
  {
    if x < top {
      assert 0.0 < x;
      RealMulStrict(top - x, 2.0 * n, x);
      RealMulMono(x, top, 2.0 * n);
    } else {
      assert x * (top - x) <= 0.0;
      assert n * n >= 1.0;
    }
  }

  /** Two Bernoulli bounds multiplied, for a half each of the exponent. */
  lemma TwoHalves(pa: real, pb: real, qa: real, qb: real, fa: real, fb: real, x: real)
    requires x > 0.0 && qa > 0.0 && qb > 0.0 && fa > 0.0 && fb > 0.0
    requires pa * x >= qa * fa && pb * x >= qb * fb && 2.0 * (fa * fb) > x * x
    ensures 2.0 * (pa * pb) > qa * qb
  {
    var q, xx := qa * qb, x * x;
    ProductOfBounds(qa * fa, pa * x, qb * fb, pb * x);
    assert (pa * x) * (pb * x) == (pa * pb) * xx;
    assert (qa * fa) * (qb * fb) == q * (fa * fb);
    RealMulStrict(xx, 2.0 * (fa * fb), q);
    DoubledProduct(q, fa * fb);
    DoubledProduct(xx, pa * pb);
    RealCancel(q, 2.0 * (pa * pb), xx);
  }

  lemma DoubledProduct(q: real, f: real)
    ensures q * (2.0 * f) == 2.0 * (q * f) == (2.0 * f) * q
  {
  }

  lemma HalvesOfDay(a: nat, b: nat, x: real, fa: real, fb: real)
    requires x > UNIT && fa == x - a as real * UNIT > 0.0 && fb == x - b as real * UNIT > 0.0
    requires 2.0 * (fa * fb) > x * x
    ensures 2.0 * (Power(x - UNIT, a) * Power(x - UNIT, b)) > Power(x, a) * Power(x, b)
  {
    BernoulliBelow(x, UNIT, a);
    BernoulliBelow(x, UNIT, b);
    PowerPositive(x, a);
    PowerPositive(x, b);
    TwoHalves(Power(x - UNIT, a), Power(x - UNIT, b), Power(x, a), Power(x, b), fa, fb, x);
  }

  /** From `2n` below `2n` units on, an average keeps more than the documented half over a day of `n > 1` creations. */
  lemma AboveDocumented(n: nat, x: real)
    requires n > 1 && x > (DailyLeastRest(n) - 1) as real
    ensures 2.0 * Power(x - UNIT, n) > Power(x, n)
  {
    var a, b := n / 2, n - n / 2;
    HalvesSuffice(a, b, x);
    HalvesOfDay(a, b, x, x - a as real * UNIT, x - b as real * UNIT);
    PowerAdd(x - UNIT, a, b);
    PowerAdd(x, a, b);
  }

  lemma ProductOfBounds(a: real, b: real, c: real, d: real)
    requires 0.0 <= a <= b && 0.0 <= c <= d
    ensures a * c <= b * d
  {
    RealMulMono(a, b, c);
    RealMulMono(c, d, b);
  }

  /**
    The documented steady state is one of the code's rests only at one creation a day. From two a day on it lies
    strictly below all of them.
   */
  lemma DocumentedRestAgreesIff(n: nat, x: real)
    requires n > 0 && DocumentedRest(n, x)
    ensures (n + 1) as real * UNIT <= x
    ensures DailyLeastRest(n) as real <= x <= DailyGreatestRest(n) as real <==> n == 1
    ensures n == 1 <==> x == DailyGreatestRest(n) as real
    ensures n > 1 ==> x < DailyLeastRest(n) as real
  {
    if x < (n + 1) as real * UNIT {
      BelowDocumented(n, x);
    }
    if n == 1 {
      assert Power(x - UNIT, 1) == x - UNIT && Power(x, 1) == x;
    } else if x > (DailyLeastRest(n) - 1) as real {
      AboveDocumented(n, x);
    }
  }
}
