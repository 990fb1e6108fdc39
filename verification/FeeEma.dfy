/**
  The activity average behind the creation fee (`programs/oracles/src/fee.rs`): an integer decay that halves once
  per whole half-life and interpolates linearly inside one, and the fee charged for the decayed value.
 */
module FeeEma {
  import opened Arith

  const FEE_EMA_SCALE := 1_000_000_000
  const FEE_EMA_HALFLIFE_SECS := 86_400
  const FEE_EMA_INCREMENT := FEE_EMA_SCALE
  const FEE_PER_EMA_UNIT := 1_000_000_000

  /** `2 * H`, the denominator of the interpolation. */
  const K := 2 * FEE_EMA_HALFLIFE_SECS
  const H := FEE_EMA_HALFLIFE_SECS

  /** The numerator of the interpolation `elapsed` seconds into a run of half-lives. */
  function Weight(elapsed: nat): (n: nat)
    ensures H < n <= K
  {
    K - elapsed % H
  }

  /** `decay_fee_ema`, with every early return and cast of the source. */
  function DecayFeeEma(feeEma: u64, lastUnix: i64, now: i64): u64 {
    if feeEma == 0 then 0
    else
      var elapsed := SaturatingSubI64(now, lastUnix);
      if elapsed <= 0 then feeEma
      else
        var whole := elapsed / H;
        if whole >= 64 then 0
        else
          var rem := elapsed % H;
          var base := feeEma / Pow2(whole);
          AsU64(base * (K - rem) / K)
  }

  /** `fee_for_ema`: the KASS burned for a creation. */
  function FeeForEma(decayed: u64): u64 {
    var scaled := Min(FEE_PER_EMA_UNIT * decayed, TWO_128 - 1) / FEE_EMA_SCALE;
    Min(scaled, U64_MAX)
  }

  /** `bumped_fee_ema`: the value stored after a creation. */
  function BumpedFeeEma(decayed: u64): u64 {
    SaturatingAddU64(decayed, FEE_EMA_INCREMENT)
  }

  /**
    The decay law without the source's shortcuts: no zero test, no cutoff, no cast and no saturation.
    DecayFeeEmaIsDecay shows the source computes it.
   */
  function Decay(ema: nat, elapsed: nat): nat {
    (ema / Pow2(elapsed / H)) * Weight(elapsed) / K
  }

  lemma DecayAtMost(ema: nat, elapsed: nat)
    ensures ema / Pow2(elapsed / H) <= ema
    ensures Decay(ema, elapsed) <= ema / Pow2(elapsed / H)
  {
    var p := Pow2(elapsed / H);
    var base := ema / p;
    DivBounds(ema, p);
    MulMono(1, p, base);
    MulMono(Weight(elapsed), K, base);
    DivBelow(base * Weight(elapsed), K, base + 1);
  }

  lemma {:induction false} Pow2_64()
    ensures Pow2(64) == TWO_64
  {
    assert Pow2(8) == 0x100 by { Pow2Add(4, 4); assert Pow2(4) == 16; }
    assert Pow2(16) == 0x1_0000 by { Pow2Add(8, 8); }
    assert Pow2(32) == 0x1_0000_0000 by { Pow2Add(16, 16); }
    Pow2Add(32, 32);
  }

  /** The early return after 64 half-lives gives what the shift would. */
  lemma PastCutoff(ema: u64, elapsed: nat)
    requires elapsed >= 64 * H
    ensures elapsed / H >= 64 && Decay(ema, elapsed) == 0
  {
    Pow2Mono(64, elapsed / H);
    Pow2_64();
    DivBelow(ema, Pow2(elapsed / H), 1);
    DecayAtMost(ema, elapsed);
  }

  /**
    The clamp of a clock that went backwards, the saturated subtraction, the 64-halving cutoff and the narrowing
    cast change nothing: for every input the source computes the plain decay law.
   */
  lemma DecayFeeEmaIsDecay(feeEma: u64, lastUnix: i64, now: i64)
    ensures DecayFeeEma(feeEma, lastUnix, now) == if now <= lastUnix then feeEma else Decay(feeEma, now - lastUnix)
    ensures DecayFeeEma(feeEma, lastUnix, now) <= feeEma
  {
    if now > lastUnix {
      var gap := now - lastUnix;
      DecayAtMost(feeEma, gap);
      if gap >= 64 * H {
        PastCutoff(feeEma, gap);
        assert SaturatingSubI64(now, lastUnix) / H >= 64;
      } else {
        assert SaturatingSubI64(now, lastUnix) == gap;
        assert gap / H < 64;
        CastFits(Decay(feeEma, gap));
      }
    }
  }

  /** Every intermediate product of the source fits `u128`, so no operation of the decay or the fee can overflow. */
  lemma FeeMathFitsU128(feeEma: u64, elapsed: nat)
    ensures (feeEma / Pow2(elapsed / H)) * Weight(elapsed) < TWO_128
    ensures FEE_PER_EMA_UNIT * feeEma < TWO_128
  {
    DecayAtMost(feeEma, elapsed);
    MulMono(feeEma / Pow2(elapsed / H), U64_MAX, Weight(elapsed));
    assert U64_MAX * K < TWO_128;
    MulMono(Weight(elapsed), K, U64_MAX);
  }

  /** One creation unit of activity costs one `FEE_PER_EMA_UNIT`: with the shipped constants the fee is the average. */
  lemma FeeIsEma(decayed: u64)
    ensures FeeForEma(decayed) == decayed
  {
    FeeMathFitsU128(decayed, 0);
    DivBounds(FEE_PER_EMA_UNIT * decayed, FEE_EMA_SCALE);
  }

  // ---- the shape of the decay ----

  lemma DecayMonoInEma(x: nat, y: nat, t: nat)
    requires y <= x
    ensures Decay(y, t) <= Decay(x, t)
  {
    DivMono(y, x, Pow2(t / H));
    MulMono(y / Pow2(t / H), x / Pow2(t / H), Weight(t));
    DivMono((y / Pow2(t / H)) * Weight(t), (x / Pow2(t / H)) * Weight(t), K);
  }

  /** A decay never widens the distance between two averages. */
  lemma DecayNonExpansive(x: nat, y: nat, t: nat)
    requires y <= x
    ensures 0 <= Decay(x, t) - Decay(y, t) <= x - y
  {
    DecayMonoInEma(x, y, t);
    var p, n := Pow2(t / H), Weight(t);
    var baseX, baseY := x / p, y / p;
    DivMono(y, x, p);
    DivNonExpansive(x, y, p);
    assert baseX * n / K - baseY * n / K <= baseX - baseY by {
      DivBounds(baseY * n, K);
      assert baseX * n - baseY * n <= (baseX - baseY) * K by {
        assert baseX * n - baseY * n == (baseX - baseY) * n;
        MulMono(n, K, baseX - baseY);
      }
      DivBelow(baseX * n, K, baseY * n / K + (baseX - baseY) + 1);
    }
  }

  /** Inside one half-life more seconds leave less. */
  lemma DecayMonoInside(base: nat, n1: nat, n2: nat)
    requires n2 <= n1
    ensures base * n2 / K <= base * n1 / K
  {
    MulMono(n2, n1, base);
    DivMono(base * n2, base * n1, K);
  }

  /** A divisor at least twice as large leaves at most half. */
  lemma HalvedQuotient(ema: nat, p1: nat, p2: nat)
    requires 0 < p1 && 2 * p1 <= p2
    ensures 2 * (ema / p2) <= ema / p1
  {
    var b2 := ema / p2;
    DivBounds(ema, p2);
    assert (2 * b2) * p1 <= ema by {
      MulMono(2 * p1, p2, b2);
      assert (2 * b2) * p1 == b2 * (2 * p1);
    }
    DivAtLeast(ema, p1, 2 * b2);
  }

  /** Halving once more loses at least half. */
  lemma HalvedBase(ema: nat, w1: nat, w2: nat)
    requires w1 < w2
    ensures 2 * (ema / Pow2(w2)) <= ema / Pow2(w1)
  {
    Pow2Mono(w1 + 1, w2);
    HalvedQuotient(ema, Pow2(w1), Pow2(w2));
  }

  /** The decay never rises with elapsed time: inside a half-life, across its joins and past the cutoff. */
  lemma DecayAntitoneInTime(ema: nat, t1: nat, t2: nat)
    requires t1 <= t2
    ensures Decay(ema, t2) <= Decay(ema, t1)
  {
    DivMono(t1, t2, H);
    var w1, w2 := t1 / H, t2 / H;
    if w1 == w2 {
      DecayMonoInside(ema / Pow2(w1), Weight(t1), Weight(t2));
    } else {
      HalvedBase(ema, w1, w2);
      DecayAtMost(ema, t2);
      var b1, b2 := ema / Pow2(w1), ema / Pow2(w2);
      assert b2 * K <= b1 * Weight(t1) by {
        assert b2 * K == (2 * b2) * H;
        MulMono(2 * b2, b1, H);
        MulMono(H, Weight(t1), b1);
      }
      DivAtLeast(b1 * Weight(t1), K, b2);
    }
  }

  /** Two nested floors never exceed the exact quotient `ema * n / (K * p)`. */
  lemma NestedFloorsBelow(ema: nat, b: nat, p: nat, n: nat, d: nat)
    requires b * p <= ema && d * K <= b * n
    ensures d * (K * p) <= ema * n
  {
    MulMono(d * K, b * n, p);
    MulAssoc(d, K, p);
    MulMono(b * p, ema, n);
    MulAssoc(b, n, p);
  }

  /** Two nested floors lose less than two units against it. */
  lemma NestedFloorsAbove(ema: nat, b: nat, p: nat, n: nat, d: nat)
    requires 0 < p && n <= K && ema < b * p + p && b * n < d * K + K
    ensures ema * n < (d + 2) * (K * p)
  {
    MulMono(ema, b * p + (p - 1), n);
    MulAdd(b * p, p - 1, n);
    MulAssoc(b, n, p);
    MulMono(b * n, d * K + (K - 1), p);
    MulAdd(d * K, K - 1, p);
    MulAssoc(d, K, p);
    MulMono(n, K, p - 1);
    MulAdd(K, -1, p);
    MulAdd(p, -1, K);
    MulAdd(d, 2, K * p);
  }

  /**
    The two floors of one decay lose less than two units against the exact piecewise-linear curve
    `ema * (2H - rem) / (2H * 2^whole)`, and never round up.
   */
  lemma DecayWithinTwoOfCurve(ema: nat, t: nat)
    ensures Decay(ema, t) * (K * Pow2(t / H)) <= ema * Weight(t) < (Decay(ema, t) + 2) * (K * Pow2(t / H))
  {
    var p, n := Pow2(t / H), Weight(t);
    DivBounds(ema, p);
    DivBounds((ema / p) * n, K);
    NestedFloorsBelow(ema, ema / p, p, n, Decay(ema, t));
    NestedFloorsAbove(ema, ema / p, p, n, Decay(ema, t));
  }

  // ---- splitting an idle gap ----

  /** How the half-life count and the weight of a sum of two gaps relate to those of its parts. */
  lemma GapSum(a: nat, b: nat)
    ensures a % H + b % H < H ==> (a + b) / H == a / H + b / H && Weight(a + b) == Weight(a) + Weight(b) - K
    ensures a % H + b % H >= H ==> (a + b) / H == a / H + b / H + 1 && Weight(a + b) == Weight(a) + Weight(b) - H
  {
  }

  /** Without a wrap the product of the two weights is at least the weight of the sum. */
  lemma WeightsMultiply(n1: int, n2: int)
    requires H <= n1 <= K && H <= n2 <= K
    ensures (n1 + n2 - K) * K <= n1 * n2
    ensures (n1 + n2 - H) * K <= 2 * (n1 * n2)
  {
    var u, v := K - n1, K - n2;
    assert n1 * n2 == K * K - K * u - K * v + u * v;
    assert u * v >= 0 by { MulMono(0, u, v); }
    assert (H - u) * (H - v) >= 0 by { MulMono(0, H - u, H - v); }
    assert (H - u) * (H - v) == H * H - H * u - H * v + u * v;
  }

  /** Halving a partly decayed value keeps at least what decaying the halved value keeps. */
  lemma HalveAfterWeight(base: nat, p: nat, n: nat)
    requires p > 0
    ensures (base / p) * n / K <= (base * n / K) / p
  {
    var b := base / p;
    var y := b * n / K;
    DivBounds(base, p);
    DivBounds(b * n, K);
    assert (y * p) * K <= base * n by {
      MulMono(y * K, b * n, p);
      assert (y * K) * p == (y * p) * K;
      MulMono(b * p, base, n);
      assert (b * n) * p == (b * p) * n;
    }
    DivAtLeast(base * n, K, y * p);
    DivAtLeast(base * n / K, p, y);
  }

  /** Two interpolations in a row lose less than two units against their product. */
  lemma TwoInterpolations(x: nat, y: nat, z: nat, n2: nat)
    requires n2 <= K && x <= y * K + (K - 1) && y * n2 <= z * K + (K - 1)
    ensures x * n2 <= z * (K * K) + (2 * (K * K) - 2 * K)
  {
    MulMono(x, y * K + (K - 1), n2);
    MulAdd(y * K, K - 1, n2);
    MulAssoc(y, K, n2);
    MulMono(y * n2, z * K + (K - 1), K);
    MulAdd(z * K, K - 1, K);
    MulAssoc(z, K, K);
    MulMono(n2, K, K - 1);
    MulAdd(K, -1, K);
  }

  /** One interpolation whose weight the product `nn` dominates. */
  lemma DominatedWeight(b: nat, c: nat, d: nat, nn: nat, n: nat, m: nat)
    requires d * K <= c * n && m * c <= b && n * K <= m * nn
    ensures d * (K * K) <= b * nn
  {
    MulMono(d * K, c * n, K);
    MulAssoc(d, K, K);
    MulAssoc(c, n, K);
    MulMono(n * K, m * nn, c);
    MulAssoc(m, c, nn);
    MulMono(m * c, b, nn);
  }

  /** Two interpolations in a row, compared with one by any weight `n / m` that their product dominates. */
  lemma TwoWeights(b: nat, c: nat, n1: nat, n2: nat, n: nat, m: nat)
    requires n2 <= K && m * c <= b && n * K <= m * (n1 * n2)
    ensures c * n / K <= (b * n1 / K) * n2 / K + 1
  {
    var y := b * n1 / K;
    DivBounds(b * n1, K);
    DivBounds(y * n2, K);
    DivBounds(c * n, K);
    MulMono(0, n1, n2);
    TwoWeightsArithmetic(b, c, y, y * n2 / K, c * n / K, n1, n2, n, m);
  }

  lemma TwoWeightsArithmetic(b: nat, c: nat, y: nat, z: nat, d: nat, n1: nat, n2: nat, n: nat, m: nat)
    requires n2 <= K && m * c <= b && n * K <= m * (n1 * n2)
    requires b * n1 < y * K + K && y * n2 < z * K + K && d * K <= c * n
    ensures d <= z + 1
  {
    MulAssoc(b, n1, n2);
    TwoInterpolations(b * n1, y, z, n2);
    DominatedWeight(b, c, d, n1 * n2, n, m);
    MulAdd(z, 2, K * K);
    CancelFactor(d, z + 2, K * K);
  }

  /** SplitGapLosesAtMostOne with the half-life counts turned into divisors; `m` says whether the remainders wrapped. */
  lemma SplitArithmetic(ema: nat, p1: nat, p2: nat, q: nat, n1: nat, n2: nat, n: nat, m: nat)
    requires p1 > 0 && p2 > 0 && m > 0 && q > 0 && q == m * (p1 * p2)
    requires n2 <= K && n * K <= m * (n1 * n2)
    ensures (ema / q) * n / K <= ((ema / p1) * n1 / K / p2) * n2 / K + 1
  {
    var base := ema / p1;
    DivDiv(ema, p1, p2);
    DivDiv(ema, p1 * p2, m);
    assert (p1 * p2) * m == q;
    assert ema / q == base / p2 / m;
    DivBounds(base / p2, m);
    HalveAfterWeight(base, p2, n1);
    var low, high := (base / p2) * n1 / K, base * n1 / K / p2;
    MulMono(low, high, n2);
    DivMono(low * n2, high * n2, K);
    TwoWeights(base / p2, ema / q, n1, n2, n, m);
  }

  /** The divisors and weights of a gap and of its two parts, with `m` as in SplitArithmetic. */
  lemma SplitParts(a: nat, b: nat) returns (m: nat)
    ensures m == (if a % H + b % H < H then 1 else 2)
    ensures Pow2((a + b) / H) == m * (Pow2(a / H) * Pow2(b / H))
    ensures Weight(a + b) * K <= m * (Weight(a) * Weight(b))
    ensures 8 * (m * (Weight(a) * Weight(b))) <= 9 * (Weight(a + b) * K)
  {
    m := if a % H + b % H < H then 1 else 2;
    GapSum(a, b);
    WeightsMultiply(Weight(a), Weight(b));
    WeightsGainAnEighth(Weight(a), Weight(b));
    Pow2Add(a / H, b / H);
  }

  /**
    Splitting an idle gap never loses more than one unit, whatever half-life boundaries the parts cross. The bound
    is attained: see SplitLosesOne.
   */
  lemma SplitGapLosesAtMostOne(ema: nat, a: nat, b: nat)
    ensures Decay(ema, a + b) - 1 <= Decay(Decay(ema, a), b)
  {
    var m := SplitParts(a, b);
    SplitArithmetic(ema, Pow2(a / H), Pow2(b / H), Pow2((a + b) / H), Weight(a), Weight(b), Weight(a + b), m);
  }

  /** The unit of SplitGapLosesAtMostOne is really lost: 3 decayed for two seconds, at once and in two steps. */
  lemma SplitLosesOne()
    ensures Decay(3, 2) == 2 && Decay(Decay(3, 1), 1) == 1
  {
    assert Pow2(0) == 1;
    assert Decay(3, 1) == 3 * (K - 1) / K;
    assert Decay(3, 2) == 3 * (K - 2) / K;
    assert Decay(2, 1) == 2 * (K - 1) / K;
  }

  /** The weights of the parts exceed the weight of the whole by an eighth at most. */
  lemma WeightsGainAnEighth(n1: int, n2: int)
    requires H <= n1 <= K && H <= n2 <= K
    ensures n1 + n2 - K >= H ==> 8 * (n1 * n2) <= 9 * ((n1 + n2 - K) * K)
    ensures n1 + n2 - K <= H ==> 8 * (2 * (n1 * n2)) <= 9 * ((n1 + n2 - H) * K)
  {
    var s, d := n1 + n2, n1 - n2;
    assert 4 * (n1 * n2) == s * s - d * d;
    assert d * d >= 0;
    if s - K >= H {
      // s lies between 3H and 4H
      assert (s - 3 * H) * (2 * K - s) >= 0 by { MulMono(0, s - 3 * H, 2 * K - s); }
      assert (s - 3 * H) * (2 * K - s) == 7 * H * s - s * s - 12 * H * H;
    }
    if s - K <= H {
      // s lies between 2H and 3H
      assert (s - K) * (3 * H - s) >= 0 by { MulMono(0, s - K, 3 * H - s); }
      assert (s - K) * (3 * H - s) == 5 * H * s - s * s - 6 * H * H;
    }
  }

  /** Two curves in a row, cross-multiplied. */
  lemma TwoCurves(ema: nat, d1: nat, d2: nat, p1: nat, p2: nat, n1: nat, n2: nat)
    requires d1 * (K * p1) <= ema * n1
    requires d2 * (K * p2) <= d1 * n2
    ensures d2 * (K * K * (p1 * p2)) <= ema * (n1 * n2)
  {
    MulMono(d2 * (K * p2), d1 * n2, K * p1);
    assert (d2 * (K * p2)) * (K * p1) == d2 * (K * K * (p1 * p2)) by {
      assert (K * p2) * (K * p1) == K * K * (p1 * p2);
    }
    MulMono(d1 * (K * p1), ema * n1, n2);
    assert (d1 * n2) * (K * p1) == (d1 * (K * p1)) * n2;
    assert (ema * n1) * n2 == ema * (n1 * n2);
  }

  /**
    Splitting slows the decay, because the interpolation restarts, but by no more than an eighth: the other side of
    SplitGapLosesAtMostOne.
   */
  lemma SplitGapGainsAtMostAnEighth(ema: nat, a: nat, b: nat)
    ensures 8 * Decay(Decay(ema, a), b) < 9 * (Decay(ema, a + b) + 2)
  {
    var m := SplitParts(a, b);
    var d1 := Decay(ema, a);
    DecayWithinTwoOfCurve(ema, a);
    DecayWithinTwoOfCurve(d1, b);
    DecayWithinTwoOfCurve(ema, a + b);
    TwoCurves(ema, d1, Decay(d1, b), Pow2(a / H), Pow2(b / H), Weight(a), Weight(b));
    SplitUpperArithmetic(ema, Decay(ema, a + b), Decay(d1, b), Weight(a) * Weight(b), Weight(a + b), m,
                         Pow2(a / H) * Pow2(b / H));
  }

  /** The cross-multiplication that ends SplitGapGainsAtMostAnEighth. */
  lemma SplitUpperArithmetic(ema: nat, d: nat, d2: nat, nn: nat, n: nat, m: nat, p: nat)
    requires p > 0 && m > 0
    requires d2 * (K * K * p) <= ema * nn
    requires 8 * (m * nn) <= 9 * (n * K)
    requires ema * n < (d + 2) * (K * (m * p))
    ensures 8 * d2 < 9 * (d + 2)
  {
    var c := K * (K * (m * p));
    MulMono(1, p, m);
    SplitUpperLeft(ema, d2, nn, n, m, p);
    SplitUpperRight(ema * n, d + 2, m * p);
    CancelFactor(8 * d2, 9 * (d + 2), c);
  }

  lemma SplitUpperLeft(ema: nat, d2: nat, nn: nat, n: nat, m: nat, p: nat)
    requires d2 * (K * K * p) <= ema * nn
    requires 8 * (m * nn) <= 9 * (n * K)
    ensures (8 * d2) * (K * (K * (m * p))) <= (9 * K) * (ema * n)
  {
    MulMono(d2 * (K * K * p), ema * nn, 8 * m);
    assert (8 * d2) * (K * (K * (m * p))) == (d2 * (K * K * p)) * (8 * m) by {
      MulAssoc(K * K, m, p);
      MulAssoc(d2, K * K * p, m);
    }
    MulAssoc(ema, nn, m);
    MulMono(8 * (m * nn), 9 * (n * K), ema);
    MulAssoc(ema, n, 9 * K);
  }

  lemma SplitUpperRight(x: nat, d: nat, q: nat)
    requires x < d * (K * q)
    ensures (9 * K) * x < (9 * d) * (K * (K * q))
  {
    MulMono(x + 1, d * (K * q), 9 * K);
    MulAssoc(d, K * q, K);
  }
}
