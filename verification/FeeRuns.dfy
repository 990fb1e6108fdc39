/**
  Whole runs of oracle creations: decay the stored average, charge for it, bump it and stamp the time
  (`programs/oracles/src/config.rs`, lines 91-108, in the order of `programs/oracles/src/processor/create_oracle.rs`).
 */
module FeeRuns {
  import opened Arith
  import opened FeeEma
  import opened StakeCurve

  /** The governable curve of the minimum stake. */
  datatype Curve = Curve(threshold: u64, cap: u64, max: u64)

  /** The activity fields of the protocol account. */
  datatype Activity = Activity(feeEma: u64, lastCreationUnix: i64)

  /** What one creation is charged and what minimum stake its oracle is given. */
  datatype Receipt = Receipt(decayedEma: u64, fee: u64, minStake: u64)

  function Charge(a: Activity, curve: Curve, now: i64): Receipt {
    var d := DecayFeeEma(a.feeEma, a.lastCreationUnix, now);
    Receipt(d, FeeForEma(d), StakeFloor(d, curve.threshold, curve.cap, curve.max))
  }

  function After(a: Activity, now: i64): Activity {
    Activity(BumpedFeeEma(DecayFeeEma(a.feeEma, a.lastCreationUnix, now)), now)
  }

  /** The protocol account, updated in place by every creation. */
  class Protocol {
    var feeEma: u64
    var lastCreationUnix: i64
    const curve: Curve

    constructor (curve: Curve)
      ensures State() == Activity(0, 0) && this.curve == curve
    {
      feeEma, lastCreationUnix := 0, 0;
      this.curve := curve;
    }

    function State(): Activity
      reads this
    {
      Activity(feeEma, lastCreationUnix)
    }

    /** The fee and stamp steps of `create_oracle`; the stake floor uses the same decayed value as the fee. */
    method RecordCreation(now: i64) returns (fee: u64, minStake: u64)
      modifies this
      ensures
        var ema, last := old(feeEma), old(lastCreationUnix);
        var charged := if now <= last then ema else Decay(ema, now - last);
        && fee == charged && charged <= U64_MAX
        && minStake == StakeFloor(charged, curve.threshold, curve.cap, curve.max)
        && feeEma == (if charged + 1_000_000_000 <= U64_MAX then charged + 1_000_000_000 else U64_MAX)
        && lastCreationUnix == now
      ensures State() == After(old(State()), now)
      ensures fee == Charge(old(State()), curve, now).fee
      ensures minStake == Charge(old(State()), curve, now).minStake
    {
      DecayFeeEmaIsDecay(feeEma, lastCreationUnix, now);
      var decayed := DecayFeeEma(feeEma, lastCreationUnix, now);
      FeeIsEma(decayed);
      fee := FeeForEma(decayed);
      feeEma := BumpedFeeEma(decayed);
      lastCreationUnix := now;
      minStake := StakeFloor(decayed, curve.threshold, curve.cap, curve.max);
    }
  }

  /** What a creation charges and leaves, for every activity and every time, a clock that ran backwards included. */
  lemma CreationIs(a: Activity, curve: Curve, now: i64)
    ensures
      var charged := if now <= a.lastCreationUnix then a.feeEma else Decay(a.feeEma, now - a.lastCreationUnix);
      && charged <= U64_MAX
      && Charge(a, curve, now)
         == Receipt(charged, charged, StakeFloor(charged, curve.threshold, curve.cap, curve.max))
      && After(a, now)
         == Activity(if charged + 1_000_000_000 <= U64_MAX then charged + 1_000_000_000 else U64_MAX, now)
  {
    DecayFeeEmaIsDecay(a.feeEma, a.lastCreationUnix, now);
    FeeIsEma(DecayFeeEma(a.feeEma, a.lastCreationUnix, now));
  }

  // ---- runs ----

  function RunAfter(a: Activity, times: seq<i64>): Activity
    decreases |times|
  {
    if times == [] then a else RunAfter(After(a, times[0]), times[1..])
  }

  /** The receipts of a run, one for each creation. */
  function Receipts(a: Activity, curve: Curve, times: seq<i64>): (rs: seq<Receipt>)
    ensures |rs| == |times|
    decreases |times|
  {
    if times == [] then [] else [Charge(a, curve, times[0])] + Receipts(After(a, times[0]), curve, times[1..])
  }

  ghost predicate TimeOrdered(start: i64, times: seq<i64>)
    decreases |times|
  {
    times != [] ==> start <= times[0] && TimeOrdered(times[0], times[1..])
  }

  lemma {:induction false} RunConcat(a: Activity, curve: Curve, xs: seq<i64>, ys: seq<i64>)
    ensures RunAfter(a, xs + ys) == RunAfter(RunAfter(a, xs), ys)
    ensures Receipts(a, curve, xs + ys) == Receipts(a, curve, xs) + Receipts(RunAfter(a, xs), curve, ys)
    decreases |xs|
  {
    if xs == [] {
      assert xs + ys == ys;
    } else {
      assert (xs + ys)[1..] == xs[1..] + ys;
      RunConcat(After(a, xs[0]), curve, xs[1..], ys);
    }
  }

  lemma {:induction false} TimeOrderedConcat(start: i64, a: Activity, xs: seq<i64>, ys: seq<i64>)
    requires a.lastCreationUnix == start && TimeOrdered(start, xs + ys)
    ensures TimeOrdered(RunAfter(a, xs).lastCreationUnix, ys)
    decreases |xs|
  {
    if xs == [] {
      assert xs + ys == ys;
    } else {
      assert (xs + ys)[1..] == xs[1..] + ys;
      TimeOrderedConcat(xs[0], After(a, xs[0]), xs[1..], ys);
    }
  }

  // ---- an extra creation never lowers a later fee by more than one unit ----

  /** `hi` is at most one unit below `lo`. */
  ghost predicate AtMostOneBelow(hi: int, lo: int) {
    lo - 1 <= hi
  }

  /** Two protocols one unit apart stay one unit apart after the same creation; the saturating bump only helps. */
  lemma CreationKeepsOneApart(hi: Activity, lo: Activity, curve: Curve, now: i64)
    requires hi.lastCreationUnix == lo.lastCreationUnix && AtMostOneBelow(hi.feeEma, lo.feeEma)
    ensures AtMostOneBelow(Charge(hi, curve, now).decayedEma, Charge(lo, curve, now).decayedEma)
    ensures AtMostOneBelow(Charge(hi, curve, now).fee, Charge(lo, curve, now).fee)
    ensures AtMostOneBelow(After(hi, now).feeEma, After(lo, now).feeEma)
  {
    var last := lo.lastCreationUnix;
    DecayFeeEmaIsDecay(hi.feeEma, last, now);
    DecayFeeEmaIsDecay(lo.feeEma, last, now);
    if now > last {
      if hi.feeEma >= lo.feeEma {
        DecayNonExpansive(hi.feeEma, lo.feeEma, now - last);
      } else {
        DecayNonExpansive(lo.feeEma, hi.feeEma, now - last);
      }
    }
    FeeIsEma(Charge(hi, curve, now).decayedEma);
    FeeIsEma(Charge(lo, curve, now).decayedEma);
  }

  lemma {:induction false} RunKeepsOneApart(hi: Activity, lo: Activity, curve: Curve, times: seq<i64>)
    requires hi.lastCreationUnix == lo.lastCreationUnix && AtMostOneBelow(hi.feeEma, lo.feeEma)
    ensures forall i :: 0 <= i < |times| ==>
      AtMostOneBelow(Receipts(hi, curve, times)[i].decayedEma, Receipts(lo, curve, times)[i].decayedEma)
      && AtMostOneBelow(Receipts(hi, curve, times)[i].fee, Receipts(lo, curve, times)[i].fee)
    ensures AtMostOneBelow(RunAfter(hi, times).feeEma, RunAfter(lo, times).feeEma)
    decreases |times|
  {
    if times != [] {
      CreationKeepsOneApart(hi, lo, curve, times[0]);
      RunKeepsOneApart(After(hi, times[0]), After(lo, times[0]), curve, times[1..]);
    }
  }

  /** The first creation after an inserted one. */
  lemma InsertedThenCreation(a: Activity, curve: Curve, extra: i64, now: i64)
    requires a.lastCreationUnix <= extra <= now
    ensures AtMostOneBelow(Charge(After(a, extra), curve, now).decayedEma, Charge(a, curve, now).decayedEma)
    ensures AtMostOneBelow(Charge(After(a, extra), curve, now).fee, Charge(a, curve, now).fee)
    ensures AtMostOneBelow(After(After(a, extra), now).feeEma, After(a, now).feeEma)
  {
    var last, e := a.lastCreationUnix, a.feeEma;
    var d := DecayFeeEma(e, last, extra);
    var bumped := After(a, extra).feeEma;
    DecayFeeEmaIsDecay(e, last, extra);
    DecayFeeEmaIsDecay(e, last, now);
    DecayFeeEmaIsDecay(bumped, extra, now);
    SplitGapLosesAtMostOne(e, extra - last, now - extra);
    DecayNow(e);
    DecayNow(d);
    DecayNow(bumped);
    DecayMonoInEma(bumped, d, now - extra);
    FeeIsEma(Charge(After(a, extra), curve, now).decayedEma);
    FeeIsEma(Charge(a, curve, now).decayedEma);
  }

  lemma DecayNow(ema: nat)
    ensures Decay(ema, 0) == ema
  {
    assert Pow2(0) == 1;
  }

  /**
    History monotonicity: inserting one extra creation anywhere into a time-ordered run lowers no later average and no
    later fee by more than one unit.
   */
  lemma ExtraCreationNeverLowersFees(a: Activity, curve: Curve, xs: seq<i64>, extra: i64, ys: seq<i64>, i: nat)
    requires TimeOrdered(a.lastCreationUnix, xs + [extra] + ys)
    requires i < |ys|
    ensures
      var with := Receipts(a, curve, xs + [extra] + ys)[|xs| + 1 + i];
      var without := Receipts(a, curve, xs + ys)[|xs| + i];
      AtMostOneBelow(with.decayedEma, without.decayedEma) && AtMostOneBelow(with.fee, without.fee)
  {
    var mid := RunAfter(a, xs);
    var later := [extra] + ys;
    assert Receipts(a, curve, xs + later) == Receipts(a, curve, xs) + Receipts(mid, curve, later)
        && Receipts(a, curve, xs + ys) == Receipts(a, curve, xs) + Receipts(mid, curve, ys) by {
      RunConcat(a, curve, xs, later);
      RunConcat(a, curve, xs, ys);
    }
    assert xs + [extra] + ys == xs + later;
    assert TimeOrdered(mid.lastCreationUnix, later) by {
      TimeOrderedConcat(a.lastCreationUnix, a, xs, later);
    }
    ExtraCreationFirst(mid, curve, extra, ys, i);
  }

  /** ExtraCreationNeverLowersFees when the extra creation is the first of the run. */
  lemma ExtraCreationFirst(a: Activity, curve: Curve, extra: i64, ys: seq<i64>, i: nat)
    requires TimeOrdered(a.lastCreationUnix, [extra] + ys)
    requires i < |ys|
    ensures
      var with := Receipts(a, curve, [extra] + ys)[1 + i];
      var without := Receipts(a, curve, ys)[i];
      AtMostOneBelow(with.decayedEma, without.decayedEma) && AtMostOneBelow(with.fee, without.fee)
  {
    var p := After(a, extra);
    assert ([extra] + ys)[1..] == ys;
    assert Receipts(a, curve, [extra] + ys) == [Charge(a, curve, extra)] + Receipts(p, curve, ys);
    assert a.lastCreationUnix <= extra <= ys[0];
    InsertedThenCreation(a, curve, extra, ys[0]);
    if i > 0 {
      RunKeepsOneApart(After(p, ys[0]), After(a, ys[0]), curve, ys[1..]);
    }
  }

  // ---- idling ----

  /** A longer idle gap never raises the fee or the minimum stake of the next oracle. */
  lemma LongerIdleNeverCostsMore(a: Activity, curve: Curve, early: i64, late: i64)
    requires early <= late
    ensures Charge(a, curve, late).fee <= Charge(a, curve, early).fee
    ensures Charge(a, curve, late).minStake <= Charge(a, curve, early).minStake
  {
    var e, last := a.feeEma, a.lastCreationUnix;
    DecayFeeEmaIsDecay(e, last, early);
    DecayFeeEmaIsDecay(e, last, late);
    if last < early {
      DecayAntitoneInTime(e, early - last, late - last);
    }
    var d1, d2 := Charge(a, curve, early).decayedEma, Charge(a, curve, late).decayedEma;
    FeeIsEma(d1);
    FeeIsEma(d2);
    FloorMonotone(d2, d1, curve.threshold, curve.cap, curve.max);
  }

  // ---- spacing ----

  /** Consecutive creations at least `gap` seconds apart; the first may come at any time. */
  ghost predicate Spaced(gap: nat, times: seq<i64>) {
    forall i {:trigger times[i]} :: 0 < i < |times| ==> times[i - 1] + gap <= times[i]
  }

  ghost predicate WithinSpacing(a: Activity, gap: nat) {
    a.feeEma * gap <= K * FEE_EMA_INCREMENT
  }

  /** A gap of at most one half-life keeps at most `1 - gap/2H` of the average. */
  lemma DecayOverGap(ema: nat, gap: nat, t: nat)
    requires 0 < gap <= H && gap <= t
    ensures Decay(ema, t) * K <= ema * (K - gap)
  {
    DecayAntitoneInTime(ema, gap, t);
    var d := Decay(ema, gap);
    DecayWithinTwoOfCurve(ema, gap);
    assert Pow2(0) == 1 && Pow2(1) == 2;
    assert d * K <= ema * (K - gap) by {
      if gap == H {
        assert Weight(gap) == K && gap / H == 1;
        assert d * (K * 2) <= ema * K;
      } else {
        assert Weight(gap) == K - gap && gap / H == 0;
      }
    }
    MulMono(Decay(ema, t), d, K);
  }

  /** The arithmetic core of the spacing bound: a decayed and bumped average stays within it. */
  lemma BumpWithinSpacing(ema: nat, d: nat, gap: nat)
    requires 0 < gap <= H && d * K <= ema * (K - gap) && ema * gap <= K * FEE_EMA_INCREMENT
    ensures (d + FEE_EMA_INCREMENT) * gap <= K * FEE_EMA_INCREMENT
  {
    assert (d * gap) * K <= (FEE_EMA_INCREMENT * (K - gap)) * K by {
      MulMono(d * K, ema * (K - gap), gap);
      assert (d * K) * gap == (d * gap) * K;
      assert (ema * (K - gap)) * gap == (ema * gap) * (K - gap);
      MulMono(ema * gap, K * FEE_EMA_INCREMENT, K - gap);
      assert (K * FEE_EMA_INCREMENT) * (K - gap) == (FEE_EMA_INCREMENT * (K - gap)) * K;
    }
    if d * gap > FEE_EMA_INCREMENT * (K - gap) {
      MulMono(FEE_EMA_INCREMENT * (K - gap) + 1, d * gap, K);
      assert false;
    }
    assert (d + FEE_EMA_INCREMENT) * gap == d * gap + FEE_EMA_INCREMENT * gap;
  }

  lemma SpacedCreation(a: Activity, gap: nat, now: i64)
    requires 0 < gap <= H && WithinSpacing(a, gap)
    requires a.feeEma == 0 || a.lastCreationUnix + gap <= now
    ensures WithinSpacing(After(a, now), gap)
    ensures (DecayFeeEma(a.feeEma, a.lastCreationUnix, now) + FEE_EMA_INCREMENT) * gap <= K * FEE_EMA_INCREMENT
  {
    var d := DecayFeeEma(a.feeEma, a.lastCreationUnix, now);
    DecayFeeEmaIsDecay(a.feeEma, a.lastCreationUnix, now);
    if a.feeEma != 0 {
      DecayOverGap(a.feeEma, gap, now - a.lastCreationUnix);
    }
    assert d * K <= a.feeEma * (K - gap);
    BumpWithinSpacing(a.feeEma, d, gap);
    MulMono(After(a, now).feeEma, d + FEE_EMA_INCREMENT, gap);
  }

  /**
    Over every run of creations at least `gap` seconds apart that starts from an idle protocol, the stored average
    times the spacing never exceeds `2 * H` creation units, and neither does any charged value plus its bump.
   */
  lemma {:induction false} SpacedRun(a: Activity, curve: Curve, gap: nat, times: seq<i64>)
    requires 0 < gap <= H && WithinSpacing(a, gap) && Spaced(gap, times)
    requires a.feeEma == 0 || (times != [] ==> a.lastCreationUnix + gap <= times[0])
    ensures WithinSpacing(RunAfter(a, times), gap)
    ensures forall i :: 0 <= i < |times| ==>
      (Receipts(a, curve, times)[i].decayedEma + FEE_EMA_INCREMENT) * gap <= K * FEE_EMA_INCREMENT
    decreases |times|
  {
    if times != [] {
      SpacedCreation(a, gap, times[0]);
      if |times| > 1 {
        assert times[0] + gap <= times[1];
      }
      assert Spaced(gap, times[1..]) by {
        forall i | 0 < i < |times[1..]| ensures times[1..][i - 1] + gap <= times[1..][i] {
          assert times[(i + 1) - 1] + gap <= times[i + 1];
        }
      }
      SpacedRun(After(a, times[0]), curve, gap, times[1..]);
    }
  }

  /** Creations at least three hours apart never leave the free band: every floor is 0 whatever the cap and maximum. */
  lemma ThreeHoursApartIsFree(start: i64, cap: u64, max: u64, times: seq<i64>, i: nat)
    requires Spaced(10_800, times) && i < |times|
    ensures Receipts(Activity(0, start), Curve(STAKE_FLOOR_EMA_THRESHOLD, cap, max), times)[i].minStake == 0
  {
    var a, curve := Activity(0, start), Curve(STAKE_FLOOR_EMA_THRESHOLD, cap, max);
    SpacedRun(a, curve, 10_800, times);
    var r := Receipts(a, curve, times)[i];
    assert r.decayedEma <= STAKE_FLOOR_EMA_THRESHOLD;
    ReceiptIsCharge(a, curve, times, i);
    FloorEnds(r.decayedEma, curve.threshold, cap, max);
  }

  /** The fee and the floor of every receipt come from its own decayed average. */
  lemma {:induction false} ReceiptIsCharge(a: Activity, curve: Curve, times: seq<i64>, i: nat)
    requires i < |times|
    ensures
      var r := Receipts(a, curve, times)[i];
      r.fee == r.decayedEma && r.minStake == StakeFloor(r.decayedEma, curve.threshold, curve.cap, curve.max)
    decreases i
  {
    FeeIsEma(Charge(a, curve, times[0]).decayedEma);
    if i > 0 {
      ReceiptIsCharge(After(a, times[0]), curve, times[1..], i - 1);
    }
  }
}
