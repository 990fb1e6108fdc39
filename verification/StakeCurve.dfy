/** The activity-scaled minimum stake (`programs/oracles/src/stake_floor.rs`): 0, then a linear ramp, then `max`. */
module StakeCurve {
  import opened Arith

  const STAKE_FLOOR_EMA_THRESHOLD: u64 := 15_000_000_000
  const STAKE_FLOOR_EMA_CAP: u64 := 1_443_000_000_000

  /** `stake_floor`. */
  function StakeFloor(ema: u64, threshold: u64, cap: u64, max: u64): u64 {
    if max == 0 || cap <= threshold || ema <= threshold then 0
    else if ema >= cap then max
    else
      var span := cap - threshold;
      var pos := ema - threshold;
      AsU64(max * pos / span)
  }

  /** On the ramp the cast is lossless and the floor is the exact floor of `max * pos / span`, strictly below `max`. */
  lemma FloorOnRamp(ema: u64, threshold: u64, cap: u64, max: u64)
    requires threshold < ema < cap && max > 0
    ensures
      var r := StakeFloor(ema, threshold, cap, max);
      r * (cap - threshold) <= max * (ema - threshold) < (r + 1) * (cap - threshold)
    ensures StakeFloor(ema, threshold, cap, max) < max
  {
    RampArithmetic(max, ema - threshold, cap - threshold);
  }

  lemma RampArithmetic(max: u64, pos: nat, span: nat)
    requires 0 < pos < span && max > 0
    ensures 0 <= max * pos / span < max
    ensures (max * pos / span) * span <= max * pos < (max * pos / span + 1) * span
  {
    DivBounds(max * pos, span);
    MulAdd(max * pos / span, 1, span);
    MulMono(pos + 1, span, max);
    MulAdd(pos, 1, max);
    DivBelow(max * pos, span, max);
    MulMono(0, pos, max);
    DivAtLeast(max * pos, span, 0);
  }

  /** The floor is exactly 0 up to the threshold, exactly `max` from the cap on, and never above `max`. */
  lemma FloorEnds(ema: u64, threshold: u64, cap: u64, max: u64)
    ensures ema <= threshold || cap <= threshold ==> StakeFloor(ema, threshold, cap, max) == 0
    ensures threshold < cap ==> (StakeFloor(ema, threshold, cap, max) == max <==> ema >= cap || max == 0)
    ensures StakeFloor(ema, threshold, cap, max) <= max
  {
    if threshold < ema < cap && max > 0 {
      FloorOnRamp(ema, threshold, cap, max);
    }
  }

  /** More activity never lowers the floor: inside the band, on the ramp, past the cap and across both joins. */
  lemma FloorMonotone(ema1: u64, ema2: u64, threshold: u64, cap: u64, max: u64)
    requires ema1 <= ema2
    ensures StakeFloor(ema1, threshold, cap, max) <= StakeFloor(ema2, threshold, cap, max)
  {
    FloorEnds(ema1, threshold, cap, max);
    if threshold < ema1 && ema2 < cap && max > 0 {
      FloorOnRamp(ema1, threshold, cap, max);
      FloorOnRamp(ema2, threshold, cap, max);
      MulMono(ema1 - threshold, ema2 - threshold, max);
      var r1, r2 := StakeFloor(ema1, threshold, cap, max), StakeFloor(ema2, threshold, cap, max);
      if r2 < r1 {
        MulMono(r2 + 1, r1, cap - threshold);
        assert false;
      }
    }
  }
}
