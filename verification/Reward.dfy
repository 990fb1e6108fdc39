/** Reward settlement (`programs/oracles/src/reward.rs`): the bucket split and the pro-rata shares of two cohorts. */
module Reward {
  import opened Arith

  /** `reward_buckets`: the proposer bucket and the fact bucket. */
  function RewardBuckets(rewardPool: u64, pw: u64, fw: u64, totalProposer: u64, totalFact: u64): (u64, u64) {
    if totalFact == 0 then (rewardPool, 0)
    else if totalProposer == 0 then (0, rewardPool)
    else
      var denom := pw + fw;
      if denom == 0 then (rewardPool, 0)
      else (AsU64(rewardPool * pw / denom), AsU64(rewardPool * fw / denom))
  }

  /** `proposer_reward` and `fact_reward`, which have the same body. */
  function CohortReward(stake: u64, bucket: u64, total: u64): u64 {
    if total == 0 then 0 else AsU64(stake * bucket / total)
  }

  // ---- one share ----

  /** The share of a stake without the cast. */
  function Share(stake: nat, bucket: nat, total: nat): int {
    if total == 0 then 0 else stake * bucket / total
  }

  /** For a stake inside its total the cast is lossless, the product fits `u128` and the share is at most the bucket. */
  lemma ShareFits(stake: u64, bucket: u64, total: u64)
    requires stake <= total
    ensures CohortReward(stake, bucket, total) == Share(stake, bucket, total) <= bucket
    ensures 0 <= stake * bucket < TWO_128
  {
    MulMono(0, stake, bucket);
    MulMono(stake, U64_MAX, bucket);
    MulMono(bucket, U64_MAX, U64_MAX);
    if total > 0 {
      MulMono(stake, total, bucket);
      assert stake * bucket < (bucket + 1) * total;
      DivBelow(stake * bucket, total, bucket + 1);
      DivAtLeast(stake * bucket, total, 0);
    }
  }

  /** Two floors over one denominator lose at most one unit together when their numerators sum to a multiple of it. */
  lemma TwoFloors(a: nat, b: nat, whole: nat, d: nat)
    requires d > 0 && a + b == whole * d
    ensures 0 <= a / d && 0 <= b / d && whole - 1 <= a / d + b / d <= whole
  {
    var p, f := a / d, b / d;
    DivBounds(a, d);
    DivBounds(b, d);
    DivAtLeast(a, d, 0);
    DivAtLeast(b, d, 0);
    MulAdd(p, f, d);
    MulAdd(p + f, 2, d);
    MulAdd(whole, 1, d);
    CancelFactor(p + f, whole + 1, d);
    CancelFactor(whole, p + f + 2, d);
  }

  /** Both casts of the bucket split are lossless, and the buckets leave at most one unit of the pool unallocated. */
  lemma BucketsFit(rewardPool: u64, pw: u64, fw: u64, totalProposer: u64, totalFact: u64)
    ensures
      var (p, f) := RewardBuckets(rewardPool, pw, fw, totalProposer, totalFact);
      && rewardPool - 1 <= p + f <= rewardPool
      && (totalProposer == 0 || totalFact == 0 ==> p + f == rewardPool)
      && (totalFact == 0 || (totalProposer > 0 && pw + fw == 0) ==> f == 0)
      && (totalFact > 0 && totalProposer == 0 ==> p == 0)
    ensures
      totalProposer > 0 && totalFact > 0 && pw + fw > 0 ==>
        var (p, f) := RewardBuckets(rewardPool, pw, fw, totalProposer, totalFact);
        p == rewardPool * pw / (pw + fw) && f == rewardPool * fw / (pw + fw)
  {
    if totalProposer > 0 && totalFact > 0 && pw + fw > 0 {
      var a, b, d := rewardPool * pw, rewardPool * fw, pw + fw;
      assert 0 <= a && 0 <= b && a + b == rewardPool * d by {
        MulMono(0, rewardPool, pw);
        MulMono(0, rewardPool, fw);
        MulAdd(pw, fw, rewardPool);
      }
      TwoFloors(a, b, rewardPool, d);
      CastFits(a / d);
      CastFits(b / d);
    }
  }

  /** Splitting one stake across two identities never pays more and costs at most one unit. */
  lemma SplitStake(a: nat, b: nat, bucket: nat, total: nat)
    ensures Share(a, bucket, total) + Share(b, bucket, total) <= Share(a + b, bucket, total)
    ensures Share(a + b, bucket, total) <= Share(a, bucket, total) + Share(b, bucket, total) + 1
  {
    if total > 0 {
      var x, y := a * bucket, b * bucket;
      var p, q := x / total, y / total;
      MulAdd(a, b, bucket);
      DivBounds(x, total);
      DivBounds(y, total);
      MulAdd(p, q, total);
      MulAdd(p + q, 2, total);
      DivAtLeast(x + y, total, p + q);
      DivBelow(x + y, total, p + q + 2);
    }
  }

  // ---- cohorts ----

  function Sum(xs: seq<nat>): nat {
    if xs == [] then 0 else xs[0] + Sum(xs[1..])
  }

  function Shares(stakes: seq<nat>, bucket: nat, total: nat): int {
    if stakes == [] then 0 else Share(stakes[0], bucket, total) + Shares(stakes[1..], bucket, total)
  }

  /** Any partition of a stake into `k` parts pays no more than the whole stake and loses at most `k - 1` units. */
  lemma {:induction false} SplitStakeIntoParts(parts: seq<nat>, bucket: nat, total: nat)
    requires parts != []
    ensures Shares(parts, bucket, total) <= Share(Sum(parts), bucket, total)
    ensures Share(Sum(parts), bucket, total) <= Shares(parts, bucket, total) + |parts| - 1
  {
    if |parts| == 1 {
      assert parts[1..] == [];
      assert Sum(parts) == parts[0];
    } else {
      SplitStakeIntoParts(parts[1..], bucket, total);
      SplitStake(parts[0], Sum(parts[1..]), bucket, total);
    }
  }

  /** A cohort whose stakes sum to its total is paid its bucket, less at most one unit for every member but one. */
  lemma CohortPaid(stakes: seq<nat>, bucket: nat, total: nat)
    requires Sum(stakes) == total
    ensures Shares(stakes, bucket, total) <= bucket
    ensures total > 0 ==> bucket - (|stakes| - 1) <= Shares(stakes, bucket, total)
    ensures total == 0 ==> Shares(stakes, bucket, total) == 0
  {
    if total == 0 {
      ZeroTotalPaysNothing(stakes, bucket);
    } else {
      SplitStakeIntoParts(stakes, bucket, total);
      assert Share(total, bucket, total) == bucket by {
        assert total * bucket == bucket * total;
        DivAtLeast(total * bucket, total, bucket);
        DivBelow(total * bucket, total, bucket + 1);
      }
    }
  }

  lemma {:induction false} ZeroTotalPaysNothing(stakes: seq<nat>, bucket: nat)
    ensures Shares(stakes, bucket, 0) == 0
  {
    if stakes != [] {
      ZeroTotalPaysNothing(stakes[1..], bucket);
    }
  }

  // ---- settlement: claims of both cohorts, in any order ----

  /** A resolved oracle: the stamps of `reward.rs` and the stakes they were summed from. */
  datatype Settlement = Settlement(
    pool: u64, pw: u64, fw: u64, totalProposer: u64, totalFact: u64,
    proposers: seq<u64>, facts: seq<u64>)

  ghost predicate Stamped(s: Settlement) {
    Sum(s.proposers) == s.totalProposer && Sum(s.facts) == s.totalFact
  }

  datatype Claim = ProposerClaim(i: nat) | FactClaim(j: nat)

  predicate Claimable(s: Settlement, c: Claim) {
    match c
    case ProposerClaim(i) => i < |s.proposers|
    case FactClaim(j) => j < |s.facts|
  }

  /** What one claim pays, computed as the source does from the stamps alone. */
  function Payout(s: Settlement, c: Claim): u64
    requires Claimable(s, c)
  {
    var (proposerBucket, factBucket) := RewardBuckets(s.pool, s.pw, s.fw, s.totalProposer, s.totalFact);
    match c
    case ProposerClaim(i) => CohortReward(s.proposers[i], proposerBucket, s.totalProposer)
    case FactClaim(j) => CohortReward(s.facts[j], factBucket, s.totalFact)
  }

  /** A history of claims, each paid at most once. */
  ghost predicate PaidOnce(s: Settlement, claims: seq<Claim>) {
    && (forall i :: 0 <= i < |claims| ==> Claimable(s, claims[i]))
    && (forall i, j :: 0 <= i < j < |claims| ==> claims[i] != claims[j])
  }

  function TotalPaid(s: Settlement, claims: seq<Claim>): nat
    requires forall i :: 0 <= i < |claims| ==> Claimable(s, claims[i])
  {
    if claims == [] then 0 else Payout(s, claims[0]) + TotalPaid(s, claims[1..])
  }

  /** The claims of a settlement in the order of its cohorts. */
  function AllClaims(s: Settlement): (cs: seq<Claim>)
    ensures |cs| == |s.proposers| + |s.facts|
    ensures forall k :: 0 <= k < |cs| ==> Claimable(s, cs[k])
  {
    seq(|s.proposers| + |s.facts|, k requires k >= 0 =>
      if k < |s.proposers| then ProposerClaim(k) else FactClaim(k - |s.proposers|))
  }

  /** Taking one claim out of a history takes exactly its payout out of the total. */
  lemma {:induction false} RemoveClaim(s: Settlement, claims: seq<Claim>, k: nat)
    requires k < |claims|
    requires forall i :: 0 <= i < |claims| ==> Claimable(s, claims[i])
    ensures TotalPaid(s, claims) == Payout(s, claims[k]) + TotalPaid(s, claims[..k] + claims[k + 1..])
  {
    var rest := claims[..k] + claims[k + 1..];
    if k == 0 {
      assert rest == claims[1..];
    } else {
      RemoveClaim(s, claims[1..], k - 1);
      assert rest[1..] == claims[1..][..k - 1] + claims[1..][k..];
    }
  }

  /** A history is paid no more than any other history that holds all its claims, and as much when it holds as many. */
  lemma {:induction false} HistoryWithin(s: Settlement, some: seq<Claim>, all: seq<Claim>)
    requires PaidOnce(s, some) && PaidOnce(s, all)
    requires forall c :: c in some ==> c in all
    ensures |some| <= |all|
    ensures TotalPaid(s, some) <= TotalPaid(s, all)
    ensures |some| == |all| ==> TotalPaid(s, some) == TotalPaid(s, all)
    decreases |some|
  {
    if some != [] {
      assert some[0] in all;
      var k :| 0 <= k < |all| && all[k] == some[0];
      var rest := all[..k] + all[k + 1..];
      RemoveClaim(s, all, k);
      RestHoldsTail(some, all, k);
      assert PaidOnce(s, some[1..]) && PaidOnce(s, rest);
      HistoryWithin(s, some[1..], rest);
    } else if all == [] {
    } else {
      assert TotalPaid(s, some) == 0;
    }
  }

  lemma RestHoldsTail(some: seq<Claim>, all: seq<Claim>, k: nat)
    requires some != [] && k < |all| && all[k] == some[0]
    requires forall i, j :: 0 <= i < j < |some| ==> some[i] != some[j]
    requires forall c :: c in some ==> c in all
    ensures forall c :: c in some[1..] ==> c in all[..k] + all[k + 1..]
  {
    var rest := all[..k] + all[k + 1..];
    forall c | c in some[1..] ensures c in rest {
      var i :| 0 < i < |some| && some[i] == c;
      assert c != some[0] && c in all;
      var m :| 0 <= m < |all| && all[m] == c;
      assert m != k;
      assert if m < k then rest[m] == c else rest[m - 1] == c;
    }
  }

  lemma {:induction false} TotalPaidConcat(s: Settlement, xs: seq<Claim>, ys: seq<Claim>)
    requires forall i :: 0 <= i < |xs| ==> Claimable(s, xs[i])
    requires forall i :: 0 <= i < |ys| ==> Claimable(s, ys[i])
    ensures TotalPaid(s, xs + ys) == TotalPaid(s, xs) + TotalPaid(s, ys)
  {
    if xs == [] {
      assert xs + ys == ys;
    } else {
      assert (xs + ys)[1..] == xs[1..] + ys;
      TotalPaidConcat(s, xs[1..], ys);
    }
  }

  /** A member's stake is at most its cohort total, so every cast of its payout is lossless. */
  lemma {:induction false} MemberAtMostSum(stakes: seq<nat>, i: nat)
    requires i < |stakes|
    ensures stakes[i] <= Sum(stakes)
  {
    if i > 0 {
      MemberAtMostSum(stakes[1..], i - 1);
    }
  }

  lemma PayoutIsShare(s: Settlement, c: Claim)
    requires Stamped(s) && Claimable(s, c)
    ensures
      var (p, f) := RewardBuckets(s.pool, s.pw, s.fw, s.totalProposer, s.totalFact);
      match c
      case ProposerClaim(i) => Payout(s, c) == Share(s.proposers[i], p, s.totalProposer)
      case FactClaim(j) => Payout(s, c) == Share(s.facts[j], f, s.totalFact)
  {
    var (p, f) := RewardBuckets(s.pool, s.pw, s.fw, s.totalProposer, s.totalFact);
    match c
    case ProposerClaim(i) =>
      MemberAtMostSum(s.proposers, i);
      ShareFits(s.proposers[i], p, s.totalProposer);
    case FactClaim(j) =>
      MemberAtMostSum(s.facts, j);
      ShareFits(s.facts[j], f, s.totalFact);
  }

  lemma {:induction false} ProposersPaid(s: Settlement, from: nat)
    requires Stamped(s) && from <= |s.proposers|
    ensures
      var (p, f) := RewardBuckets(s.pool, s.pw, s.fw, s.totalProposer, s.totalFact);
      TotalPaid(s, AllClaims(s)[from..|s.proposers|]) == Shares(s.proposers[from..], p, s.totalProposer)
    decreases |s.proposers| - from
  {
    if from < |s.proposers| {
      ProposersPaid(s, from + 1);
      PayoutIsShare(s, ProposerClaim(from));
      var cs := AllClaims(s)[from..|s.proposers|];
      assert cs[1..] == AllClaims(s)[from + 1..|s.proposers|];
      assert s.proposers[from..][1..] == s.proposers[from + 1..];
    }
  }

  lemma {:induction false} FactsPaid(s: Settlement, from: nat)
    requires Stamped(s) && from <= |s.facts|
    ensures
      var (p, f) := RewardBuckets(s.pool, s.pw, s.fw, s.totalProposer, s.totalFact);
      TotalPaid(s, AllClaims(s)[|s.proposers| + from..]) == Shares(s.facts[from..], f, s.totalFact)
    decreases |s.facts| - from
  {
    if from < |s.facts| {
      FactsPaid(s, from + 1);
      PayoutIsShare(s, FactClaim(from));
      var cs := AllClaims(s)[|s.proposers| + from..];
      assert cs[1..] == AllClaims(s)[|s.proposers| + (from + 1)..];
      assert s.facts[from..][1..] == s.facts[from + 1..];
    }
  }

  /** The claims of both cohorts together pay the two cohort sums. */
  lemma AllClaimsPaid(s: Settlement)
    requires Stamped(s)
    ensures PaidOnce(s, AllClaims(s))
    ensures
      var (p, f) := RewardBuckets(s.pool, s.pw, s.fw, s.totalProposer, s.totalFact);
      TotalPaid(s, AllClaims(s)) == Shares(s.proposers, p, s.totalProposer) + Shares(s.facts, f, s.totalFact)
  {
    var all, n := AllClaims(s), |s.proposers|;
    assert all == all[..n] + all[n..];
    TotalPaidConcat(s, all[..n], all[n..]);
    ProposersPaid(s, 0);
    FactsPaid(s, 0);
    assert s.proposers[0..] == s.proposers && s.facts[0..] == s.facts;
  }

  /** The most that flooring can leave unpaid once everyone has claimed. */
  function DustBound(s: Settlement): int {
    if s.totalProposer > 0 && s.totalFact > 0 then |s.proposers| + |s.facts| - 1
    else if s.totalProposer > 0 then |s.proposers| - 1
    else if s.totalFact > 0 then |s.facts| - 1
    else s.pool
  }

  /**
    Conservation: claims paid once each, in any order and whether or not everyone has claimed yet, never exceed the
    pool; and once everyone has claimed, what stays behind is at most the dust bound.
   */
  lemma ClaimsConservePool(s: Settlement, claims: seq<Claim>)
    requires Stamped(s) && PaidOnce(s, claims)
    ensures TotalPaid(s, claims) <= s.pool
    ensures |claims| == |s.proposers| + |s.facts| ==> s.pool - TotalPaid(s, claims) <= DustBound(s)
  {
    var all := AllClaims(s);
    AllClaimsPaid(s);
    forall c | c in claims ensures c in all {
      match c
      case ProposerClaim(i) => assert all[i] == c;
      case FactClaim(j) => assert all[|s.proposers| + j] == c;
    }
    HistoryWithin(s, claims, all);
    BucketsFit(s.pool, s.pw, s.fw, s.totalProposer, s.totalFact);
    var (p, f) := RewardBuckets(s.pool, s.pw, s.fw, s.totalProposer, s.totalFact);
    CohortPaid(s.proposers, p, s.totalProposer);
    CohortPaid(s.facts, f, s.totalFact);
  }

  // ---- the dust bound is attained ----

  lemma {:induction false} OnesPaidNothing(n: nat, bucket: nat, total: nat)
    requires bucket < total
    ensures Shares(seq(n, _ => 1), bucket, total) == 0
    ensures Sum(seq(n, _ => 1)) == n
  {
    var ones := seq(n, _ => 1);
    if n > 0 {
      assert ones[1..] == seq(n - 1, _ => 1);
      OnesPaidNothing(n - 1, bucket, total);
      assert Share(1, bucket, total) == bucket / total;
      DivBelow(bucket, total, 1);
      DivAtLeast(bucket, total, 0);
    }
  }

  /** A product divided by one of its factors doubled. */
  lemma HalfOfOdd(k: nat, w: nat, d: nat, n: nat)
    requires d == 2 * k > 0 && w == 2 * n - 1
    ensures k * w / d == n - 1
  {
    MulAssoc(2, n, k);
    MulAdd(2 * n, -1, k);
    assert k * w == 2 * (n * k) - k;
    MulAdd(n, -1, d);
    assert n * d == 2 * (n * k) by { MulAssoc(2, k, n); }
    FloorIs(k * w, d, n - 1);
  }

  /** Weights one less than twice each cohort's size split `n + m - 1` units into one less than each size. */
  lemma BucketsOfUnits(pool: u64, pw: u64, fw: u64, n: u64, m: u64)
    requires n > 0 && m > 0 && pw == 2 * n - 1 && fw == 2 * m - 1 && pool == n + m - 1
    ensures RewardBuckets(pool, pw, fw, n, m) == (n - 1, m - 1)
  {
    var d := pw + fw;
    HalfOfOdd(pool, pw, d, n);
    HalfOfOdd(pool, fw, d, m);
    CastFits(pool * pw / d);
    CastFits(pool * fw / d);
    assert RewardBuckets(pool, pw, fw, n, m) == (AsU64(pool * pw / d), AsU64(pool * fw / d));
  }

  /** Unit stakes are paid nothing out of buckets smaller than their number. */
  lemma UnitsPaidNothing(s: Settlement, n: nat, m: nat)
    requires s.totalProposer == n && s.totalFact == m && s.proposers == seq(n, _ => 1) && s.facts == seq(m, _ => 1)
    requires RewardBuckets(s.pool, s.pw, s.fw, n, m).0 < n && RewardBuckets(s.pool, s.pw, s.fw, n, m).1 < m
    ensures Stamped(s) && PaidOnce(s, AllClaims(s)) && TotalPaid(s, AllClaims(s)) == 0
  {
    OnesPaidNothing(n, RewardBuckets(s.pool, s.pw, s.fw, n, m).0, n);
    OnesPaidNothing(m, RewardBuckets(s.pool, s.pw, s.fw, n, m).1, m);
    AllClaimsPaid(s);
  }

  /** For every two cohort sizes there is a settlement that leaves the full `n + m - 1` units behind. */
  lemma DustBoundAttained(n: nat, m: nat)
    requires 0 < n < 0x4000_0000_0000_0000 && 0 < m < 0x4000_0000_0000_0000
    ensures
      var s := Settlement(n + m - 1, 2 * n - 1, 2 * m - 1, n, m, seq(n, _ => 1), seq(m, _ => 1));
      Stamped(s) && PaidOnce(s, AllClaims(s)) && s.pool - TotalPaid(s, AllClaims(s)) == DustBound(s) == n + m - 1
  {
    BucketsOfUnits(n + m - 1, 2 * n - 1, 2 * m - 1, n, m);
    UnitsPaidNothing(Settlement(n + m - 1, 2 * n - 1, 2 * m - 1, n, m, seq(n, _ => 1), seq(m, _ => 1)), n, m);
  }

  /** A single cohort, of either kind, can leave its full `n - 1` units behind. */
  lemma SingleCohortDustAttained(n: nat, pw: u64, fw: u64)
    requires 0 < n < 0x4000_0000_0000_0000
    ensures
      var p := Settlement(n - 1, pw, fw, n, 0, seq(n, _ => 1), []);
      Stamped(p) && PaidOnce(p, AllClaims(p)) && p.pool - TotalPaid(p, AllClaims(p)) == DustBound(p) == n - 1
    ensures
      var f := Settlement(n - 1, pw, fw, 0, n, [], seq(n, _ => 1));
      Stamped(f) && PaidOnce(f, AllClaims(f)) && f.pool - TotalPaid(f, AllClaims(f)) == DustBound(f) == n - 1
  {
    OnesPaidNothing(n, n - 1, n);
    AllClaimsPaid(Settlement(n - 1, pw, fw, n, 0, seq(n, _ => 1), []));
    AllClaimsPaid(Settlement(n - 1, pw, fw, 0, n, [], seq(n, _ => 1)));
  }
}
