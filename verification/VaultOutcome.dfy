/**
  The stake vault once the oracle is decided: what everyone is owed, that claims in any order are always paid, and what
  stays behind (`programs/oracles/src/processor/claims/`, `finalize_oracle.rs`, `resolve_deadend.rs`).
 */
module VaultOutcome {
  import opened Arith
  import opened Options
  import opened Totals
  import opened StakeVault
  import opened VaultSolvency
  import Plurality
  import Reward

  // ---- what is owed ----

  ghost function ProposerDue(o: Oracle, c: Config): Proposer -> int {
    (p: Proposer) => Base(p) + ProposerReward(o, c, p)
  }

  ghost function FactDue(o: Oracle, c: Config): Fact -> int {
    (f: Fact) => FactEntitlement(o, c, f)
  }

  ghost function VoteDue(o: Oracle, c: Config, facts: map<Address, Fact>): Vote -> int
    requires Admitted(c)
  {
    (v: Vote) => VoteEntitlement(o, c, facts, v)
  }

  /** The sum of what the accounts that have not claimed yet are entitled to. */
  ghost function Owed(st: State): int
    requires Admitted(st.config)
  {
    Total(st.proposers, ProposerDue(st.oracle, st.config)) + Total(st.facts, FactDue(st.oracle, st.config))
    + Total(st.votes, VoteDue(st.oracle, st.config, st.facts))
  }

  /** What the vault holds beyond that and beyond gifts. */
  ghost function Slack(st: State): int
    requires Admitted(st.config)
  {
    st.vault - st.donated - Owed(st)
  }

  // ---- principal and rewards ----

  function FactKept(f: Fact): int {
    if Rejected(f) then 0 else f.stake
  }

  function RejectedStake(f: Fact): int {
    if Rejected(f) then f.stake else 0
  }

  ghost function VoteKept(c: Config, facts: map<Address, Fact>): Vote -> int
    requires Admitted(c)
  {
    (v: Vote) => v.stake - VoteCut(c, facts)(v)
  }

  /** The stakes and bonds that were not slashed. */
  ghost function Principal(st: State): int
    requires Admitted(st.config)
  {
    Total(st.proposers, Base) + Total(st.facts, FactKept) + Total(st.votes, VoteKept(st.config, st.facts))
  }

  ghost function RewardOf(o: Oracle, c: Config): Proposer -> int {
    (p: Proposer) => ProposerReward(o, c, p)
  }

  ghost function FactRewardOf(o: Oracle, c: Config): Fact -> int {
    (f: Fact) => if f.agreed then FactShare(o, c, f.stake) else 0
  }

  ghost function VoteRewardOf(o: Oracle, c: Config, facts: map<Address, Fact>): Vote -> int {
    (v: Vote) => if OnAgreed(facts, v) then FactShare(o, c, v.stake) else 0
  }

  ghost function Rewards(st: State): int {
    Total(st.proposers, RewardOf(st.oracle, st.config)) + Total(st.facts, FactRewardOf(st.oracle, st.config))
    + Total(st.votes, VoteRewardOf(st.oracle, st.config, st.facts))
  }

  lemma SlashWithinStake(c: Config, stake: u64)
    requires Admitted(c)
    ensures 0 <= VoteSlash(c, stake) <= stake
    ensures VoteSlash(c, 0) == 0
  {
    MulMono(c.voteSlashNum, c.voteSlashDen, stake);
    MulMono(0, c.voteSlashNum, stake);
    MulAdd(stake, 1, c.voteSlashDen);
    DivBelow(stake * c.voteSlashNum + (c.voteSlashDen - 1), c.voteSlashDen, stake + 1);
    DivAtLeast(stake * c.voteSlashNum + (c.voteSlashDen - 1), c.voteSlashDen, 0);
    DivBelow(c.voteSlashDen - 1, c.voteSlashDen, 1);
    assert 0 * c.voteSlashNum == 0;
  }

  ghost predicate AllSettled(st: State) {
    && (forall k :: k in st.facts ==> st.facts[k].settled && !(st.facts[k].agreed && st.facts[k].duplicate))
    && forall v :: v in st.votes ==> st.votes[v].fact in st.facts
  }

  /** Everyone is owed the principal and the reward of the account. */
  lemma OwedIsPrincipalAndRewards(st: State)
    requires Admitted(st.config) && AllSettled(st)
    ensures Owed(st) == Principal(st) + Rewards(st)
  {
    var o, c, facts := st.oracle, st.config, st.facts;
    TotalSplits(st.proposers, ProposerDue(o, c), Base, RewardOf(o, c));
    TotalSplits(facts, FactDue(o, c), FactKept, FactRewardOf(o, c));
    forall v | v in st.votes
      ensures VoteDue(o, c, facts)(st.votes[v])
              == VoteKept(c, facts)(st.votes[v]) + VoteRewardOf(o, c, facts)(st.votes[v])
    {
      var vote := st.votes[v];
      SlashWithinStake(c, vote.stake);
      assert facts[vote.fact].settled;
      assert VoteCut(c, facts)(vote) == if OnRejected(facts, vote) then VoteSlash(c, vote.stake) else 0;
    }
    TotalSplits(st.votes, VoteDue(o, c, facts), VoteKept(c, facts), VoteRewardOf(o, c, facts));
  }

  /** With every market settled the vault holds the emission, the pool, the principal, gifts, and what rounding left. */
  lemma VaultByPart(st: State)
    requires Running(st) && st.oracle.openChallengeCount == 0
    ensures
      st.vault == st.oracle.rewardEmission + st.oracle.bondPool + Principal(st)
                  + Rounding(st.config, st.facts, st.votes) + st.donated
  {
    var c, facts := st.config, st.facts;
    forall k | k in st.proposers ensures InVault(st.proposers[k]) == Base(st.proposers[k]) + SlashOf(st.proposers[k]) {
      NoneOpen(st.proposers, k);
    }
    TotalSplits(st.proposers, InVault, Base, SlashOf);
    TotalSplits(facts, FactStake, FactKept, RejectedStake);
    TotalSplits(facts, Forfeited(c), RejectedStake, PoolCut(c));
    TotalSplits(st.votes, VoteStake, VoteKept(c, facts), VoteCut(c, facts));
  }

  lemma NoneOpen(ps: map<Address, Proposer>, k: Address)
    requires Total(ps, IsOpen) == 0 && k in ps
    ensures !ps[k].market.OpenMarket?
  {
    MemberAtMostTotal(ps, k, IsOpen);
  }

  // ---- rewards stay within the pool ----

  ghost function CorrectStake(o: Oracle): Proposer -> int {
    (p: Proposer) => if !p.disqualified && BackedOutcome(o, p) then p.bond else 0
  }

  ghost function IsCorrect(o: Oracle): Proposer -> int {
    (p: Proposer) => if !p.disqualified && BackedOutcome(o, p) then 1 else 0
  }

  function IsAgreedFact(f: Fact): int {
    if f.agreed then 1 else 0
  }

  ghost function IsAgreedVote(facts: map<Address, Fact>): Vote -> int {
    (v: Vote) => if OnAgreed(facts, v) then 1 else 0
  }

  lemma ShareBounds(stake: u64, bucket: u64, total: u64)
    requires total > 0
    ensures 0 <= total * Reward.CohortReward(stake, bucket, total) <= bucket * stake
    ensures stake <= total ==> bucket * stake <= total * Reward.CohortReward(stake, bucket, total) + (total - 1)
  {
    var x := stake * bucket;
    MulMono(0, stake, bucket);
    DivBounds(x, total);
    DivAtLeast(x, total, 0);
    var r := Reward.CohortReward(stake, bucket, total);
    assert 0 <= r <= x / total;
    MulMono(r, x / total, total);
    MulMono(0, r, total);
    if stake <= total {
      Reward.ShareFits(stake, bucket, total);
    }
  }

  /** From sums of scaled shares to the shares: the cohort is paid at most its bucket, and all but a unit a member. */
  lemma PaidFromBucket(paid: int, bucket: nat, total: nat, count: nat)
    requires total > 0 && bucket * total <= total * paid + (total - 1) * count && total * paid <= bucket * total
    ensures bucket - count <= paid <= bucket
  {
    if paid > bucket {
      MulMono(bucket + 1, paid, total);
    }
    if paid < bucket - count {
      MulMono(paid + count + 1, bucket, total);
      MulAdd(paid, count + 1, total);
    }
  }

  /** What a cohort is paid, against its bucket. */
  ghost predicate PaidWithin(paid: int, bucket: int, total: int, count: int) {
    && 0 <= paid <= bucket
    && (total > 0 ==> bucket - count <= paid)
  }

  lemma ProposersPaid(ps: map<Address, Proposer>, o: Oracle, c: Config)
    requires o.phase == Resolved && o.totalCorrectProposerStake == Total(ps, CorrectStake(o))
    ensures
      PaidWithin(
        Total(ps, RewardOf(o, c)), Buckets(o, c).0, o.totalCorrectProposerStake, Total(ps, IsCorrect(o)))
  {
    var bucket, total := Buckets(o, c).0, o.totalCorrectProposerStake;
    TotalAtLeastZero(ps, IsCorrect(o));
    TotalAtLeastZero(ps, RewardOf(o, c));
    if total == 0 {
      TotalZero(ps, RewardOf(o, c));
    } else {
      forall k | k in ps
        ensures total * RewardOf(o, c)(ps[k]) <= bucket * CorrectStake(o)(ps[k]) + 0 * IsCorrect(o)(ps[k])
        ensures bucket * CorrectStake(o)(ps[k]) <= total * RewardOf(o, c)(ps[k]) + (total - 1) * IsCorrect(o)(ps[k])
      {
        MemberAtMostTotal(ps, k, CorrectStake(o));
        ShareBounds(ps[k].bond, bucket, total);
      }
      TotalBound(ps, RewardOf(o, c), CorrectStake(o), IsCorrect(o), total, bucket, 0);
      TotalBound(ps, CorrectStake(o), RewardOf(o, c), IsCorrect(o), bucket, total, total - 1);
      PaidFromBucket(Total(ps, RewardOf(o, c)), bucket, total, Total(ps, IsCorrect(o)));
    }
  }

  lemma FactCohortPaid(st: State)
    requires st.oracle.phase == Resolved
    requires ApprovedIsCohort(st.oracle.totalApprovedFactStake, st.facts, st.votes)
    ensures
      PaidWithin(
        Total(st.facts, FactRewardOf(st.oracle, st.config))
        + Total(st.votes, VoteRewardOf(st.oracle, st.config, st.facts)),
        Buckets(st.oracle, st.config).1, st.oracle.totalApprovedFactStake,
        Total(st.facts, IsAgreedFact) + Total(st.votes, IsAgreedVote(st.facts)))
  {
    var o, c, facts := st.oracle, st.config, st.facts;
    var bucket, total := Buckets(o, c).1, o.totalApprovedFactStake;
    TotalAtLeastZero(facts, IsAgreedFact);
    TotalAtLeastZero(facts, AgreedStake);
    TotalAtLeastZero(facts, FactRewardOf(o, c));
    TotalAtLeastZero(st.votes, IsAgreedVote(facts));
    TotalAtLeastZero(st.votes, AgreedVote(facts));
    TotalAtLeastZero(st.votes, VoteRewardOf(o, c, facts));
    if total == 0 {
      TotalZero(facts, FactRewardOf(o, c));
      TotalZero(st.votes, VoteRewardOf(o, c, facts));
    } else {
      FactShares(facts, o, c, bucket, total);
      VoteShares(facts, st.votes, o, c, bucket, total);
      TwoCohortsPaid(
        Total(facts, FactRewardOf(o, c)), Total(facts, AgreedStake), Total(facts, IsAgreedFact),
        Total(st.votes, VoteRewardOf(o, c, facts)), Total(st.votes, AgreedVote(facts)),
        Total(st.votes, IsAgreedVote(facts)), bucket, total);
    }
  }

  /** Submitters and voters together, each group with what it is paid, its stake and its number. */
  lemma TwoCohortsPaid(p1: int, s1: int, n1: nat, p2: int, s2: int, n2: nat, bucket: nat, total: nat)
    requires total > 0 && s1 + s2 == total
    requires total * p1 <= bucket * s1 <= total * p1 + (total - 1) * n1
    requires total * p2 <= bucket * s2 <= total * p2 + (total - 1) * n2
    ensures bucket - (n1 + n2) <= p1 + p2 <= bucket
  {
    Scaled(total, p1, p2);
    Scaled(bucket, s1, s2);
    Scaled(total - 1, n1, n2);
    PaidFromBucket(p1 + p2, bucket, total, n1 + n2);
  }

  lemma FactShares(facts: map<Address, Fact>, o: Oracle, c: Config, bucket: u64, total: u64)
    requires o.phase == Resolved && bucket == Buckets(o, c).1 && total == o.totalApprovedFactStake > 0
    requires Total(facts, AgreedStake) <= total
    ensures total * Total(facts, FactRewardOf(o, c)) <= bucket * Total(facts, AgreedStake)
    ensures
      bucket * Total(facts, AgreedStake)
      <= total * Total(facts, FactRewardOf(o, c)) + (total - 1) * Total(facts, IsAgreedFact)
  {
    forall k | k in facts
      ensures total * FactRewardOf(o, c)(facts[k]) <= bucket * AgreedStake(facts[k]) + 0 * IsAgreedFact(facts[k])
      ensures
        bucket * AgreedStake(facts[k]) <= total * FactRewardOf(o, c)(facts[k]) + (total - 1) * IsAgreedFact(facts[k])
    {
      MemberAtMostTotal(facts, k, AgreedStake);
      ShareBounds(facts[k].stake, bucket, total);
    }
    TotalBound(facts, FactRewardOf(o, c), AgreedStake, IsAgreedFact, total, bucket, 0);
    TotalBound(facts, AgreedStake, FactRewardOf(o, c), IsAgreedFact, bucket, total, total - 1);
  }

  lemma VoteShares(
    facts: map<Address, Fact>, votes: map<Address, Vote>, o: Oracle, c: Config, bucket: u64, total: u64)
    requires o.phase == Resolved && bucket == Buckets(o, c).1 && total == o.totalApprovedFactStake > 0
    requires Total(votes, AgreedVote(facts)) <= total
    ensures total * Total(votes, VoteRewardOf(o, c, facts)) <= bucket * Total(votes, AgreedVote(facts))
    ensures
      bucket * Total(votes, AgreedVote(facts))
      <= total * Total(votes, VoteRewardOf(o, c, facts)) + (total - 1) * Total(votes, IsAgreedVote(facts))
  {
    var paid, stake, one := VoteRewardOf(o, c, facts), AgreedVote(facts), IsAgreedVote(facts);
    forall v | v in votes
      ensures total * paid(votes[v]) <= bucket * stake(votes[v]) + 0 * one(votes[v])
      ensures bucket * stake(votes[v]) <= total * paid(votes[v]) + (total - 1) * one(votes[v])
    {
      MemberAtMostTotal(votes, v, stake);
      ShareBounds(votes[v].stake, bucket, total);
    }
    TotalBound(votes, paid, stake, one, total, bucket, 0);
    TotalBound(votes, stake, paid, one, bucket, total, total - 1);
  }

  /** The number of accounts that share in the rewards. */
  ghost function Rewarded(st: State): int {
    Total(st.proposers, IsCorrect(st.oracle)) + Total(st.facts, IsAgreedFact) + Total(st.votes, IsAgreedVote(st.facts))
  }

  lemma RewardsWithinPool(st: State)
    requires st.oracle.phase == Resolved
    requires st.oracle.totalCorrectProposerStake == Total(st.proposers, CorrectStake(st.oracle))
    requires ApprovedIsCohort(st.oracle.totalApprovedFactStake, st.facts, st.votes)
    ensures Rewards(st) <= st.oracle.rewardPool
    ensures
      st.oracle.totalCorrectProposerStake > 0 || st.oracle.totalApprovedFactStake > 0 ==>
        st.oracle.rewardPool - Rewards(st) <= Rewarded(st) + 1
  {
    var o, c := st.oracle, st.config;
    ProposersPaid(st.proposers, o, c);
    FactCohortPaid(st);
    TotalAtLeastZero(st.proposers, IsCorrect(o));
    TotalAtLeastZero(st.facts, IsAgreedFact);
    TotalAtLeastZero(st.votes, IsAgreedVote(st.facts));
    Reward.BucketsFit(
      o.rewardPool, c.proposerWeight, c.factWeight, o.totalCorrectProposerStake, o.totalApprovedFactStake);
  }
}
