/** The stake vault over whole runs: the outcome, claims in any order, and the DAO's resolution of a dead end. */
module VaultRuns {
  import opened Arith
  import opened Options
  import opened Totals
  import opened StakeVault
  import opened VaultSolvency
  import opened VaultOutcome
  import Plurality
  import Reward

  // ---- the outcome ----

  /** The accounts and gifts are the same; only the oracle and the vault may differ. */
  ghost predicate SameAccounts(st: State, st': State) {
    && st'.config == st.config && st'.proposers == st.proposers && st'.facts == st.facts && st'.votes == st.votes
    && st'.donated == st.donated
  }

  /** The oracle is decided: the vault can pay everyone, and every vote with a stake still has its fact. */
  ghost predicate Decided(st: State) {
    && Admitted(st.config) && Terminal(st.oracle) && Slack(st) >= 0
    && TalliesMatch(st.facts, st.votes)
    && (forall v :: v in st.votes ==> st.votes[v].fact in st.facts || st.votes[v].stake == 0)
    && (st.oracle.phase == InvalidDeadend ==> st.oracle.rewardPool == 0)
  }

  ghost predicate FactsAreSettled(st: State) {
    (forall k :: k in st.facts ==> st.facts[k].settled) && st.oracle.openChallengeCount == 0
  }

  /** On a dead end the pool and the emission are burned: what stays is the principal, gifts, and what rounding left. */
  lemma DeadEndHolds(st: State, st': State)
    requires Running(st) && FactsAreSettled(st) && SameAccounts(st, st') && st'.oracle.phase == InvalidDeadend
    requires st'.oracle.rewardPool == 0
    requires st'.vault == st.vault - (st.oracle.bondPool + st.oracle.rewardEmission)
    ensures Decided(st') && Owed(st') == Principal(st')
    ensures Slack(st') == Rounding(st.config, st.facts, st.votes)
  {
    VaultByPart(st);
    OwedIsPrincipalAndRewards(st');
    TotalZero(st'.proposers, RewardOf(st'.oracle, st'.config));
    TotalZero(st'.facts, FactRewardOf(st'.oracle, st'.config));
    TotalZero(st'.votes, VoteRewardOf(st'.oracle, st'.config, st'.facts));
  }

  /** On a resolution the pool stays for the rewards, and covers them. */
  lemma ResolutionHolds(st: State, st': State)
    requires Running(st) && FactsAreSettled(st) && SameAccounts(st, st') && st'.oracle.phase == Resolved
    requires st'.vault == st.vault && st'.oracle.rewardPool == st.oracle.bondPool + st.oracle.rewardEmission
    requires st'.oracle.totalApprovedFactStake == st.oracle.totalApprovedFactStake
    requires st'.oracle.totalCorrectProposerStake == Total(st'.proposers, CorrectStake(st'.oracle))
    ensures Decided(st') && Owed(st') == Principal(st') + Rewards(st')
    ensures Slack(st') == Rounding(st.config, st.facts, st.votes) + (st'.oracle.rewardPool - Rewards(st'))
    ensures Rewards(st') <= st'.oracle.rewardPool
    ensures
      st'.oracle.totalCorrectProposerStake > 0 || st'.oracle.totalApprovedFactStake > 0 ==>
        st'.oracle.rewardPool - Rewards(st') <= Rewarded(st') + 1
  {
    VaultByPart(st);
    OwedIsPrincipalAndRewards(st');
    RewardsWithinPool(st');
  }

  lemma AgreementResolves(st: State, st': State)
    requires Running(st) && FinalizeProposals(st) == Some(st') && st'.oracle.phase == Resolved
    ensures FactsAreSettled(st) && SameAccounts(st, st') && st'.vault == st.vault
    ensures st'.oracle.rewardPool == st.oracle.bondPool + st.oracle.rewardEmission
    ensures st'.oracle.totalApprovedFactStake == st.oracle.totalApprovedFactStake
    ensures st'.oracle.totalCorrectProposerStake == Total(st'.proposers, CorrectStake(st'.oracle))
  {
    TotalZero(st.proposers, IsOpen);
    TotalSame(st.proposers, BondOf, CorrectStake(st'.oracle));
  }

  lemma WinnerResolves(st: State, tail: seq<Address>, r: Plurality.Outcome, st': State)
    requires Running(st) && FinalizeOracle(st, tail, r) == Some(st') && st'.oracle.phase == Resolved
    ensures FactsAreSettled(st) && SameAccounts(st, st') && st'.vault == st.vault
    ensures st'.oracle.rewardPool == st.oracle.bondPool + st.oracle.rewardEmission
    ensures st'.oracle.totalApprovedFactStake == st.oracle.totalApprovedFactStake
    ensures st'.oracle.totalCorrectProposerStake == Total(st'.proposers, CorrectStake(st'.oracle))
  {
    TotalSame(st.proposers, CorrectBond(r.option), CorrectStake(st'.oracle));
  }

  lemma NoWinnerEnds(st: State, tail: seq<Address>, r: Plurality.Outcome, st': State)
    requires Running(st) && FinalizeOracle(st, tail, r) == Some(st') && st'.oracle.phase != Resolved
    ensures FactsAreSettled(st) && SameAccounts(st, st') && st'.oracle.phase == InvalidDeadend
    ensures st'.oracle.rewardPool == 0 && st'.vault == st.vault - (st.oracle.bondPool + st.oracle.rewardEmission)
  {
  }

  // ---- a dispute without facts ----

  /** The proposer slashed, before the oracle is found to have none left. */
  ghost function Slashed(st: State, k: Address): State
    requires k in st.proposers
  {
    var p := st.proposers[k];
    st.(
      proposers := st.proposers[k := p.(disqualified := true, slashed := true, slashedAmount := p.bond)],
      oracle := st.oracle.(
        bondPool := AsU64(st.oracle.bondPool + p.bond),
        survivingCount := if st.oracle.survivingCount > 0 then st.oracle.survivingCount - 1 else 0))
  }

  lemma SlashedProposer(st: State, k: Address, st': State)
    requires Admitted(st.config) && SlashNoFacts(st, k) == Some(st') && PhaseOk(st)
    requires ProposerOk(st.proposers[k]) && FactsCounted(st.oracle, st.facts)
    ensures
      var mid := Slashed(st, k);
      && st' == BurnedWhenNoneSurvive(mid) && ChangesProposer(st, k, mid.proposers[k], mid) && mid.vault == st.vault
      && PhaseOk(mid) && !Terminal(mid.oracle) && ProposerOk(mid.proposers[k]) && mid.facts == map[]
      && mid.oracle.openChallengeCount == st.oracle.openChallengeCount
      && mid.oracle.bondPool - st.oracle.bondPool == SlashOf(mid.proposers[k]) - SlashOf(st.proposers[k])
    ensures forall j :: j in st.proposers ==> !st.proposers[j].market.OpenMarket?
    ensures !st.proposers[k].disqualified
  {
    CastFits(st.oracle.bondPool + st.proposers[k].bond);
    assert |st.facts| == 0;
  }

  lemma SlashKeeps(st: State, k: Address, st': State)
    requires Running(st) && SlashNoFacts(st, k) == Some(st')
    ensures Running(Slashed(st, k)) && FactsAreSettled(Slashed(st, k))
    ensures st' == BurnedWhenNoneSurvive(Slashed(st, k))
  {
    SlashedProposer(st, k, st');
    ProposerChangeKeeps(st, k, Slashed(st, k).proposers[k], Slashed(st, k));
    TotalZero(st.proposers, IsOpen);
  }

  lemma SlashNoFactsKeeps(st: State, k: Address, st': State)
    requires Running(st) && SlashNoFacts(st, k) == Some(st')
    ensures st'.oracle.phase == InvalidDeadend ==> Decided(st')
    ensures st'.oracle.phase != InvalidDeadend ==> Running(st')
  {
    SlashKeeps(st, k, st');
    if st'.oracle.phase == InvalidDeadend {
      DeadEndHolds(Slashed(st, k), st');
    }
  }

  // ---- claims ----

  lemma ClaimProposerKeeps(st: State, k: Address, st': State)
    requires Decided(st) && ClaimProposer(st, k) == Some(st')
    ensures Decided(st') && Slack(st') == Slack(st)
  {
    TotalWithout(st.proposers, k, ProposerDue(st.oracle, st.config));
  }

  /** An outstanding vote of a fact without tallies has no stake. */
  lemma NoTallyNoStake(st: State, k: Address, v: Address)
    requires TalliesMatch(st.facts, st.votes) && k in st.facts && v in st.votes && st.votes[v].fact == k
    requires st.facts[k].approveStake == 0 && st.facts[k].duplicateStake == 0
    ensures st.votes[v].stake == 0
  {
    MemberAtMostTotal(st.votes, v, StakeOn(k, st.votes[v].approve));
  }

  lemma NothingOnNothing(o: Oracle, c: Config, facts: map<Address, Fact>, v: Vote)
    requires Admitted(c) && v.stake == 0
    ensures VoteEntitlement(o, c, facts, v) == 0
  {
    SlashWithinStake(c, 0);
  }

  /** A closed fact takes nothing from the votes that are left. */
  lemma ClosedFactOwesNothing(st: State, k: Address)
    requires Admitted(st.config) && TalliesMatch(st.facts, st.votes) && k in st.facts
    requires st.facts[k].approveStake == 0 && st.facts[k].duplicateStake == 0
    ensures
      Total(st.votes, VoteDue(st.oracle, st.config, st.facts - {k}))
      == Total(st.votes, VoteDue(st.oracle, st.config, st.facts))
  {
    var o, c, left := st.oracle, st.config, st.facts - {k};
    forall v | v in st.votes ensures VoteDue(o, c, st.facts)(st.votes[v]) == VoteDue(o, c, left)(st.votes[v]) {
      if st.votes[v].fact == k {
        NoTallyNoStake(st, k, v);
        NothingOnNothing(o, c, st.facts, st.votes[v]);
      }
    }
    TotalSame(st.votes, VoteDue(o, c, st.facts), VoteDue(o, c, left));
  }

  lemma ClosedFactLeavesVotes(st: State, k: Address)
    requires TalliesMatch(st.facts, st.votes) && k in st.facts
    requires st.facts[k].approveStake == 0 && st.facts[k].duplicateStake == 0
    requires forall v :: v in st.votes ==> st.votes[v].fact in st.facts || st.votes[v].stake == 0
    ensures TalliesMatch(st.facts - {k}, st.votes)
    ensures forall v :: v in st.votes ==> st.votes[v].fact in st.facts - {k} || st.votes[v].stake == 0
  {
    forall v | v in st.votes ensures st.votes[v].fact in st.facts - {k} || st.votes[v].stake == 0 {
      if st.votes[v].fact == k {
        NoTallyNoStake(st, k, v);
      }
    }
  }

  lemma ClaimFactKeeps(st: State, k: Address, st': State)
    requires Decided(st) && ClaimFact(st, k) == Some(st')
    ensures Decided(st') && Slack(st') == Slack(st)
  {
    TotalWithout(st.facts, k, FactDue(st.oracle, st.config));
    ClosedFactOwesNothing(st, k);
    ClosedFactLeavesVotes(st, k);
  }

  lemma VoteLeavesTallies(st: State, v: Address)
    requires TalliesMatch(st.facts, st.votes) && v in st.votes && st.votes[v].fact in st.facts
    ensures
      var vote := st.votes[v];
      TalliesMatch(st.facts[vote.fact := Untallied(st.facts[vote.fact], vote)], st.votes - {v})
  {
    var vote := st.votes[v];
    var facts' := st.facts[vote.fact := Untallied(st.facts[vote.fact], vote)];
    forall j | j in facts'
      ensures facts'[j].approveStake == Total(st.votes - {v}, StakeOn(j, true))
              && facts'[j].duplicateStake == Total(st.votes - {v}, StakeOn(j, false))
    {
      TotalWithout(st.votes, v, StakeOn(j, true));
      TotalWithout(st.votes, v, StakeOn(j, false));
      TotalAtLeastZero(st.votes - {v}, StakeOn(j, true));
      TotalAtLeastZero(st.votes - {v}, StakeOn(j, false));
    }
  }

  /** What the others are owed does not depend on the tallies that a claim lowers. */
  lemma ClaimedVoteOwed(st: State, v: Address)
    requires Admitted(st.config) && v in st.votes && st.votes[v].fact in st.facts
    ensures
      var o, c, vote := st.oracle, st.config, st.votes[v];
      var facts := st.facts[vote.fact := Untallied(st.facts[vote.fact], vote)];
      && Total(facts, FactDue(o, c)) == Total(st.facts, FactDue(o, c))
      && Total(st.votes - {v}, VoteDue(o, c, facts))
         == Total(st.votes, VoteDue(o, c, st.facts)) - VoteEntitlement(o, c, st.facts, vote)
  {
    var o, c, vote := st.oracle, st.config, st.votes[v];
    var f := Untallied(st.facts[vote.fact], vote);
    var facts := st.facts[vote.fact := f];
    TotalWith(st.facts, vote.fact, f, FactDue(o, c));
    TotalWithout(st.votes, v, VoteDue(o, c, st.facts));
    TotalSame(st.votes - {v}, VoteDue(o, c, st.facts), VoteDue(o, c, facts));
  }

  lemma ClaimFactVoteKeeps(st: State, v: Address, st': State)
    requires Decided(st) && ClaimFactVote(st, v) == Some(st')
    ensures Decided(st') && Slack(st') == Slack(st)
  {
    VoteLeavesTallies(st, v);
    ClaimedVoteOwed(st, v);
  }

  /** The DAO's resolution of a dead end changes no entitlement. */
  lemma ResolveDeadendKeeps(st: State, option: u8, st': State)
    requires Decided(st) && ResolveDeadend(st, option) == Some(st')
    ensures Decided(st') && Slack(st') == Slack(st) && st'.vault == st.vault
    ensures forall k :: k in st.proposers ==>
      ProposerDue(st'.oracle, st.config)(st.proposers[k]) == ProposerDue(st.oracle, st.config)(st.proposers[k])
    ensures forall k :: k in st.facts ==>
      FactDue(st'.oracle, st.config)(st.facts[k]) == FactDue(st.oracle, st.config)(st.facts[k])
    ensures forall v :: v in st.votes ==>
      VoteDue(st'.oracle, st.config, st.facts)(st.votes[v]) == VoteDue(st.oracle, st.config, st.facts)(st.votes[v])
  {
    var o, o', c := st.oracle, st'.oracle, st.config;
    NoPoolNoReward(o', c);
    TotalSame(st.proposers, ProposerDue(o, c), ProposerDue(o', c));
    TotalSame(st.facts, FactDue(o, c), FactDue(o', c));
    TotalSame(st.votes, VoteDue(o, c, st.facts), VoteDue(o', c, st.facts));
  }

  lemma NoPoolNoReward(o: Oracle, c: Config)
    requires o.rewardPool == 0
    ensures forall p :: ProposerReward(o, c, p) == 0
    ensures forall stake: u64 :: FactShare(o, c, stake) == 0
  {
    Reward.BucketsFit(0, c.proposerWeight, c.factWeight, o.totalCorrectProposerStake, o.totalApprovedFactStake);
    assert Buckets(o, c) == (0, 0);
    forall p ensures ProposerReward(o, c, p) == 0 {
      NothingToShare(p.bond, o.totalCorrectProposerStake);
    }
    forall stake: u64 ensures FactShare(o, c, stake) == 0 {
      NothingToShare(stake, o.totalApprovedFactStake);
    }
  }

  lemma NothingToShare(stake: u64, total: u64)
    ensures Reward.CohortReward(stake, 0, total) == 0
  {
    assert stake * 0 == 0;
    if total > 0 {
      FloorIs(0, total, 0);
    }
  }

  // ---- every step of every run ----

  lemma GiftAndClockKeep(st: State, step: Step, st': State)
    requires Running(st) || Decided(st)
    requires (step.Donate? || step.TimePasses?) && Admitted(st.config) && Apply(st, step) == Some(st')
    ensures Running(st) ==> Running(st')
    ensures Decided(st) ==> Decided(st') && Slack(st') == Slack(st)
  {
  }

  /** A step before the outcome keeps the vault in balance or decides the oracle. */
  lemma RunningStep(st: State, step: Step, st': State)
    requires Running(st) && Apply(st, step) == Some(st')
    ensures Running(st') || Decided(st')
  {
    match step
    case StepPropose(k, option, bond) => ProposeKeeps(st, k, option, bond, st');
    case StepFinalizeProposals => FinalizeProposalsStep(st, st');
    case StepSubmitFact(k, stake) => SubmitFactKeeps(st, k, stake, st');
    case StepAdvancePhase => AdvanceKeeps(st, st');
    case StepVoteFact(v, k, approve, stake) => VoteFactKeeps(st, v, k, approve, stake, st');
    case StepSlashNoFacts(k) => SlashNoFactsKeeps(st, k, st');
    case StepSettleFact(k) => SettleFactKeeps(st, k, st');
    case StepSubmitAiClaim(k, option) => SubmitAiClaimKeeps(st, k, option, st');
    case StepFinalizeAiClaim(k) => FinalizeAiClaimKeeps(st, k, st');
    case StepOpenChallenge(k, price) => OpenChallengeKeeps(st, k, price, st');
    case StepSettleChallenge(k, passTwap, failTwap) => SettleChallengeKeeps(st, k, passTwap, failTwap, st');
    case StepFinalizeOracle(tail, r) => FinalizeOracleStep(st, tail, r, st');
    case Donate(_) => GiftAndClockKeep(st, step, st');
    case TimePasses(_) => GiftAndClockKeep(st, step, st');
    case _ =>
  }

  lemma FinalizeProposalsStep(st: State, st': State)
    requires Running(st) && FinalizeProposals(st) == Some(st')
    ensures Running(st') || Decided(st')
  {
    if st'.oracle.phase == Resolved {
      AgreementResolves(st, st');
      ResolutionHolds(st, st');
    } else {
      ConflictKeeps(st, st');
    }
  }

  lemma FinalizeOracleStep(st: State, tail: seq<Address>, r: Plurality.Outcome, st': State)
    requires Running(st) && FinalizeOracle(st, tail, r) == Some(st')
    ensures Decided(st')
  {
    if st'.oracle.phase == Resolved {
      WinnerResolves(st, tail, r, st');
      ResolutionHolds(st, st');
    } else {
      NoWinnerEnds(st, tail, r, st');
      DeadEndHolds(st, st');
    }
  }

  /** Once decided, claims in any order, gifts and the DAO's resolution leave the slack as it is. */
  lemma DecidedStep(st: State, step: Step, st': State)
    requires Decided(st) && Apply(st, step) == Some(st')
    ensures Decided(st') && Slack(st') == Slack(st)
  {
    match step
    case StepResolveDeadend(option) => ResolveDeadendKeeps(st, option, st');
    case StepClaimProposer(k) => ClaimProposerKeeps(st, k, st');
    case StepClaimFact(k) => ClaimFactKeeps(st, k, st');
    case StepClaimFactVote(v) => ClaimFactVoteKeeps(st, v, st');
    case Donate(_) => GiftAndClockKeep(st, step, st');
    case TimePasses(_) => GiftAndClockKeep(st, step, st');
    case _ =>
  }

  lemma {:induction false} RunKeepsBalance(states: seq<State>, steps: seq<Step>, i: nat)
    requires IsRun(states, steps) && i < |states|
    ensures Running(states[i]) || Decided(states[i])
  {
    if i == 0 {
      CreatedRuns(states[0]);
    } else {
      var k := i - 1;
      RunKeepsBalance(states, steps, k);
      assert Apply(states[k], steps[k]) == Some(states[k + 1]);
      if Running(states[k]) {
        RunningStep(states[k], steps[k], states[k + 1]);
      } else {
        DecidedStep(states[k], steps[k], states[k + 1]);
      }
    }
  }

  // ---- what follows for every run ----

  lemma DuesAreNotNegative(st: State)
    requires Admitted(st.config)
    ensures forall k :: k in st.proposers ==> ProposerDue(st.oracle, st.config)(st.proposers[k]) >= 0
    ensures forall k :: k in st.facts ==> FactDue(st.oracle, st.config)(st.facts[k]) >= 0
    ensures forall v :: v in st.votes ==> VoteDue(st.oracle, st.config, st.facts)(st.votes[v]) >= 0
  {
  }

  lemma RunningCoversGifts(st: State)
    requires Running(st)
    ensures st.vault >= st.donated
  {
    TotalAtLeastZero(st.proposers, InVault);
    TotalAtLeastZero(st.facts, FactStake);
    TotalAtLeastZero(st.votes, VoteStake);
  }

  lemma OwedIsNotNegative(st: State)
    requires Admitted(st.config)
    ensures Owed(st) >= 0
  {
    DuesAreNotNegative(st);
    TotalAtLeastZero(st.proposers, ProposerDue(st.oracle, st.config));
    TotalAtLeastZero(st.facts, FactDue(st.oracle, st.config));
    TotalAtLeastZero(st.votes, VoteDue(st.oracle, st.config, st.facts));
  }

  /**
    In every state of every run the vault holds at least what was given to it from outside. No instruction checks the
    balance here, so no split, fee, burn or payout of the program ever asks for more than there is.
   */
  lemma VaultIsNeverShort(states: seq<State>, steps: seq<Step>, i: nat)
    requires IsRun(states, steps) && i < |states|
    ensures states[i].vault >= states[i].donated
  {
    RunKeepsBalance(states, steps, i);
    if Running(states[i]) {
      RunningCoversGifts(states[i]);
    } else {
      OwedIsNotNegative(states[i]);
    }
  }

  /** Solvency: once the oracle is decided the vault covers everything that is still owed, and so every single claim. */
  lemma EveryClaimIsCovered(states: seq<State>, steps: seq<Step>, i: nat)
    requires IsRun(states, steps) && i < |states| && Terminal(states[i].oracle)
    ensures Admitted(states[i].config)
    ensures
      var st := states[i];
      && st.donated + Owed(st) <= st.vault
      && (forall k :: k in st.proposers ==>
            0 <= ProposerDue(st.oracle, st.config)(st.proposers[k]) <= st.vault && ClaimProposer(st, k).Some?)
      && (forall k :: k in st.facts ==> 0 <= FactDue(st.oracle, st.config)(st.facts[k]) <= st.vault)
      && (forall v :: v in st.votes ==>
            0 <= VoteDue(st.oracle, st.config, st.facts)(st.votes[v]) <= st.vault
            && (ClaimFactVote(st, v).Some? || st.votes[v].stake == 0))
  {
    var st := states[i];
    RunKeepsBalance(states, steps, i);
    OneDueIsCovered(st);
  }

  lemma OneDueIsCovered(st: State)
    requires Decided(st)
    ensures forall k :: k in st.proposers ==> 0 <= ProposerDue(st.oracle, st.config)(st.proposers[k]) <= Owed(st)
    ensures forall k :: k in st.facts ==> 0 <= FactDue(st.oracle, st.config)(st.facts[k]) <= Owed(st)
    ensures forall v :: v in st.votes ==> 0 <= VoteDue(st.oracle, st.config, st.facts)(st.votes[v]) <= Owed(st)
  {
    var ps, fs, vs :=
      ProposerDue(st.oracle, st.config), FactDue(st.oracle, st.config), VoteDue(st.oracle, st.config, st.facts);
    DuesAreNotNegative(st);
    TotalAtLeastZero(st.proposers, ps);
    TotalAtLeastZero(st.facts, fs);
    TotalAtLeastZero(st.votes, vs);
    forall k | k in st.proposers ensures 0 <= ps(st.proposers[k]) <= Owed(st) {
      MemberAtMostTotal(st.proposers, k, ps);
    }
    forall k | k in st.facts ensures 0 <= fs(st.facts[k]) <= Owed(st) {
      MemberAtMostTotal(st.facts, k, fs);
    }
    forall v | v in st.votes ensures 0 <= vs(st.votes[v]) <= Owed(st) {
      MemberAtMostTotal(st.votes, v, vs);
    }
  }

  /**
    A dead end leaves the principal of everyone who was not slashed, and nothing else but gifts and what rounding the
    slashes of single votes left: at most a unit for every approval of a rejected fact.
   */
  lemma DeadEndLeavesPrincipal(states: seq<State>, steps: seq<Step>, i: nat)
    requires IsRun(states, steps) && i < |steps|
    requires !Terminal(states[i].oracle) && states[i + 1].oracle.phase == InvalidDeadend
    ensures Admitted(states[i + 1].config)
    ensures
      var st := states[i + 1];
      && Owed(st) == Principal(st)
      && st.vault == st.donated + Principal(st) + Rounding(st.config, st.facts, st.votes)
      && 0 <= Rounding(st.config, st.facts, st.votes) <= Total(st.votes, RejectedVote(st.facts))
  {
    RunKeepsBalance(states, steps, i);
    assert Apply(states[i], steps[i]) == Some(states[i + 1]);
    DeadEndStep(states[i], steps[i], states[i + 1]);
  }

  /** The outcome is decided by the finalizers only. */
  lemma OnlyFinalizersDecide(st: State, step: Step, st': State)
    requires Admitted(st.config) && Apply(st, step) == Some(st') && !Terminal(st.oracle)
    ensures st'.oracle.phase == InvalidDeadend ==> step.StepSlashNoFacts? || step.StepFinalizeOracle?
    ensures st'.oracle.phase == Resolved ==> step.StepFinalizeProposals? || step.StepFinalizeOracle?
  {
  }

  lemma DeadEndStep(st: State, step: Step, st': State)
    requires Running(st) && Apply(st, step) == Some(st') && st'.oracle.phase == InvalidDeadend
    ensures Decided(st') && Owed(st') == Principal(st')
    ensures st'.config == st.config && st'.facts == st.facts && st'.votes == st.votes
    ensures Slack(st') == Rounding(st'.config, st'.facts, st'.votes)
  {
    OnlyFinalizersDecide(st, step, st');
    if step.StepSlashNoFacts? {
      SlashKeeps(st, step.k, st');
      DeadEndHolds(Slashed(st, step.k), st');
    } else {
      NoWinnerEnds(st, step.tail, step.r, st');
      DeadEndHolds(st, st');
    }
  }

  /**
    A resolution leaves the principal, rewards that the pool covers, and what rounding left. Where someone earns
    rewards, no more than a unit for every rewarded account and one more stays of the pool.
   */
  lemma ResolutionCoversRewards(states: seq<State>, steps: seq<Step>, i: nat)
    requires IsRun(states, steps) && i < |steps|
    requires !Terminal(states[i].oracle) && states[i + 1].oracle.phase == Resolved
    ensures Admitted(states[i + 1].config)
    ensures
      var st := states[i + 1];
      && Owed(st) == Principal(st) + Rewards(st) && Rewards(st) <= st.oracle.rewardPool
      && Slack(st) == Rounding(st.config, st.facts, st.votes) + (st.oracle.rewardPool - Rewards(st))
      && (st.oracle.totalCorrectProposerStake > 0 || st.oracle.totalApprovedFactStake > 0 ==>
            st.oracle.rewardPool - Rewards(st) <= Rewarded(st) + 1)
  {
    RunKeepsBalance(states, steps, i);
    assert Apply(states[i], steps[i]) == Some(states[i + 1]);
    ResolutionStep(states[i], steps[i], states[i + 1]);
  }

  lemma ResolutionStep(st: State, step: Step, st': State)
    requires Running(st) && Apply(st, step) == Some(st') && st'.oracle.phase == Resolved
    ensures Decided(st') && SameAccounts(st, st') && Owed(st') == Principal(st') + Rewards(st')
    ensures Slack(st') == Rounding(st.config, st.facts, st.votes) + (st'.oracle.rewardPool - Rewards(st'))
    ensures Rewards(st') <= st'.oracle.rewardPool
    ensures
      st'.oracle.totalCorrectProposerStake > 0 || st'.oracle.totalApprovedFactStake > 0 ==>
        st'.oracle.rewardPool - Rewards(st') <= Rewarded(st') + 1
  {
    OnlyFinalizersDecide(st, step, st');
    if step.StepFinalizeProposals? {
      AgreementResolves(st, st');
    } else {
      WinnerResolves(st, step.tail, step.r, st');
    }
    ResolutionHolds(st, st');
  }

  /**
    After the outcome nothing but claims moves tokens: in any order, with gifts and the DAO's resolution between them,
    the vault keeps the same slack over what is still owed.
   */
  lemma {:induction false} SlackNeverChanges(states: seq<State>, steps: seq<Step>, i: nat, j: nat)
    requires IsRun(states, steps) && i <= j < |states| && Terminal(states[i].oracle)
    ensures Decided(states[i]) && Decided(states[j]) && Slack(states[j]) == Slack(states[i])
    decreases j
  {
    if i == j {
      RunKeepsBalance(states, steps, i);
    } else {
      var k := j - 1;
      SlackNeverChanges(states, steps, i, k);
      assert Apply(states[k], steps[k]) == Some(states[k + 1]);
      DecidedStep(states[k], steps[k], states[k + 1]);
    }
  }

  // ---- who comes last ----

  /**
    The submitter's claim closes a fact as soon as no outstanding vote on it has a stake, not when no vote is
    outstanding: a vote without stake can lose its fact, and then cannot be claimed any more.
   */
  lemma FactClosesIff(states: seq<State>, steps: seq<Step>, i: nat, k: Address)
    requires IsRun(states, steps) && i < |states| && Terminal(states[i].oracle) && k in states[i].facts
    ensures Admitted(states[i].config)
    ensures
      ClaimFact(states[i], k).Some?
      <==> forall v :: v in states[i].votes && states[i].votes[v].fact == k ==> states[i].votes[v].stake == 0
    ensures
      ClaimFact(states[i], k).Some? ==>
        forall v :: v in states[i].votes && states[i].votes[v].fact == k ==>
          ClaimFactVote(ClaimFact(states[i], k).value, v).None?
  {
    var st := states[i];
    RunKeepsBalance(states, steps, i);
    if ClaimFact(st, k).Some? {
      forall v | v in st.votes && st.votes[v].fact == k ensures st.votes[v].stake == 0 {
        NoTallyNoStake(st, k, v);
      }
    }
    if forall v :: v in st.votes && st.votes[v].fact == k ==> st.votes[v].stake == 0 {
      TotalZero(st.votes, StakeOn(k, true));
      TotalZero(st.votes, StakeOn(k, false));
    }
  }

  // ---- disputes among bonds of zero ----

  /** A dispute is opened over the bonds of the proposers. */
  lemma DisputeIsOverBonds(states: seq<State>, steps: seq<Step>, i: nat)
    requires IsRun(states, steps) && i < |steps| && steps[i] == StepFinalizeProposals
    requires states[i + 1].oracle.phase == FactProposal
    ensures states[i + 1].oracle.disputeBondTotal == Total(states[i + 1].proposers, BondOf)
  {
    RunKeepsBalance(states, steps, i);
    assert Apply(states[i], steps[i]) == Some(states[i + 1]);
  }

  ghost predicate InDispute(st: State) {
    st.oracle.phase == FactProposal || st.oracle.phase == FactVoting
  }

  lemma ZeroBondStep(st: State, step: Step, st': State)
    requires Admitted(st.config) && Apply(st, step) == Some(st') && InDispute(st) && st.oracle.disputeBondTotal == 0
    ensures InDispute(st') && st'.oracle.disputeBondTotal == 0
  {
  }

  /** A dispute over bonds that are all zero never ends: facts cannot be settled, and stakes stay in the vault. */
  lemma {:induction false} ZeroBondDisputeNeverEnds(states: seq<State>, steps: seq<Step>, i: nat, j: nat)
    requires IsRun(states, steps) && i <= j < |states|
    requires InDispute(states[i]) && states[i].oracle.disputeBondTotal == 0
    ensures InDispute(states[j]) && states[j].oracle.disputeBondTotal == 0
    decreases j
  {
    if i < j {
      var k := j - 1;
      ZeroBondDisputeNeverEnds(states, steps, i, k);
      assert Apply(states[k], steps[k]) == Some(states[k + 1]);
      ZeroBondStep(states[k], steps[k], states[k + 1]);
    }
  }

  // ---- what a dead end shows as its option ----

  ghost predicate OptionOk(o: Oracle) {
    match o.phase
    case AiClaim => o.resolvedOption == Some(0) && o.factCount > 0
    case Challenge => o.resolvedOption == Some(0) && o.factCount > 0
    case Resolved => o.resolvedOption.Some?
    case InvalidDeadend => if o.factCount > 0 then o.resolvedOption.None? else o.resolvedOption == Some(0)
    case _ => o.resolvedOption == Some(0)
  }

  predicate IsFinalizer(step: Step) {
    step.StepFinalizeProposals? || step.StepSlashNoFacts? || step.StepSettleFact? || step.StepFinalizeAiClaim?
    || step.StepFinalizeOracle?
  }

  lemma OptionFactStep(st: State, step: Step, st': State)
    requires Admitted(st.config) && Apply(st, step) == Some(st') && OptionOk(st.oracle)
    requires step.StepSlashNoFacts? || step.StepSettleFact?
    ensures OptionOk(st'.oracle)
  {
  }

  lemma OptionFinalizerStep(st: State, step: Step, st': State)
    requires Admitted(st.config) && Apply(st, step) == Some(st') && OptionOk(st.oracle)
    requires step.StepFinalizeProposals? || step.StepFinalizeAiClaim? || step.StepFinalizeOracle?
    ensures OptionOk(st'.oracle)
  {
  }

  lemma OptionStep(st: State, step: Step, st': State)
    requires Admitted(st.config) && Apply(st, step) == Some(st') && OptionOk(st.oracle)
    ensures OptionOk(st'.oracle)
  {
    if step.StepSlashNoFacts? || step.StepSettleFact? {
      OptionFactStep(st, step, st');
    } else if IsFinalizer(step) {
      OptionFinalizerStep(st, step, st');
    } else {
      OtherStepsKeepOption(st, step, st');
    }
  }

  lemma OtherStepsKeepOption(st: State, step: Step, st': State)
    requires Admitted(st.config) && Apply(st, step) == Some(st') && OptionOk(st.oracle) && !IsFinalizer(step)
    ensures OptionOk(st'.oracle)
  {
  }

  lemma {:induction false} RunKeepsOption(states: seq<State>, steps: seq<Step>, i: nat)
    requires IsRun(states, steps) && i < |states|
    ensures OptionOk(states[i].oracle)
  {
    if i > 0 {
      var k := i - 1;
      RunKeepsOption(states, steps, k);
      assert Apply(states[k], steps[k]) == Some(states[k + 1]);
      OptionStep(states[k], steps[k], states[k + 1]);
    }
  }

  /** A dead end carries the sentinel if and only if there was a fact; without one it reads as option 0. */
  lemma DeadEndOptionIff(states: seq<State>, steps: seq<Step>, i: nat)
    requires IsRun(states, steps) && i < |states| && states[i].oracle.phase == InvalidDeadend
    ensures states[i].oracle.resolvedOption.None? <==> states[i].oracle.factCount > 0
    ensures states[i].oracle.resolvedOption.Some? ==> states[i].oracle.resolvedOption == Some(0)
  {
    RunKeepsOption(states, steps, i);
  }
}
