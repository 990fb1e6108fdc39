/**
  Each vault instruction in its own terms: exactly when it succeeds, what it changes and what it pays
  (`programs/oracles/src/processor/`).
 */
module VaultSteps {
  import opened Arith
  import opened Options
  import opened Totals
  import opened StakeVault
  import opened VaultSolvency
  import Plurality
  import Reward

  // ---- proposals ----

  lemma ProposeIff(st: State, k: Address, option: u8, bond: u64)
    ensures
      Propose(st, k, option, bond).Some?
      <==> && st.oracle.phase == Proposal && st.config.deadline <= st.now
           && (st.now < st.oracle.phaseEndsAt || st.oracle.proposerCount == 0)
           && st.oracle.proposerCount < 60 && option < st.config.optionsCount && k !in st.proposers
           && bond >= st.config.minStake && st.oracle.totalOracleStake + bond < 0x1_0000_0000_0000_0000
    ensures Propose(st, k, option, bond).Some? ==>
      Propose(st, k, option, bond).value
      == st.(
           proposers := st.proposers[k := Proposer(bond, option, None, false, false, false, false, 0, NoMarket)],
           vault := st.vault + bond,
           oracle := st.oracle.(
             phaseEndsAt :=
               if st.now < st.oracle.phaseEndsAt then st.oracle.phaseEndsAt else st.now + st.config.proposalWindow,
             proposerCount := st.oracle.proposerCount + 1, survivingCount := st.oracle.survivingCount + 1,
             totalOracleStake := st.oracle.totalOracleStake + bond))
  {
  }

  // Lemmas named "Succeeds" say when an instruction goes through, lemmas named "Effect" what it then does; for the
  // instructions of one clause each, "Iff" says both.

  /** Any two proposers agree. */
  ghost predicate Unanimous(st: State) {
    forall j, k :: j in st.proposers && k in st.proposers ==>
      st.proposers[j].originalOption == st.proposers[k].originalOption
  }

  /** A closed proposal window resolves the oracle if and only if all agree, and opens a dispute otherwise. */
  lemma FinalizeProposalsIff(st: State, st': State)
    requires FinalizeProposals(st) == Some(st')
    ensures st.oracle.phase == Proposal && st.oracle.phaseEndsAt <= st.now
    ensures |st.proposers| == st.oracle.proposerCount > 0
    ensures Unanimous(st) ==> st.oracle.bondPool + st.oracle.rewardEmission < 0x1_0000_0000_0000_0000
    ensures
      if Unanimous(st) then
        && (forall k :: k in st.proposers ==> st'.oracle.resolvedOption == Some(st.proposers[k].originalOption))
        && st' == st.(oracle := st.oracle.(
             resolvedOption := st'.oracle.resolvedOption, phase := Resolved,
             rewardPool := st.oracle.bondPool + st.oracle.rewardEmission,
             totalCorrectProposerStake := st.oracle.totalOracleStake))
      else
        st' == st.(oracle := st.oracle.(
          phase := FactProposal, phaseEndsAt := st.now + st.config.phaseWindow,
          disputeBondTotal := st.oracle.totalOracleStake))
  {
    if Unanimous(st) {
      assert st.proposers != map[];
      var k :| k in st.proposers;
      assert AllPropose(st, st.proposers[k].originalOption);
    } else {
      forall option: u8 ensures !AllPropose(st, option) {
      }
    }
  }

  lemma FinalizeProposalsSucceeds(st: State)
    ensures
      FinalizeProposals(st).Some?
      <==> && st.oracle.phase == Proposal && st.oracle.phaseEndsAt <= st.now
           && |st.proposers| == st.oracle.proposerCount > 0
           && (Unanimous(st) ==> st.oracle.bondPool + st.oracle.rewardEmission < 0x1_0000_0000_0000_0000)
  {
    if st.proposers != map[] {
      var k :| k in st.proposers;
      assert Unanimous(st) ==> AllPropose(st, st.proposers[k].originalOption);
      assert (exists option: u8 :: AllPropose(st, option)) ==> Unanimous(st);
    }
  }

  // ---- facts ----

  lemma SubmitFactIff(st: State, k: Address, stake: u64)
    ensures
      SubmitFact(st, k, stake).Some?
      <==> && st.oracle.phase == FactProposal && st.now < st.oracle.phaseEndsAt && k !in st.facts
           && stake >= st.config.minStake && st.oracle.factCount < 65_535
           && st.oracle.totalOracleStake + stake < 0x1_0000_0000_0000_0000
    ensures SubmitFact(st, k, stake).Some? ==>
      SubmitFact(st, k, stake).value
      == st.(
           facts := st.facts[k := Fact(stake, 0, 0, false, false, false)], vault := st.vault + stake,
           oracle := st.oracle.(
             factCount := st.oracle.factCount + 1, totalOracleStake := st.oracle.totalOracleStake + stake))
  {
  }

  lemma AdvancePhaseIff(st: State)
    ensures AdvancePhase(st).Some? <==> st.oracle.phase == FactProposal && st.oracle.phaseEndsAt <= st.now
    ensures AdvancePhase(st).Some? ==>
      AdvancePhase(st).value
      == st.(oracle := st.oracle.(phase := FactVoting, phaseEndsAt := st.now + st.config.phaseWindow))
  {
  }

  lemma VoteFactIff(st: State, v: Address, k: Address, approve: bool, stake: u64)
    ensures
      VoteFact(st, v, k, approve, stake).Some?
      <==> && st.oracle.phase == FactVoting && st.now < st.oracle.phaseEndsAt && k in st.facts && v !in st.votes
           && stake >= st.config.minStake
           && (approve ==> st.facts[k].approveStake + stake < 0x1_0000_0000_0000_0000)
           && (!approve ==> st.facts[k].duplicateStake + stake < 0x1_0000_0000_0000_0000)
           && st.oracle.totalOracleStake + stake < 0x1_0000_0000_0000_0000
    ensures VoteFact(st, v, k, approve, stake).Some? ==>
      var st' := VoteFact(st, v, k, approve, stake).value;
      && st' == st.(
           votes := st.votes[v := Vote(k, approve, stake)], vault := st.vault + stake,
           facts := st.facts[k := st'.facts[k]],
           oracle := st.oracle.(totalOracleStake := st.oracle.totalOracleStake + stake))
      && (approve ==> st'.facts[k] == st.facts[k].(approveStake := st.facts[k].approveStake + stake))
      && (!approve ==> st'.facts[k] == st.facts[k].(duplicateStake := st.facts[k].duplicateStake + stake))
  {
  }

  /** What a settled fact adds to the pool when it is rejected. */
  function RejectionForfeit(c: Config, f: Fact): int
    requires c.voteSlashDen > 0
  {
    f.stake + f.approveStake * c.voteSlashNum / c.voteSlashDen
  }

  /**
    A fact is a duplicate if the duplicate votes outweigh, agreed if the approvals outweigh and reach the quorum of the
    disputed bonds, and rejected otherwise; only a rejection feeds the pool, only an agreed fact joins the cohort.
   */
  lemma SettleFactEffect(st: State, k: Address, st': State)
    requires Admitted(st.config) && SettleFact(st, k) == Some(st')
    ensures
      && st.oracle.phase == FactVoting && st.oracle.phaseEndsAt <= st.now
      && st.oracle.disputeBondTotal > 0 && st.oracle.factCount > 0 && k in st.facts && !st.facts[k].settled
    ensures
      var f, c, o := st.facts[k], st.config, st.oracle;
      var agrees := f.approveStake > f.duplicateStake
                    && f.approveStake * c.thresholdDen >= o.disputeBondTotal * c.thresholdNum;
      var duplicates := f.duplicateStake > f.approveStake;
      && st'.facts == st.facts[k := f.(
           settled := true, agreed := f.agreed || agrees, duplicate := f.duplicate || duplicates)]
      && st'.oracle.totalApprovedFactStake
         == o.totalApprovedFactStake + (if agrees then f.stake + f.approveStake else 0)
      && st'.oracle.bondPool == o.bondPool + (if agrees || duplicates then 0 else RejectionForfeit(c, f))
    ensures
      var o, last := st.oracle, st.oracle.settledCount + 1 == st.oracle.factCount;
      st' == st.(facts := st'.facts, oracle := o.(
        settledCount := o.settledCount + 1, totalApprovedFactStake := st'.oracle.totalApprovedFactStake,
        bondPool := st'.oracle.bondPool, phase := if last then AiClaim else FactVoting,
        phaseEndsAt := if last then st.now + st.config.phaseWindow else o.phaseEndsAt))
  {
  }

  /** An unsettled fact can be settled as soon as the voting window is over, unless a sum overflows. */
  lemma SettleFactFails(st: State, k: Address)
    requires Admitted(st.config) && SettleFact(st, k).None?
    requires st.oracle.phase == FactVoting && st.oracle.phaseEndsAt <= st.now && st.oracle.disputeBondTotal > 0
    requires st.oracle.factCount > 0 && k in st.facts && !st.facts[k].settled
    ensures
      var f := st.facts[k];
      || st.oracle.totalApprovedFactStake + f.stake + f.approveStake >= 0x1_0000_0000_0000_0000
      || st.oracle.bondPool + RejectionForfeit(st.config, f) >= 0x1_0000_0000_0000_0000
  {
  }

  lemma SlashNoFactsSucceeds(st: State, k: Address)
    ensures
      SlashNoFacts(st, k).Some?
      <==> && st.oracle.phase == FactVoting && st.oracle.phaseEndsAt <= st.now && st.oracle.disputeBondTotal > 0
           && st.oracle.factCount == 0 && k in st.proposers && !st.proposers[k].slashed
           && (st.proposers[k].disqualified
               || (st.oracle.bondPool + st.proposers[k].bond < 0x1_0000_0000_0000_0000
                   && st.oracle.survivingCount > 0))
  {
  }

  /** A proposer already out is only marked. */
  lemma SlashNoFactsOfTheDisqualified(st: State, k: Address, st': State)
    requires SlashNoFacts(st, k) == Some(st') && k in st.proposers && st.proposers[k].disqualified
    ensures
      var o, last := st.oracle, st.oracle.survivingCount == 0;
      st' == st.(
        proposers := st.proposers[k := st.proposers[k].(slashed := true)],
        vault := if last then st.vault - o.bondPool - o.rewardEmission else st.vault,
        oracle := o.(phase := if last then InvalidDeadend else FactVoting))
  {
  }

  /** Without facts every proposer loses the whole bond, and the last one's slash burns the pool and the emission. */
  lemma SlashNoFactsEffect(st: State, k: Address, st': State)
    requires SlashNoFacts(st, k) == Some(st') && k in st.proposers && !st.proposers[k].disqualified
    ensures
      && st.oracle.phase == FactVoting && st.oracle.phaseEndsAt <= st.now
      && st.oracle.disputeBondTotal > 0 && st.oracle.factCount == 0 && !st.proposers[k].slashed
    ensures
      var p, o, last := st.proposers[k], st.oracle, st.oracle.survivingCount == 1;
      st' == st.(
        proposers := st.proposers[k := p.(disqualified := true, slashed := true, slashedAmount := p.bond)],
        vault := if last then st.vault - (o.bondPool + p.bond) - o.rewardEmission else st.vault,
        oracle := o.(
          bondPool := o.bondPool + p.bond, survivingCount := o.survivingCount - 1,
          phase := if last then InvalidDeadend else FactVoting))
  {
  }

  // ---- AI claims ----

  lemma SubmitAiClaimIff(st: State, k: Address, option: u8)
    ensures
      SubmitAiClaim(st, k, option).Some?
      <==> && st.oracle.phase == AiClaim && st.now < st.oracle.phaseEndsAt && k in st.proposers
           && !st.proposers[k].disqualified && option < st.config.optionsCount && st.proposers[k].claimOption.None?
    ensures SubmitAiClaim(st, k, option).Some? ==>
      var p := st.proposers[k];
      SubmitAiClaim(st, k, option).value
      == st.(proposers := st.proposers[k := p.(
           claimOption := Some(option), flipped := p.flipped || p.originalOption != option)])
  {
  }

  lemma FinalizeAiClaimSucceeds(st: State, k: Address)
    requires Admitted(st.config)
    ensures
      FinalizeAiClaim(st, k).Some?
      <==> && st.oracle.phase == AiClaim && st.oracle.phaseEndsAt <= st.now
           && k in st.proposers && !st.proposers[k].aiFinalized
           && (!st.proposers[k].disqualified ==>
                 if st.proposers[k].claimOption.None? then
                   st.oracle.bondPool + st.proposers[k].bond < 0x1_0000_0000_0000_0000
                   && st.oracle.survivingCount > 0
                 else if st.proposers[k].flipped then
                   st.oracle.bondPool + st.proposers[k].bond * st.config.flipNum / st.config.flipDen
                   < 0x1_0000_0000_0000_0000
                 else true)
  {
    if k in st.proposers {
      var slash := Fraction(st.proposers[k].bond, st.config.flipNum, st.config.flipDen);
      assert slash == st.proposers[k].bond * st.config.flipNum / st.config.flipDen;
    }
  }

  /** A no-show loses the bond and its standing, a flip a fraction of the bond, a steady claim nothing. */
  lemma FinalizeAiClaimEffect(st: State, k: Address, st': State)
    requires Admitted(st.config) && FinalizeAiClaim(st, k) == Some(st')
    ensures
      st.oracle.phase == AiClaim && st.oracle.phaseEndsAt <= st.now && k in st.proposers && !st.proposers[k].aiFinalized
    ensures
      var p, c := st.proposers[k], st.config;
      var noShow := !p.disqualified && p.claimOption.None?;
      var flip := !p.disqualified && p.claimOption.Some? && p.flipped;
      var slash := if noShow then p.bond else if flip then p.bond * c.flipNum / c.flipDen else 0;
      && st'.proposers == st.proposers[k := p.(
           aiFinalized := true, slashed := p.slashed || noShow || flip, disqualified := p.disqualified || noShow,
           slashedAmount := if noShow || flip then slash else p.slashedAmount)]
      && st'.oracle.bondPool == st.oracle.bondPool + slash
      && st'.oracle.survivingCount == st.oracle.survivingCount - (if noShow then 1 else 0)
    ensures
      var o, last := st.oracle, st.oracle.aiFinalizedCount + 1 == st.oracle.proposerCount;
      st' == st.(proposers := st'.proposers, oracle := o.(
        aiFinalizedCount := o.aiFinalizedCount + 1, bondPool := st'.oracle.bondPool,
        survivingCount := st'.oracle.survivingCount, phase := if last then Challenge else AiClaim,
        phaseEndsAt := if last then st.now + st.config.phaseWindow else o.phaseEndsAt))
  {
  }

  // ---- challenges ----

  lemma OpenChallengeIff(st: State, k: Address, price: nat)
    ensures
      OpenChallenge(st, k, price).Some?
      <==> && st.oracle.phase == Challenge && st.now < st.oracle.phaseEndsAt && k in st.proposers
           && st.proposers[k].claimOption.Some? && st.proposers[k].market == NoMarket && !st.proposers[k].disqualified
           && 0 < st.proposers[k].bond * price / 1_000_000_000_000 < 0x1_0000_0000_0000_0000
    ensures OpenChallenge(st, k, price).Some? ==>
      OpenChallenge(st, k, price).value
      == st.(
           vault := st.vault - st.proposers[k].bond,
           proposers := st.proposers[k := st.proposers[k].(market := OpenMarket(st.now + st.config.twapWindow))],
           oracle := st.oracle.(openChallengeCount := st.oracle.openChallengeCount + 1))
  {
    if k in st.proposers {
      MulMono(0, st.proposers[k].bond, price);
      DivAtLeast(st.proposers[k].bond * price, KASS_PRICE_SCALE, 0);
    }
  }

  /** The fail price does not beat the pass price by the margin, or nobody traded on the pass side. */
  ghost predicate Survives(c: Config, passTwap: nat, failTwap: nat) {
    passTwap == 0 || failTwap * c.marketDen <= passTwap * (c.marketDen + c.marketNum)
  }

  /**
    A challenge fails exactly then: the bond comes back and nothing else happens. Otherwise the proposer is out, the
    challenger takes the fee, capped by what earlier slashes left, and the pool gets the rest of the bond.
   */
  lemma SettleChallengeEffect(st: State, k: Address, passTwap: nat, failTwap: nat, st': State)
    requires Admitted(st.config) && SettleChallenge(st, k, passTwap, failTwap) == Some(st')
    ensures
      && st.oracle.phase == Challenge && k in st.proposers && st.proposers[k].market.OpenMarket?
      && st.proposers[k].market.twapEnd <= st.now && st.oracle.openChallengeCount > 0
    ensures Survives(st.config, passTwap, failTwap) ==>
      st' == st.(
        vault := st.vault + st.proposers[k].bond,
        proposers := st.proposers[k := st.proposers[k].(market := SettledMarket)],
        oracle := st.oracle.(openChallengeCount := st.oracle.openChallengeCount - 1))
    ensures !Survives(st.config, passTwap, failTwap) ==>
      var p, c, o := st.proposers[k], st.config, st.oracle;
      var left := if p.bond >= p.slashedAmount then p.bond - p.slashedAmount else 0;
      var share := p.bond * c.feeNum / c.feeDen;
      var fee := if share <= left then share else left;
      if p.disqualified then
        st' == st.(
          vault := st.vault + p.bond - fee, proposers := st.proposers[k := p.(market := SettledMarket)],
          oracle := o.(openChallengeCount := o.openChallengeCount - 1))
      else
        && 0 <= fee <= p.bond
        && st' == st.(
             vault := st.vault + p.bond - fee,
             proposers := st.proposers[k := p.(
               disqualified := true, slashed := true, slashedAmount := p.bond - fee, market := SettledMarket)],
             oracle := o.(
               openChallengeCount := o.openChallengeCount - 1, survivingCount := o.survivingCount - 1,
               bondPool := o.bondPool
                 + if p.bond - fee >= p.slashedAmount then p.bond - fee - p.slashedAmount else 0))
  {
  }

  /** Settling goes through once the market's own window is over, unless a sum overflows. */
  lemma SettleChallengeSucceeds(st: State, k: Address, passTwap: nat, failTwap: nat)
    requires Running(st)
    ensures
      SettleChallenge(st, k, passTwap, failTwap).Some?
      <==> && st.oracle.phase == Challenge && k in st.proposers && st.proposers[k].market.OpenMarket?
           && st.proposers[k].market.twapEnd <= st.now
           && (!Survives(st.config, passTwap, failTwap) ==>
                 && st.oracle.survivingCount > 0
                 && st.oracle.bondPool + (st.proposers[k].bond - KassFee(st.config, st.proposers[k]))
                    - st.proposers[k].slashedAmount < 0x1_0000_0000_0000_0000)
  {
    if k in st.proposers && st.proposers[k].market.OpenMarket? {
      assert ProposerOk(st.proposers[k]);
      MemberAtMostTotal(st.proposers, k, IsOpen);
      SettlementGoesThrough(st, k, passTwap, failTwap);
    }
  }

  lemma SettlementGoesThrough(st: State, k: Address, passTwap: nat, failTwap: nat)
    requires Admitted(st.config) && k in st.proposers && ProposerOk(st.proposers[k])
    requires st.proposers[k].market.OpenMarket? && st.oracle.openChallengeCount > 0
    ensures
      SettleChallenge(st, k, passTwap, failTwap).Some?
      <==> && st.oracle.phase == Challenge && st.proposers[k].market.twapEnd <= st.now
           && (!Survives(st.config, passTwap, failTwap) ==>
                 && st.oracle.survivingCount > 0
                 && st.oracle.bondPool + (st.proposers[k].bond - KassFee(st.config, st.proposers[k]))
                    - st.proposers[k].slashedAmount < 0x1_0000_0000_0000_0000)
  {
    var p, fee := st.proposers[k], KassFee(st.config, st.proposers[k]);
    assert fee <= p.bond - p.slashedAmount;
  }

  /** In a reachable challenge nothing is cut off: fee, earlier slash and what the pool gets make up the bond. */
  lemma FeeAndPoolMakeUpBond(st: State, k: Address, passTwap: nat, failTwap: nat, st': State)
    requires Running(st) && SettleChallenge(st, k, passTwap, failTwap) == Some(st')
    requires !Survives(st.config, passTwap, failTwap)
    ensures k in st.proposers
    ensures
      var fee := st.vault + st.proposers[k].bond - st'.vault;
      fee + st.proposers[k].slashedAmount + (st'.oracle.bondPool - st.oracle.bondPool) == st.proposers[k].bond
  {
    assert ProposerOk(st.proposers[k]);
  }

  /** A higher pass price, or a lower fail price, never turns survival into disqualification. */
  lemma PassPriceProtects(st: State, k: Address, pass1: nat, fail1: nat, pass2: nat, fail2: nat, st1: State, st2: State)
    requires Running(st) && 0 < pass1 <= pass2 && fail2 <= fail1
    requires SettleChallenge(st, k, pass1, fail1) == Some(st1) && SettleChallenge(st, k, pass2, fail2) == Some(st2)
    ensures k in st.proposers && k in st1.proposers && k in st2.proposers
    ensures !st1.proposers[k].disqualified ==> !st2.proposers[k].disqualified
  {
    assert ProposerOk(st.proposers[k]);
    SettleChallengeEffect(st, k, pass1, fail1, st1);
    SettleChallengeEffect(st, k, pass2, fail2, st2);
    MulMono(pass1, pass2, st.config.marketDen + st.config.marketNum);
    MulMono(fail2, fail1, st.config.marketDen);
  }

  // ---- the outcome ----

  /** The proposers still standing that claim an option. */
  ghost function Supporters(st: State, option: u8): set<Address> {
    set k | k in st.proposers && !st.proposers[k].disqualified && st.proposers[k].claimOption == Some(option)
  }

  ghost function SupportersIn(st: State, tail: seq<Address>, option: u8): set<Address> {
    set k | k in tail && k in Supporters(st, option)
  }

  lemma OneMoreSupporter(st: State, tail: seq<Address>, option: u8)
    requires tail != [] && forall i, j :: 0 <= i < j < |tail| ==> tail[i] != tail[j]
    ensures
      |SupportersIn(st, tail, option)|
      == |SupportersIn(st, tail[1..], option)| + if tail[0] in Supporters(st, option) then 1 else 0
  {
    assert tail == [tail[0]] + tail[1..];
    assert tail[0] !in tail[1..];
    assert SupportersIn(st, tail, option)
        == SupportersIn(st, tail[1..], option) + if tail[0] in Supporters(st, option) then {tail[0]} else {};
  }

  lemma OneVoteCounts(p: Proposer, option: u8)
    ensures
      Plurality.Count(if !p.disqualified && p.claimOption.Some? then [p.claimOption.value] else [], option)
      == if !p.disqualified && p.claimOption == Some(option) then 1 else 0
  {
    if p.claimOption.Some? {
      assert [p.claimOption.value][1..] == [];
    }
  }

  lemma {:induction false} VotesCountSupporters(st: State, tail: seq<Address>, option: u8)
    requires (forall k :: k in tail ==> k in st.proposers) && forall i, j :: 0 <= i < j < |tail| ==> tail[i] != tail[j]
    ensures Plurality.Count(SurvivorVotes(st.proposers, tail), option) == |SupportersIn(st, tail, option)|
    decreases |tail|
  {
    if tail == [] {
      assert SupportersIn(st, tail, option) == {};
    } else {
      var p := st.proposers[tail[0]];
      var first := if !p.disqualified && p.claimOption.Some? then [p.claimOption.value] else [];
      VotesCountSupporters(st, tail[1..], option);
      Plurality.CountConcat(first, SurvivorVotes(st.proposers, tail[1..]), option);
      OneVoteCounts(p, option);
      OneMoreSupporter(st, tail, option);
    }
  }

  lemma FullSetCounts(st: State, tail: seq<Address>, option: u8)
    requires IsFullSet(st, tail)
    ensures Plurality.Count(SurvivorVotes(st.proposers, tail), option) == |Supporters(st, option)|
  {
    VotesCountSupporters(st, tail, option);
    assert SupportersIn(st, tail, option) == Supporters(st, option);
  }

  /** `option` is claimed by more proposers still standing than any other. */
  ghost predicate HasPlurality(st: State, option: u8) {
    |Supporters(st, option)| > 0
    && forall other: u8 :: other != option ==> |Supporters(st, other)| < |Supporters(st, option)|
  }

  /** The oracle resolves to an option if and only if more proposers still standing claim it than any other one. */
  lemma OutcomeIsPlurality(st: State, tail: seq<Address>, r: Plurality.Outcome, st': State)
    requires FinalizeOracle(st, tail, r) == Some(st')
    ensures forall option: u8 ::
      st'.oracle.phase == Resolved && st'.oracle.resolvedOption == Some(option) <==> HasPlurality(st, option)
  {
    var votes := SurvivorVotes(st.proposers, tail);
    forall option: u8 ensures Plurality.Count(votes, option) == |Supporters(st, option)| {
      FullSetCounts(st, tail, option);
    }
    PluralityAgrees(st, votes, r);
    FinalizeOracleEffect(st, tail, r, st');
  }

  /** Without a plurality the pool and the emission are burned; with one they become the reward pool. */
  lemma FinalizeOracleEffect(st: State, tail: seq<Address>, r: Plurality.Outcome, st': State)
    requires FinalizeOracle(st, tail, r) == Some(st')
    ensures
      && st.oracle.phase == Challenge && st.oracle.phaseEndsAt <= st.now && st.oracle.openChallengeCount == 0
      && IsFullSet(st, tail)
      && (forall k :: k in st.proposers && !st.proposers[k].disqualified ==> st.proposers[k].claimOption.Some?)
      && |SurvivorVotes(st.proposers, tail)| == st.oracle.survivingCount
      && Plurality.IsPlurality(SurvivorVotes(st.proposers, tail), r)
    ensures st.oracle.bondPool + st.oracle.rewardEmission < 0x1_0000_0000_0000_0000
    ensures
      match r
      case Winner(option) =>
        0 <= Total(st.proposers, CorrectBond(option)) < 0x1_0000_0000_0000_0000
        && st' == st.(oracle := st.oracle.(
             phase := Resolved, resolvedOption := Some(option),
             rewardPool := st.oracle.bondPool + st.oracle.rewardEmission,
             totalCorrectProposerStake := Total(st.proposers, CorrectBond(option))))
      case _ =>
        st' == st.(
          vault := st.vault - st.oracle.bondPool - st.oracle.rewardEmission,
          oracle := st.oracle.(phase := InvalidDeadend, resolvedOption := None))
  {
  }

  lemma PluralityAgrees(st: State, votes: seq<u8>, r: Plurality.Outcome)
    requires Plurality.IsPlurality(votes, r)
    requires forall option: u8 :: Plurality.Count(votes, option) == |Supporters(st, option)|
    ensures forall option: u8 :: r == Plurality.Winner(option) <==> HasPlurality(st, option)
  {
    forall option: u8 ensures r == Plurality.Winner(option) <==> HasPlurality(st, option) {
      if r == Plurality.Winner(option) {
        assert Plurality.StrictlyBeatsAll(votes, option);
        var other: u8 := if option == 0 then 1 else 0;
        assert Plurality.Count(votes, other) < Plurality.Count(votes, option);
      }
      if HasPlurality(st, option) {
        assert Plurality.StrictlyBeatsAll(votes, option);
        var only := Plurality.OutcomeExistsAndIsUnique(votes);
        assert Plurality.IsPlurality(votes, Plurality.Winner(option));
      }
    }
  }

  lemma ResolveDeadendIff(st: State, option: u8)
    ensures ResolveDeadend(st, option).Some? <==> st.oracle.phase == InvalidDeadend && option < st.config.optionsCount
    ensures ResolveDeadend(st, option).Some? ==>
      ResolveDeadend(st, option).value
      == st.(oracle := st.oracle.(phase := Resolved, resolvedOption := Some(option)))
  {
  }

  // ---- what a claim pays ----

  /** The proposers' and the facts' part of the pool. */
  ghost predicate PoolIsSplit(o: Oracle, c: Config, proposers: int, facts: int) {
    if o.totalApprovedFactStake == 0 then proposers == o.rewardPool && facts == 0
    else if o.totalCorrectProposerStake == 0 then proposers == 0 && facts == o.rewardPool
    else if c.proposerWeight + c.factWeight == 0 then proposers == o.rewardPool && facts == 0
    else
      && proposers == o.rewardPool * c.proposerWeight / (c.proposerWeight + c.factWeight)
      && facts == o.rewardPool * c.factWeight / (c.proposerWeight + c.factWeight)
  }

  lemma BucketsSplitPool(o: Oracle, c: Config)
    ensures PoolIsSplit(o, c, Buckets(o, c).0, Buckets(o, c).1)
  {
    Reward.BucketsFit(
      o.rewardPool, c.proposerWeight, c.factWeight, o.totalCorrectProposerStake, o.totalApprovedFactStake);
  }

  /** Whether a proposer stood with the outcome: by its AI claim, or by its proposal where it made no claim. */
  ghost predicate StoodWith(p: Proposer, option: u8) {
    !p.disqualified && option == if p.claimOption.Some? then p.claimOption.value else p.originalOption
  }

  /** A proposer is paid what is left of the bond, and on a resolution a share by bond if it stood with the outcome. */
  lemma ProposerIsPaid(st: State, k: Address, proposers: int, facts: int)
    requires PoolIsSplit(st.oracle, st.config, proposers, facts)
    requires k in st.proposers && st.proposers[k].bond <= st.oracle.totalCorrectProposerStake
    requires st.oracle.phase == Resolved ==> st.oracle.resolvedOption.Some?
    ensures
      ClaimProposer(st, k).Some? <==> st.oracle.phase == Resolved || st.oracle.phase == InvalidDeadend
    ensures ClaimProposer(st, k).Some? ==>
      var p, o := st.proposers[k], st.oracle;
      var base := if p.disqualified || p.bond < p.slashedAmount then 0 else p.bond - p.slashedAmount;
      var earns := o.phase == Resolved && StoodWith(p, o.resolvedOption.value) && o.totalCorrectProposerStake > 0;
      ClaimProposer(st, k).value
      == st.(
           proposers := st.proposers - {k},
           vault := st.vault - (base + if earns then p.bond * proposers / o.totalCorrectProposerStake else 0))
  {
    BucketsSplitPool(st.oracle, st.config);
    Reward.ShareFits(st.proposers[k].bond, Buckets(st.oracle, st.config).0, st.oracle.totalCorrectProposerStake);
  }

  /** A stake that shares in the facts' part of the pool. */
  lemma FactShareIs(o: Oracle, c: Config, stake: u64, proposers: int, facts: int)
    requires PoolIsSplit(o, c, proposers, facts) && stake <= o.totalApprovedFactStake
    ensures
      FactShare(o, c, stake)
      == if o.phase == Resolved && o.totalApprovedFactStake > 0 then stake * facts / o.totalApprovedFactStake else 0
  {
    BucketsSplitPool(o, c);
    Reward.ShareFits(stake, Buckets(o, c).1, o.totalApprovedFactStake);
  }

  /** A submitter gets an agreed stake with its share, a duplicate's stake, and nothing of a rejected one. */
  lemma SubmitterIsPaid(st: State, k: Address, proposers: int, facts: int)
    requires PoolIsSplit(st.oracle, st.config, proposers, facts)
    requires k in st.facts && st.facts[k].stake <= st.oracle.totalApprovedFactStake
    ensures
      ClaimFact(st, k).Some?
      <==> && (st.oracle.phase == Resolved || st.oracle.phase == InvalidDeadend)
           && st.facts[k].approveStake == 0 == st.facts[k].duplicateStake
    ensures ClaimFact(st, k).Some? ==>
      var f, o := st.facts[k], st.oracle;
      var share := if o.phase == Resolved && o.totalApprovedFactStake > 0
                   then f.stake * facts / o.totalApprovedFactStake else 0;
      ClaimFact(st, k).value
      == st.(
           facts := st.facts - {k},
           vault := st.vault - if f.agreed then f.stake + share else if f.duplicate then f.stake else 0)
  {
    FactShareIs(st.oracle, st.config, st.facts[k].stake, proposers, facts);
  }

  /**
    A duplicate vote always gets its stake. An approval gets it with its share on an agreed fact, without on a
    duplicate, and less the slash, rounded up, on a rejected one.
   */
  lemma VoterIsPaid(st: State, v: Address, proposers: int, facts: int)
    requires Admitted(st.config) && PoolIsSplit(st.oracle, st.config, proposers, facts)
    requires v in st.votes && st.votes[v].fact in st.facts && st.votes[v].stake <= st.oracle.totalApprovedFactStake
    ensures ClaimFactVote(st, v).Some? <==> st.oracle.phase == Resolved || st.oracle.phase == InvalidDeadend
    ensures ClaimFactVote(st, v).Some? ==>
      var vote, f, o, c := st.votes[v], st.facts[st.votes[v].fact], st.oracle, st.config;
      var share := if o.phase == Resolved && o.totalApprovedFactStake > 0
                   then vote.stake * facts / o.totalApprovedFactStake else 0;
      var slash := (vote.stake * c.voteSlashNum + c.voteSlashDen - 1) / c.voteSlashDen;
      ClaimFactVote(st, v).value.vault
      == st.vault - (
           if !vote.approve then vote.stake
           else if f.agreed then vote.stake + share
           else if f.duplicate then vote.stake
           else if vote.stake >= slash then vote.stake - slash else 0)
  {
    FactShareIs(st.oracle, st.config, st.votes[v].stake, proposers, facts);
  }

  /** A claimed vote is closed, and taken off its fact's tally. */
  lemma VoteIsTakenOff(st: State, v: Address, st': State)
    requires Admitted(st.config) && ClaimFactVote(st, v) == Some(st')
    ensures v in st.votes && st.votes[v].fact in st.facts
    ensures
      var vote, f := st.votes[v], st.facts[st.votes[v].fact];
      && st' == st.(vault := st'.vault, votes := st.votes - {v}, facts := st.facts[vote.fact := st'.facts[vote.fact]])
      && st'.facts[vote.fact] == f.(
           approveStake :=
             if !vote.approve then f.approveStake
             else if f.approveStake >= vote.stake then f.approveStake - vote.stake else 0,
           duplicateStake :=
             if vote.approve then f.duplicateStake
             else if f.duplicateStake >= vote.stake then f.duplicateStake - vote.stake else 0)
  {
  }
}
