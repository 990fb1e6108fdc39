/**
  The counters of an oracle over every run: proposers, survivors and finalized claims are what they count, so that the
  consistency checks of the finalizers never fail (`programs/oracles/src/processor/finalize_oracle.rs`, lines 50-61).
 */
module VaultCounts {
  import opened Arith
  import opened Options
  import opened Totals
  import opened StakeVault
  import opened VaultSteps
  import Plurality

  /** The proposers still standing. */
  ghost function Standing(ps: map<Address, Proposer>): set<Address> {
    set k | k in ps && !ps[k].disqualified
  }

  ghost function Finalized(ps: map<Address, Proposer>): set<Address> {
    set k | k in ps && ps[k].aiFinalized
  }

  ghost predicate Counted(o: Oracle, ps: map<Address, Proposer>) {
    && o.proposerCount == |ps| && o.survivingCount == |Standing(ps)| && o.aiFinalizedCount == |Finalized(ps)|
    && (forall k :: k in ps && ps[k].aiFinalized && !ps[k].disqualified ==> ps[k].claimOption.Some?)
    && (o.phase == Challenge ==> forall k :: k in ps ==> ps[k].aiFinalized)
    && (o.phase == Proposal || o.phase == FactProposal || o.phase == FactVoting ==>
          forall k :: k in ps ==> !ps[k].aiFinalized)
  }

  lemma OneMoreStands(ps: map<Address, Proposer>, k: Address, p: Proposer)
    requires k !in ps && !p.disqualified
    ensures |Standing(ps[k := p])| == |Standing(ps)| + 1
  {
    var s, s' := Standing(ps), Standing(ps[k := p]);
    forall j ensures j in s' <==> j in s + {k} {
      assert j in s' <==> j in ps[k := p] && !ps[k := p][j].disqualified;
    }
    assert s' == s + {k} && k !in s;
  }

  lemma NoMoreFinalized(ps: map<Address, Proposer>, k: Address, p: Proposer)
    requires k !in ps && !p.aiFinalized
    ensures Finalized(ps[k := p]) == Finalized(ps)
  {
    var f, f' := Finalized(ps), Finalized(ps[k := p]);
    forall j ensures j in f' <==> j in f {
      assert j in f' <==> j in ps[k := p] && ps[k := p][j].aiFinalized;
    }
  }

  /** One proposer changes, and with it the sets it belongs to. */
  lemma OneChanges(ps: map<Address, Proposer>, k: Address, p: Proposer)
    requires k in ps && (ps[k].disqualified ==> p.disqualified) && (ps[k].aiFinalized ==> p.aiFinalized)
    ensures |ps[k := p]| == |ps|
    ensures |Standing(ps[k := p])| == |Standing(ps)| - (if p.disqualified && !ps[k].disqualified then 1 else 0)
    ensures |Finalized(ps[k := p])| == |Finalized(ps)| + (if p.aiFinalized && !ps[k].aiFinalized then 1 else 0)
  {
    assert ps[k := p].Keys == ps.Keys;
    assert Standing(ps[k := p]) == Standing(ps) - if p.disqualified then {k} else {};
    FinalizedChanges(ps, k, p);
  }

  lemma FinalizedChanges(ps: map<Address, Proposer>, k: Address, p: Proposer)
    requires k in ps && (ps[k].aiFinalized ==> p.aiFinalized)
    ensures |Finalized(ps[k := p])| == |Finalized(ps)| + (if p.aiFinalized && !ps[k].aiFinalized then 1 else 0)
  {
    assert Finalized(ps[k := p]) == Finalized(ps) + if p.aiFinalized then {k} else {};
  }

  lemma AllAreFinalized(ps: map<Address, Proposer>)
    requires |Finalized(ps)| == |ps|
    ensures forall k :: k in ps ==> ps[k].aiFinalized
  {
    assert Finalized(ps) <= ps.Keys && |ps.Keys| == |ps|;
    forall k | k in ps ensures ps[k].aiFinalized {
      if k !in Finalized(ps) {
        var rest := ps.Keys - {k};
        assert Finalized(ps) <= rest;
        SubsetSize(Finalized(ps), rest);
      }
    }
  }

  lemma {:induction false} SubsetSize(a: set<Address>, b: set<Address>)
    requires a <= b
    ensures |a| <= |b|
  {
    if a != {} {
      var x :| x in a;
      SubsetSize(a - {x}, b - {x});
    }
  }

  lemma ProposeCounts(st: State, k: Address, option: u8, bond: u64, st': State)
    requires Counted(st.oracle, st.proposers) && Propose(st, k, option, bond) == Some(st')
    ensures Counted(st'.oracle, st'.proposers)
  {
    var p := st'.proposers[k];
    OneMoreStands(st.proposers, k, p);
    NoMoreFinalized(st.proposers, k, p);
    assert st'.proposers.Keys == st.proposers.Keys + {k};
  }

  lemma SlashNoFactsCounts(st: State, k: Address, st': State)
    requires Counted(st.oracle, st.proposers) && SlashNoFacts(st, k) == Some(st')
    ensures Counted(st'.oracle, st'.proposers)
  {
    OneChanges(st.proposers, k, st'.proposers[k]);
  }

  lemma SubmitAiClaimCounts(st: State, k: Address, option: u8, st': State)
    requires Counted(st.oracle, st.proposers) && SubmitAiClaim(st, k, option) == Some(st')
    ensures Counted(st'.oracle, st'.proposers)
  {
    OneChanges(st.proposers, k, st'.proposers[k]);
  }

  lemma FinalizeAiClaimCounts(st: State, k: Address, st': State)
    requires Admitted(st.config) && Counted(st.oracle, st.proposers) && FinalizeAiClaim(st, k) == Some(st')
    ensures Counted(st'.oracle, st'.proposers)
  {
    FinalizeAiClaimEffect(st, k, st');
    OneChanges(st.proposers, k, st'.proposers[k]);
    if st'.oracle.phase == Challenge {
      AllAreFinalized(st'.proposers);
    }
  }

  lemma ChallengeCounts(st: State, k: Address, passTwap: nat, failTwap: nat, st': State)
    requires Admitted(st.config) && Counted(st.oracle, st.proposers)
    requires SettleChallenge(st, k, passTwap, failTwap) == Some(st')
    ensures Counted(st'.oracle, st'.proposers)
  {
    SettleChallengeEffect(st, k, passTwap, failTwap, st');
    OneChanges(st.proposers, k, st'.proposers[k]);
  }

  lemma OpenChallengeCounts(st: State, k: Address, price: nat, st': State)
    requires Counted(st.oracle, st.proposers) && OpenChallenge(st, k, price) == Some(st')
    ensures Counted(st'.oracle, st'.proposers)
  {
    OneChanges(st.proposers, k, st'.proposers[k]);
  }

  lemma FactStepsCount(st: State, step: Step, st': State)
    requires Admitted(st.config) && Counted(st.oracle, st.proposers) && Apply(st, step) == Some(st')
    requires step.StepSubmitFact? || step.StepAdvancePhase? || step.StepVoteFact? || step.StepSettleFact?
    ensures Counted(st'.oracle, st'.proposers)
  {
    if step.StepSettleFact? {
      SettleFactEffect(st, step.k, st');
    }
  }

  /** The other instructions leave the proposers, their counters and the phases that matter as they are. */
  lemma OtherStepsCount(st: State, step: Step, st': State)
    requires Admitted(st.config) && Counted(st.oracle, st.proposers) && !Terminal(st.oracle)
    requires Apply(st, step) == Some(st') && !Terminal(st'.oracle)
    requires step.StepFinalizeProposals? || step.Donate? || step.TimePasses?
    ensures Counted(st'.oracle, st'.proposers)
  {
  }

  lemma StepCounts(st: State, step: Step, st': State)
    requires Admitted(st.config) && Counted(st.oracle, st.proposers) && !Terminal(st.oracle)
    requires Apply(st, step) == Some(st') && !Terminal(st'.oracle)
    ensures Counted(st'.oracle, st'.proposers)
  {
    match step
    case StepPropose(k, option, bond) => ProposeCounts(st, k, option, bond, st');
    case StepSlashNoFacts(k) => SlashNoFactsCounts(st, k, st');
    case StepSubmitAiClaim(k, option) => SubmitAiClaimCounts(st, k, option, st');
    case StepFinalizeAiClaim(k) => FinalizeAiClaimCounts(st, k, st');
    case StepOpenChallenge(k, price) => OpenChallengeCounts(st, k, price, st');
    case StepSettleChallenge(k, passTwap, failTwap) => ChallengeCounts(st, k, passTwap, failTwap, st');
    case StepFinalizeOracle(tail, r) =>
    case StepResolveDeadend(_) =>
    case StepClaimProposer(_) =>
    case StepClaimFact(_) =>
    case StepClaimFactVote(_) =>
    case StepFinalizeProposals => OtherStepsCount(st, step, st');
    case Donate(_) => OtherStepsCount(st, step, st');
    case TimePasses(_) => OtherStepsCount(st, step, st');
    case _ => FactStepsCount(st, step, st');
  }

  lemma TerminalStays(st: State, step: Step, st': State)
    requires Admitted(st.config) && Terminal(st.oracle) && Apply(st, step) == Some(st')
    ensures Terminal(st'.oracle)
  {
  }

  /** Until the outcome the counters are right in every state of every run. */
  lemma {:induction false} RunKeepsCounts(states: seq<State>, steps: seq<Step>, i: nat)
    requires IsRun(states, steps) && i < |states| && !Terminal(states[i].oracle)
    ensures Counted(states[i].oracle, states[i].proposers)
  {
    if i > 0 {
      var k := i - 1;
      assert Apply(states[k], steps[k]) == Some(states[k + 1]);
      if Terminal(states[k].oracle) {
        TerminalStays(states[k], steps[k], states[k + 1]);
      } else {
        RunKeepsCounts(states, steps, k);
        StepCounts(states[k], steps[k], states[k + 1]);
      }
    } else {
      assert Standing(map[]) == {} && Finalized(map[]) == {};
    }
  }

  // ---- the consistency checks of the final recompute ----

  /** The proposers given that still stand. */
  ghost function StandingIn(ps: map<Address, Proposer>, tail: seq<Address>): set<Address> {
    set k | k in tail && k in Standing(ps)
  }

  lemma {:induction false} OneVoteEach(ps: map<Address, Proposer>, tail: seq<Address>)
    requires (forall k :: k in tail ==> k in ps) && forall i, j :: 0 <= i < j < |tail| ==> tail[i] != tail[j]
    requires forall k :: k in ps && !ps[k].disqualified ==> ps[k].claimOption.Some?
    ensures |SurvivorVotes(ps, tail)| == |StandingIn(ps, tail)|
    decreases |tail|
  {
    if tail == [] {
      assert StandingIn(ps, tail) == {};
    } else {
      OneVoteEach(ps, tail[1..]);
      assert tail == [tail[0]] + tail[1..];
      assert tail[0] !in tail[1..];
      assert StandingIn(ps, tail)
          == StandingIn(ps, tail[1..]) + if tail[0] in Standing(ps) then {tail[0]} else {};
    }
  }

  /**
    In every run the final recompute goes through as soon as the window is over and no challenge is open, for every
    listing of the proposers: no check of its counters can fail, only sums can overflow.
   */
  lemma FinalizeOracleSucceedsIff(
    states: seq<State>, steps: seq<Step>, i: nat, tail: seq<Address>, r: Plurality.Outcome)
    requires IsRun(states, steps) && i < |states| && IsFullSet(states[i], tail)
    requires Plurality.IsPlurality(SurvivorVotes(states[i].proposers, tail), r)
    ensures
      FinalizeOracle(states[i], tail, r).Some?
      <==> && states[i].oracle.phase == Challenge && states[i].oracle.phaseEndsAt <= states[i].now
           && states[i].oracle.openChallengeCount == 0
           && states[i].oracle.bondPool + states[i].oracle.rewardEmission < 0x1_0000_0000_0000_0000
           && (r.Winner? ==>
                 0 <= Total(states[i].proposers, CorrectBond(r.option)) < 0x1_0000_0000_0000_0000)
  {
    var st := states[i];
    if st.oracle.phase == Challenge {
      RunKeepsCounts(states, steps, i);
      assert forall k :: k in st.proposers && !st.proposers[k].disqualified ==> st.proposers[k].claimOption.Some?;
      OneVoteEach(st.proposers, tail);
      assert StandingIn(st.proposers, tail) == Standing(st.proposers);
    }
  }
}
