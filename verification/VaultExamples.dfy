/** Runs that show where the documentation of the vault goes further than the code. */
module VaultExamples {
  import opened Arith
  import opened Options
  import opened Totals
  import opened StakeVault
  import opened VaultSolvency
  import opened VaultOutcome
  import opened VaultRuns
  import Plurality

  /** The shipped parameters, with free participation and two options. */
  const SHIPPED := Config(2, 3, 1, 10, 1, 2, 1, 2, 1, 100, 2, 1, 0, 2, 0, 3600, 3600, 3600)

  function NewProposer(option: u8): Proposer {
    Proposer(3, option, None, false, false, false, false, 0, NoMarket)
  }

  function NoShow(option: u8): Proposer {
    Proposer(3, option, None, true, true, false, true, 3, NoMarket)
  }

  function NewOracle(): Oracle {
    Oracle(Proposal, 3600, 0, 0, 0, 0, 0, 0, 0, 0, Some(0), 0, 0, 0, 0, 0)
  }

  /** Two proposers with bonds of 3 disagree, and the dispute is open. */
  function Disputed(): State {
    State(
      SHIPPED,
      NewOracle().(
        phase := FactProposal, phaseEndsAt := 7200, proposerCount := 2, survivingCount := 2, totalOracleStake := 6,
        disputeBondTotal := 6),
      map[1 := NewProposer(0), 2 := NewProposer(1)], map[], map[], 6, 0, 3600)
  }

  ghost predicate Chained<S(!new), T(!new)>(moves: (S, T, S) -> bool, states: seq<S>, steps: seq<T>) {
    |states| == |steps| + 1 && forall i :: 0 <= i < |steps| ==> moves(states[i], steps[i], states[i + 1])
  }

  lemma ChainsJoin<S(!new), T(!new)>(
    moves: (S, T, S) -> bool, states: seq<S>, steps: seq<T>, more: seq<S>, next: seq<T>)
    requires Chained(moves, states, steps) && Chained(moves, more, next) && more[0] == states[|steps|]
    ensures Chained(moves, states + more[1..], steps + next)
  {
    var whole, all, n := states + more[1..], steps + next, |steps|;
    forall i | 0 <= i < |all| ensures moves(whole[i], all[i], whole[i + 1]) {
      if i >= n {
        assert whole[i] == more[i - n] && whole[i + 1] == more[i - n + 1];
      }
    }
  }

  /** A run followed by the steps of another stretch. */
  lemma RunGoesOn(states: seq<State>, steps: seq<Step>, more: seq<State>, next: seq<Step>)
    requires IsRun(states, steps) && |more| == |next| + 1 && more[0] == states[|steps|]
    requires forall i :: 0 <= i < |next| ==> Admitted(more[i].config) && Apply(more[i], next[i]) == Some(more[i + 1])
    ensures IsRun(states + more[1..], steps + next)
  {
    var moves := (st: State, step: Step, st': State) => Admitted(st.config) && Apply(st, step) == Some(st');
    ChainsJoin(moves, states, steps, more, next);
  }

  lemma DisputeOpens() returns (states: seq<State>, steps: seq<Step>)
    ensures IsRun(states, steps) && |steps| == 4 && states[4] == Disputed()
  {
    var s0 := State(SHIPPED, NewOracle(), map[], map[], map[], 0, 0, 0);
    var s1 := s0.(
      proposers := map[1 := NewProposer(0)], vault := 3,
      oracle := s0.oracle.(proposerCount := 1, survivingCount := 1, totalOracleStake := 3));
    var s2 := s1.(
      proposers := map[1 := NewProposer(0), 2 := NewProposer(1)], vault := 6,
      oracle := s0.oracle.(proposerCount := 2, survivingCount := 2, totalOracleStake := 6));
    var s3 := s2.(now := 3600);
    assert Propose(s0, 1, 0, 3) == Some(s1);
    assert Propose(s1, 2, 1, 3) == Some(s2);
    assert FinalizeProposals(s3) == Some(Disputed()) by {
      assert s3.proposers.Keys == {1, 2};
      forall option: u8 ensures !AllPropose(s3, option) {
        assert s3.proposers[1].originalOption == 0 && s3.proposers[2].originalOption == 1;
      }
    }
    states := [s0, s1, s2, s3, Disputed()];
    steps := [StepPropose(1, 0, 3), StepPropose(2, 1, 3), TimePasses(3600), StepFinalizeProposals];
  }

  /** A dispute in which nobody submits a fact ends with an option that reads as the first one. */
  lemma DeadEndReadsAsOptionZero() returns (states: seq<State>, steps: seq<Step>)
    ensures IsRun(states, steps) && |steps| == 9
    ensures states[9].oracle.phase == InvalidDeadend && states[9].oracle.resolvedOption == Some(0)
  {
    states, steps := DisputeOpens();
    var s5 := Disputed().(now := 7200);
    var s6 := s5.(oracle := s5.oracle.(phase := FactVoting, phaseEndsAt := 10800));
    var s7 := s6.(now := 10800);
    var p1, p2 :=
      NewProposer(0).(disqualified := true, slashed := true, slashedAmount := 3),
      NewProposer(1).(disqualified := true, slashed := true, slashedAmount := 3);
    var s8 := s7.(
      proposers := s7.proposers[1 := p1], oracle := s7.oracle.(bondPool := 3, survivingCount := 1));
    var s9 := s8.(
      proposers := s8.proposers[2 := p2], vault := 0,
      oracle := s8.oracle.(bondPool := 6, survivingCount := 0, phase := InvalidDeadend));
    assert SlashNoFacts(s7, 1) == Some(s8);
    assert SlashNoFacts(s8, 2) == Some(s9);
    states := states + [s5, s6, s7, s8, s9];
    steps := steps + [TimePasses(7200), StepAdvancePhase, TimePasses(10800), StepSlashNoFacts(1), StepSlashNoFacts(2)];
  }

  /** A fact is submitted, and the vote is open. */
  function Submitted(): State {
    Disputed().(
      now := 7200, vault := 7,
      oracle := Disputed().oracle.(phase := FactVoting, phaseEndsAt := 10800, factCount := 1, totalOracleStake := 7),
      facts := map[3 := Fact(1, 0, 0, false, false, false)])
  }

  lemma FactIsSubmitted() returns (states: seq<State>, steps: seq<Step>)
    ensures IsRun(states, steps) && |steps| == 7 && states[7] == Submitted()
  {
    states, steps := DisputeOpens();
    var d := Disputed();
    var s5 := d.(
      facts := map[3 := Fact(1, 0, 0, false, false, false)], vault := 7,
      oracle := d.oracle.(factCount := 1, totalOracleStake := 7));
    var s6 := s5.(now := 7200);
    assert SubmitFact(d, 3, 1) == Some(s5);
    assert AdvancePhase(s6) == Some(Submitted());
    var more, next := [d, s5, s6, Submitted()], [StepSubmitFact(3, 1), TimePasses(7200), StepAdvancePhase];
    RunGoesOn(states, steps, more, next);
    states, steps := states + more[1..], steps + next;
  }

  /** One fact with three approvals, of stakes 1, 1 and 0, when the voting window has closed. */
  function Voted(): State {
    Submitted().(
      now := 10800, vault := 9, oracle := Submitted().oracle.(totalOracleStake := 9),
      facts := map[3 := Fact(1, 2, 0, false, false, false)],
      votes := map[4 := Vote(3, true, 1), 5 := Vote(3, true, 1), 6 := Vote(3, true, 0)])
  }

  lemma FactIsVotedOn() returns (states: seq<State>, steps: seq<Step>)
    ensures IsRun(states, steps) && |steps| == 11 && states[11] == Voted()
  {
    states, steps := FactIsSubmitted();
    var f := Submitted();
    var s8 := OneApproval(f, 4, 1);
    var s9 := OneApproval(s8, 5, 1);
    var s10 := OneApproval(s9, 6, 0);
    assert s10.(now := 10800) == Voted() by {
      assert s10.votes == map[4 := Vote(3, true, 1), 5 := Vote(3, true, 1), 6 := Vote(3, true, 0)];
      assert s10.facts == map[3 := Fact(1, 2, 0, false, false, false)];
    }
    var more := [f, s8, s9, s10, Voted()];
    var next := [StepVoteFact(4, 3, true, 1), StepVoteFact(5, 3, true, 1), StepVoteFact(6, 3, true, 0),
                 TimePasses(10800)];
    RunGoesOn(states, steps, more, next);
    states, steps := states + more[1..], steps + next;
  }

  lemma OneApproval(st: State, v: Address, stake: u64) returns (st': State)
    requires st.config == SHIPPED && st.oracle.phase == FactVoting && st.now < st.oracle.phaseEndsAt
    requires 3 in st.facts && v !in st.votes
    requires st.facts[3].approveStake + stake <= 100 && st.oracle.totalOracleStake + stake <= 100
    ensures Admitted(st.config) && VoteFact(st, v, 3, true, stake) == Some(st')
    ensures
      st' == st.(
        votes := st.votes[v := Vote(3, true, stake)], vault := st.vault + stake,
        facts := st.facts[3 := st.facts[3].(approveStake := st.facts[3].approveStake + stake)],
        oracle := st.oracle.(totalOracleStake := st.oracle.totalOracleStake + stake))
  {
    st' := VoteFact(st, v, 3, true, stake).value;
  }

  /** The fact was rejected, nobody claimed, and the dead end was burned: one unit is left. */
  function Burned(): State {
    Voted().(
      now := 18000, vault := 1,
      oracle := Voted().oracle.(
        phase := InvalidDeadend, phaseEndsAt := 18000, survivingCount := 0, bondPool := 8, settledCount := 1,
        aiFinalizedCount := 2, resolvedOption := None),
      facts := map[3 := Fact(1, 2, 0, false, false, true)],
      proposers := map[1 := NoShow(0), 2 := NoShow(1)])
  }

  /** The only fact is settled, and nobody has submitted an AI claim when that window closes. */
  function Rejection(): State {
    Voted().(
      now := 14400, facts := map[3 := Fact(1, 2, 0, false, false, true)],
      oracle := Voted().oracle.(bondPool := 2, settledCount := 1, phase := AiClaim, phaseEndsAt := 14400))
  }

  lemma FactIsRejected() returns (states: seq<State>, steps: seq<Step>)
    ensures IsRun(states, steps) && |steps| == 13 && states[13] == Rejection()
  {
    states, steps := FactIsVotedOn();
    var v := Voted();
    var f := Fact(1, 2, 0, false, false, true);
    var s12 := Rejection().(now := 10800);
    assert !IsAgreed(v.facts[3], v.oracle, v.config);
    assert Fraction(2, 1, 2) == 1;
    assert v.facts[3 := f] == map[3 := f];
    assert SettleFact(v, 3) == Some(s12);
    var more, next := [v, s12, Rejection()], [StepSettleFact(3), TimePasses(14400)];
    RunGoesOn(states, steps, more, next);
    states, steps := states + more[1..], steps + next;
  }

  /** Both proposers lost their bonds, and the challenge window has closed. */
  function Abandoned(): State {
    Rejection().(
      now := 18000, proposers := map[1 := NoShow(0), 2 := NoShow(1)],
      oracle := Rejection().oracle.(
        bondPool := 8, survivingCount := 0, aiFinalizedCount := 2, phase := Challenge, phaseEndsAt := 18000))
  }

  lemma NobodyClaims() returns (states: seq<State>, steps: seq<Step>)
    ensures IsRun(states, steps) && |steps| == 16 && states[16] == Abandoned()
  {
    states, steps := FactIsRejected();
    var r := Rejection();
    var s14 := r.(
      proposers := map[1 := NoShow(0), 2 := NewProposer(1)],
      oracle := r.oracle.(bondPool := 5, survivingCount := 1, aiFinalizedCount := 1));
    var s15 := Abandoned().(now := 14400);
    assert FinalizeAiClaim(r, 1) == Some(s14) by { assert r.proposers[1 := NoShow(0)] == s14.proposers; }
    assert FinalizeAiClaim(s14, 2) == Some(s15) by { assert s14.proposers[2 := NoShow(1)] == s15.proposers; }
    var more := [r, s14, s15, Abandoned()];
    var next := [StepFinalizeAiClaim(1), StepFinalizeAiClaim(2), TimePasses(18000)];
    RunGoesOn(states, steps, more, next);
    states, steps := states + more[1..], steps + next;
  }

  lemma DisputeIsBurned() returns (states: seq<State>, steps: seq<Step>)
    ensures IsRun(states, steps) && |steps| == 17 && states[17] == Burned()
    ensures !Terminal(states[16].oracle)
  {
    states, steps := NobodyClaims();
    var s := Abandoned();
    assert FinalizeOracle(s, [1, 2], Plurality.NoSurvivors) == Some(Burned()) by { NobodySurvives(s); }
    var more, next := [s, Burned()], [StepFinalizeOracle([1, 2], Plurality.NoSurvivors)];
    RunGoesOn(states, steps, more, next);
    states, steps := states + more[1..], steps + next;
  }

  lemma NobodySurvives(st: State)
    requires st.proposers == map[1 := NoShow(0), 2 := NoShow(1)] && st.oracle.proposerCount == 2
    ensures IsFullSet(st, [1, 2]) && SurvivorVotes(st.proposers, [1, 2]) == []
  {
    assert SurvivorVotes(st.proposers, [2]) == [];
  }

  /** A dead end that holds one unit more than the principal: each of two halves of a unit was rounded up. */
  lemma DeadEndKeepsRounding() returns (states: seq<State>, steps: seq<Step>)
    ensures IsRun(states, steps) && |steps| == 17
    ensures !Terminal(states[16].oracle) && states[17].oracle.phase == InvalidDeadend
    ensures Admitted(states[17].config)
    ensures Principal(states[17]) == 0 && states[17].donated == 0 && states[17].vault == 1
  {
    states, steps := DisputeIsBurned();
    NoPrincipal();
  }

  lemma NoPrincipal()
    ensures Admitted(SHIPPED) && Principal(Burned()) == 0
  {
    var b := Burned();
    TotalZero(b.proposers, Base);
    TotalZero(b.facts, FactKept);
    NoVoteKept(b.facts, b.votes);
  }

  lemma NoVoteKept(facts: map<Address, Fact>, votes: map<Address, Vote>)
    requires 3 in facts && Rejected(facts[3])
    requires forall v :: v in votes ==> votes[v].fact == 3 && votes[v].approve && votes[v].stake <= 1
    ensures Admitted(SHIPPED) && Total(votes, VoteKept(SHIPPED, facts)) == 0
  {
    forall v | v in votes ensures VoteKept(SHIPPED, facts)(votes[v]) == 0 {
      assert OnRejected(facts, votes[v]);
      assert VoteSlash(SHIPPED, votes[v].stake) == votes[v].stake;
      assert VoteCut(SHIPPED, facts)(votes[v]) == votes[v].stake;
    }
    TotalZero(votes, VoteKept(SHIPPED, facts));
  }

  /** A run in which the submitter closes a fact while a vote without stake is outstanding, which is then stranded. */
  lemma VoteIsStranded() returns (states: seq<State>, steps: seq<Step>)
    ensures IsRun(states, steps) && |steps| == 20 && steps[19] == StepClaimFact(3)
    ensures Admitted(states[20].config) && 6 in states[20].votes && ClaimFactVote(states[20], 6).None?
  {
    states, steps := DisputeIsBurned();
    var b := Burned();
    var s18 := HalfIsNothing(b, 4);
    var s19 := HalfIsNothing(s18, 5);
    var s20 := s19.(facts := s19.facts - {3});
    assert ClaimFact(s19, 3) == Some(s20);
    var more, next := [b, s18, s19, s20], [StepClaimFactVote(4), StepClaimFactVote(5), StepClaimFact(3)];
    RunGoesOn(states, steps, more, next);
    states, steps := states + more[1..], steps + next;
  }

  /** A rejected approval of stake 1 is paid nothing. */
  lemma HalfIsNothing(st: State, v: Address) returns (st': State)
    requires st.config == SHIPPED && Terminal(st.oracle) && v in st.votes && st.votes[v] == Vote(3, true, 1)
    requires 3 in st.facts && Rejected(st.facts[3])
    ensures Admitted(st.config) && ClaimFactVote(st, v) == Some(st')
    ensures st' == st.(votes := st.votes - {v}, facts := st.facts[3 := Untallied(st.facts[3], st.votes[v])])
  {
    assert VoteSlash(SHIPPED, 1) == 1;
    st' := ClaimFactVote(st, v).value;
  }
}
