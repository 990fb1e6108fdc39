/**
  The stake vault over every run: what it holds until the oracle is decided, that it can always pay everyone who has
  not claimed yet, and what stays behind (`programs/oracles/src/processor/claims/mod.rs`, lines 21-27).
 */
module VaultSolvency {
  import opened Arith
  import opened Options
  import opened Totals
  import opened StakeVault
  import Plurality
  import Reward

  // ---- what each account contributes ----

  /** The tokens of a proposer's bond that are in the vault. */
  function InVault(p: Proposer): int {
    if p.market.OpenMarket? then 0 else if p.disqualified then p.slashedAmount else p.bond
  }

  function SlashOf(p: Proposer): int {
    p.slashedAmount
  }

  function BondOf(p: Proposer): int {
    p.bond
  }

  function IsOpen(p: Proposer): int {
    if p.market.OpenMarket? then 1 else 0
  }

  function FactStake(f: Fact): int {
    f.stake
  }

  function IsSettled(f: Fact): int {
    if f.settled then 1 else 0
  }

  function AgreedStake(f: Fact): int {
    if f.agreed then f.stake else 0
  }

  function VoteStake(v: Vote): int {
    v.stake
  }

  /** The pool's share of the approving stakes on a rejected fact, rounded down once. */
  ghost function PoolCut(c: Config): Fact -> int
    requires Admitted(c)
  {
    (f: Fact) => if Rejected(f) then Fraction(f.approveStake, c.voteSlashNum, c.voteSlashDen) else 0
  }

  /** What a rejected fact puts into the pool. */
  ghost function Forfeited(c: Config): Fact -> int
    requires Admitted(c)
  {
    (f: Fact) => if Rejected(f) then f.stake + Fraction(f.approveStake, c.voteSlashNum, c.voteSlashDen) else 0
  }

  ghost predicate OnRejected(facts: map<Address, Fact>, v: Vote) {
    v.approve && v.fact in facts && Rejected(facts[v.fact])
  }

  ghost predicate OnAgreed(facts: map<Address, Fact>, v: Vote) {
    v.approve && v.fact in facts && facts[v.fact].agreed
  }

  /** What the slash of a single vote takes, rounded up for each vote. */
  ghost function VoteCut(c: Config, facts: map<Address, Fact>): Vote -> int
    requires Admitted(c)
  {
    (v: Vote) => if OnRejected(facts, v) then VoteSlash(c, v.stake) else 0
  }

  ghost function RejectedVote(facts: map<Address, Fact>): Vote -> int {
    (v: Vote) => if OnRejected(facts, v) then 1 else 0
  }

  ghost function AgreedVote(facts: map<Address, Fact>): Vote -> int {
    (v: Vote) => if OnAgreed(facts, v) then v.stake else 0
  }

  ghost function StakeOn(k: Address, approve: bool): Vote -> int {
    (v: Vote) => if v.fact == k && v.approve == approve then v.stake else 0
  }

  ghost function VotesOn(k: Address): Vote -> int {
    (v: Vote) => if v.fact == k && v.approve then 1 else 0
  }

  ghost function CutOn(c: Config, k: Address): Vote -> int
    requires Admitted(c)
  {
    (v: Vote) => if v.fact == k && v.approve then VoteSlash(c, v.stake) else 0
  }

  // ---- the invariant ----

  /** Until the outcome the vault holds the emission, every stake and bond that is not in a market, and gifts. */
  ghost predicate Conserved(st: State) {
    st.vault == st.oracle.rewardEmission + Total(st.proposers, InVault) + Total(st.facts, FactStake)
                + Total(st.votes, VoteStake) + st.donated
  }

  /** The pool is exactly what was slashed. */
  ghost predicate PoolIsSlashed(c: Config, pool: int, ps: map<Address, Proposer>, facts: map<Address, Fact>)
    requires Admitted(c)
  {
    pool == Total(ps, SlashOf) + Total(facts, Forfeited(c))
  }

  ghost predicate ApprovedIsCohort(total: int, facts: map<Address, Fact>, votes: map<Address, Vote>) {
    total == Total(facts, AgreedStake) + Total(votes, AgreedVote(facts))
  }

  /** What the slashes of the single votes take beyond the pool's share of the whole. */
  ghost function Rounding(c: Config, facts: map<Address, Fact>, votes: map<Address, Vote>): int
    requires Admitted(c)
  {
    Total(votes, VoteCut(c, facts)) - Total(facts, PoolCut(c))
  }

  ghost predicate RoundingIsSmall(c: Config, facts: map<Address, Fact>, votes: map<Address, Vote>)
    requires Admitted(c)
  {
    0 <= Rounding(c, facts, votes) <= Total(votes, RejectedVote(facts))
  }

  /** The tallies of a fact are the stakes of its outstanding votes. */
  ghost predicate TalliesMatch(facts: map<Address, Fact>, votes: map<Address, Vote>) {
    forall k :: k in facts ==>
      facts[k].approveStake == Total(votes, StakeOn(k, true))
      && facts[k].duplicateStake == Total(votes, StakeOn(k, false))
  }

  ghost predicate ProposerOk(p: Proposer) {
    && p.slashedAmount <= p.bond
    && (!p.slashed ==> p.slashedAmount == 0 && !p.disqualified)
    && (p.slashed && !p.disqualified ==> p.aiFinalized)
    && (p.market.OpenMarket? ==> !p.disqualified)
  }

  ghost predicate ProposersOk(ps: map<Address, Proposer>, open: int) {
    (forall k :: k in ps ==> ProposerOk(ps[k])) && open == Total(ps, IsOpen)
  }

  ghost predicate FactsCounted(o: Oracle, facts: map<Address, Fact>) {
    o.factCount == |facts| && o.settledCount == Total(facts, IsSettled)
    && forall k :: k in facts ==>
      !(facts[k].agreed && facts[k].duplicate) && (!facts[k].settled ==> !facts[k].agreed && !facts[k].duplicate)
  }

  ghost predicate Untouched(p: Proposer) {
    !p.disqualified && !p.slashed && p.claimOption.None? && p.market.NoMarket?
  }

  /** What the phase says about the accounts. */
  ghost predicate PhaseOk(st: State) {
    match st.oracle.phase
    case Proposal =>
      && st.facts == map[] && st.votes == map[] && st.oracle.totalOracleStake == Total(st.proposers, BondOf)
      && forall k :: k in st.proposers ==> Untouched(st.proposers[k])
    case FactProposal =>
      && st.votes == map[] && (forall k :: k in st.facts ==> !st.facts[k].settled)
      && forall k :: k in st.proposers ==> st.proposers[k].market.NoMarket?
    case FactVoting =>
      && (forall k :: k in st.facts && st.facts[k].settled ==> st.now >= st.oracle.phaseEndsAt)
      && forall k :: k in st.proposers ==> st.proposers[k].market.NoMarket?
    case AiClaim =>
      && (forall k :: k in st.facts ==> st.facts[k].settled)
      && forall k :: k in st.proposers ==> st.proposers[k].market.NoMarket?
    case _ => forall k :: k in st.facts ==> st.facts[k].settled
  }

  /** The sums over facts and votes. */
  ghost predicate FactsOk(c: Config, o: Oracle, facts: map<Address, Fact>, votes: map<Address, Vote>)
    requires Admitted(c)
  {
    && ApprovedIsCohort(o.totalApprovedFactStake, facts, votes) && RoundingIsSmall(c, facts, votes)
    && TalliesMatch(facts, votes) && FactsCounted(o, facts)
    && forall v :: v in votes ==> votes[v].fact in facts
  }

  ghost predicate Running(st: State) {
    && Admitted(st.config) && !Terminal(st.oracle) && st.oracle.rewardPool == 0 && PhaseOk(st)
    && st.oracle.totalCorrectProposerStake == 0
    && Conserved(st) && PoolIsSlashed(st.config, st.oracle.bondPool, st.proposers, st.facts)
    && FactsOk(st.config, st.oracle, st.facts, st.votes)
    && ProposersOk(st.proposers, st.oracle.openChallengeCount)
  }

  // ---- each instruction before the outcome ----

  lemma CreatedRuns(st: State)
    requires Created(st)
    ensures Running(st)
  {
  }

  lemma ProposeKeeps(st: State, k: Address, option: u8, bond: u64, st': State)
    requires Running(st) && Propose(st, k, option, bond) == Some(st')
    ensures Running(st')
  {
    var p := st'.proposers[k];
    TotalWith(st.proposers, k, p, InVault);
    TotalWith(st.proposers, k, p, SlashOf);
    TotalWith(st.proposers, k, p, BondOf);
    TotalWith(st.proposers, k, p, IsOpen);
  }

  lemma ConflictKeeps(st: State, st': State)
    requires Running(st) && FinalizeProposals(st) == Some(st') && st'.oracle.phase == FactProposal
    ensures Running(st')
  {
  }

  lemma SubmitFactKeeps(st: State, k: Address, stake: u64, st': State)
    requires Running(st) && SubmitFact(st, k, stake) == Some(st')
    ensures Running(st')
  {
    NewFactSums(st.config, st.facts, k, st'.facts[k]);
    NewFactOk(st.config, st.oracle, st.facts, st.votes, k, st'.facts[k], st'.oracle);
  }

  lemma NewFactOk(
    c: Config, o: Oracle, facts: map<Address, Fact>, votes: map<Address, Vote>, k: Address, f: Fact, o': Oracle)
    requires Admitted(c) && FactsOk(c, o, facts, votes) && votes == map[] && k !in facts
    requires f == Fact(f.stake, 0, 0, false, false, false)
    requires o' == o.(factCount := o.factCount + 1, totalOracleStake := o'.totalOracleStake)
    ensures FactsOk(c, o', facts[k := f], votes)
  {
    NewFactSums(c, facts, k, f);
    NoVotesNoCohort(c, facts, facts[k := f], votes);
    NewFactCounted(o, facts, k, f, o');
    NoVotesMatch(facts[k := f], votes);
  }

  lemma NewFactCounted(o: Oracle, facts: map<Address, Fact>, k: Address, f: Fact, o': Oracle)
    requires FactsCounted(o, facts) && k !in facts && !f.settled && !f.agreed && !f.duplicate
    requires o'.factCount == o.factCount + 1 && o'.settledCount == o.settledCount
    ensures FactsCounted(o', facts[k := f])
  {
    TotalWith(facts, k, f, IsSettled);
    assert facts[k := f].Keys == facts.Keys + {k};
  }

  /** Without votes the sums over votes are 0. */
  lemma NoVotesNoCohort(c: Config, facts: map<Address, Fact>, facts': map<Address, Fact>, votes: map<Address, Vote>)
    requires Admitted(c) && Total(facts', PoolCut(c)) == Total(facts, PoolCut(c)) && votes == map[]
    ensures Total(votes, AgreedVote(facts')) == 0 == Total(votes, AgreedVote(facts))
    ensures RoundingIsSmall(c, facts, votes) ==> RoundingIsSmall(c, facts', votes)
  {
  }

  lemma NoVotesMatch(facts: map<Address, Fact>, votes: map<Address, Vote>)
    requires votes == map[] && forall k :: k in facts ==> facts[k].approveStake == 0 == facts[k].duplicateStake
    ensures TalliesMatch(facts, votes)
  {
  }

  /** A fact that is not settled yet counts for nothing but its stake. */
  lemma NewFactSums(c: Config, facts: map<Address, Fact>, k: Address, f: Fact)
    requires Admitted(c) && !f.settled && !f.agreed
    requires k in facts ==> !facts[k].settled && !facts[k].agreed
    ensures
      var facts' := facts[k := f];
      && Total(facts', FactStake) == Total(facts, FactStake) + f.stake - (if k in facts then facts[k].stake else 0)
      && Total(facts', IsSettled) == Total(facts, IsSettled)
      && Total(facts', AgreedStake) == Total(facts, AgreedStake)
      && Total(facts', PoolCut(c)) == Total(facts, PoolCut(c))
      && Total(facts', Forfeited(c)) == Total(facts, Forfeited(c))
  {
    TotalWith(facts, k, f, FactStake);
    TotalWith(facts, k, f, IsSettled);
    TotalWith(facts, k, f, AgreedStake);
    TotalWith(facts, k, f, PoolCut(c));
    TotalWith(facts, k, f, Forfeited(c));
  }

  lemma AdvanceKeeps(st: State, st': State)
    requires Running(st) && AdvancePhase(st) == Some(st')
    ensures Running(st')
  {
  }

  /** One proposer changes before the outcome, and with it the vault and the pool. */
  lemma ProposerChangeKeeps(st: State, k: Address, p: Proposer, st': State)
    requires Running(st) && k in st.proposers && ChangesProposer(st, k, p, st')
    requires ProposerOk(p) && PhaseOk(st') && !Terminal(st'.oracle)
    requires st'.vault - st.vault == InVault(p) - InVault(st.proposers[k])
    requires st'.oracle.bondPool - st.oracle.bondPool == SlashOf(p) - SlashOf(st.proposers[k])
    requires st'.oracle.openChallengeCount - st.oracle.openChallengeCount == IsOpen(p) - IsOpen(st.proposers[k])
    ensures Running(st')
  {
    TotalWith(st.proposers, k, p, InVault);
    TotalWith(st.proposers, k, p, SlashOf);
    TotalWith(st.proposers, k, p, IsOpen);
  }

  lemma SubmitAiClaimKeeps(st: State, k: Address, option: u8, st': State)
    requires Running(st) && SubmitAiClaim(st, k, option) == Some(st')
    ensures Running(st')
  {
    ProposerChangeKeeps(st, k, st'.proposers[k], st');
  }

  lemma FinalizeAiClaimKeeps(st: State, k: Address, st': State)
    requires Running(st) && FinalizeAiClaim(st, k) == Some(st')
    ensures Running(st')
  {
    FinalizedProposer(st, k, st');
    ProposerChangeKeeps(st, k, st'.proposers[k], st');
  }

  /** Everything but one proposer, the pool and the phase stays as it is. */
  ghost predicate ChangesProposer(st: State, k: Address, p: Proposer, st': State) {
    && st'.proposers == st.proposers[k := p]
    && st'.config == st.config && st'.facts == st.facts && st'.votes == st.votes && st'.donated == st.donated
    && st'.oracle.rewardEmission == st.oracle.rewardEmission && st'.oracle.rewardPool == st.oracle.rewardPool
    && st'.oracle.totalApprovedFactStake == st.oracle.totalApprovedFactStake
    && st'.oracle.totalCorrectProposerStake == st.oracle.totalCorrectProposerStake
    && st'.oracle.factCount == st.oracle.factCount && st'.oracle.settledCount == st.oracle.settledCount
  }

  lemma FinalizedProposer(st: State, k: Address, st': State)
    requires Admitted(st.config) && FinalizeAiClaim(st, k) == Some(st') && PhaseOk(st) && ProposerOk(st.proposers[k])
    ensures k in st'.proposers && ChangesProposer(st, k, st'.proposers[k], st')
    ensures PhaseOk(st') && !Terminal(st'.oracle) && ProposerOk(st'.proposers[k])
    ensures InVault(st'.proposers[k]) == InVault(st.proposers[k]) && st'.vault == st.vault
    ensures st'.oracle.bondPool - st.oracle.bondPool == SlashOf(st'.proposers[k]) - SlashOf(st.proposers[k])
    ensures st'.oracle.openChallengeCount == st.oracle.openChallengeCount
    ensures IsOpen(st'.proposers[k]) == IsOpen(st.proposers[k])
  {
    assert st.proposers[k].market.NoMarket?;
  }

  lemma OpenChallengeKeeps(st: State, k: Address, price: nat, st': State)
    requires Running(st) && OpenChallenge(st, k, price) == Some(st')
    ensures Running(st')
  {
    ProposerChangeKeeps(st, k, st'.proposers[k], st');
  }

  lemma SettleChallengeKeeps(st: State, k: Address, passTwap: nat, failTwap: nat, st': State)
    requires Running(st) && SettleChallenge(st, k, passTwap, failTwap) == Some(st')
    ensures Running(st')
  {
    ChallengedProposer(st, k, passTwap, failTwap, st');
    ProposerChangeKeeps(st, k, st'.proposers[k], st');
  }

  lemma ChallengedProposer(st: State, k: Address, passTwap: nat, failTwap: nat, st': State)
    requires Admitted(st.config) && SettleChallenge(st, k, passTwap, failTwap) == Some(st')
    requires PhaseOk(st) && ProposerOk(st.proposers[k])
    ensures k in st'.proposers && ChangesProposer(st, k, st'.proposers[k], st')
    ensures PhaseOk(st') && !Terminal(st'.oracle) && ProposerOk(st'.proposers[k])
    ensures st'.vault - st.vault == InVault(st'.proposers[k]) - InVault(st.proposers[k])
    ensures st'.oracle.bondPool - st.oracle.bondPool == SlashOf(st'.proposers[k]) - SlashOf(st.proposers[k])
    ensures st'.oracle.openChallengeCount - st.oracle.openChallengeCount
            == IsOpen(st'.proposers[k]) - IsOpen(st.proposers[k])
  {
    var p, fee := st.proposers[k], KassFee(st.config, st.proposers[k]);
    assert fee <= p.bond - p.slashedAmount;
  }

  // ---- votes ----

  lemma VoteFactKeeps(st: State, v: Address, k: Address, approve: bool, stake: u64, st': State)
    requires Running(st) && VoteFact(st, v, k, approve, stake) == Some(st')
    ensures Running(st')
  {
    var f, vote := st'.facts[k], st'.votes[v];
    assert st'.facts == st.facts[k := f] && st'.votes == st.votes[v := vote];
    NewFactSums(st.config, st.facts, k, f);
    TotalWith(st.votes, v, vote, VoteStake);
    VoteOk(st.config, st.oracle, st.facts, k, st.votes, v, vote, st'.oracle);
  }

  lemma VoteOk(
    c: Config, o: Oracle, facts: map<Address, Fact>, k: Address, votes: map<Address, Vote>, v: Address, vote: Vote,
    o': Oracle)
    requires Admitted(c) && FactsOk(c, o, facts, votes) && k in facts && !facts[k].settled
    requires v !in votes && vote.fact == k && o' == o.(totalOracleStake := o'.totalOracleStake)
    requires Fits(vote.stake + if vote.approve then facts[k].approveStake else facts[k].duplicateStake)
    ensures FactsOk(c, o', facts[k := Tallied(facts[k], vote.approve, vote.stake)], votes[v := vote])
  {
    var f := Tallied(facts[k], vote.approve, vote.stake);
    VoteIsTallied(facts, k, votes, v, vote);
    VoteKeepsSums(c, o, facts, k, f, votes, v, vote);
    assert facts[k := f].Keys == facts.Keys;
    assert forall j :: j in facts ==> facts[k := f][j].agreed == facts[j].agreed;
  }

  lemma VoteKeepsSums(
    c: Config, o: Oracle, facts: map<Address, Fact>, k: Address, f: Fact, votes: map<Address, Vote>, v: Address,
    vote: Vote)
    requires Admitted(c) && k in facts && !facts[k].settled && !facts[k].agreed && !f.settled && !f.agreed
    requires f.stake == facts[k].stake && v !in votes && vote.fact == k
    requires ApprovedIsCohort(o.totalApprovedFactStake, facts, votes) && RoundingIsSmall(c, facts, votes)
    ensures ApprovedIsCohort(o.totalApprovedFactStake, facts[k := f], votes[v := vote])
    ensures RoundingIsSmall(c, facts[k := f], votes[v := vote])
    ensures Total(facts[k := f], IsSettled) == Total(facts, IsSettled)
  {
    NewFactSums(c, facts, k, f);
    VoteChangesNoCohort(c, facts, k, f, votes, v, vote);
  }

  /** A vote on a fact that is not settled belongs to no cohort. */
  lemma VoteChangesNoCohort(
    c: Config, facts: map<Address, Fact>, k: Address, f: Fact, votes: map<Address, Vote>, v: Address, vote: Vote)
    requires Admitted(c) && k in facts && !facts[k].settled && !facts[k].agreed && !f.settled && !f.agreed
    requires v !in votes && vote.fact == k
    ensures
      var facts', votes' := facts[k := f], votes[v := vote];
      && Total(votes', AgreedVote(facts')) == Total(votes, AgreedVote(facts))
      && Total(votes', RejectedVote(facts')) == Total(votes, RejectedVote(facts))
      && Total(votes', VoteCut(c, facts')) == Total(votes, VoteCut(c, facts))
  {
    var facts' := facts[k := f];
    TotalSame(votes, AgreedVote(facts'), AgreedVote(facts));
    TotalSame(votes, RejectedVote(facts'), RejectedVote(facts));
    TotalSame(votes, VoteCut(c, facts'), VoteCut(c, facts));
    TotalWith(votes, v, vote, AgreedVote(facts'));
    TotalWith(votes, v, vote, RejectedVote(facts'));
    TotalWith(votes, v, vote, VoteCut(c, facts'));
  }

  lemma VoteIsTallied(facts: map<Address, Fact>, k: Address, votes: map<Address, Vote>, v: Address, vote: Vote)
    requires TalliesMatch(facts, votes) && k in facts && v !in votes && vote.fact == k
    requires Fits(vote.stake + if vote.approve then facts[k].approveStake else facts[k].duplicateStake)
    ensures TalliesMatch(facts[k := Tallied(facts[k], vote.approve, vote.stake)], votes[v := vote])
  {
    var facts', votes' := facts[k := Tallied(facts[k], vote.approve, vote.stake)], votes[v := vote];
    forall j | j in facts'
      ensures facts'[j].approveStake == Total(votes', StakeOn(j, true))
              && facts'[j].duplicateStake == Total(votes', StakeOn(j, false))
    {
      TotalWith(votes, v, vote, StakeOn(j, true));
      TotalWith(votes, v, vote, StakeOn(j, false));
    }
  }

  // ---- settling facts ----

  /** Rounding each vote up and the whole down differs by at most one unit a vote. */
  lemma CutsCoverThePool(c: Config, votes: map<Address, Vote>, k: Address, whole: u64)
    requires Admitted(c) && whole == Total(votes, StakeOn(k, true))
    ensures
      0 <= Total(votes, CutOn(c, k)) - Fraction(whole, c.voteSlashNum, c.voteSlashDen) <= Total(votes, VotesOn(k))
  {
    var num, den := c.voteSlashNum, c.voteSlashDen;
    var cuts, count := Total(votes, CutOn(c, k)), Total(votes, VotesOn(k));
    forall j | j in votes
      ensures num * StakeOn(k, true)(votes[j]) <= den * CutOn(c, k)(votes[j]) + 0 * VotesOn(k)(votes[j])
      ensures den * CutOn(c, k)(votes[j]) <= num * StakeOn(k, true)(votes[j]) + (den - 1) * VotesOn(k)(votes[j])
    {
      CutBounds(c, votes[j], k);
    }
    TotalBound(votes, StakeOn(k, true), CutOn(c, k), VotesOn(k), num, den, 0);
    TotalBound(votes, CutOn(c, k), StakeOn(k, true), VotesOn(k), den, num, den - 1);
    TotalAtLeastZero(votes, VotesOn(k));
    CeilSumAgainstFloor(whole * num, den, cuts, count);
  }

  lemma CutBounds(c: Config, v: Vote, k: Address)
    requires Admitted(c)
    ensures c.voteSlashNum * StakeOn(k, true)(v) <= c.voteSlashDen * CutOn(c, k)(v)
    ensures
      c.voteSlashDen * CutOn(c, k)(v) <= c.voteSlashNum * StakeOn(k, true)(v) + (c.voteSlashDen - 1) * VotesOn(k)(v)
  {
    if v.fact == k && v.approve {
      CeilBounds(v.stake * c.voteSlashNum, c.voteSlashDen);
      assert v.stake * c.voteSlashNum == c.voteSlashNum * v.stake;
    }
  }

  lemma CeilBounds(x: int, den: int)
    requires den > 0
    ensures x <= den * ((x + (den - 1)) / den) <= x + (den - 1)
  {
    DivBounds(x + (den - 1), den);
  }

  lemma CeilSumAgainstFloor(x: int, den: int, cuts: int, count: nat)
    requires den > 0 && x <= den * cuts <= x + (den - 1) * count
    ensures 0 <= cuts - x / den <= count
  {
    DivBounds(x, den);
    if cuts < x / den {
      MulMono(cuts + 1, x / den, den);
    }
    if cuts > x / den + count {
      MulMono(x / den + count + 1, cuts, den);
      MulAdd(x / den, count + 1, den);
    }
  }

  /** A fact as it is settled. */
  ghost predicate Settles(facts: map<Address, Fact>, k: Address, f: Fact) {
    && k in facts && !facts[k].settled && !facts[k].agreed && !facts[k].duplicate
    && f == facts[k].(settled := true, agreed := f.agreed, duplicate := f.duplicate) && !(f.agreed && f.duplicate)
  }

  lemma SettlementSums(c: Config, facts: map<Address, Fact>, k: Address, f: Fact)
    requires Admitted(c) && Settles(facts, k, f)
    ensures
      var facts', share := facts[k := f], Fraction(f.approveStake, c.voteSlashNum, c.voteSlashDen);
      && Total(facts', FactStake) == Total(facts, FactStake)
      && Total(facts', IsSettled) == Total(facts, IsSettled) + 1
      && Total(facts', AgreedStake) == Total(facts, AgreedStake) + (if f.agreed then f.stake else 0)
      && Total(facts', PoolCut(c)) == Total(facts, PoolCut(c)) + (if Rejected(f) then share else 0)
      && Total(facts', Forfeited(c)) == Total(facts, Forfeited(c)) + (if Rejected(f) then f.stake + share else 0)
  {
    TotalWith(facts, k, f, FactStake);
    TotalWith(facts, k, f, IsSettled);
    TotalWith(facts, k, f, AgreedStake);
    TotalWith(facts, k, f, PoolCut(c));
    TotalWith(facts, k, f, Forfeited(c));
  }

  lemma SettlementApproves(facts: map<Address, Fact>, votes: map<Address, Vote>, k: Address, f: Fact)
    requires Settles(facts, k, f) && f.approveStake == Total(votes, StakeOn(k, true))
    ensures
      Total(votes, AgreedVote(facts[k := f]))
      == Total(votes, AgreedVote(facts)) + (if f.agreed then f.approveStake else 0)
  {
    if f.agreed {
      TotalSplits(votes, AgreedVote(facts[k := f]), AgreedVote(facts), StakeOn(k, true));
    } else {
      TotalSame(votes, AgreedVote(facts[k := f]), AgreedVote(facts));
    }
  }

  lemma SettlementCuts(c: Config, facts: map<Address, Fact>, votes: map<Address, Vote>, k: Address, f: Fact)
    requires Admitted(c) && Settles(facts, k, f)
    ensures
      Total(votes, VoteCut(c, facts[k := f]))
      == Total(votes, VoteCut(c, facts)) + (if Rejected(f) then Total(votes, CutOn(c, k)) else 0)
    ensures
      Total(votes, RejectedVote(facts[k := f]))
      == Total(votes, RejectedVote(facts)) + (if Rejected(f) then Total(votes, VotesOn(k)) else 0)
  {
    var facts' := facts[k := f];
    if Rejected(f) {
      TotalSplits(votes, VoteCut(c, facts'), VoteCut(c, facts), CutOn(c, k));
      TotalSplits(votes, RejectedVote(facts'), RejectedVote(facts), VotesOn(k));
    } else {
      TotalSame(votes, VoteCut(c, facts'), VoteCut(c, facts));
      TotalSame(votes, RejectedVote(facts'), RejectedVote(facts));
    }
  }

  /** When as many facts are settled as there are, all are. */
  lemma {:induction false} CountedAll(facts: map<Address, Fact>)
    ensures Total(facts, IsSettled) <= |facts|
    ensures Total(facts, IsSettled) == |facts| ==> forall k :: k in facts ==> facts[k].settled
    decreases facts.Keys
  {
    if facts != map[] {
      var k :| k in facts;
      TotalWithout(facts, k, IsSettled);
      assert facts.Keys == (facts - {k}).Keys + {k};
      CountedAll(facts - {k});
      assert forall j :: j in facts && j != k ==> j in facts - {k} && (facts - {k})[j] == facts[j];
    }
  }

  ghost predicate OnlyFactsChange(st: State, st': State) {
    && st'.config == st.config && st'.proposers == st.proposers && st'.votes == st.votes && st'.vault == st.vault
    && st'.donated == st.donated && st'.now == st.now
    && st'.oracle.rewardEmission == st.oracle.rewardEmission && st'.oracle.rewardPool == st.oracle.rewardPool
    && st'.oracle.totalCorrectProposerStake == st.oracle.totalCorrectProposerStake
    && st'.oracle.factCount == st.oracle.factCount
    && st'.oracle.openChallengeCount == st.oracle.openChallengeCount
  }

  /** What settling a fact does to the accounts. */
  lemma SettledFact(st: State, k: Address, st': State)
    requires Admitted(st.config) && SettleFact(st, k) == Some(st') && FactsCounted(st.oracle, st.facts)
    ensures k in st'.facts && st'.facts == st.facts[k := st'.facts[k]] && Settles(st.facts, k, st'.facts[k])
    ensures
      var f, share := st'.facts[k], Fraction(st'.facts[k].approveStake, st.config.voteSlashNum, st.config.voteSlashDen);
      && st'.oracle.bondPool == st.oracle.bondPool + (if Rejected(f) then f.stake + share else 0)
      && st'.oracle.totalApprovedFactStake
         == st.oracle.totalApprovedFactStake + (if f.agreed then f.stake + f.approveStake else 0)
    ensures OnlyFactsChange(st, st') && st'.oracle.settledCount == st.oracle.settledCount + 1
    ensures
      if st'.oracle.settledCount == st'.oracle.factCount then st'.oracle.phase == AiClaim
      else st'.oracle.phase == FactVoting && st'.oracle.phaseEndsAt == st.oracle.phaseEndsAt
    ensures st.oracle.phase == FactVoting && st.now >= st.oracle.phaseEndsAt
  {
  }

  lemma SettleFactKeeps(st: State, k: Address, st': State)
    requires Running(st) && SettleFact(st, k) == Some(st')
    ensures Running(st')
  {
    SettledFact(st, k, st');
    SettlementMoney(st, k, st'.facts[k], st');
    SettlementOk(st.config, st.oracle, st.facts, st.votes, k, st'.facts[k], st'.oracle);
    SettlementPhase(st, st');
  }

  lemma SettlementMoney(st: State, k: Address, f: Fact, st': State)
    requires Admitted(st.config) && Conserved(st)
    requires PoolIsSlashed(st.config, st.oracle.bondPool, st.proposers, st.facts)
    requires Settles(st.facts, k, f) && OnlyFactsChange(st, st') && st'.facts == st.facts[k := f]
    requires
      var share := Fraction(f.approveStake, st.config.voteSlashNum, st.config.voteSlashDen);
      st'.oracle.bondPool == st.oracle.bondPool + (if Rejected(f) then f.stake + share else 0)
    ensures Conserved(st') && PoolIsSlashed(st'.config, st'.oracle.bondPool, st'.proposers, st'.facts)
  {
    SettlementSums(st.config, st.facts, k, f);
  }

  lemma SettlementPhase(st: State, st': State)
    requires PhaseOk(st) && FactsCounted(st'.oracle, st'.facts) && st'.proposers == st.proposers && st'.now == st.now
    requires st.oracle.phase == FactVoting && st.now >= st.oracle.phaseEndsAt
    requires
      if st'.oracle.settledCount == st'.oracle.factCount then st'.oracle.phase == AiClaim
      else st'.oracle.phase == FactVoting && st'.oracle.phaseEndsAt == st.oracle.phaseEndsAt
    ensures PhaseOk(st')
  {
    CountedAll(st'.facts);
  }

  lemma SettlementOk(
    c: Config, o: Oracle, facts: map<Address, Fact>, votes: map<Address, Vote>, k: Address, f: Fact, o': Oracle)
    requires Admitted(c) && FactsOk(c, o, facts, votes) && Settles(facts, k, f)
    requires o'.factCount == o.factCount && o'.settledCount == o.settledCount + 1
    requires o'.totalApprovedFactStake
             == o.totalApprovedFactStake + (if f.agreed then f.stake + f.approveStake else 0)
    ensures FactsOk(c, o', facts[k := f], votes)
  {
    SettlementSums(c, facts, k, f);
    SettlementApproves(facts, votes, k, f);
    SettlementRounds(c, facts, votes, k, f);
    SettlementTallies(facts, votes, k, f);
    assert facts[k := f].Keys == facts.Keys;
  }

  lemma SettlementRounds(c: Config, facts: map<Address, Fact>, votes: map<Address, Vote>, k: Address, f: Fact)
    requires Admitted(c) && Settles(facts, k, f) && f.approveStake == Total(votes, StakeOn(k, true))
    requires RoundingIsSmall(c, facts, votes)
    ensures RoundingIsSmall(c, facts[k := f], votes)
  {
    SettlementSums(c, facts, k, f);
    SettlementCuts(c, facts, votes, k, f);
    CutsCoverThePool(c, votes, k, f.approveStake);
  }

  lemma SettlementTallies(facts: map<Address, Fact>, votes: map<Address, Vote>, k: Address, f: Fact)
    requires TalliesMatch(facts, votes) && Settles(facts, k, f)
    ensures TalliesMatch(facts[k := f], votes)
  {
  }
}
