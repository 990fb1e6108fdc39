/**
  One oracle's accounts and its stake vault (`programs/oracles/src/processor/`): every instruction from the first
  proposal to the last claim, as a function that gives the new state or fails. An instruction loads copies of the
  accounts it is given and writes them back at its end, so each is one step. Finalizers that take any part of a set take
  one account at a time here: the phase moves with the last one only, so a call with several is that many calls with
  one.
 */
module StakeVault {
  import opened Arith
  import opened Options
  import opened Totals
  import Plurality
  import Reward

  type Address = nat

  const MAX_PROPOSERS := 60
  const KASS_PRICE_SCALE := 1_000_000_000_000

  // ---- accounts ----

  /** The parameters an oracle takes over from the protocol when it is created. */
  datatype Config = Config(
    thresholdNum: u64, thresholdDen: u64, marketNum: u64, marketDen: u64, flipNum: u64, flipDen: u64,
    voteSlashNum: u64, voteSlashDen: u64, feeNum: u64, feeDen: u64, proposerWeight: u64, factWeight: u64,
    minStake: u64, optionsCount: u8, deadline: int, phaseWindow: int, proposalWindow: int, twapWindow: int)

  /** What `set_config` and the shipped defaults admit, as far as the vault depends on it. */
  predicate Admitted(c: Config) {
    && c.thresholdDen > 0 && c.marketDen > 0
    && 0 < c.flipDen && c.flipNum <= c.flipDen
    && 0 < c.voteSlashDen && c.voteSlashNum <= c.voteSlashDen
    && 0 < c.feeDen && c.feeNum <= c.feeDen
    && c.phaseWindow > 0 && c.proposalWindow > 0 && c.twapWindow > 0
  }

  datatype Phase = Proposal | FactProposal | FactVoting | AiClaim | Challenge | Resolved | InvalidDeadend

  /** `resolvedOption` is `None` for the sentinel 0xFF. */
  datatype Oracle = Oracle(
    phase: Phase, phaseEndsAt: int, proposerCount: nat, survivingCount: nat, factCount: nat, totalOracleStake: u64,
    bondPool: u64, disputeBondTotal: u64, settledCount: nat, aiFinalizedCount: nat, resolvedOption: Option<u8>,
    openChallengeCount: nat, totalCorrectProposerStake: u64, totalApprovedFactStake: u64, rewardPool: u64,
    rewardEmission: u64)

  /** The challenge of a proposer's AI claim: the claim's flag and the market's, of which a proposer has at most one. */
  datatype Market = NoMarket | OpenMarket(twapEnd: int) | SettledMarket

  /** `claimOption` is `None` for the sentinel 0xFF, which no real option equals. */
  datatype Proposer = Proposer(
    bond: u64, originalOption: u8, claimOption: Option<u8>, disqualified: bool, slashed: bool, flipped: bool,
    aiFinalized: bool, slashedAmount: u64, market: Market)

  datatype Fact = Fact(
    stake: u64, approveStake: u64, duplicateStake: u64, agreed: bool, duplicate: bool, settled: bool)

  datatype Vote = Vote(fact: Address, approve: bool, stake: u64)

  /** `donated` is what was sent to the vault from outside the program; `now` is the chain's clock. */
  datatype State = State(
    config: Config, oracle: Oracle, proposers: map<Address, Proposer>, facts: map<Address, Fact>,
    votes: map<Address, Vote>, vault: int, donated: nat, now: int)

  predicate Fits(x: int) {
    0 <= x <= U64_MAX
  }

  predicate Terminal(o: Oracle) {
    o.phase == Resolved || o.phase == InvalidDeadend
  }

  /** The state that `create_oracle` leaves: only the emission is in the vault. */
  ghost predicate Created(st: State) {
    && Admitted(st.config) && st.proposers == map[] && st.facts == map[] && st.votes == map[] && st.donated == 0
    && Fits(st.vault)
    && st.oracle == Oracle(
         Proposal, st.config.deadline + st.config.proposalWindow, 0, 0, 0, 0, 0, 0, 0, 0, Some(0), 0, 0, 0, 0, st.vault)
  }

  // ---- proposals ----

  /** `propose`. A closed window opens again for the first proposal. */
  function Propose(st: State, k: Address, option: u8, bond: u64): Option<State> {
    var o, c := st.oracle, st.config;
    var closed := st.now >= o.phaseEndsAt;
    if bond < c.minStake || o.phase != Proposal || st.now < c.deadline then None
    else if closed && o.proposerCount != 0 then None
    else if o.proposerCount >= MAX_PROPOSERS || option >= c.optionsCount || k in st.proposers then None
    else if !Fits(o.totalOracleStake + bond) then None
    else Some(st.(
      proposers := st.proposers[k := Proposer(bond, option, None, false, false, false, false, 0, NoMarket)],
      vault := st.vault + bond,
      oracle := o.(
        phaseEndsAt := if closed then st.now + c.proposalWindow else o.phaseEndsAt,
        proposerCount := o.proposerCount + 1, survivingCount := o.survivingCount + 1,
        totalOracleStake := o.totalOracleStake + bond)))
  }

  ghost predicate AllPropose(st: State, option: u8) {
    forall k :: k in st.proposers ==> st.proposers[k].originalOption == option
  }

  /** `finalize_proposals`, over the full proposer set. */
  ghost function FinalizeProposals(st: State): Option<State> {
    var o := st.oracle;
    if o.phase != Proposal || st.now < o.phaseEndsAt || o.proposerCount == 0 then None
    else if |st.proposers| != o.proposerCount then None
    else if exists option: u8 :: AllPropose(st, option) then
      var option: u8 :| AllPropose(st, option);
      if !Fits(o.bondPool + o.rewardEmission) then None
      else Some(st.(oracle := o.(
        resolvedOption := Some(option), rewardPool := o.bondPool + o.rewardEmission,
        totalCorrectProposerStake := o.totalOracleStake, phase := Resolved)))
    else Some(st.(oracle := o.(
      disputeBondTotal := o.totalOracleStake, phase := FactProposal, phaseEndsAt := st.now + st.config.phaseWindow)))
  }

  // ---- facts ----

  /** `submit_fact`. */
  function SubmitFact(st: State, k: Address, stake: u64): Option<State> {
    var o := st.oracle;
    if stake < st.config.minStake || o.phase != FactProposal || st.now >= o.phaseEndsAt || k in st.facts then None
    else if o.factCount >= 0xFFFF || !Fits(o.totalOracleStake + stake) then None
    else Some(st.(
      facts := st.facts[k := Fact(stake, 0, 0, false, false, false)], vault := st.vault + stake,
      oracle := o.(factCount := o.factCount + 1, totalOracleStake := o.totalOracleStake + stake)))
  }

  /** `advance_phase`. */
  function AdvancePhase(st: State): Option<State> {
    var o := st.oracle;
    if o.phase != FactProposal || st.now < o.phaseEndsAt then None
    else Some(st.(oracle := o.(phase := FactVoting, phaseEndsAt := st.now + st.config.phaseWindow)))
  }

  /** The fact with one more vote on it. */
  function Tallied(f: Fact, approve: bool, stake: u64): Fact
    requires Fits(stake + if approve then f.approveStake else f.duplicateStake)
  {
    if approve then f.(approveStake := f.approveStake + stake) else f.(duplicateStake := f.duplicateStake + stake)
  }

  /** `vote_fact`. */
  function VoteFact(st: State, v: Address, k: Address, approve: bool, stake: u64): Option<State> {
    var o := st.oracle;
    if stake < st.config.minStake || o.phase != FactVoting || st.now >= o.phaseEndsAt then None
    else if k !in st.facts || v in st.votes then None
    else if !Fits(stake + if approve then st.facts[k].approveStake else st.facts[k].duplicateStake) then None
    else if !Fits(o.totalOracleStake + stake) then None
    else Some(st.(
      votes := st.votes[v := Vote(k, approve, stake)], vault := st.vault + stake,
      facts := st.facts[k := Tallied(st.facts[k], approve, stake)],
      oracle := o.(totalOracleStake := o.totalOracleStake + stake)))
  }

  /** A numerator of at most its denominator takes no more than the whole, so no cast of the source loses a digit. */
  function Fraction(value: u64, num: u64, den: u64): (part: u64)
    requires 0 < den && num <= den
    ensures part <= value
  {
    MulMono(num, den, value);
    MulMono(0, num, value);
    DivAtLeast(value * num, den, 0);
    DivBelow(value * num, den, value + 1);
    value * num / den
  }

  /** `finalize_facts` without facts: one proposer loses its bond, and after the last the pool is burned. */
  function SlashNoFacts(st: State, k: Address): Option<State> {
    var o := st.oracle;
    if o.phase != FactVoting || st.now < o.phaseEndsAt || o.disputeBondTotal == 0 || o.factCount != 0 then None
    else if k !in st.proposers || st.proposers[k].slashed then None
    else
      var p := st.proposers[k];
      if p.disqualified then Some(BurnedWhenNoneSurvive(st.(proposers := st.proposers[k := p.(slashed := true)])))
      else if !Fits(o.bondPool + p.bond) || o.survivingCount == 0 then None
      else
        var slashed := p.(disqualified := true, slashed := true, slashedAmount := p.bond);
        Some(BurnedWhenNoneSurvive(st.(
          proposers := st.proposers[k := slashed],
          oracle := o.(bondPool := o.bondPool + p.bond, survivingCount := o.survivingCount - 1))))
  }

  function BurnedWhenNoneSurvive(st: State): State {
    if st.oracle.survivingCount != 0 then st
    else st.(
      oracle := st.oracle.(phase := InvalidDeadend),
      vault := st.vault - (st.oracle.bondPool + st.oracle.rewardEmission))
  }

  predicate IsAgreed(f: Fact, o: Oracle, c: Config) {
    f.approveStake > f.duplicateStake && f.approveStake * c.thresholdDen >= o.disputeBondTotal * c.thresholdNum
  }

  /** `finalize_facts` on one fact. */
  function SettleFact(st: State, k: Address): Option<State>
    requires Admitted(st.config)
  {
    var o, c := st.oracle, st.config;
    if o.phase != FactVoting || st.now < o.phaseEndsAt || o.disputeBondTotal == 0 || o.factCount == 0 then None
    else if k !in st.facts || st.facts[k].settled then None
    else
      var f := st.facts[k];
      if f.duplicateStake > f.approveStake then
        Some(Settled(st.(facts := st.facts[k := f.(duplicate := true, settled := true)])))
      else if IsAgreed(f, o, c) then
        var total := o.totalApprovedFactStake + f.stake + f.approveStake;
        if !Fits(total) then None
        else Some(Settled(st.(
          facts := st.facts[k := f.(agreed := true, settled := true)], oracle := o.(totalApprovedFactStake := total))))
      else
        var pool := o.bondPool + f.stake + Fraction(f.approveStake, c.voteSlashNum, c.voteSlashDen);
        if !Fits(pool) then None
        else Some(Settled(st.(facts := st.facts[k := f.(settled := true)], oracle := o.(bondPool := pool))))
  }

  /** One more fact is settled; the last one opens the AI claims. */
  function Settled(st: State): State {
    var o := st.oracle.(settledCount := st.oracle.settledCount + 1);
    st.(oracle :=
      if o.settledCount == o.factCount then o.(phase := AiClaim, phaseEndsAt := st.now + st.config.phaseWindow) else o)
  }

  // ---- AI claims and challenges ----

  /** `submit_ai_claim`. */
  function SubmitAiClaim(st: State, k: Address, option: u8): Option<State> {
    var o := st.oracle;
    if o.phase != AiClaim || st.now >= o.phaseEndsAt || k !in st.proposers || st.proposers[k].disqualified then None
    else if option >= st.config.optionsCount || st.proposers[k].claimOption.Some? then None
    else
      var p := st.proposers[k];
      Some(st.(proposers := st.proposers[k := p.(
        claimOption := Some(option), flipped := p.flipped || option != p.originalOption)]))
  }

  /** `finalize_ai_claims` on one proposer. */
  function FinalizeAiClaim(st: State, k: Address): Option<State>
    requires Admitted(st.config)
  {
    var o, c := st.oracle, st.config;
    if o.phase != AiClaim || st.now < o.phaseEndsAt || k !in st.proposers || st.proposers[k].aiFinalized then None
    else
      var p := st.proposers[k].(aiFinalized := true);
      if p.disqualified then Some(AiFinalized(st.(proposers := st.proposers[k := p])))
      else if p.claimOption.None? then
        if !Fits(o.bondPool + p.bond) || o.survivingCount == 0 then None
        else Some(AiFinalized(st.(
          proposers := st.proposers[k := p.(slashed := true, disqualified := true, slashedAmount := p.bond)],
          oracle := o.(bondPool := o.bondPool + p.bond, survivingCount := o.survivingCount - 1))))
      else if p.flipped then
        var slash := Fraction(p.bond, c.flipNum, c.flipDen);
        if !Fits(o.bondPool + slash) then None
        else Some(AiFinalized(st.(
          proposers := st.proposers[k := p.(slashed := true, slashedAmount := slash)],
          oracle := o.(bondPool := o.bondPool + slash))))
      else Some(AiFinalized(st.(proposers := st.proposers[k := p])))
  }

  /** One more proposer is finalized; the last one opens the challenges. */
  function AiFinalized(st: State): State {
    var o := st.oracle.(aiFinalizedCount := st.oracle.aiFinalizedCount + 1);
    st.(oracle :=
      if o.aiFinalizedCount == o.proposerCount
      then o.(phase := Challenge, phaseEndsAt := st.now + st.config.phaseWindow)
      else o)
  }

  /** `open_challenge`: the bond leaves the vault for the market's two conditional tokens; `price` is KASS in USDC. */
  function OpenChallenge(st: State, k: Address, price: nat): Option<State> {
    var o := st.oracle;
    if o.phase != Challenge || st.now >= o.phaseEndsAt || k !in st.proposers then None
    else
      var p := st.proposers[k];
      if p.claimOption.None? || !p.market.NoMarket? || p.disqualified then None
      else if p.bond * price / KASS_PRICE_SCALE == 0 || !Fits(p.bond * price / KASS_PRICE_SCALE) then None
      else Some(st.(
        vault := st.vault - p.bond,
        proposers := st.proposers[k := p.(market := OpenMarket(st.now + st.config.twapWindow))],
        oracle := o.(openChallengeCount := o.openChallengeCount + 1)))
  }

  /** The slash trigger of `settle_challenge`. */
  predicate Disqualifies(c: Config, passTwap: nat, failTwap: nat) {
    passTwap != 0 && failTwap * c.marketDen > passTwap * (c.marketDen + c.marketNum)
  }

  function SaturatingSub(a: u64, b: u64): u64 {
    if a >= b then a - b else 0
  }

  /** The fee of a successful challenge, at most what earlier slashes left of the bond. */
  function KassFee(c: Config, p: Proposer): (fee: u64)
    requires Admitted(c)
    ensures fee <= p.bond
  {
    Min(Fraction(p.bond, c.feeNum, c.feeDen), SaturatingSub(p.bond, p.slashedAmount))
  }

  /** `settle_challenge`: the whole bond comes back from the market, and a successful challenger takes its fee. */
  function SettleChallenge(st: State, k: Address, passTwap: nat, failTwap: nat): Option<State>
    requires Admitted(st.config)
  {
    var o, c := st.oracle, st.config;
    if o.phase != Challenge || k !in st.proposers then None
    else
      var p := st.proposers[k];
      if !p.market.OpenMarket? || st.now < p.market.twapEnd || o.openChallengeCount == 0 then None
      else
        var closed := o.(openChallengeCount := o.openChallengeCount - 1);
        if !Disqualifies(c, passTwap, failTwap) then
          Some(st.(
            vault := st.vault + p.bond, proposers := st.proposers[k := p.(market := SettledMarket)], oracle := closed))
        else
          var fee := KassFee(c, p);
          var vault := st.vault + p.bond - fee;
          if p.disqualified then
            Some(st.(vault := vault, proposers := st.proposers[k := p.(market := SettledMarket)], oracle := closed))
          else
            var net := p.bond - fee;
            var delta := SaturatingSub(net, p.slashedAmount);
            if !Fits(o.bondPool + delta) || o.survivingCount == 0 then None
            else Some(st.(
              vault := vault,
              proposers := st.proposers[k := p.(
                disqualified := true, slashed := true, slashedAmount := net, market := SettledMarket)],
              oracle := closed.(bondPool := o.bondPool + delta, survivingCount := o.survivingCount - 1)))
  }

  // ---- the outcome ----

  /** The options of the proposers still standing, in the order of the accounts given. */
  function SurvivorVotes(ps: map<Address, Proposer>, tail: seq<Address>): seq<u8>
    requires forall k :: k in tail ==> k in ps
  {
    if tail == [] then []
    else
      var p := ps[tail[0]];
      (if !p.disqualified && p.claimOption.Some? then [p.claimOption.value] else [])
      + SurvivorVotes(ps, tail[1..])
  }

  /** The accounts given are all proposers, each once. */
  ghost predicate IsFullSet(st: State, tail: seq<Address>) {
    && |tail| == st.oracle.proposerCount
    && (forall k :: k in tail <==> k in st.proposers)
    && forall i, j :: 0 <= i < j < |tail| ==> tail[i] != tail[j]
  }

  /** The bond of a proposer that survived with the winning option. */
  ghost function CorrectBond(option: u8): Proposer -> int {
    (p: Proposer) => if !p.disqualified && p.claimOption == Some(option) then p.bond else 0
  }

  /** `finalize_oracle`; `r` is what `plurality` says of the survivors. */
  ghost function FinalizeOracle(st: State, tail: seq<Address>, r: Plurality.Outcome): Option<State> {
    var o := st.oracle;
    if o.phase != Challenge || st.now < o.phaseEndsAt || o.openChallengeCount != 0 || !IsFullSet(st, tail) then None
    else if exists k :: k in st.proposers && !st.proposers[k].disqualified && st.proposers[k].claimOption.None?
    then None
    else
      var votes := SurvivorVotes(st.proposers, tail);
      if |votes| != o.survivingCount || !Plurality.IsPlurality(votes, r) then None
      else
        var pool := o.bondPool + o.rewardEmission;
        if !Fits(pool) then None
        else
          match r
          case Winner(option) =>
            var correct := Total(st.proposers, CorrectBond(option));
            if !Fits(correct) then None
            else Some(st.(oracle := o.(
              totalCorrectProposerStake := correct, rewardPool := pool, resolvedOption := Some(option),
              phase := Resolved)))
          case _ => Some(st.(oracle := o.(resolvedOption := None, phase := InvalidDeadend), vault := st.vault - pool))
  }

  /** `resolve_deadend`, signed by the DAO. */
  function ResolveDeadend(st: State, option: u8): Option<State> {
    if st.oracle.phase != InvalidDeadend || option >= st.config.optionsCount then None
    else Some(st.(oracle := st.oracle.(resolvedOption := Some(option), phase := Resolved)))
  }

  // ---- claims ----

  function Buckets(o: Oracle, c: Config): (u64, u64) {
    Reward.RewardBuckets(
      o.rewardPool, c.proposerWeight, c.factWeight, o.totalCorrectProposerStake, o.totalApprovedFactStake)
  }

  predicate BackedOutcome(o: Oracle, p: Proposer) {
    p.claimOption == o.resolvedOption || (p.claimOption.None? && Some(p.originalOption) == o.resolvedOption)
  }

  /** What a proposer gets back of its bond. */
  function Base(p: Proposer): int {
    if p.disqualified then 0 else SaturatingSub(p.bond, p.slashedAmount)
  }

  function ProposerReward(o: Oracle, c: Config, p: Proposer): int {
    if o.phase == Resolved && !p.disqualified && BackedOutcome(o, p)
    then Reward.CohortReward(p.bond, Buckets(o, c).0, o.totalCorrectProposerStake) else 0
  }

  predicate Rejected(f: Fact) {
    f.settled && !f.agreed && !f.duplicate
  }

  function FactShare(o: Oracle, c: Config, stake: u64): int {
    if o.phase == Resolved then Reward.CohortReward(stake, Buckets(o, c).1, o.totalApprovedFactStake) else 0
  }

  /** `fact_submitter_entitlement`. */
  function FactEntitlement(o: Oracle, c: Config, f: Fact): int {
    if f.agreed then f.stake + FactShare(o, c, f.stake)
    else if f.duplicate then f.stake
    else 0
  }

  /** The rejected-fact slash of one vote, rounded up. */
  function VoteSlash(c: Config, stake: u64): int
    requires Admitted(c)
  {
    (stake * c.voteSlashNum + (c.voteSlashDen - 1)) / c.voteSlashDen
  }

  /** What `claim_fact_vote` pays; a vote whose fact is closed cannot be claimed. */
  function VoteEntitlement(o: Oracle, c: Config, facts: map<Address, Fact>, v: Vote): int
    requires Admitted(c)
  {
    if v.fact !in facts then 0
    else if !v.approve then v.stake
    else if facts[v.fact].agreed then v.stake + FactShare(o, c, v.stake)
    else if facts[v.fact].duplicate then v.stake
    else if v.stake >= VoteSlash(c, v.stake) then v.stake - VoteSlash(c, v.stake)
    else 0
  }

  /** `claim_proposer`. */
  function ClaimProposer(st: State, k: Address): Option<State> {
    var o, c := st.oracle, st.config;
    if !Terminal(o) || k !in st.proposers then None
    else Some(st.(
      vault := st.vault - (Base(st.proposers[k]) + ProposerReward(o, c, st.proposers[k])),
      proposers := st.proposers - {k}))
  }

  /** `claim_fact`: the submitter comes last. */
  function ClaimFact(st: State, k: Address): Option<State> {
    if !Terminal(st.oracle) || k !in st.facts then None
    else if st.facts[k].approveStake != 0 || st.facts[k].duplicateStake != 0 then None
    else Some(st.(
      vault := st.vault - FactEntitlement(st.oracle, st.config, st.facts[k]), facts := st.facts - {k}))
  }

  function Untallied(f: Fact, v: Vote): Fact {
    if v.approve then f.(approveStake := SaturatingSub(f.approveStake, v.stake))
    else f.(duplicateStake := SaturatingSub(f.duplicateStake, v.stake))
  }

  /** `claim_fact_vote`. */
  function ClaimFactVote(st: State, v: Address): Option<State>
    requires Admitted(st.config)
  {
    if !Terminal(st.oracle) || v !in st.votes || st.votes[v].fact !in st.facts then None
    else
      var vote := st.votes[v];
      Some(st.(
        vault := st.vault - VoteEntitlement(st.oracle, st.config, st.facts, vote),
        facts := st.facts[vote.fact := Untallied(st.facts[vote.fact], vote)],
        votes := st.votes - {v}))
  }

  // ---- the protocol ----

  datatype Step =
    | StepPropose(k: Address, option: u8, bond: u64)
    | StepFinalizeProposals
    | StepSubmitFact(k: Address, stake: u64)
    | StepAdvancePhase
    | StepVoteFact(v: Address, k: Address, approve: bool, stake: u64)
    | StepSlashNoFacts(k: Address)
    | StepSettleFact(k: Address)
    | StepSubmitAiClaim(k: Address, option: u8)
    | StepFinalizeAiClaim(k: Address)
    | StepOpenChallenge(k: Address, price: nat)
    | StepSettleChallenge(k: Address, passTwap: nat, failTwap: nat)
    | StepFinalizeOracle(tail: seq<Address>, r: Plurality.Outcome)
    | StepResolveDeadend(option: u8)
    | StepClaimProposer(k: Address)
    | StepClaimFact(k: Address)
    | StepClaimFactVote(v: Address)
    | Donate(amount: nat)
    | TimePasses(now: int)

  /** One instruction, a transfer into the vault from outside, or the clock. A failed instruction changes nothing. */
  ghost function Apply(st: State, step: Step): Option<State>
    requires Admitted(st.config)
  {
    match step
    case StepPropose(k, option, bond) => Propose(st, k, option, bond)
    case StepFinalizeProposals => FinalizeProposals(st)
    case StepSubmitFact(k, stake) => SubmitFact(st, k, stake)
    case StepAdvancePhase => AdvancePhase(st)
    case StepVoteFact(v, k, approve, stake) => VoteFact(st, v, k, approve, stake)
    case StepSlashNoFacts(k) => SlashNoFacts(st, k)
    case StepSettleFact(k) => SettleFact(st, k)
    case StepSubmitAiClaim(k, option) => SubmitAiClaim(st, k, option)
    case StepFinalizeAiClaim(k) => FinalizeAiClaim(st, k)
    case StepOpenChallenge(k, price) => OpenChallenge(st, k, price)
    case StepSettleChallenge(k, passTwap, failTwap) => SettleChallenge(st, k, passTwap, failTwap)
    case StepFinalizeOracle(tail, r) => FinalizeOracle(st, tail, r)
    case StepResolveDeadend(option) => ResolveDeadend(st, option)
    case StepClaimProposer(k) => ClaimProposer(st, k)
    case StepClaimFact(k) => ClaimFact(st, k)
    case StepClaimFactVote(v) => ClaimFactVote(st, v)
    case Donate(amount) => Some(st.(vault := st.vault + amount, donated := st.donated + amount))
    case TimePasses(now) => if now < st.now then None else Some(st.(now := now))
  }

  ghost predicate IsRun(states: seq<State>, steps: seq<Step>) {
    && |states| == |steps| + 1 && Created(states[0])
    && forall i :: 0 <= i < |steps| ==> Admitted(states[i].config) && Apply(states[i], steps[i]) == Some(states[i + 1])
  }
}
