# Verification of the Kassandra indexer, runner and protocol maths

A Dafny 4.11 model of the parts of the Kassandra repository whose correctness is more than the sum of
their functions, with machine-checked proofs. `dafny verify dfyconfig.toml` checks all of it.

| file | what it models |
|---|---|
| `Arith.dfy`, `Options.dfy`, `Bytes.dfy`, `Utf8.dfy` | machine integers and flooring division, `Option`, UTF-8 text, hex and fixed-width integers |
| `FeeEma.dfy`, `StakeCurve.dfy`, `FeeRuns.dfy` | the creation-activity average, the fee and the stake floor, and whole runs of creations |
| `FeeRest.dfy` | where the average rests at a steady rate, against the documented steady state |
| `StakeVault.dfy`, `Totals.dfy` | one oracle's accounts and its stake vault: every instruction from the first proposal to the last claim |
| `VaultSteps.dfy`, `VaultCounts.dfy` | each of these instructions in its own terms: when it succeeds, what it changes, what it pays; and the oracle's counters over whole runs |
| `VaultSolvency.dfy`, `VaultOutcome.dfy`, `VaultRuns.dfy`, `VaultExamples.dfy` | conservation until the outcome, solvency of every claim after it, whole runs, and runs that contradict the documentation |
| `Reward.dfy` | the reward bucket split and the pro-rata shares of two cohorts, claimed in any order |
| `Plurality.dfy` | the counting and scanning loops of the plurality vote |
| `OracleMetaWire.dfy` | the `write_oracle_meta` encoder and cursor parser |
| `Canonical.dfy`, `FactOrder.dfy`, `PromptText.dfy`, `PromptLayout.dfy` | the hash preimages, the fact sort, the prompt assembly and what the prompt says part by part |
| `AccountMirror.dfy`, `MirrorProtocol.dfy` | the account tables, and the mirror as a protocol of interleaved steps |
| `OracleDetail.dfy` | the detail view built from the mirror and by a direct scan |
| `MetaHost.dfy` | the metadata-JSON host, query by query |
| `CrawlCursor.dfy`, `CrawlTicks.dfy` | the transaction crawl and its durable cursor over crashes and restarts, and what a promotion tick saw |
| `Candles.dfy` | the price series and its candles |

What the source updates in place is a class with methods (`FeeRuns.Protocol`, `Canonical.Buffer`,
`AccountMirror.AccountTable`, `MetaHost.MetaStore`, `CrawlCursor.Indexer`, `Candles.PriceTable`); each
method's contract equates the new state with a function of the old one, and the protocol modules step by
the same functions. Pure code is functions and lemmas. Loops of the source are loops here.

## Environment assumptions

- `StakeVault.Apply`: the clock does not go back, the parameters are ones that `set_config` admits, a challenged bond
  comes back from its market in full (it is held in both conditional tokens and never traded), and market prices are
  arbitrary. Anyone may send tokens to the vault at any time.
- `MirrorProtocol.Next`: an account delivered by the tail is one the chain really held at some slot not
  before its label; `get_slot` answers lie within the chain and do not decrease; a snapshot observes one
  chain state, at a slot no earlier than the `get_slot` answer. Messages may be lost, repeated and
  reordered, any upsert may fail, and a reconcile may be cut short anywhere.
- `MetaHost`: SHA-256 is an arbitrary function, and so is every answer of the network.
- `CrawlCursor.Next`: signatures of different transactions differ, slots do not decrease along the
  ledger, and a crawl started at a cursor owes everything newer than the cursor's transaction. An instruction
  whose insert fails is not tried again before the next start.
- Base58 text is identified with the 32 bytes it encodes.

## Where the code and its documentation disagree

- `programs/oracles/src/stake_floor.rs:20-26` and `programs/oracles/src/config.rs:137-139` give the steady
  state at `n` creations a day as `INCREMENT / (1 - 2^(-1/n))`, about `1.44n` units. The code interpolates
  linearly and restarts at every creation. With creations `g` seconds apart, up to one half-life, an average stays as
  it was exactly when average times `g` lies within `2H` base units below `2H` creation units (`FeeRest.RestIff`), and
  from an idle start it climbs to the lowest such average and stops there (`FeeRest.IdleStartRestsAtLeast`). For a
  whole number of creations a day these are the averages just below `2n` units (`FeeRest.DailyRests`); the documented
  value is one of them at one creation a day and lies strictly below all of them at every higher rate
  (`FeeRest.DocumentedRestAgreesIff`). With the shipped curve a protocol at rest is free from a spacing of 10800
  seconds up (eight a day, not ten) and pays the full floor from 119 seconds down (726 a day, not a thousand)
  (`FeeRest.ShippedCurveAtRest`).
- `programs/oracles/src/processor/finalize_oracle.rs:71-75` says a dead end leaves the vault holding exactly the
  returnable principal. It leaves that and what rounding up the slash of every single vote took beyond the pool's
  share, which is at most a unit a vote (`VaultRuns.DeadEndLeavesPrincipal`), so exactly the principal if and only if
  that is 0. `VaultExamples.DeadEndKeepsRounding` is a run that leaves one unit more.
- `programs/oracles/src/processor/claims/mod.rs:74-80` says no one can strand a voter by closing the fact early. A fact
  closes as soon as no outstanding vote on it has a stake (`VaultRuns.FactClosesIff`), and votes without stake are
  accepted while the floor is 0: `VaultExamples.VoteIsStranded` is a run that strands one. No tokens are lost, since
  every vote with a stake keeps its fact (`VaultRuns.EveryClaimIsCovered`).
- `programs/oracles/src/processor/finalize_oracle.rs:15-18` says an oracle on a dead end shows the sentinel 0xFF as its
  option. That holds if and only if there was a fact (`VaultRuns.DeadEndOptionIff`): a dispute without facts ends
  through `finalize_facts`, which leaves 0 (`VaultExamples.DeadEndReadsAsOptionZero`).
- `programs/oracles/src/processor/claims/mod.rs:35` and `:54-56` give a disqualified proposer the rest of its bond and
  round a rejected vote's slash down. The code pays 0 and rounds up, and the model follows it.
- `indexer/README.md:15-26` promises gap-free indexing. The frontier test compares the oldest slot of the
  run, which stays fixed after the first catch-up, so a promotion can overtake the backlog:
  `CrawlCursor.PromotionLosesTransaction` is a run after which a transaction never gets a row, however the protocol
  goes on. `CrawlCursor.LostIff` decides in every reachable state which instructions are lost for good,
  `CrawlCursor.StepLosesIff` and `CrawlCursor.RunLosesNothingIff` give the three ways to lose one,
  `CrawlCursor.PassedTestLosesIff` and `CrawlCursor.PassedTestIsSafeIff` say exactly what a tick that passes the test
  puts at stake, and `CrawlCursor.GuardedRunsLoseNothing` that a test of the rows up to the head would be enough.
- `indexer/src/api.rs:221-223` calls storing a pending blob harmless. The blob is overwritten by every
  POST, so a POST of another text takes a good JSON out of service (`MetaHost.PostTakesOutOfService` is such a run)
  until the committed text is posted or fetched again (`MetaHost.ServiceChangesIff`,
  `MetaHost.OutOfServiceUntilRestored`).

## Hypotheses that are needed

- `runner/src/prompt/build.rs:96-99` says two distinct fact sets cannot render to the same bytes. The facts it
  receives are verified, so one hash has one content, and then it holds (`PromptText.SamePromptIffSameFacts`).
  `PromptText.ForgedEntryRendersLikeTwoFacts` and `PromptText.EqualHashesShowListOrder` show why that is needed.
- Canonical preimages are told apart below 2^32 bytes a string; `Canonical.IoPreimageCollidesBeyondLimit` shows why.
- A settled mirror converges when the tail is quiet; `MirrorProtocol.RepeatedMessageResurrects` shows why.
- Candles coarsen exactly when slots and time buckets are aligned (`Candles.AnswersCoarsenIff`).

## Model

| member | source | states |
|---|---|---|
| FeeEma.DecayFeeEmaIsDecay | programs/oracles/src/fee.rs:30-51 | for all inputs, a clock that ran backwards included, the clamp, the saturated subtraction, the 64-halving cutoff and the cast leave exactly the plain decay law, which never exceeds its input |
| FeeEma.FeeMathFitsU128 | programs/oracles/src/fee.rs:38-60 | no product of the decay or the fee can overflow `u128` |
| FeeEma.FeeIsEma | programs/oracles/src/fee.rs:57-60 | with the shipped constants the fee equals the decayed average, for every `u64` |
| FeeEma.DecayNonExpansive | programs/oracles/src/fee.rs:30-51 | the decay is monotone in the average and never widens the distance between two averages |
| FeeEma.DecayAntitoneInTime | programs/oracles/src/fee.rs:24-26 | the decay never rises with elapsed time, across interpolation, half-life joins and the cutoff |
| FeeEma.DecayWithinTwoOfCurve | programs/oracles/src/fee.rs:18-22 | the result is within two units below the exact piecewise-linear curve and never above it |
| FeeEma.SplitGapLosesAtMostOne | programs/oracles/src/fee.rs:30-51 | decaying over a gap in two steps loses at most one unit against decaying at once, for all gaps |
| FeeEma.SplitLosesOne | programs/oracles/src/fee.rs:30-51 | that one unit is attained |
| FeeEma.SplitGapGainsAtMostAnEighth | programs/oracles/src/fee.rs:30-51 | splitting slows the decay by at most one eighth, up to rounding |
| FeeRuns.Protocol.RecordCreation | programs/oracles/src/processor/create_oracle.rs:134-293 | for every state and time: the fee is the decay of the stored average over the time since the last creation, or the average itself when the clock ran backwards; the floor is the curve at that value; the new average is it plus one increment, saturated; the time is stamped |
| FeeRuns.CreationIs | programs/oracles/src/config.rs:91-108 | the same of one creation of a run |
| FeeRuns.ExtraCreationNeverLowersFees | programs/oracles/src/config.rs:97-108 | inserting one creation anywhere into any time-ordered run lowers no later average or fee by more than one unit, saturation included |
| FeeRuns.LongerIdleNeverCostsMore | programs/oracles/src/config.rs:102-108 | a longer idle gap never raises the next fee or minimum stake |
| FeeRuns.SpacedRun | programs/oracles/src/config.rs:97-108 | over every run with creations at least g seconds apart from an idle start, average times g stays within 2H creation units, after the bump and before the saturation |
| FeeRuns.ThreeHoursApartIsFree | programs/oracles/src/config.rs:141-154 | with creations three hours apart every oracle's floor is 0 at the shipped threshold, whatever the cap and maximum |
| FeeRest.RestIff | programs/oracles/src/fee.rs:30-67 | at every spacing up to one half-life an average stays as it is if and only if average times spacing lies within 2H base units below 2H creation units, and each creation is then charged one unit less |
| FeeRest.CreationMovesTowardsRest | programs/oracles/src/fee.rs:30-67 | at every such spacing a creation raises an average below those and never past the least, and lowers one above them and never past the greatest, for every u64 |
| FeeRest.IdleStartRestsAtLeast | programs/oracles/src/config.rs:97-108 | at every such spacing a run from an idle start never passes the least resting average, and is exactly there after enough creations |
| FeeRest.DailyRests | programs/oracles/src/config.rs:137-139 | at n creations a day the resting averages are those within 2n base units below 2n creation units |
| FeeRest.DocumentedRestAgreesIff | programs/oracles/src/config.rs:137-139 | the documented steady state is one of these averages if and only if n is 1, and for higher n lies strictly below all of them |
| FeeRest.ShippedCurveAtRest | programs/oracles/src/config.rs:137-147 | for a protocol at rest at any spacing the charged average is within the free band exactly from 10800 seconds up, and the floor is full exactly from 119 seconds down |
| StakeCurve.FloorOnRamp | programs/oracles/src/stake_floor.rs:41-45 | on the ramp the cast is lossless, the floor is the exact quotient rounded down and strictly below the maximum |
| StakeCurve.FloorEnds | programs/oracles/src/stake_floor.rs:33-40 | 0 up to the threshold and on a degenerate curve, the maximum exactly from the cap on, never above it |
| StakeCurve.FloorMonotone | programs/oracles/src/stake_floor.rs:33-46 | more activity never lowers the floor, across both joins |
| Reward.BucketsFit | programs/oracles/src/reward.rs:48-71 | the casts of the split are lossless, the buckets never exceed the pool and leave at most one unit, none when a cohort is empty; an empty cohort or zero weights send the pool where the source says |
| Reward.ShareFits | programs/oracles/src/reward.rs:76-91 | a member's share is cast without loss, fits `u128` before the division and is at most the bucket |
| Reward.SplitStakeIntoParts | programs/oracles/src/reward.rs:76-91 | splitting a stake into k parts never pays more and loses at most k - 1 units |
| Reward.ClaimsConservePool | programs/oracles/src/reward.rs:15-27 | claims of both cohorts, paid once each in any order, never exceed the pool, and the dust after all of them is at most n + m - 1, or one less than the only cohort |
| Reward.DustBoundAttained | programs/oracles/src/reward.rs:15-27 | for every two cohort sizes there is a settlement that leaves n + m - 1 units |
| Reward.SingleCohortDustAttained | programs/oracles/src/reward.rs:15-27 | for every size of a single cohort of either kind, whatever the weights, there is one that leaves n - 1 units |
| VaultSteps.ProposeIff | programs/oracles/src/processor/propose.rs:54-215 | exactly when a proposal is accepted, an empty closed window reopening for it, and what it changes |
| VaultSteps.FinalizeProposalsIff | programs/oracles/src/processor/finalize_proposals.rs:70-159 | a closed window resolves the oracle if and only if any two proposers agree, and opens a dispute over their bonds otherwise |
| VaultSteps.FinalizeProposalsSucceeds | programs/oracles/src/processor/finalize_proposals.rs:70-159 | exactly when the proposal window can be closed |
| VaultSteps.SubmitFactIff | programs/oracles/src/processor/submit_fact.rs:78-180 | exactly when a fact is accepted and what it changes |
| VaultSteps.AdvancePhaseIff | programs/oracles/src/processor/advance_phase.rs:28-59 | exactly when voting opens |
| VaultSteps.VoteFactIff | programs/oracles/src/processor/vote_fact.rs:66-177 | exactly when a vote is accepted, and on which tally it counts |
| VaultSteps.SettleFactEffect | programs/oracles/src/processor/finalize_facts.rs:257-340 | a fact is a duplicate, agreed or rejected by its two tallies and the quorum of the bonds; only a rejection feeds the pool, only an agreed fact joins the cohort, and the last one opens the AI claims |
| VaultSteps.SettleFactFails | programs/oracles/src/processor/finalize_facts.rs:257-340 | after the window settling an unsettled fact fails only where a sum overflows |
| VaultSteps.SlashNoFactsSucceeds | programs/oracles/src/processor/finalize_facts.rs:114-253 | exactly when a proposer of a dispute without facts can be slashed |
| VaultSteps.SlashNoFactsOfTheDisqualified | programs/oracles/src/processor/finalize_facts.rs:197-208 | a proposer already out is only marked |
| VaultSteps.SlashNoFactsEffect | programs/oracles/src/processor/finalize_facts.rs:173-253 | without facts a proposer loses the whole bond, and the last one's slash burns pool and emission |
| VaultSteps.SubmitAiClaimIff | programs/oracles/src/processor/submit_ai_claim.rs:68-169 | exactly when an AI claim is accepted, and that it flips the proposer if it differs from the proposal |
| VaultSteps.FinalizeAiClaimSucceeds | programs/oracles/src/processor/finalize_ai_claims.rs:51-138 | exactly when a proposer can be finalized |
| VaultSteps.FinalizeAiClaimEffect | programs/oracles/src/processor/finalize_ai_claims.rs:51-138 | a no-show loses bond and standing, a flip the configured fraction, a steady claim nothing |
| VaultSteps.OpenChallengeIff | programs/oracles/src/processor/open_challenge/entry.rs:38-367 | exactly when a challenge is opened, with an escrow that is worth something, and what it changes |
| VaultSteps.SettleChallengeSucceeds | programs/oracles/src/processor/settle_challenge/entry.rs:22-206 | in every reachable state a challenge can be settled once its market's window is over, unless a sum overflows |
| VaultSteps.SettleChallengeEffect | programs/oracles/src/processor/settle_challenge/entry.rs:131-206 | a challenge fails if nobody traded on the pass side or the fail price does not beat the pass price by the margin: the bond comes back and nothing else changes; otherwise the proposer is out, the challenger takes the capped fee and the pool the rest |
| VaultSteps.FeeAndPoolMakeUpBond | programs/oracles/src/processor/settle_challenge/entry.rs:158-206 | in every reachable challenge fee, earlier slash and the pool's gain make up the bond |
| VaultSteps.PassPriceProtects | programs/oracles/src/processor/settle_challenge/entry.rs:131-156 | a higher pass price or a lower fail price never turns survival into disqualification |
| VaultSteps.OutcomeIsPlurality | programs/oracles/src/processor/finalize_oracle.rs:184-239 | the oracle resolves to an option if and only if more proposers still standing claim it than any other |
| VaultSteps.FinalizeOracleEffect | programs/oracles/src/processor/finalize_oracle.rs:132-276 | the stamps of a resolution and the burn of a dead end |
| VaultCounts.RunKeepsCounts | programs/oracles/src/processor/finalize_oracle.rs:50-61 | in every state before the outcome the counters of proposers, survivors and finalized claims are what they count |
| VaultCounts.FinalizeOracleSucceedsIff | programs/oracles/src/processor/finalize_oracle.rs:132-211 | in every run the recompute goes through for every listing of the proposers once the window is over and no challenge is open; none of its consistency checks can fail |
| VaultSteps.ResolveDeadendIff | programs/oracles/src/processor/resolve_deadend.rs:56-92 | exactly when the DAO can resolve, and that only option and phase change |
| VaultSteps.BucketsSplitPool | programs/oracles/src/reward.rs:48-71 | which part of the pool is the proposers' and which the facts' |
| VaultSteps.ProposerIsPaid | programs/oracles/src/processor/claims/proposer.rs:46-110 | a proposer is paid what is left of the bond, and a share by bond if it stood with the outcome, by its claim or, without one, its proposal |
| VaultSteps.SubmitterIsPaid | programs/oracles/src/processor/claims/fact.rs:19-104 | when a fact can be claimed, and what an agreed, a duplicate and a rejected one pays |
| VaultSteps.VoterIsPaid | programs/oracles/src/processor/claims/fact_vote.rs:40-120 | what each kind of vote on each kind of fact pays |
| VaultSteps.VoteIsTakenOff | programs/oracles/src/processor/claims/fact_vote.rs:110-138 | a claimed vote is closed and taken off its own tally |
| VaultSolvency.ProposeKeeps | programs/oracles/src/processor/propose.rs:54-215 | a proposal keeps the balance of the vault: emission, bonds, stakes and gifts, with the pool equal to what was slashed |
| VaultSolvency.ConflictKeeps | programs/oracles/src/processor/finalize_proposals.rs:145-158 | so does opening a dispute |
| VaultSolvency.SubmitFactKeeps | programs/oracles/src/processor/submit_fact.rs:78-180 | so does a fact |
| VaultSolvency.VoteFactKeeps | programs/oracles/src/processor/vote_fact.rs:66-177 | so does a vote, and the tallies of a fact stay the sums of its votes |
| VaultSolvency.SettleFactKeeps | programs/oracles/src/processor/finalize_facts.rs:257-340 | so does settling a fact: the reward cohort is the stakes on agreed facts, the pool gains what a rejected fact forfeits |
| VaultSolvency.CutsCoverThePool | programs/oracles/src/processor/claims/fact_vote.rs:19-38 | slashing every vote rounded up takes at least the pool's share of the whole rounded down, and at most a unit a vote more |
| VaultSolvency.FinalizeAiClaimKeeps | programs/oracles/src/processor/finalize_ai_claims.rs:51-138 | no-shows and flips add to the pool what they are slashed |
| VaultSolvency.OpenChallengeKeeps | programs/oracles/src/processor/open_challenge/entry.rs:38-367 | a challenged bond leaves the vault, and only that |
| VaultSolvency.SettleChallengeKeeps | programs/oracles/src/processor/settle_challenge/entry.rs:22-339 | the bond comes back less the challenger's fee, and the pool gains the rest, whatever was slashed before |
| VaultRuns.RunKeepsBalance | programs/oracles/src/processor/claims/mod.rs:21-27 | every state of every run is in balance until the outcome and covers what is owed after it |
| VaultRuns.VaultIsNeverShort | programs/oracles/src/processor/claims/mod.rs:21-27 | no split, fee, burn or payout of any run takes more than the vault holds |
| VaultRuns.EveryClaimIsCovered | programs/oracles/src/processor/claims/mod.rs:21-27 | once the oracle is decided the vault covers everything still owed and every single claim, and every vote with a stake can be claimed |
| VaultRuns.DeadEndLeavesPrincipal | programs/oracles/src/processor/finalize_oracle.rs:64-81 | a dead end, of either kind, leaves the principal that was not slashed, gifts, and a rounding of at most a unit for every approval of a rejected fact |
| VaultRuns.ResolutionCoversRewards | programs/oracles/src/processor/finalize_oracle.rs:213-239 | a resolution, agreed or by plurality, leaves principal and rewards within the pool, and at most a unit for every rewarded account and one more of the pool |
| VaultRuns.SlackNeverChanges | programs/oracles/src/processor/claims/mod.rs:1-27 | after the outcome claims in any order, gifts and the DAO's resolution leave the vault's slack over what is owed as it is |
| VaultRuns.ResolveDeadendKeeps | programs/oracles/src/processor/resolve_deadend.rs:11-31 | the DAO's resolution of a dead end changes no entitlement |
| VaultRuns.FactClosesIff | programs/oracles/src/processor/claims/mod.rs:74-80 | the submitter can close a fact if and only if every outstanding vote on it has no stake, and such votes can then not be claimed |
| VaultExamples.VoteIsStranded | programs/oracles/src/processor/claims/mod.rs:74-80 | a run in which that happens |
| VaultExamples.DeadEndKeepsRounding | programs/oracles/src/processor/finalize_oracle.rs:71-75 | a run whose dead end leaves one unit more than the principal |
| VaultRuns.DeadEndOptionIff | programs/oracles/src/processor/finalize_oracle.rs:15-18 | in every run a dead end shows the sentinel if and only if there was a fact, and option 0 otherwise |
| VaultExamples.DeadEndReadsAsOptionZero | programs/oracles/src/processor/finalize_facts.rs:229-253 | a run whose dead end shows option 0 |
| VaultRuns.DisputeIsOverBonds | programs/oracles/src/processor/finalize_proposals.rs:15-26 | a dispute is opened over the sum of the proposers' bonds |
| VaultRuns.ZeroBondDisputeNeverEnds | programs/oracles/src/processor/finalize_facts.rs:128-131 | a dispute over bonds that are all zero never leaves the fact phases, in any continuation |
| Plurality.Plurality | programs/oracles/src/plurality.rs:34-62 | the loops abort exactly when a `u32` counter would overflow and otherwise return a winner, a tie or no survivors as declared |
| Plurality.OutcomeExistsAndIsUnique | programs/oracles/src/plurality.rs:20-26 | every vote slice has exactly one outcome under the declarative notion |
| Plurality.PermutationInvariant | programs/oracles/src/plurality.rs:20-26 | the order of the votes does not matter |
| Plurality.WinnerSurvivesRemoval | programs/oracles/src/plurality.rs:20-26 | a winner survives the removal of any vote not cast for it |
| Plurality.ExtraVoteBreaksTie | programs/oracles/src/plurality.rs:20-26 | one more vote for an option with the highest count makes it the winner |
| Utf8.ValidUtf8Iff | indexer/src/processor.rs:19-30 | a byte sequence is accepted as text if and only if it encodes a sequence of characters (section 3 of RFC 3629) |
| Bytes.HexAt | indexer/src/processor.rs:43-51 | a hash is stored as two lower-case hex digits a byte, the high half first, as the digest it is compared with |
| Bytes.U16LeIsLittleEndian | indexer/src/processor.rs:19-30 | lengths are read and written low byte first |
| OracleMetaWire.TextLayout | indexer/src/processor.rs:129-153 | a text is its length in two bytes and its bytes |
| OracleMetaWire.OptionsLayout | indexer/src/processor.rs:129-153 | the options follow one another in list order |
| OracleMetaWire.EncodingLayout | indexer/src/processor.rs:129-153 | discriminant 23, subject, number of options, options, uri, hash |
| OracleMetaWire.ParseWriteOracleMeta | indexer/src/processor.rs:19-52 | the cursor parser returns what the grammar says, with the hash as hex, and reads no byte out of bounds |
| OracleMetaWire.CursorParseIsParse | indexer/src/processor.rs:19-52 | moving one offset over the data reads the same as consuming the rest of it |
| OracleMetaWire.ParseEncode | indexer/src/processor.rs:129-153 | an encoding followed by anything parses back to the metadata if and only if no length was truncated |
| OracleMetaWire.EncodeParse | indexer/src/processor.rs:19-52 | whatever parses is, after its discriminant, the encoding of the result followed by ignored bytes |
| OracleMetaWire.TruncatedEncodingFails | indexer/src/processor.rs:155-159 | every strict prefix of an encoding fails to parse |
| OracleMetaWire.IndexedInjective | indexer/src/processor.rs:43-51 | the indexed row fixes the whole metadata, the hash included |
| Canonical.Buffer.PutStr | runner/src/hashing/canonical.rs:35-38 | appends the length prefix and the bytes to what was there |
| Bytes.U32BeIsBigEndian | runner/src/hashing/canonical.rs:35-38 | a number is written in four bytes, the high one first, wrapping beyond 32 bits |
| Canonical.StringLayout | runner/src/hashing/canonical.rs:35-38 | a string is its length and its bytes |
| Canonical.OptionalStringLayout | runner/src/hashing/canonical.rs:40-50 | an absent string is a byte 0, a present one a byte 1 and the string |
| Canonical.ConfigLayout | runner/src/hashing/canonical.rs:86-101 | the version, schema and schema version that the runner fills in |
| Canonical.ToCanonicalBytes | runner/src/hashing/canonical.rs:113-123 | the appends produce the seven fields in their fixed order |
| Canonical.IoBuffer | runner/src/hashing/canonical.rs:151-156 | the appends produce the io preimage |
| Canonical.CanonicalBytesInjective | runner/src/hashing/canonical.rs:103-123 | equal preimages come from equal parameters in every field, for strings below 2^32 bytes |
| Canonical.ConfigPreimageInjective | runner/src/hashing/canonical.rs:91-101 | two configurations share a preimage only if they are the same |
| Canonical.IoPreimageInjective | runner/src/hashing/canonical.rs:141-157 | equal io preimages come from the same system text, user text and response |
| Canonical.IoPreimageCollidesBeyondLimit | runner/src/hashing/canonical.rs:30-34 | at 2^32 bytes two different inputs share a preimage, so the limit is needed |
| FactOrder.SortIsStable | runner/src/prompt/build.rs:107-109 | the sort orders by hash, permutes and keeps equal hashes in list order |
| FactOrder.StableSortUnique | runner/src/prompt/build.rs:107-109 | those properties determine the result, so any stable sort gives it |
| FactOrder.HashesAscend | runner/src/prompt/build.rs:107-109 | of two sorted facts the earlier one's hash is smaller at the first byte where they differ |
| PromptLayout.AssembledLayout | runner/src/prompt/build.rs:102-152 | the whole prompt: facts in ascending order of hash under numbers from 1 with hash and content, one line for each option under its index with the text of the first listed option of that index or the placeholder, and the range to answer with |
| PromptLayout.OptionLinesAre | runner/src/prompt/build.rs:46-52 | line i shows the first listed option whose index is i, wherever it stands, and the placeholder if and only if there is none or it has no text |
| PromptLayout.DecimalIs | runner/src/prompt/build.rs:112-135 | numbers are printed in decimal without leading zeros |
| PromptLayout.JoinIs | runner/src/prompt/build.rs:124-150 | lists are joined with the separator between their parts |
| PromptText.AssembleIgnoresFactOrder | runner/src/prompt/build.rs:96-152 | under one hash-to-content map any permutation of the facts gives identical bytes |
| PromptText.UserTextFixesFacts | runner/src/prompt/build.rs:96-152 | under that map equal user texts come from equal multisets of facts, whatever the rules, options and contents, header look-alikes included |
| PromptText.SamePromptIffSameFacts | runner/src/prompt/build.rs:96-152 | with the same rules and options the prompts are equal exactly when the facts are permutations |
| PromptText.SameRequestIffSameInputs | runner/src/prompt/build.rs:158-171 | under the map two requests are equal exactly when rules, options, configuration and the multiset of facts are |
| PromptText.IoPreimageFixesFacts | runner/src/hashing/canonical.rs:141-157 | the io preimage of an assembled prompt fixes the rules, the fact set and the response |
| PromptText.ForgedEntryRendersLikeTwoFacts | runner/src/prompt/build.rs:96-99 | without the map one fact can render like two |
| PromptText.EqualHashesShowListOrder | runner/src/prompt/build.rs:107-109 | without the map list order can show in the text |
| AccountMirror.AccountTable.UpsertAccount | indexer/src/oracle_accounts.rs:149-171 | the slot-gated upsert: the new table, equal slots overwriting |
| AccountMirror.AccountTable.Persist | indexer/src/oracle_accounts.rs:131-144 | decode, derive the columns and upsert; a failed statement changes nothing |
| AccountMirror.AccountTable.Prune | indexer/src/oracle_accounts.rs:175-185 | deletes exactly the rows at or below the slot that are absent, and counts them |
| AccountMirror.AccountTable.ReconcileOnce | indexer/src/oracle_accounts.rs:237-255 | the loop with any pattern of failed upserts, then the prune; every decoded account counts as present |
| AccountMirror.OracleDecodableIff | indexer/src/oracle_accounts.rs:76-104 | an oracle-program account is kept if and only if it has tag 1, or a tag from 2 to 6 and at least 40 bytes |
| AccountMirror.MarketDecodableIff | indexer/src/market/decoder.rs:34-66 | a market-program account is kept if and only if its length is 120, 424 or 96 for tag 1, 2 or 3 |
| AccountMirror.CountIsPresent | indexer/src/reconcile.rs:36-59 | the count a reconcile reports is the number of accounts it counted as present |
| AccountMirror.ListByTypeIsScan | indexer/src/market/db.rs:137-156 | a listing by type is a scan of the tag byte, on both sides |
| AccountMirror.GetMarketsIsScan | indexer/src/market/db.rs:137-156 | every stored market is found, and nothing else |
| AccountMirror.ReconcileExactIff | indexer/src/reconcile.rs:36-59 | one reconcile leaves the table saying exactly what the snapshot says if and only if the newer-labelled rows already did |
| AccountMirror.ListByOracleIsScan | indexer/src/oracle_accounts.rs:193-224 | the lookups by parent and by type return exactly the rows a scan of the bytes would |
| AccountMirror.ContributionsForIsScan | indexer/src/market/db.rs:262-283 | the lookup by market returns exactly the contributions whose bytes name it |
| MirrorProtocol.RunKeepsInv | indexer/src/oracle_accounts.rs:112-255 | every state of every interleaving satisfies the invariant |
| MirrorProtocol.RowsAreFresh | indexer/src/oracle_accounts.rs:149-171 | a row labelled s holds bytes and columns its account really had at some slot from s on |
| MirrorProtocol.LabelsGrowWhileRowSurvives | indexer/src/oracle_accounts.rs:148-166 | while a row survives its label never decreases |
| MirrorProtocol.OnlyClosedRowsAreDeleted | indexer/src/oracle_accounts.rs:173-185 | a row disappears only by a prune whose snapshot observed no decodable account there, failed upserts or not |
| MirrorProtocol.ReachableIsCoherent | indexer/src/market/processor.rs:42-69 | in every reachable state the parent column agrees with the stored bytes, on both sides |
| MirrorProtocol.ReachableColumnsNameBytes | indexer/src/market/processor.rs:42-69 | in every reachable state, on both sides, a row's type is its tag byte and its parent itself, the key at offset 8, or none |
| MirrorProtocol.ReconcileConvergesIff | indexer/src/oracle_accounts.rs:237-255 | once the chain has settled with nothing in flight, an interleaved reconcile makes the table exact if and only if newer-labelled rows already agreed |
| MirrorProtocol.RunConverges | indexer/src/oracle_accounts.rs:237-255 | so it becomes exact after any earlier run when no stored label is later than its slot |
| MirrorProtocol.ConvergedStays | indexer/src/oracle_accounts.rs:257-272 | after any run and a settled reconcile the mirror stays exact in every later state while no account changes, with the tail delivering what it reads, failed upserts, aborted reconciles and further ones |
| MirrorProtocol.RepeatedMessageResurrects | indexer/src/oracle_accounts.rs:149-185 | a run in which a repeated message brings a pruned row back, so the tail must be quiet |
| OracleDetail.Partition | app/src/data/oracles.ts:178-201 | the dispatch loop collects each kind in list order, skipping what does not decode, and keeps the first market |
| OracleDetail.AssembleDetailFromIndexed | app/src/data/oracles.ts:164-203 | the detail from the served rows, or nothing when the oracle row is missing or malformed |
| OracleDetail.FetchOracleDetail | app/src/data/oracles.ts:205-264 | the mirror's answer when there is one, else the direct scan or the not-found error |
| OracleDetail.MirrorPathAgreesWithScan | app/src/data/oracles.ts:164-264 | with an exact mirror the mirror path answers exactly when the scan does and the program owns the oracle account, with the same facts, proposers, claims and presence of a market, and the same market where the scan lists one |
| OracleDetail.IndexerChangesNothing | app/src/data/oracles.ts:205-264 | with an exact mirror, asking the indexer first never changes what is shown |
| OracleDetail.ScanShowsChain | app/src/data/oracles.ts:205-264 | the direct scan shows exactly the chain's accounts that name the oracle, by tag and size, and finds the oracle by its own |
| OracleDetail.MirrorShowsChain | app/src/data/oracles.ts:164-203 | so does the mirror path with an exact mirror |
| OracleDetail.FirstIsEarliest | app/src/data/oracles.ts:195-197 | the market shown is the first one listed |
| OracleDetail.DetailAfterReconcile | app/src/data/oracles.ts:205-264 | the same after any run of the mirror followed by a settled reconcile, in every later state while no account changes |
| MetaHost.MetaStore.InsertOracleMeta | indexer/src/db/oracle_meta.rs:10-31 | keeps the first row of an oracle |
| MetaHost.MetaStore.PostOracleMetaJson | indexer/src/api.rs:224-244 | stores a text with its own digest, refuses a body that is no text, and fails where the table cannot hold it |
| MetaHost.MetaStore.GetOracleMetaJson | indexer/src/api.rs:249-283 | serves, 404 or 409 by the stored digest against the commitment |
| MetaHost.MetaStore.ReconcileOnce | indexer/src/meta_fetch.rs:62-74 | the fetch loop over a batch: the stored blobs and their count |
| MetaHost.FetchAccepts | indexer/src/meta_fetch.rs:79-108 | an answer is accepted if and only if it is at most 262144 bytes, also as declared, hashes to the commitment and is text |
| MetaHost.BatchIsStored | indexer/src/meta_fetch.rs:62-74 | after a batch each stored answer is its oracle's blob, and every other oracle keeps its own |
| MetaHost.StoredCountIs | indexer/src/meta_fetch.rs:62-74 | the number reported is the number of items stored |
| MetaHost.WorkListIs | indexer/src/db/oracle_meta.rs:116-146 | the work list is the indexed oracles with a uri whose stored blob, if any, has another digest |
| MetaHost.ServedMatchesCommitment | indexer/src/api.rs:246-283 | under any interleaving of queries every served JSON hashes to the write-once commitment, now and later |
| MetaHost.GetServesIff | indexer/src/api.rs:246-283 | in every reachable state a GET serves exactly the stored JSON whose own digest is the commitment |
| MetaHost.WorkListIff | indexer/src/db/oracle_meta.rs:116-146 | an indexed oracle with a uri is on the unlimited work list exactly when a GET on that state would not serve |
| MetaHost.FetchedIsServed | indexer/src/meta_fetch.rs:62-108 | what the fetcher stores is served at once and leaves the work list; a failed store changes nothing |
| MetaHost.ServiceChangesIff | indexer/src/api.rs:221-283 | in every run a GET of an indexed oracle stops serving exactly at a POST of a text with another digest, and starts exactly when a text with the committed digest is posted or fetched |
| MetaHost.OutOfServiceUntilRestored | indexer/src/api.rs:221-244 | after such a POST no GET serves in any later state until the committed text is posted or fetched |
| MetaHost.PostKeepsServiceIff | indexer/src/api.rs:221-244 | where a GET served, it still serves after a POST if and only if the body is not stored or hashes to the commitment |
| MetaHost.PostTakesOutOfService | indexer/src/api.rs:221-223 | a run in which a GET serves the committed text, another text is posted, and the next GET is a conflict |
| CrawlCursor.Indexer.Process | indexer/src/processor.rs:60-122 | one event inserted once, the head and the frontier updated; a failed insert changes nothing |
| CrawlCursor.Indexer.PromoteTick | indexer/src/main.rs:241-257 | the cursor becomes the head if and only if the minimum is set and equals the one the previous tick saw, a head exists and the write succeeds |
| CrawlTicks.TickPromotesIff | indexer/src/main.rs:241-257 | in every run of a process a tick promotes its head if and only if something was recorded and the least slot recorded is the one the tick before it saw |
| CrawlTicks.PromotionSawNoDescent | indexer/src/state.rs:31-37 | when a tick promotes, nothing recorded since the tick before went below what that one saw |
| CrawlTicks.DescendingBackfillNeverPromotes | indexer/README.md:22-26 | while each interval between ticks lowers the minimum, the durable cursor stays |
| CrawlTicks.ProcessKeepsMinima | indexer/src/processor.rs:108-120 | the minimum is the least slot recorded in this run, and the other value what the last tick saw |
| CrawlTicks.HeadIsNewest | indexer/src/processor.rs:108-120 | the head is the cursor resumed from or a recorded transaction, and none recorded is newer |
| CrawlCursor.CursorNeverGoesBack | indexer/src/main.rs:82-89 | over all runs, crashes and restarts the durable cursor is never lost, and neither its slot nor its place in the ledger goes back |
| CrawlCursor.CursorHasRow | indexer/src/processor.rs:81-117 | the cursor's signature always has an event row at the cursor's slot |
| CrawlCursor.IdleRunNeverPromotes | indexer/src/state.rs:31-37 | the cursor changes only by a write of a run that recorded something |
| CrawlCursor.EventsStay | indexer/src/db/events.rs:20-42 | event rows are never changed or removed |
| CrawlCursor.CrawlIsIdempotent | indexer/src/db/events.rs:20-42 | crawling a range again, in any order and with repetitions, changes nothing |
| CrawlCursor.LostIff | indexer/README.md:11-26 | in every reachable state an instruction will get a row in no continuation if and only if it has none, the cursor is at or past it and no running crawl owes it |
| CrawlCursor.StepLosesIff | indexer/README.md:22-26 | a step loses an instruction exactly when the process dies owing one behind the cursor, the insert of such a one fails, or the cursor is written past one whose insert had failed |
| CrawlCursor.RunLosesNothingIff | indexer/README.md:26 | over all crashes and restarts a run loses nothing if and only if no step of it is one of those three |
| CrawlCursor.PassedTestLosesIff | indexer/src/state.rs:31-37 | when the frontier test passes, the promotion followed by a crash loses an instruction for good if and only if it has no row and stands at or before the head |
| CrawlCursor.PassedTestIsSafeIff | indexer/src/state.rs:31-37 | after that nothing is lost if and only if every instruction up to the head has a row |
| CrawlCursor.GuardedRunsLoseNothing | indexer/README.md:22-26 | if every promoting tick had tested that all rows up to the head exist, no run would lose anything, failed inserts and crashes included |
| CrawlCursor.PromotionLosesTransaction | indexer/README.md:15-26 | a run of the code as it is, after which a transaction has a row in no state of any continuation |
| Candles.PriceTable.InsertPrice | indexer/src/market/db.rs:190-208 | the first sample of a market at a slot stays, and no other market's series changes |
| Candles.BucketIs | indexer/src/market/db.rs:234-246 | a bucket starts at a multiple of the width, at most one width before its times, or after them for times before 0 |
| Candles.CandleExists | indexer/src/market/db.rs:234-246 | every non-empty bucket has exactly one candle, with low <= open, close <= high |
| Candles.AnswerExistsAndIsUnique | indexer/src/market/db.rs:223-260 | a query has exactly one answer: the latest non-empty buckets up to the limit, ascending |
| Candles.MergeKeepsExtremes | indexer/src/market/db.rs:234-246 | merging w-second candles gives the high and low of the k*w-second candle, for every series |
| Candles.MergeIsCoarseCandle | indexer/src/market/db.rs:234-246 | and the whole candle when the bucket's least slot lies in its earliest fine bucket and its greatest in the latest |
| Candles.AnswersCoarsenIff | indexer/src/market/db.rs:223-260 | grouping and merging the unlimited w-second answer gives the unlimited k*w-second answer at all prices if and only if every coarse bucket is aligned in that way |
| Candles.TimeFollowsSlotCoarsens | indexer/src/market/db.rs:223-260 | it does when timestamps do not decrease with the slot |
| Candles.OpenNeedsTimeToFollowSlot | indexer/src/market/db.rs:223-225 | a series with a clock that ran backwards where the open differs |

## Left out

- Account, owner and address checks of the instruction processors, rents, and the closing of accounts that hold no tokens (`close_ai_claim`, `close_market`): the vault depends on none of them.
- `sweep_oracle`, which ends an oracle's life 30 days after its last window and takes what is left: the claims before it are modelled.
- The challenger's USDC escrow, which is split without remainder, and the decision market whose prices decide a challenge: prices are arbitrary.
- StakeVault: accounts are values, since an instruction loads copies and writes them back; a call of a finalizer over several accounts is as many calls over one.
- Sums that overflow `u64` make an instruction fail where the source checks them and the model's own fields are `u64`; the vault's balance itself is unbounded.
- SHA-256, base58, base64 and JSON encoding: a parameter, an identification, and not modelled.
- The order of rows where a query sorts (`list_oracles`, `contributions_for`, `query_events`) or leaves it open: results are tables, and the detail view is proved for every order.
- The limit of 50 on the fetcher's batch: any part of the work list may be its batch, so nothing is claimed about when a particular oracle is fetched.
- The address checks of the metadata fetcher (`indexer/src/meta_fetch.rs:116-159`): an address they refuse counts as no answer.
- Floating-point rounding of prices: candle prices are reals, and how a price is computed from reserves is not modelled.
- Distinct option lists may render alike, because labels are verbatim and may contain newlines: only the facts are determined by the prompt text.
- A candle query with a limit that cuts a coarse bucket's fine candles: coarsening is stated for answers that the limit does not cut.
- The website's hooks and pages, transaction building and sending, CLI parsing and the model client: glue over libraries.
- CrawlCursor.Indexer.Process: leaves out the metadata insert of lines 86-105, whose failure changes nothing else; its parser is in `OracleMetaWire` and its table in `MetaHost`.
- OracleDetail.Partition: stands for two loops of the source with the same dispatch, one on the stored type and one on the tag byte.
