# Keeper verification

A Dafny model of the decision logic of the StakeWise v3 keeper, with proofs. Network calls are
replaced by parameters whose values are arbitrary, so every theorem holds for all answers of the
oracles, the nodes, IPFS and the contracts. `dafny verify dfyconfig.toml` checks the project.

## What is modelled

- **Threshold signatures** (`PrimeField`, `Lagrange`, `Crypto`, `Exits`, `ExitRuns`,
  `ExitRecovery`). The nested loops that interpolate at 0 modulo the group order, in any group of
  prime order with a readable encoding; the grouping of the oracles' exit shares, the batched
  removal of validators that exit already, the length check and the submissions of a run.
- **Transactions** (`FeeRules`, `Transactions`, `Convergence`, `NonceProtocol`). Fees under a
  ceiling, the transaction manager with its fee records, repeated attempts against a transaction of
  unknown fees, and a step-by-step protocol of the lock holder, the node and restarts.
- **Oracle config** (`EventLog`, `Contracts`, `ProtocolConfig`). The backward chunked scan for the
  last event, and the checkpointed cache over it.
- **Votes** (`Sorting`, `Addresses`, `Quorum`, `RewardsCache`, `Rewards`, `RewardRuns`,
  `RewardNonces`, `RewardsFindings`, `Distributor`). The bounded vote cache against the unbounded
  log of votes, the choice of a winner, and the collection of signatures by both vote services.

`Dicts` is an insertion-ordered dictionary, `Wrappers` holds Option and Result.

## Where the code does not keep what it suggests

Each of these is a lemma with an input that shows it, next to the condition under which, and only
under which, the code does keep it.

- The exit length check counts repeated lines of one oracle
  (`ExitRecovery.RepeatedLineDefeatsThreshold`). Passing it makes the signature right for every
  sharing of at most threshold coefficients exactly when at least threshold different oracles name
  the validator (`ExitRecovery.LengthCheckExact`, `ExitRecovery.EnoughOraclesExactly`); for one
  given sharing the condition is on what is left of its polynomial (`ExitRecovery.RecoveryExact`,
  `Crypto.ReconstructsExactly`).
- A first run on a node that lags behind the hard-coded event block caches a config from a block
  after its checkpoint (`ProtocolConfig.LaggingNodeSeesTheFuture`); it is right exactly when the head
  has reached that block (`ProtocolConfig.ColdRunExact`).
- After a rejected attempt the record is not the fee of the pending transaction. The refusal at the
  ceiling, described as the pending transaction being pinned there, can then leave a transaction that
  fees within the ceiling would replace (`Convergence.RefusalCanBePremature`): exactly when the
  ceiling lies between the two thresholds (`Convergence.PrematureRefusalExact` and, over a series of
  runs, `Convergence.NextRunRefusesPrematurely` and `Convergence.RefusedPrematurelyExact`).
- Cached votes of an earlier nonce can be submitted under a later one
  (`RewardsFindings.StaleNonceSubmitted`): every run with a nonce submits only votes that carry it
  exactly when every vote in the cache before the run does (`RewardNonces.CurrentNonceExact`).
- One oracle can be counted twice (`RewardsFindings.OneOracleMakesQuorum`): the signers are distinct
  oracles for every threshold exactly when no oracle has two cached votes for the body
  (`Rewards.DistinctOracles`), which is a condition on the votes received
  (`Rewards.OneVoteEachInLog`).

## Model

| member | source | states |
|---|---|---|
| PrimeField.PrimeFieldInv | src/exits/crypto.py:20 | the inverse modulo a prime, extended by 0 at 0 |
| Lagrange.PartitionOfUnity | src/exits/crypto.py:17-20 | for every non-empty list of indices distinct mod p, the coefficients the inner loop computes add up to 1 |
| Lagrange.Interpolation | src/exits/crypto.py:14-21 | for every polynomial f and every list of indices distinct mod p, the weighted sum of f(i+1) is f(0) less an exact term: the product of the -(i+1) times the value at 0 of what is left of f after division by every x-(i+1), which is nothing when there are enough indices |
| Crypto.ReconstructSharedBlsSignature | src/exits/crypto.py:9-22 | the nested loops compute the fold that the reconstruction theorems are about, or fail on the first share that does not decode |
| Crypto.ReconstructFails | src/exits/crypto.py:15-17 | the reconstruction raises if and only if some share does not decode |
| Crypto.HonestSharesReconstruct | src/exits/crypto.py:9-22 | any dictionary of enough honest shares, in any order, gives the signature of the shared key |
| Crypto.ReconstructionAgrees | src/exits/crypto.py:14-21 | two share maps of one sharing reconstruct the same signature |
| Crypto.ReconstructsExactly | src/exits/crypto.py:14-21 | honest shares, however few, give the right signature if and only if what is left of the polynomial after division by every share's point vanishes at 0 mod p, or some share is itself taken at 0 |
| Exits.FetchValidatorExits | src/exits/service.py:82-106 | each listed validator, in order of first mention, gets exactly the shares listed for it, by oracle; failed oracles contribute nothing |
| ExitRuns.ValidatorsSpec | src/exits/service.py:93-104 | the validators are exactly those that some line names, once each, in the order in which the lines first name them |
| ExitRuns.SharesPositions | src/exits/service.py:93-104 | a validator's shares are one for each line that names it, repeated or not, in the order of the lines |
| Exits.SharesOfSpec | src/exits/service.py:93-104 | the shares of a validator are exactly the lines that name it, each under the position of its oracle |
| Exits.DeleteAllSpec | src/exits/service.py:53-55 | the deletions succeed if and only if the reported exiting indexes are distinct and present, and then remove exactly those |
| Exits.BatchesCoverAll | src/exits/service.py:46-55 | for every batch size, a node that answers each index reports every exiting index once and in order |
| Exits.ReportedSpec | src/exits/service.py:46-55 | over the batches of the configured size: a failed query fails the whole, and otherwise exactly the validators some answer gives an exiting status are reported |
| Exits.RemoveExiting | src/exits/service.py:46-55 | the batched queries delete what is reported over all batches; a failed query or a missing key ends the run |
| Exits.ProcessExits | src/exits/service.py:35-79 | the submissions are the due validators (listed, with enough shares, not reported as exiting) in order of first mention with their recovered signatures; the run ends early exactly on a failed removal or before the first due validator whose shares do not decode |
| ExitRuns.OutcomeSpec | src/exits/service.py:59-79 | no validator is submitted twice or when not due, a finished run has submitted all that are due, and one that ended early has left a due validator whose shares do not decode |
| ExitRuns.DueSpec | src/exits/service.py:59-64 | due are exactly the validators named by at least one and at least threshold lines that no batch reports as exiting |
| ExitRuns.FailedQueryEndsRun | src/exits/service.py:46-52 | a failed query or a bad batch size ends the run before any submission |
| ExitRuns.SubmittedInOrder | src/exits/service.py:59-76 | submissions are in the order in which the lines first name the validators |
| ExitRecovery.ShareDictEntries | src/exits/service.py:69-71 | each share index maps to the last share with that index |
| ExitRecovery.RecoveredSignatureIsRight | src/exits/service.py:62-71 | honest oracles of which at least as many name a validator as its sharing has coefficients: the recovered signature is that of the shared key |
| ExitRecovery.HonestRun | src/exits/service.py:59-76 | over honest answers in which repeated lines do not pass the length check, a run submits the right signature for exactly the due validators, and ends early only when the removal fails |
| ExitRecovery.HonestRunExact | src/exits/service.py:35-79 | with honest oracles that do not repeat themselves and a node that answers, the run finishes and submits the right signature for exactly the validators that at least threshold oracles name and that are not exiting, in order of first mention |
| ExitRecovery.RecoveryExact | src/exits/service.py:62-71 | over any honest answers, with repeated lines or too few, the recovered signature is right if and only if what is left of the polynomial after division by the points of the shares vanishes at 0 mod p |
| ExitRecovery.EnoughOraclesExactly | src/exits/service.py:62-71 | whatever the oracles list, every sharing of at most threshold coefficients is recovered if and only if at least threshold different oracles name the validator |
| ExitRecovery.LengthCheckExact | src/exits/service.py:62-71 | passing the length check makes the signature right for every such sharing if and only if the check is not passed by repeated lines of fewer oracles |
| ExitRecovery.RepeatedLineDefeatsThreshold | src/exits/service.py:62-71 | one oracle listing a validator twice passes a threshold of two, and the signature is then wrong for every sharing of degree one |
| FeeRules.TenPercentIsThreshold | src/common/transaction.py:76-82 | the threshold as computed, exact or rounded up by one at multiples of ten, is monotone, at least 10% more, and cleared by the 12.5% bump |
| FeeRules.CappedIsLargest | src/common/transaction.py:84-88 | capping establishes priority <= fee <= ceiling, is the identity exactly on such fees, and gives the largest such fees |
| FeeRules.RefusalExact | src/common/transaction.py:62-92 | a replacement over capped fees is possible if and only if the threshold over the previous fee is within the ceiling; priority fee and suggestion never decide |
| FeeRules.PlanSpec | src/common/transaction.py:183-202 | broadcast fees are within the ceiling, replace the record past the threshold, and are refused exactly at the ceiling |
| FeeRules.PlanFees | src/common/transaction.py:183-190 | each planned fee over a record is the larger of the capped suggestion and the capped bump; without a record the capped suggestion, unchanged when it is within the ceiling |
| FeeRules.Fees.Cap | src/common/transaction.py:84-88 | capping in place establishes priority <= fee <= ceiling, changes nothing that has it, and gives the capped fees |
| FeeRules.Fees.MaxWith | src/common/transaction.py:69-74 | a fresh object within the ceiling, for two operands within it the larger of both fees; neither operand changes |
| Transactions.TransactionManager.SubmitHighPriority | src/common/transaction.py:177-220 | the planned fees are broadcast at the nonce and recorded on acceptance and on a fee rejection, not on other errors; nothing is sent or recorded on refusal or when the gas manager raises |
| Transactions.BroadcastFees | src/common/transaction.py:183-204 | the same for the fees that a submission broadcasts |
| Transactions.TransactionManager.SubmitDefaultGas | src/common/transaction.py:222-240 | at most the configured attempts without fees at one nonce, each after a fee rejection, ending in the first other answer |
| Transactions.TransactionManager.Transact | src/common/transaction.py:126-175 | the records, broadcasts and result of a call: stale records dropped once both counts are read, replacement when something is pending, escalation after rejected default gas |
| Transactions.CallKeeps | src/common/transaction.py:141-175 | every call broadcasts only at the confirmed count, at most once with chosen fees and within the ceiling, leaves at most one record, and only raises a record past the threshold |
| Transactions.CallResult | src/common/transaction.py:126-175 | a call returns a receipt if and only if its last broadcast was accepted and mined with success, and raises if and only if the simulation, a nonce read, the fee request, its last broadcast or the wait failed |
| Transactions.CallBroadcasts | src/common/transaction.py:141-175 | which broadcasts a call makes: without fees, each after the rejection of the one before and up to the configured number, then one with fees; only that one when something is pending or the call is urgent; it is left out exactly if no fees can be planned |
| Transactions.CallRecords | src/common/transaction.py:153-157 | the records after a call are those from the confirmed count on, with the fees of the last broadcast if it had fees and was not answered by another error |
| NonceProtocol.AtMostOneInFlight | src/common/transaction.py:97-118 | in every state of every interleaving with mining, drops, late deliveries, errors and restarts, all unconfirmed transactions sit at the confirmed count, the pending count is at most one more, and there is at most one record |
| NonceProtocol.InvStep | src/common/transaction.py:135-175 | each step keeps the invariant behind it, also when mining happens between the nonce reads and the broadcast |
| NonceProtocol.RecordedFeesRise | src/common/transaction.py:153-157 | within one process both recorded fees of a nonce grow by at least 10% with every change, within priority <= fee <= ceiling, and a dropped record never returns |
| NonceProtocol.CallIsProtocolRun | src/common/transaction.py:126-175 | every call of the manager is a visit of its task to the lock by its own steps alone, with exactly the call's broadcasts and answers in order, ending with a free lock, the call's records, and the nonce in the pool if and only if the last broadcast was accepted |
| Convergence.AttemptIsSubmission | src/common/transaction.py:177-220 | one more attempt of a series is one more submission of the manager, from the record the series left |
| Convergence.ReattemptsBounded | src/common/transaction.py:177-220 | k re-attempts imply 11^k times the first fee is at most 10^k times the ceiling |
| Convergence.AttemptsEnd | src/common/transaction.py:205-220 | whatever the node answers, runs from a positive suggestion on end in a bounded number, accepted or refused |
| Convergence.EndsExactly | src/common/transaction.py:177-220 | against a node that accepts nothing the runs end if and only if the ceiling is positive and some suggested fee is |
| Convergence.RefusedAtCeiling | src/common/transaction.py:191-202 | a refusal happens only on a record whose threshold lies above the ceiling |
| Convergence.PrematureRefusalExact | src/common/transaction.py:190-202 | a run refuses although some fees within the ceiling would replace the pending transaction if and only if the ceiling is at least the threshold over that transaction's fee and below the threshold over the recorded one |
| Convergence.NextRunRefusesPrematurely | src/common/transaction.py:177-220 | the same for the next run after any series of runs that is still trying, from the record it left |
| Convergence.RefusedPrematurelyExact | src/common/transaction.py:191-202 | after any series that ended in a refusal, that refusal was premature if and only if the threshold over the pending transaction's own fee is within the ceiling |
| Convergence.RefusalCanBePremature | src/common/transaction.py:207-218 | an input on which the second run refuses although the ceiling itself would replace the pending transaction |
| Contracts.ChunkRanges | src/common/contracts.py:65-72 | the chunks, which are consecutive, disjoint, descending ranges, all but the last of full width, that make up the block range; none exactly when it is empty |
| Contracts.EachBlockOnce | src/common/contracts.py:67-72 | every block of the range is in exactly one chunk, and no other block is in any |
| Contracts.BlocksRange | src/common/contracts.py:65 | the chunk width is the number of whole blocks in the configured seconds, and at least 1 |
| Contracts.BatchStartSpec | src/common/contracts.py:74 | the batches are full: each starts at a multiple of the concurrency |
| EventLog.LastInSpec | src/common/contracts.py:78-81 | the event taken is the one at the greatest log position inside the range; None only when no position is |
| Contracts.GetLastEvent | src/common/contracts.py:57-81 | for every chunk length and concurrency the scan returns the last event of the whole range, or None when it has none; it fails exactly on a bad batch size, or when a query raises in a batch before which no chunk holds an event |
| ProtocolConfig.OraclesCache.GetProtocolConfig | src/protocol_config/service.py:11-50 | on success the cache holds the finalized head, the config of the last new event or the cached one, and the threshold; it is unchanged on any failure before the update; in a healthy environment a run succeeds up to building the config whenever the cache is warm or the log shows an event after the checkpoint or at the hard-coded block |
| ProtocolConfig.GetConfigUpdateEventSinceCheckpoint | src/protocol_config/service.py:53-71 | the cold lookup, which returns nothing if and only if no event lies after the hard-coded checkpoint up to the head and none at the hard-coded block |
| ProtocolConfig.ColdEventSpec | src/protocol_config/service.py:59-71 | it finds the last event after the checkpoint up to the head, and only without one the last at the hard-coded block |
| ProtocolConfig.ColdRunFinds | src/protocol_config/service.py:67-71 | once the head has reached the hard-coded block there is an event for a cold run to find |
| ProtocolConfig.ColdRunExact | src/protocol_config/service.py:53-71 | a cold run finds an event that is the last up to the finalized head if and only if the head has reached the hard-coded event block |
| ProtocolConfig.NoEventSkipped | src/protocol_config/service.py:28-45 | over every sequence of runs, also with a head that moves backwards, the config is that of the last event up to some block not behind the checkpoint and not ahead of what was seen |
| ProtocolConfig.AgreesWithFullScan | src/protocol_config/service.py:11-50 | with a head that only advances, the config is that of the last event of the whole chain at or before the checkpoint, once the checkpoint has reached the hard-coded event block |
| ProtocolConfig.LaggingNodeSeesTheFuture | src/protocol_config/service.py:67-71 | an input on which a first run caches a config from after its checkpoint |
| RewardsCache.RewardsCache.Update | src/rewards/service.py:37-47 | the votes added with whole-vote deduplication, then cut to the newest timestamps |
| RewardsCache.UpdateRefinesLog | src/rewards/service.py:37-47 | updating the cache shows exactly what the longer log shows |
| RewardsCache.CacheRefinesLog | src/rewards/service.py:37-47 | after any updates the keys are the k newest timestamps ever seen and each bucket is the first-arrival deduplication of all votes ever seen for it |
| RewardsCache.DedupOrder | src/rewards/service.py:42-43 | the distinct votes of a bucket are in the order of their first arrival |
| RewardsCache.NewestSpec | src/rewards/service.py:45-47 | the kept timestamps number k, or all, and none left out is newer than one kept |
| RewardsCache.NewestAgain | src/rewards/service.py:45-47 | a timestamp once evicted is never kept again |
| RewardsCache.ViewIsValid | src/rewards/service.py:49-52 | every reachable bucket is non-empty, holds only votes of its own timestamp and none twice, so indexing its first vote is safe |
| Rewards.BucketsSpec | src/rewards/service.py:49-52 | ordering the buckets by their first vote lists every cached timestamp once, ascending |
| Rewards.FindEarliestWinner | src/rewards/service.py:110-125 | the loop returns the first bucket with a quorum, or nothing |
| Rewards.WinnerSpec | src/rewards/service.py:110-125 | the winner is a most voted body at the smallest cached timestamp with a quorum; none if and only if no timestamp has one |
| Quorum.MostCommonSpec | src/rewards/service.py:114-115 | most_common(1) gives a body no other exceeds, the first seen among equals |
| Quorum.CountIsMultiplicity | src/rewards/service.py:114 | a body is counted as often as it occurs |
| Rewards.CollectSignatures | src/rewards/service.py:93-101 | the loop with its counter and break joins the signatures of the chosen votes |
| Rewards.ProcessRewards | src/rewards/service.py:58-107 | the cache and the submission after a run; the cache is cleared only when a submission returns |
| Rewards.AdmittedSpec | src/rewards/service.py:67-68 | admitted are exactly the received votes with the current nonce, all of them and in the order received |
| RewardRuns.SubmitsExactly | src/rewards/service.py:58-107 | a run submits if and only if it may update, receives a vote with the current nonce, and some body has at least threshold different votes, cached or received, at one of the k newest timestamps; the winner is such a body at the smallest timestamp and most voted there |
| RewardRuns.FreshQuorumSubmits | src/rewards/service.py:58-107 | from an empty cache, threshold different received votes for one body at the newest timestamp make a submission |
| RewardRuns.CacheAfter | src/rewards/service.py:45-107 | after a run the cache is unchanged if a guard stopped it, empty if a submission went through, and otherwise holds exactly the votes present at the k newest timestamps |
| Rewards.SubmissionSpec | src/rewards/service.py:93-106 | exactly threshold votes, all for the winner, by ascending address, none of a lower address left out |
| Sorting.SortStable | src/rewards/service.py:95 | votes of equal rank keep their order in the sort |
| Rewards.JoinSpec | src/rewards/service.py:93-101 | the joined bytes are as long as all signatures together, and each signature stands after those before it |
| RewardRuns.SubmittedBytes | src/rewards/service.py:93-106 | the bytes a run submits are the signatures of the lowest signers for the winner, one after the other and nothing else |
| RewardRuns.SubmittedBlocks | src/rewards/service.py:93-106 | with signatures of n bytes they are threshold blocks of n bytes, block i being the signature of signer i |
| Rewards.DistinctOracles | src/rewards/service.py:95-101 | the signers' addresses ascend strictly for every threshold the votes meet if and only if no oracle has two cached votes for the body |
| Rewards.OneVoteEachInLog | src/rewards/service.py:37-47 | every cached bucket has one vote per oracle and body if and only if any two received votes of one oracle for one body at a kept timestamp are the same vote |
| Rewards.KeeperRefinesLog | src/rewards/service.py:58-107 | over every sequence of runs the keeper submits exactly what it would over the unbounded log of admitted votes since the last submission |
| RewardNonces.LogNonces | src/rewards/service.py:67-75 | while the nonce stays the same since the log was last empty, all logged votes carry it |
| RewardNonces.CurrentNonceSubmitted | src/rewards/service.py:67-106 | a run with that nonce then submits only votes that carry it |
| RewardNonces.CurrentNonceExact | src/rewards/service.py:67-107 | from any cache of at most its size, every run with a given nonce submits only votes that carry it if and only if every cached vote does |
| RewardNonces.CacheBounded | src/rewards/service.py:45-47 | every cache a keeper can have is of this kind: well formed and within its size |
| RewardsFindings.StaleNonceSubmitted | src/rewards/service.py:67-107 | an input on which a vote of an earlier nonce is submitted under a later one |
| RewardsFindings.OneOracleMakesQuorum | src/rewards/service.py:42-43 | an input on which two votes of one oracle make a quorum of two |
| Addresses.AddressOrder | src/distributor/service.py:59-61 | on 0x-hex addresses the order of lower-cased strings is the order of the integers |
| Distributor.ServicesOrderAlike | src/distributor/service.py:59-61 | sorting votes by lower-cased address and by address as an integer gives the same list |
| Distributor.CollectSignatures | src/distributor/service.py:63-70 | the loop with break appends the signatures of the first minOracles votes for the winner |
| Distributor.ProcessDistributorRewards | src/distributor/service.py:22-75 | a submission is made if and only if the most common body of the eligible votes has enough votes and its root is not on chain yet |
| Distributor.SubmitsExactly | src/distributor/service.py:22-51 | in terms of the votes received: a submission is made if and only if the first counting vote of an unexceeded body has a body with at least minOracles counting votes and a root not yet on chain; that body is submitted |
| Distributor.EligibleSpec | src/distributor/service.py:28-41 | the votes that count are exactly those with the current nonce and a later timestamp, as often and in the order received |
| Distributor.SubmissionSpec | src/distributor/service.py:28-70 | exactly minOracles signatures of votes with the current nonce, a later timestamp and the winning body, lowest addresses first; no body has more such votes |

## Left out

- FeeRules.TenPercentIsThreshold: takes for granted that the double-precision product with 1.1 is above the exact one at most at multiples of ten, and there by less than one, as for all fees below 2^49 wei; the other fee results are stated for every threshold that is monotone, at least 10% more and cleared by the bump.
- Exits.ProcessExits: a submission call that itself raises anything but a client response error would cut the list short; the model has no such error.
- Contracts.GetLastEvent: the node's log is fixed during one scan.
- NonceProtocol.CallIsProtocolRun: follows a call between whose steps the node does nothing; what may happen in between is in the theorems over all interleavings.
- HTTP, RPC and GraphQL calls, their retries and endpoint selection, response-key validation, and exceptions that stop the process.
- Curve arithmetic, point encoding and py_ecc's inverse algorithm: any group of prime order with a readable encoding, and the inverse given by its value, which is unique.
- That the concrete group order is prime: primality is a hypothesis.
- Signing, gas estimation beyond success or failure, the gas manager (sw_utils is not part of this model), and the recognition of fee rejections from their messages.
- The list of exiting statuses: the node's report for a validator is a flag.
- Lower confirmed counts after a chain reorganisation, and wallet transactions sent from elsewhere.
- The interleaving of the services with each other: they share only the transaction manager, whose lock is modelled.
- Force exits, LTV and price updates, startup checks, metrics and logging: plumbing and short guard sequences.
- What the contracts check on chain.
