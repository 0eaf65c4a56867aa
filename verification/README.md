# Vero: consensus, duties and selection, verified

Vero is a validator client that talks to several beacon nodes at once and attests only to what enough of them agree
on. This project models the parts of Vero that decide *what* is signed and *how often*, and proves what they keep
over every run. `dafny verify dfyconfig.toml` checks all of it.

## What is modelled

- **The quorum protocol.** Argument validation (`Args`), start-up of the beacon nodes and the checkpoint quorum
  (`BeaconNodes`), the polling loop with its latest-answer map and its incrementally updated counter (`Consensus`),
  and the attestation data provider with its head-event path, two timeouts, and the checkpoint caches that are pruned
  while calls are under way (`AttestationDataProvider`, `ProviderRuns`).
- **The duty machines.** The started/completed marks shared by all duty services (`DutyLedger`), the attestation
  service (`AttestationService`, `DutyRefresh`, `AttestationRuns`), the block proposal service and the shutdown that
  waits for it (`BlockProposal`, `BlockRuns`), the retry loop of a duty refresh (`Backoff`), the slashing latch
  (`ValidatorStatusTracker`), and the way from the command line to running services (`StartUp`). `AttestationSlots` asks
  which slots signed attestation data carries.
- **Selection, batching, deduplication.** The best block against a deadline (`BestBlock`), the table of remote keys and
  the signers behind it (`Keymanager`), batch signing (`BatchSigning`), sync committee selection proofs and
  contributions (`SyncCommittee`), the window of recent events (`EventWindow`).
- **The clock.** Slots, timestamps, the ticker, forks and sync periods (`BeaconClock`).

`Basics` holds `Option`, `Result` and the few facts about finite sets that everything else uses; `Types` the values
that several modules exchange.

## How runs are modelled

A coroutine runs without interruption between two suspension points. Each such stretch is one step: a method of a class
where the source changes an object's fields, proved equal to a function on values; a run is a fold of these functions
over an arbitrary sequence of events, and the invariants are proved for every such sequence.

- Answers of beacon nodes and signers, the moments at which timeouts fire, and the wall clock are inputs and arbitrary.
  A node may give any answer, change its mind, or never answer.
- The event alphabets allow more than the client does: a deadline job or a head event may ask for any slot at any time,
  any number of calls may be suspended at once, a refresh may fail at any point, and may be suspended where an empty
  batch would let it run on. What holds for all of these runs holds for the real ones.
- `AttestationRuns` runs the whole provider of `ProviderRuns` inside it, so its main theorem spans the way from a node's
  answer to the signer.
- State records carry history that the client does not keep: the answers given, the data returned, the starts with
  the slot in which they happened, what each attestation took from the duty table, what was handed to the signer.
- Epochs and slots, strings on the wire, are naturals. A URL, public key or root is an opaque string.

## Where the code does less than one might think

- A checkpoint cache hit confirms source and target one by one. `CacheHitMayPairAcrossRuns` gives, for every
  threshold above one, a run in which a single node alone reported the returned data and its pair of checkpoints. So
  pairs are confirmed as pairs if and only if the threshold is one (`PairsVouchedIff`), or off the cache hits
  (`OnlyCacheHitsMixPairs`).
- A threshold that is no majority lets two parts of the same client's nodes decide differently: `CannotSplitIffMajority`.
- Nothing compares the slot inside attestation data, or in a block header, with the duty's slot. What is signed is
  unique by the slot of the duty; it is unique by the slot that it carries if and only if the slots that nodes answer
  with tell the duty slots apart (`OneDatumPerSlotIff`, `OneHeaderPerSlotIff`).
- A proposal begins in its own slot, but its block may be handed to the signer in a later one: `SigningMayBeLate` gives
  the run, `SignedInOwnSlotIff` and, by the clock, `SignedOnTimeIff` the exact condition.
- `has_ongoing_duty` may stay true after every task has ended (`OngoingMayBeStale`): it is right throughout a run if and
  only if no older task ends after the current slot's own (`OngoingIsRightIff`). For the sync committee service, whose
  guard lets the current slot through again, it may also be false while a task is running (`SyncMayLookIdle`);
  `SyncTruthfulIff` and `SyncAlwaysTruthfulIff` say exactly when.
- A remote key stays in the table although the mapping update fails, if a signer for its URL cannot be entered
  (`Keymanager.Keymanager.ImportUnservable`). That takes a host name, but also a scheme and a path that is empty or ends
  in a slash. Every update fails, and the mapping keeps its old state, until that row is deleted.
- With spec mismatches ignored, nodes of different specs start the client; the comparison of specs at the end of start-up
  is between copies of the client's own and cannot fail (`ReadyMeansSameSpecIff`, `BeaconNodes.MultiBeaconNode.Initialize`).
- A batch size of zero is an error and a negative one signs nothing without saying so
  (`BatchSigning.SignInSeparateProcess`).
- Two sync duties with the same public key collect each other's selection proofs (`SharedKeyMixesProofs`); regrouping is
  exact if and only if there are none (`RegroupingIsExactIff`).
- The ticker's fork version goes wrong exactly when the first slot of the fork epoch is skipped (`ForkVersionAgreesIff`).
- `wait_for_checkpoints` returns normally without a quorum when fewer nodes than the threshold are asked
  (`CheckpointQuorumIff`); start-up is what rules this out.

## Model

| member | source | states |
|---|---|---|
| Args.AcceptedIff | src/args.py:48-75 | a command line is accepted if and only if there is at least one URL, none repeats, each parses, hostnames differ, and a given threshold lies between 1 and the number of nodes; then the hosts are the URLs' own, and the threshold is the given one, or by default the smallest majority |
| Args.RefusedFor | src/args.py:48-75 | each refused command line is refused for the first reason that applies to it |
| Consensus.ReceiveStaysExact | src/providers/multi_beacon_node.py:501-516 | for every value the counter equals the number of hosts whose latest answer it is, through every change of mind |
| Consensus.BackersAfterAnswer | src/providers/multi_beacon_node.py:501-516 | one answer adds its host to the backers of the new value, removes it from those of the old, and touches no other value |
| Consensus.LatestIff | src/providers/multi_beacon_node.py:501-513 | the latest-answer map holds exactly the last answer of each host that has given one |
| Consensus.FlattenAppend | src/providers/multi_beacon_node.py:479-492 | the responses of all rounds count round by round, in completion order |
| Consensus.PollingStep | src/providers/multi_beacon_node.py:490-529 | each response either leaves every value below the threshold or decides the value it carries, with exactly a threshold of backers |
| Consensus.ProduceAttestationDataWithoutHeadEvent | src/providers/multi_beacon_node.py:471-536 | returns exactly with the first response after which a value is backed by a threshold of hosts, and that value; goes on exactly while there is none |
| Consensus.DecisionIsUnique | src/providers/multi_beacon_node.py:514-529 | one run has at most one decision and one moment of deciding, also below a majority threshold |
| Consensus.AgreementEndsTheLoop | src/providers/multi_beacon_node.py:490-529 | once a threshold of hosts answers one value, and nothing else, within a round, the loop does not survive that round |
| Consensus.DecisionsShareAHost | src/args.py:59-64 | under a majority threshold any two decided runs have a common host that backed both results when they were decided |
| Consensus.CannotSplitIffMajority | src/args.py:59-75 | runs over hosts that never change their answer can disagree if and only if the threshold is no majority |
| Consensus.MinorityCanSplit | src/args.py:66-75 | the concrete disagreement: two disjoint groups of hosts decide on different data |
| BeaconNodes.MultiBeaconNode.Initialize | src/providers/multi_beacon_node.py:97-137 | which nodes are initialized after which look at the loop condition, and the exact outcome; ready only with a threshold of nodes, each of which reported the client's own spec unless the comparison is waived; the comparison at the end cannot fail; no node is ever un-initialized |
| BeaconNodes.MultiBeaconNode.InitializeFull | src/providers/beacon_node.py:120-158 | a node joins if and only if its spec could be fetched and is the client's or mismatches are ignored |
| BeaconNodes.ReadyMeansSameSpecIff | src/providers/beacon_node.py:120-144 | however start-up goes, a ready client has only nodes that reported its own spec if and only if mismatches are not ignored |
| BeaconNodes.ForeignSpecsAreReady | src/providers/multi_beacon_node.py:125-130 | with mismatches ignored, a start-up in which every node reports another spec is ready all the same |
| BeaconNodes.MultiBeaconNode.AwaitThreshold | src/providers/multi_beacon_node.py:116-123 | the waiting loop ends with the first look that sees enough nodes, or the first one past the deadline |
| BeaconNodes.UpIff | src/providers/beacon_node.py:120-158 | a configured node is up at a look if and only if one of the reports so far had its spec, and the client's unless mismatches are ignored |
| BeaconNodes.WaitForCheckpoints | src/providers/multi_beacon_node.py:568-597 | returns exactly with the poll that completes the quorum of distinct nodes, and not before |
| BeaconNodes.ConfirmersConfirm | src/providers/beacon_node.py:325-352 | a node counts if and only if one of its own polls showed both checkpoints |
| BeaconNodes.CheckpointQuorumIff | src/providers/multi_beacon_node.py:568-597 | a normal return is backed by a threshold of distinct hosts, in every run, if and only if at least a threshold of nodes was asked |
| AttestationDataProvider.AttestationDataProvider.Resume | src/providers/attestation_data_provider.py:46-161 | what one answer does to a suspended call and to the caches, on each of the three paths |
| AttestationDataProvider.AttestationDataProvider.Prune | src/providers/attestation_data_provider.py:163-178 | each cache keeps three entries, or all if there are fewer: unchanged, and newer than what is dropped |
| AttestationDataProvider.KeepNewestKeepsNewest | src/providers/attestation_data_provider.py:163-178 | what is kept is unchanged, and newer than everything dropped |
| AttestationDataProvider.KeepNewestSize | src/providers/attestation_data_provider.py:163-178 | as many entries are kept as there are, up to the limit |
| ProviderRuns.ResumedVouched | src/providers/attestation_data_provider.py:46-161 | one answer either leaves the call suspended with everything it remembers vouched for, or returns data whose source and target a threshold of nodes vouched for |
| ProviderRuns.ReturnsIff | src/providers/multi_beacon_node.py:568-597 | a call returns if and only if the answer brings the last confirmation or backer that its threshold needs, or hits the cache; the quorum loop never falls through |
| ProviderRuns.StepKeepsInv | src/providers/attestation_data_provider.py:40-178 | every event, also a pruning or a timeout in the middle of another call, keeps caches, calls and returned data vouched for |
| ProviderRuns.RunKeepsInv | src/providers/attestation_data_provider.py:85-161 | over every interleaving of any number of calls, everything returned was vouched for, path by path |
| ProviderRuns.StepReturnsAtMostOnce | src/providers/attestation_data_provider.py:85-161 | a step ends at most one call, with one result for that call's own head event |
| ProviderRuns.AgreementEndsTheCall | src/providers/attestation_data_provider.py:69-83 | whatever a polling call has heard before and whatever happens in between, it has returned by the time a threshold of nodes has answered it with one value, and what it returns is an answer to it |
| ProviderRuns.TimeoutFallsBackToConsensus | src/providers/attestation_data_provider.py:109-161 | from any reachable state and under any interleaving, after either timeout the call has returned by consensus once a threshold of nodes has answered it with one value |
| ProviderRuns.HeadlessCallReturns | src/providers/attestation_data_provider.py:102-107 | a call without a head event has returned by consensus once a threshold of nodes has answered it with one value, under any interleaving |
| ProviderRuns.HeadEventIsFollowedUp | src/providers/attestation_data_provider.py:109-161 | under any interleaving, a call begun for a head event waits for the first data with its block root, and has returned that data, from the cache or by confirmation, once a threshold of nodes has reported its checkpoints; only a cancellation or timeout comes in between |
| ProviderRuns.ReturnCachesCheckpoints | src/providers/attestation_data_provider.py:40-67 | whenever data is returned the caches hold both its checkpoints, and nothing else has changed in them |
| ProviderRuns.CacheHitIff | src/providers/attestation_data_provider.py:52-58 | data is served from the caches if and only if they hold its source and its target at their epochs |
| ProviderRuns.PruneKeepsNewest | src/providers/attestation_data_provider.py:163-178 | a pruning in the middle of any calls leaves the newest three entries of each cache and touches nothing else |
| ProviderRuns.EndedCallsStaySilent | src/providers/attestation_data_provider.py:111-117 | a cancelled call returns nothing any more |
| ProviderRuns.ReadyIff | src/providers/beacon_node.py:120-144 | in every run the nodes that take part are those up at the start and the configured ones that came up since |
| ProviderRuns.CacheHitMayPairAcrossRuns | src/providers/attestation_data_provider.py:52-58 | for every threshold above one, every set of nodes and every slot: a run in which a cache hit passes data that one node alone reported, with a pair of checkpoints that no other node ever reported together |
| ProviderRuns.OnlyCacheHitsMixPairs | src/providers/attestation_data_provider.py:59-66 | in every run, data returned on any other path had its pair of checkpoints reported together by a threshold of nodes |
| ProviderRuns.PairsVouchedIff | src/providers/attestation_data_provider.py:46-67 | everything returned, in every run, has its two checkpoints confirmed as a pair by a threshold of nodes if and only if the threshold is one |
| DutyLedger.GuardedStepsKeepInv | src/services/validator_duty_service.py:62-76 | completed <= started <= current slot, strictly increasing starts each in its own slot, and distinct slots of running tasks survive every guarded start, end and tick |
| DutyLedger.RunningNowIsOngoing | src/services/validator_duty_service.py:104-109 | a running task of the current slot always shows as an ongoing duty |
| DutyLedger.EndedNowIsDone | src/services/validator_duty_service.py:104-109 | when the current slot's task ends nothing is ongoing and the slot is completed |
| DutyLedger.NothingRunningWhenNotWaiting | src/services/validator_duty_service.py:114-130 | waiting for the current slot's duty returns at once only if no task of that slot is running |
| DutyLedger.NothingToWaitForIff | src/services/validator_duty_service.py:114-130 | waiting for the current slot returns at once if and only if nothing is ongoing and no stored duty of the slot is left |
| DutyLedger.TruthfulIff | src/services/validator_duty_service.py:104-109 | a new slot and a guarded start leave `has_ongoing_duty` equal to "a task of the current slot is running", and the end of a task does if and only if it is not an older slot's task ending after the current slot's own |
| DutyLedger.AlwaysTruthfulIff | src/services/validator_duty_service.py:104-109 | over a whole run the mark is right at every moment if and only if no task ever ends late |
| DutyLedger.SyncTruthfulIff | src/services/sync_committee.py:230-244 | with the sync service's weaker guard: the mark stays right after a start if and only if no task of the slot has ended, after the end of a task of the slot if and only if it was the last, after an older one's if and only if that is not late |
| DutyLedger.SyncAlwaysTruthfulIff | src/services/sync_committee.py:230-244 | over a whole run of the sync service the mark is right at every moment if and only if none of those three things happens |
| AttestationService.AttestIsAllowed | src/services/attestation.py:320-360 | attesting starts if and only if the slot is current, none at or after it was started, slashing detection does not object, and a duty of the slot is stored |
| AttestationService.VerdictIff | src/services/attestation.py:320-360 | exactly when an attempt is refused and why, fetches data ahead, or does nothing |
| AttestationService.TakenIff | src/services/attestation.py:129-139 | taking the duties of a slot takes every one stored for it, and leaves every other one in place |
| AttestationService.AttestationService.AttestIfNotYetAttested | src/services/attestation.py:304-360 | the verdict, the duties taken, the table left and the marks up to the first suspension |
| AttestationService.AttestationService.AttestStarted | src/services/attestation.py:265-274 | the start mark moves to the slot and the ledger's invariant holds |
| AttestationService.AttestationService.AttestFinished | src/services/attestation.py:341-345 | the completed mark of the `finally` clause, also when a newer slot has started |
| AttestationService.AttestationService.GetDutiesForSlot | src/services/attestation.py:129-139 | returns exactly the slot's duties and removes exactly those |
| AttestationService.AttestationService.SplitFetched | src/services/attestation.py:620-636 | forgets the epoch's old duties; the first batch is exactly the duties of this slot and the next, the second the later ones |
| AttestationService.AttestationService.AddDutiesWithProofs | src/services/attestation.py:638-642 | a batch is stored if and only if every key got a proof, and then each duty with its own key's, beside what was there |
| AttestationService.AttestationService.PruneDuties | src/services/attestation.py:578-586 | exactly the past epochs are forgotten, in both tables |
| AttestationService.InSlotsElements | src/services/attestation.py:630-636 | a batch holds exactly the fetched duties in its range of slots |
| AttestationService.BatchesPartition | src/services/attestation.py:630-636 | the two batches together are the unexpired duties, each as often as fetched |
| DutyRefresh.StepKeepsOneAtATime | src/services/validator_duty_service.py:143-178 | at most one refresh is under way, and the lock says whether |
| DutyRefresh.StepKeepsNothingLost | src/services/attestation.py:598-654 | while the later batch is being proven, every duty of the first batch is stored or was taken since |
| DutyRefresh.TakingKeepsNothingLost | src/services/attestation.py:129-139 | an attestation that takes its duties in the middle of a refresh loses none of them |
| DutyRefresh.RootsAreWrittenOnlyThen | src/services/attestation.py:648-654 | a dependent root is written only after the last batch of its own epoch was stored with all proofs |
| DutyRefresh.KnownRootKeepsDuties | src/services/attestation.py:609-620 | a response with the known root changes no duty; one with a new root empties that epoch and no other |
| DutyRefresh.RootWriteIsComplete | src/services/attestation.py:620-654 | when the root is written, every fetched unexpired duty is stored for the epoch or was consumed since by an attestation |
| DutyRefresh.EpochRunStores | src/services/attestation.py:609-654 | under a new root an epoch's duties are replaced by exactly the unexpired ones, each with its own proof, and the root is written |
| DutyRefresh.SuccessfulRefresh | src/services/attestation.py:588-656 | a refresh that nothing fails does this for the current and the following epoch, drops the past ones, and releases the lock |
| DutyRefresh.KnownRootGoesOn | src/services/attestation.py:609-618 | an epoch whose root is known is skipped, and the refresh goes on to the following one or ends |
| DutyRefresh.MissingProofFails | src/services/attestation.py:502-548 | one missing proof fails the whole batch: nothing is stored and the refresh backs off, and only then |
| DutyRefresh.RetryIff | src/services/validator_duty_service.py:158-176 | after a failure the refresh starts over with the current epoch if and only if its own is not over; duties and roots stay |
| AttestationRuns.StepKeepsRunInv | src/services/attestation.py:265-360 | every step of the whole machine, provider and refreshes included, keeps the joint invariant |
| AttestationRuns.RunKeepsRunInv | src/services/attestation.py:265-360 | so does every run |
| AttestationRuns.SignerSafety | src/services/attestation.py:141-181 | the main theorem: everything handed to the signer has a source and a target each vouched for by a threshold of distinct nodes, no checkpoint ahead of the epoch in which it was checked, the head event's block root off the fallback path, and no slot occurs twice |
| AttestationRuns.BuggyMinorityCannotSign | src/services/attestation.py:141-181 | fewer buggy nodes than the threshold never bring a checkpoint of their own to the signer |
| AttestationRuns.SignedTargetsShareAHost | src/args.py:59-64 | under a majority threshold one node reported both targets of any two signed data of a run |
| AttestationRuns.SignedIffNotAhead | src/services/attestation.py:153-181 | in every reachable state, data delivered to an attestation gives its slot its one signing request, with the duties taken for it, if and only if neither checkpoint is ahead of the current epoch; otherwise nothing is signed for the slot and the call ends |
| AttestationRuns.OngoingIsRightIff | src/services/validator_duty_service.py:104-109 | over every run of the attestation machine, `has_ongoing_duty` is right throughout if and only if no older attestation ends after the current one |
| AttestationRuns.AttestationsStartOncePerSlot | src/services/attestation.py:329-360 | over every run attestations start in strictly increasing slots, each in its own slot, with a non-empty set of duties of exactly that slot |
| AttestationRuns.AttestationStartsIff | src/services/attestation.py:304-360 | in every reachable state an attempt starts if and only if the guards allow it and a duty of the slot is stored, and then takes all of them and asks for data with the head event's root |
| AttestationRuns.AttestationEndsIff | src/services/attestation.py:148-158 | a waiting attestation ends, and its provider call with it, when its time is up; a signing one does not |
| AttestationRuns.RefreshSplitsNow | src/services/attestation.py:627-636 | in the whole machine a refresh splits what it fetched at the current slot |
| AttestationRuns.RefreshBeginsNow | src/services/attestation.py:588-599 | and begins with the current epoch, if and only if none runs and there is an active or pending validator |
| AttestationRuns.SlashingStopsAttesting | src/services/attestation.py:323-327 | while the latch counts it stays set and no attestation starts |
| AttestationRuns.SlashedSignsOnlyInFlight | src/services/attestation.py:265-327 | from then on only attestations that were already waiting for their data can reach the signer, each with its own slot and duties |
| AttestationRuns.SlashedSignsNothingMore | src/services/attestation.py:265-327 | with none waiting nothing more is ever signed |
| AttestationRuns.RefreshesAreSafe | src/services/attestation.py:588-656 | over every run refreshes exclude one another and write a root only over a complete epoch |
| AttestationSlots.RunHoldsAllowed | src/services/attestation.py:141-181 | over every run, what is signed for a duty slot carries a data slot that a node answered for that duty slot, on each of the three paths |
| AttestationSlots.TwoDataOneSlot | src/services/attestation.py:141-181 | for any threshold and nodes: if answers for two duty slots may carry the same slot, a run signs two data with that slot |
| AttestationSlots.OneDatumPerSlotIff | src/services/attestation.py:141-181 | signed data has pairwise distinct slots, over every run, if and only if the slots nodes may answer with tell the duty slots apart |
| AttestationSlots.DataSlotsAreTheNodesWord | src/services/attestation.py:141-181 | so it has when every answer carries the duty's slot, and has not when a node may answer anything, which is all the code checks |
| ValidatorStatusTracker.LatchedIff | src/services/validator_status_tracker.py:55-125 | over any events the latch is set if and only if one of them named a validator that was ours at that moment, or an update found a slashed one; nothing resets it |
| ValidatorStatusTracker.OursAreLatest | src/services/validator_status_tracker.py:128-136 | the validators that are ours are those of the latest responses |
| ValidatorStatusTracker.ValidatorStatusTrackerService.Handle | src/services/validator_status_tracker.py:71-136 | each event or response updates exactly its own list, and sets the latch if and only if it is alarming |
| StartUp.AcceptedBoots | src/args.py:48-75 | an accepted command line and a threshold of initialized nodes meet what the run theorems assume, with a majority threshold by default |
| StartUp.RunServices | src/initialize.py:105-107 | services start if and only if a threshold of nodes is initialized, in a state that meets what the run theorems assume; without the ignore flag each of these nodes reported the client's spec |
| BlockProposal.DutyForSlotIff | src/services/block_proposal.py:99-112 | a duty is found if and only if it is the only stored one of the slot |
| BlockProposal.LookupIff | src/services/block_proposal.py:99-112 | none is found if and only if none of the slot is stored, and it is an error if and only if there are two |
| BlockProposal.NextDutySlotMeaning | src/services/block_proposal.py:66-90 | with nothing ongoing the nested minimum is the earliest stored duty after the current slot, or there is none |
| BlockProposal.OngoingIsNext | src/services/block_proposal.py:66-71 | while a proposal is ongoing, its slot is the next duty slot |
| BlockProposal.HasUpcomingDutyIff | src/services/block_proposal.py:92-97 | a duty is upcoming if and only if one is ongoing or one is stored for the next three slots |
| BlockProposal.ProposeIsAllowed | src/services/block_proposal.py:533-556 | proposing starts if and only if the guards allow it and the duty is the slot's only one |
| BlockProposal.VerdictIff | src/services/block_proposal.py:533-552 | exactly when an attempt is refused and why, or does nothing |
| BlockProposal.BlockProposalService.ProposeBlock | src/services/block_proposal.py:533-561 | verdict, marks and duty table up to the first suspension; the duty is removed before the start |
| BlockProposal.BlockProposalService.ProposeFinished | src/services/block_proposal.py:558-561 | the completed mark of the `finally` clause |
| BlockProposal.BlockProposalService.ReplaceDuties | src/services/block_proposal.py:172-192 | afterwards the epoch holds exactly the fetched duties of our validators that are not over, the current slot's included, and every other epoch what it held |
| BlockRuns.RunKeepsInv | src/services/block_proposal.py:488-561 | the invariant of marks, running proposals and signing requests over every run |
| BlockRuns.OneBlockPerSlot | src/services/block_proposal.py:488-561 | over every run, with refreshes bringing the served duty back, at most one block per duty slot goes to the signer, and its proposal began in that slot |
| BlockRuns.ProposalStartsIff | src/services/block_proposal.py:533-561 | in every reachable state a duty's proposal starts if and only if the guards allow it and it is the slot's only stored one; it is then taken from the table, and nothing else is |
| BlockRuns.OnlyOursAreSigned | src/services/block_proposal.py:162-192 | over every run a block is signed only for a duty from the start, or of a validator that was ours at the refresh that brought it |
| BlockRuns.FetchedDutyIsProposed | src/services/block_proposal.py:187-192 | a duty of ours that a refresh brings for the current, unstarted slot is proposed if and only if it is the only one of ours for the slot |
| BlockRuns.ProposalMoves | src/services/block_proposal.py:511-531 | each answer moves a proposal to its next stage, and its end completes its slot |
| BlockRuns.PruneForgetsPast | src/services/block_proposal.py:152-160 | pruning forgets exactly the epochs before the current one |
| BlockRuns.AllowedIsSigned | src/services/block_proposal.py:372-404 | over every run, a signed header carries a slot that a node put into a block for that duty slot |
| BlockRuns.TwoHeadersOneSlot | src/services/block_proposal.py:372-404 | if blocks for two duty slots may carry the same slot, a run signs two headers with that slot |
| BlockRuns.OneHeaderPerSlotIff | src/services/block_proposal.py:372-404 | signed headers have pairwise distinct slots, over every run, if and only if the slots that produced blocks may carry tell the duty slots apart |
| BlockRuns.HeaderSlotsAreTheNodesWord | src/services/block_proposal.py:372-404 | so they have when every block carries its duty's slot, and have not when it may carry any, which is all the code checks |
| BlockRuns.OngoingIsRightIff | src/services/validator_duty_service.py:104-109 | over every run of the proposal machine, `has_ongoing_duty` is right throughout if and only if no older proposal ends after the current one |
| BlockRuns.SignedInOwnSlotIff | src/services/block_proposal.py:488-531 | a begun proposal's block goes to the signer in its own slot if and only if no later slot begins before a beacon node has produced it |
| BlockRuns.SignedOnTimeIff | src/providers/multi_beacon_node.py:314-318 | by the clock: if and only if the time into the slot and the time the block took are less than a slot; a block of the timed phase is on time unless the phase began in the slot's last sixth |
| BlockRuns.TimedBlockIsOnTime | src/providers/multi_beacon_node.py:314-379 | asked for in the step after the randao reveal, a block that comes with an in-time turn of the timed phase is signed in its own slot, unless the phase began in the slot's last sixth |
| BlockRuns.SigningMayBeLate | src/services/block_proposal.py:488-531 | the handing over to the signer itself may fall into a later slot |
| BlockRuns.SlashingStopsProposing | src/services/block_proposal.py:533-538 | while the latch counts it stays set and no proposal starts |
| BlockRuns.SlashedSignsOnlyInFlight | src/services/block_proposal.py:488-538 | from then on only proposals that were already waiting for their block can reach the signer |
| BlockRuns.SlashedSignsNothingMore | src/services/block_proposal.py:488-538 | with none waiting nothing more is ever signed |
| BlockRuns.ShutdownWaitsForProposals | src/shutdown.py:30-46 | shutdown leaves its first loop if and only if it looks and finds no ongoing and no stored upcoming proposal; then no proposal of the current slot is running |
| BlockRuns.WaitingEndsWithTheDuty | src/services/validator_duty_service.py:114-135 | waiting for a proposal ends only when none of that slot is running or a later slot has completed |
| BlockRuns.ShutdownStepIff | src/shutdown.py:33-46 | in every run, exactly what each look of shutdown leads to |
| BlockRuns.BeginWaitingIff | src/services/validator_duty_service.py:114-135 | the current slot's proposal is waited for unless it has completed, or none is stored and none ongoing; two stored ones are an error |
| BlockRuns.AwaitedIsNext | src/shutdown.py:33-43 | what shutdown waits for is the ongoing proposal, and else the earliest stored one |
| BestBlock.ProduceBestBlock | src/providers/multi_beacon_node.py:297-414 | the block is the first of maximal value among all successes of the timed phase, or the first success after it if that had none; failure exactly when every request failed |
| BestBlock.TimedPhase | src/providers/multi_beacon_node.py:349-379 | the timed phase ends exactly when every request has finished or the timeout is over |
| BestBlock.TurnsBounded | src/providers/multi_beacon_node.py:349-379 | before the timeout every turn lets at least one request finish |
| BestBlock.AwaitFirst | src/providers/multi_beacon_node.py:383-399 | the first block in completion order after the timeout, or none if all the rest failed |
| BestBlock.ProcessDone | src/providers/multi_beacon_node.py:356-375 | one turn's completions leave the pending set and the best block is the best of everything so far |
| Keymanager.ImportAccounts | src/providers/keymanager.py:274-309 | the table grows by exactly the number of IMPORTED answers, and no existing row changes |
| Keymanager.ImportAnswers | src/providers/keymanager.py:274-309 | why each answer is what it is: ERROR exactly on failure, DUPLICATE exactly for a key that was there or was imported before, IMPORTED otherwise, with a new row of the key's URL |
| Keymanager.NewRowsWereImported | src/providers/keymanager.py:274-309 | every new row was answered IMPORTED |
| Keymanager.DeleteAccounts | src/providers/keymanager.py:311-340 | the table shrinks by exactly the number of DELETED answers; only requested keys go, and every key not answered with an error is gone |
| Keymanager.DeleteAnswers | src/providers/keymanager.py:311-340 | ERROR exactly on failure, NOT_FOUND exactly for a key that was not there or was deleted before, DELETED otherwise |
| Keymanager.DeleteUndoesImport | src/providers/keymanager.py:274-340 | deleting what an import added gives back the table |
| Keymanager.Keymanager.UpdateMapping | src/providers/keymanager.py:101-148 | afterwards the mapping serves exactly the rows, equal URLs share one signer, live signers are reused and only unserved URLs get new ones; fails if and only if some row's signer cannot be entered, and then changes nothing |
| Keymanager.Keymanager.ImportRemoteKeys | src/providers/keymanager.py:274-309 | answers and table as the row-by-row import, live signers reused; the rows stay even when the mapping update fails |
| Keymanager.Keymanager.ImportUnservable | src/providers/keymanager.py:274-309 | one new key whose signer cannot be entered: the row stays, the update fails and the mapping misses the key |
| Keymanager.AnswersAccountForRows | src/providers/keymanager.py:274-340 | over any sequence of imports and deletes the table has exactly its first rows plus all IMPORTED minus all DELETED answers |
| Keymanager.OutcomeIff | src/providers/keymanager.py:101-148 | in any sequence a request's mapping update succeeds if and only if every row there is by then can be served |
| Keymanager.Keymanager.ServeRequests | src/providers/keymanager.py:274-340 | over any sequence the mapping serves the table as of the last successful update, and so is in step with the table if and only if the table is now what it was then |
| Keymanager.Keymanager.DeleteRemoteKeys | src/providers/keymanager.py:311-340 | answers and table as the row-by-row deletion, the mapping in step with the table and live signers reused |
| BatchSigning.SignInBatches | src/providers/remote_signer.py:217-264 | for every batch size of at least one the result is the unbatched one in input order; which inputs are errors, and that a negative size signs nothing |
| BatchSigning.SignInSeparateProcess | src/providers/remote_signer.py:25-52 | the batch loop loses, repeats and reorders nothing, whatever the batch size |
| BatchSigning.KeymanagerSignInBatches | src/providers/keymanager.py:395-426 | the result is a permutation of exactly the inputs with a known signer, each signed by its own signer under its own identifier, in input order within a signer; all or nothing |
| BatchSigning.GroupBySigner | src/providers/keymanager.py:403-418 | each signer's inputs are its own messages in input order, and no known message is left out |
| BatchSigning.GroupedIsPermutation | src/providers/keymanager.py:403-426 | regrouping by signer loses nothing and repeats nothing |
| BatchSigning.KnownIff | src/providers/keymanager.py:403-414 | the known inputs are those with a signer, each as often as given |
| BatchSigning.GroupedKeepsOrder | src/providers/keymanager.py:403-426 | regrouping keeps the order within each signer |
| SyncCommittee.SubnetsInRangeIff | src/services/sync_committee.py:485-499 | every committee member falls into subcommittee 0 to 3 if and only if four divides the committee's size |
| SyncCommittee.ComputeSubnets | src/services/sync_committee.py:485-499 | a subcommittee is computed if and only if one of the indices lies in its stretch of the committee |
| SyncCommittee.RegroupingIsExact | src/services/sync_committee.py:293-350 | with distinct keys, picking by public key out of everybody's proofs gives a duty exactly its own |
| SyncCommittee.RegroupingIsExactIff | src/services/sync_committee.py:293-350 | every duty gets back exactly its own requests if and only if no two duties share a key |
| SyncCommittee.PickedIsCollected | src/services/sync_committee.py:327-331 | picking by key yields the requests of all duties with that key, duty by duty |
| SyncCommittee.SharedKeyMixesProofs | src/services/sync_committee.py:327-331 | whenever two duties share a key, the first gets at least the second's proofs on top of its own |
| SyncCommittee.PrepareSelectionProofs | src/services/sync_committee.py:285-351 | every duty gets exactly one proof per subcommittee of its indices, signed for it with the duty's key, if and (when no duty is without indices) only if the keys are distinct; one refusal fails them all |
| SyncCommittee.AggregateSyncMessages | src/services/sync_committee.py:405-475 | the loops build the messages contribution by contribution, also with the non-aggregating duties filtered out first |
| SyncCommittee.OneMessagePerAggregator | src/services/sync_committee.py:411-475 | exactly one message for each duty and subcommittee it aggregates for that has a contribution, and none for any other pair |
| SyncCommittee.MessagesUseOwnProof | src/services/sync_committee.py:446-465 | each message carries its own duty's index and key and that duty's proof for the contribution's subcommittee |
| EventWindow.WindowMoves | src/services/event_consumer.py:80-87 | appending to the bounded deque keeps it the last keys accepted |
| EventWindow.WindowIsSuffix | src/services/event_consumer.py:43 | the window is the suffix of the accepted keys, as long as its bound allows |
| EventWindow.AcceptedIff | src/services/event_consumer.py:80-87 | the next key is accepted if and only if it is none of the last accepted ones, as many as the bound |
| EventWindow.AcceptancesAreFarApart | src/services/event_consumer.py:80-87 | two acceptances of one key have at least ten per node others between them |
| EventWindow.WindowIsDistinct | src/services/event_consumer.py:80-87 | the window never holds a key twice |
| EventWindow.EveryKeyIsAccepted | src/services/event_consumer.py:80-87 | a key was accepted if and only if it arrived |
| EventWindow.EventConsumer.HasSeenEvent | src/services/event_consumer.py:80-87 | a key is refused if and only if it is among the last accepted ones |
| EventWindow.EventConsumer.HandleEvent | src/services/event_consumer.py:89-143 | handlers start exactly on an acceptance; outdated events and unknown kinds leave the window alone |
| BeaconClock.CurrentSlotIff | src/providers/beacon_chain.py:104-111 | slot zero begins at genesis and each slot when the one before it ends; the current slot is the one whose time span holds the present, and zero until genesis |
| BeaconClock.TicksIncrease | src/providers/beacon_chain.py:113-154 | the ticker's handlers see strictly increasing slots |
| BeaconClock.NoSlotSkippedIff | src/providers/beacon_chain.py:128-154 | no slot is skipped between two ticks if and only if the later one comes before the slot after next |
| BeaconClock.ForkVersionAgreesIff | src/providers/beacon_chain.py:61-81 | the ticker's fork version is the fork of the current slot if and only if the start was not before the fork, the fork is still ahead, or its first slot was not skipped |
| BeaconClock.GetForkIff | src/providers/beacon_chain.py:74-81 | each fork holds from the first slot of its epoch on, the later one first; before both there is none |
| BeaconClock.BeaconChain.OnNewSlot | src/providers/beacon_chain.py:134-154 | a tick is flagged a new epoch exactly at the multiples of the epoch's length, and moves the fork version only at the fork |
| BeaconClock.SyncPeriodIff | src/providers/beacon_chain.py:166-177 | the epochs of a sync period are exactly the epochs mapped to it |
| Backoff.DelayClosedForm | src/services/validator_duty_service.py:153-176 | the delay after each failure: doubling from one second, capped at ten |
| Backoff.SleptClosedForm | src/services/validator_duty_service.py:153-176 | after k failures 2^k - 1 seconds were slept for k up to 4, and 15 + 10 (k - 4) beyond |
| Backoff.UpdateDuties | src/services/validator_duty_service.py:143-178 | the retry loop terminates, exactly with the first success or the first moment past the epoch between two attempts |
| Backoff.ClockCoversDelays | src/services/validator_duty_service.py:153-176 | attempt k + 1 starts after the first k attempts and the delays between them, no earlier than these delays allow |
| Backoff.AttemptsBounded | src/services/validator_duty_service.py:153-176 | an attempt starts only if the delays before it are shorter than the time left; how many fit |

## Left out

- HTTP, server-sent events, JSON, SSZ and BLS: a node is a source of arbitrary answers, a signer a partial function.
- apscheduler, sqlite and asyncio internals: only that a primary key is unique, `gather` keeps order, and `as_completed` yields each task once.
- Metrics, tracing, logging, the duty cache files, and the command line beyond the node list and the threshold; splitting the list at commas is left to the caller of `Args.ParseArgs`, and the same check of the proposal nodes is not repeated.
- The Keymanager's HTTP endpoints and its fee recipient, gas limit and graffiti overrides, which survive the deletion of their key.
- Signing goes through a signer's URL instead of the signer object: both are the same because equal URLs share one signer, which `Keymanager.Keymanager.UpdateMapping` keeps.
- The choice of the best aggregate and of the best sync contribution with their early return, and `best_beacon_node`: easy maxima.
- Aggregation of attestations, subscriptions to committees, doppelganger detection and voluntary exits.
- Which validators the status tracker finds, and its lists of exited validators: each response of an update is an event with an arbitrary result.
- The randao cache, block unblinding and publishing, validator registrations.
- The second half of `shut_down` (one more slot, then every service's duty), and that `shut_down` ever returns: after a slashing it need not.
- The lock around a proposer refresh; a refresh may store an epoch's duties at any time instead. Sync duty refreshes.
- The number of validator statuses and duties per slot is not bounded by the protocol's constants.
- BeaconNodes.WaitForCheckpoints: a node's own failures and pauses between polls show only as polls without an answer.
- BeaconClock.BeaconChain.OnNewSlot: the unsupported-fork exception at start-up is a precondition of the constructor, since a constructor cannot fail here.
- SyncCommittee.PrepareSelectionProofs: a committee of fewer than four members, a division by zero in the source, is excluded.
- BatchSigning.KeymanagerSignInBatches: every signer has a process pool; the error of a missing one is modelled for a single signer only.
- BlockRuns.OneBlockPerSlot: unique by the duty's slot, since nothing checks the slot in a header; `BlockRuns.OneHeaderPerSlotIff` has the condition for that one.
- AttestationRuns.SignerSafety: unique by the duty's slot, with the condition for the slot in the data in `AttestationSlots.OneDatumPerSlotIff`; the remote signer's own slashing protection, which alone rules out two votes in one epoch, is not part of this model.
