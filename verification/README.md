# Verified models of the TruthBounty protocol tooling

This project models, in Dafny, four parts of the TruthBounty repository and proves what they are
for.

- **ABI freeze compiler** (`scripts/exportVersionedAbiArtifacts.ts`). `AbiText` has the bracket
  matcher, the top-level splitter and the range blanking; `AbiParameters` reads declared parameter
  lists; `AbiTypes` and `AbiTypeLaws` rewrite user types through the registry and print signatures;
  `InterfaceId` folds ERC-165 ids; `StableJson` is the canonical serializer with a decoder for it;
  `AbiEntries` resolves entries; `AbiModule` and `AbiExport` build digests, the published ABI and
  the checksum, and compare an export with its freeze; `AbiMeaning` says what the serialized bundle
  holds under each key.
- **Snapshot tree** (`test/ReputationSnapshot.test.ts`). `SnapshotTree` has the index-directed
  Merkle tree that repeats the last node of an odd level.
- **Reputation bridge** (`contracts/reputation_bridge.rs`). `SortedMerkle` is the sorted-pair proof
  check, and `ReputationBridge` the timelocked contract, as a class and as a transition function
  over whole runs.
- **Event indexer** (`indexer/src`). `EventChain` is the chain with its queries, `Indexer` the
  object with its sequential operations, `IndexerLaws` the laws of sequences of syncs, and
  `IndexerInterleaving` the step system in which syncs overlap at every `await`.

`Sequences` has permutations of sequences and `Hex` the hexadecimal digits. Methods carry
the loops of the source and are proved equal to specification functions; the theorems are lemmas
about those functions.

**Hashes.** keccak and SHA-256 are function parameters. No theorem asks for an injective hash on
32-byte values, which does not exist: each asks that the hash does not collide on the finite set of
inputs that the two computations at hand really hash, and, for leaves and nodes, that their digests
are told apart. Results that need no such assumption make none.

**Where the code differs from what is said of it.** The model follows the code.

- `docs/release/versioned-artifact-exports.md` lines 65-67 say that a changed parameter name,
  indexed flag or mutability changes the module digest. It does not (`DigestSeesSignatures`). It
  shows in the published ABI, and so in the export checksum, exactly when no earlier fragment has
  the same signature (`ChangeShowsExactly`, `ChecksumPinsContent`).
- A bare `uint` or `int` with two or more array dimensions keeps only the last one
  (`BareIntegerKeepsDimensionsExactly`).
- `detectReorg` compares every ancestor with the one checkpoint hash, so on an unchanged chain it
  normally answers with the block below the checkpoint (`UnchangedChainAnswer`). The sync that
  follows is harmless exactly when the blocks it goes back over are stored
  (`FalseReorgIsHarmless`). In every reachable world they are from the start block on
  (`FalseReorgInReach`); below it they are not, and a log from before the start can be stored
  (`ReorgReachesBelowStart`).
- Events are stored before handlers are called, and stored keys are dropped from then on. So when a
  handler throws, the calls that were still to be made are never made (`FailureLosesCalls`,
  `LostIsNeverMadeUp`); handlers were called as often as events are stored exactly when no task
  failed with calls still to make (`CalledAsStoredExactly`). Delivery is neither at least once nor,
  with overlapping syncs, at most once.
- `syncHistorical` leaves out the safe head when the range is a positive multiple of 1000
  (`BatchesCover`).
- Overlapping syncs can store an event twice (`OverlapStoresTwice`), exactly when its key is stored
  between another task's read and its write, or its address is configured twice
  (`PersistKeepsKeysUniqueExactly`).
- The snapshot proof check does not look at the proof's length, which soundness needs
  (`DepthIsNeeded`); and a root does not bind the number of leaves (`SizeIsNotBound`).
- The bridge's deadline sum can overflow 64 bits; no build profile in the repository says
  whether that wraps, and the model takes it as a panic.

## Model

| member | source | states |
|---|---|---|
| `SnapshotTree.ComputeRoot` | test/ReputationSnapshot.test.ts:20-40 | the level-rebuilding loops return the root that the recursive definition of the tree gives, zero hash for no leaves included |
| `SnapshotTree.VerifyProof` | test/ReputationSnapshot.test.ts:42-58 | the loop returns the fold of the proof along the low bits of the index; the proof length is not looked at |
| `SnapshotTree.TreeHashesInOrder` | test/ReputationSnapshot.test.ts:27-39 | a node is the hash of its left child and then its right one, an odd last child with itself; no leaves give the zero hash and one leaf gives itself |
| `SnapshotTree.FoldHashesInOrder` | test/ReputationSnapshot.test.ts:50-55 | a step hashes the running digest before the sibling at an even index and after it at an odd one, and halves the index |
| `SnapshotTree.DepthIsCeilLog2` | test/ReputationSnapshot.invariants.test.ts:142-146 | for every n >= 1 the depth of the tree, and so the length of every sibling path, is ceil(log2 n) and no other number |
| `SnapshotTree.StepReachesParent` | test/ReputationSnapshot.test.ts:50-55 | one step of a proof, at any index, hashes exactly the ordered pair that the tree hashed for that parent, odd ends included |
| `SnapshotTree.ResolvedPathVerifies` | test/ReputationSnapshot.test.ts:20-58 | at every index, even one past the last leaf, the sibling path of the leaf that duplication puts there folds to the root, for any hash |
| `SnapshotTree.Completeness` | test/ReputationSnapshot.test.ts:20-58 | every leaf verifies at its own index with its level-by-level sibling path, for any hash |
| `SnapshotTree.AcceptedExactly` | test/ReputationSnapshot.test.ts:20-58 | for a hash without collisions on the pairs at hand, a proof of tree depth is accepted at an index if and only if it opens the leaf the index stands for with exactly that leaf's path |
| `SnapshotTree.PositionalSoundness` | test/ReputationSnapshot.test.ts:42-58 | a proof of tree depth that gives the root at index i proves leaf i and no other value |
| `SnapshotTree.DepthIsNeeded` | test/ReputationSnapshot.test.ts:42-58 | without a length check, for every length up to the depth each node of the level that far below the root has a proof of that length that passes |
| `SnapshotTree.ShorterAcceptedExactly` | test/ReputationSnapshot.test.ts:42-58 | a proof of any length up to the depth is accepted if and only if it opens, with that node's own sibling path, the node that the index stands for on the level that far below the root |
| `SnapshotTree.LongerIsRefused` | test/ReputationSnapshot.test.ts:42-58 | a proof longer than the depth is never accepted, as long as no leaf is the hash of a pair that it hashes |
| `SnapshotTree.RootBinding` | test/ReputationSnapshot.test.ts:27-39 | two snapshots of equal depth share a root if and only if they fill up to the same full tree |
| `SnapshotTree.EqualSizeBinding` | test/ReputationSnapshot.test.ts:27-39 | two snapshots of equal size share a root if and only if they are the same list |
| `SnapshotTree.SizeIsNotBound` | test/ReputationSnapshot.test.ts:30-34 | three leaves and the same three with the last repeated share a root under every hash, so equal size is needed |
| `SortedMerkle.VerifyProof` | contracts/reputation_bridge.rs:317-336 | accepts exactly when folding the proof with ordered pairs gives the root |
| `SortedMerkle.LowerDigestFirst` | contracts/reputation_bridge.rs:327-333 | of two digests the lower is hashed first, whichever is the leaf and whichever the proof, and in a tree whichever side it stands on |
| `SortedMerkle.FoldsLowerFirst` | contracts/reputation_bridge.rs:325-333 | the fold hashes the running digest with each next sibling, the lower of the two first |
| `SortedMerkle.NodeHashesLowerFirst` | contracts/reputation_bridge.rs:317-318 | a node is the hash of its children's digests, the lower first |
| `SortedMerkle.PathVerifies` | contracts/reputation_bridge.rs:317-336 | every leaf's path up any binary tree hashed with ordered pairs is accepted, for any hash |
| `SortedMerkle.LeafHasPath` | contracts/reputation_bridge.rs:317-336 | every leaf of every tree has such a path |
| `SortedMerkle.AcceptedExactly` | contracts/reputation_bridge.rs:317-336 | with collision-free hashing and leaf digests told apart from node digests, a proof of whatever length is accepted if and only if it is the path of a leaf of the tree |
| `SortedMerkle.MirroringKeepsRoot` | contracts/reputation_bridge.rs:318-333 | swapping children anywhere leaves the root unchanged, for any hash |
| `SortedMerkle.RootBinding` | contracts/reputation_bridge.rs:317-336 | with collision-free hashing, and leaves told apart from nodes, two trees share a root if and only if one is the other with children swapped at some nodes |
| `ReputationBridge.Contract.constructor` | contracts/reputation_bridge.rs:60-61 | a deployed contract holds nothing until it is initialized |
| `ReputationBridge.Contract.InitializeContract` | contracts/reputation_bridge.rs:68-92 | the panic, or the new storage, of an initialization: once only, with the admin's signature |
| `ReputationBridge.Contract.RequireAdmin` | contracts/reputation_bridge.rs:299-310 | which panic the initialized and admin checks end in: not initialized, no admin, admin did not sign |
| `ReputationBridge.Contract.Propose` | contracts/reputation_bridge.rs:99-116 | sets or replaces the pending root and its deadline together, one day ahead, by the admin only |
| `ReputationBridge.Contract.Execute` | contracts/reputation_bridge.rs:119-157 | installs the pending root at or after its deadline and clears both keys; anybody may call it; otherwise the panic in the order of the checks |
| `ReputationBridge.Contract.Cancel` | contracts/reputation_bridge.rs:160-173 | removes the pending root and its deadline, by the admin only, also when nothing is pending |
| `ReputationBridge.Contract.ClaimReward` | contracts/reputation_bridge.rs:180-245 | either the first failing check's panic and no change, or the leaf marked as used and the amount paid |
| `ReputationBridge.Contract.HandOver` | contracts/reputation_bridge.rs:252-266 | replaces the admin, by the current admin only, and changes nothing else |
| `ReputationBridge.EveryWorldIsConsistent` | contracts/reputation_bridge.rs:68-173 | in every run pending root and deadline are both there or both absent, and admin, token and root exist exactly once initialized, so the unwraps never fail |
| `ReputationBridge.InitializedExactly` | contracts/reputation_bridge.rs:74-84 | in every run the contract is initialized exactly when an initialization was accepted, and its token is that one's for ever |
| `ReputationBridge.InitializationAcceptedExactly` | contracts/reputation_bridge.rs:68-84 | an initialization succeeds if and only if the new admin signed it and none succeeded before; it leaves the admin, the token and the root that it names |
| `ReputationBridge.PanicsExactly` | contracts/reputation_bridge.rs:74-136 | in every run, which calls end in already initialized, not initialized, no pending root, timelock not expired or a missing admin signature, and that no unwrap is ever empty |
| `ReputationBridge.ClaimPanicsExactly` | contracts/reputation_bridge.rs:186-237 | in every run, which of the five panics a refused claim ends in, in the order of the checks |
| `ReputationBridge.AdminIsAppointed` | contracts/reputation_bridge.rs:252-310 | in every run the admin is the one last appointed, by the initialization or by an accepted hand-over |
| `ReputationBridge.AdministrationAcceptedExactly` | contracts/reputation_bridge.rs:99-173 | a proposal, cancellation or hand-over succeeds if and only if the last appointed admin signed it and, for a proposal, the deadline fits 64 bits |
| `ReputationBridge.PendingIsLiveProposal` | contracts/reputation_bridge.rs:99-173 | in every run a root is pending exactly when some accepted proposal was not executed, cancelled or replaced since, and root and deadline are that proposal's |
| `ReputationBridge.ExecutionAcceptedExactly` | contracts/reputation_bridge.rs:119-157 | an execution succeeds if and only if some proposal is live and at least 86400 seconds old |
| `ReputationBridge.TimelockRespected` | contracts/reputation_bridge.rs:99-157 | after initialization the root changes only by executing the live proposal of the new root, made at least 86400 seconds earlier, with no cancel, execution or proposal in between |
| `ReputationBridge.ExecutedProposal` | contracts/reputation_bridge.rs:119-157 | every successful execution, even of the root already in force, names such a proposal |
| `ReputationBridge.PayoutConservation` | contracts/reputation_bridge.rs:180-245 | in every run, across all root changes, tokens held plus tokens paid are the tokens received, the used leaves are exactly the paid ones, and no leaf is paid twice |
| `ReputationBridge.UsedOnlyGrows` | contracts/reputation_bridge.rs:217-223 | no leaf ever leaves the used set |
| `ReputationBridge.PaidOnce` | contracts/reputation_bridge.rs:195-203 | after a paid claim every later claim of the same user and amount ends in the replay panic, or in the missing signature before it |
| `ReputationBridge.ClaimAcceptedExactly` | contracts/reputation_bridge.rs:180-245 | in every run a claim succeeds if and only if the user signed it, the amount is positive, its leaf was not paid before, the proof is that leaf's path in the tree of the root in force, and the tokens received and not yet paid out cover it |
| `ReputationBridge.RootIsInstalled` | contracts/reputation_bridge.rs:84-145 | the root in force was installed by the initialization or by an execution, and none was installed since |
| `ReputationBridge.EveryPaymentWasCommitted` | contracts/reputation_bridge.rs:119-245 | end to end: every payment is of a leaf of the tree whose root is in force, and that root is the initial one or was executed from a live proposal a day old |
| `EventChain.FoundExactly` | indexer/src/pipeline.ts:42-45 | a contract is found for a log exactly when some configured contract has its address |
| `EventChain.GetLogsHas` | indexer/src/pipeline.ts:20-24 | what one query is taken to return: exactly the chain's logs of that address in the inclusive range |
| `EventChain.AtAddressAppend` | indexer/src/pipeline.ts:20-24 | a query keeps the order of a block's logs |
| `IndexerLaws.QuerySplits` | indexer/src/pipeline.ts:20-24 | a query of a range is the queries of its two parts, one after the other |
| `EventChain.FetchHas` | indexer/src/pipeline.ts:13-28 | a batch holds only logs of its range, and every decodable log of a tracked contract in it |
| `EventChain.FetchStable` | indexer/src/pipeline.ts:13-28 | blocks appended above a range do not change its batch |
| `EventChain.NewEventsHas` | indexer/src/pipeline.ts:37-74 | an event is made exactly of the batch's logs whose key was not stored, whose contract is configured and which decode |
| `EventChain.EventIsMade` | indexer/src/pipeline.ts:42-73 | field by field, what event a log makes with the first contract configured at its address |
| `EventChain.NewEventsExactly` | indexer/src/pipeline.ts:37-74 | a batch adds an event if and only if one of its logs, with another transaction hash or index than every stored event, makes it with the first contract configured at its address |
| `IndexerLaws.NewEventsAppend` | indexer/src/pipeline.ts:37-74 | the events of a batch are those of its two parts, one after the other |
| `EventChain.KeyIdentifiesLog` | indexer/src/pipeline.ts:39-40 | on a chain with distinct keys the key text stands for one log |
| `Indexer.Node.constructor` | indexer/src/storage.ts:3-5 | a new indexer holds no events and no checkpoint and has delivered nothing |
| `Indexer.Node.FetchLogs` | indexer/src/pipeline.ts:13-28 | the loop over contracts returns the batch of the range, in configuration order |
| `Indexer.Node.GetDuplicateEvents` | indexer/src/storage.ts:14-21 | returns the keys of all stored events, whatever hashes it is asked for |
| `Indexer.Node.ProcessLogs` | indexer/src/pipeline.ts:30-76 | the loop with its three skips returns exactly the events of the unstored, tracked, decodable logs, in order |
| `Indexer.Node.RunHandlers` | indexer/src/indexer.ts:134-140 | calls each handler in turn for each event in turn, up to and with the first call that throws, and touches nothing else |
| `Indexer.Node.SyncBlocks` | indexer/src/indexer.ts:79-94 | the whole state after a range: appended events, deliveries, and the checkpoint at the range's end or at the last fetched log; and, when a handler throws, the events stored, the later calls not made and the checkpoint as it was |
| `Indexer.Node.DetectReorg` | indexer/src/pipeline.ts:83-100 | the scan returns what the recursive answer says |
| `Indexer.Node.OnNewBlock` | indexer/src/indexer.ts:96-115 | the whole state after a new block, throwing handlers included: the range that the reorg check or the checkpoint selects is synced, or nothing is |
| `Indexer.Node.SyncHistorical` | indexer/src/indexer.ts:62-77 | the whole state after a historical sync that may be stopped before any batch or ended by a handler that throws |
| `IndexerLaws.NewEventsCount` | indexer/src/pipeline.ts:37-74 | how often a key is added: never if it was stored, else once per wanted log of the batch with that key |
| `IndexerLaws.HitsOfBatch` | indexer/src/pipeline.ts:19-26 | a wanted log comes back once for every configured contract with its address |
| `IndexerLaws.CallsInOrder` | indexer/src/indexer.ts:134-140 | which handler is called for which event at which place: all handlers for the first event, then all for the next |
| `IndexerLaws.CheckpointWithoutLogs` | indexer/src/indexer.ts:80-84 | without a tracked log in the range the checkpoint is the range's end and carries no hash |
| `IndexerLaws.CheckpointAtLastLog` | indexer/src/indexer.ts:90-91 | otherwise it is the highest block in the range with a log of the last configured contract that has one there |
| `IndexerLaws.SyncKeepsKeysUniqueExactly` | indexer/src/pipeline.ts:34-40 | a sync keeps stored keys unique if and only if no log it adds has an address configured twice: duplicates within a batch are not looked for |
| `IndexerLaws.SyncStores` | indexer/src/indexer.ts:79-94 | the keys stored after a sync are those stored before and those of the wanted logs of the range |
| `IndexerLaws.RoundsKeepKeysUnique` | indexer/src/indexer.ts:79-94 | over any sequence of syncs of arbitrary, overlapping ranges of changing chains, stored keys stay unique |
| `IndexerLaws.StoredIffSeen` | indexer/src/indexer.ts:79-94 | after any such sequence a key is stored if and only if some round's range held a wanted log with it |
| `IndexerLaws.DeliveriesMirrorStorage` | indexer/src/indexer.ts:86-88 | after any sequence of syncs, throwing handlers included, the calls made and the calls lost are those of the stored events, each once; they were all made, in order, if and only if none was lost |
| `IndexerLaws.DeliveredAsStored` | indexer/src/indexer.ts:134-140 | a handler is called for a key exactly as often as the key is stored |
| `IndexerLaws.ExactlyOnce` | indexer/src/indexer.ts:79-94 | over any sequence of non-overlapping syncs each seen key is stored once and an unseen one never; each handler is called that often less the lost calls; and all are called as stored if and only if no call was lost |
| `IndexerLaws.LowerStartIsHarmless` | indexer/src/indexer.ts:79-94 | starting a sync lower stores and delivers exactly what starting above does if and only if everything wanted in between is stored |
| `IndexerLaws.ResyncIsIdle` | indexer/src/indexer.ts:79-94 | repeating a wholly stored range changes neither events nor deliveries |
| `IndexerLaws.ReorgCheckExactly` | indexer/src/pipeline.ts:83-100 | the reorg check names the highest existing block of its window whose hash differs from the checkpoint's, and nothing if and only if there is none |
| `IndexerLaws.LiveRangeExactly` | indexer/src/indexer.ts:96-115 | which range a new block makes the indexer sync: from the block the check names, else from the one above the checkpoint, or from block 1 without one |
| `IndexerLaws.UnchangedChainAnswer` | indexer/src/pipeline.ts:83-100 | on a chain that still has the checkpoint's block, and distinct hashes, the check names the block below it whenever its window reaches that far |
| `IndexerLaws.HashlessCheckpointAnswer` | indexer/src/indexer.ts:81-83 | after a batch without logs the check names the checkpoint's own block |
| `IndexerLaws.FalseReorgIsHarmless` | indexer/src/indexer.ts:96-115 | whatever the reorg check answers, the sync it leads to adds and delivers what the plain one would if and only if the blocks it goes back over are stored; and it goes back no further than its window |
| `IndexerLaws.ReorgReachesBelowStart` | indexer/src/indexer.ts:96-115 | at the start block it is not: after a first sync whose last log was there, the check names the block below, and a log from before the start is stored that the plain sync would not store |
| `IndexerLaws.BelowStartHappens` | indexer/src/indexer.ts:96-115 | a chain, a configuration and a first sync to which the row above applies |
| `IndexerLaws.BatchesPartition` | indexer/src/indexer.ts:71-76 | the historical batches are contiguous and disjoint, begin 1000 blocks apart and hold at most 1000 each, from the start block to the last one reached |
| `IndexerLaws.BatchesCover` | indexer/src/indexer.ts:71-76 | a block is in some batch exactly when it lies in the range, without the safe head itself when the range is a positive multiple of 1000 |
| `IndexerLaws.HistoricalResumes` | indexer/src/indexer.ts:63-72 | the first batch begins at the checkpoint, or at the configured block without one or at block 0 |
| `IndexerLaws.StoppedSyncsNoMore` | indexer/src/indexer.ts:73 | once the indexer is found stopped, no further batch is synced |
| `IndexerInterleaving.CoveredKept` | indexer/src/indexer.ts:79-94 | storing more and appending blocks break no promise about older blocks |
| `IndexerInterleaving.EmptyRangeCovered` | indexer/src/indexer.ts:81-84 | a range without logs may be checkpointed at its end |
| `IndexerInterleaving.PersistCovers` | indexer/src/pipeline.ts:30-81 | persisting a batch covers its range even when the stored keys it was filtered by are out of date |
| `IndexerInterleaving.StepKeepsSafe` | indexer/src/indexer.ts:62-115 | every step of every task, a new block, a new task or a failure keeps the invariant |
| `IndexerInterleaving.EveryWorldIsSafe` | indexer/src/indexer.ts:62-132 | the invariant holds in every reachable world of every interleaving |
| `IndexerInterleaving.CheckpointNeverSkips` | indexer/src/indexer.ts:62-132 | under every interleaving of overlapping live and historical syncs, every wanted log from max(startBlock, 1) up to the checkpoint is stored, also after the checkpoint moved backwards |
| `IndexerInterleaving.FinishedTaskCovers` | indexer/src/indexer.ts:79-94 | a finished task has left its whole range stored, even above the checkpoint it wrote |
| `IndexerInterleaving.NothingMissingInReach` | indexer/src/indexer.ts:79-94 | in every reachable world nothing wanted is missing from max(startBlock, 1), or any later block, up to the checkpoint |
| `IndexerInterleaving.FalseReorgInReach` | indexer/src/indexer.ts:96-115 | in every reachable world the sync after a false reorg is harmless wherever it does not reach below max(startBlock, 1), and otherwise if and only if the part below is stored |
| `IndexerInterleaving.AloneIsSequential` | indexer/src/indexer.ts:79-94 | a task that nothing interrupts does exactly what the sequential sync does, so the step system refines it |
| `IndexerInterleaving.ThrowingIsSequential` | indexer/src/indexer.ts:79-94 | so does a task whose handler throws: it stores, calls and loses what the sequential sync does, and fails |
| `IndexerInterleaving.CheckAlone` | indexer/src/pipeline.ts:83-100 | a reorg check that nothing interrupts names what the sequential check names |
| `IndexerInterleaving.LiveAlone` | indexer/src/indexer.ts:96-115 | a live task that nothing interrupts, from the announcement on, does exactly what the sequential onNewBlock does |
| `IndexerInterleaving.HistoricalAlone` | indexer/src/indexer.ts:62-77 | a historical task that nothing interrupts does exactly what the sequential syncHistorical does, batch by batch |
| `IndexerInterleaving.StepKeepsAccounts` | indexer/src/indexer.ts:79-94 | every step keeps the account of calls made, pending and lost |
| `IndexerInterleaving.EveryCallIsAccountedFor` | indexer/src/indexer.ts:86-88 | in every run, failures included, calls made, calls pending and calls lost by failed tasks are, as multisets, exactly the calls of the stored events |
| `IndexerInterleaving.CallsCounted` | indexer/src/indexer.ts:134-140 | in every run a handler is called for a key as often as the key is stored, less the pending and the lost calls |
| `IndexerInterleaving.CalledAsStoredExactly` | indexer/src/indexer.ts:134-140 | when no call is pending, every handler was called for every key as often as it is stored if and only if no task failed with calls still to make |
| `IndexerInterleaving.FailedForGood` | indexer/src/indexer.ts:44-46 | a failed task stays as it is in every continuation of the run |
| `IndexerInterleaving.LostIsNeverMadeUp` | indexer/src/pipeline.ts:34-40 | the calls that a failed task lost are never made up for, however the run goes on |
| `IndexerInterleaving.FailureLosesCalls` | indexer/src/indexer.ts:86-91 | and calls are lost: a run stores an event and fails before calling the handler, and in no continuation is the handler called as often as the event is stored |
| `IndexerInterleaving.PersistKeepsKeysUniqueExactly` | indexer/src/pipeline.ts:34-40 | a persisting task keeps stored keys unique if and only if nothing it adds was stored by another task since it read the keys, and no added log's address is configured twice |
| `IndexerInterleaving.OverlapStoresTwice` | indexer/src/indexer.ts:43-47 | two announcements of one block can store its event twice, so storage is not at most once |
| `StableJson.SortSorts` | scripts/exportVersionedAbiArtifacts.ts:398-399 | sorting an object's keys yields the same keys, each before the next: where they first differ it has the smaller character, or there it ends |
| `StableJson.LessIsByCharacters` | scripts/exportVersionedAbiArtifacts.ts:398-399 | the comparison of the sort is that order, written out |
| `StableJson.LookupIsLast` | scripts/exportVersionedAbiArtifacts.ts:397-400 | the value under a key is the last one assigned |
| `StableJson.FieldText` | scripts/exportVersionedAbiArtifacts.ts:398-401 | an object's text: braces, quoted keys, colons and commas, the earlier key first whichever was assigned first |
| `StableJson.EscapesExactly` | scripts/exportVersionedAbiArtifacts.ts:400-403 | which characters of a string are escaped, and how: the quote, the backslash and the control characters |
| `StableJson.ArrayText` | scripts/exportVersionedAbiArtifacts.ts:395-403 | the text of numbers, booleans, null, strings with escapes, and arrays |
| `StableJson.AscendingIsUnique` | scripts/exportVersionedAbiArtifacts.ts:398-399 | there is only one such order, so insertion order cannot show |
| `StableJson.SortTellsExactly` | scripts/exportVersionedAbiArtifacts.ts:443-444 | two lists of names sort to one list if and only if they are permutations of one another |
| `StableJson.StringReadsBack` | scripts/exportVersionedAbiArtifacts.ts:400 | an escaped string literal, followed by anything, is read back |
| `StableJson.NumberReadsBack` | scripts/exportVersionedAbiArtifacts.ts:403 | a printed integer, followed by anything that does not extend it, is read back |
| `StableJson.ReadsBack` | scripts/exportVersionedAbiArtifacts.ts:394-404 | a decoder recovers from the printed value, followed by any delimited text, exactly the value's meaning and that text |
| `StableJson.SameMeaningPrintsAlike` | scripts/exportVersionedAbiArtifacts.ts:394-404 | values that differ only in key order, or in null against undefined, print the same text |
| `StableJson.StringifyExactly` | scripts/exportVersionedAbiArtifacts.ts:394-404 | two values print alike if and only if they mean the same |
| `AbiExport.ContentKept` | scripts/exportVersionedAbiArtifacts.ts:499-523 | the serialized bundle determines the whole bundle |
| `AbiExport.ModuleKept` | scripts/exportVersionedAbiArtifacts.ts:407-446 | a serialized module determines everything of the module but its digest, and the digest too once it is in place |
| `AbiMeaning.ParameterMeans` | scripts/exportVersionedAbiArtifacts.ts:365-369 | which keys a serialized parameter has and what stands under each |
| `AbiMeaning.FragmentMeans` | scripts/exportVersionedAbiArtifacts.ts:371-380 | the same for a fragment, outputs and mutability only where it has them |
| `AbiMeaning.MemberMeans` | scripts/exportVersionedAbiArtifacts.ts:420-433 | the same for a function or an error |
| `AbiMeaning.TopicMeans` | scripts/exportVersionedAbiArtifacts.ts:434-440 | the same for an event |
| `AbiMeaning.ModuleMeans` | scripts/exportVersionedAbiArtifacts.ts:414-446 | the same for a module, null standing for the digest before it is computed |
| `AbiMeaning.NetworkMeans` | scripts/exportVersionedAbiArtifacts.ts:116-138 | the same for a network |
| `AbiMeaning.DeployedMeans` | scripts/exportVersionedAbiArtifacts.ts:512-521 | the same for a module of the address manifest |
| `AbiMeaning.ManifestMeans` | scripts/exportVersionedAbiArtifacts.ts:509-522 | the same for the address manifest |
| `AbiMeaning.VersionMeans` | scripts/exportVersionedAbiArtifacts.ts:504 | the same for the protocol version |
| `AbiMeaning.ContentMeans` | scripts/exportVersionedAbiArtifacts.ts:499-523 | the same for the bundle that the checksum is computed over |
| `AbiExport.ChecksumPinsContent` | scripts/exportVersionedAbiArtifacts.ts:525 | checksums are equal if and only if the bundles are, for a hash that tells the two texts apart |
| `AbiExport.DigestPinsModule` | scripts/exportVersionedAbiArtifacts.ts:446 | digests are equal if and only if the modules are, but for the digest field |
| `AbiExport.DiffAgainstFreeze` | scripts/exportVersionedAbiArtifacts.ts:535-564 | the gate's drifts, in order |
| `AbiExport.CompareModules` | scripts/exportVersionedAbiArtifacts.ts:542-559 | the loop over the sorted module names, with both early turns |
| `AbiExport.ByNameIsLast` | scripts/exportVersionedAbiArtifacts.ts:540-541 | of modules with one name the last of the list counts, whole |
| `AbiExport.DriftsInOrder` | scripts/exportVersionedAbiArtifacts.ts:535-564 | drifts come checksum first, sizes last, modules by name in between, the digest before the interface id; so none comes twice |
| `AbiExport.DiffReportsExactly` | scripts/exportVersionedAbiArtifacts.ts:535-564 | a drift is reported if and only if the difference it names is there between the exports' own module lists: nothing is missed and nothing is made up |
| `AbiExport.NoDriftMeansSameExport` | scripts/exportVersionedAbiArtifacts.ts:525-564 | for computed checksums the gate reports nothing if and only if the frozen and the current export are equal |
| `AbiModule.DigestSeesSignatures` | scripts/exportVersionedAbiArtifacts.ts:419-448 | two module digests are equal if and only if name, source and inheritance are, and, up to order, the struct and enum names and the signatures of functions, errors and events; so parameter names, indexed flags, outputs and mutability never show |
| `AbiModule.ModulePublishes` | scripts/exportVersionedAbiArtifacts.ts:414-445 | a module lists each function and error with the first ten characters of its signature's hash, and each event with the whole hash, and nothing else |
| `AbiModule.InterfaceIdPublished` | scripts/exportVersionedAbiArtifacts.ts:387-417 | its interface id is the XOR of its functions' selectors |
| `AbiEntries.ResolvedEntry` | scripts/exportVersionedAbiArtifacts.ts:365-380 | a resolved fragment carries its entry's name and kind, its inputs and, for a function and nothing else, its outputs, each parameter with name, canonical type and flag in order, the function's mutability, and the signature made of name and input types |
| `AbiEntries.RejectedEntry` | scripts/exportVersionedAbiArtifacts.ts:350-380 | an entry is rejected exactly for the first of its input types, or for a function its output types, that has no canonical text |
| `AbiEntries.SignaturesTell` | scripts/exportVersionedAbiArtifacts.ts:371-380 | two lists of resolved entries have the same signatures, up to order, if and only if they have the same names with canonical input lists |
| `AbiEntries.DigestSeesInterfaces` | scripts/exportVersionedAbiArtifacts.ts:371-448 | from parsed entries to digests: two modules have one digest if and only if they agree in name, source and inheritance and, up to order, in struct and enum names and in the names and canonical input types of functions, errors and events |
| `AbiModule.Dedupe` | scripts/exportVersionedAbiArtifacts.ts:485-490 | keeps the first fragment of each signature and sorts them |
| `AbiModule.PublishedExactly` | scripts/exportVersionedAbiArtifacts.ts:485-490 | a fragment is published if and only if no earlier fragment has its signature |
| `AbiModule.ChangeShowsExactly` | scripts/exportVersionedAbiArtifacts.ts:485-496 | a change that keeps a fragment's signature shows in the published ABI if and only if no earlier fragment has that signature |
| `AbiText.ReadGroup` | scripts/exportVersionedAbiArtifacts.ts:182-192 | finds the first index at which as many brackets were closed as opened, with the text between, and throws exactly when there is none |
| `AbiText.BracketingIsUndone` | scripts/exportVersionedAbiArtifacts.ts:182-192 | a balanced text between two brackets is exactly the group read there, whatever precedes and follows |
| `AbiText.SplitTopLevel` | scripts/exportVersionedAbiArtifacts.ts:194-210 | the loop returns the parts at depth 0, dropping a blank last one, also for text whose depth goes negative |
| `AbiText.SplitExactly` | scripts/exportVersionedAbiArtifacts.ts:194-210 | text is split exactly at the separators before which as many round and square brackets are closed as opened, and a blank last piece is dropped |
| `AbiText.JoiningIsUndone` | scripts/exportVersionedAbiArtifacts.ts:194-210 | whole parts, the last not blank, come back from the joined text |
| `AbiText.SplittingIsUndone` | scripts/exportVersionedAbiArtifacts.ts:194-210 | every text is the join of pieces, and splitting returns them, without a blank last one |
| `AbiText.BlankRanges` | scripts/exportVersionedAbiArtifacts.ts:276-279 | whatever the order of the ranges, the length stays, covered characters become spaces and no other character changes |
| `AbiText.DeclarationsCutExactly` | scripts/exportVersionedAbiArtifacts.ts:276-285 | the blanked body is cut into declarations exactly at the semicolons of the source that no range covers |
| `AbiParameters.ParseParameters` | scripts/exportVersionedAbiArtifacts.ts:218-240 | the loop returns the parameter of every chunk that holds more than modifiers, in order |
| `AbiParameters.ReadTokens` | scripts/exportVersionedAbiArtifacts.ts:223-235 | the token loop finds the type (the first telling word), the name (the last, if another) and the indexed flag, wherever the modifiers stand |
| `AbiParameters.FirstAndLastWord` | scripts/exportVersionedAbiArtifacts.ts:223-237 | of any words, however many, the first that is not skipped is the type and the last the name |
| `AbiParameters.SkippedExactly` | scripts/exportVersionedAbiArtifacts.ts:229-231 | the words that are skipped are indexed, memory, calldata, storage and payable, and no others |
| `AbiParameters.DeclarationReadsBack` | scripts/exportVersionedAbiArtifacts.ts:222-237 | a declaration's words are read as its type, name and flag |
| `AbiParameters.WordsReadBack` | scripts/exportVersionedAbiArtifacts.ts:221-223 | words with a space between them are cut back into those words |
| `AbiParameters.SpacedWordsReadBack` | scripts/exportVersionedAbiArtifacts.ts:221-223 | words are cut back whatever spaces, newlines included, stand between and around them |
| `AbiText.AsciiSpaces` | scripts/exportVersionedAbiArtifacts.ts:208-221 | which ASCII characters are spaces |
| `AbiParameters.ListReadsBack` | scripts/exportVersionedAbiArtifacts.ts:218-240 | a comma-separated list of declarations, however spaced, is read back one by one |
| `AbiParameters.WrittenListReadsBack` | scripts/exportVersionedAbiArtifacts.ts:218-240 | declarations written out with single spaces and commas are read back, so every declaration has a text to which the row above applies |
| `AbiParameters.StructBodyReadsBack` | scripts/exportVersionedAbiArtifacts.ts:261 | a struct body, cut at its semicolons and rejoined with commas, is read back as its fields |
| `AbiParameters.ReadingKeepsCanonicalType` | scripts/exportVersionedAbiArtifacts.ts:237 | the widening of bare integers done while reading does not show in the canonical type, and is idempotent |
| `AbiParameters.SignatureOfDeclaration` | scripts/exportVersionedAbiArtifacts.ts:218-240 | from text to signature: names, modifiers, indexed flags and spacing of a parameter list never show |
| `AbiTypes.BaseAndSuffix` | scripts/exportVersionedAbiArtifacts.ts:352-354 | a base without dimensions followed by array dimensions is cut exactly between them |
| `AbiTypes.BaseHasNoSuffix` | scripts/exportVersionedAbiArtifacts.ts:352-354 | every type text is a base without dimensions and its dimensions |
| `AbiTypes.CanonicalDenotesType` | scripts/exportVersionedAbiArtifacts.ts:350-363 | every canonical text is the print of a type tree of elementary names: no user-defined name is left in it |
| `AbiTypes.TypeWalk` | scripts/exportVersionedAbiArtifacts.ts:355-360 | canonical texts are bracket-balanced and show no top-level comma |
| `AbiTypes.TypeListReadsBack` | scripts/exportVersionedAbiArtifacts.ts:194-210 | splitting a printed argument list returns exactly the canonical types |
| `AbiTypes.PrintDeterminesType` | scripts/exportVersionedAbiArtifacts.ts:355-360 | a canonical text denotes one type tree |
| `AbiTypes.SignatureExactly` | scripts/exportVersionedAbiArtifacts.ts:371-373 | two signatures are one text if and only if name and argument types, nested structure included, are the same |
| `AbiTypeLaws.RecursionEndsExactly` | scripts/exportVersionedAbiArtifacts.ts:350-361 | the recursion ends within one call per struct and one more, or no depth is enough; and which of the two is decided by a struct returning below itself |
| `AbiTypeLaws.DivergenceHasCycle` | scripts/exportVersionedAbiArtifacts.ts:357-359 | a recursion that never ends exhibits a cycle of structs using one another |
| `AbiTypeLaws.AcyclicNeverDiverges` | scripts/exportVersionedAbiArtifacts.ts:350-363 | without such a cycle every type is canonicalized or rejected by name |
| `AbiTypeLaws.DivergesExactly` | scripts/exportVersionedAbiArtifacts.ts:350-363 | on a registry whose field types are all known, the recursion never ends if and only if the type is a struct from which using leads into a cycle |
| `AbiTypeLaws.CanonicalAsIs` | scripts/exportVersionedAbiArtifacts.ts:147-171 | the names that are canonical as they are, all of them |
| `AbiTypeLaws.BaseTypes` | scripts/exportVersionedAbiArtifacts.ts:350-363 | with any array dimensions, an elementary base is kept, an enum becomes uint8, and an unknown base is rejected by name |
| `AbiTypeLaws.FieldsInOrder` | scripts/exportVersionedAbiArtifacts.ts:359-360 | the canonical types of a struct are those of its fields, in order, and it fails as the first of its fields that does |
| `AbiTypeLaws.DimensionsKept` | scripts/exportVersionedAbiArtifacts.ts:350-361 | every base but the bare integer names keeps all its array dimensions |
| `AbiTypeLaws.BareIntegerCanonical` | scripts/exportVersionedAbiArtifacts.ts:212-216 | a bare integer name takes its width and keeps only its last dimension |
| `AbiTypeLaws.BareIntegerKeepsDimensionsExactly` | scripts/exportVersionedAbiArtifacts.ts:212-216 | its dimensions are all kept if and only if there is at most one |
| `AbiTypeLaws.CanonicalAgainExactly` | scripts/exportVersionedAbiArtifacts.ts:350-363 | a canonical text is canonical again, in every registry, if and only if it is no tuple |
| `AbiTypeLaws.FreshNamesChangeNothing` | scripts/exportVersionedAbiArtifacts.ts:350-363 | names added to the registry without redefining any change no known type; nor does redefining a struct while it is being expanded |
| `AbiTypeLaws.RegisterTypes` | scripts/exportVersionedAbiArtifacts.ts:336-347 | the registration loops add every enum and struct under its own and its qualified name, the last one winning |
| `AbiTypeLaws.RegisteredExactly` | scripts/exportVersionedAbiArtifacts.ts:336-347 | the names registered are those there before and every declared enum and struct, bare and qualified by its interface |
| `AbiTypeLaws.RegisteringFreshTypesKeepsTypes` | scripts/exportVersionedAbiArtifacts.ts:336-363 | registering further interfaces with fresh names leaves every known type as it was |
| `AbiTypeLaws.RedeclaredStructChangesType` | scripts/exportVersionedAbiArtifacts.ts:341-344 | registering any fields under the name of a struct, in any registry, changes the type of that name if and only if the new fields canonicalize differently; with a fresh qualified name, known fields canonicalize as before |
| `AbiTypeLaws.FieldCountShows` | scripts/exportVersionedAbiArtifacts.ts:341-344 | a struct declared again with another number of fields always changes its type, as an empty one given an address does |
| `AbiTypeLaws.EntriesShareSignatureExactly` | scripts/exportVersionedAbiArtifacts.ts:371-373 | two resolved entries share a signature if and only if they share name and canonical input list, and that list can be split back out of the signature |
| `AbiTypeLaws.SignatureText` | scripts/exportVersionedAbiArtifacts.ts:373 | a signature's text: the name and, in parentheses, the types with commas between them |
| `InterfaceId.PaddingUndoesShortening` | scripts/exportVersionedAbiArtifacts.ts:383 | padding to the old width undoes the dropping of leading zeros |
| `InterfaceId.WrittenReadsBack` | scripts/exportVersionedAbiArtifacts.ts:382-384 | the id text keeps eight digits after 0x and reads back as the value |
| `InterfaceId.IdIsXor` | scripts/exportVersionedAbiArtifacts.ts:387-392 | the folded text is the text of the XOR of all selectors |
| `InterfaceId.IdIgnoresOrder` | scripts/exportVersionedAbiArtifacts.ts:387-392 | the id does not depend on the order of the functions |
| `InterfaceId.IdOfParts` | scripts/exportVersionedAbiArtifacts.ts:387-392 | the id of an interface in two parts is the XOR of the parts' ids |
| `InterfaceId.DuplicateCancels` | scripts/exportVersionedAbiArtifacts.ts:387-392 | a selector declared twice cancels itself |

## Left out

- The Solidity contracts are not part of this model.
- Hash internals and packing: keccak, SHA-256, `make_leaf` and the ABI packing of hashed values are function parameters.
- Soroban host: TTL extension, published events, view functions and the authorization framework (a set of signers per call); persistent entries are taken to stay.
- Token client: the contract's token holding is one number, deposits are calls of the run, and a transfer fails exactly when that number is too small.
- Comment stripping, regular expressions for declaration heads, `parseEntry`, `stateMutabilityOf`, `resolveImplementations`: token-level scanning with no invariant of its own.
- File reading and writing, the command line, and `checkFreeze`'s messages; drifts are values, not sentences.
- Unicode: texts are sequences of characters of any code; surrogate pairs, which the splitter walks as one character and `JSON.stringify` may escape, and the difference between code-unit and code-point order, are not modelled.
- Numbers in JSON are integers: the exports hold no others; fractions, exponents and special values are not modelled.
- Object keys that JavaScript treats specially, such as `__proto__`, are not modelled.
- `localeCompare` orders are parameters that only reorder, so the order of the published lists is whatever they yield.
- The type registry, a mutable object in the source, is a value that methods rebuild; aliasing of it is not captured.
- `TypeRegistry` recursion that never ends is an outcome of its own, standing for the call stack overflow.
- Array dimensions in types are texts; sizes are not read as numbers.
- The provider: `getLogs` and `getBlock` are taken to answer exactly from the chain; websocket, reconnects, timers and confirmations only decide which block numbers are announced.
- Real reorganizations in the overlapping model: the chain only grows there. `IndexerLaws` lets the chain change between syncs. No code removes orphaned events.
- Addresses are compared as equal texts; letter case is taken to be normalized.
- The key text `hash:index` is a pair; timestamps of blocks and of processing are not kept.
- The two checkpoint copies, in the manager and in storage, are one field; a crash between their writes is not modelled.
- `start` and `stop`: the running flag is an oracle per batch in `Indexer`, and a failing task in `IndexerInterleaving`.
- Handlers are numbered; what they do is not modelled, only which of their calls throw. A call that throws counts as made.
- Storage and provider calls that throw: a task can fail before any step of the overlapping model; the sequential operations take them to answer.
