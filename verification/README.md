# Nullark verification models

This project models the arithmetic and the protocols of the Nullark shielded pool's TypeScript services and
proves what they promise. It stands beside the repository and takes the form its code has: objects whose fields
change are classes, loops are loops, validators that collect errors are methods, and pure code is functions with
lemmas.

`dafny verify dfyconfig.toml` checks everything.

## What is modelled

**Merkle trees and recovery.** The repository builds the same append-only Merkle tree three times: as dense layers
in the core, as sparse layers in the web client, and as a lazy, memoised recursion behind a least-recently-used
cache in the indexer. All three are proved equal to the naive full binary tree (`MerkleTree`), for every pair hash.
JavaScript's `^` works on 32 bits, so a leaf index gets its true siblings exactly when it is below 2^31. Around the
indexer's tree stand log ingestion, merged block ranges and the recovery endpoint; an end-to-end theorem ties a 200
answer to the runs of ingestion before it. Which logs a batch applies, and which queries are answered, are also
stated without the code's own recursion and checks: a batch applies its own pool's logs in their order and can be
retried, and a path is served on exactly the spelled-out conditions.

**The relayer protocol.** Requests pass through a promise queue, a rate limiter and two expiring records per
withdrawal. The queue and the store are a state machine whose steps may fail and whose writes may be late or lost.
A second send comes only from a handler that read the nullifier key when no earlier record stood there: over every
run, each record under a nullifier key keeps later sends apart for its whole time to live, except a run that had read
the key before that record landed. The promises that other calldata always gets a conflict, and the same calldata
pending or the stored transaction hash, hold when the two writes of a record land together. Otherwise each fails in
two ways, for each of which a run is constructed, and for both the exact condition is proved over every run. The
answers themselves are proved too: what each handler settles with, from the records it read, in every run.

**Withdrawal binding.** The builder, the relay and the indexer each recompute the hashes that bind a withdrawal.
Their checks are methods that collect errors, proved equivalent to acceptance predicates, and the predicates are
proved to agree; what each accepts is also spelled out in the fields of the calldata and the request. The hashes are
parameters and nothing is assumed of them: where a conclusion rests on two hashes being of one record, the lemma names
the two records and says that they agree or collide. In this form the proof context hash determines the whole
withdrawal, across all five kinds of call that the relay accepts.
The indexer's default context shape is the one the relay uses without a fee policy. Under a fee policy the relay
uses another one, so an accepted change is bound exactly when the indexer is told that shape; a change that is not
bound without it is constructed.

**Encoders and arithmetic.** SHA-256 on signed 32-bit numbers equals FIPS 180-4; UTF-8 by hand equals RFC 3629;
canonical JSON text determines the value, and the value its text exactly when its keys do not tie; the greedy split
uses the fewest notes; the pool's accounts conserve value; ETH decimals and the hand-built calldata read back.

## Conventions

- Hex strings are numbers or digit strings; letter case does not occur.
- A thrown exception is a `Failure` or `Thrown` value with a reason.
- A clock, a store and a hash are parameters or fields. The key-value store is linearizable and the clock never
  goes back.
- Where the code and its promise differ, the code is modelled and the exact condition is proved:
  `JsPaths.SiblingsRightIffBelow2To31`, `RelayerRecords.ConflictIffOnlyOtherCalldata`,
  `RelayerRecords.SameCalldataAnswersIff`, `RelayerSpacing.LaterSendsReadApart`,
  `CanonicalMeaning.IgnoresKeyOrderIffNoTies` (the repository sorts keys with `localeCompare`, which may tie
  different keys), `WithdrawCalldata.DecodesIffAmountFits`, `WithdrawalBinding.AcceptedChangeIsBoundIff`.

## Model

| member | source | states |
|---|---|---|
| `MerkleTree.PathFoldsToRoot` | packages/core/src/realProofModel.ts:122-145 | For every tree content, depth, hash and leaf index: hashing the leaf upwards with its siblings, on the sides its direction bits say, gives the root of the naive full binary tree. |
| `MerkleTree.PathBindsLeaf` | packages/core/src/realProofModel.ts:122-145 | For every hash: a path of the tree's depth folds to the root, with no pair on it colliding with the tree's pair on the same level, if and only if its value is the leaf (or the zero value) at the index its bits encode and its elements are that leaf's siblings. |
| `MerkleTree.EmptyNodeIsZero` | services/indexer/src/merklePaths.ts:130-135 | Pruning is sound: a node with no stored leaf below it is the empty subtree of its level. |
| `Js32.XorOne` | services/indexer/src/merklePaths.ts:150 | `x ^ 1` flips the lowest bit of the 32-bit word of x, and is signed like JavaScript's. |
| `JsPaths.JsSiblingsExact` | services/indexer/src/merklePaths.ts:149-156 | Climbing with `cursor ^ 1` and `Math.floor(cursor / 2)` meets the true siblings on every level, for indexes below 2^31. |
| `JsPaths.SiblingsRightIffBelow2To31` | services/indexer/src/merklePaths.ts:149-156 | A leaf index gets the true siblings for every content of the tree if and only if it is below 2^31. |
| `MerklePaths.HasLeafInRange` | services/indexer/src/merklePaths.ts:103-117 | The binary search answers whether some stored leaf index lies in the half-open range. |
| `MerklePaths.SortKeys` | services/indexer/src/merklePaths.ts:93-94 | The index list holds exactly the stored leaf indexes, ascending. |
| `MerklePaths.GetNodeHash` | services/indexer/src/merklePaths.ts:119-142 | The memoised, range-pruned recursion returns the node of the naive tree at any level and position, and every memo entry it leaves is such a node. |
| `MerklePaths.ClimbToRoot` | services/indexer/src/merklePaths.ts:95-165 | The computed path has the naive tree's root, the siblings met by `cursor ^ 1`, and the direction bits. |
| `MerklePaths.CreateMerklePathIndex` | services/indexer/src/merklePaths.ts:30-52 | An index is created, empty and valid, exactly for depths 1 to 52; other depths throw. |
| `MerklePaths.MerklePathIndex.InsertIndexedCommitment` | services/indexer/src/merklePaths.ts:54-77 | Throws exactly on a negative index, one over capacity, a commitment indexed elsewhere, or a leaf taken by another commitment, and then changes nothing; otherwise stores the pair in both maps and empties the path cache. The two maps stay mutually inverse. |
| `MerklePaths.InsertionAdmittedIff` | services/indexer/src/merklePaths.ts:54-77 | Among different leaves an insertion is admitted if and only if its index is inside the tree, every stored leaf stays where it is, and the leaves stay different. |
| `MerklePaths.RefusalReasons` | services/indexer/src/merklePaths.ts:54-77 | Each reason of a refusal has its condition: a negative index, one over capacity, a commitment stored elsewhere, or a leaf that holds another commitment. |
| `MerklePaths.InsertAgain` | services/indexer/src/merklePaths.ts:54-77 | Inserting a stored pair again is done, and leaves both maps as they are. |
| `MerklePaths.MerklePathIndex.GetMerklePathForCommitment` | services/indexer/src/merklePaths.ts:79-177 | Answers as if nothing were cached: the path computed afresh from the present leaves, or an error for a commitment that is not indexed; only caches change. The cache keeps its bound and holds the most recently used commitments in order of use. |
| `MerklePaths.MerklePathIndex.Remember` | services/indexer/src/merklePaths.ts:166-175 | After a miss the cache holds the most recently served commitments, at most its capacity; what was evicted was least recently used. |
| `MerklePaths.MerklePathIndex.Refresh` | services/indexer/src/merklePaths.ts:85-91 | After a hit the entry is the most recent one and no entry is lost. |
| `OrderedMaps.TouchedCache` | services/indexer/src/merklePaths.ts:85-91 | Deleting and re-inserting a cached key keeps the cache equal to the last-used keys of the log of uses. |
| `OrderedMaps.MissedCache` | services/indexer/src/merklePaths.ts:166-175 | Inserting a new key and dropping the oldest keeps the cache equal to the last-used keys of the log of uses. |
| `OrderedMaps.MostRecentByLastUse` | services/indexer/src/merklePaths.ts:166-175 | The order of recency, read off the log of uses alone: the used keys by the position of their last use. |
| `MerklePaths.RunOnNewIndex` | services/indexer/src/merklePaths.ts:54-177 | Every interleaving of insertions and lookups, with any cache bound, is answered exactly as by an index that stores only leaves and recomputes each path. |
| `RealProofModel.BuildParentLayer` | packages/core/src/realProofModel.ts:161-172 | The pairing loop turns the dense layer of a level into the dense layer of the next level of the naive tree. |
| `RealProofModel.BuildLayers` | packages/core/src/realProofModel.ts:152-175 | The dense layers are the occupied prefixes of the naive tree's levels, the top one holding the root. |
| `RealProofModel.ClimbLayers` | packages/core/src/realProofModel.ts:89-107 | The climb over dense layers gives the siblings met by `cursor ^ 1` and the direction bits. |
| `RealProofModel.AppendOnlyMerkleTree.Append` | packages/core/src/realProofModel.ts:73-81 | Appends a field element to the leaves and returns its path; throws, changing nothing, exactly on a value outside the field or a full tree. |
| `RealProofModel.AppendOnlyMerkleTree.PathForLeaf` | packages/core/src/realProofModel.ts:83-108 | Returns root, siblings and direction bits of an inserted leaf, and throws exactly for one that is not inserted. |
| `RealProofModel.AppendOnlyMerkleTree.Root` | packages/core/src/realProofModel.ts:114-116 | The root property is the naive tree's root over the present leaves. |
| `RealProofModel.VerifyMerklePath` | packages/core/src/realProofModel.ts:122-145 | The verifier loop gives the verdict or the error of its specification, errors in the source's order. |
| `RealProofModel.VerdictIsFold` | packages/core/src/realProofModel.ts:122-145 | The verdict is true if and only if leaf and elements are field elements, the directions are bits, and the fold equals the root. |
| `RealProofModel.VerifierBindsLeaf` | packages/core/src/realProofModel.ts:122-145 | Completeness and soundness against the root of a tree of field elements, for every hash into the field: the verifier accepts every leaf's path, and a depth-length path it accepts either carries the leaf stored at the index its bits encode and that leaf's siblings, or on some level path and tree hash two different pairs of field elements to one value. |
| `RealProofModel.VerifierErrors` | packages/core/src/realProofModel.ts:122-145 | The error is the leaf's, then that of different lengths, then that of the first element that is no field element or direction that is no bit. |
| `RealProofModel.AppendAllThenVerify` | packages/core/src/realProofModel.ts:73-145 | After any run of appends, of which the tree refuses those outside the field and those beyond its capacity, the path of any admitted leaf below 2^31 verifies, and a leaf index that was not admitted throws. |
| `SparseMerkle.BuildNextSparseMerkleLayer` | apps/web/src/product/shieldedTransfersHelpers.ts:2015-2028 | A complete sparse layer of one level becomes a complete sparse layer of the next level of the naive tree. |
| `SparseMerkle.ClimbSparse` | apps/web/src/product/shieldedTransfersHelpers.ts:1980-1999 | Replacing layer by layer while climbing gives the naive root, the siblings met and the direction bits, and stops exactly when one of them is no field element. |
| `SparseMerkle.ReconstructMerklePathFromRootAcceptedLogs` | apps/web/src/product/shieldedTransfersHelpers.ts:1950-2004 | Returns the path of the first logged leaf equal to the commitment over the nonzero logged leaves, or the error: bad depth, commitment absent, too many leaves, a value outside the field. |
| `SparseMerkle.NonZeroConcat` | apps/web/src/product/shieldedTransfersHelpers.ts:1958-1968 | The leaves are the logged commitments that are not zero, one by one and in their order, whatever the logs hold. |
| `SparseMerkle.ReconstructsIff` | apps/web/src/product/shieldedTransfersHelpers.ts:1950-2004 | Each error has its condition; otherwise the path is of the first leaf equal to the commitment, with the root, siblings and direction bits of the tree of those leaves. |
| `SparseMerkle.BuildThreeWays` | apps/web/src/product/shieldedTransfersHelpers.ts:1950-2028 | Fed the same leaves, the indexer, the core and the web client return the same root, siblings, direction bits and leaf index, at every leaf index; root and direction bits are those of the naive full binary tree, and so are the siblings for a leaf index below 2^31. |
| `Ranges.CanonicalIsUnique` | services/indexer/src/ranges.ts:14-29 | There is exactly one sorted, gap-separated list of ranges for a set of blocks. |
| `Ranges.RangeTracker.MarkCheckedRange` | services/indexer/src/ranges.ts:14-29 | Marking adds exactly the blocks of the range and keeps the list sorted and gap-separated; an inverted range throws and changes nothing. |
| `Ranges.RangeTracker.FindMissingRanges` | services/indexer/src/ranges.ts:31-48 | The result covers exactly the requested blocks that are not checked, as sorted, gap-separated ranges. |
| `Ranges.MarkAll` | services/indexer/src/ranges.ts:14-29 | After any run of marks the tracker is the canonical form of the union of the valid marks. |
| `Ranges.MarkInTwoOrders` | services/indexer/src/ranges.ts:14-29 | Two runs that mark the same blocks, in any order and with any repetition, leave the same list. |
| `Ranges.FillGaps` | services/indexer/src/ranges.ts:14-48 | Marking what is missing leaves nothing missing. |
| `LogIngest.IndexerState.IngestPoolLogs` | services/indexer/src/logIngest.ts:128-219 | Every new applied log is one of the batch, from its pool; a batch that ends normally appends exactly its pool logs in their order. The batch leaves the state its logs replay to, up to the first refused log; the block range is marked exactly when the whole batch ended normally. |
| `LogIngest.LogsOfMembers` | services/indexer/src/logIngest.ts:139-142 | The filter of a batch, told apart from ingestion: it keeps exactly the logs of the pool (with LogsOfConcat: one by one, in their order). |
| `LogIngest.LogsOfConcat` | services/indexer/src/logIngest.ts:139-142 | The filter of two runs of logs is that of the first followed by that of the second, and of a single log the log itself or nothing. |
| `LogIngest.BatchAppliesItsPoolLogs` | services/indexer/src/logIngest.ts:128-219 | Without the recursion of ingestion: a batch appends the first pool logs of that filter, all of them when it ends normally and those before its first refused one when it throws; each is admitted where it stands. |
| `LogIngest.RunAppliesPoolLogs` | services/indexer/src/logIngest.ts:128-219 | In every run of batches each applied log is one of its batch and comes from that batch's pool. |
| `LogIngest.IndexerState.ApplyLog` | services/indexer/src/logIngest.ts:139-217 | One log has exactly its specified effect on notes, live and expired roots, nullifiers and Merkle leaves, or throws for the specified reason and changes nothing. |
| `LogIngest.IndexerState.InsertAcceptedNoteCommitment` | services/indexer/src/logIngest.ts:221-232 | Without a Merkle index nothing happens; otherwise the leaf is inserted, or refused when the index is unsafe or the Merkle index refuses it. |
| `LogIngest.IngestAll` | services/indexer/src/logIngest.ts:128-219 | After any run of batches, some of which throw, the state is the replay of the applied logs and the checked blocks are exactly those of the batches that ended normally. |
| `LogIngest.RootsReflectLastEvent` | services/indexer/src/logIngest.ts:188-207 | In every replay a root is live if and only if its last event was its acceptance, expired if and only if it was its expiry; the two never overlap. |
| `LogIngest.NullifiersAreSpentEvents` | services/indexer/src/logIngest.ts:208-216 | A nullifier is recorded if and only if some applied log spent it. |
| `LogIngest.NullifiersOnlyGrow` | services/indexer/src/logIngest.ts:208-216 | No later log removes a recorded nullifier. |
| `LogIngest.NotesSitAtTheirLeaves` | services/indexer/src/logIngest.ts:139-187 | In every admitted history each indexed note's commitment is the leaf at its leaf index. |
| `IngestHistory.AdmittedIff` | services/indexer/src/logIngest.ts:139-232 | Among different leaves a pool log is refused if and only if it cannot be decoded, or creates a note at an unsafe leaf index, outside the tree, over another leaf, or of a commitment stored elsewhere. |
| `IngestHistory.AppliedIsAdmittedAgain` | services/indexer/src/logIngest.ts:221-232 | A log that was applied once is never refused later, and a note that comes again changes no leaf. |
| `IngestHistory.RetriedLogsAreAdmitted` | services/indexer/src/logIngest.ts:128-219 | So a batch whose pool logs were all applied before ends normally when it is ingested again, after any history. |
| `IngestHistory.NotesAreCreatedLogs` | services/indexer/src/logIngest.ts:139-187 | The stored notes are exactly the created ones, in the order of their logs, each with its log and its source. |
| `IngestHistory.NullifierKeepsLastLog` | services/indexer/src/logIngest.ts:208-216 | A recorded nullifier keeps the last log that spent it. |
| `RecoveryApi.MissingRangeStatus` | services/indexer/src/recoveryApi.ts:220-248 | The sync is reported partial exactly when some block from the scan start to the latest checked block is not covered (or there is none); the count is that of the canonical list of missing ranges, of which the first 25 are shown. |
| `RecoveryApi.MerklePathHandler` | services/indexer/src/recoveryApi.ts:62-150 | The answer has exactly the status its checks determine, in their order, and a 200 answer carries the freshly computed path of the queried commitment. A refusal carries the report of missing ranges exactly for a commitment that is not indexed and for incomplete coverage. |
| `RecoveryApi.ServesIff` | services/indexer/src/recoveryApi.ts:62-150 | A path is served if and only if the query names the configured chain and pool, carries no wallet-linked field and asks for an indexed commitment, the tree's root is accepted where roots are given, and a v1.2 runtime has its binding, matching evidence, accepted roots and complete coverage. |
| `RecoveryApi.RefusalsIff` | services/indexer/src/recoveryApi.ts:62-150 | Each refusal status (400, 404, 409, 503) has its exact condition. |
| `RecoveryApi.BindingIff` | services/indexer/src/recoveryApi.ts:156-174 | A configuration is bound if and only if it is one of the two v1.2 runtimes on its chain and pool; any other runtime named v1.2 is blocked. |
| `RecoveryApi.EvidenceIff` | services/indexer/src/recoveryApi.ts:176-196 | Evidence matches a bound runtime if and only if it is ready and final, names the configured runtime, chain and pool and an approved hash, and its source, if given, is one of the two canonical files. |
| `RecoveryApi.UnlinkedIff` | services/indexer/src/recoveryApi.ts:198-218 | A query is free of wallet-linked fields if and only if no field is forbidden and none mentions a wallet, a discovery, a tag or a nullifier. |
| `RecoveryApi.ServedAnswerIsSound` | services/indexer/src/recoveryApi.ts:91-138 | A 200 answer for a v1.2 runtime implies: the query is for the configured chain and pool, which are the runtime's own; every block from scan start to the latest checked block is covered, the root is accepted, and the path folds from the commitment to the root (for leaf indexes below 2^31, as at the deployed depth of 20). |
| `RecoveryApi.IngestThenServe` | services/indexer/src/recoveryApi.ts:91-138 | End to end: after any run of ingestion, a v1.2 endpoint answers 200 only if every block up to the latest checked one lies in a batch that ended normally, the query is for its own chain and pool, the last event of the returned root was its acceptance by a log of some batch from that batch's own pool, and the path folds from the commitment to it (for leaf indexes below 2^31). |
| `RelayIdempotency.DecidesIff` | services/relay/src/idempotency.ts:58-92 | A request is answered ready if and only if no live record stands under either of its keys, and conflict if and only if its nullifier's live record is of other calldata and none stands under its own; a replayed record always has a transaction hash. |
| `RelayIdempotency.WrittenRecordAnswers` | services/relay/src/idempotency.ts:58-174 | After a record is written and while it lives: its calldata is told pending or its transaction hash, other calldata for its nullifier is never ready and gets conflict unless it has a live record of its own, and every other request is answered as before. |
| `RelayIdempotency.WrittenRecordExpires` | services/relay/src/idempotency.ts:164-174 | An hour after it was written neither key reads the record any more. |
| `RelayIdempotency.RelayStore.RecordRelayPending` | services/relay/src/idempotency.ts:94-108 | Both keys then read the pending record; every other key reads as before. |
| `RelayIdempotency.RelayStore.RecordRelaySubmitted` | services/relay/src/idempotency.ts:110-126 | Both keys then read the submitted record with its hash; every other key reads as before. |
| `RelayerQueue.NextKeepsInv` | services/relayer-worker/src/index.ts:195-285 | Every step of the queue, the handlers, the store and the clock keeps the invariant: handlers are serial, every send's nullifier key keeps a record for the time to live of its pending record, and every later send read that key after that time. |
| `RelayerQueue.SecondSendOnlyAfterExpiry` | services/relayer-worker/src/index.ts:243-285 | In every run, with any step failing and any write late or lost, handlers never overlap, and a second send for a chain, pool and nullifier comes only from a handler that read the nullifier key after the first send's pending record had run out. |
| `RelayerSpacing.LaterSendsReadApart` | services/relayer-worker/src/index.ts:243-285 | The full bound, over every run: take any reachable state and the record that stands under a nullifier key in it, pending or submitted, in time or late. Every later send for that key read it when that record had run out, or before that state in a run that was then already on its way to send. |
| `RelayerSpacing.SubmittedRecordSpacesSends` | services/relayer-worker/src/index.ts:243-285 | So when a handler hears that its submitted record has landed, every later send for its nullifier read the key only after that record had run out too. |
| `RelayerSpacing.EntryBlocksUntilExpiry` | services/relayer-worker/src/index.ts:243-285 | From any reachable state on, until the record under a nullifier key runs out, however it came there, no request for that nullifier is decided ready. |
| `RelayerRuns.SecondSendWhileRecordLives` | services/relayer-worker/src/index.ts:243-285 | The exception of the bound occurs: a concrete run, for any two requests for one nullifier, in which the first send's submitted record lands after the second handler has read the key, and the second broadcast is due while that record lives. |
| `RelayerRecords.RecordedNullifierIsNeverReady` | services/relayer-worker/src/index.ts:243-285 | In every reachable state, while a send's record lives (the time to live of its pending record runs, or its nullifier key holds any record) no request for its nullifier is decided ready. |
| `RelayerRecords.RunKeepsRecords` | services/relay/src/idempotency.ts:94-126 | In every run each record that is stored or under way stands under one of its own keys and is pending, or carries the hash of a broadcast send of its request. |
| `RelayerRecords.ReplayedHashWasSent` | services/relay/src/idempotency.ts:58-92 | So whatever transaction hash a request is answered with was broadcast, for the request of the record that answers. |
| `RelayerAnswers.OrderlyRunKeeps` | services/relayer-worker/src/index.ts:243-285 | When the two writes of a record land together, every run keeps the records paired and each live send's nullifier key holding that send's record. |
| `RelayerAnswers.AnswersWhileRecorded` | services/relayer-worker/src/index.ts:243-285 | In every such run, for the time to live of a send's pending record: other calldata for its nullifier gets conflict, the same calldata gets pending or that send's transaction hash. |
| `RelayerRecords.ConflictIffOnlyOtherCalldata` | services/relayer-worker/src/index.ts:243-285 | In every run, with any step failing and any write lost or late: while a send's record lives, the nullifier key holds a record of that nullifier, and a request gets conflict if and only if that record is of other calldata and no live record stands under the request's calldata key. |
| `RelayerRecords.SameCalldataAnswersIff` | services/relayer-worker/src/index.ts:243-285 | In every run, while a send's record lives: its own request is told pending or that send's transaction hash if and only if the record that answers (the live one under its calldata key, else the one under its nullifier key) is of that request, and is pending or carries that hash. |
| `RelayerReplies.RepliesWereBroadcast` | services/relayer-worker/src/index.ts:243-285 | What requests are told, over every run: a replayed answer is the submitted record of a broadcast send, and a sent answer carries the hash of a broadcast of its own request. |
| `RelayerReplies.AnswersAreFinal` | services/relayer-worker/src/index.ts:195-208 | An answer, once given, never changes. |
| `RelayerReplies.StepSettlesIff` | services/relayer-worker/src/index.ts:243-295 | A run is answered failed if and only if the step is its failure or an unreported broadcast, and sent with a hash if and only if it has heard that its submitted record of that hash landed; every other answer is a decision. |
| `RelayerReplies.DecisionSettlesIff` | services/relayer-worker/src/index.ts:830-853 | In every run a handler that has read both keys settles with a replay of a record if and only if it is the submitted record read under the calldata key or, with none there, under the nullifier key with the same calldata; with conflict if and only if no calldata record and a nullifier record of other calldata were read; with pending if and only if the record that answers is pending; and goes on if and only if it read nothing. |
| `RelayerReplies.ReadsFindLiveEntries` | services/relay/src/idempotency.ts:58-92 | What it read is the record stored under its key while less than an hour has passed since it landed, and nothing otherwise. |
| `RelayerReplies.OrderlyReplies` | services/relayer-worker/src/index.ts:243-285 | When the two writes of a record land together: in every run, while a send's pending record lives, a handler of other calldata for its nullifier settles with conflict, and one of the same calldata with pending or a replay of that send's hash. |
| `RelayerWrites.BroadcastsAfterBothWrites` | services/relayer-worker/src/index.ts:271-281 | In every run, with writes landing late or never, a transaction is broadcast only when both writes of the run's pending record have landed. |
| `RelayerWrites.SentAfterAllWrites` | services/relayer-worker/src/index.ts:271-292 | In every run a request is answered with its hash only when both writes of its pending record and both of its submitted record with that hash have landed. |
| `RelayerRuns.HalfLandedWriteHidesConflict` | services/relay/src/idempotency.ts:164-174 | Other calldata can miss its conflict by a record of its own: a concrete run for any two requests in which one write of a record lands alone, after which the first calldata is told pending although the second was sent. |
| `RelayerRuns.LateWriteReplacesRecord` | services/relay/src/idempotency.ts:164-174 | And without one: a concrete run for any two requests in which a failed run's nullifier write lands late and replaces the send's record, after which the failed calldata is told pending with no record under its own key. |
| `RelayerRuns.LateWriteHidesOwnSend` | services/relay/src/idempotency.ts:164-174 | The send's own calldata can get conflict: a concrete run for any two requests in which a failed run's nullifier write replaces the send's record, and the send's calldata record runs out a second before its nullifier record would have. |
| `RelayerRuns.LateWriteReplaysOlderSend` | services/relay/src/idempotency.ts:164-174 | Or another send's hash: a concrete run for any request that is sent twice, in which the first send's submitted calldata write lands after the second send. |
| `RateLimit.RelayRateLimiter.CheckAndRecord` | services/relay/src/rateLimit.ts:90-127 | Throws, changing nothing, exactly on limits or a window that are not positive safe integers. Otherwise refuses a request exactly when one more would exceed some of its four counters, naming those and changing nothing; else writes the counters whose writes do not fail, and allows the request if none fails, or throws. |
| `RateLimit.RelayRateLimiter.RecordAll` | services/relay/src/rateLimit.ts:118-124 | The counters whose writes land become one more, and every counter keeps equal to the writes for its key in its bucket, within its limit, and outlives its bucket; it reports whether all landed. |
| `RateLimit.AcceptedAreCounted` | services/relay/src/rateLimit.ts:118-124 | Each counter is at least the accepted requests of its key and bucket, whichever writes of others failed. |
| `RateLimit.RelayRateLimiter.CurrentCount` | services/relay/src/rateLimit.ts:137-144 | Inside its bucket a counter is always read live, so the count read is the number of writes for its key in the bucket. |
| `RateLimit.WindowSpansTwoBuckets` | services/relay/src/rateLimit.ts:92-107 | The requests of one key in any interval of a window are at most those of two neighbouring buckets. |
| `RateLimit.AtMostTwiceTheLimit` | services/relay/src/rateLimit.ts:90-127 | In any reachable state any interval of one window accepted at most twice the limit, for every key, whichever writes failed. |
| `RateLimit.EachLimitHoldsTwice` | services/relay/src/rateLimit.ts:90-127 | The same limit by limit: in any interval of one window, for one chain and pool, at most twice the limit per IP was accepted from one IP, twice the limit per destination to one destination, twice the limit per nullifier for one nullifier, and twice the total limit. |
| `RateLimit.CountersCount` | services/relay/src/rateLimit.ts:92-124 | Each of the four counters counts the written requests of its bucket, chain and pool with its IP, destination or nullifier, or all of them. |
| `RateLimit.ServeAll` | services/relay/src/rateLimit.ts:90-127 | For any arrivals in nondecreasing time and any failing writes, the allowed ones keep at most twice the limit in every window, for every key; a configuration that is not positive allows none. |
| `Sha256Constants.ListedIsNthPrime` | packages/core/src/v12UnlinkableSchemas.ts:348-357 | The t-th listed number is prime and has exactly t primes below it, so the list is the first 64 primes. |
| `Sha256Constants.ConstantsAreCubeRoots` | packages/core/src/v12UnlinkableSchemas.ts:348-357 | Round constant t is the first 32 fractional bits of the cube root of the prime that has t primes below it (section 4.2.2 of FIPS 180-4). |
| `Sha256Constants.InitialIsSquareRoots` | packages/core/src/v12UnlinkableSchemas.ts:344-346 | Initial state word t is the first 32 fractional bits of the square root of the prime that has t primes below it (section 5.3.3 of FIPS 180-4). |
| `Sha256Spec.ZeroCountIsUnique` | packages/core/src/v12UnlinkableSchemas.ts:391-393 | The number of padding zero bits is the only one below 512 that leaves 64 bits in the last block (section 5.1.1 of FIPS 180-4). |
| `BitMasks.LowByte` | packages/core/src/v12UnlinkableSchemas.ts:396 | `& 0xff` is the remainder by 256, for numbers of any size. |
| `BitMasks.DisjointOr` | packages/core/src/v12UnlinkableSchemas.ts:403 | The bitwise or of two numbers without common bits adds their 32-bit words. |
| `Sha256Words.RotateWord` | packages/core/src/v12UnlinkableSchemas.ts:448-450 | The or of the two shifts, on signed numbers, is the right rotation of the 32-bit word. |
| `Sha256Words.AddFive` | packages/core/src/v12UnlinkableSchemas.ts:452-454 | Reducing five values with `(sum + value) >>> 0` is addition modulo 2^32. |
| `Sha256Words.ChWord` | packages/core/src/v12UnlinkableSchemas.ts:421 | The expression with `~`, `&` and `^` on signed numbers is Ch of the words. |
| `Sha256Words.MajWord` | packages/core/src/v12UnlinkableSchemas.ts:424 | The expression for maj is Maj of the words. |
| `Sha256Words.BigSigmaWord` | packages/core/src/v12UnlinkableSchemas.ts:420 | Three rotations joined by `^` are the big sigma functions of the word. |
| `Sha256Words.SmallSigmaWord` | packages/core/src/v12UnlinkableSchemas.ts:406 | Two rotations and a shift joined by `^` are the small sigma functions of the word. |
| `Sha256Bits.RotateRightBit` | packages/core/src/v12UnlinkableSchemas.ts:448-450 | Bit by bit: rotating right by n puts bit i + n (modulo 32) at bit i. |
| `Sha256Bits.ChBit` | packages/core/src/v12UnlinkableSchemas.ts:421 | Bit i of Ch is the second word's where the first has a one, and the third word's elsewhere. |
| `Sha256Bits.MajBit` | packages/core/src/v12UnlinkableSchemas.ts:424 | Bit i of Maj is the majority of the three bits. |
| `Sha256Bits.BigSigma0Bit` | packages/core/src/v12UnlinkableSchemas.ts:423 | Bit i of the big sigma of a is the parity of its bits i + 2, i + 13 and i + 22 (modulo 32). |
| `Sha256Bits.BigSigma1Bit` | packages/core/src/v12UnlinkableSchemas.ts:420 | Bit i of the big sigma of e is the parity of its bits i + 6, i + 11 and i + 25 (modulo 32). |
| `Sha256Bits.SmallSigma0Bit` | packages/core/src/v12UnlinkableSchemas.ts:406 | Bit i of the first small sigma is the parity of bits i + 7 and i + 18 (modulo 32) and, while it is below 32, bit i + 3. |
| `Sha256Bits.SmallSigma1Bit` | packages/core/src/v12UnlinkableSchemas.ts:407 | Bit i of the second small sigma is the parity of bits i + 17 and i + 19 (modulo 32) and, while it is below 32, bit i + 10. |
| `Sha256Bits.ScheduleSums` | packages/core/src/v12UnlinkableSchemas.ts:405-409 | A later word of the message schedule is the sum of four named earlier ones modulo 2^32. |
| `Sha256Bits.RoundInts` | packages/core/src/v12UnlinkableSchemas.ts:422-433 | The two new words of a round are sums of its eight terms and of six of them, modulo 2^32. |
| `Sha256Bits.RoundShifts` | packages/core/src/v12UnlinkableSchemas.ts:427-434 | The other six words of a round are the ones before them. |
| `Sha256Bits.CompressSums` | packages/core/src/v12UnlinkableSchemas.ts:435-442 | A block adds each of its last eight words to the word of the hash value in the same place. |
| `Sha256Padding.PadToLength` | packages/core/src/v12UnlinkableSchemas.ts:390-393 | The loop appends, in bits, a one and the standard's number of zeros. |
| `Sha256Padding.LengthBytes` | packages/core/src/v12UnlinkableSchemas.ts:394-397 | The eight pushed bytes are the 64-bit length, most significant first. |
| `Sha256Padding.PadBytes` | packages/core/src/v12UnlinkableSchemas.ts:390-397 | The padded bytes are, in bits, the padded message of section 5.1.1 of FIPS 180-4. |
| `Sha256Padding.WordOfBlock` | packages/core/src/v12UnlinkableSchemas.ts:402-403 | The four shifted and joined bytes stand for the block's 32-bit word. |
| `Sha256Text.LoadBlock` | packages/core/src/v12UnlinkableSchemas.ts:401-404 | The first sixteen words stand for the block's words. |
| `Sha256Text.ExpandSchedule` | packages/core/src/v12UnlinkableSchemas.ts:405-409 | All sixty-four words stand for the message schedule of section 6.2.2 of FIPS 180-4. |
| `Sha256Text.RunRounds` | packages/core/src/v12UnlinkableSchemas.ts:411-434 | The sixty-four passes of the loop compute the standard's rounds on the eight words. |
| `Sha256Text.AddIntoState` | packages/core/src/v12UnlinkableSchemas.ts:435-442 | The state words become the sums modulo 2^32. |
| `Sha256Text.CompressBlock` | packages/core/src/v12UnlinkableSchemas.ts:400-443 | One pass of the block loop is the standard's compression of the state. |
| `Sha256Text.HashPadded` | packages/core/src/v12UnlinkableSchemas.ts:400-443 | The block loop leaves the hash value of the whole padded message in the state. |
| `Sha256Text.Sha256Hex` | packages/core/src/v12UnlinkableSchemas.ts:388-446 | For every byte string shorter than 2^61 bytes the result is the SHA-256 of FIPS 180-4, as eight words of eight hexadecimal digits. |
| `Sha256Text.DigestWords` | packages/core/src/v12UnlinkableSchemas.ts:445 | The text holds the eight words in their order, eight digits each. |
| `Utf8Text.WellFormedIffScalars` | packages/core/src/v12UnlinkableSchemas.ts:359-369 | A string's surrogates are all paired if and only if its code points are Unicode scalar values. |
| `Utf8Text.JsPairIsPair` | packages/core/src/v12UnlinkableSchemas.ts:362-367 | The expression with `<< 10` is the code point of the surrogate pair. |
| `Utf8Text.PushPoint` | packages/core/src/v12UnlinkableSchemas.ts:370-383 | For every code point the pushed bytes, built with shifts, masks and ors, are those of the table in section 3 of RFC 3629. |
| `Utf8Text.Utf8Bytes` | packages/core/src/v12UnlinkableSchemas.ts:359-386 | The loop returns the encoding of the string's code points, with a lone surrogate encoded as itself. |
| `Utf8Text.DecodeEncode` | packages/core/src/v12UnlinkableSchemas.ts:359-386 | The decoder of section 4 of RFC 3629 returns the encoded code points, and refuses exactly the encodings that contain a surrogate. |
| `Utf8Text.EncodeDecode` | packages/core/src/v12UnlinkableSchemas.ts:370-383 | Whatever that decoder accepts is the encoding of what it returns: there is one encoding per code point sequence. |
| `Utf8Text.StrictRoundTrip` | packages/core/src/v12UnlinkableSchemas.ts:359-386 | A strict decoder accepts the bytes if and only if the string is well formed, and then gives the string back. |
| `Utf8Text.Utf8IsInjective` | packages/core/src/v12UnlinkableSchemas.ts:359-386 | Different strings have different bytes, also with lone surrogates. |
| `Utf8Text.Sha256String` | packages/core/src/v12UnlinkableSchemas.ts:332-334 | The text is the prefix and the SHA-256 of the string's UTF-8 bytes. |
| `CanonicalMeaning.SucceedsIffFinite` | packages/core/src/v12UnlinkableSchemas.ts:311-330 | The function throws if and only if some number in the value, at any depth, is not finite. |
| `CanonicalGrammar.CanonicalIsJson` | packages/core/src/v12UnlinkableSchemas.ts:311-330 | The text of every finite value, at every nesting, reads as that value by the grammar of RFC 8259: literal names, arrays and objects with their separators, each member once, and the texts of strings and numbers. |
| `CanonicalJson.SortMembers` | packages/core/src/v12UnlinkableSchemas.ts:328 | Sorting the entries only reorders them. |
| `CanonicalJson.SortSorted` | packages/core/src/v12UnlinkableSchemas.ts:328 | Sorting leaves the keys in order, for any consistent comparison. |
| `CanonicalMeaning.TextSplits` | packages/core/src/v12UnlinkableSchemas.ts:311-330 | Texts of values are self-delimiting inside other texts: whatever follows, one text cannot be read as another. |
| `CanonicalMeaning.EqualTextsAreSame` | packages/core/src/v12UnlinkableSchemas.ts:311-330 | Values with equal text are equal up to key order and signed zero, for all nestings. |
| `CanonicalMeaning.EqualTextsIffSame` | packages/core/src/v12UnlinkableSchemas.ts:311-330 | A value in which no object holds two different keys that compare equal has the text of another value if and only if the two are equal up to key order and signed zero. |
| `CanonicalMeaning.EqualBytesIffSame` | packages/core/src/v12UnlinkableSchemas.ts:336-338 | The same holds of the bytes that are hashed. |
| `CanonicalMeaning.IgnoresKeyOrderIffNoTies` | packages/core/src/v12UnlinkableSchemas.ts:328-329 | For every value: all values equal to it up to key order and signed zero have its text if and only if no object in it, at any depth, holds two different keys that compare equal. |
| `CanonicalMeaning.TiedHasTwin` | packages/core/src/v12UnlinkableSchemas.ts:328-329 | For a value that does hold such keys, a value equal to it up to key order, with another text, is constructed. |
| `WithdrawalCore.BuildsIffBuildable` | packages/core/src/proofs.ts:833-916 | The builder succeeds if and only if its input names nonzero commitments, addresses and a supported chain, conserves value, takes the exact fee, and carries a note and a 256-bit policy. |
| `WithdrawalAcceptance.BuildsIff` | packages/core/src/proofs.ts:833-916 | The builder's condition in its input's fields and in numbers, the fee as the floor of 33 ten-thousandths. |
| `WithdrawalAcceptance.BuiltIs` | packages/core/src/proofs.ts:833-916 | What the builder returns: the net amount, the hashes of the note, policy and context records written out field by field, and the twelve public inputs in order. |
| `WithdrawalCore.BuiltConserves` | packages/core/src/proofs.ts:797-831 | A built withdrawal splits the note exactly into net amount, fee and change; the fee is the floor of 33 ten-thousandths; the net amount is positive. |
| `WithdrawalRelay.ValidateFeePolicy` | services/relay/src/withdrawalCalldata.ts:1120-1151 | No error is pushed if and only if active and pending fees are within bounds, no pending fee starts before the deadline, and none is charged early. |
| `WithdrawalRelay.ValidatePreflight` | services/relay/src/withdrawalCalldata.ts:774-835 | Empty errors if and only if the change output is sound, conserves value, is the only output, and all recomputed hashes match; it throws only when nothing else is wrong and a field cannot be hashed. |
| `WithdrawalAcceptance.PreflightAcceptsIff` | services/relay/src/withdrawalCalldata.ts:774-835 | The preflight's condition spelled out: one sound change that conserves the note, and the hashes of its three records. |
| `WithdrawalRelay.ValidateUnifiedExit` | services/relay/src/withdrawalCalldata.ts:837-894 | Empty errors if and only if the call leaves no output, exits the whole note, and the recomputed hashes match. |
| `WithdrawalRelay.ValidatePolicyExit` | services/relay/src/withdrawalCalldata.ts:896-979 | Empty errors if and only if selector, deadline, relayer and bounds agree with the request and the recomputed hashes are the last public inputs. |
| `WithdrawalRelay.ValidateBoundedExit` | services/relay/src/withdrawalCalldata.ts:571-618 | Empty errors if and only if the recomputed hashes are the last public inputs. |
| `WithdrawalRelay.ValidateV11` | services/relay/src/withdrawalCalldata.ts:187-404 | Empty errors if and only if the twelve public inputs repeat the call and the request, the amounts are supported, the bounds hold, and the hashes of its kind of exit match; throws exactly when those cannot be computed. |
| `WithdrawalRelay.ValidateV12` | services/relay/src/withdrawalCalldata.ts:407-569 | The same for v1.2 calls: ten public inputs, a present sealed output note, and its own hashes. |
| `WithdrawalRelay.ValidateWithdrawalRelayCalldata` | services/relay/src/withdrawalCalldata.ts:172-405 | A call is allowed if and only if the relay's acceptance predicate holds; the decoded call is returned, rewritten as an output-note call in v1.2 mode. |
| `WithdrawalAcceptance.V12AcceptedIff` | services/relay/src/withdrawalCalldata.ts:407-569 | The relay's acceptance of a v1.2 call, spelled out over its calldata and the request: every public input, the user's bounds, the fee, the sealed ciphertext, and both hashes of their records. |
| `WithdrawalAcceptance.AcceptedV12Pays` | services/relay/src/withdrawalCalldata.ts:407-569 | In numbers: an accepted v1.2 call pays the floor of the exit times the active rate, at most one hundredth of it, within the user's maximum fee and minimum net amount; the exit is a mainnet denomination, and nullifier, destination and output commitment are not zero. |
| `WithdrawalAcceptance.FeePolicyAllowsIff` | services/relay/src/withdrawalCalldata.ts:1120-1151 | The fee policy in numbers: rates from 0 to 100, no pending rate that starts by the deadline, and no fee that is the pending rate's before it starts. |
| `WithdrawalAcceptance.ExpectedFeeIs` | services/relay/src/withdrawalCalldata.ts:1112-1114 | The fee owed is the floor of the exit times the active rate, or times 33, over ten thousand. |
| `WithdrawalAcceptance.BoundedExitAcceptedIff` | services/relay/src/withdrawalCalldata.ts:571-618 | Acceptance of a bounded exit, spelled out over its calldata and the request. |
| `WithdrawalAcceptance.PolicyExitAcceptedIff` | services/relay/src/withdrawalCalldata.ts:896-979 | The same of a relayer-policy exit, with its relayer, deadline and bounds in the hashed policy. |
| `WithdrawalAcceptance.UnifiedExitAcceptedIff` | services/relay/src/withdrawalCalldata.ts:837-894 | The same of a change call that leaves nothing. |
| `WithdrawalAcceptance.ChangeAcceptedIff` | services/relay/src/withdrawalCalldata.ts:187-404 | The same of any other change call: the change is a mainnet denomination with a commitment and a short ciphertext, whose note record and context record the last two public inputs hash. |
| `WithdrawalAcceptance.OtherCalldataIsRefused` | services/relay/src/withdrawalCalldata.ts:981-1058 | No other calldata is accepted. |
| `WithdrawalAcceptance.DecodedCallIs` | services/relay/src/withdrawalCalldata.ts:981-1110 | The decoded call repeats the calldata: selector, inputs, bounds, ciphertext and policy of each kind. |
| `WithdrawalIndexer.ValidateChangeBinding` | services/indexer/src/encryptedNotes.ts:419-558 | No errors if and only if the change output is sound, its event matches, and the recomputed hashes are the given ones; limitations are listed exactly when the proof context is not fully given. |
| `WithdrawalIndexer.ValidateOutputBinding` | services/indexer/src/encryptedNotes.ts:596-749 | No errors if and only if readiness, public inputs, output note and event hold and the recomputed hashes are the last two public inputs. |
| `WithdrawalAcceptance.BindsChangeIff` | services/indexer/src/encryptedNotes.ts:419-558 | When the indexer binds a change, spelled out over its fields, outputs, event and the two hashed records. |
| `WithdrawalAcceptance.BindsOutputIff` | services/indexer/src/encryptedNotes.ts:596-749 | When the indexer binds a v1.2 output, spelled out the same way. |
| `WithdrawalAcceptance.ReadinessIff` | services/indexer/src/encryptedNotes.ts:755-779 | What readiness evidence approves: a known runtime on its own chain and pool, with an approved hash. |
| `WithdrawalBinding.BuiltIsAcceptedIff` | packages/core/src/proofs.ts:833-916 | The relay accepts a built partial withdrawal, with no record the builder hashed colliding with the one the relay rebuilds in its place, if and only if it is built for the bounded selector, its amounts are supported, its note is at most 2048 bytes, its bounds are kept, and its policy is the contract's: no relayer, no deadline, default domain and version. |
| `WithdrawalBinding.BuiltIsAccepted` | services/relay/src/withdrawalCalldata.ts:172-405 | The forward direction of that, for any hashes at all. |
| `WithdrawalBinding.PreflightAgreesWithIndexer` | services/indexer/src/encryptedNotes.ts:419-558 | On any input: a change on supported denominations that passes the relay's preflight and matches its event, if given, is bound by the indexer, whatever part of the context it is given; given all of it the two checks are equivalent, for a policy that can be hashed and is the expected one, if one is expected. |
| `WithdrawalBinding.AcceptedChangeIsBoundIff` | services/indexer/src/encryptedNotes.ts:419-558 | A private-change call the relay accepts is bound by the indexer, with the two note records not colliding, if and only if the indexer is given the context shape the relay used. |
| `WithdrawalBinding.FeePolicyChangeIsNotBound` | services/indexer/src/encryptedNotes.ts:419-558 | For any hashes there is a change, accepted under a fee policy and described without a shape, that the indexer does not bind, unless the two shape tags or the two note records have one hash. |
| `WithdrawalBinding.BuiltIsBound` | services/indexer/src/encryptedNotes.ts:419-558 | From builder through relay to indexer: a built, relayable withdrawal is bound under the indexer's defaults, for any hashes. |
| `WithdrawalBinding.AcceptedOutputIsBound` | services/indexer/src/encryptedNotes.ts:596-749 | Every v1.2 call the relay accepts is bound without errors, given its event and readiness evidence, for any hashes. |
| `WithdrawalBinding.AcceptedConserves` | services/relay/src/withdrawalCalldata.ts:206-303 | Every accepted v1.1 call splits the note into net, fee and change with a fee of at most one hundredth of the exit, a net amount and fee within the user's bounds, and a change that is zero or a supported note. |
| `WithdrawalIdentity.AcceptedIsHashed` | services/relay/src/withdrawalCalldata.ts:407-979 | The last two public inputs of every accepted call, of any of the five kinds, are the hashes of one proof context record and of one note record read off the call. |
| `WithdrawalIdentity.ContextDeterminesCall` | services/relay/src/withdrawalCalldata.ts:407-979 | Two accepted calls of any kind have the same proof context hash, without a collision of their contexts, policies, notes or ciphertexts, if and only if they withdraw the same: same kind, context shape, chain, pool, root, nullifier, destination, gross, fee, bounds, relayer, deadline, note amount, output commitment and ciphertext. Their note hashes are then equal too. |
| `WithdrawalIdentity.KindsAreSeparate` | services/relay/src/withdrawalCalldata.ts:172-979 | No proof context hash accepted for one kind of call (private change, unified exit, bounded exit, relayer-policy exit, v1.2 output) is accepted for another, unless the two contexts or the two notes collide. |
| `WithdrawalIdentity.ContextDeterminesInputs` | services/relay/src/withdrawalCalldata.ts:172-979 | Two accepted calls with one proof context hash and no collision agree on all ten public inputs in v1.2, and on all twelve but the spent commitment in v1.1. |
| `WithdrawalIdentity.SpentCommitmentIsFree` | services/relay/src/withdrawalCalldata.ts:206-404 | The relay's checks say no more of the spent commitment than that it is not zero: an accepted v1.1 call with another one is accepted with the same hashes. |
| `Denominations.NormalizeDenominations` | packages/core/src/denominations.ts:124-142 | Returns the distinct denominations in descending order, or the error for an empty list or one that is not positive. |
| `Denominations.DescendingIsUnique` | packages/core/src/denominations.ts:141 | There is exactly one descending list of given numbers, so the normal form does not depend on order or repetition. |
| `Denominations.SplitIntoFixedDenominations` | packages/core/src/denominations.ts:40-72 | The nested loops return the greedy notes, or throw for a bad amount, bad denominations, too many notes or dust, in that order. |
| `Denominations.SplitsIff` | packages/core/src/denominations.ts:40-72 | Each error of a split has its condition, in the source's order; otherwise the greedy notes are returned. |
| `Denominations.GreedyConserves` | packages/core/src/denominations.ts:53-65 | The notes and the dust always add up to the amount. |
| `PublicExits.SpendablePublicExitAmounts` | packages/core/src/denominations.ts:81-102 | The exits offered for a note are exactly those the exit assertion accepts, without the full exit when that is not allowed, in descending order. |
| `PublicExits.OfferedIff` | packages/core/src/denominations.ts:81-122 | An exit is accepted if and only if note and amount are denominations, the note covers the amount, and what is left is nothing or a denomination; it is offered if and only if it is accepted, and the whole note only on request. |
| `PublicExits.ExitRefusals` | packages/core/src/denominations.ts:104-122 | Each refusal has its condition. |
| `MainnetDenominations.MainnetIsNormalized` | packages/core/src/denominations.ts:22-33 | The mainnet list normalizes to itself from the largest. |
| `MainnetDenominations.AddCoin` | packages/core/src/denominations.ts:22-33 | Adding any one denomination to an amount adds at most one note to its greedy split. |
| `MainnetDenominations.GreedyUsesFewestNotes` | packages/core/src/denominations.ts:40-72 | No list of mainnet notes with the same sum is shorter than the greedy split. |
| `MainnetDenominations.SuccessfulSplitPays` | packages/core/src/denominations.ts:40-72 | A successful mainnet split sums to the amount with at most 32 mainnet notes, and no split is shorter. |
| `MainnetDenominations.SplitSucceedsIffPayable` | packages/core/src/denominations.ts:40-72 | The mainnet split succeeds if and only if some list of at most 32 mainnet notes sums to the amount. |
| `MainnetDenominations.SplitSucceedsIffMultiple` | packages/core/src/denominations.ts:40-72 | Equivalently: if and only if the amount is a positive multiple of 0.005 ETH whose least number of notes is at most 32; that number is read off its decimal digits, is attained by a payment, and no payment uses fewer notes. |
| `PoolAccounting.FeeSplitsExit` | packages/core/src/fees.ts:40-69 | A charged fee and the net amount add up to the exit, the fee is the floor of its share, and the user's bounds hold. |
| `PoolAccounting.ChargesIff` | packages/core/src/fees.ts:40-69 | A fee is charged if and only if exit, rate and maximum rate are in range, the rate is at most the maximum, and fee and net amount keep the user's bounds. |
| `PoolAccounting.SplittingKeepsFee` | packages/core/src/fees.ts:56-57 | Splitting an exit into supported denominations never changes the total fee, for any rate. |
| `PoolAccounting.BalancesAddUp` | packages/core/src/notes.ts:18-26 | The private balances of all owners add up to the value of the unspent notes. |
| `PoolAccounting.SpendTakesAmount` | packages/core/src/notes.ts:28-30 | Marking one unspent note spent takes exactly its amount off the unspent value when nullifiers are distinct. |
| `PoolAccounting.RunsConserve` | packages/core/src/notes.ts:32-39 | Over every run of deposits, full and partial exits and admitted sweeps: deposited minus withdrawn net minus swept equals unspent notes plus unswept fees. |
| `PoolAccounting.EveryRunIsSolvent` | packages/core/src/notes.ts:32-39 | From an empty pool the solvency check passes after every run. |
| `PoolAccounting.SweepKeepsSolvencyIffAdmitted` | packages/core/src/fees.ts:109-119 | Sweeping an amount leaves a conserving pool solvent if and only if the sweep check admits it. |
| `NumberText.PaddedIsFixed` | packages/core/src/v12UnlinkableSchemas.ts:445 | `toString(16).padStart(width, "0")` is the fixed-width text of every number that fits; the same in base ten. |
| `NumberText.NumberOfFixed` | apps/web/src/product/shieldedTransfersHelpers.ts:1863-1869 | Fixed-width digits read back as the number. |
| `NumberText.TextOfNumber` | apps/web/src/product/shieldedTransfersHelpers.ts:1759-1778 | Digits without a leading zero are the text of their number. |
| `EthDecimal.ParseOfFormat` | apps/web/src/product/shieldedTransfersHelpers.ts:1849-1861 | Parsing the printed decimal of any positive wei amount returns that amount. |
| `EthDecimal.ParsesAsScaled` | apps/web/src/product/shieldedTransfersHelpers.ts:1759-1778 | Every accepted decimal, canonical or not, means its digits without the point, scaled by its places: wei times 10^places is that number times 10^18. A text is accepted if and only if it is digits with at most 18 places and its number is positive. |
| `EthDecimal.FormatsIff` | apps/web/src/product/shieldedTransfersHelpers.ts:1849-1853 | A wei text is accepted if and only if it is digits. |
| `EthDecimal.FormatOfParse` | apps/web/src/product/shieldedTransfersHelpers.ts:1759-1778 | Printing what any accepted decimal means gives a canonical decimal of the same amount. |
| `EthDecimal.CanonicalIsPrinted` | apps/web/src/product/shieldedTransfersHelpers.ts:1849-1861 | A canonical decimal is printed as itself. |
| `EthDecimal.CanonicalIsUnique` | apps/web/src/product/shieldedTransfersHelpers.ts:1759-1778 | Each positive amount has exactly one canonical decimal. |
| `WithdrawCalldata.BytesInPlace` | apps/web/src/product/shieldedTransfersHelpers.ts:1871-1877 | A dynamic byte string decodes, at its offset, to the bytes given, for every length. |
| `WithdrawCalldata.WordsInPlace` | apps/web/src/product/shieldedTransfersHelpers.ts:1879-1881 | An array of words decodes, at its offset, to the words given. |
| `WithdrawCalldata.DecodesIffAmountFits` | apps/web/src/product/shieldedTransfersHelpers.ts:1883-1940 | Decoding the calldata by the Solidity ABI specification returns proof, public inputs, nullifier, destination and amount if and only if the amount is below 2^256, for every proof length. |
| `WithdrawCalldata.EncodesIff` | apps/web/src/product/shieldedTransfersHelpers.ts:1883-1922 | Arguments are encoded if and only if the proof is whole bytes, there are twelve 32-byte inputs, nullifier and destination have their widths, and the amount is a positive integer; the text starts with the withdraw selector. |
| `WithdrawCalldata.HeadIsInPlace` | apps/web/src/product/shieldedTransfersHelpers.ts:1923-1940 | The head holds both offsets, the nullifier, the destination in the low bytes of its word, and the amount. |

## Left out

- Keccak, Poseidon, AES-GCM and Groth16: hashes are parameters and proofs are byte strings. A record is hashed as a
  value, so that a collision is of two records; their ABI encoding is not modelled.
- viem's ABI and event decoding, address checksums and its range errors: the models start from decoded records.
- The parsing of v1.2 output-note envelopes: whether a ciphertext is a valid envelope is one predicate, shared by the
  relay and the indexer, whose two copies of that code are the same.
- `JSON.stringify`'s escaping and number printing: the properties needed of them are hypotheses.
- Array.prototype.sort and localeCompare themselves: sorting is a stable sort, for any consistent comparison.
- The order of the error list a validator returns: the checks are grouped, and emptiness is what is proved.
- Regular-expression checks of hex strings, including the checks that decoded public inputs are 32 bytes.
- Whitespace trimming of user input: texts are taken after it.
- RPC calls, fetch, Cloudflare bindings, environment parsing and the on-chain checks of the relayer: in the queue they
  are a step that may fail.
- The relayer's fee policy lookup and gas estimate: they can only refuse a request.
- The timestamp fields of idempotency records, which no decision reads.
- RateLimit.RelayRateLimiter.RecordAll: a write that fails has not landed and does not land later, and requests are
  handled one after the other.
- Key-value stores that lag, clocks that differ between machines, and chain reorganisations.
- Rounding of leaf indexes above 2^53 when no Merkle index is kept.
- JavaScript numbers that are not integers where an integer is meant: the checks that refuse them.
- SparseMerkle.BuildThreeWays: takes a hash with outputs in the field, as the core requires; other hashes throw in the
  core.
- Utf8Text.Sha256String: strings of 2^55 code units or more, which no JavaScript engine holds.
- Sha256Text.Sha256Hex: byte strings of 2^61 bytes or more, which FIPS 180-4 does not cover.
- WithdrawCalldata.DecodesIffAmountFits: proofs of 2^256 digits or more, which no string holds.
- The readiness, deployment, custody, gas-evidence, source-verification and promotion validators of the core: lists of
  independent field checks.
- The Solidity contracts and Circom circuits: they are not part of this model.
- The HTTP response bodies beyond status, path and missing ranges.
