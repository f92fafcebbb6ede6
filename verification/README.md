# nexir-mvcc-core: a verified model

A Dafny model of the multi-version concurrency-control engine, its ordered in-memory store and its
binary record codec, with proofs about single calls and about whole runs. Check it with
`dafny verify dfyconfig.toml`.

## What is modelled

- **Store.** Committed versions `(key, commit_ts) -> value or tombstone`, at most one intent per key,
  and a redundant key index. `Backend.InMemoryBackend` keeps the three collections as fields that its
  methods update; range lookups are sorted slices under the lexicographic order of byte strings.
  `History` is the naive reading of the same data, a set of versions per key in no order, and
  every lookup is specified against it.
- **Engine.** `Engine.MvccEngine` has the source's validation loops, early error returns, accumulators
  and garbage-collection loops. Each mutator is proved to follow one function of `Transitions`,
  with the error it reports first; a rejected call leaves versions, intents and index as they were.
  In terms of the plain version sets, `Acceptance` says exactly when those functions accept, `Errors` which
  error each rejection reports and with what in it, and `Effects` what an accepted call leaves behind.
- **Garbage collection.** `Gc` says what is garbage at a safe point, what a partial collection may
  remove, what one budgeted step does, and what a finished pass reaches, under any budget, within how
  many calls. `GcLaws` proves that a step's budget leaves it no choice, `Passes` what a pass achieves
  while other steps run between its calls, and `Retention` restates what goes and what stays in plain
  terms. `Planner` treats per-key plans, page by page to the end.
- **Runs.** A run is any interleaving of the engine's mutators and collections, successful or not,
  from an empty store. Beside the store it carries a log of every successful write (which collection
  never touches), the largest safe point used, and the tombstones that were collapsed ("graves").
  `Theorems`, `Passes`, `Counter`, `Contract` and `Batches` prove what holds after every run; `Schedule` proves
  that executing the engine's own methods on any schedule produces such a run.
- **Codec.** `Codec` gives the byte layout once, as a function of the record, and proves it equal to a
  description by byte positions and literal tags. The encoders push onto a buffer and the decoders
  advance an offset, as in the source.

## The collapse contract

`GcOptions` and `KeyGcOptions` allow a final tombstone to be removed when the caller opts in, under a
promise about later calls (src/engine.rs:33-36). `Runs.Respects` is that promise, for one step: no
transaction starts below a collapsed tombstone of a key that it locks, and no batch writes at or below
one. It is weaker than what docs/HISTORY_RETENTION_AND_GC.md:43-47 asks, which speaks of the safe
point, not of the tombstone of one key. A run that keeps it is `Lawful`. Runs in which no step
may collapse owe nothing and bury nothing (`Theorems.NoCollapseIsLawful`), so every theorem about lawful
runs holds there without a condition. `Contract` shows, for both halves of the promise, that the engine
does not enforce it and what happens exactly when it is broken on a collapsed key with nothing stored.
A batch of a value leaves reads and log in agreement if and only if it is above the collapsed tombstone
(`Contract.BatchBoundary`). A transaction leaves the invariant of runs standing if and only if it starts
at or above it (`Contract.TransactionBoundary`): started below, it breaks first-committer-wins if it
commits above the tombstone, and reads if it commits a value below. On every other collapsed key the
engine enforces the promise itself (`Contract.ElsewhereEnforced`).

## Reading order

`Types`, `Arithmetic`, `Bytes`, `Ordered`, `History`, `Backend`, `Transitions`, `Gc`, `GcLaws`, `Planner`,
`Engine`, `Runs`, `LogInvariant`, `Theorems`, `Passes`, `Retention`, `Acceptance`, `Errors`, `Batches`,
`Effects`, `Counter`, `Contract`, `Schedule`; `Codec` stands alone.

## Model

| member | source | states |
|---|---|---|
| Theorems.RunRefinesLog | src/engine.rs:135-159 | after every lawful run, a read of any key at any time at or above the largest safe point used returns the value of the logged write with the greatest commit timestamp at or before it; with its version too, except that a write at or below the key's last collapsed tombstone shows no version, so a key recreated above it has every guarantee back |
| Theorems.NoCollapseRefinesLog | src/engine.rs:149-159 | where no step may collapse, the same holds of versioned reads in every run, with no condition on callers |
| LogInvariant.NextKeepsInv | src/engine.rs:188-1003 | every step of every kind that keeps the collapse contract keeps the invariant: stored versions are logged, each logged write is stored, superseded at or below the safe point, or at or below a collapsed tombstone, intents start at or above every logged write of their key, and transactions are serial; and no log entry changes |
| LogInvariant.RunInv | src/engine.rs:188-1003 | that invariant holds at every moment of every lawful run |
| Runs.StoreInvStep | src/engine.rs:219-240 | every step, lawful or not, keeps: an intent is at or above every version of its key and has no minimum commit timestamp |
| Theorems.FirstCommitterWins | src/engine.rs:219-227 | of two logged writes to one key, the second by a transaction, the first is outside the interval (start, commit] of the second; two transactions that wrote a common key have disjoint intervals |
| Theorems.PrewrittenCanCommit | src/engine.rs:409-488 | once each key was prewritten, by itself or in a batch, and after any steps but the transaction's own commit or abort of that key, committing the keys at any timestamp above the start succeeds, as a batch and one by one |
| Theorems.LockStays | src/engine.rs:246-328 | no step but its transaction's own commit or abort removes an intent |
| Theorems.CommitErrorsUnreachable | src/engine.rs:273-297 | in no run does a commit, single or batch, report a timestamp that is too early, taken or too old |
| Theorems.HistoryFreezes | src/engine.rs:149-159 | once a key has a version at or after r, the value read at r never changes again while safe points stay at or below r; the version read stays too, unless a later collapse of the key is at or above it, and always if the key's last collapse is the same |
| Theorems.NoCollapseFreezes | src/engine.rs:149-159 | the same for versioned reads, in every run without collapse |
| Theorems.LogGrows | src/engine.rs:588-591 | no lawful run loses or changes a logged write |
| Theorems.LaterIsNewer | src/engine.rs:564-575 | a write logged later is newer than everything its key ever held, although collection may have removed it since |
| Theorems.VersionGuardIsExact | src/engine.rs:644-674 | a version guard passes only on the exact latest version of an unlocked key |
| Theorems.VersionCasExclusive | src/engine.rs:598-727 | two guarded batches with the same expected version of a key they guard and write cannot both succeed, except on expected absence when the first one's write, or a newer one, was collapsed between them |
| Theorems.NoCollapseSwapsOnce | src/engine.rs:598-727 | without collapse, at most one of any two such batches succeeds |
| Theorems.NoCollapseIsLawful | src/engine.rs:33-37 | runs in which no step may collapse keep the collapse contract and bury nothing |
| Counter.NoLostIncrements | examples/guarded_incr.rs:25-54 | under every interleaving of read-then-guarded-write clients, guarding on version or on value, the counter is its initial value plus the number of successful batches |
| Counter.GuardHoldsCurrent | src/engine.rs:657-683 | when such a batch succeeds, the key's current value is the one its client read, however long ago |
| Counter.UnwrittenStays | src/engine.rs:804-1003 | a step that does not write a key, collections included, leaves its current value |
| Contract.GraveBoundary | src/engine.rs:33-37 | on a collapsed key with nothing stored, a direct batch of a value is accepted at any timestamp; reads keep agreeing with the log and the log keeps the key's entries if and only if the timestamp is above the tombstone |
| Contract.BatchBoundary | src/engine.rs:33-37 | the same if and only if for every direct or guarded batch that writes a value to such a key, whatever else it writes |
| Contract.TransactionBoundary | src/engine.rs:188-309 | on such a key every prewrite is accepted and its commit at any later timestamp; the run invariant outlives them if and only if the start is at or above the tombstone; a start below it breaks first-committer-wins, the logged tombstone, or reads, depending on whether the commit is above, at or below the tombstone |
| Contract.ElsewhereEnforced | src/engine.rs:219-227 | on any other collapsed key, locked or with a version stored, the engine enforces the contract itself: no batch at or below the tombstone succeeds and no lock starts below it |
| Contract.BelowGrave | docs/HISTORY_RETENTION_AND_GC.md:40-47 | a value written below the collapsed tombstone is read at every permitted time where the log has the key deleted |
| Contract.GraveReachable | src/engine.rs:898-952 | such a state is reached in two calls, a delete and a collapsing collection |
| Contract.SwapTwiceReachable | src/engine.rs:598-727 | the exception of version guards is real: a lawful run in which two guarded batches on expected absence both succeed, the first one's deletion collapsed in between |
| Acceptance.PrewriteAccepts | src/engine.rs:195-240 | a prewrite is accepted if and only if it replays the transaction's own identical intent, or the key is unlocked with no version after the start |
| Acceptance.CommitAccepts | src/engine.rs:253-297 | a commit is accepted if and only if its transaction holds the lock and it is above the start, at or above the minimum and above every version |
| Acceptance.DirectBatchAccepts | src/engine.rs:538-576 | a direct batch is accepted if and only if it is not empty, its keys are distinct and unlocked, and each key's versions are all older |
| Acceptance.GuardAccepts | src/engine.rs:619-684 | a guard passes if and only if its read is before the commit, the key is unlocked, nothing is newer than the read, and the latest version or the current value is the expected one |
| Acceptance.GuardedBatchAccepts | src/engine.rs:604-711 | a guarded batch is accepted if and only if the direct conditions hold, it has guards, and all are met |
| Errors.FirstFailedGuard | src/engine.rs:618-684 | the error of a guarded batch is the fault of the first guard that is not met, before any write is looked at: timestamps, lock holder, newest version, expected and stored version as the plain version set has them |
| Errors.PrewriteErrors | src/engine.rs:195-227 | each error of a prewrite is reported if and only if its condition on locks and versions holds, with the lock's holder |
| Errors.CommitErrors | src/engine.rs:253-297 | each error of a commit is reported if and only if its condition holds and none checked before it, with the timestamps the condition speaks of |
| Errors.PrewriteBatchErrors | src/engine.rs:340-387 | each error of a prewrite batch, if and only if: empty, first repeated key, the fault of the first write that would fail alone, or a partial replay |
| Errors.CommitBatchErrors | src/engine.rs:419-474 | each error of a commit batch, if and only if: empty, first repeated key, timestamps, or the fault of the first key that would fail alone |
| Errors.AbortBatchErrors | src/engine.rs:499-508 | an abort batch is refused if and only if a key repeats, and names the first |
| Errors.GuardFaultIs | src/engine.rs:619-684 | each error of a guard is reported if and only if its condition holds and none checked before it; a version mismatch carries what the guard expected and the newest version stored |
| Errors.DirectBatchErrors | src/engine.rs:538-576 | each error of a direct batch, if and only if: empty, first repeated key, or the first write that is locked or not above the newest version, with holder or version |
| Errors.GuardedBatchErrors | src/engine.rs:604-711 | each error of a guarded batch, if and only if, in order: empty, no guards, first repeated key, first failed guard, first failed write |
| Effects.AbortEffect | src/engine.rs:314-328 | an abort takes away exactly the transaction's own intent of the key, and changes nothing else |
| Effects.AbortBatchEffect | src/engine.rs:493-527 | an abort batch takes away exactly the transaction's own intents of its keys; refused, it changes nothing |
| Effects.AbortBatchIsSequence | src/engine.rs:510-526 | an abort batch equals single aborts in any order |
| Effects.AbortFrees | src/engine.rs:311-328 | right after an abort, single or batch, any transaction may prewrite the key and any batch may write it, subject only to the versions already there |
| Effects.AbortUndoesPrewrite | src/engine.rs:229-239 | aborting a fresh prewrite gives back the store it started from |
| Effects.AbortUndoesPrewriteBatch | src/engine.rs:389-406 | aborting a fresh prewrite batch gives back the store it started from |
| Effects.PrewriteEffect | src/engine.rs:229-239 | an accepted prewrite adds the intent it was asked for, unless it is there, and nothing else |
| Effects.PrewriteBatchEffect | src/engine.rs:389-406 | an accepted prewrite batch leaves each write's intent in place with its value, and other intents as they were |
| Effects.CommitEffect | src/engine.rs:299-308 | a commit adds one version with the intent's value and removes that intent, and nothing else |
| Effects.CommitBatchEffect | src/engine.rs:476-487 | a commit batch adds one version for each key with its intent's value and removes those intents, and nothing else |
| Effects.WriteBatchEffect | src/engine.rs:578-592 | a direct or guarded batch stores each write's value at its timestamp, and changes no other version and no intent |
| Effects.CommitShowsPrewritten | src/engine.rs:242-309 | in every run, whatever comes between, a commit shows exactly the prewritten value or deletion to every reader from its timestamp on, changes no earlier read, and frees the key |
| Batches.CommitBatchIsSequence | src/engine.rs:412-488 | a commit batch succeeds exactly when single commits in any order all do, and reaches the same store |
| Batches.PrewriteBatchIsSequence | src/engine.rs:334-407 | the same for prewrites when none or all of the keys carry the transaction's intent; a partial mix is rejected |
| Batches.BatchIsAtomic | src/engine.rs:578-592 | after a mutation, a reader at or after the commit timestamp sees every version of it, an earlier reader and other keys see what they saw before |
| Gc.PrunePreservesReads | docs/HISTORY_RETENTION_AND_GC.md:40-50 | a partial collection changes no read at or above the safe point; without collapse not even its version |
| Gc.PruneTransitive | src/engine.rs:1028-1036 | partial collections at one safe point compose |
| Gc.CollectedPrunes | src/engine.rs:1005-1023 | the one-shot collection is a partial collection that leaves no garbage |
| Retention.CollectedIs | src/engine.rs:844-981 | the one-shot collection in plain terms: versions above the safe point and the newest at or below it stay with their values; that one goes only if the caller opted in, it is a deletion with nothing newer, and the key is unlocked |
| Retention.GarbageIs | src/engine.rs:844-981 | what is garbage, and what is obsolete, in the same plain terms, both directions |
| Retention.DeletedKeyVanishes | src/engine.rs:898-937 | an unlocked key whose newest version is a deletion at or below the safe point has no version left after a collapsing collection |
| Retention.RemovedWasGarbage | src/engine.rs:849-981 | whatever any collecting step removes was superseded at or below the safe point, or is a final tombstone it may collapse, which takes the whole key with it |
| Retention.LockedKeyKept | src/engine.rs:886-896 | a locked key keeps its intent, the version seen at the safe point and every newer one through every collecting step, collapse or not |
| Gc.GcStepNormalises | src/engine.rs:832-991 | one budgeted step keeps every key below its cursor in normal form, and the last step leaves the one-shot collection |
| Gc.GcStepProgress | src/engine.rs:985-991 | an unfinished step used up one call of the bound |
| Gc.GcPassCollects | src/engine.rs:1023-1037 | under any valid budget a finished pass reaches the one-shot collection, removes as many versions as there was garbage, and takes at most floor(V/max_versions) + floor(max(K-1,0)/max_keys) + 1 calls |
| GcLaws.GcStepKeepsReads | src/engine.rs:804-1003 | one step from any cursor under any budget changes no permitted read; a key that loses its keeper loses its whole history and already read as absent |
| GcLaws.GcStepAccounts | src/engine.rs:821-824 | versions removed is the exact drop and within budget, keys scanned is within budget, versions scanned is at most keys scanned plus versions removed, intents are unchanged |
| Retention.GcStepCounts | src/engine.rs:832-1002 | the counts of one step exactly: locked keys among those scanned, versions gone, and one scanned version for each scanned key with a version at or below the safe point and for each superseded version removed |
| GcLaws.GcStepDeterministic | src/engine.rs:804-1003 | what is said of one step determines the store it reaches, its cursor and all its counts |
| Passes.PassCollects | src/engine.rs:801-1003 | in every lawful run, once the calls of an incremental pass report done, every version that was obsolete in the store where the pass began is gone for good, whatever mutators and collections at no higher safe point ran between the calls and whatever budget each had |
| Passes.NoCollapsePassCollects | src/engine.rs:1018-1022 | without collapse, in every run, that is all the garbage there was |
| Passes.GoneStaysGone | src/engine.rs:564-575 | no step of a lawful run stores a removed version again |
| Passes.NextKeepsDoomed | src/engine.rs:854-981 | a version obsolete at a safe point stays obsolete or goes, through every step but a collection at a higher one |
| Planner.PageIsSound | src/engine.rs:728-799 | applying one plan is a partial collection of its key; a complete plan leaves the key collected, an incomplete one leaves exactly the versions it did not name |
| Retention.PlanSays | src/engine.rs:751-798 | a plan in plain terms: the newest superseded versions, newest first, none skipped; complete if and only if the page is not full; it names the tombstone if and only if it is complete, the caller opted in, and it is a final tombstone of an unlocked key |
| Planner.PlanningEnds | docs/HISTORY_RETENTION_AND_GC.md:34-38 | however often a key is planned and the plan applied, of n obsolete versions in pages of m at most floor(n/m)+1 plans can be made, and exactly the last of that many is complete |
| Planner.PlanningDrains | src/engine.rs:728-740 | after every page all permitted reads are unchanged and only garbage of the key is gone; after a complete page the key is collected |
| Planner.PlannerAgreesWithGc | src/engine.rs:1023-1054 | planning to completion leaves the key with the versions and values the full collection leaves it, and every other key and every intent as they were |
| Engine.MvccEngine.Prewrite | src/engine.rs:188-240 | follows the transition, first error included; an error changes nothing |
| Engine.MvccEngine.Commit | src/engine.rs:246-309 | follows the transition: the version is created and the intent dropped together, or nothing changes |
| Engine.MvccEngine.Abort | src/engine.rs:314-328 | removes the transaction's own intent, and otherwise nothing |
| Engine.MvccEngine.FindDuplicate | src/engine.rs:344-349 | finds the first key that repeats an earlier one, if and only if there is one |
| Engine.MvccEngine.ValidatePrewrites | src/engine.rs:351-387 | reports the error of the first write in conflict; its count tells apart all, none and some of the intents existing |
| Engine.MvccEngine.PrewriteBatch | src/engine.rs:334-407 | follows the transition: all intents at once, a full replay, or an error and no change |
| Engine.MvccEngine.ValidateCommits | src/engine.rs:437-482 | reports the error of the first key in conflict, or builds the version and the release of every key in order |
| Engine.MvccEngine.CommitBatch | src/engine.rs:412-488 | follows the transition: every version at the timestamp and every intent gone, or an error and no change |
| Engine.MvccEngine.AbortBatch | src/engine.rs:493-527 | drops exactly the transaction's own intents among the keys |
| Engine.MvccEngine.ValidateGuards | src/engine.rs:618-684 | reports the error of the first guard that fails, if and only if one fails |
| Engine.MvccEngine.ValidateWrites | src/engine.rs:686-711 | reports the error of the first write that is locked or too old, if and only if there is one |
| Engine.MvccEngine.ApplyDirectBatch | src/engine.rs:533-592 | follows the transition: every write at the timestamp, or an error and no change |
| Engine.MvccEngine.ApplyGuardedBatch | src/engine.rs:598-727 | follows the transition, guards before writes: every write, or an error and no change |
| Engine.MvccEngine.PlanKeyGc | src/engine.rs:741-799 | the plan names the newest obsolete versions up to the page size, and the tombstone only when it may go and the page is complete |
| Engine.MvccEngine.ApplyPlan | tests/key_gc_planner_contract_tests.rs:279-294 | removes exactly what the plan names |
| Engine.MvccEngine.GcKey | src/engine.rs:844-982 | one key under the budget left: collected, or stopped with the budget used up and the oldest obsolete versions left |
| Engine.MvccEngine.GcScan | src/engine.rs:832-983 | the keys before the last visited are collected, and the scan stopped early only with the budget used up and garbage left at that key |
| Engine.MvccEngine.GcIncremental | src/engine.rs:804-1003 | one budgeted step from any cursor, with its counts and next cursor; a zero budget is an error and changes nothing |
| Engine.MvccEngine.Gc | src/engine.rs:1023-1054 | under any valid budget reaches the one-shot collection within the call bound, reports exactly the garbage removed and the number of intents |
| Engine.MvccEngine.CountIntents | src/engine.rs:1038-1048 | the closing loop over the key index counts every intent once |
| Schedule.ApplySchedule | tests/support/model.rs:23-70 | executing any schedule on a fresh engine, whatever each call returns, is a run in the sense of the theorems |
| Schedule.DrainKey | docs/HISTORY_RETENTION_AND_GC.md:34-38 | a caller's loop of planning and applying until complete stops, after exactly floor(n/m)+1 plans, with the key's garbage and nothing else collected |
| Schedule.ScheduleThenRead | tests/support/model.rs:23-70 | after a lawful schedule the engine's own read returns the log's answer |
| Backend.InMemoryBackend.LastIsVisible | src/backend.rs:151-167 | the last entry of a key's range is the newest version of its plain version set at or before the time, and there is none exactly when that set has none |
| Backend.InMemoryBackend.GetVisibleCommitted | src/backend.rs:151-167 | the newest version at or before the time, never of an adjacent key |
| Backend.InMemoryBackend.GetLatestCommitted | src/backend.rs:137-149 | the newest version overall |
| Backend.InMemoryBackend.GetLatestCommitTs | src/backend.rs:169-177 | its timestamp |
| Backend.InMemoryBackend.GetCommittedVersions | src/backend.rs:121-135 | every version of the key, oldest first, and no other |
| Backend.InMemoryBackend.GetCommittedTimestampsBefore | src/backend.rs:331-345 | the newest timestamps before the bound, newest first, up to the limit, none skipped |
| Backend.InMemoryBackend.KeysFrom | src/backend.rs:284-295 | the first keys of the index at or after the start, sorted, up to the limit, none skipped |
| Backend.InMemoryBackend.KeysFromPrefix | src/backend.rs:297-329 | the first distinct committed keys with the prefix at or after the start, up to the limit; its two errors and its zero limit |
| Backend.InMemoryBackend.PrefixScanExact | src/backend.rs:314-328 | stopping at the first key without the prefix loses no key |
| Bytes.PrefixContiguous | src/backend.rs:317-320 | a byte string between two with a common prefix has that prefix |
| Backend.InMemoryBackend.PutIntent | src/backend.rs:183-187 | stores the intent under its key and keeps the index exact |
| Backend.InMemoryBackend.RemoveIntent | src/backend.rs:189-204 | removes the intent if and only if transaction and start match; the index stays exact |
| Backend.InMemoryBackend.PutCommittedBatch | src/backend.rs:215-224 | stores the versions, later ones over earlier ones; the index stays exact |
| Backend.InMemoryBackend.RemoveCommittedVersion | src/backend.rs:226-230 | removes that version; the index stays exact |
| Backend.InMemoryBackend.PutIntentsBatch | src/backend.rs:236-242 | stores the intents, later ones over earlier ones; the index stays exact |
| Backend.InMemoryBackend.CommitIntentsBatch | src/backend.rs:244-266 | stores the versions and releases exactly the named intents; the index stays exact |
| Backend.InMemoryBackend.RemoveIntentsBatch | src/backend.rs:268-282 | releases exactly the intents named with their transaction and start; the index stays exact |
| Backend.InMemoryBackend.CollapseTombstone | src/backend.rs:347-359 | removes the tombstone and the listed versions of the key; the index stays exact |
| Backend.InMemoryBackend.MaybeRemoveFromKeys | src/backend.rs:363-370 | makes an index that is exact but for one key exact |
| Codec.TimestampOrder | src/codec.rs:53-55 | sixteen-byte big-endian timestamps sort as byte strings exactly as the numbers do |
| Codec.FromBigEndian | src/codec.rs:17-66 | decoding bytes gives a number that fits and encodes to those bytes |
| Codec.BigEndianInjective | src/codec.rs:13-55 | two numbers that fit have the same bytes only if they are equal |
| Codec.NoProperPrefix | src/codec.rs:87-181 | no encoded record of either kind is a proper prefix of another, of the same or the other kind |
| Codec.CommittedRecord | src/codec.rs:4-11 | the layout of a committed version is exactly the record given by byte positions and literal tags |
| Codec.IntentRecord | src/codec.rs:4-11 | the layout of an intent is exactly the record given by byte positions and literal tags |
| Codec.EncodeCommitted | src/codec.rs:87-103 | the layout, byte by byte: 2, 1, key length in four bytes, key, timestamp in sixteen, flag 1 and the value with its length, or flag 0; an error exactly when a length needs more than four bytes |
| Codec.EncodeIntent | src/codec.rs:155-181 | the layout, byte by byte: 2, 2, key length in four bytes, key, transaction in eight, start in sixteen, flag 1 and the minimum in sixteen, or flag 0, then kind 1 and the value with its length, or kind 2; an error exactly when a length needs more than four bytes |
| Codec.DecodeBytes | src/codec.rs:76-84 | reads the length-prefixed string that starts at the offset, and fails only if none starts there |
| Codec.DecodeCommitted | src/codec.rs:106-152 | an accepted buffer is, byte by byte, the record of the result, and every such record is accepted with its version as the result |
| Codec.DecodeIntent | src/codec.rs:184-251 | an accepted buffer is, byte by byte, the record of the result, and every such record is accepted with its intent as the result |

## Left out

- Fallible backends: `InMemoryBackend` never fails, so the backend error variants, `map_err` and the default bodies of the trait are absent.
- Texts of errors: the codec's errors are only `Encode` or `Decode`, and the two scan errors of the prefix scan are two values.
- Durability, crash atomicity, replay caches and concurrency: they belong to adapters; the engine is applied serially.
- `backend_mut` as a step of a run: it bypasses every check. Backend methods have their own contracts; applying a plan is the one use of it inside runs.
- `is_delete`, formatting, benchmarks and the conformance macro: no logic of their own.
- Budgets of `usize::MAX`: `max_keys + 1` and `limit + 1` wrap there, so the collection methods ask for smaller budgets; counters are unbounded numbers.
- Buffer lengths near `usize::MAX`, where the decoder's `offset + len` could wrap on a narrow target.
- Representation: the two B-trees are a finite map and a finite set read through sorted views, the hash map is a map, and aliasing of byte vectors is not modelled; the cursor struct is its `next_key`.
- Shape of loops: a `break` is a loop guard or an early return, the body of the collection loop is the method `GcKey`, and inlined inserts and removals call the single-entry method.
- Reads are not logged: the contract for collapse constrains writes and prewrites, and reads below the safe point are simply not promised anything.
- Counter.NoLostIncrements: the number in a value is an arbitrary decoding function, not decimal text.
