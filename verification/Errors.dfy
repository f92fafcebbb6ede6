/**
  Which error each rejected call reports, and with what in it, said of the plain version sets: one
  condition for each error, each under the negation of those the source checks before it.
 */
module Errors {
  import opened Types
  import opened History
  import opened Gc
  import opened Runs
  import opened Theorems
  import opened Acceptance
  import T = Transitions

  // ----- what errors speak of -----

  /** `u` is the key's newest version. */
  ghost predicate Newest(dom: set<VKey>, k: Key, u: Timestamp) {
    VKey(k, u) in dom && AtOrBelow(dom, k, u)
  }

  /** `u` is the key's newest version, or tells that it has none. */
  ghost predicate NewestIs(dom: set<VKey>, k: Key, u: Option<Timestamp>) {
    match u
    case Some(ts) => Newest(dom, k, ts)
    case None => forall ts: Timestamp :: VKey(k, ts) !in dom
  }

  lemma NewestIsLatest(dom: set<VKey>, k: Key, u: Option<Timestamp>)
    ensures NewestIs(dom, k, u) <==> LatestTs(dom, k) == u
  {
    hide VisibleTs;
    match u {
      case Some(ts) => if Newest(dom, k, ts) { VisibleIs(dom, k, TS_MAX, ts); }
      case None =>
    }
  }

  lemma NewestIsSome(dom: set<VKey>, k: Key, u: Timestamp)
    ensures Newest(dom, k, u) <==> LatestTs(dom, k) == Some(u)
  {
    NewestIsLatest(dom, k, Some(u));
  }

  /** `k` is the first key that repeats an earlier one. */
  ghost predicate FirstRepeat(keys: seq<Key>, k: Key) {
    exists i :: 0 <= i < |keys| && keys[i] == k && k in keys[..i] && T.Distinct(keys[..i])
  }

  lemma FirstErrorIs<E>(errs: seq<Option<E>>, e: E)
    ensures T.FirstError(errs) == Some(e) <==>
              exists i :: 0 <= i < |errs| && errs[i] == Some(e) && forall j :: 0 <= j < i ==> errs[j].None?
  {
    if i :| 0 <= i < |errs| && errs[i] == Some(e) && forall j :: 0 <= j < i ==> errs[j].None? {
      T.FirstErrorAt(errs, i);
    }
  }

  lemma DistinctFront(keys: seq<Key>, i: nat)
    requires i <= |keys|
    ensures T.Distinct(keys[..i]) <==> forall j :: 0 <= j < i ==> T.Repeats(keys)[j].None?
  {
    var errs := T.Repeats(keys);
    assert forall a, b :: 0 <= a < b < i ==> (keys[a] == keys[b] ==> keys[..b][a] == keys[b] && errs[b].Some?);
    assert forall a, b :: 0 <= a < b < i ==> keys[..i][a] == keys[a] && keys[..i][b] == keys[b];
  }

  lemma FirstDuplicateIs(keys: seq<Key>, k: Key)
    ensures T.FirstDuplicate(keys) == Some(k) <==> FirstRepeat(keys, k)
  {
    var errs := T.Repeats(keys);
    FirstErrorIs(errs, k);
    forall i | 0 <= i < |keys|
      ensures T.Distinct(keys[..i]) <==> forall j :: 0 <= j < i ==> errs[j].None?
      ensures errs[i] == Some(k) <==> keys[i] == k && k in keys[..i]
    {
      DistinctFront(keys, i);
    }
    hide T.Distinct;
  }

  // ----- single prewrite and commit -----

  ghost predicate PrewriteFails(s: Store, txnId: TxnId, startTs: Timestamp, k: Key, m: Mutation, e: PrewriteError) {
    match e
    case KeyLocked(holder) => k in s.intents && s.intents[k].txnId == holder && holder != txnId
    case IntentAlreadyExists =>
      k in s.intents && s.intents[k].txnId == txnId && !HoldsWith(s, txnId, startTs, k, m)
    case WriteConflict => k !in s.intents && !AtOrBelow(s.committed.Keys, k, startTs)
  }

  lemma PrewriteErrors(s: Store, txnId: TxnId, startTs: Timestamp, k: Key, m: Mutation, e: PrewriteError)
    ensures T.Prewrite(s, txnId, startTs, k, m) == Err(e) <==> PrewriteFails(s, txnId, startTs, k, m, e)
  {
    hide VisibleTs;
    LatestAbove(s.committed.Keys, k, startTs);
  }

  ghost predicate CommitFails(s: Store, txnId: TxnId, k: Key, startTs: Timestamp, commitTs: Timestamp, e: CommitError) {
    var dom := s.committed.Keys;
    match e
    case IntentNotFound => k !in s.intents
    case TxnIdMismatch => k in s.intents && s.intents[k].txnId != txnId
    case StartTsMismatch => k in s.intents && s.intents[k].txnId == txnId && s.intents[k].startTs != startTs
    case InvalidCommitTimestamp(start, commit) =>
      Holds(s, txnId, startTs, k) && commitTs <= startTs && start == startTs && commit == commitTs
    case CommitTsTooEarly(commit, min) =>
      && Holds(s, txnId, startTs, k) && startTs < commitTs && commit == commitTs
      && s.intents[k].minCommitTs == Some(min) && commitTs < min
    case DuplicateCommitTimestamp(commit) =>
      LateEnough(s, txnId, k, startTs, commitTs) && commit == commitTs && Newest(dom, k, commitTs)
    case CommitTsTooOld(commit, newest) =>
      LateEnough(s, txnId, k, startTs, commitTs) && commit == commitTs && Newest(dom, k, newest) && commitTs < newest
  }

  /** The transaction holds the lock, and commits above its start and not below the intent's minimum. */
  ghost predicate LateEnough(s: Store, txnId: TxnId, k: Key, startTs: Timestamp, commitTs: Timestamp) {
    && Holds(s, txnId, startTs, k)
    && startTs < commitTs
    && (s.intents[k].minCommitTs.Some? ==> s.intents[k].minCommitTs.value <= commitTs)
  }

  lemma CommitErrors(s: Store, txnId: TxnId, k: Key, startTs: Timestamp, commitTs: Timestamp, e: CommitError)
    ensures T.Commit(s, txnId, k, startTs, commitTs) == Err(e) <==> CommitFails(s, txnId, k, startTs, commitTs, e)
  {
    hide VisibleTs, LatestTs, Newest;
    NewestIsSome(s.committed.Keys, k, commitTs);
    if e.CommitTsTooOld? { NewestIsSome(s.committed.Keys, k, e.latestCommitTs); }
  }

  // ----- prewrite batch -----

  /** A write that would pass alone. */
  ghost predicate Passes(s: Store, txnId: TxnId, startTs: Timestamp, w: PhysicalWrite) {
    || HoldsWith(s, txnId, startTs, w.key, MutationOf(w.value))
    || (w.key !in s.intents && AtOrBelow(s.committed.Keys, w.key, startTs))
  }

  /** The batch error that the error of a single prewrite becomes. */
  ghost predicate PrewriteFault(s: Store, txnId: TxnId, startTs: Timestamp, w: PhysicalWrite, e: BatchPrewriteError) {
    var m := MutationOf(w.value);
    match e
    case KeyLocked(k, x) => k == w.key && PrewriteFails(s, txnId, startTs, k, m, PrewriteError.KeyLocked(x))
    case IntentAlreadyExists(k) =>
      k == w.key && PrewriteFails(s, txnId, startTs, k, m, PrewriteError.IntentAlreadyExists)
    case WriteConflict(k) => k == w.key && PrewriteFails(s, txnId, startTs, k, m, PrewriteError.WriteConflict)
    case _ => false
  }

  ghost predicate PrewriteBatchFails(s: Store, txnId: TxnId, startTs: Timestamp, writes: seq<PhysicalWrite>,
                                     e: BatchPrewriteError)
  {
    var keys := T.WriteKeys(writes);
    match e
    case EmptyBatch => writes == []
    case DuplicateKeyInBatch(k) => FirstRepeat(keys, k)
    case PartialBatchReplay =>
      && T.Distinct(keys)
      && (forall i :: 0 <= i < |writes| ==> Passes(s, txnId, startTs, writes[i]))
      && (exists i :: 0 <= i < |writes| && writes[i].key in s.intents)
      && (exists i :: 0 <= i < |writes| && writes[i].key !in s.intents)
    case _ =>
      && T.Distinct(keys)
      && exists i :: 0 <= i < |writes| && PrewriteFault(s, txnId, startTs, writes[i], e)
                     && forall j :: 0 <= j < i ==> Passes(s, txnId, startTs, writes[j])
  }

  lemma PrewriteFaultIs(s: Store, txnId: TxnId, startTs: Timestamp, w: PhysicalWrite, e: BatchPrewriteError)
    ensures T.PrewriteCheck(s, txnId, startTs, w) == Some(e) <==> PrewriteFault(s, txnId, startTs, w, e)
    ensures T.PrewriteCheck(s, txnId, startTs, w).None? <==> Passes(s, txnId, startTs, w)
  {
    hide VisibleTs;
    LatestAbove(s.committed.Keys, w.key, startTs);
  }

  lemma FirstPrewriteFault(s: Store, txnId: TxnId, startTs: Timestamp, writes: seq<PhysicalWrite>,
                           e: BatchPrewriteError)
    ensures T.FirstError(T.PrewriteChecks(s, txnId, startTs, writes)) == Some(e) <==>
              exists i :: 0 <= i < |writes| && PrewriteFault(s, txnId, startTs, writes[i], e)
                          && forall j :: 0 <= j < i ==> Passes(s, txnId, startTs, writes[j])
    ensures T.FirstError(T.PrewriteChecks(s, txnId, startTs, writes)).None? <==>
              forall i :: 0 <= i < |writes| ==> Passes(s, txnId, startTs, writes[i])
  {
    hide T.FirstError, T.PrewriteCheck, PrewriteFault, Passes;
    var errs := T.PrewriteChecks(s, txnId, startTs, writes);
    FirstErrorIs(errs, e);
    forall i | 0 <= i < |writes|
      ensures errs[i] == Some(e) <==> PrewriteFault(s, txnId, startTs, writes[i], e)
      ensures errs[i].None? <==> Passes(s, txnId, startTs, writes[i])
    {
      PrewriteFaultIs(s, txnId, startTs, writes[i], e);
    }
  }

  lemma SomeLocked(s: Store, writes: seq<PhysicalWrite>)
    ensures T.WriteMap(writes).Keys <= s.intents.Keys <==> forall i :: 0 <= i < |writes| ==> writes[i].key in s.intents
    ensures T.WriteMap(writes).Keys !! s.intents.Keys <==> forall i :: 0 <= i < |writes| ==> writes[i].key !in s.intents
  {
    hide T.ValueFor;
    assert forall i :: 0 <= i < |writes| ==> writes[i].key in T.WriteMap(writes).Keys;
  }

  lemma PrewriteBatchErrors(s: Store, txnId: TxnId, startTs: Timestamp, writes: seq<PhysicalWrite>,
                            e: BatchPrewriteError)
    ensures T.PrewriteBatch(s, txnId, startTs, writes) == Err(e) <==> PrewriteBatchFails(s, txnId, startTs, writes, e)
  {
    hide T.FirstError, T.FirstDuplicate, T.PrewriteChecks, T.WriteMap, FirstRepeat, PrewriteFault, Passes, T.NewIntents,
         T.WriteKeys, T.Distinct;
    FirstPrewriteFault(s, txnId, startTs, writes, e);
    SomeLocked(s, writes);
    FaultKinds(s, txnId, startTs, writes, e);
    NoKeysDistinct(writes);
    if e.DuplicateKeyInBatch? {
      FirstDuplicateIs(T.WriteKeys(writes), e.key);
    }
  }

  /** Only writes are at fault for three of the errors, and no key repeats in an empty batch. */
  lemma FaultKinds(s: Store, txnId: TxnId, startTs: Timestamp, writes: seq<PhysicalWrite>, e: BatchPrewriteError)
    ensures forall w :: PrewriteFault(s, txnId, startTs, w, e) ==>
              !e.EmptyBatch? && !e.DuplicateKeyInBatch? && !e.PartialBatchReplay?
  {
  }

  lemma NoKeysDistinct(writes: seq<PhysicalWrite>)
    ensures writes == [] ==> T.Distinct(T.WriteKeys(writes)) && forall k :: !FirstRepeat(T.WriteKeys(writes), k)
  {
  }

  // ----- commit batch -----

  ghost predicate Commits(s: Store, txnId: TxnId, startTs: Timestamp, commitTs: Timestamp, k: Key) {
    LateEnough(s, txnId, k, startTs, commitTs) && Above(s.committed.Keys, k, commitTs)
  }

  /** The batch error that the error of a single commit becomes: a taken timestamp counts as too old. */
  ghost predicate CommitFault(s: Store, txnId: TxnId, startTs: Timestamp, commitTs: Timestamp, key: Key,
                              e: BatchCommitError)
  {
    match e
    case IntentNotFound(k) => k == key && CommitFails(s, txnId, k, startTs, commitTs, CommitError.IntentNotFound)
    case TxnIdMismatch(k) => k == key && CommitFails(s, txnId, k, startTs, commitTs, CommitError.TxnIdMismatch)
    case StartTsMismatch(k) => k == key && CommitFails(s, txnId, k, startTs, commitTs, CommitError.StartTsMismatch)
    case CommitTsTooEarly(k, c, min) =>
      k == key && CommitFails(s, txnId, k, startTs, commitTs, CommitError.CommitTsTooEarly(c, min))
    case CommitTsTooOld(k, c, newest) =>
      && k == key
      && (|| CommitFails(s, txnId, k, startTs, commitTs, CommitError.CommitTsTooOld(c, newest))
          || (c == newest && CommitFails(s, txnId, k, startTs, commitTs, CommitError.DuplicateCommitTimestamp(c))))
    case _ => false
  }

  ghost predicate CommitBatchFails(s: Store, txnId: TxnId, startTs: Timestamp, commitTs: Timestamp, keys: seq<Key>,
                                   e: BatchCommitError)
  {
    match e
    case EmptyBatch => keys == []
    case DuplicateKeyInBatch(k) => FirstRepeat(keys, k)
    case InvalidCommitTimestamp(start, commit) =>
      keys != [] && T.Distinct(keys) && commitTs <= startTs && start == startTs && commit == commitTs
    case _ =>
      && T.Distinct(keys) && startTs < commitTs
      && exists i :: 0 <= i < |keys| && CommitFault(s, txnId, startTs, commitTs, keys[i], e)
                     && forall j :: 0 <= j < i ==> Commits(s, txnId, startTs, commitTs, keys[j])
  }

  lemma CommitFaultIs(s: Store, txnId: TxnId, startTs: Timestamp, commitTs: Timestamp, k: Key, e: BatchCommitError)
    requires startTs < commitTs
    ensures T.CommitCheck(s, txnId, startTs, commitTs, k) == Some(e) <==> CommitFault(s, txnId, startTs, commitTs, k, e)
    ensures T.CommitCheck(s, txnId, startTs, commitTs, k).None? <==> Commits(s, txnId, startTs, commitTs, k)
  {
    hide VisibleTs, LatestTs, Newest, Above;
    LatestAbove(s.committed.Keys, k, commitTs);
    NewestIsSome(s.committed.Keys, k, commitTs);
    if e.CommitTsTooOld? { NewestIsSome(s.committed.Keys, k, e.latestCommitTs); }
  }

  lemma FirstCommitFault(s: Store, txnId: TxnId, startTs: Timestamp, commitTs: Timestamp, keys: seq<Key>,
                         e: BatchCommitError)
    requires startTs < commitTs
    ensures T.FirstError(T.CommitChecks(s, txnId, startTs, commitTs, keys)) == Some(e) <==>
              exists i :: 0 <= i < |keys| && CommitFault(s, txnId, startTs, commitTs, keys[i], e)
                          && forall j :: 0 <= j < i ==> Commits(s, txnId, startTs, commitTs, keys[j])
  {
    hide T.FirstError, T.CommitCheck, CommitFault, Commits;
    var errs := T.CommitChecks(s, txnId, startTs, commitTs, keys);
    FirstErrorIs(errs, e);
    forall i | 0 <= i < |keys|
      ensures errs[i] == Some(e) <==> CommitFault(s, txnId, startTs, commitTs, keys[i], e)
      ensures errs[i].None? <==> Commits(s, txnId, startTs, commitTs, keys[i])
    {
      CommitFaultIs(s, txnId, startTs, commitTs, keys[i], e);
    }
  }

  lemma CommitBatchErrors(s: Store, txnId: TxnId, startTs: Timestamp, commitTs: Timestamp, keys: seq<Key>,
                          e: BatchCommitError)
    ensures T.CommitBatch(s, txnId, startTs, commitTs, keys) == Err(e) <==>
              CommitBatchFails(s, txnId, startTs, commitTs, keys, e)
  {
    hide T.FirstError, T.FirstDuplicate, T.CommitChecks, CommitFault, Commits, T.Distinct, FirstRepeat;
    if startTs < commitTs { FirstCommitFault(s, txnId, startTs, commitTs, keys, e); }
    CommitFaultKinds(s, txnId, startTs, commitTs, e);
    EmptyDistinct(keys);
    if e.DuplicateKeyInBatch? { FirstDuplicateIs(keys, e.key); }
  }

  lemma CommitFaultKinds(s: Store, txnId: TxnId, startTs: Timestamp, commitTs: Timestamp, e: BatchCommitError)
    ensures forall k :: CommitFault(s, txnId, startTs, commitTs, k, e) ==>
              !e.EmptyBatch? && !e.DuplicateKeyInBatch? && !e.InvalidCommitTimestamp?
  {
  }

  lemma EmptyDistinct(keys: seq<Key>)
    ensures keys == [] ==> T.Distinct(keys) && forall k :: !FirstRepeat(keys, k)
  {
  }

  /** An abort batch refuses only a repeated key. */
  lemma AbortBatchErrors(s: Store, txnId: TxnId, startTs: Timestamp, keys: seq<Key>, k: Key)
    ensures T.AbortBatch(s, txnId, startTs, keys) == Err(BatchAbortError.DuplicateKeyInBatch(k)) <==>
              FirstRepeat(keys, k)
  {
    hide T.FirstDuplicate, FirstRepeat;
    FirstDuplicateIs(keys, k);
  }

  // ----- direct and guarded batches -----

  ghost predicate WriteFault(s: Store, commitTs: Timestamp, w: PhysicalWrite, e: BatchError) {
    match e
    case KeyLocked(k, holder) => k == w.key && k in s.intents && s.intents[k].txnId == holder
    case CommitTsTooOld(k, commit, newest) =>
      && k == w.key && k !in s.intents && commit == commitTs
      && Newest(s.committed.Keys, k, newest) && commitTs <= newest
    case _ => false
  }

  ghost predicate FirstWriteFault(s: Store, commitTs: Timestamp, writes: seq<PhysicalWrite>, e: BatchError) {
    exists i :: 0 <= i < |writes| && WriteFault(s, commitTs, writes[i], e)
                && forall j :: 0 <= j < i ==> FreeBelow(s, writes[j].key, commitTs)
  }

  lemma WriteFaultIs(s: Store, commitTs: Timestamp, w: PhysicalWrite, e: BatchError)
    ensures T.WriteCheck(s, commitTs, w) == Some(e) <==> WriteFault(s, commitTs, w, e)
  {
    hide VisibleTs, LatestTs, Newest;
    if e.CommitTsTooOld? { NewestIsSome(s.committed.Keys, w.key, e.latestCommitTs); }
  }

  lemma FirstWriteFaultIs(s: Store, commitTs: Timestamp, writes: seq<PhysicalWrite>, e: BatchError)
    ensures T.FirstError(T.WriteChecks(s, commitTs, writes)) == Some(e) <==> FirstWriteFault(s, commitTs, writes, e)
  {
    hide T.FirstError, T.WriteCheck, WriteFault, FreeBelow;
    var errs := T.WriteChecks(s, commitTs, writes);
    FirstErrorIs(errs, e);
    forall i | 0 <= i < |writes|
      ensures errs[i] == Some(e) <==> WriteFault(s, commitTs, writes[i], e)
      ensures errs[i].None? <==> FreeBelow(s, writes[i].key, commitTs)
    {
      WriteFaultIs(s, commitTs, writes[i], e);
      WriteAccepts(s, commitTs, writes[i]);
    }
  }

  ghost predicate DirectBatchFails(s: Store, commitTs: Timestamp, writes: seq<PhysicalWrite>, e: BatchError) {
    match e
    case EmptyBatch => writes == []
    case DuplicateKeyInBatch(k) => FirstRepeat(T.WriteKeys(writes), k)
    case _ => T.Distinct(T.WriteKeys(writes)) && FirstWriteFault(s, commitTs, writes, e)
  }

  lemma DirectBatchErrors(s: Store, commitTs: Timestamp, writes: seq<PhysicalWrite>, e: BatchError)
    ensures T.DirectBatch(s, commitTs, writes) == Err(e) <==> DirectBatchFails(s, commitTs, writes, e)
  {
    hide T.FirstError, T.FirstDuplicate, T.WriteChecks, T.Install, T.WriteMap, FirstWriteFault, FirstRepeat, T.Distinct;
    FirstWriteFaultIs(s, commitTs, writes, e);
    WriteFaultKinds(s, commitTs, writes, e);
    NoKeysDistinct(writes);
    if e.DuplicateKeyInBatch? { FirstDuplicateIs(T.WriteKeys(writes), e.key); }
  }

  lemma WriteFaultKinds(s: Store, commitTs: Timestamp, writes: seq<PhysicalWrite>, e: BatchError)
    ensures FirstWriteFault(s, commitTs, writes, e) ==> writes != [] && (e.KeyLocked? || e.CommitTsTooOld?)
  {
  }

  /** Why a guard fails: its condition, what it expected, and what is stored. */
  ghost predicate GuardFault(s: Store, commitTs: Timestamp, g: ReadGuard, e: BatchError) {
    var dom := s.committed.Keys;
    match e
    case InvalidCommitTimestamp(read, commit) => commitTs <= g.readTs && read == g.readTs && commit == commitTs
    case KeyLocked(k, holder) =>
      g.readTs < commitTs && k == g.key && k in s.intents && s.intents[k].txnId == holder
    case GuardFailedNewerVersion(k, read, newest) =>
      && g.readTs < commitTs && k == g.key && k !in s.intents
      && read == g.readTs && Newest(dom, k, newest) && g.readTs < newest
    case GuardFailedVersionMismatch(k, expected, actual) =>
      && g.ExpectedVersion? && Readable(s, commitTs, g) && k == g.key
      && expected == g.expectedCommitTs && NewestIs(dom, k, actual) && actual != expected
    case GuardFailedValueMismatch(k) =>
      && g.ExpectedValue? && Readable(s, commitTs, g) && k == g.key
      && !HasValue(s, k, g.expectedValue)
    case _ => false
  }

  /** The guard's read is before the commit, and nothing stands in its way. */
  ghost predicate Readable(s: Store, commitTs: Timestamp, g: ReadGuard) {
    g.readTs < commitTs && g.key !in s.intents && AtOrBelow(s.committed.Keys, g.key, g.readTs)
  }

  /** The key's newest version has this value; a key with no version has none. */
  ghost predicate HasValue(s: Store, k: Key, v: Option<Value>) {
    || (exists u: Timestamp :: Newest(s.committed.Keys, k, u) && s.committed[VKey(k, u)] == v)
    || (v == None && forall u: Timestamp :: VKey(k, u) !in s.committed)
  }

  lemma HasValueIs(s: Store, k: Key, v: Option<Value>)
    ensures HasValue(s, k, v) <==> Read(s.committed, k, TS_MAX) == v
  {
    hide VisibleTs, Newest;
    var latest := LatestTs(s.committed.Keys, k);
    NewestIsLatest(s.committed.Keys, k, latest);
    forall u: Timestamp ensures Newest(s.committed.Keys, k, u) <==> latest == Some(u) {
      NewestIsSome(s.committed.Keys, k, u);
    }
    if latest.Some? { NewestStored(s.committed.Keys, k, latest.value); }
  }

  lemma NewestStored(dom: set<VKey>, k: Key, u: Timestamp)
    requires Newest(dom, k, u)
    ensures VKey(k, u) in dom
  {
  }

  lemma GuardFaultIs(s: Store, commitTs: Timestamp, g: ReadGuard, e: BatchError)
    ensures T.GuardCheck(s, commitTs, g) == Some(e) <==> GuardFault(s, commitTs, g, e)
  {
    hide VisibleTs, Newest, NewestIs, HasValue;
    var dom := s.committed.Keys;
    LatestAbove(dom, g.key, g.readTs);
    if AtOrBelow(dom, g.key, g.readTs) { SettledRead(s.committed, g.key, g.readTs); }
    match e {
      case GuardFailedNewerVersion(_, _, newest) => NewestIsSome(dom, g.key, newest);
      case GuardFailedVersionMismatch(_, _, actual) => NewestIsLatest(dom, g.key, actual);
      case GuardFailedValueMismatch(_) => if g.ExpectedValue? { HasValueIs(s, g.key, g.expectedValue); }
      case _ =>
    }
  }

  ghost predicate FirstGuardFault(s: Store, commitTs: Timestamp, guards: seq<ReadGuard>, e: BatchError) {
    exists i :: 0 <= i < |guards| && GuardFault(s, commitTs, guards[i], e)
                && forall j :: 0 <= j < i ==> GuardMet(s, commitTs, guards[j])
  }

  lemma FirstGuardFaultIs(s: Store, commitTs: Timestamp, guards: seq<ReadGuard>, e: BatchError)
    ensures T.FirstError(T.GuardChecks(s, commitTs, guards)) == Some(e) <==> FirstGuardFault(s, commitTs, guards, e)
  {
    hide T.FirstError, T.GuardCheck, GuardFault, GuardMet;
    var errs := T.GuardChecks(s, commitTs, guards);
    FirstErrorIs(errs, e);
    forall i | 0 <= i < |guards|
      ensures errs[i] == Some(e) <==> GuardFault(s, commitTs, guards[i], e)
      ensures errs[i].None? <==> GuardMet(s, commitTs, guards[i])
    {
      GuardFaultIs(s, commitTs, guards[i], e);
      GuardAccepts(s, commitTs, guards[i]);
    }
  }

  /** The error of a guarded batch is the fault of its first unmet guard, before any write is looked at. */
  lemma FirstFailedGuard(s: Store, commitTs: Timestamp, guards: seq<ReadGuard>, writes: seq<PhysicalWrite>, i: nat)
    requires writes != [] && T.Distinct(T.WriteKeys(writes)) && i < |guards|
    requires !GuardMet(s, commitTs, guards[i]) && forall j :: 0 <= j < i ==> GuardMet(s, commitTs, guards[j])
    ensures T.GuardedBatch(s, commitTs, guards, writes).Err?
    ensures GuardFault(s, commitTs, guards[i], T.GuardedBatch(s, commitTs, guards, writes).error)
  {
    hide T.FirstError, T.FirstDuplicate, T.WriteChecks, T.GuardCheck, T.Install, T.WriteMap, GuardMet, GuardFault;
    var errs := T.GuardChecks(s, commitTs, guards);
    forall j | 0 <= j <= i ensures errs[j].None? <==> GuardMet(s, commitTs, guards[j]) {
      GuardAccepts(s, commitTs, guards[j]);
    }
    T.FirstErrorAt(errs, i);
    GuardFaultIs(s, commitTs, guards[i], errs[i].value);
  }

  ghost predicate GuardedBatchFails(s: Store, commitTs: Timestamp, guards: seq<ReadGuard>, writes: seq<PhysicalWrite>,
                                    e: BatchError)
  {
    match e
    case EmptyBatch => writes == []
    case NoReadGuards => writes != [] && guards == []
    case DuplicateKeyInBatch(k) => guards != [] && FirstRepeat(T.WriteKeys(writes), k)
    case _ =>
      && writes != [] && T.Distinct(T.WriteKeys(writes))
      && (|| FirstGuardFault(s, commitTs, guards, e)
          || (&& guards != [] && (forall i :: 0 <= i < |guards| ==> GuardMet(s, commitTs, guards[i]))
              && FirstWriteFault(s, commitTs, writes, e)))
  }

  lemma GuardedBatchErrors(s: Store, commitTs: Timestamp, guards: seq<ReadGuard>, writes: seq<PhysicalWrite>,
                           e: BatchError)
    ensures T.GuardedBatch(s, commitTs, guards, writes) == Err(e) <==> GuardedBatchFails(s, commitTs, guards, writes, e)
  {
    hide T.FirstError, T.FirstDuplicate, T.WriteChecks, T.GuardChecks, T.Install, T.WriteMap, FirstWriteFault,
         FirstGuardFault, FirstRepeat, T.Distinct, GuardMet;
    FirstWriteFaultIs(s, commitTs, writes, e);
    WriteFaultKinds(s, commitTs, writes, e);
    FirstGuardFaultIs(s, commitTs, guards, e);
    GuardFaultKinds(s, commitTs, guards, e);
    AllGuardsAccept(s, commitTs, guards);
    NoKeysDistinct(writes);
    if e.DuplicateKeyInBatch? { FirstDuplicateIs(T.WriteKeys(writes), e.key); }
  }

  lemma GuardFaultKinds(s: Store, commitTs: Timestamp, guards: seq<ReadGuard>, e: BatchError)
    ensures FirstGuardFault(s, commitTs, guards, e) ==>
              && guards != [] && !e.EmptyBatch? && !e.NoReadGuards? && !e.DuplicateKeyInBatch?
              && !(forall i :: 0 <= i < |guards| ==> GuardMet(s, commitTs, guards[i]))
  {
    hide Newest, NewestIs, AtOrBelow;
    forall i | 0 <= i < |guards| && GuardFault(s, commitTs, guards[i], e) ensures !GuardMet(s, commitTs, guards[i]) {
      FaultUnmet(s, commitTs, guards[i], e);
    }
  }

  lemma FaultUnmet(s: Store, commitTs: Timestamp, g: ReadGuard, e: BatchError)
    requires GuardFault(s, commitTs, g, e)
    ensures !GuardMet(s, commitTs, g)
  {
    hide T.GuardCheck, GuardFault, GuardMet;
    GuardFaultIs(s, commitTs, g, e);
    GuardAccepts(s, commitTs, g);
  }
}
