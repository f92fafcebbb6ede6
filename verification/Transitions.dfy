/**
  The engine's mutators as functions on stores: what each accepts, the error it reports first,
  and the store it reaches. A rejected call has no new store.
 */
module Transitions {
  import opened Types
  import opened History

  // ----- validation -----

  /** The first error of a left-to-right validation. */
  ghost function FirstError<E>(errs: seq<Option<E>>): (r: Option<E>)
    ensures r.None? <==> forall i :: 0 <= i < |errs| ==> errs[i].None?
    ensures r.Some? ==> exists i :: 0 <= i < |errs| && errs[i] == r && forall j :: 0 <= j < i ==> errs[j].None?
  {
    if i :| 0 <= i < |errs| && errs[i].Some? && forall j :: 0 <= j < i ==> errs[j].None? then errs[i]
    else
      AllNone(errs, |errs|);
      None
  }

  lemma {:induction false} AllNone<E>(errs: seq<Option<E>>, n: nat)
    requires n <= |errs|
    requires forall i :: 0 <= i < |errs| && errs[i].Some? ==> exists j :: 0 <= j < i && errs[j].Some?
    ensures forall i :: 0 <= i < n ==> errs[i].None?
  {
    if n > 0 { AllNone(errs, n - 1); }
  }

  lemma FirstErrorAt<E>(errs: seq<Option<E>>, i: nat)
    requires i < |errs| && errs[i].Some?
    requires forall j :: 0 <= j < i ==> errs[j].None?
    ensures FirstError(errs) == errs[i]
  {
    assert FirstError(errs).Some?;
    var k :| 0 <= k < |errs| && errs[k] == FirstError(errs) && forall j :: 0 <= j < k ==> errs[j].None?;
    assert !(k < i) && !(i < k);
  }

  ghost predicate Distinct(keys: seq<Key>) {
    forall i, j :: 0 <= i < j < |keys| ==> keys[i] != keys[j]
  }

  ghost function Repeats(keys: seq<Key>): seq<Option<Key>> {
    seq(|keys|, i requires 0 <= i < |keys| => if keys[i] in keys[..i] then Some(keys[i]) else None)
  }

  /** The first key that repeats an earlier one. */
  ghost function FirstDuplicate(keys: seq<Key>): (r: Option<Key>)
    ensures r.None? <==> Distinct(keys)
  {
    var errs := Repeats(keys);
    assert forall i, j :: 0 <= j < i < |keys| && keys[i] == keys[j] ==> keys[..i][j] == keys[i] && errs[i].Some?;
    FirstError(errs)
  }

  function WriteKeys(writes: seq<PhysicalWrite>): seq<Key> {
    seq(|writes|, i requires 0 <= i < |writes| => writes[i].key)
  }

  ghost predicate Writes(writes: seq<PhysicalWrite>, k: Key) {
    exists i :: 0 <= i < |writes| && writes[i].key == k
  }

  ghost function ValueFor(writes: seq<PhysicalWrite>, k: Key): Option<Value>
    requires Writes(writes, k)
  {
    var i :| 0 <= i < |writes| && writes[i].key == k;
    writes[i].value
  }

  /** A write batch as a map; meaningful when its keys are distinct. */
  ghost function WriteMap(writes: seq<PhysicalWrite>): map<Key, Option<Value>> {
    map k | k in (set i | 0 <= i < |writes| :: writes[i].key) :: ValueFor(writes, k)
  }

  lemma WriteMapAt(writes: seq<PhysicalWrite>, i: nat)
    requires i < |writes| && Distinct(WriteKeys(writes))
    ensures writes[i].key in WriteMap(writes) && WriteMap(writes)[writes[i].key] == writes[i].value
  {
    var k := writes[i].key;
    var j :| 0 <= j < |writes| && writes[j].key == k && writes[j].value == ValueFor(writes, k);
    assert WriteKeys(writes)[j] == WriteKeys(writes)[i];
  }

  /** The versions a batch installs at `ts`. */
  ghost function Stamp(w: map<Key, Option<Value>>, ts: Timestamp): map<VKey, Option<Value>> {
    map k | k in w :: VKey(k, ts) := w[k]
  }

  // ----- intents -----

  ghost function Prewrite(s: Store, txnId: TxnId, startTs: Timestamp, key: Key,
                          mutation: Mutation): Result<Store, PrewriteError>
  {
    if key in s.intents then
      var intent := s.intents[key];
      if intent.txnId != txnId then Err(PrewriteError.KeyLocked(intent.txnId))
      else if intent.startTs != startTs || intent.mutation != mutation then Err(PrewriteError.IntentAlreadyExists)
      else Ok(s)
    else
      var latest := LatestTs(s.committed.Keys, key);
      if latest.Some? && latest.value > startTs then Err(PrewriteError.WriteConflict)
      else Ok(s.(intents := s.intents[key := Intent(key, txnId, startTs, mutation, None)]))
  }

  ghost function Commit(s: Store, txnId: TxnId, key: Key, startTs: Timestamp,
                        commitTs: Timestamp): Result<Store, CommitError>
  {
    if key !in s.intents then Err(CommitError.IntentNotFound)
    else
      var intent := s.intents[key];
      var latest := LatestTs(s.committed.Keys, key);
      if intent.txnId != txnId then Err(CommitError.TxnIdMismatch)
      else if intent.startTs != startTs then Err(CommitError.StartTsMismatch)
      else if commitTs <= startTs then Err(CommitError.InvalidCommitTimestamp(startTs, commitTs))
      else if intent.minCommitTs.Some? && commitTs < intent.minCommitTs.value then
        Err(CommitError.CommitTsTooEarly(commitTs, intent.minCommitTs.value))
      else if latest.Some? && commitTs == latest.value then Err(CommitError.DuplicateCommitTimestamp(commitTs))
      else if latest.Some? && commitTs < latest.value then Err(CommitError.CommitTsTooOld(commitTs, latest.value))
      else Ok(Store(s.committed[VKey(key, commitTs) := intent.mutation.ToValue()], s.intents - {key}))
  }

  ghost function Abort(s: Store, txnId: TxnId, key: Key, startTs: Timestamp): Store {
    if key in s.intents && s.intents[key].txnId == txnId && s.intents[key].startTs == startTs
    then s.(intents := s.intents - {key})
    else s
  }

  ghost function PrewriteCheck(s: Store, txnId: TxnId, startTs: Timestamp,
                               w: PhysicalWrite): Option<BatchPrewriteError>
  {
    if w.key in s.intents then
      var intent := s.intents[w.key];
      if intent.txnId != txnId then Some(BatchPrewriteError.KeyLocked(w.key, intent.txnId))
      else if intent.startTs != startTs || intent.mutation != MutationOf(w.value) then
        Some(BatchPrewriteError.IntentAlreadyExists(w.key))
      else None
    else
      var latest := LatestTs(s.committed.Keys, w.key);
      if latest.Some? && latest.value > startTs then Some(BatchPrewriteError.WriteConflict(w.key)) else None
  }

  ghost function PrewriteChecks(s: Store, txnId: TxnId, startTs: Timestamp,
                                writes: seq<PhysicalWrite>): seq<Option<BatchPrewriteError>>
  {
    seq(|writes|, i requires 0 <= i < |writes| => PrewriteCheck(s, txnId, startTs, writes[i]))
  }

  ghost function NewIntents(txnId: TxnId, startTs: Timestamp, w: map<Key, Option<Value>>): map<Key, Intent> {
    map k | k in w :: Intent(k, txnId, startTs, MutationOf(w[k]), None)
  }

  ghost function PrewriteBatch(s: Store, txnId: TxnId, startTs: Timestamp,
                               writes: seq<PhysicalWrite>): Result<Store, BatchPrewriteError>
  {
    var dup := FirstDuplicate(WriteKeys(writes));
    var bad := FirstError(PrewriteChecks(s, txnId, startTs, writes));
    var w := WriteMap(writes);
    if writes == [] then Err(BatchPrewriteError.EmptyBatch)
    else if dup.Some? then Err(BatchPrewriteError.DuplicateKeyInBatch(dup.value))
    else if bad.Some? then Err(bad.value)
    else if w.Keys <= s.intents.Keys then Ok(s)
    else if w.Keys !! s.intents.Keys then Ok(s.(intents := s.intents + NewIntents(txnId, startTs, w)))
    else Err(BatchPrewriteError.PartialBatchReplay)
  }

  ghost function CommitCheck(s: Store, txnId: TxnId, startTs: Timestamp, commitTs: Timestamp,
                             key: Key): Option<BatchCommitError>
  {
    if key !in s.intents then Some(BatchCommitError.IntentNotFound(key))
    else
      var intent := s.intents[key];
      var latest := LatestTs(s.committed.Keys, key);
      if intent.txnId != txnId then Some(BatchCommitError.TxnIdMismatch(key))
      else if intent.startTs != startTs then Some(BatchCommitError.StartTsMismatch(key))
      else if intent.minCommitTs.Some? && commitTs < intent.minCommitTs.value then
        Some(BatchCommitError.CommitTsTooEarly(key, commitTs, intent.minCommitTs.value))
      else if latest.Some? && commitTs <= latest.value then
        Some(BatchCommitError.CommitTsTooOld(key, commitTs, latest.value))
      else None
  }

  ghost function CommitChecks(s: Store, txnId: TxnId, startTs: Timestamp, commitTs: Timestamp,
                              keys: seq<Key>): seq<Option<BatchCommitError>>
  {
    seq(|keys|, i requires 0 <= i < |keys| => CommitCheck(s, txnId, startTs, commitTs, keys[i]))
  }

  /** The values the named intents hold. */
  ghost function IntentValues(s: Store, keys: seq<Key>): map<Key, Option<Value>> {
    map k | k in keys && k in s.intents :: s.intents[k].mutation.ToValue()
  }

  ghost function CommitBatch(s: Store, txnId: TxnId, startTs: Timestamp, commitTs: Timestamp,
                             keys: seq<Key>): Result<Store, BatchCommitError>
  {
    var dup := FirstDuplicate(keys);
    var bad := FirstError(CommitChecks(s, txnId, startTs, commitTs, keys));
    if keys == [] then Err(BatchCommitError.EmptyBatch)
    else if dup.Some? then Err(BatchCommitError.DuplicateKeyInBatch(dup.value))
    else if commitTs <= startTs then Err(BatchCommitError.InvalidCommitTimestamp(startTs, commitTs))
    else if bad.Some? then Err(bad.value)
    else
      var w := IntentValues(s, keys);
      Ok(Store(s.committed + Stamp(w, commitTs), s.intents - w.Keys))
  }

  /** The intents of `(txnId, startTs)` among `keys`. */
  ghost function OwnIntents(s: Store, txnId: TxnId, startTs: Timestamp, keys: seq<Key>): set<Key> {
    set k | k in s.intents && k in keys && s.intents[k].txnId == txnId && s.intents[k].startTs == startTs
  }

  ghost function AbortBatch(s: Store, txnId: TxnId, startTs: Timestamp,
                            keys: seq<Key>): Result<Store, BatchAbortError>
  {
    var dup := FirstDuplicate(keys);
    if dup.Some? then Err(BatchAbortError.DuplicateKeyInBatch(dup.value))
    else Ok(s.(intents := s.intents - OwnIntents(s, txnId, startTs, keys)))
  }

  // ----- direct and guarded batches -----

  ghost function WriteCheck(s: Store, commitTs: Timestamp, w: PhysicalWrite): Option<BatchError> {
    var latest := LatestTs(s.committed.Keys, w.key);
    if w.key in s.intents then Some(BatchError.KeyLocked(w.key, s.intents[w.key].txnId))
    else if latest.Some? && commitTs <= latest.value then Some(BatchError.CommitTsTooOld(w.key, commitTs, latest.value))
    else None
  }

  ghost function WriteChecks(s: Store, commitTs: Timestamp, writes: seq<PhysicalWrite>): seq<Option<BatchError>> {
    seq(|writes|, i requires 0 <= i < |writes| => WriteCheck(s, commitTs, writes[i]))
  }

  ghost function Install(s: Store, commitTs: Timestamp, w: map<Key, Option<Value>>): Store {
    s.(committed := s.committed + Stamp(w, commitTs))
  }

  ghost function DirectBatch(s: Store, commitTs: Timestamp, writes: seq<PhysicalWrite>): Result<Store, BatchError> {
    var dup := FirstDuplicate(WriteKeys(writes));
    var bad := FirstError(WriteChecks(s, commitTs, writes));
    if writes == [] then Err(BatchError.EmptyBatch)
    else if dup.Some? then Err(BatchError.DuplicateKeyInBatch(dup.value))
    else if bad.Some? then Err(bad.value)
    else Ok(Install(s, commitTs, WriteMap(writes)))
  }

  ghost function GuardCheck(s: Store, commitTs: Timestamp, g: ReadGuard): Option<BatchError> {
    var latest := LatestTs(s.committed.Keys, g.key);
    var seen := ReadVersion(s.committed, g.key, g.readTs);
    if commitTs <= g.readTs then Some(BatchError.InvalidCommitTimestamp(g.readTs, commitTs))
    else if g.key in s.intents then Some(BatchError.KeyLocked(g.key, s.intents[g.key].txnId))
    else if latest.Some? && latest.value > g.readTs then
      Some(BatchError.GuardFailedNewerVersion(g.key, g.readTs, latest.value))
    else match g
      case ExpectedVersion(key, _, expected) =>
        var actual: Option<Timestamp> := if seen.Some? then Some(seen.value.0) else None;
        if actual != expected then Some(BatchError.GuardFailedVersionMismatch(key, expected, actual)) else None
      case ExpectedValue(key, _, expected) =>
        if Read(s.committed, key, g.readTs) != expected then Some(BatchError.GuardFailedValueMismatch(key)) else None
  }

  ghost function GuardChecks(s: Store, commitTs: Timestamp, guards: seq<ReadGuard>): seq<Option<BatchError>> {
    seq(|guards|, i requires 0 <= i < |guards| => GuardCheck(s, commitTs, guards[i]))
  }

  ghost function GuardedBatch(s: Store, commitTs: Timestamp, guards: seq<ReadGuard>,
                              writes: seq<PhysicalWrite>): Result<Store, BatchError>
  {
    var dup := FirstDuplicate(WriteKeys(writes));
    var failed := FirstError(GuardChecks(s, commitTs, guards));
    var bad := FirstError(WriteChecks(s, commitTs, writes));
    if writes == [] then Err(BatchError.EmptyBatch)
    else if guards == [] then Err(BatchError.NoReadGuards)
    else if dup.Some? then Err(BatchError.DuplicateKeyInBatch(dup.value))
    else if failed.Some? then Err(failed.value)
    else if bad.Some? then Err(bad.value)
    else Ok(Install(s, commitTs, WriteMap(writes)))
  }

  // ----- folds of the backend against the maps above -----

  lemma {:induction false} PutFirstAppends(m: map<VKey, Option<Value>>, vs: seq<CommittedVersion>, n: nat)
    requires n <= |vs|
    ensures PutFirst(m, vs, n) == m + PutFirst(map[], vs, n)
  {
    if n > 0 { PutFirstAppends(m, vs, n - 1); }
  }

  lemma {:induction false} PutFirstStores(vs: seq<CommittedVersion>, n: nat, i: nat)
    requires i < n <= |vs|
    requires forall j :: i < j < |vs| ==> vs[j].key != vs[i].key
    ensures VKey(vs[i].key, vs[i].commitTs) in PutFirst(map[], vs, n)
    ensures PutFirst(map[], vs, n)[VKey(vs[i].key, vs[i].commitTs)] == vs[i].value
  {
    if i < n - 1 { PutFirstStores(vs, n - 1, i); }
  }

  lemma {:induction false} PutFirstOnly(vs: seq<CommittedVersion>, n: nat, v: VKey) returns (i: nat)
    requires n <= |vs| && v in PutFirst(map[], vs, n)
    ensures i < n && v == VKey(vs[i].key, vs[i].commitTs)
  {
    i := n - 1;
    if v != VKey(vs[i].key, vs[i].commitTs) { i := PutFirstOnly(vs, n - 1, v); }
  }

  /** Storing a batch version by version installs its map at the commit timestamp. */
  lemma PutAllStamps(m: map<VKey, Option<Value>>, vs: seq<CommittedVersion>, ts: Timestamp, w: map<Key, Option<Value>>)
    requires forall i, j :: 0 <= i < j < |vs| ==> vs[i].key != vs[j].key
    requires forall i :: 0 <= i < |vs| ==> vs[i].commitTs == ts && vs[i].key in w && w[vs[i].key] == vs[i].value
    requires forall k :: k in w ==> exists i :: 0 <= i < |vs| && vs[i].key == k
    ensures PutAll(m, vs) == m + Stamp(w, ts)
  {
    PutFirstAppends(m, vs, |vs|);
    var a, b := PutAll(map[], vs), Stamp(w, ts);
    forall v | v in b ensures v in a && a[v] == b[v] {
      var i :| 0 <= i < |vs| && vs[i].key == v.key;
      PutFirstStores(vs, |vs|, i);
    }
    forall v | v in a ensures v in b {
      var i := PutFirstOnly(vs, |vs|, v);
    }
    assert a == b;
  }

  lemma {:induction false} PutFirstIntentsAppends(m: map<Key, Intent>, ins: seq<Intent>, n: nat)
    requires n <= |ins|
    ensures PutFirstIntents(m, ins, n) == m + PutFirstIntents(map[], ins, n)
  {
    if n > 0 { PutFirstIntentsAppends(m, ins, n - 1); }
  }

  lemma {:induction false} PutFirstIntentsStores(ins: seq<Intent>, n: nat, i: nat)
    requires i < n <= |ins|
    requires forall j :: i < j < |ins| ==> ins[j].key != ins[i].key
    ensures ins[i].key in PutFirstIntents(map[], ins, n) && PutFirstIntents(map[], ins, n)[ins[i].key] == ins[i]
  {
    if i < n - 1 { PutFirstIntentsStores(ins, n - 1, i); }
  }

  lemma {:induction false} PutFirstIntentsOnly(ins: seq<Intent>, n: nat, k: Key) returns (i: nat)
    requires n <= |ins| && k in PutFirstIntents(map[], ins, n)
    ensures i < n && k == ins[i].key
  {
    i := n - 1;
    if k != ins[i].key { i := PutFirstIntentsOnly(ins, n - 1, k); }
  }

  lemma PutAllIntentsMap(m: map<Key, Intent>, ins: seq<Intent>, w: map<Key, Intent>)
    requires forall i, j :: 0 <= i < j < |ins| ==> ins[i].key != ins[j].key
    requires forall i :: 0 <= i < |ins| ==> ins[i].key in w && w[ins[i].key] == ins[i]
    requires forall k :: k in w ==> exists i :: 0 <= i < |ins| && ins[i].key == k
    ensures PutAllIntents(m, ins) == m + w
  {
    PutFirstIntentsAppends(m, ins, |ins|);
    var a := PutAllIntents(map[], ins);
    forall k | k in w ensures k in a && a[k] == w[k] {
      var i :| 0 <= i < |ins| && ins[i].key == k;
      PutFirstIntentsStores(ins, |ins|, i);
    }
    forall k | k in a ensures k in w {
      var i := PutFirstIntentsOnly(ins, |ins|, k);
    }
    assert a == w;
  }
}
