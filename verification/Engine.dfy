/** `MvccEngine`: the transactional state machine over one backend. */
module Engine {
  import opened Types
  import opened Bytes
  import opened Ordered
  import opened History
  import opened Backend
  import opened Gc
  import opened Planner
  import T = Transitions

  /** The outcome a transition prescribes: its new store, or its error and the store untouched. */
  ghost predicate Follows<E>(spec: Result<Store, E>, pre: Store, r: Result<(), E>, post: Store) {
    match spec
    case Ok(s) => r == Ok(()) && post == s
    case Err(e) => r == Err(e) && post == pre
  }

  class MvccEngine {
    const backend: InMemoryBackend

    constructor (backend: InMemoryBackend)
      ensures this.backend == backend
    {
      this.backend := backend;
    }

    // ----- reads -----

    function Read(key: Key, readTs: Timestamp): (r: Option<Value>)
      reads backend
      ensures r == History.Read(backend.committed, key, readTs)
    {
      var v := backend.GetVisibleCommitted(key, readTs);
      if v.Some? then v.value.value else None
    }

    function ReadWithVersion(key: Key, readTs: Timestamp): (r: Option<(Timestamp, Option<Value>)>)
      reads backend
      ensures r == ReadVersion(backend.committed, key, readTs)
    {
      var v := backend.GetVisibleCommitted(key, readTs);
      if v.Some? then Some((v.value.commitTs, v.value.value)) else None
    }

    /** A transaction sees its own intent; everyone else sees committed history only. */
    function ReadOwnWrite(key: Key, txnId: TxnId, startTs: Timestamp, readTs: Timestamp): (r: Option<Value>)
      reads backend
      ensures r == if key in backend.intents
                      && backend.intents[key].txnId == txnId && backend.intents[key].startTs == startTs
                   then backend.intents[key].mutation.ToValue()
                   else History.Read(backend.committed, key, readTs)
    {
      var intent := backend.GetIntent(key);
      if intent.Some? && intent.value.txnId == txnId && intent.value.startTs == startTs
      then intent.value.mutation.ToValue()
      else Read(key, readTs)
    }

    // ----- single-key intents -----

    method Prewrite(txnId: TxnId, startTs: Timestamp, key: Key, mutation: Mutation)
      returns (r: Result<(), PrewriteError>)
      requires backend.Valid()
      modifies backend
      ensures backend.Valid()
      ensures Follows(T.Prewrite(old(backend.Contents()), txnId, startTs, key, mutation), old(backend.Contents()), r,
                      backend.Contents())
    {
      hide InMemoryBackend.GetLatestCommitTs, VisibleTs;
      var existing := backend.GetIntent(key);
      if existing.Some? {
        var intent := existing.value;
        if intent.txnId != txnId {
          return Err(PrewriteError.KeyLocked(intent.txnId));
        }
        if intent.startTs != startTs {
          return Err(PrewriteError.IntentAlreadyExists);
        }
        if intent.mutation != mutation {
          return Err(PrewriteError.IntentAlreadyExists);
        }
        return Ok(());
      }
      var latest := backend.GetLatestCommitTs(key);
      if latest.Some? && latest.value > startTs {
        return Err(PrewriteError.WriteConflict);
      }
      backend.PutIntent(Intent(key, txnId, startTs, mutation, None));
      return Ok(());
    }

    method Commit(txnId: TxnId, key: Key, startTs: Timestamp, commitTs: Timestamp) returns (r: Result<(), CommitError>)
      requires backend.Valid()
      modifies backend
      ensures backend.Valid()
      ensures Follows(T.Commit(old(backend.Contents()), txnId, key, startTs, commitTs), old(backend.Contents()), r,
                      backend.Contents())
    {
      hide InMemoryBackend.GetLatestCommitTs, VisibleTs;
      var found := backend.GetIntent(key);
      if found.None? {
        return Err(CommitError.IntentNotFound);
      }
      var intent := found.value;
      if intent.txnId != txnId {
        return Err(CommitError.TxnIdMismatch);
      }
      if intent.startTs != startTs {
        return Err(CommitError.StartTsMismatch);
      }
      if commitTs <= startTs {
        return Err(CommitError.InvalidCommitTimestamp(startTs, commitTs));
      }
      if intent.minCommitTs.Some? && commitTs < intent.minCommitTs.value {
        return Err(CommitError.CommitTsTooEarly(commitTs, intent.minCommitTs.value));
      }
      var latest := backend.GetLatestCommitTs(key);
      if latest.Some? && commitTs <= latest.value {
        if commitTs == latest.value {
          return Err(CommitError.DuplicateCommitTimestamp(commitTs));
        } else {
          return Err(CommitError.CommitTsTooOld(commitTs, latest.value));
        }
      }
      var version := CommittedVersion(key, commitTs, intent.mutation.ToValue());
      ghost var m := backend.committed;
      backend.CommitIntentsBatch([version], [IntentRef(key, txnId, startTs)]);
      assert PutFirst(m, [version], 0) == m;
      assert backend.committed == m[VKey(key, commitTs) := version.value];
      return Ok(());
    }

    method Abort(txnId: TxnId, key: Key, startTs: Timestamp)
      requires backend.Valid()
      modifies backend
      ensures backend.Valid()
      ensures backend.Contents() == T.Abort(old(backend.Contents()), txnId, key, startTs)
    {
      var removed := backend.RemoveIntent(key, txnId, startTs);
    }

    // ----- batches of intents -----

    /** The duplicate-key loop every batch starts with. */
    static method FindDuplicate(keys: seq<Key>) returns (dup: Option<Key>)
      ensures dup == T.FirstDuplicate(keys)
    {
      var keySet: set<Key> := {};
      var i := 0;
      ghost var errs := T.Repeats(keys);
      while i < |keys|
        invariant 0 <= i <= |keys|
        invariant forall k :: k in keySet <==> k in keys[..i]
        invariant forall j :: 0 <= j < i ==> errs[j].None?
      {
        if keys[i] in keySet {
          T.FirstErrorAt(errs, i);
          return Some(keys[i]);
        }
        keySet := keySet + {keys[i]};
        i := i + 1;
      }
      return None;
    }

    method PrewriteBatch(txnId: TxnId, startTs: Timestamp, writes: seq<PhysicalWrite>)
      returns (r: Result<(), BatchPrewriteError>)
      requires backend.Valid()
      modifies backend
      ensures backend.Valid()
      ensures Follows(T.PrewriteBatch(old(backend.Contents()), txnId, startTs, writes), old(backend.Contents()), r,
                      backend.Contents())
    {
      if writes == [] {
        return Err(BatchPrewriteError.EmptyBatch);
      }
      var dup := FindDuplicate(T.WriteKeys(writes));
      if dup.Some? {
        return Err(BatchPrewriteError.DuplicateKeyInBatch(dup.value));
      }
      var bad, existing := ValidatePrewrites(txnId, startTs, writes);
      if bad.Some? {
        return Err(bad.value);
      }
      if existing == |writes| {
        return Ok(());
      } else if existing > 0 {
        return Err(BatchPrewriteError.PartialBatchReplay);
      }
      var intents: seq<Intent> := [];
      var i := 0;
      while i < |writes|
        invariant 0 <= i <= |writes| && |intents| == i
        invariant forall j :: 0 <= j < i ==>
                  intents[j] == Intent(writes[j].key, txnId, startTs, MutationOf(writes[j].value), None)
      {
        intents := intents + [Intent(writes[i].key, txnId, startTs, MutationOf(writes[i].value), None)];
        i := i + 1;
      }
      IntentsAreNew(txnId, startTs, writes, intents);
      T.PutAllIntentsMap(backend.intents, intents, T.NewIntents(txnId, startTs, T.WriteMap(writes)));
      backend.PutIntentsBatch(intents);
      return Ok(());
    }

    lemma IntentsAreNew(txnId: TxnId, startTs: Timestamp, writes: seq<PhysicalWrite>, intents: seq<Intent>)
      requires T.Distinct(T.WriteKeys(writes)) && |intents| == |writes|
      requires forall j :: 0 <= j < |writes| ==>
                intents[j] == Intent(writes[j].key, txnId, startTs, MutationOf(writes[j].value), None)
      ensures forall i, j :: 0 <= i < j < |intents| ==> intents[i].key != intents[j].key
      ensures forall i :: 0 <= i < |intents| ==>
                var w := T.NewIntents(txnId, startTs, T.WriteMap(writes));
                intents[i].key in w && w[intents[i].key] == intents[i]
      ensures forall k :: k in T.NewIntents(txnId, startTs, T.WriteMap(writes)) ==>
                exists i :: 0 <= i < |intents| && intents[i].key == k
    {
      forall i, j | 0 <= i < j < |intents| ensures intents[i].key != intents[j].key {
        assert T.WriteKeys(writes)[i] != T.WriteKeys(writes)[j];
      }
      forall i | 0 <= i < |intents|
        ensures writes[i].key in T.WriteMap(writes) && T.WriteMap(writes)[writes[i].key] == writes[i].value
      {
        T.WriteMapAt(writes, i);
      }
      forall k | k in T.WriteMap(writes) ensures exists i :: 0 <= i < |intents| && intents[i].key == k {
        var i :| 0 <= i < |writes| && writes[i].key == k;
        assert intents[i].key == k;
      }
    }

    /** The validation loop: the first conflict, or how many of the intents exist already. */
    method ValidatePrewrites(txnId: TxnId, startTs: Timestamp, writes: seq<PhysicalWrite>)
      returns (bad: Option<BatchPrewriteError>, existing: nat)
      requires T.Distinct(T.WriteKeys(writes)) && writes != []
      ensures bad == T.FirstError(T.PrewriteChecks(backend.Contents(), txnId, startTs, writes))
      ensures bad.None? ==> (existing == |writes| <==> T.WriteMap(writes).Keys <= backend.intents.Keys)
      ensures bad.None? ==> (existing == 0 <==> T.WriteMap(writes).Keys !! backend.intents.Keys)
    {
      bad, existing := None, 0;
      ghost var errs := T.PrewriteChecks(backend.Contents(), txnId, startTs, writes);
      var i := 0;
      while i < |writes|
        invariant 0 <= existing <= i <= |writes|
        invariant forall j :: 0 <= j < i ==> errs[j].None?
        invariant bad.None?
        invariant existing == i <==> forall j :: 0 <= j < i ==> writes[j].key in backend.intents
        invariant existing == 0 <==> forall j :: 0 <= j < i ==> writes[j].key !in backend.intents
      {
        var found: bool;
        bad, found := CheckPrewrite(txnId, startTs, writes[i]);
        assert errs[i] == bad;
        if bad.Some? {
          T.FirstErrorAt(errs, i);
          return;
        }
        if found {
          existing := existing + 1;
        }
        i := i + 1;
      }
      assert forall j :: 0 <= j < |writes| ==> writes[j].key in T.WriteMap(writes).Keys;
    }

    method CheckPrewrite(txnId: TxnId, startTs: Timestamp, w: PhysicalWrite)
      returns (bad: Option<BatchPrewriteError>, exists': bool)
      ensures bad == T.PrewriteCheck(backend.Contents(), txnId, startTs, w)
      ensures exists' <==> w.key in backend.intents
    {
      hide InMemoryBackend.GetLatestCommitTs, VisibleTs;
      var found := backend.GetIntent(w.key);
      if found.Some? {
        var intent := found.value;
        if intent.txnId != txnId {
          return Some(BatchPrewriteError.KeyLocked(w.key, intent.txnId)), true;
        }
        var expected := if w.value.Some? then Put(w.value.value) else Delete;
        if intent.startTs != startTs || intent.mutation != expected {
          return Some(BatchPrewriteError.IntentAlreadyExists(w.key)), true;
        }
        return None, true;
      }
      var latest := backend.GetLatestCommitTs(w.key);
      if latest.Some? && latest.value > startTs {
        return Some(BatchPrewriteError.WriteConflict(w.key)), false;
      }
      return None, false;
    }

    method CommitBatch(txnId: TxnId, startTs: Timestamp, commitTs: Timestamp, keys: seq<Key>)
      returns (r: Result<(), BatchCommitError>)
      requires backend.Valid()
      modifies backend
      ensures backend.Valid()
      ensures Follows(T.CommitBatch(old(backend.Contents()), txnId, startTs, commitTs, keys),
                      old(backend.Contents()), r, backend.Contents())
    {
      if keys == [] {
        return Err(BatchCommitError.EmptyBatch);
      }
      var dup := FindDuplicate(keys);
      if dup.Some? {
        return Err(BatchCommitError.DuplicateKeyInBatch(dup.value));
      }
      if commitTs <= startTs {
        return Err(BatchCommitError.InvalidCommitTimestamp(startTs, commitTs));
      }
      var bad, commits, refs := ValidateCommits(txnId, startTs, commitTs, keys);
      if bad.Some? {
        return Err(bad.value);
      }
      ghost var s := backend.Contents();
      CommitsStamp(s, commitTs, keys, commits);
      RefsRelease(s, txnId, startTs, keys, refs);
      backend.CommitIntentsBatch(commits, refs);
      return Ok(());
    }

    /** The validation loop: the first conflict, or the versions to create and the intents to drop. */
    method ValidateCommits(txnId: TxnId, startTs: Timestamp, commitTs: Timestamp, keys: seq<Key>)
      returns (bad: Option<BatchCommitError>, commits: seq<CommittedVersion>, refs: seq<IntentRef>)
      ensures bad == T.FirstError(T.CommitChecks(backend.Contents(), txnId, startTs, commitTs, keys))
      ensures bad.None? ==> |commits| == |refs| == |keys|
      ensures bad.None? ==> forall j :: 0 <= j < |keys| ==>
                && T.CommitCheck(backend.Contents(), txnId, startTs, commitTs, keys[j]).None?
                && commits[j] == CommittedVersion(keys[j], commitTs, backend.intents[keys[j]].mutation.ToValue())
                && refs[j] == IntentRef(keys[j], txnId, startTs)
    {
      bad, commits, refs := None, [], [];
      ghost var errs := T.CommitChecks(backend.Contents(), txnId, startTs, commitTs, keys);
      var i := 0;
      while i < |keys|
        invariant 0 <= i <= |keys| && |commits| == |refs| == i && bad.None?
        invariant forall j :: 0 <= j < i ==>
                    && errs[j].None?
                    && keys[j] in backend.intents
                    && commits[j] == CommittedVersion(keys[j], commitTs, backend.intents[keys[j]].mutation.ToValue())
                    && refs[j] == IntentRef(keys[j], txnId, startTs)
      {
        bad := CheckCommit(txnId, startTs, commitTs, keys[i]);
        assert errs[i] == bad;
        if bad.Some? {
          T.FirstErrorAt(errs, i);
          return;
        }
        commits := commits + [CommittedVersion(keys[i], commitTs, backend.intents[keys[i]].mutation.ToValue())];
        refs := refs + [IntentRef(keys[i], txnId, startTs)];
        i := i + 1;
      }
      assert forall j :: 0 <= j < |keys| ==>
        errs[j] == T.CommitCheck(backend.Contents(), txnId, startTs, commitTs, keys[j]);
    }

    method CheckCommit(txnId: TxnId, startTs: Timestamp, commitTs: Timestamp, key: Key)
      returns (bad: Option<BatchCommitError>)
      ensures bad == T.CommitCheck(backend.Contents(), txnId, startTs, commitTs, key)
    {
      hide InMemoryBackend.GetLatestCommitTs, VisibleTs;
      var found := backend.GetIntent(key);
      if found.None? {
        return Some(BatchCommitError.IntentNotFound(key));
      }
      var intent := found.value;
      if intent.txnId != txnId {
        return Some(BatchCommitError.TxnIdMismatch(key));
      }
      if intent.startTs != startTs {
        return Some(BatchCommitError.StartTsMismatch(key));
      }
      if intent.minCommitTs.Some? && commitTs < intent.minCommitTs.value {
        return Some(BatchCommitError.CommitTsTooEarly(key, commitTs, intent.minCommitTs.value));
      }
      var latest := backend.GetLatestCommitTs(key);
      if latest.Some? && commitTs <= latest.value {
        return Some(BatchCommitError.CommitTsTooOld(key, commitTs, latest.value));
      }
      return None;
    }

    lemma {:induction false} CommitsStamp(s: Store, commitTs: Timestamp, keys: seq<Key>, commits: seq<CommittedVersion>)
      requires T.Distinct(keys) && |commits| == |keys|
      requires forall j :: 0 <= j < |keys| ==>
                 && keys[j] in s.intents
                 && commits[j] == CommittedVersion(keys[j], commitTs, s.intents[keys[j]].mutation.ToValue())
      ensures PutAll(s.committed, commits) == s.committed + T.Stamp(T.IntentValues(s, keys), commitTs)
    {
      var w := T.IntentValues(s, keys);
      forall k | k in w ensures exists i :: 0 <= i < |commits| && commits[i].key == k {
        var i :| 0 <= i < |keys| && keys[i] == k;
        assert commits[i].key == k;
      }
      T.PutAllStamps(s.committed, commits, commitTs, w);
    }

    lemma RefsRelease(s: Store, txnId: TxnId, startTs: Timestamp, keys: seq<Key>, refs: seq<IntentRef>)
      requires |refs| == |keys|
      requires forall j :: 0 <= j < |keys| ==>
                 keys[j] in s.intents && s.intents[keys[j]].txnId == txnId && s.intents[keys[j]].startTs == startTs
                 && refs[j] == IntentRef(keys[j], txnId, startTs)
      ensures Release(s.intents, refs) == s.intents - T.IntentValues(s, keys).Keys
    {
      forall k | k in s.intents ensures IntentRef(k, s.intents[k].txnId, s.intents[k].startTs) in refs <==> k in keys {
        var ref := IntentRef(k, s.intents[k].txnId, s.intents[k].startTs);
        if ref in refs {
          var j :| 0 <= j < |refs| && refs[j] == ref;
          assert keys[j] == k;
        }
        if k in keys {
          var j :| 0 <= j < |keys| && keys[j] == k;
          assert refs[j] == ref;
        }
      }
    }

    method AbortBatch(txnId: TxnId, startTs: Timestamp, keys: seq<Key>) returns (r: Result<(), BatchAbortError>)
      requires backend.Valid()
      modifies backend
      ensures backend.Valid()
      ensures Follows(T.AbortBatch(old(backend.Contents()), txnId, startTs, keys), old(backend.Contents()), r,
                      backend.Contents())
    {
      if keys == [] {
        assert T.OwnIntents(backend.Contents(), txnId, startTs, keys) == {};
        return Ok(());
      }
      var dup := FindDuplicate(keys);
      if dup.Some? {
        return Err(BatchAbortError.DuplicateKeyInBatch(dup.value));
      }
      var refs: seq<IntentRef> := [];
      var i := 0;
      while i < |keys|
        invariant 0 <= i <= |keys|
        invariant forall ref :: ref in refs <==>
                    ref.key in keys[..i] && ref.key in backend.intents && ref == IntentRef(ref.key, txnId, startTs)
                    && backend.intents[ref.key].txnId == txnId && backend.intents[ref.key].startTs == startTs
      {
        var found := backend.GetIntent(keys[i]);
        if found.Some? && found.value.txnId == txnId && found.value.startTs == startTs {
          refs := refs + [IntentRef(keys[i], txnId, startTs)];
        }
        i := i + 1;
      }
      assert keys[..i] == keys;
      assert Release(backend.intents, refs) == backend.intents - T.OwnIntents(backend.Contents(), txnId, startTs, keys);
      backend.RemoveIntentsBatch(refs);
      return Ok(());
    }

    // ----- direct and guarded batches -----

    method ApplyDirectBatch(commitTs: Timestamp, writes: seq<PhysicalWrite>) returns (r: Result<(), BatchError>)
      requires backend.Valid()
      modifies backend
      ensures backend.Valid()
      ensures Follows(T.DirectBatch(old(backend.Contents()), commitTs, writes), old(backend.Contents()), r,
                      backend.Contents())
    {
      if writes == [] {
        return Err(BatchError.EmptyBatch);
      }
      var dup := FindDuplicate(T.WriteKeys(writes));
      if dup.Some? {
        return Err(BatchError.DuplicateKeyInBatch(dup.value));
      }
      var bad := ValidateWrites(commitTs, writes);
      if bad.Some? {
        return Err(bad.value);
      }
      InstallWrites(commitTs, writes);
      return Ok(());
    }

    method ApplyGuardedBatch(commitTs: Timestamp, guards: seq<ReadGuard>, writes: seq<PhysicalWrite>)
      returns (r: Result<(), BatchError>)
      requires backend.Valid()
      modifies backend
      ensures backend.Valid()
      ensures Follows(T.GuardedBatch(old(backend.Contents()), commitTs, guards, writes), old(backend.Contents()), r,
                      backend.Contents())
    {
      if writes == [] {
        return Err(BatchError.EmptyBatch);
      }
      if guards == [] {
        return Err(BatchError.NoReadGuards);
      }
      var dup := FindDuplicate(T.WriteKeys(writes));
      if dup.Some? {
        return Err(BatchError.DuplicateKeyInBatch(dup.value));
      }
      var failed := ValidateGuards(commitTs, guards);
      if failed.Some? {
        return Err(failed.value);
      }
      var bad := ValidateWrites(commitTs, writes);
      if bad.Some? {
        return Err(bad.value);
      }
      InstallWrites(commitTs, writes);
      return Ok(());
    }

    method ValidateWrites(commitTs: Timestamp, writes: seq<PhysicalWrite>) returns (bad: Option<BatchError>)
      ensures bad == T.FirstError(T.WriteChecks(backend.Contents(), commitTs, writes))
    {
      ghost var errs := T.WriteChecks(backend.Contents(), commitTs, writes);
      var i := 0;
      while i < |writes|
        invariant 0 <= i <= |writes|
        invariant forall j :: 0 <= j < i ==> errs[j].None?
      {
        bad := CheckWrite(commitTs, writes[i]);
        assert errs[i] == bad;
        if bad.Some? {
          T.FirstErrorAt(errs, i);
          return;
        }
        i := i + 1;
      }
      return None;
    }

    method CheckWrite(commitTs: Timestamp, w: PhysicalWrite) returns (bad: Option<BatchError>)
      ensures bad == T.WriteCheck(backend.Contents(), commitTs, w)
    {
      hide InMemoryBackend.GetLatestCommitTs, VisibleTs;
      var intent := backend.GetIntent(w.key);
      if intent.Some? {
        return Some(BatchError.KeyLocked(w.key, intent.value.txnId));
      }
      var latest := backend.GetLatestCommitTs(w.key);
      if latest.Some? && commitTs <= latest.value {
        return Some(BatchError.CommitTsTooOld(w.key, commitTs, latest.value));
      }
      return None;
    }

    method ValidateGuards(commitTs: Timestamp, guards: seq<ReadGuard>) returns (bad: Option<BatchError>)
      ensures bad == T.FirstError(T.GuardChecks(backend.Contents(), commitTs, guards))
    {
      ghost var errs := T.GuardChecks(backend.Contents(), commitTs, guards);
      var i := 0;
      while i < |guards|
        invariant 0 <= i <= |guards|
        invariant forall j :: 0 <= j < i ==> errs[j].None?
      {
        bad := CheckGuard(commitTs, guards[i]);
        assert errs[i] == bad;
        if bad.Some? {
          T.FirstErrorAt(errs, i);
          return;
        }
        i := i + 1;
      }
      return None;
    }

    method CheckGuard(commitTs: Timestamp, guard: ReadGuard) returns (bad: Option<BatchError>)
      ensures bad == T.GuardCheck(backend.Contents(), commitTs, guard)
    {
      hide InMemoryBackend.GetLatestCommitTs, InMemoryBackend.GetVisibleCommitted, VisibleTs;
      var key, readTs := guard.key, guard.readTs;
      if commitTs <= readTs {
        return Some(BatchError.InvalidCommitTimestamp(readTs, commitTs));
      }
      var intent := backend.GetIntent(key);
      if intent.Some? {
        return Some(BatchError.KeyLocked(key, intent.value.txnId));
      }
      var latest := backend.GetLatestCommitTs(key);
      if latest.Some? && latest.value > readTs {
        return Some(BatchError.GuardFailedNewerVersion(key, readTs, latest.value));
      }
      var visible := backend.GetVisibleCommitted(key, readTs);
      match guard {
        case ExpectedVersion(_, _, expected) =>
          var actual := if visible.Some? then Some(visible.value.commitTs) else None;
          if actual != expected {
            return Some(BatchError.GuardFailedVersionMismatch(key, expected, actual));
          }
        case ExpectedValue(_, _, expected) =>
          var actual := if visible.Some? then visible.value.value else None;
          if actual != expected {
            return Some(BatchError.GuardFailedValueMismatch(key));
          }
      }
      return None;
    }

    /** Builds the versions of a validated batch and stores them together. */
    method InstallWrites(commitTs: Timestamp, writes: seq<PhysicalWrite>)
      requires backend.Valid() && T.Distinct(T.WriteKeys(writes))
      modifies backend
      ensures backend.Valid()
      ensures backend.Contents() == T.Install(old(backend.Contents()), commitTs, T.WriteMap(writes))
    {
      var commits: seq<CommittedVersion> := [];
      var i := 0;
      while i < |writes|
        invariant 0 <= i <= |writes| && |commits| == i
        invariant forall j :: 0 <= j < i ==> commits[j] == CommittedVersion(writes[j].key, commitTs, writes[j].value)
      {
        commits := commits + [CommittedVersion(writes[i].key, commitTs, writes[i].value)];
        i := i + 1;
      }
      CommitsAreWrites(backend.committed, commitTs, writes, commits);
      backend.PutCommittedBatch(commits);
    }

    lemma {:induction false} CommitsAreWrites(m: map<VKey, Option<Value>>, commitTs: Timestamp,
                                              writes: seq<PhysicalWrite>, commits: seq<CommittedVersion>)
      requires T.Distinct(T.WriteKeys(writes)) && |commits| == |writes|
      requires forall j :: 0 <= j < |writes| ==>
                commits[j] == CommittedVersion(writes[j].key, commitTs, writes[j].value)
      ensures PutAll(m, commits) == m + T.Stamp(T.WriteMap(writes), commitTs)
    {
      forall i, j | 0 <= i < j < |commits| ensures commits[i].key != commits[j].key {
        assert T.WriteKeys(writes)[i] != T.WriteKeys(writes)[j];
      }
      forall i | 0 <= i < |writes|
        ensures writes[i].key in T.WriteMap(writes) && T.WriteMap(writes)[writes[i].key] == writes[i].value
      {
        T.WriteMapAt(writes, i);
      }
      forall k | k in T.WriteMap(writes) ensures exists i :: 0 <= i < |commits| && commits[i].key == k {
        var i :| 0 <= i < |writes| && writes[i].key == k;
        assert commits[i].key == k;
      }
      T.PutAllStamps(m, commits, commitTs, T.WriteMap(writes));
    }

    // ----- garbage collection -----

    /** A bounded plan for one key. Planning changes nothing. */
    method PlanKeyGc(key: Key, safePointTs: Timestamp, options: KeyGcOptions) returns (r: Result<KeyGcPlan, GcError>)
      ensures options.maxVersionsExamined == 0 ==> r == Err(InvalidKeyGcBudget)
      ensures options.maxVersionsExamined > 0 ==>
                r.Ok? && IsPlan(backend.Contents(), safePointTs, options, key, r.value)
    {
      hide VisibleTs, InMemoryBackend.GetVisibleCommitted, InMemoryBackend.GetLatestCommitTs, OlderThan;
      if options.maxVersionsExamined == 0 {
        return Err(InvalidKeyGcBudget);
      }
      var keeper := backend.GetVisibleCommitted(key, safePointTs);
      if keeper.None? {
        return Ok(KeyGcPlan(key, [], None, 0, true));
      }
      var collapseFinal := false;
      if options.collapse && keeper.value.value.None? && backend.GetIntent(key).None? {
        collapseFinal := backend.GetLatestCommitTs(key) == Some(keeper.value.commitTs);
      }
      var versionsToRemove := backend.GetCommittedTimestampsBefore(key, keeper.value.commitTs,
                                                                   options.maxVersionsExamined);
      var complete := |versionsToRemove| < options.maxVersionsExamined;
      var collapseTombstone := if collapseFinal && complete then Some(keeper.value.commitTs) else None;
      return Ok(KeyGcPlan(key, versionsToRemove, collapseTombstone, |versionsToRemove|, complete));
    }

    /** Carrying out a plan, as a caller of the planner must: a collapse together with its history. */
    method ApplyPlan(plan: KeyGcPlan)
      requires backend.Valid()
      modifies backend
      ensures backend.Valid()
      ensures backend.Contents() == Applied(old(backend.Contents()), plan)
    {
      if plan.collapseTombstone.Some? {
        backend.CollapseTombstone(plan.key, plan.collapseTombstone.value, plan.versionsToRemove);
      } else {
        RemoveVersions(plan.key, plan.versionsToRemove);
        assert old(backend.committed) - {} == old(backend.committed);
      }
    }

    method RemoveVersions(key: Key, tss: seq<Timestamp>)
      requires backend.Valid()
      modifies backend
      ensures backend.Valid()
      ensures backend.Contents() == old(backend.Contents()).(committed := old(backend.committed) - VersionSet(key, tss))
    {
      var i := 0;
      while i < |tss|
        invariant 0 <= i <= |tss|
        invariant backend.Valid() && backend.intents == old(backend.intents)
        invariant backend.committed == old(backend.committed) - VersionSet(key, tss[..i])
      {
        backend.RemoveCommittedVersion(key, tss[i]);
        assert VersionSet(key, tss[..i + 1]) == VersionSet(key, tss[..i]) + {VKey(key, tss[i])};
        i := i + 1;
      }
      assert tss[..i] == tss;
    }

    /** The body of the scan: one key under the versions left in the budget. */
    method GcKey(key: Key, safePointTs: Timestamp, collapse: bool, hasIntent: bool, limit: nat)
      returns (scanned: nat, removed: nat, exhausted: bool)
      requires backend.Valid() && (hasIntent <==> key in backend.intents)
      modifies backend
      ensures backend.Valid()
      ensures KeyStep(old(backend.Contents()), safePointTs, collapse, key, limit, backend.Contents(), scanned,
                      removed, exhausted)
    {
      hide VisibleTs, InMemoryBackend.GetVisibleCommitted, InMemoryBackend.GetLatestCommitTs, OlderThan, VersionSet,
           IsFirst;
      ghost var s := backend.Contents();
      var keeper := backend.GetVisibleCommitted(key, safePointTs);
      if keeper.None? {
        KeyIdle(s, safePointTs, collapse, key);
        return 0, 0, false;
      }
      var keeperTs := keeper.value.commitTs;
      var isFinalTombstone := false;
      if collapse && keeper.value.value.None? && !hasIntent {
        isFinalTombstone := backend.GetLatestCommitTs(key) == Some(keeperTs);
      }
      assert isFinalTombstone <==> Collapsible(s, safePointTs, collapse, key);
      if limit == 0 {
        var more := backend.GetCommittedTimestampsBefore(key, keeperTs, 1);
        KeyOutOfBudget(s, safePointTs, collapse, key, more);
        return 1, 0, more != [] || isFinalTombstone;
      }
      var older := backend.GetCommittedTimestampsBefore(key, keeperTs, limit + 1);
      if |older| > limit {
        KeyPartOf(s, safePointTs, collapse, key, older, limit);
        RemoveVersions(key, older[..limit]);
        return 1 + limit, limit, true;
      }
      if isFinalTombstone {
        KeyTombstone(s, safePointTs, collapse, key, older, limit);
        if |older| < limit {
          backend.CollapseTombstone(key, keeperTs, older);
          return 1 + |older|, |older| + 1, false;
        }
        RemoveVersions(key, older);
        return 1 + |older|, |older|, true;
      }
      KeyOlder(s, safePointTs, collapse, key, older, limit);
      RemoveVersions(key, older);
      return 1 + |older|, |older|, false;
    }

    static lemma KeyIdle(s: Store, sp: Timestamp, collapse: bool, k: Key)
      requires Keeper(s, k, sp).None?
      ensures forall limit: nat :: KeyStep(s, sp, collapse, k, limit, s, 0, 0, false)
    {
      hide VisibleTs;
      assert ObsoleteRemoved(s, s, sp) == {};
    }

    static lemma KeyOutOfBudget(s: Store, sp: Timestamp, collapse: bool, k: Key, more: seq<Timestamp>)
      requires Keeper(s, k, sp).Some?
      requires IsFirst(more, OlderThan(s.committed.Keys, k, Keeper(s, k, sp).value), 1, Newer)
      ensures KeyStep(s, sp, collapse, k, 0, s, 1, 0, more != [] || Collapsible(s, sp, collapse, k))
    {
      hide VisibleTs, OlderThan;
      assert ObsoleteRemoved(s, s, sp) == {};
      assert s.committed - VersionSet(k, []) == s.committed;
      if more != [] || Collapsible(s, sp, collapse, k) {
        assert more != [] ==> more[0] in more;
        assert IsFirst([], OlderThan(s.committed.Keys, k, Keeper(s, k, sp).value), 0, Newer);
        OlderLeft(s, sp, collapse, k, [], 0, s);
      } else {
        assert forall u :: u in OlderThan(s.committed.Keys, k, Keeper(s, k, sp).value) ==> u in more;
        OlderGone(s, sp, collapse, k, [], s);
      }
    }

    static lemma KeyPartOf(s: Store, sp: Timestamp, collapse: bool, k: Key, older: seq<Timestamp>, limit: nat)
      requires Keeper(s, k, sp).Some? && |older| > limit
      requires IsFirst(older, OlderThan(s.committed.Keys, k, Keeper(s, k, sp).value), limit + 1, Newer)
      ensures KeyStep(s, sp, collapse, k, limit, s.(committed := s.committed - VersionSet(k, older[..limit])),
                      1 + limit, limit, true)
    {
      hide VisibleTs, OlderThan, VersionSet;
      var t := s.(committed := s.committed - VersionSet(k, older[..limit]));
      FewerFirst(older, OlderThan(s.committed.Keys, k, Keeper(s, k, sp).value), limit);
      DropOlder(s, sp, collapse, k, older[..limit], t);
      OlderLeft(s, sp, collapse, k, older[..limit], limit, t);
    }

    static lemma KeyTombstone(s: Store, sp: Timestamp, collapse: bool, k: Key, older: seq<Timestamp>, limit: nat)
      requires Collapsible(s, sp, collapse, k) && |older| <= limit
      requires IsFirst(older, OlderThan(s.committed.Keys, k, Keeper(s, k, sp).value), limit + 1, Newer)
      ensures |older| < limit ==>
                KeyStep(s, sp, collapse, k, limit,
                        s.(committed := s.committed - {VKey(k, Keeper(s, k, sp).value)} - VersionSet(k, older)),
                        1 + |older|, |older| + 1, false)
      ensures |older| == limit ==>
                KeyStep(s, sp, collapse, k, limit, s.(committed := s.committed - VersionSet(k, older)),
                        1 + |older|, |older|, true)
    {
      hide VisibleTs, OlderThan, VersionSet, Prunes, TouchesOnly, Clean, PartlyClean;
      if |older| < limit {
        DropAll(s, sp, collapse, k, older,
                s.(committed := s.committed - {VKey(k, Keeper(s, k, sp).value)} - VersionSet(k, older)));
      } else {
        var t := s.(committed := s.committed - VersionSet(k, older));
        DropOlder(s, sp, collapse, k, older, t);
        OlderLeft(s, sp, collapse, k, older, limit + 1, t);
      }
    }

    static lemma KeyOlder(s: Store, sp: Timestamp, collapse: bool, k: Key, older: seq<Timestamp>, limit: nat)
      requires Keeper(s, k, sp).Some? && !Collapsible(s, sp, collapse, k) && |older| <= limit
      requires IsFirst(older, OlderThan(s.committed.Keys, k, Keeper(s, k, sp).value), limit + 1, Newer)
      ensures KeyStep(s, sp, collapse, k, limit, s.(committed := s.committed - VersionSet(k, older)),
                      1 + |older|, |older|, false)
    {
      hide VisibleTs, OlderThan, VersionSet, Prunes, TouchesOnly, Clean, PartlyClean;
      var t := s.(committed := s.committed - VersionSet(k, older));
      DropOlder(s, sp, collapse, k, older, t);
      OlderGone(s, sp, collapse, k, older, t);
    }

    /** One budgeted step. `start` is the cursor's `next_key`. */
    method GcIncremental(safePointTs: Timestamp, start: Option<Key>, options: GcOptions)
      returns (r: Result<IncrementalGcResult, GcError>)
      requires backend.Valid()
      requires options.maxKeys < USIZE_MAX && options.maxVersions < USIZE_MAX
      modifies backend
      ensures backend.Valid()
      ensures options.maxKeys == 0 || options.maxVersions == 0 ==>
                r == Err(InvalidGcBudget) && backend.Contents() == old(backend.Contents())
      ensures options.maxKeys > 0 && options.maxVersions > 0 ==>
                r.Ok? && GcStep(old(backend.Contents()), safePointTs, start, options, backend.Contents(), r.value)
    {
      hide Progress, Scan, GcStep, InMemoryBackend.Valid;
      if options.maxKeys == 0 || options.maxVersions == 0 {
        return Err(InvalidGcBudget);
      }
      ghost var s := backend.Contents();
      var keys := FetchKeys(start, options.maxKeys + 1);
      var n := if |keys| <= options.maxKeys then |keys| else options.maxKeys;
      var keysScanned, versionsScanned, versionsRemoved, intentsPreserved, exhausted :=
        GcScan(keys[..n], safePointTs, options);
      var nextKey, done := None, false;
      if exhausted {
        nextKey := Some(keys[keysScanned - 1]);
      } else if |keys| > options.maxKeys {
        nextKey := Some(keys[options.maxKeys]);
      } else {
        done := true;
      }
      var res := IncrementalGcResult(nextKey, done, keysScanned, versionsScanned, versionsRemoved, intentsPreserved);
      assert keys[..n][..keysScanned] == Scan(s, start)[..keysScanned];
      ProgressIsStep(s, safePointTs, start, options, keysScanned, exhausted, backend.Contents(), res);
      return Ok(res);
    }

    /** The loop over the keys, which stops early once the versions in the budget run out. */
    method GcScan(keys: seq<Key>, safePointTs: Timestamp, options: GcOptions)
      returns (keysScanned: nat, versionsScanned: nat, versionsRemoved: nat, intentsPreserved: nat, exhausted: bool)
      requires backend.Valid() && Ascending(keys, Less)
      modifies backend
      ensures backend.Valid()
      ensures keysScanned <= |keys| && (!exhausted ==> keysScanned == |keys|) && (exhausted ==> keysScanned > 0)
      ensures Progress(old(backend.Contents()), safePointTs, options, keys[..keysScanned], exhausted,
                       backend.Contents(), versionsScanned, versionsRemoved, intentsPreserved)
    {
      hide Progress, KeyStep, InMemoryBackend.Valid;
      ghost var s := backend.Contents();
      keysScanned, versionsScanned, versionsRemoved, intentsPreserved, exhausted := 0, 0, 0, 0, false;
      ProgressStarts(s, safePointTs, options);
      while keysScanned < |keys| && !exhausted
        invariant keysScanned <= |keys| && (exhausted ==> keysScanned > 0)
        invariant backend.Valid() && backend.intents == s.intents
        invariant versionsRemoved <= options.maxVersions
        invariant Progress(s, safePointTs, options, keys[..keysScanned], exhausted, backend.Contents(),
                           versionsScanned, versionsRemoved, intentsPreserved)
        decreases |keys| - keysScanned
      {
        var key := keys[keysScanned];
        ghost var t := backend.Contents();
        var hasIntent := backend.GetIntent(key).Some?;
        var scanned, removed: nat;
        scanned, removed, exhausted := GcKey(key, safePointTs, options.collapse, hasIntent,
                                             options.maxVersions - versionsRemoved);
        KeyStepBasics(t, safePointTs, options.collapse, key, options.maxVersions - versionsRemoved,
                      backend.Contents(), scanned, removed, exhausted);
        NextOfScan(keys, keysScanned);
        ProgressExtends(s, safePointTs, options, keys[..keysScanned], key, t, versionsScanned, versionsRemoved,
                        intentsPreserved, backend.Contents(), scanned, removed, exhausted);
        keysScanned := keysScanned + 1;
        versionsScanned := versionsScanned + scanned;
        versionsRemoved := versionsRemoved + removed;
        if hasIntent {
          intentsPreserved := intentsPreserved + 1;
        }
      }
    }

    static lemma NextOfScan(keys: seq<Key>, i: nat)
      requires Ascending(keys, Less) && i < |keys|
      ensures keys[i] !in keys[..i] && keys[..i + 1] == keys[..i] + [keys[i]]
    {
      AscendingDistinct(keys);
    }

    static lemma KeyStepBasics(s: Store, sp: Timestamp, collapse: bool, k: Key, limit: nat, t: Store, scanned: nat,
                               removed: nat, exhausted: bool)
      requires KeyStep(s, sp, collapse, k, limit, t, scanned, removed, exhausted)
      ensures removed <= limit && t.intents == s.intents
    {
    }

    method FetchKeys(start: Option<Key>, limit: nat) returns (keys: seq<Key>)
      requires backend.Valid()
      ensures keys == Take(Scan(backend.Contents(), start), limit)
    {
      hide Scan, InMemoryBackend.KeysFrom, IsFirst;
      keys := backend.KeysFrom(start, limit);
      KeysAreScan(backend.Contents(), start, limit, keys);
    }

    /** The keys fetched are the front of the scan. */
    static lemma KeysAreScan(s: Store, start: Option<Key>, limit: nat, keys: seq<Key>)
      requires IsFirst(keys, KeysAtOrAfter(OccupiedKeys(s), start), limit, Less)
      ensures keys == Take(Scan(s, start), limit)
    {
      hide OccupiedKeys, KeysAtOrAfter, IsFirst;
      LessIsOrder();
      var all := KeysAtOrAfter(OccupiedKeys(s), start);
      TakeIsFirst(all, limit, Less);
      IsFirstUnique(keys, Take(Sorted(all, Less), limit), all, limit, Less);
    }

    /** The full pass. `calls` is how many steps it took. */
    method Gc(safePointTs: Timestamp, options: GcOptions) returns (r: Result<GcStats, GcError>, ghost calls: nat)
      requires backend.Valid()
      requires options.maxKeys < USIZE_MAX && options.maxVersions < USIZE_MAX
      modifies backend
      ensures backend.Valid()
      ensures options.maxKeys == 0 || options.maxVersions == 0 ==>
                r == Err(InvalidGcBudget) && backend.Contents() == old(backend.Contents())
      ensures options.maxKeys > 0 && options.maxVersions > 0 ==>
                && backend.Contents() == Collected(old(backend.Contents()), safePointTs, options.collapse)
                && r == Ok(GcStats(|Garbage(old(backend.Contents()), safePointTs, options.collapse)|,
                                   |old(backend.intents)|))
                && calls <= CallBound(old(backend.Contents()), safePointTs, None, options)
    {
      hide GcStep, Prunes, CallBound, Collected, Garbage, SweptBelow, InMemoryBackend.Valid;
      ghost var s0 := backend.Contents();
      var totalVersionsRemoved: nat := 0;
      var cursor: Option<Key> := None;
      var done := false;
      calls := 0;
      PassStarts(s0, safePointTs, options.collapse);
      if options.maxKeys == 0 || options.maxVersions == 0 {
        var res := GcIncremental(safePointTs, cursor, options);
        return Err(res.error), 1;
      }
      while !done
        invariant backend.Valid()
        invariant Prunes(s0, backend.Contents(), safePointTs, options.collapse)
        invariant totalVersionsRemoved == |s0.committed| - |backend.committed|
        invariant !done ==> SweptBelow(s0, backend.Contents(), safePointTs, options.collapse, cursor)
        invariant !done ==>
                  calls + CallBound(backend.Contents(), safePointTs, cursor, options) <=
                  CallBound(s0, safePointTs, None, options)
        invariant done ==> calls <= CallBound(s0, safePointTs, None, options)
        invariant done ==> backend.Contents() == Collected(s0, safePointTs, options.collapse)
        decreases !done, CallBound(backend.Contents(), safePointTs, cursor, options)
      {
        ghost var s := backend.Contents();
        var res := GcIncremental(safePointTs, cursor, options);
        StepRemoves(s, safePointTs, cursor, options, backend.Contents(), res.value);
        GcStepNormalises(s0, s, safePointTs, cursor, options, backend.Contents(), res.value);
        BoundPositive(s, safePointTs, cursor, options);
        if !res.value.done {
          GcStepProgress(s, safePointTs, cursor, options, backend.Contents(), res.value);
        }
        totalVersionsRemoved := totalVersionsRemoved + res.value.versionsRemoved;
        done := res.value.done;
        cursor := res.value.nextKey;
        calls := calls + 1;
      }
      PassRemoves(s0, safePointTs, options.collapse);
      var total := CountIntents();
      r := Ok(GcStats(totalVersionsRemoved, total));
    }

    static lemma PassStarts(s: Store, sp: Timestamp, collapse: bool)
      ensures Prunes(s, s, sp, collapse) && SweptBelow(s, s, sp, collapse, None)
    {
    }

    static lemma StepRemoves(s: Store, sp: Timestamp, start: Option<Key>, o: GcOptions, t: Store,
                             r: IncrementalGcResult)
      requires GcStep(s, sp, start, o, t, r)
      ensures r.versionsRemoved == |s.committed| - |t.committed|
    {
      hide Prunes, Clean, PartlyClean, TouchesOnly, Scan;
    }

    static lemma BoundPositive(s: Store, sp: Timestamp, start: Option<Key>, o: GcOptions)
      requires o.maxKeys > 0 && o.maxVersions > 0
      ensures CallBound(s, sp, start, o) > 0
    {
      hide Garbage, Scan, Bound;
    }

    static lemma PassRemoves(s: Store, sp: Timestamp, collapse: bool)
      ensures |Garbage(s, sp, collapse)| == |s.committed| - |Collected(s, sp, collapse).committed|
      ensures Collected(s, sp, collapse).intents == s.intents
    {
      var t, gone := Collected(s, sp, collapse), Garbage(s, sp, collapse);
      assert gone <= s.committed.Keys && t.committed.Keys == s.committed.Keys - gone;
      SubsetSize(gone, s.committed.Keys);
    }

    /** The closing loop over all keys. */
    method CountIntents() returns (total: nat)
      requires backend.Valid()
      ensures total == |backend.intents|
    {
      hide InMemoryBackend.AllKeys, Locked;
      var keys := backend.AllKeys();
      total := 0;
      ghost var s := backend.Contents();
      NoneLocked(s);
      var i := 0;
      while i < |keys|
        invariant 0 <= i <= |keys|
        invariant total == |Locked(s, keys[..i])|
      {
        NextLocked(s, keys, i);
        if backend.GetIntent(keys[i]).Some? {
          total := total + 1;
        }
        i := i + 1;
      }
      assert keys[..i] == keys;
      AllLocked(s, keys);
    }

    static lemma NextLocked(s: Store, keys: seq<Key>, i: nat)
      requires Ascending(keys, Less) && i < |keys|
      ensures |Locked(s, keys[..i + 1])| == |Locked(s, keys[..i])| + if keys[i] in s.intents then 1 else 0
    {
      NextOfScan(keys, i);
      LockedAdds(s, keys[..i], keys[i]);
    }

    static lemma NoneLocked(s: Store)
      ensures Locked(s, []) == {}
    {
    }

    static lemma AllLocked(s: Store, keys: seq<Key>)
      requires forall k :: k in s.intents ==> k in keys
      ensures |Locked(s, keys)| == |s.intents|
    {
      assert Locked(s, keys) == s.intents.Keys;
    }
  }
}
