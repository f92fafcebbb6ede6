/**
  What each call leaves behind, key by key; which call undoes which; and what a transaction's prewrite
  has to do with what its commit shows.
 */
module Effects {
  import opened Types
  import opened History
  import opened Gc
  import opened Runs
  import opened Theorems
  import opened Acceptance
  import opened Batches
  import T = Transitions

  // ----- locks and versions after a call -----

  /** The key has its old intent or none, like before. */
  ghost predicate SameIntent(s: Store, t: Store, k: Key) {
    (k in t.intents <==> k in s.intents) && (k in s.intents ==> t.intents[k] == s.intents[k])
  }

  /** An abort takes away exactly the transaction's own intent of the key. */
  lemma AbortEffect(s: Store, txnId: TxnId, key: Key, startTs: Timestamp, t: Store, k: Key)
    requires StoreNext(s, Step.Abort(txnId, key, startTs), t)
    ensures t.committed == s.committed
    ensures k in t.intents <==> k in s.intents && !(k == key && Holds(s, txnId, startTs, k))
    ensures k in t.intents ==> t.intents[k] == s.intents[k]
  {
    hide CollectNext, T.Prewrite, T.Commit, T.PrewriteBatch, T.CommitBatch, T.AbortBatch, T.DirectBatch, T.GuardedBatch;
  }

  /** An abort batch takes away exactly the transaction's own intents of its keys; a repeated key stops it. */
  lemma AbortBatchEffect(s: Store, txnId: TxnId, startTs: Timestamp, keys: seq<Key>, t: Store, k: Key)
    requires StoreNext(s, Step.AbortBatch(txnId, startTs, keys), t)
    ensures t.committed == s.committed
    ensures T.Distinct(keys) ==>
              (k in t.intents <==> k in s.intents && !(k in keys && Holds(s, txnId, startTs, k)))
    ensures k in t.intents ==> k in s.intents && t.intents[k] == s.intents[k]
    ensures !T.Distinct(keys) ==> t == s
  {
    hide CollectNext, T.Prewrite, T.Commit, T.Abort, T.PrewriteBatch, T.CommitBatch, T.DirectBatch, T.GuardedBatch,
         T.FirstDuplicate, T.Distinct;
  }

  /** An accepted prewrite adds the intent it was asked for, if it was not there, and nothing else. */
  lemma PrewriteEffect(s: Store, txnId: TxnId, startTs: Timestamp, key: Key, m: Mutation, k: Key)
    requires T.Prewrite(s, txnId, startTs, key, m).Ok?
    ensures var t := T.Prewrite(s, txnId, startTs, key, m).value;
            && t.committed == s.committed
            && (k != key || key in s.intents ==> SameIntent(s, t, k))
            && HoldsWith(t, txnId, startTs, key, m)
            && (key !in s.intents ==> t.intents[key].key == key && t.intents[key].minCommitTs == None)
  {
    hide VisibleTs;
  }

  /** An accepted prewrite batch does so for each of its writes. */
  lemma PrewriteBatchEffect(s: Store, txnId: TxnId, startTs: Timestamp, writes: seq<PhysicalWrite>, i: nat, k: Key)
    requires T.PrewriteBatch(s, txnId, startTs, writes).Ok? && i < |writes|
    ensures var t := T.PrewriteBatch(s, txnId, startTs, writes).value;
            && t.committed == s.committed
            && (k in s.intents || k !in T.WriteKeys(writes) ==> SameIntent(s, t, k))
            && Holds(t, txnId, startTs, writes[i].key)
            && t.intents[writes[i].key].mutation.ToValue() == writes[i].value
  {
    hide T.PrewriteCheck, T.FirstDuplicate, T.FirstError, T.ValueFor, T.Distinct;
    var keys := T.WriteKeys(writes);
    forall j | 0 <= j < |writes| ensures writes[j].key in T.WriteMap(writes) && writes[j].key in keys {
      assert keys[j] == writes[j].key;
    }
    T.WriteMapAt(writes, i);
    assert T.PrewriteChecks(s, txnId, startTs, writes)[i].None?;
    if writes[i].key in s.intents { ReplayedWrite(s, txnId, startTs, writes[i]); }
  }

  lemma ReplayedWrite(s: Store, txnId: TxnId, startTs: Timestamp, w: PhysicalWrite)
    requires w.key in s.intents && T.PrewriteCheck(s, txnId, startTs, w).None?
    ensures HoldsWith(s, txnId, startTs, w.key, MutationOf(w.value))
  {
  }

  /** A commit turns the lock into a version with the intent's value, and nothing else. */
  lemma CommitEffect(s: Store, txnId: TxnId, key: Key, startTs: Timestamp, commitTs: Timestamp, v: VKey, k: Key)
    requires T.Commit(s, txnId, key, startTs, commitTs).Ok?
    ensures var t := T.Commit(s, txnId, key, startTs, commitTs).value;
            && (v in t.committed <==> v in s.committed || v == VKey(key, commitTs))
            && (v in s.committed && v != VKey(key, commitTs) ==> t.committed[v] == s.committed[v])
            && t.committed[VKey(key, commitTs)] == s.intents[key].mutation.ToValue()
            && key !in t.intents && (k != key ==> SameIntent(s, t, k))
  {
    hide VisibleTs;
  }

  /** A commit batch does so for each of its keys. */
  lemma CommitBatchEffect(s: Store, txnId: TxnId, startTs: Timestamp, commitTs: Timestamp, keys: seq<Key>, v: VKey,
                          k: Key)
    requires T.CommitBatch(s, txnId, startTs, commitTs, keys).Ok?
    ensures var t := T.CommitBatch(s, txnId, startTs, commitTs, keys).value;
            && (v in t.committed <==> v in s.committed || (v.key in keys && v.ts == commitTs))
            && (v.key in keys && v.ts == commitTs ==>
                  v.key in s.intents && t.committed[v] == s.intents[v.key].mutation.ToValue())
            && (v in s.committed && v.ts != commitTs ==> t.committed[v] == s.committed[v])
            && (k in keys ==> k !in t.intents)
            && (k !in keys ==> SameIntent(s, t, k))
  {
    hide VisibleTs, T.FirstDuplicate, T.FirstError, T.CommitChecks, T.Distinct;
    assert v == VKey(v.key, v.ts);
    forall j | j in keys ensures j in s.intents { CommitBatchHolds(s, txnId, startTs, commitTs, keys, j); }
  }

  lemma CommitBatchHolds(s: Store, txnId: TxnId, startTs: Timestamp, commitTs: Timestamp, keys: seq<Key>, k: Key)
    requires T.CommitBatch(s, txnId, startTs, commitTs, keys).Ok? && k in keys
    ensures Holds(s, txnId, startTs, k)
  {
    hide VisibleTs, T.FirstDuplicate, T.FirstError;
    var i :| 0 <= i < |keys| && keys[i] == k;
    assert T.CommitChecks(s, txnId, startTs, commitTs, keys)[i].None?;
  }

  /** A direct or guarded batch stores each of its writes at its timestamp, and nothing else. */
  lemma WriteBatchEffect(s: Store, step: Step, t: Store, i: nat, v: VKey)
    requires StoreNext(s, step, t)
    requires || (step.DirectBatch? && T.DirectBatch(s, step.commitTs, step.writes).Ok?)
             || (step.GuardedBatch? && T.GuardedBatch(s, step.commitTs, step.guards, step.writes).Ok?)
    requires i < |step.writes|
    ensures t.intents == s.intents
    ensures var w := step.writes[i];
            VKey(w.key, step.commitTs) in t.committed && t.committed[VKey(w.key, step.commitTs)] == w.value
    ensures v in t.committed <==> v in s.committed || (v.key in T.WriteKeys(step.writes) && v.ts == step.commitTs)
    ensures v in s.committed && !(v.key in T.WriteKeys(step.writes) && v.ts == step.commitTs) ==>
              t.committed[v] == s.committed[v]
  {
    hide StoreNext, T.FirstError, T.FirstDuplicate, T.ValueFor, T.Distinct, T.WriteChecks, T.GuardChecks;
    BatchInstalls(s, step, t);
    var keys := T.WriteKeys(step.writes);
    assert v == VKey(v.key, v.ts);
    forall j | 0 <= j < |step.writes|
      ensures step.writes[j].key in T.WriteMap(step.writes) && step.writes[j].key in keys
    {
      assert keys[j] == step.writes[j].key;
    }
    T.WriteMapAt(step.writes, i);
  }

  lemma BatchInstalls(s: Store, step: Step, t: Store)
    requires StoreNext(s, step, t)
    requires || (step.DirectBatch? && T.DirectBatch(s, step.commitTs, step.writes).Ok?)
             || (step.GuardedBatch? && T.GuardedBatch(s, step.commitTs, step.guards, step.writes).Ok?)
    ensures t == T.Install(s, step.commitTs, T.WriteMap(step.writes)) && T.Distinct(T.WriteKeys(step.writes))
  {
    hide CollectNext, T.Prewrite, T.Commit, T.Abort, T.PrewriteBatch, T.CommitBatch, T.AbortBatch, T.FirstDuplicate,
         T.FirstError, T.WriteMap, T.Install, T.Distinct, T.WriteChecks, T.GuardChecks;
  }

  // ----- one call undoes another -----

  /** Aborting a fresh prewrite gives back the store it started from. */
  lemma AbortUndoesPrewrite(s: Store, txnId: TxnId, startTs: Timestamp, k: Key, m: Mutation)
    requires k !in s.intents && T.Prewrite(s, txnId, startTs, k, m).Ok?
    ensures T.Abort(T.Prewrite(s, txnId, startTs, k, m).value, txnId, k, startTs) == s
  {
    hide VisibleTs;
    var t := T.Prewrite(s, txnId, startTs, k, m).value;
    assert t.intents - {k} == s.intents;
  }

  /** Aborting a fresh batch of prewrites gives back the store it started from. */
  lemma AbortUndoesPrewriteBatch(s: Store, txnId: TxnId, startTs: Timestamp, writes: seq<PhysicalWrite>)
    requires T.PrewriteBatch(s, txnId, startTs, writes).Ok?
    requires forall k :: k in T.WriteKeys(writes) ==> k !in s.intents
    ensures T.AbortBatch(T.PrewriteBatch(s, txnId, startTs, writes).value, txnId, startTs, T.WriteKeys(writes)) == Ok(s)
  {
    hide T.PrewriteBatch, T.WriteKeys, T.FirstDuplicate;
    BatchAccepted(s, txnId, startTs, writes);
    var t, keys := T.PrewriteBatch(s, txnId, startTs, writes).value, T.WriteKeys(writes);
    forall k | k in keys ensures Holds(t, txnId, startTs, k) {
      var i :| 0 <= i < |keys| && keys[i] == k;
      assert writes[i].key == k by { KeyAt(writes, i); }
      PrewriteBatchEffect(s, txnId, startTs, writes, i, k);
    }
    forall k ensures k !in keys ==> SameIntent(s, t, k) { PrewriteBatchEffect(s, txnId, startTs, writes, 0, k); }
    PrewriteBatchEffect(s, txnId, startTs, writes, 0, writes[0].key);
    OwnGone(s, t, txnId, startTs, keys);
  }

  lemma OwnGone(s: Store, t: Store, txnId: TxnId, startTs: Timestamp, keys: seq<Key>)
    requires forall k :: k in keys ==> Holds(t, txnId, startTs, k) && k !in s.intents
    requires forall k :: k !in keys ==> SameIntent(s, t, k)
    ensures t.intents - T.OwnIntents(t, txnId, startTs, keys) == s.intents
  {
    var rest := t.intents - T.OwnIntents(t, txnId, startTs, keys);
    forall k ensures k in rest <==> k in s.intents {}
  }

  lemma KeyAt(writes: seq<PhysicalWrite>, i: nat)
    requires i < |T.WriteKeys(writes)|
    ensures i < |writes| && T.WriteKeys(writes)[i] == writes[i].key
  {
  }

  lemma BatchAccepted(s: Store, txnId: TxnId, startTs: Timestamp, writes: seq<PhysicalWrite>)
    requires T.PrewriteBatch(s, txnId, startTs, writes).Ok?
    ensures writes != [] && |T.WriteKeys(writes)| == |writes| && T.FirstDuplicate(T.WriteKeys(writes)).None?
  {
  }

  /** Single aborts one after another. */
  ghost function AbortEach(s: Store, txnId: TxnId, startTs: Timestamp, keys: seq<Key>): Store
    decreases |keys|
  {
    if keys == [] then s else AbortEach(T.Abort(s, txnId, keys[0], startTs), txnId, startTs, keys[1..])
  }

  lemma {:induction false} AbortEachIs(s: Store, txnId: TxnId, startTs: Timestamp, keys: seq<Key>)
    ensures AbortEach(s, txnId, startTs, keys) == s.(intents := s.intents - T.OwnIntents(s, txnId, startTs, keys))
    decreases |keys|
  {
    if keys == [] {
      assert T.OwnIntents(s, txnId, startTs, keys) == {};
      assert s.intents - {} == s.intents;
    } else {
      var k, rest, t := keys[0], keys[1..], T.Abort(s, txnId, keys[0], startTs);
      AbortEachIs(t, txnId, startTs, rest);
      assert forall l :: l in keys <==> l == k || l in rest by { assert keys == [k] + rest; }
      assert t.intents - T.OwnIntents(t, txnId, startTs, rest) == s.intents - T.OwnIntents(s, txnId, startTs, keys);
    }
  }

  /** A batch of aborts equals its single aborts, in whatever order they are made. */
  lemma AbortBatchIsSequence(s: Store, txnId: TxnId, startTs: Timestamp, keys: seq<Key>, order: seq<Key>)
    requires T.Distinct(keys) && forall k :: k in keys <==> k in order
    ensures T.AbortBatch(s, txnId, startTs, keys) == Ok(AbortEach(s, txnId, startTs, order))
  {
    hide T.FirstDuplicate, T.Distinct, AbortEach;
    AbortEachIs(s, txnId, startTs, order);
    assert T.OwnIntents(s, txnId, startTs, keys) == T.OwnIntents(s, txnId, startTs, order);
  }

  // ----- a transaction from prewrite to end -----

  /** The step aborts the transaction's lock on the key, and is not refused for a repeated key. */
  ghost predicate Aborts(step: Step, txnId: TxnId, startTs: Timestamp, k: Key) {
    || step == Step.Abort(txnId, k, startTs)
    || (step.AbortBatch? && step.txnId == txnId && step.startTs == startTs && k in step.keys && T.Distinct(step.keys))
  }

  /**
    An abort frees the key: right after it any transaction may prewrite the key and any batch may write
    it, subject only to the versions that were there before the abort.
   */
  lemma AbortFrees(a: Sys, step: Step, b: Sys, txnId: TxnId, startTs: Timestamp, k: Key,
                   other: TxnId, otherStart: Timestamp, m: Mutation, commitTs: Timestamp, v: Option<Value>)
    requires Next(a, step, b) && Aborts(step, txnId, startTs, k) && Holds(a.store, txnId, startTs, k)
    ensures k !in b.store.intents
    ensures T.Prewrite(b.store, other, otherStart, k, m).Ok? <==> AtOrBelow(a.store.committed.Keys, k, otherStart)
    ensures T.DirectBatch(b.store, commitTs, [PhysicalWrite(k, v)]).Ok? <==> Above(a.store.committed.Keys, k, commitTs)
  {
    hide Next, StoreNext, T.Prewrite, T.DirectBatch, T.WriteKeys, T.Distinct, AtOrBelow, Above;
    NextStore(a, step, b);
    if step.Abort? {
      AbortEffect(a.store, txnId, k, startTs, b.store, k);
    } else {
      AbortBatchEffect(a.store, txnId, startTs, step.keys, b.store, k);
    }
    PrewriteAccepts(b.store, other, otherStart, k, m);
    DirectBatchAccepts(b.store, commitTs, [PhysicalWrite(k, v)]);
    OneKey(k, v);
    OneFree(b.store, k, commitTs, v);
  }

  lemma OneKey(k: Key, v: Option<Value>)
    ensures T.Distinct(T.WriteKeys([PhysicalWrite(k, v)]))
  {
  }

  lemma OneFree(s: Store, k: Key, commitTs: Timestamp, v: Option<Value>)
    ensures WritesFree(s, commitTs, [PhysicalWrite(k, v)]) <==> FreeBelow(s, k, commitTs)
  {
    hide FreeBelow;
    assert [PhysicalWrite(k, v)][0].key == k;
  }

  /** The step prewrites the key, alone or in a batch, with the given value or deletion. */
  ghost predicate PrewritesValue(s: Store, step: Step, txnId: TxnId, startTs: Timestamp, k: Key, v: Option<Value>) {
    match step
    case Prewrite(x, st, key, m) =>
      x == txnId && st == startTs && key == k && m.ToValue() == v && T.Prewrite(s, x, st, key, m).Ok?
    case PrewriteBatch(x, st, writes) =>
      x == txnId && st == startTs && PhysicalWrite(k, v) in writes && T.PrewriteBatch(s, x, st, writes).Ok?
    case _ => false
  }

  ghost predicate HoldsValue(s: Store, txnId: TxnId, startTs: Timestamp, k: Key, v: Option<Value>) {
    Holds(s, txnId, startTs, k) && s.intents[k].mutation.ToValue() == v
  }

  lemma PrewriteHoldsValue(s: Store, step: Step, t: Store, txnId: TxnId, startTs: Timestamp, k: Key, v: Option<Value>)
    requires StoreNext(s, step, t) && PrewritesValue(s, step, txnId, startTs, k, v)
    ensures HoldsValue(t, txnId, startTs, k, v)
  {
    hide T.PrewriteBatch, T.Prewrite, CollectNext, T.Commit, T.CommitBatch, T.AbortBatch, T.DirectBatch, T.GuardedBatch;
    if step.Prewrite? {
      PrewriteEffect(s, txnId, startTs, k, step.mutation, k);
    } else {
      var i :| 0 <= i < |step.writes| && step.writes[i] == PhysicalWrite(k, v);
      PrewriteBatchEffect(s, txnId, startTs, step.writes, i, k);
    }
  }

  /** Until its transaction ends it, a lock keeps its value too. */
  lemma ValueStays(s: Store, step: Step, t: Store, txnId: TxnId, startTs: Timestamp, k: Key, v: Option<Value>)
    requires StoreNext(s, step, t) && HoldsValue(s, txnId, startTs, k, v) && !Ends(step, txnId, startTs, k)
    ensures HoldsValue(t, txnId, startTs, k, v)
  {
    hide StoreNext, MutateNext, CollectNext, Written, WriteTs, OriginOf, LockKeys, StartOf, MayWrite, Above, Ends;
    LockStays(s, step, t, txnId, startTs, k);
    if Collects(step) {
      CollectKeepsIntents(s, step, t);
    } else {
      MutatesTo(s, step, t);
      StepShape(s, step, t);
    }
  }

  lemma MutatesTo(s: Store, step: Step, t: Store)
    requires StoreNext(s, step, t) && !Collects(step)
    ensures t == MutateNext(s, step)
  {
    hide MutateNext;
  }

  lemma {:induction false} ValueStaysThrough(states: seq<Sys>, steps: seq<Step>, i: nat, j: nat, txnId: TxnId,
                                             startTs: Timestamp, k: Key, v: Option<Value>)
    requires IsRun(states, steps) && i <= j <= |steps|
    requires HoldsValue(states[i].store, txnId, startTs, k, v)
    requires forall m :: i <= m < j ==> !Ends(steps[m], txnId, startTs, k)
    ensures HoldsValue(states[j].store, txnId, startTs, k, v)
  {
    hide Next, HoldsValue, Ends;
    if i < j {
      ValueStaysThrough(states, steps, i, j - 1, txnId, startTs, k, v);
      NextStore(states[j - 1], steps[j - 1], states[j]);
      ValueStays(states[j - 1].store, steps[j - 1], states[j].store, txnId, startTs, k, v);
    }
  }

  lemma NextStore(a: Sys, step: Step, b: Sys)
    requires Next(a, step, b)
    ensures StoreNext(a.store, step, b.store)
  {
    hide StoreNext, Written, NewGraves, SafePointOf;
  }

  /** The step is a successful commit of the key by the transaction, alone or in a batch. */
  ghost predicate CommitsKey(s: Store, step: Step, txnId: TxnId, startTs: Timestamp, k: Key) {
    match step
    case Commit(x, key, st, c) => x == txnId && st == startTs && key == k && T.Commit(s, x, key, st, c).Ok?
    case CommitBatch(x, st, c, keys) => x == txnId && st == startTs && k in keys && T.CommitBatch(s, x, st, c, keys).Ok?
    case _ => false
  }

  lemma CommitShows(s: Store, step: Step, t: Store, txnId: TxnId, startTs: Timestamp, k: Key, v: Option<Value>,
                    at: Timestamp)
    requires StoreNext(s, step, t) && CommitsKey(s, step, txnId, startTs, k) && HoldsValue(s, txnId, startTs, k, v)
    ensures k !in t.intents
    ensures ReadVersion(t.committed, k, at) ==
              if at >= step.commitTs then Some((step.commitTs, v)) else ReadVersion(s.committed, k, at)
  {
    hide T.Commit, T.CommitBatch, CollectNext, T.Prewrite, T.PrewriteBatch, T.AbortBatch, T.DirectBatch, T.GuardedBatch,
         VisibleTs, ReadVersion;
    BatchIsAtomic(s, step, t, k, at);
    if step.Commit? {
      CommitEffect(s, txnId, k, startTs, step.commitTs, VKey(k, step.commitTs), k);
    } else {
      CommitBatchEffect(s, txnId, startTs, step.commitTs, step.keys, VKey(k, step.commitTs), k);
    }
  }

  /**
    What was prewritten is what the commit shows. In every run, whatever other steps come between: once
    the transaction commits the key, the lock is gone, every reader from the commit timestamp on sees the
    prewritten value or deletion as the version of that timestamp, and earlier readers see no change.
   */
  lemma CommitShowsPrewritten(states: seq<Sys>, steps: seq<Step>, i: nat, j: nat, txnId: TxnId, startTs: Timestamp,
                              k: Key, v: Option<Value>, at: Timestamp)
    requires IsRun(states, steps) && i < j < |steps|
    requires PrewritesValue(states[i].store, steps[i], txnId, startTs, k, v)
    requires forall m :: i < m < j ==> !Ends(steps[m], txnId, startTs, k)
    requires CommitsKey(states[j].store, steps[j], txnId, startTs, k)
    ensures k !in states[j + 1].store.intents
    ensures ReadVersion(states[j + 1].store.committed, k, at) ==
              if at >= steps[j].commitTs then Some((steps[j].commitTs, v))
              else ReadVersion(states[j].store.committed, k, at)
  {
    hide Next, PrewritesValue, HoldsValue, Ends, ReadVersion, CommitsKey, StoreNext;
    HeldUntil(states, steps, i, j, txnId, startTs, k, v);
    RunNext(states, steps, j);
    hide IsRun;
    CommitShows(states[j].store, steps[j], states[j + 1].store, txnId, startTs, k, v, at);
  }

  lemma HeldUntil(states: seq<Sys>, steps: seq<Step>, i: nat, j: nat, txnId: TxnId, startTs: Timestamp, k: Key,
                  v: Option<Value>)
    requires IsRun(states, steps) && i < j <= |steps|
    requires PrewritesValue(states[i].store, steps[i], txnId, startTs, k, v)
    requires forall m :: i < m < j ==> !Ends(steps[m], txnId, startTs, k)
    ensures HoldsValue(states[j].store, txnId, startTs, k, v)
  {
    hide Next, PrewritesValue, HoldsValue, Ends, StoreNext;
    RunNext(states, steps, i);
    PrewriteHoldsValue(states[i].store, steps[i], states[i + 1].store, txnId, startTs, k, v);
    ValueStaysThrough(states, steps, i + 1, j, txnId, startTs, k, v);
  }

  lemma RunNext(states: seq<Sys>, steps: seq<Step>, i: nat)
    requires IsRun(states, steps) && i < |steps|
    ensures StoreNext(states[i].store, steps[i], states[i + 1].store)
  {
    hide Next, StoreNext;
    NextStore(states[i], steps[i], states[i + 1]);
  }
}
