/** Batches against single-key steps, and what a reader sees of a batch. */
module Batches {
  import opened Types
  import opened History
  import opened Gc
  import opened Runs
  import T = Transitions

  // ----- commits -----

  /** Single-key commits one after another, stopping at the first refusal. */
  ghost function CommitEach(s: Store, txnId: TxnId, startTs: Timestamp, commitTs: Timestamp,
                            keys: seq<Key>): Result<Store, CommitError>
    decreases |keys|
  {
    if keys == [] then Ok(s)
    else
      match T.Commit(s, txnId, keys[0], startTs, commitTs)
      case Ok(t) => CommitEach(t, txnId, startTs, commitTs, keys[1..])
      case Err(e) => Err(e)
  }

  /** The two stores cannot be told apart at `k`. */
  ghost predicate SameAt(s: Store, t: Store, k: Key) {
    && (k in s.intents <==> k in t.intents)
    && (k in s.intents ==> s.intents[k] == t.intents[k])
    && forall u: Timestamp :: VKey(k, u) in s.committed <==> VKey(k, u) in t.committed
  }

  lemma SameLatest(s: Store, t: Store, k: Key)
    requires SameAt(s, t, k)
    ensures LatestTs(s.committed.Keys, k) == LatestTs(t.committed.Keys, k)
  {
    hide VisibleTs;
    var a := LatestTs(s.committed.Keys, k);
    if a.Some? {
      VisibleIs(t.committed.Keys, k, TS_MAX, a.value);
    } else {
      assert LatestTs(t.committed.Keys, k).None?;
    }
  }

  lemma CommitElsewhere(s: Store, txnId: TxnId, startTs: Timestamp, commitTs: Timestamp, key: Key, k: Key)
    requires T.Commit(s, txnId, key, startTs, commitTs).Ok? && k != key
    ensures SameAt(s, T.Commit(s, txnId, key, startTs, commitTs).value, k)
  {
    hide VisibleTs;
  }

  lemma CommitLocal(s: Store, t: Store, txnId: TxnId, startTs: Timestamp, commitTs: Timestamp, k: Key)
    requires SameAt(s, t, k)
    ensures T.Commit(s, txnId, k, startTs, commitTs).Ok? <==> T.Commit(t, txnId, k, startTs, commitTs).Ok?
  {
    hide VisibleTs;
    SameLatest(s, t, k);
  }

  /** The store with the intents of `keys` committed at `commitTs`. */
  ghost function AllCommitted(s: Store, commitTs: Timestamp, keys: seq<Key>): Store {
    Store(s.committed + T.Stamp(T.IntentValues(s, keys), commitTs), s.intents - T.IntentValues(s, keys).Keys)
  }

  lemma AllCommittedStep(s: Store, t: Store, txnId: TxnId, startTs: Timestamp, commitTs: Timestamp, keys: seq<Key>)
    requires T.Distinct(keys) && keys != []
    requires T.Commit(s, txnId, keys[0], startTs, commitTs) == Ok(t)
    ensures AllCommitted(t, commitTs, keys[1..]) == AllCommitted(s, commitTs, keys)
  {
    hide VisibleTs, LatestTs, T.Stamp, T.IntentValues;
    var k := keys[0];
    IntentValuesStep(s, t, txnId, startTs, commitTs, keys);
    var w, x := T.IntentValues(s, keys), T.IntentValues(t, keys[1..]);
    StampMore(s.committed, x, k, s.intents[k].mutation.ToValue(), commitTs);
    assert s.intents - w.Keys == t.intents - x.Keys;
  }

  lemma IntentValuesStep(s: Store, t: Store, txnId: TxnId, startTs: Timestamp, commitTs: Timestamp, keys: seq<Key>)
    requires T.Distinct(keys) && keys != []
    requires T.Commit(s, txnId, keys[0], startTs, commitTs) == Ok(t)
    ensures keys[0] in s.intents && keys[0] !in T.IntentValues(t, keys[1..])
    ensures T.IntentValues(s, keys) == T.IntentValues(t, keys[1..])[keys[0] := s.intents[keys[0]].mutation.ToValue()]
  {
    hide VisibleTs, LatestTs;
    var k, rest := keys[0], keys[1..];
    assert k !in rest;
    assert forall l :: l in keys <==> l == k || l in rest by { assert keys == [k] + rest; }
  }

  lemma StampMore(m: map<VKey, Option<Value>>, x: map<Key, Option<Value>>, k: Key, v: Option<Value>, ts: Timestamp)
    requires k !in x
    ensures m + T.Stamp(x[k := v], ts) == m[VKey(k, ts) := v] + T.Stamp(x, ts)
  {
    StampSplit(x, k, v, ts);
    hide T.Stamp;
    assert m + T.Stamp(x, ts)[VKey(k, ts) := v] == m[VKey(k, ts) := v] + T.Stamp(x, ts);
  }

  lemma StampSplit(x: map<Key, Option<Value>>, k: Key, v: Option<Value>, ts: Timestamp)
    requires k !in x
    ensures T.Stamp(x[k := v], ts) == T.Stamp(x, ts)[VKey(k, ts) := v]
    ensures VKey(k, ts) !in T.Stamp(x, ts)
  {
    var a, b := T.Stamp(x[k := v], ts), T.Stamp(x, ts);
    forall u ensures u in a <==> u in b || u == VKey(k, ts) {
      assert u == VKey(u.key, u.ts);
    }
  }

  lemma {:induction false} CommitEachIs(s: Store, txnId: TxnId, startTs: Timestamp, commitTs: Timestamp, keys: seq<Key>)
    requires T.Distinct(keys)
    ensures CommitEach(s, txnId, startTs, commitTs, keys).Ok? <==>
              forall k :: k in keys ==> T.Commit(s, txnId, k, startTs, commitTs).Ok?
    ensures CommitEach(s, txnId, startTs, commitTs, keys).Ok? ==>
              CommitEach(s, txnId, startTs, commitTs, keys).value == AllCommitted(s, commitTs, keys)
    decreases |keys|
  {
    hide T.Commit, SameAt;
    if keys == [] {
      NothingCommitted(s, commitTs);
    } else {
      var k, rest := keys[0], keys[1..];
      assert k !in rest && forall l :: l in keys <==> l == k || l in rest by { assert keys == [k] + rest; }
      if T.Commit(s, txnId, k, startTs, commitTs).Ok? {
        var t := T.Commit(s, txnId, k, startTs, commitTs).value;
        CommitEachIs(t, txnId, startTs, commitTs, rest);
        forall l | l in rest
          ensures T.Commit(s, txnId, l, startTs, commitTs).Ok? <==> T.Commit(t, txnId, l, startTs, commitTs).Ok?
        {
          CommitElsewhere(s, txnId, startTs, commitTs, k, l);
          CommitLocal(s, t, txnId, startTs, commitTs, l);
        }
        AllCommittedStep(s, t, txnId, startTs, commitTs, keys);
      }
    }
  }

  lemma NothingCommitted(s: Store, commitTs: Timestamp)
    ensures AllCommitted(s, commitTs, []) == s
  {
    assert T.IntentValues(s, []) == map[];
    StampNothing(s.committed, commitTs);
    assert s.intents - {} == s.intents;
  }

  /** A key passes the batch's validation exactly when it would commit alone. */
  lemma CheckIsCommit(s: Store, txnId: TxnId, startTs: Timestamp, commitTs: Timestamp, k: Key)
    ensures commitTs > startTs && T.CommitCheck(s, txnId, startTs, commitTs, k).None? <==>
              T.Commit(s, txnId, k, startTs, commitTs).Ok?
  {
    hide VisibleTs;
  }

  /**
    A batch of commits equals its single commits: it succeeds exactly when they all do, in whatever
    order they are made, and reaches the same store.
   */
  lemma CommitBatchIsSequence(s: Store, txnId: TxnId, startTs: Timestamp, commitTs: Timestamp, keys: seq<Key>,
                              order: seq<Key>)
    requires keys != [] && T.Distinct(keys) && T.Distinct(order) && forall k :: k in keys <==> k in order
    ensures T.CommitBatch(s, txnId, startTs, commitTs, keys).Ok? <==> CommitEach(s, txnId, startTs, commitTs, order).Ok?
    ensures T.CommitBatch(s, txnId, startTs, commitTs, keys).Ok? ==>
              T.CommitBatch(s, txnId, startTs, commitTs, keys).value ==
              CommitEach(s, txnId, startTs, commitTs, order).value
  {
    hide T.Commit, T.CommitCheck, T.FirstDuplicate, T.FirstError, CommitEach;
    CommitEachIs(s, txnId, startTs, commitTs, order);
    assert T.IntentValues(s, keys) == T.IntentValues(s, order);
    forall k
      ensures commitTs > startTs && T.CommitCheck(s, txnId, startTs, commitTs, k).None? <==>
                T.Commit(s, txnId, k, startTs, commitTs).Ok?
    {
      CheckIsCommit(s, txnId, startTs, commitTs, k);
    }
    var errs := T.CommitChecks(s, txnId, startTs, commitTs, keys);
    assert forall i :: 0 <= i < |keys| ==> errs[i] == T.CommitCheck(s, txnId, startTs, commitTs, keys[i]);
    assert keys[0] in keys;
  }

  // ----- prewrites -----

  ghost function PrewriteEach(s: Store, txnId: TxnId, startTs: Timestamp,
                              writes: seq<PhysicalWrite>): Result<Store, PrewriteError>
    decreases |writes|
  {
    if writes == [] then Ok(s)
    else
      match T.Prewrite(s, txnId, startTs, writes[0].key, MutationOf(writes[0].value))
      case Ok(t) => PrewriteEach(t, txnId, startTs, writes[1..])
      case Err(e) => Err(e)
  }

  ghost predicate Prewritable(s: Store, txnId: TxnId, startTs: Timestamp, w: PhysicalWrite) {
    T.Prewrite(s, txnId, startTs, w.key, MutationOf(w.value)).Ok?
  }

  /** The store with the missing intents of the writes in place. */
  ghost predicate AllLocked(s: Store, txnId: TxnId, startTs: Timestamp, writes: seq<PhysicalWrite>, t: Store) {
    && t.committed == s.committed
    && (forall k :: k in t.intents <==> k in s.intents || T.Writes(writes, k))
    && (forall k :: k in s.intents ==> t.intents[k] == s.intents[k])
    && (forall i :: 0 <= i < |writes| && writes[i].key !in s.intents ==>
          t.intents[writes[i].key] == Intent(writes[i].key, txnId, startTs, MutationOf(writes[i].value), None))
  }

  lemma PrewriteLocal(s: Store, t: Store, txnId: TxnId, startTs: Timestamp, w: PhysicalWrite)
    requires SameAt(s, t, w.key)
    ensures Prewritable(s, txnId, startTs, w) <==> Prewritable(t, txnId, startTs, w)
  {
    hide VisibleTs;
    SameLatest(s, t, w.key);
  }

  /** A prewrite that passes touches its own key only. */
  lemma PrewriteElsewhere(s: Store, txnId: TxnId, startTs: Timestamp, w: PhysicalWrite, k: Key)
    requires Prewritable(s, txnId, startTs, w)
    ensures var t := T.Prewrite(s, txnId, startTs, w.key, MutationOf(w.value)).value;
            && (k != w.key ==> SameAt(s, t, k))
            && t.committed == s.committed
            && t.intents == if w.key in s.intents then s.intents
                            else s.intents[w.key := Intent(w.key, txnId, startTs, MutationOf(w.value), None)]
  {
    hide VisibleTs;
  }

  lemma {:induction false} PrewriteEachIs(s: Store, txnId: TxnId, startTs: Timestamp, writes: seq<PhysicalWrite>)
    requires T.Distinct(T.WriteKeys(writes))
    ensures PrewriteEach(s, txnId, startTs, writes).Ok? <==>
              forall i :: 0 <= i < |writes| ==> Prewritable(s, txnId, startTs, writes[i])
    ensures PrewriteEach(s, txnId, startTs, writes).Ok? ==>
              AllLocked(s, txnId, startTs, writes, PrewriteEach(s, txnId, startTs, writes).value)
    decreases |writes|
  {
    hide T.Prewrite, SameAt, AllLocked;
    if writes == [] {
      NothingLocked(s, txnId, startTs);
    } else {
      var w, rest := writes[0], writes[1..];
      DistinctTail(writes);
      if Prewritable(s, txnId, startTs, w) {
        var t := T.Prewrite(s, txnId, startTs, w.key, MutationOf(w.value)).value;
        PrewriteEachIs(t, txnId, startTs, rest);
        forall i | 0 <= i < |rest|
          ensures Prewritable(s, txnId, startTs, rest[i]) <==> Prewritable(t, txnId, startTs, rest[i])
        {
          PrewriteElsewhere(s, txnId, startTs, w, rest[i].key);
          PrewriteLocal(s, t, txnId, startTs, rest[i]);
        }
        assert forall i :: 0 < i < |writes| ==> writes[i] == rest[i - 1];
        if PrewriteEach(t, txnId, startTs, rest).Ok? {
          PrewriteElsewhere(s, txnId, startTs, w, w.key);
          AllLockedStep(s, t, txnId, startTs, writes, PrewriteEach(t, txnId, startTs, rest).value);
        }
      }
    }
  }

  lemma NothingLocked(s: Store, txnId: TxnId, startTs: Timestamp)
    ensures AllLocked(s, txnId, startTs, [], s)
  {
  }

  lemma DistinctTail(writes: seq<PhysicalWrite>)
    requires T.Distinct(T.WriteKeys(writes)) && writes != []
    ensures T.Distinct(T.WriteKeys(writes[1..]))
    ensures forall i :: 0 <= i < |writes| - 1 ==> writes[1..][i].key != writes[0].key
  {
    var a, b := T.WriteKeys(writes), T.WriteKeys(writes[1..]);
    forall i | 0 <= i < |writes| - 1 ensures b[i] == a[i + 1] && writes[1..][i].key != writes[0].key {
      assert b[i] == writes[1..][i].key && a[0] != a[i + 1];
    }
  }

  lemma AllLockedStep(s: Store, t: Store, txnId: TxnId, startTs: Timestamp, writes: seq<PhysicalWrite>, u: Store)
    requires writes != [] && T.Distinct(T.WriteKeys(writes))
    requires t.committed == s.committed
    requires t.intents == if writes[0].key in s.intents then s.intents
                          else s.intents[writes[0].key := Intent(writes[0].key, txnId, startTs,
                                                                 MutationOf(writes[0].value), None)]
    requires AllLocked(t, txnId, startTs, writes[1..], u)
    ensures AllLocked(s, txnId, startTs, writes, u)
  {
    var rest := writes[1..];
    DistinctTail(writes);
    assert forall i :: 0 < i < |writes| ==> writes[i] == rest[i - 1];
    forall k ensures T.Writes(writes, k) <==> k == writes[0].key || T.Writes(rest, k) {
      if T.Writes(rest, k) { var i :| 0 <= i < |rest| && rest[i].key == k; assert writes[i + 1].key == k; }
    }
    forall i | 0 <= i < |writes| && writes[i].key !in s.intents
      ensures u.intents[writes[i].key] == Intent(writes[i].key, txnId, startTs, MutationOf(writes[i].value), None)
    {
      if i > 0 { assert rest[i - 1].key !in t.intents; }
    }
  }

  lemma CheckIsPrewrite(s: Store, txnId: TxnId, startTs: Timestamp, w: PhysicalWrite)
    ensures T.PrewriteCheck(s, txnId, startTs, w).None? <==> Prewritable(s, txnId, startTs, w)
    ensures Prewritable(s, txnId, startTs, w) && w.key in s.intents ==>
              s.intents[w.key].txnId == txnId && s.intents[w.key].startTs == startTs
  {
    hide VisibleTs;
  }

  /** The batch's outcome from its validation alone. */
  lemma PrewriteBatchOk(s: Store, txnId: TxnId, startTs: Timestamp, writes: seq<PhysicalWrite>)
    requires writes != [] && T.Distinct(T.WriteKeys(writes))
    ensures T.PrewriteBatch(s, txnId, startTs, writes).Ok? <==>
              && (forall i :: 0 <= i < |writes| ==> Prewritable(s, txnId, startTs, writes[i]))
              && (T.WriteMap(writes).Keys <= s.intents.Keys || T.WriteMap(writes).Keys !! s.intents.Keys)
    ensures T.PrewriteBatch(s, txnId, startTs, writes).Ok? ==>
              AllLocked(s, txnId, startTs, writes, T.PrewriteBatch(s, txnId, startTs, writes).value)
  {
    hide T.PrewriteCheck, T.FirstDuplicate, T.FirstError, Prewritable, T.ValueFor, T.Writes;
    var errs := T.PrewriteChecks(s, txnId, startTs, writes);
    forall i | 0 <= i < |writes| ensures errs[i].None? <==> Prewritable(s, txnId, startTs, writes[i]) {
      CheckIsPrewrite(s, txnId, startTs, writes[i]);
    }
    if T.PrewriteBatch(s, txnId, startTs, writes).Ok? {
      BatchLocks(s, txnId, startTs, writes);
    }
  }

  lemma BatchLocks(s: Store, txnId: TxnId, startTs: Timestamp, writes: seq<PhysicalWrite>)
    requires writes != [] && T.Distinct(T.WriteKeys(writes))
    requires T.PrewriteBatch(s, txnId, startTs, writes).Ok?
    ensures AllLocked(s, txnId, startTs, writes, T.PrewriteBatch(s, txnId, startTs, writes).value)
  {
    hide T.PrewriteChecks, T.FirstDuplicate, T.FirstError, T.ValueFor;
    forall i | 0 <= i < |writes|
      ensures writes[i].key in T.WriteMap(writes) && T.WriteMap(writes)[writes[i].key] == writes[i].value
    {
      T.WriteMapAt(writes, i);
    }
    assert forall k :: k in T.WriteMap(writes) <==> T.Writes(writes, k);
  }

  lemma AllLockedUnique(s: Store, txnId: TxnId, startTs: Timestamp, writes: seq<PhysicalWrite>,
                        order: seq<PhysicalWrite>, t: Store, u: Store)
    requires forall w :: w in writes <==> w in order
    requires AllLocked(s, txnId, startTs, writes, t) && AllLocked(s, txnId, startTs, order, u)
    ensures t == u
  {
    forall k ensures k in t.intents <==> k in u.intents { SameWrites(writes, order, k); }
    forall k | k in t.intents ensures t.intents[k] == u.intents[k] {
      if k !in s.intents {
        var i :| 0 <= i < |writes| && writes[i].key == k;
        assert writes[i] in order;
        var j :| 0 <= j < |order| && order[j] == writes[i];
      }
    }
    assert t.intents == u.intents;
  }

  lemma SameWrites(writes: seq<PhysicalWrite>, order: seq<PhysicalWrite>, k: Key)
    requires forall w :: w in writes <==> w in order
    ensures T.Writes(writes, k) <==> T.Writes(order, k)
  {
    if i :| 0 <= i < |writes| && writes[i].key == k {
      assert writes[i] in order;
      var j :| 0 <= j < |order| && order[j] == writes[i];
    }
    if i :| 0 <= i < |order| && order[i].key == k {
      assert order[i] in writes;
      var j :| 0 <= j < |writes| && writes[j] == order[i];
    }
  }

  /**
    A batch of prewrites equals its single prewrites, in any order, when none or all of its keys carry
    this transaction's intent; a partial mix the batch rejects.
   */
  lemma PrewriteBatchIsSequence(s: Store, txnId: TxnId, startTs: Timestamp, writes: seq<PhysicalWrite>,
                                order: seq<PhysicalWrite>)
    requires writes != [] && T.Distinct(T.WriteKeys(writes)) && T.Distinct(T.WriteKeys(order))
    requires forall w :: w in writes <==> w in order
    ensures var own := T.OwnIntents(s, txnId, startTs, T.WriteKeys(writes));
            var batch, each := T.PrewriteBatch(s, txnId, startTs, writes), PrewriteEach(s, txnId, startTs, order);
            if own == {} || own == T.WriteMap(writes).Keys
            then (batch.Ok? <==> each.Ok?) && (batch.Ok? ==> batch.value == each.value)
            else batch.Err?
  {
    hide T.PrewriteBatch, Prewritable, T.Prewrite, PrewriteEach, AllLocked, T.Distinct;
    PrewriteBatchOk(s, txnId, startTs, writes);
    PrewriteEachIs(s, txnId, startTs, order);
    SamePrewritable(s, txnId, startTs, writes, order);
    OwnOrNone(s, txnId, startTs, writes);
    var batch, each := T.PrewriteBatch(s, txnId, startTs, writes), PrewriteEach(s, txnId, startTs, order);
    var own := T.OwnIntents(s, txnId, startTs, T.WriteKeys(writes));
    var all, locked := T.WriteMap(writes).Keys, s.intents.Keys;
    assert each.Ok? ==> own == all * locked;
    assert each.Ok? ==> forall k :: k in all && k in locked ==> k in own;
    assert each.Ok? && own == {} ==> all !! locked;
    assert each.Ok? && own == all ==> all <= locked;
    assert own <= all * locked;
    assert batch.Ok? ==> own == all || own == {};
    if batch.Ok? && each.Ok? {
      AllLockedUnique(s, txnId, startTs, writes, order, batch.value, each.value);
    }
  }

  lemma SamePrewritable(s: Store, txnId: TxnId, startTs: Timestamp, writes: seq<PhysicalWrite>,
                        order: seq<PhysicalWrite>)
    requires forall w :: w in writes <==> w in order
    ensures (forall i :: 0 <= i < |writes| ==> Prewritable(s, txnId, startTs, writes[i])) <==>
            (forall i :: 0 <= i < |order| ==> Prewritable(s, txnId, startTs, order[i]))
  {
    hide Prewritable;
    assert forall i :: 0 <= i < |writes| ==> writes[i] in order;
    assert forall i :: 0 <= i < |order| ==> order[i] in writes;
  }

  /** When every write passes alone, the intents found on its keys are the transaction's own. */
  lemma OwnOrNone(s: Store, txnId: TxnId, startTs: Timestamp, writes: seq<PhysicalWrite>)
    ensures (forall i :: 0 <= i < |writes| ==> Prewritable(s, txnId, startTs, writes[i])) ==>
              T.OwnIntents(s, txnId, startTs, T.WriteKeys(writes)) == T.WriteMap(writes).Keys * s.intents.Keys
    ensures T.OwnIntents(s, txnId, startTs, T.WriteKeys(writes)) <= T.WriteMap(writes).Keys * s.intents.Keys
  {
    hide Prewritable;
    var keys := T.WriteKeys(writes);
    forall k ensures k in keys <==> k in T.WriteMap(writes) {
      if k in keys { var i :| 0 <= i < |keys| && keys[i] == k; assert writes[i].key == k; }
      if k in T.WriteMap(writes) { var i :| 0 <= i < |writes| && writes[i].key == k; assert keys[i] == k; }
    }
    if forall i :: 0 <= i < |writes| ==> Prewritable(s, txnId, startTs, writes[i]) {
      forall k | k in T.WriteMap(writes) && k in s.intents ensures k in T.OwnIntents(s, txnId, startTs, keys) {
        var i :| 0 <= i < |writes| && writes[i].key == k;
        CheckIsPrewrite(s, txnId, startTs, writes[i]);
      }
    }
  }

  // ----- visibility -----

  /**
    A successful batch is visible as a whole or not at all: a reader at or after its commit timestamp
    sees every version of it, an earlier reader sees what it saw before, and other keys do not change.
   */
  lemma BatchIsAtomic(s: Store, step: Step, t: Store, k: Key, at: Timestamp)
    requires !Collects(step) && StoreNext(s, step, t)
    ensures ReadVersion(t.committed, k, at) ==
              if k in Written(s, step) && at >= WriteTs(step) then Some((WriteTs(step), Written(s, step)[k]))
              else ReadVersion(s.committed, k, at)
  {
    hide VisibleTs, MutateNext, Written, WriteTs, OriginOf, LockKeys, StartOf, MayWrite, NewIntent;
    StepShape(s, step, t);
    StampedRead(s.committed, Written(s, step), WriteTs(step), k, at);
  }

  lemma StampedRead(m: map<VKey, Option<Value>>, w: map<Key, Option<Value>>, ts: Timestamp, k: Key, at: Timestamp)
    requires k in w ==> Above(m.Keys, k, ts)
    ensures ReadVersion(m + T.Stamp(w, ts), k, at) ==
              if k in w && at >= ts then Some((ts, w[k])) else ReadVersion(m, k, at)
  {
    hide VisibleTs;
    var n := m + T.Stamp(w, ts);
    forall u: Timestamp ensures VKey(k, u) in n <==> VKey(k, u) in m || (k in w && u == ts) {}
    if k in w && at >= ts {
      VisibleIs(n.Keys, k, at, ts);
    } else {
      var a := VisibleTs(m.Keys, k, at);
      if a.Some? {
        VisibleIs(n.Keys, k, at, a.value);
      } else {
        assert VisibleTs(n.Keys, k, at).None?;
      }
    }
  }
}
