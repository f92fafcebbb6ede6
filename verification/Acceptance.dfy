/** Exactly when each mutator accepts, said of the plain version sets rather than of the order of its checks. */
module Acceptance {
  import opened Types
  import opened History
  import opened Gc
  import opened Runs
  import opened Theorems
  import T = Transitions

  ghost predicate HoldsWith(s: Store, txnId: TxnId, startTs: Timestamp, k: Key, m: Mutation) {
    Holds(s, txnId, startTs, k) && s.intents[k].mutation == m
  }

  /** Unlocked, and every version of the key older than `ts`. */
  ghost predicate FreeBelow(s: Store, k: Key, ts: Timestamp) {
    k !in s.intents && Above(s.committed.Keys, k, ts)
  }

  /** What a guard demands of the history. */
  ghost predicate GuardMet(s: Store, commitTs: Timestamp, g: ReadGuard) {
    && g.readTs < commitTs
    && g.key !in s.intents
    && AtOrBelow(s.committed.Keys, g.key, g.readTs)
    && match g
       case ExpectedVersion(k, _, expected) => LatestTs(s.committed.Keys, k) == expected
       case ExpectedValue(k, _, expected) => Read(s.committed, k, TS_MAX) == expected
  }

  /** A prewrite is accepted on an exact replay, or on an unlocked key with no version after the start. */
  lemma PrewriteAccepts(s: Store, txnId: TxnId, startTs: Timestamp, k: Key, m: Mutation)
    ensures T.Prewrite(s, txnId, startTs, k, m).Ok? <==>
              HoldsWith(s, txnId, startTs, k, m) || (k !in s.intents && AtOrBelow(s.committed.Keys, k, startTs))
  {
    hide VisibleTs;
    LatestAbove(s.committed.Keys, k, startTs);
  }

  /** A commit is accepted exactly for the lock holder, above its start and above every version of the key. */
  lemma CommitAccepts(s: Store, txnId: TxnId, k: Key, startTs: Timestamp, commitTs: Timestamp)
    ensures T.Commit(s, txnId, k, startTs, commitTs).Ok? <==>
              && Holds(s, txnId, startTs, k)
              && startTs < commitTs
              && (s.intents[k].minCommitTs.Some? ==> s.intents[k].minCommitTs.value <= commitTs)
              && Above(s.committed.Keys, k, commitTs)
  {
    hide VisibleTs;
    LatestAbove(s.committed.Keys, k, commitTs);
  }

  lemma WriteAccepts(s: Store, commitTs: Timestamp, w: PhysicalWrite)
    ensures T.WriteCheck(s, commitTs, w).None? <==> FreeBelow(s, w.key, commitTs)
  {
    hide VisibleTs;
    LatestAbove(s.committed.Keys, w.key, commitTs);
  }

  lemma GuardAccepts(s: Store, commitTs: Timestamp, g: ReadGuard)
    ensures T.GuardCheck(s, commitTs, g).None? <==> GuardMet(s, commitTs, g)
  {
    hide VisibleTs;
    var dom := s.committed.Keys;
    LatestAbove(dom, g.key, g.readTs);
    if AtOrBelow(dom, g.key, g.readTs) { SettledRead(s.committed, g.key, g.readTs); }
  }

  /** Past a key's newest version every reader sees the same. */
  lemma SettledRead(m: map<VKey, Option<Value>>, k: Key, t: Timestamp)
    requires AtOrBelow(m.Keys, k, t)
    ensures VisibleTs(m.Keys, k, t) == LatestTs(m.Keys, k)
    ensures Read(m, k, t) == Read(m, k, TS_MAX)
  {
    hide VisibleTs;
    var latest := LatestTs(m.Keys, k);
    if latest.Some? {
      VisibleIs(m.Keys, k, t, latest.value);
    } else {
      assert VisibleTs(m.Keys, k, t).None?;
    }
  }

  ghost predicate WritesFree(s: Store, commitTs: Timestamp, writes: seq<PhysicalWrite>) {
    forall i :: 0 <= i < |writes| ==> FreeBelow(s, writes[i].key, commitTs)
  }

  lemma AllWritesAccept(s: Store, commitTs: Timestamp, writes: seq<PhysicalWrite>)
    ensures T.FirstError(T.WriteChecks(s, commitTs, writes)).None? <==> WritesFree(s, commitTs, writes)
  {
    hide T.FirstError, T.WriteCheck, FreeBelow;
    var errs := T.WriteChecks(s, commitTs, writes);
    forall i | 0 <= i < |writes| ensures errs[i].None? <==> FreeBelow(s, writes[i].key, commitTs) {
      WriteAccepts(s, commitTs, writes[i]);
    }
  }

  lemma AllGuardsAccept(s: Store, commitTs: Timestamp, guards: seq<ReadGuard>)
    ensures T.FirstError(T.GuardChecks(s, commitTs, guards)).None? <==>
              forall i :: 0 <= i < |guards| ==> GuardMet(s, commitTs, guards[i])
  {
    hide T.FirstError, T.GuardCheck, GuardMet;
    var errs := T.GuardChecks(s, commitTs, guards);
    forall i | 0 <= i < |guards| ensures errs[i].None? <==> GuardMet(s, commitTs, guards[i]) {
      GuardAccepts(s, commitTs, guards[i]);
    }
  }

  /** A direct batch is accepted exactly when it writes distinct unlocked keys, each above all its versions. */
  lemma DirectBatchAccepts(s: Store, commitTs: Timestamp, writes: seq<PhysicalWrite>)
    ensures T.DirectBatch(s, commitTs, writes).Ok? <==>
              writes != [] && T.Distinct(T.WriteKeys(writes)) && WritesFree(s, commitTs, writes)
  {
    hide T.FirstError, T.FirstDuplicate, T.WriteChecks, T.Install, T.WriteMap, WritesFree;
    AllWritesAccept(s, commitTs, writes);
  }

  /** A guarded batch needs, besides, at least one guard, and every guard met. */
  lemma GuardedBatchAccepts(s: Store, commitTs: Timestamp, guards: seq<ReadGuard>, writes: seq<PhysicalWrite>)
    ensures T.GuardedBatch(s, commitTs, guards, writes).Ok? <==>
              && writes != [] && guards != [] && T.Distinct(T.WriteKeys(writes))
              && (forall i :: 0 <= i < |guards| ==> GuardMet(s, commitTs, guards[i]))
              && WritesFree(s, commitTs, writes)
  {
    hide T.FirstError, T.FirstDuplicate, T.WriteChecks, T.GuardChecks, T.Install, T.WriteMap, WritesFree, GuardMet;
    AllWritesAccept(s, commitTs, writes);
    AllGuardsAccept(s, commitTs, guards);
  }
}
