/** What holds of every run: snapshot reads, first committer wins, commits that cannot fail, guards that exclude. */
module Theorems {
  import opened Types
  import opened History
  import opened Gc
  import opened Planner
  import opened Runs
  import opened LogInvariant
  import T = Transitions

  // ----- reads against the log -----

  ghost function LogVersion(log: map<VKey, Entry>, k: Key, t: Timestamp): Option<(Timestamp, Option<Value>)> {
    match VisibleTs(log.Keys, k, t)
    case None => None
    case Some(ts) => Some((ts, log[VKey(k, ts)].value))
  }

  /** The value of the logged write to `k` with the greatest commit timestamp at or before `t`. */
  ghost function LogRead(log: map<VKey, Entry>, k: Key, t: Timestamp): Option<Value> {
    match LogVersion(log, k, t)
    case None => None
    case Some(v) => v.1
  }

  /** The log's answer, except that a write at or below a collapsed tombstone reads as no version at all. */
  ghost function LogVersionAbove(a: Sys, k: Key, t: Timestamp): Option<(Timestamp, Option<Value>)> {
    var v := LogVersion(a.log, k, t);
    if k in a.graves && v.Some? && v.value.0 <= a.graves[k] then None else v
  }

  lemma InvRefinesLog(a: Sys, k: Key, t: Timestamp)
    requires Inv(a) && t >= a.safe
    ensures Read(a.store.committed, k, t) == LogRead(a.log, k, t)
    ensures ReadVersion(a.store.committed, k, t) == LogVersionAbove(a, k, t)
  {
    hide VisibleTs, Serial, LocksAbove;
    var m := VisibleTs(a.log.Keys, k, t);
    if m.None? {
      assert VisibleTs(a.store.committed.Keys, k, t).None?;
    } else if VKey(k, m.value) in a.store.committed {
      VisibleIs(a.store.committed.Keys, k, t, m.value);
    } else {
      var v := VKey(k, m.value);
      assert !Covered(a, v);
      assert Buried(a, v);
      assert m.value == a.graves[k];
      assert VisibleTs(a.store.committed.Keys, k, t).None?;
    }
  }

  /**
    Refinement to the log. After every lawful run, for every key and every time at or above the
    largest safe point used, a read returns the last logged write. With its commit timestamp too, unless
    that write is at or below the key's last collapsed tombstone: then there is no version to report.
   */
  lemma RunRefinesLog(states: seq<Sys>, steps: seq<Step>, i: nat, k: Key, t: Timestamp)
    requires Lawful(states, steps) && i <= |steps| && t >= states[i].safe
    ensures Read(states[i].store.committed, k, t) == LogRead(states[i].log, k, t)
    ensures ReadVersion(states[i].store.committed, k, t) == LogVersionAbove(states[i], k, t)
  {
    hide Inv, Next, Respects, Read, LogRead, ReadVersion, LogVersionAbove;
    RunInv(states, steps, i);
    InvRefinesLog(states[i], k, t);
  }

  /** A run in which no collection may collapse owes nothing to the contract, and buries nothing. */
  lemma {:induction false} NoCollapseIsLawful(states: seq<Sys>, steps: seq<Step>, n: nat)
    requires IsRun(states, steps) && n <= |steps|
    requires forall i :: 0 <= i < |steps| ==> !MayCollapse(steps[i])
    ensures states[n].graves == map[]
    ensures forall i :: 0 <= i < n ==> Respects(states[i], steps[i])
  {
    hide Next, Respects;
    if n > 0 {
      NoCollapseIsLawful(states, steps, n - 1);
      NoCollapseNext(states[n - 1], steps[n - 1], states[n]);
    }
  }

  lemma NoCollapseNext(a: Sys, step: Step, b: Sys)
    requires Next(a, step, b) && !MayCollapse(step) && a.graves == map[]
    ensures b.graves == map[] && Respects(a, step)
  {
    hide StoreNext, Written, LockKeys, NewGraves;
    NoNewGraves(a.store, step, b.store);
  }

  lemma NoNewGraves(s: Store, step: Step, t: Store)
    requires StoreNext(s, step, t) && !MayCollapse(step)
    ensures NewGraves(s, t) == map[]
  {
    hide VisibleTs, MutateNext, CollectNext, Written;
    if Collects(step) {
      CollectPrunes(s, step, t);
      KeepersStay(s, t, SafePointOf(step));
    } else {
      hide MayWrite, Above, NewIntent;
      StepShape(s, step, t);
      NothingGone(s, t);
    }
  }

  lemma KeepersStay(s: Store, t: Store, sp: Timestamp)
    requires Prunes(s, t, sp, false)
    ensures NewGraves(s, t) == map[]
  {
    hide VisibleTs, Prunes;
    forall v | v in s.committed ensures !(forall u: Timestamp :: VKey(v.key, u) !in t.committed) {
      assert v == VKey(v.key, v.ts);
      if v !in t.committed {
        assert Removed(s, t, v);
        GoneKey(s, t, sp, false, v);
        assert VKey(v.key, Keeper(s, v.key, sp).value) in t.committed;
      }
    }
  }

  // ----- first committer wins -----

  /**
    First committer wins. Take any two writes of one key in the log of a lawful run, the second by a
    transaction: the first lies outside the second's interval (start, commit]. So two transactions
    that wrote a common key have disjoint intervals, and no batch write falls inside one.
   */
  lemma FirstCommitterWins(states: seq<Sys>, steps: seq<Step>, i: nat, k: Key, c1: Timestamp, c2: Timestamp)
    requires Lawful(states, steps) && i <= |steps| && c1 != c2
    requires VKey(k, c1) in states[i].log && VKey(k, c2) in states[i].log
    requires states[i].log[VKey(k, c2)].origin.ByIntent?
    ensures var e1, e2 := states[i].log[VKey(k, c1)].origin, states[i].log[VKey(k, c2)].origin;
            && e2.startTs < c2
            && !(e2.startTs < c1 <= c2)
            && (e1.ByIntent? ==> c1 <= e2.startTs || c2 <= e1.startTs)
  {
    hide Next, Respects, InLog, Accounted, GravesHold, LocksAbove;
    RunInv(states, steps, i);
    assert Serial(states[i]);
  }

  // ----- prewritten transactions can commit -----

  /** The step is the transaction's own commit or abort of that key. */
  ghost predicate Ends(step: Step, txnId: TxnId, startTs: Timestamp, k: Key) {
    match step
    case Commit(x, key, s, _) => x == txnId && s == startTs && key == k
    case Abort(x, key, s) => x == txnId && s == startTs && key == k
    case CommitBatch(x, s, _, keys) => x == txnId && s == startTs && k in keys
    case AbortBatch(x, s, keys) => x == txnId && s == startTs && k in keys
    case _ => false
  }

  ghost predicate Holds(s: Store, txnId: TxnId, startTs: Timestamp, k: Key) {
    k in s.intents && s.intents[k].txnId == txnId && s.intents[k].startTs == startTs
  }

  /** The step is a successful prewrite of the key, alone or in a batch. */
  ghost predicate Prewrites(s: Store, step: Step, txnId: TxnId, startTs: Timestamp, k: Key) {
    match step
    case Prewrite(x, st, key, m) => x == txnId && st == startTs && key == k && T.Prewrite(s, x, st, key, m).Ok?
    case PrewriteBatch(x, st, writes) =>
      x == txnId && st == startTs && k in T.WriteMap(writes) && T.PrewriteBatch(s, x, st, writes).Ok?
    case _ => false
  }

  lemma PrewriteHolds(s: Store, step: Step, t: Store, txnId: TxnId, startTs: Timestamp, k: Key)
    requires StoreNext(s, step, t) && Prewrites(s, step, txnId, startTs, k)
    ensures Holds(t, txnId, startTs, k)
  {
    hide T.PrewriteBatch, T.WriteMap, VisibleTs, CollectNext;
    if step.PrewriteBatch? { PrewriteBatchHolds(s, txnId, startTs, step.writes, k); }
  }

  lemma PrewriteBatchHolds(s: Store, txnId: TxnId, startTs: Timestamp, writes: seq<PhysicalWrite>, k: Key)
    requires T.PrewriteBatch(s, txnId, startTs, writes).Ok? && k in T.WriteMap(writes)
    ensures Holds(T.PrewriteBatch(s, txnId, startTs, writes).value, txnId, startTs, k)
  {
    hide T.FirstDuplicate, T.FirstError, VisibleTs;
    var i :| 0 <= i < |writes| && writes[i].key == k;
    assert T.PrewriteChecks(s, txnId, startTs, writes)[i].None?;
  }

  /** Only its own commit or abort takes a lock away. */
  lemma LockStays(s: Store, step: Step, t: Store, txnId: TxnId, startTs: Timestamp, k: Key)
    requires StoreNext(s, step, t) && Holds(s, txnId, startTs, k) && !Ends(step, txnId, startTs, k)
    ensures Holds(t, txnId, startTs, k)
  {
    hide VisibleTs, T.FirstDuplicate, T.FirstError, T.WriteMap, T.Stamp, Collected, Prunes;
    if Collects(step) {
      CollectKeepsIntents(s, step, t);
    } else {
      match step {
        case CommitBatch(x, st, c, keys) =>
          if T.CommitBatch(s, x, st, c, keys).Ok? && k in keys { CommitBatchLocks(s, x, st, c, keys, k); }
        case _ =>
      }
    }
  }

  lemma CollectKeepsIntents(s: Store, step: Step, t: Store)
    requires Collects(step) && StoreNext(s, step, t)
    ensures t.intents == s.intents
  {
    hide CollectNext, IsGarbage;
    CollectPrunes(s, step, t);
  }

  lemma CommitBatchLocks(s: Store, txnId: TxnId, startTs: Timestamp, commitTs: Timestamp, keys: seq<Key>, k: Key)
    requires T.CommitBatch(s, txnId, startTs, commitTs, keys).Ok? && k in s.intents && k in keys
    ensures Holds(s, txnId, startTs, k)
  {
    hide T.FirstDuplicate, T.FirstError, VisibleTs;
    var i :| 0 <= i < |keys| && keys[i] == k;
    assert T.CommitChecks(s, txnId, startTs, commitTs, keys)[i].None?;
  }

  lemma {:induction false} LockStaysThrough(states: seq<Sys>, steps: seq<Step>, i: nat, j: nat, txnId: TxnId,
                                            startTs: Timestamp, k: Key)
    requires IsRun(states, steps) && i <= j <= |steps|
    requires Holds(states[i].store, txnId, startTs, k)
    requires forall m :: i <= m < j ==> !Ends(steps[m], txnId, startTs, k)
    ensures Holds(states[j].store, txnId, startTs, k)
  {
    hide Next, Holds, Ends;
    if i < j {
      LockStaysThrough(states, steps, i, j - 1, txnId, startTs, k);
      LockStaysNext(states[j - 1], steps[j - 1], states[j], txnId, startTs, k);
    }
  }

  lemma LockStaysNext(a: Sys, step: Step, b: Sys, txnId: TxnId, startTs: Timestamp, k: Key)
    requires Next(a, step, b) && Holds(a.store, txnId, startTs, k) && !Ends(step, txnId, startTs, k)
    ensures Holds(b.store, txnId, startTs, k)
  {
    hide StoreNext, Holds, Ends;
    LockStays(a.store, step, b.store, txnId, startTs, k);
  }

  /** Held locks are enough to commit, under the store invariant. */
  lemma HeldCommits(s: Store, txnId: TxnId, startTs: Timestamp, commitTs: Timestamp, keys: seq<Key>)
    requires StoreInv(s) && keys != [] && T.Distinct(keys) && commitTs > startTs
    requires forall k :: k in keys ==> Holds(s, txnId, startTs, k)
    ensures T.CommitBatch(s, txnId, startTs, commitTs, keys).Ok?
    ensures forall k :: k in keys ==> T.Commit(s, txnId, k, startTs, commitTs).Ok?
  {
    hide VisibleTs, T.FirstDuplicate, T.FirstError;
    var errs := T.CommitChecks(s, txnId, startTs, commitTs, keys);
    forall k | k in keys
      ensures T.CommitCheck(s, txnId, startTs, commitTs, k).None? && T.Commit(s, txnId, k, startTs, commitTs).Ok?
    {
      LatestAbove(s.committed.Keys, k, startTs);
    }
    assert forall i :: 0 <= i < |errs| ==> keys[i] in keys && errs[i].None?;
  }

  /** The key was prewritten at some step before `j`, and the transaction has not ended it since. */
  ghost predicate Prewritten(states: seq<Sys>, steps: seq<Step>, j: nat, txnId: TxnId, startTs: Timestamp, k: Key)
    requires j <= |steps| < |states|
  {
    exists i :: 0 <= i < j && PrewrittenAt(states, steps, i, j, txnId, startTs, k)
  }

  ghost predicate PrewrittenAt(states: seq<Sys>, steps: seq<Step>, i: nat, j: nat, txnId: TxnId, startTs: Timestamp,
                               k: Key)
    requires i < j <= |steps| < |states|
  {
    && Prewrites(states[i].store, steps[i], txnId, startTs, k)
    && forall m :: i < m < j ==> !Ends(steps[m], txnId, startTs, k)
  }

  lemma PrewrittenHolds(states: seq<Sys>, steps: seq<Step>, j: nat, txnId: TxnId, startTs: Timestamp, k: Key)
    requires IsRun(states, steps) && j <= |steps| && Prewritten(states, steps, j, txnId, startTs, k)
    ensures Holds(states[j].store, txnId, startTs, k)
  {
    hide StoreNext, Prewrites, Holds, Ends, NewGraves, Written, SafePointOf;
    var i :| 0 <= i < j && PrewrittenAt(states, steps, i, j, txnId, startTs, k);
    assert Next(states[i], steps[i], states[i + 1]);
    PrewriteHolds(states[i].store, steps[i], states[i + 1].store, txnId, startTs, k);
    LockStaysThrough(states, steps, i + 1, j, txnId, startTs, k);
  }

  /**
    A prewritten transaction can always commit. In every run, lawful or not: once each of its keys was
    prewritten, by itself or in a batch, and whatever came since but the transaction's own commit or
    abort of that key, committing them at any timestamp above its start succeeds.
   */
  lemma PrewrittenCanCommit(states: seq<Sys>, steps: seq<Step>, j: nat, txnId: TxnId, startTs: Timestamp,
                            keys: seq<Key>, commitTs: Timestamp)
    requires IsRun(states, steps) && j <= |steps|
    requires keys != [] && T.Distinct(keys) && commitTs > startTs
    requires forall k :: k in keys ==> Prewritten(states, steps, j, txnId, startTs, k)
    ensures T.CommitBatch(states[j].store, txnId, startTs, commitTs, keys).Ok?
    ensures forall k :: k in keys ==> T.Commit(states[j].store, txnId, k, startTs, commitTs).Ok?
  {
    hide Next, T.CommitBatch, T.Commit, Prewritten, Holds, StoreInv, T.Distinct;
    forall k | k in keys ensures Holds(states[j].store, txnId, startTs, k) {
      PrewrittenHolds(states, steps, j, txnId, startTs, k);
    }
    RunStoreInv(states, steps, j);
    HeldCommits(states[j].store, txnId, startTs, commitTs, keys);
  }

  /** No commit, single or batch, ever reports a timestamp that is too early, taken or too old. */
  lemma CommitErrorsUnreachable(states: seq<Sys>, steps: seq<Step>, i: nat, txnId: TxnId, key: Key, keys: seq<Key>,
                                startTs: Timestamp, commitTs: Timestamp)
    requires IsRun(states, steps) && i <= |steps|
    ensures var r := T.Commit(states[i].store, txnId, key, startTs, commitTs);
            r.Err? ==> !r.error.CommitTsTooEarly? && !r.error.DuplicateCommitTimestamp? && !r.error.CommitTsTooOld?
    ensures var r := T.CommitBatch(states[i].store, txnId, startTs, commitTs, keys);
            r.Err? ==> !r.error.CommitTsTooEarly? && !r.error.CommitTsTooOld?
  {
    hide VisibleTs, Next, T.CommitBatch, StoreInv;
    RunStoreInv(states, steps, i);
    CommitErrors(states[i].store, txnId, key, startTs, commitTs);
    BatchCommitErrors(states[i].store, txnId, startTs, commitTs, keys);
  }

  lemma CommitErrors(s: Store, txnId: TxnId, key: Key, startTs: Timestamp, commitTs: Timestamp)
    requires StoreInv(s)
    ensures var r := T.Commit(s, txnId, key, startTs, commitTs);
            r.Err? ==> !r.error.CommitTsTooEarly? && !r.error.DuplicateCommitTimestamp? && !r.error.CommitTsTooOld?
    ensures var e := T.CommitCheck(s, txnId, startTs, commitTs, key);
            commitTs > startTs && e.Some? ==> !e.value.CommitTsTooEarly? && !e.value.CommitTsTooOld?
  {
    hide VisibleTs;
    if key in s.intents { LatestAbove(s.committed.Keys, key, s.intents[key].startTs); }
  }

  lemma BatchCommitErrors(s: Store, txnId: TxnId, startTs: Timestamp, commitTs: Timestamp, keys: seq<Key>)
    requires StoreInv(s)
    ensures var r := T.CommitBatch(s, txnId, startTs, commitTs, keys);
            r.Err? ==> !r.error.CommitTsTooEarly? && !r.error.CommitTsTooOld?
  {
    hide StoreInv, T.CommitCheck, T.FirstError, T.FirstDuplicate;
    var errs := T.CommitChecks(s, txnId, startTs, commitTs, keys);
    var bad := T.FirstError(errs);
    if commitTs > startTs && bad.Some? {
      var i :| 0 <= i < |errs| && errs[i] == bad;
      CommitErrors(s, txnId, keys[i], startTs, commitTs);
    }
  }

  // ----- the log only grows -----

  lemma {:induction false} LogGrows(states: seq<Sys>, steps: seq<Step>, i: nat, j: nat, v: VKey)
    requires Lawful(states, steps) && i <= j <= |steps| && v in states[i].log
    ensures v in states[j].log && states[j].log[v] == states[i].log[v]
  {
    hide Inv, Next, Respects;
    if i < j {
      LogGrows(states, steps, i, j - 1, v);
      RunInv(states, steps, j - 1);
      NextKeepsInv(states[j - 1], steps[j - 1], states[j]);
    }
  }

  /** Later writes of a key are newer than everything it held before. */
  lemma {:induction false} LaterIsNewer(states: seq<Sys>, steps: seq<Step>, i: nat, j: nat, k: Key, old': Timestamp,
                                        new': Timestamp)
    requires Lawful(states, steps) && i <= j <= |steps|
    requires VKey(k, old') in states[i].log && VKey(k, new') in states[j].log && VKey(k, new') !in states[i].log
    ensures old' < new'
  {
    hide Inv, Next, Respects;
    if VKey(k, new') in states[j - 1].log {
      LaterIsNewer(states, steps, i, j - 1, k, old', new');
    } else {
      LogGrows(states, steps, i, j - 1, VKey(k, old'));
      RunInv(states, steps, j - 1);
      NewEntryIsNewer(states[j - 1], steps[j - 1], states[j], k, old', new');
    }
  }

  lemma NewEntryIsNewer(a: Sys, step: Step, b: Sys, k: Key, old': Timestamp, new': Timestamp)
    requires Inv(a) && Next(a, step, b) && Respects(a, step)
    requires VKey(k, old') in a.log && VKey(k, new') in b.log && VKey(k, new') !in a.log
    ensures old' < new'
  {
    hide MutateNext, CollectNext, Written, WriteTs, OriginOf, LockKeys, StartOf, Shape;
    if Collects(step) {
      CollectionShrinks(a, step, b);
    } else {
      MutationExtends(a, step, b);
      Added(a, b, Written(a.store, step), WriteTs(step), OriginOf(step), LockKeys(step), StartOf(step));
      WritesAboveLog(a, b, Written(a.store, step), WriteTs(step), OriginOf(step), LockKeys(step), StartOf(step), k);
    }
  }

  lemma {:induction false} SafeGrows(states: seq<Sys>, steps: seq<Step>, i: nat, j: nat)
    requires IsRun(states, steps) && i <= j <= |steps|
    ensures states[i].safe <= states[j].safe && states[i].graves.Keys <= states[j].graves.Keys
  {
    hide Next;
    if i < j {
      SafeGrows(states, steps, i, j - 1);
      NextGrows(states[j - 1], steps[j - 1], states[j]);
    }
  }

  lemma NextGrows(a: Sys, step: Step, b: Sys)
    requires Next(a, step, b)
    ensures a.safe <= b.safe && a.graves.Keys <= b.graves.Keys
  {
    hide StoreNext, SafePointOf, NewGraves, Written;
  }

  // ----- history freezes -----

  /** Graves only move up: a later collapse of the key was of a newer tombstone. */
  lemma {:induction false} GravesGrow(states: seq<Sys>, steps: seq<Step>, i: nat, j: nat, k: Key)
    requires Lawful(states, steps) && i <= j <= |steps| && k in states[i].graves
    ensures k in states[j].graves && states[i].graves[k] <= states[j].graves[k]
  {
    hide Inv, Next, Respects;
    if i < j {
      GravesGrow(states, steps, i, j - 1, k);
      RunInv(states, steps, j - 1);
      NextGravesGrow(states[j - 1], steps[j - 1], states[j], k);
    }
  }

  lemma NextGravesGrow(a: Sys, step: Step, b: Sys, k: Key)
    requires Inv(a) && Next(a, step, b) && k in a.graves
    ensures k in b.graves && a.graves[k] <= b.graves[k]
  {
    hide StoreNext, NewGraves, Written, Prunes, Serial, LocksAbove, Accounted, Extends;
    if Collects(step) {
      CollectionShrinks(a, step, b);
      NewGraveOf(a, b, SafePointOf(step), MayCollapse(step), k);
    } else {
      MutationExtends(a, step, b);
      assert b.graves == a.graves by { ExtendSame(a, b, step); }
    }
  }

  lemma ExtendSame(a: Sys, b: Sys, step: Step)
    requires Extends(a, b, Written(a.store, step), WriteTs(step), OriginOf(step), LockKeys(step), StartOf(step))
    ensures b.graves == a.graves && b.safe == a.safe
  {
    hide Shape, Written;
  }

  /**
    Once a key has a version at or after `r`, what a reader sees at `r` is settled: as long as safe
    points stay at or below `r`, no commit, batch or collection changes the value. The version seen can
    disappear only by a collapse at or above it, which makes it a tombstone; without a new collapse of the
    key it stays.
   */
  lemma HistoryFreezes(states: seq<Sys>, steps: seq<Step>, i: nat, j: nat, k: Key, r: Timestamp, top: Timestamp)
    requires Lawful(states, steps) && i <= j <= |steps|
    requires VKey(k, top) in states[i].store.committed && top >= r
    requires states[j].safe <= r
    ensures Read(states[j].store.committed, k, r) == Read(states[i].store.committed, k, r)
    ensures var v := ReadVersion(states[i].store.committed, k, r);
            ReadVersion(states[j].store.committed, k, r) ==
              if k in states[j].graves && v.Some? && v.value.0 <= states[j].graves[k] then None else v
    ensures (k in states[j].graves ==> k in states[i].graves && states[i].graves[k] == states[j].graves[k]) ==>
              ReadVersion(states[j].store.committed, k, r) == ReadVersion(states[i].store.committed, k, r)
  {
    hide VisibleTs, Next, Respects, Inv, Read, LogVersion, ReadVersion, LogRead;
    SafeGrows(states, steps, i, j);
    SettledLog(states, steps, i, j, k, r, top);
    RunRefinesLog(states, steps, i, k, r);
    RunRefinesLog(states, steps, j, k, r);
    if k in states[i].graves { GravesGrow(states, steps, i, j, k); }
  }

  /** The log has settled at and below `r` for a key with a version at or after `r`. */
  lemma SettledLog(states: seq<Sys>, steps: seq<Step>, i: nat, j: nat, k: Key, r: Timestamp, top: Timestamp)
    requires Lawful(states, steps) && i <= j <= |steps|
    requires VKey(k, top) in states[i].store.committed && top >= r
    ensures LogVersion(states[i].log, k, r) == LogVersion(states[j].log, k, r)
    ensures LogRead(states[i].log, k, r) == LogRead(states[j].log, k, r)
  {
    hide VisibleTs, Next, Respects, Accounted, GravesHold, LocksAbove, Serial;
    RunInv(states, steps, i);
    assert VKey(k, top) in states[i].log;
    forall u: Timestamp | u <= r
      ensures VKey(k, u) in states[i].log <==> VKey(k, u) in states[j].log
      ensures VKey(k, u) in states[i].log ==> states[i].log[VKey(k, u)] == states[j].log[VKey(k, u)]
    {
      if VKey(k, u) in states[i].log {
        LogGrows(states, steps, i, j, VKey(k, u));
      } else if VKey(k, u) in states[j].log {
        LaterIsNewer(states, steps, i, j, k, top, u);
      }
    }
    SameLogRead(states[i].log, states[j].log, k, r);
  }

  lemma SameLogRead(l: map<VKey, Entry>, m: map<VKey, Entry>, k: Key, r: Timestamp)
    requires forall u: Timestamp :: u <= r ==> (VKey(k, u) in l <==> VKey(k, u) in m)
    requires forall u: Timestamp :: u <= r && VKey(k, u) in l ==> l[VKey(k, u)] == m[VKey(k, u)]
    ensures LogVersion(l, k, r) == LogVersion(m, k, r) && LogRead(l, k, r) == LogRead(m, k, r)
  {
    hide VisibleTs;
    var a := VisibleTs(l.Keys, k, r);
    if a.Some? {
      VisibleIs(m.Keys, k, r, a.value);
    } else {
      assert VisibleTs(m.Keys, k, r).None?;
    }
  }

  // ----- version guards exclude each other -----

  ghost predicate Swaps(s: Store, step: Step, k: Key, expected: Option<Timestamp>) {
    && step.GuardedBatch?
    && T.GuardedBatch(s, step.commitTs, step.guards, step.writes).Ok?
    && k in T.WriteMap(step.writes)
    && exists g :: g in step.guards && g.ExpectedVersion? && g.key == k && g.expectedCommitTs == expected
  }

  /** A version guard passes only on the key's exact latest version, with the key unlocked. */
  lemma VersionGuardIsExact(s: Store, step: Step, k: Key, expected: Option<Timestamp>)
    requires Swaps(s, step, k, expected)
    ensures LatestTs(s.committed.Keys, k) == expected && k !in s.intents
    ensures Written(s, step) == T.WriteMap(step.writes)
  {
    hide VisibleTs, T.FirstDuplicate, T.FirstError, T.WriteChecks, T.WriteMap;
    var g :| g in step.guards && g.ExpectedVersion? && g.key == k && g.expectedCommitTs == expected;
    var i :| 0 <= i < |step.guards| && step.guards[i] == g;
    assert T.GuardChecks(s, step.commitTs, step.guards)[i].None?;
    GuardSeesLatest(s, step.commitTs, g);
  }

  lemma GuardSeesLatest(s: Store, commitTs: Timestamp, g: ReadGuard)
    requires T.GuardCheck(s, commitTs, g).None?
    ensures g.key !in s.intents && g.readTs < commitTs
    ensures VisibleTs(s.committed.Keys, g.key, g.readTs) == LatestTs(s.committed.Keys, g.key)
    ensures g.ExpectedVersion? ==> LatestTs(s.committed.Keys, g.key) == g.expectedCommitTs
    ensures g.ExpectedValue? ==> Read(s.committed, g.key, TS_MAX) == g.expectedValue
  {
    hide VisibleTs;
    var latest := LatestTs(s.committed.Keys, g.key);
    if latest.Some? {
      VisibleIs(s.committed.Keys, g.key, g.readTs, latest.value);
    } else {
      assert VisibleTs(s.committed.Keys, g.key, g.readTs).None?;
    }
  }

  /**
    Version CAS is exclusive. In a lawful run two guarded batches that guard and write a key on the
    same expected version cannot both succeed; on expected absence they can only once the first one's
    own write, or a later one, was collapsed in between.
   */
  lemma VersionCasExclusive(states: seq<Sys>, steps: seq<Step>, i: nat, j: nat, k: Key, expected: Option<Timestamp>)
    requires Lawful(states, steps) && i < j < |steps|
    requires Swaps(states[i].store, steps[i], k, expected) && Swaps(states[j].store, steps[j], k, expected)
    ensures expected == None && k in states[j].graves && steps[i].commitTs <= states[j].graves[k]
    ensures k in states[i].graves ==> states[i].graves[k] < states[j].graves[k]
  {
    hide VisibleTs, Next, Respects, T.GuardedBatch, T.WriteMap, Serial, LocksAbove, GravesHold, Accounted;
    var c := steps[i].commitTs;
    assert Next(states[i], steps[i], states[i + 1]);
    SwapLogs(states[i], steps[i], states[i + 1], k, expected);
    LogGrows(states, steps, i + 1, j, VKey(k, c));
    VersionGuardIsExact(states[j].store, steps[j], k, expected);
    RunInv(states, steps, j);
    LoggedPastLatest(states[j], k, c, expected);
    RunInv(states, steps, i);
    if k in states[i].graves { AboveOldGrave(states[i], steps[i], states[i + 1], k, expected); }
  }

  /** A lawful batch writes above the tombstone that was collapsed before it. */
  lemma AboveOldGrave(a: Sys, step: Step, b: Sys, k: Key, expected: Option<Timestamp>)
    requires Respects(a, step) && Swaps(a.store, step, k, expected) && k in a.graves
    ensures a.graves[k] < step.commitTs
  {
    hide Swaps, Written, T.WriteMap;
    SwapWrites(a.store, step, k, expected);
  }

  lemma SwapLogs(a: Sys, step: Step, b: Sys, k: Key, expected: Option<Timestamp>)
    requires Next(a, step, b) && Swaps(a.store, step, k, expected)
    ensures VKey(k, step.commitTs) in b.log
    ensures expected.Some? ==> expected.value < step.commitTs
  {
    hide StoreNext, Swaps, Written, SafePointOf, NewGraves, T.WriteMap;
    VersionGuardIsExact(a.store, step, k, expected);
    SwapWrites(a.store, step, k, expected);
    assert VKey(k, step.commitTs) in Logged(Written(a.store, step), step.commitTs, ByBatch);
  }

  lemma SwapWrites(s: Store, step: Step, k: Key, expected: Option<Timestamp>)
    requires Swaps(s, step, k, expected)
    ensures step.GuardedBatch? && k in Written(s, step)
    ensures expected.Some? ==> expected.value < step.commitTs
  {
    hide VisibleTs, T.WriteMap, T.FirstDuplicate, T.FirstError, T.GuardChecks;
    VersionGuardIsExact(s, step, k, expected);
    InstallShape(s, step.commitTs, step.writes);
    LatestAbove(s.committed.Keys, k, step.commitTs);
  }

  /** A logged write newer than the latest stored version was collapsed, and then nothing is stored. */
  lemma LoggedPastLatest(a: Sys, k: Key, c: Timestamp, latest: Option<Timestamp>)
    requires Inv(a) && VKey(k, c) in a.log && LatestTs(a.store.committed.Keys, k) == latest
    requires latest.Some? ==> latest.value < c
    ensures latest == None && k in a.graves && c <= a.graves[k]
  {
    hide VisibleTs, Serial, LocksAbove;
    assert VKey(k, c) !in a.store.committed;
    assert !Covered(a, VKey(k, c));
    assert Buried(a, VKey(k, c));
  }

  // ----- without collapse, unconditionally -----

  ghost predicate NeverCollapses(steps: seq<Step>) {
    forall i :: 0 <= i < |steps| ==> !MayCollapse(steps[i])
  }

  lemma NoCollapseRun(states: seq<Sys>, steps: seq<Step>, n: nat)
    requires IsRun(states, steps) && NeverCollapses(steps) && n <= |steps|
    ensures Lawful(states, steps) && states[n].graves == map[]
  {
    hide Next, Respects, MayCollapse;
    NoCollapseIsLawful(states, steps, |steps|);
    NoCollapseIsLawful(states, steps, n);
  }

  /** Where no step may collapse, every permitted versioned read is the log's, whatever the callers do. */
  lemma NoCollapseRefinesLog(states: seq<Sys>, steps: seq<Step>, i: nat, k: Key, t: Timestamp)
    requires IsRun(states, steps) && NeverCollapses(steps) && i <= |steps| && t >= states[i].safe
    ensures ReadVersion(states[i].store.committed, k, t) == LogVersion(states[i].log, k, t)
  {
    hide Next, Respects, ReadVersion, LogVersion, Read, LogRead, NeverCollapses, IsRun;
    NoCollapseRun(states, steps, i);
    RunRefinesLog(states, steps, i, k, t);
  }

  lemma NoCollapseFreezes(states: seq<Sys>, steps: seq<Step>, i: nat, j: nat, k: Key, r: Timestamp, top: Timestamp)
    requires IsRun(states, steps) && NeverCollapses(steps) && i <= j <= |steps|
    requires VKey(k, top) in states[i].store.committed && top >= r
    requires states[j].safe <= r
    ensures ReadVersion(states[j].store.committed, k, r) == ReadVersion(states[i].store.committed, k, r)
  {
    hide Next, Respects, ReadVersion, NeverCollapses, IsRun;
    NoCollapseRun(states, steps, j);
    HistoryFreezes(states, steps, i, j, k, r, top);
  }

  /** At most one guarded batch can swap a key away from a given expected version, or from absence. */
  lemma NoCollapseSwapsOnce(states: seq<Sys>, steps: seq<Step>, i: nat, j: nat, k: Key, expected: Option<Timestamp>)
    requires IsRun(states, steps) && NeverCollapses(steps) && i < j < |steps|
    ensures !Swaps(states[i].store, steps[i], k, expected) || !Swaps(states[j].store, steps[j], k, expected)
  {
    hide Next, Respects, Swaps, NeverCollapses;
    NoCollapseRun(states, steps, j);
    if Swaps(states[i].store, steps[i], k, expected) && Swaps(states[j].store, steps[j], k, expected) {
      VersionCasExclusive(states, steps, i, j, k, expected);
    }
  }
}
