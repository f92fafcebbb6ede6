/**
  Runs of the engine, with a ghost log of every successful write that collection never touches,
  and the invariant that ties the store to that log.
 */
module Runs {
  import opened Types
  import opened History
  import opened Gc
  import opened Planner
  import T = Transitions

  datatype Step =
    | Prewrite(txnId: TxnId, startTs: Timestamp, key: Key, mutation: Mutation)
    | Commit(txnId: TxnId, key: Key, startTs: Timestamp, commitTs: Timestamp)
    | Abort(txnId: TxnId, key: Key, startTs: Timestamp)
    | PrewriteBatch(txnId: TxnId, startTs: Timestamp, writes: seq<PhysicalWrite>)
    | CommitBatch(txnId: TxnId, startTs: Timestamp, commitTs: Timestamp, keys: seq<Key>)
    | AbortBatch(txnId: TxnId, startTs: Timestamp, keys: seq<Key>)
    | DirectBatch(commitTs: Timestamp, writes: seq<PhysicalWrite>)
    | GuardedBatch(commitTs: Timestamp, guards: seq<ReadGuard>, writes: seq<PhysicalWrite>)
    | GcIncremental(safePointTs: Timestamp, start: Option<Key>, options: GcOptions)
    | Gc(safePointTs: Timestamp, options: GcOptions)
    | PlanAndApply(safePointTs: Timestamp, key: Key, planOptions: KeyGcOptions)

  ghost predicate Collects(step: Step) {
    step.GcIncremental? || step.Gc? || step.PlanAndApply?
  }

  ghost predicate MayCollapse(step: Step) {
    match step
    case GcIncremental(_, _, o) => o.collapse
    case Gc(_, o) => o.collapse
    case PlanAndApply(_, _, o) => o.collapse
    case _ => false
  }

  /** The store after a call: a rejected call changes nothing. */
  ghost function Settle<E>(s: Store, r: Result<Store, E>): Store {
    if r.Ok? then r.value else s
  }

  /** One collecting call. */
  ghost predicate CollectNext(s: Store, step: Step, t: Store)
    requires Collects(step)
  {
    match step
    case GcIncremental(sp, start, o) =>
      if o.maxKeys == 0 || o.maxVersions == 0 then t == s else exists r :: GcStep(s, sp, start, o, t, r)
    case Gc(sp, o) =>
      if o.maxKeys == 0 || o.maxVersions == 0 then t == s else t == Collected(s, sp, o.collapse)
    case PlanAndApply(sp, k, o) =>
      if o.maxVersionsExamined == 0 then t == s else exists plan :: IsPlan(s, sp, o, k, plan) && t == Applied(s, plan)
  }

  ghost function MutateNext(s: Store, step: Step): Store
    requires !Collects(step)
  {
    match step
    case Prewrite(txnId, startTs, key, mutation) => Settle(s, T.Prewrite(s, txnId, startTs, key, mutation))
    case Commit(txnId, key, startTs, commitTs) => Settle(s, T.Commit(s, txnId, key, startTs, commitTs))
    case Abort(txnId, key, startTs) => T.Abort(s, txnId, key, startTs)
    case PrewriteBatch(txnId, startTs, writes) => Settle(s, T.PrewriteBatch(s, txnId, startTs, writes))
    case CommitBatch(txnId, startTs, commitTs, keys) => Settle(s, T.CommitBatch(s, txnId, startTs, commitTs, keys))
    case AbortBatch(txnId, startTs, keys) => Settle(s, T.AbortBatch(s, txnId, startTs, keys))
    case DirectBatch(commitTs, writes) => Settle(s, T.DirectBatch(s, commitTs, writes))
    case GuardedBatch(commitTs, guards, writes) => Settle(s, T.GuardedBatch(s, commitTs, guards, writes))
  }

  ghost predicate StoreNext(s: Store, step: Step, t: Store) {
    if Collects(step) then CollectNext(s, step, t) else t == MutateNext(s, step)
  }

  // ----- what a step writes and locks -----

  /** The committed writes of the call, if it succeeds. */
  ghost function Written(s: Store, step: Step): map<Key, Option<Value>> {
    match step
    case Commit(txnId, key, startTs, commitTs) =>
      if T.Commit(s, txnId, key, startTs, commitTs).Ok? && key in s.intents
      then map[key := s.intents[key].mutation.ToValue()]
      else map[]
    case CommitBatch(txnId, startTs, commitTs, keys) =>
      if T.CommitBatch(s, txnId, startTs, commitTs, keys).Ok? then T.IntentValues(s, keys) else map[]
    case DirectBatch(commitTs, writes) =>
      if T.DirectBatch(s, commitTs, writes).Ok? then T.WriteMap(writes) else map[]
    case GuardedBatch(commitTs, guards, writes) =>
      if T.GuardedBatch(s, commitTs, guards, writes).Ok? then T.WriteMap(writes) else map[]
    case _ => map[]
  }

  lemma NotCollecting(s: Store, step: Step, k: Key)
    requires k in Written(s, step)
    ensures !Collects(step)
  {
  }

  ghost function WriteTs(step: Step): Timestamp {
    match step
    case Commit(_, _, _, commitTs) => commitTs
    case CommitBatch(_, _, commitTs, _) => commitTs
    case DirectBatch(commitTs, _) => commitTs
    case GuardedBatch(commitTs, _, _) => commitTs
    case _ => 0
  }

  datatype Origin = ByIntent(txnId: TxnId, startTs: Timestamp) | ByBatch

  ghost function OriginOf(step: Step): Origin {
    match step
    case Commit(txnId, _, startTs, _) => ByIntent(txnId, startTs)
    case CommitBatch(txnId, startTs, _, _) => ByIntent(txnId, startTs)
    case _ => ByBatch
  }

  /** The keys a prewrite asks to lock. */
  ghost function LockKeys(step: Step): set<Key> {
    match step
    case Prewrite(_, _, key, _) => {key}
    case PrewriteBatch(_, _, writes) => T.WriteMap(writes).Keys
    case _ => {}
  }

  ghost function StartOf(step: Step): Timestamp {
    match step
    case Prewrite(_, startTs, _, _) => startTs
    case PrewriteBatch(_, startTs, _) => startTs
    case _ => 0
  }

  // ----- the store alone -----

  ghost predicate Above(dom: set<VKey>, k: Key, ts: Timestamp) {
    forall u: Timestamp :: VKey(k, u) in dom ==> u < ts
  }

  ghost predicate AtOrBelow(dom: set<VKey>, k: Key, ts: Timestamp) {
    forall u: Timestamp :: VKey(k, u) in dom ==> u <= ts
  }

  /** An intent is at or above every version of its key, and asks for no minimum commit timestamp. */
  ghost predicate StoreInv(s: Store) {
    forall k :: k in s.intents ==>
      s.intents[k].key == k && s.intents[k].minCommitTs == None && AtOrBelow(s.committed.Keys, k, s.intents[k].startTs)
  }

  /** The writer holds the key's intent, or nobody does. */
  ghost predicate MayWrite(s: Store, k: Key, ts: Timestamp, origin: Origin) {
    if k in s.intents then origin == ByIntent(s.intents[k].txnId, s.intents[k].startTs) && s.intents[k].startTs < ts
    else origin == ByBatch
  }

  ghost predicate NewIntent(s: Store, k: Key, intent: Intent, locks: set<Key>, startTs: Timestamp) {
    && k !in s.intents && k in locks
    && intent.key == k && intent.minCommitTs == None && intent.startTs == startTs
    && AtOrBelow(s.committed.Keys, k, startTs)
  }

  /** How every non-collecting step changes a store: it installs `w` at `ts`, and may lock `locks` at `startTs`. */
  ghost predicate Shape(s: Store, t: Store, w: map<Key, Option<Value>>, ts: Timestamp, origin: Origin,
                        locks: set<Key>, startTs: Timestamp)
  {
    && t.committed == s.committed + T.Stamp(w, ts)
    && (forall k :: k in w ==> Above(s.committed.Keys, k, ts) && MayWrite(s, k, ts, origin) && k !in t.intents)
    && (forall k :: k in t.intents ==>
          (k in s.intents && t.intents[k] == s.intents[k]) || NewIntent(s, k, t.intents[k], locks, startTs))
  }

  lemma StampNothing(m: map<VKey, Option<Value>>, ts: Timestamp)
    ensures m + T.Stamp(map[], ts) == m
  {
    assert T.Stamp(map[], ts) == map[];
  }

  lemma IdleShape(s: Store, ts: Timestamp, origin: Origin, locks: set<Key>, startTs: Timestamp)
    ensures Shape(s, s, map[], ts, origin, locks, startTs)
  {
    hide T.Stamp;
    StampNothing(s.committed, ts);
  }

  lemma LatestAbove(dom: set<VKey>, k: Key, ts: Timestamp)
    ensures (LatestTs(dom, k).Some? ==> LatestTs(dom, k).value < ts) <==> Above(dom, k, ts)
    ensures (LatestTs(dom, k).Some? ==> LatestTs(dom, k).value <= ts) <==> AtOrBelow(dom, k, ts)
  {
  }

  lemma PrewriteShape(s: Store, txnId: TxnId, startTs: Timestamp, key: Key, mutation: Mutation)
    ensures Shape(s, Settle(s, T.Prewrite(s, txnId, startTs, key, mutation)), map[], 0, ByBatch, {key}, startTs)
  {
    hide VisibleTs, Shape, AtOrBelow;
    LatestAbove(s.committed.Keys, key, startTs);
    IdleShape(s, 0, ByBatch, {key}, startTs);
    if T.Prewrite(s, txnId, startTs, key, mutation).Ok? {
      KeptShape(s, T.Prewrite(s, txnId, startTs, key, mutation).value, {key}, startTs);
    }
  }

  lemma KeptShape(s: Store, t: Store, locks: set<Key>, startTs: Timestamp)
    requires t.committed == s.committed
    requires forall k :: k in t.intents ==>
              (k in s.intents && t.intents[k] == s.intents[k]) || NewIntent(s, k, t.intents[k], locks, startTs)
    ensures Shape(s, t, map[], 0, ByBatch, locks, startTs)
  {
    hide NewIntent, T.Stamp;
    StampNothing(s.committed, 0);
  }

  lemma CommitShape(s: Store, txnId: TxnId, key: Key, startTs: Timestamp, commitTs: Timestamp)
    requires T.Commit(s, txnId, key, startTs, commitTs).Ok?
    ensures key in s.intents
    ensures Shape(s, T.Commit(s, txnId, key, startTs, commitTs).value,
                  map[key := s.intents[key].mutation.ToValue()], commitTs, ByIntent(txnId, startTs), {}, 0)
  {
    hide VisibleTs;
    LatestAbove(s.committed.Keys, key, commitTs);
    var w := map[key := s.intents[key].mutation.ToValue()];
    assert T.Stamp(w, commitTs) == map[VKey(key, commitTs) := w[key]];
  }

  lemma PrewriteBatchShape(s: Store, txnId: TxnId, startTs: Timestamp, writes: seq<PhysicalWrite>)
    ensures Shape(s, Settle(s, T.PrewriteBatch(s, txnId, startTs, writes)), map[], 0, ByBatch,
                  T.WriteMap(writes).Keys, startTs)
  {
    hide VisibleTs, T.FirstDuplicate, T.FirstError, T.PrewriteCheck, Shape;
    var w := T.WriteMap(writes);
    IdleShape(s, 0, ByBatch, w.Keys, startTs);
    if T.PrewriteBatch(s, txnId, startTs, writes).Ok? && !(w.Keys <= s.intents.Keys) {
      var errs := T.PrewriteChecks(s, txnId, startTs, writes);
      forall k | k in w ensures AtOrBelow(s.committed.Keys, k, startTs) {
        var i :| 0 <= i < |writes| && writes[i].key == k;
        assert errs[i].None?;
        PassedPrewrite(s, txnId, startTs, writes[i]);
      }
      LockShape(s, txnId, startTs, w);
    }
  }

  lemma PassedPrewrite(s: Store, txnId: TxnId, startTs: Timestamp, w: PhysicalWrite)
    requires T.PrewriteCheck(s, txnId, startTs, w).None? && w.key !in s.intents
    ensures AtOrBelow(s.committed.Keys, w.key, startTs)
  {
    hide VisibleTs;
    LatestAbove(s.committed.Keys, w.key, startTs);
  }

  lemma LockShape(s: Store, txnId: TxnId, startTs: Timestamp, w: map<Key, Option<Value>>)
    requires w.Keys !! s.intents.Keys && forall k :: k in w ==> AtOrBelow(s.committed.Keys, k, startTs)
    ensures Shape(s, s.(intents := s.intents + T.NewIntents(txnId, startTs, w)), map[], 0, ByBatch, w.Keys, startTs)
  {
    hide Shape, AtOrBelow;
    KeptShape(s, s.(intents := s.intents + T.NewIntents(txnId, startTs, w)), w.Keys, startTs);
  }

  lemma PassedCommit(s: Store, txnId: TxnId, startTs: Timestamp, commitTs: Timestamp, k: Key)
    requires T.CommitCheck(s, txnId, startTs, commitTs, k).None? && startTs < commitTs
    ensures k in s.intents && Above(s.committed.Keys, k, commitTs) && MayWrite(s, k, commitTs, ByIntent(txnId, startTs))
  {
    hide VisibleTs;
    LatestAbove(s.committed.Keys, k, commitTs);
  }

  lemma CommitBatchShape(s: Store, txnId: TxnId, startTs: Timestamp, commitTs: Timestamp, keys: seq<Key>)
    requires T.CommitBatch(s, txnId, startTs, commitTs, keys).Ok?
    ensures Shape(s, T.CommitBatch(s, txnId, startTs, commitTs, keys).value,
                  T.IntentValues(s, keys), commitTs, ByIntent(txnId, startTs), {}, 0)
  {
    hide T.FirstDuplicate, T.FirstError, T.CommitCheck, Above, MayWrite;
    var errs := T.CommitChecks(s, txnId, startTs, commitTs, keys);
    forall k | k in T.IntentValues(s, keys)
      ensures Above(s.committed.Keys, k, commitTs) && MayWrite(s, k, commitTs, ByIntent(txnId, startTs))
    {
      var i :| 0 <= i < |keys| && keys[i] == k;
      assert errs[i].None?;
      PassedCommit(s, txnId, startTs, commitTs, k);
    }
  }

  lemma PassedWrite(s: Store, commitTs: Timestamp, w: PhysicalWrite)
    requires T.WriteCheck(s, commitTs, w).None?
    ensures w.key !in s.intents && Above(s.committed.Keys, w.key, commitTs)
  {
    hide VisibleTs;
    LatestAbove(s.committed.Keys, w.key, commitTs);
  }

  lemma InstallShape(s: Store, commitTs: Timestamp, writes: seq<PhysicalWrite>)
    requires T.FirstError(T.WriteChecks(s, commitTs, writes)).None?
    ensures Shape(s, T.Install(s, commitTs, T.WriteMap(writes)), T.WriteMap(writes), commitTs, ByBatch, {}, 0)
  {
    hide T.FirstError, T.WriteCheck, Above;
    var errs := T.WriteChecks(s, commitTs, writes);
    forall k | k in T.WriteMap(writes) ensures Above(s.committed.Keys, k, commitTs) && k !in s.intents {
      var i :| 0 <= i < |writes| && writes[i].key == k;
      assert errs[i].None?;
      PassedWrite(s, commitTs, writes[i]);
    }
  }

  lemma StepShape(s: Store, step: Step, t: Store)
    requires !Collects(step) && t == MutateNext(s, step)
    ensures Shape(s, t, Written(s, step), WriteTs(step), OriginOf(step), LockKeys(step), StartOf(step))
  {
    hide Shape, T.Prewrite, T.Commit, T.PrewriteBatch, T.CommitBatch, T.FirstError, T.FirstDuplicate, T.WriteMap,
         T.IntentValues;
    IdleShape(s, WriteTs(step), OriginOf(step), {}, 0);
    match step {
      case Prewrite(txnId, startTs, key, mutation) => PrewriteShape(s, txnId, startTs, key, mutation);
      case Commit(txnId, key, startTs, commitTs) =>
        if T.Commit(s, txnId, key, startTs, commitTs).Ok? { CommitShape(s, txnId, key, startTs, commitTs); }
      case PrewriteBatch(txnId, startTs, writes) => PrewriteBatchShape(s, txnId, startTs, writes);
      case CommitBatch(txnId, startTs, commitTs, keys) =>
        if T.CommitBatch(s, txnId, startTs, commitTs, keys).Ok? { CommitBatchShape(s, txnId, startTs, commitTs, keys); }
      case DirectBatch(commitTs, writes) =>
        if T.DirectBatch(s, commitTs, writes).Ok? { InstallShape(s, commitTs, writes); }
      case GuardedBatch(commitTs, guards, writes) =>
        if T.GuardedBatch(s, commitTs, guards, writes).Ok? { InstallShape(s, commitTs, writes); }
      case Abort(_, _, _) => KeptShape(s, t, {}, 0);
      case AbortBatch(_, _, _) => KeptShape(s, t, {}, 0);
      case _ =>
    }
  }

  ghost function SafePointOf(step: Step): Timestamp {
    if Collects(step) then step.safePointTs else 0
  }

  /** Every collecting step is a sound partial collection at its safe point. */
  lemma CollectPrunes(s: Store, step: Step, t: Store)
    requires Collects(step) && StoreNext(s, step, t)
    ensures Prunes(s, t, SafePointOf(step), MayCollapse(step))
  {
    hide Prunes, IsPlan, Collected;
    PruneReflexive(s, SafePointOf(step), MayCollapse(step));
    match step {
      case GcIncremental(sp, start, o) =>
      case Gc(sp, o) => CollectedPrunes(s, sp, o.collapse);
      case PlanAndApply(sp, k, o) =>
        if o.maxVersionsExamined > 0 {
          var plan :| IsPlan(s, sp, o, k, plan) && t == Applied(s, plan);
          PageIsSound(s, sp, o, k, plan);
        }
      case _ =>
    }
  }

  /** Every step of every run, lawful or not, keeps the store invariant. */
  lemma StoreInvStep(s: Store, step: Step, t: Store)
    requires StoreInv(s) && StoreNext(s, step, t)
    ensures StoreInv(t)
  {
    hide MutateNext, CollectNext, Written;
    if Collects(step) {
      CollectPrunes(s, step, t);
    } else {
      StepShape(s, step, t);
      forall k | k in t.intents
        ensures t.intents[k].key == k && t.intents[k].minCommitTs == None
        ensures AtOrBelow(t.committed.Keys, k, t.intents[k].startTs)
      {
        forall u: Timestamp | VKey(k, u) in t.committed ensures VKey(k, u) in s.committed {}
      }
    }
  }

  // ----- runs -----

  datatype Entry = Entry(value: Option<Value>, origin: Origin)

  /** `log`: every successful write. `safe`: the largest safe point so far. `graves`: collapsed tombstones. */
  datatype Sys = Sys(store: Store, log: map<VKey, Entry>, safe: Timestamp, graves: map<Key, Timestamp>)

  const INITIAL := Sys(EMPTY, map[], 0, map[])

  ghost function Logged(w: map<Key, Option<Value>>, ts: Timestamp, origin: Origin): map<VKey, Entry> {
    map k | k in w :: VKey(k, ts) := Entry(w[k], origin)
  }

  /** Keys whose whole history went in this step, with their last version. */
  ghost function NewGraves(s: Store, t: Store): map<Key, Timestamp> {
    map k | k in (set v | v in s.committed && (forall u: Timestamp :: VKey(v.key, u) !in t.committed) :: v.key)
      :: (match LatestTs(s.committed.Keys, k) case Some(ts) => ts case None => 0)
  }

  ghost predicate Next(a: Sys, step: Step, b: Sys) {
    && StoreNext(a.store, step, b.store)
    && b.log == a.log + Logged(Written(a.store, step), WriteTs(step), OriginOf(step))
    && b.safe == (if a.safe < SafePointOf(step) then SafePointOf(step) else a.safe)
    && b.graves == a.graves + NewGraves(a.store, b.store)
  }

  /**
    The caller's side of the collapse contract: no transaction starts below a collapsed tombstone of
    a key it locks, and no batch writes at or below one. Without collapse it asks nothing.
   */
  ghost predicate Respects(a: Sys, step: Step) {
    && (forall k :: k in a.graves && k in LockKeys(step) ==> a.graves[k] <= StartOf(step))
    && (forall k :: k in a.graves && k in Written(a.store, step) && OriginOf(step) == ByBatch ==>
        a.graves[k] < WriteTs(step))
  }

  ghost predicate IsRun(states: seq<Sys>, steps: seq<Step>) {
    && |states| == |steps| + 1
    && states[0] == INITIAL
    && forall i :: 0 <= i < |steps| ==> Next(states[i], steps[i], states[i + 1])
  }

  ghost predicate Lawful(states: seq<Sys>, steps: seq<Step>) {
    && IsRun(states, steps)
    && forall i :: 0 <= i < |steps| ==> Respects(states[i], steps[i])
  }

  lemma {:induction false} RunStoreInv(states: seq<Sys>, steps: seq<Step>, i: nat)
    requires IsRun(states, steps) && i <= |steps|
    ensures StoreInv(states[i].store)
  {
    hide Next, StoreInv;
    if i > 0 {
      RunStoreInv(states, steps, i - 1);
      NextStoreInv(states[i - 1], steps[i - 1], states[i]);
    } else {
      EmptyStoreInv();
    }
  }

  lemma NextStoreInv(a: Sys, step: Step, b: Sys)
    requires StoreInv(a.store) && Next(a, step, b)
    ensures StoreInv(b.store)
  {
    hide StoreNext, StoreInv, Written, NewGraves, SafePointOf;
    StoreInvStep(a.store, step, b.store);
  }

  lemma EmptyStoreInv()
    ensures StoreInv(EMPTY)
  {
  }
}
