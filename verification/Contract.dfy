/** Where the collapse contract bites: exactly when a later batch or transaction breaks what runs promise. */
module Contract {
  import opened Types
  import opened History
  import opened Gc
  import opened Runs
  import opened LogInvariant
  import opened Theorems
  import T = Transitions

  /** The key was collapsed and nothing of it is left. */
  ghost predicate Vacated(a: Sys, k: Key) {
    k in a.graves && k !in a.store.intents && forall u: Timestamp :: VKey(k, u) !in a.store.committed
  }

  ghost function PutStep(k: Key, ts: Timestamp, v: Option<Value>): Step {
    Step.DirectBatch(ts, [PhysicalWrite(k, v)])
  }

  /** A one-key direct batch on an unlocked key with no versions is accepted. */
  lemma PutAccepted(s: Store, k: Key, ts: Timestamp, v: Option<Value>)
    requires k !in s.intents && forall u: Timestamp :: VKey(k, u) !in s.committed
    ensures T.DirectBatch(s, ts, [PhysicalWrite(k, v)]).Ok?
    ensures Written(s, PutStep(k, ts, v)) == map[k := v]
    ensures MutateNext(s, PutStep(k, ts, v)) == s.(committed := s.committed[VKey(k, ts) := v])
  {
    hide MutateNext, Written, T.DirectBatch, T.WriteMap;
    OneWrite(s, k, ts, v);
    PutReaches(s, k, ts, v);
    assert T.Stamp(map[k := v], ts) == map[VKey(k, ts) := v];
    assert s.committed + map[VKey(k, ts) := v] == s.committed[VKey(k, ts) := v];
  }

  lemma PutReaches(s: Store, k: Key, ts: Timestamp, v: Option<Value>)
    requires T.DirectBatch(s, ts, [PhysicalWrite(k, v)]).Ok?
    ensures Written(s, PutStep(k, ts, v)) == T.WriteMap([PhysicalWrite(k, v)])
    ensures MutateNext(s, PutStep(k, ts, v)) == T.DirectBatch(s, ts, [PhysicalWrite(k, v)]).value
  {
    hide T.DirectBatch, T.WriteMap, T.Prewrite, T.Commit, T.Abort, T.PrewriteBatch, T.CommitBatch, T.AbortBatch,
         T.GuardedBatch;
  }

  lemma OneWrite(s: Store, k: Key, ts: Timestamp, v: Option<Value>)
    requires k !in s.intents && forall u: Timestamp :: VKey(k, u) !in s.committed
    ensures T.WriteMap([PhysicalWrite(k, v)]) == map[k := v]
    ensures T.DirectBatch(s, ts, [PhysicalWrite(k, v)]) == Ok(T.Install(s, ts, map[k := v]))
  {
    hide VisibleTs, T.FirstDuplicate, T.FirstError, T.Install;
    var writes := [PhysicalWrite(k, v)];
    assert T.Distinct(T.WriteKeys(writes));
    assert LatestTs(s.committed.Keys, k).None?;
    assert T.WriteChecks(s, ts, writes)[0].None?;
    assert writes[0].key == k;
    OneWriteMap(k, v);
  }

  lemma OneWriteMap(k: Key, v: Option<Value>)
    ensures T.WriteMap([PhysicalWrite(k, v)]) == map[k := v]
  {
    var writes := [PhysicalWrite(k, v)];
    T.WriteMapAt(writes, 0);
    assert writes[0].key == k;
  }

  ghost predicate Agrees(a: Sys, k: Key) {
    forall t: Timestamp :: t >= a.safe ==> Read(a.store.committed, k, t) == LogRead(a.log, k, t)
  }

  /** The log keeps every entry of the key. */
  ghost predicate Preserves(l: map<VKey, Entry>, m: map<VKey, Entry>, k: Key) {
    forall u: Timestamp :: VKey(k, u) in l ==> VKey(k, u) in m && m[VKey(k, u)] == l[VKey(k, u)]
  }

  // ----- the batch half -----

  /**
    The exact boundary for batches. Where any direct or guarded batch writes a value to a collapsed key
    with nothing stored, reads of the key go on agreeing with the log, and the log keeps its entries, if
    and only if the batch is above the collapsed tombstone.
   */
  lemma BatchBoundary(a: Sys, step: Step, b: Sys, k: Key)
    requires Inv(a) && Vacated(a, k) && Next(a, step, b)
    requires OriginOf(step) == ByBatch && k in Written(a.store, step) && Written(a.store, step)[k].Some?
    ensures Agrees(b, k) && Preserves(a.log, b.log, k) <==> WriteTs(step) > a.graves[k]
  {
    hide Inv, Next, Agrees, Preserves, Written, WriteTs, OriginOf;
    RewrittenKey(a, step, b, k);
    var v, ts, g := Written(a.store, step)[k], WriteTs(step), a.graves[k];
    if ts > g {
      AboveGrave(a, b, k, ts, v, ByBatch);
    } else if ts < g {
      BelowGrave(a, b, k, ts, v, ByBatch);
    } else {
      AtGrave(a, b, k, v, ByBatch);
    }
  }

  /** One such batch, a single write, is accepted at any timestamp. */
  lemma GraveBoundary(a: Sys, b: Sys, k: Key, ts: Timestamp, v: Value)
    requires Inv(a) && Vacated(a, k) && Next(a, PutStep(k, ts, Some(v)), b)
    ensures T.DirectBatch(a.store, ts, [PhysicalWrite(k, Some(v))]).Ok?
    ensures Agrees(b, k) && Preserves(a.log, b.log, k) <==> ts > a.graves[k]
  {
    hide Next, Inv, Agrees, Preserves, MutateNext, Written, T.DirectBatch;
    PutAccepted(a.store, k, ts, Some(v));
    BatchBoundary(a, PutStep(k, ts, Some(v)), b, k);
  }

  /** The key, its log bounded by its grave, after one write: one version stored and one entry logged. */
  ghost predicate Rewritten(a: Sys, b: Sys, k: Key, ts: Timestamp, v: Option<Value>, origin: Origin) {
    && k in a.graves && b.safe == a.safe && a.graves[k] <= a.safe
    && (forall u: Timestamp :: VKey(k, u) in b.store.committed <==> u == ts)
    && b.store.committed[VKey(k, ts)] == v
    && VKey(k, a.graves[k]) in a.log && a.log[VKey(k, a.graves[k])].value == None
    && (forall u: Timestamp :: VKey(k, u) in a.log ==> u <= a.graves[k])
    && (forall u: Timestamp :: VKey(k, u) in b.log <==> VKey(k, u) in a.log || u == ts)
    && (forall u: Timestamp :: VKey(k, u) in b.log ==>
          b.log[VKey(k, u)] == if u == ts then Entry(v, origin) else a.log[VKey(k, u)])
  }

  lemma RewrittenKey(a: Sys, step: Step, b: Sys, k: Key)
    requires Inv(a) && Next(a, step, b) && k in Written(a.store, step)
    requires k in a.graves && forall u: Timestamp :: VKey(k, u) !in a.store.committed
    ensures Rewritten(a, b, k, WriteTs(step), Written(a.store, step)[k], OriginOf(step))
  {
    hide Next, Written, WriteTs, OriginOf, LockKeys, StartOf, Serial, LocksAbove, Accounted, Extends;
    NotCollecting(a.store, step, k);
    MutationExtends(a, step, b);
    Added(a, b, Written(a.store, step), WriteTs(step), OriginOf(step), LockKeys(step), StartOf(step));
    ExtendSame(a, b, step);
    BuriedLog(a, k);
  }

  /** With nothing stored, all of a collapsed key's log is at or below the tombstone. */
  lemma BuriedLog(a: Sys, k: Key)
    requires Accounted(a) && k in a.graves && forall u: Timestamp :: VKey(k, u) !in a.store.committed
    ensures forall u: Timestamp :: VKey(k, u) in a.log ==> u <= a.graves[k]
  {
    forall u: Timestamp | VKey(k, u) in a.log ensures u <= a.graves[k] {
      assert !Covered(a, VKey(k, u));
      assert Buried(a, VKey(k, u));
    }
  }

  lemma AboveGrave(a: Sys, b: Sys, k: Key, ts: Timestamp, v: Option<Value>, origin: Origin)
    requires Rewritten(a, b, k, ts, v, origin) && ts > a.graves[k]
    ensures Agrees(b, k) && Preserves(a.log, b.log, k)
  {
    hide VisibleTs;
    forall t: Timestamp | t >= b.safe ensures Read(b.store.committed, k, t) == LogRead(b.log, k, t) {
      if t >= ts {
        VisibleIs(b.store.committed.Keys, k, t, ts);
        VisibleIs(b.log.Keys, k, t, ts);
      } else {
        assert VisibleTs(b.store.committed.Keys, k, t).None?;
        VisibleIs(b.log.Keys, k, t, a.graves[k]);
      }
    }
  }

  ghost predicate Logs(a: Sys, k: Key, ts: Timestamp, e: Entry) {
    VKey(k, ts) in a.log && a.log[VKey(k, ts)] == e
  }

  /** At the tombstone the write takes its place in the log. */
  lemma AtGrave(a: Sys, b: Sys, k: Key, v: Option<Value>, origin: Origin)
    requires k in a.graves && Rewritten(a, b, k, a.graves[k], v, origin)
    ensures Preserves(a.log, b.log, k) <==> Logs(a, k, a.graves[k], Entry(v, origin))
  {
  }

  /** Below it the log stands, and a value brings the deleted key back to life at every permitted time. */
  lemma BelowGrave(a: Sys, b: Sys, k: Key, ts: Timestamp, v: Option<Value>, origin: Origin)
    requires Rewritten(a, b, k, ts, v, origin) && ts < a.graves[k]
    ensures forall t: Timestamp :: t >= b.safe ==> Read(b.store.committed, k, t) == v && LogRead(b.log, k, t) == None
    ensures v.Some? ==> !Agrees(b, k)
  {
    hide VisibleTs;
    forall t: Timestamp | t >= b.safe ensures Read(b.store.committed, k, t) == v && LogRead(b.log, k, t) == None {
      VisibleIs(b.store.committed.Keys, k, t, ts);
      VisibleIs(b.log.Keys, k, t, a.graves[k]);
    }
    assert v.Some? ==> Read(b.store.committed, k, b.safe) != LogRead(b.log, k, b.safe);
  }

  // ----- the transaction half -----

  /** A prewrite and its commit on a collapsed, unlocked key. */
  ghost predicate Transaction(a: Sys, b: Sys, c: Sys, txnId: TxnId, startTs: Timestamp, k: Key, m: Mutation,
                              commitTs: Timestamp)
  {
    Next(a, Step.Prewrite(txnId, startTs, k, m), b) && Next(b, Step.Commit(txnId, k, startTs, commitTs), c)
  }

  /**
    The exact boundary for transactions. On such a key the engine accepts any prewrite, and its commit
    at any later timestamp; the invariant outlives them if and only if the transaction starts at or
    above the collapsed tombstone. Below it, what breaks depends on where the commit lands: above the
    tombstone first-committer-wins, at it the logged tombstone, below it the reads, if it puts a value.
   */
  lemma TransactionBoundary(a: Sys, b: Sys, c: Sys, txnId: TxnId, startTs: Timestamp, k: Key, m: Mutation,
                            commitTs: Timestamp)
    requires Inv(a) && Vacated(a, k) && startTs < commitTs && Transaction(a, b, c, txnId, startTs, k, m, commitTs)
    ensures T.Prewrite(a.store, txnId, startTs, k, m).Ok? && T.Commit(b.store, txnId, k, startTs, commitTs).Ok?
    ensures Inv(c) <==> a.graves[k] <= startTs
    ensures startTs < a.graves[k] < commitTs ==> !Serial(c) && Agrees(c, k)
    ensures commitTs == a.graves[k] ==>
              (Preserves(a.log, c.log, k) <==> Logs(a, k, commitTs, Entry(m.ToValue(), ByIntent(txnId, startTs))))
    ensures commitTs < a.graves[k] ==> (Agrees(c, k) <==> m.Delete?)
  {
    hide Next, Inv, Agrees, Preserves, T.Prewrite, T.Commit, Rewritten, Serial;
    TransactionRewrites(a, b, c, txnId, startTs, k, m, commitTs);
    var g, v, origin := a.graves[k], m.ToValue(), ByIntent(txnId, startTs);
    if g <= startTs {
      TransactionAbove(a, b, c, txnId, startTs, k, m, commitTs);
    } else {
      TransactionBreaks(a, b, c, k, commitTs, v, origin);
    }
    if commitTs > g {
      AboveGrave(a, c, k, commitTs, v, origin);
    } else if commitTs == g {
      AtGrave(a, c, k, v, origin);
    } else {
      BelowGrave(a, c, k, commitTs, v, origin);
      if m.Delete? { DeletedAgrees(c, k); }
    }
  }

  lemma DeletedAgrees(c: Sys, k: Key)
    requires forall t: Timestamp :: t >= c.safe ==>
              Read(c.store.committed, k, t) == None && LogRead(c.log, k, t) == None
    ensures Agrees(c, k)
  {
    hide Read, LogRead;
  }

  /** The prewrite locks the key and changes nothing else. */
  lemma PrewriteLocks(a: Sys, b: Sys, txnId: TxnId, startTs: Timestamp, k: Key, m: Mutation)
    requires k !in a.store.intents && forall u: Timestamp :: VKey(k, u) !in a.store.committed
    requires Next(a, Step.Prewrite(txnId, startTs, k, m), b)
    ensures T.Prewrite(a.store, txnId, startTs, k, m).Ok?
    ensures b.store == a.store.(intents := a.store.intents[k := Intent(k, txnId, startTs, m, None)])
    ensures b.log == a.log && b.safe == a.safe && b.graves == a.graves
  {
    hide StoreNext, Written, NewGraves, T.Prewrite, Logged, SafePointOf;
    PrewriteReaches(a.store, b.store, txnId, startTs, k, m);
    NothingWritten(a, Step.Prewrite(txnId, startTs, k, m), b);
  }

  /** A step that writes nothing and removes nothing leaves log and graves as they are. */
  lemma NothingWritten(a: Sys, step: Step, b: Sys)
    requires Next(a, step, b) && Written(a.store, step) == map[] && a.store.committed == b.store.committed
    ensures b.log == a.log && b.graves == a.graves
    ensures !Collects(step) ==> b.safe == a.safe
  {
    hide StoreNext, Written, WriteTs, OriginOf, NewGraves;
    assert Logged(map[], WriteTs(step), OriginOf(step)) == map[];
    NothingGone(a.store, b.store);
  }

  lemma PrewriteReaches(s: Store, t: Store, txnId: TxnId, startTs: Timestamp, k: Key, m: Mutation)
    requires k !in s.intents && forall u: Timestamp :: VKey(k, u) !in s.committed
    requires StoreNext(s, Step.Prewrite(txnId, startTs, k, m), t)
    ensures T.Prewrite(s, txnId, startTs, k, m).Ok?
    ensures t == s.(intents := s.intents[k := Intent(k, txnId, startTs, m, None)])
    ensures Written(s, Step.Prewrite(txnId, startTs, k, m)) == map[]
  {
    hide VisibleTs, T.Commit, T.Abort, T.PrewriteBatch, T.CommitBatch, T.DirectBatch, T.GuardedBatch, T.AbortBatch,
         CollectNext;
    assert LatestTs(s.committed.Keys, k).None?;
  }

  /** The commit then writes the mutation's value. */
  lemma CommitWrites(s: Store, txnId: TxnId, startTs: Timestamp, k: Key, m: Mutation, commitTs: Timestamp)
    requires k in s.intents && s.intents[k] == Intent(k, txnId, startTs, m, None) && startTs < commitTs
    requires forall u: Timestamp :: VKey(k, u) !in s.committed
    ensures T.Commit(s, txnId, k, startTs, commitTs).Ok?
    ensures Written(s, Step.Commit(txnId, k, startTs, commitTs)) == map[k := m.ToValue()]
  {
    hide VisibleTs;
    assert LatestTs(s.committed.Keys, k).None?;
  }

  lemma TransactionRewrites(a: Sys, b: Sys, c: Sys, txnId: TxnId, startTs: Timestamp, k: Key, m: Mutation,
                            commitTs: Timestamp)
    requires Inv(a) && Vacated(a, k) && startTs < commitTs && Transaction(a, b, c, txnId, startTs, k, m, commitTs)
    ensures T.Prewrite(a.store, txnId, startTs, k, m).Ok? && T.Commit(b.store, txnId, k, startTs, commitTs).Ok?
    ensures Rewritten(a, c, k, commitTs, m.ToValue(), ByIntent(txnId, startTs))
    ensures c.graves == a.graves
  {
    hide Next, T.Prewrite, T.Commit, Accounted, GravesHold, LocksAbove, Serial;
    PrewriteLocks(a, b, txnId, startTs, k, m);
    CommitWrites(b.store, txnId, startTs, k, m, commitTs);
    CommitRewrites(a, b, c, txnId, startTs, k, m, commitTs);
  }

  lemma CommitRewrites(a: Sys, b: Sys, c: Sys, txnId: TxnId, startTs: Timestamp, k: Key, m: Mutation,
                       commitTs: Timestamp)
    requires Inv(a) && k in a.graves && forall u: Timestamp :: VKey(k, u) !in a.store.committed
    requires b.store.committed == a.store.committed && b.log == a.log && b.safe == a.safe && b.graves == a.graves
    requires Next(b, Step.Commit(txnId, k, startTs, commitTs), c)
    requires Written(b.store, Step.Commit(txnId, k, startTs, commitTs)) == map[k := m.ToValue()]
    ensures Rewritten(a, c, k, commitTs, m.ToValue(), ByIntent(txnId, startTs)) && c.graves == a.graves
  {
    hide Next, Written, Serial, LocksAbove, Accounted, Extends;
    var step := Step.Commit(txnId, k, startTs, commitTs);
    MutationExtends(b, step, c);
    Added(b, c, Written(b.store, step), WriteTs(step), OriginOf(step), LockKeys(step), StartOf(step));
    ExtendSame(b, c, step);
    BuriedLog(a, k);
  }

  lemma TransactionAbove(a: Sys, b: Sys, c: Sys, txnId: TxnId, startTs: Timestamp, k: Key, m: Mutation,
                         commitTs: Timestamp)
    requires Inv(a) && Vacated(a, k) && Transaction(a, b, c, txnId, startTs, k, m, commitTs)
    requires a.graves[k] <= startTs < commitTs
    ensures Inv(c)
  {
    hide Next, Inv;
    PrewriteLocks(a, b, txnId, startTs, k, m);
    CommitWrites(b.store, txnId, startTs, k, m, commitTs);
    NextKeepsInv(a, Step.Prewrite(txnId, startTs, k, m), b);
    NextKeepsInv(b, Step.Commit(txnId, k, startTs, commitTs), c);
  }

  /** A write by a transaction that started below the tombstone. */
  lemma TransactionBreaks(a: Sys, b: Sys, c: Sys, k: Key, ts: Timestamp, v: Option<Value>, origin: Origin)
    requires Rewritten(a, c, k, ts, v, origin) && c.graves == a.graves
    requires origin.ByIntent? && origin.startTs < a.graves[k]
    ensures !Inv(c)
    ensures a.graves[k] < ts ==> !Serial(c)
  {
    hide InLog, Accounted, LocksAbove;
    var g, w := VKey(k, a.graves[k]), VKey(k, ts);
    assert g in c.log && w in c.log && c.log[w].origin == origin;
    assert w in c.store.committed;
  }

  // ----- everywhere else the engine keeps the promise itself -----

  /**
    Only a collapsed key that is unlocked and has nothing stored is at the caller's mercy. On any other
    collapsed key no batch at or below the tombstone succeeds, and no lock starts below it.
   */
  lemma ElsewhereEnforced(a: Sys, step: Step, b: Sys, k: Key)
    requires Inv(a) && Next(a, step, b) && !Collects(step) && k in a.graves && !Vacated(a, k)
    ensures k in Written(a.store, step) && OriginOf(step) == ByBatch ==> a.graves[k] < WriteTs(step)
    ensures k in b.store.intents ==> a.graves[k] <= b.store.intents[k].startTs
  {
    hide Next, Written, WriteTs, OriginOf, LockKeys, StartOf, Serial, Accounted, T.Stamp;
    MutationExtends(a, step, b);
    assert VKey(k, a.graves[k]) in a.log.Keys;
    if k !in a.store.intents {
      var u: Timestamp :| VKey(k, u) in a.store.committed;
      assert a.graves[k] < u;
    }
  }

  // ----- both are reached -----

  /** Such a state is reached: delete a key, then collect with collapse at that time. */
  lemma GraveReachable(k: Key, g: Timestamp) returns (states: seq<Sys>, steps: seq<Step>)
    ensures Lawful(states, steps) && |steps| == 2
    ensures Vacated(states[2], k) && states[2].graves[k] == g
  {
    hide Next, Respects, Vacated;
    var a1 := Sys(Store(map[VKey(k, g) := None], map[]), map[VKey(k, g) := Entry(None, ByBatch)], 0, map[]);
    var a2 := Sys(EMPTY, a1.log, g, map[k := g]);
    Deleted(k, g, a1);
    Buries(k, g, a1, a2);
    states, steps := [INITIAL, a1, a2], [PutStep(k, g, None), Step.Gc(g, GcOptions(1, 1, true))];
  }

  ghost function SwapStep(k: Key, ts: Timestamp, v: Option<Value>): Step
    requires ts > 0
  {
    Step.GuardedBatch(ts, [ReadGuard.ExpectedVersion(k, ts - 1, None)], [PhysicalWrite(k, v)])
  }

  /** A guarded batch on expected absence is accepted wherever nothing is stored. */
  lemma SwapAccepted(s: Store, k: Key, ts: Timestamp, v: Option<Value>)
    requires ts > 0 && k !in s.intents && forall u: Timestamp :: VKey(k, u) !in s.committed
    ensures Swaps(s, SwapStep(k, ts, v), k, None)
    ensures Written(s, SwapStep(k, ts, v)) == map[k := v]
    ensures MutateNext(s, SwapStep(k, ts, v)) == s.(committed := s.committed[VKey(k, ts) := v])
  {
    hide T.GuardedBatch, T.WriteMap, T.Prewrite, T.Commit, T.Abort, T.PrewriteBatch, T.CommitBatch, T.AbortBatch,
         T.DirectBatch;
    OneSwap(s, k, ts, v);
    assert ReadGuard.ExpectedVersion(k, ts - 1, None) in SwapStep(k, ts, v).guards;
    assert T.Stamp(map[k := v], ts) == map[VKey(k, ts) := v];
    assert s.committed + map[VKey(k, ts) := v] == s.committed[VKey(k, ts) := v];
  }

  lemma OneSwap(s: Store, k: Key, ts: Timestamp, v: Option<Value>)
    requires ts > 0 && k !in s.intents && forall u: Timestamp :: VKey(k, u) !in s.committed
    ensures T.WriteMap([PhysicalWrite(k, v)]) == map[k := v]
    ensures T.GuardedBatch(s, ts, SwapStep(k, ts, v).guards, [PhysicalWrite(k, v)]) == Ok(T.Install(s, ts, map[k := v]))
  {
    hide VisibleTs, T.FirstDuplicate, T.FirstError, T.Install, T.WriteMap;
    var guards, writes := SwapStep(k, ts, v).guards, [PhysicalWrite(k, v)];
    assert T.Distinct(T.WriteKeys(writes));
    assert LatestTs(s.committed.Keys, k).None? && VisibleTs(s.committed.Keys, k, ts - 1).None?;
    assert T.WriteChecks(s, ts, writes)[0].None? && T.GuardChecks(s, ts, guards)[0].None?;
    OneWriteMap(k, v);
  }

  /**
    The exception of version guards is real: two guarded batches on expected absence both succeed, in a
    lawful run, when the first one's write was a deletion and was collapsed before the second.
   */
  lemma SwapTwiceReachable(k: Key, c: Timestamp, d: Timestamp, v: Value) returns (states: seq<Sys>, steps: seq<Step>)
    requires 0 < c < d
    ensures Lawful(states, steps) && |steps| == 3
    ensures Swaps(states[0].store, steps[0], k, None) && Swaps(states[2].store, steps[2], k, None)
    ensures steps[0].commitTs == c && states[2].graves == map[k := c]
  {
    hide Next, Respects, Swaps, Vacated;
    var a1 := Sys(Store(map[VKey(k, c) := None], map[]), map[VKey(k, c) := Entry(None, ByBatch)], 0, map[]);
    var a2 := Sys(EMPTY, a1.log, c, map[k := c]);
    var a3 := Sys(Store(map[VKey(k, d) := Some(v)], map[]), a1.log[VKey(k, d) := Entry(Some(v), ByBatch)], c,
                  map[k := c]);
    SwapNext(INITIAL, k, c, None, a1);
    Buries(k, c, a1, a2);
    SwapNext(a2, k, d, Some(v), a3);
    states := [INITIAL, a1, a2, a3];
    steps := [SwapStep(k, c, None), Step.Gc(c, GcOptions(1, 1, true)), SwapStep(k, d, Some(v))];
  }

  lemma SwapNext(a: Sys, k: Key, ts: Timestamp, v: Option<Value>, b: Sys)
    requires a.store == EMPTY && ts > 0 && (k in a.graves ==> a.graves[k] < ts)
    requires b == Sys(Store(map[VKey(k, ts) := v], map[]), a.log[VKey(k, ts) := Entry(v, ByBatch)], a.safe, a.graves)
    ensures Swaps(a.store, SwapStep(k, ts, v), k, None)
    ensures Next(a, SwapStep(k, ts, v), b) && Respects(a, SwapStep(k, ts, v))
  {
    hide MutateNext, CollectNext, Written, NewGraves, T.GuardedBatch, LockKeys, Swaps;
    SwapAccepted(a.store, k, ts, v);
    assert Logged(map[k := v], ts, ByBatch) == map[VKey(k, ts) := Entry(v, ByBatch)];
    assert a.log + map[VKey(k, ts) := Entry(v, ByBatch)] == a.log[VKey(k, ts) := Entry(v, ByBatch)];
    NothingGone(a.store, b.store);
    NoLocks(SwapStep(k, ts, v));
  }

  lemma NoLocks(step: Step)
    requires step.GuardedBatch?
    ensures LockKeys(step) == {}
  {
  }

  lemma Deleted(k: Key, g: Timestamp, a1: Sys)
    requires a1 == Sys(Store(map[VKey(k, g) := None], map[]), map[VKey(k, g) := Entry(None, ByBatch)], 0, map[])
    ensures Next(INITIAL, PutStep(k, g, None), a1) && Respects(INITIAL, PutStep(k, g, None))
  {
    hide MutateNext, CollectNext, Written, NewGraves, T.DirectBatch, LockKeys;
    PutAccepted(EMPTY, k, g, None);
    assert Logged(map[k := None], g, ByBatch) == a1.log;
    NothingGone(EMPTY, a1.store);
  }

  lemma Buries(k: Key, g: Timestamp, a1: Sys, a2: Sys)
    requires a1 == Sys(Store(map[VKey(k, g) := None], map[]), map[VKey(k, g) := Entry(None, ByBatch)], 0, map[])
    requires a2 == Sys(EMPTY, a1.log, g, map[k := g])
    ensures Next(a1, Step.Gc(g, GcOptions(1, 1, true)), a2) && Respects(a1, Step.Gc(g, GcOptions(1, 1, true)))
    ensures Vacated(a2, k)
  {
    hide Next, Respects, Collected, NewGraves;
    OneTombstone(k, g);
    GcNext(a1, g, GcOptions(1, 1, true), a2);
  }

  lemma GcNext(a: Sys, sp: Timestamp, o: GcOptions, b: Sys)
    requires o.maxKeys > 0 && o.maxVersions > 0 && a.safe <= sp
    requires b.store == Collected(a.store, sp, o.collapse) && b.log == a.log && b.safe == sp
    requires b.graves == a.graves + NewGraves(a.store, b.store)
    ensures Next(a, Step.Gc(sp, o), b) && Respects(a, Step.Gc(sp, o))
  {
    hide Collected, NewGraves, MutateNext;
    assert Logged(map[], 0, ByBatch) == map[];
  }

  lemma OneTombstone(k: Key, g: Timestamp)
    ensures var s := Store(map[VKey(k, g) := None], map[]);
            Collected(s, g, true) == EMPTY && NewGraves(s, EMPTY) == map[k := g]
  {
    hide VisibleTs;
    var s := Store(map[VKey(k, g) := None], map[]);
    VisibleIs(s.committed.Keys, k, g, g);
    VisibleIs(s.committed.Keys, k, TS_MAX, g);
    assert IsGarbage(s, g, true, VKey(k, g));
    assert Garbage(s, g, true) == {VKey(k, g)};
    assert Collected(s, g, true).committed == map[];
    var gone := set v | v in s.committed && (forall u: Timestamp :: VKey(v.key, u) !in EMPTY.committed) :: v.key;
    assert VKey(k, g) in s.committed;
    assert gone == {k};
  }
}
