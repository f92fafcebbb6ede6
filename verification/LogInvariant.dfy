/** What every lawful run keeps between the store, the log, the safe point and the collapsed tombstones. */
module LogInvariant {
  import opened Types
  import opened History
  import opened Gc
  import opened Runs
  import T = Transitions

  /** The store holds logged writes only. */
  ghost predicate InLog(a: Sys) {
    forall v :: v in a.store.committed ==> v in a.log && a.log[v].value == a.store.committed[v]
  }

  /** A newer version at or below the safe point is stored. */
  ghost predicate Covered(a: Sys, v: VKey) {
    exists u: Timestamp :: VKey(v.key, u) in a.store.committed && v.ts < u <= a.safe
  }

  /** At or below a collapsed tombstone. */
  ghost predicate Buried(a: Sys, v: VKey) {
    v.key in a.graves && v.ts <= a.graves[v.key]
  }

  /** Every logged write is stored, covered or buried. */
  ghost predicate Accounted(a: Sys) {
    forall v :: v in a.log ==> v in a.store.committed || Covered(a, v) || Buried(a, v)
  }

  /** A grave is a logged tombstone at or below the safe point, and everything stored is newer. */
  ghost predicate GravesHold(a: Sys) {
    forall k :: k in a.graves ==>
      && VKey(k, a.graves[k]) in a.log
      && a.log[VKey(k, a.graves[k])].value == None
      && a.graves[k] <= a.safe
      && forall u: Timestamp :: VKey(k, u) in a.store.committed ==> a.graves[k] < u
  }

  /** An intent starts at or above every logged write of its key. */
  ghost predicate LocksAbove(a: Sys) {
    forall k :: k in a.store.intents ==> AtOrBelow(a.log.Keys, k, a.store.intents[k].startTs)
  }

  /** No write of a key falls inside the interval (start, commit] of a transaction that wrote it. */
  ghost predicate Serial(a: Sys) {
    forall v, w :: v in a.log && w in a.log && v.key == w.key && a.log[w].origin.ByIntent? ==>
      a.log[w].origin.startTs < w.ts && (v.ts <= a.log[w].origin.startTs || w.ts <= v.ts)
  }

  ghost predicate Inv(a: Sys) {
    InLog(a) && Accounted(a) && GravesHold(a) && LocksAbove(a) && Serial(a)
  }

  // ----- a step that does not collect -----

  ghost predicate Extends(a: Sys, b: Sys, w: map<Key, Option<Value>>, ts: Timestamp, origin: Origin, locks: set<Key>,
                          startTs: Timestamp)
  {
    && Shape(a.store, b.store, w, ts, origin, locks, startTs)
    && b.log == a.log + Logged(w, ts, origin)
    && b.safe == a.safe && b.graves == a.graves
  }

  lemma MutationExtends(a: Sys, step: Step, b: Sys)
    requires !Collects(step) && Next(a, step, b)
    ensures Extends(a, b, Written(a.store, step), WriteTs(step), OriginOf(step), LockKeys(step), StartOf(step))
  {
    hide MutateNext, Written, WriteTs, OriginOf, LockKeys, StartOf, CollectNext;
    StepShape(a.store, step, b.store);
    NothingGone(a.store, b.store);
  }

  lemma NothingGone(s: Store, t: Store)
    requires s.committed.Keys <= t.committed.Keys
    ensures NewGraves(s, t) == map[]
  {
    forall v | v in s.committed ensures !(forall u: Timestamp :: VKey(v.key, u) !in t.committed) {
      assert VKey(v.key, v.ts) in t.committed;
    }
  }

  /** What an extension adds to the store and to the log. */
  lemma Added(a: Sys, b: Sys, w: map<Key, Option<Value>>, ts: Timestamp, origin: Origin, locks: set<Key>,
              startTs: Timestamp)
    requires Extends(a, b, w, ts, origin, locks, startTs)
    ensures forall v :: v in b.store.committed <==> v in a.store.committed || (v.key in w && v.ts == ts)
    ensures forall v :: v in b.store.committed ==>
              b.store.committed[v] == if v.key in w && v.ts == ts then w[v.key] else a.store.committed[v]
    ensures forall v :: v in b.log <==> v in a.log || (v.key in w && v.ts == ts)
    ensures forall v :: v in b.log ==>
              b.log[v] == if v.key in w && v.ts == ts then Entry(w[v.key], origin) else a.log[v]
  {
    hide MayWrite, NewIntent, Above;
    var st, lg := T.Stamp(w, ts), Logged(w, ts, origin);
    forall v ensures v in st <==> v.key in w && v.ts == ts
             ensures v in lg <==> v.key in w && v.ts == ts
    {
      assert v == VKey(v.key, v.ts);
    }
  }

  /** The caller's contract, for one extension. */
  ghost predicate Lawfully(a: Sys, w: map<Key, Option<Value>>, ts: Timestamp, origin: Origin, locks: set<Key>,
                           startTs: Timestamp)
  {
    && (forall k :: k in a.graves && k in locks ==> a.graves[k] <= startTs)
    && (forall k :: k in a.graves && k in w && origin == ByBatch ==> a.graves[k] < ts)
  }

  /** A bound on a key's stored versions and on its grave bounds its whole log. */
  lemma BoundsLog(a: Sys, k: Key, ts: Timestamp)
    requires Accounted(a) && AtOrBelow(a.store.committed.Keys, k, ts) && (k in a.graves ==> a.graves[k] <= ts)
    ensures AtOrBelow(a.log.Keys, k, ts)
  {
    forall u: Timestamp | VKey(k, u) in a.log ensures u <= ts {
      assert VKey(k, u) in a.store.committed || Covered(a, VKey(k, u)) || Buried(a, VKey(k, u));
    }
  }

  /** A successful write is newer than everything its key ever held. */
  lemma WritesAboveLog(a: Sys, b: Sys, w: map<Key, Option<Value>>, ts: Timestamp, origin: Origin, locks: set<Key>,
                       startTs: Timestamp, k: Key)
    requires Accounted(a) && LocksAbove(a)
    requires Extends(a, b, w, ts, origin, locks, startTs) && Lawfully(a, w, ts, origin, locks, startTs) && k in w
    ensures Above(a.log.Keys, k, ts)
    ensures origin.ByIntent? ==> origin.startTs < ts && AtOrBelow(a.log.Keys, k, origin.startTs)
  {
    hide Accounted, NewIntent, T.Stamp, Logged;
    assert MayWrite(a.store, k, ts, origin) && Above(a.store.committed.Keys, k, ts);
    if k in a.store.intents {
      assert AtOrBelow(a.log.Keys, k, origin.startTs);
    } else {
      assert ts > 0 || forall u: Timestamp :: VKey(k, u) !in a.store.committed;
      if ts > 0 {
        BoundsLog(a, k, ts - 1);
      } else {
        EmptyLog(a, k);
      }
    }
  }

  lemma EmptyLog(a: Sys, k: Key)
    requires Accounted(a) && k !in a.graves && forall u: Timestamp :: VKey(k, u) !in a.store.committed
    ensures Above(a.log.Keys, k, 0)
  {
    forall u: Timestamp ensures VKey(k, u) !in a.log {
      assert VKey(k, u) in a.log ==> VKey(k, u) in a.store.committed || Covered(a, VKey(k, u)) || Buried(a, VKey(k, u));
    }
  }

  lemma ExtendKeeps(a: Sys, b: Sys, w: map<Key, Option<Value>>, ts: Timestamp, origin: Origin, locks: set<Key>,
                    startTs: Timestamp)
    requires Inv(a)
    requires Extends(a, b, w, ts, origin, locks, startTs) && Lawfully(a, w, ts, origin, locks, startTs)
    ensures Inv(b)
    ensures forall v :: v in a.log ==> v in b.log && b.log[v] == a.log[v]
  {
    hide Extends, Lawfully, Covered, Buried, Serial, GravesHold, LocksAbove, Accounted;
    Added(a, b, w, ts, origin, locks, startTs);
    forall k | k in w
      ensures Above(a.log.Keys, k, ts)
      ensures origin.ByIntent? ==> origin.startTs < ts && AtOrBelow(a.log.Keys, k, origin.startTs)
    {
      WritesAboveLog(a, b, w, ts, origin, locks, startTs, k);
    }
    ExtendAccounts(a, b, w, ts, origin, locks, startTs);
    ExtendGraves(a, b, w, ts, origin, locks, startTs);
    ExtendLocks(a, b, w, ts, origin, locks, startTs);
    ExtendSerial(a, b, w, ts, origin);
  }

  lemma ExtendAccounts(a: Sys, b: Sys, w: map<Key, Option<Value>>, ts: Timestamp, origin: Origin, locks: set<Key>,
                       startTs: Timestamp)
    requires Accounted(a) && Extends(a, b, w, ts, origin, locks, startTs)
    ensures Accounted(b)
  {
    Added(a, b, w, ts, origin, locks, startTs);
    hide Shape, Logged;
    forall v | v in b.log && v !in b.store.committed ensures Covered(b, v) || Buried(b, v) {
      if Covered(a, v) {
        var u: Timestamp :| VKey(v.key, u) in a.store.committed && v.ts < u <= a.safe;
        assert VKey(v.key, u) in b.store.committed;
      }
    }
  }

  lemma ExtendGraves(a: Sys, b: Sys, w: map<Key, Option<Value>>, ts: Timestamp, origin: Origin, locks: set<Key>,
                     startTs: Timestamp)
    requires GravesHold(a) && Extends(a, b, w, ts, origin, locks, startTs)
    requires forall k :: k in w ==> Above(a.log.Keys, k, ts)
    ensures GravesHold(b)
  {
    Added(a, b, w, ts, origin, locks, startTs);
    hide Shape, Logged;
  }

  lemma ExtendLocks(a: Sys, b: Sys, w: map<Key, Option<Value>>, ts: Timestamp, origin: Origin, locks: set<Key>,
                    startTs: Timestamp)
    requires Accounted(a) && LocksAbove(a)
    requires Extends(a, b, w, ts, origin, locks, startTs) && Lawfully(a, w, ts, origin, locks, startTs)
    ensures LocksAbove(b)
  {
    hide Accounted, T.Stamp, Logged, AtOrBelow;
    Added(a, b, w, ts, origin, locks, startTs);
    forall k | k in b.store.intents ensures AtOrBelow(b.log.Keys, k, b.store.intents[k].startTs) {
      if !(k in a.store.intents && b.store.intents[k] == a.store.intents[k]) {
        assert NewIntent(a.store, k, b.store.intents[k], locks, startTs);
        BoundsLog(a, k, startTs);
      }
      SameBound(a.log.Keys, b.log.Keys, k, b.store.intents[k].startTs);
    }
  }

  lemma SameBound(d: set<VKey>, e: set<VKey>, k: Key, ts: Timestamp)
    requires AtOrBelow(d, k, ts) && forall u: Timestamp :: VKey(k, u) in e ==> VKey(k, u) in d
    ensures AtOrBelow(e, k, ts)
  {
  }

  lemma ExtendSerial(a: Sys, b: Sys, w: map<Key, Option<Value>>, ts: Timestamp, origin: Origin)
    requires Serial(a)
    requires forall v :: v in b.log <==> v in a.log || (v.key in w && v.ts == ts)
    requires forall v :: v in b.log ==>
              b.log[v] == if v.key in w && v.ts == ts then Entry(w[v.key], origin) else a.log[v]
    requires forall k :: k in w ==>
              && Above(a.log.Keys, k, ts)
              && (origin.ByIntent? ==> origin.startTs < ts && AtOrBelow(a.log.Keys, k, origin.startTs))
    ensures Serial(b)
  {
    forall v, x | v in b.log && x in b.log && v.key == x.key && b.log[x].origin.ByIntent?
      ensures b.log[x].origin.startTs < x.ts && (v.ts <= b.log[x].origin.startTs || x.ts <= v.ts)
    {
      assert v == VKey(v.key, v.ts) && x == VKey(x.key, x.ts);
    }
  }

  // ----- a step that collects -----

  ghost predicate Shrinks(a: Sys, b: Sys, sp: Timestamp, collapse: bool) {
    && Prunes(a.store, b.store, sp, collapse)
    && b.log == a.log
    && b.safe == (if a.safe < sp then sp else a.safe)
    && b.graves == a.graves + NewGraves(a.store, b.store)
  }

  lemma CollectionShrinks(a: Sys, step: Step, b: Sys)
    requires Collects(step) && Next(a, step, b)
    ensures Shrinks(a, b, SafePointOf(step), MayCollapse(step))
  {
    hide StoreNext, NewGraves, Prunes;
    CollectPrunes(a.store, step, b.store);
    assert Written(a.store, step) == map[];
    assert Logged(map[], WriteTs(step), OriginOf(step)) == map[];
  }

  /** A key that loses a keeper loses it to collapse, and is gone. */
  lemma GoneKey(s: Store, t: Store, sp: Timestamp, collapse: bool, v: VKey)
    requires Prunes(s, t, sp, collapse) && Removed(s, t, v)
    ensures Keeper(s, v.key, sp).Some?
    ensures var q := VKey(v.key, Keeper(s, v.key, sp).value);
            && v.ts <= q.ts <= sp && q in s.committed
            && (q in t.committed ==> v.ts < q.ts)
            && (q !in t.committed ==>
                  && Collapsible(s, sp, collapse, v.key)
                  && (forall u: Timestamp :: VKey(v.key, u) !in t.committed)
                  && v.key in NewGraves(s, t) && NewGraves(s, t)[v.key] == q.ts)
  {
    hide VisibleTs;
    assert IsGarbage(s, sp, collapse, v);
    var q := VKey(v.key, Keeper(s, v.key, sp).value);
    assert v == VKey(v.key, v.ts);
    assert IsKeeper(s, sp, q) && !Obsolete(s, sp, q);
    if q !in t.committed {
      assert Removed(s, t, q);
      forall u: Timestamp ensures VKey(v.key, u) !in t.committed {
        assert VKey(v.key, u) in t.committed ==> VKey(v.key, u).key != q.key;
      }
    }
  }

  lemma ShrinkKeeps(a: Sys, b: Sys, sp: Timestamp, collapse: bool)
    requires Inv(a) && Shrinks(a, b, sp, collapse)
    ensures Inv(b)
  {
    hide Shrinks, Covered, Buried, GravesHold, Accounted, Serial;
    ShrinkAccounts(a, b, sp, collapse);
    ShrinkGraves(a, b, sp, collapse);
    ShrinkRest(a, b, sp, collapse);
  }

  lemma ShrinkRest(a: Sys, b: Sys, sp: Timestamp, collapse: bool)
    requires InLog(a) && LocksAbove(a) && Serial(a) && Shrinks(a, b, sp, collapse)
    ensures InLog(b) && LocksAbove(b) && Serial(b)
  {
    hide NewGraves, IsGarbage, IsKeeper;
  }

  /** What a removed version is accounted for by. */
  lemma RemovedAccounted(a: Sys, b: Sys, sp: Timestamp, collapse: bool, v: VKey)
    requires Shrinks(a, b, sp, collapse) && Removed(a.store, b.store, v)
    ensures Covered(b, v) || (v.key in NewGraves(a.store, b.store) && Buried(b, v))
  {
    hide VisibleTs, Prunes, NewGraves, Collapsible;
    GoneKey(a.store, b.store, sp, collapse, v);
    var q := VKey(v.key, Keeper(a.store, v.key, sp).value);
    if q in b.store.committed {
      assert v.ts < q.ts <= b.safe;
    }
  }

  lemma ShrinkAccounts(a: Sys, b: Sys, sp: Timestamp, collapse: bool)
    requires Accounted(a) && GravesHold(a) && Shrinks(a, b, sp, collapse)
    ensures Accounted(b)
  {
    hide NewGraves, IsGarbage, IsKeeper;
    forall v | v in b.log && v !in b.store.committed ensures Covered(b, v) || Buried(b, v) {
      if v in a.store.committed {
        RemovedAccounted(a, b, sp, collapse, v);
      } else if Covered(a, v) {
        var u: Timestamp :| VKey(v.key, u) in a.store.committed && v.ts < u <= a.safe;
        if VKey(v.key, u) !in b.store.committed {
          RemovedAccounted(a, b, sp, collapse, VKey(v.key, u));
          if Covered(b, VKey(v.key, u)) {
            var x: Timestamp :| VKey(v.key, x) in b.store.committed && u < x <= b.safe;
            assert v.ts < x;
          }
        }
      } else {
        BuriedStays(a, b, sp, collapse, v);
      }
    }
  }

  lemma BuriedStays(a: Sys, b: Sys, sp: Timestamp, collapse: bool, v: VKey)
    requires GravesHold(a) && Shrinks(a, b, sp, collapse) && Buried(a, v)
    ensures Buried(b, v)
  {
    NewGraveOf(a, b, sp, collapse, v.key);
  }

  /** A new grave is the tombstone that was the latest version of a key now gone. */
  lemma NewGraveOf(a: Sys, b: Sys, sp: Timestamp, collapse: bool, k: Key)
    requires Shrinks(a, b, sp, collapse)
    ensures k in NewGraves(a.store, b.store) ==>
              var g := VKey(k, NewGraves(a.store, b.store)[k]);
              && g in a.store.committed && a.store.committed[g] == None && g.ts <= sp
              && forall u: Timestamp :: VKey(k, u) !in b.store.committed
  {
    hide VisibleTs, Prunes, IsGarbage, IsKeeper;
    if k in NewGraves(a.store, b.store) {
      var v :| v in a.store.committed && v.key == k && forall u: Timestamp :: VKey(v.key, u) !in b.store.committed;
      assert v == VKey(v.key, v.ts);
      assert Removed(a.store, b.store, v);
      GoneKey(a.store, b.store, sp, collapse, v);
    }
  }

  lemma ShrinkGraves(a: Sys, b: Sys, sp: Timestamp, collapse: bool)
    requires InLog(a) && GravesHold(a) && Shrinks(a, b, sp, collapse)
    ensures GravesHold(b)
  {
    forall k | k in b.graves
      ensures VKey(k, b.graves[k]) in b.log && b.log[VKey(k, b.graves[k])].value == None && b.graves[k] <= b.safe
      ensures forall u: Timestamp :: VKey(k, u) in b.store.committed ==> b.graves[k] < u
    {
      hide Prunes, NewGraves;
      NewGraveOf(a, b, sp, collapse, k);
      if k !in NewGraves(a.store, b.store) {
        assert k in a.graves && b.graves[k] == a.graves[k];
        StillNewer(a, b, sp, collapse, k);
      }
    }
  }

  lemma StillNewer(a: Sys, b: Sys, sp: Timestamp, collapse: bool, k: Key)
    requires GravesHold(a) && Shrinks(a, b, sp, collapse) && k in a.graves
    ensures forall u: Timestamp :: VKey(k, u) in b.store.committed ==> a.graves[k] < u
  {
    hide NewGraves, IsGarbage, IsKeeper;
  }

  // ----- whole runs -----

  lemma NextKeepsInv(a: Sys, step: Step, b: Sys)
    requires Inv(a) && Next(a, step, b) && Respects(a, step)
    ensures Inv(b)
    ensures forall v :: v in a.log ==> v in b.log && b.log[v] == a.log[v]
  {
    hide Inv, Next, Extends, Shrinks, Written;
    if Collects(step) {
      CollectionShrinks(a, step, b);
      ShrinkKeeps(a, b, SafePointOf(step), MayCollapse(step));
      assert b.log == a.log by { SameLog(a, b, SafePointOf(step), MayCollapse(step)); }
    } else {
      MutationExtends(a, step, b);
      ExtendKeeps(a, b, Written(a.store, step), WriteTs(step), OriginOf(step), LockKeys(step), StartOf(step));
    }
  }

  lemma SameLog(a: Sys, b: Sys, sp: Timestamp, collapse: bool)
    requires Shrinks(a, b, sp, collapse)
    ensures b.log == a.log
  {
  }

  lemma InitialInv()
    ensures Inv(INITIAL)
  {
  }

  lemma {:induction false} RunInv(states: seq<Sys>, steps: seq<Step>, i: nat)
    requires Lawful(states, steps) && i <= |steps|
    ensures Inv(states[i])
  {
    hide Inv, Next, Respects;
    if i == 0 {
      InitialInv();
    } else {
      RunInv(states, steps, i - 1);
      NextKeepsInv(states[i - 1], steps[i - 1], states[i]);
    }
  }
}
