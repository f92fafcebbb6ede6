/** What collection removes and keeps, said of the plain version sets. */
module Retention {
  import opened Types
  import opened Bytes
  import opened Ordered
  import opened History
  import opened Gc
  import opened Planner
  import opened Runs
  import opened Theorems

  /** A newer version of the key is at or below the safe point. */
  ghost predicate Superseded(s: Store, sp: Timestamp, v: VKey) {
    exists u: Timestamp :: VKey(v.key, u) in s.committed && v.ts < u <= sp
  }

  /** A deletion at or below the safe point with nothing newer, on a key that nobody has locked. */
  ghost predicate FinalTombstone(s: Store, sp: Timestamp, v: VKey) {
    && v in s.committed && s.committed[v] == None && v.ts <= sp
    && v.key !in s.intents
    && forall u: Timestamp :: VKey(v.key, u) in s.committed ==> u <= v.ts
  }

  lemma GarbageIs(s: Store, sp: Timestamp, collapse: bool, v: VKey)
    ensures IsGarbage(s, sp, collapse, v) <==>
              v in s.committed && (Superseded(s, sp, v) || (collapse && FinalTombstone(s, sp, v)))
    ensures Obsolete(s, sp, v) <==> v in s.committed && Superseded(s, sp, v)
  {
    SupersededIs(s, sp, v);
    if FinalTombstone(s, sp, v) { FinalIs(s, sp, v); }
    hide VisibleTs;
    assert v == VKey(v.key, v.ts);
  }

  lemma SupersededIs(s: Store, sp: Timestamp, v: VKey)
    ensures Obsolete(s, sp, v) <==> v in s.committed && Superseded(s, sp, v)
  {
    hide VisibleTs;
    var q := Keeper(s, v.key, sp);
    if q.Some? { assert VKey(v.key, q.value) in s.committed && q.value <= sp; }
  }

  lemma FinalIs(s: Store, sp: Timestamp, v: VKey)
    requires FinalTombstone(s, sp, v)
    ensures Keeper(s, v.key, sp) == Some(v.ts) == LatestTs(s.committed.Keys, v.key)
  {
    hide VisibleTs;
    assert v == VKey(v.key, v.ts);
    VisibleIs(s.committed.Keys, v.key, sp, v.ts);
    VisibleIs(s.committed.Keys, v.key, TS_MAX, v.ts);
  }

  /**
    The one-shot collection exactly: of a key's versions, those newer than the safe point stay and so does
    the newest at or below it, with their values; that one goes too only if the caller opted in, it is
    a deletion with nothing newer, and the key is unlocked.
   */
  lemma CollectedIs(s: Store, sp: Timestamp, collapse: bool, v: VKey)
    ensures var t := Collected(s, sp, collapse);
            && (v in t.committed <==>
                  v in s.committed && !Superseded(s, sp, v) && !(collapse && FinalTombstone(s, sp, v)))
            && (v in t.committed ==> t.committed[v] == s.committed[v])
            && t.intents == s.intents
  {
    hide IsGarbage, Superseded, FinalTombstone;
    GarbageIs(s, sp, collapse, v);
  }

  /** An unlocked key whose newest version is a deletion at or below the safe point is gone altogether. */
  lemma DeletedKeyVanishes(s: Store, sp: Timestamp, v: VKey, u: Timestamp)
    requires FinalTombstone(s, sp, v)
    ensures VKey(v.key, u) !in Collected(s, sp, true).committed
  {
    CollectedIs(s, sp, true, VKey(v.key, u));
    if VKey(v.key, u) in s.committed {
      assert v == VKey(v.key, v.ts);
      assert u < v.ts ==> Superseded(s, sp, VKey(v.key, u));
    }
  }

  /** Whatever a collecting step of any kind removes was superseded, or a final tombstone it may collapse. */
  lemma RemovedWasGarbage(s: Store, step: Step, t: Store, v: VKey)
    requires Collects(step) && StoreNext(s, step, t) && v in s.committed && v !in t.committed
    ensures Superseded(s, SafePointOf(step), v) || (MayCollapse(step) && FinalTombstone(s, SafePointOf(step), v))
    ensures FinalTombstone(s, SafePointOf(step), v) ==> forall u: Timestamp :: VKey(v.key, u) !in t.committed
  {
    hide StoreNext, SafePointOf, MayCollapse, Superseded, FinalTombstone, IsGarbage, IsKeeper;
    CollectPrunes(s, step, t);
    assert Removed(s, t, v);
    GarbageIs(s, SafePointOf(step), MayCollapse(step), v);
    if FinalTombstone(s, SafePointOf(step), v) {
      FinalIsKeeper(s, SafePointOf(step), v);
      forall u: Timestamp ensures VKey(v.key, u) !in t.committed {
        assert VKey(v.key, u) in t.committed ==> VKey(v.key, u).key != v.key;
      }
    }
  }

  lemma FinalIsKeeper(s: Store, sp: Timestamp, v: VKey)
    requires FinalTombstone(s, sp, v)
    ensures IsKeeper(s, sp, v)
  {
    hide VisibleTs;
    FinalIs(s, sp, v);
  }

  /** A locked key keeps the version seen at the safe point, and every newer one, through every collection. */
  lemma LockedKeyKept(s: Store, step: Step, t: Store, k: Key, u: Timestamp)
    requires Collects(step) && StoreNext(s, step, t) && k in s.intents
    requires VKey(k, u) in s.committed
    requires (u > SafePointOf(step) || IsVisible(s.committed.Keys, k, SafePointOf(step), u))
    ensures VKey(k, u) in t.committed && t.committed[VKey(k, u)] == s.committed[VKey(k, u)]
    ensures k in t.intents && t.intents[k] == s.intents[k]
  {
    hide StoreNext, SafePointOf, MayCollapse;
    if VKey(k, u) !in t.committed { RemovedWasGarbage(s, step, t, VKey(k, u)); }
    CollectedKeepsValues(s, step, t);
  }

  lemma CollectedKeepsValues(s: Store, step: Step, t: Store)
    requires Collects(step) && StoreNext(s, step, t)
    ensures t.intents == s.intents
    ensures forall v :: v in t.committed ==> v in s.committed && t.committed[v] == s.committed[v]
  {
    hide StoreNext, SafePointOf, MayCollapse, IsGarbage, IsKeeper;
    CollectPrunes(s, step, t);
  }

  // ----- reports -----

  /**
    What one budgeted step counts. Keys: the first of the occupied keys from the cursor, as many as it says.
    Intents: the locked ones of those. Versions: one for each of those with a version at or below
    the safe point, and one for each superseded version removed.
   */
  lemma GcStepCounts(s: Store, sp: Timestamp, start: Option<Key>, o: GcOptions, t: Store, r: IncrementalGcResult)
    requires GcStep(s, sp, start, o, t, r)
    ensures r.keysScanned <= |Scan(s, start)|
    ensures var keys := Scan(s, start)[..r.keysScanned];
            && r.intentsPreserved == |set k | k in s.intents && k in keys|
            && r.versionsRemoved == |set v | v in s.committed && v !in t.committed|
            && r.versionsScanned ==
               |set k | k in keys && HasVersion(s, k, sp)|
               + |set v | v in s.committed && v !in t.committed && Superseded(s, sp, v)|
  {
    hide Scan, Clean, PartlyClean, Prunes, TouchesOnly, Keeper, Obsolete, Superseded, HasVersion;
    var keys := Scan(s, start)[..r.keysScanned];
    CountsAre(s, sp, o, keys, t, r.versionsScanned, r.versionsRemoved, r.intentsPreserved);
  }

  ghost predicate HasVersion(s: Store, k: Key, sp: Timestamp) {
    exists u: Timestamp :: VKey(k, u) in s.committed && u <= sp
  }

  lemma CountsAre(s: Store, sp: Timestamp, o: GcOptions, keys: seq<Key>, t: Store, vs: nat, vr: nat, ip: nat)
    requires Scanned(s, sp, o, keys, t, vs, vr, ip)
    ensures ip == |set k | k in s.intents && k in keys|
    ensures vr == |set v | v in s.committed && v !in t.committed|
    ensures vs == |set k | k in keys && HasVersion(s, k, sp)|
                  + |set v | v in s.committed && v !in t.committed && Superseded(s, sp, v)|
  {
    hide TouchesOnly, IsGarbage, IsKeeper, Obsolete, Superseded, HasVersion, Keeper;
    assert (set k | k in s.intents && k in keys) == Locked(s, keys);
    var gone := set v | v in s.committed && v !in t.committed;
    assert gone <= s.committed.Keys && t.committed.Keys == s.committed.Keys - gone;
    SubsetSize(gone, s.committed.Keys);
    forall k ensures Keeper(s, k, sp).Some? <==> HasVersion(s, k, sp) { KeeperExists(s, k, sp); }
    assert (set k | k in keys && HasVersion(s, k, sp)) == WithKeeper(s, sp, keys);
    forall v | v in s.committed ensures Obsolete(s, sp, v) <==> Superseded(s, sp, v) { SupersededIs(s, sp, v); }
    assert (set v | v in s.committed && v !in t.committed && Superseded(s, sp, v)) == ObsoleteRemoved(s, t, sp);
  }

  lemma KeeperExists(s: Store, k: Key, sp: Timestamp)
    ensures Keeper(s, k, sp).Some? <==> HasVersion(s, k, sp)
  {
    hide VisibleTs;
  }

  /** A plan exactly: the newest superseded versions of the key, newest first, and when the tombstone may go. */
  lemma PlanSays(s: Store, sp: Timestamp, o: KeyGcOptions, k: Key, plan: KeyGcPlan, u: Timestamp)
    requires IsPlan(s, sp, o, k, plan)
    ensures plan.key == k && plan.versionsExamined == |plan.versionsToRemove| <= o.maxVersionsExamined
    ensures plan.complete <==> |plan.versionsToRemove| < o.maxVersionsExamined
    ensures forall i, j :: 0 <= i < j < |plan.versionsToRemove| ==> plan.versionsToRemove[i] > plan.versionsToRemove[j]
    ensures u in plan.versionsToRemove ==> VKey(k, u) in s.committed && Superseded(s, sp, VKey(k, u))
    ensures VKey(k, u) in s.committed && Superseded(s, sp, VKey(k, u)) && u !in plan.versionsToRemove ==>
              !plan.complete && forall w :: w in plan.versionsToRemove ==> u < w
    ensures plan.collapseTombstone == Some(u) <==>
              plan.complete && o.collapse && FinalTombstone(s, sp, VKey(k, u))
  {
    hide VisibleTs, Superseded, FinalTombstone, Debt, Collapsible;
    DebtIs(s, sp, k, u);
    CollapsibleIs(s, sp, o.collapse, k, u);
    forall i, j | 0 <= i < j < |plan.versionsToRemove|
      ensures plan.versionsToRemove[i] > plan.versionsToRemove[j]
    {
      assert Newer(plan.versionsToRemove[i], plan.versionsToRemove[j]);
    }
  }

  lemma DebtIs(s: Store, sp: Timestamp, k: Key, u: Timestamp)
    ensures u in Debt(s, sp, k) <==> VKey(k, u) in s.committed && Superseded(s, sp, VKey(k, u))
  {
    hide VisibleTs, Superseded;
    SupersededIs(s, sp, VKey(k, u));
    if u in Debt(s, sp, k) {
      var v :| v in s.committed && v.key == k && v.ts == u;
      assert v == VKey(k, u);
    }
    if VKey(k, u) in s.committed && Keeper(s, k, sp).Some? && u < Keeper(s, k, sp).value {
      assert VKey(k, u).ts in OlderThan(s.committed.Keys, k, Keeper(s, k, sp).value);
    }
  }

  lemma CollapsibleIs(s: Store, sp: Timestamp, collapse: bool, k: Key, u: Timestamp)
    ensures Collapsible(s, sp, collapse, k) && Keeper(s, k, sp) == Some(u) <==>
              collapse && FinalTombstone(s, sp, VKey(k, u))
  {
    hide VisibleTs;
    if FinalTombstone(s, sp, VKey(k, u)) { FinalIs(s, sp, VKey(k, u)); }
  }
}
