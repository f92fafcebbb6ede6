/**
  History retention: which versions are garbage at a safe point, what a partial collection may
  remove, one budgeted step of `gc_incremental`, and the whole pass.
 */
module Gc {
  import opened Types
  import opened Arithmetic
  import opened Bytes
  import opened Ordered
  import opened History

  // ----- garbage -----

  ghost function Keeper(s: Store, k: Key, sp: Timestamp): Option<Timestamp> {
    VisibleTs(s.committed.Keys, k, sp)
  }

  /** The keeper is a final tombstone that the caller allows to disappear. */
  ghost predicate Collapsible(s: Store, sp: Timestamp, collapse: bool, k: Key) {
    && collapse
    && k !in s.intents
    && Keeper(s, k, sp).Some?
    && s.committed[VKey(k, Keeper(s, k, sp).value)] == None
    && LatestTs(s.committed.Keys, k) == Keeper(s, k, sp)
  }

  /** Older than its key's keeper. */
  ghost predicate Obsolete(s: Store, sp: Timestamp, v: VKey) {
    v in s.committed && Keeper(s, v.key, sp).Some? && v.ts < Keeper(s, v.key, sp).value
  }

  ghost predicate IsKeeper(s: Store, sp: Timestamp, v: VKey) {
    v in s.committed && Keeper(s, v.key, sp) == Some(v.ts)
  }

  ghost predicate IsGarbage(s: Store, sp: Timestamp, collapse: bool, v: VKey) {
    Obsolete(s, sp, v) || (IsKeeper(s, sp, v) && Collapsible(s, sp, collapse, v.key))
  }

  ghost function Garbage(s: Store, sp: Timestamp, collapse: bool): set<VKey> {
    set v | v in s.committed && IsGarbage(s, sp, collapse, v)
  }

  /** One-shot collection. */
  ghost function Collected(s: Store, sp: Timestamp, collapse: bool): Store {
    s.(committed := s.committed - Garbage(s, sp, collapse))
  }

  // ----- partial collection -----

  ghost predicate Removed(s: Store, t: Store, v: VKey) {
    v in s.committed && v !in t.committed
  }

  /** `t` is `s` without some of its garbage, and a key loses its keeper only with its whole history. */
  ghost predicate Prunes(s: Store, t: Store, sp: Timestamp, collapse: bool) {
    && t.intents == s.intents
    && (forall v :: v in t.committed ==> v in s.committed && t.committed[v] == s.committed[v])
    && (forall v :: Removed(s, t, v) ==> IsGarbage(s, sp, collapse, v))
    && (forall v, u :: Removed(s, t, v) && IsKeeper(s, sp, v) && u in t.committed ==> u.key != v.key)
  }

  lemma VisibleIs(dom: set<VKey>, k: Key, t: Timestamp, ts: Timestamp)
    requires IsVisible(dom, k, t, ts)
    ensures VisibleTs(dom, k, t) == Some(ts)
  {
  }

  /** A key that survives keeps its keeper, its latest version and its collapsibility. */
  lemma PruneKeeps(s: Store, t: Store, sp: Timestamp, collapse: bool, v: VKey)
    requires Prunes(s, t, sp, collapse) && v in t.committed
    ensures Keeper(t, v.key, sp) == Keeper(s, v.key, sp)
    ensures LatestTs(t.committed.Keys, v.key) == LatestTs(s.committed.Keys, v.key)
    ensures Collapsible(t, sp, collapse, v.key) <==> Collapsible(s, sp, collapse, v.key)
  {
    var k := v.key;
    PruneKeepsVisible(s, t, sp, collapse, v, sp);
    PruneKeepsVisible(s, t, sp, collapse, v, TS_MAX);
  }

  lemma PruneKeepsVisible(s: Store, t: Store, sp: Timestamp, collapse: bool, v: VKey, at: Timestamp)
    requires Prunes(s, t, sp, collapse) && v in t.committed && at >= sp
    ensures VisibleTs(t.committed.Keys, v.key, at) == VisibleTs(s.committed.Keys, v.key, at)
  {
    var k := v.key;
    var q := VisibleTs(s.committed.Keys, k, at);
    if q.Some? {
      var w := VKey(k, q.value);
      assert !Obsolete(s, sp, w);
      assert !Removed(s, t, w);
      VisibleIs(t.committed.Keys, k, at, q.value);
    } else {
      assert VisibleTs(t.committed.Keys, k, at).None?;
    }
  }

  /** What is garbage after a partial collection is what was garbage before it and is still there. */
  lemma PruneGarbage(s: Store, t: Store, sp: Timestamp, collapse: bool, v: VKey)
    requires Prunes(s, t, sp, collapse)
    ensures IsGarbage(t, sp, collapse, v) <==> v in t.committed && IsGarbage(s, sp, collapse, v)
    ensures Obsolete(t, sp, v) <==> v in t.committed && Obsolete(s, sp, v)
    ensures IsKeeper(t, sp, v) <==> v in t.committed && IsKeeper(s, sp, v)
  {
    if v in t.committed { PruneKeeps(s, t, sp, collapse, v); }
  }

  lemma PruneTransitive(s: Store, t: Store, u: Store, sp: Timestamp, collapse: bool)
    requires Prunes(s, t, sp, collapse) && Prunes(t, u, sp, collapse)
    ensures Prunes(s, u, sp, collapse)
  {
    forall v | Removed(s, u, v) ensures IsGarbage(s, sp, collapse, v) {
      PruneGarbage(s, t, sp, collapse, v);
      assert Removed(s, t, v) || Removed(t, u, v);
    }
    forall v, w | Removed(s, u, v) && IsKeeper(s, sp, v) && w in u.committed ensures w.key != v.key {
      PruneGarbage(s, t, sp, collapse, v);
      assert Removed(s, t, v) || Removed(t, u, v);
    }
  }

  /**
    Collection never changes a permitted read. Where the key survives, even the version read is
    the same; a key can vanish only under collapse, and then it read as absent already.
   */
  lemma PrunePreservesReads(s: Store, t: Store, sp: Timestamp, collapse: bool, k: Key, at: Timestamp)
    requires Prunes(s, t, sp, collapse) && at >= sp
    ensures Read(t.committed, k, at) == Read(s.committed, k, at)
    ensures !collapse ==> ReadVersion(t.committed, k, at) == ReadVersion(s.committed, k, at)
  {
    if v :| v in t.committed && v.key == k {
      PruneKeepsVisible(s, t, sp, collapse, v, at);
    } else {
      assert VisibleTs(t.committed.Keys, k, at).None?;
      var q := VisibleTs(s.committed.Keys, k, at);
      if q.Some? {
        var w := VKey(k, q.value);
        assert Removed(s, t, w) && !Obsolete(s, sp, w);
        assert Collapsible(s, sp, collapse, k);
      }
    }
  }

  lemma CollectedPrunes(s: Store, sp: Timestamp, collapse: bool)
    ensures Prunes(s, Collected(s, sp, collapse), sp, collapse)
    ensures Garbage(Collected(s, sp, collapse), sp, collapse) == {}
  {
    var t := Collected(s, sp, collapse);
    forall v, u | Removed(s, t, v) && IsKeeper(s, sp, v) && u in s.committed && u.key == v.key
      ensures u in Garbage(s, sp, collapse)
    {
      assert LatestTs(s.committed.Keys, v.key) == Some(v.ts);
      assert u == VKey(v.key, u.ts);
    }
    forall v ensures !IsGarbage(t, sp, collapse, v) { PruneGarbage(s, t, sp, collapse, v); }
  }

  // ----- one budgeted step -----

  ghost function OccupiedKeys(s: Store): set<Key> {
    Occupied(s.committed.Keys, s.intents.Keys)
  }

  /** The keys a pass from `start` visits, in order. */
  ghost function Scan(s: Store, start: Option<Key>): (r: seq<Key>)
    ensures Ascending(r, Less)
    ensures forall k :: k in r <==> k in KeysAtOrAfter(OccupiedKeys(s), start)
    ensures |r| == |KeysAtOrAfter(OccupiedKeys(s), start)|
  {
    LessIsOrder();
    Sorted(KeysAtOrAfter(OccupiedKeys(s), start), Less)
  }

  /** Nothing that was garbage at these keys is left. */
  ghost predicate Clean(s: Store, t: Store, sp: Timestamp, collapse: bool, keys: seq<Key>) {
    forall v: VKey :: v.key in keys && IsGarbage(s, sp, collapse, v) ==> v !in t.committed
  }

  /** Garbage is left at `k`: the oldest of the obsolete versions, and the keeper if that is to go. */
  ghost predicate PartlyClean(s: Store, t: Store, sp: Timestamp, collapse: bool, k: Key) {
    && (exists v :: v in t.committed && v.key == k && IsGarbage(s, sp, collapse, v))
    && (forall v, u :: Removed(s, t, v) && v.key == k && u in t.committed && u.key == k && Obsolete(s, sp, u) ==>
        u.ts < v.ts)
  }

  ghost predicate TouchesOnly(s: Store, t: Store, keys: seq<Key>) {
    forall v :: Removed(s, t, v) ==> v.key in keys
  }

  ghost function Locked(s: Store, keys: seq<Key>): set<Key> {
    set k | k in s.intents && k in keys
  }

  ghost function WithKeeper(s: Store, sp: Timestamp, keys: seq<Key>): set<Key> {
    set k | k in keys && Keeper(s, k, sp).Some?
  }

  ghost function ObsoleteRemoved(s: Store, t: Store, sp: Timestamp): set<VKey> {
    set v | v in s.committed && v !in t.committed && Obsolete(s, sp, v)
  }

  /** What the scan of the first keys has done and counted. */
  ghost predicate Scanned(s: Store, sp: Timestamp, o: GcOptions, keys: seq<Key>, t: Store,
                          versionsScanned: nat, versionsRemoved: nat, intentsPreserved: nat)
  {
    && Prunes(s, t, sp, o.collapse)
    && TouchesOnly(s, t, keys)
    && versionsRemoved == |s.committed| - |t.committed|
    && versionsRemoved <= o.maxVersions
    && intentsPreserved == |Locked(s, keys)|
    && versionsScanned == |WithKeeper(s, sp, keys)| + |ObsoleteRemoved(s, t, sp)|
  }

  /** `gc_incremental` on `s` from `start` may reach `t` and report `r`. */
  ghost predicate GcStep(s: Store, sp: Timestamp, start: Option<Key>, o: GcOptions, t: Store, r: IncrementalGcResult) {
    var keys := Scan(s, start);
    var n := r.keysScanned;
    && n <= |keys| && n <= o.maxKeys
    && Scanned(s, sp, o, keys[..n], t, r.versionsScanned, r.versionsRemoved, r.intentsPreserved)
    && if r.done then
         && n == |keys|
         && r.nextKey == None
         && Clean(s, t, sp, o.collapse, keys)
       else if n == o.maxKeys < |keys| && r.nextKey == Some(keys[n]) then
         Clean(s, t, sp, o.collapse, keys[..n])
       else
         && n > 0
         && r.nextKey == Some(keys[n - 1])
         && r.versionsRemoved == o.maxVersions
         && Clean(s, t, sp, o.collapse, keys[..n - 1])
         && PartlyClean(s, t, sp, o.collapse, keys[n - 1])
  }

  lemma AscendingDistinct(keys: seq<Key>)
    requires Ascending(keys, Less)
    ensures forall i, j :: 0 <= i < j < |keys| ==> keys[i] != keys[j]
  {
    forall i, j | 0 <= i < j < |keys| ensures keys[i] != keys[j] { LessIrreflexive(keys[i]); }
  }

  /** A key not touched yet looks the same in both stores. */
  lemma UntouchedKey(s: Store, t: Store, sp: Timestamp, collapse: bool, k: Key)
    requires Prunes(s, t, sp, collapse) && forall v :: Removed(s, t, v) ==> v.key != k
    ensures Keeper(t, k, sp) == Keeper(s, k, sp)
    ensures forall v: VKey :: v.key == k ==> (v in s.committed <==> v in t.committed)
    ensures forall v: VKey :: v.key == k ==> (IsGarbage(s, sp, collapse, v) <==> IsGarbage(t, sp, collapse, v))
    ensures forall v: VKey :: v.key == k ==> (Obsolete(s, sp, v) <==> Obsolete(t, sp, v))
  {
    forall v: VKey | v.key == k
      ensures v in s.committed <==> v in t.committed
      ensures IsGarbage(s, sp, collapse, v) <==> IsGarbage(t, sp, collapse, v)
      ensures Obsolete(s, sp, v) <==> Obsolete(t, sp, v)
    {
      assert !Removed(s, t, v);
      PruneGarbage(s, t, sp, collapse, v);
    }
    if u: Timestamp :| VKey(k, u) in t.committed {
      PruneKeeps(s, t, sp, collapse, VKey(k, u));
    } else {
      assert Keeper(t, k, sp).None?;
      assert forall u: Timestamp :: VKey(k, u) !in s.committed;
    }
  }

  lemma ObsoleteRemovedAdds(s: Store, t: Store, u: Store, sp: Timestamp, collapse: bool)
    requires Prunes(s, t, sp, collapse) && Prunes(t, u, sp, collapse)
    ensures |ObsoleteRemoved(s, u, sp)| == |ObsoleteRemoved(s, t, sp)| + |ObsoleteRemoved(t, u, sp)|
  {
    var a, b := ObsoleteRemoved(s, t, sp), ObsoleteRemoved(t, u, sp);
    forall v ensures v in ObsoleteRemoved(s, u, sp) <==> v in a + b {
      PruneGarbage(s, t, sp, collapse, v);
    }
    assert ObsoleteRemoved(s, u, sp) == a + b && a !! b;
  }

  /** One more key: the accounts of a scan extend by what that key contributed. */
  lemma ScanExtends(s: Store, sp: Timestamp, o: GcOptions, keys: seq<Key>, k: Key, t: Store, u: Store,
                    vs: nat, vr: nat, ip: nat, scanned: nat, removed: nat)
    requires Scanned(s, sp, o, keys, t, vs, vr, ip) && k !in keys
    requires Prunes(t, u, sp, o.collapse) && TouchesOnly(t, u, [k])
    requires removed == |t.committed| - |u.committed| && vr + removed <= o.maxVersions
    requires scanned == (if Keeper(t, k, sp).Some? then 1 else 0) + |ObsoleteRemoved(t, u, sp)|
    ensures Scanned(s, sp, o, keys + [k], u, vs + scanned, vr + removed, ip + if k in s.intents then 1 else 0)
  {
    PruneTransitive(s, t, u, sp, o.collapse);
    UntouchedKey(s, t, sp, o.collapse, k);
    ObsoleteRemovedAdds(s, t, u, sp, o.collapse);
    TouchesAdds(s, t, u, keys, k);
    LockedAdds(s, keys, k);
    WithKeeperAdds(s, sp, keys, k);
  }

  lemma TouchesAdds(s: Store, t: Store, u: Store, keys: seq<Key>, k: Key)
    requires TouchesOnly(s, t, keys) && TouchesOnly(t, u, [k])
    ensures TouchesOnly(s, u, keys + [k])
  {
    forall v | Removed(s, u, v) ensures v.key in keys + [k] {
      assert Removed(s, t, v) || Removed(t, u, v);
    }
  }

  lemma LockedAdds(s: Store, keys: seq<Key>, k: Key)
    requires k !in keys
    ensures |Locked(s, keys + [k])| == |Locked(s, keys)| + if k in s.intents then 1 else 0
  {
    assert Locked(s, keys + [k]) == Locked(s, keys) + if k in s.intents then {k} else {};
  }

  lemma WithKeeperAdds(s: Store, sp: Timestamp, keys: seq<Key>, k: Key)
    requires k !in keys
    ensures |WithKeeper(s, sp, keys + [k])| == |WithKeeper(s, sp, keys)| + if Keeper(s, k, sp).Some? then 1 else 0
  {
    assert WithKeeper(s, sp, keys + [k]) == WithKeeper(s, sp, keys) + if Keeper(s, k, sp).Some? then {k} else {};
  }

  // ----- the whole pass -----

  /** Every key below the cursor is already in normal form. */
  ghost predicate SweptBelow(s0: Store, s: Store, sp: Timestamp, collapse: bool, cursor: Option<Key>) {
    cursor.Some? ==> forall v :: IsGarbage(s0, sp, collapse, v) && Less(v.key, cursor.value) ==> v !in s.committed
  }

  /** A key of the scan at an index: everything at or after the cursor and before it was visited first. */
  lemma ScanIndex(s: Store, start: Option<Key>, k: Key, i: nat)
    requires k in OccupiedKeys(s) && (start.None? || !Less(k, start.value))
    requires i < |Scan(s, start)| && Less(k, Scan(s, start)[i])
    ensures k in Scan(s, start)[..i]
  {
    var keys := Scan(s, start);
    LessIsOrder();
    assert k in keys;
    var j :| 0 <= j < |keys| && keys[j] == k;
    assert !(i < j) && i != j;
    assert keys[..i][j] == k;
  }

  /** Garbage at or after the cursor that the step has passed is gone. */
  lemma PassedIsGone(s: Store, sp: Timestamp, cursor: Option<Key>, o: GcOptions, t: Store, r: IncrementalGcResult,
                     v: VKey)
    requires GcStep(s, sp, cursor, o, t, r)
    requires IsGarbage(s, sp, o.collapse, v) && (cursor.None? || !Less(v.key, cursor.value))
    requires r.done || Less(v.key, r.nextKey.value)
    ensures v !in t.committed
  {
    hide IsGarbage, Prunes, PartlyClean, TouchesOnly, Scan, ObsoleteRemoved, WithKeeper, Locked;
    var keys, n := Scan(s, cursor), r.keysScanned;
    GarbageOccupies(s, sp, o.collapse, v);
    if r.done {
      assert v.key in keys;
    } else if n == o.maxKeys < |keys| && r.nextKey == Some(keys[n]) {
      ScanIndex(s, cursor, v.key, n);
    } else {
      ScanIndex(s, cursor, v.key, n - 1);
    }
  }

  lemma GarbageOccupies(s: Store, sp: Timestamp, collapse: bool, v: VKey)
    requires IsGarbage(s, sp, collapse, v)
    ensures v in s.committed && v.key in OccupiedKeys(s)
  {
  }

  lemma AllGarbageGone(s0: Store, t: Store, sp: Timestamp, collapse: bool)
    requires Prunes(s0, t, sp, collapse)
    requires forall v :: IsGarbage(s0, sp, collapse, v) ==> v !in t.committed
    ensures t == Collected(s0, sp, collapse)
  {
    var c := Collected(s0, sp, collapse);
    forall v ensures v in t.committed <==> v in c.committed {
      assert v in s0.committed && v !in t.committed ==> Removed(s0, t, v);
    }
    assert t.committed == c.committed;
  }

  /** A step keeps what lies below its cursor in normal form, and the last step leaves only normal form. */
  lemma GcStepNormalises(s0: Store, s: Store, sp: Timestamp, cursor: Option<Key>, o: GcOptions, t: Store,
                         r: IncrementalGcResult)
    requires Prunes(s0, s, sp, o.collapse) && SweptBelow(s0, s, sp, o.collapse, cursor)
    requires GcStep(s, sp, cursor, o, t, r)
    ensures Prunes(s0, t, sp, o.collapse)
    ensures !r.done ==> r.nextKey.Some? && SweptBelow(s0, t, sp, o.collapse, r.nextKey)
    ensures r.done ==> t == Collected(s0, sp, o.collapse)
  {
    PruneTransitive(s0, s, t, sp, o.collapse);
    forall v | IsGarbage(s0, sp, o.collapse, v) && (r.done || Less(v.key, r.nextKey.value)) ensures v !in t.committed {
      PruneGarbage(s0, s, sp, o.collapse, v);
      if v in s.committed { PassedIsGone(s, sp, cursor, o, t, r, v); }
    }
    if r.done { AllGarbageGone(s0, t, sp, o.collapse); }
  }

  /** floor(v / maxVersions) + floor(max(k - 1, 0) / maxKeys) + 1. */
  ghost function Bound(v: nat, k: nat, o: GcOptions): (r: nat)
    requires o.maxKeys > 0 && o.maxVersions > 0
    ensures r > 0
  {
    v / o.maxVersions + (if k == 0 then 0 else k - 1) / o.maxKeys + 1
  }

  /** How many calls a pass from the cursor may need, for its removable versions and its keys. */
  ghost function CallBound(s: Store, sp: Timestamp, cursor: Option<Key>, o: GcOptions): nat
    requires o.maxKeys > 0 && o.maxVersions > 0
  {
    Bound(|Garbage(s, sp, o.collapse)|, |Scan(s, cursor)|, o)
  }

  lemma GarbageShrinks(s: Store, t: Store, sp: Timestamp, collapse: bool)
    requires Prunes(s, t, sp, collapse)
    ensures |Garbage(t, sp, collapse)| == |Garbage(s, sp, collapse)| - (|s.committed| - |t.committed|)
  {
    var gone := s.committed.Keys - t.committed.Keys;
    GarbageLeft(s, t, sp, collapse, gone);
    SubsetSize(gone, Garbage(s, sp, collapse));
    assert s.committed.Keys - gone == t.committed.Keys;
    SubsetSize(gone, s.committed.Keys);
  }

  lemma GarbageLeft(s: Store, t: Store, sp: Timestamp, collapse: bool, gone: set<VKey>)
    requires Prunes(s, t, sp, collapse) && gone == s.committed.Keys - t.committed.Keys
    ensures gone <= Garbage(s, sp, collapse)
    ensures Garbage(t, sp, collapse) == Garbage(s, sp, collapse) - gone
  {
    forall v ensures v in Garbage(t, sp, collapse) <==> v in Garbage(s, sp, collapse) && v !in gone {
      PruneGarbage(s, t, sp, collapse, v);
    }
    forall v | v in gone ensures v in Garbage(s, sp, collapse) { assert Removed(s, t, v); }
  }

  /** The keys left to visit after an unfinished step. */
  lemma ScanShrinks(s: Store, t: Store, start: Option<Key>, i: nat)
    requires i < |Scan(s, start)| && OccupiedKeys(t) <= OccupiedKeys(s)
    ensures |Scan(t, Some(Scan(s, start)[i]))| <= |Scan(s, start)| - i
  {
    var keys := Scan(s, start);
    var later := KeysAtOrAfter(OccupiedKeys(t), Some(keys[i]));
    assert keys[i] in keys;
    forall k | k in later ensures k in keys {
      if start.Some? && Less(k, start.value) {
        LessTotal(k, keys[i]);
        LessTransitive(k, start.value, keys[i]) by { LessTotal(start.value, keys[i]); }
      }
    }
    LessIsOrder();
    FromPosition(keys, later, i, Less);
  }

  lemma KeysShrink(s: Store, t: Store, sp: Timestamp, collapse: bool)
    requires Prunes(s, t, sp, collapse)
    ensures OccupiedKeys(t) <= OccupiedKeys(s)
  {
  }

  /**
    Each unfinished step uses up one call of the bound: it passed `maxKeys` keys or removed exactly
    `maxVersions` versions.
   */
  lemma GcStepProgress(s: Store, sp: Timestamp, cursor: Option<Key>, o: GcOptions, t: Store, r: IncrementalGcResult)
    requires o.maxKeys > 0 && o.maxVersions > 0
    requires GcStep(s, sp, cursor, o, t, r) && !r.done
    ensures CallBound(t, sp, r.nextKey, o) < CallBound(s, sp, cursor, o)
  {
    hide Prunes, Clean, PartlyClean, TouchesOnly, Garbage, Locked, WithKeeper, ObsoleteRemoved, OccupiedKeys, Scan;
    var keys, n := Scan(s, cursor), r.keysScanned;
    KeysShrink(s, t, sp, o.collapse);
    GarbageShrinks(s, t, sp, o.collapse);
    var passed: nat, dropped: nat;
    if n == o.maxKeys < |keys| && r.nextKey == Some(keys[n]) {
      passed, dropped := o.maxKeys, 0;
      ScanShrinks(s, t, cursor, n);
    } else {
      passed, dropped := 0, o.maxVersions;
      ScanShrinks(s, t, cursor, n - 1);
    }
    var g, g', m := |Garbage(s, sp, o.collapse)|, |Garbage(t, sp, o.collapse)|, |Scan(t, r.nextKey)|;
    assert g' <= g - dropped && m <= |keys| - passed && passed < |keys|;
    BoundDrops(g, g', |keys|, m, o, passed, dropped);
  }

  lemma BoundDrops(g: nat, g': nat, n: nat, m: nat, o: GcOptions, passed: nat, dropped: nat)
    requires o.maxKeys > 0 && o.maxVersions > 0
    requires (passed == o.maxKeys && dropped == 0) || (passed == 0 && dropped == o.maxVersions)
    requires passed < n && m <= n - passed && g' <= g - dropped
    ensures Bound(g', m, o) < Bound(g, n, o)
  {
    DivisionMonotone(g', g - dropped, o.maxVersions);
    DivisionMonotone(if m == 0 then 0 else m - 1, n - 1 - passed, o.maxKeys);
    if passed == 0 { DivisionStep(g, o.maxVersions); } else { DivisionStep(n - 1, o.maxKeys); }
  }

  /** A chain of calls, each resumed from the cursor the call before it returned, as `gc` makes them. */
  ghost predicate GcPass(stores: seq<Store>, results: seq<IncrementalGcResult>, sp: Timestamp, start: Option<Key>,
                         o: GcOptions)
  {
    && |stores| == |results| + 1
    && forall i :: 0 <= i < |results| ==>
         && GcStep(stores[i], sp, if i == 0 then start else results[i - 1].nextKey, o, stores[i + 1], results[i])
         && (results[i].done <==> i == |results| - 1)
  }

  ghost function TotalRemoved(results: seq<IncrementalGcResult>): nat {
    if results == [] then 0 else results[0].versionsRemoved + TotalRemoved(results[1..])
  }

  lemma GcPassTail(stores: seq<Store>, results: seq<IncrementalGcResult>, sp: Timestamp, start: Option<Key>,
                   o: GcOptions)
    requires GcPass(stores, results, sp, start, o) && |results| > 1
    ensures GcPass(stores[1..], results[1..], sp, results[0].nextKey, o)
  {
    forall i | 0 <= i < |results| - 1
      ensures GcStep(stores[1..][i], sp, if i == 0 then results[0].nextKey else results[1..][i - 1].nextKey, o,
                     stores[1..][i + 1], results[1..][i])
      ensures results[1..][i].done <==> i == |results| - 2
    {
      assert GcStep(stores[i + 1], sp, results[i].nextKey, o, stores[i + 2], results[i + 1]);
      assert results[i + 1].done <==> i + 1 == |results| - 1;
    }
  }

  /**
    Budget independence with a bound: under any valid budget a finished pass reaches the one-shot
    collection, removes its garbage exactly once, and needs at most `CallBound` calls.
   */
  lemma {:induction false} GcPassCollects(s0: Store, stores: seq<Store>, results: seq<IncrementalGcResult>,
                                          sp: Timestamp, start: Option<Key>, o: GcOptions)
    requires o.maxKeys > 0 && o.maxVersions > 0
    requires GcPass(stores, results, sp, start, o) && results != []
    requires Prunes(s0, stores[0], sp, o.collapse) && SweptBelow(s0, stores[0], sp, o.collapse, start)
    ensures stores[|results|] == Collected(s0, sp, o.collapse)
    ensures |results| <= CallBound(stores[0], sp, start, o)
    ensures TotalRemoved(results) == |Garbage(stores[0], sp, o.collapse)|
  {
    hide Prunes, Clean, PartlyClean, TouchesOnly;
    assert GcStep(stores[0], sp, start, o, stores[1], results[0]);
    GcStepNormalises(s0, stores[0], sp, start, o, stores[1], results[0]);
    GarbageShrinks(stores[0], stores[1], sp, o.collapse);
    if |results| == 1 {
      CollectedPrunes(s0, sp, o.collapse);
      assert stores[1] == Collected(s0, sp, o.collapse) && Garbage(stores[1], sp, o.collapse) == {};
      assert TotalRemoved(results[1..]) == 0;
    } else {
      GcStepProgress(stores[0], sp, start, o, stores[1], results[0]);
      GcPassTail(stores, results, sp, start, o);
      GcPassCollects(s0, stores[1..], results[1..], sp, results[0].nextKey, o);
    }
  }

  // ----- one key of a step -----

  /** What processing one key under a remaining budget may do, and report. */
  ghost predicate KeyStep(s: Store, sp: Timestamp, collapse: bool, k: Key, limit: nat, t: Store,
                          scanned: nat, removed: nat, exhausted: bool)
  {
    && Prunes(s, t, sp, collapse)
    && TouchesOnly(s, t, [k])
    && removed == |s.committed| - |t.committed|
    && removed <= limit
    && scanned == (if Keeper(s, k, sp).Some? then 1 else 0) + |ObsoleteRemoved(s, t, sp)|
    && if exhausted then removed == limit && PartlyClean(s, t, sp, collapse, k) else Clean(s, t, sp, collapse, [k])
  }

  lemma {:induction false} VersionSetSize(k: Key, tss: seq<Timestamp>)
    requires Ascending(tss, Newer)
    ensures |VersionSet(k, tss)| == |tss|
  {
    if tss != [] {
      var n := |tss| - 1;
      VersionSetSize(k, tss[..n]);
      assert VersionSet(k, tss) == VersionSet(k, tss[..n]) + {VKey(k, tss[n])};
    }
  }

  /** Removing obsolete versions of one key, and nothing else. */
  lemma DropOlder(s: Store, sp: Timestamp, collapse: bool, k: Key, tss: seq<Timestamp>, t: Store)
    requires Keeper(s, k, sp).Some? && Ascending(tss, Newer)
    requires forall u :: u in tss ==> u in OlderThan(s.committed.Keys, k, Keeper(s, k, sp).value)
    requires t == s.(committed := s.committed - VersionSet(k, tss))
    ensures Prunes(s, t, sp, collapse) && TouchesOnly(s, t, [k])
    ensures |s.committed| - |t.committed| == |tss| == |ObsoleteRemoved(s, t, sp)|
  {
    hide VisibleTs;
    var gone := VersionSet(k, tss);
    assert gone <= s.committed.Keys;
    forall v | Removed(s, t, v) ensures v.key == k && Obsolete(s, sp, v) {}
    assert ObsoleteRemoved(s, t, sp) == gone;
    VersionSetSize(k, tss);
    assert t.committed.Keys == s.committed.Keys - gone;
    SubsetSize(gone, s.committed.Keys);
  }

  /** The versions of a key whose keeper is its latest version. */
  lemma WholeHistory(s: Store, sp: Timestamp, k: Key, tss: seq<Timestamp>)
    requires Keeper(s, k, sp).Some? && LatestTs(s.committed.Keys, k) == Keeper(s, k, sp)
    requires forall u :: u in tss <==> u in OlderThan(s.committed.Keys, k, Keeper(s, k, sp).value)
    ensures VKey(k, Keeper(s, k, sp).value) !in VersionSet(k, tss)
    ensures forall v :: v in s.committed && v.key == k <==>
              v in VersionSet(k, tss) || v == VKey(k, Keeper(s, k, sp).value)
    ensures forall v :: v in VersionSet(k, tss) ==> Obsolete(s, sp, v)
  {
    hide VisibleTs;
    var top := VKey(k, Keeper(s, k, sp).value);
    forall v | v in s.committed && v.key == k ensures v in VersionSet(k, tss) || v == top {
      assert v == VKey(k, v.ts);
      if v.ts < top.ts { assert v.ts in OlderThan(s.committed.Keys, k, top.ts); }
    }
  }

  /** Removing a final tombstone with its whole history. */
  lemma DropAll(s: Store, sp: Timestamp, collapse: bool, k: Key, tss: seq<Timestamp>, t: Store)
    requires Collapsible(s, sp, collapse, k) && Ascending(tss, Newer)
    requires forall u :: u in tss <==> u in OlderThan(s.committed.Keys, k, Keeper(s, k, sp).value)
    requires t == s.(committed := s.committed - {VKey(k, Keeper(s, k, sp).value)} - VersionSet(k, tss))
    ensures Prunes(s, t, sp, collapse) && TouchesOnly(s, t, [k])
    ensures Clean(s, t, sp, collapse, [k])
    ensures |s.committed| - |t.committed| == |tss| + 1 && |ObsoleteRemoved(s, t, sp)| == |tss|
  {
    hide VisibleTs, VersionSet, OlderThan;
    var older, top := VersionSet(k, tss), VKey(k, Keeper(s, k, sp).value);
    WholeHistory(s, sp, k, tss);
    VersionSetSize(k, tss);
    GoneSize(s, t, older + {top});
    assert IsKeeper(s, sp, top);
    ObsoletePart(s, t, sp, older, top);
    WholeKeyPrunes(s, sp, collapse, k, t);
  }

  lemma ObsoletePart(s: Store, t: Store, sp: Timestamp, older: set<VKey>, top: VKey)
    requires IsKeeper(s, sp, top) && top in s.committed && older <= s.committed.Keys
    requires t.committed.Keys == s.committed.Keys - older - {top}
    requires forall v :: v in older ==> Obsolete(s, sp, v)
    ensures ObsoleteRemoved(s, t, sp) == older
  {
    hide VisibleTs;
    assert !Obsolete(s, sp, top);
    assert forall v: VKey :: Removed(s, t, v) <==> v in older || v == top;
  }

  lemma GoneSize(s: Store, t: Store, gone: set<VKey>)
    requires gone <= s.committed.Keys && t.committed.Keys == s.committed.Keys - gone
    ensures |s.committed| - |t.committed| == |gone|
  {
    SubsetSize(gone, s.committed.Keys);
  }

  lemma WholeKeyPrunes(s: Store, sp: Timestamp, collapse: bool, k: Key, t: Store)
    requires Collapsible(s, sp, collapse, k) && t.intents == s.intents
    requires forall v :: v in t.committed <==> v in s.committed && v.key != k
    requires forall v :: v in t.committed ==> t.committed[v] == s.committed[v]
    ensures Prunes(s, t, sp, collapse) && TouchesOnly(s, t, [k]) && Clean(s, t, sp, collapse, [k])
  {
    forall v | v in s.committed && v.key == k ensures IsGarbage(s, sp, collapse, v) {
      assert v == VKey(k, v.ts);
    }
  }

  /** What is garbage at one key. */
  lemma KeyGarbage(s: Store, sp: Timestamp, collapse: bool, v: VKey)
    ensures IsGarbage(s, sp, collapse, v) <==>
              && Keeper(s, v.key, sp).Some?
              && (|| v.ts in OlderThan(s.committed.Keys, v.key, Keeper(s, v.key, sp).value)
                  || (v.ts == Keeper(s, v.key, sp).value && Collapsible(s, sp, collapse, v.key)))
  {
    hide VisibleTs;
    if Keeper(s, v.key, sp).Some? {
      var top := Keeper(s, v.key, sp).value;
      assert v == VKey(v.key, v.ts);
      if v.ts in OlderThan(s.committed.Keys, v.key, top) {
        var w :| w in s.committed && w.key == v.key && w.ts < top && w.ts == v.ts;
        assert w == v;
      }
    }
  }

  /** All obsolete versions of the key are gone, and the keeper is there to stay. */
  lemma OlderGone(s: Store, sp: Timestamp, collapse: bool, k: Key, tss: seq<Timestamp>, t: Store)
    requires Keeper(s, k, sp).Some? && !Collapsible(s, sp, collapse, k)
    requires forall u :: u in OlderThan(s.committed.Keys, k, Keeper(s, k, sp).value) ==> u in tss
    requires t == s.(committed := s.committed - VersionSet(k, tss))
    ensures Clean(s, t, sp, collapse, [k])
  {
    hide VisibleTs;
    forall v: VKey | v.key in [k] && IsGarbage(s, sp, collapse, v) ensures v !in t.committed {
      KeyGarbage(s, sp, collapse, v);
      assert v == VKey(k, v.ts);
    }
  }

  /** Garbage is left at the key: the oldest obsolete versions, or at least a tombstone that may go. */
  lemma OlderLeft(s: Store, sp: Timestamp, collapse: bool, k: Key, tss: seq<Timestamp>, limit: nat, t: Store)
    requires Keeper(s, k, sp).Some?
    requires IsFirst(tss, OlderThan(s.committed.Keys, k, Keeper(s, k, sp).value), limit, Newer)
    requires || Collapsible(s, sp, collapse, k)
             || exists u :: u in OlderThan(s.committed.Keys, k, Keeper(s, k, sp).value) && u !in tss
    requires t == s.(committed := s.committed - VersionSet(k, tss))
    ensures PartlyClean(s, t, sp, collapse, k)
  {
    hide VisibleTs;
    var top := Keeper(s, k, sp).value;
    var left: Timestamp;
    if u :| u in OlderThan(s.committed.Keys, k, top) && u !in tss { left := u; } else { left := top; }
    KeyGarbage(s, sp, collapse, VKey(k, left));
    assert top !in tss by { assert top in tss ==> top in OlderThan(s.committed.Keys, k, top); }
    assert VKey(k, left) in t.committed;
    forall v, u | Removed(s, t, v) && v.key == k && u in t.committed && u.key == k && Obsolete(s, sp, u)
      ensures u.ts < v.ts
    {
      assert v == VKey(k, v.ts) && u == VKey(k, u.ts);
      assert u.ts in OlderThan(s.committed.Keys, k, top) && u.ts !in tss;
    }
  }

  /** Taking fewer of the first elements. */
  lemma FewerFirst(tss: seq<Timestamp>, all: set<Timestamp>, limit: nat)
    requires IsFirst(tss, all, limit + 1, Newer) && |tss| == limit + 1
    ensures IsFirst(tss[..limit], all, limit, Newer)
    ensures tss[limit] in all && tss[limit] !in tss[..limit]
  {
    forall j | 0 <= j < limit ensures tss[j] in tss[..limit] { assert tss[..limit][j] == tss[j]; }
    forall x | x in all && x !in tss[..limit] ensures forall y :: y in tss[..limit] ==> Newer(y, x) {
      if x in tss {
        var j :| 0 <= j < |tss| && tss[j] == x;
      }
    }
    assert tss[limit] in tss;
  }

  /** How far a scan has come, and whether it stopped at its last key for want of budget. */
  ghost predicate Progress(s: Store, sp: Timestamp, o: GcOptions, keys: seq<Key>, exhausted: bool, t: Store, vs: nat,
                           vr: nat, ip: nat)
  {
    && Scanned(s, sp, o, keys, t, vs, vr, ip)
    && if exhausted then
         && keys != []
         && vr == o.maxVersions
         && Clean(s, t, sp, o.collapse, keys[..|keys| - 1])
         && PartlyClean(s, t, sp, o.collapse, keys[|keys| - 1])
       else Clean(s, t, sp, o.collapse, keys)
  }

  lemma ProgressStarts(s: Store, sp: Timestamp, o: GcOptions)
    ensures Progress(s, sp, o, [], false, s, 0, 0, 0)
  {
    assert Locked(s, []) == {} && WithKeeper(s, sp, []) == {} && ObsoleteRemoved(s, s, sp) == {};
  }

  /** Processing the next key extends the scan. */
  lemma ProgressExtends(s: Store, sp: Timestamp, o: GcOptions, keys: seq<Key>, k: Key, t: Store, vs: nat, vr: nat,
                        ip: nat, u: Store, scanned: nat, removed: nat, exhausted: bool)
    requires Progress(s, sp, o, keys, false, t, vs, vr, ip) && k !in keys
    requires vr <= o.maxVersions && KeyStep(t, sp, o.collapse, k, o.maxVersions - vr, u, scanned, removed, exhausted)
    ensures Progress(s, sp, o, keys + [k], exhausted, u, vs + scanned, vr + removed,
                     ip + if k in s.intents then 1 else 0)
  {
    hide Scanned, Prunes, TouchesOnly, PartlyClean, IsGarbage, Obsolete;
    ScanExtends(s, sp, o, keys, k, t, u, vs, vr, ip, scanned, removed);
    ScanUntouched(s, sp, o, keys, k, t, vs, vr, ip);
    StaysClean(s, t, u, sp, o.collapse, keys);
    assert (keys + [k])[..|keys|] == keys;
    if exhausted {
      LeftAt(s, t, u, sp, o.collapse, k);
    } else {
      forall v: VKey | v.key in keys + [k] && IsGarbage(s, sp, o.collapse, v) ensures v !in u.committed {
        assert v.key in keys || v.key in [k];
      }
    }
  }

  lemma ScanUntouched(s: Store, sp: Timestamp, o: GcOptions, keys: seq<Key>, k: Key, t: Store, vs: nat, vr: nat,
                      ip: nat)
    requires Scanned(s, sp, o, keys, t, vs, vr, ip) && k !in keys
    ensures forall v: VKey :: v.key == k ==> (v in s.committed <==> v in t.committed)
    ensures forall v: VKey :: v.key == k ==> (IsGarbage(s, sp, o.collapse, v) <==> IsGarbage(t, sp, o.collapse, v))
    ensures forall v: VKey :: v.key == k ==> (Obsolete(s, sp, v) <==> Obsolete(t, sp, v))
  {
    UntouchedKey(s, t, sp, o.collapse, k);
  }

  lemma StaysClean(s: Store, t: Store, u: Store, sp: Timestamp, collapse: bool, keys: seq<Key>)
    requires Clean(s, t, sp, collapse, keys) && Prunes(t, u, sp, collapse)
    ensures Clean(s, u, sp, collapse, keys)
  {
    hide IsGarbage;
  }

  lemma LeftAt(s: Store, t: Store, u: Store, sp: Timestamp, collapse: bool, k: Key)
    requires PartlyClean(t, u, sp, collapse, k)
    requires forall v: VKey :: v.key == k ==> (v in s.committed <==> v in t.committed)
    requires forall v: VKey :: v.key == k ==> (IsGarbage(s, sp, collapse, v) <==> IsGarbage(t, sp, collapse, v))
    requires forall v: VKey :: v.key == k ==> (Obsolete(s, sp, v) <==> Obsolete(t, sp, v))
    ensures PartlyClean(s, u, sp, collapse, k)
  {
    hide IsGarbage, Obsolete;
    var v :| v in u.committed && v.key == k && IsGarbage(t, sp, collapse, v);
    assert IsGarbage(s, sp, collapse, v);
    forall v, w | Removed(s, u, v) && v.key == k && w in u.committed && w.key == k && Obsolete(s, sp, w)
      ensures w.ts < v.ts
    {
      assert Removed(t, u, v);
    }
  }

  /** A scan that covered its keys, or stopped for want of budget, makes a step. */
  lemma ProgressIsStep(s: Store, sp: Timestamp, start: Option<Key>, o: GcOptions, n: nat, exhausted: bool, t: Store,
                       r: IncrementalGcResult)
    requires n <= |Scan(s, start)| && n <= o.maxKeys
    requires Progress(s, sp, o, Scan(s, start)[..n], exhausted, t, r.versionsScanned, r.versionsRemoved,
                      r.intentsPreserved)
    requires exhausted || n == |Scan(s, start)| || n == o.maxKeys
    requires r.keysScanned == n
    requires r.done <==> !exhausted && n == |Scan(s, start)|
    requires r.nextKey ==
               if r.done then None
               else if exhausted && n > 0 then Some(Scan(s, start)[n - 1])
               else if n < |Scan(s, start)| then Some(Scan(s, start)[n])
               else None
    ensures GcStep(s, sp, start, o, t, r)
  {
    hide Scanned, Clean, PartlyClean, Scan;
    var keys := Scan(s, start);
    assert keys[..|keys|] == keys;
    if exhausted {
      assert keys[..n][..n - 1] == keys[..n - 1];
      assert n < |keys| ==> keys[n - 1] != keys[n] by { AscendingDistinct(keys); }
    }
  }
}
