/** What a caller may rely on in one budgeted step: reads, accounts, and that the budget leaves it no choice. */
module GcLaws {
  import opened Types
  import opened Bytes
  import opened Ordered
  import opened History
  import opened Gc

  /**
    One step from any cursor under any budget: permitted reads do not change, without collapse not
    even their version; a key that loses its keeper loses every version with it, and read as absent.
   */
  lemma GcStepKeepsReads(s: Store, sp: Timestamp, start: Option<Key>, o: GcOptions, t: Store, r: IncrementalGcResult,
                         k: Key, at: Timestamp)
    requires GcStep(s, sp, start, o, t, r) && at >= sp
    ensures Read(t.committed, k, at) == Read(s.committed, k, at)
    ensures !o.collapse ==> ReadVersion(t.committed, k, at) == ReadVersion(s.committed, k, at)
    ensures Keeper(s, k, sp).Some? && VKey(k, Keeper(s, k, sp).value) !in t.committed ==>
              Read(s.committed, k, at) == None && forall u: Timestamp :: VKey(k, u) !in t.committed
  {
    hide VisibleTs, Prunes, Read, ReadVersion, Scan;
    PrunePreservesReads(s, t, sp, o.collapse, k, at);
    if Keeper(s, k, sp).Some? && VKey(k, Keeper(s, k, sp).value) !in t.committed {
      VanishedKey(s, t, sp, o.collapse, k, at);
    }
  }

  lemma VanishedKey(s: Store, t: Store, sp: Timestamp, collapse: bool, k: Key, at: Timestamp)
    requires Prunes(s, t, sp, collapse) && at >= sp
    requires Keeper(s, k, sp).Some? && VKey(k, Keeper(s, k, sp).value) !in t.committed
    ensures Read(s.committed, k, at) == None && forall u: Timestamp :: VKey(k, u) !in t.committed
  {
    hide VisibleTs;
    var top := VKey(k, Keeper(s, k, sp).value);
    assert Removed(s, t, top) && IsKeeper(s, sp, top);
    assert forall u: Timestamp :: VKey(k, u) in t.committed ==> VKey(k, u).key != top.key;
    PrunePreservesReads(s, t, sp, collapse, k, at);
    assert VisibleTs(t.committed.Keys, k, at).None?;
  }

  /** The accounts of one step. */
  lemma GcStepAccounts(s: Store, sp: Timestamp, start: Option<Key>, o: GcOptions, t: Store, r: IncrementalGcResult)
    requires GcStep(s, sp, start, o, t, r)
    ensures r.versionsRemoved == |s.committed| - |t.committed| <= o.maxVersions
    ensures r.keysScanned <= o.maxKeys && r.intentsPreserved <= r.keysScanned
    ensures r.versionsScanned <= r.keysScanned + r.versionsRemoved
    ensures t.intents == s.intents
  {
    hide Clean, PartlyClean, Scan, Scanned;
    ScannedAccounts(s, sp, o, Scan(s, start)[..r.keysScanned], t, r.versionsScanned, r.versionsRemoved,
                    r.intentsPreserved);
  }

  lemma ScannedAccounts(s: Store, sp: Timestamp, o: GcOptions, keys: seq<Key>, t: Store, vs: nat, vr: nat, ip: nat)
    requires Scanned(s, sp, o, keys, t, vs, vr, ip)
    ensures vr == |s.committed| - |t.committed| <= o.maxVersions
    ensures ip <= |keys| && vs <= |keys| + vr && t.intents == s.intents
  {
    hide TouchesOnly, IsGarbage, IsKeeper, Obsolete, Keeper;
    GoneCount(s, t, sp, o.collapse);
    SubsetSize(ObsoleteRemoved(s, t, sp), Gone(s, t));
    var all := set k | k in keys;
    AtMostLength(keys);
    SubsetSize(WithKeeper(s, sp, keys), all);
    SubsetSize(Locked(s, keys), all);
  }

  lemma {:induction false} AtMostLength(keys: seq<Key>)
    ensures |set k | k in keys| <= |keys|
  {
    if keys != [] {
      var n := |keys| - 1;
      AtMostLength(keys[..n]);
      assert keys == keys[..n] + [keys[n]];
      assert (set k | k in keys) == (set k | k in keys[..n]) + {keys[n]};
    }
  }

  // ----- a step is determined by its inputs -----

  ghost function Gone(s: Store, t: Store): set<VKey> {
    s.committed.Keys - t.committed.Keys
  }

  ghost predicate Sound(s: Store, sp: Timestamp, o: GcOptions, keys: seq<Key>, t: Store) {
    Prunes(s, t, sp, o.collapse) && TouchesOnly(s, t, keys) && |Gone(s, t)| <= o.maxVersions
  }

  /** Out of budget at the last of the keys, with garbage left there. */
  ghost predicate Stopped(s: Store, sp: Timestamp, o: GcOptions, keys: seq<Key>, t: Store) {
    && keys != []
    && |Gone(s, t)| == o.maxVersions
    && Clean(s, t, sp, o.collapse, keys[..|keys| - 1])
    && PartlyClean(s, t, sp, o.collapse, keys[|keys| - 1])
  }

  /** A scan that stopped removed less than any scan that cleaned the same keys. */
  lemma StoppedEarlier(s: Store, sp: Timestamp, o: GcOptions, keys: seq<Key>, t: Store, u: Store)
    requires Sound(s, sp, o, keys, t) && Stopped(s, sp, o, keys, t) && Clean(s, u, sp, o.collapse, keys)
    ensures |Gone(s, u)| > o.maxVersions
  {
    hide Clean, IsGarbage, Sound;
    CleanTakesMore(s, sp, o, keys, t, u);
    var k := keys[|keys| - 1];
    var v :| v in t.committed && v.key == k && IsGarbage(s, sp, o.collapse, v);
    CleanTakes(s, sp, o, keys, u, v);
    SubsetSize(Gone(s, t) + {v}, Gone(s, u));
  }

  lemma CleanTakes(s: Store, sp: Timestamp, o: GcOptions, keys: seq<Key>, u: Store, v: VKey)
    requires Clean(s, u, sp, o.collapse, keys) && v.key in keys && IsGarbage(s, sp, o.collapse, v)
    ensures v in Gone(s, u)
  {
    hide Keeper, Collapsible;
  }

  lemma CleanTakesMore(s: Store, sp: Timestamp, o: GcOptions, keys: seq<Key>, t: Store, u: Store)
    requires Sound(s, sp, o, keys, t) && Clean(s, u, sp, o.collapse, keys)
    ensures Gone(s, t) <= Gone(s, u)
  {
    hide Clean, IsGarbage;
    forall w | w in Gone(s, t) ensures w in Gone(s, u) {
      assert Removed(s, t, w);
      CleanTakes(s, sp, o, keys, u, w);
    }
  }

  /** Two scans that cleaned the same keys removed the same. */
  lemma BothClean(s: Store, sp: Timestamp, o: GcOptions, keys: seq<Key>, t: Store, u: Store)
    requires Sound(s, sp, o, keys, t) && Clean(s, t, sp, o.collapse, keys)
    requires Sound(s, sp, o, keys, u) && Clean(s, u, sp, o.collapse, keys)
    ensures t == u
  {
    hide Prunes, Clean, TouchesOnly, Gone;
    CleanTakesMore(s, sp, o, keys, t, u);
    CleanTakesMore(s, sp, o, keys, u, t);
    SameGone(s, sp, o.collapse, t, u);
  }

  lemma SameGone(s: Store, sp: Timestamp, collapse: bool, t: Store, u: Store)
    requires Prunes(s, t, sp, collapse) && Prunes(s, u, sp, collapse) && Gone(s, t) == Gone(s, u)
    ensures t == u
  {
    hide IsGarbage, Obsolete;
    forall v ensures v in t.committed <==> v in u.committed {
      assert v in s.committed ==> (v in Gone(s, t) <==> v !in t.committed);
      assert v in s.committed ==> (v in Gone(s, u) <==> v !in u.committed);
    }
    assert t.committed == u.committed;
  }

  /** Where garbage is left at a key, what was removed there is obsolete. */
  lemma RemovedIsObsolete(s: Store, sp: Timestamp, collapse: bool, t: Store, k: Key, v: VKey)
    requires Prunes(s, t, sp, collapse) && PartlyClean(s, t, sp, collapse, k)
    requires v.key == k && Removed(s, t, v)
    ensures Obsolete(s, sp, v)
  {
    hide Keeper;
    var left :| left in t.committed && left.key == k;
    assert IsGarbage(s, sp, collapse, v);
  }

  /** Two scans that stopped at the same key removed the same versions: as many, and the newest. */
  lemma BothStopped(s: Store, sp: Timestamp, o: GcOptions, keys: seq<Key>, t: Store, u: Store)
    requires Sound(s, sp, o, keys, t) && Stopped(s, sp, o, keys, t)
    requires Sound(s, sp, o, keys, u) && Stopped(s, sp, o, keys, u)
    ensures t == u
  {
    hide Prunes, TouchesOnly, Clean, PartlyClean, Gone;
    NewestGone(s, sp, o, keys, t, u);
    if Gone(s, t) <= Gone(s, u) {
      EqualSize(Gone(s, t), Gone(s, u));
    } else {
      EqualSize(Gone(s, u), Gone(s, t));
    }
    SameGone(s, sp, o.collapse, t, u);
  }

  lemma EqualSize(a: set<VKey>, b: set<VKey>)
    requires a <= b && |a| == |b|
    ensures a == b
  {
    if v :| v in b && v !in a { SubsetSize(a + {v}, b); }
  }

  lemma NewestGone(s: Store, sp: Timestamp, o: GcOptions, keys: seq<Key>, t: Store, u: Store)
    requires Sound(s, sp, o, keys, t) && Stopped(s, sp, o, keys, t)
    requires Sound(s, sp, o, keys, u) && Stopped(s, sp, o, keys, u)
    ensures Gone(s, t) <= Gone(s, u) || Gone(s, u) <= Gone(s, t)
  {
    hide Sound, Stopped, Obsolete;
    if v :| v in Gone(s, t) && v !in Gone(s, u) {
      StoppedVersion(s, sp, o, keys, t, u, v);
      forall w | w in Gone(s, u) ensures w in Gone(s, t) {
        if w !in Gone(s, t) {
          StoppedVersion(s, sp, o, keys, u, t, w);
          OlderStays(s, sp, o, keys, t, v, w);
          OlderStays(s, sp, o, keys, u, w, v);
        }
      }
    }
  }

  /** What only one of two stopped scans removed is an obsolete version of the key where they stopped. */
  lemma StoppedVersion(s: Store, sp: Timestamp, o: GcOptions, keys: seq<Key>, t: Store, u: Store, v: VKey)
    requires Sound(s, sp, o, keys, t) && Stopped(s, sp, o, keys, t) && Stopped(s, sp, o, keys, u)
    requires v in Gone(s, t) && v !in Gone(s, u)
    ensures keys != [] && v.key == keys[|keys| - 1] && Obsolete(s, sp, v)
  {
    hide Prunes, TouchesOnly, Clean, PartlyClean, Obsolete;
    StoppedWhere(s, sp, o, keys, t, u, v);
    RemovedIsObsolete(s, sp, o.collapse, t, keys[|keys| - 1], v);
  }

  lemma OlderStays(s: Store, sp: Timestamp, o: GcOptions, keys: seq<Key>, t: Store, v: VKey, w: VKey)
    requires Stopped(s, sp, o, keys, t) && v.key == w.key == keys[|keys| - 1] && Obsolete(s, sp, w)
    requires v in Gone(s, t) && w !in Gone(s, t)
    ensures w.ts < v.ts
  {
    hide IsGarbage, Clean, Keeper;
    assert Removed(s, t, v) && w in t.committed;
  }

  /** Two stopped scans can differ only at the key where they stopped. */
  lemma StoppedWhere(s: Store, sp: Timestamp, o: GcOptions, keys: seq<Key>, t: Store, u: Store, v: VKey)
    requires Sound(s, sp, o, keys, t) && Stopped(s, sp, o, keys, u)
    requires v in Gone(s, t) && v !in Gone(s, u)
    ensures v.key == keys[|keys| - 1]
  {
    hide IsGarbage, PartlyClean;
    var front := keys[..|keys| - 1];
    assert Removed(s, t, v);
    assert keys == front + [keys[|keys| - 1]];
    assert v.key in front ==> v !in u.committed;
  }

  /** The two ways a step can end. */
  ghost predicate Ended(s: Store, sp: Timestamp, start: Option<Key>, o: GcOptions, t: Store, r: IncrementalGcResult,
                        stopped: bool)
  {
    var keys, n := Scan(s, start), r.keysScanned;
    && n <= |keys| && n <= o.maxKeys
    && Sound(s, sp, o, keys[..n], t)
    && if stopped then Stopped(s, sp, o, keys[..n], t) && !r.done && r.nextKey == Some(keys[n - 1])
       else
         && Clean(s, t, sp, o.collapse, keys[..n])
         && (n == |keys| || n == o.maxKeys)
         && r.done == (n == |keys|)
         && r.nextKey == if n == |keys| then None else Some(keys[n])
  }

  lemma GcStepEnds(s: Store, sp: Timestamp, start: Option<Key>, o: GcOptions, t: Store, r: IncrementalGcResult)
    returns (stopped: bool)
    requires GcStep(s, sp, start, o, t, r)
    ensures Ended(s, sp, start, o, t, r, stopped)
  {
    hide Sound, Scanned, Clean, PartlyClean, Scan, Gone;
    var keys, n := Scan(s, start), r.keysScanned;
    ScannedSound(s, sp, o, keys[..n], t, r.versionsScanned, r.versionsRemoved, r.intentsPreserved);
    assert keys[..|keys|] == keys;
    stopped := !r.done && !(n == o.maxKeys < |keys| && r.nextKey == Some(keys[n]));
    if stopped { assert keys[..n][..n - 1] == keys[..n - 1]; }
  }

  lemma ScannedSound(s: Store, sp: Timestamp, o: GcOptions, keys: seq<Key>, t: Store, vs: nat, vr: nat, ip: nat)
    requires Scanned(s, sp, o, keys, t, vs, vr, ip)
    ensures Sound(s, sp, o, keys, t) && |Gone(s, t)| == vr
  {
    hide Prunes, TouchesOnly;
    GoneCount(s, t, sp, o.collapse);
  }

  lemma GoneCount(s: Store, t: Store, sp: Timestamp, collapse: bool)
    requires Prunes(s, t, sp, collapse)
    ensures |Gone(s, t)| == |s.committed| - |t.committed|
  {
    hide IsGarbage;
    assert t.committed.Keys == s.committed.Keys - Gone(s, t);
    SubsetSize(Gone(s, t), s.committed.Keys);
  }

  lemma CleanFront(s: Store, t: Store, sp: Timestamp, collapse: bool, keys: seq<Key>, n: nat, m: nat)
    requires n <= m <= |keys| && Clean(s, t, sp, collapse, keys[..m])
    ensures Clean(s, t, sp, collapse, keys[..n])
  {
    hide IsGarbage;
    assert keys[..m][..n] == keys[..n];
  }

  /** A step cleaned every key but the one it stopped at. */
  lemma EndedCleans(s: Store, sp: Timestamp, start: Option<Key>, o: GcOptions, u: Store, r: IncrementalGcResult,
                    b: bool, n: nat)
    requires Ended(s, sp, start, o, u, r, b) && n <= (if b then r.keysScanned - 1 else r.keysScanned)
    ensures Clean(s, u, sp, o.collapse, Scan(s, start)[..n]) && |Gone(s, u)| <= o.maxVersions
  {
    hide Clean, PartlyClean, Prunes, TouchesOnly, Scan, Gone;
    var keys, m := Scan(s, start), r.keysScanned;
    if b { assert keys[..m][..m - 1] == keys[..m - 1]; }
    CleanFront(s, u, sp, o.collapse, keys, n, if b then m - 1 else m);
  }

  /** No step ends before another does. */
  lemma NotEarlier(s: Store, sp: Timestamp, start: Option<Key>, o: GcOptions, t: Store, q: IncrementalGcResult,
                   a: bool, u: Store, r: IncrementalGcResult, b: bool)
    requires Ended(s, sp, start, o, t, q, a) && Ended(s, sp, start, o, u, r, b)
    ensures q.keysScanned >= r.keysScanned
    ensures q.keysScanned == r.keysScanned && a ==> b
  {
    hide Sound, Stopped, Clean, Scan, Gone;
    var keys, n, m := Scan(s, start), q.keysScanned, r.keysScanned;
    if a && (n < m || (n == m && !b)) {
      EndedCleans(s, sp, start, o, u, r, b, n);
      StoppedEarlier(s, sp, o, keys[..n], t, u);
    }
  }

  /**
    The budget leaves a step no choice: whatever it may do, it reaches one store and reports one
    result. Within the last key it takes obsolete versions from the newest down.
   */
  lemma GcStepDeterministic(s: Store, sp: Timestamp, start: Option<Key>, o: GcOptions, t: Store,
                            q: IncrementalGcResult, u: Store, r: IncrementalGcResult)
    requires GcStep(s, sp, start, o, t, q) && GcStep(s, sp, start, o, u, r)
    ensures t == u && q == r
  {
    hide Ended, Scan, Prunes, Clean, PartlyClean, TouchesOnly;
    var a := GcStepEnds(s, sp, start, o, t, q);
    var b := GcStepEnds(s, sp, start, o, u, r);
    NotEarlier(s, sp, start, o, t, q, a, u, r, b);
    NotEarlier(s, sp, start, o, u, r, b, t, q, a);
    SameEnd(s, sp, start, o, t, q, u, r, a);
  }

  lemma SameEnd(s: Store, sp: Timestamp, start: Option<Key>, o: GcOptions, t: Store, q: IncrementalGcResult,
                u: Store, r: IncrementalGcResult, a: bool)
    requires Ended(s, sp, start, o, t, q, a) && Ended(s, sp, start, o, u, r, a) && q.keysScanned == r.keysScanned
    ensures t == u && q.done == r.done && q.nextKey == r.nextKey
  {
    hide Sound, Stopped, Clean, Scan;
    var keys := Scan(s, start)[..q.keysScanned];
    if a {
      BothStopped(s, sp, o, keys, t, u);
    } else {
      BothClean(s, sp, o, keys, t, u);
    }
  }
}
