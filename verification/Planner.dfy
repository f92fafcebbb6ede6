/** `plan_key_gc`: bounded plans for one key, and what applying them until one is complete achieves. */
module Planner {
  import opened Types
  import opened Arithmetic
  import opened Ordered
  import opened History
  import opened Gc

  /** The obsolete versions of a key. */
  ghost function Debt(s: Store, sp: Timestamp, k: Key): set<Timestamp> {
    match Keeper(s, k, sp)
    case None => {}
    case Some(keeper) => OlderThan(s.committed.Keys, k, keeper)
  }

  /** What a plan for `k` says. */
  ghost predicate IsPlan(s: Store, sp: Timestamp, o: KeyGcOptions, k: Key, plan: KeyGcPlan) {
    && plan.key == k
    && IsFirst(plan.versionsToRemove, Debt(s, sp, k), o.maxVersionsExamined, Newer)
    && plan.versionsExamined == |plan.versionsToRemove|
    && plan.complete == (|plan.versionsToRemove| < o.maxVersionsExamined)
    && plan.collapseTombstone == if Collapsible(s, sp, o.collapse, k) && plan.complete then Keeper(s, k, sp) else None
  }

  /** Removing what the plan names, the tombstone together with the older versions. */
  ghost function Applied(s: Store, plan: KeyGcPlan): Store {
    var tombstone := if plan.collapseTombstone.Some? then {VKey(plan.key, plan.collapseTombstone.value)} else {};
    s.(committed := s.committed - tombstone - VersionSet(plan.key, plan.versionsToRemove))
  }

  /** `t` is `s` with the garbage of `k`, and only that, collected. */
  ghost predicate KeyCollected(s: Store, sp: Timestamp, collapse: bool, k: Key, t: Store) {
    && t.intents == s.intents
    && (forall v :: v in t.committed <==> v in s.committed && !(v.key == k && IsGarbage(s, sp, collapse, v)))
    && (forall v :: v in t.committed ==> t.committed[v] == s.committed[v])
  }

  /** A page is a sound partial collection; the debt left is the debt it did not name. */
  lemma PageIsSound(s: Store, sp: Timestamp, o: KeyGcOptions, k: Key, plan: KeyGcPlan)
    requires IsPlan(s, sp, o, k, plan)
    ensures Prunes(s, Applied(s, plan), sp, o.collapse) && TouchesOnly(s, Applied(s, plan), [k])
    ensures plan.complete ==> KeyCollected(s, sp, o.collapse, k, Applied(s, plan))
    ensures !plan.complete ==> Debt(Applied(s, plan), sp, k) == Debt(s, sp, k) - (set u | u in plan.versionsToRemove)
  {
    hide VisibleTs, OlderThan, VersionSet, Prunes, TouchesOnly, Clean, KeyCollected, Collapsible;
    var t, tss := Applied(s, plan), plan.versionsToRemove;
    if Keeper(s, k, sp).None? {
      NothingToCollect(s, sp, o.collapse, k);
      NoneListed(tss, o.maxVersionsExamined);
      NoVersions(k);
      assert t == s;
    } else if plan.collapseTombstone.Some? {
      PageOfAll(s, sp, o, k, tss, t);
    } else {
      assert t.committed == s.committed - VersionSet(k, tss);
      PageOfOlder(s, sp, o, k, tss, t, plan.complete);
    }
  }

  lemma PageOfAll(s: Store, sp: Timestamp, o: KeyGcOptions, k: Key, tss: seq<Timestamp>, t: Store)
    requires Collapsible(s, sp, o.collapse, k) && IsFirst(tss, Debt(s, sp, k), o.maxVersionsExamined, Newer)
    requires |tss| < o.maxVersionsExamined
    requires t == s.(committed := s.committed - {VKey(k, Keeper(s, k, sp).value)} - VersionSet(k, tss))
    ensures Prunes(s, t, sp, o.collapse) && TouchesOnly(s, t, [k])
    ensures KeyCollected(s, sp, o.collapse, k, t)
  {
    hide VisibleTs, OlderThan, VersionSet, Prunes, TouchesOnly, Clean, KeyCollected;
    DropAll(s, sp, o.collapse, k, tss, t);
    CleanIsCollected(s, sp, o.collapse, k, t);
  }

  lemma PageOfOlder(s: Store, sp: Timestamp, o: KeyGcOptions, k: Key, tss: seq<Timestamp>, t: Store, complete: bool)
    requires Keeper(s, k, sp).Some? && IsFirst(tss, Debt(s, sp, k), o.maxVersionsExamined, Newer)
    requires complete ==> |tss| < o.maxVersionsExamined && !Collapsible(s, sp, o.collapse, k)
    requires t == s.(committed := s.committed - VersionSet(k, tss))
    ensures Prunes(s, t, sp, o.collapse) && TouchesOnly(s, t, [k])
    ensures complete ==> KeyCollected(s, sp, o.collapse, k, t)
    ensures !complete ==> Debt(t, sp, k) == Debt(s, sp, k) - (set u | u in tss)
  {
    hide VisibleTs, OlderThan, VersionSet, Prunes, TouchesOnly, Clean, KeyCollected, Collapsible;
    DropOlder(s, sp, o.collapse, k, tss, t);
    if complete {
      OlderGone(s, sp, o.collapse, k, tss, t);
      CleanIsCollected(s, sp, o.collapse, k, t);
    } else {
      DebtLeft(s, sp, o.collapse, k, tss, t);
    }
  }

  lemma NoneListed(tss: seq<Timestamp>, limit: nat)
    requires IsFirst(tss, {}, limit, Newer)
    ensures tss == []
  {
    NewerIsOrder();
    IsFirstSize(tss, {}, limit, Newer);
  }

  lemma NoVersions(k: Key)
    ensures VersionSet(k, []) == {}
  {
  }

  lemma NothingToCollect(s: Store, sp: Timestamp, collapse: bool, k: Key)
    requires Keeper(s, k, sp).None?
    ensures Prunes(s, s, sp, collapse) && TouchesOnly(s, s, [k]) && KeyCollected(s, sp, collapse, k, s)
  {
    hide VisibleTs;
    forall v: VKey | v.key == k ensures !IsGarbage(s, sp, collapse, v) {}
  }

  lemma CleanIsCollected(s: Store, sp: Timestamp, collapse: bool, k: Key, t: Store)
    requires Prunes(s, t, sp, collapse) && TouchesOnly(s, t, [k]) && Clean(s, t, sp, collapse, [k])
    ensures KeyCollected(s, sp, collapse, k, t)
  {
    hide IsGarbage;
    forall v | v in s.committed && !(v.key == k && IsGarbage(s, sp, collapse, v)) ensures v in t.committed {
      assert Removed(s, t, v) ==> v.key in [k];
    }
    assert k in [k];
  }

  lemma DebtLeft(s: Store, sp: Timestamp, collapse: bool, k: Key, tss: seq<Timestamp>, t: Store)
    requires Keeper(s, k, sp).Some? && Prunes(s, t, sp, collapse)
    requires forall u :: u in tss ==> u in Debt(s, sp, k)
    requires t == s.(committed := s.committed - VersionSet(k, tss))
    ensures Debt(t, sp, k) == Debt(s, sp, k) - (set u | u in tss)
  {
    hide VisibleTs;
    var top := Keeper(s, k, sp).value;
    assert top !in tss by { assert top in tss ==> top in OlderThan(s.committed.Keys, k, top); }
    PruneKeeps(s, t, sp, collapse, VKey(k, top));
    forall u: Timestamp ensures u in Debt(t, sp, k) <==> u in Debt(s, sp, k) && u !in tss {
      if u in Debt(t, sp, k) {
        var v :| v in t.committed && v.key == k && v.ts < top && v.ts == u;
        assert v == VKey(k, u);
      }
      if u in Debt(s, sp, k) && u !in tss {
        var v :| v in s.committed && v.key == k && v.ts < top && v.ts == u;
        assert v == VKey(k, u);
      }
    }
  }

  /** Pages planned and applied one after another, each but the first because the one before was incomplete. */
  ghost predicate Pages(stores: seq<Store>, plans: seq<KeyGcPlan>, sp: Timestamp, o: KeyGcOptions, k: Key) {
    && |stores| == |plans| + 1
    && forall i :: 0 <= i < |plans| ==>
         && IsPlan(stores[i], sp, o, k, plans[i])
         && stores[i + 1] == Applied(stores[i], plans[i])
         && (i < |plans| - 1 ==> !plans[i].complete)
  }

  /** A page is incomplete exactly when the debt fills it, and then it pays that much of the debt. */
  lemma PagePays(s: Store, sp: Timestamp, o: KeyGcOptions, k: Key, plan: KeyGcPlan)
    requires o.maxVersionsExamined > 0 && IsPlan(s, sp, o, k, plan)
    ensures plan.complete <==> |Debt(s, sp, k)| < o.maxVersionsExamined
    ensures !plan.complete ==> |Debt(Applied(s, plan), sp, k)| == |Debt(s, sp, k)| - o.maxVersionsExamined
  {
    hide Debt, Applied, Prunes, TouchesOnly, KeyCollected;
    var debt, got := Debt(s, sp, k), set u | u in plan.versionsToRemove;
    NewerIsOrder();
    IsFirstSize(plan.versionsToRemove, debt, o.maxVersionsExamined, Newer);
    PageIsSound(s, sp, o, k, plan);
    AscendingSize(plan.versionsToRemove, Newer);
    SubsetSize(got, debt);
  }

  /**
    Planning ends, whoever repeats it: of n obsolete versions in pages of m no more than floor(n / m) + 1
    plans can be made, and the last of that many, and no earlier one, is complete.
   */
  lemma {:induction false} PlanningEnds(stores: seq<Store>, plans: seq<KeyGcPlan>, sp: Timestamp, o: KeyGcOptions,
                                        k: Key)
    requires o.maxVersionsExamined > 0 && Pages(stores, plans, sp, o, k)
    ensures |plans| <= |Debt(stores[0], sp, k)| / o.maxVersionsExamined + 1
    ensures forall i :: 0 <= i < |plans| ==>
              (plans[i].complete <==> i == |Debt(stores[0], sp, k)| / o.maxVersionsExamined)
  {
    hide Debt, Applied, IsPlan;
    if plans != [] {
      var n, m := |Debt(stores[0], sp, k)|, o.maxVersionsExamined;
      assert IsPlan(stores[0], sp, o, k, plans[0]);
      PagePays(stores[0], sp, o, k, plans[0]);
      if plans[0].complete {
        assert n / m == 0 && |plans| == 1;
      } else {
        PagesTail(stores, plans, sp, o, k);
        PlanningEnds(stores[1..], plans[1..], sp, o, k);
        DivisionStep(n, m);
        assert n / m > 0;
        assert forall i :: 0 < i < |plans| ==> plans[1..][i - 1] == plans[i];
      }
    }
  }

  /**
    After every page all permitted reads are what they were, and nothing but the key's own garbage has
    gone; after a complete one the key is as full collection leaves it.
   */
  lemma {:induction false} PlanningDrains(stores: seq<Store>, plans: seq<KeyGcPlan>, sp: Timestamp, o: KeyGcOptions,
                                          k: Key, n: nat)
    requires o.maxVersionsExamined > 0 && Pages(stores, plans, sp, o, k) && n <= |plans|
    ensures Prunes(stores[0], stores[n], sp, o.collapse) && TouchesOnly(stores[0], stores[n], [k])
    ensures forall j: Key, at: Timestamp :: at >= sp ==>
              Read(stores[n].committed, j, at) == Read(stores[0].committed, j, at)
    ensures n > 0 && plans[n - 1].complete ==> KeyCollected(stores[0], sp, o.collapse, k, stores[n])
  {
    hide Prunes, TouchesOnly, KeyCollected, Debt, Applied, IsPlan, Read;
    if n == 0 {
      PruneReflexive(stores[0], sp, o.collapse);
      NothingTouched(stores[0], [k]);
    } else {
      PlanningDrains(stores, plans, sp, o, k, n - 1);
      PageIsSound(stores[n - 1], sp, o, k, plans[n - 1]);
      PruneTransitive(stores[0], stores[n - 1], stores[n], sp, o.collapse);
      StillTouchesOnly(stores[0], stores[n - 1], stores[n], k);
      if plans[n - 1].complete {
        CollectedAfterPage(stores[0], stores[n - 1], stores[n], sp, o.collapse, k);
      }
    }
    forall j: Key, at: Timestamp | at >= sp
      ensures Read(stores[n].committed, j, at) == Read(stores[0].committed, j, at)
    {
      PrunePreservesReads(stores[0], stores[n], sp, o.collapse, j, at);
    }
  }

  lemma NothingTouched(s: Store, keys: seq<Key>)
    ensures TouchesOnly(s, s, keys)
  {
  }

  lemma StillTouchesOnly(s: Store, t: Store, u: Store, k: Key)
    requires TouchesOnly(s, t, [k]) && TouchesOnly(t, u, [k])
    ensures TouchesOnly(s, u, [k])
  {
    assert forall v :: Removed(s, u, v) ==> Removed(s, t, v) || Removed(t, u, v);
  }

  lemma NewerIsOrder()
    ensures StrictOrder(Newer)
  {
  }

  lemma PruneReflexive(s: Store, sp: Timestamp, collapse: bool)
    ensures Prunes(s, s, sp, collapse)
  {
  }

  lemma PagesTail(stores: seq<Store>, plans: seq<KeyGcPlan>, sp: Timestamp, o: KeyGcOptions, k: Key)
    requires Pages(stores, plans, sp, o, k) && plans != []
    ensures Pages(stores[1..], plans[1..], sp, o, k)
  {
    hide IsPlan, Applied;
    forall i | 0 <= i < |plans| - 1
      ensures IsPlan(stores[1..][i], sp, o, k, plans[1..][i])
      ensures stores[1..][i + 1] == Applied(stores[1..][i], plans[1..][i])
      ensures i < |plans| - 2 ==> !plans[1..][i].complete
    {
      assert IsPlan(stores[i + 1], sp, o, k, plans[i + 1]) && stores[i + 2] == Applied(stores[i + 1], plans[i + 1]);
    }
  }

  lemma CollectedAfterPage(s: Store, t: Store, u: Store, sp: Timestamp, collapse: bool, k: Key)
    requires Prunes(s, t, sp, collapse) && TouchesOnly(s, t, [k]) && KeyCollected(t, sp, collapse, k, u)
    ensures KeyCollected(s, sp, collapse, k, u)
  {
    hide IsGarbage;
    forall v ensures v in u.committed <==> v in s.committed && !(v.key == k && IsGarbage(s, sp, collapse, v)) {
      PruneGarbage(s, t, sp, collapse, v);
      assert Removed(s, t, v) ==> v.key in [k] && IsGarbage(s, sp, collapse, v);
    }
  }

  /**
    Planning to completion agrees with a full collection: the key has the same versions with the same
    values, and every other key, and every intent, is as before.
   */
  lemma PlannerAgreesWithGc(stores: seq<Store>, plans: seq<KeyGcPlan>, sp: Timestamp, o: KeyGcOptions, k: Key, v: VKey)
    requires o.maxVersionsExamined > 0 && Pages(stores, plans, sp, o, k)
    requires plans != [] && plans[|plans| - 1].complete
    ensures var before, after, full := stores[0], stores[|plans|], Collected(stores[0], sp, o.collapse);
            && after.intents == before.intents == full.intents
            && var same := if v.key == k then full.committed else before.committed;
               (v in after.committed <==> v in same) && (v in after.committed ==> after.committed[v] == same[v])
  {
    hide IsGarbage, IsPlan, Applied, Prunes, TouchesOnly;
    PlanningDrains(stores, plans, sp, o, k, |plans|);
  }
}
