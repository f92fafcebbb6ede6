/** Incremental passes in a live system: between the calls of a pass, other steps of the run take place. */
module Passes {
  import opened Types
  import opened Bytes
  import opened History
  import opened Gc
  import opened Runs
  import opened LogInvariant
  import opened Theorems

  /** The step is a call of the pass at `sp`, from the cursor, and returned `r`. */
  ghost predicate Call(a: Sys, step: Step, b: Sys, sp: Timestamp, cursor: Option<Key>, r: IncrementalGcResult) {
    && step.GcIncremental? && step.safePointTs == sp && step.start == cursor
    && GcStep(a.store, sp, cursor, step.options, b.store, r)
  }

  /**
    The steps `at` of a run form one finished pass, each call resumed from the cursor the one before it
    returned, under budgets that may differ. Anything may happen in between, but for collections at a
    safe point above the pass's own: one that stops short may take a keeper and leave what it superseded.
   */
  ghost predicate Pass(states: seq<Sys>, steps: seq<Step>, at: seq<nat>, results: seq<IncrementalGcResult>,
                       sp: Timestamp)
    requires |states| == |steps| + 1
  {
    && |at| == |results| > 0
    && (forall i :: 0 <= i < |at| ==> at[i] < |steps|)
    && (forall i, j :: 0 <= i < j < |at| ==> at[i] < at[j])
    && (forall i :: 0 <= i < |at| ==>
          && Call(states[at[i]], steps[at[i]], states[at[i] + 1], sp, CursorOf(results, i), results[i])
          && (results[i].done <==> i == |at| - 1))
    && forall m :: at[0] <= m <= at[|at| - 1] && Collects(steps[m]) ==> SafePointOf(steps[m]) <= sp
  }

  ghost function CursorOf(results: seq<IncrementalGcResult>, i: nat): Option<Key>
    requires i < |results|
  {
    if i == 0 then None else results[i - 1].nextKey
  }

  // ----- what is gone stays gone -----

  lemma NextKeepsGone(a: Sys, step: Step, b: Sys, v: VKey)
    requires Inv(a) && Next(a, step, b) && Respects(a, step)
    requires v in a.log && v !in a.store.committed
    ensures v !in b.store.committed
  {
    hide StoreNext, Written, WriteTs, OriginOf, LockKeys, StartOf, Shape, NewGraves, IsGarbage, IsKeeper, Serial,
         GravesHold;
    if Collects(step) {
      CollectionShrinks(a, step, b);
    } else {
      MutationExtends(a, step, b);
      Added(a, b, Written(a.store, step), WriteTs(step), OriginOf(step), LockKeys(step), StartOf(step));
      if v.key in Written(a.store, step) {
        WritesAboveLog(a, b, Written(a.store, step), WriteTs(step), OriginOf(step), LockKeys(step), StartOf(step),
                       v.key);
        assert VKey(v.key, v.ts) in a.log.Keys;
      }
    }
  }

  /** A version that was once removed is never stored again. */
  lemma {:induction false} GoneStaysGone(states: seq<Sys>, steps: seq<Step>, i: nat, j: nat, v: VKey)
    requires Lawful(states, steps) && i <= j <= |steps|
    requires v in states[i].log && v !in states[i].store.committed
    ensures v !in states[j].store.committed
  {
    hide Inv, Next, Respects;
    if i < j {
      GoneStaysGone(states, steps, i, j - 1, v);
      LogGrows(states, steps, i, j - 1, v);
      RunInv(states, steps, j - 1);
      NextKeepsGone(states[j - 1], steps[j - 1], states[j], v);
    }
  }

  // ----- what is obsolete stays obsolete until it goes -----

  ghost predicate Doomed(a: Sys, sp: Timestamp, v: VKey) {
    v in a.log && (v in a.store.committed ==> Obsolete(a.store, sp, v))
  }

  lemma NextKeepsDoomed(a: Sys, step: Step, b: Sys, sp: Timestamp, v: VKey)
    requires Inv(a) && Next(a, step, b) && Respects(a, step) && Doomed(a, sp, v)
    requires Collects(step) ==> SafePointOf(step) <= sp
    ensures Doomed(b, sp, v)
  {
    hide Inv, Next, Respects;
    NextKeepsInv(a, step, b);
    if v in b.store.committed {
      if v !in a.store.committed { NextKeepsGone(a, step, b, v); }
      StillObsolete(a, step, b, sp, v);
    }
  }

  lemma StillObsolete(a: Sys, step: Step, b: Sys, sp: Timestamp, v: VKey)
    requires Next(a, step, b) && Obsolete(a.store, sp, v) && v in b.store.committed
    requires Collects(step) ==> SafePointOf(step) <= sp
    ensures Obsolete(b.store, sp, v)
  {
    hide StoreNext, Written, WriteTs, OriginOf, LockKeys, StartOf, NewGraves, Prunes, Extends, Keeper, Obsolete;
    if Collects(step) {
      CollectionShrinks(a, step, b);
      StillObsoleteAfter(a.store, b.store, SafePointOf(step), MayCollapse(step), sp, v);
    } else {
      MutationExtends(a, step, b);
      Added(a, b, Written(a.store, step), WriteTs(step), OriginOf(step), LockKeys(step), StartOf(step));
      StillObsoleteWith(a.store, b.store, sp, v);
    }
  }

  lemma StillObsoleteAfter(s: Store, t: Store, lower: Timestamp, collapse: bool, sp: Timestamp, v: VKey)
    requires Prunes(s, t, lower, collapse) && lower <= sp && Obsolete(s, sp, v) && v in t.committed
    ensures Obsolete(t, sp, v)
  {
    hide VisibleTs, Prunes;
    PruneKeepsVisible(s, t, lower, collapse, v, sp);
  }

  lemma StillObsoleteWith(s: Store, t: Store, sp: Timestamp, v: VKey)
    requires s.committed.Keys <= t.committed.Keys && Obsolete(s, sp, v)
    ensures Obsolete(t, sp, v)
  {
    hide VisibleTs;
    assert VKey(v.key, Keeper(s, v.key, sp).value) in t.committed;
  }

  lemma {:induction false} DoomedThrough(states: seq<Sys>, steps: seq<Step>, i: nat, j: nat, sp: Timestamp, v: VKey)
    requires Lawful(states, steps) && i <= j <= |steps| && Doomed(states[i], sp, v)
    requires forall m :: i <= m < j && Collects(steps[m]) ==> SafePointOf(steps[m]) <= sp
    ensures Doomed(states[j], sp, v)
  {
    hide Inv, Next, Respects, Doomed;
    if i < j {
      DoomedThrough(states, steps, i, j - 1, sp, v);
      RunInv(states, steps, j - 1);
      NextKeepsDoomed(states[j - 1], steps[j - 1], states[j], sp, v);
    }
  }

  // ----- the pass -----

  /** The version is gone if the call finished, or got past its key. */
  ghost predicate SweptPast(a: Sys, r: IncrementalGcResult, v: VKey) {
    r.done || (r.nextKey.Some? && Less(v.key, r.nextKey.value)) ==> v !in a.store.committed
  }

  lemma CallSweeps(a: Sys, step: Step, b: Sys, sp: Timestamp, cursor: Option<Key>, r: IncrementalGcResult, v: VKey)
    requires Call(a, step, b, sp, cursor, r) && Doomed(a, sp, v)
    requires cursor.Some? && Less(v.key, cursor.value) ==> v !in a.store.committed
    ensures SweptPast(b, r, v)
  {
    hide GcStep, VisibleTs, Keeper, Prunes;
    if v in a.store.committed {
      if r.done || (r.nextKey.Some? && Less(v.key, r.nextKey.value)) {
        PassedIsGone(a.store, sp, cursor, step.options, b.store, r, v);
      }
    } else {
      NotAdded(a.store, sp, cursor, step.options, b.store, r, v);
    }
  }

  lemma NotAdded(s: Store, sp: Timestamp, cursor: Option<Key>, o: GcOptions, t: Store, r: IncrementalGcResult, v: VKey)
    requires GcStep(s, sp, cursor, o, t, r) && v !in s.committed
    ensures v !in t.committed
  {
    hide Scan, Clean, PartlyClean, TouchesOnly, IsGarbage, IsKeeper;
  }

  /** What a pass says of its call `i` and of the steps since the call before. */
  lemma PassAt(states: seq<Sys>, steps: seq<Step>, at: seq<nat>, results: seq<IncrementalGcResult>, sp: Timestamp,
               i: nat)
    requires |states| == |steps| + 1 && Pass(states, steps, at, results, sp) && i < |at|
    ensures |results| == |at| && at[0] <= at[i] < |steps| && (i > 0 ==> at[i - 1] < at[i])
    ensures Call(states[at[i]], steps[at[i]], states[at[i] + 1], sp, CursorOf(results, i), results[i])
    ensures results[i].done <==> i == |at| - 1
    ensures forall m :: (if i == 0 then at[0] else at[i - 1] + 1) <= m <= at[i] && Collects(steps[m]) ==>
              SafePointOf(steps[m]) <= sp
  {
    hide Call, CursorOf;
  }

  lemma {:induction false} PassSweeps(states: seq<Sys>, steps: seq<Step>, at: seq<nat>,
                                      results: seq<IncrementalGcResult>, sp: Timestamp, v: VKey, i: nat)
    requires Lawful(states, steps) && Pass(states, steps, at, results, sp) && i < |at|
    requires Doomed(states[at[0]], sp, v)
    ensures Doomed(states[at[i] + 1], sp, v) && SweptPast(states[at[i] + 1], results[i], v)
  {
    hide Next, Respects, Pass, Doomed, Call, SweptPast;
    PassAt(states, steps, at, results, sp, i);
    var from := if i == 0 then at[0] else at[i - 1] + 1;
    if i > 0 { PassSweeps(states, steps, at, results, sp, v, i - 1); }
    DoomedThrough(states, steps, from, at[i], sp, v);
    DoomedThrough(states, steps, at[i], at[i] + 1, sp, v);
    var cursor := CursorOf(results, i);
    if i > 0 && cursor.Some? && Less(v.key, cursor.value) {
      DoomedLogged(states[from], sp, v);
      assert v !in states[from].store.committed by { SweptBefore(states[from], results[i - 1], v); }
      GoneStaysGone(states, steps, from, at[i], v);
    }
    CallSweeps(states[at[i]], steps[at[i]], states[at[i] + 1], sp, cursor, results[i], v);
  }

  lemma SweptBefore(a: Sys, r: IncrementalGcResult, v: VKey)
    requires SweptPast(a, r, v) && (r.done || (r.nextKey.Some? && Less(v.key, r.nextKey.value)))
    ensures v !in a.store.committed
  {
  }

  lemma DoomedLogged(a: Sys, sp: Timestamp, v: VKey)
    requires Doomed(a, sp, v)
    ensures v in a.log
  {
  }

  /**
    Once the calls of a pass report done, every version that was obsolete in the store where the pass
    began is gone for good, whatever ran between the calls and whatever their budgets.
   */
  lemma PassCollects(states: seq<Sys>, steps: seq<Step>, at: seq<nat>, results: seq<IncrementalGcResult>,
                     sp: Timestamp, v: VKey, j: nat)
    requires Lawful(states, steps) && Pass(states, steps, at, results, sp)
    requires Obsolete(states[at[0]].store, sp, v) && at[|at| - 1] < j <= |steps|
    ensures v !in states[j].store.committed
  {
    hide Next, Respects, Call, Obsolete;
    PassEnds(states, steps, at, results, sp, v);
    GoneStaysGone(states, steps, at[|at| - 1] + 1, j, v);
  }

  lemma PassEnds(states: seq<Sys>, steps: seq<Step>, at: seq<nat>, results: seq<IncrementalGcResult>, sp: Timestamp,
                 v: VKey)
    requires Lawful(states, steps) && Pass(states, steps, at, results, sp)
    requires Obsolete(states[at[0]].store, sp, v)
    ensures var end := states[at[|at| - 1] + 1]; v in end.log && v !in end.store.committed
  {
    hide Next, Respects, Obsolete, Inv, Call, SweptPast, Doomed, CursorOf;
    assert |at| > 0;
    hide Pass;
    var n := |at| - 1;
    PassAt(states, steps, at, results, sp, 0);
    PassAt(states, steps, at, results, sp, n);
    RunInv(states, steps, at[0]);
    StoredDoomed(states[at[0]], sp, v);
    PassSweeps(states, steps, at, results, sp, v, n);
    DoomedLogged(states[at[n] + 1], sp, v);
    SweptBefore(states[at[n] + 1], results[n], v);
  }

  lemma StoredDoomed(a: Sys, sp: Timestamp, v: VKey)
    requires Inv(a) && Obsolete(a.store, sp, v)
    ensures Doomed(a, sp, v)
  {
    hide Accounted, GravesHold, LocksAbove, Serial, Keeper;
  }

  /** Where no step may collapse that is all the garbage there was, in every run. */
  lemma NoCollapsePassCollects(states: seq<Sys>, steps: seq<Step>, at: seq<nat>, results: seq<IncrementalGcResult>,
                               sp: Timestamp, v: VKey, j: nat)
    requires IsRun(states, steps) && NeverCollapses(steps) && Pass(states, steps, at, results, sp)
    requires IsGarbage(states[at[0]].store, sp, MayCollapse(steps[at[0]]), v) && at[|at| - 1] < j <= |steps|
    ensures v !in states[j].store.committed
  {
    hide Next, Respects, Keeper, MayCollapse, Call, CursorOf;
    assert |at| > 0;
    hide Pass;
    PassAt(states, steps, at, results, sp, 0);
    NoCollapseRun(states, steps, 0);
    assert !MayCollapse(steps[at[0]]);
    PassCollects(states, steps, at, results, sp, v, j);
  }
}
