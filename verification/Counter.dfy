/** Clients that read a counter and write back one more under a guard never lose an increment. */
module Counter {
  import opened Types
  import opened History
  import opened Gc
  import opened Runs
  import opened LogInvariant
  import opened Theorems
  import T = Transitions

  /**
    The step is a guarded batch built from a read of `k` in store `s` at `readTs`: it guards `k` on
    the version or on the value that read returned, and writes that value plus one.
   */
  ghost predicate AddsOne(s: Store, readTs: Timestamp, g: ReadGuard, step: Step, k: Key, decode: Value -> int) {
    var seen := ReadVersion(s.committed, k, readTs);
    && step.GuardedBatch?
    && seen.Some? && seen.value.1.Some?
    && g in step.guards && g.key == k
    && (g.ExpectedVersion? ==> g.expectedCommitTs == Some(seen.value.0))
    && (g.ExpectedValue? ==> g.expectedValue == seen.value.1)
    && k in T.WriteMap(step.writes) && T.WriteMap(step.writes)[k].Some?
    && decode(T.WriteMap(step.writes)[k].value) == decode(seen.value.1.value) + 1
  }

  /** Step `j` increments `k` from a read made at some earlier moment of the run. */
  ghost predicate Increment(states: seq<Sys>, steps: seq<Step>, j: nat, k: Key, decode: Value -> int)
    requires j < |steps| < |states|
  {
    exists i: nat, readTs: Timestamp, g: ReadGuard :: i <= j && AddsOne(states[i].store, readTs, g, steps[j], k, decode)
  }

  /** How many of the steps from `m` to `n` wrote `k`. */
  ghost function Successes(states: seq<Sys>, steps: seq<Step>, k: Key, m: nat, n: nat): nat
    requires m <= n <= |steps| < |states|
    decreases n
  {
    if m == n then 0
    else Successes(states, steps, k, m, n - 1) + if k in Written(states[n - 1].store, steps[n - 1]) then 1 else 0
  }

  ghost function Current(s: Store, k: Key): Option<Value> {
    Read(s.committed, k, TS_MAX)
  }

  /** A step that does not write the key leaves its current value. */
  lemma UnwrittenStays(a: Sys, step: Step, b: Sys, k: Key)
    requires Next(a, step, b) && k !in Written(a.store, step)
    ensures Current(b.store, k) == Current(a.store, k)
  {
    hide VisibleTs, MutateNext, CollectNext, Written, WriteTs, OriginOf, LockKeys, StartOf, Prunes;
    if Collects(step) {
      CollectPrunes(a.store, step, b.store);
      PrunePreservesReads(a.store, b.store, SafePointOf(step), MayCollapse(step), k, TS_MAX);
    } else {
      MutationExtends(a, step, b);
      Added(a, b, Written(a.store, step), WriteTs(step), OriginOf(step), LockKeys(step), StartOf(step));
      SameKeyRead(a.store.committed, b.store.committed, k);
    }
  }

  lemma SameKeyRead(m: map<VKey, Option<Value>>, n: map<VKey, Option<Value>>, k: Key)
    requires forall u: Timestamp :: VKey(k, u) in m <==> VKey(k, u) in n
    requires forall u: Timestamp :: VKey(k, u) in m ==> m[VKey(k, u)] == n[VKey(k, u)]
    ensures Read(m, k, TS_MAX) == Read(n, k, TS_MAX)
  {
    hide VisibleTs;
    var a := VisibleTs(m.Keys, k, TS_MAX);
    if a.Some? {
      VisibleIs(n.Keys, k, TS_MAX, a.value);
    } else {
      assert VisibleTs(n.Keys, k, TS_MAX).None?;
    }
  }

  /** What a step writes is the key's current value afterwards. */
  lemma WrittenIsCurrent(a: Sys, step: Step, b: Sys, k: Key)
    requires Next(a, step, b) && k in Written(a.store, step)
    ensures Current(b.store, k) == Written(a.store, step)[k]
  {
    hide VisibleTs, MutateNext, CollectNext, Written, OriginOf, LockKeys, StartOf, MayWrite;
    NotCollecting(a.store, step, k);
    MutationExtends(a, step, b);
    Added(a, b, Written(a.store, step), WriteTs(step), OriginOf(step), LockKeys(step), StartOf(step));
    VisibleIs(b.store.committed.Keys, k, TS_MAX, WriteTs(step));
  }

  /** The guard of a successful increment holds the value it was computed from. */
  lemma GuardHoldsCurrent(states: seq<Sys>, steps: seq<Step>, i: nat, j: nat, readTs: Timestamp, g: ReadGuard,
                          k: Key, decode: Value -> int)
    requires Lawful(states, steps) && i <= j < |steps|
    requires AddsOne(states[i].store, readTs, g, steps[j], k, decode)
    requires k in Written(states[j].store, steps[j])
    ensures Current(states[j].store, k) == ReadVersion(states[i].store.committed, k, readTs).value.1
    ensures Written(states[j].store, steps[j]) == T.WriteMap(steps[j].writes)
  {
    hide VisibleTs, Next, Respects, T.WriteMap, T.FirstDuplicate, T.FirstError, T.WriteChecks, Serial, LocksAbove,
         GravesHold, Accounted, T.GuardCheck;
    var step := steps[j];
    var n :| 0 <= n < |step.guards| && step.guards[n] == g;
    assert T.GuardChecks(states[j].store, step.commitTs, step.guards)[n].None?;
    GuardSeesLatest(states[j].store, step.commitTs, g);
    if g.ExpectedVersion? {
      var e := VKey(k, ReadVersion(states[i].store.committed, k, readTs).value.0);
      RunInv(states, steps, i);
      RunInv(states, steps, j);
      LogGrows(states, steps, i, j, e);
      assert e in states[j].store.committed;
    }
  }

  lemma IncrementAdds(states: seq<Sys>, steps: seq<Step>, j: nat, k: Key, decode: Value -> int)
    requires Lawful(states, steps) && j < |steps| && Increment(states, steps, j, k, decode)
    requires k in Written(states[j].store, steps[j])
    ensures Current(states[j].store, k).Some? && Current(states[j + 1].store, k).Some?
    ensures decode(Current(states[j + 1].store, k).value) == decode(Current(states[j].store, k).value) + 1
  {
    hide Next, Respects, Written, Current, ReadVersion;
    var i: nat, readTs: Timestamp, g: ReadGuard :| i <= j && AddsOne(states[i].store, readTs, g, steps[j], k, decode);
    GuardHoldsCurrent(states, steps, i, j, readTs, g, k, decode);
    WrittenIsCurrent(states[j], steps[j], states[j + 1], k);
  }

  /**
    No lost increments. Where the only steps that write the key are increments, built from reads made
    at any earlier moment and interleaved in any way, the counter ends at its initial value plus the
    number of increments that succeeded.
   */
  lemma {:induction false} NoLostIncrements(states: seq<Sys>, steps: seq<Step>, m: nat, n: nat, k: Key,
                                            decode: Value -> int)
    requires Lawful(states, steps) && m <= n <= |steps|
    requires Current(states[m].store, k).Some?
    requires forall j :: m <= j < n ==>
              k !in Written(states[j].store, steps[j]) || Increment(states, steps, j, k, decode)
    ensures Current(states[n].store, k).Some?
    ensures decode(Current(states[n].store, k).value) ==
              decode(Current(states[m].store, k).value) + Successes(states, steps, k, m, n)
    decreases n
  {
    hide Next, Respects, Written, Current, Increment;
    if m < n {
      NoLostIncrements(states, steps, m, n - 1, k, decode);
      if k in Written(states[n - 1].store, steps[n - 1]) {
        IncrementAdds(states, steps, n - 1, k, decode);
      } else {
        UnwrittenStays(states[n - 1], steps[n - 1], states[n], k);
      }
    }
  }
}
