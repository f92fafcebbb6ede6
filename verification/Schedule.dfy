/** Driving the engine itself through a schedule: every execution is one of the runs reasoned about. */
module Schedule {
  import opened Types
  import opened History
  import opened Gc
  import opened Planner
  import opened Backend
  import opened Engine
  import opened Runs
  import opened LogInvariant
  import opened Theorems
  import T = Transitions

  /** The budgets whose successor still fits in a `usize`. */
  ghost predicate FitsUsize(step: Step) {
    match step
    case GcIncremental(_, _, o) => o.maxKeys < USIZE_MAX && o.maxVersions < USIZE_MAX
    case Gc(_, o) => o.maxKeys < USIZE_MAX && o.maxVersions < USIZE_MAX
    case _ => true
  }

  method ApplyMutation(engine: MvccEngine, step: Step)
    requires engine.backend.Valid() && !Collects(step)
    modifies engine.backend
    ensures engine.backend.Valid()
    ensures engine.backend.Contents() == MutateNext(old(engine.backend.Contents()), step)
  {
    hide T.Prewrite, T.Commit, T.Abort, T.PrewriteBatch, T.CommitBatch, T.AbortBatch, T.DirectBatch, T.GuardedBatch;
    match step {
      case Prewrite(txnId, startTs, key, mutation) => var r := engine.Prewrite(txnId, startTs, key, mutation);
      case Commit(txnId, key, startTs, commitTs) => var r := engine.Commit(txnId, key, startTs, commitTs);
      case Abort(txnId, key, startTs) => engine.Abort(txnId, key, startTs);
      case PrewriteBatch(txnId, startTs, writes) => var r := engine.PrewriteBatch(txnId, startTs, writes);
      case CommitBatch(txnId, startTs, commitTs, keys) => var r := engine.CommitBatch(txnId, startTs, commitTs, keys);
      case AbortBatch(txnId, startTs, keys) => var r := engine.AbortBatch(txnId, startTs, keys);
      case DirectBatch(commitTs, writes) => var r := engine.ApplyDirectBatch(commitTs, writes);
      case GuardedBatch(commitTs, guards, writes) => var r := engine.ApplyGuardedBatch(commitTs, guards, writes);
      case _ =>
    }
  }

  method ApplyCollection(engine: MvccEngine, step: Step)
    requires engine.backend.Valid() && Collects(step) && FitsUsize(step)
    modifies engine.backend
    ensures engine.backend.Valid()
    ensures CollectNext(old(engine.backend.Contents()), step, engine.backend.Contents())
  {
    hide GcStep, Collected, IsPlan, Applied, CallBound, Garbage;
    match step {
      case GcIncremental(sp, start, o) =>
        var r := engine.GcIncremental(sp, start, o);
      case Gc(sp, o) =>
        ghost var calls;
        var r;
        r, calls := engine.Gc(sp, o);
      case PlanAndApply(sp, k, o) =>
        var plan := engine.PlanKeyGc(k, sp, o);
        if plan.Ok? {
          engine.ApplyPlan(plan.value);
        }
      case _ =>
    }
  }

  /** The states a run passes through, for given stores. */
  ghost function After(a: Sys, step: Step, t: Store): Sys {
    Sys(t,
        a.log + Logged(Written(a.store, step), WriteTs(step), OriginOf(step)),
        if a.safe < SafePointOf(step) then SafePointOf(step) else a.safe,
        a.graves + NewGraves(a.store, t))
  }

  lemma AfterIsNext(a: Sys, step: Step, t: Store)
    requires StoreNext(a.store, step, t)
    ensures Next(a, step, After(a, step, t))
  {
    hide StoreNext, Written, NewGraves;
  }

  lemma {:induction false} RunExtends(states: seq<Sys>, steps: seq<Step>, n: nat, b: Sys)
    requires n < |steps| && IsRun(states, steps[..n]) && Next(states[n], steps[n], b)
    ensures IsRun(states + [b], steps[..n + 1])
  {
    hide Next;
    forall i | 0 <= i < n + 1 ensures Next((states + [b])[i], steps[..n + 1][i], (states + [b])[i + 1]) {
      if i < n { assert Next(states[i], steps[..n][i], states[i + 1]); }
    }
  }

  /** Applies the schedule to a fresh engine, whatever each call returns. */
  method ApplySchedule(engine: MvccEngine, schedule: seq<Step>) returns (ghost states: seq<Sys>)
    requires engine.backend.Valid() && engine.backend.Contents() == EMPTY
    requires forall step :: step in schedule ==> FitsUsize(step)
    modifies engine.backend
    ensures engine.backend.Valid()
    ensures IsRun(states, schedule) && states[|schedule|].store == engine.backend.Contents()
  {
    hide Next, StoreNext, FitsUsize;
    states := [INITIAL];
    var i := 0;
    while i < |schedule|
      invariant 0 <= i <= |schedule|
      invariant engine.backend.Valid()
      invariant IsRun(states, schedule[..i]) && states[i].store == engine.backend.Contents()
    {
      ghost var a := states[i];
      ApplyStep(engine, schedule[i]);
      AfterIsNext(a, schedule[i], engine.backend.Contents());
      RunExtends(states, schedule, i, After(a, schedule[i], engine.backend.Contents()));
      states := states + [After(a, schedule[i], engine.backend.Contents())];
      i := i + 1;
    }
    assert schedule[..i] == schedule;
  }

  method ApplyStep(engine: MvccEngine, step: Step)
    requires engine.backend.Valid() && FitsUsize(step)
    modifies engine.backend
    ensures engine.backend.Valid()
    ensures StoreNext(old(engine.backend.Contents()), step, engine.backend.Contents())
  {
    hide MutateNext, CollectNext;
    if step.GcIncremental? || step.Gc? || step.PlanAndApply? {
      ApplyCollection(engine, step);
    } else {
      ApplyMutation(engine, step);
    }
  }

  /**
    A caller that plans one key and applies the plan until a plan is complete: it stops, after exactly
    floor(n / m) + 1 plans for n obsolete versions, with the key's garbage and nothing else collected.
   */
  method DrainKey(engine: MvccEngine, key: Key, safePointTs: Timestamp, options: KeyGcOptions)
    returns (r: Result<nat, GcError>)
    requires engine.backend.Valid()
    modifies engine.backend
    ensures engine.backend.Valid()
    ensures options.maxVersionsExamined == 0 ==>
              r == Err(InvalidKeyGcBudget) && engine.backend.Contents() == old(engine.backend.Contents())
    ensures options.maxVersionsExamined > 0 ==>
              var s := old(engine.backend.Contents());
              && r == Ok(|Debt(s, safePointTs, key)| / options.maxVersionsExamined + 1)
              && KeyCollected(s, safePointTs, options.collapse, key, engine.backend.Contents())
              && Prunes(s, engine.backend.Contents(), safePointTs, options.collapse)
  {
    hide IsPlan, Applied, Debt, Prunes, TouchesOnly, KeyCollected, InMemoryBackend.Valid;
    if options.maxVersionsExamined == 0 {
      var plan := engine.PlanKeyGc(key, safePointTs, options);
      return Err(plan.error);
    }
    ghost var s0 := engine.backend.Contents();
    ghost var stores, pages := [s0], [];
    var complete, plans := false, 0;
    PruneReflexive(s0, safePointTs, options.collapse);
    while !complete
      invariant engine.backend.Valid()
      invariant |pages| == plans && Pages(stores, pages, safePointTs, options, key)
      invariant stores[0] == s0 && stores[plans] == engine.backend.Contents()
      invariant complete <==> plans > 0 && pages[plans - 1].complete
      decreases |Debt(s0, safePointTs, key)| / options.maxVersionsExamined + 1 - plans
    {
      var plan := engine.PlanKeyGc(key, safePointTs, options);
      engine.ApplyPlan(plan.value);
      PagesExtend(stores, pages, safePointTs, options, key, plan.value, engine.backend.Contents());
      stores, pages := stores + [engine.backend.Contents()], pages + [plan.value];
      PlanningEnds(stores, pages, safePointTs, options, key);
      complete := plan.value.complete;
      plans := plans + 1;
    }
    PlanningEnds(stores, pages, safePointTs, options, key);
    PlanningDrains(stores, pages, safePointTs, options, key, plans);
    return Ok(plans);
  }

  lemma PagesExtend(stores: seq<Store>, plans: seq<KeyGcPlan>, sp: Timestamp, o: KeyGcOptions, k: Key,
                    plan: KeyGcPlan, t: Store)
    requires Pages(stores, plans, sp, o, k) && (plans != [] ==> !plans[|plans| - 1].complete)
    requires IsPlan(stores[|plans|], sp, o, k, plan) && t == Applied(stores[|plans|], plan)
    ensures Pages(stores + [t], plans + [plan], sp, o, k)
  {
    hide IsPlan, Applied;
  }

  /** After a lawful schedule the engine answers every permitted read from the log. */
  method ScheduleThenRead(engine: MvccEngine, schedule: seq<Step>, key: Key, readTs: Timestamp)
    returns (value: Option<Value>, ghost states: seq<Sys>)
    requires engine.backend.Valid() && engine.backend.Contents() == EMPTY
    requires forall step :: step in schedule ==> FitsUsize(step)
    modifies engine.backend
    ensures IsRun(states, schedule)
    ensures Lawful(states, schedule) && readTs >= states[|schedule|].safe ==>
              value == LogRead(states[|schedule|].log, key, readTs)
  {
    hide Next, Respects, FitsUsize, LogRead, History.Read;
    states := ApplySchedule(engine, schedule);
    value := engine.Read(key, readTs);
    if Lawful(states, schedule) && readTs >= states[|schedule|].safe {
      RunRefinesLog(states, schedule, |schedule|, key, readTs);
    }
  }
}
