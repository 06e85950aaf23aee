/** Whole runs of the scheduler: any number of workers, callers and triggers interleave
    their critical sections in any order, with a clock that does not go back. */
module SchedulerRuns {
  import opened Scheduler

  datatype Worker = Idle | Busy(event: Event) | Left

  /** `history` is every event ever dispatched, in order. */
  datatype System = System(
    core: Core, workers: seq<Worker>, history: seq<Event>, clock: int,
    interval: int, components: set<Name>)

  datatype Step =
    | Enqueue(name: Name, deadline: int, priority: int, now: int)  // manual, periodic or service trigger
    | Data(name: Name, index: nat, input: nat, now: int)
    | Dispatch(w: nat, i: nat, now: int)
    | Complete(w: nat, ok: bool, now: int)
    | Leave(w: nat)
    | BeginStop
    | FinishStop

  ghost predicate Enabled(s: System, step: Step) {
    match step
    case Enqueue(name, _, _, now) => name in s.components && now >= s.clock
    case Data(name, index, input, now) =>
      name in s.components && Has(s.core.dataTriggers, name, index, input) && now >= s.clock
    case Dispatch(w, i, now) =>
      && w < |s.workers| && s.workers[w].Idle? && now >= s.clock
      && Chosen(s.core.pending, s.core.executing, s.interval, now, i)
    case Complete(w, ok, now) =>
      && w < |s.workers| && s.workers[w].Busy? && now >= s.clock
      && AllWired(s.core) && s.core.active > 0
    case Leave(w) => w < |s.workers| && s.workers[w].Idle? && s.core.stopping && s.core.pending == []
    case BeginStop => s.core.running && !s.core.stopping
    case FinishStop => s.core.stopping && forall w :: 0 <= w < |s.workers| ==> s.workers[w].Left?
  }

  ghost function Next(s: System, step: Step): System
    requires Enabled(s, step)
  {
    match step
    case Enqueue(name, deadline, priority, now) =>
      s.(clock := now,
         core := if !s.core.running || s.core.stopping then s.core else Queue(s.core, name, deadline, priority, now))
    case Data(name, index, input, now) => s.(clock := now, core := DataArrived(s.core, name, index, input, now))
    case Dispatch(w, i, now) =>
      s.(clock := now, core := Take(s.core, i), history := s.history + [s.core.pending[i]],
         workers := s.workers[w := Busy(s.core.pending[i])])
    case Complete(w, ok, now) =>
      s.(clock := now, core := Finish(s.core, s.workers[w].event.component, ok, now), workers := s.workers[w := Idle])
    case Leave(w) => s.(workers := s.workers[w := Left])
    case BeginStop => s.(core := StopBegun(s.core))
    case FinishStop => s.(core := StopFinished(s.core))
  }

  /** A scheduler that has just started: options.Validate() wants at least one worker. */
  ghost predicate Initial(s: System) {
    && |s.workers| > 0 && (forall w :: 0 <= w < |s.workers| ==> s.workers[w].Idle?)
    && s.core.pending == [] && s.core.queued == {} && s.core.executing == {}
    && s.core.active == 0 && s.core.calls == s.core.coalesced + s.core.dispatched
    && s.core.running && !s.core.stopping && s.history == []
    && AllWired(s.core) && Local(s)
  }

  /** Task triggers belong to registered components. */
  ghost predicate Local(s: System) {
    forall name :: name in s.core.taskTriggers ==> name in s.components
  }

  ghost predicate IsRun(states: seq<System>, steps: seq<Step>) {
    && |states| == |steps| + 1
    && Initial(states[0])
    && forall i {:trigger steps[i]} :: 0 <= i < |steps| ==>
        Enabled(states[i], steps[i]) && states[i + 1] == Next(states[i], steps[i])
  }

  // ---- the invariant -------------------------------------------------------------

  /** The components that workers are executing. */
  ghost function BusyNames(workers: seq<Worker>): set<Name> {
    set w | 0 <= w < |workers| && workers[w].Busy? :: workers[w].event.component
  }

  ghost predicate WorkersInv(s: System) {
    && |s.workers| > 0
    && s.core.executing == BusyNames(s.workers)
    && (forall v, w :: 0 <= v < w < |s.workers| && s.workers[v].Busy? && s.workers[w].Busy? ==>
          s.workers[v].event.component != s.workers[w].event.component)
  }

  /** Nobody leaves before the queue is empty for good. */
  ghost predicate StopInv(s: System) {
    && (s.core.running ==> !s.core.stopping)
    && (forall w :: 0 <= w < |s.workers| && s.workers[w].Left? ==> !s.core.running && s.core.pending == [])
    && (!s.core.running && !s.core.stopping ==> forall w :: 0 <= w < |s.workers| ==> s.workers[w].Left?)
  }

  ghost predicate TimesInv(s: System) {
    forall i :: 0 <= i < |s.core.pending| ==> s.core.pending[i].queuedAt <= s.clock
  }

  ghost predicate Inv(s: System) {
    && QueueInv(s.core) && AllWired(s.core) && Local(s)
    && WorkersInv(s) && StopInv(s) && TimesInv(s)
    && s.core.queued <= s.components && s.core.executing <= s.components
  }

  // ---- what completions append ---------------------------------------------------

  /** `after` is `before` with events queued at `now` behind it. */
  ghost predicate Appends(before: seq<Event>, after: seq<Event>, now: int) {
    && |before| <= |after| && after[..|before|] == before
    && forall i :: |before| <= i < |after| ==> after[i].queuedAt == now
  }

  lemma AppendsTransitive(a: seq<Event>, b: seq<Event>, c: seq<Event>, now: int)
    requires Appends(a, b, now) && Appends(b, c, now)
    ensures Appends(a, c, now)
  {
    assert c[..|a|] == c[..|b|][..|a|];
    forall i | |a| <= i < |c| ensures c[i].queuedAt == now {
      if i < |b| {
        assert c[i] == c[..|b|][i];
      }
    }
  }

  lemma {:induction false} QueueAppends(s: Core, name: Name, deadline: int, priority: int, now: int)
    ensures var s' := Queue(s, name, deadline, priority, now);
      && Appends(s.pending, s'.pending, now) && s'.taskTriggers == s.taskTriggers
      && forall n :: n in s'.queued ==> n in s.queued || n == name
  {
    if name in s.queued {
      assert s.pending[..|s.pending|] == s.pending;
    } else {
      var e := Event(name, deadline, priority, DueTime(deadline, now), now);
      assert (s.pending + [e])[..|s.pending|] == s.pending;
    }
  }

  lemma {:induction false} FireAppends(s: Core, d: Dependent, now: int)
    requires Wired(s, d)
    ensures var s' := Fire(s, d, now);
      && Appends(s.pending, s'.pending, now) && s'.taskTriggers.Keys == s.taskTriggers.Keys
      && forall name :: name in s'.queued ==> name in s.queued || name in s.taskTriggers
  {
    var t := Arrived(s.taskTriggers[d.component][d.trigger], d.dependency).0;
    var triggers := WithTrigger(s.taskTriggers, d.component, d.trigger, t);
    assert triggers.Keys == s.taskTriggers.Keys;
    QueueAppends(s.(taskTriggers := triggers), d.component, t.deadline, t.priority, now);
  }

  lemma {:induction false} FireAllAppends(s: Core, ds: seq<Dependent>, now: int)
    requires forall i :: 0 <= i < |ds| ==> Wired(s, ds[i])
    ensures Appends(s.pending, FireAll(s, ds, now).pending, now)
    ensures forall name :: name in FireAll(s, ds, now).queued ==> name in s.queued || name in s.taskTriggers
    ensures FireAll(s, ds, now).taskTriggers.Keys == s.taskTriggers.Keys
    decreases ds
  {
    if ds != [] {
      FireKeepsShape(s, ds[0], now);
      FireAppends(s, ds[0], now);
      var s' := Fire(s, ds[0], now);
      FireAllAppends(s', ds[1..], now);
      AppendsTransitive(s.pending, s'.pending, FireAll(s', ds[1..], now).pending, now);
    }
  }

  lemma FinishAppends(s: Core, name: Name, ok: bool, now: int)
    requires AllWired(s) && s.active > 0
    ensures var s' := Finish(s, name, ok, now);
            && Appends(s.pending, s'.pending, now)
            && (forall n :: n in s'.queued ==> n in s.queued || n in s.taskTriggers)
            && s'.taskTriggers.Keys == s.taskTriggers.Keys
            && (s.stopping ==> s'.pending == s.pending && s'.calls == s.calls)
  {
    var s' := s.(dispatched := s.dispatched + 1, active := s.active - 1, executing := s.executing - {name});
    if ok && !s.stopping && name in s.dependents {
      FireAllAppends(s', s.dependents[name], now);
    }
  }

  // ---- every step keeps the invariant ----------------------------------------------

  lemma BusyNamesOfUpdate(workers: seq<Worker>, w: nat, worker: Worker)
    requires w < |workers|
    requires forall v, u :: 0 <= v < u < |workers| && workers[v].Busy? && workers[u].Busy? ==>
               workers[v].event.component != workers[u].event.component
    ensures workers[w].Busy? && !worker.Busy? ==>
              BusyNames(workers[w := worker]) == BusyNames(workers) - {workers[w].event.component}
    ensures !workers[w].Busy? && worker.Busy? ==>
              BusyNames(workers[w := worker]) == BusyNames(workers) + {worker.event.component}
    ensures !workers[w].Busy? && !worker.Busy? ==> BusyNames(workers[w := worker]) == BusyNames(workers)
  {
    var workers' := workers[w := worker];
    forall n | n in BusyNames(workers) && (workers[w].Busy? ==> n != workers[w].event.component)
      ensures n in BusyNames(workers')
    {
      var v :| 0 <= v < |workers| && workers[v].Busy? && workers[v].event.component == n;
      assert workers'[v] == workers[v];
    }
    if worker.Busy? {
      assert workers'[w] == worker;
    }
    forall n | n in BusyNames(workers') && (worker.Busy? ==> n != worker.event.component)
      ensures n in BusyNames(workers) && (workers[w].Busy? && !worker.Busy? ==> n != workers[w].event.component)
    {
      var v :| 0 <= v < |workers'| && workers'[v].Busy? && workers'[v].event.component == n;
      assert workers'[v] == workers[v];
    }
  }

  lemma TriggerKeepsInv(s: System, step: Step)
    requires Inv(s) && Enabled(s, step) && (step.Enqueue? || step.Data?)
    ensures Inv(Next(s, step))
  {
    if step.Enqueue? {
      QueueKeepsInv(s.core, step.name, step.deadline, step.priority, step.now);
    } else {
      DataArrivedKeepsInv(s.core, step.name, step.index, step.input, step.now);
    }
  }

  lemma DispatchKeepsWorkers(s: System, step: Step)
    requires Inv(s) && Enabled(s, step) && step.Dispatch?
    ensures WorkersInv(Next(s, step))
  {
    var name := s.core.pending[step.i].component;
    assert Eligible(s.core.pending, s.core.executing, step.i);
    BusyNamesOfUpdate(s.workers, step.w, Busy(s.core.pending[step.i]));
    forall v | 0 <= v < |s.workers| && s.workers[v].Busy? ensures s.workers[v].event.component != name {
      assert s.workers[v].event.component in BusyNames(s.workers);
    }
  }

  lemma DispatchKeepsInv(s: System, step: Step)
    requires Inv(s) && Enabled(s, step) && step.Dispatch?
    ensures Inv(Next(s, step))
  {
    DispatchKeepsWorkers(s, step);
    DispatchKeepsCore(s, step);
    DispatchKeepsTimes(s, step);
  }

  lemma DispatchKeepsCore(s: System, step: Step)
    requires Inv(s) && Enabled(s, step) && step.Dispatch?
    ensures var s' := Next(s, step);
      && QueueInv(s'.core) && AllWired(s'.core)
      && s'.core.queued <= s.components && s'.core.executing <= s.components
  {
    TakeKeepsInv(s.core, step.i);
    assert s.core.pending[step.i].component in Names(s.core.pending);
  }

  lemma DispatchKeepsTimes(s: System, step: Step)
    requires Inv(s) && Enabled(s, step) && step.Dispatch?
    ensures TimesInv(Next(s, step)) && StopInv(Next(s, step))
  {
  }

  lemma CompleteKeepsInv(s: System, step: Step)
    requires Inv(s) && Enabled(s, step) && step.Complete?
    ensures Inv(Next(s, step))
  {
    var name := s.workers[step.w].event.component;
    assert name in BusyNames(s.workers);
    FinishKeepsInv(s.core, name, step.ok, step.now);
    FinishAppends(s.core, name, step.ok, step.now);
    FinishFrame(s.core, name, step.ok, step.now);
    BusyNamesOfUpdate(s.workers, step.w, Idle);
    var s' := Next(s, step);
    forall i | 0 <= i < |s'.core.pending| ensures s'.core.pending[i].queuedAt <= s'.clock {
      if i < |s.core.pending| {
        assert s'.core.pending[..|s.core.pending|][i] == s.core.pending[i];
      }
    }
  }

  lemma FinishFrame(s: Core, name: Name, ok: bool, now: int)
    requires QueueInv(s) && AllWired(s) && name in s.executing
    ensures var s' := Finish(s, name, ok, now);
            && s'.executing == s.executing - {name} && s'.dependents == s.dependents
            && s'.running == s.running && s'.stopping == s.stopping
            && s'.active == s.active - 1 && s'.dispatched == s.dispatched + 1
  {
    var s' := s.(dispatched := s.dispatched + 1, active := s.active - 1, executing := s.executing - {name});
    if ok && !s.stopping && name in s.dependents {
      FireAllFrame(s', s.dependents[name], now);
    }
  }

  lemma LeaveKeepsInv(s: System, step: Step)
    requires Inv(s) && Enabled(s, step) && step.Leave?
    ensures Inv(Next(s, step))
  {
    BusyNamesOfUpdate(s.workers, step.w, Left);
  }

  lemma BeginStopKeepsInv(s: System)
    requires Inv(s) && Enabled(s, BeginStop)
    ensures Inv(Next(s, BeginStop))
  {
  }

  lemma FinishStopKeepsInv(s: System)
    requires Inv(s) && Enabled(s, FinishStop)
    ensures Inv(Next(s, FinishStop))
  {
    assert s.workers[0].Left?;
    assert s.core.pending == [] && BusyNames(s.workers) == {};
  }

  lemma StepKeepsInv(s: System, step: Step)
    requires Inv(s) && Enabled(s, step)
    ensures Inv(Next(s, step))
  {
    match step
    case Enqueue(_, _, _, _) => TriggerKeepsInv(s, step);
    case Data(_, _, _, _) => TriggerKeepsInv(s, step);
    case Dispatch(_, _, _) => DispatchKeepsInv(s, step);
    case Complete(_, _, _) => CompleteKeepsInv(s, step);
    case Leave(_) => LeaveKeepsInv(s, step);
    case BeginStop => BeginStopKeepsInv(s);
    case FinishStop => FinishStopKeepsInv(s);
  }

  lemma {:induction false} RunKeepsInv(states: seq<System>, steps: seq<Step>, i: nat)
    requires IsRun(states, steps) && i < |states|
    ensures Inv(states[i])
  {
    if i > 0 {
      RunKeepsInv(states, steps, i - 1);
      StepKeepsInv(states[i - 1], steps[i - 1]);
    }
  }

  /** In every reachable state: the queued set is exactly the components with a pending
      event, one each; no component runs on two workers; the executing set has as many
      members as there are active events; and every QueueEvent call is coalesced,
      dispatched and finished, active or pending. */
  lemma QueueIsConsistent(states: seq<System>, steps: seq<Step>, i: nat)
    requires IsRun(states, steps) && i < |states|
    ensures var s := states[i];
            && s.core.queued == Names(s.core.pending) && Distinct(s.core.pending)
            && (forall v, w :: 0 <= v < w < |s.workers| && s.workers[v].Busy? && s.workers[w].Busy? ==>
                  s.workers[v].event.component != s.workers[w].event.component)
            && s.core.executing == BusyNames(s.workers) && |s.core.executing| == s.core.active
            && s.core.calls == s.core.coalesced + s.core.dispatched + s.core.active + |s.core.pending|
  {
    RunKeepsInv(states, steps, i);
  }
}
