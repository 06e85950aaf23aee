/** Task triggers over whole runs: what was declared is what fires. A component that waits
    for all of its upstream tasks is queued once each of them has succeeded since it was
    last queued for them, and not before (src/scheduler/scheduler.cpp:512-578, 893-922). */
module TaskFirings {
  import opened Options
  import opened Scheduler
  import opened SchedulerRuns
  import opened TriggerLaws
  import opened Kahn
  import opened TaskRuns
  import TaskGraph

  /** A trigger on other tasks as it is declared: number `t` of component number `i`. */
  predicate Exists(components: seq<TaskGraph.ComponentSpec>, i: nat, t: nat) {
    i < |components| && t < |TaskGraph.TaskTriggers(components[i].triggers)|
  }

  function SpecOf(components: seq<TaskGraph.ComponentSpec>, i: nat, t: nat): TaskGraph.TriggerSpec
    requires Exists(components, i, t)
  {
    TaskGraph.TaskTriggers(components[i].triggers)[t]
  }

  /** The component that a step reports as finished to whatever waits for it. */
  ghost predicate Succeeds(s: System, step: Step, up: Name) {
    && step.Complete? && step.w < |s.workers| && s.workers[step.w].Busy? && step.ok && !s.core.stopping
    && s.workers[step.w].event.component == up
  }

  /** The dependency that a step completes. */
  ghost function MarkOf(s: System, step: Step, dependencies: seq<Name>): (mark: Option<nat>)
    ensures mark.Some? ==> mark.value < |dependencies| && Succeeds(s, step, dependencies[mark.value])
    ensures mark.None? ==> forall j :: 0 <= j < |dependencies| ==> !Succeeds(s, step, dependencies[j])
  {
    if step.Complete? && step.w < |s.workers| && s.workers[step.w].Busy? && Succeeds(s, step, s.workers[step.w].event.component)
    then
      var j := Position(dependencies, s.workers[step.w].event.component);
      if j < |dependencies| then Some(j) else None
    else None
  }

  // ---- the dependents of one component ------------------------------------------------

  lemma {:induction false} TwiceIsTwo(ds: seq<Dependent>, p: nat, q: nat)
    requires p < q < |ds| && ds[p] == ds[q]
    ensures Occurrences(ds, ds[q]) >= 2
  {
    var init := ds[..|ds| - 1];
    if q == |ds| - 1 {
      TaskGraph.OccursIn(init, ds[q]);
      assert init[p] == ds[q];
    } else {
      TwiceIsTwo(init, p, q);
    }
  }

  /** The same upstream is not declared twice by one trigger. */
  lemma DeclaredInOnePlace(components: seq<TaskGraph.ComponentSpec>, up: Name, a: Dependent, b: Dependent)
    requires Unique(TaskGraph.Names(components)) && TaskGraph.AllOk(components, TaskGraph.Names(components), true)
    requires TaskGraph.Declared(components, up, a) && TaskGraph.Declared(components, up, b) && SameTrigger(a, b)
    ensures a == b
  {
    var names := TaskGraph.Names(components);
    var i :| 0 <= i < |components| && TaskGraph.Declares(components[i], up, a);
    var k :| 0 <= k < |components| && TaskGraph.Declares(components[k], up, b);
    assert names[i] == names[k];
    TaskGraph.DeclaredIsGood(components, names, true, i, a.trigger);
  }

  /** Components keep what was installed for them. */
  ghost predicate Wiring(s: System, components: seq<TaskGraph.ComponentSpec>) {
    && (forall n :: n in s.core.dependents <==> n in TaskGraph.Names(components))
    && (forall up, d :: up in TaskGraph.Names(components) ==> TaskGraph.ListedOnce(components, s.core.dependents, up, d))
  }

  lemma DependentsAreSeparate(s: System, components: seq<TaskGraph.ComponentSpec>, up: Name)
    requires Unique(TaskGraph.Names(components)) && TaskGraph.AllOk(components, TaskGraph.Names(components), true)
    requires Wiring(s, components) && up in s.core.dependents
    ensures Separate(s.core.dependents[up])
  {
    var ds := s.core.dependents[up];
    forall p, q | 0 <= p < q < |ds| ensures !SameTrigger(ds[p], ds[q]) {
      TaskGraph.OccursIn(ds, ds[p]);
      TaskGraph.OccursIn(ds, ds[q]);
      assert TaskGraph.ListedOnce(components, s.core.dependents, up, ds[p]);
      assert TaskGraph.ListedOnce(components, s.core.dependents, up, ds[q]);
      if SameTrigger(ds[p], ds[q]) {
        DeclaredInOnePlace(components, up, ds[p], ds[q]);
        TwiceIsTwo(ds, p, q);
      }
    }
  }

  /** The place of a declared dependency among the dependents of its upstream. */
  lemma PlaceOf(s: System, components: seq<TaskGraph.ComponentSpec>, up: Name, d: Dependent) returns (p: nat)
    requires Wiring(s, components) && TaskGraph.Declared(components, up, d) && up in TaskGraph.Names(components)
    ensures up in s.core.dependents && p < |s.core.dependents[up]| && s.core.dependents[up][p] == d
  {
    assert TaskGraph.ListedOnce(components, s.core.dependents, up, d);
    TaskGraph.OccursIn(s.core.dependents[up], d);
    p :| 0 <= p < |s.core.dependents[up]| && s.core.dependents[up][p] == d;
  }

  /** No dependent of a component that a trigger does not wait for is that trigger. */
  lemma NotAmong(s: System, components: seq<TaskGraph.ComponentSpec>, i: nat, t: nat, up: Name, p: nat)
    requires Unique(TaskGraph.Names(components)) && Wiring(s, components) && Exists(components, i, t)
    requires up in s.core.dependents && p < |s.core.dependents[up]| && up !in SpecOf(components, i, t).dependencies
    ensures var d := s.core.dependents[up][p]; d.component != components[i].name || d.trigger != t
  {
    var d := s.core.dependents[up][p];
    TaskGraph.OccursIn(s.core.dependents[up], d);
    assert TaskGraph.ListedOnce(components, s.core.dependents, up, d);
    var k :| 0 <= k < |components| && TaskGraph.Declares(components[k], up, d);
    if d.component == components[i].name {
      assert TaskGraph.Names(components)[k] == TaskGraph.Names(components)[i];
    }
  }

  // ---- one step ------------------------------------------------------------------------

  /** The trigger is there as it is declared, with an input per dependency. */
  ghost predicate Kept(s: System, components: seq<TaskGraph.ComponentSpec>, i: nat, t: nat)
    requires Exists(components, i, t)
  {
    var name, spec := components[i].name, SpecOf(components, i, t);
    && name in s.core.taskTriggers && t < |s.core.taskTriggers[name]|
    && var kept := s.core.taskTriggers[name][t];
       && kept.policy == spec.policy && kept.priority == spec.priority
       && (spec.deadline > 0 ==> kept.deadline == spec.deadline) && (spec.deadline <= 0 ==> kept.deadline == 0)
       && |kept.ready| == |spec.dependencies|
  }

  ghost function TriggerOf(s: System, components: seq<TaskGraph.ComponentSpec>, i: nat, t: nat): Trigger
    requires Exists(components, i, t) && Kept(s, components, i, t)
  {
    s.core.taskTriggers[components[i].name][t]
  }

  /** Whether a step makes the trigger fire. */
  ghost predicate Fires(s: System, step: Step, components: seq<TaskGraph.ComponentSpec>, i: nat, t: nat)
    requires Exists(components, i, t) && Kept(s, components, i, t)
  {
    var mark := MarkOf(s, step, SpecOf(components, i, t).dependencies);
    mark.Some? && Completing(TriggerOf(s, components, i, t), mark.value)
  }

  /** What one step is to the trigger: an arrival if it completes one of the dependencies,
      and otherwise nothing. Firing queues the component. */
  ghost predicate StepLaw(s: System, step: Step, components: seq<TaskGraph.ComponentSpec>, i: nat, t: nat)
    requires Enabled(s, step) && Exists(components, i, t) && Kept(s, components, i, t)
  {
    var s', fires := Next(s, step), Fires(s, step, components, i, t);
    && Kept(s', components, i, t)
    && Moment(TriggerOf(s, components, i, t), MarkOf(s, step, SpecOf(components, i, t).dependencies), TriggerOf(s', components, i, t), fires)
    && (fires ==> components[i].name in s'.core.queued)
  }

  lemma SuccessObeysLaw(s: System, step: Step, components: seq<TaskGraph.ComponentSpec>, i: nat, t: nat)
    requires Unique(TaskGraph.Names(components)) && TaskGraph.AllOk(components, TaskGraph.Names(components), true)
    requires Inv(s) && Enabled(s, step) && step.Complete? && step.ok && !s.core.stopping
    requires Wiring(s, components) && Exists(components, i, t) && Kept(s, components, i, t)
    requires s.workers[step.w].event.component in s.core.dependents
    ensures StepLaw(s, step, components, i, t)
  {
    var up, deps := s.workers[step.w].event.component, SpecOf(components, i, t).dependencies;
    var core := s.core.(dispatched := s.core.dispatched + 1, active := s.core.active - 1, executing := s.core.executing - {up});
    var ds, name := s.core.dependents[up], components[i].name;
    DependentsAreSeparate(s, components, up);
    assert forall p :: 0 <= p < |ds| ==> Wired(core, ds[p]);
    assert Next(s, step).core == FireAll(core, ds, step.now);
    if up in deps {
      var j := Position(deps, up);
      var d := Dependent(name, t, j);
      assert TaskGraph.Declares(components[i], up, d);
      var p := PlaceOf(s, components, up, d);
      FireAllMarksOnce(core, ds, step.now, p);
    } else {
      forall p | 0 <= p < |ds| ensures !SameTrigger(ds[p], Dependent(name, t, 0)) {
        NotAmong(s, components, i, t, up, p);
      }
      DependenciesExist(components, i, t);
      FireAllElsewhere(core, ds, step.now, Dependent(name, t, 0));
    }
  }

  lemma DependenciesExist(components: seq<TaskGraph.ComponentSpec>, i: nat, t: nat)
    requires TaskGraph.AllOk(components, TaskGraph.Names(components), true) && Exists(components, i, t)
    ensures |SpecOf(components, i, t).dependencies| > 0
  {
    TaskGraph.DeclaredIsGood(components, TaskGraph.Names(components), true, i, t);
  }

  /** What every step of a run but the last of Stop keeps. */
  ghost predicate Going(s: System, components: seq<TaskGraph.ComponentSpec>, i: nat, t: nat)
    requires Exists(components, i, t)
  {
    && Inv(s) && Wiring(s, components) && Kept(s, components, i, t)
    && s.components == Elements(TaskGraph.Names(components))
  }

  lemma CompleteObeysLaw(s: System, step: Step, components: seq<TaskGraph.ComponentSpec>, i: nat, t: nat)
    requires Unique(TaskGraph.Names(components)) && TaskGraph.AllOk(components, TaskGraph.Names(components), true)
    requires Exists(components, i, t) && Going(s, components, i, t) && Enabled(s, step) && step.Complete?
    ensures StepLaw(s, step, components, i, t) && Next(s, step).core.dependents == s.core.dependents
  {
    var up := s.workers[step.w].event.component;
    assert up in BusyNames(s.workers);
    FinishLeaves(s.core, up, step.ok, step.now);
    if step.ok && !s.core.stopping {
      SuccessObeysLaw(s, step, components, i, t);
    }
  }

  lemma OthersMarkNothing(s: System, step: Step)
    requires Enabled(s, step) && !step.Complete? && !step.FinishStop?
    ensures Next(s, step).core.taskTriggers == s.core.taskTriggers && Next(s, step).core.dependents == s.core.dependents
  {
    if step.Data? {
      DataFrame(s.core, step.name, step.index, step.input, step.now);
    }
  }

  lemma OtherObeysLaw(s: System, step: Step, components: seq<TaskGraph.ComponentSpec>, i: nat, t: nat)
    requires Exists(components, i, t) && Going(s, components, i, t) && Enabled(s, step)
    requires !step.Complete? && !step.FinishStop?
    ensures StepLaw(s, step, components, i, t)
  {
    OthersMarkNothing(s, step);
  }

  lemma StepObeysLaw(s: System, step: Step, components: seq<TaskGraph.ComponentSpec>, i: nat, t: nat)
    requires Unique(TaskGraph.Names(components)) && TaskGraph.AllOk(components, TaskGraph.Names(components), true)
    requires Exists(components, i, t) && Going(s, components, i, t) && Enabled(s, step) && !step.FinishStop?
    ensures StepLaw(s, step, components, i, t) && Going(Next(s, step), components, i, t)
  {
    StepKeepsInv(s, step);
    if step.Complete? {
      CompleteObeysLaw(s, step, components, i, t);
    } else {
      OthersMarkNothing(s, step);
      OtherObeysLaw(s, step, components, i, t);
    }
  }

  // ---- whole runs ------------------------------------------------------------------------

  /** A run of a scheduler that was started on an accepted graph, whose Stop has not ended
      before state `n`. */
  ghost predicate RunsOn(components: seq<TaskGraph.ComponentSpec>, states: seq<System>, steps: seq<Step>, n: nat) {
    && Unique(TaskGraph.Names(components)) && TaskGraph.AllOk(components, TaskGraph.Names(components), true)
    && IsRun(states, steps) && StartsWith(states[0], components)
    && n < |states| && forall k {:trigger steps[k]} :: 0 <= k < n ==> !steps[k].FinishStop?
  }

  lemma StartIsGoing(components: seq<TaskGraph.ComponentSpec>, states: seq<System>, steps: seq<Step>, i: nat, t: nat)
    requires RunsOn(components, states, steps, 0) && Exists(components, i, t)
    ensures Going(states[0], components, i, t) && Unmarked(TriggerOf(states[0], components, i, t))
  {
    RunKeepsInv(states, steps, 0);
    assert TaskGraph.FreshOf(states[0].core.taskTriggers[components[i].name], components[i].triggers);
    assert TaskGraph.Fresh(states[0].core.taskTriggers[components[i].name][t], SpecOf(components, i, t));
  }

  lemma {:induction false} RunIsGoing(
    components: seq<TaskGraph.ComponentSpec>, states: seq<System>, steps: seq<Step>, i: nat, t: nat, k: nat)
    requires RunsOn(components, states, steps, k) && Exists(components, i, t)
    ensures Going(states[k], components, i, t)
  {
    if k == 0 {
      StartIsGoing(components, states, steps, i, t);
    } else {
      RunIsGoing(components, states, steps, i, t, k - 1);
      assert Enabled(states[k - 1], steps[k - 1]) && states[k] == Next(states[k - 1], steps[k - 1]);
      StepObeysLaw(states[k - 1], steps[k - 1], components, i, t);
    }
  }

  /** The law of step `k` of a run. */
  ghost predicate LawAt(components: seq<TaskGraph.ComponentSpec>, states: seq<System>, steps: seq<Step>, i: nat, t: nat, k: nat)
    requires Exists(components, i, t) && k < |steps| && |states| == |steps| + 1
  {
    && Kept(states[k], components, i, t) && Kept(states[k + 1], components, i, t)
    && Moment(TriggerOf(states[k], components, i, t), MarkOf(states[k], steps[k], SpecOf(components, i, t).dependencies),
              TriggerOf(states[k + 1], components, i, t), Fires(states[k], steps[k], components, i, t))
    && (Fires(states[k], steps[k], components, i, t) ==> components[i].name in states[k + 1].core.queued)
  }

  lemma RunObeysLaw(
    components: seq<TaskGraph.ComponentSpec>, states: seq<System>, steps: seq<Step>, i: nat, t: nat, k: nat)
    requires RunsOn(components, states, steps, k + 1) && Exists(components, i, t)
    ensures LawAt(components, states, steps, i, t, k)
  {
    assert !steps[k].FinishStop?;
    assert RunsOn(components, states, steps, k);
    RunIsGoing(components, states, steps, i, t, k);
    assert Enabled(states[k], steps[k]) && states[k + 1] == Next(states[k], steps[k]);
    StepObeysLaw(states[k], steps[k], components, i, t);
  }

  /** The trigger's history along a run, up to state `n`. */
  ghost predicate HistoryOf(
    components: seq<TaskGraph.ComponentSpec>, states: seq<System>, steps: seq<Step>, i: nat, t: nat, n: nat,
    ts: seq<Trigger>, marks: seq<Option<nat>>, fired: seq<bool>)
    requires Exists(components, i, t) && n <= |steps| && |states| == |steps| + 1
  {
    && |ts| == n + 1 && |marks| == |fired| == n
    && (forall k {:trigger ts[k]} :: 0 <= k <= n ==> Kept(states[k], components, i, t) && ts[k] == TriggerOf(states[k], components, i, t))
    && (forall k {:trigger marks[k]} {:trigger fired[k]} :: 0 <= k < n ==>
          && Kept(states[k], components, i, t)
          && marks[k] == MarkOf(states[k], steps[k], SpecOf(components, i, t).dependencies)
          && fired[k] == Fires(states[k], steps[k], components, i, t))
  }

  lemma RunHasHistory(
    components: seq<TaskGraph.ComponentSpec>, states: seq<System>, steps: seq<Step>, i: nat, t: nat, n: nat)
    returns (ts: seq<Trigger>, marks: seq<Option<nat>>, fired: seq<bool>)
    requires RunsOn(components, states, steps, n) && Exists(components, i, t)
    ensures HistoryOf(components, states, steps, i, t, n, ts, marks, fired)
  {
    forall k {:trigger states[k]} | 0 <= k <= n ensures Kept(states[k], components, i, t) {
      RunIsGoing(components, states, steps, i, t, k);
    }
    ts := seq(n + 1, k requires 0 <= k <= n => TriggerOf(states[k], components, i, t));
    marks := seq(n, k requires 0 <= k < n => MarkOf(states[k], steps[k], SpecOf(components, i, t).dependencies));
    fired := seq(n, k requires 0 <= k < n => Fires(states[k], steps[k], components, i, t));
  }

  lemma HistoryMoment(
    components: seq<TaskGraph.ComponentSpec>, states: seq<System>, steps: seq<Step>, i: nat, t: nat, n: nat,
    ts: seq<Trigger>, marks: seq<Option<nat>>, fired: seq<bool>, k: nat)
    requires RunsOn(components, states, steps, n) && Exists(components, i, t) && k < n
    requires HistoryOf(components, states, steps, i, t, n, ts, marks, fired)
    ensures Moment(ts[k], marks[k], ts[k + 1], fired[k])
  {
    RunObeysLaw(components, states, steps, i, t, k);
    assert ts[k + 1] == TriggerOf(states[k + 1], components, i, t);
    assert ts[k] == TriggerOf(states[k], components, i, t);
  }

  lemma TriggerHistory(
    components: seq<TaskGraph.ComponentSpec>, states: seq<System>, steps: seq<Step>, i: nat, t: nat, n: nat)
    returns (ts: seq<Trigger>, marks: seq<Option<nat>>, fired: seq<bool>)
    requires RunsOn(components, states, steps, n) && Exists(components, i, t)
    ensures HistoryOf(components, states, steps, i, t, n, ts, marks, fired) && History(ts, marks, fired)
  {
    ts, marks, fired := RunHasHistory(components, states, steps, i, t, n);
    forall k | 0 <= k < n ensures Moment(ts[k], marks[k], ts[k + 1], fired[k]) {
      HistoryMoment(components, states, steps, i, t, n, ts, marks, fired, k);
    }
  }

  /** An upstream task has succeeded between two states. */
  ghost predicate Done(states: seq<System>, steps: seq<Step>, up: Name, from: nat, until: nat)
    requires until <= |steps| < |states|
  {
    exists m :: from <= m < until && Succeeds(states[m], steps[m], up)
  }

  ghost predicate AllDone(states: seq<System>, steps: seq<Step>, ups: seq<Name>, from: nat, until: nat)
    requires until <= |steps| < |states|
  {
    forall j :: 0 <= j < |ups| ==> Done(states, steps, ups[j], from, until)
  }

  lemma DoneIsHeard(
    components: seq<TaskGraph.ComponentSpec>, states: seq<System>, steps: seq<Step>, i: nat, t: nat, n: nat,
    ts: seq<Trigger>, marks: seq<Option<nat>>, fired: seq<bool>, from: nat, until: nat, j: nat)
    requires Exists(components, i, t) && until <= n <= |steps| && |states| == |steps| + 1
    requires TaskGraph.AllOk(components, TaskGraph.Names(components), true)
    requires HistoryOf(components, states, steps, i, t, n, ts, marks, fired)
    requires j < |SpecOf(components, i, t).dependencies|
    ensures Heard(marks, from, until, j) <==> Done(states, steps, SpecOf(components, i, t).dependencies[j], from, until)
  {
    var deps := SpecOf(components, i, t).dependencies;
    TaskGraph.DeclaredIsGood(components, TaskGraph.Names(components), true, i, t);
    if Heard(marks, from, until, j) {
      var m :| from <= m < until && marks[m] == Some(j);
      assert marks[m] == MarkOf(states[m], steps[m], deps);
    }
    if Done(states, steps, deps[j], from, until) {
      var m :| from <= m < until && Succeeds(states[m], steps[m], deps[j]);
      assert marks[m] == MarkOf(states[m], steps[m], deps);
      assert marks[m] == Some(j);
    }
  }

  lemma AllDoneIsAllHeard(
    components: seq<TaskGraph.ComponentSpec>, states: seq<System>, steps: seq<Step>, i: nat, t: nat, n: nat,
    ts: seq<Trigger>, marks: seq<Option<nat>>, fired: seq<bool>, from: nat, until: nat)
    requires Exists(components, i, t) && until <= n <= |steps| && |states| == |steps| + 1
    requires TaskGraph.AllOk(components, TaskGraph.Names(components), true)
    requires HistoryOf(components, states, steps, i, t, n, ts, marks, fired)
    ensures AllHeard(marks, from, until, |SpecOf(components, i, t).dependencies|)
            <==> AllDone(states, steps, SpecOf(components, i, t).dependencies, from, until)
  {
    var deps := SpecOf(components, i, t).dependencies;
    forall j: nat | j < |deps| ensures Heard(marks, from, until, j) <==> Done(states, steps, deps[j], from, until) {
      DoneIsHeard(components, states, steps, i, t, n, ts, marks, fired, from, until, j);
    }
  }

  /** The trigger is kept at state `k`, and fires or not there. */
  ghost predicate FiresAt(components: seq<TaskGraph.ComponentSpec>, states: seq<System>, steps: seq<Step>, i: nat, t: nat, k: nat)
    requires Exists(components, i, t) && k < |steps| && |states| == |steps| + 1
  {
    Kept(states[k], components, i, t) && Fires(states[k], steps[k], components, i, t)
  }

  ghost predicate UnmarkedAt(components: seq<TaskGraph.ComponentSpec>, states: seq<System>, i: nat, t: nat, k: nat)
    requires Exists(components, i, t) && k < |states|
  {
    Kept(states[k], components, i, t) && Unmarked(TriggerOf(states[k], components, i, t))
  }

  /** An All trigger that is unmarked at state `a` fires with the step after which each of its
      upstream tasks has succeeded since, and with no step before; its component is then
      queued, and it is unmarked again. */
  lemma QueuedOnceAllSucceeded(
    components: seq<TaskGraph.ComponentSpec>, states: seq<System>, steps: seq<Step>, i: nat, t: nat, a: nat, b: nat)
    requires RunsOn(components, states, steps, b + 1) && a <= b && Exists(components, i, t)
    requires SpecOf(components, i, t).policy.All? && UnmarkedAt(components, states, i, t, a)
    requires !AllDone(states, steps, SpecOf(components, i, t).dependencies, a, b)
    ensures forall k :: a <= k < b ==> !FiresAt(components, states, steps, i, t, k)
    ensures FiresAt(components, states, steps, i, t, b) <==> AllDone(states, steps, SpecOf(components, i, t).dependencies, a, b + 1)
    ensures AllDone(states, steps, SpecOf(components, i, t).dependencies, a, b + 1) ==>
              components[i].name in states[b + 1].core.queued && UnmarkedAt(components, states, i, t, b + 1)
  {
    var deps := SpecOf(components, i, t).dependencies;
    DependenciesExist(components, i, t);
    var ts, marks, fired := TriggerHistory(components, states, steps, i, t, b + 1);
    AllDoneIsAllHeard(components, states, steps, i, t, b + 1, ts, marks, fired, a, b);
    AllDoneIsAllHeard(components, states, steps, i, t, b + 1, ts, marks, fired, a, b + 1);
    assert ts[a] == TriggerOf(states[a], components, i, t);
    FiresOnceComplete(ts, marks, fired, a, b);
    forall k | a <= k < b ensures !FiresAt(components, states, steps, i, t, k) {
      assert !fired[k];
    }
    assert fired[b] == Fires(states[b], steps[b], components, i, t);
    RunObeysLaw(components, states, steps, i, t, b);
  }

  /** It is unmarked when the scheduler starts. */
  lemma UnmarkedAtStart(components: seq<TaskGraph.ComponentSpec>, states: seq<System>, steps: seq<Step>, i: nat, t: nat)
    requires RunsOn(components, states, steps, 0) && Exists(components, i, t)
    ensures UnmarkedAt(components, states, i, t, 0)
  {
    StartIsGoing(components, states, steps, i, t);
  }

  /** A component with an Any trigger is queued whenever one of its upstream tasks succeeds. */
  lemma AnyIsQueuedAtOnce(
    components: seq<TaskGraph.ComponentSpec>, states: seq<System>, steps: seq<Step>, i: nat, t: nat, k: nat, j: nat)
    requires RunsOn(components, states, steps, k + 1) && Exists(components, i, t)
    requires SpecOf(components, i, t).policy.Any? && j < |SpecOf(components, i, t).dependencies|
    requires Succeeds(states[k], steps[k], SpecOf(components, i, t).dependencies[j])
    ensures components[i].name in states[k + 1].core.queued
  {
    RunObeysLaw(components, states, steps, i, t, k);
  }

  // ---- everything that one success queues ----------------------------------------------

  lemma StepKeepsDependents(s: System, step: Step)
    requires Enabled(s, step) && !step.FinishStop?
    ensures Next(s, step).core.dependents == s.core.dependents && Next(s, step).components == s.components
  {
    if step.Complete? {
      FinishLeaves(s.core, s.workers[step.w].event.component, step.ok, step.now);
    } else {
      OthersMarkNothing(s, step);
    }
  }

  lemma {:induction false} RunKeepsWiring(components: seq<TaskGraph.ComponentSpec>, states: seq<System>, steps: seq<Step>, k: nat)
    requires RunsOn(components, states, steps, k)
    ensures Inv(states[k]) && Wiring(states[k], components) && states[k].components == Elements(TaskGraph.Names(components))
  {
    RunKeepsInv(states, steps, k);
    if k > 0 {
      RunKeepsWiring(components, states, steps, k - 1);
      var s, step := states[k - 1], steps[k - 1];
      assert Enabled(s, step) && states[k] == Next(s, step);
      StepKeepsDependents(s, step);
    }
  }

  /** One success makes one QueueEvent call for each dependent that fires, and each event that
      it adds to the queue is one of theirs. */
  lemma SuccessQueuesWhatFires(components: seq<TaskGraph.ComponentSpec>, states: seq<System>, steps: seq<Step>, k: nat, up: Name)
    requires RunsOn(components, states, steps, k + 1) && Succeeds(states[k], steps[k], up)
    ensures up in states[k].core.dependents
    ensures QueuesWhatFires(states[k].core, states[k + 1].core, states[k].core.dependents[up], steps[k].now)
  {
    RunKeepsWiring(components, states, steps, k);
    var s, step := states[k], steps[k];
    assert Enabled(s, step) && states[k + 1] == Next(s, step);
    assert up in BusyNames(s.workers);
    DependentsAreSeparate(s, components, up);
    SuccessQueues(s.core, up, step.now);
  }
}
