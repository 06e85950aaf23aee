/** The order of dispatching over whole runs (src/scheduler/scheduler.cpp:834-890). */
module DispatchOrder {
  import opened Scheduler
  import opened SchedulerRuns

  /** The step hands `e` to a worker. */
  ghost predicate Dispatches(s: System, step: Step, e: Event) {
    step.Dispatch? && step.i < |s.core.pending| && s.core.pending[step.i] == e
  }

  /** Both are pending, `e` in front of `f`. */
  ghost predicate InFront(pending: seq<Event>, e: Event, f: Event) {
    exists p, q :: 0 <= p < q < |pending| && pending[p] == e && pending[q] == f
  }

  lemma AppendsKeeps(before: seq<Event>, after: seq<Event>, now: int, e: Event, f: Event)
    requires Appends(before, after, now)
    ensures e in before ==> e in after
    ensures InFront(before, e, f) ==> InFront(after, e, f)
  {
    assert forall k :: 0 <= k < |before| ==> after[..|before|][k] == after[k];
    if InFront(before, e, f) {
      var p, q :| 0 <= p < q < |before| && before[p] == e && before[q] == f;
      assert after[p] == e && after[q] == f;
    }
  }

  lemma RemoveKeeps(pending: seq<Event>, i: nat, e: Event, f: Event)
    requires i < |pending|
    ensures e in pending && pending[i] != e ==> e in RemoveAt(pending, i)
    ensures InFront(pending, e, f) && pending[i] != e && pending[i] != f ==> InFront(RemoveAt(pending, i), e, f)
  {
    var rest := RemoveAt(pending, i);
    assert forall k :: 0 <= k < |rest| ==> rest[k] == pending[if k < i then k else k + 1];
    forall k | 0 <= k < |pending| && k != i ensures rest[if k < i then k else k - 1] == pending[k] {
    }
    if InFront(pending, e, f) && pending[i] != e && pending[i] != f {
      var p, q :| 0 <= p < q < |pending| && pending[p] == e && pending[q] == f;
      var p', q' := if p < i then p else p - 1, if q < i then q else q - 1;
      assert rest[p'] == e && rest[q'] == f;
    }
  }

  /** A pending event stays so unless the step dispatches it, and behind the same events. */
  lemma StepKeepsPending(s: System, step: Step, e: Event, f: Event)
    requires Inv(s) && Enabled(s, step)
    ensures e in s.core.pending && !Dispatches(s, step, e) ==> e in Next(s, step).core.pending
    ensures InFront(s.core.pending, e, f) && !Dispatches(s, step, e) && !Dispatches(s, step, f) ==>
              InFront(Next(s, step).core.pending, e, f)
  {
    var before, after := s.core.pending, Next(s, step).core.pending;
    match step
    case Enqueue(name, deadline, priority, now) =>
      if s.core.running && !s.core.stopping {
        QueueAppends(s.core, name, deadline, priority, now);
        AppendsKeeps(before, after, now, e, f);
      }
    case Data(name, index, input, now) => DataKeepsPending(s, step, e, f);
    case Dispatch(w, i, now) => RemoveKeeps(before, i, e, f);
    case Complete(w, ok, now) =>
      FinishAppends(s.core, s.workers[w].event.component, ok, now);
      AppendsKeeps(before, after, now, e, f);
    case FinishStop => assert s.workers[0].Left?;
    case _ =>
  }

  lemma DataKeepsPending(s: System, step: Step, e: Event, f: Event)
    requires Enabled(s, step) && step.Data?
    ensures e in s.core.pending ==> e in Next(s, step).core.pending
    ensures InFront(s.core.pending, e, f) ==> InFront(Next(s, step).core.pending, e, f)
  {
    var before, after := s.core.pending, Next(s, step).core.pending;
    if after != before {
      var t := Arrived(s.core.dataTriggers[step.name][step.index], step.input).0;
      var marked := s.core.(dataTriggers := WithTrigger(s.core.dataTriggers, step.name, step.index, t));
      QueueAppends(marked, step.name, t.deadline, t.priority, step.now);
      AppendsKeeps(before, after, step.now, e, f);
    }
  }

  lemma {:induction false} StaysUntilDispatched(states: seq<System>, steps: seq<Step>, i: nat, j: nat, e: Event)
    requires IsRun(states, steps) && i <= j < |states| && e in states[i].core.pending
    requires forall k {:trigger steps[k]} :: i <= k < j ==> !Dispatches(states[k], steps[k], e)
    ensures e in states[j].core.pending
    decreases j
  {
    if i < j {
      StaysUntilDispatched(states, steps, i, j - 1, e);
      RunKeepsInv(states, steps, j - 1);
      assert Enabled(states[j - 1], steps[j - 1]) && states[j] == Next(states[j - 1], steps[j - 1]);
      StepKeepsPending(states[j - 1], steps[j - 1], e, e);
    }
  }

  lemma {:induction false} StaysInFront(states: seq<System>, steps: seq<Step>, i: nat, j: nat, e: Event, f: Event)
    requires IsRun(states, steps) && i <= j < |states| && InFront(states[i].core.pending, e, f)
    requires forall k {:trigger steps[k]} :: i <= k < j ==> !Dispatches(states[k], steps[k], e) && !Dispatches(states[k], steps[k], f)
    ensures InFront(states[j].core.pending, e, f)
    decreases j
  {
    if i < j {
      StaysInFront(states, steps, i, j - 1, e, f);
      RunKeepsInv(states, steps, j - 1);
      assert Enabled(states[j - 1], steps[j - 1]) && states[j] == Next(states[j - 1], steps[j - 1]);
      StepKeepsPending(states[j - 1], steps[j - 1], e, f);
    }
  }

  /** At the moment of dispatching `f`, `e` ranks above it: it has the higher effective
      priority, or the same and the earlier due time. */
  ghost predicate RanksAbove(e: Event, f: Event, interval: int, now: int) {
    || EffectivePriority(f, interval, now) < EffectivePriority(e, interval, now)
    || (EffectivePriority(f, interval, now) == EffectivePriority(e, interval, now) && e.dueTime < f.dueTime)
  }

  /** A dispatch never passes over an event that may run and ranks above. */
  lemma NothingAboveIsPassedOver(s: System, step: Step, e: Event, f: Event)
    requires Enabled(s, step) && Dispatches(s, step, f)
    requires e in s.core.pending && e.component !in s.core.executing
    ensures !RanksAbove(e, f, s.interval, step.now)
  {
    var p :| 0 <= p < |s.core.pending| && s.core.pending[p] == e;
    ChosenGoesFirst(s.core.pending, s.core.executing, s.interval, step.now, step.i);
    assert Eligible(s.core.pending, s.core.executing, p);
    assert GoesFirst(s.core.pending, s.interval, step.now, step.i, p);
  }

  /** Of two pending events, the one with the higher effective priority goes first, and of
      two with the same the one due earlier: if the other is dispatched at `j` while it may
      run, it has been dispatched before. */
  lemma HigherOrEarlierGoesFirst(states: seq<System>, steps: seq<Step>, i: nat, j: nat, e: Event, f: Event)
    requires IsRun(states, steps) && i <= j < |steps| && e in states[i].core.pending
    requires Dispatches(states[j], steps[j], f) && e.component !in states[j].core.executing
    requires RanksAbove(e, f, states[j].interval, steps[j].now)
    ensures exists k :: i <= k < j && Dispatches(states[k], steps[k], e)
  {
    if forall k :: i <= k < j ==> !Dispatches(states[k], steps[k], e) {
      StaysUntilDispatched(states, steps, i, j, e);
      assert Enabled(states[j], steps[j]);
      NothingAboveIsPassedOver(states[j], steps[j], e, f);
    }
  }

  /** Of two that are equal in both, the one queued first goes first. */
  lemma QueuedFirstGoesFirst(states: seq<System>, steps: seq<Step>, i: nat, j: nat, e: Event, f: Event)
    requires IsRun(states, steps) && i <= j < |steps| && InFront(states[i].core.pending, e, f)
    requires Dispatches(states[j], steps[j], f) && e.component !in states[j].core.executing
    requires forall k {:trigger steps[k]} :: i <= k < j ==> !Dispatches(states[k], steps[k], f)
    requires e.dueTime == f.dueTime
    requires EffectivePriority(e, states[j].interval, steps[j].now) == EffectivePriority(f, states[j].interval, steps[j].now)
    ensures exists k :: i <= k < j && Dispatches(states[k], steps[k], e)
  {
    if forall k :: i <= k < j ==> !Dispatches(states[k], steps[k], e) {
      StaysInFront(states, steps, i, j, e, f);
      InFrontGoesFirst(states, steps, j, e, f);
    }
  }

  lemma InFrontGoesFirst(states: seq<System>, steps: seq<Step>, j: nat, e: Event, f: Event)
    requires IsRun(states, steps) && j < |steps| && InFront(states[j].core.pending, e, f)
    requires Dispatches(states[j], steps[j], f) && e.component !in states[j].core.executing
    requires e.dueTime == f.dueTime
    ensures EffectivePriority(e, states[j].interval, steps[j].now) != EffectivePriority(f, states[j].interval, steps[j].now)
  {
    var s, step := states[j], steps[j];
    RunKeepsInv(states, steps, j);
    assert Enabled(s, step);
    var p, q :| 0 <= p < q < |s.core.pending| && s.core.pending[p] == e && s.core.pending[q] == f;
    assert q == step.i;
    ChosenGoesFirst(s.core.pending, s.core.executing, s.interval, step.now, step.i);
    assert Eligible(s.core.pending, s.core.executing, p);
    assert GoesFirst(s.core.pending, s.interval, step.now, step.i, p);
  }
}
