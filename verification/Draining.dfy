/** What Stop promises: everything queued before it is run, and nothing is queued after. */
module Draining {
  import opened Scheduler
  import opened SchedulerRuns

  /** The scheduler is stopping in every state after step `i` up to state `j`. */
  ghost predicate StoppingSince(states: seq<System>, steps: seq<Step>, i: nat, j: nat)
    requires i < j <= |steps| < |states|
  {
    steps[i] == BeginStop && forall k :: i < k < j ==> steps[k] != FinishStop
  }

  lemma MultisetOfRemoveAt(s: seq<Event>, i: nat)
    requires i < |s|
    ensures multiset(s) == multiset(RemoveAt(s, i)) + multiset{s[i]}
  {
    assert s == s[..i] + [s[i]] + s[i + 1..];
  }

  /** One step of a stopping scheduler: no QueueEvent call, and an event only leaves the
      queue by being dispatched. */
  lemma StoppingStep(s: System, step: Step)
    requires Inv(s) && Enabled(s, step) && s.core.stopping && step != FinishStop
    ensures var s' := Next(s, step);
            && s'.core.stopping && s'.core.calls == s.core.calls
            && s.history <= s'.history
            && multiset(s'.core.pending) + multiset(s'.history[|s.history|..]) == multiset(s.core.pending)
  {
    var s' := Next(s, step);
    if step.Complete? {
      var name := s.workers[step.w].event.component;
      assert name in BusyNames(s.workers);
      FinishAppends(s.core, name, step.ok, step.now);
      FinishFrame(s.core, name, step.ok, step.now);
    }
    if step.Dispatch? {
      MultisetOfRemoveAt(s.core.pending, step.i);
      assert s'.history[|s.history|..] == [s.core.pending[step.i]];
    } else {
      assert s'.history[|s.history|..] == [];
    }
  }

  /** Two stretches of dispatches, one after the other. */
  lemma Chain(h: seq<Event>, h': seq<Event>, h'': seq<Event>, p: seq<Event>, p': seq<Event>, p'': seq<Event>)
    requires h <= h' <= h''
    requires multiset(p') + multiset(h'[|h|..]) == multiset(p)
    requires multiset(p'') + multiset(h''[|h'|..]) == multiset(p')
    ensures multiset(p'') + multiset(h''[|h|..]) == multiset(p)
  {
    assert h''[|h|..] == h'[|h|..] + h''[|h'|..];
  }

  lemma {:induction false} StoppingRun(states: seq<System>, steps: seq<Step>, i: nat, j: nat)
    requires IsRun(states, steps) && i < j <= |steps| && StoppingSince(states, steps, i, j)
    ensures states[j].core.stopping && states[j].core.calls == states[i].core.calls
    ensures states[i].history <= states[j].history
    ensures multiset(states[j].core.pending) + multiset(states[j].history[|states[i].history|..])
            == multiset(states[i].core.pending)
    decreases j
  {
    if i + 1 == j {
      assert Enabled(states[i], steps[i]) && states[j] == Next(states[i], steps[i]);
      assert states[j].history[|states[i].history|..] == [];
    } else {
      StoppingRun(states, steps, i, j - 1);
      RunKeepsInv(states, steps, j - 1);
      assert Enabled(states[j - 1], steps[j - 1]) && states[j] == Next(states[j - 1], steps[j - 1]);
      StoppingStep(states[j - 1], steps[j - 1]);
      var p, p', p'' := states[i].core.pending, states[j - 1].core.pending, states[j].core.pending;
      Chain(states[i].history, states[j - 1].history, states[j].history, p, p', p'');
    }
  }

  /** Stop drains: from the moment stopping is set until Stop returns, QueueEvent is never
      called; and when Stop returns, the events dispatched since are exactly those that
      were pending when stopping was set, each once, and none is still running. */
  lemma StopDrains(states: seq<System>, steps: seq<Step>, i: nat, j: nat)
    requires IsRun(states, steps) && i < j < |steps| && StoppingSince(states, steps, i, j)
    requires steps[j] == FinishStop
    ensures forall k :: i < k <= j ==> states[k].core.calls == states[i].core.calls
    ensures states[i].history <= states[j].history
    ensures multiset(states[j].history[|states[i].history|..]) == multiset(states[i].core.pending)
    ensures states[j].core.pending == [] && states[j].core.active == 0
  {
    forall k | i < k <= j ensures states[k].core.calls == states[i].core.calls {
      StoppingRun(states, steps, i, k);
    }
    StoppingRun(states, steps, i, j);
    RunKeepsInv(states, steps, j);
    var s := states[j];
    assert Enabled(s, steps[j]);
    assert s.workers[0].Left?;
    assert BusyNames(s.workers) == {};
  }

  /** A worker leaves only when the queue is empty, and it stays empty. */
  lemma LeftMeansDrained(states: seq<System>, steps: seq<Step>, i: nat, w: nat)
    requires IsRun(states, steps) && i < |states| && w < |states[i].workers| && states[i].workers[w].Left?
    ensures states[i].core.pending == []
  {
    RunKeepsInv(states, steps, i);
  }

  // ---- the drain ends --------------------------------------------------------------

  predicate OfWorker(step: Step) {
    step.Dispatch? || step.Complete? || step.Leave?
  }

  function NotLeft(workers: seq<Worker>): nat {
    if workers == [] then 0
    else NotLeft(workers[..|workers| - 1]) + if workers[|workers| - 1].Left? then 0 else 1
  }

  /** What the workers still have to do: take and finish every pending event, finish every
      active one, and leave. */
  function DrainWork(s: System): nat {
    2 * |s.core.pending| + s.core.active + NotLeft(s.workers)
  }

  lemma {:induction false} NotLeftOfUpdate(workers: seq<Worker>, w: nat, worker: Worker)
    requires w < |workers|
    ensures NotLeft(workers[w := worker]) + (if workers[w].Left? then 0 else 1)
         == NotLeft(workers) + (if worker.Left? then 0 else 1)
    decreases |workers|
  {
    var last, workers' := |workers| - 1, workers[w := worker];
    if w < last {
      NotLeftOfUpdate(workers[..last], w, worker);
      assert workers'[..last] == workers[..last][w := worker];
    } else {
      assert workers'[..last] == workers[..last];
    }
  }

  /** While stopping, each step of a worker uses up work, and no other step adds any. */
  lemma StoppingStepUsesWork(s: System, step: Step)
    requires Inv(s) && Enabled(s, step) && s.core.stopping && step != FinishStop
    ensures DrainWork(Next(s, step)) + (if OfWorker(step) then 1 else 0) <= DrainWork(s)
  {
    match step
    case Dispatch(w, i, now) => NotLeftOfUpdate(s.workers, w, Busy(s.core.pending[i]));
    case Complete(w, ok, now) =>
      var name := s.workers[w].event.component;
      assert name in BusyNames(s.workers);
      FinishAppends(s.core, name, ok, now);
      FinishFrame(s.core, name, ok, now);
      NotLeftOfUpdate(s.workers, w, Idle);
    case Leave(w) => NotLeftOfUpdate(s.workers, w, Left);
    case _ =>
  }

  /** Of the first `n` events, one is to be dispatched before the others, if any is eligible. */
  lemma {:induction false} ChosenExists(pending: seq<Event>, executing: set<Name>, interval: int, now: int, n: nat)
    returns (i: nat)
    requires n <= |pending| && exists j :: 0 <= j < n && Eligible(pending, executing, j)
    ensures i < n && Chosen(pending[..n], executing, interval, now, i)
    decreases n
  {
    var last := n - 1;
    if exists j :: 0 <= j < last && Eligible(pending, executing, j) {
      i := ChosenExists(pending, executing, interval, now, last);
      if Eligible(pending, executing, last) && Beats(pending[last], pending[i], interval, now) {
        BeatsWinner(pending, executing, interval, now, i, last);
        i := last;
      } else {
        WinnerStays(pending, executing, interval, now, i, last);
      }
    } else {
      i := last;
      assert Eligible(pending, executing, last);
      assert forall j :: 0 <= j < n && Eligible(pending[..n], executing, j) ==> Eligible(pending, executing, j);
    }
  }

  lemma BeatsWinner(pending: seq<Event>, executing: set<Name>, interval: int, now: int, i: nat, last: nat)
    requires last < |pending| && Chosen(pending[..last], executing, interval, now, i)
    requires Eligible(pending, executing, last) && Beats(pending[last], pending[i], interval, now)
    ensures Chosen(pending[..last + 1], executing, interval, now, last)
  {
    var more := pending[..last + 1];
    forall j | 0 <= j < last && Eligible(more, executing, j) ensures Beats(more[last], more[j], interval, now) {
      assert Eligible(pending[..last], executing, j) && pending[..last][j] == more[j];
    }
  }

  lemma WinnerStays(pending: seq<Event>, executing: set<Name>, interval: int, now: int, i: nat, last: nat)
    requires last < |pending| && Chosen(pending[..last], executing, interval, now, i)
    requires !(Eligible(pending, executing, last) && Beats(pending[last], pending[i], interval, now))
    ensures Chosen(pending[..last + 1], executing, interval, now, i)
  {
    var less, more := pending[..last], pending[..last + 1];
    forall j | 0 <= j < |more| && Eligible(more, executing, j) ensures !Beats(more[j], more[i], interval, now) {
      if j < last { assert Eligible(less, executing, j) && less[j] == more[j]; }
    }
    forall j | 0 <= j < i && Eligible(more, executing, j) ensures Beats(more[i], more[j], interval, now) {
      assert Eligible(less, executing, j) && less[j] == more[j];
    }
  }

  /** A stopping scheduler is never stuck: a worker can take, finish or leave, or Stop returns. */
  lemma StoppingIsNotStuck(s: System) returns (step: Step)
    requires Inv(s) && s.core.stopping
    ensures Enabled(s, step) && (OfWorker(step) || step == FinishStop)
  {
    if w :| 0 <= w < |s.workers| && s.workers[w].Busy? {
      assert s.workers[w].event.component in BusyNames(s.workers);
      step := Complete(w, true, s.clock);
    } else if s.core.pending != [] {
      assert BusyNames(s.workers) == {};
      assert Eligible(s.core.pending, s.core.executing, 0);
      var i := ChosenExists(s.core.pending, s.core.executing, s.interval, s.clock, |s.core.pending|);
      assert s.core.pending[..|s.core.pending|] == s.core.pending;
      assert !s.workers[0].Left?;
      step := Dispatch(0, i, s.clock);
    } else if w :| 0 <= w < |s.workers| && s.workers[w].Idle? {
      step := Leave(w);
    } else {
      step := FinishStop;
    }
  }

  /** The steps that workers take from state `i` on, before state `j`. */
  function WorkerSteps(steps: seq<Step>, i: nat, j: nat): nat
    requires i <= j <= |steps|
    decreases j
  {
    if i == j then 0 else WorkerSteps(steps, i, j - 1) + if OfWorker(steps[j - 1]) then 1 else 0
  }

  /** The drain ends: however triggers, callers and the clock interleave with it, the workers
      take no more steps before Stop returns than there was work when stopping was set. */
  lemma {:induction false} DrainEnds(states: seq<System>, steps: seq<Step>, i: nat, j: nat)
    requires IsRun(states, steps) && i < j <= |steps| && StoppingSince(states, steps, i, j)
    ensures WorkerSteps(steps, i + 1, j) + DrainWork(states[j]) <= DrainWork(states[i])
    decreases j
  {
    if i + 1 == j {
      assert Enabled(states[i], steps[i]) && states[j] == Next(states[i], steps[i]);
    } else {
      DrainEnds(states, steps, i, j - 1);
      RunKeepsInv(states, steps, j - 1);
      StoppingRun(states, steps, i, j - 1);
      assert Enabled(states[j - 1], steps[j - 1]) && states[j] == Next(states[j - 1], steps[j - 1]);
      StoppingStepUsesWork(states[j - 1], steps[j - 1]);
    }
  }
}
