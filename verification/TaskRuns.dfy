/** On an accepted task graph, work dies out: with no further triggers from outside, every
    run of dispatches and completions ends. */
module TaskRuns {
  import opened Scheduler
  import opened SchedulerRuns
  import opened Kahn
  import TaskGraph

  /** The place of `x` in `order`, or its length. */
  function Position(order: seq<Name>, x: Name): (p: nat)
    ensures p <= |order| && (p < |order| ==> order[p] == x) && (p == |order| <==> x !in order)
  {
    if order == [] then 0
    else if order[0] == x then 0
    else 1 + Position(order[1..], x)
  }

  /** One plus the weights of everything directly downstream: the number of downstream
      paths of `c`, for an `order` in which nodes come before what depends on them. */
  function Weight(order: seq<Name>, edges: seq<Edge<Name>>, c: Name): (w: nat)
    ensures w >= 1
    decreases |order| - Position(order, c), 1, 0
  {
    1 + Weights(order, edges, Downs(edges, c), Position(order, c))
  }

  /** The summed weights of `ds`, as far as they come after place `p`. */
  function Weights(order: seq<Name>, edges: seq<Edge<Name>>, ds: seq<Name>, p: nat): nat
    requires p <= |order|
    decreases |order| - p, 0, |ds|
  {
    if ds == [] then 0
    else
      var last := ds[|ds| - 1];
      Weights(order, edges, ds[..|ds| - 1], p) + if Position(order, last) > p then Weight(order, edges, last) else 0
  }

  /** The weights of a list, whatever their place. */
  function Sum(order: seq<Name>, edges: seq<Edge<Name>>, ds: seq<Name>): nat {
    if ds == [] then 0 else Sum(order, edges, ds[..|ds| - 1]) + Weight(order, edges, ds[|ds| - 1])
  }

  ghost predicate IsOrder(order: seq<Name>, edges: seq<Edge<Name>>) {
    Unique(order) && Ordered(edges, order) && Over(edges, order)
  }

  /** Everything downstream does come later. */
  lemma DownstreamIsLater(order: seq<Name>, edges: seq<Edge<Name>>, c: Name, d: Name)
    requires IsOrder(order, edges) && Edge(c, d) in edges
    ensures Position(order, d) > Position(order, c)
  {
    var p := Position(order, d);
    assert order[p] == d;
    assert c in order[..p];
    var k :| 0 <= k < p && order[k] == c;
    assert order[Position(order, c)] == c;
  }

  lemma {:induction false} WeightsAreSum(order: seq<Name>, edges: seq<Edge<Name>>, c: Name, ds: seq<Name>)
    requires IsOrder(order, edges) && forall i :: 0 <= i < |ds| ==> Edge(c, ds[i]) in edges
    ensures Weights(order, edges, ds, Position(order, c)) == Sum(order, edges, ds)
    decreases |ds|
  {
    if ds != [] {
      WeightsAreSum(order, edges, c, ds[..|ds| - 1]);
      DownstreamIsLater(order, edges, c, ds[|ds| - 1]);
    }
  }

  lemma WeightUnfolds(order: seq<Name>, edges: seq<Edge<Name>>, c: Name)
    requires IsOrder(order, edges)
    ensures Weight(order, edges, c) == 1 + Sum(order, edges, Downs(edges, c))
  {
    forall i | 0 <= i < |Downs(edges, c)| ensures Edge(c, Downs(edges, c)[i]) in edges {
      DownsAreNodes(edges, c, Downs(edges, c)[i]);
    }
    WeightsAreSum(order, edges, c, Downs(edges, c));
  }

  // ---- the measure -----------------------------------------------------------------

  function PendingWeight(order: seq<Name>, edges: seq<Edge<Name>>, pending: seq<Event>): nat {
    if pending == [] then 0
    else
      PendingWeight(order, edges, pending[..|pending| - 1])
        + 2 * Weight(order, edges, pending[|pending| - 1].component)
  }

  function WorkerWeight(order: seq<Name>, edges: seq<Edge<Name>>, workers: seq<Worker>): nat {
    if workers == [] then 0
    else
      WorkerWeight(order, edges, workers[..|workers| - 1]) + OneWorker(order, edges, workers[|workers| - 1])
  }

  function OneWorker(order: seq<Name>, edges: seq<Edge<Name>>, w: Worker): nat {
    if w.Busy? then 2 * Weight(order, edges, w.event.component) - 1 else 0
  }

  /** Work left: each pending event counts twice its weight, each running one that less one. */
  function Work(order: seq<Name>, edges: seq<Edge<Name>>, s: System): nat {
    PendingWeight(order, edges, s.core.pending) + WorkerWeight(order, edges, s.workers)
  }

  lemma {:induction false} PendingWeightOfConcat(order: seq<Name>, edges: seq<Edge<Name>>, a: seq<Event>, b: seq<Event>)
    ensures PendingWeight(order, edges, a + b) == PendingWeight(order, edges, a) + PendingWeight(order, edges, b)
    decreases |b|
  {
    if b == [] {
      assert a + b == a;
    } else {
      PendingWeightOfConcat(order, edges, a, b[..|b| - 1]);
      assert (a + b)[..|a + b| - 1] == a + b[..|b| - 1];
    }
  }

  lemma PendingWeightOfRemoveAt(order: seq<Name>, edges: seq<Edge<Name>>, pending: seq<Event>, i: nat)
    requires i < |pending|
    ensures PendingWeight(order, edges, pending)
            == PendingWeight(order, edges, RemoveAt(pending, i)) + 2 * Weight(order, edges, pending[i].component)
  {
    var a, e, b := pending[..i], [pending[i]], pending[i + 1..];
    assert pending == (a + e) + b;
    PendingWeightOfConcat(order, edges, a + e, b);
    PendingWeightOfConcat(order, edges, a, e);
    PendingWeightOfConcat(order, edges, a, b);
    assert e[..0] == [];
    assert PendingWeight(order, edges, e) == PendingWeight(order, edges, []) + 2 * Weight(order, edges, e[0].component);
  }

  lemma {:induction false} WorkerWeightOfUpdate(order: seq<Name>, edges: seq<Edge<Name>>, workers: seq<Worker>, w: nat, worker: Worker)
    requires w < |workers|
    ensures WorkerWeight(order, edges, workers[w := worker]) + OneWorker(order, edges, workers[w])
            == WorkerWeight(order, edges, workers) + OneWorker(order, edges, worker)
  {
    var init := workers[..|workers| - 1];
    if w < |workers| - 1 {
      WorkerWeightOfUpdate(order, edges, init, w, worker);
      assert workers[w := worker][..|workers| - 1] == init[w := worker];
    } else {
      assert workers[w := worker][..|workers| - 1] == init;
    }
  }

  /** Marking one dependent queues at most one event of that component. */
  lemma FireAddsAtMost(order: seq<Name>, edges: seq<Edge<Name>>, s: Core, d: Dependent, now: int)
    requires Wired(s, d)
    ensures PendingWeight(order, edges, Fire(s, d, now).pending)
            <= PendingWeight(order, edges, s.pending) + 2 * Weight(order, edges, d.component)
  {
    var s' := Fire(s, d, now);
    if s'.pending != s.pending {
      assert s'.pending[..|s'.pending| - 1] == s.pending;
    }
  }

  lemma {:induction false} SumFromFront(order: seq<Name>, edges: seq<Edge<Name>>, x: Name, ds: seq<Name>)
    ensures Sum(order, edges, [x] + ds) == Weight(order, edges, x) + Sum(order, edges, ds)
    decreases |ds|
  {
    if ds == [] {
      assert ([x] + ds)[..0] == [];
    } else {
      SumFromFront(order, edges, x, ds[..|ds| - 1]);
      assert ([x] + ds)[..|ds|] == [x] + ds[..|ds| - 1];
    }
  }

  lemma {:induction false} TargetsFromFront(d: Dependent, ds: seq<Dependent>)
    ensures TaskGraph.Targets([d] + ds) == [d.component] + TaskGraph.Targets(ds)
    decreases |ds|
  {
    if ds == [] {
      assert ([d] + ds)[..0] == [];
    } else {
      TargetsFromFront(d, ds[..|ds| - 1]);
      assert ([d] + ds)[..|ds|] == [d] + ds[..|ds| - 1];
    }
  }

  lemma {:induction false} FireAllAddsAtMost(order: seq<Name>, edges: seq<Edge<Name>>, s: Core, ds: seq<Dependent>, now: int)
    requires forall i :: 0 <= i < |ds| ==> Wired(s, ds[i])
    ensures PendingWeight(order, edges, FireAll(s, ds, now).pending)
            <= PendingWeight(order, edges, s.pending) + 2 * Sum(order, edges, TaskGraph.Targets(ds))
    decreases |ds|
  {
    if ds != [] {
      FireKeepsShape(s, ds[0], now);
      FireAddsAtMost(order, edges, s, ds[0], now);
      FireAllAddsAtMost(order, edges, Fire(s, ds[0], now), ds[1..], now);
      TargetsFromFront(ds[0], ds[1..]);
      SumFromFront(order, edges, ds[0].component, TaskGraph.Targets(ds[1..]));
      assert ds == [ds[0]] + ds[1..];
    }
  }

  /** The installed dependents are the successors in `edges`, for every known component. */
  ghost predicate Installed(s: System, edges: seq<Edge<Name>>) {
    forall n :: n in s.components && n in s.core.dependents ==> TaskGraph.Targets(s.core.dependents[n]) == Downs(edges, n)
  }

  lemma FinishAddsAtMost(order: seq<Name>, edges: seq<Edge<Name>>, s: Core, name: Name, ok: bool, now: int)
    requires AllWired(s) && s.active > 0 && IsOrder(order, edges)
    requires name in s.dependents ==> TaskGraph.Targets(s.dependents[name]) == Downs(edges, name)
    ensures PendingWeight(order, edges, Finish(s, name, ok, now).pending)
            <= PendingWeight(order, edges, s.pending) + 2 * Weight(order, edges, name) - 2
  {
    var s' := s.(dispatched := s.dispatched + 1, active := s.active - 1, executing := s.executing - {name});
    if ok && !s.stopping && name in s.dependents {
      var ds := s.dependents[name];
      assert forall i :: 0 <= i < |ds| ==> Wired(s', ds[i]);
      assert Finish(s, name, ok, now) == FireAll(s', ds, now);
      FireAllAddsAtMost(order, edges, s', ds, now);
      WeightUnfolds(order, edges, name);
    } else {
      assert Finish(s, name, ok, now).pending == s.pending;
    }
  }

  /** Steps that need nothing from outside. */
  predicate Internal(step: Step) {
    step.Dispatch? || step.Complete?
  }

  /** Every step from state `i` to state `j` is one. */
  ghost predicate InternalRun(steps: seq<Step>, i: nat, j: nat) {
    i <= j <= |steps| && forall k :: i <= k < j ==> Internal(steps[k])
  }

  lemma InternalStepDoesWork(order: seq<Name>, edges: seq<Edge<Name>>, s: System, step: Step)
    requires Inv(s) && Enabled(s, step) && Internal(step) && Installed(s, edges) && IsOrder(order, edges)
    ensures Work(order, edges, Next(s, step)) < Work(order, edges, s) && Installed(Next(s, step), edges)
  {
    match step
    case Dispatch(w, i, now) =>
      PendingWeightOfRemoveAt(order, edges, s.core.pending, i);
      WorkerWeightOfUpdate(order, edges, s.workers, w, Busy(s.core.pending[i]));
    case Complete(w, ok, now) =>
      var name := s.workers[w].event.component;
      assert name in BusyNames(s.workers);
      FinishFrame(s.core, name, ok, now);
      FinishAddsAtMost(order, edges, s.core, name, ok, now);
      WorkerWeightOfUpdate(order, edges, s.workers, w, Idle);
  }

  lemma {:induction false} RunDoesWork(
    order: seq<Name>, edges: seq<Edge<Name>>, states: seq<System>, steps: seq<Step>, i: nat, j: nat)
    requires IsRun(states, steps) && IsOrder(order, edges) && InternalRun(steps, i, j) && Installed(states[i], edges)
    ensures Work(order, edges, states[j]) + (j - i) <= Work(order, edges, states[i]) && Installed(states[j], edges)
    decreases j
  {
    if i < j {
      RunDoesWork(order, edges, states, steps, i, j - 1);
      RunKeepsInv(states, steps, j - 1);
      assert Enabled(states[j - 1], steps[j - 1]) && states[j] == Next(states[j - 1], steps[j - 1]);
      InternalStepDoesWork(order, edges, states[j - 1], steps[j - 1]);
    }
  }

  /** On an acyclic graph, with nothing triggered from outside, no run of dispatches and
      completions goes on for ever: some bound that depends on the first state alone, the
      work left in it, limits the length of all of them. */
  lemma WorkDiesOut(names: seq<Name>, edges: seq<Edge<Name>>, states: seq<System>, steps: seq<Step>, i: nat)
    returns (order: seq<Name>)
    requires Unique(names) && Over(edges, names) && Acyclic(edges)
    requires IsRun(states, steps) && i < |states| && Installed(states[i], edges)
    ensures forall j: nat :: InternalRun(steps, i, j) ==> j - i <= Work(order, edges, states[i])
  {
    order := TopologicalOrder(names, edges, []);
    forall e | e in edges ensures e.up in order && e.down in order {
      assert e.up in Elements(names) && e.down in Elements(names);
    }
    forall j: nat | InternalRun(steps, i, j) ensures j - i <= Work(order, edges, states[i]) {
      RunDoesWork(order, edges, states, steps, i, j);
    }
  }

  // ---- accepted graphs -------------------------------------------------------------

  /** A system that starts with these components and what was installed for them. */
  ghost predicate StartsWith(s: System, components: seq<TaskGraph.ComponentSpec>) {
    && s.components == Elements(TaskGraph.Names(components))
    && TaskGraph.WiredAs(components, s.core.taskTriggers, s.core.dependents)
  }

  /** What InstallTaskTriggers installs for an accepted graph is wired as the runs need it. */
  lemma AcceptedIsInstalled(s: System, components: seq<TaskGraph.ComponentSpec>)
    requires StartsWith(s, components)
    ensures Installed(s, TaskGraph.Edges(components)) && AllWired(s.core) && Local(s)
  {
    forall name, i | name in s.core.dependents && 0 <= i < |s.core.dependents[name]|
      ensures Wired(s.core, s.core.dependents[name][i])
    {
      TaskGraph.WiredPoints(components, s.core.taskTriggers, s.core.dependents, name, i);
    }
  }

  lemma DataFrame(s: Core, name: Name, index: nat, input: nat, now: int)
    requires Has(s.dataTriggers, name, index, input)
    ensures DataArrived(s, name, index, input, now).dependents == s.dependents
  {
  }

  /** No step rewires a component; Stop clears what was installed. */
  lemma StepKeepsInstalled(s: System, step: Step, edges: seq<Edge<Name>>)
    requires Inv(s) && Enabled(s, step) && Installed(s, edges)
    ensures Installed(Next(s, step), edges)
  {
    match step
    case Data(name, index, input, now) => DataFrame(s.core, name, index, input, now);
    case Complete(w, ok, now) => FinishFrame(s.core, s.workers[w].event.component, ok, now);
    case _ =>
  }

  lemma {:induction false} RunKeepsInstalled(states: seq<System>, steps: seq<Step>, i: nat, edges: seq<Edge<Name>>)
    requires IsRun(states, steps) && i < |states| && Installed(states[0], edges)
    ensures Installed(states[i], edges)
  {
    if i > 0 {
      RunKeepsInstalled(states, steps, i - 1, edges);
      RunKeepsInv(states, steps, i - 1);
      assert Enabled(states[i - 1], steps[i - 1]) && states[i] == Next(states[i - 1], steps[i - 1]);
      StepKeepsInstalled(states[i - 1], steps[i - 1], edges);
    }
  }

  /** A scheduler that was started on a graph it accepts only ever has finite work: from any
      point of any run, a bound on the dispatches and completions that can follow without a
      trigger from outside. */
  lemma AcceptedWorkDiesOut(components: seq<TaskGraph.ComponentSpec>, states: seq<System>, steps: seq<Step>, i: nat)
    returns (order: seq<Name>)
    requires Unique(TaskGraph.Names(components)) && Acyclic(TaskGraph.Edges(components))
    requires TaskGraph.AllOk(components, TaskGraph.Names(components), true)
    requires IsRun(states, steps) && i < |states| && StartsWith(states[0], components)
    ensures forall j: nat :: InternalRun(steps, i, j) ==> j - i <= Work(order, TaskGraph.Edges(components), states[i])
  {
    var names, edges := TaskGraph.Names(components), TaskGraph.Edges(components);
    TaskGraph.EdgesOver(components, names, true);
    AcceptedIsInstalled(states[0], components);
    RunKeepsInstalled(states, steps, i, edges);
    order := WorkDiesOut(names, edges, states, steps, i);
  }
}
