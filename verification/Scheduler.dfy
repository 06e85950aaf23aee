/** The scheduler's queue: what its mutex protects, and each of its critical sections
    as a method. Clock readings are parameters. */
module Scheduler {
  import opened Options
  import opened Basics

  /** A component name; names are only ever compared. */
  datatype Name = Name(str: string)

  const TIME_MAX: int := 0x7fff_ffff_ffff_ffff  // nanoseconds
  const MAX_BOOST: int := 0x100_0000_0000       // 2^40 levels

  /** Who calls Stop: threads of the scheduler's own, the one that is starting it, or another. */
  datatype Caller = Worker | Timer | Starter | Other

  datatype Event = Event(component: Name, deadline: int, priority: int, dueTime: int, queuedAt: int)

  datatype Policy = Any | All

  /** A data or task-dependency trigger: which of its inputs have arrived. */
  datatype Trigger = Trigger(policy: Policy, ready: seq<bool>, priority: int, deadline: int)

  /** One input of one task trigger: completing the upstream marks it. */
  datatype Dependent = Dependent(component: Name, trigger: nat, dependency: nat)

  /** Everything the scheduler's mutex protects. `calls` counts QueueEvent calls. */
  datatype Core = Core(
    pending: seq<Event>, queued: set<Name>, executing: set<Name>,
    active: nat, dispatched: nat, coalesced: nat, aged: nat, calls: nat,
    running: bool, stopping: bool,
    dataTriggers: map<Name, seq<Trigger>>, taskTriggers: map<Name, seq<Trigger>>,
    dependents: map<Name, seq<Dependent>>)

  // ---- priorities ----------------------------------------------------------------

  /** Declared priority plus one level per full aging interval waited. */
  function EffectivePriority(event: Event, interval: int, now: int): int {
    if interval > 0 && now > event.queuedAt
    then event.priority + Min((now - event.queuedAt) / interval, MAX_BOOST)
    else event.priority
  }

  predicate Beats(a: Event, b: Event, interval: int, now: int) {
    var ea, eb := EffectivePriority(a, interval, now), EffectivePriority(b, interval, now);
    ea > eb || (ea == eb && a.dueTime < b.dueTime)
  }

  /** Aging, on its numbers: nothing without an interval or a wait, else a level for each of
      the `levels` whole intervals waited, up to 2^40. */
  lemma AgingLaw(event: Event, interval: int, now: int, levels: nat)
    ensures interval <= 0 || now <= event.queuedAt ==> EffectivePriority(event, interval, now) == event.priority
    ensures interval > 0 && levels * interval <= now - event.queuedAt < (levels + 1) * interval ==>
              EffectivePriority(event, interval, now) == event.priority + if levels < MAX_BOOST then levels else MAX_BOOST
  {
    var waited := now - event.queuedAt;
    if interval > 0 && levels * interval <= waited < (levels + 1) * interval {
      QuotientIs(waited, interval, levels);
    }
  }

  lemma QuotientIs(a: int, d: int, q: nat)
    requires d > 0 && q * d <= a < (q + 1) * d
    ensures a / d == q
  {
    var r := a / d;
    assert r * d <= a < (r + 1) * d;
    ProductOrder(q, r + 1, d);
    ProductOrder(r, q + 1, d);
  }

  /** Position `i` may run now: its component is not executing. */
  predicate Eligible(pending: seq<Event>, executing: set<Name>, i: nat) {
    i < |pending| && pending[i].component !in executing
  }

  /** Position `i` is the one to dispatch: no eligible event beats it, and it beats every
      eligible one queued before it. */
  ghost predicate Chosen(pending: seq<Event>, executing: set<Name>, interval: int, now: int, i: nat) {
    && Eligible(pending, executing, i)
    && (forall j :: 0 <= j < |pending| && Eligible(pending, executing, j) ==> !Beats(pending[j], pending[i], interval, now))
    && (forall j :: 0 <= j < i && Eligible(pending, executing, j) ==> Beats(pending[i], pending[j], interval, now))
  }

  /** Of the event at `i` and the one at `j`, the first has the higher effective priority, or
      the same and the earlier due time, or the same in both and is not queued later. */
  predicate GoesFirst(pending: seq<Event>, interval: int, now: int, i: nat, j: nat)
    requires i < |pending| && j < |pending|
  {
    var ei, ej := EffectivePriority(pending[i], interval, now), EffectivePriority(pending[j], interval, now);
    || ej < ei
    || (ej == ei && pending[i].dueTime < pending[j].dueTime)
    || (ej == ei && pending[i].dueTime == pending[j].dueTime && i <= j)
  }

  /** The choice, on the numbers. */
  lemma ChosenGoesFirst(pending: seq<Event>, executing: set<Name>, interval: int, now: int, i: nat)
    ensures Chosen(pending, executing, interval, now, i)
            <==> Eligible(pending, executing, i)
                 && forall j: nat :: Eligible(pending, executing, j) ==> GoesFirst(pending, interval, now, i, j)
  {
    if Eligible(pending, executing, i) && forall j: nat :: Eligible(pending, executing, j) ==> GoesFirst(pending, interval, now, i, j) {
      forall j: nat | Eligible(pending, executing, j) ensures !Beats(pending[j], pending[i], interval, now) {
        assert GoesFirst(pending, interval, now, i, j);
      }
      forall j: nat | j < i && Eligible(pending, executing, j) ensures Beats(pending[i], pending[j], interval, now) {
        assert GoesFirst(pending, interval, now, i, j);
      }
    }
  }

  /** There is only one. */
  lemma ChosenIsUnique(pending: seq<Event>, executing: set<Name>, interval: int, now: int, i: nat, j: nat)
    requires Chosen(pending, executing, interval, now, i) && Chosen(pending, executing, interval, now, j)
    ensures i == j
  {
  }

  function DueTime(deadline: int, queuedAt: int): int {
    if 0 < deadline < TIME_MAX - queuedAt then queuedAt + deadline else TIME_MAX
  }

  // ---- queueing ------------------------------------------------------------------

  function Queue(s: Core, name: Name, deadline: int, priority: int, now: int): Core {
    if name in s.queued then s.(coalesced := s.coalesced + 1, calls := s.calls + 1)
    else s.(queued := s.queued + {name}, calls := s.calls + 1,
            pending := s.pending + [Event(name, deadline, priority, DueTime(deadline, now), now)])
  }

  /** One QueueEvent call: the name is queued; a queued name is coalesced with its event,
      another gets an event behind the others, due when its deadline has passed. */
  ghost predicate QueuesOne(s: Core, s': Core, name: Name, deadline: int, priority: int, now: int) {
    && s'.calls == s.calls + 1 && s'.queued == s.queued + {name}
    && (name in s.queued ==> s'.pending == s.pending && s'.coalesced == s.coalesced + 1)
    && (name !in s.queued ==>
          && s'.coalesced == s.coalesced
          && |s'.pending| == |s.pending| + 1 && s'.pending[..|s.pending|] == s.pending
          && var e := s'.pending[|s.pending|];
             && e.component == name && e.deadline == deadline && e.priority == priority && e.queuedAt == now
             && (0 < deadline < TIME_MAX - now ==> e.dueTime == now + deadline)
             && (deadline <= 0 || deadline >= TIME_MAX - now ==> e.dueTime == TIME_MAX))
  }

  ghost predicate QueuesNone(s: Core, s': Core) {
    s'.calls == s.calls && s'.queued == s.queued && s'.pending == s.pending && s'.coalesced == s.coalesced
  }

  predicate AllReady(ready: seq<bool>) {
    forall i :: 0 <= i < |ready| ==> ready[i]
  }

  function Cleared(ready: seq<bool>): seq<bool> {
    seq(|ready|, _ => false)
  }

  /** A trigger after input `i` arrived, and whether it fires. */
  function Arrived(t: Trigger, i: nat): (Trigger, bool)
    requires i < |t.ready|
  {
    if t.policy.Any? then (t, true)
    else
      var ready := t.ready[i := true];
      if AllReady(ready) then (t.(ready := Cleared(ready)), true) else (t.(ready := ready), false)
  }

  /** Every input but `i` has arrived. */
  ghost predicate OthersReady(ready: seq<bool>, i: nat) {
    forall j :: 0 <= j < |ready| && j != i ==> ready[j]
  }

  /** What an arrival at input `i` does to a trigger, and how often it fires: with Any, once
      and with its marks as they were; with All, not at all while another input is missing,
      and the input is marked; with All and no other input missing, once, and every mark is
      taken back. */
  ghost predicate ArrivalLaw(before: Trigger, i: nat, after: Trigger, fired: int) {
    && after.policy == before.policy && after.priority == before.priority && after.deadline == before.deadline
    && i < |after.ready| == |before.ready|
    && (before.policy.Any? ==> fired == 1 && after.ready == before.ready)
    && (before.policy.All? && !OthersReady(before.ready, i) ==> fired == 0 && after.ready == before.ready[i := true])
    && (before.policy.All? && OthersReady(before.ready, i) ==> fired == 1 && forall j :: 0 <= j < |after.ready| ==> !after.ready[j])
  }

  lemma ArrivedIsLawful(t: Trigger, i: nat)
    requires i < |t.ready|
    ensures ArrivalLaw(t, i, Arrived(t, i).0, if Arrived(t, i).1 then 1 else 0)
  {
    if t.policy.All? {
      var ready := t.ready[i := true];
      if AllReady(ready) {
        forall j | 0 <= j < |t.ready| && j != i ensures t.ready[j] {
          assert ready[j];
        }
      }
    }
  }

  predicate Has(triggers: map<Name, seq<Trigger>>, name: Name, index: nat, input: nat) {
    name in triggers && index < |triggers[name]| && input < |triggers[name][index].ready|
  }

  function WithTrigger(triggers: map<Name, seq<Trigger>>, name: Name, index: nat, t: Trigger): map<Name, seq<Trigger>>
    requires name in triggers && index < |triggers[name]|
  {
    triggers[name := triggers[name][index := t]]
  }

  function DataArrived(s: Core, name: Name, index: nat, input: nat, now: int): Core
    requires Has(s.dataTriggers, name, index, input)
  {
    if !s.running || s.stopping then s
    else
      var (t, fires) := Arrived(s.dataTriggers[name][index], input);
      var s' := s.(dataTriggers := WithTrigger(s.dataTriggers, name, index, t));
      if fires then Queue(s', name, t.deadline, t.priority, now) else s'
  }

  predicate Wired(s: Core, d: Dependent) {
    Has(s.taskTriggers, d.component, d.trigger, d.dependency)
  }

  ghost predicate AllWired(s: Core) {
    forall name, i :: name in s.dependents && 0 <= i < |s.dependents[name]| ==> Wired(s, s.dependents[name][i])
  }

  /** An upstream of `d` completed. */
  function Fire(s: Core, d: Dependent, now: int): Core
    requires Wired(s, d)
  {
    var (t, fires) := Arrived(s.taskTriggers[d.component][d.trigger], d.dependency);
    var s' := s.(taskTriggers := WithTrigger(s.taskTriggers, d.component, d.trigger, t));
    if fires then Queue(s', d.component, t.deadline, t.priority, now) else s'
  }

  /** The same inputs exist before and after. */
  ghost predicate SameShape(a: map<Name, seq<Trigger>>, b: map<Name, seq<Trigger>>) {
    forall name, index, input :: Has(a, name, index, input) <==> Has(b, name, index, input)
  }

  lemma FireKeepsShape(s: Core, d: Dependent, now: int)
    requires Wired(s, d)
    ensures SameShape(s.taskTriggers, Fire(s, d, now).taskTriggers)
  {
    var t := Arrived(s.taskTriggers[d.component][d.trigger], d.dependency).0;
    assert |t.ready| == |s.taskTriggers[d.component][d.trigger].ready|;
  }

  function FireAll(s: Core, ds: seq<Dependent>, now: int): Core
    requires forall i :: 0 <= i < |ds| ==> Wired(s, ds[i])
    decreases ds
  {
    if ds == [] then s
    else
      FireKeepsShape(s, ds[0], now);
      assert forall i :: 0 <= i < |ds[1..]| ==> Wired(s, ds[1..][i]);
      FireAll(Fire(s, ds[0], now), ds[1..], now)
  }

  // ---- dispatching ---------------------------------------------------------------

  function RemoveAt<T>(s: seq<T>, i: nat): seq<T>
    requires i < |s|
  {
    s[..i] + s[i + 1..]
  }

  /** Some eligible event has a higher declared priority than the one at `i`. */
  predicate AgingDecided(s: Core, i: nat)
    requires i < |s.pending|
  {
    exists j :: 0 <= j < |s.pending| && Eligible(s.pending, s.executing, j) && s.pending[j].priority > s.pending[i].priority
  }

  /** A worker takes the event at `i`. */
  function Take(s: Core, i: nat): Core
    requires i < |s.pending|
  {
    var name := s.pending[i].component;
    s.(pending := RemoveAt(s.pending, i), queued := s.queued - {name}, executing := s.executing + {name},
       active := s.active + 1, aged := s.aged + if AgingDecided(s, i) then 1 else 0)
  }

  /** A worker finished an event of `name`; `ok` is the component's status. */
  function Finish(s: Core, name: Name, ok: bool, now: int): Core
    requires AllWired(s) && s.active > 0
  {
    var s' := s.(dispatched := s.dispatched + 1, active := s.active - 1, executing := s.executing - {name});
    if ok && !s.stopping && name in s.dependents then FireAll(s', s.dependents[name], now) else s'
  }

  function StopBegun(s: Core): Core {
    s.(stopping := true, running := false)
  }

  function StopFinished(s: Core): Core {
    s.(pending := [], queued := {}, active := 0, stopping := false,
       dataTriggers := map[], taskTriggers := map[], dependents := map[])
  }

  // ---- the invariant of the queue ------------------------------------------------

  ghost predicate Distinct(pending: seq<Event>) {
    forall i, j :: 0 <= i < j < |pending| ==> pending[i].component != pending[j].component
  }

  /** The components with a pending event. */
  function Names(pending: seq<Event>): set<Name> {
    set e | e in pending :: e.component
  }

  /** Every name queued has exactly one pending event, every executing component counts
      as one active event, and no QueueEvent call is unaccounted for. */
  ghost predicate QueueInv(s: Core) {
    && Distinct(s.pending)
    && s.queued == Names(s.pending)
    && |s.executing| == s.active
    && s.calls == s.coalesced + s.dispatched + s.active + |s.pending|
  }

  lemma QueueKeepsInv(s: Core, name: Name, deadline: int, priority: int, now: int)
    requires QueueInv(s)
    ensures QueueInv(Queue(s, name, deadline, priority, now))
  {
    if name !in s.queued {
      NamesOfAppend(s.pending, Event(name, deadline, priority, DueTime(deadline, now), now));
      forall i | 0 <= i < |s.pending| ensures s.pending[i].component != name {
        assert s.pending[i].component in Names(s.pending);
      }
    }
  }

  lemma NamesOfAppend(pending: seq<Event>, e: Event)
    ensures Names(pending + [e]) == Names(pending) + {e.component}
  {
    assert forall x :: x in pending + [e] <==> x in pending || x == e;
    assert e in pending + [e];
  }

  lemma NamesOfRemoveAt(pending: seq<Event>, i: nat)
    requires i < |pending| && Distinct(pending)
    ensures Names(RemoveAt(pending, i)) == Names(pending) - {pending[i].component} && Distinct(RemoveAt(pending, i))
  {
    var rest := RemoveAt(pending, i);
    assert forall k :: 0 <= k < |rest| ==> rest[k] == pending[if k < i then k else k + 1];
    forall e | e in pending && e.component != pending[i].component ensures e in rest {
      var k :| 0 <= k < |pending| && pending[k] == e;
      assert rest[if k < i then k else k - 1] == e;
    }
    forall e | e in rest ensures e in pending && e.component != pending[i].component {
      var k :| 0 <= k < |rest| && rest[k] == e;
      assert e == pending[if k < i then k else k + 1];
    }
  }

  lemma TakeKeepsInv(s: Core, i: nat)
    requires QueueInv(s) && Eligible(s.pending, s.executing, i)
    ensures QueueInv(Take(s, i))
  {
    NamesOfRemoveAt(s.pending, i);
  }

  lemma FireKeepsInv(s: Core, d: Dependent, now: int)
    requires QueueInv(s) && Wired(s, d)
    ensures QueueInv(Fire(s, d, now))
  {
    var (t, fires) := Arrived(s.taskTriggers[d.component][d.trigger], d.dependency);
    var s' := s.(taskTriggers := WithTrigger(s.taskTriggers, d.component, d.trigger, t));
    assert QueueInv(s');
    if fires {
      QueueKeepsInv(s', d.component, t.deadline, t.priority, now);
    }
  }

  lemma {:induction false} FireAllKeepsInv(s: Core, ds: seq<Dependent>, now: int)
    requires QueueInv(s) && forall i :: 0 <= i < |ds| ==> Wired(s, ds[i])
    ensures QueueInv(FireAll(s, ds, now))
    decreases ds
  {
    if ds != [] {
      FireKeepsShape(s, ds[0], now);
      FireKeepsInv(s, ds[0], now);
      FireAllKeepsInv(Fire(s, ds[0], now), ds[1..], now);
    }
  }

  /** What completions leave alone. */
  lemma {:induction false} FireAllFrame(s: Core, ds: seq<Dependent>, now: int)
    requires forall i :: 0 <= i < |ds| ==> Wired(s, ds[i])
    ensures SameShape(s.taskTriggers, FireAll(s, ds, now).taskTriggers)
    ensures var s' := FireAll(s, ds, now);
            s'.dependents == s.dependents && s'.stopping == s.stopping && s'.running == s.running
            && s'.executing == s.executing && s'.active == s.active && s'.dispatched == s.dispatched
    decreases ds
  {
    if ds != [] {
      FireKeepsShape(s, ds[0], now);
      FireAllFrame(Fire(s, ds[0], now), ds[1..], now);
    }
  }

  lemma FinishKeepsInv(s: Core, name: Name, ok: bool, now: int)
    requires QueueInv(s) && AllWired(s) && name in s.executing
    ensures QueueInv(Finish(s, name, ok, now)) && AllWired(Finish(s, name, ok, now))
  {
    var s' := s.(dispatched := s.dispatched + 1, active := s.active - 1, executing := s.executing - {name});
    assert QueueInv(s');
    if ok && !s.stopping && name in s.dependents {
      FireAllKeepsInv(s', s.dependents[name], now);
      FireAllFrame(s', s.dependents[name], now);
    }
  }

  /** What a completion that marks nothing leaves alone, and what any completion does. */
  lemma FinishLeaves(s: Core, name: Name, ok: bool, now: int)
    requires AllWired(s) && s.active > 0
    ensures var s' := Finish(s, name, ok, now);
      && s'.executing == s.executing - {name} && s'.active == s.active - 1 && s'.dispatched == s.dispatched + 1
      && s'.dependents == s.dependents && s'.stopping == s.stopping && s'.running == s.running
      && (!ok || s.stopping || name !in s.dependents ==> QueuesNone(s, s') && s'.taskTriggers == s.taskTriggers)
  {
    var s' := s.(dispatched := s.dispatched + 1, active := s.active - 1, executing := s.executing - {name});
    if ok && !s.stopping && name in s.dependents {
      FireAllFrame(s', s.dependents[name], now);
    }
  }

  lemma DataArrivedKeepsInv(s: Core, name: Name, index: nat, input: nat, now: int)
    requires QueueInv(s) && Has(s.dataTriggers, name, index, input)
    ensures QueueInv(DataArrived(s, name, index, input, now))
  {
    var (t, fires) := Arrived(s.dataTriggers[name][index], input);
    var s' := s.(dataTriggers := WithTrigger(s.dataTriggers, name, index, t));
    assert QueueInv(s');
    if fires {
      QueueKeepsInv(s', name, t.deadline, t.priority, now);
    }
  }

  // ---- the scheduler -------------------------------------------------------------

  /** The selection loop: the eligible event with the highest effective priority, then the
      earliest due time, then the earliest queued; none if no event is eligible. Also the
      highest declared priority among the eligible. */
  method Select(pending: seq<Event>, executing: set<Name>, interval: int, now: int)
    returns (selected: Option<nat>, highestDeclared: int)
    ensures selected.None? ==> forall j :: 0 <= j < |pending| ==> !Eligible(pending, executing, j)
    ensures selected.Some? ==> Chosen(pending, executing, interval, now, selected.value)
    ensures selected.Some? ==> forall j: nat :: Eligible(pending, executing, j) ==>
              var ei := EffectivePriority(pending[selected.value], interval, now);
              var ej := EffectivePriority(pending[j], interval, now);
              || ej < ei
              || (ej == ei && pending[selected.value].dueTime < pending[j].dueTime)
              || (ej == ei && pending[selected.value].dueTime == pending[j].dueTime && selected.value <= j)
    ensures selected.Some? ==>
              && (forall j :: 0 <= j < |pending| && Eligible(pending, executing, j) ==> pending[j].priority <= highestDeclared)
              && (exists j :: 0 <= j < |pending| && Eligible(pending, executing, j) && pending[j].priority == highestDeclared)
  {
    selected := None;
    highestDeclared := 0;
    var selectedPriority := 0;
    for i := 0 to |pending|
      invariant selected.None? ==> forall j :: 0 <= j < i ==> !Eligible(pending, executing, j)
      invariant selected.Some? ==>
        && selected.value < i && Eligible(pending, executing, selected.value)
        && selectedPriority == EffectivePriority(pending[selected.value], interval, now)
        && (forall j :: 0 <= j < i && Eligible(pending, executing, j) ==> !Beats(pending[j], pending[selected.value], interval, now))
        && (forall j :: 0 <= j < selected.value && Eligible(pending, executing, j) ==> Beats(pending[selected.value], pending[j], interval, now))
      invariant selected.Some? ==>
        && (forall j :: 0 <= j < i && Eligible(pending, executing, j) ==> pending[j].priority <= highestDeclared)
        && (exists j :: 0 <= j < i && Eligible(pending, executing, j) && pending[j].priority == highestDeclared)
    {
      var candidate := pending[i];
      if candidate.component in executing {
        continue;
      }
      assert Eligible(pending, executing, i);
      if selected.None? || candidate.priority > highestDeclared {
        highestDeclared := candidate.priority;
      }
      var effective := EffectivePriority(candidate, interval, now);
      if || selected.None?
         || effective > selectedPriority
         || (effective == selectedPriority && candidate.dueTime < pending[selected.value].dueTime)
      {
        selected := Some(i);
        selectedPriority := effective;
      }
    }
    if selected.Some? {
      ChosenGoesFirst(pending, executing, interval, now, selected.value);
      assert forall j: nat :: Eligible(pending, executing, j) ==> GoesFirst(pending, interval, now, selected.value, j);
    }
  }

  datatype Status = Ok | FailedPrecondition

  class Scheduler {
    const interval: int
    var pending: seq<Event>
    var queued: set<Name>
    var executing: set<Name>
    var active: nat
    var dispatched: nat
    var coalesced: nat
    var aged: nat
    ghost var calls: nat
    var running: bool
    var stopping: bool
    var dataTriggers: map<Name, seq<Trigger>>
    var taskTriggers: map<Name, seq<Trigger>>
    var dependents: map<Name, seq<Dependent>>

    ghost function View(): Core
      reads this
    {
      Core(pending, queued, executing, active, dispatched, coalesced, aged, calls, running, stopping,
           dataTriggers, taskTriggers, dependents)
    }

    ghost predicate Valid()
      reads this
    {
      QueueInv(View()) && AllWired(View())
    }

    constructor (interval: int, dataTriggers: map<Name, seq<Trigger>>, taskTriggers: map<Name, seq<Trigger>>,
                 dependents: map<Name, seq<Dependent>>)
      requires forall name, i :: name in dependents && 0 <= i < |dependents[name]| ==>
                 Has(taskTriggers, dependents[name][i].component, dependents[name][i].trigger, dependents[name][i].dependency)
      ensures Valid() && this.interval == interval
      ensures View() == Core([], {}, {}, 0, 0, 0, 0, 0, true, false, dataTriggers, taskTriggers, dependents)
    {
      this.interval := interval;
      pending, queued, executing := [], {}, {};
      active, dispatched, coalesced, aged, calls := 0, 0, 0, 0, 0;
      running, stopping := true, false;
      this.dataTriggers, this.taskTriggers, this.dependents := dataTriggers, taskTriggers, dependents;
    }

    /** Called with the mutex held; coalescing keeps the first event's attributes. */
    method QueueEvent(name: Name, deadline: int, priority: int, now: int)
      modifies this`pending, this`queued, this`coalesced, this`calls
      ensures View() == Queue(old(View()), name, deadline, priority, now)
      ensures QueuesOne(old(View()), View(), name, deadline, priority, now)
    {
      calls := calls + 1;
      if name in queued {
        coalesced := coalesced + 1;
        return;
      }
      queued := queued + {name};
      var dueTime := TIME_MAX;
      if deadline > 0 && deadline < TIME_MAX - now {
        dueTime := now + deadline;
      }
      pending := pending + [Event(name, deadline, priority, dueTime, now)];
    }

    method Enqueue(name: Name, deadline: int, priority: int, now: int) returns (status: Status)
      requires Valid()
      modifies this`pending, this`queued, this`coalesced, this`calls
      ensures Valid()
      ensures status == FailedPrecondition <==> !running || stopping
      ensures View() == if status == Ok then Queue(old(View()), name, deadline, priority, now) else old(View())
      ensures status == Ok ==> QueuesOne(old(View()), View(), name, deadline, priority, now)
    {
      if !running || stopping {
        return FailedPrecondition;
      }
      QueueKeepsInv(View(), name, deadline, priority, now);
      QueueEvent(name, deadline, priority, now);
      return Ok;
    }

    method OnDataAvailable(name: Name, index: nat, input: nat, now: int)
      requires Valid() && Has(dataTriggers, name, index, input)
      modifies this`pending, this`queued, this`coalesced, this`calls, this`dataTriggers
      ensures Valid() && View() == DataArrived(old(View()), name, index, input, now)
      ensures !running || stopping ==> View() == old(View())
      ensures running && !stopping ==>
                && Has(dataTriggers, name, index, input)
                && dataTriggers == WithTrigger(old(dataTriggers), name, index, dataTriggers[name][index])
                && ArrivalLaw(old(dataTriggers)[name][index], input, dataTriggers[name][index], calls - old(calls))
                && var t := dataTriggers[name][index];
                   if calls == old(calls) then QueuesNone(old(View()), View())
                   else QueuesOne(old(View()), View(), name, t.deadline, t.priority, now)
    {
      if !running || stopping {
        return;
      }
      DataArrivedKeepsInv(View(), name, index, input, now);
      ArrivedIsLawful(dataTriggers[name][index], input);
      var (t, enqueue) := Arrived(dataTriggers[name][index], input);
      dataTriggers := WithTrigger(dataTriggers, name, index, t);
      if enqueue {
        QueueEvent(name, t.deadline, t.priority, now);
      }
    }

    /** A worker's first critical section: what to run next, if anything is eligible. */
    method TakeNext(now: int) returns (event: Option<Event>)
      requires Valid()
      modifies this`pending, this`queued, this`executing, this`active, this`aged
      ensures Valid()
      ensures event.None? ==> View() == old(View())
      ensures event.None? ==> forall j :: 0 <= j < |pending| ==> !Eligible(pending, executing, j)
      ensures event.Some? ==> exists i: nat ::
                && Chosen(old(pending), old(executing), interval, now, i)
                && event.value == old(pending)[i] && View() == Take(old(View()), i)
      ensures event.Some? ==> exists i: nat ::
                && Eligible(old(pending), old(executing), i) && event.value == old(pending)[i]
                && (forall j: nat :: Eligible(old(pending), old(executing), j) ==> GoesFirst(old(pending), interval, now, i, j))
                && pending == old(pending)[..i] + old(pending)[i + 1..]
      ensures event.Some? ==>
                && queued == old(queued) - {event.value.component}
                && executing == old(executing) + {event.value.component} && active == old(active) + 1
      ensures event.Some? ==>
                aged == old(aged) + if (exists j: nat :: Eligible(old(pending), old(executing), j) && event.value.priority < old(pending)[j].priority) then 1 else 0
    {
      var selected, highestDeclared := Select(pending, executing, interval, now);
      if selected.None? {
        return None;
      }
      var i := selected.value;
      TakeKeepsInv(View(), i);
      event := Some(pending[i]);
      ChosenGoesFirst(pending, executing, interval, now, i);
      TakeAt(i, highestDeclared);
      assert Chosen(old(pending), old(executing), interval, now, i);
    }

    /** Moves the event at `i` from the queue to a worker. */
    method TakeAt(i: nat, highestDeclared: int)
      requires Eligible(pending, executing, i)
      requires forall j :: 0 <= j < |pending| && Eligible(pending, executing, j) ==> pending[j].priority <= highestDeclared
      requires exists j :: 0 <= j < |pending| && Eligible(pending, executing, j) && pending[j].priority == highestDeclared
      modifies this`pending, this`queued, this`executing, this`active, this`aged
      ensures View() == Take(old(View()), i)
      ensures pending == old(pending)[..i] + old(pending)[i + 1..]
    {
      var taken := pending[i];
      if taken.priority < highestDeclared {
        aged := aged + 1;
      }
      pending := pending[..i] + pending[i + 1..];
      queued := queued - {taken.component};
      executing := executing + {taken.component};
      active := active + 1;
    }

    /** A worker's second critical section: account for the event it ran, and mark it with
        every task that waits for it. */
    method FinishEvent(name: Name, ok: bool, now: int)
      requires Valid() && name in executing
      modifies this`pending, this`queued, this`executing, this`active, this`dispatched, this`coalesced, this`calls, this`taskTriggers
      ensures Valid() && View() == Finish(old(View()), name, ok, now)
      ensures executing == old(executing) - {name} && active == old(active) - 1 && dispatched == old(dispatched) + 1
      ensures !ok || stopping || name !in dependents ==> QueuesNone(old(View()), View()) && taskTriggers == old(taskTriggers)
    {
      FinishLeaves(View(), name, ok, now);
      FinishKeepsInv(View(), name, ok, now);
      Account(name);
      if ok && !stopping && name in dependents {
        MarkAll(dependents[name], now);
      }
    }

    method Account(name: Name)
      requires active > 0
      modifies this`executing, this`active, this`dispatched
      ensures View() == old(View()).(dispatched := old(dispatched) + 1, active := old(active) - 1, executing := old(executing) - {name})
    {
      dispatched := dispatched + 1;
      active := active - 1;
      executing := executing - {name};
    }

    method MarkAll(ds: seq<Dependent>, now: int)
      requires forall i :: 0 <= i < |ds| ==> Wired(View(), ds[i])
      modifies this`pending, this`queued, this`coalesced, this`calls, this`taskTriggers
      ensures View() == FireAll(old(View()), ds, now)
    {
      for i := 0 to |ds|
        invariant forall j :: i <= j < |ds| ==> Wired(View(), ds[j])
        invariant FireAll(View(), ds[i..], now) == FireAll(old(View()), ds, now)
      {
        FireKeepsShape(View(), ds[i], now);
        assert ds[i..][1..] == ds[i + 1..];
        Mark(ds[i], now);
      }
    }

    /** One input of a task trigger has completed. */
    method Mark(d: Dependent, now: int)
      requires Wired(View(), d)
      modifies this`pending, this`queued, this`coalesced, this`calls, this`taskTriggers
      ensures View() == Fire(old(View()), d, now)
      ensures Has(taskTriggers, d.component, d.trigger, d.dependency)
      ensures taskTriggers == WithTrigger(old(taskTriggers), d.component, d.trigger, taskTriggers[d.component][d.trigger])
      ensures ArrivalLaw(old(taskTriggers)[d.component][d.trigger], d.dependency, taskTriggers[d.component][d.trigger], calls - old(calls))
      ensures var t := taskTriggers[d.component][d.trigger];
              if calls == old(calls) then QueuesNone(old(View()), View())
              else QueuesOne(old(View()), View(), d.component, t.deadline, t.priority, now)
    {
      ArrivedIsLawful(taskTriggers[d.component][d.trigger], d.dependency);
      var (t, enqueue) := Arrived(taskTriggers[d.component][d.trigger], d.dependency);
      taskTriggers := WithTrigger(taskTriggers, d.component, d.trigger, t);
      if enqueue {
        QueueEvent(d.component, t.deadline, t.priority, now);
      }
    }

    method BeginStop(caller: Caller) returns (status: Status)
      requires Valid()
      modifies this`running, this`stopping
      ensures Valid()
      ensures !caller.Other? || old(stopping) ==> status == FailedPrecondition && View() == old(View())
      ensures caller.Other? && !old(stopping) && !old(running) ==> status == Ok && View() == old(View())
      ensures caller.Other? && !old(stopping) && old(running) ==> status == Ok && View() == StopBegun(old(View()))
    {
      if caller.Worker? || caller.Timer? || caller.Starter? {
        return FailedPrecondition;
      }
      if stopping {
        return FailedPrecondition;
      }
      if running {
        stopping := true;
        running := false;
      }
      return Ok;
    }

    /** After every worker has been joined. */
    method FinishStop()
      requires Valid() && pending == [] && active == 0
      modifies this
      ensures Valid() && View() == StopFinished(old(View()))
    {
      pending := [];
      queued := {};
      active := 0;
      dataTriggers, taskTriggers, dependents := map[], map[], map[];
      stopping := false;
    }
  }
}
