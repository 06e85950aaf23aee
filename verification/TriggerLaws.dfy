/** What firing comes to: over any sequence of arrivals, and over all the marks of one
    completion (src/scheduler/scheduler.cpp:624-648, 893-922). The first part knows of an
    arrival only the law that it obeys. */
module TriggerLaws {
  import opened Options
  import opened Scheduler

  // ---- sequences of arrivals ---------------------------------------------------------

  /** One moment of a trigger: an input arrives, or nothing does. */
  ghost predicate Moment(before: Trigger, mark: Option<nat>, after: Trigger, fired: bool) {
    match mark
    case None => after == before && !fired
    case Some(i) => ArrivalLaw(before, i, after, if fired then 1 else 0)
  }

  /** A trigger through all moments: what arrived at each, and whether it fired. */
  ghost predicate History(ts: seq<Trigger>, marks: seq<Option<nat>>, fired: seq<bool>) {
    && |marks| == |fired| && |ts| == |marks| + 1
    && forall k {:trigger marks[k]} :: 0 <= k < |marks| ==> Moment(ts[k], marks[k], ts[k + 1], fired[k])
  }

  ghost predicate Unmarked(t: Trigger) {
    forall x :: 0 <= x < |t.ready| ==> !t.ready[x]
  }

  /** The moment after the last firing before moment `k`. */
  function Since(fired: seq<bool>, k: nat): (m: nat)
    requires k <= |fired|
    ensures m <= k && (m > 0 ==> fired[m - 1]) && forall l :: m <= l < k ==> !fired[l]
  {
    if k == 0 then 0 else if fired[k - 1] then k else Since(fired, k - 1)
  }

  /** Input `x` has arrived between two moments. */
  ghost predicate Heard(marks: seq<Option<nat>>, from: nat, until: nat, x: nat)
    requires until <= |marks|
  {
    exists m :: from <= m < until && marks[m] == Some(x)
  }

  ghost predicate AllHeard(marks: seq<Option<nat>>, from: nat, until: nat, inputs: nat)
    requires until <= |marks|
  {
    forall x: nat {:trigger Heard(marks, from, until, x)} :: x < inputs ==> Heard(marks, from, until, x)
  }

  lemma HeardNext(marks: seq<Option<nat>>, from: nat, k: nat, x: nat)
    requires from <= k < |marks|
    ensures Heard(marks, from, k + 1, x) <==> Heard(marks, from, k, x) || marks[k] == Some(x)
  {
    if Heard(marks, from, k, x) {
      var m :| from <= m < k && marks[m] == Some(x);
      assert from <= m < k + 1;
    }
  }

  /** The marks are exactly the inputs heard since `from`. */
  ghost predicate MarksAre(t: Trigger, marks: seq<Option<nat>>, from: nat, k: nat)
    requires k <= |marks|
  {
    forall x: nat {:trigger Heard(marks, from, k, x)} :: x < |t.ready| ==> (t.ready[x] <==> Heard(marks, from, k, x))
  }

  /** An All trigger whose marks are those heard since `from` fires when, and only when, an
      arrival completes them. */
  lemma FiresExactly(before: Trigger, marks: seq<Option<nat>>, after: Trigger, fired: bool, from: nat, k: nat)
    requires before.policy.All? && from <= k < |marks| && MarksAre(before, marks, from, k)
    requires Moment(before, marks[k], after, fired)
    ensures fired <==> marks[k].Some? && AllHeard(marks, from, k + 1, |before.ready|)
    ensures after.policy.All? && |after.ready| == |before.ready|
    ensures !fired ==> MarksAre(after, marks, from, k + 1)
    ensures fired ==> Unmarked(after)
  {
    forall x: nat ensures Heard(marks, from, k + 1, x) <==> Heard(marks, from, k, x) || marks[k] == Some(x) {
      HeardNext(marks, from, k, x);
    }
    if marks[k].Some? && AllHeard(marks, from, k + 1, |before.ready|) {
      forall x | 0 <= x < |before.ready| && x != marks[k].value ensures before.ready[x] {
        assert Heard(marks, from, k + 1, x);
      }
    }
  }

  lemma UnmarkedIsUnheard(t: Trigger, marks: seq<Option<nat>>, k: nat)
    requires Unmarked(t) && k <= |marks|
    ensures MarksAre(t, marks, k, k)
  {
  }

  /** The marks of an All trigger, at any moment: what arrived since it last fired. */
  lemma {:induction false} MarksSinceFiring(ts: seq<Trigger>, marks: seq<Option<nat>>, fired: seq<bool>, k: nat)
    requires History(ts, marks, fired) && ts[0].policy.All? && Unmarked(ts[0]) && k <= |marks|
    ensures ts[k].policy.All? && |ts[k].ready| == |ts[0].ready|
    ensures MarksAre(ts[k], marks, Since(fired, k), k)
  {
    if k == 0 {
      UnmarkedIsUnheard(ts[0], marks, 0);
    } else {
      MarksSinceFiring(ts, marks, fired, k - 1);
      assert Moment(ts[k - 1], marks[k - 1], ts[k], fired[k - 1]);
      FiresExactly(ts[k - 1], marks, ts[k], fired[k - 1], Since(fired, k - 1), k - 1);
      if fired[k - 1] {
        UnmarkedIsUnheard(ts[k], marks, k);
      }
    }
  }

  /** From no marks, an All trigger fires at an arrival if and only if every input has arrived
      since it last fired. */
  lemma AllFiresWhenComplete(ts: seq<Trigger>, marks: seq<Option<nat>>, fired: seq<bool>, k: nat)
    requires History(ts, marks, fired) && ts[0].policy.All? && Unmarked(ts[0]) && k < |marks|
    ensures fired[k] <==> marks[k].Some? && AllHeard(marks, Since(fired, k), k + 1, |ts[0].ready|)
  {
    MarksSinceFiring(ts, marks, fired, k);
    FiresExactly(ts[k], marks, ts[k + 1], fired[k], Since(fired, k), k);
  }

  /** An Any trigger fires at every arrival. */
  lemma {:induction false} AnyFiresAlways(ts: seq<Trigger>, marks: seq<Option<nat>>, fired: seq<bool>, k: nat)
    requires History(ts, marks, fired) && ts[0].policy.Any? && k < |marks|
    ensures ts[k].policy.Any? && (fired[k] <==> marks[k].Some?)
  {
    if k > 0 {
      AnyFiresAlways(ts, marks, fired, k - 1);
      assert Moment(ts[k - 1], marks[k - 1], ts[k], fired[k - 1]);
    }
    assert Moment(ts[k], marks[k], ts[k + 1], fired[k]);
  }

  /** From a moment `a` without marks on, an All trigger does not fire until every input has
      arrived, and then it does. */
  lemma {:induction false} FiresOnceComplete(ts: seq<Trigger>, marks: seq<Option<nat>>, fired: seq<bool>, a: nat, b: nat)
    requires History(ts, marks, fired) && a <= b <= |marks| && ts[a].policy.All? && Unmarked(ts[a])
    requires |ts[a].ready| > 0 && !AllHeard(marks, a, b, |ts[a].ready|)
    ensures ts[b].policy.All? && |ts[b].ready| == |ts[a].ready| && MarksAre(ts[b], marks, a, b)
    ensures forall k :: a <= k < b ==> !fired[k]
    ensures b < |marks| ==> (fired[b] <==> AllHeard(marks, a, b + 1, |ts[a].ready|))
    decreases b
  {
    if a == b {
      UnmarkedIsUnheard(ts[a], marks, a);
    } else {
      if AllHeard(marks, a, b - 1, |ts[a].ready|) {
        HeardStays(marks, a, b - 1, |ts[a].ready|);
      }
      FiresOnceComplete(ts, marks, fired, a, b - 1);
      assert Moment(ts[b - 1], marks[b - 1], ts[b], fired[b - 1]);
      FiresExactly(ts[b - 1], marks, ts[b], fired[b - 1], a, b - 1);
    }
    if b < |marks| {
      assert Moment(ts[b], marks[b], ts[b + 1], fired[b]);
      FiresExactly(ts[b], marks, ts[b + 1], fired[b], a, b);
      if AllHeard(marks, a, b + 1, |ts[a].ready|) && marks[b].None? {
        NothingHeard(marks, a, b, |ts[a].ready|);
      }
    }
  }

  lemma HeardStays(marks: seq<Option<nat>>, from: nat, k: nat, inputs: nat)
    requires from <= k < |marks| && AllHeard(marks, from, k, inputs)
    ensures AllHeard(marks, from, k + 1, inputs)
  {
    var next := k + 1;
    forall x: nat | x < inputs ensures Heard(marks, from, next, x) {
      HeardNext(marks, from, k, x);
    }
  }

  lemma NothingHeard(marks: seq<Option<nat>>, from: nat, k: nat, inputs: nat)
    requires from <= k < |marks| && marks[k].None? && AllHeard(marks, from, k + 1, inputs)
    ensures AllHeard(marks, from, k, inputs)
  {
    forall x: nat | x < inputs ensures Heard(marks, from, k, x) {
      HeardNext(marks, from, k, x);
    }
  }

  // ---- all the marks of one completion -----------------------------------------------

  /** The arrival makes the trigger fire. */
  ghost predicate Completing(t: Trigger, i: nat) {
    t.policy.Any? || OthersReady(t.ready, i)
  }

  predicate SameTrigger(a: Dependent, b: Dependent) {
    a.component == b.component && a.trigger == b.trigger
  }

  /** No trigger is marked twice. */
  ghost predicate Separate(ds: seq<Dependent>) {
    forall p, q :: 0 <= p < q < |ds| ==> !SameTrigger(ds[p], ds[q])
  }

  ghost predicate AllHave(triggers: map<Name, seq<Trigger>>, ds: seq<Dependent>) {
    forall p :: 0 <= p < |ds| ==> Has(triggers, ds[p].component, ds[p].trigger, ds[p].dependency)
  }

  lemma FireIsLawful(s: Core, d: Dependent, now: int)
    requires Wired(s, d)
    ensures var before, s' := s.taskTriggers[d.component][d.trigger], Fire(s, d, now);
      && Wired(s', d)
      && s'.taskTriggers == WithTrigger(s.taskTriggers, d.component, d.trigger, s'.taskTriggers[d.component][d.trigger])
      && ArrivalLaw(before, d.dependency, s'.taskTriggers[d.component][d.trigger], if Completing(before, d.dependency) then 1 else 0)
      && (Completing(before, d.dependency) ==> QueuesOne(s, s', d.component, before.deadline, before.priority, now))
      && (!Completing(before, d.dependency) ==> QueuesNone(s, s'))
  {
    ArrivedIsLawful(s.taskTriggers[d.component][d.trigger], d.dependency);
  }

  /** Marks on other triggers leave one alone, and no name leaves the queue. */
  lemma {:induction false} FireAllElsewhere(s: Core, ds: seq<Dependent>, now: int, d: Dependent)
    requires Wired(s, d) && (forall p :: 0 <= p < |ds| ==> Wired(s, ds[p]) && !SameTrigger(ds[p], d))
    ensures var s' := FireAll(s, ds, now);
      && Wired(s', d) && s'.taskTriggers[d.component][d.trigger] == s.taskTriggers[d.component][d.trigger]
      && s.queued <= s'.queued
    decreases ds
  {
    if ds != [] {
      FireKeepsShape(s, ds[0], now);
      FireIsLawful(s, ds[0], now);
      FireAllElsewhere(Fire(s, ds[0], now), ds[1..], now, d);
    }
  }

  /** A trigger that the completion marks once obeys the law; if it fires, its component is
      queued. */
  lemma {:induction false} FireAllMarksOnce(s: Core, ds: seq<Dependent>, now: int, p: nat)
    requires forall q :: 0 <= q < |ds| ==> Wired(s, ds[q])
    requires p < |ds| && Separate(ds)
    ensures var d, s' := ds[p], FireAll(s, ds, now);
      var before := s.taskTriggers[d.component][d.trigger];
      && Wired(s', d)
      && ArrivalLaw(before, d.dependency, s'.taskTriggers[d.component][d.trigger], if Completing(before, d.dependency) then 1 else 0)
      && (Completing(before, d.dependency) ==> d.component in s'.queued)
    decreases ds
  {
    var next, rest := Fire(s, ds[0], now), ds[1..];
    FireKeepsShape(s, ds[0], now);
    FireIsLawful(s, ds[0], now);
    assert forall q :: 0 <= q < |rest| ==> !SameTrigger(ds[0], rest[q]);
    if p == 0 {
      forall q | 0 <= q < |rest| ensures Wired(next, rest[q]) && !SameTrigger(rest[q], ds[0]) {
        assert !SameTrigger(ds[0], rest[q]);
      }
      FireAllElsewhere(next, rest, now, ds[0]);
    } else {
      assert rest[p - 1] == ds[p];
      assert next.taskTriggers[ds[p].component][ds[p].trigger] == s.taskTriggers[ds[p].component][ds[p].trigger];
      FireAllMarksOnce(next, rest, now, p - 1);
    }
  }

  /** How many of the dependents fire. */
  ghost function Firing(triggers: map<Name, seq<Trigger>>, ds: seq<Dependent>): nat
    requires AllHave(triggers, ds)
  {
    if ds == [] then 0
    else
      assert AllHave(triggers, ds[1..]);
      (if Completing(triggers[ds[0].component][ds[0].trigger], ds[0].dependency) then 1 else 0) + Firing(triggers, ds[1..])
  }

  lemma {:induction false} FiringDependsOn(triggers: map<Name, seq<Trigger>>, others: map<Name, seq<Trigger>>, ds: seq<Dependent>)
    requires AllHave(triggers, ds) && AllHave(others, ds)
    requires forall p :: 0 <= p < |ds| ==>
               others[ds[p].component][ds[p].trigger] == triggers[ds[p].component][ds[p].trigger]
    ensures Firing(others, ds) == Firing(triggers, ds)
    decreases ds
  {
    if ds != [] {
      FiringDependsOn(triggers, others, ds[1..]);
    }
  }

  /** One QueueEvent call for each dependent that fires, and no other. */
  lemma {:induction false} FireAllCalls(s: Core, ds: seq<Dependent>, now: int)
    requires (forall p :: 0 <= p < |ds| ==> Wired(s, ds[p])) && Separate(ds)
    ensures AllHave(s.taskTriggers, ds) && FireAll(s, ds, now).calls == s.calls + Firing(s.taskTriggers, ds)
    decreases ds
  {
    if ds != [] {
      var next, rest := Fire(s, ds[0], now), ds[1..];
      FireKeepsShape(s, ds[0], now);
      FireIsLawful(s, ds[0], now);
      FireAllCalls(next, rest, now);
      forall p | 0 <= p < |rest|
        ensures next.taskTriggers[rest[p].component][rest[p].trigger] == s.taskTriggers[rest[p].component][rest[p].trigger]
      {
        assert !SameTrigger(ds[0], ds[p + 1]);
      }
      assert AllHave(s.taskTriggers, rest);
      FiringDependsOn(s.taskTriggers, next.taskTriggers, rest);
    }
  }

  /** The event is one that a firing dependent queues. */
  ghost predicate QueuedBy(e: Event, triggers: map<Name, seq<Trigger>>, d: Dependent, now: int)
    requires Has(triggers, d.component, d.trigger, d.dependency)
  {
    var t := triggers[d.component][d.trigger];
    && Completing(t, d.dependency)
    && e.component == d.component && e.priority == t.priority && e.deadline == t.deadline && e.queuedAt == now
  }

  /** Every event that the completion adds is that of a dependent that fires. */
  lemma {:induction false} FireAllQueues(s: Core, ds: seq<Dependent>, now: int, k: nat)
    requires (forall p :: 0 <= p < |ds| ==> Wired(s, ds[p])) && Separate(ds)
    requires |s.pending| <= k < |FireAll(s, ds, now).pending|
    ensures exists p :: 0 <= p < |ds| && QueuedBy(FireAll(s, ds, now).pending[k], s.taskTriggers, ds[p], now)
    decreases ds
  {
    if ds != [] {
      var next, rest := Fire(s, ds[0], now), ds[1..];
      FireKeepsShape(s, ds[0], now);
      FireIsLawful(s, ds[0], now);
      assert FireAll(s, ds, now) == FireAll(next, rest, now);
      if k < |next.pending| {
        FireAllKeepsFront(next, rest, now, k);
        assert QueuedBy(FireAll(s, ds, now).pending[k], s.taskTriggers, ds[0], now);
      } else {
        FireAllQueues(next, rest, now, k);
        var p :| 0 <= p < |rest| && QueuedBy(FireAll(next, rest, now).pending[k], next.taskTriggers, rest[p], now);
        assert !SameTrigger(ds[0], ds[p + 1]);
        assert QueuedBy(FireAll(s, ds, now).pending[k], s.taskTriggers, ds[p + 1], now);
      }
    }
  }

  lemma {:induction false} FireAllKeepsFront(s: Core, ds: seq<Dependent>, now: int, k: nat)
    requires (forall p :: 0 <= p < |ds| ==> Wired(s, ds[p])) && k < |s.pending|
    ensures k < |FireAll(s, ds, now).pending| && FireAll(s, ds, now).pending[k] == s.pending[k]
    decreases ds
  {
    if ds != [] {
      var next := Fire(s, ds[0], now);
      FireKeepsShape(s, ds[0], now);
      FireIsLawful(s, ds[0], now);
      assert next.pending[..|s.pending|][k] == s.pending[k];
      FireAllKeepsFront(next, ds[1..], now, k);
    }
  }

  ghost predicate QueuedByOne(e: Event, triggers: map<Name, seq<Trigger>>, ds: seq<Dependent>, now: int)
    requires AllHave(triggers, ds)
  {
    exists p :: 0 <= p < |ds| && QueuedBy(e, triggers, ds[p], now)
  }

  /** One QueueEvent call for each dependent that fires, and every event added is that of one
      of them, behind those that were pending. */
  ghost predicate QueuesWhatFires(s: Core, s': Core, ds: seq<Dependent>, now: int) {
    && AllHave(s.taskTriggers, ds) && s'.calls == s.calls + Firing(s.taskTriggers, ds)
    && |s.pending| <= |s'.pending| && (forall k :: 0 <= k < |s.pending| ==> s'.pending[k] == s.pending[k])
    && forall k :: |s.pending| <= k < |s'.pending| ==> QueuedByOne(s'.pending[k], s.taskTriggers, ds, now)
  }

  lemma FireAllQueuesWhatFires(s: Core, ds: seq<Dependent>, now: int)
    requires (forall p :: 0 <= p < |ds| ==> Wired(s, ds[p])) && Separate(ds)
    ensures QueuesWhatFires(s, FireAll(s, ds, now), ds, now)
  {
    var s' := FireAll(s, ds, now);
    FireAllCalls(s, ds, now);
    forall k | 0 <= k < |s.pending| ensures k < |s'.pending| && s'.pending[k] == s.pending[k] {
      FireAllKeepsFront(s, ds, now, k);
    }
    if |s.pending| > 0 {
      FireAllKeepsFront(s, ds, now, |s.pending| - 1);
    }
    forall k | |s.pending| <= k < |s'.pending| ensures QueuedByOne(s'.pending[k], s.taskTriggers, ds, now) {
      FireAllQueues(s, ds, now, k);
    }
  }

  /** The completion that succeeds while the scheduler is not stopping. */
  lemma SuccessQueues(s: Core, name: Name, now: int)
    requires AllWired(s) && s.active > 0 && !s.stopping && name in s.dependents && Separate(s.dependents[name])
    ensures QueuesWhatFires(s, Finish(s, name, true, now), s.dependents[name], now)
  {
    var core := s.(dispatched := s.dispatched + 1, active := s.active - 1, executing := s.executing - {name});
    var ds := s.dependents[name];
    assert forall p :: 0 <= p < |ds| ==> Wired(core, ds[p]);
    FireAllQueuesWhatFires(core, ds, now);
  }
}
