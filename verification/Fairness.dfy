/** What priority aging buys: an event that has waited long enough is bypassed at most
    once per other component. */
module Fairness {
  import opened Basics
  import opened Scheduler
  import opened SchedulerRuns

  lemma Distributes(x: int, y: int, d: int)
    ensures (x + y) * d == x * d + y * d
  {
  }

  /** A quotient grows by at least `levels` when its dividend grows by `levels` divisors. */
  lemma QuotientGrows(a: int, b: int, levels: int, divisor: int)
    requires divisor > 0 && b >= 0 && levels >= 0 && a >= b + levels * divisor
    ensures a / divisor >= b / divisor + levels
  {
    var qa, qb := a / divisor, b / divisor;
    Distributes(qb, levels, divisor);
    Distributes(qa, 1, divisor);
    assert qb * divisor <= b && a < qa * divisor + divisor;
    ProductOrder(qb + levels, qa + 1, divisor);
  }

  lemma QuotientBounded(a: int, bound: int, divisor: int)
    requires divisor > 0 && 0 <= a < bound * divisor
    ensures 0 <= a / divisor < bound
  {
    assert (a / divisor) * divisor <= a;
  }

  /** `e` has, at time `t0`, waited long enough to outrank anything queued from then on. */
  predicate Overdue(e: Event, pmax: int, interval: int, t0: int) {
    e.priority <= pmax && t0 - e.queuedAt >= (pmax - e.priority + 1) * interval
  }

  /** An overdue event, short of the cap, beats every event queued later. */
  lemma OverdueBeatsNewer(e: Event, f: Event, pmax: int, interval: int, t0: int, now: int)
    requires interval > 0 && Overdue(e, pmax, interval, t0)
    requires t0 <= f.queuedAt <= now && f.priority <= pmax
    requires now - e.queuedAt < MAX_BOOST * interval
    ensures Beats(e, f, interval, now)
  {
    var levels := pmax - e.priority + 1;
    var a, b := now - e.queuedAt, now - f.queuedAt;
    WaitIsPositive(levels, interval, t0 - e.queuedAt);
    QuotientBounded(a, MAX_BOOST, interval);
    QuotientGrows(a, b, levels, interval);
    Boosted(e, interval, now, a / interval);
    assert EffectivePriority(f, interval, now) <= f.priority + b / interval by {
      Unboosted(f, interval, now);
    }
  }

  lemma WaitIsPositive(levels: int, interval: int, wait: int)
    requires levels >= 1 && interval > 0 && wait >= levels * interval
    ensures wait >= interval
  {
    assert levels * interval == interval + (levels - 1) * interval;
  }

  lemma Boosted(e: Event, interval: int, now: int, boost: int)
    requires interval > 0 && now > e.queuedAt && boost == (now - e.queuedAt) / interval && 0 <= boost < MAX_BOOST
    ensures EffectivePriority(e, interval, now) == e.priority + boost
  {
  }

  /** Aging adds at most a level per full interval. */
  lemma Unboosted(f: Event, interval: int, now: int)
    requires interval > 0 && now >= f.queuedAt
    ensures EffectivePriority(f, interval, now) <= f.priority + (now - f.queuedAt) / interval
  {
  }

  // ---- counting --------------------------------------------------------------------

  /** Pending events of other components that were queued before `t0`. */
  function Older(pending: seq<Event>, c: Name, t0: int): nat {
    if pending == [] then 0
    else
      var last := pending[|pending| - 1];
      Older(pending[..|pending| - 1], c, t0) + if last.component != c && last.queuedAt < t0 then 1 else 0
  }

  lemma {:induction false} OlderOfConcat(a: seq<Event>, b: seq<Event>, c: Name, t0: int)
    ensures Older(a + b, c, t0) == Older(a, c, t0) + Older(b, c, t0)
    decreases b
  {
    if b == [] {
      assert a + b == a;
    } else {
      var init := b[..|b| - 1];
      OlderOfConcat(a, init, c, t0);
      assert (a + b)[..|a + b| - 1] == a + init;
    }
  }

  lemma {:induction false} NewOnesDoNotCount(added: seq<Event>, c: Name, t0: int)
    requires forall i :: 0 <= i < |added| ==> added[i].queuedAt >= t0
    ensures Older(added, c, t0) == 0
  {
    if added != [] {
      NewOnesDoNotCount(added[..|added| - 1], c, t0);
    }
  }

  lemma OlderOfAppends(before: seq<Event>, after: seq<Event>, now: int, c: Name, t0: int)
    requires Appends(before, after, now) && now >= t0
    ensures Older(after, c, t0) == Older(before, c, t0)
  {
    var added := after[|before|..];
    assert after == before + added;
    OlderOfConcat(before, added, c, t0);
    NewOnesDoNotCount(added, c, t0);
  }

  lemma OlderOfRemoveAt(pending: seq<Event>, i: nat, c: Name, t0: int)
    requires i < |pending|
    ensures Older(pending, c, t0) == Older(RemoveAt(pending, i), c, t0)
              + (if pending[i].component != c && pending[i].queuedAt < t0 then 1 else 0)
  {
    var a, b := pending[..i], pending[i + 1..];
    assert pending == (a + [pending[i]]) + b;
    OlderOfConcat(a + [pending[i]], b, c, t0);
    OlderOfConcat(a, [pending[i]], c, t0);
    OlderOfConcat(a, b, c, t0);
    assert [pending[i]][..0] == [];
    assert Older([pending[i]], c, t0) == if pending[i].component != c && pending[i].queuedAt < t0 then 1 else 0;
  }

  lemma {:induction false} OlderIsBounded(pending: seq<Event>, c: Name, t0: int)
    ensures Older(pending, c, t0) <= |pending|
  {
    if pending != [] {
      OlderIsBounded(pending[..|pending| - 1], c, t0);
    }
  }

  lemma OlderLeavesOneOut(pending: seq<Event>, i: nat, t0: int)
    requires i < |pending|
    ensures Older(pending, pending[i].component, t0) <= |pending| - 1
  {
    OlderOfRemoveAt(pending, i, pending[i].component, t0);
    OlderIsBounded(RemoveAt(pending, i), pending[i].component, t0);
  }

  lemma LastNameIsNew(pending: seq<Event>)
    requires pending != [] && Distinct(pending)
    ensures var init, last := pending[..|pending| - 1], pending[|pending| - 1];
            Distinct(init) && last.component !in Names(init) && Names(pending) == Names(init) + {last.component}
  {
    var init, last := pending[..|pending| - 1], pending[|pending| - 1];
    assert pending == init + [last];
    NamesOfAppend(init, last);
    forall x | x in init ensures x.component != last.component {
      var k :| 0 <= k < |init| && init[k] == x;
      assert pending[k] == x;
    }
  }

  lemma {:induction false} DistinctNamesCount(pending: seq<Event>)
    requires Distinct(pending)
    ensures |Names(pending)| == |pending|
  {
    if pending != [] {
      LastNameIsNew(pending);
      DistinctNamesCount(pending[..|pending| - 1]);
    }
  }

  // ---- bypasses ----------------------------------------------------------------------

  /** Step `k` dispatches another event although the one of `c` was eligible. */
  ghost predicate Bypasses(s: System, step: Step, c: Name) {
    && step.Dispatch? && Enabled(s, step)
    && s.core.pending[step.i].component != c && c !in s.core.executing
  }

  ghost function BypassCount(states: seq<System>, steps: seq<Step>, c: Name, i: nat, j: nat): nat
    requires i <= j <= |steps| < |states|
    decreases j
  {
    if i == j then 0
    else BypassCount(states, steps, c, i, j - 1) + if Bypasses(states[j - 1], steps[j - 1], c) then 1 else 0
  }

  /** One step: a bypass of an overdue event uses up an older one, and nothing adds any. */
  lemma StepSpendsOlder(s: System, step: Step, e: Event, pmax: int, t0: int)
    requires Inv(s) && Enabled(s, step) && s.interval > 0
    requires e in s.core.pending && Overdue(e, pmax, s.interval, t0) && t0 <= s.clock
    requires forall f :: f in s.core.pending ==> f.priority <= pmax
    requires Next(s, step).clock - e.queuedAt < MAX_BOOST * s.interval
    ensures Older(Next(s, step).core.pending, e.component, t0)
              + (if Bypasses(s, step, e.component) then 1 else 0)
            <= Older(s.core.pending, e.component, t0)
  {
    var before := s.core.pending;
    match step
    case Enqueue(_, _, _, now) => OlderOfAppends(before, Next(s, step).core.pending, now, e.component, t0);
    case Data(_, _, _, now) => OlderOfAppends(before, Next(s, step).core.pending, now, e.component, t0);
    case Complete(w, ok, now) =>
      FinishAppends(s.core, s.workers[w].event.component, ok, now);
      OlderOfAppends(before, Next(s, step).core.pending, now, e.component, t0);
    case Dispatch(w, i, now) =>
      OlderOfRemoveAt(before, i, e.component, t0);
      if Bypasses(s, step, e.component) {
        BypassedOnlyByOlder(s, step, e, pmax, t0);
      }
    case _ =>
  }

  /** Only an event queued before `t0` can be preferred to an eligible overdue one. */
  lemma BypassedOnlyByOlder(s: System, step: Step, e: Event, pmax: int, t0: int)
    requires Inv(s) && s.interval > 0
    requires e in s.core.pending && Overdue(e, pmax, s.interval, t0) && t0 <= s.clock
    requires forall f :: f in s.core.pending ==> f.priority <= pmax
    requires Bypasses(s, step, e.component) && step.now - e.queuedAt < MAX_BOOST * s.interval
    ensures s.core.pending[step.i].queuedAt < t0
  {
    var f := s.core.pending[step.i];
    var k :| 0 <= k < |s.core.pending| && s.core.pending[k] == e;
    assert Eligible(s.core.pending, s.core.executing, k);
    assert !Beats(e, f, s.interval, step.now);
    if f.queuedAt >= t0 {
      OverdueBeatsNewer(e, f, pmax, s.interval, t0, step.now);
    }
  }

  lemma {:induction false} ClockNeverGoesBack(states: seq<System>, steps: seq<Step>, i: nat, j: nat)
    requires IsRun(states, steps) && i <= j < |states|
    ensures states[i].clock <= states[j].clock && states[i].interval == states[j].interval
            && states[i].components == states[j].components
    decreases j
  {
    if i < j {
      ClockNeverGoesBack(states, steps, i, j - 1);
      assert Enabled(states[j - 1], steps[j - 1]) && states[j] == Next(states[j - 1], steps[j - 1]);
    }
  }

  /** An event that stays pending from state `i` to state `j`, overdue at `i`, short of the cap. */
  ghost predicate Waits(states: seq<System>, i: nat, j: nat, e: Event, pmax: int)
    requires i <= j < |states|
  {
    && states[i].interval > 0
    && Overdue(e, pmax, states[i].interval, states[i].clock)
    && states[j].clock - e.queuedAt < MAX_BOOST * states[i].interval
    && (forall k :: i <= k <= j ==> e in states[k].core.pending && Declared(states[k], pmax))
  }

  ghost predicate Declared(s: System, pmax: int) {
    forall f :: f in s.core.pending ==> f.priority <= pmax
  }

  lemma {:induction false} BypassesUseUpOlder(states: seq<System>, steps: seq<Step>, i: nat, j: nat, e: Event, pmax: int)
    requires IsRun(states, steps) && i <= j < |states| && Waits(states, i, j, e, pmax)
    ensures BypassCount(states, steps, e.component, i, j) + Older(states[j].core.pending, e.component, states[i].clock)
            <= Older(states[i].core.pending, e.component, states[i].clock)
    decreases j
  {
    if i < j {
      ClockNeverGoesBack(states, steps, i, j - 1);
      ClockNeverGoesBack(states, steps, j - 1, j);
      assert Waits(states, i, j - 1, e, pmax);
      BypassesUseUpOlder(states, steps, i, j - 1, e, pmax);
      RunKeepsInv(states, steps, j - 1);
      var s, step := states[j - 1], steps[j - 1];
      assert Enabled(s, step) && states[j] == Next(s, step);
      assert Declared(s, pmax);
      StepSpendsOlder(s, step, e, pmax, states[i].clock);
    }
  }

  /** Bounded bypass: once a pending event of priority p has waited (pmax - p + 1) aging
      intervals, and while its wait stays below the cap, at most N - 1 dispatches that
      could have picked it pick another event, for N registered components. */
  lemma BoundedBypass(states: seq<System>, steps: seq<Step>, i: nat, j: nat, e: Event, pmax: int)
    requires IsRun(states, steps) && i <= j < |states| && Waits(states, i, j, e, pmax)
    ensures BypassCount(states, steps, e.component, i, j) <= |states[i].components| - 1
  {
    BypassesUseUpOlder(states, steps, i, j, e, pmax);
    RunKeepsInv(states, steps, i);
    var s := states[i];
    var k :| 0 <= k < |s.core.pending| && s.core.pending[k] == e;
    OlderLeavesOneOut(s.core.pending, k, s.clock);
    DistinctNamesCount(s.core.pending);
    SubsetSize(s.core.queued, s.components);
  }
}
