/** What holds of every run of the supervisor, whatever the world answers
    (src/configuration/supervisor.cpp:430-583). The statements are about the log: they say what
    may be reported after what. */
module RestartRuns {
  import opened Basics
  import opened Options
  import opened RestartPolicy

  // ---- reading the log ---------------------------------------------------------------------

  predicate About(e: Event, i: nat) {
    !e.Ends? && e.i == i
  }

  /** When node `i` was last started. */
  function LastStarted(events: seq<Event>, i: nat): int {
    if events == [] then 0 else
    var e := events[|events| - 1];
    if About(e, i) && e.Started? then e.at else LastStarted(events[..|events| - 1], i)
  }

  /** Restarts of node `i` since its last run that lasted long enough. */
  function SinceStable(c: Config, events: seq<Event>, i: nat): nat {
    if events == [] then 0 else
    var before, e := SinceStable(c, events[..|events| - 1], i), events[|events| - 1];
    if !About(e, i) then before
    else if e.Exited? && e.at - LastStarted(events[..|events| - 1], i) >= c.stableRun then 0
    else if e.StartFailed? && 0 >= c.stableRun then 0
    else if e.Restarting? then before + 1
    else before
  }

  /** Whether node `i` has a process. */
  predicate IsUp(events: seq<Event>, i: nat) {
    if events == [] then false else
    var e := events[|events| - 1];
    if About(e, i) && e.Started? then true
    else if About(e, i) && (e.Exited? || e.Stopped?) then false
    else IsUp(events[..|events| - 1], i)
  }

  /** When node `i` is due after its last restart was announced. */
  function Due(events: seq<Event>, i: nat): Option<int> {
    if events == [] then None else
    var e := events[|events| - 1];
    if About(e, i) && e.Restarting? then Some(e.at + e.wait) else Due(events[..|events| - 1], i)
  }

  /** Whether node `i` is done for good. */
  predicate IsFinished(events: seq<Event>, i: nat) {
    events != [] && (events[|events| - 1] == Finished(i) || IsFinished(events[..|events| - 1], i))
  }

  /** The last reason given for ending. */
  function Reason(events: seq<Event>): Option<Ending> {
    if events == [] then None else
    var e := events[|events| - 1];
    if e.Ends? then Some(e.ending) else Reason(events[..|events| - 1])
  }

  /** How node `i` has just ended by itself, if that is what the log ends with. */
  function Outcome(events: seq<Event>, i: nat): Option<bool> {
    if events == [] then None else
    var e := events[|events| - 1];
    if !About(e, i) then None
    else if e.Exited? then Some(e.success)
    else if e.StartFailed? then Some(false)
    else if e.GaveUp? then Outcome(events[..|events| - 1], i)
    else None
  }

  /** Node `i` is done for good because it ended by itself, and not with success. */
  predicate IsFailed(events: seq<Event>, i: nat) {
    if events == [] then false else
    var before := events[..|events| - 1];
    if events[|events| - 1] == Finished(i) then Outcome(before, i) == Some(false) else IsFailed(before, i)
  }

  /** The node stopped last, and none below `limit`. */
  function LastStopping(limit: nat, events: seq<Event>): nat {
    if events == [] then limit else
    var e := events[|events| - 1];
    if e.Stopping? then e.i else LastStopping(limit, events[..|events| - 1])
  }

  // ---- what the log owes -------------------------------------------------------------------

  /** A required node has ended by itself, and no reason to end has been given. */
  predicate OwesReason(c: Config, events: seq<Event>) {
    events != [] && events[|events| - 1].Finished? &&
    var i := events[|events| - 1].i;
    i < |c.specs| && c.specs[i].required && Reason(events).None? && Outcome(events[..|events| - 1], i).Some?
  }

  /** Nothing has to follow. */
  predicate Settled(c: Config, events: seq<Event>) {
    events == [] ||
    match events[|events| - 1]
    case Started(_, _) => true
    case Restarting(_, _, _) => true
    case Ends(_) => true
    case Finished(_) => !OwesReason(c, events)
    case _ => false
  }

  /** What follows the end of a process: a restart if the node's policy asks for one and the
      budget allows it, giving up if the budget does not, and otherwise the node is done. */
  predicate Decides(c: Config, before: seq<Event>, i: nat, success: bool, at: int, e: Event) {
    i < |c.specs| &&
    var spec, r := c.specs[i], SinceStable(c, before, i);
    match spec.restart
    case Never => e == Finished(i)
    case OnFailure =>
      if success then e == Finished(i)
      else if spec.maxRestarts == 0 || r < spec.maxRestarts then e.Restarting? && e.i == i && e.at == at
      else e == GaveUp(i)
    case Always =>
      if spec.maxRestarts == 0 || r < spec.maxRestarts then e.Restarting? && e.i == i && e.at == at
      else e == GaveUp(i)
  }

  /** The event is what the end of the log owes. */
  predicate Settles(c: Config, before: seq<Event>, e: Event)
    requires before != []
  {
    match before[|before| - 1]
    case Exited(i, success, at) => Decides(c, before, i, success, at, e)
    case StartFailed(i, at) => Decides(c, before, i, false, at, e)
    case GaveUp(i) => e == Finished(i)
    case Stopping(i) => e == Killed(i) || e == Stopped(i)
    case Killed(i) => e == Stopped(i)
    case Stopped(i) => e == Finished(i)
    case Finished(i) =>
      var outcome := Outcome(before[..|before| - 1], i);
      outcome.Some? && e == Ends(RequiredEnded(i, outcome.value))
    case _ => false
  }

  ghost predicate AllFinished(c: Config, events: seq<Event>) {
    forall i: nat :: i < |c.specs| ==> IsFinished(events, i)
  }

  ghost predicate SomeFailed(c: Config, events: seq<Event>) {
    exists i: nat :: i < |c.specs| && IsFailed(events, i)
  }

  /** The event needs nothing in front of it; nodes are stopped from the last to the first, and
      every node has ended only when it has. */
  ghost predicate Opens(c: Config, before: seq<Event>, e: Event) {
    match e
    case Started(_, _) => true
    case StartFailed(_, _) => true
    case Exited(_, _, _) => true
    case Finished(_) => true
    case Stopping(i) => i < LastStopping(|c.specs|, before)
    case Ends(EveryNodeEnded(anyFailed)) =>
      AllFinished(c, before) && anyFailed == SomeFailed(c, before)
    case _ => false
  }

  ghost predicate InPlace(c: Config, before: seq<Event>, e: Event) {
    if Settled(c, before) then Opens(c, before, e) else Settles(c, before, e)
  }

  // ---- what may be logged ------------------------------------------------------------------

  function Doubled(d: nat, r: nat): nat {
    if r == 0 then d else 2 * Doubled(d, r - 1)
  }

  function Power(r: nat): nat {
    if r == 0 then 1 else 2 * Power(r - 1)
  }

  lemma {:induction false} DoubledIsPower(d: nat, r: nat)
    ensures Doubled(d, r) == d * Power(r)
  {
    if r > 0 { DoubledIsPower(d, r - 1); }
  }

  /** The wait after `r` restarts since the last stable run. */
  function Wait(c: Config, spec: Spec, r: nat): int {
    Min(Doubled(spec.restartDelay, r), Cap(c, spec))
  }

  /** Doubling the capped wait is capping the doubled wait. */
  lemma WaitDoubles(c: Config, spec: Spec, r: nat)
    ensures Min(Wait(c, spec, r) * 2, Cap(c, spec)) == Wait(c, spec, r + 1)
  {
  }

  /** The event may follow the log `before`: nothing is said of a finished node, only one process
      at a time is started, not before it is due, a restart waits as long as it should and
      is within the budget, and the system ends for one reason. */
  ghost predicate MayFollow(c: Config, before: seq<Event>, e: Event) {
    && InPlace(c, before, e)
    && (!e.Ends? ==> e.i < |c.specs| && !IsFinished(before, e.i))
    && match e
      case Started(i, at) => !IsUp(before, i) && (Due(before, i).Some? ==> at >= Due(before, i).value)
      case StartFailed(i, at) => !IsUp(before, i) && (Due(before, i).Some? ==> at >= Due(before, i).value)
      case Exited(i, _, _) => IsUp(before, i)
      case Restarting(i, _, wait) =>
        && !IsUp(before, i) && wait == Wait(c, c.specs[i], SinceStable(c, before, i))
        && Allowed(c.specs[i], SinceStable(c, before, i))
      case GaveUp(i) => !IsUp(before, i) && !Allowed(c.specs[i], SinceStable(c, before, i))
      case Stopping(i) => IsUp(before, i)
      case Killed(i) => IsUp(before, i)
      case Stopped(i) => IsUp(before, i)
      case Finished(i) => !IsUp(before, i)
      case Ends(_) => Reason(before).None?
  }

  /** Every event of the log may follow those before it. */
  ghost predicate Lawful(c: Config, events: seq<Event>) {
    events == [] ||
    (Lawful(c, events[..|events| - 1]) && MayFollow(c, events[..|events| - 1], events[|events| - 1]))
  }

  lemma {:induction false} LawfulAt(c: Config, events: seq<Event>, k: nat)
    requires Lawful(c, events) && k < |events|
    ensures MayFollow(c, events[..k], events[k])
    decreases |events|
  {
    var front := events[..|events| - 1];
    if k < |front| {
      LawfulAt(c, front, k);
      assert front[..k] == events[..k] && front[k] == events[k];
    }
  }

  // ---- the invariant -----------------------------------------------------------------------

  /** What the node remembers is what the log says. */
  ghost predicate NodeOk(c: Config, node: Node, events: seq<Event>, i: nat)
    requires i < |c.specs|
  {
    && node.held == node.phase.Running? == IsUp(events, i)
    && node.phase.Done? == IsFinished(events, i)
    && node.restarts == SinceStable(c, events, i)
    && node.delay == Wait(c, c.specs[i], node.restarts)
    && (c.specs[i].maxRestarts != 0 ==> node.restarts <= c.specs[i].maxRestarts)
    && (node.phase.Backoff? ==> Due(events, i) == Some(node.restartAt))
    && (node.phase.Pending? ==> Due(events, i) == None)
    && (node.phase.Running? ==> node.startedAt == LastStarted(events, i))
    && node.failed == IsFailed(events, i)
    && (!node.phase.Done? ==> i < LastStopping(|c.specs|, events))
  }

  ghost predicate Inv(c: Config, s: State) {
    Settled(c, s.events) && Base(c, s)
  }

  /** The invariant, but for what the log still owes. */
  ghost predicate Base(c: Config, s: State) {
    && |s.nodes| == |c.specs| && Lawful(c, s.events) && s.ending == Reason(s.events)
    && forall i: nat {:trigger NodeOk(c, s.nodes[i], s.events, i)} ::
        i < |c.specs| ==> NodeOk(c, s.nodes[i], s.events, i)
  }

  lemma {:induction false} LawfulAppend(c: Config, events: seq<Event>, e: Event)
    requires Lawful(c, events) && MayFollow(c, events, e)
    ensures Lawful(c, events + [e])
  {
    assert (events + [e])[..|events|] == events;
  }

  /** How one more event changes what the log says of a node. */
  lemma {:induction false} OneMore(c: Config, events: seq<Event>, e: Event, i: nat)
    ensures !About(e, i) ==>
      && SinceStable(c, events + [e], i) == SinceStable(c, events, i) && IsUp(events + [e], i) == IsUp(events, i)
      && Due(events + [e], i) == Due(events, i) && IsFinished(events + [e], i) == IsFinished(events, i)
      && LastStarted(events + [e], i) == LastStarted(events, i) && IsFailed(events + [e], i) == IsFailed(events, i)
    ensures About(e, i) ==>
      && SinceStable(c, events + [e], i) == (if e.Exited? && e.at - LastStarted(events, i) >= c.stableRun then 0
        else if e.StartFailed? && 0 >= c.stableRun then 0
        else if e.Restarting? then SinceStable(c, events, i) + 1 else SinceStable(c, events, i))
      && IsUp(events + [e], i) == (e.Started? || (!e.Exited? && !e.Stopped? && IsUp(events, i)))
      && Due(events + [e], i) == (if e.Restarting? then Some(e.at + e.wait) else Due(events, i))
      && IsFinished(events + [e], i) == (e.Finished? || IsFinished(events, i))
      && LastStarted(events + [e], i) == (if e.Started? then e.at else LastStarted(events, i))
      && IsFailed(events + [e], i) == (if e.Finished? then Outcome(events, i) == Some(false) else IsFailed(events, i))
      && Outcome(events + [e], i) == (if e.Exited? then Some(e.success) else if e.StartFailed? then Some(false)
                                      else if e.GaveUp? then Outcome(events, i) else None)
    ensures Reason(events + [e]) == (if e.Ends? then Some(e.ending) else Reason(events))
    ensures LastStopping(|c.specs|, events + [e]) == (if e.Stopping? then e.i else LastStopping(|c.specs|, events))
  {
    var more := events + [e];
    assert more[..|more| - 1] == events;
    assert more[|more| - 1] == e;
  }

  /** The invariant, but for node `i`, whose end is being dealt with. */
  ghost predicate InvBut(c: Config, s: State, i: nat) {
    && |s.nodes| == |c.specs| && Lawful(c, s.events) && s.ending == Reason(s.events)
    && forall j: nat {:trigger NodeOk(c, s.nodes[j], s.events, j)} ::
        j < |c.specs| && j != i ==> NodeOk(c, s.nodes[j], s.events, j)
  }

  /** The nodes from `i` on are done. */
  ghost predicate DoneFrom(nodes: seq<Node>, i: nat) {
    forall j :: i <= j < |nodes| ==> nodes[j].phase.Done?
  }

  lemma {:induction false} FailedIsFinished(events: seq<Event>, i: nat)
    ensures IsFailed(events, i) ==> IsFinished(events, i)
  {
    if events != [] { FailedIsFinished(events[..|events| - 1], i); }
  }

  /** The log ends with node `i` ending by itself. */
  ghost predicate JustEnded(events: seq<Event>, i: nat, success: bool, at: int) {
    events != [] && (events[|events| - 1] == Exited(i, success, at) || (events[|events| - 1] == StartFailed(i, at) && !success))
  }

  /** One event about node `i`, which changes to `node`: the others are as they were. */
  lemma {:induction false} LogKeepsOthers(c: Config, s: State, e: Event, node: Node, i: nat)
    requires InvBut(c, s, i) && i < |c.specs| && About(e, i) && MayFollow(c, s.events, e)
    requires e.Stopping? ==> DoneFrom(s.nodes, i + 1)
    ensures InvBut(c, Log(s.(nodes := s.nodes[i := node]), e), i)
  {
    LawfulAppend(c, s.events, e);
    var t := Log(s.(nodes := s.nodes[i := node]), e);
    forall j: nat | j < |c.specs| && j != i ensures NodeOk(c, t.nodes[j], t.events, j) {
      OneMore(c, s.events, e, j);
      assert NodeOk(c, s.nodes[j], s.events, j);
    }
    OneMore(c, s.events, e, i);
  }

  lemma {:induction false} AnnounceKeepsInv(c: Config, s: State, ending: Ending)
    requires Base(c, s) && s.ending.None? && InPlace(c, s.events, Ends(ending))
    ensures Inv(c, Announce(s, ending))
  {
    var e := Ends(ending);
    LawfulAppend(c, s.events, e);
    OneMore(c, s.events, e, 0);
    forall j: nat | j < |c.specs| ensures NodeOk(c, s.nodes[j], s.events + [e], j) {
      OneMore(c, s.events, e, j);
      assert NodeOk(c, s.nodes[j], s.events, j);
    }
  }

  /** A node that is down, with its restarts and its delay as the log has them. */
  ghost predicate IsDown(c: Config, s: State, i: nat, node: Node)
    requires i < |c.specs|
  {
    && !IsUp(s.events, i) && !IsFinished(s.events, i) && !node.held
    && node.restarts == SinceStable(c, s.events, i) && node.delay == Wait(c, c.specs[i], node.restarts)
    && (c.specs[i].maxRestarts != 0 ==> node.restarts <= c.specs[i].maxRestarts)
  }

  lemma {:induction false} RestartKeepsInv(c: Config, s: State, i: nat, node: Node, now: int)
    requires InvBut(c, s, i) && i < |c.specs| && IsDown(c, s, i, node) && Allowed(c.specs[i], node.restarts)
    requires node.failed == IsFailed(s.events, i) && i < LastStopping(|c.specs|, s.events)
    requires InPlace(c, s.events, Restarting(i, now, node.delay))
    ensures Inv(c, Restarted(c, s, i, node, now))
  {
    var e := Restarting(i, now, node.delay);
    var next := node.(phase := Backoff, restarts := node.restarts + 1, restartAt := now + node.delay,
                      delay := Min(node.delay * 2, Cap(c, c.specs[i])));
    LogKeepsOthers(c, s, e, next, i);
    OneMore(c, s.events, e, i);
    WaitDoubles(c, c.specs[i], node.restarts);
    assert NodeOk(c, next, s.events + [e], i);
  }

  lemma {:induction false} FinishKeepsBase(c: Config, s: State, i: nat)
    requires InvBut(c, s, i) && i < |c.specs| && s.nodes[i].phase.Done? && IsDown(c, s, i, s.nodes[i])
    requires s.nodes[i].failed == (Outcome(s.events, i) == Some(false)) && InPlace(c, s.events, Finished(i))
    ensures Base(c, Log(s, Finished(i)))
  {
    var node := s.nodes[i];
    LogKeepsOthers(c, s, Finished(i), node, i);
    assert s.nodes[i := node] == s.nodes;
    OneMore(c, s.events, Finished(i), i);
    assert NodeOk(c, node, s.events + [Finished(i)], i);
  }

  lemma {:induction false} GiveUpKeepsOthers(c: Config, s: State, i: nat)
    requires InvBut(c, s, i) && i < |c.specs| && IsDown(c, s, i, s.nodes[i])
    requires !Allowed(c.specs[i], s.nodes[i].restarts) && InPlace(c, s.events, GaveUp(i))
    ensures InvBut(c, Log(s, GaveUp(i)), i) && IsDown(c, Log(s, GaveUp(i)), i, s.nodes[i])
    ensures Outcome(Log(s, GaveUp(i)).events, i) == Outcome(s.events, i)
    ensures InPlace(c, Log(s, GaveUp(i)).events, Finished(i))
  {
    LogKeepsOthers(c, s, GaveUp(i), s.nodes[i], i);
    assert s.nodes[i := s.nodes[i]] == s.nodes;
    OneMore(c, s.events, GaveUp(i), i);
  }

  /** A required node that ended by itself gives the reason to end, unless there is one. */
  lemma {:induction false} ConcludeKeepsInv(c: Config, s: State, i: nat, success: bool)
    requires i < |c.specs| && Base(c, Log(s, Finished(i))) && Outcome(s.events, i) == Some(success)
    ensures Inv(c, Concluded(c, Log(s, Finished(i)), i, success))
  {
    var t := Log(s, Finished(i));
    assert t.events[..|t.events| - 1] == s.events;
    if c.specs[i].required && t.ending.None? {
      AnnounceKeepsInv(c, t, RequiredEnded(i, success));
    }
  }

  lemma {:induction false} RetireKeepsInv(c: Config, s: State, i: nat, node: Node, success: bool, now: int)
    requires InvBut(c, s, i) && i < |c.specs| && IsDown(c, s, i, node) && JustEnded(s.events, i, success, now)
    requires Wanted(c.specs[i], success) ==> !Allowed(c.specs[i], node.restarts)
    ensures Inv(c, Retired(c, s, i, node, success))
  {
    var done := s.(nodes := s.nodes[i := node.(phase := Done, failed := !success)]);
    assert InvBut(c, done, i) && IsDown(c, done, i, done.nodes[i]);
    if Wanted(c.specs[i], success) {
      GiveUpKeepsOthers(c, done, i);
      FinishKeepsBase(c, Log(done, GaveUp(i)), i);
      ConcludeKeepsInv(c, Log(done, GaveUp(i)), i, success);
    } else {
      FinishKeepsBase(c, done, i);
      ConcludeKeepsInv(c, done, i, success);
    }
  }

  lemma {:induction false} EndedKeepsInv(c: Config, s: State, i: nat, success: bool, lasted: int, now: int)
    requires InvBut(c, s, i) && i < |c.specs| && JustEnded(s.events, i, success, now)
    requires s.nodes[i].failed == IsFailed(s.events, i) && i < LastStopping(|c.specs|, s.events)
    requires IsDown(c, s, i, Forgiven(c, c.specs[i], s.nodes[i], lasted))
    ensures Inv(c, Ended(c, s, i, success, lasted, now))
  {
    var node := Forgiven(c, c.specs[i], s.nodes[i], lasted);
    if Wanted(c.specs[i], success) && Allowed(c.specs[i], node.restarts) {
      RestartKeepsInv(c, s, i, node, now);
    } else {
      RetireKeepsInv(c, s, i, node, success, now);
    }
  }

  /** Questions and checks for a stop leave the log and the nodes alone. */
  lemma {:induction false} QuietKeepsInv(c: Config, s: State, t: State)
    requires Inv(c, s) && t.nodes == s.nodes && t.events == s.events && t.ending == s.ending
    ensures Inv(c, t)
  {
  }

  // ---- every part of a run -----------------------------------------------------------------

  lemma {:induction false} StartKeepsNodes(c: Config, s: State, i: nat, now: int)
    requires Inv(c, s) && i < |c.specs|
    requires s.nodes[i].phase.Pending? || (s.nodes[i].phase.Backoff? && now >= s.nodes[i].restartAt)
    ensures Inv(c, Log(s.(nodes := s.nodes[i := s.nodes[i].(held := true, phase := Running, startedAt := now)]), Started(i, now)))
  {
    var node, e := s.nodes[i], Started(i, now);
    assert NodeOk(c, node, s.events, i);
    var up := node.(held := true, phase := Running, startedAt := now);
    LogKeepsOthers(c, s, e, up, i);
    OneMore(c, s.events, e, i);
    assert NodeOk(c, up, s.events + [e], i);
  }

  lemma {:induction false} FailedStartKeepsInv(c: Config, s: State, i: nat, now: int)
    requires Inv(c, s) && i < |c.specs|
    requires s.nodes[i].phase.Pending? || (s.nodes[i].phase.Backoff? && now >= s.nodes[i].restartAt)
    ensures Inv(c, Ended(c, Log(s, StartFailed(i, now)), i, false, 0, now))
  {
    var node, e := s.nodes[i], StartFailed(i, now);
    assert NodeOk(c, node, s.events, i);
    LogKeepsOthers(c, s, e, node, i);
    assert s.nodes[i := node] == s.nodes;
    OneMore(c, s.events, e, i);
    EndedKeepsInv(c, Log(s, e), i, false, 0, now);
  }

  lemma {:induction false} LaunchKeepsInv(c: Config, w: World, s: State, i: nat, now: int)
    requires Inv(c, s) && i < |c.specs|
    requires s.nodes[i].phase.Pending? || (s.nodes[i].phase.Backoff? && now >= s.nodes[i].restartAt)
    ensures Inv(c, Launch(c, w, s, i, now))
  {
    QuietKeepsInv(c, s, Ask(s));
    if w.launches(s.asked) {
      StartKeepsNodes(c, Ask(s), i, now);
    } else {
      FailedStartKeepsInv(c, Ask(s), i, now);
    }
  }

  /** An exit takes a running node down, with its restarts forgiven if it ran long enough. */
  lemma {:induction false} ExitLeavesDown(c: Config, s: State, i: nat, success: bool, now: int, t: State)
    requires Inv(c, s) && i < |c.specs| && s.nodes[i].phase.Running?
    requires t == Log(s, Exited(i, success, now))
    ensures InvBut(c, t, i) && IsDown(c, t, i, Forgiven(c, c.specs[i], t.nodes[i], now - t.nodes[i].startedAt))
    ensures t.nodes[i].failed == IsFailed(t.events, i) && i < LastStopping(|c.specs|, t.events)
  {
    var node, e := s.nodes[i], Exited(i, success, now);
    assert NodeOk(c, node, s.events, i);
    LogKeepsOthers(c, s, e, node, i);
    assert s.nodes[i := node] == s.nodes;
    OneMore(c, s.events, e, i);
  }

  lemma {:induction false} ExitKeepsInv(c: Config, s: State, i: nat, success: bool, now: int)
    requires Inv(c, s) && i < |c.specs| && s.nodes[i].phase.Running?
    ensures Inv(c, Ended(c, Log(s, Exited(i, success, now)), i, success, now - s.nodes[i].startedAt, now))
  {
    var t := Log(s, Exited(i, success, now));
    ExitLeavesDown(c, s, i, success, now, t);
    EndedKeepsInv(c, t, i, success, now - s.nodes[i].startedAt, now);
  }

  lemma {:induction false} PollKeepsInv(c: Config, w: World, s: State, i: nat, now: int)
    requires Inv(c, s) && i < |c.specs| && s.nodes[i].phase.Running?
    ensures Inv(c, Poll(c, w, s, i, now))
  {
    var t := Ask(s);
    QuietKeepsInv(c, s, t);
    var exit := w.exits(s.asked);
    if exit.Some? {
      ExitKeepsInv(c, t, i, exit.value, now);
    }
  }

  lemma {:induction false} CheckKeepsInv(c: Config, w: World, s: State, i: nat)
    requires Inv(c, s) && i < |c.specs|
    ensures Inv(c, Check(c, w, s, i))
  {
    var now, node := w.clock(s.asked), s.nodes[i];
    QuietKeepsInv(c, s, Ask(s));
    if node.phase.Running? {
      PollKeepsInv(c, w, Ask(s), i, now);
    } else if node.phase.Backoff? && now >= node.restartAt {
      LaunchKeepsInv(c, w, Ask(s), i, now);
    }
  }

  lemma {:induction false} CheckFromUnfolds(c: Config, w: World, s: State, i: nat)
    requires i < |s.nodes| == |c.specs|
    ensures CheckFrom(c, w, s, i) == CheckFrom(c, w, Check(c, w, s, i), i + 1)
  {
  }

  lemma {:induction false} CheckOne(c: Config, w: World, s: State, i: nat) returns (t: State)
    requires Inv(c, s) && i < |c.specs|
    ensures Inv(c, t) && CheckFrom(c, w, s, i) == CheckFrom(c, w, t, i + 1)
  {
    t := Check(c, w, s, i);
    CheckKeepsInv(c, w, s, i);
    CheckFromUnfolds(c, w, s, i);
  }

  lemma {:induction false} CheckFromKeepsInv(c: Config, w: World, s: State, i: nat)
    requires Inv(c, s) && i <= |c.specs|
    ensures Inv(c, CheckFrom(c, w, s, i))
    decreases |c.specs| - i
  {
    if i == |c.specs| {
      assert CheckFrom(c, w, s, i) == s;
    } else {
      var t := CheckOne(c, w, s, i);
      CheckFromKeepsInv(c, w, t, i + 1);
    }
  }

  lemma {:induction false} RoundKeepsInv(c: Config, w: World, s: State)
    requires Inv(c, s)
    ensures Inv(c, Round(c, w, s))
  {
    CheckFromKeepsInv(c, w, s, 0);
    var after := CheckFrom(c, w, s, 0);
    if after.ending.None? && AllDone(after.nodes) {
      AllDoneInPlace(c, after);
      AnnounceKeepsInv(c, after, EveryNodeEnded(AnyFailed(after.nodes)));
    }
  }

  /** When all nodes are done the log says so, and which of them failed. */
  lemma {:induction false} AllDoneInPlace(c: Config, s: State)
    requires Inv(c, s) && AllDone(s.nodes)
    ensures InPlace(c, s.events, Ends(EveryNodeEnded(AnyFailed(s.nodes))))
  {
    forall i: nat | i < |c.specs| ensures IsFinished(s.events, i) && s.nodes[i].failed == IsFailed(s.events, i) {
      assert NodeOk(c, s.nodes[i], s.events, i);
    }
  }

  /** One round of supervision with the look at the clock after it. */
  lemma {:induction false} SuperviseKeepsInv(c: Config, w: World, s: State)
    requires Inv(c, s)
    ensures var checked := s.(checks := s.checks + 1);
      Inv(c, checked) && Inv(c, Ask(Round(c, w, checked))) && Round(c, w, checked).checks == s.checks + 1
  {
    var checked := s.(checks := s.checks + 1);
    QuietKeepsInv(c, s, checked);
    RoundKeepsInv(c, w, checked);
    RoundKeepsChecks(c, w, checked);
    QuietKeepsInv(c, Round(c, w, checked), Ask(Round(c, w, checked)));
  }

  lemma {:induction false} UntilUnfolds(c: Config, w: World, s: State, deadline: Option<int>)
    requires |s.nodes| == |c.specs| && s.ending.None? && s.checks < w.stopAt
    ensures var after := Round(c, w, s.(checks := s.checks + 1));
      Until(c, w, s, deadline) ==
        if after.ending.Some? || (deadline.Some? && w.clock(after.asked) >= deadline.value) then Ask(after)
        else Until(c, w, Ask(after), deadline)
  {
    RoundKeepsChecks(c, w, s.(checks := s.checks + 1));
  }

  /** Supervision keeps the invariant, and goes on until there is a reason to stop. */
  lemma {:induction false} UntilKeepsInv(c: Config, w: World, s: State, deadline: Option<int>)
    requires Inv(c, s)
    ensures Inv(c, Until(c, w, s, deadline))
    ensures deadline.None? && Until(c, w, s, deadline).ending.None? ==> Until(c, w, s, deadline).checks > w.stopAt
    decreases w.stopAt - s.checks
  {
    SuperviseKeepsInv(c, w, s);
    if s.ending.None? && s.checks < w.stopAt {
      UntilUnfolds(c, w, s, deadline);
      UntilKeepsInv(c, w, Ask(Round(c, w, s.(checks := s.checks + 1))), deadline);
    }
  }

  /** The nodes from `i` on have not been started. */
  ghost predicate PendingFrom(nodes: seq<Node>, i: nat) {
    forall j :: i <= j < |nodes| ==> nodes[j].phase.Pending?
  }

  lemma {:induction false} CheckKeepsPending(c: Config, w: World, s: State, k: nat, i: nat)
    requires k <= |s.nodes| == |c.specs| && PendingFrom(s.nodes, i)
    ensures PendingFrom(CheckFrom(c, w, s, k).nodes, i)
    decreases |s.nodes| - k
  {
    if k < |s.nodes| { CheckKeepsPending(c, w, Check(c, w, s, k), k + 1, i); }
  }

  lemma {:induction false} UntilKeepsPending(c: Config, w: World, s: State, deadline: Option<int>, i: nat)
    requires |s.nodes| == |c.specs| && PendingFrom(s.nodes, i)
    ensures PendingFrom(Until(c, w, s, deadline).nodes, i)
    decreases w.stopAt - s.checks
  {
    if s.ending.None? && s.checks < w.stopAt {
      var checked := s.(checks := s.checks + 1);
      CheckKeepsPending(c, w, checked, 0, i);
      RoundKeepsChecks(c, w, checked);
      UntilKeepsPending(c, w, Ask(Round(c, w, checked)), deadline, i);
    }
  }

  lemma {:induction false} LaunchKeepsPending(c: Config, w: World, s: State, i: nat, now: int)
    requires i < |s.nodes| == |c.specs| && PendingFrom(s.nodes, i)
    ensures PendingFrom(Launch(c, w, s, i, now).nodes, i + 1)
  {
  }

  lemma {:induction false} StartOneKeepsInv(c: Config, w: World, s: State, i: nat)
    requires Inv(c, s) && i < |c.specs| && s.nodes[i].phase.Pending?
    ensures Inv(c, StartOne(c, w, s, i))
  {
    var now := w.clock(s.asked);
    QuietKeepsInv(c, s, Ask(s));
    LaunchKeepsInv(c, w, Ask(s), i, now);
    UntilKeepsInv(c, w, Launch(c, w, Ask(s), i, now), Some(now + c.specs[i].startDelay));
  }

  lemma {:induction false} StartOneKeepsPending(c: Config, w: World, s: State, i: nat)
    requires i < |s.nodes| == |c.specs| && PendingFrom(s.nodes, i)
    ensures PendingFrom(StartOne(c, w, s, i).nodes, i + 1)
  {
    var now := w.clock(s.asked);
    LaunchKeepsPending(c, w, Ask(s), i, now);
    UntilKeepsPending(c, w, Launch(c, w, Ask(s), i, now), Some(now + c.specs[i].startDelay), i + 1);
  }

  lemma {:induction false} StartKeepsInv(c: Config, w: World, s: State, i: nat)
    requires Inv(c, s) && i <= |c.specs| && PendingFrom(s.nodes, i)
    ensures Inv(c, StartFrom(c, w, s, i))
    decreases |c.specs| - i
  {
    var checked := s.(checks := s.checks + 1);
    QuietKeepsInv(c, s, checked);
    if i < |c.specs| && s.ending.None? && s.checks < w.stopAt {
      StartOneKeepsInv(c, w, checked, i);
      StartOneKeepsPending(c, w, checked, i);
      StartKeepsInv(c, w, StartOne(c, w, checked, i), i + 1);
      StartFromNext(c, w, s, i);
    }
  }

  lemma {:induction false} StartFromNext(c: Config, w: World, s: State, i: nat)
    requires i < |s.nodes| == |c.specs| && s.ending.None? && s.checks < w.stopAt
    ensures StartFrom(c, w, s, i) == StartFrom(c, w, StartOne(c, w, s.(checks := s.checks + 1), i), i + 1)
  {
  }

  // ---- stopping ----------------------------------------------------------------------------

  lemma {:induction false} StopRunningKeepsInv(c: Config, w: World, s: State, i: nat)
    requires Inv(c, s) && i < |c.specs| && s.nodes[i].phase.Running? && DoneFrom(s.nodes, i + 1)
    ensures Inv(c, StopOne(w, s, i))
  {
    var node := s.nodes[i];
    assert NodeOk(c, node, s.events, i);
    FailedIsFinished(s.events, i);
    assert s.nodes[i := node] == s.nodes;
    LogKeepsOthers(c, s, Stopping(i), node, i);
    OneMore(c, s.events, Stopping(i), i);
    var stopping := Ask(Log(s, Stopping(i)));
    if !w.waits(s.asked) {
      LogKeepsOthers(c, stopping, Killed(i), node, i);
      OneMore(c, stopping.events, Killed(i), i);
    }
    var ended := if w.waits(s.asked) then stopping else Ask(Log(stopping, Killed(i)));
    StoppedKeepsInv(c, s, ended, i);
  }

  /** The stopped node is gone, and done. */
  lemma {:induction false} StoppedKeepsInv(c: Config, s: State, ended: State, i: nat)
    requires InvBut(c, ended, i) && i < |c.specs| && ended.nodes == s.nodes && NodeOk(c, s.nodes[i], s.events, i)
    requires IsUp(ended.events, i) && !IsFinished(ended.events, i) && !s.nodes[i].failed
    requires SinceStable(c, ended.events, i) == SinceStable(c, s.events, i)
    requires InPlace(c, ended.events, Stopped(i))
    ensures Inv(c, Log(Log(ended, Stopped(i)).(nodes := s.nodes[i := s.nodes[i].(held := false, phase := Done)]), Finished(i)))
  {
    var gone := s.nodes[i].(held := false, phase := Done);
    LogKeepsOthers(c, ended, Stopped(i), gone, i);
    OneMore(c, ended.events, Stopped(i), i);
    var t := Log(ended, Stopped(i)).(nodes := s.nodes[i := gone]);
    FinishKeepsBase(c, t, i);
    assert (t.events + [Finished(i)])[..|t.events|] == t.events;
  }

  lemma {:induction false} StopOneKeepsInv(c: Config, w: World, s: State, i: nat)
    requires Inv(c, s) && i < |c.specs| && DoneFrom(s.nodes, i + 1)
    ensures Inv(c, StopOne(w, s, i))
  {
    var node := s.nodes[i];
    if node.phase.Running? {
      StopRunningKeepsInv(c, w, s, i);
    } else if !node.phase.Done? {
      assert NodeOk(c, node, s.events, i);
      FailedIsFinished(s.events, i);
      var t := s.(nodes := s.nodes[i := node.(phase := Done)]);
      FinishKeepsBase(c, t, i);
      assert (t.events + [Finished(i)])[..|t.events|] == t.events;
    }
  }

  lemma {:induction false} StopDownUnfolds(w: World, s: State, n: nat)
    requires 0 < n <= |s.nodes|
    ensures StopDown(w, s, n) == StopDown(w, StopOne(w, s, n - 1), n - 1)
  {
  }

  lemma {:induction false} StopOneLeavesDone(w: World, s: State, i: nat)
    requires i < |s.nodes| && DoneFrom(s.nodes, i + 1)
    ensures var t := StopOne(w, s, i);
      DoneFrom(t.nodes, i) && t.ending == s.ending && t.checks == s.checks
  {
  }

  lemma {:induction false} StopKeepsInv(c: Config, w: World, s: State, n: nat)
    requires Inv(c, s) && n <= |c.specs| && DoneFrom(s.nodes, n)
    ensures Inv(c, StopDown(w, s, n))
    ensures StopDown(w, s, n).ending == s.ending && StopDown(w, s, n).checks == s.checks
    decreases n
  {
    if n > 0 {
      var t := StopOne(w, s, n - 1);
      StopOneKeepsInv(c, w, s, n - 1);
      StopOneLeavesDone(w, s, n - 1);
      StopDownUnfolds(w, s, n);
      StopKeepsInv(c, w, t, n - 1);
    }
  }

  lemma {:induction false} StopLeavesDone(w: World, s: State, n: nat)
    requires n <= |s.nodes|
    requires forall j :: n <= j < |s.nodes| ==> s.nodes[j].phase.Done?
    ensures AllDone(StopDown(w, s, n).nodes)
    decreases n
  {
    if n > 0 { StopLeavesDone(w, StopOne(w, s, n - 1), n - 1); }
  }

  // ---- the theorems ------------------------------------------------------------------------

  lemma {:induction false} InitialInv(c: Config)
    ensures Inv(c, Initial(c)) && PendingFrom(Initial(c).nodes, 0)
  {
  }

  lemma {:induction false} RunKeepsInv(c: Config, w: World)
    ensures Inv(c, Run(c, w)) && AllDone(Run(c, w).nodes)
    ensures Run(c, w).ending.None? ==> Run(c, w).checks > w.stopAt
  {
    InitialInv(c);
    StartKeepsInv(c, w, Initial(c), 0);
    var started := StartFrom(c, w, Initial(c), 0);
    UntilKeepsInv(c, w, started, None);
    StopKeepsInv(c, w, Until(c, w, started, None), |c.specs|);
    StopLeavesDone(w, Until(c, w, started, None), |c.specs|);
  }

  /** Run returns with every node done and no process held; the log says so too. */
  lemma {:induction false} RunEndsClean(c: Config, w: World, i: nat)
    requires i < |c.specs|
    ensures var s := Run(c, w);
      && |s.nodes| == |c.specs| && s.nodes[i].phase.Done? && !s.nodes[i].held
      && !IsUp(s.events, i) && IsFinished(s.events, i)
  {
    RunKeepsInv(c, w);
    assert NodeOk(c, Run(c, w).nodes[i], Run(c, w).events, i);
  }

  /** Every restart in a run waits min(restart_delay * 2^r, max(max_restart_delay, restart_delay)), where
      r is the number of restarts since the last stable run, and r is below the budget. */
  lemma {:induction false} RestartsWait(c: Config, w: World, k: nat)
    requires k < |Run(c, w).events| && Run(c, w).events[k].Restarting?
    ensures var events := Run(c, w).events;
      var e := events[k];
      && e.i < |c.specs|
      && var spec, r := c.specs[e.i], SinceStable(c, events[..k], e.i);
        && e.wait == Min(spec.restartDelay * Power(r), Max(c.maxRestartDelay, spec.restartDelay))
        && (spec.maxRestarts != 0 ==> r < spec.maxRestarts)
  {
    RunKeepsInv(c, w);
    var events := Run(c, w).events;
    LawfulAt(c, events, k);
    var e := events[k];
    DoubledIsPower(c.specs[e.i].restartDelay, SinceStable(c, events[..k], e.i));
  }

  /** No process is started before its wait is over, nor while another one of the node runs. */
  lemma {:induction false} StartsAreDue(c: Config, w: World, k: nat)
    requires k < |Run(c, w).events| && Run(c, w).events[k].Started?
    ensures var events := Run(c, w).events;
      var e := events[k];
      !IsUp(events[..k], e.i) && (Due(events[..k], e.i).Some? ==> e.at >= Due(events[..k], e.i).value)
  {
    RunKeepsInv(c, w);
    var events := Run(c, w).events;
    LawfulAt(c, events, k);
  }

  lemma {:induction false} FinishedStays(events: seq<Event>, a: nat)
    requires a < |events| && events[a].Finished?
    ensures IsFinished(events, events[a].i)
  {
    var front := events[..|events| - 1];
    if a < |front| {
      assert front[a] == events[a];
      FinishedStays(front, a);
    }
  }

  /** Once a node is done for good, nothing happens to it again: it never starts again. */
  lemma {:induction false} DoneIsForGood(c: Config, w: World, a: nat, b: nat)
    requires a < b < |Run(c, w).events| && Run(c, w).events[a].Finished?
    ensures !About(Run(c, w).events[b], Run(c, w).events[a].i)
  {
    RunKeepsInv(c, w);
    var events := Run(c, w).events;
    LawfulAt(c, events, b);
    assert events[..b][a] == events[a];
    FinishedStays(events[..b], a);
  }

  lemma {:induction false} ReasonStays(c: Config, events: seq<Event>, a: nat)
    requires Lawful(c, events) && a < |events| && events[a].Ends?
    ensures Reason(events) == Some(events[a].ending)
  {
    var front := events[..|events| - 1];
    if a < |front| {
      assert front[a] == events[a];
      ReasonStays(c, front, a);
    }
  }

  /** A reason to end is never replaced by another one. */
  lemma {:induction false} FirstReasonStays(c: Config, w: World, a: nat, b: nat)
    requires a < |Run(c, w).events| && Run(c, w).events[a].Ends?
    ensures Run(c, w).ending == Some(Run(c, w).events[a].ending)
    ensures a < b < |Run(c, w).events| ==> !Run(c, w).events[b].Ends?
  {
    RunKeepsInv(c, w);
    var events := Run(c, w).events;
    ReasonStays(c, events, a);
    if a < b < |events| {
      LawfulPrefix(c, events, b);
      LawfulAt(c, events, b);
      assert events[..b][a] == events[a];
      ReasonStays(c, events[..b], a);
    }
  }

  lemma {:induction false} LawfulPrefix(c: Config, events: seq<Event>, k: nat)
    requires Lawful(c, events) && k <= |events|
    ensures Lawful(c, events[..k])
    decreases |events|
  {
    if k < |events| {
      LawfulPrefix(c, events[..|events| - 1], k);
      assert events[..|events| - 1][..k] == events[..k];
    } else {
      assert events[..k] == events;
    }
  }

  /** A run without a reason to end has seen a stop request. */
  lemma {:induction false} NoReasonMeansStopRequested(c: Config, w: World)
    requires Run(c, w).ending.None?
    ensures Run(c, w).checks > w.stopAt
  {
    RunKeepsInv(c, w);
  }
}
