/** The supervisor's restart machine (src/configuration/supervisor.cpp:363-583) as functions of
    its state, and what holds of the log of every run. Clock readings, launches, exits
    and the stop request come from a `World` that may answer anything. */
module RestartPolicy {
  import opened Basics
  import opened Options

  datatype Policy = Never | OnFailure | Always
  datatype Spec = Spec(restart: Policy, restartDelay: nat, maxRestarts: nat, required: bool, startDelay: int)

  /** The manifest's nodes and the supervisor's options. */
  datatype Config = Config(specs: seq<Spec>, stableRun: int, maxRestartDelay: int)

  datatype Phase = Pending | Running | Backoff | Done

  /** `held` says that the node has a child process. */
  datatype Node = Node(phase: Phase, held: bool, startedAt: int, restartAt: int, delay: int, restarts: nat, failed: bool)

  datatype Ending = RequiredEnded(i: nat, success: bool) | EveryNodeEnded(anyFailed: bool)

  /** What is reported, and besides when a node is done for good and why the system ends. */
  datatype Event =
    | Started(i: nat, at: int)
    | StartFailed(i: nat, at: int)
    | Exited(i: nat, success: bool, at: int)
    | Restarting(i: nat, at: int, wait: int)
    | GaveUp(i: nat)
    | Stopping(i: nat)
    | Killed(i: nat)
    | Stopped(i: nat)
    | Finished(i: nat)
    | Ends(ending: Ending)

  datatype State = State(nodes: seq<Node>, ending: Option<Ending>, events: seq<Event>, asked: nat, checks: nat)

  /** The answer to the n-th question of each kind. A stop is requested before the check
      number `stopAt`; `waits` is what waiting for an exit within a timeout comes to. */
  datatype World = World(clock: nat -> int, launches: nat -> bool, exits: nat -> Option<bool>,
                         waits: nat -> bool, stopAt: nat)

  // ---- the machine -----------------------------------------------------------------------

  function Initial(c: Config): State {
    State(seq(|c.specs|, i requires 0 <= i < |c.specs| => Node(Pending, false, 0, 0, c.specs[i].restartDelay, 0, false)),
          None, [], 0, 0)
  }

  function Log(s: State, e: Event): State {
    s.(events := s.events + [e])
  }

  function Ask(s: State): State {
    s.(asked := s.asked + 1)
  }

  predicate Wanted(spec: Spec, success: bool) {
    spec.restart.Always? || (spec.restart.OnFailure? && !success)
  }

  predicate Allowed(spec: Spec, restarts: nat) {
    spec.maxRestarts == 0 || restarts < spec.maxRestarts
  }

  function Cap(c: Config, spec: Spec): int {
    Max(c.maxRestartDelay, spec.restartDelay)
  }

  /** A run that lasted long enough forgives the restarts before it. */
  function Forgiven(c: Config, spec: Spec, node: Node, lasted: int): Node {
    if lasted >= c.stableRun then node.(held := false, restarts := 0, delay := spec.restartDelay)
    else node.(held := false)
  }

  /** Impl::Ended: the restart policy. */
  function Ended(c: Config, s: State, i: nat, success: bool, lasted: int, now: int): (r: State)
    requires i < |s.nodes| == |c.specs|
    ensures |r.nodes| == |s.nodes|
  {
    var node := Forgiven(c, c.specs[i], s.nodes[i], lasted);
    if Wanted(c.specs[i], success) && Allowed(c.specs[i], node.restarts) then Restarted(c, s, i, node, now)
    else Retired(c, s, i, node, success)
  }

  /** The node waits for its restart, and longer for the one after it. */
  function Restarted(c: Config, s: State, i: nat, node: Node, now: int): State
    requires i < |s.nodes| == |c.specs|
  {
    Log(s.(nodes := s.nodes[i := node.(phase := Backoff, restarts := node.restarts + 1, restartAt := now + node.delay,
                                       delay := Min(node.delay * 2, Cap(c, c.specs[i])))]),
        Restarting(i, now, node.delay))
  }

  /** The node is done for good. */
  function Retired(c: Config, s: State, i: nat, node: Node, success: bool): State
    requires i < |s.nodes| == |c.specs|
  {
    var done := s.(nodes := s.nodes[i := node.(phase := Done, failed := !success)]);
    var told := if Wanted(c.specs[i], success) then Log(done, GaveUp(i)) else done;
    Concluded(c, Log(told, Finished(i)), i, success)
  }

  /** A required node that is done ends the system, unless it is ending already. */
  function Concluded(c: Config, s: State, i: nat, success: bool): State
    requires i < |c.specs|
  {
    if c.specs[i].required && s.ending.None? then Announce(s, RequiredEnded(i, success)) else s
  }

  function Announce(s: State, ending: Ending): State {
    Log(s.(ending := Some(ending)), Ends(ending))
  }

  /** Impl::Start. */
  function Launch(c: Config, w: World, s: State, i: nat, now: int): (r: State)
    requires i < |s.nodes| == |c.specs|
    ensures |r.nodes| == |s.nodes|
  {
    if w.launches(s.asked) then
      Log(Ask(s).(nodes := s.nodes[i := s.nodes[i].(held := true, phase := Running, startedAt := now)]), Started(i, now))
    else Ended(c, Log(Ask(s), StartFailed(i, now)), i, false, 0, now)
  }

  /** A running node is asked whether it has exited. */
  function Poll(c: Config, w: World, s: State, i: nat, now: int): (r: State)
    requires i < |s.nodes| == |c.specs|
    ensures |r.nodes| == |s.nodes|
  {
    var exit := w.exits(s.asked);
    if exit.None? then Ask(s) else
    var lasted := now - s.nodes[i].startedAt;
    Ended(c, Log(Ask(s), Exited(i, exit.value, now)), i, exit.value, lasted, now)
  }

  /** One node's part of Impl::Supervise. */
  function Check(c: Config, w: World, s: State, i: nat): (r: State)
    requires i < |s.nodes| == |c.specs|
    ensures |r.nodes| == |s.nodes|
  {
    var now, node := w.clock(s.asked), s.nodes[i];
    if node.phase.Running? then Poll(c, w, Ask(s), i, now)
    else if node.phase.Backoff? && now >= node.restartAt then Launch(c, w, Ask(s), i, now)
    else Ask(s)
  }

  function CheckFrom(c: Config, w: World, s: State, i: nat): (r: State)
    requires i <= |s.nodes| == |c.specs|
    ensures |r.nodes| == |s.nodes|
    decreases |s.nodes| - i
  {
    if i == |s.nodes| then s else CheckFrom(c, w, Check(c, w, s, i), i + 1)
  }

  predicate AllDone(nodes: seq<Node>) {
    forall i :: 0 <= i < |nodes| ==> nodes[i].phase.Done?
  }

  predicate AnyFailed(nodes: seq<Node>) {
    exists i :: 0 <= i < |nodes| && nodes[i].failed
  }

  /** Impl::Supervise: a round over the nodes. */
  function Round(c: Config, w: World, s: State): (r: State)
    requires |s.nodes| == |c.specs|
    ensures |r.nodes| == |s.nodes|
  {
    var after := CheckFrom(c, w, s, 0);
    if after.ending.None? && AllDone(after.nodes) then Announce(after, EveryNodeEnded(AnyFailed(after.nodes))) else after
  }

  /** Impl::SuperviseUntil; no deadline stands for the end of time. */
  function Until(c: Config, w: World, s: State, deadline: Option<int>): (r: State)
    requires |s.nodes| == |c.specs|
    ensures |r.nodes| == |s.nodes|
    decreases w.stopAt - s.checks
  {
    if s.ending.Some? then s else
    var checked := s.(checks := s.checks + 1);
    if s.checks >= w.stopAt then checked else
    var after := Round(c, w, checked);
    RoundKeepsChecks(c, w, checked);
    var now := w.clock(after.asked);
    if after.ending.Some? || (deadline.Some? && now >= deadline.value) then Ask(after)
    else Until(c, w, Ask(after), deadline)
  }

  lemma {:induction false} CheckKeepsChecks(c: Config, w: World, s: State, i: nat)
    requires i <= |s.nodes| == |c.specs|
    ensures CheckFrom(c, w, s, i).checks == s.checks
    decreases |s.nodes| - i
  {
    if i < |s.nodes| { CheckKeepsChecks(c, w, Check(c, w, s, i), i + 1); }
  }

  lemma RoundKeepsChecks(c: Config, w: World, s: State)
    requires |s.nodes| == |c.specs|
    ensures Round(c, w, s).checks == s.checks
  {
    CheckKeepsChecks(c, w, s, 0);
  }

  /** The first loop of Impl::Run: the nodes are started in order. */
  function StartFrom(c: Config, w: World, s: State, i: nat): (r: State)
    requires i <= |s.nodes| == |c.specs|
    ensures |r.nodes| == |s.nodes|
    decreases |s.nodes| - i
  {
    if i == |s.nodes| || s.ending.Some? then s else
    var checked := s.(checks := s.checks + 1);
    if s.checks >= w.stopAt then checked else StartFrom(c, w, StartOne(c, w, checked, i), i + 1)
  }

  /** One round of that loop: a node is started and given its head start. */
  function StartOne(c: Config, w: World, s: State, i: nat): (r: State)
    requires i < |s.nodes| == |c.specs|
    ensures |r.nodes| == |s.nodes|
  {
    var now := w.clock(s.asked);
    Until(c, w, Launch(c, w, Ask(s), i, now), Some(now + c.specs[i].startDelay))
  }

  /** One node's part of Impl::StopAll. */
  function StopOne(w: World, s: State, i: nat): (r: State)
    requires i < |s.nodes|
    ensures |r.nodes| == |s.nodes|
  {
    var node := s.nodes[i];
    if node.phase.Done? then s
    else if !node.phase.Running? then Log(s.(nodes := s.nodes[i := node.(phase := Done)]), Finished(i))
    else
      var stopping := Ask(Log(s, Stopping(i)));
      var ended := if w.waits(s.asked) then stopping else Ask(Log(stopping, Killed(i)));
      Log(Log(ended, Stopped(i)).(nodes := s.nodes[i := node.(held := false, phase := Done)]), Finished(i))
  }

  /** Impl::StopAll on the nodes before `n`, the last started first. */
  function StopDown(w: World, s: State, n: nat): (r: State)
    requires n <= |s.nodes|
    ensures |r.nodes| == |s.nodes|
    decreases n
  {
    if n == 0 then s else StopDown(w, StopOne(w, s, n - 1), n - 1)
  }

  /** Impl::Run, once the log directory is there. */
  function Run(c: Config, w: World): State {
    var started := StartFrom(c, w, Initial(c), 0);
    var supervised := Until(c, w, started, None);
    StopDown(w, supervised, |supervised.nodes|)
  }
}
