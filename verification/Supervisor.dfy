/** The supervisor as the code runs it (src/configuration/supervisor.cpp:363-583): nodes, ending and
    log updated in place, against the restart machine. */
module Supervisor {
  import opened Basics
  import opened Options
  import P = RestartPolicy

  class Supervisor {
    const c: P.Config
    const w: P.World
    var nodes: seq<P.Node>
    var ending: Option<P.Ending>
    var events: seq<P.Event>
    var asked: nat
    var checks: nat

    function View(): P.State reads this { P.State(nodes, ending, events, asked, checks) }

    constructor (config: P.Config, world: P.World)
      ensures c == config && w == world && View() == P.Initial(config)
    {
      c, w, ending, events, asked, checks := config, world, None, [], 0, 0;
      nodes := seq(|config.specs|, i requires 0 <= i < |config.specs| =>
        P.Node(P.Pending, false, 0, 0, config.specs[i].restartDelay, 0, false));
    }

    method Emit(e: P.Event)
      modifies this`events
      ensures events == old(events) + [e]
    {
      events := events + [e];
    }

    method Now() returns (now: int)
      modifies this`asked
      ensures now == w.clock(old(asked)) && asked == old(asked) + 1
    {
      now := w.clock(asked);
      asked := asked + 1;
    }

    method StopRequested() returns (stop: bool)
      modifies this`checks
      ensures stop == (old(checks) >= w.stopAt) && checks == old(checks) + 1
    {
      stop := checks >= w.stopAt;
      checks := checks + 1;
    }

    method Start(i: nat, now: int)
      requires i < |nodes| == |c.specs|
      modifies this
      ensures View() == P.Launch(c, w, old(View()), i, now)
      ensures w.launches(old(asked)) ==>
                && events == old(events) + [P.Started(i, now)] && ending == old(ending)
                && nodes == old(nodes)[i := old(nodes)[i].(held := true, phase := P.Running, startedAt := now)]
      ensures !w.launches(old(asked)) ==> old(events) + [P.StartFailed(i, now)] < events
    {
      var launched := w.launches(asked);
      asked := asked + 1;
      if !launched {
        Emit(P.StartFailed(i, now));
        Ended(i, false, now, now);
        return;
      }
      nodes := nodes[i := nodes[i].(held := true, phase := P.Running, startedAt := now)];
      Emit(P.Started(i, now));
    }

    method Ended(i: nat, success: bool, startedAt: int, now: int)
      requires i < |nodes| == |c.specs|
      modifies this`nodes, this`ending, this`events
      ensures old(events) < events
      ensures View() == P.Ended(c, old(View()), i, success, now - startedAt, now)
    {
      var spec, node := c.specs[i], nodes[i];
      node := node.(held := false);
      if now - startedAt >= c.stableRun {
        node := node.(restarts := 0, delay := spec.restartDelay);
      }
      var wanted := spec.restart.Always? || (spec.restart.OnFailure? && !success);
      var allowed := spec.maxRestarts == 0 || node.restarts < spec.maxRestarts;
      if wanted && allowed {
        var wait := node.delay;
        node := node.(restarts := node.restarts + 1, phase := P.Backoff, restartAt := now + wait);
        Emit(P.Restarting(i, now, wait));
        var cap := Max(c.maxRestartDelay, spec.restartDelay);
        nodes := nodes[i := node.(delay := Min(wait * 2, cap))];
        return;
      }
      nodes := nodes[i := node.(phase := P.Done, failed := !success)];
      if wanted { Emit(P.GaveUp(i)); }
      Emit(P.Finished(i));
      if spec.required && ending.None? {
        ending := Some(P.RequiredEnded(i, success));
        Emit(P.Ends(P.RequiredEnded(i, success)));
      }
    }

    /** One node's part of a round. */
    method Check(i: nat)
      requires i < |nodes| == |c.specs|
      modifies this
      ensures View() == P.Check(c, w, old(View()), i)
      ensures old(nodes)[i].phase.Running? ==>
                match w.exits(old(asked) + 1)
                case None => nodes == old(nodes) && events == old(events)
                case Some(success) => old(events) + [P.Exited(i, success, w.clock(old(asked)))] < events
      ensures !old(nodes)[i].phase.Running? ==>
                (events == old(events) <==> !(old(nodes)[i].phase.Backoff? && w.clock(old(asked)) >= old(nodes)[i].restartAt))
    {
      var now := Now();
      var node := nodes[i];
      if node.phase.Running? {
        var exit := w.exits(asked);
        asked := asked + 1;
        if exit.Some? {
          Emit(P.Exited(i, exit.value, now));
          Ended(i, exit.value, node.startedAt, now);
        }
      } else if node.phase.Backoff? && now >= node.restartAt {
        Start(i, now);
      }
    }

    method Supervise()
      requires |nodes| == |c.specs|
      modifies this
      ensures View() == P.Round(c, w, old(View()))
    {
      for i := 0 to |nodes|
        invariant |nodes| == |c.specs|
        invariant P.CheckFrom(c, w, View(), i) == P.CheckFrom(c, w, old(View()), 0)
      {
        Check(i);
      }
      if ending.Some? { return; }
      var allDone := true;
      var anyFailed := false;
      for i := 0 to |nodes|
        invariant allDone <==> forall j :: 0 <= j < i ==> nodes[j].phase.Done?
        invariant anyFailed <==> exists j :: 0 <= j < i && nodes[j].failed
      {
        allDone := allDone && nodes[i].phase.Done?;
        anyFailed := anyFailed || nodes[i].failed;
      }
      if allDone {
        ending := Some(P.EveryNodeEnded(anyFailed));
        Emit(P.Ends(P.EveryNodeEnded(anyFailed)));
      }
    }

    method SuperviseUntil(deadline: Option<int>)
      requires |nodes| == |c.specs|
      modifies this
      ensures View() == P.Until(c, w, old(View()), deadline)
    {
      while true
        invariant |nodes| == |c.specs|
        invariant P.Until(c, w, View(), deadline) == P.Until(c, w, old(View()), deadline)
        decreases w.stopAt - checks
      {
        if ending.Some? { return; }
        var stop := StopRequested();
        if stop { return; }
        P.RoundKeepsChecks(c, w, View());
        Supervise();
        var now := Now();
        if ending.Some? || (deadline.Some? && now >= deadline.value) { return; }
      }
    }

    /** Stops the running nodes, the last started first. */
    method StopAll()
      requires |nodes| == |c.specs|
      modifies this
      ensures View() == P.StopDown(w, old(View()), |c.specs|)
    {
      var n := |nodes|;
      while n > 0
        invariant 0 <= n <= |nodes| == |c.specs|
        invariant P.StopDown(w, View(), n) == P.StopDown(w, old(View()), |c.specs|)
      {
        n := n - 1;
        Stop(n);
      }
    }

    method Stop(i: nat)
      requires i < |nodes|
      modifies this
      ensures View() == P.StopOne(w, old(View()), i)
      ensures old(nodes)[i].phase.Running? ==>
                events == old(events) + (if w.waits(old(asked)) then [P.Stopping(i), P.Stopped(i), P.Finished(i)]
                                         else [P.Stopping(i), P.Killed(i), P.Stopped(i), P.Finished(i)])
    {
      var node := nodes[i];
      if node.phase.Done? { return; }
      if !node.phase.Running? {
        nodes := nodes[i := node.(phase := P.Done)];
        Emit(P.Finished(i));
        return;
      }
      Emit(P.Stopping(i));
      var exited := w.waits(asked);
      asked := asked + 1;
      if !exited {
        Emit(P.Killed(i));
        asked := asked + 1;
      }
      Emit(P.Stopped(i));
      nodes := nodes[i := node.(held := false, phase := P.Done)];
      Emit(P.Finished(i));
    }

    /** The whole run; no reason means that a stop was requested. */
    method Run() returns (reason: Option<P.Ending>)
      requires View() == P.Initial(c)
      modifies this
      ensures View() == P.Run(c, w)
      ensures reason == ending
    {
      StartAll();
      SuperviseUntil(None);
      reason := ending;
      ghost var supervised := View();
      StopAll();
      StopKeepsEnding(w, supervised, |c.specs|);
    }

    method StartAll()
      requires |nodes| == |c.specs|
      modifies this
      ensures |nodes| == |c.specs| && View() == P.StartFrom(c, w, old(View()), 0)
    {
      for i := 0 to |nodes|
        invariant |nodes| == |c.specs|
        invariant P.StartFrom(c, w, View(), i) == P.StartFrom(c, w, old(View()), 0)
      {
        var go := StartNext(i);
        if !go { return; }
      }
    }

    /** One round of that loop. */
    method StartNext(i: nat) returns (go: bool)
      requires i < |nodes| == |c.specs|
      modifies this
      ensures |nodes| == |c.specs|
      ensures P.StartFrom(c, w, old(View()), i) == if go then P.StartFrom(c, w, View(), i + 1) else View()
    {
      if ending.Some? { return false; }
      var stop := StopRequested();
      if stop { return false; }
      StartOne(i);
      return true;
    }

    /** A node is started and given its head start. */
    method StartOne(i: nat)
      requires i < |nodes| == |c.specs|
      modifies this
      ensures View() == P.StartOne(c, w, old(View()), i)
    {
      var now := Now();
      assert View() == P.Ask(old(View()));
      Start(i, now);
      ghost var started := View();
      assert started == P.Launch(c, w, P.Ask(old(View())), i, now);
      SuperviseUntil(Some(now + c.specs[i].startDelay));
    }
  }

  lemma {:induction false} StopKeepsEnding(w: P.World, s: P.State, n: nat)
    requires n <= |s.nodes|
    ensures P.StopDown(w, s, n).ending == s.ending
    decreases n
  {
    if n > 0 { StopKeepsEnding(w, P.StopOne(w, s, n - 1), n - 1); }
  }
}
