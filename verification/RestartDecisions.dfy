/** What the supervisor decides in every run (src/configuration/supervisor.cpp:445-515): which
    end of a process leads to what, why a run ends, and in which order nodes are stopped. */
module RestartDecisions {
  import opened Basics
  import opened Options
  import opened RestartPolicy
  import opened RestartRuns

  lemma {:induction false} LogAt(c: Config, w: World, k: nat)
    requires k < |Run(c, w).events|
    ensures MayFollow(c, Run(c, w).events[..k], Run(c, w).events[k])
  {
    RunKeepsInv(c, w);
    LawfulAt(c, Run(c, w).events, k);
  }

  /** What settles what the log owes at `k` is the very next event; nothing stays owed. */
  lemma {:induction false} OwedIsNext(c: Config, w: World, k: nat)
    requires k < |Run(c, w).events| && !Settled(c, Run(c, w).events[..k + 1])
    ensures k + 1 < |Run(c, w).events| && Settles(c, Run(c, w).events[..k + 1], Run(c, w).events[k + 1])
  {
    RunKeepsInv(c, w);
    var events := Run(c, w).events;
    assert events[..|events|] == events;
    if k + 1 < |events| {
      LogAt(c, w, k + 1);
    }
  }

  /** Every end of a process, and every start that fails, is followed at once by what the
      node's policy says: a restart exactly if the policy asks for one and fewer restarts than
      allowed were made since the last stable run; giving up, and then being done, exactly if
      it asks for one and the budget is used up; and being done exactly if it asks for none. */
  lemma {:induction false} EveryEndIsDecided(c: Config, w: World, k: nat, i: nat, success: bool, at: int)
    requires k < |Run(c, w).events|
    requires Run(c, w).events[k] == Exited(i, success, at) || (Run(c, w).events[k] == StartFailed(i, at) && !success)
    ensures i < |c.specs| && k + 1 < |Run(c, w).events|
    ensures var events, spec := Run(c, w).events, c.specs[i];
      var r, next := SinceStable(c, events[..k + 1], i), events[k + 1];
      var wanted := spec.restart == Always || (spec.restart == OnFailure && !success);
      var within := spec.maxRestarts == 0 || r < spec.maxRestarts;
      && (next.Restarting? <==> wanted && within)
      && (next.Restarting? ==> next.i == i && next.at == at)
      && (next == GaveUp(i) <==> wanted && !within)
      && (next == GaveUp(i) ==> k + 2 < |events| && events[k + 2] == Finished(i))
      && (next == Finished(i) <==> !wanted)
  {
    LogAt(c, w, k);
    OwedIsNext(c, w, k);
    if Run(c, w).events[k + 1] == GaveUp(i) {
      OwedIsNext(c, w, k + 1);
    }
  }

  /** A node is restarted or given up only where its process has just ended or failed to start. */
  lemma {:induction false} OnlyEndsAreAnswered(c: Config, w: World, k: nat)
    requires k < |Run(c, w).events| && (Run(c, w).events[k].Restarting? || Run(c, w).events[k].GaveUp?)
    ensures k > 0 && (Run(c, w).events[k - 1].Exited? || Run(c, w).events[k - 1].StartFailed?)
    ensures Run(c, w).events[k - 1].i == Run(c, w).events[k].i
  {
    LogAt(c, w, k);
  }

  /** A required node that is done after its process ended, or failed to start, gives the
      reason for ending at once, with that outcome, if none has been given. */
  lemma {:induction false} RequiredEndsTheSystem(c: Config, w: World, k: nat, i: nat, success: bool)
    requires k < |Run(c, w).events| && Run(c, w).events[k] == Finished(i) && i < |c.specs| && c.specs[i].required
    requires Outcome(Run(c, w).events[..k], i) == Some(success) && Reason(Run(c, w).events[..k]).None?
    ensures k + 1 < |Run(c, w).events| && Run(c, w).events[k + 1] == Ends(RequiredEnded(i, success))
  {
    var events := Run(c, w).events;
    assert events[..k + 1][..k] == events[..k];
    OneMore(c, events[..k], events[k], i);
    assert events[..k] + [events[k]] == events[..k + 1];
    OwedIsNext(c, w, k);
  }

  /** Why a run ends: a required node is done with just that outcome, or all nodes are done,
      and then a failure is reported exactly if one of them failed. */
  lemma {:induction false} ReasonsAreTrue(c: Config, w: World, k: nat)
    requires k < |Run(c, w).events| && Run(c, w).events[k].Ends?
    ensures match Run(c, w).events[k].ending
      case RequiredEnded(i, success) =>
        && i < |c.specs| && c.specs[i].required && k > 0 && Run(c, w).events[k - 1] == Finished(i)
        && Outcome(Run(c, w).events[..k - 1], i) == Some(success)
      case EveryNodeEnded(anyFailed) =>
        AllFinished(c, Run(c, w).events[..k]) && anyFailed == SomeFailed(c, Run(c, w).events[..k])
  {
    LogAt(c, w, k);
    var events := Run(c, w).events;
    if k > 0 {
      assert events[..k][..k - 1] == events[..k - 1];
    }
  }

  lemma {:induction false} StoppingDescends(c: Config, events: seq<Event>, a: nat)
    requires Lawful(c, events) && a < |events| && events[a].Stopping?
    ensures LastStopping(|c.specs|, events) <= events[a].i
  {
    var front := events[..|events| - 1];
    if a < |front| {
      assert front[a] == events[a];
      StoppingDescends(c, front, a);
    }
  }

  /** Nodes are stopped in the reverse of the order in which they were started. */
  lemma {:induction false} StopsLastFirst(c: Config, w: World, a: nat, b: nat)
    requires a < b < |Run(c, w).events| && Run(c, w).events[a].Stopping? && Run(c, w).events[b].Stopping?
    ensures Run(c, w).events[b].i < Run(c, w).events[a].i
  {
    RunKeepsInv(c, w);
    var events := Run(c, w).events;
    LogAt(c, w, b);
    LawfulPrefix(c, events, b);
    assert events[..b][a] == events[a];
    StoppingDescends(c, events[..b], a);
  }

  // ---- how long supervision goes on ----------------------------------------------------------

  /** Supervision until a deadline returns for a reason to end, for a stop request, or when the
      clock has reached the deadline. */
  lemma {:induction false} ReturnsAtDeadline(c: Config, w: World, s: State, deadline: int)
    requires |s.nodes| == |c.specs|
    ensures var r := Until(c, w, s, Some(deadline));
      r.ending.Some? || r.checks > w.stopAt || (r.asked > 0 && w.clock(r.asked - 1) >= deadline)
    decreases w.stopAt - s.checks
  {
    if s.ending.None? && s.checks < w.stopAt {
      var checked := s.(checks := s.checks + 1);
      UntilUnfolds(c, w, s, Some(deadline));
      RoundKeepsChecks(c, w, checked);
      ReturnsAtDeadline(c, w, Ask(Round(c, w, checked)), deadline);
    }
  }

  /** A round that ends at the deadline or after it is the last one. */
  lemma {:induction false} LastRound(c: Config, w: World, s: State, deadline: int)
    requires |s.nodes| == |c.specs| && s.ending.None? && s.checks < w.stopAt
    requires w.clock(Round(c, w, s.(checks := s.checks + 1)).asked) >= deadline
    ensures Until(c, w, s, Some(deadline)).events == Round(c, w, s.(checks := s.checks + 1)).events
  {
    UntilUnfolds(c, w, s, Some(deadline));
  }

  /** A node that has been started gets its head start: unless the system is ending or a stop has
      been requested, the clock has moved on by its start delay when the next one's turn comes. */
  lemma {:induction false} HeadStart(c: Config, w: World, s: State, i: nat)
    requires i < |s.nodes| == |c.specs| && forall m: nat :: w.clock(m) <= w.clock(m + 1)
    ensures var r := StartOne(c, w, s, i);
      r.ending.None? && r.checks <= w.stopAt ==> w.clock(r.asked) >= w.clock(s.asked) + c.specs[i].startDelay
  {
    var now := w.clock(s.asked);
    ReturnsAtDeadline(c, w, Launch(c, w, Ask(s), i, now), now + c.specs[i].startDelay);
    var r := StartOne(c, w, s, i);
    if r.ending.None? && r.checks <= w.stopAt {
      assert w.clock(r.asked - 1) <= w.clock(r.asked - 1 + 1);
    }
  }
}
