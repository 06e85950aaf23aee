/** Every interleaving of a service client's threads: callers inside Start, the dispatcher
    and Close (src/service/service.cpp:786-968, 1110-1147). A callback is handed from one
    holder to the next, and is run at most once; whether it is run exactly once depends
    on the transport. */
module ServiceCalls {
  import opened Options
  import opened Bytes
  import opened ServiceHeader
  import opened ServiceClient

  /** How far a call's Start has come. */
  datatype Stage =
    | Waiting                  // for a live server, in the first loop of AwaitServerLocked
    | Matching                 // in its second loop: the request writer has no reader yet
    | Refused(status: StatusCode)  // about to run its own callback
    | Sending                  // registered, about to write the request
    | Failing(status: StatusCode)  // write failed and callback taken back, about to run it
    | Sent                     // returned after a successful write
    | Returned                 // returned otherwise

  datatype Call = Call(stage: Stage, id: Option<nat>, payload: seq<Byte>, timeout: Int64, deadline: int)

  datatype Dispatcher = Asleep | Reading | Running | Exited

  /** Close joins the dispatcher, unless it is called from one of its callbacks. */
  datatype Closer = Open | Joining(onDispatcher: bool) | Cancelling(onDispatcher: bool) | Closed

  /** `taken` is the dispatcher's list of completions and `cancelled` Close's. `ran` is the
      history of callbacks run, `late` the calls registered after Close emptied the map. */
  datatype State = State(
    clientId: Word64, tracks: bool, core: Core, calls: seq<Call>,
    dispatcher: Dispatcher, taken: seq<Completion>, closer: Closer, cancelled: seq<Completion>,
    ran: seq<Completion>, late: set<nat>)

  datatype Step =
    | Begin(payload: seq<Byte>, timeout: Int64, deadline: int)
    | Refuse(c: nat)
    | AwaitMatch(c: nat)
    | Register(c: nat)
    | RunRefused(c: nat)
    | SendSucceeds(c: nat)
    | SendFails(c: nat, status: StatusCode)  // including the second look at the map
    | RunFailed(c: nat)
    | Wake
    | Read(message: seq<Byte>)
    | Expire(now: int, alive: bool, ids: seq<nat>)
    | RunTaken
    | Sleep
    | Exit
    | BeginClose(onDispatcher: bool)
    | Cancel(ids: seq<nat>)
    | RunCancelled
    | FinishClose

  /** Close is being run by a callback of the dispatcher, which stands still meanwhile. */
  predicate DispatcherInClose(s: State) {
    (s.closer.Joining? || s.closer.Cancelling?) && s.closer.onDispatcher
  }

  ghost predicate Enabled(s: State, step: Step) {
    match step
    case Begin(_, timeout, _) => timeout > 0
    case Refuse(c) => c < |s.calls| && (s.calls[c].stage.Waiting? || s.calls[c].stage.Matching?)
    case AwaitMatch(c) => c < |s.calls| && s.calls[c].stage.Waiting? && s.tracks && !s.core.closed
    case Register(c) =>
      && c < |s.calls| && s.core.nextRequest < MAX_REQUESTS
      && ((s.calls[c].stage.Waiting? && !s.core.closed) || s.calls[c].stage.Matching?)
    case RunRefused(c) => c < |s.calls| && s.calls[c].stage.Refused?
    case SendSucceeds(c) => c < |s.calls| && s.calls[c].stage.Sending?
    case SendFails(c, _) => c < |s.calls| && s.calls[c].stage.Sending? && s.calls[c].id.Some?
    case RunFailed(c) => c < |s.calls| && s.calls[c].stage.Failing?
    case Wake => s.dispatcher.Asleep? && !s.core.closed
    case Read(_) => s.dispatcher.Reading?
    case Expire(now, alive, ids) =>
      s.dispatcher.Reading? && Enumerates(ids, Expiring(s.core.pending, now, alive))
    case RunTaken => s.dispatcher.Running? && s.taken != [] && !DispatcherInClose(s)
    case Sleep => s.dispatcher.Running? && s.taken == [] && !DispatcherInClose(s)
    case Exit => s.dispatcher.Asleep? && s.core.closed
    case BeginClose(onDispatcher) => !s.core.closed && (onDispatcher ==> s.dispatcher.Running?)
    case Cancel(ids) =>
      && s.closer.Joining? && (s.closer.onDispatcher || s.dispatcher.Exited?)
      && Enumerates(ids, s.core.pending.Keys)
    case RunCancelled => s.closer.Cancelling? && s.cancelled != []
    case FinishClose => s.closer.Cancelling? && s.cancelled == []
  }

  function At(s: State, c: nat, stage: Stage): State
    requires c < |s.calls|
  {
    s.(calls := s.calls[c := s.calls[c].(stage := stage)])
  }

  ghost function Next(s: State, step: Step): State
    requires Enabled(s, step)
  {
    match step
    case Begin(payload, timeout, deadline) =>
      s.(calls := s.calls + [Call(Waiting, None, payload, timeout, deadline)])
    case Refuse(c) => At(s, c, Refused(if s.core.closed then CANCELLED else UNAVAILABLE))
    case AwaitMatch(c) => At(s, c, Matching)
    case Register(c) =>
      s.(core := Registered(s.core, s.calls[c].deadline, c),
         calls := s.calls[c := s.calls[c].(stage := Sending, id := Some(s.core.nextRequest + 1))],
         late := if Emptied(s) then s.late + {c} else s.late)
    case RunRefused(c) =>
      At(s, c, Returned).(ran := s.ran + [Completion(c, Error(s.calls[c].stage.status, Local))])
    case SendSucceeds(c) => At(s, c, Sent)
    case SendFails(c, status) =>
      var id := s.calls[c].id.value;
      At(s, c, if id in s.core.pending then Failing(status) else Returned)
        .(core := s.core.(pending := Without(s.core.pending, [id])))
    case RunFailed(c) =>
      At(s, c, Returned).(ran := s.ran + [Completion(c, Error(s.calls[c].stage.status, Local))])
    case Wake => s.(dispatcher := Reading)
    case Read(message) => (
      match Answers(s.core, s.clientId, message)
      case None => s
      case Some((id, result)) =>
        s.(core := s.core.(pending := Without(s.core.pending, [id])),
           taken := s.taken + Completions(s.core.pending, [id], result)))
    case Expire(now, alive, ids) =>
      s.(dispatcher := Running, core := s.core.(pending := Without(s.core.pending, ids)),
         taken := s.taken + Completions(s.core.pending, ids, ExpiryResult(alive)))
    case RunTaken => s.(ran := s.ran + [s.taken[0]], taken := s.taken[1..])
    case Sleep => s.(dispatcher := Asleep)
    case Exit => s.(dispatcher := Exited)
    case BeginClose(onDispatcher) => s.(core := s.core.(closed := true), closer := Joining(onDispatcher))
    case Cancel(ids) =>
      s.(closer := Cancelling(s.closer.onDispatcher), core := s.core.(pending := map[]),
         cancelled := Completions(s.core.pending, ids, Error(CANCELLED, Local)))
    case RunCancelled => s.(ran := s.ran + [s.cancelled[0]], cancelled := s.cancelled[1..])
    case FinishClose => s.(closer := Closed)
  }

  /** Close has emptied the map of pending calls. */
  predicate Emptied(s: State) {
    s.closer.Cancelling? || s.closer.Closed?
  }

  ghost predicate Initial(s: State) {
    && s.core == Core(false, 0, map[]) && s.calls == [] && s.dispatcher == Asleep && s.taken == []
    && s.closer == Open && s.cancelled == [] && s.ran == [] && s.late == {}
  }

  ghost predicate IsRun(states: seq<State>, steps: seq<Step>) {
    && |states| == |steps| + 1
    && Initial(states[0])
    && forall i {:trigger steps[i]} :: 0 <= i < |steps| ==>
        Enabled(states[i], steps[i]) && states[i + 1] == Next(states[i], steps[i])
  }

  // ---- who holds the callback of a call ------------------------------------------

  function Count(completions: seq<Completion>, c: nat): nat {
    if completions == [] then 0
    else (if completions[0].call == c then 1 else 0) + Count(completions[1..], c)
  }

  lemma {:induction false} CountAppend(a: seq<Completion>, b: seq<Completion>, c: nat)
    ensures Count(a + b, c) == Count(a, c) + Count(b, c)
  {
    if a == [] {
      assert a + b == b;
    } else {
      CountAppend(a[1..], b, c);
      assert (a + b)[1..] == a[1..] + b;
    }
  }

  /** Whether Start itself still has the callback. */
  function WithStart(call: Call): nat {
    if call.stage.Waiting? || call.stage.Matching? || call.stage.Refused? || call.stage.Failing? then 1 else 0
  }

  function InMap(core: Core, call: Call): nat {
    if call.id.Some? && call.id.value in core.pending then 1 else 0
  }

  /** How many hold the callback of call `c`, counting each run of it as one. */
  function Holders(s: State, c: nat): nat
    requires c < |s.calls|
  {
    WithStart(s.calls[c]) + InMap(s.core, s.calls[c])
    + Count(s.taken, c) + Count(s.cancelled, c) + Count(s.ran, c)
  }

  ghost predicate HeldOnce(s: State) {
    forall c: nat :: c < |s.calls| ==> Holders(s, c) == 1
  }

  /** Request numbers: handed out once, and the map agrees with the calls. */
  ghost predicate Numbered(s: State) {
    && (forall id :: id in s.core.pending ==>
          s.core.pending[id].call < |s.calls| && s.calls[s.core.pending[id].call].id == Some(id))
    && (forall c: nat :: c < |s.calls| && s.calls[c].id.Some? ==> 1 <= s.calls[c].id.value <= s.core.nextRequest)
    && (forall c: nat, d: nat :: c < d < |s.calls| && s.calls[c].id.Some? ==> s.calls[c].id != s.calls[d].id)
    && s.core.nextRequest <= MAX_REQUESTS
  }

  ghost predicate StageOk(s: State, c: nat)
    requires c < |s.calls|
  {
    var call := s.calls[c];
    && (call.stage.Waiting? || call.stage.Matching? || call.stage.Refused? ==> call.id.None?)
    && (call.stage.Sending? || call.stage.Failing? || call.stage.Sent? ==> call.id.Some?)
    && (call.stage.Returned? || call.stage.Failing? ==> InMap(s.core, call) == 0)
    && (call.stage.Matching? ==> s.tracks)
    && (c in s.late && (call.stage.Sending? || call.stage.Sent?) ==> InMap(s.core, call) == 1)
    && (Emptied(s) && InMap(s.core, call) == 1 ==> c in s.late)
  }

  ghost predicate StagesOk(s: State) {
    && (forall c: nat :: c < |s.calls| ==> StageOk(s, c))
    && (s.late != {} ==> s.tracks && Emptied(s))
    && (forall c :: c in s.late ==> c < |s.calls| && s.calls[c].id.Some?)
  }

  ghost predicate ThreadsOk(s: State) {
    && (s.dispatcher.Asleep? || s.dispatcher.Exited? ==> s.taken == [])
    && (s.core.closed <==> !s.closer.Open?)
    && (s.dispatcher.Exited? ==> s.core.closed)
    && (DispatcherInClose(s) ==> s.dispatcher.Running?)
    && (Emptied(s) ==> !s.dispatcher.Reading?)
    && (!s.closer.Cancelling? ==> s.cancelled == [])
  }

  /** Completions are of calls that have begun. */
  ghost predicate Known(completions: seq<Completion>, n: nat) {
    forall i :: 0 <= i < |completions| ==> completions[i].call < n
  }

  ghost predicate AllKnown(s: State) {
    Known(s.taken, |s.calls|) && Known(s.cancelled, |s.calls|) && Known(s.ran, |s.calls|)
  }

  ghost predicate Inv(s: State) {
    HeldOnce(s) && AllKnown(s) && Numbered(s) && StagesOk(s) && ThreadsOk(s)
  }

  // ---- taking calls out of the map -----------------------------------------------

  /** Of a list of distinct requests, the callback of each call is taken once, if it is listed. */
  lemma {:induction false} CountCompletions(s: State, ids: seq<nat>, result: Result, c: nat)
    requires Numbered(s) && c < |s.calls|
    requires forall i, j :: 0 <= i < j < |ids| ==> ids[i] < ids[j]
    requires forall i :: 0 <= i < |ids| ==> ids[i] in s.core.pending
    ensures Count(Completions(s.core.pending, ids, result), c)
      == if s.calls[c].id.Some? && s.calls[c].id.value in ids then 1 else 0
  {
    if ids != [] {
      CountCompletions(s, ids[1..], result, c);
      var all := Completions(s.core.pending, ids, result);
      assert all[1..] == Completions(s.core.pending, ids[1..], result);
      assert ids == [ids[0]] + ids[1..];
      var first := s.core.pending[ids[0]].call;
      assert s.calls[first].id == Some(ids[0]);
      assert first == c <==> s.calls[c].id == Some(ids[0]);
    }
  }

  /** Moving the requests `ids` from the map to a list of completions leaves one holder each. */
  lemma SweepHolds(s: State, ids: seq<nat>, result: Result, c: nat)
    requires Numbered(s) && c < |s.calls|
    requires forall i, j :: 0 <= i < j < |ids| ==> ids[i] < ids[j]
    requires forall i :: 0 <= i < |ids| ==> ids[i] in s.core.pending
    ensures InMap(s.core, s.calls[c]) == InMap(s.core.(pending := Without(s.core.pending, ids)), s.calls[c])
      + Count(Completions(s.core.pending, ids, result), c)
  {
    CountCompletions(s, ids, result, c);
  }

  // ---- every step keeps the invariant --------------------------------------------

  lemma {:induction false} UnknownIsNotCounted(completions: seq<Completion>, c: nat)
    requires Known(completions, c)
    ensures Count(completions, c) == 0
  {
    if completions != [] {
      UnknownIsNotCounted(completions[1..], c);
    }
  }

  lemma CountOne(completion: Completion, c: nat)
    ensures Count([completion], c) == if completion.call == c then 1 else 0
  {
  }

  predicate IsStart(step: Step) {
    step.Begin? || step.Refuse? || step.AwaitMatch? || step.Register? || step.RunRefused?
    || step.SendSucceeds? || step.SendFails? || step.RunFailed?
  }

  lemma BeginKeepsHeld(s: State, step: Step)
    requires Inv(s) && Enabled(s, step) && step.Begin?
    ensures HeldOnce(Next(s, step))
  {
    var t := Next(s, step);
    var latest := |s.calls|;
    UnknownIsNotCounted(s.taken, latest);
    UnknownIsNotCounted(s.cancelled, latest);
    UnknownIsNotCounted(s.ran, latest);
    forall c: nat | c < |t.calls| ensures Holders(t, c) == 1 {
      if c < latest { assert Holders(s, c) == 1; }
    }
  }

  lemma RunsOwnKeepsHeld(s: State, step: Step)
    requires Inv(s) && Enabled(s, step) && (step.RunRefused? || step.RunFailed?)
    ensures HeldOnce(Next(s, step))
  {
    var t := Next(s, step);
    forall c: nat | c < |t.calls| ensures Holders(t, c) == 1 {
      assert Holders(s, c) == 1;
      CountAppend(s.ran, [t.ran[|s.ran|]], c);
      CountOne(t.ran[|s.ran|], c);
    }
  }

  lemma SendingKeepsHeld(s: State, step: Step)
    requires Inv(s) && Enabled(s, step)
    requires IsStart(step) && !step.Begin? && !step.RunRefused? && !step.RunFailed?
    ensures HeldOnce(Next(s, step))
  {
    var t := Next(s, step);
    forall c: nat | c < |t.calls| ensures Holders(t, c) == 1 {
      assert Holders(s, c) == 1 && StageOk(s, c);
    }
  }

  lemma RunningKeepsHeld(s: State, step: Step)
    requires Inv(s) && Enabled(s, step) && (step.RunTaken? || step.RunCancelled?)
    ensures HeldOnce(Next(s, step))
  {
    var t := Next(s, step);
    forall c: nat | c < |t.calls| ensures Holders(t, c) == 1 {
      assert Holders(s, c) == 1;
      CountAppend(s.ran, [t.ran[|s.ran|]], c);
      CountOne(t.ran[|s.ran|], c);
    }
  }

  lemma ReadingKeepsHeld(s: State, step: Step)
    requires Inv(s) && Enabled(s, step) && step.Read?
    ensures HeldOnce(Next(s, step))
  {
    match Answers(s.core, s.clientId, step.message)
    case None =>
    case Some((id, result)) =>
      var t := Next(s, step);
      forall c: nat | c < |t.calls| ensures Holders(t, c) == 1 {
        assert Holders(s, c) == 1;
        SweepHolds(s, [id], result, c);
        CountAppend(s.taken, Completions(s.core.pending, [id], result), c);
      }
  }

  lemma SweepingKeepsHeld(s: State, step: Step)
    requires Inv(s) && Enabled(s, step) && (step.Expire? || step.Cancel?)
    ensures HeldOnce(Next(s, step))
  {
    var t := Next(s, step);
    forall c: nat | c < |t.calls| ensures Holders(t, c) == 1 {
      assert Holders(s, c) == 1;
      match step
      case Expire(now, alive, ids) =>
        SweepHolds(s, ids, ExpiryResult(alive), c);
        CountAppend(s.taken, Completions(s.core.pending, ids, ExpiryResult(alive)), c);
      case Cancel(ids) =>
        assert Without(s.core.pending, ids) == map[];
        SweepHolds(s, ids, Error(CANCELLED, Local), c);
    }
  }

  lemma StepKeepsHeld(s: State, step: Step)
    requires Inv(s) && Enabled(s, step)
    ensures HeldOnce(Next(s, step))
  {
    if step.Begin? {
      BeginKeepsHeld(s, step);
    } else if step.RunRefused? || step.RunFailed? {
      RunsOwnKeepsHeld(s, step);
    } else if IsStart(step) {
      SendingKeepsHeld(s, step);
    } else if step.RunTaken? || step.RunCancelled? {
      RunningKeepsHeld(s, step);
    } else if step.Read? {
      ReadingKeepsHeld(s, step);
    } else if step.Expire? || step.Cancel? {
      SweepingKeepsHeld(s, step);
    } else {
      var t := Next(s, step);
      assert forall c: nat :: c < |t.calls| ==> Holders(t, c) == Holders(s, c);
    }
  }

  /** Requests leave the map and calls begin: no number changes. */
  ghost predicate SameNumbers(s: State, t: State) {
    && t.core.nextRequest == s.core.nextRequest
    && (forall id :: id in t.core.pending ==> id in s.core.pending && t.core.pending[id] == s.core.pending[id])
    && |s.calls| <= |t.calls|
    && (forall c: nat :: c < |s.calls| ==> t.calls[c].id == s.calls[c].id)
    && (forall c: nat :: |s.calls| <= c < |t.calls| ==> t.calls[c].id.None?)
  }

  lemma OtherStepsKeepNumbers(s: State, step: Step)
    requires Enabled(s, step) && !step.Register?
    ensures SameNumbers(s, Next(s, step))
  {
  }

  lemma SameNumbersAreNumbered(s: State, t: State)
    requires Numbered(s) && SameNumbers(s, t)
    ensures Numbered(t)
  {
  }

  lemma RegisterKeepsNumbers(s: State, step: Step)
    requires Inv(s) && Enabled(s, step) && step.Register?
    ensures Numbered(Next(s, step))
  {
    assert StageOk(s, step.c);
  }

  lemma StepKeepsNumbers(s: State, step: Step)
    requires Inv(s) && Enabled(s, step)
    ensures Numbered(Next(s, step))
  {
    if step.Register? {
      RegisterKeepsNumbers(s, step);
    } else {
      OtherStepsKeepNumbers(s, step);
      SameNumbersAreNumbered(s, Next(s, step));
    }
  }

  lemma TakenIsKnown(s: State, ids: seq<nat>, result: Result)
    requires Numbered(s)
    requires forall i :: 0 <= i < |ids| ==> ids[i] in s.core.pending
    ensures Known(Completions(s.core.pending, ids, result), |s.calls|)
  {
  }

  lemma StartKeepsKnown(s: State, step: Step)
    requires AllKnown(s) && Enabled(s, step) && IsStart(step)
    ensures AllKnown(Next(s, step))
  {
  }

  lemma OtherStepsKeepKnown(s: State, step: Step)
    requires AllKnown(s) && Numbered(s) && Enabled(s, step) && !IsStart(step)
    ensures AllKnown(Next(s, step))
  {
    match step
    case Read(message) =>
      match Answers(s.core, s.clientId, message) {
        case None =>
        case Some((id, result)) => TakenIsKnown(s, [id], result);
      }
    case Expire(now, alive, ids) => TakenIsKnown(s, ids, ExpiryResult(alive));
    case Cancel(ids) => TakenIsKnown(s, ids, Error(CANCELLED, Local));
    case _ =>
  }

  lemma StartKeepsStages(s: State, step: Step)
    requires Inv(s) && Enabled(s, step) && IsStart(step)
    ensures StagesOk(Next(s, step))
  {
    var t := Next(s, step);
    forall c: nat | c < |t.calls| ensures StageOk(t, c) {
      if c < |s.calls| {
        assert StageOk(s, c);
      }
    }
    if step.Register? {
      assert StageOk(s, step.c);
    }
  }

  lemma OtherStepsKeepStages(s: State, step: Step)
    requires Inv(s) && Enabled(s, step) && !IsStart(step)
    ensures StagesOk(Next(s, step))
  {
    var t := Next(s, step);
    forall c: nat | c < |t.calls| ensures StageOk(t, c) {
      assert StageOk(s, c);
    }
  }

  lemma StartKeepsThreads(s: State, step: Step)
    requires ThreadsOk(s) && Enabled(s, step) && IsStart(step)
    ensures ThreadsOk(Next(s, step))
  {
  }

  lemma OtherStepsKeepThreads(s: State, step: Step)
    requires ThreadsOk(s) && Enabled(s, step) && !IsStart(step)
    ensures ThreadsOk(Next(s, step))
  {
  }

  lemma StepKeepsInv(s: State, step: Step)
    requires Inv(s) && Enabled(s, step)
    ensures Inv(Next(s, step))
  {
    StepKeepsHeld(s, step);
    StepKeepsNumbers(s, step);
    if IsStart(step) {
      StartKeepsKnown(s, step);
      StartKeepsStages(s, step);
      StartKeepsThreads(s, step);
    } else {
      OtherStepsKeepKnown(s, step);
      OtherStepsKeepStages(s, step);
      OtherStepsKeepThreads(s, step);
    }
  }

  lemma {:induction false} RunKeepsInv(states: seq<State>, steps: seq<Step>, n: nat)
    requires IsRun(states, steps) && n < |states|
    ensures Inv(states[n])
  {
    if n > 0 {
      RunKeepsInv(states, steps, n - 1);
      assert states[n - 1 + 1] == Next(states[n - 1], steps[n - 1]);
      StepKeepsInv(states[n - 1], steps[n - 1]);
    }
  }

  // ---- the theorems --------------------------------------------------------------

  /** In every interleaving a callback is run at most once. */
  lemma AtMostOnce(states: seq<State>, steps: seq<Step>, n: nat, c: nat)
    requires IsRun(states, steps) && n < |states| && c < |states[n].calls|
    ensures Count(states[n].ran, c) <= 1
  {
    RunKeepsInv(states, steps, n);
    assert Holders(states[n], c) == 1;
  }

  /** Close has returned, the dispatcher has exited and no Start is under way. */
  ghost predicate Quiescent(s: State) {
    && s.closer.Closed? && s.dispatcher.Exited?
    && forall c: nat :: c < |s.calls| ==> s.calls[c].stage.Sent? || s.calls[c].stage.Returned?
  }

  /** Once all is quiet, the calls without a completion are exactly those whose wait for a
      matching reader outlasted Close and whose request was then written. */
  lemma CompletedUnlessLate(states: seq<State>, steps: seq<Step>, n: nat, c: nat)
    requires IsRun(states, steps) && n < |states| && Quiescent(states[n]) && c < |states[n].calls|
    ensures Count(states[n].ran, c) == if c in states[n].late && states[n].calls[c].stage.Sent? then 0 else 1
  {
    RunKeepsInv(states, steps, n);
    assert Holders(states[n], c) == 1 && StageOk(states[n], c);
  }

  /** On a transport that does not track matched readers there are no such calls: every
      callback is run exactly once. */
  lemma ExactlyOnce(states: seq<State>, steps: seq<Step>, n: nat, c: nat)
    requires IsRun(states, steps) && n < |states| && Quiescent(states[n]) && c < |states[n].calls|
    requires !states[n].tracks
    ensures Count(states[n].ran, c) == 1
  {
    RunKeepsInv(states, steps, n);
    CompletedUnlessLate(states, steps, n, c);
  }

  /** A call that was registered late and sent stays so. */
  lemma {:induction false} LateStaysLate(states: seq<State>, steps: seq<Step>, n: nat, m: nat, c: nat)
    requires IsRun(states, steps) && n <= m < |states| && c < |states[n].calls|
    requires c in states[n].late && states[n].calls[c].stage.Sent?
    ensures c < |states[m].calls| && c in states[m].late && states[m].calls[c].stage.Sent?
    decreases m
  {
    if n < m {
      LateStaysLate(states, steps, n, m - 1, c);
      RunKeepsInv(states, steps, m - 1);
      assert states[m - 1 + 1] == Next(states[m - 1], steps[m - 1]);
    }
  }

  /** Its callback is then never run, however long the run goes on. */
  lemma LateIsNeverCompleted(states: seq<State>, steps: seq<Step>, n: nat, m: nat, c: nat)
    requires IsRun(states, steps) && n <= m < |states| && c < |states[n].calls|
    requires c in states[n].late && states[n].calls[c].stage.Sent?
    ensures c < |states[m].calls| && Count(states[m].ran, c) == 0
  {
    LateStaysLate(states, steps, n, m, c);
    RunKeepsInv(states, steps, m);
    assert Holders(states[m], c) == 1 && StageOk(states[m], c);
  }

  /** A run goes on by one step. */
  lemma Extend(states: seq<State>, steps: seq<Step>, step: Step) returns (longer: seq<State>, more: seq<Step>)
    requires IsRun(states, steps) && Enabled(states[|steps|], step)
    ensures IsRun(longer, more) && |more| == |steps| + 1 && longer[0] == states[0]
    ensures longer[|more|] == Next(states[|steps|], step)
  {
    longer, more := states + [Next(states[|steps|], step)], steps + [step];
    forall i {:trigger more[i]} | 0 <= i < |more|
      ensures Enabled(longer[i], more[i]) && longer[i + 1] == Next(longer[i], more[i])
    {
      if i < |steps| { assert more[i] == steps[i]; }
    }
  }

  /** A client whose only call waits for a match while Close comes and goes. */
  lemma CloseDuringMatch(clientId: Word64) returns (states: seq<State>, steps: seq<Step>)
    ensures IsRun(states, steps)
    ensures states[|steps|] == State(clientId, true, Core(true, 0, map[]), [Call(Matching, None, [], 1, 1)],
                                     Exited, [], Cancelling(false), [], [], {})
  {
    states, steps := [State(clientId, true, Core(false, 0, map[]), [], Asleep, [], Open, [], [], {})], [];
    states, steps := Extend(states, steps, Begin([], 1, 1));
    states, steps := Extend(states, steps, AwaitMatch(0));
    states, steps := Extend(states, steps, BeginClose(false));
    states, steps := Extend(states, steps, Exit);
    states, steps := Extend(states, steps, Cancel([]));
  }

  /** On a transport that does track matched readers such a call exists: the match is found
      after Close has returned, and `closed` is not looked at again. */
  lemma LateMatchIsLost(clientId: Word64) returns (states: seq<State>, steps: seq<Step>)
    ensures IsRun(states, steps)
    ensures var end := states[|steps|]; Quiescent(end) && |end.calls| == 1 && Count(end.ran, 0) == 0
  {
    states, steps := CloseDuringMatch(clientId);
    states, steps := Extend(states, steps, FinishClose);
    states, steps := Extend(states, steps, Register(0));
    states, steps := Extend(states, steps, SendSucceeds(0));
  }
}
