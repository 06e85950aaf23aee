/** Clients and a server over topics that may lose, duplicate and reorder messages
    (src/service/service.cpp:373-392, 420-457, 853-869, 940-950). A topic is the set of
    messages ever written to it: each may be read any number of times, at any time or never. */
module ServiceSystem {
  import opened Options
  import opened Bytes
  import opened ServiceHeader
  import opened ServiceClient
  import Calls = ServiceCalls

  /** One run of the handler. */
  datatype Run = Run(clientId: Word64, requestId: Word64, payload: seq<Byte>, outcome: Result)

  datatype System = System(
    clients: seq<Calls.State>, requests: set<seq<Byte>>, replies: set<seq<Byte>>, runs: set<Run>)

  datatype Step =
    | AtClient(k: nat, step: Calls.Step)
    | Serve(message: seq<Byte>, outcome: Result)  // the handler may return anything

  /** What a handler may return: a payload, or an error that is not OK with the server's text. */
  predicate IsOutcome(result: Result) {
    result.Ok? || (result.status != OK && result.text.Remote?)
  }

  /** Start's message. */
  function RequestMessage(clientId: Word64, requestId: Word64, timeout: Int64, payload: seq<Byte>): seq<Byte> {
    Encoded(Header(REQUEST_MAGIC, OK, clientId, requestId, timeout), payload)
  }

  /** Reply's message. */
  function ReplyMessage(run: Run): seq<Byte>
    requires IsOutcome(run.outcome)
  {
    match run.outcome
    case Ok(payload) => Encoded(Header(REPLY_MAGIC, OK, run.clientId, run.requestId, 0), payload)
    case Error(status, text) => Encoded(Header(REPLY_MAGIC, status, run.clientId, run.requestId, 0), text.bytes)
  }

  /** Call `c` of the client has been given a request number. */
  predicate HasNumber(client: Calls.State, c: nat) {
    c < |client.calls| && client.calls[c].id.Some? && client.calls[c].id.value <= MAX_REQUESTS
  }

  ghost predicate Enabled(s: System, step: Step) {
    match step
    case AtClient(k, step) =>
      && k < |s.clients| && Calls.Enabled(s.clients[k], step)
      && (step.Read? ==> step.message in s.replies)
      && (step.SendSucceeds? ==> HasNumber(s.clients[k], step.c))
    case Serve(message, outcome) => message in s.requests && IsOutcome(outcome)
  }

  ghost function Next(s: System, step: Step): System
    requires Enabled(s, step)
  {
    match step
    case AtClient(k, step) =>
      var client := s.clients[k];
      s.(clients := s.clients[k := Calls.Next(client, step)],
         requests := if !step.SendSucceeds? then s.requests else
           var call := client.calls[step.c];
           s.requests + {RequestMessage(client.clientId, call.id.value, call.timeout, call.payload)})
    case Serve(message, outcome) => (
      match Decoded(message, REQUEST_MAGIC)
      case None => s
      case Some((header, payload)) =>
        var run := Run(header.clientId, header.requestId, payload, outcome);
        s.(runs := s.runs + {run}, replies := s.replies + {ReplyMessage(run)}))
  }

  /** Nobody shares a client id. */
  ghost predicate Distinct(s: System) {
    forall j: nat, k: nat :: j < k < |s.clients| ==> s.clients[j].clientId != s.clients[k].clientId
  }

  ghost predicate Initial(s: System) {
    && s.requests == {} && s.replies == {} && s.runs == {} && Distinct(s)
    && forall k: nat :: k < |s.clients| ==> Calls.Initial(s.clients[k])
  }

  ghost predicate IsRun(states: seq<System>, steps: seq<Step>) {
    && |states| == |steps| + 1
    && Initial(states[0])
    && forall i {:trigger steps[i]} :: 0 <= i < |steps| ==>
        Enabled(states[i], steps[i]) && states[i + 1] == Next(states[i], steps[i])
  }

  // ---- the invariant -------------------------------------------------------------

  /** Call `c` of client `k` asked `payload` under this pair of numbers. */
  ghost predicate AskedBy(s: System, k: nat, c: nat, clientId: Word64, requestId: Word64, payload: seq<Byte>) {
    && k < |s.clients| && s.clients[k].clientId == clientId
    && c < |s.clients[k].calls| && s.clients[k].calls[c].id == Some(requestId)
    && s.clients[k].calls[c].payload == payload
  }

  ghost predicate Asked(s: System, clientId: Word64, requestId: Word64, payload: seq<Byte>) {
    exists k: nat, c: nat {:trigger AskedBy(s, k, c, clientId, requestId, payload)} ::
      AskedBy(s, k, c, clientId, requestId, payload)
  }

  /** Some timeout explains this request. */
  ghost predicate IsRequest(s: System, message: seq<Byte>) {
    exists clientId: Word64, requestId: Word64, timeout: Int64, payload: seq<Byte>
      {:trigger RequestMessage(clientId, requestId, timeout, payload)} ::
      message == RequestMessage(clientId, requestId, timeout, payload) && Asked(s, clientId, requestId, payload)
  }

  ghost predicate IsReply(s: System, message: seq<Byte>) {
    exists run: Run {:trigger run in s.runs} :: run in s.runs && IsOutcome(run.outcome) && message == ReplyMessage(run)
  }

  ghost predicate TopicsOk(s: System) {
    && (forall message :: message in s.requests ==> IsRequest(s, message))
    && (forall run :: run in s.runs ==> Asked(s, run.clientId, run.requestId, run.payload))
    && (forall message :: message in s.replies ==> IsReply(s, message))
  }

  /** The result came in a reply. */
  predicate FromServer(result: Result) {
    result.Ok? || result.text.Remote?
  }

  /** `run` was a run of the handler on this very call, and gave this result. */
  predicate Explains(run: Run, client: Calls.State, completion: Completion) {
    && run.clientId == client.clientId
    && completion.call < |client.calls|
    && client.calls[completion.call].id == Some(run.requestId)
    && client.calls[completion.call].payload == run.payload
    && completion.result == run.outcome
  }

  ghost predicate Explained(runs: set<Run>, client: Calls.State, completion: Completion) {
    FromServer(completion.result) ==> exists run: Run {:trigger run in runs} :: run in runs && Explains(run, client, completion)
  }

  ghost predicate AllExplained(runs: set<Run>, client: Calls.State, completions: seq<Completion>) {
    forall i :: 0 <= i < |completions| ==> Explained(runs, client, completions[i])
  }

  ghost predicate ClientOk(runs: set<Run>, client: Calls.State) {
    && Calls.Inv(client)
    && AllExplained(runs, client, client.taken)
    && AllExplained(runs, client, client.cancelled)
    && AllExplained(runs, client, client.ran)
  }

  ghost predicate Inv(s: System) {
    && Distinct(s) && TopicsOk(s)
    && forall k: nat :: k < |s.clients| ==> ClientOk(s.runs, s.clients[k])
  }

  // ---- numbers and payloads stay -------------------------------------------------

  /** What a call was numbered and asked never changes. */
  ghost predicate Keeps(a: Calls.State, b: Calls.State) {
    && a.clientId == b.clientId && |a.calls| <= |b.calls|
    && forall c: nat :: c < |a.calls| ==>
        b.calls[c].payload == a.calls[c].payload && (a.calls[c].id.Some? ==> b.calls[c].id == a.calls[c].id)
  }

  lemma ClientKeeps(a: Calls.State, step: Calls.Step)
    requires Calls.Inv(a) && Calls.Enabled(a, step)
    ensures Keeps(a, Calls.Next(a, step))
  {
    if step.Register? { assert Calls.StageOk(a, step.c); }
  }

  ghost predicate KeepsAll(s: System, t: System) {
    |s.clients| == |t.clients| && s.runs <= t.runs
    && forall k: nat :: k < |s.clients| ==> Keeps(s.clients[k], t.clients[k])
  }

  lemma StepKeepsAll(s: System, step: Step)
    requires Inv(s) && Enabled(s, step)
    ensures KeepsAll(s, Next(s, step))
  {
    if step.AtClient? {
      assert ClientOk(s.runs, s.clients[step.k]);
      ClientKeeps(s.clients[step.k], step.step);
    }
  }

  lemma StillAsked(s: System, t: System, clientId: Word64, requestId: Word64, payload: seq<Byte>)
    requires Asked(s, clientId, requestId, payload) && KeepsAll(s, t)
    ensures Asked(t, clientId, requestId, payload)
  {
    var k: nat, c: nat :| AskedBy(s, k, c, clientId, requestId, payload);
    assert AskedBy(t, k, c, clientId, requestId, payload);
  }

  lemma StillRequest(s: System, t: System, message: seq<Byte>)
    requires IsRequest(s, message) && KeepsAll(s, t)
    ensures IsRequest(t, message)
  {
    var clientId: Word64, requestId: Word64, timeout: Int64, payload :|
      message == RequestMessage(clientId, requestId, timeout, payload) && Asked(s, clientId, requestId, payload);
    StillAsked(s, t, clientId, requestId, payload);
    assert message == RequestMessage(clientId, requestId, timeout, payload);
  }

  lemma StillExplained(runs: set<Run>, more: set<Run>, a: Calls.State, b: Calls.State, completion: Completion)
    requires Explained(runs, a, completion) && runs <= more && Keeps(a, b)
    ensures Explained(more, b, completion)
  {
    if FromServer(completion.result) {
      var run :| run in runs && Explains(run, a, completion);
      assert run in more && Explains(run, b, completion);
    }
  }

  lemma StillAllExplained(runs: set<Run>, more: set<Run>, a: Calls.State, b: Calls.State, completions: seq<Completion>)
    requires AllExplained(runs, a, completions) && runs <= more && Keeps(a, b)
    ensures AllExplained(more, b, completions)
  {
    forall i | 0 <= i < |completions| ensures Explained(more, b, completions[i]) {
      StillExplained(runs, more, a, b, completions[i]);
    }
  }

  // ---- the topics ----------------------------------------------------------------

  /** A request that is served decodes to what a call asked. */
  lemma ServedWasAsked(s: System, message: seq<Byte>)
    requires TopicsOk(s) && message in s.requests
    ensures Decoded(message, REQUEST_MAGIC).Some?
    ensures var (header, payload) := Decoded(message, REQUEST_MAGIC).value;
      Asked(s, header.clientId, header.requestId, payload)
  {
    assert IsRequest(s, message);
    var clientId: Word64, requestId: Word64, timeout: Int64, payload :|
      message == RequestMessage(clientId, requestId, timeout, payload) && Asked(s, clientId, requestId, payload);
    DecodeUndoesEncode(Header(REQUEST_MAGIC, OK, clientId, requestId, timeout), payload, REQUEST_MAGIC);
  }

  lemma RepliesStay(s: System, t: System)
    requires TopicsOk(s) && s.runs <= t.runs
    ensures forall message :: message in s.replies ==> IsReply(t, message)
  {
    forall message | message in s.replies ensures IsReply(t, message) {
      assert IsReply(s, message);
      var run :| run in s.runs && IsOutcome(run.outcome) && message == ReplyMessage(run);
      assert run in t.runs;
    }
  }

  lemma OldTopicsStay(s: System, t: System)
    requires TopicsOk(s) && KeepsAll(s, t)
    ensures forall message :: message in s.requests ==> IsRequest(t, message)
    ensures forall run :: run in s.runs ==> Asked(t, run.clientId, run.requestId, run.payload)
    ensures forall message :: message in s.replies ==> IsReply(t, message)
  {
    forall message | message in s.requests ensures IsRequest(t, message) { StillRequest(s, t, message); }
    forall run | run in s.runs ensures Asked(t, run.clientId, run.requestId, run.payload) {
      StillAsked(s, t, run.clientId, run.requestId, run.payload);
    }
    RepliesStay(s, t);
  }

  lemma RunJoinsTopics(s: System, t: System, run: Run)
    requires TopicsOk(s) && KeepsAll(s, t) && IsOutcome(run.outcome)
    requires Asked(s, run.clientId, run.requestId, run.payload)
    requires t.requests == s.requests && t.runs == s.runs + {run} && t.replies == s.replies + {ReplyMessage(run)}
    ensures TopicsOk(t)
  {
    OldTopicsStay(s, t);
    StillAsked(s, t, run.clientId, run.requestId, run.payload);
    assert run in t.runs;
    assert IsReply(t, ReplyMessage(run));
  }

  lemma ServeKeepsTopics(s: System, step: Step)
    requires Inv(s) && Enabled(s, step) && step.Serve?
    ensures TopicsOk(Next(s, step))
  {
    StepKeepsAll(s, step);
    ServedWasAsked(s, step.message);
    var (header, payload) := Decoded(step.message, REQUEST_MAGIC).value;
    RunJoinsTopics(s, Next(s, step), Run(header.clientId, header.requestId, payload, step.outcome));
  }

  lemma ClientKeepsTopics(s: System, step: Step)
    requires Inv(s) && Enabled(s, step) && step.AtClient?
    ensures TopicsOk(Next(s, step))
  {
    var t := Next(s, step);
    StepKeepsAll(s, step);
    OldTopicsStay(s, t);
    if step.step.SendSucceeds? {
      var client := s.clients[step.k];
      var call := client.calls[step.step.c];
      assert AskedBy(s, step.k, step.step.c, client.clientId, call.id.value, call.payload);
      assert IsRequest(s, RequestMessage(client.clientId, call.id.value, call.timeout, call.payload));
      StillRequest(s, t, RequestMessage(client.clientId, call.id.value, call.timeout, call.payload));
    }
  }

  // ---- the clients ---------------------------------------------------------------

  /** A reply decodes to the run that it reports. */
  lemma DecodeReply(run: Run)
    requires IsOutcome(run.outcome)
    ensures Decoded(ReplyMessage(run), REPLY_MAGIC).Some?
    ensures var (header, payload) := Decoded(ReplyMessage(run), REPLY_MAGIC).value;
      && header.clientId == run.clientId && header.requestId == run.requestId
      && run.outcome == if header.status == OK then Ok(payload) else Error(header.status, Remote(payload))
  {
    match run.outcome
    case Ok(payload) =>
      DecodeUndoesEncode(Header(REPLY_MAGIC, OK, run.clientId, run.requestId, 0), payload, REPLY_MAGIC);
    case Error(status, text) =>
      DecodeUndoesEncode(Header(REPLY_MAGIC, status, run.clientId, run.requestId, 0), text.bytes, REPLY_MAGIC);
  }

  /** The pending call that a reply completes is the one whose payload the handler was given. */
  lemma AnswerIsExplained(s: System, k: nat, message: seq<Byte>)
    requires Inv(s) && k < |s.clients| && message in s.replies
    requires Answers(s.clients[k].core, s.clients[k].clientId, message).Some?
    ensures var (id, result) := Answers(s.clients[k].core, s.clients[k].clientId, message).value;
      Explained(s.runs, s.clients[k], Completion(s.clients[k].core.pending[id].call, result))
  {
    var client := s.clients[k];
    assert ClientOk(s.runs, client);
    var (id, result) := Answers(client.core, client.clientId, message).value;
    assert IsReply(s, message);
    var run :| run in s.runs && IsOutcome(run.outcome) && message == ReplyMessage(run);
    DecodeReply(run);
    assert Asked(s, run.clientId, run.requestId, run.payload);
    var j: nat, c: nat :| AskedBy(s, j, c, run.clientId, run.requestId, run.payload);
    assert j == k;
    assert c == client.core.pending[id].call;
    assert Explains(run, client, Completion(c, result));
  }

  /** Steps other than a read bring in nothing from the server. */
  lemma OwnResultsAreLocal(runs: set<Run>, a: Calls.State, step: Calls.Step)
    requires ClientOk(runs, a) && Calls.Enabled(a, step) && !step.Read?
    ensures var b := Calls.Next(a, step);
      AllExplained(runs, a, b.taken) && AllExplained(runs, a, b.cancelled) && AllExplained(runs, a, b.ran)
  {
  }

  lemma OneMoreExplained(runs: set<Run>, client: Calls.State, completions: seq<Completion>, completion: Completion)
    requires AllExplained(runs, client, completions) && Explained(runs, client, completion)
    ensures AllExplained(runs, client, completions + [completion])
  {
  }

  /** What reading adds to the dispatcher's list. */
  ghost function TakenByReading(client: Calls.State, message: seq<Byte>): seq<Completion> {
    match Answers(client.core, client.clientId, message)
    case None => []
    case Some((id, result)) => [Completion(client.core.pending[id].call, result)]
  }

  lemma ReadTakes(client: Calls.State, message: seq<Byte>)
    requires Calls.Enabled(client, Calls.Read(message))
    ensures var b := Calls.Next(client, Calls.Read(message));
      && b.taken == client.taken + TakenByReading(client, message)
      && b.cancelled == client.cancelled && b.ran == client.ran
  {
    match Answers(client.core, client.clientId, message)
    case None =>
    case Some((id, result)) =>
      assert Completions(client.core.pending, [id], result) == TakenByReading(client, message);
  }

  lemma ReadIsExplained(s: System, k: nat, message: seq<Byte>)
    requires Inv(s) && k < |s.clients| && message in s.replies && AllExplained(s.runs, s.clients[k], s.clients[k].taken)
    ensures AllExplained(s.runs, s.clients[k], s.clients[k].taken + TakenByReading(s.clients[k], message))
  {
    var client := s.clients[k];
    if Answers(client.core, client.clientId, message).Some? {
      AnswerIsExplained(s, k, message);
      OneMoreExplained(s.runs, client, client.taken, TakenByReading(client, message)[0]);
    }
  }

  lemma StepKeepsClients(s: System, step: Step)
    requires Inv(s) && Enabled(s, step)
    ensures forall k: nat :: k < |s.clients| ==> ClientOk(Next(s, step).runs, Next(s, step).clients[k])
  {
    var t := Next(s, step);
    StepKeepsAll(s, step);
    forall k: nat | k < |s.clients| ensures ClientOk(t.runs, t.clients[k]) {
      var a, b := s.clients[k], t.clients[k];
      assert ClientOk(s.runs, a) && Keeps(a, b);
      if step.AtClient? && step.k == k {
        Calls.StepKeepsInv(a, step.step);
        if step.step.Read? {
          ReadTakes(a, step.step.message);
          ReadIsExplained(s, k, step.step.message);
        } else {
          OwnResultsAreLocal(s.runs, a, step.step);
        }
      }
      StillAllExplained(s.runs, t.runs, a, b, b.taken);
      StillAllExplained(s.runs, t.runs, a, b, b.cancelled);
      StillAllExplained(s.runs, t.runs, a, b, b.ran);
    }
  }

  lemma StepKeepsInv(s: System, step: Step)
    requires Inv(s) && Enabled(s, step)
    ensures Inv(Next(s, step))
  {
    StepKeepsAll(s, step);
    StepKeepsClients(s, step);
    if step.Serve? { ServeKeepsTopics(s, step); } else { ClientKeepsTopics(s, step); }
  }

  lemma InitialIsInv(s: System)
    requires Initial(s)
    ensures Inv(s)
  {
  }

  lemma {:induction false} RunKeepsInv(states: seq<System>, steps: seq<Step>, n: nat)
    requires IsRun(states, steps) && n < |states|
    ensures Inv(states[n])
  {
    if n == 0 {
      InitialIsInv(states[0]);
    } else {
      RunKeepsInv(states, steps, n - 1);
      assert states[n - 1 + 1] == Next(states[n - 1], steps[n - 1]);
      StepKeepsInv(states[n - 1], steps[n - 1]);
    }
  }

  // ---- the theorem ---------------------------------------------------------------

  /** A callback that is given Ok(p), or the server's error, is given what a run of the
      handler on that very call's payload returned, whatever the topics did. */
  lemma ReplyIsFromThisCall(states: seq<System>, steps: seq<Step>, n: nat, k: nat, i: nat)
    requires IsRun(states, steps) && n < |states| && k < |states[n].clients| && i < |states[n].clients[k].ran|
    requires FromServer(states[n].clients[k].ran[i].result)
    ensures exists run: Run {:trigger run in states[n].runs} ::
      run in states[n].runs && Explains(run, states[n].clients[k], states[n].clients[k].ran[i])
  {
    RunKeepsInv(states, steps, n);
    assert ClientOk(states[n].runs, states[n].clients[k]);
    assert Explained(states[n].runs, states[n].clients[k], states[n].clients[k].ran[i]);
  }

  /** A registered call always has a number that fits the header, so no send is ruled out. */
  lemma SendersHaveNumbers(states: seq<System>, steps: seq<Step>, n: nat, k: nat, c: nat)
    requires IsRun(states, steps) && n < |states| && k < |states[n].clients|
    requires c < |states[n].clients[k].calls| && states[n].clients[k].calls[c].stage.Sending?
    ensures HasNumber(states[n].clients[k], c)
  {
    RunKeepsInv(states, steps, n);
    assert ClientOk(states[n].runs, states[n].clients[k]);
    assert Calls.StageOk(states[n].clients[k], c);
  }

  /** The other way round, a reply is never passed over: a client that reads the reply to a call
      still pending completes that very call with the handler's outcome, whatever it was. */
  lemma PendingReplyCompletes(client: Calls.State, run: Run)
    requires client.dispatcher.Reading? && IsOutcome(run.outcome)
    requires run.clientId == client.clientId && run.requestId in client.core.pending
    ensures var next := Calls.Next(client, Calls.Read(ReplyMessage(run)));
      && next.core.pending == client.core.pending - {run.requestId}
      && next.taken == client.taken + [Completion(client.core.pending[run.requestId].call, run.outcome)]
      && next.ran == client.ran && next.cancelled == client.cancelled
  {
    var (status, payload) := match run.outcome
      case Ok(payload) => (OK, payload)
      case Error(status, text) => (status, text.bytes);
    RepliesAreAnswers(client.core, client.clientId, Header(REPLY_MAGIC, status, run.clientId, run.requestId, 0), payload);
    ReadTakes(client, ReplyMessage(run));
    assert Without(client.core.pending, [run.requestId]) == client.core.pending - {run.requestId};
  }

  /** A reply of another client, to a call that is not pending, or of no service at all changes nothing. */
  lemma OtherMessagesAreIgnored(client: Calls.State, message: seq<Byte>)
    requires client.dispatcher.Reading?
    requires forall h, payload {:trigger IsReplyTo(message, client.clientId, client.core.pending.Keys, h, payload)} ::
      !IsReplyTo(message, client.clientId, client.core.pending.Keys, h, payload)
    ensures Calls.Next(client, Calls.Read(message)) == client
  {
    OthersAreNoAnswers(client.core, client.clientId, message);
  }
}
