/** The critical sections of a service client (src/service/service.cpp:786-968,
    1110-1147). A callback is named by the number of the call it belongs to. */
module ServiceClient {
  import opened Options
  import opened Bytes
  import opened ServiceHeader

  /** The text of an error: the server's own, or a description the client makes up. */
  datatype Text = Remote(bytes: seq<Byte>) | Local
  datatype Result = Ok(payload: seq<Byte>) | Error(status: StatusCode, text: Text)
  datatype Completion = Completion(call: nat, result: Result)
  datatype Pending = Pending(deadline: int, call: nat)

  /** What the client's mutex guards. */
  datatype Core = Core(closed: bool, nextRequest: nat, pending: map<nat, Pending>)

  const MAX_REQUESTS: nat := 0xFFFF_FFFF_FFFF_FFFF

  // ---- what the critical sections do ---------------------------------------------

  function Registered(core: Core, deadline: int, call: nat): Core {
    core.(nextRequest := core.nextRequest + 1, pending := core.pending[core.nextRequest + 1 := Pending(deadline, call)])
  }

  /** The requests `ids` leave the map. */
  function Without(pending: map<nat, Pending>, ids: seq<nat>): map<nat, Pending> {
    map id | id in pending && id !in ids :: pending[id]
  }

  /** What the callbacks of `ids` are given. */
  function Completions(pending: map<nat, Pending>, ids: seq<nat>, result: Result): (r: seq<Completion>)
    requires forall i :: 0 <= i < |ids| ==> ids[i] in pending
    ensures |r| == |ids|
  {
    seq(|ids|, i requires 0 <= i < |ids| => Completion(pending[ids[i]].call, result))
  }

  /** `ids` lists `keys` in the order in which std::map visits them. */
  ghost predicate Enumerates(ids: seq<nat>, keys: set<nat>) {
    && (forall i, j :: 0 <= i < j < |ids| ==> ids[i] < ids[j])
    && (forall i :: 0 <= i < |ids| ==> ids[i] in keys)
    && (forall id: nat :: id in keys ==> id in ids)
  }

  /** The calls that ExpireLocked fails: all of them once the server is gone. */
  function Expiring(pending: map<nat, Pending>, now: int, alive: bool): set<nat> {
    set id | id in pending && (!alive || now >= pending[id].deadline)
  }

  function ExpiryResult(alive: bool): Result {
    Error(if alive then DEADLINE_EXCEEDED else UNAVAILABLE, Local)
  }

  /** The request that a reply answers, with the result it carries: only replies of this
      client to calls that are still pending. */
  function Answers(core: Core, clientId: Word64, message: seq<Byte>): Option<(nat, Result)> {
    match Decoded(message, REPLY_MAGIC)
    case None => None
    case Some((header, payload)) =>
      if header.clientId != clientId || header.requestId !in core.pending then None
      else Some((header.requestId,
                 if header.status == OK then Ok(payload) else Error(header.status, Remote(payload))))
  }

  /** The message is a reply to this client and to one of these requests. */
  ghost predicate IsReplyTo(message: seq<Byte>, clientId: Word64, pending: set<nat>, h: Header, payload: seq<Byte>) {
    && message == Encoded(h, payload) && h.magic == REPLY_MAGIC
    && h.clientId == clientId && h.requestId in pending
  }

  /** Every reply to a pending call of this client completes it, with the payload if the
      status is OK and with the server's status and text otherwise. */
  lemma RepliesAreAnswers(core: Core, clientId: Word64, h: Header, payload: seq<Byte>)
    requires h.magic == REPLY_MAGIC && h.clientId == clientId && h.requestId in core.pending
    ensures Answers(core, clientId, Encoded(h, payload))
      == Some((h.requestId, if h.status == OK then Ok(payload) else Error(h.status, Remote(payload))))
  {
    DecodeUndoesEncode(h, payload, REPLY_MAGIC);
  }

  /** Nothing else does. */
  lemma OthersAreNoAnswers(core: Core, clientId: Word64, message: seq<Byte>)
    requires forall h, payload {:trigger IsReplyTo(message, clientId, core.pending.Keys, h, payload)} ::
      !IsReplyTo(message, clientId, core.pending.Keys, h, payload)
    ensures Answers(core, clientId, message).None?
  {
    if Decoded(message, REPLY_MAGIC).Some? {
      EncodeUndoesDecode(message, REPLY_MAGIC);
      var (h, payload) := Decoded(message, REPLY_MAGIC).value;
      assert !IsReplyTo(message, clientId, core.pending.Keys, h, payload);
    }
  }

  /** What one message does to the map of pending calls and to the list of completions: a reply
      of this client to a pending call takes that call out and completes it, with the payload
      if the status is OK and with the server's status and text otherwise; any other message
      changes nothing. */
  ghost predicate AnsweredAs(message: seq<Byte>, clientId: Word64, before: map<nat, Pending>, after: map<nat, Pending>,
                             completions: seq<Completion>, r: seq<Completion>)
  {
    && (forall h, payload {:trigger IsReplyTo(message, clientId, before.Keys, h, payload)} ::
          IsReplyTo(message, clientId, before.Keys, h, payload) ==>
            && after == before - {h.requestId}
            && r == completions + [Completion(before[h.requestId].call,
                                              if h.status == OK then Ok(payload) else Error(h.status, Remote(payload)))])
    && ((forall h, payload {:trigger IsReplyTo(message, clientId, before.Keys, h, payload)} ::
           !IsReplyTo(message, clientId, before.Keys, h, payload)) ==> after == before && r == completions)
  }

  lemma AnswerLaw(core: Core, clientId: Word64, message: seq<Byte>, after: map<nat, Pending>,
                  completions: seq<Completion>, r: seq<Completion>)
    requires match Answers(core, clientId, message)
      case None => after == core.pending && r == completions
      case Some((id, result)) =>
        after == Without(core.pending, [id]) && r == completions + Completions(core.pending, [id], result)
    ensures AnsweredAs(message, clientId, core.pending, after, completions, r)
  {
    forall h, payload | IsReplyTo(message, clientId, core.pending.Keys, h, payload)
      ensures after == core.pending - {h.requestId}
      ensures r == completions + [Completion(core.pending[h.requestId].call,
                                             if h.status == OK then Ok(payload) else Error(h.status, Remote(payload)))]
    {
      RepliesAreAnswers(core, clientId, h, payload);
    }
    if forall h, payload {:trigger IsReplyTo(message, clientId, core.pending.Keys, h, payload)} ::
        !IsReplyTo(message, clientId, core.pending.Keys, h, payload) {
      OthersAreNoAnswers(core, clientId, message);
    }
  }

  // ---- the code ------------------------------------------------------------------

  /** The key std::map would visit first. */
  method Smallest(keys: set<nat>) returns (least: nat)
    requires keys != {}
    ensures IsLeast(least, keys)
  {
    least :| least in keys;
    var rest := keys - {least};
    while rest != {}
      invariant rest <= keys && least in keys
      invariant forall k :: k in keys ==> k in rest || least <= k
      decreases |rest|
    {
      var k :| k in rest;
      if k < least { least := k; }
      rest := rest - {k};
    }
  }

  /** A pass over the map, in key order, that has yet to visit `left`: of the others, the
      requests in `due` were taken and completed with `result`. */
  ghost predicate Swept(before: map<nat, Pending>, due: set<nat>, result: Result, left: set<nat>,
                        pending: map<nat, Pending>, ids: seq<nat>, completions: seq<Completion>)
  {
    && left <= before.Keys && due <= before.Keys
    && Enumerates(ids, due - left)
    && (forall id, k :: id in before && id !in left && k in left ==> id < k)
    && pending == Without(before, ids)
    && (forall i :: 0 <= i < |ids| ==> ids[i] in before)
    && completions == Completions(before, ids, result)
  }

  ghost predicate IsLeast(id: nat, keys: set<nat>) {
    id in keys && forall k :: k in keys ==> id <= k
  }

  lemma SweptTakes(before: map<nat, Pending>, due: set<nat>, result: Result, left: set<nat>,
                   pending: map<nat, Pending>, ids: seq<nat>, completions: seq<Completion>, id: nat)
    requires Swept(before, due, result, left, pending, ids, completions) && IsLeast(id, left) && id in due
    ensures id in pending && pending[id] == before[id]
    ensures Swept(before, due, result, left - {id}, Without(pending, [id]), ids + [id],
                  completions + Completions(pending, [id], result))
  {
    assert forall i :: 0 <= i < |ids| ==> ids[i] < id;
    assert id !in ids;
    forall k: nat | k in due - (left - {id}) ensures k in ids + [id] {
      if k != id { assert k in due - left; }
    }
  }

  lemma SweptSkips(before: map<nat, Pending>, due: set<nat>, result: Result, left: set<nat>,
                   pending: map<nat, Pending>, ids: seq<nat>, completions: seq<Completion>, id: nat)
    requires Swept(before, due, result, left, pending, ids, completions) && IsLeast(id, left) && id !in due
    ensures id in pending && pending[id] == before[id]
    ensures Swept(before, due, result, left - {id}, pending, ids, completions)
  {
    assert due - (left - {id}) == due - left;
  }

  class Client {
    const clientId: Word64
    var closed: bool
    var nextRequest: nat
    var pending: map<nat, Pending>

    function View(): Core reads this { Core(closed, nextRequest, pending) }

    constructor (id: Word64)
      ensures clientId == id && View() == Core(false, 0, map[])
    {
      clientId, closed, nextRequest, pending := id, false, 0, map[];
    }

    /** The end of Start's first critical section: a fresh number for the call. */
    method Register(deadline: int, call: nat) returns (id: nat)
      modifies this
      ensures View() == Registered(old(View()), deadline, call)
      ensures id == nextRequest == old(nextRequest) + 1 && pending == old(pending)[id := Pending(deadline, call)]
    {
      nextRequest := nextRequest + 1;
      id := nextRequest;
      pending := pending[id := Pending(deadline, call)];
    }

    method TakeLocked(id: nat, result: Result) returns (completion: Completion)
      requires id in pending
      modifies this`pending
      ensures pending == Without(old(pending), [id])
      ensures [completion] == Completions(old(pending), [id], result)
    {
      completion := Completion(pending[id].call, result);
      pending := map k | k in pending && k != id :: pending[k];
    }

    /** One reply of the dispatcher's loop. */
    method Answer(message: seq<Byte>, completions: seq<Completion>) returns (r: seq<Completion>)
      modifies this`pending
      ensures match Answers(old(View()), clientId, message)
        case None => pending == old(pending) && r == completions
        case Some((id, result)) =>
          pending == Without(old(pending), [id]) && r == completions + Completions(old(pending), [id], result)
      ensures AnsweredAs(message, clientId, old(pending), pending, completions, r)
    {
      r := completions;
      var decoded := Decode(message, REPLY_MAGIC);
      if decoded.Some? {
        var (header, payload) := decoded.value;
        if header.clientId == clientId && header.requestId in pending {
          var result := if header.status == OK then Ok(payload) else Error(header.status, Remote(payload));
          var completion := TakeLocked(header.requestId, result);
          r := r + [completion];
        }
      }
      AnswerLaw(old(View()), clientId, message, pending, completions, r);
    }

    method ExpireLocked(now: int, alive: bool) returns (completions: seq<Completion>, ghost ids: seq<nat>)
      modifies this`pending
      ensures Enumerates(ids, Expiring(old(pending), now, alive))
      ensures pending == Without(old(pending), ids)
      ensures completions == Completions(old(pending), ids, ExpiryResult(alive))
      ensures forall id :: id in old(pending) ==> (id in pending <==> alive && now < old(pending)[id].deadline)
      ensures forall i :: 0 <= i < |completions| ==>
        completions[i].result == if alive then Error(DEADLINE_EXCEEDED, Local) else Error(UNAVAILABLE, Local)
    {
      ghost var before, due := pending, Expiring(pending, now, alive);
      completions, ids := [], [];
      var left := pending.Keys;
      while left != {}
        invariant Swept(before, due, ExpiryResult(alive), left, pending, ids, completions)
        decreases |left|
      {
        var id := Smallest(left);
        if id in due {
          SweptTakes(before, due, ExpiryResult(alive), left, pending, ids, completions, id);
        } else {
          SweptSkips(before, due, ExpiryResult(alive), left, pending, ids, completions, id);
        }
        if !alive || now >= pending[id].deadline {
          var completion := TakeLocked(id, ExpiryResult(alive));
          completions, ids := completions + [completion], ids + [id];
        }
        left := left - {id};
      }
      assert due - left == due;
    }

    /** Start takes its callback back after a failed write, unless the call has completed. */
    method TakeBack(id: nat) returns (failed: Option<nat>)
      modifies this`pending
      ensures pending == Without(old(pending), [id])
      ensures failed == if id in old(pending) then Some(old(pending)[id].call) else None
    {
      if id !in pending { return None; }
      failed := Some(pending[id].call);
      pending := map k | k in pending && k != id :: pending[k];
    }

    method BeginClose() returns (first: bool)
      modifies this`closed
      ensures closed && first == !old(closed)
    {
      first := !closed;
      closed := true;
    }

    /** Close's second critical section. */
    method CancelAll() returns (cancelled: seq<Completion>, ghost ids: seq<nat>)
      modifies this`pending
      ensures pending == map[]
      ensures Enumerates(ids, old(pending).Keys)
      ensures cancelled == Completions(old(pending), ids, Error(CANCELLED, Local))
    {
      ghost var before := pending;
      cancelled, ids := [], [];
      var left := pending.Keys;
      while left != {}
        invariant Swept(before, before.Keys, Error(CANCELLED, Local), left, pending, ids, cancelled)
        decreases |left|
      {
        var id := Smallest(left);
        SweptTakes(before, before.Keys, Error(CANCELLED, Local), left, pending, ids, cancelled, id);
        var completion := TakeLocked(id, Error(CANCELLED, Local));
        cancelled, ids := cancelled + [completion], ids + [id];
        left := left - {id};
      }
      assert before.Keys - left == before.Keys;
    }
  }
}
