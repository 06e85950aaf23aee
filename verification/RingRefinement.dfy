/** The ring refines the bounded queue of the in-memory transport: a reader of either
    cannot tell which one it reads from. With failed fills this is so exactly when the
    reader's depth is below the number of slots. */
module RingRefinement {
  import opened Options
  import opened Bytes
  import Seqlock
  import Mailbox
  import Ring

  type Message = Seqlock.Message

  datatype Op =
    | Write(payload: seq<Byte>, timestamp: int)  // a publish that commits
    | FailedWrite                                // a publish whose fill fails, or whose writer dies behind its mark
    | Read                                       // a read that does not wait

  /** What a reader can observe of an operation: what a read returned, and the pending
      count afterwards. */
  datatype Seen = Seen(message: Option<Message>, pending: nat)

  /** A topic in shared memory with one reader. */
  datatype RingTopic = RingTopic(log: seq<Message>, torn: bool, cursor: nat)

  /** A topic in memory with one reader. */
  datatype BoxTopic = BoxTopic(nextSequence: nat, queue: seq<Message>)

  function RingStep(s: RingTopic, op: Op, ring: nat, depth: nat): (RingTopic, Seen)
    requires ring > 0 && s.cursor >= 1
  {
    match op
    case Write(payload, timestamp) =>
      var log := s.log + [Seqlock.Message(|s.log| + 1, timestamp, payload)];
      (RingTopic(log, false, s.cursor), Seen(None, Ring.Pending(|log|, ring, s.cursor, depth)))
    case FailedWrite =>
      (s.(torn := true), Seen(None, Ring.Pending(|s.log|, ring, s.cursor, depth)))
    case Read =>
      var r := Ring.Read(s.log, s.torn, ring, s.cursor, depth);
      (s.(cursor := r.cursor), Seen(r.message, Ring.Pending(|s.log|, ring, r.cursor, depth)))
  }

  function BoxStep(s: BoxTopic, op: Op, policy: Mailbox.Policy): (BoxTopic, Seen) {
    match op
    case Write(payload, timestamp) =>
      var queue := Mailbox.Pushed(policy, s.queue, Seqlock.Message(s.nextSequence, timestamp, payload)).0;
      (BoxTopic(s.nextSequence + 1, queue), Seen(None, |queue|))
    case FailedWrite => (s, Seen(None, |s.queue|))
    case Read =>
      if s.queue == [] then (s, Seen(None, 0))
      else (s.(queue := s.queue[1..]), Seen(Some(s.queue[0]), |s.queue| - 1))
  }

  /** Everything a reader sees of a sequence of operations. */
  function RingTrace(s: RingTopic, ops: seq<Op>, ring: nat, depth: nat): seq<Seen>
    requires ring > 0 && s.cursor >= 1
    decreases ops
  {
    if ops == [] then []
    else
      var (s', seen) := RingStep(s, ops[0], ring, depth);
      [seen] + RingTrace(s', ops[1..], ring, depth)
  }

  function BoxTrace(s: BoxTopic, ops: seq<Op>, policy: Mailbox.Policy): seq<Seen>
    decreases ops
  {
    if ops == [] then []
    else
      var (s', seen) := BoxStep(s, ops[0], policy);
      [seen] + BoxTrace(s', ops[1..], policy)
  }

  /** The policies a ring of depth `depth` stands for. */
  predicate Matches(policy: Mailbox.Policy, depth: nat) {
    && policy.depth > 0 && !Mailbox.Unbounded(policy)
    && (policy.freshness.Latest? || policy.overflow.DropOldest?)
    && depth == Mailbox.Capacity(policy)
  }

  /** The messages the reader at `cursor` still has coming. */
  function Unread(log: seq<Message>, cursor: nat, depth: nat): seq<Message>
    requires cursor >= 1 && depth >= 1
  {
    if cursor > |log| then [] else log[Seqlock.ClampCursor(cursor, |log|, depth) - 1..]
  }

  ghost predicate Related(r: RingTopic, b: BoxTopic, ring: nat, depth: nat)
    requires ring > 0 && depth >= 1
  {
    && 1 <= r.cursor <= |r.log| + 1
    && b.nextSequence == |r.log| + 1
    && b.queue == Unread(r.log, r.cursor, depth)
    && (r.torn ==> depth < ring)
  }

  /** The end of a log with one more message. */
  lemma DropFront(log: seq<Message>, m: Message, k: nat)
    requires k <= |log|
    ensures (log + [m])[k..] == log[k..] + [m]
    ensures k == |log| ==> log[k..] == []
  {
  }

  /** What is unread is what the pending count says, and no more than the depth. */
  lemma UnreadIsPending(log: seq<Message>, cursor: nat, ring: nat, depth: nat)
    requires 1 <= depth <= ring && cursor >= 1
    ensures |Unread(log, cursor, depth)| == Ring.Pending(|log|, ring, cursor, depth) <= depth
  {
  }

  /** A reader that has caught up. */
  lemma UnreadWhenCaughtUp(log: seq<Message>, m: Message, cursor: nat, depth: nat)
    requires depth >= 1 && cursor == |log| + 1
    ensures Unread(log, cursor, depth) == [] && Unread(log + [m], cursor, depth) == [m]
  {
    DropFront(log, m, |log|);
  }

  /** A reader with fewer unread messages than its depth: none is dropped. */
  lemma UnreadBelowDepth(log: seq<Message>, m: Message, cursor: nat, depth: nat)
    requires depth >= 1 && 1 <= cursor <= |log| && |Unread(log, cursor, depth)| < depth
    ensures Unread(log + [m], cursor, depth) == Unread(log, cursor, depth) + [m]
  {
    DropFront(log, m, cursor - 1);
  }

  /** A reader with as many unread messages as its depth, whether its cursor is behind the
      clamp already or not: the oldest is dropped. */
  lemma UnreadAtDepth(log: seq<Message>, m: Message, cursor: nat, depth: nat)
    requires depth >= 1 && 1 <= cursor <= |log| && |Unread(log, cursor, depth)| == depth
    ensures Unread(log + [m], cursor, depth) == Unread(log, cursor, depth)[1..] + [m]
  {
    var first := Seqlock.ClampCursor(cursor, |log|, depth);
    DropFront(log, m, first);
    assert log[first - 1..][1..] == log[first..];
  }

  /** The unread messages are a window over the log. */
  lemma UnreadIsLast(log: seq<Message>, m: Message, cursor: nat, ring: nat, depth: nat)
    requires 1 <= depth <= ring && 1 <= cursor <= |log| + 1
    ensures Unread(log + [m], cursor, depth) == Mailbox.Last(Unread(log, cursor, depth) + [m], depth)
  {
    UnreadIsPending(log, cursor, ring, depth);
    if cursor == |log| + 1 {
      UnreadWhenCaughtUp(log, m, cursor, depth);
    } else if |Unread(log, cursor, depth)| < depth {
      UnreadBelowDepth(log, m, cursor, depth);
    } else {
      UnreadAtDepth(log, m, cursor, depth);
      var unread := Unread(log, cursor, depth);
      assert (unread + [m])[1..] == unread[1..] + [m];
    }
  }

  lemma WriteRelated(r: RingTopic, b: BoxTopic, op: Op, ring: nat, depth: nat, policy: Mailbox.Policy)
    requires 1 <= depth <= ring && Matches(policy, depth) && Related(r, b, ring, depth) && op.Write?
    ensures RingStep(r, op, ring, depth).1 == BoxStep(b, op, policy).1
    ensures Related(RingStep(r, op, ring, depth).0, BoxStep(b, op, policy).0, ring, depth)
  {
    var m := Seqlock.Message(|r.log| + 1, op.timestamp, op.payload);
    UnreadIsPending(r.log, r.cursor, ring, depth);
    UnreadIsLast(r.log, m, r.cursor, ring, depth);
    Mailbox.PushedIsLast(policy, b.queue, m);
    UnreadIsPending(r.log + [m], r.cursor, ring, depth);
  }

  lemma ReadRelated(r: RingTopic, b: BoxTopic, ring: nat, depth: nat, policy: Mailbox.Policy)
    requires 1 <= depth <= ring && Matches(policy, depth) && Related(r, b, ring, depth)
    ensures RingStep(r, Read, ring, depth).1 == BoxStep(b, Read, policy).1
    ensures Related(RingStep(r, Read, ring, depth).0, BoxStep(b, Read, policy).0, ring, depth)
  {
    if r.cursor <= |r.log| {
      var first := Seqlock.ClampCursor(r.cursor, |r.log|, depth);
      assert !Ring.Lost(r.log, r.torn, ring, first);
      assert Unread(r.log, first + 1, depth) == b.queue[1..];
    }
  }

  /** No reader can tell: from related topics, every sequence of operations is seen
      alike, read by read and count by count, as long as either no fill fails or the
      reader's depth leaves a slot to spare. */
  lemma {:induction false} RingRefinesQueue(
    r: RingTopic, b: BoxTopic, ops: seq<Op>, ring: nat, depth: nat, policy: Mailbox.Policy)
    requires 1 <= depth <= ring && Matches(policy, depth) && Related(r, b, ring, depth)
    requires depth < ring || FailedWrite !in ops
    ensures RingTrace(r, ops, ring, depth) == BoxTrace(b, ops, policy)
    decreases ops
  {
    if ops != [] {
      if ops[0].Write? {
        WriteRelated(r, b, ops[0], ring, depth, policy);
      } else if ops[0].Read? {
        ReadRelated(r, b, ring, depth, policy);
      }
      RingRefinesQueue(RingStep(r, ops[0], ring, depth).0, BoxStep(b, ops[0], policy).0, ops[1..], ring, depth, policy);
    }
  }

  // ---- the exact boundary --------------------------------------------------------

  /** Two topics nobody has written to. */
  const FRESH_RING := RingTopic([], false, 1)
  const FRESH_BOX := BoxTopic(1, [])

  /** `count` publishes of an empty message, then a failed fill, then a read. */
  function Fatal(count: nat): seq<Op> {
    if count == 0 then [FailedWrite, Read] else [Write([], 0)] + Fatal(count - 1)
  }

  /** Every message of the log carries its place in it. */
  predicate Numbered(log: seq<Message>) {
    forall i :: 0 <= i < |log| ==> log[i].sequence == i + 1
  }

  /** Traces that differ after their first step differ. */
  lemma {:induction false} TailsDiffer(r: RingTopic, b: BoxTopic, ops: seq<Op>, ring: nat, policy: Mailbox.Policy)
    requires ring > 0 && r.cursor >= 1 && ops != []
    requires RingTrace(RingStep(r, ops[0], ring, ring).0, ops[1..], ring, ring)
          != BoxTrace(BoxStep(b, ops[0], policy).0, ops[1..], policy)
    ensures RingTrace(r, ops, ring, ring) != BoxTrace(b, ops, policy)
  {
    assert RingTrace(r, ops, ring, ring)[1..] == RingTrace(RingStep(r, ops[0], ring, ring).0, ops[1..], ring, ring);
    assert BoxTrace(b, ops, policy)[1..] == BoxTrace(BoxStep(b, ops[0], policy).0, ops[1..], policy);
  }

  lemma {:induction false} FullRingShows(r: RingTopic, b: BoxTopic, ring: nat, policy: Mailbox.Policy)
    requires ring > 0 && Matches(policy, ring) && Related(r, b, ring, ring)
    requires r.cursor == 1 && |r.log| == ring && Numbered(r.log)
    ensures RingTrace(r, Fatal(0), ring, ring) != BoxTrace(b, Fatal(0), policy)
  {
    var r' := r.(torn := true);
    OldestIsGone(r, b, ring, policy);
    assert Fatal(0)[1..] == [Read];
    assert RingTrace(r', [Read], ring, ring)[0] == RingStep(r', Read, ring, ring).1;
    assert BoxTrace(b, [Read], policy)[0] == BoxStep(b, Read, policy).1;
    TailsDiffer(r, b, Fatal(0), ring, policy);
  }

  lemma {:induction false} EmptyWrite(r: RingTopic, b: BoxTopic, ring: nat, policy: Mailbox.Policy)
    requires ring > 0 && Matches(policy, ring) && Related(r, b, ring, ring) && Numbered(r.log)
    ensures var r', b' := RingStep(r, Write([], 0), ring, ring).0, BoxStep(b, Write([], 0), policy).0;
      Related(r', b', ring, ring) && r'.cursor == r.cursor && |r'.log| == |r.log| + 1 && Numbered(r'.log)
  {
    WriteRelated(r, b, Write([], 0), ring, ring, policy);
  }

  /** With as many unread messages as slots, a failed fill destroys the oldest: the queue
      still delivers it and the ring does not. */
  lemma {:induction false} FailedFillShows(r: RingTopic, b: BoxTopic, count: nat, ring: nat, policy: Mailbox.Policy)
    requires ring > 0 && Matches(policy, ring) && Related(r, b, ring, ring)
    requires r.cursor == 1 && |r.log| + count == ring && Numbered(r.log)
    ensures RingTrace(r, Fatal(count), ring, ring) != BoxTrace(b, Fatal(count), policy)
    decreases count
  {
    if count == 0 {
      FullRingShows(r, b, ring, policy);
    } else {
      var ops := Fatal(count);
      var r', b' := RingStep(r, ops[0], ring, ring).0, BoxStep(b, ops[0], policy).0;
      EmptyWrite(r, b, ring, policy);
      assert ops[0] == Write([], 0) && ops[1..] == Fatal(count - 1);
      FailedFillShows(r', b', count - 1, ring, policy);
      TailsDiffer(r, b, ops, ring, policy);
    }
  }

  /** The read after the failed fill, with every slot unread. */
  lemma OldestIsGone(r: RingTopic, b: BoxTopic, ring: nat, policy: Mailbox.Policy)
    requires ring > 0 && Matches(policy, ring) && Related(r, b, ring, ring)
    requires r.cursor == 1 && |r.log| == ring && Numbered(r.log)
    ensures RingStep(r.(torn := true), Read, ring, ring).1 != BoxStep(b, Read, policy).1
  {
    assert b.queue == r.log;
    assert Ring.Lost(r.log, true, ring, 1);
  }

  /** The refinement survives failed fills exactly when the depth is below the slot count. */
  lemma FailedFillBoundary(ring: nat, depth: nat, policy: Mailbox.Policy)
    requires 1 <= depth <= ring && Matches(policy, depth)
    ensures (forall ops :: RingTrace(FRESH_RING, ops, ring, depth) == BoxTrace(FRESH_BOX, ops, policy))
            <==> depth < ring
  {
    if depth < ring {
      forall ops ensures RingTrace(FRESH_RING, ops, ring, depth) == BoxTrace(FRESH_BOX, ops, policy) {
        RingRefinesQueue(FRESH_RING, FRESH_BOX, ops, ring, depth, policy);
      }
    } else {
      FailedFillShows(FRESH_RING, FRESH_BOX, ring, ring, policy);
    }
  }
}
