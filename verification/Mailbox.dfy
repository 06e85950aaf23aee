/** The queue of one in-memory reader, under every message policy. */
module Mailbox {
  import opened Options

  datatype Freshness = Latest | Queued
  datatype Retention = KeepLast | KeepAll
  datatype Overflow = DropOldest | DropNewest | Reject | Block

  datatype Policy = Policy(freshness: Freshness, retention: Retention, overflow: Overflow, depth: nat)

  /** `Blocked`: the caller waits for space and tries again. */
  datatype PushResult = Ok | FailedPrecondition | ResourceExhausted | Blocked

  function Capacity(policy: Policy): nat {
    if policy.freshness.Latest? then 1 else policy.depth
  }

  predicate Unbounded(policy: Policy) {
    policy.freshness.Queued? && policy.retention.KeepAll?
  }

  /** The queue after `message` arrives at an open mailbox, and what its writer is told. */
  function Pushed<T>(policy: Policy, queue: seq<T>, message: T): (seq<T>, PushResult) {
    if policy.freshness.Latest? then ([message], Ok)
    else if Unbounded(policy) || |queue| < policy.depth then (queue + [message], Ok)
    else match policy.overflow
      case DropOldest => ((if queue == [] then [] else queue[1..]) + [message], Ok)
      case DropNewest => (queue, Ok)
      case Reject => (queue, ResourceExhausted)
      case Block => (queue, Blocked)
  }

  /** The last `count` of `s`, or all of it. */
  function Last<T>(s: seq<T>, count: nat): seq<T> {
    if |s| <= count then s else s[|s| - count..]
  }

  class Mailbox<T> {
    const policy: Policy
    var messages: seq<T>
    var closed: bool

    /** MessagePolicy::Validate refuses a depth of zero. */
    constructor (policy: Policy)
      requires policy.depth > 0
      ensures this.policy == policy && messages == [] && !closed
    {
      this.policy := policy;
      messages := [];
      closed := false;
    }

    ghost predicate Valid()
      reads this
    {
      policy.depth > 0 && (Unbounded(policy) || |messages| <= Capacity(policy))
    }

    method Push(message: T) returns (result: PushResult)
      requires Valid()
      modifies this`messages
      ensures Valid()
      ensures closed ==> result == FailedPrecondition && messages == old(messages)
      ensures !closed ==> (messages, result) == Pushed(policy, old(messages), message)
      ensures !closed && policy.freshness.Latest? ==> result == Ok && messages == [message]
      ensures !closed && policy.freshness.Queued? && (policy.retention.KeepAll? || |old(messages)| < policy.depth) ==>
                result == Ok && messages == old(messages) + [message]
      ensures !closed && policy.freshness.Queued? && policy.retention.KeepLast? && |old(messages)| == policy.depth ==>
                match policy.overflow
                case DropOldest => result == Ok && messages == old(messages)[1..] + [message]
                case DropNewest => result == Ok && messages == old(messages)
                case Reject => result == ResourceExhausted && messages == old(messages)
                case Block => result == Blocked && messages == old(messages)
    {
      if closed {
        return FailedPrecondition;
      }
      if policy.freshness.Latest? {
        messages := [message];
        return Ok;
      }
      result := PushQueued(message);
    }

    method PushQueued(message: T) returns (result: PushResult)
      requires Valid() && policy.freshness.Queued?
      modifies this`messages
      ensures Valid() && (messages, result) == Pushed(policy, old(messages), message)
    {
      if Unbounded(policy) {
        messages := messages + [message];
        return Ok;
      }
      var capacity := Capacity(policy);
      if |messages| < capacity {
        messages := messages + [message];
        return Ok;
      }
      match policy.overflow
      case DropOldest =>
        messages := messages[1..];
        messages := messages + [message];
        return Ok;
      case DropNewest => return Ok;
      case Reject => return ResourceExhausted;
      case Block => return Blocked;
    }

    /** A read that does not wait; a closed mailbox still hands out what it holds. */
    method Read() returns (result: Option<T>)
      requires Valid()
      modifies this`messages
      ensures Valid()
      ensures old(messages) == [] ==> result == None && messages == []
      ensures old(messages) != [] ==> result == Some(old(messages)[0]) && messages == old(messages)[1..]
    {
      if messages == [] {
        return None;
      }
      result := Some(messages[0]);
      messages := messages[1..];
    }
  }

  /** Arrivals one after another, none read. */
  function PushedAll<T>(policy: Policy, queue: seq<T>, arrivals: seq<T>): seq<T>
    decreases arrivals
  {
    if arrivals == [] then queue
    else PushedAll(policy, Pushed(policy, queue, arrivals[0]).0, arrivals[1..])
  }

  lemma LastOfLast<T>(a: seq<T>, b: seq<T>, count: nat)
    ensures Last(Last(a, count) + b, count) == Last(a + b, count)
  {
    if |a| > count {
      var cut := |a| - count;
      assert a[cut..] + b == (a + b)[cut..];
      assert (a + b)[cut..][|b|..] == (a + b)[cut + |b|..];
    }
  }

  lemma PushedIsLast<T>(policy: Policy, queue: seq<T>, message: T)
    requires policy.depth > 0 && !Unbounded(policy) && |queue| <= Capacity(policy)
    requires policy.freshness.Latest? || policy.overflow.DropOldest?
    ensures Pushed(policy, queue, message).0 == Last(queue + [message], Capacity(policy))
  {
  }

  /** A bounded drop-oldest queue is a window: it holds the newest `capacity` of what it
      held and what arrived, in order. So does a latest-only one, with capacity 1. */
  lemma {:induction false} DropOldestKeepsNewest<T>(policy: Policy, queue: seq<T>, arrivals: seq<T>)
    requires policy.depth > 0 && !Unbounded(policy) && |queue| <= Capacity(policy)
    requires policy.freshness.Latest? || policy.overflow.DropOldest?
    ensures PushedAll(policy, queue, arrivals) == Last(queue + arrivals, Capacity(policy))
    decreases arrivals
  {
    if arrivals == [] {
      assert queue + arrivals == queue;
    } else {
      var next := Pushed(policy, queue, arrivals[0]).0;
      DropOldestKeepsNewest(policy, next, arrivals[1..]);
      PushedIsLast(policy, queue, arrivals[0]);
      LastOfLast(queue + [arrivals[0]], arrivals[1..], Capacity(policy));
      assert queue + arrivals == (queue + [arrivals[0]]) + arrivals[1..];
    }
  }
}
