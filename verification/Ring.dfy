/** The ring as one process sees it between interruptions: the segment object, with
    its publish and read loops, and the proof that it is a bounded drop-oldest queue. */
module Ring {
  import opened Options
  import opened Bytes
  import Seqlock
  import Mailbox

  type Message = Seqlock.Message
  type Slot = Seqlock.Slot

  /** What a fill function did to the buffer it was given. */
  datatype Fill =
    | Used(bytes: seq<Byte>)    // wrote its message and reported its length
    | Broken(bytes: seq<Byte>)  // wrote something, then failed or threw

  datatype PublishResult = Published(sequence: nat) | OutOfRange | FillFailed

  datatype ReadResult = ReadResult(cursor: nat, dropped: nat, message: Option<Message>)

  // ---- the specification: a log of committed messages ---------------------------

  /** The oldest message a ring of `ring` slots can still hold is gone: a fill that
      failed after the last commit marked and scribbled over its slot. */
  predicate Lost(log: seq<Message>, torn: bool, ring: nat, sequence: nat) {
    torn && sequence + ring == |log| + 1
  }

  /** What TryRead returns for a reader at `cursor`. */
  function Read(log: seq<Message>, torn: bool, ring: nat, cursor: nat, depth: nat): ReadResult
    requires ring > 0 && cursor >= 1
  {
    var newest := |log|;
    if cursor > newest then ReadResult(cursor, 0, None)
    else
      var first := Seqlock.ClampCursor(cursor, newest, Seqlock.EffectiveDepth(depth, ring));
      var next := if Lost(log, torn, ring, first) then first + 1 else first;
      if next > newest then ReadResult(next, next - cursor, None)
      else ReadResult(next + 1, next - cursor, Some(Seqlock.Entry(log, next)))
  }

  /** What Pending returns. */
  function Pending(newest: nat, ring: nat, cursor: nat, depth: nat): nat
  {
    if cursor > newest then 0
    else newest + 1 - Seqlock.ClampCursor(cursor, newest, Seqlock.EffectiveDepth(depth, ring))
  }

  /** The slot of `sequence` is not the slot of any other of the last ring - 1 sequences. */
  lemma SlotIsFree(sequence: nat, ring: nat)
    requires ring > 0
    ensures forall c: nat :: c < sequence < c + ring ==>
              Seqlock.SlotIndex(c, ring) != Seqlock.SlotIndex(sequence, ring)
  {
    forall c: nat | c < sequence < c + ring
      ensures Seqlock.SlotIndex(c, ring) != Seqlock.SlotIndex(sequence, ring)
    {
      if Seqlock.SlotIndex(c, ring) == Seqlock.SlotIndex(sequence, ring) {
        Seqlock.SlotsApart(c, sequence, ring);
      }
    }
  }

  // ---- the segment --------------------------------------------------------------

  class Segment {
    const payloadSize: nat
    const slots: array<Slot>
    var writeSeq: nat
    ghost var log: seq<Message>  // what was committed, in order
    ghost var torn: bool         // a fill failed since the last commit

    ghost predicate Valid()
      reads this, slots
    {
      && slots.Length > 0
      && |log| == writeSeq < Seqlock.WRITING_BIT
      && (forall i :: 0 <= i < slots.Length ==> |slots[i].payload| == payloadSize)
      && (forall c :: 1 <= c <= writeSeq ==> Seqlock.Entry(log, c).sequence == c)
      && (forall c :: 1 <= c <= writeSeq && c + slots.Length > writeSeq && !Lost(log, torn, slots.Length, c)
            ==> Carries(slots[Seqlock.SlotIndex(c, slots.Length)], Seqlock.Entry(log, c)))
      && (torn ==> slots[Seqlock.SlotIndex(writeSeq + 1, slots.Length)].word == writeSeq + 1 + Seqlock.WRITING_BIT)
    }

    constructor (payloadSize: nat, slotCount: nat)
      requires slotCount > 0
      ensures Valid() && fresh(slots) && slots.Length == slotCount && this.payloadSize == payloadSize
      ensures writeSeq == 0 && log == [] && !torn
    {
      this.payloadSize := payloadSize;
      var zero := seq(payloadSize, _ => 0);
      slots := new Slot[slotCount](_ => Seqlock.Slot(0, 0, 0, zero));
      writeSeq := 0;
      log := [];
      torn := false;
    }

    /** Publishes what `fill` writes into the slot; a failed fill publishes nothing, but
        the message that was in the slot is gone. */
    method PublishWith(capacity: nat, fill: Fill, timestamp: int) returns (result: PublishResult)
      requires Valid() && |fill.bytes| <= capacity && writeSeq + 1 < Seqlock.WRITING_BIT
      modifies this, slots
      ensures Valid()
      ensures capacity > payloadSize ==> result == OutOfRange && log == old(log) && torn == old(torn)
      ensures capacity <= payloadSize && fill.Broken? ==> result == FillFailed && log == old(log) && torn
      ensures capacity <= payloadSize && fill.Used? ==>
                && result == Published(|old(log)| + 1) && !torn
                && log == old(log) + [Seqlock.Message(|old(log)| + 1, timestamp, fill.bytes)]
    {
      if capacity > payloadSize {
        return OutOfRange;
      }
      var at := FillSlot(fill.bytes);
      if fill.Broken? {
        return FillFailed;
      }
      result := Commit(at, fill.bytes, timestamp);
    }

    /** Marks the next slot as being written and fills it. */
    method FillSlot(bytes: seq<Byte>) returns (at: nat)
      requires Valid() && |bytes| <= payloadSize && writeSeq + 1 < Seqlock.WRITING_BIT
      modifies this`torn, slots
      ensures Valid() && torn
      ensures at == Seqlock.SlotIndex(writeSeq + 1, slots.Length) && slots[at].payload[..|bytes|] == bytes
    {
      at := Seqlock.SlotIndex(writeSeq + 1, slots.Length);
      SlotIsFree(writeSeq + 1, slots.Length);
      slots[at] := slots[at].(
        word := writeSeq + 1 + Seqlock.WRITING_BIT,
        payload := bytes + slots[at].payload[|bytes|..]);
      torn := true;
    }

    /** Commits the slot, then the sequence. */
    method Commit(at: nat, bytes: seq<Byte>, timestamp: int) returns (result: PublishResult)
      requires Valid() && torn && |bytes| <= payloadSize && writeSeq + 1 < Seqlock.WRITING_BIT
      requires at == Seqlock.SlotIndex(writeSeq + 1, slots.Length) && slots[at].payload[..|bytes|] == bytes
      modifies this, slots
      ensures Valid() && !torn && result == Published(|old(log)| + 1)
      ensures log == old(log) + [Seqlock.Message(|old(log)| + 1, timestamp, bytes)]
    {
      var sequence := writeSeq + 1;
      SlotIsFree(sequence, slots.Length);
      slots[at] := slots[at].(size := |bytes|, timestamp := timestamp, word := sequence);
      writeSeq := sequence;
      log := log + [Seqlock.Message(sequence, timestamp, bytes)];
      torn := false;
      assert forall c :: 1 <= c < sequence ==> Seqlock.Entry(log, c) == Seqlock.Entry(old(log), c);
      return Published(sequence);
    }

    /** Publishes a copy of `payload`. */
    method Publish(payload: seq<Byte>, timestamp: int) returns (result: PublishResult)
      requires Valid() && writeSeq + 1 < Seqlock.WRITING_BIT
      modifies this, slots
      ensures Valid()
      ensures |payload| > payloadSize ==> result == OutOfRange && log == old(log) && torn == old(torn)
      ensures |payload| <= payloadSize ==>
                && result == Published(|old(log)| + 1) && !torn
                && log == old(log) + [Seqlock.Message(|old(log)| + 1, timestamp, payload)]
    {
      result := PublishWith(|payload|, Used(payload), timestamp);
    }

    /** Reader cursors start at 1 or later: they name the next sequence wanted. */
    method TryRead(start: nat, depth: nat) returns (result: ReadResult)
      requires Valid() && start >= 1
      ensures result == Read(log, torn, slots.Length, start, depth)
    {
      var ring := slots.Length;
      var effective := Seqlock.EffectiveDepth(depth, ring);
      var cursor, dropped := start, 0;
      ghost var first := Seqlock.ClampCursor(start, writeSeq, effective);
      var pass := 0;
      while pass < Seqlock.PassLimit(ring)
        invariant pass <= 1 && cursor >= 1
        invariant pass == 0 ==> cursor == start && dropped == 0
        invariant pass == 1 ==>
          && start <= writeSeq && Lost(log, torn, ring, first)
          && cursor == first + 1 && dropped == first + 1 - start
      {
        var newest := writeSeq;
        if cursor > newest {
          return ReadResult(cursor, dropped, None);
        }
        var clamped := Seqlock.ClampCursor(cursor, newest, effective);
        dropped := dropped + clamped - cursor;
        cursor := clamped;

        var slot := slots[Seqlock.SlotIndex(cursor, ring)];
        assert !Lost(log, torn, ring, cursor) ==> Carries(slot, Seqlock.Entry(log, cursor));
        var before := slot.word;
        var lost := before != cursor;
        var size, timestamp := slot.size, slot.timestamp;
        var payload := [];
        if !lost {
          var valid := size <= payloadSize;
          if valid {
            payload := slot.payload[..size];
          }
          var after := slots[Seqlock.SlotIndex(cursor, ring)].word;
          lost := !valid || after != before;
        }
        if lost {
          dropped := dropped + 1;
          cursor := cursor + 1;
          pass := pass + 1;
          continue;
        }
        return ReadResult(cursor + 1, dropped, Some(Seqlock.Message(cursor, timestamp, payload)));
      }
      return ReadResult(cursor, dropped, None);
    }

    method PendingCount(cursor: nat, depth: nat) returns (count: nat)
      requires Valid()
      ensures count == Pending(|log|, slots.Length, cursor, depth)
    {
      var newest := writeSeq;
      if cursor > newest {
        return 0;
      }
      var effective := Seqlock.EffectiveDepth(depth, slots.Length);
      return newest - Seqlock.ClampCursor(cursor, newest, effective) + 1;
    }
  }

  /** The slot carries the message's sequence and holds it. */
  predicate Carries(slot: Slot, message: Message) {
    slot.word == message.sequence && Seqlock.Holds(slot, message)
  }
}
