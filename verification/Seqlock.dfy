/** The shared-memory ring of one topic as a step machine: any number of writers
    serialised by a robust cross-process lock, any number of lock-free readers,
    one atomic load or store per step and payload bytes copied one at a time,
    under sequential consistency. A writer may die between any two stores, and a
    fill function may fail half way.

    Sequences stay below bit 63, so `sequence | kWritingBit` is a sum. */
module Seqlock {
  import opened Basics
  import opened Bytes
  import opened Options

  const WRITING_BIT: nat := 0x8000_0000_0000_0000

  datatype Message = Message(sequence: nat, timestamp: int, payload: seq<Byte>)

  /** A slot of the ring: its header words, and a payload area of fixed size. */
  datatype Slot = Slot(word: nat, timestamp: int, size: nat, payload: seq<Byte>)

  /** What a publisher was asked for: copy a payload, or let a fill function write
      into a buffer of `capacity` bytes and say how many it used. */
  datatype Job = Copy(payload: seq<Byte>) | Fill(capacity: nat)

  /** A publisher, by the store it executes next. `image` is what it believes the
      slot's first bytes are; `body` is the payload it is about to commit. */
  datatype Writer =
    | Idle
    | Locked(job: Job, timestamp: int)
    | Loaded(job: Job, timestamp: int, sequence: nat)
    | Filling(job: Job, timestamp: int, sequence: nat, image: seq<Byte>, copied: nat)
    | Filled(timestamp: int, sequence: nat, body: seq<Byte>)
    | Sized(timestamp: int, sequence: nat, body: seq<Byte>)
    | Stamped(timestamp: int, sequence: nat, body: seq<Byte>)
    | SlotCommitted(timestamp: int, sequence: nat, body: seq<Byte>)
    | Unlocking
    | Dead

  /** A reader inside TryRead, by the load it executes next. */
  datatype Phase =
    | Outside
    | AtNewest(pass: nat)
    | AtBefore(pass: nat)
    | AtSize(pass: nat)
    | AtTimestamp(pass: nat, size: nat)
    | AtCopy(pass: nat, size: nat, timestamp: int, copy: seq<Byte>)

  /** `cursor` is the next sequence wanted. `start`, `delivered` and `reported` are
      the reader's history: where it joined, what its calls returned and the drops
      they reported; `dropped` belongs to the call under way. */
  datatype Reader = Reader(
    cursor: nat, depth: nat, phase: Phase, dropped: nat,
    start: nat, delivered: seq<Message>, reported: nat)

  /** The remainder of `sequence` by `ring`, by repeated subtraction. */
  function SlotIndex(sequence: nat, ring: nat): (index: nat)
    requires ring > 0
    ensures index < ring
  {
    Remainder(sequence, ring)
  }

  /** The slot that `sequence` lives in. */
  function At(slots: seq<Slot>, sequence: nat): Slot
    requires |slots| > 0
  {
    slots[SlotIndex(sequence, |slots|)]
  }

  /** The message committed under `sequence`. */
  function Entry(log: seq<Message>, sequence: nat): Message
    requires 1 <= sequence <= |log|
  {
    log[sequence - 1]
  }

  /** `log[s - 1]` is what the publisher that advanced write_seq to `s` was asked to
      publish: the specification that deliveries are compared with. */
  datatype State = State(
    payloadSize: nat, writeSeq: nat, slots: seq<Slot>, lock: Option<nat>,
    writers: map<nat, Writer>, readers: map<nat, Reader>, log: seq<Message>)

  /** A ring has slots, all with a payload area of the same size. */
  predicate Shaped(s: State) {
    && |s.slots| > 0
    && forall i :: 0 <= i < |s.slots| ==> |s.slots[i].payload| == s.payloadSize
  }

  function WithSlot(s: State, sequence: nat, slot: Slot): State
    requires |s.slots| > 0
  {
    s.(slots := s.slots[SlotIndex(sequence, |s.slots|) := slot])
  }

  // ---- publishing ------------------------------------------------------------

  function Capacity(job: Job): nat {
    match job
    case Copy(payload) => |payload|
    case Fill(capacity) => capacity
  }

  /** The choices a publisher's step leaves open: what it is asked to publish, what
      the fill function does next, and whether the process dies. */
  datatype Choice =
    | Begin(job: Job, timestamp: int)
    | PutByte(index: nat, value: Byte)
    | FillDone(used: nat)
    | FillFailed
    | Proceed
    | Crash

  predicate WriterMay(s: State, w: Writer, choice: Choice)
    requires Shaped(s)
  {
    match choice
    case Begin(job, _) => w.Idle? && s.lock.None? && Capacity(job) <= s.payloadSize
    case PutByte(index, value) =>
      && w.Filling? && index < |w.image| && index < s.payloadSize
      && (w.job.Copy? ==> index == w.copied && w.copied < |w.job.payload| && value == w.job.payload[index])
    case FillDone(used) =>
      && w.Filling? && used <= |w.image|
      && (w.job.Copy? ==> w.copied == |w.job.payload| && used == |w.job.payload|)
    case FillFailed => w.Filling? && w.job.Fill?
    case Proceed =>
      && !w.Idle? && !w.Filling? && !w.Dead?
      && (w.Locked? ==> s.writeSeq + 1 < WRITING_BIT)
    case Crash => !w.Dead?
  }

  function WriterNext(s: State, t: nat, choice: Choice): State
    requires Shaped(s) && t in s.writers && WriterMay(s, s.writers[t], choice)
  {
    var w := s.writers[t];
    match choice
    case Begin(job, timestamp) => s.(lock := Some(t), writers := s.writers[t := Locked(job, timestamp)])
    case PutByte(index, value) =>
      var slot := At(s.slots, w.sequence);
      WithSlot(s, w.sequence, slot.(payload := slot.payload[index := value]))
       .(writers := s.writers[t := w.(image := w.image[index := value], copied := w.copied + 1)])
    case FillDone(used) => s.(writers := s.writers[t := Filled(w.timestamp, w.sequence, w.image[..used])])
    case FillFailed => s.(writers := s.writers[t := Unlocking])
    case Crash =>
      s.(lock := if s.lock == Some(t) then None else s.lock, writers := s.writers[t := Dead])
    case Proceed =>
      match w
      case Locked(job, timestamp) =>
        s.(writers := s.writers[t := Loaded(job, timestamp, s.writeSeq + 1)])
      case Loaded(job, timestamp, sequence) =>
        var slot := At(s.slots, sequence);
        var image := slot.payload[..Min(Capacity(job), |slot.payload|)];
        WithSlot(s, sequence, slot.(word := sequence + WRITING_BIT))
         .(writers := s.writers[t := Filling(job, timestamp, sequence, image, 0)])
      case Filled(timestamp, sequence, body) =>
        WithSlot(s, sequence, At(s.slots, sequence).(size := |body|))
         .(writers := s.writers[t := Sized(timestamp, sequence, body)])
      case Sized(timestamp, sequence, body) =>
        WithSlot(s, sequence, At(s.slots, sequence).(timestamp := timestamp))
         .(writers := s.writers[t := Stamped(timestamp, sequence, body)])
      case Stamped(timestamp, sequence, body) =>
        WithSlot(s, sequence, At(s.slots, sequence).(word := sequence))
         .(writers := s.writers[t := SlotCommitted(timestamp, sequence, body)])
      case SlotCommitted(timestamp, sequence, body) =>
        s.(writeSeq := sequence, log := s.log + [Message(sequence, timestamp, body)],
           writers := s.writers[t := Unlocking])
      case Unlocking => s.(lock := None, writers := s.writers[t := Idle])
  }

  // ---- reading ---------------------------------------------------------------

  function ClampCursor(cursor: nat, newest: nat, depth: nat): nat {
    Max(cursor, if newest >= depth then newest - depth + 1 else 1)
  }

  /** The depth TryRead and Pending work with. */
  function EffectiveDepth(depth: nat, ring: nat): nat { Max(1, Min(depth, ring)) }

  function PassLimit(ring: nat): nat { ring + 16 }

  /** The call returns, with or without a message. */
  function Return(r: Reader): Reader {
    r.(phase := Outside, reported := r.reported + r.dropped, dropped := 0)
  }

  /** The message under the cursor is lost: count it and make another pass. */
  function Drop(r: Reader, pass: nat, ring: nat): Reader {
    var r' := r.(cursor := r.cursor + 1, dropped := r.dropped + 1);
    if pass + 1 < PassLimit(ring) then r'.(phase := AtNewest(pass + 1)) else Return(r')
  }

  /** The next load of a reader. It depends on shared memory and changes none of it. */
  function ReaderNext(s: State, r: Reader): Reader
    requires Shaped(s)
  {
    var ring := |s.slots|;
    match r.phase
    case Outside => r.(phase := AtNewest(0))
    case AtNewest(pass) =>
      var newest := s.writeSeq;
      if r.cursor > newest then Return(r)
      else
        var clamped := ClampCursor(r.cursor, newest, EffectiveDepth(r.depth, ring));
        r.(dropped := r.dropped + clamped - r.cursor, cursor := clamped, phase := AtBefore(pass))
    case AtBefore(pass) =>
      if At(s.slots, r.cursor).word != r.cursor then Drop(r, pass, ring) else r.(phase := AtSize(pass))
    case AtSize(pass) => r.(phase := AtTimestamp(pass, At(s.slots, r.cursor).size))
    case AtTimestamp(pass, size) => r.(phase := AtCopy(pass, size, At(s.slots, r.cursor).timestamp, []))
    case AtCopy(pass, size, timestamp, copy) =>
      var slot := At(s.slots, r.cursor);
      if size <= s.payloadSize && |copy| < size then
        r.(phase := AtCopy(pass, size, timestamp, copy + [slot.payload[|copy|]]))
      else if size > s.payloadSize || slot.word != r.cursor then Drop(r, pass, ring)
      else
        Return(r.(cursor := r.cursor + 1, delivered := r.delivered + [Message(r.cursor, timestamp, copy)]))
  }

  // ---- the system ------------------------------------------------------------

  datatype Step =
    | WriterStep(t: nat, choice: Choice)
    | ReaderStep(t: nat)
    | AddWriter(t: nat)
    | AddReader(t: nat, depth: nat)

  predicate Enabled(s: State, step: Step)
    requires Shaped(s)
  {
    match step
    case WriterStep(t, choice) => t in s.writers && WriterMay(s, s.writers[t], choice)
    case ReaderStep(t) => t in s.readers
    case AddWriter(t) => t !in s.writers
    case AddReader(t, _) => t !in s.readers
  }

  function Next(s: State, step: Step): State
    requires Shaped(s) && Enabled(s, step)
  {
    match step
    case WriterStep(t, choice) => WriterNext(s, t, choice)
    case ReaderStep(t) => s.(readers := s.readers[t := ReaderNext(s, s.readers[t])])
    case AddWriter(t) => s.(writers := s.writers[t := Idle])
    case AddReader(t, depth) =>
      s.(readers := s.readers[t := Reader(s.writeSeq + 1, depth, Outside, 0, s.writeSeq + 1, [], 0)])
  }

  /** A new segment: zeroed slots, nothing written, nobody attached. */
  predicate Initial(s: State) {
    && Shaped(s)
    && s.writeSeq == 0 && s.lock.None? && s.writers == map[] && s.readers == map[] && s.log == []
    && forall i :: 0 <= i < |s.slots| ==> s.slots[i].word == 0
  }

  /** `states` is a run that takes `steps` in order. */
  ghost predicate IsRun(states: seq<State>, steps: seq<Step>) {
    && |states| == |steps| + 1
    && Initial(states[0])
    && forall i {:trigger steps[i]} :: 0 <= i < |steps| ==>
        Shaped(states[i]) && Enabled(states[i], steps[i]) && states[i + 1] == Next(states[i], steps[i])
  }

  // ---- the invariant ---------------------------------------------------------

  /** `slot` holds `message` completely. */
  predicate Holds(slot: Slot, message: Message) {
    && slot.size == |message.payload| <= |slot.payload|
    && slot.timestamp == message.timestamp
    && slot.payload[..|message.payload|] == message.payload
  }

  /** A slot that carries a committed sequence holds exactly that message, and the
      last `ring - 1` committed messages are all still there. */
  ghost predicate RingInv(s: State) {
    && Shaped(s)
    && |s.log| == s.writeSeq < WRITING_BIT
    && (forall c :: 1 <= c <= s.writeSeq ==> Entry(s.log, c).sequence == c)
    && (forall c :: 1 <= c <= s.writeSeq && At(s.slots, c).word == c ==> Holds(At(s.slots, c), Entry(s.log, c)))
    && (forall c :: 1 <= c <= s.writeSeq && c + |s.slots| > s.writeSeq + 1 ==> At(s.slots, c).word == c)
  }

  /** The slot's first bytes are `bytes`. */
  predicate Begins(slot: Slot, bytes: seq<Byte>) {
    |bytes| <= |slot.payload| && slot.payload[..|bytes|] == bytes
  }

  ghost predicate WriterInv(s: State, t: nat, w: Writer)
    requires Shaped(s)
  {
    && (s.lock == Some(t) <==> !w.Idle? && !w.Dead?)
    && (match w
        case Locked(job, _) => Capacity(job) <= s.payloadSize
        case Loaded(job, _, sequence) => Capacity(job) <= s.payloadSize && IsNextSequence(s, sequence)
        case Filling(job, _, sequence, image, copied) =>
          && IsNextSequence(s, sequence) && At(s.slots, sequence).word == sequence + WRITING_BIT
          && Begins(At(s.slots, sequence), image) && |image| == Capacity(job)
          && (job.Copy? ==> copied <= |job.payload| && image[..copied] == job.payload[..copied])
        case Filled(_, sequence, body) =>
          && IsNextSequence(s, sequence) && At(s.slots, sequence).word == sequence + WRITING_BIT
          && Begins(At(s.slots, sequence), body)
        case Sized(_, sequence, body) =>
          && IsNextSequence(s, sequence) && At(s.slots, sequence).word == sequence + WRITING_BIT
          && Begins(At(s.slots, sequence), body) && At(s.slots, sequence).size == |body|
        case Stamped(timestamp, sequence, body) =>
          && IsNextSequence(s, sequence) && At(s.slots, sequence).word == sequence + WRITING_BIT
          && Holds(At(s.slots, sequence), Message(sequence, timestamp, body))
        case SlotCommitted(timestamp, sequence, body) =>
          && IsNextSequence(s, sequence) && At(s.slots, sequence).word == sequence
          && Holds(At(s.slots, sequence), Message(sequence, timestamp, body))
        case _ => true)
  }

  /** `sequence` is the one the lock holder may commit next. */
  predicate IsNextSequence(s: State, sequence: nat) {
    sequence == s.writeSeq + 1 < WRITING_BIT
  }

  /** What a reader has copied so far is right, unless the slot has moved on. */
  ghost predicate CopyInv(s: State, r: Reader)
    requires RingInv(s)
  {
    && (!r.phase.Outside? ==> r.phase.pass < PassLimit(|s.slots|))
    && match r.phase
    case Outside => r.dropped == 0
    case AtNewest(_) => true
    case AtBefore(_) => 1 <= r.cursor <= s.writeSeq
    case AtSize(_) => 1 <= r.cursor <= s.writeSeq
    case AtTimestamp(_, size) =>
      && 1 <= r.cursor <= s.writeSeq
      && (At(s.slots, r.cursor).word == r.cursor ==> size == |Entry(s.log, r.cursor).payload|)
    case AtCopy(_, size, timestamp, copy) =>
      && 1 <= r.cursor <= s.writeSeq
      && |copy| <= size
      && (At(s.slots, r.cursor).word == r.cursor ==>
            && size == |Entry(s.log, r.cursor).payload|
            && timestamp == Entry(s.log, r.cursor).timestamp
            && copy == Entry(s.log, r.cursor).payload[..|copy|])
  }

  /** The reader's history: every delivery is the committed message, in increasing
      order, and the cursor accounts for every sequence since the reader joined. */
  ghost predicate HistoryInv(s: State, r: Reader)
    requires RingInv(s)
  {
    && (forall k :: 0 <= k < |r.delivered| ==> Delivered(s, r, r.delivered[k]))
    && (forall j, k :: 0 <= j < k < |r.delivered| ==> r.delivered[j].sequence < r.delivered[k].sequence)
    && r.start >= 1
    && r.cursor == r.start + |r.delivered| + r.reported + r.dropped
  }

  predicate Delivered(s: State, r: Reader, m: Message)
    requires |s.log| == s.writeSeq
  {
    1 <= m.sequence <= s.writeSeq && m.sequence < r.cursor && m == Entry(s.log, m.sequence)
  }

  ghost predicate ReaderInv(s: State, r: Reader)
    requires RingInv(s)
  {
    CopyInv(s, r) && HistoryInv(s, r)
  }

  ghost predicate Inv(s: State) {
    && RingInv(s)
    && (forall t :: t in s.writers ==> WriterInv(s, t, s.writers[t]))
    && (forall t :: t in s.readers ==> ReaderInv(s, s.readers[t]))
    && (s.lock.Some? ==> s.lock.value in s.writers)
  }

  // ---- writers never disturb readers -----------------------------------------

  /** How shared memory may move under a reader: the log grows, and a slot that still
      carries a committed sequence has not been touched at all. */
  ghost predicate Evolves(s: State, s': State) {
    && Shaped(s) && Shaped(s')
    && s'.payloadSize == s.payloadSize && |s'.slots| == |s.slots|
    && s.log <= s'.log && s.writeSeq <= s'.writeSeq
    && forall c :: 1 <= c <= s.writeSeq && At(s'.slots, c).word == c ==> At(s'.slots, c) == At(s.slots, c)
  }

  lemma ReaderStable(s: State, s': State, r: Reader)
    requires RingInv(s) && RingInv(s') && Evolves(s, s') && ReaderInv(s, r)
    ensures ReaderInv(s', r)
  {
    forall k | 0 <= k < |r.delivered| ensures Delivered(s', r, r.delivered[k]) {
      assert Delivered(s, r, r.delivered[k]);
    }
  }

  /** Two sequences of one slot that are less than a ring apart are equal. */
  lemma SlotsApart(a: nat, b: nat, ring: nat)
    requires ring > 0 && SlotIndex(a, ring) == SlotIndex(b, ring) && a <= b < a + ring
    ensures a == b
  {
    if a < b { RemaindersDiffer(a, b, ring); }
  }

  lemma SlotIndexIsRemainder(sequence: nat, ring: nat)
    requires ring > 0
    ensures exists turns: nat :: sequence == turns * ring + SlotIndex(sequence, ring)
  {
    var turns := RemainderIsLeft(sequence, ring);
  }

  /** A store by the lock holder to the slot of the next sequence, after which that
      slot does not carry any committed sequence. */
  lemma StoreToNext(s: State, sequence: nat, slot: Slot)
    requires RingInv(s) && IsNextSequence(s, sequence)
    requires |slot.payload| == s.payloadSize
    requires slot.word >= sequence
    ensures RingInv(WithSlot(s, sequence, slot)) && Evolves(s, WithSlot(s, sequence, slot))
  {
    var s' := WithSlot(s, sequence, slot);
    var ring := |s.slots|;
    forall c | 1 <= c <= s.writeSeq && At(s'.slots, c).word == c
      ensures At(s'.slots, c) == At(s.slots, c)
    {
      assert SlotIndex(c, ring) != SlotIndex(sequence, ring);
    }
    forall c | 1 <= c <= s.writeSeq && c + ring > s.writeSeq + 1 ensures At(s'.slots, c).word == c {
      assert At(s.slots, c).word == c;
      if SlotIndex(c, ring) == SlotIndex(sequence, ring) {
        SlotsApart(c, sequence, ring);
      }
    }
  }

  /** Advancing write_seq over a slot that holds the message. */
  lemma CommitKeepsRing(s: State, s': State, sequence: nat, timestamp: int, body: seq<Byte>)
    requires RingInv(s) && IsNextSequence(s, sequence)
    requires At(s.slots, sequence).word == sequence && Holds(At(s.slots, sequence), Message(sequence, timestamp, body))
    requires s' == s.(writeSeq := sequence, log := s.log + [Message(sequence, timestamp, body)], writers := s'.writers)
    ensures RingInv(s') && Evolves(s, s')
  {
    forall c | 1 <= c <= s'.writeSeq ensures Entry(s'.log, c).sequence == c {
      if c <= s.writeSeq {
        assert Entry(s'.log, c) == Entry(s.log, c);
      }
    }
    forall c | 1 <= c <= s'.writeSeq && At(s'.slots, c).word == c ensures Holds(At(s'.slots, c), Entry(s'.log, c)) {
      if c <= s.writeSeq {
        assert Entry(s'.log, c) == Entry(s.log, c);
      }
    }
  }

  // ---- every step keeps the invariant ------------------------------------------

  /** What a step of publisher `t` has to establish. */
  ghost predicate WriterStepOk(s: State, s': State, t: nat)
    requires RingInv(s) && t in s.writers
  {
    && RingInv(s') && Evolves(s, s')
    && s'.readers == s.readers
    && t in s'.writers && s'.writers == s.writers[t := s'.writers[t]]
    && WriterInv(s', t, s'.writers[t])
    && (s.lock == Some(t) || (s.slots == s'.slots && s'.writeSeq == s.writeSeq))
    && (s'.lock == s.lock || (s.lock == Some(t) && s'.lock.None?) || (s.lock.None? && s'.lock == Some(t)))
  }

  lemma WriterBeginOk(s: State, t: nat, choice: Choice)
    requires Inv(s) && t in s.writers && WriterMay(s, s.writers[t], choice)
    requires choice.Begin? || choice.Crash? || choice.FillFailed? || choice.FillDone?
    ensures WriterStepOk(s, WriterNext(s, t, choice), t)
  {
    var w := s.writers[t];
    assert WriterInv(s, t, w);
    if choice.FillDone? {
      assert w.image[..choice.used] == At(s.slots, w.sequence).payload[..choice.used];
    }
  }

  lemma WriterPutByteOk(s: State, t: nat, choice: Choice)
    requires Inv(s) && t in s.writers && WriterMay(s, s.writers[t], choice) && choice.PutByte?
    ensures WriterStepOk(s, WriterNext(s, t, choice), t)
  {
    var w := s.writers[t];
    assert WriterInv(s, t, w);
    var slot := At(s.slots, w.sequence);
    var slot' := slot.(payload := slot.payload[choice.index := choice.value]);
    StoreToNext(s, w.sequence, slot');
    var w' := WriterNext(s, t, choice).writers[t];
    assert Begins(slot', w'.image);
    if w.job.Copy? {
      assert w'.image[..w'.copied] == w.image[..w.copied] + [choice.value];
      assert w.job.payload[..w'.copied] == w.job.payload[..w.copied] + [choice.value];
    }
  }

  /** A store of the lock holder to its slot, after which it is at the next one. */
  lemma WriterStoreOk(s: State, t: nat, w': Writer, slot: Slot, s': State)
    requires Inv(s) && t in s.writers && s.lock == Some(t)
    requires w'.Filling? || w'.Sized? || w'.Stamped? || w'.SlotCommitted?
    requires IsNextSequence(s, w'.sequence) && |slot.payload| == s.payloadSize && slot.word >= w'.sequence
    requires s' == WithSlot(s, w'.sequence, slot).(writers := s.writers[t := w'])
    requires WriterInv(s', t, w')
    ensures WriterStepOk(s, s', t)
  {
    StoreToNext(s, w'.sequence, slot);
    assert s'.slots == WithSlot(s, w'.sequence, slot).slots;
  }

  lemma WriterMarkOk(s: State, t: nat)
    requires Inv(s) && t in s.writers && s.writers[t].Loaded?
    ensures WriterStepOk(s, WriterNext(s, t, Proceed), t)
  {
    var w := s.writers[t];
    assert WriterInv(s, t, w);
    var s' := WriterNext(s, t, Proceed);
    WriterStoreOk(s, t, s'.writers[t], At(s.slots, w.sequence).(word := w.sequence + WRITING_BIT), s');
  }

  lemma WriterHeaderOk(s: State, t: nat)
    requires Inv(s) && t in s.writers && (s.writers[t].Filled? || s.writers[t].Sized?)
    ensures WriterStepOk(s, WriterNext(s, t, Proceed), t)
  {
    var w := s.writers[t];
    assert WriterInv(s, t, w);
    var s' := WriterNext(s, t, Proceed);
    var slot := At(s.slots, w.sequence);
    var slot' := if w.Filled? then slot.(size := |w.body|) else slot.(timestamp := w.timestamp);
    WriterStoreOk(s, t, s'.writers[t], slot', s');
  }

  lemma WriterCommitOk(s: State, t: nat)
    requires Inv(s) && t in s.writers && (s.writers[t].Stamped? || s.writers[t].SlotCommitted?)
    ensures WriterStepOk(s, WriterNext(s, t, Proceed), t)
  {
    var w := s.writers[t];
    assert WriterInv(s, t, w);
    var s' := WriterNext(s, t, Proceed);
    if w.Stamped? {
      WriterStoreOk(s, t, s'.writers[t], At(s.slots, w.sequence).(word := w.sequence), s');
    } else {
      CommitKeepsRing(s, s', w.sequence, w.timestamp, w.body);
    }
  }

  lemma WriterProceedOk(s: State, t: nat)
    requires Inv(s) && t in s.writers && WriterMay(s, s.writers[t], Proceed)
    ensures WriterStepOk(s, WriterNext(s, t, Proceed), t)
  {
    var w := s.writers[t];
    assert WriterInv(s, t, w);
    if w.Loaded? {
      WriterMarkOk(s, t);
    } else if w.Filled? || w.Sized? {
      WriterHeaderOk(s, t);
    } else if w.Stamped? || w.SlotCommitted? {
      WriterCommitOk(s, t);
    }
  }

  lemma WriterNextOk(s: State, t: nat, choice: Choice)
    requires Inv(s) && t in s.writers && WriterMay(s, s.writers[t], choice)
    ensures WriterStepOk(s, WriterNext(s, t, choice), t)
  {
    if choice.PutByte? {
      WriterPutByteOk(s, t, choice);
    } else if choice.Proceed? {
      WriterProceedOk(s, t);
    } else {
      WriterBeginOk(s, t, choice);
    }
  }

  /** The other publishers do not hold the lock, so a publisher's step keeps them. */
  lemma OtherWritersStable(s: State, s': State, t: nat)
    requires Inv(s) && t in s.writers && WriterStepOk(s, s', t)
    ensures forall u :: u in s'.writers ==> WriterInv(s', u, s'.writers[u])
  {
    forall u | u in s'.writers ensures WriterInv(s', u, s'.writers[u]) {
      if u != t {
        assert WriterInv(s, u, s.writers[u]);
        assert WriterInv(s, t, s.writers[t]);
      }
    }
  }

  /** A publisher's step keeps the whole invariant. */
  lemma WriterStepKeepsInv(s: State, s': State, t: nat)
    requires Inv(s) && t in s.writers && WriterStepOk(s, s', t)
    ensures Inv(s')
  {
    OtherWritersStable(s, s', t);
    forall u | u in s'.readers ensures ReaderInv(s', s'.readers[u]) {
      ReaderStable(s, s', s.readers[u]);
    }
  }

  /** A reader's load keeps what it has copied and recorded right. */
  lemma ReaderNextOk(s: State, r: Reader)
    requires RingInv(s) && ReaderInv(s, r)
    ensures ReaderInv(s, ReaderNext(s, r))
  {
    var r' := ReaderNext(s, r);
    match r.phase
    case AtCopy(_, size, timestamp, copy) =>
      if r'.phase.AtCopy? {
        CopyByteOk(s, r);
      } else {
        LoadAfterOk(s, r);
      }
    case _ =>
      forall k | 0 <= k < |r'.delivered| ensures Delivered(s, r', r'.delivered[k]) {
        assert Delivered(s, r, r.delivered[k]);
      }
  }

  lemma CopyByteOk(s: State, r: Reader)
    requires RingInv(s) && ReaderInv(s, r) && r.phase.AtCopy? && ReaderNext(s, r).phase.AtCopy?
    ensures ReaderInv(s, ReaderNext(s, r))
  {
    var r' := ReaderNext(s, r);
    var copy := r.phase.copy;
    var slot := At(s.slots, r.cursor);
    if slot.word == r.cursor {
      var m := Entry(s.log, r.cursor);
      assert Holds(slot, m);
      assert slot.payload[|copy|] == slot.payload[..|m.payload|][|copy|];
      assert m.payload[..|copy| + 1] == m.payload[..|copy|] + [m.payload[|copy|]];
    }
    forall k | 0 <= k < |r'.delivered| ensures Delivered(s, r', r'.delivered[k]) {
      assert Delivered(s, r, r.delivered[k]);
    }
  }

  lemma LoadAfterOk(s: State, r: Reader)
    requires RingInv(s) && ReaderInv(s, r) && r.phase.AtCopy? && !ReaderNext(s, r).phase.AtCopy?
    ensures ReaderInv(s, ReaderNext(s, r))
  {
    var r' := ReaderNext(s, r);
    forall k | 0 <= k < |r.delivered| ensures Delivered(s, r', r.delivered[k]) {
      assert Delivered(s, r, r.delivered[k]);
    }
    if r'.delivered != r.delivered {
      var m := Entry(s.log, r.cursor);
      assert r.phase.copy == m.payload[..|r.phase.copy|] == m.payload;
    }
  }

  /** Every step of every participant keeps the invariant. */
  lemma StepKeepsInv(s: State, step: Step)
    requires Inv(s) && Enabled(s, step)
    ensures Inv(Next(s, step)) && Evolves(s, Next(s, step))
  {
    match step
    case WriterStep(t, choice) =>
      WriterNextOk(s, t, choice);
      WriterStepKeepsInv(s, Next(s, step), t);
    case ReaderStep(t) =>
      ReaderNextOk(s, s.readers[t]);
      OtherReadersStable(s, Next(s, step), t);
    case AddWriter(t) => OtherReadersStable(s, Next(s, step), t);
    case AddReader(t, depth) => OtherReadersStable(s, Next(s, step), t);
  }

  /** Steps that leave shared memory and the publishers that hold the lock alone. */
  lemma OtherReadersStable(s: State, s': State, t: nat)
    requires Inv(s)
    requires s' == s.(readers := s'.readers, writers := s'.writers)
    requires forall u :: u in s'.readers && u != t ==> u in s.readers && s'.readers[u] == s.readers[u]
    requires t in s'.readers && (t !in s.readers || s'.readers[t] != s.readers[t]) ==> ReaderInv(s, s'.readers[t])
    requires s'.writers == s.writers || (t !in s.writers && s'.writers == s.writers[t := Idle])
    ensures Inv(s') && Evolves(s, s')
  {
    assert RingInv(s');
    forall u | u in s'.writers ensures WriterInv(s', u, s'.writers[u]) {
      if u in s.writers {
        assert WriterInv(s, u, s.writers[u]);
      }
    }
    forall u | u in s'.readers ensures ReaderInv(s', s'.readers[u]) {
      ReaderStable(s, s', s'.readers[u]);
    }
  }

  // ---- whole runs --------------------------------------------------------------

  lemma InitialInv(s: State)
    requires Initial(s)
    ensures Inv(s)
  {
  }

  /** Every state of every run satisfies the invariant. */
  lemma {:induction false} RunKeepsInv(states: seq<State>, steps: seq<Step>, i: nat)
    requires IsRun(states, steps) && i < |states|
    ensures Inv(states[i])
  {
    if i == 0 {
      InitialInv(states[0]);
    } else {
      RunKeepsInv(states, steps, i - 1);
      StepKeepsInv(states[i - 1], steps[i - 1]);
    }
  }

  /** No torn read: in every interleaving of any number of readers and writers, with
      crashes and failed fills, every message any reader was ever given is exactly
      the payload, size and timestamp committed under its sequence. */
  lemma NoTornRead(states: seq<State>, steps: seq<Step>, i: nat, t: nat, k: nat)
    requires IsRun(states, steps) && i < |states|
    requires t in states[i].readers && k < |states[i].readers[t].delivered|
    ensures var m := states[i].readers[t].delivered[k];
            1 <= m.sequence <= |states[i].log| && states[i].log[m.sequence - 1] == m
  {
    RunKeepsInv(states, steps, i);
    var s := states[i];
    assert Delivered(s, s.readers[t], s.readers[t].delivered[k]);
  }

  /** The writer is publishing a copy of `payload`, or has filled its slot with it. */
  predicate Publishes(w: Writer, payload: seq<Byte>, timestamp: int) {
    match w
    case Locked(job, time) => job == Copy(payload) && time == timestamp
    case Loaded(job, time, _) => job == Copy(payload) && time == timestamp
    case Filling(job, time, _, _, _) => job == Copy(payload) && time == timestamp
    case Filled(time, _, body) => body == payload && time == timestamp
    case Sized(time, _, body) => body == payload && time == timestamp
    case Stamped(time, _, body) => body == payload && time == timestamp
    case SlotCommitted(time, _, body) => body == payload && time == timestamp
    case _ => false
  }

  /** A copying publish stays with its payload until it is over. */
  lemma StepPublishes(s: State, step: Step, t: nat, payload: seq<Byte>, timestamp: int)
    requires Inv(s) && Enabled(s, step) && t in s.writers && Publishes(s.writers[t], payload, timestamp)
    ensures var w := Next(s, step).writers[t];
      Publishes(w, payload, timestamp) || w.Unlocking? || w.Dead?
  {
    if step.WriterStep? && step.t == t && step.choice.FillDone? {
      assert WriterInv(s, t, s.writers[t]);
      var w := s.writers[t];
      assert w.image[..|payload|] == payload[..|payload|];
      assert payload[..|payload|] == payload;
    }
  }

  lemma {:induction false} RunPublishes(
    states: seq<State>, steps: seq<Step>, i: nat, j: nat, t: nat, payload: seq<Byte>, timestamp: int)
    requires IsRun(states, steps) && i < j < |states| && steps[i] == WriterStep(t, Begin(Copy(payload), timestamp))
    requires forall k, job, time :: i < k < j ==> steps[k] != WriterStep(t, Begin(job, time))
    ensures t in states[j].writers
    ensures var w := states[j].writers[t]; Publishes(w, payload, timestamp) || w.Unlocking? || w.Dead? || w.Idle?
    decreases j
  {
    assert states[j - 1 + 1] == Next(states[j - 1], steps[j - 1]);
    if i + 1 < j {
      RunPublishes(states, steps, i, j - 1, t, payload, timestamp);
      RunKeepsInv(states, steps, j - 1);
      if Publishes(states[j - 1].writers[t], payload, timestamp) {
        StepPublishes(states[j - 1], steps[j - 1], t, payload, timestamp);
      }
    }
  }

  /** What a copying publish commits is what it was asked to: if it comes to advance
      write_seq, the message it commits under the next sequence has its payload and its
      timestamp, whoever runs in between. */
  lemma CommittedIsTheJob(
    states: seq<State>, steps: seq<Step>, i: nat, j: nat, t: nat, payload: seq<Byte>, timestamp: int)
    requires IsRun(states, steps) && i < j < |steps| && steps[i] == WriterStep(t, Begin(Copy(payload), timestamp))
    requires forall k, job, time :: i < k < j ==> steps[k] != WriterStep(t, Begin(job, time))
    requires t in states[j].writers && states[j].writers[t].SlotCommitted? && steps[j] == WriterStep(t, Proceed)
    ensures states[j + 1].log == states[j].log + [Message(|states[j].log| + 1, timestamp, payload)]
  {
    RunPublishes(states, steps, i, j, t, payload, timestamp);
    RunKeepsInv(states, steps, j);
    assert WriterInv(states[j], t, states[j].writers[t]);
    assert states[j + 1] == Next(states[j], steps[j]);
  }

  lemma RunStep(states: seq<State>, steps: seq<Step>, i: nat)
    requires IsRun(states, steps) && i < |steps|
    ensures Inv(states[i]) && Inv(states[i + 1]) && Evolves(states[i], states[i + 1])
  {
    RunKeepsInv(states, steps, i);
    StepKeepsInv(states[i], steps[i]);
  }

  /** What is committed under a sequence never changes afterwards. */
  lemma {:induction false} CommittedForGood(states: seq<State>, steps: seq<Step>, i: nat, j: nat)
    requires IsRun(states, steps) && i <= j < |states|
    ensures states[i].log <= states[j].log
  {
    if i < j {
      CommittedForGood(states, steps, i, j - 1);
      RunStep(states, steps, j - 1);
    }
  }

  /** Reader accounting under arbitrary writers: the cursor's advance since the
      reader joined is the messages delivered plus the drops reported (plus those of
      the call under way), and delivered sequences strictly increase. */
  lemma ReaderAccounting(states: seq<State>, steps: seq<Step>, i: nat, t: nat)
    requires IsRun(states, steps) && i < |states| && t in states[i].readers
    ensures var r := states[i].readers[t];
            && r.cursor - r.start == |r.delivered| + r.reported + r.dropped
            && (r.phase.Outside? ==> r.cursor - r.start == |r.delivered| + r.reported)
            && forall j, k :: 0 <= j < k < |r.delivered| ==> r.delivered[j].sequence < r.delivered[k].sequence
  {
    RunKeepsInv(states, steps, i);
    assert ReaderInv(states[i], states[i].readers[t]);
  }

  /** The cursor never retreats, and each load either leaves it alone, or moves it and
      accounts for the move. Each pass ends with the call returning or the cursor advanced. */
  lemma EachPassAdvances(s: State, r: Reader)
    requires Inv(s) && ReaderInv(s, r)
    ensures var r' := ReaderNext(s, r);
            && r'.cursor >= r.cursor
            && (r'.phase.AtNewest? && !r.phase.Outside? ==> r'.cursor > r.cursor)
            && r'.cursor - r.cursor
               == (|r'.delivered| - |r.delivered|) + (r'.reported - r.reported) + (r'.dropped - r.dropped)
  {
    ReaderNextOk(s, r);
  }

  /** No needless drop: while no publisher has begun to write the message one ring
      later, neither check of a pass gives the message up, and the last load delivers it. */
  lemma UnlappedIsNotDropped(s: State, r: Reader)
    requires Inv(s) && ReaderInv(s, r) && (r.phase.AtBefore? || r.phase.AtCopy?)
    requires s.writeSeq + 1 < r.cursor + |s.slots|
    ensures var r' := ReaderNext(s, r);
            && r'.dropped + r'.reported == r.dropped + r.reported
            && (r'.phase.Outside? ==> r'.delivered == r.delivered + [Entry(s.log, r.cursor)])
  {
    assert At(s.slots, r.cursor).word == r.cursor;
    assert Holds(At(s.slots, r.cursor), Entry(s.log, r.cursor));
    ReaderNextOk(s, r);
    var r' := ReaderNext(s, r);
    if r'.delivered != r.delivered {
      assert Delivered(s, r', r'.delivered[|r.delivered|]);
    }
  }

  /** Loads left in the pass a reader is in. */
  function PassRank(phase: Phase, payloadSize: nat): nat {
    match phase
    case Outside => 0
    case AtNewest(_) => payloadSize + 5
    case AtBefore(_) => payloadSize + 4
    case AtSize(_) => payloadSize + 3
    case AtTimestamp(_, _) => payloadSize + 2
    case AtCopy(_, size, _, copy) =>
      1 + (if |copy| <= size <= payloadSize then size - |copy| else 0)
  }

  function Passes(phase: Phase, ring: nat): nat {
    if phase.Outside? then 0 else if phase.pass < PassLimit(ring) then PassLimit(ring) - phase.pass else 0
  }

  function CallMeasure(s: State, r: Reader): nat {
    Times(Passes(r.phase, |s.slots|), s.payloadSize + 6) + PassRank(r.phase, s.payloadSize)
  }

  /** Whatever the writers do meanwhile, each load of a call brings it closer to returning. */
  lemma LoadMakesProgress(s: State, r: Reader)
    requires Shaped(s) && !r.phase.Outside? && r.phase.pass < PassLimit(|s.slots|)
    ensures CallMeasure(s, ReaderNext(s, r)) < CallMeasure(s, r)
  {
    var r' := ReaderNext(s, r);
    var p, p' := Passes(r.phase, |s.slots|), Passes(r'.phase, |s.slots|);
    if p' < p {
      TimesMonotone(p', p, s.payloadSize + 6);
    }
  }

  /** Only a reader's own loads move it. */
  lemma OthersLeaveReader(s: State, step: Step, t: nat)
    requires Shaped(s) && Enabled(s, step) && t in s.readers && step != ReaderStep(t)
    ensures t in Next(s, step).readers && Next(s, step).readers[t] == s.readers[t]
  {
  }

  lemma OwnLoadSpends(s: State, t: nat)
    requires Inv(s) && Enabled(s, ReaderStep(t)) && t in s.readers && !s.readers[t].phase.Outside?
    ensures var s' := Next(s, ReaderStep(t));
      t in s'.readers && CallMeasure(s', s'.readers[t]) + 1 <= CallMeasure(s, s.readers[t])
  {
    assert ReaderInv(s, s.readers[t]);
    LoadMakesProgress(s, s.readers[t]);
  }

  lemma StepSpendsBudget(s: State, step: Step, s': State, t: nat)
    requires Inv(s) && Enabled(s, step) && t in s.readers && !s.readers[t].phase.Outside?
    requires s' == Next(s, step) && |s'.slots| == |s.slots| && s'.payloadSize == s.payloadSize
    ensures t in s'.readers
    ensures CallMeasure(s', s'.readers[t]) + (if step == ReaderStep(t) then 1 else 0) <= CallMeasure(s, s.readers[t])
  {
    if step == ReaderStep(t) {
      OwnLoadSpends(s, t);
    } else {
      OthersLeaveReader(s, step, t);
    }
  }

  /** How many of `steps[i..j]` are loads of reader `t`. */
  function OwnLoads(steps: seq<Step>, t: nat, i: nat, j: nat): nat
    requires i <= j <= |steps|
    decreases j
  {
    if i == j then 0 else OwnLoads(steps, t, i, j - 1) + if steps[j - 1] == ReaderStep(t) then 1 else 0
  }

  lemma RunStepSpends(states: seq<State>, steps: seq<Step>, i: nat, t: nat)
    requires IsRun(states, steps) && i < |steps|
    requires t in states[i].readers && !states[i].readers[t].phase.Outside? && t in states[i + 1].readers
    ensures |states[i + 1].slots| == |states[i].slots| && states[i + 1].payloadSize == states[i].payloadSize
    ensures CallMeasure(states[i + 1], states[i + 1].readers[t]) + (if steps[i] == ReaderStep(t) then 1 else 0)
            <= CallMeasure(states[i], states[i].readers[t])
  {
    RunStep(states, steps, i);
    StepSpendsBudget(states[i], steps[i], states[i + 1], t);
  }

  /** Reads are wait-free: in every run, however the writers interfere, a call that is
      under way from state `i` to state `j` has used up that much of its budget; a whole
      call takes at most (ring + 16) * (payload + 6) + payload + 5 loads. */
  lemma {:induction false} ReadIsWaitFree(states: seq<State>, steps: seq<Step>, i: nat, j: nat, t: nat)
    requires IsRun(states, steps) && i <= j < |states|
    requires forall k :: i <= k <= j ==> t in states[k].readers && !states[k].readers[t].phase.Outside?
    ensures |states[j].slots| == |states[i].slots| && states[j].payloadSize == states[i].payloadSize
    ensures OwnLoads(steps, t, i, j) + CallMeasure(states[j], states[j].readers[t])
            <= CallMeasure(states[i], states[i].readers[t])
  {
    if i < j {
      ReadIsWaitFree(states, steps, i, j - 1, t);
      RunStepSpends(states, steps, j - 1, t);
    }
  }
}
