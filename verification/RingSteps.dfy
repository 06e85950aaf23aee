/** The step machine of the ring and the ring as an object agree: a TryRead that nothing
    interrupts returns what the object's TryRead returns, in any reachable state, also amid
    or after a publish that failed or whose writer died at any store
    (src/transport/shm/segment.cpp:348-398). */
module RingSteps {
  import opened Options
  import opened Bytes
  import opened Seqlock
  import Ring

  /** The rest of a call that nothing interrupts. */
  function Rest(s: State, r: Reader): (r': Reader)
    requires Shaped(s) && (!r.phase.Outside? ==> r.phase.pass < PassLimit(|s.slots|))
    ensures r'.phase.Outside?
    decreases CallMeasure(s, r)
  {
    if r.phase.Outside? then r
    else
      LoadMakesProgress(s, r);
      Rest(s, ReaderNext(s, r))
  }

  /** A whole call. */
  function Call(s: State, r: Reader): Reader
    requires Shaped(s) && r.phase.Outside?
  {
    Rest(s, ReaderNext(s, r))
  }

  /** The slot of the next sequence does not hold the message of a ring ago any more: a
      publish has marked it, and failed, died or not yet committed since. */
  predicate Torn(s: State)
    requires |s.slots| > 0
  {
    var c := s.writeSeq + 1 - |s.slots|;
    c >= 1 && At(s.slots, c).word != c
  }

  /** Within the reader's depth, a slot carries its sequence unless the message is lost. */
  lemma CarriesUnlessLost(s: State, c: nat)
    requires RingInv(s) && 1 <= c <= s.writeSeq < c + |s.slots|
    ensures At(s.slots, c).word == c <==> !Ring.Lost(s.log, Torn(s), |s.slots|, c)
  {
  }

  /** From its mark on, a publish has torn the message of a ring ago, at whichever of its
      stores it may die, the one before write_seq included. */
  lemma MarkedIsTorn(s: State, t: nat)
    requires Inv(s) && t in s.writers
    requires var w := s.writers[t]; w.Filling? || w.Filled? || w.Sized? || w.Stamped? || w.SlotCommitted?
    ensures Torn(s) <==> s.writeSeq + 1 > |s.slots|
    ensures Torn(Next(s, WriterStep(t, Crash))) <==> Torn(s)
    ensures Next(s, WriterStep(t, Crash)).log == s.log
  {
    assert WriterInv(s, t, s.writers[t]);
  }

  /** The copy loop and the second look at the word. */
  lemma {:induction false} CopiesAlone(s: State, r: Reader)
    requires RingInv(s) && CopyInv(s, r) && r.phase.AtCopy? && At(s.slots, r.cursor).word == r.cursor
    ensures Rest(s, r) == Return(r.(cursor := r.cursor + 1, delivered := r.delivered + [Entry(s.log, r.cursor)]))
    decreases r.phase.size - |r.phase.copy|
  {
    var m := Entry(s.log, r.cursor);
    assert Holds(At(s.slots, r.cursor), m);
    if |r.phase.copy| < r.phase.size {
      var r' := ReaderNext(s, r);
      assert r'.phase.copy == m.payload[..|r'.phase.copy|];
      CopiesAlone(s, r');
    } else {
      assert m.payload[..|m.payload|] == m.payload;
    }
  }

  /** From a slot that carries its sequence, the message is delivered. */
  lemma DeliversAlone(s: State, r: Reader)
    requires RingInv(s) && CopyInv(s, r) && r.phase.AtBefore? && At(s.slots, r.cursor).word == r.cursor
    ensures Rest(s, r) == Return(r.(cursor := r.cursor + 1, delivered := r.delivered + [Entry(s.log, r.cursor)]))
  {
    var r1 := ReaderNext(s, r);
    var r2 := ReaderNext(s, r1);
    var r3 := ReaderNext(s, r2);
    assert Holds(At(s.slots, r.cursor), Entry(s.log, r.cursor));
    assert Rest(s, r) == Rest(s, r1) == Rest(s, r2) == Rest(s, r3);
    CopiesAlone(s, r3);
  }

  /** A pass that begins at an intact message, or behind the newest. */
  lemma PassesAlone(s: State, r: Reader)
    requires RingInv(s) && r.phase.AtNewest? && r.phase.pass < PassLimit(|s.slots|) && r.cursor >= 1
    requires var c := ClampCursor(r.cursor, s.writeSeq, EffectiveDepth(r.depth, |s.slots|));
      r.cursor <= s.writeSeq ==> !Ring.Lost(s.log, Torn(s), |s.slots|, c)
    ensures var c := ClampCursor(r.cursor, s.writeSeq, EffectiveDepth(r.depth, |s.slots|));
      Rest(s, r) == if r.cursor > s.writeSeq then Return(r)
        else Return(r.(cursor := c + 1, dropped := r.dropped + c - r.cursor, delivered := r.delivered + [Entry(s.log, c)]))
  {
    if r.cursor <= s.writeSeq {
      var r1 := ReaderNext(s, r);
      CarriesUnlessLost(s, r1.cursor);
      DeliversAlone(s, r1);
      assert Rest(s, r) == Rest(s, r1);
    } else {
      assert Rest(s, r) == Rest(s, Return(r));
    }
  }

  /** A pass that finds its message lost: the next one begins behind it. */
  lemma DropsAlone(s: State, r: Reader)
    requires RingInv(s) && r.phase == AtNewest(0) && 1 <= r.cursor <= s.writeSeq
    requires var c := ClampCursor(r.cursor, s.writeSeq, EffectiveDepth(r.depth, |s.slots|));
      Ring.Lost(s.log, Torn(s), |s.slots|, c)
    ensures var c := ClampCursor(r.cursor, s.writeSeq, EffectiveDepth(r.depth, |s.slots|));
      Rest(s, r) == Rest(s, r.(cursor := c + 1, dropped := r.dropped + c + 1 - r.cursor, phase := AtNewest(1)))
  {
    var r1 := ReaderNext(s, r);
    CarriesUnlessLost(s, r1.cursor);
    var r2 := ReaderNext(s, r1);
    assert r2 == Drop(r1, 0, |s.slots|);
    assert Rest(s, r) == Rest(s, r1) == Rest(s, r2);
  }

  /** A call that nothing interrupts does what the object's TryRead does. */
  lemma CallIsTryRead(s: State, r: Reader)
    requires RingInv(s) && r.phase.Outside? && r.dropped == 0 && r.cursor >= 1
    ensures var read := Ring.Read(s.log, Torn(s), |s.slots|, r.cursor, r.depth);
      Call(s, r) == r.(cursor := read.cursor, reported := r.reported + read.dropped,
                       delivered := r.delivered + if read.message.Some? then [read.message.value] else [])
  {
    var r0 := ReaderNext(s, r);
    var c := ClampCursor(r.cursor, s.writeSeq, EffectiveDepth(r.depth, |s.slots|));
    if r.cursor <= s.writeSeq && Ring.Lost(s.log, Torn(s), |s.slots|, c) {
      DropsAlone(s, r0);
      PassesAlone(s, r0.(cursor := c + 1, dropped := c + 1 - r.cursor, phase := AtNewest(1)));
    } else {
      PassesAlone(s, r0);
    }
    assert r.delivered + [] == r.delivered;
  }

  // ---- in a run ----------------------------------------------------------------------

  /** Other readers do not matter to a call. */
  lemma {:induction false} SameMemory(s: State, readers: map<nat, Reader>, r: Reader)
    requires Shaped(s) && (!r.phase.Outside? ==> r.phase.pass < PassLimit(|s.slots|))
    ensures Rest(s.(readers := readers), r) == Rest(s, r)
    decreases CallMeasure(s, r)
  {
    if !r.phase.Outside? {
      LoadMakesProgress(s, r);
      SameMemory(s, readers, ReaderNext(s, r));
    }
  }

  /** Only reader `t` moves from state `i` to state `j`, and it is inside one call. */
  ghost predicate OneCall(states: seq<State>, steps: seq<Step>, i: nat, j: nat, t: nat)
    requires |states| == |steps| + 1 && i < j <= |steps|
  {
    && (forall k :: i <= k < j ==> steps[k] == ReaderStep(t))
    && t in states[i].readers && states[i].readers[t].phase.Outside?
    && (forall k :: i < k < j ==> t in states[k].readers && !states[k].readers[t].phase.Outside?)
  }

  lemma SameLoad(s: State, readers: map<nat, Reader>, r: Reader)
    requires Shaped(s)
    ensures ReaderNext(s.(readers := readers), r) == ReaderNext(s, r)
  {
  }

  lemma {:induction false} RestGoesOn(s: State, r: Reader)
    requires Shaped(s) && !r.phase.Outside? && r.phase.pass < PassLimit(|s.slots|)
    ensures Rest(s, ReaderNext(s, r)) == Rest(s, r)
  {
  }

  lemma PassesAreFew(s: State, t: nat)
    requires Inv(s) && t in s.readers && !s.readers[t].phase.Outside?
    ensures s.readers[t].phase.pass < PassLimit(|s.slots|)
  {
    assert ReaderInv(s, s.readers[t]);
  }

  /** One more load, in a state that differs from `s` in this reader alone. */
  lemma {:induction false} OneLoad(s: State, now: State, t: nat)
    requires Shaped(s) && t in now.readers && now == s.(readers := s.readers[t := now.readers[t]])
    ensures var next := Next(now, ReaderStep(t));
      next == s.(readers := s.readers[t := ReaderNext(s, now.readers[t])])
  {
    SameLoad(s, now.readers, now.readers[t]);
    assert s.(readers := now.readers) == now;
  }

  lemma {:induction false} InsideTheCall(states: seq<State>, steps: seq<Step>, i: nat, j: nat, t: nat)
    requires IsRun(states, steps) && i < j <= |steps| && OneCall(states, steps, i, j, t)
    ensures Shaped(states[i]) && t in states[j].readers
    ensures states[j] == states[i].(readers := states[i].readers[t := states[j].readers[t]])
    ensures var r := states[j].readers[t];
      (!r.phase.Outside? ==> r.phase.pass < PassLimit(|states[i].slots|))
      && Rest(states[i], r) == Call(states[i], states[i].readers[t])
    decreases j
  {
    assert steps[j - 1] == ReaderStep(t);
    assert states[j - 1 + 1] == Next(states[j - 1], ReaderStep(t));
    assert steps[i] == ReaderStep(t);
    if i + 1 < j {
      InsideTheCall(states, steps, i, j - 1, t);
      RestGoesOn(states[i], states[j - 1].readers[t]);
    }
    OneLoad(states[i], states[j - 1], t);
    RunKeepsInv(states, steps, j);
    if !states[j].readers[t].phase.Outside? { PassesAreFew(states[j], t); }
  }

  /** In every run, a TryRead during which nobody else takes a step returns what the object's
      TryRead returns: same message, same drops, same cursor. */
  lemma UninterruptedCallIsTryRead(states: seq<State>, steps: seq<Step>, i: nat, j: nat, t: nat)
    requires IsRun(states, steps) && i < j <= |steps| && OneCall(states, steps, i, j, t)
    requires t in states[j].readers && states[j].readers[t].phase.Outside?
    ensures var s, r := states[i], states[i].readers[t];
      && |s.slots| > 0 && r.cursor >= 1
      && var read := Ring.Read(s.log, Torn(s), |s.slots|, r.cursor, r.depth);
      states[j].readers[t] == r.(cursor := read.cursor, reported := r.reported + read.dropped,
                                 delivered := r.delivered + if read.message.Some? then [read.message.value] else [])
  {
    InsideTheCall(states, steps, i, j, t);
    RunKeepsInv(states, steps, i);
    assert ReaderInv(states[i], states[i].readers[t]);
    CallIsTryRead(states[i], states[i].readers[t]);
  }

  // ---- a publish alone -----------------------------------------------------------------

  /** Writer `t` can take the state from `s` to `s'` by steps of its own. */
  ghost predicate Alone(s: State, steps: seq<Step>, t: nat, s': State)
    decreases |steps|
  {
    if steps == [] then s == s'
    else
      && Shaped(s) && steps[0].WriterStep? && steps[0].t == t && Enabled(s, steps[0])
      && Alone(Next(s, steps[0]), steps[1..], t, s')
  }

  ghost predicate Gets(s: State, t: nat, s': State) {
    exists steps :: Alone(s, steps, t, s')
  }

  lemma {:induction false} AloneOn(s: State, steps: seq<Step>, t: nat, s': State, choice: Choice)
    requires Alone(s, steps, t, s') && Shaped(s') && Enabled(s', WriterStep(t, choice))
    ensures Alone(s, steps + [WriterStep(t, choice)], t, Next(s', WriterStep(t, choice)))
    decreases |steps|
  {
    var step := WriterStep(t, choice);
    if steps == [] {
      assert [] + [step] == [step] && [step][1..] == [];
      assert Alone(Next(s, step), [], t, Next(s', step));
    } else {
      AloneOn(Next(s, steps[0]), steps[1..], t, s', choice);
      assert (steps + [step])[0] == steps[0] && (steps + [step])[1..] == steps[1..] + [step];
    }
  }

  /** One more step of the publish, which keeps the invariant. */
  lemma GetsOn(s: State, t: nat, s': State, choice: Choice) returns (next: State)
    requires Gets(s, t, s') && Inv(s') && Enabled(s', WriterStep(t, choice))
    ensures Gets(s, t, next) && Inv(next) && next == Next(s', WriterStep(t, choice))
  {
    var steps :| Alone(s, steps, t, s');
    AloneOn(s, steps, t, s', choice);
    StepKeepsInv(s', WriterStep(t, choice));
    next := Next(s', WriterStep(t, choice));
  }

  /** The copy into the slot. */
  lemma {:induction false} FillsAlone(s: State, t: nat, s0: State, payload: seq<Byte>) returns (s': State)
    requires Gets(s, t, s0) && Inv(s0) && t in s0.writers && s0.writers[t].Filling?
    requires s0.writers[t].job == Copy(payload) && |payload| <= s0.payloadSize
    ensures Gets(s, t, s') && Inv(s') && t in s'.writers
    ensures s'.writers[t] == Filled(s0.writers[t].timestamp, s0.writers[t].sequence, payload)
    ensures s'.log == s0.log && s'.writeSeq == s0.writeSeq
    decreases |payload| - s0.writers[t].copied
  {
    var w := s0.writers[t];
    assert WriterInv(s0, t, w);
    if w.copied < |payload| {
      s' := GetsOn(s, t, s0, PutByte(w.copied, payload[w.copied]));
      s' := FillsAlone(s, t, s', payload);
    } else {
      s' := GetsOn(s, t, s0, FillDone(|payload|));
      assert w.image[..|payload|] == payload[..|payload|] == payload;
    }
  }

  /** The writer one store further. */
  function Further(w: Writer): Writer
    requires w.Filled? || w.Sized? || w.Stamped?
  {
    match w
    case Filled(timestamp, sequence, body) => Sized(timestamp, sequence, body)
    case Sized(timestamp, sequence, body) => Stamped(timestamp, sequence, body)
    case Stamped(timestamp, sequence, body) => SlotCommitted(timestamp, sequence, body)
  }

  lemma StoresAlone(s: State, t: nat, s0: State) returns (s': State)
    requires Gets(s, t, s0) && Inv(s0) && t in s0.writers
    requires var w := s0.writers[t]; w.Filled? || w.Sized? || w.Stamped?
    ensures Gets(s, t, s') && Inv(s') && t in s'.writers && s'.writers[t] == Further(s0.writers[t])
    ensures s'.log == s0.log
  {
    s' := GetsOn(s, t, s0, Proceed);
  }

  lemma AdvancesAlone(s: State, t: nat, s0: State) returns (s': State)
    requires Gets(s, t, s0) && Inv(s0) && t in s0.writers && s0.writers[t].SlotCommitted?
    ensures Gets(s, t, s') && Inv(s') && t in s'.writers && s'.writers[t].Unlocking?
    ensures var w := s0.writers[t]; s'.log == s0.log + [Message(w.sequence, w.timestamp, w.body)]
  {
    s' := GetsOn(s, t, s0, Proceed);
  }

  lemma UnlocksAlone(s: State, t: nat, s0: State) returns (s': State)
    requires Gets(s, t, s0) && Inv(s0) && t in s0.writers && s0.writers[t].Unlocking?
    ensures Gets(s, t, s') && Inv(s') && s'.lock.None? && s'.log == s0.log
  {
    s' := GetsOn(s, t, s0, Proceed);
  }

  lemma LocksAlone(s: State, t: nat, job: Job, timestamp: int) returns (s': State)
    requires Inv(s) && t in s.writers && s.writers[t].Idle? && s.lock.None? && Capacity(job) <= s.payloadSize
    ensures Gets(s, t, s') && Inv(s') && t in s'.writers && s'.writers[t] == Locked(job, timestamp)
    ensures s'.log == s.log && s'.writeSeq == s.writeSeq && s'.payloadSize == s.payloadSize
  {
    assert Alone(s, [], t, s);
    s' := GetsOn(s, t, s, Begin(job, timestamp));
  }

  lemma MarksAlone(s: State, t: nat, s0: State) returns (s': State)
    requires Gets(s, t, s0) && Inv(s0) && t in s0.writers && s0.writers[t].Loaded?
    ensures Gets(s, t, s') && Inv(s') && t in s'.writers && s'.writers[t].Filling?
    ensures var w, w' := s0.writers[t], s'.writers[t];
      w'.job == w.job && w'.timestamp == w.timestamp && w'.sequence == w.sequence
    ensures s'.log == s0.log && s'.payloadSize == s0.payloadSize
  {
    s' := GetsOn(s, t, s0, Proceed);
  }

  lemma LoadsAlone(s: State, t: nat, s0: State) returns (s': State)
    requires Gets(s, t, s0) && Inv(s0) && t in s0.writers && s0.writers[t].Locked? && s0.writeSeq + 1 < WRITING_BIT
    ensures Gets(s, t, s') && Inv(s') && t in s'.writers
    ensures s'.writers[t] == Loaded(s0.writers[t].job, s0.writers[t].timestamp, s0.writeSeq + 1)
    ensures s'.log == s0.log && s'.payloadSize == s0.payloadSize
  {
    s' := GetsOn(s, t, s0, Proceed);
  }

  /** From taking the lock to the mark on the slot. */
  lemma ReadiesAlone(s: State, t: nat, job: Job, timestamp: int) returns (s': State)
    requires Inv(s) && t in s.writers && s.writers[t].Idle? && s.lock.None?
    requires Capacity(job) <= s.payloadSize && s.writeSeq + 1 < WRITING_BIT
    ensures Gets(s, t, s') && Inv(s') && t in s'.writers && s'.writers[t].Filling?
    ensures var w := s'.writers[t]; w.job == job && w.timestamp == timestamp && w.sequence == s.writeSeq + 1
    ensures s'.log == s.log && s'.payloadSize == s.payloadSize
  {
    s' := LocksAlone(s, t, job, timestamp);
    s' := LoadsAlone(s, t, s');
    s' := MarksAlone(s, t, s');
  }

  /** From the filled slot to its sequence. */
  lemma SlotCommitsAlone(s: State, t: nat, s0: State) returns (s': State)
    requires Gets(s, t, s0) && Inv(s0) && t in s0.writers && s0.writers[t].Filled?
    ensures Gets(s, t, s') && Inv(s') && t in s'.writers && s'.log == s0.log
    ensures var w := s0.writers[t]; s'.writers[t] == SlotCommitted(w.timestamp, w.sequence, w.body)
  {
    s' := StoresAlone(s, t, s0);
    s' := StoresAlone(s, t, s');
    s' := StoresAlone(s, t, s');
  }

  /** From every reachable state with the lock free, a publish that nothing interrupts commits
      what the object's Publish commits. */
  lemma PublishAloneIsPublish(s: State, t: nat, payload: seq<Byte>, timestamp: int) returns (s': State)
    requires Inv(s) && t in s.writers && s.writers[t].Idle? && s.lock.None?
    requires |payload| <= s.payloadSize && s.writeSeq + 1 < WRITING_BIT
    ensures Gets(s, t, s') && Inv(s') && s'.lock.None?
    ensures s'.log == s.log + [Message(|s.log| + 1, timestamp, payload)]
  {
    s' := ReadiesAlone(s, t, Copy(payload), timestamp);
    s' := FillsAlone(s, t, s', payload);
    s' := SlotCommitsAlone(s, t, s');
    s' := AdvancesAlone(s, t, s');
    s' := UnlocksAlone(s, t, s');
  }
}
