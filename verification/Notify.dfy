/** How a publish reaches a blocked reader: publishers commit and then bump a shared
    notify word; one dispatcher per process waits on that word and fans new sequences
    out to its readers; a blocking read waits for its reader's generation to change.
    Every lock-protected section and every atomic access is one step. */
module Notify {
  import opened Basics

  const WORD: nat := 0x1_0000_0000  // the notify word counts modulo 2^32

  /** The notify word after so many bumps. */
  function Word(bumps: nat): nat { Remainder(bumps, WORD) }

  /** The dispatcher, by what it does next. `observed` is the word it loaded; `at` the
      number of bumps there had been then (`Word(bumps)` is the word itself). */
  datatype Dispatcher =
    | Off                                            // no reader yet
    | AtLoadWord
    | AtLoadSequence(observed: nat, at: nat)
    | AtSnapshot(observed: nat, at: nat)             // new sequences: copy the reader list
    | AtFanout(observed: nat, at: nat, rest: seq<nat>)
    | AtWait(observed: nat, at: nat)
    | Blocked(observed: nat, at: nat, asleepAt: nat) // in the futex, since `asleepAt` bumps

  /** A blocking read. `Looking` holds the reader's mutex. */
  datatype Call = NotReading | Looking(observed: nat) | Parked(observed: nat)

  datatype Reader = Reader(cursor: nat, notified: nat, generation: nat, call: Call)

  /** `owed`: sequences whose publisher has committed and not yet bumped the word.
      `waking`: those whose publisher has bumped it and not yet issued the wake. A
      publisher that dies in between stays there. */
  datatype State = State(
    committed: nat, bumps: nat, owed: set<nat>, waking: set<nat>,
    dispatcher: Dispatcher, lastSeen: nat,
    readers: map<nat, Reader>, listed: seq<nat>)

  datatype Step =
    | Commit
    | Bump(sequence: nat)
    | Wake(sequence: nat)
    | LoadWord
    | LoadSequence
    | Snapshot
    | Fanout
    | Wait
    | Leave                              // timeout or spurious wakeup
    | Create(id: nat)
    | AddReader(id: nat)
    | BeginRead(id: nat)
    | Take(id: nat, cursor: nat)         // TryRead moved the cursor without a message
    | Deliver(id: nat, cursor: nat)      // TryRead returned a message
    | Park(id: nat)                      // nothing pending: wait for a new generation
    | Resume(id: nat)
    | GiveUp(id: nat)                    // the timeout of the read expired

  predicate ReaderMay(s: State, step: Step) {
    match step
    case Create(id) => id !in s.readers
    case AddReader(id) => id in s.readers && id !in s.listed
    case BeginRead(id) => id in s.listed && id in s.readers && s.readers[id].call.NotReading?
    case Take(id, cursor) =>
      id in s.readers && s.readers[id].call.Looking? && s.readers[id].cursor <= cursor <= s.committed + 1
    case Deliver(id, cursor) =>
      id in s.readers && s.readers[id].call.Looking? && s.readers[id].cursor < cursor <= s.committed + 1
    case Park(id) => id in s.readers && s.readers[id].call.Looking? && s.readers[id].cursor > s.committed
    case Resume(id) =>
      && id in s.readers && s.readers[id].call.Parked?
      && s.readers[id].generation != s.readers[id].call.observed
    case GiveUp(id) => id in s.readers && s.readers[id].call.Parked?
    case _ => false
  }

  predicate Enabled(s: State, step: Step) {
    match step
    case Commit => true
    case Bump(sequence) => sequence in s.owed
    case Wake(sequence) => sequence in s.waking
    case LoadWord => s.dispatcher.AtLoadWord?
    case LoadSequence => s.dispatcher.AtLoadSequence?
    case Snapshot => s.dispatcher.AtSnapshot?
    case Fanout =>
      && s.dispatcher.AtFanout?
      && (s.dispatcher.rest != [] ==>
            s.dispatcher.rest[0] in s.readers && !s.readers[s.dispatcher.rest[0]].call.Looking?)
    case Wait => s.dispatcher.AtWait?
    case Leave => s.dispatcher.Blocked?
    case _ => ReaderMay(s, step)
  }

  /** One reader's share of a fan-out of `newest`: announce it once. */
  function Announce(r: Reader, newest: nat): Reader {
    if newest <= r.notified then r else r.(notified := newest, generation := r.generation + 1)
  }

  function DispatcherNext(s: State, step: Step): State
    requires Enabled(s, step) && (step.LoadWord? || step.LoadSequence? || step.Snapshot? || step.Fanout? || step.Wait? || step.Leave?)
  {
    match step
    case LoadWord => s.(dispatcher := AtLoadSequence(Word(s.bumps), s.bumps))
    case LoadSequence =>
      var d := s.dispatcher;
      if s.committed != s.lastSeen then s.(lastSeen := s.committed, dispatcher := AtSnapshot(d.observed, d.at))
      else s.(dispatcher := AtWait(d.observed, d.at))
    case Snapshot => s.(dispatcher := AtFanout(s.dispatcher.observed, s.dispatcher.at, s.listed))
    case Fanout =>
      var d := s.dispatcher;
      if d.rest == [] then s.(dispatcher := AtWait(d.observed, d.at))
      else s.(dispatcher := d.(rest := d.rest[1..]),
              readers := s.readers[d.rest[0] := Announce(s.readers[d.rest[0]], s.lastSeen)])
    case Wait =>
      var d := s.dispatcher;
      if Word(s.bumps) != d.observed then s.(dispatcher := AtLoadWord)
      else s.(dispatcher := Blocked(d.observed, d.at, s.bumps))
    case Leave => s.(dispatcher := AtLoadWord)
  }

  function ReaderNext(s: State, step: Step): State
    requires ReaderMay(s, step)
  {
    match step
    case Create(id) => s.(readers := s.readers[id := Reader(s.committed + 1, s.committed, 0, NotReading)])
    case AddReader(id) =>
      s.(listed := s.listed + [id],
         dispatcher := if s.dispatcher.Off? then AtLoadWord else s.dispatcher,
         lastSeen := if s.dispatcher.Off? then s.committed else s.lastSeen)
    case BeginRead(id) => s.(readers := s.readers[id := s.readers[id].(call := Looking(s.readers[id].generation))])
    case Take(id, cursor) => s.(readers := s.readers[id := s.readers[id].(cursor := cursor)])
    case Deliver(id, cursor) => s.(readers := s.readers[id := s.readers[id].(cursor := cursor, call := NotReading)])
    case Park(id) => s.(readers := s.readers[id := s.readers[id].(call := Parked(s.readers[id].call.observed))])
    case Resume(id) => s.(readers := s.readers[id := s.readers[id].(call := Looking(s.readers[id].generation))])
    case GiveUp(id) => s.(readers := s.readers[id := s.readers[id].(call := NotReading)])
  }

  function Next(s: State, step: Step): State
    requires Enabled(s, step)
  {
    match step
    case Commit => s.(committed := s.committed + 1, owed := s.owed + {s.committed + 1})
    case Bump(sequence) => s.(bumps := s.bumps + 1, owed := s.owed - {sequence}, waking := s.waking + {sequence})
    case Wake(sequence) =>
      s.(waking := s.waking - {sequence}, dispatcher := if s.dispatcher.Blocked? then AtLoadWord else s.dispatcher)
    case LoadWord => DispatcherNext(s, step)
    case LoadSequence => DispatcherNext(s, step)
    case Snapshot => DispatcherNext(s, step)
    case Fanout => DispatcherNext(s, step)
    case Wait => DispatcherNext(s, step)
    case Leave => DispatcherNext(s, step)
    case _ => ReaderNext(s, step)
  }

  predicate Initial(s: State) {
    && s.owed == {} && s.waking == {} && s.dispatcher.Off? && s.readers == map[] && s.listed == []
    && s.lastSeen == 0
  }

  ghost predicate IsRun(states: seq<State>, steps: seq<Step>) {
    && |states| == |steps| + 1
    && Initial(states[0])
    && forall i {:trigger steps[i]} :: 0 <= i < |steps| ==> Enabled(states[i], steps[i]) && states[i + 1] == Next(states[i], steps[i])
  }

  // ---- the invariant ------------------------------------------------------------

  /** The dispatcher has looked at the sequence since it loaded the word. */
  predicate Looked(d: Dispatcher) {
    d.AtSnapshot? || d.AtFanout? || d.AtWait? || d.Blocked?
  }

  /** What was committed after the dispatcher looked is owed, unless the word moved. */
  ghost predicate WordInv(s: State) {
    && s.lastSeen <= s.committed
    && (s.dispatcher.AtLoadSequence? ==> s.dispatcher.at <= s.bumps && s.dispatcher.observed == Word(s.dispatcher.at))
    && (Looked(s.dispatcher) ==>
          && s.dispatcher.at <= s.bumps
          && s.dispatcher.observed == Word(s.dispatcher.at)
          && (s.bumps == s.dispatcher.at ==>
                forall q :: s.lastSeen < q <= s.committed ==> q in s.owed))
    && (s.dispatcher.Blocked? ==>
          && s.dispatcher.at <= s.dispatcher.asleepAt <= s.bumps
          && Word(s.dispatcher.asleepAt) == s.dispatcher.observed
          && (s.bumps > s.dispatcher.asleepAt ==> s.waking != {}))
  }

  /** The dispatcher will still get to reader `id` in the fan-out under way. */
  predicate Reaches(d: Dispatcher, id: nat) {
    d.AtSnapshot? || (d.AtFanout? && id in d.rest)
  }

  /** A read that is parked and has not been woken. */
  predicate Asleep(r: Reader) {
    r.call.Parked? && r.generation == r.call.observed
  }

  ghost predicate ReaderInv(s: State, id: nat, r: Reader) {
    && r.notified <= s.committed
    && (r.call.Looking? ==> r.generation == r.call.observed)
    && (r.call.Parked? ==> r.generation >= r.call.observed)
    && (!r.call.NotReading? ==> id in s.listed)
    && (Asleep(r) ==> r.notified < r.cursor && (s.lastSeen < r.cursor || Reaches(s.dispatcher, id)))
  }

  ghost predicate Inv(s: State) {
    && WordInv(s)
    && (s.dispatcher.Off? ==> s.listed == [])
    && (forall id :: id in s.listed ==> id in s.readers)
    && (s.dispatcher.AtFanout? ==> forall id :: id in s.dispatcher.rest ==> id in s.readers)
    && (forall id :: id in s.readers ==> ReaderInv(s, id, s.readers[id]))
  }

  lemma PublisherStepKeepsInv(s: State, step: Step)
    requires Inv(s) && Enabled(s, step) && (step.Commit? || step.Bump? || step.Wake?)
    ensures Inv(Next(s, step))
  {
    var s' := Next(s, step);
    if step.Bump? {
      assert step.sequence in s'.waking;
    }
    forall id | id in s'.readers ensures ReaderInv(s', id, s'.readers[id]) {
      assert ReaderInv(s, id, s.readers[id]);
    }
  }

  lemma DispatcherStepKeepsInv(s: State, step: Step)
    requires Inv(s) && Enabled(s, step) && !step.Fanout?
    requires step.LoadWord? || step.LoadSequence? || step.Snapshot? || step.Wait? || step.Leave?
    ensures Inv(Next(s, step))
  {
    var s' := Next(s, step);
    forall id | id in s'.readers ensures ReaderInv(s', id, s'.readers[id]) {
      assert ReaderInv(s, id, s.readers[id]);
    }
  }

  lemma FanoutKeepsInv(s: State)
    requires Inv(s) && Enabled(s, Fanout)
    ensures Inv(Next(s, Fanout))
  {
    var s' := Next(s, Fanout);
    var rest := s.dispatcher.rest;
    forall id | id in s'.readers ensures ReaderInv(s', id, s'.readers[id]) {
      assert ReaderInv(s, id, s.readers[id]);
      if rest != [] && id != rest[0] {
        assert id in rest ==> id in rest[1..];
      }
    }
  }

  lemma ReaderStepKeepsInv(s: State, step: Step)
    requires Inv(s) && ReaderMay(s, step)
    ensures Inv(ReaderNext(s, step))
  {
    var s' := ReaderNext(s, step);
    forall id | id in s'.readers ensures ReaderInv(s', id, s'.readers[id]) {
      if id in s.readers {
        assert ReaderInv(s, id, s.readers[id]);
      }
    }
  }

  lemma StepKeepsInv(s: State, step: Step)
    requires Inv(s) && Enabled(s, step)
    ensures Inv(Next(s, step))
  {
    if step.Commit? || step.Bump? || step.Wake? {
      PublisherStepKeepsInv(s, step);
    } else if step.Fanout? {
      FanoutKeepsInv(s);
    } else if step.LoadWord? || step.LoadSequence? || step.Snapshot? || step.Wait? || step.Leave? {
      DispatcherStepKeepsInv(s, step);
    } else {
      ReaderStepKeepsInv(s, step);
    }
  }

  lemma {:induction false} RunKeepsInv(states: seq<State>, steps: seq<Step>, i: nat)
    requires IsRun(states, steps) && i < |states|
    ensures Inv(states[i])
  {
    if i > 0 {
      RunKeepsInv(states, steps, i - 1);
      StepKeepsInv(states[i - 1], steps[i - 1]);
    }
  }

  // ---- no lost wakeup -----------------------------------------------------------

  /** The counter has not gone all the way round since `at`, so an equal word means no bump. */
  lemma SameWordSameCount(at: nat, now: nat)
    requires at <= now < at + WORD && Word(at) == Word(now)
    ensures at == now
  {
    if at < now { RemaindersDiffer(at, now, WORD); }
  }

  /** First layer: while the dispatcher is blocked and the word still has the value it
      observed, every committed sequence it has not seen belongs to a publisher that
      has not bumped the word yet. */
  lemma BlockedMissesOnlyOwed(states: seq<State>, steps: seq<Step>, i: nat, sequence: nat)
    requires IsRun(states, steps) && i < |states|
    requires states[i].dispatcher.Blocked?
    requires Word(states[i].bumps) == states[i].dispatcher.observed
    requires states[i].bumps < states[i].dispatcher.at + WORD
    requires states[i].lastSeen < sequence <= states[i].committed
    ensures sequence in states[i].owed
  {
    RunKeepsInv(states, steps, i);
    SameWordSameCount(states[i].dispatcher.at, states[i].bumps);
  }

  /** If the word has moved since the dispatcher went to sleep, a wake is on its way. */
  lemma BlockedWithMovedWordIsBeingWoken(states: seq<State>, steps: seq<Step>, i: nat)
    requires IsRun(states, steps) && i < |states|
    requires states[i].dispatcher.Blocked? && Word(states[i].bumps) != states[i].dispatcher.observed
    ensures states[i].waking != {}
  {
    RunKeepsInv(states, steps, i);
  }

  /** Second layer: a blocking read that sleeps on unread data is one that the dispatcher
      has not yet fanned the newest sequence out to. */
  lemma AsleepMeansNotFannedOut(states: seq<State>, steps: seq<Step>, i: nat, id: nat)
    requires IsRun(states, steps) && i < |states| && id in states[i].readers
    requires Asleep(states[i].readers[id]) && states[i].readers[id].cursor <= states[i].committed
    ensures states[i].readers[id].notified < states[i].committed
    ensures states[i].lastSeen < states[i].committed || Reaches(states[i].dispatcher, id)
  {
    RunKeepsInv(states, steps, i);
    assert ReaderInv(states[i], id, states[i].readers[id]);
  }

  /** Both layers: when dispatcher and reader sleep although there is unread data, every
      unread message is one whose publisher still has to bump the word or issue the wake. */
  lemma SleepersAreOwedAWakeup(states: seq<State>, steps: seq<Step>, i: nat, id: nat, sequence: nat)
    requires IsRun(states, steps) && i < |states| && id in states[i].readers
    requires states[i].dispatcher.Blocked? && states[i].bumps < states[i].dispatcher.at + WORD
    requires Asleep(states[i].readers[id])
    requires states[i].readers[id].cursor <= sequence <= states[i].committed
    ensures sequence in states[i].owed || states[i].waking != {}
  {
    RunKeepsInv(states, steps, i);
    var s := states[i];
    assert ReaderInv(s, id, s.readers[id]);
    if s.bumps == s.dispatcher.asleepAt {
      SameWordSameCount(s.dispatcher.at, s.bumps);
    }
  }

  /** Hence nobody sleeps on data once the publishers are done. */
  lemma QuiescentMeansNobodySleepsOnData(states: seq<State>, steps: seq<Step>, i: nat, id: nat)
    requires IsRun(states, steps) && i < |states| && id in states[i].readers
    requires states[i].dispatcher.Blocked? && states[i].bumps < states[i].dispatcher.at + WORD
    requires states[i].owed == {} && states[i].waking == {}
    ensures Asleep(states[i].readers[id]) ==> states[i].readers[id].cursor > states[i].committed
  {
    var r := states[i].readers[id];
    if Asleep(r) && r.cursor <= states[i].committed {
      SleepersAreOwedAWakeup(states, steps, i, id, r.cursor);
    }
  }
}
