/** The participant table of a shared segment: entries claimed and freed by
    compare-and-swap on a word that packs a 2-bit kind with a 30-bit generation. One
    atomic access per step, any number of participants in any number of processes,
    and a process may die at any point. */
module Participants {
  import opened Basics
  import opened Options

  const FREE: nat := 0
  const CLAIMING: nat := 1
  const ACTIVE: nat := 2
  const WORDS: nat := 0x1_0000_0000
  const GENERATIONS: nat := 0x4000_0000

  function Kind(word: nat): nat { word % 4 }

  function Generation(word: nat): nat { word - word % 4 }

  function NextGeneration(word: nat): nat { (Generation(word) + 4) % WORDS }

  /** A process is known by its pid, never 0, and its start time. */
  datatype Process = Process(pid: nat, startTime: nat)

  /** `claims` and `owner` are the entry's history: how often it has been claimed, and
      the participant whose claim has not been undone yet. */
  datatype Entry = Entry(word: nat, pid: nat, startTime: nat, claims: nat, owner: Option<nat>)

  /** A participant, by the access it makes next. `seen` is a state word it loaded; for
      a reclaim, `claims` is how often the entry had been claimed then. */
  datatype Phase =
    | Idle
    | ClaimSwap(index: nat, seen: nat)
    | ClaimPid(index: nat)
    | ClaimStart(index: nat)
    | ClaimActivate(index: nat)
    | Holding(index: nat)
    | ReleasePid(index: nat, seen: nat)
    | ReleaseStart(index: nat, seen: nat)
    | ReleaseState(index: nat, seen: nat)
    | ReclaimPid(index: nat, seen: nat, claims: nat)
    | ReclaimStart(index: nat, seen: nat, claims: nat, pid: nat)
    | ReclaimSwap(index: nat, seen: nat, claims: nat, pid: nat, startTime: nat)
    | Dead

  datatype Participant = Participant(process: Process, phase: Phase)

  datatype State = State(entries: seq<Entry>, participants: map<nat, Participant>, alive: set<Process>)

  datatype Step =
    | Join(id: nat, process: Process)
    | LookAt(id: nat, index: nat)      // load a state word: claim it if free, examine it if active
    | Release(id: nat)                 // load the state word of the entry held
    | Proceed(id: nat)                 // the access the phase says
    | Spare(id: nat)                   // the examined process is reported alive
    | Die(process: Process)

  /** What IsProcessAlive answers for an identity of a running process, or of one whose
      start time is unknown. It may also answer so for others; never the reverse. */
  predicate SeemsAlive(alive: set<Process>, pid: nat, startTime: nat) {
    pid != 0 && exists p :: p in alive && p.pid == pid && (startTime == 0 || p.startTime == startTime)
  }

  predicate InTable(s: State, phase: Phase) {
    phase.Idle? || phase.Dead? || phase.index < |s.entries|
  }

  predicate Enabled(s: State, step: Step) {
    match step
    case Join(id, process) => id !in s.participants && process.pid != 0 && process in s.alive
    case LookAt(id, index) => id in s.participants && s.participants[id].phase.Idle? && index < |s.entries|
    case Release(id) =>
      id in s.participants && s.participants[id].phase.Holding? && InTable(s, s.participants[id].phase)
    case Proceed(id) =>
      && id in s.participants && InTable(s, s.participants[id].phase)
      && var phase := s.participants[id].phase;
      && !phase.Idle? && !phase.Dead? && !phase.Holding?
      && (phase.ReclaimSwap? ==> !SeemsAlive(s.alive, phase.pid, phase.startTime))
    case Spare(id) => id in s.participants && s.participants[id].phase.ReclaimSwap?
    case Die(process) => process in s.alive
  }

  function To(s: State, id: nat, phase: Phase): State
    requires id in s.participants
  {
    s.(participants := s.participants[id := s.participants[id].(phase := phase)])
  }

  function Put(s: State, index: nat, entry: Entry): State
    requires index < |s.entries|
  {
    s.(entries := s.entries[index := entry])
  }

  function LookedAt(s: State, id: nat, index: nat): State
    requires Enabled(s, LookAt(id, index))
  {
    var word := s.entries[index].word;
    if Kind(word) == FREE then To(s, id, ClaimSwap(index, word))
    else if Kind(word) == ACTIVE then To(s, id, ReclaimPid(index, word, s.entries[index].claims))
    else s
  }

  function Proceeded(s: State, id: nat): State
    requires Enabled(s, Proceed(id))
  {
    var me := s.participants[id];
    var e := s.entries[me.phase.index];
    match me.phase
    case ClaimSwap(i, seen) =>
      if e.word != seen then To(s, id, Idle)
      else To(Put(s, i, e.(word := NextGeneration(seen) + CLAIMING, claims := e.claims + 1, owner := Some(id))), id, ClaimPid(i))
    case ClaimPid(i) => To(Put(s, i, e.(pid := me.process.pid)), id, ClaimStart(i))
    case ClaimStart(i) => To(Put(s, i, e.(startTime := me.process.startTime)), id, ClaimActivate(i))
    case ClaimActivate(i) => To(Put(s, i, e.(word := Generation(e.word) + ACTIVE)), id, Holding(i))
    case ReleasePid(i, seen) => To(Put(s, i, e.(pid := 0)), id, ReleaseStart(i, seen))
    case ReleaseStart(i, seen) => To(Put(s, i, e.(startTime := 0)), id, ReleaseState(i, seen))
    case ReleaseState(i, seen) => To(Put(s, i, e.(word := Generation(seen) + FREE, owner := None)), id, Idle)
    case ReclaimPid(i, seen, claims) => To(s, id, ReclaimStart(i, seen, claims, e.pid))
    case ReclaimStart(i, seen, claims, pid) => To(s, id, ReclaimSwap(i, seen, claims, pid, e.startTime))
    case ReclaimSwap(i, seen, claims, pid, startTime) =>
      if e.word != seen then To(s, id, Idle)
      else To(Put(s, i, e.(word := Generation(seen) + FREE, owner := None)), id, Idle)
  }

  function Next(s: State, step: Step): State
    requires Enabled(s, step)
  {
    match step
    case Join(id, process) => s.(participants := s.participants[id := Participant(process, Idle)])
    case LookAt(id, index) => LookedAt(s, id, index)
    case Release(id) =>
      var i := s.participants[id].phase.index;
      To(s, id, ReleasePid(i, s.entries[i].word))
    case Proceed(id) => Proceeded(s, id)
    case Spare(id) => To(s, id, Idle)
    case Die(process) =>
      s.(alive := s.alive - {process},
         participants := map id | id in s.participants ::
           if s.participants[id].process == process then s.participants[id].(phase := Dead) else s.participants[id])
  }

  predicate Initial(s: State) {
    && s.participants == map[]
    && forall i :: 0 <= i < |s.entries| ==> s.entries[i] == Entry(0, 0, 0, 0, None)
  }

  // ---- who owns an entry ---------------------------------------------------------

  predicate Releasing(phase: Phase) {
    phase.ReleasePid? || phase.ReleaseStart? || phase.ReleaseState?
  }

  /** From its successful swap until its release is complete, a live participant owns
      the entry. */
  predicate Owns(phase: Phase, index: nat) {
    && (phase.ClaimPid? || phase.ClaimStart? || phase.ClaimActivate? || phase.Holding? || Releasing(phase))
    && phase.index == index
  }

  /** The participant has started to take back its identity from the entry. */
  predicate Withdrawn(phase: Phase) {
    phase.ReleaseStart? || phase.ReleaseState?
  }

  /** The step is a reclaim that succeeds. */
  predicate Reclaims(s: State, step: Step) {
    && step.Proceed? && Enabled(s, step) && s.participants[step.id].phase.ReclaimSwap?
    && s.entries[s.participants[step.id].phase.index].word == s.participants[step.id].phase.seen
  }

  /** It succeeds against an entry whose live owner is in the middle of its release. */
  predicate OvertakesRelease(s: State, step: Step) {
    && Reclaims(s, step)
    && var owner := s.entries[s.participants[step.id].phase.index].owner;
    && owner.Some? && owner.value in s.participants && Withdrawn(s.participants[owner.value].phase)
  }

  /** It succeeds against an entry whose owner lives. */
  predicate FreesLive(s: State, step: Step) {
    && Reclaims(s, step)
    && var owner := s.entries[s.participants[step.id].phase.index].owner;
    && owner.Some? && owner.value in s.participants && !s.participants[owner.value].phase.Dead?
  }

  /** The generation has not gone all the way round since the reclaim looked. */
  predicate Timely(s: State, step: Step) {
    Reclaims(s, step) ==>
      var phase := s.participants[step.id].phase;
      s.entries[phase.index].claims < phase.claims + GENERATIONS
  }

  ghost predicate EntryInv(s: State, i: nat)
    requires i < |s.entries|
  {
    var e := s.entries[i];
    && e.word < WORDS
    && Generation(e.word) == 4 * Remainder(e.claims, GENERATIONS)
    && Kind(e.word) <= ACTIVE
    && (Kind(e.word) == FREE ==> e.owner.None?)
    && (Kind(e.word) != FREE ==> e.owner.Some? && e.owner.value in s.participants && OwnerInv(s, i, e.owner.value))
  }

  ghost predicate OwnerInv(s: State, i: nat, id: nat)
    requires i < |s.entries| && id in s.participants
  {
    var e := s.entries[i];
    var p := s.participants[id];
    p.phase.Dead? ||
    (&& Owns(p.phase, i)
     && p.process in s.alive && p.process.pid != 0
     && (Kind(e.word) == CLAIMING <==> p.phase.ClaimPid? || p.phase.ClaimStart? || p.phase.ClaimActivate?)
     && (p.phase.ClaimStart? ==> e.pid == p.process.pid)
     && (p.phase.ClaimActivate? || p.phase.Holding? || p.phase.ReleasePid? ==>
           e.pid == p.process.pid && e.startTime == p.process.startTime)
     && (Releasing(p.phase) ==> p.phase.seen == e.word))
  }

  /** A reclaim that looked at the claim now in force has seen its owner's identity,
      unless the owner has withdrawn it. */
  ghost predicate ReclaimInv(s: State, phase: Phase)
    requires phase.ReclaimPid? || phase.ReclaimStart? || phase.ReclaimSwap?
    requires phase.index < |s.entries|
  {
    var e := s.entries[phase.index];
    && phase.claims <= e.claims
    && phase.seen == 4 * Remainder(phase.claims, GENERATIONS) + ACTIVE
    && (phase.claims == e.claims ==> Kind(e.word) != CLAIMING)
    && (phase.claims == e.claims && Kind(e.word) == ACTIVE && e.owner.Some? && e.owner.value in s.participants
        && (s.participants[e.owner.value].phase.Holding? || s.participants[e.owner.value].phase.ReleasePid?) ==>
          && (!phase.ReclaimPid? ==> phase.pid == e.pid)
          && (phase.ReclaimSwap? ==> phase.startTime == e.startTime))
  }

  ghost predicate ParticipantInv(s: State, id: nat)
    requires id in s.participants
  {
    var p := s.participants[id];
    && (!p.phase.Dead? ==> p.process in s.alive && p.process.pid != 0)
    && InTable(s, p.phase)
    && (forall i :: 0 <= i < |s.entries| && Owns(p.phase, i) ==> s.entries[i].owner == Some(id) && Kind(s.entries[i].word) != FREE)
    && (p.phase.ReclaimPid? || p.phase.ReclaimStart? || p.phase.ReclaimSwap? ==> ReclaimInv(s, p.phase))
    && (p.phase.ClaimSwap? ==> Kind(p.phase.seen) == FREE)
  }

  ghost predicate Inv(s: State) {
    && (forall i :: 0 <= i < |s.entries| ==> EntryInv(s, i))
    && (forall id :: id in s.participants ==> ParticipantInv(s, id))
  }

  // ---- every step keeps the invariant --------------------------------------------

  predicate Reclaiming(phase: Phase) {
    phase.ReclaimPid? || phase.ReclaimStart? || phase.ReclaimSwap?
  }

  /** A step of participant `id` that touches at most entry `i`. */
  lemma Frame(s: State, s': State, id: nat, i: nat)
    requires Inv(s) && id in s.participants && i < |s.entries| == |s'.entries|
    requires !s.participants[id].phase.Dead?
    requires s.participants[id].phase.Idle? || s.participants[id].phase.index == i
    requires id in s'.participants && s'.alive == s.alive
    requires s'.participants == s.participants[id := s'.participants[id]]
    requires s'.entries == s.entries[i := s'.entries[i]]
    requires EntryInv(s', i) && ParticipantInv(s', id)
    requires forall p :: p in s.participants && p != id && Owns(s.participants[p].phase, i) ==>
               s'.entries[i].owner == Some(p) && Kind(s'.entries[i].word) != FREE
    requires forall p :: (p in s.participants && p != id
                          && Reclaiming(s.participants[p].phase) && s.participants[p].phase.index == i) ==>
               ReclaimInv(s', s.participants[p].phase)
    ensures Inv(s')
  {
    forall j | 0 <= j < |s'.entries| ensures EntryInv(s', j) {
      if j != i {
        assert EntryInv(s, j);
      }
    }
    forall p | p in s'.participants ensures ParticipantInv(s', p) {
      if p != id {
        assert ParticipantInv(s, p);
        FrameOther(s, s', id, i, p);
      }
    }
  }

  lemma FrameOther(s: State, s': State, id: nat, i: nat, p: nat)
    requires Inv(s) && id in s.participants && p in s.participants && p != id && i < |s.entries| == |s'.entries|
    requires !s.participants[id].phase.Dead?
    requires s.participants[id].phase.Idle? || s.participants[id].phase.index == i
    requires id in s'.participants && s'.alive == s.alive
    requires s'.participants == s.participants[id := s'.participants[id]]
    requires s'.entries == s.entries[i := s'.entries[i]]
    requires Owns(s.participants[p].phase, i) ==> s'.entries[i].owner == Some(p) && Kind(s'.entries[i].word) != FREE
    requires Reclaiming(s.participants[p].phase) && s.participants[p].phase.index == i ==>
               ReclaimInv(s', s.participants[p].phase)
    ensures ParticipantInv(s', p)
  {
    assert ParticipantInv(s, p);
    var phase := s.participants[p].phase;
    if Reclaiming(phase) && phase.index != i {
      assert EntryInv(s, phase.index);
      assert ReclaimInv(s, phase);
    }
  }

  /** Steps that change the participant's own phase and no entry, from and to phases that
      own nothing. */
  lemma PrivateStepKeepsInv(s: State, id: nat, phase: Phase, i: nat)
    requires Inv(s) && id in s.participants && i < |s.entries|
    requires !s.participants[id].phase.Dead?
    requires s.participants[id].phase.Idle? || s.participants[id].phase.index == i
    requires forall j :: 0 <= j < |s.entries| ==> !Owns(s.participants[id].phase, j) && !Owns(phase, j)
    requires !phase.Dead? && InTable(s, phase)
    requires Reclaiming(phase) ==> phase.index == i && ReclaimInv(s, phase)
    requires phase.ClaimSwap? ==> Kind(phase.seen) == FREE
    ensures Inv(To(s, id, phase))
  {
    var s' := To(s, id, phase);
    assert ParticipantInv(s, id);
    assert EntryInv(s, i);
    assert s.entries[i].owner != Some(id);
    assert EntryInv(s', i);
    if Reclaiming(phase) {
      assert ReclaimInv(s', phase);
    }
    forall p | p in s.participants && p != id && Reclaiming(s.participants[p].phase) && s.participants[p].phase.index == i
      ensures ReclaimInv(s', s.participants[p].phase)
    {
      assert ParticipantInv(s, p);
    }
    forall p | p in s.participants && p != id && Owns(s.participants[p].phase, i)
      ensures s'.entries[i].owner == Some(p) && Kind(s'.entries[i].word) != FREE
    {
      assert ParticipantInv(s, p);
    }
    Frame(s, s', id, i);
  }

  lemma LookAtKeepsInv(s: State, id: nat, index: nat)
    requires Inv(s) && Enabled(s, LookAt(id, index))
    ensures Inv(LookedAt(s, id, index))
  {
    var word := s.entries[index].word;
    assert EntryInv(s, index);
    if Kind(word) == FREE {
      PrivateStepKeepsInv(s, id, ClaimSwap(index, word), index);
    } else if Kind(word) == ACTIVE {
      PrivateStepKeepsInv(s, id, ReclaimPid(index, word, s.entries[index].claims), index);
    }
  }

  lemma ReclaimLoadKeepsInv(s: State, id: nat)
    requires Inv(s) && Enabled(s, Proceed(id))
    requires s.participants[id].phase.ReclaimPid? || s.participants[id].phase.ReclaimStart?
    ensures Inv(Proceeded(s, id))
  {
    var phase := s.participants[id].phase;
    assert ParticipantInv(s, id);
    assert EntryInv(s, phase.index);
    PrivateStepKeepsInv(s, id, Proceeded(s, id).participants[id].phase, phase.index);
  }

  /** The next generation of a word is that of one more claim. */
  lemma NextGenerationCounts(word: nat, claims: nat)
    requires Generation(word) == 4 * Remainder(claims, GENERATIONS)
    ensures NextGeneration(word) == 4 * Remainder(claims + 1, GENERATIONS)
    ensures Kind(NextGeneration(word) + CLAIMING) == CLAIMING
    ensures Generation(NextGeneration(word) + CLAIMING) == NextGeneration(word)
  {
    RemainderOfNext(claims, GENERATIONS);
  }

  /** A step of an entry's owner, or one that makes `id` its owner. */
  lemma OwnerStepKeepsInv(s: State, s': State, id: nat, i: nat)
    requires Inv(s) && id in s.participants && i < |s.entries| == |s'.entries|
    requires Owns(s.participants[id].phase, i) ||
               (s.participants[id].phase.ClaimSwap? && s.participants[id].phase.index == i && Kind(s.entries[i].word) == FREE)
    requires id in s'.participants && s'.alive == s.alive
    requires s'.participants == s.participants[id := s'.participants[id]]
    requires s'.entries == s.entries[i := s'.entries[i]]
    requires EntryInv(s', i) && ParticipantInv(s', id)
    requires s'.entries[i].claims >= s.entries[i].claims
    requires s'.entries[i].claims == s.entries[i].claims ==>
               (Kind(s'.entries[i].word) == CLAIMING ==> Kind(s.entries[i].word) == CLAIMING)
               && (s'.participants[id].phase.Holding? || s'.participants[id].phase.ReleasePid? ==>
                     Kind(s.entries[i].word) == CLAIMING
                     || (s'.entries[i] == s.entries[i] && s.participants[id].phase.Holding?))
    ensures Inv(s')
  {
    assert ParticipantInv(s, id);
    assert EntryInv(s, i);
    forall p | p in s.participants && p != id ensures !Owns(s.participants[p].phase, i) {
      assert ParticipantInv(s, p);
    }
    forall p | p in s.participants && p != id && Reclaiming(s.participants[p].phase) && s.participants[p].phase.index == i
      ensures ReclaimInv(s', s.participants[p].phase)
    {
      assert ParticipantInv(s, p);
      assert ReclaimInv(s, s.participants[p].phase);
    }
    Frame(s, s', id, i);
  }

  /** A swap that succeeds makes the participant the owner. */
  lemma ClaimSwapTakes(s: State, id: nat)
    requires Inv(s) && Enabled(s, Proceed(id)) && s.participants[id].phase.ClaimSwap?
    requires s.entries[s.participants[id].phase.index].word == s.participants[id].phase.seen
    ensures EntryInv(Proceeded(s, id), s.participants[id].phase.index) && ParticipantInv(Proceeded(s, id), id)
  {
    var phase := s.participants[id].phase;
    assert ParticipantInv(s, id);
    assert EntryInv(s, phase.index);
    NextGenerationCounts(phase.seen, s.entries[phase.index].claims);
  }

  lemma ClaimSwapKeepsInv(s: State, id: nat)
    requires Inv(s) && Enabled(s, Proceed(id)) && s.participants[id].phase.ClaimSwap?
    ensures Inv(Proceeded(s, id))
  {
    var phase := s.participants[id].phase;
    assert ParticipantInv(s, id);
    if s.entries[phase.index].word != phase.seen {
      PrivateStepKeepsInv(s, id, Idle, phase.index);
    } else {
      ClaimSwapTakes(s, id);
      OwnerStepKeepsInv(s, Proceeded(s, id), id, phase.index);
    }
  }

  lemma ClaimStoreKeepsInv(s: State, id: nat)
    requires Inv(s) && Enabled(s, Proceed(id))
    requires s.participants[id].phase.ClaimPid? || s.participants[id].phase.ClaimStart? || s.participants[id].phase.ClaimActivate?
    ensures Inv(Proceeded(s, id))
  {
    var phase := s.participants[id].phase;
    assert ParticipantInv(s, id);
    assert EntryInv(s, phase.index);
    OwnerStepKeepsInv(s, Proceeded(s, id), id, phase.index);
  }

  lemma ReleaseKeepsInv(s: State, id: nat)
    requires Inv(s) && Enabled(s, Release(id))
    ensures Inv(Next(s, Release(id)))
  {
    var phase := s.participants[id].phase;
    assert ParticipantInv(s, id);
    assert EntryInv(s, phase.index);
    OwnerStepKeepsInv(s, Next(s, Release(id)), id, phase.index);
  }

  lemma ReleaseStoreKeepsInv(s: State, id: nat)
    requires Inv(s) && Enabled(s, Proceed(id)) && Releasing(s.participants[id].phase)
    ensures Inv(Proceeded(s, id))
  {
    var phase := s.participants[id].phase;
    assert ParticipantInv(s, id);
    assert EntryInv(s, phase.index);
    OwnerStepKeepsInv(s, Proceeded(s, id), id, phase.index);
  }

  /** A timely reclaim that succeeds finds the entry as it was when it looked. */
  lemma ReclaimSeesCurrentClaim(s: State, id: nat)
    requires Inv(s) && Reclaims(s, Proceed(id)) && Timely(s, Proceed(id))
    ensures var phase := s.participants[id].phase;
            s.entries[phase.index].claims == phase.claims && Kind(s.entries[phase.index].word) == ACTIVE
  {
    var phase := s.participants[id].phase;
    assert ParticipantInv(s, id);
    assert EntryInv(s, phase.index);
    SameGenerationSameClaim(phase.claims, s.entries[phase.index].claims);
  }

  lemma SameGenerationSameClaim(seen: nat, now: nat)
    requires seen <= now < seen + GENERATIONS && Remainder(seen, GENERATIONS) == Remainder(now, GENERATIONS)
    ensures seen == now
  {
    if seen < now { RemaindersDiffer(seen, now, GENERATIONS); }
  }

  /** The owner of an entry that a timely reclaim frees is dead, or overtaken. */
  lemma ReclaimFreesOnlyDead(s: State, id: nat)
    requires Inv(s) && Reclaims(s, Proceed(id)) && Timely(s, Proceed(id)) && !OvertakesRelease(s, Proceed(id))
    ensures var owner := s.entries[s.participants[id].phase.index].owner;
            owner.Some? && owner.value in s.participants && s.participants[owner.value].phase.Dead?
  {
    ReclaimSeesCurrentClaim(s, id);
    var phase := s.participants[id].phase;
    var e := s.entries[phase.index];
    assert ParticipantInv(s, id);
    assert ReclaimInv(s, phase);
    assert EntryInv(s, phase.index);
    var owner := e.owner.value;
    if !s.participants[owner].phase.Dead? {
      assert OwnerInv(s, phase.index, owner);
      assert s.participants[owner].process in s.alive;
      assert SeemsAlive(s.alive, phase.pid, phase.startTime);
    }
  }

  /** In time, only a release under way can be overtaken. */
  lemma TimelyFreesLive(s: State, step: Step)
    requires Inv(s) && Enabled(s, step) && Timely(s, step)
    ensures FreesLive(s, step) <==> OvertakesRelease(s, step)
  {
    if Reclaims(s, step) && !OvertakesRelease(s, step) {
      ReclaimFreesOnlyDead(s, step.id);
    }
  }

  lemma NobodyOwns(s: State, i: nat)
    requires Inv(s) && i < |s.entries| && s.entries[i].owner.Some?
    requires s.entries[i].owner.value in s.participants ==> s.participants[s.entries[i].owner.value].phase.Dead?
    ensures forall p :: p in s.participants ==> !Owns(s.participants[p].phase, i)
  {
    forall p | p in s.participants ensures !Owns(s.participants[p].phase, i) {
      assert ParticipantInv(s, p);
    }
  }

  lemma FreedEntryIsOk(s: State, id: nat)
    requires Inv(s) && Reclaims(s, Proceed(id))
    ensures var i := s.participants[id].phase.index; EntryInv(Proceeded(s, id), i)
  {
    assert EntryInv(s, s.participants[id].phase.index);
  }

  /** A freed entry tells no reclaim anything. */
  lemma FreedEntryIsReclaimed(s: State, id: nat, p: nat)
    requires Inv(s) && Reclaims(s, Proceed(id)) && p in s.participants && p != id
    requires var phase := s.participants[p].phase;
      Reclaiming(phase) && phase.index == s.participants[id].phase.index
    ensures ReclaimInv(Proceeded(s, id), s.participants[p].phase)
  {
    assert ParticipantInv(s, p);
    var i, s' := s.participants[id].phase.index, Proceeded(s, id);
    assert s'.entries[i].claims == s.entries[i].claims && Kind(s'.entries[i].word) == FREE;
  }

  /** Freeing the entry of a dead owner. */
  lemma FreeingDeadKeepsInv(s: State, id: nat)
    requires Inv(s) && Reclaims(s, Proceed(id)) && !FreesLive(s, Proceed(id))
    ensures Inv(Proceeded(s, id))
  {
    var i, s' := s.participants[id].phase.index, Proceeded(s, id);
    assert ParticipantInv(s, id) && ReclaimInv(s, s.participants[id].phase);
    assert EntryInv(s, i);
    NobodyOwns(s, i);
    FreedEntryIsOk(s, id);
    forall p | p in s.participants && p != id && Reclaiming(s.participants[p].phase) && s.participants[p].phase.index == i
      ensures ReclaimInv(s', s.participants[p].phase)
    {
      FreedEntryIsReclaimed(s, id, p);
    }
    Frame(s, s', id, i);
  }

  lemma ReclaimSwapKeepsInv(s: State, id: nat)
    requires Inv(s) && Enabled(s, Proceed(id)) && s.participants[id].phase.ReclaimSwap?
    requires !FreesLive(s, Proceed(id))
    ensures Inv(Proceeded(s, id))
  {
    var phase := s.participants[id].phase;
    if s.entries[phase.index].word != phase.seen {
      PrivateStepKeepsInv(s, id, Idle, phase.index);
    } else {
      FreeingDeadKeepsInv(s, id);
    }
  }

  lemma DieKeepsInv(s: State, process: Process)
    requires Inv(s) && Enabled(s, Die(process))
    ensures Inv(Next(s, Die(process)))
  {
    var s' := Next(s, Die(process));
    forall i | 0 <= i < |s'.entries| ensures EntryInv(s', i) {
      assert EntryInv(s, i);
    }
    forall p | p in s'.participants ensures ParticipantInv(s', p) {
      assert ParticipantInv(s, p);
    }
  }

  lemma JoinKeepsInv(s: State, id: nat, process: Process)
    requires Inv(s) && Enabled(s, Join(id, process))
    ensures Inv(Next(s, Join(id, process)))
  {
    var s' := Next(s, Join(id, process));
    forall i | 0 <= i < |s'.entries| ensures EntryInv(s', i) {
      assert EntryInv(s, i);
    }
    forall p | p in s'.participants ensures ParticipantInv(s', p) {
      if p != id {
        assert ParticipantInv(s, p);
        var phase := s.participants[p].phase;
        if Reclaiming(phase) {
          assert EntryInv(s, phase.index);
        }
      }
    }
  }

  /** Every step in time keeps the invariant, unless it overtakes a release. */
  lemma StepKeepsInv(s: State, step: Step)
    requires Inv(s) && Enabled(s, step) && Timely(s, step) && !OvertakesRelease(s, step)
    ensures Inv(Next(s, step))
  {
    TimelyFreesLive(s, step);
    SparingStepKeepsInv(s, step);
  }

  /** So does any step that frees no entry of a live participant. */
  lemma SparingStepKeepsInv(s: State, step: Step)
    requires Inv(s) && Enabled(s, step) && !FreesLive(s, step)
    ensures Inv(Next(s, step))
  {
    match step
    case Join(id, process) => JoinKeepsInv(s, id, process);
    case LookAt(id, index) => LookAtKeepsInv(s, id, index);
    case Release(id) => ReleaseKeepsInv(s, id);
    case Spare(id) =>
      assert ParticipantInv(s, id);
      PrivateStepKeepsInv(s, id, Idle, s.participants[id].phase.index);
    case Die(process) => DieKeepsInv(s, process);
    case Proceed(id) =>
      var phase := s.participants[id].phase;
      if phase.ClaimSwap? {
        ClaimSwapKeepsInv(s, id);
      } else if Releasing(phase) {
        ReleaseStoreKeepsInv(s, id);
      } else if phase.ReclaimSwap? {
        ReclaimSwapKeepsInv(s, id);
      } else if Reclaiming(phase) {
        ReclaimLoadKeepsInv(s, id);
      } else {
        ClaimStoreKeepsInv(s, id);
      }
  }

  // ---- whole runs ----------------------------------------------------------------

  ghost predicate IsRun(states: seq<State>, steps: seq<Step>) {
    && |states| == |steps| + 1
    && Initial(states[0])
    && forall i {:trigger steps[i]} :: 0 <= i < |steps| ==>
        Enabled(states[i], steps[i]) && Timely(states[i], steps[i]) && states[i + 1] == Next(states[i], steps[i])
  }

  /** No reclaim of the first `count` steps overtook a release. */
  ghost predicate Orderly(states: seq<State>, steps: seq<Step>, count: nat)
    requires |states| == |steps| + 1 && count <= |steps|
  {
    forall i :: 0 <= i < count ==> !OvertakesRelease(states[i], steps[i])
  }

  lemma InitialInv(s: State)
    requires Initial(s)
    ensures Inv(s)
  {
    forall i | 0 <= i < |s.entries| ensures EntryInv(s, i) {
      assert s.entries[i] == Entry(0, 0, 0, 0, None);
    }
  }

  lemma {:induction false} RunKeepsInv(states: seq<State>, steps: seq<Step>, i: nat)
    requires IsRun(states, steps) && i < |states| && Orderly(states, steps, i)
    ensures Inv(states[i])
  {
    if i == 0 {
      InitialInv(states[0]);
    } else {
      RunKeepsInv(states, steps, i - 1);
      var s, step := states[i - 1], steps[i - 1];
      assert !OvertakesRelease(s, step);
      StepKeepsInv(s, step);
    }
  }

  /** Exclusion: as long as no reclaim has overtaken a release, no two live participants
      ever hold the same index. */
  lemma NoTwoHoldOneIndex(states: seq<State>, steps: seq<Step>, i: nat, a: nat, b: nat, index: nat)
    requires IsRun(states, steps) && i < |states| && Orderly(states, steps, i)
    requires index < |states[i].entries| && a in states[i].participants && b in states[i].participants
    requires Owns(states[i].participants[a].phase, index) && Owns(states[i].participants[b].phase, index)
    ensures a == b
  {
    RunKeepsInv(states, steps, i);
    assert ParticipantInv(states[i], a);
    assert ParticipantInv(states[i], b);
  }

  /** The state word of entry `index` becomes free by this step. */
  predicate Frees(s: State, step: Step, index: nat) {
    && Enabled(s, step) && index < |s.entries| && index < |Next(s, step).entries|
    && Kind(s.entries[index].word) != FREE && Kind(Next(s, step).entries[index].word) == FREE
  }

  /** In an orderly run, an entry held by a live participant is freed by that participant
      itself, unless this very step is a reclaim that overtakes its release. */
  lemma OnlyOwnerFrees(states: seq<State>, steps: seq<Step>, i: nat, owner: nat, index: nat)
    requires IsRun(states, steps) && i < |steps| && Orderly(states, steps, i)
    requires Frees(states[i], steps[i], index)
    requires owner in states[i].participants && Owns(states[i].participants[owner].phase, index)
    ensures steps[i] == Proceed(owner) || OvertakesRelease(states[i], steps[i])
  {
    RunKeepsInv(states, steps, i);
    var s, step := states[i], steps[i];
    assert ParticipantInv(s, owner);
    assert EntryInv(s, index);
    if step.Proceed? {
      assert ParticipantInv(s, step.id);
      if Reclaims(s, step) && !OvertakesRelease(s, step) {
        ReclaimFreesOnlyDead(s, step.id);
      }
    }
  }

  // ---- release is not atomic -----------------------------------------------------

  /** `steps` lead from `s` to `t`, in time and without overtaking a release. */
  ghost predicate Leads(s: State, steps: seq<Step>, t: State)
    decreases |steps|
  {
    if steps == [] then s == t
    else
      && Enabled(s, steps[0]) && Timely(s, steps[0]) && !OvertakesRelease(s, steps[0])
      && Leads(Next(s, steps[0]), steps[1..], t)
  }

  /** An orderly continuation. */
  ghost predicate Continues(s: State, t: State) {
    exists steps :: Leads(s, steps, t)
  }

  /** No two live participants hold the same index. */
  ghost predicate Exclusive(s: State) {
    forall a, b, i ::
      (a in s.participants && b in s.participants
       && Owns(s.participants[a].phase, i) && Owns(s.participants[b].phase, i)) ==> a == b
  }

  lemma InvIsExclusive(s: State)
    requires Inv(s)
    ensures Exclusive(s)
  {
    forall a, b, i | a in s.participants && b in s.participants
      && Owns(s.participants[a].phase, i) && Owns(s.participants[b].phase, i) ensures a == b
    {
      assert ParticipantInv(s, a) && ParticipantInv(s, b);
    }
  }

  lemma {:induction false} LeadsKeepsInv(s: State, steps: seq<Step>, t: State)
    requires Inv(s) && Leads(s, steps, t)
    ensures Inv(t)
    decreases |steps|
  {
    if steps != [] {
      StepKeepsInv(s, steps[0]);
      LeadsKeepsInv(Next(s, steps[0]), steps[1..], t);
    }
  }

  lemma {:induction false} LeadsOn(s: State, steps: seq<Step>, t: State, step: Step)
    requires Leads(s, steps, t) && Enabled(t, step) && Timely(t, step) && !OvertakesRelease(t, step)
    ensures Leads(s, steps + [step], Next(t, step))
    decreases |steps|
  {
    if steps == [] {
      assert [] + [step] == [step] && [step][1..] == [];
      assert Leads(Next(s, step), [], Next(t, step));
    } else {
      LeadsOn(Next(s, steps[0]), steps[1..], t, step);
      assert (steps + [step])[0] == steps[0] && (steps + [step])[1..] == steps[1..] + [step];
    }
  }

  lemma ContinuesNow(s: State)
    ensures Continues(s, s)
  {
    assert Leads(s, [], s);
  }

  lemma ContinuesOn(from: State, s: State, step: Step)
    requires Continues(from, s) && Enabled(s, step) && !Reclaims(s, step)
    ensures Continues(from, Next(s, step))
  {
    var steps :| Leads(from, steps, s);
    LeadsOn(from, steps, s, step);
  }

  // ---- what one participant can do undisturbed -----------------------------------

  /** In `t` participant `id` is in another phase, and the others are as in `s`. */
  predicate Moved(s: State, t: State, id: nat, phase: Phase) {
    && id in s.participants && |t.entries| == |s.entries| && t.alive == s.alive
    && t.participants == s.participants[id := s.participants[id].(phase := phase)]
  }

  /** An idle participant swaps a free entry to claiming. */
  lemma ClaimSwaps(from: State, s: State, id: nat, i: nat) returns (t: State)
    requires Continues(from, s) && i < |s.entries| && Kind(s.entries[i].word) == FREE
    requires id in s.participants && s.participants[id].phase.Idle?
    ensures Continues(from, t) && Moved(s, t, id, ClaimPid(i))
  {
    ContinuesOn(from, s, LookAt(id, i));
    t := Next(s, LookAt(id, i));
    ContinuesOn(from, t, Proceed(id));
    t := Next(t, Proceed(id));
  }

  lemma ClaimStores(from: State, s: State, id: nat, i: nat) returns (t: State)
    requires Continues(from, s) && i < |s.entries|
    requires id in s.participants && s.participants[id].phase == ClaimPid(i)
    ensures Continues(from, t) && Moved(s, t, id, Holding(i)) && Kind(t.entries[i].word) == ACTIVE
  {
    ContinuesOn(from, s, Proceed(id));
    t := Next(s, Proceed(id));
    ContinuesOn(from, t, Proceed(id));
    t := Next(t, Proceed(id));
    ContinuesOn(from, t, Proceed(id));
    t := Next(t, Proceed(id));
  }

  /** It claims the entry. */
  lemma Claims(from: State, s: State, id: nat, i: nat) returns (t: State)
    requires Continues(from, s) && i < |s.entries| && Kind(s.entries[i].word) == FREE
    requires id in s.participants && s.participants[id].phase.Idle?
    ensures Continues(from, t) && Moved(s, t, id, Holding(i)) && Kind(t.entries[i].word) == ACTIVE
  {
    t := ClaimSwaps(from, s, id, i);
    t := ClaimStores(from, t, id, i);
  }

  /** A holder begins its release: the pid is cleared, the state not yet. */
  lemma HalfReleases(from: State, s: State, id: nat, i: nat) returns (t: State)
    requires Continues(from, s) && i < |s.entries| && Kind(s.entries[i].word) == ACTIVE
    requires id in s.participants && s.participants[id].phase == Holding(i)
    ensures Continues(from, t) && Moved(s, t, id, ReleaseStart(i, s.entries[i].word))
    ensures Kind(t.entries[i].word) == ACTIVE && t.entries[i].pid == 0 && t.entries[i].owner == s.entries[i].owner
  {
    ContinuesOn(from, s, Release(id));
    t := Next(s, Release(id));
    ContinuesOn(from, t, Proceed(id));
    t := Next(t, Proceed(id));
  }

  /** The rest of a release, from any point of it and whatever the entry has become meanwhile. */
  lemma LateStores(from: State, s: State, id: nat, i: nat) returns (t: State)
    requires Continues(from, s) && i < |s.entries|
    requires id in s.participants && Releasing(s.participants[id].phase) && s.participants[id].phase.index == i
    ensures Continues(from, t) && Moved(s, t, id, Idle) && Kind(t.entries[i].word) == FREE
  {
    t := s;
    if t.participants[id].phase.ReleasePid? {
      ContinuesOn(from, t, Proceed(id));
      t := Next(t, Proceed(id));
    }
    if t.participants[id].phase.ReleaseStart? {
      ContinuesOn(from, t, Proceed(id));
      t := Next(t, Proceed(id));
    }
    ContinuesOn(from, t, Proceed(id));
    t := Next(t, Proceed(id));
  }

  lemma {:induction false} FreshId(ids: set<nat>) returns (id: nat)
    ensures forall other :: other in ids ==> other < id
    decreases |ids|
  {
    if ids == {} {
      id := 0;
    } else {
      var one :| one in ids;
      id := FreshId(ids - {one});
      if one >= id { id := one + 1; }
      assert forall other :: other in ids ==> other in ids - {one} || other == one;
    }
  }

  /** Another participant joins in a running process. */
  lemma Joins(from: State, s: State, process: Process) returns (t: State, id: nat)
    requires Continues(from, s) && process in s.alive && process.pid != 0
    ensures Continues(from, t) && id !in s.participants
    ensures t == s.(participants := s.participants[id := Participant(process, Idle)])
  {
    id := FreshId(s.participants.Keys);
    ContinuesOn(from, s, Join(id, process));
    t := Next(s, Join(id, process));
  }

  // ---- the exact boundary --------------------------------------------------------

  /** A reclaim that frees a live owner's entry leaves the owner where it was. */
  lemma FreeingLeaves(s: State, step: Step) returns (i: nat, owner: nat)
    requires Inv(s) && FreesLive(s, step)
    ensures i == s.participants[step.id].phase.index
    ensures var t := Next(s, step);
      && i < |t.entries| && Kind(t.entries[i].word) == FREE && owner in t.participants
      && (t.participants[owner].phase == Holding(i)
          || (Releasing(t.participants[owner].phase) && t.participants[owner].phase.index == i))
      && t.participants[owner].process in t.alive && t.participants[owner].process.pid != 0
  {
    var phase := s.participants[step.id].phase;
    i, owner := phase.index, s.entries[phase.index].owner.value;
    assert ParticipantInv(s, step.id) && ReclaimInv(s, phase);
    assert EntryInv(s, i) && OwnerInv(s, i, owner);
  }

  /** From every state of an orderly run and on every table, a reclaim that frees the entry
      of a live owner can be followed, without any further reclaim, by two live participants
      holding it: a newcomer and the owner, or, around the late state store of an owner that
      is releasing, two newcomers. */
  lemma FreeingLiveBreaksExclusion(s: State, step: Step) returns (t: State, a: nat, b: nat)
    requires Inv(s) && FreesLive(s, step)
    ensures Continues(Next(s, step), t) && a != b && a in t.participants && b in t.participants
    ensures var i := s.participants[step.id].phase.index;
      t.participants[a].phase == Holding(i) && t.participants[b].phase == Holding(i)
    ensures t.participants[a].process in t.alive && t.participants[b].process in t.alive
  {
    var from := Next(s, step);
    var i, owner := FreeingLeaves(s, step);
    var process := from.participants[owner].process;
    ContinuesNow(from);
    t, a := Joins(from, from, process);
    if from.participants[owner].phase.Holding? {
      b := owner;
      t := Claims(from, t, a, i);
    } else {
      t, b := Joins(from, t, process);
      t := Claims(from, t, a, i);
      t := LateStores(from, t, owner, i);
      t := Claims(from, t, b, i);
    }
  }

  /** So it is with every reclaim that overtakes a release. */
  lemma OvertakingBreaksExclusion(s: State, step: Step) returns (t: State, a: nat, b: nat)
    requires Inv(s) && OvertakesRelease(s, step)
    ensures Continues(Next(s, step), t) && a != b && a in t.participants && b in t.participants
    ensures var i := s.participants[step.id].phase.index;
      t.participants[a].phase == Holding(i) && t.participants[b].phase == Holding(i)
    ensures t.participants[a].process in t.alive && t.participants[b].process in t.alive
  {
    t, a, b := FreeingLiveBreaksExclusion(s, step);
  }

  /** A step from an orderly state has an orderly continuation that breaks exclusion exactly
      if it frees the entry of a live owner, however late it comes; a step in time, exactly if
      it overtakes a release. */
  lemma FreeingLiveIsTheBoundary(s: State, step: Step)
    requires Inv(s) && Enabled(s, step)
    ensures FreesLive(s, step) <==> exists t :: Continues(Next(s, step), t) && !Exclusive(t)
    ensures Timely(s, step) ==> (FreesLive(s, step) <==> OvertakesRelease(s, step))
  {
    if Timely(s, step) { TimelyFreesLive(s, step); }
    if FreesLive(s, step) {
      var t, a, b := FreeingLiveBreaksExclusion(s, step);
      assert Owns(t.participants[a].phase, t.participants[a].phase.index);
      assert Owns(t.participants[b].phase, t.participants[a].phase.index);
      assert !Exclusive(t);
    } else {
      SparingStepKeepsInv(s, step);
      forall t | Continues(Next(s, step), t) ensures Exclusive(t) {
        var steps :| Leads(Next(s, step), steps, t);
        LeadsKeepsInv(Next(s, step), steps, t);
        InvIsExclusive(t);
      }
    }
  }

  /** Every orderly continuation of the run, from every state of it, is exclusive. */
  ghost predicate ExclusiveForGood(states: seq<State>) {
    forall k, t :: 0 <= k < |states| && Continues(states[k], t) ==> Exclusive(t)
  }

  lemma {:induction false} FirstOvertaking(states: seq<State>, steps: seq<Step>, n: nat) returns (k: nat)
    requires |states| == |steps| + 1 && n <= |steps| && !Orderly(states, steps, n)
    ensures k < n && Orderly(states, steps, k) && OvertakesRelease(states[k], steps[k])
    decreases n
  {
    if Orderly(states, steps, n - 1) {
      k := n - 1;
    } else {
      k := FirstOvertaking(states, steps, n - 1);
    }
  }

  /** A run is exclusive for good exactly if no reclaim in it overtakes a release. */
  lemma OrderlyMeansExclusive(states: seq<State>, steps: seq<Step>)
    requires IsRun(states, steps)
    ensures ExclusiveForGood(states) <==> Orderly(states, steps, |steps|)
  {
    if Orderly(states, steps, |steps|) {
      forall k, t | 0 <= k < |states| && Continues(states[k], t) ensures Exclusive(t) {
        RunKeepsInv(states, steps, k);
        var more :| Leads(states[k], more, t);
        LeadsKeepsInv(states[k], more, t);
        InvIsExclusive(t);
      }
    } else {
      var k := FirstOvertaking(states, steps, |steps|);
      RunKeepsInv(states, steps, k);
      FreeingLiveIsTheBoundary(states[k], steps[k]);
      var t :| Continues(Next(states[k], steps[k]), t) && !Exclusive(t);
      assert Continues(states[k + 1], t);
    }
  }

  // ---- an instance ---------------------------------------------------------------

  ghost predicate Reachable(s: State) {
    exists states, steps :: IsRun(states, steps) && states[|steps|] == s
  }

  lemma ReachNext(s: State, step: Step)
    requires Reachable(s) && Enabled(s, step) && Timely(s, step)
    ensures Reachable(Next(s, step))
  {
    var states, steps :| IsRun(states, steps) && states[|steps|] == s;
    var states', steps' := states + [Next(s, step)], steps + [step];
    assert IsRun(states', steps');
  }

  lemma {:induction false} ReachAll(s: State, steps: seq<Step>, t: State)
    requires Reachable(s) && Leads(s, steps, t)
    ensures Reachable(t)
    decreases |steps|
  {
    if steps != [] {
      ReachNext(s, steps[0]);
      ReachAll(Next(s, steps[0]), steps[1..], t);
    }
  }

  lemma ReachContinued(s: State, t: State)
    requires Reachable(s) && Continues(s, t)
    ensures Reachable(t)
  {
    var steps :| Leads(s, steps, t);
    ReachAll(s, steps, t);
  }

  /** Participant `id` frees the entry while its owner, already without its pid, is still
      releasing it. */
  lemma ReachOvertaking(s: State, id: nat) returns (s': State)
    requires Reachable(s) && |s.entries| == 1 && Kind(s.entries[0].word) == ACTIVE && s.entries[0].pid == 0
    requires id in s.participants && s.participants[id].phase.Idle?
    ensures Reachable(s') && |s'.entries| == 1 && s'.alive == s.alive
    ensures s'.participants == s.participants && Kind(s'.entries[0].word) == FREE
  {
    s' := s;
    ReachNext(s', LookAt(id, 0));
    s' := Next(s', LookAt(id, 0));
    ReachNext(s', Proceed(id));
    s' := Next(s', Proceed(id));
    ReachNext(s', Proceed(id));
    s' := Next(s', Proceed(id));
    ReachNext(s', Proceed(id));
    s' := Next(s', Proceed(id));
    assert s'.participants == s.participants;
  }

  const P1 := Process(1, 10)
  const P2 := Process(2, 20)
  const P3 := Process(3, 30)

  lemma ReachThreeIdle() returns (s: State)
    ensures Reachable(s) && |s.entries| == 1 && Kind(s.entries[0].word) == FREE && s.alive == {P1, P2, P3}
    ensures s.participants == map[1 := Participant(P1, Idle), 2 := Participant(P2, Idle), 3 := Participant(P3, Idle)]
  {
    s := State([Entry(0, 0, 0, 0, None)], map[], {P1, P2, P3});
    assert IsRun([s], []) && [s][0] == s;
    ReachNext(s, Join(1, P1));
    s := Next(s, Join(1, P1));
    ReachNext(s, Join(2, P2));
    s := Next(s, Join(2, P2));
    ReachNext(s, Join(3, P3));
    s := Next(s, Join(3, P3));
  }

  /** ReleaseParticipant is not one step, and that shows: a reclaim that runs between its
      store of the pid and its store of the state frees the entry for a second participant,
      whose claim the late state store then erases for a third. Two live participants end
      up holding index 0. */
  lemma OvertakenReleaseBreaksExclusion()
    ensures exists s :: Reachable(s) && |s.entries| == 1
              && 2 in s.participants && 3 in s.participants
              && s.participants[2].phase == Holding(0) && s.participants[3].phase == Holding(0)
  {
    var from := ReachThreeIdle();
    ContinuesNow(from);
    var s := Claims(from, from, 1, 0);
    s := HalfReleases(from, s, 1, 0);
    ReachContinued(from, s);
    from := ReachOvertaking(s, 2);
    ContinuesNow(from);
    s := Claims(from, from, 2, 0);
    s := LateStores(from, s, 1, 0);
    s := Claims(from, s, 3, 0);
    ReachContinued(from, s);
    assert s.participants[2].phase == Holding(0) && s.participants[3].phase == Holding(0);
  }
}
