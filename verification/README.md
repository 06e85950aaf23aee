# PuppetMaster in Dafny

PuppetMaster is a real-time middleware: components exchange messages over transports, are run by a
scheduler, call services, and are started and restarted by a supervisor. Its hard parts are small
protocols guarded by a mutex or by atomics, and formats that a printer and a parser must agree on. This
project models those parts and proves what they are for.

Concurrent protocols are step machines: a state, the steps that are enabled in it, and runs as
sequences of states joined by steps; the theorems are about every state of every run. What the source
updates in place is a class whose methods are proved against functions on values; the properties
are then proved of the functions. Clocks, process exits, handler results, liveness verdicts and
floating-point text enter as arbitrary inputs.

| module | part of the system |
|---|---|
| Seqlock, Ring, RingSteps, RingRefinement, Mailbox | the shared-memory ring, step by step and as an object, how the two agree, and the in-memory queue it refines |
| Notify | the notify word, the dispatcher and blocking reads on top of the ring |
| Participants | the generation-tagged table of participating processes |
| Scheduler, SchedulerRuns, DispatchOrder, Fairness, Draining | queue, selection, workers, the order of dispatching, aging and the draining stop |
| TriggerLaws, TaskFirings | when triggers fire, over arrivals, completions and whole runs |
| Kahn, TaskGraph, TaskRuns | the graph of task dependencies, its two checks, what is installed and why work dies out |
| ServiceHeader, ServiceClient, ServiceCalls, ServiceSystem | service messages, the client's calls, clients and server over lossy topics |
| PortableCodec, PortableVisitors | the portable wire format and its sizer, writer and reader |
| IntegerText, PortableFields, PortableText | the tool that reads and writes that format as text |
| Recording, RecordingFiles | the recording file format, its writer and its reader |
| CommandLine | quoting of command lines on Windows |
| RestartPolicy, RestartRuns, RestartDecisions, Supervisor | the restart machine, its runs, what they decide, and the supervisor object |
| WireLaws | all the formats on literal bytes and characters |
| Bytes, Options, Basics | little-endian fields, optional values, and small facts that several parts share |

`dafny verify dfyconfig.toml` checks everything.

Some results are negative, and each comes with the condition that restores the property:

- A release of a participant entry is not atomic. A reclaim that runs between its stores can give two live
  processes the same index, and every such overtaking can be continued so; runs are exclusive for good
  exactly without one (`Participants.OrderlyMeansExclusive`).
- On transports that track matched readers, a service call whose wait for a match outlasts `Close` is
  registered and sent after the map was emptied, and its callback is never run
  (`ServiceCalls.LateMatchIsLost`); those are exactly the calls that are lost.
- A program name with a quote can shift the arguments of a Windows command line; the names that never do
  are characterised exactly (`CommandLine.RoundTripBoundary`).
- A failed fill destroys the oldest message of the ring, so with a reader depth equal to the slot count the
  ring is not the bounded queue; below it, it is (`RingRefinement.FailedFillBoundary`). Likewise a vector
  of elements that print as nothing is encoded but not decoded (`PortableCodec.EmptyElementsAreRefused`).

## Model

| member | source | states |
|---|---|---|
| `Seqlock.NoTornRead` | src/transport/shm/segment.cpp:289-398 | over every interleaving of readers and writers, with a crash between any two stores or a failed fill, whatever a TryRead has delivered under sequence s is exactly the message, size and timestamp committed under s |
| `Seqlock.CommittedForGood` | src/transport/shm/segment.cpp:289-346 | what was committed under a sequence never changes and is never withdrawn, although crashed and failed publishes reuse sequences |
| `Seqlock.ReaderAccounting` | src/transport/shm/segment.cpp:348-398 | in every run the cursor's total advance is the number of messages delivered plus the drops reported, and delivered sequences strictly increase |
| `Seqlock.EachPassAdvances` | src/transport/shm/segment.cpp:357-396 | under any concurrent writers a load never moves the cursor back, a new pass starts only with the cursor advanced, and each advance is a delivery or a drop |
| `Seqlock.UnlappedIsNotDropped` | src/transport/shm/segment.cpp:367-389 | a message that no writer has come round to is not dropped: the pass goes on, and ends by delivering the committed message |
| `Seqlock.ReadIsWaitFree` | src/transport/shm/segment.cpp:348-398 | a TryRead returns after a bounded number of its own loads whatever the writers do: own loads plus what is left never exceed the budget at the start |
| `Seqlock.LoadMakesProgress` | src/transport/shm/segment.cpp:357-396 | every load of a TryRead uses up part of that budget |
| `Seqlock.StepKeepsInv` | src/transport/shm/segment.cpp:289-398 | each atomic load or store, crash, lock hand-over or call keeps the ring, writer and reader invariants |
| `Seqlock.RunKeepsInv` | src/transport/shm/segment.cpp:289-398 | the invariants hold in every reachable state |
| `Seqlock.StoreToNext` | src/transport/shm/segment.cpp:311-341 | stores into the slot of the next sequence touch no committed message that is still in the ring, and no slot's word goes back |
| `Seqlock.CommitKeepsRing` | src/transport/shm/segment.cpp:341-342 | advancing write_seq after the slot's own sequence leaves every sequence of the last ring-full in its slot |
| `Seqlock.ReaderStable` | src/transport/shm/segment.cpp:365-389 | what a reader has copied so far stays good for its re-check while writers go on |
| `Seqlock.WriterNextOk` | src/transport/shm/segment.cpp:289-346 | each step of a writer keeps the ring's invariant and its own |
| `Seqlock.ReaderNextOk` | src/transport/shm/segment.cpp:348-398 | each step of a reader keeps its invariant: bytes copied while the sequence is unchanged are the committed ones |
| `Seqlock.SlotIndexIsRemainder` | src/transport/shm/segment.cpp:271-274 | the slot of a sequence, found by repeated subtraction, is the sequence modulo the slot count |
| `Seqlock.CommittedIsTheJob` | src/transport/shm/segment.cpp:276-287 | what a copying publish commits is its own payload and timestamp under the next sequence, whoever runs in between |
| `Mailbox.DropOldestKeepsNewest` | src/transport/inmemory/inmemory_transport.cpp:119-198 | a bounded drop-oldest (or latest-only) mailbox holds exactly the newest `capacity` of what it held and what arrived, in order |
| `Mailbox.Mailbox.Push` | src/transport/inmemory/inmemory_transport.cpp:119-151 | a closed mailbox refuses; otherwise a message replaces the only one, is appended while there is room, and on a full queue pushes out the oldest, is dropped, is refused or has to wait, by the policy |
| `Mailbox.Mailbox.PushQueued` | src/transport/inmemory/inmemory_transport.cpp:164-198 | the four overflow policies on a full queue; an unbounded queue never overflows |
| `Mailbox.Mailbox.Read` | src/transport/inmemory/inmemory_transport.cpp:75-104 | hands out the oldest message, also of a closed mailbox; nothing when empty |
| `Ring.Segment.PublishWith` | src/transport/shm/segment.cpp:289-346 | too large: refused and nothing changes; failed fill: nothing is committed but the slot's old message is lost; else the message is appended to the log under the next sequence |
| `Ring.Segment.Publish` | src/transport/shm/segment.cpp:276-287 | commits a copy of the payload, or refuses one larger than a slot |
| `Ring.Segment.TryRead` | src/transport/shm/segment.cpp:348-398 | between publishes the pass loop returns what the log says: the oldest message within depth and ring that is not lost, with the drops before it |
| `Ring.Segment.PendingCount` | src/transport/shm/segment.cpp:400-409 | the number of messages from the clamped cursor to the newest |
| `Ring.Segment.FillSlot` | src/transport/shm/segment.cpp:306-331 | the next slot is marked and filled; every other committed message stays readable |
| `Ring.Segment.Commit` | src/transport/shm/segment.cpp:336-345 | the filled slot becomes the newest message of the log |
| `RingRefinement.RingRefinesQueue` | src/transport/shm/segment.cpp:348-409 | for any sequence of publishes and reads, with no failed fill or a depth below the slot count, a reader of the ring sees the same messages and the same pending counts as a reader of the in-memory drop-oldest mailbox |
| `RingRefinement.FailedFillBoundary` | src/transport/shm/segment.cpp:327-332 | with failed fills the two agree on all sequences of operations if and only if the depth is less than the slot count |
| `RingRefinement.FailedFillShows` | src/transport/shm/segment.cpp:327-332 | at depth = slot count, filling the ring and failing one fill shows: the queue delivers the oldest message, the ring does not |
| `RingRefinement.WriteRelated` | src/transport/inmemory/inmemory_transport.cpp:164-198 | a committed publish keeps ring and mailbox related and shows the same pending count |
| `RingRefinement.ReadRelated` | src/transport/shm/segment.cpp:348-398 | a read keeps them related and returns the same message and count |
| `RingRefinement.UnreadIsLast` | src/transport/shm/segment.cpp:146-150 | with one more message a reader's unread messages are the newest of those it had and the new one, up to its depth |
| `RingSteps.UninterruptedCallIsTryRead` | src/transport/shm/segment.cpp:348-398 | in every run of the step machine, a TryRead during which nobody else steps returns the message, drops and cursor of the object's TryRead, whatever publish failed or died before or is under way |
| `RingSteps.CallIsTryRead` | src/transport/shm/segment.cpp:348-398 | the same from any state that keeps the ring's invariant |
| `RingSteps.MarkedIsTorn` | src/transport/shm/segment.cpp:311-342 | a writer that dies at any store from the mark to the one before write_seq leaves what a failed fill leaves: the log as it was and the message of a ring ago lost |
| `RingSteps.CarriesUnlessLost` | src/transport/shm/segment.cpp:362-374 | within the depth a slot carries its sequence exactly if its message is not that one |
| `RingSteps.PublishAloneIsPublish` | src/transport/shm/segment.cpp:276-346 | with the lock free, a publish that nothing interrupts can always complete and commits what the object's Publish commits |
| `RingRefinement.OldestIsGone` | src/transport/shm/segment.cpp:309-332 | after a failed fill of a full ring the next read differs |
| `Notify.BlockedMissesOnlyOwed` | src/transport/shm/shm_transport.cpp:247-280 | while the dispatcher is blocked with the notify word still equal to what it observed, every committed sequence above last_seen belongs to a publisher that has yet to bump the word |
| `Notify.BlockedWithMovedWordIsBeingWoken` | src/transport/shm/platform_linux.cpp:292-314 | a dispatcher blocked although the word moved is about to be woken by the publisher that moved it |
| `Notify.AsleepMeansNotFannedOut` | src/transport/shm/shm_transport.cpp:282-313 | a parked blocking Read with unread data implies that the newest sequence has not been fanned out to it yet, and that the dispatcher has not seen it or is on its way to this reader |
| `Notify.SleepersAreOwedAWakeup` | src/transport/shm/shm_transport.cpp:247-381 | through both layers: data that a parked reader could read is owed by a publisher, or a wake-up is in flight |
| `Notify.QuiescentMeansNobodySleepsOnData` | src/transport/shm/shm_transport.cpp:346-381 | once all publishers are done, no reader sleeps on unread data |
| `Notify.StepKeepsInv` | src/transport/shm/shm_transport.cpp:247-381 | every step of publishers, dispatcher and readers keeps the eventcount invariant |
| `Notify.RunKeepsInv` | src/transport/shm/shm_transport.cpp:247-381 | it holds in every reachable state |
| `Participants.NoTwoHoldOneIndex` | src/transport/shm/segment.cpp:411-444 | in every run where no reclaim overtakes a release half done, no two live participants hold the same index |
| `Participants.OrderlyMeansExclusive` | src/transport/shm/segment.cpp:411-491 | a run has only exclusive orderly continuations, from every state of it, if and only if no reclaim in it overtakes a release |
| `Participants.FreeingLiveIsTheBoundary` | src/transport/shm/segment.cpp:473-491 | a step from an orderly state can be continued in order to two live holders of one index if and only if it is a reclaim that frees a live owner's entry; within 2^30 claims, if and only if it overtakes a release |
| `Participants.FreeingLiveBreaksExclusion` | src/transport/shm/segment.cpp:434-491 | on a table of any size, from any such step, the continuation: newcomers claim the freed entry before and after the late state store, or beside the owner that still holds it |
| `Participants.OvertakingBreaksExclusion` | src/transport/shm/segment.cpp:440-443 | the same for every reclaim that runs between the stores of a release |
| `Participants.TimelyFreesLive` | src/transport/shm/segment.cpp:484-488 | with fewer than 2^30 claims since it looked, a reclaim frees a live owner's entry exactly if it overtakes its release |
| `Participants.OnlyOwnerFrees` | src/transport/shm/segment.cpp:434-444 | in an orderly run an entry that a live process holds is freed by that process, or by the overtaking step that the condition excludes |
| `Participants.ReclaimFreesOnlyDead` | src/transport/shm/segment.cpp:473-491 | a reclaim in time whose compare-and-swap succeeds frees the entry of a dead process, unless it overtakes a release |
| `Participants.ReclaimSeesCurrentClaim` | src/transport/shm/segment.cpp:484-488 | with fewer than 2^30 claims in between, a compare-and-swap that succeeds compares with the claim that was read |
| `Participants.OvertakenReleaseBreaksExclusion` | src/transport/shm/segment.cpp:440-443 | an instance from the initial state: a reclaim runs between the stores of a release and two live participants end up with index 0 |
| `Participants.StepKeepsInv` | src/transport/shm/segment.cpp:411-491 | every step in time keeps the table's invariant, unless a reclaim overtakes a release |
| `Participants.SparingStepKeepsInv` | src/transport/shm/segment.cpp:411-491 | so does every step, however late, that frees no live owner's entry |
| `Scheduler.Select` | src/scheduler/scheduler.cpp:848-870 | of the selected event and any other eligible one, the selected has the higher effective priority, or the same and the earlier due time, or the same in both and an earlier place in the queue; none is selected only if none is eligible; the highest declared priority is exact |
| `Scheduler.ChosenIsUnique` | src/scheduler/scheduler.cpp:856-869 | effective priority, due time and queue order leave exactly one choice |
| `Scheduler.ChosenGoesFirst` | src/scheduler/scheduler.cpp:864-868 | the loop's strictly-better test, kept as it is, amounts to that order on the numbers |
| `Scheduler.AgingLaw` | src/scheduler/scheduler.cpp:582-592 | k whole aging intervals waited raise the declared priority by k, at most by 2^40; without an interval or a wait it stays |
| `Scheduler.Scheduler.QueueEvent` | src/scheduler/scheduler.cpp:594-608 | coalesces with a queued event of the component and leaves the queue as it is, or appends one with the given deadline and priority, queued now and due at now + deadline for a positive deadline in range, else never |
| `Scheduler.Scheduler.Enqueue` | src/scheduler/scheduler.cpp:610-621 | refused unless running and not stopping, and then nothing changes |
| `Scheduler.Scheduler.OnDataAvailable` | src/scheduler/scheduler.cpp:623-647 | an any-trigger makes one QueueEvent call at every arrival and keeps its marks; an all-trigger makes none while another input is missing and only marks this one, and makes one with the last, all marks taken back; nothing once stopping |
| `Scheduler.Scheduler.TakeNext` | src/scheduler/scheduler.cpp:838-881 | takes exactly the event that goes first: out of the queue and the queued set, into the executing set, counted as aged exactly if an eligible event has a higher declared priority; nothing if none is eligible |
| `Scheduler.Scheduler.FinishEvent` | src/scheduler/scheduler.cpp:885-922 | accounts for the event; if it failed, while stopping, or without dependents nothing is marked or queued, otherwise all its dependents are marked |
| `Scheduler.Scheduler.Mark` | src/scheduler/scheduler.cpp:898-917 | one upstream completes: the same law as for data, any fires at once, all with the last upstream and then resets, and the queued event has the trigger's deadline and priority |
| `Scheduler.ArrivedIsLawful` | src/scheduler/scheduler.cpp:632-641 | the code's branch on the policy obeys the law of arrivals |
| `Scheduler.FinishLeaves` | src/scheduler/scheduler.cpp:885-893 | a completion that failed, comes while stopping or has no dependents leaves the queue and all marks alone |
| `TriggerLaws.AllFiresWhenComplete` | src/scheduler/scheduler.cpp:632-641 | from no marks, and for any sequence of arrivals, an all-trigger fires at an arrival if and only if every input has arrived since it last fired |
| `TriggerLaws.AnyFiresAlways` | src/scheduler/scheduler.cpp:629-631 | an any-trigger fires at every arrival |
| `TriggerLaws.FiresOnceComplete` | src/scheduler/scheduler.cpp:632-641 | from a moment without marks it does not fire before every input has arrived, and fires then; meanwhile its marks are what has arrived |
| `TriggerLaws.FireAllMarksOnce` | src/scheduler/scheduler.cpp:897-917 | among all the marks of one completion each trigger obeys the law of a single arrival, and its component is queued if it fires |
| `TriggerLaws.FireAllElsewhere` | src/scheduler/scheduler.cpp:897-917 | a trigger that the completion does not mark stays as it is |
| `TriggerLaws.SuccessQueues` | src/scheduler/scheduler.cpp:893-918 | a success makes one QueueEvent call for each dependent that fires and no other, and every event it appends has the component, priority and deadline of one of them |
| `TaskFirings.QueuedOnceAllSucceeded` | src/scheduler/scheduler.cpp:512-578 | in every run on an accepted graph, a component with a declared all-trigger that is unmarked at some state is queued by the step with which each of its declared upstream tasks has succeeded since, and the trigger does not fire before; then it is unmarked again |
| `TaskFirings.UnmarkedAtStart` | src/scheduler/scheduler.cpp:527-536 | every trigger is unmarked when the scheduler starts |
| `TaskFirings.AnyIsQueuedAtOnce` | src/scheduler/scheduler.cpp:893-918 | a component with an any-trigger is queued whenever one of its declared upstream tasks succeeds |
| `TaskFirings.SuccessQueuesWhatFires` | src/scheduler/scheduler.cpp:893-918 | in every run the events that a success adds are exactly accounted for by the dependents that fire |
| `TaskFirings.DependentsAreSeparate` | src/scheduler/scheduler.cpp:538-548 | no success marks the same trigger twice |
| `DispatchOrder.HigherOrEarlierGoesFirst` | src/scheduler/scheduler.cpp:848-880 | over runs: of two pending events the one with the higher effective priority is dispatched first, and with equal ones the one due earlier, if it may run when the other is dispatched |
| `DispatchOrder.QueuedFirstGoesFirst` | src/scheduler/scheduler.cpp:863-868 | with equal effective priority and due time the one queued first is dispatched first |
| `DispatchOrder.StaysUntilDispatched` | src/scheduler/scheduler.cpp:876-878 | a pending event leaves the queue only by being dispatched |
| `Scheduler.Scheduler.BeginStop` | src/scheduler/scheduler.cpp:361-392 | refused to the scheduler's own threads, to the thread that is starting it and while stopping; a no-op when not running; else the drain begins |
| `Scheduler.Scheduler.FinishStop` | src/scheduler/scheduler.cpp:408-420 | the state after the workers are joined |
| `Scheduler.QueueKeepsInv` | src/scheduler/scheduler.cpp:594-608 | queueing keeps the queued set equal to the queue's components without duplicates, and calls = coalesced + dispatched + active + pending |
| `Scheduler.TakeKeepsInv` | src/scheduler/scheduler.cpp:876-880 | so does taking an event |
| `Scheduler.FinishKeepsInv` | src/scheduler/scheduler.cpp:885-922 | so does finishing one, with all its dependents |
| `Scheduler.DataArrivedKeepsInv` | src/scheduler/scheduler.cpp:623-647 | so does arriving data |
| `Scheduler.FireAllKeepsInv` | src/scheduler/scheduler.cpp:893-918 | so does marking a list of dependents |
| `Scheduler.FireAllFrame` | src/scheduler/scheduler.cpp:893-918 | marking dependents changes neither the executing set nor the counters of dispatched and active events |
| `SchedulerRuns.QueueIsConsistent` | src/scheduler/scheduler.cpp:594-621 | in every reachable state: queued set = components of the queue, no duplicates; no component on two workers; the executing set is what the workers run and has active_events members; total calls = coalesced + dispatched + active + pending |
| `SchedulerRuns.StepKeepsInv` | src/scheduler/scheduler.cpp:826-930 | every critical section keeps these, in any interleaving of workers, triggers and Stop |
| `SchedulerRuns.RunKeepsInv` | src/scheduler/scheduler.cpp:826-930 | so they hold in every reachable state |
| `SchedulerRuns.FinishAppends` | src/scheduler/scheduler.cpp:893-918 | a completion only appends to the queue, events stamped with its own time |
| `Fairness.BoundedBypass` | src/scheduler/scheduler.cpp:582-608 | with aging interval I > 0 and N components, once a pending event of priority p has waited (pmax - p + 1) * I, and while its wait is under 2^40 * I, at most N - 1 further dispatches that could have picked it pick another |
| `Fairness.OverdueBeatsNewer` | src/scheduler/scheduler.cpp:582-592 | an event that has waited that long beats every event queued later, whatever its priority up to pmax |
| `Fairness.BypassedOnlyByOlder` | src/scheduler/scheduler.cpp:848-870 | so only an older event can be picked in its place |
| `Fairness.BypassesUseUpOlder` | src/scheduler/scheduler.cpp:848-880 | each bypass uses up an older event, and none is added |
| `Draining.StopDrains` | src/scheduler/scheduler.cpp:356-435 | after stopping is set no event is ever queued, and when Stop returns the events queued before have been dispatched, each once, and nothing is pending or active |
| `Draining.StoppingRun` | src/scheduler/scheduler.cpp:840-846 | while stopping, what is pending plus what was dispatched since is what was pending at the start |
| `Draining.DrainEnds` | src/scheduler/scheduler.cpp:838-930 | however triggers and callers interleave with it, the workers take no more steps before Stop returns than there was work when stopping was set |
| `Draining.StoppingIsNotStuck` | src/scheduler/scheduler.cpp:394-406 | and until then one of them can always take, finish or leave, or Stop returns |
| `Draining.StoppingStepUsesWork` | src/scheduler/scheduler.cpp:838-930 | while stopping, each step of a worker uses up work and no other step adds any |
| `Draining.LeftMeansDrained` | src/scheduler/scheduler.cpp:844-846 | a worker leaves only when the queue is empty |
| `Kahn.CountVisited` | src/configuration/configuration.cpp:113-132 | the ready-queue loop visits all nodes if and only if the multigraph has no cycle |
| `Kahn.Visit` | src/configuration/configuration.cpp:121-128 | visiting a node keeps in-degrees equal to the unvisited incoming edges and queues exactly the nodes that reach zero |
| `Kahn.FullOrderIsAcyclic` | src/configuration/configuration.cpp:130-133 | visiting everything rules out a cycle |
| `Kahn.StuckMeansCycle` | src/configuration/configuration.cpp:130-133 | stopping early exhibits a cycle among the unvisited nodes |
| `Kahn.TopologicalOrder` | src/scheduler/scheduler.cpp:556-568 | an acyclic multigraph has a topological order |
| `TaskGraph.ValidateTaskDependencies` | src/configuration/configuration.cpp:81-134 | accepts if and only if no trigger has a self, duplicate or unknown dependency and the dependency multigraph is acyclic; reports a cycle exactly when the rest is in order |
| `TaskGraph.InstallTaskTriggers` | src/scheduler/scheduler.cpp:512-578 | the scheduler's own check: the same, and every task trigger has a dependency; on success input j of trigger t of component c is listed exactly once for the upstream that c declares there and nothing else is listed, and each trigger is kept with its declared policy, priority and deadline and one false mark per dependency |
| `TaskGraph.Check` | src/scheduler/scheduler.cpp:512-578 | the two checks share scan, tables and verdict |
| `TaskGraph.Scan` | src/configuration/configuration.cpp:83-112 | in-degrees and dependents are those of the declared dependencies; the scan refuses exactly the bad triggers |
| `TaskGraph.LinksOnce` | src/scheduler/scheduler.cpp:537-548 | every declared dependency, and nothing else, gives one dependent, with its own trigger and input numbers |
| `TaskGraph.EdgesAreDeclared` | src/configuration/configuration.cpp:107-108 | the graph has an edge exactly where a trigger declares one |
| `TaskGraph.LinksAreWired` | src/scheduler/scheduler.cpp:572-576 | so what is installed is what is declared |
| `TaskGraph.CheckOne` | src/configuration/configuration.cpp:98-106 | a dependency on itself, a repeated one and an unknown one are told apart |
| `TaskRuns.AcceptedWorkDiesOut` | src/scheduler/scheduler.cpp:512-578 | a scheduler started on components that InstallTaskTriggers accepts only ever has finite work: from any state of any run, a bound on the dispatches and completions that can follow without an external trigger |
| `TaskRuns.AcceptedIsInstalled` | src/scheduler/scheduler.cpp:512-578 | what InstallTaskTriggers installs is the wiring that the runs and the measure need |
| `TaskRuns.StepKeepsInstalled` | src/scheduler/scheduler.cpp:826-930 | no step rewires a component |
| `TaskRuns.WorkDiesOut` | src/scheduler/scheduler.cpp:884-922 | on an acyclic graph with no further external triggers, every run of dispatches and completions ends: a bound on its length from the state it starts in |
| `TaskRuns.InternalStepDoesWork` | src/scheduler/scheduler.cpp:838-922 | each dispatch and each completion lowers the measure that weights a component by its downstream paths |
| `TaskRuns.WeightUnfolds` | src/scheduler/scheduler.cpp:893-918 | a component weighs one more than all it may queue on completion |
| `TaskRuns.FinishAddsAtMost` | src/scheduler/scheduler.cpp:893-918 | a completion queues no more weight than the completed component carried |
| `ServiceHeader.DecodeUndoesEncode` | src/service/service.cpp:107-141 | for every header and payload, decoding the encoding with its own magic gives both back, and with another magic is refused |
| `ServiceHeader.EncodeUndoesDecode` | src/service/service.cpp:107-141 | an accepted message is the encoding of what it decodes to |
| `ServiceHeader.Encode` | src/service/service.cpp:107-120 | the buffer holds the header's fields at their offsets, then the payload |
| `ServiceHeader.Decode` | src/service/service.cpp:124-141 | accepts exactly messages of 32 bytes or more with the magic, version 2 and a status code that exists |
| `ServiceClient.Client.Register` | src/service/service.cpp:940-941 | a call gets the next number and is pending under it with its deadline |
| `ServiceClient.Client.TakeLocked` | src/service/service.cpp:788-794 | one call leaves the map with its result |
| `ServiceClient.Client.Answer` | src/service/service.cpp:853-869 | every reply of this client to a pending call takes it out of the map and completes it, with the payload if the status is OK and with the server's status and text otherwise; any other message changes nothing |
| `ServiceClient.RepliesAreAnswers` | src/service/service.cpp:853-869 | for every header and payload, the encoded reply to a pending call is its answer |
| `ServiceClient.OthersAreNoAnswers` | src/service/service.cpp:856-863 | and no other message is one |
| `ServiceSystem.PendingReplyCompletes` | src/service/service.cpp:853-869 | a client that reads the reply of a run for a call that is still pending completes that call with exactly the run's outcome |
| `ServiceSystem.OtherMessagesAreIgnored` | src/service/service.cpp:856-863 | and is not changed by any reply to another client or to a call that is not pending |
| `ServiceClient.Client.ExpireLocked` | src/service/service.cpp:810-829 | fails, in key order, exactly the calls whose deadline has come, with DEADLINE_EXCEEDED, or all, with UNAVAILABLE, when the server is gone |
| `ServiceClient.Client.TakeBack` | src/service/service.cpp:957-965 | a failed write takes its callback back unless the call has completed |
| `ServiceClient.Client.CancelAll` | src/service/service.cpp:1131-1139 | empties the map, in key order |
| `ServiceCalls.AtMostOnce` | src/service/service.cpp:786-968 | in every interleaving of starts, replies, duplicate or late replies, expiries, write failures and Close, a call's callback is run at most once |
| `ServiceCalls.ExactlyOnce` | src/service/service.cpp:1110-1147 | on a transport that does not track matched readers, each callback has run exactly once when Close has returned, the dispatcher has exited and no start is under way |
| `ServiceCalls.CompletedUnlessLate` | src/service/service.cpp:904-923 | on any transport, the calls then left without a completion are exactly those registered after Close emptied the map and then sent |
| `ServiceCalls.LateMatchIsLost` | src/service/service.cpp:908-915 | such a call exists on a transport that tracks matched readers: a match found after Close is returned before `closed` is looked at |
| `ServiceCalls.LateIsNeverCompleted` | src/service/service.cpp:908-915 | and its callback is never run, however the run goes on |
| `ServiceCalls.StepKeepsInv` | src/service/service.cpp:786-968 | every step leaves each callback with exactly one holder: its start, the map, the dispatcher's list, Close's list, or the past |
| `ServiceCalls.RunKeepsInv` | src/service/service.cpp:786-968 | so in every reachable state |
| `ServiceSystem.ReplyIsFromThisCall` | src/service/service.cpp:373-392 | over topics that lose, duplicate and reorder, with distinct client ids, a callback given Ok(p) or the server's error was given what a handler run on that very call's payload returned |
| `ServiceSystem.AnswerIsExplained` | src/service/service.cpp:853-869 | the pending call that a reply completes is the one whose payload the handler was given |
| `ServiceSystem.ServedWasAsked` | src/service/service.cpp:420-457 | a request that is served carries the payload of the call with that client and request number |
| `ServiceSystem.DecodeReply` | src/service/service.cpp:373-380 | a reply carries the run's ids and outcome |
| `ServiceSystem.StepKeepsInv` | src/service/service.cpp:420-457 | every step of clients and server keeps topics, runs and completions explained |
| `ServiceSystem.RunKeepsInv` | src/service/service.cpp:420-457 | so in every reachable state |
| `ServiceSystem.SendersHaveNumbers` | src/service/service.cpp:940-950 | every call about to be sent has a number that fits the header |
| `PortableCodec.DecodeUndoesEncode` | include/puppet_master/transport/portable_codec.h:360-387 | for every schema whose vector elements occupy at least a byte, every value whose counts fit decodes back to itself |
| `PortableCodec.DecodeOfEncoding` | include/puppet_master/transport/portable_codec.h:280-293 | for every schema, a value decodes back to itself exactly if the reader's count check passes at each of its vectors, and is refused otherwise |
| `PortableCodec.EmptyElementsAreRefused` | include/puppet_master/transport/portable_codec.h:280-288 | a vector of elements that occupy nothing is refused unless it is empty |
| `PortableCodec.RoomyCountsPass` | include/puppet_master/transport/portable_codec.h:280-288 | when vector elements occupy at least a byte the count check refuses no valid encoding |
| `PortableCodec.EncodeUndoesDecode` | include/puppet_master/transport/portable_codec.h:246-345 | any accepted byte string re-encodes to itself |
| `PortableCodec.AcceptedAreEncodings` | include/puppet_master/transport/portable_codec.h:246-345 | the accepted byte strings are exactly the encodings whose counts pass |
| `PortableCodec.NoAcceptedExtension` | include/puppet_master/transport/portable_codec.h:302-315 | no accepted message extends another: every truncation or extension of one is refused |
| `PortableCodec.ParseOfWire` | include/puppet_master/transport/portable_codec.h:250-300 | inside a message a printed value is read back with what follows it left over, exactly if its counts pass |
| `PortableCodec.WireOfParse` | include/puppet_master/transport/portable_codec.h:250-300 | whatever the reader accepts at the front of a message is a value of the type, printed, and what follows |
| `PortableCodec.OccupiedByte` | include/puppet_master/transport/portable_codec.h:127-150 | a type occupies a byte exactly if each of its values does |
| `PortableCodec.CountsPassWithMore` | include/puppet_master/transport/portable_codec.h:332-340 | more bytes behind a value never make a count fail |
| `PortableVisitors.Sizer.Visit` | include/puppet_master/transport/portable_codec.h:127-150 | adds exactly the number of bytes of the wire form |
| `PortableVisitors.Writer.Visit` | include/puppet_master/transport/portable_codec.h:168-196 | succeeds exactly if it had not failed, all counts fit and the buffer has room for all; then the wire form is appended; nothing behind it is touched |
| `PortableVisitors.Reader.Visit` | include/puppet_master/transport/portable_codec.h:246-300 | reads what the parser reads and stays failed after a failure |
| `PortableVisitors.Reader.Count` | include/puppet_master/transport/portable_codec.h:332-340 | accepts a count only if so many elements can be left |
| `PortableVisitors.Reader.Finish` | include/puppet_master/transport/portable_codec.h:305-315 | accepts only if every byte was used |
| `PortableVisitors.MaxSize` | include/puppet_master/transport/portable_codec.h:360-365 | the exact size of the wire form |
| `PortableVisitors.Encode` | include/puppet_master/transport/portable_codec.h:367-375 | succeeds exactly when every count fits four bytes and the buffer holds MaxSize bytes; uses exactly that many and leaves the rest of the buffer alone |
| `PortableVisitors.Decode` | include/puppet_master/transport/portable_codec.h:377-387 | the value of the message, if all of it is one |
| `WireLaws.BoolByte` | include/puppet_master/transport/portable_codec.h:256-262 | a bool is the byte 1 if true and 0 if not, and every other byte is refused |
| `WireLaws.ScalarBytewise` | include/puppet_master/transport/portable_codec.h:39-45 | numbers are little-endian, negative ones in two's complement; a string is its count in four bytes and its bytes |
| `WireLaws.ListBytewise` | include/puppet_master/transport/portable_codec.h:39-45 | a vector is its count in four bytes and its elements in order, an array its elements alone, a struct its fields in order |
| `WireLaws.LittleIsLeastFirst` | src/service/service.cpp:52-71 | the bytes of a field, least significant first, at every width |
| `WireLaws.HeaderBytewise` | src/service/service.cpp:107-120 | a request starts with PMRQ, a reply with PMRP, and the other fields follow byte by byte |
| `PortableFields.DecodeFields` | tools/portable_fields.cpp:459-479 | for every list of field types the tool accepts exactly the byte strings that the codec accepts for a struct of those fields, and shows the values the codec decodes |
| `PortableFields.StringCounts` | tools/portable_fields.cpp:284-288 | the tool's tighter bound on the number of strings refuses only what the codec refuses too |
| `PortableFields.ToldIsShown` | tools/portable_fields.cpp:319-364 | a scalar or string is shown as the value the codec reads there |
| `PortableFields.Decoder.Field` | tools/portable_fields.cpp:272-301 | one field: the value the codec reads, as text, or a refusal exactly when the codec refuses |
| `PortableFields.Decoder.One` | tools/portable_fields.cpp:319-364 | one scalar or string |
| `PortableFields.Quote` | tools/portable_fields.cpp:249-266 | quotes with escapes, byte by byte |
| `WireLaws.BoolWords` | tools/portable_fields.cpp:155-164 | 1 is shown as true and 0 as false, and true, 1, false and 0 are understood |
| `WireLaws.QuotedBytes` | tools/portable_fields.cpp:249-266 | which bytes are escaped, and how |
| `WireLaws.ListShown` | tools/portable_fields.cpp:290-300 | brackets, and a comma and a blank between elements |
| `WireLaws.BlanksDropped` | tools/portable_fields.cpp:75-84 | blanks around a value are dropped, but not those of a string |
| `IntegerText.ParseInteger` | tools/portable_fields.cpp:88-137 | accepts exactly the texts whose unbounded value is in range of the type (no minus sign for unsigned types); the bits are its 64-bit two's complement |
| `IntegerText.Magnitude` | tools/portable_fields.cpp:106-122 | the digit loop with its overflow check computes the unbounded value or refuses exactly those above 2^64 - 1 |
| `IntegerText.OverflowCheck` | tools/portable_fields.cpp:118-121 | the check before each multiplication is exact |
| `IntegerText.IntegerOfDecimal` | tools/portable_fields.cpp:88-137 | the decimal of any integer is read as that integer exactly if it is in range |
| `WireLaws.NumbersUnderstood` | tools/portable_fields.cpp:88-137 | signs, hex digits in both cases, and the ends of the ranges |
| `PortableText.DecimalRoundTrip` | tools/portable_fields.cpp:427-479 | for every integer type and every integer: in range, its decimal is encoded and shown again as the same decimal; out of range, it is refused |
| `PortableText.DecimalsAreRead` | tools/portable_fields.cpp:436-457 | a comma-separated list is encoded exactly if each number is in range and the shape allows so many |
| `PortableText.DecimalsRoundTrip` | tools/portable_fields.cpp:427-479 | and is shown again as the same decimals in brackets |
| `PortableText.EncodedTextIsRead` | tools/portable_fields.cpp:152-202 | whatever text the tool encodes, the codec reads back as the value it denotes |
| `PortableText.EncodeField` | tools/portable_fields.cpp:427-457 | appends the codec's wire form of the value that the text denotes, or refuses exactly if it denotes none |
| `PortableText.EncodeScalar` | tools/portable_fields.cpp:152-202 | the same for one scalar |
| `PortableText.CutToWidth` | tools/portable_fields.cpp:68-73 | the parser's 64-bit two's complement, cut to the width, is the type's own |
| `PortableText.SplitCommas` | tools/portable_fields.cpp:204-219 | the parts between commas; none of an empty text |
| `PortableText.SplitUndoesJoin` | tools/portable_fields.cpp:204-219 | splitting decimals joined by commas gives them back |
| `RecordingFiles.CutFileIsReplayed` | src/transport/recording.cpp:335-395 | for any sequence of successful AddTopic and Write calls and any cut behind the file header, the reader yields without error exactly the messages of the records wholly before the cut, with their topics, and reports truncated exactly if the cut is not between records |
| `RecordingFiles.CutFileOpens` | src/transport/recording.cpp:311-333 | such a file opens |
| `Recording.ReplayOfCut` | src/transport/recording.cpp:335-395 | the same for the record part of a file, with records of unknown kinds anywhere in it |
| `Recording.WholeIsLargest` | src/transport/recording.cpp:335-395 | the records counted as wholly before the cut are the most that fit |
| `Recording.OthersChangeNothing` | src/transport/recording.cpp:373-375 | removing all records of unknown kinds changes nothing of what a reader gets |
| `Recording.ReadTopicOf` | src/transport/recording.cpp:271-294 | decoding a written topic record gives the topic, with its parameter map, in whatever order the map was listed |
| `Recording.ReadMessageOf` | src/transport/recording.cpp:376-392 | decoding a written message record gives the message |
| `WireLaws.MessageBytewise` | src/transport/recording.cpp:202-221 | a message record holds topic, time, sequence and payload, in that order |
| `WireLaws.TopicBytewise` | src/transport/recording.cpp:169-200 | a topic record holds number, name, type, encoding, version and parameters, in that order |
| `WireLaws.RecordBytewise` | src/transport/recording.cpp:122-140 | a record is its kind, its size and its body |
| `WireLaws.FileHeaderBytewise` | src/transport/recording.cpp:152-160 | a file starts with PMREC001 and version 1 |
| `Recording.BadTopicIsCorrupt` | src/transport/recording.cpp:288-290 | a topic with number 0 or a number already declared is corrupt, and nothing is replayed from there on |
| `Recording.ShortTopicIsCorrupt` | src/transport/recording.cpp:273-280 | so is a topic too short for its fields |
| `Recording.BadMessageIsCorrupt` | src/transport/recording.cpp:376-392 | so is a message that is too short, has a time beyond the signed range or an undeclared topic |
| `RecordingFiles.Writer.Emit` | src/transport/recording.cpp:122-140 | appends header, body and tail of one record, or nothing if closed or too large |
| `RecordingFiles.Writer.AddTopic` | src/transport/recording.cpp:169-200 | numbers topics from 1 and appends the declaration, exactly if the names are valid, the writer is open and the record is not too large |
| `RecordingFiles.Writer.Write` | src/transport/recording.cpp:202-221 | appends a message exactly if its topic was added, its time is not negative, the writer is open and the record is not too large |
| `RecordingFiles.LongPairs` | src/transport/recording.cpp:187-189 | the length check on parameters refuses nothing that the record size limit would let through |
| `RecordingFiles.Reader.Next` | src/transport/recording.cpp:335-395 | hands out the replay of the rest of the file one message at a time, and says why there is no more |
| `RecordingFiles.DecodeTopic` | src/transport/recording.cpp:271-294 | the topic of a record body, if it is well-formed |
| `RecordingFiles.Open` | src/transport/recording.cpp:311-333 | opens exactly the files with the magic and version 1 |
| `CommandLine.SplitUndoesJoin` | src/configuration/supervisor.cpp:206-231 | for every list of argument words, splitting the joined line by the rules of Microsoft's "Parsing C command-line arguments" gives back the same list, for every program name that is plain or has an even number of quotes and no blank behind an odd number of them |
| `CommandLine.RoundTripBoundary` | src/configuration/supervisor.cpp:206-231 | for all lists of words exactly for those program names, which include every one without a quote |
| `CommandLine.OthersShift` | src/configuration/supervisor.cpp:206-231 | for every other program name, a list of words that is not given back: the program name is split by other rules |
| `CommandLine.QuoteInProgramShifts` | src/configuration/supervisor.cpp:206-231 | one of them, `a"`, swallows its first argument |
| `CommandLine.AppendQuoted` | src/configuration/supervisor.cpp:208-231 | appends the quoted word, backslash counter and all |
| `WireLaws.WordsInQuotes` | src/configuration/supervisor.cpp:208-231 | which words are put between quotes |
| `WireLaws.QuotesInWords` | src/configuration/supervisor.cpp:208-231 | where backslashes are added and doubled |
| `CommandLine.LaunchLine` | src/configuration/supervisor.cpp:297-303 | the line handed to CreateProcess: refused exactly for an empty command, and split into the command's arguments if the program name keeps them in place |
| `RestartRuns.RestartsWait` | src/configuration/supervisor.cpp:446-470 | in every run each restart waits min(restart_delay * 2^r, max(max_restart_delay, restart_delay)), r being the restarts since the last stable run, and r is below a nonzero max_restarts |
| `RestartRuns.StartsAreDue` | src/configuration/supervisor.cpp:494-496 | a process starts only when none of the node is running, and not before the announced wait is over |
| `RestartDecisions.EveryEndIsDecided` | src/configuration/supervisor.cpp:446-481 | in every run, each exit and each failed start is followed at once by a restart exactly if the policy is always, or on-failure and it failed, and the restarts since the last stable run are within the budget; by giving up and being done exactly if a restart is wanted and the budget is used up; and otherwise by being done |
| `RestartDecisions.OnlyEndsAreAnswered` | src/configuration/supervisor.cpp:446-481 | a node is restarted or given up only right after its process ended or failed to start |
| `RestartDecisions.RequiredEndsTheSystem` | src/configuration/supervisor.cpp:477-480 | a required node that is done gives the reason to end, with its outcome, if there is none |
| `RestartDecisions.ReasonsAreTrue` | src/configuration/supervisor.cpp:477-508 | a run ends for a required node that is done with that outcome, or because all nodes are done, and then failed exactly if one of them did |
| `RestartDecisions.StopsLastFirst` | src/configuration/supervisor.cpp:524-544 | nodes are stopped in the reverse of their order |
| `RestartDecisions.ReturnsAtDeadline` | src/configuration/supervisor.cpp:511-521 | supervision until a deadline returns for a reason to end, a stop request, or with the clock at the deadline |
| `RestartDecisions.LastRound` | src/configuration/supervisor.cpp:511-521 | a round that ends at the deadline or later is the last |
| `RestartDecisions.HeadStart` | src/configuration/supervisor.cpp:570-577 | the next node is started only when the start delay of the one before has passed, unless the system is ending |
| `RestartRuns.DoneIsForGood` | src/configuration/supervisor.cpp:472-481 | after a node is done nothing is reported of it again: it never starts again |
| `RestartRuns.FirstReasonStays` | src/configuration/supervisor.cpp:477-480 | the first reason to end is never replaced |
| `RestartRuns.NoReasonMeansStopRequested` | src/configuration/supervisor.cpp:511-521 | a run that ends without a reason has seen a stop request |
| `RestartRuns.RunEndsClean` | src/configuration/supervisor.cpp:560-583 | Run returns with every node done and no child held, and the log accounts for every start |
| `RestartRuns.RunKeepsInv` | src/configuration/supervisor.cpp:560-583 | over the whole run each node's phase, restarts, delay and child agree with the log |
| `RestartRuns.EndedKeepsInv` | src/configuration/supervisor.cpp:446-481 | the restart policy keeps that, for every exit and failed start |
| `RestartRuns.WaitDoubles` | src/configuration/supervisor.cpp:467-468 | doubling the capped delay is capping the doubled delay |
| `RestartRuns.UntilKeepsInv` | src/configuration/supervisor.cpp:511-521 | supervision keeps it until there is a reason to stop |
| `RestartRuns.StopKeepsInv` | src/configuration/supervisor.cpp:524-544 | so does stopping all nodes |
| `Supervisor.Supervisor.Ended` | src/configuration/supervisor.cpp:446-481 | the node, the log and the ending become those of the restart machine, whose decisions RestartDecisions.EveryEndIsDecided states on the policies |
| `Supervisor.Supervisor.Start` | src/configuration/supervisor.cpp:430-442 | a launch that succeeds leaves the node running and logs the start; one that fails is logged and handed to the restart policy |
| `Supervisor.Supervisor.Supervise` | src/configuration/supervisor.cpp:484-508 | the same for a round over the nodes, with the check that all are done |
| `Supervisor.Supervisor.SuperviseUntil` | src/configuration/supervisor.cpp:511-521 | the same until a deadline, a stop request or a reason to end |
| `Supervisor.Supervisor.Stop` | src/configuration/supervisor.cpp:526-542 | a running node is asked to stop, killed exactly if the wait for its exit fails, and done |
| `Supervisor.Supervisor.Check` | src/configuration/supervisor.cpp:486-498 | a running node that has exited is reported with that exit and the time of the look; a node in backoff is started exactly when its time has come |
| `Supervisor.Supervisor.StopAll` | src/configuration/supervisor.cpp:524-544 | stopping, last node first, follows the restart machine |
| `Supervisor.Supervisor.Run` | src/configuration/supervisor.cpp:560-583 | the same for the whole run |

## Left out

- C++ memory orders and fences: the step machines are sequentially consistent, one atomic load or store per step; payload bytes are copied one at a time.
- Counters: ring sequences stay below bit 63 (the writing bit), a client makes fewer than 2^64 requests, a recording has fewer than 2^32 - 1 topics, and a node restarts fewer than 2^32 times since its last stable run.
- Notify.BlockedMissesOnlyOwed: assumes fewer than 2^32 bumps of the notify word between a dispatcher's load and its wait, as the word wraps around.
- Participants.NoTwoHoldOneIndex: holds where no reclaim overtakes a release and fewer than 2^30 claims fall between a reclaim's read and its compare-and-swap; Participants.OrderlyMeansExclusive and Participants.FreeingLiveIsTheBoundary give the exact conditions, the latter without the second assumption.
- Segment opening, retirement, inspection, SlotStride and SegmentSize: set-up arithmetic and file handling around the ring.
- ReadNewest, and the callbacks of data-available: they read the same slots with the same checks.
- Closing and removing readers in the notify layer, and dropping the last reference from a callback: object lifetime rather than wake-ups.
- Mailbox.Mailbox.Push: the wait of the blocking policy and the callback of data-available are left out.
- Mailbox.Mailbox.Read: the read that waits, with its timeout, is left out.
- Waiting: blocking mailbox reads and the blocking overflow policy return what the queue offers; timeouts are not modelled.
- Mailbox.Mailbox.PushQueued: a full queue with the blocking policy reports that it would wait, and the wait itself is left out.
- Scheduler start-up, component execution, periodic timers, observers, WaitIdle and the lookup in Trigger: thin, or settled by one branch.
- Presence heartbeats of services: whether the server is alive is an arbitrary verdict at each step.
- Reply writers, their cache and the wait for a match on the server side: a reply that is not written is one that is lost.
- ServiceCalls.AtMostOnce: steps of one Start may interleave with everything else even when it is called from a callback, which is more interleavings than the source has; error texts that the client makes up are not spelled out.
- PortableCodec: `std::vector<bool>` is not a type of the source's codec; the model gives it the meaning the text tool gives it. Enums are their underlying type.
- Floating-point text (FormatFloat, ParseFloat): library behaviour, given as arbitrary functions whose bits fit; floats are IEEE 754 bit patterns.
- ParseFieldType and ToString of field types: a table lookup and brackets.
- PortableText.EncodeField: on a refusal the source leaves the elements before the bad one in the output; the model returns no output.
- Naming rules of topics and message descriptors: their verdict is an input of RecordingFiles.Writer.AddTopic.
- Stream failures while writing a recording: writes succeed, as for the calls that the theorem is about.
- RecordingFiles.Reader.Next: says nothing of reads that go on after a corrupt record.
- CommandLine.SplitUndoesJoin: words with NUL are left out, as a command line ends there.
- Supervisor: starting and signalling processes, log files and the log directory; how long a stop waits is an arbitrary verdict; the run is one in which a stop is requested at some point or a reason to end comes up.
- FastDDS, JSON loading, manifests, command-line tools, exporters, logging and benchmarks: foreign calls, input and output.
