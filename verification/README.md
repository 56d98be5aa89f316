# Magneto, modelled and proved

Magneto is a coroutine network framework. Its threads talk through byte rings, its agents drive parallel talks with
downstream services under deadlines, and a handful of hand-made containers and codecs sit underneath. This project models
that logic in Dafny and proves what it promises, for every input and every run.

Every `.dfy` file belongs to one project; `dafny verify dfyconfig.toml` checks all of it.

| files | what they hold |
|---|---|
| `PipeBytes`, `PipeProtocol`, `PipeInvariant`, `PipeSteps`, `PipeTheorems`, `PipeProgress`, `PipeObject` | `MPSCFixedPipe` as a step protocol with any number of senders: what each step keeps, what holds over every run, progress, and the object whose methods are the atomic steps and keep the protocol's invariant |
| `Session`, `SessionInvariant`, `SessionTheorems`, `SessionExact`, `SessionObject`, `SessionTimers` | `Session` with the `AgentSlave` event handlers and timeouts: accounting, deadlines, verdict, bounded completion, what exactly each event, timeout and retry does, the object that keeps their invariant, and the same on the timers of the events driver |
| `Heap`, `Events` | the addressable heap and, on top of it, the descriptor table and timers of `EventsDriver` |
| `Numbers`, `Hashmap` | walks around a ring of slots, and the open-addressing hashmap as a finite map |
| `ConnsMgr`, `ConnsMgrObject` | health marks, the unhealthy set, weighted choice, avoidance of failed remotes |
| `Clients`, `ClientsObject` | who owns a client, its reader and its descriptor, across slaves, messages and workers |
| `Pool` | the two-level object pool as one stack |
| `Resp`, `RespProofs`, `RespTheorems`, `RespReplies`, `RespObject` | the Redis command encoder and reply parser, their round trip, and every other kind of reply |
| `Rapid` | the rapid frame writer and its incremental reader |
| `Options`, `Machine` | an absent value; the machine's 32-bit `int` |

## What the results say

- **The pipe.** In every run, with any number of senders and across any number of wraps, what the receiver has taken is a
  prefix of what was sent, in reservation order, each message once and byte for byte. Reservations never overlap, the
  receiver's blank test is true exactly at the unused tail, and no publication is lost. No run is ever stuck: while a sender
  is at work some sender can go on, every such step is progress, and from every state everything sent can arrive. A sender gets
  its space exactly when there is room. A pipe accepts
  every legal message whenever it is idle if and only if it is at least twice as large as its largest message; the
  bound `Init` checks does not give this.
- **Sessions.** At every moment the talks counted as done and the talks with a registered event add up to all talks; a session is
  reported once, exactly when no event refers to it; no talk is tried more often than its retries allow; every timer expires by
  the talk's deadline; the report is kOk exactly when the last attempt of every talk that was not skipped succeeded; a failed
  talk with a retry left is tried exactly once more; and one
  pass over the timeouts after the last deadline finishes the session, with the timers as the events driver keeps them.
- **Containers.** The heap, the timer table, the hashmap and the pool each refine a simple thing: a map from handles to values
  with its minimum, a map from descriptors to expiry times, a finite map, a stack of distinct objects.
- **Choice of a remote.** The unhealthy set is exact through any sequence of operations; the number of random values that choose a
  remote is exactly its weight, times its health mark while anything is unhealthy. A retry never goes back to a remote
  its talk has failed on while an untried one is left, and
  the code meets this exactly when something is unhealthy, which a failure reported since the last recovery ensures.
- **Clients.** Every slave's counter equals its clients; every reader out of the pool and every open client descriptor
  belongs to exactly one client; a client is registered only when no waiting client has its descriptor, which is what the timer
  table asks of its callers.
- **Codecs.** A command comes back from the reply parser, whole, exactly when no segment holds a line end and no
  segment but the last holds a '$'; a reply cut short anywhere asks for more; every other kind
  of reply is pinned too. A rapid frame comes out of the reader however its bytes
  are split, with the bytes behind it left unread, and is accepted exactly for the right magic number and version.

## Two places where the code promises less than it seems

- `PoolObjsBase::NumObjsLeft` counts the free objects exactly when no row is full or there are as many rows as objects in a row
  (`Pool.PoolObjs.LeftExactly`; `Pool.LeftWrong` is a pool for which it does not).
- `ProtocolReadRapid::Read` returns the number of missing bytes as an `int`: with 2^31 bytes or more missing the caller sees an
  error, so that reading completes exactly for smaller payloads (`Rapid.CompletesExactly`, with the failing run in
  `Rapid.HugeFails`).

## Model

| member | source | states |
|---|---|---|
| `PipeTheorems.Fifo` | deps/public-cpp/include/public-cpp/mpsc_fixed_pipe/mpsc_fixed_pipe.hpp:181-374 | in every run what the receiver has taken is a prefix of what was sent, in reservation order, once each and byte for byte |
| `PipeTheorems.RingGeometry` | deps/public-cpp/include/public-cpp/mpsc_fixed_pipe/mpsc_fixed_pipe.hpp:291-315 | unconsumed reservations are inside the pipe and pairwise disjoint, every byte outside them is blank, and `to` meets the receiver only in an empty pipe |
| `PipeTheorems.BlankExactlyAtTail` | deps/public-cpp/include/public-cpp/mpsc_fixed_pipe/mpsc_fixed_pipe.hpp:361-374 | the receiver's blank or short-tail test, where it is made, is true exactly where no message starts |
| `PipeTheorems.PublishedAreReady` | deps/public-cpp/include/public-cpp/mpsc_fixed_pipe/mpsc_fixed_pipe.hpp:318-358 | `from` stands at the end of a prefix of ready messages, however senders finish |
| `PipeTheorems.NoLostPublication` | deps/public-cpp/include/public-cpp/mpsc_fixed_pipe/mpsc_fixed_pipe.hpp:318-358 | when no sender is between reserving and publishing, `from` equals `to` in pointer and lap and everything sent is published |
| `PipeTheorems.ReceiverTold` | deps/public-cpp/include/public-cpp/mpsc_fixed_pipe/mpsc_fixed_pipe.hpp:361-374 | the receiver is told of a message if and only if a published one is left |
| `PipeTheorems.Drained` | deps/public-cpp/include/public-cpp/mpsc_fixed_pipe/mpsc_fixed_pipe.hpp:181-185 | from every quiet state the receiver alone can take everything ever sent, one receive and one consume per message |
| `PipeTheorems.NeverJamsExactly` | deps/public-cpp/include/public-cpp/mpsc_fixed_pipe/mpsc_fixed_pipe.hpp:126-151 | every idle state accepts every legal message if and only if the pipe is at least twice the largest message |
| `PipeTheorems.ReservedExactly` | deps/public-cpp/include/public-cpp/mpsc_fixed_pipe/mpsc_fixed_pipe.hpp:291-315 | in every run the CAS on `to` wins if and only if `to` is still what the sender read and there was room: behind `to` on the receiver's lap, or else in front of the receiver, or between `to` a lap ahead and the receiver; the message is then placed at `to`, or at 0 exactly when only the front is free; otherwise nothing changes |
| `PipeTheorems.SentExactly` | deps/public-cpp/include/public-cpp/mpsc_fixed_pipe/mpsc_fixed_pipe.hpp:261-315 | a sender that no one comes between gets its space if and only if there is room now |
| `PipeTheorems.RoomFound` | deps/public-cpp/include/public-cpp/mpsc_fixed_pipe/mpsc_fixed_pipe.hpp:297-314 | with `to` at most a lap ahead, a place is found exactly when there is room, and which |
| `PipeProgress.SomeoneGoesOn` | deps/public-cpp/include/public-cpp/mpsc_fixed_pipe/mpsc_fixed_pipe.hpp:318-358 | while a sender is between its reservation and the end of its publishing, some such sender can take its next step: senders never wait for each other in a ring, and a spinning one finds `from` at its rewind point when its message is next |
| `PipeProgress.WorkIsProgress` | deps/public-cpp/include/public-cpp/mpsc_fixed_pipe/mpsc_fixed_pipe.hpp:261-358 | every step of a sender at work, whichever is taken, brings the senders closer to being done, in a well-founded order |
| `PipeProgress.SendersFinish` | deps/public-cpp/include/public-cpp/mpsc_fixed_pipe/mpsc_fixed_pipe.hpp:261-358 | from every state of every run the senders that have their space can finish by their own steps, sending and taking nothing |
| `PipeProgress.EverythingArrives` | deps/public-cpp/include/public-cpp/mpsc_fixed_pipe/mpsc_fixed_pipe.hpp:181-374 | from every state of every run the threads at work can go on, without a new message, until the receiver has taken everything ever sent |
| `PipeTheorems.RunInv` | deps/public-cpp/include/public-cpp/mpsc_fixed_pipe/mpsc_fixed_pipe.hpp:260-374 | every state of every run satisfies the protocol invariant |
| `PipeTheorems.RunExtends` | deps/public-cpp/include/public-cpp/mpsc_fixed_pipe/mpsc_fixed_pipe.hpp:260-374 | a step whose thread stands at it can always be taken, and touches bytes inside the pipe only |
| `PipeInvariant.Disjoint` | deps/public-cpp/include/public-cpp/mpsc_fixed_pipe/mpsc_fixed_pipe.hpp:291-315 | two unconsumed reservations share no byte |
| `PipeSteps.ClaimSafe` | deps/public-cpp/include/public-cpp/mpsc_fixed_pipe/mpsc_fixed_pipe.hpp:294-313 | a claim computed from an outdated receiver position still keeps `to` behind the receiver |
| `PipeSteps.ReserveInv` | deps/public-cpp/include/public-cpp/mpsc_fixed_pipe/mpsc_fixed_pipe.hpp:291-315 | the CAS on `to`, won or lost, keeps the invariant |
| `PipeSteps.WriteInv` | deps/public-cpp/include/public-cpp/mpsc_fixed_pipe/mpsc_fixed_pipe.hpp:269-273 | writing a message into its reservation disturbs nobody else's bytes |
| `PipeSteps.ReadyInv` | deps/public-cpp/include/public-cpp/mpsc_fixed_pipe/mpsc_fixed_pipe.hpp:318-337 | marking a message ready and looking at `from` leaves every ready message attended by a sender |
| `PipeSteps.RewindInv` | deps/public-cpp/include/public-cpp/mpsc_fixed_pipe/mpsc_fixed_pipe.hpp:327-334 | the rewind store moves `from` over the unused tail to the next lap and no further |
| `PipeSteps.CasInv` | deps/public-cpp/include/public-cpp/mpsc_fixed_pipe/mpsc_fixed_pipe.hpp:339-344 | a CAS on `from` publishes exactly the next message or fails |
| `PipeSteps.CheckInv` | deps/public-cpp/include/public-cpp/mpsc_fixed_pipe/mpsc_fixed_pipe.hpp:346-357 | a sender leaves the catch-up loop only when the next message will be attended by another |
| `PipeSteps.CheckNext` | deps/public-cpp/include/public-cpp/mpsc_fixed_pipe/mpsc_fixed_pipe.hpp:346-353 | a sender still at `from` goes on exactly when the next message is ready |
| `PipeSteps.ReceiveExact` | deps/public-cpp/include/public-cpp/mpsc_fixed_pipe/mpsc_fixed_pipe.hpp:361-374 | after a receive the receiver stands at the oldest unconsumed message, if a published one is left |
| `PipeSteps.ConsumeIs` | deps/public-cpp/include/public-cpp/mpsc_fixed_pipe/mpsc_fixed_pipe.hpp:181-185 | what is handed over is byte for byte the message of the oldest unconsumed reservation |
| `PipeSteps.ConsumeInv` | deps/public-cpp/include/public-cpp/mpsc_fixed_pipe/mpsc_fixed_pipe.hpp:181-185 | consuming keeps the invariant: the freed bytes are blank |
| `PipeObject.MPSCFixedPipe.Init` | deps/public-cpp/include/public-cpp/mpsc_fixed_pipe/mpsc_fixed_pipe.hpp:126-151 | refuses exactly the sizes and notifier settings the code refuses, and otherwise is the initial state of the protocol, with its invariant |
| `PipeObject.MPSCFixedPipe.Look` | deps/public-cpp/include/public-cpp/mpsc_fixed_pipe/mpsc_fixed_pipe.hpp:291-298 | content that is too large is refused, else the sender holds the positions read; the invariant is kept |
| `PipeObject.MPSCFixedPipe.Claim` | deps/public-cpp/include/public-cpp/mpsc_fixed_pipe/mpsc_fixed_pipe.hpp:297-315 | a place is won if and only if `to` has not moved and there was room for the message; the sender then owns it, and the invariant is kept |
| `PipeObject.MPSCFixedPipe.WriteMsg` | deps/public-cpp/include/public-cpp/mpsc_fixed_pipe/mpsc_fixed_pipe.hpp:269-273 | the copies into the byte array are the write step of the protocol and keep the invariant |
| `PipeObject.MPSCFixedPipe.MarkReady` | deps/public-cpp/include/public-cpp/mpsc_fixed_pipe/mpsc_fixed_pipe.hpp:318-337 | the bit set in the array is the ready step of the protocol, and the answer is where the sender stands afterwards |
| `PipeObject.MPSCFixedPipe.RewindFrom` | deps/public-cpp/include/public-cpp/mpsc_fixed_pipe/mpsc_fixed_pipe.hpp:328-340 | one turn of the spin loop: the rewind step exactly when `from` is at the rewind point, else nothing |
| `PipeObject.MPSCFixedPipe.CasFrom` | deps/public-cpp/include/public-cpp/mpsc_fixed_pipe/mpsc_fixed_pipe.hpp:342-344 | the CAS on the object is the publishing step; it wins exactly when `from` is still what the sender saw |
| `PipeObject.MPSCFixedPipe.CatchUp` | deps/public-cpp/include/public-cpp/mpsc_fixed_pipe/mpsc_fixed_pipe.hpp:346-353 | the loop test read from the array is the check step of the protocol |
| `PipeObject.MPSCFixedPipe.HasTodo` | deps/public-cpp/include/public-cpp/mpsc_fixed_pipe/mpsc_fixed_pipe.hpp:361-374 | true exactly when a published message is left, and then the receiver may read and consume it |
| `PipeObject.MPSCFixedPipe.Current` | deps/public-cpp/include/public-cpp/mpsc_fixed_pipe/mpsc_fixed_pipe.hpp:279-281 | the bytes the receiver is pointed at are, whole, the oldest message not consumed |
| `PipeObject.MPSCFixedPipe.MsgConsumed` | deps/public-cpp/include/public-cpp/mpsc_fixed_pipe/mpsc_fixed_pipe.hpp:181-185 | after a receive that answered true: the consume step on the byte array, inside its bounds, one message further |
| `PipeObject.MPSCFixedPipe.ReceiveOne` | src/schedulers/details/scheduler.cpp:103-135 | a round on a mailbox hands over the oldest message exactly when a published one is left |
| `SessionTheorems.Accounting` | src/session.h:65-95 | done talks plus registered talks are all talks, at most one report, a report exactly when no event refers to the session, attempts at most retries plus one |
| `SessionTheorems.Deadline` | src/agents/agent_slave.h:154-177 | for every registered talk last time plus time left, and the expiry of its timer, are not past its end time |
| `SessionTheorems.Verdict` | src/agents/details/agent_slave.cpp:125-135 | a session that completes through events or timeouts reports kOk exactly when every talk not skipped ended in success, else kPartial |
| `SessionTheorems.BoundedCompletion` | src/agents/details/agent_slave.cpp:199-239 | past every end time one pass over the timeouts finishes and reports the session, whatever retries remain |
| `SessionTheorems.BugCheckSilent` | src/agents/details/agent_slave.cpp:439-456 | in every run, when the time check of a registered talk passes its deadline has not come, so the bug check in the write handler never fires |
| `SessionTheorems.ConnHandles` | src/agents/details/agent_slave.cpp:370-401 | a connected talk goes on to its first transfer if and only if its time has not run out and its event is registered, for the lesser of that transfer's time and what is left to its deadline; otherwise it is out of the driver with the error that says why |
| `SessionTheorems.ReadHandles` | src/agents/details/agent_slave.cpp:403-434 | a reading talk goes on if and only if more is to come, its time has not run out and its event is registered; else it ends, without error exactly when its answer is complete and decodes, and otherwise with the error that says why |
| `SessionTheorems.WriteHandles` | src/agents/details/agent_slave.cpp:436-486 | a writing talk goes on if and only if more is to be written or an answer is awaited, its time has not run out and its event is registered; a finished one then waits for the answer for the lesser of the read time and what is left to its deadline; it ends without error exactly when all is written and no answer awaited |
| `SessionTheorems.CheckKeepsTime` | src/agents/agent_slave.h:154-177 | a time check that passes leaves the talk inside its deadline |
| `SessionTheorems.BeginGood` | src/details/session.cpp:18-37 | a session begun with admissible talks satisfies the invariant that the theorems rest on, whatever the attempts come to |
| `SessionTheorems.CheckSessionGood` | src/agents/details/agent_slave.cpp:324-368 | any event of a registered talk keeps the invariant, and reports truly when it finishes the session |
| `SessionTheorems.CleanGood` | src/agents/details/agent_slave.cpp:199-239 | a pass over any expired timers keeps the invariant |
| `SessionTheorems.NotBroken` | src/agents/details/agent_slave.cpp:260-270 | only the start of a session reports it broken |
| `SessionInvariant.AttemptGoes` | src/details/session.cpp:39-116 | an attempt either waits for its first event inside its deadline or has failed with an error set |
| `SessionInvariant.FinishPart` | src/session.h:65-95 | finishing a pending talk counts it once or registers it again, and answers true exactly when no talk is left |
| `SessionExact.AttemptExactly` | src/details/session.cpp:39-116 | an attempt waits if and only if it has or gets a descriptor, can encode what it sends again, has time and is registered; in which status, and for how long: the lesser of the time to its deadline and that of its phase; otherwise which error it has |
| `SessionExact.BeginExactly` | src/details/session.cpp:18-37 | a session starts with exactly one attempt of every talk that is not skipped |
| `SessionExact.FinishExactly` | src/session.h:65-95 | a success ends a talk; a failure adds its remote to those it has failed on and, with a retry left, costs one and makes one attempt more; without one it ends the talk as failed; it is counted done exactly when it does not wait again |
| `SessionExact.RetriedExactly` | src/session.h:76-90 | a failed talk with a retry left has one attempt more and one retry less, and waits again if and only if there is a descriptor, the encoding works, its deadline has not come and its event is registered |
| `SessionExact.RetryGoesElsewhere` | src/session.h:69-84 | with the failed remotes the session keeps, the choice for a retry after the reported failure is none of them while another is left |
| `SessionExact.EventInRun` | src/agents/details/agent_slave.cpp:324-368 | in every run, exactly what an event makes of its talk: it goes on, succeeds, or fails and follows the retry rule; other talks are untouched |
| `SessionExact.TimeoutInRun` | src/agents/details/agent_slave.cpp:199-239 | in every run a pass over the timeouts fails exactly the talks listed, by the retry rule, and leaves the others alone |
| `SessionObject.Session.Reset` | src/details/session.cpp:18-37 | the loop over the talks computes the session begun; admissible talks make it satisfy the invariant; false exactly when nothing is registered |
| `SessionObject.Session.ResetTalk` | src/details/session.cpp:39-116 | one attempt: whether, in which status and for how long the talk waits, or with which error it does not |
| `SessionObject.Session.FinishTalk` | src/session.h:65-95 | the talk is concluded: done on success, failed without a retry left, else tried once more with its remote remembered; counted exactly when it does not wait again, and the answer is whether all are counted |
| `SessionObject.Session.CheckSession` | src/agents/details/agent_slave.cpp:324-368 | any event of any registered talk keeps the invariant, and the session is reported exactly when no event is left |
| `SessionObject.Session.CleanTimeouts` | src/agents/details/agent_slave.cpp:199-239 | a pass keeps the invariant and, past the end of every talk, leaves nothing registered, all talks counted and one report |
| `SessionTimers.DriverLists` | deps/public-cpp/include/public-cpp/events_driver.hpp:210-227 | what RemoveTimeouts returns lists exactly the expired talks of a session, each once, when each registered talk has its context and timer in the driver |
| `SessionTimers.CleanTimeouts` | src/agents/details/agent_slave.cpp:199-239 | driver and session together: removing the timeouts and finishing their talks, past the end of every talk, finishes and reports the session |
| `Heap.FirstIsMin` | deps/public-cpp/include/public-cpp/heap.hpp:55 | in a heap no slot comes before the first |
| `Heap.HeldIsContents` | deps/public-cpp/include/public-cpp/heap.hpp:126-155 | the slots and the nodes' own indexes give one and the same map from live handles to values |
| `Heap.StepUp` | deps/public-cpp/include/public-cpp/heap.hpp:262-266 | moving a parent down into the hole keeps all other order relations, and the hole may take the moving value |
| `Heap.StepDown` | deps/public-cpp/include/public-cpp/heap.hpp:275-291 | moving the smaller child up into the hole does the same |
| `Heap.HeapBase.Top` | deps/public-cpp/include/public-cpp/heap.hpp:55 | a value held that comes after no other, or none exactly when the heap is empty |
| `Heap.HeapBase.Insert` | deps/public-cpp/include/public-cpp/heap.hpp:126-146 | adds one entry under a handle that was not live and keeps every other |
| `Heap.HeapBase.Update` | deps/public-cpp/include/public-cpp/heap.hpp:149-155 | changes the value of one live handle and nothing else |
| `Heap.HeapBase.Erase` | deps/public-cpp/include/public-cpp/heap.hpp:189-199 | removes one live handle and nothing else |
| `Heap.HeapBase.Pop` | deps/public-cpp/include/public-cpp/heap.hpp:182-186 | removes one entry, and that entry came after no other |
| `Heap.HeapBase.Resize` | deps/public-cpp/include/public-cpp/heap.hpp:234-244 | doubles the container and changes no entry |
| `Heap.HeapBase.AdjustNode` | deps/public-cpp/include/public-cpp/heap.hpp:254-296 | restores heap order after one value has changed, keeping slots a permutation and every handle in the slot its node names |
| `Heap.HeapBase.SiftUp` | deps/public-cpp/include/public-cpp/heap.hpp:262-269 | the upward loop restores heap order and changes no contents |
| `Heap.HeapBase.SiftDown` | deps/public-cpp/include/public-cpp/heap.hpp:274-294 | the downward loop restores heap order and changes no contents |
| `Events.OneNodePerTimer` | deps/public-cpp/include/public-cpp/events_driver.hpp:107-194 | the sign of a descriptor is not 0 exactly when a heap node carries the descriptor, and then exactly one does |
| `Events.TimerSet` | deps/public-cpp/include/public-cpp/events_driver.hpp:131-152 | a timer entered or given a new expiry keeps table and heap in agreement |
| `Events.TimerErased` | deps/public-cpp/include/public-cpp/events_driver.hpp:178-181 | so does erasing one |
| `Events.TopTimer` | deps/public-cpp/include/public-cpp/events_driver.hpp:214-217 | the top of the heap is the timer of its descriptor, and no timer expires earlier |
| `Events.RemovedAll` | deps/public-cpp/include/public-cpp/events_driver.hpp:210-227 | when the removal loop stops it has removed exactly the expired timers |
| `Events.EventsDriver.RegEvent` | deps/public-cpp/include/public-cpp/events_driver.hpp:107-172 | the timers and contexts afterwards, for adding and modifying, with and without a timeout, and when epoll refuses |
| `Events.EventsDriver.RegEventDel` | deps/public-cpp/include/public-cpp/events_driver.hpp:175-194 | the timer goes; the context goes exactly when epoll agrees |
| `Events.EventsDriver.RemoveTimeouts` | deps/public-cpp/include/public-cpp/events_driver.hpp:210-227 | terminates and returns, once each and in order of expiry, exactly the contexts whose timers expired before now, which are removed |
| `Numbers.EverySlotVisited` | deps/public-cpp/include/public-cpp/close_hashmap.hpp:209-224 | a walk with a step coprime to the size comes to every slot within one round |
| `Numbers.PrimeCoprime` | deps/public-cpp/include/public-cpp/close_hashmap.hpp:150-154 | a prime that does not divide the size shares no divisor with it |
| `Hashmap.FindExact` | deps/public-cpp/include/public-cpp/close_hashmap.hpp:209-224 | a look-up ends at the key's slot if the key is in use, else at a slot not in use, or nowhere |
| `Hashmap.NowhereMeansFull` | deps/public-cpp/include/public-cpp/close_hashmap.hpp:215-223 | a look-up that ends nowhere has found no never-used slot, and there is none |
| `Hashmap.InsertExactly` | deps/public-cpp/include/public-cpp/close_hashmap.hpp:168-182 | inserting succeeds exactly when the key is not in use and a never-used slot, or its own tombstone at home, is there |
| `Hashmap.Inserted` | deps/public-cpp/include/public-cpp/close_hashmap.hpp:174-178 | after inserting, every look-up still reaches its key, and the map has the one entry more |
| `Hashmap.Erased` | deps/public-cpp/include/public-cpp/close_hashmap.hpp:185-194 | after erasing, every look-up still reaches its key past the tombstone, and the map has the one entry less |
| `Hashmap.FindsModel` | deps/public-cpp/include/public-cpp/close_hashmap.hpp:197-200 | Get agrees with the finite map the slots hold |
| `Hashmap.CloseHashmap.Init` | deps/public-cpp/include/public-cpp/close_hashmap.hpp:146-165 | refuses exactly the sizes some step divides, and otherwise starts empty |
| `Hashmap.CloseHashmap.GetItem` | deps/public-cpp/include/public-cpp/close_hashmap.hpp:209-224 | the probe loop computes the look-up |
| `Hashmap.CloseHashmap.Get` | deps/public-cpp/include/public-cpp/close_hashmap.hpp:197-200 | the value the map has for the key, or none |
| `Hashmap.CloseHashmap.Insert` | deps/public-cpp/include/public-cpp/close_hashmap.hpp:168-182 | the map afterwards, success exactly when key and room allow, no used slot changes its key |
| `Hashmap.CloseHashmap.Erase` | deps/public-cpp/include/public-cpp/close_hashmap.hpp:185-194 | the map afterwards, success exactly when the key was in it |
| `Hashmap.CloseHashmap.NextUsed` | deps/public-cpp/include/public-cpp/close_hashmap.hpp:104-114 | the iterator stops at the first slot in use, or at the capacity |
| `ConnsMgr.SevenRecover` | src/conns_mgr/pool_conns_per_remote.h:41-45 | seven successes in a row restore any mark, and six do not restore the lowest |
| `ConnsMgr.SuccessesDouble` | src/conns_mgr/pool_conns_per_remote.h:41-45 | n successes bring a mark to full or to at least 2 to the n |
| `ConnsMgr.SuccessesMultiply` | src/conns_mgr/pool_conns_per_remote.h:41-45 | n successes multiply a mark by 2 to the n, up to the full mark |
| `ConnsMgr.FailuresHalve` | src/conns_mgr/pool_conns_per_remote.h:41-45 | n failures divide a mark by 2 to the n, down to 1 |
| `ConnsMgr.ReportExactly` | src/conns_mgr/conns_mgr.h:83-95 | a report changes the mark of its remote by one success or failure, and no other remote |
| `ConnsMgr.ConfigureExactly` | src/conns_mgr/details/conns_mgr.cpp:10-36 | exactly the configured remotes are left, known ones with their marks, new ones with a full one |
| `ConnsMgr.MeetExactly` | src/conns_mgr/conns_mgr.h:97-105 | a remote met for the first time is healthy, and nothing else changes |
| `ConnsMgr.UnhealthyExact` | src/conns_mgr/conns_mgr.h:83-95 | through any sequence of reports, new pools and configurations the unhealthy set is exactly the remotes with a mark below full |
| `ConnsMgr.PickIs` | src/conns_mgr/details/conns_mgr.cpp:45-51 | index k is picked for exactly the random values in its stretch of the accumulated weights |
| `ConnsMgr.ChosenByWeight` | src/conns_mgr/details/conns_mgr.cpp:44-51 | while all are healthy, exactly as many random values below the total choose a remote as its weight |
| `ConnsMgr.ChosenByMark` | src/conns_mgr/details/conns_mgr.cpp:52-76 | while something is unhealthy, exactly as many random values below the total choose an untried remote as its weight times its health mark |
| `ConnsMgr.ChosenAlike` | src/conns_mgr/details/conns_mgr.cpp:77-79 | when the talk has failed on all remotes, each is chosen for one of as many values |
| `ConnsMgr.PickSome` | src/conns_mgr/details/conns_mgr.cpp:43-81 | a random value below the total always picks something: no NULL |
| `ConnsMgr.ChosenIsRight` | src/conns_mgr/details/conns_mgr.cpp:38-82 | what is chosen is a remote of the service, and while something is unhealthy one failed on only when there is no other |
| `ConnsMgr.AvoidsExactly` | src/conns_mgr/details/conns_mgr.cpp:44-60 | no random value chooses a remote the talk has failed on, while an untried one is left, if and only if something is unhealthy or there is nothing to avoid |
| `ConnsMgr.AnyoneChosen` | src/conns_mgr/details/conns_mgr.cpp:44-51 | while all are healthy every remote, failed on or not, is chosen for some random value |
| `ConnsMgr.RetryAvoidsFailed` | src/session.h:69-84 | a retry that follows a reported failure never chooses a remote the talk has failed on while an untried one is left |
| `ConnsMgrObject.ConnsMgr.ConfigRemotes` | src/conns_mgr/details/conns_mgr.cpp:10-36 | afterwards the pools are those configured, with the marks they had, and the unhealthy set is exact |
| `ConnsMgrObject.ConnsMgr.ReportStatus` | src/conns_mgr/conns_mgr.h:83-95 | the mark and the unhealthy set afterwards; an unknown remote changes nothing |
| `ConnsMgrObject.ConnsMgr.EnsurePool` | src/conns_mgr/conns_mgr.h:97-105 | the pool used is there afterwards, with a full mark if it is new |
| `ConnsMgrObject.ConnsMgr.GetRemoteNormal` | src/conns_mgr/conns_mgr.h:121-133 | the first remote that is healthy and not failed on, and a random one exactly when there is none |
| `ConnsMgrObject.ConnsMgr.Select` | src/conns_mgr/details/conns_mgr.cpp:71-76 | the loop, which accumulates in an int, picks as specified without overflow while the total fits an int |
| `ConnsMgrObject.ConnsMgr.GetRemoteWeight` | src/conns_mgr/details/conns_mgr.cpp:38-82 | the loops over remotes and weights choose as specified |
| `Clients.Ownership` | src/agents/details/agent_slave.cpp:138-178 | in every state of every run counters are right, and readers and descriptors have exactly one owner |
| `Clients.StepKeeps` | src/agents/details/agent_slave.cpp:226-232 | every step of slave, worker and acceptor keeps that invariant |
| `Clients.StepChanges` | src/agents/details/agent_slave.cpp:138-178 | which client each step takes away and which it brings, and from and to where; all others stay where they are |
| `Clients.OwnersKept` | src/agents/details/agent_slave.cpp:488-541 | a client that goes, comes or moves leaves each reader out of the pool with exactly one owner and none lost |
| `Clients.HoldersKept` | src/agents/agent_slave.h:139-152 | and each open descriptor with exactly one holder and none left open |
| `Clients.CountKept` | src/agents/agents.h:59-61 | the counter of the slave that a procedure's messages go to follows its clients: waiting, out, on their way back |
| `Clients.RegisteredFresh` | src/agents/details/agent_slave.cpp:293-298 | a client is registered only when no waiting client of any slave has its descriptor |
| `Clients.NothingLeft` | src/agents/details/agent_slave.cpp:504-508 | when all clients have gone, counters are 0, all readers are in the pool and no descriptor is open |
| `ClientsObject.AgentSlave.GetNumClientsKeepalive` | src/agents/agent_slave.h:33 | the counter is the number of the slave's clients, waiting or away, and no client is both |
| `ClientsObject.AgentSlave.HandleMsgReadReq` | src/agents/details/agent_slave.cpp:272-306 | keeps the ownership invariant; the client either waits here and nowhere else, counted, or its reader is in the pool and its descriptor closed |
| `ClientsObject.AgentSlave.HandleMsgDestruct` | src/agents/details/agent_slave.cpp:504-541 | keeps the ownership invariant; the client waits again if and only if its descriptor is open, its connection's time has not run out, there is a read time and its event is registered; else nothing of it is left and it is not counted any more |
| `ClientsObject.AgentSlave.HandleReadReq` | src/agents/details/agent_slave.cpp:138-178 | keeps the ownership invariant; the client waits, or only the worker has it and it is still counted, or nothing of it is left |
| `ClientsObject.AgentSlave.CleanTimeout` | src/agents/details/agent_slave.cpp:226-232 | keeps the ownership invariant; nothing of the client is left |
| `Pool.BelowTop` | deps/public-cpp/include/public-cpp/pool_objs/pool_objs.hpp:181-185 | one column to the left, or the last of the row before, is the stack without its top |
| `Pool.OnTop` | deps/public-cpp/include/public-cpp/pool_objs/pool_objs.hpp:226-231 | writing at the top and moving on is the stack with one object more |
| `Pool.SoundTaken` | deps/public-cpp/include/public-cpp/pool_objs/pool_objs.hpp:175-200 | the top of a sound stack is not handed out yet, and the rest stays sound once it is |
| `Pool.PoolObjs.AllocABlock` | deps/public-cpp/include/public-cpp/pool_objs/pool_objs.hpp:156-172 | a block of new objects goes on the stack, unless no block may be had |
| `Pool.PoolObjs.Init` | deps/public-cpp/include/public-cpp/pool_objs/pool_objs.hpp:137-153 | fills the pool to the number asked for, rounded up to a block, and fails exactly when that cannot be |
| `Pool.PoolObjs.Get` | deps/public-cpp/include/public-cpp/pool_objs/pool_objs.hpp:175-200 | the top of the stack, else a new object, else none; never an object that is handed out |
| `Pool.PoolObjs.Free` | deps/public-cpp/include/public-cpp/pool_objs/pool_objs.hpp:203-233 | the object is on top of the stack, unless the pool may not grow |
| `Pool.PoolObjs.LeftExactly` | deps/public-cpp/include/public-cpp/pool_objs/pool_objs.hpp:236-238 | NumObjsLeft is the number of free objects exactly when no row is full or there are as many rows as objects in a row |
| `Pool.LeftWrong` | deps/public-cpp/include/public-cpp/pool_objs/pool_objs.hpp:236-238 | a new pool of three objects in one row of three, for which NumObjsLeft is 1 |
| `RespTheorems.CommandComesBack` | src/protocols/redis/details/redis_parser.cpp:5-119 | a command ParseCmd accepts comes back from ParseReply as its count and its own text, with its full size, exactly when its segments are clean |
| `RespTheorems.RoundTripExactly` | src/protocols/redis/details/redis_parser.cpp:36-49 | the same for any non-empty texts; one that is not clean fails or is cut short |
| `RespTheorems.PrefixWaits` | src/protocols/redis/details/redis_parser.cpp:5-49 | every non-empty proper prefix of a clean array gives return code 1 |
| `RespTheorems.SegWaits` | src/protocols/redis/details/redis_parser.cpp:121-150 | a bulk string cut short anywhere asks for more |
| `RespTheorems.DollarFails` | src/protocols/redis/details/redis_parser.cpp:36-46 | a '$' in a segment before the last makes the loop fail or stop before the end |
| `RespTheorems.LineEndFails` | src/protocols/redis/details/redis_parser.cpp:36-46 | a line end in a segment is an error |
| `RespProofs.SegRead` | src/protocols/redis/details/redis_parser.cpp:121-150 | a bulk string is read back exactly when its text has no line end inside, and is an error otherwise |
| `RespProofs.SegmentsAre` | src/protocols/redis/details/redis_parser.cpp:91-119 | a command is split into non-empty segments that, joined, are the command |
| `RespProofs.RefusedExactly` | src/protocols/redis/details/redis_parser.cpp:91-104 | a text is refused exactly when a separator follows nothing or another separator |
| `RespProofs.CommandRefusedExactly` | src/protocols/redis/details/redis_parser.cpp:91-104 | a command is refused exactly when it is empty or has an empty segment before a separator |
| `RespProofs.StrtolDecimal` | src/protocols/redis/details/redis_parser.cpp:17-18 | strtol reads back what sprintf wrote |
| `RedisParser.ParseCmd` | src/protocols/redis/details/redis_parser.cpp:91-119 | the loop with its two indexes computes the array of bulk strings, or refuses |
| `RespReplies.BulkComesBack` | src/protocols/redis/details/redis_parser.cpp:50-69 | a bulk string, with anything behind it, comes back as "1", the separator and its text, with its own size, exactly when its text has no line end inside; otherwise it is an error |
| `RespReplies.BulkWaits` | src/protocols/redis/details/redis_parser.cpp:50-69 | a bulk string cut short anywhere gives return code 1 |
| `RespReplies.NullIsNothing` | src/protocols/redis/details/redis_parser.cpp:20-67 | the null bulk string and the null array give "0" and five bytes |
| `RespReplies.NumberComesBack` | src/protocols/redis/details/redis_parser.cpp:70-74 | a number line comes back as "1", the separator and the number |
| `RespReplies.StatusIsPong` | src/protocols/redis/details/redis_parser.cpp:75-80 | a status line gives "0", and is a PONG exactly when what has come in holds PONG |
| `RespReplies.ErrorIsNull` | src/protocols/redis/details/redis_parser.cpp:81-85 | an error line gives "__null" |
| `RespReplies.NoLineWaits` | src/protocols/redis/details/redis_parser.cpp:12-13 | any reply without a line end gives return code 1 |
| `RespReplies.CountRefused` | src/protocols/redis/details/redis_parser.cpp:17-28 | a count that is zero, negative other than -1, or too large for a long is an error |
| `RespReplies.NotANumberRefused` | src/protocols/redis/details/redis_parser.cpp:17-18 | a count or length that is not a number is an error |
| `RespReplies.OtherRefused` | src/protocols/redis/details/redis_parser.cpp:86-88 | a reply that starts with no known mark, and no reply, are an error |
| `RespReplies.NullSegment` | src/protocols/redis/details/redis_parser.cpp:121-133 | a null bulk string in an array gives "__null" and five bytes |
| `RespReplies.EmptySegmentRefused` | src/protocols/redis/details/redis_parser.cpp:134-139 | an empty text in an array is an error |
| `RedisParser.ParseReply` | src/protocols/redis/details/redis_parser.cpp:5-88 | the parser with its loop computes code, size and text of the replies as the lemmas above pin them |
| `RedisParser.ParseArray` | src/protocols/redis/details/redis_parser.cpp:30-48 | the loop over '$' signs reads segment after segment as specified, to the size of the whole reply |
| `Rapid.FrameComesOut` | src/protocols/rapid/details/protocol_rapid.cpp:19-56 | however a frame and what follows are split, the first 0 leaves the rest unread and the frame decodes to its payload and size; with reads that bring something it completes |
| `Rapid.ChunksDoNotMatter` | src/protocols/rapid/details/protocol_rapid.cpp:19-56 | from any point of a frame, a 0 means that exactly the frame has been taken |
| `Rapid.ReadMoves` | src/protocols/rapid/details/protocol_rapid.cpp:21-55 | one call moves along the frame, never past it, loses nothing, and its code says how far it is |
| `Rapid.CompletesExactly` | src/protocols/rapid/details/protocol_rapid.cpp:37-53 | every run of enough calls whose reads bring something completes a frame if and only if its payload is smaller than 2^31 bytes |
| `Rapid.HugeFails` | src/protocols/rapid/details/protocol_rapid.cpp:37-53 | a larger frame fails as soon as its header has come in alone |
| `Rapid.LivelyCompletes` | src/protocols/rapid/details/protocol_rapid.cpp:19-56 | with reads that bring something, a frame is complete after at most as many calls as it has bytes |
| `Rapid.DecodesExactly` | src/protocols/rapid/protocol_rapid.h:89-105 | for any header as it came off the wire, on a host of either byte order, Decode answers true if and only if the magic number is 58764 and the version at most 10; it leaves size and payload alone |
| `Rapid.DecodesAt` | src/protocols/rapid/protocol_rapid.h:89-113 | a complete frame gives its payload and size, and is accepted exactly when its magic number and version are right |
| `Rapid.AnyFrameComesOut` | src/protocols/rapid/details/protocol_rapid.cpp:19-56 | a frame of any magic number and version comes out of any splitting with its payload, and is refused exactly when one of the two is wrong |
| `RapidObject.ProtocolReadRapid.Read` | src/protocols/rapid/details/protocol_rapid.cpp:19-56 | the read loop computes the specification |
| `RapidObject.ProtocolReadRapid.Decode` | src/protocols/rapid/protocol_rapid.h:89-105 | converts the two fields in place and answers true if and only if they held, in network order, the right magic number and a version that is not too new |

## Left out

Assumptions of the models:

- The pipe: `MsgConsumed` is one step, although the code advances `receiver_pace_` before it blanks the bytes; `SetReady_` and the first read of `from` are one step, because the ownership test compares pointers and not versions; header, size and content are written in one step. Interleavings finer than these are not covered.
- The pipe: the version in a sender position is an unbounded lap number, not 16 bits; content sizes stay below 2^31 - 1; the catch-up loop treats a tail shorter than a header as blank, as the receiver does. Busy-waiting, sleeping and notification are not modelled.
- Sockets, epoll, threads, locks and the clock: outcomes of foreign calls are parameters, and the clock stands still within one call. `EventsDriver` op kDelEvent is not modelled; its callers use RegEventDel.
- Sessions: a session keeps its own record of its registered events; that the driver holds the same contexts and timers is a condition of `SessionTimers`, and what retries register in the driver during a pass is not modelled. Talks enter skipped, with a descriptor that is not negative, or with an error set; timeouts are not negative. Read-only talks never run, because Talk::Assign ends them.
- SessionTheorems.Verdict: speaks of FinishTalk's argument, not of `talk.error`, which a timer expiry does not set.
- Hashmap.CloseHashmap.Init: requires that the table of steps holds primes; that the 28 constants are prime is not proved.
- The connection manager: pools are a finite map, so a hash table that is full is not modelled; weights are positive, and the sum that is formed (with marks, while anything is unhealthy) fits an int; the choice is a value, not a pointer into a scratch vector. Descriptors of idle connections are not modelled.
- Clients: messages may arrive in any order, which is more than the pipes allow; descriptors of clients are positive; sessions that write a client's reply are part of its being out at a worker. Stopping the agents is not modelled.
- Pool.PoolObjs.Free: requires an object that is handed out, which the code trusts its callers for; objects are known by the order of their making, and allocation never fails.
- RespTheorems.CommandComesBack: for texts below 2^31 bytes, the range of the `int` the parser compares lengths in. What a partial reply leaves in `out` is not stated.
- Rapid.LivelyCompletes: for frames below 2^31 bytes, beyond which it is false, as `Rapid.CompletesExactly` says.

What the repository does besides:

- Conservation of downstream descriptors through the service cache of a procedure.
- The ping and thrift protocols, JSON configuration, logging, context switching, the schedulers' queues, delayed deletion, examples and generated code.
- Iteration helpers, UpdateTop, Refresh and Clear of the heap, ClearAll and Wait of the events driver, and memory statistics: they would only add easy members.
