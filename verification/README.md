# A verified model of handy's reactor core and of the plan manager on top of it

The repository vendors `handy`, a small C++ reactor library, and builds a streaming store
service on it. This project models the parts of it whose correctness rests on invariants
spread over several functions, and proves what those parts are for:

- the blocking queue, the worker pool and the cross-thread wakeup pipe as step systems over
  every interleaving (`SafeQueue.dfy`, `ThreadPool.dfy`, `PoolProgress.dfy`, `Wakeup.dfy`);
- the timer engine, its two tables, its poll wait and one firing pass with callbacks that
  schedule and cancel (`TimerTable.dfy`, `Timers.dfy`, `TimerPass.dfy`);
- the byte buffer as an array that refines a byte sequence, with its amortised cost
  (`Buffer.dfy`);
- the connection's output path, read loop and decode loop, and message delivery from
  `sendMsg` to the peer's callback (`Conn.dfy`, `Delivery.dfy`);
- the two framing codecs and independence from how reads cut the stream (`Framing.dfy`);
- the HTTP parser, encoder, query-string loop and a server's stream of requests
  (`Slices.dfy`, `Query.dfy`, `Http.dfy`, `HttpText.dfy`, `HttpRoundTrip.dfy`, `HttpPlain.dfy`,
  `HttpFeed.dfy`, `HttpObject.dfy`, `HttpMessages.dfy`, `HttpServer.dfy`);
- dispatch of epoll events while callbacks remove channels, and the idle lists with the pass
  over them (`Poller.dfy`, `Idle.dfy`, `IdlePass.dfy`);
- the plan reconciliation pass over session ids (`StreamMgr.dfy`).

What the program updates in place is a class or an in-place array method here, proved equal
to a function of the old state; the theorems are about those functions and about runs of
them. What the operating system answers (`read`, `write`, `epoll_wait`, the clock, scheduling
of threads) is a parameter or an event, unrestricted except where a member says so. User
callbacks are arbitrary finite scripts of the component's own operations. `Ints.dfy` holds the
32-bit truncation that several parts share, `Collections.dfy` what they share about sequences and
sets.

Check everything with `dafny verify dfyconfig.toml`.

## Findings

Places where a property one would expect fails, each with its exact condition:

- `send(const char*, size_t)` leaves bytes queued on an unwatched socket after a hard write
  error; the next buffer then overtakes them. `Conn.SendIsSoundIff` says exactly when,
  `Conn.DerailedSendIsOvertaken` shows it.
- Entering Connected drops write interest whatever is queued (`Conn.ConnectedIsSoundIff`), so
  what was sent during the handshake is overtaken (`Conn.HandshakeSendIsOvertaken`).
- `LineCodec` treats a lone 0x04 as a message, so delivery depends on read boundaries exactly
  when some line starts with 0x04 before the last byte (`Framing.LineChunkingIndependentIff`).
- A loop thread whose own task, I/O callback or timer callback calls `safeCall`, `exit` or
  `wakeup` while the wakeup pipe is full blocks forever, and after `exit` the loop stops looking
  at the pipe. Pending tasks can still run exactly when neither has happened
  (`Wakeup.ProgressIff`, `Wakeup.WedgeIsReachable`, `Wakeup.ExitStrands`).
- After `exit` a worker past its check takes one more task and no worker takes a second, so
  accepted tasks can be left over (`PoolProgress.FinishIff`, `PoolProgress.ExitLeavesTasks`).
- The 32-bit poll wait oversleeps exactly when the earliest deadline is so far past that the
  difference wraps to a positive number (`Timers.RefreshIsOnTimeIff`).
- `callIdles` works on a copy of each list, so a stale node is called again by later scans
  exactly until it is unregistered or updated (`Idle.CalledAgainIff`), a node unregistered by
  a callback of its own list is still called (`IdlePass.PassCallsIff`), and a limit of zero or
  less never terminates on a non-empty list (`Idle.ScanEndsIff`).
- The read path doubles the input buffer without compacting it, so a buffer that is never
  drained completely grows with the traffic (`Buffers.GrowsWithTraffic`); the capacity follows
  the contents exactly when no read does that beyond the bound
  (`Buffers.CapacityFollowsPeakIff`).
- A response without status and header fields takes its status from the bytes of the body that
  happen to have arrived (`HttpFeed.ResponseIncrementalIff`).
- An encoded request is not in the format of section 3 of RFC 7230 (`HttpText.RequestIsNoMessage`),
  and a negative content-length throws or waits for ever (`HttpPlain.NegativeLengthIff`).
- `handleRead` of an HTTP connection looks for one message per read, so a second request that
  arrived in the same read waits for another one (`HttpServer.PipelineIff`).
- `makeRoom()` with a suggested size of zero can offer no space, and the zero-length read is
  then taken for the end of the stream (`Buffers.ReadRoomIsPositive`, `Conn.TcpConn.ReadSome`).
- An acknowledgement for a stream without a session dereferences null
  (`StreamMgr.Manager.StartStream`), and a plan for a day above 7 is stored outside its array
  (`StreamMgr.Manager.UpdateStorePlan`).

## Model

| member | source | states |
|---|---|---|
| `SafeQueues.StepKeepsInv` | src/common/handy/threads.h:62-116 | every critical section, spurious wakeup, timeout and exit keeps: whenever a thread sleeps, queued items are at most notified threads; FIFO; capacity; nothing sleeps once an exit has returned |
| `SafeQueues.RunKeepsInv` | src/common/handy/threads.h:62-116 | the same over whole runs |
| `SafeQueues.QueueIsSafe` | src/common/handy/threads.h:62-116 | in every interleaving from an empty queue: no lost wakeup, accepted = popped then queued, size within capacity, nobody asleep after exit |
| `SafeQueues.NobodySleepsAfterExit` | src/common/handy/threads.h:62-92 | once exit() has returned no thread sleeps or is about to, in any later state |
| `SafeQueues.SomebodyTakes` | src/common/handy/threads.h:68-105 | while someone sleeps and items wait, a notified thread can run now and takes the oldest item |
| `SafeQueues.NeverWaits` | src/common/handy/threads.h:80-105 | a pop that may not wait comes back at once with the front item, or leaves everything as it was |
| `SafeQueues.PopComesBackIff` | src/common/handy/threads.h:77-105 | a call comes back at once if and only if it may not wait, an item is there, or exit was called |
| `SafeQueues.ResumeComesBackIff` | src/common/handy/threads.h:83-105 | a woken thread comes back if and only if an item is there, exit was called, or its wait has timed out |
| `SafeQueues.TimedPopHasDeadline` | src/common/handy/threads.h:85-87 | a timed pop that waits starts with a deadline not yet expired |
| `SafeQueues.DeadlineCanExpire` | src/common/handy/threads.h:88-90 | a timed wait can time out at any moment it sleeps |
| `SafeQueues.TimedOutComesBack` | src/common/handy/threads.h:88-92 | a wait that has timed out comes back the next time its thread runs, whatever happens in between |
| `SafeQueues.ForeverNeedsAnItem` | src/common/handy/threads.h:83-84 | a pop without a limit never times out, and comes back with an item or after exit |
| `SafeQueues.ExitWakesAll` | src/common/handy/threads.h:62-66 | an exit that runs to its end wakes every sleeper and leaves the items |
| `SafeQueues.SafeQueue.Push` | src/common/handy/threads.h:68-76 | accepted exactly when not exited and not full; moves the object as the push step moves every state showing it |
| `SafeQueues.SafeQueue.PopNow` | src/common/handy/threads.h:96-105 | takes the front or reports empty; moves the object as the take step does |
| `SafeQueues.SafeQueue.Exit` | src/common/handy/threads.h:62-63 | sets the flag as the exit step does |
| `SafeQueues.SafeQueue.constructor` | src/common/handy/threads.h:29-32 | starts as the initial state |
| `ThreadPools.ActKeepsInv` | src/common/handy/threads.cc:26-50 | every act of workers, producers and exit keeps the ledger of queued, running and finished tasks |
| `ThreadPools.RunKeepsPoolInv` | src/common/handy/threads.cc:26-50 | the ledger holds over whole runs |
| `ThreadPools.ExactlyOnce` | src/common/handy/threads.cc:26-50 | every accepted task is at every moment in exactly one place: queued, running on exactly one worker, or finished once |
| `PoolProgress.ActKeepsManned` | src/common/handy/threads.cc:26-50 | whoever the queue knows about is a worker inside its pop, and workers stop only after exit |
| `PoolProgress.SomebodyPops` | src/common/handy/threads.cc:30-35 | with tasks queued and a worker past its check, some worker can take one now |
| `PoolProgress.CanFinish` | src/common/handy/threads.cc:26-50 | with enough hands the workers alone can finish everything accepted |
| `PoolProgress.OutOfReachForever` | src/common/handy/threads.cc:26-50 | with too few hands after exit, or no workers, some accepted task is never finished, whatever happens |
| `PoolProgress.FinishIff` | src/common/handy/threads.cc:26-50 | from every consistent state everything accepted can still be finished if and only if nothing is queued, or exit was not called and there is a worker, or after exit every queued task has a worker already past its check |
| `PoolProgress.StartedFinishIff` | src/common/handy/threads.cc:26-50 | the same after every run of a started pool |
| `PoolProgress.ExitLeavesTasks` | src/common/handy/threads.cc:18-24 | a task accepted before exit can be left over, as the destructor reports |
| `Wakeup.StepKeepsInv` | src/common/handy/event_base.cc:131-146 | each step of callers, of the loop thread and of its I/O, timer and task callbacks keeps: a queued task has a byte, a pending writer or a draining loop behind it; tasks in order of acceptance |
| `Wakeup.RunKeepsInv` | src/common/handy/event_base.cc:131-146 | the same over whole runs |
| `Wakeup.NoStrandedTask` | src/common/handy/event_base.cc:67-73 | in every run, with callbacks of any kind calling back into their own loop, no accepted task is stranded, and a quiet state has run every accepted task once, in order |
| `Wakeup.AcceptedIff` | src/common/handy/event_base.cc:67 | a safeCall is accepted, behind all others, if and only if the queue has room |
| `Wakeup.InterruptedReadWaits` | src/common/handy/event_base.cc:141 | an interrupted read runs nothing and loses nothing |
| `Wakeup.CanCatchUp` | src/common/handy/event_base.cc:131-146 | from any reachable state that is neither wedged nor past its last look at the pipe, the loop and the pending writers alone can finish everything accepted |
| `Wakeup.WedgedForever` | src/common/handy/event_base.cc:70-73 | a loop thread blocked writing to its own full pipe, in a task or in an I/O or timer callback, never runs anything again |
| `Wakeup.DeafForever` | src/common/handy/event_base.cc:110-120 | a loop that has returned, or whose final pass is past the wakeup channel, never runs another task |
| `Wakeup.StopsOnlyAfterExit` | src/common/handy/event_base.cc:110-112 | the loop makes its final pass and returns only after somebody called exit |
| `Wakeup.ProgressIff` | src/common/handy/event_base.cc:65-73 | everything accepted can still run if and only if nothing is pending, or the loop thread is not inside a call to its own loop on a full pipe and will still look at the pipe |
| `Wakeup.SelfPosting` | src/common/handy/event_base.cc:131-138 | tasks that post to their own loop fill the pipe while the queue drains, until the loop is wedged |
| `Wakeup.Flooding` | src/common/handy/event_base.cc:67-73 | one I/O or timer callback that keeps calling its own loop fills the pipe and wedges, for every queue capacity |
| `Wakeup.WedgeIsReachable` | src/common/handy/event_base.cc:67-73 | for every pipe size both wedges, in a task and in a callback, are reachable with a task pending |
| `Wakeup.ExitStrands` | src/common/handy/event_base.cc:110-120 | after exit a task can be accepted that is never run |
| `TimerTable.PutIsInsertion` | src/common/handy/event_base.cc:47 | storing under a new key keeps the order and adds exactly that entry |
| `TimerTable.WithoutIsRemoval` | src/common/handy/event_base.cc:47 | erasing keeps the order and removes exactly that key |
| `Timers.RunAtTables` | src/common/handy/event_base.cc:221-239 | scheduling adds one entry under a key that cannot collide, and for a repeating timer its record |
| `Timers.RunAtHandle` | src/common/handy/event_base.cc:221-239 | the id handed out was not in use, its sign tells the kind, and cancelling it is allowed, succeeds and takes back exactly what was scheduled |
| `Timers.RunAtAfterExit` | src/common/handy/event_base.cc:222-224 | after exit nothing is scheduled and the id handed out names nothing |
| `Timers.ExpiredTables` | src/common/handy/event_base.cc:213-219 | firing pops the first entry; a repeating one is rearmed one interval later under a new key before its callback |
| `Timers.ApplyKeepsInv` | src/common/handy/event_base.cc:221-258 | runAt, cancel and exit keep both tables consistent |
| `Timers.RunKeepsInv` | src/common/handy/event_base.cc:213-258 | over every run, exit and the end of the loop included, keys never collide and rearm entries and live records point at each other |
| `Timers.CancelKills` | src/common/handy/event_base.cc:241-249 | cancelling a live repeating id makes it dead and returns true |
| `Timers.CancelKeepsWait` | src/common/handy/event_base.cc:241-258 | cancelling leaves the planned wait alone |
| `Timers.CancelledNeverFires` | src/common/handy/event_base.cc:213-249 | a dead repeating id never fires in any later run, also when its own callback cancelled it |
| `Timers.PendingUntilFiredOrCancelled` | src/common/handy/event_base.cc:250-257 | after any run cancel of a one-shot returns true if and only if it was pending, has neither fired nor been cancelled, and the loop has not ended |
| `Timers.NothingAfterTheEnd` | src/common/handy/event_base.cc:110-115 | once exit was called and the loop has cleared the tables, nothing is scheduled and nothing fires in any run |
| `Timers.ExitIsFinal` | src/common/handy/event_base.cc:222-224 | from an exit on, in every run, no call schedules anything |
| `Timers.RefreshIsOnTimeIff` | src/common/handy/event_base.cc:203-211 | the computed wait ends by the earliest deadline if and only if the gap does not wrap to a positive 32-bit value |
| `Timers.PollWaitIs` | src/common/handy/event_base.cc:69 | the poller waits as long as asked with nothing pending, else exactly until the earliest deadline while the gap fits 32 bits, and never a negative time |
| `Timers.WaitIsPlannedAnew` | src/common/handy/event_base.cc:203-239 | scheduling and rearming plan the wait anew for the earliest deadline there is then; no other step touches the plan |
| `Timers.RefreshCanOversleep` | src/common/handy/event_base.cc:203-239 | at every time after the first 2^32 ms, a timer set almost 2^32 ms into the past leaves a consistent engine that plans a five-second sleep over it |
| `Timers.StepIsOnTime` | src/common/handy/event_base.cc:203-258 | each step within 2^31 ms of the earliest deadline keeps the wait on time, cancel included |
| `Timers.NeverOversleeps` | src/common/handy/event_base.cc:203-239 | through every such run the planned poll never sleeps past the earliest pending deadline |
| `TimerPass.IterateLowersLoad` | src/common/handy/event_base.cc:151-155 | one firing with its callback lowers the sum of firings still due |
| `TimerPass.Complete` | src/common/handy/event_base.cc:148-157 | the pass terminates, keeps the tables consistent, ends with the loop condition false, and fires at most the due load |
| `TimerPass.IterateKeepsPass` | src/common/handy/event_base.cc:151-155 | order, origin, one-shot and repeat accounting hold through each firing and callback |
| `TimerPass.PassFiresExactly` | src/common/handy/event_base.cc:148-157 | strictly increasing order; a due one-shot fires once if and only if it was not cancelled while pending; an uncancelled repeating timer fires floor((now-at)/interval)+1 times, each for its own deadline; a cancelled one never after the cancel and for every deadline before it; nothing due is left |
| `TimerPass.CancelOnceKeepsPass` | src/common/handy/event_base.cc:250-257 | cancelling a pending one-shot moves it, and nothing else, from pending to cancelled |
| `TimerPass.CancelRepKeepsPass` | src/common/handy/event_base.cc:241-249 | cancelling a live repeating timer from a callback stops its account at the firings made so far |
| `TimerPass.FireKeepsGrid` | src/common/handy/event_base.cc:213-217 | every firing of a repeating timer is for the deadline after its previous one |
| `TimerPass.NthIs` | src/common/handy/event_base.cc:214 | the n-th deadline is at + n * interval |
| `TimerPass.LeftStep` | src/common/handy/event_base.cc:213-216 | the floor formula loses exactly one firing per rearm |
| `TimerPass.EventsImp.constructor` | src/common/handy/event_base.cc:104-108 | starts empty and consistent |
| `TimerPass.EventsImp.RefreshNearest` | src/common/handy/event_base.cc:203-211 | computes the wait from the first entry and the clock |
| `TimerPass.EventsImp.Schedule` | src/common/handy/event_base.cc:221-239 | the object moves and answers as runAt |
| `TimerPass.EventsImp.CancelTimer` | src/common/handy/event_base.cc:241-258 | the object moves and answers as cancel |
| `TimerPass.EventsImp.Exit` | src/common/handy/event_base.cc:65 | the object moves as exit |
| `TimerPass.EventsImp.ClearTables` | src/common/handy/event_base.cc:113-114 | the end of the loop empties both tables |
| `TimerPass.EventsImp.Rearm` | src/common/handy/event_base.cc:213-217 | the rearming part of repeatableTimeout |
| `TimerPass.EventsImp.FireFirst` | src/common/handy/event_base.cc:151-155 | pops the first entry and rearms it if repeating |
| `TimerPass.EventsImp.RunCallback` | src/common/handy/event_base.cc:218 | the object moves as the steps of a callback |
| `TimerPass.EventsImp.HandleTimeoutsLoop` | src/common/handy/event_base.cc:148-157 | the loop over the object fires exactly the specified log and leaves the specified tables and wait |
| `Buffers.RoomIsEnough` | src/common/handy/net.cc:99-118 | makeRoom leaves the requested space, keeps the size, and keeps head, tail and capacity in order |
| `Buffers.ReadRoomIsPositive` | src/common/handy/net.h:47 | the read path has a free byte if and only if the growth unit is positive or there was one already |
| `Buffers.StepIsPaid` | src/common/handy/net.cc:99-118 | copies plus potential after an append, a read or a consume are at most potential before plus three per byte that came in |
| `Buffers.RunIsPaid` | src/common/handy/net.cc:99-118 | the same summed over a run |
| `Buffers.AmortisedCost` | src/common/handy/net.cc:99-118 | over every run of appends, reads and consumes from empty, bytes copied are at most three times the bytes that came in |
| `Buffers.CapacityIsBoundedIff` | src/common/handy/net.cc:99-118 | from any state within the bound, the capacity stays within the growth unit or four times the peak plus two if and only if no read doubles storage beyond it |
| `Buffers.CapacityFollowsPeakIff` | src/common/handy/net.h:47 | over every run from empty the capacity stays within max(exp, 4*peak+2) if and only if no read finds less than the growth unit free in storage already beyond half of that; always so without reads |
| `Buffers.GrowsWithTraffic` | src/common/handy/net.h:47 | for every bound there is a run of one-byte reads and consumes that never holds more than two bytes and outgrows it |
| `Buffers.Buffer.constructor` | src/common/handy/net.h:38 | empty, no storage, growth unit 512 |
| `Buffers.Buffer.Clear` | src/common/handy/net.h:40 | contents empty, storage dropped, growth unit kept |
| `Buffers.Buffer.MoveHead` | src/common/handy/net.h:64 | the overlapping in-place copy keeps the contents and moves them to the front |
| `Buffers.Buffer.Expand` | src/common/handy/net.cc:109-118 | contents kept in fresh storage of the specified capacity; copies counted |
| `Buffers.Buffer.MakeRoom` | src/common/handy/net.cc:99-107 | contents kept, requested space there, shape and copy count as specified |
| `Buffers.Buffer.MakeReadRoom` | src/common/handy/net.h:47 | contents kept; copies counted; space positive exactly when the growth unit is or it already was |
| `Buffers.Buffer.Fill` | src/common/handy/net.h:49 | bytes written behind the tail become part of the contents |
| `Buffers.Buffer.Append` | src/common/handy/net.h:50-51 | contents extended by exactly the data, shape and copy count as specified |
| `Buffers.Buffer.AppendAll` | src/common/handy/net.h:51-54 | a chain of appends appends the concatenation |
| `Buffers.Buffer.Consume` | src/common/handy/net.h:55 | drops exactly the front bytes; an emptied buffer releases its storage |
| `Buffers.Buffer.Absorb` | src/common/handy/net.cc:128-142 | the receiver gains the other's bytes in order and the other is empty, in the swap form and the append form; growth units stay; absorbing oneself changes nothing |
| `Buffers.Buffer.CopyOf` | src/common/handy/net.cc:120-126 | same bytes and shape in separate storage |
| `Framing.LineTryDecode` | src/common/handy/codec.cc:7-24 | the scan loop returns the specified verdict, message and consumed count |
| `Framing.BareLineFeed` | src/common/handy/codec.cc:12-21 | a line may end in a line feed alone, and a carriage return before it is dropped |
| `Framing.DrainSplits` | src/common/handy/conn.cc:251-264 | draining a prefix and later the rest equals draining everything at once, for stable decoders |
| `Framing.ChunkingFrom` | src/common/handy/conn.cc:251-264 | the same from any stuck leftover and any list of reads |
| `Framing.ChunkingIndependent` | src/common/handy/conn.cc:251-264 | any cutting of an admissible stream delivers the same messages, verdict and leftover |
| `Framing.LengthIsStable` | src/common/handy/codec.cc:29-42 | a length-framed verdict on a prefix is final on every stream |
| `Framing.LengthChunkingIndependent` | src/common/handy/codec.cc:29-42 | for every stream and every cutting, length-framed decoding equals one-shot decoding |
| `Framing.CastIsExact` | src/common/handy/codec.cc:37-40 | the int cast of the size changes nothing below 2 GiB |
| `Framing.LengthDecodeIs` | src/common/handy/codec.cc:29-42 | the verdict on every buffer by its length field read as unsigned: too short waits, wrong magic or 1 MiB < length < 2^32 - 8 is refused, an honest length yields its payload or waits for it |
| `Framing.WireFormat` | src/common/handy/codec.cc:25-45 | the bytes on the wire of both encoders |
| `Framing.LineIsStable` | src/common/handy/codec.cc:7-24 | line verdicts are final on streams without a torn 0x04 line |
| `Framing.EotTears` | src/common/handy/codec.cc:8-11 | every other stream has a cut that delivers more messages than one-shot decoding |
| `Framing.LineChunkingIndependentIff` | src/common/handy/codec.cc:7-24 | line decoding is independent of the cutting if and only if no line starts with 0x04 before the last byte |
| `Framing.EncodeInto` | src/common/handy/codec.cc:25-45 | both encoders append exactly the encoded frame |
| `Framing.LineRoundTripIff` | src/common/handy/codec.cc:7-27 | a line comes back whole in front of any bytes if and only if it holds no newline |
| `Framing.LengthRoundTripIff` | src/common/handy/codec.cc:29-45 | a payload comes back whole in front of any bytes if and only if it is at most 1 MiB |
| `Framing.RoundTripIff` | src/common/handy/codec.cc:7-45 | both round trips through the codec interface |
| `Framing.DrainAll` | src/common/handy/codec.cc:7-45 | one drain of any list of encoded messages delivers exactly that list |
| `Framing.GarbageCloses` | src/common/handy/conn.cc:256-258 | a wrong magic closes the connection after exactly the messages in front of it, and for good |
| `Framing.DeliveredExactly` | src/common/handy/conn.cc:251-264 | any list of sendable messages, cut in any way, is delivered exactly with nothing left |
| `Conn.SendIsSoundIff` | src/common/handy/conn.cc:188-246 | every send keeps written followed by queued equal to submitted; a non-empty queue stays watched if and only if the send is not the derailing one |
| `Conn.SendWrites` | src/common/handy/conn.cc:211-246 | what each send writes at once, in terms of what the socket takes: a buffer unless the socket is watched, raw bytes unless something is queued, the output buffer always; the rest is queued in order |
| `Conn.SendsAreSound` | src/common/handy/conn.cc:211-246 | the same over lists of sends |
| `Conn.HandleWriteIsSound` | src/common/handy/conn.cc:171-186 | the writable event with any sends in its callback keeps the stream and the watch |
| `Conn.HandleWriteOffers` | src/common/handy/conn.cc:175-179 | a writable event writes the queue in order and runs the callback if and only if the socket took all of it |
| `Conn.HandleWriteWatchesIff` | src/common/handy/conn.cc:180-182 | after it the socket is watched if and only if something is queued |
| `Conn.RunIsSound` | src/common/handy/conn.cc:171-246 | the same over runs |
| `Conn.OutputIsOneStream` | src/common/handy/conn.cc:171-246 | over every run with partial writes, interrupts and would-blocks, written followed by queued is what was submitted, and a non-empty queue is watched |
| `Conn.SoftRunsAreOneStream` | src/common/handy/conn.cc:171-246 | for every run in which the socket reports no hard error the output is one watched FIFO stream at every moment |
| `Conn.SoundThroughoutIff` | src/common/handy/conn.cc:171-246 | a run is one watched FIFO stream after every send, those in writable callbacks included, if and only if none of its sends derails |
| `Conn.DerailedSendIsOvertaken` | src/common/handy/conn.cc:232-246 | after a hard error in a raw send the next buffer overtakes the queued bytes |
| `Conn.ConnectedIsSoundIff` | src/common/handy/conn.cc:153-154 | entering Connected keeps the watch if and only if nothing is queued |
| `Conn.HandshakeSendIsOvertaken` | src/common/handy/conn.cc:23-154 | any buffer sent during the handshake is queued, loses its watch at Connected, and is overtaken by the next one |
| `Conn.IsendIs` | src/common/handy/conn.cc:188-209 | the write loop takes min(len, what the answers take before one ends it); it fails or blocks, if not done, as that answer says; interrupts never end it |
| `Conn.SoftIsend` | src/common/handy/conn.cc:188-209 | without errors it never fails |
| `Conn.Isend` | src/common/handy/conn.cc:188-209 | takes all bytes exactly when it neither blocked nor failed, and never both |
| `Conn.TcpConn.constructor` | src/common/handy/conn.cc:171-246 | starts with nothing submitted, written or queued |
| `Conn.TcpConn.IsendLoop` | src/common/handy/conn.cc:188-209 | the write loop hands the specified prefix to the socket and arms the watch on would-block |
| `Conn.TcpConn.Offer` | src/common/handy/conn.cc:216-219 | what the socket took is dropped from the buffer, the rest stays |
| `Conn.TcpConn.SendOther` | src/common/handy/conn.cc:211-230 | send of a caller's buffer moves the connection as specified |
| `Conn.TcpConn.SendQueued` | src/common/handy/conn.cc:211-230 | send of the output buffer itself |
| `Conn.TcpConn.SendRaw` | src/common/handy/conn.cc:232-246 | send of raw bytes moves the connection as specified |
| `Conn.TcpConn.SendMsg` | src/common/handy/conn.cc:268-271 | encodes into the output buffer and sends it |
| `Conn.TcpConn.SendOutput` | src/common/handy/conn.cc:211-230 | bytes written to the output buffer are queued behind the rest and offered with it |
| `Conn.TcpConn.SendAll` | src/common/handy/conn.cc:177-179 | the sends of a callback, whichever they are, move the connection as specified |
| `Conn.TcpConn.HandleWrite` | src/common/handy/conn.cc:171-186 | the writable event with any sends in its callback moves the connection as specified |
| `Conn.TcpConn.ReadSome` | src/common/handy/conn.cc:121-142 | one read keeps what arrived; it takes nothing that is there exactly when the buffer is full and its growth unit is zero |
| `Conn.TcpConn.ReadRound` | src/common/handy/conn.cc:121-142 | one round of the loop: a zero count, also from a zero-length read, ends the connection |
| `Conn.TcpConn.HandleRead` | src/common/handy/conn.cc:120-143 | takes the next bytes in order; with a positive growth unit every delivering answer yields at least one, and the connection is given up exactly when the peer ended |
| `Conn.TcpConn.DecodeOnce` | src/common/handy/conn.cc:255 | the codec's verdict on the buffered bytes |
| `Conn.TcpConn.NextFrame` | src/common/handy/conn.cc:255-262 | drops the delivered frame and decodes what follows |
| `Conn.TcpConn.DrainInput` | src/common/handy/conn.cc:251-264 | the decode loop over the object delivers the specified messages, leftover and verdict |
| `Conn.TcpConn.OnReadable` | src/common/handy/conn.cc:116-144 | a readable event under onMsg delivers what one drain of the old leftover and the bytes taken delivers, at would-block and at the end of the stream |
| `Delivery.CarriedBytes` | src/common/handy/conn.cc:171-271 | message sends, by callers and by writable callbacks that run, submit exactly the encoded bytes in order |
| `Delivery.PrefixDelivers` | src/common/handy/conn.cc:251-264 | any arrived prefix of an encoded stream delivers a prefix of the messages |
| `Delivery.EndToEnd` | src/common/handy/conn.cc:171-271 | with sends from writable callbacks, any partial writes, bytes in flight and any read sizes, the peer has been handed a prefix of the messages sent, and all of them once the queue is empty and everything arrived |
| `Slices.Skip` | src/common/handy/slice.h:54-79 | every scan stops at the end of the longest run |
| `Slices.LowerForgetsCase` | src/common/handy/http.cc:53 | lower-casing forgets the case of letters and nothing else |
| `Slices.SkipBack` | src/common/handy/slice.h:77 | the backward scan stops behind the last non-space |
| `Slices.FindWord` | src/common/handy/slice.h:54-65 | the two scans delimit the first word and what follows it |
| `Slices.FindTrimmed` | src/common/handy/slice.h:75-79 | the two scans delimit the text without surrounding spaces |
| `Slices.Slice.EatWord` | src/common/handy/slice.h:54-65 | returns the first word and leaves what follows it |
| `Slices.Slice.EatLine` | src/common/handy/slice.h:67-73 | returns the text up to the first line break |
| `Slices.Slice.TrimSpace` | src/common/handy/slice.h:75-79 | leaves the text without leading and trailing spaces |
| `Query.Marks` | src/common/handy/http.cc:114-120 | one round of the scan delimits the key at the first '=' and the value at the next '&' |
| `Query.ParseQuery` | src/common/handy/http.cc:111-126 | the index loop builds, for every string, the map of: split on '&', cut at the first '=', drop empty keys, last binding wins |
| `Query.ParseTarget` | src/common/handy/http.cc:107-132 | the path is the part before the first '?', the arguments are those of the rest |
| `Query.QueryRoundTrip` | src/common/handy/http.cc:107-132 | a query built from pairs, bare keys and nameless values, with further = signs in values, means what was put in |
| `HttpRoundTrip.TargetSplits` | src/common/handy/http.cc:107-132 | a path followed by ? and a query comes apart into both; a path alone leaves the arguments |
| `Http.ScanGrows` | src/common/handy/http.cc:33-40 | no blank line starts before the scanned point, so a later call may resume there; one that was found stays the first |
| `Http.OneMoreRead` | src/common/handy/http.cc:26-79 | a final verdict on a prefix is final; after NotComplete the next call ends where one call on everything would |
| `Http.FeedFrom` | src/common/handy/http.cc:26-79 | the same for any list of reads behind any first buffer |
| `Http.IncrementalIsOneShot` | src/common/handy/http.cc:26-79 | however a message arrives, calling after every read gives the verdict, headers, body, start line and consumed count of one call |
| `Http.OnlyTheRestMatters` | src/common/handy/http.cc:52-54 | bytes before the scanned point are not read again, so lower-casing keys in place changes no later call |
| `HttpText.NumberOfDec` | src/common/handy/http.cc:90 | reading digits inverts printing them |
| `HttpText.AtoiOfDec` | src/common/handy/http.cc:158 | atoi of a printed 32-bit number followed by a non-digit is that number |
| `HttpText.AtoiOfAnyDec` | src/common/handy/http.cc:64 | atoi of any printed number: cut to 64 bits, then to 32 |
| `HttpText.AtoiOfSignedDec` | src/common/handy/http.cc:64 | the same with a sign in front |
| `HttpText.PrintedIs` | src/common/handy/http.cc:84 | what does not fit the line buffer is cut off, one byte short of its size |
| `HttpText.LineIsHeader` | src/common/handy/http.cc:49-55 | a written field line is parsed as that field under its lower-case key |
| `HttpText.HeadersOfTail` | src/common/handy/http.cc:46-62 | the header loop reads back a written block of fields, later fields over earlier ones |
| `HttpText.BlockIsFound` | src/common/handy/http.cc:33-40 | the first blank line of an encoded message is the one that ends its header |
| `HttpText.LinesAreFound` | src/common/handy/http.cc:33-40 | the same for a header block of any lines |
| `HttpText.ResponseIsMessage` | src/common/handy/http.cc:137-151 | an encoded response has the message format of section 3 of RFC 7230 |
| `HttpText.CommonLines` | src/common/handy/http.cc:89-91 | the last two header lines of every message |
| `HttpText.RequestIsNoMessage` | src/common/handy/http.cc:81-94 | an encoded request does not: two line feeds end its request line |
| `HttpPlain.SplitIsHeader` | src/common/handy/http.cc:48-55 | a line of white space, key, colon, white space, value, white space is stored under the key in lower case |
| `HttpPlain.HeaderLineIff` | src/common/handy/http.cc:48-61 | the header fields are exactly the lines that split this way |
| `HttpPlain.BlockDecodes` | src/common/handy/http.cc:41-78 | what a header block of any lines decodes to |
| `HttpPlain.RefusedIff` | src/common/handy/http.cc:46-62 | a message is refused if and only if some line of its header is no field, except that the last may be white space |
| `HttpPlain.LastFieldCounts` | src/common/handy/http.cc:55 | of fields with one name in any case the last counts |
| `HttpPlain.NoLengthNoBody` | src/common/handy/http.cc:21-24 | without a content-length the message is complete with an empty body at the end of its header |
| `HttpPlain.LengthMeansBody` | src/common/handy/http.cc:63-78 | with a content-length it is complete if and only if that many bytes follow, and those are its body |
| `HttpPlain.NegativeLengthIff` | src/common/handy/http.cc:64-71 | a negative content-length ends in an exception if it is at most the header size, else the parser waits for ever |
| `HttpRoundTrip.MessageRoundTrip` | src/common/handy/http.cc:26-94 | decoding an encoded message followed by anything recovers start line, headers, body, and consumes exactly the message |
| `HttpRoundTrip.RequestRoundTrip` | src/common/handy/http.cc:81-135 | method, target, version, path, arguments, headers and body come back; consumed count is the encoded length; the doubled line feed is eaten as a line end |
| `HttpRoundTrip.ResponseRoundTrip` | src/common/handy/http.cc:137-162 | version, status, status word, headers and body come back; consumed count is the encoded length |
| `HttpRoundTrip.StatusIsFound` | src/common/handy/http.cc:158 | atoi on the buffer behind the version reads the status |
| `HttpFeed.OnceMore` | src/common/handy/http.cc:26-79 | after NotComplete the next call gives the rest of the one-shot answer and repeats no start line |
| `HttpFeed.BadTargetIsError` | src/common/handy/http.cc:103-106 | a bad target is an error whatever the parser said; otherwise its verdict stands |
| `HttpFeed.RequestIncremental` | src/common/handy/http.cc:96-135 | a request decoded after every read gives the verdict, method, target, version, path and arguments of one call on everything, and the same message unless its target is bad, which is an error as soon as the header is there |
| `HttpFeed.ResponseIncremental` | src/common/handy/http.cc:153-162 | a response decoded after every read is one call on everything, except that the status comes from what had arrived when the start line was seen |
| `HttpFeed.SeenIff` | src/common/handy/http.cc:33-45 | the start line shows exactly from the moment the header is complete |
| `HttpFeed.ResponseIncrementalIff` | src/common/handy/http.cc:153-162 | every cutting of a response gives the one-shot answer if and only if there is text between version and header end or nothing behind the header ever reads as a number other than zero |
| `HttpFeed.TearingCut` | src/common/handy/http.cc:158 | every other response has a cut into two reads that yields another status |
| `HttpFeed.StatusCanTear` | src/common/handy/http.cc:158 | such a response exists: version, blank line, a digit |
| `HttpObject.HttpMsg.constructor` | src/common/handy/http.cc:10-18 | starts fresh with no headers |
| `HttpObject.HttpMsg.LowerKey` | src/common/handy/http.cc:52-55 | every byte of the key is lower-cased in place, no other byte changes, and the copy is the key without its colon |
| `HttpObject.HttpMsg.TakeLine` | src/common/handy/http.cc:48-61 | one line is stored as a field, recognised as blank, or rejected, as specified on its text |
| `HttpObject.HttpMsg.ParseHeaders` | src/common/handy/http.cc:46-62 | the in-place header loop yields the headers and verdict of the block as it was before any key was lower-cased |
| `HttpObject.HttpMsg.FindBlank` | src/common/handy/http.cc:34-40 | the scan stops where specified and says whether a blank line is there |
| `HttpObject.AtBlank` | src/common/handy/http.cc:35 | the test at one position |
| `HttpObject.CutLine` | src/common/handy/http.cc:48-50 | where the key and the trimmed value of a line lie |
| `HttpObject.HttpMsg.FinishBody` | src/common/handy/http.cc:69-78 | the body is copied and counted once it is all there |
| `HttpObject.HttpMsg.TryDecodeIn` | src/common/handy/http.cc:26-79 | the object over the shared array answers as the value-level parser on the original bytes, and only letter case before the scanned point changes |
| `HttpMessages.HeadersComeBack` | src/common/handy/http.cc:86-91 | walking a header map in any order sends that map, with the written connection and content-length over it |
| `HttpMessages.RequestComesBack` | src/common/handy/http.cc:81-135 | a request comes back with its own header map, even one that held a content-length |
| `HttpMessages.ResponseComesBack` | src/common/handy/http.cc:137-162 | the same for a response |
| `HttpMessages.AppendHeaders` | src/common/handy/http.cc:86-88 | the loop writes every entry of the map exactly once |
| `HttpMessages.AppendMessage` | src/common/handy/http.cc:86-93 | the message is appended behind what was there and the returned count is its length |
| `HttpMessages.HttpRequest.constructor` | src/common/handy/http.h:40-48 | a fresh request without headers or arguments |
| `HttpMessages.HttpRequest.Encode` | src/common/handy/http.cc:81-94 | appends the request text; the count is its length |
| `HttpMessages.HttpRequest.TryDecode` | src/common/handy/http.cc:96-135 | the object answers as the value-level decoder on the original bytes |
| `HttpMessages.HttpResponse.constructor` | src/common/handy/http.h:51-61 | a fresh response without headers |
| `HttpMessages.HttpResponse.Encode` | src/common/handy/http.cc:137-151 | appends the response text; the count is its length |
| `HttpMessages.HttpResponse.TryDecode` | src/common/handy/http.cc:153-162 | the object answers as the value-level decoder on the original bytes, although the status is read after keys were lower-cased |
| `HttpMessages.AtoiIgnoresCase` | src/common/handy/http.cc:158 | atoi gives the same number on texts that differ in letter case only |
| `HttpServer.WholeCall` | src/common/handy/http.cc:182-197 | a request that is all there is served as encoded, whatever follows it |
| `HttpServer.PartOfCall` | src/common/handy/http.cc:182-197 | a request that is not all there is neither served nor refused |
| `HttpServer.ReadServesOne` | src/common/handy/http.cc:182-221 | one read serves the next request if it is complete by then, and nothing else; answering takes exactly its bytes off the input |
| `HttpServer.BadRequestCloses` | src/common/handy/http.cc:186-189 | a bad target closes the connection unserved as soon as the header is there |
| `HttpServer.RefusedHeaderCloses` | src/common/handy/http.cc:186-189 | so does a refused header |
| `HttpServer.ClosedStays` | src/common/handy/http.cc:182-189 | and nothing is served after that |
| `HttpServer.ServesInTurn` | src/common/handy/http.cc:182-221 | over any reads the requests are served in order, one per read |
| `HttpServer.AllTurnsIff` | src/common/handy/http.cc:182-221 | serving one per read serves all if and only if for each request there are as many reads, from the one that completes it on, as requests from it on |
| `HttpServer.PipelineIff` | src/common/handy/http.cc:178-221 | a stream of encoded requests cut in any way: served is a prefix of them, each as encoded, at most one per read, and all of them if and only if there are enough reads behind each completion |
| `HttpServer.SecondWaits` | src/common/handy/http.cc:182-221 | of two requests in one read the second is left in the input |
| `Idle.RemoveIsExact` | src/common/handy/event_base.cc:192-195 | removal takes out exactly the named node and keeps the order |
| `Idle.ApplyKeepsInv` | src/common/handy/event_base.cc:181-201 | register, update and unregister keep every list sorted by stamp, bounded by the clock, and its nodes uniquely named |
| `Idle.RunKeepsSorted` | src/common/handy/event_base.cc:181-201 | the same over every run under a clock that never runs backwards |
| `Idle.PrefixIsFilter` | src/common/handy/event_base.cc:169-173 | in a sorted list the nodes before the first fresh one are what a full filter keeps |
| `Idle.ScanEndsIff` | src/common/handy/event_base.cc:169-177 | the loop ends if and only if the limit is positive or the list is empty |
| `Idle.StaleAfterIff` | src/common/handy/event_base.cc:181-201 | after any run a node is stale if and only if nobody unregistered it, its first stamp is stale, and no update came within the limit |
| `Idle.CalledAgainIff` | src/common/handy/event_base.cc:168-201 | a node called by one scan is called again by a scan after any run if and only if the run did not unregister it and did not update it within the last idle seconds |
| `Idle.CalledOnceIdleLongEnough` | src/common/handy/event_base.cc:171-173 | a node registered and not heard of again is called if and only if at least its limit has passed |
| `Idle.UpdatePutsOff` | src/common/handy/event_base.cc:197-201 | an update puts that off until the limit after it |
| `IdlePass.VisitLowersLoad` | src/common/handy/event_base.cc:166-178 | visiting a limit leaves fewer stale nodes or fewer limits to come, although callbacks may register new ones |
| `IdlePass.WalkVisits` | src/common/handy/event_base.cc:166-178 | each limit is visited once, with its list as the visits below it left it |
| `IdlePass.ReturnsIff` | src/common/handy/event_base.cc:164-179 | the pass comes to an end if and only if the scan of every limit of zero or less does, that is, if those lists are empty |
| `IdlePass.PassCallsIff` | src/common/handy/event_base.cc:164-179 | a pass that comes to an end, with callbacks that register, update and unregister, calls for each limit what a full filter of its list at its turn would, only nodes stale at the start, and a stale node if and only if no callback of a smaller limit updated or unregistered it |
| `IdlePass.CalledOnce` | src/common/handy/event_base.cc:169-177 | within a limit each node is called at most once, oldest first |
| `IdlePass.IdleConns.constructor` | src/common/handy/event_base.cc:104-108 | starts with no lists |
| `IdlePass.IdleConns.RegisterIdle` | src/common/handy/event_base.cc:181-190 | appends a node stamped now to the list of its limit |
| `IdlePass.IdleConns.UnregisterIdle` | src/common/handy/event_base.cc:192-195 | the object drops exactly that node |
| `IdlePass.IdleConns.UpdateIdle` | src/common/handy/event_base.cc:197-201 | stamps the node now and moves it to the back |
| `IdlePass.IdleConns.RunCallback` | src/common/handy/event_base.cc:176 | the object moves as the operations of a callback |
| `IdlePass.IdleConns.ScanList` | src/common/handy/event_base.cc:168-177 | the inner loop over a copy makes the specified calls and runs their callbacks on the object |
| `IdlePass.IdleConns.NextLimit` | src/common/handy/event_base.cc:166 | the walk goes on to the least limit above the current one |
| `IdlePass.IdleConns.CallIdlesLoop` | src/common/handy/event_base.cc:164-179 | both loops over the object make exactly the specified calls and leave the specified lists |
| `Poller.VisitIsFair` | src/common/handy/poller.cc:92-107 | one report entry keeps: no repeat, none after its removal, also when it aborts the pass |
| `Poller.StandIsFair` | src/common/handy/poller.cc:92-107 | the same at every turn of the walk |
| `Poller.DispatchIsSafe` | src/common/handy/poller.cc:74-108 | in every pass, also one that aborts, no channel is dispatched twice or after its removal |
| `Poller.DispatchedIff` | src/common/handy/poller.cc:74-108 | a reported channel is dispatched if and only if at its turn the pass has not aborted, no callback of an earlier dispatch has removed it, and its event is a read or a write |
| `Poller.RightHandler` | src/common/handy/poller.cc:96-105 | a channel alive at its turn gets its read handler if and only if it is readable, and its write handler if and only if it is writable and not readable |
| `Poller.AbortsIff` | src/common/handy/poller.cc:103-105 | the pass aborts if and only if some channel alive at its turn was reported for neither |
| `Poller.PollerEpoll.constructor` | src/common/handy/poller.h:18-21 | no live channels, nothing active |
| `Poller.PollerEpoll.AddChannel` | src/common/handy/poller.cc:52-61 | the channel becomes live |
| `Poller.PollerEpoll.RemoveChannel` | src/common/handy/poller.cc:74-83 | the channel is forgotten and its slot, if still to come, nulled; all other slots stay |
| `Poller.PollerEpoll.RunCallback` | src/common/handy/poller.cc:74-83 | after any additions and removals every slot still to come is null exactly if its channel was removed |
| `Poller.PollerEpoll.LoopOnce` | src/common/handy/poller.cc:85-108 | the slot-nulling loop dispatches exactly what the reference walk does, every dispatch finds its channel live, and the live set is what the callbacks made of it |
| `Poller.PollerEpoll.CloseAll` | src/common/handy/poller.cc:43-50 | the destructor's loop ends with no live channel although closing one may close and open others, and every channel closed was live at its turn |
| `StreamMgr.CheckKeepsInv` | src/manager/StreamMgr.cc:239-277 | a pass keeps streams one-to-one with sessions the service holds, and every session owned or stopped |
| `StreamMgr.RunKeepsInv` | src/manager/StreamMgr.cc:40-107 | the same over every run of plan updates, passes and acknowledgements |
| `StreamMgr.AckReachesBye` | src/manager/StreamMgr.cc:90-119 | the parameters of a positive acknowledgement are what a later goodbye carries; a negative one ends the session without a goodbye |
| `StreamMgr.RunAnnounces` | src/manager/StreamMgr.cc:40-57 | over every run each stream with a session was invited to the port of that session |
| `StreamMgr.UpdateReplaces` | src/manager/StreamMgr.cc:157-178 | an update replaces the plans, the last one listed for a stream counts, and sessions, ports and notices stay |
| `StreamMgr.PortsDiffer` | src/manager/StreamMgr.cc:56 | sessions less than 2^15 apart have different ports |
| `StreamMgr.OthersUntouched` | src/manager/StreamMgr.cc:239-277 | a stream the pass does not visit keeps its session |
| `StreamMgr.PassSettles` | src/manager/StreamMgr.cc:239-277 | what the pass owes each visited stream |
| `StreamMgr.PassAgrees` | src/manager/StreamMgr.cc:239-277 | after a pass in any order a planned stream has a session if and only if its bit is set and no creation failed; kept sessions are the same, new ones have new ids, unplanned streams are untouched |
| `StreamMgr.SteadyPass` | src/manager/StreamMgr.cc:239-277 | a pass over streams already in agreement changes nothing |
| `StreamMgr.PassIsIdempotent` | src/manager/StreamMgr.cc:239-277 | a second pass in the same hour changes nothing, unless a creation failed |
| `StreamMgr.Build` | src/manager/Plan.h:39-46 | a plan always has its eight day words |
| `StreamMgr.LastListedCounts` | src/manager/Plan.h:41-45 | the word of a day is the last one listed for it |
| `StreamMgr.UnlistedIsEmpty` | src/manager/Plan.h:39-45 | a day not listed has no hours |
| `StreamMgr.OneHour` | src/manager/StreamMgr.cc:242 | a power of two holds exactly its hour, zero none |
| `StreamMgr.OrIsUnion` | src/manager/StreamMgr.cc:242 | bitwise or of words is union of hours |
| `StreamMgr.OwnWordCounts` | src/manager/StreamMgr.cc:242 | each day is judged by its own word |
| `StreamMgr.DaysAreWords` | src/manager/StreamMgr.cc:24-30 | every weekday has its own word of the plan, Sunday the seventh |
| `StreamMgr.Manager.constructor` | src/manager/StreamMgr.cc:15-21 | starts empty and consistent, port 3000 |
| `StreamMgr.Manager.NewStoreSes` | src/service/SessionService/SessionService.cc:23-48 | a new id, returned and held if preparing succeeded, spent otherwise |
| `StreamMgr.Manager.CreateStream` | src/manager/StreamMgr.cc:40-57 | binds the stream to the new session on success; the port advances either way |
| `StreamMgr.Manager.StopStream` | src/manager/StreamMgr.cc:70-77 | stops and unbinds; the invariant rules out a null session |
| `StreamMgr.Manager.StartStream` | src/manager/StreamMgr.cc:90-107 | safe if and only if the stream has a session; then stores the parameters or stops it |
| `StreamMgr.Manager.UpdateStorePlan` | src/manager/StreamMgr.cc:157-178 | safe if and only if every listed day lies in the plan; then plans replaced, previous ones kept aside, a repeated stream takes its last plan |
| `StreamMgr.Manager.CheckStorePlan` | src/manager/StreamMgr.cc:234-277 | the loop over the plans does what the specified pass does |

## Left out

- Sockets, `epoll_ctl`, pipe creation, DNS, daemon, file, logging, UDP and statistics code: operating system plumbing, present only as answers of the environment.
- Connect, handshake, reconnect and cleanup of `TcpConn`: lifetime of objects; the stream property is about one incarnation, with sends starting once Connected.
- The kqueue poller: not part of the Linux build.
- The `Continue100` branch of the HTTP parser: it looks "Expect" up among lower-cased keys, so decoding never reaches it.
- `copyBody = false` and `body2`: the body is always copied here.
- A NUL byte inside a string printed with `%s`, or inside one appended as a C string, would cut it; strings are taken whole here. The 4096 and 1024 byte line buffers are modelled.
- `delPlans_`, `stopAllStream`, `diffStorePlan`: they compare an iterator with another map's end and erase inside range loops, so the code fixes no meaning.
- The limit of 200 store sessions: the counter it tests is never changed by the calls StreamMgr makes.
- `ExternalMsgCodec`, Conf, Status, Singleton, StreamBuf: no hard property.
- Self-assignment of `Buffer`, which frees what it copies.
- Framing.LengthDecode: a negative length field gives a message whose extent runs backwards; it is recorded as such, not as bytes, and buffers are below 2 GiB.
- Timers.Cancel: cancelling a repeating id that is not live dereferences the end of the map, so it is a caller's obligation; deadlines are positive and intervals not negative.
- TimerPass.PassFiresExactly: nothing due is left while sequence numbers stay below 2^62, the constant the loop compares with, and callbacks schedule nothing already due (such callbacks can keep the pass from ending).
- Conn.TcpConn.HandleRead: the update of idle nodes is not part of it; `OnReadable` adds the read callback. Its exact verdict is stated for positive growth units; `ReadRound` has the other case round by round.
- Poller.PollerEpoll.CloseAll: close handlers that go on opening channels for ever are excluded; the program would not return.
- HttpServer.PipelineIff: the connection is modelled on values; its callback answers at once, which is what clears the request. The client side is the same with responses.
- Poller.PollerEpoll.LoopOnce: epoll reports each channel at most once and only live ones.
- Session ids, counted in 64 bits, do not wrap here.
- IdlePass.IdleConns.CallIdlesLoop: limits are positive or their lists empty; otherwise the program does not return (`ScanEndsIff`). `registerIdle` starting the one-second timer is not part of it.
- HttpRoundTrip.RequestRoundTrip: bodies are below 2 GiB, because `atoi` reads a 32-bit content length.
- HttpMessages.HttpResponse.TryDecode: `atoi` stops at the end of the received bytes at the latest; the memory behind them is not part of this model.
- SafeQueues.SafeQueue.PopNow: the waiting part of `pop_wait` is in the step system, not in the object.
