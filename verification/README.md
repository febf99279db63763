# yuan: a verified model

A Dafny model of the core of yuan, a coroutine network framework: its byte buffer, its scheduler and event loop, its
timers, its HTTP body assembly and connection pool, and its address arithmetic. One module per file.

- `Words`, `Bits`, `Options`: machine words as natural numbers with explicit wrap-around, byte order, bitwise operations.
- `Codec`, `FlatMemory`, `NodeList`, `ByteArrays`: `yuan/bytearray.cc`. `ByteArray` is a class over a heap-linked list
  of nodes; `Data()` is the flat byte sequence it stands for, and every operation is stated on it. `Codec` gives the wire
  formats as functions; the typed readers and writers are proved against them. A read can fail in two ways: out of range,
  and the null dereference of a zero-length read with the cursor at the very end of the nodes, which also makes the round
  trip of a list that ends in an empty string fail there.
- `Reactor`, `WakeTokens`, `Tasks`, `ReactorRuns`, `Progress`: the protocol of `scheduler`, `fiber`, `iomanager`, `timer` and `hook`
  as a state machine. A step is one locked region, or a switch between a fiber and its worker with the bookkeeping behind
  it. Queueing a READY fiber again is a step of its own, and so is the switch behind setting a fiber's state to HOLD; a
  run ends if a worker switches to a fiber between these two.
  All pieces of work (registered handlers, timers, extracted callbacks, queued and dequeued tasks) are kept in one map
  from places to work, so that "exactly one wake source" is a statement about that map. `Tasks` follows every entry of the
  queue through its stages, and `Progress` shows that a run can always go on until a given waiting fiber is switched to.
- `DoIo`: one call of the hooked I/O functions with the flag its timeout callbacks share.
- `Schedulers`, `IoManagers`, `Timers`: the same components as objects, with the loops of their methods.
- `Streams`, `ChunkLines`, `ChunkCoding`, `ChunkRuns`, `ChunkSizes`, `ChunkCases`, `HttpConnections`, `HttpSessions`,
  `HttpPools`: `yuan/stream.cc` and `yuan/http`. A transport is an arbitrary plan of how much each read and write gets; an
  error and the end of data are plans too. `ChunkSizes` is about sizes that are no int.
- `Addresses`, `Ipv6Text`: `yuan/address.cc`.

Where the code does not do what its documentation or its users expect, the model keeps the code. For each of these there
is a statement of exactly when it happens, and a concrete case:

- in front of every chunk-size line, the last included, `recvResponse` wants a further byte from the peer, so a body whose
  last chunks are in the buffer already is not returned (`ChunkRuns.ChunksExactly`; `ChunkCases.LateBodyIsLost`);
- a chunk-size line split over two reads is parsed anew from its second part (`ChunkRuns.ChunksExactly`,
  `ChunkCases.CutLine`; `CutLineEndsBody`);
- a chunk size of 2^31 or more is cut to an int, and the body assembled with that (`ChunkSizes.SizeTurn`,
  `AnyChunksExactly`; `ChunkCases.LargeSizeIsCut`);
- a quoted string in a chunk extension is an error (`ChunkLines.SizeLineIsRead`; `QuotedValueIsBad`);
- bytes of a next message that are in the buffer behind a body are dropped (`HttpSessions.MessageIsExact`;
  `NextMessageIsLost`);
- a Content-Length whose missing part is 2^31 bytes or more is cut to an int (`HttpSessions.FilledIsAll`;
  `LongBodyIsCut`);
- `idle()` waits without limit when bit 31 of the time to the next timer is set (`IoManagers.TimeoutIsSafe`;
  `TimeoutLost`);
- an error or hang-up report aborts when only one event of the descriptor is registered (`IoManagers.IOManager.Deliver`;
  `HangUpAborts`);
- racing calls of `addEvent` can shrink the list of contexts (`IoManagers.IOManager.ResizeFdContexts`; `ShrinkLosesEvent`);
- a timeout is lost that runs out before `addEvent`, or whose `cancelEvent` is refused (`DoIo.TimeoutIsPending`;
  `TimeoutLost`, `RefusalLosesTimeout`);
- the timeout of an earlier round can end a later one (`DoIo.CutShortExactly`; `OldCallbackCutsShort`);
- a fiber that has set its state to HOLD can be taken by another worker, which switches to it before its context is saved
  (`ReactorRuns.ClashesExactly`; `FiberStartsTooEarly`);
- `stopping()` does not see timer callbacks in the hands of another idle thread, nor a READY fiber between
  `--m_activeThreadCount` and `schedule` (`ReactorRuns.StoppingMisses`; `StoppingMissesTimer`, `StoppingMissesReady`);
- `refresh` can lose a wake-up when the deadline wraps around (`Timers.TimerManager.Refresh`; `RefreshCanWrap`);
- a recurring timer put back after the clock was set back can be due before the end of somebody's wait
  (`Timers.TimerManager.ListExpiredCbs`; `RollbackLosesWakeup`);
- a notification of a new first timer may wake one of several waiting threads, and the others sleep past it
  (`Timers.TimerManager.Notify`; `OneIsNotWoken`);
- a read at a position starts in the current node (`NodeList.ReadStartInNode`; `ReadsElsewhere`);
- an empty string at the very end of the nodes cannot be read back (`Codec.ListRoundTrip`; `EmptyStringIsLost`).

`m_maxSize` of the connection pool is never looked at by the code, so the pool has no such field here.

`dafny verify dfyconfig.toml` checks everything.

## Model

| member | source | states |
|---|---|---|
| Words.ByteSwapShifts | yuan/endian.h:20-37 | swapping moves the lowest octet to the top and swaps the rest below it |
| Words.ByteSwapInvolution | yuan/endian.h:20-37 | swapping a word of any size twice gives it back |
| Words.ByteSwapOfNative | yuan/endian.h:46-61 | swapping what a host loads is loading in the other byte order |
| Codec.WidthsArePowers | yuan/bytearray.cc:56-105 | the fixed widths are one, two, four and eight octets |
| Codec.FixedIsNative | yuan/bytearray.cc:56-105 | with the swap the bytes of a fixed-width value are those of the array's byte order, on a host of either order |
| Codec.FixedIsHostIndependent | yuan/bytearray.cc:56-105 | the wire image depends on the array's byte order only, and reads as the value in that order |
| Codec.FixedInOtherOrder | yuan/bytearray.cc:545-547 | a word written before setIsLittleEndian and read behind it comes out with its bytes swapped, on hosts of either order |
| Codec.FixedRoundTrip | yuan/bytearray.cc:220-252 | a fixed-width read in front of anything gives the written word and uses its bytes only |
| Codec.VarintIsShortest | yuan/bytearray.cc:141-167 | the varint of v has at most k bytes exactly when v < 2^(7k) |
| Codec.VarintBytes | yuan/bytearray.cc:141-167 | the writing loop fills its 5 or 10 byte scratch array with exactly the varint and never overruns it |
| Codec.ShiftLeftIsModular | yuan/bytearray.cc:262-266 | the shift of the reading loop is multiplication by a power of two modulo the word size |
| Codec.DecodeVarintInWord | yuan/bytearray.cc:258-288 | whatever the bytes are, a varint read gives a number of the word's size |
| Codec.OrSeven | yuan/bytearray.cc:261-268 | one turn of the reading loop: or-ing in seven bits decodes one more byte |
| Codec.VarintRoundTrip | yuan/bytearray.cc:258-288 | every 32 and 64-bit value decodes from any longer input, using exactly the varint's bytes |
| Codec.ZigzagValue | yuan/bytearray.cc:108-130 | zigzag with wrap-around is 2z or -2z-1 for every value, the minimum included |
| Codec.ZigzagRoundTrip | yuan/bytearray.cc:108-134 | decoding an encoded number gives it back, the minimum included |
| Codec.UnzigzagRoundTrip | yuan/bytearray.cc:108-134 | encoding a decoded word gives it back, so zigzag is a bijection |
| Codec.ZigzagOrdersMagnitudes | yuan/bytearray.cc:107-116 | smaller magnitudes get smaller codes and no longer varints |
| Codec.TextRoundTrip | yuan/bytearray.cc:184-197 | a length-prefixed string reads back exactly when the length fits the prefix and the prefix does not end at the end of the nodes |
| Codec.ItemRoundTrip | yuan/bytearray.cc:56-323 | each writer and its matching reader: the value comes back exactly under that condition, from any longer input |
| Codec.ListReadsBack | yuan/bytearray.cc:56-323 | if single items round-trip exactly under a condition, lists do under the conditions in turn |
| Codec.ListRoundTrip | yuan/bytearray.cc:56-323 | a list of items reads back, using exactly its bytes, if and only if all strings fit their prefixes and it does not end, at the end of the nodes, in an empty string |
| Codec.EmptyStringIsLost | yuan/bytearray.cc:304-308 | an empty string whose prefix fills the nodes is read with a null cursor |
| FlatMemory.SpliceNode | yuan/bytearray.cc:356-374 | copying into one node is splicing the joined memory at that node's offset, and changes nothing else |
| FlatMemory.SliceNode | yuan/bytearray.cc:390-407 | a range of one node is the range of the joined memory at its offset |
| FlatMemory.NodeOfIsQuotient | yuan/bytearray.cc:353-354 | the node of a position and the place in it are quotient and remainder by the base size |
| FlatMemory.OverlayTwice | yuan/bytearray.cc:347-379 | two writes in a row are one write of both |
| FlatMemory.OverlayAt | yuan/bytearray.cc:347-379 | behind a write each byte of it is at its place, and every other byte what it was before |
| NodeList.AppendNodes | yuan/bytearray.cc:517-533 | the loop of addCapacity links so many new nodes behind the tail and adds their capacity |
| NodeList.CopyIn | yuan/bytearray.cc:353-374 | the loop of write puts the bytes at the position across nodes, leaves all other bytes alone, and its node pointer at the node behind them or null at the end |
| NodeList.CopyOut | yuan/bytearray.cc:386-438 | the loop of both reads takes exactly the bytes from its starting place on, and comes to dereference null exactly if they reach past the last node |
| NodeList.Seek | yuan/bytearray.cc:450-459 | the loop of setPosition finds the node of every position up to the capacity, null exactly there |
| NodeList.NodesFor | yuan/bytearray.cc:516-517 | the number of new nodes is the least that holds the missing bytes |
| ByteArrays.CapacityBounds | yuan/bytearray.cc:511-533 | the capacity for so many bytes holds them, is not less than it was, and one node less would not do |
| ByteArrays.AfterAppending | yuan/bytearray.cc:347-379 | a list appended at the end leaves the capacity there was, or the least number of whole nodes that holds everything |
| ByteArrays.ByteArray.constructor | yuan/bytearray.cc:37-45 | a new array is empty, of one node, in network byte order |
| ByteArrays.ByteArray.CursorIsQuotient | yuan/bytearray.h:150-164 | capacity is nodes times base size; m_cur is null exactly when position equals capacity and else node number position / base size |
| ByteArrays.ByteArray.AddCapacity | yuan/bytearray.cc:506-539 | afterwards that many bytes fit behind the size, the cursor is not null, only new nodes were added, and the capacity is what it was if that was enough, and else the least multiple of the base size that is |
| ByteArrays.ByteArray.Write | yuan/bytearray.cc:347-379 | the flat array is overlaid with the bytes at the position, extended if they reach further; everything else is unchanged, allocated memory behind the size included; and position, size and capacity are known beforehand |
| ByteArrays.ByteArray.Read | yuan/bytearray.cc:381-408 | the bytes from the position on, with both failures; the data never changes and the position moves over what was read |
| ByteArrays.ByteArray.ReadAt | yuan/bytearray.cc:410-439 | for every position: out of range, a null dereference, or the bytes at that place of the current node; these are the bytes at the position exactly if it is in the current node; nothing moves |
| ByteArrays.ByteArray.ReadSizeWraps | yuan/bytearray.cc:410-412 | the size left from a position behind the size on is not negative but almost 2^64 |
| NodeList.ReadStartInNode | yuan/bytearray.cc:416-419 | the loop starts in the current node, which is right if and only if the position is in it |
| NodeList.ReadsElsewhere | yuan/bytearray.cc:416-419 | with nodes of 4 bytes and the cursor at 5, a read at 1 starts at 5 |
| ByteArrays.ByteArray.ToString | yuan/bytearray.cc:549-558 | all bytes from the position to the size |
| ByteArrays.ByteArray.SetPosition | yuan/bytearray.cc:441-460 | succeeds exactly up to the capacity, extends the size but changes no byte, and keeps the invariant |
| ByteArrays.ByteArray.Clear | yuan/bytearray.cc:332-345 | back to one empty node, whose memory stays |
| ByteArrays.ByteArray.SetIsLittleEndian | yuan/bytearray.cc:545-547 | changes the byte order only: the bytes there are and the position stay |
| ByteArrays.ByteArray.WriteFuint | yuan/bytearray.cc:60-105 | appends the value's image in the array's byte order |
| ByteArrays.ByteArray.WriteFint | yuan/bytearray.cc:56-98 | the same for signed values in two's complement |
| ByteArrays.ByteArray.WriteUint | yuan/bytearray.cc:141-167 | appends the varint |
| ByteArrays.ByteArray.WriteInt | yuan/bytearray.cc:136-156 | appends the varint of the zigzag code |
| ByteArrays.ByteArray.WriteText | yuan/bytearray.cc:184-197 | appends the truncated length and all bytes |
| ByteArrays.ByteArray.ReadFuint | yuan/bytearray.cc:214-252 | decodes a fixed-width word at the position |
| ByteArrays.ByteArray.ReadFint | yuan/bytearray.cc:208-252 | decodes a signed fixed-width word |
| ByteArrays.ByteArray.ReadUint | yuan/bytearray.cc:258-288 | the loop decodes the varint at the position; bytes before an exception stay consumed |
| ByteArrays.ByteArray.ReadInt | yuan/bytearray.cc:254-274 | decodes varint and zigzag |
| ByteArrays.ByteArray.ReadText | yuan/bytearray.cc:304-323 | decodes a string, with the null cursor of a zero-length read at the very end |
| ByteArrays.ByteArray.WriteAll | tests/test_bytearray.cc:14-16 | writing items one after the other overlays the data with all their images |
| ByteArrays.ByteArray.ReadAll | tests/test_bytearray.cc:18-21 | reading one after the other decodes the list, up to the first failure |
| ByteArrays.ByteArray.RoundTrip | tests/test_bytearray.cc:6-26 | writing a list anywhere, for any base size and byte order, setPosition back and reading gives the same list and end position exactly under the list condition, in a capacity that the sizes written decide |
| WakeTokens.KeepsInv | yuan/scheduler.cc:166-258 | every step of the protocol keeps: one recorded wake source per waiting fiber, at the one place that holds work for it; fibers and workers agree, a fiber that is still being left included; places hold what they may |
| WakeTokens.UniqueMove | yuan/iomanager.cc:37-51 | moving a piece of work from place to place keeps wake sources unique |
| WakeTokens.CallbackFiberIsUnused | yuan/fiber.cc:100-117 | the fiber a callback gets is new or unused, and nothing will wake it, so the state assertion of reset holds |
| WakeTokens.HandIsWaiting | yuan/fiber.cc:119-129 | a dequeued fiber is in HOLD or READY and has no other wake source, so the state assertion of swapIn holds, also in a clash |
| ReactorRuns.ExactlyOneWakeSource | yuan/hook.cc:117-180 | in every state of every run a fiber that waits, or is registered and about to yield, has exactly one wake source unless delEvent abandoned it, and any other fiber none; epoll, timeouts, cancelAll and sleep timers race freely |
| ReactorRuns.AbandonedByDelEvent | yuan/iomanager.cc:148-181 | delEvent on a fiber's own registration is the only way to lose it, and an abandoned fiber waits for ever |
| ReactorRuns.SwitchesAreSafe | yuan/scheduler.cc:203-245 | in every run a worker, but for a clash, only switches to suspended fibers that no other worker is still leaving, never drops one as terminated, and gives callbacks fibers with no wake source |
| ReactorRuns.ClashEndsRun | yuan/fiber.cc:185-189 | only such a switch ends a run, and nothing is said of what follows it |
| ReactorRuns.ClashesExactly | yuan/fiber.cc:185-189 | a worker that has taken a fiber out of the queue switches to it too early if and only if a worker on which it set its state to HOLD is not past the switch since then |
| ReactorRuns.FiberStartsTooEarly | yuan/fiber.cc:185-189 | a reached state in which an event is triggered and its fiber taken before swapcontext has saved it |
| Tasks.KeepsTasks | yuan/scheduler.cc:166-258 | every step keeps: the queue holds the entries nobody has taken, as submitted; a worker holds or runs an entry it has taken, as submitted; what is taken and not finished is with its worker |
| Tasks.StageSteps | yuan/scheduler.cc:166-258 | an entry goes from queued to taken, running and finished, each by the one step of its worker that does this, and no other step changes its stage |
| ReactorRuns.EnteredOnce | yuan/scheduler.h:118-127 | a task that a step schedules is at every later point queued as it was, in the hands of the worker that took it, run by that worker, or finished; a pinned one only with the worker it is pinned to |
| ReactorRuns.TasksPartition | yuan/scheduler.cc:166-245 | in every state of every run the submitted tasks are those queued, taken, running and finished, no two of these overlap, and no two workers have the same |
| ReactorRuns.StartsItsEntry | yuan/scheduler.cc:203-223 | the worker that starts an entry is the one recorded to have taken it, and it runs what was submitted |
| ReactorRuns.StagesGrow | yuan/scheduler.cc:166-258 | over any part of a run no entry goes back a stage |
| ReactorRuns.StartedOnce | yuan/scheduler.cc:203-223 | no entry is started twice in a run |
| Progress.NextStep | yuan/scheduler.cc:166-258 | whatever a fiber's wake source is, some step, of its worker or of one that helps, switches to it or leaves less to do before that |
| Progress.WaitersCanRunExactly | yuan/scheduler.cc:166-258 | no wake-up is lost: while there is a worker whose idle() has not ended, every run can be continued to a switch to a given waiting fiber if and only if delEvent has not abandoned it |
| Progress.NobodyIsStuck | yuan/scheduler.cc:166-258 | no deadlock: in every state of every run, but for a clash, each worker that has not left run() has a step of its own |
| ReactorRuns.CountersAreExact | yuan/scheduler.cc:190-244 | m_activeThreadCount is the number of workers between taking a task and counting themselves out, also while a READY fiber is not queued again yet; m_pendingEventCount that of events registered or triggered and not yet counted down |
| ReactorRuns.EndedExactly | yuan/iomanager.cc:293-296 | in every run: idle() has ended on a worker if and only if a call of stopping() has returned true there |
| ReactorRuns.EndedNeverIdles | yuan/scheduler.cc:246-255 | from then on the worker stays ended, is never in idle() again, and of the steps of an idle worker takes none but leaving |
| ReactorRuns.LeavesIfNothingToTake | yuan/scheduler.cc:239-249 | such a worker can leave run() exactly when there is no queued task it can take |
| ReactorRuns.LeftExactly | yuan/scheduler.cc:246-249 | in every run: a worker has left if and only if it has taken that step |
| ReactorRuns.NothingLeftBehind | yuan/scheduler.cc:239-258 | once all workers have left run, every task that was ever submitted is finished, or pinned and still queued |
| ReactorRuns.AllDoLeave | yuan/scheduler.cc:239-258 | a reached state in which the only worker has left and its task is finished |
| ReactorRuns.HandlerStays | yuan/iomanager.cc:95-146 | in every run: what addEvent registers, a fiber or a callback, is what everything that carries this registration later reads, in the queue or anywhere else |
| ReactorRuns.TriggersItsHandler | yuan/iomanager.cc:37-51 | so triggering an event schedules what was registered for it |
| ReactorRuns.ExpiresWithItsCallback | yuan/timer.cc:168-178 | in every run: whenever a timer or a sleep expires its own callback is extracted, and it stays in the set if and only if it recurs |
| ReactorRuns.GoneForGood | yuan/timer.cc:19-29 | in every run: a cancelled timer, or one that expired and does not recur, neither expires nor is cancelled again |
| ReactorRuns.StoppingSeesEvents | yuan/iomanager.cc:275-280 | when stopping() is about to return true, no registration from before the call is queued, held or running |
| ReactorRuns.ShutdownSeesEvents | yuan/iomanager.cc:270-280 | over whole runs: an event registered before a call of stopping() that returns true was deleted, or delivered and its handler slice returned |
| ReactorRuns.StoppingLeftovers | yuan/iomanager.cc:275-280 | what such a call can miss of earlier work: a timer callback another idle worker has taken out and not scheduled, and a READY fiber whose worker has counted itself out and not queued it again |
| ReactorRuns.StoppingMisses | yuan/iomanager.cc:275-280 | it misses earlier work if and only if there is one of these |
| ReactorRuns.StoppingMissesReady | yuan/scheduler.cc:205-209 | a concrete run in which it misses a READY fiber |
| ReactorRuns.StoppingMissesTimer | yuan/iomanager.cc:315-321 | a concrete run in which it does miss one |
| ReactorRuns.KeepsPending | yuan/iomanager.cc:362-369 | scheduling before counting down keeps the pending count exact through every step |
| Schedulers.BatchInOrder | yuan/scheduler.h:52-67 | a batch keeps the order of its work, for any thread, and leaves out only what is empty |
| Schedulers.Scheduler.ScheduleNoLock | yuan/scheduler.h:118-127 | a task goes behind all others unless it is empty; the queue was empty exactly when a tickle is due |
| Schedulers.Scheduler.ScheduleAll | yuan/scheduler.h:52-67 | a batch goes behind all others in its own order, for any thread, and the caller's elements are empty afterwards |
| Schedulers.Scheduler.TakeTask | yuan/scheduler.cc:166-197 | the scan takes the first task this thread may run and keeps the order of the others; it passes a tickle on exactly when it skipped a task of another thread |
| Schedulers.Scheduler.GiveBack | yuan/scheduler.cc:203-245 | on all ways out the thread is counted out once, and only a fiber in READY is queued again |
| Schedulers.Scheduler.Stopping | yuan/scheduler.cc:261-264 | true exactly when stopped, the queue is empty and no thread holds a task |
| DoIo.TimeoutIsPending | yuan/hook.cc:132-176 | in every run the wait of a registered call can time out if and only if epoll_ctl has not refused the timeout's cancelEvent; or, if the flag was set before it registered, that callback has not called cancelEvent yet |
| DoIo.ReturnsExactly | yuan/hook.cc:117-180 | in every run: the call returns the original function's result exactly if that did not say EAGAIN, an error of its own exactly if addEvent failed, and a timeout exactly if the flag was set when it was switched back to |
| DoIo.ReturnedLeavesNoTimer | yuan/hook.cc:117-180 | in every run: a call that has returned, whichever way, has none of its timers in the set |
| DoIo.TimedOutMeansExpired | yuan/hook.cc:133-142 | a timeout is reported only after a callback of this call's own timers set the flag, and at most one does |
| DoIo.LostStaysLost | yuan/hook.cc:150-163 | once lost, only an event or another thread ends the wait |
| DoIo.TimeoutLost | yuan/hook.cc:132-163 | a concrete run: a timer that runs out before addEvent leaves the call suspended without a timeout |
| DoIo.RefusalLosesTimeout | yuan/iomanager.cc:196-206 | a concrete run: so does one whose cancelEvent epoll_ctl refuses |
| DoIo.CutShortExactly | yuan/hook.cc:132-176 | in front of addEvent: a timeout this round reports can be that of an earlier round if and only if an earlier callback was out of the timer set when its round came to timer->cancel(), and has set the flag or can still be first to |
| DoIo.OwnIfCancelled | yuan/hook.cc:133-176 | a reported timeout is this round's own if all earlier callbacks were cancelled in time |
| DoIo.OwnThoughTaken | yuan/hook.cc:133-176 | a concrete run: it can be its own although an earlier callback was not |
| DoIo.OldCallbackCutsShort | yuan/hook.cc:133-176 | a concrete run: a callback of an earlier round ends a later one before its own timer has run out |
| IoManagers.FdContext.TriggerEvent | yuan/iomanager.cc:37-51 | hands exactly the registered handler over and clears bit and context; fails exactly when the bit is not set |
| IoManagers.WatchedIffAny | yuan/iomanager.cc:119-125 | the kernel watches a descriptor exactly when it has events, and then for those, so the choice of operation is right |
| IoManagers.WatchesLess | yuan/iomanager.cc:161-168 | watching for fewer events, or none, fits the registrations that are left |
| IoManagers.IOManager.AddEvent | yuan/iomanager.cc:95-146 | aborts on a double registration, changes nothing when epoll_ctl fails, and else registers exactly this handler |
| IoManagers.IOManager.DelEvent | yuan/iomanager.cc:148-181 | removes exactly this registration without running it, if epoll_ctl succeeds |
| IoManagers.IOManager.CancelEvent | yuan/iomanager.cc:183-217 | removes exactly this registration and schedules its handler, if epoll_ctl succeeds |
| IoManagers.IOManager.CancelAll | yuan/iomanager.cc:219-255 | removes both registrations of a descriptor and schedules their handlers, READ first, or nothing |
| IoManagers.IOManager.Deliver | yuan/iomanager.cc:333-369 | delivers exactly the reported registered events, a readable report to READ and a writable one to WRITE; aborts exactly when a report, widened by an error or hang-up, names an unregistered event beside a registered one |
| IoManagers.HangUpAborts | yuan/iomanager.cc:333-341 | an error report for a descriptor with only READ registered aborts |
| IoManagers.IOManager.ResizeFdContexts | yuan/iomanager.cc:384-393 | any size: old slots below it stay and new ones get fresh, empty contexts; the invariant survives if and only if no registered descriptor is cut off |
| IoManagers.ShrinkLosesEvent | yuan/iomanager.cc:95-111 | two racing calls of addEvent shrink the list and cut off a registration |
| IoManagers.Accounting | yuan/iomanager.cc:31-51 | after every operation, failed ones included: the pending count is the number of registrations, the kernel watches exactly the registered events, and a context is populated, with one of fiber and callback, exactly when its bit is set |
| IoManagers.TimeoutIsSafe | yuan/iomanager.cc:298-308 | idle() sleeps no longer than until the next timer exactly when bit 31 of that time is clear |
| IoManagers.TimeoutLost | yuan/iomanager.cc:301-308 | 2^31 milliseconds to the next timer become an unlimited wait |
| Timers.Find | yuan/timer.cc:24-25 | searching the set by its comparator finds a timer exactly when it is a member |
| Timers.Insert | yuan/timer.cc:186-187 | inserting keeps the order by deadline and address |
| Timers.UpperBound | yuan/timer.cc:159-161 | splits the set at a deadline, ties by address |
| Timers.RolledBackIsAnHour | yuan/timer.cc:199-207 | the rollover test is one hour, except for clocks in their first hour, where the subtraction wraps |
| Timers.SamePast | yuan/timer.cc:61-65 | taking the old period off a deadline and adding the new one counts from the same past clock reading, modulo 2^64 |
| Timers.TimerManager.Cancel | yuan/timer.cc:19-29 | succeeds exactly while the timer has a callback, and then the timer was in the set, so the find never fails; it leaves the set for good |
| Timers.TimerManager.Refresh | yuan/timer.cc:31-46 | the deadline moves to a period from now; wake-ups are kept if and only if nobody waits for longer than that, and always while it stays in 64 bits |
| Timers.TimerManager.Reset | yuan/timer.cc:48-72 | the new deadline counts from now or from the same past reading; wake-ups are kept through addTimer |
| Timers.TimerManager.AddTimer | yuan/timer.cc:104-110 | the timer joins the set, and a notification is decided when it comes first and none is under way |
| Timers.TimerManager.AddLocked | yuan/timer.cc:186-197 | a notification is decided exactly when the timer comes first and m_tickled is clear |
| Timers.TimerManager.PollBegin | yuan/timer.cc:125-126 | clearing m_tickled outside the lock keeps the wake-up invariant |
| Timers.TimerManager.PollRead | yuan/timer.cc:127-141 | the time to the first deadline, 0 if it has passed, the maximum without timers |
| Timers.TimerManager.Notify | yuan/timer.cc:194-196 | whichever threads a notification wakes: afterwards nobody can sleep past a timer if and only if all wake up, or m_tickled is clear and those who sleep on wait for nothing later than a timer |
| Timers.OneIsNotWoken | yuan/iomanager.cc:261-268 | two threads wait without timers and a notification wakes one of them: the other sleeps past the new timer |
| Timers.TimerManager.ListExpiredCbs | yuan/timer.cc:143-179 | returns, in deadline order, every timer due before now and none due after, or all on rollover; one-shot ones lose their callback, recurring ones are back a period from now; each is returned once more than before; the reading is kept for the next call if there were timers; wake-ups are kept if and only if nobody waits for longer than one of those put back, and always without a rollover and with deadlines below 2^64 |
| Timers.TimerManager.ListTwice | yuan/timer.cc:143-207 | over two calls: the second is a rollover, which returns every timer, if and only if there are timers and its reading is more than an hour before that of the last call that had any, with clocks in their first hour counted 2^64 ms further on |
| Timers.TimerManager.FireAll | yuan/timer.cc:168-178 | the loop over the expired timers returns the callbacks in order and serves each timer once |
| Timers.NoLostWakeup | yuan/timer.cc:125-141 | a thread that polled, was not notified since and has no notification coming sleeps past no timer |
| Timers.RefreshCanWrap | yuan/timer.cc:39-42 | a concrete state in which refresh loses a wake-up |
| Timers.RollbackLosesWakeup | yuan/timer.cc:153-178 | a concrete rollover: a recurring timer goes back before the end of somebody's wait |
| Streams.ReadFixSize | yuan/stream.cc:5-17 | the next bytes in order, as many as the plan of the transport lets through; the length as result exactly if that is all of them, and else the result of the read that got nothing |
| Streams.PullAll | yuan/stream.cc:7-15 | a transport that gives something on every call delivers exactly if there is enough |
| Streams.WriteFixSize | yuan/stream.cc:31-43 | the same for sending: the bytes in order, up to the first write that takes nothing |
| ChunkLines.ExecuteLine | yuan/http/httpclient_parser.rl.cc:115-470 | the state machine on a chunk-size line, its extensions included, finds its size and length, an error, or an unfinished line |
| ChunkLines.LineOfPrefix | yuan/http/httpclient_parser.rl.cc:144-470 | more input does not change a size or an error that has been found |
| ChunkLines.SizeLineIsRead | yuan/http/httpclient_parser.rl:150-154 | every line of section 4.1 of RFC 7230 whose extension values are tokens is read, with its size and all of its length |
| ChunkLines.PrintedSizeIsRead | yuan/http/httpclient_parser.rl.cc:160-180 | the line printed for any number in hexadecimal, in lower or upper case, is read as that number |
| ChunkLines.OnlyDigits | yuan/http/httpclient_parser.rl.cc:115-180 | what the machine takes for a digit is one of these letters, with its place in the alphabet as value |
| ChunkLines.CharacterClasses | yuan/http/httpclient_parser.rl:150-154 | what it takes for part of a token is a letter, a figure or one of the marks of section 3.2.6 of RFC 7230 |
| ChunkLines.QuotedValueIsBad | yuan/http/httpclient_parser.rl:150 | a quoted string as the value of an extension, which that section allows, is an error |
| ChunkCoding.DecodeEncode | yuan/http/http_connection.cc:71-125 | decoding chunks as section 4.1 of RFC 7230 frames them gives the payloads, whatever follows |
| ChunkCoding.EncodedSizesFit | yuan/http/http_connection.cc:99-101 | chunks below 2 GiB are in reach of the source's int |
| ChunkLines.SplitLine | yuan/http/httpclient_parser.rl.cc:3315-3328 | a size line that arrives in two parts is read with the right size exactly when what was cut off the size was leading zeros, or was cut in the extensions and the same number stands there again |
| ChunkLines.SplitLineEndsBody | yuan/http/http_connection.cc:76-95 | 10 split behind its first digit is read as 0, the end of the body |
| ChunkSizes.ContentLenExactly | yuan/http/httpclient_parser.rl.cc:160-180 | content_len is the size on the line if and only if that is below 2^31 |
| ChunkSizes.ContentLenIs | yuan/http/httpclient_parser.rl.cc:160-180 | in general it is the int with the same low 32 bits, and -1 for sizes that strtol cannot hold |
| ChunkSizes.SizeTurn | yuan/http/http_connection.cc:96-122 | one turn whose line is not split: undefined exactly if content_len is negative or overflows with 2, and else it takes content_len bytes, which is the size on the line exactly if that is below 2^31 |
| HttpConnections.Execute | yuan/http/http_parser.cc:241-249 | one execute call on a size line: what the machine makes of it, and what it does not take moved down |
| HttpConnections.ReadOnce | yuan/http/http_connection.cc:77-94 | one turn: what it finds and where it leaves buffer, stream and transport |
| HttpConnections.ReadSizeLine | yuan/http/http_connection.cc:76-95 | at least one read, also if the line is in the buffer; what it finds and where it ends |
| HttpConnections.ReadChunk | yuan/http/http_connection.cc:99-122 | exactly the chunk's bytes, without the two behind it, from the buffer or any number of reads, exactly if they all arrive |
| HttpConnections.RecvChunks | yuan/http/http_connection.cc:71-125 | what is returned, and where the connection is left, is a function of the peer's bytes, how many are in the buffer, and the transport's plan |
| ChunkRuns.ChunksExactly | yuan/http/http_connection.cc:71-125 | for a stream that decodes, with sizes that fit: the decoded body is returned and what follows is left if and only if, at every size line, a further byte comes and completes the line, and each chunk's missing bytes come; a line is split if and only if a read ends in it |
| ChunkSizes.AnyChunksExactly | yuan/http/http_connection.cc:71-125 | for any bytes: if they decode with the sizes as the source takes them, that body is returned if and only if the chunks arrive in time; if they do not, nothing is returned unless a line is split |
| ChunkSizes.OnlyDecoded | yuan/http/http_connection.cc:71-125 | for any bytes, unless a line is split: what is returned is the body of a stream that decodes with the sizes as the source takes them, and with those on its lines if they fit; and the source is defined if they fit |
| ChunkRuns.OneReadEach | yuan/http/http_connection.cc:76-77 | a returned body has cost a read of at least one byte for each size line, the last one included |
| ChunkCases.LateBodyIsLost | yuan/http/http_connection.cc:76-81 | a body of one byte that arrives complete in a single read is not returned |
| ChunkCases.LargeSizeIsCut | yuan/http/http_connection.cc:96-122 | a chunk size of 2^32 + 1 in a stream of 19 bytes that does not decode: nothing is split, and a body of one byte is returned |
| ChunkCases.CutLine | yuan/http/http_connection.cc:76-95 | a line cut by the end of a read comes out with the right size if and only if what was cut off says so (leading zeros, or the same number again), at the right place, and, if the size on the line is an int, with the right content_len if and only if both make the same int |
| ChunkCases.CutKeepsInt | yuan/http/http_connection.cc:76-95 | a concrete line that is cut behind a digit other than zero and comes out with the same content_len |
| ChunkCases.CutLineEndsBody | yuan/http/http_connection.cc:76-95 | a chunk of 16 bytes whose size line is cut behind its first digit: an empty body is returned |
| HttpConnections.RecvResponse | yuan/http/http_connection.cc:29-150 | header and body together: without a complete header the connection is closed; behind it a chunked body is what the chunk loops make of the bytes, the buffer and the plan there; any other one is returned exactly if it arrives, and for a length of 1 to 2^31 - 1 it is the next so many bytes, for 0 or from 2^63 on nothing |
| HttpSessions.FeedingMore | yuan/http/http_parser.cc:158-163 | one execute call: what it does not take is in front of the next buffer, so the calls together take the peer's bytes in order |
| HttpSessions.RecvHeader | yuan/http/http_session.cc:20-45 | the parser is fed exactly the peer's bytes: each call sees what the one before left and new bytes; the header is done exactly if the parser says so with room in the buffer, and else a read got nothing, the parser failed or the buffer is full |
| HttpSessions.RecvBody | yuan/http/http_session.cc:48-64 | a body is returned exactly if what the buffer lacks, cast to an int, is positive and arrives; it starts with the bytes ahead and is zero behind them |
| HttpSessions.FilledIsAll | yuan/http/http_session.cc:57 | that is the whole body exactly when the part not in the buffer is below 2^31 bytes |
| HttpSessions.RecvExactBody | yuan/http/http_connection.cc:126-144 | if the missing part fits an int, exactly the next Content-Length bytes are returned, exactly if they arrive, however the reads are split |
| HttpSessions.MessageIsExact | yuan/http/http_connection.cc:126-144 | a body whose missing part fits an int is exactly the bytes behind the header, and the next message starts behind it if and only if the buffer held nothing more |
| HttpSessions.NextMessageIsLost | yuan/http/http_session.cc:48-64 | two messages in one read: the bytes of the second are gone |
| HttpSessions.MessageOfLength | yuan/http/http_session.cc:48-64 | stated on the announced length: the body is the next so many bytes if those not in the buffer fit an int, and nothing from 2^63 on; and what is left behind it |
| HttpSessions.LengthArrives | yuan/http/http_session.cc:48-64 | stated on the announced length: it is returned exactly if what the buffer lacks of it comes |
| HttpSessions.RecvRequest | yuan/http/http_session.cc:11-72 | header and body of the next message of the peer, whatever the splits, exactly if the header is completed and the body arrives; for a length of 1 to 2^31 - 1 the body is the next so many bytes behind the header, for 0 or from 2^63 on nothing |
| HttpSessions.LongBodyIsCut | yuan/http/http_connection.cc:137 | a Content-Length of 2^32 + 1 reads one byte |
| HttpPools.HttpConnectionPool.TakeIdle | yuan/http/http_connection.cc:291-306 | the first usable connection, with all before it unusable and dropped |
| HttpPools.HttpConnectionPool.TooOldIsAge | yuan/http/http_connection.cc:299 | a connection is too old exactly when its age has reached the limit, unless creation time and limit together leave 64 bits |
| HttpPools.HttpConnectionPool.GetConnection | yuan/http/http_connection.cc:285-334 | the first usable connection or a new one; the total stays idle plus lent, also when none can be made |
| HttpPools.HttpConnectionPool.Release | yuan/http/http_connection.cc:454-465 | kept exactly if connected, young and below its number of requests, which nothing exceeds; the total stays exact |
| Bits.ClearLowest | yuan/address.cc:23-32 | value & (value - 1) is smaller and has one bit less |
| Bits.CountBits | yuan/address.cc:23-32 | the loop terminates with the number of set bits, for every value |
| Bits.OrOnes | yuan/address.cc:346 | or-ing in a mask fills the low bits |
| Bits.AndNotOnes | yuan/address.cc:358 | masking out clears them |
| Bits.SwapOr | yuan/address.cc:346 | or and byte swap commute |
| Bits.SwapAndNot | yuan/address.cc:358 | masking and byte swap commute |
| Addresses.SwapIsNetworkOrder | yuan/endian.h:46-61 | what the swap makes of a word is the number its memory holds in network order, on hosts of either byte order |
| Addresses.V4Arithmetic | yuan/address.cc:340-361 | IPv4 network and broadcast are the first and last number of the address's block of 2^(32-p), on hosts of either byte order |
| Addresses.V4OnBytes | yuan/address.cc:340-361 | the same on the four bytes of the address, on hosts of either byte order |
| Addresses.V4MaskHasPrefix | yuan/address.cc:363-372 | CountBits of the IPv4 mask is the prefix length |
| Addresses.V4MaskValue | yuan/address.cc:363-372 | the IPv4 mask is all ones but for the 32 - p low bits, on hosts of either byte order |
| Addresses.V4Bounds | yuan/address.cc:340-361 | IPv4 network <= address <= broadcast, and a network address is its own network |
| Addresses.V4SameNetwork | yuan/address.cc:351-361 | two IPv4 addresses have the same network if and only if they share the first p bits |
| Addresses.V6Facts | yuan/address.cc:460-479 | the same for what the IPv6 loops compute: order, idempotence, and one network exactly for the same first p bits |
| Addresses.BigAndNot | yuan/address.cc:471-479 | masking byte by byte is masking the 128-bit number |
| Addresses.BigOr | yuan/address.cc:460-469 | or-ing byte by byte is or-ing the 128-bit number |
| Addresses.NetworkV6 | yuan/address.cc:471-479 | the loop computes a - a mod 2^(128-p) for every p below 128 |
| Addresses.BroadcastV6 | yuan/address.cc:460-469 | the loop computes that plus 2^(128-p) - 1 |
| Addresses.SubnetMaskV6 | yuan/address.cc:481-491 | the mask has p bits set, all on top |
| Addresses.PrefixLength | yuan/address.cc:169-172 | the enumeration loop sums the bits of the mask bytes |
| Ipv6Text.Print | yuan/address.cc:428-454 | the loop puts out the groups with the first run of zeros, whatever its length, as the only double colon, and the text expands to the groups |
| Ipv6Text.PrintAddress | yuan/address.cc:428-456 | expanding the text between the brackets gives the eight groups of the 16 bytes, on hosts of either byte order |
| Ipv6Text.HexIsText | yuan/address.cc:433 | a group is printed as its number in lower-case hexadecimal digits |
| Ipv6Text.HexIsShort | yuan/address.cc:433 | without leading zeros, in one to four digits |
| Ipv6Text.GroupIsTwoBytes | yuan/address.cc:433 | a group is the number of its two bytes in network order, on hosts of either byte order |
| Ipv6Text.AtMostOneDouble | yuan/address.cc:436-454 | the text has at most one double colon |
| Ipv6Text.PrintRoundTrip | yuan/address.cc:428-458 | expanding the text by section 2.2 of RFC 4291 gives back the groups |
| Ipv6Text.PrintIsInjective | yuan/address.cc:428-458 | no two lists of groups print alike |
| Ipv6Text.GroupsDetermine | yuan/address.cc:433 | the groups determine the bytes |

## Left out

- Node memory in `NodeList.Node` is a sequence held in a field, not a raw buffer: pointers into it from outside are not expressible.
- `getReadBuffers` and `getWriteBuffers`: their lengths are wrong beyond the first node, so they promise nothing to prove.
- `writeStringVint` and `readStringVint`: the writer's prefix is a varint and the reader's a 64-bit word, so there is no round trip.
- `writeFloat` and `writeDouble`: bit copies around the 32 and 64-bit words that are modelled.
- ByteArrays.ByteArray.ReadText: a 64-bit length no string can have is an exception of the string, not of the read; both come behind the prefix.
- ReactorRuns.ClashesExactly: what the code does behind such a switch is undefined, so no step follows it.
- Yielding to READY and finishing are one step with the worker's bookkeeping: by `ReactorRuns.ExactlyOneWakeSource` nothing else can get such a fiber in between.
- Schedulers.Scheduler.GiveBack: the states of the fiber around its slice are arguments; what a fiber does is the subject of `Reactor`.
- `writeToFile`, `readFromFile`, `toHexString`: file I/O and formatting.
- `Reactor` lets any thread cancel or deliver any event at any time and extracts timers in any order: a superset of what epoll, time and `do_io` allow.
- `Reactor` leaves out user code that schedules a suspended fiber by hand or yields without arranging to be woken, and exceptions out of callbacks (the handlers in `yuan/fiber.cc` are commented out).
- ReactorRuns.NothingLeftBehind: outside threads schedule nothing after stop().
- Progress.WaitersCanRunExactly: such a continuation is there; that a run takes it is up to user code, which has to return, and to a fair system.
- ReactorRuns.ShutdownSeesEvents: for events only; what stopping() can miss otherwise is stated separately.
- The tickle pipe and the idle thread count: they wake threads early and carry no work.
- `Fiber` as an object of its own: its states are steps of `Reactor`; the machine contexts and stacks are not modelled.
- Timers.NoLostWakeup: for threads in `getNextTimer` and behind it; a thread that is busy polls again before it sleeps.
- Timer addresses are distinct numbers given from outside, and are not reused.
- `addConditionTimer`: a weak pointer test around the callback; its effect on `do_io` is in `DoIo`.
- HttpConnections.RecvChunks: a second response line, which begins with an H, ends the model's run; that chunk extensions are also put among the headers is left out.
- HttpPools.HttpConnectionPool.GetConnection: one call is one step. The code lowers `m_total` behind the unlock, in `yuan/http/http_connection.cc:309-314`, so another thread can see it too high in between.
- HttpSessions.RecvHeader: the generated request and response machines are an arbitrary function that takes no more bytes than there are.
- Trailers and the two bytes behind a chunk: the source does not look at them, and neither does `ChunkCoding.Decode`.
- Ipv6Text.PrintAddress: the port behind the closing bracket is not part of the text.
- Addresses.V4Arithmetic: not for prefix 0, where the source shifts a 32-bit value by 32; Addresses.NetworkV6: not for prefixes from 128 on, where it indexes past the address.
- DNS lookup, interface enumeration beyond the mask sums, sockets, logging, configuration, servlets, threads and mutexes: library wrappers.
