# Verified model of the aero runtime cores

A Dafny model of the stateful cores of the aero runtime, with machine-checked proofs about whole runs of
them. `dafny verify dfyconfig.toml` checks everything. Each module follows one component:

| module | component |
|---|---|
| `LruCache` | the size-bounded LRU cache |
| `CpuWorker` | the CPU worker: run loop, message handler, fake CPU |
| `VmCoordinator` | the coordinator: calls, acknowledgement queues, watchdog, teardown |
| `VmSystem` | coordinator and worker joined by two FIFO channels |
| `VmOverlap` | control calls that overlap, and calls that outlive their worker |
| `VmSettings` | background flag and start mode, from the client to the worker |
| `Text` | one-line sanitising and UTF-8 truncation, fused and unfused |
| `WsFrames`, `WsSocket` | WebSocket frame codec, incremental decoder, close handshake |
| `WsBytes` | the same codec and socket against a decoder written in plain numbers |
| `HttpTokens` | HTTP tokens and the subprotocol lists |
| `EntityTags`, `EntityTagLimits` | the quote-aware If-None-Match scanner |
| `SendQueue` | the send queue with watermarks |
| `Framebuffer` | the double-buffered shared framebuffer |
| `ObjectSearch` | the visited-set search over an object graph |
| `BenchHistory` | merging benchmark results into one history entry |
| `Prelude` | options, bytes, 32-bit wrap-around, trimming |

Code that updates fields is a class whose methods are proved equal to a step function on a value (`Model()`);
the theorems are then about every run of that step function. Code that is an expression is a function.
Concurrency is a transition system over single atomic steps. The JavaScript run-to-completion rule is built
in: one step is one macrotask with the promise continuations it releases.

## What the proofs found

* **Left-over waiters.** `shutdown()` and exit code 0 leave calls waiting. Replies reach their own callers in
  every run in which each worker starts with no data call left over; if one is left over, the next worker's
  first data reply goes to it (`RepliesReachTheirCalls`, `DirtyStartMisroutes`).
* **Left-over starts.** A `start()` still waiting when its worker is shut down takes the 'ready' of the next worker, which
  is then started in the mode of the older call (`LeftOverStartDecides`); without one, modes reach their own worker
  (`ModeReachesWorker`).
* **Late timeouts.** A worker that is shut down or exits with code 0 is followed by an 'error' event and state
  'error' when a call left waiting times out, and if a new worker has been started by then it is taken down. Either
  can happen exactly when some call was waiting (`LateErrorExactly`, `LeftOverTimeoutExactly`).
* **Early start.** If `start()` is called before `shutdown()` has resolved, the state becomes 'stopped' while a worker
  exists, and in no other run (`ForgottenExactly`); `pause()`, `resume()`, `step()` and the watchdog then do nothing
  (`ForgottenIsOutOfReach`). It lasts until the worker goes exactly when no control call is waiting at that moment,
  as when the start has already completed; otherwise the pending acknowledgements set the state again
  (`ForgottenLastsExactly`, `ForgottenForGoodRun`).
* **Overlapping steps.** More steps are owed than the loop runs before it pauses exactly when some step or pause
  reaches the worker while an earlier step is still owed (`NoStepOverdueExactly`). Two overlapping `step()` calls can
  do this if the loop is between two slices (`OverlappingStepsStrand`); a parked loop runs the first before it takes
  the second (`ParkedStepRunsAtOnce`). The second call then waits for as long as the worker exists, until a further
  `resume()` runs the step, or a further `step()` takes its place (`StrandedUntilResumeOrStep`,
  `ResumeSettlesStranded`, `StepPassesItOn`).
* **Keys between two limits.** A key is held exactly when the bytes used since its last use fit the limit, so a larger
  cache contains a smaller one exactly when no key in the smaller one's reach is pushed out of the larger one's by
  keys that only it admits (`HeldExactly`, `InclusionExactly`). Two writes are enough to do that
  (`OversizeBreaksInclusion`).
* **Lone surrogates.** `formatOneLineUtf8` equals truncation after sanitising except when the text holds a lone
  surrogate and everything fits, because `truncateUtf8` then returns the text without encoding it
  (`FormatIsTruncatedSanitized`).
* **Byte order mark.** A text message that starts with U+FEFF arrives without it (`TextArrivesIntact`).
* **Frames after a failure.** Frames behind a protocol failure are read or not depending on how the stream was
  cut (`ChunkingMattersAfterFailure`).
* **Close codes.** `close()` with a code outside 0..65535 throws after marking the close as sent, so no Close
  frame is ever written (`FirstCloseDecides`).
* **Refused sends.** A send that fails before the queue is empty leaves frames with no flush scheduled
  (`StrandedExactly`).
* **Backslashes in entity tags.** The scanner treats a backslash as an escape, which entity tags do not have.
  It is right for every current tag exactly when no list element but the last ends in an odd run of
  backslashes (`RightForEveryTagExactly`).
* **Subprotocol lines.** Header lines behind the one that completes 32 tokens are not read. The answer is that
  for all lines exactly when the lines read are rejected anyway, or the others add no token and do not make the
  header too long (`IgnoredLinesMatterExactly`).
* **Frame numbers.** The reader compares an unsigned with a signed word. An undisturbed check passes exactly
  when the published frame number, modulo 2^32, is below 2^31 and the writer is not between its stores of
  ACTIVE_INDEX and FRAME_SEQ (`CheckPassesExactly`).

## Model

| member | source | states |
|---|---|---|
| `LruCache.SizedLruCache.constructor` | src/resourceLimits.js:4-9 | a new cache is empty and its byte count agrees with its entries |
| `LruCache.SizedLruCache.Get` | src/resourceLimits.js:15-21 | a hit returns the stored value and moves the entry to the newest end; a miss changes nothing; bytes are unchanged |
| `LruCache.SizedLruCache.Set` | src/resourceLimits.js:23-37 | refuses exactly the oversize entries, leaving the cache alone; otherwise the entry is newest, survives, and the total is within the limit |
| `LruCache.SizedLruCache.Clear` | src/resourceLimits.js:39-42 | empties the cache and its byte count |
| `LruCache.SizedLruCache.Evict` | src/resourceLimits.js:44-52 | drops oldest entries, and no more of them than needed, until the total fits |
| `LruCache.NewestSurvives` | src/resourceLimits.js:23-52 | evicting never removes an entry that itself fits, and ends within the limit |
| `LruCache.HoldsLatestSets` | src/resourceLimits.js:15-52 | in every run of gets and sets, with sizes that may change, each entry holds the value and size last set for its key, so a hit returns the value last set |
| `LruCache.NewestIsLongest` | src/resourceLimits.js:44-52 | the reference definition of the kept run is the longest suffix by last use that fits |
| `LruCache.NewestAbsorbsUse` | src/resourceLimits.js:15-37 | using a key on the kept run, then cutting, equals using it on the whole history, then cutting |
| `LruCache.HoldsNewestRun` | src/resourceLimits.js:15-52 | after every access trace, for all sizes and every limit, the cache holds, in order, exactly the longest run of most recently used keys that fits, among the keys it does not refuse |
| `LruCache.HeldExactly` | src/resourceLimits.js:15-52 | after every trace, for all sizes and every limit, a key is held if and only if it was used, is not refused, and the bytes used since its last use fit the limit |
| `LruCache.InclusionExactly` | src/resourceLimits.js:15-52 | after every trace the larger cache contains the smaller if and only if every key within the smaller limit's reuse distance is within the larger limit's |
| `LruCache.LargerContainsSmaller` | src/resourceLimits.js:15-52 | in particular after every trace with no key that only the larger limit admits, and then the smaller cache is the newest part of the larger one |
| `LruCache.HitsWhileIncluded` | src/resourceLimits.js:15-52 | a larger limit never has fewer hits on any trace along which inclusion holds |
| `LruCache.HitsMonotone` | src/resourceLimits.js:15-52 | in particular on every trace with no key between the limits |
| `LruCache.OversizeBreaksInclusion` | src/resourceLimits.js:23-52 | for all sizes: after writing a key that fits both limits and one that fits only the larger, inclusion holds if and only if the two fit the larger limit together |
| `CpuWorker.FakeCpu.ExecuteSlice` | src/cpuWorker.js:43-52 | runs the smaller of the instruction budget and what the deadline allows; counters advance by that much with 32-bit wrap-around |
| `Prelude.WrapsExactly` | src/cpuWorker.js:43-52 | the two 32-bit wrap-arounds, signed and unsigned, give the one number of their range that differs by a multiple of 2^32 |
| `CpuWorker.CpuThread.constructor` | src/cpuWorker.js:106-130 | posts 'ready', or 'fatal' and exits when the guest RAM exceeds its limit |
| `CpuWorker.CpuThread.LoopBody` | src/cpuWorker.js:147-195 | one turn of the run loop: parks, executes a slice and posts its replies, or exits; what it executes is pinned by `EveryTaskExecutesItsDue` |
| `CpuWorker.CpuThread.WakeLoop` | src/cpuWorker.js:132-145 | a parked loop resumes, any other is left alone |
| `CpuWorker.CpuThread.HandleMessage` | src/cpuWorker.js:197-332 | every message changes the worker and posts as the step function says, and keeps the worker invariant |
| `CpuWorker.CpuThread.StartRunning` | src/cpuWorker.js:204-232 | the three start modes: normal loop, a loop that never yields, and a crash |
| `CpuWorker.CpuThread.ResumeRunning` | src/cpuWorker.js:239-245 | unpauses, acknowledges and wakes the loop |
| `CpuWorker.CpuThread.StepOnce` | src/cpuWorker.js:246-253 | owes the loop one more step, unpauses, acknowledges and wakes it |
| `CpuWorker.CpuThread.StopRunning` | src/cpuWorker.js:262-267 | a shutdown unpauses and wakes the loop, which then exits |
| `CpuWorker.CpuThread.WriteCache` | src/cpuWorker.js:268-325 | the named cache takes the entry or the reply carries the refusal; unknown caches and bad sizes are refused |
| `CpuWorker.CpuThread.TimerFires` | src/cpuWorker.js:183-187 | the loop continues after its yield or throttle sleep |
| `CpuWorker.CacheWriteIsStored` | src/cpuWorker.js:268-325 | the reply carries the request id, says yes exactly for a known cache and a size from 0 to its limit, and reports the bytes both caches then hold; on yes the entry, under its key or the generated one if that is empty, is the newest of that cache, which fits its limit, and nothing else changes; otherwise nothing changes at all |
| `CpuWorker.HandledKeepsInv` | src/cpuWorker.js:197-332 | no message leaves the loop parked while unpaused or stopping, breaks a counter, or overfills a cache |
| `CpuWorker.LoopResumedKeepsInv` | src/cpuWorker.js:147-195 | nor does a turn of the loop |
| `CpuWorker.EveryWorkerRun` | src/cpuWorker.js:132-332 | over every sequence of messages and timers the invariant holds and the instruction total is the sum of the executed counts reported in heartbeats |
| `CpuWorker.EveryRunFromFresh` | src/cpuWorker.js:132-332 | from a new thread the total is exactly what the heartbeats posted so far add up to |
| `CpuWorker.EveryTaskExecutesItsDue` | src/cpuWorker.js:147-195 | at every point of every run, a message or timer that gives a running loop its turn executes one instruction if a step is owed and otherwise the configured slice, cut short only by the deadline, and reports it in exactly one heartbeat; any other executes and reports nothing |
| `CpuWorker.EveryReplyTruthful` | src/cpuWorker.js:147-332 | over every run, every total a heartbeat or snapshot reports is the true one at that point, every program counter is the total with 32-bit wrap-around, and every step acknowledgement repeats the count of the heartbeat before it |
| `CpuWorker.EveryExitIsAnnounced` | src/cpuWorker.js:151-232 | over every run the worker has exited with code 0 if and only if it has acknowledged a shutdown, and with code 1 if and only if it has reported a fatal error |
| `CpuWorker.FailingStartModes` | src/cpuWorker.js:204-232 | the mode that never yields posts only the acknowledgement, the crashing one that and a fatal error, and neither ever posts or does anything again |
| `CpuWorker.SleepsExactly` | src/cpuWorker.js:183-187 | the loop sleeps between slices if and only if it is in the background and a throttle is configured, and only the message for it changes that |
| `CpuWorker.TurnLeavesOwedExactly` | src/cpuWorker.js:151-181 | a turn of the loop ends paused with a step owed if and only if more steps were owed than the loop runs before it pauses: more than one, or more than none if it was paused |
| `CpuWorker.TaskMakesOverdueExactly` | src/cpuWorker.js:147-253 | one message or timer makes steps overdue in that sense, paused or not, if and only if it is a step or pause that finds a step owed |
| `CpuWorker.NoStepOverdueExactly` | src/cpuWorker.js:147-253 | over every run of messages and timers, no step is ever overdue if and only if every step and pause is taken with no step owed |
| `CpuWorker.ResumeHoldsExactly` | src/cpuWorker.js:239-245 | a resume is always acknowledged, and the loop stays unpaused after its next turn if and only if no step was owed |
| `CpuWorker.ResumeRunsOwedStep` | src/cpuWorker.js:239-245 | a resume has a parked loop run a step it owes and pause again |
| `CpuWorker.ParkedStepRunsAtOnce` | src/cpuWorker.js:246-253 | a parked loop runs a step before the next message is taken |
| `VmCoordinator.VmCoordinator.constructor` | src/vmCoordinator.js:28-42 | starts stopped, with no worker, no waiters and no timers |
| `VmCoordinator.VmCoordinator.StartVm` | src/vmCoordinator.js:44-75 | refused while a worker exists; otherwise a worker is created and the call waits for 'ready' |
| `VmCoordinator.VmCoordinator.PauseVm` | src/vmCoordinator.js:77-86 | sends and waits only when running |
| `VmCoordinator.VmCoordinator.ResumeVm` | src/vmCoordinator.js:88-98 | sends and waits only when paused |
| `VmCoordinator.VmCoordinator.StepVm` | src/vmCoordinator.js:100-113 | sends and waits only when paused, for two acknowledgements in turn |
| `VmCoordinator.VmCoordinator.RequestSnapshot` | src/vmCoordinator.js:120-128 | sends the reason and waits, or returns at once without a worker |
| `VmCoordinator.VmCoordinator.WriteCacheEntry` | src/vmCoordinator.js:130-142 | sends under a fresh request id and waits, or is refused without a worker |
| `VmCoordinator.VmCoordinator.ShutdownVm` | src/vmCoordinator.js:144-151 | the worker is gone at once while its waiters stay |
| `VmCoordinator.VmCoordinator.OnWorkerMessage` | src/vmCoordinator.js:168-224 | a heartbeat is recorded, a fatal error tears down, and an acknowledgement releases the oldest call awaiting its type |
| `VmCoordinator.VmCoordinator.Continue` | src/vmCoordinator.js:44-142 | what each suspended call does next: wait again, change the state, return, or report a mismatch |
| `VmCoordinator.VmCoordinator.OnWorkerExit` | src/vmCoordinator.js:235-249 | ignored after termination, stops on code 0, tears down on any other |
| `VmCoordinator.VmCoordinator.CheckWatchdog` | src/vmCoordinator.js:251-272 | fires exactly when running and more than the timeout since the last heartbeat |
| `VmCoordinator.VmCoordinator.WaitForAck` | src/vmCoordinator.js:284-319 | a new waiter queues behind the others of its type |
| `VmCoordinator.VmCoordinator.OnAckTimeout` | src/vmCoordinator.js:302-338 | the timer removes its own waiter, and the call reports the failure unless the state is already 'error' |
| `VmCoordinator.VmCoordinator.RejectAllAcks` | src/vmCoordinator.js:340-348 | every waiter is rejected once and no waiter is left |
| `VmCoordinator.VmCoordinator.EmitError` | src/vmCoordinator.js:350-391 | one event, all waiters rejected, no watchdog, no worker, state 'error' |
| `VmCoordinator.VmCoordinator.OnTerminated` | src/vmCoordinator.js:393-401 | idempotent: worker and watchdog go once |
| `VmCoordinator.EveryRun` | src/vmCoordinator.js:44-401 | in every run without shutdown or clean exit, each call made is waiting once or settled once, a worker gone has caused exactly one 'error' event, and without a worker nothing waits |
| `VmCoordinator.FailureTearsDown` | src/vmCoordinator.js:206-401 | from every such run, each failure path settles every pending call exactly once as rejected, dispatches one event and ends in 'error' with no worker, watchdog or waiter |
| `VmCoordinator.NoCallLostOrDoubled` | src/vmCoordinator.js:44-401 | in every run, with shutdowns and clean exits, each call ever made is in exactly one place: waiting, a shutdown under way, or settled once |
| `VmCoordinator.EveryRunIsTidy` | src/vmCoordinator.js:44-401 | in every run the watchdog runs only while a worker exists, the terminated flag is set exactly while the latest worker is gone, and state 'error' leaves no worker and no waiter |
| `VmCoordinator.EndsWithoutError` | src/vmCoordinator.js:144-249 | in every run a shutdown and exit code 0 take the worker and its watchdog away with no 'error' event and no call settled; the shutdown asks the worker to stop and leaves the state, the exit stops at once |
| `VmCoordinator.RequestIdsCount` | src/vmCoordinator.js:130-142 | in every run the n-th cache write sent carries request id n |
| `VmCoordinator.OtherCallsEndAtOnce` | src/vmCoordinator.js:44-151 | a call that does not engage the worker changes nothing, sends nothing and ends at once: a second start and a cache write without a worker are refused, any other returns |
| `VmCoordinator.LastBeatIsLatest` | src/vmCoordinator.js:73-98 | the recorded heartbeat time is that of the latest start, resume or heartbeat of the run |
| `VmCoordinator.TickFiresExactly` | src/vmCoordinator.js:251-272 | a tick tears down if and only if the VM runs and the latest beat is more than the timeout ago |
| `VmCoordinator.NeverFiresEarly` | src/vmCoordinator.js:251-272 | no tick of a run, wherever it falls, has any effect if while running each beat, pause or teardown comes at most the timeout after the latest beat, and the run ends within the timeout of the last one; paused time does not count |
| `VmCoordinator.FiresInTime` | src/vmCoordinator.js:251-272 | with punctual ticks the VM is never running later than the timeout plus one interval after the latest beat: 25 ms more than a timeout below 104 ms, and at most five quarters of any other |
| `VmCoordinator.IntervalIsQuarter` | src/vmCoordinator.js:251-258 | the interval is 25 ms for timeouts below 104 ms and the whole part of a quarter of any other |
| `VmSystem.RepliesReachTheirCalls` | src/vmCoordinator.js:120-224 | for every interleaving, overlap, failure, shutdown and restart in which workers start clean, each data reply settles the call that caused it: no mismatch throw, and every snapshot has the reason asked for |
| `VmSystem.StartsCleanWithoutShutdown` | src/vmCoordinator.js:340-391 | runs without shutdown and exit code 0 always start clean |
| `VmSystem.ShutdownLeavesWaiters` | src/vmCoordinator.js:144-151 | a shutdown drops the worker and keeps its waiters |
| `VmSystem.DirtyStartMisroutes` | src/vmCoordinator.js:144-224 | after any run that left a data call waiting, a further run gives that call another call's answer |
| `VmSystem.DataReplyFindsCaller` | src/vmCoordinator.js:206-224 | the head of the acknowledgement queue is the call whose request the worker answered |
| `VmSystem.ControlThroughout` | src/cpuWorker.js:132-267 | for a client that awaits each control call, the two sides and both channels are always in a matching phase of start, pause, resume or step |
| `VmSystem.PauseAndStepAgree` | src/vmCoordinator.js:77-113 | hence with no control call in flight both sides agree on paused and running, a paused VM has no heartbeat under way, a step executes at most one instruction, the acknowledgement a call awaits is under way or its own request or step is, and the loop is parked only while paused |
| `VmSettings.BackgroundReachesWorker` | src/vmCoordinator.js:115-118 | in every run, once it has taken what is under way to it, the worker is in the background if and only if that is what was last asked of it |
| `VmSettings.ModeReachesWorker` | src/vmCoordinator.js:44-75 | in every run in which no worker is started while an earlier start still waits for its own, each request to start carries the mode of the latest start |
| `VmSettings.LeftOverStartDecides` | src/vmCoordinator.js:44-75 | otherwise the next worker is asked to start in the mode of the oldest start that still waits, for every run |
| `VmOverlap.PausedRun` | src/vmCoordinator.js:44-86 | a run that starts a worker and pauses it before its loop parks |
| `VmOverlap.OverlappingStepsStrand` | src/vmCoordinator.js:100-113 | from every run that has paused the VM so, two overlapping steps can leave the second waiting, with nothing under way and its step owed by a parked worker |
| `VmOverlap.StrandedUntilResumeOrStep` | src/cpuWorker.js:132-145 | in every continuation without a resume, step or shutdown, for as long as the worker exists, such a call still waits |
| `VmOverlap.TimeoutEndsWorker` | src/vmCoordinator.js:302-338 | the timeout of any call takes the worker down |
| `VmOverlap.ResumeSettlesStranded` | src/cpuWorker.js:239-245 | a resume makes the worker run the step, and the call returns |
| `VmOverlap.StepPassesItOn` | src/cpuWorker.js:246-253 | a further step lets the call return and is left waiting in its place |
| `VmOverlap.LateErrorExactly` | src/vmCoordinator.js:302-338 | after every run, a shutdown or exit code 0 can be followed by an 'error' event and state 'error' from the timeout of a call if and only if some call was waiting |
| `VmOverlap.LeftOverTimeoutExactly` | src/vmCoordinator.js:144-151 | after every run, a shutdown or exit code 0 followed by a start exposes the new worker to the timeout of an older call if and only if some call was waiting |
| `VmOverlap.ForgottenIsOutOfReach` | src/vmCoordinator.js:77-113 | with a worker in state 'stopped', pause, resume and step return without sending and the watchdog never fires |
| `VmOverlap.ForgottenExactly` | src/vmCoordinator.js:144-151 | in every run a live worker is in state 'stopped' at some point if and only if a shutdown resolves after the next start was called |
| `VmOverlap.ForgottenLastsExactly` | src/vmCoordinator.js:44-151 | it stays so in every continuation that keeps the worker if and only if no control call is waiting |
| `VmOverlap.ForgottenForGoodRun` | src/vmCoordinator.js:44-151 | a run in which the start completes before the shutdown ahead of it resolves, which leaves it so for good |
| `Text.DecodeEncode` | src/text.js:34-42 | decoding an encoded string gives it back with lone surrogates replaced, for every string |
| `Text.EncodeDecode` | src/text.js:34-42 | whatever decodes is re-encoded to the same bytes and is well-formed |
| `Text.SanitizeOneLine` | src/text.js:13-32 | the loop equals the function that `SanitizedIsOneLine` and `SanitizedIsJoinedWords` pin down |
| `Text.SanitizedIsJoinedWords` | src/text.js:13-32 | which is: split into maximal visible runs, join with single spaces |
| `Text.SanitizedIsOneLine` | src/text.js:13-32 | for every text the result has exactly the characters of the text other than white space and controls, listed by number, in order, and besides them only single spaces between them, none at either end |
| `Text.SanitizedTwice` | src/text.js:13-32 | sanitising twice is sanitising once |
| `Text.EncodeInto` | src/text.js:34-42 | writes the longest prefix of whole characters that fits and reports its length in characters and bytes |
| `Text.FittingIsLongest` | src/text.js:34-42 | one more character than that prefix would not fit |
| `Text.TruncateUtf8` | src/text.js:34-42 | the text itself when it fits, otherwise the decoded longest prefix; empty for a budget of zero or less |
| `Text.TruncatedExactly` | src/text.js:34-42 | for every text and budget: the text itself if its encoding fits, else the longest part that does, lone surrogates replaced and a leading byte order mark dropped; nothing for a budget of zero or less |
| `Text.SurrogateBytes` | src/text.js:34-42 | a lone surrogate is written as EF BF BD |
| `Text.FillOneLine` | src/text.js:44-73 | the buffer holds the encoding of what the one-pass loop emits |
| `Text.FormatOneLineUtf8` | src/text.js:44-73 | the method equals the function that `FormattedIsOneLine` and `FusedIsFittingSanitized` pin down |
| `Text.FusedIsFittingSanitized` | src/text.js:44-73 | the one-pass loop emits exactly the longest fitting prefix of the sanitised text |
| `Text.FormattedIsOneLine` | src/text.js:44-73 | for every text and budget the result is a beginning of the sanitised text with lone surrogates replaced, and one line in that sense: no white space or control but single spaces, and none in front |
| `Text.FormatIsTruncatedSanitized` | src/text.js:13-73 | one pass equals truncate-after-sanitise if and only if the text is well-formed, the budget is not positive, or the sanitised text does not fit |
| `Text.FormatFitsAndGrows` | src/text.js:44-73 | results fit the budget, are valid UTF-8 per section 3 of RFC 3629, are prefixes of results for larger budgets, and are maximal |
| `WsFrames.MaskPayload` | tools/minimal_ws.js:118-121 | the masking loop XORs each byte with its key byte |
| `WsFrames.UnmaskMasked` | tools/minimal_ws.js:118-121 | masking twice with one key restores the payload, per section 5.3 of RFC 6455 |
| `WsFrames.ParseEncoded` | tools/minimal_ws.js:88-122 | an encoded frame parses to its opcode and payload and exactly its own length, whatever follows, in all three length forms of section 5.2 of RFC 6455 |
| `WsFrames.ParseAppend` | tools/minimal_ws.js:355-421 | a decision to accept or fail is not changed by later bytes |
| `WsFrames.DrainAppend` | tools/minimal_ws.js:355-468 | draining a longer buffer equals draining its head and then the left-over plus the rest |
| `WsFrames.ChunkInvariance` | tools/minimal_ws.js:341-468 | for every stream and every split, events up to and including the first failure equal those of decoding it whole, and without a failure so does the left-over |
| `WsFrames.BufferBounded` | tools/minimal_ws.js:355-420 | before a failure a drain leaves at most 13 + maxPayload bytes |
| `WsFrames.FramesRoundTrip` | tools/minimal_ws.js:88-421 | any list of admitted frames, masked or not and whatever their opcodes, parses at the other peer to the same opcodes and payloads with no byte left over |
| `WsFrames.RoundTrip` | tools/minimal_ws.js:88-468 | any list of acceptable frames has at the other peer the effects of those frames, in order, with no byte left over; `WsBytes.MessagesArrive` says which effects |
| `WsFrames.RoundTripInChunks` | tools/minimal_ws.js:88-468 | and does so however the bytes are cut; `WsBytes.DecodesAsExpectedInChunks` covers every other stream |
| `WsFrames.TextArrivesIntact` | tools/minimal_ws.js:165-177 | a text message arrives as sent if and only if it has no lone surrogate and does not begin with a byte order mark |
| `WsFrames.ChunkingMattersAfterFailure` | tools/minimal_ws.js:421-467 | for every limit: behind a frame that fails after being consumed, the next frame is read or not depending on the cut, and the event logs differ exactly when that frame is not a Pong |
| `WsSocket.CloseRoundTrip` | tools/minimal_ws.js:502-516 | a close payload decodes to its code and truncated reason and is at most 125 bytes |
| `WsSocket.WebSocket.constructor` | tools/minimal_ws.js:125-163 | a new socket has received and written nothing |
| `WsSocket.WebSocket.Close` | tools/minimal_ws.js:179-187 | at most the first call writes a Close frame; a code out of range throws with the close marked as sent |
| `WsSocket.WebSocket.ReactTo` | tools/minimal_ws.js:347-467 | pong, message, binary message, peer close and failure each do what their branch does; `WsBytes.DecodesAsExpected` and `WsBytes.FailureClosesWithItsCode` say which bytes lead to which |
| `WsSocket.WebSocket.DrainFrames` | tools/minimal_ws.js:355-468 | the in-place loop equals the reference drain and terminates |
| `WsSocket.WebSocket.OnData` | tools/minimal_ws.js:341-345 | a chunk is appended and the buffer drained |
| `WsSocket.WebSocket.OnSocketClose` | tools/minimal_ws.js:470-476 | the close is reported once, with its code and reason |
| `WsSocket.ConnFollowsDecoder` | tools/minimal_ws.js:341-468 | the socket's event log and buffer follow the pure decoder on every chunk |
| `WsSocket.CloseHandshake` | tools/minimal_ws.js:179-187 | over every interleaving of chunks, close calls, failures and socket close: at most one Close frame, at most 125 bytes of payload per section 5.5 of RFC 6455, at most one 'close' event |
| `WsSocket.CloseReport` | tools/minimal_ws.js:470-476 | the reported code is the last peer code, else 1000 if a close was begun, else 1006 |
| `WsSocket.FirstCloseDecides` | tools/minimal_ws.js:179-187 | a run that begins its closing with `close` writes one Close frame if the socket is connected and the code is in range, and otherwise none ever |
| `WsSocket.PingIsEchoed` | tools/minimal_ws.js:438-445 | a Ping is answered by one Pong with the same payload, per section 5.5.3 of RFC 6455 |
| `WsSocket.PeersAgreeOnClose` | tools/minimal_ws.js:450-516 | when one peer closes, the other echoes the same frame, the closer writes no second one, and both report the closer's code and reason |
| `WsBytes.XorIsBitwise` | tools/minimal_ws.js:118-121 | the byte operation of the mask is exclusive or, bit by bit |
| `WsBytes.EncodedSize` | tools/minimal_ws.js:88-122 | the first two bytes and the exact length of an encoded frame for every payload length, masked or not: the shortest length form is used |
| `WsBytes.DecodesAsExpected` | tools/minimal_ws.js:355-468 | for every byte stream the events and left-over are those of a decoder written from the bit layout of section 5.2 of RFC 6455 in plain numbers, with the checks, close codes and reasons of each failure |
| `WsBytes.DecodesAsExpectedInChunks` | tools/minimal_ws.js:341-468 | and however it is cut, up to the first failure |
| `WsBytes.FrameFailsExactly` | tools/minimal_ws.js:421-467 | a complete frame fails if and only if it is text that is not UTF-8, with code 1007, or its opcode is not 1, 2, 8, 9 or 10, with code 1002 |
| `WsBytes.MessagesArrive` | tools/minimal_ws.js:88-468 | any list of texts, bytes, Pings, Pongs and Closes, masked or not and however cut, arrives: text as text, bytes as the same bytes, a Ping as a request for the same Pong, a Close with its code and reason |
| `WsBytes.SocketsTalk` | tools/minimal_ws.js:88-468 | what one socket sends the other reports, whatever part of it comes with the handshake |
| `WsBytes.NothingBeforeOpen` | tools/minimal_ws.js:125-187 | a connection without its socket reads, writes and reports nothing, whatever is asked of it |
| `WsBytes.FailureClosesWithItsCode` | tools/minimal_ws.js:347-468 | in every run in which nothing has closed the connection yet, bytes that fail make the socket answer the Pings before the failure and write one Close frame, the only one of the whole run, with the code of that failure and its reason in at most 123 bytes |
| `HttpTokens.IsValidHttpTokenPart` | src/httpTokens.js:27-34 | true exactly for a non-empty range within the text that holds token characters only |
| `HttpTokens.IsValidHttpToken` | src/httpTokens.js:36-39 | true exactly for tokens |
| `HttpTokens.TokenCharacters` | src/httpTokens.js:1-25 | the token characters by number, per section 5.6.2 of RFC 9110 |
| `HttpTokens.CommaSeparatedTokens` | tools/minimal_ws.js:35-61 | the index scan equals split on commas, trim, drop empties; null exactly when too long, too many or one invalid |
| `HttpTokens.WrittenTokens` | tools/minimal_ws.js:35-61 | every list of tokens with any blanks around them and any empty elements parses to its tokens |
| `HttpTokens.ScanTurn` | tools/minimal_ws.js:42-58 | resuming from the trimmed end of an item skips no token and repeats none |
| `HttpTokens.ProtocolHeader` | tools/minimal_ws.js:224-247 | the header is the joined list; otherwise the error is that of the first check to fail: too many names, an invalid name before the names are too long, or too long |
| `HttpTokens.OfferRoundTrip` | tools/minimal_ws.js:35-61 | parsing the client's joined header gives back the original list |
| `HttpTokens.JoinedByCommaSpace` | tools/minimal_ws.js:224-247 | the names are joined by a comma and a space |
| `HttpTokens.ParseProtocolsHeader` | tools/minimal_ws.js:63-86 | the loop over header lines equals its reference function |
| `HttpTokens.PartsParsed` | tools/minimal_ws.js:63-86 | for every list of lines: those up to the one that reaches 32 tokens parse to their tokens in order, and to null exactly when too long in all, when that line passes 32 instead of meeting it, or when a token is invalid |
| `HttpTokens.IgnoredLinesMatterExactly` | tools/minimal_ws.js:63-86 | the answer equals that for all lines if and only if the lines read are rejected, or the others add no token and leave the total within the limit |
| `EntityTags.IfNoneMatchMatches` | server/range_server.js:120-155 | the scan with its two flags equals cutting at commas outside quotes and comparing each piece; `WrittenListsMatchExactly` says what that means for the characters |
| `EntityTags.ScanCountsBackslashes` | server/range_server.js:128-149 | the scanner takes the quote behind a text as its closing quote if and only if the text ends in an even number of backslashes |
| `EntityTags.CutsExactly` | server/range_server.js:128-149 | a rendered list is cut exactly at its separators if and only if no element but the last ends in an odd run of backslashes |
| `EntityTags.TrimIgnored` | server/range_server.js:122 | trimming the header first does not change the answer |
| `EntityTags.MatchesExactly` | server/range_server.js:116-155 | on such lists the answer is whether some element weakly equals the current tag, per section 8.8.3.2 of RFC 9110 |
| `EntityTags.PlainListsMatchExactly` | server/range_server.js:116-155 | in particular for every rendered list of strong or weak tags without backslashes, with any commas and spaces in the quotes, per section 13.1.2 of RFC 9110 |
| `EntityTags.WrittenListsMatchExactly` | server/range_server.js:116-155 | for every list of tags written out in character numbers, with any spaces and tabs around them and any empty elements, the answer is whether some tag weakly equals the current one |
| `EntityTags.StarAndBlank` | server/range_server.js:120-127 | a star with blanks around it matches every tag, and a blank header none |
| `EntityTags.TrimRemovesExactly` | server/range_server.js:122 | the characters trimmed are those ECMAScript calls white space or line terminators, by number |
| `EntityTags.WeakPrefixIgnored` | server/range_server.js:116-118 | a weak prefix in either case is ignored |
| `EntityTags.EscapedQuoteHidesNext` | server/range_server.js:131-138 | a tag ending in an odd run of backslashes hides the next one |
| `EntityTagLimits.UnbalancedNeverFound` | server/range_server.js:128-155 | in a list that is not cut exactly, no piece at all equals a tag that ends in an odd run of backslashes |
| `EntityTagLimits.RightForEveryTagExactly` | server/range_server.js:116-155 | the scanner agrees with weak comparison for every current tag if and only if no element but the last ends in an odd run of backslashes |
| `SendQueue.WsSendQueue.constructor` | src/ws_backpressure.js:24-40 | a new queue is empty, unpaused and has nothing scheduled |
| `SendQueue.WsSendQueue.Pause` | src/ws_backpressure.js:88-99 | pauses the sources once, above the high watermark, and starts the poll |
| `SendQueue.WsSendQueue.Resume` | src/ws_backpressure.js:101-111 | resumes them once, at or below the low watermark; `WatermarksRespected` says so of every run |
| `SendQueue.WsSendQueue.Schedule` | src/ws_backpressure.js:145-154 | at most one flush is pending |
| `SendQueue.WsSendQueue.Enqueue` | src/ws_backpressure.js:156-163 | the frame joins the queue and its bytes the count, then pause and schedule |
| `SendQueue.WsSendQueue.Flush` | src/ws_backpressure.js:113-143 | sends from the front until empty, refused or above the high watermark, then resumes or reschedules |
| `SendQueue.WsSendQueue.Poll` | src/ws_backpressure.js:77-86 | resumes if it can and polls again while paused |
| `SendQueue.WsSendQueue.Close` | src/ws_backpressure.js:171-177 | drops the queue and every pending flag |
| `SendQueue.EveryRun` | src/ws_backpressure.js:77-163 | in every run on an open socket: sent then queued frames are the enqueued ones in order, the byte count is exact, a non-empty queue has a flush pending, a pause has a poll pending, pause and resume alternate, and more than high - low bytes drain between a pause and its resume |
| `SendQueue.WatermarksRespected` | src/ws_backpressure.js:77-143 | in every run, after each poll and flush the sources stay paused only above the low watermark, a flush leaves frames behind only if the socket buffers more than the high watermark, an enqueue pauses exactly above the high watermark, and the poll timer is started by a pause and set again by a poll that leaves the sources paused, and only then |
| `SendQueue.ClosedSocketIsInert` | src/ws_backpressure.js:77-143 | a socket that is not open is sent nothing and the sources hear nothing |
| `SendQueue.CloseDropsQueue` | src/ws_backpressure.js:171-177 | after a close a flush that was already deferred sends nothing and tells the sources nothing |
| `SendQueue.BacklogBounded` | src/ws_backpressure.js:62-111 | with sources that stop when paused and frames of at most F bytes, queue plus socket never exceed high + F |
| `SendQueue.DrainsCompletely` | src/ws_backpressure.js:113-143 | from every reachable state, as many rounds of flush, drain and poll as there are queued frames send everything and end the pause |
| `SendQueue.StrandedExactly` | src/ws_backpressure.js:113-143 | a flush leaves a non-empty queue with no flush pending if and only if a send is refused before the last frame and before the high watermark stops the loop |
| `Framebuffer.SharedFramebuffer.constructor` | web/shared-framebuffer-cursor-overlay.ts:80-103 | slot 0 is active and all numbers are zero |
| `Framebuffer.SharedFramebuffer.PublishFrame` | web/shared-framebuffer-cursor-overlay.ts:105-125 | the other slot gets the frame, its number is the next one, and it becomes active; the old active slot is untouched |
| `Framebuffer.SharedFramebuffer.Capture` | web/cpu-worker-wasm-framebuffer-smoke.ts:140-166 | an attempt without interference returns the active slot exactly when its number equals the frame number read unsigned |
| `Framebuffer.WriterThroughout` | web/shared-framebuffer-cursor-overlay.ts:105-125 | what the header and both slots hold at each point of a publish, over every interleaving |
| `Framebuffer.ActiveSlotIsWhole` | web/shared-framebuffer-cursor-overlay.ts:105-125 | the active slot is never being filled, holds one whole published frame, and is numbered FRAME_SEQ or FRAME_SEQ + 1 |
| `Framebuffer.BegunCounts` | web/shared-framebuffer-cursor-overlay.ts:105-125 | the frame number the bounds below speak of is the number of fillings the writer has begun |
| `Framebuffer.NeitherIsStuck` | web/shared-framebuffer-cursor-overlay.ts:105-125 | neither side ever waits for the other |
| `Framebuffer.GivesUpAfterTen` | web/cpu-worker-wasm-framebuffer-smoke.ts:140-166 | in every run a capture gives up if and only if it has failed ten checks |
| `Framebuffer.CaptureSeesOneFrame` | web/cpu-worker-wasm-framebuffer-smoke.ts:140-166 | a capture that passes its check reads exactly frame `seq` unless the writer has begun filling frame `seq` + 2 before the read ends |
| `Framebuffer.TornBeyondBound` | web/cpu-worker-wasm-framebuffer-smoke.ts:140-166 | from every run below 2^31 frames with the writer idle and a capture about to start, a further run has the capture accepted and reading any value at all instead of its frame, with frame `seq` + 2 just begun |
| `Framebuffer.CheckPassesExactly` | web/cpu-worker-wasm-framebuffer-smoke.ts:140-166 | after every run, an undisturbed check passes if and only if the published frame number modulo 2^32 is below 2^31 and the writer is not between storing ACTIVE_INDEX and FRAME_SEQ |
| `Framebuffer.SignedNumbersNeverMatch` | web/cpu-worker-wasm-framebuffer-smoke.ts:140-166 | in every run a capture that has read a FRAME_SEQ word of 2^31 or more fails its check, however the writer interleaves |
| `ObjectSearch.Walker.Visit` | web/gpu-worker-d3d9-shader-cache.ts:137-158 | the recursive walk over a growing visited set equals its reference function and terminates on cyclic graphs |
| `ObjectSearch.Find` | web/gpu-worker-d3d9-shader-cache.ts:134-161 | the search is that walk from an empty visited set |
| `ObjectSearch.FindIsComplete` | web/gpu-worker-d3d9-shader-cache.ts:134-190 | null if and only if no reachable object parses; otherwise the result is a reachable object's |
| `ObjectSearch.WalkIsPruned` | web/gpu-worker-d3d9-shader-cache.ts:134-190 | skipping everything visited gives the same answer as skipping only the current path |
| `ObjectSearch.VisitedSetIsHarmless` | web/gpu-worker-d3d9-shader-cache.ts:134-190 | so on acyclic graphs the answer is that of the plain walk |
| `BenchHistory.MergeEnvironment` | bench/history.js:680-694 | the key-by-key loop succeeds exactly when shared keys agree, and gives the union |
| `BenchHistory.MergeMetrics` | bench/history.js:710-717 | succeeds exactly when no metric name is shared, and gives the union |
| `BenchHistory.MergeScenarios` | bench/history.js:696-722 | succeeds exactly when no scenario shares a metric name, and gives the union scenario by scenario |
| `BenchHistory.History.AppendHistoryEntry` | bench/history.js:724-757 | creates or merges the entry; a conflict leaves the history as it was |
| `BenchHistory.AppendsExactly` | bench/history.js:680-757 | a list of results can be appended in turn if and only if they are pairwise compatible, and then the entry holds every variable and metric of every input and nothing else |
| `BenchHistory.OrderDoesNotMatter` | bench/history.js:680-757 | every order of the same results gives the same entry or fails |

## Left out

- VmCoordinator: the acknowledgement queues are one list in order of arrival, the queue of a type being its sublist; the order in which a teardown rejects different types is not modelled.
- VmCoordinator: `reset()`, `lastSnapshot`, the 'statechange' and 'heartbeat' events and the wording of errors are not modelled.
- VmSystem.PauseAndStepAgree: is about clients that await each control call and do not shut down; `NoStepOverdueExactly` and the lemmas of `VmOverlap` say what happens otherwise.
- CpuWorker: the key generated for an empty cache key, from the time and a random number, is an input of the request.
- VmSystem: after 'fatal' the worker takes no further step, and a shutdown's two halves are two events with anything in between.
- WsSocket: failed socket writes, `terminate()` and the destroy after a close are not modelled; writing to a connected socket succeeds.
- WsFrames.EncodeFrame: the mask key is an arbitrary four-byte input, and payloads of 2^32 bytes or more are outside the round trips.
- SendQueue.EveryRun: covers open sockets with accepted sends and no `close()`; each accepted frame adds at most its own length to the socket's buffered amount, so framing overhead is not counted.
- Framebuffer.SharedFramebuffer.Capture: runs on a quiet framebuffer; interference between its loads is in the transition system.
- Framebuffer: the frame-state words and the wake-up notification are not modelled.
- ObjectSearch: the two parsers are an arbitrary result attached to each object, and `subtractCounters` is not modelled.
- EntityTags: Range headers, If-Modified-Since and dates are not modelled.
- BenchHistory: file access, normalising of inputs and the sorting of entries by time are not modelled; commit URLs are non-empty, as the repository's own URL always is.
- LruCache: sizes are integers; the traces of the run theorems use one fixed non-negative size per key.
- Framebuffer.CaptureSeesOneFrame: and `TornBeyondBound` are about runs below 2^31 frames, where frame numbers are the header words.
- Real time, timers and Node streams are scheduled steps; listeners and callbacks do not re-enter the object that calls them.
- HTTP connection setup, the SHA-1 accept key and random keys are not modelled.
- tools/rust_l2_proxy.js, server/chunk_server.js, src/main.ts, the web pages, the benchmark compare scripts and the Rust crates are not modelled: they are input and output around these cores, or need code outside these files.
