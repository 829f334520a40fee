/** The VM coordinator of src/vmCoordinator.js: calls that wait for acknowledgements in
    per-type FIFO queues, a heartbeat watchdog, and one teardown path for every failure.

    One event is one macrotask together with the promise continuations it releases, so the
    continuation of an awaited acknowledgement runs before the next message or timer. */
module VmCoordinator {
  import opened Prelude
  import opened CpuWorker

  datatype VmState = VmStopped | VmStarting | VmRunning | VmPaused | VmError

  datatype AckType = AckReady | AckStarted | AckPaused | AckResumed | AckStepped | AckSnapshot | AckCacheWrite

  /** What a suspended call is waiting for, and what it does next. */
  datatype Purpose =
    | ForReady(mode: Mode)
    | ForStarted
    | ForPause
    | ForResume
    | ForStepped
    | ForStepPaused
    | ForSnapshot(reason: string)
    | ForCacheWrite(requestId: nat)

  datatype Waiter = Waiter(call: nat, purpose: Purpose)

  /** `Mismatched` is the throw after a cache reply with another request's id. */
  datatype Outcome =
    | Returned
    | GotSnapshot(reason: string, from: nat)
    | GotCacheResult(requestId: nat, from: nat)
    | Mismatched
    | Rejected
    | Refused

  datatype Settlement = Settlement(call: nat, purpose: Option<Purpose>, outcome: Outcome)

  function Awaits(p: Purpose): AckType {
    match p
    case ForReady(_) => AckReady
    case ForStarted => AckStarted
    case ForPause => AckPaused
    case ForResume => AckResumed
    case ForStepped => AckStepped
    case ForStepPaused => AckPaused
    case ForSnapshot(_) => AckSnapshot
    case ForCacheWrite(_) => AckCacheWrite
  }

  function AckOf(r: Reply): Option<AckType> {
    match r
    case Ready => Some(AckReady)
    case Started => Some(AckStarted)
    case Paused => Some(AckPaused)
    case Resumed => Some(AckResumed)
    case Stepped(_) => Some(AckStepped)
    case SnapshotTaken(_, _, _) => Some(AckSnapshot)
    case CacheWriteResult(_, _, _, _, _) => Some(AckCacheWrite)
    case Stepping => None
    case Heartbeat(_, _, _) => None
    case ShutdownAck => None
    case Fatal => None
  }

  /** Index of the waiter at the head of the queue for `t`, or |ws| when that queue is empty. */
  function FirstFor(ws: seq<Waiter>, t: AckType): (i: nat)
    ensures i <= |ws|
    ensures i < |ws| ==> Awaits(ws[i].purpose) == t
    ensures forall j :: 0 <= j < i ==> Awaits(ws[j].purpose) != t
  {
    if ws == [] || Awaits(ws[0].purpose) == t then 0 else 1 + FirstFor(ws[1..], t)
  }

  predicate Waits(ws: seq<Waiter>, t: AckType) {
    exists i :: 0 <= i < |ws| && Awaits(ws[i].purpose) == t
  }

  function RemoveAt(ws: seq<Waiter>, i: nat): seq<Waiter>
    requires i < |ws|
  {
    ws[..i] + ws[i + 1..]
  }

  function Rejections(ws: seq<Waiter>): (r: seq<Settlement>)
    ensures |r| == |ws|
    ensures forall i :: 0 <= i < |ws| ==> r[i] == Settlement(ws[i].call, Some(ws[i].purpose), Rejected)
  {
    seq(|ws|, i requires 0 <= i < |ws| => Settlement(ws[i].call, Some(ws[i].purpose), Rejected))
  }

  /** `waiters` holds the waiters of all acknowledgement queues in order of arrival, so the queue
      for one type is the sublist awaiting it. `errors` counts dispatched 'error' events and
      `starts` counts workers created. */
  datatype Coord = Coord(
    timeoutMs: nat,
    state: VmState,
    hasWorker: bool,
    terminated: bool,
    watchdog: bool,
    lastBeat: int,
    waiters: seq<Waiter>,
    nextRequestId: nat,
    nextCall: nat,
    terminating: seq<nat>,
    settled: seq<Settlement>,
    errors: nat,
    starts: nat)

  function Created(timeoutMs: nat): Coord {
    Coord(timeoutMs, VmStopped, false, false, false, 0, [], 1, 0, [], [], 0, 0)
  }

  function IntervalMs(timeoutMs: nat): nat {
    if timeoutMs / 4 > 25 then timeoutMs / 4 else 25
  }

  // ---- Effects ----------------------------------------------------------------------------

  function Waiting(c: Coord, w: Waiter): Coord {
    c.(waiters := c.waiters + [w])
  }

  function Settled(c: Coord, call: nat, p: Option<Purpose>, o: Outcome): Coord {
    c.(settled := c.settled + [Settlement(call, p, o)])
  }

  /** A call that finishes without suspending. */
  function Immediate(c: Coord, o: Outcome): Coord {
    Settled(c, c.nextCall, None, o).(nextCall := c.nextCall + 1)
  }

  function Suspended(c: Coord, p: Purpose): Coord {
    Waiting(c, Waiter(c.nextCall, p)).(nextCall := c.nextCall + 1)
  }

  function Terminated(c: Coord): Coord {
    if c.terminated then c else c.(terminated := true, watchdog := false, hasWorker := false)
  }

  function Launched(c: Coord, now: int): Coord {
    c.(state := VmStarting, terminated := false, lastBeat := now, hasWorker := true, starts := c.starts + 1)
  }

  /** `_emitError`: one event, every waiter rejected, worker and watchdog gone. */
  function Torn(c: Coord): Coord {
    Terminated(c.(errors := c.errors + 1,
                  settled := c.settled + Rejections(c.waiters),
                  waiters := [],
                  watchdog := false)).(state := VmError)
  }

  function OutcomeOf(p: Purpose, r: Reply): Outcome {
    if p.ForSnapshot? then (if r.SnapshotTaken? then GotSnapshot(r.reason, r.call) else Mismatched)
    else if p.ForCacheWrite? then
      if r.CacheWriteResult? && r.requestId == p.requestId then GotCacheResult(r.requestId, r.call) else Mismatched
    else Returned
  }

  /** The state in which a finished control call leaves the VM. */
  function Acknowledged(c: Coord, p: Purpose, now: int): Coord {
    if p.ForStarted? || p.ForResume? then c.(lastBeat := now, state := VmRunning)
    else if p.ForPause? || p.ForStepPaused? then c.(state := VmPaused)
    else c
  }

  /** What the call behind `w` does once its acknowledgement `r` has arrived. */
  function Continued(c: Coord, w: Waiter, r: Reply, now: int): (Coord, seq<Command>) {
    match w.purpose
    case ForReady(mode) => (Waiting(c.(watchdog := true), Waiter(w.call, ForStarted)), [Start(mode)])
    case ForStepped => (Waiting(c, Waiter(w.call, ForStepPaused)), [])
    case _ => (Settled(Acknowledged(c, w.purpose, now), w.call, Some(w.purpose), OutcomeOf(w.purpose, r)), [])
  }

  // ---- Events -----------------------------------------------------------------------------

  datatype Event =
    | CallStart(mode: Mode)
    | CallPause
    | CallResume
    | CallStep
    | CallSetBackgrounded(on: bool)
    | CallSnapshot(reason: string)
    | CallCacheWrite(cache: CacheName, size: Option<int>, key: string, spare: string)
    | CallShutdown
    | TerminateDone
    | Receive(r: Reply)
    | WorkerErrored
    | WorkerExited(code: int)
    | WatchdogTick
    | AckTimeout(i: nat)

  /** Worker listeners are removed with the worker, and timers with what they watch. */
  predicate Enabled(c: Coord, e: Event) {
    match e
    case Receive(_) => c.hasWorker
    case WorkerErrored => c.hasWorker
    case WorkerExited(_) => c.hasWorker
    case WatchdogTick => c.watchdog
    case AckTimeout(i) => i < |c.waiters|
    case TerminateDone => c.terminating != []
    case _ => true
  }

  function Received(c: Coord, r: Reply, now: int): (Coord, seq<Command>) {
    if r.Heartbeat? then (c.(lastBeat := now), [])
    else if r.Fatal? then (Torn(c), [])
    else
      var t := AckOf(r);
      if t.None? then (c, []) else
        var i := FirstFor(c.waiters, t.value);
        if i == |c.waiters| then (c, [])
        else Continued(c.(waiters := RemoveAt(c.waiters, i)), c.waiters[i], r, now)
  }

  /** The timer removes its own entry, and the awaiting call then reports the failure. */
  function TimedOut(c: Coord, i: nat): Coord
    requires i < |c.waiters|
  {
    var w := c.waiters[i];
    var c' := Settled(c.(waiters := RemoveAt(c.waiters, i)), w.call, Some(w.purpose), Rejected);
    if c.state.VmError? then c' else Torn(c')
  }

  function Ticked(c: Coord, now: int): Coord {
    if !c.state.VmRunning? || now - c.lastBeat <= c.timeoutMs then c else Torn(c)
  }

  function Next(c: Coord, e: Event, now: int): (Coord, seq<Command>)
    requires Enabled(c, e)
  {
    match e
    case CallStart(mode) =>
      if c.hasWorker then (Immediate(c, Refused), [])
      else (Suspended(Launched(c, now), ForReady(mode)), [])
    case CallPause =>
      if !c.hasWorker || !c.state.VmRunning? then (Immediate(c, Returned), [])
      else (Suspended(c, ForPause), [Pause])
    case CallResume =>
      if !c.hasWorker || !c.state.VmPaused? then (Immediate(c, Returned), [])
      else (Suspended(c, ForResume), [Resume])
    case CallStep =>
      if !c.hasWorker || !c.state.VmPaused? then (Immediate(c, Returned), [])
      else (Suspended(c, ForStepped), [Step])
    case CallSetBackgrounded(on) => (c, if c.hasWorker then [SetBackgrounded(on)] else [])
    case CallSnapshot(reason) =>
      if !c.hasWorker then (Immediate(c, Returned), [])
      else (Suspended(c, ForSnapshot(reason)), [RequestSnapshot(reason, c.nextCall)])
    case CallCacheWrite(cache, size, key, spare) =>
      if !c.hasWorker then (Immediate(c, Refused), [])
      else (Suspended(c.(nextRequestId := c.nextRequestId + 1), ForCacheWrite(c.nextRequestId)),
            [CacheWrite(c.nextRequestId, cache, size, key, spare, c.nextCall)])
    case CallShutdown =>
      if !c.hasWorker then (Immediate(c, Returned), [])
      else (Terminated(c).(terminating := c.terminating + [c.nextCall], nextCall := c.nextCall + 1), [Shutdown])
    case TerminateDone =>
      (Settled(c.(terminating := c.terminating[1..], state := VmStopped), c.terminating[0], None, Returned), [])
    case Receive(r) => Received(c, r, now)
    case WorkerErrored => (Torn(c), [])
    case WorkerExited(code) =>
      if c.terminated then (c, [])
      else if code == 0 then (Terminated(c).(state := VmStopped), [])
      else (Torn(c), [])
    case WatchdogTick => (Ticked(c, now), [])
    case AckTimeout(i) => (TimedOut(c, i), [])
  }

  // ---- The object -------------------------------------------------------------------------

  /** The fields, and the private methods that every failure path funnels through. */
  class VmCoordinator {
    const timeoutMs: nat
    var state: VmState
    var hasWorker: bool
    var terminated: bool
    var watchdog: bool
    var lastHeartbeatAt: int
    var waiters: seq<Waiter>
    var nextRequestId: nat
    var nextCall: nat
    var terminating: seq<nat>
    var settled: seq<Settlement>
    var errors: nat
    var starts: nat
    var outbox: seq<Command>

    function Model(): Coord
      reads this
    {
      Coord(timeoutMs, state, hasWorker, terminated, watchdog, lastHeartbeatAt, waiters, nextRequestId,
            nextCall, terminating, settled, errors, starts)
    }

    constructor (timeoutMs: nat)
      ensures Model() == Created(timeoutMs) && outbox == []
    {
      this.timeoutMs := timeoutMs;
      state, hasWorker, terminated, watchdog, lastHeartbeatAt := VmStopped, false, false, false, 0;
      waiters, nextRequestId, nextCall, terminating := [], 1, 0, [];
      settled, errors, starts, outbox := [], 0, 0, [];
    }

    method WaitForAck(w: Waiter)
      modifies this`waiters
      ensures Model() == Waiting(old(Model()), w)
    {
      waiters := waiters + [w];
    }

    /** Where the queue for `t` starts. */
    method FindFirst(t: AckType) returns (i: nat)
      ensures i == FirstFor(waiters, t)
    {
      i := 0;
      while i < |waiters| && Awaits(waiters[i].purpose) != t
        invariant i <= |waiters|
        invariant forall j :: 0 <= j < i ==> Awaits(waiters[j].purpose) != t
      {
        i := i + 1;
      }
    }

    method RejectAllAcks()
      modifies this`waiters, this`settled
      ensures waiters == []
      ensures settled == old(settled) + Rejections(old(waiters))
    {
      ghost var done := 0;
      while waiters != []
        invariant done <= |old(waiters)| && waiters == old(waiters)[done..]
        invariant settled == old(settled) + Rejections(old(waiters)[..done])
        decreases |waiters|
      {
        var pending := waiters[0];
        waiters := waiters[1..];
        settled := settled + [Settlement(pending.call, Some(pending.purpose), Rejected)];
        assert old(waiters)[..done + 1] == old(waiters)[..done] + [old(waiters)[done]];
        done := done + 1;
      }
      assert old(waiters)[..done] == old(waiters);
    }

    method OnTerminated()
      modifies this`terminated, this`watchdog, this`hasWorker
      ensures Model() == Terminated(old(Model()))
    {
      if terminated { return; }
      terminated := true;
      watchdog := false;
      hasWorker := false;
    }

    method EmitError()
      modifies this
      ensures Model() == Torn(old(Model()))
      ensures outbox == old(outbox)
    {
      errors := errors + 1;
      RejectAllAcks();
      watchdog := false;
      OnTerminated();
      if !state.VmError? { state := VmError; }
    }

    method StartVm(mode: Mode, now: int)
      modifies this
      ensures Model() == Next(old(Model()), CallStart(mode), now).0
      ensures outbox == old(outbox) + Next(old(Model()), CallStart(mode), now).1
    {
      var call := nextCall;
      nextCall := nextCall + 1;
      if hasWorker {
        settled := settled + [Settlement(call, None, Refused)];
        return;
      }
      CreateWorker(now);
      WaitForAck(Waiter(call, ForReady(mode)));
    }

    method CreateWorker(now: int)
      modifies this`state, this`terminated, this`lastHeartbeatAt, this`hasWorker, this`starts
      ensures Model() == Launched(old(Model()), now)
    {
      state, terminated, lastHeartbeatAt := VmStarting, false, now;
      hasWorker, starts := true, starts + 1;
    }

    method PauseVm(now: int)
      modifies this
      ensures Model() == Next(old(Model()), CallPause, now).0
      ensures outbox == old(outbox) + Next(old(Model()), CallPause, now).1
    {
      var call := nextCall;
      nextCall := nextCall + 1;
      if !hasWorker || !state.VmRunning? {
        settled := settled + [Settlement(call, None, Returned)];
        return;
      }
      outbox := outbox + [Pause];
      WaitForAck(Waiter(call, ForPause));
    }

    method ResumeVm(now: int)
      modifies this
      ensures Model() == Next(old(Model()), CallResume, now).0
      ensures outbox == old(outbox) + Next(old(Model()), CallResume, now).1
    {
      var call := nextCall;
      nextCall := nextCall + 1;
      if !hasWorker || !state.VmPaused? {
        settled := settled + [Settlement(call, None, Returned)];
        return;
      }
      outbox := outbox + [Resume];
      WaitForAck(Waiter(call, ForResume));
    }

    method StepVm(now: int)
      modifies this
      ensures Model() == Next(old(Model()), CallStep, now).0
      ensures outbox == old(outbox) + Next(old(Model()), CallStep, now).1
    {
      var call := nextCall;
      nextCall := nextCall + 1;
      if !hasWorker || !state.VmPaused? {
        settled := settled + [Settlement(call, None, Returned)];
        return;
      }
      outbox := outbox + [Step];
      WaitForAck(Waiter(call, ForStepped));
    }

    method RequestSnapshot(reason: string, now: int)
      modifies this
      ensures Model() == Next(old(Model()), CallSnapshot(reason), now).0
      ensures outbox == old(outbox) + Next(old(Model()), CallSnapshot(reason), now).1
    {
      var call := nextCall;
      nextCall := nextCall + 1;
      if !hasWorker {
        settled := settled + [Settlement(call, None, Returned)];
        return;
      }
      outbox := outbox + [Command.RequestSnapshot(reason, call)];
      WaitForAck(Waiter(call, ForSnapshot(reason)));
    }

    method WriteCacheEntry(cache: CacheName, size: Option<int>, key: string, spare: string, now: int)
      modifies this
      ensures Model() == Next(old(Model()), CallCacheWrite(cache, size, key, spare), now).0
      ensures outbox == old(outbox) + Next(old(Model()), CallCacheWrite(cache, size, key, spare), now).1
    {
      var call := nextCall;
      nextCall := nextCall + 1;
      if !hasWorker {
        settled := settled + [Settlement(call, None, Refused)];
        return;
      }
      var requestId := nextRequestId;
      nextRequestId := nextRequestId + 1;
      outbox := outbox + [CacheWrite(requestId, cache, size, key, spare, call)];
      WaitForAck(Waiter(call, ForCacheWrite(requestId)));
    }

    method ShutdownVm(now: int)
      modifies this
      ensures Model() == Next(old(Model()), CallShutdown, now).0
      ensures outbox == old(outbox) + Next(old(Model()), CallShutdown, now).1
    {
      var call := nextCall;
      nextCall := nextCall + 1;
      if !hasWorker {
        settled := settled + [Settlement(call, None, Returned)];
        return;
      }
      outbox := outbox + [Shutdown];
      OnTerminated();
      terminating := terminating + [call];
    }

    method OnWorkerMessage(r: Reply, now: int)
      requires hasWorker
      modifies this
      ensures Model() == Next(old(Model()), Receive(r), now).0
      ensures outbox == old(outbox) + Next(old(Model()), Receive(r), now).1
    {
      if r.Heartbeat? {
        lastHeartbeatAt := now;
        return;
      }
      if r.Fatal? {
        EmitError();
        return;
      }
      var t := AckOf(r);
      if t.None? { return; }
      var i := FindFirst(t.value);
      if i == |waiters| { return; }
      var next := waiters[i];
      waiters := waiters[..i] + waiters[i + 1..];
      Continue(next, r, now);
    }

    method Continue(w: Waiter, r: Reply, now: int)
      modifies this
      ensures Model() == Continued(old(Model()), w, r, now).0
      ensures outbox == old(outbox) + Continued(old(Model()), w, r, now).1
    {
      var outcome := Returned;
      match w.purpose {
        case ForReady(mode) =>
          watchdog := true;
          outbox := outbox + [Start(mode)];
          WaitForAck(Waiter(w.call, ForStarted));
          return;
        case ForStepped =>
          WaitForAck(Waiter(w.call, ForStepPaused));
          return;
        case ForStarted => lastHeartbeatAt, state := now, VmRunning;
        case ForResume => lastHeartbeatAt, state := now, VmRunning;
        case ForPause => state := VmPaused;
        case ForStepPaused => state := VmPaused;
        case ForSnapshot(_) =>
          outcome := if r.SnapshotTaken? then GotSnapshot(r.reason, r.call) else Mismatched;
        case ForCacheWrite(id) =>
          outcome := if r.CacheWriteResult? && r.requestId == id then GotCacheResult(id, r.call) else Mismatched;
      }
      settled := settled + [Settlement(w.call, Some(w.purpose), outcome)];
    }

    method OnWorkerExit(code: int, now: int)
      requires hasWorker
      modifies this
      ensures Model() == Next(old(Model()), WorkerExited(code), now).0
      ensures outbox == old(outbox)
    {
      if terminated { return; }
      if code == 0 {
        OnTerminated();
        state := VmStopped;
        return;
      }
      EmitError();
    }

    method CheckWatchdog(now: int) returns (fired: bool)
      requires watchdog
      modifies this
      ensures Model() == Next(old(Model()), WatchdogTick, now).0
      ensures fired <==> old(state).VmRunning? && now - old(lastHeartbeatAt) > timeoutMs
      ensures outbox == old(outbox)
    {
      if !state.VmRunning? { return false; }
      if now - lastHeartbeatAt <= timeoutMs { return false; }
      EmitError();
      return true;
    }

    method OnAckTimeout(i: nat, now: int)
      requires i < |waiters|
      modifies this
      ensures Model() == Next(old(Model()), AckTimeout(i), now).0
      ensures outbox == old(outbox)
    {
      var entry := waiters[i];
      waiters := waiters[..i] + waiters[i + 1..];
      settled := settled + [Settlement(entry.call, Some(entry.purpose), Rejected)];
      if !state.VmError? { EmitError(); }
    }
  }

  // ---- Failure teardown ---------------------------------------------------------------------

  type Trace = seq<(Event, int)>

  /** The state after a trace; events that cannot occur change nothing. */
  function After(t: nat, es: Trace): Coord {
    if es == [] then Created(t) else
      var c := After(t, es[..|es| - 1]);
      var (e, now) := es[|es| - 1];
      if Enabled(c, e) then Next(c, e, now).0 else c
  }

  predicate Lasting(e: Event) {
    !e.CallShutdown? && !e.TerminateDone? && e != WorkerExited(0)
  }

  /** No client shutdown and no clean exit. */
  predicate WithoutShutdown(es: Trace) {
    forall i :: 0 <= i < |es| ==> Lasting(es[i].0)
  }

  predicate IsFailure(c: Coord, e: Event, now: int) {
    match e
    case Receive(r) => r.Fatal?
    case WorkerErrored => true
    case WorkerExited(code) => code != 0
    case WatchdogTick => c.state.VmRunning? && now - c.lastBeat > c.timeoutMs
    case AckTimeout(_) => true
    case _ => false
  }

  function CountWaiters(ws: seq<Waiter>, call: nat): nat {
    if ws == [] then 0 else (if ws[0].call == call then 1 else 0) + CountWaiters(ws[1..], call)
  }

  function CountSettled(ss: seq<Settlement>, call: nat): nat {
    if ss == [] then 0 else (if ss[0].call == call then 1 else 0) + CountSettled(ss[1..], call)
  }

  /** How often a call shows up, settled or waiting. */
  function Occurrences(c: Coord, call: nat): nat {
    CountSettled(c.settled, call) + CountWaiters(c.waiters, call)
  }

  ghost predicate EachCallOnce(c: Coord) {
    forall call: nat :: Occurrences(c, call) == if call < c.nextCall then 1 else 0
  }

  ghost predicate LifetimeInv(c: Coord) {
    && (c.hasWorker ==> !c.terminated && (c.state.VmStarting? || c.state.VmRunning? || c.state.VmPaused?))
    && (!c.hasWorker ==> c.waiters == [] && !c.watchdog && (c.state.VmStopped? || c.state.VmError?))
    && c.starts == c.errors + (if c.hasWorker then 1 else 0)
    && c.terminating == []
  }

  lemma {:induction false} CountWaitersAppend(a: seq<Waiter>, b: seq<Waiter>, call: nat)
    ensures CountWaiters(a + b, call) == CountWaiters(a, call) + CountWaiters(b, call)
  {
    if a == [] {
      assert a + b == b;
    } else {
      assert (a + b)[1..] == a[1..] + b;
      CountWaitersAppend(a[1..], b, call);
    }
  }

  lemma {:induction false} CountSettledAppend(a: seq<Settlement>, b: seq<Settlement>, call: nat)
    ensures CountSettled(a + b, call) == CountSettled(a, call) + CountSettled(b, call)
  {
    if a == [] {
      assert a + b == b;
    } else {
      assert (a + b)[1..] == a[1..] + b;
      CountSettledAppend(a[1..], b, call);
    }
  }

  lemma {:induction false} CountRejections(ws: seq<Waiter>, call: nat)
    ensures CountSettled(Rejections(ws), call) == CountWaiters(ws, call)
  {
    if ws != [] {
      assert Rejections(ws)[1..] == Rejections(ws[1..]);
      CountRejections(ws[1..], call);
    }
  }

  lemma TornOccurs(c: Coord, call: nat)
    ensures Occurrences(Torn(c), call) == Occurrences(c, call)
  {
    CountSettledAppend(c.settled, Rejections(c.waiters), call);
    CountRejections(c.waiters, call);
  }

  lemma RemovedCount(ws: seq<Waiter>, i: nat, call: nat)
    requires i < |ws|
    ensures CountWaiters(ws, call) == CountWaiters(RemoveAt(ws, i), call) + if ws[i].call == call then 1 else 0
  {
    assert ws == ws[..i] + ([ws[i]] + ws[i + 1..]);
    CountWaitersAppend(ws[..i], [ws[i]] + ws[i + 1..], call);
    CountWaitersAppend([ws[i]], ws[i + 1..], call);
    CountWaitersAppend(ws[..i], ws[i + 1..], call);
  }

  lemma ContinuedOccurs(c: Coord, w: Waiter, r: Reply, now: int, call: nat)
    ensures Continued(c, w, r, now).0.nextCall == c.nextCall
    ensures Occurrences(Continued(c, w, r, now).0, call) == Occurrences(c, call) + if w.call == call then 1 else 0
  {
    if w.purpose.ForReady? || w.purpose.ForStepped? {
      CountWaitersAppend(c.waiters, [Waiter(w.call, if w.purpose.ForReady? then ForStarted else ForStepPaused)], call);
    } else {
      CountSettledAppend(c.settled, [Settlement(w.call, Some(w.purpose), OutcomeOf(w.purpose, r))], call);
    }
  }

  lemma TimedOutOccurs(c: Coord, i: nat, call: nat)
    requires i < |c.waiters|
    ensures Occurrences(TimedOut(c, i), call) == Occurrences(c, call)
  {
    var w := c.waiters[i];
    RemovedCount(c.waiters, i, call);
    CountSettledAppend(c.settled, [Settlement(w.call, Some(w.purpose), Rejected)], call);
    TornOccurs(Settled(c.(waiters := RemoveAt(c.waiters, i)), w.call, Some(w.purpose), Rejected), call);
  }

  lemma ImmediateOccurs(c: Coord, o: Outcome, call: nat)
    ensures Occurrences(Immediate(c, o), call) == Occurrences(c, call) + if call == c.nextCall then 1 else 0
  {
    CountSettledAppend(c.settled, [Settlement(c.nextCall, None, o)], call);
  }

  lemma SuspendedOccurs(c: Coord, p: Purpose, call: nat)
    ensures Occurrences(Suspended(c, p), call) == Occurrences(c, call) + if call == c.nextCall then 1 else 0
  {
    CountWaitersAppend(c.waiters, [Waiter(c.nextCall, p)], call);
  }

  predicate IsPromiseCall(e: Event) {
    e.CallStart? || e.CallPause? || e.CallResume? || e.CallStep? || e.CallSnapshot? || e.CallCacheWrite?
  }

  /** A call settles at once or suspends, under the next call number either way. */
  lemma CallOccurs(c: Coord, e: Event, now: int, call: nat)
    requires IsPromiseCall(e)
    ensures var c' := Next(c, e, now).0;
            && c'.nextCall == c.nextCall + 1
            && Occurrences(c', call) == Occurrences(c, call) + if call == c.nextCall then 1 else 0
  {
    ImmediateOccurs(c, Returned, call);
    ImmediateOccurs(c, Refused, call);
    match e
    case CallStart(mode) =>
      if !c.hasWorker {
        SuspendedOccurs(Launched(c, now), ForReady(mode), call);
      }
    case CallPause => SuspendedOccurs(c, ForPause, call);
    case CallResume => SuspendedOccurs(c, ForResume, call);
    case CallStep => SuspendedOccurs(c, ForStepped, call);
    case CallSnapshot(reason) => SuspendedOccurs(c, ForSnapshot(reason), call);
    case CallCacheWrite(_, _, _, _) =>
      SuspendedOccurs(c.(nextRequestId := c.nextRequestId + 1), ForCacheWrite(c.nextRequestId), call);
  }

  lemma ReceivedOccurs(c: Coord, r: Reply, now: int, call: nat)
    ensures Received(c, r, now).0.nextCall == c.nextCall
    ensures Occurrences(Received(c, r, now).0, call) == Occurrences(c, call)
  {
    var t := AckOf(r);
    if r.Fatal? {
      TornOccurs(c, call);
    } else if !r.Heartbeat? && t.Some? {
      var i := FirstFor(c.waiters, t.value);
      if i < |c.waiters| {
        RemovedCount(c.waiters, i, call);
        ContinuedOccurs(c.(waiters := RemoveAt(c.waiters, i)), c.waiters[i], r, now, call);
      }
    }
  }

  /** Every event issues at most the next call, and neither loses nor doubles any other. */
  lemma NextOccurs(c: Coord, e: Event, now: int, call: nat)
    requires Enabled(c, e) && Lasting(e)
    ensures var c' := Next(c, e, now).0;
            && c.nextCall <= c'.nextCall <= c.nextCall + 1
            && Occurrences(c', call) == Occurrences(c, call) + if c.nextCall <= call < c'.nextCall then 1 else 0
  {
    match e
    case Receive(r) => ReceivedOccurs(c, r, now, call);
    case AckTimeout(i) => TimedOutOccurs(c, i, call);
    case WorkerErrored => TornOccurs(c, call);
    case WorkerExited(_) => TornOccurs(c, call);
    case WatchdogTick => TornOccurs(c, call);
    case CallSetBackgrounded(_) =>
    case _ => CallOccurs(c, e, now, call);
  }

  lemma TornKeepsLifetime(c: Coord)
    requires LifetimeInv(c) && c.hasWorker
    ensures LifetimeInv(Torn(c))
  {
  }

  lemma ReceivedKeepsLifetime(c: Coord, r: Reply, now: int)
    requires LifetimeInv(c) && c.hasWorker
    ensures LifetimeInv(Received(c, r, now).0)
  {
    if r.Fatal? { TornKeepsLifetime(c); }
  }

  lemma CallKeepsLifetime(c: Coord, e: Event, now: int)
    requires LifetimeInv(c) && (IsPromiseCall(e) || e.CallSetBackgrounded?)
    ensures LifetimeInv(Next(c, e, now).0)
  {
  }

  lemma NextKeepsLifetime(c: Coord, e: Event, now: int)
    requires LifetimeInv(c) && Enabled(c, e) && Lasting(e)
    ensures LifetimeInv(Next(c, e, now).0)
  {
    match e
    case Receive(r) => ReceivedKeepsLifetime(c, r, now);
    case WorkerErrored => TornKeepsLifetime(c);
    case WorkerExited(_) => TornKeepsLifetime(c);
    case WatchdogTick => if c.state.VmRunning? { TornKeepsLifetime(c); }
    case AckTimeout(i) =>
      var w := c.waiters[i];
      TornKeepsLifetime(Settled(c.(waiters := RemoveAt(c.waiters, i)), w.call, Some(w.purpose), Rejected));
    case _ => CallKeepsLifetime(c, e, now);
  }

  /** In every run without shutdown, each call ever made is waiting in exactly one place or
      settled exactly once, and each worker gone has caused exactly one 'error' event. */
  lemma {:induction false} EveryRun(t: nat, es: Trace)
    requires WithoutShutdown(es)
    ensures LifetimeInv(After(t, es)) && EachCallOnce(After(t, es))
  {
    if es == [] {
      assert forall call: nat :: Occurrences(Created(t), call) == 0;
    } else {
      var c := After(t, es[..|es| - 1]);
      var (e, now) := es[|es| - 1];
      EveryRun(t, es[..|es| - 1]);
      if Enabled(c, e) {
        NextKeepsLifetime(c, e, now);
        forall call: nat
          ensures Occurrences(Next(c, e, now).0, call) == if call < Next(c, e, now).0.nextCall then 1 else 0
        {
          NextOccurs(c, e, now, call);
          assert Occurrences(c, call) == if call < c.nextCall then 1 else 0;
        }
      }
    }
  }

  lemma FailureIsTorn(c: Coord, e: Event, now: int)
    requires LifetimeInv(c) && Enabled(c, e) && IsFailure(c, e, now)
    ensures var c' := Next(c, e, now).0;
            && c'.state.VmError? && !c'.hasWorker && !c'.watchdog && c'.waiters == []
            && c'.errors == c.errors + 1
            && c.settled <= c'.settled
            && (forall i :: |c.settled| <= i < |c'.settled| ==> c'.settled[i].outcome.Rejected?)
  {
    assert c.hasWorker;
  }

  /** Every failure path, from every state such a run can reach: one event, no worker, no watchdog,
      empty queues, and every call that was waiting rejected exactly once. */
  lemma FailureTearsDown(t: nat, es: Trace, e: Event, now: int)
    requires WithoutShutdown(es) && Enabled(After(t, es), e) && IsFailure(After(t, es), e, now)
    ensures var c, c' := After(t, es), Next(After(t, es), e, now).0;
            && c'.state.VmError? && !c'.hasWorker && !c'.watchdog && c'.waiters == []
            && c'.errors == c.errors + 1
            && c.settled <= c'.settled
            && (forall i :: |c.settled| <= i < |c'.settled| ==> c'.settled[i].outcome.Rejected?)
            && (forall call: nat :: CountWaiters(c.waiters, call) > 0 ==>
                  CountSettled(c.settled, call) == 0 && CountSettled(c'.settled, call) == 1)
  {
    EveryRun(t, es);
    var c := After(t, es);
    FailureIsTorn(c, e, now);
    forall call: nat | CountWaiters(c.waiters, call) > 0
      ensures CountSettled(c.settled, call) == 0 && CountSettled(Next(c, e, now).0.settled, call) == 1
    {
      NextOccurs(c, e, now, call);
      assert Occurrences(c, call) == if call < c.nextCall then 1 else 0;
    }
  }

  // ---- Every run, with shutdowns and clean exits ------------------------------------------------

  function CountIn(calls: seq<nat>, call: nat): nat {
    if calls == [] then 0 else (if calls[0] == call then 1 else 0) + CountIn(calls[1..], call)
  }

  lemma {:induction false} CountInAppend(a: seq<nat>, b: seq<nat>, call: nat)
    ensures CountIn(a + b, call) == CountIn(a, call) + CountIn(b, call)
  {
    if a == [] {
      assert a + b == b;
    } else {
      assert (a + b)[1..] == a[1..] + b;
      CountInAppend(a[1..], b, call);
    }
  }

  /** How often a call shows up: settled, waiting, or a shutdown under way. */
  function Places(c: Coord, call: nat): nat {
    Occurrences(c, call) + CountIn(c.terminating, call)
  }

  lemma ReceivedKeepsRest(c: Coord, r: Reply, now: int)
    ensures var c' := Received(c, r, now).0;
            c'.terminating == c.terminating && c'.nextRequestId == c.nextRequestId
  {
  }

  /** Shutdowns under way change with a shutdown only, and request ids with a cache write that is sent. */
  lemma NextKeepsRest(c: Coord, e: Event, now: int)
    requires Enabled(c, e)
    ensures Lasting(e) ==> Next(c, e, now).0.terminating == c.terminating
    ensures Next(c, e, now).0.nextRequestId ==
            c.nextRequestId + if e.CallCacheWrite? && c.hasWorker then 1 else 0
  {
    if e.Receive? { ReceivedKeepsRest(c, e.r, now); }
  }

  lemma NextPlaces(c: Coord, e: Event, now: int, call: nat)
    requires Enabled(c, e)
    ensures var c' := Next(c, e, now).0;
            && c.nextCall <= c'.nextCall <= c.nextCall + 1
            && Places(c', call) == Places(c, call) + if c.nextCall <= call < c'.nextCall then 1 else 0
  {
    if Lasting(e) {
      NextOccurs(c, e, now, call);
      NextKeepsRest(c, e, now);
    } else if e.CallShutdown? {
      ImmediateOccurs(c, Returned, call);
      CountInAppend(c.terminating, [c.nextCall], call);
    } else if e.TerminateDone? {
      CountSettledAppend(c.settled, [Settlement(c.terminating[0], None, Returned)], call);
    }
  }

  /** In every run, each call ever made is in exactly one place: waiting, a shutdown under way, or settled
      once. */
  lemma {:induction false} NoCallLostOrDoubled(t: nat, es: Trace, call: nat)
    ensures Places(After(t, es), call) == if call < After(t, es).nextCall then 1 else 0
  {
    if es != [] {
      var c := After(t, es[..|es| - 1]);
      var (e, now) := es[|es| - 1];
      NoCallLostOrDoubled(t, es[..|es| - 1], call);
      if Enabled(c, e) { NextPlaces(c, e, now, call); }
    }
  }

  predicate Tidy(c: Coord) {
    && (c.hasWorker ==> !c.terminated && c.starts > 0)
    && (!c.hasWorker ==> !c.watchdog && (c.terminated <==> c.starts > 0))
    && (c.state.VmError? ==> c.waiters == [] && !c.hasWorker)
    && (c.starts == 0 ==> c.state.VmStopped? && c.waiters == [])
  }

  lemma TornIsTidy(c: Coord)
    requires Tidy(c) && c.starts > 0
    ensures Tidy(Torn(c))
  {
  }

  lemma ReceivedIsTidy(c: Coord, r: Reply, now: int)
    requires Tidy(c) && c.hasWorker
    ensures Tidy(Received(c, r, now).0)
  {
    if r.Fatal? { TornIsTidy(c); }
  }

  lemma NextIsTidy(c: Coord, e: Event, now: int)
    requires Tidy(c) && Enabled(c, e)
    ensures Tidy(Next(c, e, now).0)
  {
    match e
    case Receive(r) => ReceivedIsTidy(c, r, now);
    case AckTimeout(i) =>
      var w := c.waiters[i];
      TornIsTidy(Settled(c.(waiters := RemoveAt(c.waiters, i)), w.call, Some(w.purpose), Rejected));
    case WorkerErrored => TornIsTidy(c);
    case WorkerExited(_) => TornIsTidy(c);
    case WatchdogTick => TornIsTidy(c);
    case _ =>
  }

  /** In every run: the watchdog runs only while a worker exists, `_terminated` is set exactly while the latest
      worker is gone, and the state 'error' leaves no call waiting and no worker. */
  lemma {:induction false} EveryRunIsTidy(t: nat, es: Trace)
    ensures Tidy(After(t, es))
  {
    if es != [] {
      var c := After(t, es[..|es| - 1]);
      var (e, now) := es[|es| - 1];
      EveryRunIsTidy(t, es[..|es| - 1]);
      if Enabled(c, e) { NextIsTidy(c, e, now); }
    }
  }

  /** In every run, a shutdown and a clean exit take the worker and its watchdog away without an 'error' event and
      without settling any call. The shutdown asks the worker to stop, and keeps the state until the worker is
      gone; the clean exit stops at once. */
  lemma EndsWithoutError(t: nat, es: Trace, now: int)
    requires After(t, es).hasWorker
    ensures var c := After(t, es);
            var gone := c.(hasWorker := false, watchdog := false, terminated := true);
            && Next(c, CallShutdown, now) ==
               (gone.(terminating := c.terminating + [c.nextCall], nextCall := c.nextCall + 1), [Shutdown])
            && Next(c, WorkerExited(0), now) == (gone.(state := VmStopped), [])
  {
    EveryRunIsTidy(t, es);
  }

  /** Cache writes sent so far. */
  function CacheWritesSent(t: nat, es: Trace): nat {
    if es == [] then 0 else
      var pre := es[..|es| - 1];
      CacheWritesSent(t, pre) + if es[|es| - 1].0.CallCacheWrite? && After(t, pre).hasWorker then 1 else 0
  }

  lemma {:induction false} NextRequestId(t: nat, es: Trace)
    ensures After(t, es).nextRequestId == CacheWritesSent(t, es) + 1
  {
    if es != [] {
      var c := After(t, es[..|es| - 1]);
      var (e, now) := es[|es| - 1];
      NextRequestId(t, es[..|es| - 1]);
      if Enabled(c, e) { NextKeepsRest(c, e, now); }
    }
  }

  /** Request ids are 1, 2, 3 and so on, in every run. */
  lemma RequestIdsCount(t: nat, es: Trace, e: Event, now: int)
    requires e.CallCacheWrite? && After(t, es).hasWorker
    ensures var sent := Next(After(t, es), e, now).1;
            |sent| == 1 && sent[0].CacheWrite? && sent[0].requestId == CacheWritesSent(t, es) + 1
  {
    NextRequestId(t, es);
  }

  /** The calls that send the worker something and then wait. */
  predicate Engages(c: Coord, e: Event) {
    match e
    case CallPause => c.hasWorker && c.state == VmRunning
    case CallResume => c.hasWorker && c.state == VmPaused
    case CallStep => c.hasWorker && c.state == VmPaused
    case CallStart(_) => !c.hasWorker
    case _ => c.hasWorker
  }

  /** Every other call ends at once without changing anything: a start and a cache write are refused, the rest
      return. */
  lemma OtherCallsEndAtOnce(c: Coord, e: Event, now: int)
    requires IsPromiseCall(e) || e.CallShutdown?
    ensures !Engages(c, e) ==>
              var o := if e.CallStart? || e.CallCacheWrite? then Refused else Returned;
              Next(c, e, now) ==
              (c.(nextCall := c.nextCall + 1, settled := c.settled + [Settlement(c.nextCall, None, o)]), [])
    ensures Engages(c, e) ==> Next(c, e, now).0.settled == c.settled
  {
  }

  // ---- Watchdog timing ------------------------------------------------------------------------

  /** The coordinator hears from the worker, or (re)starts listening for it. */
  predicate IsBeat(c: Coord, e: Event) {
    match e
    case CallStart(_) => !c.hasWorker
    case Receive(r) =>
      || r.Heartbeat?
      || (r.Started? && Waits(c.waiters, AckStarted))
      || (r.Resumed? && Waits(c.waiters, AckResumed))
    case _ => false
  }

  function LatestBeat(t: nat, es: Trace): int {
    if es == [] then 0 else
      var c := After(t, es[..|es| - 1]);
      var (e, now) := es[|es| - 1];
      if Enabled(c, e) && IsBeat(c, e) then now else LatestBeat(t, es[..|es| - 1])
  }

  /** The interval timer runs, or is set up. */
  predicate IsTick(c: Coord, e: Event) {
    e.WatchdogTick? || (e.Receive? && e.r.Ready? && Waits(c.waiters, AckReady))
  }

  /** The last time the interval timer ran, counting the moment it was set up. */
  function LatestTick(t: nat, es: Trace): int {
    if es == [] then 0 else
      var c := After(t, es[..|es| - 1]);
      var (e, now) := es[|es| - 1];
      if Enabled(c, e) && IsTick(c, e) then now else LatestTick(t, es[..|es| - 1])
  }

  predicate Chronological(es: Trace) {
    && (forall i :: 0 <= i < |es| ==> 0 <= es[i].1)
    && (forall i, j :: 0 <= i < j < |es| ==> es[i].1 <= es[j].1)
  }

  lemma ContinuedBeat(c: Coord, w: Waiter, r: Reply, now: int)
    ensures var c' := Continued(c, w, r, now).0;
            && c'.lastBeat == (if w.purpose.ForStarted? || w.purpose.ForResume? then now else c.lastBeat)
            && c'.timeoutMs == c.timeoutMs
  {
  }

  lemma ReceivedBeat(c: Coord, r: Reply, now: int)
    ensures Received(c, r, now).0.lastBeat == if IsBeat(c, Receive(r)) then now else c.lastBeat
    ensures Received(c, r, now).0.timeoutMs == c.timeoutMs
  {
    if !r.Heartbeat? && !r.Fatal? && AckOf(r).Some? {
      var t := AckOf(r).value;
      var i := FirstFor(c.waiters, t);
      assert i < |c.waiters| <==> Waits(c.waiters, t);
      if i < |c.waiters| { ContinuedBeat(c.(waiters := RemoveAt(c.waiters, i)), c.waiters[i], r, now); }
    }
  }

  lemma BeatIsRecorded(c: Coord, e: Event, now: int)
    requires Enabled(c, e)
    ensures Next(c, e, now).0.lastBeat == if IsBeat(c, e) then now else c.lastBeat
    ensures Next(c, e, now).0.timeoutMs == c.timeoutMs
  {
    match e
    case Receive(r) => ReceivedBeat(c, r, now);
    case _ =>
  }

  lemma {:induction false} LastBeatIsLatest(t: nat, es: Trace)
    ensures After(t, es).lastBeat == LatestBeat(t, es)
    ensures After(t, es).timeoutMs == t
  {
    if es != [] {
      LastBeatIsLatest(t, es[..|es| - 1]);
      var c := After(t, es[..|es| - 1]);
      if Enabled(c, es[|es| - 1].0) { BeatIsRecorded(c, es[|es| - 1].0, es[|es| - 1].1); }
    }
  }

  /** A tick tears the VM down exactly when it is running and the last beat is more than T old.
      Time spent paused never counts: the resume acknowledgement is itself a beat. */
  lemma TickFiresExactly(t: nat, es: Trace, now: int)
    requires Enabled(After(t, es), WatchdogTick)
    ensures var c, c' := After(t, es), Next(After(t, es), WatchdogTick, now).0;
            && (c' != c <==> c.state.VmRunning? && now - LatestBeat(t, es) > t)
            && (c' != c ==> c' == Torn(c))
  {
    LastBeatIsLatest(t, es);
  }

  /** Event `j` is a beat, or something other than a tick that ends the running state. */
  ghost predicate Relieves(t: nat, es: Trace, j: nat)
    requires j < |es|
  {
    var c, e := After(t, es[..j]), es[j].0;
    Enabled(c, e) &&
    (IsBeat(c, e) || (!e.WatchdogTick? && c.state.VmRunning? && !After(t, es[..j + 1]).state.VmRunning?))
  }

  /** Whenever the VM is running, the next beat (or pause, or teardown) comes no later than T after the
      latest one. Behind the last of them the run must itself end within T. */
  ghost predicate BeatsAtMostApart(t: nat, es: Trace) {
    forall k :: 0 <= k < |es| && After(t, es[..k]).state.VmRunning? ==>
      || (exists j :: k <= j < |es| && Relieves(t, es, j) && es[j].1 - LatestBeat(t, es[..k]) <= t)
      || es[|es| - 1].1 - LatestBeat(t, es[..k]) <= t
  }

  /** With beats at most T apart while running, no tick of the run has any effect, wherever the ticks fall
      between the beats. */
  lemma NeverFiresEarly(t: nat, es: Trace, k: nat)
    requires Chronological(es) && BeatsAtMostApart(t, es) && k < |es| && es[k].0.WatchdogTick?
    ensures After(t, es[..k + 1]) == After(t, es[..k])
  {
    assert es[..k + 1][..k] == es[..k];
    if After(t, es[..k]).state.VmRunning? {
      assert es[k].1 - LatestBeat(t, es[..k]) <= t by {
        if j :| k <= j < |es| && Relieves(t, es, j) && es[j].1 - LatestBeat(t, es[..k]) <= t {
          assert j != k && es[k].1 <= es[j].1;
        } else {
          assert es[k].1 <= es[|es| - 1].1;
        }
      }
    }
    if Enabled(After(t, es[..k]), WatchdogTick) { TickFiresExactly(t, es[..k], es[k].1); }
  }

  ghost predicate PunctualTicks(t: nat, es: Trace) {
    forall k :: 0 <= k < |es| && After(t, es[..k]).watchdog ==> es[k].1 - LatestTick(t, es[..k]) <= IntervalMs(t)
  }

  /** A control call that is past the 'ready' acknowledgement. */
  predicate Controls(p: Purpose) {
    !p.ForReady? && !p.ForSnapshot? && !p.ForCacheWrite?
  }

  ghost predicate TickInv(c: Coord, t: nat, tick: int) {
    && (c.state.VmRunning? || c.state.VmPaused? ==> c.watchdog)
    && (forall i :: 0 <= i < |c.waiters| && Controls(c.waiters[i].purpose) ==> c.watchdog)
    && (forall i :: 0 <= i < |c.waiters| && c.waiters[i].purpose.ForReady? ==>
          && c.state.VmStarting?
          && forall j :: 0 <= j < |c.waiters| && j != i ==>
               !Controls(c.waiters[j].purpose) && !c.waiters[j].purpose.ForReady?)
    && (c.state.VmRunning? ==> tick <= c.lastBeat + t)
    && c.timeoutMs == t
  }

  lemma RemovalKeepsTickInv(c: Coord, i: nat, t: nat, tick: int)
    requires TickInv(c, t, tick) && i < |c.waiters|
    ensures TickInv(c.(waiters := RemoveAt(c.waiters, i)), t, tick)
    ensures c.waiters[i].purpose.ForReady? ==> c.state.VmStarting?
    ensures c.waiters[i].purpose.ForReady? ==> forall w :: w in RemoveAt(c.waiters, i) ==>
              !Controls(w.purpose) && !w.purpose.ForReady?
    ensures Controls(c.waiters[i].purpose) ==> forall w :: w in RemoveAt(c.waiters, i) ==> !w.purpose.ForReady?
  {
    var ws := RemoveAt(c.waiters, i);
    assert forall k :: 0 <= k < |ws| ==> ws[k] == c.waiters[if k < i then k else k + 1];
  }

  lemma ContinuedKeepsTickInv(c: Coord, w: Waiter, r: Reply, t: nat, tick: int, now: int)
    requires TickInv(c, t, tick) && tick <= now
    requires Controls(w.purpose) ==> c.watchdog && forall v :: v in c.waiters ==> !v.purpose.ForReady?
    requires w.purpose.ForReady? ==>
               c.state.VmStarting? && forall v :: v in c.waiters ==> !Controls(v.purpose) && !v.purpose.ForReady?
    ensures TickInv(Continued(c, w, r, now).0, t, if w.purpose.ForReady? then now else tick)
  {
  }

  lemma ReceivedKeepsTickInv(c: Coord, r: Reply, t: nat, tick: int, now: int)
    requires TickInv(c, t, tick) && tick <= now
    ensures TickInv(Received(c, r, now).0, t, if IsTick(c, Receive(r)) then now else tick)
  {
    if AckOf(r).Some? {
      var i := FirstFor(c.waiters, AckOf(r).value);
      if i < |c.waiters| {
        RemovalKeepsTickInv(c, i, t, tick);
        ContinuedKeepsTickInv(c.(waiters := RemoveAt(c.waiters, i)), c.waiters[i], r, t, tick, now);
        assert IsTick(c, Receive(r)) <==> c.waiters[i].purpose.ForReady?;
      }
    }
  }

  lemma NextKeepsTickInv(c: Coord, e: Event, t: nat, tick: int, now: int)
    requires LifetimeInv(c) && Lasting(e) && Enabled(c, e)
    requires TickInv(c, t, tick) && tick <= now
    ensures TickInv(Next(c, e, now).0, t, if IsTick(c, e) then now else tick)
  {
    match e
    case Receive(r) => ReceivedKeepsTickInv(c, r, t, tick, now);
    case CallStart(mode) => StartKeepsTickInv(c, mode, t, tick, now);
    case AckTimeout(i) => RemovalKeepsTickInv(c, i, t, tick);
    case _ =>
  }

  lemma StartKeepsTickInv(c: Coord, mode: Mode, t: nat, tick: int, now: int)
    requires LifetimeInv(c) && TickInv(c, t, tick)
    ensures TickInv(Next(c, CallStart(mode), now).0, t, tick)
  {
  }

  lemma {:induction false} RunKeepsTickInv(t: nat, es: Trace)
    requires WithoutShutdown(es) && Chronological(es)
    ensures TickInv(After(t, es), t, LatestTick(t, es))
    ensures es != [] ==> LatestTick(t, es) <= es[|es| - 1].1
  {
    if es != [] {
      var pre := es[..|es| - 1];
      var (e, now) := es[|es| - 1];
      RunKeepsTickInv(t, pre);
      EveryRun(t, pre);
      if pre != [] { assert pre[|pre| - 1] == es[|es| - 2]; }
      if Enabled(After(t, pre), e) { NextKeepsTickInv(After(t, pre), e, t, LatestTick(t, pre), now); }
    }
  }

  /** The interval is a quarter of the timeout, rounded down, but at least 25 ms. */
  lemma IntervalIsQuarter(t: nat)
    ensures t < 104 ==> IntervalMs(t) == 25
    ensures t >= 104 ==> 4 * IntervalMs(t) <= t < 4 * IntervalMs(t) + 4
  {
  }

  /** With punctual ticks a silent worker is never still running more than T plus one interval
      after its last beat: one and a quarter T, or T plus 25 ms for a short T. */
  lemma FiresInTime(t: nat, es: Trace, k: nat)
    requires WithoutShutdown(es) && Chronological(es) && PunctualTicks(t, es) && k < |es|
    requires After(t, es[..k]).state.VmRunning?
    ensures var silence := es[k].1 - LatestBeat(t, es[..k]);
            silence <= t + IntervalMs(t) && if t < 104 then silence <= t + 25 else 4 * silence <= 5 * t
  {
    IntervalIsQuarter(t);
    RunKeepsTickInv(t, es[..k]);
    LastBeatIsLatest(t, es[..k]);
  }
}
