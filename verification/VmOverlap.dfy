/** Control calls that overlap, and calls that outlive their worker (src/vmCoordinator.js, src/cpuWorker.js). */
module VmOverlap {
  import opened Prelude
  import opened CpuWorker
  import opened VmCoordinator
  import opened VmSystem

  // ---- Two overlapping steps ------------------------------------------------------------------------

  /** One more event of a run. */
  lemma Extend(t: nat, es: Schedule, e: SysEvent) returns (es': Schedule)
    requires Possible(RunFrom(t, es), e)
    ensures es <= es' && RunFrom(t, es') == SysNext(RunFrom(t, es), e, 0)
  {
    RunMore(t, es, e, 0);
    es' := es + [(e, 0)];
  }

  /** Both sides paused, no call waiting, nothing under way, and the loop between two slices. */
  predicate PausedBetweenSlices(s: System) {
    && s.c.hasWorker && Live(s.c) && s.c.state.VmPaused? && s.c.waiters == [] && s.up == [] && s.down == []
    && Still(s.w) && s.w.loop.Yielded? && !s.w.backgrounded && !s.w.stopping
  }

  /** Start a worker. */
  lemma StartedRun(t: nat, limits: Limits) returns (es: Schedule)
    ensures var s := RunFrom(t, es);
            && s.c.hasWorker && Live(s.c) && |s.c.waiters| == 1 && s.c.waiters[0].purpose.ForStarted?
            && |s.up| == 2 && s.up[0].Started? && s.up[1].Heartbeat? && s.down == []
            && Going(s.w) && s.w.loop.Yielded? && !s.w.backgrounded && !s.w.stopping
  {
    es := Extend(t, [], NewWorker(Cooperative, limits, true));
    es := Extend(t, es, Deliver);
    es := Extend(t, es, WorkerTakes(0));
  }

  /** Start a worker and pause it before its loop has parked. */
  lemma PausedRun(t: nat, limits: Limits) returns (es: Schedule)
    ensures PausedBetweenSlices(RunFrom(t, es))
  {
    es := StartedRun(t, limits);
    es := HearsStart(t, es);
    es := PausesBetweenSlices(t, es);
  }

  lemma PausesBetweenSlices(t: nat, es: Schedule) returns (es': Schedule)
    requires var s := RunFrom(t, es);
             && s.c.hasWorker && Live(s.c) && s.c.state.VmRunning? && s.c.waiters == [] && s.up == [] && s.down == []
             && Going(s.w) && s.w.loop.Yielded? && !s.w.backgrounded && !s.w.stopping
    ensures es <= es' && PausedBetweenSlices(RunFrom(t, es'))
  {
    es' := Extend(t, es, Client(CallPause));
    es' := Extend(t, es', WorkerTakes(0));
    es' := Extend(t, es', Deliver);
  }

  lemma HearsStart(t: nat, es: Schedule) returns (es': Schedule)
    requires var s := RunFrom(t, es);
             && s.c.hasWorker && Live(s.c) && |s.c.waiters| == 1 && s.c.waiters[0].purpose.ForStarted?
             && |s.up| == 2 && s.up[0].Started? && s.up[1].Heartbeat?
    ensures es <= es'
    ensures var s, s' := RunFrom(t, es), RunFrom(t, es');
            && s'.c.hasWorker && Live(s'.c) && s'.c.state.VmRunning? && s'.c.waiters == [] && s'.up == []
            && s'.down == s.down && s'.w == s.w
  {
    es' := Extend(t, es, Deliver);
    es' := Extend(t, es', Deliver);
  }

  /** Two step requests reach the worker before its loop turns. */
  lemma TwoStepsTaken(t: nat, es: Schedule) returns (es': Schedule)
    requires PausedBetweenSlices(RunFrom(t, es))
    ensures es <= es'
    ensures var s, s' := RunFrom(t, es), RunFrom(t, es');
            && s'.c.hasWorker && Live(s'.c) && s'.c.state.VmPaused?
            && s'.c.waiters == [Waiter(s.c.nextCall, ForStepped), Waiter(s.c.nextCall + 1, ForStepped)]
            && s'.down == [] && s'.up == [Stepping, Stepping]
            && s'.w == s.w.(steps := 2, paused := false)
  {
    es' := Extend(t, es, Client(CallStep));
    es' := Extend(t, es', Client(CallStep));
    es' := Extend(t, es', WorkerTakes(0));
    es' := Extend(t, es', WorkerTakes(0));
  }

  /** The loop runs one of them, pauses, and parks. */
  lemma LoopRunsOne(t: nat, es: Schedule) returns (es': Schedule)
    requires var s := RunFrom(t, es);
             s.w.running && !s.w.paused && !s.w.stopping && !s.w.backgrounded && s.w.steps == 2 && s.w.loop.Yielded?
    ensures es <= es'
    ensures var s, s' := RunFrom(t, es), RunFrom(t, es');
            && s'.c == s.c && s'.down == s.down && s'.w.loop.Parked? && s'.w.paused && s'.w.steps == 1
            && s'.w.running && !s'.w.stopping
            && |s'.up| == |s.up| + 3 && s'.up[..|s.up|] == s.up
            && s'.up[|s.up|].Heartbeat? && s'.up[|s.up| + 1].Stepped? && s'.up[|s.up| + 2].Paused?
  {
    es' := Extend(t, es, WorkerTimer(1));
    es' := Extend(t, es', WorkerTimer(1));
  }

  /** A reply that settles or continues no call. */
  lemma HearsNothing(t: nat, es: Schedule) returns (es': Schedule)
    requires var s := RunFrom(t, es); s.c.hasWorker && s.up != [] && (s.up[0].Stepping? || s.up[0].Heartbeat?)
    ensures es <= es'
    ensures var s, s' := RunFrom(t, es), RunFrom(t, es');
            && s'.up == s.up[1..] && s'.down == s.down && s'.w == s.w
            && s'.c == s.c.(lastBeat := s'.c.lastBeat)
  {
    es' := Extend(t, es, Deliver);
  }

  lemma SteppedHeard(c: Coord, r: Reply, a: Waiter, b: Waiter)
    requires r.Stepped? && c.waiters == [a, b] && a.purpose.ForStepped?
    ensures Received(c, r, 0) == (c.(waiters := [b, Waiter(a.call, ForStepPaused)]), [])
  {
    assert FirstFor(c.waiters, AckStepped) == 0;
    assert RemoveAt(c.waiters, 0) == [b];
    assert [b] + [Waiter(a.call, ForStepPaused)] == [b, Waiter(a.call, ForStepPaused)];
  }

  lemma PausedHeard(c: Coord, a: Waiter, b: Waiter)
    requires c.waiters == [b, a] && b.purpose.ForStepped? && a.purpose.ForStepPaused?
    ensures var (c', sent) := Received(c, Paused, 0);
            && c'.waiters == [b] && c'.hasWorker == c.hasWorker && (Live(c) ==> Live(c')) && c'.state.VmPaused?
            && sent == []
            && c'.settled == c.settled + [Settlement(a.call, Some(a.purpose), Returned)]
  {
    assert FirstFor(c.waiters, AckPaused) == 1 by { assert c.waiters[0] == b && c.waiters[1] == a; }
    assert RemoveAt(c.waiters, 1) == [b];
  }

  lemma HearsOneStep(t: nat, es: Schedule, a: Waiter, b: Waiter) returns (es': Schedule)
    requires a.purpose.ForStepped? && b.purpose.ForStepped?
    requires var s := RunFrom(t, es);
             && s.c.hasWorker && Live(s.c) && s.c.waiters == [a, b]
             && |s.up| == 2 && s.up[0].Stepped? && s.up[1].Paused?
    ensures es <= es'
    ensures var s, s' := RunFrom(t, es), RunFrom(t, es');
            && s'.c.hasWorker && Live(s'.c) && s'.c.state.VmPaused? && s'.c.waiters == [b] && s'.up == []
            && s'.down == s.down && s'.w == s.w
            && s'.c.settled == s.c.settled + [Settlement(a.call, Some(ForStepPaused), Returned)]
  {
    var s := RunFrom(t, es);
    SteppedHeard(s.c, s.up[0], a, b);
    es' := Extend(t, es, Deliver);
    var s1 := RunFrom(t, es');
    assert s1.up == [Paused];
    PausedHeard(s1.c, Waiter(a.call, ForStepPaused), b);
    es' := Extend(t, es', Deliver);
  }

  /** The call `w` waits for a step that the parked worker owes, and no control message is under way. */
  predicate Stranded(s: System, w: Waiter) {
    && s.c.hasWorker && Live(s.c) && !s.c.state.VmRunning? && w in s.c.waiters && w.purpose.ForStepped?
    && s.w.running && s.w.paused && !s.w.stopping && s.w.steps == 1 && s.w.loop.Parked?
    && (forall i :: 0 <= i < |s.down| ==> QuietCommand(s.down[i]))
    && (forall i :: 0 <= i < |s.up| ==> ReplyTag(s.up[i]).Some?)
  }

  predicate QuietCommand(m: Command) {
    m.SetBackgrounded? || m.RequestSnapshot? || m.CacheWrite?
  }

  /** Nothing is under way at all, and no other call waits. */
  predicate StrandedAlone(s: System, w: Waiter) {
    Stranded(s, w) && s.c.state.VmPaused? && s.c.waiters == [w] && s.up == [] && s.down == []
  }

  /** From every run that has paused the VM and not yet parked the loop, two overlapping `step()` calls can
      leave the second waiting for a step that the parked worker still owes. */
  lemma OverlappingStepsStrand(t: nat, es: Schedule) returns (es': Schedule)
    requires PausedBetweenSlices(RunFrom(t, es))
    ensures es <= es' && StrandedAlone(RunFrom(t, es'), Waiter(RunFrom(t, es).c.nextCall + 1, ForStepped))
  {
    var taken := TwoStepsTaken(t, es);
    var turned := LoopRunsOne(t, taken);
    var a := HearsNothing(t, turned);
    var b := HearsNothing(t, a);
    var c := HearsNothing(t, b);
    var n := RunFrom(t, es).c.nextCall;
    es' := HearsOneStep(t, c, Waiter(n, ForStepped), Waiter(n + 1, ForStepped));
  }

  // ---- How long a stranded call waits -----------------------------------------------------------------

  /** Anything but a resume, a step or a shutdown. */
  predicate Patient(e: SysEvent) {
    e.Client? ==> !e.e.CallResume? && !e.e.CallStep? && !e.e.CallShutdown?
  }

  lemma ClientLeavesStranded(s: System, e: Event, now: int, w: Waiter)
    requires Stranded(s, w) && IsCall(e) && Patient(Client(e))
    ensures Stranded(SysNext(s, Client(e), now), w)
  {
    CallShape(s.c, e, now);
  }

  lemma WorkerLeavesStranded(s: System, clock: nat, now: int, w: Waiter)
    requires Stranded(s, w) && Possible(s, WorkerTakes(clock))
    ensures Stranded(SysNext(s, WorkerTakes(clock), now), w)
  {
    assert QuietCommand(s.down[0]);
  }

  lemma DataReplyLeaves(c: Coord, r: Reply, now: int, w: Waiter)
    requires w in c.waiters && w.purpose.ForStepped? && ReplyTag(r).Some?
    ensures w in Received(c, r, now).0.waiters
  {
    var i := FirstFor(c.waiters, AckOf(r).value);
    if i < |c.waiters| {
      var k :| 0 <= k < |c.waiters| && c.waiters[k] == w;
      var rest := RemoveAt(c.waiters, i);
      assert k != i && rest[if k < i then k else k - 1] == w;
    }
  }

  lemma ReplyLeavesStranded(s: System, now: int, w: Waiter)
    requires Stranded(s, w) && Possible(s, Deliver)
    ensures Stranded(SysNext(s, Deliver, now), w)
  {
    DataReplyIsNotHeard(s.c, s.up[0], now);
    DataReplyLeaves(s.c, s.up[0], now, w);
    DataReplyStaysLive(s.c, s.up[0], now);
    var s' := SysNext(s, Deliver, now);
    assert s'.down == s.down;
  }

  lemma DataReplyStaysLive(c: Coord, r: Reply, now: int)
    requires Live(c) && ReplyTag(r).Some?
    ensures Live(Received(c, r, now).0)
  {
  }

  /** One event: the call still waits, or the worker is gone. */
  lemma EventLeavesStranded(s: System, e: SysEvent, now: int, w: Waiter)
    requires Stranded(s, w) && Possible(s, e) && Patient(e)
    ensures var s' := SysNext(s, e, now); s'.c.hasWorker ==> Stranded(s', w)
  {
    match e
    case Client(call) => ClientLeavesStranded(s, call, now, w);
    case WorkerTakes(clock) => WorkerLeavesStranded(s, clock, now, w);
    case Deliver => ReplyLeavesStranded(s, now, w);
    case _ =>
  }

  lemma RunLast(t: nat, es: Schedule, more: Schedule)
    requires more != []
    ensures var s := RunFrom(t, es + more[..|more| - 1]);
            var (e, now) := more[|more| - 1];
            RunFrom(t, es + more) == if Possible(s, e) then SysNext(s, e, now) else s
  {
    assert (es + more)[..|es + more| - 1] == es + more[..|more| - 1];
  }

  /** The worker is there from the end of `es` to the end of `more`. */
  ghost predicate WorkerStays(t: nat, es: Schedule, more: Schedule) {
    forall k :: 0 <= k <= |more| ==> RunFrom(t, es + more[..k]).c.hasWorker
  }

  lemma StaysBefore(t: nat, es: Schedule, more: Schedule)
    requires more != [] && WorkerStays(t, es, more)
    ensures WorkerStays(t, es, more[..|more| - 1]) && RunFrom(t, es + more).c.hasWorker
  {
    var pre := more[..|more| - 1];
    forall k | 0 <= k <= |pre| ensures RunFrom(t, es + pre[..k]).c.hasWorker { assert pre[..k] == more[..k]; }
    assert more[..|more|] == more;
  }

  /** For as long as the worker exists, whatever else the client, the worker and the environment do, a
      stranded call goes on waiting until there is a further resume or step. */
  lemma {:induction false} StrandedUntilResumeOrStep(t: nat, es: Schedule, more: Schedule, w: Waiter)
    requires Stranded(RunFrom(t, es), w) && WorkerStays(t, es, more)
    requires forall k :: 0 <= k < |more| ==> Patient(more[k].0)
    ensures Stranded(RunFrom(t, es + more), w)
    decreases |more|
  {
    if more == [] {
      assert es + more == es;
    } else {
      var pre := more[..|more| - 1];
      StaysBefore(t, es, more);
      StrandedUntilResumeOrStep(t, es, pre, w);
      RunLast(t, es, more);
      var s := RunFrom(t, es + pre);
      var (e, now) := more[|more| - 1];
      if Possible(s, e) { EventLeavesStranded(s, e, now, w); }
    }
  }

  /** Its own timeout, or any other, is one way in which the worker goes. */
  lemma TimeoutEndsWorker(s: System, i: nat, now: int)
    requires Live(s.c) && i < |s.c.waiters|
    ensures !SysNext(s, Environment(AckTimeout(i)), now).c.hasWorker
  {
  }

  lemma ResumedHeard(c: Coord, w: Waiter, own: Waiter)
    requires c.waiters == [w, own] && w.purpose.ForStepped? && own.purpose.ForResume?
    ensures var (c', sent) := Received(c, Resumed, 0);
            c'.waiters == [w] && c'.hasWorker == c.hasWorker && (Live(c) ==> Live(c')) && sent == []
  {
    assert FirstFor(c.waiters, AckResumed) == 1 by { assert c.waiters[0] == w && c.waiters[1] == own; }
    assert RemoveAt(c.waiters, 1) == [w];
  }

  /** An acknowledgement for the only call that waits. */
  lemma OnlyCallHeard(c: Coord, w: Waiter, r: Reply)
    requires c.waiters == [w] && !r.Fatal? && AckOf(r) == Some(Awaits(w.purpose))
    ensures Received(c, r, 0) == Continued(c.(waiters := []), w, r, 0)
  {
    assert FirstFor(c.waiters, Awaits(w.purpose)) == 0 && RemoveAt(c.waiters, 0) == [];
    AwaitedReply(c, r, 0);
  }

  lemma ResumeTaken(t: nat, es: Schedule, w: Waiter) returns (es': Schedule)
    requires StrandedAlone(RunFrom(t, es), w)
    ensures es <= es'
    ensures var s, s' := RunFrom(t, es), RunFrom(t, es');
            && s'.c.hasWorker && Live(s'.c) && s'.c.waiters == [w, Waiter(s.c.nextCall, ForResume)] && s'.down == []
            && |s'.up| == 4 && s'.up[0].Resumed? && s'.up[1].Heartbeat? && s'.up[2].Stepped? && s'.up[3].Paused?
            && s'.w.steps == 0
  {
    es' := Extend(t, es, Client(CallResume));
    ResumeRunsOwedStep(RunFrom(t, es').w, 1);
    es' := Extend(t, es', WorkerTakes(1));
  }

  /** A further `resume()` has the parked worker run the step it owes, and the stranded call returns. */
  lemma ResumeSettlesStranded(t: nat, es: Schedule, w: Waiter) returns (es': Schedule)
    requires StrandedAlone(RunFrom(t, es), w)
    ensures es <= es'
    ensures var s' := RunFrom(t, es');
            && s'.c.hasWorker && s'.c.waiters == [] && s'.w.steps == 0
            && Settlement(w.call, Some(ForStepPaused), Returned) in s'.c.settled
  {
    var taken := ResumeTaken(t, es, w);
    var s1 := RunFrom(t, taken);
    ResumedHeard(s1.c, w, Waiter(RunFrom(t, es).c.nextCall, ForResume));
    es' := Extend(t, taken, Deliver);
    es' := HearsNothing(t, es');
    es' := HearsLastStep(t, es', w);
  }

  lemma HearsStepped(t: nat, es: Schedule, w: Waiter) returns (es': Schedule)
    requires var s := RunFrom(t, es);
             s.c.hasWorker && s.c.waiters == [w] && w.purpose.ForStepped? && s.up != [] && s.up[0].Stepped?
    ensures es <= es'
    ensures var s, s' := RunFrom(t, es), RunFrom(t, es');
            && s'.c == s.c.(waiters := [Waiter(w.call, ForStepPaused)]) && s'.up == s.up[1..] && s'.w == s.w
  {
    var s := RunFrom(t, es);
    OnlyCallHeard(s.c, w, s.up[0]);
    assert [] + [Waiter(w.call, ForStepPaused)] == [Waiter(w.call, ForStepPaused)];
    es' := Extend(t, es, Deliver);
  }

  lemma HearsPaused(t: nat, es: Schedule, w: Waiter) returns (es': Schedule)
    requires var s := RunFrom(t, es);
             s.c.hasWorker && s.c.waiters == [w] && w.purpose.ForStepPaused? && s.up != [] && s.up[0].Paused?
    ensures es <= es'
    ensures var s, s' := RunFrom(t, es), RunFrom(t, es');
            && s'.c.hasWorker && s'.c.waiters == [] && s'.w == s.w
            && s'.c.settled == s.c.settled + [Settlement(w.call, Some(w.purpose), Returned)]
  {
    var s := RunFrom(t, es);
    OnlyCallHeard(s.c, w, s.up[0]);
    es' := Extend(t, es, Deliver);
  }

  lemma HearsLastStep(t: nat, es: Schedule, w: Waiter) returns (es': Schedule)
    requires var s := RunFrom(t, es);
             && s.c.hasWorker && s.c.waiters == [w] && w.purpose.ForStepped?
             && |s.up| == 2 && s.up[0].Stepped? && s.up[1].Paused?
    ensures es <= es'
    ensures var s, s' := RunFrom(t, es), RunFrom(t, es');
            && s'.c.hasWorker && s'.c.waiters == [] && s'.w == s.w
            && s'.c.settled == s.c.settled + [Settlement(w.call, Some(ForStepPaused), Returned)]
  {
    var a := HearsStepped(t, es, w);
    es' := HearsPaused(t, a, Waiter(w.call, ForStepPaused));
  }

  lemma StepTaken(t: nat, es: Schedule, w: Waiter) returns (es': Schedule)
    requires StrandedAlone(RunFrom(t, es), w)
    ensures es <= es'
    ensures var s, s' := RunFrom(t, es), RunFrom(t, es');
            && s'.c.hasWorker && Live(s'.c) && s'.c.waiters == [w, Waiter(s.c.nextCall, ForStepped)] && s'.down == []
            && |s'.up| == 4 && s'.up[0].Stepping? && s'.up[1].Heartbeat? && s'.up[2].Stepped? && s'.up[3].Paused?
            && s'.w.running && s'.w.paused && !s'.w.stopping && s'.w.steps == 1 && s'.w.loop.Yielded?
            && s'.w.backgrounded == s.w.backgrounded && s'.w.limits == s.w.limits
  {
    es' := Extend(t, es, Client(CallStep));
    ParkedStepRunsAtOnce(RunFrom(t, es').w, 1);
    es' := Extend(t, es', WorkerTakes(1));
  }

  /** The paused loop parks, after its throttle sleep if there is one. */
  lemma Parks(t: nat, es: Schedule) returns (es': Schedule)
    requires var w := RunFrom(t, es).w; w.running && w.paused && !w.stopping && w.loop.Yielded?
    ensures es <= es'
    ensures var s, s' := RunFrom(t, es), RunFrom(t, es'); s' == s.(w := s.w.(loop := Parked))
  {
    var s := RunFrom(t, es);
    es' := Extend(t, es, WorkerTimer(1));
    if s.w.backgrounded && s.w.limits.throttleMs > 0 {
      es' := Extend(t, es', WorkerTimer(1));
    }
    assert RunFrom(t, es').up == s.up;
  }

  /** A further `step()` also lets the stranded call return, but is left stranded in its place. */
  lemma StepPassesItOn(t: nat, es: Schedule, w: Waiter) returns (es': Schedule)
    requires StrandedAlone(RunFrom(t, es), w)
    ensures es <= es' && StrandedAlone(RunFrom(t, es'), Waiter(RunFrom(t, es).c.nextCall, ForStepped))
    ensures Settlement(w.call, Some(ForStepPaused), Returned) in RunFrom(t, es').c.settled
  {
    var own := Waiter(RunFrom(t, es).c.nextCall, ForStepped);
    es' := StepTaken(t, es, w);
    es' := Parks(t, es');
    es' := HearsNothing(t, es');
    es' := HearsNothing(t, es');
    es' := HearsOneStep(t, es', w, own);
  }

  // ---- Calls that outlive their worker ------------------------------------------------------------------

  /** The worker goes without a teardown: it exits with code 0, or is shut down. */
  function Ended(s: System, exits: bool): System
    requires s.c.hasWorker
  {
    if exits then SysNext(s, Environment(WorkerExited(0)), 0) else SysNext(s, Client(CallShutdown), 0)
  }

  lemma EndedKeepsWaiters(s: System, exits: bool)
    requires s.c.hasWorker && Live(s.c)
    ensures var c := Ended(s, exits).c;
            && !c.hasWorker && !c.state.VmError? && c.waiters == s.c.waiters && c.errors == s.c.errors
            && s.c.nextCall <= c.nextCall
  {
  }

  /** The timeout of some call reports an error. */
  ghost predicate LateError(c: Coord) {
    exists i: nat :: i < |c.waiters| &&
      var c' := Next(c, AckTimeout(i), 0).0;
      c'.errors == c.errors + 1 && c'.state.VmError? && !c'.hasWorker
  }

  /** After every run, a worker that goes without a teardown is followed by an 'error' event, and by state
      'error', from the timeout of a call if and only if some call was waiting. */
  lemma LateErrorExactly(t: nat, es: Schedule, exits: bool)
    requires RunFrom(t, es).c.hasWorker && Live(RunFrom(t, es).c)
    ensures LateError(Ended(RunFrom(t, es), exits).c) <==> RunFrom(t, es).c.waiters != []
  {
    var s := RunFrom(t, es);
    EndedKeepsWaiters(s, exits);
    var c := Ended(s, exits).c;
    if s.c.waiters != [] {
      var i: nat := 0;
      var c' := Next(c, AckTimeout(i), 0).0;
      assert c'.errors == c.errors + 1 && c'.state.VmError? && !c'.hasWorker;
    }
  }

  /** The worker goes in that way, and a new one is started at once. */
  function Replaced(s: System, exits: bool, mode: Mode, limits: Limits): System
    requires s.c.hasWorker
  {
    SysNext(Ended(s, exits), NewWorker(mode, limits, true), 0)
  }

  lemma ReplacedState(s: System, exits: bool, mode: Mode, limits: Limits)
    requires s.c.hasWorker && Live(s.c)
    ensures var c := Replaced(s, exits, mode, limits).c;
            && c.hasWorker && Live(c) && c.state.VmStarting? && |c.waiters| == |s.c.waiters| + 1
            && c.waiters[..|s.c.waiters|] == s.c.waiters && c.waiters[|s.c.waiters|].call >= s.c.nextCall
  {
    EndedKeepsWaiters(s, exits);
  }

  /** The timeout of a call made before the new worker started takes the new worker down. */
  ghost predicate OldTimeoutKills(c: Coord, start: nat) {
    exists i: nat :: i < |c.waiters| && c.waiters[i].call < start && !Next(c, AckTimeout(i), 0).0.hasWorker
  }

  /** After every run, replacing the worker, by a shutdown or after exit code 0, exposes the new one to the
      timeouts of old calls if and only if some call was waiting. */
  lemma LeftOverTimeoutExactly(t: nat, es: Schedule, exits: bool, mode: Mode, limits: Limits)
    requires RunFrom(t, es).c.hasWorker && Live(RunFrom(t, es).c)
    ensures var s := RunFrom(t, es);
            OldTimeoutKills(Replaced(s, exits, mode, limits).c, s.c.nextCall) <==> s.c.waiters != []
  {
    var s := RunFrom(t, es);
    var c := Replaced(s, exits, mode, limits).c;
    NumberedThroughout(t, es);
    ReplacedState(s, exits, mode, limits);
    if s.c.waiters != [] {
      var i: nat := 0;
      assert c.waiters[..|s.c.waiters|][i] == s.c.waiters[0] && s.c.waiters[0] in s.c.waiters;
      assert !Next(c, AckTimeout(i), 0).0.hasWorker;
    }
  }

  /** A live worker that the coordinator believes stopped. */
  predicate Forgotten(c: Coord) {
    c.hasWorker && c.state.VmStopped?
  }

  /** `pause()`, `resume()` and `step()` then return without doing anything, and the watchdog never fires. */
  lemma ForgottenIsOutOfReach(c: Coord, e: Event, now: int)
    requires Forgotten(c) && (ControlCall(e) || e.WatchdogTick?) && Enabled(c, e)
    ensures var (c', sent) := Next(c, e, now);
            && sent == [] && Forgotten(c') && c'.waiters == c.waiters && c'.errors == c.errors
            && (ControlCall(e) ==> c'.settled == c.settled + [Settlement(c.nextCall, None, Returned)])
            && (e.WatchdogTick? ==> c' == c)
  {
  }

  /** A `shutdown()` resolves while a worker exists: `start()` was called before it did. */
  predicate EarlyStart(c: Coord, e: Event) {
    e.TerminateDone? && Enabled(c, e) && c.hasWorker
  }

  /** Otherwise a coordinator with a worker is live and knows it. */
  predicate Known(c: Coord) {
    c.hasWorker ==> Live(c) && !c.state.VmStopped?
  }

  lemma ReceivedForgetsNothing(c: Coord, r: Reply, now: int)
    requires Known(c)
    ensures Known(Received(c, r, now).0)
  {
    if !r.Fatal? {
      if AckOf(r).Some? && FirstFor(c.waiters, AckOf(r).value) < |c.waiters| {
        AwaitedReply(c, r, now);
      } else {
        UnawaitedReply(c, r, now);
      }
    }
  }

  lemma NextForgetsExactly(c: Coord, e: Event, now: int)
    requires Known(c) && Enabled(c, e)
    ensures Forgotten(Next(c, e, now).0) <==> EarlyStart(c, e)
    ensures !EarlyStart(c, e) ==> Known(Next(c, e, now).0)
  {
    match e
    case Receive(r) => ReceivedForgetsNothing(c, r, now);
    case _ =>
  }

  ghost predicate NoEarlyStart(t: nat, es: Trace) {
    forall k :: 0 <= k < |es| ==> !EarlyStart(After(t, es[..k]), es[k].0)
  }

  lemma {:induction false} KnownThroughout(t: nat, es: Trace)
    requires NoEarlyStart(t, es)
    ensures Known(After(t, es))
  {
    if es != [] {
      var pre := es[..|es| - 1];
      forall k | 0 <= k < |pre| ensures !EarlyStart(After(t, pre[..k]), pre[k].0) { assert pre[..k] == es[..k]; }
      KnownThroughout(t, pre);
      var (e, now) := es[|es| - 1];
      assert !EarlyStart(After(t, pre), e);
      if Enabled(After(t, pre), e) { NextForgetsExactly(After(t, pre), e, now); }
    }
  }

  lemma EarlyStartForgets(t: nat, es: Trace, k: nat)
    requires k < |es| && EarlyStart(After(t, es[..k]), es[k].0)
    ensures Forgotten(After(t, es[..k + 1]))
  {
    assert es[..k + 1][..k] == es[..k];
  }

  ghost predicate NeverForgotten(t: nat, es: Trace) {
    forall k :: 0 <= k <= |es| ==> !Forgotten(After(t, es[..k]))
  }

  /** In every run of the coordinator, a worker is forgotten at some point if and only if a `shutdown()`
      resolves after the next `start()` has been called. */
  lemma ForgottenExactly(t: nat, es: Trace)
    ensures NeverForgotten(t, es) <==> NoEarlyStart(t, es)
  {
    if NoEarlyStart(t, es) {
      forall k | 0 <= k <= |es| ensures !Forgotten(After(t, es[..k])) {
        var pre := es[..k];
        forall i | 0 <= i < |pre| ensures !EarlyStart(After(t, pre[..i]), pre[i].0) { assert pre[..i] == es[..i]; }
        KnownThroughout(t, pre);
      }
    }
    if k :| 0 <= k < |es| && EarlyStart(After(t, es[..k]), es[k].0) { EarlyStartForgets(t, es, k); }
  }

  // ---- How long a worker stays forgotten ----------------------------------------------------------------

  /** The coordinator after a further trace. */
  function Later(c: Coord, es: Trace): Coord
    decreases |es|
  {
    if es == [] then c else
      var (e, now) := es[0];
      Later(if Enabled(c, e) then Next(c, e, now).0 else c, es[1..])
  }

  /** No shutdown, failure or exit takes the worker on the way. */
  predicate KeepsWorker(c: Coord, es: Trace)
    decreases |es|
  {
    c.hasWorker && (es == [] ||
      var (e, now) := es[0];
      KeepsWorker(if Enabled(c, e) then Next(c, e, now).0 else c, es[1..]))
  }

  predicate NoControlWaiting(c: Coord) {
    forall i :: 0 <= i < |c.waiters| ==> ControlPurpose(c.waiters[i]).None?
  }

  /** Forgotten, with no acknowledgement to come that would set the state. */
  predicate ForgottenForGood(c: Coord) {
    Forgotten(c) && Live(c) && NoControlWaiting(c)
  }

  lemma ReceivedKeepsForgotten(c: Coord, r: Reply, now: int)
    requires ForgottenForGood(c) && !r.Fatal?
    ensures ForgottenForGood(Received(c, r, now).0)
  {
    if AckOf(r).Some? {
      var i := FirstFor(c.waiters, AckOf(r).value);
      if i < |c.waiters| { assert ControlPurpose(c.waiters[i]).None?; }
    }
  }

  lemma NextKeepsForgotten(c: Coord, e: Event, now: int)
    requires ForgottenForGood(c) && Enabled(c, e) && Next(c, e, now).0.hasWorker
    ensures ForgottenForGood(Next(c, e, now).0)
  {
    match e
    case Receive(r) => if !r.Fatal? { ReceivedKeepsForgotten(c, r, now); }
    case _ =>
  }

  lemma {:induction false} StaysForgotten(c: Coord, es: Trace)
    requires ForgottenForGood(c) && KeepsWorker(c, es)
    ensures ForgottenForGood(Later(c, es))
    decreases |es|
  {
    if es != [] {
      var (e, now) := es[0];
      if Enabled(c, e) {
        NextKeepsForgotten(c, e, now);
        StaysForgotten(Next(c, e, now).0, es[1..]);
      } else {
        StaysForgotten(c, es[1..]);
      }
    }
  }

  /** The acknowledgement that a control call waits for. */
  function AckFor(p: Purpose): Reply {
    match p
    case ForReady(_) => Ready
    case ForStarted => Started
    case ForPause => Paused
    case ForResume => Resumed
    case ForStepped => Stepped(0)
    case _ => Paused
  }

  /** Some call, the first in its queue, goes on as `w` would. */
  lemma AckFinds(c: Coord, w: Waiter) returns (i: nat)
    requires w in c.waiters && ControlPurpose(w).Some?
    ensures i < |c.waiters| && Awaits(c.waiters[i].purpose) == Awaits(w.purpose)
    ensures Received(c, AckFor(w.purpose), 0) ==
            Continued(c.(waiters := RemoveAt(c.waiters, i)), c.waiters[i], AckFor(w.purpose), 0)
  {
    var k :| 0 <= k < |c.waiters| && c.waiters[k] == w;
    i := FirstFor(c.waiters, Awaits(w.purpose));
    assert i <= k;
    AwaitedReply(c, AckFor(w.purpose), 0);
  }

  predicate SetsState(p: Purpose) {
    p.ForStarted? || p.ForPause? || p.ForResume? || p.ForStepPaused?
  }

  lemma AckSetsState(c: Coord, w: Waiter)
    requires c.hasWorker && w in c.waiters && SetsState(w.purpose)
    ensures var c' := Received(c, AckFor(w.purpose), 0).0;
            c'.hasWorker && (c'.state.VmRunning? || c'.state.VmPaused?)
  {
    var i := AckFinds(c, w);
  }

  /** The calls that await two acknowledgements wait for one that sets the state after the first. */
  lemma AckRenews(c: Coord, w: Waiter) returns (v: Waiter)
    requires c.hasWorker && w in c.waiters && (w.purpose.ForReady? || w.purpose.ForStepped?)
    ensures var c' := Received(c, AckFor(w.purpose), 0).0;
            c'.hasWorker && v in c'.waiters && SetsState(v.purpose)
  {
    var i := AckFinds(c, w);
    v := Waiter(c.waiters[i].call, if w.purpose.ForReady? then ForStarted else ForStepPaused);
    var rest := RemoveAt(c.waiters, i);
    assert (rest + [v])[|rest|] == v;
  }

  lemma LaterOne(c: Coord, e: Event, es: Trace)
    requires c.hasWorker && Enabled(c, e)
    ensures Later(c, [(e, 0)] + es) == Later(Next(c, e, 0).0, es)
    ensures KeepsWorker(c, [(e, 0)] + es) <==> KeepsWorker(Next(c, e, 0).0, es)
  {
    assert ([(e, 0)] + es)[1..] == es;
  }

  lemma AckEndsAtOnce(c: Coord, w: Waiter) returns (es: Trace)
    requires c.hasWorker && w in c.waiters && SetsState(w.purpose)
    ensures KeepsWorker(c, es) && !Forgotten(Later(c, es))
  {
    var e := Receive(AckFor(w.purpose));
    AckSetsState(c, w);
    LaterOne(c, e, []);
    es := [(e, 0)] + [];
  }

  /** So one or two acknowledgements end it. */
  lemma AckEndsForgotten(c: Coord, w: Waiter) returns (es: Trace)
    requires c.hasWorker && w in c.waiters && ControlPurpose(w).Some?
    ensures KeepsWorker(c, es) && !Forgotten(Later(c, es))
  {
    if SetsState(w.purpose) {
      es := AckEndsAtOnce(c, w);
    } else {
      var e := Receive(AckFor(w.purpose));
      var v := AckRenews(c, w);
      var rest := AckEndsAtOnce(Next(c, e, 0).0, v);
      LaterOne(c, e, rest);
      es := [(e, 0)] + rest;
    }
  }

  /** A forgotten worker stays forgotten in every continuation that does not lose it if and only if no
      control call is waiting; otherwise, as when the new worker has not yet reported 'started', the
      acknowledgements of that call set the state again. */
  lemma ForgottenLastsExactly(c: Coord)
    requires Forgotten(c) && Live(c)
    ensures (forall es :: KeepsWorker(c, es) ==> Forgotten(Later(c, es))) <==> NoControlWaiting(c)
  {
    if NoControlWaiting(c) {
      forall es | KeepsWorker(c, es) ensures Forgotten(Later(c, es)) { StaysForgotten(c, es); }
    } else {
      var i :| 0 <= i < |c.waiters| && ControlPurpose(c.waiters[i]).Some?;
      var es := AckEndsForgotten(c, c.waiters[i]);
    }
  }

  lemma ExtendTrace(t: nat, es: Trace, e: Event) returns (es': Trace)
    requires Enabled(After(t, es), e)
    ensures After(t, es') == Next(After(t, es), e, 0).0
  {
    es' := es + [(e, 0)];
    assert es'[..|es|] == es;
  }

  lemma StartsUp(t: nat, es: Trace, mode: Mode) returns (es': Trace)
    requires !After(t, es).hasWorker && After(t, es).waiters == []
    ensures var c, c' := After(t, es), After(t, es');
            c'.hasWorker && Live(c') && c'.waiters == [] && c'.terminating == c.terminating
  {
    var n := After(t, es).nextCall;
    var a := ExtendTrace(t, es, CallStart(mode));
    assert After(t, a).waiters == [Waiter(n, ForReady(mode))];
    OnlyCallHeard(After(t, a), Waiter(n, ForReady(mode)), Ready);
    var b := ExtendTrace(t, a, Receive(Ready));
    assert After(t, b).waiters == [Waiter(n, ForStarted)];
    OnlyCallHeard(After(t, b), Waiter(n, ForStarted), Started);
    es' := ExtendTrace(t, b, Receive(Started));
  }

  /** A start that has completed before the shutdown ahead of it resolves leaves the worker forgotten for
      good. */
  lemma ForgottenForGoodRun(t: nat, mode: Mode) returns (es: Trace)
    ensures ForgottenForGood(After(t, es))
  {
    es := StartsUp(t, [], mode);
    es := ExtendTrace(t, es, CallShutdown);
    es := StartsUp(t, es, mode);
    es := ExtendTrace(t, es, TerminateDone);
  }
}
