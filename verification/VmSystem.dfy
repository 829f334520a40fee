/** Coordinator and worker joined by two FIFO channels (src/vmCoordinator.js, src/cpuWorker.js).

    Runs may contain any overlap of calls, any interleaving of deliveries, timers, failures and
    shutdowns, and any number of restarts. */
module VmSystem {
  import opened Prelude
  import opened CpuWorker
  import opened VmCoordinator

  /** `base` is the instruction count when the latest step was requested. */
  datatype System = System(c: Coord, w: Worker, down: seq<Command>, up: seq<Reply>, base: nat)

  datatype SysEvent =
    | Client(e: Event)
    | Environment(e: Event)
    | NewWorker(mode: Mode, limits: Limits, ramFits: bool)
    | WorkerTakes(clock: nat)
    | WorkerTimer(clock: nat)
    | Deliver

  predicate IsCall(e: Event) {
    || e.CallPause? || e.CallResume? || e.CallStep? || e.CallSetBackgrounded? || e.CallSnapshot? || e.CallCacheWrite?
  }

  predicate IsFault(e: Event) {
    e.WorkerErrored? || e.WorkerExited? || e.WatchdogTick? || e.AckTimeout?
  }

  predicate Possible(s: System, e: SysEvent) {
    match e
    case Client(call) => IsCall(call) || call.CallShutdown?
    case Environment(f) => (IsFault(f) || f.TerminateDone?) && Enabled(s.c, f)
    case NewWorker(_, _, _) => true
    case WorkerTakes(_) => s.down != [] && Alive(s.w)
    case WorkerTimer(_) => Ticking(s.w)
    case Deliver => s.up != [] && s.c.hasWorker
  }

  function SysNext(s: System, e: SysEvent, now: int): System
    requires Possible(s, e)
  {
    match e
    case Client(call) =>
      var (c, sent) := Next(s.c, call, now);
      s.(c := c, down := s.down + sent, base := if call.CallStep? then s.w.cpu.total else s.base)
    case Environment(f) => s.(c := Next(s.c, f, now).0)
    case NewWorker(mode, limits, ramFits) =>
      var c := Next(s.c, CallStart(mode), now).0;
      if s.c.hasWorker then s.(c := c)
      else if ramFits then System(c, Fresh(limits), [], [Ready], s.base)
      else System(c, Fresh(limits).(loop := Exited(1)), [], [Fatal], s.base)
    case WorkerTakes(clock) =>
      var (w, posted) := Handled(s.w, s.down[0], clock);
      s.(w := w, down := s.down[1..], up := s.up + posted)
    case WorkerTimer(clock) =>
      var (w, posted) := LoopResumed(s.w, clock);
      s.(w := w, up := s.up + posted)
    case Deliver =>
      var (c, sent) := Next(s.c, Receive(s.up[0]), now);
      s.(c := c, down := s.down + sent, up := s.up[1..])
  }

  function Idle(timeoutMs: nat): System {
    System(Created(timeoutMs), Fresh(Limits(0, 0, 0, 0)).(loop := Exited(0)), [], [], 0)
  }

  type Schedule = seq<(SysEvent, int)>

  function RunFrom(t: nat, es: Schedule): System {
    if es == [] then Idle(t) else
      var s := RunFrom(t, es[..|es| - 1]);
      var (e, now) := es[|es| - 1];
      if Possible(s, e) then SysNext(s, e, now) else s
  }

  // ---- Filtering a channel or a queue --------------------------------------------------------

  function Collect<T, U>(s: seq<T>, f: T -> Option<U>): seq<U> {
    if s == [] then [] else
      (match f(s[0]) case None => [] case Some(u) => [u]) + Collect(s[1..], f)
  }

  lemma {:induction false} CollectAppend<T, U>(a: seq<T>, b: seq<T>, f: T -> Option<U>)
    ensures Collect(a + b, f) == Collect(a, f) + Collect(b, f)
  {
    if a == [] {
      assert a + b == b;
    } else {
      assert (a + b)[1..] == a[1..] + b;
      CollectAppend(a[1..], b, f);
    }
  }

  lemma CollectOne<T, U>(x: T, f: T -> Option<U>)
    ensures Collect([x], f) == match f(x) case None => [] case Some(u) => [u]
  {
    assert Collect([x][1..], f) == [];
  }

  lemma CollectSplit<T, U>(s: seq<T>, i: nat, f: T -> Option<U>)
    requires i < |s|
    ensures Collect(s, f) == Collect(s[..i], f) + (Collect([s[i]], f) + Collect(s[i + 1..], f))
  {
    assert s == s[..i] + s[i..] && s[i..] == [s[i]] + s[i + 1..];
    CollectAppend(s[..i], s[i..], f);
    CollectAppend([s[i]], s[i + 1..], f);
  }

  lemma CollectRemove<U>(ws: seq<Waiter>, i: nat, f: Waiter -> Option<U>)
    requires i < |ws|
    ensures f(ws[i]).None? ==> Collect(RemoveAt(ws, i), f) == Collect(ws, f)
    ensures f(ws[i]).Some? && (forall j :: 0 <= j < i ==> f(ws[j]).None?) ==>
              Collect(ws, f) == [f(ws[i]).value] + Collect(RemoveAt(ws, i), f)
    ensures |Collect(ws, f)| == |Collect(RemoveAt(ws, i), f)| + if f(ws[i]).Some? then 1 else 0
    ensures f(ws[i]).Some? ==> f(ws[i]).value in Collect(ws, f)
  {
    var before, own, after := Collect(ws[..i], f), Collect([ws[i]], f), Collect(ws[i + 1..], f);
    assert Collect(ws, f) == before + (own + after) by { CollectSplit(ws, i, f); }
    assert Collect(RemoveAt(ws, i), f) == before + after by { CollectAppend(ws[..i], ws[i + 1..], f); }
    assert own == match f(ws[i]) case None => [] case Some(u) => [u] by { CollectOne(ws[i], f); }
    if forall j :: 0 <= j < i ==> f(ws[j]).None? {
      assert before == [] by { CollectNothing(ws[..i], f); }
    }
    if f(ws[i]).Some? { assert (before + (own + after))[|before|] == f(ws[i]).value; }
  }

  lemma {:induction false} CollectNothing<T, U>(s: seq<T>, f: T -> Option<U>)
    requires forall i :: 0 <= i < |s| ==> f(s[i]).None?
    ensures Collect(s, f) == []
  {
    if s != [] { CollectNothing(s[1..], f); }
  }

  /** Where the first collected element sits. */
  lemma {:induction false} CollectFirst<T, U>(s: seq<T>, f: T -> Option<U>) returns (k: nat)
    requires Collect(s, f) != []
    ensures k < |s| && f(s[k]) == Some(Collect(s, f)[0])
    ensures forall i :: 0 <= i < k ==> f(s[i]).None?
  {
    if f(s[0]).Some? {
      k := 0;
    } else {
      k := CollectFirst(s[1..], f);
      k := k + 1;
    }
  }

  // ---- Reply routing --------------------------------------------------------------------------

  /** A data call, identified by who made it and what the worker will echo. */
  datatype Tag = SnapshotTag(call: nat, reason: string) | CacheTag(call: nat, requestId: nat)

  function WaiterTag(w: Waiter): Option<Tag> {
    match w.purpose
    case ForSnapshot(reason) => Some(SnapshotTag(w.call, reason))
    case ForCacheWrite(id) => Some(CacheTag(w.call, id))
    case _ => None
  }

  function CommandTag(m: Command): Option<Tag> {
    match m
    case RequestSnapshot(reason, call) => Some(SnapshotTag(call, reason))
    case CacheWrite(id, _, _, _, _, call) => Some(CacheTag(call, id))
    case _ => None
  }

  function ReplyTag(r: Reply): Option<Tag> {
    match r
    case SnapshotTaken(reason, _, call) => Some(SnapshotTag(call, reason))
    case CacheWriteResult(id, _, _, _, call) => Some(CacheTag(call, id))
    case _ => None
  }

  /** Every answered data call got the answer to its own request. */
  predicate RightAnswer(s: Settlement) {
    match s.outcome
    case Mismatched => false
    case GotSnapshot(reason, from) => s.purpose == Some(ForSnapshot(reason)) && from == s.call
    case GotCacheResult(id, from) => s.purpose == Some(ForCacheWrite(id)) && from == s.call
    case _ => true
  }

  predicate RightAnswers(ss: seq<Settlement>) {
    forall i :: 0 <= i < |ss| ==> RightAnswer(ss[i])
  }

  predicate Live(c: Coord) {
    !c.terminated && !c.state.VmError?
  }

  /** Waiting data calls are exactly, and in order, the replies under way and the requests not yet taken. */
  ghost predicate RouteInv(s: System) {
    && (s.c.hasWorker ==> Live(s.c))
    && RightAnswers(s.c.settled)
    && (s.c.hasWorker ==>
          Collect(s.c.waiters, WaiterTag) == Collect(s.up, ReplyTag) + Collect(s.down, CommandTag))
  }

  lemma LoopPostsNoData(w: Worker, clock: nat)
    ensures Collect(LoopTop(w, clock).1, ReplyTag) == []
  {
    CollectNothing(LoopTop(w, clock).1, ReplyTag);
  }

  lemma HandledEchoes(w: Worker, m: Command, clock: nat)
    requires Alive(w)
    ensures Collect(Handled(w, m, clock).1, ReplyTag) == Collect([m], CommandTag)
  {
    CollectOne(m, CommandTag);
    var posted := Handled(w, m, clock).1;
    if m.RequestSnapshot? || m.CacheWrite? {
      CollectOne(posted[0], ReplyTag);
    } else {
      CollectNothing(posted, ReplyTag);
    }
  }

  /** The request a client call sends, and what it then waits for. */
  function Issued(c: Coord, e: Event): Option<(Command, Purpose)> {
    if !c.hasWorker then None
    else match e
      case CallPause => if c.state.VmRunning? then Some((Pause, ForPause)) else None
      case CallResume => if c.state.VmPaused? then Some((Resume, ForResume)) else None
      case CallStep => if c.state.VmPaused? then Some((Step, ForStepped)) else None
      case CallSnapshot(reason) => Some((RequestSnapshot(reason, c.nextCall), ForSnapshot(reason)))
      case CallCacheWrite(cache, size, key, spare) =>
        Some((CacheWrite(c.nextRequestId, cache, size, key, spare, c.nextCall), ForCacheWrite(c.nextRequestId)))
      case _ => None
  }

  lemma CallShape(c: Coord, e: Event, now: int)
    requires IsCall(e)
    ensures var (c', sent) := Next(c, e, now);
            && c'.hasWorker == c.hasWorker && c'.state == c.state && c'.terminated == c.terminated
            && (RightAnswers(c.settled) ==> RightAnswers(c'.settled))
            && match Issued(c, e)
               case Some((m, p)) => sent == [m] && c'.waiters == c.waiters + [Waiter(c.nextCall, p)]
               case None => c'.waiters == c.waiters && (sent == [] || (|sent| == 1 && sent[0].SetBackgrounded?))
  {
  }

  lemma IssuedTags(c: Coord, e: Event)
    requires Issued(c, e).Some?
    ensures var (m, p) := Issued(c, e).value; CommandTag(m) == WaiterTag(Waiter(c.nextCall, p))
  {
  }

  lemma ClientKeepsRoute(s: System, e: Event, now: int)
    requires RouteInv(s) && IsCall(e)
    ensures RouteInv(SysNext(s, Client(e), now))
  {
    var s' := SysNext(s, Client(e), now);
    var sent := Next(s.c, e, now).1;
    CallShape(s.c, e, now);
    assert Collect(s'.down, CommandTag) == Collect(s.down, CommandTag) + Collect(sent, CommandTag) by {
      CollectAppend(s.down, sent, CommandTag);
    }
    if Issued(s.c, e).Some? {
      var (m, p) := Issued(s.c, e).value;
      IssuedTags(s.c, e);
      assert Collect(s'.c.waiters, WaiterTag) == Collect(s.c.waiters, WaiterTag) + Collect([m], CommandTag) by {
        var w := Waiter(s.c.nextCall, p);
        CollectAppend(s.c.waiters, [w], WaiterTag);
        CollectOne(w, WaiterTag);
        CollectOne(m, CommandTag);
      }
    } else {
      assert Collect(sent, CommandTag) == [] by { CollectNothing(sent, CommandTag); }
    }
  }

  /** A data reply finds the call that caused it at the head of its queue. */
  lemma DataReplyFindsCaller(s: System)
    requires RouteInv(s) && s.c.hasWorker && s.up != [] && ReplyTag(s.up[0]).Some?
    ensures AckOf(s.up[0]).Some?
    ensures var i := FirstFor(s.c.waiters, AckOf(s.up[0]).value);
            && i < |s.c.waiters| && WaiterTag(s.c.waiters[i]) == ReplyTag(s.up[0])
            && Collect(s.c.waiters, WaiterTag) ==
                 [ReplyTag(s.up[0]).value] + Collect(RemoveAt(s.c.waiters, i), WaiterTag)
  {
    var ws := s.c.waiters;
    var k := CollectFirst(ws, WaiterTag);
    var t := AckOf(s.up[0]).value;
    assert FirstFor(ws, t) == k;
    CollectRemove(ws, k, WaiterTag);
  }

  /** Acknowledging a control call leaves the data calls alone. */
  lemma ContinuedKeepsTags(c: Coord, w: Waiter, r: Reply, now: int)
    requires WaiterTag(w).None?
    ensures var (c', sent) := Continued(c, w, r, now);
            && Collect(c'.waiters, WaiterTag) == Collect(c.waiters, WaiterTag)
            && Collect(sent, CommandTag) == []
            && (RightAnswers(c.settled) ==> RightAnswers(c'.settled))
  {
    if w.purpose.ForReady? {
      CollectOne(Start(w.purpose.mode), CommandTag);
    }
    var next := Waiter(w.call, if w.purpose.ForReady? then ForStarted else ForStepPaused);
    CollectAppend(c.waiters, [next], WaiterTag);
    CollectOne(next, WaiterTag);
  }

  /** The head of three matching queues goes together. */
  lemma HeadsCancel(tag: Tag, left: seq<Tag>, up: seq<Tag>, down: seq<Tag>)
    requires [tag] + left == ([tag] + up) + down
    ensures left == up + down
  {
    assert ([tag] + left)[1..] == left && (([tag] + up) + down)[1..] == up + down;
  }

  lemma DataReplySettles(c: Coord, r: Reply, now: int)
    requires RightAnswers(c.settled) && ReplyTag(r).Some?
    requires FirstFor(c.waiters, AckOf(r).value) < |c.waiters|
    requires WaiterTag(c.waiters[FirstFor(c.waiters, AckOf(r).value)]) == ReplyTag(r)
    ensures var (c', sent) := Received(c, r, now);
            && sent == [] && RightAnswers(c'.settled)
            && c'.waiters == RemoveAt(c.waiters, FirstFor(c.waiters, AckOf(r).value))
            && c'.hasWorker == c.hasWorker && (Live(c) ==> Live(c'))
  {
  }

  lemma DataReplyKeepsRoute(s: System, now: int)
    requires RouteInv(s) && Possible(s, Deliver) && ReplyTag(s.up[0]).Some?
    ensures RouteInv(SysNext(s, Deliver, now))
  {
    var r := s.up[0];
    DataReplyFindsCaller(s);
    DataReplySettles(s.c, r, now);
    var left := Collect(Received(s.c, r, now).0.waiters, WaiterTag);
    HeadsCancel(ReplyTag(r).value, left, Collect(s.up[1..], ReplyTag), Collect(s.down, CommandTag));
    assert s.down + [] == s.down;
  }

  /** Taking a control call out of the queues leaves the data calls. */
  lemma ControlRemoved(c: Coord, i: nat)
    requires i < |c.waiters| && WaiterTag(c.waiters[i]).None?
    ensures Collect(c.(waiters := RemoveAt(c.waiters, i)).waiters, WaiterTag) == Collect(c.waiters, WaiterTag)
  {
    CollectRemove(c.waiters, i, WaiterTag);
  }

  lemma UnawaitedReply(c: Coord, r: Reply, now: int)
    requires !r.Fatal? && (AckOf(r).None? || FirstFor(c.waiters, AckOf(r).value) == |c.waiters|)
    ensures var (c', sent) := Received(c, r, now);
            sent == [] && c' == c.(lastBeat := c'.lastBeat)
  {
  }

  lemma AwaitedReply(c: Coord, r: Reply, now: int)
    requires !r.Fatal? && AckOf(r).Some? && FirstFor(c.waiters, AckOf(r).value) < |c.waiters|
    ensures var i := FirstFor(c.waiters, AckOf(r).value);
            Received(c, r, now) == Continued(c.(waiters := RemoveAt(c.waiters, i)), c.waiters[i], r, now)
  {
  }

  lemma ControlReplyKeepsTags(c: Coord, r: Reply, now: int)
    requires ReplyTag(r).None? && !r.Fatal?
    ensures var (c', sent) := Received(c, r, now);
            && c'.hasWorker == c.hasWorker && (Live(c) ==> Live(c'))
            && (RightAnswers(c.settled) ==> RightAnswers(c'.settled))
            && Collect(c'.waiters, WaiterTag) == Collect(c.waiters, WaiterTag)
            && Collect(sent, CommandTag) == []
  {
    if AckOf(r).Some? && FirstFor(c.waiters, AckOf(r).value) < |c.waiters| {
      var i := FirstFor(c.waiters, AckOf(r).value);
      var rest, w := c.(waiters := RemoveAt(c.waiters, i)), c.waiters[i];
      AwaitedReply(c, r, now);
      ControlRemoved(c, i);
      ContinuedKeepsTags(rest, w, r, now);
    } else {
      UnawaitedReply(c, r, now);
    }
  }

  lemma ControlReplyKeepsRoute(s: System, now: int)
    requires RouteInv(s) && Possible(s, Deliver) && ReplyTag(s.up[0]).None? && !s.up[0].Fatal?
    ensures RouteInv(SysNext(s, Deliver, now))
  {
    var r := s.up[0];
    var sent := Received(s.c, r, now).1;
    ControlReplyKeepsTags(s.c, r, now);
    CollectAppend(s.down, sent, CommandTag);
    assert Collect(s.up, ReplyTag) == Collect(s.up[1..], ReplyTag);
  }

  lemma DeliverKeepsRoute(s: System, now: int)
    requires RouteInv(s) && Possible(s, Deliver)
    ensures RouteInv(SysNext(s, Deliver, now))
  {
    if ReplyTag(s.up[0]).Some? {
      DataReplyKeepsRoute(s, now);
    } else if !s.up[0].Fatal? {
      ControlReplyKeepsRoute(s, now);
    } else {
      TornIsRight(s.c);
    }
  }

  lemma TornIsRight(c: Coord)
    requires RightAnswers(c.settled) && (c.hasWorker ==> Live(c))
    ensures RightAnswers(Torn(c).settled) && !Torn(c).hasWorker
  {
  }

  lemma PassedAlong(up: seq<Tag>, one: seq<Tag>, down: seq<Tag>)
    ensures up + (one + down) == (up + one) + down
  {
  }

  lemma TakesKeepsRoute(s: System, clock: nat, now: int)
    requires RouteInv(s) && Possible(s, WorkerTakes(clock))
    ensures RouteInv(SysNext(s, WorkerTakes(clock), now))
  {
    var m, rest := s.down[0], s.down[1..];
    var posted := Handled(s.w, m, clock).1;
    var up, one, down := Collect(s.up, ReplyTag), Collect([m], CommandTag), Collect(rest, CommandTag);
    assert Collect(s.down, CommandTag) == one + down by {
      assert s.down == [m] + rest;
      CollectAppend([m], rest, CommandTag);
    }
    assert Collect(s.up + posted, ReplyTag) == up + one by {
      CollectAppend(s.up, posted, ReplyTag);
      HandledEchoes(s.w, m, clock);
    }
    PassedAlong(up, one, down);
  }

  lemma TimerKeepsRoute(s: System, clock: nat, now: int)
    requires RouteInv(s) && Possible(s, WorkerTimer(clock))
    ensures RouteInv(SysNext(s, WorkerTimer(clock), now))
  {
    var posted := LoopResumed(s.w, clock).1;
    assert Collect(s.up + posted, ReplyTag) == Collect(s.up, ReplyTag) by {
      LoopPostsNoData(s.w, clock);
      CollectAppend(s.up, posted, ReplyTag);
    }
  }

  lemma EnvironmentKeepsRoute(s: System, f: Event, now: int)
    requires RouteInv(s) && Possible(s, Environment(f))
    ensures RouteInv(SysNext(s, Environment(f), now))
  {
    if f.AckTimeout? {
      TimeoutKeepsRight(s.c, f.i);
    } else {
      TornIsRight(s.c);
    }
  }

  lemma TimeoutKeepsRight(c: Coord, i: nat)
    requires RightAnswers(c.settled) && (c.hasWorker ==> Live(c)) && i < |c.waiters|
    ensures RightAnswers(TimedOut(c, i).settled) && !TimedOut(c, i).hasWorker
  {
    var w := c.waiters[i];
    TornIsRight(Settled(c.(waiters := RemoveAt(c.waiters, i)), w.call, Some(w.purpose), Rejected));
  }

  lemma ShutdownKeepsRoute(s: System, now: int)
    requires RouteInv(s)
    ensures RouteInv(SysNext(s, Client(CallShutdown), now))
  {
  }

  /** A worker is started with no data call of an earlier worker still waiting. */
  ghost predicate StartsClean(s: System, e: SysEvent) {
    e.NewWorker? && !s.c.hasWorker ==> Collect(s.c.waiters, WaiterTag) == []
  }

  ghost predicate CleanThroughout(t: nat, es: Schedule) {
    forall k :: 0 <= k < |es| ==> StartsClean(RunFrom(t, es[..k]), es[k].0)
  }

  lemma NewWorkerKeepsRoute(s: System, e: SysEvent, now: int)
    requires RouteInv(s) && e.NewWorker? && StartsClean(s, e)
    ensures RouteInv(SysNext(s, e, now))
  {
    if !s.c.hasWorker {
      var s' := SysNext(s, e, now);
      var own := Waiter(s.c.nextCall, ForReady(e.mode));
      CollectOne(s'.up[0], ReplyTag);
      CollectAppend(s.c.waiters, [own], WaiterTag);
      CollectOne(own, WaiterTag);
    }
  }

  lemma SysNextKeepsRoute(s: System, e: SysEvent, now: int)
    requires RouteInv(s) && Possible(s, e) && StartsClean(s, e)
    ensures RouteInv(SysNext(s, e, now))
  {
    match e
    case Client(call) => if call.CallShutdown? { ShutdownKeepsRoute(s, now); } else { ClientKeepsRoute(s, call, now); }
    case Environment(f) => EnvironmentKeepsRoute(s, f, now);
    case NewWorker(_, _, _) => NewWorkerKeepsRoute(s, e, now);
    case WorkerTakes(clock) => TakesKeepsRoute(s, clock, now);
    case WorkerTimer(clock) => TimerKeepsRoute(s, clock, now);
    case Deliver => DeliverKeepsRoute(s, now);
  }

  /** For any overlap of calls and any interleaving, every reply reaches the call that caused it:
      the mismatch throw is unreachable and every snapshot carries the reason asked for. */
  lemma {:induction false} RepliesReachTheirCalls(t: nat, es: Schedule)
    requires CleanThroughout(t, es)
    ensures RouteInv(RunFrom(t, es))
    ensures RightAnswers(RunFrom(t, es).c.settled)
  {
    if es != [] {
      var pre := es[..|es| - 1];
      assert CleanThroughout(t, pre) by {
        forall k | 0 <= k < |pre| ensures StartsClean(RunFrom(t, pre[..k]), pre[k].0) { assert pre[..k] == es[..k]; }
      }
      RepliesReachTheirCalls(t, pre);
      var s := RunFrom(t, pre);
      var (e, now) := es[|es| - 1];
      assert StartsClean(s, e);
      if Possible(s, e) { SysNextKeepsRoute(s, e, now); }
    }
  }

  // ---- Which runs start clean ----------------------------------------------------------------------

  predicate Lasts(e: SysEvent) {
    e.Client? || e.Environment? ==> Lasting(e.e)
  }

  lemma SysNextKeepsLifetime(s: System, e: SysEvent, now: int)
    requires LifetimeInv(s.c) && Possible(s, e) && Lasts(e)
    ensures LifetimeInv(SysNext(s, e, now).c)
  {
    match e
    case Client(call) => NextKeepsLifetime(s.c, call, now);
    case Environment(f) => NextKeepsLifetime(s.c, f, now);
    case NewWorker(mode, _, _) => NextKeepsLifetime(s.c, CallStart(mode), now);
    case Deliver => NextKeepsLifetime(s.c, Receive(s.up[0]), now);
    case _ =>
  }

  lemma {:induction false} LifetimeThroughout(t: nat, es: Schedule)
    requires forall k :: 0 <= k < |es| ==> Lasts(es[k].0)
    ensures LifetimeInv(RunFrom(t, es).c)
  {
    if es != [] {
      LifetimeThroughout(t, es[..|es| - 1]);
      var s := RunFrom(t, es[..|es| - 1]);
      var (e, now) := es[|es| - 1];
      if Possible(s, e) { SysNextKeepsLifetime(s, e, now); }
    }
  }

  /** Without `shutdown()` and exit code 0 every worker starts clean. */
  lemma StartsCleanWithoutShutdown(t: nat, es: Schedule)
    requires forall k :: 0 <= k < |es| ==> Lasts(es[k].0)
    ensures CleanThroughout(t, es)
  {
    forall k | 0 <= k < |es| ensures StartsClean(RunFrom(t, es[..k]), es[k].0) {
      LifetimeThroughout(t, es[..k]);
    }
  }

  /** Calls and requests are numbered upwards. */
  ghost predicate Numbered(c: Coord) {
    forall w :: w in c.waiters ==>
      w.call < c.nextCall && (w.purpose.ForCacheWrite? ==> w.purpose.requestId < c.nextRequestId)
  }

  lemma CallKeepsNumbered(c: Coord, e: Event, now: int)
    requires Numbered(c) && (IsCall(e) || e.CallShutdown? || e.CallStart?)
    ensures Numbered(Next(c, e, now).0)
  {
  }

  lemma ReceivedKeepsNumbered(c: Coord, r: Reply, now: int)
    requires Numbered(c)
    ensures Numbered(Received(c, r, now).0)
  {
    if AckOf(r).Some? {
      var i := FirstFor(c.waiters, AckOf(r).value);
      if i < |c.waiters| {
        assert c.waiters[i] in c.waiters;
        ContinuedKeepsNumbered(c.(waiters := RemoveAt(c.waiters, i)), c.waiters[i], r, now);
      }
    }
  }

  lemma ContinuedKeepsNumbered(c: Coord, w: Waiter, r: Reply, now: int)
    requires Numbered(c) && w.call < c.nextCall
    ensures Numbered(Continued(c, w, r, now).0)
  {
  }

  lemma EnvironmentKeepsNumbered(c: Coord, f: Event, now: int)
    requires Numbered(c) && Enabled(c, f) && (IsFault(f) || f.TerminateDone?)
    ensures Numbered(Next(c, f, now).0)
  {
  }

  lemma SysNextKeepsNumbered(s: System, e: SysEvent, now: int)
    requires Numbered(s.c) && Possible(s, e)
    ensures Numbered(SysNext(s, e, now).c)
  {
    match e
    case Client(call) => CallKeepsNumbered(s.c, call, now);
    case Environment(f) => EnvironmentKeepsNumbered(s.c, f, now);
    case NewWorker(mode, _, _) => CallKeepsNumbered(s.c, CallStart(mode), now);
    case Deliver => ReceivedKeepsNumbered(s.c, s.up[0], now);
    case _ =>
  }

  lemma {:induction false} NumberedThroughout(t: nat, es: Schedule)
    ensures Numbered(RunFrom(t, es).c)
  {
    if es != [] {
      NumberedThroughout(t, es[..|es| - 1]);
      var s := RunFrom(t, es[..|es| - 1]);
      var (e, now) := es[|es| - 1];
      if Possible(s, e) { SysNextKeepsNumbered(s, e, now); }
    }
  }

  /** A reply of the right kind for another call settles the oldest data call all the same. */
  lemma WrongReply(c: Coord, r: Reply, now: int)
    requires Collect(c.waiters, WaiterTag) != [] && ReplyTag(r).Some?
    requires var old', new' := Collect(c.waiters, WaiterTag)[0], ReplyTag(r).value;
             && old'.call != new'.call && (old'.CacheTag? <==> new'.CacheTag?)
             && (old'.CacheTag? ==> old'.requestId != new'.requestId)
    ensures !RightAnswers(Received(c, r, now).0.settled)
  {
    var ws := c.waiters;
    var k := CollectFirst(ws, WaiterTag);
    assert FirstFor(ws, AckOf(r).value) == k;
    var after := Received(c, r, now).0.settled;
    assert after == c.settled + [Settlement(ws[k].call, Some(ws[k].purpose), OutcomeOf(ws[k].purpose, r))];
    assert !RightAnswer(after[|c.settled|]);
  }

  lemma RunMore(t: nat, es: Schedule, e: SysEvent, now: int)
    requires Possible(RunFrom(t, es), e)
    ensures RunFrom(t, es + [(e, now)]) == SysNext(RunFrom(t, es), e, now)
  {
    assert (es + [(e, now)])[..|es|] == es;
  }

  /** The call that will get the wrong answer to its kind of question. */
  function Provoking(tag: Tag): Event {
    if tag.SnapshotTag? then CallSnapshot(tag.reason) else CallCacheWrite(DiskCache, None, "", "")
  }

  /** A waiter appended at the end does not change which data call is the oldest. */
  lemma OldestStays(ws: seq<Waiter>, own: Waiter)
    requires Collect(ws, WaiterTag) != []
    ensures Collect(ws + [own], WaiterTag) != [] && Collect(ws + [own], WaiterTag)[0] == Collect(ws, WaiterTag)[0]
  {
    CollectAppend(ws, [own], WaiterTag);
  }

  function ProvokedTag(c: Coord, tag: Tag): Tag {
    if tag.SnapshotTag? then SnapshotTag(c.nextCall, tag.reason) else CacheTag(c.nextCall, c.nextRequestId)
  }

  lemma AsksNewWorker(s: System, tag: Tag, now: int)
    requires s.c.hasWorker && s.down == [] && s.up == [Ready] && Alive(s.w)
    requires Collect(s.c.waiters, WaiterTag) != [] && Collect(s.c.waiters, WaiterTag)[0] == tag
    ensures var s1 := SysNext(s, Client(Provoking(tag)), now);
            && Possible(s1, WorkerTakes(0))
            && var s2 := SysNext(s1, WorkerTakes(0), now);
               && s2.c.hasWorker && |s2.up| == 2 && s2.up[0] == Ready
               && ReplyTag(s2.up[1]) == Some(ProvokedTag(s.c, tag))
               && Collect(s2.c.waiters, WaiterTag) != [] && Collect(s2.c.waiters, WaiterTag)[0] == tag
  {
    var e := Provoking(tag);
    CallShape(s.c, e, now);
    OldestStays(s.c.waiters, Waiter(s.c.nextCall, Issued(s.c, e).value.1));
  }

  /** The new worker receives one data request and answers it, behind its 'ready'. */
  lemma ProvokedReply(s: System, tag: Tag, limits: Limits, now: int) returns (s': System)
    requires !s.c.hasWorker && Collect(s.c.waiters, WaiterTag) != [] && Collect(s.c.waiters, WaiterTag)[0] == tag
    ensures var s1 := SysNext(s, NewWorker(Cooperative, limits, true), now);
            var s2 := SysNext(s1, Client(Provoking(tag)), now);
            Possible(s2, WorkerTakes(0)) && s' == SysNext(s2, WorkerTakes(0), now)
    ensures s'.c.hasWorker && |s'.up| == 2 && s'.up[0] == Ready
    ensures ReplyTag(s'.up[1]) == Some(if tag.SnapshotTag? then SnapshotTag(s.c.nextCall + 1, tag.reason)
                                       else CacheTag(s.c.nextCall + 1, s.c.nextRequestId))
    ensures Collect(s'.c.waiters, WaiterTag) != [] && Collect(s'.c.waiters, WaiterTag)[0] == tag
  {
    var s1 := SysNext(s, NewWorker(Cooperative, limits, true), now);
    OldestStays(s.c.waiters, Waiter(s.c.nextCall, ForReady(Cooperative)));
    AsksNewWorker(s1, tag, now);
    var s2 := SysNext(s1, Client(Provoking(tag)), now);
    s' := SysNext(s2, WorkerTakes(0), now);
  }

  lemma OldestIsOlder(c: Coord)
    requires Numbered(c) && Collect(c.waiters, WaiterTag) != []
    ensures var tag := Collect(c.waiters, WaiterTag)[0];
            tag.call < c.nextCall && (tag.CacheTag? ==> tag.requestId < c.nextRequestId)
  {
    var k := CollectFirst(c.waiters, WaiterTag);
    assert c.waiters[k] in c.waiters;
  }

  /** Delivering 'ready' and then a reply meant for another call. */
  lemma DeliversWrongly(s: System, now: int)
    requires s.c.hasWorker && |s.up| == 2 && s.up[0] == Ready && ReplyTag(s.up[1]).Some?
    requires Collect(s.c.waiters, WaiterTag) != []
    requires var old', new' := Collect(s.c.waiters, WaiterTag)[0], ReplyTag(s.up[1]).value;
             && old'.call != new'.call && (old'.CacheTag? <==> new'.CacheTag?)
             && (old'.CacheTag? ==> old'.requestId != new'.requestId)
    ensures var s' := SysNext(s, Deliver, now);
            Possible(s', Deliver) && !RightAnswers(SysNext(s', Deliver, now).c.settled)
  {
    ControlReplyKeepsTags(s.c, Ready, now);
    var s' := SysNext(s, Deliver, now);
    assert s'.up == [s.up[1]];
    WrongReply(s'.c, s'.up[0], now);
  }

  lemma AppendThree<T>(s: seq<T>, a: T, b: T, c: T)
    ensures s + [a, b, c] == ((s + [a]) + [b]) + [c]
  {
  }

  lemma RunThree(t: nat, es: Schedule, a: SysEvent, b: SysEvent, c: SysEvent, now: int)
    requires Possible(RunFrom(t, es), a)
    requires var s1 := SysNext(RunFrom(t, es), a, now); Possible(s1, b) && Possible(SysNext(s1, b, now), c)
    ensures RunFrom(t, es + [(a, now), (b, now), (c, now)]) ==
            SysNext(SysNext(SysNext(RunFrom(t, es), a, now), b, now), c, now)
  {
    AppendThree(es, (a, now), (b, now), (c, now));
    var es1 := es + [(a, now)];
    RunMore(t, es, a, now);
    var es2 := es1 + [(b, now)];
    RunMore(t, es1, b, now);
    RunMore(t, es2, c, now);
  }

  lemma RunTwo(t: nat, es: Schedule, a: SysEvent, b: SysEvent, now: int)
    requires Possible(RunFrom(t, es), a) && Possible(SysNext(RunFrom(t, es), a, now), b)
    ensures RunFrom(t, es + [(a, now), (b, now)]) == SysNext(SysNext(RunFrom(t, es), a, now), b, now)
  {
    RunMore(t, es, a, now);
    RunMore(t, es + [(a, now)], b, now);
    assert es + [(a, now), (b, now)] == es + [(a, now)] + [(b, now)];
  }

  /** `shutdown()` is how a run comes to leave calls waiting. */
  lemma ShutdownLeavesWaiters(s: System, now: int)
    requires s.c.hasWorker && Live(s.c)
    ensures var c := SysNext(s, Client(CallShutdown), now).c; !c.hasWorker && c.waiters == s.c.waiters
  {
  }

  /** If a run has left a data call waiting without a worker, the next worker's first data reply is
      given to that call. So starting clean is not only sufficient but necessary. */
  lemma DirtyStartMisroutes(t: nat, es: Schedule, limits: Limits, now: int) returns (more: Schedule)
    requires !RunFrom(t, es).c.hasWorker && Collect(RunFrom(t, es).c.waiters, WaiterTag) != []
    ensures more != [] && more[0].0.NewWorker? && !RightAnswers(RunFrom(t, es + more).c.settled)
  {
    var s := RunFrom(t, es);
    var tag := Collect(s.c.waiters, WaiterTag)[0];
    assert tag.call < s.c.nextCall && (tag.CacheTag? ==> tag.requestId < s.c.nextRequestId) by {
      NumberedThroughout(t, es);
      OldestIsOlder(s.c);
    }
    var start, call := NewWorker(Cooperative, limits, true), Client(Provoking(tag));
    var asked := [(start, now), (call, now), (WorkerTakes(0), now)];
    var s' := Provoked(t, es, tag, limits, now);
    assert RunFrom(t, es + asked) == s';
    DeliversWrongly(s', now);
    RunTwo(t, es + asked, Deliver, Deliver, now);
    var answered := [(Deliver, now), (Deliver, now)];
    more := asked + answered;
    assert es + more == es + asked + answered;
  }

  lemma Provoked(t: nat, es: Schedule, tag: Tag, limits: Limits, now: int) returns (s': System)
    requires var s := RunFrom(t, es);
             !s.c.hasWorker && Collect(s.c.waiters, WaiterTag) != [] && Collect(s.c.waiters, WaiterTag)[0] == tag
    ensures var start, call := NewWorker(Cooperative, limits, true), Client(Provoking(tag));
            s' == RunFrom(t, es + [(start, now), (call, now), (WorkerTakes(0), now)])
    ensures s'.c.hasWorker && |s'.up| == 2 && s'.up[0] == Ready
    ensures var c := RunFrom(t, es).c;
            ReplyTag(s'.up[1]) == Some(if tag.SnapshotTag? then SnapshotTag(c.nextCall + 1, tag.reason)
                                       else CacheTag(c.nextCall + 1, c.nextRequestId))
    ensures Collect(s'.c.waiters, WaiterTag) != [] && Collect(s'.c.waiters, WaiterTag)[0] == tag
  {
    s' := ProvokedReply(RunFrom(t, es), tag, limits, now);
    RunThree(t, es, NewWorker(Cooperative, limits, true), Client(Provoking(tag)), WorkerTakes(0), now);
  }

  // ---- Pause and step agreement ----------------------------------------------------------------

  function ControlPurpose(w: Waiter): Option<Purpose> {
    if w.purpose.ForSnapshot? || w.purpose.ForCacheWrite? then None else Some(w.purpose)
  }

  function ControlCommand(m: Command): Option<Command> {
    if m.Start? || m.Pause? || m.Resume? || m.Step? then Some(m) else None
  }

  function ControlReply(r: Reply): Option<Reply> {
    if ReplyTag(r).Some? then None else Some(r)
  }

  /** The control call in flight, if any. */
  function InFlight(s: System): seq<Purpose> {
    Collect(s.c.waiters, ControlPurpose)
  }

  function Asked(s: System): seq<Command> {
    Collect(s.down, ControlCommand)
  }

  function Told(s: System): seq<Reply> {
    Collect(s.up, ControlReply)
  }

  predicate Beats(rs: seq<Reply>) {
    forall i :: 0 <= i < |rs| ==> rs[i].Heartbeat?
  }

  /** The worker keeps executing slices. */
  predicate Going(w: Worker) {
    w.running && !w.paused && w.steps == 0 && Ticking(w)
  }

  /** The worker executes nothing until told to. */
  predicate Still(w: Worker) {
    w.running && w.paused && w.steps == 0 && (Ticking(w) || w.loop.Parked?)
  }

  predicate Unstarted(w: Worker) {
    !w.running && w.loop.NotStarted? && w.steps == 0
  }

  predicate SteppedOnce(w: Worker, base: nat) {
    Still(w) && base <= w.cpu.total <= base + 1
  }

  /** The four replies of one step, of which some prefix has been delivered. */
  predicate StepReplies(rs: seq<Reply>) {
    && 2 <= |rs| <= 4
    && rs[|rs| - 1].Paused?
    && rs[|rs| - 2].Stepped?
    && (|rs| >= 3 ==> rs[|rs| - 3].Heartbeat?)
    && (|rs| == 4 ==> rs[0].Stepping?)
  }

  /** What the two sides and the channels look like while the call `p` is in flight. */
  predicate CallPhase(state: VmState, p: Purpose, asked: seq<Command>, told: seq<Reply>, w: Worker, base: nat) {
    match p
    case ForReady(_) => state.VmStarting? && asked == [] && told == [Ready] && Unstarted(w)
    case ForStarted =>
      && state.VmStarting?
      && (|| (|asked| == 1 && asked[0].Start? && told == [] && Unstarted(w))
          || (asked == [] && told != [] && told[0].Started? && Beats(told[1..]) && Going(w)))
    case ForPause =>
      && state.VmRunning?
      && (|| (asked == [Pause] && Beats(told) && Going(w))
          || (asked == [] && told != [] && told[|told| - 1].Paused? && Beats(told[..|told| - 1]) && Still(w)))
    case ForResume =>
      && state.VmPaused?
      && (|| (asked == [Resume] && told == [] && Still(w))
          || (asked == [] && told != [] && told[0].Resumed? && Beats(told[1..]) && Going(w)))
    case ForStepped =>
      && state.VmPaused?
      && (|| (asked == [Step] && told == [] && Still(w) && w.cpu.total == base)
          || (&& asked == [] && (told == [] || told == [Stepping])
              && w.running && !w.paused && w.steps == 1 && Ticking(w) && w.cpu.total == base)
          || (asked == [] && StepReplies(told) && SteppedOnce(w, base)))
    case ForStepPaused => state.VmPaused? && asked == [] && told == [Paused] && SteppedOnce(w, base)
    case _ => false
  }

  predicate RestPhase(state: VmState, asked: seq<Command>, told: seq<Reply>, w: Worker) {
    && asked == []
    && (|| (state.VmRunning? && Beats(told) && Going(w))
        || (state.VmPaused? && told == [] && Still(w)))
  }

  predicate Phase(state: VmState, calls: seq<Purpose>, asked: seq<Command>, told: seq<Reply>, w: Worker, base: nat) {
    if calls == [] then RestPhase(state, asked, told, w)
    else |calls| == 1 && CallPhase(state, calls[0], asked, told, w, base)
  }

  ghost predicate ControlInv(s: System) {
    && LifetimeInv(s.c)
    && (s.c.hasWorker ==> |InFlight(s)| <= 1)
    && (s.c.hasWorker ==> forall i :: 0 <= i < |s.down| ==> !s.down[i].Shutdown?)
    && (s.c.hasWorker && Alive(s.w) ==>
          !s.w.stopping && Phase(s.c.state, InFlight(s), Asked(s), Told(s), s.w, s.base))
  }

  predicate ControlCall(e: Event) {
    e.CallPause? || e.CallResume? || e.CallStep?
  }

  /** The client awaits each control call before making the next and does not shut the VM down;
      data calls overlap freely. */
  ghost predicate Awaited(s: System, e: SysEvent) {
    && (e.Client? || e.Environment? ==> Lasting(e.e))
    && ((e.Client? && ControlCall(e.e)) || e.NewWorker? ==> InFlight(s) == [])
  }

  ghost predicate AwaitedThroughout(t: nat, es: Schedule) {
    forall k :: 0 <= k < |es| ==> Awaited(RunFrom(t, es[..k]), es[k].0)
  }

  // One step of the phase at a time, on the control messages alone.

  lemma PhasePauses(told: seq<Reply>, w: Worker)
    requires Going(w) && Beats(told)
    ensures CallPhase(VmRunning, ForPause, [], told + [Paused], w.(paused := true), 0)
  {
    var told' := told + [Paused];
    assert told'[..|told'| - 1] == told;
  }

  lemma PhaseStarted(w: Worker, mode: Mode, base: nat, clock: nat)
    requires Unstarted(w) && !w.stopping
    ensures var (w', posted) := Handled(w, Start(mode), clock);
            Alive(w') ==> !w'.stopping && CallPhase(VmStarting, ForStarted, [], posted, w', base)
  {
    if mode.Cooperative? {
      var beats := LoopTop(w.(running := true, paused := false), clock).1;
      assert ([Started] + beats)[1..] == beats;
    }
  }

  lemma PhaseResumes(w: Worker, base: nat, clock: nat)
    requires Still(w) && !w.stopping
    ensures var (w', posted) := Handled(w, Resume, clock);
            Alive(w') && !w'.stopping && CallPhase(VmPaused, ForResume, [], posted, w', base)
  {
    if w.loop.Parked? {
      var beats := LoopTop(w.(paused := false), clock).1;
      assert ([Resumed] + beats)[1..] == beats;
    } else {
      assert [Resumed][1..] == [];
    }
  }

  lemma PhaseSteps(w: Worker, clock: nat)
    requires Still(w) && !w.stopping
    ensures var (w', posted) := Handled(w, Step, clock);
            Alive(w') && !w'.stopping && CallPhase(VmPaused, ForStepped, [], posted, w', w.cpu.total)
  {
  }

  lemma PhaseTakes(state: VmState, calls: seq<Purpose>, told: seq<Reply>, w: Worker, base: nat, m: Command, clock: nat)
    requires Alive(w) && !w.stopping && ControlCommand(m).Some?
    requires Phase(state, calls, [m], told, w, base)
    ensures var (w', posted) := Handled(w, m, clock);
            Alive(w') ==> !w'.stopping && Phase(state, calls, [], told + posted, w', base)
  {
    var posted := Handled(w, m, clock).1;
    assert !m.Pause? ==> told + posted == posted;
    match m
    case Start(mode) => PhaseStarted(w, mode, base, clock);
    case Pause => PhasePauses(told, w);
    case Resume => PhaseResumes(w, base, clock);
    case Step => PhaseSteps(w, clock);
    case _ =>
  }

  lemma PhaseTimer(state: VmState, calls: seq<Purpose>, asked: seq<Command>, told: seq<Reply>, w: Worker, base: nat,
                   clock: nat)
    requires Ticking(w) && !w.stopping && Phase(state, calls, asked, told, w, base)
    ensures var (w', posted) := LoopResumed(w, clock);
            Alive(w') && !w'.stopping && Phase(state, calls, asked, told + posted, w', base)
  {
    var (w', posted) := LoopResumed(w, clock);
    if told != [] && |posted| <= 1 {
      assert (told + posted)[1..] == told[1..] + posted;
    }
    if posted == [] {
      assert told + posted == told;
    }
  }

  /** The coordinator's reaction to a control reply, on the control state alone. */
  function Heard(state: VmState, calls: seq<Purpose>, r: Reply): (VmState, seq<Purpose>, seq<Command>)
    requires |calls| <= 1
  {
    if calls == [] || AckOf(r) != Some(Awaits(calls[0])) then (state, calls, [])
    else match calls[0]
      case ForReady(mode) => (state, [ForStarted], [Start(mode)])
      case ForStepped => (state, [ForStepPaused], [])
      case ForStarted => (VmRunning, [], [])
      case ForResume => (VmRunning, [], [])
      case _ => (VmPaused, [], [])
  }

  lemma PhaseHears(state: VmState, calls: seq<Purpose>, asked: seq<Command>, told: seq<Reply>, w: Worker, base: nat)
    requires told != [] && Phase(state, calls, asked, told, w, base)
    ensures var (state', calls', sent) := Heard(state, calls, told[0]);
            !told[0].Fatal? && Phase(state', calls', asked + sent, told[1..], w, base)
  {
    if calls != [] && calls[0].ForPause? && |told| > 1 {
      assert told[1..][..|told[1..]| - 1] == told[..|told| - 1][1..];
    }
  }

  /** The control waiter, if it awaits `t`, is what a reply of type `t` resolves. */
  lemma ControlWaiter(ws: seq<Waiter>, t: AckType)
    requires !t.AckSnapshot? && !t.AckCacheWrite? && |Collect(ws, ControlPurpose)| <= 1
    ensures var i, calls := FirstFor(ws, t), Collect(ws, ControlPurpose);
            if calls == [] || Awaits(calls[0]) != t then i == |ws|
            else i < |ws| && ws[i].purpose == calls[0] && Collect(RemoveAt(ws, i), ControlPurpose) == []
  {
    var i := FirstFor(ws, t);
    if i < |ws| {
      CollectRemove(ws, i, ControlPurpose);
    } else if Collect(ws, ControlPurpose) != [] {
      var k := CollectFirst(ws, ControlPurpose);
    }
  }

  lemma WaitsNext(ws: seq<Waiter>, call: nat, p: Purpose)
    requires Collect(ws, ControlPurpose) == [] && (p.ForStarted? || p.ForStepPaused?)
    ensures Collect(ws + [Waiter(call, p)], ControlPurpose) == [p]
  {
    CollectAppend(ws, [Waiter(call, p)], ControlPurpose);
    CollectOne(Waiter(call, p), ControlPurpose);
  }

  lemma ContinuedIsHeard(c: Coord, w: Waiter, r: Reply, now: int)
    requires ControlPurpose(w).Some? && AckOf(r) == Some(Awaits(w.purpose)) && Collect(c.waiters, ControlPurpose) == []
    ensures var (c', sent) := Continued(c, w, r, now);
            var (state, calls, sent') := Heard(c.state, [w.purpose], r);
            && c'.hasWorker == c.hasWorker && c'.state == state && sent == sent'
            && Collect(c'.waiters, ControlPurpose) == calls
  {
    if w.purpose.ForReady? {
      WaitsNext(c.waiters, w.call, ForStarted);
    } else if w.purpose.ForStepped? {
      WaitsNext(c.waiters, w.call, ForStepPaused);
    }
  }

  /** The whole coordinator does to the control state what `Heard` says. */
  lemma ControlReplyIsHeard(c: Coord, r: Reply, now: int)
    requires ReplyTag(r).None? && !r.Fatal? && |Collect(c.waiters, ControlPurpose)| <= 1
    ensures var (c', sent) := Received(c, r, now);
            var (state, calls, sent') := Heard(c.state, Collect(c.waiters, ControlPurpose), r);
            && c'.hasWorker == c.hasWorker && c'.state == state && sent == sent'
            && Collect(c'.waiters, ControlPurpose) == calls
  {
    var calls := Collect(c.waiters, ControlPurpose);
    if AckOf(r).Some? {
      ControlWaiter(c.waiters, AckOf(r).value);
    }
    if AckOf(r).Some? && FirstFor(c.waiters, AckOf(r).value) < |c.waiters| {
      var i := FirstFor(c.waiters, AckOf(r).value);
      var rest, w := c.(waiters := RemoveAt(c.waiters, i)), c.waiters[i];
      assert calls == [w.purpose];
      AwaitedReply(c, r, now);
      ContinuedIsHeard(rest, w, r, now);
    } else {
      UnawaitedReply(c, r, now);
    }
  }

  lemma DataReplyIsNotHeard(c: Coord, r: Reply, now: int)
    requires ReplyTag(r).Some?
    ensures var (c', sent) := Received(c, r, now);
            && c'.hasWorker == c.hasWorker && c'.state == c.state && sent == []
            && Collect(c'.waiters, ControlPurpose) == Collect(c.waiters, ControlPurpose)
  {
    var i := FirstFor(c.waiters, AckOf(r).value);
    if i < |c.waiters| { CollectRemove(c.waiters, i, ControlPurpose); }
  }

  lemma DataDeliveryKeepsControl(s: System, now: int)
    requires ControlInv(s) && Possible(s, Deliver) && ReplyTag(s.up[0]).Some?
    ensures ControlInv(SysNext(s, Deliver, now))
  {
    var s' := SysNext(s, Deliver, now);
    assert LifetimeInv(s'.c) by { NextKeepsLifetime(s.c, Receive(s.up[0]), now); }
    assert s'.down == s.down && InFlight(s') == InFlight(s) && s'.c.state == s.c.state by {
      DataReplyIsNotHeard(s.c, s.up[0], now);
    }
    assert Told(s') == Told(s) by { PassedOver(s.up); }
    assert Asked(s') == Asked(s) && s'.w == s.w && s'.base == s.base;
  }

  lemma PassedOver(up: seq<Reply>)
    requires up != [] && ReplyTag(up[0]).Some?
    ensures Collect(up[1..], ControlReply) == Collect(up, ControlReply)
  {
  }

  /** What the coordinator sends on hearing a control reply is itself control traffic. */
  lemma HeardIsAsked(down: seq<Command>, state: VmState, calls: seq<Purpose>, r: Reply)
    requires |calls| <= 1
    ensures var sent := Heard(state, calls, r).2;
            && Collect(down + sent, ControlCommand) == Collect(down, ControlCommand) + sent
            && (forall i :: 0 <= i < |sent| ==> !sent[i].Shutdown?)
  {
    var sent := Heard(state, calls, r).2;
    CollectAppend(down, sent, ControlCommand);
    if sent != [] { CollectOne(sent[0], ControlCommand); }
  }

  lemma TakenFromTold(up: seq<Reply>)
    requires up != [] && ReplyTag(up[0]).None?
    ensures var told := Collect(up, ControlReply);
            told != [] && told[0] == up[0] && told[1..] == Collect(up[1..], ControlReply)
  {
  }

  lemma ControlDeliveryKeepsControl(s: System, now: int)
    requires ControlInv(s) && Possible(s, Deliver) && ReplyTag(s.up[0]).None? && !s.up[0].Fatal?
    ensures ControlInv(SysNext(s, Deliver, now))
  {
    var r := s.up[0];
    var s' := SysNext(s, Deliver, now);
    var (state, calls, sent) := Heard(s.c.state, InFlight(s), r);
    assert LifetimeInv(s'.c) by { NextKeepsLifetime(s.c, Receive(r), now); }
    assert s'.down == s.down + sent && InFlight(s') == calls && s'.c.state == state by {
      ControlReplyIsHeard(s.c, r, now);
    }
    HeardIsAsked(s.down, s.c.state, InFlight(s), r);
    if Alive(s.w) {
      assert Phase(state, calls, Asked(s'), Told(s'), s.w, s.base) by { HeardInPhase(s); }
    }
  }

  lemma HeardInPhase(s: System)
    requires s.up != [] && ReplyTag(s.up[0]).None? && |InFlight(s)| <= 1
    requires Phase(s.c.state, InFlight(s), Asked(s), Told(s), s.w, s.base)
    ensures var (state, calls, sent) := Heard(s.c.state, InFlight(s), s.up[0]);
            Phase(state, calls, Asked(s) + sent, Collect(s.up[1..], ControlReply), s.w, s.base)
  {
    TakenFromTold(s.up);
    PhaseHears(s.c.state, InFlight(s), Asked(s), Told(s), s.w, s.base);
  }

  lemma DeliverKeepsControl(s: System, now: int)
    requires ControlInv(s) && Possible(s, Deliver)
    ensures ControlInv(SysNext(s, Deliver, now))
  {
    if ReplyTag(s.up[0]).Some? {
      DataDeliveryKeepsControl(s, now);
    } else if !s.up[0].Fatal? {
      ControlDeliveryKeepsControl(s, now);
    } else {
      NextKeepsLifetime(s.c, Receive(s.up[0]), now);
    }
  }

  lemma ControlPostsOnlyControl(w: Worker, m: Command, clock: nat)
    requires Alive(w) && ControlCommand(m).Some?
    ensures Collect(Handled(w, m, clock).1, ControlReply) == Handled(w, m, clock).1
  {
    var posted := Handled(w, m, clock).1;
    assert forall i :: 0 <= i < |posted| ==> ReplyTag(posted[i]).None?;
    AllControl(posted);
  }

  lemma {:induction false} AllControl(rs: seq<Reply>)
    requires forall i :: 0 <= i < |rs| ==> ReplyTag(rs[i]).None?
    ensures Collect(rs, ControlReply) == rs
  {
    if rs != [] { AllControl(rs[1..]); }
  }

  /** Anything but a control command leaves the control side of the worker alone. */
  lemma DataKeepsPhase(state: VmState, calls: seq<Purpose>, asked: seq<Command>, told: seq<Reply>, w: Worker, base: nat,
                       m: Command, clock: nat)
    requires Alive(w) && Phase(state, calls, asked, told, w, base)
    requires m.SetBackgrounded? || m.RequestSnapshot? || m.CacheWrite?
    ensures var (w', posted) := Handled(w, m, clock);
            && Alive(w') && w'.stopping == w.stopping && Phase(state, calls, asked, told, w', base)
            && Collect(posted, ControlReply) == []
  {
    CollectNothing(Handled(w, m, clock).1, ControlReply);
  }

  lemma TakesKeepsControl(s: System, clock: nat, now: int)
    requires ControlInv(s) && Possible(s, WorkerTakes(clock))
    ensures ControlInv(SysNext(s, WorkerTakes(clock), now))
  {
    if s.c.hasWorker {
      var m := s.down[0];
      var s' := SysNext(s, WorkerTakes(clock), now);
      var posted := Handled(s.w, m, clock).1;
      assert InFlight(s') == InFlight(s);
      assert Told(s') == Told(s) + Collect(posted, ControlReply) by { CollectAppend(s.up, posted, ControlReply); }
      if ControlCommand(m).Some? {
        assert Asked(s) == [m] + Asked(s');
        assert Asked(s) == [m] && Asked(s') == [];
        ControlPostsOnlyControl(s.w, m, clock);
        PhaseTakes(s.c.state, InFlight(s), Told(s), s.w, s.base, m, clock);
      } else if !m.Unrecognised? {
        assert Asked(s) == Asked(s');
        DataKeepsPhase(s.c.state, InFlight(s), Asked(s), Told(s), s.w, s.base, m, clock);
        assert Told(s') == Told(s);
      }
    }
  }

  lemma TimerKeepsControl(s: System, clock: nat, now: int)
    requires ControlInv(s) && Possible(s, WorkerTimer(clock))
    ensures ControlInv(SysNext(s, WorkerTimer(clock), now))
  {
    if s.c.hasWorker {
      var posted := LoopResumed(s.w, clock).1;
      var s' := SysNext(s, WorkerTimer(clock), now);
      assert Told(s') == Told(s) + posted by {
        CollectAppend(s.up, posted, ControlReply);
        TimerPostsOnlyControl(s.w, clock);
      }
      assert InFlight(s') == InFlight(s) && Asked(s') == Asked(s);
      PhaseTimer(s.c.state, InFlight(s), Asked(s), Told(s), s.w, s.base, clock);
    }
  }

  lemma TimerPostsOnlyControl(w: Worker, clock: nat)
    ensures Collect(LoopResumed(w, clock).1, ControlReply) == LoopResumed(w, clock).1
  {
    AllControl(LoopResumed(w, clock).1);
  }

  /** A control call from rest starts its phase. */
  lemma PhaseStarts(c: Coord, e: Event, asked: seq<Command>, told: seq<Reply>, w: Worker)
    requires Issued(c, e).Some? && ControlCall(e) && RestPhase(c.state, asked, told, w)
    ensures var (m, p) := Issued(c, e).value;
            CallPhase(c.state, p, asked + [m], told, w, w.cpu.total)
  {
    assert asked + [Issued(c, e).value.0] == [Issued(c, e).value.0];
  }

  lemma BaseOnlyForSteps(state: VmState, p: Purpose, asked: seq<Command>, told: seq<Reply>, w: Worker, a: nat, b: nat)
    requires CallPhase(state, p, asked, told, w, a) && (p.ForPause? || p.ForResume?)
    ensures CallPhase(state, p, asked, told, w, b)
  {
  }

  lemma ControlCallIssues(s: System, e: Event, now: int)
    requires ControlCall(e) && InFlight(s) == [] && Issued(s.c, e).Some?
    ensures var (m, p) := Issued(s.c, e).value;
            var s' := SysNext(s, Client(e), now);
            && Asked(s') == Asked(s) + [m] && InFlight(s') == [p] && s'.down == s.down + [m] && s'.up == s.up
            && s'.w == s.w && s'.c.state == s.c.state && s'.c.hasWorker == s.c.hasWorker
            && (e.CallStep? ==> s'.base == s.w.cpu.total)
  {
    var (m, p) := Issued(s.c, e).value;
    CallShape(s.c, e, now);
    CollectAppend(s.down, [m], ControlCommand);
    CollectOne(m, ControlCommand);
    CollectAppend(s.c.waiters, [Waiter(s.c.nextCall, p)], ControlPurpose);
    CollectOne(Waiter(s.c.nextCall, p), ControlPurpose);
  }

  lemma ControlCallKeepsControl(s: System, e: Event, now: int)
    requires ControlInv(s) && ControlCall(e) && InFlight(s) == [] && Issued(s.c, e).Some?
    ensures ControlInv(SysNext(s, Client(e), now))
  {
    var s' := SysNext(s, Client(e), now);
    var (m, p) := Issued(s.c, e).value;
    assert LifetimeInv(s'.c) by { NextKeepsLifetime(s.c, e, now); }
    ControlCallIssues(s, e, now);
    if Alive(s.w) {
      PhaseStarts(s.c, e, Asked(s), Told(s), s.w);
      if !e.CallStep? { BaseOnlyForSteps(s.c.state, p, Asked(s'), Told(s'), s.w, s.w.cpu.total, s'.base); }
    }
  }

  lemma OtherCallKeepsControl(s: System, e: Event, now: int)
    requires ControlInv(s) && IsCall(e)
    requires !ControlCall(e) || (InFlight(s) == [] && Issued(s.c, e).None?)
    ensures ControlInv(SysNext(s, Client(e), now))
  {
    var s' := SysNext(s, Client(e), now);
    var sent := Next(s.c, e, now).1;
    assert LifetimeInv(s'.c) by { NextKeepsLifetime(s.c, e, now); }
    CallShape(s.c, e, now);
    assert Asked(s') == Asked(s) by {
      CollectAppend(s.down, sent, ControlCommand);
      if sent != [] { CollectOne(sent[0], ControlCommand); }
    }
    assert InFlight(s') == InFlight(s) by {
      if Issued(s.c, e).Some? {
        var w := Waiter(s.c.nextCall, Issued(s.c, e).value.1);
        CollectAppend(s.c.waiters, [w], ControlPurpose);
        CollectOne(w, ControlPurpose);
      }
    }
  }

  lemma ClientKeepsControl(s: System, e: Event, now: int)
    requires ControlInv(s) && IsCall(e) && Awaited(s, Client(e))
    ensures ControlInv(SysNext(s, Client(e), now))
  {
    if ControlCall(e) && Issued(s.c, e).Some? {
      ControlCallKeepsControl(s, e, now);
    } else {
      OtherCallKeepsControl(s, e, now);
    }
  }

  lemma NewWorkerKeepsControl(s: System, e: SysEvent, now: int)
    requires ControlInv(s) && e.NewWorker? && Awaited(s, e)
    ensures ControlInv(SysNext(s, e, now))
  {
    NextKeepsLifetime(s.c, CallStart(e.mode), now);
    if !s.c.hasWorker {
      var s' := SysNext(s, e, now);
      CollectOne(s'.up[0], ControlReply);
      CollectOne(s'.c.waiters[0], ControlPurpose);
      assert s'.c.waiters == [s'.c.waiters[0]];
    }
  }

  lemma EnvironmentKeepsControl(s: System, f: Event, now: int)
    requires ControlInv(s) && Possible(s, Environment(f)) && Lasting(f)
    ensures ControlInv(SysNext(s, Environment(f), now))
  {
    NextKeepsLifetime(s.c, f, now);
    if IsFailure(s.c, f, now) { FailureIsTorn(s.c, f, now); }
  }

  lemma {:induction false} ControlThroughout(t: nat, es: Schedule)
    requires AwaitedThroughout(t, es)
    ensures ControlInv(RunFrom(t, es))
  {
    if es != [] {
      var pre := es[..|es| - 1];
      assert AwaitedThroughout(t, pre) by {
        forall k | 0 <= k < |pre| ensures Awaited(RunFrom(t, pre[..k]), pre[k].0) { assert pre[..k] == es[..k]; }
      }
      ControlThroughout(t, pre);
      var s := RunFrom(t, pre);
      var (e, now) := es[|es| - 1];
      assert Awaited(s, e);
      if Possible(s, e) {
        match e
        case Client(call) => ClientKeepsControl(s, call, now);
        case Environment(f) => EnvironmentKeepsControl(s, f, now);
        case NewWorker(_, _, _) => NewWorkerKeepsControl(s, e, now);
        case WorkerTakes(clock) => TakesKeepsControl(s, clock, now);
        case WorkerTimer(clock) => TimerKeepsControl(s, clock, now);
        case Deliver => DeliverKeepsControl(s, now);
      }
    }
  }

  lemma {:induction false} CollectMember<T, U>(s: seq<T>, f: T -> Option<U>, i: nat)
    requires i < |s| && f(s[i]).Some?
    ensures f(s[i]).value in Collect(s, f)
  {
    if i > 0 { CollectMember(s[1..], f, i - 1); }
  }

  lemma {:induction false} CollectSource<T, U>(s: seq<T>, f: T -> Option<U>, u: U) returns (i: nat)
    requires u in Collect(s, f)
    ensures i < |s| && f(s[i]) == Some(u)
  {
    if f(s[0]) == Some(u) {
      i := 0;
    } else {
      i := CollectSource(s[1..], f, u);
      i := i + 1;
    }
  }

  /** `m` is the request whose acknowledgement `p` waits for. */
  predicate Requests(m: Command, p: Purpose) {
    match p
    case ForStarted => m.Start?
    case ForPause => m.Pause?
    case ForResume => m.Resume?
    case ForStepped => m.Step?
    case _ => false
  }

  /** The reply `p` waits for is under way, or its request is, or the worker is about to run the step. */
  ghost predicate AckUnderWay(s: System, p: Purpose) {
    || (exists i :: 0 <= i < |s.down| && Requests(s.down[i], p))
    || (exists i :: 0 <= i < |s.up| && AckOf(s.up[i]) == Some(Awaits(p)))
    || (p.ForStepped? && s.w.steps == 1 && !s.w.paused && Ticking(s.w))
  }

  /** Coordinator and worker agree whenever no control call is in flight; a paused VM sends no
      heartbeat; a step executes at most one instruction; no awaited acknowledgement is lost; and
      the loop is parked only while paused. */
  ghost predicate Agreement(s: System) {
    && (InFlight(s) == [] ==> (s.c.state.VmRunning? <==> !s.w.paused) && (s.c.state.VmPaused? <==> s.w.paused))
    && (InFlight(s) == [] && s.c.state.VmPaused? ==> forall i :: 0 <= i < |s.up| ==> !s.up[i].Heartbeat?)
    && (InFlight(s) == [ForStepped] || InFlight(s) == [ForStepPaused] ==> s.base <= s.w.cpu.total <= s.base + 1)
    && (InFlight(s) != [] ==> AckUnderWay(s, InFlight(s)[0]))
    && (s.w.loop.Parked? ==> s.w.paused && !s.w.stopping)
  }

  lemma PhaseHasAck(s: System)
    requires |InFlight(s)| == 1 && Phase(s.c.state, InFlight(s), Asked(s), Told(s), s.w, s.base)
    ensures AckUnderWay(s, InFlight(s)[0])
  {
    var p, told := InFlight(s)[0], Told(s);
    if Asked(s) != [] {
      var i := CollectSource(s.down, ControlCommand, Asked(s)[0]);
    } else if !(p.ForStepped? && s.w.steps == 1) {
      var k := if p.ForPause? then |told| - 1 else if p.ForStepped? then |told| - 2 else 0;
      assert AckOf(told[k]) == Some(Awaits(p));
      var i := CollectSource(s.up, ControlReply, told[k]);
      assert s.up[i] == told[k];
    }
  }

  /** For a client that awaits each control call, in every run, as long as the worker is alive. */
  lemma PauseAndStepAgree(t: nat, es: Schedule)
    requires AwaitedThroughout(t, es)
    ensures var s := RunFrom(t, es); s.c.hasWorker && Alive(s.w) ==> Agreement(s)
  {
    ControlThroughout(t, es);
    var s := RunFrom(t, es);
    if s.c.hasWorker && Alive(s.w) {
      if InFlight(s) == [] && s.c.state.VmPaused? {
        forall i | 0 <= i < |s.up| ensures !s.up[i].Heartbeat? {
          if s.up[i].Heartbeat? { CollectMember(s.up, ControlReply, i); }
        }
      }
      if InFlight(s) != [] { PhaseHasAck(s); }
    }
  }
}
