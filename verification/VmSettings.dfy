/** What a client sets, followed to the worker (src/vmCoordinator.js, src/cpuWorker.js). */
module VmSettings {
  import opened Prelude
  import opened CpuWorker
  import opened VmCoordinator
  import opened VmSystem

  // ---- Background -------------------------------------------------------------------------------

  /** The flag that `sent` leaves behind if it is `on` before. */
  function Backgrounded(on: bool, sent: seq<Command>): bool {
    if sent == [] then on
    else if sent[|sent| - 1].SetBackgrounded? then sent[|sent| - 1].on
    else Backgrounded(on, sent[..|sent| - 1])
  }

  lemma {:induction false} BackgroundedAppend(on: bool, a: seq<Command>, b: seq<Command>)
    ensures Backgrounded(on, a + b) == Backgrounded(Backgrounded(on, a), b)
  {
    if b == [] {
      assert a + b == a;
    } else {
      assert (a + b)[..|a + b| - 1] == a + b[..|b| - 1];
      BackgroundedAppend(on, a, b[..|b| - 1]);
    }
  }

  lemma BackgroundedHead(on: bool, sent: seq<Command>)
    requires sent != []
    ensures var first := if sent[0].SetBackgrounded? then sent[0].on else on;
            Backgrounded(on, sent) == Backgrounded(first, sent[1..])
  {
    assert sent == [sent[0]] + sent[1..];
    assert [sent[0]][..0] == [];
    BackgroundedAppend(on, [sent[0]], sent[1..]);
  }

  /** What the client last asked of the latest worker; workers start in the foreground. */
  function LastAsked(t: nat, es: Schedule): bool {
    if es == [] then false else
      var pre, e := es[..|es| - 1], es[|es| - 1].0;
      var live := RunFrom(t, pre).c.hasWorker;
      if e.NewWorker? && !live then false
      else if e.Client? && e.e.CallSetBackgrounded? && live then e.e.on
      else LastAsked(t, pre)
  }

  lemma CallBackgrounds(c: Coord, e: Event, now: int, on: bool)
    requires Enabled(c, e) && !e.CallStart?
    ensures Backgrounded(on, Next(c, e, now).1) == if e.CallSetBackgrounded? && c.hasWorker then e.on else on
  {
    var sent := Next(c, e, now).1;
    assert |sent| <= 1;
    if sent != [] { assert sent[..0] == []; }
  }

  lemma SysNextBackgrounds(s: System, e: SysEvent, now: int)
    requires Possible(s, e) && !e.NewWorker?
    ensures var s' := SysNext(s, e, now);
            Backgrounded(s'.w.backgrounded, s'.down) ==
            if e.Client? && e.e.CallSetBackgrounded? && s.c.hasWorker then e.e.on
            else Backgrounded(s.w.backgrounded, s.down)
  {
    var on := s.w.backgrounded;
    match e
    case Client(call) =>
      CallBackgrounds(s.c, call, now, Backgrounded(on, s.down));
      BackgroundedAppend(on, s.down, Next(s.c, call, now).1);
    case WorkerTakes(clock) =>
      SleepsExactly(s.w, s.down[0], clock);
      BackgroundedHead(on, s.down);
    case WorkerTimer(clock) => SleepsExactly(s.w, Pause, clock);
    case Deliver =>
      CallBackgrounds(s.c, Receive(s.up[0]), now, Backgrounded(on, s.down));
      BackgroundedAppend(on, s.down, Next(s.c, Receive(s.up[0]), now).1);
    case Environment(_) =>
  }

  /** In every run, once it has taken what is under way to it, the worker is in the background exactly if that
      is what was last asked of it. */
  lemma {:induction false} BackgroundReachesWorker(t: nat, es: Schedule)
    ensures var s := RunFrom(t, es); Backgrounded(s.w.backgrounded, s.down) == LastAsked(t, es)
  {
    if es != [] {
      var pre := es[..|es| - 1];
      var s := RunFrom(t, pre);
      var (e, now) := es[|es| - 1];
      BackgroundReachesWorker(t, pre);
      if Possible(s, e) && !e.NewWorker? { SysNextBackgrounds(s, e, now); }
    }
  }

  // ---- Start mode ---------------------------------------------------------------------------------

  predicate ModesAre(ws: seq<Waiter>, sent: seq<Command>, mode: Mode) {
    && (forall i :: 0 <= i < |ws| && ws[i].purpose.ForReady? ==> ws[i].purpose.mode == mode)
    && (forall i :: 0 <= i < |sent| && sent[i].Start? ==> sent[i].mode == mode)
  }

  /** The mode given to the start of the latest worker. */
  function LatestMode(t: nat, es: Schedule): Mode {
    if es == [] then Cooperative else
      var pre, e := es[..|es| - 1], es[|es| - 1].0;
      if e.NewWorker? && !RunFrom(t, pre).c.hasWorker then e.mode else LatestMode(t, pre)
  }

  predicate NoStartWaits(ws: seq<Waiter>) {
    forall i :: 0 <= i < |ws| ==> !ws[i].purpose.ForReady?
  }

  /** No worker is started while an earlier start still waits for its own. */
  ghost predicate StartsAlone(t: nat, es: Schedule) {
    forall k :: 0 <= k < |es| && es[k].0.NewWorker? ==>
      var c := RunFrom(t, es[..k]).c; c.hasWorker || NoStartWaits(c.waiters)
  }

  lemma ModesJoin(ws: seq<Waiter>, more: seq<Waiter>, down: seq<Command>, sent: seq<Command>, mode: Mode)
    requires ModesAre(ws, down, mode) && ModesAre(more, sent, mode)
    ensures ModesAre(ws + more, down + sent, mode)
  {
  }

  lemma ModesWithout(ws: seq<Waiter>, i: nat, down: seq<Command>, mode: Mode)
    requires i < |ws| && ModesAre(ws, down, mode)
    ensures ModesAre(RemoveAt(ws, i), down, mode)
    ensures ws[i].purpose.ForReady? ==> ws[i].purpose.mode == mode
  {
  }

  lemma ReceivedKeepsModes(c: Coord, r: Reply, now: int, down: seq<Command>, mode: Mode)
    requires ModesAre(c.waiters, down, mode)
    ensures var (c', sent) := Received(c, r, now); ModesAre(c'.waiters, down + sent, mode)
  {
    var (c', sent) := Received(c, r, now);
    var t := AckOf(r);
    if r.Heartbeat? || r.Fatal? || t.None? || FirstFor(c.waiters, t.value) == |c.waiters| {
      assert down + sent == down;
    } else {
      var i := FirstFor(c.waiters, t.value);
      var ws := RemoveAt(c.waiters, i);
      ModesWithout(c.waiters, i, down, mode);
      assert c'.waiters == ws + c'.waiters[|ws|..];
      ModesJoin(ws, c'.waiters[|ws|..], down, sent, mode);
    }
  }

  lemma CallKeepsModes(c: Coord, e: Event, now: int, down: seq<Command>, mode: Mode)
    requires (IsCall(e) || e.CallShutdown?) && ModesAre(c.waiters, down, mode)
    ensures var (c', sent) := Next(c, e, now); ModesAre(c'.waiters, down + sent, mode)
  {
    var (c', sent) := Next(c, e, now);
    assert c'.waiters == c.waiters + c'.waiters[|c.waiters|..];
    ModesJoin(c.waiters, c'.waiters[|c.waiters|..], down, sent, mode);
  }

  lemma FaultKeepsModes(c: Coord, e: Event, now: int, down: seq<Command>, mode: Mode)
    requires (IsFault(e) || e.TerminateDone?) && Enabled(c, e) && ModesAre(c.waiters, down, mode)
    ensures ModesAre(Next(c, e, now).0.waiters, down, mode)
  {
    if e.AckTimeout? { ModesWithout(c.waiters, e.i, down, mode); }
  }

  lemma SysNextKeepsModes(s: System, e: SysEvent, now: int, mode: Mode)
    requires Possible(s, e) && ModesAre(s.c.waiters, s.down, mode) && (e.NewWorker? ==> s.c.hasWorker)
    ensures var s' := SysNext(s, e, now); ModesAre(s'.c.waiters, s'.down, mode)
  {
    match e
    case Client(call) => CallKeepsModes(s.c, call, now, s.down, mode);
    case Environment(f) => FaultKeepsModes(s.c, f, now, s.down, mode);
    case Deliver => ReceivedKeepsModes(s.c, s.up[0], now, s.down, mode);
    case _ =>
  }

  /** In every such run, each request to start carries the mode that the latest worker was started with. */
  lemma {:induction false} ModeReachesWorker(t: nat, es: Schedule)
    requires StartsAlone(t, es)
    ensures var s := RunFrom(t, es); ModesAre(s.c.waiters, s.down, LatestMode(t, es))
  {
    if es != [] {
      var pre := es[..|es| - 1];
      var s := RunFrom(t, pre);
      var (e, now) := es[|es| - 1];
      assert StartsAlone(t, pre) by {
        forall k | 0 <= k < |pre| && pre[k].0.NewWorker?
          ensures var c := RunFrom(t, pre[..k]).c; c.hasWorker || NoStartWaits(c.waiters)
        {
          assert pre[..k] == es[..k] && es[k] == pre[k];
        }
      }
      ModeReachesWorker(t, pre);
      if Possible(s, e) && (e.NewWorker? ==> s.c.hasWorker) { SysNextKeepsModes(s, e, now, LatestMode(t, pre)); }
    }
  }

  /** The mode of the oldest start that still waits, or `mode` if none does. */
  function OldestStart(ws: seq<Waiter>, mode: Mode): Mode {
    if ws == [] then mode else if ws[0].purpose.ForReady? then ws[0].purpose.mode else OldestStart(ws[1..], mode)
  }

  lemma {:induction false} OldestIsFirst(ws: seq<Waiter>, own: Waiter)
    requires own.purpose.ForReady?
    ensures var all := ws + [own];
            var i := FirstFor(all, AckReady);
            i < |all| && all[i].purpose == ForReady(OldestStart(ws, own.purpose.mode))
  {
    if ws == [] {
      assert ws + [own] == [own];
    } else {
      assert (ws + [own])[1..] == ws[1..] + [own];
      OldestIsFirst(ws[1..], own);
    }
  }

  lemma ReadyStartsOldest(c: Coord, own: Waiter, later: int)
    requires own.purpose.ForReady? && c.waiters != [] && c.waiters[|c.waiters| - 1] == own
    ensures Received(c, Ready, later).1 ==
            [Start(OldestStart(c.waiters[..|c.waiters| - 1], own.purpose.mode))]
  {
    var ws := c.waiters[..|c.waiters| - 1];
    assert c.waiters == ws + [own];
    OldestIsFirst(ws, own);
  }

  /** The two steps of `LeftOverStartDecides`. */
  lemma ReadyDelivered(s: System, mode: Mode, limits: Limits, now: int, later: int)
    requires !s.c.hasWorker
    ensures var s1 := SysNext(s, NewWorker(mode, limits, true), now);
            Possible(s1, Deliver) && SysNext(s1, Deliver, later).down == [Start(OldestStart(s.c.waiters, mode))]
  {
    var own := Waiter(s.c.nextCall, ForReady(mode));
    var s1 := SysNext(s, NewWorker(mode, limits, true), now);
    assert s1.up == [Ready] && s1.down == [] && s1.c.waiters == s.c.waiters + [own] && s1.c.hasWorker;
    ReadyStartsOldest(s1.c, own, later);
    assert s1.c.waiters[..|s1.c.waiters| - 1] == s.c.waiters;
    assert [] + Received(s1.c, Ready, later).1 == Received(s1.c, Ready, later).1;
  }

  /** Without that condition: after every run without a worker, the next worker is asked to start in the mode of
      the oldest start that still waits, and so in its own mode if and only if none waits or that mode is the
      same. */
  lemma LeftOverStartDecides(t: nat, es: Schedule, mode: Mode, limits: Limits, now: int, later: int)
    requires !RunFrom(t, es).c.hasWorker
    ensures RunFrom(t, es + [(NewWorker(mode, limits, true), now)] + [(Deliver, later)]).down ==
            [Start(OldestStart(RunFrom(t, es).c.waiters, mode))]
  {
    ReadyDelivered(RunFrom(t, es), mode, limits, now, later);
    RunMore(t, es, NewWorker(mode, limits, true), now);
    RunMore(t, es + [(NewWorker(mode, limits, true), now)], Deliver, later);
  }
}
