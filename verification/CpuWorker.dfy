/** The CPU worker thread of src/cpuWorker.js, and the messages it exchanges with the coordinator.

    One call of `Handled` or `LoopResumed` is one macrotask: everything that runs before the
    thread looks at its next message or timer, including a loop continuation that the handler
    woke up. */
module CpuWorker {
  import opened Prelude
  import LruCache

  datatype Mode = Cooperative | NonYielding | Crash

  datatype CacheName = DiskCache | ShaderCache | OtherCache

  /** Coordinator to worker. `call` is provenance for the routing theorem; nobody branches on it. `spare` is
      the key that the worker will make up, from the time and a random number, if `key` is empty. */
  datatype Command =
    | Start(mode: Mode)
    | Pause
    | Resume
    | Step
    | SetBackgrounded(on: bool)
    | RequestSnapshot(reason: string, call: nat)
    | Shutdown
    | CacheWrite(requestId: nat, cache: CacheName, size: Option<int>, key: string, spare: string, call: nat)
    | Unrecognised

  /** Worker to coordinator. */
  datatype Reply =
    | Ready
    | Started
    | Paused
    | Resumed
    | Stepping
    | Stepped(executed: nat)
    | Heartbeat(executed: nat, total: nat, pc: nat)
    | SnapshotTaken(reason: string, total: nat, call: nat)
    | CacheWriteResult(requestId: nat, ok: bool, diskBytes: int, shaderBytes: int, call: nat)
    | ShutdownAck
    | Fatal

  // ---- The fake CPU -----------------------------------------------------------------------

  datatype Cpu = Cpu(pc: nat, total: nat, reg0: int)

  /** The three counters count the same instructions, each in its own width. */
  predicate CountersAgree(c: Cpu) {
    c.pc == ToUint32(c.total) && c.reg0 == ToInt32(c.total)
  }

  function Ran(c: Cpu, n: nat): (r: Cpu)
    ensures CountersAgree(c) ==> CountersAgree(r)
  {
    Cpu(ToUint32(c.pc + n), c.total + n, ToInt32(c.reg0 + n))
  }

  lemma WrapStep(x: int)
    ensures ToUint32(ToUint32(x) + 1) == ToUint32(x + 1)
    ensures ToInt32(ToInt32(x) + 1) == ToInt32(x + 1)
  {
  }

  /** One more turn of the slice loop; the instruction total is added once, at the end. */
  lemma RanStep(c: Cpu, n: nat)
    ensures Ran(c, n + 1).pc == ToUint32(Ran(c, n).pc + 1) && Ran(c, n + 1).reg0 == ToInt32(Ran(c, n).reg0 + 1)
    ensures CountersAgree(c) ==> Ran(c, 0) == c
  {
    WrapStep(c.pc + n);
    WrapStep(c.reg0 + n);
  }

  function Min(a: nat, b: nat): nat {
    if a < b then a else b
  }

  class FakeCpu {
    var pc: nat
    var totalInstructions: nat
    var reg0: int

    function Model(): Cpu
      reads this
    {
      Cpu(pc, totalInstructions, reg0)
    }

    constructor ()
      ensures Model() == Cpu(0, 0, 0)
    {
      pc, totalInstructions, reg0 := 0, 0, 0;
    }

    /** `clock` is how many times the deadline test still succeeds. */
    method ExecuteSlice(maxInstructions: nat, clock: nat) returns (executed: nat)
      requires CountersAgree(Model())
      modifies this
      ensures executed == Min(maxInstructions, clock)
      ensures Model() == Ran(old(Model()), executed)
    {
      executed := 0;
      ghost var start := Model();
      RanStep(start, 0);
      while executed < maxInstructions && executed < clock
        invariant executed <= maxInstructions && executed <= clock
        invariant pc == Ran(start, executed).pc && reg0 == Ran(start, executed).reg0
        invariant totalInstructions == start.total
      {
        RanStep(start, executed);
        reg0 := ToInt32(reg0 + 1);
        pc := ToUint32(pc + 1);
        executed := executed + 1;
      }
      totalInstructions := totalInstructions + executed;
    }
  }

  // ---- Worker state -----------------------------------------------------------------------

  /** Where the run loop is between macrotasks. `Parked` is `wake !== null`. */
  datatype Loop = NotStarted | Parked | Yielded | Sleeping | Hung | Exited(code: nat)

  datatype Limits = Limits(slice: nat, disk: int, shader: int, throttleMs: int)

  datatype Worker = Worker(
    limits: Limits,
    running: bool,
    paused: bool,
    stopping: bool,
    backgrounded: bool,
    steps: nat,
    loop: Loop,
    cpu: Cpu,
    disk: seq<LruCache.Entry<string, ()>>,
    shader: seq<LruCache.Entry<string, ()>>)

  predicate Alive(w: Worker) {
    !w.loop.Hung? && !w.loop.Exited?
  }

  /** The loop is waiting for a timer, not for `wakeLoop`. */
  predicate Ticking(w: Worker) {
    w.loop.Yielded? || w.loop.Sleeping?
  }

  function Fresh(limits: Limits): Worker {
    Worker(limits, false, true, false, false, 0, NotStarted, Cpu(0, 0, 0), [], [])
  }

  /** From the `while (!stopping)` test to the next `await`. */
  function LoopTop(w: Worker, clock: nat): (Worker, seq<Reply>) {
    if w.stopping then (w.(loop := Exited(0)), [ShutdownAck])
    else if !w.running || w.paused then (w.(loop := Parked), [])
    else
      var executed := Min(if w.steps > 0 then 1 else w.limits.slice, clock);
      var cpu := Ran(w.cpu, executed);
      var beat := Heartbeat(executed, cpu.total, cpu.pc);
      if w.steps > 0 then
        (w.(cpu := cpu, loop := Yielded, steps := w.steps - 1, paused := true), [beat, Stepped(executed), Paused])
      else
        (w.(cpu := cpu, loop := Yielded), [beat])
  }

  /** The immediate or the throttle timer fires. */
  function LoopResumed(w: Worker, clock: nat): (Worker, seq<Reply>) {
    if w.loop.Yielded? && w.backgrounded && w.limits.throttleMs > 0 then (w.(loop := Sleeping), [])
    else if Ticking(w) then LoopTop(w, clock)
    else (w, [])
  }

  /** `wakeLoop()`, with the continuation that then runs before anything else. */
  function Woken(w: Worker, posted: seq<Reply>, clock: nat): (Worker, seq<Reply>) {
    if w.loop.Parked? then
      var (w', more) := LoopTop(w, clock);
      (w', posted + more)
    else (w, posted)
  }

  lemma LoopTopIgnoresLoop(w: Worker, loop: Loop, clock: nat)
    ensures LoopTop(w.(loop := loop), clock) == LoopTop(w, clock)
  {
  }

  lemma WokenPosts(w: Worker, outbox: seq<Reply>, r: Reply, clock: nat)
    ensures Woken(w, [r], clock).0 == Woken(w, [], clock).0
    ensures (outbox + [r]) + Woken(w, [], clock).1 == outbox + Woken(w, [r], clock).1
  {
    assert (outbox + [r]) + LoopTop(w, clock).1 == outbox + ([r] + LoopTop(w, clock).1);
    assert [] + LoopTop(w, clock).1 == LoopTop(w, clock).1;
  }

  function CacheKey(m: Command): string
    requires m.CacheWrite?
  {
    if m.key == "" then m.spare else m.key
  }

  function CacheWritten(w: Worker, m: Command): (Worker, seq<Reply>)
    requires m.CacheWrite?
  {
    if m.cache.OtherCache? then (w, [CacheWriteResult(m.requestId, false, 0, 0, m.call)])
    else if m.size.None? || m.size.value < 0 then (w, [CacheWriteResult(m.requestId, false, 0, 0, m.call)])
    else
      var limit := if m.cache.DiskCache? then w.limits.disk else w.limits.shader;
      var es := if m.cache.DiskCache? then w.disk else w.shader;
      var ok := m.size.value <= limit;
      var es' := if ok then LruCache.Stored(es, CacheKey(m), (), m.size.value, limit) else es;
      var w' := if m.cache.DiskCache? then w.(disk := es') else w.(shader := es');
      (w', [CacheWriteResult(m.requestId, ok, LruCache.Bytes(w'.disk), LruCache.Bytes(w'.shader), m.call)])
  }

  /** The `message` handler. */
  function Handled(w: Worker, m: Command, clock: nat): (Worker, seq<Reply>)
    requires Alive(w)
  {
    match m
    case Start(mode) =>
      if w.running then (w, []) else
        var w' := w.(running := true, paused := false);
        (match mode
         case NonYielding => (w'.(loop := Hung), [Started])
         case Crash => (w'.(loop := Exited(1)), [Started, Fatal])
         case Cooperative =>
           if w'.loop.NotStarted? then
             var (w'', posted) := LoopTop(w', clock);
             (w'', [Started] + posted)
           else Woken(w', [Started], clock))
    case Pause => if !w.running then (w, []) else (w.(paused := true), [Paused])
    case Resume => if !w.running then (w, []) else Woken(w.(paused := false), [Resumed], clock)
    case Step => if !w.running then (w, []) else Woken(w.(steps := w.steps + 1, paused := false), [Stepping], clock)
    case SetBackgrounded(on) => (w.(backgrounded := on), [])
    case RequestSnapshot(reason, call) => (w, [SnapshotTaken(reason, w.cpu.total, call)])
    case Shutdown => Woken(w.(stopping := true, paused := false), [], clock)
    case CacheWrite(_, _, _, _, _, _) => CacheWritten(w, m)
    case Unrecognised => (w.(loop := Exited(1)), [Fatal])
  }

  // ---- What every macrotask keeps -----------------------------------------------------------

  /** No parked loop is owed a wake-up; the loop runs exactly when the VM does; counters and
      cache totals are in step. */
  ghost predicate WorkerInv(w: Worker) {
    && (w.loop.Parked? ==> w.paused && !w.stopping)
    && (Alive(w) ==> (w.running <==> !w.loop.NotStarted?))
    && (!w.running ==> w.steps == 0 && (w.paused || w.stopping))
    && CountersAgree(w.cpu)
    && (0 <= w.limits.disk ==> LruCache.Bytes(w.disk) <= w.limits.disk)
    && (0 <= w.limits.shader ==> LruCache.Bytes(w.shader) <= w.limits.shader)
  }

  lemma FreshWorkerInv(limits: Limits)
    ensures WorkerInv(Fresh(limits))
  {
  }

  lemma StoredFits(es: seq<LruCache.Entry<string, ()>>, k: string, size: int, max: int)
    requires size <= max
    ensures LruCache.Bytes(LruCache.Stored(es, k, (), size, max)) <= max
  {
    LruCache.NewestSurvives(LruCache.Without(es, k) + [LruCache.Entry(k, (), size)], max);
  }

  lemma CacheWrittenKeepsInv(w: Worker, m: Command)
    requires WorkerInv(w) && Alive(w) && m.CacheWrite?
    ensures WorkerInv(CacheWritten(w, m).0)
  {
    if m.size.Some? {
      var limit := if m.cache.DiskCache? then w.limits.disk else w.limits.shader;
      var es := if m.cache.DiskCache? then w.disk else w.shader;
      if m.size.value <= limit { StoredFits(es, CacheKey(m), m.size.value, limit); }
    }
  }

  function CacheOf(w: Worker, cache: CacheName): seq<LruCache.Entry<string, ()>> {
    if cache.DiskCache? then w.disk else w.shader
  }

  function CacheLimit(w: Worker, cache: CacheName): int {
    if cache.DiskCache? then w.limits.disk else w.limits.shader
  }

  /** The reply says whether the entry was taken. If it was, it is the newest of the named cache, and
      that cache fits its own limit; otherwise, and for the other cache always, nothing changes. */
  lemma CacheWriteIsStored(w: Worker, m: Command, clock: nat)
    requires Alive(w) && m.CacheWrite?
    ensures var (w', posted) := Handled(w, m, clock);
            && |posted| == 1 && posted[0].CacheWriteResult?
            && posted[0].requestId == m.requestId && posted[0].call == m.call
            && (if !m.cache.OtherCache? && m.size.Some? && 0 <= m.size.value then
                  posted[0].diskBytes == LruCache.Bytes(w'.disk) && posted[0].shaderBytes == LruCache.Bytes(w'.shader)
                else posted[0].diskBytes == posted[0].shaderBytes == 0)
            && (posted[0].ok <==> !m.cache.OtherCache? && m.size.Some? && 0 <= m.size.value <= CacheLimit(w, m.cache))
            && (!posted[0].ok ==> w' == w)
            && (posted[0].ok ==>
                  var es := CacheOf(w', m.cache);
                  && es != []
                  && es[|es| - 1] == LruCache.Entry(if |m.key| > 0 then m.key else m.spare, (), m.size.value)
                  && LruCache.Bytes(es) <= CacheLimit(w, m.cache)
                  && w' == if m.cache.DiskCache? then w.(disk := es) else w.(shader := es))
  {
    if !m.cache.OtherCache? && m.size.Some? && 0 <= m.size.value <= CacheLimit(w, m.cache) {
      var es := LruCache.Without(CacheOf(w, m.cache), CacheKey(m)) + [LruCache.Entry(CacheKey(m), (), m.size.value)];
      LruCache.NewestSurvives(es, CacheLimit(w, m.cache));
    }
  }

  lemma StartKeepsInv(w: Worker, mode: Mode, clock: nat)
    requires WorkerInv(w) && Alive(w)
    ensures WorkerInv(Handled(w, Start(mode), clock).0)
  {
  }

  /** For every message in every state, parked or not, stepped or not. */
  lemma HandledKeepsInv(w: Worker, m: Command, clock: nat)
    requires WorkerInv(w) && Alive(w)
    ensures WorkerInv(Handled(w, m, clock).0)
  {
    match m
    case CacheWrite(_, _, _, _, _, _) => CacheWrittenKeepsInv(w, m);
    case Start(mode) => StartKeepsInv(w, mode, clock);
    case _ =>
  }

  lemma LoopResumedKeepsInv(w: Worker, clock: nat)
    requires WorkerInv(w)
    ensures WorkerInv(LoopResumed(w, clock).0)
  {
  }

  datatype Task = Message(m: Command) | Timer

  function Task1(w: Worker, t: Task, clock: nat): (Worker, seq<Reply>) {
    if !Alive(w) then (w, [])
    else match t
      case Message(m) => Handled(w, m, clock)
      case Timer => LoopResumed(w, clock)
  }

  function RunTasks(w: Worker, tasks: seq<(Task, nat)>): (Worker, seq<Reply>)
    decreases |tasks|
  {
    if tasks == [] then (w, []) else
      var (w', posted) := Task1(w, tasks[0].0, tasks[0].1);
      var (w'', more) := RunTasks(w', tasks[1..]);
      (w'', posted + more)
  }

  function Executed(rs: seq<Reply>): nat {
    if rs == [] then 0 else (if rs[0].Heartbeat? then rs[0].executed else 0) + Executed(rs[1..])
  }

  lemma {:induction false} ExecutedAppend(a: seq<Reply>, b: seq<Reply>)
    ensures Executed(a + b) == Executed(a) + Executed(b)
  {
    if a == [] {
      assert a + b == b;
    } else {
      assert (a + b)[1..] == a[1..] + b;
      ExecutedAppend(a[1..], b);
    }
  }

  lemma LoopTopAccounts(w: Worker, clock: nat)
    ensures LoopTop(w, clock).0.cpu.total == w.cpu.total + Executed(LoopTop(w, clock).1)
  {
    var posted := LoopTop(w, clock).1;
    if |posted| == 3 {
      assert posted == [posted[0]] + ([posted[1]] + [posted[2]]);
      ExecutedAppend([posted[0]], [posted[1]] + [posted[2]]);
      ExecutedAppend([posted[1]], [posted[2]]);
    }
  }

  lemma WokenAccounts(w: Worker, posted: seq<Reply>, clock: nat)
    requires Executed(posted) == 0
    ensures Woken(w, posted, clock).0.cpu.total == w.cpu.total + Executed(Woken(w, posted, clock).1)
  {
    LoopTopAccounts(w, clock);
    ExecutedAppend(posted, LoopTop(w, clock).1);
  }

  lemma StartAccounts(w: Worker, mode: Mode, clock: nat)
    requires Alive(w)
    ensures var (w', posted) := Handled(w, Start(mode), clock); w'.cpu.total == w.cpu.total + Executed(posted)
  {
    var w' := w.(running := true, paused := false);
    match mode
    case NonYielding =>
    case Crash =>
      ExecutedAppend([Started], [Fatal]);
      assert [Started] + [Fatal] == [Started, Fatal];
    case Cooperative =>
      LoopTopAccounts(w', clock);
      ExecutedAppend([Started], LoopTop(w', clock).1);
      WokenAccounts(w', [Started], clock);
  }

  lemma HandledAccounts(w: Worker, m: Command, clock: nat)
    requires Alive(w)
    ensures var (w', posted) := Handled(w, m, clock); w'.cpu.total == w.cpu.total + Executed(posted)
  {
    match m
    case Start(mode) => StartAccounts(w, mode, clock);
    case Resume => WokenAccounts(w.(paused := false), [Resumed], clock);
    case Step => WokenAccounts(w.(steps := w.steps + 1, paused := false), [Stepping], clock);
    case Shutdown => WokenAccounts(w.(stopping := true, paused := false), [], clock);
    case _ =>
  }

  /** Every run of messages and timers, in any order: the loop is never parked while it should
      be running or stopping, and the heartbeats account for every instruction. */
  lemma {:induction false} EveryWorkerRun(w: Worker, tasks: seq<(Task, nat)>)
    requires WorkerInv(w)
    ensures WorkerInv(RunTasks(w, tasks).0)
    ensures RunTasks(w, tasks).0.cpu.total == w.cpu.total + Executed(RunTasks(w, tasks).1)
    decreases |tasks|
  {
    if tasks != [] {
      var (t, clock) := tasks[0];
      var (w', posted) := Task1(w, t, clock);
      if Alive(w) {
        if t.Message? {
          HandledKeepsInv(w, t.m, clock);
          HandledAccounts(w, t.m, clock);
        } else {
          LoopResumedKeepsInv(w, clock);
          LoopTopAccounts(w, clock);
        }
      }
      EveryWorkerRun(w', tasks[1..]);
      ExecutedAppend(posted, RunTasks(w', tasks[1..]).1);
    }
  }

  /** The same from the start of the thread: the heartbeats posted so far add up to the total. */
  lemma EveryRunFromFresh(limits: Limits, tasks: seq<(Task, nat)>)
    ensures WorkerInv(RunTasks(Fresh(limits), tasks).0)
    ensures RunTasks(Fresh(limits), tasks).0.cpu.total == Executed(RunTasks(Fresh(limits), tasks).1)
  {
    FreshWorkerInv(limits);
    EveryWorkerRun(Fresh(limits), tasks);
  }

  // ---- Steps that have to wait for a further call ---------------------------------------------

  /** More steps are owed than the loop will run before it pauses: one if it is not paused yet, else none.
      The others wait for a further resume or step. */
  predicate Overdue(w: Worker) {
    !w.stopping && w.steps > if w.paused then 0 else 1
  }

  /** A turn of the loop ends paused with a step owed exactly when steps were overdue before. */
  lemma TurnLeavesOwedExactly(w: Worker, clock: nat)
    requires w.running && !w.stopping
    ensures var w' := LoopTop(w, clock).0; w'.paused && w'.steps > 0 <==> Overdue(w)
  {
  }

  /** The message overlaps a step that is still owed. */
  predicate Overlaps(w: Worker, t: Task) {
    t.Message? && (t.m.Step? || t.m.Pause?) && Alive(w) && w.running && !w.stopping && w.steps > 0
  }

  /** The state before task `k`. */
  function StateAt(w: Worker, tasks: seq<(Task, nat)>, k: nat): Worker
    requires k <= |tasks|
  {
    if k == 0 then w else
      var before := StateAt(w, tasks, k - 1);
      Task1(before, tasks[k - 1].0, tasks[k - 1].1).0
  }

  /** An overlap makes steps overdue, and nothing else does. */
  lemma TaskMakesOverdueExactly(w: Worker, t: Task, clock: nat)
    requires WorkerInv(w) && !Overdue(w)
    ensures Overdue(Task1(w, t, clock).0) <==> Overlaps(w, t)
  {
    if t.Message? && Alive(w) { MessageMakesOverdueExactly(w, t.m, clock); }
  }

  lemma MessageMakesOverdueExactly(w: Worker, m: Command, clock: nat)
    requires WorkerInv(w) && Alive(w) && !Overdue(w)
    ensures Overdue(Handled(w, m, clock).0) <==> Overlaps(w, Message(m))
  {
    match m
    case Start(mode) => if !w.running { assert w.steps == 0; }
    case _ =>
  }

  lemma {:induction false} InvAt(w: Worker, tasks: seq<(Task, nat)>, k: nat)
    requires WorkerInv(w) && k <= |tasks|
    ensures WorkerInv(StateAt(w, tasks, k))
  {
    if k > 0 {
      InvAt(w, tasks, k - 1);
      var before := StateAt(w, tasks, k - 1);
      var (t, clock) := tasks[k - 1];
      if Alive(before) {
        if t.Message? { HandledKeepsInv(before, t.m, clock); } else { LoopResumedKeepsInv(before, clock); }
      }
    }
  }

  predicate NoOverlap(w: Worker, tasks: seq<(Task, nat)>) {
    forall k :: 0 <= k < |tasks| ==> !Overlaps(StateAt(w, tasks, k), tasks[k].0)
  }

  lemma OneMoreTask(w: Worker, tasks: seq<(Task, nat)>, k: nat)
    requires WorkerInv(w) && k < |tasks| && !Overdue(StateAt(w, tasks, k))
    ensures Overdue(StateAt(w, tasks, k + 1)) <==> Overlaps(StateAt(w, tasks, k), tasks[k].0)
  {
    InvAt(w, tasks, k);
    TaskMakesOverdueExactly(StateAt(w, tasks, k), tasks[k].0, tasks[k].1);
  }

  lemma {:induction false} NoneOverdue(w: Worker, tasks: seq<(Task, nat)>, k: nat)
    requires WorkerInv(w) && !Overdue(w) && NoOverlap(w, tasks) && k <= |tasks|
    ensures !Overdue(StateAt(w, tasks, k))
  {
    if k > 0 {
      var before := k - 1;
      NoneOverdue(w, tasks, before);
      OneMoreTask(w, tasks, before);
    }
  }

  predicate NeverOverdue(w: Worker, tasks: seq<(Task, nat)>) {
    forall k :: 0 <= k <= |tasks| ==> !Overdue(StateAt(w, tasks, k))
  }

  /** Over every sequence of messages and timers, from a new thread or any other with no step overdue: none
      is ever overdue if and only if every step and every pause is taken with no step owed. */
  lemma NoStepOverdueExactly(w: Worker, tasks: seq<(Task, nat)>)
    requires WorkerInv(w) && !Overdue(w)
    ensures NeverOverdue(w, tasks) <==> NoOverlap(w, tasks)
  {
    if NoOverlap(w, tasks) {
      forall k | 0 <= k <= |tasks| ensures !Overdue(StateAt(w, tasks, k)) { NoneOverdue(w, tasks, k); }
    }
    if NeverOverdue(w, tasks) {
      forall k | 0 <= k < |tasks| ensures !Overlaps(StateAt(w, tasks, k), tasks[k].0) { OneMoreTask(w, tasks, k); }
    }
  }

  /** A further resume runs a step that a parked loop owes, and pauses again. */
  lemma ResumeRunsOwedStep(w: Worker, clock: nat)
    requires w.running && !w.stopping && w.loop.Parked? && w.steps > 0
    ensures var (w', posted) := Handled(w, Resume, clock);
            && w'.steps == w.steps - 1 && w'.paused && |posted| == 4
            && posted[0].Resumed? && posted[1].Heartbeat? && posted[2].Stepped? && posted[3].Paused?
  {
  }

  /** A parked loop runs a step before it takes the next message, so that steps taken one after the other
      do not overlap. */
  lemma ParkedStepRunsAtOnce(w: Worker, clock: nat)
    requires w.running && !w.stopping && w.loop.Parked? && w.paused
    ensures var (w', posted) := Handled(w, Step, clock);
            && w'.steps == w.steps && w'.paused && w'.loop.Yielded? && |posted| == 4
            && posted[0].Stepping? && posted[1].Heartbeat? && posted[2].Stepped? && posted[3].Paused?
  {
  }

  /** A resume that finds a step owed is acknowledged, and the loop then pauses all the same. */
  lemma ResumeHoldsExactly(w: Worker, clock: nat, later: nat)
    requires w.running && !w.stopping && (Ticking(w) || w.loop.Parked?)
    ensures var (w', posted) := Handled(w, Resume, clock);
            && posted != [] && posted[0].Resumed?
            && (!LoopTop(w', later).0.paused <==> w.steps == 0)
  {
  }

  // ---- How much each turn executes -------------------------------------------------------------

  /** `t` has the loop take a turn that executes instructions: a timer that fires while the VM runs,
      unless it first starts a throttle sleep; a start; a resume or step that finds the loop parked. */
  predicate Executes(w: Worker, t: Task) {
    Alive(w) && !w.stopping &&
    match t
    case Timer =>
      && w.running && !w.paused && (w.loop.Yielded? || w.loop.Sleeping?)
      && !(w.loop.Yielded? && w.backgrounded && w.limits.throttleMs > 0)
    case Message(m) =>
      || (m.Start? && m.mode.Cooperative? && !w.running)
      || ((m.Resume? || m.Step?) && w.running && w.loop.Parked?)
  }

  /** One instruction if a step is owed, counting the one just asked for, and otherwise a whole slice, but
      never more than the deadline allows. */
  function Due(w: Worker, t: Task, clock: nat): nat {
    var budget := if w.steps > 0 || t == Message(Step) then 1 else w.limits.slice;
    if budget <= clock then budget else clock
  }

  /** `n` instructions were executed, and `posted` says so in exactly one heartbeat, with the new counters. */
  predicate Reported(w: Worker, w': Worker, posted: seq<Reply>, n: nat) {
    && w'.cpu.total == w.cpu.total + n
    && w'.cpu.pc == w'.cpu.total % 4294967296
    && (exists i :: 0 <= i < |posted| && posted[i] == Heartbeat(n, w'.cpu.total, w'.cpu.pc))
    && (forall i, j :: 0 <= i < j < |posted| ==> !(posted[i].Heartbeat? && posted[j].Heartbeat?))
  }

  predicate Unreported(w: Worker, w': Worker, posted: seq<Reply>) {
    w'.cpu == w.cpu && forall i :: 0 <= i < |posted| ==> !posted[i].Heartbeat?
  }

  lemma TimerExecutes(w: Worker, clock: nat)
    requires WorkerInv(w) && Alive(w)
    ensures var (w', posted) := LoopResumed(w, clock);
            if Executes(w, Timer) then Reported(w, w', posted, Due(w, Timer, clock)) else Unreported(w, w', posted)
  {
    var (w', posted) := LoopResumed(w, clock);
    if Executes(w, Timer) {
      LoopResumedKeepsInv(w, clock);
      assert posted[0] == Heartbeat(Due(w, Timer, clock), w'.cpu.total, w'.cpu.pc);
    }
  }

  lemma MessageExecutes(w: Worker, m: Command, clock: nat)
    requires WorkerInv(w) && Alive(w)
    ensures var (w', posted) := Handled(w, m, clock);
            if Executes(w, Message(m)) then Reported(w, w', posted, Due(w, Message(m), clock))
            else Unreported(w, w', posted)
  {
    var (w', posted) := Handled(w, m, clock);
    if Executes(w, Message(m)) {
      HandledKeepsInv(w, m, clock);
      assert posted[1] == Heartbeat(Due(w, Message(m), clock), w'.cpu.total, w'.cpu.pc);
    }
  }

  /** In every run from the start of the thread, every task executes and reports exactly what is due. */
  lemma EveryTaskExecutesItsDue(limits: Limits, tasks: seq<(Task, nat)>, k: nat)
    requires k < |tasks|
    ensures var w, t, clock := StateAt(Fresh(limits), tasks, k), tasks[k].0, tasks[k].1;
            var (w', posted) := Task1(w, t, clock);
            if Executes(w, t) then Reported(w, w', posted, Due(w, t, clock)) else Unreported(w, w', posted)
  {
    var w := StateAt(Fresh(limits), tasks, k);
    var (t, clock) := tasks[k];
    FreshWorkerInv(limits);
    InvAt(Fresh(limits), tasks, k);
    if Alive(w) {
      if t.Message? { MessageExecutes(w, t.m, clock); } else { TimerExecutes(w, clock); }
    }
  }

  // ---- What the replies say ----------------------------------------------------------------------

  /** Every heartbeat and every snapshot shows the instructions executed so far, and every step's reply shows
      what the heartbeat before it does. `total` and `last` are what went before. */
  predicate Truthful(rs: seq<Reply>, total: nat, last: nat) {
    rs == [] ||
    match rs[0]
    case Heartbeat(n, shown, pc) => shown == total + n && pc == shown % 4294967296 && Truthful(rs[1..], shown, n)
    case SnapshotTaken(_, shown, _) => shown == total && Truthful(rs[1..], total, last)
    case Stepped(n) => n == last && Truthful(rs[1..], total, last)
    case _ => Truthful(rs[1..], total, last)
  }

  function LastExecuted(rs: seq<Reply>, last: nat): nat {
    if rs == [] then last else LastExecuted(rs[1..], if rs[0].Heartbeat? then rs[0].executed else last)
  }

  lemma {:induction false} TruthfulAppend(a: seq<Reply>, b: seq<Reply>, total: nat, last: nat)
    ensures Truthful(a + b, total, last) <==>
            Truthful(a, total, last) && Truthful(b, total + Executed(a), LastExecuted(a, last))
    decreases |a|
  {
    if a == [] {
      assert a + b == b;
    } else {
      assert (a + b)[1..] == a[1..] + b && (a + b)[0] == a[0];
      match a[0]
      case Heartbeat(n, _, _) => TruthfulAppend(a[1..], b, total + n, n);
      case _ => TruthfulAppend(a[1..], b, total, last);
    }
  }

  lemma TruthfulPlain(rs: seq<Reply>, total: nat, last: nat)
    requires |rs| == 1 && !rs[0].Heartbeat? && !rs[0].SnapshotTaken? && !rs[0].Stepped?
    ensures Truthful(rs, total, last) && Executed(rs) == 0 && LastExecuted(rs, last) == last
  {
    assert rs[1..] == [];
  }

  lemma LoopTopTruthful(w: Worker, clock: nat, last: nat)
    requires CountersAgree(w.cpu)
    ensures Truthful(LoopTop(w, clock).1, w.cpu.total, last)
  {
    var posted := LoopTop(w, clock).1;
    if |posted| == 3 {
      var a, b, c := posted[0], posted[1], posted[2];
      assert posted[1..] == [b, c] && [b, c][1..] == [c] && [c][1..] == [];
      assert Truthful([c], a.total, a.executed) && Truthful([b, c], a.total, a.executed);
    } else if |posted| == 1 {
      assert posted[1..] == [];
    }
  }

  lemma WokenTruthful(w: Worker, r: Reply, clock: nat, last: nat)
    requires CountersAgree(w.cpu) && !r.Heartbeat? && !r.SnapshotTaken? && !r.Stepped?
    ensures Truthful(Woken(w, [r], clock).1, w.cpu.total, last)
    ensures Truthful([r] + LoopTop(w, clock).1, w.cpu.total, last)
  {
    TruthfulPlain([r], w.cpu.total, last);
    LoopTopTruthful(w, clock, last);
    TruthfulAppend([r], LoopTop(w, clock).1, w.cpu.total, last);
  }

  lemma HandledTruthful(w: Worker, m: Command, clock: nat, last: nat)
    requires WorkerInv(w) && Alive(w)
    ensures Truthful(Handled(w, m, clock).1, w.cpu.total, last)
  {
    var posted := Handled(w, m, clock).1;
    match m
    case Start(mode) =>
      if !w.running {
        WokenTruthful(w.(running := true, paused := false), Started, clock, last);
        TruthfulPlain([Started], w.cpu.total, last);
        TruthfulPlain([Fatal], w.cpu.total, last);
        TruthfulAppend([Started], [Fatal], w.cpu.total, last);
        assert [Started] + [Fatal] == [Started, Fatal];
      }
    case Resume => WokenTruthful(w.(paused := false), Resumed, clock, last);
    case Step => WokenTruthful(w.(steps := w.steps + 1, paused := false), Stepping, clock, last);
    case Shutdown =>
      LoopTopTruthful(w.(stopping := true, paused := false), clock, last);
      assert [] + LoopTop(w.(stopping := true, paused := false), clock).1 ==
             LoopTop(w.(stopping := true, paused := false), clock).1;
    case _ => assert |posted| <= 1;
  }

  lemma TaskTruthful(w: Worker, t: Task, clock: nat, last: nat)
    requires WorkerInv(w)
    ensures var (w', posted) := Task1(w, t, clock);
            && WorkerInv(w') && w'.cpu.total == w.cpu.total + Executed(posted)
            && Truthful(posted, w.cpu.total, last)
  {
    if Alive(w) {
      if t.Message? {
        HandledKeepsInv(w, t.m, clock);
        HandledAccounts(w, t.m, clock);
        HandledTruthful(w, t.m, clock, last);
      } else {
        LoopResumedKeepsInv(w, clock);
        LoopTopAccounts(w, clock);
        LoopTopTruthful(w, clock, last);
      }
    }
  }

  /** Over every run of messages and timers, every number that the worker reports is true. */
  lemma {:induction false} EveryReplyTruthful(w: Worker, tasks: seq<(Task, nat)>, last: nat)
    requires WorkerInv(w)
    ensures Truthful(RunTasks(w, tasks).1, w.cpu.total, last)
    decreases |tasks|
  {
    if tasks != [] {
      var (t, clock) := tasks[0];
      TaskTruthful(w, t, clock, last);
      var (w', posted) := Task1(w, t, clock);
      EveryReplyTruthful(w', tasks[1..], LastExecuted(posted, last));
      TruthfulAppend(posted, RunTasks(w', tasks[1..]).1, w.cpu.total, last);
    }
  }

  /** The two start modes that never come back: one posts nothing more, the other reports the crash first. */
  lemma {:induction false} DeadStaysSilent(w: Worker, tasks: seq<(Task, nat)>)
    requires !Alive(w)
    ensures RunTasks(w, tasks) == (w, [])
    decreases |tasks|
  {
    if tasks != [] {
      DeadStaysSilent(w, tasks[1..]);
      assert [] + RunTasks(w, tasks[1..]).1 == [];
    }
  }

  lemma FailingStartModes(w: Worker, mode: Mode, clock: nat, tasks: seq<(Task, nat)>)
    requires Alive(w) && !w.running && !mode.Cooperative?
    ensures var (w', posted) := Handled(w, Start(mode), clock);
            && posted == (if mode.NonYielding? then [Started] else [Started, Fatal])
            && RunTasks(w', tasks) == (w', [])
  {
    DeadStaysSilent(Handled(w, Start(mode), clock).0, tasks);
  }

  predicate ExitAnnounced(w: Worker, posted: seq<Reply>) {
    && (ShutdownAck in posted <==> w.loop == Exited(0))
    && (Fatal in posted <==> w.loop == Exited(1))
    && (w.loop.Exited? ==> w.loop.code == 0 || w.loop.code == 1)
  }

  lemma LoopTopAnnounces(w: Worker, clock: nat)
    ensures ExitAnnounced(LoopTop(w, clock).0, LoopTop(w, clock).1)
  {
  }

  lemma WokenAnnounces(w: Worker, posted: seq<Reply>, clock: nat)
    requires Alive(w) && ShutdownAck !in posted && Fatal !in posted
    ensures ExitAnnounced(Woken(w, posted, clock).0, Woken(w, posted, clock).1)
    ensures ExitAnnounced(LoopTop(w, clock).0, posted + LoopTop(w, clock).1)
  {
    LoopTopAnnounces(w, clock);
  }

  lemma MessageAnnounces(w: Worker, m: Command, clock: nat)
    requires Alive(w)
    ensures ExitAnnounced(Handled(w, m, clock).0, Handled(w, m, clock).1)
  {
    match m
    case Start(_) => WokenAnnounces(w.(running := true, paused := false), [Started], clock);
    case Resume => WokenAnnounces(w.(paused := false), [Resumed], clock);
    case Step => WokenAnnounces(w.(steps := w.steps + 1, paused := false), [Stepping], clock);
    case Shutdown => WokenAnnounces(w.(stopping := true, paused := false), [], clock);
    case _ =>
  }

  lemma TaskAnnounces(w: Worker, t: Task, clock: nat)
    requires Alive(w)
    ensures ExitAnnounced(Task1(w, t, clock).0, Task1(w, t, clock).1)
  {
    if t.Message? { MessageAnnounces(w, t.m, clock); } else { LoopTopAnnounces(w, clock); }
  }

  /** Over every run, a worker has exited with code 0 exactly when it has acknowledged a shutdown, and with
      code 1 exactly when it has reported a fatal error. */
  lemma {:induction false} EveryExitIsAnnounced(w: Worker, tasks: seq<(Task, nat)>)
    requires Alive(w)
    ensures ExitAnnounced(RunTasks(w, tasks).0, RunTasks(w, tasks).1)
    decreases |tasks|
  {
    if tasks != [] {
      var (t, clock) := tasks[0];
      TaskAnnounces(w, t, clock);
      var (w', posted) := Task1(w, t, clock);
      if Alive(w') { EveryExitIsAnnounced(w', tasks[1..]); } else { DeadStaysSilent(w', tasks[1..]); }
    }
  }

  /** In the background, and only there, the loop sleeps between two slices, if a throttle is configured. */
  lemma SleepsExactly(w: Worker, m: Command, clock: nat)
    requires Alive(w)
    ensures LoopResumed(w, clock).0.loop.Sleeping? <==> w.loop.Yielded? && w.backgrounded && w.limits.throttleMs > 0
    ensures Handled(w, m, clock).0.backgrounded == if m.SetBackgrounded? then m.on else w.backgrounded
    ensures LoopResumed(w, clock).0.backgrounded == w.backgrounded
  {
  }

  /** The module variables, with the CPU and the two caches they own, changed in place by the handler and
      the loop. */
  class CpuThread {
    const limits: Limits
    const cpu: FakeCpu
    const disk: LruCache.SizedLruCache<string, ()>
    const shader: LruCache.SizedLruCache<string, ()>
    var running: bool
    var paused: bool
    var stopping: bool
    var backgrounded: bool
    var stepsRemaining: nat
    var wake: bool
    var loopStarted: bool
    var asleep: bool
    var dead: Option<Loop>
    var outbox: seq<Reply>

    function LoopState(): Loop
      reads this
    {
      if dead.Some? then dead.value
      else if !loopStarted then NotStarted
      else if wake then Parked
      else if asleep then Sleeping
      else Yielded
    }

    function Model(): Worker
      reads this, cpu, disk, shader
    {
      Worker(limits, running, paused, stopping, backgrounded, stepsRemaining, LoopState(), cpu.Model(),
             disk.entries, shader.entries)
    }

    /** What every method keeps about the loop's bookkeeping and the caches. */
    ghost predicate Shape()
      reads this, disk, shader
    {
      && (dead.Some? ==> dead.value.Hung? || dead.value.Exited?) && (wake ==> loopStarted)
      && disk != shader && disk.Valid() && shader.Valid()
      && disk.maxBytes == limits.disk && shader.maxBytes == limits.shader
    }

    ghost predicate Valid()
      reads this, cpu, disk, shader
    {
      WorkerInv(Model()) && Shape()
    }

    /** Initialisation within the RAM limit; otherwise the thread reports and exits. */
    constructor (limits: Limits, ramBytes: int, maxRamBytes: int)
      ensures Valid() && fresh(cpu) && fresh(disk) && fresh(shader)
      ensures ramBytes <= maxRamBytes ==> Model() == Fresh(limits) && outbox == [Ready]
      ensures ramBytes > maxRamBytes ==> LoopState() == Exited(1) && outbox == [Fatal]
    {
      this.limits := limits;
      running, paused, stopping, backgrounded := false, true, false, false;
      stepsRemaining, wake, loopStarted, asleep, dead := 0, false, false, false, None;
      cpu := new FakeCpu();
      disk := new LruCache.SizedLruCache(limits.disk);
      shader := new LruCache.SizedLruCache(limits.shader);
      if ramBytes > maxRamBytes {
        dead := Some(Exited(1));
        outbox := [Fatal];
      } else {
        outbox := [Ready];
      }
    }

    /** `runLoop` from the loop test to its next `await`. */
    method LoopBody(clock: nat)
      requires Shape() && dead.None? && loopStarted && !wake && CountersAgree(cpu.Model())
      modifies this, cpu
      ensures Shape() && (dead.Some? ==> dead.value.Exited?)
      ensures Model() == LoopTop(old(Model()), clock).0
      ensures outbox == old(outbox) + LoopTop(old(Model()), clock).1
    {
      asleep := false;
      if stopping {
        outbox := outbox + [ShutdownAck];
        dead := Some(Exited(0));
        return;
      }
      if !running || paused {
        wake := true;
        return;
      }
      var maxInstructions := if stepsRemaining > 0 then 1 else limits.slice;
      var executed := cpu.ExecuteSlice(maxInstructions, clock);
      outbox := outbox + [Heartbeat(executed, cpu.totalInstructions, cpu.pc)];
      if stepsRemaining > 0 {
        stepsRemaining := stepsRemaining - 1;
        paused := true;
        outbox := outbox + [Stepped(executed)];
        outbox := outbox + [Paused];
      }
    }

    method WakeLoop(clock: nat)
      requires Shape() && dead.None? && CountersAgree(cpu.Model())
      modifies this, cpu
      ensures Shape() && (dead.Some? ==> dead.value.Exited?)
      ensures Model() == Woken(old(Model()), [], clock).0
      ensures outbox == old(outbox) + Woken(old(Model()), [], clock).1
    {
      if wake {
        LoopTopIgnoresLoop(Model(), if asleep then Sleeping else Yielded, clock);
        wake := false;
        LoopBody(clock);
      }
    }

    method HandleMessage(m: Command, clock: nat)
      requires Valid() && Alive(Model())
      modifies this, cpu, disk, shader
      ensures Valid()
      ensures Model() == Handled(old(Model()), m, clock).0
      ensures outbox == old(outbox) + Handled(old(Model()), m, clock).1
    {
      HandledKeepsInv(Model(), m, clock);
      if m.CacheWrite? {
        WriteCache(m);
      } else {
        Control(m, clock);
      }
    }

    method Control(m: Command, clock: nat)
      requires Shape() && dead.None? && CountersAgree(cpu.Model()) && !m.CacheWrite? && (loopStarted ==> running)
      modifies this, cpu
      ensures Shape()
      ensures Model() == Handled(old(Model()), m, clock).0
      ensures outbox == old(outbox) + Handled(old(Model()), m, clock).1
    {
      match m
      case Start(mode) => if !running { StartRunning(mode, clock); }
      case Pause =>
        if running {
          paused := true;
          outbox := outbox + [Paused];
        }
      case Resume => if running { ResumeRunning(clock); }
      case Step => if running { StepOnce(clock); }
      case SetBackgrounded(on) => backgrounded := on;
      case RequestSnapshot(reason, call) =>
        outbox := outbox + [SnapshotTaken(reason, cpu.totalInstructions, call)];
      case Shutdown => StopRunning(clock);
      case Unrecognised =>
        outbox := outbox + [Fatal];
        dead := Some(Exited(1));
    }

    method StopRunning(clock: nat)
      requires Shape() && dead.None? && CountersAgree(cpu.Model())
      modifies this, cpu
      ensures Shape()
      ensures Model() == Handled(old(Model()), Shutdown, clock).0
      ensures outbox == old(outbox) + Handled(old(Model()), Shutdown, clock).1
    {
      stopping, paused := true, false;
      WakeLoop(clock);
    }

    method StartRunning(mode: Mode, clock: nat)
      requires Shape() && dead.None? && CountersAgree(cpu.Model()) && !running && !loopStarted
      modifies this, cpu
      ensures Shape()
      ensures Model() == Handled(old(Model()), Start(mode), clock).0
      ensures outbox == old(outbox) + Handled(old(Model()), Start(mode), clock).1
    {
      running, paused := true, false;
      outbox := outbox + [Started];
      match mode
      case NonYielding => dead := Some(Hung);
      case Crash =>
        outbox := outbox + [Fatal];
        dead := Some(Exited(1));
      case Cooperative => FirstTurn(clock);
    }

    /** `runLoop()` for the first time. */
    method FirstTurn(clock: nat)
      requires Shape() && dead.None? && CountersAgree(cpu.Model()) && !loopStarted
      modifies this, cpu
      ensures Shape()
      ensures Model() == LoopTop(old(Model()), clock).0
      ensures outbox == old(outbox) + LoopTop(old(Model()), clock).1
    {
      LoopTopIgnoresLoop(Model(), if asleep then Sleeping else Yielded, clock);
      loopStarted := true;
      LoopBody(clock);
    }

    method ResumeRunning(clock: nat)
      requires Shape() && dead.None? && CountersAgree(cpu.Model()) && running
      modifies this, cpu
      ensures Shape()
      ensures Model() == Handled(old(Model()), Resume, clock).0
      ensures outbox == old(outbox) + Handled(old(Model()), Resume, clock).1
    {
      paused := false;
      WokenPosts(Model(), outbox, Resumed, clock);
      outbox := outbox + [Resumed];
      WakeLoop(clock);
    }

    method StepOnce(clock: nat)
      requires Shape() && dead.None? && CountersAgree(cpu.Model()) && running
      modifies this, cpu
      ensures Shape()
      ensures Model() == Handled(old(Model()), Step, clock).0
      ensures outbox == old(outbox) + Handled(old(Model()), Step, clock).1
    {
      stepsRemaining := stepsRemaining + 1;
      paused := false;
      WokenPosts(Model(), outbox, Stepping, clock);
      outbox := outbox + [Stepping];
      WakeLoop(clock);
    }

    method WriteCache(m: Command)
      requires Shape() && m.CacheWrite? && dead.None?
      modifies this`outbox, disk, shader
      ensures Shape()
      ensures Model() == CacheWritten(old(Model()), m).0
      ensures outbox == old(outbox) + CacheWritten(old(Model()), m).1
    {
      if m.cache.OtherCache? || m.size.None? || m.size.value < 0 {
        outbox := outbox + [CacheWriteResult(m.requestId, false, 0, 0, m.call)];
        return;
      }
      var cache := if m.cache.DiskCache? then disk else shader;
      var ok := cache.Set(CacheKey(m), (), m.size.value);
      outbox := outbox + [CacheWriteResult(m.requestId, ok, disk.bytes, shader.bytes, m.call)];
    }

    /** The pending immediate or throttle timer fires. */
    method TimerFires(clock: nat)
      requires Valid() && Ticking(Model())
      modifies this, cpu
      ensures Valid()
      ensures Model() == LoopResumed(old(Model()), clock).0
      ensures outbox == old(outbox) + LoopResumed(old(Model()), clock).1
    {
      LoopResumedKeepsInv(Model(), clock);
      if !asleep && backgrounded && limits.throttleMs > 0 {
        asleep := true;
      } else {
        LoopBody(clock);
      }
    }
  }
}
