/** The send queue with watermarks of src/ws_backpressure.js.

    The socket is part of the state: whether it is open, what it still buffers, and the frames handed
    to it. A send is accepted, leaving some of the frame's bytes in the socket's buffer, or refused.
    Deferred flushes and the poll timer are counted as pending callbacks. */
module SendQueue {
  import opened Prelude

  type Buf = seq<Byte>

  datatype Send = Accepted(added: nat) | Refused

  /** Calls of onPauseSources and onResumeSources, with the bytes drained by then. */
  datatype Callback = PauseSources(drained: int) | ResumeSources(drained: int)

  datatype Sq = Sq(
    high: int,
    low: int,
    queue: seq<Buf>,
    queueBytes: int,
    flushScheduled: bool,
    flushes: nat,
    active: bool,
    polling: bool,
    open: bool,
    buffered: nat,
    sent: seq<Buf>,
    drained: int,
    callbacks: seq<Callback>)

  function NewQueue(high: int, low: int): Sq {
    Sq(high, low, [], 0, false, 0, false, false, true, 0, [], 0, [])
  }

  function Backlog(s: Sq): int {
    s.queueBytes + s.buffered
  }

  function MaybePause(s: Sq): Sq {
    if s.open && !s.active && Backlog(s) > s.high then
      s.(active := true, polling := true, callbacks := s.callbacks + [PauseSources(s.drained)])
    else s
  }

  function MaybeResume(s: Sq): Sq {
    if s.open && s.active && Backlog(s) <= s.low then
      s.(active := false, callbacks := s.callbacks + [ResumeSources(s.drained)])
    else s
  }

  function ScheduleFlush(s: Sq): Sq {
    if s.flushScheduled then s else s.(flushScheduled := true, flushes := s.flushes + 1)
  }

  function Enqueued(s: Sq, b: Buf): Sq {
    ScheduleFlush(MaybePause(s.(queue := s.queue + [b], queueBytes := s.queueBytes + |b|)))
  }

  function Shifted(s: Sq): Sq
    requires s.queue != []
  {
    s.(queue := s.queue[1..], queueBytes := s.queueBytes - |s.queue[0]|)
  }

  /** The first frame goes to the socket, which keeps `added` bytes of it buffered. */
  function HandedOver(s: Sq, added: nat): Sq
    requires s.queue != []
  {
    Shifted(s).(sent := s.sent + [s.queue[0]], buffered := s.buffered + added,
                drained := s.drained + |s.queue[0]| - added)
  }

  /** The loop of `flush`: what it leaves, and whether a send was refused. */
  function Sends(s: Sq, outcomes: seq<Send>): (Sq, bool)
    requires |outcomes| >= |s.queue|
    decreases |s.queue|
  {
    if s.queue == [] then (s, false)
    else match outcomes[0]
      case Refused => (Shifted(s), true)
      case Accepted(added) =>
        var s' := HandedOver(s, added);
        if s'.buffered > s.high then (s', false) else Sends(s', outcomes[1..])
  }

  function Flushed(s: Sq, outcomes: seq<Send>): Sq
    requires |outcomes| >= |s.queue|
  {
    var s0 := s.(flushScheduled := false, flushes := if s.flushes > 0 then s.flushes - 1 else 0);
    if !s.open then s0
    else
      var (s1, refused) := Sends(s0, outcomes);
      if refused then s1
      else
        var s2 := MaybeResume(s1);
        if s2.queue != [] then ScheduleFlush(s2) else s2
  }

  function Polled(s: Sq): Sq {
    var s0 := s.(polling := false);
    if !s.open then s0
    else
      var s1 := MaybeResume(s0);
      if s1.active then s1.(polling := true) else s1
  }

  /** `close()`: the poll is cancelled, a deferred flush is not. */
  function ClosedQueue(s: Sq): Sq {
    s.(polling := false, queue := [], queueBytes := 0, active := false, flushScheduled := false)
  }

  // ---- The object ---------------------------------------------------------------------------------

  class WsSendQueue {
    const highWatermarkBytes: int
    const lowWatermarkBytes: int
    var queue: seq<Buf>
    var queueBytes: int
    var flushScheduled: bool
    var flushes: nat
    var backpressureActive: bool
    var pollTimer: bool
    var open: bool
    var buffered: nat
    var sent: seq<Buf>
    var drained: int
    var callbacks: seq<Callback>

    function Model(): Sq
      reads this
    {
      Sq(highWatermarkBytes, lowWatermarkBytes, queue, queueBytes, flushScheduled, flushes, backpressureActive,
         pollTimer, open, buffered, sent, drained, callbacks)
    }

    constructor (high: int, low: int)
      ensures Model() == NewQueue(high, low)
    {
      highWatermarkBytes, lowWatermarkBytes := high, low;
      queue, queueBytes, flushScheduled, flushes := [], 0, false, 0;
      backpressureActive, pollTimer, open := false, false, true;
      buffered, sent, drained, callbacks := 0, [], 0, [];
    }

    method Pause()
      modifies this`backpressureActive, this`pollTimer, this`callbacks
      ensures Model() == MaybePause(old(Model()))
    {
      if !open { return; }
      if backpressureActive { return; }
      if queueBytes + buffered <= highWatermarkBytes { return; }
      backpressureActive := true;
      callbacks := callbacks + [PauseSources(drained)];
      if !pollTimer { pollTimer := true; }
    }

    method Resume()
      modifies this`backpressureActive, this`callbacks
      ensures Model() == MaybeResume(old(Model()))
    {
      if !open { return; }
      if !backpressureActive { return; }
      if queueBytes + buffered > lowWatermarkBytes { return; }
      backpressureActive := false;
      callbacks := callbacks + [ResumeSources(drained)];
    }

    method Schedule()
      modifies this`flushScheduled, this`flushes
      ensures Model() == ScheduleFlush(old(Model()))
    {
      if flushScheduled { return; }
      flushScheduled := true;
      flushes := flushes + 1;
    }

    method Enqueue(frame: Buf)
      modifies this
      ensures Model() == Enqueued(old(Model()), frame)
    {
      queue := queue + [frame];
      queueBytes := queueBytes + |frame|;
      Pause();
      Schedule();
    }

    method Flush(outcomes: seq<Send>)
      requires |outcomes| >= |queue|
      modifies this
      ensures Model() == Flushed(old(Model()), outcomes)
    {
      flushScheduled := false;
      if flushes > 0 { flushes := flushes - 1; }
      if !open { return; }
      var refused := SendLoop(outcomes);
      if refused { return; }
      Resume();
      if queue != [] { Schedule(); }
    }

    method SendLoop(outcomes: seq<Send>) returns (refused: bool)
      requires |outcomes| >= |queue|
      modifies this`queue, this`queueBytes, this`sent, this`buffered, this`drained
      ensures (Model(), refused) == Sends(old(Model()), outcomes)
    {
      var i, done := 0, false;
      refused := false;
      while queue != [] && !done
        invariant i + |queue| <= |outcomes|
        invariant Sends(old(Model()), outcomes) == if done then (Model(), refused) else Sends(Model(), outcomes[i..])
        invariant refused ==> done
        decreases |queue|
      {
        assert outcomes[i..][0] == outcomes[i] && outcomes[i..][1..] == outcomes[i + 1..];
        refused := SendFirst(outcomes[i]);
        done := refused || buffered > highWatermarkBytes;
        i := i + 1;
      }
    }

    method SendFirst(outcome: Send) returns (refused: bool)
      requires queue != []
      modifies this`queue, this`queueBytes, this`sent, this`buffered, this`drained
      ensures refused == outcome.Refused?
      ensures Model() == if refused then Shifted(old(Model())) else HandedOver(old(Model()), outcome.added)
    {
      var frame := queue[0];
      queue := queue[1..];
      queueBytes := queueBytes - |frame|;
      if outcome.Refused? { return true; }
      sent := sent + [frame];
      buffered := buffered + outcome.added;
      drained := drained + |frame| - outcome.added;
      return false;
    }

    method Poll()
      modifies this
      ensures Model() == Polled(old(Model()))
    {
      pollTimer := false;
      if !open { return; }
      Resume();
      if backpressureActive { pollTimer := true; }
    }

    method Close()
      modifies this
      ensures Model() == ClosedQueue(old(Model()))
    {
      pollTimer := false;
      queue := [];
      queueBytes := 0;
      backpressureActive := false;
      flushScheduled := false;
    }
  }

  // ---- Runs -----------------------------------------------------------------------------------------

  datatype Event =
    | Enqueue(b: Buf)
    | FlushFires(outcomes: seq<Send>)
    | PollFires
    | NetworkDrains(n: nat)

  /** An open socket whose sends succeed and buffer no more than the frame. */
  predicate Possible(s: Sq, e: Event) {
    match e
    case Enqueue(_) => true
    case FlushFires(outcomes) =>
      && s.flushes > 0 && |outcomes| == |s.queue|
      && forall i :: 0 <= i < |outcomes| ==> outcomes[i].Accepted? && outcomes[i].added <= |s.queue[i]|
    case PollFires => s.polling
    case NetworkDrains(n) => n <= s.buffered
  }

  function Next(s: Sq, e: Event): Sq
    requires Possible(s, e)
  {
    match e
    case Enqueue(b) => Enqueued(s, b)
    case FlushFires(outcomes) => Flushed(s, outcomes)
    case PollFires => Polled(s)
    case NetworkDrains(n) => s.(buffered := s.buffered - n, drained := s.drained + n)
  }

  function After(high: int, low: int, es: seq<Event>): Sq {
    if es == [] then NewQueue(high, low) else
      var s := After(high, low, es[..|es| - 1]);
      if Possible(s, es[|es| - 1]) then Next(s, es[|es| - 1]) else s
  }

  function Offered(es: seq<Event>): seq<Buf> {
    if es == [] then [] else Offered(es[..|es| - 1]) + if es[|es| - 1].Enqueue? then [es[|es| - 1].b] else []
  }

  function Size(bs: seq<Buf>): nat {
    if bs == [] then 0 else |bs[0]| + Size(bs[1..])
  }

  lemma {:induction false} SizeAppend(a: seq<Buf>, b: seq<Buf>)
    ensures Size(a + b) == Size(a) + Size(b)
  {
    if a == [] {
      assert a + b == b;
    } else {
      assert (a + b)[1..] == a[1..] + b;
      SizeAppend(a[1..], b);
    }
  }

  predicate Alternate(cs: seq<Callback>) {
    && (cs != [] ==> cs[0].PauseSources?)
    && forall i :: 0 <= i < |cs| - 1 ==> (cs[i].PauseSources? <==> cs[i + 1].ResumeSources?)
  }

  /** More than high - low bytes leave between each pause and the resume after it. */
  predicate DrainBetween(cs: seq<Callback>, high: int, low: int) {
    forall i :: 0 <= i < |cs| - 1 && cs[i + 1].ResumeSources? ==> cs[i + 1].drained - cs[i].drained > high - low
  }

  ghost predicate CountsExact(s: Sq, offered: seq<Buf>) {
    && s.open
    && s.sent + s.queue == offered
    && s.queueBytes == Size(s.queue)
    && Size(offered) == s.drained + Backlog(s)
  }

  ghost predicate CallbacksInv(s: Sq, offered: seq<Buf>) {
    && Alternate(s.callbacks) && DrainBetween(s.callbacks, s.high, s.low)
    && (s.active <==> s.callbacks != [] && s.callbacks[|s.callbacks| - 1].PauseSources?)
    && (s.active ==> Size(offered) > s.callbacks[|s.callbacks| - 1].drained + s.high)
  }

  /** Frames in order, exact byte counts, and a callback pending wherever one is owed. */
  ghost predicate QueueInv(s: Sq, offered: seq<Buf>) {
    && CountsExact(s, offered)
    && CallbacksInv(s, offered)
    && s.flushes == (if s.flushScheduled then 1 else 0)
    && (s.queue != [] ==> s.flushScheduled)
    && (s.active ==> s.polling) && (s.polling ==> s.callbacks != [])
  }

  lemma PauseKeepsCallbacks(s: Sq, offered: seq<Buf>)
    requires CountsExact(s, offered) && CallbacksInv(s, offered)
    ensures CallbacksInv(MaybePause(s), offered) && CountsExact(MaybePause(s), offered)
  {
  }

  lemma ResumeKeepsCallbacks(s: Sq, offered: seq<Buf>)
    requires CountsExact(s, offered) && CallbacksInv(s, offered)
    ensures CallbacksInv(MaybeResume(s), offered) && CountsExact(MaybeResume(s), offered)
  {
  }

  /** The send loop moves frames from the queue to the socket, in order, and keeps every total. */
  lemma {:induction false} SendsConserve(s: Sq, outcomes: seq<Send>)
    requires |outcomes| == |s.queue| && s.queueBytes == Size(s.queue)
    requires forall i :: 0 <= i < |outcomes| ==> outcomes[i].Accepted? && outcomes[i].added <= |s.queue[i]|
    ensures var (s', refused) := Sends(s, outcomes);
            && !refused
            && s'.sent + s'.queue == s.sent + s.queue
            && s'.queueBytes == Size(s'.queue)
            && s'.drained + Backlog(s') == s.drained + Backlog(s)
            && Backlog(s') <= Backlog(s)
            && s' == s.(queue := s'.queue, queueBytes := s'.queueBytes, sent := s'.sent, buffered := s'.buffered,
                        drained := s'.drained)
            && (s.queue != [] ==> |s'.queue| < |s.queue|)
            && (s'.queue != [] ==> s'.buffered > s.high)
    decreases |s.queue|
  {
    if s.queue != [] {
      var s' := HandedOver(s, outcomes[0].added);
      assert s'.sent + s'.queue == s.sent + s.queue;
      if s'.buffered <= s.high { SendsConserve(s', outcomes[1..]); }
    }
  }

  lemma OneMoreFrame(s: Sq, b: Buf, offered: seq<Buf>)
    requires CountsExact(s, offered) && CallbacksInv(s, offered)
    ensures var s' := s.(queue := s.queue + [b], queueBytes := s.queueBytes + |b|);
            CountsExact(s', offered + [b]) && CallbacksInv(s', offered + [b])
  {
    SizeAppend(s.queue, [b]);
    SizeAppend(offered, [b]);
    AppendBufs(s.sent, s.queue, [b]);
  }

  lemma AppendBufs(a: seq<Buf>, b: seq<Buf>, c: seq<Buf>)
    ensures a + (b + c) == (a + b) + c
  {
  }

  lemma EnqueueKeepsInv(s: Sq, b: Buf, offered: seq<Buf>)
    requires QueueInv(s, offered)
    ensures QueueInv(Enqueued(s, b), offered + [b])
  {
    OneMoreFrame(s, b, offered);
    PauseKeepsCallbacks(s.(queue := s.queue + [b], queueBytes := s.queueBytes + |b|), offered + [b]);
  }

  lemma FlushKeepsInv(s: Sq, outcomes: seq<Send>, offered: seq<Buf>)
    requires QueueInv(s, offered) && Possible(s, FlushFires(outcomes))
    ensures QueueInv(Flushed(s, outcomes), offered)
  {
    var s0 := s.(flushScheduled := false, flushes := 0);
    SendsConserve(s0, outcomes);
    var s1 := Sends(s0, outcomes).0;
    assert CountsExact(s1, offered) && CallbacksInv(s1, offered);
    ResumeKeepsCallbacks(s1, offered);
  }

  lemma PollKeepsInv(s: Sq, offered: seq<Buf>)
    requires QueueInv(s, offered)
    ensures QueueInv(Polled(s), offered)
  {
    ResumeKeepsCallbacks(s.(polling := false), offered);
  }

  lemma DrainKeepsInv(s: Sq, n: nat, offered: seq<Buf>)
    requires QueueInv(s, offered) && n <= s.buffered
    ensures QueueInv(s.(buffered := s.buffered - n, drained := s.drained + n), offered)
  {
  }

  lemma {:induction false} SendsKeepLimits(s: Sq, outcomes: seq<Send>)
    requires |outcomes| >= |s.queue|
    ensures Sends(s, outcomes).0.high == s.high && Sends(s, outcomes).0.low == s.low
    decreases |s.queue|
  {
    if s.queue != [] && outcomes[0].Accepted? {
      SendsKeepLimits(HandedOver(s, outcomes[0].added), outcomes[1..]);
    }
  }

  lemma LimitsKept(s: Sq, e: Event)
    requires Possible(s, e)
    ensures Next(s, e).high == s.high && Next(s, e).low == s.low
  {
    if e.FlushFires? {
      SendsKeepLimits(s.(flushScheduled := false, flushes := s.flushes - 1), e.outcomes);
    }
  }

  lemma NextKeepsInv(s: Sq, e: Event, offered: seq<Buf>)
    requires QueueInv(s, offered) && Possible(s, e)
    ensures QueueInv(Next(s, e), if e.Enqueue? then offered + [e.b] else offered)
    ensures Next(s, e).high == s.high && Next(s, e).low == s.low
  {
    LimitsKept(s, e);
    match e
    case Enqueue(b) => EnqueueKeepsInv(s, b, offered);
    case FlushFires(outcomes) => FlushKeepsInv(s, outcomes, offered);
    case PollFires => PollKeepsInv(s, offered);
    case NetworkDrains(n) => DrainKeepsInv(s, n, offered);
  }

  /** Order, exact byte counts, alternation of the callbacks and no stuck state, in every run with an
      open socket and successful sends. */
  lemma {:induction false} EveryRun(high: int, low: int, es: seq<Event>)
    ensures QueueInv(After(high, low, es), Offered(es))
    ensures After(high, low, es).high == high && After(high, low, es).low == low
  {
    if es != [] {
      var pre, e := es[..|es| - 1], es[|es| - 1];
      EveryRun(high, low, pre);
      var s := After(high, low, pre);
      if Possible(s, e) {
        NextKeepsInv(s, e, Offered(pre));
      }
      assert Offered(pre) + [] == Offered(pre);
    }
  }

  // ---- Both watermarks, the other way round ---------------------------------------------------------

  lemma FlushResumes(s: Sq, outcomes: seq<Send>, offered: seq<Buf>)
    requires QueueInv(s, offered) && Possible(s, FlushFires(outcomes))
    ensures var s' := Flushed(s, outcomes);
            && (s'.active ==> s'.queueBytes + s'.buffered > s'.low)
            && (s'.queue != [] ==> s'.buffered > s'.high)
            && s'.polling == s.polling && (s'.active ==> s.active)
  {
    var s0 := s.(flushScheduled := false, flushes := s.flushes - 1);
    SendsConserve(s0, outcomes);
    SendsStop(s0, outcomes);
  }

  /** The loop of `flush` goes on to the end of the queue unless the socket's buffer passes the mark. */
  lemma {:induction false} SendsStop(s: Sq, outcomes: seq<Send>)
    requires |outcomes| == |s.queue| && forall i :: 0 <= i < |outcomes| ==> outcomes[i].Accepted?
    ensures var (s', refused) := Sends(s, outcomes);
            && !refused && (s'.queue != [] ==> s'.buffered > s'.high)
            && s'.active == s.active && s'.polling == s.polling
    decreases |s.queue|
  {
    if s.queue != [] { SendsStop(HandedOver(s, outcomes[0].added), outcomes[1..]); }
  }

  predicate Respects(s: Sq, e: Event, s': Sq, high: int, low: int) {
    var backlog := s'.queueBytes + s'.buffered;
    && (e.PollFires? || e.FlushFires? ==> (s'.active ==> backlog > low))
    && (e.FlushFires? ==> (s'.queue != [] ==> s'.buffered > high))
    && (e.Enqueue? ==> (s'.active <==> s.active || backlog > high))
    && (e.NetworkDrains? ==> s'.active == s.active)
    && (s'.polling <==> if e.PollFires? then s'.active else s.polling || (s'.active && !s.active))
  }

  lemma NextRespects(s: Sq, e: Event, offered: seq<Buf>)
    requires QueueInv(s, offered) && Possible(s, e)
    ensures Respects(s, e, Next(s, e), s.high, s.low)
  {
    if e.FlushFires? {
      LimitsKept(s, e);
      FlushResumes(s, e.outcomes, offered);
    }
  }

  /** In every run: after each poll and each flush the sources stay paused only above the low watermark;
      a flush leaves frames behind only if the socket buffers more than the high watermark; and an
      enqueue leaves the sources running only up to the high watermark, and stops them only above it. The poll
      timer is started by a pause and set again by a poll that leaves the sources paused, and only then. */
  lemma WatermarksRespected(high: int, low: int, es: seq<Event>, e: Event)
    requires Possible(After(high, low, es), e)
    ensures Respects(After(high, low, es), e, Next(After(high, low, es), e), high, low)
  {
    EveryRun(high, low, es);
    NextRespects(After(high, low, es), e, Offered(es));
  }

  /** A socket that is not open is sent nothing, and the sources hear nothing. */
  lemma ClosedSocketIsInert(s: Sq, b: Buf, outcomes: seq<Send>)
    requires !s.open && |outcomes| >= |s.queue|
    ensures Enqueued(s, b).callbacks == Flushed(s, outcomes).callbacks == Polled(s).callbacks == s.callbacks
    ensures Flushed(s, outcomes).sent == s.sent && Flushed(s, outcomes).queue == s.queue
    ensures !Polled(s).polling && Enqueued(s, b).queue == s.queue + [b]
  {
  }

  /** After `close()` a flush that was already deferred finds nothing to send and tells the sources nothing,
      and no poll is pending. */
  lemma CloseDropsQueue(s: Sq, outcomes: seq<Send>)
    ensures var s' := ClosedQueue(s);
            && s'.queue == [] && s'.queueBytes == 0 && !s'.active && !s'.polling && !s'.flushScheduled
            && s'.sent == s.sent && s'.callbacks == s.callbacks
            && Flushed(s', outcomes).sent == s.sent && Flushed(s', outcomes).callbacks == s.callbacks
  {
  }

  // ---- The byte bound -----------------------------------------------------------------------------

  /** Sources that stop while paused and frames of at most `largest` bytes. */
  predicate Polite(high: int, low: int, es: seq<Event>, largest: nat) {
    forall k :: 0 <= k < |es| && es[k].Enqueue? ==> !After(high, low, es[..k]).active && |es[k].b| <= largest
  }

  predicate Bounded(s: Sq, largest: nat) {
    Backlog(s) <= s.high + largest && (!s.active ==> Backlog(s) <= s.high)
  }

  lemma NextKeepsBound(s: Sq, e: Event, offered: seq<Buf>, largest: nat)
    requires QueueInv(s, offered) && Possible(s, e) && Bounded(s, largest) && s.low <= s.high
    requires e.Enqueue? ==> !s.active && |e.b| <= largest
    ensures Bounded(Next(s, e), largest)
  {
    match e
    case FlushFires(outcomes) => FlushKeepsBound(s, outcomes, offered, largest);
    case _ =>
  }

  lemma FlushKeepsBound(s: Sq, outcomes: seq<Send>, offered: seq<Buf>, largest: nat)
    requires QueueInv(s, offered) && Possible(s, FlushFires(outcomes)) && Bounded(s, largest) && s.low <= s.high
    ensures Bounded(Flushed(s, outcomes), largest)
  {
    var s0 := s.(flushScheduled := false, flushes := 0);
    SendsConserve(s0, outcomes);
    assert Bounded(Sends(s0, outcomes).0, largest);
  }

  /** Queue and socket together never hold more than the high watermark and one frame. */
  lemma {:induction false} BacklogBounded(high: int, low: int, es: seq<Event>, largest: nat)
    requires 0 <= high && low <= high && Polite(high, low, es, largest)
    ensures Bounded(After(high, low, es), largest)
  {
    if es != [] {
      var pre, e := es[..|es| - 1], es[|es| - 1];
      assert Polite(high, low, pre, largest) by {
        forall k | 0 <= k < |pre| && pre[k].Enqueue?
          ensures !After(high, low, pre[..k]).active && |pre[k].b| <= largest
        {
          assert pre[..k] == es[..k] && pre[k] == es[k];
        }
      }
      BacklogBounded(high, low, pre, largest);
      EveryRun(high, low, pre);
      if Possible(After(high, low, pre), e) { NextKeepsBound(After(high, low, pre), e, Offered(pre), largest); }
    }
  }

  // ---- Progress -------------------------------------------------------------------------------------

  /** The outcomes of a flush in which the socket keeps `share(i)` bytes of the i-th frame, if it has them. */
  function Shares(queue: seq<Buf>, share: nat -> nat): (r: seq<Send>)
    ensures |r| == |queue|
    ensures forall i :: 0 <= i < |r| ==> r[i].Accepted? && r[i].added <= |queue[i]|
  {
    seq(|queue|, i requires 0 <= i < |queue| => Accepted(if share(i) <= |queue[i]| then share(i) else |queue[i]|))
  }

  /** The network takes everything buffered and a pending flush runs. */
  function Round(s: Sq, share: nat -> nat): Sq {
    var s' := Next(s, NetworkDrains(s.buffered));
    if s'.flushes > 0 then Next(s', FlushFires(Shares(s'.queue, share))) else s'
  }

  lemma RoundShrinks(s: Sq, share: nat -> nat, offered: seq<Buf>)
    requires QueueInv(s, offered)
    ensures QueueInv(Round(s, share), offered)
    ensures s.queue != [] ==> |Round(s, share).queue| < |s.queue|
    ensures s.queue == [] ==> Round(s, share).queue == []
    ensures Round(s, share).low == s.low
  {
    var s' := Next(s, NetworkDrains(s.buffered));
    NextKeepsInv(s, NetworkDrains(s.buffered), offered);
    if s'.flushes > 0 {
      var flush := FlushFires(Shares(s'.queue, share));
      NextKeepsInv(s', flush, offered);
      SendsConserve(s'.(flushScheduled := false, flushes := 0), flush.outcomes);
    }
  }

  function Rounds(s: Sq, shares: seq<nat -> nat>): Sq
    decreases |shares|
  {
    if shares == [] then s else Rounds(Round(s, shares[0]), shares[1..])
  }

  lemma {:induction false} RoundsEmptyQueue(s: Sq, shares: seq<nat -> nat>, offered: seq<Buf>)
    requires QueueInv(s, offered) && |s.queue| <= |shares|
    ensures var r := Rounds(s, shares); QueueInv(r, offered) && r.queue == [] && r.low == s.low
    decreases |shares|
  {
    if shares != [] {
      RoundShrinks(s, shares[0], offered);
      RoundsEmptyQueue(Round(s, shares[0]), shares[1..], offered);
    }
  }

  /** From every reachable state, as many rounds as there are frames deliver them all in order, and the
      next poll then lets the sources go on. */
  lemma DrainsCompletely(high: int, low: int, es: seq<Event>, shares: seq<nat -> nat>)
    requires 0 <= low && |After(high, low, es).queue| <= |shares|
    ensures var r := Rounds(After(high, low, es), shares);
            var last := Next(r, NetworkDrains(r.buffered));
            && last.sent == Offered(es)
            && (last.active ==> last.polling && !Polled(last).active)
  {
    EveryRun(high, low, es);
    RoundsEmptyQueue(After(high, low, es), shares, Offered(es));
    var r := Rounds(After(high, low, es), shares);
    NextKeepsInv(r, NetworkDrains(r.buffered), Offered(es));
    var last := Next(r, NetworkDrains(r.buffered));
    assert last.sent + [] == last.sent;
  }

  /** Of `n` frames, one that is not the last is refused before the socket's buffer passes the mark. */
  predicate RefusedEarly(buffered: nat, high: int, outcomes: seq<Send>, n: nat)
    requires |outcomes| >= n
    decreases n
  {
    n > 1 &&
    match outcomes[0]
    case Refused => true
    case Accepted(added) => buffered + added <= high && RefusedEarly(buffered + added, high, outcomes[1..], n - 1)
  }

  /** The no-stuck-state property of one flush holds exactly as long as no send is refused early. */
  lemma StrandedExactly(s: Sq, outcomes: seq<Send>)
    requires |outcomes| >= |s.queue| && s.open
    ensures var s' := Flushed(s, outcomes);
            s'.queue != [] && !s'.flushScheduled <==> RefusedEarly(s.buffered, s.high, outcomes, |s.queue|)
  {
    SendsStrand(s.(flushScheduled := false, flushes := if s.flushes > 0 then s.flushes - 1 else 0), outcomes);
  }

  lemma {:induction false} SendsStrand(s: Sq, outcomes: seq<Send>)
    requires |outcomes| >= |s.queue|
    ensures var (s', refused) := Sends(s, outcomes);
            && (refused && s'.queue != [] <==> RefusedEarly(s.buffered, s.high, outcomes, |s.queue|))
            && s'.flushScheduled == s.flushScheduled && s'.open == s.open
    decreases |s.queue|
  {
    if s.queue != [] && outcomes[0].Accepted? {
      SendsStrand(HandedOver(s, outcomes[0].added), outcomes[1..]);
    }
  }
}
