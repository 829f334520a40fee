/** The WebSocket object of tools/minimal_ws.js: draining into events, the close handshake, and what
    is finally reported.

    `written` lists the frames handed to the socket before encoding; WsFrames shows what their
    encoding means to the peer. */
module WsSocket {
  import opened Prelude
  import opened Text
  import opened WsFrames

  const MAX_REASON_BYTES := 123

  datatype Reason = ReasonText(text: Str) | ReasonBytes(bytes: seq<Byte>)

  function Codes(s: string): (r: Str)
    ensures |r| == |s|
  {
    seq(|s|, i requires 0 <= i < |s| => s[i] as int)
  }

  function ReasonOctets(r: Reason): (b: seq<Byte>)
    ensures |b| <= MAX_REASON_BYTES
  {
    match r
    case ReasonBytes(b) => if |b| <= MAX_REASON_BYTES then b else b[..MAX_REASON_BYTES]
    case ReasonText(s) =>
      FormatFitsAndGrows(s, MAX_REASON_BYTES, MAX_REASON_BYTES);
      EncodeAll(Formatted(s, MAX_REASON_BYTES))
  }

  /** `encodeClosePayload`, which throws for a code outside 16 bits. */
  function EncodeClose(code: int, reason: Reason): Option<seq<Byte>> {
    if 0 <= code < TWO_16 then Some(U16(code) + ReasonOctets(reason)) else None
  }

  lemma CloseRoundTrip(code: int, reason: Reason)
    requires 0 <= code < TWO_16
    ensures DecodeClose(EncodeClose(code, reason).value) == (code, ReasonOctets(reason))
    ensures |EncodeClose(code, reason).value| <= 125
  {
    var b := EncodeClose(code, reason).value;
    assert b[..2] == U16(code) && b[2..] == ReasonOctets(reason);
  }

  // ---- State ----------------------------------------------------------------------------------

  datatype Conn = Conn(
    isClient: bool,
    maxPayload: int,
    connected: bool,
    buffer: seq<Byte>,
    sentClose: bool,
    closeCode: Option<nat>,
    closeReason: seq<Byte>,
    closeEmitted: bool,
    events: seq<Event>,
    written: seq<Frame>,
    closed: seq<(nat, seq<Byte>)>)

  function NewConn(isClient: bool, maxPayload: int): Conn {
    Conn(isClient, maxPayload, false, [], false, None, [], false, [], [], [])
  }

  function Wrote(c: Conn, f: Frame): Conn {
    if c.connected then c.(written := c.written + [f]) else c
  }

  /** `close`: the flag is set before the payload is built. */
  function CloseCalled(c: Conn, code: int, reason: Reason): Conn {
    if c.sentClose then c
    else match EncodeClose(code, reason)
      case None => c.(sentClose := true)
      case Some(payload) => Wrote(c.(sentClose := true), Frame(8, payload))
  }

  function Applied(c: Conn, e: Event): Conn {
    var c' := c.(events := c.events + [e]);
    match e
    case Message(_) => c'
    case Binary(_) => c'
    case PongFor(payload) => Wrote(c', Frame(10, payload))
    case PeerClose(code, reason) =>
      CloseCalled(c'.(closeCode := Some(code), closeReason := reason), code, ReasonBytes(reason))
    case Failure(code, why) => CloseCalled(c', code, ReasonText(Codes(why)))
  }

  function AppliedAll(c: Conn, es: seq<Event>): Conn
    decreases |es|
  {
    if es == [] then c else AppliedAll(Applied(c, es[0]), es[1..])
  }

  /** `_drainFrames` on the whole connection. */
  function DrainedConn(c: Conn): Conn {
    var d := Drain(c.buffer, c.isClient, c.maxPayload);
    AppliedAll(c.(buffer := d.rest), d.events)
  }

  function DataCame(c: Conn, chunk: seq<Byte>): Conn {
    if chunk == [] then c else DrainedConn(c.(buffer := c.buffer + chunk))
  }

  function SocketGone(c: Conn): Conn {
    if c.closeEmitted then c else
      var code := match c.closeCode case Some(code) => code case None => if c.sentClose then 1000 else 1006;
      c.(closeEmitted := true, closed := c.closed + [(code, c.closeReason)])
  }

  // ---- The object --------------------------------------------------------------------------------

  class WebSocket {
    const isClient: bool
    const maxPayload: int
    var connected: bool
    var buffer: seq<Byte>
    var sentClose: bool
    var closeCode: Option<nat>
    var closeReason: seq<Byte>
    var closeEmitted: bool
    var events: seq<Event>
    var written: seq<Frame>
    var closed: seq<(nat, seq<Byte>)>

    function Model(): Conn
      reads this
    {
      Conn(isClient, maxPayload, connected, buffer, sentClose, closeCode, closeReason, closeEmitted,
           events, written, closed)
    }

    constructor (isClient: bool, maxPayload: int)
      ensures Model() == NewConn(isClient, maxPayload)
    {
      this.isClient, this.maxPayload := isClient, maxPayload;
      connected, buffer, sentClose, closeCode, closeReason, closeEmitted := false, [], false, None, [], false;
      events, written, closed := [], [], [];
    }

    method WriteFrame(f: Frame)
      modifies this`written
      ensures Model() == Wrote(old(Model()), f)
    {
      if connected { written := written + [f]; }
    }

    method Close(code: int, reason: Reason) returns (threw: bool)
      modifies this`sentClose, this`written
      ensures Model() == CloseCalled(old(Model()), code, reason)
      ensures threw <==> !old(sentClose) && !(0 <= code < TWO_16)
    {
      if sentClose { return false; }
      sentClose := true;
      var payload := EncodeClose(code, reason);
      if payload.None? { return true; }
      WriteFrame(Frame(8, payload.value));
      return false;
    }

    method ReactTo(e: Event)
      modifies this
      ensures Model() == Applied(old(Model()), e)
    {
      events := events + [e];
      match e
      case Message(_) =>
      case Binary(_) =>
      case PongFor(payload) => WriteFrame(Frame(10, payload));
      case PeerClose(code, reason) =>
        closeCode, closeReason := Some(code), reason;
        if !sentClose { var _ := Close(code, ReasonBytes(reason)); }
      case Failure(code, why) => var _ := Close(code, ReasonText(Codes(why)));
    }

    /** One turn of the loop: false when there is nothing more to do. */
    method TakeFrame() returns (more: bool)
      modifies this
      ensures Model() == DrainTurn(old(Model())).0 && more == DrainTurn(old(Model())).1
      ensures more ==> |buffer| < old(|buffer|)
    {
      ParseProgress(buffer, isClient, maxPayload);
      match Parse(buffer, isClient, maxPayload)
      case NeedMore => return false;
      case Bad(code, why) =>
        ReactTo(Failure(code, why));
        return false;
      case Got(f, size) =>
        buffer := buffer[size..];
        var now := React(f);
        if now != [] {
          AppliedOne(Model(), now[0]);
          assert now == [now[0]];
          ReactTo(now[0]);
        }
        return !Fails(now);
    }

    method DrainFrames()
      modifies this
      ensures Model() == DrainedConn(old(Model()))
    {
      var more := true;
      while more
        invariant DrainedConn(old(Model())) == if more then DrainedConn(Model()) else Model()
        decreases more, |buffer|
      {
        DrainUnfolds(Model());
        more := TakeFrame();
      }
    }

    method OnData(chunk: seq<Byte>)
      modifies this
      ensures Model() == DataCame(old(Model()), chunk)
    {
      if |chunk| == 0 { return; }
      buffer := buffer + chunk;
      DrainFrames();
    }

    method OnSocketClose()
      modifies this`closeEmitted, this`closed
      ensures Model() == SocketGone(old(Model()))
    {
      if closeEmitted { return; }
      closeEmitted := true;
      var code: nat := match closeCode { case Some(code) => code case None => if sentClose then 1000 else 1006 };
      closed := closed + [(code, closeReason)];
    }
  }

  /** One turn of the drain loop. */
  function DrainTurn(c: Conn): (Conn, bool) {
    ParseProgress(c.buffer, c.isClient, c.maxPayload);
    match Parse(c.buffer, c.isClient, c.maxPayload)
    case NeedMore => (c, false)
    case Bad(code, why) => (Applied(c, Failure(code, why)), false)
    case Got(f, size) => (AppliedAll(c.(buffer := c.buffer[size..]), React(f)), !Fails(React(f)))
  }

  lemma DrainUnfolds(c: Conn)
    ensures DrainedConn(c) == if DrainTurn(c).1 then DrainedConn(DrainTurn(c).0) else DrainTurn(c).0
  {
    ParseProgress(c.buffer, c.isClient, c.maxPayload);
    var d := Drain(c.buffer, c.isClient, c.maxPayload);
    var p := Parse(c.buffer, c.isClient, c.maxPayload);
    if p.Bad? {
      AppliedOne(c, Failure(p.code, p.why));
      assert c.(buffer := d.rest) == c;
    } else if p.Got? {
      var rest := c.buffer[p.size..];
      var now := React(p.frame);
      if !Fails(now) {
        var later := Drain(rest, c.isClient, c.maxPayload);
        AppliedAppend(c.(buffer := later.rest), now, later.events);
        AppliedBuffer(c.(buffer := rest), now, later.rest);
      }
    }
  }

  lemma {:induction false} AppliedAppend(c: Conn, a: seq<Event>, b: seq<Event>)
    ensures AppliedAll(c, a + b) == AppliedAll(AppliedAll(c, a), b)
    decreases |a|
  {
    if a == [] {
      assert a + b == b;
    } else {
      assert (a + b)[1..] == a[1..] + b;
      AppliedAppend(Applied(c, a[0]), a[1..], b);
    }
  }

  lemma AppliedOne(c: Conn, e: Event)
    ensures AppliedAll(c, [e]) == Applied(c, e)
  {
    assert [e][1..] == [];
  }

  lemma CloseIgnoresBuffer(c: Conn, code: int, reason: Reason, buffer: seq<Byte>)
    ensures CloseCalled(c.(buffer := buffer), code, reason) == CloseCalled(c, code, reason).(buffer := buffer)
    ensures CloseCalled(c, code, reason).buffer == c.buffer
    ensures CloseCalled(c, code, reason).isClient == c.isClient
    ensures CloseCalled(c, code, reason).maxPayload == c.maxPayload
  {
  }

  lemma AppliedIgnoresBuffer(c: Conn, e: Event, buffer: seq<Byte>)
    ensures Applied(c.(buffer := buffer), e) == Applied(c, e).(buffer := buffer)
    ensures Applied(c, e).buffer == c.buffer
    ensures Applied(c, e).isClient == c.isClient && Applied(c, e).maxPayload == c.maxPayload
  {
    var c' := c.(events := c.events + [e]);
    match e
    case PeerClose(code, reason) =>
      CloseIgnoresBuffer(c'.(closeCode := Some(code), closeReason := reason), code, ReasonBytes(reason), buffer);
    case Failure(code, why) => CloseIgnoresBuffer(c', code, ReasonText(Codes(why)), buffer);
    case _ =>
  }

  /** Reactions neither read nor write the buffer. */
  lemma {:induction false} AppliedBuffer(c: Conn, es: seq<Event>, buffer: seq<Byte>)
    ensures AppliedAll(c.(buffer := buffer), es) == AppliedAll(c, es).(buffer := buffer)
    ensures AppliedAll(c, es).buffer == c.buffer
    ensures AppliedAll(c, es).isClient == c.isClient && AppliedAll(c, es).maxPayload == c.maxPayload
    decreases |es|
  {
    if es != [] {
      AppliedIgnoresBuffer(c, es[0], buffer);
      AppliedBuffer(Applied(c, es[0]), es[1..], buffer);
    }
  }

  lemma AppliedLogsOne(c: Conn, e: Event)
    ensures Applied(c, e).events == c.events + [e]
  {
  }

  lemma {:induction false} AppliedLogs(c: Conn, es: seq<Event>)
    ensures AppliedAll(c, es).events == c.events + es
    decreases |es|
  {
    if es != [] {
      AppliedLogsOne(c, es[0]);
      AppliedLogs(Applied(c, es[0]), es[1..]);
      assert (c.events + [es[0]]) + es[1..] == c.events + es;
    }
  }

  /** The object's events and buffer are those of the pure decoder, so chunk invariance carries over. */
  lemma ConnFollowsDecoder(c: Conn, chunk: seq<Byte>)
    ensures Drained(DataCame(c, chunk).events, DataCame(c, chunk).buffer)
            == Fed(Drained(c.events, c.buffer), chunk, c.isClient, c.maxPayload)
  {
    if chunk != [] {
      var d := Drain(c.buffer + chunk, c.isClient, c.maxPayload);
      AppliedLogs(c.(buffer := d.rest), d.events);
      AppliedBuffer(c.(buffer := d.rest), d.events, d.rest);
    }
  }

  // ---- Every interleaving -----------------------------------------------------------------------

  datatype Op =
    | Open(head: seq<Byte>)
    | Data(chunk: seq<Byte>)
    | Send(text: bool, payload: seq<Byte>)
    | LocalClose(code: int, reason: Reason)
    | SocketClosed

  /** Data and `send` need the socket that `Open` installs. */
  function Step(c: Conn, op: Op): Conn {
    match op
    case Open(head) => if c.connected then c else DataCame(c.(connected := true, buffer := []), head)
    case Data(chunk) => if c.connected then DataCame(c, chunk) else c
    case Send(text, payload) => Wrote(c, Frame(if text then 1 else 2, payload))
    case LocalClose(code, reason) => CloseCalled(c, code, reason)
    case SocketClosed => if c.connected then SocketGone(c) else c
  }

  function Steps(c: Conn, ops: seq<Op>): Conn
    decreases |ops|
  {
    if ops == [] then c else Steps(Step(c, ops[0]), ops[1..])
  }

  function CloseFrames(fs: seq<Frame>): nat {
    if fs == [] then 0 else CloseFrames(fs[..|fs| - 1]) + if fs[|fs| - 1].opcode == 8 then 1 else 0
  }

  function LastPeerClose(es: seq<Event>): Option<(nat, seq<Byte>)> {
    if es == [] then None
    else if es[|es| - 1].PeerClose? then Some((es[|es| - 1].code, es[|es| - 1].reason))
    else LastPeerClose(es[..|es| - 1])
  }

  predicate AnyClosing(es: seq<Event>) {
    es != [] && (es[|es| - 1].PeerClose? || es[|es| - 1].Failure? || AnyClosing(es[..|es| - 1]))
  }

  predicate ReportedOnce(c: Conn) {
    |c.closed| == if c.closeEmitted then 1 else 0
  }

  predicate PeerRecorded(c: Conn) {
    match LastPeerClose(c.events)
    case None => c.closeCode == None && c.closeReason == []
    case Some(p) => c.closeCode == Some(p.0) && c.closeReason == p.1
  }

  /** `called` says whether the application itself has called `close`. */
  ghost predicate CloseInv(c: Conn, called: bool) {
    && CloseFrames(c.written) <= (if c.sentClose then 1 else 0)
    && SmallCloses(c.written)
    && ReportedOnce(c)
    && (c.sentClose <==> called || AnyClosing(c.events))
    && PeerRecorded(c)
  }

  lemma WroteCounts(c: Conn, f: Frame)
    ensures CloseFrames(Wrote(c, f).written) == CloseFrames(c.written) + if c.connected && f.opcode == 8 then 1 else 0
  {
    assert (c.written + [f])[..|c.written|] == c.written;
  }

  predicate SmallCloses(fs: seq<Frame>) {
    forall i :: 0 <= i < |fs| && fs[i].opcode == 8 ==> 2 <= |fs[i].payload| <= 125
  }

  lemma CloseKeepsFrames(c: Conn, code: int, reason: Reason)
    requires CloseFrames(c.written) <= (if c.sentClose then 1 else 0) && SmallCloses(c.written)
    ensures var c' := CloseCalled(c, code, reason);
            c'.sentClose && CloseFrames(c'.written) <= 1 && SmallCloses(c'.written)
  {
    if !c.sentClose && 0 <= code < TWO_16 {
      CloseRoundTrip(code, reason);
      WroteCounts(c.(sentClose := true), Frame(8, EncodeClose(code, reason).value));
    }
  }

  lemma CloseKeepsRest(c: Conn, code: int, reason: Reason)
    ensures var c' := CloseCalled(c, code, reason);
            && c'.events == c.events && c'.closed == c.closed && c'.closeEmitted == c.closeEmitted
            && c'.closeCode == c.closeCode && c'.closeReason == c.closeReason && c'.connected == c.connected
  {
  }

  /** Everything in the invariant but `sentClose` already holds, and a closing event is logged. */
  lemma ClosingRestoresInv(c: Conn, code: int, reason: Reason, called: bool)
    requires CloseFrames(c.written) <= (if c.sentClose then 1 else 0) && SmallCloses(c.written)
    requires ReportedOnce(c) && PeerRecorded(c) && AnyClosing(c.events)
    ensures CloseInv(CloseCalled(c, code, reason), called)
  {
    CloseKeepsFrames(c, code, reason);
    CloseKeepsRest(c, code, reason);
  }

  lemma LogGrows(es: seq<Event>, e: Event)
    ensures AnyClosing(es + [e]) <==> AnyClosing(es) || e.PeerClose? || e.Failure?
    ensures LastPeerClose(es + [e]) == if e.PeerClose? then Some((e.code, e.reason)) else LastPeerClose(es)
  {
    assert (es + [e])[..|es|] == es;
  }

  lemma WriteKeepsInv(c: Conn, f: Frame, called: bool)
    requires CloseInv(c, called) && f.opcode != 8
    ensures CloseInv(Wrote(c, f), called)
  {
    WroteCounts(c, f);
  }

  /** An event that does not close anything. */
  lemma QuietEventKeepsInv(c: Conn, e: Event, called: bool)
    requires CloseInv(c, called) && !e.PeerClose? && !e.Failure?
    ensures CloseInv(c.(events := c.events + [e]), called)
  {
    LogGrows(c.events, e);
  }

  lemma PeerCloseKeepsInv(c: Conn, e: Event, called: bool)
    requires CloseInv(c, called) && e.PeerClose?
    ensures CloseInv(Applied(c, e), called)
  {
    LogGrows(c.events, e);
    var c' := c.(events := c.events + [e], closeCode := Some(e.code), closeReason := e.reason);
    ClosingRestoresInv(c', e.code, ReasonBytes(e.reason), called);
  }

  lemma FailureKeepsInv(c: Conn, e: Event, called: bool)
    requires CloseInv(c, called) && e.Failure?
    ensures CloseInv(Applied(c, e), called)
  {
    LogGrows(c.events, e);
    ClosingRestoresInv(c.(events := c.events + [e]), e.code, ReasonText(Codes(e.why)), called);
  }

  lemma AppliedKeepsInv(c: Conn, e: Event, called: bool)
    requires CloseInv(c, called)
    ensures CloseInv(Applied(c, e), called)
  {
    match e
    case PeerClose(_, _) => PeerCloseKeepsInv(c, e, called);
    case Failure(_, _) => FailureKeepsInv(c, e, called);
    case PongFor(payload) =>
      QuietEventKeepsInv(c, e, called);
      WriteKeepsInv(c.(events := c.events + [e]), Frame(10, payload), called);
    case Message(_) => QuietEventKeepsInv(c, e, called);
    case Binary(_) => QuietEventKeepsInv(c, e, called);
  }

  lemma {:induction false} AppliedAllKeepsInv(c: Conn, es: seq<Event>, called: bool)
    requires CloseInv(c, called)
    ensures CloseInv(AppliedAll(c, es), called)
    decreases |es|
  {
    if es != [] {
      AppliedKeepsInv(c, es[0], called);
      AppliedAllKeepsInv(Applied(c, es[0]), es[1..], called);
    }
  }

  lemma DataKeepsInv(c: Conn, chunk: seq<Byte>, called: bool)
    requires CloseInv(c, called)
    ensures CloseInv(DataCame(c, chunk), called)
  {
    if chunk != [] {
      var d := Drain(c.buffer + chunk, c.isClient, c.maxPayload);
      BufferKeepsInv(c, d.rest, called);
      AppliedAllKeepsInv(c.(buffer := d.rest), d.events, called);
      assert DataCame(c, chunk) == AppliedAll(c.(buffer := d.rest), d.events);
    }
  }

  lemma BufferKeepsInv(c: Conn, buffer: seq<Byte>, called: bool)
    requires CloseInv(c, called)
    ensures CloseInv(c.(buffer := buffer), called)
  {
  }

  lemma LocalCloseKeepsInv(c: Conn, code: int, reason: Reason, called: bool)
    requires CloseInv(c, called)
    ensures CloseInv(CloseCalled(c, code, reason), true)
  {
    CloseKeepsFrames(c, code, reason);
    CloseKeepsRest(c, code, reason);
  }

  lemma ReportKeepsInv(c: Conn, called: bool)
    requires CloseInv(c, called)
    ensures CloseInv(SocketGone(c), called)
  {
  }

  lemma OpenKeepsInv(c: Conn, called: bool)
    requires CloseInv(c, called)
    ensures CloseInv(c.(connected := true, buffer := []), called)
  {
  }

  lemma StepKeepsInv(c: Conn, op: Op, called: bool)
    requires CloseInv(c, called)
    ensures CloseInv(Step(c, op), called || op.LocalClose?)
  {
    match op
    case Open(head) =>
      OpenKeepsInv(c, called);
      DataKeepsInv(c.(connected := true, buffer := []), head, called);
    case Data(chunk) => DataKeepsInv(c, chunk, called);
    case Send(text, payload) => WriteKeepsInv(c, Frame(if text then 1 else 2, payload), called);
    case LocalClose(code, reason) => LocalCloseKeepsInv(c, code, reason, called);
    case SocketClosed => ReportKeepsInv(c, called);
  }

  predicate Calls(ops: seq<Op>) {
    ops != [] && (ops[0].LocalClose? || Calls(ops[1..]))
  }

  lemma {:induction false} StepsKeepInv(c: Conn, ops: seq<Op>, called: bool)
    requires CloseInv(c, called)
    ensures CloseInv(Steps(c, ops), called || Calls(ops))
    decreases |ops|
  {
    if ops != [] {
      StepKeepsInv(c, ops[0], called);
      StepsKeepInv(Step(c, ops[0]), ops[1..], called || ops[0].LocalClose?);
    }
  }

  /** Over every interleaving of chunks, sends, local closes, failures and socket close: at most one
      Close frame of at most 125 payload bytes, and at most one 'close' event. */
  lemma CloseHandshake(isClient: bool, maxPayload: int, ops: seq<Op>)
    ensures var c := Steps(NewConn(isClient, maxPayload), ops);
            CloseFrames(c.written) <= 1 && SmallCloses(c.written) && |c.closed| <= 1
  {
    StepsKeepInv(NewConn(isClient, maxPayload), ops, false);
  }

  /** The 'close' event reports the last code the peer sent, else 1000 if either side's handling tried
      to close, else 1006. */
  lemma CloseReport(isClient: bool, maxPayload: int, ops: seq<Op>)
    ensures var c := Steps(NewConn(isClient, maxPayload), ops);
            c.connected && c.closed == [] ==>
              Step(c, SocketClosed).closed ==
              [match LastPeerClose(c.events)
               case Some(p) => p
               case None => (if Calls(ops) || AnyClosing(c.events) then 1000 else 1006, [])]
  {
    StepsKeepInv(NewConn(isClient, maxPayload), ops, false);
  }

  lemma {:induction false} AppliedAddsNoClose(c: Conn, es: seq<Event>)
    requires c.sentClose
    ensures AppliedAll(c, es).sentClose && CloseFrames(AppliedAll(c, es).written) == CloseFrames(c.written)
    decreases |es|
  {
    if es != [] {
      if es[0].PongFor? { WroteCounts(c.(events := c.events + [es[0]]), Frame(10, es[0].payload)); }
      AppliedAddsNoClose(Applied(c, es[0]), es[1..]);
    }
  }

  lemma {:induction false} NoMoreCloses(c: Conn, ops: seq<Op>)
    requires c.sentClose
    ensures CloseFrames(Steps(c, ops).written) == CloseFrames(c.written)
    decreases |ops|
  {
    if ops != [] {
      match ops[0] {
        case Open(head) =>
          AppliedAddsNoClose(c.(connected := true, buffer := Drain([] + head, c.isClient, c.maxPayload).rest),
                             Drain([] + head, c.isClient, c.maxPayload).events);
        case Data(chunk) =>
          AppliedAddsNoClose(c.(buffer := Drain(c.buffer + chunk, c.isClient, c.maxPayload).rest),
                             Drain(c.buffer + chunk, c.isClient, c.maxPayload).events);
        case Send(text, payload) => WroteCounts(c, Frame(if text then 1 else 2, payload));
        case LocalClose(_, _) =>
        case SocketClosed =>
      }
      NoMoreCloses(Step(c, ops[0]), ops[1..]);
    }
  }

  /** The first local close decides for good whether the peer ever gets a Close frame: it does exactly
      when the socket is there and the code fits 16 bits. An out-of-range code is reported as 1000 all
      the same. */
  lemma FirstCloseDecides(c: Conn, code: int, reason: Reason, ops: seq<Op>)
    requires CloseInv(c, false) && !c.sentClose
    ensures CloseFrames(Steps(c, [LocalClose(code, reason)] + ops).written) ==
            if c.connected && 0 <= code < TWO_16 then 1 else 0
  {
    var all := [LocalClose(code, reason)] + ops;
    assert all[1..] == ops;
    var c' := CloseCalled(c, code, reason);
    if 0 <= code < TWO_16 {
      WroteCounts(c.(sentClose := true), Frame(8, EncodeClose(code, reason).value));
    }
    NoMoreCloses(c', ops);
  }

  // ---- Two peers ------------------------------------------------------------------------------------

  /** The key is used on the way to a server only. */
  function OnTheWire(f: Frame, toClient: bool, key: Key): seq<Byte> {
    EncodeFrame(f, if toClient then None else Some(key))
  }

  lemma FrameArrives(c: Conn, f: Frame, key: Key)
    requires c.buffer == [] && Acceptable(f, c.maxPayload)
    ensures DataCame(c, OnTheWire(f, c.isClient, key)) == AppliedAll(c, React(f))
  {
    var fs, wire := [(f, key)], OnTheWire(f, c.isClient, key);
    assert fs[1..] == [] && EncodeFrames(fs, !c.isClient) == wire + [] && wire + [] == wire;
    assert ReactAll(fs) == React(f) + [] && React(f) + [] == React(f);
    RoundTrip(fs, !c.isClient, c.maxPayload);
    assert c.buffer + wire == wire;
    AppliedBuffer(c, React(f), []);
    assert c.(buffer := []) == c;
  }

  /** A Ping is answered by one Pong with the same payload, per section 5.5.3 of RFC 6455. */
  lemma PingIsEchoed(c: Conn, payload: seq<Byte>, key: Key)
    requires c.connected && c.buffer == [] && Acceptable(Frame(9, payload), c.maxPayload)
    ensures DataCame(c, OnTheWire(Frame(9, payload), c.isClient, key)).written == c.written + [Frame(10, payload)]
  {
    FrameArrives(c, Frame(9, payload), key);
    AppliedOne(c, PongFor(payload));
  }

  predicate OpenPeer(c: Conn) {
    c.connected && c.buffer == [] && !c.sentClose && !c.closeEmitted && (c.maxPayload <= 0 || c.maxPayload >= 125)
  }

  /** A peer's Close is recorded, and echoed unless this side has sent its own. */
  lemma CloseArrives(c: Conn, code: int, reason: Reason, key: Key)
    requires c.connected && c.buffer == [] && (c.maxPayload <= 0 || c.maxPayload >= 125) && 0 <= code < TWO_16
    ensures var f := Frame(8, EncodeClose(code, reason).value);
            var c' := DataCame(c, OnTheWire(f, c.isClient, key));
            && c'.written == (if c.sentClose then c.written else c.written + [f])
            && c'.closeCode == Some(code) && c'.closeReason == ReasonOctets(reason) && c'.closeEmitted == c.closeEmitted
            && c'.closed == c.closed
  {
    var f := Frame(8, EncodeClose(code, reason).value);
    CloseRoundTrip(code, reason);
    FrameArrives(c, f, key);
    AppliedOne(c, PeerClose(code, ReasonOctets(reason)));
  }

  /** One side closes: the other echoes the very same frame, the closer writes no second one, and both
      report the closer's code and reason. */
  lemma PeersAgreeOnClose(a: Conn, b: Conn, code: int, reason: Reason, toA: Key, toB: Key)
    requires OpenPeer(a) && OpenPeer(b) && 0 <= code < TWO_16
    ensures var f := Frame(8, EncodeClose(code, reason).value);
            var a1 := CloseCalled(a, code, reason);
            var b1 := DataCame(b, OnTheWire(f, b.isClient, toB));
            var a2 := DataCame(a1, OnTheWire(f, a.isClient, toA));
            && a1.written == a.written + [f] && b1.written == b.written + [f] && a2.written == a1.written
            && SocketGone(a2).closed == a.closed + [(code, ReasonOctets(reason))]
            && SocketGone(b1).closed == b.closed + [(code, ReasonOctets(reason))]
  {
    CloseArrives(b, code, reason, toB);
    CloseArrives(CloseCalled(a, code, reason), code, reason, toA);
  }
}
