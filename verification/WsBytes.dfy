/** The WebSocket decoder of tools/minimal_ws.js byte by byte: what each frame of a stream must give, written
    out from sections 5.2, 5.5 and 7.4.1 of RFC 6455 and the limits of the tool, and the proof that the
    decoder gives it. */
module WsBytes {
  import opened Prelude
  import opened Text
  import opened WsFrames
  import opened WsSocket

  // ---- Masking, bit by bit ----------------------------------------------------------------------

  function Bit(x: nat, k: nat): nat {
    if k == 0 then x % 2 else Bit(x / 2, k - 1)
  }

  lemma {:induction false} XorBitsAre(a: nat, b: nat, bits: nat, k: nat)
    requires k < bits
    ensures Bit(XorBits(a, b, bits), k) == (Bit(a, k) + Bit(b, k)) % 2
    decreases bits
  {
    var low, high := if a % 2 == b % 2 then 0 else 1, XorBits(a / 2, b / 2, bits - 1);
    assert XorBits(a, b, bits) == low + 2 * high;
    LowBit(low, high);
    if k > 0 { XorBitsAre(a / 2, b / 2, bits - 1, k - 1); }
  }

  /** Each of the eight bits of a masked byte is the exclusive or of the two bits. */
  lemma XorIsBitwise(a: Byte, b: Byte, k: nat)
    requires k < 8
    ensures Bit(Xor(a, b), k) == (Bit(a, k) + Bit(b, k)) % 2
  {
    XorBitsAre(a, b, 8, k);
  }

  // ---- The header ---------------------------------------------------------------------------------

  /** The number that the bytes spell, most significant first. */
  function BigEndian(b: seq<Byte>): nat {
    if b == [] then 0 else 256 * BigEndian(b[..|b| - 1]) + b[|b| - 1] as int
  }

  /** The payload length that the header announces, once its bytes are there. */
  function Announced(b: seq<Byte>): Option<nat>
    requires |b| >= 2
  {
    var l := b[1] % 128;
    if l <= 125 then Some(l)
    else if l == 126 then if |b| < 4 then None else Some(BigEndian(b[2..4]))
    else if |b| < 10 then None else Some(BigEndian(b[2..10]))
  }

  /** Bytes before the payload. */
  function HeaderSize(b: seq<Byte>): nat
    requires |b| >= 2
  {
    (if b[1] % 128 <= 125 then 2 else if b[1] % 128 == 126 then 4 else 10) + if b[1] >= 128 then 4 else 0
  }

  datatype Verdict =
    | Incomplete
    | Rejected(code: nat, why: string)
    | Complete(opcode: nat, payload: seq<Byte>, size: nat)

  /** The payload, unmasked with the four bytes before it if the mask bit is set. */
  function PayloadOf(b: seq<Byte>, h: nat, n: nat, masked: bool): (p: seq<Byte>)
    requires h + n <= |b| && (masked ==> h >= 4)
    ensures |p| == n
  {
    seq(n, i requires 0 <= i < n => if masked then Xor(b[h + i], b[h - 4 + i % 4]) else b[h + i])
  }

  /** The first frame of `b` by its bytes: no fragments; masked exactly if it goes to a server; no longer than
      2^53 - 1 bytes, nor than the receiver's limit if there is one. */
  function Judge(b: seq<Byte>, isClient: bool, maxPayload: int): Verdict {
    if |b| < 2 then Incomplete
    else if b[0] < 0x80 then Rejected(1002, "Fragmented frames not supported")
    else if (b[1] >= 0x80) != !isClient then Rejected(1002, "Invalid masking")
    else
      match Announced(b)
      case None => Incomplete
      case Some(n) =>
        if n > 9007199254740991 || (maxPayload > 0 && n > maxPayload) then Rejected(1009, "Message too large")
        else if |b| < HeaderSize(b) + n then Incomplete
        else Complete(b[0] % 16, PayloadOf(b, HeaderSize(b), n, b[1] >= 0x80), HeaderSize(b) + n)
  }

  lemma TwoMoreBytes(a: seq<Byte>, b: seq<Byte>)
    requires |b| == 2
    ensures BigEndian(a + b) == TWO_16 * BigEndian(a) + ReadU16(b)
  {
    var ab := a + b;
    assert ab[..|ab| - 1] == a + [b[0]] && (a + [b[0]])[..|a|] == a;
  }

  lemma FourMoreBytes(a: seq<Byte>, b: seq<Byte>)
    requires |b| == 4
    ensures BigEndian(a + b) == TWO_32 * BigEndian(a) + ReadU32(b)
  {
    TwoMoreBytes(a, b[..2]);
    TwoMoreBytes(a + b[..2], b[2..]);
    assert a + b == (a + b[..2]) + b[2..];
  }

  lemma ReadsBigEndian(b: seq<Byte>)
    ensures |b| == 2 ==> ReadU16(b) == BigEndian(b)
    ensures |b| == 8 ==> ReadU64(b) == BigEndian(b)
  {
    var none: seq<Byte> := [];
    if |b| == 2 {
      TwoMoreBytes(none, b);
      assert none + b == b;
    } else if |b| == 8 {
      FourMoreBytes(none, b[..4]);
      FourMoreBytes(b[..4], b[4..]);
      assert none + b[..4] == b[..4] && b[..4] + b[4..] == b;
    }
  }

  lemma MaskedBody(b: seq<Byte>, opcode: Opcode, offset: nat, n: nat, maxPayload: int)
    ensures ParseBody(b, opcode, true, offset, n, maxPayload) ==
            if maxPayload > 0 && n > maxPayload then Bad(1009, "Message too large")
            else if |b| < offset + 4 + n then NeedMore
            else Got(Frame(opcode, PayloadOf(b, offset + 4, n, true)), offset + 4 + n)
  {
    if |b| >= offset + 4 + n { Unmasked(b, offset + 4, n); }
  }

  lemma PlainBody(b: seq<Byte>, opcode: Opcode, offset: nat, n: nat, maxPayload: int)
    ensures ParseBody(b, opcode, false, offset, n, maxPayload) ==
            if maxPayload > 0 && n > maxPayload then Bad(1009, "Message too large")
            else if |b| < offset + n then NeedMore
            else Got(Frame(opcode, PayloadOf(b, offset, n, false)), offset + n)
  {
    if |b| >= offset + n { assert b[offset..offset + n] == PayloadOf(b, offset, n, false); }
  }

  lemma Unmasked(b: seq<Byte>, h: nat, n: nat)
    requires 4 <= h && h + n <= |b|
    ensures Masked(b[h..h + n], b[h - 4..h]) == PayloadOf(b, h, n, true)
  {
    var raw, key, p := b[h..h + n], b[h - 4..h], PayloadOf(b, h, n, true);
    forall i | 0 <= i < n ensures Masked(raw, key)[i] == p[i] {
      assert raw[i] == b[h + i] && key[i % 4] == b[h - 4 + i % 4];
    }
  }

  lemma ParseJudges(b: seq<Byte>, isClient: bool, maxPayload: int)
    ensures Parse(b, isClient, maxPayload) ==
            match Judge(b, isClient, maxPayload)
            case Incomplete => NeedMore
            case Rejected(code, why) => Bad(code, why)
            case Complete(opcode, payload, size) => Got(Frame(opcode, payload), size)
  {
    if |b| >= 2 {
      var opcode, l := b[0] % 16, b[1] % 128;
      var offset := if l <= 125 then 2 else if l == 126 then 4 else 10;
      if |b| >= offset {
        if l >= 126 { ReadsBigEndian(b[2..offset]); }
        var n := Announced(b).value;
        if b[1] >= 128 { MaskedBody(b, opcode, offset, n, maxPayload); }
        else { PlainBody(b, opcode, offset, n, maxPayload); }
      }
    }
  }

  // ---- What each frame must give -----------------------------------------------------------------------

  function WithoutBom(s: Str): Str {
    if s != [] && s[0] == 0xFEFF then s[1..] else s
  }

  /** The event of a complete frame, by opcode. */
  function Effect(opcode: nat, payload: seq<Byte>): seq<Event> {
    if opcode == 0x1 then
      (match Decode(payload)
       case None => [Failure(1007, "Invalid UTF-8")]
       case Some(s) => [Message(WithoutBom(s))])
    else if opcode == 0x2 then [Binary(payload)]
    else if opcode == 0x8 then
      if |payload| < 2 then [PeerClose(1005, [])] else [PeerClose(BigEndian(payload[..2]), payload[2..])]
    else if opcode == 0x9 then [PongFor(payload)]
    else if opcode == 0xA then []
    else [Failure(1002, "Unsupported opcode")]
  }

  lemma ReactHasEffect(f: Frame)
    ensures React(f) == Effect(f.opcode, f.payload)
  {
    if |f.payload| >= 2 { ReadsBigEndian(f.payload[..2]); }
  }

  predicate EndsIt(es: seq<Event>) {
    es != [] && es[0].Failure?
  }

  /** The events of a whole stream, and the bytes left over: frame after frame up to an incomplete one or
      the first failure, whose bytes are used up only if it was complete. */
  function Expected(b: seq<Byte>, isClient: bool, maxPayload: int): (seq<Event>, seq<Byte>)
    decreases |b|
  {
    match Judge(b, isClient, maxPayload)
    case Incomplete => ([], b)
    case Rejected(code, why) => ([Failure(code, why)], b)
    case Complete(opcode, payload, size) =>
      var effect := Effect(opcode, payload);
      if EndsIt(effect) then (effect, b[size..])
      else
        var (more, rest) := Expected(b[size..], isClient, maxPayload);
        (effect + more, rest)
  }

  lemma ExpectedAfter(b: seq<Byte>, isClient: bool, maxPayload: int, f: Frame, size: nat)
    requires Judge(b, isClient, maxPayload) == Complete(f.opcode, f.payload, size)
    ensures 2 <= size <= |b|
    ensures Expected(b, isClient, maxPayload) ==
            if Fails(React(f)) then (React(f), b[size..])
            else (React(f) + Expected(b[size..], isClient, maxPayload).0, Expected(b[size..], isClient, maxPayload).1)
  {
    ReactHasEffect(f);
  }

  /** For every stream, limit and role the decoder gives exactly those events. */
  lemma {:induction false} DecodesAsExpected(b: seq<Byte>, isClient: bool, maxPayload: int)
    ensures Drain(b, isClient, maxPayload) ==
            Drained(Expected(b, isClient, maxPayload).0, Expected(b, isClient, maxPayload).1)
    decreases |b|
  {
    ParseJudges(b, isClient, maxPayload);
    var p := Parse(b, isClient, maxPayload);
    if p.Got? {
      ExpectedAfter(b, isClient, maxPayload, p.frame, p.size);
      if !Fails(React(p.frame)) { DecodesAsExpected(b[p.size..], isClient, maxPayload); }
    }
  }

  /** ... and so it does however the stream is cut up, until the first failure. */
  lemma DecodesAsExpectedInChunks(chunks: seq<seq<Byte>>, isClient: bool, maxPayload: int)
    ensures var (events, rest) := Expected(Flatten(chunks), isClient, maxPayload);
            var fed := FedAll(chunks, isClient, maxPayload);
            UpToFailure(fed.events) == events && (!Fails(events) ==> fed == Drained(events, rest))
  {
    DecodesAsExpected(Flatten(chunks), isClient, maxPayload);
    ChunkInvariance(chunks, isClient, maxPayload);
  }

  // ---- Messages from peer to peer ------------------------------------------------------------------------

  datatype Sent =
    | SentText(text: Str)
    | SentBinary(bytes: seq<Byte>)
    | SentPing(bytes: seq<Byte>)
    | SentPong(bytes: seq<Byte>)
    | SentClose(code: nat, reason: seq<Byte>)

  /** The frame in which a peer sends it. */
  function FrameFor(m: Sent): Frame {
    match m
    case SentText(text) => Frame(0x1, EncodeAll(text))
    case SentBinary(bytes) => Frame(0x2, bytes)
    case SentPing(bytes) => Frame(0x9, bytes)
    case SentPong(bytes) => Frame(0xA, bytes)
    case SentClose(code, reason) => Frame(0x8, [code / 256 % 256, code % 256] + reason)
  }

  /** What the other peer must make of it. */
  function Arrives(m: Sent): seq<Event> {
    match m
    case SentText(text) => [Message(WithoutBom(Scalars(text)))]
    case SentBinary(bytes) => [Binary(bytes)]
    case SentPing(bytes) => [PongFor(bytes)]
    case SentPong(_) => []
    case SentClose(code, reason) => [PeerClose(code, reason)]
  }

  function ArriveAll(ms: seq<(Sent, Key)>): seq<Event> {
    if ms == [] then [] else Arrives(ms[0].0) + ArriveAll(ms[1..])
  }

  function FramesFor(ms: seq<(Sent, Key)>): (fs: seq<(Frame, Key)>)
    ensures |fs| == |ms| && forall i :: 0 <= i < |ms| ==> fs[i] == (FrameFor(ms[i].0), ms[i].1)
  {
    seq(|ms|, i requires 0 <= i < |ms| => (FrameFor(ms[i].0), ms[i].1))
  }

  predicate Sendable(m: Sent, maxPayload: int) {
    Admitted(FrameFor(m), maxPayload) && (m.SentClose? ==> m.code < 65536)
  }

  lemma SentIsAcceptable(m: Sent, maxPayload: int)
    requires Sendable(m, maxPayload)
    ensures Acceptable(FrameFor(m), maxPayload) && React(FrameFor(m)) == Arrives(m)
  {
    ReactHasEffect(FrameFor(m));
    match m
    case SentText(text) => DecodeEncode(text);
    case SentClose(code, reason) =>
      var p := FrameFor(m).payload;
      assert p[2..] == reason && p[..2] == [code / 256 % 256, code % 256];
      ReadsBigEndian(p[..2]);
    case _ =>
  }

  lemma {:induction false} ReactAllArrives(ms: seq<(Sent, Key)>, maxPayload: int)
    requires forall i :: 0 <= i < |ms| ==> Sendable(ms[i].0, maxPayload)
    ensures ReactAll(FramesFor(ms)) == ArriveAll(ms)
    decreases |ms|
  {
    if ms != [] {
      SentIsAcceptable(ms[0].0, maxPayload);
      assert FramesFor(ms)[1..] == FramesFor(ms[1..]);
      ReactAllArrives(ms[1..], maxPayload);
    }
  }

  /** Any list of messages sent by one peer, in frames of any length form, masked or not, and however the
      bytes are cut up, arrives at the other: text as text, bytes as the same bytes, a Ping as a request for
      the same Pong, a Pong as nothing, a Close with its code and reason; in order, and with no byte left. */
  lemma MessagesArrive(ms: seq<(Sent, Key)>, fromClient: bool, maxPayload: int, chunks: seq<seq<Byte>>)
    requires forall i :: 0 <= i < |ms| ==> Sendable(ms[i].0, maxPayload)
    requires Flatten(chunks) == EncodeFrames(FramesFor(ms), fromClient)
    ensures FedAll(chunks, !fromClient, maxPayload) == Drained(ArriveAll(ms), [])
  {
    var fs := FramesFor(ms);
    forall i | 0 <= i < |fs| ensures Acceptable(fs[i].0, maxPayload) { SentIsAcceptable(ms[i].0, maxPayload); }
    RoundTripInChunks(fs, fromClient, maxPayload, chunks);
    ReactAllArrives(ms, maxPayload);
  }

  /** The encoder uses the shortest length form. */
  lemma EncodedSize(f: Frame, mask: Option<Key>)
    requires |f.payload| < TWO_32
    ensures var n, b := |f.payload|, EncodeFrame(f, mask);
            && |b| == n + (if n <= 125 then 2 else if n <= 65535 then 4 else 10) + (if mask.Some? then 4 else 0)
            && b[0] == 0x80 + f.opcode && (b[1] >= 0x80 <==> mask.Some?)
            && b[1] % 128 == if n <= 125 then n else if n <= 65535 then 126 else 127
  {
    EncodedLayout(f, mask, []);
    assert EncodeFrame(f, mask) + [] == EncodeFrame(f, mask);
    HeadBytes(f.opcode, LengthField(|f.payload|), mask.Some?);
    if |f.payload| > 65535 {
      ReadBack32(0);
      ReadBack32(|f.payload|);
    }
  }

  /** A complete frame fails exactly if it is text that is not UTF-8 (1007) or has another opcode (1002). */
  lemma FrameFailsExactly(f: Frame)
    ensures Fails(React(f)) <==> (f.opcode == 1 && Decode(f.payload).None?) || f.opcode !in {1, 2, 8, 9, 10}
    ensures Fails(React(f)) ==> React(f)[0].code == if f.opcode == 1 then 1007 else 1002
  {
    ReactHasEffect(f);
  }

  // ---- The Close frame that a failure sends -----------------------------------------------------------

  /** The Pongs that answer the Pings among `es`. */
  function Pongs(es: seq<Event>): seq<Frame> {
    if es == [] then [] else PongTo(es[0]) + Pongs(es[1..])
  }

  predicate NothingCloses(es: seq<Event>) {
    forall i :: 0 <= i < |es| ==> !es[i].PeerClose? && !es[i].Failure?
  }

  function PongTo(e: Event): seq<Frame> {
    if e.PongFor? then [Frame(0xA, e.payload)] else []
  }

  lemma QuietEventWrites(c: Conn, e: Event)
    requires c.connected && !e.PeerClose? && !e.Failure?
    ensures var c' := Applied(c, e);
            c'.written == c.written + PongTo(e) && c'.sentClose == c.sentClose && c'.connected
  {
  }

  lemma AppendFrames(a: seq<Frame>, b: seq<Frame>, c: seq<Frame>)
    ensures (a + b) + c == a + (b + c)
  {
  }

  lemma {:induction false} QuietEventsWritePongs(c: Conn, es: seq<Event>)
    requires c.connected && NothingCloses(es)
    ensures var c' := AppliedAll(c, es);
            c'.written == c.written + Pongs(es) && c'.sentClose == c.sentClose && c'.connected
    decreases |es|
  {
    if es == [] {
      assert c.written + [] == c.written;
    } else {
      var e, rest := es[0], es[1..];
      assert NothingCloses(rest) by { assert forall i :: 0 <= i < |rest| ==> rest[i] == es[i + 1]; }
      QuietEventWrites(c, e);
      QuietEventsWritePongs(Applied(c, e), rest);
      AppendFrames(c.written, PongTo(e), Pongs(rest));
    }
  }

  lemma ChunkKeepsRole(c: Conn, chunk: seq<Byte>)
    ensures DataCame(c, chunk).isClient == c.isClient && DataCame(c, chunk).maxPayload == c.maxPayload
  {
    if chunk != [] {
      var d := Drain(c.buffer + chunk, c.isClient, c.maxPayload);
      AppliedBuffer(c.(buffer := d.rest), d.events, []);
    }
  }

  lemma {:induction false} StepsKeepRole(c: Conn, ops: seq<Op>)
    ensures Steps(c, ops).isClient == c.isClient && Steps(c, ops).maxPayload == c.maxPayload
    decreases |ops|
  {
    if ops != [] {
      match ops[0] {
        case Open(head) => ChunkKeepsRole(c.(connected := true, buffer := []), head);
        case Data(chunk) => ChunkKeepsRole(c, chunk);
        case LocalClose(code, reason) => CloseIgnoresBuffer(c, code, reason, []);
        case _ =>
      }
      StepsKeepRole(Step(c, ops[0]), ops[1..]);
    }
  }

  /** The payload of the Close frame: the code in two bytes, and the reason as one line of at most 123 bytes. */
  function ClosePayload(code: nat, why: string): seq<Byte> {
    [code / 256 % 256, code % 256] + EncodeAll(Formatted(Codes(why), 123))
  }

  lemma FailureIsApplied(c: Conn, es: seq<Event>, code: nat, why: string)
    requires c.connected && !c.sentClose && NothingCloses(es) && code < TWO_16
    ensures var c' := AppliedAll(c, es + [Failure(code, why)]);
            c'.written == c.written + (Pongs(es) + [Frame(0x8, ClosePayload(code, why))]) && c'.sentClose
  {
    AppliedAppend(c, es, [Failure(code, why)]);
    QuietEventsWritePongs(c, es);
    var c1 := AppliedAll(c, es);
    AppliedOne(c1, Failure(code, why));
    assert EncodeClose(code, ReasonText(Codes(why))).value == ClosePayload(code, why);
    AppendFrames(c.written, Pongs(es), [Frame(0x8, ClosePayload(code, why))]);
  }

  /** Only the last event can be a failure, and these are its codes. */
  predicate FailsLast(es: seq<Event>) {
    forall i :: 0 <= i < |es| && es[i].Failure? ==> i == |es| - 1 && es[i].code in {1002, 1007, 1009}
  }

  lemma FailsLastAfter(a: seq<Event>, b: seq<Event>)
    requires (forall i :: 0 <= i < |a| ==> !a[i].Failure?) && FailsLast(b)
    ensures FailsLast(a + b)
  {
    var ab := a + b;
    forall i | 0 <= i < |ab| && ab[i].Failure? ensures i == |ab| - 1 && ab[i].code in {1002, 1007, 1009} {
      assert i >= |a| && ab[i] == b[i - |a|];
    }
  }

  /** The codes with which a stream can fail. */
  lemma {:induction false} FailureCodes(b: seq<Byte>, isClient: bool, maxPayload: int)
    ensures FailsLast(Expected(b, isClient, maxPayload).0)
    decreases |b|
  {
    var v := Judge(b, isClient, maxPayload);
    if v.Complete? {
      var effect, rest := Effect(v.opcode, v.payload), b[v.size..];
      if !EndsIt(effect) {
        FailureCodes(rest, isClient, maxPayload);
        FailsLastAfter(effect, Expected(rest, isClient, maxPayload).0);
      }
    }
  }

  lemma {:induction false} PongsWithoutClose(es: seq<Event>)
    ensures CloseFrames(Pongs(es)) == 0
    decreases |es|
  {
    if es != [] {
      PongsWithoutClose(es[1..]);
      if es[0].PongFor? { CloseFramesAppend([Frame(0xA, es[0].payload)], Pongs(es[1..])); }
      else { assert [] + Pongs(es[1..]) == Pongs(es[1..]); }
    }
  }

  lemma {:induction false} CloseFramesAppend(a: seq<Frame>, b: seq<Frame>)
    ensures CloseFrames(a + b) == CloseFrames(a) + CloseFrames(b)
    decreases |b|
  {
    if b == [] {
      assert a + b == a;
    } else {
      assert (a + b)[..|a + b| - 1] == a + b[..|b| - 1];
      CloseFramesAppend(a, b[..|b| - 1]);
    }
  }

  lemma OneCloseWritten(before: seq<Frame>, es: seq<Event>, payload: seq<Byte>)
    requires CloseFrames(before) == 0
    ensures CloseFrames(before + (Pongs(es) + [Frame(0x8, payload)])) == 1
  {
    PongsWithoutClose(es);
    CloseFramesAppend(Pongs(es), [Frame(0x8, payload)]);
    CloseFramesAppend(before, Pongs(es) + [Frame(0x8, payload)]);
    var none: seq<Frame> := [];
    assert [Frame(0x8, payload)][..0] == none;
  }

  /** In every run in which nothing has closed the connection yet: if the bytes received by then fail, the
      Pings before the failure are answered, exactly one Close frame is written in the rest of the run, and it
      carries the code of that failure. */
  lemma FailureClosesWithItsCode(isClient: bool, maxPayload: int, ops: seq<Op>, chunk: seq<Byte>, es: seq<Event>,
                                 code: nat, why: string, later: seq<Op>)
    requires var c := Steps(NewConn(isClient, maxPayload), ops);
             && c.connected && !c.sentClose && chunk != []
             && Expected(c.buffer + chunk, isClient, maxPayload).0 == es + [Failure(code, why)] && NothingCloses(es)
    ensures var c := Steps(NewConn(isClient, maxPayload), ops);
            var c' := Step(c, Data(chunk));
            && code in {1002, 1007, 1009}
            && c'.written == c.written + (Pongs(es) + [Frame(0x8, ClosePayload(code, why))])
            && CloseFrames(Steps(c', later).written) == 1
  {
    var c := Steps(NewConn(isClient, maxPayload), ops);
    var all := es + [Failure(code, why)];
    StepsKeepRole(NewConn(isClient, maxPayload), ops);
    StepsKeepInv(NewConn(isClient, maxPayload), ops, false);
    DecodesAsExpected(c.buffer + chunk, isClient, maxPayload);
    FailureCodes(c.buffer + chunk, isClient, maxPayload);
    assert all[|es|] == Failure(code, why);
    var start := c.(buffer := Expected(c.buffer + chunk, isClient, maxPayload).1);
    FailureIsApplied(start, es, code, why);
    OneCloseWritten(c.written, es, ClosePayload(code, why));
    NoMoreCloses(Step(c, Data(chunk)), later);
  }

  // ---- Two sockets ---------------------------------------------------------------------------------

  lemma {:induction false} StepsLast(c: Conn, ops: seq<Op>, op: Op)
    ensures Steps(c, ops + [op]) == Step(Steps(c, ops), op)
    decreases |ops|
  {
    if ops == [] {
      assert ops + [op] == [op];
    } else {
      assert (ops + [op])[1..] == ops[1..] + [op];
      StepsLast(Step(c, ops[0]), ops[1..], op);
    }
  }

  lemma {:induction false} EventsKeepConnected(c: Conn, es: seq<Event>)
    ensures AppliedAll(c, es).connected == c.connected
    decreases |es|
  {
    if es != [] { EventsKeepConnected(Applied(c, es[0]), es[1..]); }
  }

  lemma ChunkKeepsConnected(c: Conn, chunk: seq<Byte>)
    ensures DataCame(c, chunk).connected == c.connected
  {
    if chunk != [] {
      var d := Drain(c.buffer + chunk, c.isClient, c.maxPayload);
      EventsKeepConnected(c.(buffer := d.rest), d.events);
    }
  }

  /** Before its socket is there, a connection reads nothing, writes nothing and reports nothing, whatever is
      asked of it. */
  lemma {:induction false} NothingBeforeOpen(isClient: bool, maxPayload: int, ops: seq<Op>)
    requires forall i :: 0 <= i < |ops| ==> !ops[i].Open?
    ensures var c := Steps(NewConn(isClient, maxPayload), ops);
            !c.connected && c.events == [] && c.written == [] && c.closed == []
  {
    if ops != [] {
      var n := |ops| - 1;
      NothingBeforeOpen(isClient, maxPayload, ops[..n]);
      assert ops == ops[..n] + [ops[n]];
      StepsLast(NewConn(isClient, maxPayload), ops[..n], ops[n]);
    }
  }

  /** A connection that is opened with the bytes behind the handshake and then fed the chunks that follow. */
  function Receiving(head: seq<Byte>, chunks: seq<seq<Byte>>): seq<Op> {
    if chunks == [] then [Open(head)] else Receiving(head, chunks[..|chunks| - 1]) + [Data(chunks[|chunks| - 1])]
  }

  predicate HasRead(c: Conn, d: Drained, isClient: bool, maxPayload: int) {
    c.connected && c.isClient == isClient && c.maxPayload == maxPayload && c.events == d.events && c.buffer == d.rest
  }

  lemma ReadsOneChunk(c: Conn, d: Drained, chunk: seq<Byte>, isClient: bool, maxPayload: int)
    requires HasRead(c, d, isClient, maxPayload)
    ensures HasRead(DataCame(c, chunk), Fed(d, chunk, isClient, maxPayload), isClient, maxPayload)
  {
    ConnFollowsDecoder(c, chunk);
    ChunkKeepsRole(c, chunk);
    ChunkKeepsConnected(c, chunk);
  }

  lemma ReadsHead(isClient: bool, maxPayload: int, head: seq<Byte>)
    ensures HasRead(Steps(NewConn(isClient, maxPayload), [Open(head)]), FedAll([head], isClient, maxPayload),
                    isClient, maxPayload)
  {
    var none: seq<seq<Byte>> := [];
    var c := NewConn(isClient, maxPayload).(connected := true);
    ReadsOneChunk(c, Drained([], []), head, isClient, maxPayload);
    assert [head][..0] == none;
    assert Steps(NewConn(isClient, maxPayload), [Open(head)]) == DataCame(c, head);
  }

  lemma FedLast(chunks: seq<seq<Byte>>, chunk: seq<Byte>, isClient: bool, maxPayload: int)
    ensures FedAll(chunks + [chunk], isClient, maxPayload) ==
            Fed(FedAll(chunks, isClient, maxPayload), chunk, isClient, maxPayload)
  {
    assert (chunks + [chunk])[..|chunks|] == chunks;
  }

  lemma {:induction false} ReceivingIsFed(isClient: bool, maxPayload: int, head: seq<Byte>, chunks: seq<seq<Byte>>)
    ensures HasRead(Steps(NewConn(isClient, maxPayload), Receiving(head, chunks)),
                    FedAll([head] + chunks, isClient, maxPayload), isClient, maxPayload)
  {
    if chunks == [] {
      ReadsHead(isClient, maxPayload, head);
      assert [head] + chunks == [head];
    } else {
      var n := |chunks| - 1;
      var before, pre, chunk := Receiving(head, chunks[..n]), [head] + chunks[..n], chunks[n];
      var c := Steps(NewConn(isClient, maxPayload), before);
      ReceivingIsFed(isClient, maxPayload, head, chunks[..n]);
      StepsLast(NewConn(isClient, maxPayload), before, Data(chunk));
      ReadsOneChunk(c, FedAll(pre, isClient, maxPayload), chunk, isClient, maxPayload);
      FedLast(pre, chunk, isClient, maxPayload);
      assert [head] + chunks == pre + [chunk];
    }
  }

  /** The call that sends a text or bytes. */
  function SendOf(m: Sent): Op {
    if m.SentText? then Send(true, EncodeAll(m.text)) else Send(false, if m.SentBinary? then m.bytes else [])
  }

  /** A connection that is opened and then sends. */
  function Sending(ms: seq<(Sent, Key)>): seq<Op> {
    if ms == [] then [Open([])] else Sending(ms[..|ms| - 1]) + [SendOf(ms[|ms| - 1].0)]
  }

  lemma SendWrites(c: Conn, m: Sent)
    requires c.connected && (m.SentText? || m.SentBinary?)
    ensures Step(c, SendOf(m)).connected && Step(c, SendOf(m)).written == c.written + [FrameFor(m)]
  {
  }

  lemma {:induction false} SendingWrites(isClient: bool, maxPayload: int, ms: seq<(Sent, Key)>)
    requires forall i :: 0 <= i < |ms| ==> ms[i].0.SentText? || ms[i].0.SentBinary?
    ensures var c := Steps(NewConn(isClient, maxPayload), Sending(ms));
            c.connected && |c.written| == |ms| && forall i :: 0 <= i < |ms| ==> c.written[i] == FrameFor(ms[i].0)
  {
    var blank := NewConn(isClient, maxPayload);
    if ms == [] {
      assert Steps(blank, [Open([])]) == blank.(connected := true);
    } else {
      var n := |ms| - 1;
      var ops := Sending(ms[..n]);
      SendingWrites(isClient, maxPayload, ms[..n]);
      StepsLast(blank, ops, SendOf(ms[n].0));
      SendWrites(Steps(blank, ops), ms[n].0);
    }
  }

  function Keyed(fs: seq<Frame>, ms: seq<(Sent, Key)>): (r: seq<(Frame, Key)>)
    requires |fs| == |ms|
    ensures |r| == |ms| && forall i :: 0 <= i < |ms| ==> r[i] == (fs[i], ms[i].1)
  {
    seq(|ms|, i requires 0 <= i < |ms| => (fs[i], ms[i].1))
  }

  /** What one socket sends, the other reports: texts as texts and bytes as the same bytes, in order, however the
      bytes are masked and cut up, and however many of them come with the handshake. */
  lemma SocketsTalk(ms: seq<(Sent, Key)>, fromClient: bool, limit: int, maxPayload: int, head: seq<Byte>,
                    chunks: seq<seq<Byte>>)
    requires forall i :: 0 <= i < |ms| ==>
               (ms[i].0.SentText? || ms[i].0.SentBinary?) && Sendable(ms[i].0, maxPayload)
    requires var written := Steps(NewConn(fromClient, limit), Sending(ms)).written;
             |written| == |ms| && Flatten([head] + chunks) == EncodeFrames(Keyed(written, ms), fromClient)
    ensures Steps(NewConn(!fromClient, maxPayload), Receiving(head, chunks)).events == ArriveAll(ms)
  {
    SendingWrites(fromClient, limit, ms);
    assert Keyed(Steps(NewConn(fromClient, limit), Sending(ms)).written, ms) == FramesFor(ms);
    MessagesArrive(ms, fromClient, maxPayload, [head] + chunks);
    ReceivingIsFed(!fromClient, maxPayload, head, chunks);
  }
}
