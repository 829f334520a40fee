/** The WebSocket framing of tools/minimal_ws.js, following sections 5.2, 5.3 and 5.5 of RFC 6455:
    the encoder, the incremental decoder and its insensitivity to how the stream was cut up. */
module WsFrames {
  import opened Prelude
  import opened Text

  // ---- Masking --------------------------------------------------------------------------------

  function XorBits(a: nat, b: nat, bits: nat): nat
    decreases bits
  {
    if bits == 0 then 0 else (if a % 2 == b % 2 then 0 else 1) + 2 * XorBits(a / 2, b / 2, bits - 1)
  }

  function Pow2(bits: nat): nat {
    if bits == 0 then 1 else 2 * Pow2(bits - 1)
  }

  lemma LowBit(low: nat, high: nat)
    requires low < 2
    ensures (low + 2 * high) % 2 == low && (low + 2 * high) / 2 == high
  {
  }

  lemma {:induction false} XorUndone(a: nat, b: nat, bits: nat)
    requires a < Pow2(bits)
    ensures XorBits(a, b, bits) < Pow2(bits)
    ensures XorBits(XorBits(a, b, bits), b, bits) == a
    decreases bits
  {
    if bits > 0 {
      XorUndone(a / 2, b / 2, bits - 1);
      var low, high := if a % 2 == b % 2 then 0 else 1, XorBits(a / 2, b / 2, bits - 1);
      var x := XorBits(a, b, bits);
      assert x == low + 2 * high;
      LowBit(low, high);
      assert XorBits(x, b, bits) == (if low == b % 2 then 0 else 1) + 2 * (a / 2);
    }
  }

  function Xor(a: Byte, b: Byte): Byte {
    assert Pow2(8) == 256;
    XorUndone(a, b, 8);
    XorBits(a, b, 8)
  }

  type Key = k: seq<Byte> | |k| == 4 witness [0, 0, 0, 0]

  /** `payload[i] ^ key[i & 3]`; the same function masks and unmasks. */
  function Masked(payload: seq<Byte>, key: Key): (r: seq<Byte>)
    ensures |r| == |payload|
  {
    seq(|payload|, i requires 0 <= i < |payload| => Xor(payload[i], key[i % 4]))
  }

  lemma UnmaskMasked(payload: seq<Byte>, key: Key)
    ensures Masked(Masked(payload, key), key) == payload
  {
    forall i | 0 <= i < |payload| ensures Masked(Masked(payload, key), key)[i] == payload[i] {
      assert Pow2(8) == 256;
      XorUndone(payload[i], key[i % 4], 8);
    }
  }

  method MaskPayload(payload: seq<Byte>, key: Key) returns (r: seq<Byte>)
    ensures r == Masked(payload, key)
  {
    r := [];
    for i := 0 to |payload|
      invariant |r| == i && forall j :: 0 <= j < i ==> r[j] == Masked(payload, key)[j]
    {
      r := r + [Xor(payload[i], key[i % 4])];
    }
  }

  // ---- Big-endian numbers -----------------------------------------------------------------------

  const TWO_16 := 0x1_0000
  const MAX_SAFE_INTEGER := 0x1F_FFFF_FFFF_FFFF

  function U16(n: int): seq<Byte>
    requires 0 <= n < TWO_16
  {
    [n / 256, n % 256]
  }

  function U32(n: int): seq<Byte>
    requires 0 <= n < TWO_32
  {
    U16(n / TWO_16) + U16(n % TWO_16)
  }

  function ReadU16(b: seq<Byte>): (n: nat)
    requires |b| == 2
    ensures n < TWO_16
  {
    b[0] as int * 256 + b[1]
  }

  function ReadU32(b: seq<Byte>): (n: nat)
    requires |b| == 4
    ensures n < TWO_32
  {
    ReadU16(b[..2]) * TWO_16 + ReadU16(b[2..])
  }

  function ReadU64(b: seq<Byte>): nat
    requires |b| == 8
  {
    ReadU32(b[..4]) * TWO_32 + ReadU32(b[4..])
  }

  lemma ReadBack16(n: int)
    requires 0 <= n < TWO_16
    ensures ReadU16(U16(n)) == n
  {
  }

  lemma ReadBack32(n: int)
    requires 0 <= n < TWO_32
    ensures |U32(n)| == 4 && ReadU32(U32(n)) == n
  {
    assert U32(n)[..2] == U16(n / TWO_16) && U32(n)[2..] == U16(n % TWO_16);
    ReadBack16(n / TWO_16);
    ReadBack16(n % TWO_16);
  }

  // ---- Encoding ----------------------------------------------------------------------------------

  type Opcode = o: int | 0 <= o < 16

  datatype Frame = Frame(opcode: Opcode, payload: seq<Byte>)

  function LengthField(n: nat): (l: nat)
    ensures l < 128
  {
    if n < 126 then n else if n <= 0xFFFF then 126 else 127
  }

  /** The high word of the 64-bit form is always written as zero. */
  function ExtendedLength(n: nat): seq<Byte> {
    if n < 126 then [] else if n <= 0xFFFF then U16(n) else U32(0) + U32(n % TWO_32)
  }

  function EncodeFrame(f: Frame, mask: Option<Key>): seq<Byte> {
    var n := |f.payload|;
    match mask
    case None => [128 + f.opcode, LengthField(n)] + ExtendedLength(n) + f.payload
    case Some(key) => [128 + f.opcode, 128 + LengthField(n)] + ExtendedLength(n) + key + Masked(f.payload, key)
  }

  // ---- Decoding one frame ------------------------------------------------------------------------

  datatype Parsed = NeedMore | Bad(code: nat, why: string) | Got(frame: Frame, size: nat)

  function ParseBody(b: seq<Byte>, opcode: Opcode, masked: bool, offset: nat, len: nat, maxPayload: int): Parsed {
    if maxPayload > 0 && len > maxPayload then Bad(1009, "Message too large")
    else
      var start := if masked then offset + 4 else offset;
      if |b| < start || |b| < start + len then NeedMore
      else
        var raw := b[start..start + len];
        Got(Frame(opcode, if masked then Masked(raw, b[offset..offset + 4]) else raw), start + len)
  }

  /** One turn of the loop in `_drainFrames`, up to where the frame leaves the buffer. */
  function Parse(b: seq<Byte>, isClient: bool, maxPayload: int): Parsed {
    if |b| < 2 then NeedMore
    else
      var opcode, masked, len := b[0] % 16, b[1] >= 128, b[1] % 128;
      if b[0] < 128 then Bad(1002, "Fragmented frames not supported")
      else if masked == isClient then Bad(1002, "Invalid masking")
      else if len == 126 then
        if |b| < 4 then NeedMore else ParseBody(b, opcode, masked, 4, ReadU16(b[2..4]), maxPayload)
      else if len == 127 then
        if |b| < 10 then NeedMore
        else if ReadU64(b[2..10]) > MAX_SAFE_INTEGER then Bad(1009, "Message too large")
        else ParseBody(b, opcode, masked, 10, ReadU64(b[2..10]), maxPayload)
      else ParseBody(b, opcode, masked, 2, len, maxPayload)
  }

  lemma ParseBodyAppend(a: seq<Byte>, b: seq<Byte>, opcode: Opcode, masked: bool, offset: nat, len: nat,
                        maxPayload: int)
    requires !ParseBody(a, opcode, masked, offset, len, maxPayload).NeedMore?
    ensures ParseBody(a + b, opcode, masked, offset, len, maxPayload) ==
            ParseBody(a, opcode, masked, offset, len, maxPayload)
  {
    if !(maxPayload > 0 && len > maxPayload) {
      var start := if masked then offset + 4 else offset;
      assert (a + b)[start..start + len] == a[start..start + len];
      if masked { assert (a + b)[offset..offset + 4] == a[offset..offset + 4]; }
    }
  }

  /** More bytes never change a verdict already reached. */
  lemma ParseAppend(a: seq<Byte>, b: seq<Byte>, isClient: bool, maxPayload: int)
    requires !Parse(a, isClient, maxPayload).NeedMore?
    ensures Parse(a + b, isClient, maxPayload) == Parse(a, isClient, maxPayload)
  {
    var opcode, masked, len := a[0] % 16, a[1] >= 128, a[1] % 128;
    if a[0] >= 128 && masked != isClient {
      if len == 126 {
        assert (a + b)[2..4] == a[2..4];
        ParseBodyAppend(a, b, opcode, masked, 4, ReadU16(a[2..4]), maxPayload);
      } else if len == 127 {
        assert (a + b)[2..10] == a[2..10];
        if ReadU64(a[2..10]) <= MAX_SAFE_INTEGER {
          ParseBodyAppend(a, b, opcode, masked, 10, ReadU64(a[2..10]), maxPayload);
        }
      } else {
        ParseBodyAppend(a, b, opcode, masked, 2, len, maxPayload);
      }
    }
  }

  lemma ParseProgress(b: seq<Byte>, isClient: bool, maxPayload: int)
    ensures Parse(b, isClient, maxPayload).Got? ==> 2 <= Parse(b, isClient, maxPayload).size <= |b|
    ensures Parse(b, isClient, maxPayload).NeedMore? && maxPayload > 0 ==> |b| <= 13 + maxPayload
  {
  }

  // ---- What a frame causes ------------------------------------------------------------------------

  datatype Event =
    | Message(text: Str)
    | Binary(payload: seq<Byte>)
    | PongFor(payload: seq<Byte>)
    | PeerClose(code: nat, reason: seq<Byte>)
    | Failure(code: nat, why: string)

  function DecodeClose(payload: seq<Byte>): (r: (nat, seq<Byte>))
    ensures r.0 < TWO_16
  {
    if |payload| < 2 then (1005, []) else (ReadU16(payload[..2]), payload[2..])
  }

  /** The events of one frame; a failure also ends the drain. */
  function React(f: Frame): (r: seq<Event>)
    ensures |r| <= 1
  {
    match f.opcode
    case 1 => (match TextDecode(f.payload) case Some(s) => [Message(s)] case None => [Failure(1007, "Invalid UTF-8")])
    case 2 => [Binary(f.payload)]
    case 9 => [PongFor(f.payload)]
    case 10 => []
    case 8 => var (code, reason) := DecodeClose(f.payload); [PeerClose(code, reason)]
    case _ => [Failure(1002, "Unsupported opcode")]
  }

  predicate Fails(es: seq<Event>) {
    es != [] && es[|es| - 1].Failure?
  }

  datatype Drained = Drained(events: seq<Event>, rest: seq<Byte>)

  /** `_drainFrames`: the bytes of a bad header stay, those of a rejected frame are gone. */
  function Drain(b: seq<Byte>, isClient: bool, maxPayload: int): Drained
    decreases |b|
  {
    ParseProgress(b, isClient, maxPayload);
    match Parse(b, isClient, maxPayload)
    case NeedMore => Drained([], b)
    case Bad(code, why) => Drained([Failure(code, why)], b)
    case Got(f, size) =>
      var now := React(f);
      if Fails(now) then Drained(now, b[size..])
      else
        var later := Drain(b[size..], isClient, maxPayload);
        Drained(now + later.events, later.rest)
  }

  lemma FailsAppend(a: seq<Event>, b: seq<Event>)
    requires !Fails(a)
    ensures Fails(a + b) <==> Fails(b)
  {
    if b == [] { assert a + b == a; }
  }

  lemma AppendEvents(a: seq<Event>, b: seq<Event>, c: seq<Event>)
    ensures (a + b) + c == a + (b + c)
  {
  }

  /** Draining a longer buffer: nothing after a failure is looked at, and otherwise the rest is
      picked up where it was left. */
  lemma {:induction false} DrainAppend(a: seq<Byte>, b: seq<Byte>, isClient: bool, maxPayload: int)
    ensures var d, ab := Drain(a, isClient, maxPayload), Drain(a + b, isClient, maxPayload);
            if Fails(d.events) then ab.events == d.events
            else var more := Drain(d.rest + b, isClient, maxPayload);
                 ab == Drained(d.events + more.events, more.rest)
    decreases |a|
  {
    ParseProgress(a, isClient, maxPayload);
    var p := Parse(a, isClient, maxPayload);
    if p.NeedMore? {
      assert Drain(a, isClient, maxPayload) == Drained([], a);
    } else {
      ParseAppend(a, b, isClient, maxPayload);
      if p.Got? && !Fails(React(p.frame)) {
        var now, rest := React(p.frame), a[p.size..];
        assert (a + b)[p.size..] == rest + b;
        DrainAppend(rest, b, isClient, maxPayload);
        var later := Drain(rest, isClient, maxPayload);
        FailsAppend(now, later.events);
        AppendEvents(now, later.events, Drain(later.rest + b, isClient, maxPayload).events);
      }
    }
  }

  function UpToFailure(es: seq<Event>): seq<Event> {
    if es == [] then [] else if es[0].Failure? then [es[0]] else [es[0]] + UpToFailure(es[1..])
  }

  lemma {:induction false} UpToFailureAppend(a: seq<Event>, b: seq<Event>)
    ensures UpToFailure(a + b) == if Fails(UpToFailure(a)) then UpToFailure(a) else a + UpToFailure(b)
    ensures !Fails(UpToFailure(a)) ==> UpToFailure(a) == a
  {
    if a == [] {
      assert a + b == b;
    } else {
      assert (a + b)[1..] == a[1..] + b;
      UpToFailureAppend(a[1..], b);
      if !a[0].Failure? {
        FailsAppend([a[0]], UpToFailure(a[1..]));
        assert a == [a[0]] + a[1..];
        AppendEvents([a[0]], a[1..], UpToFailure(b));
      }
    }
  }

  lemma {:induction false} DrainStopsAtFailure(b: seq<Byte>, isClient: bool, maxPayload: int)
    ensures var es := Drain(b, isClient, maxPayload).events; UpToFailure(es) == es
    decreases |b|
  {
    ParseProgress(b, isClient, maxPayload);
    var p := Parse(b, isClient, maxPayload);
    if p.Got? && !Fails(React(p.frame)) {
      var now, left := React(p.frame), b[p.size..];
      DrainStopsAtFailure(left, isClient, maxPayload);
      var later := Drain(left, isClient, maxPayload).events;
      assert Drain(b, isClient, maxPayload).events == now + later;
      UpToFailureAppend(now, later);
    }
  }

  /** `_onData`; note that it keeps going after a failure. */
  function Fed(d: Drained, chunk: seq<Byte>, isClient: bool, maxPayload: int): Drained {
    if chunk == [] then d
    else
      var next := Drain(d.rest + chunk, isClient, maxPayload);
      Drained(d.events + next.events, next.rest)
  }

  function FedAll(chunks: seq<seq<Byte>>, isClient: bool, maxPayload: int): Drained {
    if chunks == [] then Drained([], [])
    else Fed(FedAll(chunks[..|chunks| - 1], isClient, maxPayload), chunks[|chunks| - 1], isClient, maxPayload)
  }

  lemma {:induction false} FlattenLast<T>(chunks: seq<seq<T>>)
    requires chunks != []
    ensures Flatten(chunks) == Flatten(chunks[..|chunks| - 1]) + chunks[|chunks| - 1]
  {
    if |chunks| > 1 {
      FlattenLast(chunks[1..]);
      assert chunks[1..][..|chunks| - 2] == chunks[..|chunks| - 1][1..];
      assert chunks[..|chunks| - 1][0] == chunks[0];
    } else {
      assert chunks[..0] == [] && Flatten(chunks[1..]) == [];
    }
  }

  /** However the stream is cut into chunks, the messages, pongs and closes up to and including the
      first failure are those of decoding the whole stream at once; and until then so is the buffer. */
  lemma {:induction false} ChunkInvariance(chunks: seq<seq<Byte>>, isClient: bool, maxPayload: int)
    ensures var fed, whole := FedAll(chunks, isClient, maxPayload), Drain(Flatten(chunks), isClient, maxPayload);
            && UpToFailure(fed.events) == whole.events
            && (!Fails(whole.events) ==> fed == whole)
  {
    if chunks != [] {
      var pre, chunk := chunks[..|chunks| - 1], chunks[|chunks| - 1];
      ChunkInvariance(pre, isClient, maxPayload);
      FlattenLast(chunks);
      var fed, whole := FedAll(pre, isClient, maxPayload), Drain(Flatten(pre), isClient, maxPayload);
      var next := Drain(fed.rest + chunk, isClient, maxPayload);
      DrainAppend(Flatten(pre), chunk, isClient, maxPayload);
      UpToFailureAppend(fed.events, next.events);
      DrainStopsAtFailure(fed.rest + chunk, isClient, maxPayload);
      if chunk == [] {
        assert Flatten(pre) + chunk == Flatten(pre);
      }
      if !Fails(whole.events) {
        assert fed == whole;
      }
    }
  }

  lemma {:induction false} DrainBounded(b: seq<Byte>, isClient: bool, maxPayload: int)
    requires maxPayload > 0 && !Fails(Drain(b, isClient, maxPayload).events)
    ensures |Drain(b, isClient, maxPayload).rest| <= 13 + maxPayload
    decreases |b|
  {
    ParseProgress(b, isClient, maxPayload);
    var p := Parse(b, isClient, maxPayload);
    if p.Got? {
      DrainBounded(b[p.size..], isClient, maxPayload);
    }
  }

  /** Before a failure, at most one incomplete frame is ever buffered. */
  lemma BufferBounded(chunks: seq<seq<Byte>>, isClient: bool, maxPayload: int)
    requires maxPayload > 0 && !Fails(UpToFailure(FedAll(chunks, isClient, maxPayload).events))
    ensures |FedAll(chunks, isClient, maxPayload).rest| <= 13 + maxPayload
  {
    ChunkInvariance(chunks, isClient, maxPayload);
    DrainBounded(Flatten(chunks), isClient, maxPayload);
  }

  // ---- Round trip ---------------------------------------------------------------------------------

  /** A frame the other peer's limits admit. */
  predicate Admitted(f: Frame, maxPayload: int) {
    |f.payload| < TWO_32 && (maxPayload <= 0 || |f.payload| <= maxPayload)
  }

  lemma ReadBackLength(n: nat, b: seq<Byte>)
    requires 0xFFFF < n < TWO_32 && |b| >= 10 && b[2..10] == ExtendedLength(n)
    ensures ReadU64(b[2..10]) == n
  {
    ReadBack32(0);
    ReadBack32(n % TWO_32);
    assert ExtendedLength(n)[..4] == U32(0) && ExtendedLength(n)[4..] == U32(n);
  }

  lemma BodyEncoded(b: seq<Byte>, f: Frame, mask: Option<Key>, offset: nat, maxPayload: int)
    requires Admitted(f, maxPayload)
    requires var body := if mask.Some? then mask.value + Masked(f.payload, mask.value) else f.payload;
             |b| >= offset + |body| && b[offset..offset + |body|] == body
    ensures ParseBody(b, f.opcode, mask.Some?, offset, |f.payload|, maxPayload)
            == Got(f, offset + |f.payload| + if mask.Some? then 4 else 0)
  {
    if mask.Some? {
      var body := mask.value + Masked(f.payload, mask.value);
      assert b[offset..offset + 4] == body[..4] == mask.value;
      assert b[offset + 4..offset + 4 + |f.payload|] == body[4..] == Masked(f.payload, mask.value);
      UnmaskMasked(f.payload, mask.value);
    }
  }

  /** The encoded frame is a two-byte head, the extended length and the body. */
  lemma EncodedLayout(f: Frame, mask: Option<Key>, more: seq<Byte>)
    requires |f.payload| < TWO_32
    ensures var n, b := |f.payload|, EncodeFrame(f, mask) + more;
            var body := if mask.Some? then mask.value + Masked(f.payload, mask.value) else f.payload;
            var offset := 2 + |ExtendedLength(n)|;
            && |EncodeFrame(f, mask)| == offset + |body| <= |b|
            && b[0] == 128 + f.opcode && b[1] == LengthField(n) + (if mask.Some? then 128 else 0)
            && b[2..offset] == ExtendedLength(n)
            && b[offset..offset + |body|] == body
  {
    var n := |f.payload|;
    var body := if mask.Some? then mask.value + Masked(f.payload, mask.value) else f.payload;
    var head := [128 + f.opcode, LengthField(n) + (if mask.Some? then 128 else 0)];
    assert EncodeFrame(f, mask) + more == head + ExtendedLength(n) + body + more;
  }

  /** The first two bytes, taken apart again. */
  lemma HeadBytes(opcode: Opcode, l: nat, masked: bool)
    requires l < 128
    ensures (128 + opcode) % 16 == opcode
    ensures var b := l + (if masked then 128 else 0); b % 128 == l && (b >= 128 <==> masked)
  {
  }

  lemma HeadEncoded(b: seq<Byte>, opcode: Opcode, masked: bool, n: nat, maxPayload: int)
    requires n < TWO_32 && |b| >= 2 + |ExtendedLength(n)|
    requires b[0] == 128 + opcode && b[1] == LengthField(n) + (if masked then 128 else 0)
    requires b[2..2 + |ExtendedLength(n)|] == ExtendedLength(n)
    ensures Parse(b, !masked, maxPayload) == ParseBody(b, opcode, masked, 2 + |ExtendedLength(n)|, n, maxPayload)
  {
    HeadBytes(opcode, LengthField(n), masked);
    if n > 0xFFFF {
      assert |ExtendedLength(n)| == 8 by {
        ReadBack32(0);
        ReadBack32(n);
      }
      ReadBackLength(n, b);
    } else if n >= 126 {
      assert ReadU16(b[2..4]) == n by { ReadBack16(n); }
    }
  }

  /** What one peer encodes the other parses, masked from the client and unmasked from the server,
      in each of the three length forms, whatever follows. */
  lemma ParseEncoded(f: Frame, mask: Option<Key>, more: seq<Byte>, maxPayload: int)
    requires Admitted(f, maxPayload)
    ensures Parse(EncodeFrame(f, mask) + more, mask.None?, maxPayload) == Got(f, |EncodeFrame(f, mask)|)
  {
    var n, b := |f.payload|, EncodeFrame(f, mask) + more;
    EncodedLayout(f, mask, more);
    HeadEncoded(b, f.opcode, mask.Some?, n, maxPayload);
    BodyEncoded(b, f, mask, 2 + |ExtendedLength(n)|, maxPayload);
  }

  /** A frame the receiver accepts without failing. */
  predicate Acceptable(f: Frame, maxPayload: int) {
    && Admitted(f, maxPayload)
    && f.opcode in {1, 2, 8, 9, 10}
    && (f.opcode == 1 ==> Decode(f.payload).Some?)
  }

  function EncodeFrames(fs: seq<(Frame, Key)>, fromClient: bool): seq<Byte> {
    if fs == [] then [] else
      EncodeFrame(fs[0].0, if fromClient then Some(fs[0].1) else None) + EncodeFrames(fs[1..], fromClient)
  }

  function ReactAll(fs: seq<(Frame, Key)>): seq<Event> {
    if fs == [] then [] else React(fs[0].0) + ReactAll(fs[1..])
  }

  /** The frames at the head of `b`, and the bytes behind them. */
  function ParsedFrames(b: seq<Byte>, isClient: bool, maxPayload: int): (seq<Frame>, seq<Byte>)
    decreases |b|
  {
    ParseProgress(b, isClient, maxPayload);
    match Parse(b, isClient, maxPayload)
    case Got(f, size) =>
      var (more, rest) := ParsedFrames(b[size..], isClient, maxPayload);
      ([f] + more, rest)
    case _ => ([], b)
  }

  function FramesOf(fs: seq<(Frame, Key)>): seq<Frame> {
    if fs == [] then [] else [fs[0].0] + FramesOf(fs[1..])
  }

  /** Any list of admitted frames, whatever their opcodes, parses at the other peer to the same opcodes and
      payloads, in order, with no bytes left over. */
  lemma {:induction false} FramesRoundTrip(fs: seq<(Frame, Key)>, fromClient: bool, maxPayload: int)
    requires forall i :: 0 <= i < |fs| ==> Admitted(fs[i].0, maxPayload)
    ensures ParsedFrames(EncodeFrames(fs, fromClient), !fromClient, maxPayload) == (FramesOf(fs), [])
  {
    if fs != [] {
      var (f, key) := fs[0];
      var mask := if fromClient then Some(key) else None;
      var first, more := EncodeFrame(f, mask), EncodeFrames(fs[1..], fromClient);
      ParseEncoded(f, mask, more, maxPayload);
      assert (first + more)[|first|..] == more;
      FramesRoundTrip(fs[1..], fromClient, maxPayload);
    }
  }

  /** Any list of acceptable frames has at the other peer the effects of those frames, in order, with no
      bytes left over. */
  lemma {:induction false} RoundTrip(fs: seq<(Frame, Key)>, fromClient: bool, maxPayload: int)
    requires forall i :: 0 <= i < |fs| ==> Acceptable(fs[i].0, maxPayload)
    ensures Drain(EncodeFrames(fs, fromClient), !fromClient, maxPayload) == Drained(ReactAll(fs), [])
  {
    if fs != [] {
      var (f, key) := fs[0];
      var mask := if fromClient then Some(key) else None;
      var first, more := EncodeFrame(f, mask), EncodeFrames(fs[1..], fromClient);
      ParseEncoded(f, mask, more, maxPayload);
      assert (first + more)[|first|..] == more;
      assert !Fails(React(f));
      RoundTrip(fs[1..], fromClient, maxPayload);
    }
  }

  /** ... and however the network cuts them up. */
  lemma RoundTripInChunks(fs: seq<(Frame, Key)>, fromClient: bool, maxPayload: int, chunks: seq<seq<Byte>>)
    requires forall i :: 0 <= i < |fs| ==> Acceptable(fs[i].0, maxPayload)
    requires Flatten(chunks) == EncodeFrames(fs, fromClient)
    ensures FedAll(chunks, !fromClient, maxPayload) == Drained(ReactAll(fs), [])
  {
    RoundTrip(fs, fromClient, maxPayload);
    ChunkInvariance(chunks, !fromClient, maxPayload);
    NoFailures(fs, maxPayload);
  }

  lemma {:induction false} NoFailures(fs: seq<(Frame, Key)>, maxPayload: int)
    requires forall i :: 0 <= i < |fs| ==> Acceptable(fs[i].0, maxPayload)
    ensures !Fails(ReactAll(fs))
  {
    if fs != [] {
      NoFailures(fs[1..], maxPayload);
      FailsAppend(React(fs[0].0), ReactAll(fs[1..]));
    }
  }

  /** `send(string)` arrives as the same string exactly when it has no lone surrogate and does not
      start with a byte order mark, which the receiver's decoder swallows. */
  lemma TextArrivesIntact(s: Str)
    ensures React(Frame(1, EncodeAll(s))) == [Message(StripBom(Scalars(s)))]
    ensures React(Frame(1, EncodeAll(s))) == [Message(s)] <==> WellFormed(s) && (s == [] || s[0] != BOM)
  {
    DecodeEncode(s);
    ScalarsOfWellFormed(s);
    if s != [] && s[0] == BOM { assert Scalars(s)[0] == BOM; }
  }

  lemma FedOnce(a: seq<Byte>, isClient: bool, maxPayload: int)
    requires a != []
    ensures FedAll([a], isClient, maxPayload) == Drain(a, isClient, maxPayload)
  {
    var none: seq<seq<Byte>> := [];
    var d := Drain(a, isClient, maxPayload);
    assert [a][..0] == none && FedAll(none, isClient, maxPayload) == Drained([], []);
    assert [] + a == a && [] + d.events == d.events;
    assert FedAll([a], isClient, maxPayload) == Fed(Drained([], []), a, isClient, maxPayload);
  }

  lemma FedTwice(a: seq<Byte>, b: seq<Byte>, isClient: bool, maxPayload: int)
    ensures FedAll([a, b], isClient, maxPayload) == Fed(FedAll([a], isClient, maxPayload), b, isClient, maxPayload)
  {
    assert [a, b][..1] == [a];
  }

  lemma DrainOne(f: Frame, mask: Option<Key>, more: seq<Byte>, maxPayload: int)
    requires Admitted(f, maxPayload)
    ensures var later := Drain(more, mask.None?, maxPayload);
            Drain(EncodeFrame(f, mask) + more, mask.None?, maxPayload) ==
            if Fails(React(f)) then Drained(React(f), more) else Drained(React(f) + later.events, later.rest)
  {
    ParseEncoded(f, mask, more, maxPayload);
    assert (EncodeFrame(f, mask) + more)[|EncodeFrame(f, mask)|..] == more;
  }

  lemma DrainAlone(f: Frame, mask: Option<Key>, maxPayload: int)
    requires Admitted(f, maxPayload)
    ensures EncodeFrame(f, mask) != []
    ensures Drain(EncodeFrame(f, mask), mask.None?, maxPayload) == Drained(React(f), [])
  {
    EncodedLayout(f, mask, []);
    DrainOne(f, mask, [], maxPayload);
    assert EncodeFrame(f, mask) + [] == EncodeFrame(f, mask) && React(f) + [] == React(f);
  }

  lemma OnlyPongIsQuiet(f: Frame)
    ensures React(f) == [] <==> f.opcode == 10
  {
  }

  /** The same bytes in one chunk and in two, if draining the first part fails. */
  lemma JoinedAndApart(a: seq<Byte>, b: seq<Byte>, f: seq<Event>, g: seq<Event>, isClient: bool, maxPayload: int)
    requires a != [] && b != [] && Drain(a + b, isClient, maxPayload) == Drained(f, b)
    requires Drain(a, isClient, maxPayload) == Drained(f, []) && Drain(b, isClient, maxPayload) == Drained(g, [])
    ensures FedAll([a + b], isClient, maxPayload).events == f
    ensures FedAll([a, b], isClient, maxPayload).events == f + g
  {
    FedOnce(a + b, isClient, maxPayload);
    FedOnce(a, isClient, maxPayload);
    FedTwice(a, b, isClient, maxPayload);
    assert [] + b == b;
  }

  /** After a failure the chunking does matter: drained at once, the stream ends at a rejected frame
      `f`; if the next frame `g` comes in a chunk of its own, it is still read. The two differ exactly when
      `g` has an effect, which only a Pong has not. */
  lemma ChunkingMattersAfterFailure(f: Frame, g: Frame, mask: Option<Key>, maxPayload: int)
    requires Admitted(f, maxPayload) && Admitted(g, maxPayload) && Fails(React(f))
    ensures var a, b := EncodeFrame(f, mask), EncodeFrame(g, mask);
            var joined, apart := FedAll([a + b], mask.None?, maxPayload), FedAll([a, b], mask.None?, maxPayload);
            && joined.events == React(f) && apart.events == React(f) + React(g)
            && (joined.events == apart.events <==> g.opcode == 10)
  {
    var a, b := EncodeFrame(f, mask), EncodeFrame(g, mask);
    var first, second := React(f), React(g);
    DrainAlone(f, mask, maxPayload);
    DrainAlone(g, mask, maxPayload);
    DrainOne(f, mask, b, maxPayload);
    JoinedAndApart(a, b, first, second, mask.None?, maxPayload);
    OnlyPongIsQuiet(g);
    assert |first + second| == |first| + |second|;
    if second == [] { assert first + second == first; }
  }
}
