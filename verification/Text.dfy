/** One-line sanitising and UTF-8 truncation of src/text.js.

    A JavaScript string is the sequence of code points its iterator yields; a lone surrogate is
    one of them and is encoded as U+FFFD. UTF-8 follows sections 3 and 4 of RFC 3629. */
module Text {
  import opened Prelude

  type CodePoint = c: int | 0 <= c <= 0x10FFFF

  type Str = seq<CodePoint>

  const SPACE: CodePoint := 0x20
  const BOM: CodePoint := 0xFEFF
  const REPLACEMENT: CodePoint := 0xFFFD

  predicate Surrogate(c: CodePoint) {
    0xD800 <= c <= 0xDFFF
  }

  /** No lone surrogates. */
  predicate WellFormed(s: Str) {
    forall i :: 0 <= i < |s| ==> !Surrogate(s[i])
  }

  // ---- UTF-8 --------------------------------------------------------------------------------

  function Scalar(c: CodePoint): CodePoint {
    if Surrogate(c) then REPLACEMENT else c
  }

  function Width(c: CodePoint): (n: nat)
    ensures 1 <= n <= 4
  {
    if c <= 0x7F then 1 else if c <= 0x7FF then 2 else if c <= 0xFFFF then 3 else 4
  }

  function Encode(c: CodePoint): (b: seq<Byte>)
    ensures |b| == Width(c)
  {
    var v := Scalar(c);
    if v <= 0x7F then [v]
    else if v <= 0x7FF then [0xC0 + v / 64, 0x80 + v % 64]
    else if v <= 0xFFFF then [0xE0 + v / 64 / 64, 0x80 + v / 64 % 64, 0x80 + v % 64]
    else [0xF0 + v / 64 / 64 / 64, 0x80 + v / 64 / 64 % 64, 0x80 + v / 64 % 64, 0x80 + v % 64]
  }

  function EncodeAll(s: Str): seq<Byte> {
    if s == [] then [] else Encode(s[0]) + EncodeAll(s[1..])
  }

  function Scalars(s: Str): (r: Str)
    ensures |r| == |s| && forall i :: 0 <= i < |s| ==> r[i] == Scalar(s[i])
  {
    seq(|s|, i requires 0 <= i < |s| => Scalar(s[i]))
  }

  predicate Tail(b: Byte) {
    0x80 <= b <= 0xBF
  }

  /** UTF8-char of section 4 of RFC 3629. */
  predicate Utf8Char(b: seq<Byte>) {
    match |b|
    case 1 => b[0] <= 0x7F
    case 2 => 0xC2 <= b[0] <= 0xDF && Tail(b[1])
    case 3 =>
      && 0xE0 <= b[0] <= 0xEF && Tail(b[1]) && Tail(b[2])
      && (b[0] == 0xE0 ==> b[1] >= 0xA0)
      && (b[0] == 0xED ==> b[1] <= 0x9F)
    case 4 =>
      && 0xF0 <= b[0] <= 0xF4 && Tail(b[1]) && Tail(b[2]) && Tail(b[3])
      && (b[0] == 0xF0 ==> b[1] >= 0x90)
      && (b[0] == 0xF4 ==> b[1] <= 0x8F)
    case _ => false
  }

  function CharLength(lead: Byte): nat {
    if lead <= 0x7F then 1 else if lead <= 0xDF then 2 else if lead <= 0xEF then 3 else 4
  }

  /** Six more bits. */
  function Digit(high: int, tail: Byte): int {
    64 * high + (tail - 0x80)
  }

  function Value(b: seq<Byte>): (c: CodePoint)
    requires Utf8Char(b)
    ensures !Surrogate(c)
  {
    if |b| == 1 then b[0]
    else if |b| == 2 then Digit(b[0] - 0xC0, b[1])
    else if |b| == 3 then Digit(Digit(b[0] - 0xE0, b[1]), b[2])
    else Digit(Digit(Digit(b[0] - 0xF0, b[1]), b[2]), b[3])
  }

  /** Strict decoding: None for anything but a sequence of UTF8-char. */
  function Decode(b: seq<Byte>): Option<Str> {
    if b == [] then Some([]) else
      var n := CharLength(b[0]);
      if n > |b| || !Utf8Char(b[..n]) then None
      else match Decode(b[n..])
        case None => None
        case Some(s) => Some([Value(b[..n])] + s)
  }

  function StripBom(s: Str): Str {
    if s != [] && s[0] == BOM then s[1..] else s
  }

  /** `TextDecoder.decode`: a leading byte order mark is dropped. */
  function TextDecode(b: seq<Byte>): Option<Str> {
    match Decode(b)
    case None => None
    case Some(s) => Some(StripBom(s))
  }

  lemma EncodeDecodes(c: CodePoint)
    ensures Utf8Char(Encode(c)) && Value(Encode(c)) == Scalar(c)
    ensures CharLength(Encode(c)[0]) == |Encode(c)|
  {
  }

  lemma DigitUndone(high: int, tail: Byte)
    requires Tail(tail)
    ensures Digit(high, tail) / 64 == high && Digit(high, tail) % 64 == tail - 0x80
  {
  }

  lemma ValueEncodes(b: seq<Byte>)
    requires Utf8Char(b)
    ensures Encode(Value(b)) == b
  {
    if |b| == 2 {
      DigitUndone(b[0] - 0xC0, b[1]);
    } else if |b| == 3 {
      DigitUndone(b[0] - 0xE0, b[1]);
      DigitUndone(Digit(b[0] - 0xE0, b[1]), b[2]);
    } else if |b| == 4 {
      DigitUndone(b[0] - 0xF0, b[1]);
      DigitUndone(Digit(b[0] - 0xF0, b[1]), b[2]);
      DigitUndone(Digit(Digit(b[0] - 0xF0, b[1]), b[2]), b[3]);
    }
  }

  lemma {:induction false} DecodeEncode(s: Str)
    ensures Decode(EncodeAll(s)) == Some(Scalars(s))
  {
    if s != [] {
      var head, rest := Encode(s[0]), EncodeAll(s[1..]);
      EncodeDecodes(s[0]);
      assert (head + rest)[..|head|] == head && (head + rest)[|head|..] == rest;
      DecodeEncode(s[1..]);
      assert Scalars(s) == [Scalar(s[0])] + Scalars(s[1..]);
    }
  }

  lemma EncodeCons(octets: seq<Byte>, rest: Str)
    requires Utf8Char(octets)
    ensures EncodeAll([Value(octets)] + rest) == octets + EncodeAll(rest)
    ensures WellFormed(rest) ==> WellFormed([Value(octets)] + rest)
  {
    ValueEncodes(octets);
    assert ([Value(octets)] + rest)[1..] == rest;
  }

  lemma {:induction false} EncodeDecode(b: seq<Byte>)
    requires Decode(b).Some?
    ensures EncodeAll(Decode(b).value) == b && WellFormed(Decode(b).value)
  {
    if b != [] {
      var n := CharLength(b[0]);
      var rest := Decode(b[n..]).value;
      EncodeDecode(b[n..]);
      EncodeCons(b[..n], rest);
      assert b == b[..n] + b[n..];
    }
  }

  lemma {:induction false} EncodeAllAppend(a: Str, b: Str)
    ensures EncodeAll(a + b) == EncodeAll(a) + EncodeAll(b)
  {
    if a == [] {
      assert a + b == b;
    } else {
      assert (a + b)[1..] == a[1..] + b;
      EncodeAllAppend(a[1..], b);
    }
  }

  lemma {:induction false} EncodeScalars(s: Str)
    ensures EncodeAll(Scalars(s)) == EncodeAll(s)
  {
    if s != [] {
      assert Scalars(s)[1..] == Scalars(s[1..]);
      EncodeScalars(s[1..]);
    }
  }

  lemma ScalarsOfWellFormed(s: Str)
    ensures WellFormed(s) <==> Scalars(s) == s
  {
    if !WellFormed(s) {
      var i :| 0 <= i < |s| && Surrogate(s[i]);
      assert Scalars(s)[i] != s[i];
    }
  }

  // ---- Sanitising -----------------------------------------------------------------------------

  /** Control characters, line separators and `\s`. */
  predicate IsSpace(c: CodePoint) {
    || c <= 0x20 || c == 0x7F || c == 0x85 || c == 0xA0 || c == 0x1680 || 0x2000 <= c <= 0x200A
    || c == 0x2028 || c == 0x2029 || c == 0x202F || c == 0x205F || c == 0x3000 || c == 0xFEFF
  }

  /** The loop of `sanitizeOneLine` from a given state. */
  function SanitizedFrom(s: Str, hasOutput: bool, pendingSpace: bool): Str {
    if s == [] then []
    else if IsSpace(s[0]) then SanitizedFrom(s[1..], hasOutput, hasOutput)
    else (if pendingSpace then [SPACE] else []) + [s[0]] + SanitizedFrom(s[1..], true, false)
  }

  function Sanitized(s: Str): Str {
    SanitizedFrom(s, false, false)
  }

  lemma AppendAssociates(a: Str, b: Str, c: Str)
    ensures (a + b) + c == a + (b + c)
  {
  }

  lemma SanitizedStep(s: Str, i: nat, started: bool, pendingSpace: bool)
    requires i < |s|
    ensures SanitizedFrom(s[i..], started, pendingSpace) ==
            if IsSpace(s[i]) then SanitizedFrom(s[i + 1..], started, started)
            else (if pendingSpace then [SPACE] else []) + [s[i]] + SanitizedFrom(s[i + 1..], true, false)
  {
    assert s[i..][1..] == s[i + 1..];
  }

  lemma SanitizedTurn(s: Str, i: nat, r: Str, hasOutput: bool, pendingSpace: bool)
    requires i < |s|
    ensures r + SanitizedFrom(s[i..], hasOutput, pendingSpace) ==
            if IsSpace(s[i]) then r + SanitizedFrom(s[i + 1..], hasOutput, hasOutput)
            else (if pendingSpace then r + [SPACE] else r) + [s[i]] + SanitizedFrom(s[i + 1..], true, false)
  {
    SanitizedStep(s, i, hasOutput, pendingSpace);
    var rest := SanitizedFrom(s[i + 1..], true, false);
    AppendAssociates(r, [s[i]], rest);
    AppendAssociates(r, [SPACE] + [s[i]], rest);
    AppendAssociates(r, [SPACE], [s[i]]);
  }

  method SanitizeOneLine(s: Str) returns (r: Str)
    ensures r == Sanitized(s)
  {
    r := [];
    var hasOutput, pendingSpace := false, false;
    assert s[0..] == s;
    for i := 0 to |s|
      invariant Sanitized(s) == r + SanitizedFrom(s[i..], hasOutput, pendingSpace)
    {
      SanitizedTurn(s, i, r, hasOutput, pendingSpace);
      if IsSpace(s[i]) {
        pendingSpace := hasOutput;
      } else {
        if pendingSpace {
          r := r + [SPACE];
          pendingSpace := false;
        }
        r := r + [s[i]];
        hasOutput := true;
      }
    }
    assert s[|s|..] == [];
  }

  function WordLength(s: Str): (n: nat)
    ensures n <= |s|
    ensures forall i :: 0 <= i < n ==> !IsSpace(s[i])
    ensures n < |s| ==> IsSpace(s[n])
  {
    if s == [] || IsSpace(s[0]) then 0 else 1 + WordLength(s[1..])
  }

  /** The maximal runs of visible characters. */
  function Words(s: Str): seq<Str>
    decreases |s|
  {
    if s == [] then []
    else if IsSpace(s[0]) then Words(s[1..])
    else [s[..WordLength(s)]] + Words(s[WordLength(s)..])
  }

  function Join(ws: seq<Str>): Str {
    if ws == [] then [] else if |ws| == 1 then ws[0] else ws[0] + [SPACE] + Join(ws[1..])
  }

  lemma {:induction false} SanitizedRun(s: Str, pendingSpace: bool)
    requires s != [] && !IsSpace(s[0])
    ensures var n := WordLength(s);
            SanitizedFrom(s, true, pendingSpace)
            == (if pendingSpace then [SPACE] else []) + s[..n] + SanitizedFrom(s[n..], true, false)
  {
    var n := WordLength(s);
    assert s[..n] == [s[0]] + s[1..][..n - 1] && s[n..] == s[1..][n - 1..];
    if n > 1 { SanitizedRun(s[1..], false); } else { assert s[1..][..0] == []; }
  }

  lemma {:induction false} SanitizedWords(s: Str, pendingSpace: bool)
    requires s != [] && !IsSpace(s[0]) ==> pendingSpace
    ensures SanitizedFrom(s, true, pendingSpace) == if Words(s) == [] then [] else [SPACE] + Join(Words(s))
    decreases |s|
  {
    if s == [] {
    } else if IsSpace(s[0]) {
      SanitizedWords(s[1..], true);
    } else {
      var n := WordLength(s);
      var word, left := s[..n], s[n..];
      var rest, more := SanitizedFrom(left, true, false), Words(left);
      assert SanitizedFrom(s, true, true) == [SPACE] + word + rest by { SanitizedRun(s, true); }
      SanitizedWords(left, false);
      assert Words(s) == [word] + more;
      JoinMore(word, more);
      AppendAssociates([SPACE], word, rest);
    }
  }

  lemma JoinMore(w: Str, ws: seq<Str>)
    ensures Join([w] + ws) == w + if ws == [] then [] else [SPACE] + Join(ws)
  {
    assert ([w] + ws)[1..] == ws;
  }

  /** Sanitising is splitting into words and joining them with single spaces. */
  lemma {:induction false} SanitizedIsJoinedWords(s: Str)
    ensures Sanitized(s) == Join(Words(s))
  {
    if s == [] {
    } else if IsSpace(s[0]) {
      SanitizedIsJoinedWords(s[1..]);
    } else {
      var n := WordLength(s);
      assert SanitizedFrom(s, false, false) == SanitizedFrom(s, true, false);
      SanitizedRun(s, false);
      SanitizedWords(s[n..], false);
      JoinMore(s[..n], Words(s[n..]));
    }
  }

  /** The characters that end a word, by number: the control characters up to U+001F, the space, U+007F,
      U+0085, and the other white space and line separators of Unicode. */
  predicate Separates(c: CodePoint) {
    || 0 <= c < 33 || c == 127 || c == 133 || c == 160 || c == 5760 || 8192 <= c <= 8202
    || c == 8232 || c == 8233 || c == 8239 || c == 8287 || c == 12288 || c == 65279
  }

  function Visibles(s: Str): Str {
    if s == [] then [] else (if Separates(s[0]) then [] else [s[0]]) + Visibles(s[1..])
  }

  /** No separator but single spaces. */
  predicate Spaced(t: Str) {
    forall i :: 0 <= i < |t| ==> SpacedAt(t, i)
  }

  predicate SpacedAt(t: Str, i: nat)
    requires i < |t|
  {
    if t[i] == 0x20 then i > 0 ==> t[i - 1] != 0x20 else !Separates(t[i])
  }

  /** And none of them in front. */
  predicate OneLine(t: Str) {
    Spaced(t) && (t != [] ==> t[0] != 0x20)
  }

  lemma {:induction false} VisiblesAppend(a: Str, b: Str)
    ensures Visibles(a + b) == Visibles(a) + Visibles(b)
  {
    if a == [] {
      assert a + b == b;
    } else {
      assert (a + b)[1..] == a[1..] + b;
      VisiblesAppend(a[1..], b);
    }
  }

  lemma VisiblesOne(c: CodePoint)
    ensures Visibles([c]) == if Separates(c) then [] else [c]
  {
    assert [c][1..] == [];
  }

  lemma SpacedCons(c: CodePoint, rest: Str)
    requires Spaced(rest) && (if c == 0x20 then rest != [] && rest[0] != 0x20 else !Separates(c))
    ensures Spaced([c] + rest)
  {
    var t := [c] + rest;
    forall i | 0 <= i < |t| ensures SpacedAt(t, i) {
      if i > 0 {
        assert SpacedAt(rest, i - 1) && t[i] == rest[i - 1];
        if i > 1 { assert t[i - 1] == rest[i - 2]; }
      }
    }
  }

  /** What one more visible character in front does to text that is in order. */
  lemma OneMoreVisible(c: CodePoint, rest: Str, space: bool)
    requires !Separates(c) && Spaced(rest) && (rest != [] ==> rest[|rest| - 1] != 0x20)
    ensures var t := (if space then [SPACE] else []) + [c] + rest;
            && Visibles(t) == [c] + Visibles(rest) && Spaced(t)
            && t != [] && t[|t| - 1] != 0x20 && (t[0] == 0x20 ==> space)
  {
    var line := [c] + rest;
    SpacedCons(c, rest);
    VisiblesAppend([c], rest);
    VisiblesOne(c);
    if space {
      assert [SPACE] + [c] + rest == [SPACE] + line;
      SpacedCons(SPACE, line);
      VisiblesAppend([SPACE], line);
      VisiblesOne(SPACE);
      assert [] + Visibles(line) == Visibles(line);
    } else {
      assert [] + [c] + rest == line;
    }
  }

  lemma {:induction false} SanitizedKeeps(s: Str, started: bool, pendingSpace: bool)
    requires pendingSpace ==> started
    ensures var t := SanitizedFrom(s, started, pendingSpace);
            && Visibles(t) == Visibles(s) && Spaced(t)
            && (t != [] ==> t[|t| - 1] != 0x20 && (t[0] == 0x20 ==> started))
  {
    if s != [] {
      if IsSpace(s[0]) {
        SanitizedKeeps(s[1..], started, started);
      } else {
        SanitizedKeeps(s[1..], true, false);
        OneMoreVisible(s[0], SanitizedFrom(s[1..], true, false), pendingSpace);
      }
    }
  }

  /** For every text the sanitised one holds the same visible characters in the same order, and no other
      character but single spaces between them. */
  lemma SanitizedIsOneLine(s: Str)
    ensures Visibles(Sanitized(s)) == Visibles(s) && OneLine(Sanitized(s))
    ensures var t := Sanitized(s); t != [] ==> t[|t| - 1] != 0x20
  {
    SanitizedKeeps(s, false, false);
  }

  // ---- Truncation -----------------------------------------------------------------------------

  /** The longest prefix whose encoding fits in `room` bytes. */
  function Fitting(s: Str, room: int): (r: Str)
    ensures |r| <= |s|
  {
    if s == [] || Width(s[0]) > room then [] else [s[0]] + Fitting(s[1..], room - Width(s[0]))
  }

  lemma {:induction false} FittingFits(s: Str, room: int)
    ensures Fitting(s, room) == s[..|Fitting(s, room)|]
    ensures room >= 0 ==> |EncodeAll(Fitting(s, room))| <= room
  {
    if s != [] && Width(s[0]) <= room {
      var rest := Fitting(s[1..], room - Width(s[0]));
      FittingFits(s[1..], room - Width(s[0]));
      assert Fitting(s, room) == [s[0]] + rest && ([s[0]] + rest)[1..] == rest;
      assert s[..1 + |rest|] == [s[0]] + s[1..][..|rest|];
      assert |EncodeAll([s[0]] + rest)| == Width(s[0]) + |EncodeAll(rest)|;
    }
  }

  lemma EncodeFirst(s: Str, n: nat)
    requires s != [] && 0 < n
    ensures n <= |s| ==> |EncodeAll(s[..n])| == Width(s[0]) + |EncodeAll(s[1..][..n - 1])|
  {
    if n <= |s| { assert s[..n][1..] == s[1..][..n - 1]; }
  }

  lemma {:induction false} FittingIsLongest(s: Str, room: int)
    ensures |Fitting(s, room)| < |s| ==> |EncodeAll(s[..|Fitting(s, room)| + 1])| > room
  {
    if s != [] {
      var n := |Fitting(s, room)|;
      EncodeFirst(s, n + 1);
      if Width(s[0]) <= room {
        FittingIsLongest(s[1..], room - Width(s[0]));
        assert n == 1 + |Fitting(s[1..], room - Width(s[0]))|;
      } else {
        assert n == 0 && s[1..][..0] == [];
      }
    }
  }

  lemma {:induction false} FittingAll(s: Str, room: int)
    requires 0 <= room
    ensures Fitting(s, room) == s <==> |EncodeAll(s)| <= room
  {
    if s != [] && Width(s[0]) <= room { FittingAll(s[1..], room - Width(s[0])); }
  }

  lemma {:induction false} FittingGrows(s: Str, lo: int, hi: int)
    requires lo <= hi
    ensures Fitting(s, lo) <= Fitting(s, hi)
  {
    if s != [] && Width(s[0]) <= lo { FittingGrows(s[1..], lo - Width(s[0]), hi - Width(s[0])); }
  }

  /** `encodeInto` on the part of the buffer from `start`: whole characters, as long as they fit. */
  method EncodeInto(s: Str, buf: array<Byte>, start: nat) returns (read: nat, written: nat)
    requires start <= buf.Length
    modifies buf
    ensures read == |Fitting(s, buf.Length - start)| && written == |EncodeAll(Fitting(s, buf.Length - start))|
    ensures start + written <= buf.Length
    ensures buf[..start + written] == old(buf[..start]) + EncodeAll(Fitting(s, buf.Length - start))
  {
    var fitting := Fitting(s, buf.Length - start);
    FittingFits(s, buf.Length - start);
    var bytes := EncodeAll(fitting);
    read, written := |fitting|, |bytes|;
    PutBytes(bytes, buf, start);
  }

  method PutBytes(bytes: seq<Byte>, buf: array<Byte>, at: nat)
    requires at + |bytes| <= buf.Length
    modifies buf
    ensures buf[..at + |bytes|] == old(buf[..at]) + bytes
  {
    for i := 0 to |bytes|
      invariant buf[..at + i] == old(buf[..at]) + bytes[..i]
    {
      buf[at + i] := bytes[i];
      assert buf[..at + i + 1] == buf[..at + i] + [bytes[i]];
    }
  }

  function Truncated(s: Str, maxBytes: int): Str {
    if maxBytes <= 0 then []
    else if |EncodeAll(s)| <= maxBytes then s
    else StripBom(Scalars(Fitting(s, maxBytes)))
  }

  method TruncateUtf8(s: Str, maxBytes: int) returns (r: Str)
    ensures r == Truncated(s, maxBytes)
  {
    if maxBytes <= 0 { return []; }
    var buf := new Byte[maxBytes];
    var read, written := EncodeInto(s, buf, 0);
    ghost var fitting := Fitting(s, maxBytes);
    FittingFits(s, maxBytes);
    FittingAll(s, maxBytes);
    if read == |s| { return s; }
    assert buf[..0] == [] && buf[..written] == EncodeAll(fitting);
    DecodeEncode(fitting);
    var decoded := TextDecode(buf[..written]);
    return decoded.value;
  }

  // ---- Both in one pass -----------------------------------------------------------------------

  /** What one visible character adds to the buffer, and whether the loop then stops. */
  function Visible(c: CodePoint, room: int, pendingSpace: bool): (Str, bool) {
    if pendingSpace then
      if room <= 1 then ([SPACE], true)
      else if Width(c) > room - 1 then ([SPACE], true)
      else ([SPACE, c], Width(c) == room - 1)
    else if Width(c) > room then ([], true)
    else ([c], Width(c) == room)
  }

  /** The loop of `formatOneLineUtf8` from character `i` on: `out` has been written, `room` bytes are left. */
  function FusedFrom(s: Str, i: nat, room: int, pendingSpace: bool, out: Str): Str
    requires i <= |s|
    decreases |s| - i
  {
    if i == |s| then out
    else if IsSpace(s[i]) then FusedFrom(s, i + 1, room, out != [], out)
    else
      var (added, full) := Visible(s[i], room, pendingSpace);
      if full then out + added
      else FusedFrom(s, i + 1, room - |EncodeAll(added)|, false, out + added)
  }

  lemma FusedStep(s: Str, i: nat, room: int, pendingSpace: bool, out: Str)
    requires i < |s|
    ensures FusedFrom(s, i, room, pendingSpace, out) ==
            if IsSpace(s[i]) then FusedFrom(s, i + 1, room, out != [], out)
            else
              var (added, full) := Visible(s[i], room, pendingSpace);
              if full then out + added else FusedFrom(s, i + 1, room - |EncodeAll(added)|, false, out + added)
  {
  }

  lemma FittingChar(c: CodePoint, t: Str, room: int)
    ensures Fitting([c] + t, room) == if Width(c) > room then [] else [c] + Fitting(t, room - Width(c))
    ensures room <= 0 ==> Fitting(t, room) == []
  {
    assert ([c] + t)[1..] == t;
  }

  lemma EncodeFew(c: CodePoint)
    ensures EncodeAll([c]) == Encode(c)
    ensures EncodeAll([SPACE, c]) == Encode(SPACE) + Encode(c)
  {
    assert [c][1..] == [] && [SPACE, c][1..] == [c];
  }

  /** The buffer takes of a visible character and the space before it exactly what fits. */
  lemma VisibleFits(c: CodePoint, t: Str, room: int, pendingSpace: bool)
    requires 1 <= room
    ensures var (added, full) := Visible(c, room, pendingSpace);
            Fitting((if pendingSpace then [SPACE] else []) + [c] + t, room) ==
            added + if full then [] else Fitting(t, room - |EncodeAll(added)|)
  {
    EncodeFew(c);
    if pendingSpace {
      SpacedFits(c, t, room);
    } else {
      assert [] + [c] + t == [c] + t;
      FittingChar(c, t, room);
      FittingChar(c, t, 0);
    }
  }

  lemma SpacedFits(c: CodePoint, t: Str, room: int)
    requires 1 <= room
    ensures Fitting([SPACE] + [c] + t, room) ==
            if Width(c) > room - 1 then [SPACE] else [SPACE, c] + Fitting(t, room - 1 - Width(c))
    ensures Fitting(t, 0) == []
  {
    var more := [c] + t;
    var rest := Fitting(t, room - 1 - Width(c));
    assert [SPACE] + [c] + t == [SPACE] + more;
    FittingChar(SPACE, more, room);
    FittingChar(c, t, room - 1);
    FittingChar(c, t, 0);
    assert [SPACE] + ([c] + rest) == [SPACE, c] + rest;
  }

  lemma VisibleRoom(c: CodePoint, room: int, pendingSpace: bool)
    ensures var (added, full) := Visible(c, room, pendingSpace); !full ==> added != [] && |EncodeAll(added)| < room
  {
    EncodeFew(c);
  }

  lemma {:induction false} FusedIsFittingSanitized(s: Str, i: nat, room: int, pendingSpace: bool, out: Str)
    requires 1 <= room && i <= |s|
    ensures FusedFrom(s, i, room, pendingSpace, out) ==
            out + Fitting(SanitizedFrom(s[i..], out != [], pendingSpace), room)
    decreases |s| - i
  {
    if i == |s| {
      assert s[i..] == [];
      return;
    }
    SanitizedStep(s, i, out != [], pendingSpace);
    if IsSpace(s[i]) {
      FusedIsFittingSanitized(s, i + 1, room, out != [], out);
    } else {
      var (added, full) := Visible(s[i], room, pendingSpace);
      var t := SanitizedFrom(s[i + 1..], true, false);
      VisibleFits(s[i], t, room, pendingSpace);
      VisibleRoom(s[i], room, pendingSpace);
      if full {
        assert added + [] == added;
      } else {
        assert out + added != [];
        var left := room - |EncodeAll(added)|;
        FusedIsFittingSanitized(s, i + 1, left, false, out + added);
        AppendAssociates(out, added, Fitting(t, left));
      }
    }
  }

  function Formatted(s: Str, maxBytes: int): Str {
    if maxBytes <= 0 then [] else StripBom(Scalars(FusedFrom(s, 0, maxBytes, false, [])))
  }

  method FormatOneLineUtf8(s: Str, maxBytes: int) returns (r: Str)
    ensures r == Formatted(s, maxBytes)
  {
    if maxBytes <= 0 { return []; }
    var buf := new Byte[maxBytes];
    var written := FillOneLine(s, buf);
    DecodeEncode(FusedFrom(s, 0, maxBytes, false, []));
    var decoded := TextDecode(buf[..written]);
    return decoded.value;
  }

  /** The loop over the characters. */
  method FillOneLine(s: Str, buf: array<Byte>) returns (written: nat)
    requires 0 < buf.Length
    modifies buf
    ensures written <= buf.Length && buf[..written] == EncodeAll(FusedFrom(s, 0, buf.Length, false, []))
  {
    written := 0;
    var pendingSpace, i, full := false, 0, false;
    ghost var out: Str := [];
    ghost var goal := FusedFrom(s, 0, buf.Length, false, []);
    while i < |s| && !full
      invariant i <= |s| && written <= buf.Length && (!full ==> written < buf.Length)
      invariant buf[..written] == EncodeAll(out) && (written > 0 <==> out != [])
      invariant goal == if full then out else FusedFrom(s, i, buf.Length - written, pendingSpace, out)
    {
      written, full, pendingSpace, out := PutNext(s, i, buf, written, pendingSpace, out);
      i := i + 1;
    }
  }

  /** One turn of that loop. */
  method PutNext(s: Str, i: nat, buf: array<Byte>, at: nat, pendingSpace: bool, ghost out: Str)
    returns (written: nat, full: bool, pending: bool, ghost out': Str)
    requires i < |s| && at < buf.Length && buf[..at] == EncodeAll(out) && (at > 0 <==> out != [])
    modifies buf
    ensures written <= buf.Length && (!full ==> written < buf.Length)
    ensures buf[..written] == EncodeAll(out') && (written > 0 <==> out' != [])
    ensures FusedFrom(s, i, buf.Length - at, pendingSpace, out) ==
            if full then out' else FusedFrom(s, i + 1, buf.Length - written, pending, out')
  {
    FusedStep(s, i, buf.Length - at, pendingSpace, out);
    if IsSpace(s[i]) {
      written, full, pending, out' := at, false, at > 0, out;
    } else {
      written, full, out' := PutVisible(s[i], buf, at, pendingSpace, out);
      pending := false;
      WrittenIffNonEmpty(out');
    }
  }

  lemma WrittenIffNonEmpty(out: Str)
    ensures |EncodeAll(out)| > 0 <==> out != []
  {
  }

  method PutVisible(c: CodePoint, buf: array<Byte>, at: nat, pendingSpace: bool, ghost out: Str)
    returns (written: nat, full: bool, ghost out': Str)
    requires at < buf.Length && buf[..at] == EncodeAll(out)
    modifies buf
    ensures var (added, stop) := Visible(c, buf.Length - at, pendingSpace);
            full == stop && out' == out + added && written == at + |EncodeAll(added)|
    ensures at <= written <= buf.Length && (!full ==> at < written < buf.Length)
    ensures buf[..written] == EncodeAll(out')
  {
    written, out' := at, out;
    EncodeAllAppend([SPACE], [c]);
    assert [SPACE] + [c] == [SPACE, c];
    assert EncodeAll([c]) == Encode(c) && EncodeAll([SPACE]) == Encode(SPACE);
    if pendingSpace {
      out' := Write(SPACE, buf, written, out');
      written := written + 1;
      if written >= buf.Length { return written, true, out'; }
    }
    if Width(c) > buf.Length - written { return written, true, out'; }
    out' := Write(c, buf, written, out');
    written := written + Width(c);
    full := written >= buf.Length;
  }

  /** One character that fits, appended to what the buffer holds. */
  method Write(c: CodePoint, buf: array<Byte>, at: nat, ghost out: Str) returns (ghost out': Str)
    requires at + Width(c) <= buf.Length && buf[..at] == EncodeAll(out)
    modifies buf
    ensures out' == out + [c] && buf[..at + Width(c)] == EncodeAll(out')
  {
    var read, written := EncodeInto([c], buf, at);
    out' := out + [c];
    EncodeAllAppend(out, [c]);
    assert EncodeAll([c]) == Encode(c) && Fitting([c], buf.Length - at) == [c];
  }

  // ---- Fusion -----------------------------------------------------------------------------------

  lemma WellFormedAppend(a: Str, b: Str)
    ensures WellFormed(a + b) <==> WellFormed(a) && WellFormed(b)
  {
    assert forall i :: 0 <= i < |a| ==> a[i] == (a + b)[i];
    assert forall i :: 0 <= i < |b| ==> b[i] == (a + b)[|a| + i];
  }

  lemma {:induction false} SanitizedShape(s: Str, started: bool, pendingSpace: bool)
    requires pendingSpace ==> started
    ensures var t := SanitizedFrom(s, started, pendingSpace);
            && (forall i :: 0 <= i < |t| ==> t[i] == SPACE || !IsSpace(t[i]))
            && (WellFormed(t) <==> WellFormed(s))
  {
    if s != [] {
      var t := SanitizedFrom(s, started, pendingSpace);
      WellFormedAppend([s[0]], s[1..]);
      assert s == [s[0]] + s[1..];
      if IsSpace(s[0]) {
        SanitizedShape(s[1..], started, started);
      } else {
        SanitizedShape(s[1..], true, false);
        var rest := SanitizedFrom(s[1..], true, false);
        WellFormedAppend([s[0]], rest);
        WellFormedAppend([SPACE], [s[0]] + rest);
        assert t == if pendingSpace then [SPACE] + ([s[0]] + rest) else [s[0]] + rest;
      }
    }
  }

  lemma FormattedIsFitting(s: Str, maxBytes: int)
    requires 0 < maxBytes
    ensures Formatted(s, maxBytes) == Scalars(Fitting(Sanitized(s), maxBytes))
  {
    FusedIsFittingSanitized(s, 0, maxBytes, false, []);
    assert s[0..] == s;
    SanitizedShape(s, false, false);
    var r := Fitting(Sanitized(s), maxBytes);
    FittingFits(Sanitized(s), maxBytes);
    if r != [] { assert r[0] == Sanitized(s)[0]; }
  }

  /** One pass equals sanitising and then truncating, for every string and budget, except that a
      lone surrogate survives truncation when everything fits. */
  lemma FormatIsTruncatedSanitized(s: Str, maxBytes: int)
    ensures Formatted(s, maxBytes) == Truncated(Sanitized(s), maxBytes)
            <==> (WellFormed(s) || maxBytes <= 0 || |EncodeAll(Sanitized(s))| > maxBytes)
  {
    if maxBytes > 0 {
      var t := Sanitized(s);
      FormattedIsFitting(s, maxBytes);
      FittingAll(t, maxBytes);
      SanitizedShape(s, false, false);
      ScalarsOfWellFormed(t);
      var r := Fitting(t, maxBytes);
      FittingFits(t, maxBytes);
      if r != [] { assert r[0] == t[0]; }
    }
  }

  /** The result fits the budget, is valid UTF-8, is a prefix of every larger result, and could not
      take one more character of the sanitised text. */
  lemma FormatFitsAndGrows(s: Str, lo: int, hi: int)
    requires lo <= hi
    ensures Formatted(s, lo) <= Formatted(s, hi)
    ensures 0 <= lo ==> |EncodeAll(Formatted(s, lo))| <= lo
    ensures Decode(EncodeAll(Formatted(s, lo))) == Some(Formatted(s, lo))
    ensures 0 < lo && |Formatted(s, lo)| < |Sanitized(s)| ==>
              |EncodeAll(Sanitized(s)[..|Formatted(s, lo)| + 1])| > lo
  {
    if lo > 0 {
      var t := Sanitized(s);
      FormattedIsFitting(s, lo);
      FormattedIsFitting(s, hi);
      FittingGrows(t, lo, hi);
      FittingIsLongest(t, lo);
      FittingFits(t, lo);
      EncodeScalars(Fitting(t, lo));
    }
    DecodeEncode(Formatted(s, lo));
    assert WellFormed(Formatted(s, lo));
    ScalarsOfWellFormed(Formatted(s, lo));
  }

  lemma ScalarsSpaced(t: Str, r: Str)
    requires Spaced(t) && |r| <= |t| && forall i :: 0 <= i < |r| ==> r[i] == Scalar(t[i])
    ensures Spaced(r)
  {
    forall i | 0 <= i < |r| ensures SpacedAt(r, i) {
      assert SpacedAt(t, i) && r[i] == Scalar(t[i]);
      if i > 0 { assert r[i - 1] == Scalar(t[i - 1]); }
    }
  }

  /** The one-pass result is one line too: a beginning of the sanitised text, with lone surrogates replaced. */
  lemma FormattedIsOneLine(s: Str, maxBytes: int)
    ensures OneLine(Formatted(s, maxBytes))
    ensures Formatted(s, maxBytes) <= Scalars(Sanitized(s))
  {
    if maxBytes > 0 {
      var t, r := Sanitized(s), Formatted(s, maxBytes);
      SanitizedIsOneLine(s);
      assert |r| <= |t| && forall i :: 0 <= i < |r| ==> r[i] == Scalar(t[i]) by {
        FormattedIsFitting(s, maxBytes);
        FittingFits(t, maxBytes);
      }
      ScalarsSpaced(t, r);
    }
  }

  // ---- Sanitising twice, and truncating alone ------------------------------------------------------------

  /** Text that is in order already is left as it is. */
  lemma {:induction false} SanitizedFixed(t: Str, started: bool)
    requires Spaced(t) && (t != [] ==> t[|t| - 1] != 0x20 && (t[0] == 0x20 ==> started))
    ensures SanitizedFrom(t, started, false) == t
    decreases |t|
  {
    if t != [] {
      assert SpacedAt(t, 0);
      var rest := t[1..];
      SpacedTail(t);
      if t[0] == 0x20 {
        assert SpacedAt(t, 1) && rest[0] != 0x20;
        SpacedTail(rest);
        SanitizedFixed(rest[1..], true);
        assert t == [SPACE] + [rest[0]] + rest[1..];
      } else {
        SanitizedFixed(rest, true);
        assert t == [] + [t[0]] + rest;
      }
    }
  }

  lemma SpacedTail(t: Str)
    requires Spaced(t) && t != []
    ensures Spaced(t[1..])
  {
    var rest := t[1..];
    forall i | 0 <= i < |rest| ensures SpacedAt(rest, i) { assert SpacedAt(t, i + 1) && rest[i] == t[i + 1]; }
  }

  /** Sanitising twice is sanitising once. */
  lemma SanitizedTwice(s: Str)
    ensures Sanitized(Sanitized(s)) == Sanitized(s)
  {
    SanitizedIsOneLine(s);
    SanitizedFixed(Sanitized(s), false);
  }

  /** A lone surrogate is written as U+FFFD. */
  lemma SurrogateBytes(c: CodePoint)
    requires 0xD800 <= c <= 0xDFFF
    ensures Encode(c) == [0xEF, 0xBF, 0xBD]
  {
  }

  /** Truncation alone, for every text and budget: the text itself if it fits; otherwise the longest part of
      it that does, with lone surrogates replaced, and without a byte order mark in front. */
  lemma TruncatedExactly(s: Str, maxBytes: int)
    ensures maxBytes <= 0 ==> Truncated(s, maxBytes) == []
    ensures maxBytes > 0 && |EncodeAll(s)| <= maxBytes ==> Truncated(s, maxBytes) == s
    ensures maxBytes > 0 && |EncodeAll(s)| > maxBytes ==>
              exists n :: 0 <= n < |s| && |EncodeAll(s[..n])| <= maxBytes < |EncodeAll(s[..n + 1])|
                       && Truncated(s, maxBytes) ==
                          if n > 0 && s[0] == 0xFEFF then Scalars(s[1..n]) else Scalars(s[..n])
  {
    if maxBytes > 0 && |EncodeAll(s)| > maxBytes {
      var n := |Fitting(s, maxBytes)|;
      FittingAll(s, maxBytes);
      FittingFits(s, maxBytes);
      FittingIsLongest(s, maxBytes);
      var t := Scalars(s[..n]);
      if n > 0 && s[0] == 0xFEFF { assert t[1..] == Scalars(s[1..n]); }
    }
  }
}
