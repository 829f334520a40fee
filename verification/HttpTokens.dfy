/** Comma-separated HTTP tokens: src/httpTokens.js, and the subprotocol header of tools/minimal_ws.js
    as the client writes it and the server parses it. */
module HttpTokens {
  import opened Prelude

  const BLANK: CodeUnit := 0x20
  const MAX_HEADER := 4096
  const MAX_TOKENS := 32

  predicate IsTchar(c: CodeUnit) {
    || 0x30 <= c <= 0x39 || 0x41 <= c <= 0x5a || 0x61 <= c <= 0x7a
    || c in {0x21, 0x23, 0x24, 0x25, 0x26, 0x27, 0x2a, 0x2b, 0x2d, 0x2e, 0x5e, 0x5f, 0x60, 0x7c, 0x7e}
  }

  predicate ValidToken(t: JsText) {
    t != [] && forall i :: 0 <= i < |t| ==> IsTchar(t[i])
  }

  /** Beyond the end of the text there is no character, hence no token character. */
  method IsValidHttpTokenPart(input: JsText, start: nat, end: nat) returns (ok: bool)
    ensures ok <==> start < end <= |input| && ValidToken(input[start..end])
  {
    if end <= start { return false; }
    for i := start to end
      invariant i <= |input| || i == start
      invariant forall j :: start <= j < i ==> IsTchar(input[j])
    {
      if i >= |input| { return false; }
      if !IsTchar(input[i]) {
        if end <= |input| { assert input[start..end][i - start] == input[i]; }
        return false;
      }
    }
    return true;
  }

  method IsValidHttpToken(token: JsText) returns (ok: bool)
    ensures ok <==> ValidToken(token)
  {
    if |token| == 0 { return false; }
    assert token[0..|token|] == token;
    ok := IsValidHttpTokenPart(token, 0, |token|);
  }

  // ---- Reference: split, trim, drop empties ----------------------------------------------------

  predicate IsBlank(c: CodeUnit) {
    c <= 0x20
  }

  function FirstComma(s: JsText): (k: nat)
    ensures k <= |s|
    ensures k < |s| ==> s[k] == COMMA
    ensures forall i :: 0 <= i < k ==> s[i] != COMMA
  {
    if s == [] || s[0] == COMMA then 0 else 1 + FirstComma(s[1..])
  }

  function Split(s: JsText): (parts: seq<JsText>)
    ensures parts != []
    decreases |s|
  {
    var k := FirstComma(s);
    if k == |s| then [s] else [s[..k]] + Split(s[k + 1..])
  }

  function Kept(part: JsText): seq<JsText> {
    if Trim(part, IsBlank) == [] then [] else [Trim(part, IsBlank)]
  }

  function NonEmpty(parts: seq<JsText>): seq<JsText> {
    if parts == [] then [] else Kept(parts[0]) + NonEmpty(parts[1..])
  }

  function Tokens(s: JsText): seq<JsText> {
    NonEmpty(Split(s))
  }

  predicate AllValid(ts: seq<JsText>) {
    forall i :: 0 <= i < |ts| ==> ValidToken(ts[i])
  }

  function Parsed(raw: JsText, maxLen: int, maxTokens: int): Option<seq<JsText>> {
    if |raw| > maxLen || TooManyOrInvalid(Tokens(raw), maxTokens) then None else Some(Tokens(raw))
  }

  // ---- Facts about the reference ------------------------------------------------------------------

  lemma NonEmptyCons(part: JsText, parts: seq<JsText>)
    ensures NonEmpty([part] + parts) == Kept(part) + NonEmpty(parts)
  {
    assert ([part] + parts)[1..] == parts;
  }

  lemma TokensLast(s: JsText)
    requires FirstComma(s) == |s|
    ensures Tokens(s) == Kept(s)
  {
    NonEmptyCons(s, []);
    assert [s] + [] == [s] && Kept(s) + [] == Kept(s);
  }

  lemma TokensMore(s: JsText, k: nat)
    requires k == FirstComma(s) < |s|
    ensures Tokens(s) == Kept(s[..k]) + Tokens(s[k + 1..])
  {
    var part, parts := s[..k], Split(s[k + 1..]);
    SplitMore(s, k);
    NonEmptyCons(part, parts);
  }

  lemma SplitMore(s: JsText, k: nat)
    requires k == FirstComma(s) < |s|
    ensures Split(s) == [s[..k]] + Split(s[k + 1..])
  {
  }

  lemma TrimBlanks(s: JsText)
    requires AllBlank(s, IsBlank)
    ensures Trim(s, IsBlank) == []
  {
    assert s + [] + [] == s;
    TrimCore(s, [], [], IsBlank);
  }

  /** Trimming by two indices, as the scan does it. */
  lemma TrimAt(s: JsText, start: nat, end: nat)
    requires start < end <= |s|
    requires forall i :: 0 <= i < start || end <= i < |s| ==> IsBlank(s[i])
    requires !IsBlank(s[start]) && !IsBlank(s[end - 1])
    ensures Trim(s, IsBlank) == s[start..end]
  {
    TrimCore(s[..start], s[start..end], s[end..], IsBlank);
    assert s == s[..start] + s[start..end] + s[end..];
  }

  /** Resuming from inside trailing blanks loses nothing. */
  lemma {:induction false} TokensAfterBlanks(s: JsText, n: nat)
    requires n <= |s| && forall i :: 0 <= i < n ==> IsBlank(s[i])
    ensures n < |s| && s[n] == COMMA ==> Tokens(s) == Tokens(s[n + 1..])
    ensures n == |s| ==> Tokens(s) == []
  {
    if n == |s| || s[n] == COMMA {
      assert FirstComma(s) == n;
      TrimBlanks(s[..n]);
      if n == |s| {
        assert s[..n] == s;
        TokensLast(s);
      } else {
        TokensMore(s, n);
      }
    }
  }

  /** One turn of the scan: the item from `i` has its comma at `comma` and its trimmed text at
      `start..end`, and the scan goes on from `end + 1`. */
  lemma ScanTurn(raw: JsText, i: nat, comma: nat, start: nat, end: nat)
    requires i <= start <= end <= comma <= |raw| && i < |raw|
    requires (forall k :: i <= k < comma ==> raw[k] != COMMA) && (comma < |raw| ==> raw[comma] == COMMA)
    requires forall k :: i <= k < start || end <= k < comma ==> IsBlank(raw[k])
    requires start < end ==> !IsBlank(raw[start]) && !IsBlank(raw[end - 1])
    ensures start < end ==> TokensLeft(raw, i) == [raw[start..end]] + TokensLeft(raw, end + 1)
    ensures start == end ==> TokensLeft(raw, i) == TokensLeft(raw, end + 1)
  {
    ItemTrimmed(raw, i, comma, start, end);
    TokensFrom(raw, i, comma);
    TokensPastBlanks(raw, end, comma);
  }

  lemma TokensPastBlanks(raw: JsText, end: nat, comma: nat)
    requires end <= comma <= |raw| && (comma < |raw| ==> raw[comma] == COMMA)
    requires forall k :: end <= k < comma ==> IsBlank(raw[k])
    ensures TokensLeft(raw, end + 1) == if comma < |raw| then Tokens(raw[comma + 1..]) else []
  {
    if end < comma {
      var rest, n := raw[end + 1..], comma - end - 1;
      assert forall k :: 0 <= k < n ==> rest[k] == raw[end + 1 + k];
      if comma < |raw| {
        assert rest[n] == COMMA && rest[n + 1..] == raw[comma + 1..];
      }
      TokensAfterBlanks(rest, n);
    }
  }

  lemma SliceOfSlice(raw: JsText, i: nat, comma: nat, start: nat, end: nat)
    requires i <= start <= end <= comma <= |raw|
    ensures raw[i..comma][start - i..end - i] == raw[start..end]
  {
    var a, b := raw[i..comma][start - i..end - i], raw[start..end];
    assert |a| == |b| && forall k :: 0 <= k < |a| ==> a[k] == b[k];
  }

  lemma ItemTrimmed(raw: JsText, i: nat, comma: nat, start: nat, end: nat)
    requires i <= start <= end <= comma <= |raw|
    requires forall k :: i <= k < start || end <= k < comma ==> IsBlank(raw[k])
    requires start < end ==> !IsBlank(raw[start]) && !IsBlank(raw[end - 1])
    ensures Kept(raw[i..comma]) == if start < end then [raw[start..end]] else []
  {
    var item := raw[i..comma];
    if start < end {
      TrimAt(item, start - i, end - i);
      SliceOfSlice(raw, i, comma, start, end);
    } else {
      TrimBlanks(item);
    }
  }

  lemma CommaAt(s: JsText, n: nat)
    requires n <= |s| && (forall k :: 0 <= k < n ==> s[k] != COMMA) && (n < |s| ==> s[n] == COMMA)
    ensures FirstComma(s) == n
  {
  }

  lemma TokensFrom(raw: JsText, i: nat, comma: nat)
    requires i <= comma <= |raw|
    requires (forall k :: i <= k < comma ==> raw[k] != COMMA) && (comma < |raw| ==> raw[comma] == COMMA)
    ensures Tokens(raw[i..]) == Kept(raw[i..comma]) + if comma < |raw| then Tokens(raw[comma + 1..]) else []
  {
    var s, n := raw[i..], comma - i;
    assert FirstComma(s) == n by {
      assert forall k :: 0 <= k < n ==> s[k] == raw[i + k];
      CommaAt(s, n);
    }
    assert s[..n] == raw[i..comma];
    if comma < |raw| {
      assert s[n + 1..] == raw[comma + 1..];
      TokensMore(s, n);
    } else {
      TokensLast(s);
      assert s == raw[i..comma] && Kept(s) + [] == Kept(s);
    }
  }

  function TokensLeft(raw: JsText, i: nat): seq<JsText> {
    if i <= |raw| then Tokens(raw[i..]) else []
  }

  lemma Consumed(all: seq<JsText>, out: seq<JsText>, token: JsText, rest: seq<JsText>)
    requires all == out + ([token] + rest)
    ensures all == (out + [token]) + rest && all[|out|] == token
  {
  }

  lemma ValidSoFar(all: seq<JsText>, out: seq<JsText>, token: JsText)
    requires AllValid(out) && |out| < |all| && all[|out|] == token
    ensures ValidToken(token) ==> AllValid(out + [token])
    ensures !ValidToken(token) ==> !AllValid(all)
  {
  }

  lemma NoneLeft(raw: JsText, i: nat)
    requires i >= |raw|
    ensures TokensLeft(raw, i) == []
  {
    if i == |raw| {
      assert raw[i..] == [];
      TokensAfterBlanks([], 0);
    }
  }

  // ---- The scanner ----------------------------------------------------------------------------------

  method IndexOfComma(raw: JsText, i: nat) returns (end: nat)
    requires i <= |raw|
    ensures i <= end <= |raw| && (end < |raw| ==> raw[end] == COMMA)
    ensures forall k :: i <= k < end ==> raw[k] != COMMA
  {
    end := i;
    while end < |raw| && raw[end] != COMMA
      invariant i <= end <= |raw| && forall k :: i <= k < end ==> raw[k] != COMMA
    {
      end := end + 1;
    }
  }

  /** The scan resumes from the trimmed end of each item, and still equals split, trim and drop. */
  method CommaSeparatedTokens(raw: JsText, maxLen: int, maxTokens: int) returns (r: Option<seq<JsText>>)
    ensures r == Parsed(raw, maxLen, maxTokens)
  {
    if |raw| > maxLen { return None; }
    var out: seq<JsText>, i: nat := [], 0;
    ghost var all, left := Tokens(raw), Tokens(raw);
    assert raw[0..] == raw && [] + all == all;
    while i < |raw|
      invariant left == TokensLeft(raw, i) && Scanned(all, out, left, maxTokens)
    {
      var ok: bool;
      ok, i, out, left := ScanItem(raw, i, out, maxTokens, all, left);
      if !ok { return None; }
    }
    NoneLeft(raw, i);
    assert out + [] == out;
    return Some(out);
  }

  /** `out` has been taken from `all` and `left` remains. */
  ghost predicate Scanned(all: seq<JsText>, out: seq<JsText>, left: seq<JsText>, maxTokens: int) {
    all == out + left && AllValid(out) && (out == [] || |out| <= maxTokens)
  }

  method NextItem(raw: JsText, i: nat, ghost left: seq<JsText>) returns (start: nat, end: nat, ghost left': seq<JsText>)
    requires i < |raw| && left == TokensLeft(raw, i)
    ensures i <= start <= end <= |raw| && left' == TokensLeft(raw, end + 1)
    ensures start < end ==> left == [raw[start..end]] + left'
    ensures start == end ==> left == left'
  {
    var comma := IndexOfComma(raw, i);
    start, end := TrimRange(raw, i, comma);
    left' := TokensLeft(raw, end + 1);
    ScanTurn(raw, i, comma, start, end);
  }

  method TakeToken(token: JsText, out: seq<JsText>, maxTokens: int,
                   ghost all: seq<JsText>, ghost left: seq<JsText>, ghost left': seq<JsText>)
    returns (ok: bool, out': seq<JsText>)
    requires Scanned(all, out, left, maxTokens) && left == [token] + left'
    ensures ok ==> Scanned(all, out', left', maxTokens)
    ensures !ok ==> TooManyOrInvalid(all, maxTokens)
  {
    TokenTaken(all, out, left, token, left', maxTokens);
    if |out| >= maxTokens { return false, out; }
    ok := IsValidHttpToken(token);
    out' := out + [token];
  }

  method ScanItem(raw: JsText, i: nat, out: seq<JsText>, maxTokens: int,
                  ghost all: seq<JsText>, ghost left: seq<JsText>)
    returns (ok: bool, next: nat, out': seq<JsText>, ghost left': seq<JsText>)
    requires i < |raw| && left == TokensLeft(raw, i) && Scanned(all, out, left, maxTokens)
    ensures i < next && left' == TokensLeft(raw, next)
    ensures ok ==> Scanned(all, out', left', maxTokens)
    ensures !ok ==> TooManyOrInvalid(all, maxTokens)
  {
    var start, end;
    start, end, left' := NextItem(raw, i, left);
    ok, next, out' := true, end + 1, out;
    if end > start {
      ok, out' := TakeToken(raw[start..end], out, maxTokens, all, left, left');
    }
  }

  predicate TooManyOrInvalid(ts: seq<JsText>, maxTokens: int) {
    (ts != [] && |ts| > maxTokens) || !AllValid(ts)
  }

  lemma TokenTaken(all: seq<JsText>, out: seq<JsText>, left: seq<JsText>, token: JsText, left': seq<JsText>,
                   maxTokens: int)
    requires Scanned(all, out, left, maxTokens) && left == [token] + left'
    ensures |out| >= maxTokens || !ValidToken(token) ==> TooManyOrInvalid(all, maxTokens)
    ensures |out| < maxTokens && ValidToken(token) ==> Scanned(all, out + [token], left', maxTokens)
  {
    Consumed(all, out, token, left');
    ValidSoFar(all, out, token);
  }

  method TrimRange(raw: JsText, i: nat, comma: nat) returns (start: nat, end: nat)
    requires i <= comma <= |raw|
    ensures i <= start <= end <= comma
    ensures forall k :: i <= k < start || end <= k < comma ==> IsBlank(raw[k])
    ensures start < end ==> !IsBlank(raw[start]) && !IsBlank(raw[end - 1])
  {
    start, end := i, comma;
    while start < end && IsBlank(raw[start])
      invariant i <= start <= end
      invariant forall k :: i <= k < start ==> IsBlank(raw[k])
    {
      start := start + 1;
    }
    while end > start && IsBlank(raw[end - 1])
      invariant start <= end <= comma
      invariant forall k :: end <= k < comma ==> IsBlank(raw[k])
    {
      end := end - 1;
    }
  }

  // ---- The client's header ---------------------------------------------------------------------------

  function JoinProtocols(ps: seq<JsText>): JsText {
    if ps == [] then [] else if |ps| == 1 then ps[0] else ps[0] + [COMMA, BLANK] + JoinProtocols(ps[1..])
  }

  function TotalLength(ps: seq<JsText>): nat {
    if ps == [] then 0 else |ps[0]| + TotalLength(ps[1..])
  }

  datatype Offer = NoHeader | Header(text: JsText) | TooMany | BadToken | TooLong

  lemma {:induction false} TotalLengthAppend(a: seq<JsText>, b: seq<JsText>)
    ensures TotalLength(a + b) == TotalLength(a) + TotalLength(b)
  {
    if a == [] {
      assert a + b == b;
    } else {
      assert (a + b)[1..] == a[1..] + b;
      TotalLengthAppend(a[1..], b);
    }
  }

  lemma LengthUpTo(ps: seq<JsText>, i: nat, k: nat)
    requires i < k <= |ps|
    ensures TotalLength(ps[..i]) + |ps[i]| == TotalLength(ps[..i + 1]) <= TotalLength(ps[..k])
  {
    assert ps[..i + 1] == ps[..i] + [ps[i]] && ps[..k] == ps[..i + 1] + ps[i + 1..k];
    var one: seq<JsText> := [ps[i]];
    assert one[1..] == [] && TotalLength(one) == |ps[i]|;
    TotalLengthAppend(ps[..i], [ps[i]]);
    TotalLengthAppend(ps[..i + 1], ps[i + 1..k]);
  }

  /** The first invalid name comes before the names alone are too long. */
  predicate BadBeforeLong(ps: seq<JsText>) {
    exists i :: 0 <= i < |ps| && !ValidToken(ps[i]) && AllValid(ps[..i]) && TotalLength(ps[..i]) <= 4096
  }

  /** What `_connect` puts in Sec-WebSocket-Protocol, or which error it throws. The error is decided by
      whichever check fails first. */
  method ProtocolHeader(protocols: seq<JsText>) returns (r: Offer)
    ensures r.NoHeader? <==> protocols == []
    ensures r.TooMany? <==> |protocols| > 32
    ensures r.BadToken? <==> |protocols| <= 32 && BadBeforeLong(protocols)
    ensures r.Header? <==>
              0 < |protocols| <= 32 && AllValid(protocols) && |JoinProtocols(protocols)| <= 4096
    ensures r.Header? ==> r.text == JoinProtocols(protocols)
  {
    if |protocols| > MAX_TOKENS { return TooMany; }
    if |protocols| == 0 { return NoHeader; }
    JoinedLength(protocols);
    var totalLen := 0;
    for i := 0 to |protocols|
      invariant AllValid(protocols[..i]) && totalLen == TotalLength(protocols[..i]) <= MAX_HEADER
    {
      var ok := IsValidHttpToken(protocols[i]);
      if !ok { return BadToken; }
      LengthUpTo(protocols, i, i + 1);
      totalLen := totalLen + |protocols[i]|;
      if totalLen > MAX_HEADER {
        LongFirst(protocols, i);
        return TooLong;
      }
      assert protocols[..i + 1] == protocols[..i] + [protocols[i]];
    }
    assert protocols[..|protocols|] == protocols;
    if totalLen + (|protocols| - 1) * 2 > MAX_HEADER { return TooLong; }
    return Header(JoinProtocols(protocols));
  }

  lemma LongFirst(ps: seq<JsText>, i: nat)
    requires i < |ps| && AllValid(ps[..i]) && ValidToken(ps[i]) && TotalLength(ps[..i + 1]) > MAX_HEADER
    ensures !BadBeforeLong(ps) && |JoinProtocols(ps)| > MAX_HEADER
  {
    assert forall k :: 0 <= k < i ==> ps[..i][k] == ps[k];
    forall k | 0 <= k < |ps| && !ValidToken(ps[k]) ensures TotalLength(ps[..k]) > MAX_HEADER {
      LengthUpTo(ps, i, k);
    }
    LengthUpTo(ps, i, |ps|);
    assert ps[..|ps|] == ps;
    JoinedLength(ps);
  }

  lemma {:induction false} JoinedLength(ps: seq<JsText>)
    requires ps != []
    ensures |JoinProtocols(ps)| == TotalLength(ps) + (|ps| - 1) * 2
  {
    if |ps| > 1 { JoinedLength(ps[1..]); } else { assert ps[1..] == []; }
  }

  lemma TokenHasNoBlank(t: JsText)
    requires ValidToken(t)
    ensures forall i :: 0 <= i < |t| ==> t[i] != COMMA && !IsBlank(t[i])
  {
  }

  /** A token with an optional blank before it, at the front of a list. */
  lemma TokensOfFirst(pad: JsText, p: JsText, rest: JsText)
    requires ValidToken(p) && (pad == [] || pad == [BLANK])
    ensures Tokens(pad + p) == [p]
    ensures Tokens(pad + p + [COMMA] + rest) == [p] + Tokens(rest)
  {
    TokenHasNoBlank(p);
    var item := pad + p;
    var n := |item|;
    ItemTrimmed(item, 0, n, |pad|, n);
    assert item[0..n] == item && item[0..] == item && item[|pad|..n] == p;
    TokensFrom(item, 0, n);
    var text := item + [COMMA] + rest;
    assert text[0..] == text && text[0..n] == item && text[n + 1..] == rest;
    TokensFrom(text, 0, n);
  }

  lemma {:induction false} TokensOfJoined(pad: JsText, ps: seq<JsText>)
    requires ps != [] && AllValid(ps) && (pad == [] || pad == [BLANK])
    ensures Tokens(pad + JoinProtocols(ps)) == ps
    decreases |ps|
  {
    if |ps| == 1 {
      TokensOfFirst(pad, ps[0], []);
      assert ps == [ps[0]];
    } else {
      var text, rest := pad + JoinProtocols(ps), [BLANK] + JoinProtocols(ps[1..]);
      assert AllValid(ps[1..]);
      TokensOfJoined([BLANK], ps[1..]);
      assert text == pad + ps[0] + [COMMA] + rest by { JoinedMore(pad, ps); }
      assert Tokens(text) == [ps[0]] + Tokens(rest) by { TokensOfFirst(pad, ps[0], rest); }
    }
  }

  lemma JoinedMore(pad: JsText, ps: seq<JsText>)
    requires |ps| > 1
    ensures pad + JoinProtocols(ps) == pad + ps[0] + [COMMA] + ([BLANK] + JoinProtocols(ps[1..]))
  {
    Regroup(pad, ps[0], JoinProtocols(ps[1..]));
  }

  lemma Regroup(pad: JsText, p: JsText, rest: JsText)
    ensures pad + (p + [COMMA, BLANK] + rest) == pad + p + [COMMA] + ([BLANK] + rest)
  {
  }

  /** The server recovers exactly the list the client offered. */
  lemma OfferRoundTrip(ps: seq<JsText>)
    requires 0 < |ps| <= 32 && AllValid(ps) && |JoinProtocols(ps)| <= 4096
    ensures Parsed(JoinProtocols(ps), MAX_HEADER, MAX_TOKENS) == Some(ps)
  {
    TokensOfJoined([], ps);
    assert [] + JoinProtocols(ps) == JoinProtocols(ps);
  }

  /** The names are joined by a comma (0x2C) and a space (0x20). */
  lemma {:induction false} JoinedByCommaSpace(ps: seq<JsText>, p: JsText)
    requires ps != []
    ensures JoinProtocols(ps + [p]) == JoinProtocols(ps) + [0x2C, 0x20] + p
    decreases |ps|
  {
    var all := ps + [p];
    if |ps| == 1 {
      assert all[1..] == [p];
    } else {
      assert all[1..] == ps[1..] + [p];
      JoinedByCommaSpace(ps[1..], p);
      var first, rest := ps[0] + [0x2C, 0x20], JoinProtocols(ps[1..]);
      assert first + (rest + [0x2C, 0x20] + p) == (first + rest) + [0x2C, 0x20] + p;
    }
  }

  // ---- Lists in plain characters ----------------------------------------------------------------------

  /** The token characters of section 5.6.2 of RFC 9110, by number. */
  lemma TokenCharacters(c: CodeUnit)
    ensures ValidToken([c]) <==>
            || 48 <= c <= 57 || 65 <= c <= 90 || 97 <= c <= 122 || c == 33 || 35 <= c <= 39 || c == 42 || c == 43
            || c == 45 || c == 46 || 94 <= c <= 96 || c == 124 || c == 126
  {
    assert [c][0] == c;
  }

  /** Any characters up to the space (0x20), such as tabs. */
  predicate Gap(s: JsText) {
    forall i :: 0 <= i < |s| ==> s[i] <= 32
  }

  /** One element of a list as written: nothing but a gap, or a token between two. */
  datatype Element = Element(before: JsText, token: Option<JsText>, after: JsText)

  predicate Regular(e: Element) {
    Gap(e.before) && Gap(e.after) && (e.token.Some? ==> ValidToken(e.token.value))
  }

  function WrittenElement(e: Element): JsText {
    e.before + (match e.token case None => [] case Some(t) => t) + e.after
  }

  function WrittenElements(es: seq<Element>): JsText
    requires es != []
  {
    if |es| == 1 then WrittenElement(es[0]) else WrittenElement(es[0]) + ([0x2C] + WrittenElements(es[1..]))
  }

  function TokensIn(es: seq<Element>): seq<JsText> {
    if es == [] then [] else (match es[0].token case None => [] case Some(t) => [t]) + TokensIn(es[1..])
  }

  lemma ElementKept(e: Element)
    requires Regular(e)
    ensures var text := WrittenElement(e);
            && (forall k :: 0 <= k < |text| ==> text[k] != COMMA)
            && Kept(text) == match e.token case None => [] case Some(t) => [t]
  {
    var text := WrittenElement(e);
    var token: JsText := match e.token case None => [] case Some(t) => t;
    if e.token.Some? { TokenHasNoBlank(token); }
    assert forall k :: 0 <= k < |text| ==> text[k] != COMMA by {
      forall k | 0 <= k < |text| ensures text[k] != COMMA {
        if k < |e.before| { assert text[k] == e.before[k]; }
        else if k < |e.before| + |token| { assert text[k] == token[k - |e.before|]; }
        else { assert text[k] == e.after[k - |e.before| - |token|]; }
      }
    }
    TrimCore(e.before, token, e.after, IsBlank);
  }

  /** Every list of tokens, with any blanks around them and any empty elements between them, parses to its
      tokens. */
  lemma {:induction false} WrittenTokens(es: seq<Element>)
    requires es != [] && forall i :: 0 <= i < |es| ==> Regular(es[i])
    ensures Tokens(WrittenElements(es)) == TokensIn(es)
    decreases |es|
  {
    var item, text := WrittenElement(es[0]), WrittenElements(es);
    var n := |item|;
    ElementKept(es[0]);
    assert text[0..] == text && text[0..n] == item;
    if |es| == 1 {
      assert es[1..] == [];
      TokensFrom(text, 0, n);
    } else {
      var rest := WrittenElements(es[1..]);
      assert text == item + ([0x2C] + rest) && text[n] == 0x2C && text[n + 1..] == rest;
      TokensFrom(text, 0, n);
      WrittenTokens(es[1..]);
    }
  }

  // ---- The server's header, possibly in several lines -------------------------------------------------

  /** `parseProtocolsHeader` on an array of header values, from a given loop state. */
  function ParsedParts(parts: seq<JsText>, totalLen: nat, out: seq<JsText>): Option<seq<JsText>>
    decreases |parts|
  {
    if parts == [] then Some(out)
    else if totalLen + |parts[0]| > MAX_HEADER then None
    else match Parsed(parts[0], MAX_HEADER, MAX_TOKENS - |out|)
      case None => None
      case Some(ts) =>
        if |out + ts| >= MAX_TOKENS then Some(out + ts)
        else ParsedParts(parts[1..], totalLen + |parts[0]|, out + ts)
  }

  method ParseProtocolsHeader(parts: seq<JsText>) returns (r: Option<seq<JsText>>)
    ensures r == ParsedParts(parts, 0, [])
  {
    var totalLen, out := 0, [];
    for i := 0 to |parts|
      invariant totalLen >= 0
      invariant ParsedParts(parts, 0, []) == ParsedParts(parts[i..], totalLen, out)
    {
      assert parts[i..][1..] == parts[i + 1..];
      totalLen := totalLen + |parts[i]|;
      if totalLen > MAX_HEADER { return None; }
      var tokens := CommaSeparatedTokens(parts[i], MAX_HEADER, MAX_TOKENS - |out|);
      if tokens.None? { return None; }
      out := out + tokens.value;
      if |out| >= MAX_TOKENS { return Some(out); }
    }
    return Some(out);
  }

  function AllTokens(parts: seq<JsText>): seq<JsText> {
    if parts == [] then [] else Tokens(parts[0]) + AllTokens(parts[1..])
  }

  /** The parser's answer if all lines counted: their tokens in order, unless they are too long in all,
      too many, or one is invalid. */
  function Specified(parts: seq<JsText>, totalLen: nat, out: seq<JsText>): Option<seq<JsText>> {
    var all := out + AllTokens(parts);
    if totalLen + TotalLength(parts) <= 4096 && AllValid(AllTokens(parts)) && |all| <= 32 then Some(all)
    else None
  }

  /** How many lines it takes to reach the token limit, starting from `count` tokens; all, if they do not. */
  function LinesRead(parts: seq<JsText>, count: nat): (n: nat)
    ensures n <= |parts|
    decreases |parts|
  {
    if parts == [] then 0
    else if count + |Tokens(parts[0])| >= 32 then 1
    else 1 + LinesRead(parts[1..], count + |Tokens(parts[0])|)
  }

  lemma SpecifiedOne(part: JsText, totalLen: nat, out: seq<JsText>)
    requires |out| < MAX_TOKENS && totalLen + |part| <= MAX_HEADER
    ensures var ts := Tokens(part);
            Parsed(part, MAX_HEADER, MAX_TOKENS - |out|) ==
            if AllValid(ts) && |out + ts| <= MAX_TOKENS then Some(ts) else None
  {
  }

  lemma SpecifiedCons(parts: seq<JsText>, totalLen: nat, out: seq<JsText>)
    requires parts != []
    ensures var part, ts := parts[0], Tokens(parts[0]);
            Specified(parts, totalLen, out) ==
            if AllValid(ts) then Specified(parts[1..], totalLen + |part|, out + ts) else None
  {
    var ts, rest := Tokens(parts[0]), AllTokens(parts[1..]);
    AllValidAppend(ts, rest);
    assert (out + ts) + rest == out + (ts + rest);
  }

  /** Too long or too many already, whatever follows. */
  lemma SpecifiedFails(parts: seq<JsText>, totalLen: nat, out: seq<JsText>)
    requires totalLen > MAX_HEADER || |out| > MAX_TOKENS
    ensures Specified(parts, totalLen, out) == None
  {
  }

  lemma {:induction false} PartsParsedFrom(parts: seq<JsText>, totalLen: nat, out: seq<JsText>)
    requires |out| < MAX_TOKENS && totalLen <= MAX_HEADER
    ensures ParsedParts(parts, totalLen, out) == Specified(parts[..LinesRead(parts, |out|)], totalLen, out)
    decreases |parts|
  {
    if parts == [] {
      assert out + [] == out;
    } else {
      var part, ts := parts[0], Tokens(parts[0]);
      var n := LinesRead(parts, |out|);
      var rest := parts[1..][..n - 1];
      var len, more := totalLen + |part|, out + ts;
      assert parts[..n][1..] == rest;
      SpecifiedCons(parts[..n], totalLen, out);
      if len > MAX_HEADER || |more| > MAX_TOKENS { SpecifiedFails(rest, len, more); }
      if len <= MAX_HEADER {
        SpecifiedOne(part, totalLen, out);
        if |more| < MAX_TOKENS {
          PartsParsedFrom(parts[1..], len, more);
        } else {
          assert rest == [] && more + [] == more;
        }
      }
    }
  }

  /** For every header, in any number of lines: the lines up to the one that reaches the token limit parse
      to their tokens, and to null exactly when they are too long in all, pass the limit instead of
      meeting it, or hold an invalid token. */
  lemma PartsParsed(parts: seq<JsText>)
    ensures ParsedParts(parts, 0, []) == Specified(parts[..LinesRead(parts, 0)], 0, [])
  {
    PartsParsedFrom(parts, 0, []);
  }

  lemma {:induction false} AllTokensAppend(a: seq<JsText>, b: seq<JsText>)
    ensures AllTokens(a + b) == AllTokens(a) + AllTokens(b)
  {
    if a == [] {
      assert a + b == b;
    } else {
      assert (a + b)[1..] == a[1..] + b;
      AllTokensAppend(a[1..], b);
      assert Tokens(a[0]) + (AllTokens(a[1..]) + AllTokens(b)) == Tokens(a[0]) + AllTokens(a[1..]) + AllTokens(b);
    }
  }

  /** Lines are left unread only once the limit has been reached. */
  lemma {:induction false} ReadToLimit(parts: seq<JsText>, count: nat)
    requires count < MAX_TOKENS
    ensures var n := LinesRead(parts, count);
            n < |parts| ==> count + |AllTokens(parts[..n])| >= MAX_TOKENS
    decreases |parts|
  {
    if parts != [] {
      var ts, n := Tokens(parts[0]), LinesRead(parts, count);
      assert parts[..n][1..] == parts[1..][..n - 1];
      if count + |ts| < MAX_TOKENS { ReadToLimit(parts[1..], count + |ts|); }
    }
  }

  /** The lines read, on their own, against all lines. */
  lemma MoreLines(first: seq<JsText>, rest: seq<JsText>)
    requires rest != [] ==> |AllTokens(first)| >= MAX_TOKENS
    ensures Specified(first, 0, []) == Specified(first + rest, 0, []) <==>
            || Specified(first, 0, []) == None
            || (AllTokens(rest) == [] && TotalLength(first + rest) <= MAX_HEADER)
  {
    var a, b := AllTokens(first), AllTokens(rest);
    AllTokensAppend(first, rest);
    TotalLengthAppend(first, rest);
    AllValidAppend(a, b);
    assert [] + a == a && [] + (a + b) == a + b;
    if b == [] { assert a + b == a; }
  }

  /** Ignoring the lines after the limit gives the answer for all lines if and only if the lines read are
      rejected anyway, or the others add no token and do not make the header too long. */
  lemma IgnoredLinesMatterExactly(parts: seq<JsText>)
    ensures var n := LinesRead(parts, 0);
            ParsedParts(parts, 0, []) == Specified(parts, 0, []) <==>
            || Specified(parts[..n], 0, []) == None
            || (AllTokens(parts[n..]) == [] && TotalLength(parts) <= 4096)
  {
    var n := LinesRead(parts, 0);
    assert parts[..n] + parts[n..] == parts;
    PartsParsed(parts);
    ReadToLimit(parts, 0);
    MoreLines(parts[..n], parts[n..]);
  }

  lemma AllValidAppend(a: seq<JsText>, b: seq<JsText>)
    ensures AllValid(a + b) <==> AllValid(a) && AllValid(b)
  {
    assert forall i :: 0 <= i < |a| ==> a[i] == (a + b)[i];
    assert forall i :: 0 <= i < |b| ==> b[i] == (a + b)[|a| + i];
  }
}
