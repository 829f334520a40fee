/** The If-None-Match scanner of server/range_server.js, against the weak comparison of section
    8.8.3.2 and the list of section 13.1.2 of RFC 9110. */
module EntityTags {
  import opened Prelude

  const QUOTE: CodeUnit := 0x22
  const STAR: CodeUnit := 0x2a
  const SLASH: CodeUnit := 0x2f
  const BACKSLASH: CodeUnit := 0x5c

  /** What String.prototype.trim removes. */
  predicate IsWhite(c: CodeUnit) {
    || 0x09 <= c <= 0x0D || c == 0x20 || c == 0xA0 || c == 0x1680 || 0x2000 <= c <= 0x200A
    || c == 0x2028 || c == 0x2029 || c == 0x202F || c == 0x205F || c == 0x3000 || c == 0xFEFF
  }

  function Trimmed(s: JsText): JsText {
    Trim(s, IsWhite)
  }

  /** `/^w\//i` removed. */
  function StripWeak(etag: JsText): JsText {
    var t := Trimmed(etag);
    if |t| >= 2 && (t[0] == 0x57 || t[0] == 0x77) && t[1] == SLASH then t[2..] else t
  }

  // ---- Cutting at commas outside quotes ---------------------------------------------------------

  /** `inQuotes` and `escaped` together. */
  datatype Quoting = Outside | Inside | Escaped

  function NextQuoting(q: Quoting, c: CodeUnit): Quoting {
    match q
    case Escaped => Inside
    case Inside => if c == BACKSLASH then Escaped else if c == QUOTE then Outside else Inside
    case Outside => if c == QUOTE then Inside else Outside
  }

  function Scan(s: JsText, q: Quoting): Quoting {
    if s == [] then q else Scan(s[1..], NextQuoting(q, s[0]))
  }

  /** The pieces the scanner looks at; `cur` is the piece under way. */
  function Cut(s: JsText, cur: JsText, q: Quoting): (pieces: seq<JsText>)
    ensures pieces != []
    decreases |s|
  {
    if s == [] then [cur]
    else if s[0] == COMMA && q == Outside then [cur] + Cut(s[1..], [], Outside)
    else Cut(s[1..], cur + [s[0]], NextQuoting(q, s[0]))
  }

  predicate PieceMatches(piece: JsText, current: JsText) {
    Trimmed(piece) == [STAR] || (Trimmed(piece) != [] && StripWeak(Trimmed(piece)) == current)
  }

  predicate AnyMatches(pieces: seq<JsText>, current: JsText) {
    exists i :: 0 <= i < |pieces| && PieceMatches(pieces[i], current)
  }

  /** What `ifNoneMatchMatches` answers: "" and "*" need no case of their own. */
  predicate Matches(ifNoneMatch: JsText, currentEtag: JsText) {
    AnyMatches(Cut(Trimmed(ifNoneMatch), [], Outside), StripWeak(currentEtag))
  }

  lemma MatchCons(piece: JsText, rest: seq<JsText>, current: JsText)
    ensures AnyMatches([piece] + rest, current) <==> PieceMatches(piece, current) || AnyMatches(rest, current)
  {
    var all := [piece] + rest;
    assert all[0] == piece && forall i :: 0 <= i < |rest| ==> rest[i] == all[i + 1];
    if AnyMatches(rest, current) {
      var i :| 0 <= i < |rest| && PieceMatches(rest[i], current);
      assert all[i + 1] == rest[i];
    }
  }

  method IfNoneMatchMatches(ifNoneMatch: JsText, currentEtag: JsText) returns (r: bool)
    ensures r <==> Matches(ifNoneMatch, currentEtag)
  {
    var raw := Trimmed(ifNoneMatch);
    var current := StripWeak(currentEtag);
    ShortHeaders(current);
    if raw == [] { return false; }
    if raw == [STAR] { return true; }
    var start, q, i := 0, Outside, 0;
    assert raw[0..] == raw && raw[0..0] == [];
    while i < |raw|
      invariant 0 <= start <= i <= |raw|
      invariant Matches(ifNoneMatch, currentEtag) <==> AnyMatches(Cut(raw[i..], raw[start..i], q), current)
    {
      assert raw[i..][1..] == raw[i + 1..] && raw[start..i] + [raw[i]] == raw[start..i + 1];
      if raw[i] == COMMA && q == Outside {
        MatchCons(raw[start..i], Cut(raw[i + 1..], [], Outside), current);
        if Accepts(raw[start..i], current) { return true; }
        start := i + 1;
        assert raw[i + 1..i + 1] == [];
      } else {
        q := NextQuoting(q, raw[i]);
      }
      i := i + 1;
    }
    assert raw[|raw|..] == [] && raw[start..|raw|] == raw[start..];
    MatchCons(raw[start..], [], current);
    assert [raw[start..]] + [] == [raw[start..]];
    return Accepts(raw[start..], current);
  }

  predicate Accepts(piece: JsText, current: JsText)
    ensures Accepts(piece, current) <==> PieceMatches(piece, current)
  {
    var tag := Trimmed(piece);
    if tag == [STAR] then true else tag != [] && StripWeak(tag) == current
  }

  lemma ShortHeaders(current: JsText)
    ensures !AnyMatches(Cut([], [], Outside), current)
    ensures AnyMatches(Cut([STAR], [], Outside), current)
  {
    assert Trimmed([]) == [] && Trimmed([STAR]) == [STAR];
    assert [STAR][1..] == [] && [] + [STAR] == [STAR];
    assert Cut([STAR], [], Outside) == [[STAR]];
    assert PieceMatches([[STAR]][0], current);
  }

  // ---- Lists of tags ------------------------------------------------------------------------------

  datatype Prefix = Strong | WeakUpper | WeakLower

  datatype Tag = Tag(prefix: Prefix, text: JsText)

  function RenderPrefix(p: Prefix): JsText {
    match p case Strong => [] case WeakUpper => [0x57, SLASH] case WeakLower => [0x77, SLASH]
  }

  function Quoted(text: JsText): JsText {
    [QUOTE] + text + [QUOTE]
  }

  function RenderTag(t: Tag): JsText {
    RenderPrefix(t.prefix) + Quoted(t.text)
  }

  /** A list element: possibly empty, with white space around it. */
  datatype Item = Item(before: JsText, tag: Option<Tag>, after: JsText)

  function RenderItem(it: Item): JsText {
    it.before + (match it.tag case None => [] case Some(t) => RenderTag(t)) + it.after
  }

  function RenderList(items: seq<Item>): JsText
    requires items != []
  {
    if |items| == 1 then RenderItem(items[0]) else RenderItem(items[0]) + [COMMA] + RenderList(items[1..])
  }

  predicate Proper(it: Item) {
    && AllBlank(it.before, IsWhite) && AllBlank(it.after, IsWhite)
    && (it.tag.Some? ==> QUOTE !in it.tag.value.text)
  }

  /** How many backslashes (0x5C) a text ends in. */
  function FinalBackslashes(text: JsText): nat {
    if text == [] || text[|text| - 1] != 0x5C then 0 else 1 + FinalBackslashes(text[..|text| - 1])
  }

  /** No odd run of backslashes in front of the closing quote. */
  predicate Balanced(it: Item) {
    it.tag.Some? ==> FinalBackslashes(it.tag.value.text) % 2 == 0
  }

  // ---- Cutting and concatenation -----------------------------------------------------------------

  /** No comma of `s` is seen outside quotes. */
  predicate Uncut(s: JsText, q: Quoting) {
    s == [] || (!(s[0] == COMMA && q == Outside) && Uncut(s[1..], NextQuoting(q, s[0])))
  }

  lemma {:induction false} CutThrough(s: JsText, rest: JsText, cur: JsText, q: Quoting)
    requires Uncut(s, q)
    ensures Cut(s + rest, cur, q) == Cut(rest, cur + s, Scan(s, q))
    decreases |s|
  {
    if s == [] {
      assert s + rest == rest && cur + s == cur;
    } else {
      assert (s + rest)[1..] == s[1..] + rest;
      assert (cur + [s[0]]) + s[1..] == cur + s;
      CutThrough(s[1..], rest, cur + [s[0]], NextQuoting(q, s[0]));
    }
  }

  lemma {:induction false} UncutAppend(a: JsText, b: JsText, q: Quoting)
    ensures Uncut(a + b, q) <==> Uncut(a, q) && Uncut(b, Scan(a, q))
    ensures Scan(a + b, q) == Scan(b, Scan(a, q))
  {
    if a == [] {
      assert a + b == b;
    } else {
      assert (a + b)[1..] == a[1..] + b;
      UncutAppend(a[1..], b, NextQuoting(q, a[0]));
    }
  }

  lemma {:induction false} ScanWhite(s: JsText, q: Quoting)
    requires AllBlank(s, IsWhite) && q != Escaped
    ensures Uncut(s, q) && Scan(s, q) == q
  {
    if s != [] { ScanWhite(s[1..], q); }
  }

  lemma {:induction false} ScanText(text: JsText, q: Quoting)
    requires QUOTE !in text && q != Outside
    ensures Uncut(text, q) && Scan(text, q) != Outside
  {
    if text != [] { ScanText(text[1..], NextQuoting(q, text[0])); }
  }

  /** The quote after a text is read as a closing quote unless an odd run of backslashes is in front of it. */
  lemma {:induction false} ScanCountsBackslashes(text: JsText)
    requires QUOTE !in text
    ensures Scan(text, Inside) == if FinalBackslashes(text) % 2 == 0 then Inside else Escaped
  {
    if text != [] {
      var init, last := text[..|text| - 1], text[|text| - 1];
      ScanCountsBackslashes(init);
      assert text == init + [last] && [last][1..] == [];
      UncutAppend(init, [last], Inside);
    }
  }

  lemma ScanTag(t: Tag)
    requires QUOTE !in t.text
    ensures Uncut(RenderTag(t), Outside)
    ensures Scan(RenderTag(t), Outside) == if FinalBackslashes(t.text) % 2 == 0 then Outside else Inside
  {
    var p := RenderPrefix(t.prefix);
    assert Uncut(p, Outside) && Scan(p, Outside) == Outside by {
      if !t.prefix.Strong? {
        assert p[1..] == [SLASH] && [SLASH][1..] == [];
        assert Scan([SLASH], Outside) == Outside && Uncut([SLASH], Outside);
      }
    }
    UncutAppend(p, Quoted(t.text), Outside);
    UncutAppend([QUOTE] + t.text, [QUOTE], Outside);
    UncutAppend([QUOTE], t.text, Outside);
    assert [QUOTE][1..] == [];
    ScanText(t.text, Inside);
    ScanCountsBackslashes(t.text);
  }

  lemma ScanItem(it: Item)
    requires Proper(it)
    ensures Uncut(RenderItem(it), Outside)
    ensures Scan(RenderItem(it), Outside) == if Balanced(it) then Outside else Inside
  {
    var body := match it.tag case None => [] case Some(t) => RenderTag(t);
    UncutAppend(it.before + body, it.after, Outside);
    UncutAppend(it.before, body, Outside);
    ScanWhite(it.before, Outside);
    if it.tag.Some? { ScanTag(it.tag.value); }
    ScanWhite(it.after, Scan(body, Outside));
  }

  function RenderAll(items: seq<Item>): (r: seq<JsText>)
    ensures |r| == |items| && forall i :: 0 <= i < |items| ==> r[i] == RenderItem(items[i])
  {
    seq(|items|, i requires 0 <= i < |items| => RenderItem(items[i]))
  }

  predicate BalancedButLast(items: seq<Item>) {
    forall i :: 0 <= i < |items| - 1 ==> Balanced(items[i])
  }

  lemma {:induction false} FirstPieceGrows(s: JsText, cur: JsText, q: Quoting)
    ensures cur <= Cut(s, cur, q)[0]
    decreases |s|
  {
    if s != [] && !(s[0] == COMMA && q == Outside) {
      FirstPieceGrows(s[1..], cur + [s[0]], NextQuoting(q, s[0]));
    }
  }

  lemma BalancedCons(items: seq<Item>)
    requires |items| > 1
    ensures BalancedButLast(items) <==> Balanced(items[0]) && BalancedButLast(items[1..])
  {
    if BalancedButLast(items) {
      forall i | 0 <= i < |items[1..]| - 1 ensures Balanced(items[1..][i]) { assert items[1..][i] == items[i + 1]; }
    }
    if Balanced(items[0]) && BalancedButLast(items[1..]) {
      forall i | 0 <= i < |items| - 1 ensures Balanced(items[i]) {
        if i > 0 { assert items[i] == items[1..][i - 1]; }
      }
    }
  }

  lemma CutLast(it: Item)
    requires Proper(it)
    ensures Cut(RenderItem(it), [], Outside) == [RenderItem(it)]
  {
    var text := RenderItem(it);
    ScanItem(it);
    CutThrough(text, [], [], Outside);
    assert text + [] == text && [] + text == text;
  }

  /** A balanced element ends at its comma; any other swallows it. */
  lemma CutFirst(it: Item, rest: JsText)
    requires Proper(it)
    ensures var text := RenderItem(it);
            var pieces := Cut(text + ([COMMA] + rest), [], Outside);
            if Balanced(it) then pieces == [text] + Cut(rest, [], Outside) else |pieces[0]| > |text|
  {
    var text, tail := RenderItem(it), [COMMA] + rest;
    ScanItem(it);
    CutThrough(text, tail, [], Outside);
    assert [] + text == text && tail[0] == COMMA && tail[1..] == rest;
    if !Balanced(it) { FirstPieceGrows(rest, text + [COMMA], Inside); }
  }

  lemma Regrouped(first: JsText, rest: JsText)
    ensures first + [COMMA] + rest == first + ([COMMA] + rest)
  {
  }

  lemma SameTail(a: JsText, p: seq<JsText>, q: seq<JsText>)
    ensures [a] + p == [a] + q <==> p == q
  {
    assert ([a] + p)[1..] == p && ([a] + q)[1..] == q;
  }

  lemma CutsOnFrom(items: seq<Item>)
    requires |items| > 1 && forall i :: 0 <= i < |items| ==> Proper(items[i])
    ensures Cut(RenderList(items), [], Outside) == RenderAll(items) <==>
            Balanced(items[0]) && Cut(RenderList(items[1..]), [], Outside) == RenderAll(items[1..])
  {
    var first, rest := RenderItem(items[0]), RenderList(items[1..]);
    var pieces, all := Cut(RenderList(items), [], Outside), RenderAll(items);
    assert RenderList(items) == first + ([COMMA] + rest) by { Regrouped(first, rest); }
    assert all == [first] + RenderAll(items[1..]);
    CutFirst(items[0], rest);
    if Balanced(items[0]) {
      SameTail(first, Cut(rest, [], Outside), RenderAll(items[1..]));
    } else {
      assert pieces[0] != all[0];
    }
  }

  /** The scanner cuts a list exactly at its separating commas if and only if no element but the last
      has its closing quote escaped. Commas and spaces inside the quotes are no obstacle. */
  lemma {:induction false} CutsExactly(items: seq<Item>)
    requires items != [] && forall i :: 0 <= i < |items| ==> Proper(items[i])
    ensures Cut(RenderList(items), [], Outside) == RenderAll(items) <==> BalancedButLast(items)
  {
    if |items| == 1 {
      CutLast(items[0]);
      assert RenderAll(items) == [RenderItem(items[0])];
    } else {
      CutsExactly(items[1..]);
      BalancedCons(items);
      CutsOnFrom(items);
    }
  }

  // ---- Matching -------------------------------------------------------------------------------------

  lemma TrimTag(before: JsText, t: Tag, after: JsText)
    requires AllBlank(before, IsWhite) && AllBlank(after, IsWhite)
    ensures Trimmed(before + RenderTag(t) + after) == RenderTag(t)
  {
    TrimCore(before, RenderTag(t), after, IsWhite);
  }

  lemma StripTag(t: Tag)
    ensures StripWeak(RenderTag(t)) == Quoted(t.text)
    ensures Trimmed(RenderTag(t)) == RenderTag(t)
  {
    TrimTag([], t, []);
    assert [] + RenderTag(t) + [] == RenderTag(t);
    if !t.prefix.Strong? { assert RenderTag(t)[2..] == Quoted(t.text); }
    else { assert RenderTag(t) == Quoted(t.text); }
  }

  lemma QuotedInjective(a: JsText, b: JsText)
    ensures Quoted(a) == Quoted(b) <==> a == b
  {
    assert Quoted(a)[1..|Quoted(a)| - 1] == a && Quoted(b)[1..|Quoted(b)| - 1] == b;
  }

  /** Weak comparison of one element. */
  lemma ItemMatches(it: Item, current: Tag)
    requires Proper(it)
    ensures PieceMatches(RenderItem(it), StripWeak(RenderTag(current))) <==>
            it.tag.Some? && it.tag.value.text == current.text
  {
    StripTag(current);
    match it.tag
    case None =>
      TrimCore(it.before, [], it.after, IsWhite);
    case Some(t) =>
      TrimTag(it.before, t, it.after);
      StripTag(t);
      QuotedInjective(t.text, current.text);
      assert RenderTag(t)[0] == (if t.prefix.Strong? then QUOTE else RenderPrefix(t.prefix)[0]);
  }

  lemma {:induction false} CutLonger(s: JsText, pad: JsText, cur: JsText, q: Quoting)
    ensures Cut(s, pad + cur, q) == [pad + Cut(s, cur, q)[0]] + Cut(s, cur, q)[1..]
    decreases |s|
  {
    if s != [] && !(s[0] == COMMA && q == Outside) {
      assert pad + cur + [s[0]] == pad + (cur + [s[0]]);
      CutLonger(s[1..], pad, cur + [s[0]], NextQuoting(q, s[0]));
    }
  }

  lemma {:induction false} UncutWhite(s: JsText, q: Quoting)
    requires AllBlank(s, IsWhite)
    ensures Uncut(s, q)
  {
    if s != [] { UncutWhite(s[1..], NextQuoting(q, s[0])); }
  }

  lemma {:induction false} CutTrailing(s: JsText, pad: JsText, cur: JsText, q: Quoting)
    requires AllBlank(pad, IsWhite)
    ensures var p := Cut(s, cur, q); Cut(s + pad, cur, q) == p[..|p| - 1] + [p[|p| - 1] + pad]
    decreases |s|
  {
    if s == [] {
      UncutWhite(pad, q);
      CutThrough(pad, [], cur, q);
      assert pad + [] == pad && s + pad == pad;
    } else {
      assert (s + pad)[1..] == s[1..] + pad;
      if s[0] == COMMA && q == Outside {
        CutTrailing(s[1..], pad, [], Outside);
      } else {
        CutTrailing(s[1..], pad, cur + [s[0]], NextQuoting(q, s[0]));
      }
    }
  }

  lemma PadMatches(piece: JsText, pad: JsText, current: JsText)
    requires AllBlank(pad, IsWhite)
    ensures PieceMatches(pad + piece, current) <==> PieceMatches(piece, current)
    ensures PieceMatches(piece + pad, current) <==> PieceMatches(piece, current)
  {
    TrimLeftBlank(pad, piece, IsWhite);
    TrimPadRight(piece, pad);
  }

  lemma {:induction false} TrimPadRight(piece: JsText, pad: JsText)
    requires AllBlank(pad, IsWhite)
    ensures Trimmed(piece + pad) == Trimmed(piece)
  {
    if piece == [] {
      assert piece + pad == pad + [];
      TrimLeftBlank(pad, [], IsWhite);
    } else if IsWhite(piece[0]) {
      assert (piece + pad)[1..] == piece[1..] + pad;
      TrimPadRight(piece[1..], pad);
    } else {
      TrimRightBlank(piece, pad, IsWhite);
    }
  }

  lemma {:induction false} TrimLeftSplit(s: JsText) returns (a: JsText)
    ensures AllBlank(a, IsWhite) && s == a + TrimLeft(s, IsWhite)
  {
    a := [];
    if s != [] && IsWhite(s[0]) {
      a := TrimLeftSplit(s[1..]);
      a := [s[0]] + a;
      assert s == [s[0]] + s[1..];
    }
  }

  lemma {:induction false} TrimRightSplit(s: JsText) returns (b: JsText)
    ensures AllBlank(b, IsWhite) && s == TrimRight(s, IsWhite) + b
  {
    b := [];
    if s != [] && IsWhite(s[|s| - 1]) {
      b := TrimRightSplit(s[..|s| - 1]);
      b := b + [s[|s| - 1]];
      assert s == s[..|s| - 1] + [s[|s| - 1]];
    }
  }

  lemma LeadingWhiteIgnored(a: JsText, s: JsText, current: JsText)
    requires AllBlank(a, IsWhite)
    ensures AnyMatches(Cut(a + s, [], Outside), current) <==> AnyMatches(Cut(s, [], Outside), current)
  {
    ScanWhite(a, Outside);
    CutThrough(a, s, [], Outside);
    CutLonger(s, a, [], Outside);
    assert [] + a == a && a + [] == a;
    var p := Cut(s, [], Outside);
    PadMatches(p[0], a, current);
    MatchCons(p[0], p[1..], current);
    MatchCons(a + p[0], p[1..], current);
    assert p == [p[0]] + p[1..];
  }

  lemma MatchLast(init: seq<JsText>, piece: JsText, current: JsText)
    ensures AnyMatches(init + [piece], current) <==> AnyMatches(init, current) || PieceMatches(piece, current)
  {
    var all := init + [piece];
    assert all[|init|] == piece && forall i :: 0 <= i < |init| ==> init[i] == all[i];
    if AnyMatches(init, current) {
      var i :| 0 <= i < |init| && PieceMatches(init[i], current);
      assert all[i] == init[i];
    }
  }

  lemma TrailingWhiteIgnored(s: JsText, b: JsText, current: JsText)
    requires AllBlank(b, IsWhite)
    ensures AnyMatches(Cut(s + b, [], Outside), current) <==> AnyMatches(Cut(s, [], Outside), current)
  {
    var p := Cut(s, [], Outside);
    var init, last := p[..|p| - 1], p[|p| - 1];
    assert p == init + [last];
    assert Cut(s + b, [], Outside) == init + [last + b] by { CutTrailing(s, b, [], Outside); }
    PadMatches(last, b, current);
    MatchLast(init, last, current);
    MatchLast(init, last + b, current);
  }

  /** Trimming the header first makes no difference to the answer. */
  lemma TrimIgnored(s: JsText, current: JsText)
    ensures AnyMatches(Cut(Trimmed(s), [], Outside), current) <==> AnyMatches(Cut(s, [], Outside), current)
  {
    var a := TrimLeftSplit(s);
    var t := TrimLeft(s, IsWhite);
    var b := TrimRightSplit(t);
    LeadingWhiteIgnored(a, t, current);
    TrailingWhiteIgnored(Trimmed(s), b, current);
  }

  /** For every list whose separating commas the scanner can see, the answer is exactly whether some
      element weakly equals the current tag. */
  lemma MatchesExactly(items: seq<Item>, current: Tag)
    requires items != [] && forall i :: 0 <= i < |items| ==> Proper(items[i])
    requires BalancedButLast(items)
    ensures Matches(RenderList(items), RenderTag(current)) <==>
            exists i :: 0 <= i < |items| && items[i].tag.Some? && items[i].tag.value.text == current.text
  {
    TrimIgnored(RenderList(items), StripWeak(RenderTag(current)));
    CutsExactly(items);
    var pieces := RenderAll(items);
    forall i | 0 <= i < |items|
      ensures PieceMatches(pieces[i], StripWeak(RenderTag(current))) <==>
              items[i].tag.Some? && items[i].tag.value.text == current.text
    {
      ItemMatches(items[i], current);
    }
    if i :| 0 <= i < |items| && items[i].tag.Some? && items[i].tag.value.text == current.text {
      assert PieceMatches(pieces[i], StripWeak(RenderTag(current)));
    }
  }

  lemma PlainTextIsBalanced(text: JsText)
    requires BACKSLASH !in text && QUOTE !in text
    ensures FinalBackslashes(text) == 0 && Scan(text, Inside) == Inside
  {
    ScanCountsBackslashes(text);
  }

  /** In particular for texts without quotes and backslashes, whatever commas and spaces they hold. */
  lemma PlainListsMatchExactly(items: seq<Item>, current: Tag)
    requires items != [] && forall i :: 0 <= i < |items| ==> Proper(items[i])
    requires forall i :: 0 <= i < |items| && items[i].tag.Some? ==> BACKSLASH !in items[i].tag.value.text
    ensures Matches(RenderList(items), RenderTag(current)) <==>
            exists i :: 0 <= i < |items| && items[i].tag.Some? && items[i].tag.value.text == current.text
  {
    forall i | 0 <= i < |items| ensures Balanced(items[i]) {
      if items[i].tag.Some? { PlainTextIsBalanced(items[i].tag.value.text); }
    }
    MatchesExactly(items, current);
  }

  lemma {:induction false} UncutOutside(text: JsText)
    requires QUOTE !in text && COMMA !in text
    ensures Uncut(text, Outside) && Scan(text, Outside) == Outside
  {
    if text != [] { UncutOutside(text[1..]); }
  }

  lemma HiddenHeader(text: JsText, next: JsText)
    requires QUOTE !in text && FinalBackslashes(text) % 2 == 1
    requires QUOTE !in next && COMMA !in next
    ensures var header := Quoted(text) + [COMMA] + Quoted(next); Cut(header, [], Outside) == [header]
  {
    var first, second := Quoted(text), Quoted(next);
    assert Uncut(first, Outside) && Scan(first, Outside) == Inside by {
      ScanTag(Tag(Strong, text));
      assert RenderTag(Tag(Strong, text)) == first;
    }
    assert Uncut(second, Inside) by {
      UncutAppend([QUOTE], next, Inside);
      UncutAppend([QUOTE] + next, [QUOTE], Inside);
      assert [QUOTE][1..] == [];
      UncutOutside(next);
    }
    UncutAppend(first, [COMMA], Outside);
    assert [COMMA][1..] == [];
    UncutAppend(first + [COMMA], second, Outside);
    var header := first + [COMMA] + second;
    CutThrough(header, [], [], Outside);
    assert header + [] == header && [] + header == header;
  }

  /** A backslash is an ordinary character of an entity tag, yet one that ends in an odd run of them
      hides the next tag from the scanner: `"a\","b"` is not seen to contain `"b"`. */
  lemma EscapedQuoteHidesNext(text: JsText, next: JsText)
    requires QUOTE !in text && FinalBackslashes(text) % 2 == 1
    requires QUOTE !in next && COMMA !in next
    ensures !Matches(Quoted(text) + [COMMA] + Quoted(next), Quoted(next))
  {
    var header := Quoted(text) + [COMMA] + Quoted(next);
    HiddenHeader(text, next);
    StripTag(Tag(Strong, next));
    assert RenderTag(Tag(Strong, next)) == Quoted(next);
    assert Trimmed(header) == header by {
      assert [] + header + [] == header;
      TrimCore([], header, [], IsWhite);
    }
    assert StripWeak(header) == header;
    assert !PieceMatches(header, Quoted(next)) by { assert |header| > |Quoted(next)|; }
  }

  // ---- The same in plain characters -----------------------------------------------------------------

  /** Spaces (0x20) and tabs (0x09), in any number. */
  predicate Gap(s: JsText) {
    forall i :: 0 <= i < |s| ==> s[i] == 0x20 || s[i] == 0x09
  }

  /** A tag as section 8.8.3 of RFC 9110 writes it, `W/` included if it is weak. */
  function WrittenTag(weak: bool, text: JsText): JsText {
    (if weak then [0x57, 0x2F] else []) + ([0x22] + text + [0x22])
  }

  datatype Entry = Entry(before: JsText, weak: bool, text: JsText, after: JsText)

  function WrittenEntry(e: Entry): JsText {
    e.before + WrittenTag(e.weak, e.text) + e.after
  }

  function WrittenList(es: seq<Entry>): JsText
    requires es != []
  {
    if |es| == 1 then WrittenEntry(es[0]) else WrittenEntry(es[0]) + [0x2C] + WrittenList(es[1..])
  }

  function ItemOf(e: Entry): Item {
    Item(e.before, Some(Tag(if e.weak then WeakUpper else Strong, e.text)), e.after)
  }

  function ItemsOf(es: seq<Entry>): (items: seq<Item>)
    ensures |items| == |es| && forall i :: 0 <= i < |es| ==> items[i] == ItemOf(es[i])
  {
    seq(|es|, i requires 0 <= i < |es| => ItemOf(es[i]))
  }

  lemma {:induction false} WrittenIsRendered(es: seq<Entry>)
    requires es != []
    ensures WrittenList(es) == RenderList(ItemsOf(es))
  {
    assert WrittenEntry(es[0]) == RenderItem(ItemOf(es[0]));
    if |es| > 1 {
      WrittenIsRendered(es[1..]);
      assert ItemsOf(es)[1..] == ItemsOf(es[1..]);
    }
  }

  /** For every list of strong and weak tags without quotes and backslashes, separated by commas with any
      spaces and tabs around them: the scanner answers whether some tag of the list has the text of the
      current one, whichever of the two are weak. */
  lemma {:induction false} WrittenListsMatchExactly(es: seq<Entry>, weak: bool, text: JsText)
    requires es != []
    requires forall i :: 0 <= i < |es| ==>
               Gap(es[i].before) && Gap(es[i].after) && 0x22 !in es[i].text && 0x5C !in es[i].text
    ensures Matches(WrittenList(es), WrittenTag(weak, text)) <==> exists i :: 0 <= i < |es| && es[i].text == text
  {
    var items, current := ItemsOf(es), Tag(if weak then WeakUpper else Strong, text);
    WrittenIsRendered(es);
    assert WrittenTag(weak, text) == RenderTag(current);
    assert forall i :: 0 <= i < |items| ==> Proper(items[i]);
    PlainListsMatchExactly(items, current);
    if i :| 0 <= i < |es| && es[i].text == text { assert items[i].tag.Some?; }
  }

  /** The header `*` matches every tag, and a header of white space none. */
  lemma StarAndBlank(gap: JsText, after: JsText, current: JsText)
    requires Gap(gap) && Gap(after)
    ensures Matches(gap + [0x2A] + after, current) && !Matches(gap, current)
  {
    TrimCore(gap, [0x2A], after, IsWhite);
    TrimCore(gap, [], [], IsWhite);
    assert gap + [] + [] == gap;
    ShortHeaders(StripWeak(current));
  }

  /** What `trim` removes, character by character. */
  lemma TrimRemovesExactly(c: CodeUnit)
    ensures Trimmed([c]) == [] <==>
            || 9 <= c <= 13 || c == 32 || c == 160 || c == 5760 || 8192 <= c <= 8202 || c == 8232 || c == 8233
            || c == 8239 || c == 8287 || c == 12288 || c == 65279
  {
    var none: JsText := [];
    assert [c][1..] == none && TrimLeft(none, IsWhite) == none && TrimRight(none, IsWhite) == none;
    assert TrimLeft([c], IsWhite) == if IsWhite(c) then none else [c];
    assert !IsWhite(c) ==> TrimRight([c], IsWhite) == [c];
  }

  /** A weak prefix, `W/` or `w/`, is ignored, even in front of nothing. */
  lemma WeakPrefixIgnored(w: CodeUnit, t: JsText)
    requires (w == 0x57 || w == 0x77) && (t != [] ==> !IsWhite(t[|t| - 1]))
    ensures StripWeak([w, 0x2F] + t) == t
  {
    var tag := [w, 0x2F] + t;
    TrimCore([], tag, [], IsWhite);
    assert [] + tag + [] == tag && tag[2..] == t;
  }
}
