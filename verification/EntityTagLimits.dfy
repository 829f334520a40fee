/** Exactly which If-None-Match lists the scanner of server/range_server.js reads correctly. */
module EntityTagLimits {
  import opened Prelude
  import opened EntityTags

  predicate Lists(items: seq<Item>, text: JsText) {
    exists i :: 0 <= i < |items| && items[i].tag.Some? && items[i].tag.value.text == text
  }

  predicate AllProper(items: seq<Item>) {
    items != [] && forall i :: 0 <= i < |items| ==> Proper(items[i])
  }

  /** The scanner's answer for `current` is the weak comparison's. */
  predicate Answers(items: seq<Item>, current: Tag)
    requires items != []
  {
    Matches(RenderList(items), RenderTag(current)) <==> Lists(items, current.text)
  }

  function Last<T>(s: seq<T>): T
    requires s != []
  {
    s[|s| - 1]
  }

  // ---- Pieces that cannot be a tag whose closing quote is escaped ------------------------------------

  predicate TwoQuotes(p: JsText, x: int, y: int) {
    0 <= x < y < |p| && p[x] == QUOTE && p[y] == QUOTE
  }

  /** Some later quote has no backslash before it, or something visible after it. */
  ghost predicate Spoiled(p: JsText) {
    exists x, y :: TwoQuotes(p, x, y) && (p[y - 1] != BACKSLASH || exists c :: y < c < |p| && !IsWhite(p[c]))
  }

  ghost predicate OneQuote(p: JsText) {
    forall x, y :: !TwoQuotes(p, x, y)
  }

  lemma SpoiledGrows(p: JsText, q: JsText)
    requires Spoiled(p)
    ensures Spoiled(p + q)
  {
    var x, y :| TwoQuotes(p, x, y) && (p[y - 1] != BACKSLASH || exists c :: y < c < |p| && !IsWhite(p[c]));
    assert TwoQuotes(p + q, x, y) && (p + q)[y - 1] == p[y - 1];
    if c :| y < c < |p| && !IsWhite(p[c]) { assert (p + q)[c] == p[c]; }
  }

  lemma {:induction false} EndsEscaped(text: JsText)
    requires QUOTE !in text && Scan(text, Inside) != Inside
    ensures text != [] && Last(text) == BACKSLASH
  {
    ScanText(text, Inside);
    if text != [] {
      var init := text[..|text| - 1];
      assert text == init + [Last(text)];
      UncutAppend(init, [Last(text)], Inside);
      assert [Last(text)][1..] == [];
    }
  }

  /** A piece that matches a tag is that tag with white space around it. */
  lemma PieceIsItem(p: JsText, text: JsText) returns (it: Item)
    requires StripWeak(Trimmed(p)) == Quoted(text)
    ensures RenderItem(it) == p && it.tag.Some? && it.tag.value.text == text
    ensures AllBlank(it.before, IsWhite) && AllBlank(it.after, IsWhite)
  {
    var a, u, b := TrimSplit(p);
    var c, v, d := TrimSplit(u);
    var tag := Tag(if v == Quoted(text) then Strong else if v[0] == 0x57 then WeakUpper else WeakLower, text);
    assert v == RenderTag(tag) by {
      if v != Quoted(text) { assert v == v[..2] + v[2..]; }
    }
    it := Item(a + c, Some(tag), d + b);
    assert a + (c + v + d) + b == (a + c) + v + (d + b);
  }

  lemma TrimSplit(s: JsText) returns (a: JsText, t: JsText, b: JsText)
    ensures t == Trimmed(s) && s == a + t + b && AllBlank(a, IsWhite) && AllBlank(b, IsWhite)
  {
    a := TrimLeftSplit(s);
    b := TrimRightSplit(TrimLeft(s, IsWhite));
    t := Trimmed(s);
    assert a + (t + b) == a + t + b;
  }

  lemma SpoiledIsNoTag(p: JsText, text: JsText)
    requires QUOTE !in text && text != [] && Last(text) == BACKSLASH
    requires Spoiled(p) || OneQuote(p)
    ensures StripWeak(Trimmed(p)) != Quoted(text)
  {
    if StripWeak(Trimmed(p)) == Quoted(text) {
      var it := PieceIsItem(p, text);
      QuotesOfItem(it);
    }
  }

  lemma QuotesOfItem(it: Item)
    requires it.tag.Some? && AllBlank(it.before, IsWhite) && AllBlank(it.after, IsWhite)
    requires var text := it.tag.value.text; QUOTE !in text && text != [] && Last(text) == BACKSLASH
    ensures !Spoiled(RenderItem(it)) && !OneQuote(RenderItem(it))
  {
    var prefix, text := RenderPrefix(it.tag.value.prefix), it.tag.value.text;
    WhiteIsPlain(it.before);
    Regroup(it.before, prefix, Quoted(text), it.after);
    QuotesOfTag(it.before + prefix, text, it.after);
  }

  lemma Regroup(a: JsText, b: JsText, c: JsText, d: JsText)
    ensures a + (b + c) + d == (a + b) + c + d
  {
  }

  lemma QuotesOfTag(head: JsText, text: JsText, after: JsText)
    requires QUOTE !in text && QUOTE !in head && text != [] && Last(text) == BACKSLASH && AllBlank(after, IsWhite)
    ensures var p := head + Quoted(text) + after; !Spoiled(p) && !OneQuote(p)
  {
    var p := head + Quoted(text) + after;
    var first, second := |head|, |head| + |text| + 1;
    assert forall k :: 0 <= k < |text| ==> p[first + 1 + k] == text[k];
    assert p[first] == QUOTE && p[second] == QUOTE && p[second - 1] == BACKSLASH;
    assert TwoQuotes(p, first, second);
    assert forall k :: second < k < |p| ==> p[k] == after[k - second - 1];
    assert forall k :: 0 <= k < |p| && p[k] == QUOTE ==> k == first || k == second;
  }

  // ---- The last piece, once an escaped quote has put the scanner out of step ---------------------------

  /** What the piece under way looks like between two elements. */
  ghost predicate Astray(cur: JsText) {
    QUOTE in cur && (Spoiled(cur) || OneQuote(cur))
  }

  lemma AstrayGrows(cur: JsText, more: JsText)
    requires Astray(cur) && QUOTE !in more
    ensures Astray(cur + more)
  {
    if Spoiled(cur) {
      SpoiledGrows(cur, more);
    } else {
      forall x, y ensures !TwoQuotes(cur + more, x, y) {
        assert !TwoQuotes(cur, x, y);
      }
    }
  }

  /** The next opening quote is taken for a closing one. */
  lemma OpeningSpoils(cur: JsText, more: JsText)
    requires Astray(cur) && QUOTE !in more && BACKSLASH !in more && Last(cur) == COMMA
    ensures Spoiled(cur + more + [QUOTE])
  {
    var before := cur + more;
    AstrayGrows(cur, more);
    if Spoiled(before) {
      SpoiledGrows(before, [QUOTE]);
    } else {
      var x :| 0 <= x < |cur| && cur[x] == QUOTE;
      var p := before + [QUOTE];
      assert Last(before) == if more == [] then Last(cur) else Last(more);
      assert p[x] == QUOTE && p[|before|] == QUOTE && p[|before| - 1] == Last(before);
      assert TwoQuotes(p, x, |before|);
    }
  }

  /** The text is then read outside quotes, and may be cut anywhere. */
  lemma {:induction false} TextAstray(text: JsText, rest: JsText, cur: JsText) returns (cur': JsText)
    requires QUOTE !in text
    ensures Last(Cut(text + rest, cur, Outside)) == Last(Cut(rest, cur', Outside))
    ensures Spoiled(cur) ==> Spoiled(cur') || QUOTE !in cur'
    ensures QUOTE !in cur ==> QUOTE !in cur'
    decreases |text|
  {
    if text == [] {
      cur' := cur;
      assert text + rest == rest;
    } else {
      assert (text + rest)[1..] == text[1..] + rest;
      if text[0] == COMMA {
        cur' := TextAstray(text[1..], rest, []);
      } else {
        if Spoiled(cur) { SpoiledGrows(cur, [text[0]]); }
        cur' := TextAstray(text[1..], rest, cur + [text[0]]);
      }
    }
  }

  /** And its closing quote is taken for an opening one. */
  lemma ClosingAstray(cur: JsText)
    requires Spoiled(cur) || QUOTE !in cur
    ensures Astray(cur + [QUOTE])
  {
    var p := cur + [QUOTE];
    assert p[|cur|] == QUOTE;
    if Spoiled(cur) {
      SpoiledGrows(cur, [QUOTE]);
    } else {
      assert forall x :: 0 <= x < |cur| ==> p[x] == cur[x];
    }
  }

  lemma PlainInside(s: JsText, rest: JsText, cur: JsText)
    requires QUOTE !in s && BACKSLASH !in s
    ensures Cut(s + rest, cur, Inside) == Cut(rest, cur + s, Inside)
  {
    PlainTextIsBalanced(s);
    ScanText(s, Inside);
    CutThrough(s, rest, cur, Inside);
  }

  lemma OneQuoteRead(rest: JsText, cur: JsText, q: Quoting)
    requires q != Escaped
    ensures Cut([QUOTE] + rest, cur, q) == Cut(rest, cur + [QUOTE], if q == Inside then Outside else Inside)
  {
    assert ([QUOTE] + rest)[1..] == rest;
  }

  lemma TagAstray(t: Tag, rest: JsText, cur: JsText) returns (cur': JsText)
    requires QUOTE !in t.text && Astray(cur + RenderPrefix(t.prefix)) && Spoiled(cur + RenderPrefix(t.prefix) + [QUOTE])
    ensures Last(Cut(RenderTag(t) + rest, cur, Inside)) == Last(Cut(rest, cur', Inside)) && Astray(cur')
  {
    var pre := RenderPrefix(t.prefix);
    var tail := [QUOTE] + rest;
    assert RenderTag(t) + rest == pre + ([QUOTE] + (t.text + tail));
    PlainInside(pre, [QUOTE] + (t.text + tail), cur);
    OneQuoteRead(t.text + tail, cur + pre, Inside);
    var mid := TextAstray(t.text, tail, cur + pre + [QUOTE]);
    OneQuoteRead(rest, mid, Outside);
    ClosingAstray(mid);
    cur' := mid + [QUOTE];
  }

  lemma WhiteIsPlain(s: JsText)
    requires AllBlank(s, IsWhite)
    ensures QUOTE !in s && BACKSLASH !in s
  {
  }

  lemma BeforeTag(cur: JsText, before: JsText, prefix: Prefix)
    requires AllBlank(before, IsWhite) && Astray(cur) && Last(cur) == COMMA
    ensures var inner := cur + before + RenderPrefix(prefix); Astray(inner) && Spoiled(inner + [QUOTE])
  {
    WhiteIsPlain(before);
    var more := before + RenderPrefix(prefix);
    assert cur + before + RenderPrefix(prefix) == cur + more;
    AstrayGrows(cur, more);
    OpeningSpoils(cur, more);
  }

  lemma Rendered(it: Item, rest: JsText)
    ensures RenderItem(it) + rest ==
            it.before + ((match it.tag case None => [] case Some(t) => RenderTag(t)) + (it.after + rest))
  {
  }

  lemma BodyAstray(tag: Option<Tag>, before: JsText, rest: JsText, cur: JsText) returns (cur': JsText)
    requires AllBlank(before, IsWhite) && (tag.Some? ==> QUOTE !in tag.value.text) && Astray(cur) && Last(cur) == COMMA
    ensures var body := match tag case None => [] case Some(t) => RenderTag(t);
            Last(Cut(body + rest, cur + before, Inside)) == Last(Cut(rest, cur', Inside)) && Astray(cur')
  {
    match tag
    case None =>
      WhiteIsPlain(before);
      AstrayGrows(cur, before);
      cur' := cur + before;
      assert [] + rest == rest;
    case Some(t) =>
      BeforeTag(cur, before, t.prefix);
      cur' := TagAstray(t, rest, cur + before);
  }

  lemma ItemAstray(it: Item, rest: JsText, cur: JsText) returns (cur': JsText)
    requires Proper(it) && Astray(cur) && Last(cur) == COMMA
    ensures Last(Cut(RenderItem(it) + rest, cur, Inside)) == Last(Cut(rest, cur', Inside)) && Astray(cur')
  {
    var body := match it.tag case None => [] case Some(t) => RenderTag(t);
    var mid := it.after + rest;
    WhiteIsPlain(it.before);
    WhiteIsPlain(it.after);
    Rendered(it, rest);
    PlainInside(it.before, body + mid, cur);
    var inner := BodyAstray(it.tag, it.before, mid, cur);
    PlainInside(it.after, rest, inner);
    AstrayGrows(inner, it.after);
    cur' := inner + it.after;
  }

  lemma {:induction false} LastPieceAstray(items: seq<Item>, cur: JsText)
    requires AllProper(items) && Astray(cur) && Last(cur) == COMMA
    ensures Astray(Last(Cut(RenderList(items), cur, Inside)))
    decreases |items|
  {
    if |items| == 1 {
      assert RenderItem(items[0]) + [] == RenderItem(items[0]);
      var cur' := ItemAstray(items[0], [], cur);
    } else {
      var rest := RenderList(items[1..]);
      Regrouped(RenderItem(items[0]), rest);
      var cur' := ItemAstray(items[0], [COMMA] + rest, cur);
      PlainInside([COMMA], rest, cur');
      AstrayGrows(cur', [COMMA]);
      LastPieceAstray(items[1..], cur' + [COMMA]);
    }
  }

  lemma TagAndComma(pre: JsText, text: JsText, after: JsText)
    ensures Astray(pre + (Quoted(text) + (after + [COMMA])))
  {
    var p := pre + (Quoted(text) + (after + [COMMA]));
    var x, y := |pre|, |pre| + |text| + 1;
    assert p[x] == Quoted(text)[0] && p[y] == Quoted(text)[|text| + 1];
    assert TwoQuotes(p, x, y) && p[|p| - 1] == COMMA;
  }

  lemma UnbalancedIsAstray(it: Item)
    requires Proper(it) && !Balanced(it)
    ensures Astray(RenderItem(it) + [COMMA])
  {
    var t := it.tag.value;
    var pre, text, end := it.before + RenderPrefix(t.prefix), Quoted(t.text), it.after + [COMMA];
    Rendered(it, [COMMA]);
    assert RenderTag(t) + end == RenderPrefix(t.prefix) + (text + end);
    assert RenderItem(it) + [COMMA] == pre + (text + end);
    TagAndComma(pre, t.text, it.after);
  }

  lemma {:induction false} LastPieceSpoiled(items: seq<Item>)
    requires AllProper(items) && !BalancedButLast(items)
    ensures Astray(Last(Cut(RenderList(items), [], Outside)))
  {
    var first, rest := RenderItem(items[0]), RenderList(items[1..]);
    BalancedCons(items);
    Regrouped(first, rest);
    if Balanced(items[0]) {
      CutFirst(items[0], rest);
      LastPieceSpoiled(items[1..]);
    } else {
      ScanItem(items[0]);
      CutThrough(first, [COMMA] + rest, [], Outside);
      assert [] + first == first;
      PlainInside([COMMA], rest, first);
      UnbalancedIsAstray(items[0]);
      LastPieceAstray(items[1..], first + [COMMA]);
    }
  }

  // ---- The other pieces -----------------------------------------------------------------------------

  /** A cut is made outside quotes only, so every piece but the last ends outside them. */
  lemma {:induction false} PiecesEndOutside(s: JsText, cur: JsText, q: Quoting, i: nat)
    requires Scan(cur, Outside) == q && i < |Cut(s, cur, q)| - 1
    ensures Scan(Cut(s, cur, q)[i], Outside) == Outside
    decreases |s|
  {
    if s[0] == COMMA && q == Outside {
      if i > 0 { PiecesEndOutside(s[1..], [], Outside, i - 1); }
    } else {
      UncutAppend(cur, [s[0]], Outside);
      assert [s[0]][1..] == [];
      PiecesEndOutside(s[1..], cur + [s[0]], NextQuoting(q, s[0]), i);
    }
  }

  lemma UnbalancedNeverFound(items: seq<Item>, text: JsText, i: nat)
    requires AllProper(items) && !BalancedButLast(items) && QUOTE !in text && FinalBackslashes(text) % 2 == 1
    requires i < |Cut(RenderList(items), [], Outside)|
    ensures StripWeak(Trimmed(Cut(RenderList(items), [], Outside)[i])) != Quoted(text)
  {
    var pieces := Cut(RenderList(items), [], Outside);
    if i == |pieces| - 1 {
      LastPieceSpoiled(items);
      ScanCountsBackslashes(text);
      EndsEscaped(text);
      SpoiledIsNoTag(pieces[i], text);
    } else if StripWeak(Trimmed(pieces[i])) == Quoted(text) {
      PiecesEndOutside(RenderList(items), [], Outside, i);
      var it := PieceIsItem(pieces[i], text);
      ScanItem(it);
    }
  }

  // ---- The theorem -------------------------------------------------------------------------------------

  lemma {:induction false} LongerThanAll(items: seq<Item>) returns (n: nat)
    ensures forall i :: 0 <= i < |items| && items[i].tag.Some? ==> |items[i].tag.value.text| < n
  {
    n := 0;
    if items != [] {
      n := LongerThanAll(items[1..]);
      var own := if items[0].tag.Some? then |items[0].tag.value.text| + 1 else 0;
      assert forall i :: 1 <= i < |items| ==> items[i] == items[1..][i - 1];
      if own > n { n := own; }
    }
  }

  lemma UnlistedTag(items: seq<Item>) returns (text: JsText)
    ensures !Lists(items, text)
  {
    var n := LongerThanAll(items);
    text := seq(n, _ => 0x61);
  }

  /** If some element but the last has its closing quote escaped, the scanner is wrong about some tag. */
  lemma WrongTag(items: seq<Item>) returns (current: Tag)
    requires AllProper(items) && !BalancedButLast(items)
    ensures !Answers(items, current)
  {
    var pieces := Cut(RenderList(items), [], Outside);
    if j :| 0 <= j < |pieces| && Trimmed(pieces[j]) == [STAR] {
      var text := UnlistedTag(items);
      current := Tag(Strong, text);
      TrimIgnored(RenderList(items), StripWeak(RenderTag(current)));
      assert PieceMatches(pieces[j], StripWeak(RenderTag(current)));
    } else {
      var k :| 0 <= k < |items| - 1 && !Balanced(items[k]);
      var text := items[k].tag.value.text;
      current := Tag(Strong, text);
      StripTag(current);
      TrimIgnored(RenderList(items), Quoted(text));
      forall i | 0 <= i < |pieces| ensures !PieceMatches(pieces[i], Quoted(text)) {
        UnbalancedNeverFound(items, text, i);
      }
      assert Lists(items, text);
    }
  }

  /** The scanner agrees with weak comparison for every current tag if and only if no element but the
      last ends its text in an odd run of backslashes. */
  lemma RightForEveryTagExactly(items: seq<Item>)
    requires AllProper(items)
    ensures (forall current :: Answers(items, current)) <==> BalancedButLast(items)
  {
    if BalancedButLast(items) {
      forall current ensures Answers(items, current) { MatchesExactly(items, current); }
    } else {
      var current := WrongTag(items);
    }
  }
}
