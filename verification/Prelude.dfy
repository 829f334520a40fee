/** Types shared by the other modules. */
module Prelude {
  datatype Option<+T> = None | Some(value: T)

  /** One octet. */
  type Byte = b: int | 0 <= b < 256

  const TWO_31 := 0x8000_0000
  const TWO_32 := 0x1_0000_0000

  /** `x | 0` and `x >>> 0`. */
  function ToInt32(x: int): int {
    var u := x % TWO_32;
    if u < TWO_31 then u else u - TWO_32
  }

  function ToUint32(x: int): nat {
    x % TWO_32
  }

  /** Both are the only number of their range that differs from `x` by a multiple of 2^32. */
  lemma WrapsExactly(x: int)
    ensures 0 <= ToUint32(x) <= 4294967295 && (x - ToUint32(x)) % 4294967296 == 0
    ensures -2147483648 <= ToInt32(x) <= 2147483647 && (x - ToInt32(x)) % 4294967296 == 0
  {
  }

  function Flatten<T>(chunks: seq<seq<T>>): seq<T> {
    if chunks == [] then [] else chunks[0] + Flatten(chunks[1..])
  }

  /** One UTF-16 code unit; the length of a `JsText` is the JavaScript string length. */
  type CodeUnit = c: int | 0 <= c < 0x10000

  type JsText = seq<CodeUnit>

  const COMMA: CodeUnit := 0x2c

  // Trimming, for whatever counts as blank.

  function TrimLeft(s: JsText, blank: CodeUnit -> bool): JsText {
    if s != [] && blank(s[0]) then TrimLeft(s[1..], blank) else s
  }

  function TrimRight(s: JsText, blank: CodeUnit -> bool): JsText {
    if s != [] && blank(s[|s| - 1]) then TrimRight(s[..|s| - 1], blank) else s
  }

  function Trim(s: JsText, blank: CodeUnit -> bool): JsText {
    TrimRight(TrimLeft(s, blank), blank)
  }

  predicate AllBlank(s: JsText, blank: CodeUnit -> bool) {
    forall i :: 0 <= i < |s| ==> blank(s[i])
  }

  lemma {:induction false} TrimLeftBlank(a: JsText, s: JsText, blank: CodeUnit -> bool)
    requires AllBlank(a, blank)
    ensures TrimLeft(a + s, blank) == TrimLeft(s, blank)
  {
    if a == [] {
      assert a + s == s;
    } else {
      assert (a + s)[1..] == a[1..] + s;
      TrimLeftBlank(a[1..], s, blank);
    }
  }

  lemma {:induction false} TrimRightBlank(s: JsText, b: JsText, blank: CodeUnit -> bool)
    requires AllBlank(b, blank)
    ensures TrimRight(s + b, blank) == TrimRight(s, blank)
    decreases |b|
  {
    if b == [] {
      assert s + b == s;
    } else {
      assert (s + b)[..|s + b| - 1] == s + b[..|b| - 1];
      TrimRightBlank(s, b[..|b| - 1], blank);
    }
  }

  /** Blanks around a text that neither starts nor ends with one. */
  lemma TrimCore(a: JsText, s: JsText, b: JsText, blank: CodeUnit -> bool)
    requires AllBlank(a, blank) && AllBlank(b, blank)
    requires s == [] || (!blank(s[0]) && !blank(s[|s| - 1]))
    ensures Trim(a + s + b, blank) == s
  {
    assert a + s + b == a + (s + b);
    TrimLeftBlank(a, s + b, blank);
    if s == [] {
      assert s + b == b + [];
      TrimLeftBlank(b, [], blank);
    } else {
      assert TrimLeft(s + b, blank) == s + b;
      TrimRightBlank(s, b, blank);
    }
  }
}
