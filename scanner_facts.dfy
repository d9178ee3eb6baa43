/**
  * Properties of the sub-scanners that both parser versions share: string
  * literals against an escaping function that is their inverse, the `\0`
  * escape, `\u` escapes against a hex encoder, comment and whitespace
  * skipping, and the body of a regular expression literal.
  */
module ScannerFacts {
  import opened Wrappers
  import opened Utils
  import opened Scanners
  import Utf8

  // ---------------------------------------------------------------------
  // String literals
  // ---------------------------------------------------------------------

  /** How one byte of a text is written inside a literal quoted with `q`. */
  function EscapeByte(q: byte, b: byte): (r: Str)
    ensures 1 <= |r| <= 2
  {
    if b == '\\' as byte then ['\\' as byte, '\\' as byte]
    else if b == q then ['\\' as byte, q]
    else if b == '\n' as byte then ['\\' as byte, 'n' as byte]
    else if b == '\r' as byte then ['\\' as byte, 'r' as byte]
    else [b]
  }

  /** The body of a literal quoted with `q` whose decoded text is `text`. */
  function EscapeText(q: byte, text: Str): (r: Str)
    ensures |text| <= |r|
  {
    if text == [] then [] else EscapeByte(q, text[0]) + EscapeText(q, text[1..])
  }

  /** `src` holds `body` from offset `i`. */
  predicate HoldsAt(src: Str, i: nat, body: Str) {
    i + |body| <= |src| && src[i..i + |body|] == body
  }

  lemma HoldsAtSplit(src: Str, i: nat, a: Str, b: Str)
    requires HoldsAt(src, i, a + b)
    ensures HoldsAt(src, i, a) && HoldsAt(src, i + |a|, b)
  {
    assert src[i..i + |a|] == (a + b)[..|a|];
    assert src[i + |a|..i + |a| + |b|] == (a + b)[|a|..];
  }

  /** One byte of an escaped body: the string loop reads it back and moves past its spelling. */
  lemma StringBodyOfEscapedByte(v: Version, src: Str, q: byte, i: nat, b: byte, acc: Str, diags: seq<ParseError>)
    requires IsQuote(q)
    requires HoldsAt(src, i, EscapeByte(q, b))
    ensures StringBody(v, src, q, i, acc, diags)
      == StringBody(v, src, q, i + |EscapeByte(q, b)|, acc + [b], diags)
  {
    var e := EscapeByte(q, b);
    assert src[i] == e[0];
    if |e| == 2 {
      assert src[i + 1] == e[1];
      assert StringEscape(v, src, i) == Scanned(Some([b]), i + 2, []);
      assert diags + [] == diags;
    }
  }

  /** The string loop reads an escaped body back as its text, with no diagnostic. */
  lemma {:induction false} StringBodyOfEscaped(
    v: Version, src: Str, q: byte, i: nat, text: Str, acc: Str, diags: seq<ParseError>)
    requires IsQuote(q)
    requires HoldsAt(src, i, EscapeText(q, text))
    ensures StringBody(v, src, q, i, acc, diags)
      == StringBody(v, src, q, i + |EscapeText(q, text)|, acc + text, diags)
    decreases |text|
  {
    hide StringBody, EscapeByte, HoldsAt;
    if text == [] {
      assert acc + text == acc;
    } else {
      var b := text[0];
      var e := EscapeByte(q, b);
      assert EscapeText(q, text) == e + EscapeText(q, text[1..]);
      HoldsAtSplit(src, i, e, EscapeText(q, text[1..]));
      StringBodyOfEscapedByte(v, src, q, i, b, acc, diags);
      StringBodyOfEscaped(v, src, q, i + |e|, text[1..], acc + [b], diags);
      assert acc + [b] + text[1..] == acc + text;
    }
  }

  /** At an opening quote a literal is the string loop started just after it. */
  lemma StringLiteralAtQuote(v: Version, src: Str, p: nat)
    requires p < |src| && IsQuote(src[p])
    ensures Scanners.StringLiteral(v, src, p) == StringBody(v, src, src[p], p + 1, [], [])
  {
  }

  /** A literal whose opening quote is followed by an escaped text reaches the byte after that text with the text decoded. */
  lemma LiteralAfterText(v: Version, src: Str, p: nat, q: byte, text: Str)
    requires IsQuote(q) && p < |src| && src[p] == q
    requires HoldsAt(src, p + 1, EscapeText(q, text))
    ensures Scanners.StringLiteral(v, src, p) == StringBody(v, src, q, p + 1 + |EscapeText(q, text)|, text, [])
  {
    hide Scanners.StringLiteral, StringBody, EscapeText, HoldsAt;
    StringLiteralAtQuote(v, src, p);
    StringBodyOfEscaped(v, src, q, p + 1, text, [], []);
    assert [] + text == text;
  }

  /** The string loop at the closing quote yields the text gathered so far. */
  lemma StringBodyAtQuote(v: Version, src: Str, q: byte, k: nat, acc: Str, diags: seq<ParseError>)
    requires k < |src| && src[k] == q
    ensures StringBody(v, src, q, k, acc, diags) == Scanned(Some(acc), k + 1, diags)
  {
  }

  /** The string loop at the end of the source or at an unescaped line break fails there. */
  lemma StringBodyAtEndOrBr(v: Version, src: Str, q: byte, k: nat, acc: Str, diags: seq<ParseError>)
    requires IsQuote(q) && (k == |src| || (k < |src| && IsBr(src[k])))
    ensures StringBody(v, src, q, k, acc, diags) == Scanned(None, k, diags)
  {
  }

  /** The string loop keeps an ordinary byte and moves on to the next one. */
  lemma StringBodyAtPlain(v: Version, src: Str, q: byte, k: nat, acc: Str, diags: seq<ParseError>)
    requires k < |src| && src[k] != q && src[k] != '\\' as byte && !IsBr(src[k])
    ensures StringBody(v, src, q, k, acc, diags) == StringBody(v, src, q, k + 1, acc + [src[k]], diags)
  {
  }

  /** The string loop at a backslash defers to the escape sequence scanned there. */
  lemma StringBodyAtBackslash(v: Version, src: Str, q: byte, j: nat, acc: Str, diags: seq<ParseError>)
    requires IsQuote(q) && j < |src| && src[j] == '\\' as byte
    ensures var e := StringEscape(v, src, j);
      StringBody(v, src, q, j, acc, diags)
        == if e.value.None? then Scanned(None, e.end, diags + e.diags)
           else StringBody(v, src, q, e.end, acc + e.value.value, diags + e.diags)
  {
  }

  /**
    * Round trip: a literal written with EscapeText and closed by its quote
    * decodes to the text, and the cursor ends just past the closing quote.
    */
  lemma StringLiteralRoundTrip(v: Version, src: Str, p: nat, q: byte, text: Str)
    requires IsQuote(q) && p < |src| && src[p] == q
    requires HoldsAt(src, p + 1, EscapeText(q, text))
    requires p + 1 + |EscapeText(q, text)| < |src| && src[p + 1 + |EscapeText(q, text)|] == q
    ensures Scanners.StringLiteral(v, src, p) == Scanned(Some(text), p + |EscapeText(q, text)| + 2, [])
  {
    hide Scanners.StringLiteral, StringBody, EscapeText, HoldsAt;
    LiteralAfterText(v, src, p, q, text);
    StringBodyAtQuote(v, src, q, p + 1 + |EscapeText(q, text)|, text, []);
  }

  /** An unescaped line break, or the end of the source, before the closing quote makes the literal fail without a diagnostic. */
  lemma StringLiteralUnterminated(v: Version, src: Str, p: nat, q: byte, text: Str)
    requires IsQuote(q) && p < |src| && src[p] == q
    requires HoldsAt(src, p + 1, EscapeText(q, text))
    requires var j := p + 1 + |EscapeText(q, text)|; j == |src| || IsBr(src[j])
    ensures Scanners.StringLiteral(v, src, p) == Scanned(None, p + 1 + |EscapeText(q, text)|, [])
  {
    hide Scanners.StringLiteral, StringBody, EscapeText, HoldsAt;
    LiteralAfterText(v, src, p, q, text);
    StringBodyAtEndOrBr(v, src, q, p + 1 + |EscapeText(q, text)|, text, []);
  }

  /** `\0` followed by a decimal digit, as one escape sequence. */
  lemma NulEscapeBeforeDigit(v: Version, src: Str, j: nat)
    requires j + 2 < |src| && src[j] == '\\' as byte && src[j + 1] == '0' as byte && IsDecimalDigit(src[j + 2])
    ensures StringEscape(v, src, j) == Scanned(None, j + 1, [UnexpectedEscapeCharacter('0', j + 1)])
  {
  }

  /** `\0` followed by a decimal digit: one UnexpectedEscapeCharacter, and the literal fails there (both versions). */
  lemma NulBeforeDigitFails(v: Version, src: Str, p: nat, q: byte, text: Str)
    requires IsQuote(q) && p < |src| && src[p] == q
    requires HoldsAt(src, p + 1, EscapeText(q, text))
    requires var j := p + 1 + |EscapeText(q, text)|;
      j + 2 < |src| && src[j] == '\\' as byte && src[j + 1] == '0' as byte && IsDecimalDigit(src[j + 2])
    ensures var j := p + 1 + |EscapeText(q, text)|;
      Scanners.StringLiteral(v, src, p) == Scanned(None, j + 1, [UnexpectedEscapeCharacter('0', j + 1)])
  {
    hide Scanners.StringLiteral, StringBody, StringEscape, EscapeText, HoldsAt;
    var j := p + 1 + |EscapeText(q, text)|;
    LiteralAfterText(v, src, p, q, text);
    NulEscapeBeforeDigit(v, src, j);
    StringBodyAtBackslash(v, src, q, j, text, []);
    assert [] + [UnexpectedEscapeCharacter('0', j + 1)] == [UnexpectedEscapeCharacter('0', j + 1)];
  }

  /** `\0` not followed by a decimal digit, as one escape sequence. */
  lemma NulEscapeWithoutDigit(v: Version, src: Str, j: nat)
    requires j + 1 < |src| && src[j] == '\\' as byte && src[j + 1] == '0' as byte
    requires j + 2 < |src| ==> !IsDecimalDigit(src[j + 2])
    ensures StringEscape(v, src, j)
      == if v == Current then Scanned(Some(['\\' as byte, 0]), j + 2, [UnexpectedEscapeCharacter('0', j + 1)])
         else Scanned(None, j + 2, [UnexpectedEscapeCharacter('0', j + 1)])
  {
  }

  /** The escaped text starts with a decimal digit only when the text does. */
  lemma EscapedDigitFirst(q: byte, rest: Str)
    requires IsQuote(q) && rest != []
    ensures IsDecimalDigit(EscapeText(q, rest)[0]) ==> IsDecimalDigit(rest[0])
  {
    assert EscapeText(q, rest)[0] == EscapeByte(q, rest[0])[0];
  }

  /** An escaped text that does not start with a digit, closed by its quote, does not start with a digit either. */
  lemma NotDigitAfterNul(src: Str, q: byte, k: nat, rest: Str)
    requires IsQuote(q) && (rest == [] || !IsDecimalDigit(rest[0]))
    requires HoldsAt(src, k, EscapeText(q, rest))
    requires k + |EscapeText(q, rest)| < |src| && src[k + |EscapeText(q, rest)|] == q
    ensures k < |src| && !IsDecimalDigit(src[k])
  {
    var r := EscapeText(q, rest);
    if rest != [] {
      EscapedDigitFirst(q, rest);
      assert src[k] == r[0];
    } else {
      assert r == [];
    }
  }

  /** The string loop from a `\0` not followed by a decimal digit (the tail of NulWithoutDigit). */
  lemma StringBodyFromNul(v: Version, src: Str, q: byte, j: nat, acc: Str, rest: Str)
    requires IsQuote(q) && j + 1 < |src| && src[j] == '\\' as byte && src[j + 1] == '0' as byte
    requires rest == [] || !IsDecimalDigit(rest[0])
    requires HoldsAt(src, j + 2, EscapeText(q, rest))
    requires j + 2 + |EscapeText(q, rest)| < |src| && src[j + 2 + |EscapeText(q, rest)|] == q
    ensures var diag := [UnexpectedEscapeCharacter('0', j + 1)];
      StringBody(v, src, q, j, acc, [])
        == if v == Current then Scanned(Some(acc + ['\\' as byte, 0] + rest), j + 3 + |EscapeText(q, rest)|, diag)
           else Scanned(None, j + 2, diag)
  {
    hide StringEscape, StringBody, EscapeText, HoldsAt;
    var diag := [UnexpectedEscapeCharacter('0', j + 1)];
    var k := j + 2;
    var r := EscapeText(q, rest);
    NotDigitAfterNul(src, q, k, rest);
    NulEscapeWithoutDigit(v, src, j);
    StringBodyAtBackslash(v, src, q, j, acc, []);
    assert [] + diag == diag;
    if v == Current {
      StringBodyOfEscaped(v, src, q, k, rest, acc + ['\\' as byte, 0], diag);
      StringBodyAtQuote(v, src, q, k + |r|, acc + ['\\' as byte, 0] + rest, diag);
    }
  }

  /**
    * `\0` not followed by a decimal digit: one UnexpectedEscapeCharacter.
    * The current version keeps going and yields the two bytes `\` and NUL;
    * the earlier version fails the literal there.
    */
  lemma NulWithoutDigit(v: Version, src: Str, p: nat, q: byte, text: Str, rest: Str)
    requires IsQuote(q) && p < |src| && src[p] == q
    requires HoldsAt(src, p + 1, EscapeText(q, text))
    requires var j := p + 1 + |EscapeText(q, text)|;
      j + 1 < |src| && src[j] == '\\' as byte && src[j + 1] == '0' as byte
    requires rest == [] || !IsDecimalDigit(rest[0])
    requires var k := p + 3 + |EscapeText(q, text)|;
      HoldsAt(src, k, EscapeText(q, rest)) && k + |EscapeText(q, rest)| < |src| && src[k + |EscapeText(q, rest)|] == q
    ensures var j := p + 1 + |EscapeText(q, text)|;
      var diag := [UnexpectedEscapeCharacter('0', j + 1)];
      Scanners.StringLiteral(v, src, p)
        == if v == Current then Scanned(Some(text + ['\\' as byte, 0] + rest), j + 3 + |EscapeText(q, rest)|, diag)
           else Scanned(None, j + 2, diag)
  {
    hide Scanners.StringLiteral, StringBody, EscapeText, HoldsAt;
    var j := p + 1 + |EscapeText(q, text)|;
    assert j + 2 == p + 3 + |EscapeText(q, text)|;
    LiteralAfterText(v, src, p, q, text);
    StringBodyFromNul(v, src, q, j, text, rest);
  }

  // ---------------------------------------------------------------------
  // Unicode escapes
  // ---------------------------------------------------------------------

  /** The lower-case hex digit of a value below 16. */
  function HexDigitByte(n: nat): (c: byte)
    requires n < 16
    ensures IsHexDigit(c) && HexDigitValue(c) == n
  {
    if n < 10 then ('0' as int + n) as byte else ('a' as int + n - 10) as byte
  }

  /** The shortest hex spelling of a value, most significant digit first. */
  function HexSpelling(n: nat): (r: Str)
    ensures 1 <= |r| && AllHex(r)
  {
    if n < 16 then [HexDigitByte(n)] else HexSpelling(n / 16) + [HexDigitByte(n % 16)]
  }

  /** The four-digit spelling of a value below 0x10000, leading zeros kept. */
  function Hex4(n: nat): (r: Str)
    requires n < 0x1_0000
    ensures |r| == 4 && AllHex(r)
  {
    var a := n / 16;
    var b := a / 16;
    [HexDigitByte(b / 16), HexDigitByte(b % 16), HexDigitByte(a % 16), HexDigitByte(n % 16)]
  }

  /** HexValue inverts HexSpelling. */
  lemma {:induction false} HexValueOfSpelling(n: nat)
    ensures HexValue(HexSpelling(n)) == n
  {
    var h := HexSpelling(n);
    if n >= 16 {
      assert h[..|h| - 1] == HexSpelling(n / 16);
      HexValueOfSpelling(n / 16);
    }
  }

  /** One more digit at the end multiplies the value by 16 and adds the digit. */
  lemma HexValueSnoc(ds: Str, d: byte)
    requires AllHex(ds) && IsHexDigit(d)
    ensures AllHex(ds + [d]) && HexValue(ds + [d]) == HexValue(ds) * 16 + HexDigitValue(d)
  {
    assert (ds + [d])[..|ds|] == ds;
  }

  /** HexValue inverts Hex4. */
  lemma HexValueOfHex4(n: nat)
    requires n < 0x1_0000
    ensures HexValue(Hex4(n)) == n
  {
    var a := n / 16;
    var b := a / 16;
    var d0, d1, d2, d3 := HexDigitByte(b / 16), HexDigitByte(b % 16), HexDigitByte(a % 16), HexDigitByte(n % 16);
    assert Hex4(n) == [d0] + [d1] + [d2] + [d3];
    hide Hex4, HexDigitByte;
    HexValueSnoc([], d0);
    assert [] + [d0] == [d0];
    HexValueSnoc([d0], d1);
    HexValueSnoc([d0] + [d1], d2);
    HexValueSnoc([d0] + [d1] + [d2], d3);
    assert HexValue([d0]) == b / 16;
    assert HexValue([d0] + [d1]) == b;
    assert HexValue([d0] + [d1] + [d2]) == a;
  }

  /** The end of a run of `n` hex digits that is not followed by another hex digit. */
  lemma {:induction false} HexRunEndOfRun(src: Str, i: nat, n: nat)
    requires i + n <= |src|
    requires forall k :: i <= k < i + n ==> IsHexDigit(src[k])
    requires i + n == |src| || !IsHexDigit(src[i + n])
    ensures HexRunEnd(src, i) == i + n
    decreases n
  {
    if n > 0 {
      HexRunEndOfRun(src, i + 1, n - 1);
    }
  }

  /** The end of a run of `n` number bytes that is followed by a byte of another kind. */
  lemma {:induction false} NumberRunEndOfRun(src: Str, i: nat, n: nat)
    requires i + n <= |src|
    requires forall k :: i <= k < i + n ==> IsNumberByte(src[k])
    requires i + n == |src| || !IsNumberByte(src[i + n])
    ensures NumberRunEnd(src, i) == i + n
    decreases n
  {
    if n > 0 {
      NumberRunEndOfRun(src, i + 1, n - 1);
    }
  }

  /** The four-digit reader stops at the first byte that is not a hex digit. */
  lemma {:induction false} FixedHexEndAt(src: Str, i: nat, n: nat, k: nat)
    requires k < n && i + k < |src|
    requires forall j :: i <= j < i + k ==> IsHexDigit(src[j])
    requires !IsHexDigit(src[i + k])
    ensures FixedHexEnd(src, i, n) == i + k
    decreases k
  {
    if k > 0 {
      FixedHexEndAt(src, i + 1, n - 1, k - 1);
    }
  }

  /** `\u` and any four hex digits, of either case, spelling a scalar value: that value's UTF-8 encoding. */
  lemma UnicodeEscapeFourDigits(src: Str, p: nat, ds: Str)
    requires |ds| == 4 && AllHex(ds) && Utf8.IsScalar(HexValue(ds))
    requires HoldsAt(src, p, ['u' as byte] + ds)
    ensures UnicodeEscape(src, p) == Scanned(Some(Utf8.Encode(HexValue(ds) as char)), p + 5, [])
  {
    hide HexValue, Utf8.Encode, Utf8.IsScalar;
    HoldsAtSplit(src, p, ['u' as byte], ds);
    assert src[p + 1..p + 5] == ds;
    forall k | p + 1 <= k < p + 5
      ensures IsHexDigit(src[k])
    {
      assert src[k] == ds[k - p - 1];
    }
    assert FixedHexEnd(src, p + 1, 4) == p + 5;
  }

  /** `\u{` any non-empty run of hex digits `}` spelling a scalar value: that value's UTF-8 encoding, ending after the `}`. */
  lemma UnicodeEscapeBraced(src: Str, p: nat, ds: Str)
    requires 1 <= |ds| && AllHex(ds) && Utf8.IsScalar(HexValue(ds))
    requires HoldsAt(src, p, ['u' as byte, '{' as byte] + ds + ['}' as byte])
    ensures UnicodeEscape(src, p) == Scanned(Some(Utf8.Encode(HexValue(ds) as char)), p + 3 + |ds|, [])
  {
    hide HexRunEnd, HexValue, Utf8.Encode, Utf8.IsScalar, UnicodeEscape;
    var e := p + 2 + |ds|;
    BracedLayout(src, p, ds);
    hide HoldsAt;
    forall k | p + 2 <= k < e
      ensures IsHexDigit(src[k])
    {
      assert src[k] == ds[k - p - 2];
    }
    HexRunEndOfRun(src, p + 2, |ds|);
    UnicodeEscapeAtBrace(src, p, e);
  }

  lemma BracedLayout(src: Str, p: nat, ds: Str)
    requires HoldsAt(src, p, ['u' as byte, '{' as byte] + ds + ['}' as byte])
    ensures p + 2 + |ds| < |src| && src[p] == 'u' as byte && src[p + 1] == '{' as byte
    ensures src[p + 2..p + 2 + |ds|] == ds && src[p + 2 + |ds|] == '}' as byte
  {
    HoldsAtSplit(src, p, ['u' as byte, '{' as byte] + ds, ['}' as byte]);
    HoldsAtSplit(src, p, ['u' as byte, '{' as byte], ds);
  }

  /** A braced escape whose digits run up to a `}` is read as those digits. */
  lemma UnicodeEscapeAtBrace(src: Str, p: nat, e: nat)
    requires p + 2 < e < |src| && src[p] == 'u' as byte && src[p + 1] == '{' as byte
    requires HexRunEnd(src, p + 2) == e && src[e] == '}' as byte
    ensures AllHex(src[p + 2..e]) && UnicodeEscape(src, p) == EncodeCodePoint(src[p + 2..e], e + 1)
  {
    hide HexValue, Utf8.Encode, Utf8.IsScalar, EncodeCodePoint;
  }

  /** The encoder's four digits read back as the value they encode. */
  lemma UnicodeEscapeHex4(src: Str, p: nat, cp: nat)
    requires cp < 0x1_0000 && Utf8.IsScalar(cp)
    requires HoldsAt(src, p, ['u' as byte] + Hex4(cp))
    ensures UnicodeEscape(src, p) == Scanned(Some(Utf8.Encode(cp as char)), p + 5, [])
  {
    HexValueOfHex4(cp);
    UnicodeEscapeFourDigits(src, p, Hex4(cp));
  }

  /** A byte that is not a hex digit among the four required ones: a diagnostic at that byte, and failure. */
  lemma UnicodeEscapeBadDigit(src: Str, p: nat, k: nat)
    requires k < 4 && p + 1 + k < |src|
    requires src[p] == 'u' as byte && src[p + 1] != '{' as byte
    requires forall j :: p + 1 <= j < p + 1 + k ==> IsHexDigit(src[j])
    requires !IsHexDigit(src[p + 1 + k])
    ensures UnicodeEscape(src, p)
      == Scanned(None, p + 1 + k, [UnexpectedUnicodeEscapeSequence(src[p + 1 + k], p + 1 + k)])
  {
    FixedHexEndAt(src, p + 1, 4, k);
  }

  /** `\u{` and hex digits without the closing `}`: failure with no diagnostic. */
  lemma UnicodeEscapeMissingBrace(src: Str, p: nat, n: nat)
    requires 0 < n && p + 2 + n <= |src|
    requires src[p] == 'u' as byte && src[p + 1] == '{' as byte
    requires forall j :: p + 2 <= j < p + 2 + n ==> IsHexDigit(src[j])
    requires p + 2 + n == |src| || (!IsHexDigit(src[p + 2 + n]) && src[p + 2 + n] != '}' as byte)
    ensures UnicodeEscape(src, p) == Scanned(None, p + 2 + n, [])
  {
    HexRunEndOfRun(src, p + 2, n);
  }

  // ---------------------------------------------------------------------
  // Comments and whitespace
  // ---------------------------------------------------------------------

  /** Skipping stops at the end of the source or at a byte that is neither whitespace nor the start of a comment. */
  lemma {:induction false} CommentWhitespaceEndStops(src: Str, i: nat)
    requires i <= |src|
    ensures var e := CommentWhitespaceEnd(src, i);
      e == |src| || (!IsCommentWhitespace(src[e]) && !StartsComment(src, e))
    decreases |src| - i
  {
    if i < |src| {
      if IsCommentWhitespace(src[i]) {
        CommentWhitespaceEndStops(src, i + 1);
      } else if src[i] == '/' as byte && At(src, i + 1) == Some('/' as byte) {
        CommentWhitespaceEndStops(src, LineCommentEnd(src, i));
      } else if src[i] == '/' as byte && At(src, i + 1) == Some('*' as byte) {
        CommentWhitespaceEndStops(src, BlockCommentBodyEnd(src, i + 2));
      }
    }
  }

  /** A run of whitespace bytes before a byte that is neither whitespace nor `/` is skipped whole. */
  lemma {:induction false} CommentWhitespaceEndOverRun(src: Str, i: nat, n: nat)
    requires i + n < |src| && forall k :: i <= k < i + n ==> IsCommentWhitespace(src[k])
    requires !IsCommentWhitespace(src[i + n]) && src[i + n] != '/' as byte
    ensures CommentWhitespaceEnd(src, i) == i + n
    decreases n
  {
    if n > 0 {
      CommentWhitespaceEndOverRun(src, i + 1, n - 1);
    }
  }

  /** Skipping twice skips no more than skipping once. */
  lemma CommentWhitespaceEndIdempotent(src: Str, i: nat)
    requires i <= |src|
    ensures CommentWhitespaceEnd(src, CommentWhitespaceEnd(src, i)) == CommentWhitespaceEnd(src, i)
  {
    CommentWhitespaceEndStops(src, i);
  }

  // ---------------------------------------------------------------------
  // Regular expression bodies
  // ---------------------------------------------------------------------

  /** A byte that neither ends a regular expression body nor changes how the next byte is read. */
  predicate PlainRegexByte(c: byte) {
    !IsBr(c) && c != '/' as byte && c != '[' as byte && c != ']' as byte && c != '\\' as byte
  }

  /**
    * Over plain bytes the body runs to just past the first `/` (terminated)
    * or the first line break (unterminated).
    */
  lemma {:induction false} RegexBodyPlain(src: Str, i: nat, n: nat)
    requires i + n < |src|
    requires forall k :: i <= k < i + n ==> PlainRegexByte(src[k])
    requires src[i + n] == '/' as byte || IsBr(src[i + n])
    ensures RegexBody(src, i, false, false) == RegexScan(i + n + 1, IsBr(src[i + n]))
    decreases n
  {
    if n > 0 {
      RegexBodyPlain(src, i + 1, n - 1);
    }
  }

  /** Inside a class `[...]` a `/` does not end the body, and an escaped `/` does not either. */
  lemma RegexSlashInClassOrEscaped(src: Str, i: nat)
    ensures HoldsAt(src, i, ['[' as byte, '/' as byte, ']' as byte]) ==>
      RegexBody(src, i, false, false) == RegexBody(src, i + 3, false, false)
    ensures HoldsAt(src, i, ['\\' as byte, '/' as byte]) ==>
      RegexBody(src, i, false, false) == RegexBody(src, i + 2, false, false)
  {
    if HoldsAt(src, i, ['[' as byte, '/' as byte, ']' as byte]) {
      assert src[i] == '[' as byte && src[i + 1] == '/' as byte && src[i + 2] == ']' as byte;
      assert RegexBody(src, i + 1, false, true) == RegexBody(src, i + 2, false, true);
      assert RegexBody(src, i + 2, false, true) == RegexBody(src, i + 3, false, false);
    }
    if HoldsAt(src, i, ['\\' as byte, '/' as byte]) {
      assert src[i] == '\\' as byte && src[i + 1] == '/' as byte;
    }
  }

  // ---------------------------------------------------------------------
  // Identifiers
  // ---------------------------------------------------------------------

  /**
    * One more identifier character: the identifier still ends where it did,
    * and its text so far grows by that character's encoding.
    */
  lemma IdentifierRestExtends(src: Str, start: nat, i: nat, tables: IdTables)
    requires start <= i && Utf8.DecodeAt(src, i).Some? && IsIdentifierChar(Utf8.DecodeAt(src, i).value.ch, tables)
    ensures var d := Utf8.DecodeAt(src, i).value;
      IdentifierRestEnd(src, i, tables) == IdentifierRestEnd(src, i + d.len, tables)
      && src[start..i + d.len] == src[start..i] + Utf8.Encode(d.ch)
  {
    var d := Utf8.DecodeAt(src, i).value;
    Utf8.EncodeDecode(src, i);
    assert src[start..i + d.len] == src[start..i] + src[i..i + d.len];
  }

  /** The identifier ends at a byte that does not decode or at a character that cannot continue it. */
  lemma IdentifierRestStops(src: Str, i: nat, tables: IdTables)
    requires Utf8.DecodeAt(src, i).None? || !IsIdentifierChar(Utf8.DecodeAt(src, i).value.ch, tables)
    ensures IdentifierRestEnd(src, i, tables) == i
  {
  }
}
