/**
  * The sub-scanners of the lexer as functions of the source bytes and a start
  * offset: comments and whitespace, identifiers, `\u` escapes, string
  * escapes, string literals, number-shaped literals and the body of a regular
  * expression literal. Both parser versions (cjs_module_lexer/src/parser.rs
  * and src/parser.rs) run these same scanners; where they differ the function
  * takes the `Version`. The parsers' methods are proved to compute them.
  */
module Scanners {
  import opened Wrappers
  import opened Utils
  import Utf8

  /** The parser version a scanner follows where the two differ. */
  datatype Version = Earlier | Current

  /** A diagnostic: its kind, the offending byte or character, and the offset it is reported at. */
  datatype ParseError =
    | UnexpectedEOF(pos: nat)
    | UnexpectedEscapeCharacter(ch: char, pos: nat)
    | UnexpectedUnicodeEscapeSequence(found: byte, pos: nat)
    | UnexpectedBracket(found: byte, pos: nat)
    | IncorrectClosingBracket(found: byte, pos: nat)
    | UnterminatedRegExp(pos: nat)

  datatype ParseResult = ParseResult(
    imports: seq<Str>,
    exports: seq<Str>,
    reexports: seq<Str>,
    errors: seq<ParseError>)

  const EmptyResult := ParseResult([], [], [], [])

  /** What a sub-scanner produced: a value (None when it failed), where the cursor is left, and the diagnostics it pushed. */
  datatype Scanned<T> = Scanned(value: Option<T>, end: nat, diags: seq<ParseError>)

  /** The byte under the cursor, as the source's `cur_offset`. */
  function At(src: Str, i: nat): Option<byte> {
    if i < |src| then Some(src[i]) else None
  }

  /** `source[i..].starts_with(kw)`. */
  predicate StartsWithAt(src: Str, i: nat, kw: Str) {
    i + |kw| <= |src| && src[i..i + |kw|] == kw
  }

  predicate IsCommentWhitespace(c: byte) {
    c == 0x09 || c == 0x0b || c == 0x0c || c == ' ' as byte || c == '\r' as byte || c == '\n' as byte
  }

  predicate IsDecimalDigit(c: byte) {
    '0' as byte <= c <= '9' as byte
  }

  // ---------------------------------------------------------------------
  // Comments and whitespace
  // ---------------------------------------------------------------------

  /** A line comment runs to just past the first line break, or to the end. */
  function LineCommentEnd(src: Str, i: nat): (e: nat)
    decreases |src| - i
    ensures i <= e
    ensures i < |src| ==> i < e <= |src|
  {
    if i >= |src| then i
    else if IsBr(src[i]) then i + 1
    else LineCommentEnd(src, i + 1)
  }

  /** The body of a block comment runs to just past the first `*` `/`, or to the end. */
  function BlockCommentBodyEnd(src: Str, i: nat): (e: nat)
    decreases |src| - i
    ensures i <= e
    ensures i <= |src| ==> e <= |src|
  {
    if i >= |src| then i
    else if src[i] == '*' as byte && At(src, i + 1) == Some('/' as byte) then i + 2
    else BlockCommentBodyEnd(src, i + 1)
  }

  predicate StartsComment(src: Str, i: nat) {
    At(src, i) == Some('/' as byte) && (At(src, i + 1) == Some('/' as byte) || At(src, i + 1) == Some('*' as byte))
  }

  function CommentWhitespaceEnd(src: Str, i: nat): (e: nat)
    decreases |src| - i
    ensures i <= e
    ensures i <= |src| ==> e <= |src|
  {
    if i >= |src| then i
    else if IsCommentWhitespace(src[i]) then CommentWhitespaceEnd(src, i + 1)
    else if src[i] == '/' as byte && At(src, i + 1) == Some('/' as byte) then
      CommentWhitespaceEnd(src, LineCommentEnd(src, i))
    else if src[i] == '/' as byte && At(src, i + 1) == Some('*' as byte) then
      CommentWhitespaceEnd(src, BlockCommentBodyEnd(src, i + 2))
    else i
  }

  // ---------------------------------------------------------------------
  // Identifiers
  // ---------------------------------------------------------------------

  function IdentifierRestEnd(src: Str, i: nat, tables: IdTables): (e: nat)
    decreases |src| - i
    ensures i <= e
    ensures i <= |src| ==> e <= |src|
  {
    match Utf8.DecodeAt(src, i)
    case None => i
    case Some(d) =>
      if IsIdentifierChar(d.ch, tables) then IdentifierRestEnd(src, i + d.len, tables) else i
  }

  /**
    * The end of the identifier starting at `i`: a character that is an
    * identifier start or a backslash, then identifier characters. The
    * identifier's text is the source bytes up to that end.
    */
  function IdentifierEnd(src: Str, i: nat, tables: IdTables): (r: Option<nat>)
    ensures r.Some? ==> i < r.value <= |src|
  {
    match Utf8.DecodeAt(src, i)
    case None => None
    case Some(d) =>
      if !IsIdentifierStart(d.ch, tables) && d.ch != '\\' then None
      else Some(IdentifierRestEnd(src, i + d.len, tables))
  }

  // ---------------------------------------------------------------------
  // Unicode escapes
  // ---------------------------------------------------------------------

  predicate IsHexDigit(c: byte) {
    ('0' as byte <= c <= '9' as byte) || ('a' as byte <= c <= 'f' as byte) || ('A' as byte <= c <= 'F' as byte)
  }

  predicate AllHex(ds: Str) {
    forall k :: 0 <= k < |ds| ==> IsHexDigit(ds[k])
  }

  function HexDigitValue(c: byte): (v: nat)
    requires IsHexDigit(c)
    ensures v < 16
  {
    if c <= '9' as byte then (c - '0' as byte) as nat
    else if c <= 'F' as byte then (c - 'A' as byte) as nat + 10
    else (c - 'a' as byte) as nat + 10
  }

  /** The value of a run of hex digits, most significant first (`from_str_radix(_, 16)`). */
  function HexValue(ds: Str): nat
    requires AllHex(ds)
  {
    if ds == [] then 0 else HexValue(ds[..|ds| - 1]) * 16 + HexDigitValue(ds[|ds| - 1])
  }

  /** The end of the longest run of hex digits starting at `i`. */
  function HexRunEnd(src: Str, i: nat): (e: nat)
    decreases |src| - i
    ensures i <= e
    ensures i <= |src| ==> e <= |src|
    ensures forall k :: i <= k < e ==> k < |src| && IsHexDigit(src[k])
  {
    if i < |src| && IsHexDigit(src[i]) then HexRunEnd(src, i + 1) else i
  }

  /** The end of the run of at most `n` hex digits starting at `i`. */
  function FixedHexEnd(src: Str, i: nat, n: nat): (e: nat)
    decreases n
    ensures i <= e <= i + n
    ensures i <= |src| ==> e <= |src|
    ensures forall k :: i <= k < e ==> k < |src| && IsHexDigit(src[k])
  {
    if n > 0 && i < |src| && IsHexDigit(src[i]) then FixedHexEnd(src, i + 1, n - 1) else i
  }

  /**
    * The UTF-8 encoding of the code point the digits spell. The source
    * unwraps `u32::from_str_radix` and `char::from_u32`; a value that is
    * not a Unicode scalar value makes the escape fail here instead.
    */
  function EncodeCodePoint(ds: Str, end: nat): Scanned<Str>
    requires AllHex(ds)
  {
    var v := HexValue(ds);
    if Utf8.IsScalar(v) then Scanned(Some(Utf8.Encode(v as char)), end, [])
    else Scanned(None, end, [])
  }

  /** A `\u` escape, the cursor at the `u`: four hex digits, or `{` hex digits `}`. */
  function UnicodeEscape(src: Str, p: nat): (r: Scanned<Str>)
    ensures p <= r.end
    ensures p < |src| ==> r.end <= |src|
    ensures r.value.Some? ==> p + 3 < r.end
    ensures r.diags != [] ==> r.value.None? && |r.diags| == 1
    ensures r.value.Some? && At(src, p + 1) == Some('{' as byte) ==>
      src[p] == 'u' as byte && src[r.end - 1] == '}' as byte && AllHex(src[p + 2..r.end - 1])
      && Utf8.IsScalar(HexValue(src[p + 2..r.end - 1]))
      && r.value.value == Utf8.Encode(HexValue(src[p + 2..r.end - 1]) as char)
    ensures r.value.Some? && At(src, p + 1) != Some('{' as byte) ==>
      p + 5 <= |src| && src[p] == 'u' as byte && r.end == p + 5 && AllHex(src[p + 1..p + 5])
      && Utf8.IsScalar(HexValue(src[p + 1..p + 5]))
      && r.value.value == Utf8.Encode(HexValue(src[p + 1..p + 5]) as char)
  {
    if At(src, p) != Some('u' as byte) then Scanned(None, p, [])
    else if At(src, p + 1) == Some('{' as byte) then
      var e := HexRunEnd(src, p + 2);
      if e == p + 2 then Scanned(None, e, [])
      else if At(src, e) != Some('}' as byte) then Scanned(None, e, [])
      else EncodeCodePoint(src[p + 2..e], e + 1)
    else
      var e := FixedHexEnd(src, p + 1, 4);
      if e < p + 5 then
        Scanned(None, e, if e < |src| then [UnexpectedUnicodeEscapeSequence(src[e], e)] else [])
      else EncodeCodePoint(src[p + 1..p + 5], p + 5)
  }

  // ---------------------------------------------------------------------
  // String literals
  // ---------------------------------------------------------------------

  /** A single-byte escape `\n`, `\t`, ...: the byte it stands for, if it is one. */
  function SimpleEscape(c: byte): Option<byte> {
    if c == '\\' as byte then Some('\\' as byte)
    else if c == 'n' as byte then Some('\n' as byte)
    else if c == 'r' as byte then Some('\r' as byte)
    else if c == 't' as byte then Some('\t' as byte)
    else if c == 'b' as byte then Some(0x08)
    else if c == 'v' as byte then Some(0x0b)
    else if c == 'f' as byte then Some(0x0c)
    else if c == '\n' as byte then Some('\n' as byte)
    else None
  }

  /** An escape sequence, the cursor at the backslash. */
  function StringEscape(v: Version, src: Str, p: nat): (r: Scanned<Str>)
    ensures p <= r.end
    ensures p < |src| ==> r.end <= |src|
    ensures r.value.Some? ==> p + 2 <= r.end
  {
    if At(src, p) != Some('\\' as byte) then Scanned(None, p, [])
    else
      var q := p + 1;
      if q >= |src| then Scanned(None, q, [])
      else
        var c := src[q];
        if SimpleEscape(c).Some? then Scanned(Some([SimpleEscape(c).value]), q + 1, [])
        else if c == '\r' as byte then
          // `\r\n` yields both bytes but leaves the cursor on the `\n`
          if At(src, q + 1) == Some('\n' as byte) then Scanned(Some(['\r' as byte, '\n' as byte]), q + 1, [])
          else Scanned(Some(['\r' as byte]), q + 1, [])
        else if c == '0' as byte then
          var diag := [UnexpectedEscapeCharacter('0', q)];
          if q + 1 < |src| && IsDecimalDigit(src[q + 1]) then Scanned(None, q, diag)
          else if v == Current then Scanned(Some(['\\' as byte, 0]), q + 1, diag)
          else Scanned(None, q + 1, diag)
        else if c == 'u' as byte then UnicodeEscape(src, q)
        else Scanned(Some([c]), q + 1, [])
  }

  predicate IsQuote(c: byte) {
    c == '\'' as byte || c == '"' as byte
  }

  /** The loop of a string literal from offset `i`, with the text `acc` decoded so far. */
  function StringBody(v: Version, src: Str, quote: byte, i: nat, acc: Str, diags: seq<ParseError>): (r: Scanned<Str>)
    decreases |src| - i
    ensures i <= r.end
    ensures i <= |src| ==> r.end <= |src|
    ensures |diags| <= |r.diags| && r.diags[..|diags|] == diags
  {
    if i >= |src| then Scanned(None, i, diags)
    else
      var c := src[i];
      if c == quote then Scanned(Some(acc), i + 1, diags)
      else if c == '\\' as byte then
        var e := StringEscape(v, src, i);
        if e.value.None? then Scanned(None, e.end, diags + e.diags)
        else StringBody(v, src, quote, e.end, acc + e.value.value, diags + e.diags)
      else if IsBr(c) then Scanned(None, i, diags)
      else StringBody(v, src, quote, i + 1, acc + [c], diags)
  }

  /** A string literal, the cursor at its opening quote; the value is the decoded text. */
  function StringLiteral(v: Version, src: Str, p: nat): (r: Scanned<Str>)
    ensures p <= r.end
    ensures p < |src| ==> r.end <= |src|
    ensures At(src, p).Some? && IsQuote(src[p]) ==> p < r.end
  {
    if p < |src| && IsQuote(src[p]) then StringBody(v, src, src[p], p + 1, [], [])
    else Scanned(None, p, [])
  }

  // ---------------------------------------------------------------------
  // Number-shaped literals
  // ---------------------------------------------------------------------

  predicate IsNumberByte(c: byte) {
    IsDecimalDigit(c) || c == '_' as byte || c == '.' as byte
    || ('a' as byte <= c <= 'z' as byte) || ('A' as byte <= c <= 'Z' as byte)
  }

  function NumberRunEnd(src: Str, i: nat): (e: nat)
    decreases |src| - i
    ensures i <= e
    ensures i <= |src| ==> e <= |src|
    ensures forall k :: i <= k < e ==> k < |src| && IsNumberByte(src[k])
    ensures e < |src| ==> !IsNumberByte(src[e])
  {
    if i < |src| && IsNumberByte(src[i]) then NumberRunEnd(src, i + 1) else i
  }

  /**
    * A number-shaped literal: a digit or `.` then digits, `_`, `.` and ASCII
    * letters. It fails when the run reaches the end of the source.
    */
  function NumberLiteral(src: Str, p: nat): (r: Scanned<Str>)
    ensures p <= r.end && r.diags == []
    ensures p <= |src| ==> r.end <= |src|
    ensures r.value.Some? ==>
      p < r.end < |src| && r.value.value == src[p..r.end]
      && (IsDecimalDigit(src[p]) || src[p] == '.' as byte)
      && (forall k :: p <= k < r.end ==> IsNumberByte(src[k]))
      && !IsNumberByte(src[r.end])
    ensures r.value.None? ==>
      r.end == p || r.end == |src|
    ensures r.value.None? && p < |src| && (IsDecimalDigit(src[p]) || src[p] == '.' as byte) ==>
      r.end == |src| && forall k :: p <= k < |src| ==> IsNumberByte(src[k])
  {
    if !(p < |src| && (IsDecimalDigit(src[p]) || src[p] == '.' as byte)) then Scanned(None, p, [])
    else
      var e := NumberRunEnd(src, p);
      if e < |src| then Scanned(Some(src[p..e]), e, []) else Scanned(None, e, [])
  }

  // ---------------------------------------------------------------------
  // Regular expression literals
  // ---------------------------------------------------------------------

  /** Where the body of a regular expression ends, and whether a line break cut it short. */
  datatype RegexScan = RegexScan(end: nat, unterminated: bool)

  /** The body of a regular expression literal from offset `i`, tracking a pending backslash and `[...]` classes. */
  function RegexBody(src: Str, i: nat, escaped: bool, inClass: bool): (r: RegexScan)
    decreases |src| - i
    ensures i <= r.end
    ensures i <= |src| ==> r.end <= |src|
  {
    if i >= |src| then RegexScan(i, false)
    else
      var c := src[i];
      if IsBr(c) then RegexScan(i + 1, true)
      else if escaped then RegexBody(src, i + 1, false, inClass)
      else if c == '/' as byte && !inClass then RegexScan(i + 1, false)
      else
        var cls := if c == '[' as byte then true else if c == ']' as byte && inClass then false else inClass;
        RegexBody(src, i + 1, c == '\\' as byte, cls)
  }
}
