/**
  * Byte and character classification shared by both parser versions, the
  * keyword byte strings, and the bracket table of the earlier version
  * (src/utils.rs).
  */
module Utils {

  /** One byte of the source text. */
  newtype byte = x: int | 0 <= x < 256

  /** A byte string; the lexer's result strings are their UTF-8 bytes. */
  type Str = seq<byte>

  /** The bytes of an ASCII text (used for the keyword constants and for examples). */
  function AsciiBytes(s: string): (r: Str)
    requires forall i :: 0 <= i < |s| ==> s[i] as int < 128
    ensures |r| == |s|
    ensures forall i :: 0 <= i < |s| ==> r[i] as int == s[i] as int
  {
    seq(|s|, i requires 0 <= i < |s| => s[i] as byte)
  }

  predicate IsPunctuator(c: byte) {
    c == '!' as byte || c == '%' as byte || c == '&' as byte
    || c == '[' as byte || c == ']' as byte || c == '^' as byte
    || (40 <= c <= 47) || (58 <= c <= 63) || (123 <= c <= 126)
  }

  /** A "boundary" byte: whitespace, line break, NBSP, or a punctuator other than `.`. */
  predicate IsBrOrWsOrPunctuatorNotDot(c: byte) {
    (8 < c < 14) || c == 32 || c == 160 || (IsPunctuator(c) && c != '.' as byte)
  }

  predicate IsBr(c: byte) {
    c == '\r' as byte || c == '\n' as byte
  }

  /**
    * The Unicode identifier tables (ID_Start, ID_Continue) that the source
    * takes from an external crate; the lexer receives them as parameters.
    */
  datatype IdTables = IdTables(idStart: char -> bool, idContinue: char -> bool)

  predicate IsAsciiLetter(ch: char) {
    ('a' <= ch <= 'z') || ('A' <= ch <= 'Z')
  }

  predicate IsIdentifierStart(ch: char, tables: IdTables) {
    if IsAsciiLetter(ch) || ch == '_' || ch == '$' then true
    else tables.idStart(ch)
  }

  predicate IsIdentifierChar(ch: char, tables: IdTables) {
    if ('0' <= ch <= '9') || IsAsciiLetter(ch) || ch == '_' || ch == '$' then true
    else tables.idContinue(ch)
  }

  const REQUIRE: Str := AsciiBytes("require")
  const EXPORTS: Str := AsciiBytes("exports")
  const MODULE: Str := AsciiBytes("module")

  /** The context-stack entry of the earlier parser version. */
  datatype Bracket =
    | Parenthesis    // `(`
    | SquareBracket  // `[`
    | Brace          // `{` of a block, class body or object literal
    | TemplateBrace  // `{` of `${` in a template literal

  function GetBracketOpenCode(b: Bracket): byte {
    match b
    case Parenthesis => '(' as byte
    case SquareBracket => '[' as byte
    case Brace => '{' as byte
    case TemplateBrace => '{' as byte
  }

  function GetBracketCloseCode(b: Bracket): byte {
    match b
    case Parenthesis => ')' as byte
    case SquareBracket => ']' as byte
    case Brace => '}' as byte
    case TemplateBrace => '}' as byte
  }

  // ---------------------------------------------------------------------
  // Properties of the classification
  // ---------------------------------------------------------------------

  /** The punctuators, written out one character at a time. */
  const PUNCTUATORS: Str := AsciiBytes("!%&[]^()*+,-./:;<=>?{|}~")

  /** The whitespace and line-break bytes that count as boundaries. */
  const BOUNDARY_SPACES: set<byte> := {9, 10, 11, 12, 13, 32, 160}

  lemma PunctuatorsExactly(c: byte)
    ensures IsPunctuator(c) <==> c in PUNCTUATORS
  {
    var p := PUNCTUATORS;
    if IsPunctuator(c) {
      if c == '!' as byte { assert p[0] == c; }
      else if c == '%' as byte { assert p[1] == c; }
      else if c == '&' as byte { assert p[2] == c; }
      else if c == '[' as byte { assert p[3] == c; }
      else if c == ']' as byte { assert p[4] == c; }
      else if c == '^' as byte { assert p[5] == c; }
      else if 40 <= c <= 47 { assert p[(c - 34) as int] == c; }
      else if 58 <= c <= 63 { assert p[(c - 44) as int] == c; }
      else { assert p[(c - 103) as int] == c; }
    }
  }

  lemma BoundaryExactly(c: byte)
    ensures IsBrOrWsOrPunctuatorNotDot(c) <==> c in BOUNDARY_SPACES || (c in PUNCTUATORS && c != '.' as byte)
    ensures IsPunctuator('.' as byte) && !IsBrOrWsOrPunctuatorNotDot('.' as byte)
  {
    PunctuatorsExactly(c);
  }

  lemma BrIsBoundary(c: byte)
    ensures IsBr(c) <==> c == 10 || c == 13
    ensures IsBr(c) ==> IsBrOrWsOrPunctuatorNotDot(c)
  {
  }

  /** Every ASCII identifier start is an identifier character, whatever the tables say. */
  lemma AsciiStartIsIdentifierChar(ch: char, tables: IdTables)
    requires ch as int < 128
    ensures IsIdentifierStart(ch, tables) <==> IsAsciiLetter(ch) || ch == '_' || ch == '$' || tables.idStart(ch)
    ensures IsAsciiLetter(ch) || ch == '_' || ch == '$' ==> IsIdentifierStart(ch, tables) && IsIdentifierChar(ch, tables)
  {
  }

  /** With tables in which every ID_Start character is ID_Continue (as in Unicode), every start is a char. */
  lemma StartIsIdentifierChar(ch: char, tables: IdTables)
    requires forall c :: tables.idStart(c) ==> tables.idContinue(c)
    ensures IsIdentifierStart(ch, tables) ==> IsIdentifierChar(ch, tables)
  {
  }

  /** The close code of each entry is the partner of its open code. */
  lemma BracketCodesPair(b: Bracket)
    ensures (GetBracketOpenCode(b), GetBracketCloseCode(b)) in
      {('(' as byte, ')' as byte), ('[' as byte, ']' as byte), ('{' as byte, '}' as byte)}
    ensures GetBracketCloseCode(b) == '}' as byte <==> b.Brace? || b.TemplateBrace?
  {
  }

  lemma KeywordLengths()
    ensures |REQUIRE| == 7 && |EXPORTS| == 7 && |MODULE| == 6
    ensures REQUIRE[0] == 'r' as byte && EXPORTS[0] == 'e' as byte && MODULE[0] == 'm' as byte
  {
  }
}
