/**
  * The earlier parser version run, on paper, over the sources of two of its
  * tests (tests/parser.rs): the parse ends with exactly the result the test
  * expects. Identifiers are read under tables that agree with Unicode on
  * ASCII.
  */
module LegacyExamples {
  import opened Wrappers
  import opened Utils
  import opened Scanners
  import opened LegacySpec
  import LegacyFacts
  import LexerFacts
  import ScannerFacts

  /** `u` and `v`, the two names the test exports. */
  const U: Str := ['u' as byte]
  const V: Str := ['v' as byte]

  /** The three keywords, byte by byte. */
  const ExportsWord: Str := ['e' as byte, 'x' as byte, 'p' as byte, 'o' as byte, 'r' as byte, 't' as byte, 's' as byte]
  const ModuleWord: Str := ['m' as byte, 'o' as byte, 'd' as byte, 'u' as byte, 'l' as byte, 'e' as byte]

  lemma KeywordSpellings()
    ensures EXPORTS == ExportsWord && MODULE == ModuleWord
  {
    KeywordLengths();
    assert EXPORTS[1] == 'x' as byte && EXPORTS[2] == 'p' as byte && EXPORTS[3] == 'o' as byte;
    assert EXPORTS[4] == 'r' as byte && EXPORTS[5] == 't' as byte && EXPORTS[6] == 's' as byte;
    assert MODULE[1] == 'o' as byte && MODULE[2] == 'd' as byte && MODULE[3] == 'u' as byte;
    assert MODULE[4] == 'l' as byte && MODULE[5] == 'e' as byte;
  }

  function Spaces(n: nat): (r: Str)
    ensures |r| == n && forall k :: 0 <= k < n ==> r[k] == ' ' as byte
  {
    seq(n, _ => ' ' as byte)
  }

  /** The source of `test_exports_dot_identifier`: two indented lines and a final indented blank. */
  const DotIdentifierSource: Str :=
    ['\n' as byte] + Spaces(12) + ExportsWord + ['.' as byte] + U
    + [' ' as byte, '=' as byte, ' ' as byte, '1' as byte, ';' as byte, '\n' as byte]
    + Spaces(12) + ModuleWord + ['.' as byte] + ExportsWord + ['.' as byte] + V
    + [' ' as byte, '=' as byte, ' ' as byte, '2' as byte, ';' as byte, '\n' as byte]
    + Spaces(8)

  /** Where the keywords, names and punctuation of the test source sit. */
  lemma DotIdentifierBytes()
    ensures |DotIdentifierSource| == 70 && DotIdentifierSource[0] == '\n' as byte
    ensures DotIdentifierSource[12] == ' ' as byte && DotIdentifierSource[39] == ' ' as byte
    ensures StartsWithAt(DotIdentifierSource, 13, EXPORTS) && DotIdentifierSource[20] == '.' as byte
    ensures ScannerFacts.HoldsAt(DotIdentifierSource, 21, U) && DotIdentifierSource[21] == 'u' as byte
    ensures DotIdentifierSource[22] == ' ' as byte && DotIdentifierSource[23] == '=' as byte
    ensures StartsWithAt(DotIdentifierSource, 40, MODULE) && DotIdentifierSource[46] == '.' as byte
    ensures StartsWithAt(DotIdentifierSource, 47, EXPORTS) && DotIdentifierSource[47] == 'e' as byte
    ensures DotIdentifierSource[54] == '.' as byte
    ensures ScannerFacts.HoldsAt(DotIdentifierSource, 55, V) && DotIdentifierSource[55] == 'v' as byte
    ensures DotIdentifierSource[56] == ' ' as byte && DotIdentifierSource[57] == '=' as byte
  {
    KeywordSpellings();
    var src := DotIdentifierSource;
    assert src[13..20] == ExportsWord;
    assert src[40..46] == ModuleWord;
    assert src[47..54] == ExportsWord;
    assert src[21..22] == U;
    assert src[55..56] == V;
  }

  /** The bytes the driver steps over in the test source. */
  lemma DotIdentifierInert()
    ensures |DotIdentifierSource| == 70
    ensures forall k :: 0 <= k < 13 ==> LegacyFacts.InertByte(DotIdentifierSource[k])
    ensures forall k :: 19 <= k < 40 ==> LegacyFacts.InertByte(DotIdentifierSource[k])
    ensures forall k :: 53 <= k < 70 ==> LegacyFacts.InertByte(DotIdentifierSource[k])
  {
    KeywordSpellings();
  }

  lemma DotIdentifierLayout()
    ensures |DotIdentifierSource| == 70 && DotIdentifierSource[0] == '\n' as byte
    ensures DotIdentifierSource[12] == ' ' as byte && DotIdentifierSource[39] == ' ' as byte
    ensures StartsWithAt(DotIdentifierSource, 13, EXPORTS) && DotIdentifierSource[20] == '.' as byte
    ensures ScannerFacts.HoldsAt(DotIdentifierSource, 21, U) && DotIdentifierSource[22] == ' ' as byte
    ensures DotIdentifierSource[23] == '=' as byte
    ensures StartsWithAt(DotIdentifierSource, 40, MODULE) && DotIdentifierSource[46] == '.' as byte
    ensures StartsWithAt(DotIdentifierSource, 47, EXPORTS) && DotIdentifierSource[54] == '.' as byte
    ensures ScannerFacts.HoldsAt(DotIdentifierSource, 55, V) && DotIdentifierSource[56] == ' ' as byte
    ensures DotIdentifierSource[57] == '=' as byte
    ensures CommentWhitespaceEnd(DotIdentifierSource, 20) == 20 && CommentWhitespaceEnd(DotIdentifierSource, 21) == 21
    ensures CommentWhitespaceEnd(DotIdentifierSource, 22) == 23
    ensures CommentWhitespaceEnd(DotIdentifierSource, 46) == 46 && CommentWhitespaceEnd(DotIdentifierSource, 47) == 47
    ensures CommentWhitespaceEnd(DotIdentifierSource, 54) == 54 && CommentWhitespaceEnd(DotIdentifierSource, 55) == 55
    ensures CommentWhitespaceEnd(DotIdentifierSource, 56) == 57
    ensures forall k :: 0 <= k < 13 ==> LegacyFacts.InertByte(DotIdentifierSource[k])
    ensures forall k :: 19 <= k < 40 ==> LegacyFacts.InertByte(DotIdentifierSource[k])
    ensures forall k :: 53 <= k < 70 ==> LegacyFacts.InertByte(DotIdentifierSource[k])
  {
    DotIdentifierBytes();
    DotIdentifierInert();
    hide DotIdentifierSource, StartsWithAt, ScannerFacts.HoldsAt, LegacyFacts.InertByte;
  }

  /**
    * `exports.u = 1;` then `module.exports.v = 2;`: the parse exports u and
    * v, in that order, and records nothing else.
    */
  lemma DotIdentifierParse(tables: IdTables)
    requires LexerFacts.AsciiTables(tables)
    ensures Parse(DotIdentifierSource, tables, Initial)
      == Some(State(70, [], EmptyResult.(exports := [U, V])))
  {
    hide DotIdentifierSource, AsciiBytes, StartsWithAt, ScannerFacts.HoldsAt, LexerFacts.AsciiTables,
      Run, Step, TryParseExportsDotAssign, TryParseModuleExportsDotAssign, CommentWhitespaceEnd;
    var src := DotIdentifierSource;
    DotIdentifierLayout();
    assert LexerFacts.IsAsciiName(U) && LexerFacts.IsAsciiName(V);
    assert KeywordStart(src, 13) && KeywordStart(src, 40);
    var s0 := Initial;
    assert Parse(src, tables, s0) == Run(src, tables, s0);
    LegacyFacts.RunSkipsInert(src, tables, s0, 13);
    var s13 := s0.(pos := 13);
    LegacyFacts.ExportsDotNameRecorded(src, tables, s13, U, false, 20, 21, 23);
    var s19 := State(19, [], EmptyResult.(exports := [U]));
    assert AddExport(s13, U).(pos := 19) == s19 by { assert [] + [U] == [U]; }
    LegacyFacts.StepAtExports(src, tables, s13);
    LegacyFacts.RunThroughStep(src, tables, s13, s19);
    LegacyFacts.RunSkipsInert(src, tables, s19, 21);
    var s40 := s19.(pos := 40);
    LegacyFacts.ModuleExportsDotNameRecorded(src, tables, s40, V, 46, 47, 54, 55, 57);
    var s53 := State(53, [], EmptyResult.(exports := [U, V]));
    assert AddExport(s40, V).(pos := 53) == s53 by { assert [U] + [V] == [U, V]; }
    LegacyFacts.StepAtModule(src, tables, s40);
    LegacyFacts.RunThroughStep(src, tables, s40, s53);
    LegacyFacts.RunSkipsInert(src, tables, s53, 17);
    LegacyFacts.RunAtEnd(src, tables, s53.(pos := 70));
  }

  /** The source of `test_exports_dot_string_literal`: one indented line and a final indented blank. */
  const BracketKeySource: Str :=
    ['\n' as byte] + Spaces(12) + ExportsWord
    + ['[' as byte, '\'' as byte, 'u' as byte, '\'' as byte, ']' as byte]
    + [' ' as byte, '=' as byte, ' ' as byte, '1' as byte, ';' as byte, '\n' as byte]
    + Spaces(8)

  lemma BracketKeyLayout()
    ensures |BracketKeySource| == 39 && BracketKeySource[0] == '\n' as byte && BracketKeySource[12] == ' ' as byte
    ensures StartsWithAt(BracketKeySource, 13, EXPORTS) && BracketKeySource[20] == '[' as byte
    ensures ScannerFacts.EscapeText('\'' as byte, U) == U
    ensures BracketKeySource[21] == '\'' as byte && ScannerFacts.HoldsAt(BracketKeySource, 22, ScannerFacts.EscapeText('\'' as byte, U))
    ensures BracketKeySource[23] == '\'' as byte && BracketKeySource[24] == ']' as byte
    ensures BracketKeySource[25] == ' ' as byte && BracketKeySource[26] == '=' as byte
    ensures LexerFacts.QuotedAt(BracketKeySource, 21, '\'' as byte, U)
    ensures CommentWhitespaceEnd(BracketKeySource, 20) == 20 && CommentWhitespaceEnd(BracketKeySource, 21) == 21
    ensures CommentWhitespaceEnd(BracketKeySource, 24) == 24 && CommentWhitespaceEnd(BracketKeySource, 25) == 26
    ensures forall k :: 0 <= k < 13 ==> LegacyFacts.InertByte(BracketKeySource[k])
    ensures forall k :: 27 <= k < 39 ==> LegacyFacts.InertByte(BracketKeySource[k])
  {
    KeywordSpellings();
    var src := BracketKeySource;
    assert ScannerFacts.EscapeText('\'' as byte, U) == U;
    assert src[13..20] == ExportsWord;
    assert src[22..23] == U;
  }

  /** `exports['u'] = 1;`: the parse exports u and records nothing else. */
  lemma BracketKeyParse(tables: IdTables)
    ensures Parse(BracketKeySource, tables, Initial) == Some(State(39, [], EmptyResult.(exports := [U])))
  {
    hide BracketKeySource, AsciiBytes, StartsWithAt, ScannerFacts.HoldsAt, ScannerFacts.EscapeText,
      Run, Step, TryParseExportsDotAssign, LexerFacts.QuotedAt, CommentWhitespaceEnd;
    var src := BracketKeySource;
    BracketKeyLayout();
    assert KeywordStart(src, 13);
    var s0 := Initial;
    assert Parse(src, tables, s0) == Run(src, tables, s0);
    LegacyFacts.RunSkipsInert(src, tables, s0, 13);
    var s13 := s0.(pos := 13);
    LegacyFacts.ExportsBracketKeyConsumesAssign(src, tables, s13, '\'' as byte, U, false, 20, 21, 24, 26);
    var s27 := State(27, [], EmptyResult.(exports := [U]));
    assert AddExport(s13.(pos := 27), U) == s27 by { assert [] + [U] == [U]; }
    LegacyFacts.StepAtExports(src, tables, s13);
    LegacyFacts.RunThroughStep(src, tables, s13, s27);
    LegacyFacts.RunSkipsInert(src, tables, s27, 12);
    LegacyFacts.RunAtEnd(src, tables, s27.(pos := 39));
  }
}
