/**
  * Properties of the earlier parser version, proved about the functions of
  * module LegacySpec that the class Legacy.Parser is proved to compute:
  * what its detectors record, how its bracket stack behaves, and the two
  * places where what it does departs from what it evidently means to do
  * (an object literal assigned to `module.exports` makes the driver panic,
  * and `module.exports = require('x')` records the import twice).
  */
module LegacyFacts {
  import opened Wrappers
  import opened Utils
  import opened Scanners
  import opened LegacySpec
  import ScannerFacts
  import LexerFacts
  import Utf8

  // ---------------------------------------------------------------------
  // Identifiers, whitespace, string and number literals
  // ---------------------------------------------------------------------

  /** An ASCII name followed by a stop byte is read as one identifier and the cursor moves past it. */
  lemma IdentifierReadsName(src: Str, tables: IdTables, s: State, name: Str)
    requires LexerFacts.AsciiTables(tables) && LexerFacts.IsAsciiName(name)
    requires ScannerFacts.HoldsAt(src, s.pos, name)
    requires s.pos + |name| < |src| && LexerFacts.IsAsciiStop(src[s.pos + |name|])
    ensures Identifier(src, tables, s) == (s.(pos := s.pos + |name|), Some(name))
  {
    var e := s.pos + |name|;
    assert src[s.pos] == name[0];
    assert Utf8.DecodeAt(src, s.pos) == Some(Utf8.Decoded(src[s.pos] as char, 1));
    forall k | s.pos + 1 <= k < e
      ensures LexerFacts.IsWordByte(src[k])
    {
      assert src[k] == name[k - s.pos];
    }
    LexerFacts.IdentifierRestEndOfWord(src, s.pos + 1, |name| - 1, tables);
  }

  /** An ASCII byte other than `\` that cannot start a word starts no identifier: the identifier scanner leaves the state alone. */
  lemma IdentifierAtNonStart(src: Str, tables: IdTables, s: State)
    requires LexerFacts.AsciiTables(tables)
    requires s.pos < |src| && src[s.pos] < 0x80 && !LexerFacts.IsWordStartByte(src[s.pos]) && src[s.pos] != '\\' as byte
    ensures Identifier(src, tables, s) == (s, None)
  {
    var ch := src[s.pos] as char;
    assert Utf8.DecodeAt(src, s.pos) == Some(Utf8.Decoded(ch, 1));
    assert !IsIdentifierStart(ch, tables);
  }

  /** Skipping whitespace and comments in front of a solid byte changes nothing. */
  lemma CommentWhitespaceAtSolid(src: Str, s: State)
    requires s.pos < |src| && LexerFacts.IsSolid(src[s.pos])
    ensures CommentWhitespace(src, s) == s
  {
  }

  /**
    * A quoted literal is read back as its text: the cursor moves past the
    * closing quote and no diagnostic is recorded.
    */
  lemma StringLiteralQuoted(src: Str, s: State, q: byte, text: Str)
    requires LexerFacts.QuotedAt(src, s.pos, q, text)
    ensures LegacySpec.StringLiteral(src, s) == (s.(pos := LexerFacts.ClosingQuote(s.pos, q, text) + 1), Some(text))
  {
    hide ScannerFacts.EscapeText, ScannerFacts.HoldsAt, Scanners.StringLiteral;
    ScannerFacts.StringLiteralRoundTrip(Earlier, src, s.pos, q, text);
    assert s.result.errors + [] == s.result.errors;
  }

  /**
    * `\0` makes a string literal fail in this version, whether or not a
    * decimal digit follows: one UnexpectedEscapeCharacter is recorded and
    * the cursor stops after the `0` (before the digit) or after the byte
    * that follows it.
    */
  lemma NulEscapeAlwaysFails(src: Str, s: State, q: byte, text: Str)
    requires IsQuote(q) && s.pos < |src| && src[s.pos] == q
    requires ScannerFacts.HoldsAt(src, s.pos + 1, ScannerFacts.EscapeText(q, text))
    requires var j := s.pos + 1 + |ScannerFacts.EscapeText(q, text)|;
      j + 1 < |src| && src[j] == '\\' as byte && src[j + 1] == '0' as byte
    ensures var j := s.pos + 1 + |ScannerFacts.EscapeText(q, text)|;
      var end := if j + 2 < |src| && IsDecimalDigit(src[j + 2]) then j + 1 else j + 2;
      LegacySpec.StringLiteral(src, s) == (AddError(s.(pos := end), UnexpectedEscapeCharacter('0', j + 1)), None)
  {
    var j := s.pos + 1 + |ScannerFacts.EscapeText(q, text)|;
    ScannerFacts.LiteralAfterText(Earlier, src, s.pos, q, text);
    if j + 2 < |src| && IsDecimalDigit(src[j + 2]) {
      ScannerFacts.NulEscapeBeforeDigit(Earlier, src, j);
    } else {
      ScannerFacts.NulEscapeWithoutDigit(Earlier, src, j);
    }
    ScannerFacts.StringBodyAtBackslash(Earlier, src, q, j, text, []);
    assert [] + [UnexpectedEscapeCharacter('0', j + 1)] == [UnexpectedEscapeCharacter('0', j + 1)];
  }

  /** A number-shaped literal is read whole and the cursor moves past it. */
  lemma NumberLiteralReads(src: Str, s: State, ds: Str)
    requires LexerFacts.NumberAt(src, s.pos, ds)
    ensures LegacySpec.NumberLiteral(src, s) == (s.(pos := s.pos + |ds|), Some(ds))
  {
    forall k | s.pos <= k < s.pos + |ds|
      ensures IsNumberByte(src[k])
    {
      assert src[k] == ds[k - s.pos];
    }
    assert src[s.pos] == ds[0];
    ScannerFacts.NumberRunEndOfRun(src, s.pos, |ds|);
  }

  /** A number-shaped run that reaches the end of the source is not read: the cursor is left at the end. */
  lemma NumberLiteralAtEnd(src: Str, s: State)
    requires s.pos < |src| && (IsDecimalDigit(src[s.pos]) || src[s.pos] == '.' as byte)
    requires forall k :: s.pos <= k < |src| ==> IsNumberByte(src[k])
    ensures LegacySpec.NumberLiteral(src, s) == (s.(pos := |src|), None)
  {
    ScannerFacts.NumberRunEndOfRun(src, s.pos, |src| - s.pos);
  }

  // ---------------------------------------------------------------------
  // require('x')
  // ---------------------------------------------------------------------

  /**
    * `require`, then `(` at `a` and the quoted module name at `b`, each
    * after any whitespace and comments, bring the detector to
    * RequireArgument.
    */
  lemma RequireReachesClose(src: Str, s: State, q: byte, name: Str, a: nat, b: nat)
    requires StartsWithAt(src, s.pos, REQUIRE)
    requires a == CommentWhitespaceEnd(src, s.pos + 7) && a < |src| && src[a] == '(' as byte
    requires b == CommentWhitespaceEnd(src, a + 1) && LexerFacts.QuotedAt(src, b, q, name)
    ensures TryParseRequire(src, s)
      == RequireArgument(src, (s.(pos := LexerFacts.ClosingQuote(b, q, name) + 1), Some(name)))
  {
    hide LexerFacts.QuotedAt, LexerFacts.ClosingQuote, StartsWithAt, CommentWhitespaceEnd, AsciiBytes;
    StringLiteralQuoted(src, s.(pos := b), q, name);
    hide LegacySpec.StringLiteral;
    assert TryParseRequire(src, s) == RequireCall(src, s.(pos := a));
  }

  /**
    * `require`, `(`, a quoted module name and `)`, with any whitespace and
    * comments between them (`a`, `b`, `c` are where the `(`, the opening
    * quote and the `)` stand): the name is recorded as an import and
    * returned, and the cursor is left past the `)`.
    */
  lemma RequireRecordsImport(src: Str, s: State, q: byte, name: Str, a: nat, b: nat, c: nat)
    requires StartsWithAt(src, s.pos, REQUIRE)
    requires a == CommentWhitespaceEnd(src, s.pos + 7) && a < |src| && src[a] == '(' as byte
    requires b == CommentWhitespaceEnd(src, a + 1) && LexerFacts.QuotedAt(src, b, q, name)
    requires c == CommentWhitespaceEnd(src, LexerFacts.ClosingQuote(b, q, name) + 1) && c < |src| && src[c] == ')' as byte
    ensures TryParseRequire(src, s) == (AddImport(s, name).(pos := c + 1), Some(name))
  {
    hide LexerFacts.QuotedAt, LexerFacts.ClosingQuote, StartsWithAt, CommentWhitespaceEnd, AsciiBytes, TryParseRequire;
    RequireReachesClose(src, s, q, name, a, b);
  }

  /**
    * The import is recorded as soon as the module name is read: when the
    * first solid byte after it (at `c`) is not `)`, nothing is returned but
    * the import stays recorded and the cursor is left at `c`.
    */
  lemma RequireWithoutCloseStillImports(src: Str, s: State, q: byte, name: Str, a: nat, b: nat, c: nat)
    requires StartsWithAt(src, s.pos, REQUIRE)
    requires a == CommentWhitespaceEnd(src, s.pos + 7) && a < |src| && src[a] == '(' as byte
    requires b == CommentWhitespaceEnd(src, a + 1) && LexerFacts.QuotedAt(src, b, q, name)
    requires c == CommentWhitespaceEnd(src, LexerFacts.ClosingQuote(b, q, name) + 1) && (c == |src| || src[c] != ')' as byte)
    ensures TryParseRequire(src, s) == (AddImport(s, name).(pos := c), None)
  {
    hide LexerFacts.QuotedAt, LexerFacts.ClosingQuote, StartsWithAt, CommentWhitespaceEnd, AsciiBytes, TryParseRequire;
    RequireReachesClose(src, s, q, name, a, b);
  }

  // ---------------------------------------------------------------------
  // exports.NAME =, exports['KEY'] =, exports =
  // ---------------------------------------------------------------------

  /** `.NAME`, the cursor at the `.`: the name is read, and exported when the next solid byte (at `e`) is `=`. */
  lemma DotNameArm(src: Str, tables: IdTables, s: State, name: Str, n: nat, e: nat)
    requires LexerFacts.AsciiTables(tables) && LexerFacts.IsAsciiName(name)
    requires n == CommentWhitespaceEnd(src, s.pos + 1) && ScannerFacts.HoldsAt(src, n, name)
    requires n + |name| < |src| && LexerFacts.IsAsciiStop(src[n + |name|])
    requires e == CommentWhitespaceEnd(src, n + |name|)
    ensures ExportsDotName(src, tables, s)
      == if e < |src| && src[e] == '=' as byte then AddExport(s.(pos := e), name) else s.(pos := e)
  {
    IdentifierReadsName(src, tables, s.(pos := n), name);
    hide Identifier, ScannerFacts.HoldsAt, CommentWhitespaceEnd;
  }

  /**
    * `exports`, `.` at `d`, NAME at `n`, `=` at `e`, with any whitespace and
    * comments between them: NAME is appended to the exports, and the cursor
    * is put back on the last byte of `exports`.
    */
  lemma ExportsDotNameRecorded(src: Str, tables: IdTables, s: State, name: Str, assign: bool, d: nat, n: nat, e: nat)
    requires LexerFacts.AsciiTables(tables) && LexerFacts.IsAsciiName(name)
    requires StartsWithAt(src, s.pos, EXPORTS)
    requires d == CommentWhitespaceEnd(src, s.pos + 7) && d < |src| && src[d] == '.' as byte
    requires n == CommentWhitespaceEnd(src, d + 1) && ScannerFacts.HoldsAt(src, n, name)
    requires n + |name| < |src| && LexerFacts.IsAsciiStop(src[n + |name|])
    requires e == CommentWhitespaceEnd(src, n + |name|) && e < |src| && src[e] == '=' as byte
    ensures TryParseExportsDotAssign(src, tables, s, assign) == AddExport(s, name).(pos := s.pos + 6)
  {
    hide ExportsDotName, ExportsBracketKey, ExportsAssign, StartsWithAt, AsciiBytes, ScannerFacts.HoldsAt,
      LexerFacts.AsciiTables;
    DotNameArm(src, tables, s.(pos := d), name, n, e);
    hide CommentWhitespaceEnd;
  }

  /**
    * `exports.NAME` whose next solid byte (at `e`) is not `=` exports
    * nothing; the cursor is put back on the last byte of `exports`.
    */
  lemma ExportsDotNameWithoutAssign(src: Str, tables: IdTables, s: State, name: Str, assign: bool, d: nat, n: nat, e: nat)
    requires LexerFacts.AsciiTables(tables) && LexerFacts.IsAsciiName(name)
    requires StartsWithAt(src, s.pos, EXPORTS)
    requires d == CommentWhitespaceEnd(src, s.pos + 7) && d < |src| && src[d] == '.' as byte
    requires n == CommentWhitespaceEnd(src, d + 1) && ScannerFacts.HoldsAt(src, n, name)
    requires n + |name| < |src| && LexerFacts.IsAsciiStop(src[n + |name|])
    requires e == CommentWhitespaceEnd(src, n + |name|) && (e == |src| || src[e] != '=' as byte)
    ensures TryParseExportsDotAssign(src, tables, s, assign) == s.(pos := s.pos + 6)
  {
    hide ExportsDotName, ExportsBracketKey, ExportsAssign, StartsWithAt, AsciiBytes, ScannerFacts.HoldsAt,
      LexerFacts.AsciiTables;
    DotNameArm(src, tables, s.(pos := d), name, n, e);
    hide CommentWhitespaceEnd;
  }

  /** The `[KEY] =` arm alone, the cursor at the `[`: this version consumes the `=`. */
  lemma BracketKeyArm(src: Str, s: State, q: byte, key: Str, b: nat, c: nat, e: nat)
    requires s.pos < |src| && src[s.pos] == '[' as byte
    requires b == CommentWhitespaceEnd(src, s.pos + 1) && LexerFacts.QuotedAt(src, b, q, key)
    requires c == CommentWhitespaceEnd(src, LexerFacts.ClosingQuote(b, q, key) + 1) && c < |src| && src[c] == ']' as byte
    requires e == CommentWhitespaceEnd(src, c + 1) && e < |src| && src[e] == '=' as byte
    ensures ExportsBracketKey(src, s) == (AddExport(s.(pos := e + 1), key), true)
  {
    hide LexerFacts.QuotedAt, LexerFacts.ClosingQuote, CommentWhitespaceEnd;
    StringLiteralQuoted(src, s.(pos := b), q, key);
    hide LegacySpec.StringLiteral;
  }

  /**
    * `exports`, `[` at `a`, a quoted KEY at `b`, `]` at `c`, `=` at `e`,
    * with any whitespace and comments between them: the decoded KEY is
    * exported and the detector returns with the cursor past the `=`.
    */
  lemma ExportsBracketKeyConsumesAssign(src: Str, tables: IdTables, s: State, q: byte, key: Str, assign: bool,
                                        a: nat, b: nat, c: nat, e: nat)
    requires StartsWithAt(src, s.pos, EXPORTS)
    requires a == CommentWhitespaceEnd(src, s.pos + 7) && a < |src| && src[a] == '[' as byte
    requires b == CommentWhitespaceEnd(src, a + 1) && LexerFacts.QuotedAt(src, b, q, key)
    requires c == CommentWhitespaceEnd(src, LexerFacts.ClosingQuote(b, q, key) + 1) && c < |src| && src[c] == ']' as byte
    requires e == CommentWhitespaceEnd(src, c + 1) && e < |src| && src[e] == '=' as byte
    ensures TryParseExportsDotAssign(src, tables, s, assign) == AddExport(s.(pos := e + 1), key)
  {
    hide ExportsDotName, ExportsBracketKey, ExportsAssign, StartsWithAt, AsciiBytes, ScannerFacts.HoldsAt,
      LexerFacts.QuotedAt, LexerFacts.ClosingQuote, LegacySpec.StringLiteral, AddExport;
    BracketKeyArm(src, s.(pos := a), q, key, b, c, e);
    hide CommentWhitespaceEnd;
  }

  /**
    * `exports =` alone exports nothing: the cursor is put back on the last
    * byte of `exports` and the state is otherwise unchanged.
    */
  lemma ExportsShortcutAssignIgnored(src: Str, tables: IdTables, s: State, e: nat)
    requires StartsWithAt(src, s.pos, EXPORTS)
    requires e == CommentWhitespaceEnd(src, s.pos + 7) && e < |src| && src[e] == '=' as byte
    ensures TryParseExportsDotAssign(src, tables, s, false) == s.(pos := s.pos + 6)
  {
    hide StartsWithAt, CommentWhitespaceEnd, AsciiBytes;
  }

  // ---------------------------------------------------------------------
  // module.exports ...
  // ---------------------------------------------------------------------

  /**
    * `module`, `.` at `d` and `exports` at `x`, with any whitespace and
    * comments between them, bring the module detector to the exports
    * detector, in its `module.` mode.
    */
  lemma ModuleExportsReachesExports(src: Str, tables: IdTables, s: State, d: nat, x: nat)
    requires StartsWithAt(src, s.pos, MODULE)
    requires d == CommentWhitespaceEnd(src, s.pos + 6) && d < |src| && src[d] == '.' as byte
    requires x == CommentWhitespaceEnd(src, d + 1) && StartsWithAt(src, x, EXPORTS)
    ensures TryParseModuleExportsDotAssign(src, tables, s) == TryParseExportsDotAssign(src, tables, s.(pos := x), true)
  {
    hide StartsWithAt, CommentWhitespaceEnd, TryParseExportsDotAssign, AsciiBytes;
    KeywordLengths();
  }

  /**
    * `module.exports.NAME =`, with `.` at `d`, `exports` at `x`, and then
    * as in ExportsDotNameRecorded: NAME is exported and the cursor goes
    * back to the last byte of `exports`.
    */
  lemma ModuleExportsDotNameRecorded(src: Str, tables: IdTables, s: State, name: Str,
                                     d: nat, x: nat, d2: nat, n: nat, e: nat)
    requires LexerFacts.AsciiTables(tables) && LexerFacts.IsAsciiName(name)
    requires StartsWithAt(src, s.pos, MODULE)
    requires d == CommentWhitespaceEnd(src, s.pos + 6) && d < |src| && src[d] == '.' as byte
    requires x == CommentWhitespaceEnd(src, d + 1) && StartsWithAt(src, x, EXPORTS)
    requires d2 == CommentWhitespaceEnd(src, x + 7) && d2 < |src| && src[d2] == '.' as byte
    requires n == CommentWhitespaceEnd(src, d2 + 1) && ScannerFacts.HoldsAt(src, n, name)
    requires n + |name| < |src| && LexerFacts.IsAsciiStop(src[n + |name|])
    requires e == CommentWhitespaceEnd(src, n + |name|) && e < |src| && src[e] == '=' as byte
    ensures TryParseModuleExportsDotAssign(src, tables, s) == AddExport(s, name).(pos := x + 6)
  {
    hide ScannerFacts.HoldsAt, AsciiBytes, StartsWithAt, TryParseModuleExportsDotAssign, TryParseExportsDotAssign,
      LexerFacts.AsciiTables, LexerFacts.IsAsciiName, CommentWhitespaceEnd;
    ModuleExportsReachesExports(src, tables, s, d, x);
    ExportsDotNameRecorded(src, tables, s.(pos := x), name, true, d2, n, e);
  }

  /**
    * After `module.`: `exports`, `=` at `e` and `require(` a quoted name `)`
    * from `r` (`require` at `r`; `(`, the quote and `)` at `a`, `b`, `c`):
    * the name becomes the one re-export and is recorded as an import, but
    * the cursor is then still put back on the last byte of `exports`.
    */
  lemma ExportsAssignRequireReverts(src: Str, tables: IdTables, s: State, q: byte, name: Str,
                                    e: nat, r: nat, a: nat, b: nat, c: nat)
    requires StartsWithAt(src, s.pos, EXPORTS)
    requires e == CommentWhitespaceEnd(src, s.pos + 7) && e < |src| && src[e] == '=' as byte
    requires r == CommentWhitespaceEnd(src, e + 1) && StartsWithAt(src, r, REQUIRE)
    requires a == CommentWhitespaceEnd(src, r + 7) && a < |src| && src[a] == '(' as byte
    requires b == CommentWhitespaceEnd(src, a + 1) && LexerFacts.QuotedAt(src, b, q, name)
    requires c == CommentWhitespaceEnd(src, LexerFacts.ClosingQuote(b, q, name) + 1) && c < |src| && src[c] == ')' as byte
    ensures TryParseExportsDotAssign(src, tables, s, true)
      == s.(pos := s.pos + 6, result := s.result.(imports := s.result.imports + [name], reexports := [name]))
  {
    hide LexerFacts.QuotedAt, LexerFacts.ClosingQuote, AsciiBytes, StartsWithAt, CommentWhitespaceEnd, TryParseRequire,
      TryParseExportsDotAssign, ExportsAssign;
    KeywordLengths();
    LexerFacts.StartsWithFirst(src, r, REQUIRE);
    ExportsAtAssign(src, tables, s, e);
    AssignAtRequire(src, tables, s.(pos := e), r);
    RequireRecordsImport(src, s.(pos := r), q, name, a, b, c);
  }

  /** `exports` then `=` after any comments and whitespace: the detector hands over to the assignment scan at the `=`. */
  lemma ExportsAtAssign(src: Str, tables: IdTables, s: State, e: nat)
    requires StartsWithAt(src, s.pos, EXPORTS)
    requires e == CommentWhitespaceEnd(src, s.pos + 7) && e < |src| && src[e] == '=' as byte
    ensures var (s2, returned) := ExportsAssign(src, tables, s.(pos := e));
      TryParseExportsDotAssign(src, tables, s, true) == if returned then s2 else s2.(pos := s.pos + 6)
  {
    KeywordLengths();
    hide StartsWithAt, AsciiBytes, ExportsAssign, CommentWhitespaceEnd;
  }

  /** `=` then `require` after any comments and whitespace: the assignment scan runs the require detector there. */
  lemma AssignAtRequire(src: Str, tables: IdTables, s: State, r: nat)
    requires r == CommentWhitespaceEnd(src, s.pos + 1) && r < |src| && src[r] == 'r' as byte
    ensures var (s2, m) := TryParseRequire(src, s.(pos := r));
      ExportsAssign(src, tables, s) == if m.Some? then (s2.(result := s2.result.(reexports := [m.value])), false) else (s2, false)
  {
    hide TryParseRequire, TryParseLiteralExports, CommentWhitespaceEnd;
  }

  /**
    * `module.exports = require('x')`, with `.` at `d` and `exports` at `x`:
    * x becomes the one re-export and an import, and the cursor is left on
    * the `s` of `exports`, so the driver reads the `require(...)` again.
    */
  lemma ModuleExportsRequireReverts(src: Str, tables: IdTables, s: State, q: byte, name: Str,
                                    d: nat, x: nat, e: nat, r: nat, a: nat, b: nat, c: nat)
    requires StartsWithAt(src, s.pos, MODULE)
    requires d == CommentWhitespaceEnd(src, s.pos + 6) && d < |src| && src[d] == '.' as byte
    requires x == CommentWhitespaceEnd(src, d + 1) && StartsWithAt(src, x, EXPORTS)
    requires e == CommentWhitespaceEnd(src, x + 7) && e < |src| && src[e] == '=' as byte
    requires r == CommentWhitespaceEnd(src, e + 1) && StartsWithAt(src, r, REQUIRE)
    requires a == CommentWhitespaceEnd(src, r + 7) && a < |src| && src[a] == '(' as byte
    requires b == CommentWhitespaceEnd(src, a + 1) && LexerFacts.QuotedAt(src, b, q, name)
    requires c == CommentWhitespaceEnd(src, LexerFacts.ClosingQuote(b, q, name) + 1) && c < |src| && src[c] == ')' as byte
    ensures TryParseModuleExportsDotAssign(src, tables, s)
      == s.(pos := x + 6, result := s.result.(imports := s.result.imports + [name], reexports := [name]))
  {
    hide LexerFacts.QuotedAt, LexerFacts.ClosingQuote, AsciiBytes, StartsWithAt, CommentWhitespaceEnd,
      TryParseModuleExportsDotAssign, TryParseExportsDotAssign;
    ModuleExportsReachesExports(src, tables, s, d, x);
    ExportsAssignRequireReverts(src, tables, s.(pos := x), q, name, e, r, a, b, c);
  }

  // ---------------------------------------------------------------------
  // module.exports = { ... }
  // ---------------------------------------------------------------------

  /** A value of a recognised shape is read whole: the cursor moves past it and nothing is recorded. */
  lemma LiteralValueReads(src: Str, tables: IdTables, s: State, v: LexerFacts.Value)
    requires LexerFacts.AsciiTables(tables) && LexerFacts.ValueAt(src, s.pos, v)
    ensures LiteralValue(src, tables, s) == (s.(pos := LexerFacts.ValueEnd(s.pos, v)), true)
  {
    match v
    case Name(n) =>
      IdentifierReadsName(src, tables, s, n);
    case Text(q, t) =>
      IdentifierAtNonStart(src, tables, s);
      StringLiteralQuoted(src, s, q, t);
    case Number(ds) =>
      assert src[s.pos] == ds[0];
      IdentifierAtNonStart(src, tables, s);
      assert LegacySpec.StringLiteral(src, s) == (s, None) by {
        assert s.result.errors + [] == s.result.errors;
      }
      NumberLiteralReads(src, s, ds);
  }

  /** A property written at the cursor: its name is exported and the cursor stops where the property ends. */
  lemma LiteralPropertyReads(src: Str, tables: IdTables, s: State, p: LexerFacts.Property, revert: nat)
    requires LexerFacts.AsciiTables(tables) && LexerFacts.PropertyAt(src, s.pos, p)
    ensures LiteralProperty(src, tables, s, revert)
      == (AddExport(s.(pos := LexerFacts.PropertyEnd(src, s.pos, p)), p.name), false)
  {
    hide LiteralValue;
    IdentifierReadsName(src, tables, s, p.name);
    var c := CommentWhitespaceEnd(src, s.pos + |p.name|);
    var t := s.(pos := c);
    hide Identifier;
    assert LiteralProperty(src, tables, s, revert) == PropertyAfterName(src, tables, t, p.name, revert);
    hide LiteralProperty;
    match p.value
    case None =>
    case Some(v) =>
      LiteralValueReads(src, tables, t.(pos := CommentWhitespaceEnd(src, c + 1)), v);
  }

  /** One property and its comma: the name is exported and the loop goes on after the comma. */
  lemma LiteralListStep(src: Str, tables: IdTables, s: State, p: LexerFacts.Property, c: nat, revert: nat)
    requires LexerFacts.AsciiTables(tables) && LexerFacts.PropertyAt(src, CommentWhitespaceEnd(src, s.pos), p)
    requires c == CommentWhitespaceEnd(src, LexerFacts.PropertyEnd(src, CommentWhitespaceEnd(src, s.pos), p))
    requires c < |src| && src[c] == ',' as byte
    ensures LiteralExportsLoop(src, tables, s, revert)
      == LiteralExportsLoop(src, tables, AddExport(s.(pos := c + 1), p.name), revert)
  {
    hide LiteralProperty, LexerFacts.PropertyAt, LexerFacts.PropertyEnd, LexerFacts.AsciiTables;
    var a := CommentWhitespaceEnd(src, s.pos);
    LiteralPropertyReads(src, tables, s.(pos := a), p, revert);
    var t := AddExport(s.(pos := LexerFacts.PropertyEnd(src, a, p)), p.name);
    assert CommentWhitespace(src, t) == t.(pos := c);
    hide CommentWhitespaceEnd;
  }

  /** The state after the object-literal loop has read a list: each name exported in order. */
  function AfterList(s: State, props: seq<LexerFacts.Property>, k: nat): State {
    s.(pos := k, result := s.result.(exports := s.result.exports + LexerFacts.Names(props)))
  }

  /**
    * A list of properties, each followed by a comma: the loop exports every
    * name in order and goes on just past the last comma.
    */
  lemma {:induction false} LiteralListReads(src: Str, tables: IdTables, s: State, props: seq<LexerFacts.Property>,
                                            k: nat, revert: nat)
    requires LexerFacts.AsciiTables(tables) && LexerFacts.ListAt(src, s.pos, props, k)
    ensures LiteralExportsLoop(src, tables, s, revert) == LiteralExportsLoop(src, tables, AfterList(s, props, k), revert)
    decreases |props|
  {
    hide LiteralExportsLoop, LexerFacts.PropertyAt, LexerFacts.PropertyEnd, CommentWhitespaceEnd, LexerFacts.AsciiTables;
    if props == [] {
      assert s.result.exports + LexerFacts.Names(props) == s.result.exports;
      assert AfterList(s, props, k) == s;
    } else {
      var a := CommentWhitespaceEnd(src, s.pos);
      var c := CommentWhitespaceEnd(src, LexerFacts.PropertyEnd(src, a, props[0]));
      assert LexerFacts.ListAt(src, c + 1, props[1..], k);
      LiteralListStep(src, tables, s, props[0], c, revert);
      var s1 := AddExport(s.(pos := c + 1), props[0].name);
      hide LexerFacts.ListAt;
      LiteralListReads(src, tables, s1, props[1..], k, revert);
      AfterListCons(s, props, c, k);
    }
  }

  /** Reading the first property and its comma, then the rest, comes to the same state as reading the whole list. */
  lemma AfterListCons(s: State, props: seq<LexerFacts.Property>, c: nat, k: nat)
    requires props != []
    ensures AfterList(AddExport(s.(pos := c + 1), props[0].name), props[1..], k) == AfterList(s, props, k)
  {
    assert LexerFacts.Names(props) == [props[0].name] + LexerFacts.Names(props[1..]);
    assert s.result.exports + [props[0].name] + LexerFacts.Names(props[1..]) == s.result.exports + LexerFacts.Names(props);
  }

  /**
    * The end of an object literal: an optional last property and the `}`.
    * The last name is exported and the loop stops ON the `}` without
    * consuming it.
    */
  lemma LiteralExportsStopsAtBrace(src: Str, tables: IdTables, s: State, last: Option<LexerFacts.Property>,
                                   close: nat, revert: nat)
    requires LexerFacts.AsciiTables(tables) && LexerFacts.ClosedAt(src, s.pos, last, close)
    ensures LiteralExportsLoop(src, tables, s, revert)
      == s.(pos := close, result := s.result.(exports := s.result.exports + LexerFacts.Exported([], last)))
  {
    var a := CommentWhitespaceEnd(src, s.pos);
    match last
    case None =>
      IdentifierAtNonStart(src, tables, s.(pos := a));
      ScannerFacts.CommentWhitespaceEndIdempotent(src, s.pos);
      assert s.result.exports + LexerFacts.Exported([], last) == s.result.exports;
    case Some(p) =>
      LiteralPropertyReads(src, tables, s.(pos := a), p, revert);
      hide LiteralProperty, LexerFacts.PropertyAt, LexerFacts.PropertyEnd;
      assert LexerFacts.Exported([], last) == [p.name];
  }

  /**
    * `{`, properties each followed by a comma, an optional last property,
    * and `}`, with any whitespace and comments between the tokens: every
    * name is exported in order and the cursor is left ON the `}`.
    */
  lemma LiteralExportsRead(src: Str, tables: IdTables, s: State, init: seq<LexerFacts.Property>,
                           last: Option<LexerFacts.Property>, k: nat, close: nat)
    requires LexerFacts.AsciiTables(tables) && 1 <= s.pos && s.pos < |src| && src[s.pos] == '{' as byte
    requires LexerFacts.ListAt(src, s.pos + 1, init, k) && LexerFacts.ClosedAt(src, k, last, close)
    ensures TryParseLiteralExports(src, tables, s)
      == s.(pos := close, result := s.result.(exports := s.result.exports + LexerFacts.Exported(init, last)))
  {
    hide LiteralExportsLoop, LexerFacts.ListAt, LexerFacts.ClosedAt;
    var s1 := s.(pos := s.pos + 1);
    LiteralListReads(src, tables, s1, init, k, s.pos - 1);
    var t := AfterList(s1, init, k);
    LiteralExportsStopsAtBrace(src, tables, t, last, close, s.pos - 1);
    assert s.result.exports + LexerFacts.Names(init) + LexerFacts.Exported([], last)
        == s.result.exports + LexerFacts.Exported(init, last);
  }

  /** A property whose value is of no recognised shape: the cursor is put back to `revert` and the property aborts the scan. */
  lemma LiteralPropertyBadValue(src: Str, tables: IdTables, s: State, name: Str, revert: nat)
    requires LexerFacts.AsciiTables(tables) && LexerFacts.BadPropertyAt(src, s.pos, name)
    ensures LiteralProperty(src, tables, s, revert) == (s.(pos := revert), true)
  {
    IdentifierReadsName(src, tables, s, name);
    var c := CommentWhitespaceEnd(src, s.pos + |name|);
    var v := CommentWhitespaceEnd(src, c + 1);
    var s2 := s.(pos := v);
    IdentifierAtNonStart(src, tables, s2);
    assert s2.result.errors + [] == s2.result.errors;
    hide Identifier;
    assert LiteralValue(src, tables, s2) == (s2, false);
  }

  /**
    * `{`, properties each followed by a comma, then a property whose value
    * is of no recognised shape: the cursor goes back to the byte before the
    * `{`, yet the names read before it stay exported.
    */
  lemma LiteralExportsRevertKeepsNames(src: Str, tables: IdTables, s: State, init: seq<LexerFacts.Property>,
                                       k: nat, bad: Str)
    requires LexerFacts.AsciiTables(tables) && 1 <= s.pos && s.pos < |src| && src[s.pos] == '{' as byte
    requires LexerFacts.ListAt(src, s.pos + 1, init, k) && LexerFacts.BadPropertyAt(src, CommentWhitespaceEnd(src, k), bad)
    ensures TryParseLiteralExports(src, tables, s)
      == s.(pos := s.pos - 1, result := s.result.(exports := s.result.exports + LexerFacts.Names(init)))
  {
    hide LiteralExportsLoop, LexerFacts.ListAt, LexerFacts.BadPropertyAt;
    var s1 := s.(pos := s.pos + 1);
    LiteralListReads(src, tables, s1, init, k, s.pos - 1);
    LiteralExportsBadValue(src, tables, AfterList(s1, init, k), bad, s.pos - 1);
  }

  /** The loop at a property whose value is of no recognised shape: it stops there with the cursor at `revert`. */
  lemma LiteralExportsBadValue(src: Str, tables: IdTables, s: State, bad: Str, revert: nat)
    requires LexerFacts.AsciiTables(tables) && LexerFacts.BadPropertyAt(src, CommentWhitespaceEnd(src, s.pos), bad)
    ensures LiteralExportsLoop(src, tables, s, revert) == s.(pos := revert)
  {
    var a := CommentWhitespaceEnd(src, s.pos);
    LiteralPropertyBadValue(src, tables, s.(pos := a), bad, revert);
    hide LiteralProperty, LexerFacts.BadPropertyAt;
  }

  /**
    * After `module.`: `exports`, `=` at `e`, then an object literal whose
    * `{` is at `o` (as in LiteralExportsRead): every name is exported in
    * order and the detector returns with the cursor ON the `}`.
    */
  lemma ExportsAssignLiteral(src: Str, tables: IdTables, s: State, e: nat, o: nat,
                             init: seq<LexerFacts.Property>, last: Option<LexerFacts.Property>, k: nat, close: nat)
    requires LexerFacts.AsciiTables(tables) && StartsWithAt(src, s.pos, EXPORTS)
    requires e == CommentWhitespaceEnd(src, s.pos + 7) && e < |src| && src[e] == '=' as byte
    requires o == CommentWhitespaceEnd(src, e + 1) && o < |src| && src[o] == '{' as byte
    requires LexerFacts.ListAt(src, o + 1, init, k) && LexerFacts.ClosedAt(src, k, last, close)
    ensures TryParseExportsDotAssign(src, tables, s, true)
      == s.(pos := close, result := s.result.(exports := s.result.exports + LexerFacts.Exported(init, last)))
  {
    hide LexerFacts.ListAt, LexerFacts.ClosedAt, AsciiBytes, StartsWithAt, CommentWhitespaceEnd, TryParseLiteralExports,
      LexerFacts.AsciiTables;
    LiteralExportsRead(src, tables, s.(pos := o), init, last, k, close);
  }

  /**
    * `module.exports = ` and an object literal, with `.` at `d` and
    * `exports` at `x`: every name is exported in order, and the detector
    * returns with the cursor on the `}`, whose `{` was never pushed on the
    * bracket stack.
    */
  lemma ModuleExportsLiteralLeavesBrace(src: Str, tables: IdTables, s: State, d: nat, x: nat, e: nat, o: nat,
                                        init: seq<LexerFacts.Property>, last: Option<LexerFacts.Property>,
                                        k: nat, close: nat)
    requires LexerFacts.AsciiTables(tables) && StartsWithAt(src, s.pos, MODULE)
    requires d == CommentWhitespaceEnd(src, s.pos + 6) && d < |src| && src[d] == '.' as byte
    requires x == CommentWhitespaceEnd(src, d + 1) && StartsWithAt(src, x, EXPORTS)
    requires e == CommentWhitespaceEnd(src, x + 7) && e < |src| && src[e] == '=' as byte
    requires o == CommentWhitespaceEnd(src, e + 1) && o < |src| && src[o] == '{' as byte
    requires LexerFacts.ListAt(src, o + 1, init, k) && LexerFacts.ClosedAt(src, k, last, close)
    ensures TryParseModuleExportsDotAssign(src, tables, s)
      == s.(pos := close, result := s.result.(exports := s.result.exports + LexerFacts.Exported(init, last)))
  {
    hide LexerFacts.ListAt, LexerFacts.ClosedAt, AsciiBytes, StartsWithAt, CommentWhitespaceEnd,
      TryParseModuleExportsDotAssign, TryParseExportsDotAssign, LexerFacts.AsciiTables;
    ModuleExportsReachesExports(src, tables, s, d, x);
    ExportsAssignLiteral(src, tables, s.(pos := x), e, o, init, last, k, close);
  }

  // ---------------------------------------------------------------------
  // The bracket stack
  // ---------------------------------------------------------------------

  /** A closing byte that matches the top entry pops it and is consumed; nothing is recorded. */
  lemma StepCloseMatched(src: Str, tables: IdTables, s: State)
    requires s.pos < |src| && s.stack != []
    requires src[s.pos] == GetBracketCloseCode(s.stack[|s.stack| - 1])
    ensures Step(src, tables, s) == Some(s.(pos := s.pos + 1, stack := s.stack[..|s.stack| - 1]))
  {
    var top := s.stack[|s.stack| - 1];
    assert top.Parenthesis? || top.SquareBracket? || top.Brace? || top.TemplateBrace?;
  }

  /** An opening byte followed by its closing byte leaves the stack and the result as they were. */
  lemma StepOpenThenClose(src: Str, tables: IdTables, s: State)
    requires s.pos + 1 < |src|
    requires var c := src[s.pos]; var d := src[s.pos + 1];
      (c == '(' as byte && d == ')' as byte) || (c == '[' as byte && d == ']' as byte)
      || (c == '{' as byte && d == '}' as byte)
    ensures var t := Step(src, tables, s);
      t.Some? && Step(src, tables, t.value) == Some(s.(pos := s.pos + 2))
  {
    var t := PushBracket(s, src[s.pos]);
    assert Step(src, tables, s) == Some(t);
    assert t.stack[..|t.stack| - 1] == s.stack;
    StepCloseMatched(src, tables, t);
  }

  /**
    * A closing byte the stack cannot match, because the stack is empty or
    * its top entry is of another kind, first records its diagnostic (at the
    * offset after the byte) and then makes the parser panic.
    */
  lemma StepCloseUnmatchedPanics(src: Str, tables: IdTables, s: State)
    requires s.pos < |src|
    requires src[s.pos] == ')' as byte || src[s.pos] == ']' as byte || src[s.pos] == '}' as byte
    requires s.stack == [] || src[s.pos] != GetBracketCloseCode(s.stack[|s.stack| - 1])
    ensures var e := if s.stack == [] then UnexpectedBracket(src[s.pos], s.pos + 1)
                     else IncorrectClosingBracket(src[s.pos], s.pos + 1);
      PopBracketStack(src, s).0.result.errors == s.result.errors + [e]
    ensures PopBracketStack(src, s).1 == None
    ensures Step(src, tables, s) == None
  {
  }

  /** A step that does not panic hands the run over to the state it reaches. */
  lemma RunThroughStep(src: Str, tables: IdTables, s: State, t: State)
    requires s.pos < |src| && Step(src, tables, s) == Some(t)
    ensures Run(src, tables, s) == Run(src, tables, t)
  {
  }

  /**
    * A byte the driver steps over without effect: whitespace, or a byte
    * that starts no detector, no string, no comment and no bracket.
    */
  predicate InertByte(b: byte) {
    b == ' ' as byte || (8 < b < 14)
    || !(b == 'e' as byte || b == 'r' as byte || b == 'm' as byte || IsQuote(b) || b == '/' as byte
         || b == '(' as byte || b == '[' as byte || b == '{' as byte
         || b == ')' as byte || b == ']' as byte || b == '}' as byte)
  }

  /** The driver steps over a run of inert bytes without changing anything but the cursor. */
  lemma {:induction false} RunSkipsInert(src: Str, tables: IdTables, s: State, n: nat)
    requires s.pos + n <= |src| && forall k :: s.pos <= k < s.pos + n ==> InertByte(src[k])
    ensures Run(src, tables, s) == Run(src, tables, s.(pos := s.pos + n))
    decreases n
  {
    if n > 0 {
      assert InertByte(src[s.pos]);
      RunThroughStep(src, tables, s, s.(pos := s.pos + 1));
      RunSkipsInert(src, tables, s.(pos := s.pos + 1), n - 1);
    }
  }

  /** At the end of the source the run stops with the state it has. */
  lemma RunAtEnd(src: Str, tables: IdTables, s: State)
    requires |src| <= s.pos
    ensures Run(src, tables, s) == Some(s)
  {
  }

  /** At a free-standing `exports` the driver hands over to the exports detector. */
  lemma StepAtExports(src: Str, tables: IdTables, s: State)
    requires StartsWithAt(src, s.pos, EXPORTS) && KeywordStart(src, s.pos)
    ensures s.pos < |src| && Step(src, tables, s) == Some(TryParseExportsDotAssign(src, tables, s, false))
  {
    KeywordLengths();
    LexerFacts.StartsWithFirst(src, s.pos, EXPORTS);
  }

  /** At a free-standing `module` the driver hands over to the module detector. */
  lemma StepAtModule(src: Str, tables: IdTables, s: State)
    requires StartsWithAt(src, s.pos, MODULE) && KeywordStart(src, s.pos)
    ensures s.pos < |src| && Step(src, tables, s) == Some(TryParseModuleExportsDotAssign(src, tables, s))
  {
    KeywordLengths();
    LexerFacts.StartsWithFirst(src, s.pos, MODULE);
  }

  /** At a free-standing `require` the driver hands over to the require detector. */
  lemma StepAtRequire(src: Str, tables: IdTables, s: State)
    requires StartsWithAt(src, s.pos, REQUIRE) && KeywordStart(src, s.pos)
    ensures s.pos < |src| && Step(src, tables, s) == Some(TryParseRequire(src, s).0)
  {
    KeywordLengths();
    LexerFacts.StartsWithFirst(src, s.pos, REQUIRE);
  }

  /** A panic in one step ends the whole run with a panic. */
  lemma RunPanicsAt(src: Str, tables: IdTables, s: State)
    requires s.pos < |src| && Step(src, tables, s) == None
    ensures Run(src, tables, s) == None
  {
  }

  /**
    * A `/` that does not open a comment is skipped like any other byte:
    * this version never scans a regular expression or a division.
    */
  lemma StepSlashSkipped(src: Str, tables: IdTables, s: State)
    requires s.pos < |src| && src[s.pos] == '/' as byte
    requires At(src, s.pos + 1) != Some('*' as byte) && At(src, s.pos + 1) != Some('/' as byte)
    ensures Step(src, tables, s) == Some(s.(pos := s.pos + 1))
  {
  }
}
