/**
  * Properties of the current parser, proved about the functions of module
  * LexerSpec that the class Lexer.Parser is proved to compute: what each
  * export and import detector records for the source forms it recognises,
  * how the context stack behaves, and that a run only ever adds to the
  * import, export and diagnostic lists.
  */
module LexerFacts {
  import opened Wrappers
  import opened Utils
  import opened Scanners
  import opened LexerSpec
  import ScannerFacts
  import Keywords
  import Utf8

  // ---------------------------------------------------------------------
  // ASCII identifiers
  // ---------------------------------------------------------------------

  /**
    * The identifier tables agree with Unicode on ASCII: no ASCII character
    * other than a letter, `_` or `$` starts an identifier, and no other than
    * those and the digits continues one.
    */
  predicate AsciiTables(tables: IdTables) {
    (forall ch: char :: ch as int < 0x80 && tables.idStart(ch) ==> IsAsciiLetter(ch) || ch == '_' || ch == '$')
    && (forall ch: char :: ch as int < 0x80 && tables.idContinue(ch) ==>
          ('0' <= ch <= '9') || IsAsciiLetter(ch) || ch == '_' || ch == '$')
  }

  /** A byte that may start an ASCII identifier. */
  predicate IsWordStartByte(b: byte) {
    ('a' as byte <= b <= 'z' as byte) || ('A' as byte <= b <= 'Z' as byte) || b == '_' as byte || b == '$' as byte
  }

  /** A byte that may continue an ASCII identifier. */
  predicate IsWordByte(b: byte) {
    IsWordStartByte(b) || IsDecimalDigit(b)
  }

  /** An ASCII byte that ends an identifier: neither a word byte nor a backslash. */
  predicate IsAsciiStop(b: byte) {
    b < 0x80 && !IsWordByte(b) && b != '\\' as byte
  }

  /** An identifier made of ASCII bytes only. */
  predicate IsAsciiName(name: Str) {
    |name| > 0 && IsWordStartByte(name[0]) && forall k :: 0 <= k < |name| ==> IsWordByte(name[k])
  }

  /** A run of word bytes ending at the end of the source or at a stop byte is read whole by the identifier loop. */
  lemma {:induction false} IdentifierRestEndOfWord(src: Str, i: nat, n: nat, tables: IdTables)
    requires AsciiTables(tables)
    requires i + n <= |src| && forall k :: i <= k < i + n ==> IsWordByte(src[k])
    requires i + n == |src| || IsAsciiStop(src[i + n])
    ensures IdentifierRestEnd(src, i, tables) == i + n
    decreases n
  {
    if n > 0 {
      IdentifierRestEndOfWord(src, i + 1, n - 1, tables);
    } else if i < |src| {
      var ch := src[i] as char;
      assert Utf8.DecodeAt(src, i) == Some(Utf8.Decoded(ch, 1));
      assert !IsIdentifierChar(ch, tables);
    }
  }

  /**
    * An ASCII name followed by a stop byte is read as one identifier: the
    * cursor moves past it and the expression flag is cleared.
    */
  lemma IdentifierReadsName(src: Str, tables: IdTables, s: State, name: Str)
    requires AsciiTables(tables) && IsAsciiName(name)
    requires ScannerFacts.HoldsAt(src, s.pos, name)
    requires s.pos + |name| < |src| && IsAsciiStop(src[s.pos + |name|])
    ensures Identifier(src, tables, s) == (s.(pos := s.pos + |name|, expectExpr := false), Some(name))
  {
    var e := s.pos + |name|;
    assert src[s.pos] == name[0];
    assert Utf8.DecodeAt(src, s.pos) == Some(Utf8.Decoded(src[s.pos] as char, 1));
    forall k | s.pos + 1 <= k < e
      ensures IsWordByte(src[k])
    {
      assert src[k] == name[k - s.pos];
    }
    IdentifierRestEndOfWord(src, s.pos + 1, |name| - 1, tables);
    assert Utf8.DecodeAt(src, e).Some?;
  }

  /** An ASCII byte other than `\` that cannot start a word starts no identifier: the identifier scanner leaves the state alone. */
  lemma IdentifierAtNonStart(src: Str, tables: IdTables, s: State)
    requires AsciiTables(tables)
    requires s.pos < |src| && src[s.pos] < 0x80 && !IsWordStartByte(src[s.pos]) && src[s.pos] != '\\' as byte
    ensures Identifier(src, tables, s) == (s, None)
  {
    var ch := src[s.pos] as char;
    assert Utf8.DecodeAt(src, s.pos) == Some(Utf8.Decoded(ch, 1));
    assert !IsIdentifierStart(ch, tables);
  }

  // ---------------------------------------------------------------------
  // Whitespace skipping
  // ---------------------------------------------------------------------

  /** A byte at which whitespace and comment skipping stops at once. */
  predicate IsSolid(b: byte) {
    !IsCommentWhitespace(b) && b != '/' as byte
  }

  /** Skipping whitespace and comments in front of a solid byte changes nothing. */
  lemma CommentWhitespaceAtSolid(src: Str, s: State)
    requires s.pos < |src| && IsSolid(src[s.pos])
    ensures CommentWhitespace(src, s) == s
  {
  }

  /** A word start or a quote is a solid byte. */
  lemma WordStartIsSolid(b: byte)
    requires IsWordStartByte(b) || IsQuote(b)
    ensures IsSolid(b)
  {
  }

  // ---------------------------------------------------------------------
  // String and number literals
  // ---------------------------------------------------------------------

  /** Where the closing quote stands of a literal opened at `b` whose body is the escaped `text`. */
  function ClosingQuote(b: nat, q: byte, text: Str): nat {
    b + 1 + |ScannerFacts.EscapeText(q, text)|
  }

  /** A literal quoted with `q`, holding the escaped `text`, stands at `b`. */
  predicate QuotedAt(src: Str, b: nat, q: byte, text: Str) {
    IsQuote(q) && b < |src| && src[b] == q
    && ScannerFacts.HoldsAt(src, b + 1, ScannerFacts.EscapeText(q, text))
    && ClosingQuote(b, q, text) < |src| && src[ClosingQuote(b, q, text)] == q
  }

  /**
    * A quoted literal is read back as its text (the empty text in skip
    * mode): the cursor moves past the closing quote, the flag is cleared,
    * and no diagnostic is recorded.
    */
  lemma StringLiteralQuoted(src: Str, s: State, q: byte, text: Str, skip: bool)
    requires QuotedAt(src, s.pos, q, text)
    ensures LexerSpec.StringLiteral(src, s, skip)
      == (s.(pos := ClosingQuote(s.pos, q, text) + 1, expectExpr := false), Some(if skip then [] else text))
  {
    hide ScannerFacts.EscapeText, ScannerFacts.HoldsAt;
    ScannerFacts.StringLiteralRoundTrip(Current, src, s.pos, q, text);
    assert s.result.errors + [] == s.result.errors;
  }

  /**
    * A number-shaped literal `ds` at `i`: a digit or `.`, then digits, `_`,
    * `.` and ASCII letters, then a byte of another kind.
    */
  predicate NumberAt(src: Str, i: nat, ds: Str) {
    |ds| > 0 && (IsDecimalDigit(ds[0]) || ds[0] == '.' as byte)
    && (forall k :: 0 <= k < |ds| ==> IsNumberByte(ds[k]))
    && ScannerFacts.HoldsAt(src, i, ds) && i + |ds| < |src| && !IsNumberByte(src[i + |ds|])
  }

  /** A number-shaped literal is read whole: the cursor moves past it and the flag is cleared. */
  lemma NumberLiteralReads(src: Str, s: State, ds: Str)
    requires NumberAt(src, s.pos, ds)
    ensures LexerSpec.NumberLiteral(src, s) == (s.(pos := s.pos + |ds|, expectExpr := false), Some(ds))
  {
    forall k | s.pos <= k < s.pos + |ds|
      ensures IsNumberByte(src[k])
    {
      assert src[k] == ds[k - s.pos];
    }
    assert src[s.pos] == ds[0];
    ScannerFacts.NumberRunEndOfRun(src, s.pos, |ds|);
  }

  /** A number-shaped run that reaches the end of the source is not read: the cursor is left at the end, the flag kept. */
  lemma NumberLiteralAtEnd(src: Str, s: State)
    requires s.pos < |src| && (IsDecimalDigit(src[s.pos]) || src[s.pos] == '.' as byte)
    requires forall k :: s.pos <= k < |src| ==> IsNumberByte(src[k])
    ensures LexerSpec.NumberLiteral(src, s) == (s.(pos := |src|), None)
  {
    ScannerFacts.NumberRunEndOfRun(src, s.pos, |src| - s.pos);
  }

  // ---------------------------------------------------------------------
  // require('x')
  // ---------------------------------------------------------------------

  /**
    * The common part of the two lemmas below: `require`, then `(` at `a`
    * and the quoted module name at `b`, each after any whitespace and
    * comments, bring the detector to RequireArgument.
    */
  lemma RequireReachesClose(src: Str, s: State, q: byte, name: Str, a: nat, b: nat)
    requires StartsWithAt(src, s.pos, REQUIRE)
    requires a == CommentWhitespaceEnd(src, s.pos + 7) && a < |src| && src[a] == '(' as byte
    requires b == CommentWhitespaceEnd(src, a + 1) && QuotedAt(src, b, q, name)
    ensures TryParseRequire(src, s)
      == RequireArgument(src, (s.(pos := ClosingQuote(b, q, name) + 1, expectExpr := false), Some(name)))
  {
    hide QuotedAt, ClosingQuote, StartsWithAt, CommentWhitespaceEnd, AsciiBytes;
    StringLiteralQuoted(src, s.(pos := b), q, name, false);
    hide LexerSpec.StringLiteral;
    assert TryParseRequire(src, s) == RequireCall(src, s.(pos := a));
  }

  /**
    * `require`, `(`, a quoted module name and `)`, with any whitespace and
    * comments between them (`a`, `b`, `c` are where the `(`, the opening
    * quote and the `)` stand): the name is recorded as an import and
    * returned, the cursor is left past the `)`, and the flag is cleared.
    */
  lemma RequireRecordsImport(src: Str, s: State, q: byte, name: Str, a: nat, b: nat, c: nat)
    requires StartsWithAt(src, s.pos, REQUIRE)
    requires a == CommentWhitespaceEnd(src, s.pos + 7) && a < |src| && src[a] == '(' as byte
    requires b == CommentWhitespaceEnd(src, a + 1) && QuotedAt(src, b, q, name)
    requires c == CommentWhitespaceEnd(src, ClosingQuote(b, q, name) + 1) && c < |src| && src[c] == ')' as byte
    ensures TryParseRequire(src, s) == (AddImport(s, name).(pos := c + 1, expectExpr := false), Some(name))
  {
    hide QuotedAt, ClosingQuote, StartsWithAt, CommentWhitespaceEnd, AsciiBytes, TryParseRequire;
    RequireReachesClose(src, s, q, name, a, b);
  }

  /**
    * The import is recorded as soon as the module name is read: when the
    * first solid byte after it (at `c`) is not `)`, nothing is returned but
    * the import stays recorded and the cursor is left at `c`.
    */
  lemma RequireWithoutCloseStillImports(src: Str, s: State, q: byte, name: Str, a: nat, b: nat, c: nat)
    requires StartsWithAt(src, s.pos, REQUIRE)
    requires a == CommentWhitespaceEnd(src, s.pos + 7) && a < |src| && src[a] == '(' as byte
    requires b == CommentWhitespaceEnd(src, a + 1) && QuotedAt(src, b, q, name)
    requires c == CommentWhitespaceEnd(src, ClosingQuote(b, q, name) + 1) && (c == |src| || src[c] != ')' as byte)
    ensures TryParseRequire(src, s) == (AddImport(s, name).(pos := c, expectExpr := false), None)
  {
    hide QuotedAt, ClosingQuote, StartsWithAt, CommentWhitespaceEnd, AsciiBytes, TryParseRequire;
    RequireReachesClose(src, s, q, name, a, b);
  }

  // ---------------------------------------------------------------------
  // exports.NAME =, exports['KEY'] =, exports =
  // ---------------------------------------------------------------------

  /**
    * `exports`, `.` at `d`, NAME at `n`, `=` at `e`, with any whitespace and
    * comments between them: NAME is appended to the exports, and the cursor
    * is put back on the last byte of `exports` so that the driver reads on
    * from there.
    */
  lemma ExportsDotNameRecorded(src: Str, tables: IdTables, s: State, name: Str, assign: bool, d: nat, n: nat, e: nat)
    requires AsciiTables(tables) && IsAsciiName(name)
    requires StartsWithAt(src, s.pos, EXPORTS)
    requires d == CommentWhitespaceEnd(src, s.pos + 7) && d < |src| && src[d] == '.' as byte
    requires n == CommentWhitespaceEnd(src, d + 1) && ScannerFacts.HoldsAt(src, n, name)
    requires n + |name| < |src| && IsAsciiStop(src[n + |name|])
    requires e == CommentWhitespaceEnd(src, n + |name|) && e < |src| && src[e] == '=' as byte
    ensures TryParseExportsDotAssign(src, tables, s, assign)
      == AddExport(s.(expectExpr := false), name).(pos := s.pos + 6)
  {
    hide ExportsDotName, ExportsBracketKey, ExportsAssign, StartsWithAt, AsciiBytes, ScannerFacts.HoldsAt, AsciiTables;
    DotNameArm(src, tables, s.(pos := d), name, n, e);
    hide CommentWhitespaceEnd;
  }

  /** `.NAME`, the cursor at the `.`: the name is read, and exported when the next solid byte (at `e`) is `=`. */
  lemma DotNameArm(src: Str, tables: IdTables, s: State, name: Str, n: nat, e: nat)
    requires AsciiTables(tables) && IsAsciiName(name)
    requires n == CommentWhitespaceEnd(src, s.pos + 1) && ScannerFacts.HoldsAt(src, n, name)
    requires n + |name| < |src| && IsAsciiStop(src[n + |name|])
    requires e == CommentWhitespaceEnd(src, n + |name|)
    ensures ExportsDotName(src, tables, s)
      == if e < |src| && src[e] == '=' as byte then AddExport(s.(pos := e, expectExpr := false), name)
         else s.(pos := e, expectExpr := false)
  {
    IdentifierReadsName(src, tables, s.(pos := n), name);
    hide Identifier, ScannerFacts.HoldsAt, CommentWhitespaceEnd;
  }

  /**
    * `exports.NAME` whose next solid byte (at `e`) is not `=` exports
    * nothing; the cursor is put back on the last byte of `exports`.
    */
  lemma ExportsDotNameWithoutAssign(src: Str, tables: IdTables, s: State, name: Str, assign: bool, d: nat, n: nat, e: nat)
    requires AsciiTables(tables) && IsAsciiName(name)
    requires StartsWithAt(src, s.pos, EXPORTS)
    requires d == CommentWhitespaceEnd(src, s.pos + 7) && d < |src| && src[d] == '.' as byte
    requires n == CommentWhitespaceEnd(src, d + 1) && ScannerFacts.HoldsAt(src, n, name)
    requires n + |name| < |src| && IsAsciiStop(src[n + |name|])
    requires e == CommentWhitespaceEnd(src, n + |name|) && (e == |src| || src[e] != '=' as byte)
    ensures TryParseExportsDotAssign(src, tables, s, assign) == s.(pos := s.pos + 6, expectExpr := false)
  {
    hide ExportsDotName, ExportsBracketKey, ExportsAssign, StartsWithAt, AsciiBytes, ScannerFacts.HoldsAt, AsciiTables;
    DotNameArm(src, tables, s.(pos := d), name, n, e);
    hide CommentWhitespaceEnd;
  }

  /**
    * `exports`, `[` at `a`, a quoted KEY at `b`, `]` at `c`, `=` at `e`,
    * with any whitespace and comments between them: the decoded KEY is
    * appended to the exports and the detector returns at the `=` without
    * putting the cursor back.
    */
  lemma ExportsBracketKeyRecorded(src: Str, tables: IdTables, s: State, q: byte, key: Str, assign: bool,
                                  a: nat, b: nat, c: nat, e: nat)
    requires StartsWithAt(src, s.pos, EXPORTS)
    requires a == CommentWhitespaceEnd(src, s.pos + 7) && a < |src| && src[a] == '[' as byte
    requires b == CommentWhitespaceEnd(src, a + 1) && QuotedAt(src, b, q, key)
    requires c == CommentWhitespaceEnd(src, ClosingQuote(b, q, key) + 1) && c < |src| && src[c] == ']' as byte
    requires e == CommentWhitespaceEnd(src, c + 1) && e < |src| && src[e] == '=' as byte
    ensures TryParseExportsDotAssign(src, tables, s, assign) == AddExport(s.(pos := e, expectExpr := false), key)
  {
    hide ExportsDotName, ExportsBracketKey, ExportsAssign, StartsWithAt, AsciiBytes, ScannerFacts.HoldsAt, AsciiTables,
      QuotedAt, ClosingQuote, LexerSpec.StringLiteral, AddExport, CommentWhitespaceEnd;
    BracketKeyArm(src, s.(pos := a), q, key, b, c, e);
  }

  /** The `[KEY] =` arm alone, the cursor at the `[`. */
  lemma BracketKeyArm(src: Str, s: State, q: byte, key: Str, b: nat, c: nat, e: nat)
    requires s.pos < |src| && src[s.pos] == '[' as byte
    requires b == CommentWhitespaceEnd(src, s.pos + 1) && QuotedAt(src, b, q, key)
    requires c == CommentWhitespaceEnd(src, ClosingQuote(b, q, key) + 1) && c < |src| && src[c] == ']' as byte
    requires e == CommentWhitespaceEnd(src, c + 1) && e < |src| && src[e] == '=' as byte
    ensures ExportsBracketKey(src, s) == (AddExport(s.(pos := e, expectExpr := false), key), true)
  {
    hide QuotedAt, ClosingQuote, CommentWhitespaceEnd;
    StringLiteralQuoted(src, s.(pos := b), q, key, false);
    hide LexerSpec.StringLiteral;
  }

  /**
    * `exports =` alone exports nothing (assigning to the `exports` shortcut
    * does not change what the module exports): the cursor is put back on the
    * last byte of `exports` and the state is otherwise unchanged.
    */
  lemma ExportsShortcutAssignIgnored(src: Str, tables: IdTables, s: State, e: nat)
    requires StartsWithAt(src, s.pos, EXPORTS)
    requires e == CommentWhitespaceEnd(src, s.pos + 7) && e < |src| && src[e] == '=' as byte
    ensures TryParseExportsDotAssign(src, tables, s, false) == s.(pos := s.pos + 6)
  {
    hide StartsWithAt, CommentWhitespaceEnd, AsciiBytes, ExportsDotName, ExportsBracketKey, ExportsAssign;
  }

  // ---------------------------------------------------------------------
  // module.exports = { ... }
  // ---------------------------------------------------------------------

  /** A property value of a shape the object-literal scan recognises. */
  datatype Value =
    | Name(name: Str)
    | Text(q: byte, text: Str)
    | Number(digits: Str)

  /** Where a value written at `i` ends. */
  function ValueEnd(i: nat, v: Value): nat {
    match v
    case Name(n) => i + |n|
    case Text(q, t) => ClosingQuote(i, q, t) + 1
    case Number(ds) => i + |ds|
  }

  /** The value `v` is written at `i`: an ASCII identifier, a quoted literal, or a number-shaped literal. */
  predicate ValueAt(src: Str, i: nat, v: Value) {
    match v
    case Name(n) => IsAsciiName(n) && ScannerFacts.HoldsAt(src, i, n) && i + |n| < |src| && IsAsciiStop(src[i + |n|])
    case Text(q, t) => QuotedAt(src, i, q, t)
    case Number(ds) => NumberAt(src, i, ds)
  }

  /** A property of an object literal: its name, and the value after its `:` unless it is shorthand. */
  datatype Property = Property(name: Str, value: Option<Value>)

  /** Where the scan of a property written at `i` stops: past its value, or at the first solid byte after a shorthand name. */
  function PropertyEnd(src: Str, i: nat, p: Property): nat {
    var c := CommentWhitespaceEnd(src, i + |p.name|);
    match p.value
    case None => c
    case Some(v) => ValueEnd(CommentWhitespaceEnd(src, c + 1), v)
  }

  /**
    * The property `p` is written at `i`: its ASCII name, then either no `:`
    * (shorthand) or `:` and its value, with any whitespace and comments
    * around the `:`.
    */
  predicate PropertyAt(src: Str, i: nat, p: Property) {
    IsAsciiName(p.name) && ScannerFacts.HoldsAt(src, i, p.name)
    && i + |p.name| < |src| && IsAsciiStop(src[i + |p.name|])
    && var c := CommentWhitespaceEnd(src, i + |p.name|);
    match p.value
    case None => c == |src| || src[c] != ':' as byte
    case Some(v) => c < |src| && src[c] == ':' as byte && ValueAt(src, CommentWhitespaceEnd(src, c + 1), v)
  }

  /** The names of a list of properties, in order. */
  function Names(props: seq<Property>): seq<Str> {
    if props == [] then [] else [props[0].name] + Names(props[1..])
  }

  /**
    * Properties from `i` on, each followed by a comma, with any whitespace
    * and comments between the tokens; `k` is just past the last comma.
    */
  predicate ListAt(src: Str, i: nat, props: seq<Property>, k: nat)
    decreases |props|
  {
    if props == [] then k == i
    else
      var a := CommentWhitespaceEnd(src, i);
      PropertyAt(src, a, props[0])
      && var c := CommentWhitespaceEnd(src, PropertyEnd(src, a, props[0]));
      c < |src| && src[c] == ',' as byte && ListAt(src, c + 1, props[1..], k)
  }

  /** A property and its comma in front of a list make a longer list. */
  lemma ListAtCons(src: Str, i: nat, p: Property, rest: seq<Property>, k: nat, c: nat)
    requires PropertyAt(src, CommentWhitespaceEnd(src, i), p)
    requires c == CommentWhitespaceEnd(src, PropertyEnd(src, CommentWhitespaceEnd(src, i), p))
    requires c < |src| && src[c] == ',' as byte && ListAt(src, c + 1, rest, k)
    ensures ListAt(src, i, [p] + rest, k)
  {
    hide PropertyAt, PropertyEnd, CommentWhitespaceEnd;
    assert ([p] + rest)[1..] == rest;
  }

  /** After a list ending at `k`: an optional last property without a comma, then `}` at `close`. */
  predicate ClosedAt(src: Str, k: nat, last: Option<Property>, close: nat) {
    close < |src| && src[close] == '}' as byte
    && match last
       case None => close == CommentWhitespaceEnd(src, k)
       case Some(p) =>
         var a := CommentWhitespaceEnd(src, k);
         PropertyAt(src, a, p) && close == CommentWhitespaceEnd(src, PropertyEnd(src, a, p))
  }

  /** The names an object literal exports: those of the list, then that of the last property. */
  function Exported(init: seq<Property>, last: Option<Property>): seq<Str> {
    Names(init) + if last.Some? then [last.value.name] else []
  }

  /** The state after the object-literal loop has read a list: each name exported in order. */
  function AfterList(s: State, props: seq<Property>, k: nat): State {
    s.(pos := k,
       expectExpr := if props == [] then s.expectExpr else false,
       result := s.result.(exports := s.result.exports + Names(props)))
  }

  /**
    * A value of a recognised shape is read whole: the cursor moves past it,
    * the flag is cleared, and nothing is recorded.
    */
  lemma LiteralValueReads(src: Str, tables: IdTables, s: State, v: Value)
    requires AsciiTables(tables) && ValueAt(src, s.pos, v)
    ensures LiteralValue(src, tables, s) == (s.(pos := ValueEnd(s.pos, v), expectExpr := false), true)
  {
    match v
    case Name(n) =>
      IdentifierReadsName(src, tables, s, n);
    case Text(q, t) =>
      IdentifierAtNonStart(src, tables, s);
      StringLiteralQuoted(src, s, q, t, true);
    case Number(ds) =>
      assert src[s.pos] == ds[0];
      IdentifierAtNonStart(src, tables, s);
      assert LexerSpec.StringLiteral(src, s, true) == (s, None) by {
        assert s.result.errors + [] == s.result.errors;
      }
      NumberLiteralReads(src, s, ds);
  }

  /**
    * A property written at the cursor: its name is exported, the flag is
    * cleared, and the cursor stops where the property ends.
    */
  lemma LiteralPropertyReads(src: Str, tables: IdTables, s: State, p: Property, revert: nat)
    requires AsciiTables(tables) && PropertyAt(src, s.pos, p)
    ensures LiteralProperty(src, tables, s, revert)
      == (AddExport(s.(pos := PropertyEnd(src, s.pos, p), expectExpr := false), p.name), false)
  {
    hide LiteralValue;
    IdentifierReadsName(src, tables, s, p.name);
    var c := CommentWhitespaceEnd(src, s.pos + |p.name|);
    var t := s.(pos := c, expectExpr := false);
    hide Identifier;
    assert LiteralProperty(src, tables, s, revert) == PropertyAfterName(src, tables, t, p.name, revert);
    hide LiteralProperty;
    match p.value
    case None =>
    case Some(v) =>
      LiteralValueReads(src, tables, t.(pos := CommentWhitespaceEnd(src, c + 1)), v);
  }

  /** One property and its comma: the name is exported and the loop goes on after the comma. */
  lemma LiteralListStep(src: Str, tables: IdTables, s: State, p: Property, c: nat, revert: nat)
    requires AsciiTables(tables) && PropertyAt(src, CommentWhitespaceEnd(src, s.pos), p)
    requires c == CommentWhitespaceEnd(src, PropertyEnd(src, CommentWhitespaceEnd(src, s.pos), p))
    requires c < |src| && src[c] == ',' as byte
    ensures LiteralExportsLoop(src, tables, s, revert)
      == LiteralExportsLoop(src, tables, AddExport(s.(pos := c + 1, expectExpr := false), p.name), revert)
  {
    hide LiteralProperty, PropertyAt, PropertyEnd, AsciiTables;
    var a := CommentWhitespaceEnd(src, s.pos);
    LiteralPropertyReads(src, tables, s.(pos := a), p, revert);
    var t := AddExport(s.(pos := PropertyEnd(src, a, p), expectExpr := false), p.name);
    assert CommentWhitespace(src, t) == t.(pos := c);
    hide CommentWhitespaceEnd;
  }

  /**
    * A list of properties, each followed by a comma: the loop exports every
    * name in order and goes on just past the last comma.
    */
  lemma {:induction false} LiteralListReads(src: Str, tables: IdTables, s: State, props: seq<Property>, k: nat, revert: nat)
    requires AsciiTables(tables) && ListAt(src, s.pos, props, k)
    ensures LiteralExportsLoop(src, tables, s, revert) == LiteralExportsLoop(src, tables, AfterList(s, props, k), revert)
    decreases |props|
  {
    hide LiteralExportsLoop, PropertyAt, PropertyEnd, CommentWhitespaceEnd, AsciiTables;
    if props == [] {
      assert s.result.exports + Names(props) == s.result.exports;
      assert AfterList(s, props, k) == s;
    } else {
      var a := CommentWhitespaceEnd(src, s.pos);
      var c := CommentWhitespaceEnd(src, PropertyEnd(src, a, props[0]));
      assert ListAt(src, c + 1, props[1..], k);
      LiteralListStep(src, tables, s, props[0], c, revert);
      var s1 := AddExport(s.(pos := c + 1, expectExpr := false), props[0].name);
      hide ListAt;
      LiteralListReads(src, tables, s1, props[1..], k, revert);
      assert Names(props) == [props[0].name] + Names(props[1..]);
      assert s1.result.exports + Names(props[1..]) == s.result.exports + Names(props);
      assert AfterList(s1, props[1..], k) == AfterList(s, props, k);
    }
  }

  /**
    * The end of an object literal: an optional last property and the `}`.
    * The last name is exported, the cursor is left past the `}`, and the
    * flag is cleared.
    */
  lemma LiteralExportsCloses(src: Str, tables: IdTables, s: State, last: Option<Property>, close: nat, revert: nat)
    requires AsciiTables(tables) && ClosedAt(src, s.pos, last, close)
    ensures LiteralExportsLoop(src, tables, s, revert)
      == s.(pos := close + 1, expectExpr := false,
            result := s.result.(exports := s.result.exports + Exported([], last)))
  {
    var a := CommentWhitespaceEnd(src, s.pos);
    match last
    case None =>
      IdentifierAtNonStart(src, tables, s.(pos := a));
      ScannerFacts.CommentWhitespaceEndIdempotent(src, s.pos);
      assert s.result.exports + Exported([], last) == s.result.exports;
    case Some(p) =>
      LiteralPropertyReads(src, tables, s.(pos := a), p, revert);
      hide LiteralProperty, PropertyAt, PropertyEnd;
      assert Exported([], last) == [p.name];
  }

  /**
    * `{`, properties each followed by a comma, an optional last property,
    * and `}`, with any whitespace and comments between the tokens (a
    * trailing comma, shorthand and valued properties, and `{}` all
    * included): every name is exported in order, the cursor is left past
    * the `}`, and the flag is cleared.
    */
  lemma LiteralExportsRead(src: Str, tables: IdTables, s: State, init: seq<Property>, last: Option<Property>,
                           k: nat, close: nat)
    requires AsciiTables(tables) && 1 <= s.pos && s.pos < |src| && src[s.pos] == '{' as byte
    requires ListAt(src, s.pos + 1, init, k) && ClosedAt(src, k, last, close)
    ensures TryParseLiteralExports(src, tables, s)
      == s.(pos := close + 1, expectExpr := false,
            result := s.result.(exports := s.result.exports + Exported(init, last)))
  {
    hide LiteralExportsLoop, ListAt, ClosedAt;
    var s1 := s.(pos := s.pos + 1);
    LiteralListReads(src, tables, s1, init, k, s.pos - 1);
    var t := AfterList(s1, init, k);
    LiteralExportsCloses(src, tables, t, last, close, s.pos - 1);
    assert s.result.exports + Names(init) + Exported([], last) == s.result.exports + Exported(init, last);
  }

  /**
    * A property whose name is followed by `:` and then, after any
    * whitespace and comments, by an ASCII byte that starts none of the
    * recognised value shapes.
    */
  predicate BadPropertyAt(src: Str, i: nat, name: Str) {
    IsAsciiName(name) && ScannerFacts.HoldsAt(src, i, name) && i + |name| < |src| && IsAsciiStop(src[i + |name|])
    && var c := CommentWhitespaceEnd(src, i + |name|);
    c < |src| && src[c] == ':' as byte
    && var v := CommentWhitespaceEnd(src, c + 1);
    v < |src| && IsAsciiStop(src[v]) && !IsQuote(src[v]) && src[v] != '.' as byte
  }

  /** A property whose value is of no recognised shape: the cursor is put back to `revert` and the property aborts the scan. */
  lemma LiteralPropertyBadValue(src: Str, tables: IdTables, s: State, name: Str, revert: nat)
    requires AsciiTables(tables) && BadPropertyAt(src, s.pos, name)
    ensures LiteralProperty(src, tables, s, revert) == (s.(pos := revert, expectExpr := false), true)
  {
    hide Identifier, LiteralValue, CommentWhitespaceEnd, AsciiTables, IsAsciiName, ScannerFacts.HoldsAt, IsAsciiStop;
    IdentifierReadsName(src, tables, s, name);
    var c := CommentWhitespaceEnd(src, s.pos + |name|);
    var v := CommentWhitespaceEnd(src, c + 1);
    LiteralValueRejects(src, tables, s.(pos := v, expectExpr := false));
  }

  /** A value that starts with a stop byte other than a quote or `.` is of no recognised shape, and nothing is read. */
  lemma LiteralValueRejects(src: Str, tables: IdTables, s: State)
    requires AsciiTables(tables) && s.pos < |src| && IsAsciiStop(src[s.pos]) && !IsQuote(src[s.pos]) && src[s.pos] != '.' as byte
    ensures LiteralValue(src, tables, s) == (s, false)
  {
    IdentifierAtNonStart(src, tables, s);
    assert s.result.errors + [] == s.result.errors;
    hide Identifier;
  }

  /** The loop at a property whose value is of no recognised shape: it stops there with the cursor at `revert`. */
  lemma LiteralExportsBadValue(src: Str, tables: IdTables, s: State, bad: Str, revert: nat)
    requires AsciiTables(tables) && BadPropertyAt(src, CommentWhitespaceEnd(src, s.pos), bad)
    ensures LiteralExportsLoop(src, tables, s, revert) == s.(pos := revert, expectExpr := false)
  {
    var a := CommentWhitespaceEnd(src, s.pos);
    LiteralPropertyBadValue(src, tables, s.(pos := a), bad, revert);
    hide LiteralProperty, BadPropertyAt;
  }

  /**
    * `{`, properties each followed by a comma, then a property whose value
    * is of no recognised shape: the cursor goes back to the byte before the
    * `{`, yet the names read before it stay exported.
    */
  lemma LiteralExportsRevertKeepsNames(src: Str, tables: IdTables, s: State, init: seq<Property>, k: nat, bad: Str)
    requires AsciiTables(tables) && 1 <= s.pos && s.pos < |src| && src[s.pos] == '{' as byte
    requires ListAt(src, s.pos + 1, init, k) && BadPropertyAt(src, CommentWhitespaceEnd(src, k), bad)
    ensures TryParseLiteralExports(src, tables, s)
      == s.(pos := s.pos - 1, expectExpr := false, result := s.result.(exports := s.result.exports + Names(init)))
  {
    hide LiteralExportsLoop, ListAt, BadPropertyAt;
    var s1 := s.(pos := s.pos + 1);
    LiteralListReads(src, tables, s1, init, k, s.pos - 1);
    LiteralExportsBadValue(src, tables, AfterList(s1, init, k), bad, s.pos - 1);
  }

  /** Shorthand properties, each followed by a comma: `a,b,c,`. */
  function ShorthandList(names: seq<Str>): (r: Str)
    ensures |r| >= |names|
  {
    if names == [] then [] else names[0] + [',' as byte] + ShorthandList(names[1..])
  }

  predicate AllAsciiNames(names: seq<Str>) {
    forall k :: 0 <= k < |names| ==> IsAsciiName(names[k])
  }

  /** The shorthand properties of the given names. */
  function Shorthands(names: seq<Str>): (r: seq<Property>)
    ensures |r| == |names|
  {
    if names == [] then [] else [Property(names[0], None)] + Shorthands(names[1..])
  }

  /** A name followed by one byte: the name is there, and so is the byte after it. */
  lemma NameThenByte(src: Str, i: nat, name: Str, b: byte)
    requires |name| > 0 && ScannerFacts.HoldsAt(src, i, name + [b])
    ensures ScannerFacts.HoldsAt(src, i, name) && src[i] == name[0] && src[i + |name|] == b
  {
    assert src[i..i + |name|] == (name + [b])[..|name|] == name;
  }

  /** A name and its comma, with no gaps: a shorthand property that ends at the comma. */
  lemma ShorthandIsProperty(src: Str, i: nat, name: Str)
    requires IsAsciiName(name) && ScannerFacts.HoldsAt(src, i, name + [',' as byte])
    ensures CommentWhitespaceEnd(src, i) == i && PropertyAt(src, i, Property(name, None))
    ensures var c := CommentWhitespaceEnd(src, PropertyEnd(src, i, Property(name, None)));
      c == i + |name| && src[c] == ',' as byte
  {
    NameThenByte(src, i, name, ',' as byte);
    var e := i + |name|;
    assert CommentWhitespaceEnd(src, i) == i;
    assert CommentWhitespaceEnd(src, e) == e;
  }

  /** A shorthand property and its comma in front of a list make a longer list. */
  lemma ShorthandCons(src: Str, i: nat, name: Str, rest: seq<Property>, k: nat)
    requires IsAsciiName(name) && ScannerFacts.HoldsAt(src, i, name + [',' as byte])
    requires ListAt(src, i + |name| + 1, rest, k)
    ensures ListAt(src, i, [Property(name, None)] + rest, k)
  {
    ShorthandIsProperty(src, i, name);
    hide ScannerFacts.HoldsAt, IsAsciiName;
    ListAtCons(src, i, Property(name, None), rest, k, i + |name|);
  }

  /** The shorthand properties of some names export exactly those names. */
  lemma {:induction false} ShorthandNames(names: seq<Str>)
    ensures Names(Shorthands(names)) == names
    decreases |names|
  {
    if names != [] {
      var rest := Shorthands(names[1..]);
      assert Shorthands(names) == [Property(names[0], None)] + rest;
      ShorthandNames(names[1..]);
      assert [names[0]] + names[1..] == names;
    }
  }

  /** `a,b,c,` written with no gaps is a list of shorthand properties that exports exactly those names. */
  lemma {:induction false} ShorthandListIsList(src: Str, i: nat, names: seq<Str>)
    requires AllAsciiNames(names) && ScannerFacts.HoldsAt(src, i, ShorthandList(names))
    ensures ListAt(src, i, Shorthands(names), i + |ShorthandList(names)|) && Names(Shorthands(names)) == names
    decreases |names|
  {
    ShorthandNames(names);
    hide PropertyAt, PropertyEnd, CommentWhitespaceEnd, Names;
    if names == [] {
      assert Shorthands(names) == [] && ShorthandList(names) == [];
    } else {
      hide ListAt;
      var head := names[0] + [',' as byte];
      var tail := ShorthandList(names[1..]);
      var rest := Shorthands(names[1..]);
      assert ShorthandList(names) == head + tail;
      assert Shorthands(names) == [Property(names[0], None)] + rest;
      assert IsAsciiName(names[0]) && AllAsciiNames(names[1..]);
      ScannerFacts.HoldsAtSplit(src, i, head, tail);
      hide ShorthandList, ScannerFacts.HoldsAt, Shorthands, AllAsciiNames, IsAsciiName;
      ShorthandListIsList(src, i + |head|, names[1..]);
      ShorthandCons(src, i, names[0], rest, i + |head| + |tail|);
    }
  }

  // ---------------------------------------------------------------------
  // module.exports = ...
  // ---------------------------------------------------------------------

  /** A word that starts at `i` has its first byte there. */
  lemma StartsWithFirst(src: Str, i: nat, kw: Str)
    requires |kw| > 0 && StartsWithAt(src, i, kw)
    ensures i < |src| && src[i] == kw[0]
  {
    assert src[i..i + |kw|][0] == src[i];
  }

  /**
    * `module`, `.` at `d` and `exports` at `x`, with any whitespace and
    * comments between them, bring the module detector to the exports
    * detector, in its `module.` mode.
    */
  lemma ModuleExportsReachesExports(src: Str, tables: IdTables, s: State, d: nat, x: nat)
    requires StartsWithAt(src, s.pos, MODULE)
    requires d == CommentWhitespaceEnd(src, s.pos + 6) && d < |src| && src[d] == '.' as byte
    requires x == CommentWhitespaceEnd(src, d + 1) && StartsWithAt(src, x, EXPORTS)
    ensures TryParseModuleExportsDotAssign(src, tables, s) == TryParseExportsDotAssign(src, tables, s.(pos := x), true)
  {
    hide StartsWithAt, CommentWhitespaceEnd, TryParseExportsDotAssign, AsciiBytes;
    KeywordLengths();
  }

  /**
    * After `module.`: `exports`, `=` at `e` and `require(` a quoted name `)`
    * from `r` (`require` at `r`; `(`, the quote and `)` at `a`, `b`, `c`),
    * with any whitespace and comments between the tokens: the name becomes
    * the one re-export (replacing any earlier one) and is recorded as an
    * import too; the cursor is left past the `)`.
    */
  lemma ExportsAssignRequire(src: Str, tables: IdTables, s: State, q: byte, name: Str,
                             e: nat, r: nat, a: nat, b: nat, c: nat)
    requires StartsWithAt(src, s.pos, EXPORTS)
    requires e == CommentWhitespaceEnd(src, s.pos + 7) && e < |src| && src[e] == '=' as byte
    requires r == CommentWhitespaceEnd(src, e + 1) && StartsWithAt(src, r, REQUIRE)
    requires a == CommentWhitespaceEnd(src, r + 7) && a < |src| && src[a] == '(' as byte
    requires b == CommentWhitespaceEnd(src, a + 1) && QuotedAt(src, b, q, name)
    requires c == CommentWhitespaceEnd(src, ClosingQuote(b, q, name) + 1) && c < |src| && src[c] == ')' as byte
    ensures TryParseExportsDotAssign(src, tables, s, true)
      == s.(pos := c + 1, expectExpr := false,
            result := s.result.(imports := s.result.imports + [name], reexports := [name]))
  {
    hide QuotedAt, ClosingQuote, AsciiBytes, StartsWithAt, CommentWhitespaceEnd, TryParseRequire,
      TryParseExportsDotAssign, ExportsAssign;
    KeywordLengths();
    StartsWithFirst(src, r, REQUIRE);
    ExportsAtAssign(src, tables, s, e);
    AssignAtRequire(src, tables, s.(pos := e), r);
    RequireRecordsImport(src, s.(pos := r), q, name, a, b, c);
  }

  /** `exports` then `=` after any comments and whitespace: the detector hands over to the assignment scan at the `=`. */
  lemma ExportsAtAssign(src: Str, tables: IdTables, s: State, e: nat)
    requires StartsWithAt(src, s.pos, EXPORTS)
    requires e == CommentWhitespaceEnd(src, s.pos + 7) && e < |src| && src[e] == '=' as byte
    ensures var (s2, returned) := ExportsAssign(src, tables, s.(pos := e));
      TryParseExportsDotAssign(src, tables, s, true) == if returned then s2 else s2.(pos := s.pos + 6)
  {
    KeywordLengths();
    hide StartsWithAt, AsciiBytes, ExportsAssign, CommentWhitespaceEnd;
  }

  /** `=` then `require` after any comments and whitespace: the assignment scan runs the require detector there. */
  lemma AssignAtRequire(src: Str, tables: IdTables, s: State, r: nat)
    requires r == CommentWhitespaceEnd(src, s.pos + 1) && r < |src| && src[r] == 'r' as byte
    ensures var (s2, m) := TryParseRequire(src, s.(pos := r));
      ExportsAssign(src, tables, s) == if m.Some? then (s2.(result := s2.result.(reexports := [m.value])), true) else (s2, false)
  {
    hide TryParseRequire, TryParseLiteralExports, CommentWhitespaceEnd;
  }

  /** `module.exports = require('x')`, with `.` at `d` and `exports` at `x`: the same, from the start of `module`. */
  lemma ModuleExportsRequire(src: Str, tables: IdTables, s: State, q: byte, name: Str,
                             d: nat, x: nat, e: nat, r: nat, a: nat, b: nat, c: nat)
    requires StartsWithAt(src, s.pos, MODULE)
    requires d == CommentWhitespaceEnd(src, s.pos + 6) && d < |src| && src[d] == '.' as byte
    requires x == CommentWhitespaceEnd(src, d + 1) && StartsWithAt(src, x, EXPORTS)
    requires e == CommentWhitespaceEnd(src, x + 7) && e < |src| && src[e] == '=' as byte
    requires r == CommentWhitespaceEnd(src, e + 1) && StartsWithAt(src, r, REQUIRE)
    requires a == CommentWhitespaceEnd(src, r + 7) && a < |src| && src[a] == '(' as byte
    requires b == CommentWhitespaceEnd(src, a + 1) && QuotedAt(src, b, q, name)
    requires c == CommentWhitespaceEnd(src, ClosingQuote(b, q, name) + 1) && c < |src| && src[c] == ')' as byte
    ensures TryParseModuleExportsDotAssign(src, tables, s)
      == s.(pos := c + 1, expectExpr := false,
            result := s.result.(imports := s.result.imports + [name], reexports := [name]))
  {
    hide QuotedAt, ClosingQuote, AsciiBytes, StartsWithAt, CommentWhitespaceEnd, TryParseModuleExportsDotAssign,
      TryParseExportsDotAssign;
    ModuleExportsReachesExports(src, tables, s, d, x);
    ExportsAssignRequire(src, tables, s.(pos := x), q, name, e, r, a, b, c);
  }

  /**
    * After `module.`: `exports`, `=` at `e`, then an object literal whose
    * `{` is at `o` (as in LiteralExportsRead): every name is exported in
    * order and the cursor is left past the `}`.
    */
  lemma ExportsAssignLiteral(src: Str, tables: IdTables, s: State, e: nat, o: nat,
                             init: seq<Property>, last: Option<Property>, k: nat, close: nat)
    requires AsciiTables(tables) && StartsWithAt(src, s.pos, EXPORTS)
    requires e == CommentWhitespaceEnd(src, s.pos + 7) && e < |src| && src[e] == '=' as byte
    requires o == CommentWhitespaceEnd(src, e + 1) && o < |src| && src[o] == '{' as byte
    requires ListAt(src, o + 1, init, k) && ClosedAt(src, k, last, close)
    ensures TryParseExportsDotAssign(src, tables, s, true)
      == s.(pos := close + 1, expectExpr := false,
            result := s.result.(exports := s.result.exports + Exported(init, last)))
  {
    hide ListAt, ClosedAt, AsciiBytes, StartsWithAt, CommentWhitespaceEnd, TryParseLiteralExports, AsciiTables;
    LiteralExportsRead(src, tables, s.(pos := o), init, last, k, close);
  }

  /**
    * `module.exports = ` and an object literal, with `.` at `d` and
    * `exports` at `x`: every name is exported in order and the cursor is
    * left past the `}`.
    */
  lemma ModuleExportsLiteral(src: Str, tables: IdTables, s: State, d: nat, x: nat, e: nat, o: nat,
                             init: seq<Property>, last: Option<Property>, k: nat, close: nat)
    requires AsciiTables(tables) && StartsWithAt(src, s.pos, MODULE)
    requires d == CommentWhitespaceEnd(src, s.pos + 6) && d < |src| && src[d] == '.' as byte
    requires x == CommentWhitespaceEnd(src, d + 1) && StartsWithAt(src, x, EXPORTS)
    requires e == CommentWhitespaceEnd(src, x + 7) && e < |src| && src[e] == '=' as byte
    requires o == CommentWhitespaceEnd(src, e + 1) && o < |src| && src[o] == '{' as byte
    requires ListAt(src, o + 1, init, k) && ClosedAt(src, k, last, close)
    ensures TryParseModuleExportsDotAssign(src, tables, s)
      == s.(pos := close + 1, expectExpr := false,
            result := s.result.(exports := s.result.exports + Exported(init, last)))
  {
    hide ListAt, ClosedAt, AsciiBytes, StartsWithAt, CommentWhitespaceEnd, TryParseModuleExportsDotAssign,
      TryParseExportsDotAssign, AsciiTables;
    ModuleExportsReachesExports(src, tables, s, d, x);
    ExportsAssignLiteral(src, tables, s.(pos := x), e, o, init, last, k, close);
  }

  // ---------------------------------------------------------------------
  // Template literals
  // ---------------------------------------------------------------------

  /**
    * The bytes from `i` up to `j` are template text: escapes (a backslash
    * and the byte after it) and bytes that are neither a backtick, nor a
    * backslash, nor a `$` directly before `{`.
    */
  predicate TemplateText(src: Str, i: nat, j: nat)
    decreases j - i
  {
    i <= j <= |src|
    && (i == j
        || (src[i] == '\\' as byte && i + 2 <= j && TemplateText(src, i + 2, j))
        || (src[i] != '`' as byte && src[i] != '\\' as byte && !(src[i] == '$' as byte && At(src, i + 1) == Some('{' as byte))
            && TemplateText(src, i + 1, j)))
  }

  /** Template text up to a backtick: the scan stops past the backtick and clears the flag. */
  lemma {:induction false} TemplateBodyToBacktick(src: Str, s: State, j: nat)
    requires TemplateText(src, s.pos, j) && j < |src| && src[j] == '`' as byte
    ensures TemplateBody(src, s) == s.(pos := j + 1, expectExpr := false)
    decreases j - s.pos
  {
    if s.pos < j {
      if src[s.pos] == '\\' as byte {
        TemplateBodyToBacktick(src, s.(pos := s.pos + 2), j);
      } else {
        TemplateBodyToBacktick(src, s.(pos := s.pos + 1), j);
      }
    }
  }

  /**
    * Template text up to `${`: the scan stops past the `{`, pushes the
    * interpolation's entry on the stack, and expects an expression.
    */
  lemma {:induction false} TemplateBodyToInterpolation(src: Str, s: State, j: nat)
    requires TemplateText(src, s.pos, j) && j + 1 < |src| && src[j] == '$' as byte && src[j + 1] == '{' as byte
    ensures TemplateBody(src, s) == s.(pos := j + 2, stack := s.stack + [LexerSpec.Bracket.TemplateBrace], expectExpr := true)
    decreases j - s.pos
  {
    if s.pos < j {
      if src[s.pos] == '\\' as byte {
        TemplateBodyToInterpolation(src, s.(pos := s.pos + 2), j);
      } else {
        TemplateBodyToInterpolation(src, s.(pos := s.pos + 1), j);
      }
    }
  }

  /** Template text to the end of the source: the scan stops at the end, flag and stack unchanged, and records nothing. */
  lemma {:induction false} TemplateBodyUnterminated(src: Str, s: State)
    requires TemplateText(src, s.pos, |src|)
    ensures TemplateBody(src, s) == s.(pos := |src|)
    decreases |src| - s.pos
  {
    if s.pos < |src| {
      if src[s.pos] == '\\' as byte {
        TemplateBodyUnterminated(src, s.(pos := s.pos + 2));
      } else {
        TemplateBodyUnterminated(src, s.(pos := s.pos + 1));
      }
    }
  }

  /** A whole template literal without interpolation, from its backtick to the closing one at `j`. */
  lemma TemplateLiteralPlain(src: Str, s: State, j: nat)
    requires s.pos < |src| && src[s.pos] == '`' as byte
    requires TemplateText(src, s.pos + 1, j) && j < |src| && src[j] == '`' as byte
    ensures TemplateLiteral(src, s, false) == s.(pos := j + 1, expectExpr := false)
  {
    TemplateBodyToBacktick(src, s.(pos := s.pos + 1), j);
  }

  /**
    * The `}` that closes an interpolation (its entry on top of the stack)
    * pops it and resumes the template: the byte after the `}` is skipped
    * unread unless it is the closing backtick, and then the text runs to
    * the closing backtick at `j`.
    */
  lemma CloseInterpolationResumes(src: Str, s: State, j: nat)
    requires s.pos + 1 < |src| && src[s.pos] == '}' as byte
    requires s.stack != [] && s.stack[|s.stack| - 1] == LexerSpec.Bracket.TemplateBrace
    requires (src[s.pos + 1] == '`' as byte && j == s.pos + 1)
          || (src[s.pos + 1] != '`' as byte && TemplateText(src, s.pos + 2, j) && j < |src| && src[j] == '`' as byte)
    ensures CloseBracket(src, s) == s.(pos := j + 1, stack := s.stack[..|s.stack| - 1], expectExpr := false)
  {
    var s1 := s.(pos := s.pos + 1, stack := s.stack[..|s.stack| - 1], expectExpr := false);
    assert PopBracketStack(src, s) == (s1, Some(LexerSpec.Bracket.TemplateBrace));
    if src[s.pos + 1] != '`' as byte {
      TemplateBodyToBacktick(src, s1.(pos := s.pos + 2), j);
    }
  }
}
