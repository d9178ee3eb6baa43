/**
  * Two places where the earlier parser version (src/parser.rs) departs from
  * what it evidently means to do. Each is shown on the earlier version as
  * written (module LegacySpec), first for one driver step and then over the
  * whole parse of a module that holds just that statement on its second
  * line, and set against the current version (module LexerSpec), whose
  * detectors do what was meant.
  *
  * 1. `module.exports = { ... }` at top level: the earlier object-literal
  *    scan consumes the `{` without pushing it on the bracket stack and
  *    stops ON the `}`; the driver then pops the `}` from an empty stack
  *    and panics. The current scan consumes the `}` itself.
  *
  * 2. `module.exports = require('x')`: the earlier detector records x and
  *    then still puts the cursor back into `exports`, so the driver meets
  *    the same `require('x')` again and records x a second time. The
  *    current detector returns past the `)`.
  */
module Findings {
  import opened Wrappers
  import opened Utils
  import opened Scanners
  import LexerSpec
  import LexerFacts
  import LegacySpec
  import LegacyFacts
  import ScannerFacts

  // ---------------------------------------------------------------------
  // 1. module.exports = { ... }
  // ---------------------------------------------------------------------

  /**
    * `module` at `i`, `.` at `d`, `exports` at `x`, `=` at `e`, `{` at `o`,
    * then the properties `init` each followed by a comma, an optional last
    * property and `}` at `close`, with any whitespace and comments between
    * the tokens.
    */
  predicate ModuleLiteralAt(src: Str, i: nat, d: nat, x: nat, e: nat, o: nat,
                            init: seq<LexerFacts.Property>, last: Option<LexerFacts.Property>, k: nat, close: nat) {
    StartsWithAt(src, i, MODULE)
    && d == CommentWhitespaceEnd(src, i + 6) && d < |src| && src[d] == '.' as byte
    && x == CommentWhitespaceEnd(src, d + 1) && StartsWithAt(src, x, EXPORTS)
    && e == CommentWhitespaceEnd(src, x + 7) && e < |src| && src[e] == '=' as byte
    && o == CommentWhitespaceEnd(src, e + 1) && o < |src| && src[o] == '{' as byte
    && LexerFacts.ListAt(src, o + 1, init, k) && LexerFacts.ClosedAt(src, k, last, close)
  }

  /**
    * As written: with an empty bracket stack (at top level), the driver
    * exports the names and then panics on the `}` the detector left behind.
    */
  lemma LegacyObjectLiteralPanics(src: Str, tables: IdTables, s: LegacySpec.State, d: nat, x: nat, e: nat, o: nat,
                                  init: seq<LexerFacts.Property>, last: Option<LexerFacts.Property>, k: nat, close: nat)
    requires LexerFacts.AsciiTables(tables) && s.stack == []
    requires ModuleLiteralAt(src, s.pos, d, x, e, o, init, last, k, close) && LegacySpec.KeywordStart(src, s.pos)
    ensures LegacySpec.Run(src, tables, s) == None
  {
    hide LegacySpec.TryParseModuleExportsDotAssign, LegacySpec.Step, LegacySpec.Run, StartsWithAt, AsciiBytes,
      LexerFacts.ListAt, CommentWhitespaceEnd, LexerFacts.AsciiTables, LegacySpec.KeywordStart;
    LegacyFacts.StepAtModule(src, tables, s);
    LegacyFacts.ModuleExportsLiteralLeavesBrace(src, tables, s, d, x, e, o, init, last, k, close);
    var t := s.(pos := close, result := s.result.(exports := s.result.exports + LexerFacts.Exported(init, last)));
    LegacyFacts.RunThroughStep(src, tables, s, t);
    LegacyFacts.StepCloseUnmatchedPanics(src, tables, t);
    LegacyFacts.RunPanicsAt(src, tables, t);
  }

  /**
    * As written: a module whose second line is `module.exports = { ... }`
    * (a line break at offset 0, the statement from offset 1, the `}` last)
    * makes the whole parse panic.
    */
  lemma LegacyObjectLiteralModulePanics(src: Str, tables: IdTables, d: nat, x: nat, e: nat, o: nat,
                                        init: seq<LexerFacts.Property>, last: Option<LexerFacts.Property>,
                                        k: nat, close: nat)
    requires LexerFacts.AsciiTables(tables) && 0 < |src| && src[0] == '\n' as byte
    requires ModuleLiteralAt(src, 1, d, x, e, o, init, last, k, close)
    ensures LegacySpec.Parse(src, tables, LegacySpec.Initial) == None
  {
    LegacyLineBreakFirst(src, tables);
    hide LegacySpec.Step, LegacySpec.Run, LegacySpec.Parse, ModuleLiteralAt, LexerFacts.AsciiTables;
    LegacyObjectLiteralPanics(src, tables, LegacySpec.Initial.(pos := 1), d, x, e, o, init, last, k, close);
  }

  /** The current driver's step at a `module` keyword start is the `module.exports` recogniser. */
  lemma CurrentStepAtModule(src: Str, tables: IdTables, s: LexerSpec.State)
    requires StartsWithAt(src, s.pos, MODULE) && LexerSpec.KeywordStart(src, s.pos)
    ensures s.pos < |src|
    ensures LexerSpec.Step(src, tables, s) == LexerSpec.TryParseModuleExportsDotAssign(src, tables, s)
  {
    KeywordLengths();
    LexerFacts.StartsWithFirst(src, s.pos, MODULE);
    hide LexerSpec.TryParseModuleExportsDotAssign, LexerSpec.TryParseExportsDotAssign, LexerSpec.TryParseRequire,
      LexerSpec.Keyword, LexerSpec.StringLiteral, LexerSpec.TemplateLiteral, LexerSpec.Punctuation, StartsWithAt, AsciiBytes;
    assert LexerSpec.WordOrLiteralStart(src, s.pos);
  }

  /**
    * Corrected: the current driver's step over the same text exports every
    * name in order and moves past the `}`, leaving the bracket stack as it
    * was.
    */
  lemma CurrentObjectLiteralStep(src: Str, tables: IdTables, s: LexerSpec.State, d: nat, x: nat, e: nat, o: nat,
                                 init: seq<LexerFacts.Property>, last: Option<LexerFacts.Property>, k: nat, close: nat)
    requires LexerFacts.AsciiTables(tables)
    requires ModuleLiteralAt(src, s.pos, d, x, e, o, init, last, k, close) && LexerSpec.KeywordStart(src, s.pos)
    ensures LexerSpec.Step(src, tables, s)
      == s.(pos := close + 1, expectExpr := false,
            result := s.result.(exports := s.result.exports + LexerFacts.Exported(init, last)))
  {
    hide LexerSpec.Step, LexerSpec.TryParseModuleExportsDotAssign, LexerFacts.ListAt, LexerFacts.ClosedAt,
      LexerFacts.AsciiTables;
    LexerFacts.ModuleExportsLiteral(src, tables, s, d, x, e, o, init, last, k, close);
    CurrentStepAtModule(src, tables, s);
  }

  /**
    * Corrected: the same module, parsed by the current version, exports
    * exactly the names of the literal, in order, with no diagnostic.
    */
  lemma CurrentObjectLiteralModuleExports(src: Str, tables: IdTables, d: nat, x: nat, e: nat, o: nat,
                                          init: seq<LexerFacts.Property>, last: Option<LexerFacts.Property>,
                                          k: nat, close: nat)
    requires LexerFacts.AsciiTables(tables) && 0 < |src| && src[0] == '\n' as byte
    requires ModuleLiteralAt(src, 1, d, x, e, o, init, last, k, close) && |src| == close + 1
    ensures LexerSpec.Parse(src, tables, LexerSpec.Initial).result == EmptyResult.(exports := LexerFacts.Exported(init, last))
  {
    var s1 := LexerSpec.Initial.(pos := 1);
    CurrentLineBreakFirst(src, tables);
    hide LexerSpec.Step, LexerSpec.Parse, ModuleLiteralAt, LexerFacts.AsciiTables;
    CurrentObjectLiteralStep(src, tables, s1, d, x, e, o, init, last, k, close);
    assert [] + LexerFacts.Exported(init, last) == LexerFacts.Exported(init, last);
  }

  // ---------------------------------------------------------------------
  // 2. module.exports = require('x')
  // ---------------------------------------------------------------------

  /**
    * `module` at `i`, `.` at `d`, `exports` at `x`, `=` at `e`, `require` at
    * `r`, `(` at `a`, the quoted name at `b` and `)` at `c`, with any
    * whitespace and comments between the tokens.
    */
  predicate RequireAssignAt(src: Str, i: nat, q: byte, name: Str, d: nat, x: nat, e: nat, r: nat, a: nat, b: nat, c: nat) {
    StartsWithAt(src, i, MODULE)
    && d == CommentWhitespaceEnd(src, i + 6) && d < |src| && src[d] == '.' as byte
    && x == CommentWhitespaceEnd(src, d + 1) && StartsWithAt(src, x, EXPORTS)
    && e == CommentWhitespaceEnd(src, x + 7) && e < |src| && src[e] == '=' as byte
    && r == CommentWhitespaceEnd(src, e + 1) && StartsWithAt(src, r, REQUIRE)
    && a == CommentWhitespaceEnd(src, r + 7) && a < |src| && src[a] == '(' as byte
    && b == CommentWhitespaceEnd(src, a + 1) && LexerFacts.QuotedAt(src, b, q, name)
    && c == CommentWhitespaceEnd(src, LexerFacts.ClosingQuote(b, q, name) + 1) && c < |src| && src[c] == ')' as byte
  }

  /** Between `exports` and `require` there are only `=`, spaces and line breaks (no comment). */
  predicate PlainGap(src: Str, from: nat, to: nat) {
    to <= |src| && forall j :: from <= j < to ==> src[j] == '=' as byte || src[j] == ' ' as byte || 8 < src[j] < 14
  }

  /** As written: the first step records x as import and re-export and leaves the cursor on the `s` of `exports`. */
  lemma LegacyReexportFirstStep(src: Str, tables: IdTables, s: LegacySpec.State, q: byte, name: Str,
                                d: nat, x: nat, e: nat, r: nat, a: nat, b: nat, c: nat)
    requires RequireAssignAt(src, s.pos, q, name, d, x, e, r, a, b, c) && LegacySpec.KeywordStart(src, s.pos)
    ensures LegacySpec.Step(src, tables, s)
      == Some(s.(pos := x + 6, result := s.result.(imports := s.result.imports + [name], reexports := [name])))
  {
    LegacyFacts.StepAtModule(src, tables, s);
    LegacyFacts.ModuleExportsRequireReverts(src, tables, s, q, name, d, x, e, r, a, b, c);
  }

  /**
    * As written: the driver, put back on the `s` of `exports`, steps over
    * it and the plain gap, reaches the `require` a second time, reads it as
    * a call and records x again.
    */
  lemma LegacyRequireReadAgain(src: Str, tables: IdTables, s: LegacySpec.State, q: byte, name: Str,
                               d: nat, x: nat, e: nat, r: nat, a: nat, b: nat, c: nat)
    requires RequireAssignAt(src, s.pos, q, name, d, x, e, r, a, b, c) && PlainGap(src, x + 7, r)
    ensures var t := s.(pos := x + 6);
      LegacySpec.Run(src, tables, t) == LegacySpec.Run(src, tables, LegacySpec.AddImport(t, name).(pos := c + 1))
  {
    hide CommentWhitespaceEnd, LexerFacts.QuotedAt, LexerFacts.ClosingQuote, AsciiBytes,
      LegacySpec.Run, LegacySpec.Step, LegacySpec.TryParseRequire, LegacySpec.KeywordStart;
    var t := s.(pos := x + 6);
    var tr := t.(pos := r);
    ExportsTailSkipped(src, tables, t, r);
    LegacyFacts.RequireRecordsImport(src, tr, q, name, a, b, c);
    LegacyFacts.StepAtRequire(src, tables, tr);
    LegacyFacts.RunThroughStep(src, tables, tr, LegacySpec.AddImport(t, name).(pos := c + 1));
  }

  /** From the `s` of `exports`, over a plain gap, the driver reaches a `require` that starts a keyword. */
  lemma ExportsTailSkipped(src: Str, tables: IdTables, t: LegacySpec.State, r: nat)
    requires 6 <= t.pos && StartsWithAt(src, t.pos - 6, EXPORTS) && t.pos + 1 < r
    requires PlainGap(src, t.pos + 1, r) && StartsWithAt(src, r, REQUIRE)
    ensures LegacySpec.KeywordStart(src, r)
    ensures LegacySpec.Run(src, tables, t) == LegacySpec.Run(src, tables, t.(pos := r))
  {
    hide LegacySpec.Run, LegacySpec.KeywordStart, LegacyFacts.InertByte;
    ExportsLastByte(src, t.pos - 6);
    PlainGapInert(src, t.pos, r);
    LegacyFacts.RunSkipsInert(src, tables, t, r - t.pos);
  }

  /** The last byte of an `exports` in the source is its `s`. */
  lemma ExportsLastByte(src: Str, x: nat)
    requires StartsWithAt(src, x, EXPORTS)
    ensures x + 7 <= |src| && src[x + 6] == 's' as byte
  {
    KeywordLengths();
    assert src[x..x + 7] == EXPORTS;
    assert src[x + 6] == EXPORTS[6];
  }

  /**
    * The `s` of `exports` and a plain gap after it are bytes the driver
    * steps over, and a keyword may start right after the gap.
    */
  lemma PlainGapInert(src: Str, i: nat, r: nat)
    requires i + 1 < r <= |src| && src[i] == 's' as byte && PlainGap(src, i + 1, r)
    ensures forall j :: i <= j < r ==> LegacyFacts.InertByte(src[j])
    ensures LegacySpec.KeywordStart(src, r)
  {
    assert src[r - 1] == '=' as byte || src[r - 1] == ' ' as byte || 8 < src[r - 1] < 14;
  }

  /**
    * As written: a module whose second line is `module.exports =
    * require('x')` (a line break at offset 0, the statement from offset 1,
    * the `)` last) ends with x as its re-export and x recorded twice as an
    * import.
    */
  lemma LegacyReexportImportedTwice(src: Str, tables: IdTables, q: byte, name: Str,
                                    d: nat, x: nat, e: nat, r: nat, a: nat, b: nat, c: nat)
    requires 0 < |src| && src[0] == '\n' as byte && |src| == c + 1
    requires RequireAssignAt(src, 1, q, name, d, x, e, r, a, b, c) && PlainGap(src, x + 7, r)
    ensures LegacySpec.Parse(src, tables, LegacySpec.Initial)
      == Some(LegacySpec.State(|src|, [], EmptyResult.(imports := [name, name], reexports := [name])))
  {
    var s0 := LegacySpec.Initial;
    var s1 := s0.(pos := 1);
    LegacyLineBreakFirst(src, tables);
    hide LegacySpec.Step, LegacySpec.Run, LegacySpec.Parse, RequireAssignAt, PlainGap;
    LegacyReexportFirstStep(src, tables, s1, q, name, d, x, e, r, a, b, c);
    var res := EmptyResult.(imports := [name], reexports := [name]);
    LegacyRequireReadAgain(src, tables, LegacySpec.State(1, [], res), q, name, d, x, e, r, a, b, c);
    var t := LegacySpec.State(x + 6, [], res);
    var fin := LegacySpec.State(|src|, [], res.(imports := [name, name]));
    assert s1.(pos := x + 6, result := s1.result.(imports := s1.result.imports + [name], reexports := [name])) == t;
    assert LegacySpec.AddImport(t, name).(pos := c + 1) == fin;
    LegacyFacts.RunThroughStep(src, tables, s1, t);
    LegacyFacts.RunAtEnd(src, tables, fin);
  }

  /** A parse of a source that opens with a line break steps over it and runs on from offset 1, where a keyword may start. */
  lemma LegacyLineBreakFirst(src: Str, tables: IdTables)
    requires 0 < |src| && src[0] == '\n' as byte
    ensures LegacySpec.Parse(src, tables, LegacySpec.Initial) == LegacySpec.Run(src, tables, LegacySpec.Initial.(pos := 1))
    ensures LegacySpec.KeywordStart(src, 1)
  {
    var s0 := LegacySpec.Initial;
    assert LegacySpec.Step(src, tables, s0) == Some(s0.(pos := 1));
  }

  /** The same for the current version. */
  lemma CurrentLineBreakFirst(src: Str, tables: IdTables)
    requires 0 < |src| && src[0] == '\n' as byte
    ensures LexerSpec.Parse(src, tables, LexerSpec.Initial) == LexerSpec.Run(src, tables, LexerSpec.Initial.(pos := 1))
    ensures LexerSpec.KeywordStart(src, 1)
  {
    var s0 := LexerSpec.Initial;
    assert LexerSpec.Step(src, tables, s0) == s0.(pos := 1);
  }

  /** Corrected: the current driver's step reads the whole statement, recording x once. */
  lemma CurrentReexportStep(src: Str, tables: IdTables, s: LexerSpec.State, q: byte, name: Str,
                            d: nat, x: nat, e: nat, r: nat, a: nat, b: nat, c: nat)
    requires RequireAssignAt(src, s.pos, q, name, d, x, e, r, a, b, c) && LexerSpec.KeywordStart(src, s.pos)
    ensures LexerSpec.Step(src, tables, s)
      == s.(pos := c + 1, expectExpr := false,
            result := s.result.(imports := s.result.imports + [name], reexports := [name]))
  {
    hide LexerSpec.Step, LexerSpec.TryParseModuleExportsDotAssign, LexerFacts.QuotedAt, LexerFacts.ClosingQuote;
    LexerFacts.ModuleExportsRequire(src, tables, s, q, name, d, x, e, r, a, b, c);
    CurrentStepAtModule(src, tables, s);
  }

  /**
    * Corrected: the same module, parsed by the current version, ends with x
    * as its re-export and x recorded once as an import.
    */
  lemma CurrentReexportImportedOnce(src: Str, tables: IdTables, q: byte, name: Str,
                                    d: nat, x: nat, e: nat, r: nat, a: nat, b: nat, c: nat)
    requires 0 < |src| && src[0] == '\n' as byte && |src| == c + 1
    requires RequireAssignAt(src, 1, q, name, d, x, e, r, a, b, c)
    ensures LexerSpec.Parse(src, tables, LexerSpec.Initial).result
      == EmptyResult.(imports := [name], reexports := [name])
  {
    var s1 := LexerSpec.Initial.(pos := 1);
    CurrentLineBreakFirst(src, tables);
    hide LexerSpec.Step, LexerSpec.Parse, RequireAssignAt;
    CurrentReexportStep(src, tables, s1, q, name, d, x, e, r, a, b, c);
    assert [] + [name] == [name];
  }
}
