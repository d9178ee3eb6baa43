/**
  * The state of the earlier parser version (src/parser.rs) and, as
  * functions of that state, what each of its methods does to it. This
  * version keeps no expression flag and no pending parenthesis kind, never
  * scans regular expressions or templates from its driver, and panics on a
  * closing bracket it cannot match. The class in module Legacy is proved to
  * compute these functions; the properties are proved in LegacyFacts.
  */
module LegacySpec {
  import opened Wrappers
  import opened Utils
  import opened Scanners

  /** The parser's fields: cursor, bracket stack (top last), result so far. */
  datatype State = State(pos: nat, stack: seq<Bracket>, result: ParseResult)

  const Initial := State(0, [], EmptyResult)

  /** The cursor moves to where a sub-scanner stopped, and the diagnostics it pushed are appended. */
  function Absorb<T>(s: State, r: Scanned<T>): (t: State)
    ensures t.pos == r.end
  {
    s.(pos := r.end, result := s.result.(errors := s.result.errors + r.diags))
  }

  /** A sub-scanner's outcome as the parser method returns it: the new state and the value. */
  function Take<T>(s: State, r: Scanned<T>): (State, Option<T>) {
    (Absorb(s, r), r.value)
  }

  function AddError(s: State, e: ParseError): State {
    s.(result := s.result.(errors := s.result.errors + [e]))
  }

  function AddExport(s: State, name: Str): State {
    s.(result := s.result.(exports := s.result.exports + [name]))
  }

  function AddImport(s: State, name: Str): State {
    s.(result := s.result.(imports := s.result.imports + [name]))
  }

  /** The import, export and diagnostic lists of `t` extend those of `s` (re-exports may be replaced). */
  predicate Extends(s: State, t: State) {
    s.result.imports <= t.result.imports
    && s.result.exports <= t.result.exports
    && s.result.errors <= t.result.errors
  }

  /** The cursor never moves backwards and the lists only grow at their ends. */
  predicate Grows(s: State, t: State) {
    s.pos <= t.pos && Extends(s, t)
  }

  function CommentWhitespace(src: Str, s: State): (t: State)
    ensures s.pos <= t.pos
  {
    s.(pos := CommentWhitespaceEnd(src, s.pos))
  }

  function Identifier(src: Str, tables: IdTables, s: State): (r: (State, Option<Str>))
    ensures s.pos <= r.0.pos
  {
    match IdentifierEnd(src, s.pos, tables)
    case None => (s, None)
    case Some(e) => (s.(pos := e), Some(src[s.pos..e]))
  }

  /** A string literal; `\0` always makes it fail in this version. */
  function StringLiteral(src: Str, s: State): (r: (State, Option<Str>))
    ensures s.pos <= r.0.pos
    ensures s.pos < |src| && IsQuote(src[s.pos]) ==> s.pos < r.0.pos
  {
    Take(s, Scanners.StringLiteral(Earlier, src, s.pos))
  }

  function NumberLiteral(src: Str, s: State): (r: (State, Option<Str>))
    ensures s.pos <= r.0.pos
    ensures r.1.Some? ==>
      r.0 == s.(pos := s.pos + |r.1.value|) && r.0.pos < |src|
      && r.1.value == src[s.pos..r.0.pos] && !IsNumberByte(src[r.0.pos])
    ensures r.1.None? ==> r.0 == s.(pos := r.0.pos) && (r.0.pos == s.pos || r.0.pos == |src|)
  {
    var sc := Scanners.NumberLiteral(src, s.pos);
    (s.(pos := sc.end), sc.value)
  }

  /** `require` `(` string `)`: the import is recorded as soon as the string is read. */
  function TryParseRequire(src: Str, s: State): (r: (State, Option<Str>))
    ensures s.pos <= r.0.pos
    ensures StartsWithAt(src, s.pos, REQUIRE) ==> s.pos + 7 <= r.0.pos
  {
    if !StartsWithAt(src, s.pos, REQUIRE) then (s, None)
    else RequireCall(src, CommentWhitespace(src, s.(pos := s.pos + |REQUIRE|)))
  }

  /** After `require` and any whitespace: `(`, whitespace, then the module name. */
  function RequireCall(src: Str, s: State): (r: (State, Option<Str>))
    ensures s.pos <= r.0.pos
  {
    if At(src, s.pos) != Some('(' as byte) then (s, None)
    else RequireArgument(src, StringLiteral(src, CommentWhitespace(src, s.(pos := s.pos + 1))))
  }

  /** After the module name was scanned: record it, then expect `)`. */
  function RequireArgument(src: Str, name: (State, Option<Str>)): (r: (State, Option<Str>))
    ensures name.0.pos <= r.0.pos
  {
    if name.1.None? then name
    else RequireClose(src, CommentWhitespace(src, AddImport(name.0, name.1.value)), name.1.value)
  }

  function RequireClose(src: Str, s: State, name: Str): (r: (State, Option<Str>))
    ensures s.pos <= r.0.pos
  {
    if At(src, s.pos) == Some(')' as byte) then (s.(pos := s.pos + 1), Some(name)) else (s, None)
  }

  /** A property value of a recognised shape: an identifier, a string literal or a number-shaped literal. */
  function LiteralValue(src: Str, tables: IdTables, s: State): (r: (State, bool))
    ensures s.pos <= r.0.pos
  {
    var (s1, v1) := Identifier(src, tables, s);
    if v1.Some? then (s1, true)
    else
      var (s2, v2) := StringLiteral(src, s1);
      if v2.Some? then (s2, true)
      else
        var (s3, v3) := NumberLiteral(src, s2);
        (s3, v3.Some?)
  }

  /**
    * One property of `module.exports = { ... }`, the cursor at its name:
    * the new state, and whether a value of an unrecognised shape made the
    * scan put the cursor back to `revert` and stop.
    */
  function LiteralProperty(src: Str, tables: IdTables, s: State, revert: nat): (r: (State, bool))
    ensures !r.1 ==> s.pos <= r.0.pos
    ensures r.1 ==> r.0.pos == revert
  {
    var (s1, name) := Identifier(src, tables, s);
    if name.None? then (s1, false)
    else PropertyAfterName(src, tables, CommentWhitespace(src, s1), name.value, revert)
  }

  /** After a property name: a shorthand property, or `:` and a value of a recognised shape. */
  function PropertyAfterName(src: Str, tables: IdTables, s: State, name: Str, revert: nat): (r: (State, bool))
    ensures !r.1 ==> s.pos <= r.0.pos
    ensures r.1 ==> r.0.pos == revert
  {
    if At(src, s.pos) != Some(':' as byte) then (AddExport(s, name), false)
    else
      var (s1, recognised) := LiteralValue(src, tables, CommentWhitespace(src, s.(pos := s.pos + 1)));
      if recognised then (AddExport(s1, name), false) else (s1.(pos := revert), true)
  }

  /** The loop of `module.exports = { ... }`, after the `{`; it stops on the closing `}` without consuming it. */
  function LiteralExportsLoop(src: Str, tables: IdTables, s: State, revert: nat): (t: State)
    decreases |src| - s.pos
    ensures s.pos <= t.pos || t.pos == revert
  {
    if s.pos >= |src| then s
    else
      var (s1, aborted) := LiteralProperty(src, tables, CommentWhitespace(src, s), revert);
      if aborted then s1
      else
        var s2 := CommentWhitespace(src, s1);
        if At(src, s2.pos) == Some(',' as byte) then LiteralExportsLoop(src, tables, s2.(pos := s2.pos + 1), revert)
        else s2
  }

  /** `module.exports = { ... }`, the cursor at `{`; an unrecognised value puts it back one byte before. */
  function TryParseLiteralExports(src: Str, tables: IdTables, s: State): (t: State)
    requires 1 <= s.pos
    ensures s.pos - 1 <= t.pos
  {
    if At(src, s.pos) != Some('{' as byte) then s
    else LiteralExportsLoop(src, tables, s.(pos := s.pos + 1), s.pos - 1)
  }

  /**
    * After `exports`: `.NAME =`, `['KEY'] =`, and (when `assign`, after
    * `module.`) `= { ... }` and `= require(...)`. Unless the form returns
    * early, the cursor is put back on the last byte of `exports`.
    */
  function TryParseExportsDotAssign(src: Str, tables: IdTables, s: State, assign: bool): (t: State)
    ensures s.pos + 6 <= t.pos
  {
    var revert := s.pos + |EXPORTS| - 1;
    var s1 := CommentWhitespace(src, s.(pos := s.pos + |EXPORTS|));
    var c := At(src, s1.pos);
    var (s2, returned) :=
      if c == Some('.' as byte) then (ExportsDotName(src, tables, s1), false)
      else if c == Some('[' as byte) then ExportsBracketKey(src, s1)
      else if c == Some('=' as byte) && assign then ExportsAssign(src, tables, s1)
      else (s1, false);
    if returned then s2 else s2.(pos := revert)
  }

  /** `exports.NAME`, the cursor at the `.`: the name is exported when `=` follows. */
  function ExportsDotName(src: Str, tables: IdTables, s: State): (t: State)
  {
    var (s1, name) := Identifier(src, tables, CommentWhitespace(src, s.(pos := s.pos + 1)));
    if name.None? then s1
    else
      var s2 := CommentWhitespace(src, s1);
      if At(src, s2.pos) == Some('=' as byte) then AddExport(s2, name.value) else s2
  }

  /** `exports['KEY'] =`, the cursor at the `[`: returns (early) past the `=`, having exported the key. */
  function ExportsBracketKey(src: Str, s: State): (r: (State, bool))
    ensures r.1 ==> s.pos < r.0.pos
  {
    var (s1, key) := StringLiteral(src, CommentWhitespace(src, s.(pos := s.pos + 1)));
    if key.None? then (s1, false)
    else
      var s2 := CommentWhitespace(src, s1);
      if At(src, s2.pos) != Some(']' as byte) then (s2, false)
      else
        var s3 := CommentWhitespace(src, s2.(pos := s2.pos + 1));
        if At(src, s3.pos) == Some('=' as byte) then (AddExport(s3.(pos := s3.pos + 1), key.value), true)
        else (s3, false)
  }

  /**
    * `module.exports =`, the cursor at the `=`: an object literal returns
    * early; `require(...)` becomes the one re-export, but the cursor is then
    * still put back.
    */
  function ExportsAssign(src: Str, tables: IdTables, s: State): (r: (State, bool))
    ensures r.1 ==> s.pos <= r.0.pos
  {
    var s1 := CommentWhitespace(src, s.(pos := s.pos + 1));
    if At(src, s1.pos) == Some('{' as byte) then (TryParseLiteralExports(src, tables, s1), true)
    else if At(src, s1.pos) == Some('r' as byte) then
      var (s2, m) := TryParseRequire(src, s1);
      if m.Some? then (s2.(result := s2.result.(reexports := [m.value])), false) else (s2, false)
    else (s1, false)
  }

  /** After `module`: `.exports` hands over to the exports detector; otherwise the cursor goes back to the `e`. */
  function TryParseModuleExportsDotAssign(src: Str, tables: IdTables, s: State): (t: State)
    ensures s.pos + 5 <= t.pos
  {
    var revert := s.pos + |MODULE| - 1;
    var s1 := CommentWhitespace(src, s.(pos := s.pos + |MODULE|));
    if At(src, s1.pos) == Some('.' as byte) then
      var s2 := CommentWhitespace(src, s1.(pos := s1.pos + 1));
      if StartsWithAt(src, s2.pos, EXPORTS) then TryParseExportsDotAssign(src, tables, s2, true)
      else s2.(pos := revert)
    else s1.(pos := revert)
  }

  /**
    * A regular expression literal, the cursor at `/`. This version defines
    * the scanner but its driver never calls it.
    */
  function RegexLiteral(src: Str, tables: IdTables, s: State): (t: State)
    ensures s.pos <= t.pos
  {
    if At(src, s.pos) != Some('/' as byte) then s
    else
      var r := RegexBody(src, s.pos + 1, false, false);
      if r.unterminated then AddError(s.(pos := r.end), UnterminatedRegExp(s.pos))
      else Identifier(src, tables, s.(pos := r.end)).0
  }

  /**
    * Whether the byte before the cursor lets a keyword start here. At offset
    * 0 the unchecked `pos - 1` wraps around to an offset past the end, so
    * there is no byte before, which counts as yes.
    */
  function KeywordStart(src: Str, pos: nat): bool {
    if pos < 1 || pos - 1 >= |src| then true else IsBrOrWsOrPunctuatorNotDot(src[pos - 1])
  }

  /** An opening byte pushes its entry and is consumed. */
  function PushBracket(s: State, c: byte): State
    requires c == '(' as byte || c == '[' as byte || c == '{' as byte
  {
    var entry :=
      if c == '(' as byte then Bracket.Parenthesis
      else if c == '[' as byte then Bracket.SquareBracket
      else Bracket.Brace;
    s.(stack := s.stack + [entry], pos := s.pos + 1)
  }

  /**
    * A closing byte. The answer is `Some(true)` when it matched the top
    * entry, `Some(false)` at the end of the source, and `None` when the
    * parser panicked (a mismatch, or an empty stack) after recording the
    * diagnostic.
    */
  function PopBracketStack(src: Str, s: State): (r: (State, Option<bool>))
    ensures r.1.Some? ==> s.pos <= r.0.pos
    ensures r.1 == Some(true) ==> s.pos < r.0.pos
  {
    if s.pos >= |src| then (AddError(s, UnexpectedEOF(s.pos)), Some(false))
    else
      var ch := src[s.pos];
      var p := s.pos + 1;
      if s.stack == [] then (AddError(s.(pos := p + 1), UnexpectedBracket(ch, p)), None)
      else
        var top := s.stack[|s.stack| - 1];
        var rest := s.stack[..|s.stack| - 1];
        if ch != GetBracketCloseCode(top) then (AddError(s.(pos := p, stack := rest), IncorrectClosingBracket(ch, p)), None)
        else (s.(pos := p, stack := rest), Some(true))
  }

  /** The byte dispatch of `parse` for a byte that is not whitespace. None: the parser panicked. */
  function Dispatch(src: Str, tables: IdTables, s: State): (r: Option<State>)
    requires s.pos < |src|
    ensures r.Some? ==> s.pos < r.value.pos
  {
    var c := src[s.pos];
    if c == 'e' as byte && StartsWithAt(src, s.pos, EXPORTS) && KeywordStart(src, s.pos) then
      Some(TryParseExportsDotAssign(src, tables, s, false))
    else if c == 'r' as byte && StartsWithAt(src, s.pos, REQUIRE) && KeywordStart(src, s.pos) then
      Some(TryParseRequire(src, s).0)
    else if IsQuote(c) then Some(StringLiteral(src, s).0)
    else if c == 'm' as byte && StartsWithAt(src, s.pos, MODULE) && KeywordStart(src, s.pos) then
      Some(TryParseModuleExportsDotAssign(src, tables, s))
    else if c == '/' as byte && (At(src, s.pos + 1) == Some('*' as byte) || At(src, s.pos + 1) == Some('/' as byte)) then
      Some(CommentWhitespace(src, s))
    else if c == '(' as byte || c == '[' as byte || c == '{' as byte then Some(PushBracket(s, c))
    else if c == ')' as byte || c == ']' as byte || c == '}' as byte then
      var (t, ok) := PopBracketStack(src, s);
      if ok.None? then None else Some(t)
    else Some(s.(pos := s.pos + 1))
  }

  /** One turn of the driver loop, the cursor on a byte of the source. */
  function Step(src: Str, tables: IdTables, s: State): (r: Option<State>)
    requires s.pos < |src|
    ensures r.Some? ==> s.pos < r.value.pos
  {
    var c := src[s.pos];
    if c == ' ' as byte || (8 < c < 14) then Some(s.(pos := s.pos + 1)) else Dispatch(src, tables, s)
  }

  /** The driver loop, to the end of the source or to a panic (None). */
  function Run(src: Str, tables: IdTables, s: State): (r: Option<State>)
    decreases |src| - s.pos
    ensures r.Some? ==> s.pos <= r.value.pos && |src| <= r.value.pos
  {
    if s.pos >= |src| then Some(s)
    else
      match Step(src, tables, s)
      case None => None
      case Some(t) => Run(src, tables, t)
  }

  /** `parse`: from offset 0, skip a `#!` line, then run the driver loop; None when it panicked. */
  function Parse(src: Str, tables: IdTables, s: State): Option<State> {
    var s0 := s.(pos := 0);
    var s1 :=
      if At(src, 0) == Some('#' as byte) && At(src, 1) == Some('!' as byte) then s0.(pos := LineCommentEnd(src, 0))
      else s0;
    Run(src, tables, s1)
  }
}
