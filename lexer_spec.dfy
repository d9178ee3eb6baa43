/**
  * The state of the current parser version (cjs_module_lexer/src/parser.rs)
  * and, as functions of that state, what each of its methods does to it.
  * The class in module Lexer is proved to compute these functions; the
  * properties of the lexer are proved about them in module LexerFacts.
  */
module LexerSpec {
  import opened Wrappers
  import opened Utils
  import opened Scanners
  import Keywords
  import Utf8

  /** A context-stack entry; a parenthesis remembers whether a keyword (`if`, `while`, `for`) opened it. */
  datatype Bracket =
    | Parenthesis(kind: Keywords.ParenthesisType)
    | SquareBracket
    | Brace
    | TemplateBrace

  function GetBracketCloseCode(b: Bracket): byte {
    match b
    case Parenthesis(_) => ')' as byte
    case SquareBracket => ']' as byte
    case Brace => '}' as byte
    case TemplateBrace => '}' as byte
  }

  /** The parser's fields: cursor, context stack (top last), pending parenthesis kind, expression flag, result so far. */
  datatype State = State(
    pos: nat,
    stack: seq<Bracket>,
    paren: Keywords.ParenthesisType,
    expectExpr: bool,
    result: ParseResult)

  const Initial := State(0, [], Keywords.Plain, true, EmptyResult)

  /** The cursor moves to where a sub-scanner stopped, and the diagnostics it pushed are appended. */
  function Absorb<T>(s: State, r: Scanned<T>): (t: State)
    ensures t.pos == r.end
  {
    s.(pos := r.end, result := s.result.(errors := s.result.errors + r.diags))
  }

  /** A sub-scanner's outcome as the parser method returns it: the new state and the value. */
  function Take<T>(s: State, r: Scanned<T>): (State, Option<T>) {
    (Absorb(s, r), r.value)
  }

  function AddError(s: State, e: ParseError): State {
    s.(result := s.result.(errors := s.result.errors + [e]))
  }

  function AddExport(s: State, name: Str): State {
    s.(result := s.result.(exports := s.result.exports + [name]))
  }

  function AddImport(s: State, name: Str): State {
    s.(result := s.result.(imports := s.result.imports + [name]))
  }

  /** The import, export and diagnostic lists of `t` extend those of `s` (re-exports may be replaced). */
  predicate Extends(s: State, t: State) {
    s.result.imports <= t.result.imports
    && s.result.exports <= t.result.exports
    && s.result.errors <= t.result.errors
  }

  /** The cursor never moves backwards and the lists only grow at their ends. */
  predicate Grows(s: State, t: State) {
    s.pos <= t.pos && Extends(s, t)
  }

  /** Like Grows, except that the cursor may have been put back to `revert`. */
  predicate GrowsOrReverts(s: State, t: State, revert: nat) {
    (s.pos <= t.pos || t.pos == revert) && Extends(s, t)
  }

  function CommentWhitespace(src: Str, s: State): (t: State)
    ensures s.pos <= t.pos
  {
    s.(pos := CommentWhitespaceEnd(src, s.pos))
  }

  /** An identifier; the flag is cleared when the identifier ends at a character that is not part of it. */
  function Identifier(src: Str, tables: IdTables, s: State): (r: (State, Option<Str>))
    ensures s.pos <= r.0.pos
    ensures r.1.Some? ==> s.pos < r.0.pos
  {
    match IdentifierEnd(src, s.pos, tables)
    case None => (s, None)
    case Some(e) =>
      (s.(pos := e, expectExpr := if Utf8.DecodeAt(src, e).Some? then false else s.expectExpr), Some(src[s.pos..e]))
  }

  /** A string literal; in skip mode a match yields the empty text. A match clears the flag. */
  function StringLiteral(src: Str, s: State, skip: bool): (r: (State, Option<Str>))
    ensures s.pos <= r.0.pos
    ensures s.pos < |src| && IsQuote(src[s.pos]) ==> s.pos < r.0.pos
  {
    var sc := Scanners.StringLiteral(Current, src, s.pos);
    var t := Absorb(s, sc);
    if sc.value.Some? then (t.(expectExpr := false), if skip then Some([]) else sc.value)
    else (t, None)
  }

  function NumberLiteral(src: Str, s: State): (r: (State, Option<Str>))
    ensures s.pos <= r.0.pos
    ensures r.1.Some? ==>
      r.0 == s.(pos := s.pos + |r.1.value|, expectExpr := false) && r.0.pos < |src|
      && r.1.value == src[s.pos..r.0.pos] && !IsNumberByte(src[r.0.pos])
    ensures r.1.None? ==> r.0 == s.(pos := r.0.pos) && (r.0.pos == s.pos || r.0.pos == |src|)
  {
    var sc := Scanners.NumberLiteral(src, s.pos);
    if sc.value.Some? then (s.(pos := sc.end, expectExpr := false), sc.value)
    else (s.(pos := sc.end), None)
  }

  /** `require` `(` string `)`: the import is recorded as soon as the string is read. */
  function TryParseRequire(src: Str, s: State): (r: (State, Option<Str>))
    ensures s.pos <= r.0.pos
    ensures StartsWithAt(src, s.pos, REQUIRE) ==> s.pos + 7 <= r.0.pos
  {
    if !StartsWithAt(src, s.pos, REQUIRE) then (s, None)
    else RequireCall(src, CommentWhitespace(src, s.(pos := s.pos + |REQUIRE|)))
  }

  /** After `require` and any whitespace: `(`, whitespace, then the module name. */
  function RequireCall(src: Str, s: State): (r: (State, Option<Str>))
    ensures s.pos <= r.0.pos
  {
    if At(src, s.pos) != Some('(' as byte) then (s, None)
    else RequireArgument(src, StringLiteral(src, CommentWhitespace(src, s.(pos := s.pos + 1)), false))
  }

  /** After the module name was scanned: record it, then expect `)`. */
  function RequireArgument(src: Str, name: (State, Option<Str>)): (r: (State, Option<Str>))
    ensures name.0.pos <= r.0.pos
  {
    if name.1.None? then name
    else RequireClose(src, CommentWhitespace(src, AddImport(name.0, name.1.value)), name.1.value)
  }

  function RequireClose(src: Str, s: State, name: Str): (r: (State, Option<Str>))
    ensures s.pos <= r.0.pos
  {
    if At(src, s.pos) == Some(')' as byte) then (s.(pos := s.pos + 1, expectExpr := false), Some(name))
    else (s, None)
  }

  /** A property value of a recognised shape: an identifier, a string literal or a number-shaped literal. */
  function LiteralValue(src: Str, tables: IdTables, s: State): (r: (State, bool))
    ensures s.pos <= r.0.pos
  {
    var (s1, v1) := Identifier(src, tables, s);
    if v1.Some? then (s1, true)
    else
      var (s2, v2) := StringLiteral(src, s1, true);
      if v2.Some? then (s2, true)
      else
        var (s3, v3) := NumberLiteral(src, s2);
        (s3, v3.Some?)
  }

  /**
    * One property of `module.exports = { ... }`, the cursor at its name:
    * the new state, and whether a value of an unrecognised shape made the
    * scan put the cursor back to `revert` and stop.
    */
  function LiteralProperty(src: Str, tables: IdTables, s: State, revert: nat): (r: (State, bool))
    ensures !r.1 ==> s.pos <= r.0.pos
    ensures r.1 ==> r.0.pos == revert
  {
    var (s1, name) := Identifier(src, tables, s);
    if name.None? then (s1, false)
    else PropertyAfterName(src, tables, CommentWhitespace(src, s1), name.value, revert)
  }

  /** After a property name: a shorthand property, or `:` and a value of a recognised shape. */
  function PropertyAfterName(src: Str, tables: IdTables, s: State, name: Str, revert: nat): (r: (State, bool))
    ensures !r.1 ==> s.pos <= r.0.pos
    ensures r.1 ==> r.0.pos == revert
  {
    if At(src, s.pos) != Some(':' as byte) then (AddExport(s, name), false)
    else
      var (s1, recognised) := LiteralValue(src, tables, CommentWhitespace(src, s.(pos := s.pos + 1)));
      if recognised then (AddExport(s1, name), false) else (s1.(pos := revert), true)
  }

  /** The loop of `module.exports = { ... }`, after the `{`. */
  function LiteralExportsLoop(src: Str, tables: IdTables, s: State, revert: nat): (t: State)
    decreases |src| - s.pos
    ensures s.pos <= t.pos || t.pos == revert
  {
    if s.pos >= |src| then s
    else
      var (s1, aborted) := LiteralProperty(src, tables, CommentWhitespace(src, s), revert);
      if aborted then s1
      else
        var s2 := CommentWhitespace(src, s1);
        if At(src, s2.pos) == Some(',' as byte) then LiteralExportsLoop(src, tables, s2.(pos := s2.pos + 1), revert)
        else if At(src, s2.pos) == Some('}' as byte) then s2.(pos := s2.pos + 1, expectExpr := false)
        else s2
  }

  /** `module.exports = { ... }`, the cursor at `{`; an unrecognised value puts it back one byte before. */
  function TryParseLiteralExports(src: Str, tables: IdTables, s: State): (t: State)
    requires 1 <= s.pos
    ensures s.pos - 1 <= t.pos
  {
    if At(src, s.pos) != Some('{' as byte) then s
    else LiteralExportsLoop(src, tables, s.(pos := s.pos + 1), s.pos - 1)
  }

  /**
    * After `exports`: `.NAME =`, `['KEY'] =`, and (when `assign`, after
    * `module.`) `= { ... }` and `= require(...)`. Unless the form returns
    * early, the cursor is put back on the last byte of `exports`.
    */
  function TryParseExportsDotAssign(src: Str, tables: IdTables, s: State, assign: bool): (t: State)
    ensures s.pos + 6 <= t.pos
  {
    var revert := s.pos + |EXPORTS| - 1;
    var s1 := CommentWhitespace(src, s.(pos := s.pos + |EXPORTS|));
    var c := At(src, s1.pos);
    var (s2, returned) :=
      if c == Some('.' as byte) then (ExportsDotName(src, tables, s1), false)
      else if c == Some('[' as byte) then ExportsBracketKey(src, s1)
      else if c == Some('=' as byte) && assign then ExportsAssign(src, tables, s1)
      else (s1, false);
    if returned then s2 else s2.(pos := revert)
  }

  /** `exports.NAME`, the cursor at the `.`: the name is exported when `=` follows. */
  function ExportsDotName(src: Str, tables: IdTables, s: State): (t: State)
  {
    var (s1, name) := Identifier(src, tables, CommentWhitespace(src, s.(pos := s.pos + 1)));
    if name.None? then s1
    else
      var s2 := CommentWhitespace(src, s1);
      if At(src, s2.pos) == Some('=' as byte) then AddExport(s2, name.value) else s2
  }

  /** `exports['KEY'] =`, the cursor at the `[`: returns (early) at the `=`, having exported the key. */
  function ExportsBracketKey(src: Str, s: State): (r: (State, bool))
    ensures r.1 ==> s.pos <= r.0.pos
  {
    var (s1, key) := StringLiteral(src, CommentWhitespace(src, s.(pos := s.pos + 1)), false);
    if key.None? then (s1, false)
    else
      var s2 := CommentWhitespace(src, s1);
      if At(src, s2.pos) != Some(']' as byte) then (s2, false)
      else
        var s3 := CommentWhitespace(src, s2.(pos := s2.pos + 1));
        if At(src, s3.pos) == Some('=' as byte) then (AddExport(s3, key.value), true) else (s3, false)
  }

  /** `module.exports =`, the cursor at the `=`: an object literal, or `require(...)` as the one re-export. */
  function ExportsAssign(src: Str, tables: IdTables, s: State): (r: (State, bool))
    ensures r.1 ==> s.pos <= r.0.pos
  {
    var s1 := CommentWhitespace(src, s.(pos := s.pos + 1));
    if At(src, s1.pos) == Some('{' as byte) then (TryParseLiteralExports(src, tables, s1), true)
    else if At(src, s1.pos) == Some('r' as byte) then
      var (s2, m) := TryParseRequire(src, s1);
      if m.Some? then (s2.(result := s2.result.(reexports := [m.value])), true) else (s2, false)
    else (s1, false)
  }

  /** After `module`: `.exports` hands over to the exports detector; otherwise the cursor goes back to the `e`. */
  function TryParseModuleExportsDotAssign(src: Str, tables: IdTables, s: State): (t: State)
    ensures s.pos + 5 <= t.pos
  {
    var revert := s.pos + |MODULE| - 1;
    var s1 := CommentWhitespace(src, s.(pos := s.pos + |MODULE|));
    if At(src, s1.pos) == Some('.' as byte) then
      var s2 := CommentWhitespace(src, s1.(pos := s1.pos + 1));
      if StartsWithAt(src, s2.pos, EXPORTS) then TryParseExportsDotAssign(src, tables, s2, true)
      else s2.(pos := revert)
    else s1.(pos := revert)
  }

  /** A regular expression literal, the cursor at `/`; a line break reports UnterminatedRegExp at the `/`. */
  function RegexLiteral(src: Str, tables: IdTables, s: State): (t: State)
    ensures s.pos <= t.pos
    ensures s.pos < |src| && src[s.pos] == '/' as byte ==> s.pos < t.pos
  {
    if At(src, s.pos) != Some('/' as byte) then s
    else
      var r := RegexBody(src, s.pos + 1, false, false);
      if r.unterminated then AddError(s.(pos := r.end), UnterminatedRegExp(s.pos))
      else Identifier(src, tables, s.(pos := r.end)).0
  }

  /** The rest of a template literal, up to a backtick or to a `${` that opens an interpolation. */
  function TemplateBody(src: Str, s: State): (t: State)
    decreases |src| - s.pos
    ensures s.pos <= t.pos
  {
    if s.pos >= |src| then s
    else
      var c := src[s.pos];
      if c == '`' as byte then s.(pos := s.pos + 1, expectExpr := false)
      else if c == '\\' as byte then TemplateBody(src, s.(pos := s.pos + 2))
      else if c == '$' as byte && At(src, s.pos + 1) == Some('{' as byte) then
        s.(pos := s.pos + 2, stack := s.stack + [Bracket.TemplateBrace], expectExpr := true)
      else TemplateBody(src, s.(pos := s.pos + 1))
  }

  /** A template literal at a backtick, or its continuation (`isMiddle`) after an interpolation's `}`. */
  function TemplateLiteral(src: Str, s: State, isMiddle: bool): (t: State)
    ensures s.pos <= t.pos
    ensures isMiddle || At(src, s.pos) == Some('`' as byte) ==> s.pos < t.pos
  {
    if !isMiddle && At(src, s.pos) != Some('`' as byte) then s
    else if isMiddle && At(src, s.pos) == Some('`' as byte) then s.(pos := s.pos + 1, expectExpr := false)
    else TemplateBody(src, s.(pos := s.pos + 1))
  }

  /** Whether the byte before the cursor lets a keyword start here (no byte before it counts as yes). */
  function KeywordStart(src: Str, pos: nat): bool {
    if pos < 1 || pos - 1 >= |src| then true else IsBrOrWsOrPunctuatorNotDot(src[pos - 1])
  }

  /** A closing byte: the popped entry when it matches, else None with a diagnostic. */
  function PopBracketStack(src: Str, s: State): (r: (State, Option<Bracket>))
    ensures s.pos <= r.0.pos
    ensures s.pos < |src| ==> s.pos < r.0.pos
  {
    if s.pos >= |src| then (AddError(s, UnexpectedEOF(s.pos)), None)
    else
      var ch := src[s.pos];
      var p := s.pos + 1;
      if s.stack == [] then (AddError(s.(pos := p + 1), UnexpectedBracket(ch, p)), None)
      else
        var top := s.stack[|s.stack| - 1];
        var rest := s.stack[..|s.stack| - 1];
        if ch != GetBracketCloseCode(top) then
          (AddError(s.(pos := p, stack := rest), IncorrectClosingBracket(ch, p)), None)
        else
          (s.(pos := p, stack := rest, expectExpr := top == Bracket.Parenthesis(Keywords.ParenthesisKeyword)), Some(top))
  }

  predicate IsKeywordInitial(c: byte) {
    c == 'i' as byte || c == 'w' as byte || c == 'f' as byte || c == 'c' as byte
    || c == 'd' as byte || c == 'e' as byte || c == 'n' as byte || c == 'r' as byte
    || c == 't' as byte || c == 'v' as byte || c == 'y' as byte || c == 'a' as byte
  }

  /**
    * Whether the driver's byte dispatch takes one of its word or literal
    * arms here: `exports`, `require`, a keyword, a string, a template or `module`.
    */
  predicate WordOrLiteralStart(src: Str, pos: nat)
    requires pos < |src|
  {
    var c := src[pos];
    (IsKeywordInitial(c) && KeywordStart(src, pos)) || IsQuote(c) || c == '`' as byte
    || (c == 'm' as byte && StartsWithAt(src, pos, MODULE) && KeywordStart(src, pos))
  }

  /** The word and literal arms of the dispatch. */
  function WordOrLiteral(src: Str, tables: IdTables, s: State): (t: State)
    requires s.pos < |src| && WordOrLiteralStart(src, s.pos)
    ensures s.pos < t.pos
  {
    var c := src[s.pos];
    if c == 'e' as byte && StartsWithAt(src, s.pos, EXPORTS) && KeywordStart(src, s.pos) then
      TryParseExportsDotAssign(src, tables, s, false)
    else if c == 'r' as byte && StartsWithAt(src, s.pos, REQUIRE) && KeywordStart(src, s.pos) then
      TryParseRequire(src, s).0
    else if IsKeywordInitial(c) && KeywordStart(src, s.pos) then Keyword(src, s)
    else if IsQuote(c) then StringLiteral(src, s, true).0
    else if c == '`' as byte then TemplateLiteral(src, s, false)
    else TryParseModuleExportsDotAssign(src, tables, s)
  }

  /** A word that may be a keyword: past an expression keyword, a parenthesis keyword, or one byte. */
  function Keyword(src: Str, s: State): (t: State)
    requires s.pos < |src|
    ensures s.pos < t.pos
  {
    Keywords.MatchLength(src[s.pos..]);
    match Keywords.MatchKeyword(src[s.pos..])
    case Expression(n) => s.(pos := s.pos + n, expectExpr := true)
    case Parenthesis(n) => s.(pos := s.pos + n, paren := Keywords.ParenthesisKeyword, expectExpr := false)
    case NotKeyword => s.(pos := s.pos + 1, expectExpr := false)
  }

  /** The remaining arms: `/`, brackets, other punctuators, and any other byte. */
  function Punctuation(src: Str, tables: IdTables, s: State): (t: State)
    requires s.pos < |src|
    ensures s.pos < t.pos
  {
    var c := src[s.pos];
    if c == '/' as byte then
      if At(src, s.pos + 1) == Some('*' as byte) || At(src, s.pos + 1) == Some('/' as byte) then
        CommentWhitespace(src, s)
      else if s.expectExpr then RegexLiteral(src, tables, s)
      else s.(pos := s.pos + 1, expectExpr := true)
    else if c == '(' as byte || c == '[' as byte || c == '{' as byte then PushBracket(s, c)
    else if c == ')' as byte || c == ']' as byte || c == '}' as byte then CloseBracket(src, s)
    else if IsPunctuator(c) then s.(pos := s.pos + 1, expectExpr := if c != '.' as byte then true else s.expectExpr)
    else s.(pos := s.pos + 1, expectExpr := false)
  }

  /** An opening byte: push its entry, reset a pending keyword parenthesis, and expect an expression. */
  function PushBracket(s: State, c: byte): State
    requires c == '(' as byte || c == '[' as byte || c == '{' as byte
  {
    var entry :=
      if c == '(' as byte then Bracket.Parenthesis(s.paren)
      else if c == '[' as byte then Bracket.SquareBracket
      else Bracket.Brace;
    var paren := if c == '(' as byte then Keywords.Plain else s.paren;
    s.(stack := s.stack + [entry], paren := paren, expectExpr := true, pos := s.pos + 1)
  }

  /** A closing byte: pop, and resume the template literal when the popped entry was a `${`. */
  function CloseBracket(src: Str, s: State): (t: State)
    requires s.pos < |src|
    ensures s.pos < t.pos
  {
    var (s1, b) := PopBracketStack(src, s);
    if b == Some(Bracket.TemplateBrace) then TemplateLiteral(src, s1, true) else s1
  }

  /** One turn of the driver loop, the cursor on a byte of the source. */
  function Step(src: Str, tables: IdTables, s: State): (t: State)
    requires s.pos < |src|
    ensures s.pos < t.pos
  {
    var c := src[s.pos];
    if c == ' ' as byte || (8 < c < 14) then s.(pos := s.pos + 1)
    else if WordOrLiteralStart(src, s.pos) then WordOrLiteral(src, tables, s)
    else Punctuation(src, tables, s)
  }

  /** The driver loop, to the end of the source. */
  function Run(src: Str, tables: IdTables, s: State): (t: State)
    decreases |src| - s.pos
    ensures s.pos <= t.pos
    ensures |src| <= t.pos
  {
    if s.pos >= |src| then s else Run(src, tables, Step(src, tables, s))
  }

  /** `parse`: from offset 0, skip a `#!` line, then run the driver loop to the end. */
  function Parse(src: Str, tables: IdTables, s: State): State {
    var s0 := s.(pos := 0);
    var s1 :=
      if At(src, 0) == Some('#' as byte) && At(src, 1) == Some('!' as byte) then s0.(pos := LineCommentEnd(src, 0))
      else s0;
    Run(src, tables, s1)
  }
}
