/**
  * The earlier parser (src/parser.rs) as a class whose methods update its
  * fields in place. Every method is proved to leave the parser in the state
  * that the matching function of module LegacySpec computes from the state
  * it started in. A panic of the source is a method answer that makes the
  * caller stop at once.
  */
module Legacy {
  import opened Wrappers
  import opened Utils
  import opened Scanners
  import Utf8
  import ScannerFacts
  import LegacySpec

  class Parser {
    const source: Str
    const filename: string
    const tables: IdTables
    var pos: nat
    var parseResult: ParseResult
    var bracketStack: seq<Bracket>

    /** The fields the methods change, as one value. */
    function State(): LegacySpec.State
      reads this
    {
      LegacySpec.State(pos, bracketStack, parseResult)
    }

    constructor (sourceStr: Str, filename: string, tables: IdTables)
      ensures source == sourceStr && this.filename == filename && this.tables == tables
      ensures State() == LegacySpec.Initial
    {
      source := sourceStr;
      this.filename := filename;
      this.tables := tables;
      pos := 0;
      parseResult := EmptyResult;
      bracketStack := [];
    }

    predicate IsEnd()
      reads this
    {
      pos >= |source|
    }

    predicate KeywordStart()
      reads this
    {
      LegacySpec.KeywordStart(source, pos)
    }

    method LineComment()
      modifies this
      ensures State() == old(State()).(pos := LineCommentEnd(source, old(pos)))
    {
      while pos < |source|
        invariant LineCommentEnd(source, pos) == LineCommentEnd(source, old(pos))
        invariant State() == old(State()).(pos := pos)
        decreases |source| - pos
      {
        var c := source[pos];
        pos := pos + 1;
        if IsBr(c) {
          return;
        }
      }
    }

    method BlockComment()
      modifies this
      ensures State() == old(State()).(pos := BlockCommentBodyEnd(source, old(pos) + 2))
    {
      pos := pos + 2;
      while pos < |source|
        invariant BlockCommentBodyEnd(source, pos) == BlockCommentBodyEnd(source, old(pos) + 2)
        invariant State() == old(State()).(pos := pos)
        decreases |source| - pos
      {
        if source[pos] == '*' as byte && At(source, pos + 1) == Some('/' as byte) {
          pos := pos + 2;
          return;
        }
        pos := pos + 1;
      }
    }

    method CommentWhitespace()
      modifies this
      ensures State() == LegacySpec.CommentWhitespace(source, old(State()))
    {
      while pos < |source|
        invariant CommentWhitespaceEnd(source, pos) == CommentWhitespaceEnd(source, old(pos))
        invariant State() == old(State()).(pos := pos)
        decreases |source| - pos
      {
        var c := source[pos];
        if IsCommentWhitespace(c) {
          pos := pos + 1;
        } else if c == '/' as byte && At(source, pos + 1) == Some('/' as byte) {
          LineComment();
        } else if c == '/' as byte && At(source, pos + 1) == Some('*' as byte) {
          BlockComment();
        } else {
          break;
        }
      }
    }

    /** The identifier's text is built character by character, and is the source bytes it spans. */
    method Identifier() returns (r: Option<Str>)
      modifies this
      ensures (State(), r) == LegacySpec.Identifier(source, tables, old(State()))
    {
      hide Utf8.DecodeAt, Utf8.Encode, IdentifierRestEnd;
      var first := Utf8.DecodeAt(source, pos);
      if first.None? {
        return None;
      }
      var ch := first.value.ch;
      if !IsIdentifierStart(ch, tables) && ch != '\\' {
        return None;
      }
      Utf8.EncodeDecode(source, pos);
      var result := Utf8.Encode(ch);
      ghost var start := pos;
      pos := pos + first.value.len;
      while true
        invariant start < pos <= |source|
        invariant result == source[start..pos]
        invariant IdentifierRestEnd(source, pos, tables) == IdentifierRestEnd(source, start + first.value.len, tables)
        invariant State() == old(State()).(pos := pos)
        decreases |source| - pos
      {
        var next := Utf8.DecodeAt(source, pos);
        if next.None? {
          ScannerFacts.IdentifierRestStops(source, pos, tables);
          return Some(result);
        }
        if IsIdentifierChar(next.value.ch, tables) {
          ScannerFacts.IdentifierRestExtends(source, start, pos, tables);
          result := result + Utf8.Encode(next.value.ch);
          pos := pos + next.value.len;
        } else {
          ScannerFacts.IdentifierRestStops(source, pos, tables);
          return Some(result);
        }
      }
    }

    method HexDigit(required: bool) returns (r: Option<byte>)
      modifies this
      ensures r.Some? <==> old(pos) < |source| && IsHexDigit(source[old(pos)])
      ensures r.Some? ==> r.value == source[old(pos)] && State() == old(State()).(pos := old(pos) + 1)
      ensures r.None? && required && old(pos) < |source| ==>
        State() == LegacySpec.AddError(old(State()), UnexpectedUnicodeEscapeSequence(source[old(pos)], old(pos)))
      ensures r.None? && !(required && old(pos) < |source|) ==> State() == old(State())
    {
      if pos >= |source| {
        return None;
      }
      var c := source[pos];
      if IsHexDigit(c) {
        pos := pos + 1;
        return Some(c);
      }
      if required {
        parseResult := parseResult.(errors := parseResult.errors + [UnexpectedUnicodeEscapeSequence(c, pos)]);
      }
      return None;
    }

    method HexDigits() returns (r: Option<Str>)
      modifies this
      ensures State() == old(State()).(pos := HexRunEnd(source, old(pos)))
      ensures r.Some? <==> old(pos) < pos
      ensures r.Some? ==> pos <= |source| && r.value == source[old(pos)..pos]
    {
      var first := HexDigit(false);
      if first.None? {
        return None;
      }
      var result := [first.value];
      while true
        invariant old(pos) < pos <= |source|
        invariant result == source[old(pos)..pos]
        invariant HexRunEnd(source, pos) == HexRunEnd(source, old(pos))
        invariant State() == old(State()).(pos := pos)
        decreases |source| - pos
      {
        var c := HexDigit(false);
        if c.None? {
          return Some(result);
        }
        assert source[old(pos)..pos] == source[old(pos)..pos - 1] + [c.value];
        result := result + [c.value];
      }
    }

    /** The four digits of `\uXXXX`, read one `hex_digit(true)` at a time; a non-hex byte among them is reported where it stands. */
    method FourHexDigits() returns (r: Option<Str>)
      modifies this
      ensures pos == FixedHexEnd(source, old(pos), 4)
      ensures r.Some? <==> pos == old(pos) + 4
      ensures r.Some? ==> pos <= |source| && r.value == source[old(pos)..pos]
      ensures State() == old(State()).(pos := pos, result := old(parseResult).(errors := old(parseResult.errors)
        + if r.None? && pos < |source| then [UnexpectedUnicodeEscapeSequence(source[pos], pos)] else []))
    {
      assert parseResult.errors + [] == parseResult.errors;
      var digits: Str := [];
      while |digits| < 4
        invariant |digits| <= 4 && old(pos) + |digits| == pos
        invariant |digits| > 0 ==> pos <= |source| && digits == source[old(pos)..pos]
        invariant FixedHexEnd(source, pos, 4 - |digits|) == FixedHexEnd(source, old(pos), 4)
        invariant State() == old(State()).(pos := pos)
      {
        var d := HexDigit(true);
        if d.None? {
          return None;
        }
        digits := digits + [d.value];
      }
      return Some(digits);
    }

    method UnicodeEscapeSequence() returns (r: Option<Str>)
      modifies this
      ensures (State(), r) == LegacySpec.Take(old(State()), UnicodeEscape(source, old(pos)))
    {
      hide Utf8.Encode, HexValue, HexRunEnd, FixedHexEnd;
      assert parseResult.errors + [] == parseResult.errors;
      ghost var p := pos;
      if At(source, pos) != Some('u' as byte) {
        return None;
      }
      pos := pos + 1;
      var digits: Str;
      if At(source, pos) == Some('{' as byte) {
        pos := pos + 1;
        var ds := HexDigits();
        if ds.None? {
          return None;
        }
        if At(source, pos) != Some('}' as byte) {
          return None;
        }
        pos := pos + 1;
        digits := ds.value;
        assert AllHex(digits);
        assert UnicodeEscape(source, p) == EncodeCodePoint(digits, pos);
      } else {
        var ds := FourHexDigits();
        if ds.None? {
          return None;
        }
        digits := ds.value;
        assert AllHex(digits);
        assert UnicodeEscape(source, p) == EncodeCodePoint(digits, pos);
      }
      var codePoint := HexValue(digits);
      if !Utf8.IsScalar(codePoint) {
        return None;
      }
      return Some(Utf8.Encode(codePoint as char));
    }

    method StringEscapeSequence() returns (r: Option<Str>)
      modifies this
      ensures (State(), r) == LegacySpec.Take(old(State()), StringEscape(Earlier, source, old(pos)))
    {
      hide UnicodeEscape;
      assert parseResult.errors + [] == parseResult.errors;
      if At(source, pos) != Some('\\' as byte) {
        return None;
      }
      pos := pos + 1;
      if pos >= |source| {
        return None;
      }
      var c := source[pos];
      if SimpleEscape(c).Some? {
        pos := pos + 1;
        return Some([SimpleEscape(c).value]);
      } else if c == '\r' as byte {
        pos := pos + 1;
        if At(source, pos) == Some('\n' as byte) {
          return Some(['\r' as byte, '\n' as byte]);
        }
        return Some(['\r' as byte]);
      } else if c == '0' as byte {
        parseResult := parseResult.(errors := parseResult.errors + [UnexpectedEscapeCharacter('0', pos)]);
        if pos + 1 < |source| && IsDecimalDigit(source[pos + 1]) {
          return None;
        }
        pos := pos + 1;
        return None;
      } else if c == 'u' as byte {
        r := UnicodeEscapeSequence();
      } else {
        pos := pos + 1;
        return Some([c]);
      }
    }

    method StringLiteral() returns (r: Option<Str>)
      modifies this
      ensures (State(), r) == LegacySpec.StringLiteral(source, old(State()))
    {
      hide StringEscape;
      assert parseResult.errors + [] == parseResult.errors;
      if !(pos < |source| && IsQuote(source[pos])) {
        return None;
      }
      var quote := source[pos];
      pos := pos + 1;
      var result: Str := [];
      ghost var diags: seq<ParseError> := [];
      while pos < |source|
        invariant Scanners.StringLiteral(Earlier, source, old(pos)) == StringBody(Earlier, source, quote, pos, result, diags)
        invariant State() == old(State()).(pos := pos, result := old(parseResult).(errors := old(parseResult.errors) + diags))
        decreases |source| - pos
      {
        var c := source[pos];
        if c == quote {
          pos := pos + 1;
          return Some(result);
        } else if c == '\\' as byte {
          ghost var e := StringEscape(Earlier, source, pos);
          assert StringBody(Earlier, source, quote, pos, result, diags)
            == if e.value.None? then Scanned(None, e.end, diags + e.diags)
               else StringBody(Earlier, source, quote, e.end, result + e.value.value, diags + e.diags);
          var escaped := StringEscapeSequence();
          assert old(parseResult.errors) + diags + e.diags == old(parseResult.errors) + (diags + e.diags);
          if escaped.None? {
            return None;
          }
          result := result + escaped.value;
          diags := diags + e.diags;
        } else if IsBr(c) {
          break;
        } else {
          pos := pos + 1;
          result := result + [c];
        }
      }
      return None;
    }

    method NumberLiteral() returns (r: Option<Str>)
      modifies this
      ensures (State(), r) == LegacySpec.NumberLiteral(source, old(State()))
    {
      if !(pos < |source| && (IsDecimalDigit(source[pos]) || source[pos] == '.' as byte)) {
        return None;
      }
      var result: Str := [];
      while pos < |source|
        invariant old(pos) <= pos <= |source|
        invariant result == source[old(pos)..pos]
        invariant NumberRunEnd(source, pos) == NumberRunEnd(source, old(pos))
        invariant State() == old(State()).(pos := pos)
        decreases |source| - pos
      {
        var c := source[pos];
        if IsNumberByte(c) {
          result := result + [c];
          pos := pos + 1;
        } else {
          return Some(result);
        }
      }
      return None;
    }

    /**
      * One property of `module.exports = { ... }`, the cursor at its name (the
      * body of the loop in `try_parse_literal_exports`): true when a value of an
      * unrecognised shape put the cursor back to `revertPos`.
      */
    method LiteralProperty(revertPos: nat) returns (aborted: bool)
      modifies this
      ensures (State(), aborted) == LegacySpec.LiteralProperty(source, tables, old(State()), revertPos)
    {
      hide LegacySpec.CommentWhitespace, LegacySpec.Identifier, LegacySpec.StringLiteral, LegacySpec.NumberLiteral;
      var identifier := Identifier();
      if identifier.None? {
        return false;
      }
      CommentWhitespace();
      if At(source, pos) == Some(':' as byte) {
        pos := pos + 1;
        CommentWhitespace();
        var v1 := Identifier();
        if v1.None? {
          var v2 := StringLiteral();
          if v2.None? {
            var v3 := NumberLiteral();
            if v3.None? {
              pos := revertPos;
              return true;
            }
          }
        }
      }
      parseResult := parseResult.(exports := parseResult.exports + [identifier.value]);
      return false;
    }

    /** `module.exports = { ... }`, the cursor at `{`; the closing `}` is left to the driver. */
    method TryParseLiteralExports()
      requires 1 <= pos
      modifies this
      ensures State() == LegacySpec.TryParseLiteralExports(source, tables, old(State()))
    {
      hide LegacySpec.CommentWhitespace, LegacySpec.LiteralProperty;
      var revertPos := pos - 1;
      if At(source, pos) != Some('{' as byte) {
        return;
      }
      pos := pos + 1;
      while pos < |source|
        invariant LegacySpec.LiteralExportsLoop(source, tables, State(), revertPos)
          == LegacySpec.TryParseLiteralExports(source, tables, old(State()))
        decreases |source| - pos
      {
        CommentWhitespace();
        var aborted := LiteralProperty(revertPos);
        if aborted {
          return;
        }
        CommentWhitespace();
        if At(source, pos) == Some(',' as byte) {
          pos := pos + 1;
        } else {
          return;
        }
      }
    }

    /** After `exports`; `assign` admits `= { ... }` and `= require(...)` (after `module.`). */
    method TryParseExportsDotAssign(assign: bool)
      modifies this
      ensures State() == LegacySpec.TryParseExportsDotAssign(source, tables, old(State()), assign)
    {
      hide LegacySpec.CommentWhitespace, LegacySpec.ExportsDotName, LegacySpec.ExportsBracketKey, LegacySpec.ExportsAssign;
      pos := pos + |EXPORTS|;
      var revertPos := pos - 1;
      CommentWhitespace();
      var c := At(source, pos);
      if c == Some('.' as byte) {
        ExportsDotName();
      } else if c == Some('[' as byte) {
        var returned := ExportsBracketKey();
        if returned {
          return;
        }
      } else if c == Some('=' as byte) && assign {
        var returned := ExportsAssign();
        if returned {
          return;
        }
      }
      pos := revertPos;
    }

    /** The `.` arm of `try_parse_exports_dot_assign`: the name is exported when `=` follows. */
    method ExportsDotName()
      modifies this
      ensures State() == LegacySpec.ExportsDotName(source, tables, old(State()))
    {
      hide LegacySpec.CommentWhitespace, LegacySpec.Identifier;
      pos := pos + 1;
      CommentWhitespace();
      var identifier := Identifier();
      if identifier.Some? {
        CommentWhitespace();
        if At(source, pos) == Some('=' as byte) {
          parseResult := parseResult.(exports := parseResult.exports + [identifier.value]);
        }
      }
    }

    /** The `[` arm: true when it returned early past the `=`, having exported the key. */
    method ExportsBracketKey() returns (returned: bool)
      modifies this
      ensures (State(), returned) == LegacySpec.ExportsBracketKey(source, old(State()))
    {
      hide LegacySpec.CommentWhitespace, LegacySpec.StringLiteral;
      pos := pos + 1;
      CommentWhitespace();
      var key := StringLiteral();
      if key.Some? {
        CommentWhitespace();
        if At(source, pos) == Some(']' as byte) {
          pos := pos + 1;
          CommentWhitespace();
          if At(source, pos) == Some('=' as byte) {
            pos := pos + 1;
            parseResult := parseResult.(exports := parseResult.exports + [key.value]);
            return true;
          }
        }
      }
      return false;
    }

    /** The `=` arm (after `module.`): true when it returned early after an object literal. */
    method ExportsAssign() returns (returned: bool)
      modifies this
      ensures (State(), returned) == LegacySpec.ExportsAssign(source, tables, old(State()))
    {
      hide LegacySpec.CommentWhitespace, LegacySpec.TryParseLiteralExports, LegacySpec.TryParseRequire;
      pos := pos + 1;
      CommentWhitespace();
      if At(source, pos) == Some('{' as byte) {
        TryParseLiteralExports();
        return true;
      }
      if At(source, pos) == Some('r' as byte) {
        var required := TryParseRequire();
        if required.Some? {
          parseResult := parseResult.(reexports := [required.value]);
        }
      }
      return false;
    }

    /** After `module`. */
    method TryParseModuleExportsDotAssign()
      modifies this
      ensures State() == LegacySpec.TryParseModuleExportsDotAssign(source, tables, old(State()))
    {
      hide LegacySpec.CommentWhitespace, LegacySpec.TryParseExportsDotAssign;
      pos := pos + |MODULE|;
      var revertPos := pos - 1;
      CommentWhitespace();
      if At(source, pos) == Some('.' as byte) {
        pos := pos + 1;
        CommentWhitespace();
        if StartsWithAt(source, pos, EXPORTS) {
          TryParseExportsDotAssign(true);
          return;
        }
      }
      pos := revertPos;
    }

    /** `require('x')`; the result is the module name when the call is complete. */
    method TryParseRequire() returns (r: Option<Str>)
      modifies this
      ensures (State(), r) == LegacySpec.TryParseRequire(source, old(State()))
    {
      hide LegacySpec.CommentWhitespace, LegacySpec.StringLiteral;
      if !StartsWithAt(source, pos, REQUIRE) {
        return None;
      }
      pos := pos + |REQUIRE|;
      CommentWhitespace();
      if At(source, pos) != Some('(' as byte) {
        return None;
      }
      pos := pos + 1;
      CommentWhitespace();
      var required := StringLiteral();
      if required.None? {
        return None;
      }
      parseResult := parseResult.(imports := parseResult.imports + [required.value]);
      CommentWhitespace();
      if At(source, pos) == Some(')' as byte) {
        pos := pos + 1;
        return required;
      }
      return None;
    }

    /** The regular expression scanner this version defines (its driver never calls it). */
    method RegexLiteral()
      modifies this
      ensures State() == LegacySpec.RegexLiteral(source, tables, old(State()))
    {
      if At(source, pos) != Some('/' as byte) {
        return;
      }
      var startPos := pos;
      pos := pos + 1;
      var escaped := false;
      var inClass := false;
      ghost var scan := RegexBody(source, pos, false, false);
      while pos < |source|
        invariant RegexBody(source, pos, escaped, inClass) == scan
        invariant State() == old(State()).(pos := pos)
        decreases |source| - pos
      {
        var c := source[pos];
        pos := pos + 1;
        if IsBr(c) {
          parseResult := parseResult.(errors := parseResult.errors + [UnterminatedRegExp(startPos)]);
          return;
        }
        if escaped {
          escaped := false;
        } else {
          if c == '[' as byte {
            inClass := true;
          } else if c == ']' as byte && inClass {
            inClass := false;
          } else if c == '/' as byte && !inClass {
            assert scan == RegexScan(pos, false);
            break;
          }
          escaped := c == '\\' as byte;
        }
      }
      assert scan == RegexScan(pos, false);
      var _ := Identifier();
    }

    /** A closing byte: Some(true) when it matched, Some(false) at the end, None when the source panics. */
    method PopBracketStack() returns (r: Option<bool>)
      modifies this
      ensures (State(), r) == LegacySpec.PopBracketStack(source, old(State()))
    {
      if pos >= |source| {
        parseResult := parseResult.(errors := parseResult.errors + [UnexpectedEOF(pos)]);
        return Some(false);
      }
      var ch := source[pos];
      pos := pos + 1;
      if bracketStack == [] {
        parseResult := parseResult.(errors := parseResult.errors + [UnexpectedBracket(ch, pos)]);
        pos := pos + 1;
        return None;
      }
      var top := bracketStack[|bracketStack| - 1];
      bracketStack := bracketStack[..|bracketStack| - 1];
      if ch != GetBracketCloseCode(top) {
        parseResult := parseResult.(errors := parseResult.errors + [IncorrectClosingBracket(ch, pos)]);
        return None;
      }
      return Some(true);
    }

    /**
      * The driver: skip a `#!` line, then dispatch on each byte to the end of
      * the source. None: a closing bracket made the parser panic.
      */
    method Parse() returns (r: Option<ParseResult>)
      modifies this
      ensures var t := LegacySpec.Parse(source, tables, old(State()));
        r.Some? <==> t.Some?
      ensures r.Some? ==> State() == LegacySpec.Parse(source, tables, old(State())).value && r.value == parseResult
    {
      hide LegacySpec.Dispatch;
      pos := 0;
      if At(source, 0) == Some('#' as byte) && At(source, 1) == Some('!' as byte) {
        while pos < |source|
          invariant LineCommentEnd(source, pos) == LineCommentEnd(source, 0)
          invariant State() == old(State()).(pos := pos)
          decreases |source| - pos
        {
          var c := source[pos];
          pos := pos + 1;
          if c == '\n' as byte || c == '\r' as byte {
            break;
          }
        }
      }
      while pos < |source|
        invariant LegacySpec.Run(source, tables, State()) == LegacySpec.Parse(source, tables, old(State()))
        decreases |source| - pos
      {
        var c := source[pos];
        if c == ' ' as byte || (8 < c < 14) {
          pos := pos + 1;
        } else {
          var ok := Dispatch();
          if !ok {
            return None;
          }
        }
      }
      return Some(parseResult);
    }

    /** The byte dispatch of `parse`; false when the parser panicked. */
    method Dispatch() returns (ok: bool)
      requires pos < |source|
      modifies this
      ensures var t := LegacySpec.Dispatch(source, tables, old(State()));
        ok <==> t.Some?
      ensures ok ==> State() == LegacySpec.Dispatch(source, tables, old(State())).value
    {
      hide LegacySpec.StringLiteral, LegacySpec.TryParseRequire, LegacySpec.TryParseExportsDotAssign,
        LegacySpec.TryParseModuleExportsDotAssign, LegacySpec.CommentWhitespace, LegacySpec.PopBracketStack;
      var c := source[pos];
      if c == 'e' as byte && StartsWithAt(source, pos, EXPORTS) && KeywordStart() {
        TryParseExportsDotAssign(false);
      } else if c == 'r' as byte && StartsWithAt(source, pos, REQUIRE) && KeywordStart() {
        var _ := TryParseRequire();
      } else if IsQuote(c) {
        var _ := StringLiteral();
      } else if c == 'm' as byte && StartsWithAt(source, pos, MODULE) && KeywordStart() {
        TryParseModuleExportsDotAssign();
      } else if c == '/' as byte && (At(source, pos + 1) == Some('*' as byte) || At(source, pos + 1) == Some('/' as byte)) {
        CommentWhitespace();
      } else if c == '(' as byte || c == '[' as byte || c == '{' as byte {
        if c == '(' as byte {
          bracketStack := bracketStack + [Bracket.Parenthesis];
        } else if c == '[' as byte {
          bracketStack := bracketStack + [Bracket.SquareBracket];
        } else {
          bracketStack := bracketStack + [Bracket.Brace];
        }
        pos := pos + 1;
      } else if c == ')' as byte || c == ']' as byte || c == '}' as byte {
        var popped := PopBracketStack();
        if popped.None? {
          return false;
        }
      } else {
        pos := pos + 1;
      }
      return true;
    }
  }
}
