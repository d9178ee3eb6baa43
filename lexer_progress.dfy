/**
  * How the current parser's driver treats brackets and `/`, and that a run
  * only ever adds to the import, export and diagnostic lists, proved about
  * the functions of module LexerSpec.
  */
module LexerProgress {
  import opened Wrappers
  import opened Utils
  import opened Scanners
  import opened LexerSpec
  import ScannerFacts
  import Keywords

  // ---------------------------------------------------------------------
  // The context stack
  // ---------------------------------------------------------------------

  /** An opening byte: `(`, `[` or `{`. */
  predicate IsOpener(c: byte) {
    c == '(' as byte || c == '[' as byte || c == '{' as byte
  }

  /** `d` is the closing byte that belongs to the opening byte `c`. */
  predicate Closes(c: byte, d: byte) {
    (c == '(' as byte && d == ')' as byte) || (c == '[' as byte && d == ']' as byte)
    || (c == '{' as byte && d == '}' as byte)
  }

  /**
    * A close byte that matches the top entry removes exactly that entry,
    * records nothing, and makes the parser expect an expression exactly
    * when the entry was a parenthesis opened by `if`, `while` or `for`.
    */
  lemma PopMatchingClose(src: Str, s: State)
    requires s.pos < |src| && s.stack != []
    requires src[s.pos] == LexerSpec.GetBracketCloseCode(s.stack[|s.stack| - 1])
    ensures var (t, b) := PopBracketStack(src, s);
      var top := s.stack[|s.stack| - 1];
      b == Some(top) && t.stack + [top] == s.stack && t.pos == s.pos + 1
      && t.result == s.result && t.paren == s.paren
      && (t.expectExpr <==> top.Parenthesis? && top.kind == Keywords.ParenthesisKeyword)
  {
  }

  /** A close byte that does not match still removes the top entry, and records IncorrectClosingBracket. */
  lemma PopMismatchedClose(src: Str, s: State)
    requires s.pos < |src| && s.stack != []
    requires src[s.pos] != LexerSpec.GetBracketCloseCode(s.stack[|s.stack| - 1])
    ensures var (t, b) := PopBracketStack(src, s);
      b == None && t.stack + [s.stack[|s.stack| - 1]] == s.stack && t.pos == s.pos + 1
      && t.expectExpr == s.expectExpr
      && t.result == s.result.(errors := s.result.errors + [IncorrectClosingBracket(src[s.pos], s.pos + 1)])
  {
  }

  /** A close byte on an empty stack records UnexpectedBracket and moves the cursor on by two bytes. */
  lemma PopEmptyStack(src: Str, s: State)
    requires s.pos < |src| && s.stack == []
    ensures var (t, b) := PopBracketStack(src, s);
      b == None && t.stack == [] && t.pos == s.pos + 2 && t.expectExpr == s.expectExpr
      && t.result == s.result.(errors := s.result.errors + [UnexpectedBracket(src[s.pos], s.pos + 1)])
  {
  }

  /**
    * An opening byte pushes one entry whose closing byte is the matching
    * one, and makes the parser expect an expression; a `(` takes the
    * pending parenthesis kind into its entry and resets it to Plain.
    */
  lemma PushOpens(s: State, c: byte)
    requires IsOpener(c)
    ensures var t := PushBracket(s, c);
      var entry := t.stack[|s.stack|];
      |t.stack| == |s.stack| + 1 && t.stack[..|s.stack|] == s.stack
      && Closes(c, LexerSpec.GetBracketCloseCode(entry)) && entry != LexerSpec.Bracket.TemplateBrace
      && (entry == LexerSpec.Bracket.Parenthesis(Keywords.ParenthesisKeyword) <==> c == '(' as byte && s.paren == Keywords.ParenthesisKeyword)
      && t.paren == (if c == '(' as byte then Keywords.Plain else s.paren)
      && t.expectExpr && t.pos == s.pos + 1 && t.result == s.result
  {
  }

  /**
    * The driver on an opening byte followed by its closing byte: the stack
    * is as before, nothing is recorded, and an expression is expected
    * afterwards exactly when the opener was a keyword parenthesis.
    */
  lemma StepOpenThenClose(src: Str, tables: IdTables, s: State)
    requires s.pos + 1 < |src| && IsOpener(src[s.pos]) && Closes(src[s.pos], src[s.pos + 1])
    ensures var t := Step(src, tables, Step(src, tables, s));
      t.stack == s.stack && t.pos == s.pos + 2 && t.result == s.result
      && (t.expectExpr <==> src[s.pos] == '(' as byte && s.paren == Keywords.ParenthesisKeyword)
  {
    hide AsciiBytes, StartsWithAt, KeywordStart, WordOrLiteral, RegexLiteral, CommentWhitespace, TemplateLiteral;
    var c := src[s.pos];
    var s1 := PushBracket(s, c);
    assert Step(src, tables, s) == s1;
    PushOpens(s, c);
    assert s1.stack == s.stack + [s1.stack[|s.stack|]];
    PopMatchingClose(src, s1);
    hide PushBracket, PopBracketStack;
    assert Step(src, tables, s1) == CloseBracket(src, s1);
  }

  // ---------------------------------------------------------------------
  // `/`
  // ---------------------------------------------------------------------

  /**
    * The driver on `/`: a comment is skipped; otherwise a regular
    * expression is scanned when an expression is expected, and else the
    * `/` is a division after which an expression is expected.
    */
  lemma StepSlash(src: Str, tables: IdTables, s: State)
    requires s.pos < |src| && src[s.pos] == '/' as byte
    ensures StartsComment(src, s.pos) ==> Step(src, tables, s) == CommentWhitespace(src, s)
    ensures !StartsComment(src, s.pos) && s.expectExpr ==> Step(src, tables, s) == RegexLiteral(src, tables, s)
    ensures !StartsComment(src, s.pos) && !s.expectExpr ==>
      Step(src, tables, s) == s.(pos := s.pos + 1, expectExpr := true)
  {
    hide RegexLiteral, CommentWhitespace;
    assert !WordOrLiteralStart(src, s.pos);
  }

  /**
    * A regular expression whose body meets a line break before its closing
    * `/` records UnterminatedRegExp at the offset of the opening `/`, and
    * the cursor is left past the line break.
    */
  lemma RegexLineBreak(src: Str, tables: IdTables, s: State, n: nat)
    requires s.pos + 1 + n < |src| && src[s.pos] == '/' as byte
    requires forall k :: s.pos + 1 <= k < s.pos + 1 + n ==> ScannerFacts.PlainRegexByte(src[k])
    requires IsBr(src[s.pos + 1 + n])
    ensures RegexLiteral(src, tables, s) == AddError(s.(pos := s.pos + n + 2), UnterminatedRegExp(s.pos))
  {
    ScannerFacts.RegexBodyPlain(src, s.pos + 1, n);
  }

  // ---------------------------------------------------------------------
  // Keywords, other punctuators and any other byte
  // ---------------------------------------------------------------------

  /**
    * A keyword's first bytes: one the keyword arm dispatches on, and never
    * the `ex` of `exports` nor the `req` of `require`.
    */
  predicate KeywordShape(k: Str) {
    |k| >= 2 && IsKeywordInitial(k[0])
    && !(k[0] == 'e' as byte && k[1] == 'x' as byte)
    && !(k[0] == 'r' as byte && k[1] == 'e' as byte && (|k| == 2 || k[2] == 'q' as byte))
  }

  /** Every expression keyword has that shape, and is not `if`, `while` or `for` by its first two bytes. */
  lemma ExpressionKeywordShapes()
    ensures forall k :: k in Keywords.EXPRESSION_KEYWORDS ==> KeywordShape(k) && !ParenthesisPrefix(k)
  {
    forall i | 0 <= i < |Keywords.EXPRESSION_KEYWORDS|
      ensures KeywordShape(Keywords.EXPRESSION_KEYWORDS[i]) && !ParenthesisPrefix(Keywords.EXPRESSION_KEYWORDS[i])
    {
    }
  }

  /** Every parenthesis keyword has that shape and the first two bytes of `if`, `while` or `for`. */
  lemma ParenthesisKeywordShapes()
    ensures forall k :: k in Keywords.PARENTHESIS_KEYWORDS ==> KeywordShape(k) && ParenthesisPrefix(k)
  {
    forall i | 0 <= i < |Keywords.PARENTHESIS_KEYWORDS|
      ensures KeywordShape(Keywords.PARENTHESIS_KEYWORDS[i]) && ParenthesisPrefix(Keywords.PARENTHESIS_KEYWORDS[i])
    {
    }
  }

  /** Every keyword of either list has that shape. */
  lemma KeywordPrefixes()
    ensures forall k :: k in Keywords.EXPRESSION_KEYWORDS || k in Keywords.PARENTHESIS_KEYWORDS ==> KeywordShape(k)
  {
    hide Keywords.EXPRESSION_KEYWORDS, Keywords.PARENTHESIS_KEYWORDS;
    ExpressionKeywordShapes();
    ParenthesisKeywordShapes();
  }

  /** No parenthesis keyword is an expression keyword. */
  lemma KeywordListsDisjoint()
    ensures forall k :: k in Keywords.PARENTHESIS_KEYWORDS ==> k !in Keywords.EXPRESSION_KEYWORDS
  {
    hide Keywords.EXPRESSION_KEYWORDS, Keywords.PARENTHESIS_KEYWORDS;
    ExpressionKeywordShapes();
    ParenthesisKeywordShapes();
  }

  /** The first two bytes of `if`, `while` or `for`. */
  predicate ParenthesisPrefix(k: Str)
    requires |k| >= 2
  {
    (k[0] == 'i' as byte && k[1] == 'f' as byte) || (k[0] == 'w' as byte && k[1] == 'h' as byte)
    || (k[0] == 'f' as byte && k[1] == 'o' as byte)
  }

  /** A word does not start where a byte of the source differs from it. */
  lemma DiffersAt(src: Str, pos: nat, kw: Str, i: nat)
    requires i < |kw| && pos + i < |src| && src[pos + i] != kw[i]
    ensures !StartsWithAt(src, pos, kw)
  {
  }

  /** No keyword of either list is accepted where `exports` or `require` starts. */
  lemma KeywordIsNotExportsOrRequire(src: Str, pos: nat, k: Str)
    requires pos < |src| && (k in Keywords.EXPRESSION_KEYWORDS || k in Keywords.PARENTHESIS_KEYWORDS)
    requires Keywords.Accepts(src[pos..], k)
    ensures !StartsWithAt(src, pos, EXPORTS) && !StartsWithAt(src, pos, REQUIRE)
  {
    hide Keywords.EXPRESSION_KEYWORDS, Keywords.PARENTHESIS_KEYWORDS;
    KeywordPrefixes();
    KeywordLengths();
    assert k[0] == src[pos] && k[1] == src[pos + 1];
    assert EXPORTS[1] == 'x' as byte && REQUIRE[1] == 'e' as byte && REQUIRE[2] == 'q' as byte;
    if k[0] != 'e' as byte { DiffersAt(src, pos, EXPORTS, 0); } else { DiffersAt(src, pos, EXPORTS, 1); }
    if k[0] != 'r' as byte { DiffersAt(src, pos, REQUIRE, 0); }
    else if k[1] != 'e' as byte { DiffersAt(src, pos, REQUIRE, 1); }
    else {
      assert k[2] == src[pos + 2];
      DiffersAt(src, pos, REQUIRE, 2);
    }
  }

  /**
    * The driver at a keyword start on an expression keyword followed by a
    * boundary byte: the cursor passes the keyword and an expression is
    * expected, so a `/` after `return` or `typeof` opens a regular expression.
    */
  lemma StepExpressionKeyword(src: Str, tables: IdTables, s: State, k: Str)
    requires s.pos < |src| && KeywordStart(src, s.pos)
    requires k in Keywords.EXPRESSION_KEYWORDS && Keywords.Accepts(src[s.pos..], k)
    ensures Step(src, tables, s) == s.(pos := s.pos + |k|, expectExpr := true)
  {
    hide Keywords.EXPRESSION_KEYWORDS, Keywords.PARENTHESIS_KEYWORDS, AsciiBytes;
    KeywordPrefixes();
    KeywordIsNotExportsOrRequire(src, s.pos, k);
    Keywords.KeywordsAreLowerWords();
    var m := Keywords.MatchKeyword(src[s.pos..]);
    var k2 :| k2 in Keywords.EXPRESSION_KEYWORDS && Keywords.Accepts(src[s.pos..], k2) && |k2| == m.len;
    Keywords.AcceptedWordIsUnique(src[s.pos..], k, k2);
    hide TryParseExportsDotAssign, TryParseRequire, LexerSpec.StringLiteral, TemplateLiteral, TryParseModuleExportsDotAssign;
    assert src[s.pos] == k[0];
    assert WordOrLiteralStart(src, s.pos);
  }

  /** A parenthesis keyword followed by a boundary byte is matched as that keyword. */
  lemma MatchParenthesisKeyword(w: Str, k: Str)
    requires k in Keywords.PARENTHESIS_KEYWORDS && Keywords.Accepts(w, k)
    ensures Keywords.MatchKeyword(w) == Keywords.MaybeKeyword.Parenthesis(|k|)
  {
    hide Keywords.EXPRESSION_KEYWORDS, Keywords.PARENTHESIS_KEYWORDS, AsciiBytes;
    Keywords.KeywordsAreLowerWords();
    KeywordListsDisjoint();
    forall k2 | k2 in Keywords.EXPRESSION_KEYWORDS
      ensures !Keywords.Accepts(w, k2)
    {
      if Keywords.Accepts(w, k2) {
        Keywords.AcceptedWordIsUnique(w, k, k2);
      }
    }
    var m := Keywords.MatchKeyword(w);
    var k2 :| k2 in Keywords.PARENTHESIS_KEYWORDS && Keywords.Accepts(w, k2) && |k2| == m.len;
    Keywords.AcceptedWordIsUnique(w, k, k2);
  }

  /**
    * The driver at a keyword start on `if`, `while` or `for` followed by a
    * boundary byte: the cursor passes the keyword, the next `(` is marked as
    * a keyword parenthesis, and no expression is expected.
    */
  lemma StepParenthesisKeyword(src: Str, tables: IdTables, s: State, k: Str)
    requires s.pos < |src| && KeywordStart(src, s.pos)
    requires k in Keywords.PARENTHESIS_KEYWORDS && Keywords.Accepts(src[s.pos..], k)
    ensures Step(src, tables, s) == s.(pos := s.pos + |k|, paren := Keywords.ParenthesisKeyword, expectExpr := false)
  {
    hide Keywords.EXPRESSION_KEYWORDS, Keywords.PARENTHESIS_KEYWORDS, AsciiBytes;
    KeywordPrefixes();
    KeywordIsNotExportsOrRequire(src, s.pos, k);
    MatchParenthesisKeyword(src[s.pos..], k);
    hide TryParseExportsDotAssign, TryParseRequire, LexerSpec.StringLiteral, TemplateLiteral, TryParseModuleExportsDotAssign;
    assert src[s.pos] == k[0];
    assert WordOrLiteralStart(src, s.pos);
  }

  /**
    * A word at a keyword start whose first byte may begin a keyword, which
    * is neither `exports` nor `require` and which no keyword matches: the
    * driver moves on by one byte and no expression is expected.
    */
  lemma StepWordNotKeyword(src: Str, tables: IdTables, s: State)
    requires s.pos < |src| && IsKeywordInitial(src[s.pos]) && KeywordStart(src, s.pos)
    requires !StartsWithAt(src, s.pos, EXPORTS) && !StartsWithAt(src, s.pos, REQUIRE)
    requires forall k :: k in Keywords.EXPRESSION_KEYWORDS + Keywords.PARENTHESIS_KEYWORDS ==> !Keywords.Accepts(src[s.pos..], k)
    ensures Step(src, tables, s) == s.(pos := s.pos + 1, expectExpr := false)
  {
    hide TryParseExportsDotAssign, TryParseRequire, LexerSpec.StringLiteral, TemplateLiteral, TryParseModuleExportsDotAssign;
    assert WordOrLiteralStart(src, s.pos);
    assert Keywords.MatchKeyword(src[s.pos..]).NotKeyword?;
  }

  /**
    * A punctuator other than `/` and the brackets: the driver moves on by
    * one byte, and an expression is expected afterwards unless the byte is
    * a `.`, which keeps the flag as it was.
    */
  lemma StepPunctuator(src: Str, tables: IdTables, s: State)
    requires s.pos < |src| && IsPunctuator(src[s.pos]) && src[s.pos] != '/' as byte
    requires !IsOpener(src[s.pos]) && src[s.pos] != ')' as byte && src[s.pos] != ']' as byte && src[s.pos] != '}' as byte
    ensures Step(src, tables, s) == s.(pos := s.pos + 1, expectExpr := src[s.pos] != '.' as byte || s.expectExpr)
  {
    hide WordOrLiteral, RegexLiteral, CommentWhitespace, CloseBracket;
    assert !WordOrLiteralStart(src, s.pos);
  }

  /**
    * Any other byte, one that no arm of the dispatch claims (an identifier
    * byte that does not start a word arm, a digit, a non-ASCII byte): the
    * driver moves on by one byte and no expression is expected.
    */
  lemma StepOtherByte(src: Str, tables: IdTables, s: State)
    requires s.pos < |src| && !IsPunctuator(src[s.pos]) && !IsCommentWhitespace(src[s.pos])
    requires !WordOrLiteralStart(src, s.pos)
    ensures Step(src, tables, s) == s.(pos := s.pos + 1, expectExpr := false)
  {
    hide WordOrLiteral, RegexLiteral, CommentWhitespace, CloseBracket;
  }

  /** `n` turns of the driver loop, or fewer when the source ends first. */
  function Steps(src: Str, tables: IdTables, s: State, n: nat): (t: State)
    decreases n
    ensures s.pos <= t.pos
  {
    if n == 0 || s.pos >= |src| then s else Steps(src, tables, Step(src, tables, s), n - 1)
  }

  /** Taking some turns first does not change where the driver loop ends. */
  lemma {:induction false} RunAfterSteps(src: Str, tables: IdTables, s: State, n: nat)
    decreases n
    ensures Run(src, tables, Steps(src, tables, s, n)) == Run(src, tables, s)
  {
    if n > 0 && s.pos < |src| {
      RunAfterSteps(src, tables, Step(src, tables, s), n - 1);
    }
  }

  /**
    * `(`, one byte that no arm claims, `)`: the stack and the lists are as
    * before, the pending parenthesis kind is reset, and an expression is
    * expected afterwards exactly when a keyword was pending for the `(`.
    */
  lemma ParenthesisAroundByte(src: Str, tables: IdTables, s: State)
    requires s.pos + 2 < |src| && src[s.pos] == '(' as byte && src[s.pos + 2] == ')' as byte
    requires !IsPunctuator(src[s.pos + 1]) && !IsCommentWhitespace(src[s.pos + 1]) && !WordOrLiteralStart(src, s.pos + 1)
    ensures var t := Steps(src, tables, s, 3);
      t.pos == s.pos + 3 && t.stack == s.stack && t.result == s.result && t.paren == Keywords.Plain
      && (t.expectExpr <==> s.paren == Keywords.ParenthesisKeyword)
  {
    hide WordOrLiteral, RegexLiteral, CommentWhitespace, TemplateLiteral;
    var s1 := PushBracket(s, '(' as byte);
    PushOpens(s, '(' as byte);
    assert Step(src, tables, s) == s1;
    var s2 := s1.(pos := s.pos + 2, expectExpr := false);
    StepOtherByte(src, tables, s1);
    PopMatchingClose(src, s2);
    assert s2.stack == s.stack + [LexerSpec.Bracket.Parenthesis(s.paren)];
    var s3 := PopBracketStack(src, s2).0;
    assert Step(src, tables, s2) == s3;
    assert Steps(src, tables, s, 3) == s3;
  }

  /**
    * `if (x) /re/`: the keyword marks the parenthesis, the `)` that closes
    * it makes the parser expect an expression, and so the `/` after it is
    * scanned as a regular expression, with the stack and the lists as
    * before the `if`.
    */
  lemma IfParenthesisThenRegex(src: Str, tables: IdTables, s: State)
    requires s.pos + 7 < |src| && KeywordStart(src, s.pos)
    requires src[s.pos..s.pos + 6] == AsciiBytes("if (x)") && src[s.pos + 6] == '/' as byte
    requires src[s.pos + 7] != '*' as byte && src[s.pos + 7] != '/' as byte
    ensures var t := Steps(src, tables, s, 5);
      t.pos == s.pos + 6 && t.stack == s.stack && t.result == s.result && t.expectExpr
      && Step(src, tables, t) == RegexLiteral(src, tables, t)
  {
    hide RegexLiteral, WordOrLiteral, Punctuation, Keywords.MatchKeyword;
    var p := s.pos;
    assert src[p] == 'i' as byte && src[p + 1] == 'f' as byte && src[p + 2] == ' ' as byte;
    assert src[p + 3] == '(' as byte && src[p + 4] == 'x' as byte && src[p + 5] == ')' as byte;
    var kw := Keywords.PARENTHESIS_KEYWORDS[0];
    assert kw == src[p..][..2];
    StepParenthesisKeyword(src, tables, s, kw);
    var s1 := s.(pos := p + 2, paren := Keywords.ParenthesisKeyword, expectExpr := false);
    var s2 := s1.(pos := p + 3);
    assert Step(src, tables, s1) == s2;
    ParenthesisAroundByte(src, tables, s2);
    var s5 := Steps(src, tables, s2, 3);
    assert Steps(src, tables, s, 5) == s5;
    StepSlash(src, tables, s5);
  }

  /**
    * `(x) / y`: a parenthesis that no keyword opened leaves no expression
    * expected when it closes, so the `/` after it is a division.
    */
  lemma PlainParenthesisThenDivision(src: Str, tables: IdTables, s: State)
    requires s.pos + 4 < |src| && s.paren == Keywords.Plain
    requires src[s.pos..s.pos + 3] == AsciiBytes("(x)") && src[s.pos + 3] == '/' as byte
    requires src[s.pos + 4] != '*' as byte && src[s.pos + 4] != '/' as byte
    ensures var t := Steps(src, tables, s, 3);
      t.pos == s.pos + 3 && t.stack == s.stack && t.result == s.result && !t.expectExpr
      && Step(src, tables, t) == t.(pos := s.pos + 4, expectExpr := true)
  {
    hide RegexLiteral, CommentWhitespace;
    var p := s.pos;
    assert src[p] == '(' as byte && src[p + 1] == 'x' as byte && src[p + 2] == ')' as byte;
    ParenthesisAroundByte(src, tables, s);
    StepSlash(src, tables, Steps(src, tables, s, 3));
  }

  // ---------------------------------------------------------------------
  // The lists only grow
  // ---------------------------------------------------------------------

  lemma ExtendsTransitive(s: State, t: State, u: State)
    requires Extends(s, t) && Extends(t, u)
    ensures Extends(s, u)
  {
  }

  /** Skipping comments and whitespace records nothing. */
  lemma CommentWhitespaceKeeps(src: Str, s: State)
    ensures CommentWhitespace(src, s).result == s.result
  {
    hide CommentWhitespaceEnd;
  }

  /** Reading an identifier or a number records nothing. */
  lemma ScannersKeepResult(src: Str, tables: IdTables, s: State)
    ensures Identifier(src, tables, s).0.result == s.result
    ensures LexerSpec.NumberLiteral(src, s).0.result == s.result
  {
    hide AsciiBytes, CommentWhitespaceEnd, IdentifierEnd, Scanners.NumberLiteral;
  }

  /** A string literal only adds diagnostics. */
  lemma StringLiteralGrows(src: Str, s: State, skip: bool)
    ensures Grows(s, LexerSpec.StringLiteral(src, s, skip).0)
  {
    hide AsciiBytes, Scanners.StringLiteral;
  }

  lemma TryParseRequireGrows(src: Str, s: State)
    ensures Grows(s, TryParseRequire(src, s).0)
  {
    hide AsciiBytes, LexerSpec.StringLiteral, CommentWhitespace, StartsWithAt;
    var s1 := CommentWhitespace(src, s.(pos := s.pos + |REQUIRE|));
    var s2 := CommentWhitespace(src, s1.(pos := s1.pos + 1));
    CommentWhitespaceKeeps(src, s.(pos := s.pos + |REQUIRE|));
    CommentWhitespaceKeeps(src, s1.(pos := s1.pos + 1));
    StringLiteralGrows(src, s2, false);
    var (s3, name) := LexerSpec.StringLiteral(src, s2, false);
    if name.Some? {
      CommentWhitespaceKeeps(src, AddImport(s3, name.value));
    }
  }

  lemma LiteralValueGrows(src: Str, tables: IdTables, s: State)
    ensures Grows(s, LiteralValue(src, tables, s).0)
  {
    hide AsciiBytes, Identifier, LexerSpec.StringLiteral, LexerSpec.NumberLiteral;
    ScannersKeepResult(src, tables, s);
    var s1 := Identifier(src, tables, s).0;
    StringLiteralGrows(src, s1, true);
    var s2 := LexerSpec.StringLiteral(src, s1, true).0;
    ScannersKeepResult(src, tables, s2);
  }

  lemma LiteralPropertyGrows(src: Str, tables: IdTables, s: State, revert: nat)
    ensures GrowsOrReverts(s, LiteralProperty(src, tables, s, revert).0, revert)
  {
    hide AsciiBytes, Identifier, CommentWhitespace, LiteralValue;
    ScannersKeepResult(src, tables, s);
    var (s1, name) := Identifier(src, tables, s);
    if name.Some? {
      CommentWhitespaceKeeps(src, s1);
      var s2 := CommentWhitespace(src, s1);
      CommentWhitespaceKeeps(src, s2.(pos := s2.pos + 1));
      LiteralValueGrows(src, tables, CommentWhitespace(src, s2.(pos := s2.pos + 1)));
    }
  }

  /** The object-literal loop adds to the lists and moves the cursor forward, unless it puts it back to `revert`. */
  lemma {:induction false} LiteralExportsLoopGrows(src: Str, tables: IdTables, s: State, revert: nat)
    ensures GrowsOrReverts(s, LiteralExportsLoop(src, tables, s, revert), revert)
    decreases |src| - s.pos
  {
    hide AsciiBytes, LiteralProperty, CommentWhitespace;
    if s.pos < |src| {
      var s0 := CommentWhitespace(src, s);
      CommentWhitespaceKeeps(src, s);
      LiteralPropertyGrows(src, tables, s0, revert);
      var (s1, aborted) := LiteralProperty(src, tables, s0, revert);
      if !aborted {
        var s2 := CommentWhitespace(src, s1);
        CommentWhitespaceKeeps(src, s1);
        if At(src, s2.pos) == Some(',' as byte) {
          var s3 := s2.(pos := s2.pos + 1);
          LiteralExportsLoopGrows(src, tables, s3, revert);
          hide LiteralExportsLoop;
          ExtendsTransitive(s, s3, LiteralExportsLoop(src, tables, s3, revert));
        }
      }
    }
  }

  lemma TryParseLiteralExportsExtends(src: Str, tables: IdTables, s: State)
    requires 1 <= s.pos
    ensures Extends(s, TryParseLiteralExports(src, tables, s))
  {
    hide AsciiBytes, LiteralExportsLoop;
    if At(src, s.pos) == Some('{' as byte) {
      LiteralExportsLoopGrows(src, tables, s.(pos := s.pos + 1), s.pos - 1);
    }
  }

  lemma ExportsAssignExtends(src: Str, tables: IdTables, s: State)
    ensures Extends(s, ExportsAssign(src, tables, s).0)
  {
    hide AsciiBytes, CommentWhitespace, TryParseLiteralExports, TryParseRequire;
    var s1 := CommentWhitespace(src, s.(pos := s.pos + 1));
    CommentWhitespaceKeeps(src, s.(pos := s.pos + 1));
    if At(src, s1.pos) == Some('{' as byte) {
      TryParseLiteralExportsExtends(src, tables, s1);
    } else if At(src, s1.pos) == Some('r' as byte) {
      TryParseRequireGrows(src, s1);
    }
  }

  lemma ExportsDotNameGrows(src: Str, tables: IdTables, s: State)
    ensures Extends(s, ExportsDotName(src, tables, s))
  {
    hide AsciiBytes, CommentWhitespace, Identifier;
    var s1 := CommentWhitespace(src, s.(pos := s.pos + 1));
    CommentWhitespaceKeeps(src, s.(pos := s.pos + 1));
    ScannersKeepResult(src, tables, s1);
    CommentWhitespaceKeeps(src, Identifier(src, tables, s1).0);
  }

  lemma ExportsBracketKeyGrows(src: Str, s: State)
    ensures Extends(s, ExportsBracketKey(src, s).0)
  {
    hide AsciiBytes, CommentWhitespace, LexerSpec.StringLiteral;
    var s1 := CommentWhitespace(src, s.(pos := s.pos + 1));
    CommentWhitespaceKeeps(src, s.(pos := s.pos + 1));
    StringLiteralGrows(src, s1, false);
    var s2 := LexerSpec.StringLiteral(src, s1, false).0;
    CommentWhitespaceKeeps(src, s2);
    var s3 := CommentWhitespace(src, s2);
    CommentWhitespaceKeeps(src, s3.(pos := s3.pos + 1));
  }

  lemma TryParseExportsDotAssignGrows(src: Str, tables: IdTables, s: State, assign: bool)
    ensures Grows(s, TryParseExportsDotAssign(src, tables, s, assign))
  {
    hide AsciiBytes, CommentWhitespace, ExportsDotName, ExportsBracketKey, ExportsAssign;
    CommentWhitespaceKeeps(src, s.(pos := s.pos + |EXPORTS|));
    var s1 := CommentWhitespace(src, s.(pos := s.pos + |EXPORTS|));
    ExportsDotNameGrows(src, tables, s1);
    ExportsBracketKeyGrows(src, s1);
    ExportsAssignExtends(src, tables, s1);
  }

  lemma TryParseModuleExportsDotAssignGrows(src: Str, tables: IdTables, s: State)
    ensures Grows(s, TryParseModuleExportsDotAssign(src, tables, s))
  {
    hide AsciiBytes, CommentWhitespace, TryParseExportsDotAssign, StartsWithAt;
    CommentWhitespaceKeeps(src, s.(pos := s.pos + |MODULE|));
    var s1 := CommentWhitespace(src, s.(pos := s.pos + |MODULE|));
    CommentWhitespaceKeeps(src, s1.(pos := s1.pos + 1));
    var s2 := CommentWhitespace(src, s1.(pos := s1.pos + 1));
    TryParseExportsDotAssignGrows(src, tables, s2, true);
  }

  lemma {:induction false} TemplateBodyGrows(src: Str, s: State)
    ensures Grows(s, TemplateBody(src, s))
    decreases |src| - s.pos
  {
    if s.pos < |src| {
      var c := src[s.pos];
      if c == '\\' as byte {
        TemplateBodyGrows(src, s.(pos := s.pos + 2));
      } else if c != '`' as byte && !(c == '$' as byte && At(src, s.pos + 1) == Some('{' as byte)) {
        TemplateBodyGrows(src, s.(pos := s.pos + 1));
      }
    }
  }

  lemma TemplateLiteralGrows(src: Str, s: State, isMiddle: bool)
    ensures Grows(s, TemplateLiteral(src, s, isMiddle))
  {
    hide TemplateBody;
    TemplateBodyGrows(src, s.(pos := s.pos + 1));
  }

  lemma CloseBracketGrows(src: Str, s: State)
    requires s.pos < |src|
    ensures Grows(s, CloseBracket(src, s))
  {
    hide TemplateLiteral;
    var (s1, b) := PopBracketStack(src, s);
    TemplateLiteralGrows(src, s1, true);
  }

  lemma WordOrLiteralGrows(src: Str, tables: IdTables, s: State)
    requires s.pos < |src| && WordOrLiteralStart(src, s.pos)
    ensures Grows(s, WordOrLiteral(src, tables, s))
  {
    hide AsciiBytes, StartsWithAt, KeywordStart, TryParseExportsDotAssign, TryParseRequire, TemplateLiteral,
      TryParseModuleExportsDotAssign, Keywords.MatchKeyword, LexerSpec.StringLiteral;
    TryParseExportsDotAssignGrows(src, tables, s, false);
    TryParseRequireGrows(src, s);
    StringLiteralGrows(src, s, true);
    TemplateLiteralGrows(src, s, false);
    TryParseModuleExportsDotAssignGrows(src, tables, s);
  }

  lemma PunctuationGrows(src: Str, tables: IdTables, s: State)
    requires s.pos < |src|
    ensures Grows(s, Punctuation(src, tables, s))
  {
    CloseBracketGrows(src, s);
    hide CloseBracket;
  }

  /** One turn of the driver loop moves the cursor forward and only adds to the lists. */
  lemma StepGrows(src: Str, tables: IdTables, s: State)
    requires s.pos < |src|
    ensures Grows(s, Step(src, tables, s))
  {
    if WordOrLiteralStart(src, s.pos) {
      WordOrLiteralGrows(src, tables, s);
    } else {
      PunctuationGrows(src, tables, s);
    }
    hide WordOrLiteral, Punctuation;
  }

  /** The driver loop only adds to the import, export and diagnostic lists. */
  lemma {:induction false} RunGrows(src: Str, tables: IdTables, s: State)
    ensures Grows(s, Run(src, tables, s))
    decreases |src| - s.pos
  {
    if s.pos < |src| {
      var t := Step(src, tables, s);
      StepGrows(src, tables, s);
      RunGrows(src, tables, t);
      hide Step;
      ExtendsTransitive(s, t, Run(src, tables, t));
    }
  }

  /**
    * `parse` only appends to the import, export and diagnostic lists it
    * starts from (the re-export list alone may be replaced), and reads the
    * source to its end.
    */
  lemma ParseGrows(src: Str, tables: IdTables, s: State)
    ensures Extends(s, Parse(src, tables, s)) && |src| <= Parse(src, tables, s).pos
  {
    var s0 := s.(pos := 0);
    RunGrows(src, tables, s0);
    RunGrows(src, tables, s0.(pos := LineCommentEnd(src, 0)));
    hide Run;
  }
}
