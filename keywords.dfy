/**
  * The keyword table of the current parser version: the keywords after which
  * an expression is expected, and the keywords whose parenthesised condition
  * is followed by a statement (`if`, `while`, `for`). A keyword is matched
  * only when the byte after it is a boundary byte or the end of the source.
  * The source of this matcher is not part of this model; it is reconstructed
  * from its call site in cjs_module_lexer/src/parser.rs and from
  * cjs_module_lexer/tests/match_express_keyword.rs.
  */
module Keywords {
  import opened Wrappers
  import opened Utils

  /** The pending classification of the next `(`. */
  datatype ParenthesisType = Plain | ParenthesisKeyword

  /** The matcher's answer: no keyword, or the length of an expression or parenthesis keyword. */
  datatype MaybeKeyword = NotKeyword | Expression(len: nat) | Parenthesis(len: nat)

  const EXPRESSION_KEYWORDS: seq<Str> := [
    AsciiBytes("case"), AsciiBytes("delete"), AsciiBytes("do"), AsciiBytes("else"),
    AsciiBytes("in"), AsciiBytes("instanceof"), AsciiBytes("new"), AsciiBytes("return"),
    AsciiBytes("throw"), AsciiBytes("typeof"), AsciiBytes("void"), AsciiBytes("yield"),
    AsciiBytes("await")]

  const PARENTHESIS_KEYWORDS: seq<Str> := [AsciiBytes("if"), AsciiBytes("while"), AsciiBytes("for")]

  /** `kw` starts `s` and is followed by a boundary byte or by the end of `s`. */
  predicate Accepts(s: Str, kw: Str) {
    |kw| <= |s| && s[..|kw|] == kw && (|kw| == |s| || IsBrOrWsOrPunctuatorNotDot(s[|kw|]))
  }

  /** The length of the first keyword of `kws` that `s` accepts. */
  function FirstAccepted(s: Str, kws: seq<Str>): (r: Option<nat>)
    ensures r.Some? <==> exists k :: k in kws && Accepts(s, k)
    ensures r.Some? ==> exists k :: k in kws && Accepts(s, k) && |k| == r.value
  {
    if kws == [] then None
    else if Accepts(s, kws[0]) then Some(|kws[0]|)
    else FirstAccepted(s, kws[1..])
  }

  function MatchKeyword(s: Str): (r: MaybeKeyword)
    ensures r.Expression? <==> exists k :: k in EXPRESSION_KEYWORDS && Accepts(s, k)
    ensures r.Parenthesis? <==>
      (forall k :: k in EXPRESSION_KEYWORDS ==> !Accepts(s, k))
      && exists k :: k in PARENTHESIS_KEYWORDS && Accepts(s, k)
    ensures r.Expression? ==> exists k :: k in EXPRESSION_KEYWORDS && Accepts(s, k) && |k| == r.len
    ensures r.Parenthesis? ==> exists k :: k in PARENTHESIS_KEYWORDS && Accepts(s, k) && |k| == r.len
  {
    match FirstAccepted(s, EXPRESSION_KEYWORDS)
    case Some(n) => Expression(n)
    case None =>
      match FirstAccepted(s, PARENTHESIS_KEYWORDS)
      case Some(n) => MaybeKeyword.Parenthesis(n)
      case None => NotKeyword
  }

  predicate IsLowerWord(w: Str) {
    |w| >= 2 && forall i :: 0 <= i < |w| ==> 'a' as byte <= w[i] <= 'z' as byte
  }

  lemma KeywordsAreLowerWords()
    ensures forall k :: k in EXPRESSION_KEYWORDS ==> IsLowerWord(k)
    ensures forall k :: k in PARENTHESIS_KEYWORDS ==> IsLowerWord(k)
  {
  }

  /** Two lower-case words accepted at the same place are the same word: a match is never ambiguous. */
  lemma AcceptedWordIsUnique(s: Str, k1: Str, k2: Str)
    requires IsLowerWord(k1) && IsLowerWord(k2)
    requires Accepts(s, k1) && Accepts(s, k2)
    ensures k1 == k2
  {
  }

  /** A match advances over at least two bytes and never past the end of `s`. */
  lemma MatchLength(s: Str)
    ensures !MatchKeyword(s).NotKeyword? ==> 2 <= MatchKeyword(s).len <= |s|
  {
    KeywordsAreLowerWords();
  }

  /** The matcher's example: `case` alone is an expression keyword of four bytes. */
  lemma MatchCase()
    ensures MatchKeyword(AsciiBytes("case")) == Expression(4)
  {
  }

  /** Every expression keyword standing alone is matched as an expression keyword of its own length. */
  lemma ExpressionKeywordsAlone(k: Str)
    requires k in EXPRESSION_KEYWORDS
    ensures MatchKeyword(k) == Expression(|k|)
  {
    hide EXPRESSION_KEYWORDS, PARENTHESIS_KEYWORDS, AsciiBytes;
    KeywordsAreLowerWords();
    assert Accepts(k, k);
    var m := MatchKeyword(k);
    var k2 :| k2 in EXPRESSION_KEYWORDS && Accepts(k, k2) && |k2| == m.len;
    AcceptedWordIsUnique(k, k, k2);
  }

  /**
    * An expression keyword followed by a boundary byte (the matcher's example
    * `case with space`) is matched as that keyword, whatever comes after.
    */
  lemma ExpressionKeywordBeforeBoundary(k: Str, rest: Str)
    requires k in EXPRESSION_KEYWORDS && |rest| > 0 && IsBrOrWsOrPunctuatorNotDot(rest[0])
    ensures MatchKeyword(k + rest) == Expression(|k|)
  {
    hide EXPRESSION_KEYWORDS, PARENTHESIS_KEYWORDS, AsciiBytes;
    KeywordsAreLowerWords();
    var s := k + rest;
    assert s[..|k|] == k && s[|k|] == rest[0];
    assert Accepts(s, k);
    var m := MatchKeyword(s);
    var k2 :| k2 in EXPRESSION_KEYWORDS && Accepts(s, k2) && |k2| == m.len;
    AcceptedWordIsUnique(s, k, k2);
  }

  /** A prefix of a keyword is not a keyword: `th` matches nothing. */
  lemma MatchTooShort()
    ensures MatchKeyword(AsciiBytes("th")) == NotKeyword
  {
    var s := AsciiBytes("th");
    forall k | k in EXPRESSION_KEYWORDS + PARENTHESIS_KEYWORDS
      ensures !Accepts(s, k)
    {
      if k[0] != s[0] { FirstByteDiffers(s, k); }
    }
  }

  /** A word whose first byte differs from the input's is not accepted. */
  lemma FirstByteDiffers(s: Str, k: Str)
    requires |s| > 0 && |k| > 0 && s[0] != k[0]
    ensures !Accepts(s, k)
  {
  }

  /** A word followed by a letter is not accepted. */
  lemma FollowedByLetter(s: Str, k: Str)
    requires |k| < |s| && ('a' as byte <= s[|k|] <= 'z' as byte || 'A' as byte <= s[|k|] <= 'Z' as byte)
    ensures !Accepts(s, k)
  {
  }

  lemma MatchCaseButNotKeyword()
    ensures MatchKeyword(AsciiBytes("caseButNotKeyword")) == NotKeyword
  {
    var s := AsciiBytes("caseButNotKeyword");
    forall k | k in EXPRESSION_KEYWORDS + PARENTHESIS_KEYWORDS
      ensures !Accepts(s, k)
    {
      if k == AsciiBytes("case") { FollowedByLetter(s, k); }
      else { FirstByteDiffers(s, k); }
    }
  }

  lemma MatchCaseDotBut()
    ensures MatchKeyword(AsciiBytes("case.but not keyword")) == NotKeyword
  {
    var s := AsciiBytes("case.but not keyword");
    forall k | k in EXPRESSION_KEYWORDS + PARENTHESIS_KEYWORDS
      ensures !Accepts(s, k)
    {
      if k != AsciiBytes("case") { FirstByteDiffers(s, k); }
    }
  }
}
