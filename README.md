# A verified model of the CommonJS export/import lexer

This project models, in Dafny, the lexer of cjs-module-lexer in Rust. The
lexer scans JavaScript source text once, without building a syntax tree. It
collects four things:

- the names a CommonJS module exports (`exports.a = …`, `exports['a'] = …`,
  `module.exports.a = …`, `module.exports = { a, b: 1 }`);
- its `require('x')` imports;
- its re-export (`module.exports = require('x')`);
- diagnostics, each with its kind, offending character and byte offset.

The repository holds two versions of the lexer, and both are modelled:

- **The current version** (`cjs_module_lexer/src/parser.rs`) tracks whether
  an expression is expected, so that it can tell a regular expression from a
  division. It keeps a context stack that distinguishes `if`/`while`/`for`
  parentheses and template `${` braces, and it scans template literals.
- **The earlier version** (`src/parser.rs`, with `src/utils.rs`) has only a
  bracket stack, and it panics on an unmatched closing bracket.

The model is layered the way the source is:

- `Utils`, `Utf8`, `Keywords`: byte classification, the UTF-8 decoding that
  `full_char_code` does, and the keyword matcher (`utils.rs`, `match_keyword`).
- `Scanners`: pure definitions of the sub-scanners the two versions share:
  comments, identifiers, `\u` escapes, string literals, number literals and
  regular-expression bodies. Each one takes the source and an offset, and
  returns the value, the end offset and the diagnostics it pushes. Where the
  versions differ, the scanner takes a `Version`.
- `LexerSpec` / `LegacySpec`: the parser state, and one function per parser
  method of each version, including the driver loop (`Step`, `Run`, `Parse`).
- `Lexer.Parser` / `Legacy.Parser`: classes with the source's fields (`pos`,
  the stack, the parenthesis kind, the expression flag, the result lists). The
  source's loops are `while` loops here. Every method is proved to leave
  exactly the state, and return exactly the value, that the spec function or
  closed form it names computes from the old state.
- `ScannerFacts`, `LexerFacts`, `LexerProgress`, `LegacyFacts`: what the
  spec functions do on the source forms the lexer recognises, with any
  whitespace and comments between the tokens. This covers:
  - round trips through an escaping function (string literals, `\u`
    escapes of either case);
  - what the identifier and number scanners read;
  - what each detector records: `require('x')`, `exports.a =`,
    `exports['a'] =`, `module.exports = require('x')`, and
    `module.exports = { … }` with shorthand, identifier, string and number
    values, with or without a trailing comma;
  - how template literals and the context stack move;
  - that the result lists only grow.
- `Findings`: two defects of the earlier version, each shown on a concrete
  input and set against the current version's corrected behaviour.
- `LegacyExamples`: the earlier version run, by proof, over the sources of
  two of its tests.

The source text is a byte sequence, and every string the lexer returns is a
byte sequence too (the UTF-8 of the text).

The Unicode ID_Start/ID_Continue tables come from an external crate. The
model takes them as a parameter (`IdTables`). Lemmas that read identifiers
assume only that the tables agree with Unicode on ASCII (`AsciiTables`).

## Model

| member | source | states |
|---|---|---|
| Utils.PunctuatorsExactly | src/utils.rs:1-9 | a byte is a punctuator exactly when it is one of ``!%&[]^()*+,-./:;<=>?{\|}~`` |
| Utils.BoundaryExactly | src/utils.rs:11-13 | a keyword may follow exactly whitespace (9–13, space, NBSP) or a punctuator other than `.`; `.` is a punctuator but no boundary |
| Utils.BrIsBoundary | src/utils.rs:15-17 | the line breaks are exactly CR and LF, and every line break is a boundary byte |
| Utils.AsciiStartIsIdentifierChar | src/utils.rs:19-36 | an ASCII character starts an identifier exactly when it is a letter, `_`, `$` or in ID_Start; letters, `_` and `$` both start and continue one, whatever the tables say |
| Utils.StartIsIdentifierChar | src/utils.rs:19-36 | when ID_Start is inside ID_Continue (as in Unicode), every identifier start also continues an identifier |
| Utils.BracketCodesPair | src/utils.rs:51-67 | each bracket kind's close code is the partner of its open code; the close code is `}` exactly for a brace or a template brace |
| Utils.KeywordLengths | src/utils.rs:38-42 | `require`, `exports` and `module` have 7, 7 and 6 bytes and start with `r`, `e`, `m` |
| Utf8.Encode | cjs_module_lexer/src/parser.rs:192-194 | a character's encoding is 1 to 4 bytes, and 1 byte exactly for ASCII |
| Utf8.DecodeAt | cjs_module_lexer/src/parser.rs:87-93 | a decoded character occupies 1 to 4 bytes, all inside the source |
| Utf8.DecodeEncode | cjs_module_lexer/src/parser.rs:87-93 | decoding the encoding of any character gives it back with its length, whatever bytes follow |
| Utf8.EncodeDecode | cjs_module_lexer/src/parser.rs:87-93 | whatever the decoder accepts is exactly the encoding of the character it returns |
| Keywords.FirstAccepted | cjs_module_lexer/src/parser.rs:698-718 | a length is returned exactly when some keyword of the list is accepted at the start of the input, and it is the length of an accepted keyword |
| Keywords.MatchKeyword | cjs_module_lexer/src/parser.rs:698-718 | an expression keyword is reported exactly when one is accepted, with its length; a parenthesis keyword exactly when none of those but `if`/`while`/`for` is accepted |
| Keywords.KeywordsAreLowerWords | cjs_module_lexer/src/parser.rs:698-700 | every keyword is a lower-case word of at least two letters |
| Keywords.AcceptedWordIsUnique | cjs_module_lexer/src/parser.rs:698-718 | two keywords accepted at the same place are the same keyword: the matcher is never ambiguous |
| Keywords.MatchLength | cjs_module_lexer/src/parser.rs:702-711 | a match skips at least two bytes and never past the end of the input |
| Keywords.MatchCase | cjs_module_lexer/tests/match_express_keyword.rs:7-8 | `case` alone is an expression keyword of 4 bytes |
| Keywords.ExpressionKeywordsAlone | cjs_module_lexer/tests/match_express_keyword.rs:19-50 | every expression keyword standing alone (`delete`, `do`, `in`, `instanceof`, …) is matched as itself |
| Keywords.ExpressionKeywordBeforeBoundary | cjs_module_lexer/tests/match_express_keyword.rs:13-14 | an expression keyword followed by a boundary byte is matched as that keyword, whatever follows |
| Keywords.FirstByteDiffers | cjs_module_lexer/src/parser.rs:698-718 | a keyword whose first byte differs from the input's is not accepted |
| Keywords.FollowedByLetter | cjs_module_lexer/tests/match_express_keyword.rs:10-11 | a keyword followed by a letter is not accepted |
| Keywords.MatchCaseButNotKeyword | cjs_module_lexer/tests/match_express_keyword.rs:10-11 | `caseButNotKeyword` matches no keyword |
| Keywords.MatchCaseDotBut | cjs_module_lexer/tests/match_express_keyword.rs:16-17 | `case.but not keyword` matches no keyword (`.` is no boundary) |
| Keywords.MatchTooShort | cjs_module_lexer/tests/match_express_keyword.rs:40-41 | `th`, a prefix of `throw`, matches no keyword |
| Scanners.LineCommentEnd | cjs_module_lexer/src/parser.rs:95-102 | a line comment ends inside the source, past at least one byte when there is one |
| Scanners.BlockCommentBodyEnd | cjs_module_lexer/src/parser.rs:104-117 | a block comment's end lies between its start and the end of the source |
| Scanners.CommentWhitespaceEnd | cjs_module_lexer/src/parser.rs:119-131 | skipping whitespace and comments never moves back or past the end |
| Scanners.IdentifierRestEnd | cjs_module_lexer/src/parser.rs:145-157 | the identifier loop stops at or after its start and inside the source |
| Scanners.IdentifierEnd | cjs_module_lexer/src/parser.rs:133-160 | an identifier, when there is one, is non-empty and inside the source |
| Scanners.HexDigitValue | cjs_module_lexer/src/parser.rs:192 | a hex digit's value is below 16 |
| Scanners.HexRunEnd | cjs_module_lexer/src/parser.rs:199-212 | every byte the hex-digits loop passes over is a hex digit |
| Scanners.FixedHexEnd | cjs_module_lexer/src/parser.rs:180-187 | the four-digit reader passes over at most four bytes, all hex digits |
| Scanners.UnicodeEscape | cjs_module_lexer/src/parser.rs:163-197 | `\u` never moves back or past the end; a successful `\u{…}` spans its hex digits and the `}`, a successful `\uXXXX` exactly four hex digits, and either yields the UTF-8 encoding of the scalar value the digits spell; a diagnostic comes only with failure |
| Scanners.StringEscape | cjs_module_lexer/src/parser.rs:239-327 | an escape sequence stays inside the source, and a successful one spans at least two bytes |
| Scanners.StringBody | cjs_module_lexer/src/parser.rs:336-373 | the string loop stays inside the source and only appends diagnostics |
| Scanners.StringLiteral | cjs_module_lexer/src/parser.rs:329-374 | a literal stays inside the source and moves past its opening quote |
| Scanners.NumberRunEnd | cjs_module_lexer/src/parser.rs:382-393 | the number loop passes over number bytes only, and stops at the end of the source or at the first byte that is not one |
| Scanners.NumberLiteral | cjs_module_lexer/src/parser.rs:376-395 | a number starts with a digit or `.` and yields exactly the bytes of the maximal run of number bytes before a byte of another kind; it fails at its start, or at the end of the source when the run reaches it; no diagnostic either way |
| Scanners.RegexBody | cjs_module_lexer/src/parser.rs:573-615 | the regular-expression loop stays inside the source |
| ScannerFacts.EscapeByte | cjs_module_lexer/src/parser.rs:239-327 | each byte of a text is written as one or two bytes inside a literal |
| ScannerFacts.EscapeText | cjs_module_lexer/src/parser.rs:239-327 | an escaped text is at least as long as the text |
| ScannerFacts.StringBodyOfEscapedByte | cjs_module_lexer/src/parser.rs:239-327 | the string loop reads one escaped byte back as that byte and moves past its spelling |
| ScannerFacts.StringBodyOfEscaped | cjs_module_lexer/src/parser.rs:336-373 | the string loop reads a whole escaped text back as the text, with no diagnostic |
| ScannerFacts.LiteralAfterText | cjs_module_lexer/src/parser.rs:329-374 | after the opening quote and an escaped text, the loop stands after the text with the text decoded |
| ScannerFacts.StringBodyAtQuote | cjs_module_lexer/src/parser.rs:344-348 | at the closing quote the literal yields the text gathered so far and moves past the quote |
| ScannerFacts.StringBodyAtEndOrBr | cjs_module_lexer/src/parser.rs:350-352 | at the end of the source or at an unescaped line break the literal fails there |
| ScannerFacts.StringBodyAtBackslash | cjs_module_lexer/src/parser.rs:354-362 | at a backslash the loop defers to the escape sequence scanned there |
| ScannerFacts.StringLiteralRoundTrip | cjs_module_lexer/src/parser.rs:329-374 | round trip: a literal written with EscapeText and closed by its quote decodes to the text, in both versions, with the cursor just past the quote |
| ScannerFacts.StringLiteralUnterminated | cjs_module_lexer/src/parser.rs:350-352 | a line break or the end of the source before the closing quote makes the literal fail, with no diagnostic |
| ScannerFacts.NulEscapeBeforeDigit | cjs_module_lexer/src/parser.rs:289-301 | `\0` then a decimal digit: one UnexpectedEscapeCharacter at the `0`, and failure |
| ScannerFacts.NulBeforeDigitFails | cjs_module_lexer/src/parser.rs:289-301 | a literal reaching `\0` then a digit records that one diagnostic and fails there, in both versions |
| ScannerFacts.NulEscapeWithoutDigit | cjs_module_lexer/src/parser.rs:302-316 | `\0` not followed by a digit: one diagnostic; the current version yields `\` and NUL, the earlier one fails |
| ScannerFacts.NulWithoutDigit | cjs_module_lexer/src/parser.rs:302-316 | a literal reaching `\0` not followed by a digit: the current version decodes on, with one diagnostic; the earlier one fails with one diagnostic |
| ScannerFacts.HexValueOfSpelling | cjs_module_lexer/src/parser.rs:190-191 | reading a value's shortest hex spelling gives the value back |
| ScannerFacts.HexValueOfHex4 | cjs_module_lexer/src/parser.rs:190-191 | reading a value's four-digit hex spelling gives the value back |
| ScannerFacts.HexRunEndOfRun | cjs_module_lexer/src/parser.rs:199-212 | the hex-digits loop stops exactly at the end of a run of hex digits |
| ScannerFacts.NumberRunEndOfRun | cjs_module_lexer/src/parser.rs:382-393 | the number loop stops exactly at the end of a run of number bytes |
| ScannerFacts.FixedHexEndAt | cjs_module_lexer/src/parser.rs:180-187 | the four-digit reader stops exactly at the first byte that is not a hex digit |
| ScannerFacts.UnicodeEscapeFourDigits | cjs_module_lexer/src/parser.rs:179-194 | `\u` and any four hex digits, of either case, spelling a scalar value yield its UTF-8 encoding and end after the digits |
| ScannerFacts.UnicodeEscapeBraced | cjs_module_lexer/src/parser.rs:167-178 | `\u{` any non-empty run of hex digits (either case, leading zeros allowed) `}` spelling a scalar value yields its UTF-8 encoding and ends after the `}` |
| ScannerFacts.UnicodeEscapeHex4 | cjs_module_lexer/src/parser.rs:179-194 | round trip: the four-digit hex spelling of any scalar value below 0x10000 reads back as that value's encoding |
| ScannerFacts.UnicodeEscapeBadDigit | cjs_module_lexer/src/parser.rs:214-236 | a non-hex byte among the four digits: one UnexpectedUnicodeEscapeSequence at that byte, and failure |
| ScannerFacts.UnicodeEscapeMissingBrace | cjs_module_lexer/src/parser.rs:172-175 | `\u{` and digits without `}`: failure with no diagnostic |
| ScannerFacts.CommentWhitespaceEndStops | cjs_module_lexer/src/parser.rs:119-131 | skipping stops at the end or at a byte that is neither whitespace nor a comment start |
| ScannerFacts.CommentWhitespaceEndOverRun | cjs_module_lexer/src/parser.rs:119-131 | a run of whitespace before a byte that is neither whitespace nor `/` is skipped whole |
| ScannerFacts.CommentWhitespaceEndIdempotent | cjs_module_lexer/src/parser.rs:119-131 | skipping twice skips no further than skipping once |
| ScannerFacts.RegexBodyPlain | cjs_module_lexer/src/parser.rs:573-615 | over plain bytes the body runs to just past the first `/` (terminated) or line break (unterminated) |
| ScannerFacts.RegexSlashInClassOrEscaped | cjs_module_lexer/src/parser.rs:573-615 | inside `[…]`, or after a backslash, a `/` does not end the body |
| ScannerFacts.IdentifierRestExtends | cjs_module_lexer/src/parser.rs:145-157 | one more identifier character leaves the identifier's end unchanged and extends its text by that character's encoding |
| ScannerFacts.IdentifierRestStops | cjs_module_lexer/src/parser.rs:145-157 | the identifier ends at a byte that does not decode or at a character that cannot continue it |
| LexerSpec.Absorb | cjs_module_lexer/src/parser.rs:163-374 | after a sub-scanner the cursor is where the scanner stopped |
| LexerSpec.CommentWhitespace | cjs_module_lexer/src/parser.rs:119-131 | skipping never moves the cursor back (its stopping point: ScannerFacts.CommentWhitespaceEndStops, CommentWhitespaceEndOverRun, CommentWhitespaceEndIdempotent; LexerFacts.CommentWhitespaceAtSolid; it records nothing: LexerProgress.CommentWhitespaceKeeps) |
| LexerSpec.Identifier | cjs_module_lexer/src/parser.rs:133-160 | the cursor never moves back, and it moves forward when an identifier is read (what it reads: LexerFacts.IdentifierReadsName, IdentifierAtNonStart; it records nothing: LexerProgress.ScannersKeepResult) |
| LexerSpec.StringLiteral | cjs_module_lexer/src/parser.rs:329-374 | the cursor never moves back, and moves forward at a quote (what it reads: LexerFacts.StringLiteralQuoted, ScannerFacts.StringLiteralRoundTrip, StringLiteralUnterminated; LexerProgress.StringLiteralGrows) |
| LexerSpec.NumberLiteral | cjs_module_lexer/src/parser.rs:376-395 | a number read is the source bytes the cursor passed, the byte after it is no number byte, and the flag is cleared; on failure only the cursor moves, to the end of the source or not at all |
| LexerSpec.TryParseRequire | cjs_module_lexer/src/parser.rs:531-557 | at `require` the cursor moves past the word at least (what a call records: LexerFacts.RequireRecordsImport, RequireWithoutCloseStillImports; LexerProgress.TryParseRequireGrows) |
| LexerSpec.RequireCall | cjs_module_lexer/src/parser.rs:535-555 | the cursor never moves back (the `(` and literal path: LexerFacts.RequireReachesClose, RequireRecordsImport) |
| LexerSpec.RequireArgument | cjs_module_lexer/src/parser.rs:540-555 | the cursor never moves back (the literal path: LexerFacts.RequireReachesClose, RequireWithoutCloseStillImports) |
| LexerSpec.RequireClose | cjs_module_lexer/src/parser.rs:545-555 | the cursor never moves back (with and without `)`: LexerFacts.RequireRecordsImport, RequireWithoutCloseStillImports) |
| LexerSpec.LiteralValue | cjs_module_lexer/src/parser.rs:418-421 | the cursor never moves back (what each value arm accepts: LexerFacts.LiteralValueReads) |
| LexerSpec.LiteralProperty | cjs_module_lexer/src/parser.rs:408-428 | a property either moves forward or aborts with the cursor exactly at the revert offset (the accepted property and the abort: LexerFacts.LiteralPropertyReads, LiteralPropertyBadValue; LexerProgress.LiteralPropertyGrows) |
| LexerSpec.PropertyAfterName | cjs_module_lexer/src/parser.rs:411-427 | a property either moves forward or aborts with the cursor exactly at the revert offset (the accepted `name: value` path: LexerFacts.LiteralPropertyReads) |
| LexerSpec.LiteralExportsLoop | cjs_module_lexer/src/parser.rs:407-442 | the loop moves forward or ends at the revert offset (what the loop exports: LexerFacts.LiteralListStep, LiteralListReads, LiteralExportsCloses, LiteralExportsBadValue; LexerProgress.LiteralExportsLoopGrows) |
| LexerSpec.TryParseLiteralExports | cjs_module_lexer/src/parser.rs:397-443 | the cursor ends no earlier than one byte before the `{` (the whole literal and the revert: LexerFacts.LiteralExportsRead, LiteralExportsRevertKeepsNames; LexerProgress.TryParseLiteralExportsExtends) |
| LexerSpec.TryParseExportsDotAssign | cjs_module_lexer/src/parser.rs:445-510 | the cursor ends at least on the last byte of `exports` (what each arm exports: LexerFacts.ExportsDotNameRecorded, ExportsDotNameWithoutAssign, ExportsBracketKeyRecorded, ExportsShortcutAssignIgnored; LexerProgress.TryParseExportsDotAssignGrows) |
| LexerSpec.ExportsBracketKey | cjs_module_lexer/src/parser.rs:466-486 | an early return never moves the cursor back (the key it exports: LexerFacts.BracketKeyArm; LexerProgress.ExportsBracketKeyGrows) |
| LexerSpec.ExportsAssign | cjs_module_lexer/src/parser.rs:487-506 | an early return never moves the cursor back (each `=` arm: LexerFacts.ExportsAssignRequire, ExportsAssignLiteral, ExportsShortcutAssignIgnored; LexerProgress.ExportsAssignExtends) |
| LexerSpec.TryParseModuleExportsDotAssign | cjs_module_lexer/src/parser.rs:512-529 | the cursor ends at least on the last byte of `module` (what it hands over and records: LexerFacts.ModuleExportsReachesExports, ModuleExportsRequire, ModuleExportsLiteral; LexerProgress.TryParseModuleExportsDotAssignGrows) |
| LexerSpec.RegexLiteral | cjs_module_lexer/src/parser.rs:573-615 | the cursor never moves back, and moves forward at a `/` (where the body ends: ScannerFacts.RegexBodyPlain, RegexSlashInClassOrEscaped; the unterminated case: LexerProgress.RegexLineBreak) |
| LexerSpec.TemplateBody | cjs_module_lexer/src/parser.rs:633-654 | the cursor never moves back (where the body stops, and what it pushes: the template lemmas of LexerFacts) |
| LexerSpec.TemplateLiteral | cjs_module_lexer/src/parser.rs:618-654 | the cursor moves forward at a backtick or when resuming after `}` (its exact new state: LexerFacts.TemplateLiteralPlain, CloseInterpolationResumes) |
| LexerSpec.PopBracketStack | cjs_module_lexer/src/parser.rs:803-856 | the cursor moves forward at any byte (its new stack, flag and diagnostics: LexerProgress.PopMatchingClose, PopMismatchedClose, PopEmptyStack) |
| LexerSpec.WordOrLiteral | cjs_module_lexer/src/parser.rs:686-726 | each word and literal arm of the dispatch moves the cursor forward (each arm's new state: LexerProgress.StepExpressionKeyword, StepParenthesisKeyword, StepWordNotKeyword; Findings.CurrentStepAtModule; LexerProgress.WordOrLiteralGrows) |
| LexerSpec.Keyword | cjs_module_lexer/src/parser.rs:698-718 | the keyword arm moves the cursor forward (its new flag and pending parenthesis for each match: LexerProgress.StepExpressionKeyword, StepParenthesisKeyword, StepWordNotKeyword) |
| LexerSpec.Punctuation | cjs_module_lexer/src/parser.rs:727-774 | the punctuation arms move the cursor forward (each arm's new state: LexerProgress.StepSlash, PushOpens, PopMatchingClose, StepPunctuator, StepOtherByte; LexerProgress.PunctuationGrows) |
| LexerSpec.CloseBracket | cjs_module_lexer/src/parser.rs:756-762 | the closing-bracket arm moves the cursor forward (the pop and the resumed template: LexerProgress.PopMatchingClose, PopMismatchedClose, PopEmptyStack; LexerFacts.CloseInterpolationResumes; LexerProgress.CloseBracketGrows) |
| LexerSpec.Step | cjs_module_lexer/src/parser.rs:668-775 | each turn of the driver loop moves the cursor forward, so the loop ends (each arm's new state: LexerProgress.StepSlash, StepOpenThenClose, StepExpressionKeyword, StepParenthesisKeyword, StepWordNotKeyword, StepPunctuator, StepOtherByte, IfParenthesisThenRegex; LexerProgress.StepGrows) |
| LexerSpec.Run | cjs_module_lexer/src/parser.rs:668-775 | the driver loop reads to the end of the source (LexerProgress.RunGrows, RunAfterSteps; whole-module results: Findings.CurrentObjectLiteralModuleExports, CurrentReexportImportedOnce) |
| Lexer.Parser.constructor | cjs_module_lexer/src/parser.rs:39-55 | a new parser holds the source and tables, at offset 0, with an empty stack and result, a Plain parenthesis kind, and an expression expected |
| Lexer.Parser.LineComment | cjs_module_lexer/src/parser.rs:95-102 | only the cursor moves, to just past the first line break or to the end |
| Lexer.Parser.BlockComment | cjs_module_lexer/src/parser.rs:104-117 | only the cursor moves, to just past `*/` or to the end |
| Lexer.Parser.CommentWhitespace | cjs_module_lexer/src/parser.rs:119-131 | the new state is LexerSpec.CommentWhitespace of the old one: only the cursor moves, to the first solid byte |
| Lexer.Parser.Identifier | cjs_module_lexer/src/parser.rs:133-160 | new state and result are LexerSpec.Identifier of the old state: the text is exactly the source bytes from the start character through the last identifier character |
| Lexer.Parser.HexDigit | cjs_module_lexer/src/parser.rs:214-236 | a digit is returned exactly when the byte is a hex digit, and the cursor passes it; otherwise, when required and not at the end, one UnexpectedUnicodeEscapeSequence is recorded at that byte and nothing else changes |
| Lexer.Parser.HexDigits | cjs_module_lexer/src/parser.rs:199-212 | the cursor moves to the end of the hex run; a result exactly when the run is non-empty, and it is the run's bytes |
| Lexer.Parser.FourHexDigits | cjs_module_lexer/src/parser.rs:180-187 | the cursor moves to the first non-hex byte within four; success exactly when all four are hex, with those bytes; otherwise one diagnostic at the bad byte |
| Lexer.Parser.UnicodeEscapeSequence | cjs_module_lexer/src/parser.rs:163-197 | new state and result are those of Scanners.UnicodeEscape |
| Lexer.Parser.StringEscapeSequence | cjs_module_lexer/src/parser.rs:239-327 | new state and result are those of Scanners.StringEscape for the current version |
| Lexer.Parser.StringLiteral | cjs_module_lexer/src/parser.rs:329-374 | new state and result are LexerSpec.StringLiteral of the old state (skip mode returns the empty text) |
| Lexer.Parser.NumberLiteral | cjs_module_lexer/src/parser.rs:376-395 | new state and result are LexerSpec.NumberLiteral of the old state |
| Lexer.Parser.LiteralProperty | cjs_module_lexer/src/parser.rs:408-428 | new state and abort flag are LexerSpec.LiteralProperty of the old state |
| Lexer.Parser.TryParseLiteralExports | cjs_module_lexer/src/parser.rs:397-443 | the new state is LexerSpec.TryParseLiteralExports of the old one |
| Lexer.Parser.TryParseExportsDotAssign | cjs_module_lexer/src/parser.rs:445-510 | the new state is LexerSpec.TryParseExportsDotAssign of the old one |
| Lexer.Parser.ExportsDotName | cjs_module_lexer/src/parser.rs:455-465 | the new state is LexerSpec.ExportsDotName of the old one |
| Lexer.Parser.ExportsBracketKey | cjs_module_lexer/src/parser.rs:466-486 | new state and early-return flag are LexerSpec.ExportsBracketKey of the old state |
| Lexer.Parser.ExportsAssign | cjs_module_lexer/src/parser.rs:487-506 | new state and early-return flag are LexerSpec.ExportsAssign of the old state |
| Lexer.Parser.TryParseModuleExportsDotAssign | cjs_module_lexer/src/parser.rs:512-529 | the new state is LexerSpec.TryParseModuleExportsDotAssign of the old one |
| Lexer.Parser.TryParseRequire | cjs_module_lexer/src/parser.rs:531-557 | new state and result are LexerSpec.TryParseRequire of the old state |
| Lexer.Parser.RegexLiteral | cjs_module_lexer/src/parser.rs:573-615 | the new state is LexerSpec.RegexLiteral of the old one |
| Lexer.Parser.TemplateLiteral | cjs_module_lexer/src/parser.rs:618-654 | the new state is LexerSpec.TemplateLiteral of the old one |
| Lexer.Parser.PopBracketStack | cjs_module_lexer/src/parser.rs:803-856 | new state and popped entry are LexerSpec.PopBracketStack of the old state |
| Lexer.Parser.Parse | cjs_module_lexer/src/parser.rs:656-778 | the new state is LexerSpec.Parse of the old one, and the returned result is the parser's result field |
| Lexer.Parser.WordOrLiteral | cjs_module_lexer/src/parser.rs:686-726 | the new state is LexerSpec.WordOrLiteral of the old one |
| Lexer.Parser.Keyword | cjs_module_lexer/src/parser.rs:698-718 | the new state is LexerSpec.Keyword of the old one |
| Lexer.Parser.Punctuation | cjs_module_lexer/src/parser.rs:727-774 | the new state is LexerSpec.Punctuation of the old one |
| LexerFacts.IdentifierRestEndOfWord | cjs_module_lexer/src/parser.rs:145-157 | a run of ASCII word bytes ending at a stop byte or at the end is read whole |
| LexerFacts.IdentifierReadsName | cjs_module_lexer/src/parser.rs:133-160 | an ASCII name before a stop byte is read as itself; the cursor moves past it and the flag is cleared |
| LexerFacts.IdentifierAtNonStart | cjs_module_lexer/src/parser.rs:133-143 | an ASCII byte other than `\` that cannot start a word starts no identifier, and the state is unchanged |
| LexerFacts.CommentWhitespaceAtSolid | cjs_module_lexer/src/parser.rs:119-131 | skipping in front of a solid byte changes nothing |
| LexerFacts.WordStartIsSolid | cjs_module_lexer/src/parser.rs:119-131 | identifier starts and quotes stop the skipping |
| LexerFacts.StringLiteralQuoted | cjs_module_lexer/src/parser.rs:329-374 | a quoted escaped text is read back as the text (the empty text in skip mode), the cursor past the closing quote, the flag cleared, no diagnostic |
| LexerFacts.NumberLiteralReads | cjs_module_lexer/src/parser.rs:376-395 | a number-shaped literal before a byte of another kind is read whole as its bytes; the cursor moves past it and the flag is cleared |
| LexerFacts.NumberLiteralAtEnd | cjs_module_lexer/src/parser.rs:382-394 | a number-shaped run that reaches the end of the source is not read: the cursor is left at the end and the flag kept |
| LexerFacts.RequireRecordsImport | cjs_module_lexer/src/parser.rs:531-557 | `require ( 'x' )` with any whitespace and comments between the tokens: x is appended to the imports and returned, the cursor is past the `)`, and the flag is cleared |
| LexerFacts.RequireReachesClose | cjs_module_lexer/src/parser.rs:531-545 | `require (` and a literal bring the detector to the `)` check, with the import already recorded |
| LexerFacts.RequireWithoutCloseStillImports | cjs_module_lexer/src/parser.rs:540-555 | when the first solid byte after the literal is not `)`, nothing is returned, yet the import stays recorded |
| LexerFacts.ExportsDotNameRecorded | cjs_module_lexer/src/parser.rs:445-465 | `exports . NAME =` with any whitespace and comments between the tokens: NAME is appended to the exports and the cursor is put back on the last byte of `exports` |
| LexerFacts.DotNameArm | cjs_module_lexer/src/parser.rs:455-465 | the `.` arm reads NAME and exports it exactly when the next solid byte is `=`, leaving the cursor on that byte |
| LexerFacts.ExportsDotNameWithoutAssign | cjs_module_lexer/src/parser.rs:455-465 | `exports.NAME` not followed by `=` exports nothing; the cursor goes back to the last byte of `exports` |
| LexerFacts.ExportsBracketKeyRecorded | cjs_module_lexer/src/parser.rs:445-486 | `exports [ 'KEY' ] =` with any whitespace and comments between the tokens: the decoded KEY is appended and the detector returns with the cursor on the `=` |
| LexerFacts.BracketKeyArm | cjs_module_lexer/src/parser.rs:466-486 | the `[` arm alone exports the decoded key and asks for an early return, the cursor on the `=` |
| LexerFacts.ExportsShortcutAssignIgnored | cjs_module_lexer/src/parser.rs:487-506 | `exports =` alone exports nothing; only the cursor moves back to the last byte of `exports` |
| LexerFacts.LiteralValueReads | cjs_module_lexer/src/parser.rs:418-421 | a value that is an ASCII identifier, a quoted literal or a number-shaped literal is accepted and read whole, the flag cleared, nothing recorded |
| LexerFacts.LiteralPropertyReads | cjs_module_lexer/src/parser.rs:408-428 | a property, shorthand or `name : value` with any gaps, appends its name and stops where it ends |
| LexerFacts.LiteralListStep | cjs_module_lexer/src/parser.rs:407-434 | a property and its comma: the name is exported and the loop goes on after the comma |
| LexerFacts.LiteralListReads | cjs_module_lexer/src/parser.rs:407-434 | a list of properties, each followed by a comma: every name is exported in order and the loop goes on past the last comma |
| LexerFacts.LiteralExportsCloses | cjs_module_lexer/src/parser.rs:430-438 | an optional last property without a comma, then `}`: its name is exported, the cursor is past the `}`, the flag is cleared |
| LexerFacts.LiteralExportsRead | cjs_module_lexer/src/parser.rs:397-443 | `{ … }` of shorthand and valued properties, with or without a trailing comma, with any whitespace and comments between the tokens: every name exported in order, the cursor past the `}`, the flag cleared |
| LexerFacts.LiteralPropertyBadValue | cjs_module_lexer/src/parser.rs:413-425 | a value of an unrecognised shape puts the cursor back to the revert offset and aborts |
| LexerFacts.LiteralValueRejects | cjs_module_lexer/src/parser.rs:418-421 | a value that starts with a stop byte other than a quote or `.` is none of identifier, string or number: nothing is read and the value is not recognised |
| LexerFacts.LiteralExportsBadValue | cjs_module_lexer/src/parser.rs:407-425 | inside the loop such a value ends the scan with the cursor at the revert offset |
| LexerFacts.LiteralExportsRevertKeepsNames | cjs_module_lexer/src/parser.rs:397-443 | a bad value after some properties reverts the cursor, yet the names read before it stay exported |
| LexerFacts.ShorthandList | cjs_module_lexer/src/parser.rs:407-442 | a written shorthand list `a,b,…,` is at least as long as its list of names |
| LexerFacts.ShorthandListIsList | cjs_module_lexer/src/parser.rs:407-442 | `a,b,…,` written without gaps is a property list whose names are exactly the given names |
| LexerFacts.ModuleExportsReachesExports | cjs_module_lexer/src/parser.rs:512-529 | `module . exports` with any whitespace and comments between the tokens hands over to the exports detector in its `module.` mode |
| LexerFacts.ExportsAssignRequire | cjs_module_lexer/src/parser.rs:487-506 | after `module.`: `exports = require ( 'x' )` with any whitespace and comments between the tokens makes x the only re-export, records it as an import, and leaves the cursor past `)` |
| LexerFacts.ModuleExportsRequire | cjs_module_lexer/src/parser.rs:512-529 | the same from the start of `module`, with any gaps |
| LexerFacts.ExportsAssignLiteral | cjs_module_lexer/src/parser.rs:492-496 | after `module.`: `exports = { … }` exports every name of the literal in order and leaves the cursor past the `}` |
| LexerFacts.ModuleExportsLiteral | cjs_module_lexer/src/parser.rs:512-529 | `module.exports = { … }`, with any gaps, exports every name of the literal in order and leaves the cursor past the `}` |
| LexerFacts.TemplateBodyToBacktick | cjs_module_lexer/src/parser.rs:635-641 | template text up to a backtick: the body stops past the backtick with the flag cleared, escapes skipped two bytes at a time |
| LexerFacts.TemplateBodyToInterpolation | cjs_module_lexer/src/parser.rs:645-650 | template text up to `${`: the body stops past the `{`, pushes TemplateBrace and expects an expression |
| LexerFacts.TemplateBodyUnterminated | cjs_module_lexer/src/parser.rs:635-653 | template text to the end of the source: only the cursor moves, to the end |
| LexerFacts.TemplateLiteralPlain | cjs_module_lexer/src/parser.rs:618-654 | a whole template without interpolation: the cursor past its closing backtick, the flag cleared, the stack unchanged |
| LexerFacts.CloseInterpolationResumes | cjs_module_lexer/src/parser.rs:756-761 | the `}` closing an interpolation pops its TemplateBrace and resumes the template to its closing backtick (the byte after the `}` is skipped unread unless it is that backtick) |
| LexerProgress.PopMatchingClose | cjs_module_lexer/src/parser.rs:803-834 | a matching close pops exactly the top entry and records nothing; an expression is then expected exactly after an `if`/`while`/`for` parenthesis |
| LexerProgress.PopMismatchedClose | cjs_module_lexer/src/parser.rs:806-820 | a mismatched close still pops the top entry and records IncorrectClosingBracket |
| LexerProgress.PopEmptyStack | cjs_module_lexer/src/parser.rs:835-845 | a close on an empty stack records UnexpectedBracket and moves two bytes on |
| LexerProgress.PushOpens | cjs_module_lexer/src/parser.rs:738-755 | an opener pushes one entry whose close code matches it; `(` takes the pending parenthesis kind and resets it; an expression is expected |
| LexerProgress.StepOpenThenClose | cjs_module_lexer/src/parser.rs:738-762 | an opener then its closer leaves the stack and result unchanged |
| LexerProgress.StepSlash | cjs_module_lexer/src/parser.rs:727-737 | at `/`: a comment is skipped; else a regex is scanned when an expression is expected; else a division, after which an expression is expected |
| LexerProgress.RegexLineBreak | cjs_module_lexer/src/parser.rs:573-615 | a line break inside a regex records UnterminatedRegExp at the opening `/` |
| LexerProgress.KeywordPrefixes | cjs_module_lexer/src/parser.rs:686-700 | every keyword of either list starts with a byte of the keyword arm and is told apart from `exports` and `require` by its first three bytes |
| LexerProgress.KeywordListsDisjoint | cjs_module_lexer/src/parser.rs:702-714 | no word is both an expression keyword and one of `if`, `while`, `for` |
| LexerProgress.KeywordIsNotExportsOrRequire | cjs_module_lexer/src/parser.rs:686-700 | where a keyword is accepted, neither `exports` nor `require` starts, so the arms before the keyword arm do not take it |
| LexerProgress.MatchParenthesisKeyword | cjs_module_lexer/src/parser.rs:702-714 | `if`, `while` or `for` before a boundary byte is matched as a parenthesis keyword of its own length |
| LexerProgress.StepExpressionKeyword | cjs_module_lexer/src/parser.rs:698-708 | at a keyword start, an expression keyword before a boundary byte: the cursor passes it and an expression is expected; nothing else changes |
| LexerProgress.StepParenthesisKeyword | cjs_module_lexer/src/parser.rs:698-714 | at a keyword start, `if`, `while` or `for` before a boundary byte: the cursor passes it, the next `(` is marked as a keyword parenthesis, and no expression is expected |
| LexerProgress.StepWordNotKeyword | cjs_module_lexer/src/parser.rs:698-718 | a word at a keyword start that is neither `exports`, `require` nor a keyword: one byte on, and no expression is expected |
| LexerProgress.StepPunctuator | cjs_module_lexer/src/parser.rs:763-768 | a punctuator other than `/` and the brackets: one byte on; an expression is expected afterwards unless the byte is `.`, which keeps the flag |
| LexerProgress.StepOtherByte | cjs_module_lexer/src/parser.rs:769-773 | a byte no other arm claims: one byte on, and no expression is expected |
| LexerProgress.RunAfterSteps | cjs_module_lexer/src/parser.rs:668-775 | taking some turns of the loop first does not change where the run ends |
| LexerProgress.ParenthesisAroundByte | cjs_module_lexer/src/parser.rs:738-762 | `(`, a plain byte, `)`: stack and lists as before, the pending kind reset, and an expression expected exactly when a keyword was pending for the `(` |
| LexerProgress.IfParenthesisThenRegex | cjs_module_lexer/src/parser.rs:698-762 | `if (x) /…`: after five turns the cursor is on the `/` with an expression expected, stack and lists as before, and the next turn scans a regular expression |
| LexerProgress.PlainParenthesisThenDivision | cjs_module_lexer/src/parser.rs:727-762 | `(x) /…` with no keyword pending: after three turns no expression is expected, and the `/` is a division |
| LexerProgress.CommentWhitespaceKeeps | cjs_module_lexer/src/parser.rs:119-131 | skipping records nothing |
| LexerProgress.ScannersKeepResult | cjs_module_lexer/src/parser.rs:133-160 | reading an identifier or a number records nothing |
| LexerProgress.StringLiteralGrows | cjs_module_lexer/src/parser.rs:329-374 | a string literal only appends diagnostics |
| LexerProgress.TryParseRequireGrows | cjs_module_lexer/src/parser.rs:531-557 | the require detector only appends to the lists |
| LexerProgress.LiteralValueGrows | cjs_module_lexer/src/parser.rs:418-421 | reading a property value only appends to the lists |
| LexerProgress.LiteralPropertyGrows | cjs_module_lexer/src/parser.rs:408-428 | a property only appends to the lists, moving forward or reverting |
| LexerProgress.LiteralExportsLoopGrows | cjs_module_lexer/src/parser.rs:407-442 | the object-literal loop only appends, moving forward or reverting |
| LexerProgress.TryParseLiteralExportsExtends | cjs_module_lexer/src/parser.rs:397-443 | the object-literal detector only appends to the lists |
| LexerProgress.ExportsAssignExtends | cjs_module_lexer/src/parser.rs:487-506 | the `=` arm only appends (re-exports may be replaced) |
| LexerProgress.ExportsDotNameGrows | cjs_module_lexer/src/parser.rs:455-465 | the `.` arm only appends |
| LexerProgress.ExportsBracketKeyGrows | cjs_module_lexer/src/parser.rs:466-486 | the `[` arm only appends |
| LexerProgress.TryParseExportsDotAssignGrows | cjs_module_lexer/src/parser.rs:445-510 | the exports detector only appends and moves forward |
| LexerProgress.TryParseModuleExportsDotAssignGrows | cjs_module_lexer/src/parser.rs:512-529 | the module detector only appends and moves forward |
| LexerProgress.TemplateBodyGrows | cjs_module_lexer/src/parser.rs:618-654 | a template body only appends |
| LexerProgress.TemplateLiteralGrows | cjs_module_lexer/src/parser.rs:618-654 | a template literal only appends |
| LexerProgress.CloseBracketGrows | cjs_module_lexer/src/parser.rs:756-762 | a closing byte only appends |
| LexerProgress.WordOrLiteralGrows | cjs_module_lexer/src/parser.rs:686-726 | the word and literal arms only append |
| LexerProgress.PunctuationGrows | cjs_module_lexer/src/parser.rs:727-774 | the punctuation arms only append |
| LexerProgress.StepGrows | cjs_module_lexer/src/parser.rs:668-775 | one turn of the loop moves forward and only appends |
| LexerProgress.RunGrows | cjs_module_lexer/src/parser.rs:668-775 | the whole loop only appends |
| LexerProgress.ParseGrows | cjs_module_lexer/src/parser.rs:656-778 | `parse` only appends to the imports, exports and diagnostics it starts from (the re-export may be replaced) and reads the source to its end |
| LegacySpec.Absorb | src/parser.rs:152-352 | after a sub-scanner the cursor is where the scanner stopped |
| LegacySpec.CommentWhitespace | src/parser.rs:109-121 | skipping never moves the cursor back (its stopping point: LegacyFacts.CommentWhitespaceAtSolid) |
| LegacySpec.Identifier | src/parser.rs:123-149 | the cursor never moves back (what it reads: LegacyFacts.IdentifierReadsName, IdentifierAtNonStart) |
| LegacySpec.StringLiteral | src/parser.rs:319-352 | the cursor never moves back, and moves forward at a quote (what it reads: LegacyFacts.StringLiteralQuoted, NulEscapeAlwaysFails) |
| LegacySpec.NumberLiteral | src/parser.rs:354-370 | a number read is the source bytes the cursor passed and the byte after it is no number byte; on failure only the cursor moves, to the end of the source or not at all |
| LegacySpec.TryParseRequire | src/parser.rs:503-528 | at `require` the cursor moves past the word at least (what a call records: LegacyFacts.RequireRecordsImport, RequireWithoutCloseStillImports) |
| LegacySpec.RequireCall | src/parser.rs:507-524 | the cursor never moves back (the `(` and literal path: LegacyFacts.RequireReachesClose, RequireRecordsImport) |
| LegacySpec.RequireArgument | src/parser.rs:512-523 | the cursor never moves back (the literal path: LegacyFacts.RequireReachesClose, RequireWithoutCloseStillImports) |
| LegacySpec.RequireClose | src/parser.rs:515-523 | the cursor never moves back (with and without `)`: LegacyFacts.RequireRecordsImport, RequireWithoutCloseStillImports) |
| LegacySpec.LiteralValue | src/parser.rs:394-396 | the cursor never moves back (what each value arm accepts: LegacyFacts.LiteralValueReads) |
| LegacySpec.LiteralProperty | src/parser.rs:384-404 | a property moves forward or aborts exactly at the revert offset (the accepted property and the abort: LegacyFacts.LiteralPropertyReads, LiteralPropertyBadValue) |
| LegacySpec.PropertyAfterName | src/parser.rs:387-403 | a property moves forward or aborts exactly at the revert offset (the accepted `name: value` path: LegacyFacts.LiteralPropertyReads) |
| LegacySpec.LiteralExportsLoop | src/parser.rs:382-416 | the loop moves forward or ends at the revert offset (what the loop exports: LegacyFacts.LiteralListStep, LiteralListReads, LiteralExportsStopsAtBrace, LiteralExportsBadValue) |
| LegacySpec.TryParseLiteralExports | src/parser.rs:372-417 | the cursor ends no earlier than one byte before the `{` (the whole literal and the revert: LegacyFacts.LiteralExportsRead, LiteralExportsRevertKeepsNames; Findings.LegacyObjectLiteralPanics) |
| LegacySpec.TryParseExportsDotAssign | src/parser.rs:419-482 | the cursor ends at least on the last byte of `exports` (what each arm exports: LegacyFacts.ExportsDotNameRecorded, ExportsDotNameWithoutAssign, ExportsBracketKeyConsumesAssign, ExportsShortcutAssignIgnored) |
| LegacySpec.ExportsBracketKey | src/parser.rs:439-460 | an early return moves the cursor forward (the key it exports: LegacyFacts.BracketKeyArm) |
| LegacySpec.ExportsAssign | src/parser.rs:461-478 | an early return never moves the cursor back (each `=` arm: LegacyFacts.ExportsAssignRequireReverts, ExportsAssignLiteral, ExportsShortcutAssignIgnored) |
| LegacySpec.TryParseModuleExportsDotAssign | src/parser.rs:484-501 | the cursor ends at least on the last byte of `module` (what it hands over and records: LegacyFacts.ModuleExportsReachesExports, ModuleExportsDotNameRecorded, ModuleExportsRequireReverts, ModuleExportsLiteralLeavesBrace) |
| LegacySpec.RegexLiteral | src/parser.rs:531-569 | the cursor never moves back; the earlier driver never calls `regex_literal` (LegacyFacts.StepSlashSkipped), so it is dead code there |
| LegacySpec.PopBracketStack | src/parser.rs:665-713 | when it does not panic the cursor never moves back, and moves forward on a match (the match and the panic: LegacyFacts.StepCloseMatched, StepCloseUnmatchedPanics) |
| LegacySpec.Dispatch | src/parser.rs:601-640 | the dispatch moves the cursor forward unless it panics (each arm: LegacyFacts.StepAtExports, StepAtModule, StepAtRequire, StepSlashSkipped, StepOpenThenClose, StepCloseMatched, StepCloseUnmatchedPanics) |
| LegacySpec.Step | src/parser.rs:583-640 | each turn of the loop moves the cursor forward unless it panics (each arm: LegacyFacts.StepAtExports, StepAtModule, StepAtRequire, StepSlashSkipped, StepOpenThenClose, StepCloseMatched, StepCloseUnmatchedPanics) |
| LegacySpec.Run | src/parser.rs:583-643 | a loop that does not panic reads to the end of the source (LegacyFacts.RunThroughStep, RunSkipsInert, RunAtEnd, RunPanicsAt; whole-module results: Findings.LegacyReexportImportedTwice, LegacyObjectLiteralModulePanics) |
| Legacy.Parser.constructor | src/parser.rs:37-51 | a new parser holds the source and tables, at offset 0, with an empty stack and result |
| Legacy.Parser.LineComment | src/parser.rs:85-92 | only the cursor moves, to just past the first line break or to the end |
| Legacy.Parser.BlockComment | src/parser.rs:94-107 | only the cursor moves, to just past `*/` or to the end |
| Legacy.Parser.CommentWhitespace | src/parser.rs:109-121 | the new state is LegacySpec.CommentWhitespace of the old one |
| Legacy.Parser.Identifier | src/parser.rs:123-149 | new state and result are LegacySpec.Identifier of the old state: the text is exactly the identifier's bytes |
| Legacy.Parser.HexDigit | src/parser.rs:204-226 | a digit is returned exactly when the byte is a hex digit, and the cursor passes it; otherwise, when required and not at the end, one diagnostic at that byte and nothing else changes |
| Legacy.Parser.HexDigits | src/parser.rs:188-202 | the cursor moves to the end of the hex run; a result exactly when it is non-empty, with its bytes |
| Legacy.Parser.FourHexDigits | src/parser.rs:169-176 | the four-digit reader as in the current version |
| Legacy.Parser.UnicodeEscapeSequence | src/parser.rs:152-186 | new state and result are those of Scanners.UnicodeEscape |
| Legacy.Parser.StringEscapeSequence | src/parser.rs:229-317 | new state and result are those of Scanners.StringEscape for the earlier version |
| Legacy.Parser.StringLiteral | src/parser.rs:319-352 | new state and result are LegacySpec.StringLiteral of the old state |
| Legacy.Parser.NumberLiteral | src/parser.rs:354-370 | new state and result are LegacySpec.NumberLiteral of the old state |
| Legacy.Parser.LiteralProperty | src/parser.rs:384-404 | new state and abort flag are LegacySpec.LiteralProperty of the old state |
| Legacy.Parser.TryParseLiteralExports | src/parser.rs:372-417 | the new state is LegacySpec.TryParseLiteralExports of the old one |
| Legacy.Parser.TryParseExportsDotAssign | src/parser.rs:419-482 | the new state is LegacySpec.TryParseExportsDotAssign of the old one |
| Legacy.Parser.ExportsDotName | src/parser.rs:428-438 | the new state is LegacySpec.ExportsDotName of the old one |
| Legacy.Parser.ExportsBracketKey | src/parser.rs:439-460 | new state and early-return flag are LegacySpec.ExportsBracketKey of the old state |
| Legacy.Parser.ExportsAssign | src/parser.rs:461-478 | new state and early-return flag are LegacySpec.ExportsAssign of the old state |
| Legacy.Parser.TryParseModuleExportsDotAssign | src/parser.rs:484-501 | the new state is LegacySpec.TryParseModuleExportsDotAssign of the old one |
| Legacy.Parser.TryParseRequire | src/parser.rs:503-528 | new state and result are LegacySpec.TryParseRequire of the old state |
| Legacy.Parser.RegexLiteral | src/parser.rs:531-569 | the new state is LegacySpec.RegexLiteral of the old one (dead code in this version: the driver never calls it) |
| Legacy.Parser.PopBracketStack | src/parser.rs:665-713 | new state and outcome are LegacySpec.PopBracketStack of the old state (None: panicked) |
| Legacy.Parser.Parse | src/parser.rs:571-646 | the result is None exactly when LegacySpec.Parse panics; otherwise the new state is that of LegacySpec.Parse and the result is its result field |
| Legacy.Parser.Dispatch | src/parser.rs:601-640 | false exactly when LegacySpec.Dispatch panics; otherwise the new state is its state |
| LegacyFacts.IdentifierReadsName | src/parser.rs:123-149 | an ASCII name before a stop byte is read as itself and the cursor moves past it |
| LegacyFacts.IdentifierAtNonStart | src/parser.rs:123-133 | an ASCII byte other than `\` that cannot start a word starts no identifier, and the state is unchanged |
| LegacyFacts.CommentWhitespaceAtSolid | src/parser.rs:109-121 | skipping in front of a solid byte changes nothing |
| LegacyFacts.StringLiteralQuoted | src/parser.rs:319-352 | a quoted escaped text is read back as the text, with the cursor past the closing quote and no diagnostic |
| LegacyFacts.NulEscapeAlwaysFails | src/parser.rs:285-307 | `\0` makes a literal fail whether or not a digit follows, with one UnexpectedEscapeCharacter |
| LegacyFacts.NumberLiteralReads | src/parser.rs:354-370 | a number-shaped literal before a byte of another kind is read whole as its bytes and the cursor moves past it |
| LegacyFacts.NumberLiteralAtEnd | src/parser.rs:359-369 | a number-shaped run that reaches the end of the source is not read: the cursor is left at the end |
| LegacyFacts.RequireReachesClose | src/parser.rs:503-515 | `require (` and a literal bring the detector to the `)` check, with the import recorded |
| LegacyFacts.RequireRecordsImport | src/parser.rs:503-528 | `require ( 'x' )` with any whitespace and comments between the tokens: x is appended to the imports and returned, and the cursor is past the `)` |
| LegacyFacts.RequireWithoutCloseStillImports | src/parser.rs:512-523 | without `)` nothing is returned, yet the import stays recorded |
| LegacyFacts.DotNameArm | src/parser.rs:428-438 | the `.` arm reads NAME and exports it exactly when the next solid byte is `=`, leaving the cursor on that byte |
| LegacyFacts.ExportsDotNameRecorded | src/parser.rs:419-438 | `exports . NAME =` with any whitespace and comments between the tokens: NAME is appended and the cursor is put back on the last byte of `exports` |
| LegacyFacts.ExportsDotNameWithoutAssign | src/parser.rs:428-438 | `exports.NAME` not followed by `=` exports nothing; the cursor goes back to the last byte of `exports` |
| LegacyFacts.BracketKeyArm | src/parser.rs:439-460 | the `[` arm on `[ 'KEY' ] =` exports KEY and returns past the `=` |
| LegacyFacts.ExportsBracketKeyConsumesAssign | src/parser.rs:419-460 | `exports [ 'KEY' ] =` with any whitespace and comments between the tokens: the decoded KEY is exported and the cursor is left past the `=` |
| LegacyFacts.ExportsShortcutAssignIgnored | src/parser.rs:461-481 | `exports =` alone exports nothing; only the cursor moves back to the last byte of `exports` |
| LegacyFacts.ModuleExportsReachesExports | src/parser.rs:484-501 | `module . exports` hands over to the exports detector in its `module.` mode |
| LegacyFacts.ModuleExportsDotNameRecorded | src/parser.rs:484-501 | `module . exports . NAME =` with any whitespace and comments between the tokens: NAME is appended and the cursor is put back on the last byte of `exports` |
| LegacyFacts.ExportsAssignRequireReverts | src/parser.rs:461-481 | after `module.`: `exports = require('x')` makes x the re-export and an import, and then still puts the cursor back |
| LegacyFacts.ModuleExportsRequireReverts | src/parser.rs:484-501 | from `module`: the same, with the cursor left on the `s` of `exports` |
| LegacyFacts.LiteralValueReads | src/parser.rs:394-396 | a value that is an ASCII identifier, a quoted literal or a number-shaped literal is accepted and read whole, nothing recorded |
| LegacyFacts.LiteralPropertyReads | src/parser.rs:384-404 | a property, shorthand or `name : value` with any gaps, appends its name and stops where it ends |
| LegacyFacts.LiteralListStep | src/parser.rs:382-409 | a property and its comma: the name is exported and the loop goes on after the comma |
| LegacyFacts.LiteralListReads | src/parser.rs:382-409 | a list of properties, each followed by a comma: every name is exported in order and the loop goes on past the last comma |
| LegacyFacts.LiteralExportsStopsAtBrace | src/parser.rs:405-411 | an optional last property, then `}`: its name is exported and the loop stops ON the `}` without consuming it |
| LegacyFacts.LiteralExportsRead | src/parser.rs:372-417 | `{ … }` of shorthand and valued properties, with or without a trailing comma, with any whitespace and comments between the tokens: every name exported in order, the cursor left ON the `}` |
| LegacyFacts.LiteralPropertyBadValue | src/parser.rs:389-401 | a value of an unrecognised shape puts the cursor back to the revert offset and aborts |
| LegacyFacts.LiteralExportsBadValue | src/parser.rs:382-401 | inside the loop such a value ends the scan with the cursor at the revert offset |
| LegacyFacts.LiteralExportsRevertKeepsNames | src/parser.rs:372-417 | a bad value after some properties reverts the cursor, yet the names read before it stay exported |
| LegacyFacts.ExportsAssignLiteral | src/parser.rs:461-471 | after `module.`: `exports = { … }` exports every name and leaves the cursor on the `}` |
| LegacyFacts.ModuleExportsLiteralLeavesBrace | src/parser.rs:484-501 | `module.exports = { … }` exports every name and returns on the `}`, whose `{` was never pushed |
| LegacyFacts.StepCloseMatched | src/parser.rs:665-686 | a matching close pops the top entry and records nothing |
| LegacyFacts.StepOpenThenClose | src/parser.rs:622-636 | an opener then its closer leaves stack and result unchanged |
| LegacyFacts.StepCloseUnmatchedPanics | src/parser.rs:665-703 | an unmatched close records its diagnostic and the parser panics |
| LegacyFacts.RunThroughStep | src/parser.rs:583-643 | a step that does not panic hands the run over to its state |
| LegacyFacts.RunSkipsInert | src/parser.rs:583-640 | a run of inert bytes changes nothing but the cursor |
| LegacyFacts.RunAtEnd | src/parser.rs:583 | at the end of the source the loop stops |
| LegacyFacts.StepAtExports | src/parser.rs:602-606 | at a free-standing `exports` the driver calls the exports detector |
| LegacyFacts.StepAtModule | src/parser.rs:616-618 | at a free-standing `module` the driver calls the module detector |
| LegacyFacts.StepAtRequire | src/parser.rs:609-611 | at a free-standing `require` the driver calls the require detector |
| LegacyFacts.RunPanicsAt | src/parser.rs:583-643 | a panic in one step ends the run with a panic |
| LegacyFacts.StepSlashSkipped | src/parser.rs:619-639 | a `/` that opens no comment is stepped over: this version scans no regex |
| Findings.LegacyObjectLiteralPanics | src/parser.rs:405-416 | at a keyword start with an empty bracket stack, after `module.exports = { … }` the earlier driver panics on the `}` |
| Findings.LegacyObjectLiteralModulePanics | src/parser.rs:665-713 | a module that is a line break then `module.exports = { … }` makes the earlier parser panic |
| Findings.LegacyLineBreakFirst | src/parser.rs:571-587 | a parse of a source opening with a line break runs on from offset 1, where a keyword may start (no `cur_neg_offset` at offset 0) |
| Findings.CurrentStepAtModule | cjs_module_lexer/src/parser.rs:686-697 | at a free-standing `module` the current driver calls the `module.exports` detector |
| Findings.CurrentObjectLiteralStep | cjs_module_lexer/src/parser.rs:435-438 | the current step over the same text exports every name and consumes the `}` |
| Findings.CurrentLineBreakFirst | cjs_module_lexer/src/parser.rs:656-672 | the same opening step for the current version |
| Findings.CurrentObjectLiteralModuleExports | cjs_module_lexer/src/parser.rs:397-443 | the same module under the current version exports exactly those names, with no diagnostic |
| Findings.LegacyReexportFirstStep | src/parser.rs:461-481 | the earlier driver's first step over `module.exports = require('x')` records x as an import and as the re-export, and leaves the cursor on the `s` of `exports` |
| Findings.LegacyRequireReadAgain | src/parser.rs:503-528 | from the `s` of `exports`, over `=` and plain whitespace, the earlier driver reads `require('x')` again and records x as an import a second time |
| Findings.ExportsTailSkipped | src/parser.rs:583-643 | from the `s` of `exports`, over `=`, spaces and line breaks, the driver steps byte by byte to a `require` that starts a keyword |
| Findings.CurrentReexportStep | cjs_module_lexer/src/parser.rs:498-504 | the current driver's first step reads the whole statement and records x once as an import and as the re-export |
| Findings.LegacyReexportImportedTwice | src/parser.rs:461-481 | a module that is a line break then `module.exports = require('x')` makes the earlier parser record x twice as an import |
| Findings.CurrentReexportImportedOnce | cjs_module_lexer/src/parser.rs:498-504 | the same module under the current version records x once as an import and once as the re-export |
| LegacyExamples.DotIdentifierParse | tests/parser.rs:19-37 | the earlier parser on `exports.u = 1; module.exports.v = 2;` exports exactly u then v, with nothing else recorded |
| LegacyExamples.BracketKeyParse | tests/parser.rs:62-79 | the earlier parser on `exports['u'] = 1;` exports exactly u, with nothing else recorded |

## Left out

- Printing: `print_current_line` and the `println!` calls are debug output
  and are not modelled.
- The `filename` field is kept but not used. The `open_token_depth` check in
  `parse` has empty arms, so it is left out.
- The diagnostic message texts are left out. Each diagnostic keeps its kind,
  its character and its offset.
- `full_char_code` decodes with `from_utf8_unchecked`, so it assumes valid
  UTF-8. The model decodes with checks: at malformed bytes it reports "no
  character" instead of reading undefined values.
- Utf8.DecodeAt: malformed input reads as no character, which the source
  cannot express.
- The final `String::from_utf8(…).unwrap()` on a decoded string literal is
  not modelled. Literal texts stay byte sequences, so a literal whose escapes
  build invalid UTF-8 does not panic here.
- The `unwrap`s in `unicode_escape_sequence` (a hex value out of range, or
  not a scalar value) are modelled as a failed escape with no diagnostic. The
  source panics there.
- The Unicode ID_Start/ID_Continue tables are parameters. The lemmas that
  read identifiers (LexerFacts, LegacyFacts, Findings, LegacyExamples)
  assume only that the tables agree with Unicode on ASCII.
  test_exports_dot_identifier_many (non-ASCII names) is therefore not
  modelled.
- The current version's `cjs_module_lexer/src/utils.rs` is not part of this
  model. Keywords is built from its call site in `parse` and from its test.
- Keywords.MatchKeyword: it follows the test's examples. Which keywords count
  as expression keywords comes from the call site's first bytes and the
  test, not from the matcher's source.
- Legacy.Parser.Parse: a panic (`panic!` in `pop_bracket_stack`) is modelled
  as a `None` result. The state it panicked in is not returned.
- LegacySpec.KeywordStart: at offset 0, `cur_neg_offset` computes `0 - 1` on
  `usize`. The model takes the release-build wrap-around, which reads no byte
  and so counts as a keyword start. A debug build would panic with an
  overflow there. The whole-parse lemmas (Findings, LegacyExamples) start
  their sources with a line break, so they never reach this case.
- Lexer.Parser.TryParseLiteralExports: requires `pos >= 1`, as
  `self.pos - 1` does in the source. It is called only after a `=`.
- Where the code and its documentation disagree, the model follows the code:
  - `\` then LF yields an LF;
  - `\` then CR LF yields CR LF without consuming the LF;
  - `\1`…`\9` yield the digit;
  - `require('x' + y)` still records x as an import;
  - after the `}` that closes a `${`, one template byte is skipped.
- The source's integer widths are not modelled. Offsets are unbounded
  naturals, and no offset in the source comes near `usize` overflow except
  the one noted for KeywordStart.
- LiteralValue (LexerSpec and LegacySpec): its own contract only says the
  cursor never moves back. What each value arm accepts is stated by
  LiteralValueReads in LexerFacts and LegacyFacts: an ASCII identifier, a
  quoted literal or a number-shaped literal. A non-ASCII identifier value is
  not covered by a lemma.
- PropertyAfterName (LexerSpec and LegacySpec): its own contract only says
  the cursor moves forward or goes back to the revert offset. The accepted
  `name: value` path is stated by LiteralPropertyReads, and the abort by
  LiteralPropertyBadValue, in LexerFacts and LegacyFacts.
- TemplateBody: its own contract only says the cursor never moves back.
  Where the body stops and what it pushes are stated by
  LexerFacts.TemplateBodyToBacktick, TemplateBodyToInterpolation and
  TemplateBodyUnterminated, for text made of escapes and plain bytes.
- TemplateLiteral: its own contract only says how the cursor moves. Its new
  state is stated by LexerFacts.TemplateLiteralPlain (a whole template
  without interpolation) and CloseInterpolationResumes (the text after an
  interpolation's `}` up to the closing backtick).
- The other spec functions of LexerSpec and LegacySpec whose own contract
  only bounds the cursor have their effect stated by the lemmas named in
  parentheses in their rows of "## Model". The lemmas about detectors and object literals cover ASCII
  names only (see the Unicode tables above).

## Findings

| source | as written | input that shows it | evidently intended | confidence | as-written member | corrected member |
|---|---|---|---|---|---|---|
| src/parser.rs:405-416 | `try_parse_literal_exports` returns at the closing `}` without consuming it. Its `{` was consumed by the detector and never pushed on the bracket stack. So the driver then pops an empty stack, and `pop_bracket_stack` panics (src/parser.rs:687-702). The source of test_module_dot_exports takes the same path. | a line break, then `module.exports = { a, b: 1 }` (any object literal the detector reads to its `}`, ending the source) | consume the `}` and return, as the current version does at cjs_module_lexer/src/parser.rs:435-438: the module exports a and b, with no diagnostic | high; proved on the model, not executed | Findings.LegacyObjectLiteralModulePanics | Findings.CurrentObjectLiteralModuleExports |
| src/parser.rs:461-481 | after `module.exports = require('x')` records the re-export, the arm does not return, so `self.pos = revert_pos` puts the cursor back inside `exports`. The driver then reaches the same `require('x')` again and records x as an import a second time. | a line break, then `module.exports = require('x')` | return after setting the re-export, as the current version does at cjs_module_lexer/src/parser.rs:502-504: imports `[x]`, re-export `x` | high; proved on the model, not executed | Findings.LegacyReexportImportedTwice | Findings.CurrentReexportImportedOnce |
