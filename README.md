# lachs lexer runtime, modelled in Dafny

lachs is a Rust library whose `#[token]` attribute macro turns an annotated enum into a lexer.
Each variant marked `#[terminal("…")]` or `#[literal("…")]` becomes a rule of an ordered rule
table (`Lexikon`). The generated `Lexer` skips ASCII whitespace while counting lines and
columns, asks the table for the longest match at the current offset, and either records the
token or fails with a `LexError`. Every token carries a `lachs::Span`: a (line, column) range
together with the whole source. `Span::to_string` renders a diagnostic excerpt of the source
with the spanned text coloured red.

This project models that runtime and proves what it promises:

- `decimal.dfy` (`Decimal`): Rust's `format!("{}", n)` for line labels, error offsets and the gutter width.
- `spans.dfy` (`Spans`): `Span`, `merge`, its always-true equality, `str::lines`, and `to_string`.
  `to_string` is a method proved equal to the specification function `Excerpt`. Colouring is
  modelled by `Plain` and `Marked` pieces.
- `tokens.dfy` (`Tokens`): the generated token type, its variant-only `PartialEq`, `position()` and `does_equal`.
- `declarations.dfy` (`Declarations`): how the variants' attributes decide which rules exist, of which kind, in which order.
- `lexikon.dfy` (`RuleTable`): the rule table and `find_longest_match`.
  `find_longest_match` is a method proved equal to the specification fold `Longest`.
- `lexer.dfy` (`Scanner`): the `Lexer` class with mutable `tokens`, `position`, `col` and `line`.
  `eat_whitespace` and `lex` are methods proved against the specification functions
  `SkipWhitespace` and `LexFrom`.
- `examples.dfy` (`Examples`): the repository's two lexing tests, a failing input and maximal munch, over a concrete table.

Strings are byte strings (`seq<char>` read as bytes), so columns are byte offsets, as
`matched.as_str().len()` counts them.

The caret padding `end.1 - 1` of `to_string` is an unsigned subtraction, so `end.1 == 0` panics;
`Spans.Renderable` therefore requires `end.1 >= 1`.

## Model

| member | source | states |
|---|---|---|
| Spans.Merge | lachs/src/lib.rs:77-82 | the merged span starts where `a` starts, ends where `b` ends, and keeps `a`'s source |
| Spans.MergeAssociative | lachs/src/lib.rs:77-82 | merging is associative |
| Spans.MergeSelf | lachs/src/lib.rs:77-82 | merging a span with itself gives that span back |
| Spans.SpanEq | lachs/src/lib.rs:85-90 | any two spans are equal |
| Spans.SpanEqIsEquivalence | lachs/src/lib.rs:85-90 | span equality is reflexive, symmetric and transitive for every start, end and source |
| Spans.Lines | lachs/src/lib.rs:19 | no line contains a line feed, and a non-empty source has at least one line |
| Spans.LinesRoundTrip | lachs/src/lib.rs:19 | joining the lines with line feeds, plus the source's final line feed if it has one, gives the source back |
| Spans.LinesOfJoin | lachs/src/lib.rs:19 | rows without line feeds, the last one non-empty, are exactly the lines of their join |
| Spans.ToString | lachs/src/lib.rs:16-75 | for every span that does not panic, the rendered pieces are exactly `Excerpt(sp, msg)` |
| Spans.AppendMarkedRows | lachs/src/lib.rs:59-65 | the loop appends, for each line `lo .. hi - 1` in order, a gutter row and that whole line marked |
| Spans.FirstLineSplit | lachs/src/lib.rs:28-48 | the first line's pieces concatenate back to the line; only `[start.1, end.1)` is marked on a single line, and only `[start.1, ..)` across lines |
| Spans.MarkedRowsMark | lachs/src/lib.rs:59-65 | the marked texts of the further rows are exactly `lines[lo..hi]`, in order |
| Spans.ExcerptMarks | lachs/src/lib.rs:28-65 | exactly the spanned text is marked: the columns `start.1 .. end.1` on one line; across lines, the rest of the first line and then every line `start.0 + 1 ..= end.0` whole |
| Spans.MarkedRowsText | lachs/src/lib.rs:60-65 | without colouring, the further rows are one `"\n" + gutter + " \|" + line` per line, as the joined rows show them |
| Spans.ExcerptText | lachs/src/lib.rs:54-72 | without colouring, the excerpt is `ExcerptRows` joined by line feeds: the gutter rows, the context line, the first line labelled `start.0 + 1`, the further lines, the caret row labelled `end.0 + 2` and padded by `end.1 - 1` spaces before `^--- msg`, and a closing gutter row |
| Spans.ExcerptLines | lachs/src/lib.rs:16-75 | when the message has no line feed, splitting the uncoloured excerpt into lines gives exactly `ExcerptRows` |
| Spans.GutterWidth | lachs/src/lib.rs:24-25 | the gutter is as wide as `end.0` has decimal digits |
| Decimal.DecimalString | lachs/src/lib.rs:24 | the rendering has at least one character, only decimal digits, and no leading zero |
| Decimal.ParseDecimalString | lachs/src/lib.rs:24 | reading the rendering back as a decimal number gives the number |
| Decimal.DecimalStringWidth | lachs/src/lib.rs:24 | a width of `w` digits means `10^(w-1) <= n < 10^w` (or `w = 1`) |
| Tokens.TokenEqIsSameVariant | lachs_derive/src/token.rs:101-108 | two tokens of the enum are equal exactly when they are the same variant |
| Tokens.TokenEqIgnoresPayload | lachs_derive/src/token.rs:79-83 | changing a token's position or value never changes equality |
| Tokens.PositionOf | lachs_derive/src/token.rs:113-117 | `position()` returns the token's own span |
| Tokens.DoesEqual | lachs_derive/src/token.rs:119-121 | `does_equal` is always true, since spans always compare equal |
| Declarations.ClassifyFirstDecides | lachs_derive/src/token.rs:16-69 | the first attribute the loop does not skip decides the variant: a panic for a non-literal argument, otherwise a rule of that attribute's kind; with no such attribute there is no rule |
| Declarations.KeptIndicesSpec | lachs_derive/src/token.rs:16-69 | the variants that get a rule are listed each once, in increasing declaration order |
| Declarations.RuleDeclsInOrder | lachs_derive/src/token.rs:16-69 | without a panic, the rule declarations are those of the kept variants, in declaration order |
| Declarations.ClassifyKeepsName | lachs_derive/src/token.rs:17-65 | a rule declaration carries the name of its variant |
| RuleTable.Occurrence | lachs_derive/src/token.rs:135 | an occurrence found is the literal text, and the occurrence is at offset 0 exactly when the text is a prefix |
| RuleTable.OccurrenceLeftmost | lachs_derive/src/token.rs:186 | the occurrence found is the leftmost one: the text is a prefix of no earlier suffix, and of no suffix at all when none is found |
| RuleTable.Find | lachs_derive/src/token.rs:186 | a match found lies inside the searched text |
| RuleTable.TerminalAnchored | lachs_derive/src/token.rs:186-192 | a terminal matches at offset 0 exactly when its text is a prefix, with the text's length |
| RuleTable.Longest | lachs_derive/src/token.rs:183-197 | no token exactly when the length is 0; the length fits the input, is at least every rule's match at offset 0, and is some rule's match |
| RuleTable.LongestPicksFirstLongest | lachs_derive/src/token.rs:183-197 | maximal munch with ties going to the earliest rule: the result is the token of the first rule with the longest match at offset 0 |
| RuleTable.LongestNone | lachs_derive/src/token.rs:183-197 | when no rule matches at offset 0 with positive length, the result is `(0, None)` |
| RuleTable.LongestToken | lachs_derive/src/token.rs:192-193 | the token found is built by one of the rules from exactly the matched bytes |
| RuleTable.LongestSpan | lachs_derive/src/token.rs:136-137 | the token's span runs from `(line, col)` to `(line, col + len)` over the whole source |
| RuleTable.Lexikon.FindLongestMatch | lachs_derive/src/token.rs:177-198 | the loop over the table returns `Longest` of its rules |
| RuleTable.NewLexikon | lachs_derive/src/token.rs:165-175 | the table has one rule per declaration |
| RuleTable.NewLexikonAt | lachs_derive/src/token.rs:165-175 | rule `k` of the table is the rule of declaration `k` |
| RuleTable.TableFollowsDeclarations | lachs_derive/src/token.rs:165-171 | rule `k` belongs to the `k`-th variant that carries a `terminal` or `literal` attribute, with that variant's name, kind and pattern |
| Scanner.SkipWhitespace | lachs_derive/src/token.rs:235-249 | skipping never moves backwards and never passes the end of the input |
| Scanner.SkipWhitespaceStops | lachs_derive/src/token.rs:236-239 | skipping crosses only ASCII whitespace and stops at the end or at the first other byte |
| Scanner.SkipWhitespaceLines | lachs_derive/src/token.rs:241-243 | the line grows by the number of line feeds skipped |
| Scanner.SkipWhitespaceColumn | lachs_derive/src/token.rs:241-246 | the column restarts at 0 after a skipped line feed and grows by one for every other skipped byte |
| Scanner.SkipWhitespaceForward | lachs_derive/src/token.rs:235-249 | skipping never moves backwards in (line, column) order |
| Scanner.Lexer.constructor | lachs_derive/src/token.rs:224-233 | a new lexer is at offset 0, line 0, column 0, with no tokens |
| Scanner.Lexer.EatWhitespace | lachs_derive/src/token.rs:235-249 | the new offset, line and column are `SkipWhitespace` of the old ones |
| Scanner.Lexer.Lex | lachs_derive/src/token.rs:251-282 | the result is `LexFrom` of the starting state, and the loop runs at most once per remaining byte |
| Scanner.Tokenize | lachs_derive/src/token.rs:123-125 | `Token::lex` on a fresh lexer gives `Lex` of the input |
| Scanner.LexFromFound | lachs_derive/src/token.rs:263-278 | a round that finds a token records it and goes on `len` bytes and columns further on the same line |
| Scanner.LexFromStuck | lachs_derive/src/token.rs:265-274 | a round that finds nothing before the end fails with `Failed to lex '<input>' at position <p>; remaining '<rest>'` |
| Scanner.LexBlank | lachs_derive/src/token.rs:252-281 | empty or whitespace-only input lexes to no tokens |
| Scanner.LexFromFails | lachs_derive/src/token.rs:263-274 | the lexer fails only at an offset past the cursor whose byte is not whitespace and where no rule matches, and the message names that offset |
| Scanner.LexFromTokens | lachs_derive/src/token.rs:136-150 | a successful run keeps the tokens already recorded; every token added is one line high, at least one column wide, from a rule of the table with its variant, and carries a value of its width exactly for `literal` rules |
| Scanner.FoundEnds | lachs_derive/src/token.rs:277-278 | a token ends where the next round starts |
| Scanner.LexFromOrdered | lachs_derive/src/token.rs:251-282 | the tokens of a successful run come in source order, none before the cursor |
| Examples.DigitsAnchored | lachs/tests/eat_whitespace.rs:9-10 | `[0-9]+` matches at offset 0 exactly when the input starts with a digit, and takes the whole run |
| Examples.LexAddition | lachs/tests/lex_addition.rs:15-41 | "1+2" lexes to Number "1" at (0,0)-(0,1), Plus at (0,1)-(0,2) and Number "2" at (0,2)-(0,3) |
| Examples.LexSpacedAddition | lachs/tests/eat_whitespace.rs:15-41 | "1 + 2" lexes to Number "1" at (0,0)-(0,1), Plus at (0,2)-(0,3) and Number "2" at (0,4)-(0,5) |
| Examples.LexUnknown | lachs_derive/src/token.rs:265-274 | "1+x" fails with `Failed to lex '1+x' at position 2; remaining 'x'` |
| Examples.LexLongestWins | lachs_derive/src/token.rs:192 | "==" is one `EqEq` token whichever of `=` and `==` is declared first |

## Left out

- The regex engine: a `literal` pattern is an abstract finder (`RuleTable.Finder`). It returns the leftmost match inside the input or none. `Regex::new`, its `.unwrap()` panic on a bad pattern, and leftmost-first alternation are not modelled. A terminal is searched for as its exact text, which is what the escaped expression finds.
- The `.parse().unwrap()` of a `literal` token's value: the value is a `String`, so it is the matched text.
- The proc-macro plumbing: parsing the enum with `syn` and generating code with `quote!`. Only which rules exist, their kinds and their order are modelled (`Declarations`), together with the panic for an attribute whose argument is not a string literal.
- ANSI colouring: `.red()` is modelled by `Marked` pieces and its escape codes are not produced.
- `str::lines` also removes a `'\r'` before each line feed; the model splits on `'\n'` only.
- UTF-8: text is a sequence of bytes, so the char-boundary panics of slicing in `to_string` are not modelled.
- Spans.ToString: does not return the panics of the source. Its precondition `Renderable` is exactly the set of spans on which the source does not panic.
- Unsigned overflow: offsets, lines and columns are unbounded naturals, so `usize` overflow is not modelled.
- The `Display` and `Error` impls of `LexError`: they only forward its message.
- Scanner.Lexer.Lex: its bound on the number of rounds is a ghost result. The termination argument is the loop's `decreases` clause.
