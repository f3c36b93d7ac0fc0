/**
 * The repository's two lexing tests, restated over the model: the table `Plus` (`+`) and
 * `Number` (`[0-9]+`), lexing "1+2" and "1 + 2". The `[0-9]+` expression is written out as a
 * finder of its own: the leftmost run of decimal digits, taken whole.
 */
module Examples {
  import opened Wrappers
  import opened Spans
  import opened Tokens
  import opened RuleTable
  import opened Scanner
  import opened Decimal

  predicate IsDigit(c: char)
  {
    '0' <= c <= '9'
  }

  /** The length of the run of digits that starts `s`. */
  function DigitRun(s: string): (n: nat)
    ensures n <= |s|
    ensures forall i :: 0 <= i < n ==> IsDigit(s[i])
    ensures n == |s| || !IsDigit(s[n])
  {
    if s != [] && IsDigit(s[0]) then 1 + DigitRun(s[1..]) else 0
  }

  /** What `[0-9]+` finds in `s`: the first digit and the whole run of digits from it. */
  function FindDigits(s: string): (r: Option<Match>)
    ensures Fits(r, s)
    ensures r.Some? ==> r.value.len >= 1 && IsDigit(s[r.value.start])
    ensures r.Some? ==> forall i :: 0 <= i < r.value.start ==> !IsDigit(s[i])
    ensures r.None? ==> forall i :: 0 <= i < |s| ==> !IsDigit(s[i])
  {
    if s == [] then None
    else if IsDigit(s[0]) then Some(Match(0, DigitRun(s)))
    else
      match FindDigits(s[1..])
      case None => None
      case Some(m) => Some(Match(m.start + 1, m.len))
  }

  const Digits: Finder := s => FindDigits(s)

  /** The table of both tests, in declaration order. */
  const Arithmetic: seq<Rule> := [Rule("Plus", Terminal("+")), Rule("Number", Literal(Digits))]

  /** `[0-9]+` matches at the start exactly when `s` starts with a digit, and then takes the whole run. */
  lemma DigitsAnchored(s: string)
    ensures AnchoredLen(Literal(Digits), s) == if s != [] && IsDigit(s[0]) then DigitRun(s) else 0
  {
    assert Find(Literal(Digits), s) == FindDigits(s);
  }

  /** `[0-9]+` matches one byte at the start of a lone digit. */
  lemma LoneDigitAnchored(s: string)
    requires s != [] && IsDigit(s[0]) && (|s| == 1 || !IsDigit(s[1]))
    ensures AnchoredLen(Literal(Digits), s) == 1
  {
    DigitsAnchored(s);
    SingleDigit(s);
  }

  /** `[0-9]+` matches nothing at the start of a byte that is not a digit. */
  lemma NoDigitAnchored(s: string)
    requires s != [] && !IsDigit(s[0])
    ensures AnchoredLen(Literal(Digits), s) == 0
  {
    DigitsAnchored(s);
  }

  /** The position one column further on. */
  function Next(pos: Position): (r: Position)
    ensures r.0 == pos.0 && r.1 == pos.1 + 1
  {
    (pos.0, pos.1 + 1)
  }

  /**
   * A table of two rules: the second wins only with a strictly longer match, the first with
   * any match of positive length, and otherwise nothing is found.
   */
  lemma PairLongest(r0: Rule, r1: Rule, s: string, pos: Position, source: string)
    ensures var n0 := AnchoredLen(r0.matcher, s); var n1 := AnchoredLen(r1.matcher, s);
      Longest([r0, r1], s, pos, source) ==
        if n1 > n0 then (n1, Some(Build(r1, s[..n1], pos, source)))
        else if n0 > 0 then (n0, Some(Build(r0, s[..n0], pos, source)))
        else (0, None)
  {
    assert [r0, r1][..1] == [r0] && [r0][..0] == [];
  }

  /** At a lone digit, the table finds a `Number` one byte long. */
  lemma DigitAt(s: string, pos: Position, source: string)
    requires s != [] && IsDigit(s[0]) && (|s| == 1 || !IsDigit(s[1]))
    ensures Longest(Arithmetic, s, pos, source) == (1, Some(Token("Number", Span(pos, Next(pos), source), Some(s[..1]))))
  {
    TerminalAnchored("+", s);
    LoneDigitAnchored(s);
    PairLongest(Rule("Plus", Terminal("+")), Rule("Number", Literal(Digits)), s, pos, source);
  }

  /** At a `+`, the table finds a `Plus` one byte long. */
  lemma PlusAt(s: string, pos: Position, source: string)
    requires s != [] && s[0] == '+'
    ensures Longest(Arithmetic, s, pos, source) == (1, Some(Token("Plus", Span(pos, Next(pos), source), None)))
  {
    TerminalAnchored("+", s);
    assert "+" <= s;
    NoDigitAnchored(s);
    PairLongest(Rule("Plus", Terminal("+")), Rule("Number", Literal(Digits)), s, pos, source);
  }

  /** At any other byte, the table finds nothing. */
  lemma NothingAt(s: string, pos: Position, source: string)
    requires s != [] && s[0] != '+' && !IsDigit(s[0])
    ensures Longest(Arithmetic, s, pos, source) == (0, None)
  {
    TerminalAnchored("+", s);
    NoDigitAnchored(s);
    PairLongest(Rule("Plus", Terminal("+")), Rule("Number", Literal(Digits)), s, pos, source);
  }

  /** The rest of the input from a lone digit starts with that digit alone. */
  lemma LoneDigitRest(s: string, p: nat)
    requires p < |s| && IsDigit(s[p]) && (p + 1 == |s| || !IsDigit(s[p + 1]))
    ensures var u := s[p..]; u != [] && IsDigit(u[0]) && (|u| == 1 || !IsDigit(u[1])) && u[..1] == [s[p]]
  {
    assert s[p..][0] == s[p];
    assert |s[p..]| == 1 || s[p..][1] == s[p + 1];
  }

  lemma DigitFound(s: string, p: nat, pos: Position)
    requires p < |s| && IsDigit(s[p]) && (p + 1 == |s| || !IsDigit(s[p + 1]))
    ensures Longest(Arithmetic, s[p..], pos, s) == (1, Some(Token("Number", Span(pos, Next(pos), s), Some([s[p]]))))
  {
    LoneDigitRest(s, p);
    DigitAt(s[p..], pos, s);
  }

  /** A `+` is found as a `Plus` one column wide. */
  lemma PlusFound(s: string, p: nat, pos: Position)
    requires p < |s| && s[p] == '+'
    ensures Longest(Arithmetic, s[p..], pos, s) == (1, Some(Token("Plus", Span(pos, Next(pos), s), None)))
  {
    assert s[p..][0] == s[p];
    PlusAt(s[p..], pos, s);
  }

  /** Nothing is found at a byte that is neither a digit nor `+`. */
  lemma NothingFound(s: string, p: nat, pos: Position)
    requires p < |s| && s[p] != '+' && !IsDigit(s[p])
    ensures Longest(Arithmetic, s[p..], pos, s) == (0, None)
  {
    assert s[p..][0] == s[p];
    NothingAt(s[p..], pos, s);
  }

  /** A digit followed by a byte that is not one is a run of length one. */
  lemma SingleDigit(s: string)
    requires |s| >= 1 && IsDigit(s[0]) && (|s| == 1 || !IsDigit(s[1]))
    ensures DigitRun(s) == 1
  {
    assert DigitRun(s) == 1 + DigitRun(s[1..]);
  }

  /** At most one space before a byte that is not whitespace: skipping moves past it. */
  lemma SkipSpace(s: string, c: Cursor, w: Cursor)
    requires c.pos <= w.pos < |s| && !IsAsciiWhitespace(s[w.pos])
    requires w.pos == c.pos || (w.pos == c.pos + 1 && s[c.pos] == ' ')
    requires w == Cursor(w.pos, c.line, c.col + (w.pos - c.pos))
    ensures SkipWhitespace(s, c) == w
  {
    assert SkipWhitespace(s, w) == w;
  }

  /** A lone digit after some spaces is recorded as a one-column `Number`. */
  lemma NumberStep(s: string, c: Cursor, w: Cursor, pos: Position, acc: seq<Token>, t: Token, next: Cursor)
    requires c.pos <= w.pos < |s| && w == Cursor(w.pos, c.line, c.col + (w.pos - c.pos))
    requires w.pos == c.pos || (w.pos == c.pos + 1 && s[c.pos] == ' ')
    requires IsDigit(s[w.pos]) && (w.pos + 1 == |s| || !IsDigit(s[w.pos + 1]))
    requires pos == (w.line, w.col)
    requires t == Token("Number", Span(pos, Next(pos), s), Some([s[w.pos]]))
    requires next == Cursor(w.pos + 1, w.line, w.col + 1)
    ensures LexFrom(Arithmetic, s, c, acc) == LexFrom(Arithmetic, s, next, acc + [t])
  {
    DigitFound(s, w.pos, (w.line, w.col));
    SkipSpace(s, c, w);
    LexFromFound(Arithmetic, s, c, acc, w, 1, t, next);
  }

  /** A `+` after some spaces is recorded as a one-column `Plus`. */
  lemma PlusStep(s: string, c: Cursor, w: Cursor, pos: Position, acc: seq<Token>, t: Token, next: Cursor)
    requires c.pos <= w.pos < |s| && w == Cursor(w.pos, c.line, c.col + (w.pos - c.pos))
    requires w.pos == c.pos || (w.pos == c.pos + 1 && s[c.pos] == ' ')
    requires s[w.pos] == '+'
    requires pos == (w.line, w.col)
    requires t == Token("Plus", Span(pos, Next(pos), s), None)
    requires next == Cursor(w.pos + 1, w.line, w.col + 1)
    ensures LexFrom(Arithmetic, s, c, acc) == LexFrom(Arithmetic, s, next, acc + [t])
  {
    PlusFound(s, w.pos, (w.line, w.col));
    SkipSpace(s, c, w);
    LexFromFound(Arithmetic, s, c, acc, w, 1, t, next);
  }

  /** A byte that is neither whitespace, a digit nor `+` stops the lexer at its offset. */
  lemma StuckStep(s: string, c: Cursor, acc: seq<Token>)
    requires c.pos < |s| && !IsAsciiWhitespace(s[c.pos]) && s[c.pos] != '+' && !IsDigit(s[c.pos])
    ensures LexFrom(Arithmetic, s, c, acc) == Err(LexError(FailMessage(s, c.pos)))
  {
    SkipSpace(s, c, c);
    NothingFound(s, c.pos, (c.line, c.col));
    LexFromStuck(Arithmetic, s, c, acc, c);
  }

  /** `lex_addition`: "1+2" gives a number, a plus and a number, each one column wide. */
  lemma LexAddition(s: string)
    requires |s| == 3 && s[0] == '1' && s[1] == '+' && s[2] == '2'
    ensures Lex(Arithmetic, s) == Ok([
      Token("Number", Span((0, 0), (0, 1), s), Some("1")),
      Token("Plus", Span((0, 1), (0, 2), s), None),
      Token("Number", Span((0, 2), (0, 3), s), Some("2"))])
  {
    var t1 := Token("Number", Span((0, 0), (0, 1), s), Some("1"));
    var t2 := Token("Plus", Span((0, 1), (0, 2), s), None);
    var t3 := Token("Number", Span((0, 2), (0, 3), s), Some("2"));
    assert [] + [t1] == [t1] && [t1] + [t2] == [t1, t2] && [t1, t2] + [t3] == [t1, t2, t3];
    assert [s[0]] == "1" && [s[2]] == "2";
    NumberStep(s, Cursor(0, 0, 0), Cursor(0, 0, 0), (0, 0), [], t1, Cursor(1, 0, 1));
    PlusStep(s, Cursor(1, 0, 1), Cursor(1, 0, 1), (0, 1), [t1], t2, Cursor(2, 0, 2));
    NumberStep(s, Cursor(2, 0, 2), Cursor(2, 0, 2), (0, 2), [t1, t2], t3, Cursor(3, 0, 3));
  }

  /** `eat_whitespace`: the spaces in "1 + 2" are skipped and still counted in the columns. */
  lemma LexSpacedAddition(s: string)
    requires |s| == 5 && s[0] == '1' && s[1] == ' ' && s[2] == '+' && s[3] == ' ' && s[4] == '2'
    ensures Lex(Arithmetic, s) == Ok([
      Token("Number", Span((0, 0), (0, 1), s), Some("1")),
      Token("Plus", Span((0, 2), (0, 3), s), None),
      Token("Number", Span((0, 4), (0, 5), s), Some("2"))])
  {
    var t1 := Token("Number", Span((0, 0), (0, 1), s), Some("1"));
    var t2 := Token("Plus", Span((0, 2), (0, 3), s), None);
    var t3 := Token("Number", Span((0, 4), (0, 5), s), Some("2"));
    assert [] + [t1] == [t1] && [t1] + [t2] == [t1, t2] && [t1, t2] + [t3] == [t1, t2, t3];
    assert [s[0]] == "1" && [s[4]] == "2";
    NumberStep(s, Cursor(0, 0, 0), Cursor(0, 0, 0), (0, 0), [], t1, Cursor(1, 0, 1));
    PlusStep(s, Cursor(1, 0, 1), Cursor(2, 0, 2), (0, 2), [t1], t2, Cursor(3, 0, 3));
    NumberStep(s, Cursor(3, 0, 3), Cursor(4, 0, 4), (0, 4), [t1, t2], t3, Cursor(5, 0, 5));
  }

  /** A byte no rule matches stops the lexer with the offset and the rest of the input. */
  lemma LexUnknown(s: string)
    requires |s| == 3 && s[0] == '1' && s[1] == '+' && s[2] == 'x'
    ensures Lex(Arithmetic, s) == Err(LexError("Failed to lex '" + s + "' at position " + "2" + "; remaining '" + "x" + "'"))
  {
    var t1 := Token("Number", Span((0, 0), (0, 1), s), Some("1"));
    var t2 := Token("Plus", Span((0, 1), (0, 2), s), None);
    assert [s[0]] == "1";
    NumberStep(s, Cursor(0, 0, 0), Cursor(0, 0, 0), (0, 0), [], t1, Cursor(1, 0, 1));
    PlusStep(s, Cursor(1, 0, 1), Cursor(1, 0, 1), (0, 1), [] + [t1], t2, Cursor(2, 0, 2));
    StuckStep(s, Cursor(2, 0, 2), [] + [t1] + [t2]);
    UnknownMessage(s);
  }

  /** The message for "1+x" names offset 2 and the remaining "x". */
  lemma UnknownMessage(s: string)
    requires |s| == 3 && s[2] == 'x'
    ensures FailMessage(s, 2) == "Failed to lex '" + s + "' at position " + "2" + "; remaining '" + "x" + "'"
  {
    assert DecimalString(2) == "2";
    assert s[2..] == "x";
  }

  /** Maximal munch: "==" is one `EqEq`, whichever of `=` and `==` is declared first. */
  lemma LexLongestWins(s: string)
    requires s == "=="
    ensures Lex([Rule("Eq", Terminal("=")), Rule("EqEq", Terminal(s))], s)
      == Ok([Token("EqEq", Span((0, 0), (0, 2), s), None)])
    ensures Lex([Rule("EqEq", Terminal(s)), Rule("Eq", Terminal("="))], s)
      == Ok([Token("EqEq", Span((0, 0), (0, 2), s), None)])
  {
    var t := Token("EqEq", Span((0, 0), (0, 2), s), None);
    var up := [Rule("Eq", Terminal("=")), Rule("EqEq", Terminal("=="))];
    var down := [Rule("EqEq", Terminal("==")), Rule("Eq", Terminal("="))];
    SkipSpace(s, Cursor(0, 0, 0), Cursor(0, 0, 0));
    TerminalAnchored("=", s[0..]);
    TerminalAnchored("==", s[0..]);
    assert "=" <= s[0..] && "==" <= s[0..];
    PairLongest(up[0], up[1], s[0..], (0, 0), s);
    PairLongest(down[0], down[1], s[0..], (0, 0), s);
    assert s[0..][..2] == s;
    assert [] + [t] == [t];
    LexFromFound(up, s, Cursor(0, 0, 0), [], Cursor(0, 0, 0), 2, t, Cursor(2, 0, 2));
    LexFromFound(down, s, Cursor(0, 0, 0), [], Cursor(0, 0, 0), 2, t, Cursor(2, 0, 2));
  }
}
