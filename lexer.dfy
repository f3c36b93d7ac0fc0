/**
 * The scanning loop (`Lexer`) the `#[token]` macro generates: it skips ASCII whitespace while
 * keeping line and column, asks the rule table for the longest match at the current offset,
 * and either records the token and advances or fails with a `LexError`.
 */
module Scanner {
  import opened Wrappers
  import opened Decimal
  import opened Spans
  import opened Tokens
  import opened RuleTable

  /** The lexer's only error: a message naming the input, the offset and the unmatched rest. */
  datatype LexError = LexError(message: string)

  type LexResult = Result<seq<Token>, LexError>

  /** `u8::is_ascii_whitespace`: space, tab, line feed, form feed and carriage return. */
  predicate IsAsciiWhitespace(c: char)
  {
    c == ' ' || c == '\t' || c == '\n' || c == 0x0C as char || c == '\r'
  }

  /** Where the lexer stands: the byte offset into the input, and the line and column there. */
  datatype Cursor = Cursor(pos: nat, line: nat, col: nat)

  /** `eat_whitespace` as a function of the cursor. */
  function SkipWhitespace(s: string, c: Cursor): (r: Cursor)
    requires c.pos <= |s|
    ensures c.pos <= r.pos <= |s|
    decreases |s| - c.pos
  {
    if c.pos < |s| && IsAsciiWhitespace(s[c.pos]) then
      SkipWhitespace(s, if s[c.pos] == '\n' then Cursor(c.pos + 1, c.line + 1, 0) else Cursor(c.pos + 1, c.line, c.col + 1))
    else c
  }

  /** The number of line feeds in `t`. */
  function Newlines(t: string): (n: nat)
    ensures n <= |t|
  {
    if t == [] then 0 else (if t[0] == '\n' then 1 else 0) + Newlines(t[1..])
  }

  /** The offset of the last line feed in `t`. */
  function LastNewline(t: string): (k: nat)
    requires '\n' in t
    ensures k < |t| && t[k] == '\n' && '\n' !in t[k + 1..]
  {
    if t[|t| - 1] == '\n' then |t| - 1
    else
      assert t == t[..|t| - 1] + [t[|t| - 1]];
      LastNewline(t[..|t| - 1])
  }

  /** The column after reading `t` from column `col`: counted from the last line feed, if any. */
  function ColumnAfter(t: string, col: nat): nat
  {
    if '\n' in t then |t| - 1 - LastNewline(t) else col + |t|
  }

  lemma LastNewlineCons(x: char, t: string)
    requires '\n' in t
    ensures LastNewline([x] + t) == 1 + LastNewline(t)
  {
    var u := [x] + t;
    var k := LastNewline(u);
    var j := LastNewline(t);
    assert forall i :: k < i < |u| ==> u[i] != '\n' by {
      forall i | k < i < |u| ensures u[i] != '\n' {
        assert u[k + 1..][i - k - 1] == u[i];
      }
    }
    assert forall i :: j < i < |t| ==> t[i] != '\n' by {
      forall i | j < i < |t| ensures t[i] != '\n' {
        assert t[j + 1..][i - j - 1] == t[i];
      }
    }
    assert u[1 + j] == '\n';
    assert 1 + j <= k;
    assert t[k - 1] == u[k];
  }

  /** Whitespace skipping crosses only whitespace and stops at the first byte that is not. */
  lemma {:induction false} SkipWhitespaceStops(s: string, c: Cursor)
    requires c.pos <= |s|
    ensures forall i :: c.pos <= i < SkipWhitespace(s, c).pos ==> IsAsciiWhitespace(s[i])
    ensures SkipWhitespace(s, c).pos == |s| || !IsAsciiWhitespace(s[SkipWhitespace(s, c).pos])
    decreases |s| - c.pos
  {
    if c.pos < |s| && IsAsciiWhitespace(s[c.pos]) {
      var next := if s[c.pos] == '\n' then Cursor(c.pos + 1, c.line + 1, 0) else Cursor(c.pos + 1, c.line, c.col + 1);
      SkipWhitespaceStops(s, next);
    }
  }

  /** Every line feed skipped adds one line. */
  lemma {:induction false} SkipWhitespaceLines(s: string, c: Cursor)
    requires c.pos <= |s|
    ensures SkipWhitespace(s, c).line == c.line + Newlines(s[c.pos..SkipWhitespace(s, c).pos])
    decreases |s| - c.pos
  {
    if c.pos < |s| && IsAsciiWhitespace(s[c.pos]) {
      var x := s[c.pos];
      var next := if x == '\n' then Cursor(c.pos + 1, c.line + 1, 0) else Cursor(c.pos + 1, c.line, c.col + 1);
      SkipWhitespaceLines(s, next);
      var q := SkipWhitespace(s, c).pos;
      SliceCons(s, c.pos, q);
      NewlinesCons(x, s[c.pos + 1..q]);
    }
  }

  lemma {:induction false} NewlinesPositive(t: string)
    requires '\n' in t
    ensures Newlines(t) >= 1
  {
    if t[0] != '\n' {
      assert '\n' in t[1..] by {
        var i :| 0 <= i < |t| && t[i] == '\n';
        assert t[1..][i - 1] == '\n';
      }
      NewlinesPositive(t[1..]);
    }
  }

  lemma NewlinesCons(x: char, t: string)
    ensures Newlines([x] + t) == (if x == '\n' then 1 else 0) + Newlines(t)
  {
    assert ([x] + t)[1..] == t;
  }

  lemma SliceCons(s: string, i: nat, q: nat)
    requires i < q <= |s|
    ensures s[i..q] == [s[i]] + s[i + 1..q]
  {
  }

  /** A skipped line feed resets the column; any other skipped byte adds one. */
  lemma {:induction false} SkipWhitespaceColumn(s: string, c: Cursor)
    requires c.pos <= |s|
    ensures SkipWhitespace(s, c).col == ColumnAfter(s[c.pos..SkipWhitespace(s, c).pos], c.col)
    decreases |s| - c.pos
  {
    if c.pos < |s| && IsAsciiWhitespace(s[c.pos]) {
      var x := s[c.pos];
      var next := if x == '\n' then Cursor(c.pos + 1, c.line + 1, 0) else Cursor(c.pos + 1, c.line, c.col + 1);
      SkipWhitespaceColumn(s, next);
      var q := SkipWhitespace(s, c).pos;
      SliceCons(s, c.pos, q);
      ColumnAfterCons(x, s[c.pos + 1..q], c.col);
    }
  }

  /** Reading one more byte first: a line feed restarts the column at 0, any other byte adds one. */
  lemma ColumnAfterCons(x: char, t: string, col: nat)
    ensures ColumnAfter([x] + t, col) == ColumnAfter(t, if x == '\n' then 0 else col + 1)
  {
    if '\n' in t {
      LastNewlineCons(x, t);
      assert '\n' in [x] + t by { assert ([x] + t)[1..] == t; }
    } else if x == '\n' {
      assert LastNewline([x] + t) == 0;
    } else {
      assert '\n' !in [x] + t;
    }
  }

  /** The message of the error `lex` returns when nothing matches at offset `p`. */
  function FailMessage(input: string, p: nat): string
    requires p <= |input|
  {
    "Failed to lex '" + input + "' at position " + DecimalString(p) + "; remaining '" + input[p..] + "'"
  }

  /**
   * What the scanning loop returns from cursor `c` with the tokens `acc` already recorded:
   * skip whitespace, take the longest match, and either record its token and advance the
   * column by its length, or stop.
   */
  function LexFrom(rules: seq<Rule>, input: string, c: Cursor, acc: seq<Token>): LexResult
    requires c.pos <= |input|
    decreases |input| - c.pos
  {
    if c.pos == |input| then Ok(acc)
    else
      var w := SkipWhitespace(input, c);
      var found := Longest(rules, input[w.pos..], (w.line, w.col), input);
      match found.1
      case None => if w.pos == |input| then Ok(acc) else Err(LexError(FailMessage(input, w.pos)))
      case Some(t) => LexFrom(rules, input, Cursor(w.pos + found.0, w.line, w.col + found.0), acc + [t])
  }

  /** A round that finds a token records it and goes on from the cursor `next` past it. */
  lemma LexFromFound(rules: seq<Rule>, input: string, c: Cursor, acc: seq<Token>, w: Cursor, n: nat, t: Token, next: Cursor)
    requires c.pos < |input|
    requires w == SkipWhitespace(input, c)
    requires Longest(rules, input[w.pos..], (w.line, w.col), input) == (n, Some(t))
    requires next == Cursor(w.pos + n, w.line, w.col + n)
    ensures next.pos <= |input|
    ensures LexFrom(rules, input, c, acc) == LexFrom(rules, input, next, acc + [t])
  {
  }

  /** A round that finds nothing past the end of the whitespace fails at that offset. */
  lemma LexFromStuck(rules: seq<Rule>, input: string, c: Cursor, acc: seq<Token>, w: Cursor)
    requires c.pos < |input|
    requires w == SkipWhitespace(input, c) && w.pos < |input|
    requires Longest(rules, input[w.pos..], (w.line, w.col), input) == (0, None)
    ensures LexFrom(rules, input, c, acc) == Err(LexError(FailMessage(input, w.pos)))
  {
  }

  /** Lexing a whole input from its first byte, line 0, column 0. */
  function Lex(rules: seq<Rule>, input: string): LexResult
  {
    LexFrom(rules, input, Cursor(0, 0, 0), [])
  }

  /** Input that is empty or only ASCII whitespace lexes to no tokens. */
  lemma LexBlank(rules: seq<Rule>, input: string)
    requires forall i :: 0 <= i < |input| ==> IsAsciiWhitespace(input[i])
    ensures Lex(rules, input) == Ok([])
  {
    if input != [] {
      SkipWhitespaceStops(input, Cursor(0, 0, 0));
      assert SkipWhitespace(input, Cursor(0, 0, 0)).pos == |input|;
    }
  }

  /** Offset `p` holds a byte that is not whitespace and at which no rule matches. */
  predicate Stuck(rules: seq<Rule>, input: string, p: nat)
    requires p < |input|
  {
    && !IsAsciiWhitespace(input[p])
    && forall j :: 0 <= j < |rules| ==> AnchoredLen(rules[j].matcher, input[p..]) == 0
  }

  /**
   * The loop fails only where it is stuck: at an offset past the cursor whose byte is not
   * whitespace and where no rule matches, and the message names that offset.
   */
  lemma {:induction false} LexFromFails(rules: seq<Rule>, input: string, c: Cursor, acc: seq<Token>)
    requires c.pos <= |input|
    requires LexFrom(rules, input, c, acc).Err?
    ensures exists p :: (c.pos <= p < |input| && Stuck(rules, input, p)
      && LexFrom(rules, input, c, acc).error == LexError(FailMessage(input, p)))
    decreases |input| - c.pos
  {
    var w := SkipWhitespace(input, c);
    var found := Longest(rules, input[w.pos..], (w.line, w.col), input);
    if found.1.None? {
      SkipWhitespaceStops(input, c);
      assert Stuck(rules, input, w.pos);
    } else {
      var next := Cursor(w.pos + found.0, w.line, w.col + found.0);
      LexFromFound(rules, input, c, acc, w, found.0, found.1.value, next);
      LexFromFails(rules, input, next, acc + [found.1.value]);
    }
  }

  /** `a` is at or before `b` in (line, column) order. */
  predicate NotAfter(a: Position, b: Position)
  {
    a.0 < b.0 || (a.0 == b.0 && a.1 <= b.1)
  }

  /** Skipping whitespace never moves the cursor backwards in (line, column) order. */
  lemma SkipWhitespaceForward(s: string, c: Cursor)
    requires c.pos <= |s|
    ensures NotAfter((c.line, c.col), (SkipWhitespace(s, c).line, SkipWhitespace(s, c).col))
  {
    SkipWhitespaceLines(s, c);
    SkipWhitespaceColumn(s, c);
    var t := s[c.pos..SkipWhitespace(s, c).pos];
    if '\n' in t {
      NewlinesPositive(t);
    }
  }

  /**
   * A token the loop records: its span lies in the input, on one line, and is not empty; a
   * rule of the table has its variant and builds a value exactly when it is a `#[literal]`
   * rule, and that value is as long as the span is wide.
   */
  predicate WellFormed(rules: seq<Rule>, input: string, t: Token)
  {
    && t.position.source == input
    && t.position.start.0 == t.position.end.0
    && t.position.start.1 < t.position.end.1
    && (exists i :: 0 <= i < |rules| && rules[i].variant == t.variant && (t.value.Some? <==> rules[i].matcher.Literal?))
    && (t.value.Some? ==> |t.value.value| == t.position.end.1 - t.position.start.1)
  }

  /** A successful run keeps the tokens already recorded and appends only well-formed ones. */
  lemma {:induction false} LexFromTokens(rules: seq<Rule>, input: string, c: Cursor, acc: seq<Token>, ts: seq<Token>)
    requires c.pos <= |input|
    requires LexFrom(rules, input, c, acc) == Ok(ts)
    ensures acc <= ts
    ensures forall k :: |acc| <= k < |ts| ==> WellFormed(rules, input, ts[k])
    decreases |input| - c.pos
  {
    if c.pos < |input| {
      var w := SkipWhitespace(input, c);
      var found := Longest(rules, input[w.pos..], (w.line, w.col), input);
      if found.1.Some? {
        var t := found.1.value;
        var next := Cursor(w.pos + found.0, w.line, w.col + found.0);
        LexFromFound(rules, input, c, acc, w, found.0, t, next);
        LexFromTokens(rules, input, next, acc + [t], ts);
        LongestToken(rules, input[w.pos..], (w.line, w.col), input);
        assert ts[|acc|] == t;
      }
    }
  }

  /** The token a round finds ends where the next round starts. */
  lemma FoundEnds(rules: seq<Rule>, input: string, w: Cursor, n: nat, t: Token, next: Cursor)
    requires w.pos <= |input|
    requires Longest(rules, input[w.pos..], (w.line, w.col), input) == (n, Some(t))
    requires next == Cursor(w.pos + n, w.line, w.col + n)
    ensures t.position.start == (w.line, w.col)
    ensures t.position.end == (next.line, next.col)
  {
    LongestSpan(rules, input[w.pos..], (w.line, w.col), input, n, t);
  }

  /**
   * The tokens of a successful run come in source order: none starts before the cursor, and
   * each starts at or after the end of the one before it.
   */
  lemma {:induction false} LexFromOrdered(rules: seq<Rule>, input: string, c: Cursor, acc: seq<Token>, ts: seq<Token>)
    requires c.pos <= |input|
    requires LexFrom(rules, input, c, acc) == Ok(ts)
    ensures |ts| > |acc| ==> NotAfter((c.line, c.col), ts[|acc|].position.start)
    ensures forall k :: |acc| <= k < |ts| - 1 ==> NotAfter(ts[k].position.end, ts[k + 1].position.start)
    decreases |input| - c.pos
  {
    if c.pos < |input| {
      var w := SkipWhitespace(input, c);
      var found := Longest(rules, input[w.pos..], (w.line, w.col), input);
      if found.1.Some? {
        var t := found.1.value;
        var next := Cursor(w.pos + found.0, w.line, w.col + found.0);
        LexFromFound(rules, input, c, acc, w, found.0, t, next);
        LexFromOrdered(rules, input, next, acc + [t], ts);
        LexFromTokens(rules, input, next, acc + [t], ts);
        FoundEnds(rules, input, w, found.0, t, next);
        SkipWhitespaceForward(input, c);
        assert ts[|acc|] == t;
      }
    }
  }

  class Lexer {
    var tokens: seq<Token>
    const lexikon: Lexikon
    var position: nat
    var col: nat
    var line: nat
    const input: string

    ghost predicate Valid()
      reads this
    {
      position <= |input|
    }

    function At(): Cursor
      reads this
    {
      Cursor(position, line, col)
    }

    /** `Lexer::new`: at the start of `input`, with no tokens. */
    constructor (input: string, lexikon: Lexikon)
      ensures Valid()
      ensures this.input == input && this.lexikon == lexikon
      ensures tokens == [] && At() == Cursor(0, 0, 0)
    {
      this.tokens := [];
      this.lexikon := lexikon;
      this.position := 0;
      this.col := 0;
      this.line := 0;
      this.input := input;
    }

    /** `eat_whitespace`. */
    method EatWhitespace()
      requires Valid()
      modifies this`position, this`line, this`col
      ensures Valid()
      ensures At() == SkipWhitespace(input, old(At()))
    {
      while position < |input|
        invariant Valid()
        invariant SkipWhitespace(input, At()) == SkipWhitespace(input, old(At()))
        decreases |input| - position
      {
        var c := input[position];
        if !IsAsciiWhitespace(c) {
          return;
        }
        if c == '\n' {
          line := line + 1;
          col := 0;
        } else {
          col := col + 1;
        }
        position := position + 1;
      }
    }

    /**
     * `lex`: runs the scanning loop to the end of the input. Every iteration that does not
     * return moves `position` forward, so the loop runs at most once per remaining byte.
     */
    method Lex() returns (r: LexResult, ghost rounds: nat)
      requires Valid()
      modifies this
      ensures r == LexFrom(lexikon.entries, input, old(At()), old(tokens))
      ensures rounds <= |input| - old(position)
    {
      ghost var target := LexFrom(lexikon.entries, input, At(), tokens);
      rounds := 0;
      while position != |input|
        invariant Valid()
        invariant LexFrom(lexikon.entries, input, At(), tokens) == target
        invariant old(position) + rounds <= position
        decreases |input| - position
      {
        ghost var before := At();
        EatWhitespace();
        var len, res := lexikon.FindLongestMatch(input[position..], (line, col), input);
        match res {
          case Some(t) =>
            ghost var w := At();
            ghost var next := Cursor(w.pos + len, w.line, w.col + len);
            LexFromFound(lexikon.entries, input, before, tokens, w, len, t, next);
            tokens := tokens + [t];
            position := position + len;
            col := col + len;
            assert At() == next;
          case None =>
            if position == |input| {
              return Ok(tokens), rounds;
            }
            return Err(LexError(FailMessage(input, position))), rounds;
        }
        rounds := rounds + 1;
      }
      return Ok(tokens), rounds;
    }
  }

  /** `Token::lex(input)`: a fresh lexer over `input`, run to the end. */
  method Tokenize(lexikon: Lexikon, input: string) returns (r: LexResult)
    ensures r == Lex(lexikon.entries, input)
  {
    var lexer := new Lexer(input, lexikon);
    ghost var rounds;
    r, rounds := lexer.Lex();
  }
}
