/**
 * The rule table (`Lexikon`) the `#[token]` macro generates: an ordered list of rules, each a
 * pattern and the builder of its token, queried for the longest match at the start of the
 * remaining input.
 */
module RuleTable {
  import opened Wrappers
  import opened Spans
  import opened Tokens
  import opened Declarations

  /** A match found by a pattern search: where it starts in the searched text and its length. */
  datatype Match = Match(start: nat, len: nat)

  predicate Fits(m: Option<Match>, s: string)
  {
    m.None? || m.value.start + m.value.len <= |s|
  }

  /**
   * A compiled `literal` pattern: searching `s` from offset 0 (the regex engine's
   * `captures_at(s, 0)`) yields the leftmost match, which lies inside `s`, or none.
   */
  type Finder = f: string -> Option<Match> | forall s :: Fits(f(s), s) witness s => None

  /** A rule's pattern: an exact text (`terminal`) or a compiled regular expression (`literal`). */
  datatype Matcher = Terminal(lit: string) | Literal(find: Finder)

  /** A rule: its pattern and the variant its builder constructs. */
  datatype Rule = Rule(variant: string, matcher: Matcher)

  /** The leftmost position at which `lit` occurs in `s`. */
  function Occurrence(s: string, lit: string): (r: Option<nat>)
    ensures r.Some? ==> r.value + |lit| <= |s| && s[r.value..r.value + |lit|] == lit
    ensures r == Some(0) <==> lit <= s
    decreases |s|
  {
    if |lit| > |s| then None
    else if s[..|lit|] == lit then Some(0)
    else match Occurrence(s[1..], lit)
      case None => None
      case Some(k) => Some(k + 1)
  }

  /** The occurrence is the leftmost one: `lit` is a prefix of no earlier suffix of `s`, nor of any when none is found. */
  lemma {:induction false} OccurrenceLeftmost(s: string, lit: string)
    ensures var r := Occurrence(s, lit);
      && (r.Some? ==> forall k :: 0 <= k < r.value ==> !(lit <= s[k..]))
      && (r.None? ==> forall k :: 0 <= k <= |s| ==> !(lit <= s[k..]))
    decreases |s|
  {
    if |lit| <= |s| && s[..|lit|] != lit {
      OccurrenceLeftmost(s[1..], lit);
      SuffixOfTail(s);
    }
  }

  /** A suffix of `s` past its first byte is a suffix of `s[1..]`. */
  lemma SuffixOfTail(s: string)
    requires s != []
    ensures forall k :: 1 <= k <= |s| ==> s[k..] == s[1..][k - 1..]
  {
  }

  /**
   * The match a rule's pattern finds in `s`. A terminal is searched for as an escaped regular
   * expression, which finds the leftmost occurrence of its text.
   */
  function Find(m: Matcher, s: string): (r: Option<Match>)
    ensures Fits(r, s)
  {
    match m
    case Terminal(lit) =>
      (match Occurrence(s, lit)
       case None => None
       case Some(k) => Some(Match(k, |lit|)))
    case Literal(f) => f(s)
  }

  /** The length of the match of `m` that starts at offset 0 of `s`, or 0 when there is none. */
  function AnchoredLen(m: Matcher, s: string): (n: nat)
    ensures n <= |s|
  {
    match Find(m, s)
    case None => 0
    case Some(x) => if x.start == 0 then x.len else 0
  }

  /** A terminal matches at the start exactly when its (non-empty) text is a prefix. */
  lemma TerminalAnchored(lit: string, s: string)
    ensures AnchoredLen(Terminal(lit), s) == if lit <= s then |lit| else 0
  {
  }

  /**
   * The builders the macro generates: the span runs from `(line, col)` to
   * `(line, col + |matched|)` over the whole source, and a `literal` token carries the matched
   * text as its value.
   */
  function Build(rule: Rule, matched: string, pos: Position, source: string): (t: Token)
  {
    Token(rule.variant, Span(pos, (pos.0, pos.1 + |matched|), source),
          if rule.matcher.Literal? then Some(matched) else None)
  }

  /** One step of the loop in `find_longest_match`. */
  function Step(longest: (nat, Option<Token>), rule: Rule, s: string, pos: Position, source: string): (nat, Option<Token>)
  {
    match Find(rule.matcher, s)
    case None => longest
    case Some(m) =>
      if m.len > longest.0 && m.start == 0 then (m.len, Some(Build(rule, s[..m.len], pos, source)))
      else longest
  }

  /** `find_longest_match` over the rules in table order. */
  function Longest(rules: seq<Rule>, s: string, pos: Position, source: string): (r: (nat, Option<Token>))
    ensures r.1.None? <==> r.0 == 0
    ensures r.0 <= |s|
    ensures forall i :: 0 <= i < |rules| ==> AnchoredLen(rules[i].matcher, s) <= r.0
    ensures r.0 == 0 || exists i :: 0 <= i < |rules| && AnchoredLen(rules[i].matcher, s) == r.0
  {
    if rules == [] then (0, None)
    else
      var prev := Longest(rules[..|rules| - 1], s, pos, source);
      assert forall i :: 0 <= i < |rules| - 1 ==> rules[..|rules| - 1][i] == rules[i];
      Step(prev, rules[|rules| - 1], s, pos, source)
  }

  /**
   * Maximal munch with the earliest rule winning ties: when rule `i` has the longest match at
   * offset 0 and every earlier rule's is strictly shorter, the result is rule `i`'s token.
   */
  lemma {:induction false} LongestPicksFirstLongest(rules: seq<Rule>, s: string, pos: Position, source: string, i: nat)
    requires i < |rules|
    requires AnchoredLen(rules[i].matcher, s) > 0
    requires forall j :: 0 <= j < |rules| ==> AnchoredLen(rules[j].matcher, s) <= AnchoredLen(rules[i].matcher, s)
    requires forall j :: 0 <= j < i ==> AnchoredLen(rules[j].matcher, s) < AnchoredLen(rules[i].matcher, s)
    ensures var n := AnchoredLen(rules[i].matcher, s);
      Longest(rules, s, pos, source) == (n, Some(Build(rules[i], s[..n], pos, source)))
  {
    var n := AnchoredLen(rules[i].matcher, s);
    var init := rules[..|rules| - 1];
    var last := rules[|rules| - 1];
    var prev := Longest(init, s, pos, source);
    assert Longest(rules, s, pos, source) == Step(prev, last, s, pos, source);
    if i < |rules| - 1 {
      LongestPicksFirstLongest(init, s, pos, source, i);
      assert AnchoredLen(last.matcher, s) <= n;
    } else {
      assert prev.0 < n by {
        if prev.0 != 0 {
          var j :| 0 <= j < |init| && AnchoredLen(init[j].matcher, s) == prev.0;
          assert init[j] == rules[j];
        }
      }
    }
  }

  /** When no rule matches at offset 0 with a positive length, there is no token. */
  lemma LongestNone(rules: seq<Rule>, s: string, pos: Position, source: string)
    requires forall j :: 0 <= j < |rules| ==> AnchoredLen(rules[j].matcher, s) == 0
    ensures Longest(rules, s, pos, source) == (0, None)
  {
  }

  /** The token found is built by one of the rules from the first `n` bytes, where `n` is the match length. */
  lemma {:induction false} LongestToken(rules: seq<Rule>, s: string, pos: Position, source: string)
    requires Longest(rules, s, pos, source).1.Some?
    ensures var r := Longest(rules, s, pos, source);
      exists i :: 0 <= i < |rules| && r.1.value == Build(rules[i], s[..r.0], pos, source)
  {
    var init := rules[..|rules| - 1];
    var last := rules[|rules| - 1];
    var prev := Longest(init, s, pos, source);
    var r := Longest(rules, s, pos, source);
    if r == prev {
      LongestToken(init, s, pos, source);
      var i :| 0 <= i < |init| && prev.1.value == Build(init[i], s[..prev.0], pos, source);
      assert init[i] == rules[i];
    } else {
      assert r.1.value == Build(last, s[..r.0], pos, source);
    }
  }

  /** The token found spans the match: from `pos` to as many columns further on the same line. */
  lemma LongestSpan(rules: seq<Rule>, s: string, pos: Position, source: string, n: nat, t: Token)
    requires Longest(rules, s, pos, source) == (n, Some(t))
    ensures t.position == Span(pos, (pos.0, pos.1 + n), source)
  {
    LongestToken(rules, s, pos, source);
  }

  /** The table: its rules in the order the macro inserts them. */
  datatype Lexikon = Lexikon(entries: seq<Rule>)
  {
    /** `find_longest_match`: the loop keeps the best match so far, replacing it only by a strictly longer one at offset 0. */
    method FindLongestMatch(pattern: string, position: Position, source: string) returns (len: nat, res: Option<Token>)
      ensures (len, res) == Longest(entries, pattern, position, source)
    {
      var longest: (nat, Option<Token>) := (0, None);
      for i := 0 to |entries|
        invariant longest == Longest(entries[..i], pattern, position, source)
      {
        var rule := entries[i];
        assert entries[..i + 1][..i] == entries[..i];
        var found := Find(rule.matcher, pattern);
        if found.None? {
          continue;
        }
        var m := found.value;
        if m.len > longest.0 && m.start == 0 {
          longest := (m.len, Some(Build(rule, pattern[..m.len], position, source)));
        }
      }
      assert entries[..|entries|] == entries;
      len, res := longest.0, longest.1;
    }
  }

  /** The rule a declaration inserts; `compile` stands for `Regex::new` on a `literal` pattern. */
  function RuleFor(d: RuleDecl, compile: string -> Finder): Rule
  {
    match d.kind
    case TerminalKind => Rule(d.name, Terminal(d.pattern))
    case LiteralKind => Rule(d.name, Literal(compile(d.pattern)))
  }

  /** `Lexikon::new`: one `insert` per declaration, in order. */
  function NewLexikon(decls: seq<RuleDecl>, compile: string -> Finder): (lx: Lexikon)
    ensures |lx.entries| == |decls|
  {
    if decls == [] then Lexikon([])
    else Lexikon(NewLexikon(decls[..|decls| - 1], compile).entries + [RuleFor(decls[|decls| - 1], compile)])
  }

  /**
   * The table's rules follow the declaration order of the variants that carry a `terminal` or
   * `literal` attribute: rule `k` belongs to the `k`-th such variant, with that variant's kind
   * and pattern.
   */
  lemma {:induction false} TableFollowsDeclarations(vs: seq<VariantDecl>, compile: string -> Finder)
    requires RuleDecls(vs).Ok?
    ensures var rules := NewLexikon(RuleDecls(vs).value, compile).entries; var ix := KeptIndices(vs);
      |rules| == |ix| &&
      forall k :: 0 <= k < |rules| ==>
        ix[k] < |vs| && Classify(vs[ix[k]]).Ok? && Classify(vs[ix[k]]).value.Some? &&
        rules[k] == RuleFor(Classify(vs[ix[k]]).value.value, compile) && rules[k].variant == vs[ix[k]].name
  {
    var ds := RuleDecls(vs).value;
    RuleDeclsInOrder(vs);
    NewLexikonAt(ds, compile);
    forall k | 0 <= k < |ds| ensures ds[k].name == vs[KeptIndices(vs)[k]].name {
      ClassifyKeepsName(vs[KeptIndices(vs)[k]]);
    }
  }

  lemma {:induction false} NewLexikonAt(decls: seq<RuleDecl>, compile: string -> Finder)
    ensures forall k :: 0 <= k < |decls| ==> NewLexikon(decls, compile).entries[k] == RuleFor(decls[k], compile)
  {
    if decls != [] {
      var init := decls[..|decls| - 1];
      NewLexikonAt(init, compile);
      forall k | 0 <= k < |decls| - 1 ensures NewLexikon(decls, compile).entries[k] == RuleFor(decls[k], compile) {
        assert init[k] == decls[k];
      }
    }
  }
}
