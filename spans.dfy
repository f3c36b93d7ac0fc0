/**
 * `lachs::Span`: a (line, column) range in the source text together with the whole source,
 * its merge, its deliberately trivial equality, and `to_string`, which renders a diagnostic
 * excerpt of the source with the spanned text marked.
 *
 * Strings are byte strings: a column is a byte offset into its line. Colouring with `.red()` is
 * modelled by splitting the rendered text into `Plain` and `Marked` pieces.
 */
module Spans {
  import opened Wrappers
  import opened Decimal

  /** (line, column), both zero-based. */
  type Position = (nat, nat)

  datatype Span = Span(start: Position, end: Position, source: string)

  /** `Span::merge`: the range from the start of `a` to the end of `b`, over `a`'s source. */
  function Merge(a: Span, b: Span): (r: Span)
    ensures r.start == a.start && r.end == b.end && r.source == a.source
  {
    Span(a.start, b.end, a.source)
  }

  lemma MergeAssociative(a: Span, b: Span, c: Span)
    ensures Merge(Merge(a, b), c) == Merge(a, Merge(b, c))
  {
  }

  lemma MergeSelf(a: Span)
    ensures Merge(a, a) == a
  {
  }

  /** `PartialEq for Span`: every span equals every other span. */
  function SpanEq(a: Span, b: Span): (r: bool)
    ensures r
  {
    true
  }

  /** Span equality is an equivalence relation, whatever the start, end and source. */
  lemma SpanEqIsEquivalence(a: Span, b: Span, c: Span)
    ensures SpanEq(a, a)
    ensures SpanEq(a, b) == SpanEq(b, a)
    ensures SpanEq(a, b) && SpanEq(b, c) ==> SpanEq(a, c)
  {
  }

  // ---------------------------------------------------------------------------------------
  // Splitting the source into lines (`str::lines`, on '\n')

  function IndexOf(s: string, c: char): (r: Option<nat>)
    ensures r.Some? ==> r.value < |s| && s[r.value] == c && c !in s[..r.value]
    ensures r.None? ==> c !in s
  {
    if s == [] then None
    else if s[0] == c then Some(0)
    else match IndexOf(s[1..], c)
      case None => None
      case Some(k) => Some(k + 1)
  }

  /**
   * The lines of `s`: the pieces between '\n' separators, where a final '\n' does not start
   * another (empty) line, and the empty string has no lines at all.
   */
  function Lines(s: string): (ls: seq<string>)
    ensures forall i :: 0 <= i < |ls| ==> '\n' !in ls[i]
    ensures s != [] ==> |ls| >= 1
    decreases |s|
  {
    if s == [] then []
    else match IndexOf(s, '\n')
      case None => [s]
      case Some(k) => [s[..k]] + Lines(s[k + 1..])
  }

  /** The rows of `rows`, separated by '\n'. */
  function Join(rows: seq<string>): string
  {
    if |rows| == 0 then []
    else if |rows| == 1 then rows[0]
    else rows[0] + "\n" + Join(rows[1..])
  }

  function EndsWithNewline(s: string): bool
  {
    |s| > 0 && s[|s| - 1] == '\n'
  }

  /** The first line of `s` runs up to its first '\n'; the rest are the lines after it. */
  lemma LinesStep(s: string, k: nat)
    requires s != [] && IndexOf(s, '\n') == Some(k)
    ensures Lines(s) == [s[..k]] + Lines(s[k + 1..])
  {
  }

  lemma SplitAt(s: string, k: nat)
    requires k < |s| && s[k] == '\n'
    ensures s == s[..k] + "\n" + s[k + 1..]
  {
    assert s == s[..k] + s[k..];
    assert s[k..] == [s[k]] + s[k + 1..];
  }

  /** The text rebuilt from the lines of `s`, with a final '\n' put back if `s` had one. */
  function Restored(s: string): string
  {
    Join(Lines(s)) + (if EndsWithNewline(s) then "\n" else "")
  }

  /** One round of the round trip: the first line, its '\n', then the rest restored. */
  lemma RestoredStep(s: string, k: nat)
    requires s != [] && IndexOf(s, '\n') == Some(k)
    requires Restored(s[k + 1..]) == s[k + 1..]
    ensures Restored(s) == s
  {
    var t := s[k + 1..];
    LinesStep(s, k);
    SplitAt(s, k);
    if t == [] {
      assert Lines(s) == [s[..k]];
    } else {
      JoinCons(s[..k], Lines(t));
      assert EndsWithNewline(s) == EndsWithNewline(t);
    }
  }

  /** Joining the lines of `s` gives `s` back, up to a final newline. */
  lemma {:induction false} LinesRoundTrip(s: string)
    ensures Join(Lines(s)) + (if EndsWithNewline(s) then "\n" else "") == s
    decreases |s|
  {
    if s != [] {
      match IndexOf(s, '\n')
      case None =>
        assert Lines(s) == [s];
        assert s[|s| - 1] in s;
      case Some(k) =>
        LinesRoundTrip(s[k + 1..]);
        RestoredStep(s, k);
    }
  }

  /** Rows without newlines, the last one non-empty, are the lines of their join. */
  lemma {:induction false} LinesOfJoin(rows: seq<string>)
    requires forall i :: 0 <= i < |rows| ==> '\n' !in rows[i]
    requires |rows| > 0 ==> rows[|rows| - 1] != []
    ensures Lines(Join(rows)) == rows
  {
    if |rows| == 1 {
      assert IndexOf(rows[0], '\n') == None;
    } else if |rows| > 1 {
      var s := Join(rows);
      assert s == rows[0] + "\n" + Join(rows[1..]);
      LinesOfJoin(rows[1..]);
      var k := |rows[0]|;
      assert s[..k] == rows[0];
      assert s[k] == '\n';
      assert s[k + 1..] == Join(rows[1..]);
      assert IndexOf(s, '\n') == Some(k);
    }
  }

  // ---------------------------------------------------------------------------------------
  // The diagnostic excerpt (`Span::to_string`)

  /** A piece of rendered text, either plain or coloured red. */
  datatype Piece = Plain(text: string) | Marked(text: string)

  /** The rendered text with its colouring removed. */
  function Text(ps: seq<Piece>): string
  {
    if ps == [] then [] else Text(ps[..|ps| - 1]) + ps[|ps| - 1].text
  }

  /** The texts of the marked pieces, in order. */
  function MarkedTexts(ps: seq<Piece>): seq<string>
  {
    if ps == [] then []
    else MarkedTexts(ps[..|ps| - 1]) + (if ps[|ps| - 1].Marked? then [ps[|ps| - 1].text] else [])
  }

  function Spaces(n: nat): (s: string)
    ensures |s| == n && forall i :: 0 <= i < n ==> s[i] == ' '
  {
    if n == 0 then [] else Spaces(n - 1) + " "
  }

  /**
   * The conditions under which `to_string` does not panic: the first line exists and the start
   * column lies within it; on a single line the end column lies between the start column and the
   * end of the line; on several lines the last line exists; and the end column is at least 1,
   * since the caret padding is `end.1 - 1` in unsigned arithmetic.
   */
  predicate Renderable(sp: Span)
  {
    var lines := Lines(sp.source);
    && sp.start.0 < |lines|
    && sp.start.1 <= |lines[sp.start.0]|
    && (sp.start.0 == sp.end.0 ==> sp.start.1 <= sp.end.1 <= |lines[sp.start.0]|)
    && (sp.start.0 < sp.end.0 ==> sp.end.0 < |lines|)
    && sp.end.1 >= 1
  }

  /** The gutter fill: as many spaces as `end.0` has decimal digits. */
  function Gutter(sp: Span): string
  {
    Spaces(|DecimalString(sp.end.0)|)
  }

  /** The line before the first spanned line, or nothing on the first line of the source. */
  function ContextLine(sp: Span): string
    requires Renderable(sp)
  {
    if sp.start.0 > 0 then Lines(sp.source)[sp.start.0 - 1] else ""
  }

  /** The first spanned line, split at the start column (and at the end column on one line). */
  function FirstLinePieces(sp: Span): seq<Piece>
    requires Renderable(sp)
  {
    var line := Lines(sp.source)[sp.start.0];
    var left, right := line[..sp.start.1], line[sp.start.1..];
    if sp.start.0 != sp.end.0 then [Plain(left), Marked(right)]
    else
      var k := sp.end.1 - sp.start.1;
      [Plain(left), Marked(right[..k]), Plain(right[k..])]
  }

  /** The whole lines `lo .. hi - 1`, each on a row of its own and marked. */
  function MarkedRows(lines: seq<string>, fill: string, lo: nat, hi: nat): seq<Piece>
    requires lo < hi ==> hi <= |lines|
    decreases hi
  {
    if hi <= lo then []
    else MarkedRows(lines, fill, lo, hi - 1) + [Plain("\n" + fill + " |"), Marked(lines[hi - 1])]
  }

  function ExcerptHead(sp: Span): Piece
    requires Renderable(sp)
  {
    var fill := Gutter(sp);
    Plain(fill + " |" + "\n" + fill + " |" + ContextLine(sp) + " " + "\n" + DecimalString(sp.start.0 + 1) + " |")
  }

  /** The caret row: labelled `end.0 + 2`, padded by `end.1 - 1` spaces, then `^--- msg`. */
  function CaretRow(sp: Span, msg: string): string
    requires Renderable(sp)
  {
    DecimalString(sp.end.0 + 2) + " |" + Spaces(sp.end.1 - 1) + "^--- " + msg
  }

  function ExcerptFoot(sp: Span, msg: string): Piece
    requires Renderable(sp)
  {
    Plain("\n" + CaretRow(sp, msg) + "\n" + Gutter(sp) + " |")
  }

  /** What `to_string` renders for `sp` and `msg`. */
  function Excerpt(sp: Span, msg: string): seq<Piece>
    requires Renderable(sp)
  {
    [ExcerptHead(sp)] + FirstLinePieces(sp)
    + MarkedRows(Lines(sp.source), Gutter(sp), sp.start.0 + 1, sp.end.0 + 1)
    + [ExcerptFoot(sp, msg)]
  }

  /**
   * The loop of `to_string` over the lines `lo .. hi - 1`: each gets a gutter row and is marked
   * whole.
   */
  method AppendMarkedRows(head: seq<Piece>, lines: seq<string>, fill: string, lo: nat, hi: nat)
    returns (r: seq<Piece>)
    requires lo < hi ==> hi <= |lines|
    ensures r == head + MarkedRows(lines, fill, lo, hi)
  {
    r := head;
    var n := lo;
    while n < hi
      invariant lo <= n && (n <= hi || n == lo)
      invariant r == head + MarkedRows(lines, fill, lo, n)
    {
      MarkedRowsGrow(head, lines, fill, lo, n);
      r := r + [Plain("\n" + fill + " |"), Marked(lines[n])];
      n := n + 1;
    }
    MarkedRowsDone(lines, fill, lo, n, hi);
  }

  /** One more row extends the marked rows after a fixed head. */
  lemma MarkedRowsGrow(head: seq<Piece>, lines: seq<string>, fill: string, lo: nat, n: nat)
    requires lo <= n < |lines|
    ensures head + MarkedRows(lines, fill, lo, n) + [Plain("\n" + fill + " |"), Marked(lines[n])]
         == head + MarkedRows(lines, fill, lo, n + 1)
  {
    assert MarkedRows(lines, fill, lo, n + 1) == MarkedRows(lines, fill, lo, n) + [Plain("\n" + fill + " |"), Marked(lines[n])];
  }

  /** Once the loop stops, the rows built are all the rows up to `hi`. */
  lemma MarkedRowsDone(lines: seq<string>, fill: string, lo: nat, n: nat, hi: nat)
    requires lo <= n && (n <= hi || n == lo) && hi <= n
    requires lo < hi ==> hi <= |lines|
    ensures MarkedRows(lines, fill, lo, n) == MarkedRows(lines, fill, lo, hi)
  {
  }

  /** `Span::to_string`: builds the excerpt row by row. */
  method ToString(sp: Span, msg: string) returns (r: seq<Piece>)
    requires Renderable(sp)
    ensures r == Excerpt(sp, msg)
  {
    var lines := Lines(sp.source);
    var fill := Spaces(|DecimalString(sp.end.0)|);
    var errorString := FirstRows(sp, fill);
    ghost var head := errorString;
    errorString := AppendMarkedRows(errorString, lines, fill, sp.start.0 + 1, sp.end.0 + 1);
    var padding := Spaces(sp.end.1 - 1);
    var caret := DecimalString(sp.end.0 + 2) + " |" + padding + "^--- " + msg;
    var foot := Plain("\n" + caret + "\n" + fill + " |");
    FootAssembled(sp, msg, padding, fill);
    ExcerptAssembled(sp, msg, head, MarkedRows(lines, fill, sp.start.0 + 1, sp.end.0 + 1), foot);
    errorString := errorString + [foot];
    r := errorString;
  }

  /**
   * The start of `to_string`'s output: the gutter rows with the context line, then the first
   * spanned line split at the start column (and at the end column on a single line).
   */
  method FirstRows(sp: Span, fill: string) returns (r: seq<Piece>)
    requires Renderable(sp) && fill == Gutter(sp)
    ensures r == [ExcerptHead(sp)] + FirstLinePieces(sp)
  {
    var lines := Lines(sp.source);
    var line := sp.start.0;
    var prevLine := if line > 0 then lines[line - 1] else "";
    var lineStr := lines[line];
    var left, right := lineStr[..sp.start.1], lineStr[sp.start.1..];
    var first: seq<Piece>;
    if sp.start.0 != sp.end.0 {
      first := [Plain(left), Marked(right)];
    } else {
      var k := sp.end.1 - sp.start.1;
      first := [Plain(left), Marked(right[..k]), Plain(right[k..])];
    }
    r := [Plain(fill + " |" + "\n" + fill + " |" + prevLine + " " + "\n" + DecimalString(line + 1) + " |")] + first;
  }

  /** The closing piece `to_string` appends is the excerpt's foot. */
  lemma FootAssembled(sp: Span, msg: string, padding: string, fill: string)
    requires Renderable(sp)
    requires padding == Spaces(sp.end.1 - 1) && fill == Gutter(sp)
    ensures Plain("\n" + (DecimalString(sp.end.0 + 2) + " |" + padding + "^--- " + msg) + "\n" + fill + " |")
         == ExcerptFoot(sp, msg)
  {
  }

  /** The head with the first line, the rows and the foot make up the excerpt. */
  lemma ExcerptAssembled(sp: Span, msg: string, head: seq<Piece>, rows: seq<Piece>, foot: Piece)
    requires Renderable(sp)
    requires head == [ExcerptHead(sp)] + FirstLinePieces(sp)
    requires rows == MarkedRows(Lines(sp.source), Gutter(sp), sp.start.0 + 1, sp.end.0 + 1)
    requires foot == ExcerptFoot(sp, msg)
    ensures head + rows + [foot] == Excerpt(sp, msg)
  {
  }

  // ---------------------------------------------------------------------------------------
  // What the excerpt shows

  lemma {:induction false} MarkedTextsAppend(a: seq<Piece>, b: seq<Piece>)
    ensures MarkedTexts(a + b) == MarkedTexts(a) + MarkedTexts(b)
    decreases |b|
  {
    if b != [] {
      assert (a + b)[..|a + b| - 1] == a + b[..|b| - 1];
      MarkedTextsAppend(a, b[..|b| - 1]);
    } else {
      assert a + b == a;
    }
  }

  lemma {:induction false} TextAppend(a: seq<Piece>, b: seq<Piece>)
    ensures Text(a + b) == Text(a) + Text(b)
    decreases |b|
  {
    if b != [] {
      assert (a + b)[..|a + b| - 1] == a + b[..|b| - 1];
      TextAppend(a, b[..|b| - 1]);
    } else {
      assert a + b == a;
    }
  }

  lemma PlainThenMarked(p: string, q: string)
    ensures Text([Plain(p), Marked(q)]) == p + q
    ensures MarkedTexts([Plain(p), Marked(q)]) == [q]
  {
    var ps := [Plain(p), Marked(q)];
    assert ps[..1] == [Plain(p)];
    assert [Plain(p)][..0] == [];
    assert Text([Plain(p)]) == Text([]) + p;
    assert Text(ps) == Text([Plain(p)]) + q;
    assert MarkedTexts([Plain(p)]) == MarkedTexts([]);
    assert MarkedTexts(ps) == MarkedTexts([Plain(p)]) + [q];
  }

  lemma PlainMarkedPlain(p: string, q: string, t: string)
    ensures Text([Plain(p), Marked(q), Plain(t)]) == p + q + t
    ensures MarkedTexts([Plain(p), Marked(q), Plain(t)]) == [q]
  {
    assert [Plain(p), Marked(q), Plain(t)][..2] == [Plain(p), Marked(q)];
    PlainThenMarked(p, q);
  }

  /** The marked rows mark exactly the lines `lo .. hi - 1`, in order. */
  lemma {:induction false} MarkedRowsMark(lines: seq<string>, fill: string, lo: nat, hi: nat)
    requires lo < hi ==> hi <= |lines|
    ensures MarkedTexts(MarkedRows(lines, fill, lo, hi)) == if lo < hi then lines[lo..hi] else []
    decreases hi
  {
    if lo < hi {
      MarkedRowsMark(lines, fill, lo, hi - 1);
      MarkedTextsAppend(MarkedRows(lines, fill, lo, hi - 1), [Plain("\n" + fill + " |"), Marked(lines[hi - 1])]);
      PlainThenMarked("\n" + fill + " |", lines[hi - 1]);
      SliceSnoc(lines, lo, hi);
    }
  }

  lemma SliceSnoc<T>(xs: seq<T>, lo: nat, hi: nat)
    requires lo < hi <= |xs|
    ensures (if lo < hi - 1 then xs[lo..hi - 1] else []) + [xs[hi - 1]] == xs[lo..hi]
  {
    assert xs[lo..hi] == xs[lo..hi - 1] + [xs[hi - 1]];
  }

  lemma MarkedTextsOfFour(a: seq<Piece>, b: seq<Piece>, c: seq<Piece>, d: seq<Piece>)
    ensures MarkedTexts(a + b + c + d) == MarkedTexts(a) + MarkedTexts(b) + MarkedTexts(c) + MarkedTexts(d)
  {
    MarkedTextsAppend(a + b + c, d);
    MarkedTextsAppend(a + b, c);
    MarkedTextsAppend(a, b);
  }

  lemma TextOfFour(a: seq<Piece>, b: seq<Piece>, c: seq<Piece>, d: seq<Piece>)
    ensures Text(a + b + c + d) == Text(a) + Text(b) + Text(c) + Text(d)
  {
    TextAppend(a + b + c, d);
    TextAppend(a + b, c);
    TextAppend(a, b);
  }

  /** The first spanned line's pieces restore the line and mark only its spanned part. */
  lemma FirstLineSplit(sp: Span)
    requires Renderable(sp)
    ensures var line := Lines(sp.source)[sp.start.0];
      && Text(FirstLinePieces(sp)) == line
      && MarkedTexts(FirstLinePieces(sp))
         == if sp.start.0 == sp.end.0 then [line[sp.start.1..sp.end.1]] else [line[sp.start.1..]]
  {
    var line := Lines(sp.source)[sp.start.0];
    var left, right := line[..sp.start.1], line[sp.start.1..];
    if sp.start.0 == sp.end.0 {
      var k := sp.end.1 - sp.start.1;
      PlainMarkedPlain(left, right[..k], right[k..]);
      assert right[..k] == line[sp.start.1..sp.end.1];
      assert left + right[..k] + right[k..] == line;
    } else {
      PlainThenMarked(left, right);
      assert left + right == line;
    }
  }

  /** Plain pieces around the body mark nothing. */
  lemma MarkedTextsFramed(h: Piece, body: seq<Piece>, rows: seq<Piece>, f: Piece)
    requires h.Plain? && f.Plain?
    ensures MarkedTexts([h] + body + rows + [f]) == MarkedTexts(body) + MarkedTexts(rows)
  {
    MarkedTextsPlain(h);
    MarkedTextsPlain(f);
    MarkedTextsBetween([h], body, rows, [f]);
  }

  /** Pieces that mark nothing before and after leave only the marks in between. */
  lemma MarkedTextsBetween(a: seq<Piece>, b: seq<Piece>, c: seq<Piece>, d: seq<Piece>)
    requires MarkedTexts(a) == [] && MarkedTexts(d) == []
    ensures MarkedTexts(a + b + c + d) == MarkedTexts(b) + MarkedTexts(c)
  {
    MarkedTextsOfFour(a, b, c, d);
    assert [] + MarkedTexts(b) + MarkedTexts(c) + [] == MarkedTexts(b) + MarkedTexts(c);
  }

  /** A single plain piece marks nothing. */
  lemma MarkedTextsPlain(p: Piece)
    requires p.Plain?
    ensures MarkedTexts([p]) == []
  {
    assert [p][..0] == [];
  }

  /**
   * Exactly the spanned text is marked: on a single line the columns `start.1 .. end.1 - 1`;
   * across lines the rest of the first line from `start.1`, then every line
   * `start.0 + 1 ..= end.0` whole, in order.
   */
  lemma ExcerptMarks(sp: Span, msg: string)
    requires Renderable(sp)
    ensures var lines := Lines(sp.source); var line := lines[sp.start.0];
      MarkedTexts(Excerpt(sp, msg)) ==
        (if sp.start.0 == sp.end.0 then [line[sp.start.1..sp.end.1]] else [line[sp.start.1..]])
        + (if sp.start.0 < sp.end.0 then lines[sp.start.0 + 1..sp.end.0 + 1] else [])
  {
    if sp.start.0 == sp.end.0 {
      ExcerptMarksOneLine(sp, msg);
    } else if sp.start.0 < sp.end.0 {
      ExcerptMarksAcross(sp, msg);
    } else {
      ExcerptMarksBackwards(sp, msg);
    }
  }

  lemma ExcerptMarksOneLine(sp: Span, msg: string)
    requires Renderable(sp) && sp.start.0 == sp.end.0
    ensures MarkedTexts(Excerpt(sp, msg)) == [Lines(sp.source)[sp.start.0][sp.start.1..sp.end.1]]
  {
    var lines := Lines(sp.source);
    FramedMarksOneLine(ExcerptHead(sp), FirstLinePieces(sp), MarkedRows(lines, Gutter(sp), sp.start.0 + 1, sp.end.0 + 1),
      ExcerptFoot(sp, msg), lines, Gutter(sp), lines[sp.start.0], sp.start.1, sp.end.1, sp.start.0 + 1, sp.end.0 + 1);
  }

  lemma ExcerptMarksAcross(sp: Span, msg: string)
    requires Renderable(sp) && sp.start.0 < sp.end.0
    ensures var lines := Lines(sp.source);
      MarkedTexts(Excerpt(sp, msg)) == [lines[sp.start.0][sp.start.1..]] + lines[sp.start.0 + 1..sp.end.0 + 1]
  {
    var lines := Lines(sp.source);
    FramedMarksAcross(ExcerptHead(sp), FirstLinePieces(sp), MarkedRows(lines, Gutter(sp), sp.start.0 + 1, sp.end.0 + 1),
      ExcerptFoot(sp, msg), lines, Gutter(sp), lines[sp.start.0], sp.start.1, sp.start.0 + 1, sp.end.0 + 1);
  }

  lemma ExcerptMarksBackwards(sp: Span, msg: string)
    requires Renderable(sp) && sp.start.0 > sp.end.0
    ensures MarkedTexts(Excerpt(sp, msg)) == [Lines(sp.source)[sp.start.0][sp.start.1..]]
  {
    var lines := Lines(sp.source);
    FramedMarksBackwards(ExcerptHead(sp), FirstLinePieces(sp), MarkedRows(lines, Gutter(sp), sp.start.0 + 1, sp.end.0 + 1),
      ExcerptFoot(sp, msg), lines, Gutter(sp), lines[sp.start.0], sp.start.1, sp.start.0 + 1, sp.end.0 + 1);
  }

  /** A frame around a line split in three and no further rows marks the middle part of the line. */
  lemma FramedMarksOneLine(h: Piece, body: seq<Piece>, rows: seq<Piece>, f: Piece,
                           lines: seq<string>, fill: string, line: string, col: nat, to: nat, lo: nat, hi: nat)
    requires h.Plain? && f.Plain? && col <= to <= |line| && hi <= lo
    requires body == [Plain(line[..col]), Marked(line[col..][..to - col]), Plain(line[col..][to - col..])]
    requires rows == MarkedRows(lines, fill, lo, hi)
    ensures MarkedTexts([h] + body + rows + [f]) == [line[col..to]]
  {
    MarkedTextsFramed(h, body, rows, f);
    PlainMarkedPlain(line[..col], line[col..][..to - col], line[col..][to - col..]);
    assert line[col..][..to - col] == line[col..to];
  }

  /** A frame around a line split once and the rows after it marks the rest of the line, then the rows. */
  lemma FramedMarksAcross(h: Piece, body: seq<Piece>, rows: seq<Piece>, f: Piece,
                          lines: seq<string>, fill: string, line: string, col: nat, lo: nat, hi: nat)
    requires h.Plain? && f.Plain? && col <= |line| && lo < hi <= |lines|
    requires body == [Plain(line[..col]), Marked(line[col..])]
    requires rows == MarkedRows(lines, fill, lo, hi)
    ensures MarkedTexts([h] + body + rows + [f]) == [line[col..]] + lines[lo..hi]
  {
    MarkedTextsFramed(h, body, rows, f);
    PlainThenMarked(line[..col], line[col..]);
    MarkedRowsMark(lines, fill, lo, hi);
  }

  /** A frame around a line split once and no further rows marks the rest of the line. */
  lemma FramedMarksBackwards(h: Piece, body: seq<Piece>, rows: seq<Piece>, f: Piece,
                             lines: seq<string>, fill: string, line: string, col: nat, lo: nat, hi: nat)
    requires h.Plain? && f.Plain? && col <= |line| && hi <= lo
    requires body == [Plain(line[..col]), Marked(line[col..])]
    requires rows == MarkedRows(lines, fill, lo, hi)
    ensures MarkedTexts([h] + body + rows + [f]) == [line[col..]]
  {
    MarkedTextsFramed(h, body, rows, f);
    PlainThenMarked(line[..col], line[col..]);
  }

  /** The rows for the whole lines `lo .. hi - 1` in the plain text. */
  function LineRows(lines: seq<string>, fill: string, lo: nat, hi: nat): (rows: seq<string>)
    requires lo < hi ==> hi <= |lines|
    ensures |rows| == if lo < hi then hi - lo else 0
  {
    if lo < hi then seq(hi - lo, i requires 0 <= i < hi - lo => fill + " |" + lines[lo + i]) else []
  }

  /**
   * The rows of the excerpt once its colouring is removed: two gutter rows (the second showing
   * the context line), the first spanned line labelled `start.0 + 1`, one gutter row per further
   * spanned line, the caret row labelled `end.0 + 2` and padded by `end.1 - 1` spaces before
   * `^--- msg`, and a closing gutter row.
   */
  function ExcerptRows(sp: Span, msg: string): seq<string>
    requires Renderable(sp)
  {
    var lines := Lines(sp.source);
    var fill := Gutter(sp);
    [fill + " |", fill + " |" + ContextLine(sp) + " ", DecimalString(sp.start.0 + 1) + " |" + lines[sp.start.0]]
    + LineRows(lines, fill, sp.start.0 + 1, sp.end.0 + 1)
    + [CaretRow(sp, msg), fill + " |"]
  }

  lemma {:induction false} JoinAppend(a: seq<string>, b: seq<string>)
    requires |a| > 0 && |b| > 0
    ensures Join(a + b) == Join(a) + "\n" + Join(b)
  {
    if |a| == 1 {
      assert (a + b)[1..] == b;
    } else {
      assert (a + b)[1..] == a[1..] + b;
      JoinAppend(a[1..], b);
    }
  }

  lemma LineRowsSnoc(lines: seq<string>, fill: string, lo: nat, hi: nat)
    requires lo < hi <= |lines|
    ensures LineRows(lines, fill, lo, hi) == LineRows(lines, fill, lo, hi - 1) + [fill + " |" + lines[hi - 1]]
  {
    var a := LineRows(lines, fill, lo, hi);
    var init := LineRows(lines, fill, lo, hi - 1);
    var b := init + [fill + " |" + lines[hi - 1]];
    assert |a| == |b|;
    forall i | 0 <= i < |a| ensures a[i] == b[i] {
      assert a[i] == fill + " |" + lines[lo + i];
      if i < |init| {
        assert b[i] == init[i] == fill + " |" + lines[lo + i];
      }
    }
  }

  lemma JoinCons(row: string, tail: seq<string>)
    requires |tail| > 0
    ensures Join([row] + tail) == row + "\n" + Join(tail)
  {
    assert ([row] + tail)[1..] == tail;
  }

  lemma GutterThenLine(fill: string, line: string)
    ensures "\n" + fill + " |" + line == "\n" + (fill + " |" + line)
  {
  }

  lemma MarkedRowsSnocText(lines: seq<string>, fill: string, lo: nat, hi: nat)
    requires lo < hi <= |lines|
    ensures Text(MarkedRows(lines, fill, lo, hi))
         == Text(MarkedRows(lines, fill, lo, hi - 1)) + ("\n" + (fill + " |" + lines[hi - 1]))
  {
    var gutter := "\n" + fill + " |";
    TextAppend(MarkedRows(lines, fill, lo, hi - 1), [Plain(gutter), Marked(lines[hi - 1])]);
    PlainThenMarked(gutter, lines[hi - 1]);
    GutterThenLine(fill, lines[hi - 1]);
  }

  lemma SnocThenTail<T>(a: seq<T>, x: T, b: seq<T>, tail: seq<T>)
    requires b == a + [x]
    ensures b + tail == a + ([x] + tail)
  {
  }

  lemma ConcatStep(x: string, before: string, row: string, j: string, y: string)
    requires x == before + "\n" + (row + "\n" + j)
    requires y == before + ("\n" + row)
    ensures x == y + "\n" + j
  {
  }

  lemma {:induction false} MarkedRowsText(lines: seq<string>, fill: string, lo: nat, hi: nat, tail: seq<string>)
    requires lo < hi ==> hi <= |lines|
    requires |tail| > 0
    ensures "\n" + Join(LineRows(lines, fill, lo, hi) + tail)
         == Text(MarkedRows(lines, fill, lo, hi)) + "\n" + Join(tail)
    decreases hi
  {
    if lo >= hi {
      assert LineRows(lines, fill, lo, hi) + tail == tail;
    } else {
      var row := fill + " |" + lines[hi - 1];
      var shorter := LineRows(lines, fill, lo, hi - 1);
      LineRowsSnoc(lines, fill, lo, hi);
      SnocThenTail(shorter, row, LineRows(lines, fill, lo, hi), tail);
      MarkedRowsText(lines, fill, lo, hi - 1, [row] + tail);
      JoinCons(row, tail);
      MarkedRowsSnocText(lines, fill, lo, hi);
      ConcatStep("\n" + Join(LineRows(lines, fill, lo, hi) + tail), Text(MarkedRows(lines, fill, lo, hi - 1)),
                 row, Join(tail), Text(MarkedRows(lines, fill, lo, hi)));
    }
  }

  /**
   * Without colouring the excerpt is its rows joined by '\n'; in particular the pieces of the
   * first spanned line concatenate back to that line.
   */
  lemma ExcerptText(sp: Span, msg: string)
    requires Renderable(sp)
    ensures Text(Excerpt(sp, msg)) == Join(ExcerptRows(sp, msg))
  {
    var lines := Lines(sp.source);
    var fill := Gutter(sp);
    var middle := LineRows(lines, fill, sp.start.0 + 1, sp.end.0 + 1);
    var tail := [CaretRow(sp, msg), fill + " |"];
    ExcerptTextPieces(sp, msg);
    ExcerptRowsJoin(sp, msg);
    RowsThenTail(lines, fill, sp.start.0 + 1, sp.end.0 + 1, CaretRow(sp, msg));
    ExcerptTextAssoc(fill, ContextLine(sp), DecimalString(sp.start.0 + 1), lines[sp.start.0],
      Text(MarkedRows(lines, fill, sp.start.0 + 1, sp.end.0 + 1)), Join(middle + tail), CaretRow(sp, msg),
      Text(Excerpt(sp, msg)), Join(ExcerptRows(sp, msg)));
  }

  /** The excerpt's text: its head, the first spanned line, the further rows and its foot. */
  lemma ExcerptTextPieces(sp: Span, msg: string)
    requires Renderable(sp)
    ensures Text(Excerpt(sp, msg)) == ExcerptHead(sp).text + Lines(sp.source)[sp.start.0]
      + Text(MarkedRows(Lines(sp.source), Gutter(sp), sp.start.0 + 1, sp.end.0 + 1)) + ExcerptFoot(sp, msg).text
  {
    TextOfFour([ExcerptHead(sp)], FirstLinePieces(sp), MarkedRows(Lines(sp.source), Gutter(sp), sp.start.0 + 1, sp.end.0 + 1),
      [ExcerptFoot(sp, msg)]);
    FirstLineSplit(sp);
    TextSingle(ExcerptHead(sp));
    TextSingle(ExcerptFoot(sp, msg));
  }

  /** The excerpt's rows joined: the three head rows, then the rest. */
  lemma ExcerptRowsJoin(sp: Span, msg: string)
    requires Renderable(sp)
    ensures var lines := Lines(sp.source); var fill := Gutter(sp);
      Join(ExcerptRows(sp, msg))
        == (fill + " |") + "\n" + ((fill + " |" + ContextLine(sp) + " ") + "\n"
           + ((DecimalString(sp.start.0 + 1) + " |") + lines[sp.start.0])) + "\n"
           + Join(LineRows(lines, fill, sp.start.0 + 1, sp.end.0 + 1) + [CaretRow(sp, msg), fill + " |"])
  {
    var lines := Lines(sp.source);
    var fill := Gutter(sp);
    var middle := LineRows(lines, fill, sp.start.0 + 1, sp.end.0 + 1);
    var tail := [CaretRow(sp, msg), fill + " |"];
    var r0, r1, r2 := fill + " |", fill + " |" + ContextLine(sp) + " ", DecimalString(sp.start.0 + 1) + " |" + lines[sp.start.0];
    assert ExcerptRows(sp, msg) == [r0, r1, r2] + (middle + tail);
    JoinAppend([r0, r1, r2], middle + tail);
    JoinThree(r0, r1, r2);
  }

  /** After the head rows: the further rows, then the caret row and the closing gutter row. */
  lemma RowsThenTail(lines: seq<string>, fill: string, lo: nat, hi: nat, caret: string)
    requires lo < hi ==> hi <= |lines|
    ensures "\n" + Join(LineRows(lines, fill, lo, hi) + [caret, fill + " |"])
         == Text(MarkedRows(lines, fill, lo, hi)) + "\n" + (caret + "\n" + (fill + " |"))
  {
    MarkedRowsText(lines, fill, lo, hi, [caret, fill + " |"]);
    JoinCons(caret, [fill + " |"]);
    assert [caret] + [fill + " |"] == [caret, fill + " |"];
  }

  lemma TextSingle(p: Piece)
    ensures Text([p]) == p.text
  {
    assert [p][..0] == [];
  }

  lemma ExcerptTextAssoc(fill: string, ctx: string, dec: string, line: string, rows: string, rest: string,
                         caret: string, x: string, y: string)
    requires x == (fill + " |" + "\n" + fill + " |" + ctx + " " + "\n" + dec + " |") + line + rows
                  + ("\n" + caret + "\n" + fill + " |")
    requires "\n" + rest == rows + "\n" + (caret + "\n" + (fill + " |"))
    requires y == (fill + " |") + "\n" + ((fill + " |" + ctx + " ") + "\n" + ((dec + " |") + line)) + "\n" + rest
    ensures x == y
  {
    var a := fill + " |" + "\n" + fill + " |" + ctx + " " + "\n" + dec + " |" + line;
    assert (fill + " |") + "\n" + ((fill + " |" + ctx + " ") + "\n" + ((dec + " |") + line)) == a;
    assert y == a + ("\n" + rest);
    assert "\n" + caret + "\n" + fill + " |" == "\n" + (caret + "\n" + (fill + " |"));
    assert x == a + (rows + ("\n" + (caret + "\n" + (fill + " |"))));
  }

  lemma JoinThree(a: string, b: string, c: string)
    ensures Join([a, b, c]) == a + "\n" + (b + "\n" + c)
  {
    assert [a, b, c][1..] == [b, c];
    assert [b, c][1..] == [c];
    assert Join([c]) == c;
    assert Join([b, c]) == b + "\n" + Join([c]);
    assert Join([a, b, c]) == a + "\n" + Join([b, c]);
  }

  /** When the message has no newline, the rows are exactly the lines of the uncoloured excerpt. */
  lemma ExcerptLines(sp: Span, msg: string)
    requires Renderable(sp)
    requires '\n' !in msg
    ensures Lines(Text(Excerpt(sp, msg))) == ExcerptRows(sp, msg)
  {
    ExcerptText(sp, msg);
    ExcerptRowsSingleLine(sp, msg);
    LinesOfJoin(ExcerptRows(sp, msg));
  }

  predicate SingleLines(rows: seq<string>)
  {
    forall i :: 0 <= i < |rows| ==> '\n' !in rows[i]
  }

  lemma SingleLinesAppend(a: seq<string>, b: seq<string>)
    requires SingleLines(a) && SingleLines(b)
    ensures SingleLines(a + b)
  {
    forall i | 0 <= i < |a + b| ensures '\n' !in (a + b)[i] {
      if i >= |a| {
        assert (a + b)[i] == b[i - |a|];
      }
    }
  }

  lemma NoNewlineConcat(a: string, b: string)
    requires '\n' !in a && '\n' !in b
    ensures '\n' !in a + b
  {
  }

  lemma NoNewlineSpaces(n: nat)
    ensures '\n' !in Spaces(n)
  {
  }

  lemma NoNewlineDecimal(n: nat)
    ensures '\n' !in DecimalString(n)
  {
  }

  lemma HeadRowsSingleLine(sp: Span)
    requires Renderable(sp)
    ensures SingleLines([Gutter(sp) + " |", Gutter(sp) + " |" + ContextLine(sp) + " ",
                         DecimalString(sp.start.0 + 1) + " |" + Lines(sp.source)[sp.start.0]])
  {
    var fill := Gutter(sp);
    NoNewlineSpaces(|DecimalString(sp.end.0)|);
    NoNewlineDecimal(sp.start.0 + 1);
    NoNewlineConcat(fill, " |");
    NoNewlineConcat(fill + " |", ContextLine(sp));
    NoNewlineConcat(fill + " |" + ContextLine(sp), " ");
    NoNewlineConcat(DecimalString(sp.start.0 + 1), " |");
    NoNewlineConcat(DecimalString(sp.start.0 + 1) + " |", Lines(sp.source)[sp.start.0]);
  }

  lemma TailRowsSingleLine(sp: Span, msg: string)
    requires Renderable(sp)
    requires '\n' !in msg
    ensures SingleLines([CaretRow(sp, msg), Gutter(sp) + " |"])
  {
    var fill := Gutter(sp);
    var dec := DecimalString(sp.end.0 + 2);
    var pad := Spaces(sp.end.1 - 1);
    NoNewlineSpaces(|DecimalString(sp.end.0)|);
    NoNewlineSpaces(sp.end.1 - 1);
    NoNewlineDecimal(sp.end.0 + 2);
    NoNewlineConcat(fill, " |");
    NoNewlineConcat(dec, " |");
    NoNewlineConcat(dec + " |", pad);
    NoNewlineConcat(dec + " |" + pad, "^--- ");
    NoNewlineConcat(dec + " |" + pad + "^--- ", msg);
  }

  lemma MiddleRowsSingleLine(lines: seq<string>, fill: string, lo: nat, hi: nat)
    requires lo < hi ==> hi <= |lines|
    requires SingleLines(lines)
    requires '\n' !in fill
    ensures SingleLines(LineRows(lines, fill, lo, hi))
  {
    var middle := LineRows(lines, fill, lo, hi);
    forall i | 0 <= i < |middle| ensures '\n' !in middle[i] {
      NoNewlineConcat(fill, " |");
      NoNewlineConcat(fill + " |", lines[lo + i]);
    }
  }

  lemma ExcerptRowsSingleLine(sp: Span, msg: string)
    requires Renderable(sp)
    requires '\n' !in msg
    ensures var rows := ExcerptRows(sp, msg); SingleLines(rows) && rows[|rows| - 1] != []
  {
    var lines := Lines(sp.source);
    var fill := Gutter(sp);
    HeadRowsSingleLine(sp);
    TailRowsSingleLine(sp, msg);
    NoNewlineSpaces(|DecimalString(sp.end.0)|);
    MiddleRowsSingleLine(lines, fill, sp.start.0 + 1, sp.end.0 + 1);
    var head := [fill + " |", fill + " |" + ContextLine(sp) + " ", DecimalString(sp.start.0 + 1) + " |" + lines[sp.start.0]];
    var middle := LineRows(lines, fill, sp.start.0 + 1, sp.end.0 + 1);
    var tail := [CaretRow(sp, msg), fill + " |"];
    SingleLinesAppend(head, middle);
    SingleLinesAppend(head + middle, tail);
    assert ExcerptRows(sp, msg) == head + middle + tail;
  }

  /** The gutter is as wide as `end.0` has decimal digits. */
  lemma GutterWidth(sp: Span)
    ensures var w := |Gutter(sp)|; (w == 1 || Pow10(w - 1) <= sp.end.0) && sp.end.0 < Pow10(w)
  {
    DecimalStringWidth(sp.end.0);
  }
}
