/**
 * What the overlay renderer does with the spans of a line.
 *
 * When the spans are well nested -- every later span lies inside an earlier
 * one or starts at or after that one's end, so outer spans are listed before
 * inner ones and a span closing at a position is recorded before one opening
 * there -- the stack after any position holds exactly the styles of the
 * spans covering it, outermost first, and each character is printed in the
 * style of the innermost span covering it. Without that ordering the
 * operations at one position can pop the wrong style; a counterexample from
 * a repeated capture group is given at the end.
 */
module Nesting {
  import opened Results
  import opened Styles
  import opened Extract
  import opened Render

  /** The operation table of a list of spans. */
  function Table(spans: seq<Span>): OpTable {
    BuildTable(SpanEvents(spans))
  }

  predicate Covers(sp: Span, p: nat) {
    sp.start <= p < sp.end
  }

  /** The styles of the spans covering `p`, in list order. */
  function Open(spans: seq<Span>, p: nat): seq<Style>
    decreases |spans|
  {
    if |spans| == 0 then []
    else
      var last := spans[|spans| - 1];
      Open(spans[..|spans| - 1], p) + (if Covers(last, p) then [last.style] else [])
  }

  /**
   * A span listed after `earlier` lies inside it, starts at or after its end,
   * or ends strictly before its start. A later span ending exactly where
   * `earlier` starts is excluded: its pop would be recorded after `earlier`'s
   * push at that position and would remove `earlier`'s style instead.
   */
  predicate Compatible(earlier: Span, later: Span) {
    (earlier.start <= later.start && later.end <= earlier.end) || earlier.end <= later.start ||
    later.end < earlier.start
  }

  predicate WellNested(spans: seq<Span>) {
    (forall k :: 0 <= k < |spans| ==> spans[k].start <= spans[k].end) &&
    (forall i, j :: 0 <= i < j < |spans| ==> Compatible(spans[i], spans[j]))
  }

  /** The style of the last span covering `p`, or the plain style when none does. */
  function Innermost(spans: seq<Span>, p: nat): Style
    decreases |spans|
  {
    if |spans| == 0 then Plain
    else if Covers(spans[|spans| - 1], p) then spans[|spans| - 1].style
    else Innermost(spans[..|spans| - 1], p)
  }

  // ---------------------------------------------------------------------------
  // The table of a list with one more span

  /** The operations span `x` records at `q`: its push, then its pop. */
  function PairOps(x: Span, q: nat): seq<Op> {
    (if x.start == q then [Push(x.style)] else []) + (if x.end == q then [Pop] else [])
  }

  /** The operations one span's two events contribute at `q`. */
  lemma PairEvents(sp: Span, q: nat)
    ensures EventsAt([Event(sp.start, Push(sp.style)), Event(sp.end, Pop)], q) == PairOps(sp, q)
  {
    var evs := [Event(sp.start, Push(sp.style)), Event(sp.end, Pop)];
    assert evs[1..] == [Event(sp.end, Pop)];
    assert evs[1..][1..] == [];
    assert EventsAt(evs[1..], q) == (if sp.end == q then [Pop] else []) + EventsAt([], q);
    assert EventsAt(evs, q) == (if sp.start == q then [Push(sp.style)] else []) + EventsAt(evs[1..], q);
  }

  lemma TableSnoc(spans: seq<Span>, x: Span, q: nat)
    ensures OpsAt(Table(spans + [x]), q) == OpsAt(Table(spans), q) + PairOps(x, q)
  {
    var pair := [Event(x.start, Push(x.style)), Event(x.end, Pop)];
    SpanEventsSnoc(spans, x);
    BuildTableSpec(SpanEvents(spans + [x]), q);
    BuildTableSpec(SpanEvents(spans), q);
    EventsAtAppend(SpanEvents(spans), pair, q);
    PairEvents(x, q);
  }

  lemma SpanEventsCons(spans: seq<Span>, q: nat)
    requires |spans| > 0
    ensures EventsAt(SpanEvents(spans), q) ==
      EventsAt([Event(spans[0].start, Push(spans[0].style)), Event(spans[0].end, Pop)], q) + EventsAt(SpanEvents(spans[1..]), q)
  {
    EventsAtAppend([Event(spans[0].start, Push(spans[0].style)), Event(spans[0].end, Pop)], SpanEvents(spans[1..]), q);
  }

  /** Spans compatible with `x` record nothing strictly inside it. */
  lemma {:induction false} NothingInside(spans: seq<Span>, x: Span, q: nat)
    requires forall k :: 0 <= k < |spans| ==> spans[k].start <= spans[k].end && Compatible(spans[k], x)
    requires x.start < q < x.end
    ensures EventsAt(SpanEvents(spans), q) == []
    decreases |spans|
  {
    if |spans| > 0 {
      assert spans[0].start <= spans[0].end && Compatible(spans[0], x);
      SpanEventsCons(spans, q);
      PairEvents(spans[0], q);
      assert forall k :: 0 <= k < |spans[1..]| ==> spans[1..][k] == spans[k + 1];
      NothingInside(spans[1..], x, q);
    }
  }

  /** Spans compatible with `x` only close at its end. */
  lemma {:induction false} OnlyPopsAtEnd(spans: seq<Span>, x: Span)
    requires forall k :: 0 <= k < |spans| ==> spans[k].start <= spans[k].end && Compatible(spans[k], x)
    requires x.start < x.end
    ensures AllPops(EventsAt(SpanEvents(spans), x.end))
    decreases |spans|
  {
    if |spans| > 0 {
      assert spans[0].start <= spans[0].end && Compatible(spans[0], x);
      SpanEventsCons(spans, x.end);
      PairEvents(spans[0], x.end);
      assert forall k :: 0 <= k < |spans[1..]| ==> spans[1..][k] == spans[k + 1];
      OnlyPopsAtEnd(spans[1..], x);
    }
  }

  /**
   * Adding a span compatible with every listed span puts its style on top of
   * the stack exactly at the positions it covers and leaves the rest of the
   * stack as it was.
   */
  lemma {:induction false} SnocStack(spans: seq<Span>, x: Span, n: nat)
    requires x.start <= x.end
    requires forall k :: 0 <= k < |spans| ==> spans[k].start <= spans[k].end && Compatible(spans[k], x)
    ensures StackAt(Table(spans + [x]), n) ==
      StackAt(Table(spans), n) + (if x.start < n <= x.end then [x.style] else [])
  {
    if n > 0 {
      var q := n - 1;
      SnocStack(spans, x, q);
      TableSnoc(spans, x, q);
      SnocStep(spans, x, q, StackAt(Table(spans), q));
    }
  }

  /**
   * One position of SnocStack: the operations at `q` of the longer list act
   * on a stack that has `x` on top exactly when `q` is inside `x`.
   */
  lemma SnocStep(spans: seq<Span>, x: Span, q: nat, a: StyleStack)
    requires x.start <= x.end
    requires forall k :: 0 <= k < |spans| ==> spans[k].start <= spans[k].end && Compatible(spans[k], x)
    ensures ApplyOps(a + (if x.start < q <= x.end then [x.style] else []), OpsAt(Table(spans), q) + PairOps(x, q)) ==
      ApplyOps(a, OpsAt(Table(spans), q)) + (if x.start <= q < x.end then [x.style] else [])
  {
    var ops := OpsAt(Table(spans), q);
    if q < x.start || q > x.end {
      assert PairOps(x, q) == [] && ops + [] == ops && a + [] == a;
      assert ApplyOps(a, ops) + [] == ApplyOps(a, ops);
    } else if x.start < q < x.end {
      BuildTableSpec(SpanEvents(spans), q);
      NothingInside(spans, x, q);
      assert ops + PairOps(x, q) == [] && ops == [];
    } else if q == x.start && q < x.end {
      assert PairOps(x, q) == [Push(x.style)];
      assert a + [] == a;
      ApplyOpsAppend(a, ops, [Push(x.style)]);
      PushOne(ApplyOps(a, ops), x.style);
    } else if x.start < q && q == x.end {
      assert PairOps(x, q) == [Pop];
      BuildTableSpec(SpanEvents(spans), q);
      OnlyPopsAtEnd(spans, x);
      PopsAbove(a, x.style, ops);
      assert ApplyOps(a, ops) + [] == ApplyOps(a, ops);
    } else {
      assert PairOps(x, q) == [Push(x.style), Pop];
      assert a + [] == a;
      ApplyOpsAppend(a, ops, [Push(x.style), Pop]);
      PushPop(ApplyOps(a, ops), x.style);
      assert ApplyOps(a, ops) + [] == ApplyOps(a, ops);
    }
  }

  lemma PushOne(stack: StyleStack, st: Style)
    ensures ApplyOps(stack, [Push(st)]) == stack + [st]
  {
    assert [Push(st)][1..] == [];
  }

  lemma EmptyTableStack(n: nat)
    ensures StackAt(Table([]), n) == []
  {
    assert SpanEvents([]) == [];
    assert forall r :: 0 <= r < n ==> r !in Table([]);
    StackAtSteady(Table([]), 0, n);
  }

  // ---------------------------------------------------------------------------
  // Well-nested spans

  lemma WellNestedPrefix(spans: seq<Span>)
    requires |spans| > 0 && WellNested(spans)
    ensures WellNested(spans[..|spans| - 1])
    ensures var x := spans[|spans| - 1];
      x.start <= x.end &&
      forall k :: 0 <= k < |spans| - 1 ==> spans[k].start <= spans[k].end && Compatible(spans[k], x)
  {
  }

  /**
   * With well-nested spans, the stack after the operations at positions
   * `0 .. p` holds exactly the styles of the spans covering `p`, in list
   * order: outer styles below, inner styles on top.
   */
  lemma {:induction false} NestedStack(spans: seq<Span>, p: nat)
    requires WellNested(spans)
    ensures StackAt(Table(spans), p + 1) == Open(spans, p)
    decreases |spans|
  {
    if |spans| == 0 {
      EmptyTableStack(p + 1);
    } else {
      var front := spans[..|spans| - 1];
      var x := spans[|spans| - 1];
      WellNestedPrefix(spans);
      NestedStack(front, p);
      SnocStack(front, x, p + 1);
      assert front + [x] == spans;
    }
  }

  /** The last covering span is the innermost: every other covering span contains it. */
  lemma {:induction false} InnermostSpec(spans: seq<Span>, p: nat)
    ensures Top(Open(spans, p)) == Innermost(spans, p)
    ensures (forall k :: 0 <= k < |spans| ==> !Covers(spans[k], p)) ==> Innermost(spans, p) == Plain
    ensures forall k :: (0 <= k < |spans| && Covers(spans[k], p) &&
                         (forall j :: k < j < |spans| ==> !Covers(spans[j], p))) ==> Innermost(spans, p) == spans[k].style
    decreases |spans|
  {
    if |spans| > 0 {
      var front := spans[..|spans| - 1];
      InnermostSpec(front, p);
      assert forall k :: 0 <= k < |front| ==> front[k] == spans[k];
    }
  }

  /** Under well nesting, a later span covering `p` lies inside every earlier one covering `p`. */
  lemma CoveringSpansNest(spans: seq<Span>, p: nat, i: nat, j: nat)
    requires WellNested(spans) && i < j < |spans|
    requires Covers(spans[i], p) && Covers(spans[j], p)
    ensures spans[i].start <= spans[j].start && spans[j].end <= spans[i].end
  {
    assert Compatible(spans[i], spans[j]);
  }

  /**
   * Nesting: each character of a line is printed in the style of the
   * innermost span covering it, or plainly when no span covers it; an inner
   * style covers exactly the inner substring and the outer style resumes
   * after it.
   */
  lemma NestedPainting(line: string, spans: seq<Span>)
    requires WellNested(spans)
    ensures |Painted(RenderLine(line, Table(spans)))| == |line|
    ensures forall p :: 0 <= p < |line| ==>
      Painted(RenderLine(line, Table(spans)))[p] == (Innermost(spans, p), line[p])
  {
    PaintedChars(line, Table(spans));
    forall p | 0 <= p < |line| ensures StyleAt(Table(spans), p) == Innermost(spans, p) {
      NestedStack(spans, p);
      InnermostSpec(spans, p);
    }
  }

  /** Spans listed left to right, each ending at or before the next one starts. */
  predicate Disjoint(spans: seq<Span>) {
    (forall k :: 0 <= k < |spans| ==> spans[k].start <= spans[k].end) &&
    (forall i, j :: 0 <= i < j < |spans| ==> spans[i].end <= spans[j].start)
  }

  /**
   * Disjoint or adjacent spans are well nested, so each character is printed
   * in the style of the one span covering it, or plainly.
   */
  lemma DisjointPainting(line: string, spans: seq<Span>)
    requires Disjoint(spans)
    ensures WellNested(spans)
    ensures |Painted(RenderLine(line, Table(spans)))| == |line|
    ensures forall p, k :: 0 <= p < |line| && 0 <= k < |spans| && Covers(spans[k], p) ==>
      Painted(RenderLine(line, Table(spans)))[p] == (spans[k].style, line[p])
    ensures forall p :: 0 <= p < |line| && (forall k :: 0 <= k < |spans| ==> !Covers(spans[k], p)) ==>
      Painted(RenderLine(line, Table(spans)))[p] == (Plain, line[p])
  {
    NestedPainting(line, spans);
    forall p, k | 0 <= p < |line| && 0 <= k < |spans| && Covers(spans[k], p)
      ensures Innermost(spans, p) == spans[k].style
    {
      InnermostSpec(spans, p);
      assert forall j :: k < j < |spans| ==> spans[k].end <= spans[j].start;
    }
    forall p | 0 <= p < |line| && (forall k :: 0 <= k < |spans| ==> !Covers(spans[k], p))
      ensures Innermost(spans, p) == Plain
    {
      InnermostSpec(spans, p);
    }
  }

  // ---------------------------------------------------------------------------
  // Run shapes

  /** The operations of a list of spans at `q`, span by span. */
  function SpanOps(spans: seq<Span>, q: nat): seq<Op>
    decreases |spans|
  {
    if |spans| == 0 then [] else SpanOps(spans[..|spans| - 1], q) + PairOps(spans[|spans| - 1], q)
  }

  /**
   * The table of a list of spans holds at each position each span's push
   * (if it starts there) and pop (if it ends there), span after span, and
   * has an entry exactly where some span starts or ends.
   */
  lemma {:induction false} TableOps(spans: seq<Span>, q: nat)
    ensures OpsAt(Table(spans), q) == SpanOps(spans, q)
    ensures q in Table(spans) <==> SpanOps(spans, q) != []
    decreases |spans|
  {
    if |spans| == 0 {
      assert SpanEvents([]) == [];
    } else {
      var front := spans[..|spans| - 1];
      TableOps(front, q);
      assert front + [spans[|spans| - 1]] == spans;
      TableSnoc(front, spans[|spans| - 1], q);
    }
    BuildTableSpec(SpanEvents(spans), q);
  }

  /** No operations in `[lo, m)`: the cuts from `lo` are the cuts from `m`. */
  lemma {:induction false} CutsGap(tbl: OpTable, lo: nat, m: nat, hi: nat)
    requires lo <= m <= hi
    requires forall p :: lo <= p < m ==> p !in tbl
    ensures Cuts(tbl, lo, hi) == Cuts(tbl, m, hi)
    decreases m - lo
  {
    if lo < m {
      CutsGap(tbl, lo + 1, m, hi);
    }
  }

  /** The next cut from `lo` is `m` when `m` is the first position with operations. */
  lemma CutsNext(tbl: OpTable, lo: nat, m: nat, hi: nat)
    requires lo <= m < hi && m in tbl
    requires forall p :: lo <= p < m ==> p !in tbl
    ensures Cuts(tbl, lo, hi) == [m] + Cuts(tbl, m + 1, hi)
  {
    CutsGap(tbl, lo, m, hi);
  }

  /** No operations from `lo` to the end: no cuts. */
  lemma NoMoreCuts(tbl: OpTable, lo: nat, hi: nat)
    requires lo <= hi
    requires forall p :: lo <= p < hi ==> p !in tbl
    ensures Cuts(tbl, lo, hi) == []
  {
    CutsGap(tbl, lo, hi, hi);
  }

  lemma OneKey(tbl: OpTable, lo: nat, a: nat, hi: nat)
    requires lo <= a < hi
    requires forall p :: lo <= p < hi ==> (p in tbl <==> p == a)
    ensures Cuts(tbl, lo, hi) == [a]
  {
    NoMoreCuts(tbl, a + 1, hi);
    CutsNext(tbl, lo, a, hi);
  }

  lemma TwoKeys(tbl: OpTable, lo: nat, a: nat, b: nat, hi: nat)
    requires lo <= a < b < hi
    requires forall p :: lo <= p < hi ==> (p in tbl <==> p == a || p == b)
    ensures Cuts(tbl, lo, hi) == [a, b]
  {
    OneKey(tbl, a + 1, b, hi);
    CutsNext(tbl, lo, a, hi);
    assert [a] + [b] == [a, b];
  }

  lemma ThreeKeys(tbl: OpTable, lo: nat, a: nat, b: nat, c: nat, hi: nat)
    requires lo <= a < b < c < hi
    requires forall p :: lo <= p < hi ==> (p in tbl <==> p == a || p == b || p == c)
    ensures Cuts(tbl, lo, hi) == [a, b, c]
  {
    TwoKeys(tbl, a + 1, b, c, hi);
    CutsNext(tbl, lo, a, hi);
    assert [a] + [b, c] == [a, b, c];
  }

  lemma FourKeys(tbl: OpTable, lo: nat, a: nat, b: nat, c: nat, d: nat, hi: nat)
    requires lo <= a < b < c < d < hi
    requires forall p :: lo <= p < hi ==> (p in tbl <==> p == a || p == b || p == c || p == d)
    ensures Cuts(tbl, lo, hi) == [a, b, c, d]
  {
    ThreeKeys(tbl, a + 1, b, c, d, hi);
    CutsNext(tbl, lo, a, hi);
    assert [a] + [b, c, d] == [a, b, c, d];
  }

  lemma OneSpanKeys(x: Span, p: nat)
    ensures OpsAt(Table([x]), p) == PairOps(x, p)
    ensures p in Table([x]) <==> p == x.start || p == x.end
  {
    assert [x][..0] == [];
    TableOps([x], p);
  }

  lemma TwoSpanKeys(x: Span, y: Span, p: nat)
    ensures OpsAt(Table([x, y]), p) == PairOps(x, p) + PairOps(y, p)
    ensures p in Table([x, y]) <==> p == x.start || p == x.end || p == y.start || p == y.end
  {
    assert [x, y][..1] == [x] && [x][..0] == [];
    assert SpanOps([x], p) == [] + PairOps(x, p);
    assert SpanOps([x, y], p) == SpanOps([x], p) + PairOps(y, p);
    TableOps([x, y], p);
  }

  /** The sweep over a table whose cuts are known. */
  lemma LayoutFrom(line: string, tbl: OpTable, cs: seq<nat>)
    requires Cuts(tbl, 0, |line|) == cs
    ensures Ascending(cs) && forall k :: 0 <= k < |cs| ==> cs[k] < |line|
    ensures RenderLine(line, tbl) == [Styled(Plain, line[..FirstCut(cs, |line|)])] + Segments(line, tbl, cs)
  {
    RenderIsLayout(line, tbl);
  }

  /** The first run of the segments, in the style of its first character. */
  lemma SegmentsStep(line: string, tbl: OpTable, cs: seq<nat>, st: Style)
    requires Ascending(cs) && forall k :: 0 <= k < |cs| ==> cs[k] < |line|
    requires |cs| > 0 && StyleAt(tbl, cs[0]) == st
    ensures Ascending(cs[1..]) && forall k :: 0 <= k < |cs[1..]| ==> cs[1..][k] < |line|
    ensures cs[0] <= FirstCut(cs[1..], |line|) <= |line|
    ensures Segments(line, tbl, cs) == [Styled(st, line[cs[0]..FirstCut(cs[1..], |line|)])] + Segments(line, tbl, cs[1..])
  {
    assert cs == [cs[0]] + cs[1..];
    SegmentsCons(line, tbl, cs[0], cs[1..]);
  }

  /** With well-nested spans, a character's style is that of the innermost span covering it. */
  lemma NestedStyle(spans: seq<Span>, p: nat)
    requires WellNested(spans)
    ensures StyleAt(Table(spans), p) == Innermost(spans, p)
  {
    NestedStack(spans, p);
    InnermostSpec(spans, p);
  }

  lemma InnermostOne(x: Span, p: nat)
    ensures Innermost([x], p) == if Covers(x, p) then x.style else Plain
  {
    assert [x][..0] == [];
  }

  lemma InnermostTwo(x: Span, y: Span, p: nat)
    ensures Innermost([x, y], p) == if Covers(y, p) then y.style else if Covers(x, p) then x.style else Plain
  {
    assert [x, y][..1] == [x];
    InnermostOne(x, p);
  }

  lemma OneCut(line: string, tbl: OpTable, d: nat, sd: Style)
    requires d < |line| && StyleAt(tbl, d) == sd
    ensures Ascending([d])
    ensures Segments(line, tbl, [d]) == [Styled(sd, line[d..]), NewLine]
  {
    SegmentsStep(line, tbl, [d], sd);
    assert [d][1..] == [];
    assert Segments(line, tbl, []) == [NewLine];
    assert line[d..|line|] == line[d..];
  }

  lemma TwoCuts(line: string, tbl: OpTable, c: nat, d: nat, sc: Style, sd: Style)
    requires c < d < |line| && StyleAt(tbl, c) == sc && StyleAt(tbl, d) == sd
    ensures Ascending([c, d])
    ensures Segments(line, tbl, [c, d]) == [Styled(sc, line[c..d]), Styled(sd, line[d..]), NewLine]
  {
    OneCut(line, tbl, d, sd);
    SegmentsCons(line, tbl, c, [d]);
    assert [c] + [d] == [c, d];
  }

  lemma ThreeCuts(line: string, tbl: OpTable, b: nat, c: nat, d: nat, sb: Style, sc: Style, sd: Style)
    requires b < c < d < |line|
    requires StyleAt(tbl, b) == sb && StyleAt(tbl, c) == sc && StyleAt(tbl, d) == sd
    ensures Ascending([b, c, d])
    ensures Segments(line, tbl, [b, c, d]) == [Styled(sb, line[b..c]), Styled(sc, line[c..d]), Styled(sd, line[d..]), NewLine]
  {
    TwoCuts(line, tbl, c, d, sc, sd);
    assert [b] + [c, d] == [b, c, d];
    SegmentsCons(line, tbl, b, [c, d]);
  }

  /** The runs of four cuts inside a line, given the styles at the cuts. */
  lemma FourCuts(line: string, tbl: OpTable, a: nat, b: nat, c: nat, d: nat, sa: Style, sb: Style, sc: Style, sd: Style)
    requires a < b < c < d < |line|
    requires StyleAt(tbl, a) == sa && StyleAt(tbl, b) == sb && StyleAt(tbl, c) == sc && StyleAt(tbl, d) == sd
    ensures Ascending([a, b, c, d])
    ensures Segments(line, tbl, [a, b, c, d]) ==
      [Styled(sa, line[a..b]), Styled(sb, line[b..c]), Styled(sc, line[c..d]), Styled(sd, line[d..]), NewLine]
  {
    ThreeCuts(line, tbl, b, c, d, sb, sc, sd);
    assert [a] + [b, c, d] == [a, b, c, d];
    SegmentsCons(line, tbl, a, [b, c, d]);
  }

  /**
   * A single span `[s, e)` ending inside the line: the text before it
   * plainly, the span's text in its style, then the rest plainly.
   */
  lemma SingleSpan(line: string, x: Span)
    requires x.start < x.end < |line|
    ensures RenderLine(line, Table([x])) ==
      [Styled(Plain, line[..x.start]), Styled(x.style, line[x.start..x.end]), Styled(Plain, line[x.end..]), NewLine]
  {
    var tbl := Table([x]);
    var cs := [x.start, x.end];
    forall p | 0 <= p < |line| ensures p in tbl <==> p == x.start || p == x.end {
      OneSpanKeys(x, p);
    }
    TwoKeys(tbl, 0, x.start, x.end, |line|);
    LayoutFrom(line, tbl, cs);
    assert WellNested([x]);
    NestedStyle([x], x.start);
    InnermostOne(x, x.start);
    NestedStyle([x], x.end);
    InnermostOne(x, x.end);
    TwoCuts(line, tbl, x.start, x.end, x.style, Plain);
  }

  /**
   * A single span reaching the end of the line: its pop, at the line's
   * length, is never applied, and the tail is flushed in the span's style.
   */
  lemma SingleSpanToEnd(line: string, x: Span)
    requires x.start < x.end == |line|
    ensures RenderLine(line, Table([x])) == [Styled(Plain, line[..x.start]), Styled(x.style, line[x.start..]), NewLine]
  {
    var tbl := Table([x]);
    var cs := [x.start];
    forall p | 0 <= p < |line| ensures p in tbl <==> p == x.start {
      OneSpanKeys(x, p);
    }
    OneKey(tbl, 0, x.start, |line|);
    LayoutFrom(line, tbl, cs);
    assert WellNested([x]);
    NestedStyle([x], x.start);
    InnermostOne(x, x.start);
    OneCut(line, tbl, x.start, x.style);
  }

  /**
   * Two adjacent spans inside the line: the first's pop is recorded before
   * the second's push at the shared position, so the runs follow each other
   * with their own styles.
   */
  lemma AdjacentSpans(line: string, x: Span, y: Span)
    requires x.start < x.end == y.start < y.end < |line|
    ensures RenderLine(line, Table([x, y])) ==
      [Styled(Plain, line[..x.start]), Styled(x.style, line[x.start..x.end]),
       Styled(y.style, line[y.start..y.end]), Styled(Plain, line[y.end..]), NewLine]
  {
    var spans := [x, y];
    var tbl := Table(spans);
    var cs := [x.start, x.end, y.end];
    forall p | 0 <= p < |line| ensures p in tbl <==> p == x.start || p == x.end || p == y.end {
      TwoSpanKeys(x, y, p);
    }
    ThreeKeys(tbl, 0, x.start, x.end, y.end, |line|);
    LayoutFrom(line, tbl, cs);
    assert WellNested(spans);
    NestedStyle(spans, x.start);
    InnermostTwo(x, y, x.start);
    NestedStyle(spans, y.start);
    InnermostTwo(x, y, y.start);
    NestedStyle(spans, y.end);
    InnermostTwo(x, y, y.end);
    ThreeCuts(line, tbl, x.start, y.start, y.end, x.style, y.style, Plain);
  }

  lemma NestedPairStyles(outer: Span, inner: Span)
    requires outer.start < inner.start < inner.end < outer.end
    ensures StyleAt(Table([outer, inner]), outer.start) == outer.style
    ensures StyleAt(Table([outer, inner]), inner.start) == inner.style
    ensures StyleAt(Table([outer, inner]), inner.end) == outer.style
    ensures StyleAt(Table([outer, inner]), outer.end) == Plain
  {
    var spans := [outer, inner];
    assert WellNested(spans);
    NestedStyle(spans, outer.start);
    InnermostTwo(outer, inner, outer.start);
    NestedStyle(spans, inner.start);
    InnermostTwo(outer, inner, inner.start);
    NestedStyle(spans, inner.end);
    InnermostTwo(outer, inner, inner.end);
    NestedStyle(spans, outer.end);
    InnermostTwo(outer, inner, outer.end);
  }

  /**
   * A span nested strictly inside another: the outer style, the inner style
   * over exactly the inner text, the outer style again after it, then the
   * rest plainly.
   */
  lemma NestedSpans(line: string, outer: Span, inner: Span)
    requires outer.start < inner.start < inner.end < outer.end < |line|
    ensures RenderLine(line, Table([outer, inner])) ==
      [Styled(Plain, line[..outer.start]), Styled(outer.style, line[outer.start..inner.start]),
       Styled(inner.style, line[inner.start..inner.end]), Styled(outer.style, line[inner.end..outer.end]),
       Styled(Plain, line[outer.end..]), NewLine]
  {
    var spans := [outer, inner];
    var tbl := Table(spans);
    var cs := [outer.start, inner.start, inner.end, outer.end];
    forall p | 0 <= p < |line| ensures p in tbl <==> p == outer.start || p == inner.start || p == inner.end || p == outer.end {
      TwoSpanKeys(outer, inner, p);
    }
    FourKeys(tbl, 0, outer.start, inner.start, inner.end, outer.end, |line|);
    LayoutFrom(line, tbl, cs);
    NestedPairStyles(outer, inner);
    FourCuts(line, tbl, outer.start, inner.start, inner.end, outer.end, outer.style, inner.style, outer.style, Plain);
  }

  /**
   * Two adjacent spans, the second reaching the end of the line: the shared
   * position switches from the first style to the second, and the second
   * span's pop is never applied.
   */
  lemma AdjacentSpansToEnd(line: string, x: Span, y: Span)
    requires x.start < x.end == y.start < y.end == |line|
    ensures RenderLine(line, Table([x, y])) ==
      [Styled(Plain, line[..x.start]), Styled(x.style, line[x.start..x.end]), Styled(y.style, line[y.start..]), NewLine]
  {
    var spans := [x, y];
    var tbl := Table(spans);
    var cs := [x.start, y.start];
    forall p | 0 <= p < |line| ensures p in tbl <==> p == x.start || p == y.start {
      TwoSpanKeys(x, y, p);
    }
    TwoKeys(tbl, 0, x.start, y.start, |line|);
    LayoutFrom(line, tbl, cs);
    assert WellNested(spans);
    NestedStyle(spans, x.start);
    InnermostTwo(x, y, x.start);
    NestedStyle(spans, y.start);
    InnermostTwo(x, y, y.start);
    TwoCuts(line, tbl, x.start, y.start, x.style, y.style);
  }

  /**
   * A span nested inside another, both reaching the end of the line: the
   * outer style up to the inner span, then the inner style to the end.
   */
  lemma NestedSpansToEnd(line: string, outer: Span, inner: Span)
    requires outer.start < inner.start < inner.end == outer.end == |line|
    ensures RenderLine(line, Table([outer, inner])) ==
      [Styled(Plain, line[..outer.start]), Styled(outer.style, line[outer.start..inner.start]),
       Styled(inner.style, line[inner.start..]), NewLine]
  {
    var spans := [outer, inner];
    var tbl := Table(spans);
    var cs := [outer.start, inner.start];
    forall p | 0 <= p < |line| ensures p in tbl <==> p == outer.start || p == inner.start {
      TwoSpanKeys(outer, inner, p);
    }
    TwoKeys(tbl, 0, outer.start, inner.start, |line|);
    LayoutFrom(line, tbl, cs);
    assert WellNested(spans);
    NestedStyle(spans, outer.start);
    InnermostTwo(outer, inner, outer.start);
    NestedStyle(spans, inner.start);
    InnermostTwo(outer, inner, inner.start);
    TwoCuts(line, tbl, outer.start, inner.start, outer.style, inner.style);
  }

  // ---------------------------------------------------------------------------
  // When the ordering fails

  /**
   * A repeated group such as `(?:(a)|(b))+` matched against "ba" reports
   * group 1 at `[1, 2)` and group 2 at `[0, 1)`: group 1 is recorded first
   * although it lies later in the line. The spans are not well nested, and
   * at position 1 the pop of group 2 is applied after the push of group 1,
   * so "a" is printed in group 2's colour although only group 1 covers it.
   */
  lemma RepeatedGroupMisrendered()
    ensures var m: Match := [Some(Bounds(0, 2)), Some(Bounds(1, 2)), Some(Bounds(0, 1))];
      var spans := MatchSpans([], map[], m);
      spans == [Span(1, 2, PaletteStyle(1)), Span(0, 1, PaletteStyle(2))] &&
      !WellNested(spans) &&
      Innermost(spans, 1) == PaletteStyle(1) != PaletteStyle(2) &&
      RenderLine("ba", Table(spans)) ==
        [Styled(Plain, ""), Styled(PaletteStyle(2), "b"), Styled(PaletteStyle(2), "a"), NewLine]
  {
    var a := Span(1, 2, PaletteStyle(1));
    var b := Span(0, 1, PaletteStyle(2));
    RepeatedGroupSpans();
    assert !Compatible(a, b);
    var spans := [a, b];
    assert spans[..1] == [a] && [a][..0] == [];
    RepeatedGroupRender(a, b);
  }

  /** The spans `(?:(a)|(b))+` reports on "ba", in group order. */
  lemma RepeatedGroupSpans()
    ensures var m: Match := [Some(Bounds(0, 2)), Some(Bounds(1, 2)), Some(Bounds(0, 1))];
      MatchSpans([], map[], m) == [Span(1, 2, PaletteStyle(1)), Span(0, 1, PaletteStyle(2))]
  {
    var m: Match := [Some(Bounds(0, 2)), Some(Bounds(1, 2)), Some(Bounds(0, 1))];
    var b := Span(0, 1, PaletteStyle(2));
    assert GroupSpansFrom([], map[], m, 3) == [];
    assert GroupSpansFrom([], map[], m, 2) == [b];
  }

  /** Sweeping "ba" with a span over `[1, 2)` listed before a span over `[0, 1)`. */
  lemma RepeatedGroupRender(a: Span, b: Span)
    requires a.start == 1 && a.end == 2 && b.start == 0 && b.end == 1
    ensures RenderLine("ba", Table([a, b])) ==
      [Styled(Plain, ""), Styled(b.style, "b"), Styled(b.style, "a"), NewLine]
  {
    var spans := [a, b];
    var tbl := Table(spans);
    assert spans[..1] == [a] && [a][..0] == [];
    assert SpanOps([a], 0) == [] + PairOps(a, 0) == [];
    assert SpanOps([a], 1) == [] + PairOps(a, 1) == [Push(a.style)];
    assert SpanOps(spans, 0) == SpanOps([a], 0) + PairOps(b, 0);
    assert SpanOps(spans, 1) == SpanOps([a], 1) + PairOps(b, 1);
    TableOps(spans, 0);
    TableOps(spans, 1);
    assert OpsAt(tbl, 0) == [Push(b.style)];
    assert OpsAt(tbl, 1) == [Push(a.style), Pop];
    var line := "ba";
    var s1: StyleStack := [b.style];
    var empty: StyleStack := [];
    PushOne(empty, b.style);
    assert empty + [b.style] == s1;
    assert 0 in tbl && tbl[0] == [Push(b.style)];
    assert 1 in tbl && tbl[1] == [Push(a.style), Pop];
    assert ApplyOps(empty, tbl[0]) == s1;
    PushPop(s1, a.style);
    assert RenderLine(line, tbl) == [Styled(Plain, "")] + RenderFrom(line, tbl, 1, s1, ['b']);
    assert RenderFrom(line, tbl, 1, s1, ['b']) == [Styled(b.style, "b")] + RenderFrom(line, tbl, 2, s1, ['a']);
  }

  /**
   * With a third alternative, `(?:(a)|(b)|c)+` on "bca" reports group 1 at
   * `[2, 3)` and group 2 at `[0, 1)`. They are still recorded right to left,
   * but a gap separates them, so no pop lands on the other's push: the spans
   * are well nested and every character gets the style of the group covering it.
   */
  lemma RepeatedGroupWithGap()
    ensures var m: Match := [Some(Bounds(0, 3)), Some(Bounds(2, 3)), Some(Bounds(0, 1))];
      var spans := MatchSpans([], map[], m);
      spans == [Span(2, 3, PaletteStyle(1)), Span(0, 1, PaletteStyle(2))] &&
      WellNested(spans) &&
      Painted(RenderLine("bca", Table(spans))) ==
        [(PaletteStyle(2), 'b'), (Plain, 'c'), (PaletteStyle(1), 'a')]
  {
    RepeatedGroupWithGapSpans();
    GapPainting(Span(2, 3, PaletteStyle(1)), Span(0, 1, PaletteStyle(2)));
  }

  /** The spans `(?:(a)|(b)|c)+` reports on "bca", in group order. */
  lemma RepeatedGroupWithGapSpans()
    ensures var m: Match := [Some(Bounds(0, 3)), Some(Bounds(2, 3)), Some(Bounds(0, 1))];
      MatchSpans([], map[], m) == [Span(2, 3, PaletteStyle(1)), Span(0, 1, PaletteStyle(2))]
  {
    var m: Match := [Some(Bounds(0, 3)), Some(Bounds(2, 3)), Some(Bounds(0, 1))];
    var b := Span(0, 1, PaletteStyle(2));
    assert GroupSpansFrom([], map[], m, 3) == [];
    assert GroupSpansFrom([], map[], m, 2) == [b];
  }

  /** Painting "bca" with a span over `[2, 3)` listed before a span over `[0, 1)`. */
  lemma GapPainting(a: Span, b: Span)
    requires a.start == 2 && a.end == 3 && b.start == 0 && b.end == 1
    ensures WellNested([a, b])
    ensures Painted(RenderLine("bca", Table([a, b]))) == [(b.style, 'b'), (Plain, 'c'), (a.style, 'a')]
  {
    var spans := [a, b];
    assert Compatible(a, b);
    var line := "bca";
    NestedPainting(line, spans);
    InnermostTwo(a, b, 0);
    InnermostTwo(a, b, 1);
    InnermostTwo(a, b, 2);
    var r := Painted(RenderLine(line, Table(spans)));
    assert r[0] == (b.style, 'b');
    assert r[1] == (Plain, 'c');
    assert r[2] == (a.style, 'a');
  }
}
