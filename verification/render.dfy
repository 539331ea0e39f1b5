/**
 * The overlay renderer: one left-to-right sweep over a line with a LIFO
 * stack of styles. Output is abstracted as a list of chunks: styled runs of
 * text and the line terminator. Escape-sequence encoding is not modelled; an
 * empty run is kept as a chunk because the source writes it.
 */
module Render {
  import opened Styles
  import opened Extract

  datatype Chunk = Styled(style: Style, text: string) | NewLine

  type StyleStack = seq<Style>

  /** The style in effect: the top of the stack, or the plain style when it is empty. */
  function Top(stack: StyleStack): Style {
    if |stack| == 0 then Plain else stack[|stack| - 1]
  }

  /** One stack operation; popping an empty stack leaves it empty. */
  function ApplyOp(stack: StyleStack, op: Op): StyleStack {
    match op
    case Push(st) => stack + [st]
    case Pop => if |stack| == 0 then [] else stack[..|stack| - 1]
  }

  /** A position's operations, applied in recorded order. */
  function ApplyOps(stack: StyleStack, ops: seq<Op>): StyleStack
    decreases |ops|
  {
    if |ops| == 0 then stack else ApplyOps(ApplyOp(stack, ops[0]), ops[1..])
  }

  /** The stack once the operations at positions `0 .. n-1` have been applied. */
  function StackAt(tbl: OpTable, n: nat): StyleStack {
    if n == 0 then [] else ApplyOps(StackAt(tbl, n - 1), OpsAt(tbl, n - 1))
  }

  /** The style character `p` is meant to get: the top after the operations at `0 .. p`. */
  function StyleAt(tbl: OpTable, p: nat): Style {
    Top(StackAt(tbl, p + 1))
  }

  /**
   * The sweep from position `pos`, with `buf` the characters read since the
   * last flush. At a position with recorded operations the buffer is flushed
   * under the current top, the operations are applied, and the character
   * starts a new buffer; at the end the buffer is flushed under the final top
   * and the line is terminated.
   */
  function RenderFrom(line: string, tbl: OpTable, pos: nat, stack: StyleStack, buf: string): seq<Chunk>
    requires pos <= |line|
    decreases |line| - pos
  {
    if pos == |line| then [Styled(Top(stack), buf), NewLine]
    else if pos in tbl then
      [Styled(Top(stack), buf)] + RenderFrom(line, tbl, pos + 1, ApplyOps(stack, tbl[pos]), [line[pos]])
    else RenderFrom(line, tbl, pos + 1, stack, buf + [line[pos]])
  }

  /** Rendering one line: empty stack, empty buffer, from the first character. */
  function RenderLine(line: string, tbl: OpTable): seq<Chunk> {
    RenderFrom(line, tbl, 0, [], [])
  }

  // ---------------------------------------------------------------------------
  // Reading the output

  /** The text the chunks print, the terminator included. */
  function Printed(chunks: seq<Chunk>): string
    decreases |chunks|
  {
    if |chunks| == 0 then []
    else
      (match chunks[0]
       case Styled(_, t) => t
       case NewLine => "\n") + Printed(chunks[1..])
  }

  /** Every printed character paired with the style it is printed in. */
  function Painted(chunks: seq<Chunk>): seq<(Style, char)>
    decreases |chunks|
  {
    if |chunks| == 0 then []
    else
      (match chunks[0]
       case Styled(st, t) => Paint(st, t)
       case NewLine => []) + Painted(chunks[1..])
  }

  function Paint(st: Style, t: string): (r: seq<(Style, char)>)
    ensures |r| == |t| && forall i :: 0 <= i < |t| ==> r[i] == (st, t[i])
  {
    seq(|t|, i requires 0 <= i < |t| => (st, t[i]))
  }

  /** A well-formed line of output: styled runs, then exactly one terminator, last. */
  predicate OneLine(chunks: seq<Chunk>) {
    |chunks| >= 2 && chunks[|chunks| - 1] == NewLine &&
    forall k :: 0 <= k < |chunks| - 1 ==> chunks[k].Styled?
  }

  // ---------------------------------------------------------------------------
  // The stack operations

  /** Popping an empty stack is a no-op, and an empty stack means the plain style. */
  lemma PopOnEmpty()
    ensures ApplyOp([], Pop) == [] && Top([]) == Plain
  {
  }

  lemma {:induction false} ApplyOpsAppend(stack: StyleStack, a: seq<Op>, b: seq<Op>)
    ensures ApplyOps(stack, a + b) == ApplyOps(ApplyOps(stack, a), b)
    decreases |a|
  {
    if |a| == 0 {
      assert a + b == b;
    } else {
      assert (a + b)[1..] == a[1..] + b;
      ApplyOpsAppend(ApplyOp(stack, a[0]), a[1..], b);
    }
  }

  /** A push immediately undone by a pop leaves the stack as it was. */
  lemma PushPop(stack: StyleStack, st: Style)
    ensures ApplyOps(stack, [Push(st), Pop]) == stack
  {
    var ops := [Push(st), Pop];
    assert ops[1..] == [Pop];
    assert ops[1..][1..] == [];
    assert ApplyOp(stack, Push(st)) == stack + [st];
    assert (stack + [st])[..|stack|] == stack;
    assert ApplyOps(stack, ops) == ApplyOps(stack + [st], [Pop]);
    assert ApplyOps(stack + [st], [Pop]) == ApplyOps(stack, []);
  }

  predicate AllPops(ops: seq<Op>) {
    forall k :: 0 <= k < |ops| ==> ops[k] == Pop
  }

  /** A run of pops removes that many styles from the top, stopping at empty. */
  lemma {:induction false} ApplyPops(stack: StyleStack, ops: seq<Op>)
    requires AllPops(ops)
    ensures ApplyOps(stack, ops) == stack[..if |ops| <= |stack| then |stack| - |ops| else 0]
    decreases |ops|
  {
    if |ops| > 0 {
      assert ops[0] == Pop;
      ApplyPops(ApplyOp(stack, Pop), ops[1..]);
    }
  }

  /** Pushing below a run of pops costs that run one extra pop. */
  lemma PopsAbove(stack: StyleStack, st: Style, ops: seq<Op>)
    requires AllPops(ops)
    ensures ApplyOps(stack + [st], ops + [Pop]) == ApplyOps(stack, ops)
  {
    ApplyPops(stack, ops);
    assert AllPops(ops + [Pop]);
    ApplyPops(stack + [st], ops + [Pop]);
  }

  // ---------------------------------------------------------------------------
  // The stack is determined by the positions' operations

  /** No operations between `p` and `q` means no change to the stack. */
  lemma {:induction false} StackAtSteady(tbl: OpTable, p: nat, q: nat)
    requires p <= q
    requires forall r :: p <= r < q ==> r !in tbl
    ensures StackAt(tbl, q) == StackAt(tbl, p)
    decreases q - p
  {
    if p < q {
      StackAtSteady(tbl, p, q - 1);
    }
  }

  // ---------------------------------------------------------------------------
  // The reference layout

  predicate Ascending(cs: seq<nat>) {
    forall i, j :: 0 <= i < j < |cs| ==> cs[i] < cs[j]
  }

  /** The positions in `[lo, hi)` that have recorded operations, in increasing order. */
  function Cuts(tbl: OpTable, lo: nat, hi: nat): (cs: seq<nat>)
    ensures Ascending(cs)
    ensures forall k :: 0 <= k < |cs| ==> lo <= cs[k] < hi && cs[k] in tbl
    decreases hi - lo
  {
    if lo >= hi then []
    else (if lo in tbl then [lo] else []) + Cuts(tbl, lo + 1, hi)
  }

  /** Where the first run starting at or after the cuts' origin ends. */
  function FirstCut(cs: seq<nat>, n: nat): nat {
    if |cs| == 0 then n else cs[0]
  }

  /**
   * The runs that begin at the cuts: each covers the text up to the next cut
   * (or the end of the line) and is styled by the top of the stack just after
   * its own cut's operations; the terminator follows the last one.
   */
  function Segments(line: string, tbl: OpTable, cs: seq<nat>): seq<Chunk>
    requires Ascending(cs) && forall k :: 0 <= k < |cs| ==> cs[k] < |line|
    decreases |cs|
  {
    if |cs| == 0 then [NewLine]
    else
      var end := if |cs| > 1 then cs[1] else |line|;
      [Styled(Top(StackAt(tbl, cs[0] + 1)), line[cs[0]..end])] + Segments(line, tbl, cs[1..])
  }

  /**
   * What a line should look like: the plain text before the first position
   * with operations, then one run per such position below the line's length.
   */
  function Layout(line: string, tbl: OpTable): seq<Chunk> {
    var cs := Cuts(tbl, 0, |line|);
    [Styled(Plain, line[..FirstCut(cs, |line|)])] + Segments(line, tbl, cs)
  }

  lemma SegmentsCons(line: string, tbl: OpTable, c: nat, rest: seq<nat>)
    requires Ascending([c] + rest) && forall k :: 0 <= k < |[c] + rest| ==> ([c] + rest)[k] < |line|
    ensures Ascending(rest) && forall k :: 0 <= k < |rest| ==> rest[k] < |line|
    ensures c <= FirstCut(rest, |line|) <= |line|
    ensures Segments(line, tbl, [c] + rest) ==
      [Styled(Top(StackAt(tbl, c + 1)), line[c..FirstCut(rest, |line|)])] + Segments(line, tbl, rest)
  {
    var cs := [c] + rest;
    assert cs[1..] == rest;
    assert forall k :: 0 <= k < |rest| ==> rest[k] == cs[k + 1];
    assert cs[0] == c < |line|;
    if |rest| > 0 {
      assert cs[0] < cs[1];
    }
  }

  /** Taking one more character into the buffer is the same as slicing from one position earlier. */
  lemma ExtendBuffer(line: string, buf: string, pos: nat, end: nat)
    requires pos < end <= |line|
    ensures [line[pos]] + line[pos + 1..end] == line[pos..end]
    ensures buf + [line[pos]] + line[pos + 1..end] == buf + line[pos..end]
  {
  }

  lemma RenderFromLayoutEnd(line: string, tbl: OpTable, stack: StyleStack, buf: string)
    ensures RenderFrom(line, tbl, |line|, stack, buf) ==
      [Styled(Top(stack), buf + line[|line|..FirstCut(Cuts(tbl, |line|, |line|), |line|)])] + Segments(line, tbl, Cuts(tbl, |line|, |line|))
  {
    assert Cuts(tbl, |line|, |line|) == [];
    assert buf + line[|line|..|line|] == buf;
  }

  lemma RenderFromLayoutCut(line: string, tbl: OpTable, pos: nat, stack: StyleStack, buf: string, next: StyleStack)
    requires pos < |line| && pos in tbl && next == StackAt(tbl, pos + 1)
    requires RenderFrom(line, tbl, pos + 1, next, [line[pos]]) ==
      [Styled(Top(next), [line[pos]] + line[pos + 1..FirstCut(Cuts(tbl, pos + 1, |line|), |line|)])] + Segments(line, tbl, Cuts(tbl, pos + 1, |line|))
    ensures [Styled(Top(stack), buf)] + RenderFrom(line, tbl, pos + 1, next, [line[pos]]) ==
      [Styled(Top(stack), buf + line[pos..FirstCut(Cuts(tbl, pos, |line|), |line|)])] + Segments(line, tbl, Cuts(tbl, pos, |line|))
  {
    var rest := Cuts(tbl, pos + 1, |line|);
    var cs := Cuts(tbl, pos, |line|);
    assert cs == [pos] + rest;
    var e := FirstCut(rest, |line|);
    SegmentsCons(line, tbl, pos, rest);
    ExtendBuffer(line, buf, pos, e);
    var run := Styled(Top(next), line[pos..e]);
    var later := Segments(line, tbl, rest);
    assert RenderFrom(line, tbl, pos + 1, next, [line[pos]]) == [run] + later;
    assert Segments(line, tbl, cs) == [run] + later;
    assert FirstCut(cs, |line|) == pos;
    assert buf + line[pos..pos] == buf;
  }

  /** A position without operations is not a cut, and the run through it goes on past it. */
  lemma NotACut(line: string, tbl: OpTable, pos: nat)
    requires pos < |line| && pos !in tbl
    ensures Cuts(tbl, pos, |line|) == Cuts(tbl, pos + 1, |line|)
    ensures pos < FirstCut(Cuts(tbl, pos + 1, |line|), |line|)
  {
    var rest := Cuts(tbl, pos + 1, |line|);
    if |rest| > 0 {
      assert pos < rest[0];
    }
  }

  lemma {:induction false} RenderFromLayout(line: string, tbl: OpTable, pos: nat, stack: StyleStack, buf: string)
    requires pos <= |line| && stack == StackAt(tbl, pos)
    ensures RenderFrom(line, tbl, pos, stack, buf) ==
      [Styled(Top(stack), buf + line[pos..FirstCut(Cuts(tbl, pos, |line|), |line|)])] + Segments(line, tbl, Cuts(tbl, pos, |line|))
    decreases |line| - pos
  {
    if pos == |line| {
      RenderFromLayoutEnd(line, tbl, stack, buf);
    } else if pos in tbl {
      var next := ApplyOps(stack, tbl[pos]);
      RenderFromLayout(line, tbl, pos + 1, next, [line[pos]]);
      RenderFromLayoutCut(line, tbl, pos, stack, buf, next);
    } else {
      RenderFromLayout(line, tbl, pos + 1, stack, buf + [line[pos]]);
      NotACut(line, tbl, pos);
      ExtendBuffer(line, buf, pos, FirstCut(Cuts(tbl, pos + 1, |line|), |line|));
    }
  }

  /**
   * The sweep produces exactly the reference layout: one run before the first
   * position that has operations, then one run from each such position to the
   * next, styled by the stack after that position's operations.
   */
  lemma RenderIsLayout(line: string, tbl: OpTable)
    ensures RenderLine(line, tbl) == Layout(line, tbl)
  {
    RenderFromLayout(line, tbl, 0, [], []);
    assert [] + line[0..FirstCut(Cuts(tbl, 0, |line|), |line|)] == line[..FirstCut(Cuts(tbl, 0, |line|), |line|)];
  }

  // ---------------------------------------------------------------------------
  // Properties of the sweep

  lemma {:induction false} RenderFromText(line: string, tbl: OpTable, pos: nat, stack: StyleStack, buf: string)
    requires pos <= |line|
    ensures Printed(RenderFrom(line, tbl, pos, stack, buf)) == buf + line[pos..] + "\n"
    ensures OneLine(RenderFrom(line, tbl, pos, stack, buf))
    decreases |line| - pos
  {
    var r := RenderFrom(line, tbl, pos, stack, buf);
    if pos == |line| {
      assert Printed(r) == buf + Printed([NewLine]);
      assert Printed([NewLine]) == "\n" + Printed([]);
    } else if pos in tbl {
      var rest := RenderFrom(line, tbl, pos + 1, ApplyOps(stack, tbl[pos]), [line[pos]]);
      RenderFromText(line, tbl, pos + 1, ApplyOps(stack, tbl[pos]), [line[pos]]);
      assert r[1..] == rest;
      assert line[pos..] == [line[pos]] + line[pos + 1..];
      forall k | 0 <= k < |r| - 1 ensures r[k].Styled? {
        if k > 0 {
          assert r[k] == rest[k - 1];
        }
      }
    } else {
      RenderFromText(line, tbl, pos + 1, stack, buf + [line[pos]]);
      assert line[pos..] == [line[pos]] + line[pos + 1..];
    }
  }

  /**
   * Text preservation: the runs print the line exactly, character for
   * character, followed by one newline; every chunk but the last is a run.
   */
  lemma TextPreserved(line: string, tbl: OpTable)
    ensures Printed(RenderLine(line, tbl)) == line + "\n"
    ensures OneLine(RenderLine(line, tbl))
  {
    RenderFromText(line, tbl, 0, [], []);
    assert line[0..] == line;
  }

  lemma {:induction false} PaintedAppend(a: seq<Chunk>, b: seq<Chunk>)
    ensures Painted(a + b) == Painted(a) + Painted(b)
    decreases |a|
  {
    if |a| == 0 {
      assert a + b == b;
    } else {
      assert (a + b)[1..] == a[1..] + b;
      PaintedAppend(a[1..], b);
    }
  }

  /** Painting a flushed run followed by the rest of the output. */
  lemma PaintedFlush(st: Style, buf: string, rest: seq<Chunk>)
    ensures Painted([Styled(st, buf)] + rest) == Paint(st, buf) + Painted(rest)
  {
    PaintedAppend([Styled(st, buf)], rest);
    assert Painted([Styled(st, buf)]) == Paint(st, buf) + Painted([]);
  }

  /** What the painting of the sweep from `pos` looks like. */
  predicate PaintsFrom(r: seq<(Style, char)>, line: string, tbl: OpTable, pos: nat, top: Style, buf: string)
    requires pos <= |line|
  {
    |r| == |buf| + |line| - pos &&
    (forall i :: 0 <= i < |buf| ==> r[i] == (top, buf[i])) &&
    (forall p :: pos <= p < |line| ==> r[|buf| + p - pos] == (StyleAt(tbl, p), line[p]))
  }

  lemma PaintsFromCut(line: string, tbl: OpTable, pos: nat, stack: StyleStack, buf: string, r: seq<(Style, char)>)
    requires pos < |line| && pos in tbl
    requires PaintsFrom(r, line, tbl, pos + 1, StyleAt(tbl, pos), [line[pos]])
    ensures PaintsFrom(Paint(Top(stack), buf) + r, line, tbl, pos, Top(stack), buf)
  {
    var all := Paint(Top(stack), buf) + r;
    forall p | pos <= p < |line| ensures all[|buf| + p - pos] == (StyleAt(tbl, p), line[p]) {
      assert all[|buf| + p - pos] == r[1 + p - (pos + 1)];
    }
  }

  lemma PaintsFromPlain(line: string, tbl: OpTable, pos: nat, top: Style, buf: string, r: seq<(Style, char)>)
    requires pos < |line| && StyleAt(tbl, pos) == top
    requires PaintsFrom(r, line, tbl, pos + 1, top, buf + [line[pos]])
    ensures PaintsFrom(r, line, tbl, pos, top, buf)
  {
    forall p | pos <= p < |line| ensures r[|buf| + p - pos] == (StyleAt(tbl, p), line[p]) {
      if p == pos {
        assert r[|buf|] == (top, (buf + [line[pos]])[|buf|]);
      } else {
        assert r[|buf| + p - pos] == r[|buf + [line[pos]]| + p - (pos + 1)];
      }
    }
  }

  lemma {:induction false} RenderFromPainted(line: string, tbl: OpTable, pos: nat, stack: StyleStack, buf: string)
    requires pos <= |line| && stack == StackAt(tbl, pos)
    ensures PaintsFrom(Painted(RenderFrom(line, tbl, pos, stack, buf)), line, tbl, pos, Top(stack), buf)
    decreases |line| - pos
  {
    if pos == |line| {
      PaintedFlush(Top(stack), buf, [NewLine]);
      assert Painted([NewLine]) == [];
    } else if pos in tbl {
      var next := ApplyOps(stack, tbl[pos]);
      var rest := RenderFrom(line, tbl, pos + 1, next, [line[pos]]);
      RenderFromPainted(line, tbl, pos + 1, next, [line[pos]]);
      PaintedFlush(Top(stack), buf, rest);
      PaintsFromCut(line, tbl, pos, stack, buf, Painted(rest));
    } else {
      assert StackAt(tbl, pos + 1) == stack;
      RenderFromPainted(line, tbl, pos + 1, stack, buf + [line[pos]]);
      PaintsFromPlain(line, tbl, pos, Top(stack), buf, Painted(RenderFrom(line, tbl, pos + 1, stack, buf + [line[pos]])));
    }
  }

  /**
   * Every character of the line is printed, in order, in the style on top of
   * the stack once the operations at its own and all earlier positions have
   * been applied; the buffering never moves a style boundary.
   */
  lemma PaintedChars(line: string, tbl: OpTable)
    ensures |Painted(RenderLine(line, tbl))| == |line|
    ensures forall p :: 0 <= p < |line| ==> Painted(RenderLine(line, tbl))[p] == (StyleAt(tbl, p), line[p])
  {
    RenderFromPainted(line, tbl, 0, [], []);
  }

  /**
   * Pass-through: with no operations inside the line the output is the whole
   * line as one plain run and the terminator.
   */
  lemma PassThrough(line: string, tbl: OpTable)
    requires forall p :: 0 <= p < |line| ==> p !in tbl
    ensures RenderLine(line, tbl) == [Styled(Plain, line), NewLine]
  {
    RenderIsLayout(line, tbl);
    assert Cuts(tbl, 0, |line|) == [];
    assert line[..|line|] == line;
  }

  /** Restrict a table to the positions below `n`. */
  function Below(tbl: OpTable, n: nat): OpTable {
    map p | p in tbl && p < n :: tbl[p]
  }

  lemma {:induction false} RenderFromAgree(line: string, t1: OpTable, t2: OpTable, pos: nat, stack: StyleStack, buf: string)
    requires pos <= |line|
    requires forall p :: pos <= p < |line| ==> (p in t1 <==> p in t2) && OpsAt(t1, p) == OpsAt(t2, p)
    ensures RenderFrom(line, t1, pos, stack, buf) == RenderFrom(line, t2, pos, stack, buf)
    decreases |line| - pos
  {
    if pos < |line| {
      if pos in t1 {
        RenderFromAgree(line, t1, t2, pos + 1, ApplyOps(stack, t1[pos]), [line[pos]]);
      } else {
        RenderFromAgree(line, t1, t2, pos + 1, stack, buf + [line[pos]]);
      }
    }
  }

  /**
   * Operations recorded at or past the end of the line are never applied:
   * dropping them changes nothing. In particular a span ending at the end of
   * the line is never popped, and its style covers the tail.
   */
  lemma OutOfRangeIgnored(line: string, tbl: OpTable)
    ensures RenderLine(line, tbl) == RenderLine(line, Below(tbl, |line|))
  {
    RenderFromAgree(line, tbl, Below(tbl, |line|), 0, [], []);
  }

  lemma {:induction false} RenderFromTail(line: string, tbl: OpTable, pos: nat, stack: StyleStack, buf: string)
    requires pos <= |line| && stack == StackAt(tbl, pos)
    ensures var r := RenderFrom(line, tbl, pos, stack, buf);
      |r| >= 2 && r[|r| - 2].Styled? && r[|r| - 2].style == Top(StackAt(tbl, |line|))
    decreases |line| - pos
  {
    if pos < |line| {
      if pos in tbl {
        var rest := RenderFrom(line, tbl, pos + 1, ApplyOps(stack, tbl[pos]), [line[pos]]);
        RenderFromTail(line, tbl, pos + 1, ApplyOps(stack, tbl[pos]), [line[pos]]);
        var r := [Styled(Top(stack), buf)] + rest;
        assert r[|r| - 2] == rest[|rest| - 2];
      } else {
        assert StackAt(tbl, pos + 1) == stack;
        RenderFromTail(line, tbl, pos + 1, stack, buf + [line[pos]]);
      }
    }
  }

  /**
   * The tail is flushed under the final stack: the last run of a non-empty
   * line carries the style of the line's last character, the top of the
   * stack once every operation inside the line has been applied.
   */
  lemma TailUnderFinalTop(line: string, tbl: OpTable)
    requires |line| > 0
    ensures var r := RenderLine(line, tbl);
      |r| >= 2 && r[|r| - 2].Styled? && r[|r| - 2].style == StyleAt(tbl, |line| - 1) &&
      r[|r| - 2].style == Top(StackAt(tbl, |line|))
  {
    RenderFromTail(line, tbl, 0, [], []);
  }

  // ---------------------------------------------------------------------------
  // The loop as the source writes it

  /**
   * The render loop with a mutable buffer and stack, as in the source; it
   * produces the reference layout.
   */
  method RenderLoop(line: string, tbl: OpTable) returns (out: seq<Chunk>)
    ensures out == Layout(line, tbl)
  {
    out := [];
    var stack: StyleStack := [];
    var buf: string := [];
    var pos := 0;
    while pos < |line|
      invariant pos <= |line|
      invariant stack == StackAt(tbl, pos)
      invariant out + RenderFrom(line, tbl, pos, stack, buf) == RenderLine(line, tbl)
      decreases |line| - pos
    {
      if pos in tbl {
        var flushed := [Styled(Top(stack), buf)];
        var rest := RenderFrom(line, tbl, pos + 1, ApplyOps(stack, tbl[pos]), [line[pos]]);
        assert RenderFrom(line, tbl, pos, stack, buf) == flushed + rest;
        assert out + (flushed + rest) == (out + flushed) + rest;
        out := out + flushed;
        buf := [];
        stack := ApplyOps(stack, tbl[pos]);
        assert buf + [line[pos]] == [line[pos]];
      } else {
        assert StackAt(tbl, pos + 1) == stack;
        assert RenderFrom(line, tbl, pos, stack, buf) == RenderFrom(line, tbl, pos + 1, stack, buf + [line[pos]]);
      }
      buf := buf + [line[pos]];
      pos := pos + 1;
    }
    out := out + [Styled(Top(stack), buf), NewLine];
    RenderIsLayout(line, tbl);
  }
}
