/**
 * The whole filter: parse the `key=style` arguments, then colour every input
 * line independently. The regex engine is an input: the capture names of the
 * pattern, and for each line the matches it reports.
 */
module Recolor {
  import opened Results
  import opened Styles
  import opened StyleParser
  import opened Extract
  import opened Render
  import opened Nesting

  /** The operation table of one line, rebuilt from nothing for every line. */
  function LineTable(names: seq<Option<string>>, table: map<string, Style>, ms: seq<Match>): OpTable {
    Table(LineSpans(names, table, ms))
  }

  /** One coloured line: its spans' operations swept over its characters. */
  function ColorLine(names: seq<Option<string>>, table: map<string, Style>, line: string, ms: seq<Match>): seq<Chunk> {
    RenderLine(line, LineTable(names, table, ms))
  }

  /** Every line in turn, with its own matches; nothing carries over between lines. */
  function ColorLines(names: seq<Option<string>>, table: map<string, Style>, lines: seq<string>, matches: seq<seq<Match>>): seq<Chunk>
    requires |lines| == |matches|
    decreases |lines|
  {
    if |lines| == 0 then []
    else ColorLine(names, table, lines[0], matches[0]) + ColorLines(names, table, lines[1..], matches[1..])
  }

  /**
   * The filter: a style argument that does not parse stops it before any
   * output; otherwise every line is coloured with the parsed table.
   */
  function Run(args: seq<string>, names: seq<Option<string>>, lines: seq<string>, matches: seq<seq<Match>>): (r: Result<seq<Chunk>, ConfigError>)
    requires ArgsAscii(args) && |lines| == |matches|
  {
    match ParseStyles(args)
    case Err(e) => Err(e)
    case Ok(table) => Ok(ColorLines(names, table, lines, matches))
  }

  /** The input as the lines' text, each followed by a newline. */
  function Terminated(lines: seq<string>): string
    decreases |lines|
  {
    if |lines| == 0 then [] else lines[0] + "\n" + Terminated(lines[1..])
  }

  function CountNewLines(chunks: seq<Chunk>): nat
    decreases |chunks|
  {
    if |chunks| == 0 then 0 else (if chunks[0] == NewLine then 1 else 0) + CountNewLines(chunks[1..])
  }

  lemma {:induction false} TextAppend(a: seq<Chunk>, b: seq<Chunk>)
    ensures Printed(a + b) == Printed(a) + Printed(b)
    ensures CountNewLines(a + b) == CountNewLines(a) + CountNewLines(b)
    decreases |a|
  {
    if |a| == 0 {
      assert a + b == b;
    } else {
      assert (a + b)[1..] == a[1..] + b;
      TextAppend(a[1..], b);
    }
  }

  lemma {:induction false} OneLineNewLines(chunks: seq<Chunk>)
    requires OneLine(chunks)
    ensures CountNewLines(chunks) == 1
    decreases |chunks|
  {
    if |chunks| == 1 {
    } else {
      assert chunks[0].Styled?;
      var rest := chunks[1..];
      if |rest| == 1 {
        assert rest == [NewLine];
        assert CountNewLines(rest) == 1 + CountNewLines([]);
      } else {
        assert forall k :: 0 <= k < |rest| - 1 ==> rest[k] == chunks[k + 1];
        OneLineNewLines(rest);
      }
    }
  }

  /**
   * Text preservation for the whole input: the output prints exactly the
   * input lines, each followed by one newline, and holds one terminator per
   * line.
   */
  lemma {:induction false} ColorLinesText(names: seq<Option<string>>, table: map<string, Style>, lines: seq<string>, matches: seq<seq<Match>>)
    requires |lines| == |matches|
    ensures Printed(ColorLines(names, table, lines, matches)) == Terminated(lines)
    ensures CountNewLines(ColorLines(names, table, lines, matches)) == |lines|
    decreases |lines|
  {
    if |lines| > 0 {
      var first := ColorLine(names, table, lines[0], matches[0]);
      ColorLinesText(names, table, lines[1..], matches[1..]);
      TextPreserved(lines[0], LineTable(names, table, matches[0]));
      OneLineNewLines(first);
      TextAppend(first, ColorLines(names, table, lines[1..], matches[1..]));
    }
  }

  /** Lines are independent: colouring two blocks of lines is colouring each block. */
  lemma {:induction false} ColorLinesAppend(names: seq<Option<string>>, table: map<string, Style>,
                                            l1: seq<string>, m1: seq<seq<Match>>, l2: seq<string>, m2: seq<seq<Match>>)
    requires |l1| == |m1| && |l2| == |m2|
    ensures ColorLines(names, table, l1 + l2, m1 + m2) == ColorLines(names, table, l1, m1) + ColorLines(names, table, l2, m2)
    decreases |l1|
  {
    if |l1| == 0 {
      assert l1 + l2 == l2 && m1 + m2 == m2;
    } else {
      assert (l1 + l2)[1..] == l1[1..] + l2 && (m1 + m2)[1..] == m1[1..] + m2;
      ColorLinesAppend(names, table, l1[1..], m1[1..], l2, m2);
    }
  }

  /**
   * A style argument that does not parse stops the filter before it writes
   * anything, reporting the first bad argument; otherwise the output is the
   * input, coloured, one terminator per line.
   */
  lemma RunOutcome(args: seq<string>, names: seq<Option<string>>, lines: seq<string>, matches: seq<seq<Match>>)
    requires ArgsAscii(args) && |lines| == |matches|
    ensures Run(args, names, lines, matches).Ok? <==> AllArgsAccepted(args)
    ensures Run(args, names, lines, matches).Err? ==> exists k :: (0 <= k < |args| && !ArgAccepted(args[k]) &&
      (forall j :: 0 <= j < k ==> ArgAccepted(args[j])) && Run(args, names, lines, matches).error == ArgError(args[k]))
    ensures Run(args, names, lines, matches).Ok? ==>
      Printed(Run(args, names, lines, matches).value) == Terminated(lines) &&
      CountNewLines(Run(args, names, lines, matches).value) == |lines|
  {
    if AllArgsAccepted(args) {
      ColorLinesText(names, ParseStyles(args).value, lines, matches);
    }
  }

  /**
   * A line without matches, or whose matches have no participating group
   * past the whole match, passes through as one plain run.
   */
  lemma UnmatchedLinePassesThrough(names: seq<Option<string>>, table: map<string, Style>, line: string, ms: seq<Match>)
    requires LineSpans(names, table, ms) == []
    ensures ColorLine(names, table, line, ms) == [Styled(Plain, line), NewLine]
  {
    var tbl := LineTable(names, table, ms);
    assert SpanEvents([]) == [];
    assert forall p :: p !in tbl;
    PassThrough(line, tbl);
  }

  /**
   * A line whose spans are well nested: every character is printed in the
   * style of the innermost span covering it, or plainly.
   */
  lemma NestedLine(names: seq<Option<string>>, table: map<string, Style>, line: string, ms: seq<Match>)
    requires WellNested(LineSpans(names, table, ms))
    ensures |Painted(ColorLine(names, table, line, ms))| == |line|
    ensures forall p :: 0 <= p < |line| ==>
      Painted(ColorLine(names, table, line, ms))[p] == (Innermost(LineSpans(names, table, ms), p), line[p])
  {
    NestedPainting(line, LineSpans(names, table, ms));
  }

  /**
   * The pattern `(foo)` on "hello foo": the match's group 1 is printed in
   * the second palette colour, after the untouched prefix.
   */
  lemma SingleMatchExample()
    ensures var m: Match := [Some(Bounds(6, 9)), Some(Bounds(6, 9))];
      ColorLine([None, None], map[], "hello foo", [m]) ==
        [Styled(Plain, "hello "), Styled(PaletteStyle(1), "foo"), NewLine]
  {
    var m: Match := [Some(Bounds(6, 9)), Some(Bounds(6, 9))];
    var x := Span(6, 9, PaletteStyle(1));
    assert GroupSpansFrom([None, None], map[], m, 2) == [];
    assert MatchSpans([None, None], map[], m) == [x];
    assert LineSpans([None, None], map[], [m]) == [x] + LineSpans([None, None], map[], []);
    assert LineSpans([None, None], map[], [m]) == [x];
    var line := "hello foo";
    SingleSpanToEnd(line, x);
    assert line[..6] == "hello ";
    assert line[6..] == "foo";
  }

  /**
   * The pattern `123(5)` on "12345 12345 1235": only the last word matches,
   * and only its group 1, the final "5", is coloured.
   */
  lemma NonCaptureGroupExample()
    ensures var m: Match := [Some(Bounds(12, 16)), Some(Bounds(15, 16))];
      ColorLine([None, None], map[], "12345 12345 1235", [m]) ==
        [Styled(Plain, "12345 12345 123"), Styled(PaletteStyle(1), "5"), NewLine]
  {
    var m: Match := [Some(Bounds(12, 16)), Some(Bounds(15, 16))];
    var x := Span(15, 16, PaletteStyle(1));
    assert GroupSpansFrom([None, None], map[], m, 2) == [];
    assert MatchSpans([None, None], map[], m) == [x];
    assert LineSpans([None, None], map[], [m]) == [x] + LineSpans([None, None], map[], []);
    assert LineSpans([None, None], map[], [m]) == [x];
    var line := "12345 12345 1235";
    SingleSpanToEnd(line, x);
    assert line[..15] == "12345 12345 123";
    assert line[15..] == "5";
  }

  /**
   * The pattern `(foo)(bar)` on "hello foobar": the two groups are adjacent,
   * in the second and third palette colours.
   */
  lemma MultipleMatchExample()
    ensures var m: Match := [Some(Bounds(6, 12)), Some(Bounds(6, 9)), Some(Bounds(9, 12))];
      ColorLine([None, None, None], map[], "hello foobar", [m]) ==
        [Styled(Plain, "hello "), Styled(PaletteStyle(1), "foo"), Styled(PaletteStyle(2), "bar"), NewLine]
  {
    var names: seq<Option<string>> := [None, None, None];
    var m: Match := [Some(Bounds(6, 12)), Some(Bounds(6, 9)), Some(Bounds(9, 12))];
    var x := Span(6, 9, PaletteStyle(1));
    var y := Span(9, 12, PaletteStyle(2));
    assert GroupSpansFrom(names, map[], m, 3) == [];
    assert GroupSpansFrom(names, map[], m, 2) == [y];
    assert MatchSpans(names, map[], m) == [x, y];
    assert LineSpans(names, map[], [m]) == [x, y] + LineSpans(names, map[], []);
    assert LineSpans(names, map[], [m]) == [x, y];
    var line := "hello foobar";
    AdjacentSpansToEnd(line, x, y);
    assert line[..6] == "hello ";
    assert line[6..9] == "foo";
    assert line[9..] == "bar";
  }

  /** The matches of `(5)` on "12345 12345 12345": one per word, group 1 on its "5". */
  function FivesMatches(): seq<Match> {
    [[Some(Bounds(4, 5)), Some(Bounds(4, 5))],
     [Some(Bounds(10, 11)), Some(Bounds(10, 11))],
     [Some(Bounds(16, 17)), Some(Bounds(16, 17))]]
  }

  /** A match whose only group is group 1, over the same range as the whole match. */
  lemma OneGroupMatch(names: seq<Option<string>>, table: map<string, Style>, s: nat, e: nat)
    ensures MatchSpans(names, table, [Some(Bounds(s, e)), Some(Bounds(s, e))]) == [Span(s, e, GroupStyle(names, table, 1))]
  {
    assert GroupSpansFrom(names, table, [Some(Bounds(s, e)), Some(Bounds(s, e))], 2) == [];
  }

  /**
   * Three matches of group 1, each on one "5" of "12345 12345 12345": the
   * three characters are printed in group 1's style and the rest plainly,
   * whatever that style is.
   */
  lemma FivesLine(names: seq<Option<string>>, table: map<string, Style>, st: Style)
    requires GroupStyle(names, table, 1) == st
    ensures var out := ColorLine(names, table, "12345 12345 12345", FivesMatches());
      |Painted(out)| == 17 &&
      forall p :: 0 <= p < 17 ==>
        Painted(out)[p] == (if p == 4 || p == 10 || p == 16 then st else Plain, "12345 12345 12345"[p])
  {
    var ms := FivesMatches();
    var x, y, z := Span(4, 5, st), Span(10, 11, st), Span(16, 17, st);
    OneGroupMatch(names, table, 4, 5);
    OneGroupMatch(names, table, 10, 11);
    OneGroupMatch(names, table, 16, 17);
    assert ms[1..][1..][1..] == [];
    assert LineSpans(names, table, ms[1..][1..]) == [z] + LineSpans(names, table, []);
    assert LineSpans(names, table, ms[1..]) == [y] + [z];
    assert LineSpans(names, table, ms) == [x] + [y, z];
    var spans := [x, y, z];
    var line := "12345 12345 12345";
    assert Disjoint(spans);
    DisjointPainting(line, spans);
    forall p | 0 <= p < 17
      ensures Painted(RenderLine(line, Table(spans)))[p] == (if p == 4 || p == 10 || p == 16 then st else Plain, line[p])
    {
      if p == 4 {
        assert Covers(spans[0], p);
      } else if p == 10 {
        assert Covers(spans[1], p);
      } else if p == 16 {
        assert Covers(spans[2], p);
      } else {
        assert forall k :: 0 <= k < |spans| ==> !Covers(spans[k], p);
      }
    }
  }

  /** The pattern `(5)` on "12345 12345 12345": each "5" in the second palette colour. */
  lemma RepeatedMatchExample()
    ensures var out := ColorLine([None, None], map[], "12345 12345 12345", FivesMatches());
      |Painted(out)| == 17 &&
      forall p :: 0 <= p < 17 ==>
        Painted(out)[p] == (if p == 4 || p == 10 || p == 16 then PaletteStyle(1) else Plain, "12345 12345 12345"[p])
  {
    FivesLine([None, None], map[], PaletteStyle(1));
  }

  /** One accepted argument gives a table with its key alone. */
  lemma OneArgument(a: string)
    requires HasValue(a) && HexTokensAscii(ValueOf(a)) && ParseStyle(ValueOf(a)).Ok?
    ensures ArgsAscii([a])
    ensures ParseStyles([a]) == Ok(map[KeyOf(a) := ParseStyle(ValueOf(a)).value])
  {
    ArgsAsciiSnoc([], a);
    assert [] + [a] == [a];
    assert ParseStyles([]) == Ok(map[]);
    LaterAssignmentWins([], a);
  }

  /** An argument `key=#ff0000,underline` assigns 24-bit red with underline to the key. */
  lemma HexArgument(k: string)
    requires '=' !in k
    ensures HasValue(k + "=" + "#ff0000,underline") && KeyOf(k + "=" + "#ff0000,underline") == k
    ensures HexTokensAscii(ValueOf(k + "=" + "#ff0000,underline"))
    ensures ParseStyle(ValueOf(k + "=" + "#ff0000,underline")) == Ok(Style(Some(Rgb(255, 0, 0)), {Underline}))
  {
    assert '=' !in "#ff0000,underline";
    SecondEqualsIgnored(k, "#ff0000,underline", "");
    HexAndUnderlineExample();
  }

  /** The argument `five=#ff0000,underline` gives a table naming the group `five`. */
  lemma HexArgExample()
    ensures ArgsAscii(["five=#ff0000,underline"])
    ensures ParseStyles(["five=#ff0000,underline"]) == Ok(map["five" := Style(Some(Rgb(255, 0, 0)), {Underline})])
  {
    HexArgSpelling();
    HexArgTable("five=#ff0000,underline");
  }

  lemma HexArgSpelling()
    ensures "five" + "=" + "#ff0000,underline" == "five=#ff0000,underline"
  {
  }

  lemma HexArgTable(a: string)
    requires a == "five" + "=" + "#ff0000,underline"
    ensures ArgsAscii([a])
    ensures ParseStyles([a]) == Ok(map["five" := Style(Some(Rgb(255, 0, 0)), {Underline})])
  {
    HexArgument("five");
    OneArgument(a);
  }

  /**
   * The pattern `(?P<five>5)` with the argument `five=#ff0000,underline` on
   * "12345 12345 12345": the argument parses, and each "5" is printed in
   * 24-bit red with underline.
   */
  lemma HexColorLineExample()
    ensures ArgsAscii(["five=#ff0000,underline"])
    ensures var r := Run(["five=#ff0000,underline"], [None, Some("five")], ["12345 12345 12345"], [FivesMatches()]);
      r.Ok? && |Painted(r.value)| == 17 &&
      forall p :: 0 <= p < 17 ==>
        Painted(r.value)[p] ==
          (if p == 4 || p == 10 || p == 16 then Style(Some(Rgb(255, 0, 0)), {Underline}) else Plain, "12345 12345 12345"[p])
  {
    HexArgExample();
    var st := Style(Some(Rgb(255, 0, 0)), {Underline});
    var table := map["five" := st];
    var names: seq<Option<string>> := [None, Some("five")];
    assert GroupStyle(names, table, 1) == st;
    var line := "12345 12345 12345";
    FivesLine(names, table, st);
    var out := ColorLine(names, table, line, FivesMatches());
    assert ColorLines(names, table, [line], [FivesMatches()]) == out + ColorLines(names, table, [], []);
    assert out + [] == out;
  }

  /**
   * The pattern `12(3(5))` on "12345 12345 1235": only the last word matches;
   * the outer group's colour covers "3" and the inner group's colour "5".
   */
  lemma NestedGroupsExample()
    ensures var m: Match := [Some(Bounds(12, 16)), Some(Bounds(14, 16)), Some(Bounds(15, 16))];
      ColorLine([None, None, None], map[], "12345 12345 1235", [m]) ==
        [Styled(Plain, "12345 12345 12"), Styled(PaletteStyle(1), "3"), Styled(PaletteStyle(2), "5"), NewLine]
  {
    var names: seq<Option<string>> := [None, None, None];
    var m: Match := [Some(Bounds(12, 16)), Some(Bounds(14, 16)), Some(Bounds(15, 16))];
    var outer := Span(14, 16, PaletteStyle(1));
    var inner := Span(15, 16, PaletteStyle(2));
    assert GroupSpansFrom(names, map[], m, 3) == [];
    assert GroupSpansFrom(names, map[], m, 2) == [inner];
    assert MatchSpans(names, map[], m) == [outer, inner];
    assert LineSpans(names, map[], [m]) == [outer, inner] + LineSpans(names, map[], []);
    assert LineSpans(names, map[], [m]) == [outer, inner];
    var line := "12345 12345 1235";
    NestedSpansToEnd(line, outer, inner);
    assert line[..14] == "12345 12345 12";
    assert line[14..15] == "3";
    assert line[15..] == "5";
  }

  /** An argument `key=colour` assigns the plain style with that base colour to the key. */
  lemma ColorArgument(k: string, c: Ansi)
    requires '=' !in k
    ensures HasValue(k + "=" + AnsiName(c)) && KeyOf(k + "=" + AnsiName(c)) == k
    ensures HexTokensAscii(ValueOf(k + "=" + AnsiName(c)))
    ensures ParseStyle(ValueOf(k + "=" + AnsiName(c))) == Ok(Plain.WithColor(Named(c)))
  {
    assert '=' !in AnsiName(c);
    SecondEqualsIgnored(k, AnsiName(c), "");
    ColorAndEffectAlone(Named(c), Bold);
  }

  /** Two accepted arguments: the second's key is assigned after the first's. */
  lemma TwoArguments(a1: string, a2: string)
    requires HasValue(a1) && HexTokensAscii(ValueOf(a1)) && ParseStyle(ValueOf(a1)).Ok?
    requires HasValue(a2) && HexTokensAscii(ValueOf(a2)) && ParseStyle(ValueOf(a2)).Ok?
    ensures ArgsAscii([a1, a2])
    ensures ParseStyles([a1, a2]) ==
      Ok(map[KeyOf(a1) := ParseStyle(ValueOf(a1)).value][KeyOf(a2) := ParseStyle(ValueOf(a2)).value])
  {
    ArgsAsciiSnoc([], a1);
    assert [] + [a1] == [a1];
    ArgsAsciiSnoc([a1], a2);
    assert [a1] + [a2] == [a1, a2];
    assert ParseStyles([]) == Ok(map[]);
    LaterAssignmentWins([], a1);
    LaterAssignmentWins([a1], a2);
  }

  /** The arguments `foo=green bar=red` give a table naming the two groups. */
  lemma NamedArgsExample()
    ensures ArgsAscii(["foo=green", "bar=red"])
    ensures ParseStyles(["foo=green", "bar=red"]) ==
      Ok(map["foo" := Plain.WithColor(Named(Green)), "bar" := Plain.WithColor(Named(Red))])
  {
    ColorArgument("foo", Green);
    ColorArgument("bar", Red);
    assert "foo" + "=" + AnsiName(Green) == "foo=green";
    assert "bar" + "=" + AnsiName(Red) == "bar=red";
    TwoArguments("foo=green", "bar=red");
  }

  /**
   * The pattern `(?P<foo>foo)(?P<bar>bar)` on "hello foobar" with a table
   * naming both groups: each group takes its style from the table.
   */
  lemma NamedLineExample(g: Style, r: Style)
    ensures var m: Match := [Some(Bounds(6, 12)), Some(Bounds(6, 9)), Some(Bounds(9, 12))];
      ColorLine([None, Some("foo"), Some("bar")], map["foo" := g, "bar" := r], "hello foobar", [m]) ==
        [Styled(Plain, "hello "), Styled(g, "foo"), Styled(r, "bar"), NewLine]
  {
    var table := map["foo" := g, "bar" := r];
    var names: seq<Option<string>> := [None, Some("foo"), Some("bar")];
    var m: Match := [Some(Bounds(6, 12)), Some(Bounds(6, 9)), Some(Bounds(9, 12))];
    assert GroupStyle(names, table, 1) == g;
    assert GroupStyle(names, table, 2) == r;
    var x := Span(6, 9, g);
    var y := Span(9, 12, r);
    assert GroupSpansFrom(names, table, m, 3) == [];
    assert GroupSpansFrom(names, table, m, 2) == [y];
    assert MatchSpans(names, table, m) == [x, y];
    assert LineSpans(names, table, [m]) == [x, y] + LineSpans(names, table, []);
    assert LineSpans(names, table, [m]) == [x, y];
    var line := "hello foobar";
    AdjacentSpansToEnd(line, x, y);
    assert line[..6] == "hello ";
    assert line[6..9] == "foo";
    assert line[9..] == "bar";
  }

  /**
   * The whole filter on the named-groups case: `foo=green bar=red` parse, and
   * "hello foobar" comes out with "foo" green and "bar" red.
   */
  lemma NamedMatchExample()
    ensures var m: Match := [Some(Bounds(6, 12)), Some(Bounds(6, 9)), Some(Bounds(9, 12))];
      ArgsAscii(["foo=green", "bar=red"]) &&
      Run(["foo=green", "bar=red"], [None, Some("foo"), Some("bar")], ["hello foobar"], [[m]]) ==
        Ok([Styled(Plain, "hello "), Styled(Plain.WithColor(Named(Green)), "foo"), Styled(Plain.WithColor(Named(Red)), "bar"), NewLine])
  {
    NamedArgsExample();
    var g, r := Plain.WithColor(Named(Green)), Plain.WithColor(Named(Red));
    var table := map["foo" := g, "bar" := r];
    var names: seq<Option<string>> := [None, Some("foo"), Some("bar")];
    var m: Match := [Some(Bounds(6, 12)), Some(Bounds(6, 9)), Some(Bounds(9, 12))];
    NamedLineExample(g, r);
    var out := ColorLine(names, table, "hello foobar", [m]);
    assert ColorLines(names, table, ["hello foobar"], [[m]]) == out + ColorLines(names, table, [], []);
    assert out + [] == out;
  }
}
