/**
 * The span extractor: turning the regex engine's capture positions into
 * styled spans, the spans into push/pop events, and the events into the
 * per-position operation table the renderer sweeps over.
 *
 * The regex engine is not modelled: a line's matches arrive as input, each
 * a sequence indexed by capture-group number (0 is the whole match) holding
 * the group's character range, or None when the group did not participate.
 */
module Extract {
  import opened Results
  import opened Styles

  /** A capture's half-open character range `[start, end)` within the line. */
  datatype Bounds = Bounds(start: nat, end: nat)

  /** One match: entry `i` is capture group `i`. */
  type Match = seq<Option<Bounds>>

  /** A styled half-open range of the line. */
  datatype Span = Span(start: nat, end: nat, style: Style)

  /** A stack operation recorded at a position (the source's `Op`). */
  datatype Op = Push(style: Style) | Pop

  datatype Event = Event(pos: nat, op: Op)

  /** Recorded operations by position (the source's `ops_by_position`). */
  type OpTable = map<nat, seq<Op>>

  // ---------------------------------------------------------------------------
  // Style resolution

  /**
   * The style of capture group `i`: the table's entry when the group is named
   * and the table has that name, otherwise the palette colour for `i`.
   * `names[i]` is the group's name (None for an unnamed group); an index past
   * the end of `names` counts as unnamed.
   */
  function GroupStyle(names: seq<Option<string>>, table: map<string, Style>, i: nat): Style {
    if Mapped(names, table, i) then table[names[i].value] else PaletteStyle(i)
  }

  /** Whether the table gives group `i` a style of its own. */
  predicate Mapped(names: seq<Option<string>>, table: map<string, Style>, i: nat) {
    i < |names| && names[i].Some? && names[i].value in table
  }

  /**
   * A group the table does not style gets a palette colour that depends only
   * on its number modulo seven: not on the names, not on the table, and not
   * on which match it came from.
   */
  lemma DefaultStyleDependsOnlyOnIndex(names: seq<Option<string>>, table: map<string, Style>,
                                       names': seq<Option<string>>, table': map<string, Style>, i: nat, j: nat)
    requires !Mapped(names, table, i) && !Mapped(names', table', j)
    ensures GroupStyle(names, table, i) in Palette
    ensures GroupStyle(names, table, i) == GroupStyle(names', table', j) <==> i % 7 == j % 7
  {
    PalettePeriodic(i, j);
  }

  /** A mapped group takes its style from the table, whatever its number. */
  lemma NamedStyleFromTable(names: seq<Option<string>>, table: map<string, Style>, i: nat, j: nat)
    requires Mapped(names, table, i) && Mapped(names, table, j) && names[i] == names[j]
    ensures GroupStyle(names, table, i) == GroupStyle(names, table, j) == table[names[i].value]
  {
  }

  // ---------------------------------------------------------------------------
  // Spans

  /** The span group `i` of `m` contributes, when it participates. */
  function GroupSpan(names: seq<Option<string>>, table: map<string, Style>, m: Match, i: nat): Span
    requires i < |m| && m[i].Some?
  {
    Span(m[i].value.start, m[i].value.end, GroupStyle(names, table, i))
  }

  /** The numbers of the groups from `i` on that took part in the match. */
  function Participants(m: Match, i: nat): set<nat> {
    set j: nat | i <= j < |m| && m[j].Some?
  }

  /** Participating groups `i..` of one match, in group order. */
  function GroupSpansFrom(names: seq<Option<string>>, table: map<string, Style>, m: Match, i: nat): (r: seq<Span>)
    requires i >= 1
    ensures |r| == |Participants(m, i)|
    decreases |m| - i
  {
    if i >= |m| then
      assert Participants(m, i) == {};
      []
    else
      var rest := GroupSpansFrom(names, table, m, i + 1);
      var here := if m[i].Some? then [GroupSpan(names, table, m, i)] else [];
      assert Participants(m, i) == (if m[i].Some? then {i} else {}) + Participants(m, i + 1);
      here + rest
  }

  lemma {:induction false} GroupSpansFromMembers(names: seq<Option<string>>, table: map<string, Style>, m: Match, i: nat)
    requires i >= 1
    ensures forall s :: s in GroupSpansFrom(names, table, m, i) <==>
      exists j :: i <= j < |m| && m[j].Some? && s == GroupSpan(names, table, m, j)
    decreases |m| - i
  {
    if i < |m| {
      GroupSpansFromMembers(names, table, m, i + 1);
      var r := GroupSpansFrom(names, table, m, i);
      var rest := GroupSpansFrom(names, table, m, i + 1);
      var here := if m[i].Some? then [GroupSpan(names, table, m, i)] else [];
      assert r == here + rest;
      forall s | s in r ensures exists j :: i <= j < |m| && m[j].Some? && s == GroupSpan(names, table, m, j) {
        if s !in rest {
          assert s in here;
        }
      }
    }
  }

  /** The spans of one match: every participating group from 1 on (group 0 is skipped). */
  function MatchSpans(names: seq<Option<string>>, table: map<string, Style>, m: Match): seq<Span> {
    GroupSpansFrom(names, table, m, 1)
  }

  /** The spans of a line: the spans of each match, match after match. */
  function LineSpans(names: seq<Option<string>>, table: map<string, Style>, ms: seq<Match>): seq<Span>
    decreases |ms|
  {
    if |ms| == 0 then [] else MatchSpans(names, table, ms[0]) + LineSpans(names, table, ms[1..])
  }

  /**
   * Exactly one span per participating group `i >= 1`, each at the group's
   * bounds and in the group's style; group 0 and non-participating groups
   * contribute nothing.
   */
  lemma MatchSpansExactly(names: seq<Option<string>>, table: map<string, Style>, m: Match)
    ensures |MatchSpans(names, table, m)| == |Participants(m, 1)|
    ensures forall s :: s in MatchSpans(names, table, m) <==>
      exists i :: 1 <= i < |m| && m[i].Some? && s == GroupSpan(names, table, m, i)
  {
    GroupSpansFromMembers(names, table, m, 1);
  }

  /**
   * The spans come in ascending group number: the span of participating
   * group `j` sits right after the spans of the participating groups
   * numbered `1 .. j - 1`.
   */
  lemma MatchSpansOrder(names: seq<Option<string>>, table: map<string, Style>, m: Match, j: nat)
    requires 1 <= j < |m| && m[j].Some?
    ensures |Participants(m, 1) - Participants(m, j)| < |MatchSpans(names, table, m)|
    ensures MatchSpans(names, table, m)[|Participants(m, 1) - Participants(m, j)|] == GroupSpan(names, table, m, j)
  {
    GroupSpansFromAt(names, table, m, 1, j);
  }

  lemma {:induction false} GroupSpansFromAt(names: seq<Option<string>>, table: map<string, Style>, m: Match, i: nat, j: nat)
    requires 1 <= i <= j < |m| && m[j].Some?
    ensures |Participants(m, i) - Participants(m, j)| < |GroupSpansFrom(names, table, m, i)|
    ensures GroupSpansFrom(names, table, m, i)[|Participants(m, i) - Participants(m, j)|] == GroupSpan(names, table, m, j)
    decreases j - i
  {
    var r := GroupSpansFrom(names, table, m, i);
    var rest := GroupSpansFrom(names, table, m, i + 1);
    var here := if m[i].Some? then [GroupSpan(names, table, m, i)] else [];
    assert r == here + rest;
    if i == j {
      assert Participants(m, i) - Participants(m, j) == {};
    } else {
      GroupSpansFromAt(names, table, m, i + 1, j);
      ParticipantsBefore(m, i, j);
      var k := |Participants(m, i + 1) - Participants(m, j)|;
      assert r[|here| + k] == rest[k];
    }
  }

  /** The participants in `[i, j)`: group `i` when it took part, then those in `[i + 1, j)`. */
  lemma ParticipantsBefore(m: Match, i: nat, j: nat)
    requires i < j
    ensures |Participants(m, i) - Participants(m, j)| ==
      (if i < |m| && m[i].Some? then 1 else 0) + |Participants(m, i + 1) - Participants(m, j)|
  {
    var before := Participants(m, i + 1) - Participants(m, j);
    var here: set<nat> := if i < |m| && m[i].Some? then {i} else {};
    assert Participants(m, i) - Participants(m, j) == here + before;
    assert i !in before;
  }

  /** Whatever the whole-match entry holds, it never becomes a span. */
  lemma {:induction false} WholeMatchIgnored(names: seq<Option<string>>, table: map<string, Style>, m: Match, whole: Option<Bounds>)
    requires |m| > 0
    ensures MatchSpans(names, table, m[0 := whole]) == MatchSpans(names, table, m)
  {
    GroupSpansFromAgree(names, table, m, m[0 := whole], 1);
  }

  lemma {:induction false} GroupSpansFromAgree(names: seq<Option<string>>, table: map<string, Style>, m: Match, m': Match, i: nat)
    requires i >= 1 && |m| == |m'|
    requires forall j :: i <= j < |m| ==> m[j] == m'[j]
    ensures GroupSpansFrom(names, table, m, i) == GroupSpansFrom(names, table, m', i)
    decreases |m| - i
  {
    if i < |m| {
      GroupSpansFromAgree(names, table, m, m', i + 1);
    }
  }

  /** The spans of several matches are the spans of each, concatenated in match order. */
  lemma {:induction false} LineSpansAppend(names: seq<Option<string>>, table: map<string, Style>, ms: seq<Match>, ms': seq<Match>)
    ensures LineSpans(names, table, ms + ms') == LineSpans(names, table, ms) + LineSpans(names, table, ms')
    decreases |ms|
  {
    if |ms| == 0 {
      assert ms + ms' == ms';
    } else {
      assert (ms + ms')[1..] == ms[1..] + ms';
      LineSpansAppend(names, table, ms[1..], ms');
    }
  }

  // ---------------------------------------------------------------------------
  // Events and the operation table

  /** A Push at each span's start followed by a Pop at its end, span after span. */
  function SpanEvents(spans: seq<Span>): (r: seq<Event>)
    ensures |r| == 2 * |spans|
    ensures forall k :: 0 <= k < |spans| ==>
      r[2 * k] == Event(spans[k].start, Push(spans[k].style)) && r[2 * k + 1] == Event(spans[k].end, Pop)
    decreases |spans|
  {
    if |spans| == 0 then []
    else
      var rest := SpanEvents(spans[1..]);
      var r := [Event(spans[0].start, Push(spans[0].style)), Event(spans[0].end, Pop)] + rest;
      SpanEventsStep(spans, rest, r);
      r
  }

  /** The events of the first span, then the events of the rest, index by index. */
  lemma SpanEventsStep(spans: seq<Span>, rest: seq<Event>, r: seq<Event>)
    requires |spans| > 0 && |rest| == 2 * (|spans| - 1)
    requires forall k :: 0 <= k < |spans| - 1 ==>
      rest[2 * k] == Event(spans[1..][k].start, Push(spans[1..][k].style)) && rest[2 * k + 1] == Event(spans[1..][k].end, Pop)
    requires r == [Event(spans[0].start, Push(spans[0].style)), Event(spans[0].end, Pop)] + rest
    ensures forall k :: 0 <= k < |spans| ==>
      r[2 * k] == Event(spans[k].start, Push(spans[k].style)) && r[2 * k + 1] == Event(spans[k].end, Pop)
  {
    forall k | 0 <= k < |spans|
      ensures r[2 * k] == Event(spans[k].start, Push(spans[k].style)) && r[2 * k + 1] == Event(spans[k].end, Pop)
    {
      if k > 0 {
        assert spans[k] == spans[1..][k - 1];
        assert r[2 * k] == rest[2 * (k - 1)];
        assert r[2 * k + 1] == rest[2 * (k - 1) + 1];
      }
    }
  }

  /** The operations recorded at `p`, or none. */
  function OpsAt(tbl: OpTable, p: nat): seq<Op> {
    if p in tbl then tbl[p] else []
  }

  /** The operations of the events at `p`, in event order. */
  function EventsAt(evs: seq<Event>, p: nat): seq<Op>
    decreases |evs|
  {
    if |evs| == 0 then []
    else (if evs[0].pos == p then [evs[0].op] else []) + EventsAt(evs[1..], p)
  }

  /** Appending an event to its position's list (`entry(pos).or_default().push(op)`). */
  function Record(tbl: OpTable, e: Event): OpTable {
    tbl[e.pos := OpsAt(tbl, e.pos) + [e.op]]
  }

  /** Recording a list of events, in order, into a table. */
  function RecordAll(tbl: OpTable, evs: seq<Event>): OpTable
    decreases |evs|
  {
    if |evs| == 0 then tbl else RecordAll(Record(tbl, evs[0]), evs[1..])
  }

  /** The table built from nothing (the table is cleared for every line). */
  function BuildTable(evs: seq<Event>): OpTable {
    RecordAll(map[], evs)
  }

  lemma {:induction false} RecordAllSpec(tbl: OpTable, evs: seq<Event>, p: nat)
    ensures OpsAt(RecordAll(tbl, evs), p) == OpsAt(tbl, p) + EventsAt(evs, p)
    ensures p in RecordAll(tbl, evs) <==> p in tbl || EventsAt(evs, p) != []
    decreases |evs|
  {
    if |evs| > 0 {
      RecordAllSpec(Record(tbl, evs[0]), evs[1..], p);
    }
  }

  /**
   * The table holds, at each position, exactly the operations of the events
   * at that position in the order they were recorded, and has an entry for a
   * position exactly when some event falls there.
   */
  lemma BuildTableSpec(evs: seq<Event>, p: nat)
    ensures OpsAt(BuildTable(evs), p) == EventsAt(evs, p)
    ensures p in BuildTable(evs) <==> EventsAt(evs, p) != []
  {
    RecordAllSpec(map[], evs, p);
  }

  lemma {:induction false} EventsAtAppend(a: seq<Event>, b: seq<Event>, p: nat)
    ensures EventsAt(a + b, p) == EventsAt(a, p) + EventsAt(b, p)
    decreases |a|
  {
    if |a| == 0 {
      assert a + b == b;
    } else {
      assert (a + b)[1..] == a[1..] + b;
      EventsAtAppend(a[1..], b, p);
    }
  }

  /** The events of a list of spans with one more span at the end. */
  lemma {:induction false} SpanEventsSnoc(spans: seq<Span>, s: Span)
    ensures SpanEvents(spans + [s]) == SpanEvents(spans) + [Event(s.start, Push(s.style)), Event(s.end, Pop)]
    decreases |spans|
  {
    if |spans| == 0 {
      assert spans + [s] == [s];
    } else {
      assert (spans + [s])[1..] == spans[1..] + [s];
      SpanEventsSnoc(spans[1..], s);
    }
  }
}
