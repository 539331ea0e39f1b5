# recolor, modelled in Dafny

recolor is a line filter. It takes a regular expression and `name=style`
arguments, and prints each input line with the text of every capture group
coloured. A named group gets the style the arguments give its name. Any
other group gets a colour from a seven-entry palette, chosen by its group
number. Groups may nest. A stack of styles makes an inner group's style
apply to exactly its own text, after which the outer style resumes.

The model covers the program's pure core, in `src/main.rs`:

- **`styles.dfy`** (`Styles`): the abstract terminal style. It holds an
  optional foreground colour (base, `bright_`, or 24-bit) and a set of
  effects. Also here are the seven-entry default palette and `Plain`, the
  style that changes nothing.
- **`text.dfy`** (`Text`): `Split` and `Join` at a separator character, as
  `str::split` behaves, with their round trips.
- **`style_parser.dfy`** (`StyleParser`):
  - `parse_style` as `ParseStyle`, a fold over the comma-separated tokens.
  - `parse_styles` as `ParseStyles`, which turns `key=value` arguments into
    a map.
  - The token vocabulary, hex literals and the error cases.
- **`extract.dfy`** (`Extract`): the capture extraction loop. Each match
  arrives as input: a sequence, indexed by group number, of optional
  character ranges.
  - Group 0 is skipped.
  - Styles are resolved through the name table, or fall back to the palette.
  - Each participating group records a `Push` at its start and a `Pop` at
    its end, in an operation table keyed by position.
- **`render.dfy`** (`Render`): the render sweep, with a reference layout it
  provably equals. Also a loop-based method written the way the source
  writes it.
- **`nesting.dfy`** (`Nesting`): what the sweep means for well-nested spans
  (innermost style wins), the run shapes for one span, two adjacent spans
  and two nested spans, and a case where the enumeration order breaks
  nesting.
- **`recolor.dfy`** (`Recolor`): the whole filter over a list of lines. Its
  outcome is proved, and every test case of the source is worked as an
  example lemma, except "no matches", which the general
  `Recolor.UnmatchedLinePassesThrough` covers. Tests whose runs can be
  compared directly are stated as exact output chunks. The three-match
  tests are stated character by character.

Output is modelled as a sequence of chunks. A chunk is either a run of text
printed in one style or a line terminator. Escape sequences are not
modelled: runs are compared by style and text, not by the bytes they would
print, so two runs with different styles count as different even where the
terminal would show them alike (empty or hidden text).

Behaviour of the code worth knowing:

- An unknown token and a `#` token of the wrong length are reported with
  the whole argument quoted (`src/main.rs:50`, `src/main.rs:84`).
- The bytes of a `#` literal are read by the integer parser
  (`src/main.rs:53-55`). It accepts a leading `+`, so `#+f+f+f` is accepted
  as (15, 15, 15). A bad digit surfaces the parser's own error, which does
  not quote the argument.
- An argument is split at every `=`, and only the first two pieces are used
  (`src/main.rs:93-99`). So each `key=value` assignment must be its own
  argument: `foo=green,bar=red` gives key `foo` and value `green,bar`. The
  piece `red` is dropped, and the value is refused because the token `bar`
  is unknown.
- The sweep only visits positions of characters. Operations recorded at the
  line's length are never applied, and the tail is flushed under whatever
  is on top of the stack then.
- Operations at one position are applied in recording order: match order,
  then group order. Each character gets the style of the last recorded span
  covering it whenever every span recorded after another either lies inside
  it, starts at or after its end, or ends strictly before its start. What
  can break this is a later span ending exactly where an earlier one
  starts: its pop lands after the earlier push and can remove the wrong
  style. An empty earlier span is harmless, since its own pop follows.
  `Nesting.RepeatedGroupMisrendered` shows a repeated group doing this.
  `Nesting.RepeatedGroupWithGap` shows that the same right-to-left order is
  harmless when a gap separates the spans.

## Model

| member | source | states |
|---|---|---|
| Styles.PaletteStyle | src/main.rs:32-42 | a default style is one of the seven palette entries: a base foreground colour other than black, with no effects |
| Styles.PalettePeriodic | src/main.rs:129-130 | two group numbers get the same default style exactly when they are equal modulo seven |
| Text.JoinSplit | src/main.rs:47 | joining the pieces of a split at the separator gives back the original string |
| Text.SplitJoin | src/main.rs:47 | splitting a join of separator-free pieces gives back the pieces |
| Text.SplitAppend | src/main.rs:47 | splitting `a + sep + b` gives the pieces of `a` followed by the pieces of `b` |
| StyleParser.HexPairRoundTrip | src/main.rs:52-56 | the two lower-case hex digits of a byte read back as that byte |
| StyleParser.HexPairAccepts | src/main.rs:53-55 | a two-character pair is accepted exactly when it is two hex digits or `+` and one hex digit, and two digits read as 16·high + low |
| StyleParser.EffectTokenRoundTrip | src/main.rs:48-83 | every colour and every effect has a token that reads back as exactly that colour or effect |
| StyleParser.SynonymsBoldDim | src/main.rs:77-78 | `bolded` means `bold`; `dim` means `dimmed` |
| StyleParser.SynonymsItalicUnderline | src/main.rs:79-80 | `italics` means `italic`; `underlined` means `underline` |
| StyleParser.SynonymsBlinkStrike | src/main.rs:81-83 | `blinking` means `blink`; `struckthrough` and `strike` mean `strikethrough` |
| StyleParser.AccumulateAccepted | src/main.rs:46-87 | when every token is accepted, the fold ends with the last colour token's colour (or the start colour if none) and the start effects plus every effect token's effect |
| StyleParser.AccumulateRefused | src/main.rs:48-85 | when some token is refused, the fold returns the first refused token's error and nothing else |
| StyleParser.ParseStyle | src/main.rs:45-88 | an argument parses exactly when all its comma-separated tokens are accepted; the style is then the last colour named plus every effect named; otherwise the error is the first refused token's, quoting the argument for length and vocabulary errors |
| StyleParser.ParseStyleNeverPlain | src/main.rs:45-88 | no accepted argument yields the plain style, since the empty token is refused and every accepted token sets something |
| StyleParser.FormatStyleRoundTrip | src/main.rs:45-88 | every non-plain style has a comma-separated spelling that parses back to exactly that style |
| StyleParser.StyleTokensMeaning | src/main.rs:47-85 | the canonical tokens of a style are all accepted, and their last colour and their effects are the style's own |
| StyleParser.ParseStyleConcat | src/main.rs:47-86 | parsing `a,b` composes the two parses: the right colour wins when it names one, effects add up, and a refused left side stays refused |
| StyleParser.LaterColorWins | src/main.rs:24-26 | of two colour tokens the later one decides the colour, as in `red,green` being green |
| StyleParser.ColorAndEffectCombine | src/main.rs:24-26 | a colour token and an effect token combine in either order, as in `bold,red` |
| StyleParser.HexAndUnderlineExample | src/main.rs:223-230 | `#ff0000,underline` is 24-bit red with underline |
| StyleParser.TrailingCommaRefused | src/main.rs:84 | `red,` is refused: the trailing comma leaves an empty token |
| StyleParser.EmptyArgumentRefused | src/main.rs:84 | the empty argument is refused as an invalid style |
| StyleParser.UnknownNameRefused | src/main.rs:84 | `purple` is refused with the argument quoted |
| StyleParser.SingleTokenRefused | src/main.rs:48-85 | an argument made of one refused token is refused with that token's error |
| StyleParser.ShortHexRefused | src/main.rs:48-50 | every ASCII `#` argument of one token whose length is not seven is refused as an invalid hex colour, quoting the argument |
| StyleParser.NonHexRefused | src/main.rs:52-56 | every seven-character ASCII `#` argument of one token in which some pair is not a base-16 byte is refused with the digit error |
| StyleParser.PlusSignAccepted | src/main.rs:53-55 | the integer parser's leading `+` lets `#+f+f+f` through as (15, 15, 15) |
| StyleParser.HasValueIffEquals | src/main.rs:93-99 | an argument has a value exactly when it contains `=` |
| StyleParser.ParseStyles | src/main.rs:90-104 | the arguments parse exactly when each has a value and that value parses; the map's keys are exactly the arguments' keys, each bound to the style of the last argument with that key; otherwise the error is the first bad argument's |
| StyleParser.SecondEqualsIgnored | src/main.rs:93-99 | in `k=v=w` the key is `k`, the value is `v`, and `w` is dropped |
| StyleParser.MissingEqualsRefused | src/main.rs:97-99 | an argument without `=` is refused with the fixed format error |
| StyleParser.LaterAssignmentWins | src/main.rs:100-101 | a later argument with an existing key overwrites that key and leaves every other key alone |
| Extract.DefaultStyleDependsOnlyOnIndex | src/main.rs:125-131 | a group the table does not style gets a palette style that depends only on its number modulo seven, not on the names, the table or the match |
| Extract.NamedStyleFromTable | src/main.rs:126-129 | a named group whose name is in the table takes the table's style, whatever its number |
| Extract.MatchSpansExactly | src/main.rs:124-140 | a match yields exactly one span per participating group numbered 1 or more, at the group's bounds and in its style; non-participating groups yield nothing |
| Extract.MatchSpansOrder | src/main.rs:124-140 | the spans come in ascending group number: the span of participating group `j` comes right after the spans of the participating groups numbered below it |
| Extract.WholeMatchIgnored | src/main.rs:124 | the whole-match entry, group 0, never becomes a span |
| Extract.LineSpansAppend | src/main.rs:123-142 | the spans of several matches are each match's spans, in match order |
| Extract.SpanEvents | src/main.rs:133-140 | each span contributes a push of its style at its start, then a pop at its end, in span order |
| Extract.BuildTableSpec | src/main.rs:134-139 | the table holds, at each position, exactly the operations recorded there in recording order, and has an entry exactly where some operation was recorded |
| Render.PopOnEmpty | src/main.rs:147-156 | popping an empty stack leaves it empty, and an empty stack means the plain style |
| Render.RenderIsLayout | src/main.rs:144-164 | the sweep gives a plain run before the first position with operations, then one run from each such position to the next, in the style on top after that position's operations, then the terminator |
| Render.RenderLoop | src/main.rs:144-164 | the loop with a mutable buffer and stack produces the reference layout |
| Render.TextPreserved | src/main.rs:144-164 | the runs print the line exactly, followed by one newline, and only the last chunk is a terminator |
| Render.PaintedChars | src/main.rs:145-161 | every character is printed once, in order, in the style on top once the operations at its own and all earlier positions have been applied |
| Render.PassThrough | src/main.rs:145-164 | with no operations inside the line, the output is the whole line as one plain run and the terminator |
| Render.OutOfRangeIgnored | src/main.rs:145-146 | operations at or past the line's length are never applied: dropping them changes nothing |
| Render.TailUnderFinalTop | src/main.rs:162-164 | the last run of a non-empty line carries the style of its last character, the top of the stack after every operation inside the line |
| Nesting.NestedStack | src/main.rs:151-158 | with well-nested spans (each span recorded after another lies inside it, starts at or after its end, or ends strictly before its start), the stack after the operations up to a position holds exactly the styles of the spans covering it, outer below inner |
| Nesting.InnermostSpec | src/main.rs:147 | the top of those styles is the style of the last span covering the position, or plain when none does |
| Nesting.CoveringSpansNest | src/main.rs:151-158 | with well-nested spans, of two spans covering the same character the later-recorded one lies inside the earlier one, so the last covering span is the innermost |
| Nesting.NestedPainting | src/main.rs:144-161 | with well-nested spans, each character is printed in the style of the innermost span covering it, or plainly |
| Nesting.DisjointPainting | src/main.rs:144-161 | spans listed left to right without overlap are well nested, and each character is printed in the style of the one span covering it, or plainly |
| Nesting.SingleSpan | src/main.rs:144-164 | one span inside the line gives the text before it plainly, the span's text in its style, then the rest plainly |
| Nesting.SingleSpanToEnd | src/main.rs:186-190 | one span reaching the end of the line gives the text before it plainly and the rest in the span's style |
| Nesting.AdjacentSpans | src/main.rs:144-164 | two adjacent spans inside the line give independent runs in their own styles, plain text around them |
| Nesting.AdjacentSpansToEnd | src/main.rs:192-196 | two adjacent spans, the second reaching the end, give the plain prefix and then one run per span |
| Nesting.NestedSpans | src/main.rs:151-158 | a span strictly inside another gives the outer style, the inner style over exactly the inner text, the outer style again, then plain text |
| Nesting.NestedSpansToEnd | src/main.rs:241-249 | a span nested inside another, both reaching the end, gives the outer style up to the inner span and the inner style after it |
| Nesting.RepeatedGroupWithGap | src/main.rs:123-161 | for `(?:(a)\|(b)\|c)+` on "bca" the spans are recorded right to left but separated by a gap, so they are well nested and each character is printed in its own group's colour or plainly |
| Nesting.RepeatedGroupMisrendered | src/main.rs:151-158 | for `(?:(a)\|(b))+` on "ba" the recorded spans are not well nested, and "a" is printed in group 2's colour although only group 1 covers it |
| Recolor.RunOutcome | src/main.rs:111-165 | a bad style argument stops the filter before any output, reporting the first bad argument; otherwise the output prints every input line followed by one newline, one terminator per line |
| Recolor.ColorLinesText | src/main.rs:118-165 | the output of all lines prints their text, each followed by one newline |
| Recolor.ColorLinesAppend | src/main.rs:118-120 | lines are independent: colouring two blocks of lines is colouring each block |
| Recolor.UnmatchedLinePassesThrough | src/main.rs:217-221 | a line without spans comes out as one plain run and the terminator |
| Recolor.NestedLine | src/main.rs:123-161 | a line whose spans are well nested prints each character in the innermost covering style |
| Recolor.SingleMatchExample | src/main.rs:186-190 | `(foo)` on "hello foo" gives "hello " plainly and "foo" in the second palette colour |
| Recolor.NonCaptureGroupExample | src/main.rs:232-240 | `123(5)` on "12345 12345 1235" colours only the final "5", in the second palette colour |
| Recolor.MultipleMatchExample | src/main.rs:192-196 | `(foo)(bar)` on "hello foobar" gives "foo" and "bar" in the second and third palette colours |
| Recolor.RepeatedMatchExample | src/main.rs:208-216 | `(5)` on "12345 12345 12345" prints each of the three "5"s in the second palette colour and every other character plainly |
| Recolor.NamedArgsExample | src/main.rs:198-206 | `foo=green bar=red` gives the table mapping `foo` to green and `bar` to red |
| Recolor.NamedMatchExample | src/main.rs:198-206 | the whole filter on that table prints "foo" green and "bar" red after a plain "hello " |
| Recolor.HexArgExample | src/main.rs:223-230 | the argument `five=#ff0000,underline` gives the table mapping `five` to 24-bit red with underline |
| Recolor.HexColorLineExample | src/main.rs:223-230 | with that argument, `(?P<five>5)` on "12345 12345 12345" prints each "5" in 24-bit red with underline and every other character plainly |
| Recolor.NestedGroupsExample | src/main.rs:241-249 | `12(3(5))` on "12345 12345 1235" gives "3" in the outer group's colour and "5" in the inner group's |

## Left out

- Argument parsing, `main`, logging and panic setup: glue around the core.
- Reading lines and writing output: the input is a list of lines, the
  output a list of chunks. Read and write errors are not modelled.
- The regular expression engine and its compilation: the capture names and
  each line's matches are inputs. A bad pattern's error is not modelled.
- Escape-sequence encoding: styles are compared as values.
- Byte offsets: a line is a sequence of characters indexed by position. The
  engine reports byte offsets on character boundaries, and the sweep visits
  the same boundaries, so the two indexings correspond one to one.
- The error messages' exact wording: errors are a datatype carrying the
  quoted argument where the source quotes it. The missing-value error is a
  single constant, like the source's fixed format message.
- StyleParser.ParseStyle: requires every `#` token of the argument to be
  ASCII, because the source measures and slices such a token by bytes. The
  requirement also excludes non-ASCII `#` tokens that the source refuses
  normally. `#é` is three bytes long and fails the length check
  (`src/main.rs:49-50`). `#ééé` is seven bytes long with slices on
  character boundaries and reaches the digit error (`src/main.rs:53-55`).
  Other seven-byte tokens make the slicing panic. None of these outcomes
  is modelled.
- StyleParser.ParseStyles: carries the same ASCII requirement on the `#`
  tokens of every argument's value, for the same reason.
- Recolor.Run: carries the same ASCII requirement through its arguments,
  for the same reason.
- Recolor.RunOutcome: carries the same ASCII requirement as `Recolor.Run`,
  for the same reason.
