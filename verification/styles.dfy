/**
 * The abstract terminal style: an optional foreground colour plus a set of
 * text effects. Escape-sequence encoding is not modelled: runs are compared
 * by style, not by the bytes they would print, so empty or hidden text under
 * two different styles counts as different although it looks alike.
 */
module Styles {
  import opened Results

  /** The eight base ANSI colours. */
  datatype Ansi = Black | Red | Green | Yellow | Blue | Magenta | Cyan | White

  type Byte = x: int | 0 <= x < 256

  /** A foreground colour: a base colour, its "bright_" variant, or a 24-bit literal. */
  datatype Color = Named(ansi: Ansi) | Bright(ansi: Ansi) | Rgb(r: Byte, g: Byte, b: Byte)

  /** The independent effect toggles. */
  datatype Attr = Bold | Dimmed | Italic | Underline | Blink | Hidden | Strikethrough

  datatype Style = Style(fg: Option<Color>, attrs: set<Attr>) {

    /** Setting a colour replaces whatever colour was set before. */
    function WithColor(c: Color): Style {
      this.(fg := Some(c))
    }

    /** Setting an effect adds it; effects already set stay set. */
    function WithAttr(a: Attr): Style {
      this.(attrs := attrs + {a})
    }
  }

  /** The style that changes nothing (`Style::new()`, also `Style::default()`). */
  const Plain: Style := Style(None, {})

  /** The default palette, indexed by capture-group number modulo its length. */
  const Palette: seq<Style> := [
    Plain.WithColor(Named(Red)),
    Plain.WithColor(Named(Green)),
    Plain.WithColor(Named(Yellow)),
    Plain.WithColor(Named(Blue)),
    Plain.WithColor(Named(Magenta)),
    Plain.WithColor(Named(Cyan)),
    Plain.WithColor(Named(White))
  ]

  /** The palette entry for capture group `i`, cycling through the seven colours. */
  function PaletteStyle(i: nat): (st: Style)
    ensures st in Palette
    ensures st.attrs == {} && st.fg.Some? && st.fg.value.Named?
    ensures st.fg.value.ansi != Black
  {
    Palette[i % |Palette|]
  }

  /** The palette cycles with period seven, and any seven consecutive groups get seven different colours. */
  lemma PalettePeriodic(i: nat, j: nat)
    ensures PaletteStyle(i) == PaletteStyle(j) <==> i % 7 == j % 7
  {
  }
}
