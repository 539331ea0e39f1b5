/**
 * Parsing of the style arguments: `parse_style` turns a comma-separated token
 * list into one composite style, `parse_styles` turns `name=tokens`
 * assignments into a table from capture-group name to style.
 */
module StyleParser {
  import opened Results
  import opened Styles
  import opened Text

  /** What one accepted token does to the style being built. */
  datatype Effect = SetColor(c: Color) | AddAttr(a: Attr)

  /** Why one token was refused. */
  datatype Fault =
    | HexLength   // a `#` token that is not exactly seven characters long
    | HexDigit    // a `#` token whose byte pairs are not base-16 numbers
    | Unknown     // any other token outside the vocabulary, the empty one included

  /**
   * The error `parse_style` reports. The length and vocabulary errors quote the
   * whole argument; a bad hex digit surfaces the integer parser's own error.
   */
  datatype StyleError = InvalidHexColor(arg: string) | BadHexDigit | InvalidStyle(arg: string)

  /** The error `parse_styles` reports: a fixed format message when an argument has no `=`, or the style error. */
  datatype ConfigError = MissingValue | BadStyle(cause: StyleError)

  // ---------------------------------------------------------------------------
  // Hex literals

  predicate IsHexDigit(c: char) {
    '0' <= c <= '9' || 'a' <= c <= 'f' || 'A' <= c <= 'F'
  }

  function HexValue(c: char): (v: nat)
    requires IsHexDigit(c)
    ensures v < 16
  {
    if '0' <= c <= '9' then c as int - '0' as int
    else if 'a' <= c <= 'f' then c as int - 'a' as int + 10
    else c as int - 'A' as int + 10
  }

  /** The lower-case digit for a value below sixteen. */
  function HexChar(v: nat): (c: char)
    requires v < 16
    ensures IsHexDigit(c) && HexValue(c) == v
  {
    if v < 10 then ('0' as int + v) as char else ('a' as int + v - 10) as char
  }

  /**
   * `u8::from_str_radix` applied to a two-character string in base 16: an
   * optional leading `+` followed by digits, so `+f` reads as 15.
   */
  function ParseHexPair(a: char, b: char): Option<Byte> {
    if a == '+' then
      if IsHexDigit(b) then Some(HexValue(b)) else None
    else if IsHexDigit(a) && IsHexDigit(b) then Some(16 * HexValue(a) + HexValue(b))
    else None
  }

  /** The `#rrggbb` spelling of a 24-bit colour. */
  function HexToken(r: Byte, g: Byte, b: Byte): (t: string)
    ensures |t| == 7 && t[0] == '#'
  {
    ['#', HexChar(r / 16), HexChar(r % 16), HexChar(g / 16), HexChar(g % 16), HexChar(b / 16), HexChar(b % 16)]
  }

  /** Two hex digits read back the byte they spell, most significant first. */
  lemma HexPairRoundTrip(v: Byte)
    ensures ParseHexPair(HexChar(v / 16), HexChar(v % 16)) == Some(v)
  {
  }

  /** A pair is accepted exactly when it is two hex digits or `+` and one hex digit. */
  lemma HexPairAccepts(a: char, b: char)
    ensures ParseHexPair(a, b).Some? <==> (IsHexDigit(a) || a == '+') && IsHexDigit(b)
    ensures IsHexDigit(a) && IsHexDigit(b) ==> ParseHexPair(a, b) == Some(16 * HexValue(a) + HexValue(b))
  {
  }

  // ---------------------------------------------------------------------------
  // Tokens

  /** The fixed vocabulary of named tokens, synonyms included. */
  function Keyword(tok: string): Option<Effect> {
    match tok
    case "black" => Some(SetColor(Named(Black)))
    case "red" => Some(SetColor(Named(Red)))
    case "green" => Some(SetColor(Named(Green)))
    case "yellow" => Some(SetColor(Named(Yellow)))
    case "blue" => Some(SetColor(Named(Blue)))
    case "magenta" => Some(SetColor(Named(Magenta)))
    case "cyan" => Some(SetColor(Named(Cyan)))
    case "white" => Some(SetColor(Named(White)))
    case "bright_black" => Some(SetColor(Bright(Black)))
    case "bright_red" => Some(SetColor(Bright(Red)))
    case "bright_green" => Some(SetColor(Bright(Green)))
    case "bright_yellow" => Some(SetColor(Bright(Yellow)))
    case "bright_blue" => Some(SetColor(Bright(Blue)))
    case "bright_magenta" => Some(SetColor(Bright(Magenta)))
    case "bright_cyan" => Some(SetColor(Bright(Cyan)))
    case "bright_white" => Some(SetColor(Bright(White)))
    case "bold" | "bolded" => Some(AddAttr(Bold))
    case "dimmed" | "dim" => Some(AddAttr(Dimmed))
    case "italic" | "italics" => Some(AddAttr(Italic))
    case "underline" | "underlined" => Some(AddAttr(Underline))
    case "blink" | "blinking" => Some(AddAttr(Blink))
    case "hidden" => Some(AddAttr(Hidden))
    case "strikethrough" | "struckthrough" | "strike" => Some(AddAttr(Strikethrough))
    case _ => None
  }

  /** A token that takes the hex-literal branch. */
  predicate IsHexLike(tok: string) {
    |tok| > 0 && tok[0] == '#'
  }

  predicate IsAscii(s: string) {
    forall i :: 0 <= i < |s| ==> s[i] as int < 128
  }

  /**
   * The source measures and slices `#` tokens in bytes; for those tokens to be
   * read the same way character by character they must be ASCII. A non-ASCII
   * `#` token is refused by the byte-length check or the digit check, or makes
   * the slicing panic when a slice boundary falls inside a character.
   */
  predicate HexTokensAscii(s: string) {
    forall t | t in Split(s, ',') && IsHexLike(t) :: IsAscii(t)
  }

  /** The meaning of a single token, or why it is refused. */
  function TokenEffect(tok: string): Result<Effect, Fault> {
    if IsHexLike(tok) then
      if |tok| != 7 then Err(HexLength)
      else
        match (ParseHexPair(tok[1], tok[2]), ParseHexPair(tok[3], tok[4]), ParseHexPair(tok[5], tok[6]))
        case (Some(r), Some(g), Some(b)) => Ok(SetColor(Rgb(r, g, b)))
        case _ => Err(HexDigit)
    else
      match Keyword(tok)
      case Some(e) => Ok(e)
      case None => Err(Unknown)
  }

  /** The canonical token for an effect: the first spelling the vocabulary lists. */
  function EffectToken(e: Effect): string {
    match e
    case SetColor(Named(a)) => AnsiName(a)
    case SetColor(Bright(a)) => "bright_" + AnsiName(a)
    case SetColor(Rgb(r, g, b)) => HexToken(r, g, b)
    case AddAttr(a) => AttrName(a)
  }

  function AnsiName(a: Ansi): string {
    match a
    case Black => "black"
    case Red => "red"
    case Green => "green"
    case Yellow => "yellow"
    case Blue => "blue"
    case Magenta => "magenta"
    case Cyan => "cyan"
    case White => "white"
  }

  function AttrName(a: Attr): string {
    match a
    case Bold => "bold"
    case Dimmed => "dimmed"
    case Italic => "italic"
    case Underline => "underline"
    case Blink => "blink"
    case Hidden => "hidden"
    case Strikethrough => "strikethrough"
  }

  /** Every effect has a spelling, and that spelling reads back as the same effect. */
  lemma EffectTokenRoundTrip(e: Effect)
    ensures TokenEffect(EffectToken(e)) == Ok(e)
    ensures ',' !in EffectToken(e)
    ensures IsHexLike(EffectToken(e)) ==> IsAscii(EffectToken(e))
  {
    match e
    case SetColor(Rgb(r, g, b)) => RgbTokenRoundTrip(r, g, b);
    case SetColor(Bright(a)) => BrightTokenRoundTrip(a);
    case SetColor(Named(a)) => NamedTokenRoundTrip(a);
    case AddAttr(a) => AttrTokenRoundTrip(a);
  }

  lemma RgbTokenRoundTrip(r: Byte, g: Byte, b: Byte)
    ensures TokenEffect(HexToken(r, g, b)) == Ok(SetColor(Rgb(r, g, b)))
    ensures ',' !in HexToken(r, g, b) && IsAscii(HexToken(r, g, b))
  {
    HexPairRoundTrip(r);
    HexPairRoundTrip(g);
    HexPairRoundTrip(b);
  }

  lemma BrightTokenRoundTrip(a: Ansi)
    ensures TokenEffect("bright_" + AnsiName(a)) == Ok(SetColor(Bright(a)))
    ensures ',' !in "bright_" + AnsiName(a) && !IsHexLike("bright_" + AnsiName(a))
  {
    match a
    case Black => assert "bright_" + AnsiName(a) == "bright_black";
    case Red => assert "bright_" + AnsiName(a) == "bright_red";
    case Green => assert "bright_" + AnsiName(a) == "bright_green";
    case Yellow => assert "bright_" + AnsiName(a) == "bright_yellow";
    case Blue => assert "bright_" + AnsiName(a) == "bright_blue";
    case Magenta => assert "bright_" + AnsiName(a) == "bright_magenta";
    case Cyan => assert "bright_" + AnsiName(a) == "bright_cyan";
    case White => assert "bright_" + AnsiName(a) == "bright_white";
  }

  lemma NamedTokenRoundTrip(a: Ansi)
    ensures TokenEffect(AnsiName(a)) == Ok(SetColor(Named(a)))
    ensures ',' !in AnsiName(a) && !IsHexLike(AnsiName(a))
  {
  }

  lemma AttrTokenRoundTrip(a: Attr)
    ensures TokenEffect(AttrName(a)) == Ok(AddAttr(a))
    ensures ',' !in AttrName(a) && !IsHexLike(AttrName(a))
  {
  }

  /** The synonyms the vocabulary accepts mean the same as the canonical spelling. */
  lemma SynonymsBoldDim()
    ensures TokenEffect("bolded") == TokenEffect("bold") == Ok(AddAttr(Bold))
    ensures TokenEffect("dim") == TokenEffect("dimmed") == Ok(AddAttr(Dimmed))
  {
  }

  lemma SynonymsItalicUnderline()
    ensures TokenEffect("italics") == TokenEffect("italic") == Ok(AddAttr(Italic))
    ensures TokenEffect("underlined") == TokenEffect("underline") == Ok(AddAttr(Underline))
  {
  }

  lemma SynonymsBlinkStrike()
    ensures TokenEffect("blinking") == TokenEffect("blink") == Ok(AddAttr(Blink))
    ensures TokenEffect("struckthrough") == TokenEffect("strike") == TokenEffect("strikethrough") == Ok(AddAttr(Strikethrough))
  {
  }

  // ---------------------------------------------------------------------------
  // parse_style

  function ApplyEffect(st: Style, e: Effect): Style {
    match e
    case SetColor(c) => st.WithColor(c)
    case AddAttr(a) => st.WithAttr(a)
  }

  function Report(f: Fault, arg: string): StyleError {
    match f
    case HexLength => InvalidHexColor(arg)
    case HexDigit => BadHexDigit
    case Unknown => InvalidStyle(arg)
  }

  /** The token loop: apply each token in order, stopping at the first refused one. */
  function Accumulate(st: Style, toks: seq<string>, arg: string): Result<Style, StyleError>
    decreases |toks|
  {
    if |toks| == 0 then Ok(st)
    else
      match TokenEffect(toks[0])
      case Err(f) => Err(Report(f, arg))
      case Ok(e) => Accumulate(ApplyEffect(st, e), toks[1..], arg)
  }

  /** The colour of the last colour token, if any. */
  function LastColor(toks: seq<string>): Option<Color> {
    if |toks| == 0 then None
    else
      var t := TokenEffect(toks[|toks| - 1]);
      if t.Ok? && t.value.SetColor? then Some(t.value.c) else LastColor(toks[..|toks| - 1])
  }

  /** The effects that all the accepted effect tokens name together. */
  function AttrsOf(toks: seq<string>): set<Attr> {
    set t | t in toks && TokenEffect(t).Ok? && TokenEffect(t).value.AddAttr? :: TokenEffect(t).value.a
  }

  predicate AllAccepted(toks: seq<string>) {
    forall k :: 0 <= k < |toks| ==> TokenEffect(toks[k]).Ok?
  }

  /** `toks[k]` is the first refused token. */
  predicate FirstRefused(toks: seq<string>, k: int) {
    0 <= k < |toks| && TokenEffect(toks[k]).Err? && AllAccepted(toks[..k])
  }

  lemma {:induction false} LastColorCons(t: string, rest: seq<string>)
    ensures LastColor([t] + rest) ==
      if LastColor(rest).Some? then LastColor(rest)
      else if TokenEffect(t).Ok? && TokenEffect(t).value.SetColor? then Some(TokenEffect(t).value.c)
      else None
    decreases |rest|
  {
    if |rest| == 0 {
      assert LastColor([t][..0]) == None;
    } else {
      var all := [t] + rest;
      assert all[..|all| - 1] == [t] + rest[..|rest| - 1];
      assert all[|all| - 1] == rest[|rest| - 1];
      LastColorCons(t, rest[..|rest| - 1]);
    }
  }

  lemma AllAcceptedTail(toks: seq<string>)
    requires |toks| > 0 && AllAccepted(toks)
    ensures TokenEffect(toks[0]).Ok? && AllAccepted(toks[1..])
  {
    assert toks[0] == toks[0];
    forall k | 0 <= k < |toks| - 1 ensures TokenEffect(toks[1..][k]).Ok? {
      assert toks[1..][k] == toks[k + 1];
    }
  }

  /** With every token accepted the loop ends with the colour of the last colour token, if there is one. */
  lemma {:induction false} AccumulateColor(st: Style, toks: seq<string>, arg: string)
    requires AllAccepted(toks)
    ensures Accumulate(st, toks, arg).Ok?
    ensures Accumulate(st, toks, arg).value.fg == if LastColor(toks).Some? then LastColor(toks) else st.fg
    decreases |toks|
  {
    if |toks| == 0 {
      assert LastColor(toks) == None;
    } else {
      AllAcceptedTail(toks);
      var t := toks[0];
      var e := TokenEffect(t).value;
      var rest := toks[1..];
      var st' := ApplyEffect(st, e);
      AccumulateColor(st', rest, arg);
      assert Accumulate(st, toks, arg) == Accumulate(st', rest, arg);
      assert toks == [t] + rest;
      LastColorCons(t, rest);
      assert st'.fg == if e.SetColor? then Some(e.c) else st.fg;
    }
  }

  /** With every token accepted the loop adds every effect token's effect and nothing else. */
  lemma {:induction false} AccumulateAttrs(st: Style, toks: seq<string>, arg: string)
    requires AllAccepted(toks)
    ensures Accumulate(st, toks, arg).Ok?
    ensures Accumulate(st, toks, arg).value.attrs == st.attrs + AttrsOf(toks)
    decreases |toks|
  {
    if |toks| == 0 {
      assert AttrsOf(toks) == {};
    } else {
      AllAcceptedTail(toks);
      var t := toks[0];
      var rest := toks[1..];
      var st' := ApplyEffect(st, TokenEffect(t).value);
      AccumulateAttrs(st', rest, arg);
      assert Accumulate(st, toks, arg) == Accumulate(st', rest, arg);
      assert toks == [t] + rest;
      AttrsOfCons(t, rest);
      EffectAttrs(st, t);
    }
  }

  /** One accepted token adds its own effect, if it names one, to the style's effects. */
  lemma EffectAttrs(st: Style, t: string)
    requires TokenEffect(t).Ok?
    ensures ApplyEffect(st, TokenEffect(t).value).attrs == st.attrs + AttrsOf([t])
  {
    AttrsOfCons(t, []);
  }

  /**
   * The loop's meaning: when every token is accepted, the colour is the last
   * colour token's (or the starting one's if there is none) and the effects
   * are the starting ones plus every effect token's.
   */
  lemma AccumulateAccepted(st: Style, toks: seq<string>, arg: string)
    requires AllAccepted(toks)
    ensures Accumulate(st, toks, arg) ==
      Ok(Style(if LastColor(toks).Some? then LastColor(toks) else st.fg, st.attrs + AttrsOf(toks)))
  {
    AccumulateColor(st, toks, arg);
    AccumulateAttrs(st, toks, arg);
  }

  lemma AttrsOfCons(t: string, rest: seq<string>)
    ensures AttrsOf([t] + rest) == AttrsOf([t]) + AttrsOf(rest)
    ensures AttrsOf([t]) == if TokenEffect(t).Ok? && TokenEffect(t).value.AddAttr? then {TokenEffect(t).value.a} else {}
  {
    var all := [t] + rest;
    forall x | x in AttrsOf(all)
      ensures x in AttrsOf([t]) + AttrsOf(rest)
    {
      var u :| u in all && TokenEffect(u).Ok? && TokenEffect(u).value.AddAttr? && TokenEffect(u).value.a == x;
      if u != t {
        assert u in rest;
      }
    }
    forall x | x in AttrsOf(rest)
      ensures x in AttrsOf(all)
    {
      var u :| u in rest && TokenEffect(u).Ok? && TokenEffect(u).value.AddAttr? && TokenEffect(u).value.a == x;
      assert u in all;
    }
    if TokenEffect(t).Ok? && TokenEffect(t).value.AddAttr? {
      assert t in [t];
      assert t in all;
    }
  }

  /** When some token is refused, the loop reports the first refused token's fault. */
  lemma {:induction false} AccumulateRefused(st: Style, toks: seq<string>, arg: string, k: int)
    requires FirstRefused(toks, k)
    ensures Accumulate(st, toks, arg) == Err(Report(TokenEffect(toks[k]).error, arg))
    decreases k
  {
    if k > 0 {
      assert toks[1..][..k - 1] == toks[..k][1..];
      AccumulateRefused(ApplyEffect(st, TokenEffect(toks[0]).value), toks[1..], arg, k - 1);
    }
  }

  lemma {:induction false} FirstRefusedExists(toks: seq<string>) returns (k: int)
    requires !AllAccepted(toks)
    ensures FirstRefused(toks, k)
    decreases |toks|
  {
    if TokenEffect(toks[0]).Err? {
      k := 0;
    } else {
      var rest := toks[1..];
      var j := FirstRefusedExists(rest);
      k := j + 1;
      assert toks[k] == rest[j];
      forall i | 0 <= i < k ensures TokenEffect(toks[..k][i]).Ok? {
        if i > 0 {
          assert toks[..k][i] == rest[..j][i - 1];
        }
      }
    }
  }

  /** The refused case of the loop, stated without naming the refused index. */
  lemma AccumulateRefusedSome(st: Style, toks: seq<string>, arg: string)
    requires !AllAccepted(toks)
    ensures exists k :: FirstRefused(toks, k) && Accumulate(st, toks, arg) == Err(Report(TokenEffect(toks[k]).error, arg))
  {
    var k := FirstRefusedExists(toks);
    AccumulateRefused(st, toks, arg, k);
  }

  /**
   * `parse_style`: split the argument at commas and accumulate the tokens
   * into `Style::new()`.
   */
  function ParseStyle(s: string): (r: Result<Style, StyleError>)
    requires HexTokensAscii(s)
    ensures r.Ok? <==> AllAccepted(Split(s, ','))
    ensures r.Ok? ==> r.value == Style(LastColor(Split(s, ',')), AttrsOf(Split(s, ',')))
    ensures r.Err? ==> exists k :: FirstRefused(Split(s, ','), k) && r.error == Report(TokenEffect(Split(s, ',')[k]).error, s)
  {
    var toks := Split(s, ',');
    if AllAccepted(toks) then
      AccumulateAccepted(Plain, toks, s);
      Accumulate(Plain, toks, s)
    else
      AccumulateRefusedSome(Plain, toks, s);
      Accumulate(Plain, toks, s)
  }

  /** An accepted argument never yields the plain style: every token sets something. */
  lemma ParseStyleNeverPlain(s: string)
    requires HexTokensAscii(s)
    ensures ParseStyle(s) != Ok(Plain)
  {
    var toks := Split(s, ',');
    if ParseStyle(s).Ok? {
      var t := toks[0];
      assert t in toks;
      match TokenEffect(t).value
      case SetColor(c) =>
        LastColorCons(t, toks[1..]);
        assert toks == [t] + toks[1..];
      case AddAttr(a) =>
        assert a in AttrsOf(toks);
    }
  }

  // ---------------------------------------------------------------------------
  // Writing a style back as an argument

  const AllAttrs: seq<Attr> := [Bold, Dimmed, Italic, Underline, Blink, Hidden, Strikethrough]

  lemma AllAttrsComplete(a: Attr)
    ensures a in AllAttrs
  {
    match a
    case Bold => assert AllAttrs[0] == a;
    case Dimmed => assert AllAttrs[1] == a;
    case Italic => assert AllAttrs[2] == a;
    case Underline => assert AllAttrs[3] == a;
    case Blink => assert AllAttrs[4] == a;
    case Hidden => assert AllAttrs[5] == a;
    case Strikethrough => assert AllAttrs[6] == a;
  }

  /** The canonical names of the effects in `attrs`, in the order of `order`. */
  function AttrTokens(attrs: set<Attr>, order: seq<Attr>): seq<string> {
    if |order| == 0 then []
    else (if order[0] in attrs then [AttrName(order[0])] else []) + AttrTokens(attrs, order[1..])
  }

  /** The canonical tokens of a style: its colour first, then its effects. */
  function StyleTokens(st: Style): seq<string> {
    (if st.fg.Some? then [EffectToken(SetColor(st.fg.value))] else []) + AttrTokens(st.attrs, AllAttrs)
  }

  lemma {:induction false} AttrTokensFacts(attrs: set<Attr>, order: seq<Attr>)
    ensures forall k :: 0 <= k < |AttrTokens(attrs, order)| ==>
      var t := AttrTokens(attrs, order)[k];
      TokenEffect(t).Ok? && TokenEffect(t).value.AddAttr? && TokenEffect(t).value.a in attrs &&
      ',' !in t && !IsHexLike(t)
    ensures AttrsOf(AttrTokens(attrs, order)) == set a | a in attrs && a in order
    decreases |order|
  {
    if |order| > 0 {
      var head := if order[0] in attrs then [AttrName(order[0])] else [];
      var rest := AttrTokens(attrs, order[1..]);
      AttrTokensFacts(attrs, order[1..]);
      EffectTokenRoundTrip(AddAttr(order[0]));
      if order[0] in attrs {
        AttrsOfCons(AttrName(order[0]), rest);
      } else {
        assert AttrTokens(attrs, order) == rest;
      }
      assert forall a :: a in order <==> a == order[0] || a in order[1..];
    } else {
      assert AttrsOf([]) == {};
    }
  }

  lemma NoColorInAttrTokens(toks: seq<string>)
    requires forall k :: 0 <= k < |toks| ==> TokenEffect(toks[k]).Ok? && TokenEffect(toks[k]).value.AddAttr?
    ensures LastColor(toks) == None
    decreases |toks|
  {
    if |toks| > 0 {
      NoColorInAttrTokens(toks[..|toks| - 1]);
    }
  }

  /** The canonical tokens of a non-plain style are a non-empty list of comma-free, ASCII-safe tokens. */
  lemma StyleTokensWellFormed(st: Style)
    requires st != Plain
    ensures |StyleTokens(st)| >= 1
    ensures forall k :: 0 <= k < |StyleTokens(st)| ==> ',' !in StyleTokens(st)[k]
    ensures Split(Join(StyleTokens(st), ','), ',') == StyleTokens(st)
    ensures HexTokensAscii(Join(StyleTokens(st), ','))
  {
    var toks := StyleTokens(st);
    var attrToks := AttrTokens(st.attrs, AllAttrs);
    AttrTokensFacts(st.attrs, AllAttrs);
    if st.fg.Some? {
      EffectTokenRoundTrip(SetColor(st.fg.value));
      assert toks == [EffectToken(SetColor(st.fg.value))] + attrToks;
    } else {
      var a :| a in st.attrs;
      AllAttrsComplete(a);
      assert a in AttrsOf(attrToks);
      assert toks == attrToks;
    }
    SplitJoin(toks, ',');
  }

  /** The comma-joined canonical spelling of a style that is not plain. */
  function FormatStyle(st: Style): (s: string)
    requires st != Plain
    ensures HexTokensAscii(s)
    ensures Split(s, ',') == StyleTokens(st)
  {
    StyleTokensWellFormed(st);
    Join(StyleTokens(st), ',')
  }

  /**
   * Every style other than the plain one has a spelling that parses back to
   * it; the plain style has none (see ParseStyleNeverPlain).
   */
  lemma FormatStyleRoundTrip(st: Style)
    requires st != Plain
    ensures ParseStyle(FormatStyle(st)) == Ok(st)
  {
    var s := FormatStyle(st);
    StyleTokensMeaning(st);
    assert Split(s, ',') == StyleTokens(st);
  }

  /** The canonical tokens are all accepted and together mean exactly the style. */
  lemma StyleTokensMeaning(st: Style)
    ensures AllAccepted(StyleTokens(st))
    ensures LastColor(StyleTokens(st)) == st.fg
    ensures AttrsOf(StyleTokens(st)) == st.attrs
  {
    var toks := StyleTokens(st);
    var attrToks := AttrTokens(st.attrs, AllAttrs);
    AttrTokensFacts(st.attrs, AllAttrs);
    NoColorInAttrTokens(attrToks);
    assert AttrsOf(attrToks) == st.attrs by {
      forall a | a in st.attrs ensures a in AllAttrs { AllAttrsComplete(a); }
    }
    if st.fg.Some? {
      var ct := EffectToken(SetColor(st.fg.value));
      EffectTokenRoundTrip(SetColor(st.fg.value));
      assert toks == [ct] + attrToks;
      LastColorCons(ct, attrToks);
      AttrsOfCons(ct, attrToks);
      forall k | 0 <= k < |toks| ensures TokenEffect(toks[k]).Ok? {
        if k > 0 {
          assert toks[k] == attrToks[k - 1];
        }
      }
    } else {
      assert toks == attrToks;
    }
  }

  // ---------------------------------------------------------------------------
  // parse_styles

  /** The text before the first `=`. */
  function KeyOf(arg: string): string {
    Split(arg, '=')[0]
  }

  /** Whether the argument has a second `=`-separated field at all. */
  predicate HasValue(arg: string) {
    |Split(arg, '=')| >= 2
  }

  /** The text between the first and the second `=`; anything after a second `=` is dropped. */
  function ValueOf(arg: string): string
    requires HasValue(arg)
  {
    Split(arg, '=')[1]
  }

  predicate ArgsAscii(args: seq<string>) {
    forall k :: 0 <= k < |args| && HasValue(args[k]) ==> HexTokensAscii(ValueOf(args[k]))
  }

  predicate ArgAccepted(arg: string)
    requires HasValue(arg) ==> HexTokensAscii(ValueOf(arg))
  {
    HasValue(arg) && ParseStyle(ValueOf(arg)).Ok?
  }

  /** The error one refused argument produces. */
  function ArgError(arg: string): ConfigError
    requires HasValue(arg) ==> HexTokensAscii(ValueOf(arg))
    requires !ArgAccepted(arg)
  {
    if !HasValue(arg) then MissingValue else BadStyle(ParseStyle(ValueOf(arg)).error)
  }

  /** An argument has a value exactly when it contains `=`. */
  lemma HasValueIffEquals(arg: string)
    ensures HasValue(arg) <==> '=' in arg
  {
    var parts := Split(arg, '=');
    JoinSplit(arg, '=');
    if |parts| >= 2 {
      assert Join(parts, '=') == parts[0] + ['='] + Join(parts[1..], '=');
      assert Join(parts, '=')[|parts[0]|] == '=';
    } else {
      assert Join(parts, '=') == parts[0];
    }
  }

  /** The assignment loop: insert each argument's style under its key, stopping at the first error. */
  function Assign(m: map<string, Style>, args: seq<string>): Result<map<string, Style>, ConfigError>
    requires ArgsAscii(args)
    decreases |args|
  {
    if |args| == 0 then Ok(m)
    else
      var a := args[0];
      if !HasValue(a) then Err(MissingValue)
      else
        match ParseStyle(ValueOf(a))
        case Err(e) => Err(BadStyle(e))
        case Ok(st) => Assign(m[KeyOf(a) := st], args[1..])
  }

  /** No later argument has the same key as `args[k]`. */
  predicate LastWithKey(args: seq<string>, k: int)
    requires 0 <= k < |args|
  {
    forall j :: k < j < |args| ==> KeyOf(args[j]) != KeyOf(args[k])
  }

  predicate AllArgsAccepted(args: seq<string>)
    requires ArgsAscii(args)
  {
    forall k :: 0 <= k < |args| ==> ArgAccepted(args[k])
  }

  lemma ArgsAsciiTail(args: seq<string>)
    requires |args| > 0 && ArgsAscii(args)
    ensures ArgsAscii(args[1..])
  {
    forall k | 0 <= k < |args| - 1 && HasValue(args[1..][k]) ensures HexTokensAscii(ValueOf(args[1..][k])) {
      assert args[1..][k] == args[k + 1];
    }
  }

  /** The keys the arguments name. */
  function ArgKeys(args: seq<string>): set<string> {
    set a | a in args :: KeyOf(a)
  }

  lemma ArgKeysCons(args: seq<string>)
    requires |args| > 0
    ensures ArgKeys(args) == {KeyOf(args[0])} + ArgKeys(args[1..])
  {
    assert args == [args[0]] + args[1..];
    forall x | x in ArgKeys(args) ensures x in {KeyOf(args[0])} + ArgKeys(args[1..]) {
      var a :| a in args && KeyOf(a) == x;
      if a != args[0] {
        assert a in args[1..];
      }
    }
    forall x | x in ArgKeys(args[1..]) ensures x in ArgKeys(args) {
      var a :| a in args[1..] && KeyOf(a) == x;
      assert a in args;
    }
  }

  /** One accepted step of the loop. */
  lemma AssignStep(m: map<string, Style>, args: seq<string>)
    requires |args| > 0 && ArgsAscii(args) && AllArgsAccepted(args)
    ensures ArgsAscii(args[1..]) && AllArgsAccepted(args[1..])
    ensures Assign(m, args) == Assign(m[KeyOf(args[0]) := ParseStyle(ValueOf(args[0])).value], args[1..])
  {
    ArgsAsciiTail(args);
    var rest := args[1..];
    forall k | 0 <= k < |rest| ensures ArgAccepted(rest[k]) {
      assert rest[k] == args[k + 1];
    }
    assert ArgAccepted(args[0]);
  }

  lemma {:induction false} AssignKeys(m: map<string, Style>, args: seq<string>)
    requires ArgsAscii(args) && AllArgsAccepted(args)
    ensures Assign(m, args).Ok?
    ensures Assign(m, args).value.Keys == m.Keys + ArgKeys(args)
    decreases |args|
  {
    if |args| == 0 {
      assert ArgKeys(args) == {};
    } else {
      AssignStep(m, args);
      AssignKeys(m[KeyOf(args[0]) := ParseStyle(ValueOf(args[0])).value], args[1..]);
      ArgKeysCons(args);
    }
  }

  lemma {:induction false} AssignLast(m: map<string, Style>, args: seq<string>, k: int)
    requires ArgsAscii(args) && AllArgsAccepted(args)
    requires 0 <= k < |args| && LastWithKey(args, k)
    ensures Assign(m, args).Ok? && KeyOf(args[k]) in Assign(m, args).value
    ensures Assign(m, args).value[KeyOf(args[k])] == ParseStyle(ValueOf(args[k])).value
    decreases |args|
  {
    AssignStep(m, args);
    var rest := args[1..];
    var m' := m[KeyOf(args[0]) := ParseStyle(ValueOf(args[0])).value];
    if k == 0 {
      forall j | 0 <= j < |rest| ensures KeyOf(rest[j]) != KeyOf(args[0]) {
        assert rest[j] == args[j + 1];
      }
      AssignKeeps(m', rest, KeyOf(args[0]));
    } else {
      assert rest[k - 1] == args[k];
      forall j | k - 1 < j < |rest| ensures KeyOf(rest[j]) != KeyOf(rest[k - 1]) {
        assert rest[j] == args[j + 1];
      }
      AssignLast(m', rest, k - 1);
    }
  }

  lemma {:induction false} AssignKeeps(m: map<string, Style>, args: seq<string>, x: string)
    requires ArgsAscii(args) && AllArgsAccepted(args)
    requires x in m && forall k :: 0 <= k < |args| ==> KeyOf(args[k]) != x
    ensures Assign(m, args).Ok? && x in Assign(m, args).value
    ensures Assign(m, args).value[x] == m[x]
    decreases |args|
  {
    if |args| > 0 {
      AssignStep(m, args);
      var rest := args[1..];
      forall k | 0 <= k < |rest| ensures KeyOf(rest[k]) != x {
        assert rest[k] == args[k + 1];
      }
      assert KeyOf(args[0]) != x;
      AssignKeeps(m[KeyOf(args[0]) := ParseStyle(ValueOf(args[0])).value], rest, x);
    }
  }

  lemma AssignRefused(m: map<string, Style>, args: seq<string>)
    requires ArgsAscii(args) && !AllArgsAccepted(args)
    ensures exists k :: (0 <= k < |args| && !ArgAccepted(args[k]) &&
      (forall j :: 0 <= j < k ==> ArgAccepted(args[j])) && Assign(m, args) == Err(ArgError(args[k])))
  {
    var k := AssignRefusedAt(m, args);
  }

  /** The assignment loop stops at the first refused argument, with that argument's error. */
  lemma {:induction false} AssignRefusedAt(m: map<string, Style>, args: seq<string>) returns (k: nat)
    requires ArgsAscii(args) && !AllArgsAccepted(args)
    ensures k < |args| && !ArgAccepted(args[k])
    ensures forall j :: 0 <= j < k ==> ArgAccepted(args[j])
    ensures Assign(m, args) == Err(ArgError(args[k]))
    decreases |args|
  {
    var a := args[0];
    if !ArgAccepted(a) {
      k := 0;
      assert Assign(m, args) == Err(ArgError(a));
    } else {
      var rest := args[1..];
      ArgsAsciiTail(args);
      assert !AllArgsAccepted(rest) by {
        var i :| 0 <= i < |args| && !ArgAccepted(args[i]);
        assert rest[i - 1] == args[i];
      }
      var m' := m[KeyOf(a) := ParseStyle(ValueOf(a)).value];
      assert Assign(m, args) == Assign(m', rest);
      var i := AssignRefusedAt(m', rest);
      k := i + 1;
      assert args[k] == rest[i];
      forall j | 0 <= j < k ensures ArgAccepted(args[j]) {
        if j > 0 {
          assert args[j] == rest[j - 1];
        }
      }
    }
  }

  /**
   * `parse_styles`: every argument must be `key=tokens`; the table maps each
   * key to the style of the last argument naming it. The first bad argument
   * decides the error.
   */
  function ParseStyles(args: seq<string>): (r: Result<map<string, Style>, ConfigError>)
    requires ArgsAscii(args)
    ensures r.Ok? <==> AllArgsAccepted(args)
    ensures r.Ok? ==> r.value.Keys == ArgKeys(args)
    ensures r.Ok? ==> forall k :: 0 <= k < |args| && LastWithKey(args, k) ==>
      r.value[KeyOf(args[k])] == ParseStyle(ValueOf(args[k])).value
    ensures r.Err? ==> exists k :: (0 <= k < |args| && !ArgAccepted(args[k]) &&
      (forall j :: 0 <= j < k ==> ArgAccepted(args[j])) && r.error == ArgError(args[k]))
  {
    if AllArgsAccepted(args) then
      AssignKeys(map[], args);
      assert forall k :: 0 <= k < |args| && LastWithKey(args, k) ==>
        Assign(map[], args).value[KeyOf(args[k])] == ParseStyle(ValueOf(args[k])).value by {
        forall k | 0 <= k < |args| && LastWithKey(args, k)
          ensures Assign(map[], args).value[KeyOf(args[k])] == ParseStyle(ValueOf(args[k])).value
        {
          AssignLast(map[], args, k);
        }
      }
      Assign(map[], args)
    else
      AssignRefused(map[], args);
      Assign(map[], args)
  }

  /** In `k=v=w` the key is `k`, the value is `v`, and `w` is dropped. */
  lemma SecondEqualsIgnored(k: string, v: string, w: string)
    requires '=' !in k && '=' !in v
    ensures HasValue(k + "=" + v + "=" + w) && HasValue(k + "=" + v)
    ensures KeyOf(k + "=" + v + "=" + w) == KeyOf(k + "=" + v) == k
    ensures ValueOf(k + "=" + v + "=" + w) == ValueOf(k + "=" + v) == v
  {
    SplitAppend(k + "=" + v, w, '=');
    SplitAppend(k, v, '=');
    SplitJoin([k], '=');
    SplitJoin([v], '=');
    assert k + "=" + v + "=" + w == (k + "=" + v) + ['='] + w;
    assert k + "=" + v == k + ['='] + v;
  }

  /** An argument without `=` is refused with the fixed missing-value error. */
  lemma MissingEqualsRefused(arg: string)
    requires '=' !in arg
    ensures ArgsAscii([arg])
    ensures ParseStyles([arg]) == Err(MissingValue)
  {
    HasValueIffEquals(arg);
  }

  // ---------------------------------------------------------------------------
  // Composition and the documented examples

  lemma {:induction false} LastColorAppend(x: seq<string>, y: seq<string>)
    ensures LastColor(x + y) == if LastColor(y).Some? then LastColor(y) else LastColor(x)
    decreases |y|
  {
    if |y| > 0 {
      var xy := x + y;
      assert xy[..|xy| - 1] == x + y[..|y| - 1];
      assert xy[|xy| - 1] == y[|y| - 1];
      LastColorAppend(x, y[..|y| - 1]);
    } else {
      assert x + y == x;
    }
  }

  lemma AttrsOfAppend(x: seq<string>, y: seq<string>)
    ensures AttrsOf(x + y) == AttrsOf(x) + AttrsOf(y)
  {
    forall a | a in AttrsOf(x + y) ensures a in AttrsOf(x) + AttrsOf(y) {
      var t :| t in x + y && TokenEffect(t).Ok? && TokenEffect(t).value.AddAttr? && TokenEffect(t).value.a == a;
      if t in x {
        assert a in AttrsOf(x);
      } else {
        assert t in y;
        assert a in AttrsOf(y);
      }
    }
    forall a | a in AttrsOf(x) + AttrsOf(y) ensures a in AttrsOf(x + y) {
      if a in AttrsOf(x) {
        var t :| t in x && TokenEffect(t).Ok? && TokenEffect(t).value.AddAttr? && TokenEffect(t).value.a == a;
        assert t in x + y;
      } else {
        var t :| t in y && TokenEffect(t).Ok? && TokenEffect(t).value.AddAttr? && TokenEffect(t).value.a == a;
        assert t in x + y;
      }
    }
  }

  /**
   * Joining two arguments with a comma: the effects accumulate, and the
   * right-hand colour wins when it names one. A refused left-hand side stays refused.
   */
  lemma ParseStyleConcat(a: string, b: string)
    requires HexTokensAscii(a) && HexTokensAscii(b)
    ensures HexTokensAscii(a + "," + b)
    ensures ParseStyle(a).Err? ==> ParseStyle(a + "," + b).Err?
    ensures ParseStyle(a).Ok? && ParseStyle(b).Ok? ==>
      ParseStyle(a + "," + b) == Ok(Style(
        if ParseStyle(b).value.fg.Some? then ParseStyle(b).value.fg else ParseStyle(a).value.fg,
        ParseStyle(a).value.attrs + ParseStyle(b).value.attrs))
  {
    var ta, tb := Split(a, ','), Split(b, ',');
    ConcatTokens(a, b);
    AllAcceptedAppend(ta, tb);
    if AllAccepted(ta) && AllAccepted(tb) {
      LastColorAppend(ta, tb);
      AttrsOfAppend(ta, tb);
    }
  }

  /** The tokens of `a,b` are the tokens of `a` followed by those of `b`. */
  lemma ConcatTokens(a: string, b: string)
    requires HexTokensAscii(a) && HexTokensAscii(b)
    ensures Split(a + "," + b, ',') == Split(a, ',') + Split(b, ',')
    ensures HexTokensAscii(a + "," + b)
  {
    var ta, tb := Split(a, ','), Split(b, ',');
    assert a + "," + b == a + [','] + b;
    SplitAppend(a, b, ',');
    var t := ta + tb;
    forall u | u in t && IsHexLike(u) ensures IsAscii(u) {
      if u in ta { } else { assert u in tb; }
    }
  }

  lemma AllAcceptedAppend(x: seq<string>, y: seq<string>)
    ensures AllAccepted(x + y) <==> AllAccepted(x) && AllAccepted(y)
  {
    var t := x + y;
    if AllAccepted(t) {
      forall k | 0 <= k < |x| ensures TokenEffect(x[k]).Ok? { assert x[k] == t[k]; }
      forall k | 0 <= k < |y| ensures TokenEffect(y[k]).Ok? { assert y[k] == t[|x| + k]; }
    }
    if AllAccepted(x) && AllAccepted(y) {
      forall k | 0 <= k < |t| ensures TokenEffect(t[k]).Ok? {
        if k < |x| { assert t[k] == x[k]; } else { assert t[k] == y[k - |x|]; }
      }
    }
  }

  lemma SplitOne(t: string, sep: char)
    requires sep !in t
    ensures Split(t, sep) == [t]
  {
    SplitJoin([t], sep);
  }

  lemma SplitTwo(t: string, u: string, sep: char)
    requires sep !in t && sep !in u
    ensures Split(t + [sep] + u, sep) == [t, u]
  {
    SplitAppend(t, u, sep);
    SplitOne(t, sep);
    SplitOne(u, sep);
  }

  /** Reading off `parse_style` once the tokens are known and all accepted. */
  lemma ParseStyleAccepted(s: string, toks: seq<string>)
    requires Split(s, ',') == toks && HexTokensAscii(s) && AllAccepted(toks)
    ensures ParseStyle(s) == Ok(Style(LastColor(toks), AttrsOf(toks)))
  {
  }

  /** Reading off `parse_style` once the tokens are known and the one at `k` is the first refused. */
  lemma ParseStyleRefused(s: string, toks: seq<string>, k: int)
    requires Split(s, ',') == toks && HexTokensAscii(s) && FirstRefused(toks, k)
    ensures ParseStyle(s) == Err(Report(TokenEffect(toks[k]).error, s))
  {
    var r := ParseStyle(s);
    var j :| FirstRefused(toks, j) && r.error == Report(TokenEffect(toks[j]).error, s);
    FirstRefusedUnique(toks, j, k);
  }

  /** There is only one first refused token. */
  lemma FirstRefusedUnique(toks: seq<string>, j: int, k: int)
    requires FirstRefused(toks, j) && FirstRefused(toks, k)
    ensures j == k
  {
    PrefixAccepted(toks, j);
    PrefixAccepted(toks, k);
  }

  lemma PrefixAccepted(toks: seq<string>, k: int)
    requires 0 <= k <= |toks| && AllAccepted(toks[..k])
    ensures forall i :: 0 <= i < k ==> TokenEffect(toks[i]).Ok?
  {
    forall i | 0 <= i < k ensures TokenEffect(toks[i]).Ok? {
      assert toks[..k][i] == toks[i];
    }
  }

  /** A single accepted token applies its effect to the plain style. */
  lemma ParseStyleToken(t: string)
    requires ',' !in t && TokenEffect(t).Ok? && (IsHexLike(t) ==> IsAscii(t))
    ensures HexTokensAscii(t)
    ensures ParseStyle(t) == Ok(ApplyEffect(Plain, TokenEffect(t).value))
  {
    SplitOne(t, ',');
    LastColorCons(t, []);
    AttrsOfCons(t, []);
    assert [t] + [] == [t];
    assert AttrsOf([]) == {};
    ParseStyleAccepted(t, [t]);
  }

  /** Of two colour tokens the later one wins, as in `red,green` being green. */
  lemma LaterColorWins(a: string, b: string)
    requires ',' !in a && ',' !in b
    requires TokenEffect(a).Ok? && TokenEffect(a).value.SetColor? && (IsHexLike(a) ==> IsAscii(a))
    requires TokenEffect(b).Ok? && TokenEffect(b).value.SetColor? && (IsHexLike(b) ==> IsAscii(b))
    ensures HexTokensAscii(a + "," + b)
    ensures ParseStyle(a + "," + b) == Ok(Style(Some(TokenEffect(b).value.c), {}))
  {
    ParseStyleToken(a);
    ParseStyleToken(b);
    var pa, pb := ParseStyle(a), ParseStyle(b);
    assert pa.Ok? && pa.value.attrs == {};
    assert pb.Ok? && pb.value.attrs == {} && pb.value.fg == Some(TokenEffect(b).value.c);
    ParseStyleConcat(a, b);
    var r := ParseStyle(a + "," + b);
    assert r.Ok? && r.value.attrs == {} && r.value.fg == Some(TokenEffect(b).value.c);
    assert r.value == Style(r.value.fg, r.value.attrs);
  }

  /**
   * An effect token next to a colour token adds to it in either order, as in
   * `bold,red` and `#ff0000,underline`.
   */
  lemma ColorAndEffectCombine(c: Color, a: Attr)
    ensures HexTokensAscii(EffectToken(SetColor(c)) + "," + AttrName(a))
    ensures HexTokensAscii(AttrName(a) + "," + EffectToken(SetColor(c)))
    ensures ParseStyle(EffectToken(SetColor(c)) + "," + AttrName(a)) == Ok(Style(Some(c), {a}))
    ensures ParseStyle(AttrName(a) + "," + EffectToken(SetColor(c))) == Ok(Style(Some(c), {a}))
  {
    ColorThenEffect(c, a);
    EffectThenColor(c, a);
  }

  /** The canonical colour token and effect token each parse alone. */
  lemma ColorAndEffectAlone(c: Color, a: Attr)
    ensures HexTokensAscii(EffectToken(SetColor(c))) && HexTokensAscii(AttrName(a))
    ensures ParseStyle(EffectToken(SetColor(c))) == Ok(Style(Some(c), {}))
    ensures ParseStyle(AttrName(a)) == Ok(Style(None, {a}))
  {
    var ct, at := EffectToken(SetColor(c)), EffectToken(AddAttr(a));
    EffectTokenRoundTrip(SetColor(c));
    EffectTokenRoundTrip(AddAttr(a));
    ParseStyleToken(ct);
    ParseStyleToken(at);
    assert ApplyEffect(Plain, SetColor(c)) == Style(Some(c), {});
    assert ApplyEffect(Plain, AddAttr(a)) == Style(None, {a});
  }

  lemma ColorThenEffect(c: Color, a: Attr)
    ensures HexTokensAscii(EffectToken(SetColor(c)) + "," + AttrName(a))
    ensures ParseStyle(EffectToken(SetColor(c)) + "," + AttrName(a)) == Ok(Style(Some(c), {a}))
  {
    ColorAndEffectAlone(c, a);
    ParseStyleConcat(EffectToken(SetColor(c)), AttrName(a));
    assert {} + {a} == {a};
  }

  lemma EffectThenColor(c: Color, a: Attr)
    ensures HexTokensAscii(AttrName(a) + "," + EffectToken(SetColor(c)))
    ensures ParseStyle(AttrName(a) + "," + EffectToken(SetColor(c))) == Ok(Style(Some(c), {a}))
  {
    ColorAndEffectAlone(c, a);
    ParseStyleConcat(AttrName(a), EffectToken(SetColor(c)));
    assert {a} + {} == {a};
  }

  /** `#ff0000,underline` is the 24-bit red with the underline effect. */
  lemma HexAndUnderlineExample()
    ensures HexTokensAscii("#ff0000,underline")
    ensures ParseStyle("#ff0000,underline") == Ok(Style(Some(Rgb(255, 0, 0)), {Underline}))
  {
    assert HexToken(255, 0, 0) == "#ff0000";
    assert EffectToken(SetColor(Rgb(255, 0, 0))) + "," + AttrName(Underline) == "#ff0000,underline";
    ColorThenEffect(Rgb(255, 0, 0), Underline);
  }

  /** A trailing comma leaves an empty token, which no name matches. */
  lemma TrailingCommaRefused()
    ensures ParseStyle("red,") == Err(InvalidStyle("red,"))
  {
    SplitTwo("red", "", ',');
    assert "red," == "red" + [','] + "";
    var toks := ["red", ""];
    assert TokenEffect(toks[0]).Ok?;
    assert TokenEffect(toks[1]) == Err(Unknown);
    assert toks[..1] == ["red"];
    ParseStyleRefused("red,", toks, 1);
  }

  /** An empty argument is one empty token, which no name matches. */
  lemma EmptyArgumentRefused()
    ensures ParseStyle("") == Err(InvalidStyle(""))
  {
    assert TokenEffect("") == Err(Unknown);
    ParseStyleRefused("", [""], 0);
  }

  /** A single refused token refuses the whole argument with that token's fault. */
  lemma SingleTokenRefused(t: string)
    requires ',' !in t && TokenEffect(t).Err? && (IsHexLike(t) ==> IsAscii(t))
    ensures HexTokensAscii(t)
    ensures ParseStyle(t) == Err(Report(TokenEffect(t).error, t))
  {
    SplitOne(t, ',');
    assert [t][..0] == [];
    ParseStyleRefused(t, [t], 0);
  }

  /** An unknown colour name is refused with the argument quoted. */
  lemma UnknownNameRefused()
    ensures ParseStyle("purple") == Err(InvalidStyle("purple"))
  {
    assert TokenEffect("purple") == Err(Unknown);
    SingleTokenRefused("purple");
  }

  /** A `#` token that is not seven characters long refuses the argument as an invalid hex colour. */
  lemma ShortHexRefused(t: string)
    requires ',' !in t && IsHexLike(t) && |t| != 7 && IsAscii(t)
    ensures HexTokensAscii(t)
    ensures ParseStyle(t) == Err(InvalidHexColor(t))
  {
    SingleTokenRefused(t);
  }

  /** A seven-character `#` token with a pair that is not a base-16 byte gives the digit error. */
  lemma NonHexRefused(t: string)
    requires ',' !in t && IsHexLike(t) && |t| == 7 && IsAscii(t)
    requires ParseHexPair(t[1], t[2]).None? || ParseHexPair(t[3], t[4]).None? || ParseHexPair(t[5], t[6]).None?
    ensures HexTokensAscii(t)
    ensures ParseStyle(t) == Err(BadHexDigit)
  {
    SingleTokenRefused(t);
  }

  lemma ShortHexExample()
    ensures ParseStyle("#12345") == Err(InvalidHexColor("#12345"))
  {
    ShortHexRefused("#12345");
  }

  lemma NonHexExample()
    ensures ParseStyle("#gg0000") == Err(BadHexDigit)
  {
    var t := "#gg0000";
    assert t[1] == 'g' && !IsHexDigit('g');
    NonHexRefused(t);
  }

  /** The integer parser's leading `+` lets `#+f+f+f` through as (15, 15, 15). */
  lemma PlusSignAccepted()
    ensures ParseStyle("#+f+f+f") == Ok(Style(Some(Rgb(15, 15, 15)), {}))
  {
    assert TokenEffect("#+f+f+f") == Ok(SetColor(Rgb(15, 15, 15)));
    ParseStyleToken("#+f+f+f");
  }

  lemma ArgsAsciiSnoc(args: seq<string>, arg: string)
    requires ArgsAscii(args) && (HasValue(arg) ==> HexTokensAscii(ValueOf(arg)))
    ensures ArgsAscii(args + [arg])
  {
    var all := args + [arg];
    forall k | 0 <= k < |all| && HasValue(all[k]) ensures HexTokensAscii(ValueOf(all[k])) {
      if k < |args| {
        assert all[k] == args[k];
      } else {
        assert all[k] == arg;
      }
    }
  }

  /** The assignment loop over a longer list continues from where the shorter list left off. */
  lemma {:induction false} AssignSnoc(m: map<string, Style>, args: seq<string>, arg: string)
    requires ArgsAscii(args) && (HasValue(arg) ==> HexTokensAscii(ValueOf(arg)))
    ensures ArgsAscii(args + [arg]) && ArgsAscii([arg])
    ensures Assign(m, args).Ok? ==> Assign(m, args + [arg]) == Assign(Assign(m, args).value, [arg])
    decreases |args|
  {
    ArgsAsciiSnoc(args, arg);
    ArgsAsciiSnoc([], arg);
    assert [] + [arg] == [arg];
    if |args| > 0 && Assign(m, args).Ok? {
      var a := args[0];
      ArgsAsciiTail(args);
      assert (args + [arg])[1..] == args[1..] + [arg];
      assert (args + [arg])[0] == a;
      var m' := m[KeyOf(a) := ParseStyle(ValueOf(a)).value];
      AssignSnoc(m', args[1..], arg);
    } else if |args| == 0 {
      assert args + [arg] == [arg];
    }
  }

  /**
   * Adding one more accepted assignment sets its key to its style and leaves
   * every other key alone: a later duplicate key overwrites the earlier one.
   */
  lemma LaterAssignmentWins(args: seq<string>, arg: string)
    requires ArgsAscii(args) && ParseStyles(args).Ok?
    requires HasValue(arg) && HexTokensAscii(ValueOf(arg)) && ParseStyle(ValueOf(arg)).Ok?
    ensures ArgsAscii(args + [arg])
    ensures ParseStyles(args + [arg]) == Ok(ParseStyles(args).value[KeyOf(arg) := ParseStyle(ValueOf(arg)).value])
  {
    AssignSnoc(map[], args, arg);
    var m := Assign(map[], args).value;
    assert Assign(m, [arg]) == Assign(m[KeyOf(arg) := ParseStyle(ValueOf(arg)).value], []);
  }
}
