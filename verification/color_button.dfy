/** The colour button's decisions.

    The button stores a background colour and a text colour, which is either a colour or
    "auto". Before each paint it picks the background for the button's state (darker when
    pressed, lighter under the mouse, else the stored colour) and the text colour: the
    stored one, or for "auto" black or white by the luminance of the stored background.
    Colour names are turned into colours by a parser the model takes as a parameter, and
    the darker and lighter variants are named, not computed. */
module ColorButton {
  import opened Util

  type Channel = n: int | 0 <= n <= 255

  datatype Color = Color(red: Channel, green: Channel, blue: Channel)

  const Black := Color(0, 0, 0)
  const White := Color(255, 255, 255)

  /** What a setter is given: a colour name, a colour, or a value of another type. */
  datatype ColorArg = Named(name: string) | GivenColor(color: Color) | OtherValue

  /** A stored text colour: the "auto" sentinel or a colour. */
  datatype TextColor = Auto | Fixed(color: Color)

  /** The two attributes, `None` until a setter stores something. */
  datatype Button = Button(color: Option<Color>, textColor: Option<TextColor>)

  /** A palette colour, by how it is made from the stored colour. */
  datatype Shade = Darker(base: Color, factor: int) | Lighter(base: Color, factor: int) | Plain(base: Color)

  /** The state flags of the style option that the choice reads. */
  datatype StyleState = StyleState(sunken: bool, mouseOver: bool)

  /** The palette roles the button sets: Button and Window, and ButtonText. */
  datatype Palette = Palette(button: Shade, window: Shade, buttonText: Color)

  /** `0.299 r + 0.587 g + 0.114 b`, scaled by 1000 to stay in integers. */
  function Luminance(c: Color): (l: int)
    ensures 0 <= l <= 255000
  {
    299 * c.red + 587 * c.green + 114 * c.blue
  }

  /** `getContrastingTextColor`: black on a background brighter than 128, else white. */
  function ContrastingTextColor(bg: Color): (c: Color)
    ensures c == Black || c == White
    ensures c == Black <==> Luminance(bg) > 128000
  {
    if Luminance(bg) > 128000 then Black else White
  }

  /** `setColor`: a name is parsed, a colour is kept, anything else is ignored. */
  function SetColor(b: Button, arg: ColorArg, parse: string -> Color): (r: Button)
    ensures arg.Named? ==> r.color == Some(parse(arg.name))
    ensures arg.GivenColor? ==> r.color == Some(arg.color)
    ensures arg.OtherValue? ==> r == b
    ensures r.textColor == b.textColor
  {
    match arg
    case Named(name) => b.(color := Some(parse(name)))
    case GivenColor(c) => b.(color := Some(c))
    case OtherValue => b
  }

  /** `setTextColor`: "auto" is stored as the sentinel, another name is parsed, a colour is
      kept, anything else is ignored. */
  function SetTextColor(b: Button, arg: ColorArg, parse: string -> Color): (r: Button)
    ensures arg == Named("auto") ==> r.textColor == Some(Auto)
    ensures arg.Named? && arg.name != "auto" ==> r.textColor == Some(Fixed(parse(arg.name)))
    ensures arg.GivenColor? ==> r.textColor == Some(Fixed(arg.color))
    ensures arg.OtherValue? ==> r == b
    ensures r.color == b.color
  {
    match arg
    case Named(name) => b.(textColor := Some(if name == "auto" then Auto else Fixed(parse(name))))
    case GivenColor(c) => b.(textColor := Some(Fixed(c)))
    case OtherValue => b
  }

  /** The constructor: both attributes start unset, then the two setters run. */
  function NewButton(color: ColorArg, textColor: ColorArg, parse: string -> Color): (b: Button)
    ensures b.color.Some? <==> !color.OtherValue?
    ensures b.textColor.Some? <==> !textColor.OtherValue?
  {
    SetTextColor(SetColor(Button(None, None), color, parse), textColor, parse)
  }

  /** `initStyleOption`'s palette. Without a stored colour, reading its variants raises;
      without a stored text colour, setting the role to `None` raises: both are `None`. */
  function StylePalette(b: Button, st: StyleState): (r: Option<Palette>)
    ensures r.Some? <==> b.color.Some? && b.textColor.Some?
    ensures r.Some? ==> r.value.button == r.value.window
    ensures r.Some? && st.sunken ==> r.value.button == Darker(b.color.value, 115)
    ensures r.Some? && !st.sunken && st.mouseOver ==> r.value.button == Lighter(b.color.value, 115)
    ensures r.Some? && !st.sunken && !st.mouseOver ==> r.value.button == Plain(b.color.value)
    ensures r.Some? && b.textColor.value.Auto? ==> r.value.buttonText == ContrastingTextColor(b.color.value)
    ensures r.Some? && b.textColor.value.Fixed? ==> r.value.buttonText == b.textColor.value.color
  {
    if b.color.None? || b.textColor.None? then None
    else
      var c := b.color.value;
      var shade := if st.sunken then Darker(c, 115) else if st.mouseOver then Lighter(c, 115) else Plain(c);
      var text := match b.textColor.value
        case Auto => ContrastingTextColor(c)
        case Fixed(t) => t;
      Some(Palette(shade, shade, text))
  }

  /** With "auto", the text colour is the same in every state: it follows the stored
      colour, not the pressed or hovered variant. */
  lemma AutoTextIgnoresState(b: Button, s1: StyleState, s2: StyleState)
    requires b.color.Some? && b.textColor == Some(Auto)
    ensures StylePalette(b, s1).value.buttonText == StylePalette(b, s2).value.buttonText
  {
  }

  /** White gets black text and black gets white text. */
  lemma ExtremesContrast()
    ensures ContrastingTextColor(White) == Black
    ensures ContrastingTextColor(Black) == White
  {
  }

  /** A background at least as bright in every channel never turns black text white. */
  lemma ContrastMonotone(c1: Color, c2: Color)
    requires c1.red <= c2.red && c1.green <= c2.green && c1.blue <= c2.blue
    requires ContrastingTextColor(c1) == Black
    ensures ContrastingTextColor(c2) == Black
  {
  }

  /** The default "auto" text colour on a stored background picks the contrasting colour
      in every state. */
  lemma NewButtonAutoText(color: Color, parse: string -> Color, st: StyleState)
    ensures var b := NewButton(GivenColor(color), Named("auto"), parse);
            StylePalette(b, st).Some? && StylePalette(b, st).value.buttonText == ContrastingTextColor(color)
  {
  }
}
