/**
 * The settings record of a headline and its closed enumerations, with the
 * names (or numbers) each enumeration value has in the settings' JSON.
 */
module Types {
  import opened Wrappers
  import opened Numbers

  datatype GradientDirection = Right | Left | Up | Down

  /** A word's decoration; `NoneStyle` is the value named `none`. */
  datatype SegmentStyle = NoneStyle | Highlight | Underline | Block

  datatype FontFamily = Inter | Poppins | Merriweather

  datatype FontWeight = W300 | W400 | W600 | W800

  /**
   * A headline's look. The three size fields are JavaScript numbers carried
   * as exact decimals; `segmentStyles` maps a word's index to its style and
   * is sparse.
   */
  datatype HeadlineSettings = HeadlineSettings(
    text: string,
    fontSize: Number,
    fontFamily: FontFamily,
    fontWeight: FontWeight,
    letterSpacing: Number,
    lineHeight: Number,
    gradientEnabled: bool,
    gradientDirection: GradientDirection,
    gradientFrom: string,
    gradientTo: string,
    perLetterAnimation: bool,
    hoverGlow: bool,
    textOutline: bool,
    segmentStyles: map<nat, SegmentStyle>)

  function DirectionName(d: GradientDirection): string
  {
    match d
    case Right => "right"
    case Left => "left"
    case Up => "up"
    case Down => "down"
  }

  /** The direction a name stands for; no other name is a direction. */
  function ParseDirection(name: string): (r: Option<GradientDirection>)
    ensures r.Some? ==> DirectionName(r.value) == name
    ensures r.None? ==> forall d :: DirectionName(d) != name
  {
    if name == "right" then Some(Right)
    else if name == "left" then Some(Left)
    else if name == "up" then Some(Up)
    else if name == "down" then Some(Down)
    else None
  }

  function StyleName(s: SegmentStyle): string
  {
    match s
    case NoneStyle => "none"
    case Highlight => "highlight"
    case Underline => "underline"
    case Block => "block"
  }

  /** The segment style a name stands for; no other name is a style. */
  function ParseStyle(name: string): (r: Option<SegmentStyle>)
    ensures r.Some? ==> StyleName(r.value) == name
    ensures r.None? ==> forall s :: StyleName(s) != name
  {
    if name == "none" then Some(NoneStyle)
    else if name == "highlight" then Some(Highlight)
    else if name == "underline" then Some(Underline)
    else if name == "block" then Some(Block)
    else None
  }

  function FamilyName(f: FontFamily): string
  {
    match f
    case Inter => "Inter"
    case Poppins => "Poppins"
    case Merriweather => "Merriweather"
  }

  /** The font family a name stands for; no other name is a family. */
  function ParseFamily(name: string): (r: Option<FontFamily>)
    ensures r.Some? ==> FamilyName(r.value) == name
    ensures r.None? ==> forall f :: FamilyName(f) != name
  {
    if name == "Inter" then Some(Inter)
    else if name == "Poppins" then Some(Poppins)
    else if name == "Merriweather" then Some(Merriweather)
    else None
  }

  function WeightValue(w: FontWeight): nat
  {
    match w
    case W300 => 300
    case W400 => 400
    case W600 => 600
    case W800 => 800
  }

  /** A weight as the number it is in the settings' JSON. */
  function WeightNumber(w: FontWeight): (r: Number)
    ensures r.exponent == 2 && r.mantissa * Pow10(r.exponent) == WeightValue(w)
  {
    match w
    case W300 => Decimal(3, 2)
    case W400 => Decimal(4, 2)
    case W600 => Decimal(6, 2)
    case W800 => Decimal(8, 2)
  }

  /** The weight a number stands for; no other number is a weight. */
  function ParseWeight(n: Number): (r: Option<FontWeight>)
    ensures r.Some? ==> WeightNumber(r.value) == n
    ensures r.None? ==> forall w :: WeightNumber(w) != n
  {
    if n == Decimal(3, 2) then Some(W300)
    else if n == Decimal(4, 2) then Some(W400)
    else if n == Decimal(6, 2) then Some(W600)
    else if n == Decimal(8, 2) then Some(W800)
    else None
  }
}
