/**
 * What the headline renderer derives from the settings: the gradient angle,
 * the word classes, the text style, the hover effect, the letter animation
 * parameters, and the list of units each render mode shows.
 */
module Widget {
  import opened Wrappers
  import opened Numbers
  import opened Unicode
  import opened Types
  import opened TextSplit
  import opened Defaults

  /** `dirToDeg`: the CSS angle of a gradient direction; any name but these three is `0deg`. */
  function DirToDeg(name: string): (r: string)
    ensures r == "90deg" <==> name == "right"
    ensures r == "270deg" <==> name == "left"
    ensures r == "180deg" <==> name == "down"
    ensures r == "0deg" <==> name != "right" && name != "left" && name != "down"
  {
    if name == "right" then "90deg"
    else if name == "left" then "270deg"
    else if name == "down" then "180deg"
    else "0deg"
  }

  const HighlightClass: string := "bg-yellow-300/30 rounded px-1"
  const UnderlineClass: string := "underline underline-offset-4 decoration-2"
  const BlockClass: string := "bg-white text-black rounded-xl px-2 py-0.5"

  /** `segmentClass`: the class list of a word style; `none` and every unknown name get none. */
  function SegmentClass(name: string): (r: string)
    ensures r == "" <==> name != "highlight" && name != "underline" && name != "block"
    ensures r == HighlightClass <==> name == "highlight"
    ensures r == UnderlineClass <==> name == "underline"
    ensures r == BlockClass <==> name == "block"
  {
    if name == "highlight" then HighlightClass
    else if name == "underline" then UnderlineClass
    else if name == "block" then BlockClass
    else ""
  }

  /** The styles of the enumeration: three distinct decorations, and none for `NoneStyle`. */
  lemma StyleClasses(style: SegmentStyle)
    ensures SegmentClass(StyleName(style)) == "" <==> style == NoneStyle
    ensures forall other :: SegmentClass(StyleName(other)) == SegmentClass(StyleName(style)) ==> other == style
  {
  }

  // ---- the text style ----

  /**
   * The CSS properties of the headline element. A property the style object
   * does not have is `None`.
   */
  datatype Style = Style(
    fontFamily: string,
    fontWeight: nat,
    fontSize: Number,
    letterSpacing: Number,
    lineHeight: Number,
    backgroundImage: Option<string>,
    webkitBackgroundClip: Option<string>,
    backgroundClip: Option<string>,
    color: string,
    webkitTextStroke: Option<string>)

  const OutlineStroke: string := "1px rgba(255,255,255,0.3)"

  function GradientImage(angle: string, from: string, to: string): string
  {
    "linear-gradient(" + angle + ", " + from + ", " + to + ")"
  }

  /** `baseStyle`: a clipped gradient or flat white text, with an optional outline on top of either. */
  function BaseStyle(s: HeadlineSettings): (r: Style)
    ensures r.fontFamily == FamilyName(s.fontFamily) && r.fontWeight == WeightValue(s.fontWeight)
    ensures r.fontSize == s.fontSize && r.letterSpacing == s.letterSpacing && r.lineHeight == s.lineHeight
    ensures s.gradientEnabled ==>
      r.color == "transparent" && r.backgroundClip == Some("text") && r.webkitBackgroundClip == Some("text")
      && r.backgroundImage == Some(GradientImage(DirToDeg(DirectionName(s.gradientDirection)), s.gradientFrom, s.gradientTo))
    ensures !s.gradientEnabled ==>
      r.color == "#ffffff" && r.backgroundImage == None && r.backgroundClip == None && r.webkitBackgroundClip == None
    ensures r.webkitTextStroke == if s.textOutline then Some(OutlineStroke) else None
  {
    var stroke := if s.textOutline then Some(OutlineStroke) else None;
    if s.gradientEnabled then
      Style(FamilyName(s.fontFamily), WeightValue(s.fontWeight), s.fontSize, s.letterSpacing, s.lineHeight,
        Some(GradientImage(DirToDeg(DirectionName(s.gradientDirection)), s.gradientFrom, s.gradientTo)),
        Some("text"), Some("text"), "transparent", stroke)
    else
      Style(FamilyName(s.fontFamily), WeightValue(s.fontWeight), s.fontSize, s.letterSpacing, s.lineHeight,
        None, None, None, "#ffffff", stroke)
  }

  /** The outline switch changes the stroke and nothing else. */
  lemma OutlineOnlyStroke(s: HeadlineSettings, outline: bool)
    ensures BaseStyle(s.(textOutline := outline)) == BaseStyle(s).(webkitTextStroke := BaseStyle(s.(textOutline := outline)).webkitTextStroke)
  {
  }

  /** The gradient switch leaves the stroke alone. */
  lemma GradientKeepsStroke(s: HeadlineSettings, gradient: bool)
    ensures BaseStyle(s.(gradientEnabled := gradient)).webkitTextStroke == BaseStyle(s).webkitTextStroke
  {
  }

  // ---- hover and letter animation ----

  const GlowFilter: string := "drop-shadow(0 0 10px rgba(255,255,255,0.7))"

  /** `containerVar.hover`: the glow filter when hover glow is on, an empty variant otherwise. */
  function HoverFilter(hoverGlow: bool): (r: Option<string>)
    ensures r.Some? <==> hoverGlow
    ensures r.Some? ==> r.value == GlowFilter
  {
    if hoverGlow then Some(GlowFilter) else None
  }

  /** A letter's animation: start offset and opacity, end state, and the spring's parameters. */
  datatype LetterMotion = LetterMotion(
    initY: int, initOpacity: int, y: int, opacity: int,
    delayIndex: nat, transition: string, stiffness: nat, damping: nat)

  /** `letterVar` for the letter with custom index `i`; its delay is `i` stagger steps of 0.015 s. */
  function LetterAnimation(i: nat): (r: LetterMotion)
    ensures r.delayIndex == i
    ensures r.initY == 12 && r.initOpacity == 0 && r.y == 0 && r.opacity == 1
    ensures r.transition == "spring" && r.stiffness == 300 && r.damping == 20
  {
    LetterMotion(12, 0, 0, 1, i, "spring", 300, 20)
  }

  // ---- per-letter mode ----

  /** A per-letter unit: a non-animated no-break space, or an animated span holding one UTF-16 code unit and its stagger index. */
  datatype LetterUnit = Nbsp | Glyph(unit: int, index: nat)

  /** The unit for each position of a sequence of code units: a space becomes `Nbsp`, any other unit a glyph. */
  function Letters(units: seq<int>): seq<LetterUnit>
  {
    seq(|units|, i requires 0 <= i < |units| => if units[i] == 0x20 then Nbsp else Glyph(units[i], i))
  }

  /**
   * The per-letter units the renderer maps: `text.split('')` yields UTF-16
   * code units, so a character above U+FFFF becomes two spans holding one
   * surrogate each, and every later letter's index moves up by one.
   */
  function PerLetter(text: string): (r: seq<LetterUnit>)
    ensures |r| == |Utf16(text)|
    ensures forall i :: 0 <= i < |r| ==> (r[i].Nbsp? <==> Utf16(text)[i] == 0x20)
    ensures forall i :: 0 <= i < |r| && r[i].Glyph? ==> r[i] == Glyph(Utf16(text)[i], i)
  {
    Letters(Utf16(text))
  }

  /**
   * The units a split into characters would give, one per Unicode scalar
   * value. The renderer does not use it; it is the reading `PerLetter` is
   * compared with.
   */
  function PerCharacter(text: string): (r: seq<LetterUnit>)
    ensures |r| == |text|
    ensures forall i :: 0 <= i < |r| ==> (r[i].Nbsp? <==> text[i] == ' ')
    ensures forall i :: 0 <= i < |r| && r[i].Glyph? ==> r[i] == Glyph(text[i] as int, i)
  {
    seq(|text|, i requires 0 <= i < |text| => if text[i] == ' ' then Nbsp else Glyph(text[i] as int, i))
  }

  const NoBreakSpace: char := '\U{00A0}'

  /** The code units the per-letter spans show, a no-break space for each `Nbsp`. */
  function Shown(units: seq<LetterUnit>): seq<int>
  {
    seq(|units|, i requires 0 <= i < |units| => if units[i].Nbsp? then NoBreakSpace as int else units[i].unit)
  }

  /** The text with every space replaced by a no-break space. */
  function NbspText(text: string): string
  {
    if text == [] then "" else [if text[0] == ' ' then NoBreakSpace else text[0]] + NbspText(text[1..])
  }

  /** Code units with every space replaced by a no-break space. */
  function NbspUnits(units: seq<int>): seq<int>
  {
    seq(|units|, i requires 0 <= i < |units| => if units[i] == 0x20 then NoBreakSpace as int else units[i])
  }

  /** The spans show, code unit by code unit, the text with each space replaced by a no-break space. */
  lemma ShownIsNbspText(text: string)
    ensures Shown(PerLetter(text)) == Utf16(NbspText(text))
  {
    assert Shown(PerLetter(text)) == NbspUnits(Utf16(text));
    NbspUnitsOfText(text);
  }

  lemma {:induction false} NbspUnitsOfText(text: string)
    ensures NbspUnits(Utf16(text)) == Utf16(NbspText(text))
  {
    if text != [] {
      var c := text[0];
      var c' := if c == ' ' then NoBreakSpace else c;
      NbspUnitsOfText(text[1..]);
      NbspUnitsAppend(CodeUnits(c), Utf16(text[1..]));
      NbspUnitsOfChar(c);
      assert NbspText(text) == [c'] + NbspText(text[1..]);
      assert ([c'] + NbspText(text[1..]))[1..] == NbspText(text[1..]);
    }
  }

  lemma NbspUnitsAppend(a: seq<int>, b: seq<int>)
    ensures NbspUnits(a + b) == NbspUnits(a) + NbspUnits(b)
  {
  }

  /** A space is its own single code unit, and the surrogates of a character above U+FFFF are no spaces. */
  lemma NbspUnitsOfChar(c: char)
    ensures NbspUnits(CodeUnits(c)) == CodeUnits(if c == ' ' then NoBreakSpace else c)
  {
    if (c as int) >= 0x10000 {
      assert CodeUnits(c)[0] >= 0xD800 && CodeUnits(c)[1] >= 0xDC00;
    }
  }

  /** For text without characters above U+FFFF the code units are the characters, so both readings agree. */
  lemma PerLetterAgreesOnBmp(text: string)
    requires forall i :: 0 <= i < |text| ==> (text[i] as int) < 0x10000
    ensures PerLetter(text) == PerCharacter(text)
  {
    Utf16OfBmp(text);
  }

  /** The code units reserved for surrogate pairs, which no character (Unicode scalar value) is. */
  predicate IsSurrogate(unit: int)
  {
    0xD800 <= unit < 0xE000
  }

  /**
   * One emoji makes two spans, each a lone surrogate that no character is,
   * and the letter after it gets index 2 where a split into characters gives 1.
   */
  lemma SplitsSurrogatePair()
    ensures |"\U{1F600}a"| == 2
    ensures PerLetter("\U{1F600}a") == [Glyph(0xD83D, 0), Glyph(0xDE00, 1), Glyph(0x61, 2)]
    ensures IsSurrogate(0xD83D) && IsSurrogate(0xDE00)
    ensures PerCharacter("\U{1F600}a") == [Glyph(0x1F600, 0), Glyph(0x61, 1)]
  {
    assert Utf16("\U{1F600}a") == [0xD83D, 0xDE00] + Utf16("a");
    assert Utf16("a") == [0x61];
  }

  // ---- per-word mode ----

  datatype WordUnit = WordUnit(word: string, className: string)

  /** `segmentStyles[i] ?? 'none'`. */
  function StyleAt(segments: map<nat, SegmentStyle>, i: nat): (r: SegmentStyle)
    ensures i in segments ==> r == segments[i]
    ensures r != NoneStyle <==> i in segments && segments[i] != NoneStyle
  {
    if i in segments then segments[i] else NoneStyle
  }

  /** A word's class list: `inline`, the style's classes, `mr-2`; only `none` leaves the middle empty. */
  function WordClass(style: SegmentStyle): (r: string)
    ensures r == "inline  mr-2" <==> style == NoneStyle
  {
    StyleClasses(style);
    var r := "inline " + SegmentClass(StyleName(style)) + " mr-2";
    assert |r| == 12 + |SegmentClass(StyleName(style))|;
    r
  }

  /** Per-word units: one per element of `text.split(/\s+/)`, word `i` decorated by the style stored for `i`. */
  function PerWord(s: HeadlineSettings): (r: seq<WordUnit>)
    ensures |r| == |Split(s.text)|
    ensures forall i :: 0 <= i < |r| ==>
      r[i].word == Split(s.text)[i] && r[i].className == WordClass(StyleAt(s.segmentStyles, i))
  {
    var words := Split(s.text);
    seq(|words|, i requires 0 <= i < |words| => WordUnit(words[i], WordClass(StyleAt(s.segmentStyles, i))))
  }

  /** A style stored for an index past the last word changes nothing. */
  lemma PerWordIgnoresFarIndex(s: HeadlineSettings, k: nat, style: SegmentStyle)
    requires k >= |Split(s.text)|
    ensures PerWord(s.(segmentStyles := s.segmentStyles[k := style])) == PerWord(s)
  {
  }

  /** An unstyled word, whether its index is missing or maps to `none`, gets only the layout classes. */
  lemma UnstyledWordClass(s: HeadlineSettings, i: nat)
    requires i < |Split(s.text)|
    requires i !in s.segmentStyles || s.segmentStyles[i] == NoneStyle
    ensures PerWord(s)[i].className == "inline  mr-2"
  {
    assert StyleAt(s.segmentStyles, i) == NoneStyle;
  }

  // ---- the rendered headline ----

  datatype Rendered =
    | LetterView(style: Style, hover: Option<string>, letters: seq<LetterUnit>)
    | WordView(style: Style, hover: Option<string>, words: seq<WordUnit>)

  /** The headline: the code-unit spans of `split('')` when per-letter animation is on, per-word units otherwise. */
  function Render(s: HeadlineSettings): (r: Rendered)
    ensures r.WordView? <==> !s.perLetterAnimation
    ensures r.style == BaseStyle(s) && r.hover == HoverFilter(s.hoverGlow)
    ensures r.LetterView? ==> r.letters == PerLetter(s.text)
    ensures r.WordView? ==> r.words == PerWord(s)
  {
    if s.perLetterAnimation then LetterView(BaseStyle(s), HoverFilter(s.hoverGlow), PerLetter(s.text))
    else WordView(BaseStyle(s), HoverFilter(s.hoverGlow), PerWord(s))
  }

  /** In per-letter mode the segment styles have no effect. */
  lemma LettersIgnoreSegments(s: HeadlineSettings, segments: map<nat, SegmentStyle>)
    requires s.perLetterAnimation
    ensures Render(s.(segmentStyles := segments)) == Render(s)
  {
  }

  /** The default headline is animated per letter with a left-to-right gradient, so its highlighted word is not shown. */
  lemma DefaultRender()
    ensures Render(DefaultSettings).LetterView?
    ensures Render(DefaultSettings).style.backgroundImage == Some("linear-gradient(90deg, #22d3ee, #a78bfa)")
    ensures Render(DefaultSettings).hover == Some(GlowFilter)
  {
    assert DirToDeg(DirectionName(DefaultSettings.gradientDirection)) == "90deg";
    assert GradientImage("90deg", "#22d3ee", "#a78bfa") == "linear-gradient(90deg, #22d3ee, #a78bfa)";
  }
}
