/**
 * The editing operations of the controls panel: a partial record merged
 * over the settings, the sparse word-style map edit behind each word's
 * selector, and the list of selectors.
 */
module Controls {
  import opened Wrappers
  import opened Numbers
  import opened Types
  import opened TextSplit
  import opened Widget

  /** `Partial<HeadlineSettings>`: each field either given or absent. */
  datatype Patch = Patch(
    text: Option<string>,
    fontSize: Option<Number>,
    fontFamily: Option<FontFamily>,
    fontWeight: Option<FontWeight>,
    letterSpacing: Option<Number>,
    lineHeight: Option<Number>,
    gradientEnabled: Option<bool>,
    gradientDirection: Option<GradientDirection>,
    gradientFrom: Option<string>,
    gradientTo: Option<string>,
    perLetterAnimation: Option<bool>,
    hoverGlow: Option<bool>,
    textOutline: Option<bool>,
    segmentStyles: Option<map<nat, SegmentStyle>>)

  const EmptyPatch: Patch := Patch(None, None, None, None, None, None, None, None, None, None, None, None, None, None)

  /** `{ ...settings, ...patch }`: every field the patch gives replaces the settings' one. */
  function Update(s: HeadlineSettings, p: Patch): (r: HeadlineSettings)
    ensures r.text == p.text.GetOr(s.text)
    ensures r.fontSize == p.fontSize.GetOr(s.fontSize)
    ensures r.fontFamily == p.fontFamily.GetOr(s.fontFamily)
    ensures r.fontWeight == p.fontWeight.GetOr(s.fontWeight)
    ensures r.letterSpacing == p.letterSpacing.GetOr(s.letterSpacing)
    ensures r.lineHeight == p.lineHeight.GetOr(s.lineHeight)
    ensures r.gradientEnabled == p.gradientEnabled.GetOr(s.gradientEnabled)
    ensures r.gradientDirection == p.gradientDirection.GetOr(s.gradientDirection)
    ensures r.gradientFrom == p.gradientFrom.GetOr(s.gradientFrom)
    ensures r.gradientTo == p.gradientTo.GetOr(s.gradientTo)
    ensures r.perLetterAnimation == p.perLetterAnimation.GetOr(s.perLetterAnimation)
    ensures r.hoverGlow == p.hoverGlow.GetOr(s.hoverGlow)
    ensures r.textOutline == p.textOutline.GetOr(s.textOutline)
    ensures r.segmentStyles == p.segmentStyles.GetOr(s.segmentStyles)
  {
    HeadlineSettings(
      p.text.GetOr(s.text),
      p.fontSize.GetOr(s.fontSize),
      p.fontFamily.GetOr(s.fontFamily),
      p.fontWeight.GetOr(s.fontWeight),
      p.letterSpacing.GetOr(s.letterSpacing),
      p.lineHeight.GetOr(s.lineHeight),
      p.gradientEnabled.GetOr(s.gradientEnabled),
      p.gradientDirection.GetOr(s.gradientDirection),
      p.gradientFrom.GetOr(s.gradientFrom),
      p.gradientTo.GetOr(s.gradientTo),
      p.perLetterAnimation.GetOr(s.perLetterAnimation),
      p.hoverGlow.GetOr(s.hoverGlow),
      p.textOutline.GetOr(s.textOutline),
      p.segmentStyles.GetOr(s.segmentStyles))
  }

  function Prefer<T>(later: Option<T>, earlier: Option<T>): Option<T>
  {
    if later.Some? then later else earlier
  }

  /** `{ ...p, ...q }`: the fields of `q`, and those of `p` that `q` does not give. */
  function Merge(p: Patch, q: Patch): Patch
  {
    Patch(
      Prefer(q.text, p.text),
      Prefer(q.fontSize, p.fontSize),
      Prefer(q.fontFamily, p.fontFamily),
      Prefer(q.fontWeight, p.fontWeight),
      Prefer(q.letterSpacing, p.letterSpacing),
      Prefer(q.lineHeight, p.lineHeight),
      Prefer(q.gradientEnabled, p.gradientEnabled),
      Prefer(q.gradientDirection, p.gradientDirection),
      Prefer(q.gradientFrom, p.gradientFrom),
      Prefer(q.gradientTo, p.gradientTo),
      Prefer(q.perLetterAnimation, p.perLetterAnimation),
      Prefer(q.hoverGlow, p.hoverGlow),
      Prefer(q.textOutline, p.textOutline),
      Prefer(q.segmentStyles, p.segmentStyles))
  }

  /** The empty patch changes nothing. */
  lemma UpdateEmpty(s: HeadlineSettings)
    ensures Update(s, EmptyPatch) == s
  {
  }

  /** Applying a patch a second time changes nothing more. */
  lemma UpdateIdempotent(s: HeadlineSettings, p: Patch)
    ensures Update(Update(s, p), p) == Update(s, p)
  {
  }

  /** Two patches in a row are one patch with the later one's fields winning. */
  lemma UpdateCompose(s: HeadlineSettings, p: Patch, q: Patch)
    ensures Update(Update(s, p), q) == Update(s, Merge(p, q))
  {
  }

  function SegmentsPatch(m: map<nat, SegmentStyle>): Patch
  {
    EmptyPatch.(segmentStyles := Some(m))
  }

  function TextPatch(text: string): Patch
  {
    EmptyPatch.(text := Some(text))
  }

  // ---- word styles ----

  /** The map after choosing `style` for word `idx`: `none` removes the index, any other style stores it. */
  function EditSegments(m: map<nat, SegmentStyle>, idx: nat, style: SegmentStyle): (r: map<nat, SegmentStyle>)
    ensures forall k :: k != idx ==> (k in r <==> k in m)
    ensures forall k :: k != idx && k in m ==> r[k] == m[k]
    ensures style == NoneStyle ==> idx !in r
    ensures style != NoneStyle ==> idx in r && r[idx] == style
  {
    if style == NoneStyle then m - {idx} else m[idx := style]
  }

  /** `setSegment`: edit a copy of the map, then patch the settings with it. */
  method SetSegment(s: HeadlineSettings, idx: nat, style: SegmentStyle) returns (next: HeadlineSettings)
    ensures next == Update(s, SegmentsPatch(EditSegments(s.segmentStyles, idx, style)))
    ensures next == s.(segmentStyles := next.segmentStyles)
  {
    var copy := s.segmentStyles;
    if style == NoneStyle {
      copy := copy - {idx};
    } else {
      copy := copy[idx := style];
    }
    next := Update(s, SegmentsPatch(copy));
  }

  /** No edit stores `none`: a map without `none` values keeps having none. */
  lemma EditNeverStoresNone(m: map<nat, SegmentStyle>, idx: nat, style: SegmentStyle)
    requires forall k :: k in m ==> m[k] != NoneStyle
    ensures forall k :: k in EditSegments(m, idx, style) ==> EditSegments(m, idx, style)[k] != NoneStyle
  {
  }

  /** Choosing the same style for the same word twice is choosing it once. */
  lemma EditIdempotent(m: map<nat, SegmentStyle>, idx: nat, style: SegmentStyle)
    ensures EditSegments(EditSegments(m, idx, style), idx, style) == EditSegments(m, idx, style)
  {
  }

  /** The last choice for a word is the one that counts. */
  lemma EditOverrides(m: map<nat, SegmentStyle>, idx: nat, first: SegmentStyle, second: SegmentStyle)
    ensures EditSegments(EditSegments(m, idx, first), idx, second) == EditSegments(m, idx, second)
  {
  }

  /** Editing text changes the text only; styles stored past the new last word are kept. */
  lemma EditTextKeepsSegments(s: HeadlineSettings, text: string)
    ensures Update(s, TextPatch(text)) == s.(text := text)
    ensures Update(s, TextPatch(text)).segmentStyles == s.segmentStyles
  {
  }

  // ---- the selectors ----

  /** A word's selector: its 1-based number, the word, and the style it shows. */
  datatype Selector = Selector(number: nat, word: string, value: SegmentStyle)

  /** One selector per element of `text.split(/\s+/)`, showing `segmentStyles[i] ?? 'none'`. */
  function Selectors(s: HeadlineSettings): (r: seq<Selector>)
    ensures |r| == |Split(s.text)|
    ensures forall i :: 0 <= i < |r| ==>
      r[i] == Selector(i + 1, Split(s.text)[i], StyleAt(s.segmentStyles, i))
  {
    var words := Split(s.text);
    seq(|words|, i requires 0 <= i < |words| => Selector(i + 1, words[i], StyleAt(s.segmentStyles, i)))
  }

  /** Each selector shows the style its word is rendered with in per-word mode. */
  lemma SelectorsMatchWords(s: HeadlineSettings)
    ensures |Selectors(s)| == |PerWord(s)|
    ensures forall i :: 0 <= i < |Selectors(s)| ==>
      Selectors(s)[i].word == PerWord(s)[i].word && WordClass(Selectors(s)[i].value) == PerWord(s)[i].className
  {
  }

  /** After choosing a style for word `i`, its selector shows that style and the other selectors are unchanged. */
  lemma SelectorShowsChoice(s: HeadlineSettings, i: nat, style: SegmentStyle)
    requires i < |Split(s.text)|
    ensures var after := Update(s, SegmentsPatch(EditSegments(s.segmentStyles, i, style)));
      Selectors(after)[i].value == style
      && forall j :: 0 <= j < |Selectors(s)| && j != i ==> Selectors(after)[j] == Selectors(s)[j]
  {
  }
}
