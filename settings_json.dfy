/**
 * The JSON object `JSON.stringify` makes of a settings record, and the
 * reading back of a record from a parsed JSON value with the shape the
 * record's type declares.
 */
module SettingsJson {
  import opened Wrappers
  import opened Numbers
  import opened Json
  import opened Types

  // ---- the keys of a sparse map, in the order JavaScript lists integer keys ----

  /** A set of naturals holding `x` has a least element, found by descending from `x`. */
  lemma {:induction false} LeastExists(keys: set<nat>, x: nat)
    requires x in keys
    ensures exists m :: m in keys && forall k :: k in keys ==> m <= k
    decreases x
  {
    if exists y :: y in keys && y < x {
      var y :| y in keys && y < x;
      LeastExists(keys, y);
    } else {
      assert forall k :: k in keys ==> x <= k;
    }
  }

  function Least(keys: set<nat>): (m: nat)
    requires keys != {}
    ensures m in keys && forall k :: k in keys ==> m <= k
  {
    var x :| x in keys;
    LeastExists(keys, x);
    var m :| m in keys && forall k :: k in keys ==> m <= k;
    m
  }

  /** The keys in ascending order, each once. */
  function SortedKeys(keys: set<nat>): (r: seq<nat>)
    ensures forall i, j :: 0 <= i < j < |r| ==> r[i] < r[j]
    ensures forall k :: k in keys <==> k in r
    decreases |keys|
  {
    if keys == {} then []
    else
      var m := Least(keys);
      var rest := SortedKeys(keys - {m});
      [m] + rest
  }

  // ---- writing ----

  /** The members of `segmentStyles` for the keys `ks`: the index as its decimal text, the style by name. */
  function SegmentMembers(ks: seq<nat>, segments: map<nat, SegmentStyle>): seq<Member>
    requires forall i :: 0 <= i < |ks| ==> ks[i] in segments
  {
    if ks == [] then []
    else
      var k := ks[|ks| - 1];
      SegmentMembers(ks[..|ks| - 1], segments) + [Member(NatText(k), JString(StyleName(segments[k])))]
  }

  function SegmentsJson(segments: map<nat, SegmentStyle>): Json
  {
    JObject(SegmentMembers(SortedKeys(segments.Keys), segments))
  }

  /** The object `JSON.stringify` is given: the fourteen fields in declaration order. */
  function ToJson(s: HeadlineSettings): Json
  {
    JObject([
      Member("text", JString(s.text)),
      Member("fontSize", JNumber(s.fontSize)),
      Member("fontFamily", JString(FamilyName(s.fontFamily))),
      Member("fontWeight", JNumber(WeightNumber(s.fontWeight))),
      Member("letterSpacing", JNumber(s.letterSpacing)),
      Member("lineHeight", JNumber(s.lineHeight)),
      Member("gradientEnabled", JBool(s.gradientEnabled)),
      Member("gradientDirection", JString(DirectionName(s.gradientDirection))),
      Member("gradientFrom", JString(s.gradientFrom)),
      Member("gradientTo", JString(s.gradientTo)),
      Member("perLetterAnimation", JBool(s.perLetterAnimation)),
      Member("hoverGlow", JBool(s.hoverGlow)),
      Member("textOutline", JBool(s.textOutline)),
      Member("segmentStyles", SegmentsJson(s.segmentStyles))])
  }

  // ---- reading ----

  function StringField(members: seq<Member>, key: string): Option<string>
  {
    match Get(members, key)
    case Some(JString(s)) => Some(s)
    case _ => None
  }

  function NumberField(members: seq<Member>, key: string): Option<Number>
  {
    match Get(members, key)
    case Some(JNumber(n)) => Some(n)
    case _ => None
  }

  function BoolField(members: seq<Member>, key: string): Option<bool>
  {
    match Get(members, key)
    case Some(JBool(b)) => Some(b)
    case _ => None
  }

  /** A word index written as an object key: a decimal numeral without superfluous zeros. */
  function ParseIndex(key: string): (r: Option<nat>)
    ensures r.Some? ==> NatText(r.value) == key
  {
    if IsCanonicalNatText(key) then
      CanonicalNatText(key);
      Some(DigitsValue(key))
    else None
  }

  function StyleValue(j: Json): Option<SegmentStyle>
  {
    match j
    case JString(name) => ParseStyle(name)
    case _ => None
  }

  /** The sparse map of an object's members; a later member overrides an earlier one with the same index. */
  function SegmentMap(members: seq<Member>): Option<map<nat, SegmentStyle>>
  {
    if members == [] then Some(map[])
    else
      var m :- SegmentMap(members[..|members| - 1]);
      var last := members[|members| - 1];
      var index :- ParseIndex(last.key);
      var style :- StyleValue(last.value);
      Some(m[index := style])
  }

  function SegmentsField(members: seq<Member>, key: string): Option<map<nat, SegmentStyle>>
  {
    match Get(members, key)
    case Some(JObject(ms)) => SegmentMap(ms)
    case _ => None
  }

  /**
   * The settings record a parsed value stands for, when the value is an
   * object whose fourteen fields all have the declared types and, for the
   * enumerations, one of the declared values; other keys are ignored.
   */
  function FromJson(j: Json): Option<HeadlineSettings>
  {
    if !j.JObject? then None
    else
      var ms := j.members;
      var text :- StringField(ms, "text");
      var fontSize :- NumberField(ms, "fontSize");
      var familyName :- StringField(ms, "fontFamily");
      var fontFamily :- ParseFamily(familyName);
      var weightNumber :- NumberField(ms, "fontWeight");
      var fontWeight :- ParseWeight(weightNumber);
      var letterSpacing :- NumberField(ms, "letterSpacing");
      var lineHeight :- NumberField(ms, "lineHeight");
      var gradientEnabled :- BoolField(ms, "gradientEnabled");
      var directionName :- StringField(ms, "gradientDirection");
      var gradientDirection :- ParseDirection(directionName);
      var gradientFrom :- StringField(ms, "gradientFrom");
      var gradientTo :- StringField(ms, "gradientTo");
      var perLetterAnimation :- BoolField(ms, "perLetterAnimation");
      var hoverGlow :- BoolField(ms, "hoverGlow");
      var textOutline :- BoolField(ms, "textOutline");
      var segmentStyles :- SegmentsField(ms, "segmentStyles");
      Some(HeadlineSettings(text, fontSize, fontFamily, fontWeight, letterSpacing, lineHeight,
        gradientEnabled, gradientDirection, gradientFrom, gradientTo,
        perLetterAnimation, hoverGlow, textOutline, segmentStyles))
  }

  // ---- the round trip ----

  lemma IndexText(n: nat)
    ensures ParseIndex(NatText(n)) == Some(n)
  {
  }

  lemma StyleText(style: SegmentStyle)
    ensures StyleValue(JString(StyleName(style))) == Some(style)
  {
    match style
    case NoneStyle =>
    case Highlight =>
    case Underline =>
    case Block =>
  }

  lemma SegmentMapSnoc(ms: seq<Member>, m: map<nat, SegmentStyle>, k: nat, style: SegmentStyle)
    requires SegmentMap(ms) == Some(m)
    ensures SegmentMap(ms + [Member(NatText(k), JString(StyleName(style)))]) == Some(m[k := style])
  {
    var ms' := ms + [Member(NatText(k), JString(StyleName(style)))];
    assert ms'[..|ms'| - 1] == ms;
    IndexText(k);
    StyleText(style);
  }

  /** The map restricted to the keys listed in `ks`. */
  function Restrict(ks: seq<nat>, segments: map<nat, SegmentStyle>): map<nat, SegmentStyle>
    requires forall i :: 0 <= i < |ks| ==> ks[i] in segments
  {
    map k | k in ks :: segments[k]
  }

  lemma RestrictSnoc(init: seq<nat>, k: nat, segments: map<nat, SegmentStyle>)
    requires forall i :: 0 <= i < |init| ==> init[i] in segments
    requires k in segments
    ensures Restrict(init, segments)[k := segments[k]] == Restrict(init + [k], segments)
  {
    assert forall x :: x in init + [k] <==> x in init || x == k;
  }

  lemma SegmentMembersSnoc(ks: seq<nat>, init: seq<nat>, segments: map<nat, SegmentStyle>)
    requires ks != [] && forall i :: 0 <= i < |ks| ==> ks[i] in segments
    requires init == ks[..|ks| - 1]
    ensures forall i :: 0 <= i < |init| ==> init[i] in segments
    ensures SegmentMembers(ks, segments) == SegmentMembers(init, segments)
              + [Member(NatText(ks[|ks| - 1]), JString(StyleName(segments[ks[|ks| - 1]])))]
  {
    assert forall i :: 0 <= i < |init| ==> init[i] == ks[i];
  }

  /** The members written for the keys `ks` read back as the map restricted to `ks`. */
  lemma {:induction false} SegmentMapOf(ks: seq<nat>, segments: map<nat, SegmentStyle>)
    requires forall i :: 0 <= i < |ks| ==> ks[i] in segments
    ensures SegmentMap(SegmentMembers(ks, segments)) == Some(Restrict(ks, segments))
  {
    if ks != [] {
      var init := ks[..|ks| - 1];
      var k := ks[|ks| - 1];
      SegmentMembersSnoc(ks, init, segments);
      SegmentMapOf(init, segments);
      SegmentMapSnoc(SegmentMembers(init, segments), Restrict(init, segments), k, segments[k]);
      RestrictSnoc(init, k, segments);
      assert init + [k] == ks;
    }
  }

  /** A sparse map survives being written to JSON and read back. */
  lemma SegmentsRoundTrip(segments: map<nat, SegmentStyle>)
    ensures SegmentsField([Member("segmentStyles", SegmentsJson(segments))], "segmentStyles") == Some(segments)
  {
    var ks := SortedKeys(segments.Keys);
    SegmentMapOf(ks, segments);
    RestrictAll(ks, segments);
    SegmentsFieldSingle(SegmentsJson(segments));
  }

  lemma SegmentsFieldSingle(j: Json)
    requires j.JObject?
    ensures SegmentsField([Member("segmentStyles", j)], "segmentStyles") == SegmentMap(j.members)
  {
    assert Get([Member("segmentStyles", j)], "segmentStyles") == Some(j);
  }

  /** Restricting a map to a list of all its keys gives the map. */
  lemma RestrictAll(ks: seq<nat>, segments: map<nat, SegmentStyle>)
    requires forall k :: k in segments.Keys <==> k in ks
    ensures forall i :: 0 <= i < |ks| ==> ks[i] in segments
    ensures Restrict(ks, segments) == segments
  {
  }

  lemma SegmentsFieldLast(members: seq<Member>, key: string, v: Json)
    requires |members| > 0 && members[|members| - 1] == Member(key, v)
    ensures SegmentsField(members, key) == SegmentsField([Member(key, v)], key)
  {
  }

  /** The record's keys, in declaration order. */
  const FieldNames: seq<string> := [
    "text", "fontSize", "fontFamily", "fontWeight", "letterSpacing", "lineHeight",
    "gradientEnabled", "gradientDirection", "gradientFrom", "gradientTo",
    "perLetterAnimation", "hoverGlow", "textOutline", "segmentStyles"]

  lemma FieldNamesDistinct()
    ensures forall i, j :: 0 <= i < j < |FieldNames| ==> FieldNames[i] != FieldNames[j]
  {
  }

  lemma KeysOfToJson(s: HeadlineSettings)
    ensures |ToJson(s).members| == |FieldNames|
    ensures forall i :: 0 <= i < |FieldNames| ==> ToJson(s).members[i].key == FieldNames[i]
  {
  }

  /** Each field is read from the one member written for it. */
  lemma FieldOfToJson(s: HeadlineSettings, i: nat)
    requires i < |FieldNames|
    ensures Get(ToJson(s).members, FieldNames[i]) == Some(ToJson(s).members[i].value)
  {
    KeysOfToJson(s);
    FieldNamesDistinct();
    GetUnique(ToJson(s).members, i);
  }

  lemma FieldsOfToJson(s: HeadlineSettings)
    ensures var ms := ToJson(s).members;
      StringField(ms, "text") == Some(s.text)
      && NumberField(ms, "fontSize") == Some(s.fontSize)
      && StringField(ms, "fontFamily") == Some(FamilyName(s.fontFamily))
      && NumberField(ms, "fontWeight") == Some(WeightNumber(s.fontWeight))
      && NumberField(ms, "letterSpacing") == Some(s.letterSpacing)
      && NumberField(ms, "lineHeight") == Some(s.lineHeight)
      && BoolField(ms, "gradientEnabled") == Some(s.gradientEnabled)
  {
    FieldOfToJson(s, 0);
    FieldOfToJson(s, 1);
    FieldOfToJson(s, 2);
    FieldOfToJson(s, 3);
    FieldOfToJson(s, 4);
    FieldOfToJson(s, 5);
    FieldOfToJson(s, 6);
  }

  lemma MoreFieldsOfToJson(s: HeadlineSettings)
    ensures var ms := ToJson(s).members;
      StringField(ms, "gradientDirection") == Some(DirectionName(s.gradientDirection))
      && StringField(ms, "gradientFrom") == Some(s.gradientFrom)
      && StringField(ms, "gradientTo") == Some(s.gradientTo)
      && BoolField(ms, "perLetterAnimation") == Some(s.perLetterAnimation)
      && BoolField(ms, "hoverGlow") == Some(s.hoverGlow)
      && BoolField(ms, "textOutline") == Some(s.textOutline)
      && SegmentsField(ms, "segmentStyles") == Some(s.segmentStyles)
  {
    var ms := ToJson(s).members;
    FieldOfToJson(s, 7);
    FieldOfToJson(s, 8);
    FieldOfToJson(s, 9);
    FieldOfToJson(s, 10);
    FieldOfToJson(s, 11);
    FieldOfToJson(s, 12);
    SegmentsFieldLast(ms, "segmentStyles", SegmentsJson(s.segmentStyles));
    SegmentsRoundTrip(s.segmentStyles);
  }

  /** Every settings record is read back from the JSON object written for it. */
  lemma FromJsonToJson(s: HeadlineSettings)
    ensures FromJson(ToJson(s)) == Some(s)
  {
    FieldsOfToJson(s);
    MoreFieldsOfToJson(s);
    assert ParseFamily(FamilyName(s.fontFamily)) == Some(s.fontFamily);
    assert ParseWeight(WeightNumber(s.fontWeight)) == Some(s.fontWeight);
    assert ParseDirection(DirectionName(s.gradientDirection)) == Some(s.gradientDirection);
  }
}
