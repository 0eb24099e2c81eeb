/**
 * `JSON.parse(JSON.stringify(j))` gives back `j` for every JSON value,
 * proved through the parser's stages: characters, string bodies, values,
 * array items and object members.
 */
module JsonRoundTrip {
  import opened Wrappers
  import opened Numbers
  import opened Json

  lemma HexDigitValue(n: nat)
    requires n < 16
    ensures HexValue(HexDigit(n)) == Some(n)
  {
  }

  /** What may follow a value inside a document: the end, a separator or a closing bracket. */
  predicate Follows(rest: string)
  {
    rest == [] || rest[0] == ',' || rest[0] == ']' || rest[0] == '}'
  }

  lemma ControlEscapeParses(c: char, rest: string)
    requires (c as int) < 0x20
    ensures var v := c as int;
      ParseUnicodeEscape(['0', '0', HexDigit(v / 16), HexDigit(v % 16)] + rest) == Some((c, rest))
  {
    var v := c as int;
    var s := ['0', '0', HexDigit(v / 16), HexDigit(v % 16)] + rest;
    HexDigitValue(0);
    HexDigitValue(v / 16);
    HexDigitValue(v % 16);
    assert s[..4] == ['0', '0', HexDigit(v / 16), HexDigit(v % 16)];
    assert Hex4(s) == Some(v);
    assert s[4..] == rest;
  }

  /** Every character's escape reads back as that character. */
  lemma EscapeCharParses(c: char, rest: string)
    ensures EscapeChar(c) + rest != [] && (EscapeChar(c) + rest)[0] != '"'
    ensures ParseChar(EscapeChar(c) + rest) == Some((c, rest))
  {
    var s := EscapeChar(c) + rest;
    var v := c as int;
    if c == '"' || c == '\\' || v == 0x08 || v == 0x0C || c == '\n' || c == '\r' || c == '\t' {
      assert s[2..] == rest;
    } else if v < 0x20 {
      assert s[2..] == ['0', '0', HexDigit(v / 16), HexDigit(v % 16)] + rest;
      ControlEscapeParses(c, rest);
    } else {
      assert s[1..] == rest;
    }
  }

  /** A string's escaped body followed by the closing quote reads back as the string. */
  lemma {:induction false} EscapedParses(s: string, rest: string)
    ensures ParseStringBody(Escaped(s) + "\"" + rest) == Some((s, rest))
  {
    if s == [] {
      assert Escaped(s) + "\"" + rest == "\"" + rest;
    } else {
      var tail := Escaped(s[1..]) + "\"" + rest;
      EscapedCons(s, rest);
      EscapedParses(s[1..], rest);
      BodyStep(s[0], tail, s[1..], rest);
      assert [s[0]] + s[1..] == s;
    }
  }

  lemma EscapedCons(s: string, rest: string)
    requires s != []
    ensures Escaped(s) + "\"" + rest == EscapeChar(s[0]) + (Escaped(s[1..]) + "\"" + rest)
  {
  }

  /** One escaped character, then a string body: the character joins the body's text. */
  lemma BodyStep(c: char, tail: string, t: string, rest: string)
    requires ParseStringBody(tail) == Some((t, rest))
    ensures ParseStringBody(EscapeChar(c) + tail) == Some(([c] + t, rest))
  {
    EscapeCharParses(c, tail);
  }

  lemma QuoteParses(s: string, rest: string)
    ensures Quote(s) + rest != [] && (Quote(s) + rest)[0] == '"'
    ensures ParseStringBody((Quote(s) + rest)[1..]) == Some((s, rest))
  {
    assert (Quote(s) + rest)[1..] == Escaped(s) + "\"" + rest;
    EscapedParses(s, rest);
  }

  lemma LiteralParses(j: Json, rest: string)
    requires j.JNull? || j.JBool?
    ensures ParseValue(Stringify(j) + rest) == Some((j, rest))
  {
    var t := Stringify(j) + rest;
    var n := |Stringify(j)|;
    assert t[..n] == Stringify(j);
    assert t[n..] == rest;
  }

  lemma StringParses(j: Json, rest: string)
    requires j.JString?
    ensures ParseValue(Stringify(j) + rest) == Some((j, rest))
  {
    QuoteParses(j.s, rest);
  }

  lemma NumberParses(j: Json, rest: string)
    requires j.JNumber? && Follows(rest)
    ensures ParseValue(Stringify(j) + rest) == Some((j, rest))
  {
    var text := NumberText(j.n);
    var t := text + rest;
    assert Stringify(j) == text;
    assert t[0] == text[0];
    assert t[0] == '-' || IsDigit(t[0]);
    assert SkipWhitespace(t) == t;
    NumberRoundTrip(j.n, rest);
  }

  /** Every value's text, followed by what may follow a value, reads back as that value. */
  lemma {:induction false} ValueRoundTrip(j: Json, rest: string)
    requires Follows(rest)
    ensures ParseValue(Stringify(j) + rest) == Some((j, rest))
    decreases j, 1
  {
    match j
    case JNull => LiteralParses(j, rest);
    case JBool(_) => LiteralParses(j, rest);
    case JNumber(_) => NumberParses(j, rest);
    case JString(_) => StringParses(j, rest);
    case JArray(items) => ArrayRoundTrip(items, rest);
    case JObject(members) => ObjectRoundTrip(members, rest);
  }

  lemma {:induction false} ArrayRoundTrip(items: seq<Json>, rest: string)
    ensures ParseValue(Stringify(JArray(items)) + rest) == Some((JArray(items), rest))
    decreases items, 2
  {
    if items == [] {
      EmptyArrayBody(ItemsText(items) + "]" + rest, rest);
    } else {
      ItemsRoundTrip(items, rest);
      ArrayBody(ItemsText(items) + "]" + rest, items, rest);
    }
    ValueFromArrayBody(items, rest);
  }

  lemma {:induction false} ObjectRoundTrip(members: seq<Member>, rest: string)
    ensures ParseValue(Stringify(JObject(members)) + rest) == Some((JObject(members), rest))
    decreases members, 2
  {
    if members == [] {
      EmptyObjectBody(MembersText(members) + "}" + rest, rest);
    } else {
      MembersRoundTrip(members, rest);
      ObjectBody(MembersText(members) + "}" + rest, members, rest);
    }
    ValueFromObjectBody(members, rest);
  }

  lemma ValueFromArrayBody(items: seq<Json>, rest: string)
    requires ParseArray(ItemsText(items) + "]" + rest) == Some((JArray(items), rest))
    ensures ParseValue(Stringify(JArray(items)) + rest) == Some((JArray(items), rest))
  {
    var t := Stringify(JArray(items)) + rest;
    Bracketed('[', ItemsText(items), ']', rest, t);
    ParseValueOpen(t);
  }

  lemma ValueFromObjectBody(members: seq<Member>, rest: string)
    requires ParseObject(MembersText(members) + "}" + rest) == Some((JObject(members), rest))
    ensures ParseValue(Stringify(JObject(members)) + rest) == Some((JObject(members), rest))
  {
    var t := Stringify(JObject(members)) + rest;
    Bracketed('{', MembersText(members), '}', rest, t);
    ParseValueOpen(t);
  }

  /** A bracketed text, then what follows it: the opening bracket, and after it the body, the closing bracket and the rest. */
  lemma Bracketed(open: char, body: string, close: char, rest: string, t: string)
    requires t == [open] + body + [close] + rest
    ensures t != [] && t[0] == open && t[1..] == body + [close] + rest
  {
  }

  lemma EmptyArrayBody(body: string, rest: string)
    requires body == "" + "]" + rest
    ensures ParseArray(body) == Some((JArray([]), rest))
  {
    assert body == "]" + rest;
  }

  lemma ArrayBody(body: string, items: seq<Json>, rest: string)
    requires body != [] && body[0] != ']' && !IsWhitespace(body[0])
    requires ParseItems(body) == Some((items, rest))
    ensures ParseArray(body) == Some((JArray(items), rest))
  {
    SkipNothing(body);
  }

  lemma EmptyObjectBody(body: string, rest: string)
    requires body == "" + "}" + rest
    ensures ParseObject(body) == Some((JObject([]), rest))
  {
    assert body == "}" + rest;
  }

  lemma ObjectBody(body: string, members: seq<Member>, rest: string)
    requires body != [] && body[0] == '"'
    requires ParseMembers(body) == Some((members, rest))
    ensures ParseObject(body) == Some((JObject(members), rest))
  {
    SkipNothing(body);
  }

  /** A text that starts with a non-whitespace character has no whitespace to skip. */
  lemma SkipNothing(t: string)
    requires t != [] && !IsWhitespace(t[0])
    ensures SkipWhitespace(t) == t
  {
  }

  /** `ParseValue` hands a text opening with a bracket on to the array or object reader. */
  lemma ParseValueOpen(t: string)
    requires t != [] && (t[0] == '[' || t[0] == '{')
    ensures t[0] == '[' ==> ParseValue(t) == ParseArray(t[1..])
    ensures t[0] == '{' ==> ParseValue(t) == ParseObject(t[1..])
  {
    SkipNothing(t);
  }

  lemma ItemsLast(s: string, v: Json, rest: string)
    requires ParseValue(s) == Some((v, "]" + rest))
    ensures ParseItems(s) == Some(([v], rest))
  {
    assert ("]" + rest)[1..] == rest;
  }

  lemma ItemsNext(s: string, v: Json, tail: string, vs: seq<Json>, rest: string)
    requires ParseValue(s) == Some((v, "," + tail))
    requires ParseItems(tail) == Some((vs, rest))
    ensures ParseItems(s) == Some(([v] + vs, rest))
  {
    assert ("," + tail)[1..] == tail;
  }

  /** Items written by `ItemsText` and closed by `]` read back as those items. */
  lemma {:induction false} ItemsRoundTrip(items: seq<Json>, rest: string)
    requires items != []
    ensures ItemsText(items) != [] && StartsValue(ItemsText(items)[0])
    ensures ParseItems(ItemsText(items) + "]" + rest) == Some((items, rest))
    decreases items, 0
  {
    var head := Stringify(items[0]);
    if |items| == 1 {
      assert ItemsText(items) + "]" + rest == head + ("]" + rest);
      ValueRoundTrip(items[0], "]" + rest);
      ItemsLast(head + ("]" + rest), items[0], rest);
      assert [items[0]] == items;
    } else {
      var tail := ItemsText(items[1..]) + "]" + rest;
      assert ItemsText(items) + "]" + rest == head + ("," + tail);
      ValueRoundTrip(items[0], "," + tail);
      ItemsRoundTrip(items[1..], rest);
      ItemsNext(head + ("," + tail), items[0], tail, items[1..], rest);
      assert [items[0]] + items[1..] == items;
    }
  }

  /** One member read from the front of `s`, with the text after it. */
  lemma MemberStep(s: string, key: string, valueText: string, v: Json, after: string)
    requires s != [] && s[0] == '"'
    requires ParseStringBody(s[1..]) == Some((key, ":" + valueText))
    requires ParseValue(valueText) == Some((v, after))
    ensures after != [] && after[0] == '}' ==> ParseMembers(s) == Some(([Member(key, v)], after[1..]))
    ensures after != [] && after[0] == ',' ==>
      ParseMembers(s) == (match ParseMembers(after[1..])
                          case None => None
                          case Some((ms, rest)) => Some(([Member(key, v)] + ms, rest)))
  {
    assert (":" + valueText)[1..] == valueText;
  }

  lemma MemberShape(m: Member, after: string)
    ensures var s := MemberText(m) + after;
      s != [] && s[0] == '"' &&
      ParseStringBody(s[1..]) == Some((m.key, ":" + (Stringify(m.value) + after)))
  {
    var s := MemberText(m) + after;
    assert s == Quote(m.key) + (":" + (Stringify(m.value) + after));
    QuoteParses(m.key, ":" + (Stringify(m.value) + after));
  }

  /** The last member, closed by `}`. */
  lemma MemberLast(m: Member, rest: string)
    requires ParseValue(Stringify(m.value) + ("}" + rest)) == Some((m.value, "}" + rest))
    ensures ParseMembers(MemberText(m) + ("}" + rest)) == Some(([m], rest))
  {
    var after := "}" + rest;
    MemberShape(m, after);
    MemberStep(MemberText(m) + after, m.key, Stringify(m.value) + after, m.value, after);
    assert after[1..] == rest;
  }

  /** A member followed by `,` and the members after it. */
  lemma MemberNext(m: Member, tail: string, ms: seq<Member>, rest: string)
    requires ParseValue(Stringify(m.value) + ("," + tail)) == Some((m.value, "," + tail))
    requires ParseMembers(tail) == Some((ms, rest))
    ensures ParseMembers(MemberText(m) + ("," + tail)) == Some(([m] + ms, rest))
  {
    var after := "," + tail;
    MemberShape(m, after);
    MemberStep(MemberText(m) + after, m.key, Stringify(m.value) + after, m.value, after);
    assert after[1..] == tail;
  }

  /** Members written by `MembersText` and closed by `}` read back as those members. */
  lemma {:induction false} MembersRoundTrip(members: seq<Member>, rest: string)
    requires members != []
    ensures MembersText(members) + "}" + rest != [] && (MembersText(members) + "}" + rest)[0] == '"'
    ensures ParseMembers(MembersText(members) + "}" + rest) == Some((members, rest))
    decreases members, 0
  {
    var m := members[0];
    if |members| == 1 {
      MembersTextLast(members, rest);
      ValueRoundTrip(m.value, "}" + rest);
      MemberLast(m, rest);
      MemberShape(m, "}" + rest);
    } else {
      var tail := MembersText(members[1..]) + "}" + rest;
      MembersTextNext(members, rest);
      ValueRoundTrip(m.value, "," + tail);
      MembersRoundTrip(members[1..], rest);
      MemberNext(m, tail, members[1..], rest);
      MemberShape(m, "," + tail);
    }
  }

  lemma MembersTextLast(members: seq<Member>, rest: string)
    requires |members| == 1
    ensures [members[0]] == members
    ensures MembersText(members) + "}" + rest == MemberText(members[0]) + ("}" + rest)
  {
    assert MembersText(members) == MemberText(members[0]);
  }

  lemma MembersTextNext(members: seq<Member>, rest: string)
    requires |members| > 1
    ensures [members[0]] + members[1..] == members
    ensures MembersText(members) + "}" + rest
      == MemberText(members[0]) + ("," + (MembersText(members[1..]) + "}" + rest))
  {
    MembersTextCons(members);
    Regroup(MemberText(members[0]), MembersText(members[1..]), rest);
  }

  lemma MembersTextCons(members: seq<Member>)
    requires |members| > 1
    ensures MembersText(members) == MemberText(members[0]) + "," + MembersText(members[1..])
  {
  }

  lemma Regroup(a: string, b: string, rest: string)
    ensures a + "," + b + "}" + rest == a + ("," + (b + "}" + rest))
  {
  }

  /** `JSON.parse(JSON.stringify(j))` is `j`. */
  lemma ParseStringify(j: Json)
    ensures Parse(Stringify(j)) == Some(j)
  {
    ValueRoundTrip(j, []);
    assert Stringify(j) + [] == Stringify(j);
  }

  /** `JSON.parse` throws on a value followed by ',', ']' or '}'. */
  lemma ParseRejectsTrailing(j: Json, c: char)
    requires c == ',' || c == ']' || c == '}'
    ensures Parse(Stringify(j) + [c]) == None
  {
    ValueRoundTrip(j, [c]);
  }
}
