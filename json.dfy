/**
 * JSON values (RFC 8259) with the text `JSON.stringify` writes without
 * indentation and the reading `JSON.parse` does, including its failure on
 * any text that is not exactly one JSON value.
 */
module Json {
  import opened Wrappers
  import opened Numbers

  datatype Json =
    | JNull
    | JBool(b: bool)
    | JNumber(n: Number)
    | JString(s: string)
    | JArray(items: seq<Json>)
    | JObject(members: seq<Member>)

  /** An object member. Members keep their text order; duplicate keys are kept. */
  datatype Member = Member(key: string, value: Json)

  /** JavaScript truthiness of a parsed value (`if (parsed)`). */
  predicate Truthy(j: Json)
  {
    match j
    case JNull => false
    case JBool(b) => b
    case JNumber(n) => n.mantissa != 0
    case JString(s) => s != ""
    case JArray(_) => true
    case JObject(_) => true
  }

  /** A property read `obj[key]` on a parsed object: the last member with that key wins. */
  function Get(members: seq<Member>, key: string): Option<Json>
  {
    if members == [] then None
    else if members[|members| - 1].key == key then Some(members[|members| - 1].value)
    else Get(members[..|members| - 1], key)
  }

  /** A key no member has reads as absent. */
  lemma {:induction false} GetAbsent(members: seq<Member>, key: string)
    requires forall i :: 0 <= i < |members| ==> members[i].key != key
    ensures Get(members, key) == None
  {
    if members != [] {
      var init := members[..|members| - 1];
      assert forall i :: 0 <= i < |init| ==> init[i] == members[i];
      GetAbsent(init, key);
    }
  }

  /** A key that only one member has is read from that member. */
  lemma {:induction false} GetUnique(members: seq<Member>, i: nat)
    requires i < |members|
    requires forall j :: i < j < |members| ==> members[j].key != members[i].key
    ensures Get(members, members[i].key) == Some(members[i].value)
  {
    if i < |members| - 1 {
      var init := members[..|members| - 1];
      assert init[i] == members[i];
      GetUnique(init, i);
    }
  }

  // ---- JSON.stringify ----

  function HexDigit(n: nat): (c: char)
    requires n < 16
  {
    if n < 10 then (('0' as int) + n) as char else (('a' as int) + n - 10) as char
  }

  /** How `JSON.stringify` writes one character inside a string literal. */
  function EscapeChar(c: char): (r: string)
    ensures |r| > 0 && r[0] != '"'
  {
    var v := c as int;
    if c == '"' then "\\\""
    else if c == '\\' then "\\\\"
    else if v == 0x08 then "\\b"
    else if v == 0x0C then "\\f"
    else if c == '\n' then "\\n"
    else if c == '\r' then "\\r"
    else if c == '\t' then "\\t"
    else if v < 0x20 then "\\u00" + [HexDigit(v / 16), HexDigit(v % 16)]
    else [c]
  }

  function Escaped(s: string): string
  {
    if s == [] then "" else EscapeChar(s[0]) + Escaped(s[1..])
  }

  function Quote(s: string): string
  {
    "\"" + Escaped(s) + "\""
  }

  /** A character a value's text can start with. */
  predicate StartsValue(c: char)
  {
    c == 'n' || c == 't' || c == 'f' || c == '"' || c == '-' || IsDigit(c) || c == '[' || c == '{'
  }

  /** `JSON.stringify(j)` with no indentation. */
  function Stringify(j: Json): (r: string)
    ensures |r| > 0 && StartsValue(r[0])
  {
    match j
    case JNull => "null"
    case JBool(b) => if b then "true" else "false"
    case JNumber(n) => NumberText(n)
    case JString(s) => Quote(s)
    case JArray(items) => "[" + ItemsText(items) + "]"
    case JObject(members) => "{" + MembersText(members) + "}"
  }

  function ItemsText(items: seq<Json>): string
  {
    if items == [] then ""
    else if |items| == 1 then Stringify(items[0])
    else Stringify(items[0]) + "," + ItemsText(items[1..])
  }

  function MemberText(m: Member): string
  {
    Quote(m.key) + ":" + Stringify(m.value)
  }

  function MembersText(members: seq<Member>): string
  {
    if members == [] then ""
    else if |members| == 1 then MemberText(members[0])
    else MemberText(members[0]) + "," + MembersText(members[1..])
  }

  // ---- JSON.parse ----

  predicate IsWhitespace(c: char)
  {
    c == ' ' || c == '\t' || c == '\n' || c == '\r'
  }

  function SkipWhitespace(s: string): (r: string)
    ensures |r| <= |s|
    ensures (s == [] || !IsWhitespace(s[0])) ==> r == s
  {
    if s != [] && IsWhitespace(s[0]) then SkipWhitespace(s[1..]) else s
  }

  function HexValue(c: char): Option<nat>
  {
    if '0' <= c <= '9' then Some((c as int) - ('0' as int))
    else if 'a' <= c <= 'f' then Some((c as int) - ('a' as int) + 10)
    else if 'A' <= c <= 'F' then Some((c as int) - ('A' as int) + 10)
    else None
  }

  /** Four hexadecimal digits at the front of `s`. */
  function Hex4(s: string): (r: Option<nat>)
    ensures r.Some? ==> |s| >= 4 && r.value < 0x10000
  {
    if |s| < 4 then None
    else
      match (HexValue(s[0]), HexValue(s[1]), HexValue(s[2]), HexValue(s[3]))
      case (Some(a), Some(b), Some(c), Some(d)) =>
        if a < 16 && b < 16 && c < 16 && d < 16 then Some(((a * 16 + b) * 16 + c) * 16 + d) else None
      case _ => None
  }

  /**
   * The character of a `\uXXXX` escape (`s` starts after the `u`); a high
   * surrogate must be followed by a `\uXXXX` low surrogate, and the pair
   * stands for one character above U+FFFF.
   */
  function ParseUnicodeEscape(s: string): (r: Option<(char, string)>)
    ensures r.Some? ==> |r.value.1| < |s|
  {
    match Hex4(s)
    case None => None
    case Some(v) =>
      if 0xD800 <= v < 0xDC00 then
        if |s| >= 10 && s[4] == '\\' && s[5] == 'u' then
          match Hex4(s[6..])
          case Some(w) =>
            if 0xDC00 <= w < 0xE000 then Some(((0x10000 + (v - 0xD800) * 1024 + (w - 0xDC00)) as char, s[10..]))
            else None
          case None => None
        else None
      else if 0xDC00 <= v < 0xE000 then None
      else Some((v as char, s[4..]))
  }

  /** One character of a string literal's body: an escape, or any character from U+0020 on but `"` and `\`. */
  function ParseChar(s: string): (r: Option<(char, string)>)
    requires s != [] && s[0] != '"'
    ensures r.Some? ==> |r.value.1| < |s|
  {
    if s[0] == '\\' then
      if |s| < 2 then None
      else
        var e := s[1];
        if e == '"' then Some(('"', s[2..]))
        else if e == '\\' then Some(('\\', s[2..]))
        else if e == '/' then Some(('/', s[2..]))
        else if e == 'b' then Some((0x08 as char, s[2..]))
        else if e == 'f' then Some((0x0C as char, s[2..]))
        else if e == 'n' then Some(('\n', s[2..]))
        else if e == 'r' then Some(('\r', s[2..]))
        else if e == 't' then Some(('\t', s[2..]))
        else if e == 'u' then ParseUnicodeEscape(s[2..])
        else None
    else if (s[0] as int) < 0x20 then None
    else Some((s[0], s[1..]))
  }

  /** The body of a string literal up to and including its closing quote. */
  function ParseStringBody(s: string): (r: Option<(string, string)>)
    ensures r.Some? ==> |r.value.1| < |s|
    decreases |s|
  {
    if s == [] then None
    else if s[0] == '"' then Some(("", s[1..]))
    else
      match ParseChar(s)
      case None => None
      case Some((c, rest)) =>
        match ParseStringBody(rest)
        case None => None
        case Some((t, rest')) => Some(([c] + t, rest'))
  }

  /** One value, after optional whitespace; what follows it is returned unread. */
  function ParseValue(s: string): (r: Option<(Json, string)>)
    ensures r.Some? ==> |r.value.1| < |s|
    decreases |s|, 0
  {
    var t := SkipWhitespace(s);
    if t == [] then None
    else if t[0] == 'n' then
      if |t| >= 4 && t[..4] == "null" then Some((JNull, t[4..])) else None
    else if t[0] == 't' then
      if |t| >= 4 && t[..4] == "true" then Some((JBool(true), t[4..])) else None
    else if t[0] == 'f' then
      if |t| >= 5 && t[..5] == "false" then Some((JBool(false), t[5..])) else None
    else if t[0] == '"' then
      match ParseStringBody(t[1..])
      case None => None
      case Some((str, rest)) => Some((JString(str), rest))
    else if t[0] == '-' || IsDigit(t[0]) then
      match ParseNumber(t)
      case None => None
      case Some((n, rest)) => Some((JNumber(n), rest))
    else if t[0] == '[' then ParseArray(t[1..])
    else if t[0] == '{' then ParseObject(t[1..])
    else None
  }

  /** An array after its `[`. */
  function ParseArray(s: string): (r: Option<(Json, string)>)
    ensures r.Some? ==> |r.value.1| < |s|
    decreases |s|, 2
  {
    var t := SkipWhitespace(s);
    if t != [] && t[0] == ']' then Some((JArray([]), t[1..]))
    else
      match ParseItems(t)
      case None => None
      case Some((items, rest)) => Some((JArray(items), rest))
  }

  /** Comma-separated values up to and including the closing `]`. */
  function ParseItems(s: string): (r: Option<(seq<Json>, string)>)
    ensures r.Some? ==> |r.value.1| < |s|
    decreases |s|, 1
  {
    match ParseValue(s)
    case None => None
    case Some((v, rest)) =>
      var u := SkipWhitespace(rest);
      if u == [] then None
      else if u[0] == ',' then
        match ParseItems(u[1..])
        case None => None
        case Some((vs, rest')) => Some(([v] + vs, rest'))
      else if u[0] == ']' then Some(([v], u[1..]))
      else None
  }

  /** An object after its `{`. */
  function ParseObject(s: string): (r: Option<(Json, string)>)
    ensures r.Some? ==> |r.value.1| < |s|
    decreases |s|, 2
  {
    var t := SkipWhitespace(s);
    if t != [] && t[0] == '}' then Some((JObject([]), t[1..]))
    else
      match ParseMembers(t)
      case None => None
      case Some((members, rest)) => Some((JObject(members), rest))
  }

  /** Comma-separated `"key": value` members up to and including the closing `}`. */
  function ParseMembers(s: string): (r: Option<(seq<Member>, string)>)
    ensures r.Some? ==> |r.value.1| < |s|
    decreases |s|, 1
  {
    var t := SkipWhitespace(s);
    if t == [] || t[0] != '"' then None
    else
      match ParseStringBody(t[1..])
      case None => None
      case Some((key, rest)) =>
        var u := SkipWhitespace(rest);
        if u == [] || u[0] != ':' then None
        else
          match ParseValue(u[1..])
          case None => None
          case Some((v, rest')) =>
            var w := SkipWhitespace(rest');
            if w == [] then None
            else if w[0] == ',' then
              match ParseMembers(w[1..])
              case None => None
              case Some((ms, rest'')) => Some(([Member(key, v)] + ms, rest''))
            else if w[0] == '}' then Some(([Member(key, v)], w[1..]))
            else None
  }

  /** `JSON.parse`: exactly one value, surrounded by optional whitespace; `None` where it throws. */
  function Parse(s: string): Option<Json>
  {
    match ParseValue(s)
    case None => None
    case Some((v, rest)) => if SkipWhitespace(rest) == [] then Some(v) else None
  }
}
