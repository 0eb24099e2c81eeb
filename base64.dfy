/**
 * Base64 with the standard alphabet and `=` padding (section 4 of RFC 4648):
 * `btoa` encodes, and `atob` decodes with the "forgiving-base64 decode" of the
 * WHATWG Infra standard, which drops ASCII whitespace, accepts a token with
 * or without its padding and ignores the unused low bits of the last group.
 */
module Base64 {
  import opened Wrappers
  import opened Unicode

  /** The alphabet character for a 6-bit value. */
  function EncodeSextet(n: nat): (c: char)
    requires n < 64
  {
    if n < 26 then (('A' as int) + n) as char
    else if n < 52 then (('a' as int) + n - 26) as char
    else if n < 62 then (('0' as int) + n - 52) as char
    else if n == 62 then '+'
    else '/'
  }

  /** The 6-bit value of an alphabet character; `None` for every other character. */
  function SextetValue(c: char): (r: Option<nat>)
    ensures r.Some? ==> r.value < 64
  {
    if 'A' <= c <= 'Z' then Some((c as int) - ('A' as int))
    else if 'a' <= c <= 'z' then Some((c as int) - ('a' as int) + 26)
    else if '0' <= c <= '9' then Some((c as int) - ('0' as int) + 52)
    else if c == '+' then Some(62)
    else if c == '/' then Some(63)
    else None
  }

  predicate IsAlphabetChar(c: char)
  {
    SextetValue(c).Some?
  }

  predicate AllAlphabet(s: string)
  {
    forall i :: 0 <= i < |s| ==> IsAlphabetChar(s[i])
  }

  /** Alphabet characters and 6-bit values correspond one to one. */
  lemma SextetBijection(n: nat, c: char)
    requires n < 64
    ensures SextetValue(c) == Some(n) <==> EncodeSextet(n) == c
  {
  }

  /** Padding characters `btoa` appends: none, `=` or `==`, for 0, 2 or 1 trailing bytes. */
  function PaddingLength(n: nat): nat
  {
    (3 - n % 3) % 3
  }

  function Bits(b0: byte, b1: byte, b2: byte): (r: string)
    ensures |r| == 4 && AllAlphabet(r)
  {
    [EncodeSextet(b0 / 4), EncodeSextet((b0 % 4) * 16 + b1 / 16),
     EncodeSextet((b1 % 16) * 4 + b2 / 64), EncodeSextet(b2 % 64)]
  }

  /** The alphabet characters of the encoding: four per three bytes, two or three for a partial group. */
  function Sextets(b: seq<byte>): (r: string)
    ensures AllAlphabet(r)
    ensures |r| == 4 * (|b| / 3) + (if |b| % 3 == 0 then 0 else |b| % 3 + 1)
    decreases |b|
  {
    if |b| == 0 then ""
    else if |b| == 1 then Bits(b[0], 0, 0)[..2]
    else if |b| == 2 then Bits(b[0], b[1], 0)[..3]
    else Bits(b[0], b[1], b[2]) + Sextets(b[3..])
  }

  function Pad(n: nat): (r: string)
    ensures |r| == n && forall i :: 0 <= i < n ==> r[i] == '='
  {
    if n == 0 then "" else Pad(n - 1) + "="
  }

  /** `btoa` on the UTF-8 bytes: the alphabet characters, then the padding. */
  function Btoa(b: seq<byte>): (r: string)
    ensures |r| % 4 == 0
    ensures forall i :: 0 <= i < |r| ==> r[i] == '=' || IsAlphabetChar(r[i])
  {
    BtoaLength(b);
    Sextets(b) + Pad(PaddingLength(|b|))
  }

  /** The output of `btoa` is 4 * ceil(n / 3) characters, `=` exactly in the padding positions. */
  lemma BtoaShape(b: seq<byte>)
    ensures |Btoa(b)| == 4 * ((|b| + 2) / 3)
    ensures forall i :: 0 <= i < |Btoa(b)| ==>
              (Btoa(b)[i] == '=' <==> i >= |Btoa(b)| - PaddingLength(|b|))
    ensures forall i :: 0 <= i < |Btoa(b)| ==> Btoa(b)[i] == '=' || IsAlphabetChar(Btoa(b)[i])
  {
    var r := Btoa(b);
    var k := |Sextets(b)|;
    forall i | 0 <= i < |r|
      ensures r[i] == '=' <==> i >= |r| - PaddingLength(|b|)
      ensures r[i] == '=' || IsAlphabetChar(r[i])
    {
      if i < k {
        assert r[i] == Sextets(b)[i];
      } else {
        assert r[i] == Pad(PaddingLength(|b|))[i - k];
      }
    }
  }

  /** ASCII whitespace, which `atob` removes first. */
  predicate IsAsciiWhitespace(c: char)
  {
    c == ' ' || c == '\t' || c == '\n' || c == '\r' || c as int == 0x0C
  }

  function RemoveWhitespace(s: string): (r: string)
    ensures |r| <= |s|
    ensures forall i :: 0 <= i < |r| ==> !IsAsciiWhitespace(r[i])
  {
    if s == [] then ""
    else if IsAsciiWhitespace(s[0]) then RemoveWhitespace(s[1..])
    else [s[0]] + RemoveWhitespace(s[1..])
  }

  /** When the length is a multiple of four, one or two final `=` are dropped. */
  function StripPadding(s: string): (r: string)
    ensures |s| - 2 <= |r| <= |s| && r == s[..|r|]
    ensures forall k :: |r| <= k < |s| ==> s[k] == '='
  {
    if |s| % 4 == 0 && |s| >= 2 && s[|s| - 1] == '=' && s[|s| - 2] == '=' then s[..|s| - 2]
    else if |s| % 4 == 0 && |s| >= 1 && s[|s| - 1] == '=' then s[..|s| - 1]
    else s
  }

  /** The bytes of two, three or four alphabet characters. */
  function DecodeGroup(g: string): (r: seq<byte>)
    requires 2 <= |g| <= 4 && AllAlphabet(g)
    ensures |r| == |g| - 1
  {
    var v0, v1 := SextetValue(g[0]).value, SextetValue(g[1]).value;
    var v2 := if |g| > 2 then SextetValue(g[2]).value else 0;
    var v3 := if |g| > 3 then SextetValue(g[3]).value else 0;
    var bytes := [v0 * 4 + v1 / 16, (v1 % 16) * 16 + v2 / 4, (v2 % 4) * 64 + v3];
    bytes[..|g| - 1]
  }

  function DecodeSextets(d: string): (r: seq<byte>)
    requires AllAlphabet(d) && |d| % 4 != 1
    ensures |r| == 3 * (|d| / 4) + (if |d| % 4 == 0 then 0 else |d| % 4 - 1)
    decreases |d|
  {
    if |d| == 0 then []
    else if |d| < 4 then DecodeGroup(d)
    else DecodeGroup(d[..4]) + DecodeSextets(d[4..])
  }

  /** `atob`: the decoded bytes, or `None` where it throws. */
  function Atob(s: string): Option<seq<byte>>
  {
    var d := StripPadding(RemoveWhitespace(s));
    if |d| % 4 == 1 || !AllAlphabet(d) then None else Some(DecodeSextets(d))
  }

  lemma GroupRoundTrip(b0: byte, b1: byte, b2: byte, len: nat)
    requires 2 <= len <= 4
    ensures DecodeGroup(Bits(b0, b1, b2)[..len]) == [b0, b1, b2][..len - 1]
  {
    var c0, c1 := b0 / 4, (b0 % 4) * 16 + b1 / 16;
    var c2, c3 := (b1 % 16) * 4 + b2 / 64, b2 % 64;
    SextetBijection(c0, EncodeSextet(c0));
    SextetBijection(c1, EncodeSextet(c1));
    SextetBijection(c2, EncodeSextet(c2));
    SextetBijection(c3, EncodeSextet(c3));
    assert c1 / 16 == b0 % 4 && c1 % 16 == b1 / 16;
    assert c2 / 4 == b1 % 16 && c2 % 4 == b2 / 64;
  }

  lemma DecodeSextetsCons(g: string, t: string)
    requires |g| == 4 && AllAlphabet(g) && AllAlphabet(t) && |t| % 4 != 1
    ensures AllAlphabet(g + t) && |g + t| % 4 != 1
    ensures DecodeSextets(g + t) == DecodeGroup(g) + DecodeSextets(t)
  {
    assert (g + t)[..4] == g && (g + t)[4..] == t;
  }

  lemma SextetsShort(b: seq<byte>)
    requires 1 <= |b| <= 2
    ensures |Sextets(b)| % 4 != 1
    ensures DecodeSextets(Sextets(b)) == b
  {
    var g := Bits(b[0], if |b| == 2 then b[1] else 0, 0)[..|b| + 1];
    assert Sextets(b) == g;
    assert DecodeSextets(g) == DecodeGroup(g);
    GroupRoundTrip(b[0], if |b| == 2 then b[1] else 0, 0, |b| + 1);
    assert [b[0], if |b| == 2 then b[1] else 0, 0][..|b|] == b;
  }

  lemma {:induction false} SextetsRoundTrip(b: seq<byte>)
    ensures |Sextets(b)| % 4 != 1
    ensures DecodeSextets(Sextets(b)) == b
    decreases |b|
  {
    if 1 <= |b| <= 2 {
      SextetsShort(b);
    } else if |b| > 2 {
      SextetsCons(b);
      SextetsRoundTrip(b[3..]);
      GroupThenRest(b, Bits(b[0], b[1], b[2]), Sextets(b[3..]));
    }
  }

  /** A full group decodes to the first three bytes, and the rest to the others. */
  lemma GroupThenRest(b: seq<byte>, g: string, t: string)
    requires |b| > 2 && g == Bits(b[0], b[1], b[2])
    requires AllAlphabet(t) && |t| % 4 != 1 && DecodeSextets(t) == b[3..]
    ensures AllAlphabet(g + t) && |g + t| % 4 != 1
    ensures DecodeSextets(g + t) == b
  {
    DecodeSextetsCons(g, t);
    GroupRoundTrip(b[0], b[1], b[2], 4);
    assert g[..4] == g;
    assert b == [b[0], b[1], b[2]] + b[3..];
  }

  lemma SextetsCons(b: seq<byte>)
    requires |b| > 2
    ensures Sextets(b) == Bits(b[0], b[1], b[2]) + Sextets(b[3..])
  {
  }

  lemma RemoveWhitespaceKeeps(s: string)
    requires forall i :: 0 <= i < |s| ==> !IsAsciiWhitespace(s[i])
    ensures RemoveWhitespace(s) == s
  {
    if s != [] {
      RemoveWhitespaceKeeps(s[1..]);
      assert [s[0]] + s[1..] == s;
    }
  }

  lemma BtoaLength(b: seq<byte>)
    ensures PaddingLength(|b|) <= 2
    ensures (|Sextets(b)| + PaddingLength(|b|)) % 4 == 0
  {
    GroupArithmetic(|b|, |b| / 3, |b| % 3);
  }

  /** A partial group of `m` bytes takes `m + 1` characters and `3 - m` padding characters. */
  lemma GroupArithmetic(n: nat, q: nat, m: nat)
    requires q == n / 3 && m == n % 3
    ensures PaddingLength(n) <= 2
    ensures (4 * q + (if m == 0 then 0 else m + 1) + PaddingLength(n)) % 4 == 0
  {
    if m == 0 {
      assert PaddingLength(n) == 0;
    } else {
      assert PaddingLength(n) == 3 - m;
      assert 4 * q + (m + 1) + (3 - m) == 4 * (q + 1);
    }
  }

  /** Removing the padding from alphabet characters followed by at most two `=`. */
  lemma StripPaddingOf(core: string, p: nat)
    requires AllAlphabet(core) && p <= 2 && (|core| + p) % 4 == 0
    ensures StripPadding(core + Pad(p)) == core
  {
    var r := core + Pad(p);
    if p == 2 {
      assert r[|r| - 1] == '=' && r[|r| - 2] == '=';
      assert r[..|r| - 2] == core;
    } else if p == 1 {
      assert r[|r| - 1] == '=';
      assert r[|r| - 2] == core[|core| - 1];
      assert r[..|r| - 1] == core;
    } else {
      assert r == core;
      assert |r| > 0 ==> IsAlphabetChar(r[|r| - 1]);
    }
  }

  /** Decoding undoes encoding: `atob(btoa(b)) == b` for every byte sequence. */
  lemma AtobBtoa(b: seq<byte>)
    ensures Atob(Btoa(b)) == Some(b)
  {
    BtoaShape(b);
    RemoveWhitespaceKeeps(Btoa(b));
    BtoaLength(b);
    StripPaddingOf(Sextets(b), PaddingLength(|b|));
    SextetsRoundTrip(b);
  }

  /** Padding is optional: `atob` also reads the bare alphabet characters. */
  lemma AtobUnpadded(b: seq<byte>)
    ensures Atob(Sextets(b)) == Some(b)
  {
    var core := Sextets(b);
    forall i | 0 <= i < |core| ensures !IsAsciiWhitespace(core[i]) {
      assert IsAlphabetChar(core[i]);
    }
    RemoveWhitespaceKeeps(core);
    StripPaddingKeeps(core);
    SextetsRoundTrip(b);
  }

  /** Alphabet characters alone have no padding to strip. */
  lemma StripPaddingKeeps(core: string)
    requires AllAlphabet(core)
    ensures StripPadding(core) == core
  {
    if |core| > 0 {
      assert IsAlphabetChar(core[|core| - 1]);
    }
  }

  lemma RemoveWhitespaceKeepsOthers(s: string, c: char)
    requires c in s && !IsAsciiWhitespace(c)
    ensures c in RemoveWhitespace(s)
  {
    if s[0] != c {
      assert c in s[1..];
      RemoveWhitespaceKeepsOthers(s[1..], c);
    }
  }

  /** A character that is neither whitespace, `=` nor in the alphabet makes `atob` throw. */
  lemma AtobRejectsForeignChar(s: string, c: char)
    requires c in s && !IsAsciiWhitespace(c) && c != '=' && !IsAlphabetChar(c)
    ensures Atob(s) == None
  {
    RemoveWhitespaceKeepsOthers(s, c);
    var w := RemoveWhitespace(s);
    var j :| 0 <= j < |w| && w[j] == c;
    var d := StripPadding(w);
    assert j < |d|;
    assert d[j] == c;
  }

  /** A `=` other than the last two characters (whitespace aside) makes `atob` throw. */
  lemma AtobRejectsInnerPadding(s: string, j: nat)
    requires j + 2 < |RemoveWhitespace(s)| && RemoveWhitespace(s)[j] == '='
    ensures Atob(s) == None
  {
    var d := StripPadding(RemoveWhitespace(s));
    assert d[j] == '=';
  }

  /** A length of 4k + 1 alphabet characters is not base64. */
  lemma AtobRejectsLength(s: string)
    requires |RemoveWhitespace(s)| % 4 == 1
    ensures Atob(s) == None
  {
  }
}
