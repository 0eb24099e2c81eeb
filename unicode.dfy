/**
 * The UTF-8 stage of the settings codec (RFC 3629) and the UTF-16 code
 * units that JavaScript strings are made of.
 *
 * Text is a `string`, a sequence of Unicode scalar values, so lone
 * surrogates (which make `encodeURIComponent` throw) are outside the model.
 */
module Unicode {
  import opened Wrappers

  type byte = x: int | 0 <= x < 256

  /** The RFC 3629 encoding of one scalar value: one to four bytes. */
  function EncodeChar(c: char): (r: seq<byte>)
    ensures 1 <= |r| <= 4
    ensures (c as int < 0x80) <==> |r| == 1
  {
    var v := c as int;
    if v < 0x80 then [v]
    else if v < 0x800 then [0xC0 + v / 64, 0x80 + v % 64]
    else if v < 0x10000 then [0xE0 + v / 4096, 0x80 + (v / 64) % 64, 0x80 + v % 64]
    else [0xF0 + v / 262144, 0x80 + (v / 4096) % 64, 0x80 + (v / 64) % 64, 0x80 + v % 64]
  }

  /** `unescape(encodeURIComponent(text))`: the UTF-8 bytes of the text, one per character. */
  function Utf8Encode(s: string): (r: seq<byte>)
    ensures |s| <= |r| <= 4 * |s|
  {
    if s == [] then [] else EncodeChar(s[0]) + Utf8Encode(s[1..])
  }

  predicate IsContinuation(b: byte)
  {
    0x80 <= b < 0xC0
  }

  function ContinuationBits(b: byte): nat
    requires IsContinuation(b)
  {
    b - 0x80
  }

  /**
   * The scalar value encoded at the front of `b` and the number of bytes it
   * takes, or `None` where `decodeURIComponent` throws: a stray continuation
   * byte, a lead byte above 0xF7, a truncated sequence, an overlong form, a
   * surrogate or a value above U+10FFFF.
   */
  function DecodeFirst(b: seq<byte>): (r: Option<(char, nat)>)
    requires |b| > 0
    ensures r.Some? ==> 1 <= r.value.1 <= |b| && r.value.1 <= 4
  {
    var b0: int := b[0];
    if b0 < 0x80 then Some((b0 as char, 1))
    else if b0 < 0xC0 then None
    else if b0 < 0xE0 then
      if |b| < 2 || !IsContinuation(b[1]) then None
      else
        var v := (b0 - 0xC0) * 64 + ContinuationBits(b[1]);
        if v < 0x80 then None else Some((v as char, 2))
    else if b0 < 0xF0 then
      if |b| < 3 || !IsContinuation(b[1]) || !IsContinuation(b[2]) then None
      else
        var v := (b0 - 0xE0) * 4096 + ContinuationBits(b[1]) * 64 + ContinuationBits(b[2]);
        if v < 0x800 || (0xD800 <= v < 0xE000) then None else Some((v as char, 3))
    else if b0 < 0xF8 then
      if |b| < 4 || !IsContinuation(b[1]) || !IsContinuation(b[2]) || !IsContinuation(b[3]) then None
      else
        var v := (b0 - 0xF0) * 262144 + ContinuationBits(b[1]) * 4096
                 + ContinuationBits(b[2]) * 64 + ContinuationBits(b[3]);
        if v < 0x10000 || v > 0x10FFFF then None else Some((v as char, 4))
    else None
  }

  /** `decodeURIComponent(escape(bytes))`: strict UTF-8 decoding; `None` where it throws. */
  function Utf8Decode(b: seq<byte>): (r: Option<string>)
    ensures r.Some? ==> |r.value| <= |b|
    decreases |b|
  {
    if b == [] then Some([])
    else
      match DecodeFirst(b)
      case None => None
      case Some((c, n)) =>
        match Utf8Decode(b[n..])
        case None => None
        case Some(t) => Some([c] + t)
  }

  /** Base-64 digits of a number below 2^18, most significant first: the UTF-8 payload bits. */
  lemma SixBitGroups(v: int, a: int, c1: int, c2: int, c3: int)
    requires 0 <= c1 < 64 && 0 <= c2 < 64 && 0 <= c3 < 64 && 0 <= a
    requires v == a * 262144 + c1 * 4096 + c2 * 64 + c3
    ensures v / 262144 == a && (v / 4096) % 64 == c1 && (v / 64) % 64 == c2 && v % 64 == c3
    ensures v / 4096 == a * 64 + c1 && v / 64 == (a * 64 + c1) * 64 + c2
  {
    var w := a * 64 + c1;
    var u := w * 64 + c2;
    assert v == u * 64 + c3;
    assert v / 64 == u && v % 64 == c3;
    assert u / 64 == w && u % 64 == c2;
    assert w / 64 == a && w % 64 == c1;
    assert v / 4096 == (v / 64) / 64;
    assert v / 262144 == (v / 4096) / 64;
  }

  lemma EncodeCharDecodes(c: char, rest: seq<byte>)
    ensures DecodeFirst(EncodeChar(c) + rest) == Some((c, |EncodeChar(c)|))
  {
    var v := c as int;
    if v < 0x80 {
    } else if v < 0x800 {
      EncodeTwoDecodes(c, rest);
    } else if v < 0x10000 {
      EncodeThreeDecodes(c, rest);
    } else {
      EncodeFourDecodes(c, rest);
    }
  }

  lemma EncodeTwoDecodes(c: char, rest: seq<byte>)
    requires 0x80 <= c as int < 0x800
    ensures DecodeFirst(EncodeChar(c) + rest) == Some((c, 2))
  {
    var v := c as int;
    var b := EncodeChar(c) + rest;
    SixBitGroups(v, 0, 0, v / 64, v % 64);
    assert b[0] == 0xC0 + v / 64 && b[1] == 0x80 + v % 64;
  }

  lemma EncodeThreeDecodes(c: char, rest: seq<byte>)
    requires 0x800 <= c as int < 0x10000
    ensures DecodeFirst(EncodeChar(c) + rest) == Some((c, 3))
  {
    var v := c as int;
    var b := EncodeChar(c) + rest;
    SixBitGroups(v, 0, v / 4096, (v / 64) % 64, v % 64);
    assert b[0] == 0xE0 + v / 4096 && b[1] == 0x80 + (v / 64) % 64 && b[2] == 0x80 + v % 64;
  }

  lemma EncodeFourDecodes(c: char, rest: seq<byte>)
    requires 0x10000 <= c as int
    ensures DecodeFirst(EncodeChar(c) + rest) == Some((c, 4))
  {
    var v := c as int;
    var b := EncodeChar(c) + rest;
    SixBitGroups(v, v / 262144, (v / 4096) % 64, (v / 64) % 64, v % 64);
    assert b[0] == 0xF0 + v / 262144 && b[1] == 0x80 + (v / 4096) % 64;
    assert b[2] == 0x80 + (v / 64) % 64 && b[3] == 0x80 + v % 64;
  }

  /** Whatever `DecodeFirst` accepts is exactly the encoding of the character it returns. */
  lemma DecodeFirstIsEncoding(b: seq<byte>)
    requires |b| > 0 && DecodeFirst(b).Some?
    ensures b[..DecodeFirst(b).value.1] == EncodeChar(DecodeFirst(b).value.0)
  {
    var b0: int := b[0];
    if b0 < 0x80 {
    } else if b0 < 0xE0 {
      var c3 := ContinuationBits(b[1]);
      var v: int := (b0 - 0xC0) * 64 + c3;
      SixBitGroups(v, 0, 0, b0 - 0xC0, c3);
      assert EncodeChar(v as char) == [b0, b[1]];
    } else if b0 < 0xF0 {
      var c2, c3 := ContinuationBits(b[1]), ContinuationBits(b[2]);
      var v: int := (b0 - 0xE0) * 4096 + c2 * 64 + c3;
      SixBitGroups(v, 0, b0 - 0xE0, c2, c3);
      assert EncodeChar(v as char) == [b0, b[1], b[2]];
    } else {
      var c1, c2, c3 := ContinuationBits(b[1]), ContinuationBits(b[2]), ContinuationBits(b[3]);
      var v: int := (b0 - 0xF0) * 262144 + c1 * 4096 + c2 * 64 + c3;
      SixBitGroups(v, b0 - 0xF0, c1, c2, c3);
      assert EncodeChar(v as char) == [b0, b[1], b[2], b[3]];
    }
  }

  /** Every text survives the UTF-8 stage, multi-byte characters included. */
  lemma {:induction false} Utf8RoundTrip(s: string)
    ensures Utf8Decode(Utf8Encode(s)) == Some(s)
  {
    if s != [] {
      var e := EncodeChar(s[0]);
      EncodeCharDecodes(s[0], Utf8Encode(s[1..]));
      assert (e + Utf8Encode(s[1..]))[|e|..] == Utf8Encode(s[1..]);
      Utf8RoundTrip(s[1..]);
      assert [s[0]] + s[1..] == s;
    }
  }

  /** The decoder is strict: it accepts only the one encoding of the text it returns. */
  lemma {:induction false} Utf8DecodeIsEncoding(b: seq<byte>)
    requires Utf8Decode(b).Some?
    ensures Utf8Encode(Utf8Decode(b).value) == b
    decreases |b|
  {
    if b != [] {
      var c, n := DecodeFirst(b).value.0, DecodeFirst(b).value.1;
      DecodeFirstIsEncoding(b);
      Utf8DecodeIsEncoding(b[n..]);
      var t := Utf8Decode(b[n..]).value;
      assert Utf8Decode(b).value == [c] + t;
      EncodeCons(b, n, c, t);
    }
  }

  /** A character's encoding followed by a text's encoding is the encoding of the two together. */
  lemma EncodeCons(b: seq<byte>, n: nat, c: char, t: string)
    requires n <= |b| && b[..n] == EncodeChar(c) && b[n..] == Utf8Encode(t)
    ensures Utf8Encode([c] + t) == b
  {
    assert ([c] + t)[1..] == t;
    assert b == b[..n] + b[n..];
  }

  /** UTF-8 decoding and encoding are inverse: bytes decode to a text exactly when they encode it. */
  lemma Utf8DecodeIff(b: seq<byte>, s: string)
    ensures Utf8Decode(b) == Some(s) <==> Utf8Encode(s) == b
  {
    if Utf8Decode(b) == Some(s) {
      Utf8DecodeIsEncoding(b);
    }
    if Utf8Encode(s) == b {
      Utf8RoundTrip(s);
    }
  }

  /** Bytes that encode some text decode to that text, so no two texts share an encoding. */
  lemma Utf8DecodeOfEncoding(b: seq<byte>)
    ensures forall s :: Utf8Encode(s) == b ==> Utf8Decode(b) == Some(s)
  {
    forall s | Utf8Encode(s) == b
      ensures Utf8Decode(b) == Some(s)
    {
      Utf8RoundTrip(s);
    }
  }

  /** The UTF-16 code units of one scalar value: itself, or a surrogate pair above U+FFFF. */
  function CodeUnits(c: char): (r: seq<int>)
    ensures |r| == if (c as int) < 0x10000 then 1 else 2
    ensures forall i :: 0 <= i < |r| ==> 0 <= r[i] < 0x10000
  {
    var v := c as int;
    if v < 0x10000 then [v]
    else [0xD800 + (v - 0x10000) / 1024, 0xDC00 + (v - 0x10000) % 1024]
  }

  /** The UTF-16 code units of a text: what `split('')` and `length` see. */
  function Utf16(s: string): (r: seq<int>)
    ensures |s| <= |r| <= 2 * |s|
  {
    if s == [] then [] else CodeUnits(s[0]) + Utf16(s[1..])
  }

  /** The characters that take two UTF-16 code units. */
  function AstralCount(s: string): nat
  {
    if s == [] then 0 else (if (s[0] as int) < 0x10000 then 0 else 1) + AstralCount(s[1..])
  }

  lemma {:induction false} Utf16Length(s: string)
    ensures |Utf16(s)| == |s| + AstralCount(s)
  {
    if s != [] {
      Utf16Length(s[1..]);
    }
  }

  /** A text of Basic Multilingual Plane characters has one code unit per character, in order. */
  lemma {:induction false} Utf16OfBmp(s: string)
    requires forall i :: 0 <= i < |s| ==> (s[i] as int) < 0x10000
    ensures |Utf16(s)| == |s|
    ensures forall i :: 0 <= i < |s| ==> Utf16(s)[i] == s[i] as int
  {
    if s != [] {
      Utf16OfBmp(s[1..]);
    }
  }
}
