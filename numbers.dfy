/**
 * JavaScript numbers as the settings carry them: exact finite decimals.
 * No arithmetic is done on the numeric settings, so only their JSON text
 * (section 6 of RFC 8259) and its parsing are modelled here.
 */
module Numbers {
  import opened Wrappers

  predicate IsDigit(c: char)
  {
    '0' <= c <= '9'
  }

  predicate AllDigits(s: string)
  {
    forall i :: 0 <= i < |s| ==> IsDigit(s[i])
  }

  function DigitValue(c: char): (d: nat)
    requires IsDigit(c)
    ensures d < 10
  {
    (c as int) - ('0' as int)
  }

  function DigitChar(d: nat): (c: char)
    requires d < 10
    ensures IsDigit(c) && DigitValue(c) == d
  {
    (('0' as int) + d) as char
  }

  function Pow10(n: nat): (r: nat)
    ensures r >= 1
  {
    if n == 0 then 1 else 10 * Pow10(n - 1)
  }

  /** The value of a digit string, most significant digit first. */
  function DigitsValue(s: string): nat
    requires AllDigits(s)
  {
    if s == [] then 0 else DigitsValue(s[..|s| - 1]) * 10 + DigitValue(s[|s| - 1])
  }

  /** `k` zero digits. */
  function Zeros(k: nat): (r: string)
    ensures |r| == k && AllDigits(r)
    ensures forall i :: 0 <= i < k ==> r[i] == '0'
  {
    if k == 0 then "" else Zeros(k - 1) + "0"
  }

  /** The shortest decimal text of `n`, as `String(n)` writes it. */
  function NatText(n: nat): (r: string)
    ensures |r| > 0 && AllDigits(r)
    ensures DigitsValue(r) == n
    ensures r[0] == '0' <==> n == 0
    ensures n == 0 ==> r == "0"
  {
    if n < 10 then [DigitChar(n)] else NatText(n / 10) + [DigitChar(n % 10)]
  }

  /** A digit string without superfluous leading zeros: the texts `NatText` produces. */
  predicate IsCanonicalNatText(s: string)
  {
    |s| > 0 && AllDigits(s) && (s[0] == '0' ==> |s| == 1)
  }

  lemma DigitCharOf(c: char)
    requires IsDigit(c)
    ensures DigitChar(DigitValue(c)) == c
  {
  }

  lemma DivMod10(v: nat, d: nat)
    requires d < 10
    ensures (v * 10 + d) / 10 == v && (v * 10 + d) % 10 == d
  {
  }

  /** A canonical digit string is the text of its own value. */
  lemma {:induction false} CanonicalNatText(s: string)
    requires IsCanonicalNatText(s)
    ensures NatText(DigitsValue(s)) == s
    decreases |s|
  {
    var last := s[|s| - 1];
    var init := s[..|s| - 1];
    var d := DigitValue(last);
    DigitCharOf(last);
    if |s| == 1 {
      assert init == [];
      assert DigitsValue(s) == d;
      assert s == [last];
    } else {
      assert init[0] == s[0];
      assert IsCanonicalNatText(init);
      CanonicalNatText(init);
      var v := DigitsValue(init);
      assert v != 0;
      assert DigitsValue(s) == v * 10 + d;
      DivMod10(v, d);
      assert s == init + [last];
    }
  }

  lemma AllDigitsAppend(a: string, b: string)
    requires AllDigits(a) && AllDigits(b)
    ensures AllDigits(a + b)
  {
    var ab := a + b;
    forall i | 0 <= i < |ab| ensures IsDigit(ab[i]) {
      if i < |a| { assert ab[i] == a[i]; } else { assert ab[i] == b[i - |a|]; }
    }
  }

  lemma Regroup(x: nat, p: nat, y: nat, d: nat)
    ensures (x * p + y) * 10 + d == x * (p * 10) + (y * 10 + d)
  {
  }

  lemma {:induction false} DigitsAppend(a: string, b: string)
    requires AllDigits(a) && AllDigits(b)
    ensures AllDigits(a + b)
    ensures DigitsValue(a + b) == DigitsValue(a) * Pow10(|b|) + DigitsValue(b)
    decreases |b|
  {
    AllDigitsAppend(a, b);
    if b == [] {
      assert a + b == a;
    } else {
      var ab := a + b;
      var b' := b[..|b| - 1];
      var d := DigitValue(b[|b| - 1]);
      assert ab[..|ab| - 1] == a + b';
      assert ab[|ab| - 1] == b[|b| - 1];
      assert DigitsValue(ab) == DigitsValue(a + b') * 10 + d;
      assert DigitsValue(b) == DigitsValue(b') * 10 + d;
      assert Pow10(|b|) == Pow10(|b'|) * 10;
      DigitsAppend(a, b');
      Regroup(DigitsValue(a), Pow10(|b'|), DigitsValue(b'), d);
    }
  }

  lemma {:induction false} ZerosValue(k: nat)
    ensures DigitsValue(Zeros(k)) == 0
  {
    if k > 0 {
      assert Zeros(k)[..k - 1] == Zeros(k - 1);
      ZerosValue(k - 1);
    }
  }

  /** Leading zeros do not change a digit string's value. */
  lemma LeadingZeros(k: nat, d: string)
    requires AllDigits(d)
    ensures AllDigits(Zeros(k) + d)
    ensures DigitsValue(Zeros(k) + d) == DigitsValue(d)
  {
    DigitsAppend(Zeros(k), d);
    ZerosValue(k);
  }

  /** Trailing zeros multiply a digit string's value by a power of ten. */
  lemma TrailingZeros(d: string, k: nat)
    requires AllDigits(d)
    ensures AllDigits(d + Zeros(k))
    ensures DigitsValue(d + Zeros(k)) == DigitsValue(d) * Pow10(k)
  {
    DigitsAppend(d, Zeros(k));
    ZerosValue(k);
  }

  /** The length of the longest all-digit prefix of `s`. */
  function SpanDigits(s: string): (n: nat)
    ensures n <= |s| && AllDigits(s[..n])
    ensures n < |s| ==> !IsDigit(s[n])
  {
    if s != [] && IsDigit(s[0]) then
      var n := 1 + SpanDigits(s[1..]);
      assert s[..n] == [s[0]] + s[1..][..n - 1];
      n
    else 0
  }

  lemma {:induction false} SpanDigitsAppend(a: string, b: string)
    requires AllDigits(a)
    requires b == [] || !IsDigit(b[0])
    ensures SpanDigits(a + b) == |a|
    decreases |a|
  {
    if a == [] {
      assert a + b == b;
    } else {
      assert (a + b)[1..] == a[1..] + b;
      SpanDigitsAppend(a[1..], b);
    }
  }

  /**
   * A finite decimal `mantissa * 10^exponent`. The canonical form has no
   * trailing zero in the mantissa (and zero is `0 * 10^0`), so two canonical
   * decimals are equal exactly when they denote the same number.
   */
  datatype Decimal = Decimal(mantissa: int, exponent: int)
  {
    predicate Canonical()
    {
      if mantissa == 0 then exponent == 0 else mantissa % 10 != 0
    }
  }

  /** A JavaScript number value (finite; NaN and the infinities are not modelled). */
  type Number = d: Decimal | d.Canonical() witness Decimal(0, 0)

  function Abs(m: int): nat
  {
    if m < 0 then -m else m
  }

  lemma DivTen(m: int)
    requires m != 0 && m % 10 == 0
    ensures (m / 10) * 10 == m && m / 10 != 0 && Abs(m / 10) < Abs(m)
  {
  }

  lemma ScaleTen(a: int, p: nat, b: int)
    requires a * p == b
    ensures a * (10 * p) == b * 10
  {
  }

  /** The canonical decimal for `m * 10^e`. */
  function Normalize(m: int, e: int): (r: Number)
    ensures m == 0 ==> r == Decimal(0, 0)
    ensures m != 0 ==> r.exponent >= e && r.mantissa * Pow10(r.exponent - e) == m
    decreases Abs(m)
  {
    if m == 0 then Decimal(0, 0)
    else if m % 10 == 0 then
      DivTen(m);
      var r := Normalize(m / 10, e + 1);
      var p := Pow10(r.exponent - (e + 1));
      assert Pow10(r.exponent - e) == 10 * p;
      ScaleTen(r.mantissa, p, m / 10);
      r
    else Decimal(m, e)
  }

  lemma {:induction false} NormalizeScaled(d: Number, k: nat)
    ensures Normalize(d.mantissa * Pow10(k), d.exponent - k) == d
    decreases k
  {
    if k > 0 && d.mantissa != 0 {
      var m := d.mantissa * Pow10(k - 1);
      assert d.mantissa * Pow10(k) == m * 10;
      assert m != 0;
      assert (m * 10) % 10 == 0 && (m * 10) / 10 == m;
      NormalizeScaled(d, k - 1);
    }
  }

  /** Characters that would extend a JSON number literal. */
  predicate ContinuesNumber(c: char)
  {
    IsDigit(c) || c == '.' || c == 'e' || c == 'E'
  }

  /** The digits of `|d|`, shortest form. */
  function MagnitudeDigits(d: Number): string
  {
    NatText(Abs(d.mantissa))
  }

  /** The integer part `JSON.stringify` writes for a number. */
  function IntDigits(d: Number): (r: string)
    ensures IsCanonicalNatText(r)
  {
    var digits := MagnitudeDigits(d);
    if d.exponent >= 0 then
      TrailingZeros(digits, d.exponent);
      digits + Zeros(d.exponent)
    else if |digits| > -d.exponent then digits[..|digits| + d.exponent]
    else "0"
  }

  /** The fraction digits `JSON.stringify` writes for a number: none for a whole number. */
  function FracDigits(d: Number): (r: string)
    ensures AllDigits(r)
    ensures r == [] <==> d.exponent >= 0
  {
    var digits := MagnitudeDigits(d);
    if d.exponent >= 0 then ""
    else if |digits| > -d.exponent then digits[|digits| + d.exponent..]
    else Zeros(-d.exponent - |digits|) + digits
  }

  /**
   * The text `JSON.stringify` writes for a number, in positional notation:
   * `-` for negatives, the integer digits, then `.` and the fraction digits
   * when the exponent is negative.
   */
  function NumberText(d: Number): (r: string)
    ensures |r| > 0 && (r[0] == '-' || IsDigit(r[0]))
  {
    LiteralText(d.mantissa < 0, IntDigits(d), FracDigits(d))
  }

  function Signed(negative: bool, magnitude: nat): int
  {
    if negative then 0 - magnitude else magnitude
  }

  /** A number literal without exponent part. */
  function LiteralText(negative: bool, intPart: string, fracPart: string): string
  {
    (if negative then "-" else "") + intPart + (if fracPart == [] then "" else "." + fracPart)
  }

  /** The JSON number grammar `-? int frac? exp?`, read from the front of `s`. */
  function ParseNumber(s: string): (r: Option<(Number, string)>)
    ensures r.Some? ==> |r.value.1| < |s|
  {
    var negative := s != [] && s[0] == '-';
    var s1 := if negative then s[1..] else s;
    match ParseIntPart(s1)
    case None => None
    case Some((intPart, s2)) =>
      match ParseFraction(s2)
      case None => None
      case Some((fracPart, s3)) =>
        match ParseExponent(s3)
        case None => None
        case Some((x, s4)) =>
          Some((NumberOf(negative, intPart, fracPart, x), s4))
  }

  /** The number written with a sign, integer digits, fraction digits and a decimal exponent. */
  function NumberOf(negative: bool, intPart: string, fracPart: string, x: int): Number
    requires AllDigits(intPart) && AllDigits(fracPart)
  {
    DigitsAppend(intPart, fracPart);
    Normalize(Signed(negative, DigitsValue(intPart + fracPart)), x - |fracPart|)
  }

  /** The integer part: a single `0`, or a non-zero digit followed by digits. */
  function ParseIntPart(s: string): (r: Option<(string, string)>)
    ensures r.Some? ==> AllDigits(r.value.0) && |r.value.0| > 0 && r.value.0 + r.value.1 == s
  {
    if s == [] || !IsDigit(s[0]) then None
    else
      var n := if s[0] == '0' then 1 else SpanDigits(s);
      assert s[..n] + s[n..] == s;
      Some((s[..n], s[n..]))
  }

  /** The optional fraction part `.digits`; absent means no fraction digits. */
  function ParseFraction(s: string): (r: Option<(string, string)>)
    ensures r.Some? ==> AllDigits(r.value.0) && |r.value.1| <= |s|
  {
    if s == [] || s[0] != '.' then Some(("", s))
    else
      var n := SpanDigits(s[1..]);
      if n == 0 then None else Some((s[1..][..n], s[1..][n..]))
  }

  /** The optional exponent part `[eE][+-]?digits`; absent means zero. */
  function ParseExponent(s: string): (r: Option<(int, string)>)
    ensures r.Some? ==> |r.value.1| <= |s|
    ensures (s == [] || (s[0] != 'e' && s[0] != 'E')) ==> r == Some((0, s))
  {
    if s == [] || (s[0] != 'e' && s[0] != 'E') then Some((0, s))
    else
      var t := s[1..];
      var negative := t != [] && t[0] == '-';
      var t1 := if t != [] && (t[0] == '-' || t[0] == '+') then t[1..] else t;
      var n := SpanDigits(t1);
      if n == 0 then None
      else
        var v := DigitsValue(t1[..n]);
        var x: int := if negative then 0 - v else v;
        Some((x, t1[n..]))
  }

  /** `rest` cannot be read as part of a number literal that ends before it. */
  predicate EndsNumber(rest: string)
  {
    rest == [] || !ContinuesNumber(rest[0])
  }

  lemma IntPartOf(intPart: string, rest: string)
    requires IsCanonicalNatText(intPart)
    requires rest == [] || !IsDigit(rest[0]) || intPart == "0"
    ensures ParseIntPart(intPart + rest) == Some((intPart, rest))
  {
    var s := intPart + rest;
    if intPart[0] == '0' {
      assert s[..1] == intPart && s[1..] == rest;
    } else {
      SpanDigitsAppend(intPart, rest);
      assert s[..|intPart|] == intPart && s[|intPart|..] == rest;
    }
  }

  lemma FractionOf(fracPart: string, rest: string)
    requires AllDigits(fracPart) && EndsNumber(rest)
    ensures ParseFraction(FractionTail(fracPart, rest)) == Some((fracPart, rest))
  {
    if fracPart == [] {
      assert fracPart + rest == rest;
    } else {
      var s := "." + fracPart + rest;
      assert s[1..] == fracPart + rest;
      SpanDigitsAppend(fracPart, rest);
      assert s[1..][..|fracPart|] == fracPart && s[1..][|fracPart|..] == rest;
    }
  }

  /** `ParseNumber` is the composition of its three stages. */
  lemma ParseNumberStages(s: string, negative: bool, intPart: string, tail: string, fracPart: string, rest: string)
    requires negative == (s != [] && s[0] == '-')
    requires ParseIntPart(if negative then s[1..] else s) == Some((intPart, tail))
    requires ParseFraction(tail) == Some((fracPart, rest))
    requires EndsNumber(rest)
    ensures AllDigits(intPart) && AllDigits(fracPart)
    ensures ParseNumber(s) == Some((NumberOf(negative, intPart, fracPart, 0), rest))
  {
    assert ParseExponent(rest) == Some((0, rest));
  }

  function FractionTail(fracPart: string, rest: string): string
  {
    if fracPart == [] then rest else "." + fracPart + rest
  }

  /** A literal is its sign, then its integer part, then the fraction and whatever follows. */
  lemma LiteralShape(negative: bool, intPart: string, fracPart: string, rest: string)
    requires IsCanonicalNatText(intPart)
    ensures var s := LiteralText(negative, intPart, fracPart) + rest;
            && negative == (s != [] && s[0] == '-')
            && (if negative then s[1..] else s) == intPart + FractionTail(fracPart, rest)
  {
    var sign := if negative then "-" else "";
    var frac := if fracPart == [] then "" else "." + fracPart;
    assert frac + rest == FractionTail(fracPart, rest);
    Regroup3(sign, intPart, frac, rest);
    assert IsDigit(intPart[0]);
    SignedText(negative, intPart + (frac + rest));
  }

  lemma Regroup3(a: string, b: string, c: string, rest: string)
    ensures a + b + c + rest == a + (b + (c + rest))
  {
  }

  /** An optional minus sign, then a text that does not start with one. */
  lemma SignedText(negative: bool, t: string)
    requires t != [] && t[0] != '-'
    ensures var s := (if negative then "-" else "") + t;
            && negative == (s != [] && s[0] == '-')
            && (if negative then s[1..] else s) == t
  {
    if negative {
      assert ("-" + t)[1..] == t;
    }
  }

  /** How `ParseNumber` reads a literal made of a sign, an integer part and a fraction. */
  lemma NumberOfParts(negative: bool, intPart: string, fracPart: string, rest: string)
    requires IsCanonicalNatText(intPart) && AllDigits(fracPart) && EndsNumber(rest)
    ensures ParseNumber(LiteralText(negative, intPart, fracPart) + rest)
              == Some((NumberOf(negative, intPart, fracPart, 0), rest))
  {
    var tail := FractionTail(fracPart, rest);
    LiteralShape(negative, intPart, fracPart, rest);
    IntPartOf(intPart, tail);
    FractionOf(fracPart, rest);
    ParseNumberStages(LiteralText(negative, intPart, fracPart) + rest, negative, intPart, tail, fracPart, rest);
  }

  lemma SignedAbs(m: int, p: nat)
    ensures Signed(m < 0, Abs(m) * p) == m * p
  {
    if m < 0 {
      assert Abs(m) * p == -(m * p);
    }
  }

  /** A whole number's text: its digits, then `exponent` zeros. */
  lemma DenoteWhole(d: Number)
    requires d.exponent >= 0
    ensures AllDigits(IntDigits(d) + FracDigits(d))
    ensures Normalize(Signed(d.mantissa < 0, DigitsValue(IntDigits(d) + FracDigits(d))), 0 - |FracDigits(d)|) == d
  {
    var digits := MagnitudeDigits(d);
    var e: nat := d.exponent;
    assert IntDigits(d) + FracDigits(d) == digits + Zeros(e);
    TrailingZeros(digits, e);
    SignedAbs(d.mantissa, Pow10(e));
    NormalizeScaled(d, e);
  }

  /** A number with a fraction and a nonzero integer part: its digits, split by the point. */
  lemma DenoteSplit(d: Number)
    requires d.exponent < 0 && |MagnitudeDigits(d)| > -d.exponent
    ensures AllDigits(IntDigits(d) + FracDigits(d))
    ensures Normalize(Signed(d.mantissa < 0, DigitsValue(IntDigits(d) + FracDigits(d))), 0 - |FracDigits(d)|) == d
  {
    var digits := MagnitudeDigits(d);
    assert IntDigits(d) + FracDigits(d) == digits;
    SignedAbs(d.mantissa, 1);
    NormalizeScaled(d, 0);
  }

  /** A number below one: `0`, then leading zeros and its digits after the point. */
  lemma DenoteSmall(d: Number)
    requires d.exponent < 0 && |MagnitudeDigits(d)| <= -d.exponent
    ensures AllDigits(IntDigits(d) + FracDigits(d))
    ensures Normalize(Signed(d.mantissa < 0, DigitsValue(IntDigits(d) + FracDigits(d))), 0 - |FracDigits(d)|) == d
  {
    var digits := MagnitudeDigits(d);
    var k := -d.exponent - |digits|;
    assert IntDigits(d) + FracDigits(d) == Zeros(1) + (Zeros(k) + digits);
    LeadingZeros(k, digits);
    LeadingZeros(1, Zeros(k) + digits);
    SignedAbs(d.mantissa, 1);
    NormalizeScaled(d, 0);
  }

  /** The integer and fraction digits of a number's text denote the number again. */
  lemma DigitsDenote(d: Number)
    ensures AllDigits(IntDigits(d) + FracDigits(d))
    ensures Normalize(Signed(d.mantissa < 0, DigitsValue(IntDigits(d) + FracDigits(d))), 0 - |FracDigits(d)|) == d
  {
    if d.exponent >= 0 {
      DenoteWhole(d);
    } else if |MagnitudeDigits(d)| > -d.exponent {
      DenoteSplit(d);
    } else {
      DenoteSmall(d);
    }
  }

  /** Reading back the text of a number gives the number and leaves `rest` untouched. */
  lemma NumberRoundTrip(d: Number, rest: string)
    requires EndsNumber(rest)
    ensures ParseNumber(NumberText(d) + rest) == Some((d, rest))
  {
    var negative, intPart, fracPart := d.mantissa < 0, IntDigits(d), FracDigits(d);
    assert NumberText(d) == LiteralText(negative, intPart, fracPart);
    NumberOfParts(negative, intPart, fracPart, rest);
    DigitsDenote(d);
    assert NumberOf(negative, intPart, fracPart, 0)
        == Normalize(Signed(negative, DigitsValue(intPart + fracPart)), 0 - |fracPart|);
  }
}
