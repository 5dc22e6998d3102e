/**
 * `float(text)` as the flight-track readers' `string_to_float` converter
 * uses it: surrounding whitespace is ignored, an optional sign, then a
 * decimal number with optional fraction and exponent, or one of the words
 * `nan`, `inf`, `infinity` in any letter case. Anything else makes
 * `float` raise, which the converter turns into NaN. Values are exact
 * reals: rounding to the nearest double is not modelled.
 */
module FloatText {
  import opened Wrappers
  import opened Strings
  import opened Floats

  predicate IsSpace(c: char) {
    c == ' ' || c == '\t' || c == '\n' || c == '\r' || c == '\U{000B}' || c == '\U{000C}'
  }

  /** `s.strip()`. */
  function Strip(s: string): (r: string)
    ensures |r| <= |s|
    ensures |r| > 0 ==> !IsSpace(r[0]) && !IsSpace(r[|r| - 1])
    decreases |s|
  {
    if |s| == 0 then s
    else if IsSpace(s[0]) then Strip(s[1..])
    else if IsSpace(s[|s| - 1]) then Strip(s[..|s| - 1])
    else s
  }

  /** ASCII lower case. */
  function Lower(s: string): (r: string)
    ensures |r| == |s|
  {
    seq(|s|, i requires 0 <= i < |s| => if 'A' <= s[i] <= 'Z' then ((s[i] as int) + 32) as char else s[i])
  }

  /** 10^k as a real, for any integer k. */
  function Scale10(k: int): (r: real)
    ensures r > 0.0
  {
    if k >= 0 then Pow10(k) as real else 1.0 / (Pow10(-k) as real)
  }

  /** Position of the first `e` or `E`. */
  function ExponentAt(s: string): (r: nat)
    ensures r <= |s|
    ensures forall i :: 0 <= i < r ==> s[i] != 'e' && s[i] != 'E'
    ensures r < |s| ==> s[r] == 'e' || s[r] == 'E'
  {
    if |s| == 0 then 0
    else if s[0] == 'e' || s[0] == 'E' then 0
    else 1 + ExponentAt(s[1..])
  }

  /** Position of the first `.`. */
  function PointAt(s: string): (r: nat)
    ensures r <= |s|
    ensures forall i :: 0 <= i < r ==> s[i] != '.'
    ensures r < |s| ==> s[r] == '.'
  {
    if |s| == 0 then 0
    else if s[0] == '.' then 0
    else 1 + PointAt(s[1..])
  }

  /** `[+-]digits`, the exponent after `e`. */
  function ParseExponent(s: string): Option<int> {
    var neg := |s| > 0 && s[0] == '-';
    var digits := if |s| > 0 && (s[0] == '+' || s[0] == '-') then s[1..] else s;
    if |digits| > 0 && AllDigits(digits) then
      var v: int := DigitsValue(digits);
      Some(if neg then -v else v)
    else None
  }

  /** `digits[.digits]` or `.digits`: at least one digit, at most one point. */
  function ParseMantissa(s: string): Option<real> {
    var p := PointAt(s);
    MantissaValue(s[..p], if p < |s| then s[p + 1..] else "")
  }

  /** The value of `whole.frac`, when both are digit strings and not both empty. */
  function MantissaValue(whole: string, frac: string): (r: Option<real>)
    ensures r.Some? <==> AllDigits(whole) && AllDigits(frac) && |whole| + |frac| > 0
  {
    if AllDigits(whole) && AllDigits(frac) && |whole| + |frac| > 0 then
      Some(DigitsValue(whole + frac) as real / (Pow10(|frac|) as real))
    else None
  }

  /** An unsigned decimal number with optional exponent. */
  function ParseDecimal(s: string): Option<real> {
    var e := ExponentAt(s);
    var m := ParseMantissa(s[..e]);
    if m.None? then None
    else if e == |s| then m
    else
      match ParseExponent(s[e + 1..])
      case None => None
      case Some(x) => Some(m.value * Scale10(x))
  }

  /** What `float(s)` returns, or `None` where it raises `ValueError`. */
  function ParseFloat(s: string): Option<F64> {
    ParseSigned(Strip(s))
  }

  /** An optional sign and the text after it. */
  function ParseSigned(t: string): Option<F64> {
    if |t| > 0 && (t[0] == '+' || t[0] == '-') then ParseUnsigned(t[1..], t[0] == '-')
    else ParseUnsigned(t, false)
  }

  /** A special word, or a decimal number negated when `neg`. NaN carries no sign. */
  function ParseUnsigned(body: string, neg: bool): Option<F64> {
    var word := Lower(body);
    if word == "inf" || word == "infinity" then Some(Inf(neg))
    else if word == "nan" then Some(NaN)
    else
      match ParseDecimal(body)
      case None => None
      case Some(v) => Some(Num(if neg then -v else v))
  }

  /** `string_to_float`: the value of the text, NaN when it is not a number. */
  function StringToFloat(s: string): (r: F64)
    ensures ParseFloat(s).None? ==> r == NaN
    ensures ParseFloat(s).Some? ==> r == ParseFloat(s).value
  {
    match ParseFloat(s)
    case None => NaN
    case Some(v) => v
  }

  lemma DigitsNoMarks(s: string)
    requires AllDigits(s)
    ensures ExponentAt(s) == |s| && PointAt(s) == |s|
    ensures Strip(s) == s
  {
    if |s| > 0 {
      assert !IsSpace(s[0]) && !IsSpace(s[|s| - 1]);
      assert AllDigits(s[1..]);
      DigitsNoMarks(s[1..]);
    }
  }

  lemma DigitsNotWord(s: string)
    requires |s| > 0 && AllDigits(s)
    ensures Lower(s) != "inf" && Lower(s) != "infinity" && Lower(s) != "nan"
  {
    assert Lower(s)[0] == s[0];
  }

  /** The text of a whole number reads back as that number. */
  lemma StringToFloatInt(n: int)
    ensures StringToFloat(IntToString(n)) == Num(n as real)
  {
    var m: nat := if n >= 0 then n else -n;
    var d := NatToString(m);
    DigitsDecimal(d);
    UnsignedDecimal(d, n < 0);
    if n < 0 {
      NegativeText(d);
    }
  }

  /** `-digits` is read as the negated digits. */
  lemma NegativeText(d: string)
    requires |d| > 0 && AllDigits(d)
    ensures ParseFloat("-" + d) == ParseUnsigned(d, true)
  {
    var s := "-" + d;
    assert s[1..] == d;
    assert !IsSpace(s[0]) && s[|s| - 1] == d[|d| - 1];
    assert Strip(s) == s;
  }

  /** Text that is not a special word is read as a decimal, negated when `neg`. */
  lemma UnsignedDecimal(body: string, neg: bool)
    requires Lower(body) != "inf" && Lower(body) != "infinity" && Lower(body) != "nan"
    requires ParseDecimal(body).Some?
    ensures var v := ParseDecimal(body).value;
            ParseUnsigned(body, neg) == Some(Num(if neg then -v else v))
  {
  }

  /** A plain digit string is an unsigned decimal worth its digits' value. */
  lemma DigitsDecimal(d: string)
    requires |d| > 0 && AllDigits(d)
    ensures Strip(d) == d && d[0] != '+' && d[0] != '-'
    ensures Lower(d) != "inf" && Lower(d) != "infinity" && Lower(d) != "nan"
    ensures ParseDecimal(d) == Some(DigitsValue(d) as real)
  {
    DigitsNoMarks(d);
    DigitsNotWord(d);
    DigitsMantissa(d);
    assert d[..|d|] == d;
  }

  lemma DigitsMantissa(d: string)
    requires |d| > 0 && AllDigits(d) && PointAt(d) == |d|
    ensures ParseMantissa(d) == Some(DigitsValue(d) as real)
  {
    assert d[..|d|] == d;
    assert ParseMantissa(d) == MantissaValue(d, "");
    assert d + "" == d;
    assert Pow10(0) == 1;
  }

  /** The number `whole.frac` denotes: the whole part plus the fraction's digits over ten to their count. */
  function FixedValue(whole: string, frac: string): real
    requires AllDigits(whole) && AllDigits(frac)
  {
    DigitsValue(whole) as real + DigitsValue(frac) as real / (Pow10(|frac|) as real)
  }

  /** A number written as `whole.frac` reads back with the fraction's weight. */
  lemma StringToFloatFixed(whole: string, frac: string)
    requires |whole| > 0 && AllDigits(whole) && |frac| > 0 && AllDigits(frac)
    ensures StringToFloat(whole + "." + frac)
            == Num(FixedValue(whole, frac))
  {
    FixedShape(whole, frac);
    MantissaFixed(whole, frac);
    PlainText(whole + "." + frac);
  }

  /** Unsigned text without surrounding spaces or an exponent that is not a special word. */
  predicate PlainShape(s: string) {
    |s| > 0 && Strip(s) == s && s[0] != '+' && s[0] != '-'
    && Lower(s) != "inf" && Lower(s) != "infinity" && Lower(s) != "nan"
    && ExponentAt(s) == |s|
  }

  /** Plain text is read as a mantissa. */
  lemma PlainText(s: string)
    requires PlainShape(s)
    ensures ParseFloat(s) == match ParseMantissa(s) case None => None case Some(v) => Some(Num(v))
    ensures ParseMantissa(s).Some? ==> StringToFloat(s) == Num(ParseMantissa(s).value)
  {
    assert ParseFloat(s) == ParseUnsigned(s, false);
    assert s[..|s|] == s;
    assert ParseDecimal(s) == ParseMantissa(s);
  }

  lemma FixedShape(w: string, frac: string)
    requires |w| > 0 && AllDigits(w) && |frac| > 0 && AllDigits(frac)
    ensures PlainShape(w + "." + frac)
  {
    var s := w + "." + frac;
    assert s[0] == w[0] && s[|s| - 1] == frac[|frac| - 1];
    assert Lower(s)[0] == s[0];
    ExponentSplit(w, frac);
  }

  lemma MantissaFixed(w: string, frac: string)
    requires AllDigits(w) && |frac| > 0 && AllDigits(frac)
    ensures ParseMantissa(w + "." + frac)
            == Some(FixedValue(w, frac))
  {
    MantissaSplit(w, frac);
    MantissaOfDigits(w, frac);
  }

  lemma MantissaSplit(w: string, frac: string)
    requires AllDigits(w)
    ensures ParseMantissa(w + "." + frac) == MantissaValue(w, frac)
  {
    var s := w + "." + frac;
    PointSplit(w, frac);
    assert s[..|w|] == w;
    assert s[|w| + 1..] == frac;
  }

  lemma MantissaOfDigits(w: string, frac: string)
    requires AllDigits(w) && |frac| > 0 && AllDigits(frac)
    ensures MantissaValue(w, frac)
            == Some(FixedValue(w, frac))
  {
    var a, b, p := DigitsValue(w), DigitsValue(frac), Pow10(|frac|);
    DigitsConcat(w, frac);
    var v := DigitsValue(w + frac);
    assert MantissaValue(w, frac) == Some(v as real / (p as real));
    FracValue(a, b, p);
  }

  lemma FracValue(a: nat, b: nat, p: nat)
    requires p >= 1
    ensures (a * p + b) as real / (p as real) == a as real + b as real / (p as real)
  {
    var pr := p as real;
    assert (a * p + b) as real == a as real * pr + b as real;
    assert (a as real * pr + b as real) / pr == a as real * pr / pr + b as real / pr;
    assert a as real * pr / pr == a as real;
  }

  lemma ExponentSplit(w: string, frac: string)
    requires AllDigits(w) && AllDigits(frac)
    ensures ExponentAt(w + "." + frac) == |w + "." + frac|
  {
    var s := w + "." + frac;
    if |w| > 0 {
      assert s[1..] == w[1..] + "." + frac;
      ExponentSplit(w[1..], frac);
    } else {
      assert s[1..] == frac;
      DigitsNoMarks(frac);
    }
  }

  lemma PointSplit(w: string, frac: string)
    requires AllDigits(w)
    ensures PointAt(w + "." + frac) == |w|
  {
    var s := w + "." + frac;
    if |w| > 0 {
      assert s[1..] == w[1..] + "." + frac;
      PointSplit(w[1..], frac);
    }
  }

  /** Whitespace around the text does not change its value. */
  lemma StringToFloatSpaces(s: string)
    ensures StringToFloat(" " + s + "\t") == StringToFloat(s)
  {
    StripOuter(s);
  }

  lemma StripOuter(s: string)
    ensures Strip(" " + s + "\t") == Strip(s)
  {
    var t := " " + s + "\t";
    assert t[1..] == s + "\t";
    StripTrailing(s);
  }

  lemma {:induction false} StripTrailing(s: string)
    ensures Strip(s + "\t") == Strip(s)
    decreases |s|
  {
    var t := s + "\t";
    if |s| == 0 {
      assert t[1..] == "";
    } else if IsSpace(s[0]) {
      assert t[1..] == s[1..] + "\t";
      StripTrailing(s[1..]);
    } else {
      assert t[..|t| - 1] == s;
    }
  }

  /** Text with no digit in it is a number only if it is one of the special words. */
  lemma NoDigitsNoNumber(s: string)
    requires forall i :: 0 <= i < |s| ==> !IsDigit(s[i])
    ensures ParseFloat(s).Some? ==> ParseFloat(s).value == NaN || ParseFloat(s).value.Inf?
  {
    var t := Strip(s);
    if ParseSigned(t).Some? && ParseSigned(t).value.Num? {
      var k := StrippedDigit(s);
      assert false;
    }
  }

  /** Text whose stripped form reads as a number has a digit at position `k`. */
  lemma StrippedDigit(s: string) returns (k: nat)
    requires ParseSigned(Strip(s)).Some? && ParseSigned(Strip(s)).value.Num?
    ensures k < |s| && IsDigit(s[k])
  {
    var i := SignedHasDigit(Strip(s));
    StrippedAt(s, i);
    k := Offset(s) + i;
  }

  /** Character `i` of the stripped text is character `Offset(s) + i` of the text. */
  lemma StrippedAt(s: string, i: nat)
    requires i < |Strip(s)|
    ensures Offset(s) + i < |s| && Strip(s)[i] == s[Offset(s) + i]
  {
    StripInside(s);
  }

  /** A number read from signed text has a digit in it; `i` is the position of one. */
  lemma SignedHasDigit(t: string) returns (i: nat)
    requires ParseSigned(t).Some? && ParseSigned(t).value.Num?
    ensures i < |t| && IsDigit(t[i])
  {
    var signed := |t| > 0 && (t[0] == '+' || t[0] == '-');
    var body := if signed then t[1..] else t;
    assert ParseDecimal(body).Some?;
    DecimalHasDigit(body);
    var k :| 0 <= k < |body| && IsDigit(body[k]);
    i := if signed then k + 1 else k;
  }

  /** A decimal number has a digit before or after its point. */
  lemma DecimalHasDigit(b: string)
    requires ParseDecimal(b).Some?
    ensures exists i :: 0 <= i < |b| && IsDigit(b[i])
  {
    var m := b[..ExponentAt(b)];
    var p := PointAt(m);
    assert ParseMantissa(m).Some?;
    if p > 0 {
      assert IsDigit(m[..p][0]) && b[0] == m[0];
    } else {
      assert IsDigit(m[p + 1..][0]) && b[p + 1] == m[p + 1];
    }
  }

  /** Where the stripped text starts inside the original. */
  function Offset(s: string): nat
  {
    if |s| > 0 && IsSpace(s[0]) then 1 + Offset(s[1..]) else 0
  }

  lemma {:induction false} StripInside(s: string)
    ensures Offset(s) + |Strip(s)| <= |s|
    ensures Strip(s) == s[Offset(s)..Offset(s) + |Strip(s)|]
    decreases |s|
  {
    if |s| > 0 {
      if IsSpace(s[0]) {
        StripInside(s[1..]);
      } else if IsSpace(s[|s| - 1]) {
        StripInside(s[..|s| - 1]);
        StripFront(s[..|s| - 1]);
      }
    }
  }

  lemma StripFront(s: string)
    requires |s| == 0 || !IsSpace(s[0])
    ensures Offset(s) == 0
  {
  }
}
