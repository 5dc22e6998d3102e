/**
 * `int(text, base)` for the two bases the core uses: 10 (the image end
 * times) and 16 (the LMA station masks). Surrounding whitespace is
 * ignored; then an optional sign; in base 16 an optional `0x` or `0X`
 * prefix, which may be followed by one underscore; then digits of the
 * base with single underscores between them. Anything else makes `int`
 * raise.
 */
module IntText {
  import opened Wrappers
  import opened Strings
  import opened FloatText

  predicate IsHexDigit(c: char) {
    '0' <= c <= '9' || 'a' <= c <= 'f' || 'A' <= c <= 'F'
  }

  function HexDigit(c: char): (d: nat)
    requires IsHexDigit(c)
    ensures d < 16
  {
    if '0' <= c <= '9' then c as int - '0' as int
    else if 'a' <= c <= 'f' then c as int - 'a' as int + 10
    else c as int - 'A' as int + 10
  }

  predicate ValidBase(base: nat) {
    base == 10 || base == 16
  }

  predicate IsDigitIn(c: char, base: nat)
    requires ValidBase(base)
  {
    if base == 10 then IsDigit(c) else IsHexDigit(c)
  }

  function DigitIn(c: char, base: nat): (d: nat)
    requires ValidBase(base) && IsDigitIn(c, base)
    ensures d < base
  {
    if base == 10 then DigitValue(c) else HexDigit(c)
  }

  predicate AllDigitsIn(s: string, base: nat)
    requires ValidBase(base)
  {
    forall i :: 0 <= i < |s| ==> IsDigitIn(s[i], base)
  }

  /** The value of a string of digits of the base, most significant first. */
  function PlainValue(s: string, base: nat): nat
    requires ValidBase(base) && AllDigitsIn(s, base)
  {
    if |s| == 0 then 0 else base * PlainValue(s[..|s| - 1], base) + DigitIn(s[|s| - 1], base)
  }

  /**
   * Digits of the base with single underscores between them: non-empty,
   * first and last character a digit, and no two underscores in a row.
   */
  predicate Grouped(s: string, base: nat)
    requires ValidBase(base)
  {
    |s| > 0 && IsDigitIn(s[|s| - 1], base) && GroupedBefore(s[..|s| - 1], base)
  }

  /** What may come before a digit in grouped text: nothing, or grouped text, or grouped text and `_`. */
  predicate GroupedBefore(s: string, base: nat)
    requires ValidBase(base)
    decreases |s|
  {
    if |s| == 0 then true
    else if IsDigitIn(s[|s| - 1], base) then GroupedBefore(s[..|s| - 1], base)
    else s[|s| - 1] == '_' && |s| >= 2 && IsDigitIn(s[|s| - 2], base) && GroupedBefore(s[..|s| - 2], base)
  }

  /** The value of grouped text: the underscores are skipped. */
  function GroupedValue(s: string, base: nat): nat
    requires ValidBase(base)
  {
    if |s| == 0 then 0
    else if s[|s| - 1] == '_' then GroupedValue(s[..|s| - 1], base)
    else base * GroupedValue(s[..|s| - 1], base) + (if IsDigitIn(s[|s| - 1], base) then DigitIn(s[|s| - 1], base) else 0)
  }

  /** The text after a base-16 prefix `0x` / `0X` and the one underscore it may carry. */
  function Unprefixed(u: string, base: nat): string {
    if base == 16 && |u| >= 2 && u[0] == '0' && (u[1] == 'x' || u[1] == 'X') then
      if |u| >= 3 && u[2] == '_' then u[3..] else u[2..]
    else u
  }

  /** The unsigned part: a prefix (base 16 only), then grouped digits. */
  function Unsigned(u: string, base: nat): Option<nat>
    requires ValidBase(base)
  {
    var body := Unprefixed(u, base);
    if Grouped(body, base) then Some(GroupedValue(body, base)) else None
  }

  /** `int(s, base)`: strip, then read the stripped text. */
  function ParseInt(s: string, base: nat): Result<int>
    requires ValidBase(base)
  {
    ParseStripped(Strip(s), base)
  }

  /** A plain string of digits reads as its value. */
  lemma ParseIntPlain(s: string, base: nat)
    requires ValidBase(base) && |s| > 0 && AllDigitsIn(s, base)
    ensures ParseInt(s, base) == Ok(PlainValue(s, base) as int)
  {
    PlainUnsigned(s, base);
    PlainDigits(s, base);
    StrippedUnsigned(s, base);
  }

  /** Stripped text: an optional sign, then the unsigned part. */
  function ParseStripped(t: string, base: nat): Result<int>
    requires ValidBase(base)
  {
    var signed := |t| > 0 && (t[0] == '-' || t[0] == '+');
    var u := if signed then t[1..] else t;
    match Unsigned(u, base)
    case None => Err(BadDigits)
    case Some(n) => Ok(if signed && t[0] == '-' then -(n as int) else n as int)
  }

  /** A plain string of digits is its own stripped, unprefixed, grouped form, valued as plain digits. */
  lemma PlainDigits(s: string, base: nat)
    requires ValidBase(base)
    ensures |s| > 0 && AllDigitsIn(s, base) ==>
              Strip(s) == s && !(s[0] == '-' || s[0] == '+') && Unprefixed(s, base) == s
              && Grouped(s, base) && GroupedValue(s, base) == PlainValue(s, base)
  {
    if |s| > 0 && AllDigitsIn(s, base) {
      assert IsDigitIn(s[0], base) && IsDigitIn(s[|s| - 1], base);
      if |s| >= 2 { assert IsDigitIn(s[1], base); }
      PlainGrouped(s[..|s| - 1], base);
      PlainGroupedValue(s, base);
    }
  }

  lemma {:induction false} PlainGrouped(s: string, base: nat)
    requires ValidBase(base) && AllDigitsIn(s, base)
    ensures GroupedBefore(s, base)
    decreases |s|
  {
    if |s| > 0 {
      assert IsDigitIn(s[|s| - 1], base);
      PlainGrouped(s[..|s| - 1], base);
    }
  }

  lemma {:induction false} PlainGroupedValue(s: string, base: nat)
    requires ValidBase(base) && AllDigitsIn(s, base)
    ensures GroupedValue(s, base) == PlainValue(s, base)
    decreases |s|
  {
    if |s| > 0 {
      assert IsDigitIn(s[|s| - 1], base);
      PlainGroupedValue(s[..|s| - 1], base);
    }
  }

  /** Whitespace around the text changes nothing. */
  lemma ParseIntSpaces(s: string, base: nat)
    requires ValidBase(base)
    ensures ParseInt(" " + s + "\t", base) == ParseInt(s, base)
  {
    StripOuter(s);
  }

  /** `-digits` reads as the negated value, `+digits` as the value. */
  lemma ParseIntSigned(d: string, base: nat)
    requires ValidBase(base) && |d| > 0 && AllDigitsIn(d, base)
    ensures ParseInt("-" + d, base) == Ok(-(PlainValue(d, base) as int))
    ensures ParseInt("+" + d, base) == Ok(PlainValue(d, base))
  {
    SignedStrip('-', d, base);
    SignedStrip('+', d, base);
    assert "-" + d == ['-'] + d && "+" + d == ['+'] + d;
  }

  /** Plain digits are an unsigned part worth their plain value. */
  lemma PlainUnsigned(d: string, base: nat)
    requires ValidBase(base) && |d| > 0 && AllDigitsIn(d, base)
    ensures Unsigned(d, base) == Some(PlainValue(d, base))
  {
    PlainDigits(d, base);
  }

  lemma StrippedSigned(t: string, base: nat)
    requires ValidBase(base) && |t| > 0 && (t[0] == '-' || t[0] == '+') && Unsigned(t[1..], base).Some?
    ensures ParseStripped(t, base) == Ok(if t[0] == '-' then -(Unsigned(t[1..], base).value as int) else Unsigned(t[1..], base).value as int)
  {
  }

  lemma StrippedUnsigned(t: string, base: nat)
    requires ValidBase(base) && !(|t| > 0 && (t[0] == '-' || t[0] == '+')) && Unsigned(t, base).Some?
    ensures ParseStripped(t, base) == Ok(Unsigned(t, base).value as int)
  {
  }

  lemma StrippedRefused(t: string, base: nat)
    requires ValidBase(base) && !(|t| > 0 && (t[0] == '-' || t[0] == '+')) && Unsigned(t, base).None?
    ensures ParseStripped(t, base).Err?
  {
  }

  lemma StrippedSignRefused(t: string, base: nat)
    requires ValidBase(base) && |t| > 0 && (t[0] == '-' || t[0] == '+') && Unsigned(t[1..], base).None?
    ensures ParseStripped(t, base).Err?
  {
  }

  lemma SignedStrip(sign: char, d: string, base: nat)
    requires ValidBase(base) && |d| > 0 && AllDigitsIn(d, base) && (sign == '-' || sign == '+')
    ensures Strip([sign] + d) == [sign] + d
    ensures ParseStripped([sign] + d, base) == Ok(if sign == '-' then -(PlainValue(d, base) as int) else PlainValue(d, base) as int)
  {
    var t := [sign] + d;
    assert Strip(t) == t by {
      assert IsDigitIn(d[|d| - 1], base);
      assert t[|t| - 1] == d[|d| - 1];
    }
    assert t[0] == sign && t[1..] == d;
    PlainUnsigned(d, base);
    StrippedSigned(t, base);
  }

  /** Base 16 reads `0x` and `0X` followed by hexadecimal digits as those digits. */
  lemma ParseIntHexPrefix(d: string)
    requires |d| > 0 && AllDigitsIn(d, 16)
    ensures ParseInt("0x" + d, 16) == Ok(PlainValue(d, 16))
    ensures ParseInt("0X" + d, 16) == Ok(PlainValue(d, 16))
  {
    PrefixedStrip("0x", d);
    PrefixedStrip("0X", d);
  }

  lemma PrefixedStrip(p: string, d: string)
    requires |d| > 0 && AllDigitsIn(d, 16) && (p == "0x" || p == "0X")
    ensures Strip(p + d) == p + d
    ensures ParseStripped(p + d, 16) == Ok(PlainValue(d, 16) as int)
  {
    var t := p + d;
    assert Strip(t) == t by {
      assert IsDigitIn(d[|d| - 1], 16);
      assert t[|t| - 1] == d[|d| - 1];
    }
    PrefixedUnsigned(p, d);
    StrippedUnsigned(t, 16);
  }

  lemma PrefixedUnsigned(p: string, d: string)
    requires |d| > 0 && AllDigitsIn(d, 16) && (p == "0x" || p == "0X")
    ensures Unsigned(p + d, 16) == Some(PlainValue(d, 16))
  {
    var t := p + d;
    assert t[2..] == d;
    assert Unprefixed(t, 16) == d by {
      assert |t| >= 3 && t[0] == '0' && (t[1] == 'x' || t[1] == 'X') && t[2] == d[0];
      assert IsDigitIn(d[0], 16);
    }
    PlainDigits(d, 16);
  }

  /** An underscore between two runs of digits is ignored. */
  lemma ParseIntUnderscore(a: string, b: string, base: nat)
    requires ValidBase(base) && |a| > 0 && |b| > 0 && AllDigitsIn(a, base) && AllDigitsIn(b, base)
    ensures AllDigitsIn(a + b, base) && ParseInt(a + "_" + b, base) == Ok(PlainValue(a + b, base))
  {
    var s := a + "_" + b;
    assert IsDigitIn(a[0], base) && IsDigitIn(b[|b| - 1], base);
    assert s[0] == a[0] && s[|s| - 1] == b[|b| - 1];
    assert Strip(s) == s;
    if base == 16 {
      assert a[0] != '0' || |a| == 1 || !(a[1] == 'x' || a[1] == 'X');
      if |a| == 1 && a[0] == '0' {
        assert s[1] == '_';
      }
    }
    assert Unprefixed(s, base) == s;
    UnderscoreGrouped(a, b, base);
    assert s[..|s| - 1] == a + "_" + b[..|b| - 1];
    assert IsDigitIn(s[|s| - 1], base);
    AllDigitsConcat(a, b, base);
    assert Unsigned(s, base) == Some(PlainValue(a + b, base));
    StrippedUnsigned(s, base);
  }

  lemma AllDigitsConcat(a: string, b: string, base: nat)
    requires ValidBase(base) && AllDigitsIn(a, base) && AllDigitsIn(b, base)
    ensures AllDigitsIn(a + b, base)
  {
    assert forall i :: 0 <= i < |a + b| ==> (a + b)[i] == if i < |a| then a[i] else b[i - |a|];
  }

  /** Digits, one underscore, digits: the text before each digit is grouped, and the value skips the underscore. */
  lemma {:induction false} UnderscoreGrouped(a: string, b: string, base: nat)
    requires ValidBase(base) && |a| > 0 && AllDigitsIn(a, base) && AllDigitsIn(b, base)
    ensures GroupedBefore(a + "_" + b, base)
    ensures AllDigitsIn(a + b, base) && GroupedValue(a + "_" + b, base) == PlainValue(a + b, base)
    decreases |b|
  {
    AllDigitsConcat(a, b, base);
    var s := a + "_" + b;
    if |b| == 0 {
      assert s == a + "_" && s[..|s| - 1] == a && s[..|s| - 2] == a[..|a| - 1];
      assert IsDigitIn(a[|a| - 1], base);
      PlainGrouped(a, base);
      PlainGrouped(a[..|a| - 1], base);
      PlainGroupedValue(a, base);
      assert a + b == a;
    } else {
      var b' := b[..|b| - 1];
      assert AllDigitsIn(b', base);
      UnderscoreGrouped(a, b', base);
      assert s[..|s| - 1] == a + "_" + b';
      assert s[|s| - 1] == b[|b| - 1];
      assert IsDigitIn(b[|b| - 1], base);
      assert (a + b)[..|a + b| - 1] == a + b';
      assert (a + b)[|a + b| - 1] == b[|b| - 1];
    }
  }

  /** `int` refuses empty or blank text. */
  lemma ParseIntRejectsBlank()
    ensures ParseInt("", 10).Err? && ParseInt("   ", 10).Err?
  {
    assert Strip("   ") == "";
  }

  /** `int` refuses a leading or trailing underscore. */
  lemma ParseIntRejectsOuterUnderscore()
    ensures ParseInt("_1", 10).Err? && ParseInt("1_", 10).Err?
  {
    var a, b := "_1", "1_";
    assert |a| == 2 && a[0] == '_' && a[1] == '1' && a[..1] == "_";
    assert |b| == 2 && b[0] == '1' && b[1] == '_';
    assert Strip(a) == a && Strip(b) == b;
    assert Unprefixed(a, 10) == a && Unprefixed(b, 10) == b;
    assert !Grouped(a, 10) && !Grouped(b, 10);
    StrippedRefused(a, 10);
    StrippedRefused(b, 10);
  }

  /** `int` refuses two underscores in a row. */
  lemma ParseIntRejectsDoubleUnderscore()
    ensures ParseInt("1__2", 10).Err?
  {
    assert Strip("1__2") == "1__2";
    assert !Grouped("1__2", 10) by { assert "1__2"[..3] == "1__"; }
  }

  /** `int` refuses a space between digits. */
  lemma ParseIntRejectsInnerSpace()
    ensures ParseInt("1 2", 10).Err?
  {
    var t := "1 2";
    assert |t| == 3 && t[0] == '1' && t[2] == '2' && t[..2] == "1 " && "1 "[1] == ' ';
    assert Strip(t) == t;
    assert Unprefixed(t, 10) == t;
    assert !GroupedBefore(t[..2], 10);
    assert !Grouped(t, 10);
    StrippedRefused(t, 10);
  }

  /** `int` refuses a space between the sign and the digits. */
  lemma ParseIntRejectsSpacedSign()
    ensures ParseInt("- 1", 10).Err?
  {
    var t := "- 1";
    assert |t| == 3 && t[0] == '-' && t[2] == '1' && t[1..] == " 1";
    assert Strip(t) == t;
    var u := " 1";
    assert |u| == 2 && u[..1] == " " && u[0] == ' ';
    assert Unprefixed(u, 10) == u;
    assert !GroupedBefore(u[..1], 10);
    assert Unsigned(u, 10).None?;
    StrippedSignRefused(t, 10);
  }

  /** A bare `0x` is refused. */
  lemma ParseIntRejectsBarePrefix()
    ensures ParseInt("0x", 16).Err?
  {
    assert Strip("0x") == "0x";
    var u := "0x";
    assert |u| == 2 && u[0] == '0' && u[1] == 'x';
    assert Unprefixed(u, 16) == u[2..] == [];
    assert Unsigned(u, 16).None?;
    StrippedRefused("0x", 16);
  }

  /** Base 10 has no prefix. */
  lemma ParseIntRejectsPrefixInBase10()
    ensures ParseInt("0x1c", 10).Err?
  {
    var s := "0x1c";
    assert Strip(s) == s;
    assert Unprefixed(s, 10) == s;
    assert !Grouped(s, 10) by {
      assert s[..3] == "0x1" && "0x1"[..2] == "0x" && !IsDigitIn('x', 10);
    }
  }

  /** `int` of a one-character text is the digit's value, and raises for any other character. */
  lemma ParseIntOneChar(c: char)
    ensures ParseInt([c], 10) == if IsDigit(c) then Ok(DigitValue(c)) else Err(BadDigits)
  {
    if IsDigit(c) {
      PlainDecimal([c]);
      ParseIntPlain([c], 10);
    } else {
      var t := Strip([c]);
      assert |t| <= 1;
      if |t| == 1 {
        assert t == [c];
        if !(c == '-' || c == '+') {
          assert !IsDigitIn(c, 10);
          assert Unprefixed(t, 10) == t;
        }
      }
      assert Unsigned([], 10).None?;
    }
  }

  /** Python `int(str(i)) == i`, for every integer. */
  lemma ParseIntToString(i: int)
    ensures ParseInt(IntToString(i), 10) == Ok(i)
  {
    var n := if i >= 0 then i else -i;
    var d := NatToString(n);
    PlainDecimal(d);
    if i < 0 {
      ParseIntSigned(d, 10);
    } else {
      ParseIntPlain(d, 10);
    }
  }

  /** A plain decimal digit string reads as its decimal value. */
  lemma ParseIntDecimal(s: string)
    requires |s| > 0 && AllDigits(s)
    ensures ParseInt(s, 10) == Ok(DigitsValue(s) as int)
  {
    PlainDecimal(s);
    ParseIntPlain(s, 10);
  }

  /** In base 10 the plain value is the decimal value. */
  lemma {:induction false} PlainDecimal(s: string)
    requires AllDigits(s)
    ensures AllDigitsIn(s, 10) && PlainValue(s, 10) == DigitsValue(s)
    decreases |s|
  {
    if |s| > 0 {
      PlainDecimal(s[..|s| - 1]);
    }
  }
}
