/**
 * The Python string operations the scripts use on file names and time
 * stamps: `str.split(sep)` (which keeps empty fields), `sep.join`, `in`,
 * clamped slicing `s[a:b]`, `str(n)` and `int(s)` on decimal digits.
 */
module Strings {
  import opened Wrappers

  // -------------------------------------------------------------------
  // Substrings
  // -------------------------------------------------------------------

  predicate OccursAt(s: string, sub: string, i: nat) {
    i + |sub| <= |s| && s[i..i + |sub|] == sub
  }

  /** Python `sub in s`. */
  predicate Contains(s: string, sub: string) {
    exists i: nat | i <= |s| :: OccursAt(s, sub, i)
  }

  /** The first position at which `sub` occurs in `s` (`s.find(sub)`); see `FindFirst`. */
  function Find(s: string, sub: string, from: nat): (r: Option<nat>)
    requires from <= |s|
    ensures r.Some? ==> from <= r.value && OccursAt(s, sub, r.value)
    decreases |s| - from
  {
    if OccursAt(s, sub, from) then Some(from)
    else if from + |sub| >= |s| then None
    else Find(s, sub, from + 1)
  }

  /** `Find` answers the first occurrence at or after `from`, and `None` only when there is none. */
  lemma {:induction false} FindFirst(s: string, sub: string, from: nat)
    requires from <= |s|
    ensures Find(s, sub, from).Some? ==> forall j :: from <= j < Find(s, sub, from).value ==> !OccursAt(s, sub, j)
    ensures Find(s, sub, from).None? ==> forall j :: from <= j ==> !OccursAt(s, sub, j)
    decreases |s| - from
  {
    if OccursAt(s, sub, from) {
    } else if from + |sub| >= |s| {
      forall j | from <= j && OccursAt(s, sub, j) ensures false { }
    } else {
      FindFirst(s, sub, from + 1);
    }
  }

  lemma FindContains(s: string, sub: string)
    ensures Find(s, sub, 0).Some? <==> Contains(s, sub)
  {
    FindFirst(s, sub, 0);
    if Contains(s, sub) {
      var i: nat :| OccursAt(s, sub, i);
    }
  }

  // -------------------------------------------------------------------
  // split / join
  // -------------------------------------------------------------------

  /** Python `s.split(sep)` for a non-empty separator. */
  function Split(s: string, sep: string): (parts: seq<string>)
    requires |sep| > 0
    ensures |parts| >= 1
    decreases |s|, 1
  {
    SplitAt(s, sep, Find(s, sep, 0))
  }

  /** The fields of `s` given where its first separator is, if anywhere. */
  function SplitAt(s: string, sep: string, f: Option<nat>): (parts: seq<string>)
    requires |sep| > 0 && (f.Some? ==> f.value + |sep| <= |s|)
    ensures |parts| >= 1
    decreases |s|, 0
  {
    match f
    case None => [s]
    case Some(i) => [s[..i]] + Split(s[i + |sep|..], sep)
  }

  /** Python `sep.join(parts)`. */
  function Join(parts: seq<string>, sep: string): string {
    if |parts| == 0 then ""
    else if |parts| == 1 then parts[0]
    else parts[0] + sep + Join(parts[1..], sep)
  }

  /** Joining the fields of a split with its separator restores the text. */
  lemma {:induction false} JoinSplit(s: string, sep: string)
    requires |sep| > 0
    ensures Join(Split(s, sep), sep) == s
    decreases |s|
  {
    match Find(s, sep, 0)
    case None =>
      assert Split(s, sep) == [s];
    case Some(i) =>
      JoinSplit(s[i + |sep|..], sep);
      JoinSplitStep(s, sep, i);
  }

  /** One field of `JoinSplit`: the text before the first separator, the separator, and the rest. */
  lemma JoinSplitStep(s: string, sep: string, i: nat)
    requires |sep| > 0 && i + |sep| <= |s| && Find(s, sep, 0) == Some(i)
    requires Join(Split(s[i + |sep|..], sep), sep) == s[i + |sep|..]
    ensures Join(Split(s, sep), sep) == s
  {
    var rest := s[i + |sep|..];
    var tail := Split(rest, sep);
    SplitUnfold(s, sep, i);
    JoinCons(s[..i], tail, sep);
    assert s[i..i + |sep|] == sep;
    SplitAround(s, i, |sep|);
  }

  lemma SplitAround(s: string, i: nat, n: nat)
    requires i + n <= |s|
    ensures s == s[..i] + s[i..i + n] + s[i + n..]
  {
  }

  lemma JoinCons(head: string, tail: seq<string>, sep: string)
    requires |tail| >= 1
    ensures Join([head] + tail, sep) == head + sep + Join(tail, sep)
  {
    assert ([head] + tail)[1..] == tail;
  }

  /** In `a + c + rest`, the first `c` at or after `from` is the one after `a` when `a` has none. */
  lemma {:induction false} FindAfter(a: string, c: char, rest: string, from: nat)
    requires from <= |a| && c !in a
    ensures Find(a + [c] + rest, [c], from) == Some(|a|)
    decreases |a| - from
  {
    var s := a + [c] + rest;
    if from < |a| {
      assert s[from..from + 1] == [a[from]];
      FindAfter(a, c, rest, from + 1);
    } else {
      assert s[from..from + 1] == [c];
    }
  }

  lemma NeverOccurs(s: string, c: char)
    requires c !in s
    ensures forall i: nat :: !OccursAt(s, [c], i)
  {
    forall i: nat ensures !OccursAt(s, [c], i) {
      if OccursAt(s, [c], i) {
        OccursAtChar(s, c, i);
      }
    }
  }

  lemma OccursAtChar(s: string, c: char, i: nat)
    requires OccursAt(s, [c], i)
    ensures s[i] == c
  {
    assert s[i..i + 1][0] == s[i];
  }

  /**
   * Splitting a join on a one-character separator gives back the parts,
   * when none of them contains the separator.
   */
  lemma {:induction false} SplitJoin(parts: seq<string>, c: char)
    requires |parts| >= 1
    requires forall k :: 0 <= k < |parts| ==> c !in parts[k]
    ensures Split(Join(parts, [c]), [c]) == parts
    decreases |parts|
  {
    if |parts| == 1 {
      NeverOccurs(Join(parts, [c]), c);
    } else {
      SplitJoin(parts[1..], c);
      SplitJoinStep(parts, c);
    }
  }

  /** One part of `SplitJoin`: the first part, then the split of the rest. */
  lemma SplitJoinStep(parts: seq<string>, c: char)
    requires |parts| >= 2 && c !in parts[0]
    requires Split(Join(parts[1..], [c]), [c]) == parts[1..]
    ensures Split(Join(parts, [c]), [c]) == parts
  {
    var s := Join(parts, [c]);
    var rest := Join(parts[1..], [c]);
    assert s == parts[0] + [c] + rest;
    FindAfter(parts[0], c, rest, 0);
    assert s[..|parts[0]|] == parts[0];
    assert s[|parts[0]| + 1..] == rest;
    SplitUnfold(s, [c], |parts[0]|);
    assert parts == [parts[0]] + parts[1..];
  }

  /** A split is the text before the first separator followed by the split of the text after it. */
  lemma SplitUnfold(s: string, sep: string, i: nat)
    requires |sep| > 0 && i + |sep| <= |s| && Find(s, sep, 0) == Some(i)
    ensures Split(s, sep) == [s[..i]] + Split(s[i + |sep|..], sep)
  {
    SplitAtSome(s, sep, i);
    assert Split(s, sep) == SplitAt(s, sep, Find(s, sep, 0));
  }

  lemma SplitAtSome(s: string, sep: string, i: nat)
    requires |sep| > 0 && i + |sep| <= |s|
    ensures SplitAt(s, sep, Some(i)) == [s[..i]] + Split(s[i + |sep|..], sep)
  {
  }


  /** No field of a split contains the separator. */
  lemma {:induction false} SplitFieldsFree(s: string, sep: string)
    requires |sep| > 0
    ensures forall k :: 0 <= k < |Split(s, sep)| ==> !Contains(Split(s, sep)[k], sep)
    decreases |s|
  {
    FindFirst(s, sep, 0);
    match Find(s, sep, 0)
    case None =>
      forall j: nat | OccursAt(s, sep, j) ensures false { }
    case Some(i) =>
      SplitFieldsFree(s[i + |sep|..], sep);
      SplitUnfold(s, sep, i);
      forall j: nat ensures !OccursAt(s[..i], sep, j) {
        if j + |sep| <= i {
          assert s[..i][j..j + |sep|] == s[j..j + |sep|];
          assert !OccursAt(s, sep, j);
        }
      }
      var parts := Split(s, sep);
      forall k | 0 <= k < |parts| ensures !Contains(parts[k], sep) {
        if k > 0 {
          assert parts[k] == Split(s[i + |sep|..], sep)[k - 1];
        }
      }
  }

  /** Python `s.split(sep)[k]`; `IndexError` when there are too few fields. */
  function Field(s: string, sep: string, k: nat): (r: Result<string>)
    requires |sep| > 0
    ensures r.Ok? <==> k < |Split(s, sep)|
    ensures r.Ok? ==> r.value == Split(s, sep)[k]
  {
    var parts := Split(s, sep);
    if k < |parts| then Ok(parts[k]) else Err(IndexOutOfRange)
  }

  /** Python `s.split(sep)[-1]`: never fails, because a split has a field. */
  function LastField(s: string, sep: string): (r: string)
    requires |sep| > 0
    ensures !Contains(r, sep)
  {
    SplitFieldsFree(s, sep);
    Split(s, sep)[|Split(s, sep)| - 1]
  }

  /** Python `s.split(sep)[0]`, the text before the first separator. */
  function FirstField(s: string, sep: string): (r: string)
    requires |sep| > 0
    ensures !Contains(r, sep)
    ensures |r| <= |s| && s[..|r|] == r
    ensures |r| < |s| ==> OccursAt(s, sep, |r|)
  {
    SplitFieldsFree(s, sep);
    SplitFirst(s, sep);
    Split(s, sep)[0]
  }

  /** A split has more than one field exactly when the separator occurs. */
  lemma SplitMany(s: string, sep: string)
    requires |sep| > 0
    ensures |Split(s, sep)| >= 2 <==> Find(s, sep, 0).Some?
  {
    match Find(s, sep, 0)
    case None =>
      assert Split(s, sep) == [s];
    case Some(i) =>
      SplitUnfold(s, sep, i);
  }

  /** The first field of a split runs up to the first separator, or to the end. */
  lemma SplitFirst(s: string, sep: string)
    requires |sep| > 0
    ensures var r := Split(s, sep)[0];
            |r| <= |s| && s[..|r|] == r && (|r| < |s| ==> OccursAt(s, sep, |r|))
  {
    match Find(s, sep, 0)
    case None =>
      assert Split(s, sep) == [s];
    case Some(i) =>
      SplitUnfold(s, sep, i);
  }

  // -------------------------------------------------------------------
  // Clamped slicing
  // -------------------------------------------------------------------

  /** Python `s[:n]` for n >= 0. */
  function Take(s: string, n: nat): (r: string)
    ensures |r| == if n <= |s| then n else |s|
    ensures r == s[..|r|]
  {
    if n <= |s| then s[..n] else s
  }

  /** Python `s[n:]` for n >= 0. */
  function Drop(s: string, n: nat): (r: string)
    ensures |r| == if n <= |s| then |s| - n else 0
    ensures Take(s, n) + r == s
  {
    if n <= |s| then s[n..] else ""
  }

  /** Python `s[a:b]` for 0 <= a, b. */
  function Slice(s: string, a: nat, b: nat): (r: string)
    ensures r == Drop(Take(s, b), a)
  {
    Drop(Take(s, b), a)
  }

  // -------------------------------------------------------------------
  // Decimal numbers
  // -------------------------------------------------------------------

  predicate IsDigit(c: char) {
    '0' <= c <= '9'
  }

  predicate AllDigits(s: string) {
    forall i :: 0 <= i < |s| ==> IsDigit(s[i])
  }

  function DigitValue(c: char): nat
    requires IsDigit(c)
  {
    (c as int) - ('0' as int)
  }

  function DigitChar(d: nat): (c: char)
    requires d < 10
    ensures IsDigit(c) && DigitValue(c) == d
  {
    ((d + '0' as int) as char)
  }

  /** The value of a string of decimal digits (leading zeros allowed). */
  function DigitsValue(s: string): nat
    requires AllDigits(s)
  {
    if |s| == 0 then 0 else DigitsValue(s[..|s| - 1]) * 10 + DigitValue(s[|s| - 1])
  }

  /** Python `str(n)` for n >= 0: no leading zeros, "0" for zero. */
  function NatToString(n: nat): (s: string)
    ensures |s| >= 1 && AllDigits(s)
    ensures |s| > 1 ==> s[0] != '0'
    ensures DigitsValue(s) == n
  {
    if n < 10 then [DigitChar(n)]
    else
      var r := NatToString(n / 10) + [DigitChar(n % 10)];
      assert r[..|r| - 1] == NatToString(n / 10);
      r
  }

  /** Python `str(i)` for any integer. */
  function IntToString(i: int): (s: string)
    ensures i >= 0 ==> s == NatToString(i)
    ensures i < 0 ==> s == "-" + NatToString(-i)
  {
    if i >= 0 then NatToString(i) else "-" + NatToString(-i)
  }

  /** A plain decimal digit string read as its value; anything else fails. */
  function ParseNat(s: string): (r: Result<nat>)
    ensures r.Ok? <==> |s| > 0 && AllDigits(s)
    ensures r.Ok? ==> r.value == DigitsValue(s)
  {
    if |s| > 0 && AllDigits(s) then Ok(DigitsValue(s)) else Err(BadDigits)
  }

  /** `int(str(n)) == n`. */
  lemma ParseNatToString(n: nat)
    ensures ParseNat(NatToString(n)) == Ok(n)
  {
  }

  /** Two canonical decimal strings with the same value are the same string. */
  lemma {:induction false} CanonicalDigitsUnique(s: string)
    requires |s| >= 1 && AllDigits(s) && (|s| > 1 ==> s[0] != '0')
    ensures NatToString(DigitsValue(s)) == s
    decreases |s|
  {
    var n := DigitsValue(s);
    if |s| == 1 {
      assert s[..0] == "";
      assert n == DigitValue(s[0]) < 10;
    } else {
      var init := s[..|s| - 1];
      assert init[0] == s[0];
      CanonicalDigitsUnique(init);
      LeadingDigitPositive(init);
      assert n / 10 == DigitsValue(init);
      assert n % 10 == DigitValue(s[|s| - 1]);
    }
  }

  lemma {:induction false} LeadingDigitPositive(s: string)
    requires |s| >= 1 && AllDigits(s) && s[0] != '0'
    ensures DigitsValue(s) >= 1
    decreases |s|
  {
    if |s| > 1 {
      var init := s[..|s| - 1];
      assert init[0] == s[0];
      LeadingDigitPositive(init);
    }
  }

  /** `"%02d" % n` style zero padding to `width` characters. */
  function ZeroPad(n: nat, width: nat): (s: string)
    ensures AllDigits(s) && DigitsValue(s) == n
    ensures |s| == if |NatToString(n)| >= width then |NatToString(n)| else width
  {
    var d := NatToString(n);
    if |d| >= width then d
    else
      var z := seq(width - |d|, _ => '0');
      ZerosPrefix(z, d);
      z + d
  }

  lemma {:induction false} ZerosPrefix(z: string, d: string)
    requires forall i :: 0 <= i < |z| ==> z[i] == '0'
    requires AllDigits(d)
    ensures AllDigits(z + d) && DigitsValue(z + d) == DigitsValue(d)
    decreases |d|
  {
    if |d| == 0 {
      ZerosValue(z);
      assert z + d == z;
    } else {
      var zd := z + d;
      assert zd[..|zd| - 1] == z + d[..|d| - 1];
      ZerosPrefix(z, d[..|d| - 1]);
    }
  }

  lemma {:induction false} ZerosValue(z: string)
    requires forall i :: 0 <= i < |z| ==> z[i] == '0'
    ensures AllDigits(z) && DigitsValue(z) == 0
    decreases |z|
  {
    if |z| > 0 {
      ZerosValue(z[..|z| - 1]);
    }
  }

  // -------------------------------------------------------------------
  // Ordering and sorting
  // -------------------------------------------------------------------

  /** Python `a < b` on strings: lexicographic by code point, a proper prefix first. */
  predicate StrLt(a: string, b: string)
    decreases |a|
  {
    if |a| == 0 then |b| > 0
    else if |b| == 0 then false
    else if a[0] != b[0] then a[0] < b[0]
    else StrLt(a[1..], b[1..])
  }

  predicate StrLe(a: string, b: string) {
    a == b || StrLt(a, b)
  }

  /** Any two different strings are ordered one way or the other. */
  lemma {:induction false} StrLtTotal(a: string, b: string)
    requires a != b
    ensures StrLt(a, b) || StrLt(b, a)
    decreases |a|
  {
    if |a| > 0 && |b| > 0 && a[0] == b[0] {
      assert a == [a[0]] + a[1..] && b == [b[0]] + b[1..];
      StrLtTotal(a[1..], b[1..]);
    }
  }

  lemma {:induction false} StrLtIrreflexive(a: string)
    ensures !StrLt(a, a)
    decreases |a|
  {
    if |a| > 0 {
      StrLtIrreflexive(a[1..]);
    }
  }

  /** `list.sort()` order: each entry at most the next one. */
  ghost predicate StrSorted(s: seq<string>) {
    forall i :: 0 <= i < |s| - 1 ==> StrLe(s[i], s[i + 1])
  }

  function InsertStr(x: string, s: seq<string>): (r: seq<string>)
    requires StrSorted(s)
    ensures StrSorted(r)
    ensures multiset(r) == multiset(s) + multiset{x}
    ensures |r| == |s| + 1
    ensures |r| > 0 && (r[0] == x || (|s| > 0 && r[0] == s[0]))
  {
    if |s| == 0 then [x]
    else if StrLe(x, s[0]) then [x] + s
    else
      StrLtTotal(x, s[0]);
      var rest := InsertStr(x, s[1..]);
      assert s == [s[0]] + s[1..];
      [s[0]] + rest
  }

  /** Python `sorted(names)`: the same names, in string order. */
  function SortStrings(s: seq<string>): (r: seq<string>)
    ensures StrSorted(r)
    ensures multiset(r) == multiset(s)
    ensures |r| == |s|
  {
    if |s| == 0 then []
    else
      assert s == s[..|s| - 1] + [s[|s| - 1]];
      InsertStr(s[|s| - 1], SortStrings(s[..|s| - 1]))
  }

  /** The index of the first line containing `label`. */
  function FirstWith(lines: seq<string>, pattern: string): (r: Option<nat>)
    ensures r.None? <==> forall i :: 0 <= i < |lines| ==> !Contains(lines[i], pattern)
    ensures r.Some? ==> r.value < |lines| && Contains(lines[r.value], pattern)
                        && forall i :: 0 <= i < r.value ==> !Contains(lines[i], pattern)
  {
    if |lines| == 0 then None
    else if Contains(lines[0], pattern) then Some(0)
    else
      match FirstWith(lines[1..], pattern)
      case None => None
      case Some(i) => Some(i + 1)
  }

  predicate EndsWith(s: string, suffix: string) {
    |suffix| <= |s| && s[|s| - |suffix|..] == suffix
  }

  function Pow10(k: nat): (r: nat)
    ensures r >= 1
  {
    if k == 0 then 1 else 10 * Pow10(k - 1)
  }

  /** The value of a digit string is the value of its head shifted past its tail. */
  lemma {:induction false} DigitsConcat(a: string, b: string)
    requires AllDigits(a) && AllDigits(b)
    ensures AllDigits(a + b)
    ensures DigitsValue(a + b) == DigitsValue(a) * Pow10(|b|) + DigitsValue(b)
    decreases |b|
  {
    if |b| > 0 {
      var b' := b[..|b| - 1];
      assert (a + b)[..|a + b| - 1] == a + b';
      DigitsConcat(a, b');
      assert b[..|b| - 1] == b';
      var x, p := DigitsValue(a), Pow10(|b'|);
      assert DigitsValue(a + b) == (x * p + DigitsValue(b')) * 10 + DigitValue(b[|b| - 1]);
      assert (x * p) * 10 == x * (10 * p);
    } else {
      assert a + b == a;
    }
  }

  lemma DigitsOne(s: string)
    requires |s| == 1 && AllDigits(s)
    ensures DigitsValue(s) == DigitValue(s[0])
  {
    assert s[..0] == "";
  }

  /** Two digit strings of one length with one value are the same string. */
  lemma {:induction false} DigitsInjective(s: string, t: string)
    requires |s| == |t| && AllDigits(s) && AllDigits(t)
    requires DigitsValue(s) == DigitsValue(t)
    ensures s == t
    decreases |s|
  {
    if |s| > 0 {
      var s', t' := s[..|s| - 1], t[..|t| - 1];
      assert DigitsValue(s) == DigitsValue(s') * 10 + DigitValue(s[|s| - 1]);
      assert DigitsValue(t) == DigitsValue(t') * 10 + DigitValue(t[|t| - 1]);
      DigitsInjective(s', t');
      assert s == s' + [s[|s| - 1]] && t == t' + [t[|t| - 1]];
    }
  }

  lemma Digits2(s: string)
    requires |s| == 2 && AllDigits(s)
    ensures DigitsValue(s) == 10 * DigitValue(s[0]) + DigitValue(s[1])
  {
    DigitsOne(s[..1]);
  }

  lemma Digits3(s: string)
    requires |s| == 3 && AllDigits(s)
    ensures DigitsValue(s) == 100 * DigitValue(s[0]) + 10 * DigitValue(s[1]) + DigitValue(s[2])
  {
    Digits2(s[..2]);
  }

  /** A six-digit string read as two halves of three digits. */
  lemma Digits6(s: string)
    requires |s| == 6 && AllDigits(s)
    ensures DigitsValue(s) == 1000 * DigitsValue(s[..3]) + DigitsValue(s[3..])
  {
    DigitsConcat(s[..3], s[3..]);
    assert s[..3] + s[3..] == s;
    assert Pow10(3) == 1000;
  }

  lemma Digits4(s: string)
    requires |s| == 4 && AllDigits(s)
    ensures DigitsValue(s) == 100 * DigitsValue(s[..2]) + DigitsValue(s[2..])
  {
    DigitsConcat(s[..2], s[2..]);
    assert s[..2] + s[2..] == s;
    assert Pow10(2) == 100;
  }
  /** A digit string of length `k` is worth less than `10^k`. */
  lemma {:induction false} DigitsBound(s: string)
    requires AllDigits(s)
    ensures DigitsValue(s) < Pow10(|s|)
    decreases |s|
  {
    if |s| > 0 {
      DigitsBound(s[..|s| - 1]);
    }
  }

  /** `str(n)` of a number below `10^w` has at most `w` characters. */
  lemma {:induction false} NatToStringWidth(n: nat, w: nat)
    requires w >= 1 && n < Pow10(w)
    ensures |NatToString(n)| <= w
    decreases n
  {
    if n >= 10 {
      assert w >= 2;
      assert n / 10 < Pow10(w - 1);
      NatToStringWidth(n / 10, w - 1);
    }
  }

  /** Padding a number below `10^w` to `w` characters gives exactly `w` characters. */
  lemma ZeroPadWidth(n: nat, w: nat)
    requires w >= 1 && n < Pow10(w)
    ensures |ZeroPad(n, w)| == w
  {
    NatToStringWidth(n, w);
  }

  /** Reading a digit string and padding it back to its width restores it. */
  lemma PadDigits(s: string)
    requires |s| >= 1 && AllDigits(s)
    ensures ZeroPad(DigitsValue(s), |s|) == s
  {
    DigitsBound(s);
    ZeroPadWidth(DigitsValue(s), |s|);
    DigitsInjective(ZeroPad(DigitsValue(s), |s|), s);
  }
}
