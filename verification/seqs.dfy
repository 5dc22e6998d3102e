/**
 * The numpy array idioms the repository repeats in every campaign script,
 * stated on Dafny sequences: stride slicing `a[::k]`, boolean-mask
 * selection `a[mask]`, fancy indexing `a[perm]`, `np.repeat`, `np.tile`,
 * and `np.argsort` of a time column.
 */
module Seqs {

  import opened Arith
  import opened Wrappers

  /** `s[::k]`: the elements at positions 0, k, 2k, ... */
  function Stride<T>(s: seq<T>, k: nat): (r: seq<T>)
    requires k > 0
    ensures |r| == CeilDiv(|s|, k)
    decreases |s|
  {
    if |s| == 0 then
      CeilDivZero(k);
      []
    else if |s| <= k then
      CeilDivOne(|s|, k);
      [s[0]]
    else
      CeilDivStep(|s|, k);
      [s[0]] + Stride(s[k..], k)
  }

  /** The i-th element of `s[::k]` is `s[i * k]`. */
  lemma {:induction false} StrideAt<T>(s: seq<T>, k: nat, i: nat)
    requires k > 0 && i < |Stride(s, k)|
    ensures i * k < |s| && Stride(s, k)[i] == s[i * k]
    decreases |s|
  {
    if i > 0 {
      assert |s| > k;
      CeilDivStep(|s|, k);
      StrideAt(s[k..], k, i - 1);
      MulSucc(i - 1, k);
    }
  }

  lemma StrideIndex<T>(s: seq<T>, k: nat)
    requires k > 0
    ensures forall i :: 0 <= i < |Stride(s, k)| ==> i * k < |s| && Stride(s, k)[i] == s[i * k]
  {
    forall i | 0 <= i < |Stride(s, k)| ensures i * k < |s| && Stride(s, k)[i] == s[i * k] {
      StrideAt(s, k, i);
    }
  }

  /** Python's clamped `s[a:b]` for non-negative bounds. */
  function PySlice<T>(s: seq<T>, a: nat, b: nat): (r: seq<T>)
    ensures |r| == if a < b && a < |s| then (if b <= |s| then b else |s|) - a else 0
    ensures forall i :: 0 <= i < |r| ==> r[i] == s[a + i]
  {
    var hi := if b <= |s| then b else |s|;
    if a < hi then s[a..hi] else []
  }

  /** `s[::-1]`. */
  function Reverse<T>(s: seq<T>): (r: seq<T>)
    ensures |r| == |s|
    ensures forall i :: 0 <= i < |s| ==> r[i] == s[|s| - 1 - i]
  {
    seq(|s|, i requires 0 <= i < |s| => s[|s| - 1 - i])
  }

  lemma ReverseInit<T>(s: seq<T>)
    requires |s| > 0
    ensures Reverse(s) == [s[|s| - 1]] + Reverse(s[..|s| - 1])
  {
  }

  /** The first true position of a mask, if any. */
  function FirstTrue(b: seq<bool>): (r: Option<nat>)
    ensures r.None? <==> forall i :: 0 <= i < |b| ==> !b[i]
    ensures r.Some? ==> r.value < |b| && b[r.value] && forall j :: 0 <= j < r.value ==> !b[j]
  {
    if |b| == 0 then None
    else if b[0] then Some(0)
    else
      match FirstTrue(b[1..])
      case None => None
      case Some(k) => Some(k + 1)
  }

  /** `np.argmax` of a boolean array: the first true position, 0 when there is none. */
  function ArgMax(b: seq<bool>): (k: nat)
    ensures |b| > 0 ==> k < |b|
    ensures FirstTrue(b).Some? ==> k == FirstTrue(b).value
    ensures FirstTrue(b).None? ==> k == 0
  {
    match FirstTrue(b)
    case None => 0
    case Some(k) => k
  }

  /** Every index moved up by d. */
  function Offset(xs: seq<nat>, d: nat): (ys: seq<nat>)
    ensures |ys| == |xs|
    ensures forall j :: 0 <= j < |xs| ==> ys[j] == xs[j] + d
  {
    seq(|xs|, j requires 0 <= j < |xs| => xs[j] + d)
  }

  lemma ShiftAppend(a: seq<nat>, b: seq<nat>)
    ensures Shift(a + b) == Shift(a) + Shift(b)
  {
  }

  lemma ShiftOffset(x: seq<nat>, d: nat)
    ensures Shift(Offset(x, d)) == Offset(x, d + 1)
  {
  }

  /** The kept positions of a concatenation: those of the left part, then those of the right part moved past it. */
  lemma {:induction false} KeptAppend(m1: seq<bool>, m2: seq<bool>)
    ensures Kept(m1 + m2) == Kept(m1) + Offset(Kept(m2), |m1|)
    decreases |m1|
  {
    if |m1| == 0 {
      assert m1 + m2 == m2;
      assert Offset(Kept(m2), 0) == Kept(m2);
    } else {
      var t := m1[1..];
      var head: seq<nat> := if m1[0] then [0] else [];
      assert (m1 + m2)[1..] == t + m2;
      calc {
        Kept(m1 + m2);
        head + Shift(Kept(t + m2));
        { KeptAppend(t, m2); }
        head + Shift(Kept(t) + Offset(Kept(m2), |t|));
        { ShiftAppend(Kept(t), Offset(Kept(m2), |t|)); }
        head + (Shift(Kept(t)) + Shift(Offset(Kept(m2), |t|)));
        { ShiftOffset(Kept(m2), |t|); }
        head + (Shift(Kept(t)) + Offset(Kept(m2), |m1|));
        (head + Shift(Kept(t))) + Offset(Kept(m2), |m1|);
        Kept(m1) + Offset(Kept(m2), |m1|);
      }
    }
  }

  /** Keeping one more entry appends its position when it is set. */
  lemma KeptSnoc(m: seq<bool>, b: bool)
    ensures Kept(m + [b]) == if b then Kept(m) + [|m|] else Kept(m)
  {
    KeptAppend(m, [b]);
    assert [b][1..] == [];
    assert Kept([b]) == if b then [0] else [];
    assert Offset([0], |m|) == [|m|];
  }

  /** The positions kept from a prefix one entry longer. */
  lemma KeptStep(m: seq<bool>, k: nat)
    requires k < |m|
    ensures Kept(m[..k + 1]) == if m[k] then Kept(m[..k]) + [k] else Kept(m[..k])
  {
    KeptSnoc(m[..k], m[k]);
    assert m[..k + 1] == m[..k] + [m[k]];
  }

  lemma {:induction false} KeptNone(m: seq<bool>)
    requires forall i :: 0 <= i < |m| ==> !m[i]
    ensures Kept(m) == []
  {
    if |m| > 0 {
      KeptNone(m[1..]);
    }
  }

  /**
   * A mask that is false outside `[a, b)` keeps the positions its window
   * keeps, moved up by a.
   */
  lemma KeptWindow(m: seq<bool>, a: nat, b: nat)
    requires a <= b <= |m|
    requires forall i :: 0 <= i < |m| && (i < a || b <= i) ==> !m[i]
    ensures Kept(m) == Offset(Kept(m[a..b]), a)
  {
    KeptFalseSuffix(m, b);
    KeptFalsePrefix(m[..b], a);
    assert m[..b][a..] == m[a..b];
  }

  /** Unset entries at the end add nothing. */
  lemma KeptFalseSuffix(m: seq<bool>, b: nat)
    requires b <= |m|
    requires forall i :: b <= i < |m| ==> !m[i]
    ensures Kept(m) == Kept(m[..b])
  {
    var post := m[b..];
    assert forall i :: 0 <= i < |post| ==> !post[i] by {
      forall i | 0 <= i < |post| ensures !post[i] { assert post[i] == m[b + i]; }
    }
    KeptNone(post);
    assert m == m[..b] + post;
    KeptAppend(m[..b], post);
  }

  /** Unset entries at the front only move the kept positions up. */
  lemma KeptFalsePrefix(m: seq<bool>, a: nat)
    requires a <= |m|
    requires forall i :: 0 <= i < a ==> !m[i]
    ensures Kept(m) == Offset(Kept(m[a..]), a)
  {
    var pre := m[..a];
    assert forall i :: 0 <= i < |pre| ==> !pre[i] by {
      forall i | 0 <= i < |pre| ensures !pre[i] { assert pre[i] == m[i]; }
    }
    KeptNone(pre);
    assert m == pre + m[a..];
    KeptAppend(pre, m[a..]);
  }

  /** Number of true entries of a mask. */
  function Count(mask: seq<bool>): (n: nat)
    ensures n <= |mask|
  {
    if |mask| == 0 then 0 else (if mask[0] then 1 else 0) + Count(mask[1..])
  }

  /** A mask that keeps everything keeps `|mask|` elements. */
  lemma {:induction false} CountAll(mask: seq<bool>)
    requires forall i :: 0 <= i < |mask| ==> mask[i]
    ensures Count(mask) == |mask|
  {
    if |mask| > 0 {
      CountAll(mask[1..]);
    }
  }

  function Shift(xs: seq<nat>): (ys: seq<nat>)
    ensures |ys| == |xs|
    ensures forall j :: 0 <= j < |xs| ==> ys[j] == xs[j] + 1
  {
    seq(|xs|, j requires 0 <= j < |xs| => xs[j] + 1)
  }

  /** The positions a mask keeps, in increasing order. */
  function Kept(mask: seq<bool>): (idx: seq<nat>)
    ensures |idx| == Count(mask)
    ensures forall j :: 0 <= j < |idx| ==> idx[j] < |mask| && mask[idx[j]]
  {
    if |mask| == 0 then []
    else
      var rest := Shift(Kept(mask[1..]));
      if mask[0] then [0] + rest else rest
  }

  lemma {:induction false} KeptIncreasing(mask: seq<bool>)
    ensures forall a, b :: 0 <= a < b < |Kept(mask)| ==> Kept(mask)[a] < Kept(mask)[b]
  {
    if |mask| > 0 {
      KeptIncreasing(mask[1..]);
    }
  }

  lemma {:induction false} KeptComplete(mask: seq<bool>, i: nat)
    requires i < |mask| && mask[i]
    ensures i in Kept(mask)
  {
    if i > 0 {
      KeptComplete(mask[1..], i - 1);
      var rest := Kept(mask[1..]);
      var j :| 0 <= j < |rest| && rest[j] == i - 1;
      assert Shift(rest)[j] == i;
      if mask[0] {
        assert Kept(mask)[j + 1] == i;
      } else {
        assert Kept(mask)[j] == i;
      }
    }
  }

  /** `s[mask]` for a boolean mask of the same length. */
  function Select<T>(s: seq<T>, mask: seq<bool>): (r: seq<T>)
    requires |s| == |mask|
    ensures |r| == Count(mask)
  {
    if |s| == 0 then []
    else (if mask[0] then [s[0]] else []) + Select(s[1..], mask[1..])
  }

  /** Selection keeps exactly the masked positions, in their original order. */
  lemma {:induction false} SelectIsKept<T>(s: seq<T>, mask: seq<bool>)
    requires |s| == |mask|
    ensures forall j :: 0 <= j < Count(mask) ==> Select(s, mask)[j] == s[Kept(mask)[j]]
    decreases |s|
  {
    if |s| > 0 {
      SelectIsKept(s[1..], mask[1..]);
      forall j | 0 <= j < Count(mask)
        ensures Select(s, mask)[j] == s[Kept(mask)[j]]
      {
        if mask[0] {
          if j > 0 {
            assert Select(s, mask)[j] == Select(s[1..], mask[1..])[j - 1];
          }
        } else {
          assert Select(s, mask)[j] == Select(s[1..], mask[1..])[j];
        }
      }
    }
  }

  /**
   * The mask over `s` that a second mask `m2`, taken over the elements
   * `m1` kept, amounts to: false where `m1` drops, `m2`'s entry where it keeps.
   */
  function Spread(m1: seq<bool>, m2: seq<bool>): (m: seq<bool>)
    requires |m2| == Count(m1)
    ensures |m| == |m1|
    decreases |m1|
  {
    if |m1| == 0 then []
    else if m1[0] then [m2[0]] + Spread(m1[1..], m2[1..])
    else [false] + Spread(m1[1..], m2)
  }

  /** Where the first mask drops, the spread mask drops too. */
  lemma {:induction false} SpreadOff(m1: seq<bool>, m2: seq<bool>, k: nat)
    requires |m2| == Count(m1) && k < |m1| && !m1[k]
    ensures !Spread(m1, m2)[k]
    decreases |m1|
  {
    if k > 0 {
      if m1[0] {
        SpreadOff(m1[1..], m2[1..], k - 1);
      } else {
        SpreadOff(m1[1..], m2, k - 1);
      }
    }
  }

  /** The `i`-th kept position carries the second mask's `i`-th entry. */
  lemma {:induction false} SpreadAt(m1: seq<bool>, m2: seq<bool>, i: nat)
    requires |m2| == Count(m1) && i < Count(m1)
    ensures Kept(m1)[i] < |m1| && Spread(m1, m2)[Kept(m1)[i]] == m2[i]
    decreases |m1|
  {
    var rest := Shift(Kept(m1[1..]));
    if m1[0] {
      assert Kept(m1) == [0] + rest;
      if i > 0 {
        SpreadAt(m1[1..], m2[1..], i - 1);
        assert Kept(m1)[i] == rest[i - 1];
      }
    } else {
      assert Kept(m1) == rest;
      SpreadAt(m1[1..], m2, i);
    }
  }

  /** Selecting twice is selecting once with the spread mask. */
  lemma {:induction false} SelectSelect<T>(s: seq<T>, m1: seq<bool>, m2: seq<bool>)
    requires |s| == |m1| && |m2| == Count(m1)
    ensures Select(Select(s, m1), m2) == Select(s, Spread(m1, m2))
    decreases |s|
  {
    if |s| > 0 {
      var x := Select(s[1..], m1[1..]);
      if m1[0] {
        SelectSelect(s[1..], m1[1..], m2[1..]);
        var y := Select(s, m1);
        assert y == [s[0]] + x;
        assert y[0] == s[0] && y[1..] == x;
        var sp := Spread(m1, m2);
        assert sp[0] == m2[0] && sp[1..] == Spread(m1[1..], m2[1..]);
        assert Select(y, m2) == (if m2[0] then [s[0]] else []) + Select(x, m2[1..]);
        assert Select(s, sp) == (if m2[0] then [s[0]] else []) + Select(s[1..], sp[1..]);
      } else {
        SelectSelect(s[1..], m1[1..], m2);
        assert Select(s, m1) == x;
        var sp := Spread(m1, m2);
        assert !sp[0] && sp[1..] == Spread(m1[1..], m2);
        assert Select(s, sp) == Select(s[1..], sp[1..]);
      }
    }
  }

  /**
   * Selection keeps exactly the masked elements: each selected element is
   * a masked element of `s`, and each masked element is selected.
   */
  lemma SelectMembers<T>(s: seq<T>, mask: seq<bool>)
    requires |s| == |mask|
    ensures forall x :: x in Select(s, mask) ==> exists i :: 0 <= i < |s| && mask[i] && x == s[i]
    ensures forall i :: 0 <= i < |s| && mask[i] ==> s[i] in Select(s, mask)
  {
    SelectIsKept(s, mask);
    forall x | x in Select(s, mask) ensures exists i :: 0 <= i < |s| && mask[i] && x == s[i] {
      var j :| 0 <= j < |Select(s, mask)| && Select(s, mask)[j] == x;
      var i := Kept(mask)[j];
      assert 0 <= i < |s| && mask[i] && x == s[i];
    }
    forall i | 0 <= i < |s| && mask[i] ensures s[i] in Select(s, mask) {
      KeptComplete(mask, i);
      var j :| 0 <= j < |Kept(mask)| && Kept(mask)[j] == i;
      assert Select(s, mask)[j] == s[i];
    }
  }

  /** Positions in strictly increasing order. */
  predicate Ascending(idx: seq<nat>) {
    forall a, b :: 0 <= a < b < |idx| ==> idx[a] < idx[b]
  }

  /**
   * Selection is the subsequence of `s` at the masked positions: one
   * element per kept position, in order, and a position is kept exactly
   * when its mask is set.
   */
  lemma SelectInOrder<T>(s: seq<T>, mask: seq<bool>)
    requires |s| == |mask|
    ensures |Select(s, mask)| == |Kept(mask)|
    ensures forall j :: 0 <= j < |Kept(mask)| ==> Kept(mask)[j] < |s| && Select(s, mask)[j] == s[Kept(mask)[j]]
    ensures Ascending(Kept(mask))
    ensures forall i :: 0 <= i < |s| ==> (i in Kept(mask) <==> mask[i])
  {
    SelectIsKept(s, mask);
    KeptIncreasing(mask);
    forall i | 0 <= i < |s| && mask[i] ensures i in Kept(mask) {
      KeptComplete(mask, i);
    }
  }

  /** A predicate applied element-wise: the boolean Series a comparison yields. */
  function MaskWhere<T>(s: seq<T>, p: T -> bool): (mask: seq<bool>)
    ensures |mask| == |s|
    ensures forall i :: 0 <= i < |s| ==> mask[i] == p(s[i])
  {
    seq(|s|, i requires 0 <= i < |s| => p(s[i]))
  }

  /** Element-wise conjunction of masks, `np.logical_and(a, b)`. */
  function And(a: seq<bool>, b: seq<bool>): (r: seq<bool>)
    requires |a| == |b|
    ensures |r| == |a|
    ensures forall i :: 0 <= i < |a| ==> r[i] == (a[i] && b[i])
  {
    seq(|a|, i requires 0 <= i < |a| => a[i] && b[i])
  }

  /** `s[perm]`: fancy indexing with an index array. */
  function Gather<T>(s: seq<T>, perm: seq<nat>): (r: seq<T>)
    requires forall i :: 0 <= i < |perm| ==> perm[i] < |s|
    ensures |r| == |perm|
    ensures forall i :: 0 <= i < |perm| ==> r[i] == s[perm[i]]
  {
    seq(|perm|, i requires 0 <= i < |perm| => s[perm[i]])
  }

  /** 0, 1, ..., n-1. */
  function Range(n: nat): (r: seq<nat>)
    ensures |r| == n
    ensures forall i :: 0 <= i < n ==> r[i] == i
  {
    seq(n, i requires 0 <= i < n => i)
  }

  ghost predicate IsPermutation(p: seq<nat>, n: nat) {
    multiset(p) == multiset(Range(n))
  }

  lemma PermutationBounded(p: seq<nat>, n: nat)
    requires IsPermutation(p, n)
    ensures |p| == n
    ensures forall i :: 0 <= i < |p| ==> p[i] < n
  {
    assert |p| == |multiset(p)| == |multiset(Range(n))| == n;
    forall i | 0 <= i < |p| ensures p[i] < n {
      assert p[i] in multiset(p);
      assert p[i] in multiset(Range(n));
      assert p[i] in Range(n);
    }
  }

  /** `np.repeat(s, n)`: every element n times in a row. */
  function Repeat<T>(s: seq<T>, n: nat): (r: seq<T>)
    ensures |r| == |s| * n
    ensures forall i :: 0 <= i < |r| ==> n > 0 && r[i] == s[i / n]
  {
    if n == 0 then []
    else
      seq(|s| * n, i requires 0 <= i < |s| * n =>
        assert i / n < |s| by { DivBelow(i, n, |s|); }
        s[i / n])
  }

  /** `np.tile(s, n)`: the whole of s, n times over. */
  function Tile<T>(s: seq<T>, n: nat): (r: seq<T>)
    ensures |r| == |s| * n
    ensures forall i :: 0 <= i < |r| ==> |s| > 0 && r[i] == s[i % |s|]
  {
    if |s| == 0 then []
    else
      seq(|s| * n, i requires 0 <= i < |s| * n => s[i % |s|])
  }

  lemma DivBelow(i: nat, n: nat, m: nat)
    requires n > 0 && i < m * n
    ensures i / n < m
  {
    DivBounds(i, n);
    if i / n >= m {
      MulMono(n, m, i / n);
    }
  }

  // ---------------------------------------------------------------------
  // np.argsort of a key column, as a stable insertion sort on indices.
  // ---------------------------------------------------------------------

  ghost predicate SortedBy(p: seq<nat>, key: seq<int>)
    requires forall i :: 0 <= i < |p| ==> p[i] < |key|
  {
    forall a, b :: 0 <= a < b < |p| ==> key[p[a]] <= key[p[b]]
  }

  ghost predicate Sorted(s: seq<int>) {
    forall a, b :: 0 <= a < b < |s| ==> s[a] <= s[b]
  }

  /** A key no larger than every key of a sorted sequence can go in front of it. */
  lemma ConsSorted(h: nat, rest: seq<nat>, key: seq<int>)
    requires h < |key| && forall i :: 0 <= i < |rest| ==> rest[i] < |key|
    requires SortedBy(rest, key)
    requires forall i :: 0 <= i < |rest| ==> key[h] <= key[rest[i]]
    ensures SortedBy([h] + rest, key)
  {
    var r := [h] + rest;
    forall a, b | 0 <= a < b < |r| ensures key[r[a]] <= key[r[b]] {
      assert r[b] == rest[b - 1];
      if a > 0 {
        assert r[a] == rest[a - 1];
      }
    }
  }

  /** Every entry of a multiset-extended sequence is the new entry or an old one. */
  lemma MemberOfExtended(r: seq<nat>, p: seq<nat>, x: nat, i: nat)
    requires multiset(r) == multiset(p) + multiset{x}
    requires i < |r| && r[i] != x
    ensures exists j :: 0 <= j < |p| && p[j] == r[i]
  {
    assert r[i] in multiset(r);
    assert r[i] in multiset(p);
  }

  /** What goes behind the head of a sorted sequence, with x added, stays above the head. */
  lemma BehindHead(x: nat, p: seq<nat>, rest: seq<nat>, key: seq<int>)
    requires |p| > 0 && x < |key| && forall i :: 0 <= i < |p| ==> p[i] < |key|
    requires SortedBy(p, key) && key[p[0]] < key[x]
    requires forall i :: 0 <= i < |rest| ==> rest[i] < |key|
    requires multiset(rest) == multiset(p[1..]) + multiset{x}
    ensures forall i :: 0 <= i < |rest| ==> key[p[0]] <= key[rest[i]]
  {
    var tail := p[1..];
    forall i | 0 <= i < |rest| ensures key[p[0]] <= key[rest[i]] {
      if rest[i] != x {
        MemberOfExtended(rest, tail, x, i);
        var j :| 0 <= j < |tail| && tail[j] == rest[i];
        assert p[j + 1] == rest[i];
      }
    }
  }

  function Insert(x: nat, p: seq<nat>, key: seq<int>): (r: seq<nat>)
    requires x < |key|
    requires forall i :: 0 <= i < |p| ==> p[i] < |key|
    requires SortedBy(p, key)
    ensures forall i :: 0 <= i < |r| ==> r[i] < |key|
    ensures multiset(r) == multiset(p) + multiset{x}
    ensures SortedBy(r, key)
  {
    if |p| == 0 then [x]
    else if key[x] <= key[p[0]] then
      ConsSorted(x, p, key);
      [x] + p
    else
      var rest := Insert(x, p[1..], key);
      assert p == [p[0]] + p[1..];
      BehindHead(x, p, rest, key);
      ConsSorted(p[0], rest, key);
      [p[0]] + rest
  }

  /** The first n indices sorted by key. */
  function SortPrefix(n: nat, key: seq<int>): (p: seq<nat>)
    requires n <= |key|
    ensures forall i :: 0 <= i < |p| ==> p[i] < |key|
    ensures multiset(p) == multiset(Range(n))
    ensures SortedBy(p, key)
  {
    if n == 0 then []
    else
      RangeSnoc(n);
      Insert(n - 1, SortPrefix(n - 1, key), key)
  }

  lemma RangeSnoc(n: nat)
    requires n > 0
    ensures multiset(Range(n)) == multiset(Range(n - 1)) + multiset{(n - 1) as nat}
  {
    assert Range(n) == Range(n - 1) + [n - 1];
  }

  /**
   * `np.argsort(key)`: a permutation of the row indices under which the key
   * is non-decreasing. numpy's default sort is not stable; the model fixes
   * the stable order, one of the orders numpy may return.
   */
  function ArgSort(key: seq<int>): (p: seq<nat>)
    ensures IsPermutation(p, |key|)
    ensures forall i :: 0 <= i < |p| ==> p[i] < |key|
    ensures SortedBy(p, key)
  {
    SortPrefix(|key|, key)
  }

  /**
   * A loop that stops at the first failing step: all the values when
   * every step succeeds, otherwise the first failure.
   */
  function AllOk<T>(rs: seq<Result<T>>): (r: Result<seq<T>>)
    ensures r.Ok? <==> forall i :: 0 <= i < |rs| ==> rs[i].Ok?
    ensures r.Ok? ==> |r.value| == |rs| && forall i :: 0 <= i < |rs| ==> rs[i] == Ok(r.value[i])
    ensures r.Err? ==> exists i :: 0 <= i < |rs| && rs[i] == Err(r.error) && forall j :: 0 <= j < i ==> rs[j].Ok?
  {
    if |rs| == 0 then Ok([])
    else if rs[0].Err? then Err(rs[0].error)
    else
      var rest := AllOk(rs[1..]);
      if rest.Err? then
        var i :| 0 <= i < |rs[1..]| && rs[1..][i] == Err(rest.error) && forall j :: 0 <= j < i ==> rs[1..][j].Ok?;
        assert rs[i + 1] == Err(rest.error);
        Err(rest.error)
      else
        var r := [rs[0].value] + rest.value;
        assert forall i :: 1 <= i < |rs| ==> rs[i] == rs[1..][i - 1];
        Ok(r)
  }

  /** The concatenation of a list of lists. */
  function Flatten<T>(gs: seq<seq<T>>): (r: seq<T>)
  {
    if |gs| == 0 then [] else gs[0] + Flatten(gs[1..])
  }
}
