/**
 * Integer division facts the rest of the model leans on, and the two
 * Python integer operations that differ from Dafny's: `int(x)` on a
 * negative quotient truncates toward zero, and `//` / `%` floor.
 */
module Arith {

  lemma MulMono(k: nat, x: int, y: int)
    requires x <= y
    ensures k * x <= k * y
  {
    assert k * y - k * x == k * (y - x);
  }

  /** A common non-zero factor cancels. */
  lemma MulCancel(c: nat, x: nat, y: nat)
    ensures c * x == c * y <==> c == 0 || x == y
  {
    if c != 0 && x != y {
      if x < y { MulMono(c, x + 1, y); } else { MulMono(c, y + 1, x); }
    }
  }

  lemma MulSucc(j: int, k: int)
    ensures (j + 1) * k == j * k + k
  {
  }

  /** The quotient is the unique q with k*q <= a < k*(q+1). */
  lemma DivUnique(a: int, k: nat, q: int)
    requires k > 0
    requires k * q <= a < k * (q + 1)
    ensures a / k == q
  {
    var d := a / k;
    assert a == k * d + a % k;
    if d < q {
      MulMono(k, d + 1, q);
    } else if d > q {
      MulMono(k, q + 1, d);
    }
  }

  lemma DivBounds(a: int, k: nat)
    requires k > 0
    ensures k * (a / k) <= a < k * (a / k) + k
  {
    assert a == k * (a / k) + a % k;
  }

  /** ceil(n / k) on naturals. */
  function CeilDiv(n: nat, k: nat): nat
    requires k > 0
  {
    (n + k - 1) / k
  }

  lemma CeilDivZero(k: nat)
    requires k > 0
    ensures CeilDiv(0, k) == 0
  {
    DivUnique(k - 1, k, 0);
  }

  lemma CeilDivOne(n: nat, k: nat)
    requires 0 < n <= k
    ensures CeilDiv(n, k) == 1
  {
    DivUnique(n + k - 1, k, 1);
  }

  lemma CeilDivStep(n: nat, k: nat)
    requires 0 < k < n
    ensures CeilDiv(n, k) == CeilDiv(n - k, k) + 1
  {
    var q := CeilDiv(n - k, k);
    DivBounds(n - k + k - 1, k);
    DivUnique(n + k - 1, k, q + 1);
  }

  /** ceil(n / k) is the least c with c * k >= n. */
  lemma CeilDivLeast(n: nat, k: nat)
    requires k > 0
    ensures CeilDiv(n, k) * k >= n
    ensures CeilDiv(n, k) == 0 || (CeilDiv(n, k) - 1) * k < n
  {
    DivBounds(n + k - 1, k);
  }

  function Abs(x: int): nat {
    if x >= 0 then x else -x
  }

  /**
   * Python's `int(a / b)`: the quotient truncated toward zero. It is the
   * largest magnitude m with m * |b| <= |a|, signed like a / b.
   */
  function TruncDiv(a: int, b: int): (q: int)
    requires b != 0
    ensures Abs(q) * Abs(b) <= Abs(a) < Abs(q) * Abs(b) + Abs(b)
    ensures q > 0 ==> (a > 0) == (b > 0)
    ensures q < 0 ==> (a > 0) != (b > 0)
    ensures q == 0 <==> Abs(a) < Abs(b)
  {
    var aa, bb := Abs(a), Abs(b);
    var m := aa / bb;
    DivBounds(aa, bb);
    assert m >= 0 by {
      if m < 0 { MulMono(bb, m, -1); }
    }
    assert m == 0 <==> aa < bb by {
      if aa < bb { DivUnique(aa, bb, 0); }
      if m > 0 { MulMono(bb, 1, m); }
    }
    if (a >= 0) == (b > 0) then m else -m
  }
}
