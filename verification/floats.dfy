/**
 * IEEE doubles only as far as the scripts observe them: a finite value,
 * NaN, or an infinity. Comparisons follow IEEE: every ordered comparison
 * with NaN is false and `!=` with NaN is true. Rounding is not modelled.
 */
module Floats {

  datatype F64 = Num(r: real) | NaN | Inf(negative: bool)

  /** `np.isfinite`. */
  predicate IsFinite(x: F64) { x.Num? }

  /** `x > c` for a finite constant `c`. */
  predicate Gt(x: F64, c: real) {
    match x
    case Num(r) => r > c
    case Inf(neg) => !neg
    case NaN => false
  }

  /** `x >= c`. */
  predicate Ge(x: F64, c: real) {
    match x
    case Num(r) => r >= c
    case Inf(neg) => !neg
    case NaN => false
  }

  /** `x <= c`. */
  predicate Le(x: F64, c: real) {
    match x
    case Num(r) => r <= c
    case Inf(neg) => neg
    case NaN => false
  }

  /** `x != c`: true for NaN. */
  predicate Ne(x: F64, c: real) {
    x != Num(c)
  }

  /** `x * k` for a finite positive constant `k`. */
  function Scale(x: F64, k: real): (y: F64)
    requires k > 0.0
    ensures IsFinite(y) <==> IsFinite(x)
    ensures y.Num? ==> y.r == x.r * k
  {
    match x
    case Num(r) => Num(r * k)
    case NaN => NaN
    case Inf(neg) => Inf(neg)
  }
}
