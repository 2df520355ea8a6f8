/** Facts about integer division by a positive, non-constant divisor that
    the solver does not find by itself. Dafny's `/` and `%` are Euclidean,
    which for the non-negative operands used here agrees with `Math.floor`
    of the quotient and with Python's `//` and `%`. */
module Arithmetic {
  lemma MulBelowOne(d: int, k: int)
    requires d > 0 && d * k < d
    ensures k <= 0
  {
  }

  lemma MulAboveMinusOne(d: int, k: int)
    requires d > 0 && d * k > -d
    ensures k >= 0
  {
  }

  /** Quotient and remainder are the only such pair. */
  lemma DivModUnique(x: int, d: int, q: int, r: int)
    requires d > 0 && 0 <= r < d && x == d * q + r
    ensures x / d == q && x % d == r
  {
    var q', r' := x / d, x % d;
    assert x == d * q' + r';
    assert d * (q' - q) == d * q' - d * q;
    MulBelowOne(d, q' - q);
    MulAboveMinusOne(d, q' - q);
  }

  lemma DivMonotone(x: int, y: int, d: int)
    requires d > 0 && x <= y
    ensures x / d <= y / d
  {
    var qx, qy := x / d, y / d;
    assert x == d * qx + x % d && y == d * qy + y % d;
    assert d * (qx - qy) == d * qx - d * qy;
    MulBelowOne(d, qx - qy);
  }

  /** Counting up by one: the remainder steps up, or wraps to 0 and the
      quotient steps up. */
  lemma DivModStep(i: int, d: int)
    requires d > 0
    ensures i % d == d - 1 ==> (i + 1) / d == i / d + 1 && (i + 1) % d == 0
    ensures i % d < d - 1 ==> (i + 1) / d == i / d && (i + 1) % d == i % d + 1
  {
    var q, r := i / d, i % d;
    assert i == d * q + r;
    if r == d - 1 {
      assert i + 1 == d * (q + 1) + 0;
      DivModUnique(i + 1, d, q + 1, 0);
    } else {
      DivModUnique(i + 1, d, q, r + 1);
    }
  }
}
