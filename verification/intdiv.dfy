/**
 Go's integer division on signed operands truncates toward zero, whereas
 Dafny's `/` is Euclidean. `Quot` is Go's `a / b` for a positive divisor.
 */
module IntDiv {

  /** The quotient of `a / b` rounded toward zero; the remainder keeps the sign of `a`. */
  function Quot(a: int, b: int): (q: int)
    requires b > 0
    ensures a >= 0 ==> 0 <= a - q * b < b
    ensures a < 0 ==> -b < a - q * b <= 0
  {
    if a >= 0 then a / b else -((-a) / b)
  }

  lemma MulMonotonic(x: int, y: int, b: int)
    requires x <= y && b > 0
    ensures x * b <= y * b
  {
    assert y * b - x * b == (y - x) * b;
  }

  lemma DivMonotonic(a: int, a': int, b: int)
    requires b > 0 && a <= a'
    ensures a / b <= a' / b
  {
    var q, q' := a / b, a' / b;
    assert a == b * q + a % b && a' == b * q' + a' % b;
    if q > q' {
      MulMonotonic(q' + 1, q, b);
    }
  }

  /** Truncating division preserves order. */
  lemma QuotMonotonic(a: int, a': int, b: int)
    requires b > 0 && a <= a'
    ensures Quot(a, b) <= Quot(a', b)
  {
    if a >= 0 {
      DivMonotonic(a, a', b);
    } else if a' < 0 {
      DivMonotonic(-a', -a, b);
    } else {
      DivMonotonic(0, -a, b);
      DivMonotonic(0, a', b);
    }
  }
}
