/** Facts about multiplication and Euclidean division by a positive number, shared by the
    calendar, the segmentation and the sampling. */
module Arith {

  /** A positive multiple of k is at least k. */
  lemma MulAtLeast(a: int, k: int)
    requires a >= 1 && k > 0
    ensures a * k >= k
  {
  }

  /** Multiplication distributes over subtraction. */
  lemma MulDistributes(a: int, b: int, k: int)
    ensures a * k - b * k == (a - b) * k
  {
  }

  /** Quotient and remainder of a division by a positive number are unique. */
  lemma DivModUnique(x: int, k: int, q: int, r: int)
    requires 0 < k && 0 <= r < k && x == q * k + r
    ensures x / k == q && x % k == r
  {
    var q', r' := x / k, x % k;
    assert x == q' * k + r';
    MulDistributes(q, q', k);
    if q' < q {
      MulAtLeast(q - q', k);
    } else if q' > q {
      MulAtLeast(q' - q, k);
      MulDistributes(q', q, k);
    }
  }

  /** Dividing a + 1 and a by a positive k: the quotient steps up exactly when k divides a + 1. */
  lemma DivStep(a: int, k: int)
    requires k > 0
    ensures (a + 1) / k - a / k == if (a + 1) % k == 0 then 1 else 0
  {
    var q, r := (a + 1) / k, (a + 1) % k;
    if r == 0 {
      DivModUnique(a, k, q - 1, k - 1);
    } else {
      DivModUnique(a, k, q, r - 1);
    }
  }

  /** Multiplying by a positive number keeps the order. */
  lemma MulMonotone(a: int, b: int, k: int)
    requires a <= b && k > 0
    ensures a * k <= b * k
  {
    MulDistributes(b, a, k);
    if a < b {
      MulAtLeast(b - a, k);
    }
  }

  /** Dividing by a positive number keeps the order. */
  lemma DivMonotone(a: int, b: int, k: int)
    requires a <= b && k > 0
    ensures a / k <= b / k
  {
    if a / k > b / k {
      MulMonotone(b / k + 1, a / k, k);
    }
  }
}
