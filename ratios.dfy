/** The percentages the report scripts print, as exact ratios. */
module Ratios {

  /** `part / whole * 100` */
  function Percent(part: nat, whole: nat): (r: real)
    requires whole > 0
    ensures r * (whole as real) == (part as real) * 100.0
    ensures 0.0 <= r
    ensures part <= whole ==> r <= 100.0
    ensures part == whole ==> r == 100.0
  {
    var q := part as real / whole as real;
    QuotientBounds(part as real, whole as real);
    ScaleProduct(q, whole as real, part as real);
    q * 100.0
  }

  lemma QuotientBounds(a: real, b: real)
    requires 0.0 <= a && 0.0 < b
    ensures (a / b) * b == a
    ensures 0.0 <= a / b
    ensures a <= b ==> a / b <= 1.0
    ensures a == b ==> a / b == 1.0
  {
    var q := a / b;
    assert q * b == a;
    var e := 1.0 - q;
    assert e * b == b - a;
    assert q >= 0.0 by {
      assert q * b >= 0.0;
    }
  }

  /** Scaling a quotient by 100 scales the product it forms with its divisor. */
  lemma ScaleProduct(q: real, b: real, a: real)
    requires q * b == a
    ensures (q * 100.0) * b == a * 100.0
  {
    calc {
      (q * 100.0) * b;
      (q * b) * 100.0;
      a * 100.0;
    }
  }
}
