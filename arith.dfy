/** Facts about integer multiplication and division that the solver does not find alone. */
module Arith {
  lemma MulMonotone(a: int, b: int, c: nat)
    requires a <= b
    ensures a * c <= b * c
  {
    var d := b - a;
    assert b * c == a * c + d * c;
    assert d * c >= 0;
  }

  lemma DivIsUnique(x: int, c: int, q: int)
    requires c > 0 && q * c <= x < (q + 1) * c
    ensures x / c == q
  {
    var q0, r0 := x / c, x % c;
    assert x == q0 * c + r0 && 0 <= r0 < c;
    if q0 < q {
      assert (q0 + 1) * c == q0 * c + c;
      MulMonotone(q0 + 1, q, c);
    } else if q0 > q {
      assert (q + 1) * c == q * c + c;
      MulMonotone(q + 1, q0, c);
    }
  }

  lemma DivMonotone(x: int, y: int, c: int)
    requires c > 0 && x <= y
    ensures x / c <= y / c
  {
    var qx, qy := x / c, y / c;
    assert x == qx * c + x % c && 0 <= x % c;
    assert y == qy * c + y % c && y % c < c;
    assert qx * c <= x <= y < (qy + 1) * c;
    assert (qy + 1) * c == qy * c + c;
    MulMonotoneStrict(qx, qy + 1, c);
  }

  /** If a * c < b * c for positive c then a < b. */
  lemma MulMonotoneStrict(a: int, b: int, c: int)
    requires c > 0 && a * c < b * c
    ensures a < b
  {
    if b <= a {
      MulMonotone(b, a, c);
    }
  }

  /** Quotient and remainder are determined by any split of x into q * c + r with 0 <= r < c. */
  lemma DivModIsUnique(x: int, c: int, q: int, r: int)
    requires c > 0 && x == q * c + r && 0 <= r < c
    ensures x / c == q && x % c == r
  {
    assert (q + 1) * c == q * c + c;
    DivIsUnique(x, c, q);
  }
}
