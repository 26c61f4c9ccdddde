/** Division facts the solver does not find on its own. */
module Arithmetic {

  lemma MulNonNegative(x: nat, y: nat)
    ensures 0 <= x * y
  {
  }

  lemma Distribute(x: int, y: int, z: int)
    ensures x * (y + z) == x * y + x * z
  {
  }

  lemma Regroup(x: int, y: int, z: int)
    ensures x * (y * z) == (x * y) * z
  {
  }

  /** A product is at most another with the same positive factor exactly when it should be. */
  lemma MulOrder(g: nat, x: int, y: int)
    requires 1 <= g
    ensures x <= y <==> g * x <= g * y
    ensures x < y <==> g * x + g <= g * y
  {
    Distribute(g, x, y - x);
    if x <= y {
      MulNonNegative(g, y - x);
    }
    if y < x {
      MulNonNegative(g, x - y - 1);
      Distribute(g, y, x - y);
      Distribute(g, x - y - 1, 1);
    }
    if x < y {
      MulNonNegative(g, y - x - 1);
      Distribute(g, y - x - 1, 1);
    }
  }

  lemma LargeMultiple(d: int, n: nat)
    requires d != 0
    ensures n <= d * n || d * n <= -(n as int)
  {
    if 1 <= d {
      MulNonNegative(d - 1, n);
      assert d * n == (d - 1) * n + n;
    } else {
      MulNonNegative(-1 - d, n);
      assert d * n == -((-1 - d) * n) - n;
    }
  }

  /** A quotient and a remainder in range determine the dividend's. */
  lemma DivMod(q: int, r: nat, n: nat)
    requires r < n
    ensures (q * n + r) / n == q && (q * n + r) % n == r
  {
    var k := q * n + r;
    var d := q - k / n;
    assert d * n == q * n - (k / n) * n;
    assert k == (k / n) * n + k % n;
    if d != 0 {
      LargeMultiple(d, n);
    }
  }
}
