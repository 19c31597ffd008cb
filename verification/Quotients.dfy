/** Facts about products and quotients of variables. */
module Quotients {

  lemma MulGrows(d: int, b: nat)
    requires d != 0
    ensures d * b >= b || d * b + b <= 0
  {
    if d > 0 {
      assert (d - 1) * b >= 0;
    } else {
      assert (-1 - d) * b >= 0;
    }
  }

  lemma MulMonotone(a: nat, a': nat, b: nat)
    requires a <= a'
    ensures 0 <= a * b <= a' * b
  {
    Distribute(a', a, b);
    assert (a' - a) * b >= 0;
  }

  lemma Distribute(x: int, y: int, b: int)
    ensures (x - y) * b == x * b - y * b && (x + y) * b == x * b + y * b
  {
  }

  lemma Recompose(a: int, b: nat)
    requires b > 0
    ensures a == a / b * b + a % b && 0 <= a % b < b
  {
  }

  lemma SmallMultiple(d: int, b: nat)
    requires 0 < d * b + b && d * b < b
    ensures d == 0
  {
    if d != 0 {
      MulGrows(d, b);
    }
  }

  /** Quotient and remainder are unique. */
  lemma QuotientIs(a: int, b: nat, q: int, r: int)
    requires b > 0 && 0 <= r < b && a == q * b + r
    ensures a / b == q && a % b == r
  {
    Recompose(a, b);
    Distribute(q, a / b, b);
    SmallMultiple(q - a / b, b);
  }

  lemma QuotientOfSum(q: int, m: nat, z: int)
    requires m > 0
    ensures (q * m + z) / m == q + z / m && (q * m + z) % m == z % m
  {
    Recompose(z, m);
    Distribute(q, z / m, m);
    QuotientIs(q * m + z, m, q + z / m, z % m);
  }

  lemma QuotientMonotone(a: int, b: int, m: nat)
    requires m > 0 && a <= b
    ensures a / m <= b / m
  {
    Recompose(a, m);
    Recompose(b, m);
    Distribute(a / m, b / m, m);
    if a / m > b / m {
      MulGrows(a / m - b / m, m);
      MulMonotone(0, a / m - b / m, m);
      assert false;
    }
  }

  lemma SmallQuotient(a: nat, b: nat)
    requires b > 0
    ensures 0 <= a / b <= a
  {
    var q := a / b;
    Recompose(a, b);
    if q > a {
      MulMonotone(1, b, q);
      assert false;
    }
  }
}
