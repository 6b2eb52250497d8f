/** Facts about products and quotients whose factors are both variables. */
module Quotients {
  lemma Product(d: int, b: int)
    requires b >= 0
    ensures d > 0 ==> d * b >= b
    ensures d < 0 ==> d * b <= -b
    ensures d >= 0 ==> d * b >= 0
  {
    if d > 0 {
      assert (d - 1) * b >= 0;
    } else if d < 0 {
      assert (-d - 1) * b >= 0;
    }
  }

  lemma Distribute(x: int, y: int, p: int)
    ensures (x - y) * p == x * p - y * p
    ensures (x + y) * p == x * p + y * p
  {
  }

  lemma Division(a: int, b: int)
    requires b > 0
    ensures a == a / b * b + a % b && 0 <= a % b < b
  {
  }

  lemma QuotientIs(a: int, b: int, q: int, m: int)
    requires 0 <= m < b && a == q * b + m
    ensures a / b == q
  {
    Division(a, b);
    Distribute(a / b, q, b);
    Product(a / b - q, b);
  }

  lemma QuotientMonotone(a: int, b: int, p: int)
    requires a <= b && p > 0
    ensures a / p <= b / p
  {
    Division(a, p);
    Division(b, p);
    Distribute(a / p, b / p, p);
    Product(a / p - b / p, p);
  }

  lemma QuotientRange(a: nat, b: nat)
    requires b > 0
    ensures 0 <= a / b <= a
    ensures a / b >= 1 <==> b <= a
  {
    Division(a, b);
    Product(a / b, b);
    if a / b > 0 {
      Product(b, a / b);
    }
  }

  lemma ProductMonotone(a: int, b: int, c: int)
    requires a >= 0 && b <= c
    ensures a * b <= a * c
  {
    Product(c - b, a);
    assert a * (c - b) == a * c - a * b;
  }
}
