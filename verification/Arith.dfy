/** Multiples of a variable block or page size. */
module Arith {
  lemma Monotone(x: int, y: int, b: nat)
    requires x <= y
    ensures x * b <= y * b
  {
  }

  /** Quotient and remainder are unique. */
  lemma Quotient(x: int, b: nat, q: int, r: nat)
    requires b > 0 && r < b && x == q * b + r
    ensures x / b == q && x % b == r
  {
    var k := x / b;
    assert x == k * b + x % b;
    assert (q - k) * b == x % b - r;
    if q - k >= 1 {
      Monotone(1, q - k, b);
    } else if q - k <= -1 {
      Monotone(q - k, -1, b);
    }
  }

  lemma SameQuotient(b: nat, q: int, r: nat, q': int, r': nat)
    requires b > 0 && r < b && r' < b && q * b + r == q' * b + r'
    ensures q == q' && r == r'
  {
    Quotient(q * b + r, b, q, r);
    Quotient(q * b + r, b, q', r');
  }

  lemma SameNumber(b: nat, v: nat, w: nat)
    requires b > 0 && v / b == w / b && v % b == w % b
    ensures v == w
  {
    assert v == v / b * b + v % b && w == w / b * b + w % b;
  }

  lemma MultipleOf(q: int, b: nat)
    requires b > 0
    ensures (q * b) % b == 0 && (q * b) / b == q
  {
    Quotient(q * b, b, q, 0);
  }

  lemma SumOfMultiples(x: int, y: int, b: nat)
    requires b > 0 && x % b == 0 && y % b == 0
    ensures (x + y) % b == 0 && (x - y) % b == 0
  {
    assert x + y == (x / b + y / b) * b;
    assert x - y == (x / b - y / b) * b;
    MultipleOf(x / b + y / b, b);
    MultipleOf(x / b - y / b, b);
  }
}
