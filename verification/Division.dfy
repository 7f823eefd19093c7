/** Euclidean division with a divisor that is not a constant: what pins down a
    quotient and a remainder. */
module Division {

  lemma AtLeastOne(b: int, k: int)
    requires b > 0 && k >= 1
    ensures b * k >= b
  {
  }

  lemma RemainderUnique(a: int, b: int, q: int, r: int)
    requires b > 0 && 0 <= r < b && a == b * q + r
    ensures a % b == r
  {
    var p, s := a / b, a % b;
    assert a == b * p + s;
    if p > q {
      assert b * (p - q) == b * p - b * q;
      AtLeastOne(b, p - q);
    } else if p < q {
      assert b * (q - p) == b * q - b * p;
      AtLeastOne(b, q - p);
    }
  }

  lemma DivisionUnique(n: int, d: int, q: int, r: int)
    requires d > 0 && 0 <= r < d && n == d * q + r
    ensures n / d == q && n % d == r
  {
    RemainderUnique(n, d, q, r);
    assert n == d * (n / d) + r;
    SameFactor(d, n / d, q);
  }

  lemma SameFactor(d: int, a: int, b: int)
    requires d > 0 && d * a == d * b
    ensures a == b
  {
    assert d * (a - b) == 0;
  }

  lemma MultipleRemainder(q: int, d: int)
    requires d > 0
    ensures (q * d) % d == 0
  {
    RemainderUnique(q * d, d, q, 0);
  }
}
