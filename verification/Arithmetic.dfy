/** Quotients and remainders by a variable. */
module Arithmetic {

  lemma HalvedRemainder(a: nat, p: nat)
    requires p > 0
    ensures a % (2 * p) == 2 * (a / 2 % p) + a % 2
  {
    var q, r := a / 2 / p, a / 2 % p;
    assert a / 2 == p * q + r;
    assert a == 2 * (a / 2) + a % 2;
    assert a == (2 * p) * q + (2 * r + a % 2) by {
      assert 2 * (p * q) == (2 * p) * q;
    }
    RemainderUnique(a, 2 * p, q, 2 * r + a % 2);
  }

  lemma MultipleApart(p: int, d: int)
    requires p > 0 && d != 0
    ensures p * d >= p || p * d <= -p
  {
  }

  lemma RemainderUnique(a: int, p: int, q: int, r: int)
    requires p > 0 && a == p * q + r && 0 <= r < p
    ensures a / p == q && a % p == r
  {
    var q', r' := a / p, a % p;
    Distribute(p, q, q');
    assert p * (q - q') == r' - r;
    if q != q' {
      MultipleApart(p, q - q');
    }
  }

  lemma Distribute(p: int, x: int, y: int)
    ensures p * (x - y) == p * x - p * y
  {
  }
}
