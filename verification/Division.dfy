/**
 Quotients and remainders by a divisor that is not a constant.
 */
module Division {

  lemma Multiples(d: nat, p: int, q: int)
    requires p < q
    ensures d * p + d <= d * q
  {
    var e := q - p - 1;
    assert d * q == d * p + d + d * e;
    assert d * e >= 0;
  }

  /** A number is determined by its quotient and its remainder. */
  lemma RemainderIs(x: nat, d: nat, q: int, r: nat)
    requires d > 0 && x == d * q + r && r < d
    ensures x % d == r
  {
    var p := x / d;
    assert x == d * p + x % d;
    if p < q {
      Multiples(d, p, q);
    } else if q < p {
      Multiples(d, q, p);
    }
  }
}
