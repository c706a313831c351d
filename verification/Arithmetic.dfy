/** Facts about products, quotients and remainders that the solver does not find on its own. */
module Arithmetic {

  lemma MulGrows(p: nat, e: int)
    ensures e >= 1 ==> p * e >= p
    ensures e <= -1 ==> p * e + p <= 0
  {
    if e >= 1 {
      assert p * e >= p * 1;
    } else if e <= -1 {
      assert p * e <= p * -1;
    }
  }

  /** A quotient and a remainder in range are the quotient and the remainder. */
  lemma DivModUnique(x: nat, b: nat, q: nat, r: nat)
    requires b > 0 && x == q * b + r && r < b
    ensures x / b == q && x % b == r
  {
    var e := q - x / b;
    assert b * e == x % b - r;
    MulGrows(b, e);
  }

  /** x is position r of block q exactly when q and r are its quotient and remainder. */
  lemma Locate(x: nat, b: nat, q: nat, r: nat)
    requires b > 0 && r < b
    ensures x == q * b + r <==> x / b == q && x % b == r
  {
    assert x == (x / b) * b + x % b;
    if x == q * b + r {
      DivModUnique(x, b, q, r);
    }
  }

  lemma MulMono(c: nat, b: nat, m: nat)
    ensures c <= b ==> c * m <= b * m
  {}

  lemma NextMultiple(b: nat, m: nat)
    ensures (b + 1) * m == b * m + m
  {}

  lemma MultipleMod(p: nat, k: nat)
    requires p > 0
    ensures (p * k) % p == 0
  {
    DivModUnique(p * k, p, k, 0);
  }
}
