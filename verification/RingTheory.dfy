/** Commutative rings, given by their operations, with the laws stated one triple at a time. */
module RingTheory {

  datatype Ring<!T> = Ring(zero: T, one: T, add: (T, T) -> T, neg: T -> T, mul: (T, T) -> T)

  ghost predicate Laws<T(!new)>(R: Ring<T>, a: T, b: T, c: T) {
    && R.add(a, b) == R.add(b, a)
    && R.add(R.add(a, b), c) == R.add(a, R.add(b, c))
    && R.add(a, R.zero) == a
    && R.add(a, R.neg(a)) == R.zero
    && R.mul(a, b) == R.mul(b, a)
    && R.mul(R.mul(a, b), c) == R.mul(a, R.mul(b, c))
    && R.mul(a, R.one) == a
    && R.mul(a, R.add(b, c)) == R.add(R.mul(a, b), R.mul(a, c))
  }

  ghost predicate IsRing<T(!new)>(R: Ring<T>) {
    forall a, b, c :: Laws(R, a, b, c)
  }

  lemma Zero<T(!new)>(R: Ring<T>, a: T)
    requires IsRing(R)
    ensures R.add(a, R.zero) == a && R.add(R.zero, a) == a
    ensures R.mul(a, R.zero) == R.zero && R.mul(R.zero, a) == R.zero
    ensures R.mul(a, R.one) == a && R.mul(R.one, a) == a
  {
    assert Laws(R, a, R.zero, R.zero);
    assert Laws(R, R.zero, a, a);
    assert Laws(R, R.one, a, a);
    var z := R.mul(a, R.zero);
    assert Laws(R, R.zero, R.zero, R.zero);
    assert z == R.add(z, z);
    assert Laws(R, z, z, R.neg(z));
    assert Laws(R, z, R.zero, R.zero);
  }

  /** Anything that sums with a to zero is the negative of a. */
  lemma NegUnique<T(!new)>(R: Ring<T>, a: T, b: T)
    requires IsRing(R) && R.add(a, b) == R.zero
    ensures b == R.neg(a)
  {
    var n := R.neg(a);
    assert Laws(R, n, a, b);
    assert Laws(R, a, b, n);
    Zero(R, n);
    Zero(R, b);
  }

  lemma NegMul<T(!new)>(R: Ring<T>, a: T, b: T)
    requires IsRing(R)
    ensures R.mul(R.neg(a), b) == R.neg(R.mul(a, b))
  {
    assert Laws(R, b, a, R.neg(a));
    assert Laws(R, a, b, b);
    assert Laws(R, R.neg(a), b, b);
    Zero(R, b);
    NegUnique(R, R.mul(a, b), R.mul(R.neg(a), b));
  }

  lemma Swap4<T(!new)>(R: Ring<T>, a: T, b: T, c: T, d: T)
    requires IsRing(R)
    ensures R.add(R.add(a, b), R.add(c, d)) == R.add(R.add(a, c), R.add(b, d))
  {
    assert Laws(R, a, b, R.add(c, d));
    assert Laws(R, b, c, d);
    assert Laws(R, c, b, d);
    assert Laws(R, a, c, R.add(b, d));
  }

  ghost function Pow<T(!new)>(R: Ring<T>, x: T, n: nat): T {
    if n == 0 then R.one else R.mul(x, Pow(R, x, n - 1))
  }

  lemma {:induction false} PowAdd<T(!new)>(R: Ring<T>, x: T, m: nat, n: nat)
    requires IsRing(R)
    ensures Pow(R, x, m + n) == R.mul(Pow(R, x, m), Pow(R, x, n))
  {
    if m == 0 {
      Zero(R, Pow(R, x, n));
    } else {
      PowAdd(R, x, m - 1, n);
      assert Laws(R, x, Pow(R, x, m - 1), Pow(R, x, n));
    }
  }

  lemma {:induction false} PowMul<T(!new)>(R: Ring<T>, x: T, m: nat, n: nat)
    requires IsRing(R)
    ensures Pow(R, x, m * n) == Pow(R, Pow(R, x, m), n)
  {
    if n == 0 {
      assert m * n == 0;
    } else {
      PowMul(R, x, m, n - 1);
      assert m * n == m + m * (n - 1);
      PowAdd(R, x, m, m * (n - 1));
    }
  }

  lemma {:induction false} PowOfProduct<T(!new)>(R: Ring<T>, x: T, y: T, n: nat)
    requires IsRing(R)
    ensures Pow(R, R.mul(x, y), n) == R.mul(Pow(R, x, n), Pow(R, y, n))
  {
    if n == 0 {
      Zero(R, R.one);
    } else {
      PowOfProduct(R, x, y, n - 1);
      var p, q := Pow(R, x, n - 1), Pow(R, y, n - 1);
      assert Laws(R, x, y, R.mul(p, q));
      assert Laws(R, y, p, q);
      assert Laws(R, p, y, q);
      assert Laws(R, x, p, R.mul(y, q));
    }
  }

  lemma {:induction false} PowOne<T(!new)>(R: Ring<T>, n: nat)
    requires IsRing(R)
    ensures Pow(R, R.one, n) == R.one
  {
    if n > 0 {
      PowOne(R, n - 1);
      Zero(R, R.one);
    }
  }

  /** x[0] + x[1] y + x[2] y^2 + ... */
  ghost function PolyEval<T(!new)>(R: Ring<T>, x: seq<T>, y: T): T {
    if |x| == 0 then R.zero else R.add(x[0], R.mul(y, PolyEval(R, x[1..], y)))
  }
}
