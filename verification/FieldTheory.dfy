/**
  Fields of characteristic two, given by their operations.  The laws are stated one
  triple at a time behind the predicate `Laws`, so that a proof names exactly the
  instances it uses.
 */
module FieldTheory {

  datatype Field<!T> = Field(zero: T, one: T, add: (T, T) -> T, mul: (T, T) -> T, inv: T -> T)

  ghost predicate Laws<T(!new)>(F: Field<T>, a: T, b: T, c: T) {
    && F.zero != F.one
    && F.add(a, b) == F.add(b, a)
    && F.add(F.add(a, b), c) == F.add(a, F.add(b, c))
    && F.add(a, F.zero) == a
    && F.add(a, a) == F.zero
    && F.mul(a, b) == F.mul(b, a)
    && F.mul(F.mul(a, b), c) == F.mul(a, F.mul(b, c))
    && F.mul(a, F.one) == a
    && F.mul(a, F.zero) == F.zero
    && F.mul(a, F.add(b, c)) == F.add(F.mul(a, b), F.mul(a, c))
    && (a != F.zero ==> F.mul(a, F.inv(a)) == F.one)
  }

  ghost predicate IsField<T(!new)>(F: Field<T>) {
    forall a, b, c :: Laws(F, a, b, c)
  }

  lemma AddZero<T(!new)>(F: Field<T>, a: T)
    requires IsField(F)
    ensures F.add(a, F.zero) == a && F.add(F.zero, a) == a && F.add(a, a) == F.zero
  {
    assert Laws(F, a, F.zero, a);
  }

  lemma MulZero<T(!new)>(F: Field<T>, a: T)
    requires IsField(F)
    ensures F.mul(a, F.zero) == F.zero && F.mul(F.zero, a) == F.zero
    ensures F.mul(a, F.one) == a && F.mul(F.one, a) == a
  {
    assert Laws(F, a, F.zero, a);
    assert Laws(F, a, F.one, a);
  }

  lemma Swap4<T(!new)>(F: Field<T>, a: T, b: T, c: T, d: T)
    requires IsField(F)
    ensures F.add(F.add(a, b), F.add(c, d)) == F.add(F.add(a, c), F.add(b, d))
  {
    assert Laws(F, a, b, F.add(c, d));
    assert Laws(F, b, c, d);
    assert Laws(F, c, b, d);
    assert Laws(F, a, c, F.add(b, d));
  }

  /** a + b = 0 exactly when a = b. */
  lemma SumIsZero<T(!new)>(F: Field<T>, a: T, b: T)
    requires IsField(F)
    ensures F.add(a, b) == F.zero <==> a == b
  {
    AddZero(F, a);
    AddZero(F, b);
    assert Laws(F, a, b, b);
    if F.add(a, b) == F.zero {
      assert F.add(F.add(a, b), b) == b;
    }
  }

  lemma NoZeroDivisors<T(!new)>(F: Field<T>, a: T, b: T)
    requires IsField(F)
    ensures F.mul(a, b) == F.zero <==> a == F.zero || b == F.zero
  {
    MulZero(F, a);
    MulZero(F, b);
    if F.mul(a, b) == F.zero && a != F.zero {
      assert Laws(F, F.inv(a), a, b);
      assert Laws(F, a, F.inv(a), b);
      MulZero(F, F.inv(a));
    }
  }

  ghost function Pow<T(!new)>(F: Field<T>, x: T, n: nat): T {
    if n == 0 then F.one else F.mul(x, Pow(F, x, n - 1))
  }

  lemma {:induction false} PowAdd<T(!new)>(F: Field<T>, x: T, m: nat, n: nat)
    requires IsField(F)
    ensures Pow(F, x, m + n) == F.mul(Pow(F, x, m), Pow(F, x, n))
  {
    if m == 0 {
      MulZero(F, Pow(F, x, n));
    } else {
      PowAdd(F, x, m - 1, n);
      assert Laws(F, x, Pow(F, x, m - 1), Pow(F, x, n));
    }
  }

  lemma {:induction false} PowMul<T(!new)>(F: Field<T>, x: T, m: nat, n: nat)
    requires IsField(F)
    ensures Pow(F, x, m * n) == Pow(F, Pow(F, x, m), n)
  {
    if n == 0 {
      assert m * n == 0;
    } else {
      PowMul(F, x, m, n - 1);
      assert m * n == m + m * (n - 1);
      PowAdd(F, x, m, m * (n - 1));
    }
  }

  lemma {:induction false} PowNonzero<T(!new)>(F: Field<T>, x: T, n: nat)
    requires IsField(F) && x != F.zero
    ensures Pow(F, x, n) != F.zero
  {
    if n == 0 {
      assert Laws(F, x, x, x);
    } else {
      PowNonzero(F, x, n - 1);
      NoZeroDivisors(F, x, Pow(F, x, n - 1));
    }
  }
}
