/** Masking with one less than a power of two. */
module BitMasks {
  import opened BitReversal
  import opened GrayCode

  /** Bitwise and. */
  function And(a: nat, b: nat): nat
    decreases a + b
  {
    if a == 0 && b == 0 then 0 else Join(And(a / 2, b / 2), Odd(a) && Odd(b))
  }

  lemma AndStep(a: nat, b: nat)
    ensures And(a, b) / 2 == And(a / 2, b / 2) && (Odd(And(a, b)) <==> Odd(a) && Odd(b))
  {
    hide Join, Odd;
    if a == 0 && b == 0 {
      ZeroIsEven();
    } else {
      JoinParts(And(a / 2, b / 2), Odd(a) && Odd(b), 0);
    }
  }

  lemma {:induction false} AndZero(a: nat)
    ensures And(a, 0) == 0
  {
    hide Odd, And;
    AndStep(a, 0);
    ZeroIsEven();
    if a > 0 {
      AndZero(a / 2);
      SameParts(And(a, 0), 0);
    } else {
      AndOfZeros();
    }
  }

  lemma AndOfZeros()
    ensures And(0, 0) == 0
  {}

  /** Masking is the remainder. */
  lemma {:induction false} MaskIsModulo(k: nat, i: nat)
    ensures And(i, Pow2(k) - 1) == i % Pow2(k)
    decreases k
  {
    hide Odd, And, Pow2;
    if k == 0 {
      PowerZero();
      AndZero(i);
    } else {
      PowerNext(k - 1);
      MaskIsModulo(k - 1, i / 2);
      MaskStep(i, Pow2(k - 1));
    }
  }

  lemma MaskStep(i: nat, p: nat)
    requires p > 0 && And(i / 2, p - 1) == i / 2 % p
    ensures And(i, 2 * p - 1) == i % (2 * p)
  {
    hide Odd, And;
    AndStep(i, 2 * p - 1);
    OnesParts(p);
    ModParts(i, p);
    SameParts(And(i, 2 * p - 1), i % (2 * p));
  }

  lemma ModParts(i: nat, p: nat)
    requires p > 0
    ensures i % (2 * p) / 2 == i / 2 % p && (Odd(i % (2 * p)) <==> Odd(i))
  {
    hide Odd;
    HalvingQuotient(i, p);
    SameHalf(i / 2 % p, i);
  }

  lemma PowerZero()
    ensures Pow2(0) == 1 && forall i: nat :: i % 1 == 0
  {}

  lemma PowerNext(k: nat)
    ensures Pow2(k + 1) == 2 * Pow2(k)
  {}

  lemma OnesParts(p: nat)
    requires p > 0
    ensures (2 * p - 1) / 2 == p - 1 && Odd(2 * p - 1)
  {}

  /** The source's test n & (n - 1) == 0 for a power of two. */
  predicate IsPowerOfTwo(n: nat) {
    n > 0 && And(n, n - 1) == 0
  }

  lemma {:induction false} AndSelf(a: nat)
    ensures And(a, a) == a
  {
    hide Odd, And;
    AndStep(a, a);
    if a > 0 {
      AndSelf(a / 2);
      SameParts(And(a, a), a);
    } else {
      AndOfZeros();
    }
  }

  /** The test accepts nothing but powers of two. */
  lemma {:induction false} TestFindsPower(n: nat) returns (k: nat)
    requires IsPowerOfTwo(n)
    ensures n == Pow2(k)
  {
    AndStep(n, n - 1);
    if n == 1 {
      k := 0;
    } else if n % 2 == 0 {
      assert (n - 1) / 2 == n / 2 - 1;
      k := TestFindsPower(n / 2);
      k := k + 1;
    } else {
      AndSelf(n / 2);
      assert false;
    }
  }

  lemma {:induction false} TestAcceptsPower(k: nat)
    ensures IsPowerOfTwo(Pow2(k))
  {
    if k > 0 {
      TestAcceptsPower(k - 1);
      AndStep(Pow2(k), Pow2(k) - 1);
      OnesParts(Pow2(k - 1));
      SameParts(And(Pow2(k), Pow2(k) - 1), 0);
    } else {
      AndZero(1);
    }
  }

  /** The test accepts exactly the powers of two. */
  lemma TestIsExact(n: nat)
    ensures IsPowerOfTwo(n) <==> exists k: nat :: n == Pow2(k)
  {
    hide And;
    if IsPowerOfTwo(n) {
      var k := TestFindsPower(n);
    }
    if k: nat :| n == Pow2(k) {
      TestAcceptsPower(k);
    }
  }

  /** For a number that passes the test, masking with one less is the remainder. */
  lemma MaskOfPower(n: nat, i: nat)
    requires IsPowerOfTwo(n)
    ensures And(i, n - 1) == i % n
  {
    hide And;
    var k := TestFindsPower(n);
    MaskIsModulo(k, i);
  }
}
