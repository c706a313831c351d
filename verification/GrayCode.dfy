/** Gray labels of the levels of one dimension: both conversions, and the reflection that the slicer folds along. */
module GrayCode {
  import Arithmetic
  import opened BitReversal

  predicate Odd(n: nat) {
    n % 2 == 1
  }

  /** The number with upper bits h and lowest bit b. */
  function Join(h: nat, b: bool): nat {
    2 * h + (if b then 1 else 0)
  }

  /** Bitwise exclusive or. */
  function Xor(a: nat, b: nat): nat
    decreases a + b
  {
    if a == 0 && b == 0 then 0 else Join(Xor(a / 2, b / 2), Odd(a) != Odd(b))
  }

  /** Bit j of n, counted from the least significant. */
  predicate Bit(n: nat, j: nat)
    decreases j
  {
    if j == 0 then Odd(n) else Bit(n / 2, j - 1)
  }

  function ToGray(n: nat): nat {
    Xor(n, n / 2)
  }

  /** Each bit is the parity of the label's bits from there up. */
  function FromGray(g: nat): nat {
    if g == 0 then 0 else Join(FromGray(g / 2), Odd(g) != Odd(FromGray(g / 2)))
  }

  lemma JoinParts(h: nat, b: bool, n: nat)
    ensures Join(h, b) / 2 == h && (Odd(Join(h, b)) <==> b)
    ensures n == Join(n / 2, Odd(n))
  {}

  lemma SameParts(a: nat, b: nat)
    requires a / 2 == b / 2 && (Odd(a) <==> Odd(b))
    ensures a == b
  {}

  lemma XorStep(a: nat, b: nat)
    ensures Xor(a, b) / 2 == Xor(a / 2, b / 2) && (Odd(Xor(a, b)) <==> Odd(a) != Odd(b))
  {
    hide Join, Odd;
    if a == 0 && b == 0 {
      ZeroIsEven();
    } else {
      JoinParts(Xor(a / 2, b / 2), Odd(a) != Odd(b), 0);
    }
  }

  lemma ZeroIsEven()
    ensures !Odd(0) && 0 / 2 == 0
  {}

  lemma {:induction false} XorZero(a: nat)
    ensures Xor(a, 0) == a
  {
    hide Odd, Xor;
    if a == 0 {
      XorOfZeros();
    } else {
      XorZero(a / 2);
      XorStep(a, 0);
      ZeroIsEven();
      SameParts(Xor(a, 0), a);
    }
  }

  lemma XorOfZeros()
    ensures Xor(0, 0) == 0
  {}

  lemma {:induction false} XorAssoc(a: nat, b: nat, c: nat)
    ensures Xor(Xor(a, b), c) == Xor(a, Xor(b, c))
    decreases a + b + c
  {
    hide Odd, Xor;
    if a + b + c == 0 {
      XorOfZeros();
    } else {
      XorAssoc(a / 2, b / 2, c / 2);
      XorStep(a, b);
      XorStep(b, c);
      XorStep(Xor(a, b), c);
      XorStep(a, Xor(b, c));
      SameParts(Xor(Xor(a, b), c), Xor(a, Xor(b, c)));
    }
  }

  lemma FromGrayStep(g: nat)
    ensures FromGray(g) / 2 == FromGray(g / 2) && (Odd(FromGray(g)) <==> Odd(g) != Odd(FromGray(g / 2)))
  {
    hide Join, Odd;
    if g == 0 {
      ZeroIsEven();
    } else {
      JoinParts(FromGray(g / 2), Odd(g) != Odd(FromGray(g / 2)), 0);
    }
  }

  lemma FromGrayZero()
    ensures FromGray(0) == 0
  {}

  lemma {:induction false} FromGrayUnfolds(g: nat)
    ensures FromGray(g) == Xor(g, FromGray(g / 2))
  {
    hide Odd, Xor, FromGray;
    if g == 0 {
      FromGrayZero();
      XorOfZeros();
    } else {
      FromGrayUnfolds(g / 2);
      FromGrayStep(g);
      FromGrayStep(g / 2);
      XorStep(g, FromGray(g / 2));
      SameParts(FromGray(g), Xor(g, FromGray(g / 2)));
    }
  }

  lemma {:induction false} ToGrayInverts(g: nat)
    ensures ToGray(FromGray(g)) == g
  {
    hide Odd, Xor, FromGray;
    if g == 0 {
      FromGrayZero();
      XorOfZeros();
    } else {
      ToGrayInverts(g / 2);
      FromGrayStep(g);
      FromGrayStep(g / 2);
      XorStep(FromGray(g), FromGray(g / 2));
      SameParts(ToGray(FromGray(g)), g);
    }
  }

  lemma {:induction false} FromGrayInverts(n: nat)
    ensures FromGray(ToGray(n)) == n
  {
    hide Odd, Xor, FromGray;
    if n == 0 {
      FromGrayZero();
      XorOfZeros();
    } else {
      FromGrayInverts(n / 2);
      XorStep(n, n / 2);
      FromGrayStep(ToGray(n));
      SameParts(FromGray(ToGray(n)), n);
    }
  }

  method ComputeFromGray(g: nat) returns (n: nat)
    ensures n == FromGray(g)
  {
    hide Xor, FromGray;
    n := g;
    var mask: nat := n / 2;
    FromGrayUnfolds(g);
    while mask != 0
      invariant Xor(n, FromGray(mask)) == FromGray(g)
      decreases mask
    {
      FromGrayUnfolds(mask);
      XorAssoc(n, mask, FromGray(mask / 2));
      n := Xor(n, mask);
      mask := mask / 2;
    }
    XorZero(n);
    FromGrayZero();
  }

  // ---------- Bits of labels ----------

  lemma {:induction false} XorBit(a: nat, b: nat, j: nat)
    ensures Bit(Xor(a, b), j) <==> Bit(a, j) != Bit(b, j)
    decreases j
  {
    hide Odd, Xor;
    XorStep(a, b);
    if j > 0 {
      XorBit(a / 2, b / 2, j - 1);
    }
  }

  lemma GrayBit(n: nat, j: nat)
    ensures Bit(ToGray(n), j) <==> Bit(n, j) != Bit(n, j + 1)
  {
    XorBit(n, n / 2, j);
  }

  lemma {:induction false} ComplementBit(k: nat, n: nat, j: nat)
    requires n < Pow2(k) && j < k
    ensures Bit(Pow2(k) - 1 - n, j) <==> !Bit(n, j)
    decreases j
  {
    hide Odd;
    ComplementParts(Pow2(k - 1), n);
    if j > 0 {
      ComplementBit(k - 1, n / 2, j - 1);
    }
  }

  lemma ComplementParts(p: nat, n: nat)
    requires n < 2 * p
    ensures var c := 2 * p - 1 - n; (Odd(c) <==> !Odd(n)) && c / 2 == p - 1 - n / 2
  {}

  lemma {:induction false} TopBit(k: nat, n: nat)
    requires n < Pow2(k + 1)
    ensures Bit(n, k) <==> n >= Pow2(k)
    ensures !Bit(n, k + 1)
    decreases k
  {
    if k > 0 {
      TopBit(k - 1, n / 2);
    }
  }

  /** The top bit of a label tells the half; the other bits are the same at mirrored levels. */
  lemma Reflection(k: nat, n: nat)
    requires n < Pow2(k + 1)
    ensures Bit(ToGray(n), k) <==> n >= Pow2(k)
    ensures forall j :: 0 <= j < k ==> (Bit(ToGray(Pow2(k + 1) - 1 - n), j) <==> Bit(ToGray(n), j))
  {
    TopBit(k, n);
    GrayBit(n, k);
    forall j | 0 <= j < k
      ensures Bit(ToGray(Pow2(k + 1) - 1 - n), j) <==> Bit(ToGray(n), j)
    {
      GrayBit(n, j);
      GrayBit(Pow2(k + 1) - 1 - n, j);
      ComplementBit(k + 1, n, j);
      ComplementBit(k + 1, n, j + 1);
    }
  }

  /** Labels and levels have the same number of bits. */
  lemma {:induction false} FromGrayBound(k: nat, g: nat)
    ensures g < Pow2(k) <==> FromGray(g) < Pow2(k)
    decreases k
  {
    FromGrayStep(g);
    if k == 0 {
      if g > 0 {
        FromGrayPositive(g);
      }
    } else {
      FromGrayBound(k - 1, g / 2);
    }
  }

  lemma {:induction false} FromGrayPositive(g: nat)
    requires g > 0
    ensures FromGray(g) > 0
  {
    if g / 2 > 0 {
      FromGrayPositive(g / 2);
    }
  }

  function Upper(i: nat, p: nat): nat
    requires p > 0
  {
    i / p
  }

  function Lower(i: nat, p: nat): nat
    requires p > 0
  {
    i % p
  }

  /** The bits of a label made of two k-bit halves. */
  lemma {:induction false} UpperBit(k: nat, i: nat, j: nat)
    ensures Bit(i, j + k) <==> Bit(Upper(i, Pow2(k)), j)
    decreases k
  {
    hide Odd;
    if k > 0 {
      HalvingQuotient(i, Pow2(k - 1));
      UpperBit(k - 1, i / 2, j);
    }
  }

  lemma {:induction false} LowerBit(k: nat, i: nat, j: nat)
    requires j < k
    ensures Bit(i, j) <==> Bit(Lower(i, Pow2(k)), j)
    decreases k
  {
    hide Odd;
    HalvingQuotient(i, Pow2(k - 1));
    SameHalf(i / 2 % Pow2(k - 1), i);
    if j > 0 {
      LowerBit(k - 1, i / 2, j - 1);
    }
  }

  lemma SameHalf(h: nat, i: nat)
    ensures (2 * h + i % 2) / 2 == h && (Odd(2 * h + i % 2) <==> Odd(i))
  {}

  lemma HalvingQuotient(i: nat, p: nat)
    requires p > 0
    ensures i / (2 * p) == i / 2 / p
    ensures i % (2 * p) == 2 * (i / 2 % p) + i % 2
  {
    var q, r := i / 2 / p, i / 2 % p;
    assert i / 2 == q * p + r;
    assert i == q * (2 * p) + (2 * r + i % 2);
    Arithmetic.DivModUnique(i, 2 * p, q, 2 * r + i % 2);
  }
}
