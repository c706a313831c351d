/**
  The powers of alpha: alpha has order exactly 65535 = 3 * 5 * 17 * 257, so its powers
  are all the nonzero field elements.  Logarithms, inverses and the field laws follow.
 */
module GaloisOrder {
  import opened GaloisField
  import opened FieldTheory
  import opened Arithmetic

  function Alpha(n: nat): GF {
    if n == 0 then GF(1) else Xtime(Alpha(n - 1))
  }

  lemma {:induction false} AlphaAdd(m: nat, n: nat)
    ensures Alpha(m + n) == Mul(Alpha(m), Alpha(n))
  {
    hide Xtime, Mul;
    if n == 0 {
      MulUnits(Alpha(m));
    } else {
      AlphaAdd(m, n - 1);
      MulXtime(Alpha(m), Alpha(n - 1));
    }
  }

  // ---------- Evaluating products of constants ----------

  function HornerStep(h: GF, bit: bool, a: GF): GF {
    var t := h.v >> 15;
    GF((h.v << 1) ^ t ^ (t << 1) ^ (t << 3) ^ (t << 12) ^ (if bit then a.v else 0))
  }

  function HornerNibble(h: GF, b: GF, a: GF): GF {
    var upper := HornerStep(HornerStep(h, b.v & 8 != 0, a), b.v & 4 != 0, a);
    HornerStep(HornerStep(upper, b.v & 2 != 0, a), b.v & 1 != 0, a)
  }

  function Shift4(b: GF): GF {
    GF(b.v >> 4)
  }

  function Product(a: GF, b: GF): GF {
    var c, d, e := Shift4(b), Shift4(Shift4(b)), Shift4(Shift4(Shift4(b)));
    HornerNibble(HornerNibble(HornerNibble(HornerNibble(GF(0), e, a), d, a), c, a), b, a)
  }

  lemma StepParts(h: GF, b: GF, a: GF)
    ensures Add(Xtime(h), Sel(b, a)) == HornerStep(h, Odd(b), a)
  {}

  lemma StepIs(k: nat, a: GF, b: GF)
    ensures MulBits(k + 1, a, b) == HornerStep(MulBits(k, a, Half(b)), Odd(b), a)
  {
    hide Add, Xtime, Sel, HornerStep, Odd, Half;
    StepParts(MulBits(k, a, Half(b)), b, a);
  }

  lemma LowMasks(b: GF)
    ensures b.v & 1 != 0 <==> Odd(b)
    ensures b.v & 2 != 0 <==> Odd(Half(b))
    ensures b.v & 4 != 0 <==> Odd(Half(Half(b)))
    ensures b.v & 8 != 0 <==> Odd(Half(Half(Half(b))))
  {}

  lemma HalfFour(b: GF)
    ensures Half(Half(Half(Half(b)))) == Shift4(b)
  {}

  lemma Shift4Ends(b: GF)
    ensures Shift4(Shift4(Shift4(Shift4(b)))) == GF(0)
  {}

  lemma NibbleIs(k: nat, a: GF, b: GF)
    ensures MulBits(k + 4, a, b) == HornerNibble(MulBits(k, a, Shift4(b)), b, a)
  {
    hide HornerStep, Odd, Half, MulBits, Shift4;
    var b1, b2, b3 := Half(b), Half(Half(b)), Half(Half(Half(b)));
    LowMasks(b);
    HalfFour(b);
    StepIs(k, a, b3);
    StepIs(k + 1, a, b2);
    StepIs(k + 2, a, b1);
    StepIs(k + 3, a, b);
  }

  lemma MulNoBits(a: GF)
    ensures MulBits(0, a, GF(0)) == GF(0)
  {}

  lemma ProductIsMul(a: GF, b: GF)
    ensures Mul(a, b) == Product(a, b)
  {
    hide HornerNibble, MulBits, Shift4;
    MulNoBits(a);
    Shift4Ends(b);
    NibbleIs(12, a, b);
    NibbleIs(8, a, Shift4(b));
    NibbleIs(4, a, Shift4(Shift4(b)));
    NibbleIs(0, a, Shift4(Shift4(Shift4(b))));
  }

  lemma AlphaProduct(m: nat, n: nat, x: bv16, y: bv16, z: bv16)
    requires Alpha(m) == GF(x) && Alpha(n) == GF(y)
    requires Product(GF(x), GF(y)) == GF(z)
    ensures Alpha(m + n) == GF(z)
  {
    hide Product, Mul, Alpha;
    AlphaAdd(m, n);
    ProductIsMul(GF(x), GF(y));
  }

  // Powers of alpha by repeated squaring, up to the quotients of 65535 by its prime factors.

  lemma PowersUpTo15()
    ensures Alpha(3) == GF(0x0008)
    ensures Alpha(5) == GF(0x0020)
    ensures Alpha(10) == GF(0x0400)
    ensures Alpha(15) == GF(0x8000)
  {
    assert Alpha(1) == Xtime(Alpha(0));
    AlphaProduct(1, 1, 0x0002, 0x0002, 0x0004);
    AlphaProduct(1, 2, 0x0002, 0x0004, 0x0008);
    AlphaProduct(2, 3, 0x0004, 0x0008, 0x0020);
    AlphaProduct(5, 5, 0x0020, 0x0020, 0x0400);
    AlphaProduct(5, 10, 0x0020, 0x0400, 0x8000);
  }

  lemma PowersUpTo255()
    ensures Alpha(240) == GF(0x6B65)
    ensures Alpha(255) == GF(0x8D92)
  {
    PowersUpTo15();
    AlphaProduct(15, 15, 0x8000, 0x8000, 0x8EFA);
    AlphaProduct(30, 30, 0x8EFA, 0x8EFA, 0xC9C5);
    AlphaProduct(60, 60, 0xC9C5, 0xC9C5, 0x27B7);
    AlphaProduct(120, 120, 0x27B7, 0x27B7, 0x6B65);
    AlphaProduct(15, 240, 0x8000, 0x6B65, 0x8D92);
  }

  lemma PowersUpTo3855()
    ensures Alpha(3840) == GF(0x8BE8)
    ensures Alpha(3855) == GF(0x4D78)
  {
    PowersUpTo255();
    PowersUpTo15();
    AlphaProduct(240, 240, 0x6B65, 0x6B65, 0xC38D);
    AlphaProduct(480, 480, 0xC38D, 0xC38D, 0x3537);
    AlphaProduct(960, 960, 0x3537, 0x3537, 0x70F2);
    AlphaProduct(1920, 1920, 0x70F2, 0x70F2, 0x8BE8);
    AlphaProduct(15, 3840, 0x8000, 0x8BE8, 0x4D78);
  }

  lemma PowersUpTo51()
    ensures Alpha(3) == GF(0x0008)
    ensures Alpha(48) == GF(0x4C35)
    ensures Alpha(51) == GF(0x41BE)
  {
    PowersUpTo15();
    AlphaProduct(3, 3, 0x0008, 0x0008, 0x0040);
    AlphaProduct(6, 6, 0x0040, 0x0040, 0x1000);
    AlphaProduct(12, 12, 0x1000, 0x1000, 0x1BBB);
    AlphaProduct(24, 24, 0x1BBB, 0x1BBB, 0x4C35);
    AlphaProduct(3, 48, 0x0008, 0x4C35, 0x41BE);
  }

  lemma PowersUpTo816()
    ensures Alpha(51) == GF(0x41BE)
    ensures Alpha(816) == GF(0xB72A)
  {
    PowersUpTo51();
    AlphaProduct(51, 51, 0x41BE, 0x41BE, 0xFEE4);
    AlphaProduct(102, 102, 0xFEE4, 0xFEE4, 0x167D);
    AlphaProduct(204, 204, 0x167D, 0x167D, 0x5E7D);
    AlphaProduct(408, 408, 0x5E7D, 0x5E7D, 0xB72A);
  }

  lemma PowersUpTo13107()
    ensures Alpha(13107) == GF(0x1CE8)
  {
    PowersUpTo816();
    AlphaProduct(816, 816, 0xB72A, 0xB72A, 0xBF75);
    AlphaProduct(1632, 1632, 0xBF75, 0xBF75, 0xECCC);
    AlphaProduct(3264, 3264, 0xECCC, 0xECCC, 0x49AA);
    AlphaProduct(6528, 6528, 0x49AA, 0x49AA, 0xBD18);
    AlphaProduct(51, 13056, 0x41BE, 0xBD18, 0x1CE8);
  }

  lemma PowersUpTo85()
    ensures Alpha(5) == GF(0x0020)
    ensures Alpha(80) == GF(0xF72F)
    ensures Alpha(85) == GF(0x1539)
  {
    PowersUpTo15();
    AlphaProduct(10, 10, 0x0400, 0x0400, 0x10BB);
    AlphaProduct(20, 20, 0x10BB, 0x10BB, 0x5EFE);
    AlphaProduct(40, 40, 0x5EFE, 0x5EFE, 0xF72F);
    AlphaProduct(5, 80, 0x0020, 0xF72F, 0x1539);
  }

  lemma PowersUpTo1360()
    ensures Alpha(85) == GF(0x1539)
    ensures Alpha(1360) == GF(0x42B7)
  {
    PowersUpTo85();
    AlphaProduct(85, 85, 0x1539, 0x1539, 0x1E4A);
    AlphaProduct(170, 170, 0x1E4A, 0x1E4A, 0x1984);
    AlphaProduct(340, 340, 0x1984, 0x1984, 0x094C);
    AlphaProduct(680, 680, 0x094C, 0x094C, 0x42B7);
  }

  lemma PowersUpTo21845()
    ensures Alpha(21845) == GF(0x015E)
  {
    PowersUpTo1360();
    AlphaProduct(1360, 1360, 0x42B7, 0x42B7, 0xAE82);
    AlphaProduct(2720, 2720, 0xAE82, 0xAE82, 0xB269);
    AlphaProduct(5440, 5440, 0xB269, 0xB269, 0xAFC0);
    AlphaProduct(10880, 10880, 0xAFC0, 0xAFC0, 0xB266);
    AlphaProduct(85, 21760, 0x1539, 0xB266, 0x015E);
  }

  lemma PowersUpTo65535()
    ensures Alpha(65535) == GF(0x0001)
  {
    PowersUpTo21845();
    AlphaProduct(21845, 21845, 0x015E, 0x015E, 0x015F);
    AlphaProduct(21845, 43690, 0x015E, 0x015F, 0x0001);
  }

  // ---------- The order of alpha ----------

  ghost predicate Prime(p: nat) {
    p > 1 && forall r :: 1 < r < p ==> p % r != 0
  }

  lemma MulMod(p: nat, a: nat, b: nat, c: nat)
    requires p > 0 && (a + b * c) % p == 0 && (b * c) % p == 0
    ensures a % p == 0
  {
    var x, y := (a + b * c) / p, (b * c) / p;
    assert a == p * (x - y);
    MultipleMod(p, x - y);
  }

  /** Euclid's lemma for r below the prime p, by descent on r. */
  lemma {:induction false} EuclidBelow(p: nat, r: nat, s: nat)
    requires Prime(p) && 0 < r < p && (r * s) % p == 0
    ensures s % p == 0
    decreases r
  {
    if r > 1 {
      var r', c := p % r, p / r;
      assert r' != 0;
      assert p == c * r + r';
      assert p * s == r' * s + c * (r * s) by {
        assert p * s == (c * r + r') * s == c * r * s + r' * s;
      }
      MultipleMod(p, s);
      var k := (r * s) / p;
      assert c * (r * s) == p * (c * k);
      MultipleMod(p, c * k);
      MulMod(p, r' * s, c, r * s);
      EuclidBelow(p, r', s);
    }
  }

  lemma Euclid(p: nat, q: nat, s: nat)
    requires Prime(p) && (q * s) % p == 0
    ensures q % p == 0 || s % p == 0
  {
    var r, c := q % p, q / p;
    if r != 0 {
      assert q * s == r * s + p * (c * s) by {
        assert q * s == (p * c + r) * s == p * c * s + r * s;
      }
      MultipleMod(p, c * s);
      MulMod(p, r * s, p, c * s);
      EuclidBelow(p, r, s);
    }
  }

  lemma SmallPrimes()
    ensures Prime(3) && Prime(5) && Prime(17)
  {}

  lemma NoDivisorOf257(r: nat)
    requires 1 < r <= 16
    ensures 257 % r != 0
  {}

  lemma Prime257()
    ensures Prime(257)
  {
    forall r | 1 < r < 257
      ensures 257 % r != 0
    {
      if 257 % r == 0 {
        var k := 257 / r;
        assert 257 == r * k;
        if r <= 16 {
          NoDivisorOf257(r);
        } else {
          assert 17 * k <= r * k;
          assert k > 1;
          MultipleMod(k, r);
          NoDivisorOf257(k);
        }
      }
    }
  }

  predicate Period(n: nat) {
    Alpha(n) == GF(1)
  }

  lemma {:induction false} PeriodMultiple(d: nat, k: nat)
    requires Period(d)
    ensures Period(d * k)
  {
    hide Xtime, Mul;
    if k == 0 {
      assert d * k == 0;
    } else {
      PeriodMultiple(d, k - 1);
      assert d * k == d + d * (k - 1);
      AlphaAdd(d, d * (k - 1));
      MulUnits(GF(1));
    }
  }

  lemma PeriodRemainder(d: nat, n: nat)
    requires d > 0 && Period(d) && Period(n)
    ensures Period(n % d)
  {
    hide Xtime, Mul, Alpha;
    PeriodMultiple(d, n / d);
    AlphaAdd(d * (n / d), n % d);
    MulUnits(Alpha(n % d));
  }

  /** A proper divisor of 65535 divides 65535 / p for one of its prime factors p. */
  lemma ProperDivisor(d: nat, q: nat)
    requires d * q == 65535 && q > 1
    ensures exists k: nat :: d * k == 21845 || d * k == 13107 || d * k == 3855 || d * k == 255
  {
    assert d * 2 <= d * q;
    SmallPrimes();
    Prime257();
    Euclid(3, q, d);
    Euclid(5, q, d);
    Euclid(17, q, d);
    Euclid(257, q, d);
    if q % 3 == 0 {
      assert d * (q / 3) == 21845;
    } else if q % 5 == 0 {
      assert d * (q / 5) == 13107;
    } else if q % 17 == 0 {
      assert d * (q / 17) == 3855;
    } else if q % 257 == 0 {
      assert d * (q / 257) == 255;
    } else {
      DivisibleByAll(d);
    }
  }

  lemma DivisibleByAll(d: nat)
    requires d > 0 && d % 3 == 0 && d % 5 == 0 && d % 17 == 0 && d % 257 == 0
    ensures d >= 65535
  {
    // Bezout for 3 and 5, then 15 and 17, then 255 and 257.
    var a, b, c, e := d / 3, d / 5, d / 17, d / 257;
    var f := 2 * b - a;
    assert d == 15 * f;
    var g := 8 * c - 7 * f;
    assert d == 255 * g;
    var h := 128 * e - 127 * g;
    assert d == 65535 * h;
  }

  /** No power of alpha below the 65535th is one. */
  lemma {:induction false} OrderAtLeast(d: nat)
    requires 0 < d < 65535
    ensures !Period(d)
    decreases d
  {
    if Period(d) {
      PowersUpTo65535();
      PeriodRemainder(d, 65535);
      var r := 65535 % d;
      if r > 0 {
        OrderAtLeast(r);
      } else {
        var q := 65535 / d;
        assert d * q == 65535;
        ProperDivisor(d, q);
        var k: nat :| d * k == 21845 || d * k == 13107 || d * k == 3855 || d * k == 255;
        PeriodMultiple(d, k);
        PowersUpTo21845();
        PowersUpTo13107();
        PowersUpTo3855();
        PowersUpTo255();
      }
    }
  }

  lemma AlphaNonzero(n: nat)
    ensures Alpha(n) != GF(0)
  {
    hide Xtime, Mul;
    if Alpha(n) == GF(0) {
      PowersUpTo65535();
      PeriodMultiple(65535, n);
      assert 65535 * n == n + 65534 * n;
      AlphaAdd(n, 65534 * n);
      MulUnits(Alpha(65534 * n));
    }
  }

  /** The first 65535 powers of alpha are distinct. */
  lemma AlphaInjective(i: nat, j: nat)
    requires i < 65535 && j < 65535 && Alpha(i) == Alpha(j)
    ensures i == j
  {
    hide Xtime, Mul, Alpha;
    if i < j {
      AlphaDistinct(i, j);
    } else if j < i {
      AlphaDistinct(j, i);
    }
  }

  lemma AlphaDistinct(i: nat, j: nat)
    requires i < j < 65535
    ensures Alpha(i) != Alpha(j)
  {
    hide Xtime, Mul, Alpha;
    if Alpha(i) == Alpha(j) {
      PowersUpTo65535();
      AlphaAdd(i, 65535 - i);
      AlphaAdd(j, 65535 - i);
      AlphaAdd(j - i, 65535);
      assert (j - i) + 65535 == j + (65535 - i);
      MulUnits(Alpha(j - i));
      OrderAtLeast(j - i);
    }
  }

  lemma AlphaWraps(n: nat)
    ensures Alpha(n + 65535) == Alpha(n) && Alpha(n % 65535) == Alpha(n)
  {
    hide Xtime, Mul, Alpha;
    PowersUpTo65535();
    AlphaAdd(n, 65535);
    MulUnits(Alpha(n));
    PeriodMultiple(65535, n / 65535);
    AlphaAdd(n % 65535, 65535 * (n / 65535));
    MulUnits(Alpha(n % 65535));
  }

  // ---------- Logarithms ----------

  /** The word as an index into the logarithm table. */
  function Index(a: GF): (i: nat)
    ensures i < 65536
  {
    a.v as nat
  }

  lemma IndexInjective(a: GF, b: GF)
    requires Index(a) == Index(b)
    ensures a == b
  {
    assert a.v == Index(a) as bv16 && b.v == Index(b) as bv16;
  }

  lemma IndexZero(a: GF)
    ensures Index(a) == 0 <==> a == GF(0)
  {
    assert Index(GF(0)) == 0;
    if Index(a) == 0 {
      IndexInjective(a, GF(0));
    }
  }

  ghost function PowersBelow(n: nat): set<nat> {
    if n == 0 then {} else PowersBelow(n - 1) + {Index(Alpha(n - 1))}
  }

  ghost function UpTo(n: nat): set<nat> {
    if n == 0 then {} else UpTo(n - 1) + {n}
  }

  lemma {:induction false} UpToIs(n: nat)
    ensures |UpTo(n)| == n && forall i: nat :: i in UpTo(n) <==> 1 <= i <= n
  {
    if n > 0 {
      UpToIs(n - 1);
    }
  }

  lemma {:induction false} PowersBelowMember(n: nat, x: nat)
    requires x in PowersBelow(n)
    ensures exists i: nat :: i < n && x == Index(Alpha(i))
  {
    hide Alpha, Index;
    if x != Index(Alpha(n - 1)) {
      PowersBelowMember(n - 1, x);
    }
  }

  lemma {:induction false} PowersBelowIs(n: nat)
    requires n <= 65535
    ensures |PowersBelow(n)| == n && PowersBelow(n) <= UpTo(65535)
  {
    hide Alpha, Index, UpTo;
    if n > 0 {
      PowersBelowIs(n - 1);
      var x := Index(Alpha(n - 1));
      if x in PowersBelow(n - 1) {
        PowersBelowMember(n - 1, x);
        var i: nat :| i < n - 1 && x == Index(Alpha(i));
        IndexInjective(Alpha(n - 1), Alpha(i));
        AlphaInjective(i, n - 1);
      }
      AlphaNonzero(n - 1);
      IndexZero(Alpha(n - 1));
      UpToIs(65535);
    }
  }

  lemma SameSize(a: set<nat>, b: set<nat>)
    requires a <= b && |a| == |b|
    ensures a == b
  {
    assert |b| == |a| + |b - a|;
  }

  /** Every nonzero word is a power of alpha. */
  lemma AlphaSurjective(a: GF)
    requires a != GF(0)
    ensures exists i: nat :: i < 65535 && Alpha(i) == a
  {
    hide Alpha, Index;
    PowersBelowIs(65535);
    UpToIs(65535);
    IndexZero(a);
    SameSize(PowersBelow(65535), UpTo(65535));
    PowersBelowMember(65535, Index(a));
    var i: nat :| i < 65535 && Index(a) == Index(Alpha(i));
    IndexInjective(a, Alpha(i));
  }

  ghost function Log(a: GF): (i: nat)
    requires a != GF(0)
    ensures i < 65535 && Alpha(i) == a
  {
    AlphaSurjective(a);
    var i: nat :| i < 65535 && Alpha(i) == a;
    i
  }

  lemma LogAlpha(i: nat)
    requires i < 65535
    ensures Alpha(i) != GF(0) && Log(Alpha(i)) == i
  {
    hide Alpha;
    AlphaNonzero(i);
    AlphaInjective(i, Log(Alpha(i)));
  }

  // ---------- The field ----------

  ghost function Inv(a: GF): GF {
    if a == GF(0) then GF(0) else Alpha(65535 - Log(a))
  }

  ghost function Gf16(): Field<GF> {
    Field(GF(0), GF(1), (a, b) => Add(a, b), (a, b) => Mul(a, b), a => Inv(a))
  }

  lemma MulInverse(a: GF)
    requires a != GF(0)
    ensures Mul(a, Inv(a)) == GF(1)
  {
    hide Alpha, Mul;
    AlphaAdd(Log(a), 65535 - Log(a));
    PowersUpTo65535();
  }

  lemma MulAssoc(a: GF, b: GF, c: GF)
    ensures Mul(Mul(a, b), c) == Mul(a, Mul(b, c))
  {
    hide Alpha, Mul;
    MulUnits(a);
    MulUnits(b);
    MulUnits(c);
    MulUnits(Mul(a, b));
    MulUnits(Mul(b, c));
    if a != GF(0) && b != GF(0) && c != GF(0) {
      var i, j, k := Log(a), Log(b), Log(c);
      AlphaAdd(i, j);
      AlphaAdd(j, k);
      AlphaAdd(i + j, k);
      AlphaAdd(i, j + k);
      assert (i + j) + k == i + (j + k);
    }
  }

  lemma Gf16Laws(a: GF, b: GF, c: GF)
    ensures Laws(Gf16(), a, b, c)
  {
    hide Add, Mul, Inv;
    AddComm(a, b);
    AddAssoc(a, b, c);
    AddLaws(a);
    MulComm(a, b);
    MulAssoc(a, b, c);
    MulUnits(a);
    MulDistrib(a, b, c);
    if a != GF(0) {
      MulInverse(a);
    }
    OneIsNotZero();
  }

  lemma OneIsNotZero()
    ensures GF(0) != GF(1)
  {}

  /** The 16-bit words with exclusive or and Mul are a field. */
  lemma Gf16IsField()
    ensures IsField(Gf16())
  {
    forall a, b, c
      ensures Laws(Gf16(), a, b, c)
    {
      Gf16Laws(a, b, c);
    }
  }

  /** Alpha(n) is the n-th power of alpha in that field. */
  lemma {:induction false} AlphaIsPow(n: nat)
    ensures Alpha(n) == Pow(Gf16(), Alpha(1), n)
  {
    hide Mul, Xtime;
    if n > 0 {
      AlphaIsPow(n - 1);
      AlphaAdd(1, n - 1);
    }
  }
}
