/**
  The field GF(2^16) of the BCH decoder: 16-bit words, added by exclusive or and
  multiplied as polynomials modulo x^16 + x^12 + x^3 + x + 1 (0x1100B).

  The word is wrapped in a datatype so that proofs about sums and products need not
  look at its bits; only the small lemmas about single operations do.
 */
module GaloisField {

  datatype GF = GF(v: bv16)

  function Add(a: GF, b: GF): GF {
    GF(a.v ^ b.v)
  }

  /** Multiplication by alpha: shift left and, when bit 15 falls out, add x^12 + x^3 + x + 1. */
  function Xtime(a: GF): GF {
    var t := a.v >> 15;
    GF((a.v << 1) ^ t ^ (t << 1) ^ (t << 3) ^ (t << 12))
  }

  function Half(b: GF): GF {
    GF(b.v >> 1)
  }

  /** a when the low bit of b is set, and zero otherwise. */
  function Sel(b: GF, a: GF): GF {
    if b.v & 1 == 1 then a else GF(0)
  }

  /** Horner's rule over the low k bits of b. */
  function MulBits(k: nat, a: GF, b: GF): GF {
    if k == 0 then GF(0) else Add(Xtime(MulBits(k - 1, a, Half(b))), Sel(b, a))
  }

  function Mul(a: GF, b: GF): GF {
    MulBits(16, a, b)
  }

  // ---------- Single operations ----------

  lemma AddComm(a: GF, b: GF)
    ensures Add(a, b) == Add(b, a)
  {}

  lemma AddAssoc(a: GF, b: GF, c: GF)
    ensures Add(Add(a, b), c) == Add(a, Add(b, c))
  {}

  lemma AddSwap(a: GF, b: GF, c: GF, d: GF)
    ensures Add(Add(a, b), Add(c, d)) == Add(Add(a, c), Add(b, d))
  {
    hide Add;
    AddAssoc(a, b, Add(c, d));
    AddAssoc(b, c, d);
    AddAssoc(c, b, d);
    AddComm(b, c);
    AddAssoc(a, c, Add(b, d));
  }

  lemma XorLaws(x: bv16)
    ensures x ^ x == 0 && x ^ 0 == x && 0 ^ x == x
  {}

  lemma AddLaws(a: GF)
    ensures Add(a, a) == GF(0) && Add(a, GF(0)) == a && Add(GF(0), a) == a
  {
    var GF(x) := a;
    XorLaws(x);
  }

  lemma XtimeLinear(a: GF, b: GF)
    ensures Xtime(Add(a, b)) == Add(Xtime(a), Xtime(b))
  {}

  lemma XtimeZero()
    ensures Xtime(GF(0)) == GF(0)
  {}

  lemma SelLinear(b: GF, a: GF, c: GF)
    ensures Sel(b, Add(a, c)) == Add(Sel(b, a), Sel(b, c))
  {
    AddLaws(GF(0));
  }

  lemma XtimeSel(b: GF, a: GF)
    ensures Xtime(Sel(b, a)) == Sel(b, Xtime(a))
  {
    XtimeZero();
  }

  /** A word is alpha times its upper bits plus its low bit. */
  lemma SplitLow(a: GF)
    ensures a == Add(Xtime(Half(a)), Sel(a, GF(1)))
  {}

  lemma HalfSixteenTimes(a: GF)
    ensures Fits(16, a)
  {
    var h4 := GF(a.v >> 4);
    var h8 := GF(a.v >> 8);
    var h12 := GF(a.v >> 12);
    var h16 := GF(0);
    FitsHalf4(12, a, h4);
    FitsHalf4(8, h4, h8);
    FitsHalf4(4, h8, h12);
    FitsHalf4(0, h12, h16);
  }

  /** The word has no bits at position k or above. */
  predicate Fits(k: nat, a: GF) {
    if k == 0 then a == GF(0) else Fits(k - 1, Half(a))
  }

  lemma FitsHalf4(k: nat, a: GF, h: GF)
    requires h == GF(a.v >> 4)
    ensures Fits(k + 4, a) <==> Fits(k, h)
  {
    var a1, a2, a3 := Half(a), Half(Half(a)), Half(Half(Half(a)));
    assert Half(a3) == h;
    hide Half;
    assert Fits(k + 4, a) == Fits(k + 3, a1);
    assert Fits(k + 3, a1) == Fits(k + 2, a2);
    assert Fits(k + 2, a2) == Fits(k + 1, a3);
    assert Fits(k + 1, a3) == Fits(k, h);
  }

  // ---------- Multiplication ----------

  lemma {:induction false} MulAddLeft(k: nat, a: GF, c: GF, b: GF)
    ensures MulBits(k, Add(a, c), b) == Add(MulBits(k, a, b), MulBits(k, c, b))
  {
    if k == 0 {
      AddLaws(GF(0));
    } else {
      hide Xtime, Sel, Half, Add;
      var h := Half(b);
      MulAddLeft(k - 1, a, c, h);
      XtimeLinear(MulBits(k - 1, a, h), MulBits(k - 1, c, h));
      SelLinear(b, a, c);
      AddSwap(Xtime(MulBits(k - 1, a, h)), Xtime(MulBits(k - 1, c, h)), Sel(b, a), Sel(b, c));
    }
  }

  lemma {:induction false} MulXtimeLeft(k: nat, a: GF, b: GF)
    ensures MulBits(k, Xtime(a), b) == Xtime(MulBits(k, a, b))
  {
    if k == 0 {
      XtimeZero();
    } else {
      hide Xtime, Sel, Half, Add;
      MulXtimeLeft(k - 1, a, Half(b));
      XtimeLinear(Xtime(MulBits(k - 1, a, Half(b))), Sel(b, a));
      XtimeSel(b, a);
    }
  }

  lemma {:induction false} MulZeroLeft(k: nat, b: GF)
    ensures MulBits(k, GF(0), b) == GF(0)
  {
    if k > 0 {
      MulZeroLeft(k - 1, Half(b));
      XtimeZero();
      AddLaws(GF(0));
    }
  }

  lemma {:induction false} MulOneLeft(k: nat, b: GF)
    requires Fits(k, b)
    ensures MulBits(k, GF(1), b) == b
  {
    if k > 0 {
      MulOneLeft(k - 1, Half(b));
      SplitLow(b);
    }
  }

  lemma SelCases(a: GF, b: GF)
    ensures (Sel(a, GF(1)) == GF(0) && Sel(a, b) == GF(0)) || (Sel(a, GF(1)) == GF(1) && Sel(a, b) == b)
  {}

  lemma MulLowBit(a: GF, b: GF)
    ensures MulBits(16, Sel(a, GF(1)), b) == Sel(a, b)
  {
    hide MulBits, Fits, Sel;
    HalfSixteenTimes(b);
    MulOneLeft(16, b);
    MulZeroLeft(16, b);
    SelCases(a, b);
  }

  /** The product can be read off the bits of either factor. */
  lemma {:induction false} MulSwap(k: nat, a: GF, b: GF)
    requires Fits(k, a)
    ensures Mul(a, b) == MulBits(k, b, a)
  {
    hide Xtime, Add, Sel, Half;
    if k == 0 {
      MulZeroLeft(16, b);
    } else {
      MulSwap(k - 1, Half(a), b);
      SplitLow(a);
      assert MulBits(k, b, a) == Add(Xtime(MulBits(k - 1, b, Half(a))), Sel(a, b));
      hide MulBits;
      MulAddLeft(16, Xtime(Half(a)), Sel(a, GF(1)), b);
      MulXtimeLeft(16, Half(a), b);
      MulLowBit(a, b);
    }
  }

  lemma MulComm(a: GF, b: GF)
    ensures Mul(a, b) == Mul(b, a)
  {
    HalfSixteenTimes(a);
    MulSwap(16, a, b);
  }

  lemma MulXtime(a: GF, b: GF)
    ensures Mul(a, Xtime(b)) == Xtime(Mul(a, b)) == Mul(Xtime(a), b)
  {
    hide Xtime, MulBits;
    MulComm(a, b);
    MulComm(a, Xtime(b));
    MulXtimeLeft(16, b, a);
    MulXtimeLeft(16, a, b);
  }

  lemma MulDistrib(a: GF, b: GF, c: GF)
    ensures Mul(a, Add(b, c)) == Add(Mul(a, b), Mul(a, c))
  {
    hide Add, MulBits;
    MulComm(a, b);
    MulComm(a, c);
    MulComm(a, Add(b, c));
    MulAddLeft(16, b, c, a);
  }

  lemma MulUnits(a: GF)
    ensures Mul(a, GF(0)) == GF(0) == Mul(GF(0), a)
    ensures Mul(a, GF(1)) == a == Mul(GF(1), a)
  {
    HalfSixteenTimes(a);
    hide MulBits;
    MulZeroLeft(16, a);
    MulOneLeft(16, a);
    MulComm(a, GF(0));
    MulComm(a, GF(1));
  }

  // ---------- The product is the remainder of the carry-less product ----------

  /** A polynomial over GF(2) of degree below 32. */
  datatype Poly = Poly(v: bv32)

  function AddPoly(p: Poly, q: Poly): Poly {
    Poly(p.v ^ q.v)
  }

  function Shift(p: Poly): Poly {
    Poly(p.v << 1)
  }

  /** The polynomial p times the polynomial whose coefficients, highest first, are bits. */
  function Carryless(p: Poly, bits: seq<bool>): Poly {
    if |bits| == 0 then Poly(0)
    else AddPoly(Shift(Carryless(p, bits[..|bits| - 1])), if bits[|bits| - 1] then p else Poly(0))
  }

  /** The low k bits of b, highest first. */
  function BitsOf(k: nat, b: GF): (bits: seq<bool>)
    ensures |bits| == k
  {
    if k == 0 then [] else BitsOf(k - 1, Half(b)) + [Odd(b)]
  }

  function Wide(a: GF): Poly {
    Poly(a.v as bv32)
  }

  predicate Top(h: GF) {
    h.v >> 15 == 1
  }

  predicate Odd(b: GF) {
    b.v & 1 == 1
  }

  /** The primitive polynomial times a single coefficient t. */
  function Multiple(t: bv32): Poly {
    Poly(t ^ (t << 1) ^ (t << 3) ^ (t << 12) ^ (t << 16))
  }

  lemma MultipleCases(h: GF)
    ensures Multiple(((h.v >> 15) & 1) as bv32) == if Top(h) then Poly(0x1100B) else Poly(0)
  {
    assert h.v >> 15 == 0 || h.v >> 15 == 1;
  }

  /** Shifting a word out of 16 bits costs one multiple of the primitive polynomial. */
  lemma ShiftReduces(h: GF)
    ensures Shift(Wide(h)) == AddPoly(Multiple(((h.v >> 15) & 1) as bv32), Wide(Xtime(h)))
  {}

  lemma WideAdd(a: GF, b: GF)
    ensures Wide(Add(a, b)) == AddPoly(Wide(a), Wide(b))
  {}

  lemma ShiftAdd(p: Poly, q: Poly)
    ensures Shift(AddPoly(p, q)) == AddPoly(Shift(p), Shift(q))
  {}

  lemma AddPolyAssoc(p: Poly, q: Poly, r: Poly)
    ensures AddPoly(AddPoly(p, q), r) == AddPoly(p, AddPoly(q, r))
  {}

  lemma PolyZero()
    ensures AddPoly(Poly(0), Poly(0)) == Poly(0)
  {}

  lemma CarrylessStep(p: Poly, r: seq<bool>, top: bool)
    ensures Carryless(p, r + [top]) == AddPoly(Shift(Carryless(p, r)), if top then p else Poly(0))
  {
    assert (r + [top])[..|r|] == r;
  }

  lemma WideSel(b: GF, a: GF)
    ensures Wide(Sel(b, a)) == if Odd(b) then Wide(a) else Poly(0)
  {
    WideZero();
  }

  /** a times the low k bits of b is a multiple of 0x1100B plus the field product. */
  lemma {:induction false} MulIsRemainder(k: nat, a: GF, b: GF) returns (q: seq<bool>)
    ensures |q| == k
    ensures Carryless(Wide(a), BitsOf(k, b)) == AddPoly(Carryless(Poly(0x1100B), q), Wide(MulBits(k, a, b)))
  {
    hide Shift, AddPoly, Wide, Xtime, Add, Sel, Half, Top, Odd;
    if k == 0 {
      q := [];
      PolyZero();
      WideZero();
    } else {
      var r := MulIsRemainder(k - 1, a, Half(b));
      var h, s := MulBits(k - 1, a, Half(b)), Sel(b, a);
      assert MulBits(k, a, b) == Add(Xtime(h), s);
      var top := Top(h);
      q := r + [top];
      var t, c := if top then Poly(0x1100B) else Poly(0), Carryless(Poly(0x1100B), r);
      CarrylessStep(Poly(0x1100B), r, top);
      CarrylessStep(Wide(a), BitsOf(k - 1, Half(b)), Odd(b));
      hide MulBits, BitsOf, Carryless;
      ShiftReduces(h);
      MultipleCases(h);
      WideAdd(Xtime(h), s);
      WideSel(b, a);
      ShiftAdd(c, Wide(h));
      AddPolyAssoc(Shift(c), t, Wide(Xtime(h)));
      AddPolyAssoc(AddPoly(Shift(c), t), Wide(Xtime(h)), Wide(s));
    }
  }

  lemma WideZero()
    ensures Wide(GF(0)) == Poly(0)
  {}
}
