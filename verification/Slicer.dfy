/**
  Why the slicer formulas agree with the exhaustive max-log search: for any number of bits per
  dimension, folding the coordinate at zero turns one bit's decision into the next one's.
 */
module Slicer {
  import Arithmetic
  import opened BitReversal
  import opened GrayCode

  function Abs(x: real): (y: real)
    ensures y >= 0.0
  {
    if x < 0.0 then -x else x
  }

  function Sign(x: real): (s: int)
    ensures -1 <= s <= 1 && (s > 0 <==> x > 0.0) && (s < 0 <==> x < 0.0)
  {
    if x > 0.0 then 1 else if x < 0.0 then -1 else 0
  }

  function Half(k: nat): real
    requires k > 0
  {
    Pow2(k - 1) as real
  }

  /** The n-th of the 2^k levels of one dimension: the odd numbers from -(2^k - 1) to 2^k - 1. */
  function Level(k: nat, n: nat): real {
    (2 * n - Pow2(k) + 1) as real
  }

  /** Bit b, counted from the most significant, of the k-bit label of level n. */
  predicate LabelBit(k: nat, b: nat, n: nat)
    requires b < k
  {
    Bit(ToGray(n), k - 1 - b)
  }

  function Square(x: real): real {
    x * x
  }

  /** The slicer's value for bit b of k at grid coordinate x, before scaling. */
  function Slice(k: nat, b: nat, x: real): real
    requires b < k
    decreases b
  {
    if b == 0 then -x else Slice(k - 1, b - 1, Half(k) - Abs(x))
  }

  // ---------- One dimension ----------

  /** d is the least squared distance from x to the levels whose label bit b is c. */
  ghost predicate Nearest(k: nat, b: nat, c: bool, x: real, d: real)
    requires b < k
  {
    && (exists n: nat :: IsLevel(k, b, c, n) && d == Square(x - Level(k, n)))
    && (forall n: nat :: IsLevel(k, b, c, n) ==> d <= Square(x - Level(k, n)))
  }

  predicate IsLevel(k: nat, b: nat, c: bool, n: nat)
    requires b < k
  {
    n < Pow2(k) && (LabelBit(k, b, n) <==> c)
  }

  lemma MulLess(a: real, b: real, c: real)
    requires a < b && c > 0.0
    ensures a * c < b * c
  {}

  lemma SquareStrict(a: real, b: real)
    requires 0.0 <= a < b
    ensures a * a < b * b
  {
    MulLess(a, b, a + b);
    assert a * (a + b) == a * a + a * b;
    assert b * (a + b) == b * a + b * b;
  }

  lemma SquareOrder(a: real, b: real)
    ensures 0.0 <= a <= b ==> Square(a) <= Square(b)
    ensures 0.0 <= a < b ==> Square(a) < Square(b)
    ensures Square(a) == Square(-a) == Square(Abs(a))
  {
    if 0.0 <= a < b {
      SquareStrict(a, b);
    }
  }

  lemma Positive(p: real, q: real)
    requires p > 0.0 && q > 0.0
    ensures p * q > 0.0
  {}

  /** Taking absolute values brings two coordinates no further apart. */
  lemma AbsCloser(x: real, v: real)
    ensures Square(Abs(x) - Abs(v)) <= Square(x - v)
    ensures (x >= 0.0 <==> v >= 0.0) ==> Square(Abs(x) - Abs(v)) == Square(x - v)
  {
    SquareOrder(x - v, 0.0);
    SquareOrder(Abs(Abs(x) - Abs(v)), Abs(x - v));
    SquareOrder(Abs(x) - Abs(v), 0.0);
  }

  /** The level of the (k - 1)-bit grid that level n folds onto. */
  function Folded(k: nat, n: nat): nat
    requires k > 0 && n < Pow2(k)
  {
    if n < Pow2(k - 1) then n else Pow2(k) - 1 - n
  }

  lemma FoldedIs(k: nat, b: nat, c: bool, n: nat)
    requires 0 < b < k && n < Pow2(k)
    ensures Folded(k, n) < Pow2(k - 1)
    ensures IsLevel(k, b, c, n) <==> IsLevel(k - 1, b - 1, c, Folded(k, n))
    ensures Level(k - 1, Folded(k, n)) == Half(k) - Abs(Level(k, n))
  {
    hide Bit, ToGray;
    Reflection(k - 1, n);
  }

  /** Each folded level comes from one level on either side of zero. */
  function Unfolded(k: nat, m: nat, positive: bool): nat
    requires k > 0 && m < Pow2(k - 1)
  {
    if positive then Pow2(k) - 1 - m else m
  }

  lemma UnfoldedIs(k: nat, m: nat, positive: bool)
    requires k > 0 && m < Pow2(k - 1)
    ensures var n := Unfolded(k, m, positive);
            n < Pow2(k) && Folded(k, n) == m && (Level(k, n) >= 0.0 <==> positive)
  {}

  /** The distance to a level is at least the distance of the folded coordinates, and equal on x's own side. */
  lemma FoldedDistance(k: nat, n: nat, x: real)
    requires k > 1 && n < Pow2(k)
    ensures var z, v := Half(k) - Abs(x), Half(k) - Abs(Level(k, n));
            && Square(z - v) <= Square(x - Level(k, n))
            && ((x >= 0.0 <==> Level(k, n) >= 0.0) ==> Square(z - v) == Square(x - Level(k, n)))
  {
    hide Level, Half, Square;
    var y := Level(k, n);
    AbsCloser(x, y);
    assert (Half(k) - Abs(x)) - (Half(k) - Abs(y)) == -(Abs(x) - Abs(y));
    SquareOrder(Abs(x) - Abs(y), 0.0);
  }

  /** The least distance for a lower bit is the least distance for the folded coordinate. */
  lemma NearestFolds(k: nat, b: nat, c: bool, x: real, d: real)
    requires 0 < b < k && Nearest(k, b, c, x, d)
    ensures Nearest(k - 1, b - 1, c, Half(k) - Abs(x), d)
  {
    hide Square, Level, IsLevel, Folded, Unfolded, Abs, Half;
    var z, k', b' := Half(k) - Abs(x), k - 1, b - 1;
    forall m: nat | IsLevel(k', b', c, m)
      ensures d <= Square(z - Level(k', m))
    {
      LevelInRange(k', b', c, m);
      var n := Unfolded(k, m, x >= 0.0);
      UnfoldedIs(k, m, x >= 0.0);
      FoldedIs(k, b, c, n);
      FoldedDistance(k, n, x);
    }
    var n: nat :| IsLevel(k, b, c, n) && d == Square(x - Level(k, n));
    LevelInRange(k, b, c, n);
    FoldedIs(k, b, c, n);
    FoldedDistance(k, n, x);
    var m := Folded(k, n);
    assert IsLevel(k', b', c, m) && d == Square(z - Level(k', m));
  }

  lemma LevelInRange(k: nat, b: nat, c: bool, n: nat)
    requires b < k && IsLevel(k, b, c, n)
    ensures n < Pow2(k)
  {}

  /** For the most significant bit the levels with bit 1 are the positive ones. */
  lemma FirstBit(k: nat, c: bool, n: nat)
    requires k > 0
    ensures IsLevel(k, 0, c, n) <==> n < Pow2(k) && (n >= Pow2(k - 1) <==> c)
  {
    hide Bit, ToGray;
    if n < Pow2(k) {
      Reflection(k - 1, n);
    }
  }

  lemma InnerLevels(k: nat)
    requires k > 0
    ensures IsLevel(k, 0, true, Pow2(k - 1)) && Level(k, Pow2(k - 1)) == 1.0
    ensures IsLevel(k, 0, false, Pow2(k - 1) - 1) && Level(k, Pow2(k - 1) - 1) == -1.0
  {
    hide IsLevel;
    FirstBit(k, true, Pow2(k - 1));
    FirstBit(k, false, Pow2(k - 1) - 1);
  }

  /** Seen from x <= 0, every positive level is at least as far as level 1; symmetrically for x >= 0. */
  lemma FarSide(k: nat, c: bool, x: real, n: nat)
    requires k > 0 && IsLevel(k, 0, c, n)
    ensures c && x <= 0.0 ==> Square(x - Level(k, n)) >= Square(1.0 - x)
    ensures !c && x >= 0.0 ==> Square(x - Level(k, n)) >= Square(1.0 + x)
  {
    hide IsLevel, Square;
    FirstBit(k, c, n);
    var v := Level(k, n);
    if c && x <= 0.0 {
      SquareOrder(1.0 - x, v - x);
      SquareOrder(x - v, 0.0);
      assert -(x - v) == v - x;
    }
    if !c && x >= 0.0 {
      SquareOrder(1.0 + x, x - v);
    }
  }

  lemma Inner(x: real)
    ensures x < 0.0 ==> Square(x - -1.0) < Square(1.0 - x)
    ensures x > 0.0 ==> Square(x - 1.0) < Square(1.0 + x)
    ensures x == 0.0 ==> Square(x - 1.0) == Square(1.0 - x) == Square(1.0 + x) == Square(x - -1.0)
  {
    assert (1.0 - x) * (1.0 - x) - (x + 1.0) * (x + 1.0) == -4.0 * x;
    assert (1.0 + x) * (1.0 + x) - (x - 1.0) * (x - 1.0) == 4.0 * x;
  }

  lemma FirstBitSign(k: nat, x: real, d1: real, d0: real)
    requires k > 0 && Nearest(k, 0, true, x, d1) && Nearest(k, 0, false, x, d0)
    ensures Sign(d1 - d0) == Sign(-x)
  {
    hide IsLevel, Level, Square;
    InnerLevels(k);
    Inner(x);
    var n1: nat :| IsLevel(k, 0, true, n1) && d1 == Square(x - Level(k, n1));
    var n0: nat :| IsLevel(k, 0, false, n0) && d0 == Square(x - Level(k, n0));
    FarSide(k, true, x, n1);
    FarSide(k, false, x, n0);
    assert d1 <= Square(x - Level(k, Pow2(k - 1)));
    assert d0 <= Square(x - Level(k, Pow2(k - 1) - 1));
  }

  /**
    For every number of bits, every bit and every coordinate: the slicer decides as the exhaustive search, ties
    included.
   */
  lemma {:induction false} SliceAgrees(k: nat, b: nat, x: real, d1: real, d0: real)
    requires b < k && Nearest(k, b, true, x, d1) && Nearest(k, b, false, x, d0)
    ensures Sign(Slice(k, b, x)) == Sign(d1 - d0)
    decreases b
  {
    hide Nearest, Abs, Half;
    if b == 0 {
      FirstBitSign(k, x, d1, d0);
    } else {
      NearestFolds(k, b, true, x, d1);
      NearestFolds(k, b, false, x, d0);
      SliceAgrees(k - 1, b - 1, Half(k) - Abs(x), d1, d0);
    }
  }

  // ---------- Two dimensions ----------

  /** The level of the first coordinate of the symbol labelled i. */
  function LevelI(k: nat, i: nat): real {
    Level(k, FromGray(Upper(i, Pow2(k))))
  }

  function LevelQ(k: nat, i: nat): real {
    Level(k, FromGray(Lower(i, Pow2(k))))
  }

  /** Squared distance from a received point to the symbol labelled i, on a grid scaled by norm. */
  function Distance(k: nat, norm: real, i: nat, x: real, y: real): real {
    Square(x - norm * LevelI(k, i)) + Square(y - norm * LevelQ(k, i))
  }

  predicate IsSymbol(k: nat, b: nat, c: bool, i: nat)
    requires b < 2 * k
  {
    i < Pow2(2 * k) && (Bit(i, 2 * k - 1 - b) <==> c)
  }

  /** d is the least squared distance to the symbols whose label bit b is c. */
  ghost predicate NearestSymbol(k: nat, norm: real, b: nat, c: bool, x: real, y: real, d: real)
    requires b < 2 * k
  {
    && (exists i: nat :: IsSymbol(k, b, c, i) && d == Distance(k, norm, i, x, y))
    && (forall i: nat :: IsSymbol(k, b, c, i) ==> d <= Distance(k, norm, i, x, y))
  }

  /** The label of the symbol at level n of the first coordinate and level m of the second. */
  function Label(k: nat, n: nat, m: nat): nat {
    ToGray(n) * Pow2(k) + ToGray(m)
  }

  lemma FourTimes(p: nat)
    ensures (2 * p) * (2 * p) == 4 * (p * p)
  {}

  lemma {:induction false} Pow2Doubles(k: nat)
    ensures Pow2(2 * k) == Pow2(k) * Pow2(k)
  {
    if k > 0 {
      Pow2Doubles(k - 1);
      FourTimes(Pow2(k - 1));
      var h := 2 * (k - 1);
      assert Pow2(h + 2) == 4 * Pow2(h);
    }
  }

  lemma GrayInRange(k: nat, n: nat)
    requires n < Pow2(k)
    ensures ToGray(n) < Pow2(k)
  {
    FromGrayInverts(n);
    FromGrayBound(k, ToGray(n));
  }

  lemma LabelIs(k: nat, n: nat, m: nat)
    requires n < Pow2(k) && m < Pow2(k)
    ensures var i := Label(k, n, m);
            && i < Pow2(2 * k) && i / Pow2(k) == ToGray(n) && i % Pow2(k) == ToGray(m)
            && LevelI(k, i) == Level(k, n) && LevelQ(k, i) == Level(k, m)
  {
    hide ToGray, FromGray, Pow2, Level;
    var p := Pow2(k);
    GrayInRange(k, n);
    GrayInRange(k, m);
    Pow2Doubles(k);
    Arithmetic.DivModUnique(Label(k, n, m), p, ToGray(n), ToGray(m));
    Arithmetic.MulMono(ToGray(n) + 1, p, p);
    Arithmetic.NextMultiple(ToGray(n), p);
    FromGrayInverts(n);
    FromGrayInverts(m);
  }

  lemma QuotientBound(i: nat, p: nat)
    requires p > 0 && i < p * p
    ensures i / p < p
  {
    Arithmetic.MulMono(p, i / p, p);
    assert i == i / p * p + i % p;
  }

  lemma SymbolParts(k: nat, i: nat)
    requires i < Pow2(2 * k)
    ensures i / Pow2(k) < Pow2(k) && i % Pow2(k) < Pow2(k)
    ensures FromGray(i / Pow2(k)) < Pow2(k) && FromGray(i % Pow2(k)) < Pow2(k)
  {
    hide FromGray, Pow2;
    var p := Pow2(k);
    Pow2Doubles(k);
    QuotientBound(i, p);
    FromGrayBound(k, i / p);
    FromGrayBound(k, i % p);
  }

  /** The bits of a symbol's label are the first coordinate's and then the second coordinate's. */
  lemma SymbolIsLevel(k: nat, b: nat, c: bool, i: nat)
    requires b < 2 * k && i < Pow2(2 * k)
    ensures b < k ==> (IsSymbol(k, b, c, i) <==> IsLevel(k, b, c, FromGray(i / Pow2(k))))
    ensures b >= k ==> (IsSymbol(k, b, c, i) <==> IsLevel(k, b - k, c, FromGray(i % Pow2(k))))
  {
    hide ToGray, FromGray, Bit, Pow2;
    SymbolParts(k, i);
    if b < k {
      UpperBit(k, i, k - 1 - b);
      assert k - 1 - b + k == 2 * k - 1 - b;
      ToGrayInverts(i / Pow2(k));
    } else {
      LowerBit(k, i, 2 * k - 1 - b);
      assert k - 1 - (b - k) == 2 * k - 1 - b;
      ToGrayInverts(i % Pow2(k));
    }
  }

  predicate InGrid(k: nat, n: nat) {
    n < Pow2(k)
  }

  lemma LabelIsLevel(k: nat, b: nat, c: bool, n: nat, m: nat)
    requires b < 2 * k && InGrid(k, n) && InGrid(k, m)
    ensures b < k ==> (IsSymbol(k, b, c, Label(k, n, m)) <==> IsLevel(k, b, c, n))
    ensures b >= k ==> (IsSymbol(k, b, c, Label(k, n, m)) <==> IsLevel(k, b - k, c, m))
  {
    hide ToGray, FromGray, IsSymbol, IsLevel, Label;
    LabelIs(k, n, m);
    SymbolIsLevel(k, b, c, Label(k, n, m));
    FromGrayInverts(n);
    FromGrayInverts(m);
  }

  /** Squared distance to one level on a grid scaled by norm. */
  function Axis(k: nat, norm: real, n: nat, x: real): real {
    Square(x - norm * Level(k, n))
  }

  /** The scaled distance is that of the grid coordinates, times the square of the norm. */
  lemma ScaledSquare(denorm: real, k: nat, n: nat, x: real)
    requires denorm > 0.0
    ensures Axis(k, 1.0 / denorm, n, x) == Square(1.0 / denorm) * Square(x * denorm - Level(k, n))
    ensures Square(1.0 / denorm) > 0.0
  {
    hide Level;
    var v, f := Level(k, n), 1.0 / denorm;
    Reciprocal(denorm, f, x);
    var z := x * denorm - v;
    assert f * z == f * (x * denorm) - f * v;
    SquareProduct(f, z);
    Positive(f, f);
  }

  lemma Reciprocal(denorm: real, f: real, x: real)
    requires denorm > 0.0 && f == 1.0 / denorm
    ensures f > 0.0 && f * (x * denorm) == x
  {
    assert f * denorm == 1.0;
    assert f * (x * denorm) == (f * denorm) * x;
  }

  lemma SquareProduct(f: real, z: real)
    ensures Square(f * z) == Square(f) * Square(z)
  {
    assert (f * z) * (f * z) == (f * f) * (z * z);
  }

  lemma ScaledOrder(f: real, a: real, b: real)
    requires f > 0.0
    ensures a <= b <==> f * a <= f * b
    ensures Sign(f * a - f * b) == Sign(a - b)
    ensures Sign(f * a) == Sign(a * f) == Sign(a)
  {
    if a < b {
      Positive(f, b - a);
    } else if a > b {
      Positive(f, a - b);
    }
    if a > 0.0 {
      Positive(f, a);
    } else if a < 0.0 {
      Positive(f, -a);
    }
  }

  /** Level n is nearest among those with the bit. */
  ghost predicate LeastFor(k: nat, b: nat, c: bool, norm: real, x: real, n: nat)
    requires b < k
  {
    IsLevel(k, b, c, n) && forall n': nat :: IsLevel(k, b, c, n') ==> Axis(k, norm, n, x) <= Axis(k, norm, n', x)
  }

  /** Level m is nearest among all. */
  ghost predicate LeastOf(k: nat, norm: real, y: real, m: nat) {
    InGrid(k, m) && forall m': nat :: InGrid(k, m') ==> Axis(k, norm, m, y) <= Axis(k, norm, m', y)
  }

  lemma DistanceAt(k: nat, norm: real, n: nat, m: nat, x: real, y: real)
    requires InGrid(k, n) && InGrid(k, m)
    ensures Distance(k, norm, Label(k, n, m), x, y) == Axis(k, norm, n, x) + Axis(k, norm, m, y)
  {
    hide Level, ToGray, FromGray, Square, Label, LevelI, LevelQ;
    LabelIs(k, n, m);
  }

  lemma SymbolAt(k: nat, norm: real, i: nat, x: real, y: real) returns (n: nat, m: nat)
    requires i < Pow2(2 * k)
    ensures n == FromGray(i / Pow2(k)) && m == FromGray(i % Pow2(k)) && InGrid(k, n) && InGrid(k, m)
    ensures Distance(k, norm, i, x, y) == Axis(k, norm, n, x) + Axis(k, norm, m, y)
  {
    hide Level, FromGray, Square, Pow2;
    SymbolParts(k, i);
    n, m := FromGray(i / Pow2(k)), FromGray(i % Pow2(k));
  }

  lemma GridOf(k: nat, b: nat, c: bool, n: nat)
    requires b < k && IsLevel(k, b, c, n)
    ensures InGrid(k, n)
  {}

  lemma SymbolInRange(k: nat, b: nat, c: bool, i: nat)
    requires b < 2 * k && IsSymbol(k, b, c, i)
    ensures i < Pow2(2 * k)
  {}

  /**
    For a bit of the first coordinate, the nearest symbol has the nearest level with that bit, and the nearest of
    all in the second.
   */
  lemma SeparatesI(k: nat, norm: real, b: nat, c: bool, x: real, y: real, d: real) returns (n: nat, m: nat)
    requires b < k && NearestSymbol(k, norm, b, c, x, y, d)
    ensures LeastFor(k, b, c, norm, x, n) && LeastOf(k, norm, y, m)
    ensures d == Axis(k, norm, n, x) + Axis(k, norm, m, y)
  {
    hide IsSymbol, IsLevel, Distance, Axis, Label, FromGray, InGrid, Pow2;
    var i: nat :| IsSymbol(k, b, c, i) && d == Distance(k, norm, i, x, y);
    SymbolInRange(k, b, c, i);
    n, m := SymbolAt(k, norm, i, x, y);
    SymbolIsLevel(k, b, c, i);
    forall n': nat | IsLevel(k, b, c, n')
      ensures Axis(k, norm, n, x) <= Axis(k, norm, n', x)
    {
      GridOf(k, b, c, n');
      DistanceAt(k, norm, n', m, x, y);
      LabelIsLevel(k, b, c, n', m);
    }
    forall m': nat | InGrid(k, m')
      ensures Axis(k, norm, m, y) <= Axis(k, norm, m', y)
    {
      DistanceAt(k, norm, n, m', x, y);
      LabelIsLevel(k, b, c, n, m');
    }
  }

  /** The same for a bit of the second coordinate. */
  lemma SeparatesQ(k: nat, norm: real, b: nat, c: bool, x: real, y: real, d: real) returns (n: nat, m: nat)
    requires k <= b < 2 * k && NearestSymbol(k, norm, b, c, x, y, d)
    ensures LeastFor(k, b - k, c, norm, y, m) && LeastOf(k, norm, x, n)
    ensures d == Axis(k, norm, n, x) + Axis(k, norm, m, y)
  {
    hide IsSymbol, IsLevel, Distance, Axis, Label, FromGray, InGrid, Pow2;
    var i: nat :| IsSymbol(k, b, c, i) && d == Distance(k, norm, i, x, y);
    var b' := b - k;
    SymbolInRange(k, b, c, i);
    n, m := SymbolAt(k, norm, i, x, y);
    SymbolIsLevel(k, b, c, i);
    forall m': nat | IsLevel(k, b', c, m')
      ensures Axis(k, norm, m, y) <= Axis(k, norm, m', y)
    {
      GridOf(k, b', c, m');
      DistanceAt(k, norm, n, m', x, y);
      LabelIsLevel(k, b, c, n, m');
    }
    forall n': nat | InGrid(k, n')
      ensures Axis(k, norm, n, x) <= Axis(k, norm, n', x)
    {
      DistanceAt(k, norm, n', m, x, y);
      LabelIsLevel(k, b, c, n', m);
    }
  }

  /** In one dimension the nearest scaled level is the nearest level of the grid coordinate. */
  lemma LeastIsNearest(k: nat, b: nat, c: bool, denorm: real, x: real, n: nat)
    requires b < k && denorm > 0.0 && LeastFor(k, b, c, 1.0 / denorm, x, n)
    ensures Nearest(k, b, c, x * denorm, Square(x * denorm - Level(k, n)))
  {
    hide IsLevel, Level, Axis, Square;
    ScaledSquare(denorm, k, n, x);
    forall n': nat | IsLevel(k, b, c, n')
      ensures Square(x * denorm - Level(k, n)) <= Square(x * denorm - Level(k, n'))
    {
      ScaledSquare(denorm, k, n', x);
      ScaledOrder(Square(1.0 / denorm), Square(x * denorm - Level(k, n)), Square(x * denorm - Level(k, n')));
    }
  }

  lemma OneDimensionAgrees(k: nat, b: nat, denorm: real, x: real, n1: nat, n0: nat)
    requires b < k && denorm > 0.0
    requires LeastFor(k, b, true, 1.0 / denorm, x, n1) && LeastFor(k, b, false, 1.0 / denorm, x, n0)
    ensures Sign(Slice(k, b, x * denorm)) == Sign(Axis(k, 1.0 / denorm, n1, x) - Axis(k, 1.0 / denorm, n0, x))
  {
    hide Level, Axis, Square, Slice, LeastFor, Nearest, Sign;
    LeastIsNearest(k, b, true, denorm, x, n1);
    LeastIsNearest(k, b, false, denorm, x, n0);
    var q1, q0 := Square(x * denorm - Level(k, n1)), Square(x * denorm - Level(k, n0));
    SliceAgrees(k, b, x * denorm, q1, q0);
    ScaledSquare(denorm, k, n1, x);
    ScaledSquare(denorm, k, n0, x);
    var f := Square(1.0 / denorm);
    ScaledOrder(f, q1, q0);
    assert Axis(k, 1.0 / denorm, n1, x) - Axis(k, 1.0 / denorm, n0, x) == f * q1 - f * q0;
  }

  /** The slicer's value for bit b of a symbol: the first coordinate's bits, then the second's. */
  function SymbolSlice(k: nat, denorm: real, b: nat, x: real, y: real): real
    requires b < 2 * k
  {
    if b < k then Slice(k, b, x * denorm) else Slice(k, b - k, y * denorm)
  }

  /**
    For every received point and every bit: the slicer decides as the exhaustive search over the Gray-labelled
    grid.
   */
  lemma SymbolSliceAgrees(k: nat, denorm: real, b: nat, x: real, y: real, d1: real, d0: real)
    requires b < 2 * k && denorm > 0.0
    requires NearestSymbol(k, 1.0 / denorm, b, true, x, y, d1) && NearestSymbol(k, 1.0 / denorm, b, false, x, y, d0)
    ensures Sign(SymbolSlice(k, denorm, b, x, y)) == Sign(d1 - d0)
  {
    hide NearestSymbol, LeastFor, LeastOf, Slice, Axis, Sign;
    if b < k {
      var n1, m1 := SeparatesI(k, 1.0 / denorm, b, true, x, y, d1);
      var n0, m0 := SeparatesI(k, 1.0 / denorm, b, false, x, y, d0);
      SameLeast(k, 1.0 / denorm, y, m1, m0);
      OneDimensionAgrees(k, b, denorm, x, n1, n0);
    } else {
      var n1, m1 := SeparatesQ(k, 1.0 / denorm, b, true, x, y, d1);
      var n0, m0 := SeparatesQ(k, 1.0 / denorm, b, false, x, y, d0);
      SameLeast(k, 1.0 / denorm, x, n1, n0);
      OneDimensionAgrees(k, b - k, denorm, y, m1, m0);
    }
  }

  lemma SameLeast(k: nat, norm: real, y: real, m: nat, m': nat)
    requires LeastOf(k, norm, y, m) && LeastOf(k, norm, y, m')
    ensures Axis(k, norm, m, y) == Axis(k, norm, m', y)
  {
    hide Axis, InGrid;
  }
}
