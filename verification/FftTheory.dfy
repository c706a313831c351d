/**
  The radix-2 decimation-in-time transform over a commutative ring.

  `Stage(x, w, k, s)` is what the work buffer holds after s stages on an input x of
  2^k samples with root w: for s < k two independent transforms of the even and the odd
  samples, one in each half of the buffer.
 */
module FftTheory {
  import opened RingTheory
  import opened BitReversal

  ghost function Evens<T>(x: seq<T>): (y: seq<T>)
    ensures |y| == |x| / 2
  {
    seq(|x| / 2, i requires 0 <= i < |x| / 2 => x[2 * i])
  }

  ghost function Odds<T>(x: seq<T>): (y: seq<T>)
    ensures |y| == |x| / 2
  {
    seq(|x| / 2, i requires 0 <= i < |x| / 2 => x[2 * i + 1])
  }

  ghost function Upper<T>(R: Ring<T>, a: T, b: T, tw: T): T {
    R.add(a, R.mul(tw, b))
  }

  ghost function Lower<T>(R: Ring<T>, a: T, b: T, tw: T): T {
    R.add(a, R.neg(R.mul(tw, b)))
  }

  ghost function Butterfly<T(!new)>(R: Ring<T>, e: seq<T>, o: seq<T>, w: T): (y: seq<T>)
    requires |e| == |o|
    ensures |y| == 2 * |e|
  {
    seq(2 * |e|, j requires 0 <= j < 2 * |e| =>
      if j < |e| then Upper(R, e[j], o[j], Pow(R, w, j))
      else Lower(R, e[j - |e|], o[j - |e|], Pow(R, w, j - |e|)))
  }

  ghost function Stage<T(!new)>(R: Ring<T>, x: seq<T>, w: T, k: nat, s: nat): (y: seq<T>)
    requires |x| == Pow2(k) && s <= k
    ensures |y| == |x|
    decreases k
  {
    if k == 0 then x
    else
      var e, o, ww := Evens(x), Odds(x), R.mul(w, w);
      if s < k then Stage(R, e, ww, k - 1, s) + Stage(R, o, ww, k - 1, s)
      else Butterfly(R, Stage(R, e, ww, k - 1, k - 1), Stage(R, o, ww, k - 1, k - 1), w)
  }

  lemma StageHalves<T(!new)>(R: Ring<T>, x: seq<T>, w: T, k: nat, s: nat)
    requires |x| == Pow2(k) && s < k
    ensures |Evens(x)| == |Odds(x)| == Pow2(k - 1) && Pow2(k) == 2 * Pow2(k - 1)
    ensures Stage(R, x, w, k, s) ==
            Stage(R, Evens(x), R.mul(w, w), k - 1, s) + Stage(R, Odds(x), R.mul(w, w), k - 1, s)
  {}

  lemma StageLast<T(!new)>(R: Ring<T>, x: seq<T>, w: T, k: nat)
    requires |x| == Pow2(k) && k >= 1
    ensures |Evens(x)| == |Odds(x)| == Pow2(k - 1) && Pow2(k) == 2 * Pow2(k - 1)
    ensures Stage(R, x, w, k, k) ==
            Butterfly(R, Stage(R, Evens(x), R.mul(w, w), k - 1, k - 1), Stage(R, Odds(x), R.mul(w, w), k - 1, k - 1), w)
  {}

  // ---------- Loading in bit-reversed order ----------

  /** Before the first stage, sample i sits at the position with the bits of i reversed. */
  lemma {:induction false} LoadIsBitReversed<T(!new)>(R: Ring<T>, x: seq<T>, w: T, k: nat, i: nat)
    requires |x| == Pow2(k) && i < Pow2(k)
    ensures Rev(k, i) < Pow2(k) && Stage(R, x, w, k, 0)[Rev(k, i)] == x[i]
    decreases k
  {
    hide Stage, Rev, Pow2;
    RevBound(k, i);
    if k > 0 {
      RevStep(k - 1, i);
      RevBound(k - 1, i / 2);
      StageHalves(R, x, w, k, 0);
      var ww := R.mul(w, w);
      if i % 2 == 0 {
        LoadIsBitReversed(R, Evens(x), ww, k - 1, i / 2);
      } else {
        LoadIsBitReversed(R, Odds(x), ww, k - 1, i / 2);
      }
    } else {
      RevZero(i);
      StageNone(R, x, w);
    }
  }

  lemma StageNone<T(!new)>(R: Ring<T>, x: seq<T>, w: T)
    requires |x| == Pow2(0)
    ensures Stage(R, x, w, 0, 0) == x
  {}

  // ---------- One stage ----------

  /** Position q of block b after stage s + 1, in terms of the buffer after stage s. */
  ghost predicate StageStep<T(!new)>(R: Ring<T>, before: seq<T>, after: seq<T>, w: T, base: nat, q: nat, h: nat,
                              step: nat)
    requires |before| == |after| && q < 2 * h && base + 2 * h <= |before|
  {
    after[base + q] ==
    if q < h then Upper(R, before[base + q], before[base + q + h], Pow(R, w, q * step))
    else Lower(R, before[base + q - h], before[base + q], Pow(R, w, (q - h) * step))
  }

  lemma PowSquare<T(!new)>(R: Ring<T>, w: T, n: nat, step: nat)
    requires IsRing(R)
    ensures Pow(R, R.mul(w, w), n * step) == Pow(R, w, n * (2 * step))
  {
    var m := n * step;
    assert Pow(R, w, 2) == R.mul(w, Pow(R, w, 1));
    assert Pow(R, w, 1) == R.mul(w, R.one);
    Zero(R, w);
    PowMul(R, w, 2, m);
    assert 2 * m == n * (2 * step);
  }

  lemma {:induction false} Pow2Add(a: nat, b: nat)
    ensures Pow2(a + b) == Pow2(a) * Pow2(b)
  {
    if a > 0 {
      Pow2Add(a - 1, b);
    }
  }

  lemma BlockBound(b: nat, c: nat, m: nat)
    ensures b < c ==> b * m + m <= c * m
    ensures b >= c ==> b * m == c * m + (b - c) * m
  {
    if b < c {
      assert (b + 1) * m <= c * m;
    }
  }

  /** Block b of stage s + 1 lies in the first half when b < c, and else is block b - c of the second. */
  lemma BlockInHalf(k: nat, s: nat, b: nat, base: nat, c: nat, half: nat)
    requires s + 1 < k && c == Pow2(k - s - 2) && half == Pow2(k - 1) && base == b * (2 * Pow2(s))
    ensures Pow2(k - s - 1) == 2 * c
    ensures b < c ==> base + 2 * Pow2(s) <= half
    ensures b >= c ==> base >= half && base - half == (b - c) * (2 * Pow2(s))
  {
    hide Pow2;
    RevStep(k - s - 2, 0);
    RevStep(s, 0);
    Pow2Add(k - s - 2, s + 1);
    BlockBound(b, c, 2 * Pow2(s));
  }

  /** A step of one half, with the squared root and half the twiddle step, is a step of the whole. */
  lemma StageStepLeft<T(!new)>(R: Ring<T>, be: seq<T>, bo: seq<T>, ae: seq<T>, ao: seq<T>, w: T, base: nat, q: nat,
                        h: nat, c: nat)
    requires IsRing(R) && |be| == |ae| && |bo| == |ao| && q < 2 * h && base + 2 * h <= |be|
    requires StageStep(R, be, ae, R.mul(w, w), base, q, h, c)
    ensures StageStep(R, be + bo, ae + ao, w, base, q, h, 2 * c)
  {
    hide Pow, Upper, Lower, IsRing;
    if q < h {
      PowSquare(R, w, q, c);
    } else {
      PowSquare(R, w, q - h, c);
    }
  }

  lemma StageStepRight<T(!new)>(R: Ring<T>, be: seq<T>, bo: seq<T>, ae: seq<T>, ao: seq<T>, w: T, base: nat, q: nat,
                         h: nat, c: nat)
    requires IsRing(R) && |be| == |ae| && |bo| == |ao| && q < 2 * h && base + 2 * h <= |bo|
    requires StageStep(R, bo, ao, R.mul(w, w), base, q, h, c)
    ensures StageStep(R, be + bo, ae + ao, w, |be| + base, q, h, 2 * c)
  {
    hide Pow, Upper, Lower, IsRing;
    if q < h {
      PowSquare(R, w, q, c);
    } else {
      PowSquare(R, w, q - h, c);
    }
  }

  lemma ButterflyStep<T(!new)>(R: Ring<T>, e: seq<T>, o: seq<T>, w: T, q: nat)
    requires |e| == |o| && q < 2 * |e|
    ensures StageStep(R, e + o, Butterfly(R, e, o, w), w, 0, q, |e|, 1)
  {
    hide Pow, Upper, Lower;
  }

  lemma {:induction false} StageStepHolds<T(!new)>(R: Ring<T>, x: seq<T>, w: T, k: nat, s: nat, b: nat, base: nat,
                                            q: nat)
    requires IsRing(R) && |x| == Pow2(k) && s < k
    requires b < Pow2(k - s - 1) && q < 2 * Pow2(s) && base == b * (2 * Pow2(s))
    ensures base + 2 * Pow2(s) <= Pow2(k)
    ensures StageStep(R, Stage(R, x, w, k, s), Stage(R, x, w, k, s + 1), w, base, q, Pow2(s), Pow2(k - s - 1))
    decreases k
  {
    hide Stage, StageStep, IsRing, Pow2, Butterfly;
    var e, o, ww := Evens(x), Odds(x), R.mul(w, w);
    StageHalves(R, x, w, k, s);
    var be, bo := Stage(R, e, ww, k - 1, s), Stage(R, o, ww, k - 1, s);
    if s + 1 == k {
      StageLast(R, x, w, k);
      RevZero(0);
      ButterflyStep(R, be, bo, w, q);
    } else {
      StageHalves(R, x, w, k, s + 1);
      var ae, ao := Stage(R, e, ww, k - 1, s + 1), Stage(R, o, ww, k - 1, s + 1);
      var c, half := Pow2(k - s - 2), Pow2(k - 1);
      BlockInHalf(k, s, b, base, c, half);
      if b < c {
        StageStepHolds(R, e, ww, k - 1, s, b, base, q);
        StageStepLeft(R, be, bo, ae, ao, w, base, q, Pow2(s), c);
      } else {
        StageStepHolds(R, o, ww, k - 1, s, b - c, base - half, q);
        StageStepRight(R, be, bo, ae, ao, w, base - half, q, Pow2(s), c);
      }
    }
  }

  // ---------- The transform is the DFT ----------

  /** w^(N/2) = -1, for N = 2^k with k at least 1. */
  ghost predicate IsRoot<T(!new)>(R: Ring<T>, w: T, k: nat) {
    k >= 1 ==> Pow(R, w, Pow2(k - 1)) == R.neg(R.one)
  }

  lemma RootOfHalf<T(!new)>(R: Ring<T>, w: T, k: nat)
    requires IsRing(R) && k >= 1 && IsRoot(R, w, k)
    ensures IsRoot(R, R.mul(w, w), k - 1)
  {
    if k >= 2 {
      PowSquare(R, w, 1, Pow2(k - 2));
      assert 1 * Pow2(k - 2) == Pow2(k - 2);
      assert 1 * (2 * Pow2(k - 2)) == Pow2(k - 1);
    }
  }

  lemma SplitStep<T(!new)>(R: Ring<T>, a: T, b: T, y: T, e: T, o: T)
    requires IsRing(R)
    ensures var yy := R.mul(y, y);
      R.add(a, R.mul(y, R.add(b, R.mul(y, R.add(e, R.mul(y, o)))))) ==
      R.add(R.add(a, R.mul(yy, e)), R.mul(y, R.add(b, R.mul(yy, o))))
  {
    var yy, p := R.mul(y, y), R.add(e, R.mul(y, o));
    var yb, c, d := R.mul(y, b), R.mul(yy, e), R.mul(y, R.mul(yy, o));
    assert R.mul(y, R.add(b, R.mul(y, p))) == R.add(yb, R.add(c, d)) by {
      assert Laws(R, y, b, R.mul(y, p));
      assert Laws(R, y, y, p);
      assert Laws(R, yy, e, R.mul(y, o));
      assert Laws(R, yy, y, o);
      assert Laws(R, y, yy, o);
    }
    assert Laws(R, a, yb, R.add(c, d));
    Swap4(R, a, yb, c, d);
    assert Laws(R, y, b, R.mul(yy, o));
  }

  /** P(y) = E(y^2) + y O(y^2) */
  lemma {:induction false} SplitPoly<T(!new)>(R: Ring<T>, x: seq<T>, y: T)
    requires IsRing(R) && |x| % 2 == 0
    ensures PolyEval(R, x, y) ==
            R.add(PolyEval(R, Evens(x), R.mul(y, y)), R.mul(y, PolyEval(R, Odds(x), R.mul(y, y))))
    decreases |x|
  {
    if |x| == 0 {
      Zero(R, y);
      Zero(R, R.zero);
    } else {
      hide IsRing;
      var yy, z := R.mul(y, y), x[2..];
      SplitPoly(R, z, y);
      assert Evens(x)[1..] == Evens(z);
      assert Odds(x)[1..] == Odds(z);
      assert x[1..][1..] == z;
      SplitStep(R, x[0], x[1], y, PolyEval(R, Evens(z), yy), PolyEval(R, Odds(z), yy));
    }
  }

  /** w^(h+i) = -w^i when w^h = -1. */
  lemma HalfTurn<T(!new)>(R: Ring<T>, w: T, h: nat, i: nat)
    requires IsRing(R) && Pow(R, w, h) == R.neg(R.one)
    ensures Pow(R, w, h + i) == R.neg(Pow(R, w, i))
  {
    hide Pow;
    PowAdd(R, w, h, i);
    NegMul(R, R.one, Pow(R, w, i));
    Zero(R, Pow(R, w, i));
  }

  lemma EvalUpper<T(!new)>(R: Ring<T>, x: seq<T>, t: T)
    requires IsRing(R) && |x| % 2 == 0
    ensures Upper(R, PolyEval(R, Evens(x), R.mul(t, t)), PolyEval(R, Odds(x), R.mul(t, t)), t) == PolyEval(R, x, t)
  {
    hide PolyEval;
    SplitPoly(R, x, t);
  }

  lemma EvalLower<T(!new)>(R: Ring<T>, x: seq<T>, t: T)
    requires IsRing(R) && |x| % 2 == 0
    ensures Lower(R, PolyEval(R, Evens(x), R.mul(t, t)), PolyEval(R, Odds(x), R.mul(t, t)), t) ==
            PolyEval(R, x, R.neg(t))
  {
    hide PolyEval;
    SplitPoly(R, x, R.neg(t));
    SquareOfNeg(R, t);
    NegMul(R, t, PolyEval(R, Odds(x), R.mul(t, t)));
  }

  lemma EvalConstant<T(!new)>(R: Ring<T>, x: seq<T>, y: T)
    requires IsRing(R) && |x| == 1
    ensures PolyEval(R, x, y) == x[0]
  {
    assert x[1..] == [];
    assert PolyEval(R, x, y) == R.add(x[0], R.mul(y, PolyEval(R, x[1..], y)));
    Zero(R, y);
    Zero(R, x[0]);
  }

  /** After the last stage, position j holds the input's polynomial at w^j: the DFT. */
  lemma {:induction false} StageIsDft<T(!new)>(R: Ring<T>, x: seq<T>, w: T, k: nat, j: nat)
    requires IsRing(R) && |x| == Pow2(k) && IsRoot(R, w, k) && j < Pow2(k)
    ensures Stage(R, x, w, k, k)[j] == PolyEval(R, x, Pow(R, w, j))
    decreases k
  {
    hide Stage, IsRing, Pow2, Pow, PolyEval, Upper, Lower, Evens, Odds;
    if k == 0 {
      RevZero(0);
      StageNone(R, x, w);
      EvalConstant(R, x, Pow(R, w, j));
    } else {
      var e, o, ww := Evens(x), Odds(x), R.mul(w, w);
      StageLast(R, x, w, k);
      var h := Pow2(k - 1);
      RootOfHalf(R, w, k);
      var i := if j < h then j else j - h;
      StageIsDft(R, e, ww, k - 1, i);
      StageIsDft(R, o, ww, k - 1, i);
      PowOfProduct(R, w, w, i);
      if j < h {
        EvalUpper(R, x, Pow(R, w, i));
      } else {
        HalfTurn(R, w, h, i);
        EvalLower(R, x, Pow(R, w, i));
      }
    }
  }

  lemma SquareOfNeg<T(!new)>(R: Ring<T>, t: T)
    requires IsRing(R)
    ensures R.mul(R.neg(t), R.neg(t)) == R.mul(t, t)
  {
    var n := R.neg(t);
    NegMul(R, t, n);
    NegMul(R, t, t);
    assert Laws(R, t, n, n);
    var tt := R.mul(t, t);
    assert R.mul(n, n) == R.neg(R.neg(tt));
    assert Laws(R, tt, R.neg(tt), tt);
    NegUnique(R, R.neg(tt), tt);
  }

  // ---------- The inverse transform ----------

  ghost function Dft<T(!new)>(R: Ring<T>, x: seq<T>, w: T): (y: seq<T>)
    ensures |y| == |x|
  {
    seq(|x|, j requires 0 <= j < |x| => PolyEval(R, x, Pow(R, w, j)))
  }

  /** 1 + u + ... + u^(n-1) */
  ghost function Geometric<T(!new)>(R: Ring<T>, u: T, n: nat): T {
    if n == 0 then R.zero else R.add(R.one, R.mul(u, Geometric(R, u, n - 1)))
  }

  /** 1 + 1 + ... + 1, n times. */
  ghost function Times<T(!new)>(R: Ring<T>, n: nat): T {
    if n == 0 then R.zero else R.add(R.one, Times(R, n - 1))
  }

  lemma {:induction false} GeometricOne<T(!new)>(R: Ring<T>, n: nat)
    requires IsRing(R)
    ensures Geometric(R, R.one, n) == Times(R, n)
  {
    if n > 0 {
      GeometricOne(R, n - 1);
      Zero(R, Times(R, n - 1));
    }
  }

  lemma {:induction false} GeometricAdd<T(!new)>(R: Ring<T>, u: T, m: nat, n: nat)
    requires IsRing(R)
    ensures Geometric(R, u, m + n) == R.add(Geometric(R, u, m), R.mul(Pow(R, u, m), Geometric(R, u, n)))
  {
    var g := Geometric(R, u, n);
    if m == 0 {
      Zero(R, g);
    } else {
      GeometricAdd(R, u, m - 1, n);
      var a, p := Geometric(R, u, m - 1), Pow(R, u, m - 1);
      assert Laws(R, u, a, R.mul(p, g));
      assert Laws(R, u, p, g);
      assert Laws(R, R.one, R.mul(u, a), R.mul(R.mul(u, p), g));
    }
  }

  /** If some u^(2^a) with a < k is -1, the first 2^k powers of u sum to zero. */
  lemma {:induction false} GeometricVanishes<T(!new)>(R: Ring<T>, u: T, k: nat, a: nat)
    requires IsRing(R) && a < k && Pow(R, u, Pow2(a)) == R.neg(R.one)
    ensures Geometric(R, u, Pow2(k)) == R.zero
  {
    var h := Pow2(k - 1);
    GeometricAdd(R, u, h, h);
    var g := Geometric(R, u, h);
    if a == k - 1 {
      NegMul(R, R.one, g);
      Zero(R, g);
      assert Laws(R, g, g, g);
    } else {
      GeometricVanishes(R, u, k - 1, a);
      Zero(R, Pow(R, u, h));
      Zero(R, R.zero);
    }
  }

  /** d = 2^a times an odd number. */
  lemma {:induction false} OddPart(d: nat) returns (a: nat, c: nat)
    requires d > 0
    ensures d == Pow2(a) * (2 * c + 1)
  {
    if d % 2 == 1 {
      a, c := 0, d / 2;
    } else {
      a, c := OddPart(d / 2);
      a := a + 1;
      assert d == 2 * (Pow2(a - 1) * (2 * c + 1));
    }
  }

  lemma {:induction false} NegOneOddPower<T(!new)>(R: Ring<T>, c: nat)
    requires IsRing(R)
    ensures Pow(R, R.neg(R.one), 2 * c + 1) == R.neg(R.one)
  {
    var n := R.neg(R.one);
    Zero(R, n);
    if c > 0 {
      NegOneOddPower(R, c - 1);
      SquareOfNeg(R, R.one);
      Zero(R, R.one);
      assert Pow(R, n, 2 * c + 1) == R.mul(n, R.mul(n, Pow(R, n, 2 * c - 1)));
      assert Laws(R, n, n, n);
    }
  }

  lemma AtLeast(p: nat, q: nat)
    requires p >= 1
    ensures p * q >= q && q * p >= q
  {}

  lemma OddPower<T(!new)>(R: Ring<T>, w: T, d: nat, p: nat, h: nat, c: nat)
    requires IsRing(R) && d * p == h * (2 * c + 1) && Pow(R, w, h) == R.neg(R.one)
    ensures Pow(R, Pow(R, w, d), p) == R.neg(R.one)
  {
    hide Pow;
    PowMul(R, w, d, p);
    PowMul(R, w, h, 2 * c + 1);
    NegOneOddPower(R, c);
  }

  /** d times 2^(k-1-a) is an odd multiple of 2^(k-1). */
  lemma OddPartFits(d: nat, k: nat, a: nat, c: nat)
    requires d < Pow2(k) && d == Pow2(a) * (2 * c + 1)
    ensures a < k && d * Pow2(k - 1 - a) == Pow2(k - 1) * (2 * c + 1)
  {
    hide Pow2;
    if a >= k {
      Pow2Add(a - k, k);
      AtLeast(Pow2(a - k), Pow2(k));
      AtLeast(2 * c + 1, Pow2(a));
    } else {
      Pow2Add(a, k - 1 - a);
      var p, q := Pow2(a), Pow2(k - 1 - a);
      assert p * (2 * c + 1) * q == p * q * (2 * c + 1);
    }
  }

  /** For 0 < d < 2^k the powers of w^d sum to zero. */
  lemma RootSumVanishes<T(!new)>(R: Ring<T>, w: T, k: nat, d: nat)
    requires IsRing(R) && IsRoot(R, w, k) && 0 < d < Pow2(k)
    ensures Geometric(R, Pow(R, w, d), Pow2(k)) == R.zero
  {
    hide Pow, Pow2, Geometric, IsRing;
    var a, c := OddPart(d);
    OddPartFits(d, k, a, c);
    OddPower(R, w, d, Pow2(k - 1 - a), Pow2(k - 1), c);
    GeometricVanishes(R, Pow(R, w, d), k, k - 1 - a);
  }

  /** The terms w^(off j) x(w^j) for j < n. */
  ghost function Twisted<T(!new)>(R: Ring<T>, x: seq<T>, w: T, off: nat, n: nat): (y: seq<T>)
    ensures |y| == n
  {
    seq(n, j requires 0 <= j < n => R.mul(Pow(R, w, off * j), PolyEval(R, x, Pow(R, w, j))))
  }

  ghost function AddSeq<T(!new)>(R: Ring<T>, a: seq<T>, b: seq<T>): (c: seq<T>)
    requires |a| == |b|
    ensures |c| == |a|
  {
    seq(|a|, i requires 0 <= i < |a| => R.add(a[i], b[i]))
  }

  /** a, a u, a u^2, ... */
  ghost function Powers<T(!new)>(R: Ring<T>, a: T, u: T, n: nat): (y: seq<T>)
    ensures |y| == n
  {
    if n == 0 then [] else [a] + Powers(R, R.mul(a, u), u, n - 1)
  }

  lemma {:induction false} PowersAt<T(!new)>(R: Ring<T>, a: T, u: T, n: nat, j: nat)
    requires IsRing(R) && j < n
    ensures Powers(R, a, u, n)[j] == R.mul(a, Pow(R, u, j))
  {
    if j == 0 {
      Zero(R, a);
    } else {
      PowersAt(R, R.mul(a, u), u, n - 1, j - 1);
      assert Laws(R, a, u, Pow(R, u, j - 1));
    }
  }

  lemma {:induction false} PowersEval<T(!new)>(R: Ring<T>, a: T, u: T, n: nat, z: T)
    requires IsRing(R)
    ensures PolyEval(R, Powers(R, a, u, n), z) == R.mul(a, Geometric(R, R.mul(u, z), n))
  {
    if n == 0 {
      Zero(R, a);
    } else {
      PowersEval(R, R.mul(a, u), u, n - 1, z);
      assert Powers(R, a, u, n)[1..] == Powers(R, R.mul(a, u), u, n - 1);
      var g := Geometric(R, R.mul(u, z), n - 1);
      Zero(R, a);
      assert Laws(R, a, R.one, R.mul(R.mul(u, z), g));
      assert R.mul(z, R.mul(R.mul(a, u), g)) == R.mul(a, R.mul(R.mul(u, z), g)) by {
        assert Laws(R, z, R.mul(a, u), g);
        assert Laws(R, a, u, z);
        assert Laws(R, a, R.mul(u, z), g);
      }
    }
  }

  lemma {:induction false} EvalAdd<T(!new)>(R: Ring<T>, a: seq<T>, b: seq<T>, z: T)
    requires IsRing(R) && |a| == |b|
    ensures PolyEval(R, AddSeq(R, a, b), z) == R.add(PolyEval(R, a, z), PolyEval(R, b, z))
  {
    if |a| == 0 {
      Zero(R, R.zero);
    } else {
      EvalAdd(R, a[1..], b[1..], z);
      assert AddSeq(R, a, b)[1..] == AddSeq(R, a[1..], b[1..]);
      var p, q := PolyEval(R, a[1..], z), PolyEval(R, b[1..], z);
      assert Laws(R, z, p, q);
      Swap4(R, a[0], b[0], R.mul(z, p), R.mul(z, q));
    }
  }

  /** The sum over i of x[i] times the geometric sum of w^(off + i) z. */
  ghost function WeightedGeometric<T(!new)>(R: Ring<T>, x: seq<T>, w: T, off: nat, n: nat, z: T): T {
    if |x| == 0 then R.zero
    else R.add(R.mul(x[0], Geometric(R, R.mul(Pow(R, w, off), z), n)), WeightedGeometric(R, x[1..], w, off + 1, n, z))
  }

  lemma TwistedTerm<T(!new)>(R: Ring<T>, x: seq<T>, w: T, off: nat, j: nat)
    requires IsRing(R) && |x| >= 1
    ensures R.mul(Pow(R, w, off * j), PolyEval(R, x, Pow(R, w, j))) ==
            R.add(R.mul(x[0], Pow(R, Pow(R, w, off), j)),
                  R.mul(Pow(R, w, (off + 1) * j), PolyEval(R, x[1..], Pow(R, w, j))))
  {
    var p, y, e := Pow(R, w, off * j), Pow(R, w, j), PolyEval(R, x[1..], Pow(R, w, j));
    assert PolyEval(R, x, y) == R.add(x[0], R.mul(y, e));
    hide Pow, PolyEval;
    assert Laws(R, p, x[0], R.mul(y, e));
    assert Laws(R, p, y, e);
    PowAdd(R, w, off * j, j);
    assert off * j + j == (off + 1) * j;
    PowMul(R, w, off, j);
  }

  lemma {:induction false} TwistedEval<T(!new)>(R: Ring<T>, x: seq<T>, w: T, off: nat, n: nat, z: T)
    requires IsRing(R)
    ensures PolyEval(R, Twisted(R, x, w, off, n), z) == WeightedGeometric(R, x, w, off, n, z)
    decreases |x|
  {
    if |x| == 0 {
      ZeroEval(R, Twisted(R, x, w, off, n), z) by {
        forall j | 0 <= j < n
          ensures Twisted(R, x, w, off, n)[j] == R.zero
        {
          Zero(R, Pow(R, w, off * j));
          assert PolyEval(R, x, Pow(R, w, j)) == R.zero;
        }
      }
    } else {
      var u := Pow(R, w, off);
      TwistedEval(R, x[1..], w, off + 1, n, z);
      var a, b := Powers(R, x[0], u, n), Twisted(R, x[1..], w, off + 1, n);
      forall j | 0 <= j < n
        ensures Twisted(R, x, w, off, n)[j] == R.add(a[j], b[j])
      {
        TwistedTerm(R, x, w, off, j);
        PowersAt(R, x[0], u, n, j);
      }
      assert Twisted(R, x, w, off, n) == AddSeq(R, a, b);
      EvalAdd(R, a, b, z);
      PowersEval(R, x[0], u, n, z);
    }
  }

  lemma {:induction false} ZeroEval<T(!new)>(R: Ring<T>, x: seq<T>, z: T)
    requires IsRing(R) && forall j :: 0 <= j < |x| ==> x[j] == R.zero
    ensures PolyEval(R, x, z) == R.zero
  {
    if |x| > 0 {
      ZeroEval(R, x[1..], z);
      Zero(R, z);
      Zero(R, R.zero);
    }
  }

  lemma InverseRoot<T(!new)>(R: Ring<T>, w: T, v: T, k: nat)
    requires IsRing(R) && IsRoot(R, w, k) && R.mul(w, v) == R.one
    ensures IsRoot(R, v, k)
  {
    hide Pow, Pow2;
    if k >= 1 {
      var h := Pow2(k - 1);
      PowOfProduct(R, w, v, h);
      PowOne(R, h);
      var q := Pow(R, v, h);
      NegMul(R, R.one, q);
      Zero(R, q);
      assert Laws(R, q, R.neg(q), q);
      NegUnique(R, R.neg(q), q);
    }
  }

  /** w^i v^l for w v = 1. */
  lemma PowerQuotient<T(!new)>(R: Ring<T>, w: T, v: T, i: nat, l: nat)
    requires IsRing(R) && R.mul(w, v) == R.one
    ensures R.mul(Pow(R, w, i), Pow(R, v, l)) == if i >= l then Pow(R, w, i - l) else Pow(R, v, l - i)
  {
    hide Pow;
    var m := if i >= l then l else i;
    var a, b := Pow(R, w, i - m), Pow(R, v, l - m);
    PowAdd(R, w, i - m, m);
    PowAdd(R, v, m, l - m);
    PowOfProduct(R, w, v, m);
    PowOne(R, m);
    var p, q := Pow(R, w, m), Pow(R, v, m);
    assert Laws(R, a, p, R.mul(q, b));
    assert Laws(R, p, q, b);
    Zero(R, b);
    Zero(R, a);
    PowZero(R, w);
    PowZero(R, v);
  }

  lemma PowZero<T(!new)>(R: Ring<T>, w: T)
    ensures Pow(R, w, 0) == R.one
  {}

  lemma GeometricOfQuotient<T(!new)>(R: Ring<T>, w: T, v: T, k: nat, i: nat, l: nat)
    requires IsRing(R) && IsRoot(R, w, k) && R.mul(w, v) == R.one && i < Pow2(k) && l < Pow2(k)
    ensures Geometric(R, R.mul(Pow(R, w, i), Pow(R, v, l)), Pow2(k)) ==
            if i == l then Times(R, Pow2(k)) else R.zero
  {
    hide Pow, Pow2, Geometric, Times, IsRing;
    PowerQuotient(R, w, v, i, l);
    if i == l {
      PowZero(R, w);
      GeometricOne(R, Pow2(k));
    } else if i > l {
      RootSumVanishes(R, w, k, i - l);
    } else {
      InverseRoot(R, w, v, k);
      RootSumVanishes(R, v, k, l - i);
    }
  }

  lemma {:induction false} WeightedGeometricPicks<T(!new)>(R: Ring<T>, x: seq<T>, w: T, v: T, k: nat, off: nat, l: nat)
    requires IsRing(R) && IsRoot(R, w, k) && R.mul(w, v) == R.one && l < Pow2(k) && off + |x| <= Pow2(k)
    ensures WeightedGeometric(R, x, w, off, Pow2(k), Pow(R, v, l)) ==
            if off <= l < off + |x| then R.mul(x[l - off], Times(R, Pow2(k))) else R.zero
    decreases |x|
  {
    hide Pow, Pow2, Geometric, Times, IsRing;
    if |x| > 0 {
      WeightedGeometricPicks(R, x[1..], w, v, k, off + 1, l);
      GeometricOfQuotient(R, w, v, k, off, l);
      Zero(R, x[0]);
      Zero(R, R.mul(x[0], Times(R, Pow2(k))));
      Zero(R, WeightedGeometric(R, x[1..], w, off + 1, Pow2(k), Pow(R, v, l)));
    }
  }

  /** The transform with the inverse root after the transform gives N times the input. */
  lemma InverseAfterForward<T(!new)>(R: Ring<T>, x: seq<T>, w: T, v: T, k: nat, l: nat)
    requires IsRing(R) && IsRoot(R, w, k) && R.mul(w, v) == R.one && |x| == Pow2(k) && l < |x|
    ensures Dft(R, Dft(R, x, w), v)[l] == R.mul(x[l], Times(R, Pow2(k)))
  {
    hide Pow, Pow2, Geometric, Times, IsRing, PolyEval;
    var n := Pow2(k);
    forall j | 0 <= j < n
      ensures Dft(R, x, w)[j] == Twisted(R, x, w, 0, n)[j]
    {
      PowZero(R, w);
      assert 0 * j == 0;
      Zero(R, PolyEval(R, x, Pow(R, w, j)));
    }
    assert Dft(R, x, w) == Twisted(R, x, w, 0, n);
    TwistedEval(R, x, w, 0, n, Pow(R, v, l));
    WeightedGeometricPicks(R, x, w, v, k, 0, l);
  }
}
