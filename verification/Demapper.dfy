/** The constellation demapper for uniform grids: its tables, the max-log search, and the slicer paths. */
module Demapping {
  import opened BitReversal
  import opened GrayCode
  import opened Slicer

  const QAM_DENORM_4: real := 1.4142135623730951
  const QAM_DENORM_16: real := 3.1622776601683795
  const QAM_DENORM_64: real := 6.4807406984078604
  const QAM_DENORM_256: real := 13.038404810405298
  const QAM_DENORM_1024: real := 26.115126958080672
  const QAM_DENORM_4096: real := 52.24940191045253

  /** The reciprocal of the norm of the uniform grid with k bits per dimension. */
  function DenormOf(k: nat): (d: real)
    requires 1 <= k <= 6
    ensures d > 0.0
  {
    if k == 1 then QAM_DENORM_4 else if k == 2 then QAM_DENORM_16 else if k == 3 then QAM_DENORM_64
    else if k == 4 then QAM_DENORM_256 else if k == 5 then QAM_DENORM_1024 else QAM_DENORM_4096
  }

  /** The sum of the squares of the first m levels of one dimension. */
  ghost function Energy(k: nat, m: nat): int {
    if m == 0 then 0
    else
      var level := 2 * (m as int - 1) - Pow2(k) + 1;
      Energy(k, m - 1) + level * level
  }

  lemma {:induction false} EnergyIs(k: nat, m: nat)
    ensures var p: int := Pow2(k);
            3 * Energy(k, m) == 4 * (m * m * m) - m - 6 * (p * (m * m)) + 3 * (p * p * m)
  {
    if m > 0 {
      EnergyIs(k, m - 1);
      EnergyStep(m - 1, Pow2(k));
    }
  }

  lemma EnergyStep(m: int, p: int)
    ensures var n, level := m + 1, 2 * m - p + 1;
            4 * (n * n * n) - n - 6 * (p * (n * n)) + 3 * (p * p * n) ==
            4 * (m * m * m) - m - 6 * (p * (m * m)) + 3 * (p * p * m) + 3 * (level * level)
  {
    NextPowers(m, p, m * m, p * p);
    LevelSquare(m, p);
  }

  lemma NextPowers(m: int, p: int, mm: int, pp: int)
    requires mm == m * m
    ensures (m + 1) * (m + 1) == mm + 2 * m + 1
    ensures (m + 1) * (m + 1) * (m + 1) == mm * m + 3 * mm + 3 * m + 1
    ensures p * ((m + 1) * (m + 1)) == p * mm + 2 * (p * m) + p
    ensures pp * (m + 1) == pp * m + pp
  {
    var q := mm + 2 * m + 1;
    assert (m + 1) * (m + 1) == q;
    assert q * (m + 1) == q * m + q;
    assert q * m == mm * m + 2 * mm + m;
    assert p * q == p * mm + p * (2 * m) + p;
  }

  lemma LevelSquare(m: int, p: int)
    ensures var level := 2 * m - p + 1;
            level * level == 4 * (m * m) - 4 * (p * m) + p * p + 4 * m - 2 * p + 1
  {
    var level, a := 2 * m - p + 1, 2 * m - p;
    assert level * level == a * a + 2 * a + 1;
    assert a * a == a * (2 * m) - a * p;
    assert a * (2 * m) == 4 * (m * m) - 2 * (p * m);
    assert a * p == 2 * (m * p) - p * p;
  }

  /** Two dimensions' mean square of the levels. */
  ghost function MeanPower(k: nat): real {
    2.0 * Energy(k, Pow2(k)) as real / Pow2(k) as real
  }

  lemma EnergyAll(k: nat, p: int, e: int)
    requires p == Pow2(k) && p * p * p - p == 3 * e
    ensures Energy(k, Pow2(k)) == e
  {
    hide Energy, Pow2;
    EnergyIs(k, Pow2(k));
    assert p * (p * p) == p * p * p;
  }

  lemma SmallPowers()
    ensures Pow2(1) == 2 && Pow2(2) == 4 && Pow2(3) == 8 && Pow2(4) == 16 && Pow2(5) == 32 && Pow2(6) == 64
  {}

  lemma PowerIs(k: nat)
    requires 1 <= k <= 6
    ensures MeanPower(k) == [2.0, 10.0, 42.0, 170.0, 682.0, 2730.0][k - 1]
  {
    hide Energy, Pow2;
    SmallPowers();
    match k
    case 1 => EnergyAll(1, 2, 2);
    case 2 => EnergyAll(2, 4, 20);
    case 3 => EnergyAll(3, 8, 168);
    case 4 => EnergyAll(4, 16, 1360);
    case 5 => EnergyAll(5, 32, 10912);
    case _ => EnergyAll(6, 64, 87360);
  }

  /**
    Divided by their denormalisations the grids have unit mean power, but for the grid of 1024 points, whose constant
    is too small in its seventh place.
   */
  lemma UnitPower(k: nat)
    requires 1 <= k <= 6
    ensures var d := DenormOf(k);
            if k == 5 then 0.0001 < MeanPower(k) - d * d < 0.0002
            else -0.000000000001 < MeanPower(k) - d * d < 0.000000000001
  {
    hide MeanPower;
    PowerIs(k);
  }

  datatype Symbol = Symbol(re: real, im: real)

  /** The float maximum that the search starts from; every distance is below it. */
  datatype Best = Unbounded | At(distance: real)

  // ---------- Quantisation ----------

  /** r is v cut to the clip on either side and otherwise the integer nearest to it, ties away from zero. */
  ghost predicate Quantised(v: real, clip: nat, r: int) {
    var top := clip as real;
    && (v >= top ==> r == clip)
    && (v <= -top ==> r == -(clip as int))
    && (-top <= v <= top ==>
          && -0.5 <= r as real - v <= 0.5
          && (r as real - v == -0.5 ==> v < 0.0) && (r as real - v == 0.5 ==> v > 0.0))
  }

  /** Clip, then round half away from zero. */
  function ClampRound(v: real, clip: nat): (r: int)
    ensures Quantised(v, clip, r)
  {
    var w := if v > clip as real then clip as real else if v < -(clip as real) then -(clip as real) else v;
    if w >= 0.0 then (w + 0.5).Floor else -((-w + 0.5).Floor)
  }

  /** Nothing else is the clipped and rounded form of a value. */
  lemma QuantisedUnique(v: real, clip: nat, r: int, s: int)
    requires Quantised(v, clip, r) && Quantised(v, clip, s)
    ensures r == s
  {
    var top := clip as real;
    if -top < v < top {
      assert -1.0 <= (r - s) as real <= 1.0;
    }
  }

  /** A stronger value never gives a weaker output. */
  lemma QuantisedMonotone(v: real, w: real, clip: nat)
    requires v <= w
    ensures ClampRound(v, clip) <= ClampRound(w, clip)
  {}

  /** Quantising may lose a weak decision but never turns one around. */
  lemma ClampRoundKeepsSign(v: real, clip: nat)
    ensures -(clip as int) <= ClampRound(v, clip) <= clip
    ensures ClampRound(v, clip) > 0 ==> v > 0.0
    ensures ClampRound(v, clip) < 0 ==> v < 0.0
    ensures clip > 0 ==> (ClampRound(v, clip) == 0 <==> -0.5 < v < 0.5)
  {}

  // ---------- The constellation ----------

  function Point(k: nat, norm: real, i: nat): Symbol {
    Symbol(LevelI(k, i) * norm, LevelQ(k, i) * norm)
  }

  ghost predicate IsConstellation(k: nat, norm: real, points: seq<Symbol>) {
    |points| == Pow2(2 * k) && forall i :: 0 <= i < |points| ==> points[i] == Point(k, norm, i)
  }

  method BuildUniformQam(k: nat, norm: real) returns (points: seq<Symbol>)
    ensures IsConstellation(k, norm, points)
  {
    hide FromGray;
    var m, side := Pow2(2 * k), Pow2(k);
    points := [];
    for i := 0 to m
      invariant |points| == i
      invariant forall j :: 0 <= j < i ==> points[j] == Point(k, norm, j)
    {
      var index := ComputeFromGray(i / side);
      var qIndex := ComputeFromGray(i % side);
      var re := (2 * (index as int) - side + 1) as real;
      var im := (2 * (qIndex as int) - side + 1) as real;
      points := points + [Symbol(re * norm, im * norm)];
    }
  }

  /** The labels below m whose bit b has value c, in ascending order. */
  ghost predicate IsList(k: nat, b: nat, c: bool, m: nat, list: seq<nat>)
    requires b < 2 * k
  {
    && (forall j :: 0 <= j < |list| ==> list[j] < m && (Bit(list[j], 2 * k - 1 - b) <==> c))
    && (forall i: nat :: i < m && (Bit(i, 2 * k - 1 - b) <==> c) ==> i in list)
    && (forall j, l :: 0 <= j < l < |list| ==> list[j] < list[l])
  }

  method BuildBitLists(k: nat, b: nat) returns (sets: seq<nat>, clears: seq<nat>)
    requires b < 2 * k
    ensures IsList(k, b, true, Pow2(2 * k), sets) && IsList(k, b, false, Pow2(2 * k), clears)
  {
    hide Bit;
    sets, clears := [], [];
    for i := 0 to Pow2(2 * k)
      invariant IsList(k, b, true, i, sets) && IsList(k, b, false, i, clears)
    {
      if Bit(i, 2 * k - 1 - b) {
        sets := sets + [i];
      } else {
        clears := clears + [i];
      }
    }
  }

  function SquaredDistance(a: Symbol, b: Symbol): real {
    (a.re - b.re) * (a.re - b.re) + (a.im - b.im) * (a.im - b.im)
  }

  lemma DistanceIs(k: nat, norm: real, i: nat, s: Symbol)
    ensures SquaredDistance(s, Point(k, norm, i)) == Distance(k, norm, i, s.re, s.im)
  {
    hide LevelI, LevelQ;
  }

  lemma {:induction false} HighestBit(j: nat)
    ensures Bit(Pow2(j), j) && !Bit(0, j)
    decreases j
  {
    if j > 0 {
      HighestBit(j - 1);
    }
  }

  lemma {:induction false} Pow2Grows(j: nat, n: nat)
    requires j < n
    ensures Pow2(j) < Pow2(n)
    decreases n
  {
    if j < n - 1 {
      Pow2Grows(j, n - 1);
    }
  }

  /** Half of the labels have the bit and half do not: neither list is empty. */
  lemma ListsNotEmpty(k: nat, b: nat, c: bool, list: seq<nat>)
    requires b < 2 * k && IsList(k, b, c, Pow2(2 * k), list)
    ensures |list| > 0
  {
    hide Bit, Pow2;
    var j := 2 * k - 1 - b;
    HighestBit(j);
    Pow2Grows(j, 2 * k);
    var i := if c then Pow2(j) else 0;
    assert i in list;
  }

  // ---------- The slicer paths ----------

  /** A decision value times the log-likelihood scale. */
  function Scaled(v: real, s: real): real {
    v * s
  }

  lemma ScaledSign(v: real, s: real)
    requires s > 0.0
    ensures Sign(Scaled(v, s)) == Sign(v)
  {
    ScaledOrder(s, v, 0.0);
  }

  /** The values are the slicer's, first the bits of x and then those of y, times s. */
  ghost predicate AreSlices(k: nat, x: real, y: real, s: real, out: seq<real>) {
    && |out| == 2 * k
    && (forall b :: 0 <= b < k ==> out[b] == Slice(k, b, x) * s)
    && (forall b :: k <= b < 2 * k ==> out[b] == Slice(k, b - k, y) * s)
  }

  lemma Both(k: nat, x: real, y: real, s: real, out: seq<real>)
    requires |out| == 2 * k
    requires forall b :: 0 <= b < k ==> out[b] == Scaled(Slice(k, b, x), s) && out[b + k] == Scaled(Slice(k, b, y), s)
    ensures AreSlices(k, x, y, s, out)
  {
    hide Slice;
    forall b | k <= b < 2 * k
      ensures out[b] == Slice(k, b - k, y) * s
    {
      var a := b - k;
      assert out[a + k] == Scaled(Slice(k, a, y), s);
    }
  }

  /** The values are the slicer's for the point i, q on a grid scaled by d. */
  ghost predicate AreSlicesOf(k: nat, i: real, q: real, scale: real, d: real, out: seq<real>)
    requires d > 0.0
  {
    AreSlices(k, i * d, q * d, scale / d, out)
  }

  /** Without a denormalisation the values are the slicer's on any grid. */
  method DemapQpskFast(i: real, q: real, scale: real) returns (out: seq<real>)
    ensures |out| == 2 && forall d :: d > 0.0 ==> AreSlicesOf(1, i, q, scale, d, out)
  {
    hide AreSlicesOf, Scaled;
    out := [Scaled(-i, scale), Scaled(-q, scale)];
    forall d | d > 0.0
      ensures AreSlicesOf(1, i, q, scale, d, out)
    {
      QpskIsSliced(i, q, scale, d, out);
    }
  }

  lemma QpskIsSliced(i: real, q: real, scale: real, d: real, out: seq<real>)
    requires d > 0.0 && out == [Scaled(-i, scale), Scaled(-q, scale)]
    ensures AreSlicesOf(1, i, q, scale, d, out)
  {
    Rescaled(i, scale, d);
    Rescaled(q, scale, d);
  }

  lemma Rescaled(x: real, scale: real, d: real)
    requires d > 0.0
    ensures Scaled(-x, scale) == Scaled(-(x * d), scale / d)
  {
    assert d * (scale / d) == scale;
    assert -(x * d) * (scale / d) == -x * (d * (scale / d));
  }

  method DemapQam16Fast(i: real, q: real, scale: real) returns (out: seq<real>)
    ensures |out| == 4 && AreSlices(2, i * QAM_DENORM_16, q * QAM_DENORM_16, scale / QAM_DENORM_16, out)
  {
    hide Slice, Abs, Scaled;
    var x, y, s := i * QAM_DENORM_16, q * QAM_DENORM_16, scale / QAM_DENORM_16;
    var absI, absQ := Abs(x), Abs(y);
    out := [Scaled(-x, s), Scaled(absI - 2.0, s), Scaled(-y, s), Scaled(absQ - 2.0, s)];
    Are16(x, y, s, out);
  }

  lemma Slices16(x: real)
    ensures Slice(2, 0, x) == -x && Slice(2, 1, x) == Abs(x) - 2.0
  {}

  method DemapQam64Fast(i: real, q: real, scale: real) returns (out: seq<real>)
    ensures |out| == 6 && AreSlices(3, i * QAM_DENORM_64, q * QAM_DENORM_64, scale / QAM_DENORM_64, out)
  {
    hide Slice, Abs, Scaled;
    var x, y, s := i * QAM_DENORM_64, q * QAM_DENORM_64, scale / QAM_DENORM_64;
    var absI, absQ := Abs(x), Abs(y);
    var distI, distQ := Abs(absI - 4.0), Abs(absQ - 4.0);
    out := [Scaled(-x, s), Scaled(absI - 4.0, s), Scaled(distI - 2.0, s),
            Scaled(-y, s), Scaled(absQ - 4.0, s), Scaled(distQ - 2.0, s)];
    Are64(x, y, s, out);
  }

  lemma Slices64(x: real)
    ensures Slice(3, 0, x) == -x && Slice(3, 1, x) == Abs(x) - 4.0
    ensures Slice(3, 2, x) == Abs(Abs(x) - 4.0) - 2.0
  {
    Slices16(4.0 - Abs(x));
  }

  method DemapQam256Fast(i: real, q: real, scale: real) returns (out: seq<real>)
    ensures |out| == 8 && AreSlices(4, i * QAM_DENORM_256, q * QAM_DENORM_256, scale / QAM_DENORM_256, out)
  {
    hide Slice, Abs, Scaled;
    var x, y, s := i * QAM_DENORM_256, q * QAM_DENORM_256, scale / QAM_DENORM_256;
    var absI, absQ := Abs(x), Abs(y);
    var distI1, distQ1 := Abs(absI - 8.0), Abs(absQ - 8.0);
    var distI2, distQ2 := Abs(distI1 - 4.0), Abs(distQ1 - 4.0);
    out := [Scaled(-x, s), Scaled(absI - 8.0, s), Scaled(distI1 - 4.0, s), Scaled(distI2 - 2.0, s),
            Scaled(-y, s), Scaled(absQ - 8.0, s), Scaled(distQ1 - 4.0, s), Scaled(distQ2 - 2.0, s)];
    Are256(x, y, s, out);
  }

  lemma Slices256(x: real)
    ensures Slice(4, 0, x) == -x && Slice(4, 1, x) == Abs(x) - 8.0
    ensures Slice(4, 2, x) == Abs(Abs(x) - 8.0) - 4.0
    ensures Slice(4, 3, x) == Abs(Abs(Abs(x) - 8.0) - 4.0) - 2.0
  {
    Slices64(8.0 - Abs(x));
  }

  lemma Are16(x: real, y: real, s: real, out: seq<real>)
    requires out == [Scaled(-x, s), Scaled(Abs(x) - 2.0, s),
                     Scaled(-y, s), Scaled(Abs(y) - 2.0, s)]
    ensures AreSlices(2, x, y, s, out)
  {
    hide Slice, Abs, Scaled;
    Slices16(x);
    Slices16(y);
    forall b | 0 <= b < 2
      ensures out[b] == Scaled(Slice(2, b, x), s) && out[b + 2] == Scaled(Slice(2, b, y), s)
    {
      if b == 0 {} else {}
    }
    Both(2, x, y, s, out);
  }

  lemma Are64(x: real, y: real, s: real, out: seq<real>)
    requires out == [Scaled(-x, s), Scaled(Abs(x) - 4.0, s), Scaled(Abs(Abs(x) - 4.0) - 2.0, s),
                     Scaled(-y, s), Scaled(Abs(y) - 4.0, s), Scaled(Abs(Abs(y) - 4.0) - 2.0, s)]
    ensures AreSlices(3, x, y, s, out)
  {
    hide Slice, Abs, Scaled;
    Slices64(x);
    Slices64(y);
    forall b | 0 <= b < 3
      ensures out[b] == Scaled(Slice(3, b, x), s) && out[b + 3] == Scaled(Slice(3, b, y), s)
    {
      if b == 0 {} else if b == 1 {} else {}
    }
    Both(3, x, y, s, out);
  }

  lemma Are256(x: real, y: real, s: real, out: seq<real>)
    requires out == [Scaled(-x, s), Scaled(Abs(x) - 8.0, s), Scaled(Abs(Abs(x) - 8.0) - 4.0, s),
                     Scaled(Abs(Abs(Abs(x) - 8.0) - 4.0) - 2.0, s),
                     Scaled(-y, s), Scaled(Abs(y) - 8.0, s), Scaled(Abs(Abs(y) - 8.0) - 4.0, s),
                     Scaled(Abs(Abs(Abs(y) - 8.0) - 4.0) - 2.0, s)]
    ensures AreSlices(4, x, y, s, out)
  {
    hide Slice, Abs, Scaled;
    Slices256(x);
    Slices256(y);
    forall b | 0 <= b < 4
      ensures out[b] == Scaled(Slice(4, b, x), s) && out[b + 4] == Scaled(Slice(4, b, y), s)
    {
      if b == 0 {} else if b == 1 {} else if b == 2 {} else {}
    }
    Both(4, x, y, s, out);
  }

  // ---------- Agreement with the exhaustive search ----------

  /** The value decides for bit b as the exhaustive search does, and is zero exactly when the search ties. */
  ghost predicate DecidesAsSearch(k: nat, norm: real, symbol: Symbol, b: nat, v: real)
    requires b < 2 * k
  {
    forall d1, d0 ::
      NearestSymbol(k, norm, b, true, symbol.re, symbol.im, d1) &&
      NearestSymbol(k, norm, b, false, symbol.re, symbol.im, d0) ==>
      Sign(v) == Sign(d1 - d0)
  }

  /** The integer is the clipped and rounded form of a value that decides as the search. */
  ghost predicate Quantises(k: nat, norm: real, symbol: Symbol, b: nat, clip: nat, r: int)
    requires b < 2 * k
  {
    exists v: real :: DecidesAsSearch(k, norm, symbol, b, v) && Quantised(v, clip, r)
  }

  /** The value is the scaled difference of the least squared distances to the symbols with bit 1 and with bit 0. */
  ghost predicate IsMaxLog(k: nat, norm: real, symbol: Symbol, b: nat, scale: real, llr: real)
    requires b < 2 * k
  {
    exists d1, d0 ::
      && NearestSymbol(k, norm, b, true, symbol.re, symbol.im, d1)
      && NearestSymbol(k, norm, b, false, symbol.re, symbol.im, d0)
      && llr == (d1 - d0) * scale
  }

  /** The integer is the clipped and rounded form of the slicer's value for bit b. */
  ghost predicate QuantisesSlice(k: nat, denorm: real, symbol: Symbol, b: nat, scale: real, clip: nat, r: int)
    requires b < 2 * k && denorm > 0.0
  {
    Quantised(SymbolSlice(k, denorm, b, symbol.re, symbol.im) * (scale / denorm), clip, r)
  }

  /** The integer is the clipped and rounded form of the exhaustive search's value for bit b. */
  ghost predicate QuantisesMaxLog(k: nat, norm: real, symbol: Symbol, b: nat, scale: real, clip: nat, r: int)
    requires b < 2 * k
  {
    exists llr :: IsMaxLog(k, norm, symbol, b, scale, llr) && Quantised(llr, clip, r)
  }

  /** A quantised decision never contradicts the exhaustive search. */
  lemma QuantisedNeverContradicts(k: nat, norm: real, symbol: Symbol, b: nat, clip: nat, r: int, d1: real, d0: real)
    requires b < 2 * k && Quantises(k, norm, symbol, b, clip, r)
    requires NearestSymbol(k, norm, b, true, symbol.re, symbol.im, d1)
    requires NearestSymbol(k, norm, b, false, symbol.re, symbol.im, d0)
    ensures r > 0 ==> d1 > d0
    ensures r < 0 ==> d1 < d0
    ensures d1 == d0 ==> r == 0
  {
    hide NearestSymbol, ClampRound;
    var v: real :| DecidesAsSearch(k, norm, symbol, b, v) && Quantised(v, clip, r);
    QuantisedUnique(v, clip, r, ClampRound(v, clip));
    ClampRoundKeepsSign(v, clip);
  }

  lemma ScaledSliceDecides(k: nat, denorm: real, symbol: Symbol, b: nat, s: real)
    requires b < 2 * k && denorm > 0.0 && s > 0.0
    ensures DecidesAsSearch(k, 1.0 / denorm, symbol, b, Scaled(SymbolSlice(k, denorm, b, symbol.re, symbol.im), s))
  {
    hide NearestSymbol, SymbolSlice, Sign, Scaled;
    var v, norm := SymbolSlice(k, denorm, b, symbol.re, symbol.im), 1.0 / denorm;
    ScaledSign(v, s);
    forall d1, d0 |
      NearestSymbol(k, norm, b, true, symbol.re, symbol.im, d1) &&
      NearestSymbol(k, norm, b, false, symbol.re, symbol.im, d0)
      ensures Sign(Scaled(v, s)) == Sign(d1 - d0)
    {
      SymbolSliceAgrees(k, denorm, b, symbol.re, symbol.im, d1, d0);
    }
  }

  lemma SliceAt(k: nat, denorm: real, x: real, y: real, px: real, py: real, s: real, out: seq<real>, b: nat)
    requires AreSlices(k, px, py, s, out) && b < 2 * k && px == x * denorm && py == y * denorm
    ensures |out| == 2 * k && out[b] == Scaled(SymbolSlice(k, denorm, b, x, y), s)
  {
    hide Slice;
  }

  /** Every slicer value of a symbol decides as the search. */
  lemma SlicesDecide(k: nat, denorm: real, symbol: Symbol, px: real, py: real, s: real, out: seq<real>)
    requires denorm > 0.0 && s > 0.0 && px == symbol.re * denorm && py == symbol.im * denorm
    requires |out| == 2 * k && AreSlices(k, px, py, s, out)
    ensures forall b :: 0 <= b < 2 * k ==>
              && DecidesAsSearch(k, 1.0 / denorm, symbol, b, out[b])
              && out[b] == Scaled(SymbolSlice(k, denorm, b, symbol.re, symbol.im), s)
  {
    hide DecidesAsSearch, Slice, Scaled, SymbolSlice, AreSlices;
    forall b | 0 <= b < 2 * k
      ensures DecidesAsSearch(k, 1.0 / denorm, symbol, b, out[b])
      ensures out[b] == Scaled(SymbolSlice(k, denorm, b, symbol.re, symbol.im), s)
    {
      SliceAt(k, denorm, symbol.re, symbol.im, px, py, s, out, b);
      ScaledSliceDecides(k, denorm, symbol, b, s);
    }
  }

  lemma SliceQuantised(k: nat, denorm: real, symbol: Symbol, b: nat, scale: real, clip: nat, v: real)
    requires b < 2 * k && denorm > 0.0
    requires v == Scaled(SymbolSlice(k, denorm, b, symbol.re, symbol.im), scale / denorm)
    ensures QuantisesSlice(k, denorm, symbol, b, scale, clip, ClampRound(v, clip))
  {
    hide SymbolSlice;
    assert Quantised(v, clip, ClampRound(v, clip));
  }

  lemma MaxLogIs(k: nat, norm: real, symbol: Symbol, b: nat, scale: real, d1: real, d0: real)
    requires b < 2 * k
    requires NearestSymbol(k, norm, b, true, symbol.re, symbol.im, d1)
    requires NearestSymbol(k, norm, b, false, symbol.re, symbol.im, d0)
    ensures IsMaxLog(k, norm, symbol, b, scale, Scaled(d1 - d0, scale))
  {
    hide NearestSymbol;
  }

  lemma UniqueNearest(k: nat, norm: real, b: nat, c: bool, x: real, y: real, d: real, d': real)
    requires b < 2 * k && NearestSymbol(k, norm, b, c, x, y, d) && NearestSymbol(k, norm, b, c, x, y, d')
    ensures d == d'
  {
    hide Distance, IsSymbol;
  }

  lemma SearchDecides(k: nat, norm: real, symbol: Symbol, b: nat, d1: real, d0: real, scale: real)
    requires b < 2 * k && scale > 0.0
    requires NearestSymbol(k, norm, b, true, symbol.re, symbol.im, d1)
    requires NearestSymbol(k, norm, b, false, symbol.re, symbol.im, d0)
    ensures DecidesAsSearch(k, norm, symbol, b, Scaled(d1 - d0, scale))
  {
    hide NearestSymbol, Sign, Scaled;
    ScaledSign(d1 - d0, scale);
    forall e1, e0 |
      NearestSymbol(k, norm, b, true, symbol.re, symbol.im, e1) &&
      NearestSymbol(k, norm, b, false, symbol.re, symbol.im, e0)
      ensures Sign(Scaled(d1 - d0, scale)) == Sign(e1 - e0)
    {
      UniqueNearest(k, norm, b, true, symbol.re, symbol.im, d1, e1);
      UniqueNearest(k, norm, b, false, symbol.re, symbol.im, d0, e0);
    }
  }

  // ---------- The demapper ----------

  class ConstellationDemapper {
    const k: nat
    const denorm: real
    const llrScale: real
    const clip: nat
    const points: seq<Symbol>
    const bitSets: seq<seq<nat>>
    const bitClears: seq<seq<nat>>

    ghost predicate Valid() {
      && 1 <= k <= 6 && denorm == DenormOf(k) && llrScale > 0.0
      && IsConstellation(k, 1.0 / denorm, points)
      && |bitSets| == |bitClears| == 2 * k
      && (forall b :: 0 <= b < 2 * k ==> IsList(k, b, true, Pow2(2 * k), bitSets[b]))
      && (forall b :: 0 <= b < 2 * k ==> IsList(k, b, false, Pow2(2 * k), bitClears[b]))
    }

    constructor (k: nat, noiseVariance: real, clip: nat)
      requires 1 <= k <= 6 && noiseVariance > 0.0
      ensures Valid() && this.k == k && this.clip == clip && llrScale == 1.0 / noiseVariance
    {
      hide IsList, IsConstellation;
      var denorm := DenormOf(k);
      var points := BuildUniformQam(k, 1.0 / denorm);
      var sets: seq<seq<nat>>, clears: seq<seq<nat>> := [], [];
      for b := 0 to 2 * k
        invariant |sets| == |clears| == b
        invariant forall j :: 0 <= j < b ==> IsList(k, j, true, Pow2(2 * k), sets[j])
        invariant forall j :: 0 <= j < b ==> IsList(k, j, false, Pow2(2 * k), clears[j])
      {
        var s, c := BuildBitLists(k, b);
        sets, clears := sets + [s], clears + [c];
      }
      this.k, this.denorm, this.clip, this.llrScale := k, denorm, clip, 1.0 / noiseVariance;
      this.points, this.bitSets, this.bitClears := points, sets, clears;
    }

    /** The least squared distance from the symbol to the listed points. */
    method MinDistance(symbol: Symbol, b: nat, c: bool) returns (best: Best)
      requires Valid() && b < 2 * k
      ensures best.At? && NearestSymbol(k, 1.0 / denorm, b, c, symbol.re, symbol.im, best.distance)
    {
      hide Bit, Pow2, LevelI, LevelQ, SquaredDistance, Distance;
      var list := if c then bitSets[b] else bitClears[b];
      ListsNotEmpty(k, b, c, list);
      var norm := 1.0 / denorm;
      best := Unbounded;
      for j := 0 to |list|
        invariant best.Unbounded? <==> j == 0
        invariant best.At? ==>
                    exists l :: 0 <= l < j && best.distance == Distance(k, norm, list[l], symbol.re, symbol.im)
        invariant forall l :: 0 <= l < j ==> best.distance <= Distance(k, norm, list[l], symbol.re, symbol.im)
      {
        var dist := SquaredDistance(symbol, points[list[j]]);
        DistanceIs(k, norm, list[j], symbol);
        if best.Unbounded? || dist < best.distance {
          best := At(dist);
        }
      }
      forall i: nat | IsSymbol(k, b, c, i)
        ensures best.distance <= Distance(k, norm, i, symbol.re, symbol.im)
      {
        assert i in list;
      }
      var l :| 0 <= l < |list| && best.distance == Distance(k, norm, list[l], symbol.re, symbol.im);
      assert IsSymbol(k, b, c, list[l]);
    }

    /** The log-likelihood ratio of the exhaustive search, before clipping. */
    method ComputeLlrMaxLog(symbol: Symbol, b: nat) returns (llr: real)
      requires Valid() && b < 2 * k
      ensures IsMaxLog(k, 1.0 / denorm, symbol, b, llrScale, llr)
      ensures DecidesAsSearch(k, 1.0 / denorm, symbol, b, llr)
    {
      hide NearestSymbol, DecidesAsSearch, IsConstellation, IsList, Scaled, IsMaxLog;
      var minDist0 := MinDistance(symbol, b, false);
      var minDist1 := MinDistance(symbol, b, true);
      SearchDecides(k, 1.0 / denorm, symbol, b, minDist1.distance, minDist0.distance, llrScale);
      MaxLogIs(k, 1.0 / denorm, symbol, b, llrScale, minDist1.distance, minDist0.distance);
      llr := Scaled(minDist1.distance - minDist0.distance, llrScale);
    }

    /** One symbol: the slicer for up to four bits per dimension, the exhaustive search above that. */
    method DemapSymbol(symbol: Symbol) returns (out: seq<int>)
      requires Valid()
      ensures |out| == 2 * k
      ensures forall b :: 0 <= b < 2 * k ==> Quantises(k, 1.0 / denorm, symbol, b, clip, out[b])
      ensures k <= 4 ==> forall b :: 0 <= b < 2 * k ==> QuantisesSlice(k, denorm, symbol, b, llrScale, clip, out[b])
      ensures k > 4 ==> forall b :: 0 <= b < 2 * k ==>
              QuantisesMaxLog(k, 1.0 / denorm, symbol, b, llrScale, clip, out[b])
    {
      hide DecidesAsSearch, NearestSymbol, ClampRound, IsConstellation, IsList, SymbolSlice, Scaled, AreSlices,
        IsMaxLog, Quantised, QuantisesSlice;
      if k <= 4 {
        var v: seq<real>;
        ghost var d := denorm;
        if k == 1 {
          v := DemapQpskFast(symbol.re, symbol.im, llrScale);
          assert AreSlicesOf(1, symbol.re, symbol.im, llrScale, d, v);
        } else if k == 2 {
          v := DemapQam16Fast(symbol.re, symbol.im, llrScale);
        } else if k == 3 {
          v := DemapQam64Fast(symbol.re, symbol.im, llrScale);
        } else {
          v := DemapQam256Fast(symbol.re, symbol.im, llrScale);
        }
        SlicesDecide(k, d, symbol, symbol.re * d, symbol.im * d, llrScale / d, v);
        forall b | 0 <= b < 2 * k
          ensures QuantisesSlice(k, d, symbol, b, llrScale, clip, ClampRound(v[b], clip))
        {
          SliceQuantised(k, d, symbol, b, llrScale, clip, v[b]);
        }
        out := seq(2 * k, b requires 0 <= b < 2 * k => ClampRound(v[b], clip));
        return;
      }
      out := [];
      for b := 0 to 2 * k
        invariant |out| == b
        invariant forall j :: 0 <= j < b ==>
                    && Quantises(k, 1.0 / denorm, symbol, j, clip, out[j])
                    && QuantisesMaxLog(k, 1.0 / denorm, symbol, j, llrScale, clip, out[j])
      {
        var llr := ComputeLlrMaxLog(symbol, b);
        out := out + [ClampRound(llr, clip)];
      }
    }
  }
}
