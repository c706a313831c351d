/** The BCH decoder over GF(2^16): its tables, its working buffers and its loops. */
module BchDecoding {
  import opened FieldTheory
  import opened GaloisField
  import opened GaloisOrder
  import opened LinearRecurrence
  import opened BerlekampMassey
  import Polynomials
  import opened BchCode
  import opened BchRuns

  // ---------- Packed bits ----------

  datatype Byte = Byte(v: bv8)

  /** Bit k of a byte, counted from the most significant. */
  function Mask(k: nat): bv8 {
    if k == 0 then 0x80 else if k == 1 then 0x40 else if k == 2 then 0x20 else if k == 3 then 0x10
    else if k == 4 then 8 else if k == 5 then 4 else if k == 6 then 2 else 1
  }

  predicate BitOf(b: Byte, k: nat) {
    b.v & Mask(k) != 0
  }

  function FlipBitOf(b: Byte, k: nat): Byte {
    Byte(b.v ^ Mask(k))
  }

  lemma FlipBitOfIs(b: Byte, k: nat, l: nat)
    requires k < 8 && l < 8
    ensures BitOf(FlipBitOf(b, k), l) == if k == l then !BitOf(b, l) else BitOf(b, l)
  {}

  /** The bits of a byte in order of weight: the first is worth 128, the last 1. */
  lemma ByteIsItsBits(b: Byte)
    ensures b.v ==
            (if BitOf(b, 0) then 128 else 0) + (if BitOf(b, 1) then 64 else 0) + (if BitOf(b, 2) then 32 else 0) +
            (if BitOf(b, 3) then 16 else 0) + (if BitOf(b, 4) then 8 else 0) + (if BitOf(b, 5) then 4 else 0) +
            (if BitOf(b, 6) then 2 else 0) + (if BitOf(b, 7) then 1 else 0)
  {}

  predicate GetBit(bytes: seq<Byte>, pos: nat)
    requires pos / 8 < |bytes|
  {
    BitOf(bytes[pos / 8], pos % 8)
  }

  /** The first n bits of a packed buffer. */
  function Bits(bytes: seq<Byte>, n: nat): (w: seq<bool>)
    requires (n + 7) / 8 <= |bytes|
    ensures |w| == n
  {
    seq(n, i requires 0 <= i < n => GetBit(bytes, i))
  }

  lemma FlipOne(bytes: seq<Byte>, n: nat, pos: nat)
    requires (n + 7) / 8 <= |bytes| && pos < n
    ensures Bits(bytes[pos / 8 := FlipBitOf(bytes[pos / 8], pos % 8)], n) == Bits(bytes, n)[pos := !Bits(bytes, n)[pos]]
  {
    hide BitOf, FlipBitOf;
    var after := bytes[pos / 8 := FlipBitOf(bytes[pos / 8], pos % 8)];
    forall i | 0 <= i < n
      ensures GetBit(after, i) == if i == pos then !GetBit(bytes, i) else GetBit(bytes, i)
    {
      if i / 8 == pos / 8 {
        FlipBitOfIs(bytes[pos / 8], pos % 8, i % 8);
      }
    }
  }

  // ---------- The code over GF(2^16) ----------

  ghost function Bch(t: nat): Code<GF> {
    Code(Gf16(), Alpha(1), 65535, t)
  }

  lemma BchIsValid(t: nat)
    ensures ValidCode(Bch(t))
  {
    hide Mul, Add, Alpha, Pow;
    Gf16IsField();
    AlphaNonzero(1);
    forall i: nat, j: nat | i < j < 65535
      ensures Pow(Gf16(), Alpha(1), i) != Pow(Gf16(), Alpha(1), j)
    {
      AlphaIsPow(i);
      AlphaIsPow(j);
      AlphaDistinct(i, j);
    }
  }

  lemma EmptySyndrome(t: nat, w: seq<bool>, j: nat)
    ensures Syndrome(Bch(t), w[..0], j) == GF(0)
  {
    hide Add, Mul, Alpha;
  }

  lemma SyndromeStep(t: nat, w: seq<bool>, i: nat, j: nat)
    requires i < |w|
    ensures Syndrome(Bch(t), w[..i + 1], j) ==
            if w[i] then Add(Syndrome(Bch(t), w[..i], j), Alpha((j * i) % 65535)) else Syndrome(Bch(t), w[..i], j)
  {
    hide Add, Mul, Alpha, Pow;
    assert w[..i + 1][..i] == w[..i];
    AlphaIsPow(j * i);
    AlphaWraps(j * i);
    AddLaws(Syndrome(Bch(t), w[..i], j));
  }

  lemma ConvStep(c: seq<GF>, s: seq<GF>, n: nat, k: nat)
    requires k < |c| && n < |s| && k <= n
    ensures Conv(Gf16(), c, s, n, k + 1) == Add(Conv(Gf16(), c, s, n, k), Mul(c[k], s[n - k]))
  {
    hide Add, Mul;
  }

  lemma ConvFirst(c: seq<GF>, s: seq<GF>, n: nat)
    requires 1 <= |c| && c[0] == GF(1) && n < |s|
    ensures Conv(Gf16(), c, s, n, 1) == s[n]
  {
    hide Add, Mul;
    ConvStep(c, s, n, 0);
    MulUnits(s[n]);
    AddLaws(s[n]);
  }

  // ---------- Table construction ----------

  /** One step of the table loop: shift the 32-bit register and reduce it when bit 16 is set. */
  function NextPower(x: Poly): Poly {
    var y := Shift(x);
    if Overflows(y) then AddPoly(y, Poly(0x1100B)) else y
  }

  predicate Overflows(y: Poly) {
    y.v & 0x10000 != 0
  }

  function Truncate(x: Poly): GF {
    GF((x.v & 0xFFFF) as bv16)
  }

  lemma OverflowsIsTop(a: GF)
    ensures Overflows(Shift(Wide(a))) <==> Top(a)
  {}

  lemma AddTwice(p: Poly, q: Poly)
    ensures AddPoly(AddPoly(p, q), p) == q && AddPoly(Poly(0), q) == q
  {}

  lemma NextPowerIs(a: GF)
    ensures NextPower(Wide(a)) == Wide(Xtime(a))
  {
    hide Shift, Overflows, AddPoly, Wide, Xtime, Top, Multiple;
    OverflowsIsTop(a);
    ShiftReduces(a);
    MultipleCases(a);
    AddTwice(Poly(0x1100B), Wide(Xtime(a)));
  }

  lemma TruncateWide(a: GF)
    ensures Truncate(Wide(a)) == a
  {}

  lemma WideOne()
    ensures Poly(1) == Wide(Alpha(0))
  {}

  lemma AlphaNext(i: nat)
    ensures Alpha(i + 1) == Xtime(Alpha(i))
  {}

  /** The first n powers are in both halves of the exponent table, and their logarithms in the other. */
  ghost predicate Tables(exps: seq<GF>, logs: seq<int>, n: nat) {
    && |exps| == 2 * 65535 && |logs| == 65536 && n <= 65535
    && (forall i :: 0 <= i < n ==> exps[i] == Alpha(i))
    && (forall i :: 0 <= i < n ==> exps[65535 + i] == Alpha(i))
    && (forall i :: 0 <= i < n ==> logs[Index(Alpha(i))] == i)
    && logs[0] == -1
  }

  lemma TablesExtend(exps: seq<GF>, logs: seq<int>, n: nat)
    requires n < 65535 && Tables(exps, logs, n)
    ensures Tables(exps[n := Alpha(n)][n + 65535 := Alpha(n)], logs[Index(Alpha(n)) := n], n + 1)
  {
    hide Alpha, Index;
    AlphaNonzero(n);
    IndexZero(Alpha(n));
    forall i | 0 <= i < n
      ensures Index(Alpha(i)) != Index(Alpha(n))
    {
      AlphaDistinct(i, n);
      if Index(Alpha(i)) == Index(Alpha(n)) {
        IndexInjective(Alpha(i), Alpha(n));
      }
    }
  }

  /** Adding logarithms modulo 65535 multiplies. */
  lemma ProductExponent(i: nat, j: nat)
    ensures Alpha((i + j) % 65535) == Mul(Alpha(i), Alpha(j))
  {
    hide Alpha, Mul;
    AlphaAdd(i, j);
    AlphaWraps(i + j);
  }

  /** Subtracting logarithms, with the wrap of the table, divides. */
  lemma QuotientExponent(i: nat, j: nat, e: nat)
    requires i < 65535 && j < 65535 && e == if i - j < 0 then i - j + 65535 else i - j
    ensures Mul(Alpha(e), Alpha(j)) == Alpha(i)
  {
    hide Alpha, Mul;
    AlphaAdd(e, j);
    AlphaWraps(i);
  }

  // ---------- Berlekamp-Massey over the stored syndromes ----------

  /** The first i terms of the update have been added to the polynomial. */
  ghost predicate PartlyUpdated(sigma: seq<GF>, prev: seq<GF>, m: nat, q: GF, r: seq<GF>, i: nat) {
    && |r| == |sigma| == |prev|
    && forall k :: 0 <= k < |r| ==>
      r[k] == if k < m || k >= i + m then sigma[k] else Add(sigma[k], Mul(q, prev[k - m]))
  }

  lemma PartlyUpdatedStep(sigma: seq<GF>, prev: seq<GF>, m: nat, q: GF, r: seq<GF>, i: nat)
    requires i + m < |r| && PartlyUpdated(sigma, prev, m, q, r, i)
    ensures r[i + m] == sigma[i + m]
    ensures PartlyUpdated(sigma, prev, m, q, r[i + m := Add(r[i + m], Mul(q, prev[i]))], i + 1)
    ensures prev[i] == GF(0) ==> PartlyUpdated(sigma, prev, m, q, r, i + 1)
  {
    hide Add, Mul;
    MulUnits(q);
    AddLaws(r[i + m]);
  }

  lemma UpdateComplete(st: State<GF>, q: GF, r: seq<GF>, i: nat)
    requires |st.sigma| == |st.prev| && 1 <= st.m
    requires PartlyUpdated(st.sigma, st.prev, st.m, q, r, i) && i + st.m >= |r|
    ensures IsUpdate(Gf16(), st, q, r)
  {
    hide Add, Mul;
  }

  lemma InitialState(t: nat, s: seq<GF>, sigma: seq<GF>)
    requires |s| == 2 * t + 1 && s[0] == GF(1)
    requires sigma == [GF(1)] + seq(t + 1, _ => GF(0))
    ensures Invariant(Gf16(), State(sigma, sigma, 0, 1, GF(1), 0), s, 1)
  {
    hide Add, Mul;
    Gf16IsField();
    Init(Gf16(), State(sigma, sigma, 0, 1, GF(1), 0), s);
  }

  lemma InvariantFacts(st: State<GF>, s: seq<GF>, n: nat)
    requires Invariant(Gf16(), st, s, n)
    ensures |st.sigma| == |st.prev| && st.L < |st.sigma| && st.m >= 1 && st.L < n
    ensures st.sigma[0] == GF(1) && st.deltaPrev != GF(0)
    ensures Shortest(Gf16(), st.sigma[..st.L + 1], s, n - 1)
  {
    hide Add, Mul, Conv;
    assert st.sigma[..st.L + 1][0] == GF(1);
  }

  lemma ZeroStep(st: State<GF>, s: seq<GF>, n: nat)
    requires Invariant(Gf16(), st, s, n) && n < |s| && st.L < |st.sigma| && st.L < n
    requires Conv(Gf16(), st.sigma, s, n, st.L + 1) == GF(0)
    ensures Invariant(Gf16(), st.(m := st.m + 1), s, n + 1)
  {
    hide Add, Mul, Conv, Invariant;
    Gf16IsField();
    StepZero(Gf16(), st, s, n);
  }

  /**
    The branch taken by the decoder after a nonzero discrepancy keeps the invariant, or the length is past the
    arrays for good.
   */
  lemma NonzeroStep(t: nat, st: State<GF>, s: seq<GF>, n: nat, delta: GF, q: GF, r: seq<GF>)
    requires Invariant(Gf16(), st, s, n) && n < |s| && st.L <= t + 1 && st.L < n && |st.sigma| == |st.prev| == t + 2
    requires st.m >= 1 && delta == Conv(Gf16(), st.sigma, s, n, st.L + 1) != GF(0)
    requires Mul(q, st.deltaPrev) == delta
    requires exists i: nat :: i + st.m >= |r| && PartlyUpdated(st.sigma, st.prev, st.m, q, r, i)
    ensures 2 * st.L <= n - 1 && n - st.L <= t + 1 ==>
              Invariant(Gf16(), State(r, st.sigma, n - st.L, 1, delta, st.L), s, n + 1)
    ensures 2 * st.L > n - 1 ==> Invariant(Gf16(), st.(sigma := r, m := st.m + 1), s, n + 1)
    ensures 2 * st.L <= n - 1 && n - st.L > t + 1 ==> LengthAtLeast(Gf16(), s, n, n - st.L)
  {
    hide Add, Mul, Conv, Invariant, PartlyUpdated, IsUpdate, LengthAtLeast;
    Gf16IsField();
    var i: nat :| i + st.m >= |r| && PartlyUpdated(st.sigma, st.prev, st.m, q, r, i);
    UpdateComplete(st, q, r, i);
    StepBound(Gf16(), st, s, n);
    if NextLength(st.L, n) <= t + 1 {
      StepNonzero(Gf16(), st, s, n, q, r);
    }
  }

  lemma FinalLocator(t: nat, st: State<GF>, s: seq<GF>, n: nat)
    requires |s| == 2 * t + 1 && n == 2 * t + 1 && st.L <= t + 1 && Invariant(Gf16(), st, s, n)
    ensures st.L + 1 <= |st.sigma| && Shortest(Gf16(), st.sigma[..st.L + 1], s, 2 * t)
    ensures st.L <= t ==> ShortLocator(Bch(t), s, st.sigma[..st.L + 1])
    ensures LengthAtLeast(Gf16(), s, 2 * t, st.L)
  {
    hide Add, Mul, Conv;
  }

  lemma NoShortLocator(t: nat, s: seq<GF>, n: nat, L: nat)
    requires |s| == 2 * t + 1 && n <= 2 * t && L > t && LengthAtLeast(Gf16(), s, n, L)
    ensures !exists c :: ShortLocator(Bch(t), s, c)
    ensures LengthAtLeast(Gf16(), s, 2 * t, L)
  {
    hide Add, Mul, Conv;
    LengthMonotone(Gf16(), s, n, 2 * t, L);
  }

  /** The shortest recurrence has room in the locator buffer exactly when its length is at most t + 1. */
  lemma RoomExactly(t: nat, s: seq<GF>, L: nat, c: seq<GF>)
    requires |s| == 2 * t + 1 && LengthAtLeast(Gf16(), s, 2 * t, L)
    requires L <= t + 1 ==> |c| == L + 1 && Recurrence(Gf16(), c, s, 2 * t)
    ensures L <= t + 1 <==> HasRoom(Bch(t), s)
  {
    hide Add, Mul, Conv, Recurrence;
  }

  // ---------- The root search in powers of alpha ----------

  ghost function Sum(v: seq<GF>, k: nat): GF
    requires k <= |v|
  {
    if k == 0 then GF(0) else Add(Sum(v, k - 1), v[k - 1])
  }

  /** The terms v, each scaled back by alpha^(ij), are the coefficients of c. */
  ghost predicate Scaled(v: seq<GF>, c: seq<GF>, i: nat) {
    |v| == |c| && forall j :: 0 <= j < |v| ==> Mul(v[j], Alpha(i * j)) == c[j]
  }

  /** The sum of the scaled terms is, up to a power of alpha, the polynomial's value. */
  lemma {:induction false} ScaledSum(v: seq<GF>, c: seq<GF>, i: nat, k: nat)
    requires Scaled(v, c, i) && 1 <= k <= |v|
    ensures Mul(Sum(v, k), Alpha(i * (k - 1))) == Polynomials.Eval(Gf16(), c[..k], Alpha(i))
  {
    hide Add, Mul, Alpha;
    var y := Alpha(i);
    Polynomials.EvalLast(Gf16(), c[..k], y);
    assert c[..k][..k - 1] == c[..k - 1];
    assert Mul(v[k - 1], Alpha(i * (k - 1))) == c[k - 1];
    if k == 1 {
      AddLaws(v[0]);
      AddLaws(c[0]);
      MulUnits(y);
      assert c[..0] == [];
    } else {
      ScaledSum(v, c, i, k - 1);
      var s, p, a := Sum(v, k - 1), Alpha(i * (k - 2)), Alpha(i * (k - 1));
      assert i * (k - 1) == i * (k - 2) + i;
      AlphaAdd(i * (k - 2), i);
      MulAssoc(s, p, y);
      MulComm(Mul(s, p), y);
      MulComm(Add(s, v[k - 1]), a);
      MulDistrib(a, s, v[k - 1]);
      MulComm(a, s);
      MulComm(a, v[k - 1]);
    }
  }

  lemma ScaledSumZero(v: seq<GF>, c: seq<GF>, i: nat)
    requires Scaled(v, c, i) && 1 <= |v|
    ensures Sum(v, |v|) == GF(0) <==> Polynomials.Eval(Gf16(), c, FieldTheory.Pow(Gf16(), Alpha(1), i)) == GF(0)
  {
    hide Add, Mul, Alpha;
    ScaledSum(v, c, i, |v|);
    assert c[..|c|] == c;
    AlphaIsPow(i);
    AlphaNonzero(i * (|v| - 1));
    Gf16IsField();
    NoZeroDivisors(Gf16(), Sum(v, |v|), Alpha(i * (|v| - 1)));
  }

  /** Moving one term to the next position divides it by alpha^j. */
  lemma ScaledNext(a: GF, b: GF, c: GF, i: nat, j: nat)
    requires Mul(a, Alpha(i * j)) == c
    requires Mul(b, Alpha(j)) == a
    ensures Mul(b, Alpha((i + 1) * j)) == c
  {
    hide Add, Mul, Alpha;
    assert (i + 1) * j == j + i * j;
    AlphaAdd(j, i * j);
    MulAssoc(b, Alpha(j), Alpha(i * j));
  }

  lemma FirstTerm(v: seq<GF>)
    requires |v| >= 1
    ensures Sum(v, 1) == v[0]
  {
    hide Add;
    AddLaws(v[0]);
  }

  lemma ScaledInit(c: seq<GF>)
    ensures Scaled(c, c, 0)
  {
    hide Mul;
    forall j | 0 <= j < |c|
      ensures Mul(c[j], Alpha(0 * j)) == c[j]
    {
      assert 0 * j == 0;
      MulUnits(c[j]);
    }
  }

  lemma ScaledConstant(v: seq<GF>, c: seq<GF>, i: nat)
    requires |v| >= 1 && Scaled(v, c, i)
    ensures Mul(v[0], Alpha((i + 1) * 0)) == c[0]
  {
    hide Mul, Alpha;
    assert i * 0 == (i + 1) * 0;
  }

  /** The table index for the next term is that of the term divided by alpha^j. */
  lemma TermQuotient(a: GF, j: nat, e: nat)
    requires a != GF(0) && j <= 65535 && e == if Log(a) - j < 0 then Log(a) - j + 65535 else Log(a) - j
    ensures Mul(Alpha(e), Alpha(j)) == a
  {
    hide Alpha, Mul;
    AlphaAdd(e, j);
    AlphaWraps(Log(a));
  }

  lemma FoundIs(t: nat, e: seq<GF>, n: nat, d: nat)
    requires |e| == t + 2 && d == Degree(Gf16(), e, t)
    ensures Found(Bch(t), e, n) ==
            var ps := Roots(Bch(t), e[..d + 1], n); if |ps| <= d then ps else ps[..d]
  {}

  lemma RootsEmpty(C: Code<GF>, c: seq<GF>)
    ensures Roots(C, c, 0) == []
  {}

  /** A vanishing sum at position i is a root there, and extends the list of roots. */
  lemma RootTest(t: nat, v: seq<GF>, c: seq<GF>, i: nat)
    requires Scaled(v, c, i) && |v| >= 1
    ensures Roots(Bch(t), c, i + 1) == Roots(Bch(t), c, i) + (if Sum(v, |v|) == GF(0) then [i] else [])
  {
    hide Add, Mul, Alpha;
    ScaledSumZero(v, c, i);
  }

  lemma FlipMore(w: seq<bool>, ps: seq<nat>, k: nat, n: nat)
    requires Ascending(ps, n) && |w| == n && k < |ps|
    ensures Flip(w, ps[..k + 1]) == Flip(w, ps[..k])[ps[k] := !Flip(w, ps[..k])[ps[k]]]
  {
    assert ps[..k + 1] == ps[..k] + [ps[k]];
    assert ps[k] !in ps[..k];
  }

  lemma {:induction false} RootsPrefix(C: Code<GF>, c: seq<GF>, m: nat, n: nat)
    requires m <= n
    ensures Roots(C, c, m) <= Roots(C, c, n)
  {
    if m < n {
      RootsPrefix(C, c, m, n - 1);
    }
  }

  datatype BchResult = BchResult(decodedBits: seq<Byte>, errorsCorrected: nat, success: bool, wasValid: bool)

  // ---------- The branches of decode ----------

  lemma BitsPrefix(a: seq<Byte>, b: seq<Byte>, n: nat)
    requires (n + 7) / 8 <= |a| && (n + 7) / 8 <= |b| && a[..(n + 7) / 8] == b[..(n + 7) / 8]
    ensures Bits(a, n) == Bits(b, n)
  {
    hide BitOf;
    forall i | 0 <= i < n
      ensures GetBit(a, i) == GetBit(b, i)
    {
      assert a[i / 8] == a[..(n + 7) / 8][i / 8] == b[..(n + 7) / 8][i / 8] == b[i / 8];
    }
  }

  /** The bytes cut to hold the information bits start with the bits of the word. */
  lemma InfoOf(bytes: seq<Byte>, n: nat, info: nat)
    requires (n + 7) / 8 <= |bytes| && (info + 7) / 8 <= |bytes|
    ensures var m := if info <= n then info else n;
            Bits(bytes[..(info + 7) / 8], m) == Bits(bytes, n)[..m]
  {
    var m := if info <= n then info else n;
    BitsPrefix(bytes[..(info + 7) / 8], bytes, m);
    hide GetBit;
    assert Bits(bytes, m) == Bits(bytes, n)[..m];
  }

  lemma SyndromesAre(t: nat, r: seq<bool>)
    ensures var s := Syndromes(Bch(t), r);
      |s| == 2 * t + 1 && s[0] == GF(1) && forall j :: 1 <= j <= 2 * t ==> s[j] == Syndrome(Bch(t), r, j)
  {
    hide Add, Mul, Alpha, Syndrome;
  }

  lemma DecodesClean(t: nat, e: seq<GF>, r: seq<bool>)
    requires |e| == t + 2 && IsCodeword(Bch(t), r)
    ensures Decodes(Bch(t), e, r, Accepted(r, 0))
  {
    hide Add, Mul, Alpha, Syndrome, IsCodeword;
  }

  lemma CleanCall(t: nat, e: seq<GF>, r: seq<bool>)
    requires |e| == t + 2 && IsCodeword(Bch(t), r)
    ensures IsCall(Bch(t), e, Call(r, [], Accepted(r, 0))) && Store([], e) == e
  {
    hide Add, Mul, Alpha, Syndrome, IsCodeword, Shortest;
  }

  /** A call on a word with errors, once its outcome is known. */
  lemma OtherCall(t: nat, e: seq<GF>, r: seq<bool>, stored: seq<GF>, o: Outcome)
    requires |e| == t + 2 && !IsCodeword(Bch(t), r) && Decodes(Bch(t), e, r, o) && |stored| <= t + 2
    requires Shortest(Gf16(), stored, Syndromes(Bch(t), r), 2 * t)
    ensures IsCall(Bch(t), e, Call(r, stored, o))
  {
    hide Add, Mul, Alpha, Syndrome, IsCodeword, Shortest, Decodes;
  }

  lemma DecodesNone(t: nat, e: seq<GF>, r: seq<bool>)
    requires |e| == t + 2 && !IsCodeword(Bch(t), r)
    requires !exists c :: ShortLocator(Bch(t), Syndromes(Bch(t), r), c)
    ensures Decodes(Bch(t), e, r, Rejected)
  {
    hide Add, Mul, Alpha, Syndrome, IsCodeword;
  }

  lemma FoundFacts(t: nat, e: seq<GF>, n: nat)
    requires |e| == t + 2
    ensures Ascending(Found(Bch(t), e, n), n)
  {
    hide Add, Mul, Alpha;
    FoundAscending(Bch(t), e, n);
  }

  /** The outcome once a locator is known and the positions ps have been found with it. */
  lemma DecodesWith(t: nat, e: seq<GF>, r: seq<bool>, c: seq<GF>, ps: seq<nat>)
    requires |e| == t + 2 && !IsCodeword(Bch(t), r) && ShortLocator(Bch(t), Syndromes(Bch(t), r), c)
    requires 1 <= |c| <= t + 1 && ps == Found(Bch(t), Store(c, e), |r|)
    ensures |c| >= 2
    ensures |ps| != |c| - 1 ==> Decodes(Bch(t), e, r, Rejected)
    ensures |ps| == |c| - 1 && !IsCodeword(Bch(t), Flip(r, ps)) ==> Decodes(Bch(t), e, r, Rejected)
    ensures |ps| == |c| - 1 && IsCodeword(Bch(t), Flip(r, ps)) ==>
              Decodes(Bch(t), e, r, Accepted(Flip(r, ps), |ps|))
  {
    hide Add, Mul, Alpha, Syndrome, Syndromes, IsCodeword, Found, ShortLocator, Gf16;
    Gf16IsField();
    LocatorNotTrivial(Bch(t), r, c);
  }

  /** c is a codeword within distance t of r, and the buffer e has no stale coefficient past that distance. */
  ghost predicate Correctable(t: nat, e: seq<GF>, c: seq<bool>, r: seq<bool>)
    requires |e| == t + 2
  {
    && |c| == |r| && IsCodeword(Bch(t), c) && Distance(r, c) <= t
    && ZeroBeyond(Bch(t), e, Distance(r, c))
  }

  /** Bounded-distance decoding over GF(2^16): what an outcome says about the received word. */
  lemma DecodeMeaning(t: nat, e: seq<GF>, r: seq<bool>, o: Outcome)
    requires |e| == t + 2 && |r| <= 65535 && Decodes(Bch(t), e, r, o)
    ensures o.Accepted? ==>
              && |o.word| == |r| && IsCodeword(Bch(t), o.word)
              && Distance(o.word, r) == o.corrected <= t
    ensures forall c: seq<bool> :: Correctable(t, e, c, r) ==> o == Accepted(c, Distance(r, c))
  {
    hide Add, Mul, Alpha, Gf16, Decodes, IsCodeword, ZeroBeyond, Distance, ValidCode;
    BchIsValid(t);
    if o.Accepted? {
      DecodingIsSound(Bch(t), e, r, o);
    }
    forall c: seq<bool> | Correctable(t, e, c, r)
      ensures o == Accepted(c, Distance(r, c))
    {
      DecodingIsComplete(Bch(t), e, c, r);
      Gf16IsField();
      OutcomeUnique(Bch(t), e, r, o, Accepted(c, Distance(r, c)));
    }
  }

  const NO_RESULT := BchResult([], 0, false, false)

  /**
    The class keeps the source's buffers.  Its vectors of fixed size are arrays; the list
    of error positions, which grows and is cleared, is a sequence.
   */
  class BchDecoder {
    const codewordLength: nat
    const infoLength: nat
    const t: nat

    var gfExp: array<GF>
    var gfLog: array<int>
    var syndromes: array<GF>
    var errorLocator: array<GF>
    var errorPositions: seq<nat>
    var workingBits: array<Byte>

    ghost predicate Valid()
      reads this, gfExp, gfLog
    {
      && Shape()
      && Tables(gfExp[..], gfLog[..], 65535)
    }

    ghost predicate Shape()
      reads this
    {
      && infoLength <= codewordLength && t <= 65535
      && gfExp.Length == 2 * 65535 && gfLog.Length == 65536
      && syndromes.Length == 2 * t + 1 && errorLocator.Length == t + 2
      && workingBits.Length == (codewordLength + 7) / 8
      && gfExp != syndromes && gfExp != errorLocator && syndromes != errorLocator
    }

    constructor (codewordLength: nat, infoLength: nat, t: nat)
      requires infoLength <= codewordLength && t <= 65535
      ensures Valid() && fresh(gfExp) && fresh(gfLog) && fresh(syndromes) && fresh(errorLocator) && fresh(workingBits)
      ensures this.codewordLength == codewordLength && this.infoLength == infoLength && this.t == t
      ensures forall i :: 0 <= i < errorLocator.Length ==> errorLocator[i] == GF(0)
    {
      this.codewordLength, this.infoLength, this.t := codewordLength, infoLength, t;
      gfExp := new GF[2 * 65535](_ => GF(0));
      gfLog := new int[65536](_ => 0);
      syndromes := new GF[2 * t + 1](_ => GF(0));
      errorLocator := new GF[t + 2](_ => GF(0));
      errorPositions := [];
      workingBits := new Byte[(codewordLength + 7) / 8](_ => Byte(0));
      new;
      InitGfTables();
    }

    method InitGfTables()
      requires Shape()
      modifies gfExp, gfLog
      ensures Valid()
    {
      hide Xtime, Wide, NextPower, Truncate, Alpha, Index;
      gfLog[0] := -1;
      var x := Poly(1);
      WideOne();
      var i := 0;
      while i < 65535
        invariant 0 <= i <= 65535 && x == Wide(Alpha(i))
        invariant Tables(gfExp[..], gfLog[..], i)
      {
        ghost var exps, logs := gfExp[..], gfLog[..];
        TruncateWide(Alpha(i));
        TablesExtend(exps, logs, i);
        gfExp[i] := Truncate(x);
        gfExp[i + 65535] := Truncate(x);
        gfLog[Index(Truncate(x))] := i;
        assert gfExp[..] == exps[i := Alpha(i)][i + 65535 := Alpha(i)];
        assert gfLog[..] == logs[Index(Alpha(i)) := i];
        NextPowerIs(Alpha(i));
        AlphaNext(i);
        x := NextPower(x);
        i := i + 1;
      }
    }

    /** The tables invert each other: the logarithm of every nonzero word is stored. */
    lemma LogIsStored(a: GF)
      requires Valid() && a != GF(0)
      ensures gfLog[Index(a)] == Log(a)
    {
      hide Alpha, Index;
      assert Alpha(Log(a)) == a;
      assert gfLog[..][Index(Alpha(Log(a)))] == Log(a);
    }

    lemma ExpIsStored(i: nat)
      requires Valid() && i < 2 * 65535
      ensures gfExp[i] == Alpha(i)
    {
      hide Alpha, Index;
      if i >= 65535 {
        AlphaWraps(i - 65535);
        assert gfExp[..][65535 + (i - 65535)] == Alpha(i - 65535);
      } else {
        assert gfExp[..][i] == Alpha(i);
      }
    }

    function GfMul(a: GF, b: GF): (c: GF)
      requires Valid()
      reads this, gfExp, gfLog
      ensures c == Mul(a, b)
    {
      hide Alpha, Mul, Index;
      MulUnits(a);
      MulUnits(b);
      if a == GF(0) || b == GF(0) then GF(0)
      else
        LogIsStored(a);
        LogIsStored(b);
        var sum := gfLog[Index(a)] + gfLog[Index(b)];
        ProductExponent(Log(a), Log(b));
        ExpIsStored(sum % 65535);
        gfExp[sum % 65535]
    }

    /** The quotient of a by b, and zero when b is zero. */
    function GfDiv(a: GF, b: GF): (c: GF)
      requires Valid()
      reads this, gfExp, gfLog
      ensures b != GF(0) ==> Mul(c, b) == a
      ensures b == GF(0) ==> c == GF(0)
    {
      hide Alpha, Mul, Index;
      if b == GF(0) then GF(0)
      else if a == GF(0) then
        MulUnits(b);
        GF(0)
      else
        LogIsStored(a);
        LogIsStored(b);
        var diff := gfLog[Index(a)] - gfLog[Index(b)];
        var e := if diff < 0 then diff + 65535 else diff;
        QuotientExponent(Log(a), Log(b), e);
        ExpIsStored(e);
        gfExp[e]
    }

    function GfInv(a: GF): (c: GF)
      requires Valid()
      reads this, gfExp, gfLog
      ensures a != GF(0) ==> Mul(a, c) == GF(1)
      ensures a == GF(0) ==> c == GF(0)
    {
      hide Alpha, Mul, Index;
      if a == GF(0) then GF(0)
      else
        LogIsStored(a);
        ExpIsStored(65535 - Log(a));
        AlphaAdd(Log(a), 65535 - Log(a));
        PowersUpTo65535();
        gfExp[65535 - gfLog[Index(a)]]
    }

    method ComputeSyndromes(numBits: nat)
      requires Valid() && (numBits + 7) / 8 <= workingBits.Length
      modifies syndromes
      ensures Valid()
      ensures forall j :: 1 <= j <= 2 * t ==> syndromes[j] == Syndrome(Bch(t), Bits(workingBits[..], numBits), j)
    {
      hide Add, Mul, Alpha, Bch, Syndrome, Tables, GetBit, BitOf;
      ghost var w := Bits(workingBits[..], numBits);
      var j := 1;
      while j <= 2 * t
        invariant 1 <= j <= 2 * t + 1 && Valid()
        invariant forall k :: 1 <= k < j ==> syndromes[k] == Syndrome(Bch(t), w, k)
      {
        var syndrome := GF(0);
        var i := 0;
        EmptySyndrome(t, w, j);
        while i < numBits
          invariant 0 <= i <= numBits
          invariant syndrome == Syndrome(Bch(t), w[..i], j)
          invariant forall k :: 1 <= k < j ==> syndromes[k] == Syndrome(Bch(t), w, k)
        {
          SyndromeStep(t, w, i, j);
          if GetBit(workingBits[..], i) {
            var exp := (j * i) % 65535;
            ExpIsStored(exp);
            syndrome := Add(syndrome, gfExp[exp]);
          }
          i := i + 1;
        }
        assert w[..numBits] == w;
        assert syndrome == Syndrome(Bch(t), w, j);
        label BeforeStore:
        syndromes[j] := syndrome;
        assert forall k :: 1 <= k < j ==> syndromes[k] == old@BeforeStore(syndromes[k]);
        assert forall k :: 1 <= k < j ==> syndromes[k] == Syndrome(Bch(t), w, k);
        j := j + 1;
      }
    }

    /** The discrepancy of the current polynomial at n. */
    method Discrepancy(sigma: seq<GF>, L: nat, n: nat, ghost s: seq<GF>) returns (delta: GF)
      requires Valid() && L < n <= 2 * t && L < |sigma| && sigma[0] == GF(1)
      requires |s| == 2 * t + 1 && forall j :: 1 <= j <= 2 * t ==> syndromes[j] == s[j]
      ensures delta == Conv(Gf16(), sigma, s, n, L + 1)
    {
      hide Add, Mul, Alpha, Gf16, Conv, Tables;
      delta := syndromes[n];
      ConvFirst(sigma, s, n);
      var i := 1;
      while i <= L
        invariant 1 <= i <= L + 1
        invariant delta == Conv(Gf16(), sigma, s, n, i)
      {
        ConvStep(sigma, s, n, i);
        assert syndromes[n - i] == s[n - i];
        if sigma[i] != GF(0) && syndromes[n - i] != GF(0) {
          delta := Add(delta, GfMul(sigma[i], syndromes[n - i]));
        } else {
          MulUnits(sigma[i]);
          MulUnits(s[n - i]);
          AddLaws(delta);
        }
        i := i + 1;
      }
    }

    /** The update sigma + (delta / deltaPrev) x^m prev, term by term and cut to t + 2 coefficients. */
    method UpdateSigma(sigma: seq<GF>, prev: seq<GF>, m: nat, coeff: GF) returns (r: seq<GF>)
      requires Valid() && |sigma| == |prev| == t + 2 && m >= 1
      ensures |r| == t + 2
      ensures exists i: nat :: i + m >= |r| && PartlyUpdated(sigma, prev, m, coeff, r, i)
    {
      hide Add, Mul, Alpha, Tables;
      r := sigma;
      var i := 0;
      while i + m <= t + 1
        invariant 0 <= i && |r| == t + 2
        invariant PartlyUpdated(sigma, prev, m, coeff, r, i)
        decreases t + 2 - i
      {
        PartlyUpdatedStep(sigma, prev, m, coeff, r, i);
        if prev[i] != GF(0) {
          r := r[i + m := Add(r[i + m], GfMul(coeff, prev[i]))];
        }
        i := i + 1;
      }
    }

    /**
      The main loop of Berlekamp-Massey.  It stops once the length is past t + 1, where the next
      round would read beyond the current polynomial.
     */
    method ShortestLocator(ghost s: seq<GF>) returns (L: nat, sigma: seq<GF>)
      requires Valid()
      requires |s| == 2 * t + 1 && s[0] == GF(1) && forall j :: 1 <= j <= 2 * t ==> syndromes[j] == s[j]
      ensures |sigma| == t + 2
      ensures L <= t + 1 ==> Shortest(Gf16(), sigma[..L + 1], s, 2 * t)
      ensures LengthAtLeast(Gf16(), s, 2 * t, L)
      ensures L <= t ==> ShortLocator(Bch(t), s, sigma[..L + 1])
      ensures L > t ==> !exists c :: ShortLocator(Bch(t), s, c)
    {
      hide Add, Mul, Alpha, Gf16, Tables, Shortest, Invariant, LengthAtLeast, IsField, PartlyUpdated, Conv;
      sigma := [GF(1)] + seq(t + 1, _ => GF(0));
      var sigmaPrev := sigma;
      L := 0;
      var m := 1;
      var deltaPrev := GF(1);
      ghost var Lp := 0;
      var n := 1;
      InitialState(t, s, sigma);
      while n <= 2 * t && L <= t + 1
        invariant 1 <= n <= 2 * t + 1 && |sigma| == |sigmaPrev| == t + 2
        invariant L <= t + 1 ==> Invariant(Gf16(), State(sigma, sigmaPrev, L, m, deltaPrev, Lp), s, n)
        invariant L > t + 1 ==> LengthAtLeast(Gf16(), s, n - 1, L)
      {
        ghost var st := State(sigma, sigmaPrev, L, m, deltaPrev, Lp);
        InvariantFacts(st, s, n);
        var delta := Discrepancy(sigma, L, n, s);
        if delta == GF(0) {
          ZeroStep(st, s, n);
          m := m + 1;
        } else {
          var sigmaTemp := sigma;
          var coeff := GfDiv(delta, deltaPrev);
          sigma := UpdateSigma(sigma, sigmaPrev, m, coeff);
          NonzeroStep(t, st, s, n, delta, coeff, sigma);
          if 2 * L <= n - 1 {
            Lp := L;
            L := n - L;
            sigmaPrev := sigmaTemp;
            deltaPrev := delta;
            m := 1;
          } else {
            m := m + 1;
          }
        }
        n := n + 1;
      }
      if L <= t + 1 {
        FinalLocator(t, State(sigma, sigmaPrev, L, m, deltaPrev, Lp), s, n);
      }
      if L > t {
        NoShortLocator(t, s, if L == t + 1 then 2 * t else n - 1, L);
      }
    }

    /**
      Berlekamp-Massey on the stored syndromes: L is at most t exactly when some recurrence of length at
      most t fits, and L + 1 coefficients are copied, which stays within the buffer exactly when some
      recurrence of length at most t + 1 does.  Past that nothing is promised about the buffer.
     */
    method BerlekampMassey(ghost s: seq<GF>) returns (L: nat, ghost stored: seq<GF>)
      requires Valid()
      requires |s| == 2 * t + 1 && s[0] == GF(1) && forall j :: 1 <= j <= 2 * t ==> syndromes[j] == s[j]
      modifies errorLocator
      ensures Valid()
      ensures L + 1 <= errorLocator.Length <==> HasRoom(Bch(t), s)
      ensures L + 1 <= errorLocator.Length ==>
                && |stored| == L + 1 && Shortest(Gf16(), stored, s, 2 * t)
                && errorLocator[..] == Store(stored, old(errorLocator[..]))
      ensures L <= t ==> ShortLocator(Bch(t), s, stored)
      ensures L > t ==> !exists c :: ShortLocator(Bch(t), s, c)
    {
      hide Add, Mul, Alpha, Gf16, Tables, ShortLocator, Recurrence, LengthAtLeast, Store, HasRoom;
      var sigma;
      L, sigma := ShortestLocator(s);
      stored := [];
      if L <= t + 1 {
        CopyCoefficients(sigma, L + 1);
        stored := sigma[..L + 1];
      }
      RoomExactly(t, s, L, stored);
    }

    method CopyCoefficients(sigma: seq<GF>, k: nat)
      requires Valid() && k <= |sigma| && k <= errorLocator.Length
      modifies errorLocator
      ensures Valid()
      ensures errorLocator[..k] == sigma[..k]
      ensures errorLocator[..] == Store(sigma[..k], old(errorLocator[..]))
    {
      hide Alpha, Index, Tables;
      forall i | 0 <= i < k {
        errorLocator[i] := sigma[i];
      }
      assert gfExp[..] == old(gfExp[..]) && gfLog[..] == old(gfLog[..]);
    }

    /** The largest index up to t of a nonzero stored coefficient, by the ascending scan. */
    method StoredDegree() returns (degree: nat)
      requires Valid()
      ensures degree == Degree(Gf16(), errorLocator[..], t)
    {
      hide Add, Mul, Alpha, Tables;
      degree := 0;
      ghost var e := errorLocator[..];
      var i := 0;
      while i <= t
        invariant 0 <= i <= t + 1
        invariant degree == Degree(Gf16(), e, if i == 0 then 0 else i - 1)
      {
        if errorLocator[i] != GF(0) {
          degree := i;
        }
        i := i + 1;
      }
    }

    /** Dividing every term by alpha^j moves the search to the next position. */
    method NextTerms(eval: seq<GF>, ghost c: seq<GF>, ghost i: nat) returns (next: seq<GF>)
      requires Valid() && 1 <= |eval| <= t + 1 && Scaled(eval, c, i)
      ensures |next| == |eval| && Scaled(next, c, i + 1)
    {
      hide Add, Mul, Alpha, Index, Tables;
      next := eval;
      ScaledConstant(eval, c, i);
      var j := 1;
      while j < |eval|
        invariant 1 <= j <= |eval| == |next|
        invariant forall k :: j <= k < |eval| ==> next[k] == eval[k]
        invariant forall k :: 0 <= k < j ==> Mul(next[k], Alpha((i + 1) * k)) == c[k]
      {
        assert Mul(eval[j], Alpha(i * j)) == c[j];
        if next[j] != GF(0) {
          LogIsStored(next[j]);
          var newExp := gfLog[Index(next[j])] - j;
          if newExp < 0 {
            newExp := newExp + 65535;
          }
          ExpIsStored(newExp);
          TermQuotient(eval[j], j, newExp);
          ScaledNext(eval[j], Alpha(newExp), c[j], i, j);
          next := next[j := gfExp[newExp]];
        } else {
          MulUnits(Alpha(j));
          ScaledNext(eval[j], GF(0), c[j], i, j);
        }
        j := j + 1;
      }
    }

    method SumTerms(eval: seq<GF>) returns (sum: GF)
      requires |eval| >= 1
      ensures sum == Sum(eval, |eval|)
    {
      hide Add;
      FirstTerm(eval);
      sum := eval[0];
      var j := 1;
      while j < |eval|
        invariant 1 <= j <= |eval| && sum == Sum(eval, j)
      {
        sum := Add(sum, eval[j]);
        j := j + 1;
      }
    }

    /** The root search leaves in errorPositions the positions found, in ascending order. */
    method ChienSearch(numBits: nat) returns (found: nat)
      requires Valid()
      modifies `errorPositions
      ensures Valid()
      ensures errorPositions == Found(Bch(t), errorLocator[..], numBits)
      ensures found == |errorPositions|
    {
      hide Add, Mul, Alpha, Tables, Bch, Scaled, Sum, Roots;
      errorPositions := [];
      var degree := StoredDegree();
      ghost var C := Bch(t);
      FoundIs(t, errorLocator[..], numBits, degree);
      if degree == 0 {
        return 0;
      }
      ghost var c := errorLocator[..degree + 1];
      assert errorLocator[..][..degree + 1] == c;
      var eval := errorLocator[..degree + 1];
      ScaledInit(c);
      RootsEmpty(C, c);
      var i := 0;
      while i < numBits
        invariant 0 <= i <= numBits && Valid()
        invariant Scaled(eval, c, i) && |eval| == degree + 1
        invariant errorPositions == Roots(C, c, i) && |errorPositions| < degree
      {
        var sum := SumTerms(eval);
        RootTest(t, eval, c, i);
        if sum == GF(0) {
          errorPositions := errorPositions + [i];
          if |errorPositions| == degree {
            RootsPrefix(C, c, i + 1, numBits);
            return |errorPositions|;
          }
        }
        eval := NextTerms(eval, c, i);
        i := i + 1;
      }
      return |errorPositions|;
    }

    method Reset()
      requires Valid()
      modifies syndromes, errorLocator, `errorPositions
      ensures Valid() && errorPositions == []
      ensures forall i :: 0 <= i < errorLocator.Length ==> errorLocator[i] == GF(0)
      ensures forall i :: 0 <= i < syndromes.Length ==> syndromes[i] == GF(0)
    {
      hide Alpha, Index, Tables;
      forall i | 0 <= i < syndromes.Length {
        syndromes[i] := GF(0);
      }
      forall i | 0 <= i < errorLocator.Length {
        errorLocator[i] := GF(0);
      }
      errorPositions := [];
      assert gfExp[..] == old(gfExp[..]) && gfLog[..] == old(gfLog[..]);
    }

    method AllSyndromesZero(ghost w: seq<bool>) returns (allZero: bool)
      requires Valid() && forall j :: 1 <= j <= 2 * t ==> syndromes[j] == Syndrome(Bch(t), w, j)
      ensures allZero <==> IsCodeword(Bch(t), w)
    {
      hide Add, Mul, Alpha, Tables, Syndrome;
      var j := 1;
      while j <= 2 * t
        invariant 1 <= j <= 2 * t + 1
        invariant forall k :: 1 <= k < j ==> Syndrome(Bch(t), w, k) == GF(0)
      {
        assert syndromes[j] == Syndrome(Bch(t), w, j);
        if syndromes[j] != GF(0) {
          return false;
        }
        j := j + 1;
      }
      return true;
    }

    /** Flip the stored bit at every found position. */
    method FlipFound(numBits: nat)
      requires Valid() && (numBits + 7) / 8 <= workingBits.Length
      requires Ascending(errorPositions, numBits)
      modifies workingBits
      ensures Valid()
      ensures Bits(workingBits[..], numBits) == Flip(old(Bits(workingBits[..], numBits)), errorPositions)
      ensures workingBits[(numBits + 7) / 8..] == old(workingBits[(numBits + 7) / 8..])
    {
      hide Alpha, Index, Tables, GetBit, BitOf, FlipBitOf;
      ghost var w := Bits(workingBits[..], numBits);
      var k := 0;
      while k < |errorPositions|
        invariant 0 <= k <= |errorPositions|
        invariant Bits(workingBits[..], numBits) == Flip(w, errorPositions[..k])
        invariant workingBits[(numBits + 7) / 8..] == old(workingBits[(numBits + 7) / 8..])
      {
        var pos := errorPositions[k];
        ghost var bytes := workingBits[..];
        FlipOne(bytes, numBits, pos);
        FlipMore(w, errorPositions, k, numBits);
        if pos < numBits {
          workingBits[pos / 8] := FlipBitOf(workingBits[pos / 8], pos % 8);
        }
        assert workingBits[..] == bytes[pos / 8 := FlipBitOf(bytes[pos / 8], pos % 8)];
        k := k + 1;
      }
      assert errorPositions[..|errorPositions|] == errorPositions;
    }

    /** The decoded bytes: the first bytes of the working buffer. */
    function InfoBytes(): (bytes: seq<Byte>)
      requires Valid()
      reads this, gfExp, gfLog, workingBits
    {
      workingBits[..(infoLength + 7) / 8]
    }

    /** The bytes begin with the information bits of the word, as far as it reaches. */
    ghost predicate InfoIs(bytes: seq<Byte>, n: nat, word: seq<bool>) {
      && |word| == n && |bytes| == (infoLength + 7) / 8
      && var m := if infoLength <= n then infoLength else n; Bits(bytes, m) == word[..m]
    }

    lemma InfoHolds(n: nat)
      requires Valid() && (n + 7) / 8 <= workingBits.Length
      ensures InfoIs(InfoBytes(), n, Bits(workingBits[..], n))
    {
      hide Bits;
      InfoOf(workingBits[..], n, infoLength);
    }

    method CopyIn(bitsIn: array<Byte>, numBytes: nat)
      requires Valid() && numBytes <= workingBits.Length && numBytes <= bitsIn.Length && bitsIn != workingBits
      modifies workingBits
      ensures Valid()
      ensures workingBits[..numBytes] == bitsIn[..numBytes]
      ensures workingBits[numBytes..] == old(workingBits[numBytes..])
    {
      hide Alpha, Index, Tables;
      forall i | 0 <= i < numBytes {
        workingBits[i] := bitsIn[i];
      }
      assert gfExp[..] == old(gfExp[..]);
    }

    /**
      Decode the first numBits bits, or codewordLength when that is less.  The outcome is
      the one `Decodes` gives for the received word and the buffer left by earlier calls, and the
      buffer left behind is the old one under the coefficients stored: none for a codeword.  Working bytes past
      those of the received word stay as earlier calls left them, and a longer information part ends in them.
     */
    method Decode(bitsIn: array?<Byte>, numBits: nat)
      returns (result: BchResult, ghost outcome: Outcome, ghost stored: seq<GF>)
      requires Valid()
      requires bitsIn != null ==> bitsIn != workingBits && (Used(numBits) + 7) / 8 <= bitsIn.Length
      modifies syndromes, errorLocator, `errorPositions, workingBits
      ensures Valid()
      ensures bitsIn == null || numBits == 0 ==>
                result == NO_RESULT && errorLocator[..] == old(errorLocator[..])
      ensures bitsIn != null && numBits > 0 ==>
                && Decodes(Bch(t), old(errorLocator[..]), old(Bits(bitsIn[..], Used(numBits))), outcome)
                && result.success == outcome.Accepted?
      ensures result.success ==>
                && Bits(workingBits[..], Used(numBits)) == outcome.word
                && result == BchResult(InfoBytes(), outcome.corrected, true, outcome.corrected == 0)
      ensures !result.success ==>
                result.decodedBits == [] && result.errorsCorrected == 0 && !result.wasValid && result == NO_RESULT
      ensures result.success ==> InfoIs(result.decodedBits, Used(numBits), outcome.word)
      ensures bitsIn != null && numBits > 0 ==>
                workingBits[(Used(numBits) + 7) / 8..] == old(workingBits[(Used(numBits) + 7) / 8..])
      ensures bitsIn != null && numBits > 0 ==>
                var r := old(Bits(bitsIn[..], Used(numBits)));
                IsCodeword(Bch(t), r) || HasRoom(Bch(t), Syndromes(Bch(t), r)) ==>
                  && IsCall(Bch(t), old(errorLocator[..]), Call(r, stored, outcome))
                  && errorLocator[..] == Store(stored, old(errorLocator[..]))
    {
      hide Add, Mul, Alpha, Tables, Bch, Decodes, Correct, IsCodeword, GetBit, Syndrome, ShortLocator, Found, Bits,
        Flip, Shortest, HasRoom, Degree, IsCall, InfoIs;
      result, outcome, stored := NO_RESULT, Rejected, [];
      if bitsIn == null || numBits == 0 {
        return;
      }
      var n := Used(numBits);
      ghost var r := Bits(bitsIn[..], n);
      ghost var e := errorLocator[..];
      CopyIn(bitsIn, (n + 7) / 8);
      BitsPrefix(workingBits[..], bitsIn[..], n);
      ComputeSyndromes(n);
      var valid := AllSyndromesZero(r);
      if valid {
        outcome := Accepted(r, 0);
        DecodesClean(t, e, r);
        CleanCall(t, e, r);
        InfoHolds(n);
        result := BchResult(InfoBytes(), 0, true, true);
        return;
      }
      ghost var s := Syndromes(Bch(t), r);
      SyndromesAre(t, r);
      var numErrors;
      numErrors, stored := BerlekampMassey(s);
      if numErrors > t {
        DecodesNone(t, e, r);
        if numErrors == t + 1 {
          OtherCall(t, e, r, stored, outcome);
        }
        return;
      }
      ghost var c := stored;
      var rootsFound := ChienSearch(n);
      FoundFacts(t, errorLocator[..], n);
      if rootsFound != numErrors {
        DecodesWith(t, e, r, c, errorPositions);
        OtherCall(t, e, r, stored, outcome);
        return;
      }
      FlipFound(n);
      ghost var w := Bits(workingBits[..], n);
      ComputeSyndromes(n);
      valid := AllSyndromesZero(w);
      DecodesWith(t, e, r, c, errorPositions);
      if !valid {
        OtherCall(t, e, r, stored, outcome);
        return;
      }
      outcome := Accepted(w, |errorPositions|);
      OtherCall(t, e, r, stored, outcome);
      InfoHolds(n);
      result := BchResult(InfoBytes(), |errorPositions|, true, false);
    }

    /** The number of bits looked at: all that are given, but never more than a codeword. */
    function Used(numBits: nat): (n: nat)
      ensures n <= numBits && n <= codewordLength && (n == numBits || n == codewordLength)
    {
      if numBits > codewordLength then codewordLength else numBits
    }

    /**
      The overload that writes to an output buffer and returns the number of errors, or -1.
      For codewords of at most 65535 bits it finds the one codeword within distance t,
      and it finds it whenever the buffer holds no stale coefficient past the error count.
     */
    method DecodeInto(bitsIn: array?<Byte>, numBits: nat, bitsOut: array?<Byte>)
      returns (count: int, ghost word: seq<bool>)
      requires Valid() && codewordLength <= 65535
      requires bitsIn != null ==> bitsIn != workingBits && (Used(numBits) + 7) / 8 <= bitsIn.Length
      requires bitsOut != null ==> bitsOut != workingBits && (infoLength + 7) / 8 <= bitsOut.Length
      modifies syndromes, errorLocator, `errorPositions, workingBits, bitsOut
      ensures Valid()
      ensures count >= 0 ==>
                && bitsIn != null && |word| == Used(numBits) && IsCodeword(Bch(t), word)
                && Distance(word, old(Bits(bitsIn[..], Used(numBits)))) == count <= t
                && Bits(workingBits[..], Used(numBits)) == word
                && (bitsOut != null ==> bitsOut[..(infoLength + 7) / 8] == InfoBytes())
                && InfoIs(InfoBytes(), Used(numBits), word)
                && workingBits[(Used(numBits) + 7) / 8..] == old(workingBits[(Used(numBits) + 7) / 8..])
      ensures count < 0 ==> count == -1
      ensures bitsIn != null && numBits > 0 ==> forall c: seq<bool> ::
                Correctable(t, old(errorLocator[..]), c, old(Bits(bitsIn[..], Used(numBits)))) ==>
                  word == c && count == Distance(old(Bits(bitsIn[..], Used(numBits))), c)
      ensures bitsIn != null && 0 < numBits <= codewordLength ==> forall c: seq<bool> ::
                Correctable(t, old(errorLocator[..]), c, old(Bits(bitsIn[..], numBits))) ==>
                  |word| == numBits && word == c && count == Distance(old(Bits(bitsIn[..], numBits)), c)
      ensures bitsIn != null && numBits > 0 && numBits > codewordLength ==> forall c: seq<bool> ::
                Correctable(t, old(errorLocator[..]), c, old(Bits(bitsIn[..], codewordLength))) ==>
                  |word| == codewordLength && word == c &&
                  count == Distance(old(Bits(bitsIn[..], codewordLength)), c)
    {
      hide Add, Mul, Alpha, Tables, Bch, Decodes, IsCodeword, GetBit, Bits, Correctable;
      ghost var e := errorLocator[..];
      ghost var r := if bitsIn == null then [] else Bits(bitsIn[..], Used(numBits));
      var result;
      ghost var outcome, stored;
      result, outcome, stored := Decode(bitsIn, numBits);
      if bitsIn != null && numBits > 0 {
        DecodeMeaning(t, e, r, outcome);
      }
      if !result.success {
        word := [];
        return -1, word;
      }
      word := outcome.word;
      if bitsOut != null && |result.decodedBits| > 0 {
        CopyOut(bitsOut, result.decodedBits);
      }
      count := result.errorsCorrected;
    }

    method CopyOut(bitsOut: array<Byte>, bytes: seq<Byte>)
      requires Valid() && bitsOut != workingBits && |bytes| <= bitsOut.Length
      modifies bitsOut
      ensures Valid() && workingBits[..] == old(workingBits[..])
      ensures bitsOut[..|bytes|] == bytes
    {
      hide Alpha, Index, Tables;
      forall i | 0 <= i < |bytes| {
        bitsOut[i] := bytes[i];
      }
      assert gfExp[..] == old(gfExp[..]) && gfLog[..] == old(gfLog[..]);
    }
  }
}
