/**
  Two received words that show where the decoder's locator buffer fails: one for which it has no room, and one that
  is rejected and leaves stale coefficients in it.
 */
module BchLimits {
  import opened FieldTheory
  import opened LinearRecurrence
  import opened GaloisField
  import opened Sequences
  import opened GaloisOrder
  import opened BchCode
  import opened BchRuns
  import opened BchDecoding

  // ---------- Syndromes of composed words ----------

  lemma {:induction false} SyndromeConcat<T(!new)>(C: Code<T>, u: seq<bool>, v: seq<bool>, j: nat)
    requires IsField(C.F)
    ensures Syndrome(C, u + v, j) == C.F.add(Syndrome(C, u, j), C.F.mul(Pow(C.F, C.alpha, j * |u|), Syndrome(C, v, j)))
    decreases |v|
  {
    var g := Pow(C.F, C.alpha, j * |u|);
    if |v| == 0 {
      assert u + v == u;
      MulZero(C.F, g);
      AddZero(C.F, Syndrome(C, u, j));
    } else {
      var n := |v| - 1;
      var p := if v[n] then Pow(C.F, C.alpha, j * n) else C.F.zero;
      assert (u + v)[..|u| + n] == u + v[..n];
      SyndromeConcat(C, u, v[..n], j);
      PowAdd(C.F, C.alpha, j * |u|, j * n);
      assert j * (|u| + n) == j * |u| + j * n;
      MulZero(C.F, g);
      FieldLaws(C.F, g, Syndrome(C, v[..n], j), p);
      FieldLaws(C.F, Syndrome(C, u, j), C.F.mul(g, Syndrome(C, v[..n], j)), C.F.mul(g, p));
    }
  }

  /** A one and n zeros. */
  function Gap(n: nat): (w: seq<bool>)
    ensures |w| == n + 1
  {
    [true] + seq(n, _ => false)
  }

  lemma {:induction false} SyndromeGap<T(!new)>(C: Code<T>, n: nat, j: nat)
    requires IsField(C.F)
    ensures Syndrome(C, Gap(n), j) == C.F.one
  {
    AddZero(C.F, C.F.one);
    if n == 0 {
      assert Gap(0)[..0] == [];
      assert j * 0 == 0;
    } else {
      SyndromeGap(C, n - 1, j);
      assert Gap(n)[..n] == Gap(n - 1);
    }
  }

  /** b + g b + ... + g^k b. */
  ghost function Repeat<T(!new)>(F: Field<T>, b: T, g: T, k: nat): T {
    if k == 0 then b else F.add(b, F.mul(g, Repeat(F, b, g, k - 1)))
  }

  lemma {:induction false} RepeatSum<T(!new)>(F: Field<T>, b: T, g: T, k: nat)
    requires IsField(F)
    ensures F.mul(F.add(g, F.one), Repeat(F, b, g, k)) == F.mul(b, F.add(Pow(F, g, k + 1), F.one))
  {
    var h, p := F.add(g, F.one), Pow(F, g, k);
    if k == 0 {
      assert Pow(F, g, 0) == F.one;
      MulZero(F, g);
      FieldLaws(F, h, b, b);
    } else {
      var r := Repeat(F, b, g, k - 1);
      RepeatSum(F, b, g, k - 1);
      FieldLaws(F, h, b, F.mul(g, r));
      FieldLaws(F, h, g, r);
      FieldLaws(F, g, h, r);
      FieldLaws(F, b, g, F.add(p, F.one));
      FieldLaws(F, g, b, F.add(p, F.one));
      FieldLaws(F, b, h, F.mul(g, F.add(p, F.one)));
      Telescope(F, g, p);
    }
  }

  lemma Telescope<T(!new)>(F: Field<T>, g: T, p: T)
    requires IsField(F)
    ensures F.add(F.add(g, F.one), F.mul(g, F.add(p, F.one))) == F.add(F.mul(g, p), F.one)
  {
    var gp := F.mul(g, p);
    FieldLaws(F, g, p, F.one);
    MulZero(F, g);
    FieldLaws(F, gp, g, F.one);
    FieldLaws(F, F.add(g, F.one), gp, g);
    FieldLaws(F, F.one, g, gp);
    FieldLaws(F, g, g, F.one);
    FieldLaws(F, g, F.one, gp);
    AddZero(F, F.one);
    AddZero(F, g);
    FieldLaws(F, F.one, gp, g);
    Swap4(F, g, F.one, gp, g);
    Swap4(F, g, F.one, g, gp);
    FieldLaws(F, F.one, gp, gp);
    AddZero(F, F.add(F.one, gp));
  }

  /** A sum over a nontrivial group vanishes, and so does any sum of zeros. */
  lemma RepeatVanishes<T(!new)>(F: Field<T>, b: T, g: T, k: nat)
    requires IsField(F)
    requires b == F.zero || (g != F.one && Pow(F, g, k + 1) == F.one)
    ensures Repeat(F, b, g, k) == F.zero
  {
    if b == F.zero {
      RepeatZero(F, g, k);
    } else {
      RepeatSum(F, b, g, k);
      AddZero(F, F.one);
      MulZero(F, b);
      SumIsZero(F, g, F.one);
      NoZeroDivisors(F, F.add(g, F.one), Repeat(F, b, g, k));
    }
  }

  lemma {:induction false} RepeatZero<T(!new)>(F: Field<T>, g: T, k: nat)
    requires IsField(F)
    ensures Repeat(F, F.zero, g, k) == F.zero
  {
    if k > 0 {
      RepeatZero(F, g, k - 1);
      MulZero(F, g);
      AddZero(F, F.zero);
    }
  }

  /** An odd number of equal terms is one of them. */
  lemma RepeatOdd<T(!new)>(F: Field<T>, b: T)
    requires IsField(F)
    ensures Repeat(F, b, F.one, 4) == b
  {
    var r1, r2, r3 := Repeat(F, b, F.one, 1), Repeat(F, b, F.one, 2), Repeat(F, b, F.one, 3);
    assert Repeat(F, b, F.one, 0) == b;
    AddZero(F, b);
    MulZero(F, b);
    assert r1 == F.zero;
    MulZero(F, r1);
    assert r2 == b;
    MulZero(F, r2);
    assert r3 == F.zero;
    MulZero(F, r3);
  }

  // ---------- A word without room ----------

  /** Ones at 0, 35 and 1743, then n zeros. */
  function Block(n: nat): (w: seq<bool>)
    ensures |w| == 1744 + n
  {
    Gap(34) + (Gap(1707) + Gap(n))
  }

  function Blocks(k: nat): (w: seq<bool>)
    ensures |w| == 13107 * k + 5172
  {
    if k == 0 then Block(3428) else Block(11363) + Blocks(k - 1)
  }

  /** A word as long as the long frame: fifteen ones, at 13107 i, 13107 i + 35 and 13107 i + 1743 for i < 5. */
  function LongFrameWord(): (w: seq<bool>)
    ensures |w| == 57600
  {
    Blocks(4)
  }

  ghost function BlockSum(j: nat): GF {
    Add(GF(1), Add(Alpha(35 * j), Alpha(1743 * j)))
  }

  lemma BlockSyndrome(n: nat, j: nat)
    ensures Syndrome(Bch(12), Block(n), j) == BlockSum(j)
  {
    hide Add, Mul, Alpha, Gap, Syndrome, Pow;
    var C := Bch(12);
    Gf16IsField();
    SyndromeGap(C, 34, j);
    SyndromeGap(C, 1707, j);
    SyndromeGap(C, n, j);
    SyndromeConcat(C, Gap(1707), Gap(n), j);
    SyndromeConcat(C, Gap(34), Gap(1707) + Gap(n), j);
    var a, b := Alpha(35 * j), Alpha(1708 * j);
    assert j * 35 == 35 * j && j * 1708 == 1708 * j;
    AlphaIsPow(35 * j);
    AlphaIsPow(1708 * j);
    AlphaAdd(35 * j, 1708 * j);
    assert 35 * j + 1708 * j == 1743 * j;
    MulUnits(a);
    MulUnits(b);
    MulDistrib(a, GF(1), b);
  }

  lemma {:induction false} BlocksSyndrome(k: nat, j: nat)
    ensures Syndrome(Bch(12), Blocks(k), j) == Repeat(Gf16(), BlockSum(j), Alpha(13107 * j), k)
  {
    hide Add, Mul, Alpha, Block, Syndrome, Pow, BlockSum;
    BlockSyndrome(if k == 0 then 3428 else 11363, j);
    if k > 0 {
      Gf16IsField();
      BlocksSyndrome(k - 1, j);
      SyndromeConcat(Bch(12), Block(11363), Blocks(k - 1), j);
      assert j * 13107 == 13107 * j;
      AlphaIsPow(13107 * j);
    }
  }

  /** 13107 is a fifth of the order of alpha. */
  lemma FifthRoot(j: nat)
    requires 1 <= j
    ensures Pow(Gf16(), Alpha(13107 * j), 5) == GF(1)
    ensures j < 15 && j != 5 && j != 10 ==> Alpha(13107 * j) != GF(1)
    ensures j == 15 ==> Alpha(13107 * j) == GF(1)
  {
    hide Add, Mul, Alpha, Pow;
    Gf16IsField();
    AlphaIsPow(13107 * j);
    PowMul(Gf16(), Alpha(1), 13107 * j, 5);
    assert 13107 * j * 5 == 65535 * j;
    AlphaIsPow(65535 * j);
    PowersUpTo65535();
    PeriodMultiple(65535, j);
    if j == 15 {
      PeriodMultiple(65535, 3);
    } else if j < 15 && j != 5 && j != 10 {
      var e := 13107 * j % 65535;
      AlphaWraps(13107 * j);
      OrderAtLeast(e);
    }
  }

  lemma PowersOfBlock()
    ensures Alpha(175) == GF(0xF95D) && Alpha(8715) == GF(0xF95C)
  {
    hide Alpha;
    PowersUpTo15();
    PowersUpTo85();
    PowersUpTo255();
    PowersUpTo3855();
    AlphaProducts();
  }

  /** From the powers that are tabulated for the order of alpha to those of the block, by addition of exponents. */
  lemma AlphaProducts()
    requires Alpha(15) == GF(0x8000) && Alpha(80) == GF(0xF72F) && Alpha(240) == GF(0x6B65) && Alpha(3840) == GF(0x8BE8)
    ensures Alpha(175) == GF(0xF95D) && Alpha(8715) == GF(0xF95C)
  {
    hide Alpha;
    AlphaProduct(80, 80, 0xF72F, 0xF72F, 0x14DF);
    AlphaProduct(15, 160, 0x8000, 0x14DF, 0xF95D);
    AlphaProduct(15, 15, 0x8000, 0x8000, 0x8EFA);
    AlphaProduct(30, 30, 0x8EFA, 0x8EFA, 0xC9C5);
    AlphaProduct(60, 15, 0xC9C5, 0x8000, 0xE13F);
    AlphaProduct(240, 240, 0x6B65, 0x6B65, 0xC38D);
    AlphaProduct(480, 480, 0xC38D, 0xC38D, 0x3537);
    AlphaProduct(75, 960, 0xE13F, 0x3537, 0xA24A);
    AlphaProduct(3840, 3840, 0x8BE8, 0x8BE8, 0xC871);
    AlphaProduct(1035, 7680, 0xA24A, 0xC871, 0xF95C);
  }

  /** The block's polynomial vanishes at alpha^5 and not at alpha^15. */
  lemma BlockAtFive()
    ensures BlockSum(5) == GF(0) && BlockSum(15) != GF(0)
  {
    hide Alpha;
    PowersOfBlock();
    AlphaProduct(175, 175, 0xF95D, 0xF95D, 0x13A0);
    AlphaProduct(175, 350, 0xF95D, 0x13A0, 0x10E4);
    AlphaProduct(8715, 8715, 0xF95C, 0xF95C, 0x13A1);
    AlphaProduct(8715, 17430, 0xF95C, 0x13A1, 0xFA18);
  }

  /** Its first nonzero syndrome is the fifteenth. */
  lemma LongFrameSyndromes(j: nat)
    requires 1 <= j <= 15
    ensures Syndrome(Bch(12), LongFrameWord(), j) == GF(0) <==> j < 15
  {
    hide Add, Mul, Alpha, Syndrome, Pow, BlockSum, Repeat, Blocks;
    Gf16IsField();
    BlocksSyndrome(4, j);
    FifthRoot(j);
    BlockAtFive();
    if j == 10 {
      BlocksSyndrome(4, 5);
      RepeatVanishes(Gf16(), BlockSum(5), Alpha(13107 * 5), 4);
      SyndromeSquare(Bch(12), Blocks(4), 5);
      MulUnits(GF(0));
    } else if j < 15 {
      RepeatVanishes(Gf16(), BlockSum(j), Alpha(13107 * j), 4);
    } else {
      RepeatOdd(Gf16(), BlockSum(15));
    }
  }

  /** With t = 12 and the length of the long frame, this word's coefficients do not fit the locator buffer. */
  lemma LongFrameHasNoRoom()
    ensures |LongFrameWord()| == 57600 && |Support(LongFrameWord())| == 15
    ensures !IsCodeword(Bch(12), LongFrameWord())
    ensures !HasRoom(Bch(12), Syndromes(Bch(12), LongFrameWord()))
  {
    hide Support, Syndrome, HasRoom, IsCodeword, Blocks;
    LongFrameWeighs();
    NoRoomFor15();
  }

  lemma LongFrameWeighs()
    ensures |Support(LongFrameWord())| == 15
  {
    WeightBlocks(4);
  }

  lemma NoRoomFor15()
    ensures !IsCodeword(Bch(12), LongFrameWord())
    ensures !HasRoom(Bch(12), Syndromes(Bch(12), LongFrameWord()))
  {
    hide Add, Mul, Alpha, Syndrome, HasRoom, LongFrameWord, Gf16;
    var C, w := Bch(12), LongFrameWord();
    Gf16IsField();
    forall j | 1 <= j <= 15
      ensures Syndrome(C, w, j) == GF(0) <==> j < 15
    {
      LongFrameSyndromes(j);
    }
    FieldZero();
    assert Syndromes(C, w)[15] != GF(0);
    LateStartHasNoRoom(C, Syndromes(C, w), 15);
  }

  lemma {:induction false} WeightConcat(u: seq<bool>, v: seq<bool>)
    ensures |Support(u + v)| == |Support(u)| + |Support(v)|
    decreases |v|
  {
    if |v| == 0 {
      assert u + v == u;
    } else {
      var n := |v| - 1;
      assert (u + v)[..|u| + n] == u + v[..n];
      WeightConcat(u, v[..n]);
    }
  }

  lemma {:induction false} WeightGap(n: nat)
    ensures |Support(Gap(n))| == 1
  {
    if n == 0 {
      assert Gap(0)[..0] == [];
    } else {
      WeightGap(n - 1);
      assert Gap(n)[..n] == Gap(n - 1);
    }
  }

  lemma {:induction false} WeightBlocks(k: nat)
    ensures |Support(Blocks(k))| == 3 * k + 3
  {
    hide Support, Gap;
    var n := if k == 0 then 3428 else 11363;
    WeightGap(34);
    WeightGap(1707);
    WeightGap(n);
    WeightConcat(Gap(1707), Gap(n));
    WeightConcat(Gap(34), Gap(1707) + Gap(n));
    if k > 0 {
      WeightBlocks(k - 1);
      WeightConcat(Block(11363), Blocks(k - 1));
    }
  }

  lemma FieldZero()
    ensures Gf16().zero == GF(0)
  {}

  // ---------- A rejected word that leaves the buffer stale ----------

  /** Three errors, one more than a decoder for two corrects. */
  function ThreeOnes(): seq<bool> {
    [true, true, true]
  }

  lemma ThreeOnesSyndrome(j: nat)
    ensures Syndrome(Bch(2), ThreeOnes(), j) == Add(Add(GF(1), Alpha(j)), Alpha(2 * j))
  {
    hide Add, Mul, Alpha, Pow;
    var C, w := Bch(2), ThreeOnes();
    EmptySyndrome(2, w, j);
    SyndromeStep(2, w, 0, j);
    SyndromeStep(2, w, 1, j);
    SyndromeStep(2, w, 2, j);
    AddLaws(GF(1));
    AlphaZero();
    assert w[..3] == w;
    AlphaWraps(j);
    AlphaWraps(2 * j);
    assert j * 0 == 0 && j * 1 == j && j * 2 == 2 * j;
  }

  lemma AlphaZero()
    ensures Alpha(0) == GF(1)
  {}

  lemma SmallPowers()
    ensures Alpha(1) == GF(2) && Alpha(2) == GF(4) && Alpha(3) == GF(8) && Alpha(4) == GF(16)
    ensures Alpha(6) == GF(64) && Alpha(8) == GF(256)
  {
    hide Xtime, Alpha;
    AlphaZero();
    XtimeConstants();
    NextAlpha(0);
    NextAlpha(1);
    NextAlpha(2);
    NextAlpha(3);
    NextAlpha(4);
    NextAlpha(5);
    NextAlpha(6);
    NextAlpha(7);
  }

  lemma NextAlpha(n: nat)
    ensures Alpha(n + 1) == Xtime(Alpha(n))
  {}

  lemma XtimeConstants()
    ensures Xtime(GF(1)) == GF(2) && Xtime(GF(2)) == GF(4) && Xtime(GF(4)) == GF(8) && Xtime(GF(8)) == GF(16)
    ensures Xtime(GF(16)) == GF(32) && Xtime(GF(32)) == GF(64) && Xtime(GF(64)) == GF(128) && Xtime(GF(128)) == GF(256)
  {}

  lemma ThreeOnesSyndromes()
    ensures Syndromes(Bch(2), ThreeOnes()) == [GF(1), GF(7), GF(0x15), GF(0x49), GF(0x111)]
  {
    hide Mul, Alpha, Syndrome;
    SmallPowers();
    ThreeOnesSyndrome(1);
    ThreeOnesSyndrome(2);
    ThreeOnesSyndrome(3);
    ThreeOnesSyndrome(4);
  }

  /** Its two coefficients and the leading one. */
  function ThreeOnesLocator(): seq<GF> {
    [GF(1), GF(7), GF(0x6B63)]
  }

  lemma ThreeOnesProducts()
    ensures Mul(GF(7), GF(7)) == GF(0x15) && Mul(GF(7), GF(0x15)) == GF(0x6B) && Mul(GF(7), GF(0x49)) == GF(0x1FF)
    ensures Mul(GF(0x6B63), GF(7)) == GF(0x22) && Mul(GF(0x6B63), GF(0x15)) == GF(0xEE)
  {
    hide Mul;
    ProductIsMul(GF(7), GF(7));
    ProductIsMul(GF(7), GF(0x15));
    ProductIsMul(GF(7), GF(0x49));
    ProductIsMul(GF(0x6B63), GF(7));
    ProductIsMul(GF(0x6B63), GF(0x15));
  }

  /** A recurrence of length at most one would make the third syndrome 7 * 0x15, which is 0x6B. */
  lemma NoShorter(d: seq<GF>)
    requires Recurrence(Gf16(), d, Syndromes(Bch(2), ThreeOnes()), 4)
    ensures |d| >= 3
  {
    hide Add, Mul, Conv, Syndromes;
    var F, s := Gf16(), Syndromes(Bch(2), ThreeOnes());
    Gf16IsField();
    ThreeOnesSyndromes();
    ThreeOnesProducts();
    if |d| == 1 {
      assert Vanishes(F, d, s, 1);
      ConvLeads(F, d, s, 1, 1);
    } else if |d| == 2 {
      assert Vanishes(F, d, s, 2) && Vanishes(F, d, s, 3);
      ConvTwoTerms(F, d, s, 2, 2);
      ConvTwoTerms(F, d, s, 3, 2);
      SumIsZero(F, s[2], F.mul(d[1], s[1]));
      SumIsZero(F, s[3], F.mul(d[1], s[2]));
      MulComm(GF(7), d[1]);
      CancelFactor(d[1], GF(7));
    }
  }

  lemma CancelFactor(a: GF, b: GF)
    requires Mul(a, b) == Mul(b, b) && b != GF(0)
    ensures a == b
  {
    hide Add, Mul;
    Gf16IsField();
    FieldLaws(Gf16(), b, a, b);
    MulComm(a, b);
    SumIsZero(Gf16(), Mul(b, a), Mul(b, b));
    NoZeroDivisors(Gf16(), b, Add(a, b));
    SumIsZero(Gf16(), a, b);
  }

  lemma LocatorFits()
    ensures ShortLocator(Bch(2), Syndromes(Bch(2), ThreeOnes()), ThreeOnesLocator())
  {
    hide Mul, Syndromes, Conv;
    var F, c, s := Gf16(), ThreeOnesLocator(), Syndromes(Bch(2), ThreeOnes());
    ThreeOnesSyndromes();
    ThreeOnesProducts();
    ThreeTerms(c, s, 3);
    ThreeTerms(c, s, 4);
    assert Recurrence(F, c, s, 4);
    forall d | Recurrence(F, d, s, 4)
      ensures |d| - 1 >= 2
    {
      NoShorter(d);
    }
  }

  lemma ThreeTerms(c: seq<GF>, s: seq<GF>, n: nat)
    requires |c| == 3 && c[0] == GF(1) && 3 <= n < |s|
    ensures Conv(Gf16(), c, s, n, 3) == Add(Add(s[n], Mul(c[1], s[n - 1])), Mul(c[2], s[n - 2]))
  {
    hide Add, Mul;
    ConvFirst(c, s, n);
    ConvStep(c, s, n, 1);
    ConvStep(c, s, n, 2);
  }

  /** The only codeword of three bits is the zero word, three errors away. */
  lemma NotAccepted(e: seq<GF>, o: Outcome)
    requires |e| == 4 && Decodes(Bch(2), e, ThreeOnes(), o)
    ensures o == Rejected
  {
    hide Add, Mul, Alpha, Decodes, Syndrome, Support;
    if o.Accepted? {
      BchIsValid(2);
      DecodingIsSound(Bch(2), e, ThreeOnes(), o);
      MinimumWeight(Bch(2), o.word);
      SupportIs(o.word);
      ThreeOnesWeigh(o.word);
    }
  }

  lemma ThreeOnesWeigh(w: seq<bool>)
    requires |w| == 3
    ensures |Support(w)| <= 3
    ensures |Support(w)| == 0 ==> Distance(w, ThreeOnes()) == 3
  {
    SupportWithin(w);
    SupportIs(w);
    if |Support(w)| == 0 {
      assert !w[0] && !w[1] && !w[2];
      assert w == [false, false, false];
      SupportOf(Xor(w, ThreeOnes()), [0, 1, 2]);
    }
  }

  lemma {:induction false} SupportWithin(w: seq<bool>)
    ensures |Support(w)| <= |w|
  {
    if |w| > 0 {
      SupportWithin(w[..|w| - 1]);
    }
  }

  /**
    A decoder for two errors rejects three ones, whatever its buffer holds, and has then stored a coefficient past
    the first: the buffer is no longer clean, though the call reported a failure and corrected nothing.
   */
  lemma RejectedLeavesStale(e: seq<GF>)
    requires |e| == 4
    ensures var call := Call(ThreeOnes(), ThreeOnesLocator(), Rejected);
            && IsCall(Bch(2), e, call) && !Harmless(Bch(2), call)
            && !ZeroBeyond(Bch(2), Store(call.stored, e), 1)
  {
    hide Add, Mul, Alpha, Syndrome, Syndromes, Correct, Shortest, OneErrorSyndromes;
    var C, r, c := Bch(2), ThreeOnes(), ThreeOnesLocator();
    ThreeOnesNotCodeword();
    LocatorFits();
    NotAccepted(e, Correct(C, c, e, r));
    Gf16IsField();
    HigherTermsExactly(C, r, c);
    assert c[2] != GF(0) && Store(c, e)[2] == c[2];
  }

  lemma ThreeOnesNotCodeword()
    ensures !IsCodeword(Bch(2), ThreeOnes())
  {
    hide Add, Mul, Alpha, Syndrome;
    ThreeOnesSyndromes();
    assert Syndromes(Bch(2), ThreeOnes())[1] == Syndrome(Bch(2), ThreeOnes(), 1);
  }
}
