/** Bit reversal pruned to any size: the size helpers, the two permutations, and the loops that tabulate them. */
module PrunedReversal {
  import Arithmetic
  import opened BitReversal
  import opened GrayCode

  // ---------- Sizes ----------

  function CountBits(n: nat): nat {
    if n == 0 then 0 else 1 + CountBits(n / 2)
  }

  lemma {:induction false} CountBitsBounds(n: nat)
    ensures n < Pow2(CountBits(n))
    ensures n > 0 ==> CountBits(n) > 0 && Pow2(CountBits(n) - 1) <= n
  {
    if n > 0 {
      CountBitsBounds(n / 2);
    }
  }

  lemma {:induction false} CountBitsOfOnes(k: nat)
    ensures CountBits(Pow2(k) - 1) == k
  {
    if k > 0 {
      CountBitsOfOnes(k - 1);
      assert (Pow2(k) - 1) / 2 == Pow2(k - 1) - 1;
    }
  }

  method ComputeCountBits(n: nat) returns (count: nat)
    ensures count == CountBits(n)
  {
    count := 0;
    var m: nat := n;
    while m > 0
      invariant count + CountBits(m) == CountBits(n)
    {
      m := m / 2;
      count := count + 1;
    }
  }

  /** The exponent of the smallest power of two that is at least n. */
  function PaddedBits(n: nat): nat {
    if n == 0 then 0 else CountBits(n - 1)
  }

  lemma PaddedIsLeast(n: nat)
    ensures n <= Pow2(PaddedBits(n))
    ensures forall j: nat :: n <= Pow2(j) ==> PaddedBits(n) <= j
  {
    if n > 0 {
      CountBitsBounds(n - 1);
      forall j: nat | n <= Pow2(j)
        ensures PaddedBits(n) <= j
      {
        if n > 1 {
          Pow2Order(j, PaddedBits(n) - 1);
        }
      }
    }
  }

  lemma {:induction false} Pow2Monotone(j: nat, n: nat)
    requires j <= n
    ensures Pow2(j) <= Pow2(n)
    decreases n
  {
    if j < n {
      Pow2Monotone(j, n - 1);
    }
  }

  lemma Pow2Order(j: nat, n: nat)
    ensures j <= n ==> Pow2(j) <= Pow2(n)
  {
    if j <= n {
      Pow2Monotone(j, n);
    }
  }

  // ---------- Filling every bit below the highest ----------

  /** Bitwise or. */
  function Or(a: nat, b: nat): nat
    decreases a + b
  {
    if a == 0 && b == 0 then 0 else Join(Or(a / 2, b / 2), Odd(a) || Odd(b))
  }

  lemma OrStep(a: nat, b: nat)
    ensures Or(a, b) / 2 == Or(a / 2, b / 2) && (Odd(Or(a, b)) <==> Odd(a) || Odd(b))
  {
    hide Join, Odd;
    if a == 0 && b == 0 {
      ZeroIsEven();
    } else {
      JoinParts(Or(a / 2, b / 2), Odd(a) || Odd(b), 0);
    }
  }

  lemma {:induction false} OrBit(a: nat, b: nat, j: nat)
    ensures Bit(Or(a, b), j) <==> Bit(a, j) || Bit(b, j)
    decreases j
  {
    hide Odd, Or;
    OrStep(a, b);
    if j > 0 {
      OrBit(a / 2, b / 2, j - 1);
    }
  }

  /** Some bit of x among j, ..., j + w - 1 is set. */
  ghost predicate SomeBit(x: nat, j: nat, w: nat) {
    exists i: nat :: j <= i < j + w && Bit(x, i)
  }

  /** Bit j of y is set exactly when some bit of x from j up, within w, is. */
  ghost predicate Smeared(x: nat, y: nat, w: nat) {
    forall j: nat :: Bit(y, j) <==> SomeBit(x, j, w)
  }

  /** y |= y >> w doubles the reach. */
  lemma SmearDoubles(x: nat, y: nat, w: nat)
    requires Smeared(x, y, w)
    ensures Smeared(x, Or(y, y / Pow2(w)), 2 * w)
  {
    hide Bit, Or;
    forall j: nat
      ensures Bit(Or(y, y / Pow2(w)), j) <==> SomeBit(x, j, 2 * w)
    {
      OrBit(y, y / Pow2(w), j);
      UpperBit(w, y, j);
      assert Bit(y, j) <==> SomeBit(x, j, w);
      var j' := j + w;
      assert Bit(y, j') <==> SomeBit(x, j', w);
      SomeBitSplits(x, j, w);
    }
  }

  lemma SomeBitSplits(x: nat, j: nat, w: nat)
    ensures SomeBit(x, j, 2 * w) <==> SomeBit(x, j, w) || SomeBit(x, j + w, w)
  {
    hide Bit;
    if SomeBit(x, j, 2 * w) {
      var i: nat :| j <= i < j + 2 * w && Bit(x, i);
      if i < j + w {
        assert SomeBit(x, j, w);
      } else {
        assert SomeBit(x, j + w, w);
      }
    }
    if SomeBit(x, j, w) {
      var i: nat :| j <= i < j + w && Bit(x, i);
    }
    if SomeBit(x, j + w, w) {
      var i: nat :| j + w <= i < j + w + w && Bit(x, i);
    }
  }

  lemma {:induction false} HighBitsClear(x: nat, k: nat, j: nat)
    requires x < Pow2(k) && k <= j
    ensures !Bit(x, j)
    decreases k
  {
    if k == 0 {
      ZeroHasNoBits(j);
    } else {
      HighBitsClear(x / 2, k - 1, j - 1);
    }
  }

  lemma {:induction false} ZeroHasNoBits(j: nat)
    ensures !Bit(0, j)
    decreases j
  {
    if j > 0 {
      ZeroHasNoBits(j - 1);
    }
  }

  lemma {:induction false} SameBits(a: nat, b: nat)
    requires forall j: nat :: Bit(a, j) <==> Bit(b, j)
    ensures a == b
    decreases a + b
  {
    hide Odd, Bit;
    if a + b > 0 {
      BitZero(a);
      BitZero(b);
      forall j: nat
        ensures Bit(a / 2, j) <==> Bit(b / 2, j)
      {
        BitAbove(a, j);
        BitAbove(b, j);
        var j' := j + 1;
        assert Bit(a, j') <==> Bit(b, j');
      }
      SameBits(a / 2, b / 2);
      SameParts(a, b);
    }
  }

  lemma BitZero(a: nat)
    ensures Bit(a, 0) <==> Odd(a)
  {}

  lemma BitAbove(a: nat, j: nat)
    ensures Bit(a / 2, j) <==> Bit(a, j + 1)
  {}

  lemma {:induction false} OnesBit(k: nat, j: nat)
    ensures Bit(Pow2(k) - 1, j) <==> j < k
    decreases k
  {
    if k == 0 {
      ZeroHasNoBits(j);
    } else if j > 0 {
      OnesBit(k - 1, j - 1);
      assert (Pow2(k) - 1) / 2 == Pow2(k - 1) - 1;
    }
  }

  /** With a reach of 64, a 64-bit number is filled with ones below its highest bit. */
  lemma SmearedIsOnes(x: nat, y: nat)
    requires Smeared(x, y, 64) && CountBits(x) <= 64
    ensures y == Pow2(CountBits(x)) - 1
  {
    hide Bit, Pow2;
    var k := CountBits(x);
    CountBitsBounds(x);
    forall j: nat
      ensures Bit(y, j) <==> Bit(Pow2(k) - 1, j)
    {
      OnesBit(k, j);
      if j < k {
        HighestBitOf(x);
        assert SomeBit(x, j, 64);
      } else {
        if SomeBit(x, j, 64) {
          var i: nat :| j <= i < j + 64 && Bit(x, i);
          HighBitsClear(x, k, i);
        }
      }
    }
    SameBits(y, Pow2(k) - 1);
  }

  lemma HighestBitOf(x: nat)
    requires x > 0
    ensures Bit(x, CountBits(x) - 1)
    decreases x
  {
    if x / 2 > 0 {
      HighestBitOf(x / 2);
    }
  }

  /** In 64 bits: the increment of all ones, for n above 2^63, wraps to 0. */
  method NextPowerOfTwo(n: nat) returns (p: nat)
    requires n < Pow2(64)
    ensures n <= Pow2(63) ==> p == Pow2(PaddedBits(n))
    ensures n > Pow2(63) ==> p == 0
  {
    hide Or, Bit, Smeared, Pow2, CountBits;
    if n == 0 {
      PowZero();
      return 1;
    }
    var x := n - 1;
    CountBitsWithin(x, 64);
    SmearedAtOnce(x);
    var y := Or(x, x / Pow2(1));
    SmearDoubles(x, x, 1);
    var z := Or(y, y / Pow2(2));
    SmearDoubles(x, y, 2);
    y := Or(z, z / Pow2(4));
    SmearDoubles(x, z, 4);
    z := Or(y, y / Pow2(8));
    SmearDoubles(x, y, 8);
    y := Or(z, z / Pow2(16));
    SmearDoubles(x, z, 16);
    z := Or(y, y / Pow2(32));
    SmearDoubles(x, y, 32);
    SmearedIsOnes(x, z);
    p := if z + 1 == Pow2(64) then 0 else z + 1;
    WrapsExactly(x);
  }

  /** Filling x below its highest bit fills all 64 bits exactly when x has its top bit. */
  lemma WrapsExactly(x: nat)
    requires x < Pow2(64)
    ensures x < Pow2(63) ==> Pow2(CountBits(x)) < Pow2(64)
    ensures x >= Pow2(63) ==> CountBits(x) == 64
  {
    hide Pow2, CountBits;
    CountBitsWithin(x, 64);
    if x < Pow2(63) {
      CountBitsWithin(x, 63);
      Pow2Order(CountBits(x), 63);
      DoublePower(63);
    } else {
      CountBitsBounds(x);
      Pow2Order(CountBits(x), 63);
    }
  }

  lemma PowZero()
    ensures Pow2(0) == 1
  {}

  lemma SmearedAtOnce(x: nat)
    ensures Smeared(x, x, 1)
  {
    hide Bit;
    forall j: nat
      ensures Bit(x, j) <==> SomeBit(x, j, 1)
    {
      if Bit(x, j) {
        assert j <= j < j + 1 && Bit(x, j);
      }
    }
  }

  lemma CountBitsWithin(x: nat, k: nat)
    requires x < Pow2(k)
    ensures CountBits(x) <= k
  {
    CountBitsBounds(x);
    if x > 0 {
      Pow2Order(k, CountBits(x) - 1);
    }
  }

  // ---------- The permutation of the tables ----------

  /** The number of index bits for n positions: at least one. */
  function IndexBits(n: nat): nat {
    if PaddedBits(n) == 0 then 1 else PaddedBits(n)
  }

  lemma IndexBitsEnough(n: nat)
    ensures n <= Pow2(IndexBits(n))
    ensures n == Pow2(PaddedBits(n)) && n > 1 ==> n == Pow2(IndexBits(n))
  {
    PaddedIsLeast(n);
    assert Pow2(1) == 2;
  }

  /** Bit reversal where it stays in range, and the identity elsewhere. */
  function Position(n: nat, i: nat): nat {
    var r := Rev(IndexBits(n), i);
    if r < n then r else i
  }

  /** Bit j of the reversal is bit k - 1 - j of the index. */
  lemma {:induction false} RevBit(k: nat, i: nat, j: nat)
    requires j < k
    ensures Bit(Rev(k, i), j) <==> Bit(i, k - 1 - j)
    decreases k
  {
    hide Bit, Rev, Pow2;
    RevStep(k - 1, i);
    RevBound(k - 1, i / 2);
    var p, r := Pow2(k - 1), Rev(k - 1, i / 2);
    if j == k - 1 {
      BitZero(i);
      OneMoreBit(k - 1, i % 2 == 1, r);
      OddIs(i);
    } else {
      RevBit(k - 1, i / 2, j);
      BitAbove(i, k - 2 - j);
      LowBits(k - 1, i % 2 == 1, r, j);
    }
  }

  lemma OddIs(i: nat)
    ensures Odd(i) <==> i % 2 == 1
  {}

  lemma {:induction false} OneMoreBit(k: nat, b: bool, r: nat)
    requires r < Pow2(k)
    ensures Bit((if b then Pow2(k) else 0) + r, k) <==> b
    decreases k
  {
    if k > 0 {
      OneMoreBit(k - 1, b, r / 2);
    }
  }

  lemma {:induction false} LowBits(k: nat, b: bool, r: nat, j: nat)
    requires r < Pow2(k) && j < k
    ensures Bit((if b then Pow2(k) else 0) + r, j) <==> Bit(r, j)
    decreases k
  {
    if j > 0 {
      LowBits(k - 1, b, r / 2, j - 1);
    }
  }

  /** Index i goes to v when v has its bits in reverse order; it stays when that number is out of range. */
  lemma PositionReverses(n: nat, i: nat, v: nat)
    requires i < n && v < Pow2(IndexBits(n))
    requires forall j :: 0 <= j < IndexBits(n) ==> (Bit(v, j) <==> Bit(i, IndexBits(n) - 1 - j))
    ensures Position(n, i) == if v < n then v else i
  {
    hide Bit, Rev, Pow2, IndexBits;
    var k := IndexBits(n);
    RevBound(k, i);
    forall j: nat
      ensures Bit(v, j) <==> Bit(Rev(k, i), j)
    {
      if j < k {
        RevBit(k, i, j);
      } else {
        HighBitsClear(v, k, j);
        HighBitsClear(Rev(k, i), k, j);
      }
    }
    SameBits(v, Rev(k, i));
  }

  /** For every n the table is its own inverse on 0, ..., n - 1: a bijection. */
  lemma PositionInvolution(n: nat, i: nat)
    requires i < n
    ensures Position(n, i) < n && Position(n, Position(n, i)) == i
  {
    hide Rev;
    IndexBitsEnough(n);
    RevInvolution(IndexBits(n), i);
  }

  lemma PositionInjective(n: nat, i: nat, j: nat)
    requires i < n && j < n && Position(n, i) == Position(n, j)
    ensures i == j
  {
    PositionInvolution(n, i);
    PositionInvolution(n, j);
  }

  // ---------- The rank permutation ----------

  /** The reversals of 0, ..., m - 1 that are in range, in that order. */
  function Ranked(k: nat, n: nat, m: nat): seq<nat> {
    if m == 0 then []
    else Ranked(k, n, m - 1) + (if Rev(k, m - 1) < n then [Rev(k, m - 1)] else [])
  }

  ghost predicate NoDuplicates(s: seq<nat>) {
    forall i, j :: 0 <= i < j < |s| ==> s[i] != s[j]
  }

  lemma {:induction false} InRanked(k: nat, n: nat, m: nat, v: nat)
    requires m <= Pow2(k)
    ensures v in Ranked(k, n, m) <==> v < n && v < Pow2(k) && Rev(k, v) < m
    decreases m
  {
    hide Rev;
    if m > 0 {
      var i := m - 1;
      InRanked(k, n, i, v);
      RevInvolution(k, i);
      RevBound(k, i);
      if v < Pow2(k) {
        RevInvolution(k, v);
      }
    }
  }

  lemma {:induction false} RankedDistinct(k: nat, n: nat, m: nat)
    requires m <= Pow2(k)
    ensures NoDuplicates(Ranked(k, n, m))
    decreases m
  {
    hide Rev;
    if m > 0 {
      RankedDistinct(k, n, m - 1);
      InRanked(k, n, m - 1, Rev(k, m - 1));
      RevInvolution(k, m - 1);
    }
  }

  function Range(n: nat): (r: set<nat>)
    ensures |r| == n
    ensures forall v: nat :: v in r <==> v < n
  {
    if n == 0 then {} else Range(n - 1) + {n - 1}
  }

  function Elements(s: seq<nat>): (r: set<nat>)
    ensures forall v: nat :: v in r <==> v in s
  {
    if |s| == 0 then {} else Elements(s[..|s| - 1]) + {s[|s| - 1]}
  }

  lemma {:induction false} DistinctCount(s: seq<nat>)
    requires NoDuplicates(s)
    ensures |Elements(s)| == |s|
    decreases |s|
  {
    if |s| > 0 {
      DistinctCount(s[..|s| - 1]);
    }
  }

  lemma FullSet(s: seq<nat>, n: nat)
    requires NoDuplicates(s) && forall v: nat :: v in s <==> v < n
    ensures |s| == n
  {
    DistinctCount(s);
    assert Elements(s) == Range(n);
  }

  /** For every n the ranked list is a permutation of 0, ..., n - 1. */
  lemma RankedIsPermutation(n: nat)
    ensures var s := Ranked(IndexBits(n), n, Pow2(IndexBits(n)));
            |s| == n && NoDuplicates(s) && (forall v :: v in s ==> v < n) && (forall v: nat :: v < n ==> v in s)
  {
    hide Rev, Ranked, NoDuplicates;
    var k := IndexBits(n);
    IndexBitsEnough(n);
    RankedDistinct(k, n, Pow2(k));
    var s := Ranked(k, n, Pow2(k));
    forall v: nat
      ensures v in s <==> v < n
    {
      InRanked(k, n, Pow2(k), v);
      RevBound(k, v);
    }
    FullSet(s, n);
  }

  // ---------- Where the two permutations agree ----------

  ghost predicate RankAgrees(n: nat) {
    var s := Ranked(IndexBits(n), n, Pow2(IndexBits(n)));
    |s| == n && forall i :: 0 <= i < n ==> s[i] == Position(n, i)
  }

  /** n is the power of two that its padding finds. */
  predicate IsPower(n: nat) {
    n == Pow2(PaddedBits(n))
  }

  /** While the reversals stay in range, they are ranked in their own order. */
  lemma {:induction false} RankedInRange(k: nat, n: nat, m: nat)
    requires forall i :: 0 <= i < m ==> Rev(k, i) < n
    ensures |Ranked(k, n, m)| == m
    ensures forall i :: 0 <= i < m ==> Ranked(k, n, m)[i] == Rev(k, i)
  {
    hide Rev;
    if m > 0 {
      RankedInRange(k, n, m - 1);
    }
  }

  lemma {:induction false} RankedPrefix(k: nat, n: nat, m: nat, m': nat)
    requires m <= m'
    ensures Ranked(k, n, m) <= Ranked(k, n, m')
    decreases m'
  {
    hide Rev;
    if m < m' {
      RankedPrefix(k, n, m, m' - 1);
    }
  }

  /** All ones stay where they are. */
  lemma {:induction false} RevOfOnes(k: nat)
    ensures Rev(k, Pow2(k) - 1) == Pow2(k) - 1
  {
    if k > 0 {
      RevOfOnes(k - 1);
      assert (Pow2(k) - 1) / 2 == Pow2(k - 1) - 1;
    }
  }

  lemma AgreesOnPower(n: nat)
    requires n > 1 && IsPower(n)
    ensures RankAgrees(n)
  {
    hide Rev, Ranked, Pow2, PaddedBits;
    IndexBitsEnough(n);
    var k := IndexBits(n);
    forall i | 0 <= i < n
      ensures Rev(k, i) < n
    {
      RevBound(k, i);
    }
    RankedInRange(k, n, n);
  }

  /** One below a power of two, only the last index is reversed out of range. */
  lemma AgreesBelowPower(n: nat, k: nat)
    requires k == IndexBits(n) && n + 1 == Pow2(k)
    ensures RankAgrees(n)
  {
    hide Rev, Ranked, Pow2, PaddedBits, IndexBits;
    RevOfOnes(k);
    forall i | 0 <= i < n
      ensures Rev(k, i) < n
    {
      RevBound(k, i);
      if Rev(k, i) == n {
        RevInjective(k, i, n);
      }
    }
    RankedInRange(k, n, n);
    RankedNext(k, n, n);
  }

  lemma RankedNext(k: nat, n: nat, m: nat)
    ensures Ranked(k, n, m + 1) == Ranked(k, n, m) + (if Rev(k, m) < n then [Rev(k, m)] else [])
  {}

  /** The first index that is reversed out of range. */
  lemma {:induction false} FirstOut(k: nat, n: nat, m: nat) returns (i: nat)
    requires Rev(k, m) >= n
    ensures i <= m && Rev(k, i) >= n && forall j :: 0 <= j < i ==> Rev(k, j) < n
  {
    hide Rev;
    i := 0;
    while Rev(k, i) < n
      invariant i <= m && forall j :: 0 <= j < i ==> Rev(k, j) < n
      decreases m - i
    {
      i := i + 1;
    }
  }

  /**
    Between one half and all but two of a power, the first index out of range is odd, and the next one is ranked
    in its place.
   */
  lemma DisagreesBetween(n: nat, k: nat)
    requires k >= 2 && IndexBits(n) == k && Pow2(k - 1) < n && n + 1 < Pow2(k)
    ensures !RankAgrees(n)
  {
    hide Ranked, Pow2, PaddedBits, IndexBits;
    hide Rev;
    var h := Pow2(k - 1);
    DoublePower(k - 1);
    RevOfOnes(k - 1);
    RevTop(k - 1, h - 1);
    var i := FirstOut(k, n, h - 1);
    RevStep(k - 1, i);
    RevBound(k - 1, i / 2);
    assert i % 2 == 1;
    RevStep(k - 1, i + 1);
    RevBound(k - 1, (i + 1) / 2);
    RevTop(k - 1, i + 1);
    RevZeroIndex(k - 1);
    RankedInRange(k, n, i);
    RankedNext(k, n, i);
    RankedNext(k, n, i + 1);
    RankedPrefix(k, n, i + 2, Pow2(k));
    assert Ranked(k, n, i + 2)[i] == Rev(k, i + 1);
    assert Position(n, i) == i;
    assert Rev(k, i + 1) != i by {
      if i + 1 == h {
        assert Rev(k, i + 1) == 1;
        assert n > 2;
        PowerAbove(k);
      }
    }
  }

  lemma PowerAbove(k: nat)
    requires k >= 2
    ensures Pow2(k - 1) >= 2 && (Pow2(k - 1) == 2 ==> Pow2(k) == 4)
  {}

  lemma DoublePower(k: nat)
    ensures Pow2(k + 1) == 2 * Pow2(k)
  {}

  lemma {:induction false} RevZeroIndex(k: nat)
    ensures Rev(k, 0) == 0
  {
    if k > 0 {
      RevZeroIndex(k - 1);
    }
  }

  /** The rank function gives the positions of the table exactly for powers of two and one less. */
  lemma RankAgreesExactly(n: nat)
    ensures RankAgrees(n) <==> IsPower(n) || IsPower(n + 1)
  {
    hide Rev, Ranked, RankAgrees;
    if n <= 1 {
      SmallSizes(n);
    } else {
      var k := IndexBits(n);
      SizeBetween(n);
      if n == Pow2(k) {
        AgreesOnPower(n);
      } else if n + 1 == Pow2(k) {
        AgreesBelowPower(n, k);
      } else {
        DisagreesBetween(n, k);
      }
    }
  }

  lemma SmallSizes(n: nat)
    requires n <= 1
    ensures IndexBits(n) == 1 && RankAgrees(n) && IsPower(1) && PaddedBits(1) == 0
  {
    OneBit();
    if n == 1 {
      assert Ranked(1, 1, 1) == [0];
      assert Ranked(1, 1, 2) == Ranked(1, 1, 1) + [];
    } else {
      assert Ranked(1, 0, 1) == Ranked(1, 0, 0);
      assert Ranked(1, 0, 2) == Ranked(1, 0, 1);
    }
  }

  lemma OneBit()
    ensures Rev(1, 0) == 0 && Rev(1, 1) == 1 && Pow2(1) == 2 && Pow2(0) == 1
  {
    assert Rev(0, 0) == 0;
  }

  /**
    A size above one lies above half its padding, and is a power, or one less than one, exactly where its padding
    says so.
   */
  lemma SizeBetween(n: nat)
    requires n > 1
    ensures var k := IndexBits(n);
            && k == PaddedBits(n) && k >= 1 && Pow2(k - 1) < n <= Pow2(k)
            && (k == 1 ==> n == Pow2(k))
            && (n < Pow2(k) ==> PaddedBits(n + 1) == k)
            && (n == Pow2(k) ==> IsPower(n))
  {
    hide Rev, Ranked;
    PaddedIsLeast(n);
    PaddedIsLeast(n + 1);
    var k := PaddedBits(n);
    assert Pow2(0) == 1 && Pow2(1) == 2;
    assert k >= 1;
    assert !(n <= Pow2(k - 1));
    if n < Pow2(k) {
      assert PaddedBits(n + 1) <= k;
      assert n <= Pow2(PaddedBits(n + 1));
    }
  }

  /** Five positions: the table leaves 3 in place, and the rank function moves it. */
  lemma FiveDisagree()
    ensures Position(5, 3) == 3 && Ranked(IndexBits(5), 5, Pow2(IndexBits(5))) == [0, 4, 2, 1, 3]
    ensures !RankAgrees(5)
  {
    hide Rev, Ranked, Pow2, PaddedBits;
    FiveBits();
    FiveReversed();
    FirstHalfOfFive();
    RankedNext(3, 5, 4);
    RankedNext(3, 5, 5);
    RankedNext(3, 5, 6);
    RankedNext(3, 5, 7);
  }

  lemma FiveBits()
    ensures PaddedBits(5) == 3 && Pow2(3) == 8
  {
    assert CountBits(4) == 3;
  }

  lemma FirstHalfOfFive()
    ensures Ranked(3, 5, 4) == [0, 4, 2]
  {
    hide Rev;
    FiveReversed();
    assert Ranked(3, 5, 1) == [0];
    assert Ranked(3, 5, 2) == [0, 4];
    assert Ranked(3, 5, 3) == [0, 4, 2];
  }

  lemma FiveReversed()
    ensures Rev(3, 0) == 0 && Rev(3, 1) == 4 && Rev(3, 2) == 2 && Rev(3, 3) == 6
    ensures Rev(3, 4) == 1 && Rev(3, 5) == 5 && Rev(3, 6) == 3 && Rev(3, 7) == 7
  {
    assert Pow2(0) == 1 && Pow2(1) == 2 && Pow2(2) == 4;
    assert Rev(1, 0) == 0 && Rev(1, 1) == 1;
    assert Rev(2, 0) == 0 && Rev(2, 1) == 2 && Rev(2, 2) == 1 && Rev(2, 3) == 3;
  }
}
