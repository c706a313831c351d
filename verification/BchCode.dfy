/**
  The binary BCH code and its bounded-distance decoder, as functions of the received
  word: syndromes, the shortest recurrence for them, the root search and the flips.

  The decoder keeps its locator buffer between calls and each call overwrites only the
  coefficients it found, so the buffer left by the call before is an argument here.
 */
module BchCode {
  import opened FieldTheory
  import opened LinearRecurrence
  import opened Polynomials
  import opened Sequences

  /** Correction capability t, and an element whose first `order` powers are distinct. */
  datatype Code<!T> = Code(F: Field<T>, alpha: T, order: nat, t: nat)

  ghost predicate ValidCode<T(!new)>(C: Code<T>) {
    && IsField(C.F) && C.alpha != C.F.zero
    && forall i: nat, j: nat :: i < j < C.order ==> Pow(C.F, C.alpha, i) != Pow(C.F, C.alpha, j)
  }

  // ---------- Words ----------

  /** The positions of the ones of w, in ascending order. */
  function Support(w: seq<bool>): seq<nat> {
    if |w| == 0 then []
    else
      var n := |w| - 1;
      Support(w[..n]) + (if w[n] then [n] else [])
  }

  /** The number of positions in which a and b differ. */
  function Distance(a: seq<bool>, b: seq<bool>): nat
    requires |a| == |b|
  {
    |Support(Xor(a, b))|
  }

  function Flip(w: seq<bool>, ps: seq<nat>): (v: seq<bool>)
    ensures |v| == |w|
  {
    seq(|w|, i requires 0 <= i < |w| => if i in ps then !w[i] else w[i])
  }

  ghost predicate Ascending(ps: seq<nat>, n: nat) {
    && (forall i :: 0 <= i < |ps| ==> ps[i] < n)
    && forall i, j :: 0 <= i < j < |ps| ==> ps[i] < ps[j]
  }

  lemma {:induction false} SupportIs(w: seq<bool>)
    ensures Ascending(Support(w), |w|)
    ensures forall i :: 0 <= i < |w| ==> (w[i] <==> i in Support(w))
  {
    if |w| > 0 {
      var n := |w| - 1;
      SupportIs(w[..n]);
      assert forall i :: 0 <= i < n ==> w[i] == w[..n][i];
      assert forall i :: i in Support(w) <==> i in Support(w[..n]) || (w[n] && i == n);
    }
  }

  /** The support determines the word. */
  lemma {:induction false} SupportOf(w: seq<bool>, ps: seq<nat>)
    requires Ascending(ps, |w|)
    requires forall i :: 0 <= i < |w| ==> (w[i] <==> i in ps)
    ensures Support(w) == ps
  {
    if |w| > 0 {
      var n := |w| - 1;
      if w[n] {
        var k :| 0 <= k < |ps| && ps[k] == n;
        assert ps[k] <= ps[|ps| - 1] < |w|;
        var qs := ps[..k];
        assert ps == qs + [n];
        assert forall i :: i in ps <==> i in qs || i == n;
        assert forall i :: 0 <= i < |qs| ==> ps[i] < ps[k];
        SupportOf(w[..n], qs);
      } else {
        assert forall i :: 0 <= i < |ps| ==> ps[i] in ps && ps[i] != n;
        SupportOf(w[..n], ps);
      }
    }
  }

  lemma DistanceSymmetric(a: seq<bool>, b: seq<bool>)
    requires |a| == |b|
    ensures Distance(a, b) == Distance(b, a)
  {
    assert Xor(a, b) == Xor(b, a);
  }

  lemma DistanceZero(a: seq<bool>, b: seq<bool>)
    requires |a| == |b| && Distance(a, b) == 0
    ensures a == b
  {
    SupportIs(Xor(a, b));
    forall i | 0 <= i < |a|
      ensures a[i] == b[i]
    {
      assert Xor(a, b)[i] == (a[i] != b[i]);
    }
  }

  lemma {:induction false} Triangle(a: seq<bool>, b: seq<bool>, r: seq<bool>)
    requires |a| == |b| == |r|
    ensures Distance(a, b) <= Distance(a, r) + Distance(b, r)
  {
    if |a| > 0 {
      var n := |a| - 1;
      Triangle(a[..n], b[..n], r[..n]);
      assert Xor(a, b)[..n] == Xor(a[..n], b[..n]);
      assert Xor(a, r)[..n] == Xor(a[..n], r[..n]);
      assert Xor(b, r)[..n] == Xor(b[..n], r[..n]);
    }
  }

  lemma FlipDistance(w: seq<bool>, ps: seq<nat>)
    requires Ascending(ps, |w|)
    ensures Distance(Flip(w, ps), w) == |ps|
  {
    SupportOf(Xor(Flip(w, ps), w), ps);
  }

  // ---------- Syndromes ----------

  /** The word's polynomial at alpha^j. */
  ghost function Syndrome<T(!new)>(C: Code<T>, w: seq<bool>, j: nat): T {
    if |w| == 0 then C.F.zero
    else
      var n := |w| - 1;
      C.F.add(Syndrome(C, w[..n], j), if w[n] then Pow(C.F, C.alpha, j * n) else C.F.zero)
  }

  ghost predicate IsCodeword<T(!new)>(C: Code<T>, w: seq<bool>) {
    forall j :: 1 <= j <= 2 * C.t ==> Syndrome(C, w, j) == C.F.zero
  }

  /** Syndromes 1 to 2t; index 0 holds one, and no recurrence looks at it. */
  ghost function Syndromes<T(!new)>(C: Code<T>, w: seq<bool>): (s: seq<T>)
    ensures |s| == 2 * C.t + 1
  {
    seq(2 * C.t + 1, j requires 0 <= j <= 2 * C.t => if j == 0 then C.F.one else Syndrome(C, w, j))
  }

  ghost function Locators<T(!new)>(C: Code<T>, ps: seq<nat>): (xs: seq<T>)
    ensures |xs| == |ps|
  {
    seq(|ps|, i requires 0 <= i < |ps| => Pow(C.F, C.alpha, ps[i]))
  }

  lemma {:induction false} SyndromeXor<T(!new)>(C: Code<T>, a: seq<bool>, b: seq<bool>, j: nat)
    requires IsField(C.F) && |a| == |b|
    ensures Syndrome(C, Xor(a, b), j) == C.F.add(Syndrome(C, a, j), Syndrome(C, b, j))
  {
    if |a| == 0 {
      AddZero(C.F, C.F.zero);
    } else {
      var n := |a| - 1;
      var p := Pow(C.F, C.alpha, j * n);
      SyndromeXor(C, a[..n], b[..n], j);
      assert Xor(a, b)[..n] == Xor(a[..n], b[..n]);
      AddZero(C.F, p);
      AddZero(C.F, C.F.zero);
      Swap4(C.F, Syndrome(C, a[..n], j), Syndrome(C, b[..n], j),
            if a[n] then p else C.F.zero, if b[n] then p else C.F.zero);
    }
  }

  /** The syndrome is the power sum of the locators of the ones. */
  lemma {:induction false} SyndromeIsPowerSum<T(!new)>(C: Code<T>, w: seq<bool>, j: nat)
    requires IsField(C.F)
    ensures Syndrome(C, w, j) ==
            PowerSum(C.F, Locators(C, Support(w)), Ones(C.F, |Support(w)|), j)
  {
    if |w| > 0 {
      var n := |w| - 1;
      SyndromeIsPowerSum(C, w[..n], j);
      var ps := Support(w[..n]);
      if w[n] {
        var xs := Locators(C, ps + [n]);
        var k := |ps|;
        assert xs[..k] == Locators(C, ps);
        assert Ones(C.F, k + 1)[..k] == Ones(C.F, k);
        PowMul(C.F, C.alpha, n, j);
        assert n * j == j * n;
        MulZero(C.F, Pow(C.F, xs[k], j));
      } else {
        assert ps + [] == ps;
        AddZero(C.F, Syndrome(C, w[..n], j));
      }
    }
  }

  lemma LocatorsDistinct<T(!new)>(C: Code<T>, ps: seq<nat>)
    requires ValidCode(C) && Ascending(ps, C.order)
    ensures Distinct(Locators(C, ps)) && C.F.zero !in Locators(C, ps)
  {
    forall i | 0 <= i < |ps|
      ensures Locators(C, ps)[i] != C.F.zero
    {
      PowNonzero(C.F, C.alpha, ps[i]);
    }
  }

  /** The BCH bound: a nonzero codeword has more than 2t ones. */
  lemma MinimumWeight<T(!new)>(C: Code<T>, w: seq<bool>)
    requires ValidCode(C) && |w| <= C.order && IsCodeword(C, w)
    ensures |Support(w)| == 0 || |Support(w)| > 2 * C.t
  {
    var ps := Support(w);
    if 0 < |ps| <= 2 * C.t {
      SupportIs(w);
      LocatorsDistinct(C, ps);
      forall j | 1 <= j < 1 + |ps|
        ensures PowerSum(C.F, Locators(C, ps), Ones(C.F, |ps|), j) == C.F.zero
      {
        SyndromeIsPowerSum(C, w, j);
      }
      assert Laws(C.F, C.F.one, C.F.one, C.F.one);
      assert Ones(C.F, |ps|)[0] != C.F.zero;
      Vandermonde(C.F, Locators(C, ps), Ones(C.F, |ps|), 1);
      assert false;
    }
  }

  lemma XorOfCodewords<T(!new)>(C: Code<T>, a: seq<bool>, b: seq<bool>)
    requires IsField(C.F) && |a| == |b| && IsCodeword(C, a) && IsCodeword(C, b)
    ensures IsCodeword(C, Xor(a, b))
  {
    forall j | 1 <= j <= 2 * C.t
      ensures Syndrome(C, Xor(a, b), j) == C.F.zero
    {
      SyndromeXor(C, a, b, j);
      AddZero(C.F, C.F.zero);
    }
  }

  /** At most one codeword lies within distance t of a word. */
  lemma UniqueCodeword<T(!new)>(C: Code<T>, a: seq<bool>, b: seq<bool>, r: seq<bool>)
    requires ValidCode(C) && |a| == |b| == |r| <= C.order
    requires IsCodeword(C, a) && IsCodeword(C, b)
    requires Distance(a, r) <= C.t && Distance(b, r) <= C.t
    ensures a == b
  {
    Triangle(a, b, r);
    XorOfCodewords(C, a, b);
    MinimumWeight(C, Xor(a, b));
    DistanceZero(a, b);
  }

  // ---------- Root search ----------

  /** The positions i < n for which alpha^i is a root of c, in ascending order. */
  ghost function Roots<T(!new)>(C: Code<T>, c: seq<T>, n: nat): seq<nat> {
    if n == 0 then []
    else Roots(C, c, n - 1) + (if Eval(C.F, c, Pow(C.F, C.alpha, n - 1)) == C.F.zero then [n - 1] else [])
  }

  /** The largest index up to k of a nonzero coefficient, or 0. */
  ghost function Degree<T(!new)>(F: Field<T>, e: seq<T>, k: nat): (d: nat)
    requires k < |e|
    ensures d <= k
  {
    if k == 0 || e[k] != F.zero then k else Degree(F, e, k - 1)
  }

  /** The positions found in the locator buffer e: the first `degree` roots among the first n positions. */
  ghost function Found<T(!new)>(C: Code<T>, e: seq<T>, n: nat): seq<nat>
    requires |e| == C.t + 2
  {
    var d := Degree(C.F, e, C.t);
    var ps := Roots(C, e[..d + 1], n);
    if |ps| <= d then ps else ps[..d]
  }

  lemma {:induction false} RootsAscending<T(!new)>(C: Code<T>, c: seq<T>, n: nat)
    ensures Ascending(Roots(C, c, n), n)
  {
    if n > 0 {
      RootsAscending(C, c, n - 1);
    }
  }

  lemma {:induction false} RootsMember<T(!new)>(C: Code<T>, c: seq<T>, n: nat, i: nat)
    ensures i in Roots(C, c, n) <==> i < n && Eval(C.F, c, Pow(C.F, C.alpha, i)) == C.F.zero
  {
    if n > 0 {
      RootsMember(C, c, n - 1, i);
    }
  }

  lemma FoundAscending<T(!new)>(C: Code<T>, e: seq<T>, n: nat)
    requires |e| == C.t + 2
    ensures Ascending(Found(C, e, n), n)
  {
    RootsAscending(C, e[..Degree(C.F, e, C.t) + 1], n);
  }

  /** When the roots among the powers of alpha are the locators of w, the search returns the ones of w. */
  lemma RootsAreSupport<T(!new)>(C: Code<T>, c: seq<T>, w: seq<bool>)
    requires forall i :: 0 <= i < |w| ==> (w[i] <==> Eval(C.F, c, Pow(C.F, C.alpha, i)) == C.F.zero)
    ensures Roots(C, c, |w|) == Support(w)
  {
    RootsAscending(C, c, |w|);
    forall i | 0 <= i < |w|
      ensures w[i] <==> i in Roots(C, c, |w|)
    {
      RootsMember(C, c, |w|, i);
    }
    SupportOf(w, Roots(C, c, |w|));
  }

  lemma {:induction false} DegreeIs<T(!new)>(F: Field<T>, e: seq<T>, k: nat, d: nat)
    requires d <= k < |e| && (d == 0 || e[d] != F.zero)
    requires forall i :: d < i <= k ==> e[i] == F.zero
    ensures Degree(F, e, k) == d
  {
    if d < k {
      DegreeIs(F, e, k - 1, d);
    }
  }

  // ---------- Decoding ----------

  datatype Outcome = Rejected | Accepted(word: seq<bool>, corrected: nat)

  ghost predicate ShortLocator<T(!new)>(C: Code<T>, s: seq<T>, c: seq<T>)
    requires |s| == 2 * C.t + 1
  {
    Shortest(C.F, c, s, 2 * C.t) && |c| - 1 <= C.t
  }

  /** The buffer after a call: the new coefficients over the old ones. */
  function Store<T>(c: seq<T>, e: seq<T>): (e': seq<T>)
    requires |c| <= |e|
    ensures |e'| == |e|
  {
    c + e[|c|..]
  }

  /** What the decoder does once it has a locator polynomial c. */
  ghost function Correct<T(!new)>(C: Code<T>, c: seq<T>, e: seq<T>, r: seq<bool>): Outcome
    requires |e| == C.t + 2 && 1 <= |c| <= C.t + 1
  {
    var ps := Found(C, Store(c, e), |r|);
    if |ps| != |c| - 1 then Rejected
    else
      var w := Flip(r, ps);
      if IsCodeword(C, w) then Accepted(w, |ps|) else Rejected
  }

  /** The result for the received word r when the locator buffer holds e. */
  ghost predicate Decodes<T(!new)>(C: Code<T>, e: seq<T>, r: seq<bool>, o: Outcome)
    requires |e| == C.t + 2
  {
    var s := Syndromes(C, r);
    if IsCodeword(C, r) then o == Accepted(r, 0)
    else if exists c :: ShortLocator(C, s, c) then
      exists c :: ShortLocator(C, s, c) && o == Correct(C, c, e, r)
    else o == Rejected
  }

  lemma ShortLocatorUnique<T(!new)>(C: Code<T>, s: seq<T>, c: seq<T>, d: seq<T>)
    requires IsField(C.F) && |s| == 2 * C.t + 1
    requires ShortLocator(C, s, c) && ShortLocator(C, s, d)
    ensures c == d
  {
    ShortestIsUnique(C.F, c, d, s, 2 * C.t);
  }

  /** The decoder is deterministic: buffer and word fix the outcome. */
  lemma OutcomeUnique<T(!new)>(C: Code<T>, e: seq<T>, r: seq<bool>, o: Outcome, p: Outcome)
    requires IsField(C.F) && |e| == C.t + 2
    requires Decodes(C, e, r, o) && Decodes(C, e, r, p)
    ensures o == p
  {
    var s := Syndromes(C, r);
    if !IsCodeword(C, r) && exists c :: ShortLocator(C, s, c) {
      var c :| ShortLocator(C, s, c) && o == Correct(C, c, e, r);
      var d :| ShortLocator(C, s, d) && p == Correct(C, d, e, r);
      ShortLocatorUnique(C, s, c, d);
    }
  }

  /** Soundness, from any buffer: an accepted word is the only codeword within distance t, at the reported distance. */
  lemma DecodingIsSound<T(!new)>(C: Code<T>, e: seq<T>, r: seq<bool>, o: Outcome)
    requires ValidCode(C) && |e| == C.t + 2 && |r| <= C.order
    requires Decodes(C, e, r, o) && o.Accepted?
    ensures |o.word| == |r| && IsCodeword(C, o.word)
    ensures Distance(o.word, r) == o.corrected <= C.t
    ensures forall c: seq<bool> :: |c| == |r| && IsCodeword(C, c) && Distance(c, r) <= C.t ==> c == o.word
  {
    if IsCodeword(C, r) {
      SupportOf(Xor(r, r), []);
    } else {
      var s := Syndromes(C, r);
      var c :| ShortLocator(C, s, c) && o == Correct(C, c, e, r);
      var ps := Found(C, Store(c, e), |r|);
      FoundAscending(C, Store(c, e), |r|);
      FlipDistance(r, ps);
    }
    forall c: seq<bool> | |c| == |r| && IsCodeword(C, c) && Distance(c, r) <= C.t
      ensures c == o.word
    {
      UniqueCodeword(C, c, o.word, r);
    }
  }

  /** The syndromes of a corrupted codeword are the power sums of the error locators. */
  lemma ErrorSyndromes<T(!new)>(C: Code<T>, c: seq<bool>, r: seq<bool>)
    requires IsField(C.F) && |c| == |r| && IsCodeword(C, c)
    ensures IsPowerSums(C.F, Locators(C, Support(Xor(r, c))), Syndromes(C, r))
  {
    var e := Xor(r, c);
    forall j | 1 <= j < 2 * C.t + 1
      ensures Syndromes(C, r)[j] == PowerSum(C.F, Locators(C, Support(e)), Ones(C.F, |Support(e)|), j)
    {
      SyndromeIsPowerSum(C, e, j);
      SyndromeXor(C, r, c, j);
      AddZero(C.F, Syndrome(C, r, j));
    }
  }

  /** The locator polynomial found for a corrupted codeword is the product over the error locators. */
  lemma LocatorIsProduct<T(!new)>(C: Code<T>, c: seq<bool>, r: seq<bool>, p: seq<T>)
    requires ValidCode(C) && |c| == |r| <= C.order && IsCodeword(C, c) && Distance(r, c) <= C.t
    requires p == Product(C.F, Locators(C, Support(Xor(r, c))))
    ensures ShortLocator(C, Syndromes(C, r), p)
    ensures forall d :: ShortLocator(C, Syndromes(C, r), d) ==> d == p
  {
    var s, ps := Syndromes(C, r), Support(Xor(r, c));
    SupportIs(Xor(r, c));
    LocatorsDistinct(C, ps);
    ErrorSyndromes(C, c, r);
    ProductIsShortest(C.F, Locators(C, ps), s, 2 * C.t);
    forall d | ShortLocator(C, s, d)
      ensures d == p
    {
      ShortLocatorUnique(C, s, d, p);
    }
  }

  /** The locator polynomial of the errors has its roots exactly at the error positions. */
  lemma ProductRootsAreErrors<T(!new)>(C: Code<T>, w: seq<bool>)
    requires ValidCode(C) && |w| <= C.order
    ensures Roots(C, Product(C.F, Locators(C, Support(w))), |w|) == Support(w)
  {
    var ps := Support(w);
    var xs := Locators(C, ps);
    SupportIs(w);
    forall i | 0 <= i < |w|
      ensures w[i] <==> Eval(C.F, Product(C.F, xs), Pow(C.F, C.alpha, i)) == C.F.zero
    {
      var y := Pow(C.F, C.alpha, i);
      ProductRoots(C.F, xs, y);
      if i in ps {
        var k :| 0 <= k < |ps| && ps[k] == i;
        assert xs[k] == y;
      }
      if y in xs {
        var k :| 0 <= k < |xs| && xs[k] == y;
        assert ps[k] == i;
      }
    }
    RootsAreSupport(C, Product(C.F, xs), w);
  }

  ghost predicate ZeroBeyond<T(!new)>(C: Code<T>, e: seq<T>, k: nat)
    requires |e| == C.t + 2
  {
    forall i :: k < i <= C.t ==> e[i] == C.F.zero
  }

  lemma FoundErrors<T(!new)>(C: Code<T>, w: seq<bool>, e: seq<T>)
    requires ValidCode(C) && |w| <= C.order && |e| == C.t + 2
    requires 0 < |Support(w)| <= C.t && ZeroBeyond(C, e, |Support(w)|)
    ensures Found(C, Store(Product(C.F, Locators(C, Support(w))), e), |w|) == Support(w)
  {
    var ps := Support(w);
    var k := |ps|;
    var p := Product(C.F, Locators(C, ps));
    var f := Store(p, e);
    SupportIs(w);
    LocatorsDistinct(C, ps);
    ProductLast(C.F, Locators(C, ps));
    DegreeIs(C.F, f, C.t, k);
    assert f[..k + 1] == p;
    ProductRootsAreErrors(C, w);
  }

  /** Completeness: at most t errors are corrected when no stale coefficient lies beyond their number. */
  lemma DecodingIsComplete<T(!new)>(C: Code<T>, e: seq<T>, c: seq<bool>, r: seq<bool>)
    requires ValidCode(C) && |e| == C.t + 2
    requires |c| == |r| <= C.order && IsCodeword(C, c) && Distance(r, c) <= C.t
    requires Distance(r, c) > 0 ==> ZeroBeyond(C, e, Distance(r, c))
    ensures Decodes(C, e, r, Accepted(c, Distance(r, c)))
  {
    hide Syndrome, IsCodeword, Product, Locators, Support, ZeroBeyond;
    var w := Xor(r, c);
    var p := Product(C.F, Locators(C, Support(w)));
    if Distance(r, c) == 0 {
      DistanceZero(r, c);
    } else {
      if IsCodeword(C, r) {
        XorOfCodewords(C, r, c);
        MinimumWeight(C, w);
        assert false;
      }
      LocatorIsProduct(C, c, r, p);
      FoundErrors(C, w, e);
      SupportIs(w);
      assert Flip(r, Support(w)) == c;
    }
  }

  /** A locator of length 0 only fits a codeword. */
  lemma LocatorNotTrivial<T(!new)>(C: Code<T>, r: seq<bool>, c: seq<T>)
    requires IsField(C.F) && !IsCodeword(C, r) && ShortLocator(C, Syndromes(C, r), c)
    ensures |c| >= 2
  {
    var s := Syndromes(C, r);
    if |c| == 1 {
      forall j | 1 <= j <= 2 * C.t
        ensures Syndrome(C, r, j) == C.F.zero
      {
        assert Vanishes(C.F, c, s, j);
        assert Conv(C.F, c, s, j, 1) == C.F.add(Conv(C.F, c, s, j, 0), C.F.mul(c[0], s[j]));
        MulZero(C.F, s[j]);
        AddZero(C.F, s[j]);
      }
    }
  }

  // ---------- Stale coefficients ----------

  /** Every pattern of at most t errors in a codeword of length n is corrected. */
  ghost predicate CorrectsAll<T(!new)>(C: Code<T>, e: seq<T>, n: nat)
    requires |e| == C.t + 2
  {
    forall c: seq<bool>, r: seq<bool> ::
      |c| == n && |r| == n && IsCodeword(C, c) && Distance(r, c) <= C.t
      ==> Decodes(C, e, r, Accepted(c, Distance(r, c)))
  }

  /** A one at each of the first k positions. */
  function FirstOnes(n: nat, k: nat): (w: seq<bool>)
    ensures |w| == n
  {
    seq(n, i => i < k)
  }

  lemma {:induction false} ZeroWord<T(!new)>(C: Code<T>, n: nat, j: nat)
    requires IsField(C.F)
    ensures Syndrome(C, FirstOnes(n, 0), j) == C.F.zero
  {
    if n > 0 {
      ZeroWord(C, n - 1, j);
      assert FirstOnes(n, 0)[..n - 1] == FirstOnes(n - 1, 0);
      AddZero(C.F, C.F.zero);
    }
  }

  lemma FirstOnesSupport(n: nat, k: nat)
    requires k <= n
    ensures |Support(FirstOnes(n, k))| == k
  {
    var ps := seq(k, i requires 0 <= i < k => i);
    forall i | 0 <= i < n
      ensures FirstOnes(n, k)[i] <==> i in ps
    {
      if i < k {
        assert ps[i] == i;
      }
    }
    SupportOf(FirstOnes(n, k), ps);
  }

  /** One stale coefficient just past the true locator moves every root off the error positions. */
  lemma StaleMovesRoots<T(!new)>(C: Code<T>, p: seq<T>, a: T, y: T)
    requires IsField(C.F) && |p| >= 1 && a != C.F.zero && Eval(C.F, p, y) == C.F.zero
    ensures Eval(C.F, p + [a], y) != C.F.zero
  {
    EvalLast(C.F, p + [a], y);
    assert (p + [a])[..|p|] == p;
    MulZero(C.F, y);
    AddZero(C.F, a);
  }

  /** With its last stale coefficient at index d, the decoder misses d - 1 errors at the first d - 1 positions. */
  lemma StaleMisses<T(!new)>(C: Code<T>, e: seq<T>, n: nat, d: nat)
    requires ValidCode(C) && |e| == C.t + 2 && C.t <= n <= C.order
    requires 2 <= d <= C.t && e[d] != C.F.zero && ZeroBeyond(C, e, d)
    ensures IsCodeword(C, FirstOnes(n, 0)) && Distance(FirstOnes(n, d - 1), FirstOnes(n, 0)) == d - 1
    ensures !Decodes(C, e, FirstOnes(n, d - 1), Accepted(FirstOnes(n, 0), d - 1))
  {
    var c, r := FirstOnes(n, 0), FirstOnes(n, d - 1);
    forall j | 1 <= j <= 2 * C.t
      ensures Syndrome(C, c, j) == C.F.zero
    {
      ZeroWord(C, n, j);
    }
    assert Xor(r, c) == r;
    FirstOnesSupport(n, d - 1);
    var p := Product(C.F, Locators(C, Support(r)));
    LocatorIsProduct(C, c, r, p);
    StaleCorrection(C, e, r, p, d);
  }

  lemma StaleCorrection<T(!new)>(C: Code<T>, e: seq<T>, r: seq<bool>, p: seq<T>, d: nat)
    requires ValidCode(C) && |e| == C.t + 2 && |r| <= C.order
    requires 2 <= d <= C.t && e[d] != C.F.zero && ZeroBeyond(C, e, d)
    requires |Support(r)| == d - 1 && |r| > 0 && r[0]
    requires p == Product(C.F, Locators(C, Support(r)))
    ensures Correct(C, p, e, r).Accepted? ==> Correct(C, p, e, r).word[0]
  {
    hide Eval, Roots, Product, Support, Degree, IsField, IsCodeword;
    var f := Store(p, e);
    assert f[d] == e[d];
    DegreeIs(C.F, f, C.t, d);
    assert f[..d + 1] == p + [e[d]];
    SupportIs(r);
    ProductRootsAreErrors(C, r);
    RootsMember(C, p, |r|, 0);
    StaleMovesRoots(C, p, e[d], Pow(C.F, C.alpha, 0));
    RootsMember(C, p + [e[d]], |r|, 0);
    assert 0 !in Found(C, f, |r|);
  }

  lemma {:induction false} LastStale<T(!new)>(C: Code<T>, e: seq<T>, k: nat) returns (d: nat)
    requires |e| == C.t + 2 && 1 <= k <= C.t && ZeroBeyond(C, e, k) && !ZeroBeyond(C, e, 1)
    ensures 2 <= d <= C.t && e[d] != C.F.zero && ZeroBeyond(C, e, d)
  {
    if e[k] != C.F.zero && k >= 2 {
      d := k;
    } else {
      d := LastStale(C, e, k - 1);
    }
  }

  /**
    When a decoder with buffer e corrects every pattern of at most t errors: exactly when
    the buffer holds no nonzero coefficient at indices 2 to t.  A new decoder, or one
    that was reset, is in that state; one that has corrected two or more errors is not.
   */
  lemma CorrectsAllExactly<T(!new)>(C: Code<T>, e: seq<T>, n: nat)
    requires ValidCode(C) && |e| == C.t + 2 && 1 <= C.t <= n <= C.order
    ensures CorrectsAll(C, e, n) <==> ZeroBeyond(C, e, 1)
  {
    if ZeroBeyond(C, e, 1) {
      forall c: seq<bool>, r: seq<bool> |
        |c| == n && |r| == n && IsCodeword(C, c) && Distance(r, c) <= C.t
        ensures Decodes(C, e, r, Accepted(c, Distance(r, c)))
      {
        DecodingIsComplete(C, e, c, r);
      }
    } else {
      var d := LastStale(C, e, C.t);
      StaleMisses(C, e, n, d);
    }
  }

  /** After correcting two or more errors the buffer is no longer clean, so the next call can miss. */
  lemma NotCleanAfter<T(!new)>(C: Code<T>, e: seq<T>, c: seq<bool>, r: seq<bool>, p: seq<T>)
    requires ValidCode(C) && |e| == C.t + 2 && 1 <= C.t <= |c|
    requires |c| == |r| <= C.order && IsCodeword(C, c) && 2 <= Distance(r, c) <= C.t
    requires ShortLocator(C, Syndromes(C, r), p)
    ensures !CorrectsAll(C, Store(p, e), |c|)
  {
    var ps := Support(Xor(r, c));
    LocatorIsProduct(C, c, r, Product(C.F, Locators(C, ps)));
    SupportIs(Xor(r, c));
    LocatorsDistinct(C, ps);
    ProductLast(C.F, Locators(C, ps));
    assert Store(p, e)[|ps|] == p[|ps|];
    CorrectsAllExactly(C, Store(p, e), |c|);
  }
}
