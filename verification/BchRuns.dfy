/**
  Sequences of decoder calls.  Each call leaves coefficients in the locator buffer that the next one finds there:
  which words leave it clean, which find no room in it, and what that means for a whole run.
 */
module BchRuns {
  import opened FieldTheory
  import opened LinearRecurrence
  import opened Polynomials
  import opened Sequences
  import opened BchCode

  // ---------- What a call leaves behind ----------

  /** Some recurrence for the syndromes has no more coefficients than the locator buffer. */
  ghost predicate HasRoom<T(!new)>(C: Code<T>, s: seq<T>)
    requires |s| == 2 * C.t + 1
  {
    exists c :: Recurrence(C.F, c, s, 2 * C.t) && |c| <= C.t + 2
  }

  /** One call: the word received, the coefficients stored, and the outcome. */
  datatype Call<T> = Call(received: seq<bool>, stored: seq<T>, outcome: Outcome)

  /** A call on buffer e whose copy stays within it: nothing is stored for a codeword, else a shortest recurrence. */
  ghost predicate IsCall<T(!new)>(C: Code<T>, e: seq<T>, call: Call<T>)
    requires |e| == C.t + 2
  {
    && Decodes(C, e, call.received, call.outcome)
    && |call.stored| <= |e|
    && if IsCodeword(C, call.received) then call.stored == []
       else Shortest(C.F, call.stored, Syndromes(C, call.received), 2 * C.t)
  }

  /** The buffer after the calls. */
  ghost function BufferAfter<T(!new)>(C: Code<T>, e: seq<T>, calls: seq<Call<T>>): (f: seq<T>)
    requires |e| == C.t + 2
    ensures |f| == |e|
  {
    var n := |calls|;
    if n == 0 then e
    else
      var before := BufferAfter(C, e, calls[..n - 1]);
      if |calls[n - 1].stored| <= |e| then Store(calls[n - 1].stored, before) else before
  }

  ghost predicate IsRun<T(!new)>(C: Code<T>, e: seq<T>, calls: seq<Call<T>>)
    requires |e| == C.t + 2
  {
    forall i :: 0 <= i < |calls| ==> IsCall(C, BufferAfter(C, e, calls[..i]), calls[i])
  }

  /** No coefficient past the first, up to index t. */
  ghost predicate NoHigherTerms<T(!new)>(C: Code<T>, c: seq<T>) {
    forall i :: 2 <= i < |c| && i <= C.t ==> c[i] == C.F.zero
  }

  /** The syndromes are the powers of the first, as one error or none makes them. */
  ghost predicate OneErrorSyndromes<T(!new)>(C: Code<T>, r: seq<bool>) {
    forall j :: 1 <= j <= 2 * C.t ==> Syndrome(C, r, j) == Pow(C.F, Syndrome(C, r, 1), j)
  }

  /**
    At most one error corrected, or a rejected word whose syndromes are those of one error.  A rejected word that
    no recurrence of length at most t fits is harmless when what it stored has no coefficient past the first.
   */
  ghost predicate Harmless<T(!new)>(C: Code<T>, call: Call<T>) {
    match call.outcome
    case Accepted(_, corrected) => corrected <= 1
    case Rejected =>
      if exists c :: ShortLocator(C, Syndromes(C, call.received), c) then OneErrorSyndromes(C, call.received)
      else NoHigherTerms(C, call.stored)
  }

  // ---------- Which words leave the buffer clean ----------

  /** Squaring is additive in characteristic two. */
  lemma SquareOfSum<T(!new)>(F: Field<T>, a: T, b: T)
    requires IsField(F)
    ensures F.mul(F.add(a, b), F.add(a, b)) == F.add(F.mul(a, a), F.mul(b, b))
  {
    var s, ab := F.add(a, b), F.mul(a, b);
    assert Laws(F, s, a, b);
    assert Laws(F, a, a, b);
    assert Laws(F, b, a, b);
    assert Laws(F, s, a, a);
    assert Laws(F, s, b, b);
    Swap4(F, F.mul(a, a), ab, ab, F.mul(b, b));
    assert Laws(F, ab, F.mul(b, b), F.mul(b, b));
    assert Laws(F, F.mul(a, a), ab, F.add(ab, F.mul(b, b)));
    assert Laws(F, ab, ab, F.mul(b, b));
    AddZero(F, F.mul(b, b));
  }

  lemma SameSquare<T(!new)>(F: Field<T>, a: T, b: T)
    requires IsField(F) && F.mul(a, a) == F.mul(b, b)
    ensures a == b
  {
    SquareOfSum(F, a, b);
    AddZero(F, F.mul(a, a));
    NoZeroDivisors(F, F.add(a, b), F.add(a, b));
    SumIsZero(F, a, b);
  }

  /** The syndromes of a binary word: each even one is a square. */
  lemma {:induction false} SyndromeSquare<T(!new)>(C: Code<T>, w: seq<bool>, j: nat)
    requires IsField(C.F)
    ensures Syndrome(C, w, 2 * j) == C.F.mul(Syndrome(C, w, j), Syndrome(C, w, j))
  {
    if |w| == 0 {
      MulZero(C.F, C.F.zero);
    } else {
      var n := |w| - 1;
      var p := if w[n] then Pow(C.F, C.alpha, j * n) else C.F.zero;
      SyndromeSquare(C, w[..n], j);
      SquareOfSum(C.F, Syndrome(C, w[..n], j), p);
      if w[n] {
        PowAdd(C.F, C.alpha, j * n, j * n);
        assert 2 * j * n == j * n + j * n;
      } else {
        MulZero(C.F, C.F.zero);
      }
    }
  }

  /** Powers that the upper half of the syndromes are, all of them are. */
  lemma {:induction false} PowersDown<T(!new)>(C: Code<T>, r: seq<bool>, b: T, j: nat)
    requires IsField(C.F) && 1 <= j <= 2 * C.t
    requires forall i :: C.t <= i <= 2 * C.t ==> Syndrome(C, r, i) == Pow(C.F, b, i)
    ensures Syndrome(C, r, j) == Pow(C.F, b, j)
    decreases 2 * C.t - j
  {
    hide Syndrome, Pow, IsField;
    if j < C.t {
      PowersDown(C, r, b, 2 * j);
      SyndromeSquare(C, r, j);
      PowAdd(C.F, b, j, j);
      SameSquare(C.F, Syndrome(C, r, j), Pow(C.F, b, j));
    }
  }

  lemma PowOfZero<T(!new)>(F: Field<T>, n: nat)
    requires IsField(F) && n >= 1
    ensures Pow(F, F.zero, n) == F.zero && Pow(F, F.one, n) == F.one
  {
    MulZero(F, Pow(F, F.zero, n - 1));
    PowOfOne(F, n);
  }

  lemma {:induction false} PowOfOne<T(!new)>(F: Field<T>, n: nat)
    requires IsField(F)
    ensures Pow(F, F.one, n) == F.one
  {
    if n > 0 {
      PowOfOne(F, n - 1);
      MulZero(F, F.one);
    }
  }

  lemma PowFirst<T(!new)>(F: Field<T>, b: T)
    requires IsField(F)
    ensures Pow(F, b, 1) == b
  {
    assert Pow(F, b, 0) == F.one;
    MulZero(F, b);
  }

  /** A convolution with no terms past the first has two summands. */
  lemma {:induction false} ConvTwoTerms<T(!new)>(F: Field<T>, c: seq<T>, s: seq<T>, n: nat, k: nat)
    requires IsField(F) && 2 <= k <= |c| && k <= n < |s| && c[0] == F.one
    requires forall i :: 2 <= i < k ==> c[i] == F.zero
    ensures Conv(F, c, s, n, k) == F.add(s[n], F.mul(c[1], s[n - 1]))
  {
    if k == 2 {
      MulZero(F, s[n]);
      AddZero(F, s[n]);
      assert Conv(F, c, s, n, 1) == F.add(Conv(F, c, s, n, 0), F.mul(c[0], s[n]));
    } else {
      ConvTwoTerms(F, c, s, n, k - 1);
      MulZero(F, s[n - (k - 1)]);
      AddZero(F, Conv(F, c, s, n, k - 1));
    }
  }

  /** From t on, the syndromes grow by the factor that a locator without higher terms names. */
  lemma {:induction false} Geometric<T(!new)>(C: Code<T>, r: seq<bool>, c: seq<T>, k: nat)
    requires IsField(C.F) && k <= C.t && |c| >= 2
    requires ShortLocator(C, Syndromes(C, r), c) && NoHigherTerms(C, c)
    ensures Syndrome(C, r, C.t + k) == C.F.mul(Pow(C.F, c[1], k), Syndrome(C, r, C.t))
  {
    hide Syndrome, IsField, Conv, LengthAtLeast;
    var F, s := C.F, Syndromes(C, r);
    if k == 0 {
      MulZero(F, Syndrome(C, r, C.t));
    } else {
      var j := C.t + k;
      Geometric(C, r, c, k - 1);
      assert Vanishes(F, c, s, j);
      ConvTwoTerms(F, c, s, j, |c|);
      SumIsZero(F, s[j], F.mul(c[1], s[j - 1]));
      assert Laws(F, c[1], Pow(F, c[1], k - 1), Syndrome(C, r, C.t)) by {
        FieldLaws(F, c[1], Pow(F, c[1], k - 1), Syndrome(C, r, C.t));
      }
    }
  }

  lemma FieldLaws<T(!new)>(F: Field<T>, a: T, b: T, c: T)
    requires IsField(F)
    ensures Laws(F, a, b, c)
  {}

  /** A locator without higher terms belongs to a word with the syndromes of one error. */
  lemma NoTermsMeansOne<T(!new)>(C: Code<T>, r: seq<bool>, c: seq<T>)
    requires IsField(C.F) && C.t >= 1 && |c| >= 2
    requires ShortLocator(C, Syndromes(C, r), c) && NoHigherTerms(C, c)
    ensures OneErrorSyndromes(C, r)
  {
    hide Syndrome, IsField, Pow, ShortLocator, NoHigherTerms;
    var F, t, a := C.F, C.t, c[1];
    var st := Syndrome(C, r, t);
    Geometric(C, r, c, t);
    SyndromeSquare(C, r, t);
    CancelSquare(F, st, Pow(F, a, t));
    var b := if st == F.zero then F.zero else a;
    forall i | t <= i <= 2 * t
      ensures Syndrome(C, r, i) == Pow(F, b, i)
    {
      Geometric(C, r, c, i - t);
      MulZero(F, Pow(F, a, i - t));
      PowOfZero(F, i);
      PowAdd(F, a, i - t, t);
    }
    PowersDown(C, r, b, 1);
    PowFirst(F, b);
    forall j | 1 <= j <= 2 * t
      ensures Syndrome(C, r, j) == Pow(F, b, j)
    {
      PowersDown(C, r, b, j);
    }
  }

  lemma CancelSquare<T(!new)>(F: Field<T>, x: T, y: T)
    requires IsField(F) && F.mul(x, x) == F.mul(y, x)
    ensures x == F.zero || x == y
  {
    assert Laws(F, x, x, y);
    assert Laws(F, x, y, x);
    SumIsZero(F, F.mul(x, x), F.mul(x, y));
    NoZeroDivisors(F, x, F.add(x, y));
    SumIsZero(F, x, y);
  }

  /** Syndromes of one error have a recurrence of length one. */
  lemma OneHasShort<T(!new)>(C: Code<T>, r: seq<bool>, c: seq<T>)
    requires IsField(C.F) && OneErrorSyndromes(C, r) && ShortLocator(C, Syndromes(C, r), c)
    ensures |c| <= 2
  {
    hide Syndrome, Pow, IsField;
    var F, s := C.F, Syndromes(C, r);
    var d := [F.one, Syndrome(C, r, 1)];
    forall j | 2 <= j <= 2 * C.t
      ensures Vanishes(F, d, s, j)
    {
      ConvTwoTerms(F, d, s, j, 2);
      PowNext(F, Syndrome(C, r, 1), j);
      AddZero(F, s[j]);
    }
    assert Recurrence(F, d, s, 2 * C.t);
  }

  lemma PowNext<T(!new)>(F: Field<T>, x: T, n: nat)
    requires n >= 1
    ensures Pow(F, x, n) == F.mul(x, Pow(F, x, n - 1))
  {}

  /**
    Of a word that is no codeword and that a recurrence of length at most t fits, the stored coefficients past the
    first are zero exactly when the syndromes are those of one error.
   */
  lemma HigherTermsExactly<T(!new)>(C: Code<T>, r: seq<bool>, c: seq<T>)
    requires IsField(C.F) && C.t >= 1 && !IsCodeword(C, r) && ShortLocator(C, Syndromes(C, r), c)
    ensures NoHigherTerms(C, c) <==> OneErrorSyndromes(C, r)
  {
    hide IsCodeword, OneErrorSyndromes, ShortLocator, IsField;
    LocatorNotTrivial(C, r, c);
    if NoHigherTerms(C, c) {
      NoTermsMeansOne(C, r, c);
    }
    if OneErrorSyndromes(C, r) {
      OneHasShort(C, r, c);
    }
  }

  /** What a rejected call stored, where a recurrence of length at most t fits. */
  lemma RejectedStores<T(!new)>(C: Code<T>, e: seq<T>, call: Call<T>, c: seq<T>)
    requires IsField(C.F) && |e| == C.t + 2 && IsCall(C, e, call) && call.outcome.Rejected?
    requires ShortLocator(C, Syndromes(C, call.received), c)
    ensures !IsCodeword(C, call.received) && ShortLocator(C, Syndromes(C, call.received), call.stored)
  {
    hide IsCodeword, Correct, Recurrence, IsField;
    assert |call.stored| == |c|;
  }

  // ---------- When the copy stays within the buffer ----------

  /** With all earlier terms zero only the leading coefficient counts. */
  lemma {:induction false} ConvLeads<T(!new)>(F: Field<T>, c: seq<T>, s: seq<T>, n: nat, k: nat)
    requires IsField(F) && 1 <= k <= |c| && k <= n < |s| && c[0] == F.one
    requires forall i :: n - k < i < n ==> s[i] == F.zero
    ensures Conv(F, c, s, n, k) == s[n]
  {
    if k == 1 {
      MulZero(F, s[n]);
      AddZero(F, s[n]);
      assert Conv(F, c, s, n, 1) == F.add(Conv(F, c, s, n, 0), F.mul(c[0], s[n]));
    } else {
      ConvLeads(F, c, s, n, k - 1);
      MulZero(F, c[k - 1]);
      AddZero(F, s[n]);
    }
  }

  /** A first nonzero syndrome at t + 2 or later leaves no room. */
  lemma LateStartHasNoRoom<T(!new)>(C: Code<T>, s: seq<T>, k: nat)
    requires IsField(C.F) && |s| == 2 * C.t + 1 && C.t + 2 <= k <= 2 * C.t
    requires s[k] != C.F.zero && forall i :: 1 <= i < k ==> s[i] == C.F.zero
    ensures !HasRoom(C, s)
  {
    hide Conv;
    forall c | Recurrence(C.F, c, s, 2 * C.t) && |c| <= C.t + 2
      ensures false
    {
      assert Vanishes(C.F, c, s, k);
      ConvLeads(C.F, c, s, k, |c|);
    }
  }

  /** At most t + 1 errors leave room, whether or not they can be corrected. */
  lemma FewErrorsHaveRoom<T(!new)>(C: Code<T>, c: seq<bool>, r: seq<bool>)
    requires IsField(C.F) && |c| == |r| && IsCodeword(C, c) && Distance(r, c) <= C.t + 1
    ensures HasRoom(C, Syndromes(C, r))
  {
    var xs := Locators(C, Support(Xor(r, c)));
    ErrorSyndromes(C, c, r);
    ProductIsRecurrence(C.F, xs, Syndromes(C, r), 2 * C.t);
  }

  // ---------- Runs of calls ----------

  /** What an accepted call stored: nothing for a codeword, else one coefficient more than errors corrected. */
  lemma AcceptedStores<T(!new)>(C: Code<T>, e: seq<T>, call: Call<T>)
    requires IsField(C.F) && |e| == C.t + 2 && IsCall(C, e, call) && call.outcome.Accepted?
    ensures IsCodeword(C, call.received) ==> call.stored == [] && call.outcome.corrected == 0
    ensures !IsCodeword(C, call.received) ==>
              && ShortLocator(C, Syndromes(C, call.received), call.stored)
              && |call.stored| == call.outcome.corrected + 1
  {
    hide IsCodeword, Found, Recurrence, IsField;
    if !IsCodeword(C, call.received) {
      var s := Syndromes(C, call.received);
      var d :| ShortLocator(C, s, d) && call.outcome == Correct(C, d, e, call.received);
      assert |call.stored| == |d|;
      ShortLocatorUnique(C, s, call.stored, d);
    }
  }

  /** From a clean buffer a call leaves a clean one exactly when it is harmless. */
  lemma CallKeepsClean<T(!new)>(C: Code<T>, e: seq<T>, call: Call<T>)
    requires ValidCode(C) && |e| == C.t + 2 && 1 <= C.t <= |call.received| <= C.order
    requires IsCall(C, e, call) && ZeroBeyond(C, e, 1)
    ensures ZeroBeyond(C, Store(call.stored, e), 1) <==> Harmless(C, call)
  {
    hide IsCodeword, Decodes, Shortest, ShortLocator, IsField, OneErrorSyndromes;
    var f, c := Store(call.stored, e), call.stored;
    assert forall i :: 2 <= i <= C.t ==> f[i] == if i < |c| then c[i] else C.F.zero;
    StoredIsClean(C, e, c);
    if call.outcome.Accepted? {
      AcceptedStores(C, e, call);
      if call.outcome.corrected >= 2 {
        var r, w := call.received, call.outcome.word;
        DecodingIsSound(C, e, r, call.outcome);
        DistanceSymmetric(w, r);
        NotCleanAfter(C, e, w, r, c);
        CorrectsAllExactly(C, f, |w|);
      }
    } else if d :| ShortLocator(C, Syndromes(C, call.received), d) {
      RejectedStores(C, e, call, d);
      HigherTermsExactly(C, call.received, c);
    }
  }

  lemma StoredIsClean<T(!new)>(C: Code<T>, e: seq<T>, c: seq<T>)
    requires |e| == C.t + 2 && |c| <= |e| && ZeroBeyond(C, e, 1)
    ensures ZeroBeyond(C, Store(c, e), 1) <==> NoHigherTerms(C, c)
  {
    var f := Store(c, e);
    if ZeroBeyond(C, f, 1) {
      forall i | 2 <= i < |c| && i <= C.t
        ensures c[i] == C.F.zero
      {
        assert f[i] == c[i];
      }
    }
  }

  ghost predicate CleanAt<T(!new)>(C: Code<T>, e: seq<T>, calls: seq<Call<T>>, i: nat)
    requires |e| == C.t + 2 && i <= |calls|
  {
    ZeroBeyond(C, BufferAfter(C, e, calls[..i]), 1)
  }

  lemma CleanNext<T(!new)>(C: Code<T>, e: seq<T>, calls: seq<Call<T>>, i: nat)
    requires ValidCode(C) && |e| == C.t + 2 && IsRun(C, e, calls) && i < |calls|
    requires 1 <= C.t <= |calls[i].received| <= C.order && CleanAt(C, e, calls, i)
    ensures CleanAt(C, e, calls, i + 1) <==> Harmless(C, calls[i])
  {
    hide IsCall, ZeroBeyond, Harmless, ValidCode;
    var before := BufferAfter(C, e, calls[..i]);
    assert IsCall(C, before, calls[i]);
    CallFits(C, before, calls[i]);
    CallKeepsClean(C, before, calls[i]);
    assert calls[..i + 1][..i] == calls[..i];
  }

  lemma {:induction false} HarmlessStaysClean<T(!new)>(C: Code<T>, e: seq<T>, calls: seq<Call<T>>, i: nat)
    requires ValidCode(C) && |e| == C.t + 2 && C.t >= 1 && ZeroBeyond(C, e, 1) && IsRun(C, e, calls) && i <= |calls|
    requires forall j :: 0 <= j < i ==> Harmless(C, calls[j])
    requires forall j :: 0 <= j < |calls| ==> C.t <= |calls[j].received| <= C.order
    ensures CleanAt(C, e, calls, i)
  {
    hide IsRun, ZeroBeyond, Harmless, ValidCode;
    if i > 0 {
      assert Harmless(C, calls[i - 1]);
      HarmlessStaysClean(C, e, calls, i - 1);
      CleanNext(C, e, calls, i - 1);
    }
  }

  /**
    A run that starts with a clean buffer, new or reset, and whose copies stay within it: the decoder
    corrects every pattern of at most t errors before, between and after the calls exactly when every
    call is harmless.
   */
  lemma RunStaysComplete<T(!new)>(C: Code<T>, e: seq<T>, calls: seq<Call<T>>, n: nat)
    requires ValidCode(C) && |e| == C.t + 2 && 1 <= C.t <= n <= C.order && ZeroBeyond(C, e, 1) && IsRun(C, e, calls)
    requires forall i :: 0 <= i < |calls| ==> C.t <= |calls[i].received| <= C.order
    ensures (forall i :: 0 <= i <= |calls| ==> CorrectsAll(C, BufferAfter(C, e, calls[..i]), n))
       <==> (forall i :: 0 <= i < |calls| ==> Harmless(C, calls[i]))
  {
    hide IsRun, CorrectsAll, ZeroBeyond, Harmless, ValidCode, BufferAfter;
    forall i | 0 <= i <= |calls|
      ensures CorrectsAll(C, BufferAfter(C, e, calls[..i]), n) <==> CleanAt(C, e, calls, i)
    {
      CorrectsAllExactly(C, BufferAfter(C, e, calls[..i]), n);
    }
    if forall i :: 0 <= i <= |calls| ==> CorrectsAll(C, BufferAfter(C, e, calls[..i]), n) {
      forall i | 0 <= i < |calls|
        ensures Harmless(C, calls[i])
      {
        var j := i + 1;
        assert CorrectsAll(C, BufferAfter(C, e, calls[..i]), n) && CorrectsAll(C, BufferAfter(C, e, calls[..j]), n);
        CleanNext(C, e, calls, i);
      }
    }
    if forall i :: 0 <= i < |calls| ==> Harmless(C, calls[i]) {
      forall i | 0 <= i <= |calls|
        ensures CleanAt(C, e, calls, i)
      {
        HarmlessStaysClean(C, e, calls, i);
      }
    }
  }

  lemma CallFits<T(!new)>(C: Code<T>, e: seq<T>, call: Call<T>)
    requires |e| == C.t + 2 && IsCall(C, e, call)
    ensures |call.stored| <= |e|
  {
    hide Decodes, Shortest;
  }
}
