/**
  The state of the Berlekamp-Massey algorithm and what each step keeps.

  The state is the one the decoder holds in its local arrays: the current and the
  previous polynomial, both of K = t + 2 coefficients, the current length L, the
  step count m since the last length change and the discrepancy at that change.
  Lp is the length the previous polynomial had; the decoder does not store it.
 */
module BerlekampMassey {
  import opened FieldTheory
  import opened LinearRecurrence

  datatype State<!T> = State(sigma: seq<T>, prev: seq<T>, L: nat, m: nat, deltaPrev: T, Lp: nat)

  ghost predicate ZeroAfter<T(!new)>(F: Field<T>, c: seq<T>, k: nat) {
    forall i :: k < i < |c| ==> c[i] == F.zero
  }

  /** The previous polynomial, k coefficients long, fits s up to index e, where its discrepancy is delta. */
  ghost predicate FailsFirstAt<T(!new)>(F: Field<T>, p: seq<T>, k: nat, s: seq<T>, e: nat, delta: T)
    requires 1 <= k <= |p| && k - 1 <= e < |s|
  {
    && delta != F.zero
    && Conv(F, p, s, e, k) == delta
    && forall j :: k <= j < e ==> Conv(F, p, s, j, k) == F.zero
  }

  /** What holds when s[1..n-1] has been read and the length is still within the arrays. */
  ghost predicate Invariant<T(!new)>(F: Field<T>, st: State<T>, s: seq<T>, n: nat) {
    && 1 <= n <= |s| && s[0] == F.one
    && |st.sigma| == |st.prev| >= st.L + 1 && |st.prev| >= st.Lp + 1
    && 1 <= st.m && st.L + st.Lp + st.m == n
    && ZeroAfter(F, st.sigma, st.L) && ZeroAfter(F, st.prev, st.Lp)
    && Shortest(F, st.sigma[..st.L + 1], s, n - 1)
    && FailsFirstAt(F, st.prev, st.Lp + 1, s, n - st.m, st.deltaPrev)
  }

  /** The length the algorithm moves to when s[n] is not what sigma predicts. */
  function NextLength(L: nat, n: nat): nat
    requires L <= n
  {
    if 2 * L <= n - 1 then n - L else L
  }

  lemma Init<T(!new)>(F: Field<T>, st: State<T>, s: seq<T>)
    requires IsField(F)
    requires |s| >= 1 && s[0] == F.one
    requires |st.sigma| == |st.prev| >= 2 && st.sigma[0] == F.one && st.prev[0] == F.one
    requires ZeroAfter(F, st.sigma, 0) && ZeroAfter(F, st.prev, 0)
    requires st.L == 0 && st.Lp == 0 && st.m == 1 && st.deltaPrev == F.one
    ensures Invariant(F, st, s, 1)
  {
    assert Laws(F, F.one, F.one, F.one);
    AddZero(F, F.mul(F.one, F.one));
    assert Conv(F, st.prev, s, 0, 1) == F.add(Conv(F, st.prev, s, 0, 0), F.mul(F.one, F.one));
  }

  lemma StepZero<T(!new)>(F: Field<T>, st: State<T>, s: seq<T>, n: nat)
    requires IsField(F) && Invariant(F, st, s, n) && n < |s|
    requires Conv(F, st.sigma, s, n, st.L + 1) == F.zero
    ensures Invariant(F, st.(m := st.m + 1), s, n + 1)
  {
    var c := st.sigma[..st.L + 1];
    ConvPrefix(F, st.sigma, c, s, s, n, st.L + 1);
    assert Vanishes(F, c, s, n);
    LengthMonotone(F, s, n - 1, n, st.L);
    assert (n + 1) - (st.m + 1) == n - st.m;
  }

  /** After a nonzero discrepancy no recurrence for s[1..n] is shorter than the next length. */
  lemma StepBound<T(!new)>(F: Field<T>, st: State<T>, s: seq<T>, n: nat)
    requires IsField(F) && Invariant(F, st, s, n) && n < |s|
    requires Conv(F, st.sigma, s, n, st.L + 1) != F.zero
    ensures LengthAtLeast(F, s, n, NextLength(st.L, n))
  {
    var c := st.sigma[..st.L + 1];
    ConvPrefix(F, st.sigma, c, s, s, n, st.L + 1);
    LengthAfterFailure(F, c, s, n);
    LengthMonotone(F, s, n - 1, n, st.L);
  }

  /** r is sigma + q x^m prev, cut to the array. */
  ghost predicate IsUpdate<T(!new)>(F: Field<T>, st: State<T>, q: T, r: seq<T>) {
    && |r| == |st.sigma| == |st.prev|
    && forall i :: 0 <= i < |r| ==>
      r[i] == if i < st.m then st.sigma[i] else F.add(st.sigma[i], F.mul(q, st.prev[i - st.m]))
  }

  /** The cut drops only zero coefficients as long as the next length fits. */
  lemma NothingDropped<T(!new)>(F: Field<T>, st: State<T>, s: seq<T>, n: nat)
    requires Invariant(F, st, s, n) && NextLength(st.L, n) < |st.sigma|
    ensures st.Lp + st.m <= NextLength(st.L, n)
    ensures forall i :: 0 <= i < |st.prev| && i + st.m >= |st.sigma| ==> st.prev[i] == F.zero
  {}

  /** The convolution of an updated polynomial, with the zero tails of both parts dropped. */
  lemma UpdatedConv<T(!new)>(F: Field<T>, c: seq<T>, l: nat, p: seq<T>, lp: nat, q: T, m: nat, r: seq<T>, s: seq<T>,
                      j: nat, k: nat)
    requires IsField(F)
    requires |c| == |p| == |r| && 1 <= m && l <= k <= |c| && lp + m <= k <= j < |s|
    requires forall i :: l <= i < k ==> c[i] == F.zero
    requires forall i :: lp <= i < k - m ==> p[i] == F.zero
    requires forall i :: 0 <= i < k ==> r[i] == if i < m then c[i] else F.add(c[i], F.mul(q, p[i - m]))
    ensures Conv(F, r, s, j, k) == F.add(Conv(F, c, s, j, l), F.mul(q, Conv(F, p, s, j - m, lp)))
  {
    ConvUpdate(F, c, p, r, q, m, s, j, k);
    ConvZeroTail(F, c, s, j, l, k);
    ConvZeroTail(F, p, s, j - m, lp, k - m);
    if k == m {
      MulZero(F, q);
      AddZero(F, Conv(F, c, s, j, l));
    }
  }

  /** A recurrence stored with a zero tail vanishes where the recurrence does. */
  lemma StoredVanishes<T(!new)>(F: Field<T>, sigma: seq<T>, k: nat, s: seq<T>, n: nat, j: nat)
    requires 1 <= k <= |sigma| && k <= j <= n < |s| && Recurrence(F, sigma[..k], s, n)
    ensures Conv(F, sigma, s, j, k) == F.zero
  {
    assert Vanishes(F, sigma[..k], s, j);
    ConvPrefix(F, sigma, sigma[..k], s, s, j, k);
  }

  lemma StoredRecurrence<T(!new)>(F: Field<T>, r: seq<T>, k: nat, s: seq<T>, n: nat)
    requires 1 <= k <= |r| && n < |s| && r[0] == F.one
    requires forall j :: k <= j <= n ==> Conv(F, r, s, j, k) == F.zero
    ensures Recurrence(F, r[..k], s, n)
  {
    forall j | k <= j <= n
      ensures Vanishes(F, r[..k], s, j)
    {
      ConvPrefix(F, r, r[..k], s, s, j, k);
    }
  }

  /** The update cancels the discrepancy at n and keeps every earlier term. */
  lemma UpdatedVanishes<T(!new)>(F: Field<T>, st: State<T>, s: seq<T>, n: nat, q: T, r: seq<T>, k: nat, j: nat)
    requires IsField(F) && Invariant(F, st, s, n) && n < |s|
    requires k == NextLength(st.L, n) + 1 <= |st.sigma|
    requires F.mul(q, st.deltaPrev) == Conv(F, st.sigma, s, n, st.L + 1)
    requires IsUpdate(F, st, q, r)
    requires k <= j <= n
    ensures Conv(F, r, s, j, k) == F.zero
  {
    var l, lp := st.L + 1, st.Lp + 1;
    assert Conv(F, r, s, j, k) == F.add(Conv(F, st.sigma, s, j, l), F.mul(q, Conv(F, st.prev, s, j - st.m, lp))) by {
      hide Conv, Shortest, FailsFirstAt;
      UpdatedConv(F, st.sigma, l, st.prev, lp, q, st.m, r, s, j, k);
    }
    hide Conv, IsUpdate, ZeroAfter;
    if j == n {
      AddZero(F, Conv(F, st.sigma, s, n, l));
    } else {
      StoredVanishes(F, st.sigma, l, s, n - 1, j);
      assert Conv(F, st.prev, s, j - st.m, lp) == F.zero;
      MulZero(F, q);
      AddZero(F, F.zero);
    }
  }

  lemma UpdatedShape<T(!new)>(F: Field<T>, st: State<T>, s: seq<T>, n: nat, q: T, r: seq<T>)
    requires IsField(F) && Invariant(F, st, s, n) && n < |s|
    requires NextLength(st.L, n) < |st.sigma| && IsUpdate(F, st, q, r)
    ensures |r| == |st.sigma| && r[0] == F.one && ZeroAfter(F, r, NextLength(st.L, n))
  {
    assert r[0] == st.sigma[0] == st.sigma[..st.L + 1][0];
    MulZero(F, q);
    AddZero(F, F.zero);
  }

  lemma UpdatedShortest<T(!new)>(F: Field<T>, st: State<T>, s: seq<T>, n: nat, q: T, r: seq<T>, k: nat)
    requires IsField(F) && Invariant(F, st, s, n) && n < |s|
    requires k == NextLength(st.L, n) + 1 <= |st.sigma|
    requires Conv(F, st.sigma, s, n, st.L + 1) != F.zero
    requires F.mul(q, st.deltaPrev) == Conv(F, st.sigma, s, n, st.L + 1)
    requires IsUpdate(F, st, q, r)
    ensures Shortest(F, r[..k], s, n)
  {
    UpdatedShape(F, st, s, n, q, r);
    forall j | k <= j <= n
      ensures Conv(F, r, s, j, k) == F.zero
    {
      UpdatedVanishes(F, st, s, n, q, r, k, j);
    }
    StoredRecurrence(F, r, k, s, n);
    StepBound(F, st, s, n);
  }

  lemma OldFailsFirst<T(!new)>(F: Field<T>, sigma: seq<T>, k: nat, s: seq<T>, n: nat)
    requires 1 <= k <= |sigma| && 1 <= n < |s| && k <= n + 1 && Recurrence(F, sigma[..k], s, n - 1)
    requires Conv(F, sigma, s, n, k) != F.zero
    ensures FailsFirstAt(F, sigma, k, s, n, Conv(F, sigma, s, n, k))
  {
    forall j | k <= j < n
      ensures Conv(F, sigma, s, j, k) == F.zero
    {
      StoredVanishes(F, sigma, k, s, n - 1, j);
    }
  }

  /** The state after a nonzero discrepancy delta. */
  function Advance<T>(st: State<T>, n: nat, delta: T, r: seq<T>): State<T> {
    if 2 * st.L <= n - 1 && st.L <= n then State(r, st.sigma, n - st.L, 1, delta, st.L)
    else st.(sigma := r, m := st.m + 1)
  }

  /** A step with a nonzero discrepancy keeps the invariant, whichever branch updates the length. */
  lemma StepNonzero<T(!new)>(F: Field<T>, st: State<T>, s: seq<T>, n: nat, q: T, r: seq<T>)
    requires IsField(F) && Invariant(F, st, s, n) && n < |s|
    requires Conv(F, st.sigma, s, n, st.L + 1) != F.zero
    requires NextLength(st.L, n) < |st.sigma|
    requires F.mul(q, st.deltaPrev) == Conv(F, st.sigma, s, n, st.L + 1)
    requires IsUpdate(F, st, q, r)
    ensures Invariant(F, Advance(st, n, Conv(F, st.sigma, s, n, st.L + 1), r), s, n + 1)
  {
    hide Conv, Recurrence, LengthAtLeast, FailsFirstAt, IsUpdate, ZeroAfter;
    UpdatedShape(F, st, s, n, q, r);
    UpdatedShortest(F, st, s, n, q, r, NextLength(st.L, n) + 1);
    OldFailsFirst(F, st.sigma, st.L + 1, s, n);
  }
}
