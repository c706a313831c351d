/**
  Linear recurrences over a field of characteristic two, and the theory behind the
  Berlekamp-Massey algorithm: the update step, the lower bound on the length, and
  the uniqueness of a short shortest recurrence.

  A recurrence of length L is a sequence c of L + 1 coefficients with c[0] = 1.  It
  runs over the terms s[1], s[2], ...; s[0] is never a term of the sequence.
 */
module LinearRecurrence {
  import opened FieldTheory

  /** c[0] s[n] + c[1] s[n-1] + ... + c[k-1] s[n-k+1] */
  ghost function Conv<T(!new)>(F: Field<T>, c: seq<T>, s: seq<T>, n: nat, k: nat): T
    requires k <= |c| && n < |s| && k <= n + 1
  {
    if k == 0 then F.zero else F.add(Conv(F, c, s, n, k - 1), F.mul(c[k - 1], s[n - (k - 1)]))
  }

  ghost predicate Vanishes<T(!new)>(F: Field<T>, c: seq<T>, s: seq<T>, j: nat)
    requires |c| <= j < |s|
  {
    Conv(F, c, s, j, |c|) == F.zero
  }

  /** c is a recurrence satisfied by s[1], ..., s[n]. */
  ghost predicate Recurrence<T(!new)>(F: Field<T>, c: seq<T>, s: seq<T>, n: nat)
    requires n < |s|
  {
    && |c| >= 1 && c[0] == F.one
    && forall j :: |c| <= j <= n ==> Vanishes(F, c, s, j)
  }

  /** No recurrence satisfied by s[1], ..., s[n] is shorter than L. */
  ghost predicate LengthAtLeast<T(!new)>(F: Field<T>, s: seq<T>, n: nat, L: nat)
    requires n < |s|
  {
    forall c :: Recurrence(F, c, s, n) ==> |c| - 1 >= L
  }

  ghost predicate Shortest<T(!new)>(F: Field<T>, c: seq<T>, s: seq<T>, n: nat)
    requires n < |s|
  {
    Recurrence(F, c, s, n) && LengthAtLeast(F, s, n, |c| - 1)
  }

  // ---------- Conv ----------

  lemma {:induction false} ConvPrefix<T(!new)>(F: Field<T>, c: seq<T>, d: seq<T>, s: seq<T>, u: seq<T>, n: nat, k: nat)
    requires k <= |c| && k <= |d| && n < |s| && n < |u| && k <= n + 1
    requires forall i :: 0 <= i < k ==> c[i] == d[i]
    requires forall i :: n - k < i <= n ==> s[i] == u[i]
    ensures Conv(F, c, s, n, k) == Conv(F, d, u, n, k)
  {
    if k > 0 {
      ConvPrefix(F, c, d, s, u, n, k - 1);
    }
  }

  /** Zero coefficients past position k contribute nothing. */
  lemma {:induction false} ConvZeroTail<T(!new)>(F: Field<T>, c: seq<T>, s: seq<T>, n: nat, k: nat, l: nat)
    requires IsField(F)
    requires k <= l <= |c| && n < |s| && l <= n + 1
    requires forall i :: k <= i < l ==> c[i] == F.zero
    ensures Conv(F, c, s, n, l) == Conv(F, c, s, n, k)
  {
    if k < l {
      ConvZeroTail(F, c, s, n, k, l - 1);
      MulZero(F, s[n - (l - 1)]);
      AddZero(F, Conv(F, c, s, n, l - 1));
    }
  }

  /** Adding q x^m p to c adds q times the shifted convolution of p. */
  lemma {:induction false} ConvUpdate<T(!new)>(F: Field<T>, c: seq<T>, p: seq<T>, r: seq<T>, q: T, m: nat, s: seq<T>,
                                        n: nat, k: nat)
    requires IsField(F)
    requires |c| == |p| == |r| && k <= |c| && k <= n + 1 && n < |s| && 1 <= m <= n
    requires forall i :: 0 <= i < k ==> r[i] == if i < m then c[i] else F.add(c[i], F.mul(q, p[i - m]))
    ensures Conv(F, r, s, n, k) ==
            if k <= m then Conv(F, c, s, n, k)
            else F.add(Conv(F, c, s, n, k), F.mul(q, Conv(F, p, s, n - m, k - m)))
  {
    if k == 0 {
    } else {
      ConvUpdate(F, c, p, r, q, m, s, n, k - 1);
      if k > m {
        var a, b, u := Conv(F, c, s, n, k - 1), c[k - 1], s[n - (k - 1)];
        var pm, e := p[k - 1 - m], Conv(F, p, s, n - m, k - 1 - m);
        var bu, qpu := F.mul(b, u), F.mul(q, F.mul(pm, u));
        assert F.mul(F.add(b, F.mul(q, pm)), u) == F.add(bu, qpu) by {
          assert Laws(F, u, b, F.mul(q, pm));
          assert Laws(F, q, pm, u);
          assert Laws(F, b, u, u);
          assert Laws(F, F.add(b, F.mul(q, pm)), u, u);
          assert Laws(F, F.mul(q, pm), u, u);
        }
        assert F.mul(q, F.add(e, F.mul(pm, u))) == F.add(F.mul(q, e), qpu) by {
          assert Laws(F, q, e, F.mul(pm, u));
        }
        if k - 1 == m {
          assert Laws(F, a, bu, qpu);
          AddZero(F, qpu);
          MulZero(F, q);
        } else {
          Swap4(F, a, F.mul(q, e), bu, qpu);
        }
      }
    }
  }

  /** The sum over k < a of c[k] Conv(d, n - k). */
  ghost function Conv2<T(!new)>(F: Field<T>, c: seq<T>, d: seq<T>, s: seq<T>, n: nat, a: nat, b: nat): T
    requires a <= |c| && b <= |d| && n < |s| && a + b <= n + 2 && 1 <= b
  {
    if a == 0 then F.zero
    else F.add(Conv2(F, c, d, s, n, a - 1, b), F.mul(c[a - 1], Conv(F, d, s, n - (a - 1), b)))
  }

  lemma {:induction false} Conv2Peel<T(!new)>(F: Field<T>, c: seq<T>, d: seq<T>, s: seq<T>, n: nat, a: nat, b: nat)
    requires IsField(F)
    requires 1 <= a <= |c| && 2 <= b <= |d| && n < |s| && a + b <= n + 2
    ensures Conv2(F, c, d, s, n, a, b) ==
            F.add(Conv2(F, c, d, s, n, a, b - 1), F.mul(d[b - 1], Conv(F, c, s, n - (b - 1), a)))
  {
    var x, y := c[a - 1], d[b - 1];
    var u := s[n - (a - 1) - (b - 1)];
    var e := Conv(F, d, s, n - (a - 1), b - 1);
    var xe, g := F.mul(x, e), Conv(F, c, s, n - (b - 1), a - 1);
    assert Laws(F, x, e, F.mul(y, u));
    assert Laws(F, x, y, u);
    assert Laws(F, y, x, u);
    assert F.mul(x, F.add(e, F.mul(y, u))) == F.add(xe, F.mul(y, F.mul(x, u)));
    assert Laws(F, y, g, F.mul(x, u));
    if a == 1 {
      AddZero(F, F.mul(x, F.add(e, F.mul(y, u))));
      AddZero(F, xe);
      AddZero(F, F.mul(x, u));
    } else {
      Conv2Peel(F, c, d, s, n, a - 1, b);
      Swap4(F, Conv2(F, c, d, s, n, a - 1, b - 1), F.mul(y, g), xe, F.mul(y, F.mul(x, u)));
    }
  }

  lemma {:induction false} Conv2One<T(!new)>(F: Field<T>, c: seq<T>, d: seq<T>, s: seq<T>, n: nat, a: nat)
    requires IsField(F)
    requires 1 <= a <= |c| && 1 <= |d| && n < |s| && a <= n + 1
    ensures Conv2(F, c, d, s, n, a, 1) == F.mul(d[0], Conv(F, c, s, n, a))
  {
    var x, y, u := c[a - 1], d[0], s[n - (a - 1)];
    assert Conv(F, d, s, n - (a - 1), 1) == F.add(Conv(F, d, s, n - (a - 1), 0), F.mul(y, u));
    AddZero(F, F.mul(y, u));
    assert Laws(F, x, y, u);
    assert Laws(F, y, x, u);
    assert Laws(F, y, Conv(F, c, s, n, a - 1), F.mul(x, u));
    if a == 1 {
      AddZero(F, F.mul(x, F.mul(y, u)));
      MulZero(F, y);
    } else {
      Conv2One(F, c, d, s, n, a - 1);
    }
  }

  /** The double sum can be taken in either order. */
  lemma {:induction false} Conv2Swap<T(!new)>(F: Field<T>, c: seq<T>, d: seq<T>, s: seq<T>, n: nat, a: nat, b: nat)
    requires IsField(F)
    requires 1 <= a <= |c| && 1 <= b <= |d| && n < |s| && a + b <= n + 2
    ensures Conv2(F, c, d, s, n, a, b) == Conv2(F, d, c, s, n, b, a)
  {
    if b == 1 {
      Conv2One(F, c, d, s, n, a);
      AddZero(F, F.mul(d[0], Conv(F, c, s, n, a)));
    } else {
      Conv2Swap(F, c, d, s, n, a, b - 1);
      Conv2Peel(F, c, d, s, n, a, b);
    }
  }

  /** When d vanishes at n, n-1, ..., n-a+1, except perhaps at n, only the first term is left. */
  lemma {:induction false} Conv2First<T(!new)>(F: Field<T>, c: seq<T>, d: seq<T>, s: seq<T>, n: nat, a: nat)
    requires IsField(F)
    requires 1 <= a <= |c| && c[0] == F.one && 1 <= |d| && n < |s| && a + |d| <= n + 1
    requires forall j :: n - a < j < n ==> Vanishes(F, d, s, j)
    ensures Conv2(F, c, d, s, n, a, |d|) == Conv(F, d, s, n, |d|)
  {
    var e := Conv(F, d, s, n - (a - 1), |d|);
    if a == 1 {
      assert Conv2(F, c, d, s, n, 0, |d|) == F.zero;
      MulZero(F, e);
      AddZero(F, e);
    } else {
      Conv2First(F, c, d, s, n, a - 1);
      assert Vanishes(F, d, s, n - (a - 1));
      MulZero(F, c[a - 1]);
      AddZero(F, Conv(F, d, s, n, |d|));
    }
  }

  // ---------- Massey's bound ----------

  /** If d satisfies s[1..n-1] but not s[n], a recurrence c for s[1..n] has length at least n - length of d. */
  lemma MasseyBound<T(!new)>(F: Field<T>, c: seq<T>, d: seq<T>, s: seq<T>, n: nat)
    requires IsField(F)
    requires 1 <= n < |s|
    requires Recurrence(F, c, s, n)
    requires Recurrence(F, d, s, n - 1) && |d| <= n && !Vanishes(F, d, s, n)
    ensures (|c| - 1) + (|d| - 1) >= n
  {
    if |c| + |d| <= n + 1 {
      assert Vanishes(F, c, s, n);
      Conv2First(F, c, d, s, n, |c|);
      Conv2First(F, d, c, s, n, |d|);
      Conv2Swap(F, c, d, s, n, |c|, |d|);
      assert false;
    }
  }

  lemma RecurrencePrefix<T(!new)>(F: Field<T>, c: seq<T>, s: seq<T>, m: nat, n: nat)
    requires m <= n < |s| && Recurrence(F, c, s, n)
    ensures Recurrence(F, c, s, m)
  {}

  /** A lower bound for a prefix is a lower bound for the whole. */
  lemma LengthMonotone<T(!new)>(F: Field<T>, s: seq<T>, m: nat, n: nat, L: nat)
    requires m <= n < |s| && LengthAtLeast(F, s, m, L)
    ensures LengthAtLeast(F, s, n, L)
  {
    forall c | Recurrence(F, c, s, n)
      ensures |c| - 1 >= L
    {
      RecurrencePrefix(F, c, s, m, n);
    }
  }

  lemma LengthAfterFailure<T(!new)>(F: Field<T>, d: seq<T>, s: seq<T>, n: nat)
    requires IsField(F)
    requires 1 <= n < |s| && Recurrence(F, d, s, n - 1) && |d| <= n && !Vanishes(F, d, s, n)
    ensures LengthAtLeast(F, s, n, n - (|d| - 1))
  {
    forall c | Recurrence(F, c, s, n)
      ensures |c| - 1 >= n - (|d| - 1)
    {
      MasseyBound(F, c, d, s, n);
    }
  }

  // ---------- Uniqueness ----------

  /** A recurrence g that holds for long enough beside a recurrence c for s[1..n] holds up to n as well. */
  lemma {:induction false} Continues<T(!new)>(F: Field<T>, c: seq<T>, g: seq<T>, s: seq<T>, m: nat, n: nat)
    requires IsField(F)
    requires m <= n < |s| && Recurrence(F, c, s, n) && Recurrence(F, g, s, m)
    requires (|c| - 1) + (|g| - 1) <= m
    ensures Recurrence(F, g, s, n)
  {
    if m < n {
      Continues(F, c, g, s, m, n - 1);
      if !Vanishes(F, g, s, n) {
        MasseyBound(F, c, g, s, n);
      }
    }
  }

  /** What has to be added to c from position a on to get d, divided by q. */
  ghost function Quotient<T(!new)>(F: Field<T>, c: seq<T>, d: seq<T>, q: T, a: nat): (p: seq<T>)
    requires |c| == |d|
    ensures |p| == |c|
  {
    seq(|c|, i requires 0 <= i < |c| =>
      if a + i < |c| then F.mul(F.inv(q), F.add(c[a + i], d[a + i])) else F.zero)
  }

  lemma QuotientRestores<T(!new)>(F: Field<T>, c: seq<T>, d: seq<T>, q: T, a: nat, i: nat)
    requires IsField(F) && |c| == |d| && q != F.zero && a <= i < |c|
    ensures d[i] == F.add(c[i], F.mul(q, Quotient(F, c, d, q, a)[i - a]))
  {
    var z := F.add(c[i], d[i]);
    assert Quotient(F, c, d, q, a)[i - a] == F.mul(F.inv(q), z);
    assert Laws(F, q, F.inv(q), z);
    MulZero(F, z);
    assert Laws(F, c[i], c[i], d[i]);
    AddZero(F, d[i]);
  }

  lemma QuotientLeads<T(!new)>(F: Field<T>, c: seq<T>, d: seq<T>, a: nat)
    requires IsField(F) && |c| == |d| && a < |c| && c[a] != d[a]
    ensures F.add(c[a], d[a]) != F.zero
    ensures Quotient(F, c, d, F.add(c[a], d[a]), a)[0] == F.one
  {
    SumIsZero(F, c[a], d[a]);
    var q := F.add(c[a], d[a]);
    assert Laws(F, q, F.inv(q), q);
  }

  lemma QuotientVanishes<T(!new)>(F: Field<T>, c: seq<T>, d: seq<T>, p: seq<T>, q: T, a: nat, s: seq<T>, j: nat)
    requires IsField(F) && |c| == |d| == |p| && q != F.zero && 1 <= a < |c|
    requires forall i :: 0 <= i < |c| ==> d[i] == if i < a then c[i] else F.add(c[i], F.mul(q, p[i - a]))
    requires |c| <= j < |s| && Vanishes(F, c, s, j) && Vanishes(F, d, s, j)
    ensures Vanishes(F, p[..|c| - a], s, j - a)
  {
    ConvUpdate(F, c, p, d, q, a, s, j, |c|);
    AddZero(F, F.mul(q, Conv(F, p, s, j - a, |c| - a)));
    NoZeroDivisors(F, q, Conv(F, p, s, j - a, |c| - a));
    ConvPrefix(F, p, p[..|c| - a], s, s, j - a, |c| - a);
  }

  /** Where two recurrences of equal length first differ, their difference, rescaled, is a shorter one. */
  lemma Difference<T(!new)>(F: Field<T>, c: seq<T>, d: seq<T>, s: seq<T>, n: nat, a: nat) returns (g: seq<T>)
    requires IsField(F)
    requires n < |s| && Recurrence(F, c, s, n) && Recurrence(F, d, s, n) && |c| == |d|
    requires 1 <= a < |c| <= n + 1 && c[..a] == d[..a] && c[a] != d[a]
    ensures |g| == |c| - a && Recurrence(F, g, s, n - a)
  {
    hide Conv, IsField, Quotient;
    var q := F.add(c[a], d[a]);
    QuotientLeads(F, c, d, a);
    var p := Quotient(F, c, d, q, a);
    forall i | 0 <= i < |c|
      ensures d[i] == if i < a then c[i] else F.add(c[i], F.mul(q, p[i - a]))
    {
      if i < a {
        assert c[i] == c[..a][i] == d[..a][i];
      } else {
        QuotientRestores(F, c, d, q, a, i);
      }
    }
    g := p[..|c| - a];
    forall j | |g| <= j <= n - a
      ensures Vanishes(F, g, s, j)
    {
      assert Vanishes(F, c, s, j + a) && Vanishes(F, d, s, j + a);
      QuotientVanishes(F, c, d, p, q, a, s, j + a);
    }
  }

  lemma {:induction false} FirstDifference<T(!new)>(c: seq<T>, d: seq<T>) returns (a: nat)
    requires |c| == |d| && c != d
    ensures a < |c| && c[..a] == d[..a] && c[a] != d[a]
  {
    if c[0] != d[0] {
      a := 0;
    } else {
      assert c == [c[0]] + c[1..] && d == [d[0]] + d[1..];
      a := FirstDifference(c[1..], d[1..]);
      a := a + 1;
      assert c[..a] == [c[0]] + c[1..][..a - 1] && d[..a] == [d[0]] + d[1..][..a - 1];
    }
  }

  /** A shortest recurrence for s[1..n] of length at most n / 2 is the only shortest one. */
  lemma ShortestIsUnique<T(!new)>(F: Field<T>, c: seq<T>, d: seq<T>, s: seq<T>, n: nat)
    requires IsField(F)
    requires n < |s| && Shortest(F, c, s, n) && Shortest(F, d, s, n)
    requires 2 * (|c| - 1) <= n
    ensures c == d
  {
    assert |c| == |d|;
    if c != d {
      var a := FirstDifference(c, d);
      var g := Difference(F, c, d, s, n, a);
      Continues(F, c, g, s, n - a, n);
      assert false;
    }
  }
}
