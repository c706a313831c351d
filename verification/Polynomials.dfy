/**
  Polynomials with the leading coefficient first, their roots, and weighted sums of
  powers of distinct field elements.
 */
module Polynomials {
  import opened FieldTheory
  import opened LinearRecurrence

  /** c[0] y^(|c|-1) + ... + c[|c|-1] */
  ghost function Eval<T(!new)>(F: Field<T>, c: seq<T>, y: T): T {
    if |c| == 0 then F.zero else F.add(F.mul(y, Eval(F, c[..|c| - 1], y)), c[|c| - 1])
  }

  ghost predicate Distinct<T(!new)>(xs: seq<T>) {
    forall i, j :: 0 <= i < j < |xs| ==> xs[i] != xs[j]
  }

  ghost predicate AllRoots<T(!new)>(F: Field<T>, c: seq<T>, xs: seq<T>) {
    forall i :: 0 <= i < |xs| ==> Eval(F, c, xs[i]) == F.zero
  }

  // ---------- Linear factors ----------

  /** q (y + x), for q with the leading coefficient first. */
  ghost function MulLinear<T(!new)>(F: Field<T>, q: seq<T>, x: T): (c: seq<T>)
    ensures |c| == |q| + 1
  {
    seq(|q| + 1, i requires 0 <= i <= |q| =>
      F.add(if i < |q| then q[i] else F.zero, if i > 0 then F.mul(x, q[i - 1]) else F.zero))
  }

  /** The product of (y + x) over the elements x of xs. */
  ghost function Product<T(!new)>(F: Field<T>, xs: seq<T>): (c: seq<T>)
    ensures |c| == |xs| + 1
  {
    if |xs| == 0 then [F.one] else MulLinear(F, Product(F, xs[..|xs| - 1]), xs[|xs| - 1])
  }

  /** The values of the prefixes of c at x: the quotient of c by y + x. */
  ghost function Divide<T(!new)>(F: Field<T>, c: seq<T>, x: T): (q: seq<T>)
    requires |c| >= 1
    ensures |q| == |c| - 1
  {
    seq(|c| - 1, i requires 0 <= i < |c| - 1 => Eval(F, c[..i + 1], x))
  }

  lemma {:induction false} EvalMulLinear<T(!new)>(F: Field<T>, q: seq<T>, x: T, y: T)
    requires IsField(F)
    ensures Eval(F, MulLinear(F, q, x), y) == F.mul(F.add(y, x), Eval(F, q, y))
  {
    var c := MulLinear(F, q, x);
    if |q| == 0 {
      assert c[..0] == [];
      assert Eval(F, c, y) == F.add(F.mul(y, Eval(F, c[..0], y)), c[0]);
      MulZero(F, y);
      MulZero(F, F.add(y, x));
      AddZero(F, F.zero);
    } else {
      // c = (q' y + last) (y + x): all but the last coefficient of c is q' (y + x) with last added.
      var k := |q| - 1;
      var r := q[..k];
      var a := q[k];
      var d := MulLinear(F, r, x);
      EvalMulLinear(F, r, x, y);
      assert c[..|q|][..k] == d[..k];
      EvalLast(F, c[..|q|], y);
      EvalLast(F, d, y);
      EvalLast(F, c, y);
      var e := Eval(F, d[..k], y);
      var ye := F.mul(y, e);
      var t := if k > 0 then F.mul(x, r[k - 1]) else F.zero;
      AddZero(F, t);
      assert d[k] == t;
      assert c[k] == F.add(a, t);
      AddZero(F, F.mul(x, a));
      assert c[|q|] == F.mul(x, a);
      // Eval(c[..|q|]) = Eval(d) + a
      assert Laws(F, a, t, t);
      assert Laws(F, ye, t, a);
      assert Eval(F, c[..|q|], y) == F.add(Eval(F, d, y), a);
      var p := Eval(F, r, y);
      var yx := F.add(y, x);
      calc {
        Eval(F, c, y);
        F.add(F.mul(y, F.add(F.mul(yx, p), a)), F.mul(x, a));
        { assert Laws(F, y, F.mul(yx, p), a); }
        F.add(F.add(F.mul(y, F.mul(yx, p)), F.mul(y, a)), F.mul(x, a));
        { assert Laws(F, F.mul(y, F.mul(yx, p)), F.mul(y, a), F.mul(x, a)); }
        F.add(F.mul(y, F.mul(yx, p)), F.add(F.mul(y, a), F.mul(x, a)));
        { assert Laws(F, a, y, x); assert Laws(F, y, a, a); assert Laws(F, x, a, a); assert Laws(F, yx, a, a); }
        F.add(F.mul(y, F.mul(yx, p)), F.mul(yx, a));
        { assert Laws(F, y, yx, p); assert Laws(F, yx, y, p); }
        F.add(F.mul(yx, F.mul(y, p)), F.mul(yx, a));
        { assert Laws(F, yx, F.mul(y, p), a); }
        F.mul(yx, F.add(F.mul(y, p), a));
        F.mul(yx, Eval(F, q, y));
      }
    }
  }

  lemma EvalLast<T(!new)>(F: Field<T>, c: seq<T>, y: T)
    requires |c| >= 1
    ensures Eval(F, c, y) == F.add(F.mul(y, Eval(F, c[..|c| - 1], y)), c[|c| - 1])
  {}

  /** Synthetic division: a polynomial with root x is (y + x) times its quotient. */
  lemma DivideExact<T(!new)>(F: Field<T>, c: seq<T>, x: T)
    requires IsField(F) && |c| >= 1 && Eval(F, c, x) == F.zero
    ensures c == MulLinear(F, Divide(F, c, x), x)
  {
    var q := Divide(F, c, x);
    var r := MulLinear(F, q, x);
    forall i | 0 <= i < |c|
      ensures c[i] == r[i]
    {
      assert c[..i + 1][..i] == c[..i];
      EvalLast(F, c[..i + 1], x);
      var e, xe := Eval(F, c[..i], x), F.mul(x, Eval(F, c[..i], x));
      var f := Eval(F, c[..i + 1], x);
      assert f == F.add(xe, c[i]);
      assert r[i] == F.add(f, xe) by {
        if i == |c| - 1 {
          assert c[..i + 1] == c;
        }
        if i == 0 {
          MulZero(F, x);
        }
      }
      assert Laws(F, xe, c[i], xe);
      assert Laws(F, c[i], xe, xe);
      assert Laws(F, c[i], F.add(xe, xe), xe);
      AddZero(F, c[i]);
    }
  }

  lemma DivideLeads<T(!new)>(F: Field<T>, c: seq<T>, x: T)
    requires IsField(F) && |c| >= 2 && c[0] == F.one
    ensures Divide(F, c, x)[0] == F.one
  {
    assert c[..1] == [F.one];
    EvalLast(F, [F.one], x);
    assert [F.one][..0] == [];
    MulZero(F, x);
    AddZero(F, F.one);
  }

  /** A monic polynomial has at most as many roots as its degree, and with exactly that many it is their product. */
  lemma {:induction false} RootBound<T(!new)>(F: Field<T>, c: seq<T>, xs: seq<T>)
    requires IsField(F) && |c| >= 1 && c[0] == F.one
    requires Distinct(xs) && AllRoots(F, c, xs)
    ensures |xs| <= |c| - 1
    ensures |xs| == |c| - 1 ==> c == Product(F, xs)
    decreases |xs|
  {
    if |xs| == 0 {
      if |c| == 1 {
        assert c == [F.one];
      }
    } else {
      var k := |xs| - 1;
      var x := xs[k];
      assert Eval(F, c, x) == F.zero;
      if |c| == 1 {
        assert Laws(F, x, x, x);
        assert c[..0] == [];
        EvalLast(F, c, x);
        MulZero(F, x);
        AddZero(F, F.one);
        assert false;
      } else {
        var q := Divide(F, c, x);
        DivideExact(F, c, x);
        DivideLeads(F, c, x);
        forall i | 0 <= i < k
          ensures Eval(F, q, xs[..k][i]) == F.zero
        {
          var y := xs[i];
          assert Eval(F, c, y) == F.zero && y != x;
          EvalMulLinear(F, q, x, y);
          SumIsZero(F, y, x);
          NoZeroDivisors(F, F.add(y, x), Eval(F, q, y));
        }
        RootBound(F, q, xs[..k]);
      }
    }
  }

  lemma {:induction false} ProductLeads<T(!new)>(F: Field<T>, xs: seq<T>)
    requires IsField(F)
    ensures Product(F, xs)[0] == F.one
  {
    if |xs| > 0 {
      ProductLeads(F, xs[..|xs| - 1]);
      AddZero(F, F.one);
    }
  }

  /** The roots of the product are exactly the elements of xs. */
  lemma {:induction false} ProductRoots<T(!new)>(F: Field<T>, xs: seq<T>, y: T)
    requires IsField(F)
    ensures Eval(F, Product(F, xs), y) == F.zero <==> y in xs
  {
    if |xs| == 0 {
      EvalLast(F, [F.one], y);
      assert [F.one][..0] == [];
      MulZero(F, y);
      AddZero(F, F.one);
      assert Laws(F, y, y, y);
    } else {
      var k := |xs| - 1;
      var q := Product(F, xs[..k]);
      ProductRoots(F, xs[..k], y);
      EvalMulLinear(F, q, xs[k], y);
      SumIsZero(F, y, xs[k]);
      NoZeroDivisors(F, F.add(y, xs[k]), Eval(F, q, y));
      assert xs == xs[..k] + [xs[k]];
    }
  }

  /** The constant coefficient of the product is the product of xs, so it is nonzero when they are. */
  lemma {:induction false} ProductLast<T(!new)>(F: Field<T>, xs: seq<T>)
    requires IsField(F) && F.zero !in xs
    ensures Product(F, xs)[|xs|] != F.zero
  {
    if |xs| == 0 {
      assert Laws(F, F.one, F.one, F.one);
    } else {
      var k := |xs| - 1;
      ProductLast(F, xs[..k]);
      var p := Product(F, xs[..k])[k];
      NoZeroDivisors(F, xs[k], p);
      AddZero(F, F.mul(xs[k], p));
    }
  }

  // ---------- Power sums ----------

  /** ws[0] xs[0]^a + ws[1] xs[1]^a + ... */
  ghost function PowerSum<T(!new)>(F: Field<T>, xs: seq<T>, ws: seq<T>, a: nat): T
    requires |xs| == |ws|
  {
    if |xs| == 0 then F.zero
    else
      var k := |xs| - 1;
      F.add(PowerSum(F, xs[..k], ws[..k], a), F.mul(ws[k], Pow(F, xs[k], a)))
  }

  /** The values of c at the elements of xs. */
  ghost function Values<T(!new)>(F: Field<T>, c: seq<T>, xs: seq<T>): (ws: seq<T>)
    ensures |ws| == |xs|
  {
    seq(|xs|, i requires 0 <= i < |xs| => Eval(F, c, xs[i]))
  }

  ghost function Ones<T(!new)>(F: Field<T>, n: nat): (ws: seq<T>)
    ensures |ws| == n
  {
    seq(n, i => F.one)
  }

  /** Reading one more coefficient of c: the values move up one power and the coefficient joins in. */
  lemma {:induction false} PowerSumHorner<T(!new)>(F: Field<T>, xs: seq<T>, c: seq<T>, a: nat)
    requires IsField(F) && |c| >= 1
    ensures PowerSum(F, xs, Values(F, c, xs), a) ==
            F.add(PowerSum(F, xs, Values(F, c[..|c| - 1], xs), a + 1),
                  F.mul(c[|c| - 1], PowerSum(F, xs, Ones(F, |xs|), a)))
  {
    var b := c[|c| - 1];
    var d := c[..|c| - 1];
    if |xs| == 0 {
      MulZero(F, b);
      AddZero(F, F.zero);
    } else {
      var k := |xs| - 1;
      var x, ys := xs[k], xs[..k];
      assert Values(F, c, xs)[..k] == Values(F, c, ys);
      assert Values(F, d, xs)[..k] == Values(F, d, ys);
      assert Ones(F, |xs|)[..k] == Ones(F, k);
      PowerSumHorner(F, ys, c, a);
      var e, p := Eval(F, d, x), Pow(F, x, a);
      EvalLast(F, c, x);
      assert F.mul(Eval(F, c, x), p) == F.add(F.mul(e, F.mul(x, p)), F.mul(b, p)) by {
        assert Laws(F, p, F.mul(x, e), b);
        assert Laws(F, F.add(F.mul(x, e), b), p, p);
        assert Laws(F, b, p, p);
        assert Laws(F, x, e, e);
        assert Laws(F, e, x, p);
        assert Laws(F, F.mul(e, x), p, p);
      }
      var s1 := PowerSum(F, ys, Values(F, d, ys), a + 1);
      var s2 := PowerSum(F, ys, Ones(F, k), a);
      MulZero(F, p);
      assert Laws(F, b, s2, p);
      Swap4(F, s1, F.mul(b, s2), F.mul(e, F.mul(x, p)), F.mul(b, p));
    }
  }

  ghost predicate IsPowerSums<T(!new)>(F: Field<T>, xs: seq<T>, s: seq<T>) {
    forall j :: 1 <= j < |s| ==> s[j] == PowerSum(F, xs, Ones(F, |xs|), j)
  }

  /** Convolving c with power sums gives the power sum weighted with the values of c. */
  lemma {:induction false} ConvPowerSum<T(!new)>(F: Field<T>, xs: seq<T>, s: seq<T>, c: seq<T>, j: nat, k: nat)
    requires IsField(F) && IsPowerSums(F, xs, s)
    requires k <= |c| && k <= j < |s|
    ensures Conv(F, c, s, j, k) == PowerSum(F, xs, Values(F, c[..k], xs), j + 1 - k)
  {
    if k == 0 {
      ZeroWeights(F, xs, Values(F, c[..0], xs), j + 1);
    } else {
      ConvPowerSum(F, xs, s, c, j, k - 1);
      assert c[..k][..k - 1] == c[..k - 1];
      PowerSumHorner(F, xs, c[..k], j + 1 - k);
    }
  }

  lemma {:induction false} ZeroWeights<T(!new)>(F: Field<T>, xs: seq<T>, ws: seq<T>, a: nat)
    requires IsField(F) && |xs| == |ws|
    requires forall i :: 0 <= i < |ws| ==> ws[i] == F.zero
    ensures PowerSum(F, xs, ws, a) == F.zero
  {
    if |xs| > 0 {
      var k := |xs| - 1;
      ZeroWeights(F, xs[..k], ws[..k], a);
      MulZero(F, Pow(F, xs[k], a));
      AddZero(F, F.zero);
    }
  }

  /** ws[i] (xs[i] + x) */
  ghost function Reweigh<T(!new)>(F: Field<T>, xs: seq<T>, ws: seq<T>, x: T): (vs: seq<T>)
    requires |xs| == |ws|
    ensures |vs| == |xs|
  {
    seq(|xs|, i requires 0 <= i < |xs| => F.mul(ws[i], F.add(xs[i], x)))
  }

  lemma {:induction false} ReweighSum<T(!new)>(F: Field<T>, xs: seq<T>, ws: seq<T>, x: T, a: nat)
    requires IsField(F) && |xs| == |ws|
    ensures PowerSum(F, xs, Reweigh(F, xs, ws, x), a) ==
            F.add(PowerSum(F, xs, ws, a + 1), F.mul(x, PowerSum(F, xs, ws, a)))
  {
    if |xs| == 0 {
      MulZero(F, x);
      AddZero(F, F.zero);
    } else {
      var k := |xs| - 1;
      var y, ys, w, vs := xs[k], xs[..k], ws[k], ws[..k];
      assert Reweigh(F, xs, ws, x)[..k] == Reweigh(F, ys, vs, x);
      ReweighSum(F, ys, vs, x, a);
      var p := Pow(F, y, a);
      assert F.mul(F.mul(w, F.add(y, x)), p) == F.add(F.mul(w, F.mul(y, p)), F.mul(x, F.mul(w, p))) by {
        assert Laws(F, w, F.add(y, x), p);
        assert Laws(F, p, y, x);
        assert Laws(F, F.add(y, x), p, p);
        assert Laws(F, y, p, p);
        assert Laws(F, x, p, p);
        assert Laws(F, w, F.mul(y, p), F.mul(x, p));
        assert Laws(F, w, x, p);
        assert Laws(F, x, w, p);
      }
      var s1, s0 := PowerSum(F, ys, vs, a + 1), PowerSum(F, ys, vs, a);
      assert Laws(F, x, s0, F.mul(w, p));
      Swap4(F, s1, F.mul(x, s0), F.mul(w, F.mul(y, p)), F.mul(x, F.mul(w, p)));
    }
  }

  /** Vandermonde: |xs| consecutive vanishing power sums at distinct nonzero points have only zero weights. */
  lemma {:induction false} Vandermonde<T(!new)>(F: Field<T>, xs: seq<T>, ws: seq<T>, a: nat)
    requires IsField(F) && |xs| == |ws| && Distinct(xs) && F.zero !in xs
    requires forall j :: a <= j < a + |xs| ==> PowerSum(F, xs, ws, j) == F.zero
    ensures forall i :: 0 <= i < |ws| ==> ws[i] == F.zero
    decreases |xs|
  {
    if |xs| > 0 {
      var k := |xs| - 1;
      var x, ys, vs := xs[k], xs[..k], ws[..k];
      var us := Reweigh(F, ys, vs, x);
      forall j | a <= j < a + k
        ensures PowerSum(F, ys, us, j) == F.zero
      {
        ReweighSum(F, xs, ws, x, j);
        assert PowerSum(F, xs, ws, j + 1) == F.zero && PowerSum(F, xs, ws, j) == F.zero;
        MulZero(F, x);
        AddZero(F, F.zero);
        assert PowerSum(F, xs, Reweigh(F, xs, ws, x), j) == F.zero;
        assert Reweigh(F, xs, ws, x)[..k] == us;
        AddZero(F, x);
        MulZero(F, ws[k]);
        MulZero(F, Pow(F, x, j));
        AddZero(F, PowerSum(F, ys, us, j));
      }
      Vandermonde(F, ys, us, a);
      forall i | 0 <= i < k
        ensures vs[i] == F.zero
      {
        assert us[i] == F.zero && xs[i] != x;
        SumIsZero(F, xs[i], x);
        NoZeroDivisors(F, vs[i], F.add(xs[i], x));
      }
      ZeroWeights(F, ys, vs, a);
      assert PowerSum(F, xs, ws, a) == F.zero;
      AddZero(F, F.mul(ws[k], Pow(F, x, a)));
      PowNonzero(F, x, a);
      NoZeroDivisors(F, ws[k], Pow(F, x, a));
    }
  }

  // ---------- The locator polynomial ----------

  /** The product over xs is a recurrence for the power sums of xs. */
  lemma ProductIsRecurrence<T(!new)>(F: Field<T>, xs: seq<T>, s: seq<T>, n: nat)
    requires IsField(F) && IsPowerSums(F, xs, s) && n < |s|
    ensures Recurrence(F, Product(F, xs), s, n)
  {
    var c := Product(F, xs);
    ProductLeads(F, xs);
    forall j | |c| <= j <= n
      ensures Vanishes(F, c, s, j)
    {
      ConvPowerSum(F, xs, s, c, j, |c|);
      assert c[..|c|] == c;
      forall i | 0 <= i < |xs|
        ensures Values(F, c, xs)[i] == F.zero
      {
        ProductRoots(F, xs, xs[i]);
      }
      ZeroWeights(F, xs, Values(F, c, xs), j + 1 - |c|);
    }
  }

  /** A recurrence that holds for long enough has every element of xs as a root. */
  lemma RecurrenceHasRoots<T(!new)>(F: Field<T>, xs: seq<T>, s: seq<T>, n: nat, c: seq<T>)
    requires IsField(F) && IsPowerSums(F, xs, s) && n < |s|
    requires Distinct(xs) && F.zero !in xs
    requires Recurrence(F, c, s, n) && (|c| - 1) + |xs| <= n
    ensures AllRoots(F, c, xs)
  {
    var ws := Values(F, c, xs);
    forall j | 1 <= j < 1 + |xs|
      ensures PowerSum(F, xs, ws, j) == F.zero
    {
      ConvPowerSum(F, xs, s, c, j + |c| - 1, |c|);
      assert c[..|c|] == c;
      assert Vanishes(F, c, s, j + |c| - 1);
    }
    Vandermonde(F, xs, ws, 1);
    forall i | 0 <= i < |xs|
      ensures Eval(F, c, xs[i]) == F.zero
    {
      assert ws[i] == F.zero;
    }
  }

  /** The shortest recurrence for 2t power sums of at most t distinct nonzero elements is their product. */
  lemma ShortestIsProduct<T(!new)>(F: Field<T>, xs: seq<T>, s: seq<T>, n: nat, c: seq<T>)
    requires IsField(F) && IsPowerSums(F, xs, s) && n < |s|
    requires Distinct(xs) && F.zero !in xs && 2 * |xs| <= n
    requires Shortest(F, c, s, n)
    ensures c == Product(F, xs)
  {
    ProductIsRecurrence(F, xs, s, n);
    RecurrenceHasRoots(F, xs, s, n, c);
    RootBound(F, c, xs);
  }

  lemma ProductIsShortest<T(!new)>(F: Field<T>, xs: seq<T>, s: seq<T>, n: nat)
    requires IsField(F) && IsPowerSums(F, xs, s) && n < |s|
    requires Distinct(xs) && F.zero !in xs && 2 * |xs| <= n
    ensures Shortest(F, Product(F, xs), s, n)
  {
    ProductIsRecurrence(F, xs, s, n);
    forall c | Recurrence(F, c, s, n)
      ensures |c| - 1 >= |xs|
    {
      if |c| - 1 < |xs| {
        RecurrenceHasRoots(F, xs, s, n, c);
        RootBound(F, c, xs);
        assert false;
      }
    }
  }
}
