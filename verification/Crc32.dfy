/**
  CRC-32 with the generator 0x04C11DB7: the lookup table, the byte-wise computation over
  it, and what the check detects.

  Words are bit sequences, most significant bit first; a register is a word of 32 bits and
  stands for a polynomial of degree below 32.
 */
module Crc32 {
  import opened Sequences

  type Word = w: seq<bool> | |w| == 32 witness seq(32, i => false)

  type Byte = b: int | 0 <= b < 256

  function Zeros(n: nat): (z: seq<bool>)
    ensures |z| == n
  {
    seq(n, i => false)
  }

  function Ones(n: nat): (z: seq<bool>)
    ensures |z| == n
  {
    seq(n, i => true)
  }

  const ZERO: Word := Zeros(32)

  /** The initial register. */
  const ONES: Word := Ones(32)

  /** x^26 + x^23 + x^22 + x^16 + x^12 + x^11 + x^10 + x^8 + x^7 + x^5 + x^4 + x^2 + x + 1. */
  const POLY: Word := [
    false, false, false, false, false, true, false, false,
    true, true, false, false, false, false, false, true,
    false, false, false, true, true, true, false, true,
    true, false, true, true, false, true, true, true]

  function ShiftLeft(w: Word, n: nat): (r: Word)
    requires n <= 32
  {
    w[n..] + Zeros(n)
  }

  // ---------- Two readings of the check ----------

  /** Multiplication by x modulo the generator. */
  function Times(r: Word): Word {
    if r[0] then Xor(ShiftLeft(r, 1), POLY) else ShiftLeft(r, 1)
  }

  function TimesN(r: Word, n: nat): Word
    decreases n
  {
    if n == 0 then r else TimesN(Times(r), n - 1)
  }

  /** The bit-serial register: each message bit is added at the top before the shift. */
  function Register(r: Word, bits: seq<bool>): Word
    decreases |bits|
  {
    if |bits| == 0 then r else Register(Times(Xor(r, [bits[0]] + Zeros(31))), bits[1..])
  }

  /** Schoolbook division: each bit of the dividend is brought down at the bottom. */
  function Remainder(bits: seq<bool>): Word {
    var n := |bits|;
    if n == 0 then ZERO else Xor(Times(Remainder(bits[..n - 1])), Zeros(31) + [bits[n - 1]])
  }

  // ---------- Sums ----------

  lemma XorComm(a: seq<bool>, b: seq<bool>)
    requires |a| == |b|
    ensures Xor(a, b) == Xor(b, a)
  {}

  lemma XorAssoc(a: seq<bool>, b: seq<bool>, c: seq<bool>)
    requires |a| == |b| == |c|
    ensures Xor(Xor(a, b), c) == Xor(a, Xor(b, c))
  {}

  lemma XorUnits(a: seq<bool>)
    ensures Xor(a, a) == Zeros(|a|) && Xor(a, Zeros(|a|)) == a && Xor(Zeros(|a|), a) == a
  {}

  lemma XorCancels(a: seq<bool>, b: seq<bool>, c: seq<bool>)
    requires |a| == |b| == |c|
    ensures Xor(a, b) == Xor(a, c) <==> b == c
  {
    if Xor(a, b) == Xor(a, c) {
      forall i | 0 <= i < |a|
        ensures b[i] == c[i]
      {
        assert Xor(a, b)[i] == Xor(a, c)[i];
      }
    }
  }

  lemma XorConcat(a: seq<bool>, b: seq<bool>, c: seq<bool>, d: seq<bool>)
    requires |a| == |c| && |b| == |d|
    ensures Xor(a + b, c + d) == Xor(a, c) + Xor(b, d)
  {}

  lemma XorSwap(a: seq<bool>, b: seq<bool>, c: seq<bool>, d: seq<bool>)
    requires |a| == |b| == |c| == |d|
    ensures Xor(Xor(a, b), Xor(c, d)) == Xor(Xor(a, c), Xor(b, d))
  {}

  lemma ZerosAdd(m: nat, n: nat)
    ensures Zeros(m) + Zeros(n) == Zeros(m + n)
  {}

  // ---------- Multiplication by x is linear and loses nothing ----------

  lemma ShiftLinear(a: Word, b: Word)
    ensures ShiftLeft(Xor(a, b), 1) == Xor(ShiftLeft(a, 1), ShiftLeft(b, 1))
  {}

  lemma TimesLinear(a: Word, b: Word)
    ensures Times(Xor(a, b)) == Xor(Times(a), Times(b))
  {
    var x, y, z := ShiftLeft(a, 1), ShiftLeft(b, 1), ShiftLeft(Xor(a, b), 1);
    ShiftLinear(a, b);
    assert Xor(a, b)[0] == (a[0] != b[0]);
    hide ShiftLeft;
    XorSwap(x, POLY, y, POLY);
    XorSwap(x, POLY, y, ZERO);
    XorSwap(x, ZERO, y, POLY);
    XorUnits(POLY);
    XorUnits(x);
    XorUnits(y);
    XorUnits(z);
  }

  lemma TimesInjective(a: Word, b: Word)
    requires Times(a) == Times(b)
    ensures a == b
  {
    assert Times(a)[31] == a[0] && Times(b)[31] == b[0];
    assert ShiftLeft(a, 1) == ShiftLeft(b, 1) by {
      XorComm(ShiftLeft(a, 1), POLY);
      XorComm(ShiftLeft(b, 1), POLY);
      XorCancels(POLY, ShiftLeft(a, 1), ShiftLeft(b, 1));
    }
    forall i | 0 <= i < 32
      ensures a[i] == b[i]
    {
      if i > 0 {
        assert ShiftLeft(a, 1)[i - 1] == a[i] && ShiftLeft(b, 1)[i - 1] == b[i];
      }
    }
  }

  lemma TimesNoCarry(w: seq<bool>)
    requires |w| == 31
    ensures Times([false] + w) == w + [false]
  {
    assert ([false] + w)[1..] == w;
    assert Zeros(1) == [false];
  }

  lemma {:induction false} TimesNLinear(a: Word, b: Word, n: nat)
    ensures TimesN(Xor(a, b), n) == Xor(TimesN(a, n), TimesN(b, n))
    decreases n
  {
    hide Xor, Times;
    if n > 0 {
      TimesLinear(a, b);
      TimesNLinear(Times(a), Times(b), n - 1);
    }
  }

  lemma {:induction false} TimesNInjective(a: Word, b: Word, n: nat)
    requires TimesN(a, n) == TimesN(b, n)
    ensures a == b
    decreases n
  {
    hide Times;
    if n > 0 {
      TimesNInjective(Times(a), Times(b), n - 1);
      TimesInjective(a, b);
    }
  }

  lemma TimesNFirst(a: Word, n: nat)
    ensures TimesN(a, n + 1) == TimesN(Times(a), n)
  {}

  lemma {:induction false} TimesNNext(a: Word, n: nat)
    ensures TimesN(a, n + 1) == Times(TimesN(a, n))
    decreases n
  {
    hide Times;
    if n > 0 {
      TimesNNext(Times(a), n - 1);
    }
  }

  // ---------- The register over pieces of a message ----------

  lemma {:induction false} RegisterConcat(r: Word, a: seq<bool>, b: seq<bool>)
    ensures Register(r, a + b) == Register(Register(r, a), b)
    decreases |a|
  {
    hide Times, Xor;
    if |a| == 0 {
      assert a + b == b;
    } else {
      assert (a + b)[1..] == a[1..] + b;
      RegisterConcat(Times(Xor(r, [a[0]] + Zeros(31))), a[1..], b);
    }
  }

  lemma {:induction false} RegisterInjective(r: Word, s: Word, bits: seq<bool>)
    requires Register(r, bits) == Register(s, bits)
    ensures r == s
    decreases |bits|
  {
    hide Times, Xor;
    if |bits| > 0 {
      var h := [bits[0]] + Zeros(31);
      RegisterInjective(Times(Xor(r, h)), Times(Xor(s, h)), bits[1..]);
      TimesInjective(Xor(r, h), Xor(s, h));
      XorComm(r, h);
      XorComm(s, h);
      XorCancels(h, r, s);
    }
  }

  lemma RegisterFirst(r: Word, w: seq<bool>)
    requires |w| > 0
    ensures Register(r, w) == Register(Times(Xor(r, [w[0]] + Zeros(31))), w[1..])
  {}

  lemma FirstBit(w: seq<bool>, n: nat)
    requires |w| > 0 && |w| + n == 32
    ensures Xor([w[0]] + Zeros(31), [false] + (w[1..] + Zeros(n))) == w + Zeros(n)
    ensures w[1..] + Zeros(n) + [false] == w[1..] + Zeros(n + 1)
  {}

  /** Up to 32 message bits enter the register as one word. */
  lemma {:induction false} RegisterLeading(r: Word, w: seq<bool>)
    requires |w| <= 32
    ensures Register(r, w) == TimesN(Xor(r, w + Zeros(32 - |w|)), |w|)
    decreases |w|
  {
    hide Times, Xor, Register;
    if |w| == 0 {
      assert w + Zeros(32) == Zeros(32);
      XorUnits(r);
      RegisterEmpty(r, w);
    } else {
      var t, n := w[1..], 32 - |w|;
      var h, u := [w[0]] + Zeros(31), t + Zeros(n);
      var next := Times(Xor(r, h));
      RegisterFirst(r, w);
      RegisterLeading(next, t);
      TimesNoCarry(u);
      FirstBit(w, n);
      XorAssoc(r, h, [false] + u);
      TimesLinear(Xor(r, h), [false] + u);
    }
  }

  // ---------- What the check detects ----------

  /** A message followed by a word leaves a zero register exactly when the word is the message's check. */
  lemma ResidueIsZero(r: Word, message: seq<bool>, check: Word)
    ensures Register(r, message + check) == ZERO <==> check == Register(r, message)
  {
    hide Xor, Times, Register, TimesN;
    var c := Register(r, message);
    RegisterConcat(r, message, check);
    RegisterLeading(c, check);
    assert check + Zeros(0) == check;
    XorUnits(c);
    XorCancels(c, c, check);
    TimesNZero(32);
    if TimesN(Xor(c, check), 32) == ZERO {
      TimesNInjective(Xor(c, check), ZERO, 32);
    }
  }

  lemma {:induction false} TimesNZero(n: nat)
    ensures TimesN(ZERO, n) == ZERO
  {
    if n > 0 {
      assert Times(ZERO) == ZERO;
      TimesNZero(n - 1);
    }
  }

  /** Two messages that differ only inside one window of at most 32 bits never share a register. */
  lemma BurstDetected(r: Word, pre: seq<bool>, w: seq<bool>, v: seq<bool>, post: seq<bool>)
    requires |w| == |v| <= 32 && w != v
    ensures Register(r, pre + w + post) != Register(r, pre + v + post)
  {
    hide Xor, Times, Register, TimesN;
    var s, z := Register(r, pre), Zeros(32 - |w|);
    RegisterConcat(r, pre + w, post);
    RegisterConcat(r, pre, w);
    RegisterConcat(r, pre + v, post);
    RegisterConcat(r, pre, v);
    RegisterLeading(s, w);
    RegisterLeading(s, v);
    assert (w + z)[..|w|] == w && (v + z)[..|v|] == v;
    if Register(r, pre + w + post) == Register(r, pre + v + post) {
      RegisterInjective(Register(s, w), Register(s, v), post);
      TimesNInjective(Xor(s, w + z), Xor(s, v + z), |w|);
      XorCancels(s, w + z, v + z);
    }
  }

  /** Bits a to a + 31 are the only ones that may differ. */
  ghost predicate AgreeOutside(x: seq<bool>, y: seq<bool>, a: nat) {
    |x| == |y| && forall i :: 0 <= i < |x| && !(a <= i < a + 32) ==> x[i] == y[i]
  }

  lemma WindowDetected(r: Word, x: seq<bool>, y: seq<bool>, a: nat)
    requires AgreeOutside(x, y, a) && x != y
    ensures Register(r, x) != Register(r, y)
  {
    hide Register;
    var lo, hi := if a < |x| then a else |x|, if a + 32 < |x| then a + 32 else |x|;
    assert x == x[..lo] + x[lo..hi] + x[hi..];
    assert y == x[..lo] + y[lo..hi] + x[hi..];
    BurstDetected(r, x[..lo], x[lo..hi], y[lo..hi], x[hi..]);
  }

  // ---------- The register is the remainder of a division ----------

  lemma RemainderStep(bits: seq<bool>, b: bool)
    ensures Remainder(bits + [b]) == Xor(Times(Remainder(bits)), Zeros(31) + [b])
  {
    assert (bits + [b])[..|bits|] == bits;
  }

  lemma {:induction false} RemainderLinear(a: seq<bool>, b: seq<bool>)
    requires |a| == |b|
    ensures Remainder(Xor(a, b)) == Xor(Remainder(a), Remainder(b))
    decreases |a|
  {
    hide Times, Xor, Remainder;
    var n := |a|;
    if n == 0 {
      assert Remainder([]) == ZERO by {
        ShortDividend([]);
        assert Zeros(32) + [] == ZERO;
      }
      XorUnits(ZERO);
      assert a == b == Xor(a, b) == [];
    } else {
      var p, q, c, d := a[..n - 1], b[..n - 1], a[n - 1], b[n - 1];
      assert a == p + [c] && b == q + [d];
      XorLast(p, q, c, d);
      RemainderStep(p, c);
      RemainderStep(q, d);
      RemainderStep(Xor(p, q), c != d);
      RemainderLinear(p, q);
      TimesLinear(Remainder(p), Remainder(q));
      XorSwap(Times(Remainder(p)), Times(Remainder(q)), Zeros(31) + [c], Zeros(31) + [d]);
    }
  }

  lemma XorLast(p: seq<bool>, q: seq<bool>, c: bool, d: bool)
    requires |p| == |q|
    ensures Xor(p + [c], q + [d]) == Xor(p, q) + [c != d]
    ensures Xor(Zeros(31) + [c], Zeros(31) + [d]) == Zeros(31) + [c != d]
  {}

  lemma {:induction false} RemainderZeros(bits: seq<bool>, n: nat)
    ensures Remainder(bits + Zeros(n)) == TimesN(Remainder(bits), n)
  {
    hide Times, Xor;
    if n == 0 {
      assert bits + Zeros(0) == bits;
    } else {
      RemainderZeros(bits, n - 1);
      assert bits + Zeros(n) == bits + Zeros(n - 1) + [false];
      RemainderStep(bits + Zeros(n - 1), false);
      TimesNNext(Remainder(bits), n - 1);
      assert Zeros(31) + [false] == Zeros(32);
      XorUnits(TimesN(Remainder(bits), n));
    }
  }

  lemma {:induction false} LeadingZeros(k: nat, w: seq<bool>)
    requires k + |w| == 32
    ensures TimesN(Zeros(k) + w, k) == w + Zeros(k)
    decreases k
  {
    if k == 0 {
      assert Zeros(0) + w == w == w + Zeros(0);
    } else {
      assert Zeros(k) + w == [false] + (Zeros(k - 1) + w);
      TimesNoCarry(Zeros(k - 1) + w);
      assert Zeros(k - 1) + w + [false] == Zeros(k - 1) + (w + [false]);
      LeadingZeros(k - 1, w + [false]);
      assert w + [false] + Zeros(k - 1) == w + Zeros(k);
    }
  }

  lemma RemainderEmpty(w: seq<bool>)
    requires |w| == 0
    ensures Remainder(w) == ZERO
  {}

  /** A dividend of at most 32 bits is its own remainder. */
  lemma {:induction false} ShortDividend(w: seq<bool>)
    requires |w| <= 32
    ensures Remainder(w) == Zeros(32 - |w|) + w
    decreases |w|
  {
    hide Times, Xor, Remainder;
    if |w| == 0 {
      RemainderEmpty(w);
      assert Zeros(32) + w == ZERO;
    } else {
      var t, b := w[..|w| - 1], w[|w| - 1];
      assert w == t + [b];
      RemainderStep(t, b);
      ShortDividend(t);
      ShortStep(t, b);
    }
  }

  lemma ShortStep(t: seq<bool>, b: bool)
    requires |t| < 32
    ensures Xor(Times(Zeros(32 - |t|) + t), Zeros(31) + [b]) == Zeros(31 - |t|) + (t + [b])
  {
    hide Times;
    var z := Zeros(31 - |t|);
    assert Zeros(32 - |t|) + t == [false] + (z + t);
    TimesNoCarry(z + t);
  }

  /** From a zero register the check is the remainder of the message followed by 32 zeros. */
  lemma {:induction false} RegisterDivides(m: seq<bool>)
    ensures Register(ZERO, m) == Remainder(m + Zeros(32))
    decreases |m|
  {
    hide Times, Xor, Register, Remainder, TimesN;
    RemainderZeros(m, 32);
    var n := |m|;
    if n == 0 {
      RegisterEmpty(ZERO, m);
      TimesNZero(32);
      ShortDividend(m);
      assert Zeros(32) + m == ZERO;
    } else {
      var p, b := m[..n - 1], m[n - 1];
      var h, low := [b] + Zeros(31), Zeros(31) + [b];
      RegisterDivides(p);
      RemainderZeros(p, 32);
      assert m == p + [b];
      RemainderStep(p, b);
      TimesNFirst(Remainder(p), 32);
      TimesNFirst(low, 31);
      RegisterConcat(ZERO, p, [b]);
      RegisterOne(Register(ZERO, p), b);
      TimesLinear(Register(ZERO, p), h);
      TimesNLinear(Times(Remainder(p)), low, 32);
      TimesNNext(Remainder(p), 32);
      LeadingZeros(31, [b]);
      TimesNNext(low, 31);
    }
  }

  lemma RegisterEmpty(r: Word, m: seq<bool>)
    requires |m| == 0
    ensures Register(r, m) == r
  {}

  lemma RegisterOne(r: Word, b: bool)
    ensures Register(r, [b]) == Times(Xor(r, [b] + Zeros(31)))
  {
    hide Times, Xor;
    RegisterEmpty(Times(Xor(r, [b] + Zeros(31))), [b][1..]);
  }

  lemma {:induction false} RegisterLinear(r: Word, m: seq<bool>)
    ensures Register(r, m) == Xor(TimesN(r, |m|), Register(ZERO, m))
    decreases |m|
  {
    hide Times, Xor, Register;
    if |m| == 0 {
      RegisterEmpty(r, m);
      RegisterEmpty(ZERO, m);
      XorUnits(r);
    } else {
      var h, t := [m[0]] + Zeros(31), m[1..];
      RegisterFirst(r, m);
      RegisterFirst(ZERO, m);
      RegisterLinear(Times(Xor(r, h)), t);
      RegisterLinear(Times(Xor(ZERO, h)), t);
      XorUnits(h);
      TimesLinear(r, h);
      TimesNLinear(Times(r), Times(h), |t|);
      XorAssoc(TimesN(Times(r), |t|), TimesN(Times(h), |t|), Register(ZERO, t));
    }
  }

  /** What is divided: the message times x^32, with the initial register added to its first 32 bits. */
  function Dividend(r: Word, m: seq<bool>): seq<bool> {
    Xor(m + Zeros(32), r + Zeros(|m|))
  }

  lemma CheckIsRemainder(r: Word, m: seq<bool>)
    ensures Register(r, m) == Remainder(Dividend(r, m))
  {
    hide Times, Xor, Register, Remainder;
    RegisterLinear(r, m);
    RegisterDivides(m);
    RemainderLinear(m + Zeros(32), r + Zeros(|m|));
    RemainderZeros(r, |m|);
    ShortDividend(r);
    assert Zeros(0) + r == r;
    XorComm(TimesN(r, |m|), Register(ZERO, m));
  }

  /** The generator with its leading term. */
  function Generator(): (g: seq<bool>)
    ensures |g| == 33
  {
    [true] + POLY
  }

  /** The carry-less product of a quotient and the generator. */
  function Multiple(q: seq<bool>): (p: seq<bool>)
    ensures |p| == |q| + 32
  {
    if |q| == 0 then ZERO
    else
      var n := |q| - 1;
      Xor(Multiple(q[..n]) + [false], Zeros(n) + (if q[n] then Generator() else Zeros(33)))
  }

  lemma RemainderOfGenerator()
    ensures Remainder(Generator()) == ZERO
  {
    hide Remainder;
    var w := [true] + POLY[..31];
    assert Generator() == w + [true];
    RemainderStep(w, true);
    ShortDividend(w);
    assert Zeros(0) + w == w;
    assert ShiftLeft(w, 1) == POLY[..31] + [false];
    assert Xor(POLY[..31] + [false], POLY) == Zeros(31) + [true];
    XorUnits(Zeros(31) + [true]);
  }

  lemma {:induction false} RemainderSkipsZeros(n: nat, w: seq<bool>)
    ensures Remainder(Zeros(n) + w) == Remainder(w)
    decreases |w|
  {
    hide Times, Xor, Remainder;
    if |w| == 0 {
      assert Zeros(n) + w == w + Zeros(n);
      RemainderZeros(w, n);
      TimesNZero(n);
      ShortDividend(w);
      assert Zeros(32) + w == ZERO;
    } else {
      var t, b := w[..|w| - 1], w[|w| - 1];
      assert Zeros(n) + w == Zeros(n) + t + [b] && w == t + [b];
      RemainderSkipsZeros(n, t);
      RemainderStep(Zeros(n) + t, b);
      RemainderStep(t, b);
    }
  }

  lemma {:induction false} MultiplesDivide(q: seq<bool>)
    ensures Remainder(Multiple(q)) == ZERO
    decreases |q|
  {
    hide Times, Xor, Remainder;
    if |q| == 0 {
      ShortDividend(ZERO);
      assert Zeros(0) + ZERO == ZERO;
    } else {
      var n := |q| - 1;
      var p, last := Multiple(q[..n]), if q[n] then Generator() else Zeros(33);
      MultiplesDivide(q[..n]);
      RemainderLinear(p + [false], Zeros(n) + last);
      RemainderStep(p, false);
      TimesNZero(1);
      assert TimesN(ZERO, 1) == Times(ZERO);
      assert Zeros(31) + [false] == ZERO;
      XorUnits(ZERO);
      RemainderSkipsZeros(n, last);
      RemainderOfGenerator();
      RemainderSkipsZeros(33, []);
      assert Zeros(33) + [] == Zeros(33);
      ShortDividend([]);
      assert Zeros(32) + [] == ZERO;
    }
  }

  /** Dividend = quotient times generator plus remainder. */
  lemma {:induction false} DivisionIs(bits: seq<bool>) returns (q: seq<bool>)
    ensures |q| == |bits|
    ensures Zeros(32) + bits == Xor(Multiple(q), Zeros(|bits|) + Remainder(bits))
    decreases |bits|
  {
    hide Times, Xor, Remainder, Multiple, Generator;
    var n := |bits|;
    if n == 0 {
      q := [];
      DivisionOfNothing();
    } else {
      var p, b := bits[..n - 1], bits[n - 1];
      assert bits == p + [b];
      var q' := DivisionIs(p);
      var r := Remainder(p);
      q := q' + [r[0]];
      BringDown(r, b);
      RemainderStep(p, b);
      MultipleStep(q', r[0]);
      var g := if r[0] then Generator() else Zeros(33);
      assert Zeros(n) + Remainder(bits) == Zeros(n - 1) + ([false] + Remainder(bits));
      assert Zeros(32) + bits == Zeros(32) + p + [b];
      DivisionStep(Multiple(q'), Zeros(n - 1), r, g, [false] + Remainder(bits), b, Zeros(32) + p);
    }
  }

  lemma DivisionOfNothing()
    ensures Zeros(32) + [] == Xor(Multiple([]), Zeros(0) + Remainder([]))
  {
    XorUnits(ZERO);
    assert Zeros(0) + Remainder([]) == Remainder([]);
  }

  lemma MultipleStep(q: seq<bool>, b: bool)
    ensures Multiple(q + [b]) == Xor(Multiple(q) + [false], Zeros(|q|) + (if b then Generator() else Zeros(33)))
  {
    assert (q + [b])[..|q|] == q;
  }

  /** Removing the leading bit costs one generator. */
  lemma BringDown(r: Word, b: bool)
    ensures r + [b] == Xor(if r[0] then Generator() else Zeros(33),
                           [false] + Xor(Times(r), Zeros(31) + [b]))
  {
    assert r[1..] + Zeros(1) == ShiftLeft(r, 1);
  }

  lemma DivisionStep(m: seq<bool>, z: seq<bool>, r: seq<bool>, g: seq<bool>, s: seq<bool>, b: bool, d: seq<bool>)
    requires |r| == 32 && |g| == |s| == 33 && |m| == |z| + 32 == |d|
    requires r + [b] == Xor(g, s)
    requires d == Xor(m, z + r) && z == Zeros(|z|)
    ensures d + [b] == Xor(Xor(m + [false], z + g), z + s)
  {
    assert z + (r + [b]) == z + r + [b];
    XorUnits(z);
    XorConcat(z, g, z, s);
    XorConcat(m, [false], z + r, [b]);
    assert Xor([false], [b]) == [b];
    XorAssoc(m + [false], z + g, z + s);
  }

  /** A message and its check are accepted exactly when the complemented dividend is a multiple of the generator. */
  lemma AcceptedMeansDivisible(r: Word, message: seq<bool>, check: Word) returns (q: seq<bool>)
    ensures |q| == |message| + 64
    ensures check == Register(r, message) <==>
            Zeros(32) + Dividend(r, message + check) == Multiple(q)
    ensures forall p: seq<bool> | |p| == |message| + 64 ::
            Zeros(32) + Dividend(r, message + check) == Multiple(p) ==> check == Register(r, message)
  {
    hide Times, Xor, Register, Remainder, Multiple, Dividend;
    var whole := message + check;
    var d := Dividend(r, whole);
    ResidueIsZero(r, message, check);
    CheckIsRemainder(r, whole);
    DividendLength(r, whole);
    q := DivisionIs(d);
    ZerosAdd(|d|, 32);
    XorUnits(Multiple(q));
    forall p: seq<bool> | |p| == |message| + 64 && Zeros(32) + d == Multiple(p)
      ensures Remainder(d) == ZERO
    {
      MultiplesDivide(p);
      RemainderSkipsZeros(32, d);
    }
  }

  lemma DividendLength(r: Word, m: seq<bool>)
    ensures |Dividend(r, m)| == |m| + 32
  {}
}
