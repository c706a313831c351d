/** Powers of two and the reversal of the low k bits of an index, as used by the FFT and the interleavers. */
module BitReversal {

  function Pow2(k: nat): (n: nat)
    ensures n >= 1
  {
    if k == 0 then 1 else 2 * Pow2(k - 1)
  }

  /** The low k bits of i in reverse order. */
  function Rev(k: nat, i: nat): nat {
    if k == 0 then 0 else (if i % 2 == 1 then Pow2(k - 1) else 0) + Rev(k - 1, i / 2)
  }

  lemma {:induction false} RevBound(k: nat, i: nat)
    ensures Rev(k, i) < Pow2(k)
  {
    if k > 0 {
      RevBound(k - 1, i / 2);
    }
  }

  lemma RevStep(k: nat, i: nat)
    ensures Rev(k + 1, i) == (if i % 2 == 1 then Pow2(k) else 0) + Rev(k, i / 2)
    ensures Pow2(k + 1) == 2 * Pow2(k)
  {}

  /** Taking the bits off at the other end: the lowest bit of the result is bit k of i. */
  lemma {:induction false} RevTop(k: nat, i: nat)
    requires i < Pow2(k + 1)
    ensures Rev(k + 1, i) == if i >= Pow2(k) then 2 * Rev(k, i - Pow2(k)) + 1 else 2 * Rev(k, i)
  {
    if k > 0 {
      RevTop(k - 1, i / 2);
      RevStep(k, i);
      RevStep(k - 1, i);
      if i >= Pow2(k) {
        RevStep(k - 1, i - Pow2(k));
      }
    }
  }

  /** Reversing twice gives the index back. */
  lemma {:induction false} RevInvolution(k: nat, i: nat)
    requires i < Pow2(k)
    ensures Rev(k, Rev(k, i)) == i
  {
    hide Rev, Pow2;
    if k > 0 {
      RevStep(k - 1, i);
      RevBound(k - 1, i / 2);
      RevBound(k, i);
      RevTop(k - 1, Rev(k, i));
      RevInvolution(k - 1, i / 2);
    } else {
      RevZero(i);
    }
  }

  lemma RevZero(i: nat)
    ensures Rev(0, i) == 0 && Pow2(0) == 1
  {}

  lemma RevInjective(k: nat, i: nat, j: nat)
    requires i < Pow2(k) && j < Pow2(k) && Rev(k, i) == Rev(k, j)
    ensures i == j
  {
    RevInvolution(k, i);
    RevInvolution(k, j);
  }

  lemma ShiftIn(p: nat, r: nat, y: nat)
    ensures 2 * p * r + (if y % 2 == 1 then p else 0) == p * (2 * r + y % 2)
  {}

  /** The loop that shifts bits of x into the result: b rounds done, k - b to go. */
  method BitReverse(x: nat, numBits: nat) returns (result: nat)
    ensures result == Rev(numBits, x)
  {
    hide Rev, Pow2;
    result := 0;
    var y: nat := x;
    var i := 0;
    while i < numBits
      invariant 0 <= i <= numBits
      invariant Pow2(numBits - i) * result + Rev(numBits - i, y) == Rev(numBits, x)
    {
      RevStep(numBits - i - 1, y);
      ShiftIn(Pow2(numBits - i - 1), result, y);
      result := 2 * result + y % 2;
      y := y / 2;
      i := i + 1;
    }
    RevZero(y);
  }
}
