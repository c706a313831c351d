/** The fixed-point FFT engine: twiddle table, bit-reversal table and the in-place stages. */
module FftEngines {
  import opened RingTheory
  import opened BitReversal
  import opened FftTheory
  import opened Arithmetic

  class FixedPointFftEngine<T(0, !new)> {
    const R: Ring<T>
    const size: nat
    ghost const k: nat
    ghost const w: T

    const twiddles: array<T>
    const workBuf: array<T>
    const bitRev: array<nat>

    ghost predicate Valid()
      reads this, twiddles, bitRev
    {
      && IsRing(R) && IsRoot(R, w, k) && size == Pow2(k) && k >= 1
      && workBuf.Length == size && bitRev.Length == size && twiddles.Length == size / 2
      && workBuf != twiddles && workBuf as object != bitRev && twiddles as object != bitRev
      && (forall i :: 0 <= i < size / 2 ==> twiddles[i] == Pow(R, w, i))
      && (forall i :: 0 <= i < size ==> bitRev[i] == Rev(k, i))
    }

    /** A caller's buffer, not one of the engine's. */
    ghost predicate Foreign(a: array<T>)
      reads this
    {
      a.Length == size && a != workBuf && a != twiddles && a as object != bitRev
    }

    /** `twiddle(i)` stands for the table entry the source computes from cosine and sine: the i-th power of the root. */
    constructor (R: Ring<T>, size: nat, twiddle: nat -> T, ghost k: nat, ghost w: T)
      requires IsRing(R) && IsRoot(R, w, k) && size == Pow2(k) && k >= 1
      requires forall i: nat :: i < size / 2 ==> twiddle(i) == Pow(R, w, i)
      ensures Valid() && fresh(twiddles) && fresh(workBuf) && fresh(bitRev)
      ensures this.R == R && this.size == size && this.k == k && this.w == w
    {
      this.R, this.size, this.k, this.w := R, size, k, w;
      twiddles := new T[size / 2](i requires 0 <= i => twiddle(i));
      workBuf := new T[size];
      bitRev := new nat[size];
      new;
      ComputeBitReversal();
    }

    method ComputeBitReversal()
      requires size == Pow2(k) && bitRev.Length == size
      modifies bitRev
      ensures forall i :: 0 <= i < size ==> bitRev[i] == Rev(k, i)
    {
      var bits := Log2Size();
      var i := 0;
      while i < size
        invariant 0 <= i <= size
        invariant forall j :: 0 <= j < i ==> bitRev[j] == Rev(k, j)
      {
        bitRev[i] := BitReverse(i, bits);
        i := i + 1;
      }
    }

    method Log2Size() returns (bits: nat)
      requires size == Pow2(k)
      ensures bits == k
    {
      bits := 0;
      var n := size;
      while n > 1
        invariant bits <= k && n == Pow2(k - bits)
      {
        n := n / 2;
        bits := bits + 1;
      }
      Pow2IsOne(k - bits);
    }

    /** Copy the input to the work buffer in bit-reversed order. */
    method Load(input: array<T>)
      requires Valid() && Foreign(input)
      modifies workBuf
      ensures Valid() && workBuf[..] == Stage(R, input[..], w, k, 0)
    {
      hide Pow, IsRing, IsRoot, Stage, Rev;
      ghost var x := input[..];
      ghost var target := Stage(R, x, w, k, 0);
      var i := 0;
      while i < size
        invariant 0 <= i <= size && Valid() && input[..] == x
        invariant forall j :: 0 <= j < i ==> Rev(k, j) < size && workBuf[Rev(k, j)] == x[j]
      {
        RevBound(k, i);
        forall j | 0 <= j < i
          ensures Rev(k, j) != Rev(k, i)
        {
          if Rev(k, j) == Rev(k, i) {
            RevInjective(k, j, i);
          }
        }
        workBuf[bitRev[i]] := input[i];
        i := i + 1;
      }
      forall p | 0 <= p < size
        ensures workBuf[p] == target[p]
      {
        RevBound(k, p);
        RevInvolution(k, p);
        LoadIsBitReversed(R, x, w, k, Rev(k, p));
      }
    }

    /** All butterflies of one block: positions base to base + 2 h move to the next stage. */
    method Block(base: nat, h: nat, twiddleStep: nat, ghost before: seq<T>, ghost after: seq<T>)
      requires Valid() && |before| == |after| == size && base + 2 * h <= size && h >= 1
      requires h * twiddleStep == size / 2
      requires workBuf[..] == after[..base] + before[base..]
      requires forall q :: 0 <= q < 2 * h ==> StageStep(R, before, after, w, base, q, h, twiddleStep)
      modifies workBuf
      ensures Valid() && workBuf[..] == after[..base + 2 * h] + before[base + 2 * h..]
    {
      hide Pow, IsRing, IsRoot, Rev, Partial, StageStep;
      PartialEnds(before, after, base, h);
      var j := 0;
      while j < h
        invariant 0 <= j <= h && Valid()
        invariant workBuf[..] == Partial(before, after, base, h, j)
      {
        var idxEven, idxOdd := base + j, base + j + h;
        TwiddleIndex(j, h, twiddleStep);
        ghost var cur := workBuf[..];
        PartialStep(before, after, base, h, j);
        ButterflyIsStep(R, before, after, w, base, j, h, twiddleStep);
        var tw := twiddles[j * twiddleStep];
        var t := R.mul(tw, workBuf[idxOdd]);
        var even := workBuf[idxEven];
        assert even == cur[idxEven] && workBuf[idxOdd] == cur[idxOdd];
        workBuf[idxEven] := R.add(even, t);
        workBuf[idxOdd] := R.add(even, R.neg(t));
        assert workBuf[..] == cur[idxEven := after[idxEven]][idxOdd := after[idxOdd]];
        j := j + 1;
      }
    }

    /** The stages in place: from the bit-reversed input to the transform. */
    method CooleyTukeyDit(ghost x: seq<T>)
      requires Valid() && |x| == size && workBuf[..] == Stage(R, x, w, k, 0)
      modifies workBuf
      ensures Valid() && workBuf[..] == Stage(R, x, w, k, k)
    {
      hide Pow, IsRing, IsRoot, Stage, StageStep, Rev;
      var stages := Log2Size();
      var stage := 1;
      while stage <= stages
        invariant 1 <= stage <= k + 1 && Valid()
        invariant workBuf[..] == Stage(R, x, w, k, stage - 1)
      {
        RunStage(stage, x);
        stage := stage + 1;
      }
    }

    method RunStage(stage: nat, ghost x: seq<T>)
      requires Valid() && |x| == size && 1 <= stage <= k
      requires workBuf[..] == Stage(R, x, w, k, stage - 1)
      modifies workBuf
      ensures Valid() && workBuf[..] == Stage(R, x, w, k, stage)
    {
      hide Pow, IsRing, IsRoot, Stage, StageStep, Rev, Pow2;
      StageShape(k, stage);
      var m := Pow2(stage);
      var m2 := m / 2;
      var twiddleStep := size / m;
      ghost var before, after := Stage(R, x, w, k, stage - 1), Stage(R, x, w, k, stage);
      var base := 0;
      ghost var b := 0;
      while base < size
        invariant base <= size && base == b * m && Valid()
        invariant workBuf[..] == after[..base] + before[base..]
      {
        BlockIndex(b, m, twiddleStep);
        BlockSteps(R, x, w, k, stage - 1, b, base, before, after, m2, twiddleStep);
        Block(base, m2, twiddleStep, before, after);
        NextMultiple(b, m);
        base := base + m;
        b := b + 1;
      }
    }

    /**
      One transform: position j of the output is the input's polynomial at the j-th power of the root.  The two
      may be one buffer.
     */
    method Process(input: array<T>, output: array<T>)
      requires Valid() && Foreign(input) && Foreign(output)
      modifies workBuf, output
      ensures Valid() && output[..] == Dft(R, old(input[..]), w)
      ensures forall j :: 0 <= j < size ==> output[j] == PolyEval(R, old(input[..]), Pow(R, w, j))
    {
      hide Pow, IsRing, IsRoot, Stage, Rev, PolyEval;
      ghost var x := input[..];
      Load(input);
      CooleyTukeyDit(x);
      forall j | 0 <= j < size
        ensures workBuf[j] == PolyEval(R, x, Pow(R, w, j))
      {
        StageIsDft(R, x, w, k, j);
      }
      assert workBuf[..] == Dft(R, x, w);
      forall i | 0 <= i < size {
        output[i] := workBuf[i];
      }
      assert output[..] == workBuf[..];
    }
  }

  /** The buffer when j butterflies of the block at base are done. */
  ghost function Partial<T>(before: seq<T>, after: seq<T>, base: nat, h: nat, j: nat): (y: seq<T>)
    requires |before| == |after|
    ensures |y| == |before|
  {
    seq(|before|, p requires 0 <= p < |before| =>
      if p < base + j || base + h <= p < base + h + j then after[p] else before[p])
  }

  lemma PartialEnds<T>(before: seq<T>, after: seq<T>, base: nat, h: nat)
    requires |before| == |after| && base + 2 * h <= |before|
    ensures Partial(before, after, base, h, 0) == after[..base] + before[base..]
    ensures Partial(before, after, base, h, h) == after[..base + 2 * h] + before[base + 2 * h..]
  {}

  /** One butterfly reads two positions still at the old stage and moves just those two. */
  lemma PartialStep<T>(before: seq<T>, after: seq<T>, base: nat, h: nat, j: nat)
    requires |before| == |after| && base + 2 * h <= |before| && j < h
    ensures Partial(before, after, base, h, j)[base + j] == before[base + j]
    ensures Partial(before, after, base, h, j)[base + j + h] == before[base + j + h]
    ensures Partial(before, after, base, h, j + 1) ==
            Partial(before, after, base, h, j)[base + j := after[base + j]][base + j + h := after[base + j + h]]
  {}

  lemma ButterflyIsStep<T(!new)>(R: Ring<T>, before: seq<T>, after: seq<T>, w: T, base: nat, j: nat, h: nat, step: nat)
    requires |before| == |after| && base + 2 * h <= |before| && j < h
    requires forall q :: 0 <= q < 2 * h ==> StageStep(R, before, after, w, base, q, h, step)
    ensures after[base + j] == R.add(before[base + j], R.mul(Pow(R, w, j * step), before[base + j + h]))
    ensures after[base + j + h] == R.add(before[base + j], R.neg(R.mul(Pow(R, w, j * step), before[base + j + h])))
  {
    hide Pow;
    assert StageStep(R, before, after, w, base, j, h, step);
    assert StageStep(R, before, after, w, base, j + h, h, step);
  }

  lemma Pow2IsOne(k: nat)
    ensures Pow2(k) <= 1 <==> k == 0
  {}

  lemma TwiddleIndex(j: nat, h: nat, step: nat)
    requires j < h && h * step > 0
    ensures j * step < h * step
  {
    assert (j + 1) * step <= h * step;
  }

  /** The sizes of stage s: blocks of m = 2^s, with twiddle step N / m. */
  lemma StageShape(k: nat, s: nat)
    requires 1 <= s <= k
    ensures Pow2(s) == 2 * Pow2(s - 1) && Pow2(k) == Pow2(k - s) * Pow2(s)
    ensures Pow2(k) / Pow2(s) == Pow2(k - s)
    ensures Pow2(s - 1) * Pow2(k - s) == Pow2(k) / 2
  {
    hide Pow2;
    Pow2Add(k - s, s);
    Pow2Add(k - s, s - 1);
    RevStep(s - 1, 0);
    RevStep(k - 1, 0);
    DivModUnique(Pow2(k), Pow2(s), Pow2(k - s), 0);
  }

  /** Block b of a stage: every position of it takes the stage's step. */
  lemma BlockSteps<T(!new)>(R: Ring<T>, x: seq<T>, w: T, k: nat, s: nat, b: nat, base: nat, before: seq<T>,
                     after: seq<T>, h: nat, c: nat)
    requires IsRing(R) && |x| == Pow2(k) && s < k
    requires before == Stage(R, x, w, k, s) && after == Stage(R, x, w, k, s + 1)
    requires h == Pow2(s) && c == Pow2(k - s - 1) && b < c && base == b * (2 * h)
    ensures base + 2 * h <= |x|
    ensures forall q :: 0 <= q < 2 * h ==> StageStep(R, before, after, w, base, q, h, c)
  {
    hide Stage, StageStep, IsRing, Pow2;
    StageStepHolds(R, x, w, k, s, b, base, 0) by {
      Pow2Positive(s);
    }
    forall q | 0 <= q < 2 * h
      ensures StageStep(R, before, after, w, base, q, h, c)
    {
      StageStepHolds(R, x, w, k, s, b, base, q);
    }
  }

  lemma Pow2Positive(k: nat)
    ensures Pow2(k) >= 1
  {}

  lemma BlockIndex(b: nat, m: nat, c: nat)
    requires b * m < c * m
    ensures b < c
  {
    MulMono(c, b, m);
  }
}
