/** The cell and frequency deinterleavers: how their tables are filled, and how they move cells. */
module Interleaving {
  import opened BitReversal
  import opened PrunedReversal

  // ---------- Filling the table ----------

  /** The indices below m that bit reversal keeps in range, each with its reversal. */
  ghost predicate IsPairs(k: nat, n: nat, m: nat, pairs: seq<(nat, nat)>) {
    && (forall l :: 0 <= l < |pairs| ==>
          pairs[l].0 < m && pairs[l].0 < n && pairs[l].1 == Rev(k, pairs[l].0) && pairs[l].1 < n)
    && (forall l, j :: 0 <= l < j < |pairs| ==> pairs[l].0 != pairs[j].0)
    && (forall i: nat :: i < m && i < n && Rev(k, i) < n ==> (i, Rev(k, i)) in pairs)
  }

  method ValidPairs(k: nat, n: nat, nPadded: nat) returns (pairs: seq<(nat, nat)>)
    ensures IsPairs(k, n, nPadded, pairs)
  {
    hide Rev;
    pairs := [];
    for i := 0 to nPadded
      invariant IsPairs(k, n, i, pairs)
    {
      var rev := BitReverse(i, k);
      if i < n && rev < n {
        pairs := pairs + [(i, rev)];
      }
    }
  }

  /** Bit reversal keeps index i in range. */
  predicate InRange(k: nat, n: nat, i: nat) {
    Rev(k, i) < n
  }

  /** The first j pairs, and nothing else, have been entered. */
  ghost predicate Entered(pairs: seq<(nat, nat)>, j: nat, src: seq<bool>, dst: seq<bool>, fwd: seq<nat>)
    requires j <= |pairs|
  {
    && |src| == |dst| == |fwd|
    && (forall l :: 0 <= l < j ==> pairs[l].0 < |fwd| && pairs[l].1 < |fwd|)
    && (forall l :: 0 <= l < j ==> src[pairs[l].0] && dst[pairs[l].1] && fwd[pairs[l].0] == pairs[l].1)
    && (forall i :: 0 <= i < |src| && src[i] ==> exists l :: 0 <= l < j && pairs[l].0 == i)
    && (forall i :: 0 <= i < |dst| && dst[i] ==> exists l :: 0 <= l < j && pairs[l].1 == i)
  }

  /** No two pairs collide, so the next one is always entered. */
  lemma NextEntered(k: nat, n: nat, pairs: seq<(nat, nat)>, j: nat, src: seq<bool>, dst: seq<bool>, fwd: seq<nat>)
    requires j < |pairs| && Entered(pairs, j, src, dst, fwd) && |fwd| == n <= Pow2(k)
    requires IsPairs(k, n, Pow2(k), pairs)
    ensures var (s, d) := pairs[j];
            && s < n && d < n && !src[s] && !dst[d]
            && Entered(pairs, j + 1, src[s := true], dst[d := true], fwd[s := d])
  {
    hide Rev, Pow2;
    PairsDistinct(k, n, pairs, j);
  }

  method UsePairs(k: nat, n: nat, pairs: seq<(nat, nat)>, fwd: array<nat>, srcUsed: array<bool>, dstUsed: array<bool>)
    requires fwd.Length == srcUsed.Length == dstUsed.Length == n <= Pow2(k)
    requires srcUsed != dstUsed && IsPairs(k, n, Pow2(k), pairs)
    requires forall i :: 0 <= i < n ==> !srcUsed[i] && !dstUsed[i]
    modifies fwd, srcUsed, dstUsed
    ensures forall i :: 0 <= i < n ==> srcUsed[i] == dstUsed[i] == InRange(k, n, i)
    ensures forall i :: 0 <= i < n && InRange(k, n, i) ==> fwd[i] == Rev(k, i)
  {
    hide Rev, Pow2, InRange, Entered, IsPairs;
    NoneEntered(pairs, srcUsed[..], dstUsed[..], fwd[..]);
    for j := 0 to |pairs|
      invariant Entered(pairs, j, srcUsed[..], dstUsed[..], fwd[..])
    {
      var (src, dst) := pairs[j];
      ghost var s, d, f := srcUsed[..], dstUsed[..], fwd[..];
      NextEntered(k, n, pairs, j, s, d, f);
      if !srcUsed[src] && !dstUsed[dst] {
        fwd[src] := dst;
        srcUsed[src] := true;
        dstUsed[dst] := true;
      }
      assert srcUsed[..] == s[src := true] && dstUsed[..] == d[dst := true] && fwd[..] == f[src := dst];
    }
    PairsCover(k, n, pairs, fwd[..], srcUsed[..], dstUsed[..]);
  }

  lemma NoneEntered(pairs: seq<(nat, nat)>, src: seq<bool>, dst: seq<bool>, fwd: seq<nat>)
    requires |src| == |dst| == |fwd|
    requires forall i :: 0 <= i < |src| ==> !src[i] && !dst[i]
    ensures Entered(pairs, 0, src, dst, fwd)
  {}

  /** Used as a source, used as a destination, and kept in range by reversal are the same thing. */
  lemma PairsCover(k: nat, n: nat, pairs: seq<(nat, nat)>, fwd: seq<nat>, src: seq<bool>, dst: seq<bool>)
    requires |fwd| == n <= Pow2(k) && IsPairs(k, n, Pow2(k), pairs)
    requires Entered(pairs, |pairs|, src, dst, fwd)
    ensures |src| == |dst| == n
    ensures forall i :: 0 <= i < n ==> src[i] == dst[i] == InRange(k, n, i)
    ensures forall i :: 0 <= i < n && InRange(k, n, i) ==> fwd[i] == Rev(k, i)
  {
    hide Rev, Pow2, InRange;
    forall i | 0 <= i < n
      ensures src[i] == dst[i] == InRange(k, n, i) && (InRange(k, n, i) ==> fwd[i] == Rev(k, i))
    {
      RangeIs(k, n, i);
      if InRange(k, n, i) {
        var l :| 0 <= l < |pairs| && pairs[l] == (i, Rev(k, i));
        var l' :| 0 <= l' < |pairs| && pairs[l'] == (Rev(k, i), i);
      } else if dst[i] {
        var l :| 0 <= l < |pairs| && pairs[l].1 == i;
        RangeIs(k, n, pairs[l].0);
      }
    }
  }

  lemma RangeIs(k: nat, n: nat, i: nat)
    requires i < n <= Pow2(k)
    ensures InRange(k, n, i) <==> Rev(k, i) < n
    ensures Rev(k, i) < Pow2(k) && Rev(k, Rev(k, i)) == i
  {
    hide Rev;
    RevInvolution(k, i);
    RevBound(k, i);
  }

  lemma PairsDistinct(k: nat, n: nat, pairs: seq<(nat, nat)>, j: nat)
    requires IsPairs(k, n, Pow2(k), pairs) && j < |pairs| && n <= Pow2(k)
    ensures forall l :: 0 <= l < j ==> pairs[l].0 != pairs[j].0 && pairs[l].1 != pairs[j].1
  {
    hide Rev, Pow2;
    forall l | 0 <= l < j
      ensures pairs[l].1 != pairs[j].1
    {
      RangeIs(k, n, pairs[l].0);
      RangeIs(k, n, pairs[j].0);
    }
  }

  /** The indices below m that reversal takes out of range, in ascending order. */
  function Unused(k: nat, n: nat, m: nat): seq<nat> {
    if m == 0 then [] else Unused(k, n, m - 1) + (if InRange(k, n, m - 1) then [] else [m - 1])
  }

  lemma {:induction false} UnusedAt(k: nat, n: nat, i: nat, m: nat)
    requires i < m && !InRange(k, n, i)
    ensures |Unused(k, n, i)| < |Unused(k, n, m)| && Unused(k, n, m)[|Unused(k, n, i)|] == i
    decreases m
  {
    hide InRange;
    if i < m - 1 {
      UnusedAt(k, n, i, m - 1);
    }
  }

  /** The sources left over take the destinations left over; as both are the same set, each takes itself. */
  method FillRest(k: nat, n: nat, fwd: array<nat>, srcUsed: array<bool>, dstUsed: array<bool>)
    requires fwd.Length == srcUsed.Length == dstUsed.Length == n
    requires forall i :: 0 <= i < n ==> srcUsed[i] == dstUsed[i] == InRange(k, n, i)
    modifies fwd
    ensures forall i :: 0 <= i < n ==> fwd[i] == if InRange(k, n, i) then old(fwd[i]) else i
  {
    hide InRange;
    var unusedDst: seq<nat> := [];
    for i := 0 to n
      invariant unusedDst == Unused(k, n, i)
    {
      if !dstUsed[i] {
        unusedDst := unusedDst + [i];
      }
    }
    var unusedIdx := 0;
    for i := 0 to n
      invariant unusedIdx == |Unused(k, n, i)|
      invariant forall j :: 0 <= j < i ==> fwd[j] == if InRange(k, n, j) then old(fwd[j]) else j
      invariant forall j :: i <= j < n ==> fwd[j] == old(fwd[j])
    {
      if !srcUsed[i] {
        UnusedAt(k, n, i, n);
        fwd[i] := unusedDst[unusedIdx];
        unusedIdx := unusedIdx + 1;
      }
    }
  }

  /** inv[fwd[i]] = i for every i: the two tables undo each other, and are the same. */
  method Invert(n: nat, fwd: array<nat>) returns (inv: array<nat>)
    requires fwd.Length == n && forall i :: 0 <= i < n ==> fwd[i] == Position(n, i)
    ensures fresh(inv) && inv.Length == n && forall i :: 0 <= i < n ==> inv[i] == Position(n, i)
    ensures TakesBack(fwd[..], inv[..])
  {
    hide Position;
    inv := new nat[n];
    for i := 0 to n
      invariant forall j :: 0 <= j < i ==> Position(n, j) < n && inv[Position(n, j)] == j
    {
      PositionInvolution(n, i);
      OthersDiffer(n, i);
      inv[fwd[i]] := i;
    }
    forall v | 0 <= v < n
      ensures inv[v] == Position(n, v) && Position(n, v) < n && Position(n, Position(n, v)) == v
    {
      PositionInvolution(n, v);
    }
  }

  lemma OthersDiffer(n: nat, i: nat)
    requires i < n
    ensures forall j :: 0 <= j < i ==> Position(n, j) != Position(n, i)
  {
    hide Position;
    forall j | 0 <= j < i
      ensures Position(n, j) != Position(n, i)
    {
      if Position(n, j) == Position(n, i) {
        PositionInjective(n, j, i);
      }
    }
  }

  ghost predicate IsTable(table: seq<nat>) {
    forall i :: 0 <= i < |table| ==> table[i] == Position(|table|, i)
  }

  /** The index bits, as the source counts them. */
  method IndexBitsOf(nPadded: nat) returns (numBits: nat)
    ensures numBits == if CountBits(nPadded - 1) == 0 then 1 else CountBits(nPadded - 1)
    requires nPadded > 0
  {
    numBits := ComputeCountBits(nPadded - 1);
    if numBits == 0 {
      numBits := 1;
    }
  }

  /** For every size the table is the pruned bit reversal, which is its own inverse. */
  method ComputePermutation(n: nat) returns (inv: array<nat>)
    requires 0 < n <= Pow2(63)
    ensures fresh(inv) && inv.Length == n && IsTable(inv[..])
  {
    hide Rev, Pow2, CountBits, IsPairs;
    DoublePower(63);
    var nPadded := NextPowerOfTwo(n);
    PaddedIsLeast(n);
    CountBitsOfOnes(PaddedBits(n));
    IndexBitsEnough(n);
    var k := IndexBitsOf(nPadded);
    var fwd := new nat[n];
    if n == nPadded {
      for i := 0 to n
        invariant forall j :: 0 <= j < i ==> fwd[j] == Rev(k, j)
      {
        fwd[i] := BitReverse(i, k);
      }
      forall i | 0 <= i < n
        ensures fwd[i] == Position(n, i)
      {
        PowerPosition(n, i);
      }
    } else {
      var pairs := ValidPairs(k, n, nPadded);
      var srcUsed, dstUsed := new bool[n](_ => false), new bool[n](_ => false);
      NotOne(n);
      UsePairs(k, n, pairs, fwd, srcUsed, dstUsed);
      FillRest(k, n, fwd, srcUsed, dstUsed);
    }
    inv := Invert(n, fwd);
  }

  lemma PowerPosition(n: nat, i: nat)
    requires i < n && n == Pow2(PaddedBits(n))
    ensures Position(n, i) == Rev(IndexBits(n), i)
  {
    IndexBitsEnough(n);
    RevBound(IndexBits(n), i);
    if n == 1 {
      OnePosition();
    }
  }

  lemma OnePosition()
    ensures Rev(1, 0) == 0 && PaddedBits(1) == 0
  {}

  lemma NotOne(n: nat)
    requires n > 0 && n != Pow2(PaddedBits(n))
    ensures IndexBits(n) == PaddedBits(n)
  {
    if n == 1 {
      OnePosition();
    }
  }

  // ---------- What a table does ----------

  function Gathered<T>(cells: seq<T>, table: seq<nat>): (out: seq<T>)
    requires |cells| == |table| && forall i :: 0 <= i < |table| ==> table[i] < |cells|
    ensures |out| == |cells|
  {
    seq(|cells|, i requires 0 <= i < |table| => cells[table[i]])
  }

  /** The transmitter's side: the cell at i goes to the position that the forward table gives it. */
  ghost predicate Scattered<T>(cells: seq<T>, fwd: seq<nat>, sent: seq<T>) {
    && |sent| == |cells| == |fwd|
    && forall i :: 0 <= i < |fwd| ==> fwd[i] < |sent| && sent[fwd[i]] == cells[i]
  }

  /** The stored table takes every forward position back. */
  ghost predicate TakesBack(fwd: seq<nat>, inv: seq<nat>) {
    && |inv| == |fwd|
    && (forall i :: 0 <= i < |fwd| ==> fwd[i] < |inv| && inv[fwd[i]] == i)
    && (forall i :: 0 <= i < |inv| ==> inv[i] < |fwd| && fwd[inv[i]] == i)
  }

  lemma TableInRange(table: seq<nat>)
    requires IsTable(table)
    ensures forall i :: 0 <= i < |table| ==> table[i] < |table|
  {
    hide Position;
    forall i | 0 <= i < |table|
      ensures table[i] < |table|
    {
      PositionInvolution(|table|, i);
    }
  }

  ghost predicate SelfInverse(fwd: seq<nat>) {
    forall i :: 0 <= i < |fwd| ==> fwd[i] < |fwd| && fwd[fwd[i]] == i
  }

  /** Whatever is sent through the forward table, gathering by the stored one returns it. */
  ghost predicate Recovers(fwd: seq<nat>, inv: seq<nat>)
    requires TakesBack(fwd, inv)
  {
    forall cells: seq<int>, sent: seq<int> :: Scattered(cells, fwd, sent) ==> Gathered(sent, inv) == cells
  }

  /**
    The deinterleaver gathers by the inverse table, which undoes the transmitter only for a table that is its own
    inverse.
   */
  lemma RecoversExactly(fwd: seq<nat>, inv: seq<nat>)
    requires TakesBack(fwd, inv)
    ensures Recovers(fwd, inv) <==> SelfInverse(fwd)
  {
    if Recovers(fwd, inv) {
      var numbers: seq<int> := seq(|fwd|, i => i);
      var sent: seq<int> := seq(|inv|, i requires 0 <= i < |inv| => inv[i]);
      assert Scattered(numbers, fwd, sent);
      forall i | 0 <= i < |fwd|
        ensures fwd[fwd[i]] == i
      {
        assert Gathered(sent, inv)[i] == numbers[i];
        assert sent[inv[i]] == inv[inv[i]];
      }
    }
    if SelfInverse(fwd) {
      forall cells: seq<int>, sent: seq<int> | Scattered(cells, fwd, sent)
        ensures Gathered(sent, inv) == cells
      {
        GatheringReturns(cells, sent, fwd, inv);
      }
    }
  }

  lemma GatheringReturns<T>(cells: seq<T>, sent: seq<T>, fwd: seq<nat>, inv: seq<nat>)
    requires TakesBack(fwd, inv) && SelfInverse(fwd) && Scattered(cells, fwd, sent)
    ensures Gathered(sent, inv) == cells
  {
    forall i | 0 <= i < |cells|
      ensures Gathered(sent, inv)[i] == cells[i]
    {
      assert inv[fwd[fwd[i]]] == fwd[i];
      assert sent[fwd[i]] == cells[i];
    }
  }

  /** The table of every size is its own inverse, so deinterleaving recovers what was sent through the forward table. */
  lemma DeinterleavingRecovers<T>(cells: seq<T>, sent: seq<T>, fwd: seq<nat>, inv: seq<nat>)
    requires IsTable(fwd) && TakesBack(fwd, inv) && Scattered(cells, fwd, sent)
    ensures Gathered(sent, inv) == cells
  {
    hide Position, Gathered, Scattered, TakesBack;
    TableInRange(fwd);
    forall i | 0 <= i < |fwd|
      ensures fwd[fwd[i]] == i
    {
      PositionInvolution(|fwd|, i);
    }
    GatheringReturns(cells, sent, fwd, inv);
  }

  /** Deinterleaving is its own inverse. */
  lemma DeinterleavingTwice<T>(cells: seq<T>, table: seq<nat>)
    requires IsTable(table) && |table| == |cells| && forall i :: 0 <= i < |table| ==> table[i] < |cells|
    ensures Gathered(Gathered(cells, table), table) == cells
  {
    hide Position;
    var once := Gathered(cells, table);
    forall i | 0 <= i < |cells|
      ensures Gathered(once, table)[i] == cells[i]
    {
      PositionInvolution(|table|, i);
      assert once[table[i]] == cells[table[table[i]]];
    }
  }

  // ---------- The two deinterleavers ----------

  class CellDeinterleaver {
    var invPermutation: seq<nat>

    ghost predicate Valid()
      reads this
    {
      IsTable(invPermutation)
    }

    constructor (numCells: nat)
      requires numCells <= Pow2(63)
      ensures Valid() && |invPermutation| == numCells
    {
      hide Position, Pow2;
      invPermutation := [];
      if numCells > 0 {
        var table := ComputePermutation(numCells);
        invPermutation := table[..];
      }
    }

    /** In place: the table is rebuilt for the size of the buffer, and the cells are gathered from a copy. */
    method Deinterleave(cells: array<int>)
      requires Valid() && cells.Length <= Pow2(63)
      modifies this, cells
      ensures Valid() && (cells.Length > 0 ==> |invPermutation| == cells.Length)
      ensures cells.Length > 0 ==>
                (forall i :: 0 <= i < cells.Length ==> invPermutation[i] < cells.Length) &&
                cells[..] == Gathered(old(cells[..]), invPermutation)
    {
      hide Position, Pow2;
      var n := cells.Length;
      if n == 0 {
        return;
      }
      if n != |invPermutation| {
        var table := ComputePermutation(n);
        invPermutation := table[..];
      }
      var table, temp := invPermutation, cells[..];
      TableInRange(table);
      for i := 0 to n
        invariant invPermutation == table
        invariant forall j :: 0 <= j < i ==> cells[j] == temp[table[j]]
      {
        cells[i] := temp[table[i]];
      }
    }

    /** Into another buffer: a table of another size is not rebuilt, and the cells are copied. */
    method DeinterleaveTo(input: seq<int>, output: array<int>)
      requires Valid() && output.Length == |input|
      modifies output
      ensures |input| > 0 && |input| == |invPermutation| ==>
                (forall i :: 0 <= i < |input| ==> invPermutation[i] < |input|) &&
                  output[..] == Gathered(input, invPermutation)
      ensures |input| != |invPermutation| ==> output[..] == input
    {
      hide Position, Pow2;
      var n := |input|;
      if n != |invPermutation| {
        for i := 0 to n
          invariant forall j :: 0 <= j < i ==> output[j] == input[j]
        {
          output[i] := input[i];
        }
        return;
      }
      TableInRange(invPermutation);
      for i := 0 to n
        invariant forall j :: 0 <= j < i ==> output[j] == input[invPermutation[j]]
      {
        output[i] := input[invPermutation[i]];
      }
    }
  }

  /** The carriers of a frame when the count is not configured. */
  function DefaultCarriers(fftSize: nat): nat {
    if fftSize == 8192 then 6913 else if fftSize == 16384 then 13825 else if fftSize == 32768 then 27649 else 0
  }

  class FreqDeinterleaver {
    var numActiveCarriers: nat
    var invPermutation: seq<nat>

    ghost predicate Valid()
      reads this
    {
      IsTable(invPermutation) && |invPermutation| == numActiveCarriers
    }

    constructor (fftSize: nat, numActiveCarriers: nat)
      requires numActiveCarriers <= Pow2(63)
      ensures Valid()
      ensures numActiveCarriers > 0 ==> |invPermutation| == numActiveCarriers
      ensures numActiveCarriers == 0 ==>
                |invPermutation| ==
                  if fftSize == 8192 then 6913 else if fftSize == 16384 then 13825
                  else if fftSize == 32768 then 27649 else 0
    {
      hide Position, Pow2;
      var n := if numActiveCarriers > 0 then numActiveCarriers else DefaultCarriers(fftSize);
      this.numActiveCarriers := n;
      invPermutation := [];
      DefaultsFit(fftSize);
      if n > 0 {
        var table := ComputePermutation(n);
        invPermutation := table[..];
      }
    }

    method Deinterleave(input: seq<int>, output: array<int>)
      requires Valid() && output.Length == |input| == numActiveCarriers
      modifies output
      ensures (forall i :: 0 <= i < |input| ==> invPermutation[i] < |input|) &&
              output[..] == Gathered(input, invPermutation)
    {
      hide Position, Pow2;
      TableInRange(invPermutation);
      for i := 0 to |input|
        invariant forall j :: 0 <= j < i ==> output[j] == input[invPermutation[j]]
      {
        output[i] := input[invPermutation[i]];
      }
    }

    method DeinterleaveInplace(carriers: array<int>)
      requires Valid() && carriers.Length == numActiveCarriers
      modifies carriers
      ensures (forall i :: 0 <= i < carriers.Length ==> invPermutation[i] < carriers.Length)
      ensures carriers[..] == Gathered(old(carriers[..]), invPermutation)
    {
      hide Position, Pow2;
      TableInRange(invPermutation);
      var temp := carriers[..];
      for i := 0 to carriers.Length
        invariant forall j :: 0 <= j < i ==> carriers[j] == temp[invPermutation[j]]
      {
        carriers[i] := temp[invPermutation[i]];
      }
    }

    /** The interleaved position is found by searching the inverse table. */
    method InterleaverPermutation(inputPos: nat) returns (j: nat)
      requires Valid()
      ensures j == if inputPos < numActiveCarriers then Position(numActiveCarriers, inputPos) else inputPos
    {
      hide Position;
      if inputPos >= numActiveCarriers {
        return inputPos;
      }
      PositionInvolution(numActiveCarriers, inputPos);
      assert invPermutation[Position(numActiveCarriers, inputPos)] == inputPos;
      j := 0;
      while j < |invPermutation|
        invariant j <= |invPermutation|
        invariant forall l :: 0 <= l < j ==> invPermutation[l] != inputPos
      {
        if invPermutation[j] == inputPos {
          PositionInvolution(numActiveCarriers, j);
          return;
        }
        j := j + 1;
      }
      assert false;
    }
  }

  lemma Pow2Of15()
    ensures Pow2(15) == 32768
  {
    assert Pow2(5) == 32;
    assert Pow2(10) == 1024;
  }

  lemma DefaultsFit(fftSize: nat)
    ensures DefaultCarriers(fftSize) <= Pow2(63)
  {
    hide Pow2;
    Pow2Of15();
    Pow2Monotone(15, 63);
  }

  /** The cell and the frequency tables of one size are the same, so each deinterleaver undoes the other. */
  lemma TablesCoincide<T>(a: seq<nat>, b: seq<nat>, cells: seq<T>)
    requires IsTable(a) && IsTable(b) && |a| == |b| == |cells|
    requires forall i :: 0 <= i < |a| ==> a[i] < |cells| && b[i] < |cells|
    ensures a == b && Gathered(Gathered(cells, a), b) == cells
  {
    hide Position, Gathered;
    assert a == b;
    DeinterleavingTwice(cells, a);
  }

  /** compute_cell_interleaver_position: the inputPos-th reversal that is in range. */
  method ComputeCellInterleaverPosition(inputPos: nat, n: nat) returns (pos: nat)
    requires n <= Pow2(63)
    ensures var s := Ranked(IndexBits(n), n, Pow2(IndexBits(n)));
            |s| == n && pos == if inputPos < n then s[inputPos] else inputPos
  {
    hide Rev, Ranked, Pow2, CountBits, NoDuplicates;
    RankedIsPermutation(n);
    if n == 0 || inputPos >= n {
      return inputPos;
    }
    DoublePower(63);
    var nPadded := NextPowerOfTwo(n);
    CountBitsOfOnes(PaddedBits(n));
    var k := IndexBitsOf(nPadded);
    var count := 0;
    RankedStart(k, n);
    PaddedRanked(n);
    for i := 0 to nPadded
      invariant count == |Ranked(k, n, i)| <= inputPos
    {
      var reversed := BitReverse(i, k);
      RankedNext(k, n, i);
      if reversed < n {
        if count == inputPos {
          RankedPrefix(k, n, i + 1, nPadded);
          return reversed;
        }
        count := count + 1;
      }
    }
    assert false;
  }

  lemma RankedStart(k: nat, n: nat)
    ensures Ranked(k, n, 0) == []
  {}

  /** For one position the loop covers one index fewer than the index bits allow; nothing is missed. */
  lemma PaddedRanked(n: nat)
    requires n > 0
    ensures Ranked(IndexBits(n), n, Pow2(PaddedBits(n))) == Ranked(IndexBits(n), n, Pow2(IndexBits(n)))
  {
    if PaddedBits(n) == 0 {
      PaddedIsLeast(n);
      assert Rev(1, 1) == 1 && Rev(1, 0) == 0;
      assert Ranked(1, 1, 1) == [0];
      assert Ranked(1, 1, 2) == Ranked(1, 1, 1) + [];
      assert Pow2(0) == 1 && Pow2(1) == 2;
    }
  }
}
