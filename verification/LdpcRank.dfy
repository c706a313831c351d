/**
  The parity part of every matrix is lower triangular with a unit diagonal, so the first
  K bits of a codeword can be chosen freely and determine the rest.
 */
module LdpcRank {
  import opened Arithmetic
  import opened MinSum
  import opened LdpcMatrix
  import opened LdpcOnes

  /** Row r ends with column k + r, after smaller columns. */
  ghost predicate UnitTriangular(rows: seq<seq<nat>>, k: nat) {
    forall r :: 0 <= r < |rows| ==>
      && |rows[r]| >= 1 && rows[r][|rows[r]| - 1] == k + r
      && forall i :: 0 <= i < |rows[r]| - 1 ==> rows[r][i] < k + r
  }

  function Front(cols: seq<nat>): seq<nat>
    requires |cols| >= 1
  {
    cols[..|cols| - 1]
  }

  /** The bit on the diagonal of row r that satisfies the row. */
  ghost function NextBit(rows: seq<seq<nat>>, k: nat, r: nat, w: seq<bool>): bool
    requires UnitTriangular(rows, k) && r < |rows| && |w| == k + r
  {
    Parity(Front(rows[r]), w, |rows[r]| - 1)
  }

  /** The information word with the first n parity bits, each the parity of the rest of its row. */
  ghost function Extend(rows: seq<seq<nat>>, info: seq<bool>, n: nat): (w: seq<bool>)
    requires UnitTriangular(rows, |info|) && n <= |rows|
    ensures |w| == |info| + n
    ensures info <= w
  {
    if n == 0 then info
    else
      var w := Extend(rows, info, n - 1);
      w + [NextBit(rows, |info|, n - 1, w)]
  }

  lemma {:induction false} ParityPrefix(cols: seq<nat>, more: seq<nat>, w: seq<bool>, v: seq<bool>, n: nat)
    requires n <= |cols| && cols <= more && w <= v
    requires forall i :: 0 <= i < |cols| ==> cols[i] < |w|
    requires forall i :: 0 <= i < |more| ==> more[i] < |v|
    ensures Parity(cols, w, n) == Parity(more, v, n)
  {
    if n > 0 {
      ParityPrefix(cols, more, w, v, n - 1);
      assert w[cols[n - 1]] == v[more[n - 1]];
    }
  }

  /** The last bit of a row's check is the diagonal one. */
  lemma RowParity(rows: seq<seq<nat>>, k: nat, r: nat, w: seq<bool>)
    requires UnitTriangular(rows, k) && r < |rows| && k + r < |w|
    ensures forall i :: 0 <= i < |rows[r]| ==> rows[r][i] < |w|
    ensures Parity(rows[r], w, |rows[r]|) == (Parity(Front(rows[r]), w[..k + r], |rows[r]| - 1) != w[k + r])
  {
    ParityPrefix(Front(rows[r]), rows[r], w[..k + r], w, |rows[r]| - 1);
  }

  lemma {:induction false} ExtendPrefix(rows: seq<seq<nat>>, info: seq<bool>, m: nat, n: nat)
    requires UnitTriangular(rows, |info|) && m <= n <= |rows|
    ensures Extend(rows, info, n)[..|info| + m] == Extend(rows, info, m)
  {
    if m < n {
      ExtendPrefix(rows, info, m, n - 1);
      assert Extend(rows, info, n)[..|info| + n - 1] == Extend(rows, info, n - 1);
      assert Extend(rows, info, n)[..|info| + m] == Extend(rows, info, n - 1)[..|info| + m];
    }
  }

  lemma TriangularInRange(rows: seq<seq<nat>>, k: nat)
    requires UnitTriangular(rows, k)
    ensures InRange(rows, k + |rows|)
  {
    forall r, i | 0 <= r < |rows| && 0 <= i < |rows[r]|
      ensures rows[r][i] < k + |rows|
    {
      assert rows[r][|rows[r]| - 1] == k + r;
    }
  }

  lemma ExtendStep(rows: seq<seq<nat>>, info: seq<bool>, r: nat)
    requires UnitTriangular(rows, |info|) && r < |rows|
    ensures Extend(rows, info, r + 1) == Extend(rows, info, r) + [NextBit(rows, |info|, r, Extend(rows, info, r))]
  {}

  lemma ExtendBit(rows: seq<seq<nat>>, info: seq<bool>, r: nat)
    requires UnitTriangular(rows, |info|) && r < |rows|
    ensures var w := Extend(rows, info, |rows|);
      w[..|info| + r] == Extend(rows, info, r) && w[|info| + r] == NextBit(rows, |info|, r, Extend(rows, info, r))
  {
    hide NextBit, Extend, UnitTriangular;
    ExtendStep(rows, info, r);
    ExtendPrefix(rows, info, r, |rows|);
    ExtendPrefix(rows, info, r + 1, |rows|);
    var w := Extend(rows, info, |rows|);
    assert w[|info| + r] == w[..|info| + r + 1][|info| + r];
  }

  lemma ExtensionRow(rows: seq<seq<nat>>, info: seq<bool>, r: nat)
    requires UnitTriangular(rows, |info|) && r < |rows|
    ensures forall i :: 0 <= i < |rows[r]| ==> rows[r][i] < |info| + |rows|
    ensures !Parity(rows[r], Extend(rows, info, |rows|), |rows[r]|)
  {
    hide Parity, Extend;
    RowParity(rows, |info|, r, Extend(rows, info, |rows|));
    ExtendBit(rows, info, r);
  }

  /** Existence: every information word extends to a word that satisfies all checks. */
  lemma ExtensionSatisfies(rows: seq<seq<nat>>, info: seq<bool>)
    requires UnitTriangular(rows, |info|)
    ensures InRange(rows, |info| + |rows|) && Satisfies(rows, Extend(rows, info, |rows|))
  {
    hide Parity, Extend, UnitTriangular;
    TriangularInRange(rows, |info|);
    forall r | 0 <= r < |rows|
      ensures !Parity(rows[r], Extend(rows, info, |rows|), |rows[r]|)
    {
      ExtensionRow(rows, info, r);
    }
  }

  /** Uniqueness: a word that satisfies all checks is the extension of its information bits. */
  lemma {:induction false} ExtensionUnique(rows: seq<seq<nat>>, k: nat, w: seq<bool>, n: nat)
    requires UnitTriangular(rows, k) && |w| == k + |rows| && n <= |rows|
    requires InRange(rows, |w|) && Satisfies(rows, w)
    ensures w[..k + n] == Extend(rows, w[..k], n)
  {
    hide Parity;
    if n > 0 {
      ExtensionUnique(rows, k, w, n - 1);
      RowParity(rows, k, n - 1, w);
      assert !Parity(rows[n - 1], w, |rows[n - 1]|);
      assert w[..k + n] == w[..k + n - 1] + [w[k + n - 1]];
    }
  }

  /** w satisfies every check and starts with the information bits. */
  ghost predicate Codeword(rows: seq<seq<nat>>, info: seq<bool>, w: seq<bool>) {
    |w| == |info| + |rows| && info <= w && InRange(rows, |w|) && Satisfies(rows, w)
  }

  /** Systematic full rank: words satisfying all checks correspond one to one to information words. */
  lemma SystematicFullRank(rows: seq<seq<nat>>, info: seq<bool>)
    requires UnitTriangular(rows, |info|)
    ensures InRange(rows, |info| + |rows|)
    ensures exists w: seq<bool> :: Codeword(rows, info, w)
    ensures forall v: seq<bool>, w: seq<bool> | Codeword(rows, info, v) && Codeword(rows, info, w) :: v == w
  {
    hide Satisfies, InRange;
    ExtensionSatisfies(rows, info);
    assert Codeword(rows, info, Extend(rows, info, |rows|));
    forall v: seq<bool>, w: seq<bool> | Codeword(rows, info, v) && Codeword(rows, info, w)
      ensures v == w
    {
      ExtensionUnique(rows, |info|, v, |rows|);
      ExtensionUnique(rows, |info|, w, |rows|);
      assert v[..|info|] == info && w[..|info|] == info;
      assert v[..|v|] == v && w[..|w|] == w;
    }
  }

  // ---------- The generated matrices ----------

  /** The base matrix the generator builds for a code. */
  ghost predicate IsGenerated(base: BaseMatrix, spec: CodeSpec, Q: nat, rate: nat) {
    && GoodSpec(spec) && base.Valid() && base.Q == Q && Q > 0
    && base.numBlockRows == spec.numBlockRows && base.numBlockCols == spec.numBlockCols
    && forall r, c :: 0 <= r < spec.numBlockRows && 0 <= c < spec.numBlockCols ==>
      base.entries[r][c] == Entry(spec, Q, rate, r, c)
  }

  lemma {:induction false} RowListStops(base: BaseMatrix, row: nat, m: nat, n: nat)
    requires base.Valid() && row / base.Q < base.numBlockRows && m <= n <= base.numBlockCols
    requires forall c :: m <= c < n ==> base.entries[row / base.Q][c] < 0
    ensures RowList(base, row, n) == RowList(base, row, m)
  {
    if m < n {
      RowListStops(base, row, m, n - 1);
    }
  }

  /** The last one of a row is on the identity diagonal of the parity part. */
  lemma DiagonalEndsRow(base: BaseMatrix, spec: CodeSpec, Q: nat, rate: nat, row: nat)
    requires IsGenerated(base, spec, Q, rate) && row / Q < spec.numBlockRows
    ensures var cols := RowList(base, row, base.numBlockCols);
      && |cols| >= 1 && cols[|cols| - 1] == (spec.numBlockCols - spec.numBlockRows) * Q + row
  {
    var br := row / Q;
    var d := spec.numBlockCols - spec.numBlockRows + br;
    hide Shift, Chosen, Connections;
    RowListStops(base, row, d + 1, base.numBlockCols);
    assert base.entries[br][d] == 0;
    DiagonalColumn(row, Q, spec.numBlockCols - spec.numBlockRows);
  }

  lemma DiagonalColumn(row: nat, Q: nat, k: nat)
    requires Q > 0
    ensures (k + row / Q) * Q + Wrap(row % Q, 0, Q) == k * Q + row
  {
    assert (k + row / Q) * Q == k * Q + (row / Q) * Q;
  }

  lemma ExpansionIsTriangular(base: BaseMatrix, spec: CodeSpec, Q: nat, rate: nat, rows: seq<seq<nat>>,
                              cols: seq<seq<nat>>)
    requires IsGenerated(base, spec, Q, rate) && IsExpansion(base, rows, cols)
    ensures UnitTriangular(rows, (spec.numBlockCols - spec.numBlockRows) * Q)
  {
    hide RowList, ColList, Entry;
    forall r | 0 <= r < |rows|
      ensures
        var k := (spec.numBlockCols - spec.numBlockRows) * Q;
        && |rows[r]| >= 1 && rows[r][|rows[r]| - 1] == k + r
        && forall i :: 0 <= i < |rows[r]| - 1 ==> rows[r][i] < k + r
    {
      DiagonalEndsRow(base, spec, Q, rate, r);
      RowListIs(base, r, base.numBlockCols);
    }
  }

  lemma BelowBlocks(c: nat, n: nat, Q: nat)
    requires Q > 0 && c < n * Q
    ensures c / Q < n
  {
    assert c == (c / Q) * Q + c % Q;
    MulMono(n, c / Q, Q);
  }

  /** The expanded matrix of a code has its ones exactly where the arithmetic of the code puts them. */
  lemma ExpansionIsMatrix(base: BaseMatrix, rate: nat, short: bool, rows: seq<seq<nat>>, cols: seq<seq<nat>>)
    requires rate < |CODE_SPECS| && IsGenerated(base, CODE_SPECS[rate], ExpansionFactor(short), rate)
    requires IsExpansion(base, rows, cols)
    ensures IsMatrixOf(rows, rate, short)
  {
    hide RowList, ColList, Entry, Wrap, IsOne;
    SpecSizes(rate);
    var Q, weight := ExpansionFactor(short), CODE_SPECS[rate].rowWeight;
    forall r, c: nat | 0 <= r < |rows| && c < 180 * Q
      ensures c in rows[r] <==> IsOne(rate, weight, Q, r, c)
    {
      BelowBlocks(c, 180, Q);
      RowListMember(base, r, 180, c);
      OneInBlock(rate, Q, r, c);
    }
  }

  /** Within the systematic part a row has as many ones as connections. */
  lemma {:induction false} SystematicOnes(base: BaseMatrix, spec: CodeSpec, Q: nat, rate: nat, row: nat, n: nat)
    requires IsGenerated(base, spec, Q, rate) && row / Q < spec.numBlockRows
    requires n <= spec.numBlockCols - spec.numBlockRows
    ensures |RowList(base, row, n)| == Connections(row / Q, rate, spec.rowWeight, n)
  {
    hide Chosen, Shift;
    if n > 0 {
      SystematicOnes(base, spec, Q, rate, row, n - 1);
      assert base.entries[row / Q][n - 1] == Entry(spec, Q, rate, row / Q, n - 1);
    }
  }

  /** Every row has its weight in ones, and one more from the second block row on. */
  lemma RowDegree(base: BaseMatrix, rate: nat, short: bool, rows: seq<seq<nat>>, cols: seq<seq<nat>>, row: nat)
    requires rate < |CODE_SPECS| && IsGenerated(base, CODE_SPECS[rate], ExpansionFactor(short), rate)
    requires IsExpansion(base, rows, cols) && row < |rows|
    ensures |rows[row]| == [6, 6, 7, 7, 8, 8, 9, 10, 11, 13, 16, 22][rate] + (if row / base.Q == 0 then 0 else 1)
  {
    hide Chosen, Shift, Connections;
    SpecSizes(rate);
    SpecsAreGood(rate);
    var spec, Q, br := CODE_SPECS[rate], base.Q, row / base.Q;
    var info := spec.numBlockCols - spec.numBlockRows;
    SystematicOnes(base, spec, Q, rate, row, info);
    ConnectionsExact(spec, rate, br);
    RowListStops(base, row, info + br + 1, base.numBlockCols);
    assert base.entries[br][info + br] == 0;
    if br > 0 {
      RowListStops(base, row, info, info + br - 1);
      assert base.entries[br][info + br - 1] >= 0;
    }
  }

  // ---------- Validation ----------

  const INFO_BITS_LONG: seq<nat> := [8640, 12960, 17280, 21600, 25920, 30240, 34560, 38880, 43200, 47520, 51840, 56160]
  const INFO_BITS_SHORT: seq<nat> := [2160, 3240, 4320, 5400, 6480, 7560, 8640, 9720, 10800, 11880, 12960, 14040]

  function InfoBits(short: bool, rateIdx: nat): nat {
    if rateIdx >= 12 then 0 else if short then INFO_BITS_SHORT[rateIdx] else INFO_BITS_LONG[rateIdx]
  }

  predicate ValidateMatrix(H: SparseMatrix, rateIdx: nat, short: bool) {
    var n := if short then 16200 else 64800;
    var k := InfoBits(short, rateIdx);
    && H.numCols == n && H.numRows == n - k && H.infoBits == k
    && |H.rowIndices| == n - k && |H.colIndices| == n
    && forall r :: 0 <= r < |H.rowIndices| ==> |H.rowIndices[r]| > 0
  }

  lemma Dimensions(rateIdx: nat, short: bool)
    requires rateIdx < 12
    ensures var spec, Q := CODE_SPECS[rateIdx], ExpansionFactor(short);
      && (spec.numBlockCols - spec.numBlockRows) * Q == InfoBits(short, rateIdx)
      && spec.numBlockCols * Q == (if short then 16200 else 64800)
      && spec.numBlockRows * Q == (if short then 16200 else 64800) - InfoBits(short, rateIdx)
      && 15 * InfoBits(short, rateIdx) == (rateIdx + 2) * (if short then 16200 else 64800)
  {}

  /** The generator, for any of the 24 codes: a consistent matrix that passes validation and has full rank. */
  method Generate(rateIdx: nat, short: bool) returns (H: SparseMatrix)
    requires rateIdx < 12
    ensures H.Consistent() && ValidateMatrix(H, rateIdx, short)
    ensures UnitTriangular(H.rowIndices, H.infoBits) && 15 * H.infoBits == (rateIdx + 2) * H.numCols
    ensures rateIdx < |CODE_SPECS| && IsMatrixOf(H.rowIndices, rateIdx, short)
    ensures forall r :: 0 <= r < H.numRows ==> |H.rowIndices[r]| <= 23
  {
    hide Entry, RowList, ColList, Edge, IsMatrixOf;
    SpecsAreGood(rateIdx);
    Dimensions(rateIdx, short);
    var Q := ExpansionFactor(short);
    var base := GenerateBaseMatrix(CODE_SPECS[rateIdx], Q, rateIdx);
    H := ExpandBaseMatrix(base, InfoBits(short, rateIdx));
    ExpansionIsTriangular(base, CODE_SPECS[rateIdx], Q, rateIdx, H.rowIndices, H.colIndices);
    ExpansionIsMatrix(base, rateIdx, short, H.rowIndices, H.colIndices);
    forall r | 0 <= r < H.numRows
      ensures |H.rowIndices[r]| <= 23
    {
      RowDegree(base, rateIdx, short, H.rowIndices, H.colIndices, r);
    }
  }
}
