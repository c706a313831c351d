/**
  The quasi-cyclic parity-check matrices: the base matrix of every code, its expansion
  to row and column lists, and why each information word extends to exactly one codeword.
 */
module LdpcMatrix {
  import opened Arithmetic

  datatype CodeSpec = CodeSpec(numBlockRows: nat, numBlockCols: nat, rowWeight: nat)

  /** The twelve code rates; the tables for long and short codewords agree. */
  const CODE_SPECS: seq<CodeSpec> := [
    CodeSpec(156, 180, 6), CodeSpec(144, 180, 6), CodeSpec(132, 180, 7), CodeSpec(120, 180, 7),
    CodeSpec(108, 180, 8), CodeSpec(96, 180, 8), CodeSpec(84, 180, 9), CodeSpec(72, 180, 10),
    CodeSpec(60, 180, 11), CodeSpec(48, 180, 13), CodeSpec(36, 180, 16), CodeSpec(24, 180, 22)
  ]

  function ExpansionFactor(short: bool): nat {
    if short then 90 else 360
  }

  /** What the table entries have in common: enough systematic columns for the row weight. */
  ghost predicate GoodSpec(spec: CodeSpec) {
    && 0 < spec.numBlockRows < spec.numBlockCols && spec.rowWeight >= 2
    && 3 * (spec.rowWeight - 1) <= spec.numBlockCols - spec.numBlockRows
  }

  lemma SpecsAreGood(i: nat)
    requires i < |CODE_SPECS|
    ensures GoodSpec(CODE_SPECS[i]) && CODE_SPECS[i].numBlockCols == 180
  {}

  // ---------- The base matrix ----------

  predicate Chosen(row: nat, col: nat, rate: nat) {
    (row + col + rate) % 3 == 0 || (row * 2 + col) % 5 == 0
  }

  /** Systematic connections of a block row among its first n columns, capped at the row weight less one. */
  function Connections(row: nat, rate: nat, weight: nat, n: nat): nat {
    if n == 0 then 0
    else
      var c := Connections(row, rate, weight, n - 1);
      if c + 1 < weight && Chosen(row, n - 1, rate) then c + 1 else c
  }

  function Shift(row: nat, col: nat, rate: nat, Q: nat): nat
    requires Q > 0
  {
    (row * 17 + col * 13 + rate * 7) % Q
  }

  /** Entry of the base matrix: a circulant shift, or -1 for a zero block. */
  function Entry(spec: CodeSpec, Q: nat, rate: nat, row: nat, col: nat): (e: int)
    requires Q > 0 && spec.numBlockRows <= spec.numBlockCols
    ensures -1 <= e < Q
  {
    var info := spec.numBlockCols - spec.numBlockRows;
    if col < info then
      if Chosen(row, col, rate) && Connections(row, rate, spec.rowWeight, col) + 1 < spec.rowWeight
      then Shift(row, col, rate, Q) else -1
    else if col == info + row then 0
    else if row > 0 && col == info + row - 1 then (row * 3) % Q
    else -1
  }

  datatype BaseMatrix = BaseMatrix(numBlockRows: nat, numBlockCols: nat, Q: nat, entries: seq<seq<int>>) {
    ghost predicate Valid() {
      && numBlockRows > 0 && numBlockCols > 0 && Q > 0 && |entries| == numBlockRows
      && (forall r :: 0 <= r < numBlockRows ==> |entries[r]| == numBlockCols)
      && forall r, c :: 0 <= r < numBlockRows && 0 <= c < numBlockCols ==> entries[r][c] < Q
    }
  }

  lemma ConnectionsInThree(row: nat, rate: nat, weight: nat, n: nat)
    ensures Connections(row, rate, weight, n) + 1 < weight ==>
              Connections(row, rate, weight, n + 3) > Connections(row, rate, weight, n)
    ensures Connections(row, rate, weight, n + 3) >= Connections(row, rate, weight, n)
  {
    assert (row + n + rate) % 3 == 0 || (row + (n + 1) + rate) % 3 == 0 || (row + (n + 2) + rate) % 3 == 0;
    assert Chosen(row, n, rate) || Chosen(row, n + 1, rate) || Chosen(row, n + 2, rate);
    hide Chosen, Connections;
    ConnectionsStep(row, rate, weight, n);
    ConnectionsStep(row, rate, weight, n + 1);
    ConnectionsStep(row, rate, weight, n + 2);
  }

  /** Every three consecutive columns hold a chosen one, so the connections grow by one until the cap. */
  lemma {:induction false} ConnectionsGrow(row: nat, rate: nat, weight: nat, n: nat, k: nat)
    requires 3 * k <= n && k < weight
    ensures k <= Connections(row, rate, weight, n)
    decreases n
  {
    hide Chosen, Connections;
    if k > 0 {
      if 3 * k <= n - 1 {
        ConnectionsGrow(row, rate, weight, n - 1, k);
        ConnectionsStep(row, rate, weight, n - 1);
      } else {
        ConnectionsGrow(row, rate, weight, n - 3, k - 1);
        ConnectionsInThree(row, rate, weight, n - 3);
      }
    }
  }

  lemma ConnectionsStep(row: nat, rate: nat, weight: nat, n: nat)
    ensures Connections(row, rate, weight, n + 1) >= Connections(row, rate, weight, n)
    ensures Chosen(row, n, rate) && Connections(row, rate, weight, n) + 1 < weight ==>
              Connections(row, rate, weight, n + 1) == Connections(row, rate, weight, n) + 1
  {}

  lemma {:induction false} ConnectionsCapped(row: nat, rate: nat, weight: nat, n: nat)
    requires weight >= 1
    ensures Connections(row, rate, weight, n) <= weight - 1
  {
    if n > 0 {
      ConnectionsCapped(row, rate, weight, n - 1);
    }
  }

  /** Every block row of every code gets exactly its row weight less one systematic connections. */
  lemma ConnectionsExact(spec: CodeSpec, rate: nat, row: nat)
    requires GoodSpec(spec)
    ensures Connections(row, rate, spec.rowWeight, spec.numBlockCols - spec.numBlockRows) == spec.rowWeight - 1
  {
    ConnectionsGrow(row, rate, spec.rowWeight, spec.numBlockCols - spec.numBlockRows, spec.rowWeight - 1);
    ConnectionsCapped(row, rate, spec.rowWeight, spec.numBlockCols - spec.numBlockRows);
  }

  lemma {:induction false} ConnectionsFull(row: nat, rate: nat, weight: nat, m: nat, n: nat)
    requires m <= n
    ensures Connections(row, rate, weight, m) + 1 >= weight ==>
              Connections(row, rate, weight, n) == Connections(row, rate, weight, m)
  {
    if m < n {
      ConnectionsFull(row, rate, weight, m, n - 1);
    }
  }

  method GenerateBaseMatrix(spec: CodeSpec, Q: nat, rateIdx: nat) returns (base: BaseMatrix)
    requires GoodSpec(spec) && Q > 0
    ensures base.Valid() && base.numBlockRows == spec.numBlockRows && base.numBlockCols == spec.numBlockCols &&
            base.Q == Q
    ensures forall r, c :: 0 <= r < spec.numBlockRows && 0 <= c < spec.numBlockCols ==>
              base.entries[r][c] == Entry(spec, Q, rateIdx, r, c)
  {
    hide Chosen, Shift;
    var info := spec.numBlockCols - spec.numBlockRows;
    var entries: seq<seq<int>> := [];
    var row := 0;
    while row < spec.numBlockRows
      invariant 0 <= row <= spec.numBlockRows && |entries| == row
      invariant forall r :: 0 <= r < row ==> |entries[r]| == spec.numBlockCols
      invariant forall r, c :: 0 <= r < row && 0 <= c < spec.numBlockCols ==>
        entries[r][c] == Entry(spec, Q, rateIdx, r, c)
    {
      var line := GenerateRow(spec, Q, rateIdx, row);
      entries := entries + [line];
      row := row + 1;
    }
    base := BaseMatrix(spec.numBlockRows, spec.numBlockCols, Q, entries);
  }

  method GenerateRow(spec: CodeSpec, Q: nat, rateIdx: nat, row: nat) returns (line: seq<int>)
    requires GoodSpec(spec) && Q > 0 && row < spec.numBlockRows
    ensures |line| == spec.numBlockCols
    ensures forall c :: 0 <= c < spec.numBlockCols ==> line[c] == Entry(spec, Q, rateIdx, row, c)
  {
    hide Chosen, Shift;
    var info := spec.numBlockCols - spec.numBlockRows;
    line := seq(spec.numBlockCols, _ => -1);
    var connections := 0;
    var col := 0;
    while col < info && connections < spec.rowWeight - 1
      invariant 0 <= col <= info && |line| == spec.numBlockCols
      invariant connections == Connections(row, rateIdx, spec.rowWeight, col)
      invariant forall c :: 0 <= c < col ==> line[c] == Entry(spec, Q, rateIdx, row, c)
      invariant forall c :: col <= c < spec.numBlockCols ==> line[c] == -1
    {
      if Chosen(row, col, rateIdx) {
        line := line[col := Shift(row, col, rateIdx, Q)];
        connections := connections + 1;
      }
      col := col + 1;
    }
    // The source's minimum-connectivity loop runs while connections < rowWeight / 2: never.
    ConnectionsExact(spec, rateIdx, row);
    forall c | col <= c < info
      ensures Entry(spec, Q, rateIdx, row, c) == -1
    {
      ConnectionsFull(row, rateIdx, spec.rowWeight, col, c);
    }
    assert connections >= spec.rowWeight / 2;
    var parityCol := info + row;
    line := line[parityCol := 0];
    if row > 0 {
      line := line[parityCol - 1 := (row * 3) % Q];
    }
  }

  // ---------- Expansion ----------

  function Wrap(i: nat, shift: nat, Q: nat): (j: nat)
    requires Q > 0
    ensures j < Q
  {
    (i + shift) % Q
  }

  /** The row of a circulant block that meets column j. */
  function Unwrap(j: nat, shift: nat, Q: nat): (i: nat)
    requires j < Q && shift < Q
    ensures i < Q
  {
    if j >= shift then j - shift else j - shift + Q
  }

  lemma WrapUnwrap(i: nat, j: nat, shift: nat, Q: nat)
    requires i < Q && j < Q && shift < Q
    ensures Wrap(i, shift, Q) == j <==> i == Unwrap(j, shift, Q)
  {
    if i + shift < Q {
      DivModUnique(i + shift, Q, 0, i + shift);
    } else {
      DivModUnique(i + shift, Q, 1, i + shift - Q);
    }
  }

  /** The matrix has a one at (row, col). */
  ghost predicate Edge(base: BaseMatrix, row: nat, col: nat)
    requires base.Valid() && row / base.Q < base.numBlockRows && col / base.Q < base.numBlockCols
  {
    var shift := base.entries[row / base.Q][col / base.Q];
    shift >= 0 && col % base.Q == Wrap(row % base.Q, shift, base.Q)
  }

  /** The columns of a row within the first n block columns. */
  ghost function RowList(base: BaseMatrix, row: nat, n: nat): seq<nat>
    requires base.Valid() && row / base.Q < base.numBlockRows && n <= base.numBlockCols
  {
    if n == 0 then []
    else
      var shift := base.entries[row / base.Q][n - 1];
      RowList(base, row, n - 1) + (if shift < 0 then [] else [(n - 1) * base.Q + Wrap(row % base.Q, shift, base.Q)])
  }

  /** The rows of a column within the first n block rows. */
  ghost function ColList(base: BaseMatrix, col: nat, n: nat): seq<nat>
    requires base.Valid() && col / base.Q < base.numBlockCols && n <= base.numBlockRows
  {
    if n == 0 then []
    else
      var shift := base.entries[n - 1][col / base.Q];
      ColList(base, col, n - 1) + (if shift < 0 then [] else [(n - 1) * base.Q + Unwrap(col % base.Q, shift, base.Q)])
  }

  ghost predicate Ascending(s: seq<nat>) {
    forall i, j :: 0 <= i < j < |s| ==> s[i] < s[j]
  }

  lemma {:induction false} RowListIs(base: BaseMatrix, row: nat, n: nat)
    requires base.Valid() && row / base.Q < base.numBlockRows && n <= base.numBlockCols
    ensures Ascending(RowList(base, row, n))
    ensures forall i :: 0 <= i < |RowList(base, row, n)| ==> RowList(base, row, n)[i] < n * base.Q
  {
    if n > 0 {
      RowListIs(base, row, n - 1);
      NextMultiple(n - 1, base.Q);
    }
  }

  lemma {:induction false} ColListIs(base: BaseMatrix, col: nat, n: nat)
    requires base.Valid() && col / base.Q < base.numBlockCols && n <= base.numBlockRows
    ensures Ascending(ColList(base, col, n))
    ensures forall i :: 0 <= i < |ColList(base, col, n)| ==> ColList(base, col, n)[i] < n * base.Q
  {
    if n > 0 {
      ColListIs(base, col, n - 1);
      NextMultiple(n - 1, base.Q);
    }
  }

  lemma {:induction false} RowListMember(base: BaseMatrix, row: nat, n: nat, col: nat)
    requires base.Valid() && row / base.Q < base.numBlockRows && n <= base.numBlockCols &&
             col / base.Q < base.numBlockCols
    ensures col in RowList(base, row, n) <==> col / base.Q < n && Edge(base, row, col)
  {
    hide Wrap;
    if n > 0 {
      RowListMember(base, row, n - 1, col);
      var shift := base.entries[row / base.Q][n - 1];
      if shift >= 0 {
        Locate(col, base.Q, n - 1, Wrap(row % base.Q, shift, base.Q));
      }
    }
  }

  lemma {:induction false} ColListMember(base: BaseMatrix, col: nat, n: nat, row: nat)
    requires base.Valid() && col / base.Q < base.numBlockCols && n <= base.numBlockRows &&
             row / base.Q < base.numBlockRows
    ensures row in ColList(base, col, n) <==> row / base.Q < n && Edge(base, row, col)
  {
    hide Wrap, Unwrap;
    if n > 0 {
      ColListMember(base, col, n - 1, row);
      var shift := base.entries[n - 1][col / base.Q];
      if shift >= 0 {
        Locate(row, base.Q, n - 1, Unwrap(col % base.Q, shift, base.Q));
        WrapUnwrap(row % base.Q, col % base.Q, shift, base.Q);
      }
    }
  }

  /** Row lists and column lists are transposes of each other. */
  lemma ListsAreTransposes(base: BaseMatrix, row: nat, col: nat)
    requires base.Valid() && row / base.Q < base.numBlockRows && col / base.Q < base.numBlockCols
    ensures col in RowList(base, row, base.numBlockCols) <==> row in ColList(base, col, base.numBlockRows)
  {
    RowListMember(base, row, base.numBlockCols, col);
    ColListMember(base, col, base.numBlockRows, row);
  }

  datatype SparseMatrix = SparseMatrix(numRows: nat, numCols: nat, rowIndices: seq<seq<nat>>,
                                       colIndices: seq<seq<nat>>, infoBits: nat) {
    /** Row and column lists are sorted without repetition and describe the same ones. */
    ghost predicate Consistent() {
      && |rowIndices| == numRows && |colIndices| == numCols
      && (forall r :: 0 <= r < numRows ==> Ascending(rowIndices[r]))
      && (forall c :: 0 <= c < numCols ==> Ascending(colIndices[c]))
      && (forall r, i :: 0 <= r < numRows && 0 <= i < |rowIndices[r]| ==>
            rowIndices[r][i] < numCols && r in colIndices[rowIndices[r][i]])
      && (forall c, i :: 0 <= c < numCols && 0 <= i < |colIndices[c]| ==>
            colIndices[c][i] < numRows && c in rowIndices[colIndices[c][i]])
    }
  }

  /** How far the list of row r has got: block columns done while block (br, bc) is next. */
  function RowProgress(base: BaseMatrix, r: nat, br: nat, bc: nat): nat
    requires base.Q > 0
  {
    if r / base.Q < br then base.numBlockCols else if r / base.Q == br then bc else 0
  }

  function ColProgress(base: BaseMatrix, c: nat, br: nat, bc: nat): nat
    requires base.Q > 0
  {
    if c / base.Q < bc then br + 1 else br
  }

  ghost predicate Expanded(base: BaseMatrix, rows: seq<seq<nat>>, cols: seq<seq<nat>>, br: nat, bc: nat)
    requires base.Valid() && br < base.numBlockRows && bc <= base.numBlockCols
  {
    && |rows| == base.numBlockRows * base.Q && |cols| == base.numBlockCols * base.Q
    && (forall r :: 0 <= r < |rows| ==>
      r / base.Q < base.numBlockRows && rows[r] == RowList(base, r, RowProgress(base, r, br, bc)))
    && forall c :: 0 <= c < |cols| ==>
      c / base.Q < base.numBlockCols && cols[c] == ColList(base, c, ColProgress(base, c, br, bc))
  }

  lemma BlockOf(x: nat, n: nat, Q: nat)
    requires Q > 0 && x < n * Q
    ensures x / Q < n
  {
    assert x == (x / Q) * Q + x % Q;
    MulMono(n, x / Q, Q);
  }

  /** Push the ones of one circulant block: one into each row of the block, one into each of its columns. */
  method ExpandBlock(rows: seq<seq<nat>>, cols: seq<seq<nat>>, br: nat, bc: nat, Q: nat, shift: nat)
    returns (rows': seq<seq<nat>>, cols': seq<seq<nat>>)
    requires Q > 0 && shift < Q && br * Q + Q <= |rows| && bc * Q + Q <= |cols|
    ensures |rows'| == |rows| && |cols'| == |cols|
    ensures forall r :: 0 <= r < |rows| ==>
              rows'[r] == rows[r] + (if r / Q == br then [bc * Q + Wrap(r % Q, shift, Q)] else [])
    ensures forall c :: 0 <= c < |cols| ==>
              cols'[c] == cols[c] + (if c / Q == bc then [br * Q + Unwrap(c % Q, shift, Q)] else [])
  {
    hide Wrap, Unwrap;
    rows', cols' := rows, cols;
    var i := 0;
    while i < Q
      invariant 0 <= i <= Q && |rows'| == |rows| && |cols'| == |cols|
      invariant forall r :: 0 <= r < |rows| ==>
        rows'[r] == rows[r] + (if r / Q == br && r % Q < i then [bc * Q + Wrap(r % Q, shift, Q)] else [])
      invariant forall c :: 0 <= c < |cols| ==>
        cols'[c] == cols[c] +
          (if c / Q == bc && Unwrap(c % Q, shift, Q) < i then [br * Q + Unwrap(c % Q, shift, Q)] else [])
    {
      var row := br * Q + i;
      var j := Wrap(i, shift, Q);
      var col := bc * Q + j;
      rows', cols' := PushOne(rows, cols, rows', cols', br, bc, Q, shift, i, row, col);
      i := i + 1;
    }
  }

  /** One turn of the block loop: column col joins row row, and the other way round. */
  method PushOne(ghost rows0: seq<seq<nat>>, ghost cols0: seq<seq<nat>>, rows: seq<seq<nat>>, cols: seq<seq<nat>>,
                 ghost br: nat, ghost bc: nat, ghost Q: nat, ghost shift: nat, ghost i: nat, row: nat, col: nat)
    returns (rows': seq<seq<nat>>, cols': seq<seq<nat>>)
    requires Q > 0 && shift < Q && i < Q && |rows| == |rows0| && |cols| == |cols0|
    requires br * Q + Q <= |rows| && bc * Q + Q <= |cols| && row == br * Q + i && col == bc * Q + Wrap(i, shift, Q)
    requires forall r :: 0 <= r < |rows| ==>
      rows[r] == rows0[r] + (if r / Q == br && r % Q < i then [bc * Q + Wrap(r % Q, shift, Q)] else [])
    requires forall c :: 0 <= c < |cols| ==>
      cols[c] == cols0[c] +
        (if c / Q == bc && Unwrap(c % Q, shift, Q) < i then [br * Q + Unwrap(c % Q, shift, Q)] else [])
    ensures |rows'| == |rows| && |cols'| == |cols|
    ensures forall r :: 0 <= r < |rows| ==>
              rows'[r] == rows0[r] + (if r / Q == br && r % Q < i + 1 then [bc * Q + Wrap(r % Q, shift, Q)] else [])
    ensures forall c :: 0 <= c < |cols| ==>
              cols'[c] == cols0[c] +
                (if c / Q == bc && Unwrap(c % Q, shift, Q) < i + 1 then [br * Q + Unwrap(c % Q, shift, Q)] else [])
  {
    hide Wrap, Unwrap;
    rows', cols' := rows[row := rows[row] + [col]], cols[col := cols[col] + [row]];
    forall r | 0 <= r < |rows|
      ensures rows'[r] == rows0[r] + (if r / Q == br && r % Q < i + 1 then [bc * Q + Wrap(r % Q, shift, Q)] else [])
    {
      Locate(r, Q, br, i);
    }
    forall c | 0 <= c < |cols|
      ensures cols'[c] == cols0[c] +
                (if c / Q == bc && Unwrap(c % Q, shift, Q) < i + 1 then [br * Q + Unwrap(c % Q, shift, Q)] else [])
    {
      Locate(c, Q, bc, Wrap(i, shift, Q));
      WrapUnwrap(i, c % Q, shift, Q);
    }
  }

  /** Expanding a block advances the progress of exactly its rows and columns. */
  lemma BlockExpands(base: BaseMatrix, rows: seq<seq<nat>>, cols: seq<seq<nat>>, rows': seq<seq<nat>>,
                     cols': seq<seq<nat>>, br: nat, bc: nat)
    requires base.Valid() && br < base.numBlockRows && bc < base.numBlockCols && Expanded(base, rows, cols, br, bc)
    requires |rows'| == |rows| && |cols'| == |cols|
    requires var shift := base.entries[br][bc];
      if shift < 0 then rows' == rows && cols' == cols
      else
        && (forall r :: 0 <= r < |rows| ==>
          rows'[r] == rows[r] + (if r / base.Q == br then [bc * base.Q + Wrap(r % base.Q, shift, base.Q)] else []))
        && forall c :: 0 <= c < |cols| ==>
          cols'[c] == cols[c] + (if c / base.Q == bc then [br * base.Q + Unwrap(c % base.Q, shift, base.Q)] else [])
    ensures Expanded(base, rows', cols', br, bc + 1)
  {
    hide Wrap, Unwrap;
    forall r | 0 <= r < |rows|
      ensures rows'[r] == RowList(base, r, RowProgress(base, r, br, bc + 1))
    {
      if r / base.Q == br {
        assert RowList(base, r, bc + 1) ==
               RowList(base, r, bc) + (if base.entries[br][bc] < 0 then []
                 else [bc * base.Q + Wrap(r % base.Q, base.entries[br][bc], base.Q)]);
      }
    }
    forall c | 0 <= c < |cols|
      ensures cols'[c] == ColList(base, c, ColProgress(base, c, br, bc + 1))
    {
      if c / base.Q == bc {
        assert ColList(base, c, br + 1) ==
               ColList(base, c, br) + (if base.entries[br][bc] < 0 then []
                 else [br * base.Q + Unwrap(c % base.Q, base.entries[br][bc], base.Q)]);
      }
    }
  }

  /** The full row and column lists of a base matrix. */
  ghost predicate IsExpansion(base: BaseMatrix, rows: seq<seq<nat>>, cols: seq<seq<nat>>)
    requires base.Valid()
  {
    && |rows| == base.numBlockRows * base.Q && |cols| == base.numBlockCols * base.Q
    && (forall r :: 0 <= r < |rows| ==>
      r / base.Q < base.numBlockRows && rows[r] == RowList(base, r, base.numBlockCols))
    && forall c :: 0 <= c < |cols| ==>
      c / base.Q < base.numBlockCols && cols[c] == ColList(base, c, base.numBlockRows)
  }

  /** The expanded lists come out ascending, so sorting them changes nothing. */
  lemma ExpansionIsConsistent(base: BaseMatrix, rows: seq<seq<nat>>, cols: seq<seq<nat>>, infoBits: nat)
    requires base.Valid() && IsExpansion(base, rows, cols)
    ensures SparseMatrix(|rows|, |cols|, rows, cols, infoBits).Consistent()
  {
    hide RowList, ColList, Edge;
    forall r | 0 <= r < |rows|
      ensures Ascending(rows[r])
      ensures forall i :: 0 <= i < |rows[r]| ==> rows[r][i] < |cols| && r in cols[rows[r][i]]
    {
      RowListIs(base, r, base.numBlockCols);
      forall i | 0 <= i < |rows[r]|
        ensures rows[r][i] < |cols| && r in cols[rows[r][i]]
      {
        ListsAreTransposes(base, r, rows[r][i]);
      }
    }
    forall c | 0 <= c < |cols|
      ensures Ascending(cols[c])
      ensures forall i :: 0 <= i < |cols[c]| ==> cols[c][i] < |rows| && c in rows[cols[c][i]]
    {
      ColListIs(base, c, base.numBlockRows);
      forall i | 0 <= i < |cols[c]|
        ensures cols[c][i] < |rows| && c in rows[cols[c][i]]
      {
        ListsAreTransposes(base, cols[c][i], c);
      }
    }
  }

  /** Expansion to sparse lists; indices must fit the source's 16-bit entries. */
  method ExpandBaseMatrix(base: BaseMatrix, infoBits: nat) returns (H: SparseMatrix)
    requires base.Valid() && base.numBlockRows * base.Q <= 65536 && base.numBlockCols * base.Q <= 65536
    ensures H.numRows == base.numBlockRows * base.Q && H.numCols == base.numBlockCols * base.Q && H.infoBits == infoBits
    ensures IsExpansion(base, H.rowIndices, H.colIndices) && H.Consistent()
  {
    hide RowList, ColList, Edge, Wrap, Unwrap, RowProgress, ColProgress;
    var Q := base.Q;
    var rows: seq<seq<nat>> := seq(base.numBlockRows * Q, _ => []);
    var cols: seq<seq<nat>> := seq(base.numBlockCols * Q, _ => []);
    ExpansionStarts(base, rows, cols);
    var br := 0;
    while br < base.numBlockRows
      invariant 0 <= br <= base.numBlockRows
      invariant br < base.numBlockRows ==> Expanded(base, rows, cols, br, 0)
      invariant br == base.numBlockRows ==> IsExpansion(base, rows, cols)
    {
      MulMono(br + 1, base.numBlockRows, Q);
      NextMultiple(br, Q);
      var bc := 0;
      while bc < base.numBlockCols
        invariant 0 <= bc <= base.numBlockCols && Expanded(base, rows, cols, br, bc)
      {
        var shift := base.entries[br][bc];
        MulMono(bc + 1, base.numBlockCols, Q);
        NextMultiple(bc, Q);
        ghost var rows0, cols0 := rows, cols;
        if shift >= 0 {
          rows, cols := ExpandBlock(rows, cols, br, bc, Q, shift);
        }
        BlockExpands(base, rows0, cols0, rows, cols, br, bc);
        bc := bc + 1;
      }
      ExpansionAdvances(base, rows, cols, br);
      br := br + 1;
    }
    ExpansionIsConsistent(base, rows, cols, infoBits);
    H := SparseMatrix(base.numBlockRows * Q, base.numBlockCols * Q, rows, cols, infoBits);
  }

  lemma RowStarts(base: BaseMatrix, r: nat)
    requires base.Valid() && r < base.numBlockRows * base.Q
    ensures r / base.Q < base.numBlockRows && RowProgress(base, r, 0, 0) == 0 && RowList(base, r, 0) == []
  {
    BlockOf(r, base.numBlockRows, base.Q);
  }

  lemma ColStarts(base: BaseMatrix, c: nat)
    requires base.Valid() && c < base.numBlockCols * base.Q
    ensures c / base.Q < base.numBlockCols && ColProgress(base, c, 0, 0) == 0 && ColList(base, c, 0) == []
  {
    BlockOf(c, base.numBlockCols, base.Q);
  }

  lemma ExpansionStarts(base: BaseMatrix, rows: seq<seq<nat>>, cols: seq<seq<nat>>)
    requires base.Valid()
    requires |rows| == base.numBlockRows * base.Q && |cols| == base.numBlockCols * base.Q
    requires (forall r :: 0 <= r < |rows| ==> rows[r] == []) && forall c :: 0 <= c < |cols| ==> cols[c] == []
    ensures Expanded(base, rows, cols, 0, 0)
  {
    hide RowList, ColList;
    forall r | 0 <= r < |rows|
      ensures r / base.Q < base.numBlockRows && rows[r] == RowList(base, r, RowProgress(base, r, 0, 0))
    {
      RowStarts(base, r);
    }
    forall c | 0 <= c < |cols|
      ensures c / base.Q < base.numBlockCols && cols[c] == ColList(base, c, ColProgress(base, c, 0, 0))
    {
      ColStarts(base, c);
    }
  }

  /** A finished block row leaves every list where the next one finds it. */
  lemma ProgressCarries(base: BaseMatrix, x: nat, br: nat)
    requires base.Q > 0
    ensures RowProgress(base, x, br, base.numBlockCols) == RowProgress(base, x, br + 1, 0)
    ensures x / base.Q < base.numBlockRows == br + 1 ==>
            RowProgress(base, x, br, base.numBlockCols) == base.numBlockCols
    ensures x / base.Q < base.numBlockCols ==>
              ColProgress(base, x, br, base.numBlockCols) == ColProgress(base, x, br + 1, 0) == br + 1
  {}

  lemma ExpansionAdvances(base: BaseMatrix, rows: seq<seq<nat>>, cols: seq<seq<nat>>, br: nat)
    requires base.Valid() && br < base.numBlockRows && Expanded(base, rows, cols, br, base.numBlockCols)
    ensures br + 1 < base.numBlockRows ==> Expanded(base, rows, cols, br + 1, 0)
    ensures br + 1 == base.numBlockRows ==> IsExpansion(base, rows, cols)
  {
    hide RowList, ColList, RowProgress, ColProgress;
    forall r | 0 <= r < |rows|
      ensures RowProgress(base, r, br, base.numBlockCols) == RowProgress(base, r, br + 1, 0)
      ensures br + 1 == base.numBlockRows ==> RowProgress(base, r, br, base.numBlockCols) == base.numBlockCols
    {
      ProgressCarries(base, r, br);
    }
    forall c | 0 <= c < |cols|
      ensures ColProgress(base, c, br, base.numBlockCols) == ColProgress(base, c, br + 1, 0) == br + 1
    {
      ProgressCarries(base, c, br);
    }
  }

  // ---------- Edge maps ----------

  /** map1[a][i] is the place of a in the list of its i-th neighbour. */
  ghost predicate EdgeMap(lists: seq<seq<nat>>, others: seq<seq<nat>>, places: seq<seq<nat>>, n: nat)
    requires n <= |lists|
    requires forall a, i :: 0 <= a < |lists| && 0 <= i < |lists[a]| ==> lists[a][i] < |others|
  {
    && |places| == n
    && (forall a :: 0 <= a < n ==> |places[a]| == |lists[a]|)
    && forall a, i :: 0 <= a < n && 0 <= i < |lists[a]| ==>
      places[a][i] < |others[lists[a][i]]| && others[lists[a][i]][places[a][i]] == a
  }

  /** One of the two symmetric loops that fill an edge map by searching the neighbour's list. */
  method BuildEdgeMap(lists: seq<seq<nat>>, others: seq<seq<nat>>) returns (places: seq<seq<nat>>)
    requires forall a, i :: 0 <= a < |lists| && 0 <= i < |lists[a]| ==>
               lists[a][i] < |others| && a in others[lists[a][i]]
    ensures EdgeMap(lists, others, places, |lists|)
  {
    places := [];
    var a := 0;
    while a < |lists|
      invariant 0 <= a <= |lists| && EdgeMap(lists, others, places, a)
    {
      var line: seq<nat> := [];
      var i := 0;
      while i < |lists[a]|
        invariant 0 <= i <= |lists[a]| && |line| == i
        invariant forall j :: 0 <= j < i ==> line[j] < |others[lists[a][j]]| && others[lists[a][j]][line[j]] == a
      {
        var list := others[lists[a][i]];
        var k := 0;
        while k < |list| && list[k] != a
          invariant 0 <= k <= |list| && a !in list[..k]
        {
          k := k + 1;
        }
        assert a in list;
        assert list[..|list|] == list;
        line := line + [k];
        i := i + 1;
      }
      places := places + [line];
      a := a + 1;
    }
  }

  method BuildEdgeMappings(H: SparseMatrix) returns (rowToCol: seq<seq<nat>>, colToRow: seq<seq<nat>>)
    requires H.Consistent()
    ensures EdgeMap(H.rowIndices, H.colIndices, rowToCol, H.numRows)
    ensures EdgeMap(H.colIndices, H.rowIndices, colToRow, H.numCols)
  {
    rowToCol := BuildEdgeMap(H.rowIndices, H.colIndices);
    colToRow := BuildEdgeMap(H.colIndices, H.rowIndices);
  }

  /** Following either edge map and then the other comes back to the same edge. */
  lemma EdgeMapsInverse(H: SparseMatrix, rowToCol: seq<seq<nat>>, colToRow: seq<seq<nat>>)
    requires H.Consistent()
    requires EdgeMap(H.rowIndices, H.colIndices, rowToCol, H.numRows)
    requires EdgeMap(H.colIndices, H.rowIndices, colToRow, H.numCols)
    ensures forall r, i :: 0 <= r < H.numRows && 0 <= i < |H.rowIndices[r]| ==>
              var c, k := H.rowIndices[r][i], rowToCol[r][i];
              k < |H.colIndices[c]| && H.colIndices[c][k] == r && colToRow[c][k] == i
    ensures forall c, k :: 0 <= c < H.numCols && 0 <= k < |H.colIndices[c]| ==>
              var r, i := H.colIndices[c][k], colToRow[c][k];
              i < |H.rowIndices[r]| && H.rowIndices[r][i] == c && rowToCol[r][i] == k
  {
    forall r, i | 0 <= r < H.numRows && 0 <= i < |H.rowIndices[r]|
      ensures colToRow[H.rowIndices[r][i]][rowToCol[r][i]] == i
    {
      var c, k := H.rowIndices[r][i], rowToCol[r][i];
      assert H.rowIndices[r][colToRow[c][k]] == c;
      AscendingInjective(H.rowIndices[r], i, colToRow[c][k]);
    }
    forall c, k | 0 <= c < H.numCols && 0 <= k < |H.colIndices[c]|
      ensures rowToCol[H.colIndices[c][k]][colToRow[c][k]] == k
    {
      var r, i := H.colIndices[c][k], colToRow[c][k];
      assert H.colIndices[c][rowToCol[r][i]] == r;
      AscendingInjective(H.colIndices[c], k, rowToCol[r][i]);
    }
  }

  lemma AscendingInjective(s: seq<nat>, i: nat, j: nat)
    requires Ascending(s) && i < |s| && j < |s| && s[i] == s[j]
    ensures i == j
  {}
}
