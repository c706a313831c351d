/** The convolutional time deinterleaver: its delay lines, and what it does to a whole stream. */
module TimeDeinterleaving {
  import Arithmetic
  import opened BitMasks

  // ---------- Delays ----------

  /** Element v of a row's history, and 0 before its beginning. */
  function At(history: seq<int>, v: int): int
    requires v < |history|
  {
    if v < 0 then 0 else history[v]
  }

  /** The deinterleaver's delay of a row, in visits to that row. */
  function Delay(rows: nat, cellsPerBlock: nat, row: nat): nat
    requires row < rows
  {
    (rows - 1 - row) * cellsPerBlock
  }

  /** A circular buffer of the latest visits, the oldest at the write position. */
  ghost predicate IsLine(line: seq<int>, pos: nat, history: seq<int>) {
    && (|line| > 0 ==> pos < |line|)
    && forall q :: 0 <= q < |line| ==>
         var v := |history| - pos + q - (if q < pos then 0 else |line|);
         v < |history| && line[q] == At(history, v)
  }

  lemma FreshLine(delay: nat)
    ensures IsLine(seq(delay, _ => 0), 0, [])
  {}

  /** Reading the old value and storing the new one delays the row by the length of the line. */
  lemma LineStep(line: seq<int>, pos: nat, history: seq<int>, x: int)
    requires IsLine(line, pos, history) && |line| > 0
    ensures line[pos] == At(history + [x], |history| - |line|)
    ensures IsLine(line[pos := x], if pos + 1 >= |line| then 0 else pos + 1, history + [x])
  {}

  // ---------- Rows of a stream ----------

  /** The cells of a stream that go to one row: every rows-th, starting at the row's number. */
  function Row(stream: seq<int>, rows: nat, row: nat): seq<int>
    requires rows > 0
  {
    var n := |stream|;
    if n == 0 then []
    else Row(stream[..n - 1], rows, row) + (if (n - 1) % rows == row then [stream[n - 1]] else [])
  }

  lemma RowNext(stream: seq<int>, x: int, rows: nat, row: nat)
    requires rows > 0
    ensures Row(stream + [x], rows, row) == Row(stream, rows, row) + (if |stream| % rows == row then [x] else [])
  {
    assert (stream + [x])[..|stream|] == stream;
  }

  lemma NextPosition(n: nat, rows: nat)
    requires rows > 0
    ensures n % rows + 1 < rows ==> (n + 1) / rows == n / rows && (n + 1) % rows == n % rows + 1
    ensures n % rows + 1 == rows ==> (n + 1) / rows == n / rows + 1 && (n + 1) % rows == 0
  {
    var q, r := n / rows, n % rows;
    assert n == q * rows + r;
    if r + 1 < rows {
      Arithmetic.DivModUnique(n + 1, rows, q, r + 1);
    } else {
      Arithmetic.NextMultiple(q, rows);
      Arithmetic.DivModUnique(n + 1, rows, q + 1, 0);
    }
  }

  lemma {:induction false} RowLength(stream: seq<int>, rows: nat, row: nat)
    requires row < rows
    ensures |Row(stream, rows, row)| == |stream| / rows + (if row < |stream| % rows then 1 else 0)
    decreases |stream|
  {
    var n := |stream|;
    if n == 0 {
      Arithmetic.DivModUnique(0, rows, 0, 0);
    } else {
      RowLength(stream[..n - 1], rows, row);
      NextPosition(n - 1, rows);
    }
  }

  /** Position p of the stream is visit p / rows of row p % rows. */
  lemma {:induction false} RowAt(stream: seq<int>, rows: nat, p: nat)
    requires rows > 0 && p < |stream|
    ensures p % rows < rows && p / rows < |Row(stream, rows, p % rows)|
    ensures Row(stream, rows, p % rows)[p / rows] == stream[p]
    decreases |stream|
  {
    var n := |stream| - 1;
    var r := p % rows;
    RowLength(stream[..n], rows, r);
    if p < n {
      RowAt(stream[..n], rows, p);
    }
  }

  // ---------- One call ----------

  /** The cell s positions before p, and 0 before the beginning. */
  function Earlier(stream: seq<int>, s: nat, p: nat): int
    requires p < |stream|
  {
    if p < s then 0 else stream[p - s]
  }

  /** The deinterleaver's shift of a stream position, in cells. */
  function StreamDelay(rows: nat, cellsPerBlock: nat, p: nat): nat
    requires rows > 0
  {
    rows * Delay(rows, cellsPerBlock, p % rows)
  }

  /** The interleaver of the transmitter delays row r by r blocks. */
  function SpecDelay(rows: nat, cellsPerBlock: nat, p: nat): nat
    requires rows > 0
  {
    rows * (p % rows * cellsPerBlock)
  }

  /** p - rows * d is d visits earlier in the same row. */
  lemma EarlierVisit(p: nat, rows: nat, d: nat)
    requires rows > 0
    ensures p / rows < d ==> p < rows * d
    ensures p / rows >= d ==>
              p >= rows * d && (p - rows * d) / rows == p / rows - d && (p - rows * d) % rows == p % rows
  {
    var q, r := p / rows, p % rows;
    assert p == q * rows + r;
    Arithmetic.MulMono(q + 1, d, rows);
    Arithmetic.NextMultiple(q, rows);
    assert d * rows == rows * d;
    if q >= d {
      assert (q - d) * rows == q * rows - d * rows;
      Arithmetic.DivModUnique(p - rows * d, rows, q - d, r);
    }
  }

  /** A row's delay in visits is a delay of whole rounds in the stream. */
  lemma RowDelayIsShift(stream: seq<int>, rows: nat, p: nat, d: nat)
    requires rows > 0 && p < |stream|
    ensures p % rows < rows && p / rows - d < |Row(stream, rows, p % rows)|
    ensures At(Row(stream, rows, p % rows), p / rows - d) == if p < rows * d then 0 else stream[p - rows * d]
  {
    hide Row;
    EarlierVisit(p, rows, d);
    RowAt(stream, rows, p);
    var s := rows * d;
    if p / rows >= d {
      RowAt(stream, rows, p - s);
    }
  }

  /** Cell i of a call, given what each row has seen, comes out as the row's cell Delay visits ago. */
  ghost predicate CellOutput(rows: nat, cellsPerBlock: nat, seen: seq<seq<int>>, input: seq<int>, i: nat, x: int)
    requires rows > 0 && |seen| == rows && i < |input|
  {
    var r := i % rows;
    var h := seen[r] + Row(input, rows, r);
    var v := |seen[r]| + i / rows - Delay(rows, cellsPerBlock, r);
    v < |h| && x == At(h, v)
  }

  ghost predicate CallOutput(rows: nat, cellsPerBlock: nat, seen: seq<seq<int>>, input: seq<int>, output: seq<int>) {
    && rows > 0 && |seen| == rows && |output| == |input|
    && forall i :: 0 <= i < |input| ==> CellOutput(rows, cellsPerBlock, seen, input, i, output[i])
  }

  /** The rows after a call. */
  function SeenAfter(rows: nat, seen: seq<seq<int>>, input: seq<int>): (after: seq<seq<int>>)
    requires rows > 0 && |seen| == rows
    ensures |after| == rows
  {
    seq(rows, r requires 0 <= r < rows => seen[r] + Row(input, rows, r))
  }

  /** Whole rounds have been seen, and the rows are those of the stream. */
  ghost predicate Aligned(rows: nat, stream: seq<int>, seen: seq<seq<int>>) {
    rows > 0 && |stream| % rows == 0 && |seen| == rows && forall r :: 0 <= r < rows ==> seen[r] == Row(stream, rows, r)
  }

  lemma {:induction false} RowConcat(stream: seq<int>, input: seq<int>, rows: nat, row: nat)
    requires rows > 0 && |stream| % rows == 0
    ensures Row(stream + input, rows, row) == Row(stream, rows, row) + Row(input, rows, row)
    decreases |input|
  {
    var n := |input|;
    if n == 0 {
      assert stream + input == stream;
    } else {
      var t, x := input[..n - 1], input[n - 1];
      assert stream + input == stream + t + [x] && input == t + [x];
      RowConcat(stream, t, rows, row);
      RowNext(stream + t, x, rows, row);
      RowNext(t, x, rows, row);
      WholeRounds(|stream|, n - 1, rows);
    }
  }

  lemma WholeRounds(m: nat, n: nat, rows: nat)
    requires rows > 0 && m % rows == 0
    ensures (m + n) % rows == n % rows && (m + n) / rows == m / rows + n / rows
  {
    var a, q, r := m / rows, n / rows, n % rows;
    assert m == a * rows && n == q * rows + r;
    assert (a + q) * rows == a * rows + q * rows;
    Arithmetic.DivModUnique(m + n, rows, a + q, r);
  }

  /** After whole rounds, a call continues the stream: each cell is shifted by its row's delay. */
  lemma CallContinues(rows: nat, cellsPerBlock: nat, stream: seq<int>, seen: seq<seq<int>>, input: seq<int>,
                      output: seq<int>)
    requires Aligned(rows, stream, seen) && CallOutput(rows, cellsPerBlock, seen, input, output)
    ensures forall i :: 0 <= i < |input| ==>
              output[i] == Earlier(stream + input, StreamDelay(rows, cellsPerBlock, |stream| + i), |stream| + i)
    ensures |input| % rows == 0 ==> Aligned(rows, stream + input, SeenAfter(rows, seen, input))
  {
    hide Row, Delay;
    var whole := stream + input;
    forall i | 0 <= i < |input|
      ensures output[i] == Earlier(whole, StreamDelay(rows, cellsPerBlock, |stream| + i), |stream| + i)
    {
      var p, r := |stream| + i, i % rows;
      WholeRounds(|stream|, i, rows);
      RowConcat(stream, input, rows, r);
      WholeLength(stream, rows, r);
      RowDelayIsShift(whole, rows, p, Delay(rows, cellsPerBlock, r));
      assert CellOutput(rows, cellsPerBlock, seen, input, i, output[i]);
    }
    if |input| % rows == 0 {
      WholeRounds(|stream|, |input|, rows);
      forall r | 0 <= r < rows
        ensures SeenAfter(rows, seen, input)[r] == Row(whole, rows, r)
      {
        RowConcat(stream, input, rows, r);
      }
    }
  }

  lemma WholeLength(stream: seq<int>, rows: nat, row: nat)
    requires row < rows && |stream| % rows == 0
    ensures |Row(stream, rows, row)| == |stream| / rows
  {
    RowLength(stream, rows, row);
  }

  /** What the rows have seen after the calls, from construction or reset. */
  function SeenAfterAll(rows: nat, calls: seq<seq<int>>): (seen: seq<seq<int>>)
    requires rows > 0
    ensures |seen| == rows
  {
    var n := |calls|;
    if n == 0 then seq(rows, _ => []) else SeenAfter(rows, SeenAfterAll(rows, calls[..n - 1]), calls[n - 1])
  }

  // ---------- The deinterleaver ----------

  class TimeDeinterleaver {
    const interleaved: bool
    const cellsPerBlock: nat
    const numRows: nat
    const rowMask: nat
    var delayLines: seq<seq<int>>
    var writePos: seq<nat>
    /** What each row has been given since construction or reset. */
    ghost var seen: seq<seq<int>>

    ghost predicate Shape() {
      && numRows > 0
      && rowMask == if interleaved && IsPowerOfTwo(numRows) then numRows - 1 else 0
    }

    ghost predicate RowsAre()
      reads this
    {
      && |delayLines| == |writePos| == |seen| == numRows
      && (forall r :: 0 <= r < numRows ==>
            |delayLines[r]| == Delay(numRows, cellsPerBlock, r) && IsLine(delayLines[r], writePos[r], seen[r]))
    }

    ghost predicate Valid()
      reads this
    {
      Shape() && (interleaved ==> RowsAre())
    }

    /** depth 0, or the mode without time interleaving, passes cells through. */
    constructor (depth: nat, cellsPerBlock: nat, modeNone: bool)
      ensures Valid() && this.cellsPerBlock == cellsPerBlock
      ensures interleaved <==> depth > 0 && !modeNone
      ensures interleaved ==> numRows == depth + 1 && seen == SeenAfterAll(numRows, [])
    {
      hide IsPowerOfTwo, IsLine;
      var on := depth > 0 && !modeNone;
      var rows := if on then depth + 1 else 1;
      var lines: seq<seq<int>>, positions: seq<nat> := [], [];
      if on {
        for row := 0 to rows
          invariant |lines| == |positions| == row
          invariant forall r :: 0 <= r < row ==>
                      |lines[r]| == Delay(rows, cellsPerBlock, r) && IsLine(lines[r], positions[r], [])
        {
          var delay := (rows - 1 - row) * cellsPerBlock;
          FreshLine(delay);
          lines := lines + [seq(delay, _ => 0)];
          positions := positions + [0];
        }
      }
      interleaved, this.cellsPerBlock, numRows := on, cellsPerBlock, rows;
      rowMask := if on && IsPowerOfTwo(rows) then rows - 1 else 0;
      delayLines, writePos, seen := lines, positions, seq(rows, _ => []);
    }

    /** One cell: the row's oldest cell comes out and this one goes in; a row without delay passes it on. */
    method ProcessCell(inputCell: int, cellIndex: nat) returns (outputCell: int)
      requires Valid() && interleaved
      modifies this
      ensures Valid()
      ensures var r := cellIndex % numRows;
              && r < numRows == |old(seen)|
              && seen == old(seen)[r := old(seen[r]) + [inputCell]]
              && |old(seen[r])| - Delay(numRows, cellsPerBlock, r) < |seen[r]|
              && outputCell == At(seen[r], |old(seen[r])| - Delay(numRows, cellsPerBlock, r))
    {
      hide IsLine, And, Delay;
      var row: nat;
      if rowMask != 0 {
        MaskOfPower(numRows, cellIndex);
        row := And(cellIndex, rowMask);
      } else {
        row := cellIndex % numRows;
      }
      ghost var h := seen[row];
      seen := seen[row := h + [inputCell]];
      if |delayLines[row]| == 0 {
        EmptyLine(delayLines[row], writePos[row], h + [inputCell]);
        return inputCell;
      }
      LineStep(delayLines[row], writePos[row], h, inputCell);
      PosInLine(delayLines[row], writePos[row], h);
      var pos := writePos[row];
      outputCell := delayLines[row][pos];
      delayLines := delayLines[row := delayLines[row][pos := inputCell]];
      pos := pos + 1;
      if pos >= |delayLines[row]| {
        pos := 0;
      }
      writePos := writePos[row := pos];
    }

    method Process(input: seq<int>, output: array<int>)
      requires Valid() && output.Length == |input|
      modifies this, output
      ensures Valid()
      ensures !interleaved ==> output[..] == input && seen == old(seen)
      ensures interleaved ==>
                CallOutput(numRows, cellsPerBlock, old(seen), input, output[..]) &&
                |old(seen)| == numRows && seen == SeenAfter(numRows, old(seen), input)
    {
      hide RowsAre, Shape, Delay, Row, CellOutput;
      if !interleaved {
        for i := 0 to |input|
          invariant Valid() && seen == old(seen)
          invariant forall j :: 0 <= j < i ==> output[j] == input[j]
        {
          output[i] := input[i];
        }
        return;
      }
      ValidCount();
      ghost var before := seen;
      StartRows(numRows, before, input);
      for i := 0 to |input|
        invariant Valid() && |before| == numRows
        invariant seen == SeenAfter(numRows, before, input[..i])
        invariant forall j :: 0 <= j < i ==> CellOutput(numRows, cellsPerBlock, before, input, j, output[j])
      {
        var x := ProcessCell(input[i], i);
        output[i] := x;
        OneMore(numRows, cellsPerBlock, before, input, i, x);
      }
      assert input[..|input|] == input;
    }

    lemma ValidCount()
      requires Valid() && interleaved
      ensures numRows > 0 && |seen| == numRows
    {}

    method Reset()
      requires Valid()
      modifies this
      ensures Valid()
      ensures interleaved ==> seen == SeenAfterAll(numRows, [])
    {
      hide IsLine, Delay;
      var lines: seq<seq<int>> := [];
      for r := 0 to |delayLines|
        invariant |lines| == r && delayLines == old(delayLines) && writePos == old(writePos)
        invariant seen == old(seen) && Valid()
        invariant forall j :: 0 <= j < r ==> |lines[j]| == |delayLines[j]| && IsLine(lines[j], 0, [])
      {
        FreshLine(|delayLines[r]|);
        lines := lines + [seq(|delayLines[r]|, _ => 0)];
      }
      delayLines := lines;
      writePos := seq(|writePos|, _ => 0);
      seen := seq(numRows, _ => []);
    }
  }

  lemma EmptyLine(line: seq<int>, pos: nat, history: seq<int>)
    requires |line| == 0
    ensures IsLine(line, pos, history)
  {}

  lemma PosInLine(line: seq<int>, pos: nat, history: seq<int>)
    requires IsLine(line, pos, history) && |line| > 0
    ensures pos < |line|
  {}

  lemma StartRows(rows: nat, seen: seq<seq<int>>, input: seq<int>)
    requires rows > 0 && |seen| == rows
    ensures SeenAfter(rows, seen, input[..0]) == seen
  {
    forall r | 0 <= r < rows
      ensures SeenAfter(rows, seen, input[..0])[r] == seen[r]
    {
      assert seen[r] + [] == seen[r];
    }
  }

  /** The rows after one more cell, and that cell's output in terms of the whole input. */
  lemma OneMore(rows: nat, cellsPerBlock: nat, seen: seq<seq<int>>, input: seq<int>, i: nat, x: int)
    requires rows > 0 && |seen| == rows && i < |input| && i % rows < rows
    requires var h := SeenAfter(rows, seen, input[..i])[i % rows];
             && |h| - Delay(rows, cellsPerBlock, i % rows) < |h + [input[i]]|
             && x == At(h + [input[i]], |h| - Delay(rows, cellsPerBlock, i % rows))
    ensures var r := i % rows;
            SeenAfter(rows, seen, input[..i + 1])
            == SeenAfter(rows, seen, input[..i])[r := SeenAfter(rows, seen, input[..i])[r] + [input[i]]]
    ensures CellOutput(rows, cellsPerBlock, seen, input, i, x)
  {
    hide Row, Delay;
    var r := i % rows;
    assert input[..i + 1] == input[..i] + [input[i]];
    forall q | 0 <= q < rows
      ensures SeenAfter(rows, seen, input[..i + 1])[q]
           == SeenAfter(rows, seen, input[..i])[q] + (if q == r then [input[i]] else [])
    {
      RowNext(input[..i], input[i], rows, q);
      assert seen[q] + (Row(input[..i], rows, q) + [input[i]]) == seen[q] + Row(input[..i], rows, q) + [input[i]];
    }
    var now, next := SeenAfter(rows, seen, input[..i]), SeenAfter(rows, seen, input[..i + 1]);
    var want := now[r := now[r] + [input[i]]];
    forall q | 0 <= q < rows
      ensures next[q] == want[q]
    {
      assert now[q] + [] == now[q];
    }
    RowLength(input[..i], rows, r);
    RowPrefix(input, rows, r, i + 1);
  }

  lemma {:induction false} RowPrefix(stream: seq<int>, rows: nat, row: nat, n: nat)
    requires rows > 0 && n <= |stream|
    ensures Row(stream[..n], rows, row) <= Row(stream, rows, row)
    decreases |stream|
  {
    if n == |stream| {
      assert stream[..n] == stream;
    } else {
      var front := stream[..|stream| - 1];
      assert front[..n] == stream[..n];
      RowPrefix(front, rows, row, n);
    }
  }
}
