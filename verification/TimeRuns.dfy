/** The time deinterleaver over a whole run of calls: when its delays add up to those of the stream. */
module TimeRuns {
  import Arithmetic
  import opened Sequences
  import opened TimeDeinterleaving

  // ---------- Whole runs ----------

  /** The delay of interleaver and deinterleaver together, in cells. */
  function Latency(rows: nat, cellsPerBlock: nat): nat
    requires rows > 0
  {
    rows * ((rows - 1) * cellsPerBlock)
  }

  /** The shifts of the interleaver and of the deinterleaver add up to the same for every position. */
  lemma ShiftsAddUp(rows: nat, cellsPerBlock: nat, p: nat)
    requires rows > 0
    ensures StreamDelay(rows, cellsPerBlock, p) + SpecDelay(rows, cellsPerBlock, p) == Latency(rows, cellsPerBlock)
    ensures StreamDelay(rows, cellsPerBlock, p) <= p ==>
              SpecDelay(rows, cellsPerBlock, p - StreamDelay(rows, cellsPerBlock, p)) ==
                SpecDelay(rows, cellsPerBlock, p)
  {
    var r, d := p % rows, Delay(rows, cellsPerBlock, p % rows);
    Distribute(rows - 1 - r, r, cellsPerBlock, rows);
    EarlierVisit(p, rows, d);
  }

  lemma Distribute(a: nat, b: nat, c: nat, n: nat)
    ensures n * (a * c) + n * (b * c) == n * ((a + b) * c)
  {
    assert (a + b) * c == a * c + b * c;
  }

  /** What the transmitter sends for an original stream. */
  ghost predicate IsSent(rows: nat, cellsPerBlock: nat, original: seq<int>, sent: seq<int>)
    requires rows > 0
  {
    |sent| == |original| && forall p :: 0 <= p < |sent| ==>
      sent[p] == Earlier(original, SpecDelay(rows, cellsPerBlock, p), p)
  }

  /** The deinterleaved stream is the original, later by the same number of cells everywhere. */
  lemma StreamComesBack(rows: nat, cellsPerBlock: nat, original: seq<int>, sent: seq<int>, p: nat)
    requires rows > 0 && IsSent(rows, cellsPerBlock, original, sent) && p < |sent|
    ensures Earlier(sent, StreamDelay(rows, cellsPerBlock, p), p) ==
            Earlier(original, Latency(rows, cellsPerBlock), p)
  {
    hide StreamDelay, SpecDelay;
    ShiftsAddUp(rows, cellsPerBlock, p);
    var s := StreamDelay(rows, cellsPerBlock, p);
    if s <= p {
      assert sent[p - s] == Earlier(original, SpecDelay(rows, cellsPerBlock, p - s), p - s);
    }
  }

  /** The outputs of the calls, one after the other. */
  ghost predicate RunOutput(rows: nat, cellsPerBlock: nat, calls: seq<seq<int>>, outputs: seq<seq<int>>)
    requires rows > 0
  {
    |outputs| == |calls| && forall i :: 0 <= i < |calls| ==>
      CallOutput(rows, cellsPerBlock, SeenAfterAll(rows, calls[..i]), calls[i], outputs[i])
  }

  function Lengths(calls: seq<seq<int>>): seq<nat> {
    seq(|calls|, i requires 0 <= i < |calls| => |calls[i]|)
  }

  /** The number of cells in the first i calls. */
  function Offset(lens: seq<nat>, i: nat): nat
    requires i <= |lens|
  {
    if i == 0 then 0 else Offset(lens, i - 1) + lens[i - 1]
  }

  /** Every call that has cells begins where a round of the stream begins. */
  ghost predicate StartsAligned(rows: nat, lens: seq<nat>)
    requires rows > 0
  {
    forall i :: 0 <= i < |lens| && lens[i] > 0 ==> Offset(lens, i) % rows == 0
  }

  /** Each position of the outputs holds the cell its row's delay before it. */
  ghost predicate IsShift(rows: nat, cellsPerBlock: nat, stream: seq<int>, output: seq<int>)
    requires rows > 0
  {
    |output| == |stream| && forall p :: 0 <= p < |stream| ==>
      output[p] == Earlier(stream, StreamDelay(rows, cellsPerBlock, p), p)
  }

  lemma ShiftExtends(rows: nat, cellsPerBlock: nat, stream: seq<int>, output: seq<int>, input: seq<int>, more: seq<int>)
    requires rows > 0 && IsShift(rows, cellsPerBlock, stream, output) && |more| == |input|
    requires forall i :: 0 <= i < |input| ==>
               more[i] == Earlier(stream + input, StreamDelay(rows, cellsPerBlock, |stream| + i), |stream| + i)
    ensures IsShift(rows, cellsPerBlock, stream + input, output + more)
  {
    hide StreamDelay;
    var whole := stream + input;
    forall p | 0 <= p < |whole|
      ensures (output + more)[p] == Earlier(whole, StreamDelay(rows, cellsPerBlock, p), p)
    {
      if p < |stream| {
        assert output[p] == Earlier(stream, StreamDelay(rows, cellsPerBlock, p), p);
      } else {
        var i := p - |stream|;
        assert more[i] == Earlier(whole, StreamDelay(rows, cellsPerBlock, |stream| + i), |stream| + i);
      }
    }
  }

  lemma {:induction false} OffsetIs(calls: seq<seq<int>>, i: nat)
    requires i <= |calls|
    ensures Offset(Lengths(calls), i) == |Concat(calls[..i])|
  {
    if i > 0 {
      assert calls[..i][..i - 1] == calls[..i - 1];
      OffsetIs(calls, i - 1);
    }
  }

  /** A run whose calls start at whole rounds is one shifted stream; its last call may end inside a round. */
  lemma {:induction false} AlignedRun(rows: nat, cellsPerBlock: nat, calls: seq<seq<int>>, outputs: seq<seq<int>>)
    requires rows > 0 && StartsAligned(rows, Lengths(calls)) && RunOutput(rows, cellsPerBlock, calls, outputs)
    ensures |Concat(calls)| % rows == 0 ==> Aligned(rows, Concat(calls), SeenAfterAll(rows, calls))
    ensures IsShift(rows, cellsPerBlock, Concat(calls), Concat(outputs))
    decreases |calls|
  {
    hide Row, StreamDelay, CallOutput, SeenAfter, Aligned, IsShift, Earlier, RunOutput, StartsAligned;
    var n := |calls|;
    RunParts(rows, cellsPerBlock, calls, outputs);
    if n == 0 {
      NothingSeen(rows, cellsPerBlock);
    } else {
      var front, outs, call, output := calls[..n - 1], outputs[..n - 1], calls[n - 1], outputs[n - 1];
      AlignedRun(rows, cellsPerBlock, front, outs);
      var seen := SeenAfterAll(rows, front);
      CallLength(rows, cellsPerBlock, seen, call, output);
      if |call| == 0 {
        EmptyCall(rows, seen, call);
        assert Concat(calls) == Concat(front) && Concat(outputs) == Concat(outs);
      } else {
        CallContinues(rows, cellsPerBlock, Concat(front), seen, call, output);
        ShiftExtends(rows, cellsPerBlock, Concat(front), Concat(outs), call, output);
        WholeRounds(|Concat(front)|, |call|, rows);
      }
    }
  }

  lemma EmptyCall(rows: nat, seen: seq<seq<int>>, call: seq<int>)
    requires rows > 0 && |seen| == rows && |call| == 0
    ensures SeenAfter(rows, seen, call) == seen
  {
    StartRows(rows, seen, call);
    assert call[..0] == call;
  }

  /** All but the last call, and the last one. */
  lemma RunParts(rows: nat, cellsPerBlock: nat, calls: seq<seq<int>>, outputs: seq<seq<int>>)
    requires rows > 0 && StartsAligned(rows, Lengths(calls)) && RunOutput(rows, cellsPerBlock, calls, outputs)
    ensures |outputs| == |calls|
    ensures var n := |calls|; n > 0 ==>
              && StartsAligned(rows, Lengths(calls[..n - 1]))
              && RunOutput(rows, cellsPerBlock, calls[..n - 1], outputs[..n - 1])
              && (|calls[n - 1]| > 0 ==> |Concat(calls[..n - 1])| % rows == 0)
              && CallOutput(rows, cellsPerBlock, SeenAfterAll(rows, calls[..n - 1]), calls[n - 1], outputs[n - 1])
  {
    hide CallOutput, SeenAfter, SeenAfterAll, Concat, StartsAligned;
    var n := |calls|;
    if n > 0 {
      AlignedParts(rows, calls);
      var front := calls[..n - 1];
      forall i | 0 <= i < |front|
        ensures CallOutput(rows, cellsPerBlock, SeenAfterAll(rows, front[..i]), front[i], outputs[..|front|][i])
      {
        assert front[..i] == calls[..i];
      }
    }
  }

  lemma AlignedParts(rows: nat, calls: seq<seq<int>>)
    requires rows > 0 && |calls| > 0 && StartsAligned(rows, Lengths(calls))
    ensures StartsAligned(rows, Lengths(calls[..|calls| - 1]))
    ensures |calls[|calls| - 1]| > 0 ==> |Concat(calls[..|calls| - 1])| % rows == 0
  {
    hide Concat, Offset;
    var front := calls[..|calls| - 1];
    OffsetIs(calls, |front|);
    forall i | 0 <= i < |front|
      ensures Offset(Lengths(front), i) == Offset(Lengths(calls), i)
    {
      assert front[..i] == calls[..i];
      OffsetIs(calls, i);
      OffsetIs(front, i);
    }
  }

  // ---------- Lines without delay ----------

  /** Without delay every call passes its cells on. */
  lemma PassesOn(rows: nat, seen: seq<seq<int>>, input: seq<int>, output: seq<int>)
    requires CallOutput(rows, 0, seen, input, output)
    ensures output == input
  {
    hide Row;
    forall i | 0 <= i < |input|
      ensures output[i] == input[i]
    {
      assert CellOutput(rows, 0, seen, input, i, output[i]);
      RowAt(input, rows, i);
    }
  }

  lemma {:induction false} UndelayedRun(rows: nat, calls: seq<seq<int>>, outputs: seq<seq<int>>)
    requires rows > 0 && RunOutput(rows, 0, calls, outputs)
    ensures IsShift(rows, 0, Concat(calls), Concat(outputs))
  {
    hide CallOutput, SeenAfter, Row, Concat;
    forall i | 0 <= i < |calls|
      ensures outputs[i] == calls[i]
    {
      PassesOn(rows, SeenAfterAll(rows, calls[..i]), calls[i], outputs[i]);
    }
    assert outputs == calls;
  }

  /** What suffices for the delay law, and for long last calls is necessary. */
  ghost predicate KeepsRounds(rows: nat, cellsPerBlock: nat, lens: seq<nat>)
    requires rows > 0
  {
    rows == 1 || cellsPerBlock == 0 || StartsAligned(rows, lens)
  }

  /** Such a run is one shifted stream. */
  lemma RunIsShift(rows: nat, cellsPerBlock: nat, calls: seq<seq<int>>, outputs: seq<seq<int>>)
    requires rows > 0 && KeepsRounds(rows, cellsPerBlock, Lengths(calls))
    requires RunOutput(rows, cellsPerBlock, calls, outputs)
    ensures IsShift(rows, cellsPerBlock, Concat(calls), Concat(outputs))
  {
    hide RunOutput, IsShift, Concat;
    if cellsPerBlock == 0 {
      UndelayedRun(rows, calls, outputs);
    } else {
      AlignedRun(rows, cellsPerBlock, calls, outputs);
    }
  }

  lemma CallLength(rows: nat, cellsPerBlock: nat, seen: seq<seq<int>>, input: seq<int>, output: seq<int>)
    requires CallOutput(rows, cellsPerBlock, seen, input, output)
    ensures |output| == |input|
  {}

  lemma NothingSeen(rows: nat, cellsPerBlock: nat)
    requires rows > 0
    ensures Aligned(rows, [], seq(rows, _ => [])) && IsShift(rows, cellsPerBlock, [], [])
  {
    Arithmetic.DivModUnique(0, rows, 0, 0);
  }

  /** End to end: such a run returns the transmitted stream exactly Latency cells later. */
  lemma RunRecovers(rows: nat, cellsPerBlock: nat, original: seq<int>, calls: seq<seq<int>>, outputs: seq<seq<int>>)
    requires rows > 0 && KeepsRounds(rows, cellsPerBlock, Lengths(calls))
    requires RunOutput(rows, cellsPerBlock, calls, outputs)
    requires IsSent(rows, cellsPerBlock, original, Concat(calls))
    ensures |Concat(outputs)| == |original|
    ensures forall p :: 0 <= p < |original| ==>
              Concat(outputs)[p] == Earlier(original, Latency(rows, cellsPerBlock), p)
  {
    hide StreamDelay, SpecDelay, RunOutput, KeepsRounds, Concat, Latency, Earlier;
    RunIsShift(rows, cellsPerBlock, calls, outputs);
    var sent, out := Concat(calls), Concat(outputs);
    forall p | 0 <= p < |original|
      ensures out[p] == Earlier(original, Latency(rows, cellsPerBlock), p)
    {
      StreamComesBack(rows, cellsPerBlock, original, sent, p);
    }
  }

  lemma RowOfOne(x: int)
    ensures Row([x], 2, 0) == [x] && Row([x], 2, 1) == []
  {
    assert [x][..0] == [];
  }

  lemma TwoCalls(a: seq<int>, b: seq<int>)
    ensures Concat([a, b]) == a + b
    ensures SeenAfterAll(2, [a, b][..0]) == [[], []]
    ensures SeenAfterAll(2, [a, b][..1]) == SeenAfter(2, [[], []], a)
  {
    hide SeenAfter;
    assert [a, b][..1] == [a] && [a, b][..0] == [] && [a][..0] == [];
    assert Concat([a]) == [] + a;
  }

  /** A call that ends inside a round starts the next one in the wrong row: two calls of one cell on two rows. */
  lemma PartialRoundsBreak()
    ensures RunOutput(2, 1, [[1], [2]], [[0], [1]])
    ensures !IsShift(2, 1, Concat([[1], [2]]), Concat([[0], [1]]))
  {
    hide Row, SeenAfterAll, Concat;
    TwoCalls([1], [2]);
    TwoCalls([0], [1]);
    RowOfOne(1);
    RowOfOne(2);
    var none: seq<seq<int>> := [[], []];
    assert none[0] + [1] == [1] && none[1] + [] == [];
    assert SeenAfter(2, none, [1]) == [[1], []];
    assert CellOutput(2, 1, [[], []], [1], 0, 0);
    assert CellOutput(2, 1, [[1], []], [2], 0, 1);
    assert ([1] + [2])[1] == 2 && ([0] + [1])[1] == 1;
    assert StreamDelay(2, 1, 1) == 0;
  }

  // ---------- When the law holds ----------

  /** Whatever the cells of calls of these lengths, the outputs follow the delay law. */
  ghost predicate LawHolds(rows: nat, cellsPerBlock: nat, lens: seq<nat>)
    requires rows > 0
  {
    forall calls: seq<seq<int>>, outputs: seq<seq<int>> ::
      Lengths(calls) == lens && RunOutput(rows, cellsPerBlock, calls, outputs) ==>
        IsShift(rows, cellsPerBlock, Concat(calls), Concat(outputs))
  }

  lemma LawSuffices(rows: nat, cellsPerBlock: nat, lens: seq<nat>)
    requires rows > 0 && KeepsRounds(rows, cellsPerBlock, lens)
    ensures LawHolds(rows, cellsPerBlock, lens)
  {
    hide RunOutput, IsShift, Concat, KeepsRounds, Lengths;
    forall calls: seq<seq<int>>, outputs: seq<seq<int>> |
      Lengths(calls) == lens && RunOutput(rows, cellsPerBlock, calls, outputs)
      ensures IsShift(rows, cellsPerBlock, Concat(calls), Concat(outputs))
    {
      RunIsShift(rows, cellsPerBlock, calls, outputs);
    }
  }

  function CellResult(rows: nat, cellsPerBlock: nat, seen: seq<seq<int>>, input: seq<int>, i: nat): (x: int)
    requires rows > 0 && |seen| == rows && i < |input|
    ensures CellOutput(rows, cellsPerBlock, seen, input, i, x)
  {
    hide Row;
    RowAt(input, rows, i);
    var r := i % rows;
    At(seen[r] + Row(input, rows, r), |seen[r]| + i / rows - Delay(rows, cellsPerBlock, r))
  }

  function CallResult(rows: nat, cellsPerBlock: nat, seen: seq<seq<int>>, input: seq<int>): (output: seq<int>)
    requires rows > 0 && |seen| == rows
    ensures CallOutput(rows, cellsPerBlock, seen, input, output)
  {
    hide CellOutput;
    seq(|input|, i requires 0 <= i < |input| => CellResult(rows, cellsPerBlock, seen, input, i))
  }

  /** The outputs that a run has. */
  function RunResult(rows: nat, cellsPerBlock: nat, calls: seq<seq<int>>): (outputs: seq<seq<int>>)
    requires rows > 0
    ensures RunOutput(rows, cellsPerBlock, calls, outputs)
  {
    hide CallOutput;
    seq(|calls|, i requires 0 <= i < |calls| =>
      CallResult(rows, cellsPerBlock, SeenAfterAll(rows, calls[..i]), calls[i]))
  }

  /** A stream of zeros but for the first cell of call j. */
  function Impulse(lens: seq<nat>, j: nat): (calls: seq<seq<int>>)
    requires j < |lens| && lens[j] > 0
    ensures Lengths(calls) == lens
  {
    seq(|lens|, i requires 0 <= i < |lens| => seq(lens[i], k => if i == j && k == 0 then 1 else 0))
  }

  ghost predicate IsZero(s: seq<int>) {
    forall k :: 0 <= k < |s| ==> s[k] == 0
  }

  /** A row takes nothing but zeros from a call whose other cells all lie in other rows. */
  lemma {:induction false} RowIsZero(stream: seq<int>, rows: nat, row: nat)
    requires row < rows
    requires forall k :: 0 <= k < |stream| && k % rows == row ==> stream[k] == 0
    ensures IsZero(Row(stream, rows, row))
    decreases |stream|
  {
    if |stream| > 0 {
      RowIsZero(stream[..|stream| - 1], rows, row);
    }
  }

  lemma ImpulseRow(lens: seq<nat>, j: nat, i: nat, rows: nat, row: nat)
    requires j < |lens| && lens[j] > 0 && i < |lens| && row < rows && (row > 0 || i != j)
    ensures IsZero(Row(Impulse(lens, j)[i], rows, row))
  {
    hide Row;
    if rows > 0 {
      Arithmetic.DivModUnique(0, rows, 0, 0);
    }
    RowIsZero(Impulse(lens, j)[i], rows, row);
  }

  /** Rows other than the first never see the impulse, and the first not before call j. */
  lemma {:induction false} SeenIsZero(lens: seq<nat>, j: nat, i: nat, rows: nat, row: nat)
    requires j < |lens| && lens[j] > 0 && i <= |lens| && row < rows && (row > 0 || i <= j)
    ensures IsZero(SeenAfterAll(rows, Impulse(lens, j)[..i])[row])
    decreases i
  {
    hide Row, Impulse;
    var calls := Impulse(lens, j);
    SameLength(calls, lens);
    if i > 0 {
      SeenIsZero(lens, j, i - 1, rows, row);
      ImpulseRow(lens, j, i - 1, rows, row);
      assert calls[..i][..i - 1] == calls[..i - 1];
    }
  }

  lemma SameLength(calls: seq<seq<int>>, lens: seq<nat>)
    requires Lengths(calls) == lens
    ensures |calls| == |lens| && forall i :: 0 <= i < |lens| ==> |calls[i]| == lens[i]
  {
    forall i | 0 <= i < |calls|
      ensures |calls[i]| == lens[i]
    {
      assert Lengths(calls)[i] == |calls[i]|;
    }
  }

  /** A zero row, or a row read before its latest call, gives a zero. */
  lemma CellIsZero(rows: nat, cellsPerBlock: nat, seen: seq<seq<int>>, input: seq<int>, i: nat, x: int)
    requires rows > 0 && |seen| == rows && i < |input| && CellOutput(rows, cellsPerBlock, seen, input, i, x)
    requires i % rows < rows && IsZero(seen[i % rows])
    requires IsZero(Row(input, rows, i % rows)) || i / rows < Delay(rows, cellsPerBlock, i % rows)
    ensures x == 0
  {}

  /** Where cell t of a run is. */
  lemma {:induction false} WhichCall(calls: seq<seq<int>>, t: nat) returns (k: nat)
    requires t < |Concat(calls)|
    ensures k < |calls| && Offset(Lengths(calls), k) <= t < Offset(Lengths(calls), k) + |calls[k]|
    decreases |calls|
  {
    hide Offset;
    var n := |calls|;
    var front := calls[..n - 1];
    OffsetIs(calls, n - 1);
    if t < |Concat(front)| {
      k := WhichCall(front, t);
      OffsetIs(calls, k);
      OffsetIs(front, k);
      assert front[..k] == calls[..k];
    } else {
      k := n - 1;
    }
  }

  /** Cell i of the k-th part is cell Offset + i of all parts together. */
  lemma PartAt(parts: seq<seq<int>>, k: nat, i: nat)
    requires k < |parts| && i < |parts[k]|
    ensures Offset(Lengths(parts), k) + i < |Concat(parts)|
    ensures Concat(parts)[Offset(Lengths(parts), k) + i] == parts[k][i]
  {
    ConcatPrefix(parts, k + 1);
    OffsetIs(parts, k);
    assert parts[..k + 1][..k] == parts[..k];
  }

  lemma OutputLengths(rows: nat, cellsPerBlock: nat, calls: seq<seq<int>>, outputs: seq<seq<int>>)
    requires rows > 0 && RunOutput(rows, cellsPerBlock, calls, outputs)
    ensures Lengths(outputs) == Lengths(calls)
  {
    hide CallOutput;
    forall i | 0 <= i < |calls|
      ensures |outputs[i]| == |calls[i]|
    {
      CallLength(rows, cellsPerBlock, SeenAfterAll(rows, calls[..i]), calls[i], outputs[i]);
    }
  }

  lemma {:induction false} OffsetGrows(lens: seq<nat>, i: nat, k: nat)
    requires i <= k <= |lens|
    ensures Offset(lens, i) <= Offset(lens, k)
  {
    if i < k {
      OffsetGrows(lens, i, k - 1);
    }
  }

  lemma {:induction false} LastMisaligned(rows: nat, lens: seq<nat>, from: nat) returns (j: nat)
    requires rows > 0 && from <= |lens| && !StartsAligned(rows, lens)
    requires forall i :: from <= i < |lens| && lens[i] > 0 ==> Offset(lens, i) % rows == 0
    ensures j < |lens| && lens[j] > 0 && Offset(lens, j) % rows != 0
    ensures forall i :: j < i < |lens| && lens[i] > 0 ==> Offset(lens, i) % rows == 0
    decreases from
  {
    if lens[from - 1] > 0 && Offset(lens, from - 1) % rows != 0 {
      j := from - 1;
    } else {
      j := LastMisaligned(rows, lens, from - 1);
    }
  }

  /** Where the delay law wants the first cell of the misaligned call to come out, a zero comes out. */
  lemma ImpulseIsLost(rows: nat, cellsPerBlock: nat, lens: seq<nat>, j: nat, k: nat, i: nat, x: int)
    requires rows > 0 && cellsPerBlock > 0 && j <= k < |lens| && lens[j] > 0 && i < lens[k]
    requires Offset(lens, j) % rows != 0 && (j < k ==> Offset(lens, k) % rows == 0)
    requires Offset(lens, k) + i == Offset(lens, j) + rows * Delay(rows, cellsPerBlock, Offset(lens, j) % rows)
    requires CellOutput(rows, cellsPerBlock, SeenAfterAll(rows, Impulse(lens, j)[..k]), Impulse(lens, j)[k], i, x)
    ensures x == 0
  {
    hide Row, Impulse, SeenAfterAll, CellOutput, Offset, Delay;
    var calls := Impulse(lens, j);
    SameLength(calls, lens);
    var p := Offset(lens, j);
    var r := p % rows;
    var d := Delay(rows, cellsPerBlock, r);
    Arithmetic.MultipleMod(rows, d);
    if k == j {
      Arithmetic.DivModUnique(i, rows, d, 0);
      ShorterDelay(rows, cellsPerBlock, r);
      SeenIsZero(lens, j, k, rows, 0);
    } else {
      WholeRounds(rows * d, p, rows);
      WholeRounds(Offset(lens, k), i, rows);
      SeenIsZero(lens, j, k, rows, r);
      ImpulseRow(lens, j, k, rows, r);
    }
    CellIsZero(rows, cellsPerBlock, SeenAfterAll(rows, calls[..k]), calls[k], i, x);
  }

  lemma ShorterDelay(rows: nat, cellsPerBlock: nat, r: nat)
    requires 0 < r < rows && cellsPerBlock > 0
    ensures Delay(rows, cellsPerBlock, r) < Delay(rows, cellsPerBlock, 0)
  {
    assert (rows - 1 - r) * cellsPerBlock + r * cellsPerBlock == (rows - 1) * cellsPerBlock;
    Arithmetic.MulGrows(cellsPerBlock, r);
  }

  lemma WithinLatency(rows: nat, cellsPerBlock: nat, r: nat)
    requires r < rows
    ensures rows * Delay(rows, cellsPerBlock, r) <= Latency(rows, cellsPerBlock)
  {
    Distribute(rows - 1 - r, r, cellsPerBlock, rows);
  }

  /** The place where the law wants the cell at offset p: some call from j on, and an index in it. */
  lemma WantedPlace(rows: nat, cellsPerBlock: nat, lens: seq<nat>, j: nat) returns (k: nat, i: nat)
    requires rows > 0 && j < |lens| && lens[j] > 0 && lens[|lens| - 1] > Latency(rows, cellsPerBlock)
    ensures j <= k < |lens| && i < lens[k]
    ensures Offset(lens, k) + i == Offset(lens, j) + rows * Delay(rows, cellsPerBlock, Offset(lens, j) % rows)
  {
    hide Delay, Latency, Concat, Offset, Impulse;
    var calls := Impulse(lens, j);
    SameLength(calls, lens);
    var p, last := Offset(lens, j), |lens| - 1;
    var t := p + rows * Delay(rows, cellsPerBlock, p % rows);
    OffsetGrows(lens, j, last);
    WithinLatency(rows, cellsPerBlock, p % rows);
    if t >= Offset(lens, last) {
      k := last;
    } else {
      OffsetIs(calls, last);
      ConcatPrefix(calls, last);
      k := WhichCall(calls, t);
      if k < j {
        OffsetNext(lens, k);
        OffsetGrows(lens, k + 1, j);
      }
    }
    i := t - Offset(lens, k);
  }

  lemma OffsetNext(lens: seq<nat>, k: nat)
    requires k < |lens|
    ensures Offset(lens, k + 1) == Offset(lens, k) + lens[k]
  {}

  /** The law's delay at the wanted place leads back to offset p. */
  lemma LeadsBack(rows: nat, cellsPerBlock: nat, stream: seq<int>, p: nat, t: nat)
    requires rows > 0 && t == p + rows * Delay(rows, cellsPerBlock, p % rows) && t < |stream|
    ensures Earlier(stream, StreamDelay(rows, cellsPerBlock, t), t) == stream[p]
  {
    hide Delay;
    var d := Delay(rows, cellsPerBlock, p % rows);
    Arithmetic.MultipleMod(rows, d);
    WholeRounds(rows * d, p, rows);
  }

  lemma ShiftAt(rows: nat, cellsPerBlock: nat, stream: seq<int>, output: seq<int>, t: nat)
    requires rows > 0 && IsShift(rows, cellsPerBlock, stream, output) && t < |stream|
    ensures |output| == |stream| && output[t] == Earlier(stream, StreamDelay(rows, cellsPerBlock, t), t)
  {}

  lemma ImpulseIsOne(lens: seq<nat>, j: nat)
    requires j < |lens| && lens[j] > 0
    ensures |Impulse(lens, j)[j]| == lens[j] && Impulse(lens, j)[j][0] == 1
  {}

  /** A misaligned call breaks the law as soon as the last call is longer than the latency. */
  lemma MisalignedBreaks(rows: nat, cellsPerBlock: nat, lens: seq<nat>)
    requires rows > 0 && cellsPerBlock > 0 && |lens| > 0
    requires lens[|lens| - 1] > Latency(rows, cellsPerBlock) && !StartsAligned(rows, lens)
    ensures !LawHolds(rows, cellsPerBlock, lens)
  {
    hide RunOutput, CellOutput, CallOutput, Row, SeenAfterAll, Delay, Latency, Concat, StartsAligned, Impulse,
      RunResult, Offset, IsShift, StreamDelay, Lengths, Earlier;
    var j := LastMisaligned(rows, lens, |lens|);
    var k, i := WantedPlace(rows, cellsPerBlock, lens, j);
    var calls := Impulse(lens, j);
    var outputs := RunResult(rows, cellsPerBlock, calls);
    SameLength(calls, lens);
    ImpulseIsOne(lens, j);
    OutputLengths(rows, cellsPerBlock, calls, outputs);
    CellOf(rows, cellsPerBlock, calls, outputs, k, i);
    ImpulseIsLost(rows, cellsPerBlock, lens, j, k, i, outputs[k][i]);
    var p := Offset(lens, j);
    var t := Offset(lens, k) + i;
    PartAt(calls, j, 0);
    PartAt(calls, k, i);
    PartAt(outputs, k, i);
    LeadsBack(rows, cellsPerBlock, Concat(calls), p, t);
    if IsShift(rows, cellsPerBlock, Concat(calls), Concat(outputs)) {
      ShiftAt(rows, cellsPerBlock, Concat(calls), Concat(outputs), t);
    }
  }

  lemma CellOf(rows: nat, cellsPerBlock: nat, calls: seq<seq<int>>, outputs: seq<seq<int>>, k: nat, i: nat)
    requires rows > 0 && RunOutput(rows, cellsPerBlock, calls, outputs) && k < |calls| && i < |calls[k]|
    ensures |outputs| == |calls| && |outputs[k]| == |calls[k]|
    ensures CellOutput(rows, cellsPerBlock, SeenAfterAll(rows, calls[..k]), calls[k], i, outputs[k][i])
  {
    hide CellOutput, SeenAfter;
    assert CallOutput(rows, cellsPerBlock, SeenAfterAll(rows, calls[..k]), calls[k], outputs[k]);
  }

  /** When the last call is longer than the latency, the law holds exactly for the aligned runs. */
  lemma LongCallsDecide(rows: nat, cellsPerBlock: nat, lens: seq<nat>)
    requires rows > 0 && |lens| > 0 && lens[|lens| - 1] > Latency(rows, cellsPerBlock)
    ensures LawHolds(rows, cellsPerBlock, lens) <==> KeepsRounds(rows, cellsPerBlock, lens)
  {
    hide LawHolds, StartsAligned, Latency;
    if KeepsRounds(rows, cellsPerBlock, lens) {
      LawSuffices(rows, cellsPerBlock, lens);
    } else {
      MisalignedBreaks(rows, cellsPerBlock, lens);
    }
  }

  /**
    Calls of these lengths can be followed by any one further call exactly when that call starts at a whole round
    too.
   */
  lemma LawHoldsExactly(rows: nat, cellsPerBlock: nat, lens: seq<nat>)
    requires rows > 0
    ensures (forall m: nat :: LawHolds(rows, cellsPerBlock, lens + [m])) <==>
            KeepsRounds(rows, cellsPerBlock, lens + [1])
  {
    hide LawHolds, Latency;
    if KeepsRounds(rows, cellsPerBlock, lens + [1]) {
      forall m: nat
        ensures LawHolds(rows, cellsPerBlock, lens + [m])
      {
        NextLength(rows, lens, m);
        LawSuffices(rows, cellsPerBlock, lens + [m]);
      }
    } else {
      var m := Latency(rows, cellsPerBlock) + 1;
      NextLength(rows, lens, m);
      LongCallsDecide(rows, cellsPerBlock, lens + [m]);
      assert !LawHolds(rows, cellsPerBlock, lens + [m]);
    }
  }

  /** How long the last call is matters only in whether it has cells. */
  lemma NextLength(rows: nat, lens: seq<nat>, m: nat)
    requires rows > 0
    ensures StartsAligned(rows, lens + [1]) ==> StartsAligned(rows, lens + [m])
    ensures m > 0 && StartsAligned(rows, lens + [m]) ==> StartsAligned(rows, lens + [1])
  {
    hide Offset;
    forall i | 0 <= i <= |lens|
      ensures Offset(lens + [m], i) == Offset(lens + [1], i)
    {
      OffsetOfPrefix(lens, [m], i);
      OffsetOfPrefix(lens, [1], i);
    }
  }

  lemma {:induction false} OffsetOfPrefix(lens: seq<nat>, more: seq<nat>, i: nat)
    requires i <= |lens|
    ensures Offset(lens + more, i) == Offset(lens, i)
  {
    if i > 0 {
      OffsetOfPrefix(lens, more, i - 1);
    }
  }
}
