/** The LDPC decoder's fixed-point path: the message loops, hard decision, syndrome check and decode. */
module LdpcDecoding {
  import opened MinSum

  /** Rows of the parity-check matrix as lists of columns; the first infoBits columns carry the information. */
  datatype Checks = Checks(rows: seq<seq<nat>>, numCols: nat, infoBits: nat)

  ghost predicate ValidChecks(H: Checks) {
    && |H.rows| > 0 && H.numCols > 0 && H.infoBits <= H.numCols
    && InRange(H.rows, H.numCols)
  }

  datatype LdpcResult = LdpcResult(decodedBits: seq<bool>, iterationsUsed: nat, converged: bool, unsatisfied: nat)

  /** How many of the first n rows the word violates. */
  function Violated(rows: seq<seq<nat>>, w: seq<bool>, n: nat): (k: nat)
    requires n <= |rows| && forall r, i :: 0 <= r < |rows| && 0 <= i < |rows[r]| ==> rows[r][i] < |w|
    ensures k == |set r | 0 <= r < n && Parity(rows[r], w, |rows[r]|)|
    ensures k == 0 <==> forall r :: 0 <= r < n ==> !Parity(rows[r], w, |rows[r]|)
  {
    hide Parity;
    assert n > 0 ==>
        (set r | 0 <= r < n && Parity(rows[r], w, |rows[r]|)) ==
        (set r | 0 <= r < n - 1 && Parity(rows[r], w, |rows[r]|)) +
        (if Parity(rows[n - 1], w, |rows[n - 1]|) then {n - 1} else {});
    if n == 0 then 0 else Violated(rows, w, n - 1) + (if Parity(rows[n - 1], w, |rows[n - 1]|) then 1 else 0)
  }

  class LdpcDecoder {
    const H: Checks
    const maxIterations: nat
    const earlyTermThreshold: real

    var llrApp: array<int>
    var llrCn: array<seq<int>>
    var hardDecision: array<bool>
    var syndrome: array<bool>

    ghost predicate Valid()
      reads this, llrApp, llrCn
    {
      && ValidChecks(H)
      && llrApp.Length == H.numCols && hardDecision.Length == H.numCols
      && llrCn.Length == |H.rows| && syndrome.Length == |H.rows|
      && hardDecision != syndrome
      && Fits(H.rows, Stored())
    }

    ghost function Stored(): Messages
      reads this, llrApp, llrCn
    {
      Messages(llrApp[..], llrCn[..])
    }

    constructor (H: Checks, maxIterations: nat, earlyTermThreshold: real)
      requires ValidChecks(H)
      ensures Valid() && this.H == H && this.maxIterations == maxIterations
      ensures this.earlyTermThreshold == earlyTermThreshold
      ensures fresh(llrApp) && fresh(llrCn) && fresh(hardDecision) && fresh(syndrome)
    {
      this.H, this.maxIterations, this.earlyTermThreshold := H, maxIterations, earlyTermThreshold;
      llrApp := new int[H.numCols](_ => 0);
      llrCn := new seq<int>[|H.rows|](r requires 0 <= r < |H.rows| => seq(|H.rows[r]|, _ => 0));
      hardDecision := new bool[H.numCols](_ => false);
      syndrome := new bool[|H.rows|](_ => false);
    }

    /** First loop over a row: messages, sign product and the two smallest magnitudes. */
    method ScanRow(row: nat) returns (vnMsgs: seq<int>, signProd: int, min1: nat, min2: nat, min1Idx: nat)
      requires Valid() && row < |H.rows|
      ensures vnMsgs == VnMsgs(H.rows[row], llrApp[..], llrCn[row])
      ensures signProd == SignAll(vnMsgs, |vnMsgs|)
      ensures TwoMinima(vnMsgs, |vnMsgs|, min1, min2, min1Idx)
    {
      hide MinExcept, TwoMinima;
      var cols := H.rows[row];
      ghost var v := VnMsgs(cols, llrApp[..], llrCn[row]);
      assert Stored().cn[row] == llrCn[row];
      vnMsgs, signProd, min1, min2, min1Idx := [], 1, 32767, 32767, 0;
      NoMinima(v);
      var idx := 0;
      while idx < |cols|
        invariant 0 <= idx <= |cols| && vnMsgs == v[..idx]
        invariant signProd == SignAll(v, idx)
        invariant TwoMinima(v, idx, min1, min2, min1Idx)
      {
        TwoMinimaStep(v, idx, min1, min2, min1Idx);
        var vnMsg := Sat(llrApp[cols[idx]] - llrCn[row][idx]);
        vnMsgs := vnMsgs + [vnMsg];
        var mag := Mag(vnMsg);
        signProd := signProd * Sign(vnMsg);
        if mag < min1 {
          min2 := min1;
          min1 := mag;
          min1Idx := idx;
        } else if mag < min2 {
          min2 := mag;
        }
        idx := idx + 1;
      }
      assert v[..|cols|] == v;
    }

    /** Both loops over a row: afterwards the stored messages are the row's specified ones. */
    method UpdateRow(row: nat)
      requires Valid() && row < |H.rows|
      modifies llrApp, llrCn
      ensures Valid() && Stored() == ProcessRow(H.rows, old(Stored()), row)
    {
      hide MinExcept, SignExcept, Scale, SignAll, TwoMinima, VnMsgs;
      ghost var st := Stored();
      var cols := H.rows[row];
      var vnMsgs, signProd, min1, min2, min1Idx := ScanRow(row);
      ghost var msgs := RowMsgs(cols, st.app, st.cn[row]);
      var oldMsgs := llrCn[row];
      var newMsgs := [];
      var idx := 0;
      while idx < |cols|
        invariant 0 <= idx <= |cols| && llrCn[..] == st.cn && oldMsgs == st.cn[row]
        invariant newMsgs == msgs[..idx]
        invariant llrApp[..] == ApplyMsgs(cols, st.app, st.cn[row], msgs, idx)
      {
        var col := cols[idx];
        var msgSign := signProd * Sign(vnMsgs[idx]);
        var msgMag := if idx == min1Idx then min2 else min1;
        var scaled := (msgMag * 3 + 2) / 4;
        var newMsg := Sat(msgSign * scaled);
        MessageIs(cols, st.app, st.cn[row], idx, msgSign, msgMag, signProd, min1, min2, min1Idx);
        assert llrApp[col] == llrApp[..][col];
        llrApp[col] := Sat(llrApp[col] - oldMsgs[idx] + newMsg);
        newMsgs := newMsgs + [newMsg];
        idx := idx + 1;
      }
      assert newMsgs == msgs;
      llrCn[row] := newMsgs;
      assert llrCn[..] == st.cn[row := msgs];
    }

    method MinSumIteration()
      requires Valid()
      modifies llrApp, llrCn
      ensures Valid() && Stored() == ProcessRows(H.rows, old(Stored()), |H.rows|)
    {
      hide ProcessRow, Fits;
      ghost var st := Stored();
      var row := 0;
      while row < |H.rows|
        invariant 0 <= row <= |H.rows| && Valid()
        invariant Stored() == ProcessRows(H.rows, st, row)
      {
        UpdateRow(row);
        row := row + 1;
      }
    }

    method ComputeHardDecision()
      requires Valid()
      modifies hardDecision
      ensures Valid() && hardDecision[..] == HardDecision(llrApp[..])
    {
      var i := 0;
      while i < H.numCols
        invariant 0 <= i <= H.numCols
        invariant forall j :: 0 <= j < i ==> hardDecision[j] == (llrApp[j] < 0)
      {
        hardDecision[i] := llrApp[i] < 0;
        i := i + 1;
      }
    }

    /** The number of checks the stored hard decision violates. */
    method CheckSyndrome() returns (unsatisfied: nat)
      requires Valid()
      modifies syndrome
      ensures Valid() && unsatisfied == Violated(H.rows, hardDecision[..], |H.rows|)
      ensures hardDecision[..] == old(hardDecision[..])
      ensures forall r :: 0 <= r < |H.rows| ==> syndrome[r] == Parity(H.rows[r], hardDecision[..], |H.rows[r]|)
    {
      hide Fits;
      unsatisfied := 0;
      ghost var w := hardDecision[..];
      var row := 0;
      while row < |H.rows|
        invariant 0 <= row <= |H.rows| && hardDecision[..] == w && Valid()
        invariant unsatisfied == Violated(H.rows, w, row)
        invariant forall r :: 0 <= r < row ==> syndrome[r] == Parity(H.rows[r], w, |H.rows[r]|)
      {
        var cols := H.rows[row];
        var parity := false;
        var i := 0;
        while i < |cols|
          invariant 0 <= i <= |cols| && parity == Parity(cols, w, i)
        {
          assert cols[i] == H.rows[row][i];
          assert hardDecision[cols[i]] == w[cols[i]];
          parity := parity != hardDecision[cols[i]];
          i := i + 1;
        }
        syndrome[row] := parity;
        if parity {
          unsatisfied := unsatisfied + 1;
        }
        row := row + 1;
      }
    }

    /** The mean magnitude of the totals, as the early-termination test computes it. */
    method AverageMagnitude() returns (avg: real)
      requires Valid()
      ensures avg == TotalMagnitude(llrApp[..]) as real / H.numCols as real
    {
      var sum := 0;
      var i := 0;
      while i < H.numCols
        invariant 0 <= i <= H.numCols && sum == TotalMagnitude(llrApp[..i])
      {
        assert llrApp[..i + 1][..i] == llrApp[..i];
        sum := sum + Mag(llrApp[i]);
        i := i + 1;
      }
      assert llrApp[..H.numCols] == llrApp[..];
      avg := sum as real / H.numCols as real;
    }

    /** Load the channel values and clear the messages of the previous codeword. */
    method Start(llrIn: seq<int>)
      requires Valid() && |llrIn| == H.numCols
      modifies llrApp, llrCn
      ensures Valid() && Stored() == Initial(H, llrIn)
    {
      forall i | 0 <= i < H.numCols {
        llrApp[i] := llrIn[i];
      }
      assert llrApp[..] == llrIn;
      forall r | 0 <= r < |H.rows| {
        llrCn[r] := seq(|H.rows[r]|, _ => 0);
      }
      assert llrCn[..] == Initial(H, llrIn).cn;
    }

    /**
      Decode one codeword of 8-bit channel values.  The run ends with the first iteration whose decision satisfies
      every check, or whose mean magnitude exceeds the threshold when that is positive; otherwise with the last one
      allowed, and then one iteration more is reported.  `converged` says whether its hard decision satisfies every
      check, and the decoded bits are the first ones of that decision.
     */
    method Decode(llrIn: seq<int>) returns (result: LdpcResult)
      requires Valid() && |llrIn| == H.numCols
      requires forall i :: 0 <= i < |llrIn| ==> -128 <= llrIn[i] <= 127
      modifies llrApp, llrCn, hardDecision, syndrome
      ensures Valid()
      ensures result.decodedBits == hardDecision[..H.infoBits]
      ensures result.unsatisfied == Violated(H.rows, hardDecision[..], |H.rows|)
      ensures result.converged <==> Satisfies(H.rows, hardDecision[..])
      ensures maxIterations == 0 ==> result.iterationsUsed == 1 && hardDecision[..] == old(hardDecision[..])
      ensures maxIterations >= 1 ==> exists n: nat ::
                && EndsAt(H, earlyTermThreshold, maxIterations, llrIn, n)
                && result.iterationsUsed == (if Stops(H, earlyTermThreshold, llrIn, n) then n else maxIterations + 1)
                && Stored() == Iterate(H.rows, Initial(H, llrIn), n) && hardDecision[..] == HardDecision(llrApp[..])
                && Bounded(Stored())
      ensures maxIterations >= 1 && Satisfies(H.rows, HardDecision(llrIn)) ==>
                && result.iterationsUsed == 1 && result.converged
                && hardDecision[..] == HardDecision(llrIn)
    {
      hide ProcessRows, Iterate, Bounded, Fits, HardDecision, Parity, Violated;
      ghost var st := Initial(H, llrIn);
      Start(llrIn);
      var iter := 0;
      ghost var n := 0;
      IterateZero(H.rows, st);
      while iter < maxIterations
        invariant 0 <= iter <= maxIterations && n == iter && Valid()
        invariant Stored() == Iterate(H.rows, st, n)
        invariant n >= 1 ==> hardDecision[..] == HardDecision(llrApp[..])
        invariant n == 0 ==> hardDecision[..] == old(hardDecision[..])
        invariant n >= 1 ==> !Satisfies(H.rows, HardDecision(llrIn))
        invariant forall m: nat :: 1 <= m <= n ==> !Stops(H, earlyTermThreshold, llrIn, m)
      {
        MinSumIteration();
        IterateNext(H.rows, st, n);
        n := n + 1;
        ComputeHardDecision();
        CleanFirstPass(H, llrIn);
        var unsatisfied := CheckSyndrome();
        ViolatedIsSatisfies(H.rows, hardDecision[..]);
        if unsatisfied == 0 {
          break;
        }
        if earlyTermThreshold > 0.0 {
          var avg := AverageMagnitude();
          if avg > earlyTermThreshold {
            break;
          }
        }
        iter := iter + 1;
      }
      RunStaysBounded(H, llrIn, n);
      var unsatisfied := CheckSyndrome();
      ViolatedIsSatisfies(H.rows, hardDecision[..]);
      result := LdpcResult(hardDecision[..H.infoBits], iter + 1, unsatisfied == 0, unsatisfied);
      assert maxIterations >= 1 ==> EndsAt(H, earlyTermThreshold, maxIterations, llrIn, n);
    }
  }

  /** A run may end with iteration m: its decision satisfies all checks, or its mean is past a positive threshold. */
  ghost predicate Stops(H: Checks, threshold: real, llrIn: seq<int>, m: nat)
    requires ValidChecks(H) && |llrIn| == H.numCols
  {
    var app := Iterate(H.rows, Initial(H, llrIn), m).app;
    || Satisfies(H.rows, HardDecision(app))
    || (threshold > 0.0 && TotalMagnitude(app) as real / H.numCols as real > threshold)
  }

  /** n is the first iteration that may end the run, or the last one allowed when there is none before it. */
  ghost predicate EndsAt(H: Checks, threshold: real, maxIterations: nat, llrIn: seq<int>, n: nat)
    requires ValidChecks(H) && |llrIn| == H.numCols
  {
    && 1 <= n <= maxIterations
    && (forall m: nat :: 1 <= m < n ==> !Stops(H, threshold, llrIn, m))
    && (n < maxIterations ==> Stops(H, threshold, llrIn, n))
  }

  ghost function TotalMagnitude(app: seq<int>): nat {
    if |app| == 0 then 0 else TotalMagnitude(app[..|app| - 1]) + Mag(app[|app| - 1])
  }

  ghost function Initial(H: Checks, llrIn: seq<int>): (st: Messages)
    requires ValidChecks(H) && |llrIn| == H.numCols
    ensures Fits(H.rows, st)
  {
    Messages(llrIn, seq(|H.rows|, r requires 0 <= r < |H.rows| => seq(|H.rows[r]|, _ => 0)))
  }

  lemma NoMinima(v: seq<int>)
    ensures TwoMinima(v, 0, 32767, 32767, 0)
  {}

  /** The message the decoder computes from the row's totals is the one specified for the edge. */
  lemma MessageIs(cols: seq<nat>, app: seq<int>, cn: seq<int>, i: nat, msgSign: int, msgMag: nat,
                  signProd: int, min1: nat, min2: nat, idx: nat)
    requires RowFits(cols, app, cn) && i < |cols|
    requires signProd == SignAll(VnMsgs(cols, app, cn), |cols|) &&
             TwoMinima(VnMsgs(cols, app, cn), |cols|, min1, min2, idx)
    requires msgSign == signProd * Sign(VnMsgs(cols, app, cn)[i]) && msgMag == if i == idx then min2 else min1
    ensures Sat(msgSign * ((msgMag * 3 + 2) / 4)) == RowMsgs(cols, app, cn)[i]
  {
    hide VnMsgs, SignAll;
    var v := VnMsgs(cols, app, cn);
    SignTrick(v, i, |v|);
    assert MinExcept(v, i, |v|) == msgMag;
    assert RowMsgs(cols, app, cn)[i] == CheckMsg(v, i);
  }

  lemma IterateZero(rows: seq<seq<nat>>, st: Messages)
    requires Fits(rows, st)
    ensures Iterate(rows, st, 0) == st
  {}

  lemma IterateNext(rows: seq<seq<nat>>, st: Messages, n: nat)
    requires Fits(rows, st)
    ensures Iterate(rows, st, n + 1) == ProcessRows(rows, Iterate(rows, st, n), |rows|)
  {}

  lemma ViolatedIsSatisfies(rows: seq<seq<nat>>, w: seq<bool>)
    requires InRange(rows, |w|)
    ensures Violated(rows, w, |rows|) == 0 <==> Satisfies(rows, w)
  {}

  /** One iteration from the channel values of a clean word decides the same word. */
  lemma CleanFirstPass(H: Checks, llrIn: seq<int>)
    requires ValidChecks(H) && |llrIn| == H.numCols
    ensures Satisfies(H.rows, HardDecision(llrIn)) ==>
              HardDecision(Iterate(H.rows, Initial(H, llrIn), 1).app) == HardDecision(llrIn)
  {
    hide ProcessRows, Parity;
    var st := Initial(H, llrIn);
    IterateZero(H.rows, st);
    IterateNext(H.rows, st, 0);
    if Satisfies(H.rows, HardDecision(llrIn)) {
      CleanPass(H.rows, st, |H.rows|);
    }
  }

  lemma RunStaysBounded(H: Checks, llrIn: seq<int>, n: nat)
    requires ValidChecks(H) && |llrIn| == H.numCols
    requires forall i :: 0 <= i < |llrIn| ==> -128 <= llrIn[i] <= 127
    ensures Bounded(Iterate(H.rows, Initial(H, llrIn), n))
  {
    hide Iterate;
    RunKeepsBounds(H.rows, Initial(H, llrIn), n);
  }

  /** In every run, while no update has clipped, each total is its channel value plus the messages into its column. */
  lemma RunStaysBalanced(H: Checks, llrIn: seq<int>, n: nat, k: nat)
    requires ValidChecks(H) && |llrIn| == H.numCols && k <= |H.rows|
    requires NoClipUntil(H.rows, Initial(H, llrIn), n, k)
    ensures Balanced(H.rows, llrIn, ProcessRows(H.rows, Iterate(H.rows, Initial(H, llrIn), n), k))
  {
    hide Iterate, ProcessRows, NoClipUntil, Balanced;
    RunKeepsBalance(H.rows, Initial(H, llrIn), n, k);
  }
}
