/**
  Layered min-sum decoding with 16-bit saturating messages, as functions of the stored
  values: what one row does, what one iteration does, and what every run keeps.
 */
module MinSum {

  function Sat(x: int): (y: int)
    ensures -32767 <= y <= 32767
    ensures -32767 <= x <= 32767 ==> y == x
    ensures (y < x ==> y == 32767) && (y > x ==> y == -32767)
  {
    if x > 32767 then 32767 else if x < -32767 then -32767 else x
  }

  /** The sign used by the fixed-point path: zero counts as positive. */
  function Sign(x: int): (s: int)
    ensures s == 1 || s == -1
    ensures s == 1 <==> 0 <= x
  {
    if x >= 0 then 1 else -1
  }

  function Mag(x: int): (m: nat)
    ensures m == x || m == -x
  {
    if x >= 0 then x else -x
  }

  /** Scaling by 3/4 with rounding: a multiplication, an addition and a right shift by two. */
  function Scale(m: nat): (n: nat)
    ensures 3 * m - 1 <= 4 * n <= 3 * m + 2
  {
    (3 * m + 2) / 4
  }

  // ---------- One row ----------

  ghost predicate RowFits(cols: seq<nat>, app: seq<int>, cn: seq<int>) {
    |cn| == |cols| && forall i :: 0 <= i < |cols| ==> cols[i] < |app|
  }

  function VnMsgs(cols: seq<nat>, app: seq<int>, cn: seq<int>): (v: seq<int>)
    requires RowFits(cols, app, cn)
    ensures |v| == |cols| && forall i :: 0 <= i < |v| ==> -32767 <= v[i] <= 32767
  {
    seq(|cols|, i requires 0 <= i < |cols| && RowFits(cols, app, cn) => Sat(app[cols[i]] - cn[i]))
  }

  /** The least magnitude among the first n messages other than the i-th; 32767 when there is none. */
  ghost function MinExcept(v: seq<int>, i: nat, n: nat): (m: nat)
    requires n <= |v|
    ensures m <= 32767
  {
    if n == 0 then 32767
    else
      var m := MinExcept(v, i, n - 1);
      if n - 1 != i && Mag(v[n - 1]) < m then Mag(v[n - 1]) else m
  }

  /** The product of the signs of the first n messages other than the i-th. */
  ghost function SignExcept(v: seq<int>, i: nat, n: nat): (s: int)
    requires n <= |v|
    ensures s == 1 || s == -1
  {
    if n == 0 then 1
    else if n - 1 == i then SignExcept(v, i, n - 1)
    else SignExcept(v, i, n - 1) * Sign(v[n - 1])
  }

  /** With messages in range it is the least magnitude of the others, attained by one of them when there is one. */
  lemma {:induction false} MinExceptIsLeast(v: seq<int>, i: nat, n: nat)
    requires n <= |v| && forall j :: 0 <= j < n ==> -32767 <= v[j] <= 32767
    ensures forall j :: 0 <= j < n && j != i ==> MinExcept(v, i, n) <= Mag(v[j])
    ensures MinExcept(v, i, n) == 32767 || exists j :: 0 <= j < n && j != i && MinExcept(v, i, n) == Mag(v[j])
  {
    if n > 0 {
      MinExceptIsLeast(v, i, n - 1);
    }
  }

  lemma SignExceptNext(v: seq<int>, i: nat, n: nat)
    requires 0 < n <= |v|
    ensures SignExcept(v, i, n) ==
            if n - 1 != i && v[n - 1] < 0 then -SignExcept(v, i, n - 1) else SignExcept(v, i, n - 1)
  {}

  /** It is negative exactly when an odd number of the others are. */
  lemma {:induction false} SignExceptIsParity(v: seq<int>, i: nat, n: nat)
    requires n <= |v|
    ensures SignExcept(v, i, n) == -1 <==> |set j | 0 <= j < n && j != i && v[j] < 0| % 2 == 1
  {
    var now := set j | 0 <= j < n && j != i && v[j] < 0;
    if n == 0 {
      assert now == {};
    } else {
      SignExceptIsParity(v, i, n - 1);
      var before := set j | 0 <= j < n - 1 && j != i && v[j] < 0;
      hide SignExcept, Sign;
      SignExceptNext(v, i, n);
      if n - 1 != i && v[n - 1] < 0 {
        assert now == before + {n - 1};
        assert |now| == |before| + 1;
      } else {
        assert now == before;
      }
    }
  }

  /** The check message for edge i: sign and scaled minimum of all the other edges. */
  ghost function CheckMsg(v: seq<int>, i: nat): (m: int)
    ensures -24575 <= m <= 24575
  {
    SignExcept(v, i, |v|) * Scale(MinExcept(v, i, |v|))
  }

  ghost function RowMsgs(cols: seq<nat>, app: seq<int>, cn: seq<int>): (m: seq<int>)
    requires RowFits(cols, app, cn)
    ensures |m| == |cols|
  {
    seq(|cols|, i requires 0 <= i < |cols| && RowFits(cols, app, cn) => CheckMsg(VnMsgs(cols, app, cn), i))
  }

  /** The totals after the first k edges of the row have exchanged their old message for the new one. */
  ghost function ApplyMsgs(cols: seq<nat>, app: seq<int>, cn: seq<int>, msgs: seq<int>, k: nat): (a: seq<int>)
    requires RowFits(cols, app, cn) && |msgs| == |cols| && k <= |cols|
    ensures |a| == |app|
  {
    if k == 0 then app
    else
      var b := ApplyMsgs(cols, app, cn, msgs, k - 1);
      var c := cols[k - 1];
      b[c := Sat(b[c] - cn[k - 1] + msgs[k - 1])]
  }

  // ---------- A whole iteration ----------

  /** Totals per column and check messages per row. */
  datatype Messages = Messages(app: seq<int>, cn: seq<seq<int>>)

  ghost predicate Fits(rows: seq<seq<nat>>, st: Messages) {
    |st.cn| == |rows| && forall r :: 0 <= r < |rows| ==> RowFits(rows[r], st.app, st.cn[r])
  }

  ghost function ProcessRow(rows: seq<seq<nat>>, st: Messages, r: nat): (st': Messages)
    requires Fits(rows, st) && r < |rows|
    ensures Fits(rows, st') && |st'.app| == |st.app|
  {
    var m := RowMsgs(rows[r], st.app, st.cn[r]);
    Messages(ApplyMsgs(rows[r], st.app, st.cn[r], m, |rows[r]|), st.cn[r := m])
  }

  /** The messages after the first n rows of an iteration. */
  ghost function ProcessRows(rows: seq<seq<nat>>, st: Messages, n: nat): (st': Messages)
    requires Fits(rows, st) && n <= |rows|
    ensures Fits(rows, st') && |st'.app| == |st.app|
  {
    if n == 0 then st else ProcessRow(rows, ProcessRows(rows, st, n - 1), n - 1)
  }

  /** The messages after n whole iterations. */
  ghost function Iterate(rows: seq<seq<nat>>, st: Messages, n: nat): (st': Messages)
    requires Fits(rows, st)
    ensures Fits(rows, st') && |st'.app| == |st.app|
  {
    if n == 0 then st else ProcessRows(rows, Iterate(rows, st, n - 1), |rows|)
  }

  // ---------- Hard decisions and checks ----------

  ghost function HardDecision(app: seq<int>): (w: seq<bool>)
    ensures |w| == |app|
  {
    seq(|app|, i requires 0 <= i < |app| => app[i] < 0)
  }

  /** The sum modulo two of the bits of w in the first n columns of the row. */
  function Parity(cols: seq<nat>, w: seq<bool>, n: nat): bool
    requires n <= |cols| && forall i :: 0 <= i < |cols| ==> cols[i] < |w|
  {
    if n == 0 then false else Parity(cols, w, n - 1) != w[cols[n - 1]]
  }

  ghost predicate InRange(rows: seq<seq<nat>>, n: nat) {
    forall r, i :: 0 <= r < |rows| && 0 <= i < |rows[r]| ==> rows[r][i] < n
  }

  ghost predicate Satisfies(rows: seq<seq<nat>>, w: seq<bool>)
    requires InRange(rows, |w|)
  {
    forall r :: 0 <= r < |rows| ==> !Parity(rows[r], w, |rows[r]|)
  }

  // ---------- The sign and minimum tricks ----------

  ghost function SignAll(v: seq<int>, n: nat): (s: int)
    requires n <= |v|
    ensures s == 1 || s == -1
  {
    if n == 0 then 1 else SignAll(v, n - 1) * Sign(v[n - 1])
  }

  /** Multiplying the product of all signs by one of them takes that one out. */
  lemma {:induction false} SignTrick(v: seq<int>, i: nat, n: nat)
    requires n <= |v|
    ensures i < n ==> SignAll(v, n) * Sign(v[i]) == SignExcept(v, i, n)
    ensures i >= n ==> SignAll(v, n) == SignExcept(v, i, n)
  {
    if n > 0 {
      SignTrick(v, i, n - 1);
    }
  }

  /** Two minima and the place of the first give the minimum without any one edge. */
  ghost predicate TwoMinima(v: seq<int>, n: nat, min1: nat, min2: nat, idx: nat)
    requires n <= |v|
  {
    && min1 <= min2 <= 32767 && (n == 0 ==> min1 == 32767) && (n > 0 ==> idx < n) && (n == 0 ==> idx == 0)
    && forall i: nat :: MinExcept(v, i, n) == if i == idx then min2 else min1
  }

  lemma TwoMinimaStep(v: seq<int>, n: nat, min1: nat, min2: nat, idx: nat)
    requires n < |v| && Mag(v[n]) <= 32767 && TwoMinima(v, n, min1, min2, idx)
    ensures var m := Mag(v[n]);
      if m < min1 then TwoMinima(v, n + 1, m, min1, n)
      else if m < min2 then TwoMinima(v, n + 1, min1, m, idx)
      else TwoMinima(v, n + 1, min1, min2, idx)
  {
    var m := Mag(v[n]);
    var first, second, at := if m < min1 then m else min1,
                             if m < min1 then min1 else if m < min2 then m else min2,
                             if m < min1 then n else idx;
    var k := n + 1;
    forall i: nat
      ensures MinExcept(v, i, k) == if i == at then second else first
    {
      assert MinExcept(v, i, n) == if i == idx then min2 else min1;
    }
  }

  // ---------- Bounds ----------

  ghost predicate Bounded(st: Messages) {
    && (forall c :: 0 <= c < |st.app| ==> -32767 <= st.app[c] <= 32767)
    && forall r, i :: 0 <= r < |st.cn| && 0 <= i < |st.cn[r]| ==> -24575 <= st.cn[r][i] <= 24575
  }

  lemma {:induction false} ApplyBounded(cols: seq<nat>, app: seq<int>, cn: seq<int>, msgs: seq<int>, k: nat)
    requires RowFits(cols, app, cn) && |msgs| == |cols| && k <= |cols|
    requires forall c :: 0 <= c < |app| ==> -32767 <= app[c] <= 32767
    ensures forall c :: 0 <= c < |app| ==> -32767 <= ApplyMsgs(cols, app, cn, msgs, k)[c] <= 32767
  {
    if k > 0 {
      ApplyBounded(cols, app, cn, msgs, k - 1);
    }
  }

  /** Totals stay within 32767 and check messages within 24575, row by row. */
  lemma RowKeepsBounds(rows: seq<seq<nat>>, st: Messages, r: nat)
    requires Fits(rows, st) && r < |rows| && Bounded(st)
    ensures Bounded(ProcessRow(rows, st, r))
  {
    hide CheckMsg, VnMsgs;
    ApplyBounded(rows[r], st.app, st.cn[r], RowMsgs(rows[r], st.app, st.cn[r]), |rows[r]|);
  }

  lemma {:induction false} RowsKeepBounds(rows: seq<seq<nat>>, st: Messages, n: nat)
    requires Fits(rows, st) && n <= |rows| && Bounded(st)
    ensures Bounded(ProcessRows(rows, st, n))
  {
    hide ProcessRow, Bounded;
    if n > 0 {
      RowsKeepBounds(rows, st, n - 1);
      RowKeepsBounds(rows, ProcessRows(rows, st, n - 1), n - 1);
    }
  }

  lemma {:induction false} RunKeepsBounds(rows: seq<seq<nat>>, st: Messages, n: nat)
    requires Fits(rows, st) && Bounded(st)
    ensures Bounded(Iterate(rows, st, n))
  {
    hide ProcessRows, Bounded;
    if n > 0 {
      RunKeepsBounds(rows, st, n - 1);
      RowsKeepBounds(rows, Iterate(rows, st, n - 1), |rows|);
    }
  }

  // ---------- Totals are channel plus messages until one clips ----------

  /** The sum of the row's messages into column c, over its first n edges. */
  ghost function RowSum(cols: seq<nat>, cn: seq<int>, c: nat, n: nat): int
    requires |cn| == |cols| && n <= |cols|
  {
    if n == 0 then 0 else RowSum(cols, cn, c, n - 1) + (if cols[n - 1] == c then cn[n - 1] else 0)
  }

  /** The sum of all messages into column c, over the first n rows. */
  ghost function MsgSum(rows: seq<seq<nat>>, cn: seq<seq<int>>, c: nat, n: nat): int
    requires |cn| == |rows| && n <= |rows| && forall r :: 0 <= r < |rows| ==> |cn[r]| == |rows[r]|
  {
    if n == 0 then 0 else MsgSum(rows, cn, c, n - 1) + RowSum(rows[n - 1], cn[n - 1], c, |rows[n - 1]|)
  }

  ghost predicate Balanced(rows: seq<seq<nat>>, channel: seq<int>, st: Messages)
    requires Fits(rows, st) && |channel| == |st.app|
  {
    forall c :: 0 <= c < |st.app| ==> st.app[c] == channel[c] + MsgSum(rows, st.cn, c, |rows|)
  }

  /** No update of the first k edges of the row leaves the range. */
  ghost predicate NoClip(cols: seq<nat>, app: seq<int>, cn: seq<int>, msgs: seq<int>, k: nat)
    requires RowFits(cols, app, cn) && |msgs| == |cols| && k <= |cols|
  {
    k == 0 ||
    (NoClip(cols, app, cn, msgs, k - 1) &&
     var x := ApplyMsgs(cols, app, cn, msgs, k - 1)[cols[k - 1]] - cn[k - 1] + msgs[k - 1];
     -32767 <= x <= 32767)
  }

  lemma {:induction false} ApplyAdds(cols: seq<nat>, app: seq<int>, cn: seq<int>, msgs: seq<int>, k: nat, c: nat)
    requires RowFits(cols, app, cn) && |msgs| == |cols| && k <= |cols| && c < |app|
    requires NoClip(cols, app, cn, msgs, k)
    ensures ApplyMsgs(cols, app, cn, msgs, k)[c] == app[c] + RowSum(cols, msgs, c, k) - RowSum(cols, cn, c, k)
  {
    if k > 0 {
      ApplyAdds(cols, app, cn, msgs, k - 1, c);
    }
  }

  lemma {:induction false} MsgSumUpdate(rows: seq<seq<nat>>, cn: seq<seq<int>>, r: nat, msgs: seq<int>, c: nat, n: nat)
    requires |cn| == |rows| && n <= |rows| && forall q :: 0 <= q < |rows| ==> |cn[q]| == |rows[q]|
    requires r < |rows| && |msgs| == |rows[r]|
    ensures MsgSum(rows, cn[r := msgs], c, n) ==
            MsgSum(rows, cn, c, n) +
            (if r < n then RowSum(rows[r], msgs, c, |rows[r]|) - RowSum(rows[r], cn[r], c, |rows[r]|) else 0)
  {
    hide RowSum;
    if n > 0 {
      MsgSumUpdate(rows, cn, r, msgs, c, n - 1);
    }
  }

  /** A row whose updates do not clip keeps every total equal to channel value plus incoming messages. */
  lemma RowKeepsBalance(rows: seq<seq<nat>>, channel: seq<int>, st: Messages, r: nat)
    requires Fits(rows, st) && |channel| == |st.app| && r < |rows| && Balanced(rows, channel, st)
    requires NoClip(rows[r], st.app, st.cn[r], RowMsgs(rows[r], st.app, st.cn[r]), |rows[r]|)
    ensures Balanced(rows, channel, ProcessRow(rows, st, r))
  {
    hide RowMsgs, RowSum, NoClip, MsgSum, ApplyMsgs;
    var m := RowMsgs(rows[r], st.app, st.cn[r]);
    var st' := ProcessRow(rows, st, r);
    forall c | 0 <= c < |st.app|
      ensures st'.app[c] == channel[c] + MsgSum(rows, st'.cn, c, |rows|)
    {
      ApplyAdds(rows[r], st.app, st.cn[r], m, |rows[r]|, c);
      MsgSumUpdate(rows, st.cn, r, m, c, |rows|);
    }
  }

  lemma {:induction false} NoMessages(rows: seq<seq<nat>>, cn: seq<seq<int>>, c: nat, n: nat)
    requires |cn| == |rows| && n <= |rows|
    requires forall r :: 0 <= r < |rows| ==> |cn[r]| == |rows[r]| && forall i :: 0 <= i < |cn[r]| ==> cn[r][i] == 0
    ensures MsgSum(rows, cn, c, n) == 0
  {
    if n > 0 {
      NoMessages(rows, cn, c, n - 1);
      NoRowMessages(rows[n - 1], cn[n - 1], c, |rows[n - 1]|);
    }
  }

  lemma {:induction false} NoRowMessages(cols: seq<nat>, cn: seq<int>, c: nat, n: nat)
    requires |cn| == |cols| && n <= |cols| && forall i :: 0 <= i < |cn| ==> cn[i] == 0
    ensures RowSum(cols, cn, c, n) == 0
  {
    if n > 0 {
      NoRowMessages(cols, cn, c, n - 1);
    }
  }

  lemma {:induction false} RowSumWithout(cols: seq<nat>, cn: seq<int>, i: nat, c: nat, n: nat)
    requires |cn| == |cols| && n <= |cols| && i < |cols|
    ensures RowSum(cols, cn[i := 0], c, n) ==
            RowSum(cols, cn, c, n) - (if i < n && cols[i] == c then cn[i] else 0)
  {
    if n > 0 {
      RowSumWithout(cols, cn, i, c, n - 1);
    }
  }

  /**
    Extrinsic: in a balanced state what a column tells a row is its channel value plus the messages from everywhere
    but this edge, saturated.
   */
  lemma MessagesAreExtrinsic(rows: seq<seq<nat>>, channel: seq<int>, st: Messages, r: nat, i: nat)
    requires Fits(rows, st) && |channel| == |st.app| && Balanced(rows, channel, st)
    requires r < |rows| && i < |rows[r]|
    ensures var c := rows[r][i];
            VnMsgs(rows[r], st.app, st.cn[r])[i] ==
            Sat(channel[c] + MsgSum(rows, st.cn[r := st.cn[r][i := 0]], c, |rows|))
  {
    hide MsgSum, RowSum, Sat;
    var c := rows[r][i];
    MsgSumUpdate(rows, st.cn, r, st.cn[r][i := 0], c, |rows|);
    RowSumWithout(rows[r], st.cn[r], i, c, |rows[r]|);
    assert st.app[c] == channel[c] + MsgSum(rows, st.cn, c, |rows|);
  }

  ghost predicate NoClipRow(rows: seq<seq<nat>>, st: Messages, r: nat)
    requires Fits(rows, st) && r < |rows|
  {
    NoClip(rows[r], st.app, st.cn[r], RowMsgs(rows[r], st.app, st.cn[r]), |rows[r]|)
  }

  /** Through an iteration, as far as no update has clipped, the totals stay balanced after every row. */
  lemma {:induction false} RowsKeepBalance(rows: seq<seq<nat>>, channel: seq<int>, st: Messages, n: nat)
    requires Fits(rows, st) && |channel| == |st.app| && n <= |rows| && Balanced(rows, channel, st)
    requires forall r :: 0 <= r < n ==> NoClipRow(rows, ProcessRows(rows, st, r), r)
    ensures Balanced(rows, channel, ProcessRows(rows, st, n))
  {
    hide Balanced, NoClip, ProcessRow;
    if n > 0 {
      RowsKeepBalance(rows, channel, st, n - 1);
      assert NoClipRow(rows, ProcessRows(rows, st, n - 1), n - 1);
      RowKeepsBalance(rows, channel, ProcessRows(rows, st, n - 1), n - 1);
    }
  }

  /** No update has clipped in the first n iterations, nor in the first k rows of the next one. */
  ghost predicate NoClipUntil(rows: seq<seq<nat>>, st: Messages, n: nat, k: nat)
    requires Fits(rows, st) && k <= |rows|
  {
    && (forall i, r :: 0 <= i < n && 0 <= r < |rows| ==> NoClipAt(rows, st, i, r))
    && (forall r :: 0 <= r < k ==> NoClipAt(rows, st, n, r))
  }

  /** Row r of iteration i updates every total within the range. */
  ghost predicate NoClipAt(rows: seq<seq<nat>>, st: Messages, i: nat, r: nat)
    requires Fits(rows, st) && r < |rows|
  {
    NoClipRow(rows, ProcessRows(rows, Iterate(rows, st, i), r), r)
  }

  /** Before the first message the totals are the channel values. */
  lemma StartIsBalanced(rows: seq<seq<nat>>, st: Messages)
    requires Fits(rows, st)
    requires forall r, i :: 0 <= r < |rows| && 0 <= i < |rows[r]| ==> st.cn[r][i] == 0
    ensures Balanced(rows, st.app, st)
  {
    forall c | 0 <= c < |st.app|
      ensures MsgSum(rows, st.cn, c, |rows|) == 0
    {
      NoMessages(rows, st.cn, c, |rows|);
    }
  }

  /** From a start without messages, after any number of iterations and rows of a run that has not clipped. */
  lemma {:induction false} RunKeepsBalance(rows: seq<seq<nat>>, st: Messages, n: nat, k: nat)
    requires Fits(rows, st) && k <= |rows| && NoClipUntil(rows, st, n, k)
    requires forall r, i :: 0 <= r < |rows| && 0 <= i < |rows[r]| ==> st.cn[r][i] == 0
    ensures Balanced(rows, st.app, ProcessRows(rows, Iterate(rows, st, n), k))
    decreases n
  {
    hide Balanced, NoClip, ProcessRow, NoClipRow;
    if n == 0 {
      StartIsBalanced(rows, st);
    } else {
      var m := n - 1;
      assert forall r :: 0 <= r < |rows| ==> NoClipAt(rows, st, m, r);
      RunKeepsBalance(rows, st, n - 1, |rows|);
    }
    forall r | 0 <= r < k
      ensures NoClipRow(rows, ProcessRows(rows, Iterate(rows, st, n), r), r)
    {
      assert NoClipAt(rows, st, n, r);
    }
    RowsKeepBalance(rows, st.app, Iterate(rows, st, n), k);
  }

  // ---------- A clean word is left alone ----------

  /** The sign product of the messages is the parity of the hard decisions. */
  lemma {:induction false} SignIsParity(cols: seq<nat>, v: seq<int>, w: seq<bool>, n: nat)
    requires |v| == |cols| && n <= |cols|
    requires forall i :: 0 <= i < |cols| ==> cols[i] < |w| && (v[i] < 0 <==> w[cols[i]])
    ensures SignAll(v, n) == if Parity(cols, w, n) then -1 else 1
  {
    if n > 0 {
      SignIsParity(cols, v, w, n - 1);
    }
  }

  lemma {:induction false} ApplyKeepsSigns(cols: seq<nat>, app: seq<int>, cn: seq<int>, msgs: seq<int>, k: nat)
    requires RowFits(cols, app, cn) && |msgs| == |cols| && k <= |cols|
    requires forall i :: 0 <= i < |cols| ==> cn[i] == 0
    requires forall i :: 0 <= i < |cols| ==> if app[cols[i]] < 0 then msgs[i] <= 0 else msgs[i] >= 0
    ensures HardDecision(ApplyMsgs(cols, app, cn, msgs, k)) == HardDecision(app)
  {
    if k > 0 {
      ApplyKeepsSigns(cols, app, cn, msgs, k - 1);
      var b := ApplyMsgs(cols, app, cn, msgs, k - 1);
      var c := cols[k - 1];
      assert HardDecision(b)[c] == HardDecision(app)[c];
    }
  }

  /** In a satisfied row with no messages yet, every new message has the sign of its total. */
  lemma CleanMsgs(cols: seq<nat>, app: seq<int>, cn: seq<int>)
    requires RowFits(cols, app, cn)
    requires forall i :: 0 <= i < |cols| ==> cn[i] == 0
    requires !Parity(cols, HardDecision(app), |cols|)
    ensures forall i :: 0 <= i < |cols| ==>
      if app[cols[i]] < 0 then RowMsgs(cols, app, cn)[i] <= 0 else RowMsgs(cols, app, cn)[i] >= 0
  {
    hide VnMsgs, MinExcept, Scale, Parity, Sat;
    var v := VnMsgs(cols, app, cn);
    VnSigns(cols, app, cn);
    SignIsParity(cols, v, HardDecision(app), |cols|);
    forall i | 0 <= i < |cols|
      ensures if app[cols[i]] < 0 then RowMsgs(cols, app, cn)[i] <= 0 else RowMsgs(cols, app, cn)[i] >= 0
    {
      SignTrick(v, i, |cols|);
    }
  }

  lemma VnSigns(cols: seq<nat>, app: seq<int>, cn: seq<int>)
    requires RowFits(cols, app, cn)
    requires forall i :: 0 <= i < |cols| ==> cn[i] == 0
    ensures forall i :: 0 <= i < |cols| ==> (VnMsgs(cols, app, cn)[i] < 0 <==> app[cols[i]] < 0)
  {}

  /** First pass over a clean word: after n rows no hard decision has changed. */
  lemma {:induction false} CleanPass(rows: seq<seq<nat>>, st: Messages, n: nat)
    requires Fits(rows, st) && n <= |rows| && InRange(rows, |st.app|)
    requires forall r, i :: 0 <= r < |rows| && 0 <= i < |rows[r]| ==> st.cn[r][i] == 0
    requires Satisfies(rows, HardDecision(st.app))
    ensures HardDecision(ProcessRows(rows, st, n).app) == HardDecision(st.app)
    ensures forall r :: n <= r < |rows| ==> ProcessRows(rows, st, n).cn[r] == st.cn[r]
  {
    hide RowMsgs, ApplyMsgs, Parity;
    if n > 0 {
      CleanPass(rows, st, n - 1);
      var prev := ProcessRows(rows, st, n - 1);
      var cols := rows[n - 1];
      assert prev.cn[n - 1] == st.cn[n - 1];
      assert !Parity(cols, HardDecision(prev.app), |cols|);
      CleanMsgs(cols, prev.app, prev.cn[n - 1]);
      ApplyKeepsSigns(cols, prev.app, prev.cn[n - 1], RowMsgs(cols, prev.app, prev.cn[n - 1]), |cols|);
    }
  }
}
