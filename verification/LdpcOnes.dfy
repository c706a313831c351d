/** The generated matrices bit by bit: where each one of the 24 has its ones, by arithmetic on row and column. */
module LdpcOnes {
  import opened Arithmetic
  import opened LdpcMatrix

  // ---------- The reference ----------

  /** The pattern of the systematic part, at a block row and a block column. */
  predicate Picks(rate: nat, br: nat, bc: nat) {
    (br + bc + rate) % 3 == 0 || (2 * br + bc) % 5 == 0
  }

  /** How often the pattern picks a block column below n. */
  ghost function PickedBelow(rate: nat, br: nat, n: nat): (k: nat) {
    |set b | 0 <= b < n && Picks(rate, br, b)|
  }

  /** Row r has a one in column c: in a picked block, of which there are weight - 1, or on one of the two diagonals. */
  ghost predicate IsOne(rate: nat, weight: nat, Q: nat, r: nat, c: nat)
    requires Q > 0
  {
    var info := 12 * (rate + 2);
    var br, i, bc, j := r / Q, r % Q, c / Q, c % Q;
    || (bc < info && Picks(rate, br, bc) && PickedBelow(rate, br, bc) + 1 < weight &&
        j == (i + 17 * br + 13 * bc + 7 * rate) % Q)
    || (bc == info + br && j == i)
    || (br > 0 && bc == info + br - 1 && j == (i + 3 * br) % Q)
  }

  /** The rows list exactly the ones of the code. */
  ghost predicate IsMatrixOf(rows: seq<seq<nat>>, rate: nat, short: bool)
    requires rate < |CODE_SPECS|
  {
    var Q := if short then 90 else 360;
    && |rows| == (180 - 12 * (rate + 2)) * Q
    && forall r, c: nat :: 0 <= r < |rows| && c < 180 * Q ==>
         (c in rows[r] <==> IsOne(rate, CODE_SPECS[rate].rowWeight, Q, r, c))
  }

  // ---------- The generator meets it ----------

  lemma {:induction false} ConnectionsCount(row: nat, rate: nat, weight: nat, n: nat)
    requires weight >= 1
    ensures var k := PickedBelow(rate, row, n);
            Connections(row, rate, weight, n) == if k + 1 < weight then k else weight - 1
  {
    var now := set b | 0 <= b < n && Picks(rate, row, b);
    if n == 0 {
      assert now == {};
    } else {
      ConnectionsCount(row, rate, weight, n - 1);
      var before := set b | 0 <= b < n - 1 && Picks(rate, row, b);
      assert now == before + (if Picks(rate, row, n - 1) then {n - 1} else {});
    }
  }

  lemma AddMod(i: nat, x: nat, Q: nat)
    requires Q > 0
    ensures (i + x % Q) % Q == (i + x) % Q
  {
    var a, b := x / Q, (i + x % Q) / Q;
    assert x == a * Q + x % Q;
    assert (a + b) * Q == a * Q + b * Q;
    DivModUnique(i + x, Q, a + b, (i + x % Q) % Q);
  }

  lemma SpecSizes(rate: nat)
    requires rate < |CODE_SPECS|
    ensures |CODE_SPECS| == 12 && CODE_SPECS[rate].numBlockCols == 180
    ensures CODE_SPECS[rate].numBlockRows == 180 - 12 * (rate + 2)
    ensures CODE_SPECS[rate].rowWeight == [6, 6, 7, 7, 8, 8, 9, 10, 11, 13, 16, 22][rate]
  {}

  lemma OneInBlock(rate: nat, Q: nat, r: nat, c: nat)
    requires rate < |CODE_SPECS| && Q > 0
    requires r / Q < 180 - 12 * (rate + 2) && c / Q < 180
    ensures var spec := CODE_SPECS[rate];
            && spec.numBlockRows <= spec.numBlockCols
            && var e := Entry(spec, Q, rate, r / Q, c / Q);
               (e >= 0 && c % Q == Wrap(r % Q, e, Q) <==> IsOne(rate, spec.rowWeight, Q, r, c))
  {
    hide Connections, PickedBelow;
    SpecSizes(rate);
    var br, bc := r / Q, c / Q;
    ConnectionsCount(br, rate, CODE_SPECS[rate].rowWeight, bc);
    AddMod(r % Q, 17 * br + 13 * bc + 7 * rate, Q);
    AddMod(r % Q, 3 * br, Q);
    DivModUnique(r % Q, Q, 0, r % Q);
  }
}
