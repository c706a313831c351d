/** Sequences as the other modules use them. */
module Sequences {

  datatype Option<T> = None | Some(value: T)

  /** Position by position exclusive or. */
  function Xor(a: seq<bool>, b: seq<bool>): (r: seq<bool>)
    requires |a| == |b|
    ensures |r| == |a|
  {
    seq(|a|, i requires 0 <= i < |a| => a[i] != b[i])
  }

  /** The parts, one after the other. */
  function Concat<T>(parts: seq<seq<T>>): seq<T> {
    var n := |parts|;
    if n == 0 then [] else Concat(parts[..n - 1]) + parts[n - 1]
  }

  lemma {:induction false} ConcatPrefix<T>(parts: seq<seq<T>>, i: nat)
    requires i <= |parts|
    ensures var part := Concat(parts[..i]);
            |part| <= |Concat(parts)| && part == Concat(parts)[..|part|]
    decreases |parts|
  {
    if i == |parts| {
      assert parts[..i] == parts;
    } else {
      var front := parts[..|parts| - 1];
      assert front[..i] == parts[..i];
      ConcatPrefix(front, i);
    }
  }
}
