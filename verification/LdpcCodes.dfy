/** The generator and the decoder together: what one of the 24 codes encodes, the decoder built for it returns. */
module LdpcCodes {
  import opened MinSum
  import opened LdpcMatrix
  import opened LdpcOnes
  import opened LdpcRank
  import opened LdpcDecoding

  /**
    The checks of a code: its size, its ones, listed in ascending order, and a unit triangular parity part after the
    information bits.
   */
  ghost predicate IsCode(H: Checks, rateIdx: nat, short: bool)
    requires rateIdx < 12
  {
    && H.numCols == (if short then 16200 else 64800) && H.infoBits == InfoBits(short, rateIdx)
    && |H.rows| == H.numCols - H.infoBits
    && UnitTriangular(H.rows, H.infoBits)
    && rateIdx < |CODE_SPECS| && IsMatrixOf(H.rows, rateIdx, short)
    && forall r :: 0 <= r < |H.rows| ==> Ascending(H.rows[r])
  }

  lemma SomeChecks(rateIdx: nat, short: bool)
    requires rateIdx < 12
    ensures InfoBits(short, rateIdx) < if short then 16200 else 64800
  {}

  lemma CodeIsValid(H: Checks, rateIdx: nat, short: bool)
    requires rateIdx < 12 && IsCode(H, rateIdx, short)
    ensures ValidChecks(H)
  {
    hide InfoBits, UnitTriangular, IsMatrixOf;
    SomeChecks(rateIdx, short);
    TriangularInRange(H.rows, H.infoBits);
  }

  /** The word that carries the information bits. */
  ghost function Encoded(H: Checks, info: seq<bool>): (w: seq<bool>)
    requires UnitTriangular(H.rows, H.infoBits) && |info| == H.infoBits
    ensures |w| == H.infoBits + |H.rows|
  {
    Extend(H.rows, info, |H.rows|)
  }

  /** Whatever the magnitudes, channel values with the signs of an encoded word keep them through an iteration. */
  lemma EncodedSurvives(H: Checks, rateIdx: nat, short: bool, info: seq<bool>, llrIn: seq<int>)
    requires rateIdx < 12 && IsCode(H, rateIdx, short) && |info| == H.infoBits && |llrIn| == H.numCols
    requires HardDecision(llrIn) == Encoded(H, info)
    ensures ValidChecks(H) && Satisfies(H.rows, HardDecision(llrIn)) && HardDecision(llrIn)[..H.infoBits] == info
    ensures HardDecision(Iterate(H.rows, Initial(H, llrIn), 1).app) == Encoded(H, info)
  {
    hide InfoBits, UnitTriangular, IsMatrixOf, Iterate, Satisfies, HardDecision;
    CodeIsValid(H, rateIdx, short);
    ExtensionSatisfies(H.rows, info);
    CleanFirstPass(H, llrIn);
  }

  /** The decoder for a code: its matrix generated, its buffers allocated. */
  method NewDecoder(rateIdx: nat, short: bool, maxIterations: nat, earlyTermThreshold: real) returns (d: LdpcDecoder)
    requires rateIdx < 12
    ensures fresh(d) && d.Valid() && IsCode(d.H, rateIdx, short)
    ensures fresh(d.llrApp) && fresh(d.llrCn) && fresh(d.hardDecision) && fresh(d.syndrome)
    ensures d.maxIterations == maxIterations && d.earlyTermThreshold == earlyTermThreshold
  {
    hide InfoBits, UnitTriangular, IsMatrixOf;
    var M := Generate(rateIdx, short);
    var H := Checks(M.rowIndices, M.numCols, M.infoBits);
    CodeIsValid(H, rateIdx, short);
    d := new LdpcDecoder(H, maxIterations, earlyTermThreshold);
  }

  /** A new decoder given channel values with the signs of any encoded word: one iteration, and its information bits. */
  method DecodeOnce(rateIdx: nat, short: bool, maxIterations: nat, earlyTermThreshold: real, llrIn: seq<int>)
    returns (d: LdpcDecoder, result: LdpcResult)
    requires rateIdx < 12 && |llrIn| == if short then 16200 else 64800
    requires forall i :: 0 <= i < |llrIn| ==> -128 <= llrIn[i] <= 127
    ensures fresh(d) && d.Valid() && IsCode(d.H, rateIdx, short) && |d.H.rows| > 0
    ensures d.maxIterations == maxIterations && d.earlyTermThreshold == earlyTermThreshold
    ensures result.decodedBits == d.hardDecision[..d.H.infoBits]
    ensures result.converged <==> Satisfies(d.H.rows, d.hardDecision[..])
    ensures maxIterations >= 1 ==> exists n: nat ::
              && EndsAt(d.H, earlyTermThreshold, maxIterations, llrIn, n)
              && d.hardDecision[..] == HardDecision(Iterate(d.H.rows, Initial(d.H, llrIn), n).app)
    ensures maxIterations >= 1 ==> forall info: seq<bool> ::
              |info| == d.H.infoBits && HardDecision(llrIn) == Encoded(d.H, info) ==>
                result.converged && result.iterationsUsed == 1 && result.decodedBits == info
  {
    hide InfoBits, UnitTriangular, IsMatrixOf, HardDecision, Satisfies, Iterate;
    d := NewDecoder(rateIdx, short, maxIterations, earlyTermThreshold);
    result := d.Decode(llrIn);
    forall info: seq<bool> | |info| == d.H.infoBits && HardDecision(llrIn) == Encoded(d.H, info) && maxIterations >= 1
      ensures result.converged && result.iterationsUsed == 1 && result.decodedBits == info
    {
      EncodedSurvives(d.H, rateIdx, short, info, llrIn);
    }
  }
}
