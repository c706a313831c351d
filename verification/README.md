# A verified model of an ATSC 3.0 receiver's algebra, transforms and framing

The receiver turns samples into IP datagrams through a chain of small, exact algorithms. This
project models those algorithms in Dafny and proves what each of them promises, for all inputs.

- **BCH decoding** (`GaloisField`, `GaloisOrder`, `FieldTheory`, `LinearRecurrence`, `BerlekampMassey`,
  `Polynomials`, `BchCode`, `BchRuns`, `BchDecoder`, `BchLimits`). The field GF(2^16) with its tables,
  Massey's theorem as the invariant of the loop, the root search, and bounded-distance decoding: what is accepted is the one
  codeword within distance t. The decoder keeps its locator buffer between calls and overwrites only part
  of it, so completeness depends on that buffer; the exact condition is proved, in both directions.
- **LDPC decoding** (`MinSum`, `LdpcDecoder`, `LdpcMatrix`, `LdpcOnes`, `LdpcRank`, `LdpcCodes`). The integer layered
  min-sum decoder against its message-passing specification, with bounds, balance and the clean-word run; the matrix
  generator up to the full rank of all 24 codes; and both together, from an information word to its return.
- **FFT** (`RingTheory`, `FftTheory`, `FftEngine`, `BitReversal`). The in-place radix-2 loops over any
  commutative ring with w^(N/2) = -1 compute the discrete Fourier transform.
- **Demapping** (`GrayCode`, `Slicer`, `Demapper`). The nested-absolute-value slicer decides as the
  exhaustive search does, for every number of bits per dimension and every real point.
- **Framing** (`Crc32`, `CrcComputation`, `CrcTable`, `AlpHeader`, `AlpStream`, `AlpReassembly`,
  `AlpRoundTrip`, `AlpDemux`, `AlpRuns`, `AlpCompletion`). The CRC as polynomial division with its burst
  detection and both lookup tables; the link-layer stream parser and the sixteen reassembly contexts: conservation of bytes, soundness on arbitrary bytes, and the round trip of
  what senders encode, for every division into calls that the code tolerates.
- **Interleavers and the ring buffer** (`PrunedReversal`, `Interleavers`, `BitMasks`, `TimeDeinterleaver`,
  `TimeRuns`, `RingBuffer`). Permutation tables that are bijections for every size, delay lines that undo the
  transmitter's, and a lock-free queue under every interleaving of its atomic steps.

Classes hold the state that the source mutates; their methods are proved against functions of the old
state, and the promises are lemmas about those functions. `Arithmetic` holds facts about quotients, and
`Sequences` the few sequence functions that several modules share.

Points where the code and its documentation or a reader's expectation differ, and what is proved instead:

- A BCH decoder keeps its locator coefficients from call to call. It corrects every pattern of at most t
  errors if and only if those at indices 2 to t are zero (`BchCode.CorrectsAllExactly`). Over a sequence of
  calls that stays so exactly as long as each call corrects at most one error, or rejects a word with the
  syndromes of one error, or one that no recurrence of length at most t fits without storing a coefficient past the
  first (`BchRuns.RunStaysComplete`); `BchLimits.RejectedLeavesStale` is a rejection that ends it. Soundness never
  depends on it.
- When no recurrence of length at most t fits, the call is rejected, but L + 1 coefficients are copied all the
  same: for L = t + 1 they fill the buffer, and beyond that the copy leaves it
  (`BchDecoding.BchDecoder.BerlekampMassey`). Up to t + 1 errors cannot cause that (`BchRuns.FewErrorsHaveRoom`),
  and a word of the long frame with fifteen ones does (`BchLimits.LongFrameHasNoRoom`).
- A link-layer header that is cut after its second byte by the end of a call reads as invalid, and one byte
  is skipped. Divisions are invisible exactly elsewhere (`AlpStreams.DivisionIsInvisible`,
  `AlpStreams.CutIsVisible`, `AlpStreams.WhereDivisionsCut`).
- A segmented datagram whose segments are all empty is not released when its last segment arrives
  (`AlpCompletion.LastReleasesExactly`), and sixteen of them block all other sub-streams
  (`AlpCompletion.SixteenEmptiesBlock`). The round trip is about non-empty datagrams.
- With CRC checking on, payloads of one to three bytes are delivered unchecked, and no others
  (`AlpCompletion.EnforcedExactly`, `AlpCompletion.RunChecksExactly`).
- The norm of the grid of 1024 points is documented as 1/sqrt(682); its constant is 0.0000028 short of that root
  (`Demapping.UnitPower`).
- The cell interleaver documents a rank function as the interleaved position; it gives the positions of the table
  only when n or n + 1 is a power of two (`PrunedReversal.RankAgreesExactly`).
- The time deinterleaver restarts its row count with every call, so the delay law holds exactly for calls that
  start at whole rounds of the stream (`TimeRuns.LawHoldsExactly`, `TimeRuns.PartialRoundsBreak`).
- size() of the ring buffer loads two indices, and what it answers while other threads step in between is a count
  that held at one of the loads only under a condition (`RingBuffers.ObservedSize`, `RingBuffers.EmptySeemsFull`).

`dafny verify dfyconfig.toml` checks the whole project.

## Model

| member | source | states |
|---|---|---|
| GaloisField.MulIsRemainder | lib/fec/bch_decoder.cc:18-25 | the field product of two words is the remainder of their carry-less product modulo 0x1100B, with the quotient exhibited |
| GaloisField.MulComm | lib/fec/bch_decoder.cc:102-109 | field multiplication is commutative |
| GaloisField.MulDistrib | lib/fec/bch_decoder.cc:102-109 | field multiplication distributes over exclusive or |
| GaloisOrder.AlphaAdd | lib/fec/bch_decoder.cc:102-109 | powers of alpha multiply by adding exponents |
| GaloisOrder.AlphaInjective | lib/fec/bch_decoder.cc:88-99 | the 65535 powers the table loop stores are pairwise distinct: alpha has order exactly 65535 = 3 * 5 * 17 * 257, so 0x1100B is primitive |
| GaloisOrder.AlphaSurjective | lib/fec/bch_decoder.cc:88-99 | every nonzero word is one of those powers, so the logarithm table is filled completely |
| GaloisOrder.AlphaWraps | lib/fec/bch_decoder.cc:89-91 | exponents may be reduced modulo 65535, which is what the doubled exponent table relies on |
| GaloisOrder.LogAlpha | lib/fec/bch_decoder.cc:88-99 | logarithm and exponential are mutually inverse |
| GaloisOrder.MulAssoc | lib/fec/bch_decoder.cc:102-109 | field multiplication is associative |
| GaloisOrder.MulInverse | lib/fec/bch_decoder.cc:141-147 | every nonzero element times its inverse is one |
| GaloisOrder.Gf16IsField | lib/fec/bch_decoder.cc:16-25 | the words with these operations are a field of characteristic two |
| BchDecoding.BchDecoder.InitGfTables | lib/fec/bch_decoder.cc:78-100 | the shift-and-reduce loop leaves both halves of the exponent table and the logarithm table exactly right |
| BchDecoding.BchDecoder.LogIsStored | lib/fec/bch_decoder.cc:89-92 | every nonzero element finds its logarithm in the table |
| BchDecoding.BchDecoder.ExpIsStored | lib/fec/bch_decoder.cc:89-91 | every index below 131070 of the exponent table holds that power |
| BchDecoding.BchDecoder.GfMul | lib/fec/bch_decoder.cc:102-109 | the table lookup is the field product |
| BchDecoding.BchDecoder.GfDiv | lib/fec/bch_decoder.cc:111-124 | the table lookup times the divisor is the dividend; zero when either is zero |
| BchDecoding.BchDecoder.GfInv | lib/fec/bch_decoder.cc:141-147 | the table lookup is the inverse of a nonzero element |
| BchDecoding.BchDecoder.constructor | lib/fec/bch_decoder.cc:48-58 | a new decoder has the tables and an all-zero locator buffer |
| BchDecoding.BchDecoder.Reset | lib/fec/bch_decoder.cc:72-76 | reset clears the syndromes, the locator buffer and the positions |
| BchDecoding.BchDecoder.ComputeSyndromes | lib/fec/bch_decoder.cc:149-172 | entry j becomes the received word evaluated at alpha^j, for j = 1, ..., 2t |
| BchDecoding.BchDecoder.Discrepancy | lib/fec/bch_decoder.cc:193-199 | the inner loop computes the convolution of the current locator with the syndromes |
| BchDecoding.BchDecoder.UpdateSigma | lib/fec/bch_decoder.cc:208-214 | the truncated inner loop adds the shifted multiple of the previous locator, term by term |
| BchDecoding.BchDecoder.ShortestLocator | lib/fec/bch_decoder.cc:174-226 | while L <= t + 1 the loop holds the shortest recurrence for the syndromes read so far; L <= t exactly when some recurrence of length at most t annihilates all of them, and past t + 1, where the next round would read beyond the current polynomial, no recurrence of length at most t + 1 does |
| BchDecoding.BchDecoder.BerlekampMassey | lib/fec/bch_decoder.cc:174-231 | the copy of L + 1 coefficients stays within the buffer if and only if some recurrence of at most t + 2 coefficients fits the syndromes, that is, the final L is at most t + 1; then the buffer holds a shortest recurrence in its first L + 1 places and what was there before in the rest, also for the rejected length t + 1 |
| BchDecoding.BchDecoder.CopyCoefficients | lib/fec/bch_decoder.cc:227-228 | only the first L + 1 coefficients are stored |
| BchDecoding.BchDecoder.StoredDegree | lib/fec/bch_decoder.cc:239-244 | the degree scan finds the last nonzero of all t + 1 stored coefficients |
| BchDecoding.BchDecoder.NextTerms | lib/fec/bch_decoder.cc:275-285 | multiplying term k by alpha^(-k) advances the incremental evaluation to the next position |
| BchDecoding.BchDecoder.SumTerms | lib/fec/bch_decoder.cc:259-263 | the sum of the terms is the evaluation of the stored polynomial |
| BchDecoding.BchDecoder.ChienSearch | lib/fec/bch_decoder.cc:233-289 | the positions recorded are exactly the i below num_bits with the stored polynomial zero at alpha^(-i), ascending |
| BchDecoding.BchDecoder.AllSyndromesZero | lib/fec/bch_decoder.cc:310-317 | the check loop tells exactly whether the word is a codeword |
| BchDecoding.BchDecoder.FlipFound | lib/fec/bch_decoder.cc:353-358 | exactly the recorded positions are flipped in the packed working buffer |
| BchDecoding.BchDecoder.CopyIn | lib/fec/bch_decoder.cc:303-305 | the working buffer starts with the received bytes |
| BchDecoding.ByteIsItsBits | lib/fec/bch_decoder.h:160-180 | the bits of a byte are read in order of weight, the first worth 128 and the last 1 |
| BchDecoding.BchDecoder.Used | lib/fec/bch_decoder.cc:298-301 | all bits given are looked at, but never more than a codeword |
| BchDecoding.BchDecoder.Decode | lib/fec/bch_decoder.cc:291-387 | decode gives the outcome that the specification fixes for the received word and the locator buffer left by earlier calls; an accepted result holds that word, its error count and, as bytes, its information bits as far as the word reaches; working bytes past the received ones stay as earlier calls left them; the locator buffer is unchanged after a codeword, and holds the stored coefficients over the old ones after every other call whose copy stays within it, accepted or rejected |
| BchDecoding.BchDecoder.DecodeInto | lib/fec/bch_decoder.cc:389-401 | a count c >= 0 means the working word is a codeword at distance exactly c <= t, and the output begins with its information bits; -1 means failure; any codeword of all the bits given (or of a codeword, when more are given) within distance t is found when no stale coefficient lies beyond the error count |
| BchDecoding.DecodeMeaning | lib/fec/bch_decoder.cc:291-387 | over GF(2^16): soundness and conditional completeness of one outcome |
| BchCode.OutcomeUnique | lib/fec/bch_decoder.cc:291-387 | the locator buffer and the received word fix the outcome |
| BchCode.DecodingIsSound | lib/fec/bch_decoder.cc:291-387 | from any decoder state an accepted word is a codeword, differs from the input in exactly the reported number of positions, at most t, and is the only codeword within distance t |
| BchCode.DecodingIsComplete | lib/fec/bch_decoder.cc:291-387 | any received word within distance t of a codeword is decoded to it, with the exact error count, when no stale coefficient lies beyond that count |
| BchCode.CorrectsAllExactly | lib/fec/bch_decoder.cc:227-244 | a decoder corrects every pattern of at most t errors if and only if its locator buffer is zero at indices 2 to t, as it is when new or reset |
| BchCode.StaleMisses | lib/fec/bch_decoder.cc:239-256 | with a stale coefficient at index d, a pattern of d - 1 errors exists that is not corrected |
| BchCode.NotCleanAfter | lib/fec/bch_decoder.cc:227-228 | after correcting two or more errors the buffer is no longer clean, so a decoder that is not reset can miss |
| BchRuns.AcceptedStores | lib/fec/bch_decoder.cc:227-228 | an accepted call has stored nothing when the word was a codeword, and otherwise exactly one coefficient more than the errors it corrected |
| BchRuns.CallKeepsClean | lib/fec/bch_decoder.cc:227-244 | from a clean buffer a call leaves a clean one if and only if it is harmless: it corrected at most one error, or was rejected on a word with the syndromes of one error, or, where no recurrence of length at most t fits, stored no coefficient past the first |
| BchRuns.SyndromeSquare | lib/fec/bch_decoder.cc:149-172 | each even syndrome of a binary word is the square of the one of half its index |
| BchRuns.HigherTermsExactly | lib/fec/bch_decoder.cc:174-231 | for any received word that is no codeword and that a recurrence of length at most t fits, the coefficients stored past the first are zero if and only if syndrome j is the j-th power of the first for all j |
| BchRuns.RunStaysComplete | lib/fec/bch_decoder.cc:291-387 | over any sequence of calls from a new or reset decoder, whose copies stay within the buffer, every pattern of at most t errors stays correctable throughout if and only if every call was harmless |
| BchRuns.LateStartHasNoRoom | lib/fec/bch_decoder.cc:227-228 | when the first nonzero syndrome has an index from t + 2 to 2t, the copy leaves the buffer |
| BchRuns.FewErrorsHaveRoom | lib/fec/bch_decoder.cc:227-228 | a word with at most t + 1 errors never makes the copy leave the buffer |
| BchLimits.LongFrameHasNoRoom | lib/fec/bch_decoder.cc:38-43 | the input that shows it, with t = 12 and the 57600 bits of the long frame: fifteen ones whose first nonzero syndrome is the fifteenth |
| BchLimits.RejectedLeavesStale | lib/fec/bch_decoder.cc:227-244 | a rejected call can leave the buffer stale: with t = 2, three ones are rejected from every buffer and a second coefficient is stored |
| BchCode.MinimumWeight | lib/fec/bch_decoder.cc:149-172 | a nonzero word with 2t consecutive zero syndromes has more than 2t ones (the BCH bound) |
| BchCode.UniqueCodeword | lib/fec/bch_decoder.cc:291-387 | at most one codeword lies within distance t of a word |
| BchCode.LocatorIsProduct | lib/fec/bch_decoder.cc:174-231 | with 1 to t errors the shortest recurrence is the product of (1 - X_k x) over the error locators |
| BchCode.ProductRootsAreErrors | lib/fec/bch_decoder.cc:251-286 | the root search on that product finds exactly the error positions |
| BerlekampMassey.Init | lib/fec/bch_decoder.cc:180-190 | the invariant of Massey holds before the loop: sigma is the shortest recurrence for no syndromes |
| BerlekampMassey.StepZero | lib/fec/bch_decoder.cc:201-203 | a zero discrepancy keeps the invariant with m + 1 |
| BerlekampMassey.StepNonzero | lib/fec/bch_decoder.cc:204-224 | a nonzero discrepancy keeps the invariant: the update, cut to the array, is the shortest recurrence for one more syndrome, with length max(L, n - L), whenever that length is at most t + 1 |
| BerlekampMassey.StepBound | lib/fec/bch_decoder.cc:216-223 | after a nonzero discrepancy no recurrence for one more syndrome is shorter than max(L, n - L) |
| BerlekampMassey.NothingDropped | lib/fec/bch_decoder.cc:210-214 | the truncation i + m <= t + 1 never drops a nonzero coefficient while the next length is at most t + 1, and the previous polynomial, shifted, ends within that length |
| LinearRecurrence.MasseyBound | lib/fec/bch_decoder.cc:216-223 | if a recurrence of length L fails at term n, any recurrence for n terms has length at least n - L |
| LinearRecurrence.ShortestIsUnique | lib/fec/bch_decoder.cc:174-231 | a shortest recurrence of length at most half the terms is the only shortest one |
| Polynomials.RootBound | lib/fec/bch_decoder.cc:251-286 | a monic polynomial has at most as many distinct roots as its degree, and with that many it is their product |
| Polynomials.Vandermonde | lib/fec/bch_decoder.cc:149-172 | consecutive power sums at distinct nonzero locators vanish together only when all weights are zero |
| Polynomials.ProductIsShortest | lib/fec/bch_decoder.cc:174-231 | for power sums of distinct locators the product polynomial is the shortest recurrence |
| Polynomials.ShortestIsProduct | lib/fec/bch_decoder.cc:174-231 | every shortest recurrence for the power sums of at most n / 2 distinct nonzero locators is their product polynomial |
| MinSum.Sat | lib/fec/ldpc_decoder.cc:821-827 | saturation to 16 bits with a floor of -32767: a value moved up becomes -32767, one moved down 32767 |
| MinSum.Scale | lib/fec/ldpc_decoder.cc:889-896 | three quarters of the magnitude, to the nearest integer |
| MinSum.MinExceptIsLeast | lib/fec/ldpc_decoder.cc:873-882 | the magnitude of a check message comes from the least of the other magnitudes, or 32767 |
| MinSum.SignExceptIsParity | lib/fec/ldpc_decoder.cc:871-891 | its sign is negative exactly when an odd number of the other messages are |
| MinSum.SignTrick | lib/fec/ldpc_decoder.cc:889-891 | the product of all signs, times one sign, is the product of the other signs |
| MinSum.TwoMinimaStep | lib/fec/ldpc_decoder.cc:873-882 | one step of the scan keeps the smallest magnitude, the second smallest and the index |
| LdpcDecoding.MessageIs | lib/fec/ldpc_decoder.cc:889-896 | (3 * min + 2) >> 2 with the two-minimum rule and the sign product is the message computed from all other edges of the row |
| LdpcDecoding.LdpcDecoder.constructor | lib/fec/ldpc_decoder.cc:467-502 | the buffers have the shape of the parity-check matrix |
| LdpcDecoding.LdpcDecoder.ScanRow | lib/fec/ldpc_decoder.cc:852-883 | the first pass gives the variable messages, the sign product, and the two smallest magnitudes |
| LdpcDecoding.LdpcDecoder.UpdateRow | lib/fec/ldpc_decoder.cc:885-905 | one row: every check message is the specified one, and every APP is the saturated sum of its variable message and its new check message |
| LdpcDecoding.LdpcDecoder.MinSumIteration | lib/fec/ldpc_decoder.cc:834-907 | one pass is the layered update of every row in order |
| LdpcDecoding.LdpcDecoder.ComputeHardDecision | lib/fec/ldpc_decoder.cc:909-917 | a bit is one exactly when its APP is negative |
| LdpcDecoding.LdpcDecoder.CheckSyndrome | lib/fec/ldpc_decoder.cc:797-818 | the count returned is the number of unsatisfied checks, and each syndrome entry is its row parity |
| LdpcDecoding.Violated | lib/fec/ldpc_decoder.cc:797-818 | the count is the number of rows of odd parity |
| LdpcDecoding.LdpcDecoder.AverageMagnitude | lib/fec/ldpc_decoder.cc:562-568 | the early-termination average is the mean APP magnitude |
| LdpcDecoding.LdpcDecoder.Start | lib/fec/ldpc_decoder.cc:541-550 | APP starts as the channel values and every message as 0 |
| LdpcDecoding.LdpcDecoder.Decode | lib/fec/ldpc_decoder.cc:530-667 | the run ends with the first iteration whose decision satisfies every check or whose mean magnitude exceeds a positive threshold, and with the last one allowed when there is none; that iteration is reported, or one more than allowed when the loop runs out; the state is that of that many iterations, converged means the decision satisfies every check, the unsatisfied count is exact, and a clean word takes one iteration and comes back unchanged |
| LdpcDecoding.CleanFirstPass | lib/fec/ldpc_decoder.cc:541-560 | for any channel values whose signs satisfy all checks the first pass keeps every sign, even when APP values saturate |
| MinSum.CleanPass | lib/fec/ldpc_decoder.cc:834-907 | after any number of rows of a first pass over a clean word no sign has changed |
| MinSum.RowKeepsBounds | lib/fec/ldpc_decoder.cc:834-907 | after a row its messages are within 24575 and the APP values within 32767 |
| MinSum.RowsKeepBounds | lib/fec/ldpc_decoder.cc:834-907 | the bounds hold after any number of rows of an iteration |
| MinSum.RunKeepsBounds | lib/fec/ldpc_decoder.cc:834-907 | the bounds hold after any number of iterations |
| LdpcDecoding.RunStaysBounded | lib/fec/ldpc_decoder.cc:541-573 | the bounds hold in every decoding run of 8-bit inputs |
| MinSum.RowKeepsBalance | lib/fec/ldpc_decoder.cc:898-904 | while no APP update clips, each APP stays the channel value plus the sum of all messages into its column |
| MinSum.RowsKeepBalance | lib/fec/ldpc_decoder.cc:898-904 | one iteration keeps the balance after every row up to the first update that clips |
| MinSum.MessagesAreExtrinsic | lib/fec/ldpc_decoder.cc:859-864 | in a balanced state the message from a column to a row is its channel value plus all messages into the column but the one of this edge, saturated |
| MinSum.RunKeepsBalance | lib/fec/ldpc_decoder.cc:541-573 | from a start without messages, which is balanced, through any number of iterations and rows, as long as no earlier update has clipped |
| LdpcDecoding.RunStaysBalanced | lib/fec/ldpc_decoder.cc:541-573 | in every decoding run each APP equals its channel value plus the sum of all messages into its column, at every row of every iteration up to the first update that clips |
| LdpcMatrix.ConnectionsExact | lib/fec/ldpc_matrix.cc:97-119 | the systematic loop places exactly row_weight - 1 blocks in every block row of every code, so the minimum-connectivity loop is never entered |
| LdpcMatrix.GenerateRow | lib/fec/ldpc_matrix.cc:99-136 | one block row: the connections, the identity diagonal and the shifted sub-diagonal |
| LdpcMatrix.GenerateBaseMatrix | lib/fec/ldpc_matrix.cc:79-139 | every entry of the base matrix is the specified one |
| LdpcOnes.ConnectionsCount | lib/fec/ldpc_matrix.cc:97-110 | the connections made below a column are the columns the pattern picks, up to the row weight less one |
| LdpcOnes.OneInBlock | lib/fec/ldpc_matrix.cc:79-139 | a block entry puts a one at row r and column c exactly when the reference does: in one of the first weight - 1 picked block columns with shift 17 row + 13 column + 7 rate, on the diagonal, or on the sub-diagonal with shift 3 row, all modulo Q |
| LdpcRank.ExpansionIsMatrix | lib/fec/ldpc_matrix.cc:143-226 | the expanded rows list exactly the ones of that reference, for each of the 24 codes |
| LdpcRank.RowDegree | lib/fec/ldpc_matrix.cc:32-64 | a row has as many ones as its code has weight, and one more from the second block row on |
| LdpcMatrix.ExpandBlock | lib/fec/ldpc_matrix.cc:205-213 | one circulant block adds one column to each of its rows and one row to each of its columns |
| LdpcMatrix.PushOne | lib/fec/ldpc_matrix.cc:207-213 | one push into the row list and one into the column list |
| LdpcMatrix.ExpandBaseMatrix | lib/fec/ldpc_matrix.cc:178-226 | the row and column lists are exactly those of the edges of the expansion, in ascending order, before any sorting |
| LdpcMatrix.RowListIs | lib/fec/ldpc_matrix.cc:178-226 | each row list is ascending and duplicate-free |
| LdpcMatrix.ColListIs | lib/fec/ldpc_matrix.cc:178-226 | each column list is ascending and duplicate-free |
| LdpcMatrix.ListsAreTransposes | lib/fec/ldpc_matrix.cc:178-226 | a column is in a row list exactly when the row is in that column list |
| LdpcMatrix.BuildEdgeMap | lib/fec/ldpc_decoder.cc:341-357 | each entry is the place of the edge in the other list |
| LdpcMatrix.BuildEdgeMappings | lib/fec/ldpc_decoder.cc:324-373 | both maps are built for every edge |
| LdpcMatrix.EdgeMapsInverse | lib/fec/ldpc_decoder.cc:324-373 | following either map and then the other returns to the same edge |
| LdpcRank.ExpansionIsTriangular | lib/fec/ldpc_matrix.cc:122-136 | each expanded row ends in its own parity column and refers to no later one |
| LdpcRank.ExtensionSatisfies | lib/fec/ldpc_matrix.cc:178-226 | block forward substitution gives a word satisfying every check |
| LdpcRank.ExtensionUnique | lib/fec/ldpc_matrix.cc:178-226 | any word satisfying the checks is that one |
| LdpcRank.SystematicFullRank | lib/fec/ldpc_decoder.cc:659-663 | each assignment of the information bits extends to exactly one word satisfying every check |
| LdpcRank.Dimensions | lib/fec/ldpc_matrix.cc:32-64 | base sizes times the expansion factor give the code lengths and information lengths of all 24 codes, (rate + 2) / 15 of the length |
| LdpcRank.Generate | lib/fec/ldpc_matrix.cc:143-176 | for each of the 24 codes the generated matrix has its ones exactly where the arithmetic of that code puts them, is consistent, passes validation, has (rate + 2) / 15 information bits and at most 23 ones in a row, and is systematic of full rank |
| LdpcCodes.NewDecoder | lib/fec/ldpc_decoder.cc:388-405 | the decoder for each of the 24 codes is built on the matrix with exactly the ones of that code |
| LdpcCodes.EncodedSurvives | lib/fec/ldpc_decoder.cc:541-560 | channel values with the signs of the unique extension of any information word, whatever their magnitudes, satisfy every check and keep their signs through an iteration |
| LdpcCodes.DecodeOnce | lib/fec/ldpc_decoder.cc:388-667 | a new decoder for any of the 24 codes decodes as specified; given channel values with the signs of an encoded word it converges in one iteration and returns the information word |
| BitReversal.BitReverse | lib/ofdm/cell_deinterleaver.cc:46-54 | the shift loop reverses the low bits of an index |
| BitReversal.RevInvolution | lib/ofdm/fft_engine.cc:246-259 | reversing the low k bits twice gives the index back |
| FftEngines.FixedPointFftEngine.constructor | lib/ofdm/fft_engine.cc:163-176 | the engine holds the powers of the root and the reversed indices |
| FftEngines.FixedPointFftEngine.ComputeBitReversal | lib/ofdm/fft_engine.cc:246-269 | entry i of the table is i with its bits reversed |
| FftEngines.FixedPointFftEngine.Log2Size | lib/ofdm/fft_engine.cc:261-269 | the loop counts the stages: the exponent of the size |
| FftEngines.FixedPointFftEngine.Load | lib/ofdm/fft_engine.cc:182-185 | the work buffer starts as the input in bit-reversed order, which is the zeroth stage |
| FftEngines.FixedPointFftEngine.Block | lib/ofdm/fft_engine.cc:279-302 | the butterflies of one block, in place, produce the next stage on that block and change nothing else |
| FftEngines.FixedPointFftEngine.RunStage | lib/ofdm/fft_engine.cc:273-303 | one pass over all blocks is one stage |
| FftEngines.FixedPointFftEngine.CooleyTukeyDit | lib/ofdm/fft_engine.cc:271-305 | all stages in turn |
| FftEngines.FixedPointFftEngine.Process | lib/ofdm/fft_engine.cc:180-202 | output j is the sum of in[i] * w^(i * j): the discrete Fourier transform of the input, also when input and output are one buffer |
| FftTheory.LoadIsBitReversed | lib/ofdm/fft_engine.cc:182-185 | the recursive decomposition starts from the bit-reversed input |
| FftTheory.StageStepHolds | lib/ofdm/fft_engine.cc:279-302 | each in-place butterfly is the recursive butterfly of its stage |
| FftTheory.StageIsDft | lib/ofdm/fft_engine.cc:271-305 | after the last stage every position holds the input polynomial at that power of the root, for any commutative ring with w^(N/2) = -1 |
| FftTheory.RootSumVanishes | lib/ofdm/fft_engine.cc:232-241 | the powers of a nontrivial root sum to zero |
| FftTheory.InverseAfterForward | lib/ofdm/fft_engine.cc:180-202 | the transform with the inverse root after the transform gives N times the input |
| GrayCode.ComputeFromGray | lib/ofdm/constellation_demapper.cc:42-48 | the mask loop computes the prefix parity of the label |
| GrayCode.ToGrayInverts | lib/ofdm/constellation_demapper.cc:38-48 | to_gray undoes from_gray for every number |
| GrayCode.FromGrayInverts | lib/ofdm/constellation_demapper.cc:38-48 | from_gray undoes to_gray for every number |
| GrayCode.Reflection | lib/ofdm/constellation_demapper.cc:38-48 | the top label bit tells the half and mirrored levels share all other label bits |
| Demapping.BuildUniformQam | lib/ofdm/constellation_demapper.cc:177-194 | point i is the pair of levels that the halves of its label name, times the norm |
| Demapping.BuildBitLists | lib/ofdm/constellation_demapper.cc:485-505 | the two lists of a bit are exactly the labels with and without it, ascending |
| Demapping.ConstellationDemapper.constructor | lib/ofdm/constellation_demapper.cc:400-442 | points and lists for the configured grid |
| Demapping.ConstellationDemapper.MinDistance | lib/ofdm/constellation_demapper.cc:524-539 | the loop finds the least squared distance to the symbols with the given bit value |
| Demapping.ConstellationDemapper.ComputeLlrMaxLog | lib/ofdm/constellation_demapper.cc:524-545 | the value is the scaled difference of the two least distances |
| Demapping.DemapQpskFast | lib/ofdm/constellation_demapper.cc:283-290 | the two outputs are the slicer values with one bit per dimension, on the grid of any positive scale |
| Demapping.DemapQam16Fast | lib/ofdm/constellation_demapper.cc:293-315 | the nested-absolute-value formulas are the slicer with two bits per dimension |
| Demapping.DemapQam64Fast | lib/ofdm/constellation_demapper.cc:318-358 | the outputs are the slicer values with three bits per dimension |
| Demapping.DemapQam256Fast | lib/ofdm/constellation_demapper.cc:361-396 | the outputs are the slicer values with four bits per dimension |
| Demapping.ConstellationDemapper.DemapSymbol | lib/ofdm/constellation_demapper.cc:547-581 | up to four bits per dimension every output is the slicer value times the scale, above that the max-log value, clipped and otherwise at most one half away; both decide as the exhaustive search |
| Demapping.ClampRoundKeepsSign | lib/ofdm/constellation_demapper.cc:70-78 | clipping and rounding keep the sign or give zero, and give zero only below one half |
| Demapping.ClampRound | lib/ofdm/constellation_demapper.cc:70-78 | the output is the clip at or beyond it on either side, and else at most one half from the value, ties away from zero |
| Demapping.QuantisedUnique | lib/ofdm/constellation_demapper.cc:70-78 | that leaves one output for every value |
| Demapping.QuantisedMonotone | lib/ofdm/constellation_demapper.cc:70-78 | a greater value never gives a smaller output |
| Demapping.UnitPower | lib/ofdm/constellation_demapper.cc:50-63 | the grids have unit mean power, but for 1024 points, whose constant squared is more than 0.0001 short of 682 |
| Demapping.QuantisedNeverContradicts | lib/ofdm/constellation_demapper.cc:547-581 | no quantised output contradicts the exhaustive search |
| Demapping.SlicesDecide | lib/ofdm/constellation_demapper.cc:283-396 | all slicer values of a symbol decide as the exhaustive search, whatever the positive noise scale |
| Slicer.NearestFolds | lib/ofdm/constellation_demapper.cc:215-280 | folding at zero carries the least distance for one bit to that for the next bit of a half-size grid |
| Slicer.FirstBitSign | lib/ofdm/constellation_demapper.cc:283-290 | for the most significant bit the sign of the difference is the sign of minus the coordinate |
| Slicer.SliceAgrees | lib/ofdm/constellation_demapper.cc:283-396 | for every number of bits per dimension, every bit and every real coordinate the slicer has the sign of the max-log difference, and is zero exactly at ties |
| Slicer.SymbolSliceAgrees | lib/ofdm/constellation_demapper.cc:524-545 | the same agreement for every received point of the two-dimensional Gray-labelled grid |
| CrcComputation.TableEntry | lib/framing/l1_decoder.cc:29-38 | the inner loop computes the check of one byte |
| CrcComputation.InitCrc32Table | lib/framing/l1_decoder.cc:25-41 | all 256 entries |
| CrcTable.EntryChild | lib/framing/l1_decoder.cc:29-38 | the check of a byte is that of half the byte, advanced by one bit |
| CrcTable.ConstantIsEntry | lib/framing/alp_demux.cc:16-49 | each of the 256 constants of the link-layer decoder is the check of its byte |
| CrcTable.ConstantTable | lib/framing/alp_demux.cc:16-49 | so the constants are the table the lookups need |
| CrcComputation.LookupIsEightSteps | lib/framing/alp_demux.cc:474-477 | one lookup advances the register as eight bit-serial steps do |
| CrcComputation.ComputeCrc32 | lib/framing/alp_demux.cc:471-480 | the table-driven loop is the bit-serial register over all bits of the data |
| CrcComputation.VerifyCrc | lib/framing/alp_demux.cc:454-469 | a packet is accepted exactly when its last four bytes are the check of the rest; fewer than four bytes are rejected |
| Crc32.CheckIsRemainder | lib/framing/alp_demux.cc:471-480 | the register is the remainder of the message times x^32 plus the initial register, divided by the generator |
| Crc32.RegisterDivides | lib/framing/alp_demux.cc:471-480 | from a zero register it is the schoolbook remainder of the message with 32 zeros |
| Crc32.DivisionIs | lib/framing/l1_decoder.cc:17-41 | schoolbook division: dividend = quotient * generator + remainder |
| Crc32.AcceptedMeansDivisible | lib/framing/alp_demux.cc:454-469 | acceptance is divisibility by the generator, in both directions |
| Crc32.ResidueIsZero | lib/framing/alp_demux.cc:454-469 | a message followed by a word leaves a zero register exactly when the word is its check |
| Crc32.BurstDetected | lib/framing/alp_demux.cc:454-480 | two messages that differ only within 32 consecutive bits never share a register |
| CrcComputation.AppendedCheckAccepted | lib/framing/alp_demux.cc:454-469 | exactly one four-byte trailer is accepted after a message |
| CrcComputation.AcceptsIsZeroResidue | lib/framing/alp_demux.cc:454-469 | acceptance is a zero residue over the whole packet |
| CrcComputation.EmptyMessageAccepted | lib/framing/alp_demux.cc:454-480 | of the packets of four bytes exactly FF FF FF FF is accepted |
| CrcComputation.ZerosNeverAccepted | lib/framing/alp_demux.cc:454-480 | no packet of zero bytes is accepted, however long |
| CrcComputation.BurstRejected | lib/framing/alp_demux.cc:454-480 | an accepted packet damaged only within 32 consecutive bits, check included, is never accepted |
| CrcComputation.ExtractBits | lib/framing/l1_decoder.cc:170-184 | the loop reads the number formed by the bits at the offset |
| CrcComputation.ComputeCrc32OfBits | lib/framing/l1_decoder.cc:131-149 | whole bytes, then the leading bits of one more filled up with zeros, then the complement |
| CrcComputation.ValidateCrc | lib/framing/l1_decoder.cc:151-168 | true when checking is off; otherwise exactly when the last 32 bits are the complemented check of the bits before |
| CrcComputation.SignallingResidue | lib/framing/l1_decoder.cc:151-168 | acceptance is one fixed residue of the filled-up message followed by its check |
| CrcComputation.EmptySignallingAccepted | lib/framing/l1_decoder.cc:131-168 | of 32 signalling bits alone exactly the zeros are accepted |
| AlpHeaders.Encode | lib/framing/alp_demux.cc:164-227 | the layout of the four header forms has the header size the parser reports |
| AlpHeaders.ParseOfEncode | lib/framing/alp_demux.cc:164-248 | whatever follows and whatever the spare bits hold, the parser reads an encoded header back |
| AlpHeaders.EncodeOfParse | lib/framing/alp_demux.cc:164-248 | whatever the parser accepts is, up to its payload, the layout of what it returns |
| AlpHeaders.ShortHeaders | lib/framing/alp_demux.cc:163-190 | the five kinds and three reserved codes by the first byte, and the length, of a short header |
| AlpHeaders.FieldPositions | lib/framing/alp_demux.cc:176-226 | length, sequence, last flag and sub-stream stand where the layout has them in the header bytes read as big-endian numbers |
| AlpStreams.NothingIsLost | lib/framing/alp_demux.cc:73-115 | the packets and skipped bytes found, in order, followed by the rest, are exactly the buffer; the counts add up |
| AlpStreams.RestIsStable | lib/framing/alp_demux.cc:112-115 | what is kept between calls contains nothing that could be handled |
| AlpStreams.DivisionIsInvisible | lib/framing/alp_demux.cc:80-115 | a division of the stream into two calls that cuts no header changes nothing |
| AlpStreams.CutIsVisible | lib/framing/alp_demux.cc:86-93 | a division that cuts a header changes the result for every continuation of at least 8195 bytes |
| AlpStreams.ChunkingIsInvisible | lib/framing/alp_demux.cc:65-121 | any number of calls, none of them cutting a header, scans as one buffer |
| AlpStreams.NothingIsLostInCalls | lib/framing/alp_demux.cc:65-121 | over any number of calls, divided anywhere, the items found, in order, followed by what the last call kept, are exactly the bytes fed |
| AlpStreams.ScanOfEncoded | lib/framing/alp_demux.cc:80-115 | a stream of encoded packets is scanned into exactly those packets |
| AlpStreams.WhereDivisionsCut | lib/framing/alp_demux.cc:86-93 | a division of such a stream cuts a header exactly inside an extended header after its first byte |
| AlpReassembly.Find | lib/framing/alp_demux.cc:397-404 | the first active context of a sub-stream, if any |
| AlpReassembly.Slot | lib/framing/alp_demux.cc:374-395 | the index is that of a context of the sub-stream when there is one, else that of a free context; it is none exactly when all are active for other sub-streams |
| AlpReassembly.TailIsRun | lib/framing/alp_demux.cc:297-348 | the reference: a run is numbered 0, 1, 2, ... with no other piece of its sub-stream in between |
| AlpReassembly.PieceIsSound | lib/framing/alp_demux.cc:297-348 | every piece keeps active contexts distinct, within the size limit, and equal to their runs; what is delivered is a complete, checked run ended by a piece flagged last |
| AlpRoundTrip.FreeContext | lib/framing/alp_demux.cc:381-394 | with at most sixteen datagrams open a free context exists |
| AlpRoundTrip.PieceMirrors | lib/framing/alp_demux.cc:297-348 | a piece in order, with room, makes no error and delivers exactly what its sender completes |
| AlpRoundTrip.SplitAllInOrder | lib/framing/alp_demux.cc:297-348 | every piece of a sender that cuts non-empty datagrams is the next of its datagram |
| AlpRoundTrip.GramsOfSplitAll | lib/framing/alp_demux.cc:415-438 | the datagrams completed on a sub-stream are exactly those its sender cut up |
| AlpRoundTrip.CarriedIsSent | lib/framing/alp_demux.cc:323-348 | under any interleaving of senders, the n-th piece flagged last of a sub-stream completes exactly the n-th datagram of its sender |
| AlpRoundTrip.OnlyMatters | lib/framing/alp_demux.cc:374-404 | other sub-streams do not matter to a sub-stream |
| AlpRoundTrip.CheckedIsDelivered | lib/framing/alp_demux.cc:420-429 | a payload followed by its check is delivered as the payload |
| AlpDemultiplexer.AlpDemux.constructor | lib/framing/alp_demux.cc:52-61 | a new demultiplexer is empty, with sixteen free contexts and all counters zero |
| AlpDemultiplexer.AlpDemux.FindReassemblyContext | lib/framing/alp_demux.cc:397-404 | the loop finds the specified context |
| AlpDemultiplexer.AlpDemux.GetReassemblyContext | lib/framing/alp_demux.cc:374-395 | the context found or taken, and nothing else changed |
| AlpDemultiplexer.AlpDemux.ReleaseReassemblyContext | lib/framing/alp_demux.cc:406-413 | one context released, the others unchanged |
| AlpDemultiplexer.AlpDemux.CompleteReassembly | lib/framing/alp_demux.cc:415-438 | check, strip, deliver, release; an empty buffer is left as it is, still active |
| AlpDemultiplexer.AlpDemux.AppendPiece | lib/framing/alp_demux.cc:323-348 | sequence and size checks, then the payload is appended |
| AlpDemultiplexer.AlpDemux.HandleSegment | lib/framing/alp_demux.cc:296-348 | one segment, from the choice of its context on |
| AlpDemultiplexer.AlpDemux.HandleIpv4Packet | lib/framing/alp_demux.cc:277-350 | counts, and either the direct delivery or the segment |
| AlpDemultiplexer.AlpDemux.HandleSignalingPacket | lib/framing/alp_demux.cc:352-358 | a non-empty payload goes to the signalling callback |
| AlpDemultiplexer.AlpDemux.HandleTsPacket | lib/framing/alp_demux.cc:360-372 | each whole 188-byte packet goes to the callback; a remainder is dropped |
| AlpDemultiplexer.TsChunksAre | lib/framing/alp_demux.cc:360-372 | the chunks are the whole 188-byte pieces of the payload, in order |
| AlpDemultiplexer.AlpDemux.ProcessPacket | lib/framing/alp_demux.cc:250-275 | one packet by its kind |
| AlpDemultiplexer.AlpDemux.Process | lib/framing/alp_demux.cc:65-121 | one call handles exactly the items of the buffered bytes followed by the new ones, keeps exactly the rest, and returns the number of packets |
| AlpDemultiplexer.AlpDemux.Flush | lib/framing/alp_demux.cc:151-162 | exactly the active contexts that hold a byte are dropped and counted; an empty one stays open; the buffer is cleared |
| AlpDemultiplexer.AlpDemux.Reset | lib/framing/alp_demux.cc:139-149 | all contexts, counters and buffered bytes are cleared |
| AlpRuns.CountsAreExact | lib/framing/alp_demux.cc:83-110 | each item is counted once: a header error per skipped byte, a packet by its kind, a fragment per segment |
| AlpRuns.DatagramsAreCounted | lib/framing/alp_demux.cc:277-350 | the datagrams counted as reassembled are exactly those delivered |
| AlpRuns.ErrorsAreCounted | lib/framing/alp_demux.cc:277-438 | each failed segment is one reassembly error and each failed check one CRC error |
| AlpRuns.BytesAreConserved | lib/framing/alp_demux.cc:73-115 | in one call, bytes of packets plus header errors plus bytes kept are the bytes of the buffer |
| AlpRuns.CallsConserveBytes | lib/framing/alp_demux.cc:65-121 | over any number of calls, divided anywhere, bytes of packets plus header errors plus bytes kept at the end are all bytes fed, and every packet found is counted |
| AlpRuns.RunIsSound | lib/framing/alp_demux.cc:65-121 | on arbitrary bytes the contexts track their runs, and every delivered datagram has its reason among the packets received |
| AlpRuns.RunAsIntended | lib/framing/alp_demux.cc:65-121 | orderly pieces are delivered exactly, in order of completion, without a reassembly error |
| AlpRuns.InterleavedIsOrderly | lib/framing/alp_demux.cc:297-348 | any interleaving of senders with at most sixteen open datagrams is orderly |
| AlpRuns.CallsAreOneRun | lib/framing/alp_demux.cc:65-121 | a sequence of calls is one run over the items they find |
| AlpRuns.StreamArrives | lib/framing/alp_demux.cc:65-121 | an encoded stream arrives whole for every division outside extended headers |
| AlpRuns.RoundTrip | lib/framing/alp_demux.cc:65-121 | encoded packets of interleaved senders, divided that way, leave as output exactly the datagrams the senders cut up, each where its last piece stands, among the payloads of the other packets, with no header or reassembly error and nothing left over |
| AlpRuns.IntendedIsSent | lib/framing/alp_demux.cc:297-348 | what the received pieces complete is, piece by piece, what the senders sent |
| AlpRuns.DatagramArrives | lib/framing/alp_demux.cc:415-438 | at the place of the n-th last piece of a sub-stream the output holds the n-th datagram of its sender without its check |
| AlpRuns.DatagramsReturned | lib/framing/alp_demux.cc:415-438 | of a sub-stream received whole, by orderly pieces, the output holds exactly the datagrams its sender cut up, in order |
| AlpRuns.SubStreamArrives | lib/framing/alp_demux.cc:65-121 | the same for the output of the calls on a divided stream of encoded packets |
| AlpCompletion.LastReleasesExactly | lib/framing/alp_demux.cc:415-438 | after a piece flagged last its sub-stream still holds a context if and only if the piece carries no byte and, before it, a context was to be had for a first segment, or one with an empty buffer was waiting for its number |
| AlpCompletion.EmptyRunStays | lib/framing/alp_demux.cc:415-438 | and then the whole run that the piece ends has carried no byte |
| AlpCompletion.EmptyGramStays | lib/framing/alp_demux.cc:415-418 | the input that shows it: a single segment, first and last, with an empty payload, is not delivered and leaves its context active |
| AlpCompletion.SixteenEmptiesBlock | lib/framing/alp_demux.cc:374-395 | after sixteen such datagrams of different sub-streams every later piece of any other sub-stream fails, however many there are |
| AlpCompletion.RunChecksExactly | lib/framing/alp_demux.cc:420-429 | with checking on, what a run of segments delivers was checked and lost four bytes if and only if it carried at least four; otherwise it is delivered whole |
| AlpCompletion.EnforcedExactly | lib/framing/alp_demux.cc:277-294 | with checking on, no payload of n bytes is delivered without its check if and only if n is 0 or at least 4 |
| AlpCompletion.ThreeBytesPass | lib/framing/alp_demux.cc:277-294 | the input that shows it: three bytes are delivered and are not accepted by the check |
| PrunedReversal.ComputeCountBits | lib/ofdm/cell_deinterleaver.cc:37-44 | the loop counts the bits of a number |
| PrunedReversal.NextPowerOfTwo | lib/ofdm/cell_deinterleaver.cc:23-34 | six smearing steps fill a 64-bit number below its highest bit, so the result is the smallest power of two that is at least n, and 0 by wrap-around for n above 2^63 |
| PrunedReversal.PaddedIsLeast | lib/ofdm/cell_deinterleaver.cc:23-34 | that power is the least |
| PrunedReversal.SmearedIsOnes | lib/ofdm/cell_deinterleaver.cc:26-33 | a reach of 64 turns a 64-bit number into ones below its highest bit |
| PrunedReversal.PositionInvolution | lib/ofdm/cell_deinterleaver.cc:167-249 | for every size the table is its own inverse on 0, ..., n - 1 |
| PrunedReversal.PositionInjective | lib/ofdm/cell_deinterleaver.cc:167-249 | two indices below n with the same position are equal |
| PrunedReversal.RevBit | lib/ofdm/cell_deinterleaver.cc:46-54 | bit j of the reversed index is bit k - 1 - j of the index |
| PrunedReversal.PositionReverses | lib/ofdm/cell_deinterleaver.cc:167-249 | an index goes to the number with its bits in reverse order when that is in range, and stays otherwise |
| PrunedReversal.RankedIsPermutation | lib/ofdm/cell_deinterleaver.cc:323-345 | for every size the pruned-rank function is a permutation |
| PrunedReversal.RankAgreesExactly | lib/ofdm/cell_deinterleaver.cc:323-345 | the rank function gives the positions of the table if and only if n or n + 1 is a power of two |
| PrunedReversal.FiveDisagree | lib/ofdm/cell_deinterleaver.cc:323-345 | for five positions the table leaves 3 in place and the rank function gives 1 |
| Interleaving.ValidPairs | lib/ofdm/cell_deinterleaver.cc:203-209 | exactly the indices that reversal keeps in range |
| Interleaving.NextEntered | lib/ofdm/cell_deinterleaver.cc:215-221 | no two pairs collide, so the guard never skips one |
| Interleaving.UsePairs | lib/ofdm/cell_deinterleaver.cc:211-221 | used sources, used destinations and indices kept in range are the same set |
| Interleaving.FillRest | lib/ofdm/cell_deinterleaver.cc:223-236 | each source left over takes itself |
| Interleaving.Invert | lib/ofdm/cell_deinterleaver.cc:239-245 | the stored table takes every forward position back, and equals the forward table |
| Interleaving.ComputePermutation | lib/ofdm/cell_deinterleaver.cc:167-249 | the stored table is the pruned bit reversal for every size |
| Interleaving.ComputeCellInterleaverPosition | lib/ofdm/cell_deinterleaver.cc:323-345 | the loop returns the element of that rank, and always finds one |
| Interleaving.DeinterleavingRecovers | lib/ofdm/cell_deinterleaver.cc:276-292 | what was sent through the forward table, cell i to its position, is returned by gathering with the stored inverse, because the table of every size is its own inverse |
| Interleaving.RecoversExactly | lib/ofdm/cell_deinterleaver.cc:276-292 | for any permutation, gathering by the inverse table returns everything sent through the forward table if and only if the permutation is its own inverse |
| Interleaving.DeinterleavingTwice | lib/ofdm/cell_deinterleaver.cc:276-292 | deinterleaving twice restores the input |
| Interleaving.CellDeinterleaver.constructor | lib/ofdm/cell_deinterleaver.cc:159-163 | a table for the configured size |
| Interleaving.CellDeinterleaver.Deinterleave | lib/ofdm/cell_deinterleaver.cc:276-292 | in place, the cells are gathered by the table, rebuilt when the size changes |
| Interleaving.CellDeinterleaver.DeinterleaveTo | lib/ofdm/cell_deinterleaver.cc:294-307 | into another buffer; a table of another size copies the cells |
| Interleaving.FreqDeinterleaver.constructor | lib/ofdm/freq_deinterleaver.cc:133-222 | a table for the configured carriers, or for 6913, 13825 or 27649 of them by the FFT size |
| Interleaving.FreqDeinterleaver.Deinterleave | lib/ofdm/freq_deinterleaver.cc:241-253 | the carriers are gathered by the table |
| Interleaving.FreqDeinterleaver.DeinterleaveInplace | lib/ofdm/freq_deinterleaver.cc:255-270 | in place, the carriers are gathered by the table from a copy |
| Interleaving.FreqDeinterleaver.InterleaverPermutation | lib/ofdm/freq_deinterleaver.cc:224-239 | the search of the inverse table finds the forward position |
| Interleaving.TablesCoincide | lib/ofdm/freq_deinterleaver.cc:139-222 | cell and frequency tables of one size are the same, so each deinterleaver undoes the other |
| BitMasks.TestIsExact | lib/ofdm/time_deinterleaver.cc:18-20 | n & (n - 1) == 0 accepts exactly the powers of two |
| BitMasks.MaskOfPower | lib/ofdm/time_deinterleaver.cc:107-114 | masking with a power of two less one is the remainder |
| TimeDeinterleaving.TimeDeinterleaver.constructor | lib/ofdm/time_deinterleaver.cc:31-77 | row i gets a line of (rows - 1 - i) * cells_per_block zeros |
| TimeDeinterleaving.TimeDeinterleaver.ProcessCell | lib/ofdm/time_deinterleaver.cc:104-133 | a cell comes out as its row had it exactly that many visits ago, 0 before the beginning |
| TimeDeinterleaving.TimeDeinterleaver.Process | lib/ofdm/time_deinterleaver.cc:79-97 | one call outputs every cell with the delay of its row and appends each cell to what its row has seen |
| TimeDeinterleaving.TimeDeinterleaver.Reset | lib/ofdm/time_deinterleaver.cc:140-151 | the lines are zero again |
| TimeDeinterleaving.LineStep | lib/ofdm/time_deinterleaver.cc:121-132 | the circular buffer is an exact delay of its length |
| TimeRuns.RunIsShift | lib/ofdm/time_deinterleaver.cc:79-97 | calls that each start at a whole round of the stream, the last one ending anywhere, turn the stream into one where each position is shifted by its row delay; with one row or no delay any calls do |
| TimeRuns.ShiftsAddUp | lib/ofdm/time_deinterleaver.cc:61-72 | interleaver and deinterleaver delays add up to the same for every position |
| TimeRuns.RunRecovers | lib/ofdm/time_deinterleaver.cc:79-133 | after the transmitter delays of row * cells_per_block such a run returns the whole stream exactly rows * (rows - 1) * cells_per_block cells later |
| TimeRuns.PartialRoundsBreak | lib/ofdm/time_deinterleaver.cc:91-94 | a call that starts inside a round breaks the delay law: a concrete pair of calls |
| TimeRuns.LongCallsDecide | lib/ofdm/time_deinterleaver.cc:79-133 | for any call lengths, the last one longer than the latency: the delay law holds for all contents if and only if every call with cells starts at a whole round, or there is one row or no delay |
| TimeRuns.LawHoldsExactly | lib/ofdm/time_deinterleaver.cc:79-133 | calls of given lengths keep the delay law with every further call, of any length, if and only if they and that call start at whole rounds, or there is one row or no delay |
| RingBuffers.EveryInterleaving | av/ring_buffer.h:34-73 | under every interleaving of the atomic steps of push and pop the popped elements are a prefix of the pushed ones and at most Capacity - 1 are held |
| RingBuffers.StepKeeps | av/ring_buffer.h:34-73 | every step keeps the invariant |
| RingBuffers.NeverSameSlot | av/ring_buffer.h:42-70 | a producer about to write and a consumer about to take never address the same slot |
| RingBuffers.ReportsAreExact | av/ring_buffer.h:38-68 | the full test holds exactly when Capacity - 1 elements are held, the empty test exactly when none is |
| RingBuffers.PushAnswers | av/ring_buffer.h:34-45 | under every interleaving a push is refused exactly when Capacity - 1 elements are held at its load of the tail, and otherwise appends its item |
| RingBuffers.PopAnswers | av/ring_buffer.h:63-73 | a pop reports empty exactly when none is held at its load of the head, and otherwise takes the oldest element |
| RingBuffers.NeverStuck | av/ring_buffer.h:34-73 | a thread inside a call always has its next step; no slot it needs is missing |
| RingBuffers.NextIs | av/ring_buffer.h:36-36 | mask arithmetic on the index agrees with counting modulo Capacity |
| RingBuffers.WrappedDistance | av/ring_buffer.h:99-103 | the 64-bit difference of the indices, masked, is the distance around the ring |
| RingBuffers.RingBuffer.constructor | av/ring_buffer.h:30-30 | a new buffer is empty |
| RingBuffers.RingBuffer.Push | av/ring_buffer.h:34-45 | push appends exactly when fewer than Capacity - 1 elements are held |
| RingBuffers.RingBuffer.Pop | av/ring_buffer.h:63-73 | pop removes and returns the oldest element, or reports empty |
| RingBuffers.RingBuffer.IsEmpty | av/ring_buffer.h:87-89 | with no step in between, empty means no element |
| RingBuffers.RingBuffer.IsFull | av/ring_buffer.h:92-96 | with no step in between, full means Capacity - 1 elements |
| RingBuffers.RingBuffer.Size | av/ring_buffer.h:99-103 | with no step in between, size is the number of elements held |
| RingBuffers.ObservedSize | av/ring_buffer.h:99-103 | with the other threads stepping between its two loads, size is the count at the first load if and only if the pops completed in between are a multiple of Capacity, the count at the second if and only if the pushes are, and pushes less pops if and only if nothing pushed in between was popped in between |
| RingBuffers.ObservedTests | av/ring_buffer.h:87-96 | on the same two loads empty and full say exactly that this size is 0 or Capacity - 1 |
| RingBuffers.EmptySeemsFull | av/ring_buffer.h:99-103 | on an empty queue, with one push and one pop between the loads, size answers Capacity - 1 |

## Left out

- BchDecoding.BchDecoder.ShortestLocator: stops once L > t + 1, where the code goes on reading past its current polynomial; L can only grow from there, so the call is rejected.
- BchDecoding.BchDecoder.Decode: for such a call, whose copy then leaves the locator buffer, nothing is promised about that buffer, nor about memory beside it.
- BchRuns.RunStaysComplete: for a rejected word that only a recurrence of length t + 1 fits, the condition names the coefficients stored, since such a recurrence need not be the only one.
- BchDecoding.BchDecoder.DecodeInto: assumes codeword lengths of at most 65535 bits, the range in which alpha^i names each position once.
- BchDecoding.BchDecoder.constructor: assumes t of at most 65535, so that the root search wraps an exponent at most once, and an information part no longer than the codeword.
- BchDecoder beyond decoding: set_config, the table of configurations, and gf_pow with negative exponents, which the decoder does not use.
- FftEngines.FixedPointFftEngine.Process: twiddles are powers of a ring element, so Q15 rounding, wrap-around and the normalisation shift are abstracted.
- LdpcDecoding.LdpcDecoder.AverageMagnitude: a real number where the code computes in float.
- LdpcMatrix.ExpandBaseMatrix: the sort after expansion is not modelled as a step, since the lists are proved ascending already; indices are unbounded where the source stores 16 bits, which all 24 codes fit.
- LDPC float path, whose sign of zero differs from the fixed-point one, the random test matrix, and matrix files.
- Demapping.ConstellationDemapper.ComputeLlrMaxLog: real arithmetic where the code uses float, and "no distance yet" where it starts from the largest float.
- Demapping.ConstellationDemapper.DemapSymbol: uniform grids only; the non-uniform constellation tables, batching over symbols, SIMD, and fixed-point sample conversion are not modelled.
- Signalling fields beyond their CRC, service tables, and everything above IP datagrams.
- AlpDemultiplexer.AlpDemux.Process: deliveries are a log where the source calls functions, and callbacks are fixed when the object is made; the packet counter and the timeout check, which releases nothing, and the byte total that nothing reads are not modelled.
- AlpRuns.RoundTrip: one PLP for the whole run; contexts of several PLPs fed into one demultiplexer are not distinguished by the code either.
- AlpDemultiplexer.AlpDemux.Reset: the log of deliveries is kept, since the source cannot take a delivery back.
- Interleaving.ComputePermutation: sizes up to 2^63, beyond which the padded size wraps to 0 and no buffer exists.
- TimeDeinterleaving.TimeDeinterleaver.Process: from construction or reset; set_config and the settling counters are not modelled.
- RingBuffers.RingBuffer.Size: one thread, like IsEmpty and IsFull beside it; the interleaved observers are ObservedSize and ObservedTests.
- RingBuffers.EveryInterleaving: each atomic load or store is one sequentially consistent step; clear and peek, which a second thread may not call safely, are not modelled.
- Null pointers are modelled only where the source returns something for them (the BCH decoder); elsewhere a call has its buffers.
- Channel estimation, equalisation, synchronisation, audio and video, hardware access, applications and user interfaces: numerical or input/output code without an exact specification to prove.
