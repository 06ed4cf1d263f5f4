# Channel coding and framing of gr-satellites, verified in Dafny

A model of the coding and framing layer of gr-satellites, and proofs of what it is for. `dafny verify dfyconfig.toml`
checks the whole project.

Code that changes state step by step is modelled by methods and classes that do the same steps in the same order, on
arrays, fields and sequences; what it should achieve is stated by functions and predicates, and the laws about these are
lemmas. The parts are:

- **Generic Viterbi codec** (`Viterbi`, `ViterbiTrellis`, `ViterbiCodec`, on the theory in `Trellis`). The decoder is a
  maximum-likelihood decoder for every constraint length and polynomial list, and it inverts the encoder.
- **Reed-Solomon codec** (`GaloisField`, `Words`, `PowerSums`, `RsInit`, `Locators`, `RsEncode`, `ErrorLocation`,
  `BerlekampMassey`, `ChienForney`, `Interpolation`, `RsErrors`, `RsOutcome`, `RsDecode`, `RsInterleave`,
  `RsParameters`). The field is built from the tables that the code builds; distributivity comes from the linearity of the
  shift step. Berlekamp-Massey, Chien search and Forney's formula are proved to correct every pattern of at most nroots/2
  symbol errors, through the interleaving blocks as well; for all other words it is proved when the result is a codeword.
- **Packed Viterbi decoder of constraint length 7** (`PackedTrellis`, `PackedConvolution`, `PackedViterbi`,
  `FreeDistance`, `PackedCodec`), the code of section 3 of CCSDS 131.0-B-2. What is sent is stated tap by tap. Eight-bit
  metrics are exact while some message is close enough; the code has free distance ten, so that any four wrong bits in a
  block are corrected.
- **Fixed-length packet extraction** (`PacketExtraction`): a ring buffer that agrees with slices of the whole stream,
  and runs that publish exactly what the tags call for.
- **CRC** (`CrcTheory`, `Crc`, `CrcBlocks`, `PolynomialDivision`, `CrcLaws`): tables and byte-wise loop against the
  bit-serial register, the register as remainder of a polynomial division, what each parameter does to the checksum, the
  residue of a message with its own checksum, burst detection, append and check.
- **HDLC** (`HdlcTheory`, `Hdlc`, `HdlcLaws`): framing as in section 5.2 of RFC 1662, from any receiver state, with the
  frame check sequence of its appendix C.
- **Repeat-accumulate code** (`RaLfsr`, `RaMasks`, `RaCodec`, on `Divisibility`, `Periods` and `PrimitivePolynomials`):
  termination, inverse and coverage of the register for every mask of the table, and the encoder.
- **Telemetry transfer frames** (`TmTheory`, `TmFrames`): segmentation, first header pointer, reconstruction.
- **Carrier sense gate** (`Csma`).

Conventions:

- Machine words are natural numbers; where width matters the truncation is written out (`Byte`, `Word`, `Low`). `Xor`,
  `And` and `Or` are recursive functions on naturals.
- A parameter `ghost f: Field` names the field that the tables of a Reed-Solomon control block represent. `Field` holds the
  parameters for which x is primitive. `InitRs` asks its caller that parameters which it would accept have x primitive and
  prim coprime to nn: the code checks neither (`AcceptedButNotPrimitive`), and without the latter its search for iprim does
  not end (`AcceptedButSearchIsEndless`). The encoder needs at least one parity symbol; with none it writes past its
  register.
- Sixteen-bit words appear as bit-vectors only where powers of x are computed (`Periods`, `HdlcLaws`).
- The decoder's answer 0 does not mean that the word is a codeword (`SilentFailure`, `MissedErrors`); what it and the other
  answers mean is stated by `CodewordIffComplexity` and `SmallCountIffReachable`.
- Message ports, tags and metadata become arguments and results; a message that is dropped is `None`,
  and an exception that leaves a handler is a result `ok` that is false.
- Where the code and a standard differ the code is followed: the space packet length field holds the whole payload length,
  the pointer for "no packet starts here" is 0x3ff, and a reflected CRC takes its initial value in register order.
- In `ViterbiCodec.Decode` the length of the final substring wraps around when fewer bits than the flush have been decoded,
  so that nothing is removed; `DropFlush` does the same.

## Model

| member | source | states |
|---|---|---|
| ViterbiCodec.ReverseBits | lib/viterbi/viterbi.cc:42-51 | bit i of the result is bit numBits - 1 - i of the input, and the result fits numBits bits |
| ViterbiCodec.TapParity | lib/viterbi/viterbi.cc:106-112 | the loop over the reversed polynomial yields the parity of the register bits that the polynomial taps |
| ViterbiCodec.ViterbiCodec.InitializeOutputs | lib/viterbi/viterbi.cc:99-116 | the output table holds, for every register, one parity bit per polynomial |
| ViterbiCodec.ViterbiCodec.Encode | lib/viterbi/viterbi.cc:76-97 | the encoding is the codeword of the message followed by constraint - 1 zeros, walked from state 0 |
| Viterbi.EncoderConvolves | lib/viterbi/viterbi.cc:66-97 | symbol t of a codeword holds, for every polynomial, entry t of the GF(2) convolution of inputs and polynomial |
| ViterbiTrellis.FlattenedAt | lib/viterbi/viterbi.cc:78-97 | in the string of symbols of n characters, character j of symbol t is at place n t + j |
| Viterbi.HammingCountsPlaces | lib/viterbi/viterbi.cc:18-26 | the distance of two strings is the number of places where they differ |
| Viterbi.SymbolsSpellReceived | lib/viterbi/viterbi.cc:176-183 | the symbols decoded are the characters received, in order, followed by zeros, fewer than a symbol has |
| Viterbi.EncoderIsInjective | lib/viterbi/viterbi.cc:53-97 | equal codewords come from messages that agree except possibly in the last constraint - 1 inputs (a nonzero polynomial has a lowest tap) |
| Trellis.SurvivorCost | lib/viterbi/viterbi.cc:129-167 | the survivor of a state with a finite metric is a path that costs exactly that metric |
| Trellis.SurvivorBest | lib/viterbi/viterbi.cc:129-167 | no path into a state costs less than its metric, and none of equal cost precedes the survivor in the tie-break order |
| Trellis.TracebackIsBest | lib/viterbi/viterbi.cc:187-195 | tracing back from the first state of least metric yields the best of all paths |
| Trellis.BestIsUnique | lib/viterbi/viterbi.cc:146-150 | cost and tie-break order leave only one best path |
| Trellis.ExtensionStaysBelow | lib/viterbi/viterbi.cc:137-144 | extending a finite metric stays below the value that stands for unreachable, so the addition cannot reach it |
| ViterbiTrellis.MessageIsPath | lib/viterbi/viterbi.cc:129-167 | a message walks a trellis path from state 0 whose cost is the Hamming distance of its codeword to the received symbols |
| ViterbiTrellis.PathIsMessage | lib/viterbi/viterbi.cc:187-195 | every trellis path from state 0 is the walk of the inputs read off its states |
| ViterbiTrellis.DistancesAreBounded | lib/viterbi/viterbi.cc:172-175 | no distance reaches the int maximum while the received string is shorter than it |
| ViterbiTrellis.ChosenIsUnique | lib/viterbi/viterbi.cc:169-199 | exactly one message is the maximum-likelihood choice with the decoder's tie-breaks |
| ViterbiTrellis.EncodingIsInverted | lib/viterbi/viterbi.cc:169-199 | whatever message is chosen for an undisturbed encoding, without its flush it is the message encoded |
| ViterbiCodec.ViterbiCodec.PathMetric | lib/viterbi/viterbi.cc:129-151 | metric and predecessor of a state are those of the add-compare-select step, the smaller predecessor winning ties |
| ViterbiCodec.ViterbiCodec.UpdatePathMetrics | lib/viterbi/viterbi.cc:153-167 | all metrics advance by one symbol and a column of predecessors is appended |
| ViterbiCodec.ViterbiCodec.MinElement | lib/viterbi/viterbi.cc:189-190 | the first position of the least metric |
| ViterbiCodec.ViterbiCodec.Traceback | lib/viterbi/viterbi.cc:187-195 | the characters are the inputs along the survivor of the given state |
| ViterbiCodec.ViterbiCodec.Decode | lib/viterbi/viterbi.cc:169-199 | for every received string shorter than the int maximum the result is the maximum-likelihood message (zero-padded to whole symbols, ties as in the code) without its last constraint - 1 inputs; where fewer are decoded nothing is removed |
| ViterbiCodec.DecodeOfEncode | lib/viterbi/viterbi.cc:76-199 | decoding the encoding of any bit string returns it, for every constraint and polynomial list that the constructor accepts |
| GaloisField.AlphaDistinct | lib/libfec/init_rs.h:50-67 | below nn no two powers of x are equal if x is primitive |
| GaloisField.LogExists | lib/libfec/init_rs.h:50-67 | every nonzero symbol is a power of x (counting argument) |
| GaloisField.MulDistributes | lib/libfec/init_rs.h:50-67 | multiplication by logarithms distributes over exclusive or |
| GaloisField.MulAssociates | lib/libfec/init_rs.h:50-67 | multiplication by logarithms is associative |
| RsInit.ModNN | lib/libfec/rs-common.h:20-27 | the folding loop terminates and yields the remainder modulo nn |
| RsInit.BuildTables | lib/libfec/init_rs.h:48-67 | alpha_to holds the powers of x, index_of the last exponent that yields a symbol, and the closing test is whether x^nn is 1 |
| RsInit.InverseIffPrimitive | lib/libfec/init_rs.h:48-67 | accepted tables invert each other if and only if x is primitive |
| RsInit.AcceptedButNotPrimitive | lib/libfec/init_rs.h:60-67 | a polynomial (x^4+x^3+x^2+x+1) that the test accepts although x is not primitive |
| RsInit.TableProduct | lib/libfec/init_rs.h:48-59 | adding an exponent to a logarithm modulo nn multiplies by a power of x |
| RsInit.TableRoundTrip | lib/libfec/init_rs.h:48-59 | symbol to logarithm and back is the identity, with nn standing for the logarithm of zero |
| Divisibility.ShortIffCoprime | lib/libfec/init_rs.h:82-84 | some multiple of nn is one short of a multiple of prim if and only if the two have no common divisor above one (Euclid's algorithm) |
| RsInit.SearchEndsIffCoprime | lib/libfec/init_rs.h:82-84 | the search for iprim meets a number that prim divides if and only if prim and nn have no common divisor |
| RsInit.FindIprim | lib/libfec/init_rs.h:82-85 | for prim and nn without common divisor the search for iprim terminates and yields the inverse of prim modulo nn |
| RsParameters.CcsdsIsPrimitive | lib/libfec/fixed.h:1-4 | x is primitive modulo the field polynomial of the CCSDS code |
| RsParameters.CcsdsIsAccepted | lib/libfec/fixed.h:24-33 | the (255,223) parameters pass the tests of init_rs, at every shortening, and meet what the codec needs; IPRIM is the inverse of PRIM |
| RsParameters.AcceptedButSearchIsEndless | lib/libfec/init_rs.h:82-84 | with prim 3 in the same field all tests pass and no number that the search goes through is divisible by 3 |
| Periods.SquareIs | lib/libfec/init_rs.h:50-59 | squaring a word modulo the field polynomial turns x^k into x^(2k) |
| Periods.Climb | lib/libfec/init_rs.h:50-59 | square-and-multiply along the bits of k yields x^k |
| Periods.PrimitiveByFactors | lib/libfec/init_rs.h:60-67 | x is primitive if x^nn is one and no power is one whose exponent lacks a single prime factor of nn |
| RsInit.MulRootEval | lib/libfec/init_rs.h:91-101 | multiplying by y + r multiplies every value by y + r |
| RsInit.GeneratorIsMonic | lib/libfec/init_rs.h:87-102 | the generator polynomial is monic over the field with nonzero constant term |
| RsInit.GeneratorRoots | lib/libfec/init_rs.h:87-102 | its roots are exactly alpha^((fcr+i)*prim) for i below nroots |
| RsInit.BuildGenpoly | lib/libfec/init_rs.h:87-105 | the in-place loop computes that polynomial, constant coefficient first, and then its logarithms |
| RsInit.InitRs | lib/libfec/init_rs.h:12-107 | a control block is built exactly for 1 to 8 bits per symbol, fcr from 0 to nn, prim from 1 to nn, nroots and pad not negative, nn - nroots - pad at least 1, and powers of x that close; it holds the field's tables, iprim and the generator polynomial |
| Locators.MinimumDistance | lib/libfec/encode_rs.h:34-59 | a nonzero word of at most nn symbols with nroots consecutive zero syndromes has more than nroots nonzero symbols |
| Locators.GeneratorHasNoZeros | lib/libfec/encode_rs.h:49-50 | no coefficient of the generator is zero, which is why the encoder need not test for it |
| RsEncode.FeedEval | lib/libfec/encode_rs.h:40-58 | one step of the register multiplies it by y and adds d*y^nroots at every generator root |
| RsEncode.AddFeedback | lib/libfec/encode_rs.h:42-51 | the register positions above the first receive feedback times the generator's coefficients |
| RsEncode.ShiftDown | lib/libfec/encode_rs.h:53-53 | the register moves down one place |
| RsEncode.FeedRegister | lib/libfec/encode_rs.h:40-58 | the in-place step of the register is the polynomial step |
| RsEncode.EncodeRs | lib/libfec/encode_rs.h:34-59 | data followed by parity vanishes at all generator roots, and nothing but the parity changes in memory |
| RsInterleave.ParityIsUnique | lib/libfec/encode_rs.h:34-59 | codewords with equal data symbols are equal, so the encoder's parity is the only one |
| RsDecode.HornerStep | lib/libfec/decode_rs.h:92-100 | one Horner step by the tables, zero included |
| RsDecode.FormSyndromes | lib/libfec/decode_rs.h:88-107 | the syndromes are the values at the generator roots, on logarithms; the flag tells whether one is nonzero |
| RsErrors.SyndromesOfErrors | lib/libfec/decode_rs.h:88-107 | the syndromes of a word are the power sums of its errors' weights and locators |
| PowerSums.VanishingSums | lib/libfec/decode_rs.h:170-214 | power sums of distinct nonzero locators that vanish often enough force zero weights (Vandermonde) |
| PowerSums.LengthMustGrow | lib/libfec/decode_rs.h:198-199 | if a recurrence fails at term n, every recurrence for one more term is longer than n minus its length (Massey) |
| BerlekampMassey.Discrepancy | lib/libfec/decode_rs.h:177-184 | the discrepancy is the convolution of lambda and the syndromes at r - 1 |
| BerlekampMassey.Correct | lib/libfec/decode_rs.h:190-197 | t is lambda plus discrepancy times x times b |
| BerlekampMassey.ShiftB | lib/libfec/decode_rs.h:186-188 | b is multiplied by x; no nonzero coefficient is lost |
| BerlekampMassey.SameLength | lib/libfec/decode_rs.h:207-213 | the step without a change of length keeps the invariant |
| BerlekampMassey.LengthGrows | lib/libfec/decode_rs.h:198-206 | the step with a change of length keeps the invariant: lambda[0] is 1, degree at most el, it generates all terms so far and no shorter recurrence does |
| BerlekampMassey.Adjust | lib/libfec/decode_rs.h:189-213 | one nonzero discrepancy, in place, keeps the invariant |
| BerlekampMassey.Iterate | lib/libfec/decode_rs.h:167-214 | at exit lambda is a shortest recurrence, of length el, for all nroots syndromes |
| ErrorLocation.LocatorGenerates | lib/libfec/decode_rs.h:167-214 | the true error locator is a recurrence for the syndromes |
| ErrorLocation.ShortRecurrenceIsLocator | lib/libfec/decode_rs.h:167-214 | with at most nroots/2 errors a shortest recurrence has exactly the error locators as roots and their number as degree |
| ErrorLocation.ForneyFormula | lib/libfec/decode_rs.h:256-299 | numerator times locator is weight times denominator, with a denominator that is not zero |
| ChienForney.ToLogs | lib/libfec/decode_rs.h:216-222 | lambda goes to logarithms and its degree is found |
| ChienForney.ChienStep | lib/libfec/decode_rs.h:226-233 | after step i the registers sum to the value of lambda at alpha^i |
| ChienForney.ChienSearch | lib/libfec/decode_rs.h:223-247 | all roots alpha^r with r from 1 to nn, increasing, each with the position loc for which prim*(loc+1) is r modulo nn; the early break loses none |
| ChienForney.NoMoreRoots | lib/libfec/decode_rs.h:242-246 | as many roots as the degree are all roots |
| ChienForney.EvaluatorTerm | lib/libfec/decode_rs.h:261-268 | one coefficient of the evaluator is a convolution term |
| ChienForney.BuildEvaluator | lib/libfec/decode_rs.h:256-268 | omega is syndromes times lambda, cut off at the degree |
| ChienForney.Numerator | lib/libfec/decode_rs.h:275-279 | the value of omega at alpha^root |
| ChienForney.Denominator | lib/libfec/decode_rs.h:281-287 | the value of the formal derivative of lambda at alpha^root, from the odd coefficients alone |
| RsErrors.FixIsError | lib/libfec/decode_rs.h:274-299 | for a located position the formula yields the error symbol, for every fcr and prim |
| RsDecode.CorrectErrors | lib/libfec/decode_rs.h:274-300 | every located position inside the shortened block is corrected by the formula's value, all others stay |
| RsErrors.FewErrorsAreFound | lib/libfec/decode_rs.h:223-254 | with at most nroots/2 errors as many roots are found as there are errors, and the correction restores the codeword |
| RsErrors.NoErrors | lib/libfec/decode_rs.h:109-115 | if all syndromes vanish the only codeword within reach is the word itself |
| Interpolation.Solve | lib/libfec/decode_rs.h:273-299 | for different locators and as many values there are weights whose power sums are these values |
| Interpolation.RootsAreLocators | lib/libfec/decode_rs.h:215-254 | the roots of a shortest recurrence, if there are as many as it is long, are locators: with some nonzero weights its terms are their power sums |
| RsOutcome.ComplexityBelowDistance | lib/libfec/decode_rs.h:165-213 | no codeword is nearer to a word than the length of the shortest recurrences for its syndromes |
| RsOutcome.ChangesFew | lib/libfec/decode_rs.h:273-300 | the correction changes at most as many symbols as positions are located, and fewer if one of these lies in the padding |
| RsOutcome.CorrectedIsCodeword | lib/libfec/decode_rs.h:215-300 | as many positions as the shortest recurrence is long, none in the padding: the corrected word is a codeword |
| RsOutcome.CodewordIffComplexity | lib/libfec/decode_rs.h:88-307 | for a nonnegative answer the result is a codeword if and only if it equals the length of the shortest recurrences for the syndromes and no located position lies in the padding |
| RsOutcome.SmallCountIffReachable | lib/libfec/decode_rs.h:88-307 | a codeword with at most nroots/2 for an answer comes out if and only if some codeword is within nroots/2 of the word received |
| RsOutcome.CodewordIsNearest | lib/libfec/decode_rs.h:88-307 | a result that is a codeword is a nearest one |
| RsOutcome.SilentFailure | lib/libfec/decode_rs.h:190-254 | if the last nonzero syndrome lies in the first half, 0 is returned for a word that is not a codeword |
| RsParameters.MissedErrors | lib/libfec/decode_rs.h:88-307 | for two parity symbols over four elements the word 0 1 3 is reported free of errors and is not a codeword |
| RsDecode.Decode | lib/libfec/decode_rs.h:88-307 | the steps of the decoder have the outcome that shortest recurrence, root search and correction formula prescribe |
| RsDecode.DecodeRs | lib/libfec/decode_rs.h:88-307 | every word within nroots/2 symbol errors of a codeword becomes that codeword and the number of errors is returned; at most as many symbols change as are returned, none for -1 and 0; the result is a codeword exactly if the answer is the linear complexity of the syndromes and no position is in the padding, and then a nearest one; the positions reported are those located |
| RsInterleave.PathsDetermine | lib/encode_rs_impl.cc:230-241 | the interleaved paths determine the sequence |
| RsInterleave.LoadPath | lib/decode_rs_impl.cc:145-148 | the buffer holds leading zeros and then path j |
| RsInterleave.StorePath | lib/encode_rs_impl.cc:238-240 | path j of the output is written and the other paths stay |
| RsInterleave.EncoderBlock.HandleMessage | lib/encode_rs_impl.cc:203-247 | sizes are refused exactly as coded; otherwise the frame starts with the message and every path is a codeword |
| RsInterleave.DecoderBlock.HandleMessage | lib/decode_rs_impl.cc:117-172 | wrong sizes and frames with a path that is given up are refused; otherwise the data symbols of the decoded blocks and the sum of the answers are published; a frame with at most nroots/2 wrong symbols on every path yields its data and the total count |
| RsInterleave.TrustedIffReachable | lib/decode_rs_impl.cc:142-171 | a frame of codewords within nroots/2 symbols on every path exists if and only if every path's answer is at most nroots/2 and its block is a codeword with the leading zeros in place |
| RsInterleave.NoErrorsReported | lib/decode_rs_impl.cc:142-171 | with rs_errors 0 the data symbols received are published, also where a path is not a codeword |
| RsInterleave.WrongOnAllPaths | lib/decode_rs_impl.cc:119-159 | the errors added up over the paths are the places where received and sent frame differ |
| RsInterleave.RestoredIsMessage | lib/decode_rs_impl.cc:117-172 | what is restored from an encoded frame is the message, with the number of wrong symbols |
| RsInterleave.RoundTrip | lib/decode_rs_impl.cc:117-172 | encoding, any noise of at most nroots/2 symbols per path, decoding: the message and the number of changed symbols |
| PackedViterbi.PartabInit | lib/viterbi.c:67-84 | the table holds the parity of every byte |
| PackedViterbi.Parity | lib/viterbi.c:97-104 | folding a 32-bit word to a byte keeps its parity |
| PackedViterbi.SetPolynomials | lib/viterbi.c:126-138 | the branch tables hold what the encoder sends from states 0 to 31 on input 0 |
| PackedTrellis.ButterflyCosts | lib/viterbi.c:202-217 | because both polynomials tap the oldest and newest bit, the four branch costs of a butterfly are m, 2-m, 2-m, m |
| PackedTrellis.Spread | lib/viterbi.c:202-217 | after six steps no two metrics differ by more than twelve |
| PackedTrellis.MetricsFit | lib/viterbi.c:206-215 | while some message is within 241 of the block every metric is at most 253, so eight bits suffice for every sum |
| PackedTrellis.SurvivorIsChosen | lib/viterbi.c:159-190 | if a message into the end state is within 62 then the survivor is the closest one and the metric its distance |
| PackedTrellis.SurvivorIsChosenOfAll | lib/viterbi.c:159-190 | whatever was received, the survivor is the closest message from any start state, other start states than the known one having a handicap of 63, and the metric is its distance with handicap |
| PackedTrellis.SmallMetricIsDistance | lib/viterbi.c:167-167 | a metric below 63 belongs to a message from the known start state |
| PackedTrellis.ChosenIsUnique | lib/viterbi.c:159-190 | closest message and tie-breaks determine one message |
| PackedTrellis.TraceSpells | lib/viterbi.c:174-187 | from the sixth step on the states of the survivor spell the last six decoded bits |
| PackedViterbi.V27.constructor | lib/viterbi.c:141-156 | a new decoder is initialised for state 0 |
| PackedViterbi.V27.Init | lib/viterbi.c:107-124 | metric 0 for the start state, 63 for the others |
| PackedViterbi.Record | lib/viterbi.c:210-216 | one decision bit is or-ed in without touching the others |
| PackedViterbi.V27.Butterfly | lib/viterbi.c:202-217 | with metrics up to 253 the eight-bit butterfly is two exact add-compare-select steps, first predecessor winning ties |
| PackedViterbi.V27.Step | lib/viterbi.c:237-287 | one data bit advances all metrics and records all decisions exactly |
| PackedViterbi.V27.Update | lib/viterbi.c:224-291 | metrics and decisions are those of the whole block; one call per block |
| PackedViterbi.V27.Chainback | lib/viterbi.c:159-190 | the bytes are the survivor's bits packed most significant first, the value returned is the end state's metric, and bytes outside stay |
| PackedCodec.DecodeBlock | lib/u482c_decode_impl.cc:140-142 | reset, update and chainback from state 0 return the closest message with handicap, and its distance, whenever any message is within 241; within 62 it is the closest message from state 0, without handicap; a result below 63 is such a distance |
| PackedConvolution.StateIsPast | lib/viterbi.c:304-304 | the state is made of the last six inputs, the newest one lowest, with zeros before the start |
| PackedCodec.CodewordConvolves | lib/viterbi.c:304-306 | for every input sequence symbol t sums inputs t, t - 1, t - 2, t - 3 and t - 6, and, inverted, t, t - 2, t - 3, t - 5 and t - 6, with zeros before the start |
| PackedCodec.EncodingConvolves | lib/viterbi.c:301-308 | symbol t of the encoding of packed data is made of these sums of data bits, the bits of a byte taken from the top, with zeros before and after the data |
| PackedCodec.ZerosAreSent | lib/viterbi.c:293-311 | data of zeros are sent as bytes 0x55 |
| PackedCodec.Encode | lib/viterbi.c:293-311 | exactly 2 (framebits / 8) + 2 bytes are written, each with the sums for four inputs, first output of the first one on top |
| PackedCodec.EncodeStep | lib/viterbi.c:302-306 | one step of the encoder's two shift registers: the outputs are the sums of bits 0, 1, 2, 3, 6 and, inverted, 0, 2, 3, 5, 6 of the new register |
| FreeDistance.DistanceIsWeight | lib/viterbi.c:293-311 | the code is linear: codewords differ as often as the difference of the messages flips outputs |
| FreeDistance.DifferentMessagesAreFar | lib/viterbi.c:45-45 | codewords of different messages from state 0 to state 0 differ in at least ten bits |
| FreeDistance.FourErrors | lib/viterbi.c:159-190 | with at most four wrong bits the message sent is the closest one |
| PackedCodec.Transfer | lib/viterbi.c:159-311 | encode, at most four wrong bits anywhere in what is read, decode: the data and the number of wrong bits |
| PacketExtraction.RingAdvances | lib/fixedlen_to_pdu_impl.cc:171-208 | update_history leaves the last packet_len - 1 items of the longer stream in the ring |
| PacketExtraction.FixedLenToPdu.Assemble | lib/fixedlen_to_pdu_impl.cc:98-134 | in all three cases the packet is put together as the stream has it |
| PacketExtraction.FixedLenToPdu.PackPacket | lib/fixedlen_to_pdu_impl.cc:159-169 | in-place packing of eight items into one, most significant bit first |
| PacketExtraction.BitOfPacked | lib/fixedlen_to_pdu_impl.cc:159-169 | bit 7 - i of byte j is the lowest bit of item 8 j + i |
| PacketExtraction.TagsDecide | lib/fixedlen_to_pdu_impl.cc:67-94 | a length tag from 0 to packet_len is the length of its packet; without one, or with a negative or larger one, packet_len is |
| PacketExtraction.FixedLenToPdu.UpdateHistory | lib/fixedlen_to_pdu_impl.cc:171-208 | the ring invariant holds for the stream with the input appended |
| PacketExtraction.FixedLenToPdu.Work | lib/fixedlen_to_pdu_impl.cc:59-157 | published are, in order, exactly the packets whose last item has arrived, as the stream has them and as long as their tags say; the others wait |
| PacketExtraction.WaitingReachable | lib/fixedlen_to_pdu_impl.cc:148-153 | a waiting packet never needs an item that the ring loses |
| PacketExtraction.EveryPacketOnce | lib/fixedlen_to_pdu_impl.cc:96-153 | over every run each tag's packet is published exactly once or still waiting, and published if and only if its last item was read |
| PacketExtraction.PublishedIsWhatHasEnded | lib/fixedlen_to_pdu_impl.cc:59-157 | which packets have been published does not depend on how the stream is split into calls |
| PacketExtraction.PublishedInOrder | lib/fixedlen_to_pdu_impl.cc:59-157 | packets are published one call after the other and within a call in the order of their tags; the others wait in that order |
| PacketExtraction.PublishedByTags | lib/fixedlen_to_pdu_impl.cc:59-157 | published over a whole run are, each one once, the packets that the tags call for and whose last item has been read: from offset o on, L items if the tag says 0 <= L <= packet_len and else packet_len |
| PacketExtraction.Run | lib/fixedlen_to_pdu_impl.cc:59-157 | a whole run of calls publishes exactly these, each one being what the whole stream has at its place |
| PolynomialDivision.ShiftDivides | lib/crc.cc:60-64 | one shift doubles and takes x^n plus the polynomial away if a bit falls out |
| PolynomialDivision.RegisterIsRemainder | lib/crc.cc:75-99 | the register is the remainder of the data polynomial times x^n, with the initial register added to its first n bits, on division by x^n plus the polynomial |
| PolynomialDivision.RemainderIsUnique | lib/crc.cc:75-99 | there is only one remainder |
| CrcTheory.RegisterIsLinear | lib/crc.cc:75-99 | the difference of two registers is the register of the difference of the inputs |
| CrcTheory.FeedAtOnce | lib/crc.cc:86-90 | feeding k bits one by one is adding them at the top and shifting k times |
| CrcTheory.MirrorsShift | lib/crc.cc:45-49 | the least-significant-first step is the mirror image of the most-significant-first step |
| CrcTheory.BurstIsSeen | lib/crc.cc:75-99 | with an odd polynomial a burst no longer than the register changes the register |
| Crc.UnmaskedStep | lib/crc.cc:60-64 | the unmasked 64-bit step of the table construction is the register step in the low bits |
| Crc.EntryIsLinear | lib/crc.cc:65-67 | table entries of sums are sums of table entries |
| Crc.Fill | lib/crc.cc:56-69 | doubling fills all 256 entries with eight register steps each |
| Crc.FillReflected | lib/crc.cc:40-54 | the same for the reflected table, from the top down |
| Crc.Reflect | lib/crc.cc:101-110 | the word's low bits in reverse order |
| Crc.ByteStep | lib/crc.cc:87-89 | one table lookup is eight steps of the register |
| Crc.MirrorByteStep | lib/crc.cc:81-83 | one reflected lookup is eight steps of the mirrored register on the byte's bits in reverse order |
| Crc.Calculator.constructor | lib/crc.cc:21-71 | the calculator holds the table that its parameters prescribe |
| Crc.Calculator.Compute | lib/crc.cc:75-99 | for 8 to 64 bits, any polynomial, initial value, final xor and both flags the result is the bit-serial checksum; a reflected initial value is taken in register order |
| CrcLaws.MirrorBits | lib/crc.cc:101-110 | bit i of the mirror image of n bits is bit n - 1 - i |
| CrcLaws.BitOfData | lib/crc.cc:75-91 | bit 8 j + i of the data is bit i of byte j, counted from the bottom when the input is reflected and else from the top |
| CrcLaws.FinalXor | lib/crc.cc:97-97 | the checksum is the one with final xor 0, xored with the low bits of the final xor |
| CrcLaws.NoData | lib/crc.cc:77-98 | the checksum of no data is the masked initial value, mirrored exactly when the two flags differ, xored with the masked final xor |
| CrcLaws.ResultReflection | lib/crc.cc:93-95 | flipping the flag for the result mirrors the checksum apart from the final xor |
| CrcLaws.ChecksumIsRemainder | lib/crc.cc:75-99 | for all parameters the checksum without final xor and reflection is the remainder of the data polynomial |
| CrcLaws.BitsOfNumber | lib/crc_append_impl.cc:89-101 | a checksum appended in the byte order that goes with the bit order is processed as its n bits in one run |
| CrcLaws.OwnChecksum | lib/crc_append_impl.cc:89-101 | reflected on both sides or on none, a message followed by its own checksum has a checksum that does not depend on the message |
| CrcLaws.OnlyOwnChecksum | lib/crc_append_impl.cc:89-101 | with an odd polynomial no other value behind a message leaves that checksum |
| Crc.BurstIsDetected | lib/crc.cc:75-99 | with an odd polynomial, messages that differ only within as many consecutive bits as the checksum has get different checksums |
| CrcLaws.ByteOfNumber | lib/crc_append_impl.cc:92-101 | byte j of an appended number is its digit j to the base 256, counted from the low or from the high end |
| CrcBlocks.AppendNumber | lib/crc_append_impl.cc:91-101 | the bytes of a number in either order |
| CrcBlocks.ValueOfNumber | lib/crc_check_impl.cc:95-107 | reading such bytes back in the same order yields the number |
| CrcBlocks.CrcAppend.HandleMessage | lib/crc_append_impl.cc:79-105 | short messages are dropped, others get the checksum of what follows the header |
| CrcBlocks.ReadNumber | lib/crc_check_impl.cc:95-107 | the number spelled by the last bytes |
| CrcBlocks.CrcCheck.HandleMessage | lib/crc_check_impl.cc:84-122 | short messages are dropped; the port is ok if and only if the number at the end is the checksum |
| CrcBlocks.RoundTrip | lib/crc_check_impl.cc:84-122 | every output of the append block is accepted and the message comes back, for both byte orders and any header |
| HdlcLaws.FcsIsRemainder | python/hdlc_deframer.py:33-33 | the frame check sequence is the complement of the mirrored remainder of the data, least significant bits first and with the first sixteen bits complemented, on division by x^16 + x^12 + x^5 + 1 |
| HdlcLaws.Residue | python/hdlc_framer.py:46-48 | a payload followed by its frame check sequence, low byte first, has the checksum 0x0F47 |
| HdlcLaws.OkIffResidue | python/hdlc_deframer.py:35-39 | the deframer accepts a frame if and only if it has more than two bytes and the checksum of all of it is 0x0F47 |
| HdlcLaws.ShortRunsAreUnchanged | python/hdlc_framer.py:50-65 | data without five ones in a row are sent as they are |
| HdlcLaws.FiveOnesAreStuffed | python/hdlc_framer.py:61-64 | after a zero, or a run already stuffed, five ones are followed by a zero |
| HdlcLaws.DequeKeepsLast | python/hdlc_deframer.py:51-51 | of stuffed data of any length the deframer remembers exactly the last 8 (max_length + 2) + 7 bits |
| HdlcLaws.PaddedInFront | python/hdlc_deframer.py:79-81 | bits that do not fill whole bytes get fewer than eight zeros in front |
| HdlcLaws.LongRunsReset | python/hdlc_deframer.py:73-83 | every run of more than five ones ends the frame and resets the deframer, from any state |
| HdlcLaws.NoFrameBeforeFlag | python/hdlc_deframer.py:76-84 | with no more than seven bits collected a flag publishes nothing |
| HdlcTheory.StuffedHasNoSixOnes | python/hdlc_framer.py:50-65 | stuffed data never hold six ones in a row |
| HdlcTheory.Destuffing | python/hdlc_deframer.py:65-93 | the deframer takes the stuffing out again and publishes nothing meanwhile |
| HdlcTheory.FlagCloses | python/hdlc_deframer.py:73-90 | a flag closes the frame: the bits before it are judged and the deframer is reset |
| HdlcTheory.FlagResets | python/hdlc_deframer.py:65-93 | one flag resets the deframer from any state |
| HdlcTheory.NothingIsDropped | python/hdlc_deframer.py:51-51 | the bounded deque never drops a bit of a frame of permitted length |
| HdlcTheory.PackOfData | python/hdlc_deframer.py:20-28 | packing undoes the transmission order |
| HdlcTheory.FrameIsOk | python/hdlc_deframer.py:35-39 | the framer's checksum is the one the deframer accepts |
| HdlcTheory.OneFrame | python/hdlc_deframer.py:62-95 | one payload of 1 to max_length bytes comes through, and the deframer is ready again |
| HdlcTheory.AllFrames | python/hdlc_deframer.py:62-95 | all payloads come through, in order, once each |
| HdlcTheory.FramesFromAnyState | python/hdlc_deframer.py:62-95 | from any state exactly the payloads are published after the first flag |
| HdlcTheory.Chunks | python/hdlc_deframer.py:62-95 | cutting the input into calls changes neither state nor publications |
| Hdlc.Framer.HandleMsg | python/hdlc_framer.py:38-70 | flags, stuffed bits of payload and checksum, flags |
| Hdlc.Framer.StuffByte | python/hdlc_framer.py:52-65 | the eight bits of a byte, least significant first, stuffed |
| Hdlc.PackBits | python/hdlc_deframer.py:20-28 | eight bits to a byte, least significant first |
| Hdlc.Deframer.FcsIsOk | python/hdlc_deframer.py:35-39 | the last two bytes are the checksum of the others, low byte first |
| Hdlc.Deframer.CloseFrame | python/hdlc_deframer.py:73-90 | flag bits off, zeros on the left, check, publish |
| Hdlc.Deframer.Work | python/hdlc_deframer.py:62-95 | state and publications are those of the bit machine |
| Hdlc.Loopback | python/hdlc_deframer.py:62-95 | frames of all payloads into a deframer in any state: the payloads are a suffix of what is published, and all of it from the reset state |
| RaLfsr.UpAfterDown | lib/radecoder/ra_lfsr.c:31-35 | a raw step back undoes a raw step |
| RaLfsr.DownAfterUp | lib/radecoder/ra_lfsr.c:49-53 | a raw step undoes a raw step back, and zero is never reached |
| RaLfsr.Returns | lib/radecoder/ra_lfsr.c:30-35 | the raw step permutes a finite set, so every state comes again |
| RaLfsr.Coverage | lib/radecoder/ra_lfsr.c:26-42 | if the raw step is a single cycle, data_length calls visit every state up to data_length once and end at the start |
| RaMasks.MasksHaveTopBit | lib/radecoder/ra_config.c:15-26 | every mask of the table has the top bit its row stands for |
| RaMasks.MaskIsPrimitive | lib/radecoder/ra_config.c:15-26 | for each of the 36 masks x is primitive modulo the polynomial of the mask |
| RaMasks.UpIsShift | lib/radecoder/ra_lfsr.c:49-53 | a raw step back is multiplication by x modulo the polynomial of the mask |
| RaMasks.PrimitiveIsSingleCycle | lib/radecoder/ra_lfsr.c:30-35 | if x is primitive the raw step runs through all nonzero states in a single cycle |
| RaMasks.TableIsSingleCycle | lib/radecoder/ra_config.c:15-26 | every register of the table runs through all its states |
| RaCodec.StartInPacket | lib/radecoder/ra_lfsr.c:16-24 | the start state of every pass is within the packet length |
| RaCodec.NextInjective | lib/radecoder/ra_lfsr.c:26-42 | different states are never followed by the same state |
| RaCodec.OrderIsRound | lib/radecoder/ra_encoder.c:35-42 | with the mask that the table has for it each pass visits every packet word exactly once and ends on word passno |
| RaCodec.RaContext.LengthInit | lib/radecoder/ra_config.c:28-48 | code_length is data_length plus three times ceil(data_length/3); the register is the one that the packet length calls for, and the masks are the four of the table for that length |
| RaCodec.RaContext.LfsrInit | lib/radecoder/ra_lfsr.c:16-24 | mask of the pass, offset data_length / 2, 4, 8 or 16, and start state one plus pass number plus offset |
| RaCodec.RaContext.LfsrNext | lib/radecoder/ra_lfsr.c:26-42 | the skip loop terminates on the next state that is not too large; the position is the state less one and the offset, modulo the packet length |
| RaCodec.RaContext.LfsrPrev | lib/radecoder/ra_lfsr.c:44-60 | the backward skip loop terminates and undoes a call of next |
| RaCodec.RotatedBits | lib/radecoder/ra_encoder.c:36-36 | bit i of the rotated word is bit (i + 1) mod 16 |
| RaCodec.AccumulatedBits | lib/radecoder/ra_encoder.c:35-39 | bit i of the word accumulated over n positions is the sum modulo 2, over k below n, of bit (i + n - 1 - k) mod 16 of the packet word at the k-th of them; words stay below 65536 |
| RaCodec.RaContext.EncoderNext | lib/radecoder/ra_encoder.c:26-49 | the word accumulated, with these bits, up to the next one or three positions, or to the end of the pass; the next pass begins exactly there |
| RaCodec.RaContext.Encoder | lib/radecoder/ra_encoder.c:51-56 | data_length words after one more position each and three times ceil(data_length/3) words after three more positions each, code_length in all, with the bits that the closed form gives; then the encoder is in its initial state |
| RaCodec.RaContext.Sweep | lib/radecoder/ra_decoder_gen.c:55-108 | the backward sweep visits the forward positions in exactly the reverse order and restores the register |
| TmTheory.PointerIsFirstStart | python/ccsds/telemetry_primaryheader_adder.py:75-94 | the pointer of a frame is the offset of the first packet start in it, or 0x3ff if there is none |
| TmTheory.PointerTells | python/ccsds/telemetry_primaryheader_adder.py:75-94 | for frames of at most 1023 bytes the pointer is 0x3ff if and only if no packet starts in the frame |
| TmTheory.PointerIsAmbiguous | python/ccsds/telemetry_primaryheader_adder.py:80-83 | for larger frames a start at offset 1023 gives the same pointer |
| TmFrames.HeaderFitsIff | python/ccsds/telemetry.py:20-30 | the header of a frame can be built if and only if the fixed fields fit and the pointer is below 2048 |
| TmFrames.HeadersFitUpTo2048 | python/ccsds/telemetry_primaryheader_adder.py:75-94 | all frames of all packet lists have headers that can be built if and only if the frame size is at most 2048 |
| TmTheory.PacketsOfStream | python/ccsds/telemetry_packet_reconstruction.py:58-69 | packets whose header holds the payload length are found again in their stream |
| TmTheory.PacketsOfPrefix | python/ccsds/telemetry_packet_reconstruction.py:58-69 | from a stream that breaks off exactly the packets come back that end before the break |
| TmTheory.SplitAppend | python/ccsds/telemetry_packet_reconstruction.py:58-69 | reassembly can be done piece by piece |
| TmFrames.BuiltHeader | python/ccsds/telemetry.py:20-30 | each of the eleven fields of the header is read back from its own bits |
| TmFrames.PrimaryHeaderAdder.Fill | python/ccsds/telemetry_primaryheader_adder.py:77-94 | for every frame size one round of the loop consumes at least one byte and sends a full frame with its pointer, or fails because the header cannot be built |
| TmFrames.PrimaryHeaderAdder.HandleMsg | python/ccsds/telemetry_primaryheader_adder.py:68-94 | over every run frame k carries bytes k*size to (k+1)*size of the packets and the pointer of the first start in them; building fails if and only if some whole frame has a header that cannot be built |
| TmFrames.PacketReconstruction.Absorb | python/ccsds/telemetry_packet_reconstruction.py:58-69 | one round of the loop consumes at least one byte and keeps the split of the stream |
| TmFrames.PacketReconstruction.HandleMsg | python/ccsds/telemetry_packet_reconstruction.py:38-69 | the payload joins the stream and the packets completed by it are published; other frames change nothing, and parsing fails exactly for frames of 6 to 9 bytes that announce a control field |
| TmFrames.Relay | python/ccsds/telemetry_packet_reconstruction.py:38-77 | packets through both blocks, for every frame size: published are, in order and unchanged, exactly those whose last byte lies in a frame that was sent, up to the first frame whose header cannot be built, if there is one |
| TmFrames.SpacePacketAdder.HandleMsg | python/ccsds/space_packet_primaryheader_adder.py:49-70 | version 0, type, secondary header flag, APID, sequence flags 3, and count or name are in their bits of the first four bytes; the length field holds the whole payload length, so the packet is one that reconstruction finds again |
| Csma.RemainingIsUnique | lib/packet_csma_impl.cc:76-99 | the number of items left of the packet in flight is well defined |
| Csma.PacketCsma.GeneralWork | lib/packet_csma_impl.cc:51-113 | as many items as possible without carrier; with carrier none between packets and, without priority, at most the rest of the packet in flight, but no fewer; the output is an exact prefix of the input, the remaining count is exact, the exception is never thrown, and while carrier is sensed no packet start is passed unless back-to-back packets have priority and one was in flight |
| Csma.PacketCsma.Run | lib/packet_csma_impl.cc:51-113 | over any sequence of carrier reports and calls; with carrier sensed throughout no more than the packet in flight passes |

## Left out

- Erasures and debugging code in the Reed-Solomon decoder: no caller passes erasures.
- The fixed (255,223) variants of the Reed-Solomon codec and the dual basis: they run the same loops with constant tables, and the tables themselves are not compared with a construction. mod255 is `ModNN` with mm = 8.
- The memory of struct rs: the control block is an immutable value here, since no function changes it after construction.
- RsInit.InitRs: parameters that the tests let through although x is not primitive or prim shares a factor with nn are excluded; the code then reads table entries that it never wrote, or searches without end.
- RsEncode.EncodeRs: a code without parity symbols, for which the code reads and moves memory outside its register.
- PackedCodec.DecodeBlock: when no message lies within 241 of the block nothing is promised about the data; only then may metrics wrap around.
- PackedViterbi.V27.Update: a second call for the same block is not modelled, because the first one leaves the decision pointer at the cache.
- Null pointers, malloc failure, freeing, and the lazy initialisation of static tables, which are built where they are needed.
- PacketExtraction.FixedLenToPdu.Assemble: items are numbers; that an item of several bytes moves as a whole, and the byte pointers that are always a multiple of the item pointers, are not modelled.
- Crc.Calculator.Compute: fewer than 8 or more than 64 bits, which the constructor refuses with an exception, are excluded by a precondition.
- Bursts that touch the checksum field itself, whose byte order depends on the block's parameters.
- A user-supplied checksum function for the HDLC deframer.
- The soft values of the repeat-accumulate decoder: only the order of its sweeps is modelled.
- TmFrames.PrimaryHeaderAdder.Fill: which frame sizes the coding parameters imply; a frame size of zero, with which the loop does not end; and calls after one that has failed.
- TmFrames.Relay: frames with an operational control field need another block between the two and are not relayed here.
- Csma.PacketCsma.GeneralWork: sleeping while nothing can be sent, and the item size.
- Golay, BCH and Mobitex codes: finite tables that enumeration settles.
- Floating-point signal processing, flowgraph assembly, bindings, submitters and file receivers.
- KISS, NRZI, scramblers and header blocks: they would only add easy members.
