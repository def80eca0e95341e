# Verified models of ZXing-C++ codecs

These modules model five parts of ZXing-C++ that turn data into symbols and back, and prove that the two
directions fit together.

* **Reed-Solomon codes** (`Bits` to `MinimumDistance`): the log/exp tables of GF(2^m), polynomials that are
  rewritten in place, the encoder with its cache of generators, and the decoder: syndromes, Euclid's algorithm on
  reused scratch polynomials, root search, Forney's formula and the final check. The central theorem is
  `DecoderTheorems.ErrorsCorrected`: up to half as many errors as there are check words are corrected, always.
  It is proved from the key equation: the line at which Euclid's algorithm stops divides every other solution, and
  a locator with distinct roots leaves only a constant factor. `StaticFields` shows that the program's own fields are
  fields: each primitive polynomial is checked by squaring alpha up to the divisors of its order.
* **Aztec Code** (`BitArray`, `Aztec...`): the high-level encoder as a dynamic program over mode states with pruning,
  bit stuffing, check words, the drawing of data spiral, mode message, bull's eye and reference grid, and the way
  back through extraction, correction, unstuffing and the latch/shift decoder.
  `AztecEncoder.ChoiceIsRight` says which size is chosen, `AztecGeometry` that data, patterns and grid tile the symbol.
  `AztecRoundTrip.SymbolRoundTrip` joins them: a drawn symbol, damaged within the capacity of its check words, reads
  back as its text.
* **Data Matrix** (`BitSource`, `GeneratorCoefficients`, `DM...`): the ECC 200 shift register with interleaved blocks,
  the separation and re-joining of blocks with the second try for old 144x144 symbols, the C40/Text and Base 256
  segment coders, with the end of a C40 or Text segment at the end of the message. `DMProgram.ProgramRoundTrip` holds
  of the program's own constants: all rows of FACTORS are shown to be generator polynomials, LOG and ALOG to be the
  tables of the field, and the symbol sizes of encoder and decoder to agree.
* **Text conversion of libzueci** (`Zueci...`): the UTF-8 automaton against the grammar of RFC 3629, the UTF-16 and
  UTF-32 converters, conversion in both directions and the two length pre-passes.
* **Run lengths** (`PatternRow`): the eight-pixels-at-a-time loop of `GetPatternRow` against its scalar loop and
  against the encoder of `ThresholdBinarizer`.

Classes and arrays model what the original updates in place; each method is proved against a function of its
inputs, and the theorems are about these functions. A field element, a symbol or a byte is a number; `Xor` on
numbers is defined bit by bit. Where the original throws, the models return an outcome. Where code and comments
differ, or the code falls short, the models follow the code:

* `IsBetterThanOrEqualTo` is said to compare states "under all possible circumstances".
  `AztecPruningGap.AlwaysBetterExactly` gives, for all modes and numbers of pending bytes, the exact margin by which a
  state must be shorter to be better before every text. `BetterIsAlwaysBetter` compares the program with it: for two
  modes and two numbers of pending bytes the comparison is right about all states if and only if two conditions hold.
  The dropped state must not be in DIGIT unless the kept one is in DIGIT or PUNCT, since a shift from DIGIT is a bit
  shorter than from other modes. And the dropped one must have at most 31 pending bytes, or the kept one at most 31 more
  than it: a longer run that fills up needs all its headers again, more than the 10 bits that the program reckons with.
  `BetterWithin` bounds the loss of one comparison by eleven bits, by seven under the second condition.
  `FullRunLoses` is a pair of states that loses eleven; `AztecPruningLoss.PruningLosesABit` is a run of the encoder
  that loses one. What the pruned lists keep all the same is proved in `AztecPruning`.
* `EncodeC40` loses characters. `BacktrackOneCharacter` returns the size of the character that it has just taken back,
  so that a second step back takes that many values off once more, however many the next character has.
  `DMC40RoundTrip.SegmentExactly` gives the exact condition under which a C40 or Text segment is read back, by the sizes
  of its last characters and the codewords that the symbol has to spare. It fails in three ways. With two values left
  over that do not fit, a last character of four values and another size before it, values of earlier characters are lost
  (`TwoCharactersLost`: of a Text segment "aaaaaaaa!a!" with the byte 0xC1 behind it, "!a" is). With one value left over
  and a last character of three, the same happens further back, or a value is misread. And with one value left over,
  one codeword to spare and a last byte from 128 on, the two codewords that ASCII needs for it follow without an unlatch
  and are read as values. `StopsWell` and `SingleValue` show that `HandleEOD` never meets its "unexpected case".
* The reference grid of an Aztec symbol is not always drawn in full: for 12 and 27 layers the loop stops before the
  outermost lines, which are one module from the border (`AztecGeometry.GridComplete`).
* The decoder's Forney step divides by the location once, whatever the generator base:
  `DecoderTheorems.ForneyCorrect` says when that is right.
* The punctuation table of the Aztec encoder has an apostrophe where the double quote belongs, so that a double
  quote is always sent as binary; the text round trip holds all the same.

`dafny verify dfyconfig.toml` checks everything.

## Model

| member | source | states |
|---|---|---|
| DecoderTheorems.ErrorsCorrected | core/src/ReedSolomonDecoder.cpp:105-148 | Any received message that differs from a codeword with n check words in at most n/2 (rounded down) places decodes to exactly that codeword; generator base 0 or 1, length below the field size. |
| ReedSolomonDecoders.ReedSolomonDecode | core/src/ReedSolomonDecoder.cpp:105-148 | Decoding in place, with reused scratch polynomials that may hold anything: outcome and message are the function Decode of the message alone, and every codeword within half the number of check words is restored. |
| DecoderTheorems.DecodeSound | core/src/ReedSolomonDecoder.cpp:105-148 | When decoding succeeds the message vanishes at all n generator roots and differs from what was received in at most n - n/2 places. |
| DecoderTheorems.DecodeThrows | core/src/ReedSolomonDecoder.cpp:53-54 | The "failed to reduce" throw happens exactly with one check word and a non-zero syndrome; the table lookup throws exactly when n plus the generator base exceeds the exponent table. |
| ReedSolomonDecoders.RunEuclideanAlgorithm | core/src/ReedSolomonDecoder.cpp:19-69 | From two check words on neither throw is reached, the loop ends, and locator and evaluator (or "not found") depend on the syndromes alone whatever the scratch polynomials held. |
| KeyEquation.LinesStep | core/src/ReedSolomonDecoder.cpp:39-55 | One turn keeps the invariant: both lines combine syndromes and x^R, their determinant is x^R, deg t + deg rLast = R, and the degrees of r fall. |
| KeyEquation.EuclidRunLines | core/src/ReedSolomonDecoder.cpp:39-55 | The invariant holds where the loop stops, and the degrees stand on both sides of R/2. |
| DecoderTheorems.FinalLines | core/src/ReedSolomonDecoder.cpp:31-57 | Started on x^R and the syndromes, the algorithm stops with deg t + deg rLast = R and t not zero. |
| ErrorLocator.KeyEquationHolds | core/src/ReedSolomonDecoder.cpp:105-124 | Locator and evaluator of any list of errors solve the key equation of the syndromes these errors cause. |
| KeyEquation.CommonMultiple | core/src/ReedSolomonDecoder.cpp:19-69 | Every solution of the key equation with small enough degrees is a polynomial multiple of the line at which the algorithm stopped. |
| DecoderTheorems.SolveUnique | core/src/ReedSolomonDecoder.cpp:57-69 | A solution whose locator has as many distinct roots as its degree is the one the algorithm returns, scaled to constant term one. |
| DecoderTheorems.SolveFindsErrors | core/src/ReedSolomonDecoder.cpp:19-69 | For up to R/2 errors the algorithm returns exactly their locator and evaluator. |
| ReedSolomonDecoders.FindErrorLocations | core/src/ReedSolomonDecoder.cpp:71-84 | The brute-force search returns the inverses of the roots in increasing order of the root, and stops at the degree. |
| DecoderSpec.LocatorLocations | core/src/ReedSolomonDecoder.cpp:71-84 | On the locator of distinct locations the search finds exactly these locations. |
| ReedSolomonDecoders.FindErrorMagnitudes | core/src/ReedSolomonDecoder.cpp:86-103 | Forney's loop yields the values of the formula; its denominators are invertible for distinct locations. |
| ErrorLocator.ProductNonZero | core/src/ReedSolomonDecoder.cpp:91-97 | Forney's denominators are never zero because located roots are distinct. |
| DecoderTheorems.ForneyCorrect | core/src/ReedSolomonDecoder.cpp:86-103 | The formula gives an error value back if and only if the generator base is 0 or the (base - 1)-th power of its location is 1, so always for base 0 and 1. |
| DecoderTheorems.ForneyValue | core/src/ReedSolomonDecoder.cpp:86-103 | For any generator base the formula gives the error value times that power. |
| ReedSolomonDecoders.Syndromes | core/src/ReedSolomonDecoder.cpp:108-118 | The syndrome vector is the evaluation at the n generator roots, last root first. |
| ReedSolomonDecoders.IsValidCodeword | core/src/ReedSolomonDecoder.cpp:137-147 | The final check accepts exactly the messages that vanish at all n roots. |
| MinimumDistance.CodewordsApart | core/src/ReedSolomonEncoder.cpp:38-52 | Two different codewords with n check words differ in more than n places. |
| MinimumDistance.EncodingUnique | core/src/ReedSolomonEncoder.cpp:38-52 | The check words are determined by the data: only one codeword begins with them. |
| ReedSolomonEncoders.ReedSolomonEncoder.Encode | core/src/ReedSolomonEncoder.cpp:38-52 | Keeps the data symbols, makes the message vanish at all n generator roots, and refuses exactly a zero count or one that leaves no data. |
| ReedSolomonEncoders.ReedSolomonEncoder.BuildGenerator | core/src/ReedSolomonEncoder.cpp:23-36 | The cached generator of degree d is the product of the first d factors whatever was requested before; entries already cached stay. |
| ReedSolomonEncoders.ReedSolomonEncoder.constructor | core/src/ReedSolomonEncoder.cpp:17-21 | The cache starts with the generator of degree zero. |
| ReedSolomonEncoders.GeneratorRoot | core/src/ReedSolomonEncoder.cpp:23-36 | The generator of degree n vanishes at each of its n roots. |
| ReedSolomonEncoders.EncodedIsCodeword | core/src/ReedSolomonEncoder.cpp:44-51 | Data, zero padding and remainder of data * x^n together vanish at all generator roots. |
| GenericGFs.Create | core/src/GenericGF.cpp:79-107 | For any polynomial the tables stay in range and each logarithm points at the last matching exponent; when doubling cycles through all non-zero elements they are the tables of a field. |
| GenericGFs.FillExpTable | core/src/GenericGF.cpp:86-96 | The loops fill the table with powers of alpha, repeated with period size - 1. |
| GenericGFs.FillLogTable | core/src/GenericGF.cpp:101-105 | Every logarithm is an exponent of its element. |
| GenericGFs.MulComm | core/src/GenericGF.h:89-103 | Table multiplication is commutative. |
| GenericGFs.MulAssoc | core/src/GenericGF.h:89-103 | Table multiplication is associative. |
| GenericGFs.MulDistributes | core/src/GenericGF.h:89-103 | Table multiplication distributes over XOR. |
| GenericGFs.MulNonZero | core/src/GenericGF.h:89-103 | There are no zero divisors. |
| GenericGFs.MulInverse | core/src/GenericGF.h:82-84 | Table inverse is a true inverse. |
| GenericGFs.LogExp | core/src/GenericGF.h:65-77 | The logarithm of a power of alpha below size - 1 is its exponent. |
| FieldProduct.TableProduct | core/src/GenericGF.cpp:79-107 | Table multiplication equals shift-and-add multiplication of binary polynomials modulo the primitive polynomial. |
| FieldProduct.SmallTable | core/src/GenericGF.h:93-102 | The variant with the smaller exponent table and fast_mod computes the same product. |
| StaticFields.Cycles4 | core/src/GenericGF.cpp:33-37 | Doubling modulo x^4 + x + 1 (mode messages) runs through all non-zero elements, so that the field exists. |
| StaticFields.Cycles6 | core/src/GenericGF.cpp:26-30 | Doubling modulo x^6 + x + 1 runs through all non-zero elements, so that the field exists. |
| StaticFields.Cycles8 | core/src/GenericGF.cpp:47-58 | Doubling modulo x^8 + x^5 + x^3 + x^2 + 1 runs through all non-zero elements, so that the field exists. |
| StaticFields.CyclesQR | core/src/GenericGF.cpp:40-44 | Doubling modulo x^8 + x^4 + x^3 + x^2 + 1 runs through all non-zero elements, so that the field exists. |
| StaticFields.Cycles10 | core/src/GenericGF.cpp:19-23 | Doubling modulo x^10 + x^3 + 1 runs through all non-zero elements, so that the field exists. |
| StaticFields.Cycles12 | core/src/GenericGF.cpp:12-16 | Doubling modulo x^12 + x^6 + x^5 + x^3 + 1 runs through all non-zero elements, so that the field exists. |
| StaticFields.AztecParam | core/src/GenericGF.cpp:32-37 | The constructor fills the tables of GF(16) generated by alpha, so that everything proved of valid fields holds of this one. |
| StaticFields.AztecData6 | core/src/GenericGF.cpp:25-30 | The constructor fills the tables of GF(64) generated by alpha, so that everything proved of valid fields holds of this one. |
| StaticFields.AztecData8 | core/src/GenericGF.cpp:53-58 | The constructor fills the tables of GF(256) generated by alpha, so that everything proved of valid fields holds of this one. |
| StaticFields.AztecData10 | core/src/GenericGF.cpp:18-23 | The constructor fills the tables of GF(1024) generated by alpha, so that everything proved of valid fields holds of this one. |
| StaticFields.AztecData12 | core/src/GenericGF.cpp:11-16 | The constructor fills the tables of GF(4096) generated by alpha, so that everything proved of valid fields holds of this one. |
| StaticFields.DataMatrixField256 | core/src/GenericGF.cpp:46-51 | The constructor fills the tables of GF(256) generated by alpha, so that everything proved of valid fields holds of this one. |
| StaticFields.QRCodeField256 | core/src/GenericGF.cpp:39-44 | The constructor fills the tables of GF(256) with generator base 0 generated by alpha, so that everything proved of valid fields holds of this one. |
| StaticFields.MaxiCodeField64 | core/src/GenericGF.cpp:60-65 | The constructor fills the tables of GF(64) generated by alpha, so that everything proved of valid fields holds of this one. |
| PrimitivePolynomials.WalkTwice | core/src/GenericGF.cpp:89-97 | Doubling an exponent squares the power of alpha: a linear map, given by the even powers. |
| PrimitivePolynomials.Primitive | core/src/GenericGF.cpp:89-106 | A polynomial is primitive if alpha squares back to itself after m turns and returns to one at none of the largest proper divisors of 2^m - 1. |
| FieldOrder.FullOrder | core/src/GenericGF.cpp:89-106 | Alpha returns to one before size - 1 only if it does at one of the largest proper divisors. |
| FieldOrder.OrderCycles | core/src/GenericGF.cpp:89-106 | An odd polynomial for which alpha first returns to one at size - 1 runs through all non-zero elements. |
| GenericGFPolys.GenericGFPoly.constructor | core/src/GenericGFPoly.h:63-68 | The stored vector is normalised and denotes the polynomial of the given coefficients. |
| GenericGFPolys.GenericGFPoly.SetMonomial | core/src/GenericGFPoly.h:119-128 | Becomes coefficient * x^degree whatever it held before. |
| GenericGFPolys.GenericGFPoly.EvaluateAt | core/src/GenericGFPoly.cpp:19-30 | All three branches (0, 1, Horner) give the value of the polynomial. |
| GenericGFPolys.GenericGFPoly.AddOrSubtract | core/src/GenericGFPoly.cpp:32-57 | The sum, normalised; the other operand changes exactly when the vectors are exchanged, to the old value of this one. |
| GenericGFPolys.GenericGFPoly.Multiply | core/src/GenericGFPoly.cpp:59-82 | The product in the polynomial ring. |
| GenericGFPolys.GenericGFPoly.MultiplyByMonomial | core/src/GenericGFPoly.cpp:84-99 | The multiple by a monomial, zero for coefficient zero. |
| GenericGFPolys.GenericGFPoly.Divide | core/src/GenericGFPoly.cpp:101-147 | Synthetic division leaves quotient and remainder with dividend = quotient * divisor + remainder, remainder zero or of smaller degree, both normalised; fails, changing nothing, exactly for a zero divisor. |
| GenericGFPolys.GenericGFPoly.Normalize | core/src/GenericGFPoly.cpp:149-161 | Restores the representation without changing the polynomial. |
| GenericGFPolys.GenericGFPoly.Swap | core/src/GenericGFPoly.h:140-144 | Exchanges coefficients and fields. |
| PolynomialDivision.DivModCorrect | core/src/GenericGFPoly.cpp:101-147 | Division equation and degree bound of long division. |
| PolynomialDivision.DivModUnique | core/src/GenericGFPoly.cpp:101-147 | No other quotient and remainder satisfy them. |
| AztecRoundTrip.SymbolRoundTrip | core/src/aztec/AZDecoder.cpp:366-374 | Every symbol drawn for a text reads back as that text, byte for byte, when at most half as many codewords as there are check words were damaged and whatever happened to the other modules. |
| AztecRoundTrip.CleanSymbol | core/src/aztec/AZDecoder.cpp:366-374 | The undamaged symbol reads back as its text. |
| AztecModeMessage.SelfDescribed | core/src/aztec/AZDetector.cpp:279-355 | The symbol describes itself: what the detector reads from the mode message is the number of layers and data words that the decoder needs, and the text comes back, whatever became of half as many codewords as there are check words, in the message and in the mode message, and of all other modules. |
| AztecModeMessage.ReadsWhereDrawn | core/src/aztec/AZDetector.cpp:284-298 | For each bit the detector's walk from corner to corner looks at the module where the encoder has drawn it. |
| AztecModeMessage.ModeCorrected | core/src/aztec/AZDetector.cpp:300-332 | A mode message with at most two (compact) or three words damaged is corrected to the number drawn, and is not taken for a rune. |
| AztecModeMessage.ParametersExactly | core/src/aztec/AZDetector.cpp:334-355 | Layers and data words come back if and only if the highest bit of the number of words is not taken for reader initialisation; no symbol has so many words that it is. |
| AztecModeMessage.ModeMessage | core/src/aztec/AZDetector.cpp:300-332 | Cutting the number into words, correcting them in place, a second time as a rune, and joining the data words. |
| AztecModeMessage.SampleMode | core/src/aztec/AZDetector.cpp:284-298 | The loops over corners and steps read the bits in order as a number, unless one is outside the image. |
| AztecRoundTrip.Decode | core/src/aztec/AZDecoder.cpp:366-374 | Extraction, correction, unstuffing and content decoding of a sampled matrix compute ReadSymbol of its dark modules. |
| AztecEncoder.Encode | core/src/aztec/AZEncoder.cpp:178-329 | Takes the right size, refuses exactly an empty text and one for which no size is right, and draws a symbol made of the stuffed, protected text and a protected mode message. |
| AztecEncoder.ChoiceIsRight | core/src/aztec/AZEncoder.cpp:184-246 | The size is the one asked for or the first of all 33 whose words leave more than ten bits beyond the percentage of check bits asked for, with at most 64 data words when compact; it is refused only if that one, or all, do not. |
| AztecEncoder.FitsMeans | core/src/aztec/AZEncoder.cpp:185-246 | The program's sums, its percentage rounded down plus eleven bits, are that condition, and its first test against the total is implied by it. |
| AztecEncoder.RightSizeUnique | core/src/aztec/AZEncoder.cpp:188-246 | There is only one right size for a text, a percentage and a request. |
| AztecEncoder.Instances | core/src/aztec/AZEncoder.cpp:45-55 | The five static fields satisfy what the encoder, the decoder and their theorems require of fields. |
| AztecEncoder.ChosenFits | core/src/aztec/AZEncoder.cpp:192-246 | Whatever size is chosen has a legal number of layers, room for stuffed bits and check bits, and at most 64 data words when compact. |
| AztecEncoder.ChooseFirstFit | core/src/aztec/AZEncoder.cpp:216-246 | The loop that restuffs only on a change of word size finds the first fitting size and leaves the bits stuffed for it. |
| AztecEncoder.ModeBitsReadBack | core/src/aztec/AZEncoder.cpp:73-81 | The first bits of the mode message give back the number of layers and of data words. |
| AztecEncoder.GenerateModeMessage | core/src/aztec/AZEncoder.cpp:69-83 | The mode message is 28 or 40 bits: layers, data words and check words that make it a codeword over GF(16). |
| AztecHighLevelEncoder.TextRoundTrip | core/src/aztec/AZHighLevelEncoder.cpp:346-375 | For every text up to 32767 bytes the high-level bits, followed by fewer than twelve one bits, decode to exactly the text. |
| AztecHighLevelEncoder.Encode | core/src/aztec/AZHighLevelEncoder.cpp:346-375 | The dynamic program returns the bits of a shortest surviving state; they decode to the text even with padding. |
| AztecHighLevelEncoder.HighLevelBits | core/src/aztec/AZHighLevelEncoder.cpp:219-228 | The length of the bit string is the bit count of the chosen state. |
| AztecHighLevelEncoder.EncodeFromOpen | core/src/aztec/AZHighLevelEncoder.cpp:346-373 | All states that survive to the end stand for the whole text, and there is at least one. |
| AztecHighLevelEncoder.UpdateStateForChar | core/src/aztec/AZHighLevelEncoder.cpp:293-332 | Extends the list by the latch, shift and binary successors of a state in the original order. |
| AztecHighLevelEncoder.UpdateStateForPair | core/src/aztec/AZHighLevelEncoder.cpp:231-250 | Extends the list by the successors for a two-character punctuation code. |
| AztecHighLevelEncoder.CharSuccessorsOpen | core/src/aztec/AZHighLevelEncoder.cpp:293-332 | Each successor for a character stands for one byte more of the text, in a mode the decoder will be in. |
| AztecHighLevelEncoder.PairSuccessorsOpen | core/src/aztec/AZHighLevelEncoder.cpp:231-250 | Each successor for a pair stands for two bytes more. |
| AztecHighLevelEncoder.ToBitArray | core/src/aztec/AZHighLevelEncoder.cpp:219-228 | Writes the tokens of the closed state one after the other. |
| AztecStateLemmas.LatchAndAppendSound | core/src/aztec/AZHighLevelEncoder.cpp:125-138 | Latching and appending keeps a state sound: decoded prefix, decoder mode and bit count. |
| AztecStateLemmas.ShiftAndAppendSound | core/src/aztec/AZHighLevelEncoder.cpp:142-151 | Shifting and appending keeps a state sound and its mode. |
| AztecStateLemmas.EndBinaryShiftSound | core/src/aztec/AZHighLevelEncoder.cpp:155-164 | Closing a binary run keeps a state sound; the bits already counted are those of its headers and bytes. |
| AztecStateLemmas.AddBinaryShiftCharSound | core/src/aztec/AZHighLevelEncoder.cpp:168-187 | One more binary byte keeps a state sound; at 2078 bytes the run is closed. |
| AztecStates.LatchTableDecodes | core/src/aztec/AZHighLevelEncoder.cpp:30-65 | Every entry of the latch table, read by the decoder, leads from its row's mode to its column's without output. |
| AztecStateLemmas.ShiftTableDecodes | core/src/aztec/AZHighLevelEncoder.cpp:105-119 | Every shift code is a shift, not a latch, to the same mode in the decoder's table. |
| AztecStates.CharMapDecodes | core/src/aztec/AZHighLevelEncoder.cpp:69-102 | Every code of the encoder's map decodes to its character in the same mode. |
| AztecStates.CharMapComplete | core/src/aztec/AZHighLevelEncoder.cpp:69-102 | A character that some decoder code stands for has a code, except the double quote in PUNCT, whose place the table gives to a second apostrophe. |
| AztecKnownAnswers.AnswerAb | test/unit/aztec/AZHighLevelEncoderTest.cpp:50-52 | The codes that the repository's tests give for A. b. decode to it. |
| AztecKnownAnswers.AnswerLox | test/unit/aztec/AZHighLevelEncoderTest.cpp:59-61 | The same for Lo...x. |
| AztecPruning.BetterTransitive | core/src/aztec/AZHighLevelEncoder.cpp:205-217 | Domination is transitive: latch costs obey the triangle inequality and the binary-shift handicap is subadditive. |
| AztecPruning.SimplifyFacts | core/src/aztec/AZHighLevelEncoder.cpp:254-277 | Pruning keeps only given states, no two of which dominate each other, a dominating one for every dropped one, and never all-but-none of a non-empty list. |
| AztecPruning.SimplifyKeepsMinimum | core/src/aztec/AZHighLevelEncoder.cpp:254-277 | Pruning never loses the shortest state. |
| AztecPruning.SimplifyStates | core/src/aztec/AZHighLevelEncoder.cpp:254-277 | The loop that erases while iterating computes that pruning. |
| AztecPruningGap.BetterIsAlwaysBetter | core/src/aztec/AZHighLevelEncoder.cpp:203-217 | For each pair of modes and each pair of numbers of pending bytes the comparison is right about all states (the kept one leads to no longer encoding, whatever text follows) if and only if the dropped state is not in DIGIT or the kept one is in DIGIT or PUNCT, and the dropped one has at most 31 pending bytes or the kept one at most 31 more. |
| AztecPruningGap.AlwaysBetterExactly | core/src/aztec/AZHighLevelEncoder.cpp:203-217 | A state is at least as good as another before every text exactly if it is shorter by the margin: the latch, but for three entries of the DIGIT column, which are 8, 12 and 11, and what the headers of the two binary runs can come to differ by. |
| AztecPruningGap.AlwaysBetterIsBetter | core/src/aztec/AZHighLevelEncoder.cpp:203-217 | The other way round: the comparison accepts all states that are always better if and only if its handicap is not too large for the two numbers of pending bytes. |
| AztecPruningGap.BetterWithin | core/src/aztec/AZHighLevelEncoder.cpp:203-217 | One comparison loses at most eleven bits, and at most seven where the handicap for pending bytes is right. |
| AztecPruningGap.FullRunLoses | core/src/aztec/AZHighLevelEncoder.cpp:168-187 | A state with 2077 pending bytes displaces one with 100 that is ten bits longer, and before 64 more bytes this costs eleven bits. |
| AztecPruningGap.MarginAttained | core/src/aztec/AZHighLevelEncoder.cpp:34-65 | For each pair of modes, all numbers of pending bytes and each position there is a text for which the first state needs more than the second by the whole margin: bytes that fill the second run, and then characters that the first mode is worst for. |
| AztecPruningGap.NeedsRun | core/src/aztec/AZHighLevelEncoder.cpp:168-187 | A run of bytes that no mode has a code for costs eight bits each and exactly the headers that its length begins, also past the limit of 2078. |
| AztecPruningGap.OpenIsPossible | core/src/aztec/AZHighLevelEncoder.cpp:168-187 | The states of the search have the pending bytes that the margin is stated for. |
| AztecDomination.NeedsWithin | core/src/aztec/AZHighLevelEncoder.cpp:231-332 | Before any text, what one mode with its pending bytes still needs exceeds what another needs by no more than the gap of the modes and the slack of the pending bytes, whatever these are: a simulation by induction on the text. |
| AztecDomination.PendingHelps | core/src/aztec/AZHighLevelEncoder.cpp:231-332 | Pending bytes never hurt: a state with some needs no more than one with none in the same mode, whatever text follows. |
| AztecDomination.AgainstDigit | core/src/aztec/AZHighLevelEncoder.cpp:231-332 | Against DIGIT no single answer to a choice suffices: nine bounds on UPPER, LOWER and PUNCT together, each leading to the next at a shift. |
| AztecDomination.Answered | core/src/aztec/AZHighLevelEncoder.cpp:231-332 | Each other choice of one state has an answer by the other state that costs no more, after what the two states differ by. |
| AztecChoices.NeedsNext | core/src/aztec/AZHighLevelEncoder.cpp:231-332 | What a mode with its pending bytes still needs is attained by one of the choices it is offered. |
| AztecChoices.NeedsAtMost | core/src/aztec/AZHighLevelEncoder.cpp:231-332 | No choice that is offered costs less than that. |
| AztecChoices.SameNeeds | core/src/aztec/AZHighLevelEncoder.cpp:231-332 | What a state still needs does not depend on its tokens or on the bits it has sent. |
| AztecPruningLoss.PruningLosesABit | core/src/aztec/AZHighLevelEncoder.cpp:253-375 | For four spaces and A!1 the encoder returns at least 44 bits, though unpruned successors of its first state reach a sound encoding of at most 43. |
| AztecPruningLoss.PrunedIsUnpruned | core/src/aztec/AZHighLevelEncoder.cpp:253-375 | Every state that the pruned search ends with is one that the unpruned search ends with. |
| AztecPruningLoss.AllFromOpen | core/src/aztec/AZHighLevelEncoder.cpp:231-332 | Without pruning too every state at the end is a sound encoding of the whole text. |
| AztecTokens.AppendTo | core/src/aztec/AZToken.cpp:15-42 | Appends a simple token, or headers and bytes of a binary run with one, two or an extended header. |
| AztecTokens.DecodesBinaryRun | core/src/aztec/AZToken.cpp:15-42 | A binary run of up to 2078 bytes decodes to its bytes in the mode it started from and has exactly the length that was counted for it. |
| AztecDecoder.DecodeContent | core/src/aztec/AZDecoder.cpp:251-302 | The cursor loop computes the latch/shift state machine on bit strings, including reads past the end. |
| AztecDecoder.OnesDecodeToNothing | core/src/aztec/AZDecoder.cpp:259-263 | Fewer than twelve one bits at the end decode to nothing in every mode. |
| AztecDecoder.DecodesLongBinary | core/src/aztec/AZDecoder.cpp:260-269 | A binary shift with an eleven-bit count gives its bytes and returns to the mode before. |
| AztecDecoder.ReadFlag | core/src/aztec/AZDecoder.cpp:283-294 | FLG(n): FNC1, ECI or nothing, and back to the latched mode. |
| AztecFlags.EciSwitched | core/src/aztec/AZDecoder.cpp:212-218 | Every number below 10^n, written in n = 1 to 6 digits behind FLG(n), becomes the ECI from there on, in every mode, which is kept, and whatever follows is decoded. |
| AztecFlags.DecimalRead | core/src/aztec/AZDecoder.cpp:212-218 | Decimal digits sent as the digit table's codes are read as their number. |
| AztecFlags.Fnc1AndReserved | core/src/aztec/AZDecoder.cpp:285-293 | FLG(0) gives a group separator and is remembered as FNC1, FLG(7) gives nothing, in every mode. |
| AztecFlags.FlagCutOff | core/src/aztec/AZDecoder.cpp:283-291 | Without the three bits of FLG(n), or with fewer digits than it announces, reading fails. |
| AztecFlags.ShiftInShift | core/src/aztec/AZDecoder.cpp:275-282 | A character by a shift from within a shift leaves the decoder in the mode of the inner shift, not in the latched one. |
| AztecFlags.BinaryInShift | core/src/aztec/AZDecoder.cpp:260-282 | U/S followed by a binary run ends in Upper. |
| AztecFlags.BinaryCutOff | core/src/aztec/AZDecoder.cpp:260-269 | At most six bits behind a binary shift are padding; with more, a run that is not all there cannot be read. |
| AztecDecoder.ParseECIValue | core/src/aztec/AZDecoder.cpp:212-218 | Reads exactly flg digits of four bits. |
| AztecStuffing.StuffUnstuff | core/src/aztec/AZEncoder.cpp:138-162 | For every bit string and word size from 2 to 32, stuffing leaves no all-zero or all-one word, and unstuffing gives the input followed by fewer than wordSize one bits. |
| AztecStuffing.StuffBits | core/src/aztec/AZEncoder.cpp:138-162 | The loop that steps its index back terminates and appends exactly the stuffed words. |
| AztecStuffing.UnstuffBits | core/src/aztec/AZDecoder.cpp:156-168 | The unstuffing loop undoes stuffed words and fails on an all-zero or all-one word. |
| AztecCheckWords.GenerateCheckWords | core/src/aztec/AZEncoder.cpp:57-67 | The padded words are a codeword whose first words are the data; refuses exactly no data or no room for check words. |
| AztecCheckWords.CorrectBits | core/src/aztec/AZDecoder.cpp:122-171 | Word size by layer count, format and checksum errors, unstuffed bits and error level are the function Correct of the raw bits. |
| AztecCheckWords.EcLevelIsShare | core/src/aztec/AZDecoder.cpp:170 | The error level is the share of check words among all words in whole percents, rounded down. |
| AztecCheckWords.FormatErrorExactly | core/src/aztec/AZDecoder.cpp:139-143 | A format error is reported exactly if there are fewer words than data words. |
| AztecCheckWords.ExtremeWordLeavesNothing | core/src/aztec/AZDecoder.cpp:159-162 | A data word of all zeros or all ones after correction leaves no bits and no error level. |
| AztecCheckWords.ProtectedBitsCorrected | core/src/aztec/AZDecoder.cpp:122-171 | After damage to at most half as many words as there are check words, the stuffed bits come back with their padding. |
| AztecLayout.DataCellsDistinct | core/src/aztec/AZEncoder.cpp:287-308 | Different data bits go to different modules, for every layer count, compact or full. |
| AztecLayout.DataCellPlace | core/src/aztec/AZEncoder.cpp:287-308 | Data modules lie inside the matrix, outside the centre pattern and off the reference grid. |
| AztecLayout.SlotOf | core/src/aztec/AZEncoder.cpp:287-308 | Every bit number below the total is the index of a place in the spiral. |
| AztecLayout.IndexInjective | core/src/aztec/AZEncoder.cpp:287-308 | No bit number is the index of two places. |
| AztecLayout.RowOffsetTotal | core/src/aztec/AZEncoder.cpp:164-167 | The four arms of all layers hold exactly TotalBitsInLayer bits. |
| AztecGeometry.ModuleHasUse | core/src/aztec/AZEncoder.cpp:263-308 | Every module outside the middle square and off the reference grid is that of a data bit, for all numbers of layers; with DataCellPlace the three kinds tile the symbol. |
| AztecGeometry.ArmsTurn | core/src/aztec/AZEncoder.cpp:287-308 | The arms of a layer follow one another by quarter turns anticlockwise of the whole symbol. |
| AztecGeometry.FirstArm | core/src/aztec/AZEncoder.cpp:287-295 | The first arm runs down the two outer columns from the top left corner, two bits to a row. |
| AztecGeometry.GridComplete | core/src/aztec/AZEncoder.cpp:319-326 | The reference grid is drawn in full if and only if 15 does not divide the number of layers plus 3: for 12 and 27 layers the outermost lines are missing. |
| AztecGeometry.Orientation | core/src/aztec/AZEncoder.cpp:27-43 | Clockwise from the top left, three, two, one and no modules of a corner are dark. |
| AztecGeometry.Rings | core/src/aztec/AZEncoder.cpp:27-33 | Inside the marks the pattern is the dark rings at even distances, the same whichever way it is turned. |
| AztecGeometry.OnlyMarks | core/src/aztec/AZEncoder.cpp:34-42 | On the ring of the marks only corner modules and their neighbours are dark. |
| AztecGeometry.ModeTurns | core/src/aztec/AZEncoder.cpp:98-135 | The sides of the mode message follow one another by quarter turns clockwise. |
| AztecGeometry.ModeStarts | core/src/aztec/AZEncoder.cpp:98-135 | Its first side runs from left to right above the centre, between the marks and past the grid. |
| AztecPlacement.AlignmentMap | core/src/aztec/AZEncoder.cpp:263-281 | The table that skips reference grid lines maps each base coordinate to its matrix coordinate. |
| AztecPlacement.DrawData | core/src/aztec/AZEncoder.cpp:287-308 | Sets exactly the modules of the set bits. |
| AztecPlacement.ExtractBits | core/src/aztec/AZDecoder.cpp:73-117 | Reads bit number i from the module of place i. |
| AztecPlacement.ExtractedBySlots | core/src/aztec/AZDecoder.cpp:73-117 | Bits that agree with the modules place by place are the ones extracted. |
| AztecFunctionPatterns.DrawSymbol | core/src/aztec/AZEncoder.cpp:283-328 | The drawn symbol is the union of data modules, mode message, bull's eye and reference grid. |
| AztecFunctionPatterns.DataOnly | core/src/aztec/AZEncoder.cpp:287-328 | Bull's eye, mode message and grid touch no data module. |
| AztecFunctionPatterns.ExtractedFromSymbol | core/src/aztec/AZDecoder.cpp:73-117 | The bits extracted from a drawn symbol are the message bits. |
| AztecFunctionPatterns.ModeMessageReadable | core/src/aztec/AZEncoder.cpp:98-135 | Each mode message bit can be read from its module: nothing else is drawn there. |
| AztecSymbol.DrawBullsEye | core/src/aztec/AZEncoder.cpp:27-43 | Sets exactly the rings and the six orientation marks. |
| AztecSymbol.DrawModeMessage | core/src/aztec/AZEncoder.cpp:98-135 | Sets exactly the modules of the set mode message bits, clockwise around the centre. |
| AztecSymbol.DrawGrid | core/src/aztec/AZEncoder.cpp:319-326 | Sets exactly the alternating modules on grid lines. |
| BitArrays.BitArray.AppendBits | core/src/BitArray.h:74-80 | Appends the low bits of a number, most significant first. |
| BitArrays.BitArrayView.ReadBits | core/src/BitArray.h:186-191 | Returns the number of the next bits and advances, or fails without moving when too few are left. |
| BitArrays.BitArrayView.PeekBits | core/src/BitArray.h:175-184 | Returns the number of the next bits without moving. |
| BitArrays.FromToBits | core/src/BitArray.h:74-80 | A number written in enough bits is read back. |
| BitArrays.ToFromBits | core/src/BitArray.h:131-144 | A bit string read as a number is written back. |
| BitArrays.ToInt | core/src/BitArray.h:131-144 | The number of a stretch of bits. |
| BitArrays.ToInts | core/src/BitArray.h:146-157 | The words behind the offset, then zeros. |
| BitArrays.WordBitsOfWords | core/src/BitArray.h:146-157 | Cutting into words and concatenating them again is the identity. |
| DMProgram.ProgramRoundTrip | core/src/datamatrix/DMDecoder.cpp:396-434 | For each of the 30 symbol sizes, with the program's own FACTORS, LOG and ALOG and the version that the decoder finds by the dimensions: however the codewords are damaged, if no block has more wrong words than half its check words, the decoder gives the data codewords back. |
| DMProgram.CleanSymbol | core/src/datamatrix/DMDecoder.cpp:396-434 | The undamaged symbol: for each of the 30 sizes what the encoder sends is repairable as it is and gives the data codewords back. |
| DMProgram.ProgramReady | core/src/datamatrix/DMECEncoder.cpp:18-98 | For each symbol size the tables are those of the field and the row of factors that is looked up is the generator polynomial. |
| DMSymbols.EverySymbolAgrees | core/src/datamatrix/DMSymbolInfo.cpp:18-52 | The version found by the dimensions of each of the encoder's 30 entries has the same blocks of the same lengths with as many check words. |
| DMBlockRoundTrip.RegularSymbol | core/src/datamatrix/DMSymbolInfo.h:64-75 | Entries with blocks of one length fit together when their numbers do. |
| DMFactors.ProgramFactors | core/src/datamatrix/DMECEncoder.cpp:18-52 | The row looked up for any of the sixteen counts of check words holds the lower coefficients of the generator polynomial. |
| DMFactors.RowIsGenerator | core/src/datamatrix/DMECEncoder.cpp:18-52 | Each row of FACTORS is a generator polynomial without its leading coefficient, lowest power first. |
| GeneratorCoefficients.NeighboursMakeGenerator | core/src/datamatrix/DMECEncoder.cpp:18-52 | A monic polynomial whose neighbouring coefficients are in the ratio alpha^n (1 + alpha^(k+1)) : (alpha^k + alpha^n) is the generator polynomial of its degree. |
| GeneratorCoefficients.Telescopes | core/src/datamatrix/DMECEncoder.cpp:18-52 | Coefficients in those ratios tie the value at alpha x to the value at x, so that the roots alpha, alpha^2, ... follow one another. |
| DMTables.ProgramTables | core/src/datamatrix/DMECEncoder.cpp:54-98 | LOG and ALOG are the logarithms and antilogarithms of the field modulo 0x12D. |
| DMBlockRoundTrip.StreamRoundTrip | core/src/datamatrix/DMDecoder.cpp:408-434 | For any symbol description and version that agree and any row that is the generator polynomial: interleaving, errors within each block's capacity, separation, correction and re-joining give back the original stream, 144x144 included; the rotated reading is never needed. |
| DMBlockRoundTrip.BlocksOfInterleaved | core/src/datamatrix/DMDataBlock.cpp:18-61 | Without fix259, separating what EncodeECC200 interleaved gives each block its own data and check words, unequal blocks included. |
| DMBlockRoundTrip.Symbol144 | core/src/datamatrix/DMSymbolInfo.h:64-75 | The encoder's and the decoder's description of 144x144 fit together. |
| DMECEncoder.CheckIsRemainder | core/src/datamatrix/DMECEncoder.cpp:109-115 | The shift register leaves exactly the remainder of data * x^n by the monic polynomial, for every data length. |
| DMECEncoder.CheckedBlockIsCodeword | core/src/datamatrix/DMECEncoder.cpp:109-117 | For any row that is the generator polynomial, as all of FACTORS are, data and check words are a codeword of the Reed-Solomon code. |
| DMECEncoder.ClockRegister | core/src/datamatrix/DMECEncoder.cpp:110-115 | One data word shifted through the register in place. |
| DMECEncoder.MultIsMultiply | core/src/datamatrix/DMECEncoder.cpp:92-97 | Tables of a field, as the encoder's own are, multiply like the field. |
| DMInterleaving.CreateECCBlock | core/src/datamatrix/DMECEncoder.cpp:100-118 | Finds the polynomial row, computes the block's check words and writes them with the stride, reversed, changing nothing else. |
| DMInterleaving.EncodeECC200 | core/src/datamatrix/DMECEncoder.cpp:120-135 | The result is the data followed by the interleaved check words of all blocks; refuses exactly a wrong data length or an unknown number of check words. |
| DMInterleaving.InterleavedData | core/src/datamatrix/DMECEncoder.cpp:125-134 | The data words stay where they are. |
| DMInterleaving.InterleavedCheck | core/src/datamatrix/DMECEncoder.cpp:131-134 | Word e of the check words of block b takes the b-th place of turn e. |
| DMDataBlock.GetDataBlocks | core/src/datamatrix/DMDataBlock.cpp:18-61 | The copying loops compute each block word's place, with the shorter 144x144 blocks and the rotation; nothing when words are left over. |
| DMDataBlock.CorrectErrors | core/src/datamatrix/DMDecoder.cpp:379-394 | Copies back the data words of the corrected block. |
| DMDataBlock.JoinBlocks | core/src/datamatrix/DMDecoder.cpp:418-434 | Corrects the blocks in turn and joins their data words up to the first failure. |
| DMDataBlock.DecodeBlocks | core/src/datamatrix/DMDecoder.cpp:408-434 | One retry with fix259 for version 24, otherwise a checksum error. |
| DMBlockRoundTrip.RotatedPlace | core/src/datamatrix/DMDataBlock.cpp:49-56 | With fix259 word i of block j is word j of round i, data and check words alike: raw word p belongs to block p mod 10. |
| DMBlockRoundTrip.SecondTry | core/src/datamatrix/DMDecoder.cpp:405-434 | A 144x144 symbol whose words go round the ten blocks to the end: if the first try ends in a checksum error, the second gives the stream back, however each block is damaged within its capacity. |
| DMBlockRoundTrip.RoundsHaveNoErrors | core/src/datamatrix/DMDataBlock.cpp:49-56 | Laid out in rounds the blocks are found again word for word. |
| DMProgram.OtherLayout | core/src/datamatrix/DMDecoder.cpp:405-434 | The same with the program's own constants and version 24. |
| DMProgram.OtherLayoutClean | core/src/datamatrix/DMDecoder.cpp:405-434 | The hypotheses are met by every stream of 1558 codewords. |
| BitSources.BitSource.ReadBits | core/src/BitSource.cpp:22-68 | Value and new position are those of the flat bit string; fails without moving exactly for fewer than 1, more than 32 or too many bits. |
| BitSources.PeekBits | core/src/BitSource.cpp:70-75 | The same value without moving. |
| DMC40.TripleRoundTrip | core/src/datamatrix/DMDecoder.cpp:130-136 | Packed pairs unpack to their three values, and never begin with the unlatch codeword. |
| DMC40.NegativeValue | core/src/datamatrix/DMDecoder.cpp:130-183 | Only the codewords 0, 0 give a negative value, the last one, and no shift is pending then that would look it up in a table. |
| DMC40.EncodeChar | core/src/datamatrix/DMHighLevelEncoder.cpp:365-408 | Appends the one to four values of a character, for C40 and Text, upper shift included. |
| DMC40.CharDecodes | core/src/datamatrix/DMDecoder.cpp:154-185 | The values of each of the 256 bytes decode to that byte and leave no shift behind. |
| DMC40.Shift2Set | core/src/datamatrix/DMDecoder.cpp:52-56 | The 27 characters of the second shift set are sent by it; the last value, FNC1, is read as a group separator. |
| DMC40.SegmentRoundTrip | core/src/datamatrix/DMDecoder.cpp:145-186 | A text whose values fill whole triplets after at most one Shift 1 pad is read back, the pad decoding to nothing, if and only if an unlatch or at most one codeword follows. |
| DMC40.ShortenedRoundTrip | core/src/datamatrix/DMHighLevelEncoder.cpp:460-469 | With the last value left out, the text without its last character is read back, under the same exact condition. |
| DMC40.DecodeNextTriple | core/src/datamatrix/DMDecoder.cpp:120-137 | Ends at fewer than two codewords or at the unlatch, which is consumed. |
| DMC40.DecodeC40OrTextSegment | core/src/datamatrix/DMDecoder.cpp:145-186 | The loop with shift and upper shift computes the segment decoder on codewords and leaves the source behind it. |
| DMSegments.HandleEOD | core/src/datamatrix/DMHighLevelEncoder.cpp:442-482 | Codewords appended, unlatch, position, symbol and error case for each number of values left over. |
| DMSegments.SegmentDecodes | core/src/datamatrix/DMHighLevelEncoder.cpp:442-482 | What is appended at the end of a segment decodes to the text, less the character gone back by, if and only if more characters follow, or the values fill triplets and the symbol has room to spare, or at most one codeword follows. |
| DMC40RoundTrip.SegmentExactly | core/src/datamatrix/DMHighLevelEncoder.cpp:410-519 | Whatever text a C40 or Text segment has, whatever codewords it starts behind and whatever follows it: the decoder reads back exactly the characters that the encoder has moved past if and only if the segment is readable, a condition on the sizes of its last characters and the codewords to spare; otherwise the encoder throws, or characters are lost or changed. |
| DMC40RoundTrip.SampleNotReadable | core/src/datamatrix/DMHighLevelEncoder.cpp:497-506 | The Text segment aaaaaaaa!a! and any byte from 128 on is not read back when one codeword is to spare. |
| DMC40RoundTrip.TwoCharactersLost | core/src/datamatrix/DMHighLevelEncoder.cpp:410-419 | Of aaaaaaaa!a! and the byte 0xC1, in a symbol of 12 codewords, the encoder moves past ten characters and the decoder gets the first eight. |
| DMC40RoundTrip.ReadThree | core/src/datamatrix/DMHighLevelEncoder.cpp:497-506 | With one value left over from a last character of three and not one codeword to spare, the encoder goes back to before the last character of another size, and the segment is read back by the sizes of that and the two before it. |
| DMC40RoundTrip.ReadFour | core/src/datamatrix/DMHighLevelEncoder.cpp:497-506 | With two values left over, a last character of four and not two codewords to spare, the segment is read back if and only if the character before the last has four values too. |
| DMC40RoundTrip.LastInAscii | core/src/datamatrix/DMHighLevelEncoder.cpp:460-469 | With one value left over and one codeword to spare, the segment is read back if and only if the last byte is below 128. |
| DMC40RoundTrip.ReadWithZero | core/src/datamatrix/DMDecoder.cpp:145-186 | With values missing at the end and a Shift 1 in their place, the text is read back exactly if the only one missing is the last and it is 0. |
| DMC40RoundTrip.NotReadWithLess | core/src/datamatrix/DMDecoder.cpp:145-186 | With values missing and no more in their place, it is not. |
| DMC40Encoder.EncodeC40 | core/src/datamatrix/DMHighLevelEncoder.cpp:484-519 | Reads up to where look-ahead leaves the mode between triplets or to the end of the message, goes back there, and appends exactly what the specification says; no symbol, length_error and nothing else as errors. |
| DMC40Encoder.Backtrack | core/src/datamatrix/DMHighLevelEncoder.cpp:497-506 | The step and the loop back at the end of the message leave the values and the position of the specification, or throw length_error where it does. |
| DMC40Encoder.BacktrackOneCharacter | core/src/datamatrix/DMHighLevelEncoder.cpp:410-419 | Takes the given number of values off and returns the size of the character taken back; throws where there are fewer values. |
| DMC40Encoder.BackToOther | core/src/datamatrix/DMHighLevelEncoder.cpp:497-506 | Through characters of three values going back ends before the last one of another size, three values short, or throws. |
| DMC40Encoder.SingleValue | core/src/datamatrix/DMHighLevelEncoder.cpp:476-478 | A single value is kept only with one codeword to spare, so that HandleEOD never meets its unexpected case. |
| DMSegments.WriteTriplets | core/src/datamatrix/DMHighLevelEncoder.cpp:421-434 | Sends whole triplets and keeps the rest. |
| DMSegments.EncoderContext.UpdateSymbolInfo | core/src/datamatrix/DMEncoderContext.h:109-117 | Keeps the symbol while it is large enough, otherwise the first in the order of the table that is; fails when none is. |
| DMSegments.LookupIsFirst | core/src/datamatrix/DMEncoderContext.h:109-117 | All sizes before the one found are too small, and none is found exactly if all are. |
| DMSegments.LookupIsLeast | core/src/datamatrix/DMEncoderContext.h:109-117 | Where sizes ascend it is the least sufficient one. |
| DMSymbols.CapacitiesAscend | core/src/datamatrix/DMSymbolInfo.cpp:17-51 | The sizes of the encoder's table ascend. |
| DMSegments.RandomizeRoundTrip | core/src/datamatrix/DMHighLevelEncoder.cpp:790-800 | The decoder's unrandomising at the same position undoes the randomising of each byte, signed char or not. |
| DMSegments.Base256RoundTrip | core/src/datamatrix/DMDecoder.cpp:249-272 | At any codeword position, for 1 to 1555 bytes or a segment to the end of the symbol, length field and randomising are undone and both sides agree where the segment ends. |
| DMSegments.EncodeBase256 | core/src/datamatrix/DMHighLevelEncoder.cpp:802-839 | Sends length field and run of bytes randomised by position; too long exactly above 1555 bytes when the length must be given. |
| DMSegments.DecodeBase256Segment | core/src/datamatrix/DMDecoder.cpp:249-272 | One-byte, two-byte and to-the-end length fields; fails when the source runs out. |
| DMKnownAnswers.Base256Answers | test/unit/datamatrix/DMHighLevelEncodeTest.cpp:243-272 | Length fields and randomised codewords are those that the repository's tests expect. |
| DMKnownAnswers.AimsArePairs | test/unit/datamatrix/DMHighLevelEncodeTest.cpp:95-151 | AIM n times gives the codewords 91, 11 of the repository's tests n times. |
| DMKnownAnswers.OtherAnswers | test/unit/datamatrix/DMHighLevelEncodeTest.cpp:120-172 | Values and codewords of A1B2C3, of aIm and of {txt} with a control character are those of the repository's tests. |
| ZueciLengths.DestLenUtf8 | core/src/libzueci/zueci.c:1611-1715 | The pre-pass returns the status of the conversion and, unless it is an error, exactly the length it writes, for every input, ECI, flag set and replacement character. |
| Zueci.EciToUtf8 | core/src/libzueci/zueci.c:1493-1603 | Status and output are those of the conversion function; a destination of four bytes per source byte, or of exactly the pre-pass length, is never written past. |
| Zueci.PieceInRange | core/src/libzueci/zueci.c:1511-1602 | Every turn of each conversion loop advances, stays within the source, backtracking and skipping included, and puts out at most four bytes per byte used. |
| Zueci.StrictUtf8 | core/src/libzueci/zueci.c:1575-1580 | Without a replacement, the pre-pass's character loop and the conversion's validate-and-copy agree. |
| Zueci.SkipBad | core/src/libzueci/zueci.c:1558-1564 | Backing up over an ASCII byte and skipping continuation bytes always advances and never leaves the source. |
| ZueciReplacing.SkipResumes | core/src/libzueci/zueci.c:1558-1564 | Reading goes on at the unexpected byte if it is ASCII, otherwise at the first byte behind it that does not continue a character. |
| ZueciReplacing.UnitReplaced | core/src/libzueci/zueci.c:164-188 | In UTF-16 and UTF-32 a unit that begins no character becomes one replacement character, and reading goes on at the next unit. |
| ZueciReplacing.UnitCutOff | core/src/libzueci/zueci.c:164-188 | Less than a unit at the end becomes one replacement character. |
| ZueciReplacing.ByteReplaced | core/src/libzueci/zueci.c:164-188 | In single-byte sets one byte is replaced at a time. |
| ZueciReplacing.PairReplaced | core/src/libzueci/zueci.c:164-188 | In multi-byte sets two bytes are replaced at a time, four in the four-byte form of GB 18030, or what is left. |
| ZueciReplacing.Kinds | core/src/libzueci/zueci.c:33-35 | The ECIs accepted are those of the single-byte and multi-byte sets, the Unicode encodings and binary. |
| ZueciReplacing.StraightThrough | core/src/libzueci/zueci.c:1513-1520 | Binary, and with the flag ISO/IEC 8859-1, ASCII and its invariant subset, pass all bytes. |
| ZueciReplacing.ReplacementIsCharacter | core/src/libzueci/zueci.c:1522-1527 | The replacement characters accepted are those that UTF-8 has in at most three bytes. |
| Zueci.Utf8ToUtf8 | core/src/libzueci/zueci.c:1549-1574 | The replacing UTF-8 loop. |
| Zueci.NextChar | core/src/libzueci/zueci.c:1553-1555 | The inner loop reads one character, an error or to the end of the source. |
| Zueci.PutUtf8 | core/src/libzueci/zueci.c:107-129 | Writes the encoding of a code point and returns its length. |
| Zueci.IsValidUtf8 | core/src/libzueci/zueci.c:90-105 | Accepts exactly the strings of the grammar. |
| ZueciUtf8.AcceptsGrammar | core/src/libzueci/zueci.c:37-105 | The automaton accepts exactly the byte strings of section 4 of RFC 3629. |
| ZueciUtf8.ReadCharGrammar | core/src/libzueci/zueci.c:37-88 | Read from its start state the automaton finds exactly the characters of that grammar, with their lengths and code points. |
| ZueciUtf8.EncodeDecoded | core/src/libzueci/zueci.c:107-129 | A character of the grammar has a scalar value, whose encoding is the character. |
| ZueciUtf8.DecodeEncoded | core/src/libzueci/zueci.c:107-129 | The encoding of a scalar value is a character of the grammar with that value, whatever follows. |
| ZueciConverters.UnicodeConverters | core/src/libzueci/zueci.c:411-556 | Each scalar value survives UTF-16BE/LE and UTF-32BE/LE, whatever bytes follow it. |
| ZueciToEci.WriteRead | core/src/libzueci/zueci.c:411-556 | Each character read in UTF-16 or UTF-32 is written back as the bytes it was read from. |
| ZueciToEci.ByteOrders | core/src/libzueci/zueci.c:411-556 | Big-endian units are the digits of their number to the base 256, highest first, little-endian ones are reversed, and supplementary characters are two surrogates of ten bits each. |
| ZueciLatin1.FromUtf8Exactly | core/src/libzueci/zueci.c:1374-1389 | UTF-8 converts to ISO/IEC 8859-1 if and only if it is valid and all code points are below 0x80 or from 0xA0 to 0xFF, and then each becomes the byte of that number; the error tells which failed first. |
| ZueciLatin1.ToUtf8Exactly | core/src/libzueci/zueci.c:1513-1545 | From ISO/IEC 8859-1 each byte becomes the character of its code point; a C1 control becomes the replacement character with a warning, or an error without one, or passes where the flag says so. |
| ZueciLatin1.Latin1RoundTrip | core/src/libzueci/zueci.c:1346-1603 | What converts to ISO/IEC 8859-1 is restored, for every replacement character and all flags. |
| ZueciLatin1.Latin1Restored | core/src/libzueci/zueci.c:1346-1603 | Every byte string without C1 controls goes to valid UTF-8 and back unchanged. |
| ZueciLatin1.BinaryExactly | core/src/libzueci/zueci.c:1513-1520 | From binary each byte becomes the character of its number. |
| ZueciLatin1.OutputValid | core/src/libzueci/zueci.c:1493-1603 | Whatever the source, ECI, replacement character, flags and tables: what a conversion to UTF-8 puts out is valid UTF-8. |
| ZueciToEci.Utf8ToEci | core/src/libzueci/zueci.c:1346-1427 | Status and output are those of the conversion function; a destination of four bytes per source byte, or of the estimated length when the tables keep to it, is never written past, not even on the way to an error. |
| ZueciToEci.UnicodeRoundTrip | core/src/libzueci/zueci.c:1346-1603 | To UTF-16, UTF-32 or UTF-8 exactly the strings of the grammar convert, all others are reported, and converting back is the identity for every replacement character and all flags. |
| ZueciToEci.UnicodeRestored | core/src/libzueci/zueci.c:1346-1603 | Whatever converts to UTF-8 without a replacement gives valid UTF-8, which converts back to the same bytes. |
| ZueciToEci.DestLenEci | core/src/libzueci/zueci.c:1434-1468 | The estimate: source length plus what the ECI may need on top. |
| ZueciToEci.RoomSuffices | core/src/libzueci/zueci.c:1429-1468 | A conversion never needs more than the estimate, given tables in which no character needs more room than is allowed for it. |
| ZueciToEci.RoomAttained | core/src/libzueci/zueci.c:1429-1468 | The estimate is the exact length for all code points below U+0800 to UTF-16 and UTF-32, and for ASCII to ISO/IEC 8859-1. |
| ZueciToEci.LegacyRoom | core/src/libzueci/zueci.c:1444-1455 | Shift JIS is allowed one byte more for each backslash, GB 18030 four bytes for a character of two in UTF-8. |
| PatternRows.GetPatternRow | core/src/Pattern.h:345-413 | With and without the eight-byte path the result is the same run-length function of the row, counters modulo 65536. |
| PatternRows.ThresholdPatternRow | core/src/ThresholdBinarizer.h:22-50 | The independent encoder computes the same function of the thresholded pixels, reading no further than the last of them. |
| PatternRows.WordFindsChange | core/src/Pattern.h:383-395 | XOR of two unaligned words and counting trailing zeros finds the first change among neighbouring pixels, or that there is none. |
| PatternRows.WordLoop | core/src/Pattern.h:381-400 | The eight-byte loop stays inside the row and counts exactly the pixels it passes. |
| PatternRows.ScalarLoop | core/src/Pattern.h:402-406 | The scalar loop finishes the counts from wherever it starts. |
| PatternRows.PatternMeaning | core/src/Pattern.h:345-413 | The run lengths are odd in number, positive inside, sum to the width and expand back to the row. |
| PatternRows.NoWrap | core/src/Pattern.h:345-413 | For rows up to 65535 wide no counter wraps. |

## Left out

- GenericGFs.Create: table entries are 16-bit in the original, so the size is at most 0x8000.
- DecoderTheorems.ErrorsCorrected: generator base 0 or 1, as in all fields of the program; for other bases the Forney step is right only where `ForneyCorrect` says so.
- GenericGFPolys.GenericGFPoly.AddOrSubtract: operands are different objects, as at every call.
- GenericGFPolys.GenericGFPoly.Divide: dividend, divisor and quotient are different objects, as at every call.
- Memory reuse of vectors and thread-local storage as such; scratch polynomials are ordinary parameters with arbitrary contents.
- Width of `int`: sizes and positions are unbounded numbers, except where 16-bit run counters and tokens are modelled.
- AztecHighLevelEncoder.Encode: texts of at most 32767 bytes, because tokens hold 16-bit positions; beyond that the original truncates them.
- AztecEncoder.Encode: runes are left out, and the percentage of check bits is not negative.
- Optimality of the Aztec encoding, which the pruning does not secure (`PruningLosesABit`): what one comparison can lose is settled exactly, not how the losses of a run add up.
- AztecRoundTrip.Decode: what happens to the content afterwards (empty content, Structured Append, FNC1 and symbology identifiers) is left out, as are runes.
- Detection and sampling of symbols: the mode message is read from a matrix of modules about a known centre, without a perspective transform.
- Data Matrix mode choice by look-ahead, ASCII, X12 and EDIFACT segments, and module placement; look-ahead is an arbitrary function of the position.
- DMC40RoundTrip.SegmentExactly: what follows a segment is any codewords for the rest of the message and any padding, of which only the number is fixed; a single last character without an unlatch before it is sent by the ASCII encoder, as it is when look-ahead stays there.
- DMDataBlock.GetDataBlocks: the sizes of a version are assumed to be those of its table, and at least as many codewords as the version has are given.
- DMBlockRoundTrip.StreamRoundTrip: symbol description, version and row of factors are parameters that are assumed to fit; `DMProgram.ProgramRoundTrip` is for those of the program. Versions of rectangular extension (DMRE) are read, not written.
- Legacy character sets of libzueci (code pages, Shift JIS, Big5, GB 2312, KS X 1001, GBK, GB 18030): any converter that returns nothing or a width within the source and a code point.
- ZueciToEci.RoomSuffices: assumes of those tables that no character needs more room than the estimate allows for it.
- Null arguments and NUL termination in libzueci.
- PatternRows.GetPatternRow: the little-endian branch; the big-endian one and the disabled variant are left out.
- PatternRows.PatternMeaning: rows of set and unset pixels, as bit matrices hold them; the run-length function itself is defined for all bytes.
- Binarizers, image access and the rotation of rows.
