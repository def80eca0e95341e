/** Check words around the stuffed bits and their removal (AZEncoder.cpp:57-67, AZDecoder.cpp:122-171). */
module AztecCheckWords {
  import opened Bits
  import opened BitArrays
  import opened GenericGFs
  import opened Polynomials
  import opened Coefficients
  import opened GenericGFPolys
  import opened ReedSolomonEncoders
  import opened ErrorLocator
  import opened DecoderSpec
  import opened ErrorCorrection
  import opened DecoderTheorems
  import opened ReedSolomonDecoders
  import opened AztecStuffing

  /** The field of a word size: all Aztec fields start their generators at alpha. */
  ghost predicate FieldOf(field: GenericGF, wordSize: nat) {
    field.Valid() && field.size == Pow2(wordSize) && field.generatorBase == 1
  }

  lemma FitElems(field: GenericGF, words: seq<nat>, wordSize: nat)
    requires FieldOf(field, wordSize)
    ensures AllFit(words, wordSize) <==> Elems(field, words)
  {
    hide GenericGF.Valid;
  }

  /** A codeword whose data words are the given ones, as bits behind the unused leading zeros. */
  ghost predicate Protects(field: GenericGF, messageBits: Bitstring, data: seq<nat>, totalBits: nat, wordSize: nat, cw: seq<nat>)
    requires wordSize > 0 && FieldOf(field, wordSize)
  {
    && |cw| == totalBits / wordSize
    && |data| < |cw| < Pow2(wordSize)
    && cw[..|data|] == data
    && IsCodeword(field, cw, |cw| - |data|)
    && messageBits == Falses(totalBits % wordSize) + WordBits(cw, wordSize)
  }

  /** Appends check words; the encoder refuses an empty message and one that leaves no room for check words. */
  method GenerateCheckWords(field: GenericGF, ghost data: seq<nat>, bitArray: Bitstring, totalBits: nat, wordSize: nat)
      returns (outcome: EncodeOutcome, messageBits: BitArray, ghost cw: seq<nat>)
    requires wordSize > 0 && FieldOf(field, wordSize) && totalBits / wordSize < Pow2(wordSize)
    requires AllFit(data, wordSize) && bitArray == WordBits(data, wordSize) && |bitArray| <= totalBits
    ensures fresh(messageBits)
    ensures outcome == Encoded <==> 0 < |data| < totalBits / wordSize
    ensures outcome == Encoded ==> Protects(field, messageBits.bits, data, totalBits, wordSize, cw)
    ensures outcome == Encoded || outcome == InvalidCount
  {
    hide Pow2, WordBits, FromBits, Words, IsCodeword, Ok, OfSeq;
    hide GenericGF.Valid;
    var n := totalBits / wordSize;
    WordsRoom(totalBits, wordSize, |data|);
    WordsOfWordBits(data, wordSize);
    FitElems(field, data, wordSize);
    messageBits := new BitArray();
    cw := [];
    assert bitArray[0..] == bitArray;
    var messageWords := ToInts(bitArray, wordSize, n, 0, |data|);
    var numEC := (totalBits - |bitArray|) / wordSize;
    var encoder := new ReedSolomonEncoder(field);
    assert numEC < n ==> messageWords[..n - numEC] == data;
    outcome := encoder.Encode(messageWords, numEC);
    if outcome == Encoded {
      cw := messageWords[..];
      assert cw[..|data|] == data;
      CodewordFits(field, cw, numEC, wordSize);
      if totalBits % wordSize != 0 {
        messageBits.AppendBits(0, totalBits % wordSize);
      }
      ToBitsOnes(totalBits % wordSize);
      WriteWords(messageBits, messageWords, wordSize);
    }
  }

  lemma CodewordFits(field: GenericGF, cw: seq<nat>, n: nat, wordSize: nat)
    requires FieldOf(field, wordSize) && n + field.generatorBase <= 2 * field.size && IsCodeword(field, cw, n)
    ensures AllFit(cw, wordSize) && Elems(field, cw)
  {
    FitElems(field, cw, wordSize);
  }

  method WriteWords(messageBits: BitArray, words: array<nat>, wordSize: nat)
    modifies messageBits
    ensures messageBits.bits == old(messageBits.bits) + WordBits(words[..], wordSize)
  {
    hide ToBits, WordBits;
    ghost var start := messageBits.bits;
    WordBitsNil(wordSize);
    for i := 0 to words.Length
      invariant messageBits.bits == start + WordBits(words[..i], wordSize)
    {
      messageBits.AppendBits(words[i], wordSize);
      WordBitsSnoc(words[..i], words[i], wordSize);
      assert words[..i + 1] == words[..i] + [words[i]];
    }
    assert words[..words.Length] == words[..];
  }

  lemma WordBitsNil(wordSize: nat)
    ensures WordBits([], wordSize) == []
  {
  }

  /** The number of check words that the bit counts leave. */
  lemma WordsRoom(totalBits: nat, wordSize: nat, words: nat)
    requires wordSize > 0 && words * wordSize <= totalBits
    ensures words <= totalBits / wordSize
    ensures (totalBits - words * wordSize) / wordSize == totalBits / wordSize - words
  {
    var n, r := totalBits / wordSize, totalBits % wordSize;
    assert totalBits == n * wordSize + r;
    if words > n {
      Scaled(n, words, wordSize);
      assert false;
    }
    ModUnique(totalBits - words * wordSize, wordSize, n - words, r);
  }

  // ----- the decoder's side -----

  /** The corrected bits, or what the decoder reports or throws instead. */
  datatype Correction = CorrectedBits(bits: Bitstring, ecLevel: nat) | FormatError | ChecksumError | RuntimeError

  function CodewordSize(layers: nat): (n: nat)
    ensures n in {6, 8, 10, 12}
  {
    if layers <= 2 then 6 else if layers <= 8 then 8 else if layers <= 22 then 10 else 12
  }

  ghost function RawWords(rawbits: Bitstring, wordSize: nat): (words: seq<nat>)
    requires wordSize > 0
    ensures AllFit(words, wordSize)
  {
    WordsFit(rawbits[|rawbits| % wordSize..], wordSize);
    Words(rawbits[|rawbits| % wordSize..], wordSize)
  }

  function EcLevel(numEC: nat, numCodewords: nat): nat
    requires numCodewords > 0
  {
    numEC * 100 / numCodewords
  }

  /** The share of check words among all words in whole percents. */
  lemma EcLevelIsShare(numEC: nat, numCodewords: nat, percent: nat)
    requires numCodewords > 0
    ensures percent == EcLevel(numEC, numCodewords) <==>
      percent * numCodewords <= 100 * numEC < percent * numCodewords + numCodewords
  {
    var n := numEC * 100;
    var q := n / numCodewords;
    assert n == numCodewords * q + n % numCodewords;
    if percent < q {
      Rounded(percent + 1, q, numCodewords);
    } else if percent > q {
      Rounded(q + 1, percent, numCodewords);
    }
  }

  lemma Rounded(a: nat, b: nat, n: nat)
    requires a <= b
    ensures a * n <= b * n
  {
  }

  ghost function Correct(field: GenericGF, wordSize: nat, nbDatablocks: nat, rawbits: Bitstring): Correction
    requires wordSize >= 2 && FieldOf(field, wordSize) && |rawbits| >= wordSize
  {
    hide Decode, Unstuff, Words, Elems, Pow2, EcLevel;
    RawWordsCount(rawbits, wordSize);
    var words := RawWords(rawbits, wordSize);
    FitElems(field, words, wordSize);
    if |words| < nbDatablocks then FormatError
    else
      match Decode(field, words, |words| - nbDatablocks)
      case (Corrected, message) =>
        (match Unstuff(message[..nbDatablocks], wordSize)
         case Unstuffed(bits) => CorrectedBits(bits, EcLevel(|words| - nbDatablocks, |words|))
         case InvalidWord => CorrectedBits([], 0))
      case (Uncorrectable, _) => ChecksumError
      case _ => RuntimeError
  }

  lemma RawWordsCount(rawbits: Bitstring, wordSize: nat)
    requires wordSize > 0
    ensures |RawWords(rawbits, wordSize)| == |rawbits| / wordSize
    ensures |rawbits| == |rawbits| % wordSize + (|rawbits| / wordSize) * wordSize
    ensures |rawbits| >= wordSize ==> |rawbits| / wordSize >= 1
  {
    hide Words;
    WordCount(rawbits[|rawbits| % wordSize..], wordSize, |rawbits| / wordSize);
  }

  method CorrectBits(field: GenericGF, codewordSize: nat, nbDatablocks: nat, rawbits: Bitstring,
                     sigma: GenericGFPoly, omega: GenericGFPoly, q: GenericGFPoly, rLast: GenericGFPoly)
      returns (result: Correction)
    requires codewordSize >= 2 && FieldOf(field, codewordSize) && |rawbits| >= codewordSize
    requires sigma != omega && sigma != q && sigma != rLast && omega != q && omega != rLast && q != rLast
    modifies sigma, omega, q, rLast
    ensures result == Correct(field, codewordSize, nbDatablocks, rawbits)
  {
    hide Pow2, FromBits, Words, Decode, Unstuff, Elems;
    hide GenericGF.Valid;
    var numCodewords := |rawbits| / codewordSize;
    RawWordsCount(rawbits, codewordSize);
    if numCodewords < nbDatablocks {
      return FormatError;
    }
    var numECCodewords := numCodewords - nbDatablocks;
    var dataWords := ToInts(rawbits, codewordSize, numCodewords, |rawbits| % codewordSize, numCodewords);
    assert dataWords[..numCodewords] == dataWords[..];
    FitElems(field, dataWords[..], codewordSize);
    var outcome := ReedSolomonDecode(field, dataWords, numECCodewords, sigma, omega, q, rLast);
    match outcome {
      case Uncorrectable =>
        return ChecksumError;
      case NotReduced =>
        return RuntimeError;
      case OutOfRange =>
        return RuntimeError;
      case Corrected =>
        // drop the check words, then perform the unstuffing operation
        var ok, correctedBits := UnstuffBits(dataWords[..nbDatablocks], codewordSize);
        if !ok {
          return CorrectedBits([], 0);
        }
        return CorrectedBits(correctedBits.bits, EcLevel(numECCodewords, numCodewords));
    }
  }

  // ----- together -----

  /** The words read from protected bits are the codeword. */
  lemma RawWordsOfProtected(field: GenericGF, messageBits: Bitstring, data: seq<nat>, totalBits: nat, wordSize: nat, cw: seq<nat>)
    requires wordSize > 0 && FieldOf(field, wordSize) && Protects(field, messageBits, data, totalBits, wordSize, cw)
    ensures |messageBits| == totalBits && RawWords(messageBits, wordSize) == cw
  {
    hide Pow2, WordBits, FromBits, Words, Ok, OfSeq, IsCodeword;
    hide GenericGF.Valid;
    var r := totalBits % wordSize;
    assert totalBits == (totalBits / wordSize) * wordSize + r;
    assert messageBits[r..] == WordBits(cw, wordSize);
    CodewordFits(field, cw, |cw| - |data|, wordSize);
    WordsOfWordBits(cw, wordSize);
  }

  /** The received bits differ from the codeword in at most half as many words as there are check words. */
  ghost predicate Repairable(received: Bitstring, wordSize: nat, cw: seq<nat>, dataWords: nat)
    requires wordSize > 0
  {
    && 0 < |cw| == |RawWords(received, wordSize)|
    && dataWords <= |cw|
    && Distance(cw, RawWords(received, wordSize)) <= (|cw| - dataWords) / 2
  }

  function Padded(bits: Bitstring, pad: nat): Bitstring {
    bits + Ones(pad)
  }

  /** Whatever happens to at most half as many words as there are check words, the stuffed bits come back. */
  lemma ProtectedBitsCorrected(field: GenericGF, bits: Bitstring, messageBits: Bitstring, totalBits: nat, wordSize: nat,
                               cw: seq<nat>, received: Bitstring) returns (pad: nat)
    requires 2 <= wordSize <= 32 && FieldOf(field, wordSize) && |received| >= wordSize
    requires Protects(field, messageBits, StuffedWords(bits, wordSize), totalBits, wordSize, cw)
    requires Repairable(received, wordSize, cw, |StuffedWords(bits, wordSize)|)
    ensures pad < wordSize
    ensures var n := |StuffedWords(bits, wordSize)|;
      Correct(field, wordSize, n, received) == CorrectedBits(Padded(bits, pad), EcLevel(|cw| - n, |cw|))
  {
    hide Pow2, WordBits, FromBits, Words, Ok, OfSeq, IsCodeword, Decode, Unstuff, StuffedWords, Distance, EcLevel, Elems;
    hide GenericGF.Valid;
    RawWordsCount(received, wordSize);
    pad := StuffUnstuff(bits, wordSize);
    var n := |StuffedWords(bits, wordSize)|;
    FitElems(field, RawWords(received, wordSize), wordSize);
    ErrorsCorrected(field, cw, RawWords(received, wordSize), |cw| - n);
  }

  /** Too few words is the only format error: fewer than the data words there should be, check words or not. */
  lemma FormatErrorExactly(field: GenericGF, wordSize: nat, nbDatablocks: nat, rawbits: Bitstring)
    requires wordSize >= 2 && FieldOf(field, wordSize) && |rawbits| >= wordSize
    ensures Correct(field, wordSize, nbDatablocks, rawbits) == FormatError <==> |rawbits| / wordSize < nbDatablocks
  {
    hide Decode, Unstuff, Words, Elems, Pow2, EcLevel, FieldOf;
    RawWordsCount(rawbits, wordSize);
  }

  /** A data word of all zeros or ones after correction leaves nothing, and no error level. */
  lemma ExtremeWordLeavesNothing(field: GenericGF, wordSize: nat, nbDatablocks: nat, rawbits: Bitstring, k: nat)
    requires 2 <= wordSize && FieldOf(field, wordSize) && |rawbits| >= wordSize
    requires nbDatablocks <= |RawWords(rawbits, wordSize)| && k < nbDatablocks && Elems(field, RawWords(rawbits, wordSize)) && field.Valid()
    requires var (outcome, message) := Decode(field, RawWords(rawbits, wordSize), |RawWords(rawbits, wordSize)| - nbDatablocks);
      outcome == Corrected && (message[k] == 0 || message[k] == Pow2(wordSize) - 1)
    ensures Correct(field, wordSize, nbDatablocks, rawbits) == CorrectedBits([], 0)
  {
    hide Decode, Words, Elems, EcLevel, FieldOf, UnstuffWord;
    var message := Decode(field, RawWords(rawbits, wordSize), |RawWords(rawbits, wordSize)| - nbDatablocks).1;
    ExtremeWordInvalid(message[..nbDatablocks], wordSize, k);
  }

  lemma {:induction false} ExtremeWordInvalid(words: seq<nat>, wordSize: nat, k: nat)
    requires wordSize >= 2 && k < |words| && (words[k] == 0 || words[k] == Pow2(wordSize) - 1)
    ensures Unstuff(words, wordSize) == InvalidWord
    decreases |words|
  {
    hide Pow2, ToBits;
    if k < |words| - 1 {
      ExtremeWordInvalid(words[..|words| - 1], wordSize, k);
    }
  }
}
