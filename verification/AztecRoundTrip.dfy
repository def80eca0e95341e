/** From text to symbol and back (core/src/aztec/AZDecoder.cpp:366-378 against core/src/aztec/AZEncoder.cpp:178-329). */
module AztecRoundTrip {
  import opened Bits
  import opened BitArrays
  import opened GenericGFs
  import opened GenericGFPolys
  import opened ReedSolomonEncoders
  import ErrorCorrection
  import DecoderTheorems
  import opened AztecDecoder
  import HighLevel = AztecHighLevelEncoder
  import opened AztecStuffing
  import opened AztecCheckWords
  import opened AztecLayout
  import opened AztecSymbol
  import opened AztecPlacement
  import opened AztecFunctionPatterns
  import opened AztecEncoder

  /** What the decoder makes of a symbol: its content and error correction level, or the failure. */
  datatype SymbolResult = Read(result: DecodeResult, ecLevel: nat) | Failed(correction: Correction)

  ghost function CorrectSymbol(fields: Fields, compact: bool, layers: nat, nbDatablocks: nat, dark: set<Cell>): Correction
    requires fields.Valid() && 1 <= layers <= 32
  {
    hide Correct, Extracted, TotalBitsInLayer, FieldOf;
    WordSizes(layers, compact);
    Correct(fields.OfWordSize(CodewordSize(layers)), CodewordSize(layers), nbDatablocks, Extracted(compact, layers, dark))
  }

  ghost function ReadSymbol(fields: Fields, compact: bool, layers: nat, nbDatablocks: nat, dark: set<Cell>): SymbolResult
    requires fields.Valid() && 1 <= layers <= 32
  {
    match CorrectSymbol(fields, compact, layers, nbDatablocks, dark)
    case CorrectedBits(bits, ecLevel) => Read(DecodeBits(bits, Upper, Upper, EMPTY), ecLevel)
    case failure => Failed(failure)
  }

  /** The decoder for a sampled symbol; everything it does with the content afterwards is left out. */
  method Decode(fields: Fields, matrix: array2<bool>, compact: bool, layers: nat, nbDatablocks: nat,
                sigma: GenericGFPoly, omega: GenericGFPoly, q: GenericGFPoly, rLast: GenericGFPoly)
      returns (result: SymbolResult)
    requires fields.Valid() && 1 <= layers <= 32
    requires matrix.Length0 == matrix.Length1 == MatrixSize(compact, layers)
    requires sigma != omega && sigma != q && sigma != rLast && omega != q && omega != rLast && q != rLast
    modifies sigma, omega, q, rLast
    ensures result == ReadSymbol(fields, compact, layers, nbDatablocks, Dark(matrix))
  {
    hide Correct, Extracted, DecodeBits, TotalBitsInLayer, FieldOf, Dark, MatrixSize;
    WordSizes(layers, compact);
    var rawbits := ExtractBits(matrix, compact, layers);
    var codewordSize := CodewordSize(layers);
    var correction := CorrectBits(fields.OfWordSize(codewordSize), codewordSize, nbDatablocks, rawbits, sigma, omega, q, rLast);
    match correction {
      case CorrectedBits(bits, ecLevel) =>
        var content := DecodeContent(bits);
        return Read(content, ecLevel);
      case failure =>
        return Failed(failure);
    }
  }

  /** Few enough codewords differ from those of the symbol, counting the check words not spent on data. */
  ghost predicate Damaged(compact: bool, layers: nat, codeWords: nat, cw: seq<nat>, received: set<Cell>)
    requires 1 <= layers
  {
    Repairable(Extracted(compact, layers, received), CodewordSize(layers), cw, codeWords)
  }

  /** The high-level bits come back, followed by less than a word of ones. */
  lemma BitsRestored(fields: Fields, text: seq<byte>, compact: bool, layers: nat, codeWords: nat, dark: set<Cell>,
                     cw: seq<nat>, messageBits: Bitstring, modeMessage: Bitstring, modeCw: seq<nat>, received: set<Cell>)
      returns (pad: nat)
    requires fields.Valid() && |text| <= 0x7FFF && 1 <= layers <= 32
    requires Composes(fields, text, compact, layers, codeWords, dark, cw, messageBits, modeMessage, modeCw)
    requires Damaged(compact, layers, codeWords, cw, received)
    ensures pad < 12 && codeWords < |cw|
    ensures CorrectSymbol(fields, compact, layers, codeWords, received)
      == CorrectedBits(Padded(HighLevel.HighLevelBits(text), pad), EcLevel(|cw| - codeWords, |cw|))
  {
    hide *;
    TotalBitsBound(layers, compact);
    ComposedOf(fields, text, compact, layers, codeWords, dark, cw, messageBits, modeMessage, modeCw);
    CorrectSymbolIs(fields, compact, layers, codeWords, received);
    DamagedIs(compact, layers, codeWords, cw, received);
    var wordSize := CodewordSize(layers);
    pad := ProtectedBitsCorrected(fields.OfWordSize(wordSize), HighLevel.HighLevelBits(text), messageBits,
                                  TotalBitsInLayer(layers, compact), wordSize, cw, Extracted(compact, layers, received));
  }

  lemma ComposedOf(fields: Fields, text: seq<byte>, compact: bool, layers: nat, codeWords: nat, dark: set<Cell>,
                   cw: seq<nat>, messageBits: Bitstring, modeMessage: Bitstring, modeCw: seq<nat>)
    requires fields.Valid() && |text| <= 0x7FFF && 1 <= layers <= 32
    requires Composes(fields, text, compact, layers, codeWords, dark, cw, messageBits, modeMessage, modeCw)
    ensures var wordSize := CodewordSize(layers);
      var data := StuffedWords(HighLevel.HighLevelBits(text), wordSize);
      && FieldOf(fields.OfWordSize(wordSize), wordSize)
      && codeWords == |data| < |cw|
      && Protects(fields.OfWordSize(wordSize), messageBits, data, TotalBitsInLayer(layers, compact), wordSize, cw)
  {
    hide FieldOf, IsModeMessage, Shows, StuffedWords, HighLevel.HighLevelBits, IsCodeword, WordBits, Pow2, TotalBitsInLayer;
  }

  lemma CorrectSymbolIs(fields: Fields, compact: bool, layers: nat, nbDatablocks: nat, dark: set<Cell>)
    requires fields.Valid() && 1 <= layers <= 32 && |Extracted(compact, layers, dark)| >= CodewordSize(layers)
    ensures CorrectSymbol(fields, compact, layers, nbDatablocks, dark) ==
      Correct(fields.OfWordSize(CodewordSize(layers)), CodewordSize(layers), nbDatablocks, Extracted(compact, layers, dark))
  {
    hide Correct, Extracted, FieldOf, Fields.Valid;
  }

  lemma DamagedIs(compact: bool, layers: nat, codeWords: nat, cw: seq<nat>, received: set<Cell>)
    requires 1 <= layers && Damaged(compact, layers, codeWords, cw, received)
    ensures Repairable(Extracted(compact, layers, received), CodewordSize(layers), cw, codeWords)
  {
  }

  /**
   * Every symbol drawn for a text reads back as that text, byte for byte and without ECI or FNC1, whatever became of
   * half as many codewords as there are check words, and of all other modules.
   */
  lemma SymbolRoundTrip(fields: Fields, text: seq<byte>, compact: bool, layers: nat, codeWords: nat,
                        dark: set<Cell>, cw: seq<nat>, received: set<Cell>)
    requires fields.Valid() && |text| <= 0x7FFF
    requires IsSymbolFor(fields, text, compact, layers, codeWords, dark, cw)
    requires Damaged(compact, layers, codeWords, cw, received)
    ensures codeWords < |cw|
    ensures ReadSymbol(fields, compact, layers, codeWords, received) ==
            Read(Decoded(Content(text, [], false)), EcLevel(|cw| - codeWords, |cw|))
  {
    hide Extracted, DecodeBits, TotalBitsInLayer, FieldOf, Damaged, CorrectSymbol, EcLevel, HighLevel.HighLevelBits, Composes;
    var messageBits, modeMessage, modeCw :|
      Composes(fields, text, compact, layers, codeWords, dark, cw, messageBits, modeMessage, modeCw);
    var pad := BitsRestored(fields, text, compact, layers, codeWords, dark, cw, messageBits, modeMessage, modeCw, received);
    HighLevel.TextRoundTrip(text, pad);
  }

  /** In particular the undamaged symbol does. */
  lemma CleanSymbol(fields: Fields, text: seq<byte>, compact: bool, layers: nat, codeWords: nat,
                    dark: set<Cell>, cw: seq<nat>)
    requires fields.Valid() && |text| <= 0x7FFF
    requires IsSymbolFor(fields, text, compact, layers, codeWords, dark, cw)
    ensures Damaged(compact, layers, codeWords, cw, dark)
    ensures ReadSymbol(fields, compact, layers, codeWords, dark).Read?
    ensures ReadSymbol(fields, compact, layers, codeWords, dark).result == Decoded(Content(text, [], false))
  {
    hide Extracted, DecodeBits, TotalBitsInLayer, FieldOf, IsModeMessage, Shows, ReadSymbol;
    hide StuffedWords, EcLevel, HighLevel.HighLevelBits, RawWords, ErrorCorrection.Distance, WordBits;
    WordSizes(layers, compact);
    var messageBits, modeMessage, modeCw :|
      Composes(fields, text, compact, layers, codeWords, dark, cw, messageBits, modeMessage, modeCw);
    var wordSize := CodewordSize(layers);
    var data := StuffedWords(HighLevel.HighLevelBits(text), wordSize);
    ExtractedFromSymbol(compact, layers, messageBits, modeMessage, dark);
    RawWordsOfProtected(fields.OfWordSize(wordSize), messageBits, data, TotalBitsInLayer(layers, compact), wordSize, cw);
    DecoderTheorems.DistanceSelf(cw);
    SymbolRoundTrip(fields, text, compact, layers, codeWords, dark, cw, dark);
  }
}
