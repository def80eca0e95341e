/** Choosing the size of an Aztec symbol and drawing it (core/src/aztec/AZEncoder.cpp:45-83, 178-329). */
module AztecEncoder {
  import StaticFields
  import opened Bits
  import opened BitArrays
  import opened GenericGFs
  import opened ReedSolomonEncoders
  import opened AztecDecoder
  import HighLevel = AztecHighLevelEncoder
  import opened AztecStuffing
  import opened AztecCheckWords
  import opened AztecLayout
  import opened AztecSymbol
  import opened AztecPlacement
  import opened AztecFunctionPatterns

  /** The fields of the mode message and of the four codeword sizes. */
  datatype Fields = Fields(param: GenericGF, data6: GenericGF, data8: GenericGF, data10: GenericGF, data12: GenericGF) {
    ghost predicate Valid() {
      && FieldOf(param, 4) && FieldOf(data6, 6) && FieldOf(data8, 8) && FieldOf(data10, 10) && FieldOf(data12, 12)
    }

    function OfWordSize(wordSize: nat): (field: GenericGF)
      requires Valid() && wordSize in {4, 6, 8, 10, 12}
      ensures FieldOf(field, wordSize)
    {
      if wordSize == 4 then param else if wordSize == 6 then data6 else if wordSize == 8 then data8
      else if wordSize == 10 then data10 else data12
    }
  }

  /** The static fields of the program. */
  method Instances() returns (fields: Fields)
    ensures fields.Valid()
  {
    SmallPowers();
    var param := StaticFields.AztecParam();
    var data6 := StaticFields.AztecData6();
    var data8 := StaticFields.AztecData8();
    var data10 := StaticFields.AztecData10();
    var data12 := StaticFields.AztecData12();
    fields := Fields(param, data6, data8, data10, data12);
  }

  const MAX_NB_BITS := 32
  const MAX_NB_BITS_COMPACT := 4

  const WORD_SIZE: seq<nat> := [
    4, 6, 6, 8, 8, 8, 8, 8, 8, 10, 10, 10, 10, 10, 10, 10, 10,
    10, 10, 10, 10, 10, 10, 12, 12, 12, 12, 12, 12, 12, 12, 12, 12]

  /** Encoder and decoder agree on the codeword size, and every symbol has fewer words than its field has elements. */
  lemma WordSizes(layers: nat, compact: bool)
    requires 1 <= layers <= 32
    ensures WORD_SIZE[layers] == CodewordSize(layers)
    ensures TotalBitsInLayer(layers, compact) >= 100
    ensures TotalBitsInLayer(layers, compact) / CodewordSize(layers) < Pow2(CodewordSize(layers))
  {
    hide Pow2;
    SmallPowers();
    TotalBitsBound(layers, compact);
  }

  lemma TotalBitsBound(layers: nat, compact: bool)
    requires 1 <= layers <= 32
    ensures 100 <= TotalBitsInLayer(layers, compact)
    ensures layers <= 2 ==> TotalBitsInLayer(layers, compact) <= 288
    ensures layers <= 8 ==> TotalBitsInLayer(layers, compact) <= 1920
    ensures layers <= 22 ==> TotalBitsInLayer(layers, compact) <= 10208
    ensures TotalBitsInLayer(layers, compact) <= 19968
  {
    Product(112 + 16 * layers, 144, layers, 2);
    Product(112 + 16 * layers, 240, layers, 8);
    Product(112 + 16 * layers, 464, layers, 22);
    Product(112 + 16 * layers, 624, layers, 32);
    Product(88 + 16 * layers, 112 + 16 * layers, layers, layers);
    Product(104, 88 + 16 * layers, 1, layers);
    Product(104, 112 + 16 * layers, 1, layers);
  }

  lemma Product(a: nat, b: nat, c: nat, d: nat)
    ensures a <= b && c <= d ==> a * c <= b * d
  {
    if a <= b && c <= d {
      assert b * d == a * c + a * (d - c) + (b - a) * d;
      assert a * (d - c) >= 0 && (b - a) * d >= 0;
    }
  }

  // ----- the size -----

  function EccBits(bits: Bitstring, minECCPercent: nat): (n: nat)
    ensures n >= 11
  {
    |bits| * minECCPercent / 100 + 11
  }

  function UsableBits(totalBits: nat, wordSize: nat): int
    requires wordSize > 0
  {
    totalBits - totalBits % wordSize
  }

  /** A symbol can hold the stuffed bits and the check bits asked for. */
  predicate Fits(bits: Bitstring, eccBits: nat, compact: bool, layers: nat)
    requires 1 <= layers <= 32
  {
    var wordSize := WORD_SIZE[layers];
    var stuffed := |StuffedWords(bits, wordSize)| * wordSize;
    && !(compact && stuffed > wordSize * 64)
    && stuffed + eccBits <= UsableBits(TotalBitsInLayer(layers, compact), wordSize)
  }

  datatype Size = NoSize | Chosen(compact: bool, layers: nat)

  /** The first of Compact 1 to 4, Full 4, 5, ... that fits, from candidate i on. */
  function FirstFit(bits: Bitstring, eccBits: nat, i: nat): Size
    decreases 33 - i
  {
    if i > MAX_NB_BITS then NoSize
    else
      var compact := i <= 3;
      var layers := if compact then i + 1 else i;
      if |bits| + eccBits <= TotalBitsInLayer(layers, compact) && Fits(bits, eccBits, compact, layers) then
        Chosen(compact, layers)
      else FirstFit(bits, eccBits, i + 1)
  }

  /** Zero asks for the first fit, a negative number for a compact symbol. */
  function ChooseSize(bits: Bitstring, minECCPercent: nat, userSpecifiedLayers: int): Size {
    var eccBits := EccBits(bits, minECCPercent);
    if userSpecifiedLayers == 0 then FirstFit(bits, eccBits, 0)
    else
      var compact := userSpecifiedLayers < 0;
      var layers := if compact then -userSpecifiedLayers else userSpecifiedLayers;
      if layers > (if compact then MAX_NB_BITS_COMPACT else MAX_NB_BITS) then NoSize
      else if Fits(bits, eccBits, compact, layers) then Chosen(compact, layers)
      else NoSize
  }

  /** A chosen symbol fits; without a request it is the first in the order that does. */
  lemma {:induction false} FirstFitFits(bits: Bitstring, eccBits: nat, i: nat)
    requires i <= 33
    ensures match FirstFit(bits, eccBits, i)
      case NoSize => true
      case Chosen(compact, layers) =>
        && 1 <= layers <= (if compact then MAX_NB_BITS_COMPACT else MAX_NB_BITS)
        && Fits(bits, eccBits, compact, layers)
    decreases 33 - i
  {
    hide Fits, TotalBitsInLayer;
    if i <= MAX_NB_BITS {
      FirstFitFits(bits, eccBits, i + 1);
    }
  }

  lemma ChosenFits(bits: Bitstring, minECCPercent: nat, userSpecifiedLayers: int)
    ensures match ChooseSize(bits, minECCPercent, userSpecifiedLayers)
      case NoSize => true
      case Chosen(compact, layers) =>
        && 1 <= layers <= (if compact then MAX_NB_BITS_COMPACT else MAX_NB_BITS)
        && Fits(bits, EccBits(bits, minECCPercent), compact, layers)
  {
    hide Fits, EccBits, FirstFit;
    FirstFitFits(bits, EccBits(bits, minECCPercent), 0);
  }

  // ----- what the choice means -----

  /** The sizes in the order in which they are tried. */
  function Candidate(i: nat): Size {
    if i <= 3 then Chosen(true, i + 1) else Chosen(false, i)
  }

  /**
   * A symbol is large enough: the bits of its words that no data word takes exceed the percentage asked for by more
   * than ten, and a compact one has no more data words than its mode message can count.
   */
  predicate LargeEnough(bits: Bitstring, minECCPercent: nat, size: Size)
    requires size.Chosen? && 1 <= size.layers <= 32
  {
    var wordSize := CodewordSize(size.layers);
    var data := |StuffedWords(bits, wordSize)|;
    var checkWords := TotalBitsInLayer(size.layers, size.compact) / wordSize - data;
    (size.compact ==> data <= 64) && 100 * (checkWords * wordSize - 10) > minECCPercent * |bits|
  }

  /** The n-th candidate is the first that is large enough, or all 33 are not. */
  ghost predicate IsFirst(bits: Bitstring, minECCPercent: nat, n: nat, size: Size) {
    && n <= 33 && size == (if n < 33 then Candidate(n) else NoSize)
    && (n < 33 ==> LargeEnough(bits, minECCPercent, Candidate(n)))
    && forall i: nat :: i < n ==> !LargeEnough(bits, minECCPercent, Candidate(i))
  }

  /** The right size: the one asked for if it is large enough, otherwise the first large enough. */
  ghost predicate RightSize(bits: Bitstring, minECCPercent: nat, userSpecifiedLayers: int, size: Size) {
    if userSpecifiedLayers == 0 then exists n: nat :: IsFirst(bits, minECCPercent, n, size)
    else
      var asked := Chosen(userSpecifiedLayers < 0, if userSpecifiedLayers < 0 then -userSpecifiedLayers else userSpecifiedLayers);
      size == if asked.layers <= (if asked.compact then 4 else 32) && LargeEnough(bits, minECCPercent, asked) then asked
              else NoSize
  }

  /** Rounding down the percentage and adding eleven bits is asking for more than the percentage and ten. */
  lemma Percentage(n: nat, minECCPercent: nat, spare: int)
    ensures n * minECCPercent / 100 + 11 <= spare <==> 100 * (spare - 10) > minECCPercent * n
  {
    assert n * minECCPercent == minECCPercent * n;
    var p := minECCPercent * n;
    assert p == 100 * (p / 100) + p % 100;
  }

  lemma {:induction false} StuffedAtLeast(bits: Bitstring, wordSize: nat)
    requires wordSize >= 2
    ensures |StuffedWords(bits, wordSize)| * wordSize >= |bits|
    decreases |bits|
  {
    hide NextWord, StuffedWord, Stuffs, Pow2;
    if |bits| > 0 {
      var n := Consumed(NextWord(bits, wordSize), wordSize);
      StuffedAtLeast(Drop(bits, n), wordSize);
      Distributes(|StuffedWords(Drop(bits, n), wordSize)|, wordSize);
    }
  }

  lemma Distributes(n: nat, k: nat)
    ensures (n + 1) * k == n * k + k
  {
  }

  lemma FitsMeans(bits: Bitstring, minECCPercent: nat, compact: bool, layers: nat)
    requires 1 <= layers <= 32
    ensures var eccBits, total := EccBits(bits, minECCPercent), TotalBitsInLayer(layers, compact);
      LargeEnough(bits, minECCPercent, Chosen(compact, layers)) <==>
        (|bits| + eccBits <= total && Fits(bits, eccBits, compact, layers))
  {
    hide TotalBitsInLayer, StuffedWords;
    WordSizes(layers, compact);
    var wordSize, total := WORD_SIZE[layers], TotalBitsInLayer(layers, compact);
    var data := |StuffedWords(bits, wordSize)|;
    StuffedAtLeast(bits, wordSize);
    var words := total / wordSize;
    Usable(total, wordSize, data);
    Percentage(|bits|, minECCPercent, (words - data) * wordSize);
    LimitInWords(data, wordSize);
  }

  lemma Usable(total: nat, wordSize: nat, data: nat)
    requires wordSize > 0
    ensures UsableBits(total, wordSize) - data * wordSize == (total / wordSize - data) * wordSize
    ensures UsableBits(total, wordSize) <= total
  {
    assert total == wordSize * (total / wordSize) + total % wordSize;
    assert (total / wordSize - data) * wordSize == wordSize * (total / wordSize) - data * wordSize;
  }

  lemma LimitInWords(data: nat, wordSize: nat)
    requires wordSize > 0
    ensures data * wordSize > wordSize * 64 <==> data > 64
  {
    Product(wordSize, wordSize, data, 64);
    if data > 64 {
      Product(wordSize, wordSize, 65, data);
    }
  }

  lemma {:induction false} FirstFitMeans(bits: Bitstring, minECCPercent: nat, i: nat) returns (n: nat)
    requires i <= 33
    ensures i <= n <= 33 && FirstFit(bits, EccBits(bits, minECCPercent), i) == (if n < 33 then Candidate(n) else NoSize)
    ensures n < 33 ==> LargeEnough(bits, minECCPercent, Candidate(n))
    ensures forall j: nat :: i <= j < n ==> !LargeEnough(bits, minECCPercent, Candidate(j))
    decreases 33 - i
  {
    hide LargeEnough, Fits, TotalBitsInLayer, EccBits;
    n := i;
    if i < 33 {
      FitsMeans(bits, minECCPercent, Candidate(i).compact, Candidate(i).layers);
      if !LargeEnough(bits, minECCPercent, Candidate(i)) {
        n := FirstFitMeans(bits, minECCPercent, i + 1);
      }
    }
  }

  /** There is only one right size. */
  lemma RightSizeUnique(bits: Bitstring, minECCPercent: nat, userSpecifiedLayers: int, size: Size, size': Size)
    requires RightSize(bits, minECCPercent, userSpecifiedLayers, size)
    requires RightSize(bits, minECCPercent, userSpecifiedLayers, size')
    ensures size == size'
  {
    hide LargeEnough;
  }

  /** The choice is the right size. */
  lemma ChoiceIsRight(bits: Bitstring, minECCPercent: nat, userSpecifiedLayers: int)
    ensures RightSize(bits, minECCPercent, userSpecifiedLayers, ChooseSize(bits, minECCPercent, userSpecifiedLayers))
  {
    hide LargeEnough, Fits, TotalBitsInLayer, EccBits;
    if userSpecifiedLayers == 0 {
      var n := FirstFitMeans(bits, minECCPercent, 0);
      assert IsFirst(bits, minECCPercent, n, ChooseSize(bits, minECCPercent, userSpecifiedLayers));
    } else {
      var compact := userSpecifiedLayers < 0;
      var layers := if compact then -userSpecifiedLayers else userSpecifiedLayers;
      if layers <= (if compact then 4 else 32) {
        FitsMeans(bits, minECCPercent, compact, layers);
        FitsTotal(bits, minECCPercent, compact, layers);
      }
    }
  }

  lemma FitsTotal(bits: Bitstring, minECCPercent: nat, compact: bool, layers: nat)
    requires 1 <= layers <= 32
    ensures var eccBits, total := EccBits(bits, minECCPercent), TotalBitsInLayer(layers, compact);
      Fits(bits, eccBits, compact, layers) ==> |bits| + eccBits <= total
  {
    hide TotalBitsInLayer, StuffedWords, EccBits;
    WordSizes(layers, compact);
    StuffedAtLeast(bits, WORD_SIZE[layers]);
    Usable(TotalBitsInLayer(layers, compact), WORD_SIZE[layers], 0);
  }

  method ChooseFirstFit(bits: Bitstring, eccBits: nat)
      returns (size: Size, stuffedBits: Bitstring)
    ensures size == FirstFit(bits, eccBits, 0)
    ensures size.Chosen? ==> 1 <= size.layers <= 32
    ensures size.Chosen? ==>
      stuffedBits == WordBits(StuffedWords(bits, WORD_SIZE[size.layers]), WORD_SIZE[size.layers])
  {
    hide TotalBitsInLayer, StuffedWords, WordBits, UsableBits;
    var wordSize := 0;
    stuffedBits := [];
    var i := 0;
    while true
      invariant 0 <= i <= 33 && FirstFit(bits, eccBits, i) == FirstFit(bits, eccBits, 0)
      invariant wordSize == 0 || wordSize >= 2
      invariant wordSize >= 2 ==> stuffedBits == WordBits(StuffedWords(bits, wordSize), wordSize)
      decreases 33 - i
    {
      if i > MAX_NB_BITS {
        return NoSize, [];
      }
      var compact := i <= 3;
      var layers := if compact then i + 1 else i;
      var totalBitsInLayer := TotalBitsInLayer(layers, compact);
      if |bits| + eccBits <= totalBitsInLayer {
        // stuff the bits if this is the first opportunity, or if the word size has changed
        if wordSize != WORD_SIZE[layers] {
          wordSize := WORD_SIZE[layers];
          var out := StuffBits(bits, wordSize);
          stuffedBits := out.bits;
        }
        var usableBitsInLayers := UsableBits(totalBitsInLayer, wordSize);
        if !(compact && |stuffedBits| > wordSize * 64) {
          if |stuffedBits| + eccBits <= usableBitsInLayers {
            return Chosen(compact, layers), stuffedBits;
          }
        }
      }
      i := i + 1;
    }
  }

  method ChooseSizeAndStuff(bits: Bitstring, minECCPercent: nat, userSpecifiedLayers: int)
      returns (size: Size, stuffedBits: Bitstring)
    ensures size == ChooseSize(bits, minECCPercent, userSpecifiedLayers)
    ensures size.Chosen? ==> 1 <= size.layers <= 32
    ensures size.Chosen? ==>
      stuffedBits == WordBits(StuffedWords(bits, WORD_SIZE[size.layers]), WORD_SIZE[size.layers])
  {
    hide TotalBitsInLayer, StuffedWords, WordBits, UsableBits, EccBits, FirstFit;
    var eccBits := EccBits(bits, minECCPercent);
    if userSpecifiedLayers == 0 {
      size, stuffedBits := ChooseFirstFit(bits, eccBits);
      return;
    }
    var compact := userSpecifiedLayers < 0;
    var layers := if compact then -userSpecifiedLayers else userSpecifiedLayers;
    if layers > (if compact then MAX_NB_BITS_COMPACT else MAX_NB_BITS) {
      return NoSize, [];
    }
    var totalBitsInLayer := TotalBitsInLayer(layers, compact);
    var wordSize := WORD_SIZE[layers];
    var usableBitsInLayers := UsableBits(totalBitsInLayer, wordSize);
    var out := StuffBits(bits, wordSize);
    if |out.bits| + eccBits > usableBitsInLayers {
      return NoSize, [];
    }
    if compact && |out.bits| > wordSize * 64 {
      return NoSize, [];
    }
    return Chosen(compact, layers), out.bits;
  }

  // ----- the mode message -----

  /** Layers and data words, each less one, in 2 + 6 or 5 + 11 bits. */
  function ModeBits(compact: bool, layers: int, messageSizeInWords: int): Bitstring {
    if compact then ToBits(layers - 1, 2) + ToBits(messageSizeInWords - 1, 6)
    else ToBits(layers - 1, 5) + ToBits(messageSizeInWords - 1, 11)
  }

  /** The first bits of the mode message give back the layers and the number of data words. */
  lemma ModeBitsReadBack(compact: bool, layers: nat, messageSizeInWords: nat)
    requires 1 <= layers <= (if compact then 4 else 32) && 1 <= messageSizeInWords <= (if compact then 64 else 2048)
    ensures var bits, n := ModeBits(compact, layers, messageSizeInWords), if compact then 2 else 5;
      FromBits(bits[..n]) + 1 == layers && FromBits(bits[n..]) + 1 == messageSizeInWords
  {
    hide Pow2, ToBits, FromBits;
    SmallPowers();
    if compact {
      TwoNumbers(layers - 1, 2, messageSizeInWords - 1, 6);
    } else {
      TwoNumbers(layers - 1, 5, messageSizeInWords - 1, 11);
    }
  }

  lemma TwoNumbers(a: nat, m: nat, b: nat, n: nat)
    requires a < Pow2(m) && b < Pow2(n)
    ensures var bits := ToBits(a, m) + ToBits(b, n);
      FromBits(bits[..m]) == a && FromBits(bits[m..]) == b
  {
    hide Pow2, ToBits, FromBits;
    FromToBits(a, m);
    FromToBits(b, n);
    SplitAt(ToBits(a, m), ToBits(b, n));
  }

  function ModeTotal(compact: bool): nat {
    if compact then 28 else 40
  }

  /** The mode message protects its bits by 5 or 6 check words. */
  ghost predicate IsModeMessage(field: GenericGF, compact: bool, layers: nat, messageSizeInWords: nat,
                                modeMessage: Bitstring, cw: seq<nat>)
    requires FieldOf(field, 4)
  {
    Protects(field, modeMessage, Words(ModeBits(compact, layers, messageSizeInWords), 4), ModeTotal(compact), 4, cw)
  }

  method GenerateModeMessage(field: GenericGF, compact: bool, layers: nat, messageSizeInWords: nat)
      returns (modeMessage: BitArray, ghost cw: seq<nat>)
    requires FieldOf(field, 4)
    ensures fresh(modeMessage) && |modeMessage.bits| == ModeTotal(compact)
    ensures IsModeMessage(field, compact, layers, messageSizeInWords, modeMessage.bits, cw)
  {
    hide Pow2, ToBits, FromBits, Words, Protects, FieldOf, WordBits, AllFit;
    SmallPowers();
    var message := new BitArray();
    if compact {
      message.AppendBits(layers - 1, 2);
      message.AppendBits(messageSizeInWords - 1, 6);
    } else {
      message.AppendBits(layers - 1, 5);
      message.AppendBits(messageSizeInWords - 1, 11);
    }
    assert message.bits == ModeBits(compact, layers, messageSizeInWords);
    ghost var data := Words(message.bits, 4);
    CutInWords(message.bits, 4, if compact then 2 else 4);
    var outcome;
    outcome, modeMessage, cw := GenerateCheckWords(field, data, message.bits, ModeTotal(compact), 4);
    assert outcome == Encoded;
    ProtectedLength(field, modeMessage.bits, data, ModeTotal(compact), 4, cw);
  }

  lemma CutInWords(bits: Bitstring, wordSize: nat, n: nat)
    requires wordSize > 0 && |bits| == n * wordSize
    ensures var words := Words(bits, wordSize);
      AllFit(words, wordSize) && |words| == n && WordBits(words, wordSize) == bits
  {
    hide *;
    WordsFit(bits, wordSize);
    WordCount(bits, wordSize, n);
    WordBitsOfWords(bits, wordSize, n);
  }

  lemma ProtectedLength(field: GenericGF, messageBits: Bitstring, data: seq<nat>, totalBits: nat, wordSize: nat, cw: seq<nat>)
    requires wordSize > 0 && FieldOf(field, wordSize) && Protects(field, messageBits, data, totalBits, wordSize, cw)
    ensures |messageBits| == totalBits
  {
    RawWordsOfProtected(field, messageBits, data, totalBits, wordSize, cw);
  }

  // ----- the symbol -----

  datatype EncodeResult = InvalidArgument
    | Symbol(compact: bool, size: nat, layers: nat, codeWords: nat, matrix: array2<bool>)

  /** What the dark modules of a symbol for the text are made of. */
  ghost predicate IsSymbolFor(fields: Fields, text: seq<byte>, compact: bool, layers: nat, codeWords: nat,
                              dark: set<Cell>, cw: seq<nat>)
    requires fields.Valid() && |text| <= 0x7FFF
  {
    && 1 <= layers <= 32
    && exists messageBits: Bitstring, modeMessage: Bitstring, modeCw: seq<nat> ::
         Composes(fields, text, compact, layers, codeWords, dark, cw, messageBits, modeMessage, modeCw)
  }

  ghost predicate Composes(fields: Fields, text: seq<byte>, compact: bool, layers: nat, codeWords: nat, dark: set<Cell>,
                           cw: seq<nat>, messageBits: Bitstring, modeMessage: Bitstring, modeCw: seq<nat>)
    requires fields.Valid() && |text| <= 0x7FFF && 1 <= layers <= 32
  {
    var wordSize := CodewordSize(layers);
    var data := StuffedWords(HighLevel.HighLevelBits(text), wordSize);
    && codeWords == |data| > 0
    && Protects(fields.OfWordSize(wordSize), messageBits, data, TotalBitsInLayer(layers, compact), wordSize, cw)
    && IsModeMessage(fields.param, compact, layers, codeWords, modeMessage, modeCw)
    && |messageBits| == TotalBitsInLayer(layers, compact)
    && |modeMessage| == 4 * ModeSide(compact)
    && Shows(compact, layers, messageBits, modeMessage, dark)
  }

  /**
   * The encoder. It refuses a text exactly when it is empty, since there would be no data words, or when no symbol
   * of the kind asked for has room.
   */
  method Encode(fields: Fields, data: seq<byte>, minECCPercent: nat, userSpecifiedLayers: int)
      returns (result: EncodeResult, ghost cw: seq<nat>)
    requires fields.Valid() && |data| <= 0x7FFF
    requires userSpecifiedLayers != 0xFF // a rune
    ensures match result
      case InvalidArgument =>
        || HighLevel.HighLevelBits(data) == []
        || RightSize(HighLevel.HighLevelBits(data), minECCPercent, userSpecifiedLayers, NoSize)
      case Symbol(compact, size, layers, codeWords, matrix) =>
        && HighLevel.HighLevelBits(data) != []
        && RightSize(HighLevel.HighLevelBits(data), minECCPercent, userSpecifiedLayers, Chosen(compact, layers))
        && fresh(matrix) && matrix.Length0 == matrix.Length1 == size == MatrixSize(compact, layers)
        && IsSymbolFor(fields, data, compact, layers, codeWords, Dark(matrix), cw)
  {
    hide *;
    cw := [];
    var bits := HighLevel.Encode(data);
    var size, stuffedBits := ChooseSizeAndStuff(bits.bits, minECCPercent, userSpecifiedLayers);
    ChoiceIsRight(bits.bits, minECCPercent, userSpecifiedLayers);
    if size == NoSize {
      return InvalidArgument, cw;
    }
    var compact, layers := size.compact, size.layers;
    SizeForWords(bits.bits, minECCPercent, userSpecifiedLayers, compact, layers);
    var totalBitsInLayer := TotalBitsInLayer(layers, compact);
    var wordSize := WORD_SIZE[layers];
    ghost var words := StuffedWords(bits.bits, wordSize);
    var field := fields.OfWordSize(wordSize);
    var outcome, messageBits;
    outcome, messageBits, cw := GenerateCheckWords(field, words, stuffedBits, totalBitsInLayer, wordSize);
    if outcome != Encoded {
      return InvalidArgument, cw;
    }
    var messageSizeInWords := |stuffedBits| / wordSize;
    WordBitsCount(words, wordSize);
    ParamField(fields);
    var modeMessage, modeCw := GenerateModeMessage(fields.param, compact, layers, messageSizeInWords);
    ProtectedLength(field, messageBits.bits, words, totalBitsInLayer, wordSize, cw);
    ModeLength(compact);
    var matrix := DrawSymbol(compact, layers, messageBits.bits, modeMessage.bits);
    Composed(fields, data, compact, layers, messageSizeInWords, Dark(matrix), cw, messageBits.bits, modeMessage.bits, modeCw);
    result := Symbol(compact, matrix.Length0, layers, messageSizeInWords, matrix);
  }

  lemma ModeLength(compact: bool)
    ensures ModeTotal(compact) == 4 * ModeSide(compact)
  {
  }

  lemma WordBitsCount(words: seq<nat>, wordSize: nat)
    requires wordSize > 0
    ensures |WordBits(words, wordSize)| / wordSize == |words|
  {
    ModUnique(|words| * wordSize, wordSize, |words|, 0);
  }

  /** A size that was chosen leaves room for check words, and its words fit the field. */
  lemma SizeForWords(bits: Bitstring, minECCPercent: nat, userSpecifiedLayers: int, compact: bool, layers: nat)
    requires ChooseSize(bits, minECCPercent, userSpecifiedLayers) == Chosen(compact, layers)
    ensures |WORD_SIZE| == 33 && 1 <= layers <= 32 && WORD_SIZE[layers] == CodewordSize(layers)
    ensures WORD_SIZE[layers] in {4, 6, 8, 10, 12} && 2 <= WORD_SIZE[layers] <= 32
    ensures TotalBitsInLayer(layers, compact) / WORD_SIZE[layers] < Pow2(WORD_SIZE[layers])
    ensures var words := StuffedWords(bits, WORD_SIZE[layers]);
      && AllFit(words, WORD_SIZE[layers])
      && |WordBits(words, WORD_SIZE[layers])| <= TotalBitsInLayer(layers, compact)
      && |words| < TotalBitsInLayer(layers, compact) / WORD_SIZE[layers]
      && (|words| == 0 <==> bits == [])
  {
    hide ChooseSize, TotalBitsInLayer, Pow2, WordBits, StuffedWords, UsableBits, EccBits;
    ChosenFits(bits, minECCPercent, userSpecifiedLayers);
    WordSizes(layers, compact);
    var wordSize, total := WORD_SIZE[layers], TotalBitsInLayer(layers, compact);
    StuffedFacts(bits, wordSize);
    RoomForCheckWords(total, wordSize, |StuffedWords(bits, wordSize)|);
  }

  lemma StuffedFacts(bits: Bitstring, wordSize: nat)
    requires 2 <= wordSize <= 32
    ensures var words := StuffedWords(bits, wordSize);
      && AllFit(words, wordSize)
      && |WordBits(words, wordSize)| == |words| * wordSize
      && (|words| == 0 <==> bits == [])
  {
    hide Pow2;
    var pad := StuffUnstuff(bits, wordSize);
  }

  lemma RoomForCheckWords(total: nat, wordSize: nat, words: nat)
    requires wordSize > 0 && words * wordSize < UsableBits(total, wordSize)
    ensures words < total / wordSize && words * wordSize <= total
  {
    var n := total / wordSize;
    assert UsableBits(total, wordSize) == n * wordSize;
    Less(words, n, wordSize);
  }

  lemma Less(k: nat, n: nat, w: nat)
    requires k * w < n * w
    ensures k < n
  {
    if k >= n {
      Product(n, k, w, w);
      assert false;
    }
  }

  lemma ParamField(fields: Fields)
    requires fields.Valid()
    ensures FieldOf(fields.param, 4)
  {
  }

  lemma Composed(fields: Fields, text: seq<byte>, compact: bool, layers: nat, codeWords: nat, dark: set<Cell>,
                 cw: seq<nat>, messageBits: Bitstring, modeMessage: Bitstring, modeCw: seq<nat>)
    requires fields.Valid() && |text| <= 0x7FFF && 1 <= layers <= 32
    requires CodewordSize(layers) >= 2 && CodewordSize(layers) in {4, 6, 8, 10, 12}
    requires codeWords == |StuffedWords(HighLevel.HighLevelBits(text), CodewordSize(layers))| > 0
    requires Protects(fields.OfWordSize(CodewordSize(layers)), messageBits,
                      StuffedWords(HighLevel.HighLevelBits(text), CodewordSize(layers)),
                      TotalBitsInLayer(layers, compact), CodewordSize(layers), cw)
    requires FieldOf(fields.param, 4) && IsModeMessage(fields.param, compact, layers, codeWords, modeMessage, modeCw)
    requires |messageBits| == TotalBitsInLayer(layers, compact) && |modeMessage| == 4 * ModeSide(compact)
    requires Shows(compact, layers, messageBits, modeMessage, dark)
    ensures IsSymbolFor(fields, text, compact, layers, codeWords, dark, cw)
  {
    hide Protects, IsModeMessage, Shows, StuffedWords, HighLevel.HighLevelBits;
    assert Composes(fields, text, compact, layers, codeWords, dark, cw, messageBits, modeMessage, modeCw);
  }
}
