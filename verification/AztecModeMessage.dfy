/** Reading the mode message of an Aztec symbol, and its layers and data words from it (core/src/aztec/AZDetector.cpp:279-355). */
module AztecModeMessage {
  import opened Bits
  import opened BitArrays
  import opened GenericGFs
  import opened Coefficients
  import opened GenericGFPolys
  import opened DecoderSpec
  import ErrorCorrection
  import opened DecoderTheorems
  import opened ReedSolomonEncoders
  import opened ReedSolomonDecoders
  import opened AztecCheckWords
  import opened AztecLayout
  import opened AztecSymbol
  import opened AztecFunctionPatterns
  import opened AztecEncoder
  import HighLevel = AztecHighLevelEncoder
  import opened AztecDecoder
  import opened AztecStuffing
  import RoundTrip = AztecRoundTrip

  // ----- where the detector looks -----

  /** The corners clockwise from the top left. */
  function Corner(side: nat): Cell {
    match side case 0 => (-1, -1) case 1 => (1, -1) case 2 => (1, 1) case _ => (-1, 1)
  }

  /** The step from a corner to the next. */
  function NextStep(d: Cell): Cell {
    if d.0 == d.1 then (-d.0, 0) else (0, -d.1)
  }

  function StepCell(compact: bool, center: int, side: nat, i: int): Cell {
    var radius, d := PatternRadius(compact), Corner(side);
    (center + radius * d.0 + i * NextStep(d).0, center + radius * d.1 + i * NextStep(d).1)
  }

  /** The module of bit n: from two steps behind a corner to two before the next, without the middle of a full symbol. */
  function ReadCell(compact: bool, center: int, n: nat): Cell {
    var side, i := n / ModeSide(compact), n % ModeSide(compact) + 2;
    StepCell(compact, center, side, if !compact && i >= 7 then i + 1 else i)
  }

  lemma SideOf(size: nat, side: nat, n: nat)
    requires size in {7, 10} && side < 4 && side * size <= n < (side + 1) * size
    ensures n / size == side && n % size == n - side * size
  {
    if size == 7 {
    } else {
    }
  }

  lemma StepIsModeCell(compact: bool, center: int, side: nat, i: nat)
    requires side < 4 && i < ModeSide(compact)
    ensures StepCell(compact, center, side, if !compact && i >= 5 then i + 3 else i + 2)
      == ModeCell(compact, center, side * ModeSide(compact) + i)
  {
    if compact {
    } else {
      assert i / 5 == if i >= 5 then 1 else 0;
      assert (9 - i) / 5 == if i >= 5 then 0 else 1;
    }
  }

  /** The detector looks for each bit where the encoder has drawn it. */
  lemma ReadsWhereDrawn(compact: bool, center: int, n: nat)
    requires n < 4 * ModeSide(compact)
    ensures ReadCell(compact, center, n) == ModeCell(compact, center, n)
  {
    hide StepCell, ModeCell;
    var size := ModeSide(compact);
    var side := if n < size then 0 else if n < 2 * size then 1 else if n < 3 * size then 2 else 3;
    SideOf(size, side, n);
    StepIsModeCell(compact, center, side, n - side * size);
  }

  /** The bits between the corners, clockwise. */
  function BitsRead(compact: bool, center: int, dark: set<Cell>): (bits: Bitstring)
    ensures |bits| == 4 * ModeSide(compact)
  {
    seq(4 * ModeSide(compact), n requires 0 <= n < 4 * ModeSide(compact) => ReadCell(compact, center, n) in dark)
  }

  // ----- correcting them -----

  datatype Mode = Unreadable | Mode(value: nat, isRune: bool)

  function DataWords(compact: bool): nat {
    if compact then 2 else 4
  }

  /** Four bits a word. */
  function Number(words: seq<nat>): nat {
    if |words| == 0 then 0 else Number(words[..|words| - 1]) * 16 + words[|words| - 1]
  }

  function Flipped(words: seq<nat>): (r: seq<nat>)
    ensures |r| == |words|
  {
    seq(|words|, i requires 0 <= i < |words| => Xor(words[i], 10))
  }

  lemma FlippedFit(words: seq<nat>)
    requires AllFit(words, 4)
    ensures AllFit(Flipped(words), 4)
  {
    assert Pow2(4) == 16;
    forall i | 0 <= i < |words|
      ensures Xor(words[i], 10) < 16
    {
      assert words[i] < Pow2(4);
      XorBound(words[i], 10, 4);
    }
  }

  /** A compact message that cannot be corrected may be a rune, every word of which is changed in two bits. */
  ghost function CorrectedMode(field: GenericGF, compact: bool, words: seq<nat>): Mode
    requires FieldOf(field, 4) && AllFit(words, 4) && |words| == ModeSide(compact)
  {
    FitElems(field, words, 4);
    var n := DataWords(compact);
    match Decode(field, words, |words| - n)
    case (Corrected, message) => Mode(Number(message[..n]), false)
    case (_, message) =>
      if !compact then Unreadable
      else
        FitElems(field, message, 4);
        FlippedFit(message);
        FitElems(field, Flipped(message), 4);
        match Decode(field, Flipped(message), |words| - n)
        case (Corrected, rune) => Mode(Number(rune[..n]), true)
        case _ => Unreadable
  }

  /** Case by case. */
  lemma ModeIs(field: GenericGF, compact: bool, words: seq<nat>)
    requires FieldOf(field, 4) && AllFit(words, 4) && |words| == ModeSide(compact)
    ensures field.Valid() && Elems(field, words)
    ensures var (outcome, message) := Decode(field, words, |words| - DataWords(compact));
      && Elems(field, Flipped(message))
      && (outcome == Corrected ==> CorrectedMode(field, compact, words) == Mode(Number(message[..DataWords(compact)]), false))
      && (outcome != Corrected && !compact ==> CorrectedMode(field, compact, words) == Unreadable)
      && (outcome != Corrected && compact ==>
            var (again, rune) := Decode(field, Flipped(message), |words| - DataWords(compact));
            CorrectedMode(field, compact, words) == if again == Corrected then Mode(Number(rune[..2]), true) else Unreadable)
  {
    hide Decode, Number;
    FitElems(field, words, 4);
    var message := Decode(field, words, |words| - DataWords(compact)).1;
    FitElems(field, message, 4);
    FlippedFit(message);
    FitElems(field, Flipped(message), 4);
  }

  // ----- the detector's loops -----

  /** Reads the bits as a number; nothing when a module is outside the image. */
  method SampleMode(image: array2<bool>, compact: bool, center: int) returns (ok: bool, bits: nat)
    ensures ok ==> bits == FromBits(BitsRead(compact, center, Dark(image)))
    ensures ok <==> forall n :: 0 <= n < 4 * ModeSide(compact) ==> IsIn(image, ReadCell(compact, center, n))
  {
    hide FromBits, ReadCell;
    var radius := PatternRadius(compact);
    bits := 0;
    ghost var all, read := BitsRead(compact, center, Dark(image)), 0;
    NoBits();
    for side := 0 to 4
      invariant read == side * ModeSide(compact) && bits == FromBits(all[..read])
      invariant forall n :: 0 <= n < read ==> IsIn(image, ReadCell(compact, center, n))
    {
      var i := 2;
      while i <= 2 * radius - 2
        invariant 2 <= i <= 2 * radius - 1
        invariant side * ModeSide(compact) <= read <= (side + 1) * ModeSide(compact)
        invariant read == side * ModeSide(compact) + i - (if !compact && i > 7 then 3 else 2)
        invariant bits == FromBits(all[..read])
        invariant forall n :: 0 <= n < read ==> IsIn(image, ReadCell(compact, center, n))
      {
        if !compact && i == 7 {
          i := i + 1; // the timing pattern
          continue;
        }
        var p := StepCell(compact, center, side, i);
        CellOfStep(compact, center, side, i, read);
        if !IsIn(image, p) {
          return false, 0;
        }
        BitBehind(all, read);
        bits := 2 * bits + (if image[p.0, p.1] then 1 else 0);
        read := read + 1;
        i := i + 1;
      }
    }
    assert all[..read] == all;
    ok := true;
  }

  predicate IsIn(image: array2<bool>, cell: Cell) {
    0 <= cell.0 < image.Length0 && 0 <= cell.1 < image.Length1
  }

  lemma NoBits()
    ensures FromBits([]) == 0
  {
  }

  lemma BitBehind(bits: Bitstring, n: nat)
    requires n < |bits|
    ensures FromBits(bits[..n + 1]) == 2 * FromBits(bits[..n]) + (if bits[n] then 1 else 0)
  {
    assert bits[..n + 1][..n] == bits[..n];
  }

  lemma CellOfStep(compact: bool, center: int, side: nat, i: int, n: nat)
    requires side < 4 && 2 <= i <= 2 * PatternRadius(compact) - 2 && !(!compact && i == 7)
    requires n == side * ModeSide(compact) + i - (if !compact && i > 7 then 3 else 2)
    ensures n < 4 * ModeSide(compact) && ReadCell(compact, center, n) == StepCell(compact, center, side, i)
  {
    var r := i - (if !compact && i > 7 then 3 else 2);
    assert n / ModeSide(compact) == side && n % ModeSide(compact) == r;
  }

  /** The last n words of a number of that many words. */
  method WordsOfNumber(bits: nat, n: nat, ghost all: Bitstring) returns (words: array<nat>)
    requires |all| == 4 * n && bits == FromBits(all)
    ensures fresh(words) && words[..] == Words(all, 4)
  {
    hide FromBits, Words;
    words := new nat[n](_ => 0);
    var v := bits;
    WordCount(all, 4, n);
    assert all[..4 * n] == all;
    for i := n downto 0
      invariant v == FromBits(all[..4 * i])
      invariant forall k :: i <= k < n ==> words[k] == Words(all, 4)[k]
    {
      LastWord(all, n, i);
      words[i] := v % 16;
      v := v / 16;
    }
    assert |Words(all, 4)| == n;
  }

  lemma LastWord(bits: Bitstring, n: nat, i: nat)
    requires |bits| == 4 * n && i < n
    ensures |Words(bits, 4)| == n && FromBits(bits[..4 * (i + 1)]) % 16 == Words(bits, 4)[i]
    ensures FromBits(bits[..4 * (i + 1)]) / 16 == FromBits(bits[..4 * i])
  {
    hide FromBits, Words;
    WordAt(bits, 4, n, i);
    assert bits[..4 * (i + 1)] == bits[..4 * i] + bits[4 * i..4 * i + 4];
    FourBehind(bits[..4 * i], bits[4 * i..4 * i + 4]);
  }

  lemma FourBehind(a: Bitstring, b: Bitstring)
    requires |b| == 4
    ensures FromBits(a + b) % 16 == FromBits(b) && FromBits(a + b) / 16 == FromBits(a)
  {
    assert Pow2(4) == 16;
    FromBitsAppend(a, b);
    hide FromBits, Pow2;
    Apart(FromBits(a), FromBits(b));
  }

  lemma Apart(x: nat, y: nat)
    requires y < 16
    ensures (x * 16 + y) % 16 == y && (x * 16 + y) / 16 == x
  {
  }

  /** Corrects the words in place, as a rune the second time, and puts the data words together. */
  method ModeMessage(field: GenericGF, compact: bool, bits: nat, ghost all: Bitstring,
                     sigma: GenericGFPoly, omega: GenericGFPoly, q: GenericGFPoly, rLast: GenericGFPoly) returns (res: Mode)
    requires FieldOf(field, 4) && |all| == 4 * ModeSide(compact) && bits == FromBits(all)
    requires sigma != omega && sigma != q && sigma != rLast && omega != q && omega != rLast && q != rLast
    modifies sigma, omega, q, rLast
    ensures |Words(all, 4)| == ModeSide(compact) && AllFit(Words(all, 4), 4)
    ensures res == CorrectedMode(field, compact, Words(all, 4))
  {
    hide FromBits, Words, Decode, GenericGF.Valid, Elems, AllFit, Number, CorrectedMode, FieldOf;
    var numCodewords, numDataCodewords := ModeSide(compact), DataWords(compact);
    WordCount(all, 4, numCodewords);
    WordsFit(all, 4);
    ModeIs(field, compact, Words(all, 4));
    var words := WordsOfNumber(bits, numCodewords, all);
    var isRune := false;
    var outcome := ReedSolomonDecode(field, words, numCodewords - numDataCodewords, sigma, omega, q, rLast);
    if outcome != Corrected && compact {
      ghost var before := words[..];
      for i := 0 to numCodewords
        invariant words.Length == numCodewords
        invariant forall k :: 0 <= k < numCodewords ==> words[k] == if k < i then Xor(before[k], 10) else before[k]
      {
        words[i] := Xor(words[i], 10);
      }
      assert words[..] == Flipped(before);
      outcome := ReedSolomonDecode(field, words, numCodewords - numDataCodewords, sigma, omega, q, rLast);
      isRune := outcome == Corrected;
    }
    if outcome != Corrected {
      return Unreadable;
    }
    ghost var message := words[..];
    var value := 0;
    NoNumber();
    for i := 0 to numDataCodewords
      invariant words[..] == message && value == Number(message[..i])
    {
      NumberBehind(message, i);
      value := value * 16 + words[i];
    }
    res := Mode(value, isRune);
  }

  lemma FieldIsValid(field: GenericGF)
    requires FieldOf(field, 4)
    ensures field.Valid()
  {
  }

  lemma NoNumber()
    ensures Number([]) == 0
  {
  }

  lemma NumberBehind(words: seq<nat>, i: nat)
    requires i < |words|
    ensures Number(words[..i + 1]) == Number(words[..i]) * 16 + words[i]
  {
    assert words[..i + 1][..i] == words[..i];
  }

  // ----- what it says -----

  /** Layers, data words, and whether the highest bit of their number is set although no symbol has that many. */
  function ExtractParameters(modeMessage: nat, compact: bool): (nat, nat, bool) {
    if compact then
      var nbLayers := modeMessage / 64 + 1;
      var readerInit := nbLayers == 1 && modeMessage / 32 % 2 == 1;
      (nbLayers, (if readerInit then modeMessage - 32 else modeMessage) % 64 + 1, readerInit)
    else
      var nbLayers := modeMessage / 2048 + 1;
      var readerInit := nbLayers <= 22 && modeMessage / 1024 % 2 == 1;
      (nbLayers, (if readerInit then modeMessage - 1024 else modeMessage) % 2048 + 1, readerInit)
  }

  lemma NumberOfModeBits(compact: bool, layers: nat, words: nat)
    requires 1 <= layers <= (if compact then 4 else 32) && 1 <= words <= (if compact then 64 else 2048)
    ensures FromBits(ModeBits(compact, layers, words)) == (layers - 1) * (if compact then 64 else 2048) + (words - 1)
  {
    SmallPowers();
    hide FromBits, ToBits, Pow2;
    if compact {
      FromBitsAppend(ToBits(layers - 1, 2), ToBits(words - 1, 6));
      FromToBits(layers - 1, 2);
      FromToBits(words - 1, 6);
    } else {
      FromBitsAppend(ToBits(layers - 1, 5), ToBits(words - 1, 11));
      FromToBits(layers - 1, 5);
      FromToBits(words - 1, 11);
    }
  }

  /** The parameters come back exactly if the highest bit is not taken for reader initialisation. */
  lemma ParametersExactly(compact: bool, layers: nat, words: nat)
    requires 1 <= layers <= (if compact then 4 else 32) && 1 <= words <= (if compact then 64 else 2048)
    ensures ExtractParameters(FromBits(ModeBits(compact, layers, words)), compact) == (layers, words, false) <==>
      !(if compact then layers == 1 && words > 32 else layers <= 22 && words > 1024)
  {
    hide FromBits, ModeBits;
    NumberOfModeBits(compact, layers, words);
    var n, k, high := layers - 1, words - 1, if compact then 32 else 1024;
    assert (n * (2 * high) + k) / (2 * high) == n && (n * (2 * high) + k) % (2 * high) == k;
    HighBit(n, k, high);
  }

  lemma HighBit(n: nat, k: nat, high: nat)
    requires high in {32, 1024} && k < 2 * high
    ensures var m := n * (2 * high) + k;
      && m / high % 2 == (if k >= high then 1 else 0) && m / (2 * high) == n && m % (2 * high) == k
      && (k >= high ==> (m - high) % (2 * high) == k - high)
  {
    if high == 32 {
    } else {
    }
  }

  // ----- from the symbol -----

  lemma {:induction false} NumberOfWords(bits: Bitstring, n: nat)
    requires |bits| == 4 * n
    ensures |Words(bits, 4)| == n && Number(Words(bits, 4)) == FromBits(bits)
    decreases n
  {
    hide FromBits, Words;
    WordCount(bits, 4, n);
    if n == 0 {
      NoBits();
      NoNumber();
      assert bits == [];
    } else {
      var a := bits[..4 * (n - 1)];
      NumberOfWords(a, n - 1);
      LastWord(bits, n, n - 1);
      assert bits[..4 * n] == bits;
      WordsOfFront(bits, n);
      var w := Words(bits, 4);
      assert w[..n - 1] == Words(a, 4);
    }
  }

  lemma WordsOfFront(bits: Bitstring, n: nat)
    requires |bits| == 4 * n && n > 0
    ensures |Words(bits, 4)| == n && Words(bits, 4)[..n - 1] == Words(bits[..4 * (n - 1)], 4)
  {
    hide FromBits, Words;
    var a := bits[..4 * (n - 1)];
    WordCount(bits, 4, n);
    WordCount(a, 4, n - 1);
    forall k | 0 <= k < n - 1
      ensures Words(bits, 4)[k] == Words(a, 4)[k]
    {
      WordAt(bits, 4, n, k);
      WordAt(a, 4, n - 1, k);
      assert a[4 * k..4 * k + 4] == bits[4 * k..4 * k + 4];
    }
  }

  /** In at most half as many words as there are check words the bits read differ from those of the symbol drawn. */
  ghost predicate FewModeErrors(compact: bool, center: int, dark: set<Cell>, received: set<Cell>) {
    var sent, got := Words(BitsRead(compact, center, dark), 4), Words(BitsRead(compact, center, received), 4);
    |sent| == |got| && ErrorCorrection.Distance(sent, got) <= (if compact then 2 else 3)
  }

  /** A damaged mode message is corrected to the one drawn. */
  lemma ModeCorrected(field: GenericGF, compact: bool, layers: nat, words: nat, modeMessage: Bitstring, cw: seq<nat>,
                      received: seq<nat>)
    requires FieldOf(field, 4) && IsModeMessage(field, compact, layers, words, modeMessage, cw)
    requires AllFit(received, 4) && |received| == ModeSide(compact) == |cw|
    requires ErrorCorrection.Distance(cw, received) <= (if compact then 2 else 3)
    ensures CorrectedMode(field, compact, received) == Mode(FromBits(ModeBits(compact, layers, words)), false)
  {
    SmallPowers();
    hide Decode, FromBits, Words, ModeBits, Number, CorrectedMode, ErrorCorrection.Distance, IsCodeword, GenericGF.Valid, WordBits, Pow2;
    var data := Words(ModeBits(compact, layers, words), 4);
    ModeLengths(compact, layers, words);
    NumberOfWords(ModeBits(compact, layers, words), DataWords(compact));
    ModeIs(field, compact, received);
    FieldSize(field);
    ErrorsCorrected(field, cw, received, |cw| - |data|);
  }

  lemma FieldSize(field: GenericGF)
    requires FieldOf(field, 4)
    ensures field.Valid() && field.size == 16 && field.generatorBase == 1
  {
    assert Pow2(4) == 16;
  }

  lemma ModeLengths(compact: bool, layers: nat, words: nat)
    ensures |ModeBits(compact, layers, words)| == 4 * DataWords(compact)
  {
  }

  lemma DrawnBitsRead(compact: bool, layers: nat, messageBits: Bitstring, modeMessage: Bitstring, dark: set<Cell>)
    requires layers >= 1 && |modeMessage| == 4 * ModeSide(compact)
    requires Shows(compact, layers, messageBits, modeMessage, dark)
    ensures BitsRead(compact, MatrixSize(compact, layers) / 2, dark) == modeMessage
  {
    hide InSymbol, MatrixSize, ReadCell, ModeCell;
    var size := MatrixSize(compact, layers);
    forall n | 0 <= n < |modeMessage|
      ensures (ReadCell(compact, size / 2, n) in dark) == modeMessage[n]
    {
      ReadsWhereDrawn(compact, size / 2, n);
      ModeCellInside(compact, layers, n);
      ModeMessageReadable(compact, layers, messageBits, modeMessage, n);
    }
  }

  lemma ModeCellInside(compact: bool, layers: nat, n: nat)
    requires layers >= 1 && n < 4 * ModeSide(compact)
    ensures var (x, y) := ModeCell(compact, MatrixSize(compact, layers) / 2, n);
      0 <= x < MatrixSize(compact, layers) && 0 <= y < MatrixSize(compact, layers)
  {
    hide MatrixSize, BaseMatrixSize, ModeCell;
    ModeCellNear(compact, layers, n);
    RadiusInside(compact, layers);
  }

  lemma RadiusInside(compact: bool, layers: nat)
    requires layers >= 1
    ensures var center, radius := MatrixSize(compact, layers) / 2, PatternRadius(compact);
      radius <= center && center + radius < MatrixSize(compact, layers)
  {
    if !compact {
      Centre(layers);
    }
  }

  /** No symbol has so many words that the highest bit of their number is set where it would be cleared. */
  lemma WordsBelowHighBit(compact: bool, layers: nat, codeWords: nat, wordSize: nat)
    requires 1 <= layers <= 32 && wordSize == CodewordSize(layers)
    requires codeWords < TotalBitsInLayer(layers, compact) / wordSize
    ensures !(if compact then layers == 1 && codeWords > 32 else layers <= 22 && codeWords > 1024)
    ensures codeWords <= 2048
  {
    hide TotalBitsInLayer;
    TotalBitsBound(layers, compact);
    FirstTotal(compact);
  }

  lemma FirstTotal(compact: bool)
    ensures TotalBitsInLayer(1, compact) <= 128
  {
  }

  /** The detector's parameters for what it reads around a centre. */
  ghost predicate Detects(field: GenericGF, compact: bool, center: int, dark: set<Cell>, layers: nat, codeWords: nat)
    requires FieldOf(field, 4)
  {
    var words := Words(BitsRead(compact, center, dark), 4);
    && AllFit(words, 4) && |words| == ModeSide(compact)
    && var mode := CorrectedMode(field, compact, words);
       mode.Mode? && !mode.isRune && ExtractParameters(mode.value, compact) == (layers, codeWords, false)
  }

  lemma WordsRead(compact: bool, center: int, dark: set<Cell>)
    ensures var words := Words(BitsRead(compact, center, dark), 4); AllFit(words, 4) && |words| == ModeSide(compact)
  {
    hide BitsRead, Words;
    WordsFit(BitsRead(compact, center, dark), 4);
    WordCount(BitsRead(compact, center, dark), 4, ModeSide(compact));
  }

  lemma ModeCodeword(field: GenericGF, compact: bool, layers: nat, words: nat, modeMessage: Bitstring, cw: seq<nat>)
    requires FieldOf(field, 4) && IsModeMessage(field, compact, layers, words, modeMessage, cw)
    ensures Words(modeMessage, 4) == cw && |cw| == ModeSide(compact)
  {
    hide Words, WordBits, ModeBits, IsCodeword, FieldOf, Pow2;
    RawWordsOfProtected(field, modeMessage, Words(ModeBits(compact, layers, words), 4), ModeTotal(compact), 4, cw);
    assert modeMessage[0..] == modeMessage;
  }

  /** From a symbol drawn for a text, with at most half the check words of its mode message damaged, the detector has its parameters. */
  lemma ParametersRead(fields: Fields, text: seq<byte>, compact: bool, layers: nat, codeWords: nat,
                       dark: set<Cell>, cw: seq<nat>, received: set<Cell>)
    requires fields.Valid() && |text| <= 0x7FFF && FieldOf(fields.param, 4)
    requires IsSymbolFor(fields, text, compact, layers, codeWords, dark, cw)
    requires compact ==> layers <= 4 && codeWords <= 64
    requires FewModeErrors(compact, MatrixSize(compact, layers) / 2, dark, received)
    ensures Detects(fields.param, compact, MatrixSize(compact, layers) / 2, received, layers, codeWords)
  {
    hide Shows, IsModeMessage, FieldOf, Fields.Valid, Words, BitsRead, CorrectedMode, ExtractParameters, ModeBits, FromBits;
    hide ErrorCorrection.Distance, TotalBitsInLayer, AllFit, HighLevel.HighLevelBits, ModeTotal, CodewordSize, MatrixSize;
    var messageBits, modeMessage, modeCw :|
      Composes(fields, text, compact, layers, codeWords, dark, cw, messageBits, modeMessage, modeCw);
    var center := MatrixSize(compact, layers) / 2;
    DrawnBitsRead(compact, layers, messageBits, modeMessage, dark);
    ModeCodeword(fields.param, compact, layers, codeWords, modeMessage, modeCw);
    WordsRead(compact, center, received);
    ModeCorrected(fields.param, compact, layers, codeWords, modeMessage, modeCw, Words(BitsRead(compact, center, received), 4));
    WordsOfSymbol(fields, text, compact, layers, codeWords, dark, cw, messageBits, modeMessage, modeCw);
    ParametersExactly(compact, layers, codeWords);
  }

  lemma WordsOfSymbol(fields: Fields, text: seq<byte>, compact: bool, layers: nat, codeWords: nat, dark: set<Cell>,
                      cw: seq<nat>, messageBits: Bitstring, modeMessage: Bitstring, modeCw: seq<nat>)
    requires fields.Valid() && |text| <= 0x7FFF && 1 <= layers <= 32
    requires Composes(fields, text, compact, layers, codeWords, dark, cw, messageBits, modeMessage, modeCw)
    ensures 1 <= codeWords <= 2048
    ensures !(if compact then layers == 1 && codeWords > 32 else layers <= 22 && codeWords > 1024)
  {
    hide FieldOf, IsModeMessage, Shows, IsCodeword, WordBits, Pow2, TotalBitsInLayer, Fields.Valid;
    RoundTrip.ComposedOf(fields, text, compact, layers, codeWords, dark, cw, messageBits, modeMessage, modeCw);
    WordsBelowHighBit(compact, layers, codeWords, CodewordSize(layers));
  }

  /**
   * The symbol describes itself: what the detector reads from the mode message is what the decoder needs, and the text
   * comes back, whatever became of half as many codewords as there are check words, in the message and in the mode
   * message, and of all other modules.
   */
  lemma SelfDescribed(fields: Fields, text: seq<byte>, compact: bool, layers: nat, codeWords: nat,
                      dark: set<Cell>, cw: seq<nat>, received: set<Cell>)
    requires fields.Valid() && |text| <= 0x7FFF && FieldOf(fields.param, 4)
    requires IsSymbolFor(fields, text, compact, layers, codeWords, dark, cw)
    requires compact ==> layers <= 4 && codeWords <= 64
    requires FewModeErrors(compact, MatrixSize(compact, layers) / 2, dark, received)
    requires RoundTrip.Damaged(compact, layers, codeWords, cw, received)
    ensures Detects(fields.param, compact, MatrixSize(compact, layers) / 2, received, layers, codeWords)
    ensures var r := RoundTrip.ReadSymbol(fields, compact, layers, codeWords, received);
      r.Read? && r.result == Decoded(Content(text, [], false))
  {
    hide Detects, FewModeErrors, RoundTrip.ReadSymbol, RoundTrip.Damaged, FieldOf, MatrixSize, IsSymbolFor, EcLevel;
    ParametersRead(fields, text, compact, layers, codeWords, dark, cw, received);
    RoundTrip.SymbolRoundTrip(fields, text, compact, layers, codeWords, dark, cw, received);
  }
}
