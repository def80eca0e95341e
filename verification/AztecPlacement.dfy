/** The data bits of an Aztec symbol, drawn and read back (AZEncoder.cpp:263-308, AZDecoder.cpp:73-117). */
module AztecPlacement {
  import opened BitArrays
  import opened AztecLayout
  import opened AztecSymbol

  method AlignmentMap(compact: bool, layers: nat) returns (map_: seq<int>)
    ensures |map_| == BaseMatrixSize(compact, layers)
    ensures forall m :: 0 <= m < |map_| ==> map_[m] == Align(compact, layers, m)
  {
    var baseMatrixSize := BaseMatrixSize(compact, layers);
    var a := new int[baseMatrixSize](_ => 0);
    if compact {
      for i := 0 to baseMatrixSize
        invariant forall m :: 0 <= m < i ==> a[m] == m
      {
        a[i] := i;
      }
    } else {
      var origCenter := baseMatrixSize / 2;
      var center := MatrixSize(compact, layers) / 2;
      Centre(layers);
      for i := 0 to origCenter
        invariant forall m :: origCenter - i <= m < origCenter + i ==> a[m] == Align(compact, layers, m)
      {
        var newOffset := i + i / 15;
        a[origCenter - i - 1] := center - newOffset - 1;
        a[origCenter + i] := center + newOffset + 1;
      }
    }
    map_ := a[..];
  }

  // ----- drawing -----

  predicate IsSet(bits: Bitstring, n: int) {
    0 <= n < |bits| && bits[n]
  }

  ghost function SlotCells(compact: bool, layers: nat, bits: Bitstring, s: Slot): set<Cell> {
    if IsSet(bits, Index(compact, layers, s)) then {DataCell(compact, layers, s)} else {}
  }

  /** Place c of all four arms. */
  ghost function PlaceCells(compact: bool, layers: nat, bits: Bitstring, i: nat, c: nat): set<Cell> {
    SlotCells(compact, layers, bits, Slot(i, 0, c)) + SlotCells(compact, layers, bits, Slot(i, 1, c))
    + SlotCells(compact, layers, bits, Slot(i, 2, c)) + SlotCells(compact, layers, bits, Slot(i, 3, c))
  }

  ghost function LayerCells(compact: bool, layers: nat, bits: Bitstring, i: nat, n: nat): set<Cell> {
    if n == 0 then {}
    else LayerCells(compact, layers, bits, i, n - 1) + PlaceCells(compact, layers, bits, i, n - 1)
  }

  /** The dark data modules of the first n layers. */
  ghost function DataCells(compact: bool, layers: nat, bits: Bitstring, n: nat): set<Cell>
    requires n <= layers
  {
    if n == 0 then {}
    else
      DataCells(compact, layers, bits, n - 1)
      + LayerCells(compact, layers, bits, n - 1, 2 * RowSize(compact, layers, n - 1))
  }

  method DrawPlace(matrix: array2<bool>, compact: bool, layers: nat, alignmentMap: seq<int>, messageBits: Bitstring,
                   i: nat, j: nat, k: nat, rowOffset: int)
    requires i < layers && j < RowSize(compact, layers, i) && k < 2 && rowOffset == RowOffset(compact, layers, i)
    requires matrix.Length0 == matrix.Length1 == MatrixSize(compact, layers)
    requires |messageBits| == TotalBitsInLayer(layers, compact)
    requires |alignmentMap| == BaseMatrixSize(compact, layers)
    requires forall m :: 0 <= m < |alignmentMap| ==> alignmentMap[m] == Align(compact, layers, m)
    modifies matrix
    ensures Dark(matrix) == old(Dark(matrix)) + PlaceCells(compact, layers, messageBits, i, 2 * j + k)
  {
    hide Dark, Align, RowOffset, MatrixSize, TotalBitsInLayer, BaseCell, Index;
    var base, rowSize, c := BaseMatrixSize(compact, layers), RowSize(compact, layers, i), 2 * j + k;
    Places(compact, layers, i, j, k);
    PlaceBaseCells(compact, layers, i, j, k);
    SetModule(matrix, messageBits[rowOffset + c], alignmentMap[i * 2 + k], alignmentMap[i * 2 + j]);
    SetModule(matrix, messageBits[rowOffset + rowSize * 2 + c], alignmentMap[i * 2 + j], alignmentMap[base - 1 - i * 2 - k]);
    SetModule(matrix, messageBits[rowOffset + rowSize * 4 + c],
              alignmentMap[base - 1 - i * 2 - k], alignmentMap[base - 1 - i * 2 - j]);
    SetModule(matrix, messageBits[rowOffset + rowSize * 6 + c], alignmentMap[base - 1 - i * 2 - j], alignmentMap[i * 2 + k]);
  }

  /** The bit number of place c of an arm. */
  lemma PlaceIndex(compact: bool, layers: nat, i: nat, arm: nat, c: nat)
    requires i < layers && arm < 4 && c < 2 * RowSize(compact, layers, i)
    ensures var rowSize, n := RowSize(compact, layers, i), Index(compact, layers, Slot(i, arm, c));
      && ValidSlot(compact, layers, Slot(i, arm, c))
      && 0 <= n < TotalBitsInLayer(layers, compact)
      && n == RowOffset(compact, layers, i) + c + (if arm == 0 then 0 else if arm == 1 then 2 * rowSize
                                                    else if arm == 2 then 4 * rowSize else 6 * rowSize)
  {
    hide RowOffset, TotalBitsInLayer;
    IndexInRange(compact, layers, Slot(i, arm, c));
    var w := 2 * RowSize(compact, layers, i);
    assert arm * w == (if arm == 0 then 0 else if arm == 1 then w else if arm == 2 then 2 * w else 3 * w);
  }

  /** The cells of place 2j + k of the four arms. */
  lemma PlaceBaseCells(compact: bool, layers: nat, i: nat, j: nat, k: nat)
    requires i < layers && j < RowSize(compact, layers, i) && k < 2
    ensures var base, c := BaseMatrixSize(compact, layers), 2 * j + k;
      && 0 <= i * 2 + k < base && 0 <= i * 2 + j < base && 0 <= base - 1 - i * 2 - j
      && BaseCell(compact, layers, Slot(i, 0, c)) == (i * 2 + k, i * 2 + j)
      && BaseCell(compact, layers, Slot(i, 1, c)) == (i * 2 + j, base - 1 - i * 2 - k)
      && BaseCell(compact, layers, Slot(i, 2, c)) == (base - 1 - i * 2 - k, base - 1 - i * 2 - j)
      && BaseCell(compact, layers, Slot(i, 3, c)) == (base - 1 - i * 2 - j, i * 2 + k)
  {
    var c := 2 * j + k;
    assert c / 2 == j && c % 2 == k;
  }

  lemma Places(compact: bool, layers: nat, i: nat, j: nat, k: nat)
    requires i < layers && j < RowSize(compact, layers, i) && k < 2
    ensures var c, start, rowSize := 2 * j + k, RowOffset(compact, layers, i), RowSize(compact, layers, i);
      && 0 <= start + c && start + rowSize * 6 + c < TotalBitsInLayer(layers, compact)
      && ValidSlot(compact, layers, Slot(i, 0, c)) && Index(compact, layers, Slot(i, 0, c)) == start + c
      && ValidSlot(compact, layers, Slot(i, 1, c)) && Index(compact, layers, Slot(i, 1, c)) == start + rowSize * 2 + c
      && ValidSlot(compact, layers, Slot(i, 2, c)) && Index(compact, layers, Slot(i, 2, c)) == start + rowSize * 4 + c
      && ValidSlot(compact, layers, Slot(i, 3, c)) && Index(compact, layers, Slot(i, 3, c)) == start + rowSize * 6 + c
    ensures forall m :: 0 <= m < BaseMatrixSize(compact, layers) ==>
      0 <= Align(compact, layers, m) < MatrixSize(compact, layers)
  {
    hide Align, RowOffset, MatrixSize, TotalBitsInLayer, Index;
    var c := 2 * j + k;
    PlaceIndex(compact, layers, i, 0, c);
    PlaceIndex(compact, layers, i, 1, c);
    PlaceIndex(compact, layers, i, 2, c);
    PlaceIndex(compact, layers, i, 3, c);
    forall m | 0 <= m < BaseMatrixSize(compact, layers)
      ensures 0 <= Align(compact, layers, m) < MatrixSize(compact, layers)
    {
      AlignInRange(compact, layers, m);
    }
  }

  method DrawData(matrix: array2<bool>, compact: bool, layers: nat, messageBits: Bitstring)
    requires matrix.Length0 == matrix.Length1 == MatrixSize(compact, layers)
    requires |messageBits| == TotalBitsInLayer(layers, compact)
    modifies matrix
    ensures Dark(matrix) == old(Dark(matrix)) + DataCells(compact, layers, messageBits, layers)
  {
    hide Dark, Align, RowOffset, MatrixSize, TotalBitsInLayer, PlaceCells;
    var alignmentMap := AlignmentMap(compact, layers);
    ghost var before := Dark(matrix);
    var rowOffset := 0;
    FirstOffset(compact, layers);
    for i := 0 to layers
      invariant rowOffset == RowOffset(compact, layers, i)
      invariant Dark(matrix) == before + DataCells(compact, layers, messageBits, i)
    {
      var rowSize := RowSize(compact, layers, i);
      ghost var outside := Dark(matrix);
      for j := 0 to rowSize
        invariant Dark(matrix) == outside + LayerCells(compact, layers, messageBits, i, 2 * j)
      {
        for k := 0 to 2
          invariant Dark(matrix) == outside + LayerCells(compact, layers, messageBits, i, 2 * j + k)
        {
          DrawPlace(matrix, compact, layers, alignmentMap, messageBits, i, j, k, rowOffset);
        }
      }
      NextOffset(compact, layers, i);
      rowOffset := rowOffset + rowSize * 8;
    }
  }

  lemma FirstOffset(compact: bool, layers: nat)
    ensures RowOffset(compact, layers, 0) == 0
  {
  }

  lemma NextOffset(compact: bool, layers: nat, i: nat)
    ensures RowOffset(compact, layers, i + 1) == RowOffset(compact, layers, i) + RowSize(compact, layers, i) * 8
  {
  }

  // ----- what was drawn -----

  lemma {:induction false} FindInLayer(compact: bool, layers: nat, bits: Bitstring, i: nat, n: nat, cell: Cell) returns (s: Slot)
    requires i < layers && n <= 2 * RowSize(compact, layers, i) && cell in LayerCells(compact, layers, bits, i, n)
    ensures ValidSlot(compact, layers, s) && IsSet(bits, Index(compact, layers, s)) && DataCell(compact, layers, s) == cell
    decreases n
  {
    hide Index, DataCell;
    if cell in LayerCells(compact, layers, bits, i, n - 1) {
      s := FindInLayer(compact, layers, bits, i, n - 1, cell);
    } else {
      var a :| 0 <= a < 4 && cell in SlotCells(compact, layers, bits, Slot(i, a, n - 1));
      s := Slot(i, a, n - 1);
    }
  }

  lemma {:induction false} FindInData(compact: bool, layers: nat, bits: Bitstring, n: nat, cell: Cell) returns (s: Slot)
    requires n <= layers && cell in DataCells(compact, layers, bits, n)
    ensures ValidSlot(compact, layers, s) && IsSet(bits, Index(compact, layers, s)) && DataCell(compact, layers, s) == cell
  {
    hide Index, DataCell, LayerCells;
    if cell in DataCells(compact, layers, bits, n - 1) {
      s := FindInData(compact, layers, bits, n - 1, cell);
    } else {
      s := FindInLayer(compact, layers, bits, n - 1, 2 * RowSize(compact, layers, n - 1), cell);
    }
  }

  lemma {:induction false} SetInLayer(compact: bool, layers: nat, bits: Bitstring, n: nat, s: Slot)
    requires s.arm < 4 && s.c < n && IsSet(bits, Index(compact, layers, s))
    ensures DataCell(compact, layers, s) in LayerCells(compact, layers, bits, s.i, n)
    decreases n
  {
    hide Index, DataCell;
    if s.c < n - 1 {
      SetInLayer(compact, layers, bits, n - 1, s);
    }
  }

  lemma {:induction false} SetInData(compact: bool, layers: nat, bits: Bitstring, n: nat, s: Slot)
    requires ValidSlot(compact, layers, s) && s.i < n <= layers && IsSet(bits, Index(compact, layers, s))
    ensures DataCell(compact, layers, s) in DataCells(compact, layers, bits, n)
  {
    hide Index, DataCell, LayerCells;
    if s.i < n - 1 {
      SetInData(compact, layers, bits, n - 1, s);
    } else {
      SetInLayer(compact, layers, bits, 2 * RowSize(compact, layers, n - 1), s);
    }
  }

  /** A data module is dark exactly when its bit is set. */
  lemma DataCellDark(compact: bool, layers: nat, bits: Bitstring, s: Slot)
    requires ValidSlot(compact, layers, s)
    ensures DataCell(compact, layers, s) in DataCells(compact, layers, bits, layers)
      <==> IsSet(bits, Index(compact, layers, s))
  {
    hide Index, DataCell, DataCells;
    if DataCell(compact, layers, s) in DataCells(compact, layers, bits, layers) {
      var t := FindInData(compact, layers, bits, layers, DataCell(compact, layers, s));
      DataCellsDistinct(compact, layers, s, t);
    }
    if IsSet(bits, Index(compact, layers, s)) {
      SetInData(compact, layers, bits, layers, s);
    }
  }

  // ----- reading -----

  ghost function CellOfBit(compact: bool, layers: nat, n: nat): Cell
    requires n < TotalBitsInLayer(layers, compact)
  {
    RowOffsetTotal(compact, layers);
    DataCell(compact, layers, SlotOf(compact, layers, n, layers))
  }

  /** The data bits of a symbol with the given dark modules. */
  ghost function Extracted(compact: bool, layers: nat, dark: set<Cell>): (bits: Bitstring)
    ensures |bits| == TotalBitsInLayer(layers, compact)
  {
    seq(TotalBitsInLayer(layers, compact), n requires 0 <= n < TotalBitsInLayer(layers, compact) =>
      CellOfBit(compact, layers, n) in dark)
  }

  /** Bits that agree with the modules slot by slot are the ones extracted. */
  lemma ExtractedBySlots(compact: bool, layers: nat, dark: set<Cell>, bits: Bitstring)
    requires |bits| == TotalBitsInLayer(layers, compact)
    requires forall s: Slot :: ValidSlot(compact, layers, s) ==> Agrees(compact, layers, dark, bits, s)
    ensures Extracted(compact, layers, dark) == bits
  {
    hide Index, DataCell, TotalBitsInLayer, ValidSlot;
    RowOffsetTotal(compact, layers);
    forall n | 0 <= n < |bits|
      ensures Extracted(compact, layers, dark)[n] == bits[n]
    {
      var s := SlotOf(compact, layers, n, layers);
      assert Agrees(compact, layers, dark, bits, s);
    }
  }

  ghost predicate Agrees(compact: bool, layers: nat, dark: set<Cell>, bits: Bitstring, s: Slot) {
    IsSet(bits, Index(compact, layers, s)) <==> DataCell(compact, layers, s) in dark
  }

  /** Reading place c leaves what was read before it alone. */
  ghost predicate KeepsEarlier(compact: bool, layers: nat, before: Bitstring, after: Bitstring, i: nat, c: nat) {
    forall s: Slot {:trigger ValidSlot(compact, layers, s)} | ValidSlot(compact, layers, s) && Earlier(s, i, c)
      :: IsSet(after, Index(compact, layers, s)) == IsSet(before, Index(compact, layers, s))
  }

  ghost predicate PlaceAgrees(compact: bool, layers: nat, dark: set<Cell>, bits: Bitstring, i: nat, c: nat) {
    && Agrees(compact, layers, dark, bits, Slot(i, 0, c))
    && Agrees(compact, layers, dark, bits, Slot(i, 1, c))
    && Agrees(compact, layers, dark, bits, Slot(i, 2, c))
    && Agrees(compact, layers, dark, bits, Slot(i, 3, c))
  }

  method ReadPlace(matrix: array2<bool>, rawbits: array<bool>, compact: bool, layers: nat, alignmentMap: seq<int>,
                   i: nat, j: nat, k: nat, rowOffset: int)
    requires i < layers && j < RowSize(compact, layers, i) && k < 2 && rowOffset == RowOffset(compact, layers, i)
    requires matrix.Length0 == matrix.Length1 == MatrixSize(compact, layers)
    requires rawbits.Length == TotalBitsInLayer(layers, compact)
    requires |alignmentMap| == BaseMatrixSize(compact, layers)
    requires forall m :: 0 <= m < |alignmentMap| ==> alignmentMap[m] == Align(compact, layers, m)
    modifies rawbits
    ensures KeepsEarlier(compact, layers, old(rawbits[..]), rawbits[..], i, 2 * j + k)
    ensures PlaceAgrees(compact, layers, Dark(matrix), rawbits[..], i, 2 * j + k)
  {
    hide Align, RowOffset, MatrixSize, TotalBitsInLayer, BaseCell, Index, ValidSlot, RowSize, KeepsEarlier, Dark;
    var low, rowSize, colOffset := i * 2, RowSize(compact, layers, i), j * 2;
    var high := BaseMatrixSize(compact, layers) - 1 - low;
    Places(compact, layers, i, j, k);
    PlaceBaseCells(compact, layers, i, j, k);
    DarkAt(matrix, alignmentMap[low + k], alignmentMap[low + j]);
    DarkAt(matrix, alignmentMap[low + j], alignmentMap[high - k]);
    DarkAt(matrix, alignmentMap[high - k], alignmentMap[high - j]);
    DarkAt(matrix, alignmentMap[high - j], alignmentMap[low + k]);
    ghost var before := rawbits[..];
    rawbits[rowOffset + 0 * rowSize + colOffset + k] := matrix[alignmentMap[low + k], alignmentMap[low + j]];
    rawbits[rowOffset + 2 * rowSize + colOffset + k] := matrix[alignmentMap[low + j], alignmentMap[high - k]];
    rawbits[rowOffset + 4 * rowSize + colOffset + k] := matrix[alignmentMap[high - k], alignmentMap[high - j]];
    rawbits[rowOffset + 6 * rowSize + colOffset + k] := matrix[alignmentMap[high - j], alignmentMap[low + k]];
    PlaceWritten(compact, layers, before, rawbits[..], i, 2 * j + k);
  }

  lemma DarkAt(matrix: array2<bool>, x: int, y: int)
    requires 0 <= x < matrix.Length0 && 0 <= y < matrix.Length1
    ensures (x, y) in Dark(matrix) <==> matrix[x, y]
  {
  }

  /** Only the bits of place c differ. */
  lemma PlaceWritten(compact: bool, layers: nat, before: Bitstring, after: Bitstring, i: nat, c: nat)
    requires |before| == |after| && ValidSlot(compact, layers, Slot(i, 0, c))
    requires forall n | 0 <= n < |before|
      && n != Index(compact, layers, Slot(i, 0, c)) && n != Index(compact, layers, Slot(i, 1, c))
      && n != Index(compact, layers, Slot(i, 2, c)) && n != Index(compact, layers, Slot(i, 3, c))
      :: after[n] == before[n]
    ensures KeepsEarlier(compact, layers, before, after, i, c)
  {
    hide Index, ValidSlot;
    forall s: Slot | ValidSlot(compact, layers, s) && Earlier(s, i, c)
      ensures IsSet(after, Index(compact, layers, s)) == IsSet(before, Index(compact, layers, s))
    {
      NotWritten(compact, layers, s, i, c);
    }
  }

  lemma NotWritten(compact: bool, layers: nat, s: Slot, i: nat, c: nat)
    requires ValidSlot(compact, layers, s) && Earlier(s, i, c) && ValidSlot(compact, layers, Slot(i, 0, c))
    ensures Index(compact, layers, s) != Index(compact, layers, Slot(i, 0, c))
    ensures Index(compact, layers, s) != Index(compact, layers, Slot(i, 1, c))
    ensures Index(compact, layers, s) != Index(compact, layers, Slot(i, 2, c))
    ensures Index(compact, layers, s) != Index(compact, layers, Slot(i, 3, c))
  {
    hide Index;
    forall a | 0 <= a < 4 && Index(compact, layers, s) == Index(compact, layers, Slot(i, a, c))
      ensures s == Slot(i, a, c)
    {
      IndexInjective(compact, layers, s, Slot(i, a, c));
    }
  }

  /** Read before place c of layer i. */
  predicate Earlier(s: Slot, i: nat, c: nat) {
    s.i < i || (s.i == i && s.c < c)
  }

  ghost predicate AllAgree(compact: bool, layers: nat, dark: set<Cell>, bits: Bitstring, i: nat, c: nat) {
    forall s: Slot :: ValidSlot(compact, layers, s) && Earlier(s, i, c) ==> Agrees(compact, layers, dark, bits, s)
  }

  method ExtractBits(matrix: array2<bool>, compact: bool, layers: nat) returns (bits: Bitstring)
    requires matrix.Length0 == matrix.Length1 == MatrixSize(compact, layers)
    ensures bits == Extracted(compact, layers, Dark(matrix))
  {
    hide Dark, Align, RowOffset, MatrixSize, TotalBitsInLayer, Agrees, Extracted, IsSet, Index, KeepsEarlier, PlaceAgrees;
    var alignmentMap := AlignmentMap(compact, layers);
    var rawbits := new bool[TotalBitsInLayer(layers, compact)](_ => false);
    var rowOffset := 0;
    FirstOffset(compact, layers);
    for i := 0 to layers
      invariant rowOffset == RowOffset(compact, layers, i)
      invariant AllAgree(compact, layers, Dark(matrix), rawbits[..], i, 0)
    {
      var rowSize := RowSize(compact, layers, i);
      for j := 0 to rowSize
        invariant AllAgree(compact, layers, Dark(matrix), rawbits[..], i, 2 * j)
      {
        for k := 0 to 2
          invariant AllAgree(compact, layers, Dark(matrix), rawbits[..], i, 2 * j + k)
        {
          ghost var before := rawbits[..];
          ReadPlace(matrix, rawbits, compact, layers, alignmentMap, i, j, k, rowOffset);
          NextPlace(compact, layers, Dark(matrix), before, rawbits[..], i, 2 * j + k);
        }
      }
      NextOffset(compact, layers, i);
      rowOffset := rowOffset + rowSize * 8;
    }
    ExtractedBySlots(compact, layers, Dark(matrix), rawbits[..]);
    bits := rawbits[..];
  }

  lemma NextPlace(compact: bool, layers: nat, dark: set<Cell>, before: Bitstring, after: Bitstring, i: nat, c: nat)
    requires AllAgree(compact, layers, dark, before, i, c)
    requires KeepsEarlier(compact, layers, before, after, i, c) && PlaceAgrees(compact, layers, dark, after, i, c)
    ensures AllAgree(compact, layers, dark, after, i, c + 1)
  {
    hide Index, IsSet, DataCell;
    forall s: Slot | ValidSlot(compact, layers, s) && Earlier(s, i, c + 1)
      ensures Agrees(compact, layers, dark, after, s)
    {
      if s.i == i && s.c == c {
        assert s == Slot(i, s.arm, c) && s.arm < 4;
      } else {
        assert Earlier(s, i, c) && Agrees(compact, layers, dark, before, s);
      }
    }
  }
}
