/** A whole Aztec symbol: its parts do not touch each other (AZEncoder.cpp:283-327). */
module AztecFunctionPatterns {
  import opened BitArrays
  import opened AztecLayout
  import opened AztecSymbol
  import opened AztecPlacement

  /** The dark modules of a symbol are those of its data, mode message, bull's eye and reference grid. */
  ghost predicate InSymbol(compact: bool, layers: nat, messageBits: Bitstring, modeMessage: Bitstring, cell: Cell) {
    var size := MatrixSize(compact, layers);
    || cell in DataCells(compact, layers, messageBits, layers)
    || cell in ModeCells(compact, size / 2, modeMessage)
    || InBullsEye(size / 2, PatternRadius(compact), cell)
    || (!compact && InGrid(size, BaseMatrixSize(compact, layers), cell))
  }

  ghost predicate Shows(compact: bool, layers: nat, messageBits: Bitstring, modeMessage: Bitstring, dark: set<Cell>) {
    var size := MatrixSize(compact, layers);
    forall x, y :: 0 <= x < size && 0 <= y < size ==>
      ((x, y) in dark <==> InSymbol(compact, layers, messageBits, modeMessage, (x, y)))
  }

  method DrawSymbol(compact: bool, layers: nat, messageBits: Bitstring, modeMessage: Bitstring)
      returns (matrix: array2<bool>)
    requires layers >= 1
    requires |messageBits| == TotalBitsInLayer(layers, compact) && |modeMessage| == 4 * ModeSide(compact)
    ensures fresh(matrix) && matrix.Length0 == matrix.Length1 == MatrixSize(compact, layers)
    ensures Shows(compact, layers, messageBits, modeMessage, Dark(matrix))
  {
    hide DataCells, ModeCells, InBullsEye, InGrid, TotalBitsInLayer, Align, BaseMatrixSize, ModeSide;
    var matrixSize := SizeFacts(compact, layers);
    hide MatrixSize;
    matrix := new bool[matrixSize, matrixSize]((_, _) => false);
    assert Dark(matrix) == {};
    DrawData(matrix, compact, layers, messageBits);
    DrawModeMessage(matrix, compact, matrixSize, modeMessage);
    assert forall x, y :: 0 <= x < matrixSize && 0 <= y < matrixSize ==> (matrix[x, y] <==> (x, y) in Dark(matrix));
    DrawBullsEye(matrix, matrixSize / 2, PatternRadius(compact));
    if !compact {
      DrawGrid(matrix, layers, matrixSize, BaseMatrixSize(compact, layers));
    }
  }

  method SizeFacts(compact: bool, layers: nat) returns (matrixSize: nat)
    requires layers >= 1
    ensures matrixSize == MatrixSize(compact, layers) >= 15
  {
    matrixSize := MatrixSize(compact, layers);
  }

  // ----- the parts are disjoint -----

  lemma NearCentrePatterns(compact: bool, layers: nat, cell: Cell)
    requires InBullsEye(MatrixSize(compact, layers) / 2, PatternRadius(compact), cell)
    ensures NearCentre(compact, layers, cell)
  {
    hide MatrixSize;
  }

  lemma ModeCellNear(compact: bool, layers: nat, n: nat)
    requires n < 4 * ModeSide(compact)
    ensures NearCentre(compact, layers, ModeCell(compact, MatrixSize(compact, layers) / 2, n))
  {
    hide MatrixSize;
  }

  lemma GridOnMultiples(layers: nat, cell: Cell)
    requires InGrid(MatrixSize(false, layers), BaseMatrixSize(false, layers), cell)
    ensures (cell.0 - MatrixSize(false, layers) / 2) % 16 == 0 || (cell.1 - MatrixSize(false, layers) / 2) % 16 == 0
  {
    hide MatrixSize, BaseMatrixSize;
    var c := MatrixSize(false, layers) / 2;
    DistanceMultiple(cell.0, c);
    DistanceMultiple(cell.1, c);
  }

  lemma DistanceMultiple(a: int, b: int)
    ensures AztecSymbol.Distance(a, b) % 16 == 0 ==> (a - b) % 16 == 0
  {
  }

  /** Nothing but the data bits touches a data module. */
  lemma DataOnly(compact: bool, layers: nat, messageBits: Bitstring, modeMessage: Bitstring, s: Slot)
    requires ValidSlot(compact, layers, s) && |modeMessage| == 4 * ModeSide(compact)
    ensures InSymbol(compact, layers, messageBits, modeMessage, DataCell(compact, layers, s))
      <==> IsSet(messageBits, Index(compact, layers, s))
  {
    hide DataCells, InBullsEye, InGrid, MatrixSize, DataCell, Index, NearCentre, BaseMatrixSize, ModeCell, ModeSide, ValidSlot;
    var cell, center := DataCell(compact, layers, s), MatrixSize(compact, layers) / 2;
    DataCellDark(compact, layers, messageBits, s);
    DataCellPlace(compact, layers, s);
    if cell in ModeCells(compact, center, modeMessage) {
      var n :| 0 <= n < |modeMessage| && ModeCell(compact, center, n) == cell;
      ModeCellNear(compact, layers, n);
      assert false;
    }
    if InBullsEye(center, PatternRadius(compact), cell) {
      NearCentrePatterns(compact, layers, cell);
      assert false;
    }
    if !compact && InGrid(MatrixSize(compact, layers), BaseMatrixSize(compact, layers), cell) {
      GridOnMultiples(layers, cell);
      assert false;
    }
  }

  /** The bits read from a symbol are the ones drawn. */
  lemma ExtractedFromSymbol(compact: bool, layers: nat, messageBits: Bitstring, modeMessage: Bitstring, dark: set<Cell>)
    requires |messageBits| == TotalBitsInLayer(layers, compact) && |modeMessage| == 4 * ModeSide(compact)
    requires Shows(compact, layers, messageBits, modeMessage, dark)
    ensures Extracted(compact, layers, dark) == messageBits
  {
    hide DataCells, InSymbol, MatrixSize, DataCell, Index, ModeSide, ValidSlot, TotalBitsInLayer, IsSet, Extracted;
    forall s: Slot | ValidSlot(compact, layers, s)
      ensures Agrees(compact, layers, dark, messageBits, s)
    {
      DataOnly(compact, layers, messageBits, modeMessage, s);
      DataCellPlace(compact, layers, s);
      var (x, y) := DataCell(compact, layers, s);
      assert (x, y) in dark <==> InSymbol(compact, layers, messageBits, modeMessage, (x, y));
    }
    ExtractedBySlots(compact, layers, dark, messageBits);
  }

  // ----- the mode message -----

  lemma ModeCellsDistinct(compact: bool, center: int, m: nat, n: nat)
    requires m < 4 * ModeSide(compact) && n < 4 * ModeSide(compact)
    requires ModeCell(compact, center, m) == ModeCell(compact, center, n)
    ensures m == n
  {
  }

  /** No mode message module is part of the bull's eye or the grid. */
  lemma ModeCellFree(compact: bool, layers: nat, n: nat)
    requires n < 4 * ModeSide(compact)
    ensures var cell := ModeCell(compact, MatrixSize(compact, layers) / 2, n);
      && !InBullsEye(MatrixSize(compact, layers) / 2, PatternRadius(compact), cell)
      && (!compact ==> !InGrid(MatrixSize(compact, layers), BaseMatrixSize(compact, layers), cell))
  {
    hide MatrixSize, BaseMatrixSize;
    var cell, c := ModeCell(compact, MatrixSize(compact, layers) / 2, n), MatrixSize(compact, layers) / 2;
    if !compact && InGrid(MatrixSize(compact, layers), BaseMatrixSize(compact, layers), cell) {
      GridOnMultiples(layers, cell);
      NotMultiples(cell.0 - c, cell.1 - c);
      assert false;
    }
  }

  lemma NotMultiples(dx: int, dy: int)
    requires -7 <= dx <= 7 && -7 <= dy <= 7 && dx != 0 && dy != 0
    ensures dx % 16 != 0 && dy % 16 != 0
  {
  }

  /** The mode message can be read from the symbol bit by bit. */
  lemma ModeMessageReadable(compact: bool, layers: nat, messageBits: Bitstring, modeMessage: Bitstring, n: nat)
    requires |modeMessage| == 4 * ModeSide(compact) && n < |modeMessage|
    ensures InSymbol(compact, layers, messageBits, modeMessage, ModeCell(compact, MatrixSize(compact, layers) / 2, n))
      <==> modeMessage[n]
  {
    hide DataCells, InBullsEye, InGrid, MatrixSize, DataCell, Index, NearCentre, BaseMatrixSize, ModeCell, ModeSide;
    var center := MatrixSize(compact, layers) / 2;
    var cell := ModeCell(compact, center, n);
    ModeCellFree(compact, layers, n);
    ModeCellNear(compact, layers, n);
    if cell in ModeCells(compact, center, modeMessage) {
      var m :| 0 <= m < |modeMessage| && modeMessage[m] && ModeCell(compact, center, m) == cell;
      ModeCellsDistinct(compact, center, m, n);
    }
    if cell in DataCells(compact, layers, messageBits, layers) {
      var s := FindInData(compact, layers, messageBits, layers, cell);
      DataCellPlace(compact, layers, s);
      assert false;
    }
  }
}
