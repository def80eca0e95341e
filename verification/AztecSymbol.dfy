/** Drawing an Aztec symbol and reading its bits back (AZEncoder.cpp:27-43, 98-135, 283-327, AZDecoder.cpp:73-117). */
module AztecSymbol {
  import opened BitArrays
  import opened AztecLayout

  // ----- the bull's eye -----

  function Distance(a: int, b: int): nat {
    if a < b then b - a else a - b
  }

  /** Distance from the centre along the longer axis. */
  function Radius(center: int, cell: Cell): nat {
    var dx, dy := Distance(cell.0, center), Distance(cell.1, center);
    if dx < dy then dy else dx
  }

  /** Square rings at even distances, and six orientation marks at the corners. */
  predicate InBullsEye(center: int, size: int, cell: Cell) {
    var (dx, dy) := (cell.0 - center, cell.1 - center);
    || (Radius(center, cell) < size && Radius(center, cell) % 2 == 0)
    || (dx == -size && (dy == -size || dy == -size + 1))
    || (dx == -size + 1 && dy == -size)
    || (dx == size && (dy == -size || dy == -size + 1 || dy == size - 1))
  }

  method DrawBullsEye(matrix: array2<bool>, center: int, size: int)
    requires 0 < size <= center && size % 2 == 1 && center + size < matrix.Length0 == matrix.Length1
    modifies matrix
    ensures forall x, y :: 0 <= x < matrix.Length0 && 0 <= y < matrix.Length1 ==>
      matrix[x, y] == (old(matrix[x, y]) || InBullsEye(center, size, (x, y)))
  {
    var i := 0;
    while i < size
      invariant 0 <= i <= size + 1 && i % 2 == 0
      invariant forall x, y :: 0 <= x < matrix.Length0 && 0 <= y < matrix.Length1 ==>
        matrix[x, y] == (old(matrix[x, y]) || (Radius(center, (x, y)) < i && Radius(center, (x, y)) % 2 == 0))
    {
      DrawRing(matrix, center, i);
      i := i + 2;
    }
    matrix[center - size, center - size] := true;
    matrix[center - size + 1, center - size] := true;
    matrix[center - size, center - size + 1] := true;
    matrix[center + size, center - size] := true;
    matrix[center + size, center - size + 1] := true;
    matrix[center + size, center + size - 1] := true;
  }

  method DrawRing(matrix: array2<bool>, center: int, i: int)
    requires 0 <= i <= center && center + i < matrix.Length0 == matrix.Length1
    modifies matrix
    ensures forall x, y :: 0 <= x < matrix.Length0 && 0 <= y < matrix.Length1 ==>
      matrix[x, y] == (old(matrix[x, y]) || Radius(center, (x, y)) == i)
  {
    for j := center - i to center + i + 1
      invariant forall x, y :: 0 <= x < matrix.Length0 && 0 <= y < matrix.Length1 ==>
        matrix[x, y] == (old(matrix[x, y])
          || (center - i <= x < j && Distance(y, center) == i) || (center - i <= y < j && Distance(x, center) == i))
    {
      matrix[j, center - i] := true;
      matrix[j, center + i] := true;
      matrix[center - i, j] := true;
      matrix[center + i, j] := true;
    }
  }

  // ----- the mode message -----

  /** Bits of the mode message along one side. */
  function ModeSide(compact: bool): nat {
    if compact then 7 else 10
  }

  function ModeOffset(compact: bool, center: int, i: int): int {
    if compact then center - 3 + i else center - 5 + i + i / 5
  }

  /** The four sides clockwise from the top left. */
  function ModeCell(compact: bool, center: int, n: nat): Cell {
    var (side, radius) := (ModeSide(compact), if compact then 5 else 7);
    if n < side then (ModeOffset(compact, center, n), center - radius)
    else if n < 2 * side then (center + radius, ModeOffset(compact, center, n - side))
    else if n < 3 * side then (ModeOffset(compact, center, 3 * side - 1 - n), center + radius)
    else (center - radius, ModeOffset(compact, center, 4 * side - 1 - n))
  }

  /** The dark modules of the mode message. */
  function ModeCells(compact: bool, center: int, modeMessage: Bitstring): set<Cell> {
    set n | 0 <= n < |modeMessage| && modeMessage[n] :: ModeCell(compact, center, n)
  }

  // ----- the matrix as a set of dark modules -----

  ghost function Dark(matrix: array2<bool>): set<Cell>
    reads matrix
  {
    set x, y | 0 <= x < matrix.Length0 && 0 <= y < matrix.Length1 && matrix[x, y] :: (x, y)
  }

  method SetModule(matrix: array2<bool>, on: bool, x: int, y: int)
    requires 0 <= x < matrix.Length0 && 0 <= y < matrix.Length1
    modifies matrix
    ensures Dark(matrix) == old(Dark(matrix)) + if on then {(x, y)} else {}
  {
    if on {
      matrix[x, y] := true;
    }
  }

  /** The mode message with the bits that have not been drawn yet left out. */
  ghost function Masked(modeMessage: Bitstring, drawn: seq<bool>): (r: Bitstring)
    requires |drawn| == |modeMessage|
    ensures |r| == |modeMessage|
  {
    seq(|drawn|, n requires 0 <= n < |drawn| => drawn[n] && modeMessage[n])
  }

  method SetModeModule(matrix: array2<bool>, compact: bool, center: int, modeMessage: Bitstring, n: nat, x: int, y: int,
                       ghost drawn: seq<bool>, ghost before: set<Cell>) returns (ghost drawn': seq<bool>)
    requires 0 <= x < matrix.Length0 && 0 <= y < matrix.Length1
    requires n < |modeMessage| == |drawn| && ModeCell(compact, center, n) == (x, y)
    requires Dark(matrix) == before + ModeCells(compact, center, Masked(modeMessage, drawn))
    modifies matrix
    ensures drawn' == drawn[n := true]
    ensures Dark(matrix) == before + ModeCells(compact, center, Masked(modeMessage, drawn'))
  {
    hide ModeCell;
    SetModule(matrix, modeMessage[n], x, y);
    drawn' := drawn[n := true];
    var was, now := Masked(modeMessage, drawn), Masked(modeMessage, drawn');
    forall m | 0 <= m < |modeMessage|
      ensures now[m] == (was[m] || (m == n && modeMessage[n]))
    {
    }
    assert ModeCells(compact, center, now) ==
           ModeCells(compact, center, was) + if modeMessage[n] then {(x, y)} else {};
  }

  /** The bits of the first i positions on each side. */
  ghost predicate DrawnBits(side: nat, i: nat, drawn: seq<bool>) {
    && |drawn| == 4 * side
    && forall n | 0 <= n < 4 * side
         :: drawn[n] == (n < i || side <= n < side + i || 3 * side - i <= n < 3 * side || 4 * side - i <= n)
  }

  method DrawModeMessage(matrix: array2<bool>, compact: bool, matrixSize: nat, modeMessage: Bitstring)
    requires matrix.Length0 == matrix.Length1 == matrixSize >= 15 && |modeMessage| == 4 * ModeSide(compact)
    modifies matrix
    ensures Dark(matrix) == old(Dark(matrix)) + ModeCells(compact, matrixSize / 2, modeMessage)
  {
    if compact {
      DrawCompactMode(matrix, matrixSize / 2, modeMessage);
    } else {
      DrawFullMode(matrix, matrixSize / 2, modeMessage);
    }
  }

  method DrawCompactMode(matrix: array2<bool>, center: int, modeMessage: Bitstring)
    requires 5 <= center && center + 5 < matrix.Length0 == matrix.Length1 && |modeMessage| == 28
    modifies matrix
    ensures Dark(matrix) == old(Dark(matrix)) + ModeCells(true, center, modeMessage)
  {
    hide Dark, ModeCells, Masked, DrawnBits;
    ghost var before := Dark(matrix);
    ghost var drawn := StartDrawing(true, center, modeMessage);
    for i := 0 to 7
      invariant DrawnBits(7, i, drawn) && |drawn| == 28
      invariant Dark(matrix) == before + ModeCells(true, center, Masked(modeMessage, drawn))
    {
      var offset := center - 3 + i;
      DrawnNext(7, i, drawn);
      drawn := SetModeModule(matrix, true, center, modeMessage, i, offset, center - 5, drawn, before);
      drawn := SetModeModule(matrix, true, center, modeMessage, i + 7, center + 5, offset, drawn, before);
      drawn := SetModeModule(matrix, true, center, modeMessage, 20 - i, offset, center + 5, drawn, before);
      drawn := SetModeModule(matrix, true, center, modeMessage, 27 - i, center - 5, offset, drawn, before);
    }
    AllDrawn(7, drawn, modeMessage);
  }

  method DrawFullMode(matrix: array2<bool>, center: int, modeMessage: Bitstring)
    requires 7 <= center && center + 7 < matrix.Length0 == matrix.Length1 && |modeMessage| == 40
    modifies matrix
    ensures Dark(matrix) == old(Dark(matrix)) + ModeCells(false, center, modeMessage)
  {
    hide Dark, ModeCells, Masked, DrawnBits;
    ghost var before := Dark(matrix);
    ghost var drawn := StartDrawing(false, center, modeMessage);
    for i := 0 to 10
      invariant DrawnBits(10, i, drawn) && |drawn| == 40
      invariant Dark(matrix) == before + ModeCells(false, center, Masked(modeMessage, drawn))
    {
      var offset := center - 5 + i + i / 5;
      DrawnNext(10, i, drawn);
      drawn := SetModeModule(matrix, false, center, modeMessage, i, offset, center - 7, drawn, before);
      drawn := SetModeModule(matrix, false, center, modeMessage, i + 10, center + 7, offset, drawn, before);
      drawn := SetModeModule(matrix, false, center, modeMessage, 29 - i, offset, center + 7, drawn, before);
      drawn := SetModeModule(matrix, false, center, modeMessage, 39 - i, center - 7, offset, drawn, before);
    }
    AllDrawn(10, drawn, modeMessage);
  }

  lemma StartDrawing(compact: bool, center: int, modeMessage: Bitstring) returns (drawn: seq<bool>)
    requires |modeMessage| == 4 * ModeSide(compact)
    ensures DrawnBits(ModeSide(compact), 0, drawn) && |drawn| == |modeMessage|
    ensures ModeCells(compact, center, Masked(modeMessage, drawn)) == {}
  {
    drawn := Falses(4 * ModeSide(compact));
  }

  lemma DrawnNext(side: nat, i: nat, drawn: seq<bool>)
    requires DrawnBits(side, i, drawn) && i < side
    ensures |drawn| == 4 * side
    ensures DrawnBits(side, i + 1,
      drawn[i := true][i + side := true][3 * side - 1 - i := true][4 * side - 1 - i := true])
  {
  }

  lemma AllDrawn(side: nat, drawn: seq<bool>, modeMessage: Bitstring)
    requires DrawnBits(side, side, drawn) && |modeMessage| == 4 * side
    ensures |drawn| == 4 * side && Masked(modeMessage, drawn) == modeMessage
  {
  }

  // ----- the reference grid -----

  /** Every other module of the two lines at distance d from the centre, in the first k places. */
  predicate OnLine(size: int, d: int, u: int, v: int, k: int) {
    v < k && v % 2 == (size / 2) % 2 && Distance(u, size / 2) == d
  }

  /** On one of the lines at multiples of 16 that are closer to the centre than j. */
  predicate OnLines(size: int, j: int, u: int, v: int) {
    v % 2 == (size / 2) % 2 && Distance(u, size / 2) % 16 == 0 && Distance(u, size / 2) < j
  }

  /** The lines stop where their number times 15 reaches half the size without them. */
  predicate InGrid(size: int, base: int, cell: Cell) {
    var j := (base / 2 - 1 + 14) / 15 * 16;
    OnLines(size, j, cell.0, cell.1) || OnLines(size, j, cell.1, cell.0)
  }

  method DrawGridLines(matrix: array2<bool>, matrixSize: int, j: int)
    requires 0 <= j <= matrixSize / 2 && j + matrixSize / 2 < matrix.Length0 == matrix.Length1 == matrixSize
    modifies matrix
    ensures forall x, y :: 0 <= x < matrixSize && 0 <= y < matrixSize ==>
      matrix[x, y] == (old(matrix[x, y]) || OnLine(matrixSize, j, x, y, matrixSize) || OnLine(matrixSize, j, y, x, matrixSize))
  {
    var k := matrixSize / 2 % 2;
    while k < matrixSize
      invariant 0 <= k <= matrixSize + 1 && k % 2 == matrixSize / 2 % 2
      invariant forall x, y :: 0 <= x < matrixSize && 0 <= y < matrixSize ==>
        matrix[x, y] == (old(matrix[x, y]) || OnLine(matrixSize, j, x, y, k) || OnLine(matrixSize, j, y, x, k))
    {
      matrix[matrixSize / 2 - j, k] := true;
      matrix[matrixSize / 2 + j, k] := true;
      matrix[k, matrixSize / 2 - j] := true;
      matrix[k, matrixSize / 2 + j] := true;
      k := k + 2;
    }
  }

  method DrawGrid(matrix: array2<bool>, layers: nat, matrixSize: nat, baseMatrixSize: nat)
    requires baseMatrixSize == BaseMatrixSize(false, layers) && matrixSize == MatrixSize(false, layers)
    requires matrix.Length0 == matrix.Length1 == matrixSize
    modifies matrix
    ensures forall x, y :: 0 <= x < matrixSize && 0 <= y < matrixSize ==>
      matrix[x, y] == (old(matrix[x, y]) || InGrid(matrixSize, baseMatrixSize, (x, y)))
  {
    Centre(layers);
    hide Distance;
    var i, j := 0, 0;
    ghost var t := 0;
    while i < baseMatrixSize / 2 - 1
      invariant 0 <= t && i == 15 * t && j == 16 * t
      invariant t > 0 ==> 15 * (t - 1) < baseMatrixSize / 2 - 1
      invariant forall x, y :: 0 <= x < matrixSize && 0 <= y < matrixSize ==>
        matrix[x, y] == (old(matrix[x, y]) || OnLines(matrixSize, j, x, y) || OnLines(matrixSize, j, y, x))
    {
      GridLineInRange(layers, t);
      DrawGridLines(matrix, matrixSize, j);
      forall x, y | 0 <= x < matrixSize && 0 <= y < matrixSize
        ensures OnLines(matrixSize, j + 16, x, y) == (OnLines(matrixSize, j, x, y) || OnLine(matrixSize, j, x, y, matrixSize))
        ensures OnLines(matrixSize, j + 16, y, x) == (OnLines(matrixSize, j, y, x) || OnLine(matrixSize, j, y, x, matrixSize))
      {
        NextLine(matrixSize, t, x, y);
        NextLine(matrixSize, t, y, x);
      }
      i := i + 15;
      j := j + 16;
      t := t + 1;
    }
    GridEnd(baseMatrixSize / 2 - 1, t);
  }

  lemma GridEnd(n: int, t: int)
    requires n > 0 && 15 * (t - 1) < n <= 15 * t
    ensures (n + 14) / 15 * 16 == 16 * t
  {
  }

  lemma GridLineInRange(layers: nat, t: nat)
    requires 15 * t < BaseMatrixSize(false, layers) / 2 - 1
    ensures 16 * t <= MatrixSize(false, layers) / 2 && 16 * t + MatrixSize(false, layers) / 2 < MatrixSize(false, layers)
  {
    hide MatrixSize, BaseMatrixSize;
    Centre(layers);
  }

  lemma NextLine(size: int, t: nat, u: int, v: int)
    requires v < size
    ensures OnLines(size, 16 * t + 16, u, v) == (OnLines(size, 16 * t, u, v) || OnLine(size, 16 * t, u, v, size))
  {
    var d := Distance(u, size / 2);
    if d % 16 == 0 {
      assert d == 16 * (d / 16);
    }
  }
}
