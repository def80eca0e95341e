/** The shape of an Aztec symbol: what its modules are used for, and which way round (AZEncoder.cpp:98-135, 263-327). */
module AztecGeometry {
  import opened AztecLayout
  import opened AztecSymbol

  // ----- turning the symbol -----

  /** A quarter turn anticlockwise of a square of the given size; rows run downwards. */
  function TurnBack(size: int, cell: Cell): Cell {
    (cell.1, size - 1 - cell.0)
  }

  /** A quarter turn clockwise about a centre. */
  function Turn(center: int, cell: Cell): Cell {
    (center - (cell.1 - center), center + (cell.0 - center))
  }

  lemma AlignSymmetric(compact: bool, layers: nat, m: int)
    ensures Align(compact, layers, BaseMatrixSize(compact, layers) - 1 - m)
      == MatrixSize(compact, layers) - 1 - Align(compact, layers, m)
  {
    if !compact {
      Centre(layers);
    }
  }

  /** The arms of the spiral follow one another by quarter turns anticlockwise, beginning at the top left corner. */
  lemma ArmsTurn(compact: bool, layers: nat, s: Slot)
    requires ValidSlot(compact, layers, s) && s.arm < 3
    ensures DataCell(compact, layers, s.(arm := s.arm + 1)) == TurnBack(MatrixSize(compact, layers), DataCell(compact, layers, s))
  {
    hide Align, MatrixSize;
    var (x, y) := BaseCell(compact, layers, s);
    AlignSymmetric(compact, layers, x);
  }

  /** The first arm of a layer runs down its two outer columns, two bits to a row, the outer one first. */
  lemma FirstArm(compact: bool, layers: nat, i: nat, j: nat, k: nat)
    requires i < layers && j < RowSize(compact, layers, i) && k < 2
    ensures DataCell(compact, layers, Slot(i, 0, 2 * j + k))
      == (Align(compact, layers, 2 * i + k), Align(compact, layers, 2 * i + j))
  {
    hide Align;
    assert (2 * j + k) / 2 == j && (2 * j + k) % 2 == k;
  }

  /** The outermost data modules are at the border. */
  lemma AlignAtBorder(compact: bool, layers: nat)
    ensures Align(compact, layers, 0) == 0
  {
    if !compact {
      Centre(layers);
    }
  }

  // ----- every module has its use -----

  /** On a line of the reference grid. */
  predicate OnGridLine(compact: bool, layers: nat, u: int) {
    !compact && (u - MatrixSize(compact, layers) / 2) % 16 == 0
  }

  /** A line off the grid is that of some coordinate. */
  lemma Aligned(compact: bool, layers: nat, u: int) returns (m: int)
    requires 0 <= u < MatrixSize(compact, layers) && !OnGridLine(compact, layers, u)
    ensures 0 <= m < BaseMatrixSize(compact, layers) && Align(compact, layers, m) == u
  {
    if compact {
      m := u;
    } else {
      Centre(layers);
      hide BaseMatrixSize, MatrixSize;
      var h, c := BaseMatrixSize(compact, layers) / 2, MatrixSize(compact, layers) / 2;
      var v := if u > c then u - c - 1 else c - 1 - u;
      OffLine(u - c);
      var t := Unstretched(v);
      StretchInverse(t, h - 1, v, c - h);
      m := if u > c then h + t else h - 1 - t;
    }
  }

  lemma OffLine(d: int)
    requires d % 16 != 0
    ensures d != 0 && ((if d > 0 then d - 1 else -1 - d) + 1) % 16 != 0
  {
    if d < 0 {
      assert d == 16 * (d / 16) + d % 16;
      assert -d == 16 * (-(d / 16) - 1) + (16 - d % 16);
    }
  }

  lemma Unstretched(v: int) returns (t: int)
    requires v >= 0 && (v + 1) % 16 != 0
    ensures t >= 0 && t + t / 15 == v
  {
    var q, r := v / 16, v % 16;
    assert r != 15;
    t := 15 * q + r;
    assert t / 15 == q;
  }

  lemma StretchInverse(t: int, n: int, v: int, q: int)
    requires t >= 0 && t + t / 15 == v <= n + q && q == n / 15
    ensures t <= n
  {
    if t > n {
      StretchBound(n + 1, t);
    }
  }

  lemma SlotAt(compact: bool, layers: nat, i: nat, arm: nat, j: nat, k: nat) returns (s: Slot)
    requires i < layers && arm < 4 && k < 2 && j + 4 * i + 2 < BaseMatrixSize(compact, layers)
    ensures ValidSlot(compact, layers, s)
    ensures var low, high := 2 * i, BaseMatrixSize(compact, layers) - 1 - 2 * i;
      BaseCell(compact, layers, s) ==
      match arm case 0 => (low + k, low + j) case 1 => (low + j, high - k) case 2 => (high - k, high - j)
                case _ => (high - j, low + k)
  {
    s := Slot(i, arm, 2 * j + k);
    assert s.c / 2 == j && s.c % 2 == k;
  }

  /** Between the lines of a layer, on one of its two outermost lines. */
  predicate InLayer(base: int, i: nat, x: int, y: int) {
    var low, high := 2 * i, base - 1 - 2 * i;
    && low <= x <= high && low <= y <= high && low + 3 <= high
    && (x - low < 2 || high - x < 2 || y - low < 2 || high - y < 2)
  }

  lemma LayerOf(base: int, layers: nat, x: int, y: int) returns (i: nat)
    requires 0 <= x < base && 0 <= y < base && base >= 4 * layers + 3
    requires x < 2 * layers || x >= base - 2 * layers || y < 2 * layers || y >= base - 2 * layers
    ensures i < layers && InLayer(base, i, x, y)
  {
    var d := Least(x, y, base - 1 - x, base - 1 - y);
    i := d / 2;
  }

  /** A coordinate pair outside the middle square belongs to a layer, an arm and a place. */
  lemma BaseSlot(compact: bool, layers: nat, x: int, y: int) returns (s: Slot)
    requires var base := BaseMatrixSize(compact, layers);
      && 0 <= x < base && 0 <= y < base
      && (x < 2 * layers || x >= base - 2 * layers || y < 2 * layers || y >= base - 2 * layers)
    ensures ValidSlot(compact, layers, s) && BaseCell(compact, layers, s) == (x, y)
  {
    var base := BaseMatrixSize(compact, layers);
    assert base >= 4 * layers + 3;
    hide BaseMatrixSize, BaseCell, ValidSlot;
    var i := LayerOf(base, layers, x, y);
    var low, high := 2 * i, base - 1 - 2 * i;
    if x - low < 2 && y <= high - 2 {
      s := SlotAt(compact, layers, i, 0, y - low, x - low);
    } else if high - y < 2 && x <= high - 2 {
      s := SlotAt(compact, layers, i, 1, x - low, high - y);
    } else if high - x < 2 && y >= low + 2 {
      s := SlotAt(compact, layers, i, 2, high - y, high - x);
    } else {
      s := SlotAt(compact, layers, i, 3, high - x, y - low);
    }
  }

  lemma Least(a: int, b: int, c: int, d: int) returns (m: int)
    requires a >= 0 && b >= 0 && c >= 0 && d >= 0
    ensures 0 <= m <= a && m <= b && m <= c && m <= d && (m == a || m == b || m == c || m == d)
  {
    var ab, cd := if a < b then a else b, if c < d then c else d;
    m := if ab < cd then ab else cd;
  }

  /** The half width of the middle square. */
  lemma MiddleSquare(compact: bool, layers: nat, m: int)
    requires 0 <= m < BaseMatrixSize(compact, layers)
    requires 2 * layers <= m < BaseMatrixSize(compact, layers) - 2 * layers
    ensures var center, radius := MatrixSize(compact, layers) / 2, PatternRadius(compact);
      center - radius <= Align(compact, layers, m) <= center + radius
  {
    if !compact {
      Centre(layers);
    }
  }

  /**
   * Every module is in the middle square, on a line of the reference grid, or the module of a data bit: with
   * DataCellPlace exactly one of them.
   */
  lemma ModuleHasUse(compact: bool, layers: nat, x: int, y: int) returns (s: Slot)
    requires 0 <= x < MatrixSize(compact, layers) && 0 <= y < MatrixSize(compact, layers)
    requires !NearCentre(compact, layers, (x, y))
    requires !OnGridLine(compact, layers, x) && !OnGridLine(compact, layers, y)
    ensures ValidSlot(compact, layers, s) && DataCell(compact, layers, s) == (x, y)
  {
    hide Align, MatrixSize, BaseCell, BaseMatrixSize;
    var m := Aligned(compact, layers, x);
    var n := Aligned(compact, layers, y);
    var base := BaseMatrixSize(compact, layers);
    if 2 * layers <= m < base - 2 * layers && 2 * layers <= n < base - 2 * layers {
      MiddleSquare(compact, layers, m);
      MiddleSquare(compact, layers, n);
      assert false;
    } else {
      s := BaseSlot(compact, layers, m, n);
    }
  }

  // ----- the reference grid -----

  /** Every other module of the lines at multiples of 16 from the centre, in both directions. */
  predicate GridDark(layers: nat, cell: Cell) {
    var center := MatrixSize(false, layers) / 2;
    || ((cell.0 - center) % 16 == 0 && (cell.1 - center) % 2 == 0)
    || ((cell.1 - center) % 16 == 0 && (cell.0 - center) % 2 == 0)
  }

  lemma ParityOf(a: int, b: int)
    ensures a % 2 == b % 2 <==> (a - b) % 2 == 0
  {
  }

  lemma DistanceMod(a: int, b: int)
    ensures Distance(a, b) % 16 == 0 <==> (a - b) % 16 == 0
  {
    if a < b && (a - b) % 16 == 0 {
      assert b - a == 16 * -((a - b) / 16);
    }
    if a < b && (b - a) % 16 == 0 {
      assert a - b == 16 * -((b - a) / 16);
    }
  }

  /** The lines that the loop draws reach beyond the border, or they stop one short of it. */
  lemma GridReach(layers: nat)
    ensures var base, size := BaseMatrixSize(false, layers), MatrixSize(false, layers);
      var q, j := (base / 2 - 1) / 15, (base / 2 - 1 + 14) / 15 * 16;
      && size == 2 * (size / 2) + 1
      && ((layers + 3) % 15 != 0 ==> j > size / 2)
      && ((layers + 3) % 15 == 0 ==> q >= 1 && j == 16 * q && size / 2 == 16 * q + 1)
  {
    Centre(layers);
    var n := 6 + 2 * layers;
    var q, r := n / 15, n % 15;
    assert BaseMatrixSize(false, layers) / 2 - 1 == n;
    TwiceMod(layers + 3);
    if r == 0 {
      assert (n + 14) / 15 == q;
    } else {
      assert (n + 14) / 15 == q + 1;
    }
  }

  lemma TwiceMod(a: nat)
    ensures 2 * a % 15 == 0 <==> a % 15 == 0
  {
    var q, r := a / 15, a % 15;
    assert 2 * a == 15 * (2 * q) + 2 * r;
  }

  lemma LinesAre(layers: nat, u: int, v: int)
    requires 0 <= u < MatrixSize(false, layers) && 0 <= v < MatrixSize(false, layers)
    ensures var size := MatrixSize(false, layers); var center, j := size / 2, (BaseMatrixSize(false, layers) / 2 - 1 + 14) / 15 * 16;
      OnLines(size, j, u, v) <==> (u - center) % 16 == 0 && (v - center) % 2 == 0 && Distance(u, center) < j
  {
    hide MatrixSize, BaseMatrixSize, Distance;
    ParityOf(v, MatrixSize(false, layers) / 2);
    DistanceMod(u, MatrixSize(false, layers) / 2);
  }

  /**
   * The grid is drawn in full except for the numbers of layers (12 and 27 up to 32) for which its outermost lines are
   * next to the border: there the loop stops one line short of them.
   */
  lemma GridComplete(layers: nat)
    ensures (layers + 3) % 15 != 0 <==>
      (forall x, y :: 0 <= x < MatrixSize(false, layers) && 0 <= y < MatrixSize(false, layers) ==>
         (InGrid(MatrixSize(false, layers), BaseMatrixSize(false, layers), (x, y)) <==> GridDark(layers, (x, y))))
  {
    hide MatrixSize, BaseMatrixSize, OnLines;
    var size, base := MatrixSize(false, layers), BaseMatrixSize(false, layers);
    GridReach(layers);
    if (layers + 3) % 15 != 0 {
      forall x, y | 0 <= x < size && 0 <= y < size
        ensures InGrid(size, base, (x, y)) <==> GridDark(layers, (x, y))
      {
        LinesAre(layers, x, y);
        LinesAre(layers, y, x);
      }
    } else {
      GridMissing(layers);
    }
  }

  lemma GridMissing(layers: nat)
    requires (layers + 3) % 15 == 0
    ensures MatrixSize(false, layers) > 3 && GridDark(layers, (1, 3))
    ensures !InGrid(MatrixSize(false, layers), BaseMatrixSize(false, layers), (1, 3))
  {
    hide MatrixSize, BaseMatrixSize, OnLines;
    var base, size := BaseMatrixSize(false, layers), MatrixSize(false, layers);
    GridReach(layers);
    LinesAre(layers, 1, 3);
    LinesAre(layers, 3, 1);
    OneShort(size / 2, (base / 2 - 1) / 15);
  }

  lemma OneShort(center: int, q: int)
    requires center == 16 * q + 1 && q >= 1
    ensures (1 - center) % 16 == 0 && (3 - center) % 2 == 0 && (3 - center) % 16 != 0 && Distance(1, center) == 16 * q
  {
    assert 1 - center == 16 * (0 - q) && 3 - center == 2 * (1 - 8 * q) && 3 - center == 16 * (0 - q) + 2;
  }

  // ----- the middle -----

  /** Dark modules among the corner of the pattern and its two neighbours; signs tell the corner. */
  function CornerMarks(center: int, size: int, sx: int, sy: int): nat {
    (if InBullsEye(center, size, (center + sx * size, center + sy * size)) then 1 else 0)
    + (if InBullsEye(center, size, (center + sx * (size - 1), center + sy * size)) then 1 else 0)
    + (if InBullsEye(center, size, (center + sx * size, center + sy * (size - 1))) then 1 else 0)
  }

  /** Clockwise from the top left the corners have three, two, one and no dark modules. */
  lemma Orientation(center: int, size: nat)
    requires size == 5 || size == 7
    ensures CornerMarks(center, size, -1, -1) == 3 && CornerMarks(center, size, 1, -1) == 2
    ensures CornerMarks(center, size, 1, 1) == 1 && CornerMarks(center, size, -1, 1) == 0
  {
  }

  /** Which of two neighbours is dark tells a symbol from its mirror image. */
  lemma Mirror(center: int, size: nat)
    requires size == 5 || size == 7
    ensures InBullsEye(center, size, (center + size, center - size + 1)) && !InBullsEye(center, size, (center + size - 1, center - size))
    ensures InBullsEye(center, size, (center + size, center + size - 1)) && !InBullsEye(center, size, (center + size - 1, center + size))
  {
  }

  /** Inside the marks the pattern is the same whichever way it is turned: dark rings at even distances. */
  lemma Rings(center: int, size: nat, cell: Cell)
    requires (size == 5 || size == 7) && Radius(center, cell) < size
    ensures InBullsEye(center, size, cell) <==> Radius(center, cell) % 2 == 0
    ensures Radius(center, Turn(center, cell)) == Radius(center, cell)
  {
  }

  /** On the ring of the marks nothing else of the pattern is dark, and nothing is outside. */
  lemma OnlyMarks(center: int, size: nat, cell: Cell)
    requires (size == 5 || size == 7) && Radius(center, cell) >= size
    ensures InBullsEye(center, size, cell) ==>
      Radius(center, cell) == size && Distance(cell.0, center) + Distance(cell.1, center) >= 2 * size - 1
  {
  }

  /** The sides of the mode message follow one another by quarter turns clockwise. */
  lemma ModeTurns(compact: bool, center: int, n: nat)
    requires n < 3 * ModeSide(compact)
    ensures ModeCell(compact, center, n + ModeSide(compact)) == Turn(center, ModeCell(compact, center, n))
  {
    var side := ModeSide(compact);
    ModeSymmetric(compact, center, if n < side then n else if n < 2 * side then n - side else n - 2 * side);
  }

  lemma ModeSymmetric(compact: bool, center: int, i: nat)
    requires i < ModeSide(compact)
    ensures ModeOffset(compact, center, i) + ModeOffset(compact, center, ModeSide(compact) - 1 - i) == 2 * center
  {
  }

  /** The first side runs from left to right between the corner marks, past the centre line where there is a grid. */
  lemma ModeStarts(compact: bool, center: int, n: nat)
    requires n < ModeSide(compact)
    ensures var (x, y) := ModeCell(compact, center, n); var radius := PatternRadius(compact);
      && y == center - radius && center - radius + 2 <= x <= center + radius - 2
      && (n > 0 ==> ModeCell(compact, center, n - 1).0 < x)
      && (!compact ==> x != center)
  {
  }
}
