/** Where the bits of an Aztec symbol go: alignment map and four-armed spiral (core/src/aztec/AZEncoder.cpp:263-308). */
module AztecLayout {

  type Cell = (int, int)

  /** The size without alignment lines. */
  function BaseMatrixSize(compact: bool, layers: nat): nat {
    (if compact then 11 else 14) + layers * 4
  }

  function MatrixSize(compact: bool, layers: nat): nat {
    var base := BaseMatrixSize(compact, layers);
    if compact then base else base + 1 + 2 * ((base / 2 - 1) / 15)
  }

  /** The matrix coordinate of a coordinate that does not count alignment lines. */
  function Align(compact: bool, layers: nat, m: int): int {
    if compact then m
    else
      var origCenter, center := BaseMatrixSize(compact, layers) / 2, MatrixSize(compact, layers) / 2;
      if m < origCenter then
        var i := origCenter - 1 - m; center - (i + i / 15) - 1
      else
        var i := m - origCenter; center + (i + i / 15) + 1
  }

  function RowSize(compact: bool, layers: nat, i: int): int {
    (layers - i) * 4 + (if compact then 9 else 12)
  }

  /** Index of the first bit of layer i, counted from the outside. */
  function RowOffset(compact: bool, layers: nat, i: nat): int {
    if i == 0 then 0 else RowOffset(compact, layers, i - 1) + 8 * RowSize(compact, layers, i - 1)
  }

  function TotalBitsInLayer(layers: nat, compact: bool): nat {
    ((if compact then 88 else 112) + 16 * layers) * layers
  }

  /** A data bit: layer, arm of the spiral, and number within the arm. */
  datatype Slot = Slot(i: nat, arm: nat, c: nat)

  predicate ValidSlot(compact: bool, layers: nat, s: Slot) {
    s.i < layers && s.arm < 4 && s.c < 2 * RowSize(compact, layers, s.i)
  }

  function Index(compact: bool, layers: nat, s: Slot): int {
    RowOffset(compact, layers, s.i) + s.arm * (2 * RowSize(compact, layers, s.i)) + s.c
  }

  function BaseCell(compact: bool, layers: nat, s: Slot): Cell {
    var low := s.i * 2;
    var high := BaseMatrixSize(compact, layers) - 1 - low;
    var j, k := s.c / 2, s.c % 2;
    if s.arm == 0 then (low + k, low + j) // left columns
    else if s.arm == 1 then (low + j, high - k) // bottom rows
    else if s.arm == 2 then (high - k, high - j) // right columns
    else (high - j, low + k) // top rows
  }

  function DataCell(compact: bool, layers: nat, s: Slot): Cell {
    var (x, y) := BaseCell(compact, layers, s);
    (Align(compact, layers, x), Align(compact, layers, y))
  }

  // ----- the spiral -----

  lemma BaseCellInRange(compact: bool, layers: nat, s: Slot)
    requires ValidSlot(compact, layers, s)
    ensures var (x, y) := BaseCell(compact, layers, s); var base := BaseMatrixSize(compact, layers);
      2 * s.i <= x <= base - 1 - 2 * s.i && 2 * s.i <= y <= base - 1 - 2 * s.i
  {
  }

  /** One coordinate lies in the two outermost lines of the layer. */
  lemma BaseCellOnRing(compact: bool, layers: nat, s: Slot)
    requires ValidSlot(compact, layers, s)
    ensures var (x, y) := BaseCell(compact, layers, s);
      OnRing(compact, layers, s.i, x) || OnRing(compact, layers, s.i, y)
  {
  }

  predicate OnRing(compact: bool, layers: nat, i: nat, u: int) {
    var high := BaseMatrixSize(compact, layers) - 1 - 2 * i;
    u == 2 * i || u == 2 * i + 1 || u == high || u == high - 1
  }

  /** Different data bits have different cells. */
  lemma BaseCellsDistinct(compact: bool, layers: nat, s: Slot, t: Slot)
    requires ValidSlot(compact, layers, s) && ValidSlot(compact, layers, t)
    requires BaseCell(compact, layers, s) == BaseCell(compact, layers, t)
    ensures s == t
  {
    BaseCellInRange(compact, layers, s);
    BaseCellInRange(compact, layers, t);
    BaseCellOnRing(compact, layers, s);
    BaseCellOnRing(compact, layers, t);
    assert s.i == t.i;
    SameLayer(compact, layers, s, t);
  }

  lemma SameLayer(compact: bool, layers: nat, s: Slot, t: Slot)
    requires ValidSlot(compact, layers, s) && ValidSlot(compact, layers, t) && s.i == t.i
    requires BaseCell(compact, layers, s) == BaseCell(compact, layers, t)
    ensures s == t
  {
    var low := s.i * 2;
    var high := BaseMatrixSize(compact, layers) - 1 - low;
    assert high - low == RowSize(compact, layers, s.i) + 1;
    assert s.c == 2 * (s.c / 2) + s.c % 2 && t.c == 2 * (t.c / 2) + t.c % 2;
    assert 0 <= s.c / 2 < RowSize(compact, layers, s.i) && 0 <= t.c / 2 < RowSize(compact, layers, s.i);
    assert s.arm == t.arm;
  }

  // ----- the alignment map -----

  lemma AlignMonotone(compact: bool, layers: nat, m: int, n: int)
    requires m < n
    ensures Align(compact, layers, m) < Align(compact, layers, n)
  {
    if !compact {
      var h := BaseMatrixSize(compact, layers) / 2;
      if n < h {
        StretchMonotone(h - 1 - n, h - 1 - m);
      } else if m >= h {
        StretchMonotone(m - h, n - h);
      }
    }
  }

  lemma StretchMonotone(i: int, j: int)
    requires i < j
    ensures i + i / 15 < j + j / 15
  {
  }

  lemma Centre(layers: nat)
    ensures var h := BaseMatrixSize(false, layers) / 2; var q := (h - 1) / 15; var size := MatrixSize(false, layers);
      BaseMatrixSize(false, layers) == 2 * h && h == 7 + 2 * layers && size == 2 * (h + q) + 1 && size / 2 == h + q
  {
    var h := 7 + 2 * layers;
    assert BaseMatrixSize(false, layers) == 2 * h;
    var q := (h - 1) / 15;
    OddHalf(h + q);
  }

  lemma OddHalf(n: int)
    ensures (2 * n + 1) / 2 == n && 2 * n / 2 == n
  {
  }

  lemma AlignInRange(compact: bool, layers: nat, m: int)
    requires 0 <= m < BaseMatrixSize(compact, layers)
    ensures 0 <= Align(compact, layers, m) < MatrixSize(compact, layers)
  {
    if !compact {
      hide MatrixSize, BaseMatrixSize;
      Centre(layers);
      var h := BaseMatrixSize(compact, layers) / 2;
      StretchBound(if m < h then h - 1 - m else m - h, h - 1);
    }
  }

  lemma StretchBound(i: int, n: int)
    requires i <= n
    ensures i + i / 15 <= n + n / 15
  {
  }

  /** Data lines avoid the reference grid, which runs at multiples of 16 from the centre. */
  lemma AlignOffGrid(layers: nat, m: int)
    ensures (Align(false, layers, m) - MatrixSize(false, layers) / 2) % 16 != 0
  {
    var h := BaseMatrixSize(false, layers) / 2;
    var i := if m < h then h - 1 - m else m - h;
    StretchOffGrid(i);
  }

  lemma StretchOffGrid(i: int)
    ensures (i + i / 15 + 1) % 16 != 0 && (-(i + i / 15) - 1) % 16 != 0
  {
    var q, r := i / 15, i % 15;
    assert i + q + 1 == 16 * q + (r + 1);
    assert -(i + q) - 1 == 16 * (-q - 1) + (15 - r);
  }

  /** The largest coordinate distance of the function patterns from the centre. */
  function PatternRadius(compact: bool): nat {
    if compact then 5 else 7
  }

  predicate NearCentre(compact: bool, layers: nat, cell: Cell) {
    var center, radius := MatrixSize(compact, layers) / 2, PatternRadius(compact);
    center - radius <= cell.0 <= center + radius && center - radius <= cell.1 <= center + radius
  }

  /** Data cells are inside the matrix, away from the centre pattern and off the reference grid. */
  lemma DataCellPlace(compact: bool, layers: nat, s: Slot)
    requires ValidSlot(compact, layers, s)
    ensures var (x, y) := DataCell(compact, layers, s); var size := MatrixSize(compact, layers);
      && 0 <= x < size && 0 <= y < size
      && !NearCentre(compact, layers, (x, y))
      && (!compact ==> (x - size / 2) % 16 != 0 && (y - size / 2) % 16 != 0)
  {
    hide Align, MatrixSize, BaseCell;
    var (x, y) := BaseCell(compact, layers, s);
    BaseCellInRange(compact, layers, s);
    BaseCellOnRing(compact, layers, s);
    AlignInRange(compact, layers, x);
    AlignInRange(compact, layers, y);
    if OnRing(compact, layers, s.i, x) {
      RingOutside(compact, layers, s.i, x);
    } else {
      RingOutside(compact, layers, s.i, y);
    }
    if !compact {
      AlignOffGrid(layers, x);
      AlignOffGrid(layers, y);
    }
  }

  lemma RingOutside(compact: bool, layers: nat, i: nat, u: int)
    requires i < layers && OnRing(compact, layers, i, u)
    ensures var center, radius := MatrixSize(compact, layers) / 2, PatternRadius(compact);
      Align(compact, layers, u) < center - radius || Align(compact, layers, u) > center + radius
  {
    var h := BaseMatrixSize(compact, layers) / 2;
    if !compact {
      var t := if u < h then h - 1 - u else u - h;
      StretchBound(7, t);
    }
  }

  lemma DataCellsDistinct(compact: bool, layers: nat, s: Slot, t: Slot)
    requires ValidSlot(compact, layers, s) && ValidSlot(compact, layers, t)
    requires DataCell(compact, layers, s) == DataCell(compact, layers, t)
    ensures s == t
  {
    hide Align, BaseCell;
    var (x, y) := BaseCell(compact, layers, s);
    var (u, v) := BaseCell(compact, layers, t);
    AlignInjective(compact, layers, x, u);
    AlignInjective(compact, layers, y, v);
    BaseCellsDistinct(compact, layers, s, t);
  }

  lemma AlignInjective(compact: bool, layers: nat, m: int, n: int)
    requires Align(compact, layers, m) == Align(compact, layers, n)
    ensures m == n
  {
    hide Align;
    if m < n {
      AlignMonotone(compact, layers, m, n);
    } else if n < m {
      AlignMonotone(compact, layers, n, m);
    }
  }

  // ----- the numbering of the bits -----

  /** The layers' rows hold exactly the bits that TotalBitsInLayer counts. */
  lemma {:induction false} RowOffsetClosed(compact: bool, layers: nat, i: nat)
    requires i <= layers
    ensures RowOffset(compact, layers, i) == ((if compact then 88 else 112) + 32 * layers) * i - 16 * (i * i)
  {
    var b := if compact then 88 else 112;
    if i > 0 {
      RowOffsetClosed(compact, layers, i - 1);
      var n := (b + 32 * layers);
      assert n * i == n * (i - 1) + n;
      assert i * i == (i - 1) * (i - 1) + 2 * i - 1;
    }
  }

  lemma RowOffsetTotal(compact: bool, layers: nat)
    ensures RowOffset(compact, layers, layers) == TotalBitsInLayer(layers, compact)
  {
    RowOffsetClosed(compact, layers, layers);
    var b := if compact then 88 else 112;
    assert (b + 32 * layers) * layers - 16 * (layers * layers) == (b + 16 * layers) * layers;
  }

  lemma {:induction false} RowOffsetMonotone(compact: bool, layers: nat, i: nat, i': nat)
    requires i < i' <= layers
    ensures 0 <= RowOffset(compact, layers, i)
    ensures RowOffset(compact, layers, i) + 8 * RowSize(compact, layers, i) <= RowOffset(compact, layers, i')
    decreases i'
  {
    RowOffsetNonNegative(compact, layers, i);
    if i < i' - 1 {
      RowOffsetMonotone(compact, layers, i, i' - 1);
    }
  }

  lemma {:induction false} RowOffsetNonNegative(compact: bool, layers: nat, i: nat)
    requires i <= layers
    ensures RowOffset(compact, layers, i) >= 0
  {
    if i > 0 {
      RowOffsetNonNegative(compact, layers, i - 1);
    }
  }

  lemma IndexInRange(compact: bool, layers: nat, s: Slot)
    requires ValidSlot(compact, layers, s)
    ensures 0 <= RowOffset(compact, layers, s.i) <= Index(compact, layers, s)
    ensures Index(compact, layers, s) < RowOffset(compact, layers, s.i) + 8 * RowSize(compact, layers, s.i)
    ensures Index(compact, layers, s) < TotalBitsInLayer(layers, compact)
  {
    hide RowOffset, RowSize, TotalBitsInLayer;
    RowOffsetTotal(compact, layers);
    RowOffsetMonotone(compact, layers, s.i, layers);
    var w := 2 * RowSize(compact, layers, s.i);
    assert s.arm * w == (if s.arm == 0 then 0 else if s.arm == 1 then w else if s.arm == 2 then 2 * w else 3 * w);
  }

  lemma IndexInjective(compact: bool, layers: nat, s: Slot, t: Slot)
    requires ValidSlot(compact, layers, s) && ValidSlot(compact, layers, t)
    requires Index(compact, layers, s) == Index(compact, layers, t)
    ensures s == t
  {
    hide RowOffset, RowSize;
    IndexInRange(compact, layers, s);
    IndexInRange(compact, layers, t);
    if s.i < t.i {
      RowOffsetMonotone(compact, layers, s.i, t.i);
    } else if t.i < s.i {
      RowOffsetMonotone(compact, layers, t.i, s.i);
    } else {
      var w := 2 * RowSize(compact, layers, s.i);
      assert s.arm * w == (if s.arm == 0 then 0 else if s.arm == 1 then w else if s.arm == 2 then 2 * w else 3 * w);
      assert t.arm * w == (if t.arm == 0 then 0 else if t.arm == 1 then w else if t.arm == 2 then 2 * w else 3 * w);
    }
  }

  /** The slot of bit n, which lies in one of the first i layers. */
  ghost function SlotOf(compact: bool, layers: nat, n: nat, i: nat): (s: Slot)
    requires i <= layers && n < RowOffset(compact, layers, i)
    ensures ValidSlot(compact, layers, s) && Index(compact, layers, s) == n
    decreases i
  {
    if n < RowOffset(compact, layers, i - 1) then SlotOf(compact, layers, n, i - 1)
    else
      var m, w := n - RowOffset(compact, layers, i - 1), 2 * RowSize(compact, layers, i - 1);
      if m < w then Slot(i - 1, 0, m)
      else if m < 2 * w then Slot(i - 1, 1, m - w)
      else if m < 3 * w then Slot(i - 1, 2, m - 2 * w)
      else Slot(i - 1, 3, m - 3 * w)
  }
}
