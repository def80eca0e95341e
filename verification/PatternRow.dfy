/** Run lengths of a row of pixels (core/src/Pattern.h:345-413, core/src/ThresholdBinarizer.h:22-50). */
module PatternRows {
  import opened Bits

  type byte = b: nat | b < 256

  const SET_V: byte := 255
  const UNSET_V: byte := 0

  // ----- the specification -----

  /**
   * The run lengths when the scan stands at pixel p: white first, each run up to p, and of the run of p what lies
   * before it.
   */
  function Counts(row: seq<byte>, p: nat): (c: seq<nat>)
    requires p < |row|
    ensures 0 < |c| <= p + 2
  {
    if p == 0 then if row[0] != 0 then [0, 0] else [0]
    else
      var c := AddToLast(Counts(row, p - 1), 1);
      if row[p] != row[p - 1] then c + [0] else c
  }

  function AddToLast(c: seq<nat>, n: nat): (r: seq<nat>)
    requires |c| > 0
    ensures |r| == |c|
  {
    c[|c| - 1 := c[|c| - 1] + n]
  }

  /** The run lengths of a whole row, white runs at both ends, possibly empty ones. */
  function Pattern(row: seq<byte>): (c: seq<nat>)
    requires |row| > 0
  {
    var c := AddToLast(Counts(row, |row| - 1), 1);
    if row[|row| - 1] != 0 then c + [0] else c
  }

  /** Every count is kept in 16 bits. */
  function Wrap(c: seq<nat>): (r: seq<nat>)
    ensures |r| == |c| && forall i :: 0 <= i < |c| ==> r[i] == c[i] % 0x10000
  {
    seq(|c|, i requires 0 <= i < |c| => c[i] % 0x10000)
  }

  // ----- the word-wise step -----

  /** Eight bytes as a little-endian number. */
  function LoadU(bytes: seq<byte>): nat {
    if |bytes| == 0 then 0 else bytes[0] + 256 * LoadU(bytes[1..])
  }

  function CountrZero(z: nat): (n: nat)
    requires z > 0
  {
    if z % 2 == 1 then 0 else 1 + CountrZero(z / 2)
  }

  /** A number shifted left by m bits. */
  ghost function Lift(m: nat, a: nat): nat {
    if m == 0 then a else 2 * Lift(m - 1, a)
  }

  /** Exclusive or works on the low m bits and the bits above them separately. */
  lemma {:induction false} XorParts(a0: nat, a: nat, b0: nat, b: nat, m: nat)
    requires a0 < Pow2(m) && b0 < Pow2(m)
    ensures Xor(a0 + Lift(m, a), b0 + Lift(m, b)) == Xor(a0, b0) + Lift(m, Xor(a, b))
    decreases m
  {
    hide *;
    LiftStep(m, a);
    LiftStep(m, b);
    LiftStep(m, Xor(a, b));
    BoundStep(m, a0);
    BoundStep(m, b0);
    if m == 0 {
      XorNil(0);
    } else {
      var pa, pb, pc := Lift(m - 1, a), Lift(m - 1, b), Lift(m - 1, Xor(a, b));
      HalveSum(a0, pa);
      HalveSum(b0, pb);
      LowBitsSum(a0, b0, a0 + 2 * pa, b0 + 2 * pb);
      XorStep(a0 + 2 * pa, b0 + 2 * pb);
      XorStep(a0, b0);
      XorParts(a0 / 2, a, b0 / 2, b, m - 1);
      HalveSum(Xor(a0, b0), pc);
      SplitBits(Xor(a0 + 2 * pa, b0 + 2 * pb), Xor(a0, b0) + 2 * pc);
    }
  }

  lemma LiftStep(m: nat, a: nat)
    ensures Lift(m, a) == if m == 0 then a else 2 * Lift(m - 1, a)
  {
  }

  lemma BoundStep(m: nat, a0: nat)
    requires a0 < Pow2(m)
    ensures if m == 0 then a0 == 0 else a0 / 2 < Pow2(m - 1)
  {
  }

  lemma HalveSum(a0: nat, h: nat)
    ensures (a0 + 2 * h) % 2 == a0 % 2 && (a0 + 2 * h) / 2 == a0 / 2 + h
  {
  }

  lemma LiftByte(a: nat)
    ensures Lift(8, a) == 256 * a
  {
    assert Lift(1, a) == 2 * a && Lift(2, a) == 4 * a;
    assert Lift(3, a) == 8 * a && Lift(4, a) == 16 * a;
    assert Lift(5, a) == 32 * a && Lift(6, a) == 64 * a;
    assert Lift(7, a) == 128 * a;
  }

  lemma XorBytes(a0: byte, a: nat, b0: byte, b: nat)
    ensures Xor(a0 + 256 * a, b0 + 256 * b) == Xor(a0, b0) + 256 * Xor(a, b)
    ensures Xor(a0, b0) < 256
  {
    hide Xor, Pow2, Lift;
    SmallPowers();
    LiftByte(a);
    LiftByte(b);
    LiftByte(Xor(a, b));
    XorParts(a0, a, b0, b, 8);
    XorBound(a0, b0, 8);
  }

  lemma TwiceTrailingZeros(w: nat)
    requires w > 0
    ensures CountrZero(2 * w) == 1 + CountrZero(w)
  {
  }

  lemma {:induction false} LiftTrailingZeros(z: nat, k: nat)
    requires z > 0
    ensures Lift(k, z) > 0 && CountrZero(Lift(k, z)) == k + CountrZero(z)
    decreases k
  {
    hide CountrZero;
    if k > 0 {
      LiftTrailingZeros(z, k - 1);
      TwiceTrailingZeros(Lift(k - 1, z));
    }
  }

  /** A set bit among the lowest m stops the count. */
  lemma {:induction false} FewTrailingZeros(z: nat, m: nat)
    requires z % Pow2(m) != 0
    ensures z > 0 && CountrZero(z) < m
    decreases m
  {
    if m > 0 && z % 2 == 0 {
      SplitMod(z, Pow2(m - 1));
      FewTrailingZeros(z / 2, m - 1);
    }
  }

  /** Index of the first pair of neighbours that differ, |row| - 1 when there is none. */
  function FirstChange(row: seq<byte>): (i: nat)
    requires |row| > 0
    ensures i <= |row| - 1
  {
    if |row| == 1 then 0 else if row[0] != row[1] then 0 else 1 + FirstChange(row[1..])
  }

  /** The difference of two words, the first of which is the second with a byte put in front. */
  function Differences(row: seq<byte>): nat
    requires |row| > 0
  {
    Xor(LoadU(row[..|row| - 1]), LoadU(row[1..]))
  }

  /** One byte of the difference comes from the first two pixels, the others from the rest of the row. */
  lemma DifferencesStep(row: seq<byte>)
    requires |row| > 1
    ensures Differences(row) == Xor(row[0], row[1]) + 256 * Differences(row[1..])
    ensures Xor(row[0], row[1]) < 256 && (Xor(row[0], row[1]) == 0 <==> row[0] == row[1])
  {
    hide Xor;
    var n, rest := |row| - 1, row[1..];
    var a, b := row[..n], row[1..];
    assert a[1..] == rest[..n - 1] && b[1..] == rest[1..];
    XorBytes(a[0], LoadU(a[1..]), b[0], LoadU(b[1..]));
    XorZero(row[0], row[1]);
  }

  lemma NoDifferences(row: seq<byte>)
    requires |row| == 1
    ensures Differences(row) == 0
  {
    hide Xor;
    XorNil(0);
  }

  /** The lowest non-zero byte of a number d + 256 * w. */
  lemma LowestByte(d: nat, w: nat)
    requires d < 256 && d + 256 * w > 0
    ensures d > 0 ==> CountrZero(d + 256 * w) < 8
    ensures d == 0 ==> w > 0 && CountrZero(d + 256 * w) == 8 + CountrZero(w)
  {
    hide CountrZero, Lift, Pow2;
    SmallPowers();
    ModUnique(d + 256 * w, 256, w, d);
    if d > 0 {
      FewTrailingZeros(d + 256 * w, 8);
    } else {
      LiftTrailingZeros(w, 8);
      LiftByte(w);
    }
  }

  /** The word arithmetic finds the first change among neighbouring pixels, or that there is none. */
  lemma {:induction false} WordFindsChange(row: seq<byte>)
    requires |row| > 0
    ensures Differences(row) == 0 <==> FirstChange(row) == |row| - 1
    ensures Differences(row) > 0 ==> CountrZero(Differences(row)) / 8 == FirstChange(row)
    decreases |row|
  {
    hide Differences, CountrZero, Xor;
    if |row| == 1 {
      NoDifferences(row);
    } else {
      DifferencesStep(row);
      WordFindsChange(row[1..]);
      if Differences(row) > 0 {
        LowestByte(Xor(row[0], row[1]), Differences(row[1..]));
      }
    }
  }

  /** Pixels up to the first change belong to one run. */
  lemma {:induction false} CountsRun(row: seq<byte>, p: nat, i: nat)
    requires p + i < |row| && forall k :: p <= k < p + i ==> row[k] == row[k + 1]
    ensures Counts(row, p + i) == AddToLast(Counts(row, p), i)
    decreases i
  {
    if i > 0 {
      CountsRun(row, p, i - 1);
      assert row[p + i] == row[p + i - 1];
    }
  }

  lemma {:induction false} FirstChangeFacts(row: seq<byte>)
    requires |row| > 0
    ensures forall k :: 0 <= k < FirstChange(row) ==> row[k] == row[k + 1]
    ensures FirstChange(row) < |row| - 1 ==> row[FirstChange(row)] != row[FirstChange(row) + 1]
    decreases |row|
  {
    if |row| > 1 && row[0] == row[1] {
      FirstChangeFacts(row[1..]);
      forall k | 0 <= k < FirstChange(row)
        ensures row[k] == row[k + 1]
      {
        assert k > 0 ==> row[1..][k - 1] == row[k];
      }
    }
  }

  // ----- the method -----

  /** The counts stored so far, the current one last, and zeros behind it. */
  ghost predicate Stored(p_row: seq<nat>, c: seq<nat>) {
    && 0 < |c| <= |p_row|
    && p_row[..|c|] == Wrap(c)
    && forall i :: |c| <= i < |p_row| ==> p_row[i] == 0
  }

  /** The loop over eight pixels at a time. */
  method WordLoop(row: seq<byte>, p_row: array<nat>, start: nat) returns (bitPos: nat, intPos: nat)
    requires |row| > 0 && p_row.Length == |row| + 2 && start == |Counts(row, 0)| - 1
    requires Stored(p_row[..], Counts(row, 0))
    modifies p_row
    ensures bitPos < |row| && intPos == |Counts(row, bitPos)| - 1 && Stored(p_row[..], Counts(row, bitPos))
  {
    hide Wrap, LoadU, CountrZero, Xor, Counts, FirstChange, Stored;
    bitPos, intPos := 0, start;
    while bitPos < |row| - 8
      invariant bitPos < |row| && intPos == |Counts(row, bitPos)| - 1
      invariant Stored(p_row[..], Counts(row, bitPos))
      decreases |row| - bitPos
    {
      var asSimd0 := LoadU(row[bitPos..bitPos + 8]);
      var asSimd1 := LoadU(row[bitPos + 1..bitPos + 9]);
      var z := Xor(asSimd0, asSimd1);
      ghost var before := p_row[..];
      WordStep(row, bitPos);
      if z != 0 {
        var step := CountrZero(z) / 8 + 1;
        p_row[intPos] := (p_row[intPos] + step) % 0x10000;
        StoredAdd(before, Counts(row, bitPos), step, p_row[..]);
        StoredNext(p_row[..], AddToLast(Counts(row, bitPos), step));
        intPos := intPos + 1;
        bitPos := bitPos + step;
      } else {
        p_row[intPos] := (p_row[intPos] + 8) % 0x10000;
        StoredAdd(before, Counts(row, bitPos), 8, p_row[..]);
        bitPos := bitPos + 8;
      }
    }
  }

  /** The loop over single pixels, up to the end of the row. */
  method ScalarLoop(row: seq<byte>, p_row: array<nat>, bitPos0: nat, intPos0: nat) returns (intPos: nat)
    requires bitPos0 < |row| && p_row.Length == |row| + 2 && intPos0 == |Counts(row, bitPos0)| - 1
    requires Stored(p_row[..], Counts(row, bitPos0))
    modifies p_row
    ensures intPos == |Counts(row, |row| - 1)| - 1 && Stored(p_row[..], Counts(row, |row| - 1))
  {
    hide Wrap, Counts, Stored;
    var n := |row|;
    var bitPos := bitPos0 + 1;
    intPos := intPos0;
    while bitPos != n
      invariant 1 <= bitPos <= n && intPos == |Counts(row, bitPos - 1)| - 1
      invariant Stored(p_row[..], Counts(row, bitPos - 1))
      decreases n - bitPos
    {
      ghost var before := p_row[..];
      ScalarStep(row, bitPos);
      p_row[intPos] := (p_row[intPos] + 1) % 0x10000;
      StoredAdd(before, Counts(row, bitPos - 1), 1, p_row[..]);
      if row[bitPos] != row[bitPos - 1] {
        StoredNext(p_row[..], AddToLast(Counts(row, bitPos - 1), 1));
        intPos := intPos + 1;
      }
      bitPos := bitPos + 1;
    }
  }

  /** Eight pixels at a time when the pixels lie next to each other, then one at a time. */
  method GetPatternRow(row: seq<byte>, isPointer: bool) returns (res: seq<nat>)
    requires |row| > 0
    ensures res == Wrap(Pattern(row))
  {
    hide Wrap, Counts;
    var n := |row|;
    var p_row := new nat[n + 2](_ => 0);
    var bitPos, intPos := 0, 0;
    if row[0] != 0 {
      intPos := intPos + 1; // first value is the number of white pixels, here 0
    }
    CountsStart(row, p_row[..]);
    if isPointer {
      bitPos, intPos := WordLoop(row, p_row, intPos);
    }
    intPos := ScalarLoop(row, p_row, bitPos, intPos);
    ghost var before := p_row[..];
    p_row[intPos] := (p_row[intPos] + 1) % 0x10000;
    StoredAdd(before, Counts(row, n - 1), 1, p_row[..]);
    if row[n - 1] != 0 {
      StoredNext(p_row[..], AddToLast(Counts(row, n - 1), 1));
      intPos := intPos + 1;
    }
    res := p_row[..intPos + 1];
  }

  lemma CountsStart(row: seq<byte>, p_row: seq<nat>)
    requires |row| > 0 && |p_row| == |row| + 2 && forall i :: 0 <= i < |p_row| ==> p_row[i] == 0
    ensures |Counts(row, 0)| == (if row[0] != 0 then 2 else 1) && Stored(p_row, Counts(row, 0))
  {
  }

  lemma StoredAdd(p_row: seq<nat>, c: seq<nat>, n: nat, p_row': seq<nat>)
    requires Stored(p_row, c) && p_row' == p_row[|c| - 1 := (p_row[|c| - 1] + n) % 0x10000]
    ensures Stored(p_row', AddToLast(c, n))
  {
    assert p_row[|c| - 1] == p_row[..|c|][|c| - 1];
    WrapAdd(c[|c| - 1], n);
  }

  lemma WrapAdd(a: nat, b: nat)
    ensures (a % 0x10000 + b) % 0x10000 == (a + b) % 0x10000
  {
  }

  lemma StoredNext(p_row: seq<nat>, c: seq<nat>)
    requires Stored(p_row, c) && |c| < |p_row|
    ensures Stored(p_row, c + [0])
  {
  }

  lemma ScalarStep(row: seq<byte>, p: nat)
    requires 1 <= p < |row|
    ensures var c := AddToLast(Counts(row, p - 1), 1);
      Counts(row, p) == if row[p] != row[p - 1] then c + [0] else c
  {
  }

  /** One step over up to eight pixels does what as many scalar steps do. */
  lemma WordStep(row: seq<byte>, p: nat)
    requires p + 8 < |row|
    ensures var z := Xor(LoadU(row[p..p + 8]), LoadU(row[p + 1..p + 9]));
      && (z == 0 ==> Counts(row, p + 8) == AddToLast(Counts(row, p), 8))
      && (z > 0 ==> CountrZero(z) / 8 < 8)
      && (z > 0 ==> Counts(row, p + CountrZero(z) / 8 + 1) == AddToLast(Counts(row, p), CountrZero(z) / 8 + 1) + [0])
  {
    hide LoadU, CountrZero, Xor, Counts, FirstChange, AddToLast;
    var window := row[p..p + 9];
    assert window[..8] == row[p..p + 8] && window[1..] == row[p + 1..p + 9];
    WordFindsChange(window);
    WindowCounts(row, p, FirstChange(window));
  }

  lemma WindowCounts(row: seq<byte>, p: nat, i: nat)
    requires p + 8 < |row| && i == FirstChange(row[p..p + 9])
    ensures i <= 8
    ensures i == 8 ==> Counts(row, p + 8) == AddToLast(Counts(row, p), 8)
    ensures i < 8 ==> Counts(row, p + i + 1) == AddToLast(Counts(row, p), i + 1) + [0]
  {
    hide Counts, FirstChange;
    var window := row[p..p + 9];
    FirstChangeFacts(window);
    forall k | p <= k < p + i
      ensures row[k] == row[k + 1]
    {
      assert window[k - p] == window[k - p + 1];
    }
    CountsRun(row, p, i);
    if i < 8 {
      assert row[p + i] == window[i] && row[p + i + 1] == window[i + 1];
      ScalarStep(row, p + i + 1);
    }
  }

  lemma NotBehind(i: nat, last: nat, stride: nat)
    requires i <= last
    ensures 0 <= i * stride <= last * stride
  {
  }

  /** What ThresholdBinarizer computes straight from an image row, one pixel every stride bytes up to the last one read. */
  function Thresholded(buffer: seq<byte>, begin: nat, width: nat, stride: nat, threshold: byte): (row: seq<byte>)
    requires width > 0 && stride > 0 && begin + (width - 1) * stride < |buffer|
    ensures |row| == width
  {
    seq(width, i requires 0 <= i < width =>
      NotBehind(i, width - 1, stride);
      if buffer[begin + i * stride] <= threshold then SET_V else UNSET_V)
  }

  /** Pixels are either set or unset. */
  ghost predicate Binary(row: seq<byte>) {
    forall i :: 0 <= i < |row| ==> row[i] == SET_V || row[i] == UNSET_V
  }

  lemma ThresholdedPixel(buffer: seq<byte>, begin: nat, width: nat, stride: nat, threshold: byte, i: nat)
    requires stride > 0 && i < width && begin + (width - 1) * stride < |buffer|
    ensures Binary(Thresholded(buffer, begin, width, stride, threshold))
    ensures begin <= begin + i * stride < |buffer|
    ensures i == width - 1 ==> begin + i * stride + stride == begin + width * stride
    ensures (Thresholded(buffer, begin, width, stride, threshold)[i] != 0) == (buffer[begin + i * stride] <= threshold)
  {
    NotBehind(i, width - 1, stride);
    if i == width - 1 {
      assert width * stride == i * stride + stride;
    }
  }

  /** The counts at pixel i from those at the pixel before, the current run having begun at pixel last. */
  lemma NextCounts(row: seq<byte>, i: nat, last: nat, done: seq<nat>)
    requires i < |row| && Binary(row) && last <= i
    requires i == 0 ==> done == [] && last == 0
    requires i > 0 ==> last < i && Counts(row, i - 1) == done + [i - 1 - last]
    ensures var was := i > 0 && row[i - 1] != 0;
      Counts(row, i) == if (row[i] != 0) != was then done + [i - last] + [0] else done + [i - last]
  {
    if i > 0 {
      assert AddToLast(done + [i - 1 - last], 1) == done + [i - last];
    }
  }

  lemma WrapSnoc(c: seq<nat>, x: nat)
    ensures Wrap(c + [x]) == Wrap(c) + [x % 0x10000]
  {
  }

  /** Distances in bytes are multiples of the stride. */
  lemma PixelDistance(i: nat, last: nat, stride: nat)
    requires last <= i && stride > 0
    ensures (i * stride - last * stride) / stride == i - last
    ensures (i + 1) * stride == i * stride + stride
  {
    assert i * stride - last * stride == stride * (i - last);
    ModUnique(i * stride - last * stride, stride, i - last, 0);
  }

  method ThresholdPatternRow(buffer: seq<byte>, begin: nat, width: nat, stride: nat, threshold: byte)
      returns (res: seq<nat>)
    requires width > 0 && stride > 0 && begin + (width - 1) * stride < |buffer|
    ensures res == Wrap(Pattern(Thresholded(buffer, begin, width, stride, threshold)))
  {
    hide Wrap, Counts, Thresholded;
    ghost var row := Thresholded(buffer, begin, width, stride, threshold);
    var end := begin + width * stride;
    var lastPos, lastVal := begin, false;
    res := [];
    ghost var done: seq<nat> := [];
    var p := begin;
    ghost var i, last := 0, 0;
    WrapNothing();
    while p != end
      invariant 0 <= i <= width && 0 <= last <= i && p == begin + i * stride && lastPos == begin + last * stride
      invariant lastVal == (i > 0 && row[i - 1] != 0) && res == Wrap(done)
      invariant i == 0 ==> done == [] && last == 0
      invariant i > 0 ==> last < i && Counts(row, i - 1) == done + [i - 1 - last]
      decreases width - i
    {
      Unfinished(i, width, stride);
      ThresholdedPixel(buffer, begin, width, stride, threshold, i);
      NextCounts(row, i, last, done);
      PixelDistance(i, last, stride);
      var val := buffer[p] <= threshold;
      if val != lastVal {
        WrapSnoc(done, i - last);
        done := done + [i - last];
        res := res + [(p - lastPos) / stride % 0x10000];
        lastVal := val;
        lastPos := p;
        last := i;
      }
      p := p + stride;
      i := i + 1;
    }
    Finished(i, width, stride);
    PixelDistance(width, last, stride);
    WrapSnoc(done, width - last);
    res := res + [(end - lastPos) / stride % 0x10000];
    ThresholdedPixel(buffer, begin, width, stride, threshold, width - 1);
    assert AddToLast(Counts(row, width - 1), 1) == done + [width - last];
    WrapSnoc(done + [width - last], 0);
    if buffer[end - stride] <= threshold {
      res := res + [0]; // last value is the number of white pixels, here 0
    }
  }

  lemma WrapNothing()
    ensures Wrap([]) == []
  {
  }

  lemma Unfinished(i: nat, width: nat, stride: nat)
    requires i <= width && i * stride != width * stride
    ensures i < width
  {
  }

  lemma Finished(i: nat, width: nat, stride: nat)
    requires i <= width && i * stride == width * stride && stride > 0
    ensures i == width
  {
    if i < width {
      Scaled(i, width, stride);
      assert false;
    }
  }

  // ----- what the run lengths mean -----

  function Repeat(n: nat, v: byte): (r: seq<byte>)
    ensures |r| == n && forall i :: 0 <= i < n ==> r[i] == v
  {
    seq(n, i => v)
  }

  /** Runs alternate, the first one white. */
  function RunColour(i: nat): byte {
    if i % 2 == 1 then SET_V else UNSET_V
  }

  /** The row that run lengths describe. */
  function Expand(c: seq<nat>): seq<byte> {
    if |c| == 0 then [] else Expand(c[..|c| - 1]) + Repeat(c[|c| - 1], RunColour(|c| - 1))
  }

  function Sum(c: seq<nat>): nat {
    if |c| == 0 then 0 else Sum(c[..|c| - 1]) + c[|c| - 1]
  }

  /** Only the outer runs may be empty. */
  ghost predicate InnerPositive(c: seq<nat>) {
    forall i :: 0 < i < |c| - 1 ==> c[i] > 0
  }

  lemma {:induction false} ExpandLength(c: seq<nat>)
    ensures |Expand(c)| == Sum(c)
  {
    if |c| > 0 {
      ExpandLength(c[..|c| - 1]);
    }
  }

  lemma ExpandSnoc(c: seq<nat>, n: nat)
    ensures Expand(c + [n]) == Expand(c) + Repeat(n, RunColour(|c|))
  {
    hide Repeat, RunColour;
    var d := c + [n];
    assert d[..|d| - 1] == c && d[|d| - 1] == n;
  }

  /** The counts at pixel p describe the pixels before p; the colour of p is that of the last run. */
  lemma {:induction false} CountsExpand(row: seq<byte>, p: nat)
    requires p < |row| && Binary(row)
    ensures var c := Counts(row, p);
      && Expand(c) == row[..p]
      && RunColour(|c| - 1) == row[p]
    decreases p
  {
    hide Expand, AddToLast;
    if p == 0 {
      NoRuns();
    } else {
      CountsExpand(row, p - 1);
      var c0 := Counts(row, p - 1);
      var c := AddToLast(c0, 1);
      ExpandAdd(c0, row[p - 1]);
      assert row[..p] == row[..p - 1] + [row[p - 1]];
      EmptyRun(c);
    }
  }

  /** A run ends no earlier than its first pixel. */
  lemma {:induction false} CountsInner(row: seq<byte>, p: nat)
    requires p < |row|
    ensures InnerPositive(Counts(row, p))
    decreases p
  {
    if p > 0 {
      CountsInner(row, p - 1);
    }
  }

  lemma NoRuns()
    ensures Expand([0]) == [] && Expand([0, 0]) == []
  {
    EmptyRun([]);
    EmptyRun([0]);
    assert [] + [0] == [0] && [0] + [0] == [0, 0];
  }

  lemma EmptyRun(c: seq<nat>)
    ensures Expand(c + [0]) == Expand(c)
  {
    ExpandSnoc(c, 0);
  }

  lemma ExpandAdd(c: seq<nat>, v: byte)
    requires |c| > 0 && v == RunColour(|c| - 1)
    ensures Expand(AddToLast(c, 1)) == Expand(c) + [v]
  {
    hide Expand, RunColour, Repeat;
    var init, n := c[..|c| - 1], c[|c| - 1];
    assert c == init + [n] && AddToLast(c, 1) == init + [n + 1];
    ExpandSnoc(init, n);
    ExpandSnoc(init, n + 1);
    RepeatMore(n, v);
    BytesAssoc(Expand(init), Repeat(n, v), [v]);
  }

  lemma RepeatMore(n: nat, v: byte)
    ensures Repeat(n + 1, v) == Repeat(n, v) + [v]
  {
  }

  lemma BytesAssoc(a: seq<byte>, b: seq<byte>, c: seq<byte>)
    ensures a + (b + c) == a + b + c
  {
  }

  /**
   * The run lengths of a row: an odd number of them, none of the inner ones zero, adding up to the width, and
   * describing exactly the row.
   */
  lemma PatternMeaning(row: seq<byte>)
    requires |row| > 0 && Binary(row)
    ensures var c := Pattern(row);
      |c| % 2 == 1 && InnerPositive(c) && Sum(c) == |row| && Expand(c) == row
  {
    hide Counts;
    var n := |row| - 1;
    var c0 := Counts(row, n);
    var c := AddToLast(c0, 1);
    CountsExpand(row, n);
    CountsInner(row, n);
    ExpandAdd(c0, row[n]);
    assert row == row[..n] + [row[n]];
    EmptyRun(c);
    ExpandLength(Pattern(row));
  }

  /** Rows that fit 16 bits are not wrapped. */
  lemma {:induction false} SumBounds(c: seq<nat>, i: nat)
    requires i < |c|
    ensures c[i] <= Sum(c)
  {
    if i < |c| - 1 {
      SumBounds(c[..|c| - 1], i);
    }
  }

  lemma NoWrap(row: seq<byte>)
    requires 0 < |row| <= 0xffff && Binary(row)
    ensures Wrap(Pattern(row)) == Pattern(row)
  {
    PatternMeaning(row);
    forall i | 0 <= i < |Pattern(row)|
      ensures Pattern(row)[i] % 0x10000 == Pattern(row)[i]
    {
      SumBounds(Pattern(row), i);
    }
  }
}
