/** Table driven arithmetic in GF(2^m) (core/src/GenericGF.h and .cpp). */
module GenericGFs {
  import opened Bits

  // ----- the doubling map and its orbit -----

  /** One turn of the constructor's first loop: x times alpha, reduced by the primitive polynomial. */
  function Doubled(primitive: nat, size: nat, x: nat): (r: nat)
    requires size > 0
    ensures x < size ==> r < size
  {
    if 2 * x >= size then Xor(2 * x, primitive) % size else 2 * x
  }

  /** x times alpha^k. */
  ghost function TimesAlpha(primitive: nat, size: nat, k: nat, x: nat): (r: nat)
    requires size > 0
    ensures x < size ==> r < size
  {
    if k == 0 then x else Doubled(primitive, size, TimesAlpha(primitive, size, k - 1, x))
  }

  /** alpha^k. */
  ghost function Alpha(primitive: nat, size: nat, k: nat): (r: nat)
    requires size >= 2
    ensures r < size
  {
    TimesAlpha(primitive, size, k, 1)
  }

  ghost predicate IsPowerOfTwo(size: nat) {
    exists m: nat :: size == Pow2(m)
  }

  /** The doubling map walks through all non-zero elements: the polynomial is primitive. */
  ghost predicate Cycles(primitive: nat, size: nat) {
    && size >= 2
    && IsPowerOfTwo(size)
    && Alpha(primitive, size, size - 1) == 1
    && forall v :: 1 <= v < size ==> InOrbit(primitive, size, v)
  }

  ghost predicate InOrbit(primitive: nat, size: nat, v: nat)
    requires size >= 2
  {
    exists k: nat :: k < size - 1 && Alpha(primitive, size, k) == v
  }

  // ----- the class -----

  /** The tables never change after construction, so a field is a value. */
  datatype GenericGF = GenericGF(size: nat, generatorBase: nat, expTable: seq<nat>, logTable: seq<nat>) {

    /** The tables have the constructor's lengths and every entry stays in range. */
    ghost predicate InRange() {
      && size >= 2
      && |expTable| == 2 * size
      && |logTable| == size
      && (forall i :: 0 <= i < 2 * size ==> 0 <= expTable[i] < size)
      && (forall i :: 0 <= i < size ==> 0 <= logTable[i] < size - 1)
    }

    /** The tables are those of a field generated by alpha. */
    ghost predicate TablesOf(primitive: nat) {
      && InRange()
      && Cycles(primitive, size)
      && (forall i {:trigger ExpIs(primitive, i)} :: 0 <= i < 2 * size ==> ExpIs(primitive, i))
      && (forall v {:trigger LogIs(v)} :: 1 <= v < size ==> LogIs(v))
    }

    ghost predicate ExpIs(primitive: nat, i: nat)
      requires InRange() && i < 2 * size
    {
      expTable[i] == Alpha(primitive, size, i)
    }

    ghost predicate LogIs(v: nat)
      requires InRange() && v < size
    {
      expTable[logTable[v]] == v
    }

    ghost predicate Valid() {
      InRange() && exists primitive: nat :: TablesOf(primitive)
    }

    predicate Elem(a: int) {
      0 <= a < size
    }

    function Exp(a: nat): (r: nat)
      requires Valid() && a < 2 * size
      ensures Elem(r)
    {
      expTable[a]
    }

    function Log(a: nat): (r: nat)
      requires Valid() && Elem(a) && a != 0
      ensures r < size - 1
    {
      logTable[a]
    }

    function Inverse(a: nat): (r: nat)
      requires Valid() && Elem(a) && a != 0
      ensures Elem(r)
    {
      expTable[size - Log(a) - 1]
    }

    function Multiply(a: nat, b: nat): (r: nat)
      requires Valid() && Elem(a) && Elem(b)
      ensures Elem(r)
    {
      if a == 0 || b == 0 then 0 else expTable[logTable[a] + logTable[b]]
    }
  }

  /**
   * The constructor, with the larger exponent table. Entries are 16-bit, hence the bound on size.
   * For any polynomial the tables stay in range and each logarithm is the last matching exponent;
   * for a primitive one they are the tables of a field.
   */
  method Create(primitive: nat, size: nat, b: nat) returns (gf: GenericGF)
    requires IsPowerOfTwo(size) && 2 <= size <= 0x8000
    ensures gf.size == size && gf.generatorBase == b && gf.InRange()
    ensures forall i :: 0 <= i < size - 1 ==> gf.expTable[i] == Alpha(primitive, size, i)
    ensures forall i :: size - 1 <= i < 2 * size ==> gf.expTable[i] == gf.expTable[i - (size - 1)]
    ensures forall i :: 0 <= i < size - 1 ==> LastLog(gf.expTable, gf.logTable, i)
    ensures Cycles(primitive, size) ==> gf.TablesOf(primitive) && gf.Valid()
  {
    var exps := FillExpTable(primitive, size);
    var logs := FillLogTable(exps, size);
    gf := GenericGF(size, b, exps, logs);
    if Cycles(primitive, size) {
      TablesFromLoops(gf, primitive);
    }
  }

  method FillExpTable(primitive: nat, size: nat) returns (exps: seq<nat>)
    requires size >= 2
    ensures |exps| == 2 * size && forall i :: 0 <= i < 2 * size ==> exps[i] < size
    ensures forall i :: 0 <= i < size - 1 ==> exps[i] == Alpha(primitive, size, i)
    ensures forall i :: size - 1 <= i < 2 * size ==> exps[i] == exps[i - (size - 1)]
  {
    hide Xor;
    var expTable := new nat[2 * size](_ => 0);
    var x := 1;
    for i := 0 to size
      invariant x == Alpha(primitive, size, i)
      invariant forall k :: 0 <= k < i ==> expTable[k] == Alpha(primitive, size, k)
    {
      expTable[i] := x;
      x := x * 2;
      if x >= size {
        x := Xor(x, primitive);
        x := x % size; // x &= size - 1 for a power of two
      }
    }
    for i := size - 1 to 2 * size
      invariant forall k :: 0 <= k < size - 1 ==> expTable[k] == Alpha(primitive, size, k)
      invariant forall k :: size - 1 <= k < i ==> expTable[k] == expTable[k - (size - 1)]
      invariant forall k :: 0 <= k < i ==> expTable[k] < size
    {
      expTable[i] := expTable[i - (size - 1)];
    }
    exps := expTable[..];
  }

  method FillLogTable(exps: seq<nat>, size: nat) returns (logs: seq<nat>)
    requires size >= 2 && |exps| == 2 * size && forall i :: 0 <= i < 2 * size ==> exps[i] < size
    ensures |logs| == size && forall v :: 0 <= v < size ==> 0 <= logs[v] < size - 1
    ensures forall i :: 0 <= i < size - 1 ==> LastLog(exps, logs, i)
  {
    var logTable := new nat[size](_ => 0);
    for i := 0 to size - 1
      invariant forall k :: 0 <= k < size ==> 0 <= logTable[k] < size - 1
      invariant forall k :: 0 <= k < i ==> LastLog(exps, logTable[..], k)
    {
      ghost var before := logTable[..];
      logTable[exps[i]] := i;
      ghost var after := logTable[..];
      assert after == before[exps[i] := i as nat];
      forall k | 0 <= k <= i
        ensures LastLog(exps, after, k)
      {
        assert k < i ==> LastLog(exps, before, k);
      }
    }
    logs := logTable[..];
  }

  /** The logarithm entry for the i-th exponent entry is an exponent of the same element, not before i. */
  ghost predicate LastLog(exps: seq<nat>, logs: seq<nat>, i: nat)
    requires i < |exps| && exps[i] < |logs|
  {
    var j := logs[exps[i]];
    i <= j < |exps| && exps[j] == exps[i]
  }

  lemma TablesFromLoops(gf: GenericGF, p: nat)
    requires gf.InRange() && Cycles(p, gf.size)
    requires forall i :: 0 <= i < gf.size - 1 ==> gf.expTable[i] == Alpha(p, gf.size, i)
    requires forall i :: gf.size - 1 <= i < 2 * gf.size ==> gf.expTable[i] == gf.expTable[i - (gf.size - 1)]
    requires forall i :: 0 <= i < gf.size - 1 ==> LastLog(gf.expTable, gf.logTable, i)
    ensures gf.TablesOf(p) && gf.Valid()
  {
    hide Alpha, Cycles;
    forall v | 1 <= v < gf.size
      ensures gf.LogIs(v)
    {
      LogEntry(gf, p, v);
    }
    forall i | 0 <= i < 2 * gf.size
      ensures gf.ExpIs(p, i)
    {
      ExpEntry(gf, p, i);
    }
    assert gf.TablesOf(p);
  }

  lemma LogEntry(gf: GenericGF, p: nat, v: nat)
    requires gf.InRange() && Cycles(p, gf.size) && 1 <= v < gf.size
    requires forall i :: 0 <= i < gf.size - 1 ==> gf.expTable[i] == Alpha(p, gf.size, i)
    requires forall i :: 0 <= i < gf.size - 1 ==> LastLog(gf.expTable, gf.logTable, i)
    ensures gf.LogIs(v)
  {
    assert InOrbit(p, gf.size, v);
    var k: nat :| k < gf.size - 1 && Alpha(p, gf.size, k) == v;
    assert LastLog(gf.expTable, gf.logTable, k);
  }

  lemma {:induction false} ExpEntry(gf: GenericGF, p: nat, i: nat)
    requires gf.InRange() && Cycles(p, gf.size) && i < 2 * gf.size
    requires forall i :: 0 <= i < gf.size - 1 ==> gf.expTable[i] == Alpha(p, gf.size, i)
    requires forall i :: gf.size - 1 <= i < 2 * gf.size ==> gf.expTable[i] == gf.expTable[i - (gf.size - 1)]
    ensures gf.expTable[i] == Alpha(p, gf.size, i)
  {
    if i >= gf.size - 1 {
      ExpEntry(gf, p, i - (gf.size - 1));
      AlphaPeriod(p, gf.size, i - (gf.size - 1));
    }
  }

  // ----- the doubling map is linear and its powers add -----

  lemma DoubledLinear(primitive: nat, size: nat, a: nat, b: nat)
    requires IsPowerOfTwo(size) && size >= 2 && a < size && b < size
    ensures Xor(a, b) < size
    ensures Doubled(primitive, size, Xor(a, b)) == Xor(Doubled(primitive, size, a), Doubled(primitive, size, b))
  {
    hide Xor;
    var m: nat :| size == Pow2(m);
    XorBound(a, b, m);
    XorDouble(a, b);
    TopBit(a, b, m);
    DoubledForm(primitive, size, m, a);
    DoubledForm(primitive, size, m, b);
    DoubledForm(primitive, size, m, Xor(a, b));
    XorMod(2 * a, 2 * b, m);
    XorBits((2 * a) % size, (2 * b) % size, primitive % size);
  }

  /** Reduction adds the low bits of the polynomial when the top bit is set. */
  lemma DoubledForm(primitive: nat, size: nat, m: nat, a: nat)
    requires size == Pow2(m)
    ensures Doubled(primitive, size, a) ==
            if 2 * a >= size then Xor((2 * a) % size, primitive % size) else (2 * a) % size
  {
    hide Xor;
    XorMod(2 * a, primitive, m);
    if 2 * a < size {
      ModUnique(2 * a, size, 0, 2 * a);
    }
  }

  /** The sums that occur when one, the other or both summands are reduced by q. */
  lemma XorBits(a: nat, b: nat, q: nat)
    ensures Xor(Xor(a, q), b) == Xor(Xor(a, b), q)
    ensures Xor(a, Xor(b, q)) == Xor(Xor(a, b), q)
    ensures Xor(Xor(a, q), Xor(b, q)) == Xor(a, b)
  {
    hide Xor;
    XorAssoc(a, b, q);
    XorAssoc(a, q, b);
    XorComm(q, b);
    XorAssoc(Xor(a, q), b, q);
    XorCancel(Xor(a, b), q);
  }

  lemma XorDouble(a: nat, b: nat)
    ensures Xor(2 * a, 2 * b) == 2 * Xor(a, b)
  {
    hide Xor;
    XorStep(2 * a, 2 * b);
    assert 2 * a / 2 == a && 2 * b / 2 == b;
  }

  /** The top bits of two m-bit numbers cancel exactly when both are set. */
  lemma {:induction false} TopBit(a: nat, b: nat, m: nat)
    requires m >= 1 && a < Pow2(m) && b < Pow2(m)
    ensures (2 * Xor(a, b) >= Pow2(m)) <==> ((2 * a >= Pow2(m)) != (2 * b >= Pow2(m)))
    decreases m
  {
    if m == 1 {
      assert Xor(0, 0) == 0 && Xor(0, 1) == 1 && Xor(1, 0) == 1 && Xor(1, 1) == 0;
    } else {
      TopBit(a / 2, b / 2, m - 1);
      XorStep(a, b);
      TopHalf(a, m);
      TopHalf(b, m);
      TopHalf(Xor(a, b), m);
    }
  }

  lemma TopHalf(a: nat, m: nat)
    requires m >= 2
    ensures a < Pow2(m) ==> a / 2 < Pow2(m - 1)
    ensures 2 * a >= Pow2(m) <==> 2 * (a / 2) >= Pow2(m - 1)
  {
    assert Pow2(m) == 2 * Pow2(m - 1) && Pow2(m - 1) == 2 * Pow2(m - 2);
    HalfBounds(a, Pow2(m - 2));
  }

  lemma HalfBounds(a: nat, h: nat)
    ensures a < 4 * h ==> a / 2 < 2 * h
    ensures 2 * a >= 4 * h <==> 2 * (a / 2) >= 2 * h
  {
  }

  lemma {:induction false} TimesAlphaLinear(p: nat, size: nat, k: nat, a: nat, b: nat)
    requires IsPowerOfTwo(size) && size >= 2 && a < size && b < size
    ensures Xor(a, b) < size
    ensures TimesAlpha(p, size, k, Xor(a, b)) == Xor(TimesAlpha(p, size, k, a), TimesAlpha(p, size, k, b))
  {
    DoubledLinear(p, size, a, b);
    if k > 0 {
      TimesAlphaLinear(p, size, k - 1, a, b);
      DoubledLinear(p, size, TimesAlpha(p, size, k - 1, a), TimesAlpha(p, size, k - 1, b));
    }
  }

  lemma {:induction false} TimesAlphaAdd(p: nat, size: nat, i: nat, j: nat, x: nat)
    requires size >= 2
    ensures TimesAlpha(p, size, i, TimesAlpha(p, size, j, x)) == TimesAlpha(p, size, i + j, x)
  {
    if i > 0 {
      TimesAlphaAdd(p, size, i - 1, j, x);
    }
  }

  lemma {:induction false} TimesAlphaZero(p: nat, size: nat, k: nat)
    requires size >= 2
    ensures TimesAlpha(p, size, k, 0) == 0
  {
    if k > 0 {
      TimesAlphaZero(p, size, k - 1);
    }
  }

  /** Exponents count modulo size - 1. */
  lemma AlphaPeriod(p: nat, size: nat, k: nat)
    requires Cycles(p, size)
    ensures Alpha(p, size, k + (size - 1)) == Alpha(p, size, k)
  {
    TimesAlphaAdd(p, size, k, size - 1, 1);
  }

  lemma {:induction false} AlphaNonZero(p: nat, size: nat, k: nat)
    requires Cycles(p, size)
    ensures Alpha(p, size, k) != 0
  {
    var n := size - 1;
    if k >= n {
      AlphaPeriod(p, size, k - n);
      AlphaNonZero(p, size, k - n);
    } else {
      TimesAlphaAdd(p, size, n - k, k, 1);
      TimesAlphaZero(p, size, n - k);
    }
  }

  // ----- field laws read off the tables -----

  /** For a non-zero a the table product a * b is alpha^(log a) applied to b. */
  lemma MultiplyAsPower(gf: GenericGF, p: nat, a: nat, b: nat)
    requires gf.TablesOf(p) && gf.Valid() && gf.Elem(a) && gf.Elem(b) && a != 0
    ensures gf.Multiply(a, b) == TimesAlpha(p, gf.size, gf.logTable[a], b)
  {
    if b == 0 {
      TimesAlphaZero(p, gf.size, gf.logTable[a]);
    } else {
      var i, j := gf.logTable[a], gf.logTable[b];
      LogOf(gf, p, b);
      assert gf.ExpIs(p, i + j);
      TimesAlphaAdd(p, gf.size, i, j, 1);
    }
  }

  /** Every non-zero element is a power of alpha. */
  lemma LogOf(gf: GenericGF, p: nat, a: nat)
    requires gf.TablesOf(p) && gf.Elem(a) && a != 0
    ensures a == Alpha(p, gf.size, gf.logTable[a])
  {
    assert gf.LogIs(a) && gf.ExpIs(p, gf.logTable[a]);
  }

  lemma MulComm(gf: GenericGF, a: nat, b: nat)
    requires gf.Valid() && gf.Elem(a) && gf.Elem(b)
    ensures gf.Multiply(a, b) == gf.Multiply(b, a)
  {
  }

  lemma MulOne(gf: GenericGF, a: nat)
    requires gf.Valid() && gf.Elem(a)
    ensures gf.Multiply(1, a) == a && gf.Multiply(a, 1) == a
  {
    var p: nat :| gf.TablesOf(p);
    if a != 0 {
      MultiplyAsPower(gf, p, a, 1);
      LogOf(gf, p, a);
      MulComm(gf, a, 1);
    }
  }

  lemma MulNonZero(gf: GenericGF, a: nat, b: nat)
    requires gf.Valid() && gf.Elem(a) && gf.Elem(b)
    ensures gf.Multiply(a, b) == 0 <==> a == 0 || b == 0
  {
    var p: nat :| gf.TablesOf(p);
    if a != 0 && b != 0 {
      assert gf.ExpIs(p, gf.logTable[a] + gf.logTable[b]);
      AlphaNonZero(p, gf.size, gf.logTable[a] + gf.logTable[b]);
    }
  }

  lemma XorElem(gf: GenericGF, a: nat, b: nat)
    requires gf.Valid() && gf.Elem(a) && gf.Elem(b)
    ensures gf.Elem(Xor(a, b))
  {
    var p: nat :| gf.TablesOf(p);
    var m: nat :| gf.size == Pow2(m);
    XorBound(a, b, m);
  }

  lemma MulDistributes(gf: GenericGF, a: nat, b: nat, c: nat)
    requires gf.Valid() && gf.Elem(a) && gf.Elem(b) && gf.Elem(c)
    ensures gf.Elem(Xor(b, c))
    ensures gf.Multiply(a, Xor(b, c)) == Xor(gf.Multiply(a, b), gf.Multiply(a, c))
  {
    hide Xor;
    XorElem(gf, b, c);
    if a == 0 {
      XorNil(0);
    } else {
      var p: nat :| gf.TablesOf(p);
      MultiplyAsPower(gf, p, a, b);
      MultiplyAsPower(gf, p, a, c);
      MultiplyAsPower(gf, p, a, Xor(b, c));
      TimesAlphaLinear(p, gf.size, gf.logTable[a], b, c);
    }
  }

  lemma MulAssoc(gf: GenericGF, a: nat, b: nat, c: nat)
    requires gf.Valid() && gf.Elem(a) && gf.Elem(b) && gf.Elem(c)
    ensures gf.Multiply(gf.Multiply(a, b), c) == gf.Multiply(a, gf.Multiply(b, c))
  {
    if a != 0 && b != 0 && c != 0 {
      var p: nat :| gf.TablesOf(p);
      MulNonZero(gf, a, b);
      MulNonZero(gf, b, c);
      TripleProduct(gf, p, a, b, c);
      TripleProduct(gf, p, c, a, b);
      MulComm(gf, c, gf.Multiply(a, b));
      assert gf.logTable[a] + (gf.logTable[b] + gf.logTable[c]) == gf.logTable[c] + (gf.logTable[a] + gf.logTable[b]);
    }
  }

  lemma TripleProduct(gf: GenericGF, p: nat, a: nat, b: nat, c: nat)
    requires gf.TablesOf(p) && gf.Valid() && gf.Elem(a) && gf.Elem(b) && gf.Elem(c) && a != 0 && b != 0 && c != 0
    ensures gf.Multiply(a, gf.Multiply(b, c)) ==
            Alpha(p, gf.size, gf.logTable[a] + (gf.logTable[b] + gf.logTable[c]))
  {
    var i, j, k := gf.logTable[a], gf.logTable[b], gf.logTable[c];
    MultiplyAsPower(gf, p, b, c);
    MultiplyAsPower(gf, p, a, gf.Multiply(b, c));
    LogOf(gf, p, c);
    TimesAlphaAdd(p, gf.size, j, k, 1);
    TimesAlphaAdd(p, gf.size, i, j + k, 1);
  }

  lemma MulInverse(gf: GenericGF, a: nat)
    requires gf.Valid() && gf.Elem(a) && a != 0
    ensures gf.Inverse(a) != 0 && gf.Multiply(a, gf.Inverse(a)) == 1
  {
    var p: nat :| gf.TablesOf(p);
    var n, i := gf.size - 1, gf.logTable[a];
    assert gf.ExpIs(p, n - i);
    LogOf(gf, p, a);
    AlphaNonZero(p, gf.size, n - i);
    MultiplyAsPower(gf, p, a, gf.Inverse(a));
    TimesAlphaAdd(p, gf.size, i, n - i, 1);
  }

  /** Powers of alpha multiply by adding exponents. */
  lemma AlphaMul(gf: GenericGF, p: nat, i: nat, j: nat)
    requires gf.TablesOf(p) && gf.Valid()
    ensures gf.Multiply(Alpha(p, gf.size, i), Alpha(p, gf.size, j)) == Alpha(p, gf.size, i + j)
  {
    var a := Alpha(p, gf.size, i);
    AlphaNonZero(p, gf.size, i);
    MultiplyAsPower(gf, p, a, Alpha(p, gf.size, j));
    LogOf(gf, p, a);
    TimesAlphaAdd(p, gf.size, gf.logTable[a], j, 1);
    TimesAlphaAdd(p, gf.size, j, gf.logTable[a], 1);
    TimesAlphaAdd(p, gf.size, j, i, 1);
  }

  /** A sequence that holds all of 1..n is at least that long. */
  lemma {:induction false} Pigeonhole(s: seq<nat>, n: nat)
    requires forall v :: 1 <= v <= n ==> v in s
    ensures |s| >= n
    decreases n
  {
    if n > 0 {
      assert n in s;
      var i :| 0 <= i < |s| && s[i] == n;
      var t := s[..i] + s[i + 1..];
      forall v | 1 <= v <= n - 1
        ensures v in t
      {
        assert v in s;
        var j :| 0 <= j < |s| && s[j] == v;
        assert t[if j < i then j else j - 1] == v;
      }
      Pigeonhole(t, n - 1);
    }
  }

  /** The first size - 1 powers of alpha are distinct. */
  lemma ExpInjective(gf: GenericGF, i: nat, j: nat)
    requires gf.Valid() && i < j < gf.size - 1
    ensures gf.expTable[i] != gf.expTable[j]
  {
    if gf.expTable[i] == gf.expTable[j] {
      var p: nat :| gf.TablesOf(p);
      var n := gf.size - 1;
      var s := gf.expTable[..j] + gf.expTable[j + 1..n];
      forall v | 1 <= v <= n
        ensures v in s
      {
        assert InOrbit(p, gf.size, v);
        var k: nat :| k < n && Alpha(p, gf.size, k) == v;
        assert gf.ExpIs(p, k);
        assert s[if k == j then i else if k < j then k else k - 1] == v;
      }
      Pigeonhole(s, n);
    }
  }

  /** Logarithm and exponential are inverse to each other. */
  lemma LogExp(gf: GenericGF, i: nat)
    requires gf.Valid() && i < gf.size - 1
    ensures gf.Exp(i) != 0 && gf.Log(gf.Exp(i)) == i
  {
    var p: nat :| gf.TablesOf(p);
    assert gf.ExpIs(p, i);
    AlphaNonZero(p, gf.size, i);
    var j := gf.Log(gf.Exp(i));
    assert gf.LogIs(gf.Exp(i));
    if i < j {
      ExpInjective(gf, i, j);
    } else if j < i {
      ExpInjective(gf, j, i);
    }
  }

  lemma ExpLog(gf: GenericGF, a: nat)
    requires gf.Valid() && gf.Elem(a) && a != 0
    ensures gf.Exp(gf.Log(a)) == a
  {
    var p: nat :| gf.TablesOf(p);
    assert gf.LogIs(a);
  }

  lemma InverseInverse(gf: GenericGF, a: nat)
    requires gf.Valid() && gf.Elem(a) && a != 0
    ensures gf.Inverse(a) != 0 && gf.Inverse(gf.Inverse(a)) == a
  {
    var b := gf.Inverse(a);
    MulInverse(gf, a);
    MulInverse(gf, b);
    InverseUnique(gf, b, a);
    MulComm(gf, a, b);
  }

  lemma InverseUnique(gf: GenericGF, a: nat, b: nat)
    requires gf.Valid() && gf.Elem(a) && gf.Elem(b) && a != 0
    ensures gf.Multiply(a, b) == 1 ==> b == gf.Inverse(a)
  {
    var i := gf.Inverse(a);
    MulInverse(gf, a);
    MulAssoc(gf, i, a, b);
    MulComm(gf, i, a);
    MulOne(gf, b);
    MulOne(gf, i);
  }
}
