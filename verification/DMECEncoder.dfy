/** Check words of Data Matrix blocks by shift register (core/src/datamatrix/DMECEncoder.cpp). */
module DMECEncoder {
  import opened Bits
  import opened GenericGFs
  import opened Polynomials
  import opened PolynomialDivision
  import opened Coefficients
  import opened ReedSolomonEncoders

  // ----- multiplication by its own tables -----

  datatype MultTables = MultTables(log: seq<nat>, alog: seq<nat>) {
    /** Antilogarithms of the field's generator, and for each non-zero element an exponent, taken modulo 255. */
    ghost predicate TablesOf(gf: GenericGF) {
      && gf.Valid() && gf.size == 256 && |log| == 256 && |alog| == 256
      && (forall i {:trigger alog[i]} :: 0 <= i < 255 ==> alog[i] == gf.Exp(i))
      && (forall v {:trigger log[v]} :: 1 <= v < 256 ==> alog[log[v] % 255] == v)
    }

    function Mult(a: nat, b: nat): nat
      requires |log| == 256 && |alog| == 256 && a < 256 && b < 256
    {
      if a == 0 || b == 0 then 0 else alog[(log[a] + log[b]) % 255]
    }
  }

  /** Those tables multiply like the field's own. */
  lemma MultIsMultiply(tables: MultTables, gf: GenericGF, a: nat, b: nat)
    requires tables.TablesOf(gf) && a < 256 && b < 256
    ensures gf.Elem(a) && gf.Elem(b) && tables.Mult(a, b) == gf.Multiply(a, b)
  {
    if a != 0 && b != 0 {
      SameLog(tables, gf, a);
      SameLog(tables, gf, b);
      var s := gf.Log(a) + gf.Log(b);
      assert (tables.log[a] + tables.log[b]) % 255 == s % 255 by {
        SumMod(tables.log[a], tables.log[b], gf.Log(a), gf.Log(b));
      }
      ExpMod(gf, s);
    }
  }

  lemma SumMod(a: nat, b: nat, x: nat, y: nat)
    requires a % 255 == x && b % 255 == y
    ensures (a + b) % 255 == (x + y) % 255
  {
  }

  lemma SameLog(tables: MultTables, gf: GenericGF, a: nat)
    requires tables.TablesOf(gf) && 1 <= a < 256
    ensures tables.log[a] % 255 == gf.Log(a)
  {
    var i := tables.log[a] % 255;
    assert tables.alog[i] == a && tables.alog[i] == gf.Exp(i);
    LogExp(gf, i);
  }

  lemma ExpMod(gf: GenericGF, s: nat)
    requires gf.Valid() && gf.size == 256 && s < 510
    ensures gf.Exp(s % 255) == gf.Exp(s)
  {
    if s >= 255 {
      assert s % 255 == s - 255;
      var p :| gf.TablesOf(p);
      AlphaPeriod(p, 256, s - 255);
      assert gf.ExpIs(p, s) && gf.ExpIs(p, s - 255);
    }
  }

  // ----- the shift register -----

  function Reverse(s: seq<nat>): (r: seq<nat>)
    ensures |r| == |s| && forall i :: 0 <= i < |s| ==> r[i] == s[|s| - 1 - i]
  {
    seq(|s|, i requires 0 <= i < |s| => s[|s| - 1 - i])
  }

  /** Highest power first: the register after the next data word, where m is what falls out at the top. */
  ghost function Clock(gf: GenericGF, low: seq<nat>, h: seq<nat>, d: nat): (r: seq<nat>)
    requires gf.Valid() && |h| == |low| > 0 && Elems(gf, low) && Elems(gf, h) && gf.Elem(d)
    ensures |r| == |low| && Elems(gf, r)
  {
    hide Xor;
    XorElem(gf, h[0], d);
    var shifted := h[1..] + [0];
    var scaled := ScaleSeq(gf, Xor(h[0], d), low);
    XorsElems(gf, shifted, scaled);
    XorSeq(shifted, scaled)
  }

  lemma XorsElems(gf: GenericGF, a: seq<nat>, b: seq<nat>)
    requires gf.Valid() && |a| == |b| && Elems(gf, a) && Elems(gf, b)
    ensures Elems(gf, XorSeq(a, b))
  {
    hide Xor;
    forall i | 0 <= i < |a|
      ensures gf.Elem(XorSeq(a, b)[i])
    {
      XorElem(gf, a[i], b[i]);
    }
  }

  /** The check words of a block: what is in the register, initially zero, after all its data words. */
  ghost function Check(gf: GenericGF, low: seq<nat>, block: seq<nat>): (h: seq<nat>)
    requires gf.Valid() && |low| > 0 && Elems(gf, low) && Elems(gf, block)
    ensures |h| == |low| && Elems(gf, h)
  {
    if |block| == 0 then Zeros(|low|)
    else Clock(gf, low, Check(gf, low, block[..|block| - 1]), block[|block| - 1])
  }

  /** The monic polynomial whose lower coefficients, highest power first, are given. */
  ghost function Monic(low: seq<nat>): Poly {
    OfSeq([1] + low)
  }

  lemma MonicOk(gf: GenericGF, low: seq<nat>)
    requires gf.Valid() && Elems(gf, low)
    ensures Ok(gf, Monic(low)) && Len(Monic(low)) == |low| + 1 && Elems(gf, [1] + low)
  {
    OfSeqOk(gf, [1] + low);
    OfSeqLen([1] + low);
  }

  /** One clock: x times the register plus d x^n, reduced by a multiple of the polynomial. */
  lemma ClockStep(gf: GenericGF, low: seq<nat>, h: seq<nat>, d: nat)
    requires gf.Valid() && |h| == |low| > 0 && Elems(gf, low) && Elems(gf, h) && gf.Elem(d)
    ensures gf.Elem(Xor(h[0], d)) && Ok(gf, Monic(low)) && Ok(gf, OfSeq(h)) && Ok(gf, Cn(0, OfSeq(h)))
    ensures Ok(gf, Shift(|low|, Const(d)))
    ensures OfSeq(Clock(gf, low, h, d)) ==
      Plus(gf, Plus(gf, Cn(0, OfSeq(h)), Shift(|low|, Const(d))), Scale(gf, Xor(h[0], d), Monic(low)))
  {
    hide Xor, Plus, Scale, OfSeq, Shift, Ok;
    var n, m, h' := |low|, Xor(h[0], d), Clock(gf, low, h, d);
    XorElem(gf, h[0], d);
    MonicOk(gf, low);
    var a, b, c := h + [0], [d] + Zeros(n), ScaleSeq(gf, m, [1] + low);
    assert Elems(gf, a) && Elems(gf, b);
    XorsElems(gf, a, b);
    OfSeqOk(gf, h);
    OfSeqSnoc(h, 0);
    OfSeqXor(gf, a, b);
    OfSeqXor(gf, XorSeq(a, b), c);
    OfSeqScale(gf, m, [1] + low);
    SingleOfSeq(d);
    OfSeqTrailingZeros([d], n);
    TopCancels(gf, low, h, d);
    OfSeqLeadingZero([0] + h');
    assert ([0] + h')[1..] == h';
  }

  lemma SingleOfSeq(d: nat)
    ensures OfSeq([d]) == Const(d)
  {
    assert [d][..0] == [];
    assert OfSeq([d][..0]) == Nil;
  }

  /** Coefficient by coefficient, the leading ones adding up to zero. */
  lemma TopCancels(gf: GenericGF, low: seq<nat>, h: seq<nat>, d: nat)
    requires gf.Valid() && |h| == |low| > 0 && Elems(gf, low) && Elems(gf, h) && gf.Elem(d)
    requires gf.Elem(Xor(h[0], d)) && Elems(gf, [1] + low)
    ensures var n, m := |low|, Xor(h[0], d);
      [0] + Clock(gf, low, h, d) == XorSeq(XorSeq(h + [0], [d] + Zeros(n)), ScaleSeq(gf, m, [1] + low))
  {
    hide Xor;
    var n, m, h' := |low|, Xor(h[0], d), Clock(gf, low, h, d);
    var r := XorSeq(XorSeq(h + [0], [d] + Zeros(n)), ScaleSeq(gf, m, [1] + low));
    forall i | 0 <= i <= n
      ensures r[i] == ([0] + h')[i]
    {
      if i == 0 {
        MulOne(gf, m);
        XorSelf(m);
      } else {
        XorNil((h + [0])[i]);
        assert (h + [0])[i] == (h[1..] + [0])[i - 1];
      }
    }
  }

  /** The register always holds the remainder of data * x^n. */
  lemma {:induction false} CheckDivides(gf: GenericGF, low: seq<nat>, block: seq<nat>) returns (q: Poly)
    requires gf.Valid() && |low| > 0 && Elems(gf, low) && Elems(gf, block)
    ensures Ok(gf, q) && Ok(gf, Monic(low)) && Ok(gf, OfSeq(Check(gf, low, block))) && Ok(gf, OfSeq(block))
    ensures Shift(|low|, OfSeq(block)) == Plus(gf, Times(gf, q, Monic(low)), OfSeq(Check(gf, low, block)))
    decreases |block|
  {
    hide Xor, Plus, Times, Scale, Monic, Clock, Shift;
    var n := |low|;
    MonicOk(gf, low);
    OfSeqOk(gf, block);
    OfSeqOk(gf, Check(gf, low, block));
    if |block| == 0 {
      q := Nil;
      OfSeqZeros(n);
      ShiftNil(n);
      TimesNil(gf, Monic(low));
      PlusNil(gf, Nil);
    } else {
      var init, d := block[..|block| - 1], block[|block| - 1];
      var h := Check(gf, low, init);
      var q0 := CheckDivides(gf, low, init);
      ClockStep(gf, low, h, d);
      q := Cn(Xor(h[0], d), q0);
      OkCn(gf, Xor(h[0], d), q0);
      ShiftCn(gf, n, d, OfSeq(init));
      ClockAlgebra(gf, Monic(low), q0, OfSeq(h), Xor(h[0], d), Shift(n, Const(d)));
    }
  }

  lemma {:induction false} ShiftCn(gf: GenericGF, n: nat, d: nat, p: Poly)
    requires gf.Valid() && gf.Elem(d) && Ok(gf, p)
    ensures Ok(gf, Shift(n, Const(d))) && Ok(gf, Shift(n, p)) && Ok(gf, Cn(0, Shift(n, p)))
    ensures Shift(n, Cn(d, p)) == Plus(gf, Cn(0, Shift(n, p)), Shift(n, Const(d)))
  {
    hide Xor, Plus, Shift;
    var c := Const(d);
    OkCn(gf, d, Nil);
    OkCn(gf, 0, p);
    PlusStep(gf, Cn(0, p), c);
    XorNil(d);
    PlusNil(gf, p);
    ShiftPlus(gf, n, Cn(0, p), c);
    ShiftShift(n, 1, p);
    ShiftShift(1, n, p);
    ShiftOk(gf, n, p);
    OneShift(p);
    OneShift(Shift(n, p));
    OkCn(gf, 0, Shift(n, p));
  }

  lemma OneShift(p: Poly)
    ensures Shift(1, p) == Cn(0, p)
  {
    assert Shift(0, p) == p;
  }

  /** (q g + e) x + s  ==  (m + q x) g + (e x + s + m g). */
  lemma ClockAlgebra(gf: GenericGF, g: Poly, q: Poly, e: Poly, m: nat, s: Poly)
    requires gf.Valid() && Ok(gf, g) && Ok(gf, q) && Ok(gf, e) && Ok(gf, s) && gf.Elem(m)
    ensures Ok(gf, Cn(m, q)) && Ok(gf, Cn(0, e)) && Ok(gf, Cn(0, Plus(gf, Times(gf, q, g), e)))
    ensures Plus(gf, Cn(0, Plus(gf, Times(gf, q, g), e)), s) ==
      Plus(gf, Times(gf, Cn(m, q), g), Plus(gf, Plus(gf, Cn(0, e), s), Scale(gf, m, g)))
  {
    hide Xor, Plus, Times, Scale;
    var qg, mg := Times(gf, q, g), Scale(gf, m, g);
    OkCn(gf, m, q);
    OkCn(gf, 0, e);
    OkCn(gf, 0, qg);
    OkCn(gf, 0, Plus(gf, qg, e));
    TimesStep(gf, Cn(m, q), g);
    CnPlus(gf, qg, e);
    var x, es := Cn(0, qg), Plus(gf, Cn(0, e), s);
    PlusAssoc(gf, x, Cn(0, e), s);
    PlusComm(gf, mg, x);
    PlusComm(gf, es, mg);
    PlusShuffle(gf, x, mg, es, mg);
    PlusSelf(gf, mg);
    PlusNil(gf, Plus(gf, x, es));
    PlusComm(gf, mg, es);
  }

  /** The shift register computes exactly the remainder of data * x^n by the monic polynomial, for any data length. */
  lemma CheckIsRemainder(gf: GenericGF, low: seq<nat>, block: seq<nat>)
    requires gf.Valid() && |low| > 0 && Elems(gf, low) && Elems(gf, block)
    ensures Ok(gf, Shift(|low|, OfSeq(block))) && Ok(gf, Monic(low)) && Monic(low) != Nil
    ensures OfSeq(Check(gf, low, block)) == DivMod(gf, Shift(|low|, OfSeq(block)), Monic(low)).1
  {
    hide Xor, Plus, Times, Monic, Check, DivMod;
    var q := CheckDivides(gf, low, block);
    MonicOk(gf, low);
    OfSeqOk(gf, block);
    ShiftOk(gf, |low|, OfSeq(block));
    OfSeqOk(gf, Check(gf, low, block));
    DivModUnique(gf, q, OfSeq(Check(gf, low, block)), Monic(low));
  }

  /** With the generator polynomial, data and check words form a codeword of the Reed-Solomon code. */
  lemma CheckedBlockIsCodeword(gf: GenericGF, low: seq<nat>, block: seq<nat>)
    requires gf.Valid() && |low| > 0 && Elems(gf, low) && Elems(gf, block)
    requires |low| + gf.generatorBase <= 2 * gf.size && Monic(low) == Generator(gf, |low|)
    ensures IsCodeword(gf, block + Check(gf, low, block), |low|)
  {
    hide Xor, Plus, Times, Monic, Check, Generator, IsCodeword, Shift;
    var h := Check(gf, low, block);
    var q := CheckDivides(gf, low, block);
    EncodedIsCodeword(gf, |low|, block, [], h, q);
    assert [] + h == h;
  }

  // ----- blocks in a strided buffer -----

  /** Every stride-th word from an offset on. */
  function Strided(data: seq<nat>, offset: nat, stride: nat, length: nat): (block: seq<nat>)
    requires length > 0 ==> offset + (length - 1) * stride < |data|
    ensures |block| == length
  {
    seq(length, i requires 0 <= i < length =>
      MulMonotone(i, length - 1, stride);
      Positive(i, stride);
      data[offset + i * stride])
  }

  /** The buffer with words written at every stride-th place from an offset on. */
  function WriteStrided(data: seq<nat>, offset: nat, stride: nat, words: seq<nat>): (r: seq<nat>)
    requires |words| > 0 ==> offset + (|words| - 1) * stride < |data|
    ensures |r| == |data|
  {
    if |words| == 0 then data
    else
      Positive(|words| - 1, stride);
      MulMonotone(|words| - 2, |words| - 1, stride);
      WriteStrided(data, offset, stride, words[..|words| - 1])[offset + (|words| - 1) * stride := words[|words| - 1]]
  }

  lemma {:induction false} WrittenAt(data: seq<nat>, offset: nat, stride: nat, words: seq<nat>, i: nat)
    requires stride > 0 && i < |words| && offset + (|words| - 1) * stride < |data|
    ensures 0 <= offset + i * stride < |data|
    ensures WriteStrided(data, offset, stride, words)[offset + i * stride] == words[i]
    decreases |words|
  {
    var n := |words| - 1;
    Positive(i, stride);
    MulMonotone(i, n, stride);
    if i < n {
      MulMonotone(n - 1, n, stride);
      WrittenAt(data, offset, stride, words[..n], i);
      Scaled(i, n, stride);
    }
  }

  lemma {:induction false} NotWrittenAt(data: seq<nat>, offset: nat, stride: nat, words: seq<nat>, k: nat)
    requires |words| > 0 ==> offset + (|words| - 1) * stride < |data|
    requires k < |data| && forall i :: 0 <= i < |words| ==> k != offset + i * stride
    ensures WriteStrided(data, offset, stride, words)[k] == data[k]
    decreases |words|
  {
    if |words| > 0 {
      var n := |words| - 1;
      Positive(n, stride);
      MulMonotone(n - 1, n, stride);
      NotWrittenAt(data, offset, stride, words[..n], k);
    }
  }

  lemma {:induction false} NotWrittenBefore(data: seq<nat>, offset: nat, stride: nat, words: seq<nat>, k: nat)
    requires |words| > 0 ==> offset + (|words| - 1) * stride < |data|
    requires k < offset && k < |data|
    ensures WriteStrided(data, offset, stride, words)[k] == data[k]
    decreases |words|
  {
    if |words| > 0 {
      var n := |words| - 1;
      Positive(n, stride);
      MulMonotone(n - 1, n, stride);
      NotWrittenBefore(data, offset, stride, words[..n], k);
    }
  }

  /** Index of the first row with at least n entries, the number of rows when there is none. */
  function FirstRow(factors: seq<seq<nat>>, n: nat): (i: nat)
    ensures i <= |factors| && (i < |factors| ==> |factors[i]| >= n)
  {
    if |factors| == 0 || |factors[0]| >= n then 0 else 1 + FirstRow(factors[1..], n)
  }

  /** The lower coefficients used for n check words, highest power first. */
  function Factors(factors: seq<seq<nat>>, n: nat): (low: seq<nat>)
    requires FirstRow(factors, n) < |factors|
    ensures |low| == n
  {
    Reverse(factors[FirstRow(factors, n)][..n])
  }

  ghost predicate AllElems(gf: GenericGF, factors: seq<seq<nat>>) {
    forall i :: 0 <= i < |factors| ==> Elems(gf, factors[i])
  }

  lemma FactorsElems(gf: GenericGF, factors: seq<seq<nat>>, n: nat)
    requires AllElems(gf, factors) && FirstRow(factors, n) < |factors|
    ensures Elems(gf, Factors(factors, n)) && Elems(gf, factors[FirstRow(factors, n)])
  {
  }

  /** One data word through the register, in place from the top down. */
  method ClockRegister(ghost gf: GenericGF, tables: MultTables, poly: seq<nat>, ecc: array<nat>, d: nat)
    requires tables.TablesOf(gf) && 0 < ecc.Length <= |poly| && Elems(gf, poly) && Elems(gf, ecc[..]) && gf.Elem(d)
    modifies ecc
    ensures Elems(gf, ecc[..])
    ensures Elems(gf, Reverse(poly[..ecc.Length])) && Elems(gf, Reverse(old(ecc[..])))
    ensures Reverse(ecc[..]) == Clock(gf, Reverse(poly[..ecc.Length]), Reverse(old(ecc[..])), d)
  {
    hide Xor;
    hide GenericGF.Valid, GenericGF.Multiply;
    var n := ecc.Length;
    ghost var before := ecc[..];
    XorElem(gf, ecc[n - 1], d);
    var m := Xor(ecc[n - 1], d);
    for k := n - 1 downto 0
      invariant 0 <= k <= n - 1
      invariant Elems(gf, ecc[..]) && ecc[..k + 1] == before[..k + 1]
      invariant forall i :: k < i < n ==> ecc[i] == Xor(before[i - 1], gf.Multiply(m, poly[i]))
    {
      MultIsMultiply(tables, gf, m, poly[k + 1]);
      XorElem(gf, before[k], gf.Multiply(m, poly[k + 1]));
      assert ecc[..k + 2] == before[..k + 2];
      assert ecc[k] == before[k];
      ecc[k + 1] := Xor(ecc[k], tables.Mult(m, poly[k + 1]));
    }
    MultIsMultiply(tables, gf, m, poly[0]);
    ecc[0] := tables.Mult(m, poly[0]);
    Clocked(gf, poly[..n], before, d, ecc[..]);
  }

  lemma Clocked(gf: GenericGF, poly: seq<nat>, before: seq<nat>, d: nat, after: seq<nat>)
    requires gf.Valid() && 0 < |before| == |poly| == |after| && Elems(gf, poly) && Elems(gf, before) && gf.Elem(d)
    requires gf.Elem(Xor(before[|before| - 1], d))
    requires after[0] == gf.Multiply(Xor(before[|before| - 1], d), poly[0])
    requires forall i :: 0 < i < |before| ==>
      after[i] == Xor(before[i - 1], gf.Multiply(Xor(before[|before| - 1], d), poly[i]))
    ensures Elems(gf, Reverse(poly)) && Elems(gf, Reverse(before))
    ensures Reverse(after) == Clock(gf, Reverse(poly), Reverse(before), d)
  {
    hide Xor;
    hide GenericGF.Valid, GenericGF.Multiply;
    var n := |poly|;
    var c := Clock(gf, Reverse(poly), Reverse(before), d);
    forall i | 0 <= i < n
      ensures Reverse(after)[i] == c[i]
    {
      XorNil(gf.Multiply(Xor(before[n - 1], d), poly[n - 1 - i]));
      XorComm(0, gf.Multiply(Xor(before[n - 1], d), poly[n - 1 - i]));
    }
  }
}
