/** The coefficients of generator polynomials, each from its neighbour (core/src/datamatrix/DMECEncoder.cpp:18-52). */
module GeneratorCoefficients {
  import opened Bits
  import opened GenericGFs
  import opened Polynomials
  import opened PolynomialDivision
  import opened Coefficients
  import opened ReedSolomonEncoders
  import opened MinimumDistance
  import opened DMECEncoder

  /** Coefficient k of the monic polynomial whose lower coefficients, lowest power first, are in the row. */
  function Coefficient(row: seq<nat>, k: nat): nat
    requires k <= |row|
  {
    if k == |row| then 1 else row[k]
  }

  /** The coefficient of x^k against that of x^(k + 1). */
  ghost predicate Neighbours(gf: GenericGF, n: nat, k: nat, c: nat, next: nat)
    requires gf.Valid() && k < n < gf.size && gf.Elem(c) && gf.Elem(next)
  {
    var t := gf.Exp(n);
    XorElem(gf, gf.Exp(k), t);
    XorElem(gf, gf.Exp(k + 1), gf.Exp(0));
    gf.Multiply(c, Xor(gf.Exp(k), t)) == gf.Multiply(next, gf.Multiply(t, Xor(gf.Exp(k + 1), gf.Exp(0))))
  }

  ghost predicate AllNeighbours(gf: GenericGF, row: seq<nat>)
    requires gf.Valid() && |row| < gf.size && Elems(gf, row)
  {
    forall k :: 0 <= k < |row| ==> NeighbourAt(gf, row, k)
  }

  ghost predicate NeighbourAt(gf: GenericGF, row: seq<nat>, k: nat)
    requires gf.Valid() && |row| < gf.size && Elems(gf, row) && k < |row|
  {
    gf.Elem(Coefficient(row, k + 1)) && Neighbours(gf, |row|, k, row[k], Coefficient(row, k + 1))
  }

  // ----- field arithmetic -----

  /** (x + t)(y c + x q) + t (x + 1)(c + x r)  ==  c t (y + 1), when (x + t) q + t (x + 1) r == c (y + t). */
  lemma TelescopeStep(gf: GenericGF, x: nat, t: nat, y: nat, c: nat, q: nat, r: nat)
    requires gf.Valid() && gf.Elem(x) && gf.Elem(t) && gf.Elem(y) && gf.Elem(c) && gf.Elem(q) && gf.Elem(r)
    requires gf.Elem(1) && gf.Elem(Xor(x, t)) && gf.Elem(Xor(x, 1)) && gf.Elem(Xor(y, t)) && gf.Elem(Xor(y, 1))
    requires Xor(gf.Multiply(Xor(x, t), q), gf.Multiply(gf.Multiply(t, Xor(x, 1)), r)) == gf.Multiply(c, Xor(y, t))
    requires var a, b := Xor(gf.Multiply(y, c), gf.Multiply(x, q)), Xor(c, gf.Multiply(x, r)); gf.Elem(a) && gf.Elem(b)
    ensures var a, b := Xor(gf.Multiply(y, c), gf.Multiply(x, q)), Xor(c, gf.Multiply(x, r));
      Xor(gf.Multiply(Xor(x, t), a), gf.Multiply(gf.Multiply(t, Xor(x, 1)), b))
      == gf.Multiply(c, gf.Multiply(t, Xor(y, 1)))
  {
    hide Xor, GenericGF.Multiply, GenericGF.Valid;
    var u, s := Xor(x, t), gf.Multiply(t, Xor(x, 1));
    var yc, xq, xr := gf.Multiply(y, c), gf.Multiply(x, q), gf.Multiply(x, r);
    var uq, sr := gf.Multiply(u, q), gf.Multiply(s, r);
    MulDistributes(gf, u, yc, xq);
    MulDistributes(gf, s, c, xr);
    XorShuffle(gf.Multiply(u, yc), gf.Multiply(u, xq), gf.Multiply(s, c), gf.Multiply(s, xr));
    Swap(gf, u, x, q);
    Swap(gf, s, x, r);
    MulDistributes(gf, x, uq, sr);
    // what is left is c times a sum
    Swap(gf, u, y, c);
    MulComm(gf, gf.Multiply(u, y), c);
    MulAssoc(gf, u, y, c);
    MulComm(gf, s, c);
    Swap(gf, x, c, Xor(y, t));
    var uy, xyt := gf.Multiply(u, y), gf.Multiply(x, Xor(y, t));
    XorElem(gf, uy, s);
    MulDistributes(gf, c, uy, s);
    MulDistributes(gf, c, Xor(uy, s), xyt);
    Collect(gf, x, t, y);
  }

  lemma XorShuffle(a: nat, b: nat, c: nat, d: nat)
    ensures Xor(Xor(a, b), Xor(c, d)) == Xor(Xor(a, c), Xor(b, d))
  {
    hide Xor;
    XorAssoc(a, b, Xor(c, d));
    XorAssoc(b, c, d);
    XorComm(b, c);
    XorAssoc(c, b, d);
    XorAssoc(a, c, Xor(b, d));
  }

  lemma Swap(gf: GenericGF, a: nat, b: nat, c: nat)
    requires gf.Valid() && gf.Elem(a) && gf.Elem(b) && gf.Elem(c)
    ensures gf.Multiply(a, gf.Multiply(b, c)) == gf.Multiply(b, gf.Multiply(a, c))
  {
    hide GenericGF.Multiply, GenericGF.Valid;
    MulAssoc(gf, a, b, c);
    MulComm(gf, a, b);
    MulAssoc(gf, b, a, c);
  }

  /** (x + t) y + t (x + 1) + x (y + t)  ==  t (y + 1). */
  lemma Collect(gf: GenericGF, x: nat, t: nat, y: nat)
    requires gf.Valid() && gf.Elem(x) && gf.Elem(t) && gf.Elem(y) && gf.Elem(1)
    requires gf.Elem(Xor(x, t)) && gf.Elem(Xor(x, 1)) && gf.Elem(Xor(y, t)) && gf.Elem(Xor(y, 1))
    ensures Xor(Xor(gf.Multiply(Xor(x, t), y), gf.Multiply(t, Xor(x, 1))), gf.Multiply(x, Xor(y, t)))
      == gf.Multiply(t, Xor(y, 1))
  {
    hide Xor, GenericGF.Multiply, GenericGF.Valid;
    var xy, ty, tx := gf.Multiply(x, y), gf.Multiply(t, y), gf.Multiply(t, x);
    MulComm(gf, Xor(x, t), y);
    MulDistributes(gf, y, x, t);
    MulComm(gf, x, y);
    MulComm(gf, t, y);
    MulDistributes(gf, t, x, 1);
    MulOne(gf, t);
    MulDistributes(gf, x, y, t);
    MulComm(gf, x, t);
    MulDistributes(gf, t, y, 1);
    // (xy + ty) + (tx + t) + (xy + tx)
    XorShuffle(xy, ty, tx, t);
    XorComm(Xor(xy, tx), Xor(ty, t));
    XorCancel(Xor(ty, t), Xor(xy, tx));
  }

  lemma ExpMul(gf: GenericGF, i: nat, j: nat)
    requires gf.Valid() && i + j < 2 * gf.size
    ensures gf.Multiply(gf.Exp(i), gf.Exp(j)) == gf.Exp(i + j)
  {
    var p: nat :| gf.TablesOf(p);
    assert gf.ExpIs(p, i) && gf.ExpIs(p, j) && gf.ExpIs(p, i + j);
    AlphaMul(gf, p, i, j);
  }

  lemma ExpOne(gf: GenericGF)
    requires gf.Valid()
    ensures gf.Exp(0) == 1 && gf.Elem(1) && gf.Elem(0)
  {
    var p: nat :| gf.TablesOf(p);
    assert gf.ExpIs(p, 0);
  }

  // ----- the polynomial, highest power first -----

  function Message(row: seq<nat>): seq<nat> {
    [1] + Reverse(row)
  }

  /** Its first j coefficients as a polynomial. */
  ghost function Upper(row: seq<nat>, j: nat): Poly
    requires j <= |row| + 1
  {
    OfSeq(Message(row)[..j])
  }

  lemma UpperOk(gf: GenericGF, row: seq<nat>, j: nat)
    requires gf.Valid() && Elems(gf, row) && j <= |row| + 1
    ensures Ok(gf, Upper(row, j)) && Elems(gf, Message(row))
  {
    ExpOne(gf);
    OfSeqOk(gf, Message(row)[..j]);
  }

  lemma UpperStep(row: seq<nat>, j: nat)
    requires 1 <= j <= |row| + 1
    ensures Upper(row, j) == Cn(Coefficient(row, |row| + 1 - j), Upper(row, j - 1))
  {
    var m := Message(row)[..j];
    assert m[..j - 1] == Message(row)[..j - 1];
    assert m[j - 1] == Coefficient(row, |row| + 1 - j);
  }

  /** Values of the first j coefficients at x and at alpha x. */
  ghost predicate Telescoped(gf: GenericGF, row: seq<nat>, j: nat, i: nat)
    requires gf.Valid() && Elems(gf, row) && |row| < gf.size && 1 <= j <= |row| + 1 && i < |row|
  {
    UpperOk(gf, row, j);
    ExpOne(gf);
    var n, k, x := |row|, |row| + 1 - j, gf.Exp(i);
    var t := gf.Exp(n);
    XorElem(gf, x, t);
    XorElem(gf, x, 1);
    XorElem(gf, gf.Exp(k), 1);
    Xor(gf.Multiply(Xor(x, t), gf.Multiply(gf.Exp(k), Eval(gf, Upper(row, j), gf.Exp(i + 1)))),
        gf.Multiply(gf.Multiply(t, Xor(x, 1)), Eval(gf, Upper(row, j), x)))
    == gf.Multiply(Coefficient(row, k), gf.Multiply(t, Xor(gf.Exp(k), 1)))
  }

  lemma {:induction false} Telescopes(gf: GenericGF, row: seq<nat>, j: nat, i: nat)
    requires gf.Valid() && Elems(gf, row) && |row| < gf.size && AllNeighbours(gf, row)
    requires 1 <= j <= |row| + 1 && i < |row|
    ensures Telescoped(gf, row, j, i)
    decreases j
  {
    hide Xor, Eval, Upper, GenericGF.Multiply, GenericGF.Valid;
    UpperOk(gf, row, j);
    UpperOk(gf, row, j - 1);
    ExpOne(gf);
    UpperStep(row, j);
    var n, k, x, v := |row|, |row| + 1 - j, gf.Exp(i), gf.Exp(i + 1);
    var t, y, c := gf.Exp(n), gf.Exp(k), Coefficient(row, k);
    XorElem(gf, x, t);
    XorElem(gf, x, 1);
    XorElem(gf, y, 1);
    XorElem(gf, y, t);
    var e, r := Eval(gf, Upper(row, j - 1), v), Eval(gf, Upper(row, j - 1), x);
    EvalCn(gf, c, Upper(row, j - 1), v);
    EvalCn(gf, c, Upper(row, j - 1), x);
    MulDistributes(gf, y, c, gf.Multiply(v, e));
    var q: nat;
    if j == 1 {
      q := 0;
      UpperNothing(row);
      EvalNothing(gf, v);
      EvalNothing(gf, x);
      MulNonZero(gf, v, 0);
      MulNonZero(gf, x, 0);
      MulNonZero(gf, y, 0);
      MulNonZero(gf, Xor(x, t), 0);
      MulNonZero(gf, gf.Multiply(t, Xor(x, 1)), 0);
      XorSelf(t);
      XorSelf(0);
      MulNonZero(gf, c, 0);
    } else {
      q := gf.Multiply(gf.Exp(k + 1), e);
      Telescopes(gf, row, j - 1, i);
      assert NeighbourAt(gf, row, k);
      ExpMul(gf, k, i + 1);
      ExpMul(gf, i, k + 1);
      MulAssoc(gf, y, v, e);
      MulAssoc(gf, x, gf.Exp(k + 1), e);
    }
    XorElem(gf, gf.Multiply(y, c), gf.Multiply(x, q));
    XorElem(gf, c, gf.Multiply(x, r));
    TelescopeStep(gf, x, t, y, c, q, r);
  }

  lemma UpperNothing(row: seq<nat>)
    ensures Upper(row, 0) == Nil
  {
  }

  lemma EvalNothing(gf: GenericGF, v: nat)
    requires gf.Valid() && gf.Elem(v)
    ensures Ok(gf, Nil) && Eval(gf, Nil, v) == 0
  {
  }

  /** From one power of alpha to the next, the value stays zero, and it begins with zero at alpha. */
  lemma {:induction false} PowersAreRoots(gf: GenericGF, row: seq<nat>, i: nat)
    requires gf.Valid() && Elems(gf, row) && |row| < gf.size - 1 && AllNeighbours(gf, row) && i < |row|
    ensures Ok(gf, Upper(row, |row| + 1)) && Eval(gf, Upper(row, |row| + 1), gf.Exp(i + 1)) == 0
    decreases i
  {
    hide Xor, Eval, Upper, GenericGF.Multiply, GenericGF.Valid, AllNeighbours;
    var n, x := |row|, gf.Exp(i);
    var t, p := gf.Exp(n), Upper(row, n + 1);
    UpperOk(gf, row, n + 1);
    ExpOne(gf);
    Telescopes(gf, row, n + 1, i);
    XorElem(gf, x, t);
    XorElem(gf, x, 1);
    var s := gf.Multiply(t, Xor(x, 1));
    if i == 0 {
      XorSelf(1);
      MulNonZero(gf, t, 0);
      MulNonZero(gf, 0, Eval(gf, p, x));
      MulComm(gf, 0, Eval(gf, p, x));
    } else {
      PowersAreRoots(gf, row, i - 1);
      MulNonZero(gf, s, 0);
    }
    XorSelf(1);
    MulNonZero(gf, t, 0);
    MulNonZero(gf, Coefficient(row, 0), 0);
    MulOne(gf, Eval(gf, p, gf.Exp(i + 1)));
    var left := gf.Multiply(Xor(x, t), Eval(gf, p, gf.Exp(i + 1)));
    XorNil(left);
    ExpDiffers(gf, i, n);
    XorZero(x, t);
    MulNonZero(gf, Xor(x, t), Eval(gf, p, gf.Exp(i + 1)));
  }

  lemma ExpDiffers(gf: GenericGF, i: nat, j: nat)
    requires gf.Valid() && i < j < gf.size - 1
    ensures gf.Exp(i) != gf.Exp(j)
  {
    ExpInjective(gf, i, j);
  }

  // ----- the generator -----

  /** The generator as a vector, highest power first. */
  lemma {:induction false} GeneratorVector(gf: GenericGF, n: nat) returns (g: seq<nat>)
    requires gf.Valid() && n + gf.generatorBase <= 2 * gf.size
    ensures |g| == n + 1 && g[0] == 1 && Elems(gf, g) && OfSeq(g) == Generator(gf, n)
  {
    hide Xor, Plus, Times, Scale, OfSeq, GenericGF.Multiply, GenericGF.Valid;
    ExpOne(gf);
    if n == 0 {
      g := [1];
      SingleOfSeq(1);
    } else {
      var f := GeneratorVector(gf, n - 1);
      var a := gf.Exp(n - 1 + gf.generatorBase);
      var up, down := f + [0], [0] + f;
      g := XorSeq(up, ScaleSeq(gf, a, down));
      XorsElems(gf, up, ScaleSeq(gf, a, down));
      MulNonZero(gf, a, 0);
      XorNil(1);
      OfSeqXor(gf, up, ScaleSeq(gf, a, down));
      OfSeqScale(gf, a, down);
      OfSeqSnoc(f, 0);
      OfSeqLeadingZero(down);
      assert down[1..] == f;
      OfSeqOk(gf, f);
      TimesLinear(gf, OfSeq(f), a);
    }
  }

  lemma TimesLinear(gf: GenericGF, p: Poly, a: nat)
    requires gf.Valid() && Ok(gf, p) && gf.Elem(a)
    ensures Ok(gf, Linear(a)) && Ok(gf, Cn(0, p))
    ensures Times(gf, p, Linear(a)) == Plus(gf, Cn(0, p), Scale(gf, a, p))
  {
    hide Xor, Plus, Times, Scale, GenericGF.Valid;
    ExpOne(gf);
    EvalLinear(gf, a, 0);
    OkCn(gf, 0, p);
    TimesComm(gf, p, Linear(a));
    TimesStep(gf, Linear(a), p);
    TimesOne(gf, p);
    PlusComm(gf, Scale(gf, a, p), Cn(0, p));
  }

  /** So that the coefficients are a codeword with n check words. */
  lemma NeighboursMakeCodeword(gf: GenericGF, row: seq<nat>)
    requires gf.Valid() && gf.generatorBase == 1 && |row| < gf.size - 1 && Elems(gf, row) && AllNeighbours(gf, row)
    ensures IsCodeword(gf, Message(row), |row|)
  {
    hide Xor, Eval, OfSeq, GenericGF.Multiply, GenericGF.Valid, AllNeighbours;
    var m := Message(row);
    UpperOk(gf, row, |row| + 1);
    assert m[..|row| + 1] == m;
    forall i: nat | i < |row|
      ensures Syndrome(gf, m, i) == 0
    {
      PowersAreRoots(gf, row, i);
    }
  }

  lemma VectorIsCodeword(gf: GenericGF, g: seq<nat>, n: nat)
    requires gf.Valid() && n + gf.generatorBase <= 2 * gf.size && Elems(gf, g) && OfSeq(g) == Generator(gf, n)
    ensures IsCodeword(gf, g, n)
  {
    hide Xor, Eval, OfSeq, GenericGF.Multiply, GenericGF.Valid, Generator;
    OfSeqOk(gf, g);
    forall i: nat | i < n
      ensures Syndrome(gf, g, i) == 0
    {
      GeneratorRoot(gf, n, i);
    }
  }

  /** The neighbours determine the generator: a row whose coefficients fit one another is the generator's. */
  lemma NeighboursMakeGenerator(gf: GenericGF, row: seq<nat>)
    requires gf.Valid() && gf.generatorBase == 1 && 0 < |row| < gf.size - 1 && Elems(gf, row) && AllNeighbours(gf, row)
    ensures |row| + gf.generatorBase <= 2 * gf.size && Monic(Reverse(row)) == Generator(gf, |row|)
  {
    hide IsCodeword, Generator, OfSeq, GenericGF.Valid, AllNeighbours, Elems;
    var n := |row|;
    var g := GeneratorVector(gf, n);
    NeighboursMakeCodeword(gf, row);
    VectorIsCodeword(gf, g, n);
    assert Message(row)[..1] == [1] && g[..1] == [1];
    EncodingUnique(gf, Message(row), g, n);
  }
}
