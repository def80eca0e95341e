/** Error locator and evaluator of a list of errors, and the key equation that ties them to the syndromes. */
module ErrorLocator {
  import opened Bits
  import opened GenericGFs
  import opened Polynomials
  import opened PolynomialDivision
  import opened Coefficients
  import opened ReedSolomonEncoders
  import opened KeyEquation

  ghost predicate NonZeros(gf: GenericGF, xs: seq<nat>) {
    forall i :: 0 <= i < |xs| ==> gf.Elem(xs[i]) && xs[i] != 0
  }

  /** 1 + x0 * x, whose root is the inverse of x0. */
  ghost function Factor(x0: nat): Poly {
    Cn(1, Const(x0))
  }

  lemma FactorOk(gf: GenericGF, x0: nat)
    requires gf.Valid() && gf.Elem(x0)
    ensures Ok(gf, Factor(x0)) && (x0 != 0 ==> Len(Factor(x0)) == 2)
  {
    EvalConst(gf, x0, 0);
    OkCn(gf, 1, Const(x0));
  }

  /** The product of the factors of the first n locations. */
  ghost function Locator(gf: GenericGF, xs: seq<nat>, n: nat): (p: Poly)
    requires gf.Valid() && NonZeros(gf, xs) && n <= |xs|
    ensures Ok(gf, p)
  {
    if n == 0 then Const(1)
    else
      FactorOk(gf, xs[n - 1]);
      Times(gf, Locator(gf, xs, n - 1), Factor(xs[n - 1]))
  }

  ghost function Pow(gf: GenericGF, a: nat, k: nat): (r: nat)
    requires gf.Valid() && gf.Elem(a)
    ensures gf.Elem(r)
  {
    if k == 0 then 1 else gf.Multiply(a, Pow(gf, a, k - 1))
  }

  /** What error i contributes to the first syndrome. */
  ghost function Weight(gf: GenericGF, xs: seq<nat>, ys: seq<nat>, i: nat): (r: nat)
    requires gf.Valid() && NonZeros(gf, xs) && NonZeros(gf, ys) && i < |xs| == |ys|
    ensures gf.Elem(r)
  {
    gf.Multiply(ys[i], Pow(gf, xs[i], gf.generatorBase))
  }

  ghost function Evaluator(gf: GenericGF, xs: seq<nat>, ys: seq<nat>, n: nat): (p: Poly)
    requires gf.Valid() && NonZeros(gf, xs) && NonZeros(gf, ys) && n <= |xs| == |ys|
    ensures Ok(gf, p)
  {
    if n == 0 then Nil
    else
      FactorOk(gf, xs[n - 1]);
      Plus(gf, Times(gf, Factor(xs[n - 1]), Evaluator(gf, xs, ys, n - 1)),
           Scale(gf, Weight(gf, xs, ys, n - 1), Locator(gf, xs, n - 1)))
  }

  /** The first n terms of c / (1 + x0 * x). */
  ghost function Geometric(gf: GenericGF, c: nat, x0: nat, n: nat): (p: Poly)
    requires gf.Valid() && gf.Elem(c) && gf.Elem(x0)
    ensures Ok(gf, p)
    decreases n
  {
    if n == 0 then Nil
    else
      OkCn(gf, c, Geometric(gf, gf.Multiply(c, x0), x0, n - 1));
      Cn(c, Geometric(gf, gf.Multiply(c, x0), x0, n - 1))
  }

  /** The syndrome polynomial the first m errors produce, to r terms. */
  ghost function GeometricSum(gf: GenericGF, xs: seq<nat>, ys: seq<nat>, m: nat, r: nat): (p: Poly)
    requires gf.Valid() && NonZeros(gf, xs) && NonZeros(gf, ys) && m <= |xs| == |ys|
    ensures Ok(gf, p)
  {
    if m == 0 then Nil
    else Plus(gf, GeometricSum(gf, xs, ys, m - 1, r), Geometric(gf, Weight(gf, xs, ys, m - 1), xs[m - 1], r))
  }

  // ----- the key equation -----

  /** (1 + x0 * x) * Geometric = c + z * x^n */
  lemma {:induction false} GeometricSeries(gf: GenericGF, c: nat, x0: nat, n: nat) returns (z: nat)
    requires gf.Valid() && gf.Elem(c) && gf.Elem(x0)
    ensures gf.Elem(z) && Ok(gf, Factor(x0)) && Ok(gf, Const(c)) && Ok(gf, Const(z)) && Ok(gf, Shift(n, Const(z)))
    ensures Times(gf, Factor(x0), Geometric(gf, c, x0, n)) == Plus(gf, Const(c), Shift(n, Const(z)))
    decreases n
  {
    hide Xor, Plus, Times, Ok, Shift, Const, Factor;
    FactorOk(gf, x0);
    EvalConst(gf, c, 0);
    if n == 0 {
      z := c;
      TimesNil(gf, Factor(x0));
      PlusSelf(gf, Const(c));
      ShiftZero(Const(c));
    } else {
      var cx := gf.Multiply(c, x0);
      z := GeometricSeries(gf, cx, x0, n - 1);
      GeometricStep(gf, c, x0, Geometric(gf, cx, x0, n - 1), n - 1, z);
    }
  }

  lemma GeometricStep(gf: GenericGF, c: nat, x0: nat, g: Poly, n: nat, z: nat)
    requires gf.Valid() && gf.Elem(0) && gf.Elem(c) && gf.Elem(x0) && Ok(gf, g) && gf.Elem(z) && Ok(gf, Factor(x0))
    requires Ok(gf, Const(c)) && Ok(gf, Const(gf.Multiply(c, x0))) && Ok(gf, Const(z)) && Ok(gf, Shift(n, Const(z)))
    requires Times(gf, Factor(x0), g) == Plus(gf, Const(gf.Multiply(c, x0)), Shift(n, Const(z)))
    ensures Ok(gf, Cn(c, g)) && Ok(gf, Shift(n + 1, Const(z)))
    ensures Times(gf, Factor(x0), Cn(c, g)) == Plus(gf, Const(c), Shift(n + 1, Const(z)))
  {
    hide *;
    var f, cx, t := Factor(x0), Const(gf.Multiply(c, x0)), Shift(n, Const(z));
    OkCn(gf, c, g);
    OkCn(gf, 0, t);
    OkCn(gf, 0, cx);
    TimesCn(gf, f, c, g);
    ScaleFactor(gf, c, x0);
    CnPlus(gf, cx, t);
    ShiftSucc(n, Const(z));
    PlusAssoc(gf, Const(c), Cn(0, cx), Plus(gf, Cn(0, cx), Cn(0, t)));
    PlusCancel(gf, Cn(0, t), Cn(0, cx));
  }

  lemma ShiftZero(p: Poly)
    ensures Shift(0, p) == p
  {
  }

  lemma ShiftSucc(n: nat, p: Poly)
    ensures Shift(n + 1, p) == Cn(0, Shift(n, p))
  {
  }

  /** c * (1 + x0 * x) = c + c * x0 * x */
  lemma ScaleFactor(gf: GenericGF, c: nat, x0: nat)
    requires gf.Valid() && gf.Elem(c) && gf.Elem(x0)
    ensures Ok(gf, Factor(x0)) && Ok(gf, Const(c)) && Ok(gf, Const(gf.Multiply(c, x0)))
    ensures Ok(gf, Cn(0, Const(gf.Multiply(c, x0))))
    ensures Scale(gf, c, Factor(x0)) == Plus(gf, Const(c), Cn(0, Const(gf.Multiply(c, x0))))
  {
    hide Xor;
    FactorOk(gf, x0);
    var cx := gf.Multiply(c, x0);
    EvalConst(gf, c, 0);
    EvalConst(gf, cx, 0);
    EvalConst(gf, x0, 0);
    OkCn(gf, 0, Const(cx));
    ScaleStep(gf, c, Factor(x0));
    ScaleConst(gf, c, x0);
    MulOne(gf, c);
    PlusStep(gf, Const(c), Cn(0, Const(cx)));
    XorNil(c);
    PlusNil(gf, Const(cx));
  }

  lemma ScaleConst(gf: GenericGF, c: nat, a: nat)
    requires gf.Valid() && gf.Elem(c) && gf.Elem(a)
    ensures Ok(gf, Const(a)) && Scale(gf, c, Const(a)) == Const(gf.Multiply(c, a))
  {
    EvalConst(gf, a, 0);
  }

  /** Locator and evaluator solve the key equation of the errors' own syndrome polynomial. */
  lemma {:induction false} KeyEquationHolds(gf: GenericGF, xs: seq<nat>, ys: seq<nat>, m: nat, r: nat) returns (w: Poly)
    requires gf.Valid() && NonZeros(gf, xs) && NonZeros(gf, ys) && m <= |xs| == |ys|
    ensures Combines(gf, r, GeometricSum(gf, xs, ys, m, r), Evaluator(gf, xs, ys, m), Locator(gf, xs, m), w)
  {
    hide Xor, Plus, Times, Shift, Const, Factor, Weight, XPow, Scale, Geometric;
    XPowTimes(gf, r, Nil);
    if m == 0 {
      w := Nil;
      TimesNil(gf, Locator(gf, xs, 0));
      TimesNil(gf, XPow(r));
      PlusNil(gf, Nil);
    } else {
      var w' := KeyEquationHolds(gf, xs, ys, m - 1, r);
      var c, x0 := Weight(gf, xs, ys, m - 1), xs[m - 1];
      var z := GeometricSeries(gf, c, x0, r);
      w := AddError(gf, r, GeometricSum(gf, xs, ys, m - 1, r), Evaluator(gf, xs, ys, m - 1), Locator(gf, xs, m - 1), w',
                    Factor(x0), Geometric(gf, c, x0, r), c, z);
    }
  }

  /** One more error with factor f and syndrome contribution g, where f * g = c + z * x^r. */
  lemma AddError(gf: GenericGF, r: nat, s: Poly, omega: Poly, sigma: Poly, w: Poly, f: Poly, g: Poly, c: nat, z: nat)
      returns (w': Poly)
    requires gf.Valid() && Ok(gf, s) && Combines(gf, r, s, omega, sigma, w)
    requires Ok(gf, f) && Ok(gf, g) && gf.Elem(c) && gf.Elem(z) && Ok(gf, Const(c)) && Ok(gf, Const(z))
    requires Ok(gf, Shift(r, Const(z))) && Times(gf, f, g) == Plus(gf, Const(c), Shift(r, Const(z)))
    ensures Combines(gf, r, Plus(gf, s, g), Plus(gf, Times(gf, f, omega), Scale(gf, c, sigma)), Times(gf, sigma, f), w')
  {
    hide Xor, Plus, Times, Shift, Const, XPow, Ok, Scale;
    var x := XPow(r);
    // f * omega = sigma * f * s + f * w * x
    ExpandProduct(gf, f, sigma, s, w, x);
    TimesComm(gf, f, sigma);
    // sigma * f * g = c * sigma + z * sigma * x
    TimesAssoc(gf, sigma, f, g);
    TimesPlusRight(gf, sigma, Const(c), Shift(r, Const(z)));
    TimesConst(gf, c, sigma);
    XPowTimes(gf, r, Const(z));
    TimesConst(gf, z, sigma);
    TimesAssoc(gf, sigma, Const(z), x);
    var sf, fw, zs := Times(gf, sigma, f), Times(gf, f, w), Scale(gf, z, sigma);
    w' := Plus(gf, fw, zs);
    var sfs, sfg, fwx, zsx := Times(gf, sf, s), Times(gf, sf, g), Times(gf, fw, x), Times(gf, zs, x);
    TimesPlusRight(gf, sf, s, g);
    TimesPlusLeft(gf, fw, zs, x);
    assert sfg == Plus(gf, Scale(gf, c, sigma), zsx);
    PlusCancel(gf, Scale(gf, c, sigma), zsx);
    PlusShuffle(gf, sfs, fwx, sfg, zsx);
  }

  // ----- degrees, roots and values -----

  lemma {:induction false} LocatorLen(gf: GenericGF, xs: seq<nat>, n: nat)
    requires gf.Valid() && NonZeros(gf, xs) && n <= |xs|
    ensures Len(Locator(gf, xs, n)) == n + 1
  {
    hide Xor, Plus, Times, Factor;
    if n > 0 {
      LocatorLen(gf, xs, n - 1);
      FactorOk(gf, xs[n - 1]);
      LenTimes(gf, Locator(gf, xs, n - 1), Factor(xs[n - 1]));
    }
  }

  lemma {:induction false} EvaluatorLen(gf: GenericGF, xs: seq<nat>, ys: seq<nat>, n: nat)
    requires gf.Valid() && NonZeros(gf, xs) && NonZeros(gf, ys) && n <= |xs| == |ys|
    ensures Len(Evaluator(gf, xs, ys, n)) <= n
  {
    hide Xor, Plus, Times, Factor, Pow, Scale;
    if n > 0 {
      var c, l := Weight(gf, xs, ys, n - 1), Locator(gf, xs, n - 1);
      EvaluatorLen(gf, xs, ys, n - 1);
      LocatorLen(gf, xs, n - 1);
      FactorOk(gf, xs[n - 1]);
      LenTimes(gf, Factor(xs[n - 1]), Evaluator(gf, xs, ys, n - 1));
      if c == 0 {
        ScaleZero(gf, l);
      } else {
        LenScale(gf, c, l);
      }
      LenPlus(gf, Times(gf, Factor(xs[n - 1]), Evaluator(gf, xs, ys, n - 1)), Scale(gf, c, l));
    }
  }

  /** The value 1 + x0 * v of a factor. */
  ghost function FactorAt(gf: GenericGF, x0: nat, v: nat): (r: nat)
    requires gf.Valid() && gf.Elem(x0) && gf.Elem(v)
    ensures gf.Elem(r)
  {
    XorElem(gf, 1, gf.Multiply(x0, v));
    Xor(1, gf.Multiply(x0, v))
  }

  lemma EvalFactor(gf: GenericGF, x0: nat, v: nat)
    requires gf.Valid() && gf.Elem(x0) && gf.Elem(v)
    ensures Ok(gf, Factor(x0)) && Eval(gf, Factor(x0), v) == FactorAt(gf, x0, v)
  {
    hide Xor;
    FactorOk(gf, x0);
    EvalConst(gf, x0, v);
    EvalCn(gf, 1, Const(x0), v);
    MulComm(gf, x0, v);
  }

  /** A factor vanishes exactly at the inverse of its location. */
  lemma FactorRoot(gf: GenericGF, x0: nat, v: nat)
    requires gf.Valid() && gf.Elem(x0) && gf.Elem(v) && x0 != 0
    ensures FactorAt(gf, x0, v) == 0 <==> v == gf.Inverse(x0)
  {
    hide Xor;
    XorZero(1, gf.Multiply(x0, v));
    MulInverse(gf, x0);
    if gf.Multiply(x0, v) == 1 {
      var i := gf.Inverse(x0);
      MulAssoc(gf, i, x0, v);
      MulComm(gf, i, x0);
      MulOne(gf, v);
      MulOne(gf, i);
    }
  }

  lemma InverseInjective(gf: GenericGF, a: nat, b: nat)
    requires gf.Valid() && gf.Elem(a) && gf.Elem(b) && a != 0 && b != 0
    ensures gf.Inverse(a) == gf.Inverse(b) ==> a == b
  {
    var i := gf.Inverse(a);
    MulInverse(gf, a);
    MulInverse(gf, b);
    MulAssoc(gf, a, i, b);
    MulComm(gf, i, b);
    MulOne(gf, a);
    MulOne(gf, b);
  }

  /** The product of the factor values of the first n locations, leaving out position skip. */
  ghost function ProductExcept(gf: GenericGF, xs: seq<nat>, skip: nat, v: nat, n: nat): (r: nat)
    requires gf.Valid() && NonZeros(gf, xs) && gf.Elem(v) && n <= |xs|
    ensures gf.Elem(r)
  {
    if n == 0 then 1
    else if n - 1 == skip then ProductExcept(gf, xs, skip, v, n - 1)
    else gf.Multiply(ProductExcept(gf, xs, skip, v, n - 1), FactorAt(gf, xs[n - 1], v))
  }

  lemma {:induction false} EvalLocator(gf: GenericGF, xs: seq<nat>, skip: nat, v: nat, n: nat)
    requires gf.Valid() && NonZeros(gf, xs) && gf.Elem(v) && n <= |xs| && n <= skip
    ensures Eval(gf, Locator(gf, xs, n), v) == ProductExcept(gf, xs, skip, v, n)
  {
    hide Xor, Plus, Times, Factor, FactorAt;
    if n == 0 {
      EvalConst(gf, 1, v);
    } else {
      EvalLocator(gf, xs, skip, v, n - 1);
      EvalFactor(gf, xs[n - 1], v);
      EvalTimes(gf, Locator(gf, xs, n - 1), Factor(xs[n - 1]), v);
    }
  }

  /** The roots of the locator are the inverses of the locations. */
  lemma {:induction false} LocatorRoots(gf: GenericGF, xs: seq<nat>, v: nat, n: nat)
    requires gf.Valid() && NonZeros(gf, xs) && gf.Elem(v) && n <= |xs|
    ensures Eval(gf, Locator(gf, xs, n), v) == 0 <==> exists i :: 0 <= i < n && v == gf.Inverse(xs[i])
  {
    hide Xor, Plus, Times, Factor, FactorAt;
    if n == 0 {
      EvalConst(gf, 1, v);
    } else {
      var l := Locator(gf, xs, n - 1);
      LocatorRoots(gf, xs, v, n - 1);
      EvalFactor(gf, xs[n - 1], v);
      FactorRoot(gf, xs[n - 1], v);
      EvalTimes(gf, l, Factor(xs[n - 1]), v);
      MulNonZero(gf, Eval(gf, l, v), FactorAt(gf, xs[n - 1], v));
    }
  }

  lemma EvalEvaluatorStep(gf: GenericGF, xs: seq<nat>, ys: seq<nat>, n: nat, v: nat)
    requires gf.Valid() && NonZeros(gf, xs) && NonZeros(gf, ys) && 0 < n <= |xs| == |ys| && gf.Elem(v)
    ensures Eval(gf, Evaluator(gf, xs, ys, n), v) ==
            Xor(gf.Multiply(FactorAt(gf, xs[n - 1], v), Eval(gf, Evaluator(gf, xs, ys, n - 1), v)),
                gf.Multiply(Weight(gf, xs, ys, n - 1), Eval(gf, Locator(gf, xs, n - 1), v)))
  {
    hide Xor, Plus, Times, Eval, Factor, FactorAt, Weight, Locator;
    var f, o, l := Factor(xs[n - 1]), Evaluator(gf, xs, ys, n - 1), Locator(gf, xs, n - 1);
    EvalFactor(gf, xs[n - 1], v);
    EvalTimes(gf, f, o, v);
    EvalScale(gf, Weight(gf, xs, ys, n - 1), l, v);
    EvalPlus(gf, Times(gf, f, o), Scale(gf, Weight(gf, xs, ys, n - 1), l), v);
  }

  /** At the root of location i only the i-th error is left in the evaluator. */
  lemma {:induction false} EvalEvaluator(gf: GenericGF, xs: seq<nat>, ys: seq<nat>, i: nat, n: nat)
    requires gf.Valid() && NonZeros(gf, xs) && NonZeros(gf, ys) && i < n <= |xs| == |ys|
    ensures Eval(gf, Evaluator(gf, xs, ys, n), gf.Inverse(xs[i])) ==
            gf.Multiply(Weight(gf, xs, ys, i), ProductExcept(gf, xs, i, gf.Inverse(xs[i]), n))
  {
    hide Xor, Plus, Times, Eval, Factor, FactorAt, Weight, Locator, Evaluator;
    var v := gf.Inverse(xs[i]);
    var c, l, o := Weight(gf, xs, ys, n - 1), Eval(gf, Locator(gf, xs, n - 1), v), Eval(gf, Evaluator(gf, xs, ys, n - 1), v);
    var fv := FactorAt(gf, xs[n - 1], v);
    EvalEvaluatorStep(gf, xs, ys, n, v);
    XorNil(gf.Multiply(c, l));
    XorNil(gf.Multiply(fv, o));
    if i == n - 1 {
      FactorRoot(gf, xs[i], v);
      EvalLocator(gf, xs, i, v, n - 1);
    } else {
      EvalEvaluator(gf, xs, ys, i, n - 1);
      LocatorRoots(gf, xs, v, n - 1);
      MulComm(gf, fv, o);
      MulAssoc(gf, Weight(gf, xs, ys, i), ProductExcept(gf, xs, i, v, n - 1), fv);
    }
  }

  /** Forney's denominators are non-zero because locations are distinct. */
  lemma {:induction false} ProductNonZero(gf: GenericGF, xs: seq<nat>, i: nat, n: nat)
    requires gf.Valid() && NonZeros(gf, xs) && Distinct(xs) && i < |xs| && n <= |xs|
    ensures ProductExcept(gf, xs, i, gf.Inverse(xs[i]), n) != 0
  {
    hide Xor, FactorAt;
    if n > 0 && n - 1 != i {
      var v := gf.Inverse(xs[i]);
      FactorRoot(gf, xs[n - 1], v);
      InverseInjective(gf, xs[i], xs[n - 1]);
      ProductNonZero(gf, xs, i, n - 1);
      MulNonZero(gf, ProductExcept(gf, xs, i, v, n - 1), FactorAt(gf, xs[n - 1], v));
    } else if n > 0 {
      ProductNonZero(gf, xs, i, n - 1);
    }
  }

  lemma {:induction false} PowNonZero(gf: GenericGF, a: nat, k: nat)
    requires gf.Valid() && gf.Elem(a) && a != 0
    ensures Pow(gf, a, k) != 0
  {
    if k > 0 {
      PowNonZero(gf, a, k - 1);
      MulNonZero(gf, a, Pow(gf, a, k - 1));
    }
  }

  lemma WeightNonZero(gf: GenericGF, xs: seq<nat>, ys: seq<nat>, i: nat)
    requires gf.Valid() && NonZeros(gf, xs) && NonZeros(gf, ys) && i < |xs| == |ys|
    ensures Weight(gf, xs, ys, i) != 0
  {
    PowNonZero(gf, xs[i], gf.generatorBase);
    MulNonZero(gf, ys[i], Pow(gf, xs[i], gf.generatorBase));
  }
}
