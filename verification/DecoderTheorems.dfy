/** The two theorems about the decoder: error correction and soundness. */
module DecoderTheorems {
  import opened Bits
  import opened GenericGFs
  import opened Polynomials
  import opened PolynomialDivision
  import opened Coefficients
  import opened KeyEquation
  import opened ReedSolomonEncoders
  import opened ErrorLocator
  import opened DecoderSpec
  import opened ErrorCorrection

  // ----- the key equation has one solution -----

  ghost function Inverses(gf: GenericGF, xs: seq<nat>): (s: seq<nat>)
    requires gf.Valid() && NonZeros(gf, xs)
    ensures |s| == |xs| && forall i :: 0 <= i < |xs| ==> s[i] == gf.Inverse(xs[i])
  {
    seq(|xs|, i requires 0 <= i < |xs| => gf.Inverse(xs[i]))
  }

  /** The inverses of the locations are distinct roots of the locator at which the evaluator does not vanish. */
  lemma RootsOfLocator(gf: GenericGF, xs: seq<nat>, ys: seq<nat>)
    requires gf.Valid() && NonZeros(gf, xs) && NonZeros(gf, ys) && |xs| == |ys| && Distinct(xs)
    ensures Distinct(Inverses(gf, xs)) && AllRoots(gf, Locator(gf, xs, |xs|), Inverses(gf, xs))
    ensures forall i :: 0 <= i < |xs| ==>
      gf.Elem(gf.Inverse(xs[i])) && Eval(gf, Evaluator(gf, xs, ys, |xs|), gf.Inverse(xs[i])) != 0
  {
    hide Xor, Eval, Locator, Evaluator, Weight, ProductExcept;
    var roots := Inverses(gf, xs);
    forall i, j | 0 <= i < j < |roots|
      ensures roots[i] != roots[j]
    {
      InverseInjective(gf, xs[i], xs[j]);
    }
    forall i | 0 <= i < |xs|
      ensures gf.Elem(roots[i]) && Eval(gf, Locator(gf, xs, |xs|), roots[i]) == 0
      ensures Eval(gf, Evaluator(gf, xs, ys, |xs|), roots[i]) != 0
    {
      LocatorRoots(gf, xs, roots[i], |xs|);
      EvalEvaluator(gf, xs, ys, i, |xs|);
      WeightNonZero(gf, xs, ys, i);
      ProductNonZero(gf, xs, i, |xs|);
      MulNonZero(gf, Weight(gf, xs, ys, i), ProductExcept(gf, xs, i, roots[i], |xs|));
    }
  }

  lemma {:induction false} LocatorAtZero(gf: GenericGF, xs: seq<nat>, n: nat)
    requires gf.Valid() && NonZeros(gf, xs) && n <= |xs|
    ensures Hd(Locator(gf, xs, n)) == 1
  {
    hide Xor, Plus, Times, Factor;
    if n > 0 {
      var l := Locator(gf, xs, n - 1);
      LocatorAtZero(gf, xs, n - 1);
      FactorOk(gf, xs[n - 1]);
      HdTimes(gf, l, Factor(xs[n - 1]));
      HdFactor(xs[n - 1]);
      MulOne(gf, 1);
    }
  }

  lemma HdFactor(x0: nat)
    ensures Hd(Factor(x0)) == 1
  {
  }

  lemma HdTimes(gf: GenericGF, p: Poly, q: Poly)
    requires gf.Valid() && Ok(gf, p) && Ok(gf, q)
    ensures gf.Elem(Hd(p)) && gf.Elem(Hd(q)) && Hd(Times(gf, p, q)) == gf.Multiply(Hd(p), Hd(q))
  {
    hide Xor;
    TimesStep(gf, p, q);
    ScaleStep(gf, Hd(p), q);
    XorNil(gf.Multiply(Hd(p), Hd(q)));
  }

  /** The syndrome polynomial of errors within the capacity is not zero. */
  lemma SyndromesNotZero(gf: GenericGF, xs: seq<nat>, ys: seq<nat>, n: nat, w: Poly)
    requires gf.Valid() && NonZeros(gf, xs) && NonZeros(gf, ys) && |xs| == |ys| && Distinct(xs) && 0 < |xs| <= n
    requires Combines(gf, n, GeometricSum(gf, xs, ys, |xs|, n), Evaluator(gf, xs, ys, |xs|), Locator(gf, xs, |xs|), w)
    ensures GeometricSum(gf, xs, ys, |xs|, n) != Nil
  {
    hide Xor, Plus, Times, Eval, Locator, Evaluator, XPow, Shift, Weight;
    var omega := Evaluator(gf, xs, ys, |xs|);
    if GeometricSum(gf, xs, ys, |xs|, n) == Nil {
      TimesNil(gf, Locator(gf, xs, |xs|));
      PlusNil(gf, Times(gf, w, XPow(n)));
      PlusNil(gf, omega);
      EvaluatorLen(gf, xs, ys, |xs|);
      ShortMultiple(gf, n, omega, Nil, w);
      RootsOfLocator(gf, xs, ys);
      EvalNil(gf, gf.Inverse(xs[0]));
    }
  }

  lemma EvalNil(gf: GenericGF, v: nat)
    requires gf.Valid() && gf.Elem(v)
    ensures Ok(gf, Nil) && Eval(gf, Nil, v) == 0
  {
  }

  /** The Euclidean algorithm finds locator and evaluator of any list of errors within the capacity. */
  lemma SolveFindsErrors(gf: GenericGF, xs: seq<nat>, ys: seq<nat>, n: nat)
    requires gf.Valid() && NonZeros(gf, xs) && NonZeros(gf, ys) && |xs| == |ys| && Distinct(xs) && 0 < |xs| <= n / 2
    ensures GeometricSum(gf, xs, ys, |xs|, n) != Nil && Len(GeometricSum(gf, xs, ys, |xs|, n)) <= n
    ensures Solve(gf, GeometricSum(gf, xs, ys, |xs|, n), n) ==
            Solved(Locator(gf, xs, |xs|), Evaluator(gf, xs, ys, |xs|))
  {
    hide *;
    var s, sigma, omega := GeometricSum(gf, xs, ys, |xs|, n), Locator(gf, xs, |xs|), Evaluator(gf, xs, ys, |xs|);
    var w := KeyEquationHolds(gf, xs, ys, |xs|, n);
    SyndromesNotZero(gf, xs, ys, n, w);
    GeometricSumLen(gf, xs, ys, |xs|, n);
    LocatorLen(gf, xs, |xs|);
    EvaluatorLen(gf, xs, ys, |xs|);
    LocatorAtZero(gf, xs, |xs|);
    RootsOfLocator(gf, xs, ys);
    SolveUnique(gf, s, n, sigma, omega, w, Inverses(gf, xs));
  }

  lemma {:induction false} GeometricLen(gf: GenericGF, c: nat, x0: nat, r: nat)
    requires gf.Valid() && gf.Elem(c) && gf.Elem(x0)
    ensures Len(Geometric(gf, c, x0, r)) <= r
    decreases r
  {
    if r > 0 {
      GeometricLen(gf, gf.Multiply(c, x0), x0, r - 1);
    }
  }

  lemma {:induction false} GeometricSumLen(gf: GenericGF, xs: seq<nat>, ys: seq<nat>, m: nat, r: nat)
    requires gf.Valid() && NonZeros(gf, xs) && NonZeros(gf, ys) && m <= |xs| == |ys|
    ensures Len(GeometricSum(gf, xs, ys, m, r)) <= r
  {
    hide Xor, Plus, Geometric, Weight;
    if m > 0 {
      GeometricSumLen(gf, xs, ys, m - 1, r);
      GeometricLen(gf, Weight(gf, xs, ys, m - 1), xs[m - 1], r);
      LenPlus(gf, GeometricSum(gf, xs, ys, m - 1, r), Geometric(gf, Weight(gf, xs, ys, m - 1), xs[m - 1], r));
    }
  }

  /** A solution of the key equation with small degrees and enough distinct roots is the one that is found. */
  lemma SolveUnique(gf: GenericGF, s: Poly, n: nat, sigma: Poly, omega: Poly, w: Poly, roots: seq<nat>)
    requires gf.Valid() && n >= 2 && Ok(gf, s) && Len(s) <= n && Combines(gf, n, s, omega, sigma, w)
    requires Ok(gf, sigma) && Ok(gf, omega)
    requires Len(sigma) == |roots| + 1 && Len(omega) <= |roots| <= n / 2 && Hd(sigma) == 1
    requires Distinct(roots) && AllRoots(gf, sigma, roots)
    requires forall i :: 0 <= i < |roots| ==> gf.Elem(roots[i]) && Eval(gf, omega, roots[i]) != 0
    ensures Solve(gf, s, n) == Solved(sigma, omega)
  {
    hide *;
    var rLast, r, tLast, t, uLast, u := FinalLines(gf, s, n);
    var k := CommonMultiple(gf, n, s, rLast, r, tLast, t, uLast, u, sigma, omega, w);
    LenNil(sigma);
    ConstantMultiple(gf, r, t, k, sigma, omega, roots);
    ScaleBack(gf, r, t, Hd(k), sigma, omega);
    SolveForm(gf, s, n, r, t);
  }

  /** The lines at which the Euclidean algorithm stops. */
  lemma FinalLines(gf: GenericGF, s: Poly, n: nat)
      returns (rLast: Poly, r: Poly, tLast: Poly, t: Poly, uLast: Poly, u: Poly)
    requires gf.Valid() && n >= 2 && Ok(gf, s) && Len(s) <= n
    ensures Lines(gf, n, s, rLast, r, tLast, t, uLast, u) && Ok(gf, r) && Ok(gf, t)
    ensures Ok(gf, XPow(n)) && Ok(gf, Nil) && Ok(gf, Const(1))
    ensures (r, t) == EuclidRun(gf, n / 2, XPow(n), s, Nil, Const(1))
    ensures Len(t) + Len(rLast) == n + 2 && Len(r) <= n / 2 && Len(rLast) >= n / 2 + 1 && Len(t) > 0
  {
    hide Xor, Plus, Times, EuclidRun, Shift, Const, Combines, Lead, MaxCoef;
    EvalNil(gf, 0);
    LinesStart(gf, n, s);
    XPowTimes(gf, n, Nil);
    rLast, tLast, uLast, u := EuclidRunLines(gf, n, n / 2, s, XPow(n), s, Nil, Const(1), Const(1), Nil);
    r, t := EuclidRun(gf, n / 2, XPow(n), s, Nil, Const(1)).0, EuclidRun(gf, n / 2, XPow(n), s, Nil, Const(1)).1;
    LenNil(rLast);
    LenNil(r);
  }

  lemma SolveForm(gf: GenericGF, s: Poly, n: nat, r: Poly, t: Poly)
    requires gf.Valid() && n >= 2 && Ok(gf, s) && Ok(gf, XPow(n)) && Ok(gf, Nil) && Ok(gf, Const(1))
    requires Ok(gf, r) && Ok(gf, t) && (r, t) == EuclidRun(gf, n / 2, XPow(n), s, Nil, Const(1))
    ensures Solve(gf, s, n) ==
            if Hd(t) == 0 then None
            else Solved(Scale(gf, gf.Inverse(Hd(t)), t), Scale(gf, gf.Inverse(Hd(t)), r))
  {
    hide EuclidRun, Scale, XPow;
  }

  /** Dividing by the constant term undoes the constant factor. */
  lemma ScaleBack(gf: GenericGF, r: Poly, t: Poly, c: nat, sigma: Poly, omega: Poly)
    requires gf.Valid() && Ok(gf, r) && Ok(gf, t) && gf.Elem(c) && c != 0 && Ok(gf, Const(c))
    requires sigma == Times(gf, t, Const(c)) && omega == Times(gf, r, Const(c)) && Hd(sigma) == 1
    ensures gf.Elem(Hd(t)) && Hd(t) != 0
    ensures Scale(gf, gf.Inverse(Hd(t)), t) == sigma && Scale(gf, gf.Inverse(Hd(t)), r) == omega
  {
    hide Xor, Plus, Times;
    TimesConst(gf, c, t);
    TimesConst(gf, c, r);
    ScaleStep(gf, c, t);
    assert gf.Multiply(c, Hd(t)) == 1;
    MulNonZero(gf, c, Hd(t));
    MulComm(gf, c, Hd(t));
    InverseUnique(gf, Hd(t), c);
  }

  // ----- magnitudes and patching -----

  /** Forney's formula with the code's one division by the location: right for base 0, a factor for each base beyond 1. */
  lemma ForneyValue(gf: GenericGF, xs: seq<nat>, ys: seq<nat>, i: nat)
    requires gf.Valid() && NonZeros(gf, xs) && NonZeros(gf, ys) && |xs| == |ys| && Distinct(xs) && i < |xs|
    ensures Magnitude(gf, Evaluator(gf, xs, ys, |xs|), xs, i) ==
            if gf.generatorBase == 0 then ys[i] else gf.Multiply(ys[i], Pow(gf, xs[i], gf.generatorBase - 1))
  {
    hide Xor, Eval, Evaluator, ProductExcept;
    var x0, v := xs[i], gf.Inverse(xs[i]);
    var d := ProductExcept(gf, xs, i, v, |xs|);
    EvalEvaluator(gf, xs, ys, i, |xs|);
    ProductNonZero(gf, xs, i, |xs|);
    Undo(gf, Weight(gf, xs, ys, i), d);
    MulOne(gf, ys[i]);
    if gf.generatorBase > 0 {
      var rest := Pow(gf, x0, gf.generatorBase - 1);
      MulComm(gf, x0, rest);
      MulAssoc(gf, ys[i], rest, x0);
      Undo(gf, gf.Multiply(ys[i], rest), x0);
    }
  }

  /** The formula gives an error value back if and only if that factor is one, as it is for generator base 0 and 1. */
  lemma ForneyCorrect(gf: GenericGF, xs: seq<nat>, ys: seq<nat>, i: nat)
    requires gf.Valid() && NonZeros(gf, xs) && NonZeros(gf, ys) && |xs| == |ys| && Distinct(xs) && i < |xs|
    ensures Magnitude(gf, Evaluator(gf, xs, ys, |xs|), xs, i) == ys[i]
      <==> gf.generatorBase == 0 || Pow(gf, xs[i], gf.generatorBase - 1) == 1
    ensures gf.generatorBase <= 1 ==> Magnitude(gf, Evaluator(gf, xs, ys, |xs|), xs, i) == ys[i]
  {
    hide Magnitude, Evaluator;
    ForneyValue(gf, xs, ys, i);
    if gf.generatorBase > 0 {
      var factor := Pow(gf, xs[i], gf.generatorBase - 1);
      MulComm(gf, ys[i], factor);
      Undo(gf, factor, ys[i]);
      MulInverse(gf, ys[i]);
      MulOne(gf, ys[i]);
    }
  }

  lemma Undo(gf: GenericGF, a: nat, d: nat)
    requires gf.Valid() && gf.Elem(a) && gf.Elem(d) && d != 0
    ensures gf.Multiply(gf.Multiply(a, d), gf.Inverse(d)) == a
  {
    MulAssoc(gf, a, d, gf.Inverse(d));
    MulInverse(gf, d);
    MulOne(gf, a);
  }

  lemma {:induction false} PatchRestores(gf: GenericGF, msg: seq<nat>, e: seq<nat>, xs: seq<nat>, k: nat)
    requires gf.Valid() && |msg| == |e| && Elems(gf, msg) && Covers(gf, e, xs) && k <= |xs| && NonZeros(gf, xs)
    requires Elems(gf, Values(gf, e, xs))
    ensures Elems(gf, XorSeq(msg, Partial(gf, e, xs, k)))
    ensures Patch(gf, XorSeq(msg, Partial(gf, e, xs, k)), xs, Values(gf, e, xs), k) == (true, XorSeq(msg, e))
    decreases |xs| - k
  {
    hide Xor, Covers, Partial;
    hide GenericGF.Valid, GenericGF.Log, GenericGF.Exp;
    var m := XorSeq(msg, Partial(gf, e, xs, k));
    XorsInField(gf, msg, Partial(gf, e, xs, k));
    if k == |xs| {
      PartialAll(gf, e, xs);
    } else {
      CoverPosition(gf, e, xs, k);
      PartialStep(gf, e, xs, k);
      var p := Position(gf, |e|, xs[k]);
      XorNil(msg[p]);
      XorNil(e[p]);
      assert m[p := Xor(m[p], e[p])] == XorSeq(msg, Partial(gf, e, xs, k + 1));
      PatchRestores(gf, msg, e, xs, k + 1);
    }
  }

  // ----- error correction -----

  lemma {:induction false} CodewordSyndromes(gf: GenericGF, m: seq<nat>, k: nat, n: nat)
    requires gf.Valid() && n + gf.generatorBase <= 2 * gf.size && Elems(gf, m) && k <= n
    ensures SyndromePoly(gf, m, k, n) == Nil <==> forall i: nat :: k <= i < n ==> Syndrome(gf, m, i) == 0
    decreases n - k
  {
    hide Syndrome;
    if k < n {
      CodewordSyndromes(gf, m, k + 1, n);
    }
  }

  /** A codeword does not show in the syndromes of a received message. */
  lemma {:induction false} SyndromesOfErrors(gf: GenericGF, cw: seq<nat>, e: seq<nat>, k: nat, n: nat)
    requires gf.Valid() && n + gf.generatorBase <= 2 * gf.size && IsCodeword(gf, cw, n) && |cw| == |e| && Elems(gf, e)
    requires k <= n
    ensures Elems(gf, XorSeq(cw, e)) && SyndromePoly(gf, XorSeq(cw, e), k, n) == SyndromePoly(gf, e, k, n)
    decreases n - k
  {
    hide Xor, Syndrome;
    XorsInField(gf, cw, e);
    if k < n {
      SyndromesOfErrors(gf, cw, e, k + 1, n);
      SyndromeXor(gf, cw, e, k);
      XorNil(Syndrome(gf, e, k));
    }
  }

  lemma XorSeqCancel(a: seq<nat>, b: seq<nat>)
    requires |a| == |b|
    ensures XorSeq(a, XorSeq(a, b)) == b && XorSeq(b, XorSeq(a, b)) == a
  {
    hide Xor;
    forall k | 0 <= k < |a|
      ensures Xor(a[k], Xor(a[k], b[k])) == b[k] && Xor(b[k], Xor(a[k], b[k])) == a[k]
    {
      XorCancel(b[k], a[k]);
      XorComm(a[k], b[k]);
      XorCancel(a[k], b[k]);
    }
  }

  /**
   * Error correction: a received message that differs from a codeword in at most n/2 places is restored to it.
   */
  lemma ErrorsCorrected(gf: GenericGF, cw: seq<nat>, msg: seq<nat>, n: nat)
    requires gf.Valid() && gf.generatorBase <= 1 && n + gf.generatorBase <= 2 * gf.size
    requires IsCodeword(gf, cw, n) && |cw| == |msg| < gf.size && Elems(gf, msg)
    requires Distance(cw, msg) <= n / 2
    ensures Decode(gf, msg, n) == (Corrected, cw)
  {
    hide *;
    CodewordElems(gf, cw, n);
    var e := XorSeq(cw, msg);
    var xs := ErrorsCovered(gf, cw, msg);
    XorSeqCancel(cw, msg);
    XorsInField(gf, cw, msg);
    SyndromesOfErrors(gf, cw, e, 0, n);
    if |xs| == 0 {
      NoErrors(gf, e, xs, n);
      DecodeClean(gf, msg, n);
      XorSeqCancel(cw, e);
      ZeroErrors(cw, e);
    } else {
      CorrectListed(gf, cw, msg, e, xs, n);
    }
  }

  lemma CodewordElems(gf: GenericGF, cw: seq<nat>, n: nat)
    requires gf.Valid() && n + gf.generatorBase <= 2 * gf.size && IsCodeword(gf, cw, n)
    ensures Elems(gf, cw) && SyndromePoly(gf, cw, 0, n) == Nil
  {
    CodewordSyndromes(gf, cw, 0, n);
  }

  lemma NoErrors(gf: GenericGF, e: seq<nat>, xs: seq<nat>, n: nat)
    requires gf.Valid() && Covers(gf, e, xs) && |xs| == 0 && n + gf.generatorBase <= 2 * gf.size && Elems(gf, e)
    ensures SyndromePoly(gf, e, 0, n) == Nil && e == Zeros(|e|)
  {
    PartialAll(gf, e, xs);
    PartialNone(gf, e, xs);
    SyndromePolyZeros(gf, |e|, 0, n);
  }

  lemma DecodeClean(gf: GenericGF, msg: seq<nat>, n: nat)
    requires gf.Valid() && n + gf.generatorBase <= 2 * gf.size && Elems(gf, msg)
    requires SyndromePoly(gf, msg, 0, n) == Nil
    ensures Decode(gf, msg, n) == (Corrected, msg)
  {
  }

  lemma ZeroErrors(cw: seq<nat>, e: seq<nat>)
    requires |cw| == |e| && e == Zeros(|e|)
    ensures XorSeq(cw, e) == cw
  {
    hide Xor;
    forall k | 0 <= k < |cw|
      ensures Xor(cw[k], e[k]) == cw[k]
    {
      XorNil(cw[k]);
    }
  }

  lemma ValuesElems(gf: GenericGF, e: seq<nat>, xs: seq<nat>)
    requires gf.Valid() && Covers(gf, e, xs)
    ensures NonZeros(gf, xs) && Distinct(xs) && Elems(gf, Values(gf, e, xs)) && NonZeros(gf, Values(gf, e, xs))
  {
  }

  /** What Solve returns for the syndromes of an error vector, in terms of any list of its errors. */
  lemma SolveListed(gf: GenericGF, e: seq<nat>, xs: seq<nat>, n: nat)
    requires gf.Valid() && n + gf.generatorBase <= 2 * gf.size && Covers(gf, e, xs) && Elems(gf, e)
    requires 0 < |xs| <= n / 2
    ensures NonZeros(gf, xs)
    ensures SyndromePoly(gf, e, 0, n) != Nil
    ensures Solve(gf, SyndromePoly(gf, e, 0, n), n) ==
            Solved(Locator(gf, xs, |xs|), Evaluator(gf, xs, Values(gf, e, xs), |xs|))
  {
    hide *;
    ValuesElems(gf, e, xs);
    ErrorSyndromes(gf, e, xs, |xs|, n);
    PartialAll(gf, e, xs);
    SolveFindsErrors(gf, xs, Values(gf, e, xs), n);
  }

  lemma CorrectListed(gf: GenericGF, cw: seq<nat>, msg: seq<nat>, e: seq<nat>, xs: seq<nat>, n: nat)
    requires gf.Valid() && gf.generatorBase <= 1 && n + gf.generatorBase <= 2 * gf.size
    requires Elems(gf, cw) && Elems(gf, msg) && Elems(gf, e) && |cw| == |msg| == |e|
    requires XorSeq(msg, e) == cw && SyndromePoly(gf, cw, 0, n) == Nil
    requires SyndromePoly(gf, msg, 0, n) == SyndromePoly(gf, e, 0, n)
    requires Covers(gf, e, xs) && 0 < |xs| <= n / 2
    ensures Decode(gf, msg, n) == (Corrected, cw)
  {
    hide *;
    ValuesElems(gf, e, xs);
    SolveListed(gf, e, xs, n);
    var sigma := Locator(gf, xs, |xs|);
    LocatorLen(gf, xs, |xs|);
    LocatorLocations(gf, xs);
    var found := Locations(gf, sigma, 1, |xs|);
    CoversPermuted(gf, e, xs, found);
    ValuesElems(gf, e, found);
    SolveListed(gf, e, found, n);
    var ys := Values(gf, e, found);
    var omega := Evaluator(gf, found, ys, |found|);
    MagnitudesCorrect(gf, found, ys);
    PatchStart(gf, msg, e, found);
    DecodeSolved(gf, msg, n, sigma, omega, found, cw);
  }

  lemma MagnitudesCorrect(gf: GenericGF, xs: seq<nat>, ys: seq<nat>)
    requires gf.Valid() && NonZeros(gf, xs) && NonZeros(gf, ys) && |xs| == |ys| && Distinct(xs)
    requires gf.generatorBase <= 1
    ensures Magnitudes(gf, Evaluator(gf, xs, ys, |xs|), xs) == ys
  {
    hide Magnitude, Evaluator;
    forall i | 0 <= i < |xs|
      ensures Magnitude(gf, Evaluator(gf, xs, ys, |xs|), xs, i) == ys[i]
    {
      ForneyCorrect(gf, xs, ys, i);
    }
  }

  lemma PatchStart(gf: GenericGF, msg: seq<nat>, e: seq<nat>, xs: seq<nat>)
    requires gf.Valid() && |msg| == |e| && Elems(gf, msg) && Covers(gf, e, xs) && NonZeros(gf, xs)
    requires Elems(gf, Values(gf, e, xs))
    ensures Patch(gf, msg, xs, Values(gf, e, xs), 0) == (true, XorSeq(msg, e))
  {
    hide *;
    PatchRestores(gf, msg, e, xs, 0);
    PartialNone(gf, e, xs);
    ZeroErrors(msg, Partial(gf, e, xs, 0));
  }

  /** Decode, when the key equation was solved and the root search found as many locations as needed. */
  lemma DecodeSolved(gf: GenericGF, msg: seq<nat>, n: nat, sigma: Poly, omega: Poly, found: seq<nat>, cw: seq<nat>)
    requires gf.Valid() && n + gf.generatorBase <= 2 * gf.size && n >= 2 && Elems(gf, msg) && Elems(gf, cw)
    requires Ok(gf, sigma) && Ok(gf, omega) && NonZeros(gf, found) && Distinct(found)
    requires SyndromePoly(gf, msg, 0, n) != Nil && Solve(gf, SyndromePoly(gf, msg, 0, n), n) == Solved(sigma, omega)
    requires Len(sigma) == |found| + 1 && found == Locations(gf, sigma, 1, |found|)
    requires Patch(gf, msg, found, Magnitudes(gf, omega, found), 0) == (true, cw)
    requires SyndromePoly(gf, cw, 0, n) == Nil
    ensures Decode(gf, msg, n) == (Corrected, cw)
  {
    hide Patch, Locations, SyndromePoly, Solve, Magnitudes, Ok;
    assert Degree(sigma) == |found|;
  }

  // ----- soundness -----

  /** Patching changes at most one entry per location. */
  lemma {:induction false} PatchDistance(gf: GenericGF, start: seq<nat>, message: seq<nat>, xs: seq<nat>, ys: seq<nat>, k: nat)
    requires gf.Valid() && Elems(gf, message) && NonZeros(gf, xs) && Elems(gf, ys) && k <= |xs| == |ys|
    requires |start| == |message|
    ensures Distance(start, Patch(gf, message, xs, ys, k).1) <= Distance(start, message) + (|xs| - k)
    decreases |xs| - k
  {
    hide Xor, Distance;
    hide GenericGF.Valid, GenericGF.Log;
    if k < |xs| {
      var p := |message| - 1 - gf.Log(xs[k]);
      if p >= 0 {
        XorElem(gf, message[p], ys[k]);
        var next := message[p := Xor(message[p], ys[k])];
        DistanceUpdate(start, message, p, Xor(message[p], ys[k]));
        PatchDistance(gf, start, next, xs, ys, k + 1);
      }
    }
  }

  lemma {:induction false} DistanceUpdate(a: seq<nat>, b: seq<nat>, p: nat, v: nat)
    requires |a| == |b| && p < |b|
    ensures Distance(a, b[p := v]) <= Distance(a, b) + 1
  {
    var n := |b| - 1;
    if p == n {
      assert b[p := v][..n] == b[..n];
    } else {
      DistanceUpdate(a[..n], b[..n], p, v);
      assert b[p := v][..n] == b[..n][p := v];
    }
  }

  lemma {:induction false} DistanceSelf(a: seq<nat>)
    ensures Distance(a, a) == 0
  {
    if |a| > 0 {
      DistanceSelf(a[..|a| - 1]);
    }
  }

  lemma {:induction false} SyndromePolyLen(gf: GenericGF, m: seq<nat>, k: nat, n: nat)
    requires gf.Valid() && n + gf.generatorBase <= 2 * gf.size && Elems(gf, m) && k <= n
    ensures Len(SyndromePoly(gf, m, k, n)) <= n - k
    decreases n - k
  {
    hide Syndrome;
    if k < n {
      SyndromePolyLen(gf, m, k + 1, n);
    }
  }

  /** The locator that is found has degree at most n - n/2. */
  lemma SolveDegree(gf: GenericGF, s: Poly, n: nat)
    requires gf.Valid() && n >= 2 && Ok(gf, s) && Len(s) <= n
    ensures Solve(gf, s, n).Solved? ==> Degree(Solve(gf, s, n).sigma) <= n - n / 2
  {
    hide *;
    var rLast, r, tLast, t, uLast, u := FinalLines(gf, s, n);
    SolveForm(gf, s, n, r, t);
    if Hd(t) != 0 {
      HdElem(gf, t);
      MulInverse(gf, Hd(t));
      LenScale(gf, gf.Inverse(Hd(t)), t);
      DegreeBound(Scale(gf, gf.Inverse(Hd(t)), t), n - n / 2);
    }
  }

  lemma HdElem(gf: GenericGF, p: Poly)
    requires gf.Valid() && Ok(gf, p)
    ensures gf.Elem(Hd(p))
  {
  }

  lemma DegreeBound(p: Poly, n: nat)
    ensures Degree(p) <= n <==> Len(p) <= n + 1
  {
  }

  /**
   * Soundness: when decoding succeeds the message vanishes at all n roots and differs from what was received in
   * at most n - n/2 places.
   */
  lemma DecodeSound(gf: GenericGF, msg: seq<nat>, n: nat)
    requires gf.Valid() && Elems(gf, msg) && Decode(gf, msg, n).0 == Corrected
    ensures n > 0 ==> n + gf.generatorBase <= 2 * gf.size && IsCodeword(gf, Decode(gf, msg, n).1, n)
    ensures Distance(msg, Decode(gf, msg, n).1) <= n - n / 2
  {
    hide Xor, Patch, Locations, SyndromePoly, Solve, Magnitudes, Distance, Syndrome;
    DistanceSelf(msg);
    if n > 0 {
      var s := SyndromePoly(gf, msg, 0, n);
      CodewordSyndromes(gf, Decode(gf, msg, n).1, 0, n);
      OfSeqOk(gf, Decode(gf, msg, n).1);
      if s != Nil {
        SyndromePolyLen(gf, msg, 0, n);
        SolveDegree(gf, s, n);
        var solution := Solve(gf, s, n);
        var xs := Locations(gf, solution.sigma, 1, Degree(solution.sigma));
        LocationsDistinct(gf, solution.sigma, 1, Degree(solution.sigma));
        PatchDistance(gf, msg, msg, xs, Magnitudes(gf, solution.omega, xs), 0);
      }
    }
  }

  /** Decoding throws exactly past the exponent table, or with one check word and a non-zero syndrome. */
  lemma DecodeThrows(gf: GenericGF, msg: seq<nat>, n: nat)
    requires gf.Valid() && Elems(gf, msg)
    ensures Decode(gf, msg, n).0 == OutOfRange <==> n > 0 && n + gf.generatorBase > 2 * gf.size
    ensures Decode(gf, msg, n).0 == NotReduced <==>
            n == 1 && 1 + gf.generatorBase <= 2 * gf.size && Syndrome(gf, msg, 0) != 0
  {
    hide Xor, Patch, Locations, Solve, Magnitudes, Syndrome;
    if n == 1 && 1 + gf.generatorBase <= 2 * gf.size {
      CodewordSyndromes(gf, msg, 0, 1);
    }
  }
}
