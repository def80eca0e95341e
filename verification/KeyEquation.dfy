/** The algebra behind decoding: why the last line of Euclid's algorithm is, up to a constant, the error locator. */
module KeyEquation {
  import opened Bits
  import opened GenericGFs
  import opened Polynomials
  import opened PolynomialDivision

  /** r is a combination of s and x^n with cofactors t and u. */
  ghost predicate Combines(gf: GenericGF, n: nat, s: Poly, r: Poly, t: Poly, u: Poly)
    requires gf.Valid() && Ok(gf, s)
  {
    && Ok(gf, r) && Ok(gf, t) && Ok(gf, u) && Ok(gf, XPow(n))
    && r == Plus(gf, Times(gf, t, s), Times(gf, u, XPow(n)))
  }

  /** Crossing two combinations eliminates s and leaves a multiple of x^n. */
  lemma CrossSum(gf: GenericGF, n: nat, s: Poly, r1: Poly, t1: Poly, u1: Poly, r2: Poly, t2: Poly, u2: Poly)
    requires gf.Valid() && Ok(gf, s) && Combines(gf, n, s, r1, t1, u1) && Combines(gf, n, s, r2, t2, u2)
    ensures Plus(gf, Times(gf, t1, r2), Times(gf, t2, r1)) ==
            Times(gf, Plus(gf, Times(gf, t1, u2), Times(gf, t2, u1)), XPow(n))
  {
    hide Xor, Plus, Times, Shift, Ok, Const;
    var x := XPow(n);
    ExpandProduct(gf, t1, t2, s, u2, x);
    ExpandProduct(gf, t2, t1, s, u1, x);
    var a, b := Times(gf, Times(gf, t1, t2), s), Times(gf, Times(gf, t1, u2), x);
    var c := Times(gf, Times(gf, t2, u1), x);
    TimesComm(gf, t1, t2);
    PlusShuffle(gf, a, b, a, c);
    PlusSelf(gf, a);
    PlusNil(gf, Plus(gf, b, c));
    TimesPlusLeft(gf, Times(gf, t1, u2), Times(gf, t2, u1), x);
  }

  lemma ExpandProduct(gf: GenericGF, t1: Poly, t2: Poly, s: Poly, u: Poly, x: Poly)
    requires gf.Valid() && Ok(gf, t1) && Ok(gf, t2) && Ok(gf, s) && Ok(gf, u) && Ok(gf, x)
    ensures Times(gf, t1, Plus(gf, Times(gf, t2, s), Times(gf, u, x))) ==
            Plus(gf, Times(gf, Times(gf, t1, t2), s), Times(gf, Times(gf, t1, u), x))
  {
    hide Xor, Plus, Times, Ok;
    TimesPlusRight(gf, t1, Times(gf, t2, s), Times(gf, u, x));
    TimesAssoc(gf, t1, t2, s);
    TimesAssoc(gf, t1, u, x);
  }

  // ----- the Euclidean algorithm -----

  /** One turn of the loop: the new (r, t) from the last two lines. */
  ghost function EuclidStep(gf: GenericGF, rLast: Poly, r: Poly, tLast: Poly, t: Poly): (rt: (Poly, Poly))
    requires gf.Valid() && Ok(gf, rLast) && Ok(gf, r) && Ok(gf, tLast) && Ok(gf, t) && r != Nil
    ensures Ok(gf, rt.0) && Ok(gf, rt.1) && Len(rt.0) < Len(r)
  {
    DivModCorrect(gf, rLast, r);
    var (q, rem) := DivMod(gf, rLast, r);
    (rem, Plus(gf, Times(gf, q, t), tLast))
  }

  /** The loop run until the degree of r is below half: the final (r, t). */
  ghost function EuclidRun(gf: GenericGF, half: nat, rLast: Poly, r: Poly, tLast: Poly, t: Poly): (rt: (Poly, Poly))
    requires gf.Valid() && Ok(gf, rLast) && Ok(gf, r) && Ok(gf, tLast) && Ok(gf, t) && half >= 1
    ensures Ok(gf, rt.0) && Ok(gf, rt.1)
    decreases Len(r)
  {
    if Degree(r) < half then (r, t)
    else
      var (r', t') := EuclidStep(gf, rLast, r, tLast, t);
      EuclidRun(gf, half, r, r', t, t')
  }

  /**
   * What every turn of the loop keeps: both lines are combinations of s and x^n, their determinant is x^n,
   * the degrees of t and of the previous r add up to n, and the degrees of the r fall.
   */
  ghost predicate Lines(gf: GenericGF, n: nat, s: Poly, rLast: Poly, r: Poly, tLast: Poly, t: Poly, uLast: Poly, u: Poly)
    requires gf.Valid() && Ok(gf, s)
  {
    && Combines(gf, n, s, rLast, tLast, uLast)
    && Combines(gf, n, s, r, t, u)
    && Plus(gf, Times(gf, t, rLast), Times(gf, tLast, r)) == XPow(n)
    && Len(t) + Len(rLast) == n + 2
    && Len(tLast) < Len(t)
    && Len(r) < Len(rLast)
  }

  lemma LinesStart(gf: GenericGF, n: nat, s: Poly)
    requires gf.Valid() && Ok(gf, s) && Len(s) <= n
    ensures Ok(gf, XPow(n)) && Ok(gf, Const(1))
    ensures Lines(gf, n, s, XPow(n), s, Nil, Const(1), Const(1), Nil)
  {
    hide Xor, Shift;
    XPowTimes(gf, n, Const(1));
    TimesOne(gf, s);
    TimesOne(gf, XPow(n));
    TimesNil(gf, s);
    TimesNil(gf, XPow(n));
    PlusNil(gf, s);
    PlusNil(gf, XPow(n));
  }

  lemma LinesStep(gf: GenericGF, n: nat, s: Poly, rLast: Poly, r: Poly, tLast: Poly, t: Poly, uLast: Poly, u: Poly)
      returns (u': Poly)
    requires gf.Valid() && Ok(gf, s) && r != Nil
    requires Lines(gf, n, s, rLast, r, tLast, t, uLast, u)
    ensures var (r', t') := EuclidStep(gf, rLast, r, tLast, t); Lines(gf, n, s, r, r', t, t', u, u')
  {
    hide Xor, Plus, Times, DivMod, Shift, Ok, Const;
    DivModCorrect(gf, rLast, r);
    var (q, r') := DivMod(gf, rLast, r);
    var (_, t') := EuclidStep(gf, rLast, r, tLast, t);
    u' := Plus(gf, Times(gf, q, u), uLast);
    RemainderCombines(gf, n, s, rLast, r, tLast, t, uLast, u, q, r');
    Determinant(gf, rLast, r, tLast, t, q, r');
    LenTimes(gf, q, r);
    LenPlus(gf, Times(gf, q, r), r');
    LenTimes(gf, q, t);
    LenPlus(gf, Times(gf, q, t), tLast);
  }

  lemma RemainderCombines(gf: GenericGF, n: nat, s: Poly, rLast: Poly, r: Poly, tLast: Poly, t: Poly, uLast: Poly,
                          u: Poly, q: Poly, r': Poly)
    requires gf.Valid() && Ok(gf, s) && Ok(gf, q) && Ok(gf, r')
    requires Combines(gf, n, s, rLast, tLast, uLast) && Combines(gf, n, s, r, t, u)
    requires rLast == Plus(gf, Times(gf, q, r), r')
    ensures Combines(gf, n, s, r', Plus(gf, Times(gf, q, t), tLast), Plus(gf, Times(gf, q, u), uLast))
  {
    hide Xor, Plus, Times, Shift, Ok, Const;
    var x := XPow(n);
    PlusCancel(gf, r', Times(gf, q, r));
    ExpandProduct(gf, q, t, s, u, x);
    var a, b := Times(gf, Times(gf, q, t), s), Times(gf, Times(gf, q, u), x);
    PlusShuffle(gf, a, b, Times(gf, tLast, s), Times(gf, uLast, x));
    TimesPlusLeft(gf, Times(gf, q, t), tLast, s);
    TimesPlusLeft(gf, Times(gf, q, u), uLast, x);
  }

  lemma Determinant(gf: GenericGF, rLast: Poly, r: Poly, tLast: Poly, t: Poly, q: Poly, r': Poly)
    requires gf.Valid() && Ok(gf, r) && Ok(gf, tLast) && Ok(gf, t) && Ok(gf, q) && Ok(gf, r')
    requires rLast == Plus(gf, Times(gf, q, r), r')
    ensures Plus(gf, Times(gf, Plus(gf, Times(gf, q, t), tLast), r), Times(gf, t, r')) ==
            Plus(gf, Times(gf, t, rLast), Times(gf, tLast, r))
  {
    hide Xor, Plus, Times, Ok;
    var a, b, c := Times(gf, Times(gf, q, t), r), Times(gf, tLast, r), Times(gf, t, r');
    TimesPlusLeft(gf, Times(gf, q, t), tLast, r);
    TimesPlusRight(gf, t, Times(gf, q, r), r');
    TimesAssoc(gf, t, q, r);
    TimesComm(gf, t, q);
    PlusAssoc(gf, a, b, c);
    PlusComm(gf, b, c);
    PlusAssoc(gf, a, c, b);
  }

  /** The invariant at the end of the run, with witnesses. */
  lemma {:induction false} EuclidRunLines(gf: GenericGF, n: nat, half: nat, s: Poly, rLast: Poly, r: Poly, tLast: Poly,
                                          t: Poly, uLast: Poly, u: Poly)
      returns (rLast': Poly, tLast': Poly, uLast': Poly, u': Poly)
    requires gf.Valid() && Ok(gf, s) && half >= 1
    requires Lines(gf, n, s, rLast, r, tLast, t, uLast, u)
    requires Degree(rLast) >= half
    ensures var (r', t') := EuclidRun(gf, half, rLast, r, tLast, t);
            Lines(gf, n, s, rLast', r', tLast', t', uLast', u') && Degree(r') < half <= Degree(rLast')
    decreases Len(r)
  {
    hide Xor, Plus, Times, DivMod, Shift, Const;
    if Degree(r) < half {
      rLast', tLast', uLast', u' := rLast, tLast, uLast, u;
    } else {
      var (r1, t1) := EuclidStep(gf, rLast, r, tLast, t);
      var u1 := LinesStep(gf, n, s, rLast, r, tLast, t, uLast, u);
      rLast', tLast', uLast', u' := EuclidRunLines(gf, n, half, s, r, r1, t, t1, u, u1);
    }
  }

  // ----- uniqueness of the solution -----

  /**
   * Any other solution (sigma, omega) of the key equation with degrees small enough is a common multiple
   * of the line the algorithm stopped at.
   */
  lemma CommonMultiple(gf: GenericGF, n: nat, s: Poly, rLast: Poly, r: Poly, tLast: Poly, t: Poly, uLast: Poly, u: Poly,
                       sigma: Poly, omega: Poly, w: Poly) returns (k: Poly)
    requires gf.Valid() && Ok(gf, s)
    requires Lines(gf, n, s, rLast, r, tLast, t, uLast, u)
    requires Combines(gf, n, s, omega, sigma, w)
    requires Len(sigma) + Len(r) <= n + 1 && Len(t) + Len(omega) <= n + 1
    ensures Ok(gf, k) && sigma == Times(gf, t, k) && omega == Times(gf, r, k)
  {
    hide Xor, Plus, Times, Shift, Ok, Const;
    var x := XPow(n);
    CrossEqual(gf, n, s, r, t, u, sigma, omega, w);
    CrossSum(gf, n, s, omega, sigma, w, rLast, tLast, uLast);
    k := Plus(gf, Times(gf, sigma, uLast), Times(gf, tLast, w));
    var kx := Times(gf, k, x);
    assert kx == Plus(gf, Times(gf, sigma, rLast), Times(gf, tLast, omega));
    Substitute(gf, t, rLast, tLast, r, sigma, omega);
    TimesAssoc(gf, t, k, x);
    TimesAssoc(gf, r, k, x);
    XPowTimes(gf, n, sigma);
    assert x != Nil;
    CancelFactor(gf, Times(gf, t, k), sigma, x);
    CancelFactor(gf, Times(gf, r, k), omega, x);
  }

  /** The degree bounds turn the congruence t * omega = sigma * r modulo x^n into an equation. */
  lemma CrossEqual(gf: GenericGF, n: nat, s: Poly, r: Poly, t: Poly, u: Poly, sigma: Poly, omega: Poly, w: Poly)
    requires gf.Valid() && Ok(gf, s) && Ok(gf, r) && Ok(gf, t) && Ok(gf, u) && Ok(gf, sigma) && Ok(gf, omega) && Ok(gf, w)
    requires Ok(gf, XPow(n))
    requires Combines(gf, n, s, r, t, u) && Combines(gf, n, s, omega, sigma, w)
    requires Len(sigma) + Len(r) <= n + 1 && Len(t) + Len(omega) <= n + 1
    ensures Times(gf, t, omega) == Times(gf, sigma, r)
  {
    hide *;
    CrossSum(gf, n, s, r, t, u, omega, sigma, w);
    var v := Plus(gf, Times(gf, t, w), Times(gf, sigma, u));
    ShortProduct(gf, n, t, omega);
    ShortProduct(gf, n, sigma, r);
    ShortMultiple(gf, n, Times(gf, t, omega), Times(gf, sigma, r), v);
  }

  lemma ShortProduct(gf: GenericGF, n: nat, p: Poly, q: Poly)
    requires gf.Valid() && Ok(gf, p) && Ok(gf, q) && Len(p) + Len(q) <= n + 1
    ensures Len(Times(gf, p, q)) <= n
  {
    hide Times, Ok;
    LenTimes(gf, p, q);
  }

  /** Two polynomials of degree below n that differ by a multiple of x^n are equal. */
  lemma ShortMultiple(gf: GenericGF, n: nat, a: Poly, b: Poly, v: Poly)
    requires gf.Valid() && Ok(gf, a) && Ok(gf, b) && Ok(gf, v) && Ok(gf, XPow(n)) && Len(a) <= n && Len(b) <= n
    requires Plus(gf, a, b) == Times(gf, v, XPow(n))
    ensures a == b
  {
    hide Xor, Plus, Times, Ok;
    LenPlus(gf, a, b);
    XPowTimes(gf, n, v);
    ShiftOk(gf, n, v);
    LenNil(Times(gf, v, XPow(n)));
    PlusZero(gf, a, b);
  }

  lemma LenNil(p: Poly)
    ensures Len(p) == 0 <==> p == Nil
  {
  }

  lemma Substitute(gf: GenericGF, t: Poly, rLast: Poly, tLast: Poly, r: Poly, sigma: Poly, omega: Poly)
    requires gf.Valid() && Ok(gf, t) && Ok(gf, rLast) && Ok(gf, tLast) && Ok(gf, r) && Ok(gf, sigma) && Ok(gf, omega)
    requires Times(gf, t, omega) == Times(gf, sigma, r)
    ensures var x := Plus(gf, Times(gf, t, rLast), Times(gf, tLast, r));
            var kx := Plus(gf, Times(gf, sigma, rLast), Times(gf, tLast, omega));
            Times(gf, t, kx) == Times(gf, sigma, x) && Times(gf, r, kx) == Times(gf, omega, x)
  {
    hide Xor, Plus, Times, Ok;
    // t * sigma * rLast + t * tLast * omega = sigma * t * rLast + sigma * tLast * r
    TimesPlusRight(gf, t, Times(gf, sigma, rLast), Times(gf, tLast, omega));
    TimesPlusRight(gf, sigma, Times(gf, t, rLast), Times(gf, tLast, r));
    Swap(gf, t, sigma, rLast);
    Swap(gf, t, tLast, omega);
    Swap(gf, sigma, tLast, r);
    // r * sigma * rLast + r * tLast * omega = omega * t * rLast + omega * tLast * r
    TimesPlusRight(gf, r, Times(gf, sigma, rLast), Times(gf, tLast, omega));
    TimesPlusRight(gf, omega, Times(gf, t, rLast), Times(gf, tLast, r));
    TimesAssoc(gf, r, sigma, rLast);
    TimesComm(gf, r, sigma);
    TimesAssoc(gf, omega, t, rLast);
    TimesComm(gf, omega, t);
    Swap(gf, r, tLast, omega);
    Swap(gf, omega, tLast, r);
    TimesComm(gf, r, omega);
  }

  lemma Swap(gf: GenericGF, a: Poly, b: Poly, c: Poly)
    requires gf.Valid() && Ok(gf, a) && Ok(gf, b) && Ok(gf, c)
    ensures Times(gf, a, Times(gf, b, c)) == Times(gf, b, Times(gf, a, c))
  {
    hide Xor, Plus, Times, Ok;
    TimesAssoc(gf, a, b, c);
    TimesComm(gf, a, b);
    TimesAssoc(gf, b, a, c);
  }

  /** When sigma splits into distinct linear factors at none of which omega vanishes, the multiple is constant. */
  lemma ConstantMultiple(gf: GenericGF, r: Poly, t: Poly, k: Poly, sigma: Poly, omega: Poly, roots: seq<nat>)
    requires gf.Valid() && Ok(gf, r) && Ok(gf, t) && Ok(gf, k)
    requires sigma == Times(gf, t, k) && omega == Times(gf, r, k) && sigma != Nil
    requires Distinct(roots) && AllRoots(gf, sigma, roots) && Len(sigma) == |roots| + 1
    requires forall i :: 0 <= i < |roots| ==> gf.Elem(roots[i]) && Eval(gf, omega, roots[i]) != 0
    ensures k == Const(Hd(k)) && Hd(k) != 0 && gf.Elem(Hd(k))
  {
    hide Xor, Plus, Times, Eval;
    LenTimes(gf, t, k);
    forall i | 0 <= i < |roots|
      ensures gf.Elem(roots[i]) && Eval(gf, t, roots[i]) == 0
    {
      var v := roots[i];
      EvalTimes(gf, t, k, v);
      EvalTimes(gf, r, k, v);
      MulNonZero(gf, Eval(gf, t, v), Eval(gf, k, v));
      MulNonZero(gf, Eval(gf, r, v), Eval(gf, k, v));
    }
    RootCount(gf, t, roots);
  }
}
