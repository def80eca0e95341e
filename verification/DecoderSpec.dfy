/** What ReedSolomonDecode computes, as a function of the received message (core/src/ReedSolomonDecoder.cpp:71-148). */
module DecoderSpec {
  import opened Bits
  import opened GenericGFs
  import opened Polynomials
  import opened PolynomialDivision
  import opened Coefficients
  import opened KeyEquation
  import opened ReedSolomonEncoders
  import opened ErrorLocator

  /** Returned true, returned false, threw runtime_error, threw out_of_range. */
  datatype Outcome = Corrected | Uncorrectable | NotReduced | OutOfRange

  /** The syndromes k..n-1 as a polynomial, syndrome k being the constant term. */
  ghost function SyndromePoly(gf: GenericGF, message: seq<nat>, k: nat, n: nat): (p: Poly)
    requires gf.Valid() && n + gf.generatorBase <= 2 * gf.size && Elems(gf, message) && k <= n
    ensures Ok(gf, p)
    decreases n - k
  {
    if k == n then Nil
    else
      OkCn(gf, Syndrome(gf, message, k), SyndromePoly(gf, message, k + 1, n));
      Cn(Syndrome(gf, message, k), SyndromePoly(gf, message, k + 1, n))
  }

  /** Inverses of the roots of sigma among i, i + 1, ..., at most room many. */
  ghost function Locations(gf: GenericGF, sigma: Poly, i: nat, room: nat): (s: seq<nat>)
    requires gf.Valid() && Ok(gf, sigma) && i >= 1
    ensures NonZeros(gf, s) && |s| <= room
    decreases gf.size - i
  {
    if i >= gf.size || room == 0 then []
    else if Eval(gf, sigma, i) == 0 then
      MulInverse(gf, i);
      [gf.Inverse(i)] + Locations(gf, sigma, i + 1, room - 1)
    else Locations(gf, sigma, i + 1, room)
  }

  /** Forney's formula for location i. */
  ghost function Magnitude(gf: GenericGF, omega: Poly, xs: seq<nat>, i: nat): (r: nat)
    requires gf.Valid() && Ok(gf, omega) && NonZeros(gf, xs) && Distinct(xs) && i < |xs|
    ensures gf.Elem(r)
  {
    ProductNonZero(gf, xs, i, |xs|);
    var xiInverse := gf.Inverse(xs[i]);
    var res := gf.Multiply(Eval(gf, omega, xiInverse), gf.Inverse(ProductExcept(gf, xs, i, xiInverse, |xs|)));
    if gf.generatorBase != 0 then gf.Multiply(res, xiInverse) else res
  }

  ghost function Magnitudes(gf: GenericGF, omega: Poly, xs: seq<nat>): (s: seq<nat>)
    requires gf.Valid() && Ok(gf, omega) && NonZeros(gf, xs) && Distinct(xs)
    ensures |s| == |xs| && Elems(gf, s)
  {
    seq(|xs|, i requires 0 <= i < |xs| => Magnitude(gf, omega, xs, i))
  }

  /** Applies the corrections from the k-th on; stops where a position falls outside the message. */
  ghost function Patch(gf: GenericGF, message: seq<nat>, xs: seq<nat>, ys: seq<nat>, k: nat): (r: (bool, seq<nat>))
    requires gf.Valid() && Elems(gf, message) && NonZeros(gf, xs) && Elems(gf, ys) && k <= |xs| == |ys|
    ensures |r.1| == |message| && Elems(gf, r.1)
    decreases |xs| - k
  {
    if k == |xs| then (true, message)
    else
      var position := |message| - 1 - gf.Log(xs[k]);
      if position < 0 then (false, message)
      else
        XorElem(gf, message[position], ys[k]);
        Patch(gf, message[position := Xor(message[position], ys[k])], xs, ys, k + 1)
  }

  /** Error locator and evaluator found from the syndromes, or nothing when the locator vanishes at zero. */
  datatype Solution = None | Solved(sigma: Poly, omega: Poly)

  ghost function Solve(gf: GenericGF, s: Poly, n: nat): (r: Solution)
    requires gf.Valid() && Ok(gf, s) && n >= 2
    ensures r.Solved? ==> Ok(gf, r.sigma) && Ok(gf, r.omega)
  {
    XPowTimes(gf, n, Nil);
    EvalConst(gf, 1, 0);
    var (r, t) := EuclidRun(gf, n / 2, XPow(n), s, Nil, Const(1));
    if Hd(t) == 0 then None
    else
      var i := gf.Inverse(Hd(t));
      Solved(Scale(gf, i, t), Scale(gf, i, r))
  }

  ghost function Decode(gf: GenericGF, message: seq<nat>, n: nat): (r: (Outcome, seq<nat>))
    requires gf.Valid() && Elems(gf, message)
    ensures |r.1| == |message| && Elems(gf, r.1)
  {
    if n > 0 && n + gf.generatorBase > 2 * gf.size then (OutOfRange, message)
    else if n == 0 || SyndromePoly(gf, message, 0, n) == Nil then (Corrected, message)
    else if n == 1 then (NotReduced, message)
    else
      match Solve(gf, SyndromePoly(gf, message, 0, n), n)
      case None => (Uncorrectable, message)
      case Solved(sigma, omega) =>
        var xs := Locations(gf, sigma, 1, Degree(sigma));
        if |xs| != Degree(sigma) then (Uncorrectable, message)
        else
          LocationsDistinct(gf, sigma, 1, Degree(sigma));
          var (ok, patched) := Patch(gf, message, xs, Magnitudes(gf, omega, xs), 0);
          if ok && SyndromePoly(gf, patched, 0, n) == Nil then (Corrected, patched) else (Uncorrectable, patched)
  }

  // ----- the root search -----

  ghost predicate LocatesRoot(gf: GenericGF, sigma: Poly, i: nat, x0: nat)
    requires gf.Valid() && Ok(gf, sigma)
  {
    gf.Elem(x0) && x0 != 0 && i <= gf.Inverse(x0) && Eval(gf, sigma, gf.Inverse(x0)) == 0
  }

  /** Every located element is the inverse of a root from i on. */
  lemma {:induction false} LocationsAreRoots(gf: GenericGF, sigma: Poly, i: nat, room: nat)
    requires gf.Valid() && Ok(gf, sigma) && i >= 1
    ensures forall x0 :: x0 in Locations(gf, sigma, i, room) ==> LocatesRoot(gf, sigma, i, x0)
    decreases gf.size - i
  {
    hide Xor, Eval;
    hide GenericGF.Valid, GenericGF.Inverse, GenericGF.Log;
    if i < gf.size && room > 0 {
      if Eval(gf, sigma, i) == 0 {
        LocationsAreRoots(gf, sigma, i + 1, room - 1);
        InverseInverse(gf, i);
      } else {
        LocationsAreRoots(gf, sigma, i + 1, room);
      }
    }
  }

  /** Every root from i on is located unless room ran out. */
  lemma {:induction false} RootsAreLocated(gf: GenericGF, sigma: Poly, i: nat, room: nat, v: nat)
    requires gf.Valid() && Ok(gf, sigma) && i >= 1
    requires i <= v < gf.size && Eval(gf, sigma, v) == 0 && |Locations(gf, sigma, i, room)| < room
    ensures gf.Inverse(v) in Locations(gf, sigma, i, room)
    decreases gf.size - i
  {
    hide Xor, Eval;
    hide GenericGF.Valid, GenericGF.Inverse, GenericGF.Log;
    if Eval(gf, sigma, i) == 0 {
      if i < v {
        RootsAreLocated(gf, sigma, i + 1, room - 1, v);
      }
    } else {
      RootsAreLocated(gf, sigma, i + 1, room, v);
    }
  }

  lemma {:induction false} LocationsDistinct(gf: GenericGF, sigma: Poly, i: nat, room: nat)
    requires gf.Valid() && Ok(gf, sigma) && i >= 1
    ensures Distinct(Locations(gf, sigma, i, room))
    decreases gf.size - i
  {
    hide Xor, Eval;
    hide GenericGF.Valid, GenericGF.Inverse, GenericGF.Log;
    if i < gf.size && room > 0 {
      if Eval(gf, sigma, i) == 0 {
        LocationsDistinct(gf, sigma, i + 1, room - 1);
        var rest := Locations(gf, sigma, i + 1, room - 1);
        LocationsAreRoots(gf, sigma, i + 1, room - 1);
        InverseInverse(gf, i);
        assert gf.Inverse(i) !in rest;
      } else {
        LocationsDistinct(gf, sigma, i + 1, room);
      }
    }
  }

  ghost function Elements(s: seq<nat>): set<nat> {
    set x | x in s
  }

  lemma {:induction false} DistinctCount(s: seq<nat>)
    requires Distinct(s)
    ensures |Elements(s)| == |s|
  {
    if |s| > 0 {
      var t, x := s[..|s| - 1], s[|s| - 1];
      DistinctCount(t);
      assert Elements(s) == Elements(t) + {x};
      assert x !in t;
    }
  }

  lemma SubsetEqual(a: set<nat>, b: set<nat>)
    requires a <= b && |a| == |b|
    ensures a == b
  {
    if a != b {
      var x :| x in b && x !in a;
      SubsetCount(a, b - {x});
    }
  }

  lemma SubsetCount(a: set<nat>, b: set<nat>)
    requires a <= b
    ensures |a| <= |b|
  {
    assert b == a + (b - a);
  }

  /** The search on a locator polynomial finds its locations, in some order. */
  lemma LocatorLocations(gf: GenericGF, xs: seq<nat>)
    requires gf.Valid() && NonZeros(gf, xs) && Distinct(xs)
    ensures var s := Locations(gf, Locator(gf, xs, |xs|), 1, |xs|);
      Distinct(s) && |s| == |xs| && Elements(s) == Elements(xs)
  {
    hide Xor, Eval, Locator;
    var sigma := Locator(gf, xs, |xs|);
    var s := Locations(gf, sigma, 1, |xs|);
    LocationsDistinct(gf, sigma, 1, |xs|);
    LocationsAreRoots(gf, sigma, 1, |xs|);
    forall k | 0 <= k < |s|
      ensures s[k] in xs
    {
      assert LocatesRoot(gf, sigma, 1, s[k]);
      var v := gf.Inverse(s[k]);
      LocatorRoots(gf, xs, v, |xs|);
      var i :| 0 <= i < |xs| && v == gf.Inverse(xs[i]);
      InverseInjective(gf, s[k], xs[i]);
    }
    assert Elements(s) <= Elements(xs);
    DistinctCount(s);
    DistinctCount(xs);
    if |s| < |xs| {
      forall i | 0 <= i < |xs|
        ensures xs[i] in s
      {
        LocatorRoots(gf, xs, gf.Inverse(xs[i]), |xs|);
        InverseInverse(gf, xs[i]);
        RootsAreLocated(gf, sigma, 1, |xs|, gf.Inverse(xs[i]));
      }
      assert Elements(xs) <= Elements(s);
      SubsetCount(Elements(xs), Elements(s));
    }
    SubsetEqual(Elements(s), Elements(xs));
  }
}
