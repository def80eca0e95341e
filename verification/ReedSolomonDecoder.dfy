/** Reed-Solomon decoding in place (core/src/ReedSolomonDecoder.cpp). */
module ReedSolomonDecoders {
  import opened Bits
  import opened GenericGFs
  import opened Polynomials
  import opened PolynomialDivision
  import opened Coefficients
  import opened GenericGFPolys
  import opened KeyEquation
  import opened ReedSolomonEncoders
  import opened ErrorLocator
  import opened DecoderSpec
  import opened ErrorCorrection
  import opened DecoderTheorems

  datatype EuclidOutcome = Found | NotFound | Thrown

  /**
   * The extended Euclidean algorithm on x^R and the syndromes. The scratch polynomials may hold anything:
   * what is left in sigma and omega depends on the syndromes alone.
   */
  method RunEuclideanAlgorithm(field: GenericGF, rCoefs: seq<nat>, sigma: GenericGFPoly, omega: GenericGFPoly,
                               q: GenericGFPoly, rLast: GenericGFPoly) returns (outcome: EuclidOutcome)
    requires field.Valid() && Elems(field, rCoefs) && |rCoefs| > 0
    requires Ok(field, OfSeq(rCoefs)) && OfSeq(rCoefs) != Nil
    requires sigma != omega && sigma != q && sigma != rLast && omega != q && omega != rLast && q != rLast
    modifies sigma, omega, q, rLast
    ensures outcome == Thrown <==> |rCoefs| == 1
    ensures |rCoefs| >= 2 ==>
      match Solve(field, OfSeq(rCoefs), |rCoefs|)
      case None => outcome == NotFound
      case Solved(s, o) =>
        outcome == Found && sigma.field == omega.field == field && sigma.Valid() && omega.Valid()
        && sigma.P() == s && omega.P() == o
  {
    hide Xor, Plus, Times, DivMod, EuclidRun, Scale, OfSeq, Ok, Shift, Lead, MaxCoef, Elems;
    hide GenericGF.Valid;
    var R := |rCoefs|;
    ghost var s := OfSeq(rCoefs);
    SetupFacts(field, rCoefs);
    var r := new GenericGFPoly(field, rCoefs);
    omega.SetField(field); // tLast
    sigma.SetField(field); // t
    rLast.SetField(field);
    q.SetField(field);
    rLast.SetMonomial(1, R);
    omega.SetMonomial(0, 0);
    sigma.SetMonomial(1, 0);
    assert r.Deg() < rLast.Deg(); // so the initial exchange of r and rLast never happens

    while r.Deg() >= R / 2
      invariant fresh(r)
      invariant r.Valid() && rLast.Valid() && sigma.Valid() && omega.Valid()
      invariant r.field == rLast.field == sigma.field == omega.field == q.field == field
      invariant r.Deg() < rLast.Deg() && (R >= 2 || !r.IsZero())
      invariant R >= 2 ==>
        EuclidRun(field, R / 2, rLast.P(), r.P(), omega.P(), sigma.P()) ==
        EuclidRun(field, R / 2, XPow(R), s, Nil, Const(1))
      decreases r.Deg()
    {
      if R >= 2 {
        EuclidUnfold(field, R / 2, rLast.P(), r.P(), omega.P(), sigma.P());
      }
      Turn(r, rLast, sigma, omega, q);
      if r.Deg() >= rLast.Deg() {
        return Thrown;
      }
    }
    EuclidUnfold(field, R / 2, rLast.P(), r.P(), omega.P(), sigma.P());
    outcome := Finish(field, s, R, r, sigma, omega);
  }

  lemma EuclidUnfold(gf: GenericGF, half: nat, rLast: Poly, r: Poly, tLast: Poly, t: Poly)
    requires gf.Valid() && Ok(gf, rLast) && Ok(gf, r) && Ok(gf, tLast) && Ok(gf, t) && half >= 1
    ensures Degree(r) < half ==> EuclidRun(gf, half, rLast, r, tLast, t) == (r, t)
    ensures Degree(r) >= half ==>
      var (r', t') := EuclidStep(gf, rLast, r, tLast, t);
      EuclidRun(gf, half, rLast, r, tLast, t) == EuclidRun(gf, half, r, r', t, t')
  {
  }

  /** One turn of the loop. Dividing by zero cannot happen: the algorithm has not terminated yet. */
  method Turn(r: GenericGFPoly, rLast: GenericGFPoly, t: GenericGFPoly, tLast: GenericGFPoly, q: GenericGFPoly)
    requires r != rLast && r != t && r != tLast && r != q && rLast != t && rLast != tLast && rLast != q
    requires t != tLast && t != q && tLast != q
    requires r.Valid() && rLast.Valid() && t.Valid() && tLast.Valid()
    requires r.field == rLast.field == t.field == tLast.field == q.field && !r.IsZero()
    modifies r, rLast, t, tLast, q
    ensures r.Valid() && rLast.Valid() && t.Valid() && tLast.Valid()
    ensures r.field == rLast.field == t.field == tLast.field == q.field == old(r.field)
    ensures rLast.P() == old(r.P()) && tLast.P() == old(t.P()) && rLast.Deg() == old(r.Deg())
    ensures (r.P(), t.P()) == EuclidStep(r.field, old(rLast.P()), old(r.P()), old(tLast.P()), old(t.P()))
    ensures r.IsZero() || r.Deg() < rLast.Deg()
  {
    hide Xor, Plus, Times, DivMod, OfSeq, Ok, Elems;
    hide GenericGF.Valid;
    GenericGFPoly.Swap(tLast, t);
    GenericGFPoly.Swap(rLast, r);
    // Divide rLastLast by rLast, with quotient in q and remainder in r
    assert !rLast.IsZero();
    var _ := r.Divide(rLast, q);
    q.Multiply(tLast);
    q.AddOrSubtract(t);
    GenericGFPoly.Swap(t, q);
  }

  lemma SetupFacts(gf: GenericGF, s: seq<nat>)
    requires gf.Valid() && Elems(gf, s) && |s| > 0 && Ok(gf, OfSeq(s))
    ensures gf.Elem(1) && gf.Elem(0) && Degree(OfSeq(s)) < |s| && Degree(XPow(|s|)) == |s|
    ensures Shift(|s|, Const(1)) == XPow(|s|) && Shift(0, Const(0)) == Nil && Shift(0, Const(1)) == Const(1)
  {
    OfSeqOk(gf, s);
    XPowTimes(gf, |s|, OfSeq(s));
  }

  /** Scales the last line so that the locator has constant term one. */
  method Finish(field: GenericGF, ghost s: Poly, ghost n: nat, r: GenericGFPoly, t: GenericGFPoly, omega: GenericGFPoly)
      returns (outcome: EuclidOutcome)
    requires field.Valid() && n >= 2 && Ok(field, s) && Ok(field, XPow(n)) && Ok(field, Const(1)) && Ok(field, Nil)
    requires r != t && t != omega && r != omega
    requires r.Valid() && t.Valid() && r.field == t.field == omega.field == field
    requires (r.P(), t.P()) == EuclidRun(field, n / 2, XPow(n), s, Nil, Const(1))
    modifies r, t, omega
    ensures match Solve(field, s, n)
      case None => outcome == NotFound
      case Solved(sigma, o) =>
        outcome == Found && t.field == omega.field == field && t.Valid() && omega.Valid()
        && t.P() == sigma && omega.P() == o
  {
    hide Xor, Plus, Times, EuclidRun, Scale, OfSeq, XPow;
    SolveForm(field, s, n, r.P(), t.P());
    var sigmaTildeAtZero := t.Constant();
    if sigmaTildeAtZero == 0 {
      return NotFound;
    }
    var inverse := field.Inverse(sigmaTildeAtZero);
    t.MultiplyByMonomial(inverse, 0);
    r.MultiplyByMonomial(inverse, 0);
    omega.coefficients := r.coefficients;
    return Found;
  }

  /** Brute force search for the inverses of the roots. */
  method FindErrorLocations(field: GenericGF, errorLocator: GenericGFPoly) returns (res: seq<nat>)
    requires field.Valid() && errorLocator.Valid() && errorLocator.field == field
    ensures res == Locations(field, errorLocator.P(), 1, errorLocator.Deg())
  {
    hide Xor, Eval;
    var numErrors := errorLocator.Deg();
    res := [];
    var i := 1;
    while i < field.size && |res| < numErrors
      invariant 1 <= i <= field.size && |res| <= numErrors
      invariant Locations(field, errorLocator.P(), 1, numErrors) ==
                res + Locations(field, errorLocator.P(), i, numErrors - |res|)
    {
      var v := errorLocator.EvaluateAt(i);
      if v == 0 {
        res := res + [field.Inverse(i)];
      }
      i := i + 1;
    }
  }

  /** Forney's formula. Its denominators are invertible because the locations are distinct. */
  method FindErrorMagnitudes(field: GenericGF, errorEvaluator: GenericGFPoly, errorLocations: seq<nat>) returns (res: seq<nat>)
    requires field.Valid() && errorEvaluator.Valid() && errorEvaluator.field == field
    requires NonZeros(field, errorLocations) && Distinct(errorLocations)
    ensures res == Magnitudes(field, errorEvaluator.P(), errorLocations)
  {
    hide Xor, Eval, FactorAt;
    var s := |errorLocations|;
    res := [];
    for i := 0 to s
      invariant |res| == i
      invariant forall k :: 0 <= k < i ==> res[k] == Magnitude(field, errorEvaluator.P(), errorLocations, k)
    {
      var xiInverse := field.Inverse(errorLocations[i]);
      var denom := 1;
      MulOne(field, 1);
      for j := 0 to s
        invariant field.Elem(denom) && denom == ProductExcept(field, errorLocations, i, xiInverse, j)
      {
        if i != j {
          DenominatorFactor(field, errorLocations[j], xiInverse);
          denom := field.Multiply(denom, Xor(1, field.Multiply(errorLocations[j], xiInverse)));
        }
      }
      ProductNonZero(field, errorLocations, i, s);
      var v := errorEvaluator.EvaluateAt(xiInverse);
      var y := field.Multiply(v, field.Inverse(denom));
      if field.generatorBase != 0 {
        y := field.Multiply(y, xiInverse);
      }
      res := res + [y];
    }
  }

  lemma DenominatorFactor(gf: GenericGF, x0: nat, v: nat)
    requires gf.Valid() && gf.Elem(x0) && gf.Elem(v)
    ensures FactorAt(gf, x0, v) == Xor(1, gf.Multiply(x0, v)) && gf.Elem(Xor(1, gf.Multiply(x0, v)))
  {
    XorElem(gf, 1, gf.Multiply(x0, v));
  }

  /** The syndrome vector, last syndrome first. */
  method Syndromes(field: GenericGF, message: seq<nat>, n: nat) returns (syndromes: seq<nat>)
    requires field.Valid() && Elems(field, message) && |message| > 0 && n + field.generatorBase <= 2 * field.size
    ensures |syndromes| == n && Elems(field, syndromes)
    ensures Ok(field, OfSeq(syndromes)) && OfSeq(syndromes) == SyndromePoly(field, message, 0, n)
    ensures SyndromePoly(field, message, 0, n) == Nil <==> forall i :: 0 <= i < n ==> syndromes[i] == 0
  {
    hide Xor, Eval, OfSeq, Elems, Normal, Ok;
    var poly := new GenericGFPoly(field, message);
    syndromes := Zeros(n);
    for i := 0 to n
      invariant |syndromes| == n
      invariant poly.Valid() && poly.field == field && poly.P() == OfSeq(message)
      invariant forall k :: 0 <= k < i ==> syndromes[n - 1 - k] == Syndrome(field, message, k)
    {
      var c := poly.EvaluateAt(field.Exp(i + field.generatorBase));
      syndromes := syndromes[n - 1 - i := c];
    }
    SyndromeVector(field, message, syndromes, 0, n);
    SyndromesZero(field, message, syndromes, n);
    assert syndromes[..n - 0] == syndromes;
  }

  lemma SyndromesZero(gf: GenericGF, message: seq<nat>, v: seq<nat>, n: nat)
    requires gf.Valid() && Elems(gf, message) && n + gf.generatorBase <= 2 * gf.size && n == |v|
    requires forall i :: 0 <= i < n ==> v[n - 1 - i] == Syndrome(gf, message, i)
    ensures SyndromePoly(gf, message, 0, n) == Nil <==> forall i :: 0 <= i < n ==> v[i] == 0
  {
    hide Syndrome, SyndromePoly;
    CodewordSyndromes(gf, message, 0, n);
    forall i: nat | i < n
      ensures v[i] == Syndrome(gf, message, n - 1 - i)
    {
      assert v[n - 1 - (n - 1 - i)] == Syndrome(gf, message, n - 1 - i);
    }
  }

  /** Whether the message vanishes at the first n roots. */
  method IsValidCodeword(field: GenericGF, message: seq<nat>, n: nat) returns (valid: bool)
    requires field.Valid() && Elems(field, message) && |message| > 0 && n + field.generatorBase <= 2 * field.size
    ensures valid <==> SyndromePoly(field, message, 0, n) == Nil
  {
    hide Xor, Eval, OfSeq, Elems, Normal, Ok, SyndromePoly;
    hide GenericGF.Valid, GenericGF.Exp;
    var poly := new GenericGFPoly(field, message);
    CodewordSyndromes(field, message, 0, n);
    for i := 0 to n
      invariant poly.Valid() && poly.field == field && poly.P() == OfSeq(message)
      invariant forall k: nat :: k < i ==> Syndrome(field, message, k) == 0
    {
      var c := poly.EvaluateAt(field.Exp(i + field.generatorBase));
      assert Syndrome(field, message, i) == c;
      if c != 0 {
        return false;
      }
    }
    return true;
  }

  /** The syndrome vector, last entry first, is the syndrome polynomial. */
  lemma {:induction false} SyndromeVector(gf: GenericGF, message: seq<nat>, v: seq<nat>, k: nat, n: nat)
    requires gf.Valid() && Elems(gf, message) && n + gf.generatorBase <= 2 * gf.size && k <= n == |v|
    requires forall i :: 0 <= i < n ==> v[n - 1 - i] == Syndrome(gf, message, i)
    ensures Elems(gf, v) && Ok(gf, OfSeq(v[..n - k])) && OfSeq(v[..n - k]) == SyndromePoly(gf, message, k, n)
    decreases n - k
  {
    hide Xor, Syndrome;
    forall j | 0 <= j < n
      ensures gf.Elem(v[j])
    {
      assert v[n - 1 - (n - 1 - j)] == Syndrome(gf, message, n - 1 - j);
    }
    if k < n {
      SyndromeVector(gf, message, v, k + 1, n);
      assert v[..n - k][..n - k - 1] == v[..n - k - 1];
    }
  }

  /**
   * Corrects the message in place. Besides matching the specification function, so that nothing left over
   * from earlier calls matters: any codeword within half the number of check words is restored.
   */
  method ReedSolomonDecode(field: GenericGF, message: array<nat>, numECCodeWords: nat,
                           sigma: GenericGFPoly, omega: GenericGFPoly, q: GenericGFPoly, rLast: GenericGFPoly)
      returns (outcome: Outcome)
    requires field.Valid() && message.Length > 0 && Elems(field, message[..])
    requires sigma != omega && sigma != q && sigma != rLast && omega != q && omega != rLast && q != rLast
    modifies message, sigma, omega, q, rLast
    ensures (outcome, message[..]) == Decode(field, old(message[..]), numECCodeWords)
    ensures forall cw: seq<nat> |
      && field.generatorBase <= 1 && numECCodeWords + field.generatorBase <= 2 * field.size
      && IsCodeword(field, cw, numECCodeWords) && |cw| == message.Length < field.size
      && Distance(cw, old(message[..])) <= numECCodeWords / 2
      :: outcome == Corrected && message[..] == cw
  {
    hide *;
    outcome := DecodeInPlace(field, message, numECCodeWords, sigma, omega, q, rLast);
    forall cw: seq<nat> |
      && field.generatorBase <= 1 && numECCodeWords + field.generatorBase <= 2 * field.size
      && IsCodeword(field, cw, numECCodeWords) && |cw| == message.Length < field.size
      && Distance(cw, old(message[..])) <= numECCodeWords / 2
      ensures outcome == Corrected && message[..] == cw
    {
      ErrorsCorrected(field, cw, old(message[..]), numECCodeWords);
    }
  }

  method DecodeInPlace(field: GenericGF, message: array<nat>, n: nat,
                       sigma: GenericGFPoly, omega: GenericGFPoly, q: GenericGFPoly, rLast: GenericGFPoly)
      returns (outcome: Outcome)
    requires field.Valid() && message.Length > 0 && Elems(field, message[..])
    requires sigma != omega && sigma != q && sigma != rLast && omega != q && omega != rLast && q != rLast
    modifies message, sigma, omega, q, rLast
    ensures (outcome, message[..]) == Decode(field, old(message[..]), n)
  {
    hide Xor, Locations, SyndromePoly, Solve, Magnitudes, OfSeq, Patch, Shift, Elems, Ok, NonZeros, Distinct;
    hide GenericGF.Valid;
    if n > 0 && n + field.generatorBase > 2 * field.size {
      return OutOfRange; // thrown by the table lookup
    }
    if n == 0 {
      return Corrected; // no syndromes at all
    }
    var syndromes := Syndromes(field, message[..], n);
    // if all syndromes are 0 there is no error to correct
    if forall i :: 0 <= i < n ==> syndromes[i] == 0 {
      return Corrected;
    }
    var found := RunEuclideanAlgorithm(field, syndromes, sigma, omega, q, rLast);
    if found == Thrown {
      return NotReduced;
    }
    if found == NotFound {
      return Uncorrectable;
    }
    var errorLocations := FindErrorLocations(field, sigma);
    if |errorLocations| != sigma.Deg() {
      return Uncorrectable;
    }
    LocationsDistinct(field, sigma.P(), 1, sigma.Deg());
    var errorMagnitudes := FindErrorMagnitudes(field, omega, errorLocations);
    var ok := PatchInPlace(field, message, errorLocations, errorMagnitudes);
    if !ok {
      return Uncorrectable;
    }
    // re-evaluate the syndromes of the recovered message
    var valid := IsValidCodeword(field, message[..], n);
    return if valid then Corrected else Uncorrectable;
  }

  /** Applies the corrections until one falls outside the message. */
  method PatchInPlace(field: GenericGF, message: array<nat>, xs: seq<nat>, ys: seq<nat>) returns (ok: bool)
    requires field.Valid() && Elems(field, message[..]) && NonZeros(field, xs) && Elems(field, ys) && |xs| == |ys|
    modifies message
    ensures (ok, message[..]) == Patch(field, old(message[..]), xs, ys, 0)
  {
    hide Xor;
    hide GenericGF.Valid, GenericGF.Log;
    ghost var before := message[..];
    for i := 0 to |xs|
      invariant Elems(field, message[..])
      invariant Patch(field, message[..], xs, ys, i) == Patch(field, before, xs, ys, 0)
    {
      var position := message.Length - 1 - field.Log(xs[i]);
      if position < 0 {
        return false;
      }
      XorElem(field, message[position], ys[i]);
      ghost var m := message[..];
      message[position] := Xor(message[position], ys[i]);
      assert message[..] == m[position := Xor(m[position], ys[i])];
    }
    return true;
  }
}
