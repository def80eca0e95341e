/** The error-correction theorem and the soundness of the decoder. */
module ErrorCorrection {
  import opened Bits
  import opened GenericGFs
  import opened Polynomials
  import opened PolynomialDivision
  import opened Coefficients
  import opened KeyEquation
  import opened ReedSolomonEncoders
  import opened ErrorLocator
  import opened DecoderSpec

  /** Number of positions in which two messages differ. */
  ghost function Distance(a: seq<nat>, b: seq<nat>): nat
    requires |a| == |b|
  {
    if |a| == 0 then 0
    else Distance(a[..|a| - 1], b[..|a| - 1]) + if a[|a| - 1] == b[|a| - 1] then 0 else 1
  }

  /** Where in a message of the given length the location x0 = alpha^k points. */
  ghost function Position(gf: GenericGF, length: nat, x0: nat): int
    requires gf.Valid() && gf.Elem(x0) && x0 != 0
  {
    length - 1 - gf.Log(x0)
  }

  /** xs lists, without repetition, exactly the locations of the non-zero entries of the error vector. */
  ghost predicate Covers(gf: GenericGF, e: seq<nat>, xs: seq<nat>)
    requires gf.Valid()
  {
    && Elems(gf, e) && |e| < gf.size && NonZeros(gf, xs) && Distinct(xs)
    && (forall i :: 0 <= i < |xs| ==> Position(gf, |e|, xs[i]) >= 0 && e[Position(gf, |e|, xs[i])] != 0)
    && (forall k :: 0 <= k < |e| && e[k] != 0 ==> gf.Exp(|e| - 1 - k) in xs)
  }

  /** The error values at the listed locations. */
  ghost function Values(gf: GenericGF, e: seq<nat>, xs: seq<nat>): (ys: seq<nat>)
    requires gf.Valid() && Covers(gf, e, xs)
    ensures |ys| == |xs| && NonZeros(gf, ys)
    ensures forall i :: 0 <= i < |xs| ==> ys[i] == e[Position(gf, |e|, xs[i])]
  {
    seq(|xs|, i requires 0 <= i < |xs| => e[Position(gf, |e|, xs[i])])
  }

  // ----- listing the errors -----

  /** xs lists the locations of the differences among the first n positions. */
  ghost predicate Listed(gf: GenericGF, cw: seq<nat>, msg: seq<nat>, n: nat, xs: seq<nat>)
    requires gf.Valid() && |cw| == |msg|
  {
    && n <= |cw| < gf.size && NonZeros(gf, xs) && Distinct(xs)
    && (forall i :: 0 <= i < |xs| ==> DiffersAt(gf, cw, msg, n, xs[i]))
    && (forall k :: 0 <= k < n && cw[k] != msg[k] ==> gf.Exp(|cw| - 1 - k) in xs)
  }

  ghost predicate DiffersAt(gf: GenericGF, cw: seq<nat>, msg: seq<nat>, n: nat, x0: nat)
    requires gf.Valid() && |cw| == |msg| && n <= |cw| && gf.Elem(x0) && x0 != 0
  {
    var p := Position(gf, |cw|, x0);
    0 <= p < n && cw[p] != msg[p]
  }

  lemma {:induction false} ListErrors(gf: GenericGF, cw: seq<nat>, msg: seq<nat>, n: nat) returns (xs: seq<nat>)
    requires gf.Valid() && |cw| == |msg| < gf.size && n <= |cw|
    ensures Listed(gf, cw, msg, n, xs) && |xs| == Distance(cw[..n], msg[..n])
    decreases n
  {
    hide Listed;
    if n == 0 {
      xs := [];
      ListNone(gf, cw, msg);
    } else {
      xs := ListErrors(gf, cw, msg, n - 1);
      assert cw[..n][..n - 1] == cw[..n - 1] && msg[..n][..n - 1] == msg[..n - 1];
      ListNext(gf, cw, msg, n, xs);
      if cw[n - 1] != msg[n - 1] {
        xs := xs + [gf.Exp(|cw| - n)];
      }
    }
  }

  lemma ListNone(gf: GenericGF, cw: seq<nat>, msg: seq<nat>)
    requires gf.Valid() && |cw| == |msg| < gf.size
    ensures Listed(gf, cw, msg, 0, [])
  {
  }

  lemma ListNext(gf: GenericGF, cw: seq<nat>, msg: seq<nat>, n: nat, xs: seq<nat>)
    requires gf.Valid() && |cw| == |msg| < gf.size && 0 < n <= |cw| && Listed(gf, cw, msg, n - 1, xs)
    ensures Listed(gf, cw, msg, n, if cw[n - 1] != msg[n - 1] then xs + [gf.Exp(|cw| - n)] else xs)
  {
    hide GenericGF.Valid, GenericGF.Log, GenericGF.Exp, Position;
    var x0 := gf.Exp(|cw| - n);
    LogExp(gf, |cw| - n);
    forall i | 0 <= i < |xs|
      ensures gf.Elem(xs[i]) && xs[i] != 0 && DiffersAt(gf, cw, msg, n, xs[i]) && xs[i] != x0
    {
      assert DiffersAt(gf, cw, msg, n - 1, xs[i]);
      PositionUnique(gf, |cw|, n - 1, xs[i]);
    }
    var ys := if cw[n - 1] != msg[n - 1] then xs + [x0] else xs;
    PositionUnique(gf, |cw|, n - 1, x0);
    forall i | 0 <= i < |ys|
      ensures gf.Elem(ys[i]) && ys[i] != 0 && DiffersAt(gf, cw, msg, n, ys[i])
    {
    }
    forall k | 0 <= k < n && cw[k] != msg[k]
      ensures gf.Exp(|cw| - 1 - k) in ys
    {
    }
  }

  lemma ErrorsCovered(gf: GenericGF, cw: seq<nat>, msg: seq<nat>) returns (xs: seq<nat>)
    requires gf.Valid() && |cw| == |msg| < gf.size && Elems(gf, cw) && Elems(gf, msg)
    ensures Covers(gf, XorSeq(cw, msg), xs) && |xs| == Distance(cw, msg)
  {
    hide Xor;
    xs := ListErrors(gf, cw, msg, |cw|);
    assert cw[..|cw|] == cw && msg[..|cw|] == msg;
    forall k | 0 <= k < |cw|
      ensures gf.Elem(XorSeq(cw, msg)[k]) && (XorSeq(cw, msg)[k] == 0 <==> cw[k] == msg[k])
    {
      XorElem(gf, cw[k], msg[k]);
      XorZero(cw[k], msg[k]);
    }
    forall i | 0 <= i < |xs|
      ensures Position(gf, |cw|, xs[i]) >= 0 && XorSeq(cw, msg)[Position(gf, |cw|, xs[i])] != 0
    {
      assert DiffersAt(gf, cw, msg, |cw|, xs[i]);
    }
  }

  /** A rearranged list of the locations still covers the errors. */
  lemma CoversPermuted(gf: GenericGF, e: seq<nat>, xs: seq<nat>, xs': seq<nat>)
    requires gf.Valid() && Covers(gf, e, xs) && NonZeros(gf, xs') && Distinct(xs') && Elements(xs) == Elements(xs')
    ensures Covers(gf, e, xs')
  {
    forall i | 0 <= i < |xs'|
      ensures Position(gf, |e|, xs'[i]) >= 0 && e[Position(gf, |e|, xs'[i])] != 0
    {
      assert xs'[i] in Elements(xs');
      assert xs'[i] in xs;
    }
    forall k | 0 <= k < |e| && e[k] != 0
      ensures gf.Exp(|e| - 1 - k) in xs'
    {
      assert gf.Exp(|e| - 1 - k) in Elements(xs);
    }
  }

  // ----- syndromes of an error vector -----

  lemma {:induction false} PowAlpha(gf: GenericGF, p: nat, t: nat, k: nat)
    requires gf.TablesOf(p) && gf.Valid()
    ensures Pow(gf, Alpha(p, gf.size, t), k) == Alpha(p, gf.size, t * k)
  {
    hide Doubled, Cycles;
    if k == 0 {
      assert t * k == 0;
    } else {
      PowAlpha(gf, p, t, k - 1);
      AlphaMul(gf, p, t, t * (k - 1));
      assert t + t * (k - 1) == t * k;
    }
  }

  /** (alpha^t)^k = (alpha^k)^t */
  lemma PowSwap(gf: GenericGF, t: nat, k: nat)
    requires gf.Valid() && t < 2 * gf.size && k < 2 * gf.size
    ensures Pow(gf, gf.Exp(t), k) == Pow(gf, gf.Exp(k), t)
  {
    hide Pow, TimesAlpha;
    var p: nat :| gf.TablesOf(p);
    assert gf.ExpIs(p, t) && gf.ExpIs(p, k);
    PowAlpha(gf, p, t, k);
    PowAlpha(gf, p, k, t);
    assert t * k == k * t;
  }

  lemma {:induction false} EvalShift(gf: GenericGF, k: nat, y: nat, a: nat)
    requires gf.Valid() && gf.Elem(y) && gf.Elem(a)
    ensures Ok(gf, Const(y)) && Ok(gf, Shift(k, Const(y)))
    ensures Eval(gf, Shift(k, Const(y)), a) == gf.Multiply(y, Pow(gf, a, k))
  {
    hide Xor, Ok, Const, Eval;
    EvalConst(gf, y, a);
    ShiftOk(gf, k, Const(y));
    if k == 0 {
      MulOne(gf, y);
    } else {
      EvalShift(gf, k - 1, y, a);
      var q := Shift(k - 1, Const(y));
      EvalCn(gf, 0, q, a);
      XorNil(gf.Multiply(a, Eval(gf, q, a)));
      MulAssoc(gf, a, y, Pow(gf, a, k - 1));
      MulComm(gf, a, y);
      MulAssoc(gf, y, a, Pow(gf, a, k - 1));
    }
  }

  lemma SyndromeXor(gf: GenericGF, a: seq<nat>, b: seq<nat>, i: nat)
    requires gf.Valid() && |a| == |b| && Elems(gf, a) && Elems(gf, b) && i + gf.generatorBase < 2 * gf.size
    ensures Elems(gf, XorSeq(a, b))
    ensures Syndrome(gf, XorSeq(a, b), i) == Xor(Syndrome(gf, a, i), Syndrome(gf, b, i))
  {
    hide Xor, Plus, Eval, OfSeq;
    XorsInField(gf, a, b);
    OfSeqXor(gf, a, b);
    EvalPlus(gf, OfSeq(a), OfSeq(b), gf.Exp(i + gf.generatorBase));
  }

  lemma XorsInField(gf: GenericGF, a: seq<nat>, b: seq<nat>)
    requires gf.Valid() && |a| == |b| && Elems(gf, a) && Elems(gf, b)
    ensures Elems(gf, XorSeq(a, b))
  {
    forall k | 0 <= k < |a|
      ensures gf.Elem(XorSeq(a, b)[k])
    {
      XorElem(gf, a[k], b[k]);
    }
  }

  /** A single error y at location x0 adds y * x0^(k + base) to syndrome k. */
  lemma SyndromeSingle(gf: GenericGF, s: seq<nat>, at: nat, y: nat, k: nat)
    requires gf.Valid() && Elems(gf, s) && at < |s| < gf.size && gf.Elem(y) && k + gf.generatorBase < 2 * gf.size
    ensures Elems(gf, s[at := Xor(s[at], y)])
    ensures Syndrome(gf, s[at := Xor(s[at], y)], k) ==
            Xor(Syndrome(gf, s, k), gf.Multiply(y, Pow(gf, gf.Exp(|s| - 1 - at), k + gf.generatorBase)))
  {
    hide Xor, Plus, Eval, OfSeq, Pow, Shift, Ok;
    XorElem(gf, s[at], y);
    var s', v, m := s[at := Xor(s[at], y)], [y], |s| - 1 - at;
    XorSegment(gf, s, at, v, s');
    OfSeqOk(gf, s);
    SingletonPoly(y);
    EvalShift(gf, m, y, gf.Exp(k + gf.generatorBase));
    EvalPlus(gf, OfSeq(s), Shift(m, Const(y)), gf.Exp(k + gf.generatorBase));
    PowSwap(gf, k + gf.generatorBase, m);
  }

  lemma SingletonPoly(y: nat)
    ensures OfSeq([y]) == Const(y)
  {
    assert [y][..0] == [];
  }

  /** The error vector reduced to its first m listed errors. */
  ghost function Partial(gf: GenericGF, e: seq<nat>, xs: seq<nat>, m: nat): (s: seq<nat>)
    requires gf.Valid() && Covers(gf, e, xs) && m <= |xs|
    ensures |s| == |e| && Elems(gf, s)
  {
    if m == 0 then Zeros(|e|)
    else
      var p := Position(gf, |e|, xs[m - 1]);
      Partial(gf, e, xs, m - 1)[p := e[p]]
  }

  /** A listed location points at one position of the vector, and only there. */
  lemma CoverAt(gf: GenericGF, e: seq<nat>, xs: seq<nat>, i: nat, k: nat)
    requires gf.Valid() && Covers(gf, e, xs) && i < |xs| && k < |e|
    ensures gf.Elem(xs[i]) && xs[i] != 0 && 0 <= Position(gf, |e|, xs[i]) < |e|
    ensures gf.Elem(|e| - 1 - k)
    ensures gf.Exp(|e| - 1 - k) == xs[i] <==> k == Position(gf, |e|, xs[i])
  {
    hide GenericGF.Valid, GenericGF.Log, GenericGF.Exp;
    PositionUnique(gf, |e|, k, xs[i]);
  }

  lemma PositionUnique(gf: GenericGF, length: nat, k: nat, x0: nat)
    requires gf.Valid() && gf.Elem(x0) && x0 != 0 && k < length < gf.size
    ensures gf.Exp(length - 1 - k) == x0 <==> k == Position(gf, length, x0)
  {
    hide GenericGF.Valid, GenericGF.Log, GenericGF.Exp;
    ExpLog(gf, x0);
    LogExp(gf, length - 1 - k);
  }

  lemma {:induction false} PartialEntry(gf: GenericGF, e: seq<nat>, xs: seq<nat>, m: nat, k: nat)
    requires gf.Valid() && Covers(gf, e, xs) && m <= |xs| && k < |e|
    ensures Partial(gf, e, xs, m)[k] == if gf.Exp(|e| - 1 - k) in xs[..m] then e[k] else 0
  {
    hide Covers, Elems, NonZeros, Position;
    hide GenericGF.Valid, GenericGF.Log;
    assert |e| < gf.size && (forall i :: 0 <= i < |xs| ==> gf.Elem(xs[i]) && xs[i] != 0) by {
      CoverElems(gf, e, xs);
    }
    if m > 0 {
      PartialEntry(gf, e, xs, m - 1, k);
      CoverAt(gf, e, xs, m - 1, k);
      assert xs[..m] == xs[..m - 1] + [xs[m - 1]];
    }
  }

  lemma CoverElems(gf: GenericGF, e: seq<nat>, xs: seq<nat>)
    requires gf.Valid() && Covers(gf, e, xs)
    ensures |e| < gf.size && NonZeros(gf, xs) && forall i :: 0 <= i < |xs| ==> gf.Elem(xs[i]) && xs[i] != 0
    ensures forall i :: 0 <= i < |xs| ==> xs[i] !in xs[..i]
  {
  }

  lemma CoverPosition(gf: GenericGF, e: seq<nat>, xs: seq<nat>, i: nat)
    requires gf.Valid() && Covers(gf, e, xs) && i < |xs|
    ensures gf.Elem(xs[i]) && xs[i] != 0 && 0 <= Position(gf, |e|, xs[i]) < |e|
    ensures gf.Elem(|e| - 1 - Position(gf, |e|, xs[i]))
  {
  }

  lemma PartialNext(gf: GenericGF, e: seq<nat>, xs: seq<nat>, m: nat)
    requires gf.Valid() && Covers(gf, e, xs) && m < |xs|
    ensures gf.Elem(xs[m]) && xs[m] != 0 && 0 <= Position(gf, |e|, xs[m]) < |e|
    ensures Partial(gf, e, xs, m + 1) ==
            Partial(gf, e, xs, m)[Position(gf, |e|, xs[m]) := e[Position(gf, |e|, xs[m])]]
  {
  }

  /** The next error lands on an entry that is still zero. */
  lemma PartialStep(gf: GenericGF, e: seq<nat>, xs: seq<nat>, m: nat)
    requires gf.Valid() && Covers(gf, e, xs) && m < |xs|
    ensures gf.Elem(xs[m]) && xs[m] != 0
    ensures var p := Position(gf, |e|, xs[m]); var s := Partial(gf, e, xs, m);
            && 0 <= p < |e| < gf.size && s[p] == 0 && gf.Exp(|e| - 1 - p) == xs[m]
            && Partial(gf, e, xs, m + 1) == s[p := Xor(s[p], e[p])]
  {
    hide *;
    CoverElems(gf, e, xs);
    var p := Position(gf, |e|, xs[m]);
    CoverPosition(gf, e, xs, m);
    CoverAt(gf, e, xs, m, p);
    PartialEntry(gf, e, xs, m, p);
    PartialNext(gf, e, xs, m);
    XorNil(e[p]);
  }

  lemma PartialNone(gf: GenericGF, e: seq<nat>, xs: seq<nat>)
    requires gf.Valid() && Covers(gf, e, xs)
    ensures Partial(gf, e, xs, 0) == Zeros(|e|)
  {
  }

  lemma PartialAll(gf: GenericGF, e: seq<nat>, xs: seq<nat>)
    requires gf.Valid() && Covers(gf, e, xs)
    ensures Partial(gf, e, xs, |xs|) == e
  {
    forall k | 0 <= k < |e|
      ensures Partial(gf, e, xs, |xs|)[k] == e[k]
    {
      PartialEntry(gf, e, xs, |xs|, k);
      assert xs[..|xs|] == xs;
    }
  }

  /** Adding one error adds its geometric series to the syndrome polynomial. */
  lemma {:induction false} SyndromePolySingle(gf: GenericGF, s: seq<nat>, at: nat, y: nat, k: nat, n: nat, c: nat)
    requires gf.Valid() && Elems(gf, s) && at < |s| < gf.size && gf.Elem(y) && k <= n
    requires n + gf.generatorBase <= 2 * gf.size
    requires c == gf.Multiply(y, Pow(gf, gf.Exp(|s| - 1 - at), k + gf.generatorBase))
    ensures Elems(gf, s[at := Xor(s[at], y)])
    ensures SyndromePoly(gf, s[at := Xor(s[at], y)], k, n) ==
            Plus(gf, SyndromePoly(gf, s, k, n), Geometric(gf, c, gf.Exp(|s| - 1 - at), n - k))
    decreases n - k
  {
    hide Xor, Plus, Syndrome;
    XorElem(gf, s[at], y);
    var s', x0 := s[at := Xor(s[at], y)], gf.Exp(|s| - 1 - at);
    if k == n {
      PlusNil(gf, Nil);
    } else {
      var z := Pow(gf, x0, k + gf.generatorBase);
      var c' := gf.Multiply(c, x0);
      MulAssoc(gf, y, z, x0);
      MulComm(gf, z, x0);
      SyndromePolySingle(gf, s, at, y, k + 1, n, c');
      SyndromeSingle(gf, s, at, y, k);
      var t, g := SyndromePoly(gf, s, k + 1, n), Geometric(gf, c', x0, n - k - 1);
      OkCn(gf, Syndrome(gf, s, k), t);
      OkCn(gf, c, g);
      PlusStep(gf, Cn(Syndrome(gf, s, k), t), Cn(c, g));
    }
  }

  lemma {:induction false} SyndromePolyZeros(gf: GenericGF, length: nat, k: nat, n: nat)
    requires gf.Valid() && n + gf.generatorBase <= 2 * gf.size && k <= n
    ensures Elems(gf, Zeros(length)) && SyndromePoly(gf, Zeros(length), k, n) == Nil
    decreases n - k
  {
    if k < n {
      SyndromePolyZeros(gf, length, k + 1, n);
      OfSeqZeros(length);
    }
  }

  /** The syndromes of an error vector are the sum of its errors' series. */
  lemma {:induction false} ErrorSyndromes(gf: GenericGF, e: seq<nat>, xs: seq<nat>, m: nat, n: nat)
    requires gf.Valid() && Covers(gf, e, xs) && m <= |xs| && n + gf.generatorBase <= 2 * gf.size
    ensures SyndromePoly(gf, Partial(gf, e, xs, m), 0, n) == GeometricSum(gf, xs, Values(gf, e, xs), m, n)
  {
    hide *;
    CoverElems(gf, e, xs);
    if m == 0 {
      PartialNone(gf, e, xs);
      SyndromePolyZeros(gf, |e|, 0, n);
      GeometricSumNone(gf, xs, Values(gf, e, xs), n);
    } else {
      CoverPosition(gf, e, xs, m - 1);
      var s, p := Partial(gf, e, xs, m - 1), Position(gf, |e|, xs[m - 1]);
      ErrorSyndromes(gf, e, xs, m - 1, n);
      PartialStep(gf, e, xs, m - 1);
      WeightOf(gf, e, xs, m - 1);
      SyndromePolySingle(gf, s, p, e[p], 0, n, Weight(gf, xs, Values(gf, e, xs), m - 1));
      GeometricSumStep(gf, xs, Values(gf, e, xs), m, n);
    }
  }

  lemma GeometricSumNone(gf: GenericGF, xs: seq<nat>, ys: seq<nat>, r: nat)
    requires gf.Valid() && NonZeros(gf, xs) && NonZeros(gf, ys) && |xs| == |ys|
    ensures GeometricSum(gf, xs, ys, 0, r) == Nil
  {
  }

  lemma GeometricSumStep(gf: GenericGF, xs: seq<nat>, ys: seq<nat>, m: nat, r: nat)
    requires gf.Valid() && NonZeros(gf, xs) && NonZeros(gf, ys) && 0 < m <= |xs| == |ys|
    ensures GeometricSum(gf, xs, ys, m, r) ==
            Plus(gf, GeometricSum(gf, xs, ys, m - 1, r), Geometric(gf, Weight(gf, xs, ys, m - 1), xs[m - 1], r))
  {
  }

  lemma WeightOf(gf: GenericGF, e: seq<nat>, xs: seq<nat>, i: nat)
    requires gf.Valid() && Covers(gf, e, xs) && i < |xs|
    ensures NonZeros(gf, xs) && gf.Elem(xs[i]) && xs[i] != 0 && 0 <= Position(gf, |e|, xs[i]) < |e|
    ensures gf.Elem(e[Position(gf, |e|, xs[i])])
    ensures Weight(gf, xs, Values(gf, e, xs), i) ==
            gf.Multiply(e[Position(gf, |e|, xs[i])], Pow(gf, xs[i], gf.generatorBase))
  {
    hide Pow;
  }
}
