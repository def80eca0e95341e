/** Polynomials as objects that rewrite their coefficients in place (core/src/GenericGFPoly.h and .cpp). */
module GenericGFPolys {
  import opened Bits
  import opened GenericGFs
  import opened Polynomials
  import opened PolynomialDivision
  import opened Coefficients

  class GenericGFPoly {
    var field: GenericGF
    var coefficients: seq<nat>
    var cache: seq<nat>  // scratch space of Multiply, without meaning between calls

    ghost predicate Valid()
      reads this
    {
      field.Valid() && Elems(field, coefficients) && Normal(coefficients)
    }

    /** The polynomial this object stands for. */
    ghost function P(): (p: Poly)
      reads this
      requires Valid()
      ensures Ok(field, p) && Degree(p) == Deg() && (p == Nil <==> IsZero()) && Hd(p) == Constant()
    {
      NormalFacts(field, coefficients);
      OfSeq(coefficients)
    }

    constructor (field: GenericGF, coefficients: seq<nat>)
      requires field.Valid() && Elems(field, coefficients) && |coefficients| > 0
      ensures Valid() && this.field == field && P() == OfSeq(coefficients)
    {
      this.field := field;
      this.coefficients := coefficients;
      this.cache := [];
      new;
      Normalize();
    }

    function Deg(): int
      reads this
    {
      |coefficients| - 1
    }

    predicate IsZero()
      reads this
      requires |coefficients| > 0
    {
      coefficients[0] == 0
    }

    function Constant(): nat
      reads this
      requires |coefficients| > 0
    {
      coefficients[|coefficients| - 1]
    }

    method SetField(field: GenericGF)
      modifies this`field
      ensures this.field == field
    {
      this.field := field;
    }

    /** Works from any earlier contents. */
    method SetMonomial(coefficient: nat, degree: nat)
      requires field.Valid() && field.Elem(coefficient) && (coefficient != 0 || degree == 0)
      modifies this`coefficients
      ensures Valid() && P() == Shift(degree, Const(coefficient))
    {
      coefficients := Zeros(degree + 1);
      coefficients := coefficients[0 := coefficient];
      ghost var head := [coefficient];
      assert coefficients == head + Zeros(degree);
      OfSeqTrailingZeros(head, degree);
      assert head[..0] == [];
    }

    method EvaluateAt(a: nat) returns (r: nat)
      requires Valid() && field.Elem(a)
      ensures r == Eval(field, P(), a)
    {
      if a == 0 {
        EvalAtZero(field, P());
        return Constant();
      }
      r := 0;
      for i := 0 to |coefficients|
        invariant Ok(field, OfSeq(coefficients[..i])) && r == Eval(field, OfSeq(coefficients[..i]), a)
      {
        ghost var before := OfSeq(coefficients[..i]);
        OfSeqOk(field, coefficients[..i + 1]);
        assert coefficients[..i + 1] == coefficients[..i] + [coefficients[i]];
        OfSeqSnoc(coefficients[..i], coefficients[i]);
        EvalCn(field, coefficients[i], before, a);
        XorComm(coefficients[i], field.Multiply(a, r));
        if a == 1 {
          MulOne(field, r);
          r := Xor(r, coefficients[i]);
        } else {
          r := Xor(field.Multiply(a, r), coefficients[i]);
        }
      }
      assert coefficients[..|coefficients|] == coefficients;
    }

    /**
     * The sum. The other operand keeps its value unless the two coefficient vectors were exchanged,
     * which happens when this is zero or the other one is longer.
     */
    method AddOrSubtract(other: GenericGFPoly)
      requires this != other && Valid() && other.Valid() && field == other.field
      modifies this, other
      ensures Valid() && other.Valid() && field == other.field == old(field)
      ensures P() == Plus(field, old(P()), old(other.P()))
      ensures other.P() == if old(IsZero() || other.Deg() > Deg()) then old(P()) else old(other.P())
    {
      hide Xor, Plus;
      if IsZero() {
        PlusNil(field, other.P());
        Swap(this, other);
        return;
      }
      if other.IsZero() {
        PlusNil(field, P());
        return;
      }
      PlusComm(field, P(), other.P());
      if |other.coefficients| > |coefficients| {
        coefficients, other.coefficients := other.coefficients, coefficients;
      }
      ghost var larger, smaller := coefficients, other.coefficients;
      var lengthDiff := |coefficients| - |other.coefficients|;
      for i := lengthDiff to |coefficients|
        invariant |coefficients| == |larger| && other.coefficients == smaller && field == old(field) == other.field
        invariant forall k :: 0 <= k < |larger| ==>
          coefficients[k] == if lengthDiff <= k < i then Xor(larger[k], smaller[k - lengthDiff]) else larger[k]
      {
        coefficients := coefficients[i := Xor(coefficients[i], other.coefficients[i - lengthDiff])];
      }
      XorSegment(field, larger, lengthDiff, smaller, coefficients);
      XorsElem(field, larger, smaller, lengthDiff, coefficients);
      Normalize();
    }

    method Multiply(other: GenericGFPoly)
      requires Valid() && other.Valid() && field == other.field
      modifies this
      ensures Valid() && field == old(field)
      ensures P() == Times(field, old(P()), old(other.P()))
    {
      hide Xor, Plus, Times, Ok;
      TimesNil(field, P());
      TimesNil(field, other.P());
      if IsZero() || other.IsZero() {
        SetMonomial(0, 0);
        return;
      }
      ghost var a, b := coefficients, other.coefficients;
      cache := Zeros(|coefficients| + |other.coefficients| - 1);
      PartialProductStart(field, a, b);
      for i := 0 to |coefficients|
        invariant field == old(field) && coefficients == a && old(other.coefficients) == b
        invariant this != other ==> other.coefficients == b
        invariant PartialProduct(field, a, b, i, cache)
      {
        ghost var before := cache;
        for j := 0 to |other.coefficients|
          invariant field == old(field) && coefficients == a && (this != other ==> other.coefficients == b)
          invariant RowAdded(field, a, b, i, j, before, cache)
        {
          RowStep(field, a, b, i, j, before, cache);
          cache := cache[i + j := Xor(cache[i + j], field.Multiply(coefficients[i], other.coefficients[j]))];
        }
        PartialProductStep(field, a, b, i, before, cache);
      }
      PartialProductEnd(field, a, b, cache);
      coefficients, cache := cache, coefficients;
      Normalize();
    }

    method MultiplyByMonomial(coefficient: nat, degree: nat)
      requires Valid() && field.Elem(coefficient)
      modifies this`coefficients
      ensures Valid()
      ensures P() == Shift(degree, Scale(field, coefficient, old(P())))
    {
      if coefficient == 0 {
        ScaleZero(field, P());
        ShiftNil(degree);
        SetMonomial(0, 0);
        return;
      }
      ghost var a := coefficients;
      for i := 0 to |coefficients|
        invariant |coefficients| == |a|
        invariant forall k :: 0 <= k < |a| ==>
          coefficients[k] == if k < i then field.Multiply(coefficient, a[k]) else a[k]
      {
        MulComm(field, coefficients[i], coefficient);
        coefficients := coefficients[i := field.Multiply(coefficients[i], coefficient)];
      }
      assert coefficients == ScaleSeq(field, coefficient, a);
      OfSeqScale(field, coefficient, a);
      OfSeqTrailingZeros(coefficients, degree);
      coefficients := coefficients + Zeros(degree);
      Normalize();
    }

    /**
     * Synthetic division: leaves the remainder in this and the quotient in the argument, whatever that
     * held before. Fails, changing nothing, exactly when the divisor is zero.
     */
    method Divide(other: GenericGFPoly, quotient: GenericGFPoly) returns (ok: bool)
      requires this != other && this != quotient && other != quotient
      requires Valid() && other.Valid() && field == other.field
      modifies this, quotient
      ensures ok <==> old(!other.IsZero())
      ensures !ok ==> unchanged(this) && unchanged(quotient)
      ensures ok ==> Valid() && quotient.Valid() && field == quotient.field == old(field)
      ensures ok ==> (quotient.P(), P()) == DivMod(field, old(P()), other.P())
      ensures ok ==> old(P()) == Plus(field, Times(field, quotient.P(), other.P()), P())
      ensures ok ==> IsZero() || Deg() < other.Deg()
    {
      hide Xor, Plus, Times, DivMod, Ok;
      if other.IsZero() {
        return false;
      }
      DivModCorrect(field, P(), other.P());
      quotient.SetField(field);
      if Deg() < other.Deg() {
        TimesNil(field, other.P());
        PlusNil(field, P());
        DivModUnique(field, Nil, P(), other.P());
        quotient.SetMonomial(0, 0);
        return true;
      }
      ghost var a := coefficients;
      Swap(this, quotient);
      quotient.DivideLoop(other);
      var result, d := quotient.coefficients, other.Deg();
      SetToTail(result, d);
      // cut off the tail to leave the quotient
      quotient.coefficients := result[..|result| - d];
      DivideEnd(field, a, other.coefficients, result);
      return true;
    }

    /** The normalised remainder, from the last d entries of the divided vector. */
    method SetToTail(result: seq<nat>, d: nat)
      requires field.Valid() && Elems(field, result) && d <= |result|
      modifies this`coefficients
      ensures Valid() && P() == OfSeq(result[|result| - d..])
    {
      var first := |result| - d;
      while first < |result| && result[first] == 0
        invariant |result| - d <= first <= |result|
        invariant forall k :: |result| - d <= k < first ==> result[k] == 0
      {
        first := first + 1;
      }
      ghost var tail := result[|result| - d..];
      OfSeqLeadingZeros(tail, first - (|result| - d));
      assert tail[first - (|result| - d)..] == result[first..];
      if first == |result| {
        SetMonomial(0, 0);
        assert OfSeq([]) == Nil;
      } else {
        coefficients := result[first..];
      }
    }

    /** The loop of Divide, run on the dividend's vector: quotient coefficients in front, remainder behind. */
    method DivideLoop(other: GenericGFPoly)
      requires this != other && Valid() && other.Valid() && field == other.field
      requires !other.IsZero() && Deg() >= other.Deg()
      modifies this`coefficients
      ensures |coefficients| == |old(coefficients)|
      ensures Divided(field, old(coefficients), other.coefficients, |coefficients| - (|other.coefficients| - 1), coefficients)
    {
      hide Xor, Plus, Times;
      ghost var a := coefficients;
      var divisor := other.coefficients;
      MulInverse(field, divisor[0]);
      var normalizer := field.Inverse(divisor[0]);
      DividedStart(field, a, divisor);
      for i := 0 to |coefficients| - (|divisor| - 1)
        invariant Divided(field, a, divisor, i, coefficients)
      {
        ghost var before := coefficients;
        if coefficients[i] != 0 {
          var ci := field.Multiply(coefficients[i], normalizer);
          coefficients := coefficients[i := ci];
          for j := 1 to |divisor|
            invariant Subtracted(field, divisor, i, j, ci, before, coefficients)
          {
            XorElem(field, coefficients[i + j], field.Multiply(divisor[j], ci));
            MulComm(field, divisor[j], ci);
            coefficients := coefficients[i + j := Xor(coefficients[i + j], field.Multiply(divisor[j], ci))];
          }
          MulAssoc(field, before[i], normalizer, divisor[0]);
          MulComm(field, normalizer, divisor[0]);
          MulOne(field, before[i]);
          DividedStep(field, a, divisor, i, ci, before, coefficients);
        } else {
          DividedSkip(field, a, divisor, i, before);
        }
      }
    }

    /** Drops leading zeros. */
    method Normalize()
      requires field.Valid() && Elems(field, coefficients) && |coefficients| > 0
      modifies this`coefficients
      ensures Valid() && P() == OfSeq(old(coefficients))
    {
      var first := 0;
      while first < |coefficients| && coefficients[first] == 0
        invariant 0 <= first <= |coefficients|
        invariant forall k :: 0 <= k < first ==> coefficients[k] == 0
      {
        first := first + 1;
      }
      OfSeqLeadingZeros(coefficients, first);
      if first != 0 {
        if first == |coefficients| {
          OfSeqZeros(1);
          assert OfSeq(coefficients[first..]) == Nil;
          coefficients := Zeros(1);
        } else {
          coefficients := coefficients[first..];
        }
      }
    }

    /** Exchanges two polynomials, fields included. */
    static method Swap(a: GenericGFPoly, b: GenericGFPoly)
      modifies a, b
      ensures a.field == old(b.field) && a.coefficients == old(b.coefficients)
      ensures b.field == old(a.field) && b.coefficients == old(a.coefficients)
    {
      a.field, b.field := b.field, a.field;
      a.coefficients, b.coefficients := b.coefficients, a.coefficients;
    }
  }

  lemma EvalAtZero(gf: GenericGF, p: Poly)
    requires gf.Valid() && Ok(gf, p)
    ensures Eval(gf, p, 0) == Hd(p)
  {
    hide Xor;
    XorNil(Hd(p));
  }

  lemma XorsElem(gf: GenericGF, s: seq<nat>, t: seq<nat>, at: nat, s': seq<nat>)
    requires gf.Valid() && Elems(gf, s) && Elems(gf, t) && |s'| == |s| == at + |t|
    requires forall k :: 0 <= k < |s| ==> s'[k] == if at <= k then Xor(s[k], t[k - at]) else s[k]
    ensures Elems(gf, s')
  {
    forall k | 0 <= k < |s'|
      ensures gf.Elem(s'[k])
    {
      if at <= k {
        XorElem(gf, s[k], t[k - at]);
      }
    }
  }

  // ----- the loops of Multiply -----

  /** After i rows the cache holds the product of the first i coefficients of a, in place, with b. */
  ghost predicate PartialProduct(gf: GenericGF, a: seq<nat>, b: seq<nat>, i: nat, c: seq<nat>)
    requires gf.Valid() && Elems(gf, a) && Elems(gf, b)
  {
    && i <= |a| && |b| > 0 && |c| == |a| + |b| - 1 && Elems(gf, c)
    && Ok(gf, Shift(|a| - i, OfSeq(a[..i]))) && Ok(gf, OfSeq(b))
    && OfSeq(c) == Times(gf, Shift(|a| - i, OfSeq(a[..i])), OfSeq(b))
  }

  /** Row i of the product has been added to the cache up to column j. */
  ghost predicate RowAdded(gf: GenericGF, a: seq<nat>, b: seq<nat>, i: nat, j: nat, before: seq<nat>, c: seq<nat>)
    requires gf.Valid() && Elems(gf, a) && Elems(gf, b)
  {
    && i < |a| && j <= |b| && |c| == |before| == |a| + |b| - 1 && Elems(gf, c)
    && forall k :: 0 <= k < |c| ==>
         c[k] == if i <= k < i + j then Xor(before[k], gf.Multiply(a[i], b[k - i])) else before[k]
  }

  lemma PartialProductStart(gf: GenericGF, a: seq<nat>, b: seq<nat>)
    requires gf.Valid() && Elems(gf, a) && Elems(gf, b) && |a| > 0 && |b| > 0
    ensures PartialProduct(gf, a, b, 0, Zeros(|a| + |b| - 1))
  {
    hide Xor, Plus;
    OfSeqOk(gf, b);
    OfSeqZeros(|a| + |b| - 1);
    assert OfSeq(a[..0]) == Nil;
    ShiftNil(|a|);
  }

  lemma RowStep(gf: GenericGF, a: seq<nat>, b: seq<nat>, i: nat, j: nat, before: seq<nat>, c: seq<nat>)
    requires gf.Valid() && Elems(gf, a) && Elems(gf, b)
    requires RowAdded(gf, a, b, i, j, before, c) && j < |b|
    ensures RowAdded(gf, a, b, i, j + 1, before, c[i + j := Xor(c[i + j], gf.Multiply(a[i], b[j]))])
  {
    hide Xor;
    XorElem(gf, c[i + j], gf.Multiply(a[i], b[j]));
  }

  lemma PartialProductStep(gf: GenericGF, a: seq<nat>, b: seq<nat>, i: nat, before: seq<nat>, c: seq<nat>)
    requires gf.Valid() && Elems(gf, a) && Elems(gf, b) && Elems(gf, before)
    requires PartialProduct(gf, a, b, i, before) && RowAdded(gf, a, b, i, |b|, before, c)
    ensures PartialProduct(gf, a, b, i + 1, c)
  {
    hide Xor, Plus, Times, Ok, Scale;
    var n, s, bp := |a| - i - 1, OfSeq(a[..i]), OfSeq(b);
    OfSeqOk(gf, a[..i]);
    XorSegment(gf, before, i, ScaleSeq(gf, a[i], b), c);
    OfSeqScale(gf, a[i], b);
    ShiftSnoc(gf, n, a[i], s);
    assert a[..i + 1] == a[..i] + [a[i]];
    OfSeqSnoc(a[..i], a[i]);
    TimesPlusLeft(gf, Shift(n + 1, s), Shift(n, Const(a[i])), bp);
    ShiftTimes(gf, n, Const(a[i]), bp);
    TimesConst(gf, a[i], bp);
  }

  lemma ShiftSnoc(gf: GenericGF, n: nat, c: nat, p: Poly)
    requires gf.Valid() && gf.Elem(c) && Ok(gf, p)
    ensures Ok(gf, Const(c)) && Ok(gf, Shift(n, Const(c))) && Ok(gf, Shift(n + 1, p)) && Ok(gf, Shift(n, Cn(c, p)))
    ensures Shift(n, Cn(c, p)) == Plus(gf, Shift(n + 1, p), Shift(n, Const(c)))
  {
    hide Xor, Plus, Ok;
    OkCn(gf, c, p);
    OkCn(gf, 0, p);
    OkNil(gf);
    OkCn(gf, c, Nil);
    ShiftOk(gf, n, Cn(c, p));
    ShiftOk(gf, n + 1, p);
    ShiftOk(gf, n, Const(c));
    XorNil(c);
    PlusStep(gf, Cn(0, p), Const(c));
    PlusNil(gf, p);
    ShiftPlus(gf, n, Cn(0, p), Const(c));
    ShiftShift(n, 1, p);
    assert Shift(1, p) == Cn(0, Shift(0, p));
  }

  lemma OkNil(gf: GenericGF)
    requires gf.Valid()
    ensures Ok(gf, Nil)
  {
  }

  lemma PartialProductEnd(gf: GenericGF, a: seq<nat>, b: seq<nat>, c: seq<nat>)
    requires gf.Valid() && Elems(gf, a) && Elems(gf, b) && PartialProduct(gf, a, b, |a|, c)
    ensures Ok(gf, OfSeq(a)) && Ok(gf, OfSeq(b)) && OfSeq(c) == Times(gf, OfSeq(a), OfSeq(b))
  {
    assert a[..|a|] == a;
  }

  // ----- the loop of Divide -----

  /** After i turns: dividend = (quotient so far, in place) * divisor + (what is left behind it). */
  ghost predicate Divided(gf: GenericGF, a: seq<nat>, d: seq<nat>, i: nat, c: seq<nat>)
    requires gf.Valid() && Elems(gf, a) && Elems(gf, d)
  {
    && 0 < |d| <= |a| == |c| && i <= |a| - (|d| - 1) && Elems(gf, c)
    && (i > 0 && a[0] != 0 ==> c[0] != 0)
    && Ok(gf, OfSeq(a)) && Ok(gf, OfSeq(d))
    && Ok(gf, Shift(|a| - (|d| - 1) - i, OfSeq(c[..i]))) && Ok(gf, OfSeq(c[i..]))
    && OfSeq(a) == Plus(gf, Times(gf, Shift(|a| - (|d| - 1) - i, OfSeq(c[..i])), OfSeq(d)), OfSeq(c[i..]))
  }

  /** Position i holds the new quotient coefficient q and q * d has been subtracted up to column j. */
  ghost predicate Subtracted(gf: GenericGF, d: seq<nat>, i: nat, j: nat, q: nat, before: seq<nat>, c: seq<nat>)
    requires gf.Valid() && Elems(gf, d) && gf.Elem(q)
  {
    && 1 <= j <= |d| && i + |d| <= |before| == |c| && Elems(gf, c) && c[i] == q
    && forall k :: 0 <= k < |c| && k != i ==>
         c[k] == if i < k < i + j then Xor(before[k], gf.Multiply(q, d[k - i])) else before[k]
  }

  lemma DividedStart(gf: GenericGF, a: seq<nat>, d: seq<nat>)
    requires gf.Valid() && Elems(gf, a) && Elems(gf, d) && 0 < |d| <= |a|
    ensures Divided(gf, a, d, 0, a)
  {
    hide Xor;
    OfSeqOk(gf, a);
    OfSeqOk(gf, d);
    assert a[0..] == a;
    assert OfSeq(a[..0]) == Nil;
    ShiftNil(|a| - (|d| - 1));
    TimesNil(gf, OfSeq(d));
    PlusNil(gf, OfSeq(a));
  }

  lemma DividedSkip(gf: GenericGF, a: seq<nat>, d: seq<nat>, i: nat, c: seq<nat>)
    requires gf.Valid() && Elems(gf, a) && Elems(gf, d) && Divided(gf, a, d, i, c)
    requires i < |a| - (|d| - 1) && c[i] == 0 && Normal(a)
    ensures Divided(gf, a, d, i + 1, c)
  {
    hide Xor, Plus, Times, Ok;
    var n, s := |a| - (|d| - 1) - i - 1, OfSeq(c[..i]);
    assert c[..i + 1] == c[..i] + [0];
    OfSeqSnoc(c[..i], 0);
    ShiftShift(n, 1, s);
    assert Shift(1, s) == Cn(0, Shift(0, s));
    OfSeqLeadingZero(c[i..]);
    assert c[i..][1..] == c[i + 1..];
    if i == 0 && a[0] != 0 {
      ZeroTop(gf, a, d, c);
    }
  }

  /** Before the first turn the vector is still the dividend, so its first entry is not zero. */
  lemma ZeroTop(gf: GenericGF, a: seq<nat>, d: seq<nat>, c: seq<nat>)
    requires gf.Valid() && Elems(gf, a) && Elems(gf, d) && Divided(gf, a, d, 0, c) && c[0] == 0
    ensures a[0] == 0
  {
    hide Xor;
    assert OfSeq(c[..0]) == Nil && c[0..] == c;
    ShiftNil(|a| - (|d| - 1));
    TimesNil(gf, OfSeq(d));
    PlusNil(gf, OfSeq(c));
    OfSeqLeadingZero(c);
    OfSeqOk(gf, c[1..]);
    if a[0] != 0 {
      OfSeqLen(a);
    }
  }

  lemma DividedStep(gf: GenericGF, a: seq<nat>, d: seq<nat>, i: nat, q: nat, before: seq<nat>, c: seq<nat>)
    requires gf.Valid() && Elems(gf, a) && Elems(gf, d) && gf.Elem(q) && Elems(gf, before)
    requires Divided(gf, a, d, i, before) && i < |a| - (|d| - 1)
    requires Subtracted(gf, d, i, |d|, q, before, c)
    requires before[i] == gf.Multiply(q, d[0]) && before[i] != 0
    ensures Divided(gf, a, d, i + 1, c)
  {
    hide Xor, Plus, Times, Ok, Scale;
    var n, s, dp := |a| - (|d| - 1) - i - 1, OfSeq(before[..i]), OfSeq(d);
    var r, r' := OfSeq(before[i..]), OfSeq(c[i + 1..]);
    OfSeqOk(gf, before[..i]);
    OfSeqOk(gf, c[i + 1..]);
    TailStep(gf, d, i, q, before, c);
    var qd := Shift(n, Scale(gf, q, dp));
    assert r' == Plus(gf, r, qd);
    assert c[..i + 1] == before[..i] + [q];
    OfSeqSnoc(before[..i], q);
    ShiftSnoc(gf, n, q, s);
    TimesPlusLeft(gf, Shift(n + 1, s), Shift(n, Const(q)), dp);
    ShiftTimes(gf, n, Const(q), dp);
    TimesConst(gf, q, dp);
    var t := Times(gf, Shift(n + 1, s), dp);
    PlusComm(gf, r, qd);
    PlusAssoc(gf, t, qd, Plus(gf, qd, r));
    PlusCancel(gf, r, qd);
    MulNonZero(gf, q, d[0]);
  }

  /** Behind the new quotient coefficient the remainder has lost q times the divisor. */
  lemma TailStep(gf: GenericGF, d: seq<nat>, i: nat, q: nat, before: seq<nat>, c: seq<nat>)
    requires gf.Valid() && Elems(gf, d) && gf.Elem(q) && Elems(gf, before) && i + |d| <= |before| && |d| > 0
    requires |c| == |before| && Subtracted(gf, d, i, |d|, q, before, c) && before[i] == gf.Multiply(q, d[0])
    ensures Ok(gf, OfSeq(before[i..])) && Ok(gf, OfSeq(d)) && Ok(gf, Shift(|c| - i - |d|, Scale(gf, q, OfSeq(d))))
    ensures OfSeq(c[i + 1..]) == Plus(gf, OfSeq(before[i..]), Shift(|c| - i - |d|, Scale(gf, q, OfSeq(d))))
  {
    hide *;
    var b, row, tail := before[i..], ScaleSeq(gf, q, d), [0] + c[i + 1..];
    forall k | 0 <= k < |b|
      ensures tail[k] == if k < |d| then Xor(b[k], row[k]) else b[k]
    {
      TailEntry(gf, d, i, q, before, c, k);
    }
    ElemsSlice(gf, before, i);
    TailPoly(gf, d, q, b, row, tail);
    assert tail[1..] == c[i + 1..];
  }

  lemma TailEntry(gf: GenericGF, d: seq<nat>, i: nat, q: nat, before: seq<nat>, c: seq<nat>, k: nat)
    requires gf.Valid() && Elems(gf, d) && gf.Elem(q) && |d| > 0 && i + k < |before|
    requires Subtracted(gf, d, i, |d|, q, before, c) && before[i] == gf.Multiply(q, d[0])
    ensures ([0] + c[i + 1..])[k] == if k < |d| then Xor(before[i + k], ScaleSeq(gf, q, d)[k]) else before[i + k]
  {
    hide Xor;
    XorSelf(before[i]);
    if k > 0 {
      assert ([0] + c[i + 1..])[k] == c[i + k];
    }
  }

  lemma TailPoly(gf: GenericGF, d: seq<nat>, q: nat, b: seq<nat>, row: seq<nat>, tail: seq<nat>)
    requires gf.Valid() && Elems(gf, d) && gf.Elem(q) && Elems(gf, b) && |tail| == |b| >= |d| > 0
    requires row == ScaleSeq(gf, q, d) && tail[0] == 0
    requires forall k :: 0 <= k < |b| ==> tail[k] == if k < |d| then Xor(b[k], row[k]) else b[k]
    ensures Ok(gf, OfSeq(b)) && Ok(gf, OfSeq(d)) && Ok(gf, Shift(|b| - |d|, Scale(gf, q, OfSeq(d))))
    ensures OfSeq(tail[1..]) == Plus(gf, OfSeq(b), Shift(|b| - |d|, Scale(gf, q, OfSeq(d))))
  {
    hide *;
    XorSegment(gf, b, 0, row, tail);
    OfSeqOk(gf, d);
    OfSeqScale(gf, q, d);
    OfSeqLeadingZero(tail);
  }

  /** At the end the two parts of the vector are the quotient and the remainder. */
  lemma DivideEnd(gf: GenericGF, a: seq<nat>, d: seq<nat>, c: seq<nat>)
    requires gf.Valid() && Elems(gf, a) && Elems(gf, d) && Normal(a) && Normal(d) && d[0] != 0
    requires |a| >= |d| && Divided(gf, a, d, |a| - (|d| - 1), c)
    ensures var n := |c| - (|d| - 1);
            && n > 0 && Normal(c[..n]) && Ok(gf, OfSeq(a)) && Ok(gf, OfSeq(d)) && OfSeq(d) != Nil
            && DivMod(gf, OfSeq(a), OfSeq(d)) == (OfSeq(c[..n]), OfSeq(c[n..]))
  {
    hide Xor, Plus, Times, DivMod;
    var n := |c| - (|d| - 1);
    OfSeqOk(gf, c[n..]);
    OfSeqOk(gf, c[..n]);
    OfSeqLen(d);
    DivModUnique(gf, OfSeq(c[..n]), OfSeq(c[n..]), OfSeq(d));
  }
}
