/** Division with remainder, powers of x and roots in the polynomial ring. */
module PolynomialDivision {
  import opened Bits
  import opened GenericGFs
  import opened Polynomials

  /** Degree as the C++ code counts it: the zero polynomial has degree 0. */
  ghost function Degree(p: Poly): nat {
    if p == Nil then 0 else Len(p) - 1
  }

  /** p times x^n. */
  ghost function Shift(n: nat, p: Poly): Poly {
    if n == 0 then p else Cn(0, Shift(n - 1, p))
  }

  ghost function XPow(n: nat): Poly {
    Shift(n, Const(1))
  }

  /** Quotient and remainder, by induction on the dividend from its leading end. */
  ghost function DivMod(gf: GenericGF, p: Poly, d: Poly): (qr: (Poly, Poly))
    requires gf.Valid() && Ok(gf, p) && Ok(gf, d) && d != Nil
    ensures Ok(gf, qr.0) && Ok(gf, qr.1)
  {
    if p == Nil then (Nil, Nil)
    else
      var (q, r) := DivMod(gf, p.rest, d);
      var r1 := Cn(p.c, r);
      LeadOk(gf, d);
      if Len(r1) < Len(d) then (Cn(0, q), r1)
      else
        LeadOk(gf, r1);
        var c := gf.Multiply(Lead(r1), gf.Inverse(Lead(d)));
        (Cn(c, q), Plus(gf, r1, Scale(gf, c, d)))
  }

  lemma {:induction false} LeadOk(gf: GenericGF, p: Poly)
    requires gf.Valid() && Ok(gf, p) && p != Nil
    ensures gf.Elem(Lead(p)) && Lead(p) != 0
  {
    if p.rest != Nil {
      LeadOk(gf, p.rest);
    }
  }

  lemma PlusZero(gf: GenericGF, p: Poly, q: Poly)
    requires gf.Valid() && Ok(gf, p) && Ok(gf, q)
    ensures Plus(gf, p, q) == Nil <==> p == q
  {
    PlusSelf(gf, p);
    PlusCancel(gf, p, q);
    PlusNil(gf, q);
  }

  /** Adding two polynomials with the same leading term lowers the degree. */
  lemma {:induction false} LeadCancels(gf: GenericGF, p: Poly, q: Poly)
    requires gf.Valid() && Ok(gf, p) && Ok(gf, q)
    requires p != Nil && q != Nil && Len(p) == Len(q) && Lead(p) == Lead(q)
    ensures Len(Plus(gf, p, q)) < Len(p)
  {
    if p.rest == Nil {
      XorSelf(p.c);
    } else {
      LeadCancels(gf, p.rest, q.rest);
    }
  }

  lemma {:induction false} LeadScale(gf: GenericGF, a: nat, p: Poly)
    requires gf.Valid() && Ok(gf, p) && p != Nil && gf.Elem(a) && a != 0
    ensures gf.Elem(Lead(p)) && Scale(gf, a, p) != Nil && Lead(Scale(gf, a, p)) == gf.Multiply(a, Lead(p))
  {
    MulNonZero(gf, a, p.c);
    if p.rest != Nil {
      LeadScale(gf, a, p.rest);
    }
  }

  /** Subtracting the right multiple of the divisor lowers the degree of a remainder that is too long. */
  lemma LeadStep(gf: GenericGF, r: Poly, d: Poly) returns (c: nat)
    requires gf.Valid() && Ok(gf, r) && Ok(gf, d) && r != Nil && d != Nil && Len(r) == Len(d)
    ensures gf.Elem(Lead(r)) && gf.Elem(Lead(d)) && Lead(d) != 0
    ensures c == gf.Multiply(Lead(r), gf.Inverse(Lead(d)))
    ensures Len(Plus(gf, r, Scale(gf, c, d))) < Len(d)
  {
    hide Xor, Plus;
    LeadOk(gf, d);
    LeadOk(gf, r);
    var l, i := Lead(d), gf.Inverse(Lead(d));
    c := gf.Multiply(Lead(r), i);
    MulInverse(gf, l);
    MulNonZero(gf, Lead(r), i);
    MulAssoc(gf, Lead(r), i, l);
    MulComm(gf, i, l);
    MulOne(gf, Lead(r));
    LeadScale(gf, c, d);
    LenScale(gf, c, d);
    LeadCancels(gf, r, Scale(gf, c, d));
  }

  lemma {:induction false} DivModCorrect(gf: GenericGF, p: Poly, d: Poly)
    requires gf.Valid() && Ok(gf, p) && Ok(gf, d) && d != Nil
    ensures var (q, r) := DivMod(gf, p, d); p == Plus(gf, Times(gf, q, d), r) && Len(r) < Len(d)
  {
    hide Xor;
    if p == Nil {
    } else {
      DivModCorrect(gf, p.rest, d);
      var (q, r) := DivMod(gf, p.rest, d);
      var r1 := Cn(p.c, r);
      var qd := Times(gf, q, d);
      XorNil(p.c);
      PlusStep(gf, Cn(0, qd), r1);
      assert p == Plus(gf, Cn(0, qd), r1);
      if Len(r1) < Len(d) {
        LongDivisionStep(gf, 0, q, r1, d);
        ScaleZero(gf, d);
        PlusNil(gf, r1);
      } else {
        var c := LeadStep(gf, r1, d);
        LongDivisionStep(gf, c, q, r1, d);
      }
    }
  }

  /** Moving c * d from the remainder to the quotient. */
  lemma LongDivisionStep(gf: GenericGF, c: nat, q: Poly, r: Poly, d: Poly)
    requires gf.Valid() && gf.Elem(c) && Ok(gf, q) && Ok(gf, r) && Ok(gf, d)
    ensures Plus(gf, Times(gf, Cn(c, q), d), Plus(gf, r, Scale(gf, c, d))) == Plus(gf, Cn(0, Times(gf, q, d)), r)
  {
    hide Xor, Plus, Times, Scale;
    var qd, cd := Cn(0, Times(gf, q, d)), Scale(gf, c, d);
    TimesStep(gf, Cn(c, q), d);
    PlusComm(gf, cd, qd);
    PlusShuffle(gf, qd, cd, r, cd);
    PlusSelf(gf, cd);
    PlusNil(gf, Plus(gf, qd, r));
  }

  /** Quotient and remainder are determined by the division equation and the degree bound. */
  lemma DivModUnique(gf: GenericGF, q: Poly, r: Poly, d: Poly)
    requires gf.Valid() && Ok(gf, q) && Ok(gf, r) && Ok(gf, d) && Len(r) < Len(d)
    ensures DivMod(gf, Plus(gf, Times(gf, q, d), r), d) == (q, r)
  {
    hide Xor, Plus, Times, DivMod;
    var p := Plus(gf, Times(gf, q, d), r);
    var (q', r') := DivMod(gf, p, d);
    DivModCorrect(gf, p, d);
    var qs, rs := Plus(gf, q, q'), Plus(gf, r, r');
    TimesPlusLeft(gf, q, q', d);
    PlusShuffle(gf, Times(gf, q, d), r, Times(gf, q', d), r');
    PlusSelf(gf, p);
    PlusZero(gf, Times(gf, qs, d), rs);
    LenTimes(gf, qs, d);
    LenPlus(gf, r, r');
    PlusZero(gf, q, q');
    TimesNil(gf, d);
    PlusNil(gf, rs);
    PlusZero(gf, r, r');
  }

  // ----- powers of x -----

  lemma {:induction false} ShiftOk(gf: GenericGF, n: nat, p: Poly)
    requires gf.Valid() && Ok(gf, p)
    ensures Ok(gf, Shift(n, p))
    ensures Len(Shift(n, p)) == if p == Nil then 0 else n + Len(p)
  {
    if n > 0 {
      ShiftOk(gf, n - 1, p);
    }
  }

  lemma {:induction false} ShiftPlus(gf: GenericGF, n: nat, p: Poly, q: Poly)
    requires gf.Valid() && Ok(gf, p) && Ok(gf, q)
    ensures Ok(gf, Shift(n, p)) && Ok(gf, Shift(n, q))
    ensures Shift(n, Plus(gf, p, q)) == Plus(gf, Shift(n, p), Shift(n, q))
  {
    hide Xor, Plus;
    ShiftOk(gf, n, p);
    ShiftOk(gf, n, q);
    if n > 0 {
      ShiftOk(gf, n - 1, p);
      ShiftOk(gf, n - 1, q);
      ShiftPlus(gf, n - 1, p, q);
      CnPlus(gf, Shift(n - 1, p), Shift(n - 1, q));
    }
  }

  lemma {:induction false} ShiftTimes(gf: GenericGF, n: nat, p: Poly, q: Poly)
    requires gf.Valid() && Ok(gf, p) && Ok(gf, q)
    ensures Ok(gf, Shift(n, p))
    ensures Times(gf, Shift(n, p), q) == Shift(n, Times(gf, p, q))
  {
    hide Xor, Plus;
    ShiftOk(gf, n, p);
    if n > 0 {
      ShiftOk(gf, n - 1, p);
      ShiftTimes(gf, n - 1, p, q);
      TimesStep(gf, Shift(n, p), q);
      ScaleZero(gf, q);
      PlusNil(gf, Cn(0, Times(gf, Shift(n - 1, p), q)));
    }
  }

  lemma {:induction false} ShiftShift(m: nat, n: nat, p: Poly)
    ensures Shift(m, Shift(n, p)) == Shift(m + n, p)
  {
    if m > 0 {
      ShiftShift(m - 1, n, p);
    }
  }

  lemma XPowTimes(gf: GenericGF, n: nat, p: Poly)
    requires gf.Valid() && Ok(gf, p)
    ensures Ok(gf, XPow(n)) && Len(XPow(n)) == n + 1
    ensures Times(gf, XPow(n), p) == Shift(n, p) && Times(gf, p, XPow(n)) == Shift(n, p)
  {
    ShiftOk(gf, n, Const(1));
    ShiftTimes(gf, n, Const(1), p);
    TimesOne(gf, p);
    TimesComm(gf, p, XPow(n));
  }

  /** A non-zero factor can be cancelled. */
  lemma CancelFactor(gf: GenericGF, p: Poly, q: Poly, x: Poly)
    requires gf.Valid() && Ok(gf, p) && Ok(gf, q) && Ok(gf, x) && x != Nil
    requires Times(gf, p, x) == Times(gf, q, x)
    ensures p == q
  {
    hide Xor, Plus, Times;
    TimesPlusLeft(gf, p, q, x);
    PlusSelf(gf, Times(gf, p, x));
    LenTimes(gf, Plus(gf, p, q), x);
    PlusZero(gf, p, q);
  }

  // ----- roots -----

  /** The linear polynomial x + a. */
  ghost function Linear(a: nat): Poly {
    Cons(a, Cons(1, Nil))
  }

  lemma EvalLinear(gf: GenericGF, a: nat, v: nat)
    requires gf.Valid() && gf.Elem(a) && gf.Elem(v)
    ensures Ok(gf, Linear(a)) && Eval(gf, Linear(a), v) == Xor(a, v)
  {
    hide Xor;
    MulOne(gf, v);
    XorNil(1);
    EvalConst(gf, 1, v);
  }

  lemma EvalConst(gf: GenericGF, a: nat, v: nat)
    requires gf.Valid() && gf.Elem(a) && gf.Elem(v)
    ensures Ok(gf, Const(a)) && Eval(gf, Const(a), v) == a
  {
    hide Xor;
    XorNil(a);
    if a != 0 {
      assert MaxCoef(Cons(a, Nil)) == a && Lead(Cons(a, Nil)) == a;
    }
  }

  /** A root splits off a linear factor. */
  lemma SplitRoot(gf: GenericGF, p: Poly, a: nat) returns (q: Poly)
    requires gf.Valid() && Ok(gf, p) && gf.Elem(a) && Eval(gf, p, a) == 0
    ensures Ok(gf, q) && Ok(gf, Linear(a)) && p == Times(gf, q, Linear(a))
  {
    hide Xor, Plus, Times, DivMod, Eval;
    EvalLinear(gf, a, a);
    XorSelf(a);
    DivModCorrect(gf, p, Linear(a));
    q := DivMod(gf, p, Linear(a)).0;
    var r := DivMod(gf, p, Linear(a)).1;
    assert r == Const(Hd(r));
    EvalConst(gf, Hd(r), a);
    EvalPlus(gf, Times(gf, q, Linear(a)), r, a);
    EvalTimes(gf, q, Linear(a), a);
    XorNil(Hd(r));
    PlusNil(gf, Times(gf, q, Linear(a)));
  }

  ghost predicate Distinct(s: seq<nat>) {
    forall i, j :: 0 <= i < j < |s| ==> s[i] != s[j]
  }

  ghost predicate AllRoots(gf: GenericGF, p: Poly, s: seq<nat>)
    requires gf.Valid() && Ok(gf, p)
  {
    forall i :: 0 <= i < |s| ==> gf.Elem(s[i]) && Eval(gf, p, s[i]) == 0
  }

  /** A non-zero polynomial has at most degree many roots. */
  lemma {:induction false} RootCount(gf: GenericGF, p: Poly, s: seq<nat>)
    requires gf.Valid() && Ok(gf, p) && p != Nil && Distinct(s) && AllRoots(gf, p, s)
    ensures |s| < Len(p)
    decreases |s|
  {
    hide Xor, Plus, Times, DivMod, Eval;
    if |s| > 0 {
      var a, rest := s[|s| - 1], s[..|s| - 1];
      var q := SplitRoot(gf, p, a);
      TimesNil(gf, Linear(a));
      LenTimes(gf, q, Linear(a));
      forall i | 0 <= i < |rest|
        ensures gf.Elem(rest[i]) && Eval(gf, q, rest[i]) == 0
      {
        EvalTimes(gf, q, Linear(a), s[i]);
        EvalLinear(gf, a, s[i]);
        XorZero(a, s[i]);
        MulNonZero(gf, Eval(gf, q, s[i]), Xor(a, s[i]));
      }
      RootCount(gf, q, rest);
    }
  }
}
