/** The polynomial ring: lists of coefficients, constant term first, no zero at the far end; equal means identical. */
module Polynomials {
  import opened Bits
  import opened GenericGFs

  datatype Poly = Nil | Cons(c: nat, rest: Poly)

  /** Coefficients are field elements and the leading one is not zero. */
  ghost predicate Ok(gf: GenericGF, p: Poly) {
    MaxCoef(p) < gf.size && Lead(p) != 0
  }

  ghost function MaxCoef(p: Poly): nat {
    if p == Nil then 0
    else
      var m := MaxCoef(p.rest);
      if m < p.c then p.c else m
  }

  /** The leading coefficient; 1 for the zero polynomial, which has none. */
  ghost function Lead(p: Poly): nat {
    if p == Nil then 1 else if p.rest == Nil then p.c else Lead(p.rest)
  }

  ghost function Hd(p: Poly): nat {
    if p == Nil then 0 else p.c
  }

  ghost function Tl(p: Poly): Poly {
    if p == Nil then Nil else p.rest
  }

  /** c + x * p */
  ghost function Cn(c: nat, p: Poly): Poly {
    if c == 0 && p == Nil then Nil else Cons(c, p)
  }

  /** Number of coefficients: zero for the zero polynomial, degree plus one otherwise. */
  ghost function Len(p: Poly): nat {
    if p == Nil then 0 else 1 + Len(p.rest)
  }

  ghost function Plus(gf: GenericGF, p: Poly, q: Poly): (r: Poly)
    requires gf.Valid() && Ok(gf, p) && Ok(gf, q)
    ensures Ok(gf, r)
    ensures Hd(r) == Xor(Hd(p), Hd(q))
  {
    XorNil(Hd(p));
    XorNil(Hd(q));
    if p == Nil then q
    else if q == Nil then p
    else
      XorElem(gf, p.c, q.c);
      Cn(Xor(p.c, q.c), Plus(gf, p.rest, q.rest))
  }

  ghost function Scale(gf: GenericGF, a: nat, p: Poly): (r: Poly)
    requires gf.Valid() && Ok(gf, p) && gf.Elem(a)
    ensures Ok(gf, r)
  {
    if p == Nil then Nil else Cn(gf.Multiply(a, p.c), Scale(gf, a, p.rest))
  }

  ghost function Times(gf: GenericGF, p: Poly, q: Poly): (r: Poly)
    requires gf.Valid() && Ok(gf, p) && Ok(gf, q)
    ensures Ok(gf, r)
  {
    if p == Nil then Nil else Plus(gf, Scale(gf, p.c, q), Cn(0, Times(gf, p.rest, q)))
  }

  ghost function Eval(gf: GenericGF, p: Poly, a: nat): (r: nat)
    requires gf.Valid() && Ok(gf, p) && gf.Elem(a)
    ensures gf.Elem(r)
  {
    if p == Nil then 0
    else
      XorElem(gf, p.c, gf.Multiply(a, Eval(gf, p.rest, a)));
      Xor(p.c, gf.Multiply(a, Eval(gf, p.rest, a)))
  }

  /** The constant polynomial. */
  ghost function Const(a: nat): Poly {
    Cn(a, Nil)
  }

  lemma OkCn(gf: GenericGF, c: nat, p: Poly)
    requires Ok(gf, p) && gf.Elem(c)
    ensures Ok(gf, Cn(c, p)) && Hd(Cn(c, p)) == c && Tl(Cn(c, p)) == p
  {
  }

  // ----- addition -----

  lemma PlusStep(gf: GenericGF, p: Poly, q: Poly)
    requires gf.Valid() && Ok(gf, p) && Ok(gf, q)
    ensures Plus(gf, p, q) == Cn(Xor(Hd(p), Hd(q)), Plus(gf, Tl(p), Tl(q)))
    ensures Tl(Plus(gf, p, q)) == Plus(gf, Tl(p), Tl(q))
  {
    hide Xor;
    XorNil(Hd(p));
    XorNil(Hd(q));
  }

  lemma {:induction false} PlusComm(gf: GenericGF, p: Poly, q: Poly)
    requires gf.Valid() && Ok(gf, p) && Ok(gf, q)
    ensures Plus(gf, p, q) == Plus(gf, q, p)
  {
    hide Xor;
    if p != Nil && q != Nil {
      XorComm(p.c, q.c);
      PlusComm(gf, p.rest, q.rest);
    }
  }

  lemma {:induction false} PlusAssoc(gf: GenericGF, p: Poly, q: Poly, r: Poly)
    requires gf.Valid() && Ok(gf, p) && Ok(gf, q) && Ok(gf, r)
    ensures Plus(gf, Plus(gf, p, q), r) == Plus(gf, p, Plus(gf, q, r))
    decreases p
  {
    hide Xor;
    if p != Nil {
      PlusStep(gf, p, q);
      PlusStep(gf, q, r);
      PlusStep(gf, Plus(gf, p, q), r);
      PlusStep(gf, p, Plus(gf, q, r));
      XorAssoc(Hd(p), Hd(q), Hd(r));
      PlusAssoc(gf, Tl(p), Tl(q), Tl(r));
    }
  }

  lemma {:induction false} PlusSelf(gf: GenericGF, p: Poly)
    requires gf.Valid() && Ok(gf, p)
    ensures Plus(gf, p, p) == Nil
  {
    hide Xor;
    if p != Nil {
      XorSelf(p.c);
      PlusSelf(gf, p.rest);
    }
  }

  /** A summand can be moved to the other side of an equation. */
  lemma PlusCancel(gf: GenericGF, p: Poly, q: Poly)
    requires gf.Valid() && Ok(gf, p) && Ok(gf, q)
    ensures Plus(gf, Plus(gf, p, q), q) == p
    ensures Plus(gf, q, Plus(gf, q, p)) == p
  {
    hide Xor;
    PlusAssoc(gf, p, q, q);
    PlusAssoc(gf, q, q, p);
    PlusSelf(gf, q);
  }

  lemma PlusShuffle(gf: GenericGF, a: Poly, b: Poly, c: Poly, d: Poly)
    requires gf.Valid() && Ok(gf, a) && Ok(gf, b) && Ok(gf, c) && Ok(gf, d)
    ensures Plus(gf, Plus(gf, a, b), Plus(gf, c, d)) == Plus(gf, Plus(gf, a, c), Plus(gf, b, d))
  {
    hide Xor, Plus;
    PlusAssoc(gf, a, b, Plus(gf, c, d));
    PlusAssoc(gf, b, c, d);
    PlusComm(gf, b, c);
    PlusAssoc(gf, c, b, d);
    PlusAssoc(gf, a, c, Plus(gf, b, d));
  }

  lemma {:induction false} LenPlus(gf: GenericGF, p: Poly, q: Poly)
    requires gf.Valid() && Ok(gf, p) && Ok(gf, q)
    ensures Len(Plus(gf, p, q)) <= (if Len(p) >= Len(q) then Len(p) else Len(q))
    ensures Len(p) > Len(q) ==> Len(Plus(gf, p, q)) == Len(p)
    ensures Len(q) > Len(p) ==> Len(Plus(gf, p, q)) == Len(q)
  {
    hide Xor;
    if p != Nil && q != Nil {
      LenPlus(gf, p.rest, q.rest);
    }
  }

  // ----- multiplication by field elements -----

  lemma ScaleStep(gf: GenericGF, a: nat, p: Poly)
    requires gf.Valid() && Ok(gf, p) && gf.Elem(a)
    ensures Scale(gf, a, p) == Cn(gf.Multiply(a, Hd(p)), Scale(gf, a, Tl(p)))
  {
  }

  lemma {:induction false} ScaleZero(gf: GenericGF, p: Poly)
    requires gf.Valid() && Ok(gf, p)
    ensures Scale(gf, 0, p) == Nil
  {
    if p != Nil {
      ScaleZero(gf, p.rest);
    }
  }

  lemma {:induction false} ScaleOne(gf: GenericGF, p: Poly)
    requires gf.Valid() && Ok(gf, p)
    ensures gf.Elem(1) && Scale(gf, 1, p) == p
  {
    if p != Nil {
      MulOne(gf, p.c);
      ScaleOne(gf, p.rest);
    }
  }

  lemma {:induction false} ScalePlus(gf: GenericGF, a: nat, p: Poly, q: Poly)
    requires gf.Valid() && Ok(gf, p) && Ok(gf, q) && gf.Elem(a)
    ensures Scale(gf, a, Plus(gf, p, q)) == Plus(gf, Scale(gf, a, p), Scale(gf, a, q))
  {
    hide Xor;
    if p != Nil && q != Nil {
      var s, t := Scale(gf, a, p), Scale(gf, a, q);
      MulDistributes(gf, a, p.c, q.c);
      ScalePlus(gf, a, p.rest, q.rest);
      PlusStep(gf, s, t);
      PlusStep(gf, p, q);
      ScaleStep(gf, a, Plus(gf, p, q));
    }
  }

  lemma {:induction false} ScaleXor(gf: GenericGF, a: nat, b: nat, p: Poly)
    requires gf.Valid() && Ok(gf, p) && gf.Elem(a) && gf.Elem(b)
    ensures gf.Elem(Xor(a, b))
    ensures Scale(gf, Xor(a, b), p) == Plus(gf, Scale(gf, a, p), Scale(gf, b, p))
  {
    hide Xor;
    XorElem(gf, a, b);
    if p != Nil {
      MulDistributes(gf, p.c, a, b);
      MulComm(gf, p.c, a);
      MulComm(gf, p.c, b);
      MulComm(gf, p.c, Xor(a, b));
      ScaleXor(gf, a, b, p.rest);
      PlusStep(gf, Scale(gf, a, p), Scale(gf, b, p));
    }
  }

  lemma {:induction false} ScaleScale(gf: GenericGF, a: nat, b: nat, p: Poly)
    requires gf.Valid() && Ok(gf, p) && gf.Elem(a) && gf.Elem(b)
    ensures Scale(gf, a, Scale(gf, b, p)) == Scale(gf, gf.Multiply(a, b), p)
  {
    if p != Nil {
      MulAssoc(gf, a, b, p.c);
      ScaleScale(gf, a, b, p.rest);
      ScaleStep(gf, a, Scale(gf, b, p));
    }
  }

  lemma {:induction false} LenScale(gf: GenericGF, a: nat, p: Poly)
    requires gf.Valid() && Ok(gf, p) && gf.Elem(a) && a != 0
    ensures Len(Scale(gf, a, p)) == Len(p)
  {
    if p != Nil {
      MulNonZero(gf, a, p.c);
      LenScale(gf, a, p.rest);
    }
  }

  // ----- multiplication -----

  lemma TimesStep(gf: GenericGF, p: Poly, q: Poly)
    requires gf.Valid() && Ok(gf, p) && Ok(gf, q)
    ensures Times(gf, p, q) == Plus(gf, Scale(gf, Hd(p), q), Cn(0, Times(gf, Tl(p), q)))
  {
    ScaleZero(gf, q);
  }

  lemma {:induction false} TimesNil(gf: GenericGF, p: Poly)
    requires gf.Valid() && Ok(gf, p)
    ensures Times(gf, p, Nil) == Nil && Times(gf, Nil, p) == Nil
  {
    if p != Nil {
      TimesNil(gf, p.rest);
    }
  }

  /** Multiplication by x distributes over sums. */
  lemma CnPlus(gf: GenericGF, p: Poly, q: Poly)
    requires gf.Valid() && Ok(gf, p) && Ok(gf, q)
    ensures Cn(0, Plus(gf, p, q)) == Plus(gf, Cn(0, p), Cn(0, q))
  {
    hide Xor;
    XorNil(0);
    PlusStep(gf, Cn(0, p), Cn(0, q));
  }

  lemma {:induction false} TimesPlusLeft(gf: GenericGF, p: Poly, p': Poly, q: Poly)
    requires gf.Valid() && Ok(gf, p) && Ok(gf, p') && Ok(gf, q)
    ensures Times(gf, Plus(gf, p, p'), q) == Plus(gf, Times(gf, p, q), Times(gf, p', q))
    decreases p
  {
    hide Xor;
    if p != Nil && p' != Nil {
      var s := Plus(gf, p, p');
      PlusStep(gf, p, p');
      TimesStep(gf, s, q);
      ScaleXor(gf, p.c, p'.c, q);
      TimesPlusLeft(gf, p.rest, p'.rest, q);
      CnPlus(gf, Times(gf, p.rest, q), Times(gf, p'.rest, q));
      PlusShuffle(gf, Scale(gf, p.c, q), Scale(gf, p'.c, q), Cn(0, Times(gf, p.rest, q)), Cn(0, Times(gf, p'.rest, q)));
    }
  }

  lemma {:induction false} TimesScaleLeft(gf: GenericGF, a: nat, p: Poly, q: Poly)
    requires gf.Valid() && Ok(gf, p) && Ok(gf, q) && gf.Elem(a)
    ensures Times(gf, Scale(gf, a, p), q) == Scale(gf, a, Times(gf, p, q))
    decreases p
  {
    hide Xor, Plus;
    if p != Nil {
      TimesScaleLeft(gf, a, p.rest, q);
      TimesStep(gf, Scale(gf, a, p), q);
      ScaleStep(gf, a, p);
      ScalePlus(gf, a, Scale(gf, p.c, q), Cn(0, Times(gf, p.rest, q)));
      ScaleScale(gf, a, p.c, q);
      ScaleStep(gf, a, Cn(0, Times(gf, p.rest, q)));
    }
  }

  /** Multiplication by b + x * q on the right. */
  lemma {:induction false} TimesCn(gf: GenericGF, p: Poly, b: nat, q: Poly)
    requires gf.Valid() && Ok(gf, p) && Ok(gf, q) && gf.Elem(b)
    ensures Times(gf, p, Cn(b, q)) == Plus(gf, Scale(gf, b, p), Cn(0, Times(gf, p, q)))
    decreases p
  {
    hide Xor;
    if p == Nil {
    } else {
      var bq, r := Cn(b, q), p.rest;
      TimesCn(gf, r, b, q);
      assert Times(gf, p, bq) == Plus(gf, Scale(gf, p.c, bq), Cn(0, Times(gf, r, bq)));
      MulComm(gf, p.c, b);
      ScaleStep(gf, p.c, bq);
      ScaleStep(gf, b, p);
      SwapTails(gf, gf.Multiply(b, p.c), Scale(gf, p.c, q), Scale(gf, b, r), Cn(0, Times(gf, r, q)));
    }
  }

  lemma SwapTails(gf: GenericGF, m: nat, s: Poly, t: Poly, u: Poly)
    requires gf.Valid() && gf.Elem(m) && Ok(gf, s) && Ok(gf, t) && Ok(gf, u)
    ensures Plus(gf, Cn(m, s), Cn(0, Plus(gf, t, u))) == Plus(gf, Cn(m, t), Cn(0, Plus(gf, s, u)))
  {
    hide Xor, Plus, Ok;
    OkCn(gf, m, s);
    OkCn(gf, m, t);
    OkCn(gf, 0, Plus(gf, t, u));
    OkCn(gf, 0, Plus(gf, s, u));
    XorNil(m);
    PlusStep(gf, Cn(m, s), Cn(0, Plus(gf, t, u)));
    PlusStep(gf, Cn(m, t), Cn(0, Plus(gf, s, u)));
    PlusAssoc(gf, s, t, u);
    PlusAssoc(gf, t, s, u);
    PlusComm(gf, s, t);
  }

  lemma {:induction false} TimesComm(gf: GenericGF, p: Poly, q: Poly)
    requires gf.Valid() && Ok(gf, p) && Ok(gf, q)
    ensures Times(gf, p, q) == Times(gf, q, p)
    decreases p
  {
    hide Xor, Plus;
    if p == Nil {
      TimesNil(gf, q);
    } else {
      TimesComm(gf, p.rest, q);
      TimesCn(gf, q, p.c, p.rest);
    }
  }

  lemma TimesPlusRight(gf: GenericGF, p: Poly, q: Poly, q': Poly)
    requires gf.Valid() && Ok(gf, p) && Ok(gf, q) && Ok(gf, q')
    ensures Times(gf, p, Plus(gf, q, q')) == Plus(gf, Times(gf, p, q), Times(gf, p, q'))
  {
    hide Xor, Plus, Times;
    TimesComm(gf, p, Plus(gf, q, q'));
    TimesPlusLeft(gf, q, q', p);
    TimesComm(gf, p, q);
    TimesComm(gf, p, q');
  }

  lemma {:induction false} TimesAssoc(gf: GenericGF, p: Poly, q: Poly, r: Poly)
    requires gf.Valid() && Ok(gf, p) && Ok(gf, q) && Ok(gf, r)
    ensures Times(gf, Times(gf, p, q), r) == Times(gf, p, Times(gf, q, r))
    decreases p
  {
    hide Xor, Plus;
    if p != Nil {
      var s, t := Scale(gf, p.c, q), Times(gf, p.rest, q);
      TimesPlusLeft(gf, s, Cn(0, t), r);
      TimesScaleLeft(gf, p.c, q, r);
      TimesAssoc(gf, p.rest, q, r);
      TimesStep(gf, Cn(0, t), r);
      ScaleZero(gf, r);
      assert Plus(gf, Nil, Cn(0, Times(gf, t, r))) == Cn(0, Times(gf, t, r)) by {
        PlusNil(gf, Cn(0, Times(gf, t, r)));
      }
    }
  }

  lemma PlusNil(gf: GenericGF, p: Poly)
    requires gf.Valid() && Ok(gf, p)
    ensures Plus(gf, Nil, p) == p && Plus(gf, p, Nil) == p
  {
  }

  lemma TimesConst(gf: GenericGF, a: nat, p: Poly)
    requires gf.Valid() && Ok(gf, p) && gf.Elem(a)
    ensures Times(gf, Const(a), p) == Scale(gf, a, p) && Times(gf, p, Const(a)) == Scale(gf, a, p)
  {
    TimesStep(gf, Const(a), p);
    PlusNil(gf, Scale(gf, a, p));
    TimesComm(gf, p, Const(a));
  }

  lemma TimesOne(gf: GenericGF, p: Poly)
    requires gf.Valid() && Ok(gf, p)
    ensures Times(gf, Const(1), p) == p && Times(gf, p, Const(1)) == p
  {
    TimesConst(gf, 1, p);
    ScaleOne(gf, p);
  }

  /** Degrees add: there are no zero divisors. */
  lemma {:induction false} LenTimes(gf: GenericGF, p: Poly, q: Poly)
    requires gf.Valid() && Ok(gf, p) && Ok(gf, q)
    ensures p != Nil && q != Nil ==> Len(Times(gf, p, q)) == Len(p) + Len(q) - 1
    ensures Times(gf, p, q) == Nil <==> p == Nil || q == Nil
    decreases p
  {
    hide Xor, Plus;
    TimesNil(gf, p);
    if p != Nil && q != Nil {
      var s, t := Scale(gf, p.c, q), Times(gf, p.rest, q);
      LenTimes(gf, p.rest, q);
      LenPlus(gf, s, Cn(0, t));
      if p.c == 0 {
        ScaleZero(gf, q);
      } else {
        LenScale(gf, p.c, q);
      }
    }
  }

  // ----- evaluation -----

  lemma {:induction false} EvalPlus(gf: GenericGF, p: Poly, q: Poly, a: nat)
    requires gf.Valid() && Ok(gf, p) && Ok(gf, q) && gf.Elem(a)
    ensures Eval(gf, Plus(gf, p, q), a) == Xor(Eval(gf, p, a), Eval(gf, q, a))
  {
    hide Xor;
    XorNil(Eval(gf, p, a));
    XorNil(Eval(gf, q, a));
    if p != Nil && q != Nil {
      var u, v := Eval(gf, p.rest, a), Eval(gf, q.rest, a);
      PlusStep(gf, p, q);
      EvalPlus(gf, p.rest, q.rest, a);
      MulDistributes(gf, a, u, v);
      EvalCn(gf, Xor(p.c, q.c), Plus(gf, p.rest, q.rest), a);
      XorShuffle(p.c, q.c, gf.Multiply(a, u), gf.Multiply(a, v));
    }
  }

  lemma XorShuffle(a: nat, b: nat, c: nat, d: nat)
    ensures Xor(Xor(a, b), Xor(c, d)) == Xor(Xor(a, c), Xor(b, d))
  {
    hide Xor;
    XorAssoc(a, b, Xor(c, d));
    XorAssoc(b, c, d);
    XorComm(b, c);
    XorAssoc(c, b, d);
    XorAssoc(a, c, Xor(b, d));
  }

  lemma EvalCn(gf: GenericGF, c: nat, p: Poly, a: nat)
    requires gf.Valid() && Ok(gf, p) && gf.Elem(a) && gf.Elem(c)
    ensures Eval(gf, Cn(c, p), a) == Xor(c, gf.Multiply(a, Eval(gf, p, a)))
  {
    hide Xor;
    XorNil(0);
  }

  lemma {:induction false} EvalScale(gf: GenericGF, b: nat, p: Poly, a: nat)
    requires gf.Valid() && Ok(gf, p) && gf.Elem(a) && gf.Elem(b)
    ensures Eval(gf, Scale(gf, b, p), a) == gf.Multiply(b, Eval(gf, p, a))
  {
    hide Xor;
    if p != Nil {
      var v := Eval(gf, p.rest, a);
      EvalScale(gf, b, p.rest, a);
      EvalCn(gf, gf.Multiply(b, p.c), Scale(gf, b, p.rest), a);
      MulDistributes(gf, b, p.c, gf.Multiply(a, v));
      MulAssoc(gf, a, b, v);
      MulAssoc(gf, b, a, v);
      MulComm(gf, a, b);
    }
  }

  lemma {:induction false} EvalTimes(gf: GenericGF, p: Poly, q: Poly, a: nat)
    requires gf.Valid() && Ok(gf, p) && Ok(gf, q) && gf.Elem(a)
    ensures Eval(gf, Times(gf, p, q), a) == gf.Multiply(Eval(gf, p, a), Eval(gf, q, a))
    decreases p
  {
    hide Xor, Plus;
    if p != Nil {
      var t := Times(gf, p.rest, q);
      var u, v := Eval(gf, p.rest, a), Eval(gf, q, a);
      EvalPlus(gf, Scale(gf, p.c, q), Cn(0, t), a);
      EvalScale(gf, p.c, q, a);
      EvalTimes(gf, p.rest, q, a);
      EvalCn(gf, 0, t, a);
      XorNil(gf.Multiply(a, Eval(gf, t, a)));
      MulAssoc(gf, a, u, v);
      MulDistributes(gf, v, p.c, gf.Multiply(a, u));
      MulComm(gf, v, p.c);
      MulComm(gf, v, gf.Multiply(a, u));
      MulComm(gf, v, Eval(gf, p, a));
    }
  }
}
