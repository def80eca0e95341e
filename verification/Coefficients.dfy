/** Coefficient vectors as the C++ code stores them, highest power first, and the polynomials they stand for. */
module Coefficients {
  import opened Bits
  import opened GenericGFs
  import opened Polynomials
  import opened PolynomialDivision

  ghost function OfSeq(s: seq<nat>): Poly {
    if |s| == 0 then Nil else Cn(s[|s| - 1], OfSeq(s[..|s| - 1]))
  }

  ghost predicate Elems(gf: GenericGF, s: seq<nat>) {
    forall i :: 0 <= i < |s| ==> gf.Elem(s[i])
  }

  /** The leading coefficient is non-zero unless the polynomial is the constant 0. */
  predicate Normal(s: seq<nat>) {
    |s| == 1 || (|s| > 1 && s[0] != 0)
  }

  function Zeros(n: nat): (s: seq<nat>)
    ensures |s| == n && forall i :: 0 <= i < n ==> s[i] == 0
  {
    seq(n, i => 0)
  }

  function XorSeq(u: seq<nat>, v: seq<nat>): (s: seq<nat>)
    requires |u| == |v|
    ensures |s| == |u| && forall i :: 0 <= i < |s| ==> s[i] == Xor(u[i], v[i])
  {
    seq(|u|, i requires 0 <= i < |u| => Xor(u[i], v[i]))
  }

  ghost function ScaleSeq(gf: GenericGF, a: nat, v: seq<nat>): (s: seq<nat>)
    requires gf.Valid() && gf.Elem(a) && Elems(gf, v)
    ensures |s| == |v| && Elems(gf, s) && forall i :: 0 <= i < |s| ==> s[i] == gf.Multiply(a, v[i])
  {
    seq(|v|, i requires 0 <= i < |v| => gf.Multiply(a, v[i]))
  }

  lemma {:induction false} OfSeqOk(gf: GenericGF, s: seq<nat>)
    requires gf.Valid() && Elems(gf, s)
    ensures Ok(gf, OfSeq(s)) && Len(OfSeq(s)) <= |s|
  {
    if |s| > 0 {
      OfSeqOk(gf, s[..|s| - 1]);
      OkCn(gf, s[|s| - 1], OfSeq(s[..|s| - 1]));
    }
  }

  lemma ElemsSlice(gf: GenericGF, s: seq<nat>, i: nat)
    requires Elems(gf, s) && i <= |s|
    ensures Elems(gf, s[..i]) && Elems(gf, s[i..])
  {
  }

  lemma OfSeqSnoc(s: seq<nat>, c: nat)
    ensures OfSeq(s + [c]) == Cn(c, OfSeq(s))
  {
    assert (s + [c])[..|s|] == s;
  }

  /** The stored size of a normal vector is its degree plus one. */
  lemma {:induction false} OfSeqLen(s: seq<nat>)
    requires |s| > 0 && s[0] != 0
    ensures Len(OfSeq(s)) == |s|
  {
    if |s| > 1 {
      OfSeqLen(s[..|s| - 1]);
    } else {
      assert OfSeq(s[..0]) == Nil;
    }
  }

  lemma {:induction false} OfSeqZeros(n: nat)
    ensures OfSeq(Zeros(n)) == Nil
  {
    if n > 0 {
      OfSeqZeros(n - 1);
      assert Zeros(n)[..n - 1] == Zeros(n - 1);
    }
  }

  /** Degree, zero test and constant term can be read off a normal vector. */
  lemma NormalFacts(gf: GenericGF, s: seq<nat>)
    requires gf.Valid() && Elems(gf, s) && Normal(s)
    ensures Ok(gf, OfSeq(s)) && Degree(OfSeq(s)) == |s| - 1
    ensures s[0] == 0 <==> OfSeq(s) == Nil
    ensures s[|s| - 1] == Hd(OfSeq(s))
    ensures OfSeq(s) != Nil ==> Len(OfSeq(s)) == |s|
  {
    OfSeqOk(gf, s);
    if s[0] != 0 {
      OfSeqLen(s);
    } else {
      assert s == Zeros(1);
      OfSeqZeros(1);
    }
  }

  lemma {:induction false} OfSeqAppend(gf: GenericGF, s: seq<nat>, t: seq<nat>)
    requires gf.Valid() && Elems(gf, s) && Elems(gf, t)
    ensures Ok(gf, OfSeq(s)) && Ok(gf, OfSeq(t)) && Ok(gf, Shift(|t|, OfSeq(s)))
    ensures OfSeq(s + t) == Plus(gf, Shift(|t|, OfSeq(s)), OfSeq(t))
  {
    hide Xor, Plus, Ok;
    OfSeqOk(gf, s);
    OfSeqOk(gf, t);
    ShiftOk(gf, |t|, OfSeq(s));
    if |t| == 0 {
      assert s + t == s;
      PlusNil(gf, OfSeq(s));
    } else {
      var t', c := t[..|t| - 1], t[|t| - 1];
      var u, v := Shift(|t'|, OfSeq(s)), OfSeq(t');
      OfSeqAppend(gf, s, t');
      assert s + t == (s + t') + [c] && t == t' + [c];
      OfSeqSnoc(s + t', c);
      OkCn(gf, 0, u);
      OkCn(gf, c, v);
      PlusStep(gf, Cn(0, u), Cn(c, v));
      XorNil(c);
    }
  }

  lemma OfSeqLeadingZero(s: seq<nat>)
    requires |s| > 0 && s[0] == 0
    ensures OfSeq(s) == OfSeq(s[1..])
  {
    if |s| == 1 {
      assert OfSeq(s[..0]) == Nil;
    } else {
      OfSeqLeadingZero(s[..|s| - 1]);
      assert s[..|s| - 1][1..] == s[1..][..|s| - 2];
    }
  }

  lemma {:induction false} OfSeqLeadingZeros(s: seq<nat>, n: nat)
    requires n <= |s| && forall i :: 0 <= i < n ==> s[i] == 0
    ensures OfSeq(s) == OfSeq(s[n..])
  {
    if n == 0 {
      assert s[0..] == s;
    } else {
      OfSeqLeadingZero(s);
      OfSeqLeadingZeros(s[1..], n - 1);
      assert s[1..][n - 1..] == s[n..];
    }
  }

  lemma {:induction false} ShiftNil(n: nat)
    ensures Shift(n, Nil) == Nil
  {
    if n > 0 {
      ShiftNil(n - 1);
    }
  }

  lemma {:induction false} OfSeqTrailingZeros(s: seq<nat>, n: nat)
    ensures OfSeq(s + Zeros(n)) == Shift(n, OfSeq(s))
  {
    if n == 0 {
      assert s + Zeros(0) == s;
    } else {
      OfSeqTrailingZeros(s, n - 1);
      assert s + Zeros(n) == (s + Zeros(n - 1)) + [0];
      OfSeqSnoc(s + Zeros(n - 1), 0);
    }
  }

  lemma {:induction false} OfSeqXor(gf: GenericGF, u: seq<nat>, v: seq<nat>)
    requires gf.Valid() && |u| == |v| && Elems(gf, u) && Elems(gf, v)
    ensures Ok(gf, OfSeq(u)) && Ok(gf, OfSeq(v))
    ensures OfSeq(XorSeq(u, v)) == Plus(gf, OfSeq(u), OfSeq(v))
    decreases |u|
  {
    hide Xor, Plus, Ok;
    OfSeqOk(gf, u);
    OfSeqOk(gf, v);
    var n := |u| - 1;
    if n >= 0 {
      OfSeqXor(gf, u[..n], v[..n]);
      assert XorSeq(u, v)[..n] == XorSeq(u[..n], v[..n]);
      OfSeqOk(gf, u[..n]);
      OfSeqOk(gf, v[..n]);
      OkCn(gf, u[n], OfSeq(u[..n]));
      OkCn(gf, v[n], OfSeq(v[..n]));
      PlusStep(gf, OfSeq(u), OfSeq(v));
    } else {
      PlusNil(gf, Nil);
    }
  }

  lemma {:induction false} OfSeqScale(gf: GenericGF, a: nat, v: seq<nat>)
    requires gf.Valid() && gf.Elem(a) && Elems(gf, v)
    ensures Ok(gf, OfSeq(v))
    ensures OfSeq(ScaleSeq(gf, a, v)) == Scale(gf, a, OfSeq(v))
    decreases |v|
  {
    hide Xor, Plus;
    OfSeqOk(gf, v);
    var n := |v| - 1;
    if n >= 0 {
      OfSeqScale(gf, a, v[..n]);
      OfSeqOk(gf, v[..n]);
      assert ScaleSeq(gf, a, v)[..n] == ScaleSeq(gf, a, v[..n]);
      OkCn(gf, v[n], OfSeq(v[..n]));
      ScaleStep(gf, a, OfSeq(v));
    }
  }

  /** Adding v to a stretch of s adds the correspondingly shifted polynomial. */
  lemma XorSegment(gf: GenericGF, s: seq<nat>, at: nat, v: seq<nat>, s': seq<nat>)
    requires gf.Valid() && Elems(gf, s) && Elems(gf, v) && at + |v| <= |s| == |s'|
    requires forall k :: 0 <= k < |s| ==>
      s'[k] == if at <= k < at + |v| then Xor(s[k], v[k - at]) else s[k]
    ensures Ok(gf, OfSeq(s)) && Ok(gf, OfSeq(v)) && Ok(gf, Shift(|s| - at - |v|, OfSeq(v)))
    ensures OfSeq(s') == Plus(gf, OfSeq(s), Shift(|s| - at - |v|, OfSeq(v)))
  {
    hide Xor, Plus, Ok;
    var n := |s| - at - |v|;
    var pad := Zeros(at) + v + Zeros(n);
    forall k | 0 <= k < |s|
      ensures s'[k] == XorSeq(s, pad)[k]
    {
      XorNil(s[k]);
    }
    assert s' == XorSeq(s, pad);
    OfSeqXor(gf, s, pad);
    OfSeqOk(gf, v);
    ShiftOk(gf, n, OfSeq(v));
    OfSeqLeadingZeros(pad, at);
    assert pad[at..] == v + Zeros(n);
    OfSeqTrailingZeros(v, n);
  }
}
