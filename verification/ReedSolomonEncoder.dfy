/** Systematic Reed-Solomon encoding with cached generators (core/src/ReedSolomonEncoder.h and .cpp). */
module ReedSolomonEncoders {
  import opened Bits
  import opened GenericGFs
  import opened Polynomials
  import opened PolynomialDivision
  import opened Coefficients
  import opened GenericGFPolys

  /** The product of the first n factors x + alpha^(base + i). */
  ghost function Generator(gf: GenericGF, n: nat): (g: Poly)
    requires gf.Valid() && n + gf.generatorBase <= 2 * gf.size
    ensures Ok(gf, g)
  {
    if n == 0 then Const(1)
    else
      EvalLinear(gf, gf.Exp(n - 1 + gf.generatorBase), 0);
      Times(gf, Generator(gf, n - 1), Linear(gf.Exp(n - 1 + gf.generatorBase)))
  }

  /** A message vanishes at the first n generator roots. */
  ghost predicate IsCodeword(gf: GenericGF, message: seq<nat>, n: nat)
    requires gf.Valid() && n + gf.generatorBase <= 2 * gf.size
  {
    && Elems(gf, message)
    && Ok(gf, OfSeq(message))
    && forall i: nat :: i < n ==> Syndrome(gf, message, i) == 0
  }

  ghost function Syndrome(gf: GenericGF, message: seq<nat>, i: nat): (r: nat)
    requires gf.Valid() && i + gf.generatorBase < 2 * gf.size && Elems(gf, message)
    ensures gf.Elem(r)
  {
    OfSeqOk(gf, message);
    Eval(gf, OfSeq(message), gf.Exp(i + gf.generatorBase))
  }

  datatype EncodeOutcome = Encoded | InvalidCount | RootOutOfRange

  class ReedSolomonEncoder {
    const field: GenericGF
    var cachedGenerators: seq<seq<nat>>

    /** Entry d of the cache is the generator of degree d. */
    ghost predicate Valid()
      reads this
    {
      && field.Valid()
      && |cachedGenerators| > 0
      && |cachedGenerators| - 1 + field.generatorBase <= 2 * field.size
      && forall d :: 0 <= d < |cachedGenerators| ==> IsGenerator(field, d, cachedGenerators[d])
    }

    constructor (field: GenericGF)
      requires field.Valid() && field.generatorBase <= 2 * field.size
      ensures Valid() && this.field == field && |cachedGenerators| == 1
    {
      this.field := field;
      this.cachedGenerators := [[1]];
      assert OfSeq([1]) == Cn(1, OfSeq([1][..0]));
    }

    /** Turns the generator of degree d - 1 into the one of degree d. */
    method MultiplyFactor(generator: GenericGFPoly, d: nat)
      requires field.Valid() && generator.Valid() && generator.field == field
      requires 0 < d && d + field.generatorBase <= 2 * field.size
      requires generator.P() == Generator(field, d - 1)
      modifies generator
      ensures generator.Valid() && generator.field == field && IsGenerator(field, d, generator.coefficients)
    {
      hide Xor, Plus, Times, Shift, Eval, Ok;
      var root := field.Exp(d - 1 + field.generatorBase);
      LinearCoefficients(field, root);
      var factor := new GenericGFPoly(field, [1, root]);
      generator.Multiply(factor);
    }

    /** The generator of the given degree, whatever was requested before; fails only past the exponent table. */
    method BuildGenerator(degree: nat) returns (ok: bool, generator: seq<nat>)
      requires Valid()
      modifies this`cachedGenerators
      ensures Valid() && old(cachedGenerators) <= cachedGenerators
      ensures ok <==> degree + field.generatorBase <= 2 * field.size
      ensures ok ==> degree < |cachedGenerators| && generator == cachedGenerators[degree] && IsGenerator(field, degree, generator)
    {
      hide Xor, Plus, Times, Generator, OfSeq, Elems, Ok;
      hide GenericGF.Valid;
      var cachedGenSize := |cachedGenerators|;
      if degree >= cachedGenSize {
        var lastGenerator := new GenericGFPoly(field, cachedGenerators[cachedGenSize - 1]);
        for d := cachedGenSize to degree + 1
          invariant fresh(lastGenerator) && lastGenerator.Valid() && lastGenerator.field == field
          invariant Valid() && old(cachedGenerators) <= cachedGenerators && |cachedGenerators| == d
          invariant lastGenerator.P() == Generator(field, d - 1)
        {
          if d - 1 + field.generatorBase >= 2 * field.size {
            return false, [];
          }
          MultiplyFactor(lastGenerator, d);
          cachedGenerators := cachedGenerators + [lastGenerator.coefficients];
        }
      }
      return true, cachedGenerators[degree];
    }

    /** Replaces the last n symbols by check words; refuses a count that leaves no data or is zero. */
    method Encode(message: array<nat>, n: nat) returns (outcome: EncodeOutcome)
      requires Valid()
      requires n < message.Length ==> Elems(field, message[..message.Length - n])
      modifies this`cachedGenerators, message
      ensures Valid()
      ensures outcome == InvalidCount <==> n == 0 || n >= message.Length
      ensures outcome == RootOutOfRange <==> 0 < n < message.Length && n + field.generatorBase > 2 * field.size
      ensures outcome != Encoded ==> message[..] == old(message[..])
      ensures outcome == Encoded ==>
        && message[..message.Length - n] == old(message[..message.Length - n])
        && IsCodeword(field, message[..], n)
    {
      hide Xor, Plus, Times, Shift, Generator, OfSeq, Elems, Ok, IsCodeword, IsGenerator;
      hide GenericGF.Valid;
      if n == 0 || n >= message.Length {
        return InvalidCount;
      }
      var k := message.Length - n;
      var ok, generator := BuildGenerator(n);
      if !ok {
        return RootOutOfRange;
      }
      ghost var data := message[..k];
      var coefficients, quotient := CheckWords(message[..k], n, generator);
      WriteTail(message, k, coefficients);
      assert message[..k] == data;
      EncodedIsCodeword(field, n, data, Zeros(n - |coefficients|), coefficients, quotient);
      return Encoded;
    }

    /** The remainder of data * x^n by the generator. */
    method CheckWords(data: seq<nat>, n: nat, generator: seq<nat>) returns (coefficients: seq<nat>, ghost quotient: Poly)
      requires field.Valid() && Elems(field, data) && |data| > 0 && n > 0
      requires n + field.generatorBase <= 2 * field.size && IsGenerator(field, n, generator)
      ensures Elems(field, coefficients) && |coefficients| <= n && Ok(field, OfSeq(coefficients)) && Ok(field, quotient)
      ensures Shift(n, OfSeq(data)) == Plus(field, Times(field, quotient, Generator(field, n)), OfSeq(coefficients))
    {
      hide Generator, Times, Plus, Xor, Shift, DivMod, Ok;
      var info := new GenericGFPoly(field, data);
      ScaleOne(field, info.P());
      info.MultiplyByMonomial(1, n);
      var divisor := new GenericGFPoly(field, generator);
      var q := new GenericGFPoly(field, [1]);
      GeneratorLen(field, n);
      var _ := info.Divide(divisor, q);
      coefficients, quotient := info.coefficients, q.P();
    }

    /** Right-aligns the coefficients behind position k and clears what lies between. */
    method WriteTail(message: array<nat>, k: nat, coefficients: seq<nat>)
      requires k + |coefficients| <= message.Length
      modifies message
      ensures message[..] == old(message[..k]) + (Zeros(message.Length - k - |coefficients|) + coefficients)
    {
      var numZeroCoefficients := message.Length - k - |coefficients|;
      for i := 0 to numZeroCoefficients
        invariant message[..k] == old(message[..k])
        invariant forall j :: k <= j < k + i ==> message[j] == 0
      {
        message[k + i] := 0;
      }
      for i := 0 to |coefficients|
        invariant message[..k] == old(message[..k])
        invariant forall j :: k <= j < k + numZeroCoefficients ==> message[j] == 0
        invariant forall j :: 0 <= j < i ==> message[k + numZeroCoefficients + j] == coefficients[j]
      {
        message[k + numZeroCoefficients + i] := coefficients[i];
      }
    }
  }

  ghost predicate IsGenerator(gf: GenericGF, d: nat, g: seq<nat>) {
    && gf.Valid() && d + gf.generatorBase <= 2 * gf.size
    && Elems(gf, g) && Normal(g) && OfSeq(g) == Generator(gf, d)
  }

  lemma LinearCoefficients(gf: GenericGF, a: nat)
    requires gf.Valid() && gf.Elem(a)
    ensures Elems(gf, [1, a]) && OfSeq([1, a]) == Linear(a) && Ok(gf, Linear(a))
  {
    hide Xor;
    var one: seq<nat> := [1];
    assert [1, a][..1] == one && one[..0] == [];
    assert OfSeq(one) == Cn(1, OfSeq([]));
    EvalLinear(gf, a, 0);
  }

  lemma {:induction false} GeneratorLen(gf: GenericGF, n: nat)
    requires gf.Valid() && n + gf.generatorBase <= 2 * gf.size
    ensures Len(Generator(gf, n)) == n + 1
  {
    hide Xor, Plus, Times, Eval;
    if n > 0 {
      var a := gf.Exp(n - 1 + gf.generatorBase);
      GeneratorLen(gf, n - 1);
      EvalLinear(gf, a, 0);
      LenTimes(gf, Generator(gf, n - 1), Linear(a));
    }
  }

  /** The generator vanishes at each of its roots. */
  lemma {:induction false} GeneratorRoot(gf: GenericGF, n: nat, i: nat)
    requires gf.Valid() && n + gf.generatorBase <= 2 * gf.size && i < n
    ensures Eval(gf, Generator(gf, n), gf.Exp(i + gf.generatorBase)) == 0
  {
    hide Xor, Plus, Times, Eval;
    var a, v := gf.Exp(n - 1 + gf.generatorBase), gf.Exp(i + gf.generatorBase);
    var g := Generator(gf, n - 1);
    EvalLinear(gf, a, v);
    EvalTimes(gf, g, Linear(a), v);
    MulNonZero(gf, Eval(gf, g, v), Xor(a, v));
    if i == n - 1 {
      XorSelf(v);
    } else {
      GeneratorRoot(gf, n - 1, i);
    }
  }

  /** Data followed by the remainder of data * x^n is a multiple of the generator. */
  lemma EncodedIsCodeword(gf: GenericGF, n: nat, data: seq<nat>, zeros: seq<nat>, rest: seq<nat>, q: Poly)
    requires gf.Valid() && n + gf.generatorBase <= 2 * gf.size && Elems(gf, data) && Elems(gf, rest) && Ok(gf, q)
    requires zeros == Zeros(|zeros|) && |zeros| + |rest| == n
    requires Ok(gf, OfSeq(rest)) && Shift(n, OfSeq(data)) == Plus(gf, Times(gf, q, Generator(gf, n)), OfSeq(rest))
    ensures IsCodeword(gf, data + (zeros + rest), n)
  {
    hide Xor, Plus, Times, Shift, Eval, Generator, Ok;
    var tail, message := zeros + rest, data + (zeros + rest);
    OfSeqOk(gf, message);
    OfSeqLeadingZeros(tail, |zeros|);
    assert tail[|zeros|..] == rest;
    OfSeqAppend(gf, data, tail);
    var g := Generator(gf, n);
    PlusCancel(gf, Times(gf, q, g), OfSeq(rest));
    assert OfSeq(message) == Times(gf, q, g);
    forall i: nat | i < n
      ensures Syndrome(gf, message, i) == 0
    {
      var v := gf.Exp(i + gf.generatorBase);
      GeneratorRoot(gf, n, i);
      EvalTimes(gf, q, g, v);
      MulNonZero(gf, Eval(gf, q, v), Eval(gf, g, v));
    }
  }
}
