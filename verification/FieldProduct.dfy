/** What the tables compute: products of binary polynomials, without logarithms (core/src/GenericGF.cpp:79-107). */
module FieldProduct {
  import opened Bits
  import opened GenericGFs

  /** Shift and add: a times the polynomial whose coefficients are the bits of b, reduced at each shift. */
  ghost function Product(primitive: nat, size: nat, a: nat, b: nat): (r: nat)
    requires size > 0
    decreases b
  {
    if b == 0 then 0
    else Xor(if b % 2 == 1 then a else 0, Doubled(primitive, size, Product(primitive, size, a, b / 2)))
  }

  lemma ProductStep(p: nat, size: nat, a: nat, b: nat)
    requires size > 0 && b > 0
    ensures Product(p, size, a, b) == Xor(if b % 2 == 1 then a else 0, Doubled(p, size, Product(p, size, a, b / 2)))
  {
  }

  /** A number as the sum of its lowest bit and the rest. */
  lemma LowBit(b: nat)
    ensures Xor(b % 2, 2 * (b / 2)) == b
  {
    hide Xor;
    XorStep(b % 2, 2 * (b / 2));
    XorNil(b / 2);
    SplitBits(Xor(b % 2, 2 * (b / 2)), b);
  }

  /** Multiplication commutes with doubling. */
  lemma MultiplyDoubled(gf: GenericGF, p: nat, a: nat, y: nat)
    requires gf.TablesOf(p) && gf.Valid() && gf.Elem(a) && gf.Elem(y)
    ensures gf.Elem(Doubled(p, gf.size, y))
    ensures gf.Multiply(a, Doubled(p, gf.size, y)) == Doubled(p, gf.size, gf.Multiply(a, y))
  {
    hide Xor, Doubled;
    assert TimesAlpha(p, gf.size, 1, y) == Doubled(p, gf.size, TimesAlpha(p, gf.size, 0, y));
    if a == 0 {
      TimesAlphaZero(p, gf.size, 1);
      assert TimesAlpha(p, gf.size, 1, 0) == Doubled(p, gf.size, TimesAlpha(p, gf.size, 0, 0));
    } else {
      var k := gf.logTable[a];
      MultiplyAsPower(gf, p, a, y);
      MultiplyAsPower(gf, p, a, Doubled(p, gf.size, y));
      TimesAlphaAdd(p, gf.size, k, 1, y);
    }
  }

  /** The table product is multiplication of polynomials modulo the primitive one. */
  lemma {:induction false} TableProduct(gf: GenericGF, p: nat, a: nat, b: nat)
    requires gf.TablesOf(p) && gf.Valid() && gf.Elem(a) && gf.Elem(b)
    ensures gf.Multiply(a, b) == Product(p, gf.size, a, b)
    decreases b
  {
    hide *;
    BitIn(gf, b);
    SmallDouble(gf, p, b / 2);
    if b == 0 {
      MulNonZero(gf, a, b);
      ProductNone(p, gf.size, a);
    } else {
      var y := b / 2;
      TableProduct(gf, p, a, y);
      MultiplyDoubled(gf, p, a, y);
      LowBit(b);
      MulDistributes(gf, a, b % 2, 2 * y);
      MulOne(gf, a);
      MulNonZero(gf, a, 0);
      ProductStep(p, gf.size, a, b);
    }
  }

  lemma ProductNone(p: nat, size: nat, a: nat)
    requires size > 0
    ensures Product(p, size, a, 0) == 0
  {
  }

  lemma SmallDouble(gf: GenericGF, p: nat, y: nat)
    requires gf.Valid()
    ensures gf.size > 0 && (2 * y < gf.size ==> Doubled(p, gf.size, y) == 2 * y)
  {
  }

  lemma BitIn(gf: GenericGF, b: nat)
    requires gf.Valid() && gf.Elem(b)
    ensures gf.Elem(0) && gf.Elem(1) && gf.Elem(b % 2) && gf.Elem(b / 2) && gf.Elem(2 * (b / 2))
  {
  }

  /** Reducing the sum of the logarithms first, as with the smaller exponent table, makes no difference. */
  lemma SmallTable(gf: GenericGF, a: nat, b: nat)
    requires gf.Valid() && gf.Elem(a) && gf.Elem(b) && a != 0 && b != 0
    ensures var sum := gf.Log(a) + gf.Log(b);
      gf.Multiply(a, b) == gf.Exp(if sum < gf.size - 1 then sum else sum - (gf.size - 1))
  {
    var p: nat :| gf.TablesOf(p);
    var sum := gf.Log(a) + gf.Log(b);
    if sum >= gf.size - 1 {
      assert gf.ExpIs(p, sum) && gf.ExpIs(p, sum - (gf.size - 1));
      AlphaPeriod(p, gf.size, sum - (gf.size - 1));
    }
  }
}
