/** The primitive polynomials of the static fields (core/src/GenericGF.cpp:11-65). */
module PrimitivePolynomials {
  import opened Bits
  import opened GenericGFs
  import opened FieldOrder

  // ----- binary polynomials as bit vectors -----

  function Odd(x: bv16): bool {
    x & 1 != 0
  }

  function Half(x: bv16): bv16 {
    x >> 1
  }

  function Twice(x: bv16): bv16 {
    x << 1
  }

  function Sum(x: bv16, y: bv16): bv16 {
    x ^ y
  }

  predicate Meets(x: bv16, top: bv16) {
    x & top != 0
  }

  predicate Below(x: bv16, top: bv16) {
    x < top
  }

  lemma SumBits(x: bv16, y: bv16)
    ensures Half(Sum(x, y)) == Sum(Half(x), Half(y))
    ensures Odd(Sum(x, y)) <==> Odd(x) != Odd(y)
  {
  }

  lemma SumZero(x: bv16)
    ensures Sum(x, 0) == x && Sum(0, x) == x && Sum(x, x) == 0
    ensures Half(0) == 0 && !Odd(0) && Twice(0) == 0 && Half(1) == 0 && Odd(1)
  {
  }

  lemma SumComm(a: bv16, b: bv16)
    ensures Sum(a, b) == Sum(b, a)
  {
  }

  lemma SumAssoc(a: bv16, b: bv16, c: bv16)
    ensures Sum(Sum(a, b), c) == Sum(a, Sum(b, c))
  {
  }

  lemma SumShuffle(a: bv16, b: bv16, c: bv16, d: bv16)
    ensures Sum(Sum(a, b), Sum(c, d)) == Sum(Sum(a, c), Sum(b, d))
  {
    hide Sum;
    SumAssoc(a, b, Sum(c, d));
    SumAssoc(b, c, d);
    SumComm(b, c);
    SumAssoc(c, b, d);
    SumAssoc(a, c, Sum(b, d));
  }

  lemma TwiceBits(x: bv16)
    requires Below(x, 0x8000)
    ensures Half(Twice(x)) == x && !Odd(Twice(x))
  {
  }

  lemma TwiceSum(x: bv16, y: bv16)
    ensures Twice(Sum(x, y)) == Sum(Twice(x), Twice(y))
  {
  }

  lemma NothingMet(top: bv16)
    ensures !Meets(0, top)
  {
  }

  lemma HalfTop(x: bv16, top: bv16)
    requires !Odd(top)
    ensures Meets(Half(x), Half(top)) <==> Meets(x, top)
    ensures Below(x, top) ==> Below(Half(x), Half(top))
  {
  }

  lemma LowestBit(x: bv16)
    ensures Meets(x, 1) <==> Odd(x)
    ensures Below(x, 1) ==> x == 0
  {
  }

  lemma SameHalves(x: bv16, y: bv16)
    requires Half(x) == Half(y) && Odd(x) == Odd(y)
    ensures x == y
  {
  }

  lemma BelowTwelve(x: bv16, top: bv16)
    requires Below(x, top) && top <= 0x1000
    ensures Below(x, 0x8000) && !Meets(x, 0x1000)
  {
  }

  /** The number of the lowest n bits. */
  function Number(x: bv16, n: nat): nat {
    if n == 0 then 0 else (if Odd(x) then 1 else 0) + 2 * Number(Half(x), n - 1)
  }

  /** top is the bit of x^m. */
  predicate IsTop(top: bv16, m: nat) {
    if m == 0 then top == 1 else !Odd(top) && IsTop(Half(top), m - 1)
  }

  lemma {:induction false} MeetsSum(x: bv16, y: bv16, top: bv16, m: nat)
    requires IsTop(top, m)
    ensures Meets(Sum(x, y), top) <==> Meets(x, top) != Meets(y, top)
    decreases m
  {
    hide Odd, Half, Sum, Meets;
    SumBits(x, y);
    if m > 0 {
      MeetsSum(Half(x), Half(y), Half(top), m - 1);
      HalfTop(x, top);
      HalfTop(y, top);
      HalfTop(Sum(x, y), top);
    } else {
      LowestBit(x);
      LowestBit(y);
      LowestBit(Sum(x, y));
    }
  }

  lemma NumberStep(x: bv16, n: nat)
    requires n > 0
    ensures Number(x, n) / 2 == Number(Half(x), n - 1) && Number(x, n) % 2 == if Odd(x) then 1 else 0
    ensures Number(x, n) == (if Odd(x) then 1 else 0) + 2 * Number(Half(x), n - 1)
  {
    hide Odd, Half;
  }

  lemma NumberNil(x: bv16)
    ensures Number(x, 0) == 0
  {
  }

  lemma {:induction false} NumberXor(x: bv16, y: bv16, n: nat)
    ensures Number(Sum(x, y), n) == Xor(Number(x, n), Number(y, n))
    decreases n
  {
    hide *;
    if n == 0 {
      NumberNil(x);
      NumberNil(y);
      NumberNil(Sum(x, y));
      XorNil(0);
    } else {
      NumberXor(Half(x), Half(y), n - 1);
      NumberStep(x, n);
      NumberStep(y, n);
      NumberStep(Sum(x, y), n);
      XorStep(Number(x, n), Number(y, n));
      SumBits(x, y);
      SplitBits(Number(Sum(x, y), n), Xor(Number(x, n), Number(y, n)));
    }
  }

  lemma {:induction false} NumberBound(x: bv16, n: nat)
    ensures Number(x, n) < Pow2(n)
    decreases n
  {
    hide Odd, Half;
    if n > 0 {
      NumberBound(Half(x), n - 1);
    }
  }

  lemma NumberTwice(x: bv16, n: nat)
    requires Below(x, 0x8000)
    ensures Number(Twice(x), n + 1) == 2 * Number(x, n)
  {
    hide *;
    TwiceBits(x);
    NumberStep(Twice(x), n + 1);
  }

  lemma {:induction false} NumberTop(x: bv16, top: bv16, m: nat)
    requires IsTop(top, m)
    ensures Number(x, m + 1) == Number(x, m) + (if Meets(x, top) then Pow2(m) else 0)
    decreases m
  {
    hide Odd, Half, Meets, Number;
    NumberStep(x, m + 1);
    if m > 0 {
      NumberTop(Half(x), Half(top), m - 1);
      HalfTop(x, top);
      NumberStep(x, m);
    } else {
      LowestBit(x);
      NumberNil(x);
      NumberNil(Half(x));
    }
  }

  lemma {:induction false} NumberInjective(x: bv16, y: bv16, top: bv16, m: nat)
    requires IsTop(top, m) && Below(x, top) && Below(y, top) && Number(x, m) == Number(y, m)
    ensures x == y
    decreases m
  {
    hide Odd, Half, Below, Number;
    if m > 0 {
      HalfTop(x, top);
      HalfTop(y, top);
      NumberStep(x, m);
      NumberStep(y, m);
      NumberInjective(Half(x), Half(y), Half(top), m - 1);
      SameHalves(x, y);
    } else {
      LowestBit(x);
      LowestBit(y);
    }
  }

  // ----- powers of alpha -----

  /** Times alpha, modulo p. */
  function Next(p: bv16, top: bv16, x: bv16): bv16 {
    if Meets(Twice(x), top) then Sum(Twice(x), p) else Twice(x)
  }

  ghost function Walk(p: bv16, top: bv16, k: nat): bv16 {
    if k == 0 then 1 else Next(p, top, Walk(p, top, k - 1))
  }

  /** A polynomial p with leading bit top, of degree m between 1 and 12. */
  ghost predicate IsPolynomial(p: bv16, top: bv16, m: nat) {
    && 1 <= m && IsTop(top, m) && Below(1, top) && top <= 0x1000
    && forall x: bv16 :: Below(x, top) ==> Below(Next(p, top, x), top)
  }

  lemma {:induction false} WalkBelow(p: bv16, top: bv16, m: nat, k: nat)
    requires IsPolynomial(p, top, m)
    ensures Below(Walk(p, top, k), top)
  {
    hide Next, Below, IsTop;
    if k > 0 {
      WalkBelow(p, top, m, k - 1);
    }
  }

  lemma NextIsDoubled(p: bv16, top: bv16, m: nat, x: bv16)
    requires IsTop(top, m) && Below(x, 0x8000)
    ensures Pow2(m) > 0
    ensures Doubled(Number(p, m + 1), Pow2(m), Number(x, m)) == Number(Next(p, top, x), m)
  {
    hide Xor, Number, Doubled, IsTop, Meets, Twice, Sum, Below;
    var y, size, pn := Twice(x), Pow2(m), Number(p, m + 1);
    NumberTwice(x, m);
    NumberTop(y, top, m);
    NumberTop(p, top, m);
    NumberBound(x, m);
    NumberBound(y, m);
    NumberBound(p, m);
    DoubledForm(pn, size, m, Number(x, m));
    LowPart(Number(y, m + 1), size, Number(y, m));
    LowPart(pn, size, Number(p, m));
    NumberXor(y, p, m);
  }

  lemma LowPart(a: nat, size: nat, low: nat)
    requires low < size && (a == low || a == low + size)
    ensures a % size == low
  {
    if a == low {
      ModUnique(a, size, 0, low);
    } else {
      ModUnique(a, size, 1, low);
    }
  }

  /** The walk on bit vectors is the walk of the exponent table. */
  lemma {:induction false} WalkIsAlpha(p: bv16, top: bv16, m: nat, k: nat)
    requires IsPolynomial(p, top, m)
    ensures Pow2(m) >= 2 && Alpha(Number(p, m + 1), Pow2(m), k) == Number(Walk(p, top, k), m)
  {
    hide Doubled, Next, Number, Below, IsTop;
    assert Pow2(m) == 2 * Pow2(m - 1);
    if k == 0 {
      NumberOne(m);
    } else {
      WalkIsAlpha(p, top, m, k - 1);
      WalkBelow(p, top, m, k - 1);
      BelowTwelve(Walk(p, top, k - 1), top);
      NextIsDoubled(p, top, m, Walk(p, top, k - 1));
    }
  }

  lemma NumberOne(m: nat)
    requires m >= 1
    ensures Number(1, m) == 1
  {
    hide *;
    SumZero(0);
    NumberStep(1, m);
    NumberZero(m - 1);
  }

  lemma {:induction false} NumberZero(n: nat)
    ensures Number(0, n) == 0
  {
    hide *;
    SumZero(0);
    if n > 0 {
      NumberStep(0, n);
      NumberZero(n - 1);
    } else {
      NumberNil(0);
    }
  }

  lemma ReturnsWhen(p: bv16, top: bv16, m: nat, k: nat)
    requires IsPolynomial(p, top, m)
    ensures Returns(Number(p, m + 1), Pow2(m), k) <==> Walk(p, top, k) == 1
  {
    hide Walk, Number, Alpha, Below, IsTop, Next;
    WalkIsAlpha(p, top, m, k);
    WalkBelow(p, top, m, k);
    NumberOne(m);
    if Number(Walk(p, top, k), m) == 1 {
      NumberInjective(Walk(p, top, k), 1, top, m);
    }
  }

  // ----- squaring -----

  /** The sum of the entries that the bits of x select. */
  function Select(t: seq<bv16>, x: bv16): bv16 {
    if |t| == 0 then 0 else Sum(if Odd(x) then t[0] else 0, Select(t[1..], Half(x)))
  }

  /** The even powers of alpha. */
  ghost predicate IsTable(p: bv16, top: bv16, t: seq<bv16>) {
    && |t| == 13 && t[0] == 1
    && forall i :: 0 <= i < 12 ==> t[i + 1] == Next(p, top, Next(p, top, t[i]))
  }

  lemma NextSum(p: bv16, top: bv16, m: nat, x: bv16, y: bv16)
    requires IsTop(top, m)
    ensures Next(p, top, Sum(x, y)) == Sum(Next(p, top, x), Next(p, top, y))
    ensures Next(p, top, 0) == 0
  {
    hide Twice, Sum, Meets, IsTop;
    var x2, y2 := Twice(x), Twice(y);
    TwiceSum(x, y);
    MeetsSum(x2, y2, top, m);
    SumShuffle(x2, p, y2, p);
    SumShuffle(x2, p, y2, 0);
    SumShuffle(x2, 0, y2, p);
    SumZero(p);
    SumZero(x2);
    SumZero(y2);
    SumZero(Sum(x2, y2));
    NothingMet(top);
  }

  lemma SelectStep(t: seq<bv16>, x: bv16)
    requires |t| > 0
    ensures Select(t, x) == Sum(if Odd(x) then t[0] else 0, Select(t[1..], Half(x)))
  {
    hide Odd, Half, Sum;
  }

  lemma SelectNil(x: bv16)
    ensures Select([], x) == 0
  {
  }

  lemma {:induction false} SelectSum(t: seq<bv16>, x: bv16, y: bv16)
    ensures Select(t, Sum(x, y)) == Sum(Select(t, x), Select(t, y))
    decreases |t|
  {
    hide *;
    if |t| == 0 {
      SelectNil(x);
      SelectNil(y);
      SelectNil(Sum(x, y));
      SumZero(0);
    } else {
      SelectSum(t[1..], Half(x), Half(y));
      SumBits(x, y);
      SelectStep(t, x);
      SelectStep(t, y);
      SelectStep(t, Sum(x, y));
      var a, b := if Odd(x) then t[0] else 0, if Odd(y) then t[0] else 0;
      SumZero(t[0]);
      SumZero(0);
      SumShuffle(a, Select(t[1..], Half(x)), b, Select(t[1..], Half(y)));
    }
  }

  lemma {:induction false} SelectZero(t: seq<bv16>)
    ensures Select(t, 0) == 0
    decreases |t|
  {
    hide *;
    SumZero(0);
    if |t| > 0 {
      SelectStep(t, 0);
      SelectZero(t[1..]);
    } else {
      SelectNil(0);
    }
  }

  lemma {:induction false} SelectNext(p: bv16, top: bv16, m: nat, t: seq<bv16>, u: seq<bv16>, x: bv16)
    requires IsTop(top, m) && |t| == |u| && forall i :: 0 <= i < |t| ==> u[i] == Next(p, top, Next(p, top, t[i]))
    ensures Select(u, x) == Next(p, top, Next(p, top, Select(t, x)))
    decreases |t|
  {
    hide *;
    NextSum(p, top, m, 0, 0);
    if |t| == 0 {
      SelectNil(x);
    } else {
      SelectNext(p, top, m, t[1..], u[1..], Half(x));
      SelectStep(t, x);
      SelectStep(u, x);
      var a, rest := if Odd(x) then t[0] else 0, Select(t[1..], Half(x));
      NextSum(p, top, m, a, rest);
      NextSum(p, top, m, Next(p, top, a), Next(p, top, rest));
    }
  }

  /** The last entry does not matter when its bit is clear. */
  lemma {:induction false} SelectTrim(t: seq<bv16>, top: bv16, n: nat, x: bv16)
    requires |t| == n + 1 && IsTop(top, n) && !Meets(x, top)
    ensures Select(t, x) == Select(t[..n], x)
    decreases n
  {
    hide Odd, Half, Sum, Meets, Select;
    SelectStep(t, x);
    if n > 0 {
      HalfTop(x, top);
      SelectTrim(t[1..], Half(top), n - 1, Half(x));
      assert t[1..][..n - 1] == t[..n][1..];
      SelectStep(t[..n], x);
    } else {
      LowestBit(x);
      SelectNil(x);
      SelectNil(Half(x));
      SumZero(0);
    }
  }

  lemma SelectOne(p: bv16, top: bv16, t: seq<bv16>)
    requires IsTable(p, top, t)
    ensures Select(t, 1) == 1
  {
    hide Odd, Half, Sum, Next, Select;
    SumZero(1);
    SelectStep(t, 1);
    SelectZero(t[1..]);
  }

  lemma TwelveIsTop()
    ensures IsTop(0x1000, 12)
  {
    SixIsTop();
    assert Half(0x1000) == 0x800 && Half(0x800) == 0x400 && Half(0x400) == 0x200;
    assert Half(0x200) == 0x100 && Half(0x100) == 0x80 && Half(0x80) == 0x40;
    assert IsTop(0x40, 6) && IsTop(0x80, 7) && IsTop(0x100, 8) && IsTop(0x200, 9) && IsTop(0x400, 10) && IsTop(0x800, 11);
  }

  lemma SixIsTop()
    ensures IsTop(0x40, 6)
  {
    assert Half(0x40) == 0x20 && Half(0x20) == 0x10 && Half(0x10) == 8 && Half(8) == 4 && Half(4) == 2 && Half(2) == 1;
    assert IsTop(1, 0) && IsTop(2, 1) && IsTop(4, 2) && IsTop(8, 3) && IsTop(0x10, 4) && IsTop(0x20, 5);
  }

  lemma TwiceStep(p: bv16, top: bv16, m: nat, t: seq<bv16>, x: bv16)
    requires IsTop(top, m) && IsTable(p, top, t) && Select(t, p) == 0
    requires Below(x, 0x8000) && !Meets(x, 0x1000)
    ensures Select(t, Next(p, top, x)) == Next(p, top, Next(p, top, Select(t, x)))
  {
    hide *;
    var y := Twice(x);
    TwiceBits(x);
    TwelveIsTop();
    TableSize(p, top, t);
    SelectTrim(t, 0x1000, 12, x);
    SelectNext(p, top, m, t[..12], t[1..], x);
    SelectStep(t, y);
    SelectSum(t, y, p);
    SumZero(Select(t[1..], x));
    SumZero(Select(t, y));
    NextCases(p, top, x);
  }

  lemma TableSize(p: bv16, top: bv16, t: seq<bv16>)
    requires IsTable(p, top, t)
    ensures |t| == 13 && forall i :: 0 <= i < 12 ==> t[1..][i] == Next(p, top, Next(p, top, t[..12][i]))
  {
    hide Next;
  }

  lemma NextCases(p: bv16, top: bv16, x: bv16)
    ensures Next(p, top, x) == Sum(Twice(x), p) || Next(p, top, x) == Twice(x)
  {
  }

  lemma WalkTwo(p: bv16, top: bv16, k: nat)
    ensures Walk(p, top, k + 2) == Next(p, top, Next(p, top, Walk(p, top, k)))
  {
    hide Next;
  }

  /** Doubling the exponent squares: the square of a sum is the sum of the squares. */
  lemma {:induction false} WalkTwice(p: bv16, top: bv16, m: nat, t: seq<bv16>, k: nat)
    requires IsPolynomial(p, top, m) && IsTable(p, top, t) && Select(t, p) == 0
    ensures Walk(p, top, 2 * k) == Select(t, Walk(p, top, k))
  {
    hide Select, IsTable, Next, IsTop, Below;
    if k == 0 {
      SelectOne(p, top, t);
    } else {
      WalkTwice(p, top, m, t, k - 1);
      WalkBelow(p, top, m, k - 1);
      BelowTwelve(Walk(p, top, k - 1), top);
      TwiceStep(p, top, m, t, Walk(p, top, k - 1));
      WalkTwo(p, top, 2 * (k - 1));
      assert 2 * (k - 1) + 2 == 2 * k;
    }
  }

  // ----- squares of polynomials of degree at most twelve -----

  function Term(x: bv16, bit: bv16, v: bv16): bv16 {
    if Meets(x, bit) then v else 0
  }

  /** The i-th half of a number. */
  function Halved(x: bv16, i: nat): bv16 {
    if i == 0 then x else Half(Halved(x, i - 1))
  }

  lemma ShiftedBits(x: bv16)
    ensures Odd(x >> 0) == Meets(x, 1) && Odd(x >> 1) == Meets(x, 2) && Odd(x >> 2) == Meets(x, 4)
    ensures Odd(x >> 3) == Meets(x, 8) && Odd(x >> 4) == Meets(x, 0x10) && Odd(x >> 5) == Meets(x, 0x20)
    ensures Odd(x >> 6) == Meets(x, 0x40) && Odd(x >> 7) == Meets(x, 0x80) && Odd(x >> 8) == Meets(x, 0x100)
    ensures Odd(x >> 9) == Meets(x, 0x200) && Odd(x >> 10) == Meets(x, 0x400) && Odd(x >> 11) == Meets(x, 0x800)
    ensures Odd(x >> 12) == Meets(x, 0x1000)
  {
  }

  lemma Shifted(x: bv16)
    ensures Half(x >> 0) == x >> 1 && Half(x >> 1) == x >> 2 && Half(x >> 2) == x >> 3 && Half(x >> 3) == x >> 4
    ensures Half(x >> 4) == x >> 5 && Half(x >> 5) == x >> 6 && Half(x >> 6) == x >> 7 && Half(x >> 7) == x >> 8
    ensures Half(x >> 8) == x >> 9 && Half(x >> 9) == x >> 10 && Half(x >> 10) == x >> 11 && Half(x >> 11) == x >> 12
    ensures x >> 0 == x
  {
  }

  /** The i-th half is odd when the given bit is set. */
  predicate Matches(x: bv16, i: nat, bit: bv16) {
    Odd(Halved(x, i)) == Meets(x, bit)
  }

  lemma HalvedBits(x: bv16)
    ensures Matches(x, 0, 1) && Matches(x, 1, 2) && Matches(x, 2, 4) && Matches(x, 3, 8)
    ensures Matches(x, 4, 0x10) && Matches(x, 5, 0x20) && Matches(x, 6, 0x40) && Matches(x, 7, 0x80)
    ensures Matches(x, 8, 0x100) && Matches(x, 9, 0x200) && Matches(x, 10, 0x400) && Matches(x, 11, 0x800)
    ensures Matches(x, 12, 0x1000)
  {
    hide Odd, Half, Meets;
    ShiftedBits(x);
    Shifted(x);
    assert Halved(x, 0) == x >> 0 && Halved(x, 1) == x >> 1 && Halved(x, 2) == x >> 2 && Halved(x, 3) == x >> 3;
    assert Halved(x, 4) == x >> 4 && Halved(x, 5) == x >> 5 && Halved(x, 6) == x >> 6 && Halved(x, 7) == x >> 7;
    assert Halved(x, 8) == x >> 8 && Halved(x, 9) == x >> 9 && Halved(x, 10) == x >> 10 && Halved(x, 11) == x >> 11;
    assert Halved(x, 12) == x >> 12;
  }

  /** Four terms and what follows. */
  function Four(x: bv16, b: bv16, v0: bv16, v1: bv16, v2: bv16, v3: bv16, rest: bv16): bv16 {
    Sum(Term(x, b, v0), Sum(Term(x, b << 1, v1), Sum(Term(x, b << 2, v2), Sum(Term(x, b << 3, v3), rest))))
  }

  /** The sum of the terms of a table. */
  function Chosen(t: seq<bv16>, x: bv16): bv16
    requires |t| == 13
  {
    Four(x, 1, t[0], t[1], t[2], t[3], Four(x, 0x10, t[4], t[5], t[6], t[7],
      Four(x, 0x100, t[8], t[9], t[10], t[11], Term(x, 0x1000, t[12]))))
  }

  /** The terms from the i-th on. */
  function Selected(t: seq<bv16>, i: nat, x: bv16): bv16
    requires i <= |t|
  {
    Select(t[i..], Halved(x, i))
  }

  lemma SelectFrom(t: seq<bv16>, i: nat, x: bv16, bit: bv16)
    requires i < |t| && Matches(x, i, bit)
    ensures Selected(t, i, x) == Sum(Term(x, bit, t[i]), Selected(t, i + 1, x))
  {
    hide Select, Odd, Half, Sum, Meets;
    SelectStep(t[i..], Halved(x, i));
    assert t[i..][1..] == t[i + 1..];
  }

  lemma SelectFour(t: seq<bv16>, i: nat, x: bv16, b: bv16)
    requires i + 4 <= |t|
    requires Matches(x, i, b) && Matches(x, i + 1, b << 1) && Matches(x, i + 2, b << 2) && Matches(x, i + 3, b << 3)
    ensures Selected(t, i, x) == Four(x, b, t[i], t[i + 1], t[i + 2], t[i + 3], Selected(t, i + 4, x))
  {
    hide Select, Sum, Term, Matches, Selected;
    SelectFrom(t, i, x, b);
    SelectFrom(t, i + 1, x, b << 1);
    SelectFrom(t, i + 2, x, b << 2);
    SelectFrom(t, i + 3, x, b << 3);
  }

  lemma SelectIsChosen(t: seq<bv16>, x: bv16)
    requires |t| == 13
    ensures Select(t, x) == Chosen(t, x)
  {
    hide Select, Sum, Term, Matches, Selected, Four;
    HalvedBits(x);
    SelectedEnds(t, x);
    SelectFour(t, 0, x, 1);
    SelectFour(t, 4, x, 0x10);
    SelectFour(t, 8, x, 0x100);
    SelectFrom(t, 12, x, 0x1000);
    SumZero(Term(x, 0x1000, t[12]));
  }

  lemma Tops()
    ensures IsTop(0x10, 4) && IsTop(0x40, 6) && IsTop(0x100, 8) && IsTop(0x400, 10) && IsTop(0x1000, 12)
  {
    SixIsTop();
    TwelveIsTop();
    assert Half(0x1000) == 0x800 && Half(0x800) == 0x400 && Half(0x400) == 0x200 && Half(0x200) == 0x100;
    assert Half(0x40) == 0x20 && Half(0x20) == 0x10;
    assert IsTop(0x20, 5) && IsTop(0x10, 4);
    assert IsTop(0x800, 11) && IsTop(0x400, 10) && IsTop(0x200, 9) && IsTop(0x100, 8);
  }

  lemma One(p: bv16, top: bv16)
    requires top & 2 == 0
    ensures Walk(p, top, 1) == 2
  {
    assert Next(p, top, 1) == 2;
    assert Walk(p, top, 0) == 1;
  }

  lemma OddNumber(p: bv16, n: nat)
    requires Odd(p) && n > 0
    ensures Number(p, n) % 2 == 1
  {
    hide *;
    NumberStep(p, n);
  }

  lemma FullPeriod(p: bv16, top: bv16, m: nat)
    requires IsPolynomial(p, top, m) && Odd(p) && Walk(p, top, 1) == Walk(p, top, Pow2(m))
    ensures Pow2(m) >= 2 && Returns(Number(p, m + 1), Pow2(m), Pow2(m) - 1)
  {
    hide *;
    var pn, size := Number(p, m + 1), Pow2(m);
    WalkIsAlpha(p, top, m, 1);
    WalkIsAlpha(p, top, m, size);
    OddNumber(p, m + 1);
    SizeIsPower(m);
    AlphaInjective(pn, size, 1, size);
  }

  lemma SizeIsPower(m: nat)
    ensures IsPowerOfTwo(Pow2(m))
  {
  }

  /**
   * A polynomial with its leading bit and degree, the even powers of alpha, the prime factors of the order and for each
   * of them the divisor that leaves it out.
   */
  datatype Candidate = Candidate(p: bv16, top: bv16, m: nat, squares: seq<bv16>, factors: seq<nat>, cofactors: seq<nat>) {
    ghost predicate Checked() {
      IsPolynomial(p, top, m) && Odd(p) && IsTable(p, top, squares) && Select(squares, p) == 0
    }

    /** The factors are those of 2^m - 1. */
    ghost predicate Ordered() {
      && |factors| == |cofactors| && Product(factors) == Pow2(m) - 1
      && forall i :: 0 <= i < |factors| ==> IsPrime(factors[i]) && factors[i] * cofactors[i] == Pow2(m) - 1
    }

    ghost function Power(k: nat): bv16 {
      Walk(p, top, k)
    }

    /** Alpha comes back after 2^m - 1 turns, but not after a divisor of that. */
    ghost predicate Returns() {
      Power(1) == Power(Pow2(m)) && forall i :: 0 <= i < |cofactors| ==> Power(cofactors[i]) != 1
    }
  }

  /** Reduction by the polynomial stays below its leading bit. */
  ghost predicate Reduces(p: bv16, top: bv16) {
    forall x: bv16 :: Below(x, top) ==> Below(Next(p, top, x), top)
  }

  /** The leading bits of the program's polynomials. */
  predicate Leads(top: bv16, m: nat) {
    || (top == 0x10 && m == 4) || (top == 0x40 && m == 6) || (top == 0x100 && m == 8) || (top == 0x400 && m == 10)
    || (top == 0x1000 && m == 12)
  }

  lemma LeadingBitReduces(p: bv16, top: bv16, m: nat)
    requires Leads(top, m) && Meets(p, top) && p < top + top
    ensures Reduces(p, top)
  {
  }

  lemma IsChecked(c: Candidate)
    requires Leads(c.top, c.m) && Meets(c.p, c.top) && c.p < c.top + c.top && Odd(c.p)
    requires IsTable(c.p, c.top, c.squares) && Chosen(c.squares, c.p) == 0
    ensures c.Checked()
  {
    Tops();
    LeadingBitReduces(c.p, c.top, c.m);
    hide Select, Chosen, Next, IsTop;
    SelectIsChosen(c.squares, c.p);
  }

  /** From one power to twice its exponent, and to the next one. */
  lemma Step(c: Candidate, k: nat, x: bv16)
    requires c.Checked() && c.Power(k) == x
    ensures c.Power(2 * k) == Chosen(c.squares, x) && c.Power(2 * k + 1) == Next(c.p, c.top, Chosen(c.squares, x))
  {
    hide Select, Next, IsPolynomial, Chosen;
    WalkTwice(c.p, c.top, c.m, c.squares, k);
    SelectIsChosen(c.squares, x);
    assert Walk(c.p, c.top, 2 * k + 1) == Next(c.p, c.top, Walk(c.p, c.top, 2 * k));
  }

  lemma First(c: Candidate)
    requires c.Checked() && c.top & 2 == 0
    ensures c.Power(1) == 2
  {
    One(c.p, c.top);
  }

  /** A polynomial whose alpha squares back to itself after m turns, but returns to one at no largest proper divisor. */
  lemma Primitive(c: Candidate)
    requires c.Checked() && c.Ordered() && c.Returns()
    ensures Cycles(Number(c.p, c.m + 1), Pow2(c.m))
  {
    hide IsPolynomial, IsTable, Select, Product, IsPrime, Walk, Number, Cycles;
    forall q: nat, n: nat | q in c.factors && Mul(q, n) == Pow2(c.m) - 1
      ensures Walk(c.p, c.top, n) != 1
    {
      var i :| 0 <= i < |c.factors| && c.factors[i] == q;
      SameCofactor(q, n, c.cofactors[i]);
      assert c.Power(c.cofactors[i]) != 1;
    }
    PrimitiveByOrder(c.p, c.top, c.m, c.factors);
  }

  lemma SameCofactor(q: nat, n: nat, k: nat)
    requires IsPrime(q) && Mul(q, n) == q * k
    ensures n == k
  {
    assert q * n == q * k && q > 0;
  }

  lemma PrimitiveByOrder(p: bv16, top: bv16, m: nat, factors: seq<nat>)
    requires IsPolynomial(p, top, m) && Odd(p) && Walk(p, top, 1) == Walk(p, top, Pow2(m))
    requires Pow2(m) - 1 == Product(factors) && forall i :: 0 <= i < |factors| ==> IsPrime(factors[i])
    requires forall q: nat, n: nat :: q in factors && Mul(q, n) == Pow2(m) - 1 ==> Walk(p, top, n) != 1
    ensures Cycles(Number(p, m + 1), Pow2(m))
  {
    hide *;
    var pn, size := Number(p, m + 1), Pow2(m);
    FullPeriod(p, top, m);
    SizeIsPower(m);
    OddNumber(p, m + 1);
    forall q: nat, n: nat | q in factors && Mul(q, n) == size - 1
      ensures !Returns(pn, size, n)
    {
      ReturnsWhen(p, top, m, n);
    }
    forall k: nat | 0 < k < size - 1
      ensures !Returns(pn, size, k)
    {
      FullOrder(pn, size, factors, k);
    }
    OrderCycles(pn, size);
  }

  lemma SelectedEnds(t: seq<bv16>, x: bv16)
    ensures Selected(t, 0, x) == Select(t, x) && Selected(t, |t|, x) == 0
  {
    assert t[0..] == t && t[|t|..] == [];
    SelectNil(Halved(x, |t|));
  }
}
