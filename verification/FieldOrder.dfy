/** When the powers of alpha run through a whole field: what is left to check of a polynomial (core/src/GenericGF.cpp:79-107). */
module FieldOrder {
  import opened Bits
  import opened GenericGFs

  // ----- prime factors -----

  function Mul(x: nat, y: nat): nat {
    x * y
  }

  ghost predicate IsPrime(q: nat) {
    q > 1 && forall x: nat, y: nat {:trigger Mul(x, y)} :: Mul(x, y) == q ==> x == 1 || y == 1
  }

  lemma SmallPrimes(q: nat)
    requires q in {3, 5, 7, 11, 13, 17, 31}
    ensures IsPrime(q)
  {
    forall x: nat, y: nat | Mul(x, y) == q
      ensures x == 1 || y == 1
    {
      NoSmallFactor(q, x, y);
    }
  }

  lemma NoSmallFactor(q: nat, x: nat, y: nat)
    requires q in {3, 5, 7, 11, 13, 17, 31} && x * y == q
    ensures x == 1 || y == 1
  {
    if x > y {
      NoSmallFactor(q, y, x);
    } else if x >= 6 {
      MulMonotone(6, x, y);
    } else {
      assert x == 0 || x == 1 || x == 2 || x == 3 || x == 4 || x == 5;
    }
  }

  /** A common divisor that is a combination of both numbers. */
  lemma {:induction false} Bezout(a: nat, b: nat) returns (d: nat, x: nat, y: nat, u: int, v: int)
    requires a > 0
    ensures d > 0 && a == d * x && b == d * y && u * a + v * b == d
    decreases b
  {
    if b == 0 {
      d, x, y, u, v := a, 1, 0, 1, 0;
    } else {
      var n, r := a / b, a % b;
      var x', y', u', v';
      d, x', y', u', v' := Bezout(b, r);
      x, y, u, v := n * x' + y', x', v', u' - v' * n;
      BezoutStep(a, b, n, r, d, x', y', u', v');
    }
  }

  lemma BezoutStep(a: nat, b: nat, n: nat, r: nat, d: nat, x: nat, y: nat, u: int, v: int)
    requires a == b * n + r && b == d * x && r == d * y && u * b + v * r == d
    ensures n * x + y >= 0 && a == d * (n * x + y) && v * a + (u - v * n) * b == d
  {
    assert d * (n * x + y) == d * x * n + d * y;
    assert v * a == v * (b * n) + v * r;
    assert (u - v * n) * b == u * b - v * (b * n);
  }

  /** A prime that divides a product divides a factor. */
  lemma Euclid(q: nat, e: nat, g: nat, t: nat) returns (c: nat)
    requires IsPrime(q) && e * g == q * t
    ensures e == q * c || g == q * c
  {
    var d, x, y, u, v := Bezout(q, e);
    assert Mul(d, x) == q;
    if x == 1 {
      c := y;
    } else {
      var w := u * g + v * t;
      CombineFactors(q, e, g, t, u, v, w);
      c := w;
    }
  }

  lemma CombineFactors(q: nat, e: nat, g: nat, t: nat, u: int, v: int, w: int)
    requires q > 0 && e * g == q * t && u * q + v * e == 1 && w == u * g + v * t
    ensures g == q * w && w >= 0
  {
    assert q * w == u * q * g + v * (q * t);
    assert v * (q * t) == v * e * g;
    assert (u * q + v * e) * g == u * q * g + v * e * g;
    if w < 0 {
      MulMonotone(w, -1, q);
    }
  }

  function Product(factors: seq<nat>): nat {
    if |factors| == 0 then 1 else factors[0] * Product(factors[1..])
  }

  /** A divisor of a product of primes is one or divisible by one of them. */
  lemma {:induction false} DivisorHasFactor(e: nat, g: nat, factors: seq<nat>) returns (q: nat, c: nat)
    requires forall i :: 0 <= i < |factors| ==> IsPrime(factors[i])
    requires e * g == Product(factors) && e != 1
    ensures q in factors && e == q * c
    decreases |factors|
  {
    if |factors| == 0 {
      OneFactor(e, g);
    } else {
      q := factors[0];
      c := Euclid(q, e, g, Product(factors[1..]));
      if e != q * c {
        CancelPrime(q, e, c, Product(factors[1..]));
        q, c := DivisorHasFactor(e, c, factors[1..]);
      }
    }
  }

  lemma OneFactor(e: nat, g: nat)
    requires e * g == 1
    ensures e == 1
  {
    if e >= 2 {
      MulMonotone(2, e, g);
    }
  }

  lemma CancelPrime(q: nat, e: nat, c: nat, t: nat)
    requires q > 0 && e * (q * c) == q * t
    ensures e * c == t
  {
    assert e * (q * c) == q * (e * c);
    if e * c < t {
      MulMonotone(e * c + 1, t, q);
      MulStep(e * c, q);
    } else if t < e * c {
      MulMonotone(t + 1, e * c, q);
      MulStep(t, q);
    }
  }

  // ----- exponents at which alpha returns to one -----

  ghost predicate Returns(p: nat, size: nat, k: nat) {
    size >= 2 && Alpha(p, size, k) == 1
  }

  lemma ReturnsSum(p: nat, size: nat, i: nat, j: nat)
    requires Returns(p, size, j)
    ensures Returns(p, size, i + j) <==> Returns(p, size, i)
  {
    TimesAlphaAdd(p, size, i, j, 1);
  }

  lemma {:induction false} ReturnsMultiple(p: nat, size: nat, i: nat, j: nat, n: nat)
    requires Returns(p, size, j)
    ensures Returns(p, size, i + n * j) <==> Returns(p, size, i)
  {
    if n > 0 {
      MulStep(n - 1, j);
      Positive(n - 1, j);
      ReturnsMultiple(p, size, i, j, n - 1);
      ReturnsSum(p, size, i + (n - 1) * j, j);
    }
  }

  /** With two exponents some common divisor is one, too. */
  lemma {:induction false} ReturnsDivisor(p: nat, size: nat, a: nat, b: nat) returns (d: nat, x: nat, y: nat)
    requires a > 0 && Returns(p, size, a) && Returns(p, size, b)
    ensures d > 0 && Returns(p, size, d) && a == d * x && b == d * y
    decreases b
  {
    hide Returns;
    if b == 0 {
      d, x, y := a, 1, 0;
    } else {
      var n, r := a / b, a % b;
      ReturnsMultiple(p, size, r, b, n);
      var x', y';
      d, x', y' := ReturnsDivisor(p, size, b, r);
      x, y := n * x' + y', x';
      assert d * (n * x' + y') == d * x' * n + d * y';
    }
  }

  /** No exponent before size - 1 is one when none of its largest proper divisors is. */
  lemma FullOrder(p: nat, size: nat, factors: seq<nat>, k: nat)
    requires size >= 2 && Returns(p, size, size - 1) && size - 1 == Product(factors)
    requires forall i :: 0 <= i < |factors| ==> IsPrime(factors[i])
    requires forall q: nat, n: nat :: q in factors && Mul(q, n) == size - 1 ==> !Returns(p, size, n)
    requires 0 < k < size - 1
    ensures !Returns(p, size, k)
  {
    hide *;
    if Returns(p, size, k) {
      var d, x, y := ReturnsDivisor(p, size, size - 1, k);
      ProperDivisor(size - 1, k, d, x, y);
      var q, c := DivisorHasFactor(x, d, factors);
      CofactorProduct(size - 1, x, d, q, c);
      ReturnsNone(p, size);
      ReturnsMultiple(p, size, 0, d, c);
    }
  }

  lemma ProperDivisor(n: nat, k: nat, d: nat, x: nat, y: nat)
    requires n == d * x && k == d * y && 0 < k < n
    ensures x != 1 && x * d == n
  {
    if x == 1 {
      assert y > 0;
      MulMonotone(1, y, d);
    }
  }

  lemma CofactorProduct(n: nat, x: nat, d: nat, q: nat, c: nat)
    requires n == x * d && x == q * c
    ensures c * d >= 0 && Mul(q, c * d) == n
  {
    assert q * c * d == q * (c * d);
    Positive(c, d);
  }

  lemma ReturnsNone(p: nat, size: nat)
    requires size >= 2
    ensures Returns(p, size, 0)
  {
  }

  // ----- all elements -----

  /** With an odd polynomial doubling loses nothing. */
  lemma DoubledInjective(p: nat, size: nat, x: nat, y: nat)
    requires IsPowerOfTwo(size) && size >= 2 && p % 2 == 1 && x < size && y < size
    requires Doubled(p, size, x) == Doubled(p, size, y)
    ensures x == y
  {
    hide Xor, Doubled;
    var z := Xor(x, y);
    DoubledLinear(p, size, x, y);
    XorZero(Doubled(p, size, x), Doubled(p, size, y));
    XorZero(x, y);
    OddNotZero(p, size, z);
  }

  lemma OddNotZero(p: nat, size: nat, z: nat)
    requires IsPowerOfTwo(size) && size >= 2 && p % 2 == 1 && z < size
    requires Doubled(p, size, z) == 0
    ensures z == 0
  {
    hide Xor;
    var m: nat :| size == Pow2(m);
    DoubledForm(p, size, m, z);
    assert size == 2 * Pow2(m - 1);
    SplitMod(2 * z, Pow2(m - 1));
    SplitMod(p, Pow2(m - 1));
    if 2 * z >= size {
      XorZero((2 * z) % size, p % size);
    } else {
      ModUnique(2 * z, size, 0, 2 * z);
    }
  }

  lemma {:induction false} AlphaInjective(p: nat, size: nat, i: nat, j: nat)
    requires IsPowerOfTwo(size) && size >= 2 && p % 2 == 1 && i <= j && Alpha(p, size, i) == Alpha(p, size, j)
    ensures Returns(p, size, j - i)
    decreases i
  {
    hide Doubled;
    if i > 0 {
      DoubledInjective(p, size, Alpha(p, size, i - 1), Alpha(p, size, j - 1));
      AlphaInjective(p, size, i - 1, j - 1);
    }
  }

  lemma {:induction false} AlphaNotZero(p: nat, size: nat, k: nat)
    requires IsPowerOfTwo(size) && size >= 2 && p % 2 == 1
    ensures Alpha(p, size, k) != 0
  {
    hide Doubled;
    if k > 0 {
      AlphaNotZero(p, size, k - 1);
      if Alpha(p, size, k) == 0 {
        OddNotZero(p, size, Alpha(p, size, k - 1));
      }
    }
  }

  /** The first n powers as a set of n elements, when they are distinct. */
  lemma {:induction false} PowersCount(p: nat, size: nat, n: nat) returns (s: set<nat>)
    requires size >= 2 && forall i: nat, j: nat :: i < j < n ==> Alpha(p, size, i) != Alpha(p, size, j)
    ensures |s| == n && forall v :: v in s <==> exists k: nat :: k < n && Alpha(p, size, k) == v
  {
    hide Alpha;
    if n == 0 {
      s := {};
    } else {
      s := PowersCount(p, size, n - 1);
      s := s + {Alpha(p, size, n - 1)};
    }
  }

  lemma {:induction false} CountBelow(s: set<nat>, n: nat)
    requires forall v :: v in s ==> 1 <= v <= n
    ensures |s| <= n && (|s| == n ==> forall v :: 1 <= v <= n ==> v in s)
    decreases n
  {
    if n > 0 {
      var t := s - {n};
      CountBelow(t, n - 1);
      assert n in s ==> s == t + {n};
      assert n !in s ==> s == t;
    } else {
      assert s == {};
    }
  }

  /** An odd polynomial for which alpha has full order is primitive. */
  lemma OrderCycles(p: nat, size: nat)
    requires IsPowerOfTwo(size) && size >= 2 && p % 2 == 1
    requires Returns(p, size, size - 1) && forall k: nat :: 0 < k < size - 1 ==> !Returns(p, size, k)
    ensures Cycles(p, size)
  {
    hide Alpha;
    forall i: nat, j: nat | i < j < size - 1
      ensures Alpha(p, size, i) != Alpha(p, size, j)
    {
      if Alpha(p, size, i) == Alpha(p, size, j) {
        AlphaInjective(p, size, i, j);
      }
    }
    var s := PowersCount(p, size, size - 1);
    forall v | v in s
      ensures 1 <= v <= size - 1
    {
      var k: nat :| k < size - 1 && Alpha(p, size, k) == v;
      AlphaNotZero(p, size, k);
    }
    CountBelow(s, size - 1);
    forall v | 1 <= v < size
      ensures InOrbit(p, size, v)
    {
      assert v in s;
    }
    assert Alpha(p, size, size - 1) == 1;
  }
}
