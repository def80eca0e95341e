/** Bitwise operations of the C++ code on non-negative ints, written on natural numbers. */
module Bits {

  /** Two to the power of n. */
  function Pow2(n: nat): (r: nat)
    ensures r >= 1
  {
    if n == 0 then 1 else 2 * Pow2(n - 1)
  }

  lemma SmallPowers()
    ensures Pow2(2) == 4 && Pow2(4) == 16 && Pow2(5) == 32 && Pow2(6) == 64 && Pow2(8) == 256
    ensures Pow2(10) == 1024 && Pow2(11) == 2048 && Pow2(12) == 4096
  {
    assert Pow2(8) == 256;
  }

  /** The bitwise exclusive or of two non-negative ints (the operators ^ and ^= of C++). */
  function Xor(a: nat, b: nat): nat
    decreases a + b
  {
    if a == 0 && b == 0 then 0 else 2 * Xor(a / 2, b / 2) + (a + b) % 2
  }

  /** Xor takes the two numbers apart into their low bit and the bits above it. */
  lemma {:induction false} XorStep(a: nat, b: nat)
    ensures Xor(a, b) % 2 == (a + b) % 2 && Xor(a, b) / 2 == Xor(a / 2, b / 2)
  {
    if a == 0 && b == 0 {
      assert Xor(0, 0) == 0;
    } else {
      ModUnique(Xor(a, b), 2, Xor(a / 2, b / 2), (a + b) % 2);
    }
  }

  lemma {:induction false} XorNil(a: nat)
    ensures Xor(a, 0) == a && Xor(0, a) == a
  {
    if a != 0 {
      XorNil(a / 2);
    }
  }

  /** A number is determined by its low bit and the bits above it. */
  lemma SplitBits(a: int, b: int)
    requires a % 2 == b % 2 && a / 2 == b / 2
    ensures a == b
  {
  }

  lemma {:induction false} XorComm(a: nat, b: nat)
    ensures Xor(a, b) == Xor(b, a)
    decreases a + b
  {
    if a != 0 || b != 0 {
      XorComm(a / 2, b / 2);
    }
  }

  lemma {:induction false} XorSelf(a: nat)
    ensures Xor(a, a) == 0
  {
    if a != 0 {
      XorSelf(a / 2);
    }
  }

  lemma {:induction false} XorAssoc(a: nat, b: nat, c: nat)
    ensures Xor(Xor(a, b), c) == Xor(a, Xor(b, c))
    decreases a + b + c
  {
    hide Xor;
    XorNil(0);
    if a != 0 || b != 0 || c != 0 {
      XorStep(a, b);
      XorStep(b, c);
      XorStep(Xor(a, b), c);
      XorStep(a, Xor(b, c));
      XorAssoc(a / 2, b / 2, c / 2);
      LowBitAssoc(a, b, c, Xor(a, b), Xor(b, c));
      SplitBits(Xor(Xor(a, b), c), Xor(a, Xor(b, c)));
    }
  }

  lemma LowBitAssoc(a: nat, b: nat, c: nat, ab: nat, bc: nat)
    requires ab % 2 == (a + b) % 2 && bc % 2 == (b + c) % 2
    ensures (ab + c) % 2 == (a + bc) % 2
  {
  }

  /** Xor of two numbers below a power of two stays below it. */
  lemma {:induction false} XorBound(a: nat, b: nat, m: nat)
    requires a < Pow2(m) && b < Pow2(m)
    ensures Xor(a, b) < Pow2(m)
    decreases m
  {
    if m > 0 {
      XorStep(a, b);
      XorBound(a / 2, b / 2, m - 1);
    }
  }

  /** A number is recovered from a sum by adding the other summand again. */
  lemma {:induction false} XorCancel(a: nat, b: nat)
    ensures Xor(Xor(a, b), b) == a
    ensures Xor(b, Xor(b, a)) == a
  {
    XorAssoc(a, b, b);
    XorSelf(b);
    XorNil(a);
    XorAssoc(b, b, a);
  }

  /** Equal numbers are exactly those whose sum is zero. */
  lemma {:induction false} XorZero(a: nat, b: nat)
    ensures Xor(a, b) == 0 <==> a == b
  {
    XorSelf(b);
    XorCancel(a, b);
    XorNil(b);
  }

  /** The low m bits of a number, one by one. */
  ghost function LowBits(a: nat, m: nat): nat
    decreases m
  {
    if m == 0 then 0 else 2 * LowBits(a / 2, m - 1) + a % 2
  }

  lemma {:induction false} LowBitsMod(a: nat, m: nat)
    ensures LowBits(a, m) == a % Pow2(m)
    decreases m
  {
    if m > 0 {
      LowBitsMod(a / 2, m - 1);
      SplitMod(a, Pow2(m - 1));
    }
  }

  lemma LowBitsParts(a: nat, m: nat)
    requires m > 0
    ensures LowBits(a, m) / 2 == LowBits(a / 2, m - 1) && LowBits(a, m) % 2 == a % 2
  {
  }

  lemma {:induction false} XorLowBits(a: nat, b: nat, m: nat)
    ensures LowBits(Xor(a, b), m) == Xor(LowBits(a, m), LowBits(b, m))
    decreases m
  {
    if m == 0 {
      hide Xor;
      XorNil(0);
    } else {
      hide *;
      XorLowBits(a / 2, b / 2, m - 1);
      LowBitsParts(a, m);
      LowBitsParts(b, m);
      LowBitsParts(Xor(a, b), m);
      XorStep(a, b);
      XorStep(LowBits(a, m), LowBits(b, m));
      LowBitsSum(a, b, LowBits(a, m), LowBits(b, m));
      SplitBits(LowBits(Xor(a, b), m), Xor(LowBits(a, m), LowBits(b, m)));
    }
  }

  lemma LowBitsSum(a: nat, b: nat, x: nat, y: nat)
    requires x % 2 == a % 2 && y % 2 == b % 2
    ensures (x + y) % 2 == (a + b) % 2
  {
  }

  /** Keeping the low m bits (the operator & with 2^m - 1) respects Xor. */
  lemma XorMod(a: nat, b: nat, m: nat)
    ensures Xor(a, b) % Pow2(m) == Xor(a % Pow2(m), b % Pow2(m))
  {
    hide *;
    XorLowBits(a, b, m);
    LowBitsMod(a, m);
    LowBitsMod(b, m);
    LowBitsMod(Xor(a, b), m);
  }

  /** The low m bits of a number, taken apart in the same way. */
  lemma SplitMod(a: nat, p: nat)
    requires p >= 1
    ensures a % (2 * p) == 2 * ((a / 2) % p) + a % 2
    ensures a % (2 * p) / 2 == (a / 2) % p && a % (2 * p) % 2 == a % 2
  {
    var q, r := a / 2 / p, (a / 2) % p;
    assert a == 2 * (p * q + r) + a % 2;
    ModUnique(a, 2 * p, q, 2 * r + a % 2) by {
      assert 2 * p * q == 2 * (p * q);
    }
    ModUnique(a % (2 * p), 2, r, a % 2);
  }

  /** Quotient and remainder are determined by the division equation. */
  lemma ModUnique(a: int, n: int, q: int, r: int)
    requires n > 0 && 0 <= r < n && a == n * q + r
    ensures a / n == q && a % n == r
  {
    var d := a / n - q;
    assert n * d == r - a % n;
    MulBound(n, d);
  }

  lemma MulBound(n: int, d: int)
    requires n > 0 && -n < n * d < n
    ensures d == 0
  {
  }

  lemma MulStep(i: int, s: int)
    ensures (i + 1) * s == i * s + s
  {
  }

  lemma MulMonotone(i: int, n: int, s: nat)
    requires i <= n
    ensures i * s <= n * s
  {
    assert n * s == i * s + (n - i) * s;
    Positive(n - i, s);
  }

  lemma Positive(a: nat, b: nat)
    ensures a * b >= 0
  {
  }

  /** The i-th of n stretches of length s. */
  lemma Scaled(i: nat, n: nat, s: nat)
    requires i < n
    ensures 0 <= i * s <= i * s + s <= n * s
    ensures (i + 1) * s == i * s + s
  {
    Positive(i, s);
    MulStep(i, s);
    MulMonotone(i + 1, n, s);
  }

  lemma DivDiv(a: int, p: nat)
    requires p >= 1
    ensures a / 2 / p == a / (2 * p)
  {
    var q, r := a / 2 / p, (a / 2) % p;
    assert a == 2 * (p * q + r) + a % 2;
    ModUnique(a, 2 * p, q, 2 * r + a % 2) by {
      assert 2 * p * q == 2 * (p * q);
    }
  }
}
