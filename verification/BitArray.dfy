/** Bit strings, most significant bit first (core/src/BitArray.h). */
module BitArrays {
  import opened Bits

  type Bitstring = seq<bool>

  /** The numBits least significant bits of a value, in two's complement when it is negative. */
  function ToBits(value: int, numBits: nat): (r: Bitstring)
    ensures |r| == numBits
    decreases numBits
  {
    if numBits == 0 then [] else ToBits(value / 2, numBits - 1) + [value % 2 == 1]
  }

  function FromBits(bits: Bitstring): (r: nat)
    ensures r < Pow2(|bits|)
  {
    if |bits| == 0 then 0 else 2 * FromBits(bits[..|bits| - 1]) + (if bits[|bits| - 1] then 1 else 0)
  }

  /** Writing a number and reading it back. */
  lemma {:induction false} FromToBits(value: nat, n: nat)
    requires value < Pow2(n)
    ensures FromBits(ToBits(value, n)) == value
  {
    if n > 0 {
      FromToBits(value / 2, n - 1);
      assert ToBits(value, n)[..n - 1] == ToBits(value / 2, n - 1);
    }
  }

  /** Reading a string as a number and writing it again. */
  lemma {:induction false} ToFromBits(bits: Bitstring)
    ensures ToBits(FromBits(bits), |bits|) == bits
  {
    if |bits| > 0 {
      var init := bits[..|bits| - 1];
      ToFromBits(init);
      var b := if bits[|bits| - 1] then 1 else 0;
      ModUnique(FromBits(bits), 2, FromBits(init), b);
    }
  }

  /** Bit i from the left of the n-bit form is bit n - 1 - i of the value. */
  lemma {:induction false} BitAt(value: int, n: nat, i: nat)
    requires i < n
    ensures ToBits(value, n)[i] == ((value / Pow2(n - 1 - i)) % 2 == 1)
    decreases n
  {
    var init := ToBits(value / 2, n - 1);
    assert ToBits(value, n) == init + [value % 2 == 1];
    if i < n - 1 {
      BitAt(value / 2, n - 1, i);
      DivDiv(value, Pow2(n - 2 - i));
      assert Pow2(n - 1 - i) == 2 * Pow2(n - 2 - i);
    } else {
      assert Pow2(n - 1 - i) == 1;
    }
  }

  lemma {:induction false} FromBitsAppend(a: Bitstring, b: Bitstring)
    ensures FromBits(a + b) == FromBits(a) * Pow2(|b|) + FromBits(b)
    decreases |b|
  {
    if |b| == 0 {
      assert a + b == a;
    } else {
      var c, last := b[..|b| - 1], b[|b| - 1];
      FromBitsAppend(a, c);
      assert (a + b)[..|a + b| - 1] == a + c && (a + b)[|a + b| - 1] == last;
      var d := if last then 1 else 0;
      assert FromBits(a + b) == 2 * FromBits(a + c) + d;
      DoubleProduct(FromBits(a), Pow2(|c|));
    }
  }

  lemma DoubleProduct(a: nat, p: nat)
    ensures 2 * (a * p) == a * (2 * p)
  {
  }

  lemma {:induction false} ToBitsAppend(a: nat, b: nat, m: nat, n: nat)
    requires b < Pow2(n)
    ensures ToBits(a * Pow2(n) + b, m + n) == ToBits(a, m) + ToBits(b, n)
  {
    if n == 0 {
      assert ToBits(a, m) + ToBits(b, 0) == ToBits(a, m);
    } else {
      DoubleProduct(a, Pow2(n - 1));
      var v := a * Pow2(n) + b;
      assert v == 2 * (a * Pow2(n - 1) + b / 2) + b % 2;
      ModUnique(v, 2, a * Pow2(n - 1) + b / 2, b % 2);
      ToBitsAppend(a, b / 2, m, n - 1);
    }
  }

  function Ones(n: nat): (r: Bitstring)
    ensures |r| == n && forall i :: 0 <= i < n ==> r[i]
  {
    seq(n, i => true)
  }

  function Falses(n: nat): (r: Bitstring)
    ensures |r| == n && forall i :: 0 <= i < n ==> !r[i]
  {
    seq(n, i => false)
  }

  lemma {:induction false} ToBitsOnes(n: nat)
    ensures ToBits(-1, n) == Ones(n) && ToBits(Pow2(n) - 1, n) == Ones(n) && ToBits(0, n) == Falses(n)
  {
    if n > 0 {
      ToBitsOnes(n - 1);
      assert (Pow2(n) - 1) / 2 == Pow2(n - 1) - 1 && (Pow2(n) - 1) % 2 == 1;
      assert Ones(n) == Ones(n - 1) + [true];
      assert Falses(n) == Falses(n - 1) + [false];
    }
  }

  class BitArray {
    var bits: Bitstring

    constructor ()
      ensures bits == []
    {
      bits := [];
    }

    /** Appends the low bits of value, most significant first. */
    method AppendBits(value: int, numBits: nat)
      modifies this
      ensures bits == old(bits) + ToBits(value, numBits)
    {
      ghost var all := ToBits(value, numBits);
      var n := numBits;
      while n > 0
        invariant 0 <= n <= numBits
        invariant bits == old(bits) + all[..numBits - n]
      {
        BitAt(value, numBits, numBits - n);
        bits := bits + [(value / Pow2(n - 1)) % 2 == 1];
        n := n - 1;
      }
      assert all[..numBits] == all;
    }
  }

  /** A read cursor over a bit string. */
  class BitArrayView {
    const bits: Bitstring
    var cur: nat

    ghost predicate Valid()
      reads this
    {
      cur <= |bits|
    }

    /** What has not been read yet. */
    ghost function Rest(): Bitstring
      reads this
      requires Valid()
    {
      bits[cur..]
    }

    constructor (bits: Bitstring)
      ensures Valid() && this.bits == bits && Rest() == bits
    {
      this.bits := bits;
      this.cur := 0;
    }

    function Size(): (n: nat)
      reads this
      requires Valid()
      ensures n == |Rest()|
    {
      |bits| - cur
    }

    /** Fails, leaving the cursor alone, when fewer than n bits are left. */
    method PeekBits(n: nat) returns (ok: bool, value: nat)
      requires Valid()
      ensures ok <==> n <= |Rest()|
      ensures ok ==> value == FromBits(Rest()[..n])
    {
      if cur + n > |bits| {
        return false, 0;
      }
      value := 0;
      for i := 0 to n
        invariant value == FromBits(bits[cur..cur + i])
      {
        assert bits[cur..cur + i + 1][..i] == bits[cur..cur + i];
        value := 2 * value + (if bits[cur + i] then 1 else 0);
      }
      assert Rest()[..n] == bits[cur..cur + n];
      ok := true;
    }

    method ReadBits(n: nat) returns (ok: bool, value: nat)
      requires Valid()
      modifies this
      ensures Valid()
      ensures ok <==> n <= |old(Rest())|
      ensures ok ==> value == FromBits(old(Rest())[..n]) && Rest() == old(Rest())[n..]
      ensures !ok ==> Rest() == old(Rest())
    {
      ok, value := PeekBits(n);
      if ok {
        cur := cur + n;
      }
    }
  }

  /** Words of equal size, first word first. */
  function Words(bits: Bitstring, wordSize: nat): (r: seq<nat>)
    requires wordSize > 0
    decreases |bits|
  {
    if |bits| < wordSize then [] else [FromBits(bits[..wordSize])] + Words(bits[wordSize..], wordSize)
  }

  function WordBits(words: seq<nat>, wordSize: nat): (r: Bitstring)
    ensures |r| == |words| * wordSize
  {
    if |words| == 0 then [] else ToBits(words[0], wordSize) + WordBits(words[1..], wordSize)
  }

  lemma {:induction false} WordBitsSnoc(words: seq<nat>, w: nat, wordSize: nat)
    ensures WordBits(words + [w], wordSize) == WordBits(words, wordSize) + ToBits(w, wordSize)
  {
    hide ToBits;
    if |words| == 0 {
      assert words + [w] == [w] && [w][1..] == [];
      assert WordBits([w][1..], wordSize) == [];
    } else {
      WordBitsSnoc(words[1..], w, wordSize);
      assert (words + [w])[1..] == words[1..] + [w];
    }
  }

  // ----- words -----

  /** All words fit the word size. */
  predicate AllFit(words: seq<nat>, wordSize: nat) {
    forall k :: 0 <= k < |words| ==> words[k] < Pow2(wordSize)
  }

  lemma {:induction false} WordsFit(bits: Bitstring, wordSize: nat)
    requires wordSize > 0
    ensures AllFit(Words(bits, wordSize), wordSize)
    decreases |bits|
  {
    hide Pow2, FromBits;
    if |bits| >= wordSize {
      WordsFit(bits[wordSize..], wordSize);
    }
  }

  /** Cutting the concatenated words again. */
  lemma {:induction false} WordsOfWordBits(words: seq<nat>, wordSize: nat)
    requires wordSize > 0 && AllFit(words, wordSize)
    ensures Words(WordBits(words, wordSize), wordSize) == words
    decreases |words|
  {
    hide Pow2, FromBits, ToBits;
    if |words| > 0 {
      var rest := WordBits(words[1..], wordSize);
      assert (ToBits(words[0], wordSize) + rest)[..wordSize] == ToBits(words[0], wordSize);
      assert (ToBits(words[0], wordSize) + rest)[wordSize..] == rest;
      FromToBits(words[0], wordSize);
      WordsOfWordBits(words[1..], wordSize);
    }
  }

  /** Concatenating the cut words again. */
  lemma {:induction false} WordBitsOfWords(bits: Bitstring, wordSize: nat, n: nat)
    requires wordSize > 0 && |bits| == n * wordSize
    ensures WordBits(Words(bits, wordSize), wordSize) == bits
    decreases n
  {
    hide Pow2, FromBits, ToBits;
    if n > 0 {
      Scaled(n - 1, n, wordSize);
      var rest := bits[wordSize..];
      WordBitsOfWords(rest, wordSize, n - 1);
      ToFromBits(bits[..wordSize]);
      assert Words(bits, wordSize)[1..] == Words(rest, wordSize);
    }
  }

  /** Word k is made of the bits from k * wordSize on. */
  lemma {:induction false} WordAt(bits: Bitstring, wordSize: nat, n: nat, k: nat)
    requires wordSize > 0 && |bits| == n * wordSize && k < n
    ensures |Words(bits, wordSize)| == n
    ensures 0 <= k * wordSize <= k * wordSize + wordSize <= |bits|
    ensures Words(bits, wordSize)[k] == FromBits(bits[k * wordSize..k * wordSize + wordSize])
    decreases n
  {
    hide Words, FromBits;
    WordCount(bits, wordSize, n);
    Scaled(k, n, wordSize);
    WordsStep(bits, wordSize);
    if k > 0 {
      var rest, p := bits[wordSize..], k * wordSize;
      assert (k - 1) * wordSize == p - wordSize;
      WordAt(rest, wordSize, n - 1, k - 1);
      assert Words(bits, wordSize)[k] == Words(rest, wordSize)[k - 1];
      DropSlice(bits, wordSize, p - wordSize, p);
    }
  }

  lemma WordsStep(bits: Bitstring, wordSize: nat)
    requires wordSize > 0 && |bits| >= wordSize
    ensures Words(bits, wordSize) == [FromBits(bits[..wordSize])] + Words(bits[wordSize..], wordSize)
  {
  }

  lemma DropSlice(bits: Bitstring, n: nat, i: nat, j: nat)
    requires n + i <= n + j <= |bits|
    ensures bits[n..][i..j] == bits[n + i..n + j]
  {
  }

  lemma {:induction false} WordCount(bits: Bitstring, wordSize: nat, n: nat)
    requires wordSize > 0 && |bits| == n * wordSize
    ensures |Words(bits, wordSize)| == n
    decreases n
  {
    hide Pow2, FromBits;
    if n > 0 {
      Scaled(n - 1, n, wordSize);
      WordCount(bits[wordSize..], wordSize, n - 1);
    }
  }

  /** The number read from the bits i to i + count. */
  method ToInt(bits: Bitstring, pos: nat, count: nat) returns (res: nat)
    requires pos + count <= |bits|
    ensures res == FromBits(bits[pos..pos + count])
  {
    hide Pow2;
    res := 0;
    for i := 0 to count
      invariant res == FromBits(bits[pos..pos + i])
    {
      assert bits[pos..pos + i + 1][..i] == bits[pos..pos + i];
      res := 2 * res + (if bits[pos + i] then 1 else 0);
    }
  }

  /** The words behind the first offset bits, followed by zeros. */
  method ToInts(bits: Bitstring, wordSize: nat, totalWords: nat, offset: nat, ghost n: nat) returns (res: array<nat>)
    requires wordSize > 0 && |bits| == offset + n * wordSize && n <= totalWords
    ensures fresh(res) && res.Length == totalWords
    ensures res[..n] == Words(bits[offset..], wordSize)
    ensures forall k :: n <= k < totalWords ==> res[k] == 0
  {
    hide Pow2, FromBits, Words;
    res := new nat[totalWords](_ => 0);
    var i := offset;
    ghost var k := 0;
    ghost var words := Words(bits[offset..], wordSize);
    WordCount(bits[offset..], wordSize, n);
    while i < |bits|
      invariant 0 <= k <= n && i == offset + k * wordSize
      invariant forall j :: 0 <= j < k ==> res[j] == words[j]
      invariant forall j :: k <= j < totalWords ==> res[j] == 0
      decreases n - k
    {
      Below(k, n, wordSize);
      WordAt(bits[offset..], wordSize, n, k);
      ModUnique(i - offset, wordSize, k, 0);
      assert bits[offset..][k * wordSize..k * wordSize + wordSize] == bits[i..i + wordSize];
      var word := ToInt(bits, i, wordSize);
      res[(i - offset) / wordSize] := word;
      i := i + wordSize;
      k := k + 1;
      Scaled(k - 1, k, wordSize);
    }
    Below(k, n, wordSize);
    assert res[..n] == words;
  }

  lemma Below(k: nat, n: nat, w: nat)
    requires w > 0 && k <= n
    ensures k * w < n * w <==> k < n
  {
    if k < n {
      Scaled(k, n, w);
    }
  }
}
