/** Bit stuffing between the high-level bits and the codewords (AZEncoder.cpp:138-162, AZDecoder.cpp:156-168). */
module AztecStuffing {
  import opened Bits
  import opened BitArrays

  /** The next word, filled up with ones behind the end. */
  function NextWord(bits: Bitstring, wordSize: nat): (w: nat)
    ensures w < Pow2(wordSize)
  {
    FromBits(if |bits| >= wordSize then bits[..wordSize] else bits + Ones(wordSize - |bits|))
  }

  /** A word all of whose bits but the last are equal is sent with its last bit inverted to them and re-read from there. */
  predicate Stuffs(word: nat, wordSize: nat) {
    var high := word - word % 2; // word & mask
    high == Pow2(wordSize) - 2 || high == 0
  }

  function StuffedWord(word: nat, wordSize: nat): int {
    var high := word - word % 2;
    if high == Pow2(wordSize) - 2 then high else if high == 0 then 1 else word
  }

  function Consumed(word: nat, wordSize: nat): int {
    if Stuffs(word, wordSize) then wordSize - 1 else wordSize
  }

  function Drop(bits: Bitstring, n: nat): Bitstring {
    if |bits| <= n then [] else bits[n..]
  }

  function StuffedWords(bits: Bitstring, wordSize: nat): (r: seq<nat>)
    requires wordSize >= 2
    decreases |bits|
  {
    if |bits| == 0 then []
    else
      assert Pow2(wordSize) >= 2 by { Pow2AtLeastFour(wordSize); }
      var word := NextWord(bits, wordSize);
      [StuffedWord(word, wordSize)] + StuffedWords(Drop(bits, Consumed(word, wordSize)), wordSize)
  }

  lemma Pow2AtLeastFour(n: nat)
    requires n >= 2
    ensures Pow2(n) == 4 * Pow2(n - 2) >= 4
  {
  }

  /** The bits a word stands for, nothing for the two words that never occur. */
  datatype Unstuffing = Unstuffed(bits: Bitstring) | InvalidWord

  function UnstuffWord(word: nat, wordSize: nat): Unstuffing
    requires wordSize >= 2
  {
    if word == 0 || word == Pow2(wordSize) - 1 then InvalidWord
    else if word == 1 then Unstuffed(ToBits(0, wordSize - 1))
    else if word == Pow2(wordSize) - 2 then Unstuffed(ToBits(0xffffffff, wordSize - 1))
    else Unstuffed(ToBits(word, wordSize))
  }

  function Unstuff(words: seq<nat>, wordSize: nat): Unstuffing
    requires wordSize >= 2
  {
    if |words| == 0 then Unstuffed([])
    else
      match (Unstuff(words[..|words| - 1], wordSize), UnstuffWord(words[|words| - 1], wordSize))
      case (Unstuffed(a), Unstuffed(b)) => Unstuffed(a + b)
      case _ => InvalidWord
  }

  method StuffBits(bits: Bitstring, wordSize: nat) returns (out: BitArray)
    requires wordSize >= 2
    ensures fresh(out) && out.bits == WordBits(StuffedWords(bits, wordSize), wordSize)
  {
    hide FromBits, ToBits, Pow2, WordBits, StuffedWords, NextWord, Drop;
    out := new BitArray();
    var n := |bits|;
    var i := 0;
    ghost var done: seq<nat> := [];
    StuffedStart(bits, wordSize);
    while i < n
      invariant 0 <= i
      invariant fresh(out) && out.bits == WordBits(done, wordSize)
      invariant done + StuffedWords(Drop(bits, i), wordSize) == StuffedWords(bits, wordSize)
      decreases n - i
    {
      var word := ReadWord(bits, i, wordSize);
      Pow2AtLeastFour(wordSize);
      var mask := Pow2(wordSize) - 2;
      StuffedStep(bits, i, wordSize, done);
      WordBitsSnoc(done, StuffedWord(word, wordSize), wordSize);
      done := done + [StuffedWord(word, wordSize)];
      // the mask drops only the lowest bit of the word
      if word - word % 2 == mask {
        out.AppendBits(word - word % 2, wordSize);
        i := i - 1;
      } else if word - word % 2 == 0 {
        out.AppendBits(1, wordSize);
        i := i - 1;
      } else {
        out.AppendBits(word, wordSize);
      }
      i := i + wordSize;
    }
    StuffedEnd(bits, i, wordSize);
    assert done + [] == done;
  }

  lemma StuffedStart(bits: Bitstring, wordSize: nat)
    requires wordSize >= 2
    ensures WordBits([], wordSize) == []
    ensures [] + StuffedWords(Drop(bits, 0), wordSize) == StuffedWords(bits, wordSize)
  {
    assert Drop(bits, 0) == bits;
  }

  lemma StuffedEnd(bits: Bitstring, i: nat, wordSize: nat)
    requires wordSize >= 2 && i >= |bits|
    ensures StuffedWords(Drop(bits, i), wordSize) == []
  {
  }

  lemma StuffedStep(bits: Bitstring, i: nat, wordSize: nat, done: seq<nat>)
    requires wordSize >= 2 && i < |bits|
    ensures var word := NextWord(Drop(bits, i), wordSize);
      && StuffedWord(word, wordSize) >= 0
      && 0 < Consumed(word, wordSize)
      && done + [StuffedWord(word, wordSize)] + StuffedWords(Drop(bits, i + Consumed(word, wordSize)), wordSize)
         == done + StuffedWords(Drop(bits, i), wordSize)
  {
    Pow2AtLeastFour(wordSize);
    hide NextWord, Pow2;
    var n := Consumed(NextWord(Drop(bits, i), wordSize), wordSize);
    assert Drop(Drop(bits, i), n) == Drop(bits, i + n);
  }

  /** The word whose bits start at position i, ones standing in behind the end. */
  method ReadWord(bits: Bitstring, i: nat, wordSize: nat) returns (word: nat)
    ensures word == NextWord(Drop(bits, i), wordSize)
  {
    hide FromBits;
    ghost var rest := Drop(bits, i);
    ghost var padded := if |rest| >= wordSize then rest[..wordSize] else rest + Ones(wordSize - |rest|);
    word := 0;
    for j := 0 to wordSize
      invariant word == FromBits(padded[..j]) * Pow2(wordSize - j)
    {
      ReadWordStep(padded, j);
      // bit wordSize - 1 - j is still clear
      if i + j >= |bits| || bits[i + j] {
        word := word + Pow2(wordSize - 1 - j);
      }
    }
    assert padded[..wordSize] == padded;
  }

  lemma ReadWordStep(padded: Bitstring, j: nat)
    requires j < |padded|
    ensures FromBits(padded[..0]) == 0
    ensures FromBits(padded[..j + 1]) * Pow2(|padded| - j - 1) ==
            FromBits(padded[..j]) * Pow2(|padded| - j) + (if padded[j] then Pow2(|padded| - j - 1) else 0)
  {
    assert padded[..j + 1][..j] == padded[..j];
    var a, p, d := FromBits(padded[..j]), Pow2(|padded| - j - 1), if padded[j] then 1 else 0;
    assert FromBits(padded[..j + 1]) == 2 * a + d && Pow2(|padded| - j) == 2 * p;
    assert (2 * a + d) * p == a * (2 * p) + d * p;
  }

  method UnstuffBits(dataWords: seq<nat>, wordSize: nat) returns (ok: bool, correctedBits: BitArray)
    requires wordSize >= 2
    ensures fresh(correctedBits)
    ensures match Unstuff(dataWords, wordSize)
      case Unstuffed(bits) => ok && correctedBits.bits == bits
      case InvalidWord => !ok && correctedBits.bits == []
  {
    hide ToBits, Pow2;
    correctedBits := new BitArray();
    for k := 0 to |dataWords|
      invariant fresh(correctedBits) && Unstuff(dataWords[..k], wordSize) == Unstuffed(correctedBits.bits)
    {
      var dataWord := dataWords[k];
      assert dataWords[..k + 1][..k] == dataWords[..k];
      if dataWord == 0 || dataWord == Pow2(wordSize) - 1 {
        InvalidStays(dataWords, k + 1, |dataWords|, wordSize);
        assert dataWords[..|dataWords|] == dataWords;
        correctedBits := new BitArray();
        return false, correctedBits;
      } else if dataWord == 1 {
        correctedBits.AppendBits(0, wordSize - 1);
      } else if dataWord == Pow2(wordSize) - 2 {
        correctedBits.AppendBits(0xffffffff, wordSize - 1);
      } else {
        correctedBits.AppendBits(dataWord, wordSize);
      }
    }
    assert dataWords[..|dataWords|] == dataWords;
    ok := true;
  }

  lemma {:induction false} InvalidStays(words: seq<nat>, j: nat, k: nat, wordSize: nat)
    requires wordSize >= 2 && j <= k <= |words| && Unstuff(words[..j], wordSize) == InvalidWord
    ensures Unstuff(words[..k], wordSize) == InvalidWord
    decreases k
  {
    hide UnstuffWord;
    if j < k {
      InvalidStays(words, j, k - 1, wordSize);
      assert words[..k][..k - 1] == words[..k - 1];
    }
  }

  // ----- what stuffing promises -----

  /** No word is all zeros or all ones. */
  ghost predicate Mixed(words: seq<nat>, wordSize: nat) {
    forall k :: 0 <= k < |words| ==> 0 < words[k] < Pow2(wordSize) - 1
  }

  /** What one stuffed word decodes to: the bits it consumed, or all that were left and fewer than wordSize ones. */
  lemma StuffOneWord(bits: Bitstring, wordSize: nat) returns (pad: nat)
    requires 2 <= wordSize <= 32 && |bits| > 0
    ensures var word := NextWord(bits, wordSize); var n := Consumed(word, wordSize);
      && 0 < StuffedWord(word, wordSize) < Pow2(wordSize) - 1
      && pad < wordSize && (pad > 0 ==> |bits| <= n)
      && UnstuffWord(StuffedWord(word, wordSize), wordSize)
         == Unstuffed((if |bits| <= n then bits else bits[..n]) + Ones(pad))
  {
    Pow2AtLeastFour(wordSize);
    hide Pow2, ToBits, FromBits, Falses, Ones;
    var word := NextWord(bits, wordSize);
    OnesAndZeros(wordSize - 1);
    var padded := WordParts(bits, wordSize);
    if word - word % 2 == Pow2(wordSize) - 2 {
      pad := if |bits| >= wordSize - 1 then 0 else wordSize - 1 - |bits|;
      StuffedOnes(bits, padded, wordSize, pad);
    } else if word - word % 2 == 0 {
      pad := 0;
      StuffedZeros(bits, padded, wordSize);
    } else {
      pad := if |bits| >= wordSize then 0 else wordSize - |bits|;
      PlainWord(bits, padded, wordSize, pad);
    }
  }

  lemma WordParts(bits: Bitstring, wordSize: nat) returns (padded: Bitstring)
    requires wordSize >= 2
    ensures padded == if |bits| >= wordSize then bits[..wordSize] else bits + Ones(wordSize - |bits|)
    ensures var word := NextWord(bits, wordSize);
      && Pow2(wordSize) == 2 * Pow2(wordSize - 1) && word < Pow2(wordSize)
      && ToBits(word, wordSize) == padded
      && (word - word % 2 == Pow2(wordSize) - 2 ==> padded[..wordSize - 1] == Ones(wordSize - 1))
      && (word - word % 2 == 0 ==> padded[..wordSize - 1] == Falses(wordSize - 1))
  {
    hide ToBits, Ones, Falses, FromBits;
    padded := if |bits| >= wordSize then bits[..wordSize] else bits + Ones(wordSize - |bits|);
    var init := padded[..wordSize - 1];
    ToFromBits(padded);
    ToFromBits(init);
    ToBitsOnes(wordSize - 1);
    LastBit(padded);
  }

  lemma LastBit(bits: Bitstring)
    requires |bits| > 0
    ensures FromBits(bits) - FromBits(bits) % 2 == 2 * FromBits(bits[..|bits| - 1])
  {
    var a, d := FromBits(bits[..|bits| - 1]), if bits[|bits| - 1] then 1 else 0;
    ModUnique(FromBits(bits), 2, a, d);
  }

  lemma OnesAndZeros(n: nat)
    requires n <= 32
    ensures ToBits(0xffffffff, n) == Ones(n) && ToBits(0, n) == Falses(n)
  {
    assert Pow2(8) == 0x100;
    assert Pow2(16) == 0x1_0000;
    assert Pow2(24) == 0x100_0000;
    assert Pow2(32) == 0x1_0000_0000;
    hide Pow2, ToBits;
    ToBitsOnes(n);
    LowOnes(n, 32);
  }

  lemma PlainWord(bits: Bitstring, padded: Bitstring, wordSize: nat, pad: nat)
    requires padded == if |bits| >= wordSize then bits[..wordSize] else bits + Ones(wordSize - |bits|)
    requires pad == if |bits| >= wordSize then 0 else wordSize - |bits|
    ensures padded == (if |bits| <= wordSize then bits else bits[..wordSize]) + Ones(pad)
  {
  }

  /** The low n bits of 2^m - 1. */
  lemma {:induction false} LowOnes(n: nat, m: nat)
    requires n <= m
    ensures ToBits(Pow2(m) - 1, n) == Ones(n)
  {
    if n > 0 {
      LowOnes(n - 1, m - 1);
      assert (Pow2(m) - 1) / 2 == Pow2(m - 1) - 1 && (Pow2(m) - 1) % 2 == 1;
      assert Ones(n) == Ones(n - 1) + [true];
    }
  }

  lemma StuffedOnes(bits: Bitstring, padded: Bitstring, wordSize: nat, pad: nat)
    requires wordSize >= 2 && |bits| > 0
    requires padded == if |bits| >= wordSize then bits[..wordSize] else bits + Ones(wordSize - |bits|)
    requires padded[..wordSize - 1] == Ones(wordSize - 1)
    requires pad == if |bits| >= wordSize - 1 then 0 else wordSize - 1 - |bits|
    ensures Ones(wordSize - 1) == (if |bits| <= wordSize - 1 then bits else bits[..wordSize - 1]) + Ones(pad)
  {
    assert |bits| < wordSize - 1 ==> Ones(wordSize - 1) == bits + Ones(pad);
  }

  lemma StuffedZeros(bits: Bitstring, padded: Bitstring, wordSize: nat)
    requires wordSize >= 2 && |bits| > 0
    requires padded == if |bits| >= wordSize then bits[..wordSize] else bits + Ones(wordSize - |bits|)
    requires padded[..wordSize - 1] == Falses(wordSize - 1)
    ensures Falses(wordSize - 1) == (if |bits| <= wordSize - 1 then bits else bits[..wordSize - 1]) + Ones(0)
  {
    ghost var last := padded[..wordSize - 1][wordSize - 2];
    assert last == padded[wordSize - 2];
  }

  /** Stuffing is undone up to fewer than wordSize one bits at the end, and leaves no constant word. */
  lemma {:induction false} StuffUnstuff(bits: Bitstring, wordSize: nat) returns (pad: nat)
    requires 2 <= wordSize <= 32
    ensures Mixed(StuffedWords(bits, wordSize), wordSize)
    ensures pad < wordSize && Unstuff(StuffedWords(bits, wordSize), wordSize) == Unstuffed(bits + Ones(pad))
    decreases |bits|
  {
    hide Pow2, ToBits, UnstuffWord, NextWord, StuffedWord, Consumed, Ones, Unstuff;
    if |bits| == 0 {
      NothingStuffed(wordSize);
      pad := 0;
      assert bits + Ones(0) == [];
    } else {
      var p := StuffOneWord(bits, wordSize);
      var word := NextWord(bits, wordSize);
      var n := ConsumedBounds(word, wordSize);
      var rest := Drop(bits, n);
      var q := StuffUnstuff(rest, wordSize);
      var w := StuffedWord(word, wordSize);
      var words := StuffedWords(rest, wordSize);
      UnstuffCons(w, words, wordSize);
      pad := if |bits| <= n then p else q;
      JoinPadded(bits, n, p, q);
      if |bits| <= n {
        NothingStuffed(wordSize);
      }
    }
  }

  lemma NothingStuffed(wordSize: nat)
    requires wordSize >= 2
    ensures StuffedWords([], wordSize) == [] && Unstuff([], wordSize) == Unstuffed([])
  {
  }

  lemma JoinPadded(bits: Bitstring, n: nat, p: nat, q: nat)
    requires p > 0 ==> |bits| <= n
    ensures |bits| <= n ==> Drop(bits, n) == [] && bits + Ones(p) + [] == bits + Ones(p)
    ensures |bits| > n ==> bits[..n] + Ones(p) + (Drop(bits, n) + Ones(q)) == bits + Ones(q)
  {
  }

  lemma ConsumedBounds(word: nat, wordSize: nat) returns (n: nat)
    requires wordSize >= 2
    ensures n == Consumed(word, wordSize) && 0 < n <= wordSize
  {
    n := Consumed(word, wordSize);
  }

  lemma {:induction false} UnstuffCons(w: nat, words: seq<nat>, wordSize: nat)
    requires wordSize >= 2 && UnstuffWord(w, wordSize).Unstuffed? && Unstuff(words, wordSize).Unstuffed?
    ensures Unstuff([w] + words, wordSize) ==
            Unstuffed(UnstuffWord(w, wordSize).bits + Unstuff(words, wordSize).bits)
    decreases |words|
  {
    hide UnstuffWord;
    var all := [w] + words;
    if |words| == 0 {
      assert all[..0] == [] && Unstuff([], wordSize) == Unstuffed([]);
    } else {
      assert all[..|all| - 1] == [w] + words[..|words| - 1];
      UnstuffCons(w, words[..|words| - 1], wordSize);
    }
  }
}
