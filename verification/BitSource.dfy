/** The bit reader over bytes (core/src/BitSource.cpp). */
module BitSources {
  import opened Bits
  import opened BitArrays

  type byte = b: nat | b < 256

  /** All bits of the bytes, most significant first. */
  ghost function AllBits(bytes: seq<byte>): Bitstring {
    WordBits(bytes, 8)
  }

  /** The number made of n bits from bit i on. */
  ghost function BitsAt(bytes: seq<byte>, i: nat, n: nat): nat
    requires i + n <= |AllBits(bytes)|
  {
    FromBits(AllBits(bytes)[i..i + n])
  }

  /** A number shifted right and masked. */
  function BitField(v: nat, shift: nat, n: nat): nat {
    v / Pow2(shift) % Pow2(n)
  }

  class BitSource {
    const bytes: seq<byte>
    var byteOffset: nat
    var bitOffset: nat

    ghost predicate Valid()
      reads this
    {
      byteOffset <= |bytes| && bitOffset < 8 && (byteOffset == |bytes| ==> bitOffset == 0)
    }

    /** Bits read so far. */
    ghost function Position(): nat
      reads this
    {
      8 * byteOffset + bitOffset
    }

    constructor (bytes: seq<byte>)
      ensures Valid() && this.bytes == bytes && Position() == 0
    {
      this.bytes := bytes;
      this.byteOffset := 0;
      this.bitOffset := 0;
    }

    function Available(): (n: nat)
      reads this
      requires Valid()
      ensures n == |AllBits(bytes)| - Position()
    {
      8 * (|bytes| - byteOffset) - bitOffset
    }

    /** What is left of the current byte, at most n bits. */
    method ReadRest(n: nat) returns (value: nat, n': nat)
      requires Valid() && bitOffset > 0 && n <= Available()
      modifies this
      ensures Valid() && n' <= n && Position() == old(Position()) + (n - n') && (n' > 0 ==> bitOffset == 0)
      ensures Position() + n' <= |AllBits(bytes)|
      ensures value == BitsAt(bytes, old(Position()), n - n')
    {
      hide FromBits, WordBits, Pow2, BitField, BitsAt, AllBits;
      AllBitsLength(bytes);
      var bitsLeft := 8 - bitOffset;
      var toRead := if n < bitsLeft then n else bitsLeft;
      var bitsToNotRead := bitsLeft - toRead;
      PartOfByte(bytes, byteOffset, bitOffset, toRead);
      value := BitField(bytes[byteOffset], bitsToNotRead, toRead);
      n' := n - toRead;
      bitOffset := bitOffset + toRead;
      if bitOffset == 8 {
        bitOffset := 0;
        byteOffset := byteOffset + 1;
      }
    }

    /** Whole bytes, then part of one. */
    method ReadBytes(ghost start: nat, value0: nat, n0: nat) returns (value: nat)
      requires Valid() && bitOffset == 0 && start <= Position() && n0 <= Available()
      requires Position() <= |AllBits(bytes)| && value0 == BitsAt(bytes, start, Position() - start)
      modifies this
      ensures Valid() && Position() == old(Position()) + n0 <= |AllBits(bytes)|
      ensures value == BitsAt(bytes, start, Position() - start)
    {
      hide FromBits, WordBits, Pow2, BitField, BitsAt, AllBits;
      AllBitsLength(bytes);
      value := value0;
      var n := n0;
      while n >= 8
        invariant Valid() && bitOffset == 0 && Position() + n == old(Position()) + n0
        invariant value == BitsAt(bytes, start, Position() - start)
        decreases n
      {
        PartOfByte(bytes, byteOffset, 0, 8);
        Extend(bytes, start, Position(), 8);
        value := value * 256 + bytes[byteOffset];
        byteOffset := byteOffset + 1;
        n := n - 8;
      }
      if n > 0 {
        var bitsToNotRead := 8 - n;
        PartOfByte(bytes, byteOffset, 0, n);
        Extend(bytes, start, Position(), n);
        value := value * Pow2(n) + BitField(bytes[byteOffset], bitsToNotRead, n);
        bitOffset := bitOffset + n;
      }
    }

    /** Reads 1 to 32 bits as an unsigned number; fails, leaving the position alone, when there are not enough. */
    method ReadBits(numBits: nat) returns (ok: bool, value: nat)
      requires Valid()
      modifies this
      ensures Valid()
      ensures ok <==> 1 <= numBits <= 32 && numBits <= old(Available())
      ensures ok ==> Position() == old(Position()) + numBits <= |AllBits(bytes)|
      ensures ok ==> value == BitsAt(bytes, old(Position()), numBits)
      ensures !ok ==> Position() == old(Position())
    {
      hide FromBits, WordBits, Pow2, BitField, BitsAt, AllBits;
      AllBitsLength(bytes);
      if numBits < 1 || numBits > 32 || numBits > Available() {
        return false, 0;
      }
      ok := true;
      ghost var start := Position();
      var n := numBits;
      value := 0;
      NothingAt(bytes, start);
      if bitOffset > 0 {
        value, n := ReadRest(n);
      }
      if n > 0 {
        value := ReadBytes(start, value, n);
      }
    }
  }

  /** Reads ahead on copies of the two offsets. */
  method PeekBits(source: BitSource, numBits: nat) returns (ok: bool, value: nat)
    requires source.Valid()
    ensures ok <==> 1 <= numBits <= 32 && numBits <= source.Available()
    ensures ok ==> source.Position() + numBits <= |AllBits(source.bytes)|
    ensures ok ==> value == BitsAt(source.bytes, source.Position(), numBits)
  {
    var ahead := new BitSource(source.bytes);
    ahead.byteOffset, ahead.bitOffset := source.byteOffset, source.bitOffset;
    ok, value := ahead.ReadBits(numBits);
  }

  /** At a byte boundary eight bits are the next byte. */
  method ReadByte(source: BitSource) returns (ok: bool, value: byte)
    requires source.Valid() && source.bitOffset == 0
    modifies source
    ensures source.Valid() && source.bitOffset == 0
    ensures ok <==> old(source.byteOffset) < |source.bytes|
    ensures ok ==> value == source.bytes[old(source.byteOffset)] && source.byteOffset == old(source.byteOffset) + 1
    ensures !ok ==> source.byteOffset == old(source.byteOffset)
  {
    hide BitsAt, AllBits, BitField;
    AllBitsLength(source.bytes);
    value := 0;
    if source.byteOffset < |source.bytes| {
      PartOfByte(source.bytes, source.byteOffset, 0, 8);
    }
    var bits;
    ok, bits := source.ReadBits(8);
    if ok {
      value := bits;
    }
  }

  lemma AllBitsLength(bytes: seq<byte>)
    ensures |AllBits(bytes)| == 8 * |bytes|
  {
  }

  lemma NothingAt(bytes: seq<byte>, i: nat)
    requires i <= |AllBits(bytes)|
    ensures BitsAt(bytes, i, 0) == 0
  {
    assert AllBits(bytes)[i..i] == [];
  }

  lemma NoBits()
    ensures FromBits([]) == 0
  {
  }

  lemma Extend(bytes: seq<byte>, i: nat, j: nat, n: nat)
    requires i <= j <= j + n <= |AllBits(bytes)|
    ensures BitsAt(bytes, i, j + n - i) == BitsAt(bytes, i, j - i) * Pow2(n) + BitsAt(bytes, j, n)
    ensures Pow2(8) == 256
  {
    hide FromBits, Pow2, AllBits;
    SmallPowers();
    var bits := AllBits(bytes);
    FromBitsAppend(bits[i..j], bits[j..j + n]);
    assert bits[i..j] + bits[j..j + n] == bits[i..j + n];
  }

  /** Some bits of a byte, as masked and shifted out of it. */
  lemma PartOfByte(bytes: seq<byte>, k: nat, i: nat, n: nat)
    requires k < |bytes| && i + n <= 8
    ensures 8 * k + i + n <= |AllBits(bytes)|
    ensures BitsAt(bytes, 8 * k + i, n) == BitField(bytes[k], 8 - i - n, n)
    ensures n == 8 ==> BitField(bytes[k], 8 - i - n, n) == bytes[k]
  {
    hide ToBits, FromBits, WordBits, Pow2, BitField, AllBits;
    SmallPowers();
    ByteBits(bytes, k);
    SliceOfNumber(bytes[k], 8, i, n);
    SliceOfSlice(AllBits(bytes), 8 * k, i, n);
    WholeByte(bytes[k]);
  }

  lemma WholeByte(b: byte)
    ensures BitField(b, 0, 8) == b
  {
    assert Pow2(0) == 1 && Pow2(8) == 256;
  }

  lemma SliceOfSlice(bits: Bitstring, a: nat, i: nat, n: nat)
    requires a + 8 <= |bits| && i + n <= 8
    ensures bits[a..a + 8][i..i + n] == bits[a + i..a + i + n]
  {
    var x, y := bits[a..a + 8][i..i + n], bits[a + i..a + i + n];
    assert |x| == |y| && forall k :: 0 <= k < n ==> x[k] == y[k];
  }

  lemma {:induction false} ByteBits(bytes: seq<byte>, k: nat)
    requires k < |bytes|
    ensures 8 * k + 8 <= |AllBits(bytes)| && AllBits(bytes)[8 * k..8 * k + 8] == ToBits(bytes[k], 8)
    decreases |bytes|
  {
    hide ToBits;
    if k > 0 {
      ByteBits(bytes[1..], k - 1);
      var rest := WordBits(bytes[1..], 8);
      assert AllBits(bytes) == ToBits(bytes[0], 8) + rest;
      assert (ToBits(bytes[0], 8) + rest)[8 * k..8 * k + 8] == rest[8 * (k - 1)..8 * (k - 1) + 8];
    }
  }

  /** Bits i to i + t of an n-bit number. */
  lemma {:induction false} SliceOfNumber(v: nat, n: nat, i: nat, t: nat)
    requires v < Pow2(n) && i + t <= n
    ensures FromBits(ToBits(v, n)[i..i + t]) == BitField(v, n - i - t, t)
    decreases n, t
  {
    hide *;
    if t == 0 {
      EmptyField(v, n - i);
      assert ToBits(v, n)[i..i] == [];
      NoBits();
    } else {
      HalfBelow(v, n);
      BitsOfHalf(v, n);
      if i + t < n {
        SliceOfNumber(v / 2, n - 1, i, t);
        FieldOfHalf(v, n - i - t, t);
        assert ToBits(v, n)[..n - 1][i..i + t] == ToBits(v, n)[i..i + t];
      } else {
        SliceOfNumber(v / 2, n - 1, i, t - 1);
        LastOfSlice(v, n, i);
        FieldWithLast(v, t);
        assert ToBits(v, n)[i..] == ToBits(v, n)[i..n];
        assert ToBits(v / 2, n - 1)[i..] == ToBits(v / 2, n - 1)[i..n - 1];
      }
    }
  }

  lemma BitsOfHalf(v: nat, n: nat)
    requires n > 0
    ensures ToBits(v, n)[..n - 1] == ToBits(v / 2, n - 1)
  {
  }

  lemma EmptyField(v: nat, shift: nat)
    ensures BitField(v, shift, 0) == 0
  {
    assert Pow2(0) == 1;
  }

  lemma FieldOfHalf(v: nat, shift: nat, n: nat)
    requires shift > 0
    ensures BitField(v / 2, shift - 1, n) == BitField(v, shift, n)
  {
    DivDiv(v, Pow2(shift - 1));
  }

  lemma FieldWithLast(v: nat, n: nat)
    requires n > 0
    ensures BitField(v, 0, n) == 2 * BitField(v / 2, 0, n - 1) + v % 2
  {
    assert Pow2(0) == 1;
    SplitMod(v, Pow2(n - 1));
  }

  lemma HalfBelow(v: nat, n: nat)
    requires v < Pow2(n)
    ensures n > 0 ==> v / 2 < Pow2(n - 1)
  {
  }

  lemma LastOfSlice(v: nat, n: nat, i: nat)
    requires i < n
    ensures FromBits(ToBits(v, n)[i..]) == 2 * FromBits(ToBits(v / 2, n - 1)[i..]) + v % 2
  {
    var s := ToBits(v, n)[i..];
    assert ToBits(v, n) == ToBits(v / 2, n - 1) + [v % 2 == 1];
    assert s[..|s| - 1] == ToBits(v / 2, n - 1)[i..];
  }
}
