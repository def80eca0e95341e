/** Tokens of the Aztec high-level encoder (core/src/aztec/AZToken.h and .cpp). */
module AztecTokens {
  import opened Bits
  import opened BitArrays
  import opened AztecDecoder

  /** Conversion to a 16-bit short. */
  function Short(v: int): int {
    (v + 0x8000) % 0x10000 - 0x8000
  }

  /** A code when count is negative, otherwise a run of count text bytes sent in binary shift. */
  datatype Token = Token(value: int, count: int) {
    predicate Fits(text: seq<byte>) {
      count >= 0 ==> 0 <= value && value + count <= |text|
    }
  }

  function CreateSimple(value: int, bitCount: int): Token {
    Token(Short(value), Short(-bitCount))
  }

  function CreateBinaryShift(start: int, byteCount: int): Token {
    Token(Short(start), Short(byteCount))
  }

  function FirstHeader(count: nat): Bitstring {
    ToBits(31, 5) + if count > 62 then ToBits(count - 31, 16) else ToBits(if count < 31 then count else 31, 5)
  }

  function SecondHeader(count: nat): Bitstring {
    ToBits(31, 5) + ToBits(count - 31, 5)
  }

  /** What is sent of a binary run when i of its bytes are out: runs of 32 to 62 bytes go in two shifts. */
  function BinaryBits(data: seq<byte>, i: nat): Bitstring
    requires i <= |data|
  {
    if i == 0 then []
    else if i <= 31 || |data| > 62 then FirstHeader(|data|) + WordBits(data[..i], 8)
    else FirstHeader(|data|) + WordBits(data[..31], 8) + (SecondHeader(|data|) + WordBits(data[31..i], 8))
  }

  function TokenBits(token: Token, text: seq<byte>): Bitstring
    requires token.Fits(text)
  {
    if token.count < 0 then ToBits(token.value, -token.count)
    else BinaryBits(text[token.value..token.value + token.count], token.count)
  }

  method AppendTo(token: Token, bitArray: BitArray, text: seq<byte>)
    requires token.Fits(text)
    modifies bitArray
    ensures bitArray.bits == old(bitArray.bits) + TokenBits(token, text)
  {
    hide ToBits, WordBits;
    if token.count < 0 {
      bitArray.AppendBits(token.value, -token.count);
    } else {
      ghost var start := bitArray.bits;
      ghost var data := text[token.value..token.value + token.count];
      assert BinaryBits(data, 0) == [];
      hide BinaryBits;
      for i := 0 to token.count
        invariant bitArray.bits == start + BinaryBits(data, i)
      {
        ghost var before := bitArray.bits;
        if i == 0 || (i == 31 && token.count <= 62) {
          bitArray.AppendBits(31, 5);
          if token.count > 62 {
            bitArray.AppendBits(token.count - 31, 16);
          } else if i == 0 {
            bitArray.AppendBits(if token.count < 31 then token.count else 31, 5);
          } else {
            bitArray.AppendBits(token.count - 31, 5);
          }
        }
        assert bitArray.bits == before + HeaderAt(token.count, i);
        bitArray.AppendBits(text[token.value + i], 8);
        BinaryBitsStep(data, i);
        Assoc(before, HeaderAt(token.count, i), ToBits(data[i], 8));
        Assoc(start, BinaryBits(data, i), HeaderAt(token.count, i) + ToBits(data[i], 8));
      }
    }
  }

  function HeaderAt(count: nat, i: nat): Bitstring {
    if i == 0 then FirstHeader(count) else if i == 31 && count <= 62 then SecondHeader(count) else []
  }

  /** One more byte of a run, with the header it may need. */
  lemma BinaryBitsStep(data: seq<byte>, i: nat)
    requires i < |data|
    ensures BinaryBits(data, i + 1) == BinaryBits(data, i) + (HeaderAt(|data|, i) + ToBits(data[i], 8))
  {
    hide ToBits, WordBits, FirstHeader, SecondHeader;
    var n, byte := |data|, ToBits(data[i], 8);
    assert WordBits([], 8) == [];
    if i == 0 {
      WordBitsSnoc([], data[0], 8);
      assert data[..1] == [] + [data[0]];
    } else if i < 31 || n > 62 {
      WordBitsSnoc(data[..i], data[i], 8);
      assert data[..i + 1] == data[..i] + [data[i]];
      Assoc(FirstHeader(n), WordBits(data[..i], 8), byte);
    } else {
      WordBitsSnoc(data[31..i], data[i], 8);
      assert data[31..i + 1] == data[31..i] + [data[i]];
      var first := FirstHeader(n) + WordBits(data[..31], 8);
      if i > 31 {
        Assoc(SecondHeader(n), WordBits(data[31..i], 8), byte);
        Assoc(first, SecondHeader(n) + WordBits(data[31..i], 8), byte);
      } else {
        assert data[31..31] == [];
      }
    }
  }

  /** Bits of a binary run of p bytes, headers included. */
  function BinaryCost(p: nat): nat {
    if p == 0 then 0 else if p <= 31 then 10 + 8 * p else if p <= 62 then 20 + 8 * p else 21 + 8 * p
  }

  /** A binary run is read back in every mode that has a binary shift. */
  lemma DecodesBinaryRun(m: Table, data: seq<byte>)
    requires m == Upper || m == Lower || m == Mixed
    requires 1 <= |data| <= 2047 + 31
    ensures Decodes(BinaryBits(data, |data|), m, data, m) && |BinaryBits(data, |data|)| == BinaryCost(|data|)
  {
    hide ToBits, WordBits, Decodes;
    var n := |data|;
    assert data[..n] == data;
    if n <= 31 {
      DecodesShortBinary(m, data);
      Assoc(ToBits(31, 5), ToBits(n, 5), WordBits(data, 8));
    } else if n <= 62 {
      var d1, d2 := data[..31], data[31..];
      DecodesShortBinary(m, d1);
      DecodesShortBinary(m, d2);
      Assoc(ToBits(31, 5), ToBits(31, 5), WordBits(d1, 8));
      Assoc(ToBits(31, 5), ToBits(n - 31, 5), WordBits(d2, 8));
      assert data[31..n] == d2 && d1 + d2 == data;
      DecodesTrans(FirstHeader(n) + WordBits(d1, 8), m, d1, m, SecondHeader(n) + WordBits(d2, 8), d2, m);
    } else {
      DecodesLongBinary(m, data);
      Assoc(ToBits(31, 5), ToBits(n - 31, 16), WordBits(data, 8));
    }
  }
}
