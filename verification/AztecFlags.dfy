/** Escapes that the decoder reads and the encoder never sends (core/src/aztec/AZDecoder.cpp:210-217, 248-299). */
module AztecFlags {
  import opened Bits
  import opened BitArrays
  import opened AztecDecoder

  // ----- decimal numbers, four bits a digit -----

  function Pow10(n: nat): nat {
    if n == 0 then 1 else 10 * Pow10(n - 1)
  }

  /** A number in n decimal digits, each sent as its code in the table of digits. */
  function DecimalBits(v: nat, n: nat): (bits: Bitstring)
    ensures |bits| == 4 * n
  {
    if n == 0 then [] else DecimalBits(v / 10, n - 1) + ToBits(v % 10 + 2, 4)
  }

  lemma {:induction false} EciValueSnoc(bits: Bitstring, n: nat, eci: int)
    requires |bits| >= 4 * (n + 1)
    ensures EciValue(bits, n + 1, eci) == 10 * EciValue(bits, n, eci) + FromBits(bits[4 * n..4 * n + 4]) - 2
    decreases n
  {
    hide FromBits;
    if n > 0 {
      EciValueSnoc(bits[4..], n - 1, 10 * eci + FromBits(bits[..4]) - 2);
      assert bits[4..][4 * (n - 1)..4 * (n - 1) + 4] == bits[4 * n..4 * n + 4];
    } else {
      assert bits[0..4] == bits[..4];
      assert EciValue(bits[4..], 0, 10 * eci + FromBits(bits[..4]) - 2) == 10 * eci + FromBits(bits[..4]) - 2;
    }
  }

  /** The digits are read as the number. */
  lemma {:induction false} DecimalRead(v: nat, n: nat, rest: Bitstring)
    requires v < Pow10(n)
    ensures EciValue(DecimalBits(v, n) + rest, n, 0) == v
    decreases n
  {
    hide FromBits, ToBits;
    if n > 0 {
      assert Pow2(4) == 16;
      var high, low := DecimalBits(v / 10, n - 1), ToBits(v % 10 + 2, 4);
      var bits := DecimalBits(v, n) + rest;
      FromToBits(v % 10 + 2, 4);
      assert bits == high + (low + rest) && bits[4 * (n - 1)..4 * (n - 1) + 4] == low;
      DecimalRead(v / 10, n - 1, low + rest);
      EciValueSnoc(bits, n - 1, 0);
    }
  }

  // ----- FLG(n) -----

  /** The escape in a mode: by a shift to Punct from all others. */
  function Escape(m: Table): Bitstring
    requires m != Binary
  {
    (if m == Punct then [] else ToBits(0, CodeSize(m))) + ToBits(0, 5)
  }

  lemma EscapeRead(m: Table, tail: Bitstring, c: Content)
    requires m != Binary
    ensures DecodeBits(Escape(m) + tail, m, m, c) == DecodeFlag(tail, m, c)
  {
    SmallPowers();
    EscapeEntries(m);
    hide DecodeBits, DecodeFlag, ToBits, FromBits, Pow2, GetCharacter;
    if m == Punct {
      assert Escape(m) + tail == ToBits(0, 5) + tail;
    } else {
      Assoc(ToBits(0, CodeSize(m)), ToBits(0, 5), tail);
      DecodeOneCode(m, m, 0, ToBits(0, 5) + tail, c);
    }
    DecodeOneCode(Punct, m, 0, tail, c);
  }

  lemma EscapeEntries(m: Table)
    requires m != Binary
    ensures Pow2(CodeSize(m)) > 0 && Pow2(CodeSize(Punct)) > 0
    ensures m != Punct ==> GetCharacter(m, 0) == Ctrl(Punct, false)
    ensures GetCharacter(Punct, 0) == Flgn
  {
  }

  lemma FlagRead(n: nat, tail: Bitstring, m: Table, c: Content)
    requires n < 8
    ensures DecodeFlag(ToBits(n, 3) + tail, m, c) ==
      if n == 0 then DecodeBits(tail, m, m, Content(c.bytes + [29], c.ecis, true))
      else if n == 7 then DecodeBits(tail, m, m, c)
      else if |tail| < 4 * n then ReadPastEnd
      else DecodeBits(tail[4 * n..], m, m, Content(c.bytes, c.ecis + [(EciValue(tail, n, 0), |c.bytes|)], c.haveFNC1))
  {
    assert Pow2(3) == 8;
    hide DecodeBits, ToBits, FromBits, Pow2, EciValue;
    ReadBack(n, 3, tail);
  }

  /** FLG(1) to FLG(6): the number written in that many digits becomes the ECI from here on, and the mode stays. */
  lemma EciSwitched(m: Table, v: nat, n: nat, rest: Bitstring, c: Content)
    requires m != Binary && 1 <= n <= 6 && v < Pow10(n)
    ensures DecodeBits(Escape(m) + (ToBits(n, 3) + (DecimalBits(v, n) + rest)), m, m, c)
      == DecodeBits(rest, m, m, Content(c.bytes, c.ecis + [(v, |c.bytes|)], c.haveFNC1))
  {
    hide DecodeBits, DecodeFlag, ToBits, EciValue, DecimalBits, Pow10, Escape;
    EscapeRead(m, ToBits(n, 3) + (DecimalBits(v, n) + rest), c);
    FlagRead(n, DecimalBits(v, n) + rest, m, c);
    DecimalRead(v, n, rest);
    SplitAt(DecimalBits(v, n), rest);
  }

  /** FLG(0) is FNC1: a group separator that is remembered. FLG(7) stands for nothing. */
  lemma Fnc1AndReserved(m: Table, rest: Bitstring, c: Content)
    requires m != Binary
    ensures DecodeBits(Escape(m) + (ToBits(0, 3) + rest), m, m, c)
      == DecodeBits(rest, m, m, Content(c.bytes + [29], c.ecis, true))
    ensures DecodeBits(Escape(m) + (ToBits(7, 3) + rest), m, m, c) == DecodeBits(rest, m, m, c)
  {
    hide DecodeBits, DecodeFlag, ToBits, EciValue, Escape;
    EscapeRead(m, ToBits(0, 3) + rest, c);
    EscapeRead(m, ToBits(7, 3) + rest, c);
    FlagRead(0, rest, m, c);
    FlagRead(7, rest, m, c);
  }

  /** Without the three bits, or with fewer digits than they announce, reading fails. */
  lemma FlagCutOff(m: Table, n: nat, tail: Bitstring, c: Content)
    requires m != Binary && 1 <= n <= 6
    ensures |tail| < 3 ==> DecodeBits(Escape(m) + tail, m, m, c) == ReadPastEnd
    ensures |tail| < 4 * n ==> DecodeBits(Escape(m) + (ToBits(n, 3) + tail), m, m, c) == ReadPastEnd
  {
    hide DecodeBits, ToBits, EciValue, Escape;
    EscapeRead(m, tail, c);
    EscapeRead(m, ToBits(n, 3) + tail, c);
    FlagRead(n, tail, m, c);
  }

  // ----- a shift inside a shift -----

  /** The shift to Upper, which Lower and Digit have. */
  function UpperShift(m: Table): nat {
    if m == Digit then 15 else 28
  }

  lemma UpperShifted(m: Table, tail: Bitstring, c: Content)
    requires m == Lower || m == Digit
    ensures DecodeBits(ToBits(UpperShift(m), CodeSize(m)) + tail, m, m, c) == DecodeBits(tail, m, Upper, c)
  {
    SmallPowers();
    assert GetCharacter(m, UpperShift(m)) == Ctrl(Upper, false);
    hide DecodeBits, ToBits, FromBits, Pow2, GetCharacter;
    DecodeOneCode(m, m, UpperShift(m), tail, c);
  }

  /** A character shifted to from within a shift leaves the decoder in the mode of the inner shift, not in the latched one. */
  lemma ShiftInShift(m: Table, code: nat, text: seq<byte>)
    requires (m == Lower || m == Digit) && 1 <= code <= 30 && Pow2(5) == 32 && GetCharacter(Punct, code) == Text(text)
    ensures Decodes(ToBits(UpperShift(m), CodeSize(m)) + (ToBits(0, 5) + ToBits(code, 5)), m, text, Upper)
  {
    hide DecodeBits, ToBits, FromBits, Pow2, GetCharacter, DecodeFlag, CodeSize;
    EscapeEntries(Upper);
    CodeSizes();
    var a, b, d := ToBits(UpperShift(m), CodeSize(m)), ToBits(0, 5), ToBits(code, 5);
    forall rest: Bitstring, c: Content
      ensures DecodeBits((a + (b + d)) + rest, m, m, c) == DecodeBits(rest, Upper, Upper, c.Append(text))
    {
      Assoc(a, b + d, rest);
      Assoc(b, d, rest);
      UpperShifted(m, b + (d + rest), c);
      DecodeOneCode(Upper, m, 0, d + rest, c);
      DecodeOneCode(Punct, Upper, code, rest, c);
    }
  }

  lemma CodeSizes()
    ensures CodeSize(Upper) == CodeSize(Punct) == 5
  {
  }

  lemma BinaryShifted(latch: Table, body: Bitstring, c: Content)
    ensures DecodeBits(ToBits(31, 5) + body, latch, Upper, c) == DecodeBits(body, Upper, Binary, c)
  {
    SmallPowers();
    assert GetCharacter(Upper, 31) == Ctrl(Binary, false);
    hide DecodeBits, ToBits, FromBits, Pow2, GetCharacter;
    DecodeOneCode(Upper, latch, 31, body, c);
  }

  /** The same with a binary run: U/S B/S ends in Upper. */
  lemma BinaryInShift(m: Table, data: seq<byte>)
    requires (m == Lower || m == Digit) && 1 <= |data| <= 31
    ensures Decodes(ToBits(UpperShift(m), CodeSize(m)) + (ToBits(31, 5) + (ToBits(|data|, 5) + WordBits(data, 8))), m, data, Upper)
  {
    hide DecodeBits, ToBits, FromBits, Pow2, GetCharacter, DecodeBinary, WordBits, CodeSize, UpperShift;
    var a, b, h, w := ToBits(UpperShift(m), CodeSize(m)), ToBits(31, 5), ToBits(|data|, 5), WordBits(data, 8);
    forall rest: Bitstring, c: Content
      ensures DecodeBits((a + (b + (h + w))) + rest, m, m, c) == DecodeBits(rest, Upper, Upper, c.Append(data))
    {
      Assoc(a, b + (h + w), rest);
      Assoc(b, h + w, rest);
      Assoc(h, w, rest);
      UpperShifted(m, b + (h + (w + rest)), c);
      BinaryShifted(m, h + (w + rest), c);
      DecodeShortHeader(|data|, w + rest, Upper, c);
      DecodeBinaryData(data, rest, Upper, c);
    }
  }

  // ----- binary runs that are cut off -----

  /** At most six bits behind a binary shift are padding. With more, a run that is not all there cannot be read. */
  lemma BinaryCutOff(latch: Table, length: nat, body: Bitstring, c: Content)
    requires 0 < length < 32 && |body| < 8 * length
    ensures DecodeBits(ToBits(length, 5) + body, latch, Binary, c) == if |body| <= 1 then Decoded(c) else ReadPastEnd
  {
    assert Pow2(5) == 32;
    hide ToBits, FromBits, Pow2;
    ReadBack(length, 5, body);
    if |body| >= 2 {
      DecodeShortHeader(length, body, latch, c);
    }
  }
}
