/** Where reading goes on behind what cannot be read (core/src/libzueci/zueci.c:164-188, 1660-1672). */
module ZueciReplacing {
  import opened ZueciUtf8
  import opened ZueciConverters
  import opened Zueci

  lemma {:induction false} TailsEnd(src: seq<byte>)
    ensures forall i :: 0 <= i < Tails(src) ==> IsTail(src[i])
    ensures Tails(src) == |src| || !IsTail(src[Tails(src)])
    decreases |src|
  {
    if |src| > 0 && IsTail(src[0]) {
      TailsEnd(src[1..]);
      assert forall i :: 1 <= i < |src| ==> src[i] == src[1..][i - 1];
    }
  }

  /**
   * Behind bytes that begin no character of UTF-8, reading goes on at the byte that was not expected if that is ASCII,
   * otherwise at the first one behind it that does not continue a character.
   */
  lemma SkipResumes(src: seq<byte>)
    requires |src| > 0 && ReadChar(src, 0, 0).1 != 0
    ensures var n, k := ReadChar(src, 0, 0).0, Skip(src);
      && (src[n - 1] < 0x80 <==> k == n - 1)
      && (k != n - 1 ==> n <= k && forall i :: n <= i < k ==> IsTail(src[i]))
      && (k == |src| || !IsTail(src[k]))
  {
    hide ReadChar;
    var n := ReadChar(src, 0, 0).0;
    TailsEnd(src[n..]);
    assert forall i :: n <= i < |src| ==> src[i] == src[n..][i - n];
  }

  /** Bytes in a code unit of the fixed-width encodings. */
  function UnitSize(eci: int): nat {
    if eci == 25 || eci == 33 then 2 else 4
  }

  /** A unit that begins no character becomes one replacement character, and reading goes on at the next unit. */
  lemma UnitReplaced(reader: Reader, eci: int, unit: seq<byte>, rest: seq<byte>, replacementChar: nat, flags: nat)
    requires SaneReader(reader) && IsUnicodeEci(eci) && GoodReplacement(replacementChar) && replacementChar != 0
    requires |unit| == UnitSize(eci) && ReadWith(reader, eci, unit + rest, flags) == NoChar
    ensures Convert(Table(reader, eci, flags), unit + rest, Replacement(replacementChar))
      == Prepend(EncodeUtf8(replacementChar), true, Convert(Table(reader, eci, flags), rest, Replacement(replacementChar)))
  {
    hide ReadWith, EncodeUtf8;
    assert (unit + rest)[|unit|..] == rest;
  }

  /** Less than a unit at the end becomes one replacement character. */
  lemma UnitCutOff(reader: Reader, eci: int, src: seq<byte>, replacementChar: nat, flags: nat)
    requires SaneReader(reader) && IsUnicodeEci(eci) && GoodReplacement(replacementChar) && replacementChar != 0
    requires 0 < |src| < UnitSize(eci)
    ensures Convert(Table(reader, eci, flags), src, Replacement(replacementChar))
      == Converted(WarnInvalidData, EncodeUtf8(replacementChar))
  {
    hide EncodeUtf8;
    assert ReadWith(reader, eci, src, flags) == NoChar;
    assert src[ReplacementIncr(eci, src)..] == [];
    var r := EncodeUtf8(replacementChar);
    assert r + [] == r;
  }

  /** The ISO/IEC 8859 and Windows code pages, ASCII and its invariant subset. */
  predicate IsSingleByte(eci: int) {
    IsValidEci(eci) && (eci <= 18 || 21 <= eci <= 24 || eci == 27 || eci == 170)
  }

  /** In a single-byte set one byte is replaced at a time. */
  lemma ByteReplaced(reader: Reader, eci: int, src: seq<byte>, replacementChar: nat, flags: nat)
    requires SaneReader(reader) && IsSingleByte(eci) && GoodReplacement(replacementChar) && replacementChar != 0
    requires |src| > 0 && ReadWith(reader, eci, src, flags) == NoChar
    ensures Convert(Table(reader, eci, flags), src, Replacement(replacementChar))
      == Prepend(EncodeUtf8(replacementChar), true, Convert(Table(reader, eci, flags), src[1..], Replacement(replacementChar)))
  {
    hide ReadWith, EncodeUtf8;
  }

  /** Shift JIS, Big5, GB 2312, KS X 1001, GBK and GB 18030. */
  predicate IsMultiByte(eci: int) {
    eci == 20 || 28 <= eci <= 32
  }

  /** The four-byte form of GB 18030: a digit behind a first byte from 0x81 to 0xE3. */
  predicate HasFourBytes(eci: int, src: seq<byte>) {
    eci == 32 && |src| >= 4 && 0x81 <= src[0] <= 0xE3 && 0x30 <= src[1] <= 0x39
  }

  lemma PairIncr(eci: int, src: seq<byte>)
    requires IsMultiByte(eci) && |src| > 0
    ensures ReplacementIncr(eci, src) == if HasFourBytes(eci, src) then 4 else if |src| == 1 then 1 else 2
  {
  }

  lemma IncrReplaced(reader: Reader, eci: int, src: seq<byte>, replacementChar: nat, flags: nat)
    requires SaneReader(reader) && GoodReplacement(replacementChar) && replacementChar != 0
    requires |src| > 0 && ReadWith(reader, eci, src, flags) == NoChar
    ensures Convert(Table(reader, eci, flags), src, Replacement(replacementChar))
      == Prepend(EncodeUtf8(replacementChar), true,
                 Convert(Table(reader, eci, flags), src[ReplacementIncr(eci, src)..], Replacement(replacementChar)))
  {
    hide ReadWith, EncodeUtf8, ReplacementIncr;
  }

  /** In a multi-byte set two bytes are replaced at a time, or four, or what is left. */
  lemma PairReplaced(reader: Reader, eci: int, src: seq<byte>, replacementChar: nat, flags: nat)
    requires SaneReader(reader) && IsMultiByte(eci) && GoodReplacement(replacementChar) && replacementChar != 0
    requires |src| > 0 && ReadWith(reader, eci, src, flags) == NoChar
    ensures var n := if HasFourBytes(eci, src) then 4 else if |src| == 1 then 1 else 2;
      Convert(Table(reader, eci, flags), src, Replacement(replacementChar))
      == Prepend(EncodeUtf8(replacementChar), true, Convert(Table(reader, eci, flags), src[n..], Replacement(replacementChar)))
  {
    hide ReadWith, EncodeUtf8, ReplacementIncr, Convert, HasFourBytes;
    PairIncr(eci, src);
    IncrReplaced(reader, eci, src, replacementChar, flags);
  }

  /** Every assigned ECI is one of the three kinds, UTF-8 or binary. */
  lemma Kinds(eci: int)
    ensures IsValidEci(eci) <==> IsSingleByte(eci) || IsMultiByte(eci) || IsUnicodeEci(eci) || eci == 26 || eci == 899
    ensures IsSingleByte(eci) <==> eci in {0, 1, 2, 3, 4, 5, 6, 7, 8, 9, 10, 11, 12, 13, 15, 16, 17, 18, 21, 22, 23, 24, 27, 170}
  {
  }

  /** Bytes pass straight through in binary, and with the flag in ISO/IEC 8859-1, ASCII and its invariant subset. */
  lemma StraightThrough(reader: Reader, eci: int, src: seq<byte>, replacementChar: nat, flags: nat)
    requires SaneReader(reader) && (eci == 899 || (flags % 2 == 1 && eci in {1, 3, 27, 170}))
    ensures ToUtf8(reader, eci, src, replacementChar, flags) == Convert(Binary, src, [])
  {
  }

  /** The replacement characters are those that valid UTF-8 has in at most three bytes. */
  lemma ReplacementIsCharacter(replacementChar: nat)
    requires 0 < replacementChar <= 0x10FFFF
    ensures GoodReplacement(replacementChar) <==> IsScalar(replacementChar) && |EncodeUtf8(replacementChar)| <= 3
  {
  }
}
