/** ISO/IEC 8859-1 and binary bytes against their code points, and what every conversion to UTF-8 yields (core/src/libzueci/zueci.c:1372-1388, 1635-1655). */
module ZueciLatin1 {
  import opened ZueciUtf8
  import opened ZueciConverters
  import opened Zueci
  import opened ZueciToEci

  // ----- code points of a string -----

  /** The code points of the characters of the grammar, as far as they go. */
  ghost function CodePoints(s: seq<byte>): (r: seq<nat>)
    decreases |s|
  {
    if |s| == 0 || CharLength(s) == 0 then [] else [CodePoint(s)] + CodePoints(s[CharLength(s)..])
  }

  /** The characters that ISO/IEC 8859-1 has: all but the C1 controls. */
  predicate IsLatin1(u: nat) {
    u < 0x80 || 0xA0 <= u <= 0xFF
  }

  ghost predicate AllLatin1(us: seq<nat>) {
    forall i :: 0 <= i < |us| ==> IsLatin1(us[i])
  }

  /** A character in front. */
  lemma OneMore(u: nat, s: seq<byte>)
    requires IsScalar(u)
    ensures var t := EncodeUtf8(u) + s;
      CodePoints(t) == [u] + CodePoints(s) && (ValidUtf8(t) <==> ValidUtf8(s)) && ReadChar(t, 0, 0) == (|EncodeUtf8(u)|, 0, u)
  {
    hide EncodeUtf8, CharLength, CodePoint, ReadChar;
    DecodeEncoded(u, s);
    ReadEncoded(u, s);
    assert (EncodeUtf8(u) + s)[|EncodeUtf8(u)|..] == s;
  }

  lemma FirstChar(s: seq<byte>)
    requires |s| > 0
    ensures var (n, state, u) := ReadChar(s, 0, 0);
      && (state == 0 <==> CharLength(s) > 0)
      && (state == 0 ==> n == CharLength(s) && u == CodePoint(s))
      && (state == 0 ==> IsScalar(u) && s == EncodeUtf8(u) + s[n..] && CodePoints(s) == [u] + CodePoints(s[n..])
                         && (ValidUtf8(s) <==> ValidUtf8(s[n..])))
      && (state != 0 ==> !ValidUtf8(s) && CodePoints(s) == [])
  {
    hide EncodeUtf8, CharLength, CodePoint, ReadChar;
    ReadCharGrammar(s);
    ReadScalar(s);
    var (n, state, u) := ReadChar(s, 0, 0);
    if state == 0 {
      assert s == s[..n] + s[n..];
    }
  }

  // ----- from UTF-8 -----

  /**
   * UTF-8 converts to ISO/IEC 8859-1 exactly if it is valid and all its characters are in that set, and then each
   * becomes the byte of its code point.
   */
  lemma {:induction false} FromUtf8Exactly(writer: Writer, eci: int, src: seq<byte>)
    requires eci == 1 || eci == 3
    ensures var c := ToEci(writer, eci, src);
      && (c.status == Ok <==> ValidUtf8(src) && AllLatin1(CodePoints(src)))
      && (c.status == Ok ==> c.dest == CodePoints(src))
      && (c.status != Ok ==> c.status == (if FailsFirst(src) then InvalidUtf8 else InvalidData))
    decreases |src|
  {
    hide EncodeUtf8, CharLength, CodePoint, ReadChar, CodePoints, ValidUtf8;
    if |src| == 0 {
      EmptyString();
    } else {
      FirstChar(src);
      var (n, state, u) := ReadChar(src, 0, 0);
      if state == 0 && IsLatin1(u) {
        FromUtf8Exactly(writer, eci, src[n..]);
        AllBehind(u, CodePoints(src[n..]));
        assert u % 256 == u;
      } else if state == 0 {
        assert CodePoints(src)[0] == u;
      }
    }
  }

  lemma EmptyString()
    ensures ValidUtf8([]) && CodePoints([]) == []
  {
  }

  lemma AllBehind(u: nat, us: seq<nat>)
    ensures AllLatin1([u] + us) <==> IsLatin1(u) && AllLatin1(us)
  {
    if AllLatin1([u] + us) {
      assert IsLatin1(([u] + us)[0]);
      forall i | 0 <= i < |us|
        ensures IsLatin1(us[i])
      {
        assert ([u] + us)[i + 1] == us[i];
      }
    }
  }

  /** What is not a character comes before any character outside the set. */
  ghost predicate FailsFirst(src: seq<byte>)
    decreases |src|
  {
    |src| > 0 && (CharLength(src) == 0 || (IsLatin1(CodePoint(src)) && FailsFirst(src[CharLength(src)..])))
  }

  // ----- code points and their encoding -----

  ghost predicate AllScalar(us: seq<nat>) {
    forall i :: 0 <= i < |us| ==> IsScalar(us[i])
  }

  function EncodeAll(us: seq<nat>): seq<byte>
    requires AllScalar(us)
  {
    if |us| == 0 then [] else EncodeUtf8(us[0]) + EncodeAll(us[1..])
  }

  /** Scalar values encode to valid UTF-8 that has them as its code points. */
  lemma {:induction false} CodePointsOfEncoding(us: seq<nat>)
    requires AllScalar(us)
    ensures ValidUtf8(EncodeAll(us)) && CodePoints(EncodeAll(us)) == us
    decreases |us|
  {
    hide EncodeUtf8, CodePoints, ValidUtf8;
    if |us| == 0 {
      EmptyString();
    } else {
      CodePointsOfEncoding(us[1..]);
      OneMore(us[0], EncodeAll(us[1..]));
    }
  }

  /** Valid UTF-8 is the encoding of its code points. */
  lemma {:induction false} EncodingOfCodePoints(s: seq<byte>)
    requires ValidUtf8(s)
    ensures AllScalar(CodePoints(s)) && EncodeAll(CodePoints(s)) == s
    decreases |s|
  {
    hide EncodeUtf8, CharLength, CodePoint, ReadChar, CodePoints, ValidUtf8;
    if |s| == 0 {
      EmptyString();
    } else {
      FirstChar(s);
      var (n, state, u) := ReadChar(s, 0, 0);
      EncodingOfCodePoints(s[n..]);
      assert CodePoints(s)[1..] == CodePoints(s[n..]);
    }
  }

  // ----- to UTF-8 -----

  predicate HasC1(src: seq<byte>) {
    exists i :: 0 <= i < |src| && !IsLatin1(src[i])
  }

  /** The code points that the bytes stand for, C1 controls replaced. */
  function Latin1Points(src: seq<byte>, replacementChar: nat): (us: seq<nat>)
    requires IsScalar(replacementChar)
    ensures |us| == |src| && AllScalar(us)
  {
    seq(|src|, i requires 0 <= i < |src| => if IsLatin1(src[i]) then src[i] else replacementChar)
  }

  lemma C1InFront(src: seq<byte>)
    requires |src| > 0
    ensures HasC1(src) <==> !IsLatin1(src[0]) || HasC1(src[1..])
  {
    if HasC1(src[1..]) {
      var i :| 0 <= i < |src| - 1 && !IsLatin1(src[1..][i]);
      assert !IsLatin1(src[i + 1]);
    }
    if i :| 0 < i < |src| && !IsLatin1(src[i]) {
      assert !IsLatin1(src[1..][i - 1]);
    }
  }

  /**
   * From ISO/IEC 8859-1 each byte becomes the character of its code point, and each C1 control the replacement
   * character, with a warning, or an error when there is none.
   */
  lemma {:induction false} Latin1Exactly(src: seq<byte>, replacementChar: nat)
    requires GoodReplacement(replacementChar)
    ensures Convert(Latin1, src, Replacement(replacementChar)) ==
      if HasC1(src) && replacementChar == 0 then Error(InvalidData)
      else Converted(Ret(HasC1(src)), EncodeAll(Latin1Points(src, replacementChar)))
    decreases |src|
  {
    hide EncodeUtf8;
    if |src| > 0 {
      C1InFront(src);
      Latin1Exactly(src[1..], replacementChar);
      assert Latin1Points(src, replacementChar)[1..] == Latin1Points(src[1..], replacementChar);
    }
  }

  /** From binary each byte becomes the character of its number. */
  lemma {:induction false} BinaryExactly(src: seq<byte>)
    ensures AllScalar(src) && Convert(Binary, src, []) == Converted(Ok, EncodeAll(src))
    decreases |src|
  {
    hide EncodeUtf8;
    if |src| > 0 {
      BinaryExactly(src[1..]);
    }
  }

  /** Bytes of ISO/IEC 8859-1 go to the characters of their code points, replaced or not, straight through or not. */
  lemma ToUtf8Exactly(reader: Reader, eci: int, src: seq<byte>, replacementChar: nat, flags: nat)
    requires SaneReader(reader) && (eci == 1 || eci == 3) && GoodReplacement(replacementChar)
    ensures AllScalar(src)
    ensures ToUtf8(reader, eci, src, replacementChar, flags) ==
      if StraightThru(flags) || !HasC1(src) then Converted(Ok, EncodeAll(src))
      else if replacementChar == 0 then Error(InvalidData)
      else Converted(WarnInvalidData, EncodeAll(Latin1Points(src, replacementChar)))
  {
    hide Convert, EncodeUtf8, EncodeAll;
    BinaryExactly(src);
    Latin1Exactly(src, replacementChar);
    if !HasC1(src) {
      assert Latin1Points(src, replacementChar) == src;
    }
  }

  // ----- round trips -----

  /** What converts to ISO/IEC 8859-1 is restored, whatever the replacement character and the flags. */
  lemma Latin1RoundTrip(reader: Reader, writer: Writer, eci: int, src: seq<byte>, replacementChar: nat, flags: nat)
    requires SaneReader(reader) && (eci == 1 || eci == 3) && GoodReplacement(replacementChar)
    ensures var c := ToEci(writer, eci, src);
      c.status == Ok ==> ToUtf8(reader, eci, c.dest, replacementChar, flags) == Converted(Ok, src)
  {
    hide ToEci, ToUtf8, ValidUtf8, CodePoints, EncodeAll;
    FromUtf8Exactly(writer, eci, src);
    var c := ToEci(writer, eci, src);
    if c.status == Ok {
      ToUtf8Exactly(reader, eci, c.dest, replacementChar, flags);
      EncodingOfCodePoints(src);
      assert !HasC1(c.dest);
    }
  }

  /** The other way round: every byte string without C1 controls is restored. */
  lemma Latin1Restored(reader: Reader, writer: Writer, eci: int, src: seq<byte>, replacementChar: nat, flags: nat)
    requires SaneReader(reader) && (eci == 1 || eci == 3) && GoodReplacement(replacementChar) && !HasC1(src)
    ensures var c := ToUtf8(reader, eci, src, replacementChar, flags);
      c.status == Ok && ValidUtf8(c.dest) && ToEci(writer, eci, c.dest) == Converted(Ok, src)
  {
    hide ToEci, ToUtf8, ValidUtf8, CodePoints, EncodeAll;
    ToUtf8Exactly(reader, eci, src, replacementChar, flags);
    CodePointsOfEncoding(src);
    forall i | 0 <= i < |src|
      ensures IsLatin1(src[i])
    {
      assert !HasC1(src);
    }
    FromUtf8Exactly(writer, eci, EncodeAll(src));
  }

  // ----- every conversion -----

  /** One turn puts out the encoding of one scalar value, or of the replacement. */
  lemma PieceIsScalar(loop: Loop, src: seq<byte>, replacementChar: nat) returns (u: nat)
    requires Sane(loop) && |src| > 0 && GoodReplacement(replacementChar)
    ensures var piece := NextPiece(loop, src, Replacement(replacementChar));
      piece.Piece? ==> IsScalar(u) && piece.bytes == EncodeUtf8(u) && (piece.warn ==> u == replacementChar)
  {
    hide EncodeUtf8, ReadChar, Skip, ReplacementIncr;
    match loop
    case Binary => u := src[0];
    case Latin1 => u := if IsLatin1(src[0]) then src[0] else replacementChar;
    case Utf8 =>
      ReadScalar(src);
      u := if ReadChar(src, 0, 0).1 == 0 then ReadChar(src, 0, 0).2 else replacementChar;
    case Table(other, eci, flags) =>
      ReadInRange(other, eci, src, flags);
      u := match ReadWith(other, eci, src, flags) case NoChar => replacementChar case Char(_, v) => v;
  }

  /** Whatever the source, its encoding and the replacement character: what a conversion to UTF-8 puts out is valid. */
  lemma {:induction false} AlwaysValid(loop: Loop, src: seq<byte>, replacementChar: nat)
    requires Sane(loop) && GoodReplacement(replacementChar)
    ensures var c := Convert(loop, src, Replacement(replacementChar)); ValidUtf8(c.dest)
    decreases |src|
  {
    hide EncodeUtf8, ReadChar, NextPiece, ValidUtf8;
    var replacement := Replacement(replacementChar);
    EmptyString();
    if |src| > 0 {
      PieceInRange(loop, src, replacement);
      var u := PieceIsScalar(loop, src, replacementChar);
      match NextPiece(loop, src, replacement)
      case Stop(_) =>
      case Piece(width, bytes, _) =>
        AlwaysValid(loop, src[width..], replacementChar);
        OneMore(u, Convert(loop, src[width..], replacement).dest);
    }
  }

  lemma OutputValid(reader: Reader, eci: int, src: seq<byte>, replacementChar: nat, flags: nat)
    requires SaneReader(reader)
    ensures ValidUtf8(ToUtf8(reader, eci, src, replacementChar, flags).dest)
  {
    hide Convert, EncodeUtf8, ValidUtf8;
    EmptyString();
    AlwaysValid(Binary, src, 0);
    if GoodReplacement(replacementChar) {
      AlwaysValid(Latin1, src, replacementChar);
      AlwaysValid(Utf8, src, replacementChar);
      AlwaysValid(Table(reader, eci, flags), src, replacementChar);
    }
  }
}
