/** UTF-16 and UTF-32 converters, and how far a failed conversion skips (core/src/libzueci/zueci.c:164-188, 411-556). */
module ZueciConverters {
  import opened ZueciUtf8

  /** A character read from the source: its width in bytes and its code point. */
  datatype Conv = NoChar | Char(width: nat, u: nat)

  // ----- to UTF-16 and UTF-32 -----

  function UToUtf16Be(u: nat): seq<byte> {
    if u < 0x10000 then [u / 256 % 256, u % 256]
    else
      var u2 := u - 0x10000;
      var v, w := u2 / 1024, u2 % 1024;
      [(0xD8 + v / 256) % 256, v % 256, 0xDC + w / 256, w % 256]
  }

  function UToUtf16Le(u: nat): seq<byte> {
    if u < 0x10000 then [u % 256, u / 256 % 256]
    else
      var u2 := u - 0x10000;
      var v, w := u2 / 1024, u2 % 1024;
      [v % 256, (0xD8 + v / 256) % 256, w % 256, 0xDC + w / 256]
  }

  function UToUtf32Be(u: nat): seq<byte> {
    [0, u / 65536 % 256, u / 256 % 256, u % 256]
  }

  function UToUtf32Le(u: nat): seq<byte> {
    [u % 256, u / 256 % 256, u / 65536 % 256, 0]
  }

  // ----- from UTF-16 and UTF-32 -----

  /** From the 16-bit units at the start of the source, the second one if there is one. */
  function FromUnits(len: nat, u1: nat, u2: nat): Conv {
    if u1 < 0xD800 || u1 > 0xDFFF then Char(2, u1)
    else if u1 >= 0xDC00 || len < 4 then NoChar
    else if u2 < 0xDC00 || u2 > 0xDFFF then NoChar
    else Char(4, 0x10000 + ((u1 - 0xD800) * 1024 + (u2 - 0xDC00)))
  }

  function Unit(high: nat, low: nat): nat {
    high * 256 + low
  }

  function Utf16BeToU(src: seq<byte>): Conv {
    if |src| < 2 then NoChar
    else FromUnits(|src|, Unit(src[0], src[1]), if |src| >= 4 then Unit(src[2], src[3]) else 0)
  }

  function Utf16LeToU(src: seq<byte>): Conv {
    if |src| < 2 then NoChar
    else FromUnits(|src|, Unit(src[1], src[0]), if |src| >= 4 then Unit(src[3], src[2]) else 0)
  }

  function FromWord(u: nat): Conv {
    if IsScalar(u) then Char(4, u) else NoChar
  }

  function Utf32BeToU(src: seq<byte>): Conv {
    if |src| < 4 then NoChar else FromWord(Unit(Unit(Unit(src[0], src[1]), src[2]), src[3]))
  }

  function Utf32LeToU(src: seq<byte>): Conv {
    if |src| < 4 then NoChar else FromWord(Unit(Unit(Unit(src[3], src[2]), src[1]), src[0]))
  }

  // ----- the tables of converters -----

  /** A character within the source, with a Unicode code point. */
  predicate InRange(c: Conv, n: nat) {
    c == NoChar || (1 <= c.width <= n && IsScalar(c.u))
  }

  /** All other converters, which read from legacy character sets. */
  type Reader = (int, seq<byte>, nat) -> Conv

  ghost predicate SaneReader(other: Reader) {
    forall eci: int, src: seq<byte>, flags: nat {:trigger other(eci, src, flags)} ::
      |src| > 0 ==> InRange(other(eci, src, flags), |src|)
  }

  function ReadWith(other: Reader, eci: int, src: seq<byte>, flags: nat): Conv {
    if eci == 25 then Utf16BeToU(src)
    else if eci == 33 then Utf16LeToU(src)
    else if eci == 34 then Utf32BeToU(src)
    else if eci == 35 then Utf32LeToU(src)
    else other(eci, src, flags)
  }

  lemma ReadInRange(other: Reader, eci: int, src: seq<byte>, flags: nat)
    requires SaneReader(other) && |src| > 0
    ensures InRange(ReadWith(other, eci, src, flags), |src|)
  {
  }

  /** All other converters to legacy character sets: no bytes when a code point has no mapping. */
  type Writer = (int, nat) -> seq<byte>

  ghost predicate SaneWriter(other: Writer) {
    forall eci: int, u: nat {:trigger other(eci, u)} :: |other(eci, u)| <= 4
  }

  function WriteWith(other: Writer, eci: int, u: nat): seq<byte> {
    if eci == 1 || eci == 3 then if u >= 0x80 && (u < 0xA0 || u >= 0x100) then [] else [u % 256]
    else if eci == 25 then UToUtf16Be(u)
    else if eci == 33 then UToUtf16Le(u)
    else if eci == 34 then UToUtf32Be(u)
    else if eci == 35 then UToUtf32Le(u)
    else other(eci, u)
  }

  predicate IsUnicodeEci(eci: int) {
    eci in {25, 33, 34, 35}
  }

  // ----- round trips of single code points -----

  lemma Halves(u: nat)
    requires u < 0x10000
    ensures u / 256 % 256 * 256 + u % 256 == u
  {
  }

  /** The surrogates of a supplementary code point. */
  lemma Surrogates(u: nat)
    requires 0x10000 <= u <= 0x10FFFF
    ensures var u2 := u - 0x10000; var v, w := u2 / 1024, u2 % 1024;
      && v < 1024 && v / 256 <= 3 && w / 256 <= 3
      && (0xD8 + v / 256) % 256 * 256 + v % 256 == 0xD800 + v
      && (0xDC + w / 256) * 256 + w % 256 == 0xDC00 + w
      && 0x10000 + (v * 1024 + w) == u
  {
  }

  lemma Bytes(u: nat)
    requires u <= 0x10FFFF
    ensures ((0 * 256 + u / 65536 % 256) * 256 + u / 256 % 256) * 256 + u % 256 == u
  {
    assert u / 65536 == u / 256 / 256;
    assert u / 65536 % 256 == u / 65536;
  }

  /** Every scalar value survives UTF-16 and UTF-32 in either byte order, whatever follows it. */
  lemma UnicodeConverters(eci: int, u: nat, rest: seq<byte>, reader: Reader, writer: Writer, flags: nat)
    requires IsUnicodeEci(eci) && IsScalar(u)
    ensures var t := WriteWith(writer, eci, u);
      2 <= |t| <= 4 && ReadWith(reader, eci, t + rest, flags) == Char(|t|, u)
  {
    if eci == 25 {
      Utf16Be(u, rest);
    } else if eci == 33 {
      Utf16Le(u, rest);
    } else {
      Bytes(u);
      if eci == 34 {
        Starts(UToUtf32Be(u), rest);
      } else {
        Starts(UToUtf32Le(u), rest);
      }
    }
  }

  lemma Starts(t: seq<byte>, rest: seq<byte>)
    ensures forall i :: 0 <= i < |t| ==> (t + rest)[i] == t[i]
  {
  }

  lemma Utf16Be(u: nat, rest: seq<byte>)
    requires IsScalar(u)
    ensures Utf16BeToU(UToUtf16Be(u) + rest) == Char(|UToUtf16Be(u)|, u)
  {
    Starts(UToUtf16Be(u), rest);
    if u < 0x10000 {
      Halves(u);
    } else {
      Surrogates(u);
    }
  }

  lemma Utf16Le(u: nat, rest: seq<byte>)
    requires IsScalar(u)
    ensures Utf16LeToU(UToUtf16Le(u) + rest) == Char(|UToUtf16Le(u)|, u)
  {
    Starts(UToUtf16Le(u), rest);
    if u < 0x10000 {
      Halves(u);
    } else {
      Surrogates(u);
    }
  }

  // ----- skipping -----

  /** How many source bytes a replacement character stands for. */
  function ReplacementIncr(eci: int, src: seq<byte>): (n: nat)
    requires |src| > 0
    ensures 1 <= n <= |src|
  {
    if |src| == 1 then 1
    else if eci <= 18 || 21 <= eci <= 24 || eci == 27 || eci == 170 then 1 // single byte
    else if eci == 25 || eci == 33 then 2 // UTF-16
    else if eci == 34 || eci == 35 then if |src| < 4 then |src| else 4 // UTF-32
    else if eci == 32 && |src| >= 4 && 0x30 <= src[1] <= 0x39 && 0x81 <= src[0] <= 0xE3 then 4 // GB 18030
    else 2
  }
}
