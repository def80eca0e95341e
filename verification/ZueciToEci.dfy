/** Conversion from UTF-8, its length estimate, and the round trips (core/src/libzueci/zueci.c:1339-1468). */
module ZueciToEci {
  import opened ZueciUtf8
  import opened ZueciConverters
  import opened Zueci

  // ----- from UTF-8 -----

  function FromUtf8(other: Writer, eci: int, src: seq<byte>): Converted
    decreases |src|
  {
    if |src| == 0 then Converted(Ok, [])
    else
      var (n, state, u) := ReadChar(src, 0, 0);
      if state != 0 then Error(InvalidUtf8)
      else
        var bytes := WriteWith(other, eci, u);
        if bytes == [] then Error(InvalidData) else Prepend(bytes, false, FromUtf8(other, eci, src[n..]))
  }

  function ToEci(other: Writer, eci: int, src: seq<byte>): Converted {
    if !IsValidEci(eci) then Error(InvalidEci)
    else if eci == 26 then if ValidUtf8(src) then Converted(Ok, src) else Error(InvalidUtf8)
    else FromUtf8(other, eci, src)
  }

  // ----- a sufficient length -----

  function Count(src: seq<byte>, p: byte -> bool): (n: nat)
    ensures n <= |src|
  {
    if |src| == 0 then 0 else (if p(src[0]) then 1 else 0) + Count(src[1..], p)
  }

  method CountBytes(src: seq<byte>, p: byte -> bool) returns (count: nat)
    ensures count == Count(src, p)
  {
    count := 0;
    for s := 0 to |src|
      invariant count + Count(src[s..], p) == Count(src, p)
    {
      assert src[s..][1..] == src[s + 1..];
      if p(src[s]) {
        count := count + 1;
      }
    }
  }

  /** Room that the estimate allows for. */
  function Room(eci: int, src: seq<byte>): nat {
    if eci == 20 then |src| + Count(src, IsBackslash)
    else if eci == 25 || eci == 33 then |src| + Count(src, IsAscii)
    else if eci == 32 then |src| * 2
    else if eci == 34 || eci == 35 then |src| + Count(src, IsAscii) * 2 + |src|
    else |src|
  }

  predicate IsBackslash(b: byte) {
    b == '\\' as int
  }

  predicate IsAscii(b: byte) {
    b <= 0x7F
  }

  method DestLenEci(eci: int, src: seq<byte>) returns (ret: Status, destLen: nat)
    ensures ret == if IsValidEci(eci) then Ok else InvalidEci
    ensures ret == Ok ==> destLen == Room(eci, src)
  {
    destLen := |src|;
    if !IsValidEci(eci) {
      return InvalidEci, 0;
    }
    if eci == 20 {
      var count := CountBytes(src, IsBackslash);
      destLen := destLen + count;
    } else if eci == 25 || eci == 33 {
      var count := CountBytes(src, IsAscii);
      destLen := destLen + count;
    } else if eci == 32 {
      destLen := destLen * 2;
    } else if eci == 34 || eci == 35 {
      var count := CountBytes(src, IsAscii);
      destLen := destLen + count * 2 + |src|;
    }
    ret := Ok;
  }

  /** What the estimate takes for granted of the tables: no character needs more room than is allowed for it. */
  ghost predicate Fits(other: Writer) {
    forall eci: int, u: nat {:trigger other(eci, u)} :: IsScalar(u) ==> |other(eci, u)| <= Room(eci, EncodeUtf8(u))
  }

  lemma {:induction false} CountSplit(a: seq<byte>, b: seq<byte>, p: byte -> bool)
    ensures Count(a + b, p) == Count(a, p) + Count(b, p)
  {
    if |a| == 0 {
      assert a + b == b;
    } else {
      CountSplit(a[1..], b, p);
      assert (a + b)[1..] == a[1..] + b;
    }
  }

  lemma RoomSplit(eci: int, a: seq<byte>, b: seq<byte>)
    ensures Room(eci, a + b) == Room(eci, a) + Room(eci, b)
  {
    CountSplit(a, b, IsBackslash);
    CountSplit(a, b, IsAscii);
  }

  lemma RoomForChar(other: Writer, eci: int, u: nat)
    requires Fits(other) && IsScalar(u)
    ensures |WriteWith(other, eci, u)| <= Room(eci, EncodeUtf8(u))
  {
    hide EncodeUtf8;
    if u < 0x80 {
      OneByte(u);
      assert Count([u], IsAscii) == 1;
    }
  }

  lemma OneByte(u: nat)
    requires u < 0x80
    ensures EncodeUtf8(u) == [u]
  {
  }

  lemma RoomAtLeast(eci: int, src: seq<byte>)
    ensures Room(eci, src) >= |src|
  {
  }

  // ----- the loop -----

  /** Whole output of the loop that has come to position s with some output. */
  ghost function Extended(other: Writer, eci: int, src: seq<byte>, s: nat, done: seq<byte>): Converted
    requires s <= |src|
  {
    Prepend(done, false, FromUtf8(other, eci, src[s..]))
  }

  lemma ExtendedStart(other: Writer, eci: int, src: seq<byte>)
    ensures Extended(other, eci, src, 0, []) == FromUtf8(other, eci, src)
  {
    assert src[0..] == src;
    NeverWarns(other, eci, src);
    var c := FromUtf8(other, eci, src);
    assert [] + c.dest == c.dest;
  }

  lemma {:induction false} NeverWarns(other: Writer, eci: int, src: seq<byte>)
    ensures var c := FromUtf8(other, eci, src); c.status != Ok ==> c.status.IsError() && c.dest == []
    decreases |src|
  {
    hide ReadChar, WriteWith;
    if |src| > 0 {
      NeverWarns(other, eci, src[ReadChar(src, 0, 0).0..]);
    }
  }

  lemma ExtendedStep(other: Writer, eci: int, src: seq<byte>, s: nat, done: seq<byte>)
    requires s < |src|
    ensures var (n, state, u) := ReadChar(src[s..], 0, 0); var bytes := WriteWith(other, eci, u);
      && (state != 0 ==> Extended(other, eci, src, s, done) == Error(InvalidUtf8))
      && (state == 0 && bytes == [] ==> Extended(other, eci, src, s, done) == Error(InvalidData))
      && (state == 0 && bytes != [] ==> Extended(other, eci, src, s, done) == Extended(other, eci, src, s + n, done + bytes))
  {
    hide ReadChar, WriteWith, Prepend;
    var rest := src[s..];
    var (n, state, u) := ReadChar(rest, 0, 0);
    var bytes := WriteWith(other, eci, u);
    assert rest[n..] == src[s + n..];
    PrependError(done, false, InvalidUtf8);
    PrependError(done, false, InvalidData);
    PrependTwice(done, false, bytes, false, FromUtf8(other, eci, rest[n..]));
  }

  /** Four bytes for each source byte, or what the estimate allows when the tables keep to it. */
  ghost predicate HasRoomFor(other: Writer, eci: int, src: seq<byte>, dest: array<byte>) {
    dest.Length >= 4 * |src| || (Fits(other) && dest.Length >= Room(eci, src))
  }

  /** Output up to position s that neither bound excludes. */
  ghost predicate Within(other: Writer, eci: int, src: seq<byte>, s: nat, d: nat)
    requires s <= |src|
  {
    d <= 4 * s && (Fits(other) ==> d <= Room(eci, src[..s]))
  }

  lemma WithinRoom(other: Writer, eci: int, src: seq<byte>, s: nat, d: nat, dest: array<byte>)
    requires s <= |src| && Within(other, eci, src, s, d) && HasRoomFor(other, eci, src, dest)
    ensures d <= dest.Length
  {
    hide Fits, Room;
    RoomSplit(eci, src[..s], src[s..]);
    RoomAtLeast(eci, src[s..]);
    assert src[..s] + src[s..] == src;
  }

  /** One more character stays within both bounds. */
  lemma WithinStep(other: Writer, eci: int, src: seq<byte>, s: nat, d: nat)
    requires SaneWriter(other) && s < |src| && Within(other, eci, src, s, d) && ReadChar(src[s..], 0, 0).1 == 0
    ensures var (n, _, u) := ReadChar(src[s..], 0, 0);
      s + n <= |src| && Within(other, eci, src, s + n, d + |WriteWith(other, eci, u)|)
  {
    hide Fits, Room, ReadChar, WriteWith, EncodeUtf8;
    var rest := src[s..];
    var (n, _, u) := ReadChar(rest, 0, 0);
    ReadScalar(rest);
    AtMostFour(other, eci, u);
    if Fits(other) {
      RoomForChar(other, eci, u);
      RoomSplit(eci, src[..s], rest[..n]);
      assert src[..s] + rest[..n] == src[..s + n];
    }
  }

  lemma WithinStart(other: Writer, eci: int, src: seq<byte>)
    ensures Within(other, eci, src, 0, 0)
  {
  }

  /** The ISO/IEC 8859-1 loop and the loop over a converter are the same loop. */
  method FromUtf8Loop(other: Writer, eci: int, src: seq<byte>, dest: array<byte>) returns (ret: Status, d: nat)
    requires SaneWriter(other) && HasRoomFor(other, eci, src, dest)
    modifies dest
    ensures d <= 4 * |src| && Leaves(FromUtf8(other, eci, src), ret, dest, d)
  {
    hide FromUtf8, Extended, ReadChar, WriteWith, Fits, Room, HasRoomFor, Within;
    var s := 0;
    d := 0;
    ExtendedStart(other, eci, src);
    WithinStart(other, eci, src);
    assert dest[..0] == [];
    while s < |src|
      invariant s <= |src| && d <= dest.Length && Within(other, eci, src, s, d)
      invariant Extended(other, eci, src, s, dest[..d]) == FromUtf8(other, eci, src)
    {
      ExtendedStep(other, eci, src, s, dest[..d]);
      var next, state, u := NextChar(src, s);
      if state != 0 {
        return InvalidUtf8, 0;
      }
      var bytes := WriteWith(other, eci, u);
      if bytes == [] {
        return InvalidData, 0;
      }
      WithinStep(other, eci, src, s, d);
      WithinRoom(other, eci, src, next, d + |bytes|, dest);
      s := next;
      d := Put(dest, d, bytes);
    }
    WithinEnd(other, eci, src, d);
    ExtendedEnd(other, eci, src, dest[..d]);
    ret := Ok;
  }

  lemma WithinEnd(other: Writer, eci: int, src: seq<byte>, d: nat)
    requires Within(other, eci, src, |src|, d)
    ensures d <= 4 * |src|
  {
  }

  lemma AtMostFour(other: Writer, eci: int, u: nat)
    requires SaneWriter(other)
    ensures |WriteWith(other, eci, u)| <= 4
  {
  }

  lemma ExtendedEnd(other: Writer, eci: int, src: seq<byte>, done: seq<byte>)
    ensures Extended(other, eci, src, |src|, done) == Converted(Ok, done)
  {
    PrependEnd(done, false);
  }

  /** The destination must have four bytes for every source byte, or the estimated length. */
  method Utf8ToEci(other: Writer, eci: int, src: seq<byte>, dest: array<byte>) returns (ret: Status, destLen: nat)
    requires SaneWriter(other) && HasRoomFor(other, eci, src, dest)
    modifies dest
    ensures destLen <= 4 * |src| && Leaves(ToEci(other, eci, src), ret, dest, destLen)
  {
    hide FromUtf8, ValidUtf8, ReadChar, Fits, Room;
    RoomAtLeast(eci, src);
    if !IsValidEci(eci) {
      return InvalidEci, 0;
    }
    if eci == 26 {
      var valid := IsValidUtf8(src);
      if !valid {
        return InvalidUtf8, 0;
      }
      assert dest[..0] == [];
      destLen := Put(dest, 0, src);
      ret := Ok;
    } else {
      ret, destLen := FromUtf8Loop(other, eci, src, dest);
    }
  }

  /** A successful conversion never needs more than the estimate. */
  lemma {:induction false} RoomSuffices(other: Writer, eci: int, src: seq<byte>)
    requires Fits(other)
    ensures |ToEci(other, eci, src).dest| <= Room(eci, src)
    decreases |src|
  {
    hide ReadChar, WriteWith, Room, EncodeUtf8, ValidUtf8;
    RoomAtLeast(eci, src);
    if |src| > 0 && IsValidEci(eci) && eci != 26 {
      var (n, state, u) := ReadChar(src, 0, 0);
      if state == 0 {
        ReadScalar(src);
        RoomForChar(other, eci, u);
        RoomSplit(eci, src[..n], src[n..]);
        assert src[..n] + src[n..] == src;
        RoomSuffices(other, eci, src[n..]);
      }
    }
  }

  /** Up to U+07FF the estimate is exact for UTF-16 and UTF-32, for ASCII also for ISO/IEC 8859-1. */
  lemma RoomOfChar(other: Writer, eci: int, u: nat)
    requires (u < 0x800 && IsUnicodeEci(eci)) || (u < 0x80 && (eci == 1 || eci == 3))
    ensures |WriteWith(other, eci, u)| == Room(eci, EncodeUtf8(u)) > 0
  {
    if u < 0x80 {
      CountOne(u);
    } else {
      CountTwo(0xC0 + u / 64, 0x80 + u % 64);
    }
  }

  lemma CountOne(a: byte)
    ensures Count([a], IsAscii) == if a < 0x80 then 1 else 0
  {
  }

  lemma CountTwo(a: byte, b: byte)
    requires a >= 0x80 && b >= 0x80
    ensures Count([a, b], IsAscii) == 0
  {
    assert [a, b][1..] == [b];
    CountOne(b);
  }

  /** A string of such characters. */
  ghost predicate AllBelow(src: seq<byte>, limit: nat)
    decreases |src|
  {
    |src| == 0 || (CharLength(src) > 0 && CodePoint(src) < limit && AllBelow(src[CharLength(src)..], limit))
  }

  lemma {:induction false} RoomAttained(other: Writer, eci: int, src: seq<byte>)
    requires AllBelow(src, if eci == 1 || eci == 3 then 0x80 else 0x800) && (IsUnicodeEci(eci) || eci == 1 || eci == 3)
    ensures ToEci(other, eci, src).status == Ok && |ToEci(other, eci, src).dest| == Room(eci, src)
    decreases |src|
  {
    hide ReadChar, EncodeUtf8, ValidUtf8, CodePoint, CharLength, Room, WriteWith;
    if |src| == 0 {
      NoRoom(eci);
    } else {
      ReadCharGrammar(src);
      ReadScalar(src);
      var (n, _, u) := ReadChar(src, 0, 0);
      RoomOfChar(other, eci, u);
      RoomAttained(other, eci, src[n..]);
      RoomSplit(eci, src[..n], src[n..]);
      assert src[..n] + src[n..] == src;
    }
  }

  lemma NoRoom(eci: int)
    ensures Room(eci, []) == 0
  {
  }

  /** Shift JIS: one byte more for each backslash. GB 18030: the four bytes of a character that has two in UTF-8. */
  lemma {:induction false} LegacyRoom(src: seq<byte>, u: nat)
    requires 0x80 <= u < 0x800
    ensures Room(20, src) == |src| + multiset(src)[92]
    ensures Room(32, EncodeUtf8(u)) == 4
    decreases |src|
  {
    if |src| > 0 {
      LegacyRoom(src[1..], u);
      assert src == [src[0]] + src[1..];
    }
  }

  // ----- round trips -----

  predicate IsUnicode(eci: int) {
    eci == 26 || IsUnicodeEci(eci)
  }

  /** Bytes as digits to the base 256, the first one highest. */
  function BigEndian(s: seq<byte>): nat {
    if |s| == 0 then 0 else BigEndian(s[..|s| - 1]) * 256 + s[|s| - 1]
  }

  lemma BigEndianOf(s: seq<byte>)
    ensures |s| == 2 ==> BigEndian(s) == Unit(s[0], s[1])
    ensures |s| == 4 ==> BigEndian(s) == Unit(Unit(Unit(s[0], s[1]), s[2]), s[3])
  {
    if |s| == 2 {
      assert BigEndian(s[..1]) == BigEndian(s[..1][..0]) * 256 + s[0];
    } else if |s| == 4 {
      var t := s[..3];
      assert t[..2] == s[..2];
      BigEndianOf(s[..2]);
      assert BigEndian(t) == BigEndian(t[..2]) * 256 + s[2];
    }
  }

  lemma Order32(u: nat)
    requires u <= 0x10FFFF
    ensures var b := UToUtf32Be(u); BigEndian(b) == u && UToUtf32Le(u) == [b[3], b[2], b[1], b[0]]
  {
    hide BigEndian;
    Bytes(u);
    BigEndianOf(UToUtf32Be(u));
  }

  lemma Order16(u: nat)
    requires u < 0x10000
    ensures var b := UToUtf16Be(u); |b| == 2 && BigEndian(b) == u && UToUtf16Le(u) == [b[1], b[0]]
  {
    hide BigEndian;
    Halves(u);
    BigEndianOf(UToUtf16Be(u));
  }

  lemma OrderPair(u: nat)
    requires 0x10000 <= u <= 0x10FFFF
    ensures var b := UToUtf16Be(u);
      && |b| == 4 && UToUtf16Le(u) == [b[1], b[0], b[3], b[2]]
      && BigEndian(b[..2]) == 0xD800 + (u - 0x10000) / 1024 && BigEndian(b[2..]) == 0xDC00 + (u - 0x10000) % 1024
  {
    hide BigEndian;
    Surrogates(u);
    var b := UToUtf16Be(u);
    assert b[..2] == [b[0], b[1]] && b[2..] == [b[2], b[3]];
    BigEndianOf(b[..2]);
    BigEndianOf(b[2..]);
  }

  /**
   * The byte orders: in the encodings named BE the bytes of a unit are its digits, highest first, and in those named LE
   * their order is reversed. Supplementary characters are two surrogates with ten bits each.
   */
  lemma ByteOrders(writer: Writer, u: nat)
    requires IsScalar(u)
    ensures var b := WriteWith(writer, 34, u);
      |b| == 4 && BigEndian(b) == u && WriteWith(writer, 35, u) == [b[3], b[2], b[1], b[0]]
    ensures var b := WriteWith(writer, 25, u);
      if u < 0x10000 then |b| == 2 && BigEndian(b) == u && WriteWith(writer, 33, u) == [b[1], b[0]]
      else
        && |b| == 4 && WriteWith(writer, 33, u) == [b[1], b[0], b[3], b[2]]
        && BigEndian(b[..2]) == 0xD800 + (u - 0x10000) / 1024 && BigEndian(b[2..]) == 0xDC00 + (u - 0x10000) % 1024
  {
    hide BigEndian, UToUtf16Be, UToUtf16Le, UToUtf32Le;
    Order32(u);
    if u < 0x10000 {
      Order16(u);
    } else {
      OrderPair(u);
    }
  }

  lemma Halved(a: byte, b: byte)
    ensures Unit(a, b) < 0x10000 && Unit(a, b) / 256 % 256 == a && Unit(a, b) % 256 == b
  {
  }

  lemma Paired(a: byte, b: byte, c: byte, d: byte)
    ensures var u1, u2 := Unit(a, b), Unit(c, d);
      0xD800 <= u1 < 0xDC00 && 0xDC00 <= u2 <= 0xDFFF ==>
        var u := 0x10000 + ((u1 - 0xD800) * 1024 + (u2 - 0xDC00));
        && IsScalar(u) && UToUtf16Be(u) == [a, b, c, d] && UToUtf16Le(u) == [b, a, d, c]
  {
    var u1, u2 := Unit(a, b), Unit(c, d);
    if 0xD800 <= u1 < 0xDC00 && 0xDC00 <= u2 <= 0xDFFF {
      var v, w := u1 - 0xD800, u2 - 0xDC00;
      assert (v * 1024 + w) / 1024 == v && (v * 1024 + w) % 1024 == w;
      assert v == (a - 0xD8) * 256 + b && w == (c - 0xDC) * 256 + d;
      assert v / 256 == a - 0xD8 && v % 256 == b && w / 256 == c - 0xDC && w % 256 == d;
    }
  }

  lemma Worded(a: byte, b: byte, c: byte, d: byte)
    ensures var u := Unit(Unit(Unit(a, b), c), d);
      IsScalar(u) ==> UToUtf32Be(u) == [a, b, c, d] && UToUtf32Le(u) == [d, c, b, a]
  {
    var u := Unit(Unit(Unit(a, b), c), d);
    if IsScalar(u) {
      assert a == 0;
      assert u / 256 == Unit(b, c) && u / 65536 == b;
    }
  }

  lemma Prefix4(src: seq<byte>)
    requires |src| >= 2
    ensures src[..2] == [src[0], src[1]]
    ensures |src| >= 4 ==> src[..4] == [src[0], src[1], src[2], src[3]]
  {
  }

  lemma WriteRead16Be(src: seq<byte>)
    requires |src| >= 2
    ensures var c := Utf16BeToU(src);
      c.Char? ==> 2 <= c.width <= |src| && IsScalar(c.u) && UToUtf16Be(c.u) == src[..c.width]
  {
    hide Unit;
    Prefix4(src);
    Halved(src[0], src[1]);
    if |src| >= 4 {
      Paired(src[0], src[1], src[2], src[3]);
    }
  }

  lemma WriteRead16Le(src: seq<byte>)
    requires |src| >= 2
    ensures var c := Utf16LeToU(src);
      c.Char? ==> 2 <= c.width <= |src| && IsScalar(c.u) && UToUtf16Le(c.u) == src[..c.width]
  {
    hide Unit;
    Prefix4(src);
    Halved(src[1], src[0]);
    if |src| >= 4 {
      Paired(src[1], src[0], src[3], src[2]);
    }
  }

  /** Reading a character in UTF-16 or UTF-32 and writing it gives back its bytes. */
  lemma WriteRead(reader: Reader, writer: Writer, eci: int, src: seq<byte>, flags: nat)
    requires IsUnicodeEci(eci) && |src| > 0
    ensures var c := ReadWith(reader, eci, src, flags);
      c.Char? ==> 2 <= c.width <= |src| && IsScalar(c.u) && WriteWith(writer, eci, c.u) == src[..c.width]
  {
    hide Unit, UToUtf16Be, UToUtf16Le, UToUtf32Be, UToUtf32Le, Utf16BeToU, Utf16LeToU;
    if |src| >= 2 {
      Prefix4(src);
      WriteRead16Be(src);
      WriteRead16Le(src);
      if |src| >= 4 {
        Worded(src[0], src[1], src[2], src[3]);
        Worded(src[3], src[2], src[1], src[0]);
      }
    } else {
      TooShort(src);
    }
  }

  lemma TooShort(src: seq<byte>)
    requires |src| < 2
    ensures Utf16BeToU(src) == NoChar && Utf16LeToU(src) == NoChar
  {
  }

  /** Valid UTF-8 begins with a character that is read with its length and encodes back to the same bytes. */
  lemma ReadValid(src: seq<byte>)
    requires |src| > 0
    ensures var (n, state, u) := ReadChar(src, 0, 0);
      && (ValidUtf8(src) ==> state == 0 && ValidUtf8(src[n..]))
      && (state == 0 && ValidUtf8(src[n..]) ==> ValidUtf8(src))
      && (state == 0 ==> IsScalar(u) && EncodeUtf8(u) == src[..n])
  {
    hide ReadChar, CharLength, CodePoint, EncodeUtf8;
    ReadCharGrammar(src);
    ReadScalar(src);
  }

  lemma ReadEncoded(u: nat, rest: seq<byte>)
    requires IsScalar(u)
    ensures var e := EncodeUtf8(u); ReadChar(e + rest, 0, 0) == (|e|, 0, u)
  {
    hide ReadChar, CharLength, CodePoint, EncodeUtf8;
    DecodeEncoded(u, rest);
    ReadCharGrammar(EncodeUtf8(u) + rest);
  }

  /** One turn of the conversion from UTF-8. */
  lemma FromUtf8Step(writer: Writer, eci: int, src: seq<byte>)
    requires |src| > 0
    ensures var (n, state, u) := ReadChar(src, 0, 0); var bytes := WriteWith(writer, eci, u);
      && (state != 0 ==> FromUtf8(writer, eci, src) == Error(InvalidUtf8))
      && (state == 0 && bytes != [] ==> FromUtf8(writer, eci, src) == Prepend(bytes, false, FromUtf8(writer, eci, src[n..])))
  {
  }

  /** A character in UTF-8 and the conversion of what follows it. */
  function Behind(loop: Loop, src: seq<byte>, c: Conv, replacement: seq<byte>): Converted
    requires Sane(loop) && |replacement| <= 3 && c.Char? && c.width <= |src| && IsScalar(c.u)
  {
    Prepend(EncodeUtf8(c.u), false, Convert(loop, src[c.width..], replacement))
  }

  /** One turn of the conversion to UTF-8 through a converter. */
  lemma TableStep(reader: Reader, eci: int, flags: nat, src: seq<byte>, replacement: seq<byte>)
    requires SaneReader(reader) && |replacement| <= 3 && |src| > 0
    ensures var loop, c := Table(reader, eci, flags), ReadWith(reader, eci, src, flags);
      && (c == NoChar && replacement == [] ==> Convert(loop, src, replacement) == Error(InvalidData))
      && (c.Char? ==> 1 <= c.width <= |src| && IsScalar(c.u))
      && (c.Char? ==> Convert(loop, src, replacement) == Behind(loop, src, c, replacement))
  {
    hide ReadWith, EncodeUtf8, ReplacementIncr;
    ReadInRange(reader, eci, src, flags);
  }

  predicate Succeeds(c: Converted, dest: seq<byte>) {
    c == Converted(Ok, dest)
  }

  /** UTF-16 and UTF-32: exactly valid UTF-8 converts, and it converts back, whatever the replacement character. */
  lemma {:induction false} ThereAndBack(reader: Reader, writer: Writer, eci: int, src: seq<byte>, replacement: seq<byte>,
                                        flags: nat)
    requires SaneReader(reader) && IsUnicodeEci(eci) && |replacement| <= 3
    ensures var c := FromUtf8(writer, eci, src);
      && (c.status == if ValidUtf8(src) then Ok else InvalidUtf8)
      && (ValidUtf8(src) ==> Succeeds(Convert(Table(reader, eci, flags), c.dest, replacement), src))
    decreases |src|
  {
    hide ReadChar, ValidUtf8, WriteWith, ReadWith, FromUtf8, Convert, EncodeUtf8;
    if |src| == 0 {
      Nothing(reader, writer, eci, replacement, flags);
    } else {
      var (n, state, u) := ReadChar(src, 0, 0);
      ReadValid(src);
      FromUtf8Step(writer, eci, src);
      if state == 0 {
        var bytes, c := WriteWith(writer, eci, u), FromUtf8(writer, eci, src[n..]);
        ThereAndBack(reader, writer, eci, src[n..], replacement, flags);
        UnicodeConverters(eci, u, c.dest, reader, writer, flags);
        TableStep(reader, eci, flags, bytes + c.dest, replacement);
        assert (bytes + c.dest)[|bytes|..] == c.dest;
        assert src[..n] + src[n..] == src;
      }
    }
  }

  lemma Nothing(reader: Reader, writer: Writer, eci: int, replacement: seq<byte>, flags: nat)
    requires SaneReader(reader) && |replacement| <= 3
    ensures ValidUtf8([]) && FromUtf8(writer, eci, []) == Converted(Ok, [])
    ensures Convert(Table(reader, eci, flags), [], replacement) == Converted(Ok, [])
  {
  }

  /** UTF-16 and UTF-32: what converts to UTF-8 without a replacement gives valid UTF-8, which converts back. */
  lemma {:induction false} BackAndThere(reader: Reader, writer: Writer, eci: int, src: seq<byte>, flags: nat)
    requires SaneReader(reader) && IsUnicodeEci(eci)
    ensures var c := Convert(Table(reader, eci, flags), src, []);
      c.status == Ok ==> ValidUtf8(c.dest) && Succeeds(FromUtf8(writer, eci, c.dest), src)
    decreases |src|
  {
    hide ReadChar, ValidUtf8, WriteWith, ReadWith, FromUtf8, Convert, EncodeUtf8;
    if |src| == 0 {
      Nothing(reader, writer, eci, [], flags);
    } else {
      TableStep(reader, eci, flags, src, []);
      WriteRead(reader, writer, eci, src, flags);
      match ReadWith(reader, eci, src, flags)
      case NoChar =>
      case Char(width, u) =>
        var c := Convert(Table(reader, eci, flags), src[width..], []);
        BackAndThere(reader, writer, eci, src[width..], flags);
        var dest := EncodeUtf8(u) + c.dest;
        ReadEncoded(u, c.dest);
        assert dest[|EncodeUtf8(u)|..] == c.dest;
        ReadValid(dest);
        FromUtf8Step(writer, eci, dest);
        assert src[..width] + src[width..] == src;
    }
  }

  /** Valid UTF-8 read character by character is copied, whatever the replacement character. */
  lemma {:induction false} ValidIsCopied(src: seq<byte>, replacement: seq<byte>)
    requires |replacement| <= 3 && ValidUtf8(src)
    ensures Convert(Utf8, src, replacement) == Converted(Ok, src)
    decreases |src|
  {
    hide ReadChar, EncodeUtf8, Skip;
    if |src| > 0 {
      ReadValid(src);
      var n := ReadChar(src, 0, 0).0;
      ValidIsCopied(src[n..], replacement);
      assert src[..n] + src[n..] == src;
    }
  }

  /**
   * From UTF-8 to UTF-16, UTF-32 or UTF-8 and back: exactly the strings of the grammar convert, the others
   * are reported, and the way back is the identity for every replacement character and all flags.
   */
  lemma UnicodeRoundTrip(reader: Reader, writer: Writer, eci: int, src: seq<byte>, replacementChar: nat, flags: nat)
    requires SaneReader(reader) && IsUnicode(eci) && GoodReplacement(replacementChar)
    ensures var c := ToEci(writer, eci, src);
      && (c.status == if ValidUtf8(src) then Ok else InvalidUtf8)
      && (ValidUtf8(src) ==> Succeeds(ToUtf8(reader, eci, c.dest, replacementChar, flags), src))
  {
    hide ValidUtf8, FromUtf8, Convert, EncodeUtf8;
    var replacement := Replacement(replacementChar);
    if eci == 26 {
      if ValidUtf8(src) {
        ValidIsCopied(src, replacement);
      }
    } else {
      ThereAndBack(reader, writer, eci, src, replacement, flags);
    }
  }

  /** The other way round: whatever converts to UTF-8 without a replacement is restored. */
  lemma UnicodeRestored(reader: Reader, writer: Writer, eci: int, src: seq<byte>, flags: nat)
    requires SaneReader(reader) && IsUnicode(eci)
    ensures var c := ToUtf8(reader, eci, src, 0, flags);
      c.status == Ok ==> ValidUtf8(c.dest) && Succeeds(ToEci(writer, eci, c.dest), src)
  {
    hide ValidUtf8, FromUtf8, Convert;
    if eci != 26 {
      BackAndThere(reader, writer, eci, src, flags);
    }
  }
}
