/** Conversions between UTF-8 and ECI character sets, and their length pre-pass (core/src/libzueci/zueci.c:1346-1715). */
module Zueci {
  import opened ZueciUtf8
  import opened ZueciConverters

  datatype Status = Ok | WarnInvalidData | InvalidData | InvalidEci | InvalidArgs | InvalidUtf8 {
    predicate IsError() {
      this != Ok && this != WarnInvalidData
    }
  }

  /** Status and output; an error leaves no output. */
  datatype Converted = Converted(status: Status, dest: seq<byte>)

  function Error(status: Status): Converted {
    Converted(status, [])
  }

  /** More output in front, and a warning if there was one. */
  function Prepend(bytes: seq<byte>, warn: bool, rest: Converted): Converted {
    if rest.status.IsError() then rest
    else Converted(if warn then WarnInvalidData else rest.status, bytes + rest.dest)
  }

  predicate IsValidEci(eci: int) {
    (0 <= eci <= 35 && eci != 14 && eci != 19) || eci == 170 || eci == 899
  }

  // ----- to UTF-8 -----

  predicate StraightThru(flags: nat) {
    flags % 2 == 1
  }

  /** Continuation bytes at the start. */
  function Tails(src: seq<byte>): (n: nat)
    ensures n <= |src|
  {
    if |src| > 0 && IsTail(src[0]) then 1 + Tails(src[1..]) else 0
  }

  /** An ASCII byte fails only inside a character, so going back over it still advances. */
  lemma FailsLater(src: seq<byte>)
    requires |src| > 0
    ensures var (n, state, _) := ReadChar(src, 0, 0); state != 0 && src[n - 1] < 0x80 ==> n >= 2
  {
    hide Class, Transition;
    FirstByte(src[0]);
  }

  /** Source bytes given up for a replacement character: without a final ASCII byte, or with continuation bytes. */
  function Skip(src: seq<byte>): (n: nat)
    requires |src| > 0 && ReadChar(src, 0, 0).1 != 0
    ensures 1 <= n <= |src|
  {
    FailsLater(src);
    var n := ReadChar(src, 0, 0).0;
    if src[n - 1] < 0x80 then n - 1 else n + Tails(src[n..])
  }

  lemma ReadScalar(src: seq<byte>)
    requires |src| > 0
    ensures var (n, state, u) := ReadChar(src, 0, 0);
      state == 0 ==> IsScalar(u) && EncodeUtf8(u) == src[..n]
  {
    hide ReadChar, CharLength, CodePoint, EncodeUtf8;
    ReadCharGrammar(src);
    if ReadChar(src, 0, 0).1 == 0 {
      EncodeDecoded(src);
    }
  }

  /** One turn of a conversion loop: source bytes used, output, and whether a warning is due; or the error it ends with. */
  datatype Piece = Piece(width: nat, bytes: seq<byte>, warn: bool) | Stop(error: Status)

  /** The four conversion loops. */
  datatype Loop = Binary | Latin1 | Utf8 | Table(other: Reader, eci: int, flags: nat)

  ghost predicate Sane(loop: Loop) {
    loop.Table? ==> SaneReader(loop.other)
  }

  /** An unreadable character becomes the replacement; an empty one stands for none and makes it an error. */
  function Replaced(width: nat, replacement: seq<byte>, error: Status): Piece {
    if replacement == [] then Stop(error) else Piece(width, replacement, true)
  }

  function NextPiece(loop: Loop, src: seq<byte>, replacement: seq<byte>): Piece
    requires Sane(loop) && |src| > 0
  {
    match loop
    case Binary => Piece(1, EncodeUtf8(src[0]), false)
    case Latin1 =>
      if 0x80 <= src[0] < 0xA0 then Replaced(1, replacement, InvalidData) else Piece(1, EncodeUtf8(src[0]), false)
    case Utf8 =>
      var (n, state, u) := ReadChar(src, 0, 0);
      ReadScalar(src);
      if state != 0 then Replaced(Skip(src), replacement, InvalidUtf8) else Piece(n, EncodeUtf8(u), false)
    case Table(other, eci, flags) =>
      ReadInRange(other, eci, src, flags);
      match ReadWith(other, eci, src, flags)
      case NoChar => Replaced(ReplacementIncr(eci, src), replacement, InvalidData)
      case Char(width, u) => Piece(width, EncodeUtf8(u), false)
  }

  /** Every turn advances, stays within the source and puts out at most four bytes for each one it uses. */
  lemma PieceInRange(loop: Loop, src: seq<byte>, replacement: seq<byte>)
    requires Sane(loop) && |src| > 0 && |replacement| <= 3
    ensures match NextPiece(loop, src, replacement)
      case Piece(width, bytes, _) => 1 <= width <= |src| && 1 <= |bytes| <= 4 * width
      case Stop(error) => error.IsError()
  {
    hide ReadChar, EncodeUtf8, EncodedLength;
    if loop.Table? {
      ReadInRange(loop.other, loop.eci, src, loop.flags);
    } else if loop.Utf8? {
      ReadScalar(src);
    }
  }

  function Convert(loop: Loop, src: seq<byte>, replacement: seq<byte>): Converted
    requires Sane(loop) && |replacement| <= 3
    decreases |src|
  {
    if |src| == 0 then Converted(Ok, [])
    else
      PieceInRange(loop, src, replacement);
      match NextPiece(loop, src, replacement)
      case Stop(error) => Error(error)
      case Piece(width, bytes, warn) => Prepend(bytes, warn, Convert(loop, src[width..], replacement))
  }

  /** The replacement character must be a non-surrogate of the basic plane. */
  predicate GoodReplacement(replacementChar: nat) {
    replacementChar == 0 || (IsScalar(replacementChar) && replacementChar <= 0xFFFF)
  }

  function Replacement(replacementChar: nat): (r: seq<byte>)
    requires GoodReplacement(replacementChar)
    ensures r == [] <==> replacementChar == 0
    ensures |r| <= 3
  {
    if replacementChar == 0 then [] else EncodeUtf8(replacementChar)
  }

  predicate IsBinary(eci: int, flags: nat) {
    eci == 899 || (StraightThru(flags) && eci in {1, 3, 27, 170})
  }

  function ToUtf8(other: Reader, eci: int, src: seq<byte>, replacementChar: nat, flags: nat): Converted
    requires SaneReader(other)
  {
    if !IsValidEci(eci) then Error(InvalidEci)
    else if IsBinary(eci, flags) then Convert(Binary, src, [])
    else if !GoodReplacement(replacementChar) then Error(InvalidArgs)
    else
      var replacement := Replacement(replacementChar);
      if eci == 1 || eci == 3 then Convert(Latin1, src, replacement)
      else if eci == 26 then
        if replacementChar != 0 then Convert(Utf8, src, replacement)
        else if ValidUtf8(src) then Converted(Ok, src)
        else Error(InvalidUtf8)
      else Convert(Table(other, eci, flags), src, replacement)
  }

  /** Without a replacement, reading UTF-8 character by character is copying it when it is valid and failing when not. */
  lemma {:induction false} StrictUtf8(src: seq<byte>)
    ensures Convert(Utf8, src, []) == if ValidUtf8(src) then Converted(Ok, src) else Error(InvalidUtf8)
    decreases |src|
  {
    hide ReadChar, CharLength, CodePoint, EncodeUtf8, Skip;
    if |src| > 0 {
      var (n, state, u) := ReadChar(src, 0, 0);
      ReadCharGrammar(src);
      ReadScalar(src);
      if state == 0 {
        StrictUtf8(src[n..]);
        assert src[..n] + src[n..] == src;
      }
    }
  }

  // ----- the loops, writing through a cursor -----

  lemma PrependTwice(a: seq<byte>, v: bool, b: seq<byte>, w: bool, c: Converted)
    ensures Prepend(a, v, Prepend(b, w, c)) == Prepend(a + b, v || w, c)
  {
    assert a + (b + c.dest) == (a + b) + c.dest;
  }

  /** The status a loop ends with. */
  function Ret(warned: bool): Status {
    if warned then WarnInvalidData else Ok
  }

  lemma PrependEnd(a: seq<byte>, warned: bool)
    ensures Prepend(a, warned, Converted(Ok, [])) == Converted(Ret(warned), a)
  {
    assert a + [] == a;
  }

  /** What a conversion leaves in the destination. */
  ghost predicate Leaves(c: Converted, status: Status, dest: array<byte>, len: nat)
    reads dest
  {
    && status == c.status
    && (!status.IsError() ==> len <= dest.Length && dest[..len] == c.dest)
  }

  /** Room for any output of the conversion: four bytes for each source byte, or what a successful one writes. */
  ghost predicate HasRoom(c: Converted, src: seq<byte>, dest: array<byte>) {
    dest.Length >= 4 * |src| || (!c.status.IsError() && dest.Length >= |c.dest|)
  }

  method Put(dest: array<byte>, d: nat, bytes: seq<byte>) returns (d': nat)
    requires d + |bytes| <= dest.Length
    modifies dest
    ensures d' == d + |bytes| && dest[..d'] == old(dest[..d]) + bytes
  {
    for i := 0 to |bytes|
      invariant dest[..d + i] == old(dest[..d]) + bytes[..i]
    {
      dest[d + i] := bytes[i];
      assert bytes[..i + 1] == bytes[..i] + [bytes[i]];
      assert dest[..d + i + 1] == dest[..d + i] + [bytes[i]];
    }
    assert bytes[..|bytes|] == bytes;
    d' := d + |bytes|;
  }

  /** Writes the encoding of a code point and returns its length. */
  method PutUtf8(u: nat, dest: array<byte>, d: nat) returns (len: nat)
    requires u <= 0x10FFFF && d + EncodedLength(u) <= dest.Length
    modifies dest
    ensures len == EncodedLength(u) && dest[..d + len] == old(dest[..d]) + EncodeUtf8(u)
  {
    if u < 0x80 {
      dest[d] := u;
      return 1;
    }
    if u < 0x800 {
      dest[d] := 0xC0 + u / 64;
      dest[d + 1] := 0x80 + u % 64;
      return 2;
    }
    if u < 0x10000 {
      dest[d] := 0xE0 + u / 4096;
      dest[d + 1] := 0x80 + u / 64 % 64;
      dest[d + 2] := 0x80 + u % 64;
      return 3;
    }
    dest[d] := 0xF0 + u / 262144;
    dest[d + 1] := 0x80 + u / 4096 % 64;
    dest[d + 2] := 0x80 + u / 64 % 64;
    dest[d + 3] := 0x80 + u % 64;
    return 4;
  }

  /** Decodes from position s to the end of a character, an error or the end of the source. */
  method NextChar(src: seq<byte>, s: nat) returns (s': nat, state: nat, u: nat)
    requires s < |src|
    ensures (s' - s, state, u) == ReadChar(src[s..], 0, 0) && s < s' <= |src|
  {
    hide Class, Transition, LeadBits;
    s', state, u := s, 0, 0;
    while true
      invariant s <= s' < |src| && (s' > s ==> state != 0 && state != ERROR)
      invariant var (n, st, v) := ReadChar(src[s'..], state, u); (s' - s + n, st, v) == ReadChar(src[s..], 0, 0)
      decreases |src| - s'
    {
      ghost var rest := src[s'..];
      assert rest[1..] == src[s' + 1..];
      var (next, v) := Decode(state, u, src[s']);
      state, u := next, v;
      s' := s' + 1;
      if !(s' < |src| && state != 0 && state != ERROR) {
        break;
      }
    }
  }

  // ----- one turn seen from the cursor -----

  /** Whole output of a loop that has come to position s with some output and perhaps a warning. */
  ghost function Continued(loop: Loop, src: seq<byte>, s: nat, replacement: seq<byte>, done: seq<byte>, warned: bool): Converted
    requires Sane(loop) && |replacement| <= 3 && s <= |src|
  {
    Prepend(done, warned, Convert(loop, src[s..], replacement))
  }

  lemma ContinuedStart(loop: Loop, src: seq<byte>, replacement: seq<byte>)
    requires Sane(loop) && |replacement| <= 3
    ensures Continued(loop, src, 0, replacement, [], false) == Convert(loop, src, replacement)
  {
    assert src[0..] == src;
    ErrorIsEmpty(loop, src, replacement);
    var c := Convert(loop, src, replacement);
    assert [] + c.dest == c.dest;
  }

  lemma {:induction false} ErrorIsEmpty(loop: Loop, src: seq<byte>, replacement: seq<byte>)
    requires Sane(loop) && |replacement| <= 3
    ensures var c := Convert(loop, src, replacement); c.status.IsError() ==> c.dest == []
    decreases |src|
  {
    hide NextPiece;
    if |src| > 0 {
      PieceInRange(loop, src, replacement);
      match NextPiece(loop, src, replacement)
      case Stop(_) =>
      case Piece(width, _, _) => ErrorIsEmpty(loop, src[width..], replacement);
    }
  }

  lemma ContinuedStep(loop: Loop, src: seq<byte>, s: nat, replacement: seq<byte>, done: seq<byte>, warned: bool)
    requires Sane(loop) && |replacement| <= 3 && s < |src|
    ensures match NextPiece(loop, src[s..], replacement)
      case Stop(error) => error.IsError() && Continued(loop, src, s, replacement, done, warned) == Error(error)
      case Piece(width, bytes, warn) =>
        && 1 <= width <= |src| - s && 1 <= |bytes| <= 4 * width
        && Continued(loop, src, s, replacement, done, warned)
           == Continued(loop, src, s + width, replacement, done + bytes, warned || warn)
  {
    hide NextPiece, Prepend;
    var rest := src[s..];
    PieceInRange(loop, rest, replacement);
    match NextPiece(loop, rest, replacement)
    case Stop(error) => PrependError(done, warned, error);
    case Piece(width, bytes, warn) =>
      assert rest[width..] == src[s + width..];
      PrependTwice(done, warned, bytes, warn, Convert(loop, rest[width..], replacement));
  }

  lemma PrependError(a: seq<byte>, warned: bool, error: Status)
    requires error.IsError()
    ensures Prepend(a, warned, Error(error)) == Error(error)
  {
  }

  lemma ContinuedEnd(loop: Loop, src: seq<byte>, replacement: seq<byte>, done: seq<byte>, warned: bool)
    requires Sane(loop) && |replacement| <= 3
    ensures Continued(loop, src, |src|, replacement, done, warned) == Converted(Ret(warned), done)
  {
    PrependEnd(done, warned);
  }

  /** After one more piece, what was put out is still part of the whole output. */
  lemma PieceFits(loop: Loop, src: seq<byte>, s: nat, replacement: seq<byte>, done: seq<byte>, warned: bool)
    requires Sane(loop) && |replacement| <= 3 && s < |src|
    requires Continued(loop, src, s, replacement, done, warned) == Convert(loop, src, replacement)
    ensures var c, piece := Convert(loop, src, replacement), NextPiece(loop, src[s..], replacement);
      piece.Piece? && !c.status.IsError() ==> |done| + |piece.bytes| <= |c.dest|
  {
    hide NextPiece;
    var rest := src[s..];
    PieceInRange(loop, rest, replacement);
  }

  // ----- converting -----

  method BinaryToUtf8(src: seq<byte>, dest: array<byte>) returns (d: nat)
    requires HasRoom(Convert(Binary, src, []), src, dest)
    modifies dest
    ensures d <= 4 * |src| && d <= dest.Length && Convert(Binary, src, []) == Converted(Ok, dest[..d])
  {
    hide Convert, EncodeUtf8, Continued;
    var s := 0;
    d := 0;
    ContinuedStart(Binary, src, []);
    assert dest[..0] == [];
    while s < |src|
      invariant s <= |src| && d <= 4 * s && d <= dest.Length
      invariant Continued(Binary, src, s, [], dest[..d], false) == Convert(Binary, src, [])
    {
      ContinuedStep(Binary, src, s, [], dest[..d], false);
      PieceFits(Binary, src, s, [], dest[..d], false);
      var len := PutUtf8(src[s], dest, d);
      s := s + 1;
      d := d + len;
    }
    ContinuedEnd(Binary, src, [], dest[..d], false);
  }

  method Latin1ToUtf8(src: seq<byte>, replacement: seq<byte>, dest: array<byte>) returns (ret: Status, d: nat)
    requires |replacement| <= 3 && HasRoom(Convert(Latin1, src, replacement), src, dest)
    modifies dest
    ensures d <= 4 * |src| && Leaves(Convert(Latin1, src, replacement), ret, dest, d)
  {
    hide Convert, EncodeUtf8, Continued;
    var s, warned := 0, false;
    d := 0;
    ContinuedStart(Latin1, src, replacement);
    assert dest[..0] == [];
    while s < |src|
      invariant s <= |src| && d <= 4 * s && d <= dest.Length
      invariant Continued(Latin1, src, s, replacement, dest[..d], warned) == Convert(Latin1, src, replacement)
    {
      ContinuedStep(Latin1, src, s, replacement, dest[..d], warned);
      PieceFits(Latin1, src, s, replacement, dest[..d], warned);
      if 0x80 <= src[s] < 0xA0 {
        if replacement == [] {
          return InvalidData, 0;
        }
        d := Put(dest, d, replacement);
        warned := true;
      } else {
        var len := PutUtf8(src[s], dest, d);
        d := d + len;
      }
      s := s + 1;
    }
    ContinuedEnd(Latin1, src, replacement, dest[..d], warned);
    ret := Ret(warned);
  }

  /** The cursor after an unreadable character: back over an ASCII byte, or on over continuation bytes. */
  method SkipBad(src: seq<byte>, s: nat, s': nat) returns (next: nat)
    requires s < s' <= |src| && s' - s == ReadChar(src[s..], 0, 0).0 && ReadChar(src[s..], 0, 0).1 != 0
    ensures next == s + Skip(src[s..]) && s < next <= |src|
  {
    hide ReadChar;
    next := s';
    FailsLater(src[s..]);
    assert src[s..][s' - s - 1] == src[s' - 1];
    if src[s' - 1] < 0x80 {
      next := next - 1;
    } else {
      while next < |src| && IsTail(src[next])
        invariant s' <= next <= |src|
        invariant next - s' + Tails(src[next..]) == Tails(src[s'..])
      {
        assert src[next..][1..] == src[next + 1..];
        next := next + 1;
      }
      assert src[s..][s' - s..] == src[s'..];
    }
  }

  method Utf8ToUtf8(src: seq<byte>, replacement: seq<byte>, dest: array<byte>) returns (ret: Status, d: nat)
    requires 1 <= |replacement| <= 3 && HasRoom(Convert(Utf8, src, replacement), src, dest)
    modifies dest
    ensures d <= 4 * |src| && Leaves(Convert(Utf8, src, replacement), ret, dest, d)
  {
    hide Convert, EncodeUtf8, Continued, ReadChar, Skip;
    var s, warned := 0, false;
    d := 0;
    ContinuedStart(Utf8, src, replacement);
    assert dest[..0] == [];
    while s < |src|
      invariant s <= |src| && d <= 4 * s && d <= dest.Length
      invariant Continued(Utf8, src, s, replacement, dest[..d], warned) == Convert(Utf8, src, replacement)
    {
      ContinuedStep(Utf8, src, s, replacement, dest[..d], warned);
      PieceFits(Utf8, src, s, replacement, dest[..d], warned);
      ReadScalar(src[s..]);
      var next, state, u := NextChar(src, s);
      if state != 0 {
        s := SkipBad(src, s, next);
        d := Put(dest, d, replacement);
        warned := true;
      } else {
        s := next;
        var len := PutUtf8(u, dest, d);
        d := d + len;
      }
    }
    ContinuedEnd(Utf8, src, replacement, dest[..d], warned);
    ret := Ret(warned);
  }

  method TableToUtf8(other: Reader, eci: int, src: seq<byte>, replacement: seq<byte>, flags: nat, dest: array<byte>)
      returns (ret: Status, d: nat)
    requires SaneReader(other) && |replacement| <= 3
    requires HasRoom(Convert(Table(other, eci, flags), src, replacement), src, dest)
    modifies dest
    ensures d <= 4 * |src| && Leaves(Convert(Table(other, eci, flags), src, replacement), ret, dest, d)
  {
    hide Convert, EncodeUtf8, Continued, ReadWith, ReplacementIncr;
    ghost var loop := Table(other, eci, flags);
    var s, warned := 0, false;
    d := 0;
    ContinuedStart(loop, src, replacement);
    assert dest[..0] == [];
    while s < |src|
      invariant s <= |src| && d <= 4 * s && d <= dest.Length
      invariant Continued(loop, src, s, replacement, dest[..d], warned) == Convert(loop, src, replacement)
    {
      ContinuedStep(loop, src, s, replacement, dest[..d], warned);
      PieceFits(loop, src, s, replacement, dest[..d], warned);
      ReadInRange(other, eci, src[s..], flags);
      match ReadWith(other, eci, src[s..], flags) {
        case NoChar =>
          if replacement == [] {
            return InvalidData, 0;
          }
          d := Put(dest, d, replacement);
          s := s + ReplacementIncr(eci, src[s..]);
          warned := true;
        case Char(width, u) =>
          s := s + width;
          var len := PutUtf8(u, dest, d);
          d := d + len;
      }
    }
    ContinuedEnd(loop, src, replacement, dest[..d], warned);
    ret := Ret(warned);
  }

  method IsValidUtf8(src: seq<byte>) returns (valid: bool)
    ensures valid == ValidUtf8(src)
  {
    hide Class, Transition;
    var state := 0;
    AcceptsGrammar(src);
    for s := 0 to |src|
      invariant Run(src[s..], state) == Run(src, 0)
    {
      assert src[s..][1..] == src[s + 1..];
      state := Transition(state, Class(src[s]));
      if state == ERROR {
        RunError(src[s + 1..]);
        return false;
      }
    }
    valid := state == 0;
  }

  /** The destination must have four bytes for every source byte, or the length of the pre-pass. */
  method EciToUtf8(other: Reader, eci: int, src: seq<byte>, replacementChar: nat, flags: nat, dest: array<byte>)
      returns (ret: Status, destLen: nat)
    requires SaneReader(other) && HasRoom(ToUtf8(other, eci, src, replacementChar, flags), src, dest)
    modifies dest
    ensures destLen <= 4 * |src|
    ensures Leaves(ToUtf8(other, eci, src, replacementChar, flags), ret, dest, destLen)
  {
    hide Convert, EncodeUtf8, ValidUtf8;
    if !IsValidEci(eci) {
      return InvalidEci, 0;
    }
    if IsBinary(eci, flags) {
      destLen := BinaryToUtf8(src, dest);
      return Ok, destLen;
    }
    if !GoodReplacement(replacementChar) {
      return InvalidArgs, 0;
    }
    var replacement := Replacement(replacementChar);
    if eci == 1 || eci == 3 {
      ret, destLen := Latin1ToUtf8(src, replacement, dest);
    } else if eci == 26 {
      if replacementChar != 0 {
        ret, destLen := Utf8ToUtf8(src, replacement, dest);
      } else {
        var valid := IsValidUtf8(src);
        if !valid {
          return InvalidUtf8, 0;
        }
        assert dest[..0] == [];
        destLen := Put(dest, 0, src);
        ret := Ok;
      }
    } else {
      ret, destLen := TableToUtf8(other, eci, src, replacement, flags, dest);
    }
  }
}
