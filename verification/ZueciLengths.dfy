/** The exact length pre-pass in front of a conversion to UTF-8 (core/src/libzueci/zueci.c:1605-1715). */
module ZueciLengths {
  import opened ZueciUtf8
  import opened ZueciConverters
  import opened Zueci

  /** Status of a conversion and, unless it is an error, the length of its output. */
  ghost predicate Measures(c: Converted, status: Status, len: nat) {
    status == c.status && (!status.IsError() ==> len == |c.dest|)
  }

  /** What a loop has counted so far is the length of some output that the conversion continues. */
  ghost predicate Counted(loop: Loop, src: seq<byte>, s: nat, replacement: seq<byte>, len: nat, warned: bool)
    requires Sane(loop) && |replacement| <= 3 && s <= |src|
  {
    exists done: seq<byte> | |done| == len ::
      Continued(loop, src, s, replacement, done, warned) == Convert(loop, src, replacement)
  }

  lemma CountedStart(loop: Loop, src: seq<byte>, replacement: seq<byte>)
    requires Sane(loop) && |replacement| <= 3
    ensures Counted(loop, src, 0, replacement, 0, false)
  {
    ContinuedStart(loop, src, replacement);
  }

  lemma CountedStep(loop: Loop, src: seq<byte>, s: nat, replacement: seq<byte>, len: nat, warned: bool)
    requires Sane(loop) && |replacement| <= 3 && s < |src| && Counted(loop, src, s, replacement, len, warned)
    ensures match NextPiece(loop, src[s..], replacement)
      case Stop(error) => Measures(Convert(loop, src, replacement), error, 0)
      case Piece(width, bytes, warn) =>
        && 1 <= width <= |src| - s
        && Counted(loop, src, s + width, replacement, len + |bytes|, warned || warn)
  {
    hide Continued, Convert, NextPiece;
    var done: seq<byte> :| |done| == len &&
      Continued(loop, src, s, replacement, done, warned) == Convert(loop, src, replacement);
    ContinuedStep(loop, src, s, replacement, done, warned);
    match NextPiece(loop, src[s..], replacement)
    case Stop(_) =>
    case Piece(_, bytes, _) => assert |done + bytes| == len + |bytes|;
  }

  lemma CountedEnd(loop: Loop, src: seq<byte>, replacement: seq<byte>, len: nat, warned: bool)
    requires Sane(loop) && |replacement| <= 3 && Counted(loop, src, |src|, replacement, len, warned)
    ensures Measures(Convert(loop, src, replacement), Ret(warned), len)
  {
    hide Continued, Convert;
    var done: seq<byte> :| |done| == len &&
      Continued(loop, src, |src|, replacement, done, warned) == Convert(loop, src, replacement);
    ContinuedEnd(loop, src, replacement, done, warned);
  }

  method BinaryLength(src: seq<byte>) returns (destLen: nat)
    ensures Measures(Convert(Binary, src, []), Ok, destLen)
  {
    hide Convert, Counted;
    destLen := 0;
    CountedStart(Binary, src, []);
    for s := 0 to |src|
      invariant Counted(Binary, src, s, [], destLen, false)
    {
      CountedStep(Binary, src, s, [], destLen, false);
      destLen := destLen + 1 + if src[s] >= 0x80 then 1 else 0;
    }
    CountedEnd(Binary, src, [], destLen, false);
  }

  method Latin1Length(src: seq<byte>, replacement: seq<byte>) returns (ret: Status, destLen: nat)
    requires |replacement| <= 3
    ensures Measures(Convert(Latin1, src, replacement), ret, destLen)
  {
    hide Convert, Counted;
    var warned := false;
    destLen := 0;
    CountedStart(Latin1, src, replacement);
    for s := 0 to |src|
      invariant Counted(Latin1, src, s, replacement, destLen, warned)
    {
      CountedStep(Latin1, src, s, replacement, destLen, warned);
      if 0x80 <= src[s] < 0xA0 {
        if replacement == [] {
          return InvalidData, 0;
        }
        destLen := destLen + |replacement|;
        warned := true;
      } else {
        destLen := destLen + 1 + if src[s] >= 0x80 then 1 else 0;
      }
    }
    CountedEnd(Latin1, src, replacement, destLen, warned);
    ret := Ret(warned);
  }

  /** Goes character by character even when there is no replacement, where the conversion copies. */
  method Utf8Length(src: seq<byte>, replacement: seq<byte>) returns (ret: Status, destLen: nat)
    requires |replacement| <= 3
    ensures Measures(Convert(Utf8, src, replacement), ret, destLen)
  {
    hide Convert, Counted, ReadChar, Skip, EncodeUtf8;
    var s, warned := 0, false;
    destLen := 0;
    CountedStart(Utf8, src, replacement);
    while s < |src|
      invariant s <= |src| && Counted(Utf8, src, s, replacement, destLen, warned)
    {
      CountedStep(Utf8, src, s, replacement, destLen, warned);
      ReadScalar(src[s..]);
      var next, state, u := NextChar(src, s);
      if state != 0 {
        if replacement == [] {
          return InvalidUtf8, 0;
        }
        s := SkipBad(src, s, next);
        destLen := destLen + |replacement|;
        warned := true;
      } else {
        s := next;
        destLen := destLen + EncodedLength(u);
      }
    }
    CountedEnd(Utf8, src, replacement, destLen, warned);
    ret := Ret(warned);
  }

  method TableLength(other: Reader, eci: int, src: seq<byte>, replacement: seq<byte>, flags: nat)
      returns (ret: Status, destLen: nat)
    requires SaneReader(other) && |replacement| <= 3
    ensures Measures(Convert(Table(other, eci, flags), src, replacement), ret, destLen)
  {
    hide Convert, Counted, EncodeUtf8, ReadWith, ReplacementIncr;
    ghost var loop := Table(other, eci, flags);
    var s, warned := 0, false;
    destLen := 0;
    CountedStart(loop, src, replacement);
    while s < |src|
      invariant s <= |src| && Counted(loop, src, s, replacement, destLen, warned)
    {
      CountedStep(loop, src, s, replacement, destLen, warned);
      ReadInRange(other, eci, src[s..], flags);
      match ReadWith(other, eci, src[s..], flags) {
        case NoChar =>
          if replacement == [] {
            return InvalidData, 0;
          }
          s := s + ReplacementIncr(eci, src[s..]);
          destLen := destLen + |replacement|;
          warned := true;
        case Char(width, u) =>
          s := s + width;
          destLen := destLen + EncodedLength(u);
      }
    }
    CountedEnd(loop, src, replacement, destLen, warned);
    ret := Ret(warned);
  }

  /** The same status as the conversion and, unless it is an error, exactly the length it writes. */
  method DestLenUtf8(other: Reader, eci: int, src: seq<byte>, replacementChar: nat, flags: nat)
      returns (ret: Status, destLen: nat)
    requires SaneReader(other)
    ensures Measures(ToUtf8(other, eci, src, replacementChar, flags), ret, destLen)
  {
    hide Convert, EncodeUtf8, ValidUtf8;
    if !IsValidEci(eci) {
      return InvalidEci, 0;
    }
    if IsBinary(eci, flags) {
      destLen := BinaryLength(src);
      return Ok, destLen;
    }
    if !GoodReplacement(replacementChar) {
      return InvalidArgs, 0;
    }
    var replacement := Replacement(replacementChar);
    if eci == 1 || eci == 3 {
      ret, destLen := Latin1Length(src, replacement);
    } else if eci == 26 {
      StrictUtf8(src);
      ret, destLen := Utf8Length(src, replacement);
    } else {
      ret, destLen := TableLength(other, eci, src, replacement, flags);
    }
  }
}
