/** Code tables and the latch/shift state machine of the Aztec decoder (core/src/aztec/AZDecoder.cpp). */
module AztecDecoder {
  import opened Bits
  import opened BitArrays

  type byte = b: nat | b < 256

  datatype Table = Upper | Lower | Mixed | Digit | Punct | Binary

  /** A table entry: a change of table ("CTRL_xS" or "CTRL_xL"), the FLG(n) escape, or text. */
  datatype Entry = Ctrl(table: Table, latch: bool) | Flgn | Text(text: seq<byte>)

  const MIXED_CHARS: seq<byte> := [
    0, 32, 1, 2, 3, 4, 5, 6, 7, 8, 9, 10, 11, 12,
    13, 27, 28, 29, 30, 31, 64, 92, 94, 95, 96, 124, 126, 127]

  /** Entries 6 to 30 of the punctuation table, one character each. */
  const PUNCT_CHARS: seq<byte> := [
    33, 34, 35, 36, 37, 38, 39, 40, 41, 42, 43, 44, 45, 46, 47, 58, 59, 60, 61, 62, 63, 91, 93, 123, 125]

  function CodeSize(table: Table): nat {
    if table == Digit then 4 else 5
  }

  function GetCharacter(table: Table, code: nat): Entry
    requires table != Binary && code < Pow2(CodeSize(table))
  {
    match table
    case Upper =>
      if code == 0 then Ctrl(Punct, false)
      else if code == 1 then Text([32])
      else if code <= 27 then Text([65 + code - 2])
      else if code == 28 then Ctrl(Lower, true)
      else if code == 29 then Ctrl(Mixed, true)
      else if code == 30 then Ctrl(Digit, true)
      else Ctrl(Binary, false)
    case Lower =>
      if code == 0 then Ctrl(Punct, false)
      else if code == 1 then Text([32])
      else if code <= 27 then Text([97 + code - 2])
      else if code == 28 then Ctrl(Upper, false)
      else if code == 29 then Ctrl(Mixed, true)
      else if code == 30 then Ctrl(Digit, true)
      else Ctrl(Binary, false)
    case Mixed =>
      if code == 0 then Ctrl(Punct, false)
      else if code <= 27 then Text([MIXED_CHARS[code]])
      else if code == 28 then Ctrl(Lower, true)
      else if code == 29 then Ctrl(Upper, true)
      else if code == 30 then Ctrl(Punct, true)
      else Ctrl(Binary, false)
    case Digit =>
      if code == 0 then Ctrl(Punct, false)
      else if code == 1 then Text([32])
      else if code <= 11 then Text([48 + code - 2])
      else if code == 12 then Text([44])
      else if code == 13 then Text([46])
      else if code == 14 then Ctrl(Upper, true)
      else Ctrl(Upper, false)
    case Punct =>
      if code == 0 then Flgn
      else if code == 1 then Text([13])
      else if code == 2 then Text([13, 10])
      else if code == 3 then Text([46, 32])
      else if code == 4 then Text([44, 32])
      else if code == 5 then Text([58, 32])
      else if code <= 30 then Text([PUNCT_CHARS[code - 6]])
      else Ctrl(Upper, true)
  }

  /** Decoded bytes, the ECI switches with the byte position each applies from, and whether FNC1 was seen. */
  datatype Content = Content(bytes: seq<byte>, ecis: seq<(int, nat)>, haveFNC1: bool) {
    function Append(s: seq<byte>): Content {
      this.(bytes := bytes + s)
    }

    function SwitchEncoding(eci: int): Content {
      this.(ecis := ecis + [(eci, |bytes|)])
    }
  }

  datatype DecodeResult = Decoded(content: Content) | ReadPastEnd

  function EciValue(bits: Bitstring, n: nat, eci: int): int
    requires |bits| >= 4 * n
    decreases n
  {
    if n == 0 then eci else EciValue(bits[4..], n - 1, 10 * eci + FromBits(bits[..4]) - 2)
  }

  function BytesOf(bits: Bitstring, n: nat): (r: seq<byte>)
    requires |bits| >= 8 * n
    ensures |r| == n
    decreases n
  {
    if n == 0 then []
    else
      assert Pow2(8) == 256;
      [FromBits(bits[..8])] + BytesOf(bits[8..], n - 1)
  }

  /** The rest of a decoding run: bits left, latched table, table of the next read, what has been output. */
  function DecodeBits(bits: Bitstring, latch: Table, shift: Table, c: Content): DecodeResult
    decreases |bits|, 0
  {
    if |bits| < CodeSize(shift) then Decoded(c)
    else if shift == Binary then
      if |bits| <= 6 then Decoded(c) // padding bits
      else
        var length := FromBits(bits[..5]);
        if length != 0 then DecodeBinary(bits[5..], length, latch, c)
        else if |bits| < 16 then ReadPastEnd
        else DecodeBinary(bits[16..], FromBits(bits[5..16]) + 31, latch, c)
    else
      var code := FromBits(bits[..CodeSize(shift)]);
      DecodeEntry(GetCharacter(shift, code), bits[CodeSize(shift)..], latch, shift, c)
  }

  function DecodeEntry(entry: Entry, rest: Bitstring, latch: Table, shift: Table, c: Content): DecodeResult
    decreases |rest|, 1
  {
    match entry
    case Ctrl(table, isLatch) => DecodeBits(rest, if isLatch then table else shift, table, c)
    case Flgn => DecodeFlag(rest, latch, c)
    case Text(text) => DecodeBits(rest, latch, latch, c.Append(text))
  }

  function DecodeBinary(bits: Bitstring, length: nat, latch: Table, c: Content): DecodeResult
    requires length > 0
    decreases |bits|, 0
  {
    if |bits| < 8 * length then ReadPastEnd
    else DecodeBits(bits[8 * length..], latch, latch, c.Append(BytesOf(bits, length)))
  }

  function DecodeFlag(bits: Bitstring, latch: Table, c: Content): DecodeResult
    decreases |bits|, 0
  {
    if |bits| < 3 then ReadPastEnd
    else
      var flg, rest := FromBits(bits[..3]), bits[3..];
      if flg == 0 then DecodeBits(rest, latch, latch, c.Append([29]).(haveFNC1 := true))
      else if flg == 7 then DecodeBits(rest, latch, latch, c)
      else if |rest| < 4 * flg then ReadPastEnd
      else DecodeBits(rest[4 * flg..], latch, latch, c.SwitchEncoding(EciValue(rest, flg, 0)))
  }

  const EMPTY := Content([], [], false)

  /** The decoder's loop, reading through a cursor. */
  method DecodeContent(bits: Bitstring) returns (result: DecodeResult)
    ensures result == DecodeBits(bits, Upper, Upper, EMPTY)
  {
    hide FromBits, GetCharacter, DecodeBits, DecodeBinary, DecodeFlag, Pow2;
    var latchTable, shiftTable := Upper, Upper;
    var res := EMPTY;
    var remBits := new BitArrayView(bits);
    while remBits.Size() >= CodeSize(shiftTable)
      invariant fresh(remBits) && remBits.Valid()
      invariant DecodeBits(remBits.Rest(), latchTable, shiftTable, res) == DecodeBits(bits, Upper, Upper, EMPTY)
      decreases remBits.Size()
    {
      var ok: bool;
      if shiftTable == Binary {
        if remBits.Size() <= 6 {
          break;
        }
        ok, res := ReadBinary(remBits, latchTable, res);
        if !ok {
          return ReadPastEnd;
        }
        shiftTable := latchTable;
      } else {
        ok, latchTable, shiftTable, res := ReadCode(remBits, latchTable, shiftTable, res);
        if !ok {
          return ReadPastEnd;
        }
      }
    }
    DecodeEnd(remBits.Rest(), latchTable, shiftTable, res);
    return Decoded(res);
  }

  /** Reads one code of the table in use and acts on it. */
  method ReadCode(remBits: BitArrayView, latch: Table, shift: Table, c: Content)
      returns (ok: bool, latch': Table, shift': Table, c': Content)
    requires remBits.Valid() && shift != Binary && remBits.Size() >= CodeSize(shift)
    modifies remBits
    ensures remBits.Valid() && remBits.Size() < old(remBits.Size())
    ensures DecodeBits(old(remBits.Rest()), latch, shift, c) ==
            if ok then DecodeBits(remBits.Rest(), latch', shift', c') else ReadPastEnd
  {
    hide FromBits, GetCharacter, DecodeBits, DecodeFlag, Pow2;
    DecodeCode(remBits.Rest(), latch, shift, c);
    var code: nat;
    ok, code := remBits.ReadBits(CodeSize(shift));
    latch', shift', c' := latch, latch, c;
    match GetCharacter(shift, code) {
      case Ctrl(table, isLatch) =>
        // a shift ends in the mode it was invoked from, even when that mode is a shift
        latch', shift' := shift, table;
        if isLatch {
          latch' := table;
        }
      case Flgn =>
        ok, c' := ReadFlag(remBits, latch, c);
      case Text(text) =>
        c' := c.Append(text);
    }
  }

  lemma DecodeEnd(bits: Bitstring, latch: Table, shift: Table, c: Content)
    requires |bits| < CodeSize(shift) || (shift == Binary && |bits| <= 6)
    ensures DecodeBits(bits, latch, shift, c) == Decoded(c)
  {
  }

  lemma DecodeCode(bits: Bitstring, latch: Table, shift: Table, c: Content)
    requires shift != Binary && |bits| >= CodeSize(shift)
    ensures FromBits(bits[..CodeSize(shift)]) < Pow2(CodeSize(shift))
    ensures DecodeBits(bits, latch, shift, c) ==
      DecodeEntry(GetCharacter(shift, FromBits(bits[..CodeSize(shift)])), bits[CodeSize(shift)..], latch, shift, c)
  {
  }

  method ReadBinary(remBits: BitArrayView, ghost latch: Table, c: Content) returns (ok: bool, c': Content)
    requires remBits.Valid() && remBits.Size() > 6
    modifies remBits
    ensures remBits.Valid() && (ok ==> remBits.Size() < old(remBits.Size()))
    ensures DecodeBits(old(remBits.Rest()), latch, Binary, c) ==
            if ok then DecodeBits(remBits.Rest(), latch, latch, c') else ReadPastEnd
  {
    hide FromBits, GetCharacter, DecodeFlag, Pow2, BytesOf;
    ghost var start := remBits.Rest();
    c' := c;
    var length: nat;
    ok, length := remBits.ReadBits(5);
    if length == 0 {
      ok, length := remBits.ReadBits(11);
      if !ok {
        return;
      }
      assert start[5..][..11] == start[5..16] && start[5..][11..] == start[16..];
      length := length + 31;
    }
    assert DecodeBits(start, latch, Binary, c) == DecodeBinary(remBits.Rest(), length, latch, c);
    ok, c' := ReadBytes(remBits, length, c);
  }

  method ReadBytes(remBits: BitArrayView, length: nat, c: Content) returns (ok: bool, c': Content)
    requires remBits.Valid()
    modifies remBits
    ensures remBits.Valid() && remBits.Size() <= old(remBits.Size())
    ensures ok <==> 8 * length <= old(remBits.Size())
    ensures ok ==> remBits.Rest() == old(remBits.Rest())[8 * length..]
    ensures ok ==> c' == c.Append(BytesOf(old(remBits.Rest()), length))
  {
    hide FromBits, Pow2;
    ghost var data := remBits.Rest();
    c' := c;
    for i := 0 to length
      invariant remBits.Valid() && remBits.Size() <= |data|
      invariant 8 * i <= |data| && remBits.Rest() == data[8 * i..]
      invariant c' == c.Append(BytesOf(data, i))
    {
      var b: nat;
      ok, b := remBits.ReadBits(8);
      if !ok {
        return;
      }
      BytesOfSnoc(data, i);
      assert data[8 * i..][..8] == data[8 * i..8 * i + 8] && data[8 * i..][8..] == data[8 * (i + 1)..];
      c' := c'.Append([b]);
    }
    ok := true;
  }

  lemma {:induction false} BytesOfSnoc(bits: Bitstring, n: nat)
    requires |bits| >= 8 * (n + 1)
    ensures Pow2(8) == 256
    ensures BytesOf(bits, n + 1) == BytesOf(bits, n) + [FromBits(bits[8 * n..8 * n + 8])]
    decreases n
  {
    assert Pow2(8) == 256;
    if n > 0 {
      BytesOfSnoc(bits[8..], n - 1);
      assert bits[8..][8 * (n - 1)..8 * (n - 1) + 8] == bits[8 * n..8 * n + 8];
    } else {
      assert BytesOf(bits[8..], 0) == [];
    }
  }

  method ReadFlag(remBits: BitArrayView, ghost latch: Table, c: Content) returns (ok: bool, c': Content)
    requires remBits.Valid()
    modifies remBits
    ensures remBits.Valid() && remBits.Size() <= old(remBits.Size())
    ensures DecodeFlag(old(remBits.Rest()), latch, c) ==
            if ok then DecodeBits(remBits.Rest(), latch, latch, c') else ReadPastEnd
  {
    hide FromBits, Pow2, DecodeBits;
    c' := c;
    var flg: nat;
    ok, flg := remBits.ReadBits(3);
    if !ok {
      return;
    }
    ThreeBits(old(remBits.Rest())[..3]);
    if flg == 0 { // FNC1
      c' := c.Append([29]).(haveFNC1 := true);
    } else if flg <= 6 {
      var eci: int;
      ok, eci := ParseECIValue(remBits, flg);
      c' := c.SwitchEncoding(eci);
    }
  }

  lemma ThreeBits(bits: Bitstring)
    requires |bits| == 3
    ensures FromBits(bits) < 8
  {
    assert Pow2(3) == 8;
  }

  method ParseECIValue(remBits: BitArrayView, flg: nat) returns (ok: bool, eci: int)
    requires remBits.Valid()
    modifies remBits
    ensures remBits.Valid() && remBits.Size() <= old(remBits.Size())
    ensures ok <==> 4 * flg <= old(remBits.Size())
    ensures ok ==> remBits.Rest() == old(remBits.Rest())[4 * flg..] && eci == EciValue(old(remBits.Rest()), flg, 0)
  {
    hide FromBits, Pow2;
    ghost var digits := remBits.Rest();
    eci := 0;
    for i := 0 to flg
      invariant remBits.Valid() && remBits.Size() <= |digits|
      invariant 4 * i <= |digits| && remBits.Rest() == digits[4 * i..]
      invariant |digits| >= 4 * flg ==> EciValue(digits[4 * i..], flg - i, eci) == EciValue(digits, flg, 0)
    {
      var d: nat;
      ok, d := remBits.ReadBits(4);
      if !ok {
        return;
      }
      assert digits[4 * i..][..4] == digits[4 * i..4 * i + 4] && digits[4 * i..][4..] == digits[4 * (i + 1)..];
      eci := 10 * eci + d - 2;
    }
    ok := true;
  }

  // ----- what a string of codes means, whatever follows it -----

  /** Read in mode m, the bits output the given text and leave the decoder in mode m', whatever comes next. */
  ghost predicate Decodes(bits: Bitstring, m: Table, text: seq<byte>, m': Table) {
    forall rest: Bitstring, c: Content {:trigger DecodeBits(bits + rest, m, m, c)} ::
      DecodeBits(bits + rest, m, m, c) == DecodeBits(rest, m', m', c.Append(text))
  }

  lemma DecodesNil(m: Table)
    ensures Decodes([], m, [], m)
  {
    hide DecodeBits;
    forall rest: Bitstring, c: Content
      ensures DecodeBits([] + rest, m, m, c) == DecodeBits(rest, m, m, c.Append([]))
    {
      assert [] + rest == rest && c.bytes + [] == c.bytes;
    }
  }

  lemma DecodesTrans(b1: Bitstring, m1: Table, t1: seq<byte>, m2: Table, b2: Bitstring, t2: seq<byte>, m3: Table)
    requires Decodes(b1, m1, t1, m2) && Decodes(b2, m2, t2, m3)
    ensures Decodes(b1 + b2, m1, t1 + t2, m3)
  {
    hide DecodeBits;
    forall rest: Bitstring, c: Content
      ensures DecodeBits((b1 + b2) + rest, m1, m1, c) == DecodeBits(rest, m3, m3, c.Append(t1 + t2))
    {
      assert (b1 + b2) + rest == b1 + (b2 + rest);
      assert DecodeBits(b2 + rest, m2, m2, c.Append(t1)) == DecodeBits(rest, m3, m3, c.Append(t1).Append(t2));
      assert (c.bytes + t1) + t2 == c.bytes + (t1 + t2);
    }
  }

  lemma ReadBack(value: nat, n: nat, rest: Bitstring)
    requires value < Pow2(n)
    ensures var bits := ToBits(value, n) + rest;
      |bits| >= n && bits[..n] == ToBits(value, n) && FromBits(bits[..n]) == value && bits[n..] == rest
  {
    FromToBits(value, n);
    assert (ToBits(value, n) + rest)[..n] == ToBits(value, n);
  }

  lemma DecodeOneCode(m: Table, latch: Table, code: nat, rest: Bitstring, c: Content)
    requires m != Binary && code < Pow2(CodeSize(m))
    ensures DecodeBits(ToBits(code, CodeSize(m)) + rest, latch, m, c) ==
            DecodeEntry(GetCharacter(m, code), rest, latch, m, c)
  {
    hide DecodeBits, ToBits, FromBits, GetCharacter, DecodeFlag, DecodeEntry, Pow2;
    ReadBack(code, CodeSize(m), rest);
    DecodeCode(ToBits(code, CodeSize(m)) + rest, latch, m, c);
  }

  lemma DecodesText(m: Table, code: nat, text: seq<byte>)
    requires m != Binary && code < Pow2(CodeSize(m)) && GetCharacter(m, code) == Text(text)
    ensures Decodes(ToBits(code, CodeSize(m)), m, text, m)
  {
    hide DecodeBits, ToBits, GetCharacter, Pow2;
    forall rest: Bitstring, c: Content
      ensures DecodeBits(ToBits(code, CodeSize(m)) + rest, m, m, c) == DecodeBits(rest, m, m, c.Append(text))
    {
      DecodeOneCode(m, m, code, rest, c);
    }
  }

  lemma DecodesLatch(m: Table, code: nat, m': Table)
    requires m != Binary && code < Pow2(CodeSize(m)) && GetCharacter(m, code) == Ctrl(m', true)
    ensures Decodes(ToBits(code, CodeSize(m)), m, [], m')
  {
    hide DecodeBits, ToBits, GetCharacter, Pow2;
    forall rest: Bitstring, c: Content
      ensures DecodeBits(ToBits(code, CodeSize(m)) + rest, m, m, c) == DecodeBits(rest, m', m', c.Append([]))
    {
      DecodeOneCode(m, m, code, rest, c);
      assert c.bytes + [] == c.bytes;
    }
  }

  /** A shifted code is read in the other table, and the mode is the old one again afterwards. */
  lemma DecodesShift(m: Table, shift: nat, m': Table, code: nat, text: seq<byte>)
    requires m != Binary && m' != Binary && shift < Pow2(CodeSize(m)) && code < Pow2(CodeSize(m'))
    requires GetCharacter(m, shift) == Ctrl(m', false) && GetCharacter(m', code) == Text(text)
    ensures Decodes(ToBits(shift, CodeSize(m)) + ToBits(code, CodeSize(m')), m, text, m)
  {
    hide DecodeBits, ToBits, GetCharacter, Pow2;
    var b1, b2 := ToBits(shift, CodeSize(m)), ToBits(code, CodeSize(m'));
    forall rest: Bitstring, c: Content
      ensures DecodeBits((b1 + b2) + rest, m, m, c) == DecodeBits(rest, m, m, c.Append(text))
    {
      assert (b1 + b2) + rest == b1 + (b2 + rest);
      DecodeOneCode(m, m, shift, b2 + rest, c);
      DecodeOneCode(m', m, code, rest, c);
    }
  }

  lemma SplitAt(a: Bitstring, b: Bitstring)
    ensures (a + b)[..|a|] == a && (a + b)[|a|..] == b
  {
  }

  lemma Assoc(a: Bitstring, b: Bitstring, c: Bitstring)
    ensures (a + b) + c == a + (b + c)
  {
  }

  lemma BytesOfCons(w: Bitstring, tail: Bitstring, n: nat)
    requires |w| == 8 && |tail| >= 8 * n
    ensures Pow2(8) == 256
    ensures BytesOf(w + tail, n + 1) == [FromBits(w)] + BytesOf(tail, n)
  {
    assert Pow2(8) == 256;
    hide FromBits, Pow2;
    SplitAt(w, tail);
  }

  lemma {:induction false} BytesReadBack(data: seq<byte>, rest: Bitstring)
    ensures BytesOf(WordBits(data, 8) + rest, |data|) == data
    decreases |data|
  {
    assert Pow2(8) == 256;
    hide Pow2, ToBits, FromBits, BytesOf;
    if |data| > 0 {
      Assoc(ToBits(data[0], 8), WordBits(data[1..], 8), rest);
      FromToBits(data[0], 8);
      BytesOfCons(ToBits(data[0], 8), WordBits(data[1..], 8) + rest, |data| - 1);
      BytesReadBack(data[1..], rest);
    } else {
      assert BytesOf(WordBits(data, 8) + rest, 0) == [];
    }
  }

  lemma DecodeBinaryData(data: seq<byte>, rest: Bitstring, latch: Table, c: Content)
    requires |data| > 0
    ensures DecodeBinary(WordBits(data, 8) + rest, |data|, latch, c) == DecodeBits(rest, latch, latch, c.Append(data))
  {
    hide DecodeBits, WordBits, BytesOf;
    BytesReadBack(data, rest);
    SplitAt(WordBits(data, 8), rest);
  }

  lemma DecodeShortHeader(length: nat, body: Bitstring, latch: Table, c: Content)
    requires 0 < length < 32 && |body| >= 2
    ensures DecodeBits(ToBits(length, 5) + body, latch, Binary, c) == DecodeBinary(body, length, latch, c)
  {
    assert Pow2(5) == 32;
    hide DecodeBinary, ToBits, FromBits, Pow2;
    ReadBack(length, 5, body);
  }

  lemma DecodeLongHeader(length: nat, body: Bitstring, latch: Table, c: Content)
    requires 31 <= length < 31 + 2048
    ensures DecodeBits(ToBits(length - 31, 16) + body, latch, Binary, c) == DecodeBinary(body, length, latch, c)
  {
    assert Pow2(5) == 32 && Pow2(11) == 2048;
    var z, h := ToBits(0, 5), ToBits(length - 31, 11);
    ToBitsAppend(0, length - 31, 5, 11);
    assert ToBits(length - 31, 16) == z + h;
    hide DecodeBinary, ToBits, FromBits, Pow2;
    Assoc(z, h, body);
    ReadBack(0, 5, h + body);
    ReadBack(length - 31, 11, body);
    var all := z + (h + body);
    assert all[5..16] == all[5..][..11] && all[16..] == all[5..][11..];
  }

  lemma DecodeBinaryShift(m: Table, body: Bitstring, c: Content)
    requires m == Upper || m == Lower || m == Mixed
    ensures DecodeBits(ToBits(31, 5) + body, m, m, c) == DecodeBits(body, m, Binary, c)
  {
    assert Pow2(5) == 32;
    assert GetCharacter(m, 31) == Ctrl(Binary, false);
    hide DecodeBits, ToBits, GetCharacter, Pow2;
    DecodeOneCode(m, m, 31, body, c);
  }

  /** A binary shift with a five-bit count. */
  lemma DecodesShortBinary(m: Table, data: seq<byte>)
    requires m == Upper || m == Lower || m == Mixed
    requires 1 <= |data| <= 31
    ensures Decodes(ToBits(31, 5) + (ToBits(|data|, 5) + WordBits(data, 8)), m, data, m)
  {
    hide DecodeBits, ToBits, WordBits, DecodeBinary;
    var b, h, w := ToBits(31, 5), ToBits(|data|, 5), WordBits(data, 8);
    forall rest: Bitstring, c: Content
      ensures DecodeBits((b + (h + w)) + rest, m, m, c) == DecodeBits(rest, m, m, c.Append(data))
    {
      Assoc(b, h + w, rest);
      Assoc(h, w, rest);
      DecodeBinaryShift(m, h + (w + rest), c);
      DecodeShortHeader(|data|, w + rest, m, c);
      DecodeBinaryData(data, rest, m, c);
    }
  }

  /** A binary shift with five zero bits and an eleven-bit count. */
  lemma DecodesLongBinary(m: Table, data: seq<byte>)
    requires m == Upper || m == Lower || m == Mixed
    requires 31 < |data| < 31 + 2048
    ensures Decodes(ToBits(31, 5) + (ToBits(|data| - 31, 16) + WordBits(data, 8)), m, data, m)
  {
    hide DecodeBits, ToBits, WordBits, DecodeBinary;
    var b, h, w := ToBits(31, 5), ToBits(|data| - 31, 16), WordBits(data, 8);
    forall rest: Bitstring, c: Content
      ensures DecodeBits((b + (h + w)) + rest, m, m, c) == DecodeBits(rest, m, m, c.Append(data))
    {
      Assoc(b, h + w, rest);
      Assoc(h, w, rest);
      DecodeBinaryShift(m, h + (w + rest), c);
      DecodeLongHeader(|data|, w + rest, m, c);
      DecodeBinaryData(data, rest, m, c);
    }
  }

  // ----- padding -----

  lemma DecodeFirstOnes(m: Table, latch: Table, k: nat, c: Content)
    requires m != Binary && k >= CodeSize(m)
    ensures Pow2(CodeSize(m)) == if m == Digit then 16 else 32
    ensures DecodeBits(Ones(k), latch, m, c) ==
            DecodeEntry(GetCharacter(m, Pow2(CodeSize(m)) - 1), Ones(k - CodeSize(m)), latch, m, c)
  {
    assert Pow2(5) == 32 && Pow2(4) == 16;
    hide DecodeBits, ToBits, FromBits, Pow2, DecodeEntry, GetCharacter;
    ToBitsOnes(CodeSize(m));
    assert Ones(k) == Ones(CodeSize(m)) + Ones(k - CodeSize(m));
    DecodeOneCode(m, latch, Pow2(CodeSize(m)) - 1, Ones(k - CodeSize(m)), c);
  }

  /** Fewer than twelve one bits at the end decode to nothing, in every mode. */
  lemma OnesDecodeToNothing(m: Table, k: nat, c: Content)
    requires m != Binary && k < 12
    ensures DecodeBits(Ones(k), m, m, c) == Decoded(c)
  {
    hide DecodeBits, Pow2, DecodeFlag, Ones;
    if k < CodeSize(m) {
      DecodeEnd(Ones(k), m, m, c);
    } else {
      var k1 := k - CodeSize(m);
      DecodeFirstOnes(m, m, k, c);
      if m == Digit || m == Punct {
        var latch := if m == Digit then Digit else Upper;
        if k1 < 5 {
          DecodeEnd(Ones(k1), latch, Upper, c);
        } else {
          DecodeFirstOnes(Upper, latch, k1, c);
          DecodeEnd(Ones(k1 - 5), Upper, Binary, c);
        }
      } else {
        DecodeEnd(Ones(k1), m, Binary, c);
      }
    }
  }
}
