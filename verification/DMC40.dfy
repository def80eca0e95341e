/** C40 and Text segments of Data Matrix (DMHighLevelEncoder.cpp:363-434, 528-583, DMDecoder.cpp:46-79, 120-186). */
module DMC40 {
  import opened BitSources

  datatype Mode = C40 | TEXT

  const C40_UNLATCH: byte := 254

  // ----- characters to values -----

  /** The values a character is sent as. */
  function CharValues(mode: Mode, c: byte): (v: seq<nat>)
    ensures 0 < |v| <= 4 && forall i :: 0 <= i < |v| ==> v[i] < 40
    decreases c
  {
    if c == 32 then [3]
    else if 48 <= c <= 57 then [c - 48 + 4]
    else if mode == C40 && 65 <= c <= 90 then [c - 65 + 14]
    else if mode == TEXT && 97 <= c <= 122 then [c - 97 + 14]
    else if c <= 31 then [0, c] // Shift 1 set
    else if c <= 47 then [1, c - 33] // Shift 2 set
    else if c <= 64 then [1, c - 58 + 15]
    else if mode == C40 then
      if c <= 95 then [1, c - 91 + 22]
      else if c <= 127 then [2, c - 96] // Shift 3 set
      else [1, 30] + CharValues(mode, c - 128) // upper shift
    else
      if 91 <= c <= 95 then [1, c - 91 + 22]
      else if c == 96 then [2, 0] // Shift 3 set
      else if c <= 90 then [2, c - 65 + 1]
      else if c <= 127 then [2, c - 123 + 27]
      else [1, 30] + CharValues(mode, c - 128)
  }

  /** Appends the values of a character and returns how many there are. */
  method EncodeChar(mode: Mode, c: byte, sb: seq<nat>) returns (sb': seq<nat>, len: nat)
    ensures sb' == sb + CharValues(mode, c) && len == |CharValues(mode, c)|
    decreases c
  {
    if c == 32 {
      return sb + [3], 1;
    }
    if 48 <= c <= 57 {
      return sb + [c - 48 + 4], 1;
    }
    if mode == C40 && 65 <= c <= 90 {
      return sb + [c - 65 + 14], 1;
    }
    if mode == TEXT && 97 <= c <= 122 {
      return sb + [c - 97 + 14], 1;
    }
    if c <= 31 {
      return sb + [0, c], 2;
    }
    if c <= 47 {
      return sb + [1, c - 33], 2;
    }
    if c <= 64 {
      return sb + [1, c - 58 + 15], 2;
    }
    if (mode == C40 && c <= 95) || (mode == TEXT && 91 <= c <= 95) {
      return sb + [1, c - 91 + 22], 2;
    }
    if mode == C40 && c <= 127 {
      return sb + [2, c - 96], 2;
    }
    if mode == TEXT && c == 96 {
      return sb + [2, c - 96], 2;
    }
    if mode == TEXT && c <= 90 {
      return sb + [2, c - 65 + 1], 2;
    }
    if mode == TEXT && c <= 127 {
      return sb + [2, c - 123 + 27], 2;
    }
    sb', len := EncodeChar(mode, c - 128, sb + [1, 30]);
    len := 2 + len;
    assert sb + ([1, 30] + CharValues(mode, c - 128)) == (sb + [1, 30]) + CharValues(mode, c - 128);
  }

  function TextValues(mode: Mode, s: seq<byte>): (v: seq<nat>)
    ensures forall i :: 0 <= i < |v| ==> v[i] < 40
    ensures |s| > 0 ==> |CharValues(mode, s[|s| - 1])| <= |v|
  {
    if |s| == 0 then [] else TextValues(mode, s[..|s| - 1]) + CharValues(mode, s[|s| - 1])
  }

  // ----- values to characters -----

  function BasicSetChar(mode: Mode, v: nat): byte
    requires 3 <= v < 40
  {
    if v == 3 then 32 else if v < 14 then 48 + v - 4 else (if mode == C40 then 65 else 97) + v - 14
  }

  /** Punctuation; the last entry stands for FNC1. */
  function Shift2SetChar(v: nat): byte
    requires v < 28
  {
    if v < 15 then 33 + v else if v < 22 then 58 + v - 15 else if v < 27 then 91 + v - 22 else 29
  }

  function TextShift3SetChar(v: nat): byte
    requires v < 32
  {
    if v == 0 then 96 else if v < 27 then 65 + v - 1 else 123 + v - 27
  }

  /** The decoder between two values: pending shift, pending upper shift, output. */
  datatype State = State(shift: nat, upper: bool, out: seq<byte>)

  datatype Step = Next(state: State) | Invalid

  /** One character, raised by 128 after an upper shift and stored in a char. */
  function Push(s: State, val: int): State {
    State(0, false, s.out + [(val + (if s.upper then 128 else 0)) % 256])
  }

  /** One value; a negative one never reaches a table, see NegativeValue. */
  function StepValue(mode: Mode, s: State, v: int): Step {
    if s.shift == 0 then
      if v < 3 then Next(s.(shift := if v < 0 then 0 else v + 1))
      else if v < 40 then Next(Push(s, BasicSetChar(mode, v)))
      else Invalid
    else if s.shift == 1 then Next(Push(s, v))
    else if s.shift == 2 then
      if 0 <= v < 28 then Next(Push(s, Shift2SetChar(v)))
      else if v == 30 then Next(s.(shift := 0, upper := true))
      else Invalid
    else if s.shift == 3 then
      if mode == C40 then Next(Push(s, v + 96))
      else if 0 <= v < 32 then Next(Push(s, TextShift3SetChar(v)))
      else Invalid
    else Invalid
  }

  function StepValues(mode: Mode, s: State, values: seq<int>): Step {
    if |values| == 0 then Next(s)
    else
      match StepValues(mode, s, values[..|values| - 1])
      case Next(t) => StepValue(mode, t, values[|values| - 1])
      case Invalid => Invalid
  }

  /**
   * Each character of the second shift set is sent by that shift, but for the last, FNC1: it is read as a group
   * separator, which the encoder sends by the first shift.
   */
  lemma Shift2Set(mode: Mode, v: nat, out: seq<byte>)
    requires v < 28
    ensures v < 27 ==> CharValues(mode, Shift2SetChar(v)) == [1, v]
    ensures v == 27 ==> StepValue(mode, State(2, false, out), v) == Next(State(0, false, out + [29])) && CharValues(mode, 29) == [0, 29]
  {
  }

  /** The decoder's tables invert the encoder's choices. */
  lemma ValuesOfChar(mode: Mode, c: byte)
    requires c < 128
    ensures var v := CharValues(mode, c);
      || (|v| == 1 && 3 <= v[0] && BasicSetChar(mode, v[0]) == c)
      || (|v| == 2 && v[0] == 0 && v[1] == c)
      || (|v| == 2 && v[0] == 1 && v[1] < 28 && Shift2SetChar(v[1]) == c)
      || (|v| == 2 && v[0] == 2 && mode == C40 && v[1] + 96 == c)
      || (|v| == 2 && v[0] == 2 && mode == TEXT && v[1] < 32 && TextShift3SetChar(v[1]) == c)
  {
  }

  /** The values of one character, after an upper shift or not. */
  lemma LowCharDecodes(mode: Mode, c: byte, upper: bool, out: seq<byte>)
    requires c < 128
    ensures StepValues(mode, State(0, upper, out), CharValues(mode, c)) ==
            Next(State(0, false, out + [if upper then c + 128 else c]))
  {
    hide StepValues, CharValues, BasicSetChar, Shift2SetChar, TextShift3SetChar;
    ValuesOfChar(mode, c);
    Steps(mode, State(0, upper, out), CharValues(mode, c));
  }

  /** Unfolded for at most two values. */
  lemma Steps(mode: Mode, s: State, v: seq<int>)
    ensures |v| == 0 ==> StepValues(mode, s, v) == Next(s)
    ensures |v| == 1 ==> StepValues(mode, s, v) == StepValue(mode, s, v[0])
    ensures |v| == 2 && StepValue(mode, s, v[0]).Next? ==>
      StepValues(mode, s, v) == StepValue(mode, StepValue(mode, s, v[0]).state, v[1])
  {
    hide StepValue;
    if |v| == 1 {
      assert v[..0] == [];
    } else if |v| == 2 {
      assert v[..1][..0] == [];
      assert StepValues(mode, s, v[..1][..0]) == Next(s);
      assert StepValues(mode, s, v[..1]) == StepValue(mode, s, v[0]);
    }
  }

  lemma {:induction false} StepsAppend(mode: Mode, s: State, a: seq<int>, b: seq<int>)
    ensures StepValues(mode, s, a + b) ==
      match StepValues(mode, s, a) case Next(t) => StepValues(mode, t, b) case Invalid => Invalid
    decreases |b|
  {
    hide StepValue;
    if |b| == 0 {
      assert a + b == a;
    } else {
      StepsAppend(mode, s, a, b[..|b| - 1]);
      assert (a + b)[..|a + b| - 1] == a + b[..|b| - 1];
    }
  }

  /** Each character comes back and leaves no shift behind. */
  lemma CharDecodes(mode: Mode, c: byte, out: seq<byte>)
    ensures StepValues(mode, State(0, false, out), CharValues(mode, c)) == Next(State(0, false, out + [c]))
  {
    if c < 128 {
      LowCharDecodes(mode, c, false, out);
    } else {
      hide StepValues;
      Steps(mode, State(0, false, out), [1, 30]);
      StepsAppend(mode, State(0, false, out), [1, 30], CharValues(mode, c - 128));
      LowCharDecodes(mode, c - 128, true, out);
    }
  }

  /** All values of a character but the last output nothing. */
  lemma PartOfChar(mode: Mode, c: byte, out: seq<byte>) returns (t: State)
    ensures var v := CharValues(mode, c);
      StepValues(mode, State(0, false, out), v[..|v| - 1]) == Next(t) && t.out == out
  {
    var s, v := State(0, false, out), CharValues(mode, c);
    if c < 128 {
      hide StepValues, CharValues, BasicSetChar, Shift2SetChar, TextShift3SetChar;
      ValuesOfChar(mode, c);
      Steps(mode, s, v[..|v| - 1]);
      t := StepValues(mode, s, v[..|v| - 1]).state;
    } else {
      hide StepValues, CharValues;
      ValuesOfChar(mode, c - 128);
      UpperValues(mode, c);
      var low := CharValues(mode, c - 128);
      assert v[..|v| - 1] == [1, 30] + low[..|low| - 1];
      Steps(mode, s, [1, 30]);
      StepsAppend(mode, s, [1, 30], low[..|low| - 1]);
      Steps(mode, State(0, true, out), low[..|low| - 1]);
      t := StepValues(mode, s, v[..|v| - 1]).state;
    }
  }

  lemma UpperValues(mode: Mode, c: byte)
    requires c >= 128
    ensures CharValues(mode, c) == [1, 30] + CharValues(mode, c - 128)
  {
  }

  lemma {:induction false} TextDecodes(mode: Mode, s: seq<byte>, out: seq<byte>)
    ensures StepValues(mode, State(0, false, out), TextValues(mode, s)) == Next(State(0, false, out + s))
  {
    hide StepValue, CharValues;
    if |s| == 0 {
      assert out + s == out;
    } else {
      var init, c := s[..|s| - 1], s[|s| - 1];
      TextDecodes(mode, init, out);
      CharDecodes(mode, c, out + init);
      StepsAppend(mode, State(0, false, out), TextValues(mode, init), CharValues(mode, c));
      assert (out + init) + [c] == out + s;
    }
  }

  // ----- triplets -----

  /** Three values in two codewords. */
  function PackTriple(a: nat, b: nat, c: nat): (r: seq<byte>)
    requires a < 40 && b < 40 && c < 40
    ensures |r| == 2
  {
    var v := 1600 * a + 40 * b + c + 1;
    [v / 256, v % 256]
  }

  /** Division in C++ truncates toward zero. */
  function Quotient(a: int, b: nat): int
    requires b > 0
  {
    if a >= 0 then a / b else -(-a / b)
  }

  function UnpackTriple(first: byte, second: byte): (r: seq<int>)
    ensures |r| == 3
  {
    var full := first * 256 + second - 1;
    var a := Quotient(full, 1600);
    var rest := full - a * 1600;
    var b := Quotient(rest, 40);
    [a, b, rest - b * 40]
  }

  /**
   * Only the codewords 0, 0 unpack to a negative value, the last one, and then no shift that looks it up in a table
   * is pending.
   */
  lemma NegativeValue(mode: Mode, s: State, first: byte, second: byte)
    requires s.shift <= 3
    ensures var t := UnpackTriple(first, second);
      && t[0] >= 0 && t[1] >= 0 && (t[2] < 0 ==> first == second == 0)
      && (t[2] < 0 ==> StepValues(mode, s, t[..2]).Next? && StepValues(mode, s, t[..2]).state.shift <= 1)
  {
    var t := UnpackTriple(first, second);
    if first == 0 && second == 0 {
      assert t == [0, 0, -1] && t[..2] == [0, 0];
      Steps(mode, s, [0, 0]);
    } else {
      var full := first * 256 + second - 1;
      assert full >= 0 && full - full / 1600 * 1600 >= 0;
    }
  }

  /** The packed pair never begins with the unlatch codeword, and unpacks to the values. */
  lemma TripleRoundTrip(a: nat, b: nat, c: nat)
    requires a < 40 && b < 40 && c < 40
    ensures PackTriple(a, b, c)[0] < 254
    ensures UnpackTriple(PackTriple(a, b, c)[0], PackTriple(a, b, c)[1]) == [a, b, c]
  {
    var full := 1600 * a + 40 * b + c;
    assert full / 1600 == a;
    assert (full - a * 1600) / 40 == b;
  }

  function Pack(values: seq<nat>): (r: seq<byte>)
    requires |values| % 3 == 0 && forall i :: 0 <= i < |values| ==> values[i] < 40
  {
    if |values| == 0 then []
    else PackTriple(values[0], values[1], values[2]) + Pack(values[3..])
  }

  // ----- a segment -----

  datatype Segment = Ended(out: seq<byte>, rest: seq<byte>) | FormatError

  /** Pairs up to an unlatch or until fewer than two codewords are left. */
  function DecodeSegment(bytes: seq<byte>, mode: Mode, s: State): Segment {
    if |bytes| < 2 then Ended(s.out, bytes)
    else if bytes[0] == C40_UNLATCH then Ended(s.out, bytes[1..])
    else
      match StepValues(mode, s, UnpackTriple(bytes[0], bytes[1]))
      case Next(t) => DecodeSegment(bytes[2..], mode, t)
      case Invalid => FormatError
  }

  const START := State(0, false, [])

  lemma {:induction false} PackedSteps(mode: Mode, values: seq<nat>, s: State, t: State, tail: seq<byte>)
    requires |values| % 3 == 0 && forall i :: 0 <= i < |values| ==> values[i] < 40
    requires StepValues(mode, s, values) == Next(t)
    ensures DecodeSegment(Pack(values) + tail, mode, s) == DecodeSegment(tail, mode, t)
    decreases |values|
  {
    hide StepValue, StepValues, PackTriple, UnpackTriple;
    if |values| == 0 {
      Steps(mode, s, values);
      assert Pack(values) + tail == tail;
    } else {
      var triple, rest := values[..3], values[3..];
      assert values == triple + rest && triple == [values[0], values[1], values[2]];
      StepsAppend(mode, s, triple, rest);
      var pair := PackTriple(values[0], values[1], values[2]);
      TripleRoundTrip(values[0], values[1], values[2]);
      var bytes := Pack(values) + tail;
      assert bytes == pair + (Pack(rest) + tail);
      assert bytes[2..] == Pack(rest) + tail && bytes[0] == pair[0] && bytes[1] == pair[1];
      PackedSteps(mode, rest, StepValues(mode, s, triple).state, t, tail);
    }
  }

  /** What stands behind the triplets of a segment. */
  function Behind(unlatch: bool, tail: seq<byte>): seq<byte> {
    if unlatch then [C40_UNLATCH] + tail else tail
  }

  /** What is left of it for the decoder: an unlatch that is the very last codeword is not read. */
  function LeftOver(unlatch: bool, tail: seq<byte>): seq<byte> {
    if unlatch && tail == [] then [C40_UNLATCH] else tail
  }

  /** From two codewords on, decoding a segment always consumes some. */
  lemma {:induction false} SegmentConsumes(bytes: seq<byte>, mode: Mode, s: State)
    ensures var r := DecodeSegment(bytes, mode, s);
      r.Ended? ==> |r.rest| <= |bytes| && (|bytes| >= 2 ==> |r.rest| < |bytes|)
    decreases |bytes|
  {
    hide StepValues, UnpackTriple;
    if |bytes| >= 2 && bytes[0] != C40_UNLATCH {
      match StepValues(mode, s, UnpackTriple(bytes[0], bytes[1]))
      case Next(t) => SegmentConsumes(bytes[2..], mode, t);
      case Invalid =>
    }
  }

  /** A segment ends where it should if and only if an unlatch ends it or no further pair can follow. */
  lemma SegmentEnd(mode: Mode, t: State, unlatch: bool, tail: seq<byte>)
    ensures (DecodeSegment(Behind(unlatch, tail), mode, t) == Ended(t.out, LeftOver(unlatch, tail)))
      <==> unlatch || |tail| < 2
  {
    assert unlatch && tail != [] ==> Behind(unlatch, tail)[1..] == tail;
    SegmentConsumes(tail, mode, t);
  }

  /**
   * A segment of whole triplets, the last completed by at most one Shift 1 that decodes to nothing, is read back
   * exactly when an unlatch follows, or nothing that could be taken for another pair.
   */
  lemma SegmentRoundTrip(mode: Mode, s: seq<byte>, pad: seq<nat>, unlatch: bool, tail: seq<byte>)
    requires pad == [] || pad == [0]
    requires (|TextValues(mode, s)| + |pad|) % 3 == 0
    ensures (DecodeSegment(Pack(TextValues(mode, s) + pad) + Behind(unlatch, tail), mode, START)
             == Ended(s, LeftOver(unlatch, tail))) <==> unlatch || |tail| < 2
  {
    hide StepValues, TextValues, Pack, DecodeSegment, Behind, LeftOver;
    var values := TextValues(mode, s);
    TextDecodes(mode, s, []);
    assert [] + s == s;
    var t := State(if pad == [] then 0 else 1, false, s);
    PadSteps(mode, s, pad);
    StepsAppend(mode, START, values, pad);
    PackedSteps(mode, values + pad, START, t, Behind(unlatch, tail));
    SegmentEnd(mode, t, unlatch, tail);
  }

  lemma PadSteps(mode: Mode, s: seq<byte>, pad: seq<nat>)
    requires pad == [] || pad == [0]
    ensures StepValues(mode, State(0, false, s), pad) == Next(State(if pad == [] then 0 else 1, false, s))
  {
    Steps(mode, State(0, false, s), pad);
  }

  /** With the last value of the last character left out, the text without that character is read back, as exactly. */
  lemma ShortenedRoundTrip(mode: Mode, s: seq<byte>, unlatch: bool, tail: seq<byte>)
    requires |s| > 0 && |TextValues(mode, s)| % 3 == 1
    ensures var values := TextValues(mode, s);
      (DecodeSegment(Pack(values[..|values| - 1]) + Behind(unlatch, tail), mode, START)
       == Ended(s[..|s| - 1], LeftOver(unlatch, tail))) <==> unlatch || |tail| < 2
  {
    hide StepValues, TextValues, Pack, DecodeSegment, CharValues, Behind, LeftOver;
    var init, values := s[..|s| - 1], TextValues(mode, s);
    var part, t := ShortenedValues(mode, s);
    TextDecodes(mode, init, []);
    assert [] + init == init;
    StepsAppend(mode, START, TextValues(mode, init), part);
    PackedSteps(mode, values[..|values| - 1], START, t, Behind(unlatch, tail));
    SegmentEnd(mode, t, unlatch, tail);
  }

  lemma ShortenedValues(mode: Mode, s: seq<byte>) returns (part: seq<nat>, t: State)
    requires |s| > 0
    ensures |TextValues(mode, s)| > 0
    ensures TextValues(mode, s)[..|TextValues(mode, s)| - 1] == TextValues(mode, s[..|s| - 1]) + part
    ensures StepValues(mode, State(0, false, s[..|s| - 1]), part) == Next(t) && t.out == s[..|s| - 1]
  {
    hide StepValues, CharValues;
    var v := CharValues(mode, s[|s| - 1]);
    t := PartOfChar(mode, s[|s| - 1], s[..|s| - 1]);
    part := v[..|v| - 1];
  }

  // ----- the decoder's segment loop -----

  /** The next three values, or nothing at the end of the segment. */
  method DecodeNextTriple(bits: BitSource) returns (found: bool, triple: seq<int>)
    requires bits.Valid() && bits.bitOffset == 0
    modifies bits
    ensures bits.Valid() && bits.bitOffset == 0
    ensures var rest := bits.bytes[old(bits.byteOffset)..];
      && (found <==> |rest| >= 2 && rest[0] != C40_UNLATCH)
      && (found ==> triple == UnpackTriple(rest[0], rest[1]) && bits.byteOffset == old(bits.byteOffset) + 2)
      && (!found ==> bits.byteOffset == old(bits.byteOffset) + (if |rest| < 2 then 0 else 1))
  {
    hide AllBits;
    AllBitsLength(bits.bytes);
    if bits.Available() < 16 {
      return false, [];
    }
    var ok, firstByte := ReadByte(bits);
    if firstByte == C40_UNLATCH {
      return false, [];
    }
    var secondByte;
    ok, secondByte := ReadByte(bits);
    var fullBitValue := (firstByte as int) * 256 + secondByte as int - 1;
    var a := Quotient(fullBitValue, 1600);
    fullBitValue := fullBitValue - a * 1600;
    var b := Quotient(fullBitValue, 40);
    var c := fullBitValue - b * 40;
    return true, [a, b, c];
  }

  method DecodeC40OrTextSegment(bits: BitSource, mode: Mode) returns (result: Segment)
    requires bits.Valid() && bits.bitOffset == 0
    modifies bits
    ensures bits.Valid() && bits.bitOffset == 0
    ensures result == DecodeSegment(bits.bytes[old(bits.byteOffset)..], mode, START)
    ensures result.Ended? ==> bits.bytes[bits.byteOffset..] == result.rest
  {
    hide StepValue, UnpackTriple;
    var s := START;
    ghost var all := bits.bytes[bits.byteOffset..];
    while true
      invariant bits.Valid() && bits.bitOffset == 0
      invariant DecodeSegment(bits.bytes[bits.byteOffset..], mode, s) == DecodeSegment(all, mode, START)
      decreases |bits.bytes| - bits.byteOffset
    {
      ghost var rest := bits.bytes[bits.byteOffset..];
      var found, triple := DecodeNextTriple(bits);
      if !found {
        assert |rest| >= 2 ==> bits.bytes[bits.byteOffset..] == rest[1..];
        return Ended(s.out, bits.bytes[bits.byteOffset..]);
      }
      assert bits.bytes[bits.byteOffset..] == rest[2..];
      var ok;
      ok, s := DecodeTriple(mode, s, triple);
      if !ok {
        return FormatError;
      }
    }
  }

  method DecodeTriple(mode: Mode, s: State, triple: seq<int>) returns (ok: bool, s': State)
    ensures match StepValues(mode, s, triple) case Next(t) => ok && s' == t case Invalid => !ok
  {
    hide StepValue;
    s' := s;
    for i := 0 to |triple|
      invariant StepValues(mode, s, triple[..i]) == Next(s')
    {
      assert triple[..i + 1][..i] == triple[..i];
      match StepValue(mode, s', triple[i]) {
        case Next(t) =>
          s' := t;
        case Invalid =>
          InvalidStays(mode, s, triple, i + 1, |triple|);
          assert triple[..|triple|] == triple;
          return false, s';
      }
    }
    assert triple[..|triple|] == triple;
    ok := true;
  }

  lemma {:induction false} InvalidStays(mode: Mode, s: State, values: seq<int>, i: nat, j: nat)
    requires i <= j <= |values| && StepValues(mode, s, values[..i]) == Invalid
    ensures StepValues(mode, s, values[..j]) == Invalid
    decreases j
  {
    hide StepValue;
    if i < j {
      InvalidStays(mode, s, values, i, j - 1);
      assert values[..j][..j - 1] == values[..j - 1];
    }
  }
}
