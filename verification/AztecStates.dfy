/** Encoding states of the Aztec high-level encoder and their meaning (core/src/aztec/AZHighLevelEncoder.cpp). */
module AztecStates {
  import opened Bits
  import opened BitArrays
  import opened AztecDecoder
  import opened AztecTokens

  type Mode = t: Table | t != Binary witness Upper

  /** The encoder's modes, in its own order. */
  const MODES: seq<Mode> := [Upper, Lower, Digit, Mixed, Punct]

  /** Number of bits in the high half-word, the bits themselves in the low one. */
  function LatchTable(from: Mode, to: Mode): int {
    match (from, to)
    case (Upper, Lower) => 5 * 0x10000 + 28
    case (Upper, Digit) => 5 * 0x10000 + 30
    case (Upper, Mixed) => 5 * 0x10000 + 29
    case (Upper, Punct) => 10 * 0x10000 + 29 * 32 + 30
    case (Lower, Upper) => 9 * 0x10000 + 30 * 16 + 14
    case (Lower, Digit) => 5 * 0x10000 + 30
    case (Lower, Mixed) => 5 * 0x10000 + 29
    case (Lower, Punct) => 10 * 0x10000 + 29 * 32 + 30
    case (Digit, Upper) => 4 * 0x10000 + 14
    case (Digit, Lower) => 9 * 0x10000 + 14 * 32 + 28
    case (Digit, Mixed) => 9 * 0x10000 + 14 * 32 + 29
    case (Digit, Punct) => 14 * 0x10000 + 14 * 1024 + 29 * 32 + 30
    case (Mixed, Upper) => 5 * 0x10000 + 29
    case (Mixed, Lower) => 5 * 0x10000 + 28
    case (Mixed, Digit) => 10 * 0x10000 + 29 * 32 + 30
    case (Mixed, Punct) => 5 * 0x10000 + 30
    case (Punct, Upper) => 5 * 0x10000 + 31
    case (Punct, Lower) => 10 * 0x10000 + 31 * 32 + 28
    case (Punct, Digit) => 10 * 0x10000 + 31 * 32 + 30
    case (Punct, Mixed) => 10 * 0x10000 + 31 * 32 + 29
    case _ => 0
  }

  function LatchBits(from: Mode, to: Mode): nat {
    LatchTable(from, to) / 0x10000
  }

  function LatchValue(from: Mode, to: Mode): nat {
    LatchTable(from, to) % 0x10000
  }

  /** The shift code from one mode to another, -1 when there is none. */
  function ShiftTable(from: Mode, to: Mode): int {
    match (from, to)
    case (Upper, Punct) => 0
    case (Lower, Punct) => 0
    case (Lower, Upper) => 28
    case (Mixed, Punct) => 0
    case (Digit, Punct) => 0
    case (Digit, Upper) => 15
    case _ => -1
  }

  const MIXED_TABLE: seq<nat> := [
    0x00, 0x20, 0x01, 0x02, 0x03, 0x04, 0x05, 0x06, 0x07, 0x08, 0x09, 0x0a, 0x0b, 0x0c,
    0x0d, 0x1b, 0x1c, 0x1d, 0x1e, 0x1f, 0x40, 0x5c, 0x5e, 0x5f, 0x60, 0x7c, 0x7e, 0x7f]

  /** The single quote is at index 7 as well as at 12: the double quote is missing. */
  const PUNCT_TABLE: seq<nat> := [
    0, 13, 0, 0, 0, 0, 33, 39, 35, 36, 37, 38, 39, 40, 41, 42,
    43, 44, 45, 46, 47, 58, 59, 60, 61, 62, 63, 91, 93, 123, 125]

  /** Later entries overwrite earlier ones when the table is inverted. */
  function LastIndex(table: seq<nat>, ch: nat): (i: nat)
    ensures i != 0 ==> i < |table| && table[i] == ch
    ensures i == 0 ==> forall j :: 1 <= j < |table| ==> table[j] != ch
  {
    if |table| == 0 then 0
    else if table[|table| - 1] == ch then |table| - 1
    else LastIndex(table[..|table| - 1], ch)
  }

  /** The code of a character in a mode, 0 when it has none. */
  function CharMap(mode: Mode, ch: byte): nat {
    match mode
    case Upper => if ch == 32 then 1 else if 65 <= ch <= 90 then ch - 65 + 2 else 0
    case Lower => if ch == 32 then 1 else if 97 <= ch <= 122 then ch - 97 + 2 else 0
    case Digit =>
      if ch == 32 then 1 else if 48 <= ch <= 57 then ch - 48 + 2 else if ch == 44 then 12 else if ch == 46 then 13 else 0
    case Mixed => LastIndex(MIXED_TABLE, ch)
    case Punct => if ch > 0 then LastIndex(PUNCT_TABLE, ch) else 0
  }

  datatype EncodingState = EncodingState(tokens: seq<Token>, mode: Mode, binaryShiftByteCount: nat, bitCount: int)

  function LatchAndAppend(state: EncodingState, mode: Mode, value: nat): EncodingState {
    var latched :=
      if mode != state.mode then state.tokens + [CreateSimple(LatchValue(state.mode, mode), LatchBits(state.mode, mode))]
      else state.tokens;
    var bitCount := if mode != state.mode then state.bitCount + LatchBits(state.mode, mode) else state.bitCount;
    EncodingState(latched + [CreateSimple(value, CodeSize(mode))], mode, 0, bitCount + CodeSize(mode))
  }

  function ShiftAndAppend(state: EncodingState, mode: Mode, value: nat): EncodingState {
    var tokens := state.tokens + [CreateSimple(ShiftTable(state.mode, mode), CodeSize(state.mode))];
    EncodingState(tokens + [CreateSimple(value, 5)], state.mode, 0, state.bitCount + CodeSize(state.mode) + 5)
  }

  function EndBinaryShift(state: EncodingState, index: int): EncodingState {
    if state.binaryShiftByteCount == 0 then state
    else
      var token := CreateBinaryShift(index - state.binaryShiftByteCount, state.binaryShiftByteCount);
      EncodingState(state.tokens + [token], state.mode, 0, state.bitCount)
  }

  /** The state latched to a mode that has a binary shift. */
  function LeavePunctOrDigit(state: EncodingState): EncodingState {
    if state.mode == Punct || state.mode == Digit then
      var latch := CreateSimple(LatchValue(state.mode, Upper), LatchBits(state.mode, Upper));
      state.(tokens := state.tokens + [latch], mode := Upper, bitCount := state.bitCount + LatchBits(state.mode, Upper))
    else state
  }

  function AddBinaryShiftChar(state: EncodingState, index: int): EncodingState {
    var count := state.binaryShiftByteCount;
    var s := LeavePunctOrDigit(state);
    var deltaBitCount := if count == 0 || count == 31 then 18 else if count == 62 then 9 else 8;
    var result := s.(binaryShiftByteCount := count + 1, bitCount := s.bitCount + deltaBitCount);
    if count + 1 == 2047 + 31 then EndBinaryShift(result, index + 1) else result
  }

  // ----- what the tokens of a state mean -----

  ghost predicate Fit(tokens: seq<Token>, text: seq<byte>) {
    forall i :: 0 <= i < |tokens| ==> tokens[i].Fits(text)
  }

  function TokensBits(tokens: seq<Token>, text: seq<byte>): Bitstring
    requires Fit(tokens, text)
  {
    if |tokens| == 0 then []
    else TokensBits(tokens[..|tokens| - 1], text) + TokenBits(tokens[|tokens| - 1], text)
  }

  /**
   * The state stands for the first index bytes of the text: its tokens decode to all but the pending binary
   * bytes and leave the decoder in the state's mode, and the bit count is what will have been sent.
   */
  ghost predicate Sound(s: EncodingState, text: seq<byte>, index: nat) {
    var p := s.binaryShiftByteCount;
    && p <= index <= |text| <= 0x7FFF
    && p <= 2047 + 31
    && (p > 0 ==> s.mode != Punct && s.mode != Digit)
    && Fit(s.tokens, text)
    && Decodes(TokensBits(s.tokens, text), Upper, text[..index - p], s.mode)
    && s.bitCount == |TokensBits(s.tokens, text)| + BinaryCost(p)
  }

  /** A sound state whose binary run can still grow. */
  ghost predicate Open(s: EncodingState, text: seq<byte>, index: nat) {
    Sound(s, text, index) && s.binaryShiftByteCount < 2047 + 31
  }

  // ----- the tables agree with the decoder's -----

  lemma MixedTableAgrees(code: nat)
    requires 1 <= code <= 27
    ensures |MIXED_TABLE| == 28 && GetCharacter(Mixed, code) == Text([MIXED_TABLE[code]])
  {
    assert Pow2(5) == 32;
    assert MIXED_TABLE == MIXED_CHARS;
  }

  lemma PunctTableAgrees(code: nat)
    requires 1 <= code <= 30
    ensures |PUNCT_TABLE| == 31 && Pow2(5) == 32
    ensures 2 <= code <= 5 ==> PUNCT_TABLE[code] == 0
    ensures code == 7 ==> PUNCT_TABLE[code] == 39
    ensures 0 < PUNCT_TABLE[code] < 256 && code != 7 ==> GetCharacter(Punct, code) == Text([PUNCT_TABLE[code]])
    ensures code != 7 ==> PUNCT_TABLE[code] != 34
    ensures 6 <= code && code != 7 ==> 0 < PUNCT_TABLE[code] < 256
  {
    assert Pow2(5) == 32;
    assert PUNCT_TABLE[1] == 13;
    assert 6 <= code && code != 7 ==> PUNCT_TABLE[code] == PUNCT_CHARS[code - 6];
  }

  /** The later of the two entries for the single quote wins. */
  lemma SingleQuote()
    ensures LastIndex(PUNCT_TABLE, 39) == 12
  {
    hide LastIndex;
    assert PUNCT_TABLE[12] == 39;
    var i := LastIndex(PUNCT_TABLE, 39);
    assert i == 7 || i == 12;
    LastIsLast(PUNCT_TABLE, 39, 12);
  }

  lemma {:induction false} LastIsLast(table: seq<nat>, ch: nat, j: nat)
    requires j < |table| && table[j] == ch
    ensures LastIndex(table, ch) >= j
  {
    if table[|table| - 1] != ch {
      LastIsLast(table[..|table| - 1], ch, j);
    }
  }

  lemma CharMapDecodes(mode: Mode, ch: byte)
    requires CharMap(mode, ch) > 0
    ensures CharMap(mode, ch) < Pow2(CodeSize(mode)) <= 32
    ensures GetCharacter(mode, CharMap(mode, ch)) == Text([ch])
  {
    assert Pow2(5) == 32 && Pow2(4) == 16;
    hide LastIndex, Pow2;
    if mode == Mixed {
      hide GetCharacter;
      MixedTableAgrees(CharMap(Mixed, ch));
    } else if mode == Punct {
      hide GetCharacter;
      PunctTableAgrees(CharMap(Punct, ch));
      SingleQuote();
    }
  }

  /** A character without a code has none in the decoder's table either, but for the double quote. */
  lemma CharMapComplete(mode: Mode, ch: byte, code: nat)
    requires code < Pow2(CodeSize(mode)) && GetCharacter(mode, code) == Text([ch])
    ensures CharMap(mode, ch) > 0 <==> !(mode == Punct && ch == 34)
  {
    assert Pow2(5) == 32 && Pow2(4) == 16;
    hide LastIndex, Pow2;
    if mode == Mixed {
      MixedTableAgrees(code);
    } else if mode == Punct {
      PunctTableAgrees(code);
      var i := LastIndex(PUNCT_TABLE, ch);
      if ch == 34 && i > 0 {
        PunctTableAgrees(i);
      }
    }
  }

  // ----- latches -----

  lemma DecodesLatches(b1: Bitstring, m1: Table, m2: Table, b2: Bitstring, m3: Table)
    requires Decodes(b1, m1, [], m2) && Decodes(b2, m2, [], m3)
    ensures Decodes(b1 + b2, m1, [], m3)
  {
    hide *;
    DecodesTrans(b1, m1, [], m2, b2, [], m3);
    var none: seq<byte> := [];
    assert none + none == none;
  }

  lemma TwoLatches(m1: Mode, c1: nat, m2: Mode, c2: nat, m3: Mode)
    requires c1 < Pow2(CodeSize(m1)) && GetCharacter(m1, c1) == Ctrl(m2, true)
    requires c2 < Pow2(CodeSize(m2)) && GetCharacter(m2, c2) == Ctrl(m3, true)
    ensures Decodes(ToBits(c1 * Pow2(CodeSize(m2)) + c2, CodeSize(m1) + CodeSize(m2)), m1, [], m3)
  {
    hide *;
    DecodesLatch(m1, c1, m2);
    DecodesLatch(m2, c2, m3);
    ToBitsAppend(c1, c2, CodeSize(m1), CodeSize(m2));
    DecodesLatches(ToBits(c1, CodeSize(m1)), m1, m2, ToBits(c2, CodeSize(m2)), m3);
  }

  lemma LatchesOnce(from: Mode, code: nat, to: Mode)
    requires code < 32 && (from == Digit ==> code < 16) && from != to
    requires LatchTable(from, to) == CodeSize(from) * 0x10000 + code
    requires Pow2(CodeSize(from)) == 32 || (from == Digit && Pow2(4) == 16)
    requires GetCharacter(from, code) == Ctrl(to, true)
    ensures LatchDecodes(from, to)
  {
    hide Decodes, ToBits, GetCharacter, Pow2;
    DecodesLatch(from, code, to);
  }

  lemma LatchesTwice(from: Mode, c1: nat, via: Mode, c2: nat, to: Mode)
    requires Pow2(5) == 32 && Pow2(4) == 16
    requires c1 < Pow2(CodeSize(from)) && GetCharacter(from, c1) == Ctrl(via, true)
    requires c2 < Pow2(CodeSize(via)) && GetCharacter(via, c2) == Ctrl(to, true)
    requires LatchTable(from, to) ==
      (CodeSize(from) + CodeSize(via)) * 0x10000 + (c1 * (if via == Digit then 16 else 32) + c2)
    ensures LatchDecodes(from, to)
  {
    hide Decodes, ToBits, GetCharacter, Pow2, LatchTable;
    TwoLatches(from, c1, via, c2, to);
    HalfWords(CodeSize(from) + CodeSize(via), c1 * (if via == Digit then 16 else 32) + c2);
  }

  lemma HalfWords(high: nat, low: nat)
    requires low < 0x10000
    ensures (high * 0x10000 + low) / 0x10000 == high && (high * 0x10000 + low) % 0x10000 == low
  {
  }

  /** The entry fits a short, and sending it takes the decoder from one mode to the other. */
  ghost predicate LatchDecodes(from: Mode, to: Mode) {
    && 0 < LatchBits(from, to) <= 14 && LatchValue(from, to) < 0x8000
    && Decodes(ToBits(LatchValue(from, to), LatchBits(from, to)), from, [], to)
  }

  /** Every entry of the latch table leads where it says. */
  lemma LatchTableDecodes(from: Mode, to: Mode)
    requires from != to
    ensures LatchDecodes(from, to)
  {
    hide Pow2, LatchDecodes;
    SmallPowers();
    match from
    case Upper =>
      if to == Punct {
        LatchesTwice(Upper, 29, Mixed, 30, Punct);
      } else {
        LatchesOnce(Upper, if to == Lower then 28 else if to == Digit then 30 else 29, to);
      }
    case Lower =>
      if to == Punct {
        LatchesTwice(Lower, 29, Mixed, 30, Punct);
      } else if to == Upper {
        LatchesTwice(Lower, 30, Digit, 14, Upper);
      } else {
        LatchesOnce(Lower, if to == Digit then 30 else 29, to);
      }
    case Digit =>
      if to == Punct {
        DigitToPunct();
      } else if to == Upper {
        LatchesOnce(Digit, 14, Upper);
      } else {
        LatchesTwice(Digit, 14, Upper, if to == Lower then 28 else 29, to);
      }
    case Mixed =>
      if to == Digit {
        LatchesTwice(Mixed, 29, Upper, 30, Digit);
      } else {
        LatchesOnce(Mixed, if to == Upper then 29 else if to == Lower then 28 else 30, to);
      }
    case Punct =>
      if to == Upper {
        LatchesOnce(Punct, 31, Upper);
      } else {
        LatchesTwice(Punct, 31, Upper, if to == Lower then 28 else if to == Digit then 30 else 29, to);
      }
  }

  /** The one entry of three latches, through Upper and Mixed. */
  lemma DigitToPunct()
    ensures LatchDecodes(Digit, Punct)
  {
    hide Decodes, ToBits, Pow2, GetCharacter;
    ThreeLatches();
    HalfWords(14, 14 * 1024 + (29 * 32 + 30));
  }

  lemma ThreeLatches()
    ensures Decodes(ToBits(14 * 1024 + (29 * 32 + 30), 14), Digit, [], Punct)
  {
    hide Decodes, ToBits, Pow2;
    SmallPowers();
    DecodesLatch(Digit, 14, Upper);
    TwoLatches(Upper, 29, Mixed, 30, Punct);
    ToBitsAppend(14, 29 * 32 + 30, 4, 10);
    DecodesLatches(ToBits(14, 4), Digit, Upper, ToBits(29 * 32 + 30, 10), Punct);
  }
}
