/** Every operation on encoding states keeps them sound. */
module AztecStateLemmas {
  import opened Bits
  import opened BitArrays
  import opened AztecDecoder
  import opened AztecTokens
  import opened AztecStates

  lemma SimpleToken(value: int, bitCount: int, text: seq<byte>)
    requires 0 <= value < 0x8000 && 0 < bitCount <= 16
    ensures CreateSimple(value, bitCount).Fits(text)
    ensures TokenBits(CreateSimple(value, bitCount), text) == ToBits(value, bitCount)
  {
    hide ToBits;
  }

  /** One more token, in a state without pending bytes. */
  lemma PushToken(s: EncodingState, token: Token, text: seq<byte>, index: nat, index': nat, m': Mode)
    requires Sound(s, text, index) && s.binaryShiftByteCount == 0 && token.Fits(text) && index <= index' <= |text|
    requires Decodes(TokenBits(token, text), s.mode, text[index..index'], m')
    ensures var bitCount := s.bitCount + |TokenBits(token, text)|;
      Sound(EncodingState(s.tokens + [token], m', 0, bitCount), text, index')
  {
    hide Decodes, TokenBits;
    var tokens := s.tokens + [token];
    assert tokens[..|tokens| - 1] == s.tokens;
    DecodesTrans(TokensBits(s.tokens, text), Upper, text[..index], s.mode,
                 TokenBits(token, text), text[index..index'], m');
    assert text[..index] + text[index..index'] == text[..index'];
  }

  lemma BinaryToken(text: seq<byte>, index: nat, p: nat)
    requires 1 <= p <= index <= |text| <= 0x7FFF
    ensures var token := CreateBinaryShift(index - p, p);
      token.Fits(text) && TokenBits(token, text) == BinaryBits(text[index - p..index], p)
  {
    hide BinaryBits;
  }

  /** The state after its binary run was turned into a token. */
  lemma EndBinaryShiftSound(s: EncodingState, text: seq<byte>, index: nat)
    requires Sound(s, text, index)
    ensures Sound(EndBinaryShift(s, index), text, index) && EndBinaryShift(s, index).binaryShiftByteCount == 0
  {
    hide Decodes, BinaryBits, TokenBits, CreateBinaryShift, Sound, BinaryCost;
    var p := s.binaryShiftByteCount;
    if p > 0 {
      BeforePending(s, text, index);
      BinaryToken(text, index, p);
      DecodesBinaryRun(s.mode, text[index - p..index]);
      var before := s.(binaryShiftByteCount := 0, bitCount := s.bitCount - BinaryCost(p));
      PushToken(before, CreateBinaryShift(index - p, p), text, index - p, index, s.mode);
    }
  }

  lemma BeforePending(s: EncodingState, text: seq<byte>, index: nat)
    requires Sound(s, text, index)
    ensures var p := s.binaryShiftByteCount;
      && p <= index <= |text| <= 0x7FFF && p <= 2047 + 31
      && (p > 0 ==> s.mode == Upper || s.mode == Lower || s.mode == Mixed)
      && Sound(s.(binaryShiftByteCount := 0, bitCount := s.bitCount - BinaryCost(p)), text, index - p)
  {
    hide Decodes, TokensBits;
  }

  lemma PushLatch(s: EncodingState, mode: Mode, text: seq<byte>, index: nat)
    requires Sound(s, text, index) && s.binaryShiftByteCount == 0 && mode != s.mode
    ensures var latch := CreateSimple(LatchValue(s.mode, mode), LatchBits(s.mode, mode));
      Sound(EncodingState(s.tokens + [latch], mode, 0, s.bitCount + LatchBits(s.mode, mode)), text, index)
  {
    LatchTableDecodes(s.mode, mode);
    hide Decodes, TokenBits, ToBits, CreateSimple, Sound, LatchBits, LatchValue;
    SimpleToken(LatchValue(s.mode, mode), LatchBits(s.mode, mode), text);
    assert index <= |text| by {
      SoundIndex(s, text, index);
    }
    assert text[index..index] == [];
    PushToken(s, CreateSimple(LatchValue(s.mode, mode), LatchBits(s.mode, mode)), text, index, index, mode);
  }

  lemma SoundIndex(s: EncodingState, text: seq<byte>, index: nat)
    requires Sound(s, text, index)
    ensures s.binaryShiftByteCount <= index <= |text| <= 0x7FFF
  {
  }

  /** Reading code in a mode outputs the next bytes of the text. */
  ghost predicate Sends(mode: Mode, code: nat, text: seq<byte>, index: nat, index': nat) {
    && index <= index' <= |text|
    && code < Pow2(CodeSize(mode)) <= 32
    && GetCharacter(mode, code) == Text(text[index..index'])
  }

  lemma PushCode(s: EncodingState, code: nat, text: seq<byte>, index: nat, index': nat)
    requires Sound(s, text, index) && s.binaryShiftByteCount == 0 && Sends(s.mode, code, text, index, index')
    ensures var token := CreateSimple(code, CodeSize(s.mode));
      Sound(EncodingState(s.tokens + [token], s.mode, 0, s.bitCount + CodeSize(s.mode)), text, index')
  {
    hide Decodes, TokenBits, ToBits, CreateSimple, Sound, GetCharacter, Pow2;
    SimpleToken(code, CodeSize(s.mode), text);
    DecodesText(s.mode, code, text[index..index']);
    PushToken(s, CreateSimple(code, CodeSize(s.mode)), text, index, index', s.mode);
  }

  lemma LatchAndAppendSound(s: EncodingState, mode: Mode, code: nat, text: seq<byte>, index: nat, index': nat)
    requires Sound(s, text, index) && s.binaryShiftByteCount == 0 && Sends(mode, code, text, index, index')
    ensures Open(LatchAndAppend(s, mode, code), text, index')
  {
    hide Sound, Sends, CreateSimple, LatchBits, LatchValue;
    if mode != s.mode {
      PushLatch(s, mode, text, index);
      var latch := CreateSimple(LatchValue(s.mode, mode), LatchBits(s.mode, mode));
      PushCode(EncodingState(s.tokens + [latch], mode, 0, s.bitCount + LatchBits(s.mode, mode)), code, text, index, index');
    } else {
      PushCode(s, code, text, index, index');
    }
  }

  /** Two more tokens that are only complete together. */
  lemma PushTwoTokens(s: EncodingState, t1: Token, t2: Token, text: seq<byte>, index: nat, index': nat)
    requires Sound(s, text, index) && s.binaryShiftByteCount == 0 && t1.Fits(text) && t2.Fits(text)
    requires index <= index' <= |text|
    requires Decodes(TokenBits(t1, text) + TokenBits(t2, text), s.mode, text[index..index'], s.mode)
    ensures var bitCount := s.bitCount + |TokenBits(t1, text)| + |TokenBits(t2, text)|;
      Sound(EncodingState(s.tokens + [t1] + [t2], s.mode, 0, bitCount), text, index')
  {
    hide Decodes, TokenBits, TokensBits;
    PushTwo(s.tokens, t1, t2, text);
    var both := TokenBits(t1, text) + TokenBits(t2, text);
    DecodesTrans(TokensBits(s.tokens, text), Upper, text[..index], s.mode, both, text[index..index'], s.mode);
    assert text[..index] + text[index..index'] == text[..index'];
  }

  lemma ShiftTableDecodes(from: Mode, to: Mode)
    requires ShiftTable(from, to) >= 0
    ensures ShiftTable(from, to) < Pow2(CodeSize(from)) <= 32 && CodeSize(to) == 5
    ensures GetCharacter(from, ShiftTable(from, to)) == Ctrl(to, false)
  {
    assert Pow2(5) == 32 && Pow2(4) == 16;
  }

  lemma ShiftAndAppendSound(s: EncodingState, mode: Mode, code: nat, text: seq<byte>, index: nat, index': nat)
    requires Sound(s, text, index) && s.binaryShiftByteCount == 0 && Sends(mode, code, text, index, index')
    requires ShiftTable(s.mode, mode) >= 0
    ensures Open(ShiftAndAppend(s, mode, code), text, index')
  {
    hide Pow2, GetCharacter, ToBits, Decodes, TokenBits, ShiftTable, CreateSimple, Sound;
    var shift, n := ShiftTable(s.mode, mode), CodeSize(s.mode);
    ShiftTableDecodes(s.mode, mode);
    DecodesShift(s.mode, shift, mode, code, text[index..index']);
    SimpleToken(shift, n, text);
    SimpleToken(code, 5, text);
    PushTwoTokens(s, CreateSimple(shift, n), CreateSimple(code, 5), text, index, index');
  }

  lemma PushTwo(tokens: seq<Token>, t1: Token, t2: Token, text: seq<byte>)
    requires Fit(tokens, text) && t1.Fits(text) && t2.Fits(text)
    ensures Fit(tokens + [t1] + [t2], text)
    ensures TokensBits(tokens + [t1] + [t2], text) == TokensBits(tokens, text) + (TokenBits(t1, text) + TokenBits(t2, text))
  {
    hide TokenBits;
    var a := tokens + [t1];
    var b := a + [t2];
    assert a[..|a| - 1] == tokens && b[..|b| - 1] == a;
    Assoc(TokensBits(tokens, text), TokenBits(t1, text), TokenBits(t2, text));
  }

  lemma LeavePunctOrDigitSound(s: EncodingState, text: seq<byte>, index: nat)
    requires Sound(s, text, index)
    ensures var t := LeavePunctOrDigit(s);
      Sound(t, text, index) && t.mode != Punct && t.mode != Digit && t.binaryShiftByteCount == s.binaryShiftByteCount
  {
    if s.mode == Punct || s.mode == Digit {
      assert s.binaryShiftByteCount == 0;
      hide Sound;
      PushLatch(s, Upper, text, index);
    }
  }

  /** One more pending byte; at 2078 bytes the run is closed. */
  lemma AddBinaryShiftCharSound(s: EncodingState, text: seq<byte>, index: nat)
    requires Open(s, text, index) && index < |text|
    ensures Open(AddBinaryShiftChar(s, index), text, index + 1)
  {
    hide TokensBits, Decodes, LeavePunctOrDigit;
    LeavePunctOrDigitSound(s, text, index);
    var t, p := LeavePunctOrDigit(s), s.binaryShiftByteCount;
    var r := t.(binaryShiftByteCount := p + 1, bitCount := t.bitCount + (BinaryCost(p + 1) - BinaryCost(p)));
    assert index - p == index + 1 - (p + 1);
    assert Sound(r, text, index + 1);
    if p + 1 == 2047 + 31 {
      EndBinaryShiftSound(r, text, index + 1);
    }
  }
}
