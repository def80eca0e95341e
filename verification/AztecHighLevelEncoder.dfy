/** The search for a short encoding and the text round trip (core/src/aztec/AZHighLevelEncoder.cpp:231-375). */
module AztecHighLevelEncoder {
  import opened Bits
  import opened BitArrays
  import opened AztecDecoder
  import opened AztecTokens
  import opened AztecStates
  import opened AztecStateLemmas
  import opened AztecPruning

  // ----- one character -----

  /** The states that send the character by a code of one mode. */
  function ModeSuccessors(state: EncodingState, noBinary: EncodingState, ch: byte, mode: Mode): seq<EncodingState> {
    var inCurrentTable := CharMap(state.mode, ch) > 0;
    if CharMap(mode, ch) == 0 then []
    else
      (if !inCurrentTable || mode == state.mode || mode == Digit then [LatchAndAppend(noBinary, mode, CharMap(mode, ch))]
       else [])
      + (if !inCurrentTable && ShiftTable(state.mode, mode) >= 0 then [ShiftAndAppend(noBinary, mode, CharMap(mode, ch))]
         else [])
  }

  /** The same for the first n modes. */
  function CodeSuccessors(state: EncodingState, noBinary: EncodingState, ch: byte, n: nat): seq<EncodingState>
    requires n <= |MODES|
  {
    if n == 0 then []
    else CodeSuccessors(state, noBinary, ch, n - 1) + ModeSuccessors(state, noBinary, ch, MODES[n - 1])
  }

  function CharSuccessors(state: EncodingState, ch: byte, index: nat): seq<EncodingState> {
    CodeSuccessors(state, EndBinaryShift(state, index), ch, |MODES|)
    + (if state.binaryShiftByteCount > 0 || CharMap(state.mode, ch) == 0 then [AddBinaryShiftChar(state, index)] else [])
  }

  method UpdateStateForChar(state: EncodingState, text: seq<byte>, index: nat, result: seq<EncodingState>)
      returns (result': seq<EncodingState>)
    requires index < |text|
    ensures result' == result + CharSuccessors(state, text[index], index)
  {
    hide LatchAndAppend, ShiftAndAppend, AddBinaryShiftChar, EndBinaryShift, CharMap, ShiftTable;
    var ch := text[index];
    ghost var noBinary := EndBinaryShift(state, index);
    var charInCurrentTable := CharMap(state.mode, ch) > 0;
    var stateNoBinary := EncodingState([], Upper, 0, 0);
    var firstTime := true;
    result' := result;
    for m := 0 to |MODES|
      invariant !firstTime ==> stateNoBinary == noBinary
      invariant result' == result + CodeSuccessors(state, noBinary, ch, m)
    {
      var mode := MODES[m];
      ghost var before := result';
      var charInMode := CharMap(mode, ch);
      if charInMode > 0 {
        if firstTime {
          // only created the first time it is required
          stateNoBinary := EndBinaryShift(state, index);
          firstTime := false;
        }
        // any other latch would be equally successful after this character
        if !charInCurrentTable || mode == state.mode || mode == Digit {
          result' := result' + [LatchAndAppend(stateNoBinary, mode, charInMode)];
        }
        if !charInCurrentTable && ShiftTable(state.mode, mode) >= 0 {
          result' := result' + [ShiftAndAppend(stateNoBinary, mode, charInMode)];
        }
      }
      assert result' == before + ModeSuccessors(state, noBinary, ch, mode);
      AppendAssoc(result, CodeSuccessors(state, noBinary, ch, m), ModeSuccessors(state, noBinary, ch, mode));
    }
    if state.binaryShiftByteCount > 0 || CharMap(state.mode, ch) == 0 {
      result' := result' + [AddBinaryShiftChar(state, index)];
    }
  }

  lemma AppendAssoc(a: seq<EncodingState>, b: seq<EncodingState>, c: seq<EncodingState>)
    ensures a + b + c == a + (b + c)
  {
  }

  // ----- a pair that punctuation has one code for -----

  function PairCode(text: seq<byte>, index: nat): nat
    requires index < |text|
  {
    var nextChar := if index + 1 < |text| then text[index + 1] else 0;
    if text[index] == 13 then if nextChar == 10 then 2 else 0
    else if text[index] == 46 then if nextChar == 32 then 3 else 0
    else if text[index] == 44 then if nextChar == 32 then 4 else 0
    else if text[index] == 58 then if nextChar == 32 then 5 else 0
    else 0
  }

  function PairSuccessors(state: EncodingState, index: nat, pairCode: nat): seq<EncodingState>
    requires 2 <= pairCode <= 5
  {
    var noBinary := EndBinaryShift(state, index);
    [LatchAndAppend(noBinary, Punct, pairCode)]
    + (if state.mode != Punct then [ShiftAndAppend(noBinary, Punct, pairCode)] else [])
    + (if pairCode == 3 || pairCode == 4 then
         [LatchAndAppend(LatchAndAppend(noBinary, Digit, 16 - pairCode), Digit, 1)]
       else [])
    + (if state.binaryShiftByteCount > 0 then
         [AddBinaryShiftChar(AddBinaryShiftChar(state, index), index + 1)]
       else [])
  }

  method UpdateStateForPair(state: EncodingState, index: nat, pairCode: nat, result: seq<EncodingState>)
      returns (result': seq<EncodingState>)
    requires 2 <= pairCode <= 5
    ensures result' == result + PairSuccessors(state, index, pairCode)
  {
    hide LatchAndAppend, ShiftAndAppend, AddBinaryShiftChar, EndBinaryShift;
    var stateNoBinary := EndBinaryShift(state, index);
    result' := result + [LatchAndAppend(stateNoBinary, Punct, pairCode)];
    if state.mode != Punct {
      result' := result' + [ShiftAndAppend(stateNoBinary, Punct, pairCode)];
    }
    if pairCode == 3 || pairCode == 4 {
      // both characters have codes in Digit
      var digitState := LatchAndAppend(stateNoBinary, Digit, 16 - pairCode);
      result' := result' + [LatchAndAppend(digitState, Digit, 1)];
    }
    if state.binaryShiftByteCount > 0 {
      // only worthwhile when already in binary mode
      result' := result' + [AddBinaryShiftChar(AddBinaryShiftChar(state, index), index + 1)];
    }
  }

  // ----- the lists of states -----

  function AllCharSuccessors(states: seq<EncodingState>, ch: byte, index: nat): seq<EncodingState> {
    if |states| == 0 then []
    else
      AllCharSuccessors(states[..|states| - 1], ch, index) + CharSuccessors(states[|states| - 1], ch, index)
  }

  function AllPairSuccessors(states: seq<EncodingState>, index: nat, pairCode: nat): seq<EncodingState>
    requires 2 <= pairCode <= 5
  {
    if |states| == 0 then []
    else
      AllPairSuccessors(states[..|states| - 1], index, pairCode)
      + PairSuccessors(states[|states| - 1], index, pairCode)
  }

  function NextForChar(states: seq<EncodingState>, ch: byte, index: nat): seq<EncodingState> {
    var result := AllCharSuccessors(states, ch, index);
    if |result| > 1 then Simplify(result) else result
  }

  function NextForPair(states: seq<EncodingState>, index: nat, pairCode: nat): seq<EncodingState>
    requires 2 <= pairCode <= 5
  {
    Simplify(AllPairSuccessors(states, index, pairCode))
  }

  /** The states left when the text from index on has been consumed. */
  function EncodeFrom(states: seq<EncodingState>, text: seq<byte>, index: nat): seq<EncodingState>
    requires index <= |text|
    decreases |text| - index
  {
    if index == |text| then states
    else if PairCode(text, index) > 0 then
      EncodeFrom(NextForPair(states, index, PairCode(text, index)), text, index + 2)
    else
      EncodeFrom(NextForChar(states, text[index], index), text, index + 1)
  }

  method UpdateStateListForChar(states: seq<EncodingState>, text: seq<byte>, index: nat) returns (r: seq<EncodingState>)
    requires index < |text|
    ensures r == NextForChar(states, text[index], index)
  {
    hide CharSuccessors, Simplify;
    var result := [];
    for i := 0 to |states|
      invariant result == AllCharSuccessors(states[..i], text[index], index)
    {
      result := UpdateStateForChar(states[i], text, index, result);
      assert states[..i + 1][..i] == states[..i];
    }
    assert states[..|states|] == states;
    r := result;
    if |result| > 1 {
      r := SimplifyStates(result);
    }
  }

  method UpdateStateListForPair(states: seq<EncodingState>, index: nat, pairCode: nat) returns (r: seq<EncodingState>)
    requires 2 <= pairCode <= 5
    ensures r == NextForPair(states, index, pairCode)
  {
    hide PairSuccessors, Simplify;
    var result := [];
    for i := 0 to |states|
      invariant result == AllPairSuccessors(states[..i], index, pairCode)
    {
      result := UpdateStateForPair(states[i], index, pairCode, result);
      assert states[..i + 1][..i] == states[..i];
    }
    assert states[..|states|] == states;
    r := SimplifyStates(result);
  }

  // ----- every state along the way is sound -----

  ghost predicate AllOpen(states: seq<EncodingState>, text: seq<byte>, index: nat) {
    forall i :: 0 <= i < |states| ==> Open(states[i], text, index)
  }

  lemma CharMapSends(mode: Mode, text: seq<byte>, index: nat)
    requires index < |text| && CharMap(mode, text[index]) > 0
    ensures Sends(mode, CharMap(mode, text[index]), text, index, index + 1)
  {
    hide CharMap, GetCharacter, Pow2;
    CharMapDecodes(mode, text[index]);
    assert text[index..index + 1] == [text[index]];
  }

  lemma PairCodeSends(text: seq<byte>, index: nat)
    requires index < |text| && PairCode(text, index) > 0
    ensures 2 <= PairCode(text, index) <= 5 && index + 2 <= |text|
    ensures Sends(Punct, PairCode(text, index), text, index, index + 2)
    ensures PairCode(text, index) == 3 || PairCode(text, index) == 4 ==>
      Sends(Digit, 16 - PairCode(text, index), text, index, index + 1) && Sends(Digit, 1, text, index + 1, index + 2)
  {
    assert Pow2(5) == 32 && Pow2(4) == 16;
    assert text[index + 1] == (if text[index] == 13 then 10 else 32);
    assert text[index..index + 2] == [text[index], text[index + 1]];
    assert text[index..index + 1] == [text[index]] && text[index + 1..index + 2] == [text[index + 1]];
  }

  lemma ModeSuccessorsOpen(state: EncodingState, text: seq<byte>, index: nat, mode: Mode)
    requires Sound(state, text, index) && index < |text|
    ensures AllOpen(ModeSuccessors(state, EndBinaryShift(state, index), text[index], mode), text, index + 1)
  {
    hide Sound, Open, Sends, LatchAndAppend, ShiftAndAppend, CharMap, ShiftTable, EndBinaryShift;
    var noBinary := EndBinaryShift(state, index);
    EndBinaryShiftSound(state, text, index);
    SameMode(state, index);
    if CharMap(mode, text[index]) > 0 {
      CharMapSends(mode, text, index);
      LatchAndAppendSound(noBinary, mode, CharMap(mode, text[index]), text, index, index + 1);
      if ShiftTable(state.mode, mode) >= 0 {
        ShiftAndAppendSound(noBinary, mode, CharMap(mode, text[index]), text, index, index + 1);
      }
    }
  }

  lemma SameMode(state: EncodingState, index: nat)
    ensures EndBinaryShift(state, index).mode == state.mode
  {
  }

  lemma {:induction false} CodeSuccessorsOpen(state: EncodingState, text: seq<byte>, index: nat, n: nat)
    requires Sound(state, text, index) && index < |text| && n <= |MODES|
    ensures AllOpen(CodeSuccessors(state, EndBinaryShift(state, index), text[index], n), text, index + 1)
  {
    hide Sound, Open, ModeSuccessors, EndBinaryShift;
    if n > 0 {
      CodeSuccessorsOpen(state, text, index, n - 1);
      ModeSuccessorsOpen(state, text, index, MODES[n - 1]);
    }
  }

  lemma CharSuccessorsOpen(state: EncodingState, text: seq<byte>, index: nat)
    requires Open(state, text, index) && index < |text|
    ensures AllOpen(CharSuccessors(state, text[index], index), text, index + 1)
  {
    assert Sound(state, text, index);
    hide Sound, Open, CodeSuccessors, EndBinaryShift, AddBinaryShiftChar, CharMap;
    CodeSuccessorsOpen(state, text, index, |MODES|);
    AddBinaryShiftCharSound(state, text, index);
  }

  /** The states for a pair, one by one. */
  lemma PairStatesOpen(state: EncodingState, text: seq<byte>, index: nat)
    requires Open(state, text, index) && index < |text| && PairCode(text, index) > 0
    ensures 2 <= PairCode(text, index) <= 5
    ensures var noBinary, code := EndBinaryShift(state, index), PairCode(text, index);
      && Open(LatchAndAppend(noBinary, Punct, code), text, index + 2)
      && (state.mode != Punct ==> Open(ShiftAndAppend(noBinary, Punct, code), text, index + 2))
      && (code == 3 || code == 4 ==>
            Open(LatchAndAppend(LatchAndAppend(noBinary, Digit, 16 - code), Digit, 1), text, index + 2))
      && Open(AddBinaryShiftChar(AddBinaryShiftChar(state, index), index + 1), text, index + 2)
  {
    PairCodeSends(text, index);
    assert Sound(state, text, index);
    hide Open, Sound, Sends, LatchAndAppend, ShiftAndAppend, EndBinaryShift, AddBinaryShiftChar, ShiftTable, PairCode;
    var noBinary, code := EndBinaryShift(state, index), PairCode(text, index);
    EndBinaryShiftSound(state, text, index);
    SameMode(state, index);
    LatchAndAppendSound(noBinary, Punct, code, text, index, index + 2);
    PunctShift(state.mode);
    if state.mode != Punct {
      ShiftAndAppendSound(noBinary, Punct, code, text, index, index + 2);
    }
    if code == 3 || code == 4 {
      LatchAndAppendSound(noBinary, Digit, 16 - code, text, index, index + 1);
      PairInDigit(noBinary, code, text, index);
    }
    AddBinaryShiftCharSound(state, text, index);
    AddBinaryShiftCharSound(AddBinaryShiftChar(state, index), text, index + 1);
  }

  lemma PairSuccessorsOpen(state: EncodingState, text: seq<byte>, index: nat)
    requires Open(state, text, index) && index < |text| && PairCode(text, index) > 0
    ensures 2 <= PairCode(text, index) <= 5
    ensures AllOpen(PairSuccessors(state, index, PairCode(text, index)), text, index + 2)
  {
    hide Open, LatchAndAppend, ShiftAndAppend, EndBinaryShift, AddBinaryShiftChar, PairCode;
    PairStatesOpen(state, text, index);
  }

  lemma PunctShift(mode: Mode)
    ensures mode != Punct ==> ShiftTable(mode, Punct) >= 0
  {
  }

  lemma PairInDigit(noBinary: EncodingState, code: nat, text: seq<byte>, index: nat)
    requires code <= 16 && Open(LatchAndAppend(noBinary, Digit, 16 - code), text, index + 1)
    requires Sends(Digit, 1, text, index + 1, index + 2)
    ensures Open(LatchAndAppend(LatchAndAppend(noBinary, Digit, 16 - code), Digit, 1), text, index + 2)
  {
    var digits := LatchAndAppend(noBinary, Digit, 16 - code);
    assert digits.binaryShiftByteCount == 0 && Sound(digits, text, index + 1);
    hide *;
    LatchAndAppendSound(digits, Digit, 1, text, index + 1, index + 2);
  }

  lemma {:induction false} AllCharSuccessorsOpen(states: seq<EncodingState>, text: seq<byte>, index: nat)
    requires AllOpen(states, text, index) && index < |text|
    ensures AllOpen(AllCharSuccessors(states, text[index], index), text, index + 1)
  {
    hide Open, CharSuccessors;
    if |states| > 0 {
      AllCharSuccessorsOpen(states[..|states| - 1], text, index);
      CharSuccessorsOpen(states[|states| - 1], text, index);
    }
  }

  lemma {:induction false} AllPairSuccessorsOpen(states: seq<EncodingState>, text: seq<byte>, index: nat)
    requires AllOpen(states, text, index) && index < |text| && PairCode(text, index) > 0
    ensures 2 <= PairCode(text, index) <= 5
    ensures AllOpen(AllPairSuccessors(states, index, PairCode(text, index)), text, index + 2)
  {
    PairCodeSends(text, index);
    hide Open, PairSuccessors, PairCode;
    if |states| > 0 {
      AllPairSuccessorsOpen(states[..|states| - 1], text, index);
      PairSuccessorsOpen(states[|states| - 1], text, index);
    }
  }

  lemma SimplifyOpen(states: seq<EncodingState>, text: seq<byte>, index: nat)
    requires AllOpen(states, text, index)
    ensures AllOpen(Simplify(states), text, index)
  {
    hide Open, Simplify;
    SimplifyFacts(states);
    var kept := Simplify(states);
    forall i | 0 <= i < |kept|
      ensures Open(kept[i], text, index)
    {
      assert kept[i] in kept;
    }
  }

  // ----- there is always a state left -----

  lemma {:induction false} OwnModeSuccessor(state: EncodingState, noBinary: EncodingState, ch: byte, n: nat, m: nat)
    requires m < n <= |MODES| && MODES[m] == state.mode && CharMap(state.mode, ch) > 0
    ensures |CodeSuccessors(state, noBinary, ch, n)| > 0
  {
    hide LatchAndAppend, ShiftAndAppend, CharMap, ShiftTable;
    if m < n - 1 {
      OwnModeSuccessor(state, noBinary, ch, n - 1, m);
    }
  }

  lemma CharSuccessorsNonEmpty(state: EncodingState, ch: byte, index: nat)
    ensures |CharSuccessors(state, ch, index)| > 0
  {
    hide CodeSuccessors, EndBinaryShift, AddBinaryShiftChar, CharMap;
    if CharMap(state.mode, ch) > 0 {
      var m := match state.mode case Upper => 0 case Lower => 1 case Digit => 2 case Mixed => 3 case Punct => 4;
      OwnModeSuccessor(state, EndBinaryShift(state, index), ch, |MODES|, m);
    }
  }

  lemma NextNonEmpty(states: seq<EncodingState>, text: seq<byte>, index: nat)
    requires |states| > 0 && index < |text|
    ensures |NextForChar(states, text[index], index)| > 0
    ensures PairCode(text, index) > 0 ==> |NextForPair(states, index, PairCode(text, index))| > 0
  {
    if PairCode(text, index) > 0 {
      hide Simplify, PairCode;
      var result := AllPairSuccessors(states, index, PairCode(text, index));
      assert |PairSuccessors(states[|states| - 1], index, PairCode(text, index))| > 0;
      SimplifyFacts(result);
    }
    hide Simplify, CharSuccessors, PairCode;
    CharSuccessorsNonEmpty(states[|states| - 1], text[index], index);
    SimplifyFacts(AllCharSuccessors(states, text[index], index));
  }

  /** All final states are sound encodings of the whole text, and there is at least one. */
  lemma {:induction false} EncodeFromOpen(states: seq<EncodingState>, text: seq<byte>, index: nat)
    requires |states| > 0 && index <= |text| && AllOpen(states, text, index)
    ensures |EncodeFrom(states, text, index)| > 0 && AllOpen(EncodeFrom(states, text, index), text, |text|)
    decreases |text| - index
  {
    hide AllOpen, PairCode, Simplify, AllCharSuccessors, AllPairSuccessors, NextForChar, NextForPair;
    if index < |text| {
      NextNonEmpty(states, text, index);
      NextOpen(states, text, index);
      if PairCode(text, index) > 0 {
        PairCodeSends(text, index);
        EncodeFromOpen(NextForPair(states, index, PairCode(text, index)), text, index + 2);
      } else {
        EncodeFromOpen(NextForChar(states, text[index], index), text, index + 1);
      }
    }
  }

  lemma NextOpen(states: seq<EncodingState>, text: seq<byte>, index: nat)
    requires index < |text| && AllOpen(states, text, index)
    ensures AllOpen(NextForChar(states, text[index], index), text, index + 1)
    ensures PairCode(text, index) > 0 ==>
      AllOpen(NextForPair(states, index, PairCode(text, index)), text, index + 2)
  {
    hide AllOpen, PairCode, Simplify, AllCharSuccessors, AllPairSuccessors;
    AllCharSuccessorsOpen(states, text, index);
    SimplifyOpen(AllCharSuccessors(states, text[index], index), text, index + 1);
    if PairCode(text, index) > 0 {
      AllPairSuccessorsOpen(states, text, index);
      SimplifyOpen(AllPairSuccessors(states, index, PairCode(text, index)), text, index + 2);
    }
  }

  // ----- the encoder -----

  const START := EncodingState([], Upper, 0, 0)

  /** The first of the shortest states. */
  function MinState(states: seq<EncodingState>): (m: EncodingState)
    requires |states| > 0
    ensures m in states && forall s :: s in states ==> m.bitCount <= s.bitCount
  {
    if |states| == 1 then states[0]
    else
      var m := MinState(states[..|states| - 1]);
      if states[|states| - 1].bitCount < m.bitCount then states[|states| - 1] else m
  }

  lemma FinalStates(text: seq<byte>)
    requires |text| <= 0x7FFF
    ensures |EncodeFrom([START], text, 0)| > 0 && AllOpen(EncodeFrom([START], text, 0), text, |text|)
  {
    DecodesNil(Upper);
    assert TokensBits([], text) == [] && text[..0] == [];
    assert Open(START, text, 0);
    hide Open, EncodeFrom;
    EncodeFromOpen([START], text, 0);
  }

  /** The state the encoder settles on, with its last binary run closed. */
  ghost function FinalState(text: seq<byte>): (s: EncodingState)
    requires |text| <= 0x7FFF
    ensures Sound(s, text, |text|) && s.binaryShiftByteCount == 0
    ensures forall t :: t in EncodeFrom([START], text, 0) ==> s.bitCount <= t.bitCount
  {
    FinalStates(text);
    var m := MinState(EncodeFrom([START], text, 0));
    EndBinaryShiftSound(m, text, |text|);
    EndBinaryShift(m, |text|)
  }

  /** The high-level bits of a text. */
  ghost function HighLevelBits(text: seq<byte>): (bits: Bitstring)
    requires |text| <= 0x7FFF
    ensures |bits| == FinalState(text).bitCount
  {
    TokensBits(FinalState(text).tokens, text)
  }

  method ToBitArray(state: EncodingState, text: seq<byte>) returns (bits: BitArray)
    requires Sound(state, text, |text|)
    ensures fresh(bits)
    ensures var endState := EndBinaryShift(state, |text|);
      Fit(endState.tokens, text) && bits.bits == TokensBits(endState.tokens, text)
  {
    EndBinaryShiftSound(state, text, |text|);
    var endState := EndBinaryShift(state, |text|);
    hide EndBinaryShift, TokenBits, TokensBits, Sound;
    bits := new BitArray();
    var tokens := endState.tokens;
    TokensBitsPrefixes(tokens, text);
    for i := 0 to |tokens|
      invariant fresh(bits) && bits.bits == TokensBits(tokens[..i], text)
    {
      AppendTo(tokens[i], bits, text);
    }
  }

  lemma TokensBitsPrefixes(tokens: seq<Token>, text: seq<byte>)
    requires Fit(tokens, text)
    ensures TokensBits(tokens[..0], text) == [] && tokens[..|tokens|] == tokens
    ensures forall i :: 0 <= i < |tokens| ==>
      TokensBits(tokens[..i + 1], text) == TokensBits(tokens[..i], text) + TokenBits(tokens[i], text)
  {
    hide TokenBits;
    forall i | 0 <= i < |tokens|
      ensures TokensBits(tokens[..i + 1], text) == TokensBits(tokens[..i], text) + TokenBits(tokens[i], text)
    {
      assert tokens[..i + 1][..i] == tokens[..i];
    }
  }

  /** The encoder: what it returns decodes to the text, whatever follows, even padding of fewer than twelve ones. */
  method Encode(text: seq<byte>) returns (bits: BitArray)
    requires |text| <= 0x7FFF
    ensures fresh(bits) && bits.bits == HighLevelBits(text)
    ensures forall k: nat :: k < 12 ==>
      DecodeBits(bits.bits + Ones(k), Upper, Upper, EMPTY) == Decoded(Content(text, [], false))
  {
    hide *;
    var states := [START];
    FinalStates(text);
    var index := 0;
    while index < |text|
      invariant index <= |text|
      invariant EncodeFrom(states, text, index) == EncodeFrom([START], text, 0)
    {
      EncodeFromStep(states, text, index);
      var pairCode := PairCode(text, index);
      if pairCode > 0 {
        PairCodeSends(text, index);
        states := UpdateStateListForPair(states, index, pairCode);
        index := index + 2;
      } else {
        states := UpdateStateListForChar(states, text, index);
        index := index + 1;
      }
    }
    EncodeFromEnd(states, text);
    var minState := MinElement(states);
    MinIsSound(text);
    bits := ToBitArray(minState, text);
    forall k: nat | k < 12
      ensures DecodeBits(bits.bits + Ones(k), Upper, Upper, EMPTY) == Decoded(Content(text, [], false))
    {
      TextRoundTrip(text, k);
    }
  }

  method MinElement(states: seq<EncodingState>) returns (m: EncodingState)
    requires |states| > 0
    ensures m == MinState(states)
  {
    m := states[0];
    for i := 1 to |states|
      invariant m == MinState(states[..i])
    {
      assert states[..i + 1][..i] == states[..i];
      if states[i].bitCount < m.bitCount {
        m := states[i];
      }
    }
    assert states[..|states|] == states;
  }

  lemma EncodeFromStep(states: seq<EncodingState>, text: seq<byte>, index: nat)
    requires index < |text|
    ensures PairCode(text, index) > 0 ==> 2 <= PairCode(text, index) <= 5 && index + 2 <= |text|
    ensures PairCode(text, index) > 0 ==>
      EncodeFrom(states, text, index) == EncodeFrom(NextForPair(states, index, PairCode(text, index)), text, index + 2)
    ensures PairCode(text, index) == 0 ==>
      EncodeFrom(states, text, index) == EncodeFrom(NextForChar(states, text[index], index), text, index + 1)
  {
    hide NextForPair, NextForChar;
  }

  lemma EncodeFromEnd(states: seq<EncodingState>, text: seq<byte>)
    ensures EncodeFrom(states, text, |text|) == states
  {
  }

  lemma MinIsSound(text: seq<byte>)
    requires |text| <= 0x7FFF
    ensures |EncodeFrom([START], text, 0)| > 0
    ensures var m := MinState(EncodeFrom([START], text, 0));
      Sound(m, text, |text|) && FinalState(text) == EndBinaryShift(m, |text|)
      && HighLevelBits(text) == TokensBits(EndBinaryShift(m, |text|).tokens, text)
  {
    hide Sound, EncodeFrom, EndBinaryShift;
    FinalStates(text);
  }

  /**
   * The text round trip: the high-level bits and any padding of fewer than twelve one bits decode to the text,
   * without ECI switches or FNC1.
   */
  lemma TextRoundTrip(text: seq<byte>, k: nat)
    requires |text| <= 0x7FFF && k < 12
    ensures DecodeBits(HighLevelBits(text) + Ones(k), Upper, Upper, EMPTY) == Decoded(Content(text, [], false))
  {
    hide DecodeBits, FinalState, TokensBits, Ones;
    var s := FinalState(text);
    assert text[..|text|] == text;
    assert DecodeBits(HighLevelBits(text) + Ones(k), Upper, Upper, EMPTY)
        == DecodeBits(Ones(k), s.mode, s.mode, EMPTY.Append(text));
    OnesDecodeToNothing(s.mode, k, EMPTY.Append(text));
    assert EMPTY.bytes + text == text;
  }
}
