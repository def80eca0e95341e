/** The search without pruning, by choices that mode and pending bytes decide (core/src/aztec/AZHighLevelEncoder.cpp:231-332). */
module AztecChoices {
  import opened AztecDecoder
  import opened AztecStates
  import opened AztecHighLevelEncoder

  // ----- all continuations of a state -----

  function Successors(s: EncodingState, text: seq<byte>, index: nat): seq<EncodingState>
    requires index < |text|
  {
    if PairCode(text, index) > 0 then PairSuccessors(s, index, PairCode(text, index))
    else CharSuccessors(s, text[index], index)
  }

  /** The position behind a character or a pair. */
  function After(text: seq<byte>, index: nat): (next: nat)
    requires index < |text|
    ensures index < next <= |text|
  {
    if PairCode(text, index) > 0 then index + 2 else index + 1
  }

  function AllSuccessors(states: seq<EncodingState>, text: seq<byte>, index: nat): seq<EncodingState>
    requires index < |text|
  {
    if |states| == 0 then []
    else AllSuccessors(states[..|states| - 1], text, index) + Successors(states[|states| - 1], text, index)
  }

  /** The states that would be left at the end of the text without pruning. */
  function AllFrom(states: seq<EncodingState>, text: seq<byte>, index: nat): seq<EncodingState>
    requires index <= |text|
    decreases |text| - index
  {
    if index == |text| then states else AllFrom(AllSuccessors(states, text, index), text, After(text, index))
  }

  lemma SomeSuccessor(s: EncodingState, text: seq<byte>, index: nat)
    requires index < |text|
    ensures |Successors(s, text, index)| > 0
  {
    hide CharSuccessors, PairCode;
    CharSuccessorsNonEmpty(s, text[index], index);
  }

  lemma {:induction false} SomeState(states: seq<EncodingState>, text: seq<byte>, index: nat)
    requires index <= |text| && |states| > 0
    ensures |AllFrom(states, text, index)| > 0
    decreases |text| - index
  {
    hide Successors, After;
    if index < |text| {
      SomeSuccessor(states[|states| - 1], text, index);
      SomeState(AllSuccessors(states, text, index), text, After(text, index));
    }
  }

  /** Bits of the shortest encoding that a state can still lead to. */
  ghost function Cheapest(s: EncodingState, text: seq<byte>, index: nat): int
    requires index <= |text|
  {
    SomeState([s], text, index);
    MinState(AllFrom([s], text, index)).bitCount
  }

  lemma {:induction false} SuccessorOf(states: seq<EncodingState>, text: seq<byte>, index: nat, u: EncodingState)
      returns (t: EncodingState)
    requires index < |text| && u in AllSuccessors(states, text, index)
    ensures t in states && u in Successors(t, text, index)
  {
    hide Successors;
    t := states[|states| - 1];
    if u !in Successors(t, text, index) {
      t := SuccessorOf(states[..|states| - 1], text, index, u);
    }
  }

  lemma {:induction false} SuccessorIn(states: seq<EncodingState>, text: seq<byte>, index: nat, t: EncodingState, u: EncodingState)
    requires index < |text| && t in states && u in Successors(t, text, index)
    ensures u in AllSuccessors(states, text, index)
  {
    hide Successors;
    if t != states[|states| - 1] {
      SuccessorIn(states[..|states| - 1], text, index, t, u);
    }
  }

  /** Every state at the end comes from one of the states at the start. */
  lemma {:induction false} OriginOf(states: seq<EncodingState>, text: seq<byte>, index: nat, u: EncodingState)
      returns (t: EncodingState)
    requires index <= |text| && u in AllFrom(states, text, index)
    ensures t in states && u in AllFrom([t], text, index)
    decreases |text| - index
  {
    hide Successors, AllSuccessors, After;
    if index == |text| {
      t := u;
    } else {
      var next := AllSuccessors(states, text, index);
      var v := OriginOf(next, text, After(text, index), u);
      t := SuccessorOf(states, text, index, v);
      SuccessorIn([t], text, index, t, v);
      Origins([v], AllSuccessors([t], text, index), text, After(text, index), u);
    }
  }

  lemma {:induction false} Origins(states: seq<EncodingState>, more: seq<EncodingState>, text: seq<byte>, index: nat,
                                   u: EncodingState)
    requires index <= |text| && u in AllFrom(states, text, index) && forall t :: t in states ==> t in more
    ensures u in AllFrom(more, text, index)
    decreases |text| - index
  {
    hide Successors, AllSuccessors, After;
    if index < |text| {
      var next, all := AllSuccessors(states, text, index), AllSuccessors(more, text, index);
      forall v | v in next
        ensures v in all
      {
        var t := SuccessorOf(states, text, index, v);
        SuccessorIn(more, text, index, t, v);
      }
      Origins(next, all, text, After(text, index), u);
    }
  }

  lemma CheapestAtEnd(s: EncodingState, text: seq<byte>)
    ensures Cheapest(s, text, |text|) == s.bitCount
  {
  }

  lemma CheapestAtMost(s: EncodingState, text: seq<byte>, index: nat, u: EncodingState)
    requires index < |text| && u in Successors(s, text, index)
    ensures Cheapest(s, text, index) <= Cheapest(u, text, After(text, index))
  {
    hide Successors, AllSuccessors, After;
    SomeState([s], text, index);
    SomeState([u], text, After(text, index));
    var m := MinState(AllFrom([u], text, After(text, index)));
    SuccessorIn([s], text, index, s, u);
    Origins([u], AllSuccessors([s], text, index), text, After(text, index), m);
  }

  lemma CheapestNext(s: EncodingState, text: seq<byte>, index: nat) returns (u: EncodingState)
    requires index < |text|
    ensures u in Successors(s, text, index) && Cheapest(s, text, index) == Cheapest(u, text, After(text, index))
  {
    hide Successors, AllSuccessors, After;
    SomeState([s], text, index);
    var m := MinState(AllFrom([s], text, index));
    u := OriginOf(AllSuccessors([s], text, index), text, After(text, index), m);
    var t := SuccessorOf([s], text, index, u);
    SomeState([u], text, After(text, index));
    CheapestAtMost(s, text, index, u);
  }

  // ----- choices -----

  /** How a state can send the next character or pair. */
  datatype Choice = Latch(mode: Mode) | Shift(mode: Mode) | TwoDigits | InBinary

  predicate Offered(text: seq<byte>, index: nat, m: Mode, b: nat, c: Choice)
    requires index < |text|
  {
    var pair, ch := PairCode(text, index), text[index];
    match c
    case Latch(k) => if pair > 0 then k == Punct else CharMap(k, ch) > 0 && (CharMap(m, ch) == 0 || k == m || k == Digit)
    case Shift(k) =>
      if pair > 0 then k == Punct && m != Punct else CharMap(k, ch) > 0 && CharMap(m, ch) == 0 && ShiftTable(m, k) >= 0
    case TwoDigits => pair == 3 || pair == 4
    case InBinary => b > 0 || (pair == 0 && CharMap(m, ch) == 0)
  }

  function BinaryMode(m: Mode): Mode {
    if m == Punct || m == Digit then Upper else m
  }

  /** Bits for one more binary byte, in a mode that has a binary shift. */
  function ByteBits(b: nat): nat {
    if b == 0 || b == 31 then 18 else if b == 62 then 9 else 8
  }

  function NextByte(b: nat): nat {
    if b + 1 == 2047 + 31 then 0 else b + 1
  }

  function Cost(text: seq<byte>, index: nat, m: Mode, b: nat, c: Choice): nat
    requires index < |text|
  {
    match c
    case Latch(k) => LatchBits(m, k) + CodeSize(k)
    case Shift(_) => CodeSize(m) + 5
    case TwoDigits => LatchBits(m, Digit) + 8
    case InBinary =>
      LatchBits(m, BinaryMode(m)) + ByteBits(b) + (if PairCode(text, index) > 0 then ByteBits(NextByte(b)) else 0)
  }

  function ModeAfter(m: Mode, c: Choice): Mode {
    match c
    case Latch(k) => k
    case Shift(_) => m
    case TwoDigits => Digit
    case InBinary => BinaryMode(m)
  }

  function BytesAfter(text: seq<byte>, index: nat, b: nat, c: Choice): nat
    requires index < |text|
  {
    if c != InBinary then 0 else if PairCode(text, index) > 0 then NextByte(NextByte(b)) else NextByte(b)
  }

  /** The successor that a choice leads to. */
  predicate LeadsTo(s: EncodingState, text: seq<byte>, index: nat, c: Choice, u: EncodingState)
    requires index < |text|
  {
    && Offered(text, index, s.mode, s.binaryShiftByteCount, c)
    && u.mode == ModeAfter(s.mode, c)
    && u.binaryShiftByteCount == BytesAfter(text, index, s.binaryShiftByteCount, c)
    && u.bitCount == s.bitCount + Cost(text, index, s.mode, s.binaryShiftByteCount, c)
  }

  lemma BinaryByte(s: EncodingState, index: nat)
    ensures var u := AddBinaryShiftChar(s, index);
      && u.mode == BinaryMode(s.mode) && u.binaryShiftByteCount == NextByte(s.binaryShiftByteCount)
      && u.bitCount == s.bitCount + LatchBits(s.mode, BinaryMode(s.mode)) + ByteBits(s.binaryShiftByteCount)
  {
  }

  lemma Latched(s: EncodingState, index: nat, k: Mode, code: nat)
    ensures var u := LatchAndAppend(EndBinaryShift(s, index), k, code);
      u.mode == k && u.binaryShiftByteCount == 0 && u.bitCount == s.bitCount + LatchBits(s.mode, k) + CodeSize(k)
  {
  }

  lemma Shifted(s: EncodingState, index: nat, k: Mode, code: nat)
    ensures var u := ShiftAndAppend(EndBinaryShift(s, index), k, code);
      u.mode == s.mode && u.binaryShiftByteCount == 0 && u.bitCount == s.bitCount + CodeSize(s.mode) + 5
  {
  }

  /** Every choice leads to a successor. */
  lemma ChoiceTaken(s: EncodingState, text: seq<byte>, index: nat, c: Choice) returns (u: EncodingState)
    requires index < |text| && Offered(text, index, s.mode, s.binaryShiftByteCount, c)
    ensures u in Successors(s, text, index) && LeadsTo(s, text, index, c, u)
  {
    hide CharMap, ShiftTable, PairCode, LatchAndAppend, ShiftAndAppend, EndBinaryShift, AddBinaryShiftChar, CodeSuccessors;
    hide LatchBits, CodeSize, BinaryMode, ByteBits, NextByte;
    var pair := PairCode(text, index);
    if pair > 0 {
      u := PairChoiceTaken(s, text, index, c);
    } else {
      u := CharChoiceTaken(s, text, index, c);
    }
  }

  lemma PairChoiceTaken(s: EncodingState, text: seq<byte>, index: nat, c: Choice) returns (u: EncodingState)
    requires index < |text| && PairCode(text, index) > 0 && Offered(text, index, s.mode, s.binaryShiftByteCount, c)
    ensures u in Successors(s, text, index) && LeadsTo(s, text, index, c, u)
  {
    hide CharMap, ShiftTable, PairCode, LatchAndAppend, ShiftAndAppend, EndBinaryShift, AddBinaryShiftChar, CharSuccessors;
    hide BinaryMode, ByteBits, NextByte;
    var pair, noBinary := PairCode(text, index), EndBinaryShift(s, index);
    PairRange(text, index);
    match c
    case Latch(_) =>
      Latched(s, index, Punct, pair);
      u := LatchAndAppend(noBinary, Punct, pair);
    case Shift(_) =>
      Shifted(s, index, Punct, pair);
      u := ShiftAndAppend(noBinary, Punct, pair);
    case TwoDigits =>
      var first := LatchAndAppend(noBinary, Digit, 16 - pair);
      Latched(s, index, Digit, 16 - pair);
      Latched(first, index, Digit, 1);
      NoBinaryEnds(first, index);
      u := LatchAndAppend(first, Digit, 1);
    case InBinary =>
      var first := AddBinaryShiftChar(s, index);
      BinaryByte(s, index);
      BinaryByte(first, index + 1);
      BinaryModeTwice(s.mode);
      u := AddBinaryShiftChar(first, index + 1);
  }

  lemma PairRange(text: seq<byte>, index: nat)
    requires index < |text|
    ensures PairCode(text, index) == 0 || 2 <= PairCode(text, index) <= 5
  {
  }

  lemma NoBinaryEnds(s: EncodingState, index: nat)
    requires s.binaryShiftByteCount == 0
    ensures EndBinaryShift(s, index) == s
  {
  }

  lemma BinaryModeTwice(m: Mode)
    ensures BinaryMode(BinaryMode(m)) == BinaryMode(m) && LatchBits(BinaryMode(m), BinaryMode(m)) == 0
  {
  }

  lemma CharChoiceTaken(s: EncodingState, text: seq<byte>, index: nat, c: Choice) returns (u: EncodingState)
    requires index < |text| && PairCode(text, index) == 0 && Offered(text, index, s.mode, s.binaryShiftByteCount, c)
    ensures u in Successors(s, text, index) && LeadsTo(s, text, index, c, u)
  {
    hide CharMap, ShiftTable, PairCode, LatchAndAppend, ShiftAndAppend, EndBinaryShift, AddBinaryShiftChar, CodeSuccessors;
    hide BinaryMode, ByteBits, NextByte;
    var ch, noBinary := text[index], EndBinaryShift(s, index);
    match c
    case Latch(k) =>
      Latched(s, index, k, CharMap(k, ch));
      u := LatchAndAppend(noBinary, k, CharMap(k, ch));
      InModes(s, noBinary, ch, k, u);
    case Shift(k) =>
      Shifted(s, index, k, CharMap(k, ch));
      u := ShiftAndAppend(noBinary, k, CharMap(k, ch));
      InModes(s, noBinary, ch, k, u);
    case InBinary =>
      BinaryByte(s, index);
      u := AddBinaryShiftChar(s, index);
  }

  lemma InModes(s: EncodingState, noBinary: EncodingState, ch: byte, k: Mode, u: EncodingState)
    requires u in ModeSuccessors(s, noBinary, ch, k)
    ensures u in CodeSuccessors(s, noBinary, ch, |MODES|)
  {
    hide ModeSuccessors;
    var n := match k case Upper => 0 case Lower => 1 case Digit => 2 case Mixed => 3 case Punct => 4;
    assert MODES[n] == k;
    InFirstModes(s, noBinary, ch, n, |MODES|, u);
  }

  lemma {:induction false} InFirstModes(s: EncodingState, noBinary: EncodingState, ch: byte, m: nat, n: nat, u: EncodingState)
    requires m < n <= |MODES| && u in ModeSuccessors(s, noBinary, ch, MODES[m])
    ensures u in CodeSuccessors(s, noBinary, ch, n)
    decreases n
  {
    hide ModeSuccessors;
    if m < n - 1 {
      InFirstModes(s, noBinary, ch, m, n - 1, u);
    }
  }

  lemma {:induction false} ModeOf(s: EncodingState, noBinary: EncodingState, ch: byte, n: nat, u: EncodingState) returns (k: Mode)
    requires n <= |MODES| && u in CodeSuccessors(s, noBinary, ch, n)
    ensures u in ModeSuccessors(s, noBinary, ch, k)
  {
    hide ModeSuccessors;
    k := MODES[n - 1];
    if u !in ModeSuccessors(s, noBinary, ch, k) {
      k := ModeOf(s, noBinary, ch, n - 1, u);
    }
  }

  /** Every successor comes from a choice. */
  lemma ChoiceOf(s: EncodingState, text: seq<byte>, index: nat, u: EncodingState) returns (c: Choice)
    requires index < |text| && u in Successors(s, text, index)
    ensures LeadsTo(s, text, index, c, u)
  {
    hide CharMap, ShiftTable, PairCode, LatchAndAppend, ShiftAndAppend, EndBinaryShift, AddBinaryShiftChar, CodeSuccessors;
    hide BinaryMode, ByteBits, NextByte;
    if PairCode(text, index) > 0 {
      c := PairChoiceOf(s, text, index, u);
    } else {
      c := CharChoiceOf(s, text, index, u);
    }
  }

  lemma CharChoiceOf(s: EncodingState, text: seq<byte>, index: nat, u: EncodingState) returns (c: Choice)
    requires index < |text| && PairCode(text, index) == 0 && u in Successors(s, text, index)
    ensures LeadsTo(s, text, index, c, u)
  {
    hide CharMap, ShiftTable, PairCode, LatchAndAppend, ShiftAndAppend, EndBinaryShift, AddBinaryShiftChar, CodeSuccessors;
    hide BinaryMode, ByteBits, NextByte;
    var ch, noBinary := text[index], EndBinaryShift(s, index);
    if u in CodeSuccessors(s, noBinary, ch, |MODES|) {
      var k := ModeOf(s, noBinary, ch, |MODES|, u);
      Latched(s, index, k, CharMap(k, ch));
      Shifted(s, index, k, CharMap(k, ch));
      c := if u == LatchAndAppend(noBinary, k, CharMap(k, ch)) && Offered(text, index, s.mode, s.binaryShiftByteCount, Latch(k))
      then Latch(k) else Shift(k);
    } else {
      BinaryByte(s, index);
      c := InBinary;
    }
  }

  lemma PairChoiceOf(s: EncodingState, text: seq<byte>, index: nat, u: EncodingState) returns (c: Choice)
    requires index < |text| && PairCode(text, index) > 0 && u in Successors(s, text, index)
    ensures LeadsTo(s, text, index, c, u)
  {
    hide CharMap, ShiftTable, PairCode, LatchAndAppend, ShiftAndAppend, EndBinaryShift, AddBinaryShiftChar, CharSuccessors;
    hide BinaryMode, ByteBits, NextByte;
    var pair, noBinary := PairCode(text, index), EndBinaryShift(s, index);
    PairRange(text, index);
    Latched(s, index, Punct, pair);
    Shifted(s, index, Punct, pair);
    var digit := if pair <= 4 then LatchAndAppend(noBinary, Digit, 16 - pair) else noBinary;
    Latched(s, index, Digit, if pair <= 4 then 16 - pair else 0);
    Latched(digit, index, Digit, 1);
    if u == LatchAndAppend(noBinary, Punct, pair) {
      c := Latch(Punct);
    } else if s.mode != Punct && u == ShiftAndAppend(noBinary, Punct, pair) {
      c := Shift(Punct);
    } else if (pair == 3 || pair == 4) && u == LatchAndAppend(digit, Digit, 1) {
      NoBinaryEnds(digit, index);
      c := TwoDigits;
    } else {
      BinaryByte(s, index);
      BinaryByte(AddBinaryShiftChar(s, index), index + 1);
      BinaryModeTwice(s.mode);
      c := InBinary;
    }
  }

  // ----- costs by mode and pending bytes -----

  /** What a state still needs depends on its mode and its pending bytes only. */
  lemma {:induction false} SameNeeds(s: EncodingState, t: EncodingState, text: seq<byte>, index: nat)
    requires index <= |text| && s.mode == t.mode && s.binaryShiftByteCount == t.binaryShiftByteCount
    ensures Cheapest(s, text, index) - s.bitCount <= Cheapest(t, text, index) - t.bitCount
    decreases |text| - index
  {
    hide Cheapest, Successors, After, Offered, Cost, ModeAfter, BytesAfter;
    if index == |text| {
      CheapestAtEnd(s, text);
      CheapestAtEnd(t, text);
    } else {
      var v := CheapestNext(t, text, index);
      var c := ChoiceOf(t, text, index, v);
      var u := ChoiceTaken(s, text, index, c);
      CheapestAtMost(s, text, index, u);
      SameNeeds(u, v, text, After(text, index));
    }
  }

  ghost function Needs(text: seq<byte>, index: nat, m: Mode, b: nat): int
    requires index <= |text|
  {
    Cheapest(EncodingState([], m, b, 0), text, index)
  }

  lemma CheapestIs(s: EncodingState, text: seq<byte>, index: nat)
    requires index <= |text|
    ensures Cheapest(s, text, index) == s.bitCount + Needs(text, index, s.mode, s.binaryShiftByteCount)
  {
    hide Cheapest;
    var t := EncodingState([], s.mode, s.binaryShiftByteCount, 0);
    SameNeeds(s, t, text, index);
    SameNeeds(t, s, text, index);
  }

  lemma NeedsNothing(text: seq<byte>, m: Mode, b: nat)
    ensures Needs(text, |text|, m, b) == 0
  {
    hide Cheapest;
    CheapestAtEnd(EncodingState([], m, b, 0), text);
  }

  lemma NeedsAtMost(text: seq<byte>, index: nat, m: Mode, b: nat, c: Choice)
    requires index < |text| && Offered(text, index, m, b, c)
    ensures Needs(text, index, m, b)
      <= Cost(text, index, m, b, c) + Needs(text, After(text, index), ModeAfter(m, c), BytesAfter(text, index, b, c))
  {
    hide Cheapest, Successors, After, Offered, Cost, ModeAfter, BytesAfter;
    var s := EncodingState([], m, b, 0);
    var u := ChoiceTaken(s, text, index, c);
    CheapestAtMost(s, text, index, u);
    CheapestIs(u, text, After(text, index));
  }

  lemma NeedsNext(text: seq<byte>, index: nat, m: Mode, b: nat) returns (c: Choice)
    requires index < |text|
    ensures Offered(text, index, m, b, c)
    ensures Needs(text, index, m, b)
      == Cost(text, index, m, b, c) + Needs(text, After(text, index), ModeAfter(m, c), BytesAfter(text, index, b, c))
  {
    hide Cheapest, Successors, After, Offered, Cost, ModeAfter, BytesAfter;
    var s := EncodingState([], m, b, 0);
    var u := CheapestNext(s, text, index);
    c := ChoiceOf(s, text, index, u);
    CheapestIs(u, text, After(text, index));
  }
}
