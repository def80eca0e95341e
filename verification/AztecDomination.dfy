/** How much one mode can be worse than another (core/src/aztec/AZHighLevelEncoder.cpp:186-217). */
module AztecDomination {
  import opened AztecDecoder
  import opened AztecStates
  import opened AztecPruning
  import opened AztecHighLevelEncoder
  import opened AztecChoices

  /** The most bits that the first mode needs beyond the second: the latch, but for three entries towards Digit. */
  function Gap(from: Mode, to: Mode): (g: nat)
    ensures g >= LatchBits(from, to)
  {
    match (from, to)
    case (Upper, Digit) => 8
    case (Lower, Digit) => 12
    case (Mixed, Digit) => 11
    case _ => LatchBits(from, to)
  }

  /** Bits of the headers of a binary run. */
  function Header(b: nat): nat {
    CalculateBinaryShiftCost(EncodingState([], Upper, b, 0))
  }

  /**
   * The most bits that one number of pending bytes needs beyond another: when the second run is full and begins again,
   * the first is by the difference into a run of its own.
   */
  function Slack(b1: nat, b2: nat): (k: nat)
    requires b1 < FULL_RUN && b2 < FULL_RUN
  {
    if b1 >= b2 then Header(b1 - b2) - Header(b1) + Header(b2)
    else Header(FULL_RUN - (b2 - b1)) - Header(FULL_RUN - 1) - Header(b1) + Header(b2)
  }

  const FULL_RUN := 2047 + 31

  predicate HasBinary(m: Mode) {
    m != Punct && m != Digit
  }

  /** The pending bytes that a mode can have: a run that is full ends at once. */
  predicate Possible(m: Mode, b: nat) {
    b < FULL_RUN && (b > 0 ==> HasBinary(m))
  }

  predicate Comparable(m1: Mode, b1: nat, m2: Mode, b2: nat) {
    Possible(m1, b1) && Possible(m2, b2) && (b1 > 0 ==> HasBinary(m2))
  }

  // ----- answering a choice -----

  /** What one state can do when another one makes a choice. */
  function Answer(text: seq<byte>, index: nat, m1: Mode, b1: nat, m2: Mode, c: Choice): Choice
    requires index < |text|
  {
    if Offered(text, index, m1, b1, c) && !(c.Shift? && m1 == Mixed && m2 == Digit) then c
    else if c.Shift? && CharMap(m1, text[index]) == 0 && PairCode(text, index) == 0 then Latch(c.mode)
    else if PairCode(text, index) == 0 then Latch(m1)
    else if m1 == Punct || c.Shift? || c.Latch? then Latch(Punct)
    else Shift(Punct)
  }

  /** From Digit a shift costs a bit less than from the other modes: here one answer is not enough. */
  predicate CheapShift(m1: Mode, m2: Mode, c: Choice) {
    c.Shift? && m2 == Digit && (m1 == Upper || m1 == Lower)
  }

  /** The answer costs no more than the choice, after what the states differ by. */
  predicate Answers(text: seq<byte>, index: nat, m1: Mode, b1: nat, m2: Mode, b2: nat, c1: Choice, c2: Choice)
    requires index < |text| && Comparable(m1, b1, m2, b2)
  {
    && Offered(text, index, m1, b1, c1)
    && Comparable(ModeAfter(m1, c1), BytesAfter(text, index, b1, c1), ModeAfter(m2, c2), BytesAfter(text, index, b2, c2))
    && Cost(text, index, m1, b1, c1) + Gap(ModeAfter(m1, c1), ModeAfter(m2, c2))
       + Slack(BytesAfter(text, index, b1, c1), BytesAfter(text, index, b2, c2))
       <= Cost(text, index, m2, b2, c2) + Gap(m1, m2) + Slack(b1, b2)
  }

  /** The high half-words of the latch table. */
  lemma LatchNumbers()
    ensures LatchBits(Upper, Lower) == LatchBits(Upper, Digit) == LatchBits(Upper, Mixed) == 5 && LatchBits(Upper, Punct) == 10
    ensures LatchBits(Lower, Upper) == 9 && LatchBits(Lower, Digit) == LatchBits(Lower, Mixed) == 5 && LatchBits(Lower, Punct) == 10
    ensures LatchBits(Digit, Upper) == 4 && LatchBits(Digit, Lower) == LatchBits(Digit, Mixed) == 9 && LatchBits(Digit, Punct) == 14
    ensures LatchBits(Mixed, Upper) == LatchBits(Mixed, Lower) == LatchBits(Mixed, Punct) == 5 && LatchBits(Mixed, Digit) == 10
    ensures LatchBits(Punct, Upper) == 5 && LatchBits(Punct, Lower) == LatchBits(Punct, Digit) == LatchBits(Punct, Mixed) == 10
    ensures forall m :: LatchBits(m, m) == 0
  {
  }

  lemma GapFromItself(m: Mode)
    ensures Gap(m, m) == 0
  {
  }

  lemma NoSlack(b: nat)
    requires b < FULL_RUN
    ensures Slack(b, b) == 0 && Slack(b, 0) == 0
  {
  }

  /** One more byte for both. */
  lemma OneByte(b1: nat, b2: nat)
    requires b1 < FULL_RUN && b2 < FULL_RUN
    ensures NextByte(b1) < FULL_RUN && NextByte(b2) < FULL_RUN
    ensures Slack(NextByte(b1), NextByte(b2)) + ByteBits(b1) <= Slack(b1, b2) + ByteBits(b2)
  {
  }

  /** One more byte for the second alone. */
  lemma ByteAgainstCode(b: nat)
    requires b < FULL_RUN
    ensures NextByte(b) < FULL_RUN && Slack(0, NextByte(b)) + 8 <= Slack(0, b) + ByteBits(b)
  {
  }

  lemma LatchCosts(m1: Mode, m2: Mode, k: Mode)
    ensures LatchBits(m1, k) <= LatchBits(m2, k) + Gap(m1, m2)
    ensures k != Digit ==> Gap(m1, k) == LatchBits(m1, k) && CodeSize(m1) <= CodeSize(k)
  {
    LatchTriangle(m1, m2, k);
  }

  lemma BinaryCosts(m1: Mode, m2: Mode)
    ensures HasBinary(BinaryMode(m1)) && HasBinary(BinaryMode(m2)) && (HasBinary(m2) ==> BinaryMode(m2) == m2)
    ensures LatchBits(m1, BinaryMode(m1)) + Gap(BinaryMode(m1), BinaryMode(m2)) <= LatchBits(m2, BinaryMode(m2)) + Gap(m1, m2)
    ensures Gap(m1, BinaryMode(m2)) <= 3 + LatchBits(m2, BinaryMode(m2)) + Gap(m1, m2)
    ensures LatchBits(m1, m1) == 0
  {
    hide LatchBits;
    LatchNumbers();
  }

  /** A code of its own for each of the modes, or the other's code by a shift or by a latch. */
  lemma ShiftCosts(m1: Mode, m2: Mode, k: Mode)
    requires ShiftTable(m2, k) >= 0 && !CheapShift(m1, m2, Shift(k))
    ensures CodeSize(m1) <= CodeSize(m2) + 5 && LatchBits(m1, m1) == 0
    ensures ShiftTable(m1, k) >= 0 && !(m1 == Mixed && m2 == Digit) ==> CodeSize(m1) <= CodeSize(m2)
    ensures ShiftTable(m1, k) < 0 || (m1 == Mixed && m2 == Digit) ==>
      LatchBits(m1, k) + CodeSize(k) + Gap(k, m2) <= CodeSize(m2) + 5 + Gap(m1, m2)
  {
    hide LatchBits;
    LatchNumbers();
  }

  /** An answer that ends the binary run costs no slack. */
  lemma CodeAnswers(text: seq<byte>, index: nat, m1: Mode, b1: nat, m2: Mode, b2: nat, c1: Choice, c2: Choice)
    requires index < |text| && Comparable(m1, b1, m2, b2) && !c1.InBinary? && !c2.InBinary? && Offered(text, index, m1, b1, c1)
    requires Cost(text, index, m1, b1, c1) + Gap(ModeAfter(m1, c1), ModeAfter(m2, c2))
      <= Cost(text, index, m2, b2, c2) + Gap(m1, m2)
    ensures Answers(text, index, m1, b1, m2, b2, c1, c2)
  {
    hide Cost, Slack, Gap, Offered, ModeAfter;
    NoSlack(0);
  }

  lemma LatchAnswered(text: seq<byte>, index: nat, m1: Mode, b1: nat, m2: Mode, b2: nat, c: Choice)
    requires index < |text| && c.Latch? && Comparable(m1, b1, m2, b2) && Offered(text, index, m2, b2, c)
    ensures Answers(text, index, m1, b1, m2, b2, Answer(text, index, m1, b1, m2, c), c)
  {
    hide CharMap, PairCode, Slack, LatchBits, Gap, CodeSize, ShiftTable, Comparable, Answers;
    GapFromItself(c.mode);
    LatchTriangle(m1, m1, m1);
    LatchCosts(m1, m2, c.mode);
    CodeAnswers(text, index, m1, b1, m2, b2, Answer(text, index, m1, b1, m2, c), c);
  }

  lemma ShiftAnswered(text: seq<byte>, index: nat, m1: Mode, b1: nat, m2: Mode, b2: nat, c: Choice)
    requires index < |text| && c.Shift? && Comparable(m1, b1, m2, b2) && Offered(text, index, m2, b2, c)
    requires !CheapShift(m1, m2, c)
    ensures Answers(text, index, m1, b1, m2, b2, Answer(text, index, m1, b1, m2, c), c)
  {
    ShiftToPunct(m1);
    ShiftToPunct(m2);
    hide CharMap, PairCode, Slack, LatchBits, Gap, CodeSize, ShiftTable, CheapShift, Comparable, Answers;
    ShiftCosts(m1, m2, c.mode);
    var c1 := Answer(text, index, m1, b1, m2, c);
    CodeAnswers(text, index, m1, b1, m2, b2, c1, c);
  }

  lemma ShiftToPunct(m: Mode)
    ensures ShiftTable(m, Punct) >= 0 <==> m != Punct
  {
  }

  lemma DigitsAnswered(text: seq<byte>, index: nat, m1: Mode, b1: nat, m2: Mode, b2: nat, c: Choice)
    requires index < |text| && c.TwoDigits? && Comparable(m1, b1, m2, b2) && Offered(text, index, m2, b2, c)
    ensures Answers(text, index, m1, b1, m2, b2, Answer(text, index, m1, b1, m2, c), c)
  {
    hide CharMap, PairCode, Slack, LatchBits, Gap, CodeSize, ShiftTable, Comparable, Answers;
    GapFromItself(Digit);
    LatchCosts(m1, m2, Digit);
    CodeAnswers(text, index, m1, b1, m2, b2, TwoDigits, TwoDigits);
  }

  lemma BinaryAnswered(text: seq<byte>, index: nat, m1: Mode, b1: nat, m2: Mode, b2: nat, c: Choice)
    requires index < |text| && c.InBinary? && Comparable(m1, b1, m2, b2) && Offered(text, index, m2, b2, c)
    ensures Answers(text, index, m1, b1, m2, b2, Answer(text, index, m1, b1, m2, c), c)
  {
    hide CharMap, PairCode, Slack, NextByte, ByteBits, LatchBits, Gap, CodeSize, ShiftTable, BinaryMode, HasBinary, Answers;
    if Offered(text, index, m1, b1, c) {
      BinaryByBinary(text, index, m1, b1, m2, b2);
    } else {
      BinaryByCode(text, index, m1, m2, b2);
    }
  }

  lemma BinaryByBinary(text: seq<byte>, index: nat, m1: Mode, b1: nat, m2: Mode, b2: nat)
    requires index < |text| && Comparable(m1, b1, m2, b2)
    requires Offered(text, index, m1, b1, InBinary) && Offered(text, index, m2, b2, InBinary)
    ensures Answers(text, index, m1, b1, m2, b2, InBinary, InBinary)
  {
    hide CharMap, PairCode, Slack, NextByte, ByteBits, LatchBits, Gap, CodeSize, ShiftTable, BinaryMode, HasBinary;
    BinaryCosts(m1, m2);
    OneByte(b1, b2);
    OneByte(NextByte(b1), NextByte(b2));
  }

  lemma BinaryByCode(text: seq<byte>, index: nat, m1: Mode, m2: Mode, b2: nat)
    requires index < |text| && Comparable(m1, 0, m2, b2)
    requires !Offered(text, index, m1, 0, InBinary) && Offered(text, index, m2, b2, InBinary)
    ensures Answers(text, index, m1, 0, m2, b2, Answer(text, index, m1, 0, m2, InBinary), InBinary)
  {
    hide CharMap, PairCode, Slack, NextByte, ByteBits, LatchBits, Gap, ShiftTable, BinaryMode, HasBinary;
    BinaryCosts(m1, m2);
    ByteAgainstCode(b2);
    ByteAgainstCode(NextByte(b2));
  }

  lemma Answered(text: seq<byte>, index: nat, m1: Mode, b1: nat, m2: Mode, b2: nat, c: Choice)
    requires index < |text| && Comparable(m1, b1, m2, b2) && Offered(text, index, m2, b2, c) && !CheapShift(m1, m2, c)
    ensures Answers(text, index, m1, b1, m2, b2, Answer(text, index, m1, b1, m2, c), c)
  {
    hide Offered, Comparable, Answers, Answer, CheapShift;
    match c
    case Latch(_) => LatchAnswered(text, index, m1, b1, m2, b2, c);
    case Shift(_) => ShiftAnswered(text, index, m1, b1, m2, b2, c);
    case TwoDigits => DigitsAnswered(text, index, m1, b1, m2, b2, c);
    case InBinary => BinaryAnswered(text, index, m1, b1, m2, b2, c);
  }

  // ----- Upper and Lower against Digit -----

  /**
   * What Upper, Lower and Punct can need beyond Digit: each line holds of every text, and no one mode does for all of
   * them. The shifts from Digit lead from some lines to others.
   */
  predicate Covers(u: int, l: int, p: int, d: int) {
    && u <= d + 8 && (u <= d + 7 || p <= d + 2) && (u <= d + 6 || p <= d + 6)
    && l <= d + 12 && (u <= d + 7 || l <= d + 11) && (l <= d + 11 || p <= d + 6)
    && (u <= d + 6 || l <= d + 10) && (u <= d + 5 || l <= d + 9 || p <= d + 4)
    && (u <= d + 4 || l <= d + 8 || p <= d + 8)
  }

  lemma CoversPunctShift(u: int, l: int, p: int, d: int, u': int, l': int, p': int, d': int)
    requires Covers(u', l', p', d') && p' <= d' + 10
    requires d == 9 + d' && u <= 10 + u' && u <= 15 + p' && l <= 10 + l' && l <= 15 + p' && p <= 5 + p'
    ensures Covers(u, l, p, d)
  {
  }

  lemma CoversUpperShift(u: int, l: int, p: int, d: int, u': int, l': int, p': int, d': int)
    requires Covers(u', l', p', d')
    requires d == 9 + d' && u <= 5 + u' && l <= 10 + l' && l <= 14 + u' && p <= 10 + u'
    ensures Covers(u, l, p, d)
  {
  }

  /** Any other choice leaves Digit, or is offered to all. */
  lemma CoversElse(u: int, l: int, p: int, d: int)
    requires u <= d + 5 && l <= d + 5
    ensures Covers(u, l, p, d)
  {
  }

  // ----- every text -----

  /** Sending a character or a pair by a code. */
  lemma ByCode(text: seq<byte>, index: nat, m: Mode, c: Choice)
    requires index < |text| && Offered(text, index, m, 0, c) && !c.InBinary?
    ensures Needs(text, index, m, 0) <= Cost(text, index, m, 0, c) + Needs(text, After(text, index), ModeAfter(m, c), 0)
  {
    hide Needs, After, Offered, Cost, ModeAfter;
    NeedsAtMost(text, index, m, 0, c);
  }

  /** The mode has a code for the character or the pair. */
  predicate CodeIn(text: seq<byte>, index: nat, k: Mode)
    requires index < |text|
  {
    if PairCode(text, index) > 0 then k == Punct else CharMap(k, text[index]) > 0
  }

  /** A mode latches to the one that has a code, or stays if it has one too and is worse by the latch at most. */
  lemma CodeOfMode(text: seq<byte>, index: nat, m: Mode, k: Mode)
    requires index < |text| && k != Digit && CodeIn(text, index, k)
    ensures Needs(text, index, m, 0) <= LatchBits(m, k) + 5 + Needs(text, After(text, index), k, 0)
    decreases |text| - index, 0
  {
    hide Needs, After, Gap, Slack, CharMap, PairCode, LatchBits;
    NoSlack(0);
    LatchCosts(m, m, k);
    if Offered(text, index, m, 0, Latch(k)) {
      ByCode(text, index, m, Latch(k));
    } else {
      ByCode(text, index, m, Latch(m));
      LatchTriangle(m, m, m);
      ComparableWithin(text, After(text, index), m, 0, k, 0);
    }
  }

  /** A mode shifts to the one that has a code, or has one itself. */
  lemma CodeKeepsMode(text: seq<byte>, index: nat, m: Mode, k: Mode)
    requires index < |text| && CodeIn(text, index, k) && ShiftTable(m, k) >= 0
    ensures Needs(text, index, m, 0) <= 10 + Needs(text, After(text, index), m, 0)
  {
    ShiftToPunct(m);
    hide Needs, After, CharMap, PairCode, LatchBits, ShiftTable;
    if Offered(text, index, m, 0, Shift(k)) {
      ByCode(text, index, m, Shift(k));
    } else {
      ByCode(text, index, m, Latch(m));
      LatchTriangle(m, m, m);
    }
  }

  lemma GapNumbers()
    ensures Gap(Upper, Digit) == 8 && Gap(Lower, Digit) == 12 && Gap(Punct, Digit) == 10
    ensures forall k :: ShiftTable(Digit, k) >= 0 ==> k == Punct || k == Upper
    ensures ShiftTable(Upper, Punct) >= 0 && ShiftTable(Lower, Punct) >= 0 && ShiftTable(Lower, Upper) >= 0
  {
  }

  lemma DigitShifts(text: seq<byte>, index: nat, c: Choice)
    requires index < |text| && c.Shift? && Offered(text, index, Digit, 0, c)
    requires Needs(text, index, Digit, 0) == Cost(text, index, Digit, 0, c) + Needs(text, After(text, index), Digit, 0)
    requires Covers(Needs(text, After(text, index), Upper, 0), Needs(text, After(text, index), Lower, 0),
                    Needs(text, After(text, index), Punct, 0), Needs(text, After(text, index), Digit, 0))
    ensures Covers(Needs(text, index, Upper, 0), Needs(text, index, Lower, 0), Needs(text, index, Punct, 0),
                   Needs(text, index, Digit, 0))
    decreases |text| - index, 1
  {
    hide Needs, After, CharMap, PairCode, LatchBits, ShiftTable, Covers, Gap, Slack;
    LatchNumbers();
    GapNumbers();
    NoSlack(0);
    var next := After(text, index);
    var u, l, p, d := Needs(text, index, Upper, 0), Needs(text, index, Lower, 0), Needs(text, index, Punct, 0),
      Needs(text, index, Digit, 0);
    var u', l', p', d' := Needs(text, next, Upper, 0), Needs(text, next, Lower, 0), Needs(text, next, Punct, 0),
      Needs(text, next, Digit, 0);
    assert CodeIn(text, index, c.mode);
    CodeOfMode(text, index, Upper, c.mode);
    CodeOfMode(text, index, Lower, c.mode);
    CodeOfMode(text, index, Punct, c.mode);
    CodeKeepsMode(text, index, Lower, c.mode);
    if c.mode == Punct {
      CodeKeepsMode(text, index, Upper, Punct);
      ComparableWithin(text, next, Punct, 0, Digit, 0);
      CoversPunctShift(u, l, p, d, u', l', p', d');
    } else {
      CoversUpperShift(u, l, p, d, u', l', p', d');
    }
  }

  lemma DigitElse(text: seq<byte>, index: nat, c: Choice, m: Mode)
    requires index < |text| && !c.Shift? && Offered(text, index, Digit, 0, c) && (m == Upper || m == Lower)
    requires Needs(text, index, Digit, 0)
      == Cost(text, index, Digit, 0, c) + Needs(text, After(text, index), ModeAfter(Digit, c), BytesAfter(text, index, 0, c))
    ensures Needs(text, index, m, 0) <= Needs(text, index, Digit, 0) + 5
    decreases |text| - index, 1
  {
    hide Needs, After, CharMap, PairCode, LatchBits, ShiftTable, Gap, Slack;
    ElseNumbers(m);
    match c
    case Latch(k) =>
      if k == Digit {
        ByCode(text, index, m, Latch(Digit));
      } else {
        CodeOfMode(text, index, m, k);
        LatchFromDigit(m, k);
      }
    case TwoDigits => ByCode(text, index, m, TwoDigits);
    case InBinary =>
      var next := After(text, index);
      if Offered(text, index, m, 0, InBinary) {
        NeedsAtMost(text, index, m, 0, InBinary);
        ComparableWithin(text, next, m, 1, Upper, 1);
      } else {
        ByCode(text, index, m, Latch(m));
        ComparableWithin(text, next, m, 0, Upper, 1);
      }
  }

  lemma ElseNumbers(m: Mode)
    requires m == Upper || m == Lower
    ensures LatchBits(m, Digit) == 5 && LatchBits(Digit, Digit) == 0 && LatchBits(m, m) == 0 && Gap(m, Upper) <= 9
    ensures LatchBits(Digit, Upper) == 4 && Slack(0, 1) == 10 && Slack(1, 1) == 0
  {
    hide LatchBits;
    LatchNumbers();
  }

  lemma LatchFromDigit(m: Mode, k: Mode)
    requires m == Upper || m == Lower
    ensures LatchBits(m, k) <= LatchBits(Digit, k) + 5
  {
    hide LatchBits;
    LatchNumbers();
  }

  lemma {:induction false} AgainstDigit(text: seq<byte>, index: nat)
    requires index <= |text|
    ensures Covers(Needs(text, index, Upper, 0), Needs(text, index, Lower, 0), Needs(text, index, Punct, 0),
                   Needs(text, index, Digit, 0))
    decreases |text| - index, 2
  {
    hide Needs, After, Offered, Cost, Covers;
    var u, l, p, d := Needs(text, index, Upper, 0), Needs(text, index, Lower, 0), Needs(text, index, Punct, 0),
      Needs(text, index, Digit, 0);
    if index == |text| {
      forall m
        ensures Needs(text, index, m, 0) == 0
      {
        NeedsNothing(text, m, 0);
      }
      CoversElse(u, l, p, d);
    } else {
      var c := NeedsNext(text, index, Digit, 0);
      if c.Shift? {
        AgainstDigit(text, After(text, index));
        DigitShifts(text, index, c);
      } else {
        DigitElse(text, index, c, Upper);
        DigitElse(text, index, c, Lower);
        CoversElse(u, l, p, d);
      }
    }
  }

  lemma {:induction false} ComparableWithin(text: seq<byte>, index: nat, m1: Mode, b1: nat, m2: Mode, b2: nat)
    requires index <= |text| && Comparable(m1, b1, m2, b2)
    ensures Needs(text, index, m1, b1) <= Needs(text, index, m2, b2) + Gap(m1, m2) + Slack(b1, b2)
    decreases |text| - index, 3
  {
    hide Needs, After, Offered, Cost, ModeAfter, BytesAfter, Gap, Slack, Answer;
    if index == |text| {
      NeedsNothing(text, m1, b1);
      NeedsNothing(text, m2, b2);
    } else {
      var c2 := NeedsNext(text, index, m2, b2);
      if CheapShift(m1, m2, c2) {
        NoSlack(b1);
        AgainstDigit(text, index);
        GapNumbers();
      } else {
        var c1 := Answer(text, index, m1, b1, m2, c2);
        Answered(text, index, m1, b1, m2, b2, c2);
        NeedsAtMost(text, index, m1, b1, c1);
        ComparableWithin(text, After(text, index), ModeAfter(m1, c1), BytesAfter(text, index, b1, c1),
                         ModeAfter(m2, c2), BytesAfter(text, index, b2, c2));
      }
    }
  }

  /** Pending bytes never hurt. */
  lemma PendingHelps(text: seq<byte>, index: nat, m: Mode, b: nat)
    requires index <= |text| && Possible(m, b)
    ensures Needs(text, index, m, b) <= Needs(text, index, m, 0)
  {
    hide Needs, Gap, Slack;
    GapFromItself(m);
    NoSlack(b);
    ComparableWithin(text, index, m, b, m, 0);
  }

  /** What a state needs beyond another is bounded by the two modes and the numbers of pending bytes. */
  lemma NeedsWithin(text: seq<byte>, index: nat, m1: Mode, b1: nat, m2: Mode, b2: nat)
    requires index <= |text| && Possible(m1, b1) && Possible(m2, b2)
    ensures Needs(text, index, m1, b1) <= Needs(text, index, m2, b2) + Gap(m1, m2) + Slack(b1, b2)
  {
    hide Needs, Gap, Slack, HasBinary;
    if b1 > 0 && !HasBinary(m2) {
      PendingHelps(text, index, m1, b1);
      ComparableWithin(text, index, m1, 0, m2, 0);
      NoSlack(0);
      NoSlack(b1);
    } else {
      ComparableWithin(text, index, m1, b1, m2, b2);
    }
  }
}
