/** A run in which pruning costs a bit (core/src/aztec/AZHighLevelEncoder.cpp:253-375). */
module AztecPruningLoss {
  import opened AztecDecoder
  import opened AztecStates
  import opened AztecPruning
  import opened AztecHighLevelEncoder
  import opened AztecChoices
  import opened AztecDomination
  import opened AztecPruningGap

  // ----- pruned and unpruned lists -----

  /** Pruned or not, the states left after a character are successors of the states before it. */
  lemma NextIsSuccessor(states: seq<EncodingState>, text: seq<byte>, index: nat, u: EncodingState) returns (t: EncodingState)
    requires index < |text| && PairCode(text, index) == 0 && u in NextForChar(states, text[index], index)
    ensures t in states && u in Successors(t, text, index)
  {
    hide AllCharSuccessors, CharSuccessors, Simplify, PairCode;
    SimplifyFacts(AllCharSuccessors(states, text[index], index));
    SameSuccessors(states, text, index);
    t := SuccessorOf(states, text, index, u);
  }

  lemma {:induction false} SameSuccessors(states: seq<EncodingState>, text: seq<byte>, index: nat)
    requires index < |text|
    ensures PairCode(text, index) == 0 ==>
      AllCharSuccessors(states, text[index], index) == AllSuccessors(states, text, index)
    ensures PairCode(text, index) > 0 ==>
      2 <= PairCode(text, index) <= 5
      && AllPairSuccessors(states, index, PairCode(text, index)) == AllSuccessors(states, text, index)
  {
    PairRange(text, index);
    hide CharSuccessors, PairSuccessors, PairCode;
    if |states| > 0 {
      SameSuccessors(states[..|states| - 1], text, index);
    }
  }

  /** For each successor a state at least as good is left, and no two states that are left compare. */
  lemma NextDominates(states: seq<EncodingState>, text: seq<byte>, index: nat, t: EncodingState, u: EncodingState)
      returns (k: EncodingState)
    requires index < |text| && PairCode(text, index) == 0 && t in states && u in Successors(t, text, index)
    ensures k in NextForChar(states, text[index], index) && IsBetterThanOrEqualTo(k, u)
    ensures Incomparable(NextForChar(states, text[index], index))
  {
    hide AllCharSuccessors, CharSuccessors, Simplify, IsBetterThanOrEqualTo, PairCode, Successors;
    var all := AllCharSuccessors(states, text[index], index);
    SameSuccessors(states, text, index);
    SuccessorIn(states, text, index, t, u);
    SimplifyFacts(all);
    BetterReflexive(u);
    if |all| > 1 {
      assert Dominated(Simplify(all), u);
      k :| k in Simplify(all) && IsBetterThanOrEqualTo(k, u);
    } else {
      k := u;
    }
  }

  /** Pruning invents no states. */
  lemma {:induction false} PrunedIsUnpruned(states: seq<EncodingState>, text: seq<byte>, index: nat, u: EncodingState)
    requires index <= |text| && u in EncodeFrom(states, text, index)
    ensures u in AllFrom(states, text, index)
    decreases |text| - index
  {
    hide Simplify, AllCharSuccessors, AllPairSuccessors, AllSuccessors, PairCode;
    if index < |text| {
      SameSuccessors(states, text, index);
      EncodeFromStep(states, text, index);
      var all := AllSuccessors(states, text, index);
      var next :=
        if PairCode(text, index) > 0 then NextForPair(states, index, PairCode(text, index))
        else NextForChar(states, text[index], index);
      SimplifyFacts(all);
      PrunedIsUnpruned(next, text, After(text, index), u);
      Origins(next, all, text, After(text, index), u);
    }
  }

  /** Nor does it find anything shorter than the states in its list can lead to. */
  lemma NotBelowCheapest(states: seq<EncodingState>, text: seq<byte>, index: nat, u: EncodingState) returns (t: EncodingState)
    requires index <= |text| && u in EncodeFrom(states, text, index)
    ensures t in states && Cheapest(t, text, index) <= u.bitCount
  {
    hide EncodeFrom, AllFrom;
    PrunedIsUnpruned(states, text, index, u);
    t := OriginOf(states, text, index, u);
    SomeState([t], text, index);
  }

  lemma {:induction false} AllSuccessorsOpen(states: seq<EncodingState>, text: seq<byte>, index: nat)
    requires AllOpen(states, text, index) && index < |text|
    ensures AllOpen(AllSuccessors(states, text, index), text, After(text, index))
  {
    hide Open, CharSuccessors, PairSuccessors, PairCode;
    if |states| > 0 {
      AllSuccessorsOpen(states[..|states| - 1], text, index);
      if PairCode(text, index) > 0 {
        PairSuccessorsOpen(states[|states| - 1], text, index);
      } else {
        CharSuccessorsOpen(states[|states| - 1], text, index);
      }
    }
  }

  /** Without pruning too, every state at the end is a sound encoding of the whole text. */
  lemma {:induction false} AllFromOpen(states: seq<EncodingState>, text: seq<byte>, index: nat)
    requires AllOpen(states, text, index) && index <= |text|
    ensures AllOpen(AllFrom(states, text, index), text, |text|)
    decreases |text| - index
  {
    hide AllOpen, AllSuccessors, After;
    if index < |text| {
      AllSuccessorsOpen(states, text, index);
      AllFromOpen(AllSuccessors(states, text, index), text, After(text, index));
    }
  }

  // ----- four spaces and "A!1" -----

  const TEXT: seq<byte> := [32, 32, 32, 32, 65, 33, 49]

  /** Any n spaces are cheapest in Upper for less than five spaces. */
  ghost predicate AfterSpaces(states: seq<EncodingState>, n: nat) {
    && (forall t :: t in states ==> SpacesSent(t, n))
    && (exists t :: t in states && t.mode == Upper && t.bitCount == 5 * n)
  }

  /** By Upper's codes, or by Digit's with a latch. */
  predicate SpacesSent(t: EncodingState, n: nat) {
    && t.binaryShiftByteCount == 0
    && ((t.mode == Upper && t.bitCount >= 5 * n) || (t.mode == Digit && t.bitCount >= 5 + 4 * n))
  }

  lemma SpaceIsCommon(i: nat)
    requires i < 4
    ensures |TEXT| == 7 && CharMap(Upper, TEXT[i]) > 0 && CharMap(Digit, TEXT[i]) > 0 && PairCode(TEXT, i) == 0
  {
  }

  lemma AfterSpace(t: EncodingState, u: EncodingState, i: nat)
    requires i < 4 && i < |TEXT| && SpacesSent(t, i) && u in Successors(t, TEXT, i)
    ensures SpacesSent(u, i + 1)
  {
    hide Successors, CharMap, PairCode, TEXT, LatchBits;
    LatchNumbers();
    SpaceIsCommon(i);
    var c := ChoiceOf(t, TEXT, i, u);
  }

  lemma SpaceStep(states: seq<EncodingState>, i: nat)
    requires i < 4 && i < |TEXT| && AfterSpaces(states, i)
    ensures AfterSpaces(NextForChar(states, TEXT[i], i), i + 1)
  {
    hide Successors, CharMap, PairCode, TEXT, NextForChar, LatchBits, IsBetterThanOrEqualTo;
    LatchNumbers();
    SpaceIsCommon(i);
    var next := NextForChar(states, TEXT[i], i);
    forall u | u in next
      ensures SpacesSent(u, i + 1)
    {
      var t := NextIsSuccessor(states, TEXT, i, u);
      AfterSpace(t, u, i);
    }
    var t :| t in states && t.mode == Upper && t.bitCount == 5 * i;
    var u := ChoiceTaken(t, TEXT, i, Latch(Upper));
    var k := NextDominates(states, TEXT, i, t, u);
    BetterIsShorter(k, u);
    assert SpacesSent(k, i + 1);
  }

  /** Digit is five bits behind Upper, just as much as the latch costs, and is dropped. */
  predicate CapitalSent(t: EncodingState) {
    t.mode == Upper && ((t.binaryShiftByteCount == 0 && t.bitCount >= 25) || (t.binaryShiftByteCount == 1 && t.bitCount >= 43))
  }

  lemma CapitalIsUpper()
    ensures |TEXT| == 7 && PairCode(TEXT, 4) == 0 && OnlyIn(Upper, TEXT[4])
  {
    SampleOnly(Upper);
  }

  lemma AfterCapital(t: EncodingState, u: EncodingState)
    requires 4 < |TEXT| && SpacesSent(t, 4) && u in Successors(t, TEXT, 4)
    ensures CapitalSent(u) || (u.mode == Digit && u.binaryShiftByteCount == 0 && u.bitCount >= 30)
  {
    hide Successors, CharMap, PairCode, TEXT, LatchBits;
    LatchNumbers();
    CapitalIsUpper();
    var c := ChoiceOf(t, TEXT, 4, u);
  }

  lemma CapitalStep(states: seq<EncodingState>)
    requires 4 < |TEXT| && AfterSpaces(states, 4)
    ensures forall t :: t in NextForChar(states, TEXT[4], 4) ==> CapitalSent(t)
  {
    hide Successors, CharMap, PairCode, TEXT, NextForChar, LatchBits, IsBetterThanOrEqualTo;
    LatchNumbers();
    CapitalIsUpper();
    var next := NextForChar(states, TEXT[4], 4);
    var s :| s in states && s.mode == Upper && s.bitCount == 20;
    assert SpacesSent(s, 4);
    var v := ChoiceTaken(s, TEXT, 4, Latch(Upper));
    var k := NextDominates(states, TEXT, 4, s, v);
    BetterIsShorter(k, v);
    var r := NextIsSuccessor(states, TEXT, 4, k);
    AfterCapital(r, k);
    forall u | u in next
      ensures CapitalSent(u)
    {
      var t := NextIsSuccessor(states, TEXT, 4, u);
      AfterCapital(t, u);
      if !CapitalSent(u) {
        DigitIsBeaten(k, u);
        NotBoth(next, k, u);
      }
    }
  }

  lemma DigitIsBeaten(k: EncodingState, u: EncodingState)
    requires k.mode == Upper && k.binaryShiftByteCount == 0 && k.bitCount <= 25
    requires u.mode == Digit && u.binaryShiftByteCount == 0 && u.bitCount >= 30
    ensures IsBetterThanOrEqualTo(k, u)
  {
  }

  lemma NotBoth(kept: seq<EncodingState>, k: EncodingState, u: EncodingState)
    requires Incomparable(kept) && k in kept && u in kept && IsBetterThanOrEqualTo(k, u)
    ensures k == u
  {
    hide IsBetterThanOrEqualTo;
  }

  lemma SpellOne(m: Mode, rest: seq<Piece>, all: seq<Piece>)
    requires all == [One(m)] + rest
    ensures Spell(all) == [Sample(m)] + Spell(rest)
  {
    assert all[1..] == rest;
  }

  lemma TextEnds()
    ensures |TEXT| == 7 && TEXT[5..] == Spell(FROM_UPPER[2..])
    ensures TEXT[4..] == Spell([One(Upper)] + FROM_UPPER[2..])
  {
    hide Spell;
    SpellNothing();
    SpellOne(Digit, [], FROM_UPPER[3..]);
    SpellOne(Punct, FROM_UPPER[3..], FROM_UPPER[2..]);
    SpellOne(Upper, FROM_UPPER[2..], [One(Upper)] + FROM_UPPER[2..]);
  }

  lemma RestNeeds(t: EncodingState)
    requires 5 < |TEXT| && CapitalSent(t)
    ensures Cheapest(t, TEXT, 5) >= 44
  {
    hide Cheapest, Rows, Spell, TEXT, Needs;
    TextEnds();
    FromUpper();
    RowsAtLeast(TEXT, 5, FROM_UPPER[2..]);
    CheapestIs(t, TEXT, 5);
  }

  lemma {:induction false} SpacesRun(states: seq<EncodingState>, n: nat)
    requires n <= 4 && |TEXT| == 7 && AfterSpaces(states, n)
    ensures forall u :: u in EncodeFrom(states, TEXT, n) ==> u.bitCount >= 44
    decreases 4 - n
  {
    hide EncodeFrom, AfterSpaces, NextForChar, NextForPair, PairCode, CapitalSent, Cheapest, TEXT;
    EncodeFromStep(states, TEXT, n);
    if n < 4 {
      SpaceIsCommon(n);
      SpaceStep(states, n);
      SpacesRun(NextForChar(states, TEXT[n], n), n + 1);
    } else {
      CapitalIsUpper();
      CapitalStep(states);
      var next := NextForChar(states, TEXT[4], 4);
      forall u | u in EncodeFrom(states, TEXT, n)
        ensures u.bitCount >= 44
      {
        var t := NotBelowCheapest(next, TEXT, 5, u);
        RestNeeds(t);
      }
    }
  }

  /** Staying in Digit behind a latch, with two shifts. */
  lemma ThroughDigit()
    ensures |TEXT| == 7 && Cheapest(START, TEXT, 0) <= 43
  {
    hide Cheapest, CharMap, PairCode, TEXT, LatchBits, Spell, Stay;
    LatchNumbers();
    TextEnds();
    for i := 0 to 4
      invariant Needs(TEXT, 0, Upper, 0) <= (if i == 0 then 0 else 5 + 4 * i)
        + Needs(TEXT, i, if i == 0 then Upper else Digit, 0)
    {
      SpaceIsCommon(i);
      ByCode(TEXT, i, if i == 0 then Upper else Digit, Latch(Digit));
    }
    var rest := [One(Upper)] + FROM_UPPER[2..];
    FromUpper();
    Prepended(One(Upper), FROM_UPPER[2..], Digit, rest);
    DigitCanStay(rest);
    StayAtMost(TEXT, 4, rest, Digit);
  }

  lemma DigitCanStay(rest: seq<Piece>)
    requires rest == [One(Upper)] + FROM_UPPER[2..]
    ensures forall i :: 0 <= i < |rest| ==> CanStay(Digit, rest[i])
  {
    assert rest == [One(Upper), One(Punct), One(Digit)];
  }

  lemma StartIsOpen(text: seq<byte>)
    requires |text| <= 0x7FFF
    ensures AllOpen([START], text, 0)
  {
    DecodesNil(Upper);
    assert TokensBits([], text) == [] && text[..0] == [];
    assert Open(START, text, 0);
  }

  lemma CheapestState(s: EncodingState, text: seq<byte>, index: nat) returns (u: EncodingState)
    requires index <= |text|
    ensures u in AllFrom([s], text, index) && u.bitCount == Cheapest(s, text, index)
  {
    hide AllFrom;
    SomeState([s], text, index);
    u := MinState(AllFrom([s], text, index));
  }

  lemma FinalSize(text: seq<byte>)
    requires |text| <= 0x7FFF
    ensures exists u :: u in EncodeFrom([START], text, 0) && u.bitCount == |HighLevelBits(text)|
  {
    hide EncodeFrom, Sound, TokensBits;
    MinIsSound(text);
    var m := MinState(EncodeFrom([START], text, 0));
    assert EndBinaryShift(m, |text|).bitCount == m.bitCount;
  }

  /**
   * The encoder does not always find the shortest of the encodings that it considers: for four spaces and "A!1" it
   * drops the state that leads to 43 bits, and returns more.
   */
  lemma PruningLosesABit()
    ensures |TEXT| == 7 && |HighLevelBits(TEXT)| >= 44
    ensures exists u :: u in AllFrom([START], TEXT, 0) && Sound(u, TEXT, 7) && u.bitCount <= 43
  {
    hide EncodeFrom, AllFrom, Sound, HighLevelBits, TEXT, Cheapest;
    ThroughDigit();
    StartIsOpen(TEXT);
    AllFromOpen([START], TEXT, 0);
    assert START.mode == Upper && START.bitCount == 0 && START.binaryShiftByteCount == 0;
    SpacesRun([START], 0);
    FinalSize(TEXT);
    var u := CheapestState(START, TEXT, 0);
  }
}
