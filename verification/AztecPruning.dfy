/** When the Aztec encoder prefers one state to another (core/src/aztec/AZHighLevelEncoder.cpp:189-277). */
module AztecPruning {
  import opened AztecDecoder
  import opened AztecTokens
  import opened AztecStates

  function CalculateBinaryShiftCost(state: EncodingState): (c: nat)
    ensures c == BinaryCost(state.binaryShiftByteCount) - 8 * state.binaryShiftByteCount
  {
    if state.binaryShiftByteCount > 62 then 21
    else if state.binaryShiftByteCount > 31 then 20
    else if state.binaryShiftByteCount > 0 then 10
    else 0
  }

  /** What is added to the first state's bits, besides the latch, before they are compared. */
  function BinaryShiftHandicap(state: EncodingState, other: EncodingState): int {
    if state.binaryShiftByteCount < other.binaryShiftByteCount then
      CalculateBinaryShiftCost(other) - CalculateBinaryShiftCost(state)
    else if state.binaryShiftByteCount > other.binaryShiftByteCount && other.binaryShiftByteCount > 0 then 10
    else 0
  }

  predicate IsBetterThanOrEqualTo(state: EncodingState, other: EncodingState) {
    state.bitCount + LatchBits(state.mode, other.mode) + BinaryShiftHandicap(state, other) <= other.bitCount
  }

  // ----- a preorder -----

  lemma LatchTriangle(a: Mode, b: Mode, c: Mode)
    ensures LatchBits(a, c) <= LatchBits(a, b) + LatchBits(b, c)
    ensures LatchBits(a, a) == 0
  {
  }

  lemma HandicapTriangle(a: EncodingState, b: EncodingState, c: EncodingState)
    ensures BinaryShiftHandicap(a, c) <= BinaryShiftHandicap(a, b) + BinaryShiftHandicap(b, c)
    ensures BinaryShiftHandicap(a, b) >= 0
  {
  }

  lemma BetterReflexive(a: EncodingState)
    ensures IsBetterThanOrEqualTo(a, a)
  {
    LatchTriangle(a.mode, a.mode, a.mode);
  }

  /** Latch costs obey the triangle inequality and so does the binary-shift handicap. */
  lemma BetterTransitive(a: EncodingState, b: EncodingState, c: EncodingState)
    requires IsBetterThanOrEqualTo(a, b) && IsBetterThanOrEqualTo(b, c)
    ensures IsBetterThanOrEqualTo(a, c)
  {
    hide LatchBits, BinaryShiftHandicap;
    LatchTriangle(a.mode, b.mode, c.mode);
    HandicapTriangle(a, b, c);
  }

  lemma BetterIsShorter(a: EncodingState, b: EncodingState)
    requires IsBetterThanOrEqualTo(a, b)
    ensures a.bitCount <= b.bitCount
  {
    hide LatchBits, BinaryShiftHandicap;
    HandicapTriangle(a, b, b);
  }

  // ----- pruning -----

  /** One new state against those kept so far: those it beats go, and it is added unless one of them beats it. */
  function Scan(kept: seq<EncodingState>, s: EncodingState): (r: (seq<EncodingState>, bool)) {
    if |kept| == 0 then ([], true)
    else if IsBetterThanOrEqualTo(kept[0], s) then (kept, false)
    else
      var (rest, add) := Scan(kept[1..], s);
      (if IsBetterThanOrEqualTo(s, kept[0]) then rest else [kept[0]] + rest, add)
  }

  function Insert(kept: seq<EncodingState>, s: EncodingState): seq<EncodingState> {
    var (rest, add) := Scan(kept, s);
    if add then rest + [s] else rest
  }

  function Simplify(states: seq<EncodingState>): seq<EncodingState> {
    if |states| == 0 then [] else Insert(Simplify(states[..|states| - 1]), states[|states| - 1])
  }

  ghost predicate Incomparable(kept: seq<EncodingState>) {
    forall i, j :: 0 <= i < |kept| && 0 <= j < |kept| && i != j ==> !IsBetterThanOrEqualTo(kept[i], kept[j])
  }

  ghost predicate Dominated(kept: seq<EncodingState>, s: EncodingState) {
    exists k :: k in kept && IsBetterThanOrEqualTo(k, s)
  }

  lemma {:induction false} ScanFacts(kept: seq<EncodingState>, s: EncodingState)
    requires Incomparable(kept)
    ensures var (rest, add) := Scan(kept, s);
      && (!add ==> rest == kept && Dominated(kept, s))
      && (add ==> forall k :: k in rest ==> !IsBetterThanOrEqualTo(k, s) && !IsBetterThanOrEqualTo(s, k))
      && (forall k :: k in rest ==> k in kept)
      && (forall k :: k in kept ==> k in rest || IsBetterThanOrEqualTo(s, k))
      && Incomparable(rest)
    decreases |kept|
  {
    hide IsBetterThanOrEqualTo;
    if |kept| > 0 {
      if IsBetterThanOrEqualTo(kept[0], s) {
        assert kept[0] in kept;
      } else {
        var tail := kept[1..];
        ScanFacts(tail, s);
        var (rest, add) := Scan(tail, s);
        if !add {
          var k :| k in tail && IsBetterThanOrEqualTo(k, s);
          HeadIncomparable(kept, k);
          if IsBetterThanOrEqualTo(s, kept[0]) {
            BetterTransitive(k, s, kept[0]);
            assert false;
          }
          assert kept == [kept[0]] + tail;
        }
        ConsIncomparable(kept, rest);
      }
    }
  }

  lemma HeadIncomparable(kept: seq<EncodingState>, k: EncodingState)
    requires |kept| > 0 && Incomparable(kept) && k in kept[1..]
    ensures !IsBetterThanOrEqualTo(kept[0], k) && !IsBetterThanOrEqualTo(k, kept[0])
  {
    hide IsBetterThanOrEqualTo;
    var j :| 0 <= j < |kept| - 1 && kept[1..][j] == k;
    assert kept[j + 1] == k;
  }

  lemma ConsIncomparable(kept: seq<EncodingState>, rest: seq<EncodingState>)
    requires |kept| > 0 && Incomparable(kept) && Incomparable(rest) && forall k :: k in rest ==> k in kept[1..]
    ensures Incomparable([kept[0]] + rest)
  {
    hide IsBetterThanOrEqualTo;
    forall i | 0 <= i < |rest|
      ensures !IsBetterThanOrEqualTo(kept[0], rest[i]) && !IsBetterThanOrEqualTo(rest[i], kept[0])
    {
      assert rest[i] in rest;
      HeadIncomparable(kept, rest[i]);
    }
  }

  lemma InsertFacts(kept: seq<EncodingState>, s: EncodingState)
    requires Incomparable(kept)
    ensures Incomparable(Insert(kept, s)) && Dominated(Insert(kept, s), s)
    ensures forall k :: k in Insert(kept, s) ==> k in kept || k == s
    ensures forall k :: k in kept ==> Dominated(Insert(kept, s), k)
  {
    hide IsBetterThanOrEqualTo, Scan;
    ScanFacts(kept, s);
    BetterReflexive(s);
    var r := Insert(kept, s);
    var (rest, add) := Scan(kept, s);
    assert add ==> s in r;
    forall k | k in kept
      ensures Dominated(r, k)
    {
      BetterReflexive(k);
      if k in rest {
        assert k in r;
      }
    }
  }

  lemma DominatedTransitive(kept: seq<EncodingState>, kept': seq<EncodingState>, s: EncodingState)
    requires Dominated(kept, s) && forall k :: k in kept ==> Dominated(kept', k)
    ensures Dominated(kept', s)
  {
    hide IsBetterThanOrEqualTo;
    var k :| k in kept && IsBetterThanOrEqualTo(k, s);
    var k' :| k' in kept' && IsBetterThanOrEqualTo(k', k);
    BetterTransitive(k', k, s);
  }

  /** Pruning keeps some of the states, no two of which compare, and for each dropped one a better one. */
  lemma {:induction false} SimplifyFacts(states: seq<EncodingState>)
    ensures Incomparable(Simplify(states))
    ensures forall k :: k in Simplify(states) ==> k in states
    ensures forall s :: s in states ==> Dominated(Simplify(states), s)
    ensures |states| > 0 ==> |Simplify(states)| > 0
  {
    hide IsBetterThanOrEqualTo, Insert, Dominated;
    if |states| > 0 {
      var init, last := states[..|states| - 1], states[|states| - 1];
      SimplifyFacts(init);
      InsertFacts(Simplify(init), last);
      assert states == init + [last];
      forall s | s in init
        ensures Dominated(Simplify(states), s)
      {
        DominatedTransitive(Simplify(init), Simplify(states), s);
      }
      assert Dominated(Simplify(states), last);
      DominatedNonEmpty(Simplify(states), last);
    }
  }

  lemma DominatedNonEmpty(kept: seq<EncodingState>, s: EncodingState)
    requires Dominated(kept, s)
    ensures |kept| > 0
  {
  }

  /** Pruning never loses the shortest state. */
  lemma SimplifyKeepsMinimum(states: seq<EncodingState>, s: EncodingState)
    requires s in states
    ensures exists k :: k in Simplify(states) && k.bitCount <= s.bitCount
  {
    hide Simplify, IsBetterThanOrEqualTo;
    SimplifyFacts(states);
    assert Dominated(Simplify(states), s);
    var k :| k in Simplify(states) && IsBetterThanOrEqualTo(k, s);
    BetterIsShorter(k, s);
  }

  /** The inner pruning loop, erasing while iterating. */
  method InsertState(kept: seq<EncodingState>, newState: EncodingState) returns (result: seq<EncodingState>)
    ensures result == Insert(kept, newState)
  {
    hide IsBetterThanOrEqualTo, Scan;
    result := kept;
    var add := true;
    var j := 0;
    assert result[..0] == [] && result[0..] == result;
    while j < |result|
      invariant j <= |result|
      invariant Scan(kept, newState).0 == result[..j] + Scan(result[j..], newState).0
      invariant Scan(kept, newState).1 == Scan(result[j..], newState).1
      decreases |result| - j
    {
      ScanStep(result, j, newState);
      if IsBetterThanOrEqualTo(result[j], newState) {
        add := false;
        break;
      }
      if IsBetterThanOrEqualTo(newState, result[j]) {
        result := result[..j] + result[j + 1..];
      } else {
        j := j + 1;
      }
    }
    if add {
      assert result[j..] == [] && result[..j] == result && Scan([], newState) == ([], true) by {
        ScanNothing(newState);
      }
      result := result + [newState];
    }
  }

  lemma ScanNothing(s: EncodingState)
    ensures Scan([], s) == ([], true)
  {
  }

  /** What the loop does to the element at its cursor. */
  lemma ScanStep(result: seq<EncodingState>, j: nat, s: EncodingState)
    requires j < |result|
    ensures IsBetterThanOrEqualTo(result[j], s) ==>
      result[..j] + Scan(result[j..], s).0 == result && !Scan(result[j..], s).1
    ensures !IsBetterThanOrEqualTo(result[j], s) ==> Scan(result[j..], s).1 == Scan(result[j + 1..], s).1
    ensures !IsBetterThanOrEqualTo(result[j], s) && !IsBetterThanOrEqualTo(s, result[j]) ==>
      result[..j] + Scan(result[j..], s).0 == result[..j + 1] + Scan(result[j + 1..], s).0
    ensures !IsBetterThanOrEqualTo(result[j], s) && IsBetterThanOrEqualTo(s, result[j]) ==>
      var shorter := result[..j] + result[j + 1..];
      && result[..j] + Scan(result[j..], s).0 == shorter[..j] + Scan(shorter[j..], s).0
      && Scan(result[j..], s).1 == Scan(shorter[j..], s).1
  {
    hide IsBetterThanOrEqualTo;
    var tail := result[j..];
    assert tail[1..] == result[j + 1..] && result[..j] + tail == result;
    var rest := Scan(tail[1..], s).0;
    assert result[..j + 1] == result[..j] + [tail[0]];
    PrependOne(result[..j], tail[0], rest);
    var shorter := result[..j] + result[j + 1..];
    assert shorter[..j] == result[..j] && shorter[j..] == tail[1..];
  }

  lemma PrependOne(a: seq<EncodingState>, x: EncodingState, b: seq<EncodingState>)
    ensures a + [x] + b == a + ([x] + b)
  {
  }

  method SimplifyStates(states: seq<EncodingState>) returns (result: seq<EncodingState>)
    ensures result == Simplify(states)
  {
    hide IsBetterThanOrEqualTo, Insert;
    result := [];
    for i := 0 to |states|
      invariant result == Simplify(states[..i])
    {
      result := InsertState(result, states[i]);
      assert states[..i + 1][..i] == states[..i];
    }
    assert states[..|states|] == states;
  }
}
