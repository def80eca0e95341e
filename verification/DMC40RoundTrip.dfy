/** When a C40 or Text segment at the end of a message is read back (DMHighLevelEncoder.cpp:410-519, DMDecoder.cpp:120-186). */
module DMC40RoundTrip {
  import opened BitSources
  import opened DMC40
  import opened DMSegments
  import opened DMC40Encoder

  // ----- what cut-off values decode to -----

  /** Decoding only ever adds to the output. */
  lemma {:induction false} OutGrows(mode: Mode, s: State, values: seq<int>)
    ensures match StepValues(mode, s, values) case Next(t) => s.out <= t.out case Invalid => true
    decreases |values|
  {
    hide BasicSetChar, Shift2SetChar, TextShift3SetChar;
    if |values| > 0 {
      OutGrows(mode, s, values[..|values| - 1]);
    }
  }

  /** Any values of a character but all of them output nothing. */
  lemma PrefixOfChar(mode: Mode, c: byte, d: nat, out: seq<byte>) returns (t: State)
    requires d < Size(mode, c)
    ensures StepValues(mode, State(0, false, out), CharValues(mode, c)[..d]) == Next(t) && t.out == out
  {
    hide StepValues, CharValues;
    var s, v := State(0, false, out), CharValues(mode, c);
    var last := PartOfChar(mode, c, out);
    StepsAppend(mode, s, v[..d], v[d..|v| - 1]);
    assert v[..|v| - 1] == v[..d] + v[d..|v| - 1];
    t := StepValues(mode, s, v[..d]).state;
    OutGrows(mode, s, v[..d]);
    OutGrows(mode, t, v[d..|v| - 1]);
  }

  /** The last value of a character is 0. */
  predicate EndsWithZero(mode: Mode, c: byte) {
    CharValues(mode, c)[Size(mode, c) - 1] == 0
  }

  /** A 0 behind cut-off values of a low character completes it only if 0 is what is missing. */
  lemma ZeroInLowChar(mode: Mode, c: byte, upper: bool, d: nat, out: seq<byte>) returns (t: State)
    requires c < 128 && d < Size(mode, c)
    ensures StepValues(mode, State(0, upper, out), CharValues(mode, c)[..d] + [0]) == Next(t)
    ensures |out| <= |t.out| <= |out| + 1
    ensures t.out == out + [if upper then c + 128 else c] <==> d == Size(mode, c) - 1 && EndsWithZero(mode, c)
  {
    hide StepValues, CharValues;
    var v, s := CharValues(mode, c), State(0, upper, out);
    ValuesOfChar(mode, c);
    ZeroValues();
    Steps(mode, s, v[..d] + [0]);
    t := StepValues(mode, s, v[..d] + [0]).state;
    LastOf(out, if upper then c + 128 else c);
    if t.out != out {
      LastOf(out, t.out[|out|]);
    }
  }

  lemma LastOf(out: seq<byte>, c: byte)
    ensures (out + [c])[|out|] == c
  {
  }

  lemma ZeroValues()
    ensures Shift2SetChar(0) == 33 && TextShift3SetChar(0) == 96
    ensures forall v: nat :: 0 < v < 28 ==> Shift2SetChar(v) != 33
    ensures forall v: nat :: 0 < v < 32 ==> TextShift3SetChar(v) != 96
  {
  }

  /** A 0 behind a Shift 2 alone. */
  lemma ZeroInUpper(mode: Mode, out: seq<byte>)
    ensures StepValues(mode, State(0, false, out), [0]) == Next(State(1, false, out))
    ensures StepValues(mode, State(0, false, out), [1, 0]) == Next(State(0, false, out + [33]))
    ensures StepValues(mode, State(0, false, out), [1, 30]) == Next(State(0, true, out))
  {
    hide StepValues;
    Steps(mode, State(0, false, out), [0]);
    Steps(mode, State(0, false, out), [1, 0]);
    Steps(mode, State(0, false, out), [1, 30]);
  }

  lemma ZeroInHighChar(mode: Mode, c: byte, d: nat, out: seq<byte>) returns (t: State)
    requires c >= 128 && 2 <= d < Size(mode, c)
    ensures StepValues(mode, State(0, false, out), CharValues(mode, c)[..d] + [0]) == Next(t)
    ensures |out| <= |t.out| <= |out| + 1
    ensures t.out == out + [c] <==> d == Size(mode, c) - 1 && EndsWithZero(mode, c)
  {
    hide StepValues, CharValues, StepValue;
    UpperValues(mode, c);
    ZeroInUpper(mode, out);
    var low := CharValues(mode, c - 128);
    t := ZeroInLowChar(mode, c - 128, true, d - 2, out);
    StepsAppend(mode, State(0, false, out), [1, 30], low[..d - 2] + [0]);
    assert CharValues(mode, c)[..d] + [0] == [1, 30] + (low[..d - 2] + [0]);
  }

  lemma FirstOfHighChar(mode: Mode, c: byte, d: nat)
    requires c >= 128 && d < 2
    ensures Size(mode, c) >= 3 && CharValues(mode, c)[..d] + [0] == if d == 0 then [0] else [1, 0]
  {
    hide CharValues;
    UpperValues(mode, c);
  }

  lemma ZeroInChar(mode: Mode, c: byte, d: nat, out: seq<byte>) returns (t: State)
    requires d < Size(mode, c)
    ensures StepValues(mode, State(0, false, out), CharValues(mode, c)[..d] + [0]) == Next(t)
    ensures |out| <= |t.out| <= |out| + 1
    ensures t.out == out + [c] <==> d == Size(mode, c) - 1 && EndsWithZero(mode, c)
  {
    hide StepValues, CharValues, StepValue, EndsWithZero, Size;
    if c < 128 {
      t := ZeroInLowChar(mode, c, false, d, out);
    } else if d >= 2 {
      t := ZeroInHighChar(mode, c, d, out);
    } else {
      FirstOfHighChar(mode, c, d);
      ZeroInUpper(mode, out);
      LastOf(out, c);
      LastOf(out, 33);
      t := if d == 0 then State(1, false, out) else State(0, false, out + [33]);
    }
  }

  // ----- cut-off texts -----

  /** The values of i characters and the first d of the next one. */
  lemma CutValues(mode: Mode, s: seq<byte>, i: nat, d: nat)
    requires i < |s| && d <= Size(mode, s[i])
    ensures Count(mode, s, i) + d <= |TextValues(mode, s)|
    ensures TextValues(mode, s)[..Count(mode, s, i) + d] == TextValues(mode, s[..i]) + CharValues(mode, s[i])[..d]
  {
    hide CharValues, TextValues;
    ValuesOfPrefix(mode, s, i + 1);
    OneMore(mode, s, i);
    var v, w, n := TextValues(mode, s), TextValues(mode, s[..i + 1]), Count(mode, s, i) + d;
    assert v[..|w|][..n] == v[..n];
  }

  lemma CutDecodes(mode: Mode, s: seq<byte>, i: nat, d: nat) returns (t: State)
    requires i < |s| && d < Size(mode, s[i])
    ensures Count(mode, s, i) + d <= |TextValues(mode, s)|
    ensures StepValues(mode, START, TextValues(mode, s)[..Count(mode, s, i) + d]) == Next(t) && t.out == s[..i]
  {
    hide CharValues, TextValues, StepValues;
    CutValues(mode, s, i, d);
    TextDecodes(mode, s[..i], []);
    assert [] + s[..i] == s[..i];
    t := PrefixOfChar(mode, s[i], d, s[..i]);
    StepsAppend(mode, START, TextValues(mode, s[..i]), CharValues(mode, s[i])[..d]);
  }

  lemma CutWithZero(mode: Mode, s: seq<byte>, i: nat, d: nat) returns (t: State)
    requires i < |s| && d < Size(mode, s[i])
    ensures Count(mode, s, i) + d <= |TextValues(mode, s)|
    ensures StepValues(mode, START, TextValues(mode, s)[..Count(mode, s, i) + d] + [0]) == Next(t)
    ensures i <= |t.out| <= i + 1
    ensures t.out == s[..i + 1] <==> d == Size(mode, s[i]) - 1 && EndsWithZero(mode, s[i])
  {
    hide CharValues, TextValues, StepValues, EndsWithZero;
    CutValues(mode, s, i, d);
    TextDecodes(mode, s[..i], []);
    assert [] + s[..i] == s[..i] && s[..i] + [s[i]] == s[..i + 1];
    t := ZeroInChar(mode, s[i], d, s[..i]);
    var v, part := TextValues(mode, s[..i]), CharValues(mode, s[i])[..d];
    StepsAppend(mode, START, v, part + [0]);
    assert (v + part) + [0] == v + (part + [0]);
  }

  /** The character that the m-th value belongs to. */
  lemma {:induction false} Locate(mode: Mode, s: seq<byte>, n: nat, m: nat) returns (i: nat, d: nat)
    requires n <= |s| && m < Count(mode, s, n)
    ensures i < n && d < Size(mode, s[i]) && m == Count(mode, s, i) + d
    decreases n
  {
    NoValues(mode, s);
    hide TextValues, CharValues, Count, Size;
    CountNothing(mode, s);
    CountNext(mode, s, n - 1);
    if m < Count(mode, s, n - 1) {
      i, d := Locate(mode, s, n - 1, m);
    } else {
      i, d := n - 1, m - Count(mode, s, n - 1);
    }
  }

  lemma CountNothing(mode: Mode, s: seq<byte>)
    ensures Count(mode, s, 0) == 0
  {
    NoValues(mode, s);
  }

  // ----- what an unlatched segment is read as -----

  /** The decoder finds the text and stops behind the segment. */
  ghost predicate ReadAs(mode: Mode, values: seq<nat>, unlatch: bool, tail: seq<byte>, text: seq<byte>)
    requires |values| % 3 == 0 && Values(values)
  {
    DecodeSegment(Pack(values) + Behind(unlatch, tail), mode, START) == Ended(text, LeftOver(unlatch, tail))
  }

  lemma UnlatchedExactly(mode: Mode, values: seq<nat>, tail: seq<byte>, text: seq<byte>, t: State)
    requires |values| % 3 == 0 && Values(values) && StepValues(mode, START, values) == Next(t)
    ensures ReadAs(mode, values, true, tail, text) <==> t.out == text
  {
    hide StepValues, Pack, DecodeSegment, Behind, LeftOver;
    PackedSteps(mode, values, START, t, Behind(true, tail));
    SegmentEnd(mode, t, true, tail);
  }

  lemma CutBelow(mode: Mode, s: seq<byte>, m: nat)
    requires m <= |TextValues(mode, s)|
    ensures Values(TextValues(mode, s)[..m]) && Values(TextValues(mode, s)[..m] + [0])
  {
    hide TextValues;
  }

  /** With some values of the next character behind them, the characters are read. */
  lemma ReadWithMore(mode: Mode, s: seq<byte>, i: nat, d: nat, tail: seq<byte>)
    requires i < |s| && d < Size(mode, s[i]) && (Count(mode, s, i) + d) % 3 == 0
    ensures var m := Count(mode, s, i) + d;
      m <= |TextValues(mode, s)| && Values(TextValues(mode, s)[..m])
      && ReadAs(mode, TextValues(mode, s)[..m], true, tail, s[..i])
  {
    hide TextValues, CharValues, Size, Count, StepValues, ReadAs, Values;
    var t := CutDecodes(mode, s, i, d);
    CutBelow(mode, s, Count(mode, s, i) + d);
    UnlatchedExactly(mode, TextValues(mode, s)[..Count(mode, s, i) + d], tail, s[..i], t);
  }

  /** With some values missing they are not. */
  lemma NotReadWithLess(mode: Mode, s: seq<byte>, i: nat, m: nat, tail: seq<byte>)
    requires i <= |s| && m < Count(mode, s, i) && m % 3 == 0
    ensures m <= |TextValues(mode, s)| && Values(TextValues(mode, s)[..m])
      && !ReadAs(mode, TextValues(mode, s)[..m], true, tail, s[..i])
  {
    hide TextValues, CharValues, Size, Count, StepValues, ReadAs, Values;
    CountLess(mode, s, i, i);
    var j, d := Locate(mode, s, i, m);
    var t := CutDecodes(mode, s, j, d);
    CutBelow(mode, s, m);
    UnlatchedExactly(mode, TextValues(mode, s)[..m], tail, s[..i], t);
    assert |s[..j]| < |s[..i]|;
  }

  /** Unless the only one missing is a 0, and the triplet is completed by one. */
  lemma ReadWithZero(mode: Mode, s: seq<byte>, i: nat, m: nat, tail: seq<byte>)
    requires i <= |s| && m < Count(mode, s, i) && m % 3 == 2
    ensures 0 < i && m <= |TextValues(mode, s)| && Values(TextValues(mode, s)[..m] + [0])
      && (ReadAs(mode, TextValues(mode, s)[..m] + [0], true, tail, s[..i])
          <==> m == Count(mode, s, i) - 1 && EndsWithZero(mode, s[i - 1]))
  {
    hide TextValues, CharValues, Size, Count, StepValues, ReadAs, Values, EndsWithZero;
    CountLess(mode, s, i, i);
    var j, d := Locate(mode, s, i, m);
    CountNext(mode, s, j);
    CountLess(mode, s, j + 1, i);
    var t := CutWithZero(mode, s, j, d);
    CutBelow(mode, s, m);
    UnlatchedExactly(mode, TextValues(mode, s)[..m] + [0], tail, s[..i], t);
    if j + 1 < i {
      MoreThan(mode, s, j + 1, i);
      assert |t.out| < |s[..i]|;
    }
  }

  lemma MoreThan(mode: Mode, s: seq<byte>, i: nat, j: nat)
    requires i < j <= |s|
    ensures Count(mode, s, i) < Count(mode, s, j)
  {
    hide TextValues, CharValues, Count, Size;
    CountNext(mode, s, i);
    SizeRange(mode, s[i]);
    CountLess(mode, s, i + 1, j);
  }

  /** A 0 behind the first value of an upper shift is a character too many. */
  lemma NotReadWithShift(mode: Mode, s: seq<byte>, i: nat, tail: seq<byte>)
    requires i < |s| && s[i] >= 128 && Count(mode, s, i) % 3 == 1
    ensures var m := Count(mode, s, i) + 1;
      m <= |TextValues(mode, s)| && Values(TextValues(mode, s)[..m] + [0])
      && !ReadAs(mode, TextValues(mode, s)[..m] + [0], true, tail, s[..i])
  {
    hide TextValues, CharValues, Count, StepValues, ReadAs, Values;
    UpperValues(mode, s[i]);
    CutValues(mode, s, i, 1);
    TextDecodes(mode, s[..i], []);
    assert [] + s[..i] == s[..i];
    var v, m := TextValues(mode, s), Count(mode, s, i) + 1;
    ZeroInUpper(mode, s[..i]);
    StepsAppend(mode, START, TextValues(mode, s[..i]), [1, 0]);
    assert v[..m] + [0] == TextValues(mode, s[..i]) + [1, 0];
    CutBelow(mode, s, m);
    UnlatchedExactly(mode, v[..m] + [0], tail, s[..i], State(0, false, s[..i] + [33]));
    assert |s[..i] + [33]| > |s[..i]|;
  }

  // ----- the end of the message -----

  /** The ASCII encoder's codewords for the character left by itself at the end of the message. */
  function Ascii(c: byte): seq<byte> {
    if c >= 128 then [UPPER_SHIFT, c - 128 + 1] else [c + 1]
  }

  /** Codewords up to the end of a segment. */
  function SentCount(before: nat, e: Ending): nat {
    before + Filled(|e.values|) + (if e.unlatch then 1 else 0)
  }

  /** What follows a segment: the codewords for the rest of the message, and padding up to the first symbol for them. */
  predicate Follows(s: seq<byte>, r: C40Result, before: nat, capacities: seq<nat>, hasMore: bool, rest: seq<byte>, tail: seq<byte>)
    requires r.Sent?
  {
    && rest <= tail && SentCount(before, r.ending) + |tail| == Lookup(capacities, SentCount(before, r.ending) + |rest|)
    && (!hasMore && r.chars == |s| ==> rest == [])
    && (!hasMore && r.chars == |s| - 1 && r.chars >= 0 && !r.ending.unlatch ==> rest == Ascii(s[|s| - 1]))
  }

  /** The segment is encoded, and read back as the characters that it is meant for. */
  ghost predicate ReadBack(mode: Mode, s: seq<byte>, r: C40Result, tail: seq<byte>) {
    && r.Sent? && 0 <= r.chars <= |s| && |r.ending.values| % 3 == 0 && Values(r.ending.values)
    && ReadAs(mode, r.ending.values, r.ending.unlatch, tail, s[..r.chars])
  }

  /** The condition when one value is left over and the last character is sent as three. */
  predicate OtherTells(mode: Mode, s: seq<byte>) {
    var x := LastOther(mode, s);
    x >= 1 && if Size(mode, s[x]) == 2 then
      Size(mode, s[x - 1]) == 3 || (Size(mode, s[x - 1]) == 2 && x >= 2 && EndsWithZero(mode, s[x - 2]))
    else Size(mode, s[x - 1]) >= 3
  }

  /** When a segment is read back, by the sizes of its last characters and the codewords that the symbol has to spare. */
  predicate Readable(mode: Mode, s: seq<byte>, available: int, hasMore: bool) {
    var n, last := |TextValues(mode, s)|, if |s| > 0 then Size(mode, s[|s| - 1]) else 0;
    || hasMore || n % 3 == 0
    || (n % 3 == 2 && (available == 2 || last < 4 || (|s| >= 2 && Size(mode, s[|s| - 2]) == 4)))
    || (n % 3 == 1 && (last != 3 || (available != 1 && OtherTells(mode, s))))
  }

  // ----- case by case -----

  function Padded(values: seq<nat>): seq<nat> {
    if |values| % 3 == 2 then values + [0] else values
  }

  /** Behind a step back, an unlatch always follows. */
  lemma SentAfterBack(mode: Mode, s: seq<byte>, before: nat, capacities: seq<nat>, k: Kept)
    requires var available := Available(capacities, before + Filled(|TextValues(mode, s)|));
      available >= 0 && Backtracked(mode, s, available) == k
    ensures k == Failed ==> EncodeSegment(mode, s, before, capacities, false) == TooShort
    ensures k.Kept? && k.chars < |s| && |k.values| % 3 != 1 ==>
      EncodeSegment(mode, s, before, capacities, false) == Sent(Ending(Padded(k.values), true, 0), k.chars)
    ensures k.Kept? && k.chars < |s| && |k.values| % 3 == 1 ==>
      EncodeSegment(mode, s, before, capacities, false) == Sent(Ending(WholeTriples(k.values), true, 1), k.chars - 1)
  {
    hide TextValues, Backtracked;
  }

  /** A text whose values leave none or two over is read back behind an unlatch. */
  lemma WholeText(mode: Mode, s: seq<byte>, tail: seq<byte>)
    requires |TextValues(mode, s)| % 3 != 1
    ensures var v := Padded(TextValues(mode, s));
      |v| % 3 == 0 && Values(v) && ReadAs(mode, v, true, tail, s)
  {
    hide TextValues, Pack, DecodeSegment, Behind, LeftOver;
    var v := TextValues(mode, s);
    if |v| % 3 == 2 {
      SegmentRoundTrip(mode, s, [0], true, tail);
    } else {
      assert v + [] == v;
      SegmentRoundTrip(mode, s, [], true, tail);
    }
  }

  lemma ReadWhole(mode: Mode, s: seq<byte>, i: nat, tail: seq<byte>)
    requires i <= |s| && Count(mode, s, i) % 3 != 1
    ensures Count(mode, s, i) <= |TextValues(mode, s)|
    ensures var v := Padded(TextValues(mode, s)[..Count(mode, s, i)]);
      |v| % 3 == 0 && Values(v) && ReadAs(mode, v, true, tail, s[..i])
  {
    hide TextValues, ReadAs, Values, Padded;
    ValuesOfPrefix(mode, s, i);
    WholeText(mode, s[..i], tail);
  }

  /** All values are sent. */
  lemma AllSent(mode: Mode, s: seq<byte>, before: nat, capacities: seq<nat>, hasMore: bool, rest: seq<byte>, tail: seq<byte>)
    requires var n := |TextValues(mode, s)|;
      var available, r := Available(capacities, before + Filled(n)), EncodeSegment(mode, s, before, capacities, hasMore);
      && available >= 0 && (n % 3 == 0 || (n % 3 == 2 && available == 2 && !hasMore))
      && (r.Sent? ==> Follows(s, r, before, capacities, hasMore, rest, tail))
    ensures ReadBack(mode, s, EncodeSegment(mode, s, before, capacities, hasMore), tail)
  {
    hide TextValues, Pack, DecodeSegment, Behind, LeftOver, Backtracked, Lookup;
    var v := TextValues(mode, s);
    NotBack(mode, s, Available(capacities, before + Filled(|v|)));
    LookupStable(capacities, before + Filled(|v|));
    var e := EncodeSegment(mode, s, before, capacities, hasMore).ending;
    assert v + [] == v && s[..|s|] == s;
    SegmentRoundTrip(mode, s, if |v| % 3 == 2 then [0] else [], e.unlatch, tail);
  }

  /** One value is left over and one codeword to spare: the last character follows in ASCII. */
  lemma LastInAscii(mode: Mode, s: seq<byte>, before: nat, capacities: seq<nat>, rest: seq<byte>, tail: seq<byte>)
    requires |s| > 0 && Size(mode, s[|s| - 1]) <= 3
    requires var n := |TextValues(mode, s)|;
      var available, r := Available(capacities, before + Filled(n)), EncodeSegment(mode, s, before, capacities, false);
      && available == 1 && n % 3 == 1 && (r.Sent? ==> Follows(s, r, before, capacities, false, rest, tail))
    ensures ReadBack(mode, s, EncodeSegment(mode, s, before, capacities, false), tail) <==> s[|s| - 1] < 128
  {
    hide TextValues, Pack, DecodeSegment, Behind, LeftOver, Backtracked, Lookup, Size;
    var v := TextValues(mode, s);
    NotBack(mode, s, 1);
    LookupStable(capacities, before + Filled(|v|));
    ShortenedRoundTrip(mode, s, false, tail);
  }

  /** The encoder went back to a number of characters, and kept the first m values. */
  predicate KeptFirst(mode: Mode, s: seq<byte>, before: nat, capacities: seq<nat>, m: nat, chars: nat) {
    var values := TextValues(mode, s);
    var available := Available(capacities, before + Filled(|values|));
    available >= 0 && m <= |values| && chars < |s| && Backtracked(mode, s, available) == Kept(values[..m], chars)
  }

  lemma KeptIsSent(mode: Mode, s: seq<byte>, before: nat, capacities: seq<nat>, m: nat, chars: nat, tail: seq<byte>)
    requires KeptFirst(mode, s, before, capacities, m, chars)
    ensures Values(TextValues(mode, s)[..m]) && Values(TextValues(mode, s)[..m] + [0])
    ensures m % 3 == 0 ==>
      (ReadBack(mode, s, EncodeSegment(mode, s, before, capacities, false), tail)
       <==> ReadAs(mode, TextValues(mode, s)[..m], true, tail, s[..chars]))
    ensures m % 3 == 2 ==>
      (ReadBack(mode, s, EncodeSegment(mode, s, before, capacities, false), tail)
       <==> ReadAs(mode, TextValues(mode, s)[..m] + [0], true, tail, s[..chars]))
  {
    hide TextValues, Backtracked, EncodeSegment, Values, ReadAs;
    CutBelow(mode, s, m);
    SentAfterBack(mode, s, before, capacities, Kept(TextValues(mode, s)[..m], chars));
  }

  /** The characters kept are whole: they are read back. */
  lemma WholeKept(mode: Mode, s: seq<byte>, before: nat, capacities: seq<nat>, chars: nat, tail: seq<byte>)
    requires chars < |s| && Count(mode, s, chars) % 3 != 1
    requires KeptFirst(mode, s, before, capacities, Count(mode, s, chars), chars)
    ensures ReadBack(mode, s, EncodeSegment(mode, s, before, capacities, false), tail)
  {
    hide TextValues, KeptFirst, EncodeSegment, Values, ReadAs, ReadBack, Count;
    KeptIsSent(mode, s, before, capacities, Count(mode, s, chars), chars, tail);
    ReadWhole(mode, s, chars, tail);
  }

  lemma BeforeLast(mode: Mode, s: seq<byte>)
    requires |s| > 0
    ensures Count(mode, s, |s| - 1) == |TextValues(mode, s)| - Size(mode, s[|s| - 1])
    ensures |s| == 1 ==> Count(mode, s, |s| - 1) == 0
    ensures |s| >= 2 ==> Count(mode, s, |s| - 2) == Count(mode, s, |s| - 1) - Size(mode, s[|s| - 2])
  {
    hide TextValues, CharValues;
    assert s[..|s|] == s;
    CountNext(mode, s, |s| - 1);
    CountNothing(mode, s);
    if |s| >= 2 {
      CountNext(mode, s, |s| - 2);
    }
  }

  /** One step back. */
  lemma ReadOnceBack(mode: Mode, s: seq<byte>, before: nat, capacities: seq<nat>, tail: seq<byte>)
    requires |s| > 0
    requires var n, last := |TextValues(mode, s)|, Size(mode, s[|s| - 1]);
      var available := Available(capacities, before + Filled(n));
      available >= 0 && ((n % 3 == 2 && available != 2 && 2 <= last <= 3) || (n % 3 == 1 && last != 3 && (last == 4 || available != 1)))
    ensures ReadBack(mode, s, EncodeSegment(mode, s, before, capacities, false), tail)
  {
    hide TextValues, Backtracked, EncodeSegment, ReadBack, Size, Count, Lookup;
    OnceBack(mode, s, Available(capacities, before + Filled(|TextValues(mode, s)|)));
    BeforeLast(mode, s);
    SizeRange(mode, s[|s| - 1]);
    WholeKept(mode, s, before, capacities, |s| - 1, tail);
  }

  /** A single value taken off twice, by two steps back or by HandleEOD, leaves the character before without its last one. */
  lemma ReadSingle(mode: Mode, s: seq<byte>, before: nat, capacities: seq<nat>, tail: seq<byte>)
    requires |s| > 0 && Size(mode, s[|s| - 1]) == 1
    requires var n := |TextValues(mode, s)|;
      var available := Available(capacities, before + Filled(n));
      n % 3 == 2 && available >= 0 && available != 2
    ensures ReadBack(mode, s, EncodeSegment(mode, s, before, capacities, false), tail)
  {
    hide TextValues, Backtracked, EncodeSegment, Size, Count, Lookup, Values, ReadAs;
    var v := TextValues(mode, s);
    var n, available := |v|, Available(capacities, before + Filled(|v|));
    BeforeLast(mode, s);
    SizeRange(mode, s[|s| - 2]);
    ReadWithMore(mode, s, |s| - 2, Size(mode, s[|s| - 2]) - 1, tail);
    if available == 1 {
      OnceBack(mode, s, available);
      SentAfterBack(mode, s, before, capacities, Kept(v[..n - 1], |s| - 1));
      Slices(v, n - 2, n - 1);
    } else {
      TwiceBack(mode, s, available);
      Slices(v, n - 2, n - 1);
      KeptIsSent(mode, s, before, capacities, n - 2, |s| - 2, tail);
    }
  }

  /** Four values taken off twice. */
  lemma ReadFour(mode: Mode, s: seq<byte>, before: nat, capacities: seq<nat>, tail: seq<byte>)
    requires |s| > 0 && Size(mode, s[|s| - 1]) == 4
    requires var n := |TextValues(mode, s)|;
      var available := Available(capacities, before + Filled(n));
      n % 3 == 2 && available >= 0 && available != 2
    ensures |s| >= 2
    ensures ReadBack(mode, s, EncodeSegment(mode, s, before, capacities, false), tail) <==> Size(mode, s[|s| - 2]) == 4
  {
    hide TextValues, Backtracked, EncodeSegment, Size, Count, Lookup, Values, ReadAs;
    var v := TextValues(mode, s);
    var n, available := |v|, Available(capacities, before + Filled(|v|));
    BeforeLast(mode, s);
    SizeRange(mode, s[|s| - 2]);
    TwiceBack(mode, s, available);
    if n < 8 {
      SentAfterBack(mode, s, before, capacities, Failed);
    } else {
      Slices(v, n - 8, n - 4);
      KeptIsSent(mode, s, before, capacities, n - 8, |s| - 2, tail);
      if Size(mode, s[|s| - 2]) == 4 {
        ReadWithMore(mode, s, |s| - 2, 0, tail);
      } else {
        NotReadWithLess(mode, s, |s| - 2, n - 8, tail);
      }
    }
  }

  /** A single value of a last character of three: the encoder goes back to the character before the other one. */
  lemma ReadThree(mode: Mode, s: seq<byte>, before: nat, capacities: seq<nat>, tail: seq<byte>)
    requires |s| > 0 && Size(mode, s[|s| - 1]) == 3
    requires var n := |TextValues(mode, s)|;
      var available := Available(capacities, before + Filled(n));
      n % 3 == 1 && available >= 0 && available != 1
    ensures ReadBack(mode, s, EncodeSegment(mode, s, before, capacities, false), tail) <==> OtherTells(mode, s)
  {
    hide TextValues, Backtracked, EncodeSegment, Size, Count, Lookup, Values, ReadAs, OtherTells, GoBack, LastOther, ReadBack, Taken;
    var v, x := TextValues(mode, s), LastOther(mode, s);
    var n, available := |v|, Available(capacities, before + Filled(|v|));
    FirstBack(mode, s, available);
    BeforeLast(mode, s);
    CountNext(mode, s, |s| - 1);
    SomeOther(mode, s);
    BackToOther(mode, s, |s| - 1, available);
    if x < 1 || Count(mode, s, x) < 3 {
      SentAfterBack(mode, s, before, capacities, Failed);
      NotSent(mode, s, tail);
      TooFew(mode, s);
    } else {
      CountThrees(mode, s, x + 1);
      CountNext(mode, s, x);
      CountNext(mode, s, x - 1);
      SizeRange(mode, s[x]);
      SizeRange(mode, s[x - 1]);
      KeptIsSent(mode, s, before, capacities, Count(mode, s, x) - 3, x - 1, tail);
      BeforeOther(mode, s, tail);
    }
  }

  lemma NotSent(mode: Mode, s: seq<byte>, tail: seq<byte>)
    ensures !ReadBack(mode, s, TooShort, tail)
  {
  }

  lemma TooFew(mode: Mode, s: seq<byte>)
    requires LastOther(mode, s) < 1 || Count(mode, s, LastOther(mode, s)) < 3
    ensures !OtherTells(mode, s)
  {
    hide Size, LastOther, Count;
    var x := LastOther(mode, s);
    if x >= 1 {
      CountNext(mode, s, x - 1);
      if x >= 2 {
        CountNext(mode, s, x - 2);
        SizeRange(mode, s[x - 2]);
      }
    }
  }

  /** The values kept are those before the other character, less three. */
  lemma BeforeOther(mode: Mode, s: seq<byte>, tail: seq<byte>)
    requires LastOther(mode, s) >= 1 && Count(mode, s, LastOther(mode, s)) >= 3
    requires Count(mode, s, LastOther(mode, s) + 1) % 3 == 1
    requires Count(mode, s, LastOther(mode, s)) <= |TextValues(mode, s)|
    ensures var v, x := TextValues(mode, s), LastOther(mode, s);
      var m := Count(mode, s, x) - 3;
      && Values(v[..m]) && Values(v[..m] + [0])
      && (Size(mode, s[x]) != 2 ==> m % 3 == 0 && (ReadAs(mode, v[..m], true, tail, s[..x - 1]) <==> OtherTells(mode, s)))
      && (Size(mode, s[x]) == 2 ==> m % 3 == 2 && (ReadAs(mode, v[..m] + [0], true, tail, s[..x - 1]) <==> OtherTells(mode, s)))
  {
    hide TextValues, Size, Count, Values, ReadAs, LastOther, EndsWithZero;
    var v, x := TextValues(mode, s), LastOther(mode, s);
    var m := Count(mode, s, x) - 3;
    CutBelow(mode, s, m);
    CountNext(mode, s, x);
    CountNext(mode, s, x - 1);
    SizeRange(mode, s[x]);
    SizeRange(mode, s[x - 1]);
    var size := Size(mode, s[x - 1]);
    if Size(mode, s[x]) != 2 {
      if size >= 3 {
        ReadWithMore(mode, s, x - 1, size - 3, tail);
      } else {
        NotReadWithLess(mode, s, x - 1, m, tail);
      }
    } else if size == 4 {
      NotReadWithShift(mode, s, x - 1, tail);
    } else if size == 3 {
      ReadWhole(mode, s, x - 1, tail);
    } else {
      ReadWithZero(mode, s, x - 1, m, tail);
    }
  }

  // ----- the whole condition -----

  /**
   * Whatever the encoder makes of the text of a C40 or Text segment, and whatever codewords the rest of the message and
   * the padding add: the decoder reads back exactly the characters that the encoder has moved past if and only if the
   * segment is readable. In all other cases the encoder throws length_error, or characters are lost or changed.
   */
  lemma SegmentExactly(mode: Mode, s: seq<byte>, before: nat, capacities: seq<nat>, hasMore: bool, rest: seq<byte>, tail: seq<byte>)
    requires hasMore ==> |TextValues(mode, s)| % 3 == 0
    requires Available(capacities, before + Filled(|TextValues(mode, s)|)) >= 0
    requires var r := EncodeSegment(mode, s, before, capacities, hasMore);
      r.Sent? ==> Follows(s, r, before, capacities, hasMore, rest, tail)
    ensures ReadBack(mode, s, EncodeSegment(mode, s, before, capacities, hasMore), tail) <==>
      Readable(mode, s, Available(capacities, before + Filled(|TextValues(mode, s)|)), hasMore)
  {
    hide TextValues, EncodeSegment, Size, Lookup, ReadBack, OtherTells, Follows;
    var n, available := |TextValues(mode, s)|, Available(capacities, before + Filled(|TextValues(mode, s)|));
    if n % 3 == 0 || (n % 3 == 2 && available == 2) {
      AllSent(mode, s, before, capacities, hasMore, rest, tail);
    } else {
      SomeOther(mode, s);
      SizeRange(mode, s[|s| - 1]);
      var last := Size(mode, s[|s| - 1]);
      if n % 3 == 1 && available == 1 && last <= 3 {
        LastInAscii(mode, s, before, capacities, rest, tail);
      } else if n % 3 == 2 && last == 1 {
        ReadSingle(mode, s, before, capacities, tail);
      } else if n % 3 == 2 && last == 4 {
        ReadFour(mode, s, before, capacities, tail);
      } else if n % 3 == 1 && last == 3 {
        ReadThree(mode, s, before, capacities, tail);
      } else {
        ReadOnceBack(mode, s, before, capacities, tail);
      }
    }
  }

  // ----- a text that is not read back -----

  /** "aaaaaaaa!a!" */
  const AS_AND_MARKS: seq<byte> := [97, 97, 97, 97, 97, 97, 97, 97, 33, 97, 33]

  lemma SizesOfSample()
    ensures Size(TEXT, 97) == 1 && Size(TEXT, 33) == 2 && Size(TEXT, 0xC1) == 4
  {
  }

  lemma CountsOfSample(c: byte)
    ensures var s := AS_AND_MARKS + [c];
      |s| == 12 && Count(TEXT, s, 8) == 8 && |TextValues(TEXT, s)| == 13 + Size(TEXT, c) && s[10] == 33 && s[11] == c
  {
    hide TextValues, Size, Count;
    var s := AS_AND_MARKS + [c];
    SizesOfSample();
    CountNothing(TEXT, s);
    for i := 0 to 8
      invariant Count(TEXT, s, i) == i
    {
      CountNext(TEXT, s, i);
    }
    CountNext(TEXT, s, 8);
    CountNext(TEXT, s, 9);
    CountNext(TEXT, s, 10);
    BeforeLast(TEXT, s);
  }

  /** With one codeword to spare, it is not read back with any last byte from 128 on. */
  lemma SampleNotReadable(c: byte)
    requires c >= 128
    ensures !Readable(TEXT, AS_AND_MARKS + [c], 1, false)
  {
    hide TextValues, Size;
    CountsOfSample(c);
    SizesOfSample();
    SizeRange(TEXT, c);
  }

  /**
   * With the byte 0xC1 the encoder moves past ten characters, in a symbol of 12 codewords of which the latch is one,
   * and the decoder gets eight of them, whatever follows: the ninth and the tenth are lost.
   */
  lemma TwoCharactersLost(tail: seq<byte>)
    ensures var s := AS_AND_MARKS + [0xC1];
      var r := EncodeSegment(TEXT, s, 1, [12], false);
      && r.Sent? && r.chars == 10 && r.ending.unlatch && |r.ending.values| == 9 && Values(r.ending.values)
      && ReadAs(TEXT, r.ending.values, true, tail, s[..8])
  {
    hide TextValues, Size, Count, EncodeSegment, Backtracked, ReadAs;
    var s := AS_AND_MARKS + [0xC1];
    var v := TextValues(TEXT, s);
    CountsOfSample(0xC1);
    SizesOfSample();
    TwiceBack(TEXT, s, 1);
    Slices(v, 9, 13);
    SentAfterBack(TEXT, s, 1, [12], Kept(v[..9], 10));
    ReadWithMore(TEXT, s, 8, 1, tail);
  }
}
