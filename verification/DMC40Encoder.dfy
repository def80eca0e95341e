/** The C40 and Text encoder and what it leaves at the end of a message (DMHighLevelEncoder.cpp:410-519). */
module DMC40Encoder {
  import opened BitSources
  import opened DMC40
  import opened DMSegments

  const C40_ENCODATION := 1
  const TEXT_ENCODATION := 2
  const UPPER_SHIFT: byte := 235

  function EncodingMode(mode: Mode): int {
    if mode == C40 then C40_ENCODATION else TEXT_ENCODATION
  }

  /** How many values a character is sent as. */
  function Size(mode: Mode, c: byte): nat {
    |CharValues(mode, c)|
  }

  // ----- going back at the end of the message -----

  /** What is left in the buffer, and the number of characters it is meant for. */
  datatype Kept = Kept(values: seq<nat>, chars: nat) | Failed

  /** After each step back, the size is that of the character taken back, not of the one that is taken back next. */
  function GoBack(mode: Mode, s: seq<byte>, values: seq<nat>, chars: nat, size: nat, available: int): Kept
    requires chars <= |s|
    decreases chars
  {
    if |values| % 3 == 1 && ((size <= 3 && available != 1) || size > 3) then
      if |values| < size || chars == 0 then Failed
      else GoBack(mode, s, values[..|values| - size], chars - 1, Size(mode, s[chars - 1]), available)
    else Kept(values, chars)
  }

  function Backtracked(mode: Mode, s: seq<byte>, available: int): Kept {
    var values := TextValues(mode, s);
    if |s| == 0 then Kept(values, 0)
    else
      var size := Size(mode, s[|s| - 1]);
      if |values| % 3 == 2 && available != 2 then
        GoBack(mode, s, values[..|values| - size], |s| - 1, size, available)
      else GoBack(mode, s, values, |s|, size, available)
  }

  function KeptOf(mode: Mode, s: seq<byte>, available: int, hasMore: bool): Kept {
    if hasMore then Kept(TextValues(mode, s), |s|) else Backtracked(mode, s, available)
  }

  /** What the encoder makes of the text of a segment: its ending, and how many of the characters it is meant for. */
  datatype C40Result = TooLarge | TooShort | Sent(ending: Ending, chars: int)

  function Available(capacities: seq<nat>, count: nat): int {
    Lookup(capacities, count) - count
  }

  /** Codewords that the whole triplets of n values fill. */
  function Filled(n: nat): nat {
    n / 3 * 2
  }

  function EncodeSegment(mode: Mode, s: seq<byte>, before: nat, capacities: seq<nat>, hasMore: bool): C40Result {
    var values := TextValues(mode, s);
    var available := Available(capacities, before + Filled(|values|));
    if available < 0 then TooLarge
    else
      match KeptOf(mode, s, available, hasMore)
      case Failed => TooShort
      case Kept(kept, chars) =>
        var e := EndOfData(kept, Available(capacities, before + Filled(|kept|)), hasMore || chars < |s|);
        Sent(e, chars - e.back)
  }

  /** The values of a text are those of its characters, one after the other. */
  lemma {:induction false} ValuesOfPrefix(mode: Mode, s: seq<byte>, i: nat)
    requires i <= |s|
    ensures |TextValues(mode, s[..i])| <= |TextValues(mode, s)|
    ensures TextValues(mode, s)[..|TextValues(mode, s[..i])|] == TextValues(mode, s[..i])
    decreases |s|
  {
    hide CharValues;
    if i == |s| {
      assert s[..i] == s;
    } else {
      ValuesOfPrefix(mode, s[..|s| - 1], i);
      assert s[..|s| - 1][..i] == s[..i];
    }
  }

  lemma OneMore(mode: Mode, s: seq<byte>, i: nat)
    requires i < |s|
    ensures TextValues(mode, s[..i + 1]) == TextValues(mode, s[..i]) + CharValues(mode, s[i])
  {
    assert s[..i + 1][..i] == s[..i];
  }

  /** The buffer after some steps back: the size of the last character has come off in place of the next one's. */
  ghost predicate Taken(mode: Mode, s: seq<byte>, values: seq<nat>, chars: nat, size: nat) {
    && 0 < |s| && chars <= |s|
    && |values| <= |TextValues(mode, s)| && values == TextValues(mode, s)[..|values|]
    && (if chars == |s| then |values| == |TextValues(mode, s)| && size == Size(mode, s[|s| - 1])
        else size == Size(mode, s[chars]) && |values| + Size(mode, s[|s| - 1]) == |TextValues(mode, s[..chars + 1])|)
  }

  lemma TakenAll(mode: Mode, s: seq<byte>)
    requires |s| > 0
    ensures Taken(mode, s, TextValues(mode, s), |s|, Size(mode, s[|s| - 1]))
    ensures Size(mode, s[|s| - 1]) <= |TextValues(mode, s)|
  {
    hide TextValues;
  }

  /** A step back that finds enough values finds a character of the segment. */
  lemma TakeOne(mode: Mode, s: seq<byte>, values: seq<nat>, chars: nat, size: nat)
    requires Taken(mode, s, values, chars, size) && size <= |values|
    ensures 0 < size && 0 < chars && Taken(mode, s, values[..|values| - size], chars - 1, Size(mode, s[chars - 1]))
  {
    hide CharValues, TextValues;
    assert s[..|s|] == s;
    if chars < |s| {
      OneMore(mode, s, chars);
      NoValues(mode, s);
    }
  }

  lemma NoValues(mode: Mode, s: seq<byte>)
    ensures TextValues(mode, s[..0]) == []
  {
  }

  lemma GoesBack(mode: Mode, s: seq<byte>, values: seq<nat>, chars: nat, size: nat, available: int)
    requires chars <= |s|
    ensures var r := GoBack(mode, s, values, chars, size, available);
      if |values| % 3 == 1 && (size > 3 || available != 1) then
        if |values| < size || chars == 0 then r == Failed
        else r == GoBack(mode, s, values[..|values| - size], chars - 1, Size(mode, s[chars - 1]), available)
      else r == Kept(values, chars)
  {
  }

  lemma Slices(v: seq<nat>, m: nat, n: nat)
    requires m <= n <= |v|
    ensures v[..n][..m] == v[..m] && v[..|v|] == v
  {
  }

  /** A state on the way back. */
  ghost predicate OnTheWay(mode: Mode, s: seq<byte>, values: seq<nat>, chars: nat, size: nat, available: int) {
    Taken(mode, s, values, chars, size)
    && Backtracked(mode, s, available) == GoBack(mode, s, values, chars, size, available)
  }

  lemma WayBegins(mode: Mode, s: seq<byte>, available: int)
    requires |s| > 0
    ensures var v, last := TextValues(mode, s), Size(mode, s[|s| - 1]);
      && last <= |v|
      && if |v| % 3 == 2 && available != 2 then OnTheWay(mode, s, v[..|v| - last], |s| - 1, last, available)
         else OnTheWay(mode, s, v, |s|, last, available)
  {
    hide TextValues, CharValues, GoBack, Taken, Size;
    TakenAll(mode, s);
    TakeOne(mode, s, TextValues(mode, s), |s|, Size(mode, s[|s| - 1]));
  }

  lemma WayGoesOn(mode: Mode, s: seq<byte>, values: seq<nat>, chars: nat, size: nat, available: int)
    requires OnTheWay(mode, s, values, chars, size, available)
    ensures chars <= |s|
    ensures if |values| % 3 != 1 || (size <= 3 && available == 1) then Backtracked(mode, s, available) == Kept(values, chars)
      else if |values| < size then Backtracked(mode, s, available) == Failed
      else 0 < size && 0 < chars
           && OnTheWay(mode, s, values[..|values| - size], chars - 1, Size(mode, s[chars - 1]), available)
  {
    assert chars <= |s|;
    hide TextValues, CharValues, GoBack, Taken, Size, Backtracked;
    GoesBack(mode, s, values, chars, size, available);
    if size <= |values| {
      TakeOne(mode, s, values, chars, size);
    }
  }

  /** No step back. */
  lemma NotBack(mode: Mode, s: seq<byte>, available: int)
    requires var v := TextValues(mode, s);
      || |v| % 3 == 0 || (|v| % 3 == 2 && available == 2)
      || (|v| % 3 == 1 && available == 1 && |s| > 0 && Size(mode, s[|s| - 1]) <= 3)
    ensures Backtracked(mode, s, available) == Kept(TextValues(mode, s), |s|)
  {
    if |s| > 0 {
      hide CharValues, TextValues, OnTheWay, Backtracked, Size;
      WayBegins(mode, s, available);
      WayGoesOn(mode, s, TextValues(mode, s), |s|, Size(mode, s[|s| - 1]), available);
    }
  }

  /** The first step back. */
  lemma FirstBack(mode: Mode, s: seq<byte>, available: int)
    requires |s| > 0
    requires var v, last := TextValues(mode, s), Size(mode, s[|s| - 1]);
      (|v| % 3 == 2 && available != 2) || (|v| % 3 == 1 && (last > 3 || available != 1))
    ensures var v, last := TextValues(mode, s), Size(mode, s[|s| - 1]);
      last <= |v| && OnTheWay(mode, s, v[..|v| - last], |s| - 1, last, available)
  {
    hide CharValues, TextValues, OnTheWay, Backtracked, Size;
    WayBegins(mode, s, available);
    if |TextValues(mode, s)| % 3 == 1 {
      WayGoesOn(mode, s, TextValues(mode, s), |s|, Size(mode, s[|s| - 1]), available);
    }
  }

  /** Where going back ends when the first step is enough. */
  lemma OnceBack(mode: Mode, s: seq<byte>, available: int)
    requires |s| > 0
    requires var n, last := |TextValues(mode, s)|, Size(mode, s[|s| - 1]);
      || (n % 3 == 2 && available != 2 && (2 <= last <= 3 || (last == 1 && available == 1)))
      || (n % 3 == 1 && last != 3 && (last == 4 || available != 1))
    ensures var v, last := TextValues(mode, s), Size(mode, s[|s| - 1]);
      last <= |v| && Backtracked(mode, s, available) == Kept(v[..|v| - last], |s| - 1)
  {
    hide CharValues, TextValues, OnTheWay, Backtracked, Size;
    SizeRange(mode, s[|s| - 1]);
    FirstBack(mode, s, available);
    var v, last := TextValues(mode, s), Size(mode, s[|s| - 1]);
    WayGoesOn(mode, s, v[..|v| - last], |s| - 1, last, available);
  }

  /** Where it ends when it takes two steps, both by the size of the same character. */
  lemma TwiceBack(mode: Mode, s: seq<byte>, available: int)
    requires |s| > 0
    requires var n, last := |TextValues(mode, s)|, Size(mode, s[|s| - 1]);
      n % 3 == 2 && available != 2 && (last == 4 || (last == 1 && available != 1))
    ensures var v, last := TextValues(mode, s), Size(mode, s[|s| - 1]);
      if |v| < last + last then Backtracked(mode, s, available) == Failed
      else |s| >= 2 && Backtracked(mode, s, available) == Kept(v[..|v| - last - last], |s| - 2)
  {
    hide CharValues, TextValues, OnTheWay, Backtracked, Size;
    FirstBack(mode, s, available);
    var v, last := TextValues(mode, s), Size(mode, s[|s| - 1]);
    WayGoesOn(mode, s, v[..|v| - last], |s| - 1, last, available);
    if last + last <= |v| {
      Slices(v, |v| - last - last, |v| - last);
      WayGoesOn(mode, s, v[..|v| - last - last], |s| - 2, Size(mode, s[|s| - 2]), available);
    }
  }

  /** The last character that is not sent as three values, -1 if there is none. */
  function LastOther(mode: Mode, s: seq<byte>): (x: int)
    ensures -1 <= x < |s| && (x >= 0 ==> Size(mode, s[x]) != 3)
  {
    if |s| == 0 then -1 else if Size(mode, s[|s| - 1]) != 3 then |s| - 1 else LastOther(mode, s[..|s| - 1])
  }

  lemma {:induction false} ThreesBehind(mode: Mode, s: seq<byte>, i: nat)
    requires LastOther(mode, s) < i <= |s|
    ensures |TextValues(mode, s)| == |TextValues(mode, s[..i])| + 3 * (|s| - i) && LastOther(mode, s[..i]) == LastOther(mode, s)
    decreases |s|
  {
    hide CharValues;
    if i == |s| {
      assert s[..i] == s;
    } else {
      ThreesBehind(mode, s[..|s| - 1], i);
      assert s[..|s| - 1][..i] == s[..i];
    }
  }

  lemma SomeOther(mode: Mode, s: seq<byte>)
    requires |TextValues(mode, s)| % 3 != 0
    ensures LastOther(mode, s) >= 0
  {
    if LastOther(mode, s) < 0 {
      ThreesBehind(mode, s, 0);
      NoValues(mode, s);
    }
  }

  lemma SizeRange(mode: Mode, c: byte)
    ensures 1 <= Size(mode, c) <= 4 && (Size(mode, c) >= 3 <==> c >= 128)
  {
  }

  /** Values of the first i characters. */
  function Count(mode: Mode, s: seq<byte>, i: nat): nat
    requires i <= |s|
  {
    |TextValues(mode, s[..i])|
  }

  lemma CountNext(mode: Mode, s: seq<byte>, i: nat)
    requires i < |s|
    ensures Count(mode, s, i + 1) == Count(mode, s, i) + Size(mode, s[i]) <= |TextValues(mode, s)|
  {
    hide CharValues, TextValues;
    OneMore(mode, s, i);
    ValuesOfPrefix(mode, s, i + 1);
  }

  lemma CountLess(mode: Mode, s: seq<byte>, i: nat, j: nat)
    requires i <= j <= |s|
    ensures Count(mode, s, i) <= Count(mode, s, j) <= |TextValues(mode, s)|
  {
    hide CharValues, TextValues;
    ValuesOfPrefix(mode, s, j);
    ValuesOfPrefix(mode, s[..j], i);
    assert s[..j][..i] == s[..i];
  }

  lemma ThreesLeave(a: nat, k: nat)
    ensures (a + 3 * k) % 3 == a % 3
  {
  }

  /** From the last other character on, the numbers of values agree modulo 3. */
  lemma CountThrees(mode: Mode, s: seq<byte>, i: nat)
    requires LastOther(mode, s) < i <= |s|
    ensures Count(mode, s, i) % 3 == |TextValues(mode, s)| % 3
  {
    hide TextValues, LastOther;
    ThreesBehind(mode, s, i);
    ThreesLeave(Count(mode, s, i), |s| - i);
  }

  /** From a last character of three values on, going back ends before the last one that has another number of them. */
  lemma {:induction false} BackToOther(mode: Mode, s: seq<byte>, i: nat, available: int)
    requires |TextValues(mode, s)| % 3 == 1 && available != 1
    requires LastOther(mode, s) <= i < |s| && 3 <= Count(mode, s, i + 1) <= |TextValues(mode, s)|
    ensures var v, x := TextValues(mode, s), LastOther(mode, s);
      var r := GoBack(mode, s, v[..Count(mode, s, i + 1) - 3], i, Size(mode, s[i]), available);
      if x < 1 || Count(mode, s, x) < 3 then r == Failed
      else Count(mode, s, x) <= |v| && r == Kept(v[..Count(mode, s, x) - 3], x - 1)
    decreases i
  {
    hide TextValues, GoBack, Size, LastOther, Count;
    var v, x, m := TextValues(mode, s), LastOther(mode, s), Count(mode, s, i + 1) - 3;
    SomeOther(mode, s);
    CountNext(mode, s, i);
    CountThrees(mode, s, i + 1);
    CountLess(mode, s, x, i);
    SizeRange(mode, s[i]);
    GoesBack(mode, s, v[..m], i, Size(mode, s[i]), available);
    if Size(mode, s[i]) <= m && i > 0 {
      Slices(v, m - Size(mode, s[i]), m);
      if i > x {
        BackToOther(mode, s, i - 1, available);
      } else {
        GoesBack(mode, s, v[..Count(mode, s, x) - 3], x - 1, Size(mode, s[x - 1]), available);
      }
    }
  }

  /** Going back never ends with one value left over, unless the symbol has exactly one codeword to spare. */
  lemma {:induction false} StopsWell(mode: Mode, s: seq<byte>, values: seq<nat>, chars: nat, size: nat, available: int)
    requires chars <= |s|
    ensures var r := GoBack(mode, s, values, chars, size, available);
      r.Kept? ==> r.values <= values && r.chars <= chars && (|r.values| % 3 == 1 ==> available == 1)
    decreases chars
  {
    if chars > 0 && size <= |values| {
      StopsWell(mode, s, values[..|values| - size], chars - 1, Size(mode, s[chars - 1]), available);
    }
  }

  lemma SingleChar(mode: Mode, s: seq<byte>)
    ensures |s| == 1 ==> |TextValues(mode, s)| == Size(mode, s[0])
  {
    if |s| == 1 {
      hide TextValues, CharValues;
      OneMore(mode, s, 0);
      NoValues(mode, s);
      assert s[..1] == s;
    }
  }

  /** What HandleEOD would not expect does not occur: a single value comes with one codeword to spare. */
  lemma SingleValue(mode: Mode, s: seq<byte>, available: int)
    ensures var r := Backtracked(mode, s, available);
      r.Kept? && |r.values| % 3 == 1 ==>
        available == 1 && r.chars > 0 && |TextValues(mode, s)| % 3 != 0 && |r.values| / 3 == |TextValues(mode, s)| / 3
  {
    var v := TextValues(mode, s);
    if available == 1 && |s| > 0 {
      hide TextValues, GoBack, Backtracked, CharValues;
      SizeRange(mode, s[|s| - 1]);
      if |v| % 3 == 0 || (|v| % 3 == 1 && Size(mode, s[|s| - 1]) <= 3) {
        NotBack(mode, s, available);
      } else if |v| % 3 == 2 && Size(mode, s[|s| - 1]) == 4 {
        TwiceBack(mode, s, available);
      } else {
        SingleChar(mode, s);
        OnceBack(mode, s, available);
      }
    } else if |s| > 0 {
      hide TextValues, GoBack, CharValues;
      var size := Size(mode, s[|s| - 1]);
      StopsWell(mode, s, v[..|v| - size], |s| - 1, size, available);
      StopsWell(mode, s, v, |s|, size, available);
    }
  }

  lemma KeptLess(mode: Mode, s: seq<byte>, available: int)
    ensures var r := Backtracked(mode, s, available);
      r.Kept? ==> r.values <= TextValues(mode, s) && r.chars <= |s|
  {
    hide TextValues, GoBack, CharValues;
    if |s| > 0 {
      var v, size := TextValues(mode, s), Size(mode, s[|s| - 1]);
      StopsWell(mode, s, v[..|v| - size], |s| - 1, size, available);
      StopsWell(mode, s, v, |s|, size, available);
    }
  }

  // ----- the encoder -----

  method BacktrackOneCharacter(context: EncoderContext, mode: Mode, buffer: seq<nat>, lastCharSize: nat)
      returns (ok: bool, buffer': seq<nat>, size: nat)
    requires lastCharSize <= |buffer| ==> 0 < context.pos <= |context.msg|
    modifies context
    ensures context.codewords == old(context.codewords) && context.newEncoding == old(context.newEncoding)
    ensures ok <==> lastCharSize <= |buffer|
    ensures ok ==> buffer' == buffer[..|buffer| - lastCharSize] && context.pos == old(context.pos) - 1
    ensures ok ==> size == Size(mode, context.msg[context.pos]) && context.symbolCapacity == -1
    ensures !ok ==> context.symbolCapacity == old(context.symbolCapacity)
  {
    if |buffer| < lastCharSize { // resize throws length_error
      return false, buffer, lastCharSize;
    }
    buffer' := buffer[..|buffer| - lastCharSize];
    context.pos := context.pos - 1;
    var removed;
    removed, size := EncodeChar(mode, context.msg[context.pos], []);
    context.ResetSymbolInfo();
    ok := true;
  }

  /** Goes back over characters at the end of the message, so that no single value is left. */
  method Backtrack(context: EncoderContext, mode: Mode, buffer: seq<nat>, lastCharSize: nat, available: int, ghost begin: nat)
      returns (ok: bool, buffer': seq<nat>)
    requires begin < context.pos <= |context.msg|
    requires var s := context.msg[begin..context.pos];
      buffer == TextValues(mode, s) && lastCharSize == Size(mode, s[|s| - 1])
    modifies context
    ensures context.codewords == old(context.codewords) && context.newEncoding == old(context.newEncoding)
    ensures match Backtracked(mode, old(context.msg[begin..context.pos]), available)
            case Failed => !ok
            case Kept(values, chars) => ok && buffer' == values && context.pos == begin + chars
    ensures context.symbolCapacity == -1 || (context.symbolCapacity == old(context.symbolCapacity) && (ok ==> buffer' == buffer))
  {
    hide TextValues, CharValues, Size, OnTheWay, Backtracked;
    ghost var s := context.msg[begin..context.pos];
    WayBegins(mode, s, available);
    var size: nat := lastCharSize;
    buffer', ok := buffer, true;
    if |buffer'| % 3 == 2 && available != 2 {
      ok, buffer', size := BacktrackOneCharacter(context, mode, buffer', size);
    }
    while |buffer'| % 3 == 1 && ((size <= 3 && available != 1) || size > 3)
      invariant context.codewords == old(context.codewords) && context.newEncoding == old(context.newEncoding)
      invariant begin <= context.pos <= |context.msg|
      invariant OnTheWay(mode, s, buffer', context.pos - begin, size, available)
      invariant context.symbolCapacity == -1 || (context.symbolCapacity == old(context.symbolCapacity) && buffer' == buffer)
      decreases context.pos
    {
      WayGoesOn(mode, s, buffer', context.pos - begin, size, available);
      ok, buffer', size := BacktrackOneCharacter(context, mode, buffer', size);
      if !ok {
        return;
      }
    }
    WayGoesOn(mode, s, buffer', context.pos - begin, size, available);
    ok := true;
  }

  /** Between triplets, look-ahead has not left the mode before a position. */
  ghost predicate StaysTo(mode: Mode, msg: seq<byte>, begin: nat, stop: nat, lookAhead: nat -> int)
    requires stop <= |msg|
  {
    forall p :: begin < p < stop && |TextValues(mode, msg[begin..p])| % 3 == 0 ==>
      lookAhead(p) == (if mode == C40 then C40_ENCODATION else TEXT_ENCODATION)
  }

  /** Where the encoder stops reading: where look-ahead leaves the mode between two triplets, or at the end. */
  ghost predicate StopsAt(mode: Mode, msg: seq<byte>, begin: nat, stop: nat, end: int, lookAhead: nat -> int)
    requires stop <= |msg|
  {
    && begin <= stop && (stop > end ==> stop == begin)
    && StaysTo(mode, msg, begin, stop, lookAhead)
    && (stop < end ==> |TextValues(mode, msg[begin..stop])| % 3 == 0
                        && lookAhead(stop) != (if mode == C40 then C40_ENCODATION else TEXT_ENCODATION))
  }

  lemma OneRead(mode: Mode, msg: seq<byte>, begin: nat, p: nat)
    requires begin <= p < |msg|
    ensures TextValues(mode, msg[begin..p + 1]) == TextValues(mode, msg[begin..p]) + CharValues(mode, msg[p])
  {
    hide TextValues, CharValues;
    var s := msg[begin..p + 1];
    OneMore(mode, s, p - begin);
    assert s[..p - begin + 1] == s && s[..p - begin] == msg[begin..p] && s[p - begin] == msg[p];
  }

  /** Reads one character and finds a symbol for what the buffer has to send. */
  method ReadChar(context: EncoderContext, mode: Mode, buffer: seq<nat>, ghost begin: nat)
      returns (ok: bool, buffer': seq<nat>, lastCharSize: nat, available: int)
    requires begin <= context.pos < |context.msg| && buffer == TextValues(mode, context.msg[begin..context.pos])
    requires context.FirstFrom(|context.codewords| + Filled(|buffer|))
    modifies context
    ensures context.codewords == old(context.codewords) && context.pos == old(context.pos) + 1
    ensures buffer' == TextValues(mode, context.msg[begin..context.pos])
    ensures lastCharSize == Size(mode, context.msg[context.pos - 1])
    ensures context.FirstFrom(|context.codewords| + Filled(|buffer'|))
    ensures context.symbolCapacity == Lookup(context.capacities, |context.codewords| + Filled(|buffer'|))
    ensures available == Available(context.capacities, |context.codewords| + Filled(|buffer'|)) && (ok <==> available >= 0)
  {
    hide TextValues, CharValues, IsFirstFor;
    var c := context.msg[context.pos];
    context.pos := context.pos + 1;
    OneRead(mode, context.msg, begin, context.pos - 1);
    buffer', lastCharSize := EncodeChar(mode, c, buffer);
    var curCodewordCount := |context.codewords| + |buffer'| / 3 * 2;
    ok := context.UpdateSymbolInfo(curCodewordCount);
    available := context.symbolCapacity - curCodewordCount;
  }

  /** From the buffer to the codewords, with HandleEOD. */
  method EndSegment(context: EncoderContext, buffer: seq<nat>) returns (outcome: Outcome)
    requires Values(buffer) && context.FirstFrom(|context.codewords| + Filled(|buffer|))
    requires |buffer| % 3 == 1 ==>
      context.pos > 0 && Available(context.capacities, |context.codewords| + Filled(|buffer|)) == 1
    modifies context
    ensures var available := Available(context.capacities, |old(context.codewords)| + Filled(|buffer|));
      if available < 0 then outcome == NoSymbol
      else
        var e := EndOfData(buffer, available, old(context.HasMoreCharacters()));
        && outcome == Done && Values(e.values)
        && context.codewords == old(context.codewords) + (Pack(e.values) + if e.unlatch then [C40_UNLATCH] else [])
        && context.pos == old(context.pos) - e.back && context.newEncoding == ASCII_ENCODATION
        && context.FirstFrom(|context.codewords|)
  {
    hide Pack, Lookup, EndOfData;
    ghost var current := |context.codewords| + Filled(|buffer|);
    LookupStable(context.capacities, current);
    outcome := HandleEOD(context, buffer);
    if outcome == Done {
      ghost var e := EndOfData(buffer, Available(context.capacities, current), old(context.HasMoreCharacters()));
      PackLength(e.values);
      EndingLength(buffer, Available(context.capacities, current), old(context.HasMoreCharacters()));
    }
  }

  lemma {:induction false} PackLength(values: seq<nat>)
    requires |values| % 3 == 0 && Values(values)
    ensures |Pack(values)| == Filled(|values|)
    decreases |values|
  {
    hide PackTriple;
    if |values| > 0 {
      PackLength(values[3..]);
    }
  }

  lemma EndingLength(buffer: seq<nat>, available: int, hasMore: bool)
    ensures Filled(|EndOfData(buffer, available, hasMore).values|) == Filled(|buffer|) + (if |buffer| % 3 == 2 then 2 else 0)
  {
  }

  /** What is kept finds a symbol too, and HandleEOD can end it. */
  lemma KeptFits(mode: Mode, s: seq<byte>, before: nat, capacities: seq<nat>, hasMore: bool)
    requires Available(capacities, before + Filled(|TextValues(mode, s)|)) >= 0
    requires hasMore ==> |TextValues(mode, s)| % 3 == 0
    ensures var available := Available(capacities, before + Filled(|TextValues(mode, s)|));
      match KeptOf(mode, s, available, hasMore)
      case Failed => true
      case Kept(values, chars) =>
        && chars <= |s| && (hasMore ==> chars == |s|) && Values(values) && Available(capacities, before + Filled(|values|)) >= 0
        && (|values| % 3 == 1 ==> chars > 0 && Available(capacities, before + Filled(|values|)) == 1)
  {
    hide TextValues, Backtracked;
    var available := Available(capacities, before + Filled(|TextValues(mode, s)|));
    SingleValue(mode, s, available);
    KeptLess(mode, s, available);
    var kept := KeptOf(mode, s, available, hasMore);
    if kept.Kept? {
      LookupLess(capacities, before + Filled(|TextValues(mode, s)|), before + Filled(|kept.values|));
    }
  }

  /** What holds of the segment that is read, before its end. */
  ghost predicate Reading(context: EncoderContext, mode: Mode, buffer: seq<nat>, begin: nat, before: seq<byte>, lookAhead: nat -> int)
    reads context
  {
    var end := |context.msg| - context.skipAtEnd;
    && begin <= context.pos <= |context.msg| && (context.pos > end ==> context.pos == begin)
    && buffer == TextValues(mode, context.msg[begin..context.pos])
    && context.codewords == before && context.FirstFrom(|before| + Filled(|buffer|))
    && StaysTo(mode, context.msg, begin, context.pos, lookAhead)
  }

  /** Reads up to the end of the segment; at the end of the message it goes back as far as need be. */
  method ReadSegment(context: EncoderContext, mode: Mode, lookAhead: nat -> int)
      returns (outcome: Outcome, buffer: seq<nat>, ghost stop: nat)
    requires context.pos <= |context.msg| && context.FirstFrom(|context.codewords|)
    modifies context
    ensures old(context.pos) <= stop <= |context.msg| && StaysTo(mode, context.msg, old(context.pos), stop, lookAhead)
    ensures context.codewords == old(context.codewords)
    ensures outcome == Done ==> context.FirstFrom(|context.codewords| + Filled(|buffer|))
    ensures outcome != NoSymbol ==>
      StopsAt(mode, context.msg, old(context.pos), stop, |context.msg| - context.skipAtEnd, lookAhead)
    ensures var s := context.msg[old(context.pos)..stop];
      var available := Available(context.capacities, |context.codewords| + Filled(|TextValues(mode, s)|));
      var kept := KeptOf(mode, s, available, stop < |context.msg| - context.skipAtEnd);
      match outcome
      case NoSymbol => available < 0
      case LengthError => available >= 0 && kept == Failed
      case Done => context.pos >= old(context.pos) && kept == Kept(buffer, context.pos - old(context.pos)) && (available < 0 ==> s == [])
      case UnexpectedCase => false
  {
    hide TextValues, CharValues, Size, Backtracked, Lookup, Filled, StaysTo, EncoderContext.FirstFrom;
    ghost var begin, before := context.pos, context.codewords;
    ghost var end := |context.msg| - context.skipAtEnd;
    buffer, stop := [], begin;
    NoValues(mode, context.msg[begin..begin]);
    NothingKept(mode, Available(context.capacities, |before|), false);
    StaysFrom(mode, context.msg, begin, begin, lookAhead);
    while context.HasMoreCharacters()
      invariant Reading(context, mode, buffer, begin, before, lookAhead) && stop == context.pos
      invariant begin < context.pos < end && |buffer| % 3 == 0 ==> lookAhead(context.pos) == EncodingMode(mode)
      invariant context.pos < end || context.pos == begin
      invariant begin < context.pos ==> Available(context.capacities, |before| + Filled(|buffer|)) >= 0
      decreases |context.msg| - context.pos
    {
      StaysFrom(mode, context.msg, begin, context.pos, lookAhead);
      var ok, lastCharSize, available;
      ok, buffer, lastCharSize, available := ReadChar(context, mode, buffer, begin);
      stop := context.pos;
      if !ok {
        return NoSymbol, buffer, stop;
      }
      if !context.HasMoreCharacters() {
        ok, buffer := Backtrack(context, mode, buffer, lastCharSize, available, begin);
        NoneIsFirst(context, |before| + Filled(|buffer|));
        return if ok then Done else LengthError, buffer, stop;
      }
      if |buffer| % 3 == 0 {
        var newMode := lookAhead(context.pos);
        if newMode != EncodingMode(mode) {
          context.newEncoding := ASCII_ENCODATION;
          return Done, buffer, stop;
        }
      }
    }
    outcome := Done;
  }

  lemma StaysFrom(mode: Mode, msg: seq<byte>, begin: nat, p: nat, lookAhead: nat -> int)
    requires p <= |msg|
    ensures p <= begin ==> StaysTo(mode, msg, begin, p, lookAhead)
    ensures begin <= p < |msg| && StaysTo(mode, msg, begin, p, lookAhead)
      && (begin < p && |TextValues(mode, msg[begin..p])| % 3 == 0 ==> lookAhead(p) == EncodingMode(mode))
      ==> StaysTo(mode, msg, begin, p + 1, lookAhead)
  {
  }

  lemma NothingKept(mode: Mode, available: int, hasMore: bool)
    ensures KeptOf(mode, [], available, hasMore) == Kept([], 0) && TextValues(mode, []) == [] && Filled(0) == 0
  {
  }

  lemma NoneIsFirst(context: EncoderContext, from: nat)
    ensures context.symbolCapacity == -1 ==> context.FirstFrom(from)
  {
  }

  lemma AlignedStop(mode: Mode, msg: seq<byte>, begin: nat, stop: nat, end: int, lookAhead: nat -> int)
    requires stop <= |msg| && StopsAt(mode, msg, begin, stop, end, lookAhead)
    ensures stop < end ==> |TextValues(mode, msg[begin..stop])| % 3 == 0
    ensures stop > end ==> stop == begin
  {
  }

  method EncodeC40(context: EncoderContext, mode: Mode, lookAhead: nat -> int) returns (outcome: Outcome, ghost stop: nat)
    requires context.pos <= |context.msg| && context.FirstFrom(|context.codewords|)
    modifies context
    ensures old(context.pos) <= stop <= |context.msg| && StaysTo(mode, context.msg, old(context.pos), stop, lookAhead)
    ensures outcome != NoSymbol ==>
      StopsAt(mode, context.msg, old(context.pos), stop, |context.msg| - context.skipAtEnd, lookAhead)
    ensures var s := context.msg[old(context.pos)..stop];
      match EncodeSegment(mode, s, |old(context.codewords)|, context.capacities, stop < |context.msg| - context.skipAtEnd)
      case TooLarge => outcome == NoSymbol
      case TooShort => outcome == LengthError
      case Sent(e, chars) =>
        && outcome == Done && Values(e.values)
        && context.codewords == old(context.codewords) + (Pack(e.values) + if e.unlatch then [C40_UNLATCH] else [])
        && context.pos == old(context.pos) + chars && context.newEncoding == ASCII_ENCODATION
        && context.FirstFrom(|context.codewords|)
  {
    hide TextValues, CharValues, Size, KeptOf, EndOfData, EncoderContext.FirstFrom, Lookup, Pack, StaysTo, StopsAt, Filled;
    hide EncodeSegment, Available;
    var buffer;
    outcome, buffer, stop := ReadSegment(context, mode, lookAhead);
    ghost var s, hasMore := context.msg[old(context.pos)..stop], stop < |context.msg| - context.skipAtEnd;
    SegmentIs(mode, s, |context.codewords|, context.capacities, hasMore);
    if outcome == Done {
      AlignedStop(mode, context.msg, old(context.pos), stop, |context.msg| - context.skipAtEnd, lookAhead);
      if Available(context.capacities, |context.codewords| + Filled(|TextValues(mode, s)|)) >= 0 {
        KeptFits(mode, s, |context.codewords|, context.capacities, hasMore);
      } else {
        NothingKept(mode, Available(context.capacities, |context.codewords| + Filled(|TextValues(mode, s)|)), hasMore);
      }
      outcome := EndSegment(context, buffer);
    }
  }

  lemma SegmentIs(mode: Mode, s: seq<byte>, before: nat, capacities: seq<nat>, hasMore: bool)
    ensures var available := Available(capacities, before + Filled(|TextValues(mode, s)|));
      var r := EncodeSegment(mode, s, before, capacities, hasMore);
      if available < 0 then r == TooLarge
      else
        match KeptOf(mode, s, available, hasMore)
        case Failed => r == TooShort
        case Kept(kept, chars) =>
          var e := EndOfData(kept, Available(capacities, before + Filled(|kept|)), hasMore || chars < |s|);
          r == Sent(e, chars - e.back)
  {
    hide TextValues, KeptOf, EndOfData, Available, Filled;
  }
}
