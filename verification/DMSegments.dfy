/** Ending a C40 or Text segment, and Base 256 segments (DMHighLevelEncoder.cpp:421-482, 788-839, DMDecoder.cpp:239-272). */
module DMSegments {
  import opened Bits
  import opened BitSources
  import opened DMC40

  const ASCII_ENCODATION := 0
  const BASE256_ENCODATION := 5

  /** The encoder's state; the symbol sizes allowed by shape and size constraints are given by their capacities. */
  class EncoderContext {
    const msg: seq<byte>
    const capacities: seq<nat>
    const skipAtEnd: nat
    var codewords: seq<byte>
    var pos: nat
    var newEncoding: int
    var symbolCapacity: int

    constructor (msg: seq<byte>, capacities: seq<nat>, skipAtEnd: nat)
      ensures this.msg == msg && this.capacities == capacities && this.skipAtEnd == skipAtEnd
      ensures codewords == [] && pos == 0 && newEncoding == -1 && symbolCapacity == -1
    {
      this.msg, this.capacities, this.skipAtEnd := msg, capacities, skipAtEnd;
      codewords, pos, newEncoding, symbolCapacity := [], 0, -1, -1;
    }

    function HasMoreCharacters(): bool
      reads this
    {
      pos < |msg| - skipAtEnd
    }

    /** The symbol is the first one that is large enough, for every length from here on that it can hold. */
    ghost predicate FirstFrom(from: nat)
      reads this`symbolCapacity
    {
      forall len: nat :: from <= len <= symbolCapacity ==> Lookup(capacities, len) == symbolCapacity
    }

    /** Keeps the symbol while it is large enough, otherwise takes the first one that is. */
    method UpdateSymbolInfo(len: nat) returns (ok: bool)
      modifies this`symbolCapacity
      ensures symbolCapacity == if old(symbolCapacity) < len then Lookup(capacities, len) else old(symbolCapacity)
      ensures ok <==> symbolCapacity >= len
      ensures old(symbolCapacity) < len ==> IsFirstFor(capacities, len, symbolCapacity)
      ensures old(FirstFrom(len)) ==> symbolCapacity == Lookup(capacities, len) && FirstFrom(len)
    {
      LookupStable(capacities, len);
      LookupIsFirst(capacities, len);
      if symbolCapacity < len {
        symbolCapacity := Lookup(capacities, len);
      }
      ok := symbolCapacity >= len;
    }

    method ResetSymbolInfo()
      modifies this`symbolCapacity
      ensures symbolCapacity == -1
    {
      symbolCapacity := -1;
    }

    method AddCodeword(codeword: byte)
      modifies this`codewords
      ensures codewords == old(codewords) + [codeword]
    {
      codewords := codewords + [codeword];
    }
  }

  /** The first capacity of at least len, -1 when there is none. */
  function Lookup(capacities: seq<nat>, len: nat): (c: int)
    ensures c == -1 || c >= len
  {
    if |capacities| == 0 then -1 else if len <= capacities[0] then capacities[0] else Lookup(capacities[1..], len)
  }

  /** The capacity before which all are too small, or -1 when all are. */
  ghost predicate IsFirstFor(capacities: seq<nat>, len: nat, c: int) {
    if c == -1 then forall i :: 0 <= i < |capacities| ==> capacities[i] < len
    else exists k :: 0 <= k < |capacities| && c == capacities[k] >= len && forall i :: 0 <= i < k ==> capacities[i] < len
  }

  /** The symbol found is the first in the order of the table that is large enough, and there is none only if none is. */
  lemma {:induction false} LookupIsFirst(capacities: seq<nat>, len: nat)
    ensures IsFirstFor(capacities, len, Lookup(capacities, len))
    decreases |capacities|
  {
    if |capacities| > 0 && capacities[0] < len {
      LookupIsFirst(capacities[1..], len);
      if Lookup(capacities, len) != -1 {
        var k :| 0 <= k < |capacities| - 1 && Lookup(capacities, len) == capacities[1..][k] >= len
          && forall i :: 0 <= i < k ==> capacities[1..][i] < len;
        FirstBehind(capacities, len, k);
      }
    }
  }

  lemma FirstBehind(capacities: seq<nat>, len: nat, k: nat)
    requires |capacities| > 0 && capacities[0] < len && k < |capacities| - 1 && capacities[k + 1] >= len
    requires forall i :: 0 <= i < k ==> capacities[1..][i] < len
    ensures IsFirstFor(capacities, len, capacities[k + 1])
  {
    forall i | 0 <= i < k + 1
      ensures capacities[i] < len
    {
      if i > 0 {
        assert capacities[1..][i - 1] == capacities[i];
      }
    }
  }

  /** Where the capacities ascend it is the least sufficient one. */
  lemma LookupIsLeast(capacities: seq<nat>, len: nat, c: nat)
    requires forall i, j :: 0 <= i < j < |capacities| ==> capacities[i] <= capacities[j]
    requires c in capacities && c >= len
    ensures len <= Lookup(capacities, len) <= c && Lookup(capacities, len) in capacities
  {
    LookupIsFirst(capacities, len);
    var j :| 0 <= j < |capacities| && capacities[j] == c;
    var found := Lookup(capacities, len);
    if found != -1 {
      var k :| 0 <= k < |capacities| && found == capacities[k] >= len && forall i :: 0 <= i < k ==> capacities[i] < len;
      assert k <= j;
    }
  }

  /** What is the first for one length is the first for all lengths up to its own. */
  lemma {:induction false} LookupStable(capacities: seq<nat>, len: nat)
    ensures forall l: nat :: len <= l <= Lookup(capacities, len) ==> Lookup(capacities, l) == Lookup(capacities, len)
  {
    if |capacities| > 0 {
      LookupStable(capacities[1..], len);
    }
  }

  lemma {:induction false} LookupLess(capacities: seq<nat>, len: nat, less: nat)
    requires less <= len && Lookup(capacities, len) >= len
    ensures Lookup(capacities, less) >= less
  {
    if |capacities| > 0 && capacities[0] < less {
      LookupLess(capacities[1..], len, less);
    }
  }

  // ----- the end of a C40 or Text segment -----

  datatype Outcome = Done | NoSymbol | UnexpectedCase | LengthError

  ghost predicate Values(buffer: seq<nat>) {
    forall i :: 0 <= i < |buffer| ==> buffer[i] < 40
  }

  /** Sends the first three values. */
  method WriteNextTriplet(context: EncoderContext, buffer: seq<nat>) returns (buffer': seq<nat>)
    requires |buffer| >= 3 && Values(buffer)
    modifies context`codewords
    ensures buffer' == buffer[3..] && Values(buffer')
    ensures context.codewords == old(context.codewords) + PackTriple(buffer[0], buffer[1], buffer[2])
  {
    var v := 1600 * buffer[0] + 40 * buffer[1] + buffer[2] + 1;
    context.AddCodeword(v / 256);
    context.AddCodeword(v % 256);
    buffer' := buffer[3..];
  }

  method WriteTriplets(context: EncoderContext, buffer: seq<nat>) returns (buffer': seq<nat>)
    requires Values(buffer)
    modifies context`codewords
    ensures Values(WholeTriples(buffer)) && |WholeTriples(buffer)| % 3 == 0
    ensures context.codewords == old(context.codewords) + Pack(WholeTriples(buffer))
    ensures buffer' == buffer[|WholeTriples(buffer)|..]
  {
    hide PackTriple, Pack;
    buffer' := buffer;
    ghost var start, sent := context.codewords, 0;
    NothingSent(buffer);
    while |buffer'| >= 3
      invariant sent % 3 == 0 && sent + |buffer'| == |buffer| && buffer' == buffer[sent..] && Values(buffer')
      invariant Values(buffer[..sent]) && context.codewords == start + Pack(buffer[..sent])
    {
      NextTriple(buffer, sent, start);
      buffer' := WriteNextTriplet(context, buffer');
      sent := sent + 3;
    }
    assert sent == |WholeTriples(buffer)|;
  }

  lemma NothingSent(buffer: seq<nat>)
    ensures Values(buffer[..0]) && Pack(buffer[..0]) == []
  {
  }

  lemma NextTriple(buffer: seq<nat>, sent: nat, start: seq<byte>)
    requires Values(buffer) && sent % 3 == 0 && sent + 3 <= |buffer|
    ensures Values(buffer[..sent]) && Values(buffer[..sent + 3]) && buffer[sent..][3..] == buffer[sent + 3..]
    ensures var left := buffer[sent..];
      && left[0] < 40 && left[1] < 40 && left[2] < 40
      && start + Pack(buffer[..sent]) + PackTriple(left[0], left[1], left[2]) == start + Pack(buffer[..sent + 3])
  {
    hide PackTriple, Pack;
    var done, triple := buffer[..sent], buffer[sent..sent + 3];
    PackSnoc(done, triple);
    assert done + triple == buffer[..sent + 3];
    assert (sent + 3) % 3 == 0;
  }

  lemma {:induction false} PackSnoc(values: seq<nat>, triple: seq<nat>)
    requires |values| % 3 == 0 && |triple| == 3 && Values(values) && Values(triple)
    ensures Values(values + triple)
    ensures Pack(values + triple) == Pack(values) + PackTriple(triple[0], triple[1], triple[2])
    decreases |values|
  {
    hide PackTriple;
    var p := PackTriple(triple[0], triple[1], triple[2]);
    if |values| == 0 {
      assert values + triple == triple && triple[3..] == [] && p + Pack([]) == p && Pack(values) + p == p;
    } else {
      PackSnoc(values[3..], triple);
      assert (values + triple)[3..] == values[3..] + triple;
      var q := PackTriple(values[0], values[1], values[2]);
      assert q + (Pack(values[3..]) + p) == (q + Pack(values[3..])) + p;
    }
  }

  function WholeTriples(buffer: seq<nat>): seq<nat> {
    buffer[..|buffer| - |buffer| % 3]
  }

  /** What the encoder appends for the values left at the end of a segment. */
  datatype Ending = Ending(values: seq<nat>, unlatch: bool, back: nat)

  /** Depends on how many values are left over, and on whether the symbol has exactly one codeword to spare. */
  function EndOfData(buffer: seq<nat>, available: int, hasMore: bool): (e: Ending)
    ensures |e.values| % 3 == 0
  {
    if |buffer| % 3 == 2 then Ending(buffer + [0], hasMore, 0)
    else if |buffer| % 3 == 1 then Ending(WholeTriples(buffer), hasMore, 1)
    else Ending(buffer, available > 0 || hasMore, 0)
  }

  /** The values that the triplets are written from, by case. */
  lemma EndingIs(buffer: seq<nat>, available: int, hasMore: bool)
    requires Values(buffer)
    ensures var e := EndOfData(buffer, available, hasMore);
      && Values(e.values) && Values(buffer + [0])
      && (|buffer| % 3 == 2 ==> e == Ending(WholeTriples(buffer + [0]), hasMore, 0))
      && (|buffer| % 3 == 1 ==> e == Ending(WholeTriples(buffer), hasMore, 1))
      && (|buffer| % 3 == 0 ==> e == Ending(WholeTriples(buffer), available > 0 || hasMore, 0))
  {
  }

  method HandleEOD(context: EncoderContext, buffer: seq<nat>) returns (outcome: Outcome)
    requires Values(buffer) && (|buffer| % 3 == 1 ==> context.pos > 0)
    modifies context
    ensures var current := |old(context.codewords)| + |buffer| / 3 * 2;
      var capacity := if old(context.symbolCapacity) < current then Lookup(context.capacities, current) else old(context.symbolCapacity);
      && context.symbolCapacity == capacity
      && (outcome == NoSymbol <==> capacity < current)
      && (outcome == UnexpectedCase <==> capacity >= current && |buffer| % 3 == 1 && capacity - current != 1)
      && outcome != LengthError
      && (outcome == Done ==>
            var e := EndOfData(buffer, capacity - current, old(context.HasMoreCharacters()));
            && Values(e.values)
            && context.codewords == old(context.codewords) + (Pack(e.values) + if e.unlatch then [C40_UNLATCH] else [])
            && context.pos == old(context.pos) - e.back
            && context.newEncoding == ASCII_ENCODATION)
  {
    hide Pack, Lookup, EndOfData, Values, WholeTriples, IsFirstFor, EncoderContext.FirstFrom;
    var unwritten := |buffer| / 3 * 2;
    var rest := |buffer| % 3;
    var curCodewordCount := |context.codewords| + unwritten;
    var ok := context.UpdateSymbolInfo(curCodewordCount);
    if !ok {
      return NoSymbol;
    }
    var available := context.symbolCapacity - curCodewordCount;
    var left := buffer;
    EndingIs(buffer, available, context.HasMoreCharacters());
    if rest == 2 {
      left := left + [0]; // Shift 1
      left := WriteTriplets(context, left);
      if context.HasMoreCharacters() {
        context.AddCodeword(C40_UNLATCH);
      }
    } else if available == 1 && rest == 1 {
      left := WriteTriplets(context, left);
      if context.HasMoreCharacters() {
        context.AddCodeword(C40_UNLATCH);
      }
      context.pos := context.pos - 1;
    } else if rest == 0 {
      left := WriteTriplets(context, left);
      if available > 0 || context.HasMoreCharacters() {
        context.AddCodeword(C40_UNLATCH);
      }
    } else {
      return UnexpectedCase;
    }
    context.newEncoding := ASCII_ENCODATION;
    outcome := Done;
  }

  /**
   * What the encoder appends for the values of a text decodes to the text, less the character it goes back by, if and
   * only if more characters follow, or all values are in triplets and the symbol has room to spare, or at most one
   * more codeword follows. What EncodeC40 sees to of this is in DMC40Encoder.
   */
  lemma SegmentDecodes(mode: Mode, s: seq<byte>, available: int, hasMore: bool, tail: seq<byte>)
    requires |TextValues(mode, s)| % 3 != 1 || available == 1
    ensures var e := EndOfData(TextValues(mode, s), available, hasMore);
      && Values(e.values) && e.back <= |s|
      && ((DecodeSegment(Pack(e.values) + Behind(e.unlatch, tail), mode, START)
           == Ended(s[..|s| - e.back], LeftOver(e.unlatch, tail)))
          <==> hasMore || (|TextValues(mode, s)| % 3 == 0 && available > 0) || |tail| < 2)
  {
    hide *;
    var values := TextValues(mode, s);
    var e := EndOfData(values, available, hasMore);
    EndingValues(values, available, hasMore);
    NonEmptyText(mode, s);
    if |values| % 3 == 1 {
      ShortenedRoundTrip(mode, s, e.unlatch, tail);
    } else {
      assert s[..|s|] == s;
      SegmentRoundTrip(mode, s, if |values| % 3 == 2 then [0] else [], e.unlatch, tail);
    }
  }

  lemma NonEmptyText(mode: Mode, s: seq<byte>)
    ensures |TextValues(mode, s)| > 0 ==> |s| > 0
  {
  }

  lemma EndingValues(buffer: seq<nat>, available: int, hasMore: bool)
    requires (|buffer| % 3 != 1 || available == 1) && forall i :: 0 <= i < |buffer| ==> buffer[i] < 40
    ensures var e := EndOfData(buffer, available, hasMore);
      && Values(e.values) && e.back == (if |buffer| % 3 == 1 then 1 else 0)
      && (e.unlatch <==> hasMore || (|buffer| % 3 == 0 && available > 0))
      && (|buffer| % 3 == 1 ==> e.values == buffer[..|buffer| - 1])
      && (|buffer| % 3 == 2 ==> e.values == buffer + [0])
      && (|buffer| % 3 == 0 ==> e.values == buffer + [])
  {
    assert buffer + [] == buffer;
  }

  // ----- Base 256 -----

  /** The argument is a char, which may be signed; the result is stored in a byte. */
  function Randomize255State(ch: int, codewordPosition: nat): int {
    var pseudoRandom := 149 * codewordPosition % 255 + 1;
    var temp := ch + pseudoRandom;
    if temp <= 255 then temp else temp - 256
  }

  function Unrandomize255State(randomized: byte, codewordPosition: nat): byte {
    var temp := randomized - (149 * codewordPosition % 255 + 1);
    if temp >= 0 then temp else temp + 256
  }

  /** The decoder undoes the randomising at the same position, whatever the signedness of char. */
  lemma RandomizeRoundTrip(c: byte, ch: int, position: nat)
    requires ch == c || ch == c - 256
    ensures Unrandomize255State(Randomize255State(ch, position) % 256, position) == c
  {
    var p := 149 * position % 255;
    assert 0 <= p < 255;
  }

  /** Bytes sent from a codeword position on, each randomised by its own position. */
  function Randomized(s: seq<byte>, position: nat): (r: seq<byte>)
    ensures |r| == |s|
  {
    seq(|s|, i requires 0 <= i < |s| => Randomize255State(s[i], position + i) % 256)
  }

  /** The length field: one byte up to 249, two up to 1555, zero for the rest of the symbol. */
  function LengthField(count: nat, toEnd: bool): seq<byte>
    requires toEnd || count <= 1555
  {
    if toEnd then [0] else if count <= 249 then [count] else [count / 250 + 249, count % 250]
  }

  datatype Base256Outcome = Written | Base256NoSymbol | LengthTooLarge

  /** The run of bytes up to the place where look-ahead leaves the mode, or to the end of the message. */
  method CollectRun(context: EncoderContext, lookAhead: nat -> int) returns (buffer: seq<byte>)
    requires context.pos <= |context.msg|
    modifies context`pos, context`newEncoding
    ensures old(context.pos) <= context.pos <= |context.msg|
    ensures buffer == [0] + context.msg[old(context.pos)..context.pos]
    ensures forall p :: old(context.pos) < p < context.pos ==> lookAhead(p) == BASE256_ENCODATION
    ensures !context.HasMoreCharacters() || lookAhead(context.pos) != BASE256_ENCODATION
  {
    ghost var begin := context.pos;
    buffer := [0];
    while context.HasMoreCharacters()
      invariant begin <= context.pos <= |context.msg|
      invariant buffer == [0] + context.msg[begin..context.pos]
      invariant forall p :: begin < p <= context.pos ==> lookAhead(p) == BASE256_ENCODATION
      decreases |context.msg| - context.pos
    {
      buffer := buffer + [context.msg[context.pos]];
      context.pos := context.pos + 1;
      assert buffer == [0] + context.msg[begin..context.pos];
      var newMode := lookAhead(context.pos);
      if newMode != BASE256_ENCODATION {
        context.newEncoding := ASCII_ENCODATION;
        return;
      }
    }
  }

  /** The segment from the current position: length field and bytes, randomised by their codeword positions. */
  method EncodeBase256(context: EncoderContext, lookAhead: nat -> int) returns (outcome: Base256Outcome, ghost data: seq<byte>)
    requires context.pos <= |context.msg|
    modifies context
    ensures old(context.pos) <= context.pos <= |context.msg|
    ensures data == context.msg[old(context.pos)..context.pos]
    ensures var current := |old(context.codewords)| + |data| + 1;
      && (outcome == Base256NoSymbol <==> context.symbolCapacity < current)
      && (old(context.FirstFrom(|context.codewords|)) && outcome == Written ==> context.FirstFrom(|context.codewords|))
      && (outcome != Base256NoSymbol ==>
            var toEnd := !context.HasMoreCharacters() && context.symbolCapacity == current;
            && (outcome == LengthTooLarge <==> !toEnd && |data| > 1555)
            && (outcome == Written ==>
                  context.codewords == old(context.codewords)
                    + Randomized(LengthField(|data|, toEnd) + data, |old(context.codewords)| + 1)))
  {
    hide Randomize255State, IsFirstFor;
    var buffer := CollectRun(context, lookAhead);
    data := context.msg[old(context.pos)..context.pos];
    var dataCount := |buffer| - 1;
    var currentSize := |context.codewords| + dataCount + 1;
    var ok := context.UpdateSymbolInfo(currentSize);
    if !ok {
      outcome := Base256NoSymbol;
      return;
    }
    var mustPad := context.symbolCapacity - currentSize > 0;
    if context.HasMoreCharacters() || mustPad {
      if dataCount <= 249 {
        buffer := buffer[0 := dataCount];
      } else if dataCount <= 1555 {
        buffer := buffer[0 := dataCount / 250 + 249];
        buffer := buffer[..1] + [dataCount % 250] + buffer[1..];
      } else {
        outcome := LengthTooLarge;
        return;
      }
    }
    assert buffer == LengthField(dataCount, !context.HasMoreCharacters() && !mustPad) + data;
    WriteRandomized(context, buffer);
    outcome := Written;
  }

  method WriteRandomized(context: EncoderContext, buffer: seq<byte>)
    modifies context`codewords
    ensures context.codewords == old(context.codewords) + Randomized(buffer, |old(context.codewords)| + 1)
  {
    ghost var start := context.codewords;
    for i := 0 to |buffer|
      invariant context.codewords == start + Randomized(buffer[..i], |start| + 1)
    {
      RandomizedSnoc(buffer, i, |start| + 1);
      context.AddCodeword(Randomize255State(buffer[i], |context.codewords| + 1) % 256);
    }
    assert buffer[..|buffer|] == buffer;
  }

  lemma RandomizedSnoc(s: seq<byte>, i: nat, position: nat)
    requires i < |s|
    ensures Randomized(s[..i + 1], position) == Randomized(s[..i], position) + [Randomize255State(s[i], position + i) % 256]
  {
    hide Randomize255State;
  }

  // ----- reading Base 256 -----

  function Unrandomized(bytes: seq<byte>, position: nat): (r: seq<byte>)
    ensures |r| == |bytes|
  {
    seq(|bytes|, i requires 0 <= i < |bytes| => Unrandomize255State(bytes[i], position + i))
  }

  datatype Base256Segment = Bytes(data: seq<byte>, end: nat) | OutOfRange

  /** The segment that begins at an offset, and the offset behind it. */
  function DecodeBase256(bytes: seq<byte>, offset: nat): Base256Segment {
    if offset >= |bytes| then OutOfRange
    else
      var d1 := Unrandomize255State(bytes[offset], offset + 1);
      if d1 == 0 then Bytes(Unrandomized(bytes[offset + 1..], offset + 2), |bytes|)
      else if d1 < 250 then ReadCounted(bytes, offset + 1, d1)
      else if offset + 1 >= |bytes| then OutOfRange
      else ReadCounted(bytes, offset + 2, 250 * (d1 - 249) + Unrandomize255State(bytes[offset + 1], offset + 2))
  }

  function ReadCounted(bytes: seq<byte>, offset: nat, count: nat): Base256Segment {
    if offset + count > |bytes| then OutOfRange
    else Bytes(Unrandomized(bytes[offset..offset + count], offset + 1), offset + count)
  }

  method DecodeBase256Segment(bits: BitSource) returns (result: Base256Segment)
    requires bits.Valid() && bits.bitOffset == 0
    modifies bits
    ensures bits.Valid() && bits.bitOffset == 0
    ensures result == DecodeBase256(bits.bytes, old(bits.byteOffset))
    ensures result.Bytes? ==> bits.byteOffset == result.end
  {
    hide Unrandomize255State, AllBits, BitsAt;
    AllBitsLength(bits.bytes);
    var codewordPosition := 1 + bits.byteOffset; // positions are counted from 1
    var ok, b := ReadByte(bits);
    if !ok {
      return OutOfRange;
    }
    var d1 := Unrandomize255State(b, codewordPosition);
    codewordPosition := codewordPosition + 1;
    var count: nat;
    if d1 == 0 {
      count := bits.Available() / 8;
    } else if d1 < 250 {
      count := d1;
    } else {
      ok, b := ReadByte(bits);
      if !ok {
        return OutOfRange;
      }
      count := 250 * (d1 - 249) + Unrandomize255State(b, codewordPosition);
      codewordPosition := codewordPosition + 1;
    }
    ghost var offset := bits.byteOffset;
    var data: seq<byte> := [];
    for i := 0 to count
      invariant bits.Valid() && bits.bitOffset == 0 && bits.byteOffset == offset + i && codewordPosition == offset + 1 + i
      invariant data == Unrandomized(bits.bytes[offset..offset + i], offset + 1)
    {
      ok, b := ReadByte(bits);
      if !ok {
        return OutOfRange;
      }
      data := data + [Unrandomize255State(b, codewordPosition)];
      codewordPosition := codewordPosition + 1;
    }
    assert bits.bytes[offset..|bits.bytes|] == bits.bytes[offset..];
    result := Bytes(data, bits.byteOffset);
  }

  /** Randomising is undone byte by byte. */
  lemma UnrandomizedRandomized(s: seq<byte>, position: nat)
    ensures Unrandomized(Randomized(s, position), position) == s
  {
    hide Randomize255State, Unrandomize255State;
    forall i | 0 <= i < |s|
      ensures Unrandomized(Randomized(s, position), position)[i] == s[i]
    {
      RandomizeRoundTrip(s[i], s[i], position + i);
    }
  }

  /** The decoder reads back the length field. */
  lemma FieldRead(bytes: seq<byte>, offset: nat, count: nat, toEnd: bool)
    requires toEnd || 1 <= count <= 1555
    requires var field := LengthField(count, toEnd);
      && offset + |field| <= |bytes|
      && (forall i :: 0 <= i < |field| ==> Unrandomize255State(bytes[offset + i], offset + 1 + i) == field[i])
    ensures DecodeBase256(bytes, offset) ==
            if toEnd then Bytes(Unrandomized(bytes[offset + 1..], offset + 2), |bytes|)
            else ReadCounted(bytes, offset + |LengthField(count, toEnd)|, count)
  {
    hide Unrandomize255State, Unrandomized, ReadCounted;
    var field := LengthField(count, toEnd);
    assert Unrandomize255State(bytes[offset + 0], offset + 1 + 0) == field[0];
    if |field| == 2 {
      assert Unrandomize255State(bytes[offset + 1], offset + 1 + 1) == field[1];
    }
  }

  /**
   * The Base 256 round trip at any codeword position: length field and randomising are undone, and encoder and decoder
   * agree on where the segment ends. A zero length field takes everything that follows, so nothing may.
   */
  lemma Base256RoundTrip(before: seq<byte>, data: seq<byte>, toEnd: bool, behind: seq<byte>)
    requires if toEnd then behind == [] else 1 <= |data| <= 1555
    ensures var sent := Randomized(LengthField(|data|, toEnd) + data, |before| + 1);
      DecodeBase256(before + sent + behind, |before|) == Bytes(data, |before| + |sent|)
  {
    hide Randomize255State, Unrandomize255State, Randomized, DecodeBase256, LengthField;
    var field := LengthField(|data|, toEnd);
    var all := field + data;
    var sent := Randomized(all, |before| + 1);
    var bytes, p := before + sent + behind, |before|;
    UnrandomizedRandomized(all, p + 1);
    forall i | 0 <= i < |field|
      ensures Unrandomize255State(bytes[p + i], p + 1 + i) == field[i]
    {
      SentAt(before, sent, behind, i);
      assert Unrandomized(sent, p + 1)[i] == all[i];
    }
    FieldRead(bytes, p, |data|, toEnd);
    FieldLength(|data|, toEnd);
    SentTail(before, sent, behind, |field|, all);
    assert all[|field|..] == data;
  }

  lemma FieldLength(count: nat, toEnd: bool)
    requires toEnd || count <= 1555
    ensures 1 <= |LengthField(count, toEnd)| <= 2 && (toEnd ==> |LengthField(count, toEnd)| == 1)
  {
  }

  lemma SentAt(before: seq<byte>, sent: seq<byte>, behind: seq<byte>, i: nat)
    requires i < |sent|
    ensures (before + sent + behind)[|before| + i] == sent[i]
  {
  }

  lemma SentTail(before: seq<byte>, sent: seq<byte>, behind: seq<byte>, n: nat, all: seq<byte>)
    requires n <= |sent| && Unrandomized(sent, |before| + 1) == all && |all| == |sent|
    ensures var bytes, p := before + sent + behind, |before|;
      Unrandomized(bytes[p + n..p + |sent|], p + n + 1) == all[n..]
      && (behind == [] ==> Unrandomized(bytes[p + n..], p + n + 1) == all[n..])
  {
    hide Unrandomize255State;
    var bytes, p := before + sent + behind, |before|;
    assert bytes[p + n..p + |sent|] == sent[n..];
    assert behind == [] ==> bytes[p + n..] == sent[n..];
    forall i | 0 <= i < |sent| - n
      ensures Unrandomized(sent[n..], p + n + 1)[i] == all[n..][i]
    {
      assert all[n + i] == Unrandomized(sent, p + 1)[n + i];
    }
  }
}
