/** When a state is better than another whatever text follows (core/src/aztec/AZHighLevelEncoder.cpp:203-217). */
module AztecPruningGap {
  import opened AztecDecoder
  import opened AztecStates
  import opened AztecPruning
  import opened AztecHighLevelEncoder
  import opened AztecChoices
  import opened AztecDomination

  // ----- lower bounds, from the end of the text backwards -----

  /** Bits that the modes need at least; the last three are for modes with pending bytes. */
  datatype Row = Row(u: int, l: int, d: int, m: int, p: int, pendingU: int, pendingL: int, pendingM: int) {
    function Of(mode: Mode): int {
      match mode case Upper => u case Lower => l case Digit => d case Mixed => m case Punct => p
    }

    function Pending(mode: Mode): int {
      match mode case Upper => pendingU case Lower => pendingL case _ => pendingM
    }
  }

  ghost predicate AtLeast(text: seq<byte>, index: nat, r: Row)
    requires index <= |text|
  {
    && (forall m :: Needs(text, index, m, 0) >= r.Of(m))
    && (forall m: Mode, b: nat :: HasBinary(m) ==> Needs(text, index, m, b) >= r.Pending(m))
  }

  predicate OnlyIn(mode: Mode, ch: byte) {
    CharMap(mode, ch) > 0 && forall m: Mode :: m != mode ==> CharMap(m, ch) == 0
  }

  /** A character that one mode alone has a code for, or the pair of a colon and a space. */
  datatype Piece = One(mode: Mode) | ColonSpace

  predicate Begins(text: seq<byte>, index: nat, piece: Piece)
    requires index < |text|
  {
    match piece
    case One(k) => PairCode(text, index) == 0 && OnlyIn(k, text[index])
    case ColonSpace => PairCode(text, index) == 5
  }

  function Length(piece: Piece): nat {
    if piece.One? then 1 else 2
  }

  function Min(a: int, b: int): int {
    if a <= b then a else b
  }

  /** The bound for one mode before a piece. */
  function Before(m: Mode, pending: bool, piece: Piece, r: Row): int {
    var k := if piece.One? then piece.mode else Punct;
    var code := LatchBits(m, k) + CodeSize(k) + r.Of(k);
    var shift := if m != k && ShiftTable(m, k) >= 0 then CodeSize(m) + 5 + r.Of(m) else code;
    var binary :=
      if pending then 8 * Length(piece) + r.Pending(m)
      else if m != k && piece.One? then LatchBits(m, BinaryMode(m)) + 18 + r.Pending(BinaryMode(m))
      else code;
    Min(code, Min(shift, binary))
  }

  function RowBefore(piece: Piece, r: Row): Row {
    Row(Before(Upper, false, piece, r), Before(Lower, false, piece, r), Before(Digit, false, piece, r),
        Before(Mixed, false, piece, r), Before(Punct, false, piece, r),
        Before(Upper, true, piece, r), Before(Lower, true, piece, r), Before(Mixed, true, piece, r))
  }

  lemma BeforeAtLeast(text: seq<byte>, index: nat, piece: Piece, r: Row, m: Mode, b: nat, pending: bool)
    requires index + Length(piece) <= |text| && Begins(text, index, piece) && AtLeast(text, index + Length(piece), r)
    requires if pending then HasBinary(m) else b == 0
    ensures Needs(text, index, m, b) >= Before(m, pending, piece, r)
  {
    ShiftToPunct(m);
    hide Needs, CharMap, PairCode, LatchBits, ShiftTable;
    LatchTriangle(m, m, m);
    var c := NeedsNext(text, index, m, b);
  }

  lemma RowBeforeAtLeast(text: seq<byte>, index: nat, piece: Piece, r: Row)
    requires index + Length(piece) <= |text| && Begins(text, index, piece) && AtLeast(text, index + Length(piece), r)
    ensures AtLeast(text, index, RowBefore(piece, r))
  {
    hide Needs, Begins, Before, HasBinary, Length;
    BinaryModes();
    forall m
      ensures Needs(text, index, m, 0) >= RowBefore(piece, r).Of(m)
    {
      BeforeAtLeast(text, index, piece, r, m, 0, false);
    }
    forall m: Mode, b: nat | HasBinary(m)
      ensures Needs(text, index, m, b) >= RowBefore(piece, r).Pending(m)
    {
      BeforeAtLeast(text, index, piece, r, m, b, true);
    }
  }

  lemma BinaryModes()
    ensures forall m: Mode :: HasBinary(m) ==> m == Upper || m == Lower || m == Mixed
  {
  }

  // ----- texts of such pieces -----

  function Sample(k: Mode): byte {
    match k case Upper => 65 case Lower => 97 case Digit => 49 case Mixed => 64 case Punct => 33
  }

  function Spell(pieces: seq<Piece>): seq<byte> {
    if |pieces| == 0 then []
    else (if pieces[0].One? then [Sample(pieces[0].mode)] else [58, 32]) + Spell(pieces[1..])
  }

  lemma MixedValues(i: nat)
    ensures i < |MIXED_TABLE| ==> MIXED_TABLE[i] !in [33, 49, 65, 97]
    ensures |MIXED_TABLE| > 20 && MIXED_TABLE[20] == 64
  {
  }

  lemma PunctValues(i: nat)
    ensures i < |PUNCT_TABLE| ==> PUNCT_TABLE[i] !in [49, 64, 65, 97]
    ensures |PUNCT_TABLE| > 6 && PUNCT_TABLE[6] == 33
  {
  }

  lemma SampleOnly(k: Mode)
    ensures OnlyIn(k, Sample(k))
  {
    hide LastIndex, MIXED_TABLE, PUNCT_TABLE;
    var m, p := LastIndex(MIXED_TABLE, Sample(k)), LastIndex(PUNCT_TABLE, Sample(k));
    MixedValues(m);
    PunctValues(p);
  }

  function Rows(pieces: seq<Piece>): Row {
    if |pieces| == 0 then Row(0, 0, 0, 0, 0, 0, 0, 0) else RowBefore(pieces[0], Rows(pieces[1..]))
  }

  lemma {:induction false} RowsAtLeast(text: seq<byte>, index: nat, pieces: seq<Piece>)
    requires index <= |text| && text[index..] == Spell(pieces)
    ensures AtLeast(text, index, Rows(pieces))
    decreases |pieces|
  {
    hide Needs, Begins, RowBefore, Spell, Length;
    if |pieces| == 0 {
      SpellNothing();
      NothingAtLeast(text);
    } else {
      SpellFirst(text, index, pieces);
      RowsAtLeast(text, index + Length(pieces[0]), pieces[1..]);
      RowBeforeAtLeast(text, index, pieces[0], Rows(pieces[1..]));
    }
  }

  lemma NothingAtLeast(text: seq<byte>)
    ensures AtLeast(text, |text|, Row(0, 0, 0, 0, 0, 0, 0, 0))
  {
    hide Needs;
    forall m, b
      ensures Needs(text, |text|, m, b) == 0
    {
      NeedsNothing(text, m, b);
    }
  }

  lemma SpellNothing()
    ensures Spell([]) == []
  {
  }

  lemma SpellFirst(text: seq<byte>, index: nat, pieces: seq<Piece>)
    requires index <= |text| && text[index..] == Spell(pieces) && |pieces| > 0
    ensures index + Length(pieces[0]) <= |text| && Begins(text, index, pieces[0])
    ensures text[index + Length(pieces[0])..] == Spell(pieces[1..])
  {
    hide OnlyIn;
    var k := Length(pieces[0]);
    assert text[index] == text[index..][0];
    if pieces[0].One? {
      SampleOnly(pieces[0].mode);
    } else {
      assert text[index + 1] == text[index..][1];
    }
    assert text[index + k..] == text[index..][k..];
  }

  /** The mode can send the piece and stay. */
  predicate CanStay(m: Mode, piece: Piece) {
    var k := if piece.One? then piece.mode else Punct;
    k == m || ShiftTable(m, k) >= 0
  }

  /** Bits for a text without leaving the mode. */
  function Stay(m: Mode, pieces: seq<Piece>): int {
    if |pieces| == 0 then 0
    else (if pieces[0] == One(m) then CodeSize(m) else CodeSize(m) + 5) + Stay(m, pieces[1..])
  }

  lemma {:induction false} StayAtMost(text: seq<byte>, index: nat, pieces: seq<Piece>, m: Mode)
    requires index <= |text| && text[index..] == Spell(pieces)
    requires forall i :: 0 <= i < |pieces| ==> CanStay(m, pieces[i])
    ensures Needs(text, index, m, 0) <= Stay(m, pieces)
    decreases |pieces|
  {
    hide Needs, PairCode, CharMap, Spell, LatchBits, ShiftTable;
    if |pieces| == 0 {
      SpellNothing();
      NeedsNothing(text, m, 0);
    } else {
      SpellFirst(text, index, pieces);
      assert CanStay(m, pieces[0]);
      ShiftToPunct(m);
      LatchTriangle(m, m, m);
      var k := if pieces[0].One? then pieces[0].mode else Punct;
      ByCode(text, index, m, if k == m then Latch(m) else Shift(k));
      StayAtMost(text, index + Length(pieces[0]), pieces[1..], m);
    }
  }

  // ----- a text for each pair of modes -----

  /** The row and the cost of staying for a text with one more piece in front. */
  lemma Prepended(piece: Piece, rest: seq<Piece>, m: Mode, all: seq<Piece>)
    requires all == [piece] + rest
    ensures Rows(all) == RowBefore(piece, Rows(rest))
    ensures Stay(m, all) == (if piece == One(m) then CodeSize(m) else CodeSize(m) + 5) + Stay(m, rest)
  {
    assert all[1..] == rest;
  }

  lemma EmptyRow(m: Mode)
    ensures Rows([]) == Row(0, 0, 0, 0, 0, 0, 0, 0) && Stay(m, []) == 0
  {
  }

  function Times(k: Mode, n: nat): seq<Piece> {
    seq(n, _ => One(k))
  }

  function RowTimes(k: Mode, n: nat): Row {
    if n == 0 then Row(0, 0, 0, 0, 0, 0, 0, 0) else RowBefore(One(k), RowTimes(k, n - 1))
  }

  lemma {:induction false} TimesOf(k: Mode, n: nat)
    ensures Rows(Times(k, n)) == RowTimes(k, n) && Stay(k, Times(k, n)) == n * CodeSize(k)
  {
    hide RowBefore;
    if n == 0 {
      EmptyRow(k);
      assert Times(k, 0) == [];
    } else {
      TimesOf(k, n - 1);
      Prepended(One(k), Times(k, n - 1), k, Times(k, n));
    }
  }

  const FROM_UPPER := [ColonSpace, One(Punct), One(Punct), One(Digit)]
  const FROM_LOWER := [ColonSpace, One(Upper), ColonSpace, One(Punct), One(Upper)] + FROM_UPPER
  const FROM_MIXED := [ColonSpace, One(Digit)]

  /** What makes the first mode need as much more than the second as is possible. */
  function Witness(m1: Mode, m2: Mode): seq<Piece> {
    if m2 == Digit && m1 == Upper then FROM_UPPER
    else if m2 == Digit && m1 == Lower then FROM_LOWER
    else if m2 == Digit && m1 == Mixed then FROM_MIXED
    else Times(m2, 4)
  }

  lemma UpperRow(r: Row)
    ensures RowBefore(One(Upper), r) == Row(
      5 + r.u, Min(14 + r.u, Min(10 + r.l, 18 + r.pendingL)),
      Min(9 + r.u, Min(9 + r.d, 22 + r.pendingU)), Min(10 + r.u, 18 + r.pendingM),
      Min(10 + r.u, 23 + r.pendingU), Min(5 + r.u, 8 + r.pendingU),
      Min(14 + r.u, Min(10 + r.l, 8 + r.pendingL)), Min(10 + r.u, 8 + r.pendingM))
  {
    hide LatchBits;
    LatchNumbers();
  }

  lemma DigitRow(r: Row)
    ensures RowBefore(One(Digit), r) == Row(
      Min(9 + r.d, 18 + r.pendingU), Min(9 + r.d, 18 + r.pendingL),
      4 + r.d, Min(14 + r.d, 18 + r.pendingM),
      Min(14 + r.d, 23 + r.pendingU), Min(9 + r.d, 8 + r.pendingU),
      Min(9 + r.d, 8 + r.pendingL), Min(14 + r.d, 8 + r.pendingM))
  {
    hide LatchBits;
    LatchNumbers();
  }

  lemma PunctRow(r: Row)
    ensures RowBefore(One(Punct), r) == Row(
      Min(15 + r.p, Min(10 + r.u, 18 + r.pendingU)), Min(15 + r.p, Min(10 + r.l, 18 + r.pendingL)),
      Min(19 + r.p, Min(9 + r.d, 22 + r.pendingU)), Min(10 + r.p, Min(10 + r.m, 18 + r.pendingM)),
      5 + r.p, Min(15 + r.p, Min(10 + r.u, 8 + r.pendingU)),
      Min(15 + r.p, Min(10 + r.l, 8 + r.pendingL)), Min(10 + r.p, Min(10 + r.m, 8 + r.pendingM)))
  {
    hide LatchBits;
    LatchNumbers();
  }

  lemma LowerRow(r: Row)
    ensures RowBefore(One(Lower), r) == Row(
      Min(10 + r.l, 18 + r.pendingU), 5 + r.l,
      Min(14 + r.l, 22 + r.pendingU), Min(10 + r.l, 18 + r.pendingM),
      Min(15 + r.l, 23 + r.pendingU), Min(10 + r.l, 8 + r.pendingU),
      Min(5 + r.l, 8 + r.pendingL), Min(10 + r.l, 8 + r.pendingM))
  {
    hide LatchBits;
    LatchNumbers();
  }

  lemma MixedRow(r: Row)
    ensures RowBefore(One(Mixed), r) == Row(
      Min(10 + r.m, 18 + r.pendingU), Min(10 + r.m, 18 + r.pendingL),
      Min(14 + r.m, 22 + r.pendingU), 5 + r.m,
      Min(15 + r.m, 23 + r.pendingU), Min(10 + r.m, 8 + r.pendingU),
      Min(10 + r.m, 8 + r.pendingL), Min(5 + r.m, 8 + r.pendingM))
  {
    hide LatchBits;
    LatchNumbers();
  }

  lemma PairRow(r: Row)
    ensures RowBefore(ColonSpace, r) == Row(
      Min(15 + r.p, 10 + r.u), Min(15 + r.p, 10 + r.l),
      Min(19 + r.p, 9 + r.d), Min(10 + r.p, 10 + r.m),
      5 + r.p, Min(15 + r.p, Min(10 + r.u, 16 + r.pendingU)),
      Min(15 + r.p, Min(10 + r.l, 16 + r.pendingL)), Min(10 + r.p, Min(10 + r.m, 16 + r.pendingM)))
  {
    hide LatchBits;
    LatchNumbers();
  }

  /** The rows before "!1" and ": !!1". */
  lemma FromUpper()
    ensures Rows(FROM_UPPER[2..]) == Row(19, 19, 13, 24, 19, 16, 16, 16) && Stay(Digit, FROM_UPPER[2..]) == 13
    ensures Rows(FROM_UPPER) == Row(39, 39, 31, 34, 29, 39, 39, 34) && Stay(Digit, FROM_UPPER) == 31
  {
    hide Rows, RowBefore, Stay, Spell;
    EmptyRow(Digit);
    Prepended(One(Digit), [], Digit, FROM_UPPER[3..]);
    DigitRow(Rows([]));
    Prepended(One(Punct), FROM_UPPER[3..], Digit, FROM_UPPER[2..]);
    PunctRow(Rows(FROM_UPPER[3..]));
    Prepended(One(Punct), FROM_UPPER[2..], Digit, FROM_UPPER[1..]);
    PunctRow(Rows(FROM_UPPER[2..]));
    Prepended(ColonSpace, FROM_UPPER[1..], Digit, FROM_UPPER);
    PairRow(Rows(FROM_UPPER[1..]));
  }

  lemma FromMixed()
    ensures Rows(FROM_MIXED) == Row(19, 19, 13, 24, 19, 19, 19, 24) && Stay(Digit, FROM_MIXED) == 13
  {
    hide Rows, RowBefore, Stay, Spell;
    EmptyRow(Digit);
    Prepended(One(Digit), [], Digit, FROM_MIXED[1..]);
    DigitRow(Rows([]));
    Prepended(ColonSpace, FROM_MIXED[1..], Digit, FROM_MIXED);
    PairRow(Rows(FROM_MIXED[1..]));
  }

  /** Further back, through ": !A: !!1" to ": A: !A: !!1". */
  lemma FromLower()
    ensures Rows(FROM_LOWER) == Row(79, 88, 76, 84, 79, 79, 88, 84) && Stay(Digit, FROM_LOWER) == 76
  {
    hide Rows, RowBefore, Stay, Spell, FROM_UPPER;
    FromUpper();
    var s1 := [One(Upper)] + FROM_UPPER;
    var s2 := [One(Punct)] + s1;
    var s3 := [ColonSpace] + s2;
    var s4 := [One(Upper)] + s3;
    Prepended(One(Upper), FROM_UPPER, Digit, s1);
    UpperRow(Rows(FROM_UPPER));
    Prepended(One(Punct), s1, Digit, s2);
    PunctRow(Rows(s1));
    Prepended(ColonSpace, s2, Digit, s3);
    PairRow(Rows(s2));
    Prepended(One(Upper), s3, Digit, s4);
    UpperRow(Rows(s3));
    Prepended(ColonSpace, s4, Digit, FROM_LOWER);
    PairRow(Rows(s4));
  }

  lemma UpperTimes()
    ensures RowTimes(Upper, 4) == Row(20, 29, 24, 25, 25, 20, 29, 25)
  {
    hide RowBefore;
    UpperRow(RowTimes(Upper, 0));
    UpperRow(RowTimes(Upper, 1));
    UpperRow(RowTimes(Upper, 2));
    UpperRow(RowTimes(Upper, 3));
  }

  lemma LowerTimes()
    ensures RowTimes(Lower, 4) == Row(25, 20, 29, 25, 30, 25, 20, 25)
  {
    hide RowBefore;
    LowerRow(RowTimes(Lower, 0));
    LowerRow(RowTimes(Lower, 1));
    LowerRow(RowTimes(Lower, 2));
    LowerRow(RowTimes(Lower, 3));
  }

  lemma DigitTimes()
    ensures RowTimes(Digit, 4) == Row(21, 21, 16, 26, 26, 21, 21, 26)
  {
    hide RowBefore;
    DigitRow(RowTimes(Digit, 0));
    DigitRow(RowTimes(Digit, 1));
    DigitRow(RowTimes(Digit, 2));
    DigitRow(RowTimes(Digit, 3));
  }

  lemma MixedTimes()
    ensures RowTimes(Mixed, 4) == Row(25, 25, 29, 20, 30, 25, 25, 20)
  {
    hide RowBefore;
    MixedRow(RowTimes(Mixed, 0));
    MixedRow(RowTimes(Mixed, 1));
    MixedRow(RowTimes(Mixed, 2));
    MixedRow(RowTimes(Mixed, 3));
  }

  lemma PunctTimes()
    ensures RowTimes(Punct, 4) == Row(30, 30, 34, 25, 20, 30, 30, 25)
  {
    hide RowBefore;
    PunctRow(RowTimes(Punct, 0));
    PunctRow(RowTimes(Punct, 1));
    PunctRow(RowTimes(Punct, 2));
    PunctRow(RowTimes(Punct, 3));
  }

  /** Four characters of a mode are enough for the latch to be the cheapest way. */
  lemma FourTimes(k: Mode, m: Mode)
    requires Gap(m, k) == LatchBits(m, k)
    ensures RowTimes(k, 4).Of(m) >= LatchBits(m, k) + 4 * CodeSize(k)
    ensures HasBinary(m) ==> RowTimes(k, 4).Pending(m) >= LatchBits(m, k) + 4 * CodeSize(k)
  {
    LatchNumbers();
    hide RowTimes, RowBefore, LatchBits;
    match k
    case Upper => UpperTimes();
    case Lower => LowerTimes();
    case Digit => DigitTimes();
    case Mixed => MixedTimes();
    case Punct => PunctTimes();
  }

  lemma WitnessRow(m1: Mode, m2: Mode)
    ensures Rows(Witness(m1, m2)).Of(m1) >= Stay(m2, Witness(m1, m2)) + Gap(m1, m2)
    ensures HasBinary(m1) ==> Rows(Witness(m1, m2)).Pending(m1) >= Stay(m2, Witness(m1, m2)) + Gap(m1, m2)
    ensures forall i :: 0 <= i < |Witness(m1, m2)| ==> CanStay(m2, Witness(m1, m2)[i])
  {
    hide Rows, Stay, LatchBits, RowTimes;
    if m2 == Digit && m1 == Lower {
      FromLower();
    } else if m2 == Digit && m1 == Upper {
      FromUpper();
    } else if m2 == Digit && m1 == Mixed {
      FromMixed();
    } else {
      TimesOf(m2, 4);
      FourTimes(m2, m1);
    }
  }

  /** The gap is attained at the witness, however many bytes the first state has pending. */
  lemma WitnessAttains(text: seq<byte>, index: nat, m1: Mode, b1: nat, m2: Mode)
    requires index <= |text| && text[index..] == Spell(Witness(m1, m2)) && Possible(m1, b1)
    ensures Needs(text, index, m1, b1) >= Needs(text, index, m2, 0) + Gap(m1, m2)
  {
    hide Rows, Stay, Spell, Gap, Needs, Witness, CanStay, HasBinary;
    WitnessRow(m1, m2);
    RowsAtLeast(text, index, Witness(m1, m2));
    StayAtMost(text, index, Witness(m1, m2), m2);
  }

  // ----- binary runs -----

  /** A byte that no mode has a code for. */
  const NO_CODE: byte := 0x80

  predicate NoCodes(text: seq<byte>, index: nat, n: nat) {
    index + n <= |text| && forall i :: index <= i < index + n ==> text[i] == NO_CODE
  }

  lemma NoCode(text: seq<byte>, index: nat, m: Mode)
    requires NoCodes(text, index, 1)
    ensures CharMap(m, text[index]) == 0 && PairCode(text, index) == 0
  {
    hide LastIndex, MIXED_TABLE, PUNCT_TABLE;
    var i, p := LastIndex(MIXED_TABLE, NO_CODE), LastIndex(PUNCT_TABLE, NO_CODE);
    assert text[index] == NO_CODE;
    NoMixedCode(i);
    NoPunctCode(p);
  }

  lemma NoMixedCode(i: nat)
    ensures i < |MIXED_TABLE| ==> MIXED_TABLE[i] != NO_CODE
  {
  }

  lemma NoPunctCode(i: nat)
    ensures i < |PUNCT_TABLE| ==> PUNCT_TABLE[i] != NO_CODE
  {
  }

  lemma NeedsByte(text: seq<byte>, index: nat, m: Mode, b: nat)
    requires NoCodes(text, index, 1)
    ensures Needs(text, index, m, b)
      == LatchBits(m, BinaryMode(m)) + ByteBits(b) + Needs(text, index + 1, BinaryMode(m), NextByte(b))
  {
    hide Needs, CharMap, PairCode, LatchBits, ShiftTable, ByteBits, NextByte, BinaryMode;
    NoCode(text, index, m);
    NeedsAtMost(text, index, m, b, InBinary);
    var c := NeedsNext(text, index, m, b);
    if c.Latch? || c.Shift? {
      NoCode(text, index, c.mode);
    }
  }

  /** Headers of a run that may fill up and begin again. */
  function Headers(b: nat): nat {
    if b < FULL_RUN then Header(b) else Header(FULL_RUN - 1) + Header(b - FULL_RUN)
  }

  function Wrapped(b: nat): nat {
    if b < FULL_RUN then b else b - FULL_RUN
  }

  lemma RunStep(b: nat, n: nat)
    requires b < FULL_RUN && 1 <= n <= FULL_RUN
    ensures NextByte(b) < FULL_RUN && Wrapped(NextByte(b) + n - 1) == Wrapped(b + n)
    ensures ByteBits(b) + Headers(NextByte(b) + n - 1) - Header(NextByte(b)) == 8 + Headers(b + n) - Header(b)
  {
  }

  /** Bytes without a code cost eight bits each, and the headers. */
  lemma {:induction false} NeedsRun(text: seq<byte>, index: nat, n: nat, m: Mode, b: nat)
    requires n <= FULL_RUN && NoCodes(text, index, n) && HasBinary(m) && b < FULL_RUN
    ensures Needs(text, index, m, b)
      == 8 * n + Headers(b + n) - Header(b) + Needs(text, index + n, m, Wrapped(b + n))
    decreases n
  {
    hide Needs, Header, Headers, Wrapped, LatchBits, ByteBits, NextByte;
    if n == 0 {
      NothingSent(b);
    } else {
      RunStep(b, n);
      NeedsByte(text, index, m, b);
      LatchTriangle(m, m, m);
      NeedsRun(text, index + 1, n - 1, m, NextByte(b));
    }
  }

  lemma NothingSent(b: nat)
    requires b < FULL_RUN
    ensures Headers(b) == Header(b) && Wrapped(b) == b
  {
  }

  /** The slack is what the headers differ by when the second run has filled up. */
  lemma SlackAtFullRun(b1: nat, b2: nat)
    requires b1 < FULL_RUN && b2 < FULL_RUN
    ensures var n := FULL_RUN - b2;
      && Wrapped(b1 + n) < FULL_RUN && Wrapped(b2 + n) == 0
      && Headers(b1 + n) - Header(b1) == Headers(b2 + n) - Header(b2) + Slack(b1, b2)
  {
  }

  lemma ThroughBinary(m1: Mode, m2: Mode)
    requires HasBinary(m2)
    ensures Gap(m1, m2) <= LatchBits(m1, BinaryMode(m1)) + Gap(BinaryMode(m1), m2)
  {
    hide LatchBits;
    LatchNumbers();
  }

  /** Gap and slack are attained, at every position. */
  lemma MarginAttained(index: nat, m1: Mode, b1: nat, m2: Mode, b2: nat) returns (text: seq<byte>)
    requires Possible(m1, b1) && Possible(m2, b2)
    ensures index <= |text|
    ensures Needs(text, index, m1, b1) >= Needs(text, index, m2, b2) + Gap(m1, m2) + Slack(b1, b2)
  {
    hide Spell, Gap, Slack, Needs, Witness;
    var before := seq(index, _ => 0);
    if HasBinary(m2) {
      var n := FULL_RUN - b2;
      var run := seq(n, _ => NO_CODE);
      text := before + run + Spell(Witness(BinaryMode(m1), m2));
      assert text[index + n..] == Spell(Witness(BinaryMode(m1), m2));
      assert NoCodes(text, index, n);
      RunAttains(text, index, m1, b1, m2, b2);
    } else {
      text := before + Spell(Witness(m1, m2));
      assert text[index..] == Spell(Witness(m1, m2));
      WitnessAttains(text, index, m1, b1, m2);
      NoSlack(b1);
    }
  }

  /** Enough bytes to fill the second run, and then the witness. */
  lemma RunAttains(text: seq<byte>, index: nat, m1: Mode, b1: nat, m2: Mode, b2: nat)
    requires Possible(m1, b1) && Possible(m2, b2) && HasBinary(m2) && NoCodes(text, index, FULL_RUN - b2)
    requires text[index + (FULL_RUN - b2)..] == Spell(Witness(BinaryMode(m1), m2))
    ensures Needs(text, index, m1, b1) >= Needs(text, index, m2, b2) + Gap(m1, m2) + Slack(b1, b2)
  {
    hide Spell, Gap, Slack, Needs, Witness, Header, Headers, Wrapped, LatchBits, ByteBits, NextByte;
    var n, m := FULL_RUN - b2, BinaryMode(m1);
    LatchTriangle(m, m, m);
    assert NoCodes(text, index, 1);
    NeedsByte(text, index, m1, b1);
    NeedsByte(text, index, m, b1);
    NeedsRun(text, index, n, m, b1);
    NeedsRun(text, index, n, m2, b2);
    SlackAtFullRun(b1, b2);
    ThroughBinary(m1, m2);
    WitnessAttains(text, index + n, m, Wrapped(b1 + n), m2);
  }

  // ----- when a state is always better -----

  /** Whatever text follows, the first state leads to an encoding that is no longer. */
  ghost predicate AlwaysBetter(s: EncodingState, o: EncodingState, index: nat) {
    forall text: seq<byte> :: index <= |text| ==> Cheapest(s, text, index) <= Cheapest(o, text, index)
  }

  /** The pending bytes that the states of the search have. */
  predicate PossibleState(s: EncodingState) {
    Possible(s.mode, s.binaryShiftByteCount)
  }

  lemma OpenIsPossible(s: EncodingState, text: seq<byte>, index: nat)
    requires Open(s, text, index)
    ensures PossibleState(s)
  {
    hide Decodes, TokensBits, Fit;
  }

  /** The bits by which a state must be shorter to be better whatever follows. */
  function Margin(s: EncodingState, o: EncodingState): nat
    requires PossibleState(s) && PossibleState(o)
  {
    Gap(s.mode, o.mode) + Slack(s.binaryShiftByteCount, o.binaryShiftByteCount)
  }

  lemma CheapestWithin(s: EncodingState, o: EncodingState, text: seq<byte>, index: nat)
    requires index <= |text| && PossibleState(s) && PossibleState(o)
    ensures Cheapest(s, text, index) - s.bitCount <= Cheapest(o, text, index) - o.bitCount + Margin(s, o)
  {
    hide Gap, Cheapest, Needs, Slack;
    CheapestIs(s, text, index);
    CheapestIs(o, text, index);
    NeedsWithin(text, index, s.mode, s.binaryShiftByteCount, o.mode, o.binaryShiftByteCount);
  }

  lemma CheapestAttained(s: EncodingState, o: EncodingState, index: nat) returns (text: seq<byte>)
    requires PossibleState(s) && PossibleState(o)
    ensures index <= |text|
    ensures Cheapest(s, text, index) - s.bitCount == Cheapest(o, text, index) - o.bitCount + Margin(s, o)
  {
    hide Gap, Cheapest, Needs, Slack;
    text := MarginAttained(index, s.mode, s.binaryShiftByteCount, o.mode, o.binaryShiftByteCount);
    CheapestIs(s, text, index);
    CheapestIs(o, text, index);
    CheapestWithin(s, o, text, index);
  }

  /** A state is always better exactly when it is by gap and slack. */
  lemma AlwaysBetterExactly(s: EncodingState, o: EncodingState, index: nat)
    requires PossibleState(s) && PossibleState(o)
    ensures AlwaysBetter(s, o, index) <==> s.bitCount + Margin(s, o) <= o.bitCount
  {
    hide Cheapest, Margin, PossibleState;
    if s.bitCount + Margin(s, o) <= o.bitCount {
      forall text: seq<byte> | index <= |text|
        ensures Cheapest(s, text, index) <= Cheapest(o, text, index)
      {
        CheapestWithin(s, o, text, index);
      }
    } else {
      var text := CheapestAttained(s, o, index);
      assert Cheapest(s, text, index) > Cheapest(o, text, index);
    }
  }

  // ----- what the comparison of the program tells -----

  /** A shift from Digit is a bit shorter than from other modes, which the comparison does not see. */
  predicate LatchTells(from: Mode, to: Mode) {
    to != Digit || from == Digit || from == Punct
  }

  /** The handicap is for one more header; when the kept run fills up first it may need all of them again. */
  predicate HandicapTells(b1: nat, b2: nat) {
    b2 <= 31 || b1 <= b2 + 31
  }

  /** The handicap can be for a header that is never needed. */
  predicate HandicapTooLarge(b1: nat, b2: nat) {
    || (b1 < b2 && b2 - b1 > 2015)
    || (0 < b2 <= 31 < b1 <= 62 && b1 - b2 <= 31)
    || (0 < b2 <= 31 && 62 < b1 && b1 - b2 <= 62)
    || (31 < b2 <= 62 < b1 && b1 - b2 <= 31)
  }

  lemma GapIsLatch(from: Mode, to: Mode)
    ensures Gap(from, to) == LatchBits(from, to) <==> LatchTells(from, to)
    ensures LatchBits(from, to) <= Gap(from, to) <= LatchBits(from, to) + 7
  {
    hide LatchBits;
    LatchNumbers();
  }

  lemma SlackIsHandicap(s: EncodingState, o: EncodingState)
    requires PossibleState(s) && PossibleState(o)
    ensures var b1, b2 := s.binaryShiftByteCount, o.binaryShiftByteCount;
      && (Slack(b1, b2) <= BinaryShiftHandicap(s, o) <==> HandicapTells(b1, b2))
      && (Slack(b1, b2) < BinaryShiftHandicap(s, o) <==> HandicapTooLarge(b1, b2))
      && Slack(b1, b2) <= BinaryShiftHandicap(s, o) + 11
      && (b2 == 0 ==> Slack(b1, b2) == BinaryShiftHandicap(s, o))
  {
  }

  /** What the comparison asks for is the margin exactly, or less, or more. */
  lemma MarginIsCompared(s: EncodingState, o: EncodingState)
    requires PossibleState(s) && PossibleState(o)
    ensures var asked := LatchBits(s.mode, o.mode) + BinaryShiftHandicap(s, o);
      && (Margin(s, o) <= asked <==>
            LatchTells(s.mode, o.mode) && HandicapTells(s.binaryShiftByteCount, o.binaryShiftByteCount))
      && (Margin(s, o) < asked <==> HandicapTooLarge(s.binaryShiftByteCount, o.binaryShiftByteCount))
      && Margin(s, o) <= asked + 11
      && (HandicapTells(s.binaryShiftByteCount, o.binaryShiftByteCount) ==> Margin(s, o) <= asked + 7)
  {
    hide Gap, Slack, LatchBits, BinaryShiftHandicap, HandicapTells, HandicapTooLarge;
    GapIsLatch(s.mode, o.mode);
    SlackIsHandicap(s, o);
  }

  /** Two states with the modes and numbers of pending bytes in question. */
  predicate Pair(s: EncodingState, o: EncodingState, from: Mode, b1: nat, to: Mode, b2: nat) {
    s.mode == from && s.binaryShiftByteCount == b1 && o.mode == to && o.binaryShiftByteCount == b2
  }

  /**
   * The comparison of the program against what it is meant to tell: for two modes and two numbers of pending bytes it is
   * right about all states if and only if the dropped one is not in Digit or the kept one is in Digit or Punct, and
   * the dropped one has no more than 31 pending bytes or the kept one no more than 31 beyond them.
   */
  lemma BetterIsAlwaysBetter(from: Mode, b1: nat, to: Mode, b2: nat, index: nat)
    requires Possible(from, b1) && Possible(to, b2)
    ensures LatchTells(from, to) && HandicapTells(b1, b2) <==>
      (forall s, o :: Pair(s, o, from, b1, to, b2) && IsBetterThanOrEqualTo(s, o) ==> AlwaysBetter(s, o, index))
  {
    hide Margin, LatchBits, BinaryShiftHandicap, AlwaysBetter, LatchTells, HandicapTells, Possible;
    if LatchTells(from, to) && HandicapTells(b1, b2) {
      forall s, o | Pair(s, o, from, b1, to, b2) && IsBetterThanOrEqualTo(s, o)
        ensures AlwaysBetter(s, o, index)
      {
        MarginIsCompared(s, o);
        AlwaysBetterExactly(s, o, index);
      }
    } else {
      var s, o := Closest(from, b1, to, b2);
      MarginIsCompared(s, o);
      AlwaysBetterExactly(s, o, index);
    }
  }

  /** The two states of a kind that the comparison just accepts. */
  lemma Closest(from: Mode, b1: nat, to: Mode, b2: nat) returns (s: EncodingState, o: EncodingState)
    ensures Pair(s, o, from, b1, to, b2) && s.bitCount + LatchBits(from, to) + BinaryShiftHandicap(s, o) == o.bitCount
  {
    s := EncodingState([], from, b1, 0);
    o := EncodingState([], to, b2, 0);
    HandicapTriangle(s, o, o);
    o := o.(bitCount := LatchBits(from, to) + BinaryShiftHandicap(s, o));
  }

  /** The other way round: the comparison accepts every state that is always better, unless its handicap is too large. */
  lemma AlwaysBetterIsBetter(from: Mode, b1: nat, to: Mode, b2: nat, index: nat)
    requires Possible(from, b1) && Possible(to, b2)
    ensures !HandicapTooLarge(b1, b2) <==>
      (forall s, o :: Pair(s, o, from, b1, to, b2) && AlwaysBetter(s, o, index) ==> IsBetterThanOrEqualTo(s, o))
  {
    hide Gap, Slack, LatchBits, BinaryShiftHandicap, AlwaysBetter, LatchTells, HandicapTooLarge, HasBinary;
    if !HandicapTooLarge(b1, b2) {
      forall s, o | Pair(s, o, from, b1, to, b2) && AlwaysBetter(s, o, index)
        ensures IsBetterThanOrEqualTo(s, o)
      {
        MarginIsCompared(s, o);
        AlwaysBetterExactly(s, o, index);
      }
    } else {
      var s, o := EncodingState([], from, b1, 0), EncodingState([], to, b2, Gap(from, to) + Slack(b1, b2));
      MarginIsCompared(s, o);
      AlwaysBetterExactly(s, o, index);
    }
  }

  /** What one comparison loses is at most eleven bits, and seven where the handicap tells. */
  lemma BetterWithin(s: EncodingState, o: EncodingState, text: seq<byte>, index: nat)
    requires index <= |text| && PossibleState(s) && PossibleState(o) && IsBetterThanOrEqualTo(s, o)
    ensures Cheapest(s, text, index) <= Cheapest(o, text, index) + 11
    ensures HandicapTells(s.binaryShiftByteCount, o.binaryShiftByteCount) ==>
      Cheapest(s, text, index) <= Cheapest(o, text, index) + 7
  {
    hide Margin, LatchBits, BinaryShiftHandicap, Cheapest, HandicapTells, PossibleState;
    CheapestWithin(s, o, text, index);
    MarginIsCompared(s, o);
  }

  /** A run that is one byte short of full is kept, and 64 bytes more lose eleven bits. */
  lemma FullRunLoses(text: seq<byte>)
    requires |text| == 64 && NoCodes(text, 0, 64)
    ensures var s, o := EncodingState([], Upper, 2077, 0), EncodingState([], Upper, 100, 10);
      IsBetterThanOrEqualTo(s, o) && Cheapest(s, text, 0) == Cheapest(o, text, 0) + 11
  {
    hide Cheapest, Needs;
    var s, o := EncodingState([], Upper, 2077, 0), EncodingState([], Upper, 100, 10);
    CheapestIs(s, text, 0);
    CheapestIs(o, text, 0);
    NeedsRun(text, 0, 64, Upper, 2077);
    NeedsRun(text, 0, 64, Upper, 100);
    NeedsNothing(text, Upper, 63);
    NeedsNothing(text, Upper, 164);
    LatchTriangle(Upper, Upper, Upper);
  }
}
