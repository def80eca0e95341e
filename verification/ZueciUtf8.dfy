/** The table-driven UTF-8 decoder of libzueci and the grammar of RFC 3629, section 4 (core/src/libzueci/zueci.c:37-129). */
module ZueciUtf8 {

  type byte = b: nat | b < 256

  // ----- the automaton -----

  /** First part of the table: the class of a byte. */
  function Class(b: byte): nat {
    if b < 0x80 then 0
    else if b < 0x90 then 1
    else if b < 0xA0 then 9
    else if b < 0xC0 then 7
    else if b < 0xC2 then 8
    else if b < 0xE0 then 2
    else if b == 0xE0 then 10
    else if b == 0xED then 4
    else if b < 0xF0 then 3
    else if b == 0xF0 then 11
    else if b < 0xF4 then 6
    else if b == 0xF4 then 5
    else 8
  }

  const ERROR := 12

  /** Second part of the table: the next state; 0 means done, 12 an error. */
  function Transition(state: nat, type_: nat): nat {
    if state == 0 then
      if type_ == 0 then 0 else if type_ == 2 then 24 else if type_ == 3 then 36 else if type_ == 4 then 60
      else if type_ == 5 then 96 else if type_ == 6 then 84 else if type_ == 10 then 48 else if type_ == 11 then 72
      else ERROR
    else if state == 24 && type_ in {1, 7, 9} then 0
    else if state == 36 && type_ in {1, 7, 9} then 24
    else if state == 48 && type_ == 7 then 24
    else if state == 60 && type_ in {1, 9} then 24
    else if state == 72 && type_ in {7, 9} then 36
    else if state == 84 && type_ in {1, 7, 9} then 36
    else if state == 96 && type_ == 1 then 36
    else ERROR
  }

  /** The bits of a first byte that belong to the code point: those below the mask 0xff >> class. */
  function LeadBits(b: byte): nat {
    match Class(b)
    case 0 => b
    case 2 => b % 0x40
    case 3 => b % 0x20
    case 4 => b % 0x10
    case 5 => b % 8
    case 6 => b % 4
    case 1 => b % 0x80
    case 7 => b % 2
    case _ => 0
  }

  /** State and code point after one more byte. */
  function Decode(state: nat, u: nat, b: byte): (nat, nat) {
    (Transition(state, Class(b)), if state != 0 then u * 64 + b % 64 else LeadBits(b))
  }

  /** The decoding loop: at least one byte, up to the end of a character, an error or the end of the source. */
  function ReadChar(src: seq<byte>, state: nat, u: nat): (r: (nat, nat, nat))
    requires |src| > 0
    ensures 1 <= r.0 <= |src|
  {
    var (s, v) := Decode(state, u, src[0]);
    if |src| == 1 || s == 0 || s == ERROR then (1, s, v)
    else
      var (n, s', v') := ReadChar(src[1..], s, v);
      (1 + n, s', v')
  }

  /** The state after all bytes. */
  function Run(src: seq<byte>, state: nat): nat {
    if |src| == 0 then state else Run(src[1..], Transition(state, Class(src[0])))
  }

  // ----- the grammar -----

  predicate IsTail(b: byte) {
    0x80 <= b <= 0xBF
  }

  /** Bytes of the character that a string begins with, 0 when it does not begin with one. */
  function CharLength(s: seq<byte>): (n: nat)
    ensures n <= |s| && n <= 4
  {
    if |s| >= 1 && s[0] <= 0x7F then 1
    else if |s| >= 2 && 0xC2 <= s[0] <= 0xDF && IsTail(s[1]) then 2
    else if |s| >= 3 && IsThree(s[0], s[1]) && IsTail(s[2]) then 3
    else if |s| >= 4 && IsFour(s[0], s[1]) && IsTail(s[2]) && IsTail(s[3]) then 4
    else 0
  }

  predicate IsThree(a: byte, b: byte) {
    || (a == 0xE0 && 0xA0 <= b <= 0xBF)
    || (0xE1 <= a <= 0xEC && IsTail(b))
    || (a == 0xED && 0x80 <= b <= 0x9F)
    || (0xEE <= a <= 0xEF && IsTail(b))
  }

  predicate IsFour(a: byte, b: byte) {
    || (a == 0xF0 && 0x90 <= b <= 0xBF)
    || (0xF1 <= a <= 0xF3 && IsTail(b))
    || (a == 0xF4 && 0x80 <= b <= 0x8F)
  }

  predicate ValidUtf8(s: seq<byte>) {
    |s| == 0 || (CharLength(s) > 0 && ValidUtf8(s[CharLength(s)..]))
  }

  /** Unicode scalar values: no surrogates, at most U+10FFFF. */
  predicate IsScalar(u: int) {
    0 <= u <= 0x10FFFF && !(0xD800 <= u <= 0xDFFF)
  }

  // ----- encoding -----

  function EncodeUtf8(u: nat): (r: seq<byte>)
    requires u <= 0x10FFFF
    ensures |r| == EncodedLength(u)
  {
    if u < 0x80 then [u]
    else if u < 0x800 then [0xC0 + u / 64, 0x80 + u % 64]
    else if u < 0x10000 then [0xE0 + u / 4096, 0x80 + u / 64 % 64, 0x80 + u % 64]
    else [0xF0 + u / 262144, 0x80 + u / 4096 % 64, 0x80 + u / 64 % 64, 0x80 + u % 64]
  }

  /** The length as the pre-pass adds it up. */
  function EncodedLength(u: nat): (n: nat)
    ensures 1 <= n <= 4
  {
    1 + (if u >= 0x80 then 1 else 0) + (if u >= 0x800 then 1 else 0) + (if u >= 0x10000 then 1 else 0)
  }

  // ----- automaton and grammar agree -----

  /** Bytes that complete a character from a state, 0 when the source does not begin with them. */
  ghost function Rest(state: nat, s: seq<byte>): nat {
    if state == 24 then if |s| >= 1 && IsTail(s[0]) then 1 else 0
    else if state == 36 then if |s| >= 2 && IsTail(s[0]) && IsTail(s[1]) then 2 else 0
    else if state == 48 then if |s| >= 2 && 0xA0 <= s[0] <= 0xBF && IsTail(s[1]) then 2 else 0
    else if state == 60 then if |s| >= 2 && 0x80 <= s[0] <= 0x9F && IsTail(s[1]) then 2 else 0
    else if state == 72 then if |s| >= 3 && 0x90 <= s[0] <= 0xBF && IsTail(s[1]) && IsTail(s[2]) then 3 else 0
    else if state == 84 then if |s| >= 3 && IsTail(s[0]) && IsTail(s[1]) && IsTail(s[2]) then 3 else 0
    else if state == 96 then if |s| >= 3 && 0x80 <= s[0] <= 0x8F && IsTail(s[1]) && IsTail(s[2]) then 3 else 0
    else 0
  }

  /** The code point completed by n tail bytes. */
  ghost function Completed(u: nat, s: seq<byte>, n: nat): nat
    requires n <= |s|
    decreases n
  {
    if n == 0 then u else Completed(u * 64 + s[0] % 64, s[1..], n - 1)
  }

  predicate IsInner(state: nat) {
    state in {24, 36, 48, 60, 72, 84, 96}
  }

  lemma StepTail(state: nat, b: byte)
    requires IsInner(state)
    ensures var next := Transition(state, Class(b));
      next == 0 || next == ERROR || next == 24 || next == 36
    ensures Transition(state, Class(b)) == 0 <==> state == 24 && IsTail(b)
    ensures Transition(state, Class(b)) == 24 <==>
      (state == 36 && IsTail(b)) || (state == 48 && 0xA0 <= b <= 0xBF) || (state == 60 && 0x80 <= b <= 0x9F)
    ensures Transition(state, Class(b)) == 36 <==>
      (state == 72 && 0x90 <= b <= 0xBF) || (state == 84 && IsTail(b)) || (state == 96 && 0x80 <= b <= 0x8F)
  {
  }

  /** Inside a character the automaton completes exactly the strings of the grammar. */
  lemma {:induction false} ReadRest(s: seq<byte>, state: nat, u: nat)
    requires IsInner(state) && |s| > 0
    ensures Rest(state, s) <= |s|
    ensures var (n, state', u') := ReadChar(s, state, u);
      && (state' == 0 <==> Rest(state, s) > 0)
      && (state' == 0 ==> n == Rest(state, s) && u' == Completed(u, s, n))
      && (state' != 0 && state' != ERROR ==> n == |s|)
    decreases |s|
  {
    hide Class, Transition;
    StepTail(state, s[0]);
    var next := Transition(state, Class(s[0]));
    if |s| > 1 && next != 0 && next != ERROR {
      ReadRest(s[1..], next, u * 64 + s[0] % 64);
    }
  }

  lemma FirstByte(b: byte)
    ensures var state := Transition(0, Class(b));
      && (state == 0 <==> b < 0x80)
      && (state == 24 <==> 0xC2 <= b <= 0xDF)
      && (state == 36 <==> 0xE1 <= b <= 0xEF && b != 0xED)
      && (state == 48 <==> b == 0xE0)
      && (state == 60 <==> b == 0xED)
      && (state == 72 <==> b == 0xF0)
      && (state == 84 <==> 0xF1 <= b <= 0xF3)
      && (state == 96 <==> b == 0xF4)
      && (state == 0 || state == ERROR || IsInner(state))
  {
  }

  /** The code point of a character of the grammar. */
  ghost function CodePoint(s: seq<byte>): nat
    requires CharLength(s) > 0
  {
    Completed(LeadBits(s[0]), s[1..], CharLength(s) - 1)
  }

  /** Read from the start, the loop finds exactly the characters of the grammar, with their lengths and code points. */
  lemma ReadCharGrammar(s: seq<byte>)
    requires |s| > 0
    ensures var (n, state, u) := ReadChar(s, 0, 0);
      && (state == 0 <==> CharLength(s) > 0)
      && (state == 0 ==> n == CharLength(s) && u == CodePoint(s))
      && (state != 0 && state != ERROR ==> n == |s|)
  {
    hide Class, Transition, LeadBits;
    FirstByte(s[0]);
    var next := Transition(0, Class(s[0]));
    if next != 0 && next != ERROR && |s| > 1 {
      ReadRest(s[1..], next, LeadBits(s[0]));
    }
  }

  lemma {:induction false} RunError(s: seq<byte>)
    ensures Run(s, ERROR) == ERROR
    decreases |s|
  {
    if |s| > 0 {
      ErrorStays(s[0]);
      RunError(s[1..]);
    }
  }

  lemma ErrorStays(b: byte)
    ensures Transition(ERROR, Class(b)) == ERROR
  {
  }

  /** Running on is reading a character and running on from where it ends. */
  lemma {:induction false} RunReads(s: seq<byte>, state: nat, u: nat)
    requires |s| > 0
    ensures var (n, state', _) := ReadChar(s, state, u); Run(s, state) == Run(s[n..], state')
    decreases |s|
  {
    hide Class, Transition;
    var (next, v) := Decode(state, u, s[0]);
    if !(|s| == 1 || next == 0 || next == ERROR) {
      RunReads(s[1..], next, v);
      var (n, _, _) := ReadChar(s[1..], next, v);
      assert s[1..][n..] == s[1 + n..];
    }
  }

  /** The automaton accepts exactly the byte strings of the grammar. */
  lemma {:induction false} AcceptsGrammar(s: seq<byte>)
    ensures Run(s, 0) == 0 <==> ValidUtf8(s)
    decreases |s|
  {
    hide ReadChar;
    if |s| > 0 {
      var (n, state, u) := ReadChar(s, 0, 0);
      RunReads(s, 0, 0);
      ReadCharGrammar(s);
      if state == 0 {
        AcceptsGrammar(s[n..]);
      } else if state == ERROR {
        RunError(s[n..]);
      }
    }
  }

  /** Up to three digits to the base 64 behind a leading one. */
  lemma Digits(a: nat, b: nat, c: nat, d: nat)
    requires b < 64 && c < 64 && d < 64
    ensures (a * 64 + b) / 64 == a && (a * 64 + b) % 64 == b
    ensures var u := (a * 64 + b) * 64 + c; u / 4096 == a && u / 64 % 64 == b && u % 64 == c
    ensures var u := ((a * 64 + b) * 64 + c) * 64 + d;
      u / 262144 == a && u / 4096 % 64 == b && u / 64 % 64 == c && u % 64 == d
  {
    var u, v := (a * 64 + b) * 64 + c, ((a * 64 + b) * 64 + c) * 64 + d;
    assert u / 64 == a * 64 + b && v / 64 == u && v / 4096 == a * 64 + b;
  }

  function Value2(a: int, b: int): int {
    (a - 0xC0) * 64 + (b - 0x80)
  }

  function Value3(a: int, b: int, c: int): int {
    ((a - 0xE0) * 64 + (b - 0x80)) * 64 + (c - 0x80)
  }

  function Value4(a: int, b: int, c: int, d: int): int {
    (((a - 0xF0) * 64 + (b - 0x80)) * 64 + (c - 0x80)) * 64 + (d - 0x80)
  }

  /** Code points by number of bytes. */
  lemma CodePointForm(s: seq<byte>)
    requires CharLength(s) > 0
    ensures CharLength(s) == 1 ==> s[0] < 0x80 && CodePoint(s) == s[0]
    ensures CharLength(s) == 2 ==> 0xC2 <= s[0] <= 0xDF && IsTail(s[1]) && CodePoint(s) == Value2(s[0], s[1])
    ensures CharLength(s) == 3 ==>
      IsThree(s[0], s[1]) && IsTail(s[2]) && CodePoint(s) == Value3(s[0], s[1], s[2])
    ensures CharLength(s) == 4 ==>
      IsFour(s[0], s[1]) && IsTail(s[2]) && IsTail(s[3]) && CodePoint(s) == Value4(s[0], s[1], s[2], s[3])
  {
    var n, u, t := CharLength(s), LeadBits(s[0]), s[1..];
    LeadForm(s[0]);
    assert CodePoint(s) == Completed(u, t, n - 1);
    hide LeadBits, Completed, CodePoint;
    CompletedForm(u, t, n - 1);
    TailBits(s);
  }

  lemma TailBits(s: seq<byte>)
    ensures forall i :: 0 <= i < |s| && IsTail(s[i]) ==> s[i] % 64 == s[i] - 0x80
  {
  }

  lemma CompletedForm(u: nat, t: seq<byte>, n: nat)
    requires n <= |t| && n <= 3
    ensures n == 0 ==> Completed(u, t, n) == u
    ensures n == 1 ==> Completed(u, t, n) == u * 64 + t[0] % 64
    ensures n == 2 ==> Completed(u, t, n) == (u * 64 + t[0] % 64) * 64 + t[1] % 64
    ensures n == 3 ==> Completed(u, t, n) == ((u * 64 + t[0] % 64) * 64 + t[1] % 64) * 64 + t[2] % 64
    decreases n
  {
    if n > 0 {
      CompletedForm(u * 64 + t[0] % 64, t[1..], n - 1);
    }
  }

  lemma LeadForm(b: byte)
    ensures b < 0x80 ==> LeadBits(b) == b
    ensures 0xC2 <= b < 0xE0 ==> LeadBits(b) == b - 0xC0
    ensures 0xE0 <= b < 0xF0 ==> LeadBits(b) == b - 0xE0
    ensures 0xF0 <= b <= 0xF4 ==> LeadBits(b) == b - 0xF0
  {
  }

  lemma TwoBytes(a: byte, b: byte)
    requires 0xC2 <= a <= 0xDF && IsTail(b)
    ensures 0x80 <= Value2(a, b) < 0x800 && EncodeUtf8(Value2(a, b)) == [a, b]
  {
    Digits(a - 0xC0, b - 0x80, 0, 0);
  }

  lemma ThreeBytes(a: byte, b: byte, c: byte)
    requires IsThree(a, b) && IsTail(c)
    ensures 0x800 <= Value3(a, b, c) < 0x10000 && IsScalar(Value3(a, b, c)) && EncodeUtf8(Value3(a, b, c)) == [a, b, c]
  {
    Digits(a - 0xE0, b - 0x80, c - 0x80, 0);
  }

  lemma FourBytes(a: byte, b: byte, c: byte, d: byte)
    requires IsFour(a, b) && IsTail(c) && IsTail(d)
    ensures 0x10000 <= Value4(a, b, c, d) <= 0x10FFFF && EncodeUtf8(Value4(a, b, c, d)) == [a, b, c, d]
  {
    hide EncodeUtf8;
    var u := Value4(a, b, c, d);
    assert 0x10000 <= u <= 0x10FFFF;
    Digits(a - 0xF0, b - 0x80, c - 0x80, d - 0x80);
    EncodeFour(u);
  }

  lemma EncodeFour(u: nat)
    requires 0x10000 <= u <= 0x10FFFF
    ensures u / 262144 <= 4
    ensures EncodeUtf8(u) == [0xF0 + u / 262144, 0x80 + u / 4096 % 64, 0x80 + u / 64 % 64, 0x80 + u % 64]
  {
  }

  /** A character of the grammar has a scalar value, whose encoding is the character. */
  lemma EncodeDecoded(s: seq<byte>)
    requires CharLength(s) > 0
    ensures IsScalar(CodePoint(s)) && EncodeUtf8(CodePoint(s)) == s[..CharLength(s)]
  {
    var n := CharLength(s);
    CodePointForm(s);
    hide CodePoint, CharLength, IsThree, IsFour, Value2, Value3, Value4;
    if n == 2 {
      TwoBytes(s[0], s[1]);
      assert s[..2] == [s[0], s[1]];
    } else if n == 3 {
      ThreeBytes(s[0], s[1], s[2]);
      assert s[..3] == [s[0], s[1], s[2]];
    } else if n == 4 {
      FourBytes(s[0], s[1], s[2], s[3]);
      assert s[..4] == [s[0], s[1], s[2], s[3]];
    }
  }

  /** The bytes of an encoding satisfy the grammar and have the value. */
  lemma EncodedBytes(u: nat)
    requires IsScalar(u)
    ensures var e := EncodeUtf8(u);
      && (|e| == 1 ==> e[0] < 0x80 && u == e[0])
      && (|e| == 2 ==> 0xC2 <= e[0] <= 0xDF && IsTail(e[1]) && u == Value2(e[0], e[1]))
      && (|e| == 3 ==> IsThree(e[0], e[1]) && IsTail(e[2]) && u == Value3(e[0], e[1], e[2]))
      && (|e| == 4 ==> IsFour(e[0], e[1]) && IsTail(e[2]) && IsTail(e[3]) && u == Value4(e[0], e[1], e[2], e[3]))
  {
    if u >= 0x10000 {
      assert u / 64 == u / 4096 * 64 + u / 64 % 64 && u / 4096 == u / 262144 * 64 + u / 4096 % 64;
    } else if u >= 0x800 {
      assert u / 64 == u / 4096 * 64 + u / 64 % 64;
    }
  }

  /** The encoding of a scalar value is a character of the grammar with that value. */
  lemma DecodeEncoded(u: nat, rest: seq<byte>)
    requires IsScalar(u)
    ensures CharLength(EncodeUtf8(u) + rest) == |EncodeUtf8(u)| && CodePoint(EncodeUtf8(u) + rest) == u
  {
    hide EncodeUtf8, CodePoint, Value2, Value3, Value4;
    EncodedBytes(u);
    var s, e := EncodeUtf8(u) + rest, EncodeUtf8(u);
    assert forall i :: 0 <= i < |e| ==> s[i] == e[i];
    CodePointForm(s);
  }
}
