/** Bits that the repository's own tests expect (test/unit/aztec/AZHighLevelEncoderTest.cpp:50-61). */
module AztecKnownAnswers {
  import opened Bits
  import opened BitArrays
  import opened AztecDecoder

  /** Codes in the order in which they are sent, each with its number of bits. */
  function CodeBits(codes: seq<(nat, nat)>): Bitstring {
    if |codes| == 0 then [] else CodeBits(codes[..|codes| - 1]) + ToBits(codes[|codes| - 1].0, codes[|codes| - 1].1)
  }

  ghost predicate Reads(codes: seq<(nat, nat)>, text: seq<byte>, m: Table) {
    Decodes(CodeBits(codes), Upper, text, m)
  }

  lemma Nothing()
    ensures Reads([], [], Upper)
  {
    DecodesNil(Upper);
  }

  lemma Behind(codes: seq<(nat, nat)>, text: seq<byte>, m: Table, more: Bitstring, c: seq<(nat, nat)>, t: seq<byte>, m': Table)
    requires Reads(codes, text, m) && Decodes(more, m, t, m') && CodeBits(codes + c) == CodeBits(codes) + more
    ensures Reads(codes + c, text + t, m')
  {
    DecodesTrans(CodeBits(codes), Upper, text, m, more, t, m');
  }

  lemma OneCode(codes: seq<(nat, nat)>, c: (nat, nat))
    ensures CodeBits(codes + [c]) == CodeBits(codes) + ToBits(c.0, c.1)
  {
    assert (codes + [c])[..|codes|] == codes;
  }

  lemma TwoCodes(codes: seq<(nat, nat)>, c: (nat, nat), d: (nat, nat))
    ensures CodeBits(codes + [c, d]) == CodeBits(codes) + (ToBits(c.0, c.1) + ToBits(d.0, d.1))
  {
    OneCode(codes, c);
    OneCode(codes + [c], d);
    assert codes + [c] + [d] == codes + [c, d];
    assert (CodeBits(codes) + ToBits(c.0, c.1)) + ToBits(d.0, d.1) == CodeBits(codes) + (ToBits(c.0, c.1) + ToBits(d.0, d.1));
  }

  lemma WithText(codes: seq<(nat, nat)>, text: seq<byte>, m: Table, code: nat, t: seq<byte>)
    requires Reads(codes, text, m) && m != Binary && code < Pow2(CodeSize(m)) && GetCharacter(m, code) == Text(t)
    ensures Reads(codes + [(code, CodeSize(m))], text + t, m)
  {
    hide DecodeBits, GetCharacter, Pow2, CodeBits, Decodes;
    DecodesText(m, code, t);
    OneCode(codes, (code, CodeSize(m)));
    Behind(codes, text, m, ToBits(code, CodeSize(m)), [(code, CodeSize(m))], t, m);
  }

  lemma WithLatch(codes: seq<(nat, nat)>, text: seq<byte>, m: Table, code: nat, m': Table)
    requires Reads(codes, text, m) && m != Binary && code < Pow2(CodeSize(m)) && GetCharacter(m, code) == Ctrl(m', true)
    ensures Reads(codes + [(code, CodeSize(m))], text, m')
  {
    hide DecodeBits, GetCharacter, Pow2, CodeBits, Decodes;
    DecodesLatch(m, code, m');
    OneCode(codes, (code, CodeSize(m)));
    Behind(codes, text, m, ToBits(code, CodeSize(m)), [(code, CodeSize(m))], [], m');
    assert text + [] == text;
  }

  lemma WithShift(codes: seq<(nat, nat)>, text: seq<byte>, m: Table, shift: nat, m': Table, code: nat, t: seq<byte>)
    requires Reads(codes, text, m) && m != Binary && m' != Binary && shift < Pow2(CodeSize(m)) && code < Pow2(CodeSize(m'))
    requires GetCharacter(m, shift) == Ctrl(m', false) && GetCharacter(m', code) == Text(t)
    ensures Reads(codes + [(shift, CodeSize(m)), (code, CodeSize(m'))], text + t, m)
  {
    hide DecodeBits, GetCharacter, Pow2, CodeBits, Decodes;
    DecodesShift(m, shift, m', code, t);
    TwoCodes(codes, (shift, CodeSize(m)), (code, CodeSize(m')));
    Behind(codes, text, m, ToBits(shift, CodeSize(m)) + ToBits(code, CodeSize(m')),
           [(shift, CodeSize(m)), (code, CodeSize(m'))], t, m);
  }

  lemma Entries()
    ensures Pow2(4) == 16 && Pow2(5) == 32
    ensures GetCharacter(Upper, 2) == Text([65]) && GetCharacter(Upper, 13) == Text([76])
    ensures GetCharacter(Upper, 0) == Ctrl(Punct, false) && GetCharacter(Punct, 3) == Text([46, 32])
    ensures GetCharacter(Upper, 28) == Ctrl(Lower, true) && GetCharacter(Lower, 3) == Text([98]) && GetCharacter(Lower, 16) == Text([111])
    ensures GetCharacter(Lower, 30) == Ctrl(Digit, true) && GetCharacter(Digit, 13) == Text([46])
    ensures GetCharacter(Digit, 14) == Ctrl(Upper, true) && GetCharacter(Lower, 25) == Text([120])
  {
    SmallPowers();
  }

  /** "A. b." is A, P/S, ". ", L/L, b, D/L, "." */
  lemma AnswerAb()
    ensures Reads([(2, 5), (0, 5), (3, 5), (28, 5), (3, 5), (30, 5), (13, 4)], [65, 46, 32, 98, 46], Digit)
  {
    hide Reads, GetCharacter, Pow2;
    Entries();
    Nothing();
    var c: seq<(nat, nat)>, t: seq<byte> := [], [];
    WithText(c, t, Upper, 2, [65]);
    c, t := c + [(2, 5)], t + [65];
    WithShift(c, t, Upper, 0, Punct, 3, [46, 32]);
    c, t := c + [(0, 5), (3, 5)], t + [46, 32];
    WithLatch(c, t, Upper, 28, Lower);
    c := c + [(28, 5)];
    WithText(c, t, Lower, 3, [98]);
    c, t := c + [(3, 5)], t + [98];
    WithLatch(c, t, Lower, 30, Digit);
    c := c + [(30, 5)];
    WithText(c, t, Digit, 13, [46]);
    c, t := c + [(13, 4)], t + [46];
    assert c == [(2, 5), (0, 5), (3, 5), (28, 5), (3, 5), (30, 5), (13, 4)] && t == [65, 46, 32, 98, 46];
  }

  /** "Lo...x" is L, L/L, o, D/L, three times ".", U/L, L/L, x. */
  lemma AnswerLox()
    ensures Reads([(13, 5), (28, 5), (16, 5), (30, 5), (13, 4), (13, 4), (13, 4), (14, 4), (28, 5), (25, 5)],
                  [76, 111, 46, 46, 46, 120], Lower)
  {
    hide Reads, GetCharacter, Pow2;
    Entries();
    Nothing();
    var c: seq<(nat, nat)>, t: seq<byte> := [], [];
    WithText(c, t, Upper, 13, [76]);
    c, t := c + [(13, 5)], t + [76];
    WithLatch(c, t, Upper, 28, Lower);
    c := c + [(28, 5)];
    WithText(c, t, Lower, 16, [111]);
    c, t := c + [(16, 5)], t + [111];
    WithLatch(c, t, Lower, 30, Digit);
    c := c + [(30, 5)];
    WithText(c, t, Digit, 13, [46]);
    c, t := c + [(13, 4)], t + [46];
    WithText(c, t, Digit, 13, [46]);
    c, t := c + [(13, 4)], t + [46];
    WithText(c, t, Digit, 13, [46]);
    c, t := c + [(13, 4)], t + [46];
    WithLatch(c, t, Digit, 14, Upper);
    c := c + [(14, 4)];
    WithLatch(c, t, Upper, 28, Lower);
    c := c + [(28, 5)];
    WithText(c, t, Lower, 25, [120]);
    c, t := c + [(25, 5)], t + [120];
    assert c == [(13, 5), (28, 5), (16, 5), (30, 5), (13, 4), (13, 4), (13, 4), (14, 4), (28, 5), (25, 5)];
    assert t == [76, 111, 46, 46, 46, 120];
  }
}
