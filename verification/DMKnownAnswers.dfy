/** Codewords that the repository's own tests expect (test/unit/datamatrix/DMHighLevelEncodeTest.cpp:95-172, 243-279). */
module DMKnownAnswers {
  import opened BitSources
  import opened DMC40
  import opened DMSegments
  import opened DMC40Encoder

  // ----- Base 256 -----

  /** The codewords behind the latch for AB E4 F6 FC E9 BB, to the end of the symbol, and the length fields of other texts. */
  lemma Base256Answers()
    ensures LengthField(6, true) == [0] && LengthField(7, false) == [7] && LengthField(276, false) == [250, 26]
    ensures Randomize255State(0, 2) == 44 && Randomize255State(0xAB, 3) % 256 == 108 && Randomize255State(0xE4, 4) % 256 == 59
    ensures Randomize255State(0xF6, 5) % 256 == 226 && Randomize255State(0xFC, 6) % 256 == 126
    ensures Randomize255State(0xE9, 7) % 256 == 1 && Randomize255State(0xBB, 8) % 256 == 104
    ensures Randomize255State(7, 2) == 51 && Randomize255State(250, 2) % 256 == 38 && Randomize255State(26, 3) == 219
  {
  }

  // ----- C40 -----

  /** "AIM" n times. */
  function Aims(n: nat): (s: seq<byte>)
    ensures |s| == 3 * n
  {
    if n == 0 then [] else Aims(n - 1) + [65, 73, 77]
  }

  /** The codewords 91, 11 n times. */
  function Pairs(n: nat): seq<byte> {
    if n == 0 then [] else Pairs(n - 1) + [91, 11]
  }

  lemma AimValues()
    ensures CharValues(C40, 65) == [14] && CharValues(C40, 73) == [22] && CharValues(C40, 77) == [26]
    ensures PackTriple(14, 22, 26) == [91, 11] && PackTriple(14, 22, 0) == [90, 241]
  {
  }

  lemma OneBehind(s: seq<byte>, c: byte)
    ensures TextValues(C40, s + [c]) == TextValues(C40, s) + CharValues(C40, c)
  {
    assert (s + [c])[..|s|] == s;
  }

  lemma AimBehind(s: seq<byte>)
    ensures TextValues(C40, s + [65, 73, 77]) == TextValues(C40, s) + [14, 22, 26]
  {
    hide CharValues, TextValues, PackTriple;
    AimValues();
    OneBehind(s, 65);
    OneBehind(s + [65], 73);
    OneBehind(s + [65] + [73], 77);
    assert s + [65] + [73] + [77] == s + [65, 73, 77];
    var v := TextValues(C40, s);
    assert v + [14] + [22] + [26] == v + [14, 22, 26];
  }

  /** Each "AIM" is the pair 91, 11. */
  lemma {:induction false} AimsArePairs(n: nat)
    ensures var v := TextValues(C40, Aims(n));
      |v| % 3 == 0 && Values(v) && Pack(v) == Pairs(n)
  {
    hide CharValues, TextValues, PackTriple, Pack;
    if n == 0 {
      NoAims();
    } else {
      AimsArePairs(n - 1);
      AimValues();
      AimBehind(Aims(n - 1));
      PackSnoc(TextValues(C40, Aims(n - 1)), [14, 22, 26]);
    }
  }

  lemma NoAims()
    ensures TextValues(C40, Aims(0)) == [] && Pack([]) == []
  {
  }

  /** "A1B2C3", and "aIm" and "{txt}" with the control character 4 in Text. */
  lemma OtherAnswers()
    ensures CharValues(C40, 49) == [5] && CharValues(C40, 50) == [6] && CharValues(C40, 66) == [15] && CharValues(C40, 67) == [16]
    ensures PackTriple(14, 5, 15) == [88, 88] && PackTriple(6, 16, 7) == [40, 8]
    ensures CharValues(TEXT, 97) == [14] && CharValues(TEXT, 73) == [2, 9] && PackTriple(14, 2, 9) == [87, 218]
    ensures CharValues(TEXT, 123) == [2, 27] && CharValues(TEXT, 116) == [33] && CharValues(TEXT, 120) == [37]
    ensures CharValues(TEXT, 125) == [2, 29] && CharValues(TEXT, 4) == [0, 4]
    ensures PackTriple(2, 27, 33) == [16, 218] && PackTriple(37, 33, 2) == [236, 107] && PackTriple(29, 0, 4) == [181, 69]
  {
  }
}
