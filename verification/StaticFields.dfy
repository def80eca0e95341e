/** The static fields of the program are fields: their polynomials are primitive (core/src/GenericGF.cpp:11-65). */
module StaticFields {
  import opened Bits
  import opened GenericGFs
  import opened FieldOrder
  import opened PrimitivePolynomials

  // ----- x^4 + x + 1 -----

  const F4 := Candidate(0x13, 0x10, 4,
    [0x1, 0x4, 0x3, 0xc, 0x5, 0x7, 0xf, 0x9, 0x2, 0x8, 0x6, 0xb, 0xa],
    [3, 5], [5, 3])

  lemma Table4()
    ensures IsTable(0x13, 0x10, F4.squares)
  {
  }

  lemma Checked4()
    ensures F4.Checked()
  {
    Table4();
    hide IsTable;
    IsChecked(F4);
  }

  lemma Ordered4()
    ensures F4.Ordered() && Number(0x13, 5) == 0x13 && Pow2(4) == 16
  {
    SmallPowers();
    SmallPrimes(3); SmallPrimes(5);
  }

  lemma Powers4()
    ensures F4.Power(16) == 0x2 && F4.Power(5) == 0x6 && F4.Power(3) == 0x8
  {
    Checked4();
    hide Candidate.Checked, Candidate.Power;
    First(F4);
    Step(F4, 1, 0x2); Step(F4, 2, 0x4); Step(F4, 4, 0x3); Step(F4, 8, 0x5);
  }

  lemma Cycles4()
    ensures Cycles(0x13, 0x10)
  {
    hide Candidate.Checked, Candidate.Ordered, Candidate.Power, Pow2, Number, Cycles;
    Checked4();
    Ordered4();
    Powers4();
    First(F4);
    Primitive(F4);
  }

  // ----- x^6 + x + 1 -----

  const F6 := Candidate(0x43, 0x40, 6,
    [0x1, 0x4, 0x10, 0x3, 0xc, 0x30, 0x5, 0x14, 0x13, 0xf, 0x3c, 0x35, 0x11],
    [3, 3, 7], [21, 21, 9])

  lemma Table6()
    ensures IsTable(0x43, 0x40, F6.squares)
  {
  }

  lemma Checked6()
    ensures F6.Checked()
  {
    Table6();
    hide IsTable;
    IsChecked(F6);
  }

  lemma Ordered6()
    ensures F6.Ordered() && Number(0x43, 7) == 0x43 && Pow2(6) == 64
  {
    SmallPowers();
    SmallPrimes(3); SmallPrimes(7);
  }

  lemma Powers6()
    ensures F6.Power(64) == 0x2 && F6.Power(21) == 0x3b && F6.Power(9) == 0x18
  {
    Checked6();
    hide Candidate.Checked, Candidate.Power;
    First(F6);
    Step(F6, 1, 0x2); Step(F6, 2, 0x4); Step(F6, 4, 0x10); Step(F6, 5, 0x20);
    Step(F6, 8, 0xc); Step(F6, 10, 0x30); Step(F6, 16, 0x13); Step(F6, 32, 0x9);
  }

  lemma Cycles6()
    ensures Cycles(0x43, 0x40)
  {
    hide Candidate.Checked, Candidate.Ordered, Candidate.Power, Pow2, Number, Cycles;
    Checked6();
    Ordered6();
    Powers6();
    First(F6);
    Primitive(F6);
  }

  // ----- x^8 + x^5 + x^3 + x^2 + 1 -----

  const F8 := Candidate(0x12d, 0x100, 8,
    [0x1, 0x4, 0x10, 0x40, 0x2d, 0xb4, 0x8a, 0x72, 0xe5, 0xe3, 0xfb, 0x9b, 0x36],
    [3, 5, 17], [85, 51, 15])

  lemma Table8()
    ensures IsTable(0x12d, 0x100, F8.squares)
  {
  }

  lemma Checked8()
    ensures F8.Checked()
  {
    Table8();
    hide IsTable;
    IsChecked(F8);
  }

  lemma Ordered8()
    ensures F8.Ordered() && Number(0x12d, 9) == 0x12d && Pow2(8) == 256
  {
    SmallPowers();
    SmallPrimes(3); SmallPrimes(5); SmallPrimes(17);
  }

  lemma Powers8()
    ensures F8.Power(256) == 0x2 && F8.Power(85) == 0xbe && F8.Power(51) == 0xdc
    ensures F8.Power(15) == 0xe4
  {
    Checked8();
    hide Candidate.Checked, Candidate.Power;
    First(F8);
    Step(F8, 1, 0x2); Step(F8, 2, 0x4); Step(F8, 3, 0x8); Step(F8, 4, 0x10);
    Step(F8, 5, 0x20); Step(F8, 6, 0x40); Step(F8, 7, 0x80); Step(F8, 8, 0x2d);
    Step(F8, 10, 0xb4); Step(F8, 12, 0x8a); Step(F8, 16, 0xe5); Step(F8, 21, 0xdb);
    Step(F8, 25, 0x6c); Step(F8, 32, 0x5d); Step(F8, 42, 0x90); Step(F8, 64, 0xf6);
    Step(F8, 128, 0x75);
  }

  lemma Cycles8()
    ensures Cycles(0x12d, 0x100)
  {
    hide Candidate.Checked, Candidate.Ordered, Candidate.Power, Pow2, Number, Cycles;
    Checked8();
    Ordered8();
    Powers8();
    First(F8);
    Primitive(F8);
  }

  // ----- x^8 + x^4 + x^3 + x^2 + 1 -----

  const FQR := Candidate(0x11d, 0x100, 8,
    [0x1, 0x4, 0x10, 0x40, 0x1d, 0x74, 0xcd, 0x13, 0x4c, 0x2d, 0xb4, 0xea, 0x8f],
    [3, 5, 17], [85, 51, 15])

  lemma TableQR()
    ensures IsTable(0x11d, 0x100, FQR.squares)
  {
  }

  lemma CheckedQR()
    ensures FQR.Checked()
  {
    TableQR();
    hide IsTable;
    IsChecked(FQR);
  }

  lemma OrderedQR()
    ensures FQR.Ordered() && Number(0x11d, 9) == 0x11d && Pow2(8) == 256
  {
    SmallPowers();
    SmallPrimes(3); SmallPrimes(5); SmallPrimes(17);
  }

  lemma PowersQR()
    ensures FQR.Power(256) == 0x2 && FQR.Power(85) == 0xd6 && FQR.Power(51) == 0xa
    ensures FQR.Power(15) == 0x26
  {
    CheckedQR();
    hide Candidate.Checked, Candidate.Power;
    First(FQR);
    Step(FQR, 1, 0x2); Step(FQR, 2, 0x4); Step(FQR, 3, 0x8); Step(FQR, 4, 0x10);
    Step(FQR, 5, 0x20); Step(FQR, 6, 0x40); Step(FQR, 7, 0x80); Step(FQR, 8, 0x1d);
    Step(FQR, 10, 0x74); Step(FQR, 12, 0xcd); Step(FQR, 16, 0x4c); Step(FQR, 21, 0x75);
    Step(FQR, 25, 0x3); Step(FQR, 32, 0x9d); Step(FQR, 42, 0xb5); Step(FQR, 64, 0x5f);
    Step(FQR, 128, 0x85);
  }

  lemma CyclesQR()
    ensures Cycles(0x11d, 0x100)
  {
    hide Candidate.Checked, Candidate.Ordered, Candidate.Power, Pow2, Number, Cycles;
    CheckedQR();
    OrderedQR();
    PowersQR();
    First(FQR);
    Primitive(FQR);
  }

  // ----- x^10 + x^3 + 1 -----

  const F10 := Candidate(0x409, 0x400, 10,
    [0x1, 0x4, 0x10, 0x40, 0x100, 0x9, 0x24, 0x90, 0x240, 0x112, 0x41, 0x104, 0x19],
    [3, 11, 31], [341, 93, 33])

  lemma Table10()
    ensures IsTable(0x409, 0x400, F10.squares)
  {
  }

  lemma Checked10()
    ensures F10.Checked()
  {
    Table10();
    hide IsTable;
    IsChecked(F10);
  }

  lemma Ordered10()
    ensures F10.Ordered() && Number(0x409, 11) == 0x409 && Pow2(10) == 1024
  {
    SmallPowers();
    SmallPrimes(3); SmallPrimes(11); SmallPrimes(31);
  }

  lemma Powers10()
    ensures F10.Power(1024) == 0x2 && F10.Power(341) == 0xed && F10.Power(93) == 0x2c9
    ensures F10.Power(33) == 0x26c
  {
    Checked10();
    hide Candidate.Checked, Candidate.Power;
    First(F10);
    Step(F10, 1, 0x2); Step(F10, 2, 0x4); Step(F10, 4, 0x10); Step(F10, 5, 0x20);
    Step(F10, 8, 0x100); Step(F10, 10, 0x9); Step(F10, 11, 0x12); Step(F10, 16, 0x240);
    Step(F10, 21, 0x82); Step(F10, 23, 0x208); Step(F10, 32, 0x136); Step(F10, 42, 0x94);
    Step(F10, 46, 0x152); Step(F10, 64, 0x35d); Step(F10, 85, 0x300); Step(F10, 128, 0x227);
    Step(F10, 170, 0x352); Step(F10, 256, 0x10e); Step(F10, 512, 0x214);
  }

  lemma Cycles10()
    ensures Cycles(0x409, 0x400)
  {
    hide Candidate.Checked, Candidate.Ordered, Candidate.Power, Pow2, Number, Cycles;
    Checked10();
    Ordered10();
    Powers10();
    First(F10);
    Primitive(F10);
  }

  // ----- x^12 + x^6 + x^5 + x^3 + 1 -----

  const F12 := Candidate(0x1069, 0x1000, 12,
    [0x1, 0x4, 0x10, 0x40, 0x100, 0x400, 0x69, 0x1a4, 0x690, 0xa29, 0x876, 0x10a, 0x428],
    [3, 3, 5, 7, 13], [1365, 1365, 819, 585, 315])

  lemma Table12()
    ensures IsTable(0x1069, 0x1000, F12.squares)
  {
  }

  lemma Checked12()
    ensures F12.Checked()
  {
    Table12();
    hide IsTable;
    IsChecked(F12);
  }

  lemma Ordered12()
    ensures F12.Ordered() && Number(0x1069, 13) == 0x1069 && Pow2(12) == 4096
  {
    SmallPowers();
    SmallPrimes(3); SmallPrimes(5); SmallPrimes(7); SmallPrimes(13);
  }

  lemma Powers12()
    ensures F12.Power(4096) == 0x2 && F12.Power(1365) == 0xa82
  {
    Checked12();
    hide Candidate.Checked, Candidate.Power;
    First(F12);
    Step(F12, 1, 0x2); Step(F12, 2, 0x4); Step(F12, 4, 0x10); Step(F12, 5, 0x20);
    Step(F12, 8, 0x100); Step(F12, 10, 0x400); Step(F12, 16, 0x690); Step(F12, 21, 0x85);
    Step(F12, 32, 0x2fb); Step(F12, 42, 0x1b5); Step(F12, 64, 0xea1); Step(F12, 85, 0x44a);
    Step(F12, 128, 0x6f0); Step(F12, 170, 0x85b); Step(F12, 256, 0x692); Step(F12, 341, 0x4c);
    Step(F12, 512, 0x2ff); Step(F12, 682, 0x39); Step(F12, 1024, 0xeb1); Step(F12, 2048, 0x7f0);
  }

  lemma MorePowers12()
    ensures F12.Power(819) == 0x616 && F12.Power(585) == 0x388 && F12.Power(315) == 0x498
  {
    Checked12();
    hide Candidate.Checked, Candidate.Power;
    First(F12);
    Step(F12, 1, 0x2); Step(F12, 2, 0x4); Step(F12, 3, 0x8); Step(F12, 4, 0x10);
    Step(F12, 6, 0x40); Step(F12, 9, 0x200); Step(F12, 12, 0x69); Step(F12, 18, 0xa29);
    Step(F12, 19, 0x43b); Step(F12, 25, 0x850); Step(F12, 36, 0xf62); Step(F12, 39, 0xa0f);
    Step(F12, 51, 0xc6); Step(F12, 73, 0x350); Step(F12, 78, 0xb76); Step(F12, 102, 0x1d9);
    Step(F12, 146, 0xdd0); Step(F12, 157, 0x1f5); Step(F12, 204, 0x61c); Step(F12, 292, 0xf21);
    Step(F12, 409, 0x61e);
  }

  lemma Cycles12()
    ensures Cycles(0x1069, 0x1000)
  {
    hide Candidate.Checked, Candidate.Ordered, Candidate.Power, Pow2, Number, Cycles;
    Checked12();
    Ordered12();
    Powers12();
    MorePowers12();
    First(F12);
    Primitive(F12);
  }

  // ----- the instances -----

  lemma Sizes()
    ensures IsPowerOfTwo(16) && IsPowerOfTwo(64) && IsPowerOfTwo(256) && IsPowerOfTwo(1024) && IsPowerOfTwo(4096)
  {
    SmallPowers();
    SizeIsPower(4);
    SizeIsPower(6);
    SizeIsPower(8);
    SizeIsPower(10);
    SizeIsPower(12);
  }

  method AztecData12() returns (inst: GenericGF)
    ensures inst.TablesOf(0x1069) && inst.Valid() && inst.size == 4096 && inst.generatorBase == 1
  {
    Sizes();
    Cycles12();
    inst := Create(0x1069, 4096, 1);
  }

  method AztecData10() returns (inst: GenericGF)
    ensures inst.TablesOf(0x409) && inst.Valid() && inst.size == 1024 && inst.generatorBase == 1
  {
    Sizes();
    Cycles10();
    inst := Create(0x409, 1024, 1);
  }

  method AztecData6() returns (inst: GenericGF)
    ensures inst.TablesOf(0x43) && inst.Valid() && inst.size == 64 && inst.generatorBase == 1
  {
    Sizes();
    Cycles6();
    inst := Create(0x43, 64, 1);
  }

  method AztecParam() returns (inst: GenericGF)
    ensures inst.TablesOf(0x13) && inst.Valid() && inst.size == 16 && inst.generatorBase == 1
  {
    Sizes();
    Cycles4();
    inst := Create(0x13, 16, 1);
  }

  method QRCodeField256() returns (inst: GenericGF)
    ensures inst.TablesOf(0x11d) && inst.Valid() && inst.size == 256 && inst.generatorBase == 0
  {
    Sizes();
    CyclesQR();
    inst := Create(0x11d, 256, 0);
  }

  method DataMatrixField256() returns (inst: GenericGF)
    ensures inst.TablesOf(0x12d) && inst.Valid() && inst.size == 256 && inst.generatorBase == 1
  {
    Sizes();
    Cycles8();
    inst := Create(0x12d, 256, 1);
  }

  method AztecData8() returns (inst: GenericGF)
    ensures inst.TablesOf(0x12d) && inst.Valid() && inst.size == 256 && inst.generatorBase == 1
  {
    Sizes();
    Cycles8();
    inst := Create(0x12d, 256, 1);
  }

  method MaxiCodeField64() returns (inst: GenericGF)
    ensures inst.TablesOf(0x43) && inst.Valid() && inst.size == 64 && inst.generatorBase == 1
  {
    Sizes();
    Cycles6();
    inst := Create(0x43, 64, 1);
  }
}
