/** The rows of factors of the Data Matrix encoder are generator polynomials (core/src/datamatrix/DMECEncoder.cpp:18-52). */
module DMFactors {
  import opened Bits
  import opened GenericGFs
  import opened PrimitivePolynomials
  import opened Coefficients
  import opened ReedSolomonEncoders
  import opened DMECEncoder
  import opened GeneratorCoefficients
  import opened DMTables

  // ----- one plus a power -----

  /** The logarithm of 1 + alpha^j, if j is not zero. */
  function Zech(j: nat): nat {
    ZechRow(j / 16).At(j % 16)
  }

  function ZechRow(r: nat): Line<nat> {
    match r
    case 0 => Line(0, 240, 225, 38, 195, 219, 76, 161, 135, 74, 183, 197, 152, 56, 67, 16)
    case 1 => Line(15, 68, 148, 129, 111, 232, 139, 44, 49, 231, 112, 105, 134, 162, 32, 83)
    case 2 => Line(30, 73, 136, 252, 41, 132, 3, 114, 222, 36, 209, 242, 23, 99, 88, 178)
    case 3 => Line(98, 24, 207, 238, 224, 241, 210, 118, 13, 147, 69, 155, 64, 174, 166, 200)
    case _ => Line(60, 246, 146, 14, 17, 58, 249, 168, 82, 33, 9, 216, 6, 124, 228, 171)
  }

  lemma ZechLine(r: nat)
    ensures
      Zech(16 * r + 0) == ZechRow(r).v0 && Zech(16 * r + 1) == ZechRow(r).v1 && Zech(16 * r + 2) == ZechRow(r).v2 &&
      Zech(16 * r + 3) == ZechRow(r).v3 && Zech(16 * r + 4) == ZechRow(r).v4 && Zech(16 * r + 5) == ZechRow(r).v5 &&
      Zech(16 * r + 6) == ZechRow(r).v6 && Zech(16 * r + 7) == ZechRow(r).v7 && Zech(16 * r + 8) == ZechRow(r).v8 &&
      Zech(16 * r + 9) == ZechRow(r).v9 && Zech(16 * r + 10) == ZechRow(r).v10 &&
      Zech(16 * r + 11) == ZechRow(r).v11 && Zech(16 * r + 12) == ZechRow(r).v12 &&
      Zech(16 * r + 13) == ZechRow(r).v13 && Zech(16 * r + 14) == ZechRow(r).v14 &&
      Zech(16 * r + 15) == ZechRow(r).v15
  {
    ModUnique(16 * r + 0, 16, r, 0); ModUnique(16 * r + 1, 16, r, 1); ModUnique(16 * r + 2, 16, r, 2);
    ModUnique(16 * r + 3, 16, r, 3); ModUnique(16 * r + 4, 16, r, 4); ModUnique(16 * r + 5, 16, r, 5);
    ModUnique(16 * r + 6, 16, r, 6); ModUnique(16 * r + 7, 16, r, 7); ModUnique(16 * r + 8, 16, r, 8);
    ModUnique(16 * r + 9, 16, r, 9); ModUnique(16 * r + 10, 16, r, 10); ModUnique(16 * r + 11, 16, r, 11);
    ModUnique(16 * r + 12, 16, r, 12); ModUnique(16 * r + 13, 16, r, 13); ModUnique(16 * r + 14, 16, r, 14);
    ModUnique(16 * r + 15, 16, r, 15);
  }

  lemma ZechNumbers()
    ensures
      Zech(1) == 240 && Zech(2) == 225 && Zech(3) == 38 && Zech(4) == 195 && Zech(5) == 219 && Zech(6) == 76 &&
      Zech(7) == 161 && Zech(8) == 135 && Zech(9) == 74 && Zech(10) == 183 && Zech(11) == 197 && Zech(12) == 152 &&
      Zech(13) == 56 && Zech(14) == 67 && Zech(15) == 16 && Zech(16) == 15 && Zech(17) == 68 && Zech(18) == 148 &&
      Zech(19) == 129 && Zech(20) == 111 && Zech(21) == 232 && Zech(22) == 139 && Zech(23) == 44 && Zech(24) == 49 &&
      Zech(25) == 231 && Zech(26) == 112 && Zech(27) == 105 && Zech(28) == 134 && Zech(29) == 162 && Zech(30) == 32 &&
      Zech(31) == 83 && Zech(32) == 30 && Zech(33) == 73 && Zech(34) == 136 && Zech(35) == 252 && Zech(36) == 41 &&
      Zech(37) == 132 && Zech(38) == 3 && Zech(39) == 114 && Zech(40) == 222 && Zech(41) == 36 && Zech(42) == 209 &&
      Zech(43) == 242 && Zech(44) == 23 && Zech(45) == 99 && Zech(46) == 88 && Zech(47) == 178 && Zech(48) == 98 &&
      Zech(49) == 24 && Zech(50) == 207 && Zech(51) == 238 && Zech(52) == 224 && Zech(53) == 241 && Zech(54) == 210 &&
      Zech(55) == 118 && Zech(56) == 13 && Zech(57) == 147 && Zech(58) == 69 && Zech(59) == 155 && Zech(60) == 64 &&
      Zech(61) == 174 && Zech(62) == 166 && Zech(63) == 200 && Zech(64) == 60 && Zech(65) == 246 && Zech(66) == 146 &&
      Zech(67) == 14 && Zech(68) == 17
  {
    hide Zech;
    ZechLine(0);
    ZechLine(1);
    ZechLine(2);
    ZechLine(3);
    ZechLine(4);
  }

  lemma ZechStep(j: nat, v: bv16, w: bv16)
    requires Power(j) == v && Power(Zech(j)) == w && w == v ^ 1
    ensures Power(Zech(j)) == Sum(Power(j), 1)
  {
  }

  lemma ZechIs(j: nat)
    requires 1 <= j <= 68
    ensures Power(Zech(j)) == Sum(Power(j), 1)
  {
    if j <= 34 {
      SmallZech(j);
    } else {
      LargeZech(j);
    }
  }

  lemma SmallZech(j: nat)
    requires 1 <= j <= 34
    ensures Power(Zech(j)) == Sum(Power(j), 1)
  {
    Powers();
    ZechNumbers();
    hide Power, Sum, Zech;
    match j
    case 1 => ZechStep(1, 2, 3); case 2 => ZechStep(2, 4, 5); case 3 => ZechStep(3, 8, 9);
    case 4 => ZechStep(4, 16, 17); case 5 => ZechStep(5, 32, 33); case 6 => ZechStep(6, 64, 65);
    case 7 => ZechStep(7, 128, 129); case 8 => ZechStep(8, 45, 44); case 9 => ZechStep(9, 90, 91);
    case 10 => ZechStep(10, 180, 181); case 11 => ZechStep(11, 69, 68); case 12 => ZechStep(12, 138, 139);
    case 13 => ZechStep(13, 57, 56); case 14 => ZechStep(14, 114, 115); case 15 => ZechStep(15, 228, 229);
    case 16 => ZechStep(16, 229, 228); case 17 => ZechStep(17, 231, 230); case 18 => ZechStep(18, 227, 226);
    case 19 => ZechStep(19, 235, 234); case 20 => ZechStep(20, 251, 250); case 21 => ZechStep(21, 219, 218);
    case 22 => ZechStep(22, 155, 154); case 23 => ZechStep(23, 27, 26); case 24 => ZechStep(24, 54, 55);
    case 25 => ZechStep(25, 108, 109); case 26 => ZechStep(26, 216, 217); case 27 => ZechStep(27, 157, 156);
    case 28 => ZechStep(28, 23, 22); case 29 => ZechStep(29, 46, 47); case 30 => ZechStep(30, 92, 93);
    case 31 => ZechStep(31, 184, 185); case 32 => ZechStep(32, 93, 92); case 33 => ZechStep(33, 186, 187);
    case _ => ZechStep(34, 89, 88);
  }

  lemma LargeZech(j: nat)
    requires 35 <= j <= 68
    ensures Power(Zech(j)) == Sum(Power(j), 1)
  {
    Powers();
    ZechNumbers();
    hide Power, Sum, Zech;
    match j
    case 35 => ZechStep(35, 178, 179); case 36 => ZechStep(36, 73, 72); case 37 => ZechStep(37, 146, 147);
    case 38 => ZechStep(38, 9, 8); case 39 => ZechStep(39, 18, 19); case 40 => ZechStep(40, 36, 37);
    case 41 => ZechStep(41, 72, 73); case 42 => ZechStep(42, 144, 145); case 43 => ZechStep(43, 13, 12);
    case 44 => ZechStep(44, 26, 27); case 45 => ZechStep(45, 52, 53); case 46 => ZechStep(46, 104, 105);
    case 47 => ZechStep(47, 208, 209); case 48 => ZechStep(48, 141, 140); case 49 => ZechStep(49, 55, 54);
    case 50 => ZechStep(50, 110, 111); case 51 => ZechStep(51, 220, 221); case 52 => ZechStep(52, 149, 148);
    case 53 => ZechStep(53, 7, 6); case 54 => ZechStep(54, 14, 15); case 55 => ZechStep(55, 28, 29);
    case 56 => ZechStep(56, 56, 57); case 57 => ZechStep(57, 112, 113); case 58 => ZechStep(58, 224, 225);
    case 59 => ZechStep(59, 237, 236); case 60 => ZechStep(60, 247, 246); case 61 => ZechStep(61, 195, 194);
    case 62 => ZechStep(62, 171, 170); case 63 => ZechStep(63, 123, 122); case 64 => ZechStep(64, 246, 247);
    case 65 => ZechStep(65, 193, 192); case 66 => ZechStep(66, 175, 174); case 67 => ZechStep(67, 115, 114);
    case _ => ZechStep(68, 230, 231);
  }

  // ----- coefficients by their logarithms -----

  /** A multiple of 255, among those that occur. */
  predicate SameModulo(difference: int) {
    difference == 0 || difference == 255 || difference == -255 || difference == 510 || difference == -510
  }

  /** The coefficient of x^k, alpha^d, fits the next one, alpha^e. */
  predicate LogsFit(n: nat, k: nat, d: nat, e: nat) {
    k < n ==> d < 255 && e < 255 && SameModulo(d + k + Zech(n - k) - (e + n + Zech(k + 1)))
  }

  ghost predicate Fit(n: nat, k: nat, c: bv16, next: bv16) {
    exists d: nat, e: nat :: LogsFit(n, k, d, e) && (k < n ==> Power(d) == c && Power(e) == next)
  }

  /** Eight coefficients of a row, lowest power first; behind the row come the leading 1 and zeros. */
  datatype Eight = Eight(v0: bv16, v1: bv16, v2: bv16, v3: bv16, v4: bv16, v5: bv16, v6: bv16, v7: bv16) {
    function At(c: nat): bv16 {
      match c case 0 => v0 case 1 => v1 case 2 => v2 case 3 => v3 case 4 => v4 case 5 => v5 case 6 => v6 case _ => v7
    }
  }

  ghost predicate LineFit(n: nat, k: nat, line: Eight, next: bv16) {
    && Fit(n, k, line.v0, line.v1) && Fit(n, k + 1, line.v1, line.v2) && Fit(n, k + 2, line.v2, line.v3)
    && Fit(n, k + 3, line.v3, line.v4) && Fit(n, k + 4, line.v4, line.v5) && Fit(n, k + 5, line.v5, line.v6)
    && Fit(n, k + 6, line.v6, line.v7) && Fit(n, k + 7, line.v7, next)
  }

  lemma OneFits(n: nat, k: nat, d: nat, e: nat, c: bv16, next: bv16)
    requires LogsFit(n, k, d, e) && (k < n ==> Power(d) == c && Power(e) == next)
    ensures Fit(n, k, c, next)
  {
    hide LogsFit, Power;
  }

  /** A line by the logarithms of its coefficients and of the one behind it. */
  lemma LogLineFits(n: nat, k: nat, line: Eight, next: bv16,
                    d0: nat, d1: nat, d2: nat, d3: nat, d4: nat, d5: nat, d6: nat, d7: nat, d8: nat)
    requires LogsFit(n, k, d0, d1) && LogsFit(n, k + 1, d1, d2) && LogsFit(n, k + 2, d2, d3) && LogsFit(n, k + 3, d3, d4)
    requires LogsFit(n, k + 4, d4, d5) && LogsFit(n, k + 5, d5, d6) && LogsFit(n, k + 6, d6, d7) && LogsFit(n, k + 7, d7, d8)
    requires (k <= n ==> Power(d0) == line.v0) && (k + 1 <= n ==> Power(d1) == line.v1) && (k + 2 <= n ==> Power(d2) == line.v2)
    requires (k + 3 <= n ==> Power(d3) == line.v3) && (k + 4 <= n ==> Power(d4) == line.v4) && (k + 5 <= n ==> Power(d5) == line.v5)
    requires (k + 6 <= n ==> Power(d6) == line.v6) && (k + 7 <= n ==> Power(d7) == line.v7) && (k + 8 <= n ==> Power(d8) == next)
    ensures LineFit(n, k, line, next)
  {
    hide LogsFit, Power, Fit;
    OneFits(n, k + 0, d0, d1, line.v0, line.v1);
    OneFits(n, k + 1, d1, d2, line.v1, line.v2);
    OneFits(n, k + 2, d2, d3, line.v2, line.v3);
    OneFits(n, k + 3, d3, d4, line.v3, line.v4);
    OneFits(n, k + 4, d4, d5, line.v4, line.v5);
    OneFits(n, k + 5, d5, d6, line.v5, line.v6);
    OneFits(n, k + 6, d6, d7, line.v6, line.v7);
    OneFits(n, k + 7, d7, d8, line.v7, next);
  }

  // ----- the rows -----

  /** How many check words row r is for. */
  function Count(r: nat): nat {
    match r
    case 0 => 5 case 1 => 7 case 2 => 10 case 3 => 11 case 4 => 12 case 5 => 14 case 6 => 18 case 7 => 20 case 8 => 24
    case 9 => 28 case 10 => 36 case 11 => 42 case 12 => 48 case 13 => 56 case 14 => 62 case _ => 68
  }

  /** Line b of row r. */
  function FactorLine(r: nat, b: nat): Eight {
    match (r, b)
    case (0, 0) => Eight(228, 48, 15, 111, 62, 1, 0, 0)
    case (1, 0) => Eight(23, 68, 144, 134, 240, 92, 254, 1)
    case (2, 0) => Eight(28, 24, 185, 166, 223, 248, 116, 255)
    case (2, 1) => Eight(110, 61, 1, 0, 0, 0, 0, 0)
    case (3, 0) => Eight(175, 138, 205, 12, 194, 168, 39, 245)
    case (3, 1) => Eight(60, 97, 120, 1, 0, 0, 0, 0)
    case (4, 0) => Eight(41, 153, 158, 91, 61, 42, 142, 213)
    case (4, 1) => Eight(97, 178, 100, 242, 1, 0, 0, 0)
    case (5, 0) => Eight(156, 97, 192, 252, 95, 9, 157, 119)
    case (5, 1) => Eight(138, 45, 18, 186, 83, 185, 1, 0)
    case (6, 0) => Eight(83, 195, 100, 39, 188, 75, 66, 61)
    case (6, 1) => Eight(241, 213, 109, 129, 94, 254, 225, 48)
    case (6, 2) => Eight(90, 188, 1, 0, 0, 0, 0, 0)
    case (7, 0) => Eight(15, 195, 244, 9, 233, 71, 168, 2)
    case (7, 1) => Eight(188, 160, 153, 145, 253, 79, 108, 82)
    case (7, 2) => Eight(27, 174, 186, 172, 1, 0, 0, 0)
    case (8, 0) => Eight(52, 190, 88, 205, 109, 39, 176, 21)
    case (8, 1) => Eight(155, 197, 251, 223, 155, 21, 5, 172)
    case (8, 2) => Eight(254, 124, 12, 181, 184, 96, 50, 193)
    case (8, 3) => Eight(1, 0, 0, 0, 0, 0, 0, 0)
    case (9, 0) => Eight(211, 231, 43, 97, 71, 96, 103, 174)
    case (9, 1) => Eight(37, 151, 170, 53, 75, 34, 249, 121)
    case (9, 2) => Eight(17, 138, 110, 213, 141, 136, 120, 151)
    case (9, 3) => Eight(233, 168, 93, 255, 1, 0, 0, 0)
    case (10, 0) => Eight(245, 127, 242, 218, 130, 250, 162, 181)
    case (10, 1) => Eight(102, 120, 84, 179, 220, 251, 80, 182)
    case (10, 2) => Eight(229, 18, 2, 4, 68, 33, 101, 137)
    case (10, 3) => Eight(95, 119, 115, 44, 175, 184, 59, 25)
    case (10, 4) => Eight(225, 98, 81, 112, 1, 0, 0, 0)
    case (11, 0) => Eight(77, 193, 137, 31, 19, 38, 22, 153)
    case (11, 1) => Eight(247, 105, 122, 2, 245, 133, 242, 8)
    case (11, 2) => Eight(175, 95, 100, 9, 167, 105, 214, 111)
    case (11, 3) => Eight(57, 121, 21, 1, 253, 57, 54, 101)
    case (11, 4) => Eight(248, 202, 69, 50, 150, 177, 226, 5)
    case (11, 5) => Eight(9, 5, 1, 0, 0, 0, 0, 0)
    case (12, 0) => Eight(245, 132, 172, 223, 96, 32, 117, 22)
    case (12, 1) => Eight(238, 133, 238, 231, 205, 188, 237, 87)
    case (12, 2) => Eight(191, 106, 16, 147, 118, 23, 37, 90)
    case (12, 3) => Eight(170, 205, 131, 88, 120, 100, 66, 138)
    case (12, 4) => Eight(186, 240, 82, 44, 176, 87, 187, 147)
    case (12, 5) => Eight(160, 175, 69, 213, 92, 253, 225, 19)
    case (12, 6) => Eight(1, 0, 0, 0, 0, 0, 0, 0)
    case (13, 0) => Eight(175, 9, 223, 238, 12, 17, 220, 208)
    case (13, 1) => Eight(100, 29, 175, 170, 230, 192, 215, 235)
    case (13, 2) => Eight(150, 159, 36, 223, 38, 200, 132, 54)
    case (13, 3) => Eight(228, 146, 218, 234, 117, 203, 29, 232)
    case (13, 4) => Eight(144, 238, 22, 150, 201, 117, 62, 207)
    case (13, 5) => Eight(164, 13, 137, 245, 127, 67, 247, 28)
    case (13, 6) => Eight(155, 43, 203, 107, 233, 53, 143, 46)
    case (13, 7) => Eight(1, 0, 0, 0, 0, 0, 0, 0)
    case (14, 0) => Eight(242, 93, 169, 50, 144, 210, 39, 118)
    case (14, 1) => Eight(202, 188, 201, 189, 143, 108, 196, 37)
    case (14, 2) => Eight(185, 112, 134, 230, 245, 63, 197, 190)
    case (14, 3) => Eight(250, 106, 185, 221, 175, 64, 114, 71)
    case (14, 4) => Eight(161, 44, 147, 6, 27, 218, 51, 63)
    case (14, 5) => Eight(87, 10, 40, 130, 188, 17, 163, 31)
    case (14, 6) => Eight(176, 170, 4, 107, 232, 7, 94, 166)
    case (14, 7) => Eight(224, 124, 86, 47, 11, 204, 1, 0)
    case (15, 0) => Eight(220, 228, 173, 89, 251, 149, 159, 56)
    case (15, 1) => Eight(89, 33, 147, 244, 154, 36, 73, 127)
    case (15, 2) => Eight(213, 136, 248, 180, 234, 197, 158, 177)
    case (15, 3) => Eight(68, 122, 93, 213, 15, 160, 227, 236)
    case (15, 4) => Eight(66, 139, 153, 185, 202, 167, 179, 25)
    case (15, 5) => Eight(220, 232, 96, 210, 231, 136, 223, 239)
    case (15, 6) => Eight(181, 241, 59, 52, 172, 25, 49, 232)
    case (15, 7) => Eight(211, 189, 64, 54, 108, 153, 132, 63)
    case (15, 8) => Eight(96, 103, 82, 186, 1, 0, 0, 0)
    case _ => Eight(0, 0, 0, 0, 0, 0, 0, 0)
  }

  lemma LinesFrom5(r: nat, b: nat)
    requires r < 5 && 8 * b < Count(r)
    ensures LineFit(Count(r), 8 * b, FactorLine(r, b), FactorLine(r, b + 1).v0)
  {
    Powers();
    ZechNumbers();
    hide Power, LineFit, Zech;
    match (r, b)
    case (0, 0) => LogLineFits(5, 0, FactorLine(0, 0), FactorLine(0, 1).v0, 15, 244, 210, 207, 235, 0, 0, 0, 0);
    case (1, 0) => LogLineFits(7, 0, FactorLine(1, 0), FactorLine(1, 1).v0, 28, 197, 42, 218, 214, 30, 177, 0, 0);
    case (2, 0) => LogLineFits(10, 0, FactorLine(2, 0), FactorLine(2, 1).v0, 55, 243, 83, 172, 131, 237, 120, 150, 50);
    case (2, 1) => LogLineFits(10, 8, FactorLine(2, 1), FactorLine(2, 2).v0, 50, 199, 0, 0, 0, 0, 0, 0, 0);
    case (3, 0) => LogLineFits(11, 0, FactorLine(3, 0), FactorLine(3, 1).v0, 66, 12, 215, 242, 174, 109, 103, 156, 212);
    case (3, 1) => LogLineFits(11, 8, FactorLine(3, 1), FactorLine(3, 2).v0, 212, 173, 213, 0, 0, 0, 0, 0, 0);
    case (4, 0) => LogLineFits(12, 0, FactorLine(4, 0), FactorLine(4, 1).v0, 78, 233, 194, 74, 199, 107, 185, 94, 173);
    case (4, 1) => LogLineFits(12, 8, FactorLine(4, 1), FactorLine(4, 2).v0, 173, 35, 142, 168, 0, 0, 0, 0, 0);
  }

  lemma LinesFrom14(r: nat, b: nat)
    requires 5 <= r < 8 && 8 * b < Count(r)
    ensures LineFit(Count(r), 8 * b, FactorLine(r, b), FactorLine(r, b + 1).v0)
  {
    Powers();
    ZechNumbers();
    hide Power, LineFit, Zech;
    match (r, b)
    case (5, 0) => LogLineFits(14, 0, FactorLine(5, 0), FactorLine(5, 1).v0, 105, 173, 246, 93, 84, 38, 27, 248, 12);
    case (5, 1) => LogLineFits(14, 8, FactorLine(5, 1), FactorLine(5, 2).v0, 12, 8, 39, 33, 171, 83, 0, 0, 0);
    case (6, 0) => LogLineFits(18, 0, FactorLine(6, 0), FactorLine(6, 1).v0, 171, 61, 142, 103, 164, 253, 220, 199, 250);
    case (6, 1) => LogLineFits(18, 8, FactorLine(6, 1), FactorLine(6, 2).v0, 250, 94, 231, 161, 163, 177, 69, 244, 9);
    case (6, 2) => LogLineFits(18, 16, FactorLine(6, 2), FactorLine(6, 3).v0, 9, 164, 0, 0, 0, 0, 0, 0, 0);
    case (7, 0) => LogLineFits(20, 0, FactorLine(7, 0), FactorLine(7, 1).v0, 210, 61, 201, 38, 149, 184, 109, 1, 164);
    case (7, 1) => LogLineFits(20, 8, FactorLine(7, 1), FactorLine(7, 2).v0, 164, 230, 233, 209, 122, 193, 25, 79, 23);
    case (7, 2) => LogLineFits(20, 16, FactorLine(7, 2), FactorLine(7, 3).v0, 23, 146, 33, 127, 0, 0, 0, 0, 0);
  }

  lemma LinesFrom24(r: nat, b: nat)
    requires r == 8 && 8 * b < Count(r)
    ensures LineFit(Count(r), 8 * b, FactorLine(r, b), FactorLine(r, b + 1).v0)
  {
    Powers();
    ZechNumbers();
    hide Power, LineFit, Zech;
    match (r, b)
    case (8, 0) => LogLineFits(24, 0, FactorLine(8, 0), FactorLine(8, 1).v0, 45, 85, 136, 215, 231, 103, 137, 106, 22);
    case (8, 1) => LogLineFits(24, 8, FactorLine(8, 1), FactorLine(8, 2).v0, 22, 202, 20, 131, 22, 106, 225, 127, 177);
    case (8, 2) => LogLineFits(24, 16, FactorLine(8, 2), FactorLine(8, 3).v0, 177, 236, 242, 183, 31, 245, 141, 65, 0);
  }

  lemma LinesFrom28(r: nat, b: nat)
    requires r == 9 && 8 * b < Count(r)
    ensures LineFit(Count(r), 8 * b, FactorLine(r, b), FactorLine(r, b + 1).v0)
  {
    Powers();
    ZechNumbers();
    hide Power, LineFit, Zech;
    match (r, b)
    case (9, 0) => LogLineFits(28, 0, FactorLine(9, 0), FactorLine(9, 1).v0, 151, 17, 125, 173, 184, 245, 190, 146, 222);
    case (9, 1) => LogLineFits(28, 8, FactorLine(9, 1), FactorLine(9, 2).v0, 222, 239, 166, 99, 253, 196, 130, 167, 195);
    case (9, 2) => LogLineFits(28, 16, FactorLine(9, 2), FactorLine(9, 3).v0, 195, 12, 50, 94, 48, 198, 213, 239, 149);
    case (9, 3) => LogLineFits(28, 24, FactorLine(9, 3), FactorLine(9, 4).v0, 149, 109, 32, 150, 0, 0, 0, 0, 0);
  }

  lemma LinesFrom36(r: nat, b: nat)
    requires r == 10 && 8 * b < Count(r)
    ensures LineFit(Count(r), 8 * b, FactorLine(r, b), FactorLine(r, b + 1).v0)
  {
    Powers();
    ZechNumbers();
    hide Power, LineFit, Zech;
    match (r, b)
    case (10, 0) => LogLineFits(36, 0, FactorLine(10, 0), FactorLine(10, 1).v0, 156, 176, 168, 232, 77, 111, 87, 183, 181);
    case (10, 1) => LogLineFits(36, 8, FactorLine(10, 1), FactorLine(10, 2).v0, 181, 213, 108, 252, 51, 20, 229, 75, 16);
    case (10, 2) => LogLineFits(36, 16, FactorLine(10, 2), FactorLine(10, 3).v0, 16, 39, 1, 2, 197, 219, 81, 90, 84);
    case (10, 3) => LogLineFits(36, 24, FactorLine(10, 3), FactorLine(10, 4).v0, 84, 248, 67, 135, 66, 31, 153, 140, 69);
    case (10, 4) => LogLineFits(36, 32, FactorLine(10, 4), FactorLine(10, 5).v0, 69, 187, 86, 57, 0, 0, 0, 0, 0);
  }

  lemma LinesFrom42(r: nat, b: nat)
    requires r == 11 && 8 * b < Count(r)
    ensures LineFit(Count(r), 8 * b, FactorLine(r, b), FactorLine(r, b + 1).v0)
  {
    Powers();
    ZechNumbers();
    hide Power, LineFit, Zech;
    match (r, b)
    case (11, 0) => LogLineFits(42, 0, FactorLine(11, 0), FactorLine(11, 1).v0, 138, 65, 90, 234, 114, 115, 134, 233, 60);
    case (11, 1) => LogLineFits(42, 8, FactorLine(11, 1), FactorLine(11, 2).v0, 60, 88, 200, 1, 156, 102, 168, 3, 66);
    case (11, 2) => LogLineFits(42, 16, FactorLine(11, 2), FactorLine(11, 3).v0, 66, 84, 142, 38, 203, 88, 160, 207, 13);
    case (11, 3) => LogLineFits(42, 24, FactorLine(11, 3), FactorLine(11, 4).v0, 13, 167, 106, 0, 122, 13, 24, 81, 237);
    case (11, 4) => LogLineFits(42, 32, FactorLine(11, 4), FactorLine(11, 5).v0, 237, 82, 11, 141, 254, 192, 148, 225, 38);
    case (11, 5) => LogLineFits(42, 40, FactorLine(11, 5), FactorLine(11, 6).v0, 38, 225, 0, 0, 0, 0, 0, 0, 0);
  }

  lemma LinesFrom48(r: nat, b: nat)
    requires r == 12 && 8 * b < Count(r)
    ensures LineFit(Count(r), 8 * b, FactorLine(r, b), FactorLine(r, b + 1).v0)
  {
    Powers();
    ZechNumbers();
    hide Power, LineFit, Zech;
    match (r, b)
    case (12, 0) => LogLineFits(48, 0, FactorLine(12, 0), FactorLine(12, 1).v0, 156, 221, 127, 131, 245, 5, 128, 134, 249);
    case (12, 1) => LogLineFits(48, 8, FactorLine(12, 1), FactorLine(12, 2).v0, 249, 102, 249, 17, 215, 164, 59, 145, 170);
    case (12, 2) => LogLineFits(48, 16, FactorLine(12, 2), FactorLine(12, 3).v0, 170, 100, 4, 132, 154, 28, 222, 9, 166);
    case (12, 3) => LogLineFits(48, 24, FactorLine(12, 3), FactorLine(12, 4).v0, 166, 215, 124, 136, 213, 142, 220, 12, 33);
    case (12, 4) => LogLineFits(48, 32, FactorLine(12, 4), FactorLine(12, 5).v0, 33, 214, 79, 135, 137, 145, 73, 132, 230);
    case (12, 5) => LogLineFits(48, 40, FactorLine(12, 5), FactorLine(12, 6).v0, 230, 66, 11, 94, 30, 122, 69, 114, 0);
  }

  lemma LinesFrom56(r: nat, b: nat)
    requires r == 13 && 8 * b < Count(r)
    ensures LineFit(Count(r), 8 * b, FactorLine(r, b), FactorLine(r, b + 1).v0)
  {
    Powers();
    ZechNumbers();
    hide Power, LineFit, Zech;
    match (r, b)
    case (13, 0) => LogLineFits(56, 0, FactorLine(13, 0), FactorLine(13, 1).v0, 66, 38, 131, 249, 242, 195, 51, 47, 142);
    case (13, 1) => LogLineFits(56, 8, FactorLine(13, 1), FactorLine(13, 2).v0, 142, 118, 66, 166, 68, 246, 123, 19, 254);
    case (13, 2) => LogLineFits(56, 16, FactorLine(13, 2), FactorLine(13, 3).v0, 254, 113, 40, 131, 115, 143, 221, 24, 15);
    case (13, 3) => LogLineFits(56, 24, FactorLine(13, 3), FactorLine(13, 4).v0, 15, 37, 232, 129, 128, 72, 118, 121, 42);
    case (13, 4) => LogLineFits(56, 32, FactorLine(13, 4), FactorLine(13, 5).v0, 42, 249, 134, 254, 169, 128, 235, 251, 80);
    case (13, 5) => LogLineFits(56, 40, FactorLine(13, 5), FactorLine(13, 6).v0, 80, 43, 90, 156, 176, 217, 60, 55, 22);
    case (13, 6) => LogLineFits(56, 48, FactorLine(13, 6), FactorLine(13, 7).v0, 22, 125, 72, 159, 149, 99, 179, 29, 0);
  }

  lemma LinesFrom62(r: nat, b: nat)
    requires r == 14 && 8 * b < Count(r)
    ensures LineFit(Count(r), 8 * b, FactorLine(r, b), FactorLine(r, b + 1).v0)
  {
    Powers();
    ZechNumbers();
    hide Power, LineFit, Zech;
    match (r, b)
    case (14, 0) => LogLineFits(62, 0, FactorLine(14, 0), FactorLine(14, 1).v0, 168, 32, 175, 141, 42, 89, 103, 154, 82);
    case (14, 1) => LogLineFits(62, 8, FactorLine(14, 1), FactorLine(14, 2).v0, 82, 164, 169, 144, 179, 25, 188, 222, 83);
    case (14, 2) => LogLineFits(62, 16, FactorLine(14, 2), FactorLine(14, 3).v0, 83, 57, 218, 68, 156, 91, 202, 85, 111);
    case (14, 3) => LogLineFits(62, 24, FactorLine(14, 3), FactorLine(14, 4).v0, 111, 100, 83, 238, 66, 6, 14, 184, 206);
    case (14, 4) => LogLineFits(62, 32, FactorLine(14, 4), FactorLine(14, 5).v0, 206, 135, 132, 241, 23, 232, 180, 91, 145);
    case (14, 5) => LogLineFits(62, 40, FactorLine(14, 5), FactorLine(14, 6).v0, 145, 226, 228, 77, 164, 195, 158, 234, 137);
    case (14, 6) => LogLineFits(62, 48, FactorLine(14, 6), FactorLine(14, 7).v0, 137, 166, 2, 159, 121, 53, 163, 172, 58);
    case (14, 7) => LogLineFits(62, 56, FactorLine(14, 7), FactorLine(14, 8).v0, 58, 236, 126, 162, 133, 182, 0, 0, 0);
  }

  lemma LinesFrom68(r: nat, b: nat)
    requires r == 15 && 8 * b < Count(r)
    ensures LineFit(Count(r), 8 * b, FactorLine(r, b), FactorLine(r, b + 1).v0)
  {
    Powers();
    ZechNumbers();
    hide Power, LineFit, Zech;
    match (r, b)
    case (15, 0) => LogLineFits(68, 0, FactorLine(15, 0), FactorLine(15, 1).v0, 51, 15, 247, 34, 20, 52, 113, 56, 34);
    case (15, 1) => LogLineFits(68, 8, FactorLine(15, 1), FactorLine(15, 2).v0, 34, 219, 132, 201, 139, 40, 36, 176, 94);
    case (15, 2) => LogLineFits(68, 16, FactorLine(15, 2), FactorLine(15, 3).v0, 94, 198, 237, 10, 129, 202, 194, 192, 197);
    case (15, 3) => LogLineFits(68, 24, FactorLine(15, 3), FactorLine(15, 4).v0, 197, 200, 32, 94, 210, 230, 18, 155, 220);
    case (15, 4) => LogLineFits(68, 32, FactorLine(15, 4), FactorLine(15, 5).v0, 220, 152, 233, 83, 82, 203, 252, 140, 51);
    case (15, 5) => LogLineFits(68, 40, FactorLine(15, 5), FactorLine(15, 6).v0, 51, 121, 245, 89, 17, 198, 131, 70, 183);
    case (15, 6) => LogLineFits(68, 48, FactorLine(15, 6), FactorLine(15, 7).v0, 183, 250, 153, 45, 127, 140, 186, 121, 151);
    case (15, 7) => LogLineFits(68, 56, FactorLine(15, 7), FactorLine(15, 8).v0, 151, 144, 6, 24, 25, 233, 221, 91, 245);
    case (15, 8) => LogLineFits(68, 64, FactorLine(15, 8), FactorLine(15, 9).v0, 245, 190, 79, 33, 0, 0, 0, 0, 0);
  }

  /** Every line of every row fits the next one. */
  lemma LinesFit(r: nat, b: nat)
    requires r < 16 && 8 * b < Count(r)
    ensures LineFit(Count(r), 8 * b, FactorLine(r, b), FactorLine(r, b + 1).v0)
  {
    hide LineFit, FactorLine;
    if r < 5 {
      LinesFrom5(r, b);
    } else if r < 8 {
      LinesFrom14(r, b);
    } else if r < 9 {
      LinesFrom24(r, b);
    } else if r < 10 {
      LinesFrom28(r, b);
    } else if r < 11 {
      LinesFrom36(r, b);
    } else if r < 12 {
      LinesFrom42(r, b);
    } else if r < 13 {
      LinesFrom48(r, b);
    } else if r < 14 {
      LinesFrom56(r, b);
    } else if r < 15 {
      LinesFrom62(r, b);
    } else {
      LinesFrom68(r, b);
    }
  }

  function CoefficientOf(r: nat, k: nat): bv16 {
    FactorLine(r, k / 8).At(k % 8)
  }

  lemma CoefficientFits(r: nat, k: nat)
    requires r < 16 && k < Count(r)
    ensures Fit(Count(r), k, CoefficientOf(r, k), CoefficientOf(r, k + 1))
  {
    hide Fit, FactorLine, Count;
    LinesFit(r, k / 8);
    NextPlace(k);
  }

  lemma NextPlace(k: nat)
    ensures k == 8 * (k / 8) + k % 8
    ensures (k + 1) / 8 == (if k % 8 == 7 then k / 8 + 1 else k / 8) && (k + 1) % 8 == if k % 8 == 7 then 0 else k % 8 + 1
  {
  }

  lemma LeadingOne(r: nat)
    requires r < 16
    ensures CoefficientOf(r, Count(r)) == 1
  {
    match r
    case 0 => case 1 => case 2 => case 3 => case 4 => case 5 => case 6 => case 7 =>
    case 8 => case 9 => case 10 => case 11 => case 12 => case 13 => case 14 => case _ =>
  }

  /** The rows as the encoder uses them. */
  const FACTORS: seq<seq<nat>> := [
    FactorRow(0), FactorRow(1), FactorRow(2), FactorRow(3), FactorRow(4), FactorRow(5), FactorRow(6), FactorRow(7),
    FactorRow(8), FactorRow(9), FactorRow(10), FactorRow(11), FactorRow(12), FactorRow(13), FactorRow(14),
    FactorRow(15)]

  function FactorRow(r: nat): (row: seq<nat>)
    ensures |row| == Count(r)
  {
    seq(Count(r), k requires 0 <= k < Count(r) => Number(CoefficientOf(r, k), 8))
  }

  // ----- in the field -----

  ghost predicate IsField(gf: GenericGF) {
    gf.TablesOf(0x12d) && gf.Valid() && gf.size == 256 && gf.generatorBase == 1
  }

  lemma ByteElem(gf: GenericGF, x: bv16)
    requires gf.size == 256
    ensures gf.Elem(Number(x, 8))
  {
    hide Number;
    SmallPowers();
    NumberBound(x, 8);
  }

  /** Powers multiply by adding exponents modulo 255. */
  lemma ExpSum(gf: GenericGF, i: nat, j: nat)
    requires IsField(gf) && i < 510 && j < 510
    ensures gf.Multiply(gf.Exp(i), gf.Exp(j)) == gf.Exp((i + j) % 255)
  {
    hide GenericGF.Multiply, GenericGF.Exp, GenericGF.Valid, GenericGF.TablesOf;
    ExpMod(gf, i);
    ExpMod(gf, j);
    ExpMul(gf, i % 255, j % 255);
    ExpMod(gf, i % 255 + j % 255);
    SumMod(i, j, i % 255, j % 255);
  }

  /** One plus a power is a power. */
  lemma OnePlus(gf: GenericGF, j: nat)
    requires IsField(gf) && 1 <= j <= 68
    ensures Zech(j) < 255 && Xor(gf.Exp(j), gf.Exp(0)) == gf.Exp(Zech(j))
  {
    hide Xor, GenericGF.Exp, GenericGF.Valid, GenericGF.TablesOf, Power, Sum, Number, Zech;
    ZechBelow(j);
    ZechIs(j);
    PowerIsExp(gf, j);
    PowerIsExp(gf, 0);
    PowerIsExp(gf, Zech(j));
    ZeroPower();
    NumberXor(Power(j), 1, 8);
  }

  lemma ZechBelow(j: nat)
    ensures Zech(j) < 255
  {
    var row := ZechRow(j / 16);
    assert row.v0 < 255 && row.v1 < 255 && row.v2 < 255 && row.v3 < 255 && row.v4 < 255 && row.v5 < 255 && row.v6 < 255;
    assert row.v7 < 255 && row.v8 < 255 && row.v9 < 255 && row.v10 < 255 && row.v11 < 255 && row.v12 < 255;
  }

  lemma ZeroPower()
    ensures Power(0) == 1
  {
  }

  lemma SameRemainder(a: int, b: int)
    requires SameModulo(a - b)
    ensures a % 255 == b % 255
  {
  }

  /** A power of alpha plus a higher one. */
  lemma TwoPowers(gf: GenericGF, k: nat, n: nat)
    requires IsField(gf) && k < n <= 68
    ensures Zech(n - k) < 255 && Xor(gf.Exp(k), gf.Exp(n)) == gf.Exp((k + Zech(n - k)) % 255)
  {
    hide Xor, GenericGF.Multiply, GenericGF.Exp, GenericGF.Valid, GenericGF.TablesOf, Zech;
    OnePlus(gf, n - k);
    ExpSum(gf, k, n - k);
    ExpSum(gf, k, 0);
    MulDistributes(gf, gf.Exp(k), gf.Exp(n - k), gf.Exp(0));
    XorComm(gf.Exp(n), gf.Exp(k));
    ExpSum(gf, k, Zech(n - k));
  }

  /** Powers of alpha that fit by their exponents are neighbours in a generator polynomial. */
  lemma LogsAreNeighbours(gf: GenericGF, n: nat, k: nat, d: nat, e: nat)
    requires IsField(gf) && k < n <= 68 && LogsFit(n, k, d, e)
    ensures Neighbours(gf, n, k, gf.Exp(d), gf.Exp(e))
  {
    hide Xor, GenericGF.Multiply, GenericGF.Exp, GenericGF.Valid, GenericGF.TablesOf, Zech, SameModulo;
    TwoPowers(gf, k, n);
    OnePlus(gf, k + 1);
    var z, y := Zech(n - k), Zech(k + 1);
    ExpSum(gf, n, y);
    ExpSum(gf, d, (k + z) % 255);
    ExpSum(gf, e, (n + y) % 255);
    Sums(d, k + z);
    Sums(e, n + y);
    SameRemainder(d + k + z, e + n + y);
  }

  lemma FitAreNeighbours(gf: GenericGF, n: nat, k: nat, c: bv16, next: bv16)
    requires IsField(gf) && k < n <= 68 && Fit(n, k, c, next)
    ensures gf.Elem(Number(c, 8)) && gf.Elem(Number(next, 8)) && Neighbours(gf, n, k, Number(c, 8), Number(next, 8))
  {
    var d: nat, e: nat :| LogsFit(n, k, d, e) && Power(d) == c && Power(e) == next;
    hide GenericGF.Exp, GenericGF.Valid, GenericGF.TablesOf, Power, Number, Neighbours, SameModulo, Zech;
    ByteElem(gf, c);
    ByteElem(gf, next);
    PowerIsExp(gf, d);
    PowerIsExp(gf, e);
    LogsAreNeighbours(gf, n, k, d, e);
  }

  lemma Sums(a: nat, b: nat)
    ensures (a + b % 255) % 255 == (a + b) % 255
  {
  }

  lemma RowElems(gf: GenericGF, r: nat)
    requires IsField(gf) && r < 16
    ensures 0 < |FactorRow(r)| == Count(r) <= 68 && Elems(gf, FactorRow(r))
  {
    hide GenericGF.Valid, GenericGF.TablesOf, Number, CoefficientOf;
    forall k | 0 <= k < Count(r)
      ensures gf.Elem(FactorRow(r)[k])
    {
      ByteElem(gf, CoefficientOf(r, k));
    }
  }

  lemma RowAt(r: nat, k: nat)
    requires r < 16 && k <= Count(r)
    ensures Coefficient(FactorRow(r), k) == Number(CoefficientOf(r, k), 8)
  {
    hide Number, CoefficientOf, Count;
    LeadingOne(r);
    OneIsOne();
  }

  /** Each row holds the lower coefficients of the generator polynomial for as many check words. */
  lemma RowIsGenerator(gf: GenericGF, r: nat)
    requires IsField(gf) && r < 16
    ensures 0 < |FactorRow(r)| <= 68 && Elems(gf, FactorRow(r))
    ensures Monic(Reverse(FactorRow(r))) == Generator(gf, |FactorRow(r)|)
  {
    hide GenericGF.Valid, GenericGF.TablesOf, Number, CoefficientOf, Neighbours, Generator, Monic, FactorRow;
    RowElems(gf, r);
    var row := FactorRow(r);
    assert |row| < gf.size;
    forall k | 0 <= k < |row|
      ensures NeighbourAt(gf, row, k)
    {
      CoefficientFits(r, k);
      FitAreNeighbours(gf, |row|, k, CoefficientOf(r, k), CoefficientOf(r, k + 1));
      RowAt(r, k);
      RowAt(r, k + 1);
      assert row[k] == Coefficient(row, k);
    }
    NeighboursMakeGenerator(gf, row);
  }

  lemma OneIsOne()
    ensures Number(1, 8) == 1
  {
    NumberOne(8);
  }

  lemma {:induction false} FirstRowIs(factors: seq<seq<nat>>, n: nat, r: nat)
    requires r < |factors| && |factors[r]| >= n && forall i :: 0 <= i < r ==> |factors[i]| < n
    ensures FirstRow(factors, n) == r
    decreases |factors|
  {
    if r > 0 {
      FirstRowIs(factors[1..], n, r - 1);
    }
  }

  lemma FactorsAt(r: nat)
    requires r < 16
    ensures |FACTORS| == 16 && FACTORS[r] == FactorRow(r)
  {
    hide FactorRow;
  }

  lemma CountsGrow(i: nat, r: nat)
    requires i < r < 16
    ensures Count(i) < Count(r)
  {
  }

  /** The row that the encoder looks up for any of the sixteen counts is the generator polynomial. */
  lemma ProgramFactors(gf: GenericGF, r: nat)
    requires IsField(gf) && r < 16
    ensures AllElems(gf, FACTORS) && FirstRow(FACTORS, Count(r)) < |FACTORS|
    ensures Monic(Factors(FACTORS, Count(r))) == Generator(gf, Count(r))
  {
    FactorsAt(r);
    hide GenericGF.Valid, GenericGF.TablesOf, Generator, Monic, Count, CoefficientOf, Number, FACTORS;
    forall i | 0 <= i < |FACTORS|
      ensures Elems(gf, FACTORS[i])
    {
      FactorsAt(i);
      RowIsGenerator(gf, i);
    }
    forall i | 0 <= i < r
      ensures |FACTORS[i]| < Count(r)
    {
      FactorsAt(i);
      CountsGrow(i, r);
    }
    FirstRowIs(FACTORS, Count(r), r);
    RowIsGenerator(gf, r);
    assert FACTORS[r][..Count(r)] == FactorRow(r);
  }
}
