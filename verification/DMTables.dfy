/** The logarithm tables of the Data Matrix encoder are those of its field (core/src/datamatrix/DMECEncoder.cpp:54-98). */
module DMTables {
  import opened Bits
  import opened GenericGFs
  import opened PrimitivePolynomials
  import opened StaticFields
  import opened DMECEncoder

  const P: bv16 := 0x12d
  const TOP: bv16 := 0x100

  /** The powers of alpha as bit vectors. */
  ghost function Power(k: nat): bv16 {
    Walk(P, TOP, k)
  }

  lemma PowerFacts(k: nat)
    ensures Below(Power(k), TOP) && Power(0) == 1 && Power(k + 1) == Next(P, TOP, Power(k))
    ensures IsPolynomial(P, TOP, 8)
  {
    Checked8();
    WalkBelow(P, TOP, 8, k);
  }

  /** A power as a number is an entry of the field's table. */
  lemma PowerIsExp(gf: GenericGF, k: nat)
    requires gf.TablesOf(0x12d) && gf.Valid() && gf.size == 256 && k < 512
    ensures gf.Exp(k) == Number(Power(k), 8)
  {
    hide *;
    SmallPowers();
    PowerFacts(k);
    Ordered8();
    WalkIsAlpha(P, TOP, 8, k);
    ExpEntry(gf, k);
    IsWalk(k);
  }

  lemma IsWalk(k: nat)
    ensures Power(k) == Walk(0x12d, 0x100, k) && P == 0x12d && TOP == 0x100
  {
  }

  lemma ExpEntry(gf: GenericGF, k: nat)
    requires gf.TablesOf(0x12d) && gf.Valid() && gf.size == 256 && k < 512
    ensures gf.Exp(k) == Alpha(0x12d, 256, k)
  {
    assert gf.ExpIs(0x12d, k);
  }

  // ----- a line of antilogarithms -----

  /** The second byte is alpha times the first. */
  predicate Follows(v: bv16, w: bv16) {
    w == if v & 0x80 != 0 then (v + v) ^ 0x12d else v + v
  }

  lemma AddIsTwice(v: bv16)
    ensures v + v == Twice(v)
  {
  }

  lemma TopBit(v: bv16)
    ensures Meets(Twice(v), 0x100) <==> v & 0x80 != 0
  {
  }

  lemma FollowsNext(v: bv16, w: bv16)
    ensures Follows(v, w) <==> w == Next(P, TOP, v)
  {
    hide Twice, Meets;
    AddIsTwice(v);
    TopBit(v);
  }

  lemma OnePower(k: nat, v: bv16, w: bv16)
    requires Power(k) == v && Follows(v, w)
    ensures Power(k + 1) == w
  {
    FollowsNext(v, w);
    hide Walk, Next, Follows;
    PowerFacts(k);
  }

  /** A line of the table, and the first entry of the next one. */
  lemma AlogLine(k: nat,
                 v0: bv16, v1: bv16, v2: bv16, v3: bv16, v4: bv16, v5: bv16, v6: bv16, v7: bv16, v8: bv16, v9: bv16,
                 v10: bv16, v11: bv16, v12: bv16, v13: bv16, v14: bv16, v15: bv16, v16: bv16)
    requires Power(k) == v0
    requires
      Follows(v0, v1) && Follows(v1, v2) && Follows(v2, v3) && Follows(v3, v4) && Follows(v4, v5) &&
      Follows(v5, v6) && Follows(v6, v7) && Follows(v7, v8) && Follows(v8, v9) && Follows(v9, v10) &&
      Follows(v10, v11) && Follows(v11, v12) && Follows(v12, v13) && Follows(v13, v14) && Follows(v14, v15) &&
      Follows(v15, v16)
    ensures
      Power(k + 1) == v1 && Power(k + 2) == v2 && Power(k + 3) == v3 && Power(k + 4) == v4 && Power(k + 5) == v5 &&
      Power(k + 6) == v6 && Power(k + 7) == v7 && Power(k + 8) == v8 && Power(k + 9) == v9 && Power(k + 10) == v10 &&
      Power(k + 11) == v11 && Power(k + 12) == v12 && Power(k + 13) == v13 && Power(k + 14) == v14 &&
      Power(k + 15) == v15 && Power(k + 16) == v16
  {
    hide Walk, Follows;
    OnePower(k + 0, v0, v1);
    OnePower(k + 1, v1, v2);
    OnePower(k + 2, v2, v3);
    OnePower(k + 3, v3, v4);
    OnePower(k + 4, v4, v5);
    OnePower(k + 5, v5, v6);
    OnePower(k + 6, v6, v7);
    OnePower(k + 7, v7, v8);
    OnePower(k + 8, v8, v9);
    OnePower(k + 9, v9, v10);
    OnePower(k + 10, v10, v11);
    OnePower(k + 11, v11, v12);
    OnePower(k + 12, v12, v13);
    OnePower(k + 13, v13, v14);
    OnePower(k + 14, v14, v15);
    OnePower(k + 15, v15, v16);
  }

  /** All powers, line by line. */
  lemma Powers()
    ensures
      Power(0) == 1 && Power(1) == 2 && Power(2) == 4 && Power(3) == 8 && Power(4) == 16 && Power(5) == 32 &&
      Power(6) == 64 && Power(7) == 128 && Power(8) == 45 && Power(9) == 90 && Power(10) == 180 && Power(11) == 69 &&
      Power(12) == 138 && Power(13) == 57 && Power(14) == 114 && Power(15) == 228 && Power(16) == 229 &&
      Power(17) == 231 && Power(18) == 227 && Power(19) == 235 && Power(20) == 251 && Power(21) == 219 &&
      Power(22) == 155 && Power(23) == 27 && Power(24) == 54 && Power(25) == 108 && Power(26) == 216 &&
      Power(27) == 157 && Power(28) == 23 && Power(29) == 46 && Power(30) == 92 && Power(31) == 184 &&
      Power(32) == 93 && Power(33) == 186 && Power(34) == 89 && Power(35) == 178 && Power(36) == 73 &&
      Power(37) == 146 && Power(38) == 9 && Power(39) == 18 && Power(40) == 36 && Power(41) == 72 &&
      Power(42) == 144 && Power(43) == 13 && Power(44) == 26 && Power(45) == 52 && Power(46) == 104 &&
      Power(47) == 208 && Power(48) == 141 && Power(49) == 55 && Power(50) == 110 && Power(51) == 220 &&
      Power(52) == 149 && Power(53) == 7 && Power(54) == 14 && Power(55) == 28 && Power(56) == 56 &&
      Power(57) == 112 && Power(58) == 224 && Power(59) == 237 && Power(60) == 247 && Power(61) == 195 &&
      Power(62) == 171 && Power(63) == 123 && Power(64) == 246 && Power(65) == 193 && Power(66) == 175 &&
      Power(67) == 115 && Power(68) == 230 && Power(69) == 225 && Power(70) == 239 && Power(71) == 243 &&
      Power(72) == 203 && Power(73) == 187 && Power(74) == 91 && Power(75) == 182 && Power(76) == 65 &&
      Power(77) == 130 && Power(78) == 41 && Power(79) == 82 && Power(80) == 164 && Power(81) == 101 &&
      Power(82) == 202 && Power(83) == 185 && Power(84) == 95 && Power(85) == 190 && Power(86) == 81 &&
      Power(87) == 162 && Power(88) == 105 && Power(89) == 210 && Power(90) == 137 && Power(91) == 63 &&
      Power(92) == 126 && Power(93) == 252 && Power(94) == 213 && Power(95) == 135 && Power(96) == 35 &&
      Power(97) == 70 && Power(98) == 140 && Power(99) == 53 && Power(100) == 106 && Power(101) == 212 &&
      Power(102) == 133 && Power(103) == 39 && Power(104) == 78 && Power(105) == 156 && Power(106) == 21 &&
      Power(107) == 42 && Power(108) == 84 && Power(109) == 168 && Power(110) == 125 && Power(111) == 250 &&
      Power(112) == 217 && Power(113) == 159 && Power(114) == 19 && Power(115) == 38 && Power(116) == 76 &&
      Power(117) == 152 && Power(118) == 29 && Power(119) == 58 && Power(120) == 116 && Power(121) == 232 &&
      Power(122) == 253 && Power(123) == 215 && Power(124) == 131 && Power(125) == 43 && Power(126) == 86 &&
      Power(127) == 172 && Power(128) == 117 && Power(129) == 234 && Power(130) == 249 && Power(131) == 223 &&
      Power(132) == 147 && Power(133) == 11 && Power(134) == 22 && Power(135) == 44 && Power(136) == 88 &&
      Power(137) == 176 && Power(138) == 77 && Power(139) == 154 && Power(140) == 25 && Power(141) == 50 &&
      Power(142) == 100 && Power(143) == 200 && Power(144) == 189 && Power(145) == 87 && Power(146) == 174 &&
      Power(147) == 113 && Power(148) == 226 && Power(149) == 233 && Power(150) == 255 && Power(151) == 211 &&
      Power(152) == 139 && Power(153) == 59 && Power(154) == 118 && Power(155) == 236 && Power(156) == 245 &&
      Power(157) == 199 && Power(158) == 163 && Power(159) == 107 && Power(160) == 214 && Power(161) == 129 &&
      Power(162) == 47 && Power(163) == 94 && Power(164) == 188 && Power(165) == 85 && Power(166) == 170 &&
      Power(167) == 121 && Power(168) == 242 && Power(169) == 201 && Power(170) == 191 && Power(171) == 83 &&
      Power(172) == 166 && Power(173) == 97 && Power(174) == 194 && Power(175) == 169 && Power(176) == 127 &&
      Power(177) == 254 && Power(178) == 209 && Power(179) == 143 && Power(180) == 51 && Power(181) == 102 &&
      Power(182) == 204 && Power(183) == 181 && Power(184) == 71 && Power(185) == 142 && Power(186) == 49 &&
      Power(187) == 98 && Power(188) == 196 && Power(189) == 165 && Power(190) == 103 && Power(191) == 206 &&
      Power(192) == 177 && Power(193) == 79 && Power(194) == 158 && Power(195) == 17 && Power(196) == 34 &&
      Power(197) == 68 && Power(198) == 136 && Power(199) == 61 && Power(200) == 122 && Power(201) == 244 &&
      Power(202) == 197 && Power(203) == 167 && Power(204) == 99 && Power(205) == 198 && Power(206) == 161 &&
      Power(207) == 111 && Power(208) == 222 && Power(209) == 145 && Power(210) == 15 && Power(211) == 30 &&
      Power(212) == 60 && Power(213) == 120 && Power(214) == 240 && Power(215) == 205 && Power(216) == 183 &&
      Power(217) == 67 && Power(218) == 134 && Power(219) == 33 && Power(220) == 66 && Power(221) == 132 &&
      Power(222) == 37 && Power(223) == 74 && Power(224) == 148 && Power(225) == 5 && Power(226) == 10 &&
      Power(227) == 20 && Power(228) == 40 && Power(229) == 80 && Power(230) == 160 && Power(231) == 109 &&
      Power(232) == 218 && Power(233) == 153 && Power(234) == 31 && Power(235) == 62 && Power(236) == 124 &&
      Power(237) == 248 && Power(238) == 221 && Power(239) == 151 && Power(240) == 3 && Power(241) == 6 &&
      Power(242) == 12 && Power(243) == 24 && Power(244) == 48 && Power(245) == 96 && Power(246) == 192 &&
      Power(247) == 173 && Power(248) == 119 && Power(249) == 238 && Power(250) == 241 && Power(251) == 207 &&
      Power(252) == 179 && Power(253) == 75 && Power(254) == 150 && Power(255) == 1
  {
    hide Walk, Next;
    PowerFacts(0);
    AlogLine(0, 1, 2, 4, 8, 16, 32, 64, 128, 45, 90, 180, 69, 138, 57, 114, 228, 229);
    AlogLine(16, 229, 231, 227, 235, 251, 219, 155, 27, 54, 108, 216, 157, 23, 46, 92, 184, 93);
    AlogLine(32, 93, 186, 89, 178, 73, 146, 9, 18, 36, 72, 144, 13, 26, 52, 104, 208, 141);
    AlogLine(48, 141, 55, 110, 220, 149, 7, 14, 28, 56, 112, 224, 237, 247, 195, 171, 123, 246);
    AlogLine(64, 246, 193, 175, 115, 230, 225, 239, 243, 203, 187, 91, 182, 65, 130, 41, 82, 164);
    AlogLine(80, 164, 101, 202, 185, 95, 190, 81, 162, 105, 210, 137, 63, 126, 252, 213, 135, 35);
    AlogLine(96, 35, 70, 140, 53, 106, 212, 133, 39, 78, 156, 21, 42, 84, 168, 125, 250, 217);
    AlogLine(112, 217, 159, 19, 38, 76, 152, 29, 58, 116, 232, 253, 215, 131, 43, 86, 172, 117);
    AlogLine(128, 117, 234, 249, 223, 147, 11, 22, 44, 88, 176, 77, 154, 25, 50, 100, 200, 189);
    AlogLine(144, 189, 87, 174, 113, 226, 233, 255, 211, 139, 59, 118, 236, 245, 199, 163, 107, 214);
    AlogLine(160, 214, 129, 47, 94, 188, 85, 170, 121, 242, 201, 191, 83, 166, 97, 194, 169, 127);
    AlogLine(176, 127, 254, 209, 143, 51, 102, 204, 181, 71, 142, 49, 98, 196, 165, 103, 206, 177);
    AlogLine(192, 177, 79, 158, 17, 34, 68, 136, 61, 122, 244, 197, 167, 99, 198, 161, 111, 222);
    AlogLine(208, 222, 145, 15, 30, 60, 120, 240, 205, 183, 67, 134, 33, 66, 132, 37, 74, 148);
    AlogLine(224, 148, 5, 10, 20, 40, 80, 160, 109, 218, 153, 31, 62, 124, 248, 221, 151, 3);
    AlogLine(240, 3, 6, 12, 24, 48, 96, 192, 173, 119, 238, 241, 207, 179, 75, 150, 1, 2);
  }

  // ----- the tables -----

  /** Sixteen entries of a table. */
  datatype Line<T> = Line(
    v0: T, v1: T, v2: T, v3: T, v4: T, v5: T, v6: T, v7: T, v8: T, v9: T, v10: T, v11: T, v12: T, v13: T, v14: T,
    v15: T) {
    function At(c: nat): T {
      match c
      case 0 => v0 case 1 => v1 case 2 => v2 case 3 => v3 case 4 => v4 case 5 => v5 case 6 => v6 case 7 => v7
      case 8 => v8 case 9 => v9 case 10 => v10 case 11 => v11 case 12 => v12 case 13 => v13 case 14 => v14 case _ => v15
    }
  }

  function AlogRow(r: nat): Line<bv16> {
    match r
    case 0 => Line(1, 2, 4, 8, 16, 32, 64, 128, 45, 90, 180, 69, 138, 57, 114, 228)
    case 1 => Line(229, 231, 227, 235, 251, 219, 155, 27, 54, 108, 216, 157, 23, 46, 92, 184)
    case 2 => Line(93, 186, 89, 178, 73, 146, 9, 18, 36, 72, 144, 13, 26, 52, 104, 208)
    case 3 => Line(141, 55, 110, 220, 149, 7, 14, 28, 56, 112, 224, 237, 247, 195, 171, 123)
    case 4 => Line(246, 193, 175, 115, 230, 225, 239, 243, 203, 187, 91, 182, 65, 130, 41, 82)
    case 5 => Line(164, 101, 202, 185, 95, 190, 81, 162, 105, 210, 137, 63, 126, 252, 213, 135)
    case 6 => Line(35, 70, 140, 53, 106, 212, 133, 39, 78, 156, 21, 42, 84, 168, 125, 250)
    case 7 => Line(217, 159, 19, 38, 76, 152, 29, 58, 116, 232, 253, 215, 131, 43, 86, 172)
    case 8 => Line(117, 234, 249, 223, 147, 11, 22, 44, 88, 176, 77, 154, 25, 50, 100, 200)
    case 9 => Line(189, 87, 174, 113, 226, 233, 255, 211, 139, 59, 118, 236, 245, 199, 163, 107)
    case 10 => Line(214, 129, 47, 94, 188, 85, 170, 121, 242, 201, 191, 83, 166, 97, 194, 169)
    case 11 => Line(127, 254, 209, 143, 51, 102, 204, 181, 71, 142, 49, 98, 196, 165, 103, 206)
    case 12 => Line(177, 79, 158, 17, 34, 68, 136, 61, 122, 244, 197, 167, 99, 198, 161, 111)
    case 13 => Line(222, 145, 15, 30, 60, 120, 240, 205, 183, 67, 134, 33, 66, 132, 37, 74)
    case 14 => Line(148, 5, 10, 20, 40, 80, 160, 109, 218, 153, 31, 62, 124, 248, 221, 151)
    case _ => Line(3, 6, 12, 24, 48, 96, 192, 173, 119, 238, 241, 207, 179, 75, 150, 1)
  }

  function LogRow(r: nat): Line<nat> {
    match r
    case 0 => Line(0, 255, 1, 240, 2, 225, 241, 53, 3, 38, 226, 133, 242, 43, 54, 210)
    case 1 => Line(4, 195, 39, 114, 227, 106, 134, 28, 243, 140, 44, 23, 55, 118, 211, 234)
    case 2 => Line(5, 219, 196, 96, 40, 222, 115, 103, 228, 78, 107, 125, 135, 8, 29, 162)
    case 3 => Line(244, 186, 141, 180, 45, 99, 24, 49, 56, 13, 119, 153, 212, 199, 235, 91)
    case 4 => Line(6, 76, 220, 217, 197, 11, 97, 184, 41, 36, 223, 253, 116, 138, 104, 193)
    case 5 => Line(229, 86, 79, 171, 108, 165, 126, 145, 136, 34, 9, 74, 30, 32, 163, 84)
    case 6 => Line(245, 173, 187, 204, 142, 81, 181, 190, 46, 88, 100, 159, 25, 231, 50, 207)
    case 7 => Line(57, 147, 14, 67, 120, 128, 154, 248, 213, 167, 200, 63, 236, 110, 92, 176)
    case 8 => Line(7, 161, 77, 124, 221, 102, 218, 95, 198, 90, 12, 152, 98, 48, 185, 179)
    case 9 => Line(42, 209, 37, 132, 224, 52, 254, 239, 117, 233, 139, 22, 105, 27, 194, 113)
    case 10 => Line(230, 206, 87, 158, 80, 189, 172, 203, 109, 175, 166, 62, 127, 247, 146, 66)
    case 11 => Line(137, 192, 35, 252, 10, 183, 75, 216, 31, 83, 33, 73, 164, 144, 85, 170)
    case 12 => Line(246, 65, 174, 61, 188, 202, 205, 157, 143, 169, 82, 72, 182, 215, 191, 251)
    case 13 => Line(47, 178, 89, 151, 101, 94, 160, 123, 26, 112, 232, 21, 51, 238, 208, 131)
    case 14 => Line(58, 69, 148, 18, 15, 16, 68, 17, 121, 149, 129, 19, 155, 59, 249, 70)
    case _ => Line(214, 250, 168, 71, 201, 156, 64, 60, 237, 130, 111, 20, 93, 122, 177, 150)
  }

  /** The program's tables. */
  const ALOG: seq<nat> := seq(256, i requires 0 <= i < 256 => Number(AlogRow(i / 16).At(i % 16), 8))
  const LOG: seq<nat> := seq(256, i requires 0 <= i < 256 => LogRow(i / 16).At(i % 16))

  /** A row of antilogarithms from power k on. */
  ghost predicate PowersFrom(row: Line<bv16>, k: nat) {
      row.v0 == Power(k + 0) && row.v1 == Power(k + 1) && row.v2 == Power(k + 2) && row.v3 == Power(k + 3) &&
      row.v4 == Power(k + 4) && row.v5 == Power(k + 5) && row.v6 == Power(k + 6) && row.v7 == Power(k + 7) &&
      row.v8 == Power(k + 8) && row.v9 == Power(k + 9) && row.v10 == Power(k + 10) && row.v11 == Power(k + 11) &&
      row.v12 == Power(k + 12) && row.v13 == Power(k + 13) && row.v14 == Power(k + 14) && row.v15 == Power(k + 15)
  }

  lemma PowerAt(row: Line<bv16>, k: nat, c: nat)
    requires PowersFrom(row, k) && c < 16
    ensures row.At(c) == Power(k + c)
  {
    hide Power;
    match c
    case 0 => case 1 => case 2 => case 3 => case 4 => case 5 => case 6 => case 7 =>
    case 8 => case 9 => case 10 => case 11 => case 12 => case 13 => case 14 => case _ =>
  }

  lemma AlogPowers(k: nat,
                   v0: bv16, v1: bv16, v2: bv16, v3: bv16, v4: bv16, v5: bv16, v6: bv16, v7: bv16, v8: bv16, v9: bv16,
                   v10: bv16, v11: bv16, v12: bv16, v13: bv16, v14: bv16, v15: bv16)
    requires
      Power(k + 0) == v0 && Power(k + 1) == v1 && Power(k + 2) == v2 && Power(k + 3) == v3 && Power(k + 4) == v4 &&
      Power(k + 5) == v5 && Power(k + 6) == v6 && Power(k + 7) == v7 && Power(k + 8) == v8 && Power(k + 9) == v9 &&
      Power(k + 10) == v10 && Power(k + 11) == v11 && Power(k + 12) == v12 && Power(k + 13) == v13 &&
      Power(k + 14) == v14 && Power(k + 15) == v15
    ensures PowersFrom(Line(v0, v1, v2, v3, v4, v5, v6, v7, v8, v9, v10, v11, v12, v13, v14, v15), k)
  {
    hide Power;
  }

  lemma AlogRows(r: nat)
    requires r < 16
    ensures PowersFrom(AlogRow(r), 16 * r)
  {
    hide Power, PowersFrom;
    Powers();
    match r
    case 0 => AlogPowers(0, 1, 2, 4, 8, 16, 32, 64, 128, 45, 90, 180, 69, 138, 57, 114, 228);
    case 1 => AlogPowers(16, 229, 231, 227, 235, 251, 219, 155, 27, 54, 108, 216, 157, 23, 46, 92, 184);
    case 2 => AlogPowers(32, 93, 186, 89, 178, 73, 146, 9, 18, 36, 72, 144, 13, 26, 52, 104, 208);
    case 3 => AlogPowers(48, 141, 55, 110, 220, 149, 7, 14, 28, 56, 112, 224, 237, 247, 195, 171, 123);
    case 4 => AlogPowers(64, 246, 193, 175, 115, 230, 225, 239, 243, 203, 187, 91, 182, 65, 130, 41, 82);
    case 5 => AlogPowers(80, 164, 101, 202, 185, 95, 190, 81, 162, 105, 210, 137, 63, 126, 252, 213, 135);
    case 6 => AlogPowers(96, 35, 70, 140, 53, 106, 212, 133, 39, 78, 156, 21, 42, 84, 168, 125, 250);
    case 7 => AlogPowers(112, 217, 159, 19, 38, 76, 152, 29, 58, 116, 232, 253, 215, 131, 43, 86, 172);
    case 8 => AlogPowers(128, 117, 234, 249, 223, 147, 11, 22, 44, 88, 176, 77, 154, 25, 50, 100, 200);
    case 9 => AlogPowers(144, 189, 87, 174, 113, 226, 233, 255, 211, 139, 59, 118, 236, 245, 199, 163, 107);
    case 10 => AlogPowers(160, 214, 129, 47, 94, 188, 85, 170, 121, 242, 201, 191, 83, 166, 97, 194, 169);
    case 11 => AlogPowers(176, 127, 254, 209, 143, 51, 102, 204, 181, 71, 142, 49, 98, 196, 165, 103, 206);
    case 12 => AlogPowers(192, 177, 79, 158, 17, 34, 68, 136, 61, 122, 244, 197, 167, 99, 198, 161, 111);
    case 13 => AlogPowers(208, 222, 145, 15, 30, 60, 120, 240, 205, 183, 67, 134, 33, 66, 132, 37, 74);
    case 14 => AlogPowers(224, 148, 5, 10, 20, 40, 80, 160, 109, 218, 153, 31, 62, 124, 248, 221, 151);
    case _ => AlogPowers(240, 3, 6, 12, 24, 48, 96, 192, 173, 119, 238, 241, 207, 179, 75, 150, 1);
  }

  /** The logarithm of a byte, if that is not zero. */
  ghost predicate IsLog(e: nat, v: nat) {
    v > 0 ==> Number(Power(e % 255), 8) == v
  }

  /** A row of logarithms of the bytes from b on. */
  ghost predicate LogsFrom(row: Line<nat>, b: nat) {
      IsLog(row.v0, b + 0) && IsLog(row.v1, b + 1) && IsLog(row.v2, b + 2) && IsLog(row.v3, b + 3) &&
      IsLog(row.v4, b + 4) && IsLog(row.v5, b + 5) && IsLog(row.v6, b + 6) && IsLog(row.v7, b + 7) &&
      IsLog(row.v8, b + 8) && IsLog(row.v9, b + 9) && IsLog(row.v10, b + 10) && IsLog(row.v11, b + 11) &&
      IsLog(row.v12, b + 12) && IsLog(row.v13, b + 13) && IsLog(row.v14, b + 14) && IsLog(row.v15, b + 15)
  }

  lemma LogAt(row: Line<nat>, b: nat, c: nat)
    requires LogsFrom(row, b) && c < 16
    ensures IsLog(row.At(c), b + c)
  {
    hide IsLog;
  }

  lemma NumberParts(x: bv16)
    ensures Number(x, 8) == (if Odd(x) then 1 else 0) + (if Odd(Half(x)) then 2 else 0) + (if Odd(Half(Half(x))) then 4 else 0)
      + (if Odd(Half(Half(Half(x)))) then 8 else 0) + 16 * Number(Half(Half(Half(Half(x)))), 4)
  {
    hide Odd, Half, Number;
    NumberStep(x, 8);
    NumberStep(Half(x), 7);
    NumberStep(Half(Half(x)), 6);
    NumberStep(Half(Half(Half(x))), 5);
  }

  /** A multiple of sixteen, and a number below it. */
  predicate IsLine(b: bv16) {
    b & 15 == 0
  }

  predicate IsLow(j: bv16) {
    j & 0xfff0 == 0
  }

  lemma LineBits(b: bv16)
    requires IsLine(b)
    ensures !Odd(b) && !Odd(Half(b)) && !Odd(Half(Half(b))) && !Odd(Half(Half(Half(b))))
  {
  }

  lemma LowBits(j: bv16)
    requires IsLow(j)
    ensures Half(Half(Half(Half(j)))) == 0
  {
  }

  lemma NumberSum(b: bv16, j: bv16)
    requires IsLine(b) && IsLow(j)
    ensures Number(Sum(b, j), 8) == Number(b, 8) + Number(j, 8)
  {
    hide *;
    LineBits(b);
    LowBits(j);
    SumBits(b, j);
    SumBits(Half(b), Half(j));
    SumBits(Half(Half(b)), Half(Half(j)));
    SumBits(Half(Half(Half(b))), Half(Half(Half(j))));
    SumZero(Half(Half(Half(Half(b)))));
    NumberParts(Sum(b, j));
    NumberParts(b);
    NumberParts(j);
    NumberZero(4);
  }

  lemma LowNumber(b: bv16, j: bv16, e: nat, n: nat)
    requires IsLine(b) && IsLow(j) && Power(e % 255) == Sum(b, j)
    requires Number(b, 8) + Number(j, 8) == n
    ensures IsLog(e, n)
  {
    hide Number, Power, Sum, IsLine, IsLow;
    NumberSum(b, j);
  }

  lemma LogLine(b: bv16, n: nat,
                e0: nat, e1: nat, e2: nat, e3: nat, e4: nat, e5: nat, e6: nat, e7: nat, e8: nat, e9: nat, e10: nat,
                e11: nat, e12: nat, e13: nat, e14: nat, e15: nat)
    requires IsLine(b) && Number(b, 8) == n
    requires n == 0 || Power(e0 % 255) == Sum(b, 0)
    requires
      Power(e1 % 255) == Sum(b, 1) && Power(e2 % 255) == Sum(b, 2) && Power(e3 % 255) == Sum(b, 3) &&
      Power(e4 % 255) == Sum(b, 4) && Power(e5 % 255) == Sum(b, 5) && Power(e6 % 255) == Sum(b, 6) &&
      Power(e7 % 255) == Sum(b, 7) && Power(e8 % 255) == Sum(b, 8) && Power(e9 % 255) == Sum(b, 9) &&
      Power(e10 % 255) == Sum(b, 10) && Power(e11 % 255) == Sum(b, 11) && Power(e12 % 255) == Sum(b, 12) &&
      Power(e13 % 255) == Sum(b, 13) && Power(e14 % 255) == Sum(b, 14) && Power(e15 % 255) == Sum(b, 15)
    ensures LogsFrom(Line(e0, e1, e2, e3, e4, e5, e6, e7, e8, e9, e10, e11, e12, e13, e14, e15), n)
  {
    hide Power, Number, Sum, IsLog, IsLine, IsLow;
    SmallNumbers();
    if n > 0 {
      LowNumber(b, 0, e0, n);
    }
    ZeroHasNone(e0);
    LowNumber(b, 1, e1, n + 1); LowNumber(b, 2, e2, n + 2); LowNumber(b, 3, e3, n + 3); LowNumber(b, 4, e4, n + 4);
    LowNumber(b, 5, e5, n + 5); LowNumber(b, 6, e6, n + 6); LowNumber(b, 7, e7, n + 7); LowNumber(b, 8, e8, n + 8);
    LowNumber(b, 9, e9, n + 9); LowNumber(b, 10, e10, n + 10); LowNumber(b, 11, e11, n + 11);
    LowNumber(b, 12, e12, n + 12); LowNumber(b, 13, e13, n + 13); LowNumber(b, 14, e14, n + 14);
    LowNumber(b, 15, e15, n + 15);
  }

  lemma ZeroHasNone(e: nat)
    ensures IsLog(e, 0)
  {
  }

  lemma SmallNumbers()
    ensures
      IsLow(0) && Number(0, 8) == 0 && IsLow(1) && Number(1, 8) == 1 && IsLow(2) && Number(2, 8) == 2 &&
      IsLow(3) && Number(3, 8) == 3 && IsLow(4) && Number(4, 8) == 4 && IsLow(5) && Number(5, 8) == 5 &&
      IsLow(6) && Number(6, 8) == 6 && IsLow(7) && Number(7, 8) == 7 && IsLow(8) && Number(8, 8) == 8 &&
      IsLow(9) && Number(9, 8) == 9 && IsLow(10) && Number(10, 8) == 10 && IsLow(11) && Number(11, 8) == 11 &&
      IsLow(12) && Number(12, 8) == 12 && IsLow(13) && Number(13, 8) == 13 && IsLow(14) && Number(14, 8) == 14 &&
      IsLow(15) && Number(15, 8) == 15
  {
  }

  lemma LogRows0(r: nat)
    requires r < 5
    ensures LogsFrom(LogRow(r), 16 * r)
  {
    hide Power, LogsFrom;
    Powers();
    match r
    case 0 => LogLine(0x0, 0, 0, 255, 1, 240, 2, 225, 241, 53, 3, 38, 226, 133, 242, 43, 54, 210);
    case 1 => LogLine(0x10, 16, 4, 195, 39, 114, 227, 106, 134, 28, 243, 140, 44, 23, 55, 118, 211, 234);
    case 2 => LogLine(0x20, 32, 5, 219, 196, 96, 40, 222, 115, 103, 228, 78, 107, 125, 135, 8, 29, 162);
    case 3 => LogLine(0x30, 48, 244, 186, 141, 180, 45, 99, 24, 49, 56, 13, 119, 153, 212, 199, 235, 91);
    case _ => LogLine(0x40, 64, 6, 76, 220, 217, 197, 11, 97, 184, 41, 36, 223, 253, 116, 138, 104, 193);
  }

  lemma LogRows5(r: nat)
    requires 5 <= r < 9
    ensures LogsFrom(LogRow(r), 16 * r)
  {
    hide Power, LogsFrom;
    Powers();
    match r
    case 5 => LogLine(0x50, 80, 229, 86, 79, 171, 108, 165, 126, 145, 136, 34, 9, 74, 30, 32, 163, 84);
    case 6 => LogLine(0x60, 96, 245, 173, 187, 204, 142, 81, 181, 190, 46, 88, 100, 159, 25, 231, 50, 207);
    case 7 => LogLine(0x70, 112, 57, 147, 14, 67, 120, 128, 154, 248, 213, 167, 200, 63, 236, 110, 92, 176);
    case _ => LogLine(0x80, 128, 7, 161, 77, 124, 221, 102, 218, 95, 198, 90, 12, 152, 98, 48, 185, 179);
  }

  lemma LogRows9(r: nat)
    requires 9 <= r < 12
    ensures LogsFrom(LogRow(r), 16 * r)
  {
    hide Power, LogsFrom;
    Powers();
    match r
    case 9 => LogLine(0x90, 144, 42, 209, 37, 132, 224, 52, 254, 239, 117, 233, 139, 22, 105, 27, 194, 113);
    case 10 => LogLine(0xa0, 160, 230, 206, 87, 158, 80, 189, 172, 203, 109, 175, 166, 62, 127, 247, 146, 66);
    case _ => LogLine(0xb0, 176, 137, 192, 35, 252, 10, 183, 75, 216, 31, 83, 33, 73, 164, 144, 85, 170);
  }

  lemma LogRows12(r: nat)
    requires 12 <= r < 14
    ensures LogsFrom(LogRow(r), 16 * r)
  {
    hide Power, LogsFrom;
    Powers();
    match r
    case 12 => LogLine(0xc0, 192, 246, 65, 174, 61, 188, 202, 205, 157, 143, 169, 82, 72, 182, 215, 191, 251);
    case _ => LogLine(0xd0, 208, 47, 178, 89, 151, 101, 94, 160, 123, 26, 112, 232, 21, 51, 238, 208, 131);
  }

  lemma LogRows14(r: nat)
    requires 14 <= r < 16
    ensures LogsFrom(LogRow(r), 16 * r)
  {
    hide Power, LogsFrom;
    Powers();
    match r
    case 14 => LogLine(0xe0, 224, 58, 69, 148, 18, 15, 16, 68, 17, 121, 149, 129, 19, 155, 59, 249, 70);
    case _ => LogLine(0xf0, 240, 214, 250, 168, 71, 201, 156, 64, 60, 237, 130, 111, 20, 93, 122, 177, 150);
  }

  lemma LogRows(r: nat)
    requires r < 16
    ensures LogsFrom(LogRow(r), 16 * r)
  {
    if r < 5 {
      LogRows0(r);
    } else if r < 9 {
      LogRows5(r);
    } else if r < 12 {
      LogRows9(r);
    } else if r < 14 {
      LogRows12(r);
    } else {
      LogRows14(r);
    }
  }

  lemma AlogEntry(i: nat)
    requires i < 256
    ensures ALOG[i] == Number(Power(i), 8)
  {
    hide Number, Power, AlogRow, PowersFrom, Line.At;
    AlogRows(i / 16);
    PowerAt(AlogRow(i / 16), 16 * (i / 16), i % 16);
  }

  lemma LogEntry(v: nat)
    requires v < 256
    ensures IsLog(LOG[v], v)
  {
    hide IsLog, LogRow, LogsFrom, Line.At;
    LogRows(v / 16);
    LogAt(LogRow(v / 16), 16 * (v / 16), v % 16);
  }

  /** The two tables are those of the field. */
  lemma ProgramTables(gf: GenericGF)
    requires gf.TablesOf(0x12d) && gf.Valid() && gf.size == 256
    ensures MultTables(LOG, ALOG).TablesOf(gf)
  {
    hide Number, Power;
    forall i | 0 <= i < 255
      ensures ALOG[i] == gf.Exp(i)
    {
      AlogEntry(i);
      PowerIsExp(gf, i);
    }
    forall v | 1 <= v < 256
      ensures ALOG[LOG[v] % 255] == v
    {
      LogEntry(v);
      AlogEntry(LOG[v] % 255);
    }
  }
}
