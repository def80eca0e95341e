/** The symbol sizes of the encoder and of the decoder (core/src/datamatrix/DMSymbolInfo.cpp and DMVersion.cpp). */
module DMSymbols {
  import opened Bits
  import opened DMInterleaving
  import opened DMDataBlock
  import opened DMBlockRoundTrip

  /** An entry of the encoder's table with what its dimensions follow from. */
  datatype Symbol = Symbol(info: SymbolInfo, matrixWidth: nat, matrixHeight: nat, dataRegions: nat) {
    /** As many regions side by side as the switch of the source says, each with two modules of border. */
    function SymbolWidth(): nat {
      match dataRegions
      case 1 => matrixWidth + 2
      case 2 => 2 * matrixWidth + 4
      case 4 => 2 * matrixWidth + 4
      case 16 => 4 * matrixWidth + 8
      case _ => 6 * matrixWidth + 12
    }

    function SymbolHeight(): nat {
      match dataRegions
      case 1 => matrixHeight + 2
      case 2 => matrixHeight + 2
      case 4 => 2 * matrixHeight + 4
      case 16 => 4 * matrixHeight + 8
      case _ => 6 * matrixHeight + 12
    }
  }

  /** An entry with a single block. */
  function OneBlock(dataCapacity: nat, errorCodewords: nat, matrixWidth: nat, matrixHeight: nat, dataRegions: nat): Symbol {
    Symbol(SymbolInfo(dataCapacity, errorCodewords, dataCapacity, errorCodewords), matrixWidth, matrixHeight, dataRegions)
  }

  function Blocks(dataCapacity: nat, errorCodewords: nat, matrixWidth: nat, matrixHeight: nat, dataRegions: nat,
                  rsBlockData: int, rsBlockError: nat): Symbol {
    Symbol(SymbolInfo(dataCapacity, errorCodewords, rsBlockData, rsBlockError), matrixWidth, matrixHeight, dataRegions)
  }

  /** The encoder's table. */
  function ProdSymbol(i: nat): Symbol
    requires i < 30
  {
    match i
    case 0 => OneBlock(3, 5, 8, 8, 1)
    case 1 => OneBlock(5, 7, 10, 10, 1)
    case 2 => OneBlock(5, 7, 16, 6, 1)
    case 3 => OneBlock(8, 10, 12, 12, 1)
    case 4 => OneBlock(10, 11, 14, 6, 2)
    case 5 => OneBlock(12, 12, 14, 14, 1)
    case 6 => OneBlock(16, 14, 24, 10, 1)
    case 7 => OneBlock(18, 14, 16, 16, 1)
    case 8 => OneBlock(22, 18, 18, 18, 1)
    case 9 => OneBlock(22, 18, 16, 10, 2)
    case 10 => OneBlock(30, 20, 20, 20, 1)
    case 11 => OneBlock(32, 24, 16, 14, 2)
    case 12 => OneBlock(36, 24, 22, 22, 1)
    case 13 => OneBlock(44, 28, 24, 24, 1)
    case 14 => OneBlock(49, 28, 22, 14, 2)
    case 15 => OneBlock(62, 36, 14, 14, 4)
    case 16 => OneBlock(86, 42, 16, 16, 4)
    case 17 => OneBlock(114, 48, 18, 18, 4)
    case 18 => OneBlock(144, 56, 20, 20, 4)
    case 19 => OneBlock(174, 68, 22, 22, 4)
    case 20 => Blocks(204, 84, 24, 24, 4, 102, 42)
    case 21 => Blocks(280, 112, 14, 14, 16, 140, 56)
    case 22 => Blocks(368, 144, 16, 16, 16, 92, 36)
    case 23 => Blocks(456, 192, 18, 18, 16, 114, 48)
    case 24 => Blocks(576, 224, 20, 20, 16, 144, 56)
    case 25 => Blocks(696, 272, 22, 22, 16, 174, 68)
    case 26 => Blocks(816, 336, 24, 24, 16, 136, 56)
    case 27 => Blocks(1050, 408, 18, 18, 36, 175, 68)
    case 28 => Blocks(1304, 496, 20, 20, 36, 163, 62)
    case _ => Blocks(1558, 620, 22, 22, 36, -1, 62)
  }

  datatype Lookup = NoVersion | Found(version: Version)

  function Regular(versionNumber: nat, symbolHeight: nat, codewordsPerBlock: nat, count: nat, dataCodewords: nat): Lookup {
    Found(Version(versionNumber, symbolHeight, ECBlocks(codewordsPerBlock, count, dataCodewords, 0, 0)))
  }

  /** The decoder's search by dimensions. */
  function VersionForDimensions(height: nat, width: nat): Lookup {
    match (height, width)
    case (10, 10) => Regular(1, 10, 5, 1, 3)
    case (12, 12) => Regular(2, 12, 7, 1, 5)
    case (14, 14) => Regular(3, 14, 10, 1, 8)
    case (16, 16) => Regular(4, 16, 12, 1, 12)
    case (18, 18) => Regular(5, 18, 14, 1, 18)
    case (20, 20) => Regular(6, 20, 18, 1, 22)
    case (22, 22) => Regular(7, 22, 20, 1, 30)
    case (24, 24) => Regular(8, 24, 24, 1, 36)
    case (26, 26) => Regular(9, 26, 28, 1, 44)
    case (32, 32) => Regular(10, 32, 36, 1, 62)
    case (36, 36) => Regular(11, 36, 42, 1, 86)
    case (40, 40) => Regular(12, 40, 48, 1, 114)
    case (44, 44) => Regular(13, 44, 56, 1, 144)
    case (48, 48) => Regular(14, 48, 68, 1, 174)
    case (52, 52) => Regular(15, 52, 42, 2, 102)
    case (64, 64) => Regular(16, 64, 56, 2, 140)
    case (72, 72) => Regular(17, 72, 36, 4, 92)
    case (80, 80) => Regular(18, 80, 48, 4, 114)
    case (88, 88) => Regular(19, 88, 56, 4, 144)
    case (96, 96) => Regular(20, 96, 68, 4, 174)
    case (104, 104) => Regular(21, 104, 56, 6, 136)
    case (120, 120) => Regular(22, 120, 68, 6, 175)
    case (132, 132) => Regular(23, 132, 62, 8, 163)
    case (144, 144) => Found(Version(24, 144, ECBlocks(62, 8, 156, 2, 155)))
    case (8, 18) => Regular(25, 8, 7, 1, 5)
    case (8, 32) => Regular(26, 8, 11, 1, 10)
    case (12, 26) => Regular(27, 12, 14, 1, 16)
    case (12, 36) => Regular(28, 12, 18, 1, 22)
    case (16, 36) => Regular(29, 16, 24, 1, 32)
    case (16, 48) => Regular(30, 16, 28, 1, 49)
    case (8, 48) => Regular(31, 8, 15, 1, 18)
    case (8, 64) => Regular(32, 8, 18, 1, 24)
    case (8, 80) => Regular(33, 8, 22, 1, 32)
    case (8, 96) => Regular(34, 8, 28, 1, 38)
    case (8, 120) => Regular(35, 8, 32, 1, 49)
    case (8, 144) => Regular(36, 8, 36, 1, 63)
    case (12, 64) => Regular(37, 12, 27, 1, 43)
    case (12, 88) => Regular(38, 12, 36, 1, 64)
    case (16, 64) => Regular(39, 16, 36, 1, 62)
    case (20, 36) => Regular(40, 20, 28, 1, 44)
    case (20, 44) => Regular(41, 20, 34, 1, 56)
    case (20, 64) => Regular(42, 20, 42, 1, 84)
    case (22, 48) => Regular(43, 22, 38, 1, 72)
    case (24, 48) => Regular(44, 24, 41, 1, 80)
    case (24, 64) => Regular(45, 24, 46, 1, 108)
    case (26, 40) => Regular(46, 26, 38, 1, 70)
    case (26, 48) => Regular(47, 26, 42, 1, 90)
    case (26, 64) => Regular(48, 26, 50, 1, 118)
    case _ => NoVersion
  }

  function LookupOf(i: nat): Lookup
    requires i < 30
  {
    VersionForDimensions(ProdSymbol(i).SymbolHeight(), ProdSymbol(i).SymbolWidth())
  }

  /** An entry of blocks of one length, as many of them on both sides. */
  predicate RegularPair(info: SymbolInfo, version: Version) {
    && info.WellFormed() && version.WellFormed() && info.rsBlockData > 0 && version.symbolHeight != 144
    && info.InterleavedBlockCount() == version.ecBlocks.count0 && info.rsBlockData == version.ecBlocks.dataCodewords0
    && info.rsBlockError == version.ecBlocks.codewordsPerBlock
  }

  lemma Quotient(a: nat, b: nat, q: nat)
    requires b > 0 && a == q * b
    ensures a / b == q
  {
    ModUnique(a, b, q, 0);
  }

  /** An entry of count blocks, found by its dimensions. */
  lemma Entry(i: nat, height: nat, width: nat, count: nat)
    requires i < 30 && ProdSymbol(i).SymbolHeight() == height && ProdSymbol(i).SymbolWidth() == width
    requires var info := ProdSymbol(i).info;
      && info.rsBlockData > 0 && info.rsBlockError > 0 && count > 0
      && info.dataCapacity == count * info.rsBlockData && info.errorCodewords == count * info.rsBlockError
    ensures ProdSymbol(i).info.WellFormed() && ProdSymbol(i).info.InterleavedBlockCount() == count
    ensures LookupOf(i) == VersionForDimensions(height, width)
  {
    hide ProdSymbol, VersionForDimensions, Symbol.SymbolHeight, Symbol.SymbolWidth;
    Quotient(ProdSymbol(i).info.dataCapacity, ProdSymbol(i).info.rsBlockData, count);
  }

  lemma Entries0(i: nat)
    requires i < 15
    ensures LookupOf(i).Found? && RegularPair(ProdSymbol(i).info, LookupOf(i).version)
  {
    hide LookupOf, SymbolInfo.WellFormed, SymbolInfo.InterleavedBlockCount;
    match i
    case 0 => Entry(0, 10, 10, 1);
    case 1 => Entry(1, 12, 12, 1);
    case 2 => Entry(2, 8, 18, 1);
    case 3 => Entry(3, 14, 14, 1);
    case 4 => Entry(4, 8, 32, 1);
    case 5 => Entry(5, 16, 16, 1);
    case 6 => Entry(6, 12, 26, 1);
    case 7 => Entry(7, 18, 18, 1);
    case 8 => Entry(8, 20, 20, 1);
    case 9 => Entry(9, 12, 36, 1);
    case 10 => Entry(10, 22, 22, 1);
    case 11 => Entry(11, 16, 36, 1);
    case 12 => Entry(12, 24, 24, 1);
    case 13 => Entry(13, 26, 26, 1);
    case _ => Entry(14, 16, 48, 1);
  }

  lemma Entries15(i: nat)
    requires 15 <= i < 23
    ensures LookupOf(i).Found? && RegularPair(ProdSymbol(i).info, LookupOf(i).version)
  {
    hide LookupOf, SymbolInfo.WellFormed, SymbolInfo.InterleavedBlockCount;
    match i
    case 15 => Entry(15, 32, 32, 1);
    case 16 => Entry(16, 36, 36, 1);
    case 17 => Entry(17, 40, 40, 1);
    case 18 => Entry(18, 44, 44, 1);
    case 19 => Entry(19, 48, 48, 1);
    case 20 => Entry(20, 52, 52, 2);
    case 21 => Entry(21, 64, 64, 2);
    case _ => Entry(22, 72, 72, 4);
  }

  lemma Entries23(i: nat)
    requires 23 <= i < 29
    ensures LookupOf(i).Found? && RegularPair(ProdSymbol(i).info, LookupOf(i).version)
  {
    hide LookupOf, SymbolInfo.WellFormed, SymbolInfo.InterleavedBlockCount;
    match i
    case 23 => Entry(23, 80, 80, 4);
    case 24 => Entry(24, 88, 88, 4);
    case 25 => Entry(25, 96, 96, 4);
    case 26 => Entry(26, 104, 104, 6);
    case 27 => Entry(27, 120, 120, 6);
    case _ => Entry(28, 132, 132, 8);
  }

  lemma LastEntry()
    ensures ProdSymbol(29).info == SymbolInfo(1558, 620, -1, 62)
    ensures LookupOf(29) == Found(Version(24, 144, ECBlocks(62, 8, 156, 2, 155)))
  {
  }

  /**
   * The two tables agree on every size that the encoder can choose: the version that the decoder finds by the
   * dimensions of the drawn symbol has the same blocks of the same lengths with as many check words.
   */
  lemma EverySymbolAgrees(i: nat)
    requires i < 30
    ensures LookupOf(i).Found?
    ensures SameSymbol(ProdSymbol(i).info, LookupOf(i).version) && DataEverywhere(LookupOf(i).version)
  {
    hide LookupOf, SameSymbol, SymbolInfo.WellFormed, SymbolInfo.InterleavedBlockCount, Version.WellFormed;
    if i < 15 {
      Entries0(i);
    } else if i < 23 {
      Entries15(i);
    } else if i < 29 {
      Entries23(i);
    }
    if i == 29 {
      LastEntry();
      Symbol144();
    } else {
      RegularSymbol(ProdSymbol(i).info, LookupOf(i).version);
    }
  }

  /** The encoder's table ascends, so that the first symbol with room is the smallest. */
  lemma CapacitiesAscend(i: nat)
    requires i < 29
    ensures ProdSymbol(i).info.dataCapacity <= ProdSymbol(i + 1).info.dataCapacity
  {
    match i
    case 0 => case 1 => case 2 => case 3 => case 4 => case 5 => case 6 => case 7 => case 8 => case 9 => case 10 =>
    case 11 => case 12 => case 13 => case 14 => case 15 => case 16 => case 17 => case 18 => case 19 => case 20 =>
    case 21 => case 22 => case 23 => case 24 => case 25 => case 26 => case 27 => case _ =>
  }
}
