/** Interleaved blocks come back from the decoder, even damaged ones (DMECEncoder.cpp:120-135 against DMDecoder.cpp:396-434). */
module DMBlockRoundTrip {
  import opened Bits
  import opened GenericGFs
  import opened Polynomials
  import opened Coefficients
  import opened ReedSolomonEncoders
  import opened DecoderSpec
  import opened ErrorCorrection
  import opened DecoderTheorems
  import opened DMECEncoder
  import opened DMInterleaving
  import opened DMDataBlock

  /** The encoder's and the decoder's entry for one symbol size. */
  ghost predicate SameSymbol(info: SymbolInfo, version: Version) {
    && info.WellFormed() && version.WellFormed()
    && info.InterleavedBlockCount() == version.ecBlocks.NumBlocks()
    && (forall b :: 0 <= b < version.ecBlocks.NumBlocks() ==> info.DataLength(b) == version.ecBlocks.DataCodewords(b))
    && info.rsBlockError == version.ecBlocks.codewordsPerBlock
    && info.dataCapacity == version.DataTotal()
  }

  /** A regular entry agrees when block count, block length and check words do; 144x144 is the irregular one. */
  lemma RegularSymbol(info: SymbolInfo, version: Version)
    requires info.WellFormed() && version.WellFormed() && info.rsBlockData > 0 && version.symbolHeight != 144
    requires info.InterleavedBlockCount() == version.ecBlocks.count0 && info.rsBlockData == version.ecBlocks.dataCodewords0
    requires info.rsBlockError == version.ecBlocks.codewordsPerBlock
    ensures SameSymbol(info, version) && DataEverywhere(version)
  {
    assert version.ecBlocks.count1 * version.ecBlocks.dataCodewords1 == 0;
  }

  lemma Symbol144()
    ensures SameSymbol(SymbolInfo(1558, 620, -1, 62), Version(24, 144, ECBlocks(62, 8, 156, 2, 155)))
  {
  }

  /** Without the rotation each block gets back its own data and check words. */
  lemma BlocksOfInterleaved(gf: GenericGF, info: SymbolInfo, version: Version, low: seq<nat>, codewords: seq<nat>, b: nat)
    requires SameSymbol(info, version) && Encodable(gf, info, low, codewords) && b < info.InterleavedBlockCount()
    ensures var raw := Interleaved(gf, info, low, codewords, info.InterleavedBlockCount());
      BlockOf(raw, version, false, b) ==
      DataBlock(info.DataLength(b), Block(info, codewords, b) + BlockCheck(gf, info, low, codewords, b))
  {
    hide SymbolInfo.WellFormed, SymbolInfo.InterleavedBlockCount, SymbolInfo.DataLength;
    hide Interleaved, Block, BlockCheck, Version.DataTotal, ECBlocks.NumBlocks, ECBlocks.DataCodewords;
    var raw := Interleaved(gf, info, low, codewords, info.InterleavedBlockCount());
    var block := BlockOf(raw, version, false, b);
    var n, h := info.DataLength(b), BlockCheck(gf, info, low, codewords, b);
    forall i | 0 <= i < |block.codewords|
      ensures block.codewords[i] == (Block(info, codewords, b) + h)[i]
    {
      if i < n {
        BlockWord(info, codewords, b, i);
        InterleavedData(gf, info, low, codewords, info.InterleavedBlockCount());
        var k := b + i * info.InterleavedBlockCount();
        assert raw[..info.dataCapacity][k] == codewords[k];
      } else {
        InterleavedCheck(gf, info, low, codewords, info.InterleavedBlockCount(), b, i - n);
      }
    }
  }

  /** In every block, read with or without the rotation, at most half as many words as it has check words are wrong. */
  ghost predicate FewErrors(gf: GenericGF, info: SymbolInfo, version: Version, fix259: bool, low: seq<nat>,
                            codewords: seq<nat>, received: seq<nat>)
    requires SameSymbol(info, version) && Encodable(gf, info, low, codewords)
  {
    forall b | 0 <= b < info.InterleavedBlockCount()
      :: BlockRepairable(gf, info, version, fix259, low, codewords, received, b)
  }

  ghost predicate BlockRepairable(gf: GenericGF, info: SymbolInfo, version: Version, fix259: bool, low: seq<nat>,
                                  codewords: seq<nat>, received: seq<nat>, b: nat)
    requires SameSymbol(info, version) && Encodable(gf, info, low, codewords) && b < info.InterleavedBlockCount()
  {
    var sent := Block(info, codewords, b) + BlockCheck(gf, info, low, codewords, b);
    var got := BlockOf(received, version, fix259, b).codewords;
    |sent| == |got| && |sent| < gf.size && Distance(sent, got) <= info.rsBlockError / 2
  }

  /** What the encoder sends has no errors. */
  lemma NoErrors(gf: GenericGF, info: SymbolInfo, version: Version, low: seq<nat>, codewords: seq<nat>)
    requires SameSymbol(info, version) && Encodable(gf, info, low, codewords)
    requires forall b :: 0 <= b < info.InterleavedBlockCount() ==> info.DataLength(b) + info.rsBlockError < gf.size
    ensures FewErrors(gf, info, version, false, low, codewords,
                      Interleaved(gf, info, low, codewords, info.InterleavedBlockCount()))
  {
    hide SymbolInfo.WellFormed, SymbolInfo.InterleavedBlockCount, SymbolInfo.DataLength, SameSymbol;
    hide Interleaved, Block, BlockCheck, BlockOf;
    forall b | 0 <= b < info.InterleavedBlockCount()
      ensures BlockRepairable(gf, info, version, false, low, codewords,
                              Interleaved(gf, info, low, codewords, info.InterleavedBlockCount()), b)
    {
      BlocksOfInterleaved(gf, info, version, low, codewords, b);
      DistanceSelf(Block(info, codewords, b) + BlockCheck(gf, info, low, codewords, b));
    }
  }

  lemma BlockCorrected(gf: GenericGF, info: SymbolInfo, version: Version, fix259: bool, low: seq<nat>, codewords: seq<nat>,
                       received: seq<nat>, b: nat)
    requires SameSymbol(info, version) && DataEverywhere(version) && Encodable(gf, info, low, codewords)
    requires b < info.InterleavedBlockCount() && Elems(gf, received)
    requires gf.generatorBase == 1 && |low| + 1 <= 2 * gf.size && Monic(low) == Generator(gf, |low|)
    requires BlockRepairable(gf, info, version, fix259, low, codewords, received, b)
    ensures BlockReady(gf, BlockOf(received, version, fix259, b))
    ensures DecodeBlock(gf, BlockOf(received, version, fix259, b)) ==
            (Corrected, Block(info, codewords, b) + BlockCheck(gf, info, low, codewords, b))
  {
    hide Check, Block, Distance, Generator, Monic, Decode, IsCodeword, Place, WordAt;
    hide SymbolInfo.WellFormed, SymbolInfo.InterleavedBlockCount, Version.DataTotal;
    BlocksReady(gf, received, version, fix259);
    var block := BlockOf(received, version, fix259, b);
    ReadyBlock(gf, received, version, fix259, b);
    BlockElems(gf, info, codewords, b);
    CheckedBlockIsCodeword(gf, low, Block(info, codewords, b));
    ErrorsCorrected(gf, Block(info, codewords, b) + BlockCheck(gf, info, low, codewords, b), block.codewords, |low|);
  }

  lemma ReadyBlock(gf: GenericGF, raw: seq<nat>, version: Version, fix259: bool, b: nat)
    requires gf.Valid() && Elems(gf, raw) && version.WellFormed() && DataEverywhere(version)
    requires b < version.ecBlocks.NumBlocks()
    ensures BlockReady(gf, BlockOf(raw, version, fix259, b))
  {
    hide BlockReady, BlockOf, Version.DataTotal;
    BlocksReady(gf, raw, version, fix259);
    var blocks := BlocksOf(raw, version, fix259, version.ecBlocks.NumBlocks());
    assert blocks[b] == BlockOf(raw, version, fix259, b);
  }

  lemma SameTotal(info: SymbolInfo, version: Version)
    requires SameSymbol(info, version)
    ensures info.CodewordCount() == version.ecBlocks.TotalDataCodewords() && info.InterleavedBlockCount() > 0
  {
    hide SymbolInfo.InterleavedBlockCount, Version.DataTotal, ECBlocks.TotalDataCodewords, ECBlocks.NumBlocks;
    DataTotalForm(version);
    BlockCountPositive(info);
    assert info.InterleavedBlockCount() * info.rsBlockError == info.rsBlockError * info.InterleavedBlockCount();
  }

  /** Every data word belongs to a block. */
  lemma PlaceExists(info: SymbolInfo, k: nat)
    requires info.WellFormed() && k < info.dataCapacity
    ensures var count := info.InterleavedBlockCount();
      && count > 0 && k % count < count && k == k % count + (k / count) * count
      && 0 <= k / count < info.DataLength(k % count)
  {
    var count := info.InterleavedBlockCount();
    if info.rsBlockData > 0 {
      QuotientBelow(k, count, info.rsBlockData);
    }
  }

  lemma QuotientBelow(k: nat, count: nat, n: nat)
    requires k < count * n && count > 0
    ensures 0 <= k / count < n && k == k % count + (k / count) * count
  {
    var q := k / count;
    if q >= n {
      MulMonotone(n, q, count);
      assert false;
    }
  }

  ghost predicate Recovers(gf: GenericGF, info: SymbolInfo, version: Version, low: seq<nat>, codewords: seq<nat>,
                           blocks: seq<DataBlock>)
    requires SameSymbol(info, version) && Encodable(gf, info, low, codewords)
  {
    && |blocks| == info.InterleavedBlockCount()
    && forall b | 0 <= b < |blocks| :: RecoversBlock(gf, info, version, low, codewords, blocks[b], b)
  }

  ghost predicate RecoversBlock(gf: GenericGF, info: SymbolInfo, version: Version, low: seq<nat>, codewords: seq<nat>,
                                block: DataBlock, b: nat)
    requires SameSymbol(info, version) && Encodable(gf, info, low, codewords) && b < info.InterleavedBlockCount()
  {
    && BlockReady(gf, block) && block.numDataCodewords == info.DataLength(b)
    && DecodeBlock(gf, block) == (Corrected, Block(info, codewords, b) + BlockCheck(gf, info, low, codewords, b))
  }

  lemma {:induction false} NoFailure(gf: GenericGF, info: SymbolInfo, version: Version, low: seq<nat>, codewords: seq<nat>,
                                     blocks: seq<DataBlock>, n: nat)
    requires SameSymbol(info, version) && Encodable(gf, info, low, codewords) && n <= |blocks|
    requires Recovers(gf, info, version, low, codewords, blocks) && AllReady(gf, blocks, info.dataCapacity)
    ensures FirstFailure(gf, blocks, info.dataCapacity, n) == Corrected
  {
    hide SameSymbol, Encodable, DecodeBlock, AllReady, Block, BlockCheck, BlockReady;
    if n > 0 {
      NoFailure(gf, info, version, low, codewords, blocks, n - 1);
      assert RecoversBlock(gf, info, version, low, codewords, blocks[n - 1], n - 1);
    }
  }

  lemma JoinedNext(gf: GenericGF, info: SymbolInfo, version: Version, low: seq<nat>, codewords: seq<nat>,
                   blocks: seq<DataBlock>, n: nat)
    requires SameSymbol(info, version) && Encodable(gf, info, low, codewords)
    requires Recovers(gf, info, version, low, codewords, blocks) && AllReady(gf, blocks, info.dataCapacity)
    requires 0 < n <= |blocks|
    ensures info.DataLength(n - 1) > 0 && n - 1 + (info.DataLength(n - 1) - 1) * |blocks| < info.dataCapacity
    ensures Joined(gf, blocks, info.dataCapacity, n) ==
      WriteStrided(Joined(gf, blocks, info.dataCapacity, n - 1), n - 1, |blocks|, Block(info, codewords, n - 1))
  {
    hide SymbolInfo.WellFormed, SymbolInfo.InterleavedBlockCount, SymbolInfo.DataLength, Version.DataTotal;
    hide DecodeBlock, Block, BlockCheck, WriteStrided;
    assert RecoversBlock(gf, info, version, low, codewords, blocks[n - 1], n - 1);
    var block, h := Block(info, codewords, n - 1), BlockCheck(gf, info, low, codewords, n - 1);
    assert (block + h)[..|block|] == block;
  }

  /** Word i of block b is in the joined stream at its place. */
  lemma {:induction false} JoinedAt(gf: GenericGF, info: SymbolInfo, version: Version, low: seq<nat>, codewords: seq<nat>,
                                    blocks: seq<DataBlock>, n: nat, b: nat, i: nat)
    requires SameSymbol(info, version) && Encodable(gf, info, low, codewords)
    requires Recovers(gf, info, version, low, codewords, blocks) && AllReady(gf, blocks, info.dataCapacity)
    requires b < n <= |blocks| && i < info.DataLength(b)
    ensures 0 <= b + i * |blocks| < info.dataCapacity
    ensures Joined(gf, blocks, info.dataCapacity, n)[b + i * |blocks|] == codewords[b + i * |blocks|]
    decreases n
  {
    hide SymbolInfo.WellFormed, SymbolInfo.InterleavedBlockCount, SymbolInfo.DataLength, AllReady, RecoversBlock;
    hide Block, WriteStrided, Joined, Version.DataTotal;
    var count, before := |blocks|, Joined(gf, blocks, info.dataCapacity, n - 1);
    var words := Block(info, codewords, n - 1);
    JoinedNext(gf, info, version, low, codewords, blocks, n);
    BlockWord(info, codewords, b, i);
    if b == n - 1 {
      WrittenAt(before, n - 1, count, words, i);
    } else {
      JoinedAt(gf, info, version, low, codewords, blocks, n - 1, b, i);
      OtherTurns(count, b, i, n - 1, |words|);
      NotWrittenAt(before, n - 1, count, words, b + i * count);
    }
  }

  lemma OtherTurns(count: nat, b: nat, i: nat, c: nat, n: nat)
    requires b < count && c < count && b != c
    ensures forall m :: 0 <= m < n ==> b + i * count != c + m * count
  {
    forall m | 0 <= m < n
      ensures b + i * count != c + m * count
    {
      ModUnique(b + i * count, count, i, b);
      ModUnique(c + m * count, count, m, c);
    }
  }

  lemma JoinedIsStream(gf: GenericGF, info: SymbolInfo, version: Version, low: seq<nat>, codewords: seq<nat>,
                       blocks: seq<DataBlock>)
    requires SameSymbol(info, version) && Encodable(gf, info, low, codewords)
    requires Recovers(gf, info, version, low, codewords, blocks) && AllReady(gf, blocks, info.dataCapacity)
    ensures Joined(gf, blocks, info.dataCapacity, |blocks|) == codewords
  {
    hide SymbolInfo.WellFormed, SymbolInfo.InterleavedBlockCount, SymbolInfo.DataLength, AllReady, RecoversBlock;
    hide Joined, Version.DataTotal;
    var count := info.InterleavedBlockCount();
    forall k | 0 <= k < info.dataCapacity
      ensures Joined(gf, blocks, info.dataCapacity, |blocks|)[k] == codewords[k]
    {
      PlaceExists(info, k);
      JoinedAt(gf, info, version, low, codewords, blocks, |blocks|, k % count, k / count);
    }
  }

  /** Separated, corrected and joined in one try, the blocks give back the stream. */
  lemma BlocksGiveStream(gf: GenericGF, info: SymbolInfo, version: Version, fix259: bool, low: seq<nat>, codewords: seq<nat>,
                         received: seq<nat>)
    requires SameSymbol(info, version) && DataEverywhere(version) && Encodable(gf, info, low, codewords)
    requires gf.generatorBase == 1 && |low| + 1 <= 2 * gf.size && Monic(low) == Generator(gf, |low|)
    requires Elems(gf, received) && FewErrors(gf, info, version, fix259, low, codewords, received)
    ensures AllReady(gf, BlocksOf(received, version, fix259, version.ecBlocks.NumBlocks()), version.DataTotal())
    ensures JoinedOr(gf, BlocksOf(received, version, fix259, version.ecBlocks.NumBlocks()), version.DataTotal())
      == Stream(codewords)
  {
    hide SymbolInfo.WellFormed, SymbolInfo.InterleavedBlockCount, SymbolInfo.DataLength, BlockOf, Joined, FirstFailure;
    hide Generator, Monic, BlockRepairable, BlockReady, AllReady, DecodeBlock, Block, BlockCheck;
    hide GenericGF.Valid, Version.DataTotal, ECBlocks.TotalDataCodewords;
    var count := version.ecBlocks.NumBlocks();
    var blocks := BlocksOf(received, version, fix259, count);
    SameTotal(info, version);
    BlocksReady(gf, received, version, fix259);
    forall b | 0 <= b < count
      ensures RecoversBlock(gf, info, version, low, codewords, blocks[b], b)
    {
      BlockCorrected(gf, info, version, fix259, low, codewords, received, b);
      BlockSize(info, version, received, fix259, b);
    }
    NoFailure(gf, info, version, low, codewords, blocks, count);
    JoinedIsStream(gf, info, version, low, codewords, blocks);
  }

  /**
   * The data stream survives interleaving, any errors within the capacity of each block, and the decoder's
   * separation, correction and joining; the rotated reading of 144x144 symbols is not needed.
   */
  lemma StreamRoundTrip(gf: GenericGF, info: SymbolInfo, version: Version, low: seq<nat>, codewords: seq<nat>, received: seq<nat>)
    requires SameSymbol(info, version) && DataEverywhere(version) && Encodable(gf, info, low, codewords)
    requires gf.generatorBase == 1 && |low| + 1 <= 2 * gf.size && Monic(low) == Generator(gf, |low|)
    requires Elems(gf, received) && |received| == info.CodewordCount()
    requires FewErrors(gf, info, version, false, low, codewords, received)
    ensures ReadBlocks(gf, received, version) == Stream(codewords)
  {
    hide SymbolInfo.WellFormed, SymbolInfo.InterleavedBlockCount, BlocksOf, Joined, FirstFailure, AllReady, FewErrors;
    hide Generator, Monic, GenericGF.Valid, Version.DataTotal, ECBlocks.TotalDataCodewords, JoinedOr;
    SameTotal(info, version);
    BlocksGiveStream(gf, info, version, false, low, codewords, received);
  }

  lemma BlockSize(info: SymbolInfo, version: Version, raw: seq<nat>, fix259: bool, b: nat)
    requires SameSymbol(info, version) && b < version.ecBlocks.NumBlocks()
    ensures BlockOf(raw, version, fix259, b).numDataCodewords == info.DataLength(b)
  {
  }

  // ----- old 144x144 symbols, whose check words continue the round of the data words -----

  /** With the rotation, word i of block j is word j of round i, for data and check words alike. */
  lemma RotatedPlace(version: Version, j: nat, i: nat)
    requires version.WellFormed() && version.versionNumber == 24
    requires j < 10 && i < version.ecBlocks.DataCodewords(j) + version.ecBlocks.codewordsPerBlock
    ensures Place(version, true, j, i) == 10 * i + j
  {
  }

  /** The words of block j in the order of the rounds. */
  function InRounds(raw: seq<nat>, j: nat, n: nat): (r: seq<nat>)
    ensures |r| == n
  {
    seq(n, i requires 0 <= i < n => WordAt(raw, 10 * i + j))
  }

  lemma RotatedBlock(raw: seq<nat>, version: Version, j: nat)
    requires version.WellFormed() && version.versionNumber == 24 && j < 10
    ensures var n := version.ecBlocks.DataCodewords(j);
      BlockOf(raw, version, true, j) == DataBlock(n, InRounds(raw, j, n + version.ecBlocks.codewordsPerBlock))
  {
    hide Place, WordAt, ECBlocks.DataCodewords;
    var n := version.ecBlocks.DataCodewords(j);
    var words := BlockOf(raw, version, true, j).codewords;
    forall i | 0 <= i < |words|
      ensures words[i] == WordAt(raw, 10 * i + j)
    {
      RotatedPlace(version, j, i);
    }
    assert words == InRounds(raw, j, n + version.ecBlocks.codewordsPerBlock);
  }

  /** Every tenth word from word j on differs from block j, data and check words, in no more than half its check words. */
  ghost predicate FewErrorsInRounds(gf: GenericGF, info: SymbolInfo, version: Version, low: seq<nat>, codewords: seq<nat>,
                                    received: seq<nat>)
    requires SameSymbol(info, version) && version.versionNumber == 24 && Encodable(gf, info, low, codewords)
  {
    forall j | 0 <= j < info.InterleavedBlockCount() :: BlockInRounds(gf, info, low, codewords, received, j)
  }

  ghost predicate BlockInRounds(gf: GenericGF, info: SymbolInfo, low: seq<nat>, codewords: seq<nat>, received: seq<nat>, j: nat)
    requires Encodable(gf, info, low, codewords) && j < info.InterleavedBlockCount()
  {
    var sent := Block(info, codewords, j) + BlockCheck(gf, info, low, codewords, j);
    |sent| < gf.size && Distance(sent, InRounds(received, j, |sent|)) <= info.rsBlockError / 2
  }

  /**
   * A 144x144 symbol whose words go round the ten blocks from the first data word to the last check word: when the
   * first try ends in a checksum error, the second gives the stream back, however each block is damaged within its
   * capacity.
   */
  lemma SecondTry(gf: GenericGF, info: SymbolInfo, version: Version, low: seq<nat>, codewords: seq<nat>, received: seq<nat>)
    requires SameSymbol(info, version) && version.versionNumber == 24
    requires DataEverywhere(version) && Encodable(gf, info, low, codewords)
    requires gf.generatorBase == 1 && |low| + 1 <= 2 * gf.size && Monic(low) == Generator(gf, |low|)
    requires Elems(gf, received) && |received| == info.CodewordCount()
    requires FewErrorsInRounds(gf, info, version, low, codewords, received)
    ensures AllReady(gf, BlocksOf(received, version, false, version.ecBlocks.NumBlocks()), version.DataTotal())
    ensures var first := JoinedOr(gf, BlocksOf(received, version, false, version.ecBlocks.NumBlocks()), version.DataTotal());
      ReadBlocks(gf, received, version) == if first == ChecksumError then Stream(codewords) else first
  {
    hide SymbolInfo.WellFormed, BlocksOf, BlockOf, Joined, FirstFailure, AllReady, Block, BlockCheck, Distance;
    hide Generator, Monic, GenericGF.Valid, Version.DataTotal, ECBlocks.TotalDataCodewords, JoinedOr, InRounds;
    SameTotal(info, version);
    BlocksReady(gf, received, version, false);
    forall j | 0 <= j < info.InterleavedBlockCount()
      ensures BlockRepairable(gf, info, version, true, low, codewords, received, j)
    {
      assert BlockInRounds(gf, info, low, codewords, received, j);
      RotatedBlock(received, version, j);
    }
    BlocksGiveStream(gf, info, version, true, low, codewords, received);
  }

  /** The words of ten blocks in rounds. */
  ghost function LaidInRounds(gf: GenericGF, info: SymbolInfo, version: Version, low: seq<nat>, codewords: seq<nat>): (raw: seq<nat>)
    requires SameSymbol(info, version) && version.versionNumber == 24 && Encodable(gf, info, low, codewords)
    ensures |raw| == info.CodewordCount()
  {
    seq(info.CodewordCount(), p requires 0 <= p < info.CodewordCount() =>
      WordAt(Block(info, codewords, p % 10) + BlockCheck(gf, info, low, codewords, p % 10), p / 10))
  }

  lemma RoundLength(info: SymbolInfo, version: Version, j: nat, i: nat)
    requires SameSymbol(info, version) && version.versionNumber == 24 && j < 10
    ensures info.InterleavedBlockCount() == 10 && info.DataLength(j) == version.ecBlocks.DataCodewords(j)
    ensures i < info.DataLength(j) + info.rsBlockError <==> 10 * i + j < info.CodewordCount()
  {
    SameTotal(info, version);
    DataTotalForm(version);
  }

  /** Laid out in rounds the blocks are found again, undamaged. */
  lemma RoundsHaveNoErrors(gf: GenericGF, info: SymbolInfo, version: Version, low: seq<nat>, codewords: seq<nat>)
    requires SameSymbol(info, version) && version.versionNumber == 24 && Encodable(gf, info, low, codewords)
    requires forall j :: 0 <= j < 10 ==> info.DataLength(j) + info.rsBlockError < gf.size
    ensures FewErrorsInRounds(gf, info, version, low, codewords, LaidInRounds(gf, info, version, low, codewords))
    ensures Elems(gf, LaidInRounds(gf, info, version, low, codewords))
  {
    hide Block, BlockCheck, Distance, SymbolInfo.WellFormed, SymbolInfo.DataLength, SymbolInfo.CodewordCount;
    hide SymbolInfo.InterleavedBlockCount, GenericGF.Valid, Version.WellFormed;
    var raw := LaidInRounds(gf, info, version, low, codewords);
    RoundLength(info, version, 0, 0);
    forall j | 0 <= j < 10
      ensures BlockInRounds(gf, info, low, codewords, raw, j)
    {
      var sent := Block(info, codewords, j) + BlockCheck(gf, info, low, codewords, j);
      forall i | 0 <= i < |sent|
        ensures InRounds(raw, j, |sent|)[i] == sent[i]
      {
        RoundLength(info, version, j, i);
        assert (10 * i + j) % 10 == j && (10 * i + j) / 10 == i;
      }
      assert InRounds(raw, j, |sent|) == sent;
      DistanceSelf(sent);
    }
    forall p | 0 <= p < |raw|
      ensures gf.Elem(raw[p])
    {
      BlockElems(gf, info, codewords, p % 10);
      ZeroElem(gf);
    }
  }
}
