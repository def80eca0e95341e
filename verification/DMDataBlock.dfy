/** Data Matrix blocks taken apart, corrected and joined (DMVersion.h:23-53, DMDataBlock.cpp:18-61, DMDecoder.cpp:379-434). */
module DMDataBlock {
  import opened Bits
  import opened GenericGFs
  import opened Polynomials
  import opened Coefficients
  import opened GenericGFPolys
  import opened DecoderSpec
  import ErrorCorrection
  import opened ReedSolomonDecoders
  import opened DMECEncoder

  datatype ECBlocks = ECBlocks(codewordsPerBlock: nat, count0: nat, dataCodewords0: nat, count1: nat, dataCodewords1: nat) {
    function NumBlocks(): nat {
      count0 + count1
    }

    /** Data words of block j. */
    function DataCodewords(j: nat): nat {
      if j < count0 then dataCodewords0 else dataCodewords1
    }

    function TotalDataCodewords(): nat {
      count0 * (dataCodewords0 + codewordsPerBlock) + count1 * (dataCodewords1 + codewordsPerBlock)
    }
  }

  datatype Version = Version(versionNumber: nat, symbolHeight: nat, ecBlocks: ECBlocks) {
    /** One kind of blocks, or the two of version 24, the second one word shorter. */
    predicate WellFormed() {
      && ecBlocks.count0 > 0 && ecBlocks.dataCodewords0 > 0 && ecBlocks.codewordsPerBlock > 0
      && (symbolHeight == 144 <==> versionNumber == 24)
      && (if symbolHeight == 144 then
            ecBlocks.count0 == 8 && ecBlocks.count1 == 2 && ecBlocks.dataCodewords0 == ecBlocks.dataCodewords1 + 1
          else ecBlocks.count1 == 0)
    }

    /** Data words of all blocks together. */
    function DataTotal(): nat {
      ecBlocks.count0 * ecBlocks.dataCodewords0 + ecBlocks.count1 * ecBlocks.dataCodewords1
    }
  }

  datatype DataBlock = DataBlock(numDataCodewords: nat, codewords: seq<nat>)

  /** Which turn of the interleaved check words belongs to block j: a rotation for some symbols of version 24. */
  function CheckTurn(version: Version, fix259: bool, j: nat): nat
    requires version.WellFormed() && j < version.ecBlocks.NumBlocks()
  {
    if version.symbolHeight == 144 && fix259 then (j + 2) % 10 else j
  }

  /** Where word i of block j is found. */
  function Place(version: Version, fix259: bool, j: nat, i: nat): int
    requires version.WellFormed() && j < version.ecBlocks.NumBlocks()
  {
    var count, n := version.ecBlocks.NumBlocks(), version.ecBlocks.DataCodewords(j);
    if i < n then i * count + j else version.DataTotal() + (i - n) * count + CheckTurn(version, fix259, j)
  }

  /** The word at a place, 0 outside. */
  function WordAt(raw: seq<nat>, place: int): nat {
    if 0 <= place < |raw| then raw[place] else 0
  }

  /** Block j of the interleaved words. */
  function BlockOf(raw: seq<nat>, version: Version, fix259: bool, j: nat): DataBlock
    requires version.WellFormed() && j < version.ecBlocks.NumBlocks()
  {
    var n := version.ecBlocks.DataCodewords(j);
    DataBlock(n, seq(version.ecBlocks.codewordsPerBlock + n, i requires 0 <= i => WordAt(raw, Place(version, fix259, j, i))))
  }

  /** The first n blocks. */
  function BlocksOf(raw: seq<nat>, version: Version, fix259: bool, n: nat): (blocks: seq<DataBlock>)
    requires version.WellFormed() && n <= version.ecBlocks.NumBlocks()
    ensures |blocks| == n
  {
    seq(n, j requires 0 <= j < n => BlockOf(raw, version, fix259, j))
  }

  // ----- filling the blocks -----

  ghost predicate Shapes(ecBlocks: ECBlocks, words: seq<seq<nat>>) {
    && |words| == ecBlocks.NumBlocks()
    && forall j :: 0 <= j < |words| ==> |words[j]| == ecBlocks.codewordsPerBlock + ecBlocks.DataCodewords(j)
  }

  method NewBlocks(ecBlocks: ECBlocks) returns (words: seq<seq<nat>>)
    ensures Shapes(ecBlocks, words)
  {
    words := [];
    for i := 0 to ecBlocks.count0
      invariant |words| == i && forall j :: 0 <= j < i ==> |words[j]| == ecBlocks.codewordsPerBlock + ecBlocks.dataCodewords0
    {
      words := words + [Zeros(ecBlocks.codewordsPerBlock + ecBlocks.dataCodewords0)];
    }
    for i := 0 to ecBlocks.count1
      invariant |words| == ecBlocks.count0 + i
      invariant forall j :: 0 <= j < |words| ==> |words[j]| == ecBlocks.codewordsPerBlock + ecBlocks.DataCodewords(j)
    {
      words := words + [Zeros(ecBlocks.codewordsPerBlock + ecBlocks.dataCodewords1)];
    }
  }

  /** Word i of the first n blocks from the next n raw words. */
  method FillRow(raw: seq<nat>, words: seq<seq<nat>>, i: nat, offset: nat, n: nat) returns (words': seq<seq<nat>>)
    requires n <= |words| && offset + n <= |raw| && forall j :: 0 <= j < n ==> i < |words[j]|
    ensures |words'| == |words|
    ensures forall j :: 0 <= j < |words| ==> words'[j] == if j < n then words[j][i := raw[offset + j]] else words[j]
  {
    words' := words;
    for j := 0 to n
      invariant |words'| == |words|
      invariant forall b :: 0 <= b < |words| ==> words'[b] == if b < j then words[b][i := raw[offset + b]] else words[b]
    {
      words' := words'[j := words'[j][i := raw[offset + j]]];
    }
  }

  /** The first n data words of each block that has that many. */
  ghost predicate DataFilled(raw: seq<nat>, ecBlocks: ECBlocks, words: seq<seq<nat>>, n: nat) {
    && Shapes(ecBlocks, words)
    && forall j, i | 0 <= j < |words| && 0 <= i < n && i < ecBlocks.DataCodewords(j)
         :: words[j][i] == WordAt(raw, i * ecBlocks.NumBlocks() + j)
  }

  lemma RowFilled(raw: seq<nat>, ecBlocks: ECBlocks, words: seq<seq<nat>>, i: nat, words': seq<seq<nat>>, n: nat)
    requires DataFilled(raw, ecBlocks, words, i) && |words'| == |words| && n <= |words|
    requires i * ecBlocks.NumBlocks() + n <= |raw| && i * ecBlocks.NumBlocks() >= 0
    requires forall j :: 0 <= j < n ==> i < |words[j]|
    requires forall j :: n <= j < |words| ==> ecBlocks.DataCodewords(j) <= i
    requires forall j :: 0 <= j < |words| ==>
      words'[j] == if j < n then words[j][i := raw[i * ecBlocks.NumBlocks() + j]] else words[j]
    ensures DataFilled(raw, ecBlocks, words', i + 1)
  {
    hide ECBlocks.NumBlocks, ECBlocks.DataCodewords;
  }

  /** All data words, the last one only where it exists. */
  method FillData(raw: seq<nat>, version: Version) returns (words: seq<seq<nat>>, rawCodewordsOffset: nat)
    requires version.WellFormed() && |raw| >= version.DataTotal()
    ensures DataFilled(raw, version.ecBlocks, words, version.ecBlocks.dataCodewords0)
    ensures rawCodewordsOffset == version.DataTotal()
  {
    var ecBlocks := version.ecBlocks;
    var numResultBlocks := ecBlocks.NumBlocks();
    words := NewBlocks(ecBlocks);
    var numDataCodewords := |words[0]| - ecBlocks.codewordsPerBlock;
    rawCodewordsOffset := 0;
    DataTotalForm(version);
    // as many words as all blocks have
    for i := 0 to numDataCodewords - 1
      invariant rawCodewordsOffset == i * numResultBlocks
      invariant DataFilled(raw, ecBlocks, words, i)
    {
      Scaled(i, numDataCodewords - 1, numResultBlocks);
      var next := FillRow(raw, words, i, rawCodewordsOffset, numResultBlocks);
      RowFilled(raw, ecBlocks, words, i, next, numResultBlocks);
      words := next;
      rawCodewordsOffset := rawCodewordsOffset + numResultBlocks;
    }
    // the last word of the longer ones
    var numLongerBlocks := if version.symbolHeight == 144 then 8 else numResultBlocks;
    var next := FillRow(raw, words, numDataCodewords - 1, rawCodewordsOffset, numLongerBlocks);
    RowFilled(raw, ecBlocks, words, numDataCodewords - 1, next, numLongerBlocks);
    words := next;
    rawCodewordsOffset := rawCodewordsOffset + numLongerBlocks;
  }

  lemma DataTotalForm(version: Version)
    requires version.WellFormed()
    ensures var count, n := version.ecBlocks.NumBlocks(), version.ecBlocks.dataCodewords0;
      && 0 <= (n - 1) * count
      && version.DataTotal() == (n - 1) * count + (if version.symbolHeight == 144 then 8 else count)
      && version.ecBlocks.TotalDataCodewords() == version.DataTotal() + version.ecBlocks.codewordsPerBlock * count
  {
    var e := version.ecBlocks;
    Positive(e.dataCodewords0 - 1, e.NumBlocks());
    MulStep(e.dataCodewords0 - 1, e.NumBlocks());
    assert e.count0 * (e.dataCodewords0 + e.codewordsPerBlock) == e.count0 * e.dataCodewords0 + e.count0 * e.codewordsPerBlock;
    if version.symbolHeight != 144 {
      assert e.count1 * (e.dataCodewords1 + e.codewordsPerBlock) == 0;
      assert e.count1 * e.dataCodewords1 == 0;
    }
  }

  // ----- the check words -----

  function TurnBlock(version: Version, fix259: bool, j: nat): nat {
    if version.symbolHeight == 144 && fix259 then (j + 8) % 10 else j
  }

  lemma TurnsInverse(version: Version, fix259: bool, j: nat, b: nat)
    requires version.WellFormed() && j < version.ecBlocks.NumBlocks() && b < version.ecBlocks.NumBlocks()
    ensures TurnBlock(version, fix259, j) < version.ecBlocks.NumBlocks()
    ensures CheckTurn(version, fix259, b) < version.ecBlocks.NumBlocks()
    ensures TurnBlock(version, fix259, j) == b <==> CheckTurn(version, fix259, b) == j
  {
  }

  /** Check word e of every block. */
  method FillCheckRow(raw: seq<nat>, version: Version, fix259: bool, words: seq<seq<nat>>, e: nat, offset: nat)
      returns (words': seq<seq<nat>>)
    requires version.WellFormed() && Shapes(version.ecBlocks, words) && e < version.ecBlocks.codewordsPerBlock
    requires offset + |words| <= |raw|
    ensures Shapes(version.ecBlocks, words')
    ensures forall b | 0 <= b < |words|
      :: CheckTurn(version, fix259, b) < |words|
         && words'[b] == words[b][version.ecBlocks.DataCodewords(b) + e := raw[offset + CheckTurn(version, fix259, b)]]
  {
    words' := words;
    var numDataCodewords := version.ecBlocks.dataCodewords0;
    forall b | 0 <= b < |words|
      ensures CheckTurn(version, fix259, b) < |words|
    {
      TurnsInverse(version, fix259, b, b);
    }
    for j := 0 to |words|
      invariant Shapes(version.ecBlocks, words')
      invariant forall b | 0 <= b < |words|
        :: words'[b] == if CheckTurn(version, fix259, b) < j
             then words[b][version.ecBlocks.DataCodewords(b) + e := raw[offset + CheckTurn(version, fix259, b)]]
             else words[b]
    {
      forall b | 0 <= b < |words|
        ensures TurnBlock(version, fix259, j) < |words|
        ensures TurnBlock(version, fix259, j) == b <==> CheckTurn(version, fix259, b) == j
      {
        TurnsInverse(version, fix259, j, b);
      }
      var i := numDataCodewords + e;
      var jOffset := if version.symbolHeight == 144 && fix259 then (j + 8) % |words| else j;
      var iOffset := if version.symbolHeight == 144 && jOffset > 7 then i - 1 else i;
      words' := words'[jOffset := words'[jOffset][iOffset := raw[offset + j]]];
    }
  }

  ghost predicate ChecksFilled(raw: seq<nat>, version: Version, fix259: bool, words: seq<seq<nat>>, n: nat)
    requires version.WellFormed()
  {
    && Shapes(version.ecBlocks, words) && n <= version.ecBlocks.codewordsPerBlock
    && forall b, e | 0 <= b < |words| && 0 <= e < n :: CheckFilled(raw, version, fix259, words, b, e)
  }

  ghost predicate CheckFilled(raw: seq<nat>, version: Version, fix259: bool, words: seq<seq<nat>>, b: nat, e: nat)
    requires version.WellFormed() && Shapes(version.ecBlocks, words)
    requires b < |words| && e < version.ecBlocks.codewordsPerBlock
  {
    words[b][version.ecBlocks.DataCodewords(b) + e]
      == WordAt(raw, version.DataTotal() + e * version.ecBlocks.NumBlocks() + CheckTurn(version, fix259, b))
  }

  lemma CheckRowFilled(raw: seq<nat>, version: Version, fix259: bool, words: seq<seq<nat>>, e: nat, words': seq<seq<nat>>)
    requires version.WellFormed() && ChecksFilled(raw, version, fix259, words, e) && e < version.ecBlocks.codewordsPerBlock
    requires DataFilled(raw, version.ecBlocks, words, version.ecBlocks.dataCodewords0)
    requires Shapes(version.ecBlocks, words')
    requires var offset := version.DataTotal() + e * version.ecBlocks.NumBlocks();
      && 0 <= offset && offset + |words| <= |raw|
      && forall b | 0 <= b < |words|
           :: CheckTurn(version, fix259, b) < |words|
              && words'[b] == words[b][version.ecBlocks.DataCodewords(b) + e := raw[offset + CheckTurn(version, fix259, b)]]
    ensures ChecksFilled(raw, version, fix259, words', e + 1)
    ensures DataFilled(raw, version.ecBlocks, words', version.ecBlocks.dataCodewords0)
  {
    hide ECBlocks.NumBlocks, ECBlocks.DataCodewords, Version.DataTotal, CheckTurn;
    forall b, f | 0 <= b < |words| && 0 <= f < e + 1
      ensures CheckFilled(raw, version, fix259, words', b, f)
    {
      assert f < e ==> CheckFilled(raw, version, fix259, words, b, f);
    }
  }

  /** Separates the words into blocks; empty when words are left over. */
  method GetDataBlocks(rawCodewords: seq<nat>, version: Version, fix259: bool) returns (result: seq<DataBlock>)
    requires version.WellFormed() && |rawCodewords| >= version.ecBlocks.TotalDataCodewords()
    ensures result == if |rawCodewords| == version.ecBlocks.TotalDataCodewords()
      then BlocksOf(rawCodewords, version, fix259, version.ecBlocks.NumBlocks()) else []
  {
    hide Version.DataTotal, CheckTurn, WordAt, ECBlocks.TotalDataCodewords, DataFilled, BlocksOf;
    var ecBlocks := version.ecBlocks;
    DataTotalForm(version);
    Positive(ecBlocks.codewordsPerBlock, ecBlocks.NumBlocks());
    var words, rawCodewordsOffset := FillData(rawCodewords, version);
    FilledShapes(rawCodewords, ecBlocks, words, ecBlocks.dataCodewords0);
    for e := 0 to ecBlocks.codewordsPerBlock
      invariant rawCodewordsOffset == version.DataTotal() + e * ecBlocks.NumBlocks()
      invariant ChecksFilled(rawCodewords, version, fix259, words, e)
      invariant DataFilled(rawCodewords, ecBlocks, words, ecBlocks.dataCodewords0)
    {
      Scaled(e, ecBlocks.codewordsPerBlock, ecBlocks.NumBlocks());
      var next := FillCheckRow(rawCodewords, version, fix259, words, e, rawCodewordsOffset);
      CheckRowFilled(rawCodewords, version, fix259, words, e, next);
      words := next;
      rawCodewordsOffset := rawCodewordsOffset + ecBlocks.NumBlocks();
    }
    if rawCodewordsOffset != |rawCodewords| {
      return [];
    }
    AllFilled(rawCodewords, version, fix259, words);
    result := seq(|words|, j requires 0 <= j < |words| => DataBlock(ecBlocks.DataCodewords(j), words[j]));
  }

  lemma FilledShapes(raw: seq<nat>, ecBlocks: ECBlocks, words: seq<seq<nat>>, n: nat)
    requires DataFilled(raw, ecBlocks, words, n)
    ensures Shapes(ecBlocks, words)
  {
  }

  lemma AllFilled(raw: seq<nat>, version: Version, fix259: bool, words: seq<seq<nat>>)
    requires version.WellFormed() && ChecksFilled(raw, version, fix259, words, version.ecBlocks.codewordsPerBlock)
    requires DataFilled(raw, version.ecBlocks, words, version.ecBlocks.dataCodewords0)
    ensures seq(|words|, j requires 0 <= j < |words| => DataBlock(version.ecBlocks.DataCodewords(j), words[j]))
      == BlocksOf(raw, version, fix259, version.ecBlocks.NumBlocks())
  {
    hide WordAt, CheckTurn, Version.DataTotal;
    forall j | 0 <= j < |words|
      ensures words[j] == BlockOf(raw, version, fix259, j).codewords
    {
      forall i | 0 <= i < |words[j]|
        ensures words[j][i] == BlockOf(raw, version, fix259, j).codewords[i]
      {
        var n := version.ecBlocks.DataCodewords(j);
        if i >= n {
          assert CheckFilled(raw, version, fix259, words, j, i - n);
        }
      }
    }
  }

  // ----- correcting and joining -----

  ghost predicate BlockReady(gf: GenericGF, block: DataBlock) {
    && gf.Valid() && Elems(gf, block.codewords)
    && 0 < block.numDataCodewords < |block.codewords|
  }

  ghost function DecodeBlock(gf: GenericGF, block: DataBlock): (r: (Outcome, seq<nat>))
    requires BlockReady(gf, block)
    ensures |r.1| == |block.codewords|
  {
    Decode(gf, block.codewords, |block.codewords| - block.numDataCodewords)
  }

  /** Only the data words are copied back. */
  method CorrectErrors(gf: GenericGF, codewordBytes: seq<nat>, numDataCodewords: nat,
                       sigma: GenericGFPoly, omega: GenericGFPoly, q: GenericGFPoly, rLast: GenericGFPoly)
      returns (outcome: Outcome, bytes: seq<nat>)
    requires BlockReady(gf, DataBlock(numDataCodewords, codewordBytes))
    requires sigma != omega && sigma != q && sigma != rLast && omega != q && omega != rLast && q != rLast
    modifies sigma, omega, q, rLast
    ensures outcome == DecodeBlock(gf, DataBlock(numDataCodewords, codewordBytes)).0
    ensures |bytes| == |codewordBytes|
    ensures outcome == Corrected ==>
      bytes[..numDataCodewords] == DecodeBlock(gf, DataBlock(numDataCodewords, codewordBytes)).1[..numDataCodewords]
  {
    hide Decode;
    hide GenericGF.Valid;
    bytes := codewordBytes;
    var codewordsInts := new nat[|codewordBytes|](i requires 0 <= i < |codewordBytes| => codewordBytes[i]);
    assert codewordsInts[..] == codewordBytes;
    var numECCodewords := |codewordBytes| - numDataCodewords;
    outcome := ReedSolomonDecode(gf, codewordsInts, numECCodewords, sigma, omega, q, rLast);
    if outcome == Corrected {
      bytes := codewordsInts[..numDataCodewords] + codewordBytes[numDataCodewords..];
    }
  }

  ghost predicate AllReady(gf: GenericGF, blocks: seq<DataBlock>, total: nat) {
    forall j | 0 <= j < |blocks|
      :: BlockReady(gf, blocks[j]) && j + (blocks[j].numDataCodewords - 1) * |blocks| < total
  }

  /** The first failure among the first n blocks. */
  ghost function FirstFailure(gf: GenericGF, blocks: seq<DataBlock>, total: nat, n: nat): Outcome
    requires AllReady(gf, blocks, total) && n <= |blocks|
  {
    if n == 0 then Corrected
    else
      var before := FirstFailure(gf, blocks, total, n - 1);
      if before == Corrected then DecodeBlock(gf, blocks[n - 1]).0 else before
  }

  /** The stream with the corrected data words of the first n blocks in place. */
  ghost function Joined(gf: GenericGF, blocks: seq<DataBlock>, total: nat, n: nat): (r: seq<nat>)
    requires AllReady(gf, blocks, total) && n <= |blocks|
    ensures |r| == total
  {
    if n == 0 then Zeros(total)
    else
      WriteStrided(Joined(gf, blocks, total, n - 1), n - 1, |blocks|,
                   DecodeBlock(gf, blocks[n - 1]).1[..blocks[n - 1].numDataCodewords])
  }

  /** Corrects the blocks one by one and joins their data words, up to the first failure. */
  method JoinBlocks(gf: GenericGF, blocks: seq<DataBlock>, total: nat,
                    sigma: GenericGFPoly, omega: GenericGFPoly, q: GenericGFPoly, rLast: GenericGFPoly)
      returns (outcome: Outcome, resultBytes: seq<nat>)
    requires AllReady(gf, blocks, total)
    requires sigma != omega && sigma != q && sigma != rLast && omega != q && omega != rLast && q != rLast
    modifies sigma, omega, q, rLast
    ensures outcome == FirstFailure(gf, blocks, total, |blocks|)
    ensures outcome == Corrected ==> resultBytes == Joined(gf, blocks, total, |blocks|)
  {
    hide BlockReady, WriteStrided, DecodeBlock;
    resultBytes := Zeros(total);
    for j := 0 to |blocks|
      invariant FirstFailure(gf, blocks, total, j) == Corrected
      invariant resultBytes == Joined(gf, blocks, total, j)
    {
      var numDataCodewords := blocks[j].numDataCodewords;
      var codewords;
      outcome, codewords := CorrectErrors(gf, blocks[j].codewords, numDataCodewords, sigma, omega, q, rLast);
      if outcome != Corrected {
        FailureStays(gf, blocks, total, j + 1, |blocks|);
        return;
      }
      ReadySizes(gf, blocks[j]);
      resultBytes := CopyStrided(resultBytes, j, |blocks|, codewords[..numDataCodewords]);
    }
    outcome := Corrected;
  }

  lemma ReadySizes(gf: GenericGF, block: DataBlock)
    requires BlockReady(gf, block)
    ensures 0 < block.numDataCodewords < |block.codewords|
  {
  }

  lemma {:induction false} FailureStays(gf: GenericGF, blocks: seq<DataBlock>, total: nat, n: nat, m: nat)
    requires AllReady(gf, blocks, total) && n <= m <= |blocks| && FirstFailure(gf, blocks, total, n) != Corrected
    ensures FirstFailure(gf, blocks, total, m) == FirstFailure(gf, blocks, total, n)
    decreases m
  {
    hide AllReady, DecodeBlock;
    if n < m {
      FailureStays(gf, blocks, total, n, m - 1);
    }
  }

  method CopyStrided(data: seq<nat>, offset: nat, stride: nat, words: seq<nat>) returns (data': seq<nat>)
    requires |words| > 0 ==> offset + (|words| - 1) * stride < |data|
    ensures data' == WriteStrided(data, offset, stride, words)
  {
    data' := data;
    for i := 0 to |words|
      invariant i > 0 ==> offset + (i - 1) * stride < |data|
      invariant data' == WriteStrided(data, offset, stride, words[..i])
    {
      MulMonotone(i, |words| - 1, stride);
      MulMonotone(i - 1, i, stride);
      Positive(i, stride);
      assert words[..i + 1][..i] == words[..i];
      data' := data'[i * stride + offset := words[i]];
    }
    assert words[..|words|] == words;
  }

  // ----- the decoder's loop over the blocks -----

  datatype StreamResult = Stream(bytes: seq<nat>) | FormatError | ChecksumError | RuntimeError

  ghost function JoinedOr(gf: GenericGF, blocks: seq<DataBlock>, total: nat): StreamResult
    requires AllReady(gf, blocks, total)
  {
    match FirstFailure(gf, blocks, total, |blocks|)
    case Corrected => Stream(Joined(gf, blocks, total, |blocks|))
    case Uncorrectable => ChecksumError
    case _ => RuntimeError
  }

  lemma BlocksReady(gf: GenericGF, raw: seq<nat>, version: Version, fix259: bool)
    requires gf.Valid() && Elems(gf, raw) && version.WellFormed() && DataEverywhere(version)
    ensures AllReady(gf, BlocksOf(raw, version, fix259, version.ecBlocks.NumBlocks()), version.DataTotal())
  {
    hide Place, Version.DataTotal, CheckTurn;
    hide GenericGF.Valid, ECBlocks.DataCodewords;
    var count := version.ecBlocks.NumBlocks();
    var blocks := BlocksOf(raw, version, fix259, count);
    forall j | 0 <= j < count
      ensures BlockReady(gf, blocks[j]) && j + (blocks[j].numDataCodewords - 1) * |blocks| < version.DataTotal()
    {
      LastPlace(version, j);
      ZeroElem(gf);
    }
  }

  lemma ZeroElem(gf: GenericGF)
    requires gf.Valid()
    ensures gf.Elem(0)
  {
  }

  predicate DataEverywhere(version: Version) {
    version.ecBlocks.count1 > 0 ==> version.ecBlocks.dataCodewords1 > 0
  }

  lemma LastPlace(version: Version, j: nat)
    requires version.WellFormed() && DataEverywhere(version) && j < version.ecBlocks.NumBlocks()
    ensures version.ecBlocks.DataCodewords(j) > 0 && version.ecBlocks.codewordsPerBlock > 0
    ensures j + (version.ecBlocks.DataCodewords(j) - 1) * version.ecBlocks.NumBlocks() < version.DataTotal()
  {
    hide Version.DataTotal;
    DataTotalForm(version);
    MulStep(version.ecBlocks.dataCodewords0 - 2, version.ecBlocks.NumBlocks());
  }

  /** What the decoder joins: version 24 gets a second try with the check words rotated. */
  ghost function ReadBlocks(gf: GenericGF, raw: seq<nat>, version: Version): StreamResult
    requires gf.Valid() && Elems(gf, raw) && version.WellFormed() && DataEverywhere(version)
  {
    hide BlocksOf, Joined, FirstFailure, AllReady, GenericGF.Valid;
    BlocksReady(gf, raw, version, false);
    BlocksReady(gf, raw, version, true);
    var count := version.ecBlocks.NumBlocks();
    if |raw| != version.ecBlocks.TotalDataCodewords() then FormatError
    else
      var first := JoinedOr(gf, BlocksOf(raw, version, false, count), version.DataTotal());
      if first == ChecksumError && version.versionNumber == 24 then
        JoinedOr(gf, BlocksOf(raw, version, true, count), version.DataTotal())
      else first
  }

  method DecodeBlocks(gf: GenericGF, codewords: seq<nat>, version: Version,
                      sigma: GenericGFPoly, omega: GenericGFPoly, q: GenericGFPoly, rLast: GenericGFPoly)
      returns (result: StreamResult)
    requires gf.Valid() && Elems(gf, codewords) && version.WellFormed() && DataEverywhere(version)
    requires |codewords| >= version.ecBlocks.TotalDataCodewords()
    requires sigma != omega && sigma != q && sigma != rLast && omega != q && omega != rLast && q != rLast
    modifies sigma, omega, q, rLast
    ensures result == ReadBlocks(gf, codewords, version)
  {
    hide Joined, FirstFailure, AllReady, BlockOf, DecodeBlock, ECBlocks.TotalDataCodewords, Version.DataTotal;
    hide GenericGF.Valid;
    var fix259 := false;
    BlocksReady(gf, codewords, version, false);
    BlocksReady(gf, codewords, version, true);
    while true
      invariant fix259 ==> version.versionNumber == 24
      invariant |codewords| == version.ecBlocks.TotalDataCodewords() || !fix259
      invariant fix259 ==> JoinedOr(gf, BlocksOf(codewords, version, false, version.ecBlocks.NumBlocks()), version.DataTotal())
                           == ChecksumError
      decreases !fix259
    {
      var dataBlocks := GetDataBlocks(codewords, version, fix259);
      if |dataBlocks| == 0 {
        return FormatError;
      }
      var outcome, resultBytes := JoinBlocks(gf, dataBlocks, version.DataTotal(), sigma, omega, q, rLast);
      match outcome {
        case Corrected =>
          return Stream(resultBytes);
        case Uncorrectable =>
          if version.versionNumber == 24 && !fix259 {
            fix259 := true;
          } else {
            return ChecksumError;
          }
        case NotReduced =>
          return RuntimeError;
        case OutOfRange =>
          return RuntimeError;
      }
    }
  }
}
