/** Interleaved Data Matrix blocks, written (DMECEncoder.cpp:100-135, DMSymbolInfo.h:62-75). */
module DMInterleaving {
  import opened Bits
  import opened GenericGFs
  import opened Polynomials
  import opened PolynomialDivision
  import opened Coefficients
  import opened DMECEncoder

  /** The part of a symbol size that matters for its blocks. */
  datatype SymbolInfo = SymbolInfo(dataCapacity: nat, errorCodewords: nat, rsBlockData: int, rsBlockError: nat) {
    function CodewordCount(): nat {
      dataCapacity + errorCodewords
    }

    function InterleavedBlockCount(): nat {
      if rsBlockData > 0 then dataCapacity / rsBlockData else 10 // symbol 144
    }

    function DataLengthForInterleavedBlock(index: nat): nat {
      if rsBlockData > 0 then rsBlockData else if index <= 8 then 156 else 155 // symbol 144
    }

    /** Blocks of equal length, or the ten blocks of symbol 144, of which the last two have one word less. */
    predicate WellFormed() {
      && rsBlockError > 0 && dataCapacity > 0
      && errorCodewords == InterleavedBlockCount() * rsBlockError
      && (if rsBlockData > 0 then dataCapacity == InterleavedBlockCount() * rsBlockData
          else dataCapacity == 8 * 156 + 2 * 155)
    }

    /** Data words of block b, counted from 0. */
    function DataLength(b: nat): nat {
      DataLengthForInterleavedBlock(b + 1)
    }
  }

  /** Word i of block b, all places of the blocks filling the capacity. */
  lemma PlaceInCapacity(info: SymbolInfo, b: nat, i: nat)
    requires info.WellFormed() && b < info.InterleavedBlockCount() && i < info.DataLength(b)
    ensures 0 <= b + i * info.InterleavedBlockCount() < info.dataCapacity
  {
    var count := info.InterleavedBlockCount();
    if info.rsBlockData > 0 {
      Scaled(i, info.rsBlockData, count);
    }
  }

  lemma PlaceOfCheck(info: SymbolInfo, b: nat, e: nat)
    requires info.WellFormed() && b < info.InterleavedBlockCount() && e < info.rsBlockError
    ensures info.dataCapacity <= info.dataCapacity + b + e * info.InterleavedBlockCount() < info.CodewordCount()
  {
    Scaled(e, info.rsBlockError, info.InterleavedBlockCount());
  }

  /** The data words of block b. */
  ghost function Block(info: SymbolInfo, codewords: seq<nat>, b: nat): (block: seq<nat>)
    requires info.WellFormed() && b < info.InterleavedBlockCount() && |codewords| >= info.dataCapacity
    ensures |block| == info.DataLength(b)
  {
    if info.DataLength(b) > 0 then
      PlaceInCapacity(info, b, info.DataLength(b) - 1);
      Strided(codewords, b, info.InterleavedBlockCount(), info.DataLength(b))
    else []
  }

  lemma BlockWord(info: SymbolInfo, codewords: seq<nat>, b: nat, i: nat)
    requires info.WellFormed() && b < info.InterleavedBlockCount() && |codewords| >= info.dataCapacity
    requires i < info.DataLength(b)
    ensures 0 <= b + i * info.InterleavedBlockCount() < info.dataCapacity
    ensures Block(info, codewords, b)[i] == codewords[b + i * info.InterleavedBlockCount()]
  {
    PlaceInCapacity(info, b, i);
    PlaceInCapacity(info, b, info.DataLength(b) - 1);
  }

  lemma BlockElems(gf: GenericGF, info: SymbolInfo, codewords: seq<nat>, b: nat)
    requires info.WellFormed() && b < info.InterleavedBlockCount() && |codewords| >= info.dataCapacity
    requires Elems(gf, codewords)
    ensures Elems(gf, Block(info, codewords, b))
  {
    hide SymbolInfo.WellFormed, SymbolInfo.InterleavedBlockCount, SymbolInfo.DataLength;
    forall i | 0 <= i < |Block(info, codewords, b)|
      ensures gf.Elem(Block(info, codewords, b)[i])
    {
      BlockWord(info, codewords, b, i);
    }
  }

  lemma StridedElems(gf: GenericGF, data: seq<nat>, offset: nat, stride: nat, length: nat)
    requires length > 0 ==> offset + (length - 1) * stride < |data|
    requires Elems(gf, data)
    ensures Elems(gf, Strided(data, offset, stride, length))
  {
    forall i | 0 <= i < length
      ensures gf.Elem(Strided(data, offset, stride, length)[i])
    {
      StridedAt(data, offset, stride, length, i);
    }
  }

  lemma StridedAt(data: seq<nat>, offset: nat, stride: nat, length: nat, i: nat)
    requires i < length && offset + (length - 1) * stride < |data|
    ensures 0 <= offset + i * stride < |data|
    ensures Strided(data, offset, stride, length)[i] == data[offset + i * stride]
  {
    MulMonotone(i, length - 1, stride);
    Positive(i, stride);
  }

  lemma ElemAt(gf: GenericGF, s: seq<nat>, i: nat)
    requires Elems(gf, s) && i < |s|
    ensures gf.Elem(s[i]) && Elems(gf, s[..i]) && Elems(gf, s[..i + 1])
  {
  }

  lemma FactorsAre(factors: seq<seq<nat>>, n: nat)
    requires FirstRow(factors, n) < |factors|
    ensures Factors(factors, n) == Reverse(factors[FirstRow(factors, n)][..n])
  {
  }

  lemma StartRegister(gf: GenericGF, low: seq<nat>, block: seq<nat>, ecc: seq<nat>)
    requires gf.Valid() && |low| > 0 && Elems(gf, low) && Elems(gf, block)
    requires |ecc| == |low| && forall i :: 0 <= i < |ecc| ==> ecc[i] == 0
    ensures Elems(gf, ecc) && Elems(gf, block[..0]) && Reverse(ecc) == Check(gf, low, block[..0])
  {
    assert Reverse(ecc) == Zeros(|low|);
  }

  lemma CheckNext(gf: GenericGF, low: seq<nat>, block: seq<nat>, i: nat)
    requires gf.Valid() && |low| > 0 && Elems(gf, low) && Elems(gf, block) && i < |block|
    ensures Elems(gf, block[..i]) && Elems(gf, block[..i + 1]) && gf.Elem(block[i])
    ensures Check(gf, low, block[..i + 1]) == Clock(gf, low, Check(gf, low, block[..i]), block[i])
  {
    hide Clock;
    assert block[..i + 1][..i] == block[..i];
  }

  lemma {:induction false} WrittenElems(gf: GenericGF, data: seq<nat>, offset: nat, stride: nat, words: seq<nat>)
    requires |words| > 0 ==> offset + (|words| - 1) * stride < |data|
    requires Elems(gf, data) && Elems(gf, words)
    ensures Elems(gf, WriteStrided(data, offset, stride, words))
    decreases |words|
  {
    if |words| > 0 {
      var n := |words| - 1;
      Positive(n, stride);
      MulMonotone(n - 1, n, stride);
      WrittenElems(gf, data, offset, stride, words[..n]);
    }
  }

  /** Writes the register from the top down. */
  method WriteCheck(data: array<nat>, ecc: array<nat>, eccOffset: nat, stride: nat)
    requires data != ecc && ecc.Length > 0 && eccOffset + (ecc.Length - 1) * stride < data.Length
    modifies data
    ensures data[..] == WriteStrided(old(data[..]), eccOffset, stride, Reverse(ecc[..]))
  {
    var n := ecc.Length;
    ghost var before, words := data[..], Reverse(ecc[..]);
    for i := 0 to n
      invariant ecc[..] == old(ecc[..])
      invariant i > 0 ==> eccOffset + (i - 1) * stride < |before|
      invariant data[..] == WriteStrided(before, eccOffset, stride, words[..i])
    {
      MulMonotone(i, n - 1, stride);
      MulMonotone(i - 1, i, stride);
      Positive(i, stride);
      assert words[..i + 1][..i] == words[..i];
      data[eccOffset + i * stride] := ecc[n - 1 - i];
    }
    assert words[..n] == words;
  }

  method CreateECCBlock(ghost gf: GenericGF, tables: MultTables, factors: seq<seq<nat>>, data: array<nat>, codeOffset: nat,
                        codeLength: nat, eccOffset: nat, eccLength: nat, stride: nat) returns (ok: bool)
    requires gf.Valid() && tables.TablesOf(gf) && AllElems(gf, factors) && Elems(gf, data[..])
    requires eccLength > 0 && stride > 0
    requires codeLength > 0 ==> codeOffset + (codeLength - 1) * stride < data.Length
    requires eccOffset + (eccLength - 1) * stride < data.Length
    modifies data
    ensures ok <==> FirstRow(factors, eccLength) < |factors|
    ensures !ok ==> data[..] == old(data[..])
    ensures Elems(gf, data[..])
    ensures var block := Strided(old(data[..]), codeOffset, stride, codeLength);
      ok ==> Elems(gf, Factors(factors, eccLength)) && Elems(gf, block)
             && data[..] == WriteStrided(old(data[..]), eccOffset, stride, Check(gf, Factors(factors, eccLength), block))
  {
    hide *;
    var row := FirstRow(factors, eccLength);
    if row == |factors| {
      return false;
    }
    FactorsElems(gf, factors, eccLength);
    ghost var before, block := data[..], Strided(data[..], codeOffset, stride, codeLength);
    StridedElems(gf, before, codeOffset, stride, codeLength);
    var poly := factors[row];
    var ecc := new nat[eccLength](_ => 0);
    StartRegister(gf, Factors(factors, eccLength), block, ecc[..]);
    for i := 0 to codeLength
      invariant Elems(gf, ecc[..]) && Elems(gf, block[..i])
      invariant Reverse(ecc[..]) == Check(gf, Factors(factors, eccLength), block[..i])
      invariant data[..] == before
    {
      StridedAt(before, codeOffset, stride, codeLength, i);
      ElemAt(gf, block, i);
      FactorsAre(factors, eccLength);
      ClockRegister(gf, tables, poly, ecc, data[codeOffset + i * stride]);
      CheckNext(gf, Factors(factors, eccLength), block, i);
    }
    assert block[..codeLength] == block;
    WriteCheck(data, ecc, eccOffset, stride);
    WrittenElems(gf, before, eccOffset, stride, Check(gf, Factors(factors, eccLength), block));
    ok := true;
  }

  // ----- all blocks -----

  ghost predicate Encodable(gf: GenericGF, info: SymbolInfo, low: seq<nat>, codewords: seq<nat>) {
    && gf.Valid() && Elems(gf, low) && Elems(gf, codewords)
    && info.WellFormed() && |low| == info.rsBlockError && |codewords| == info.dataCapacity
  }

  /** The check words of block b. */
  ghost function BlockCheck(gf: GenericGF, info: SymbolInfo, low: seq<nat>, codewords: seq<nat>, b: nat): (h: seq<nat>)
    requires Encodable(gf, info, low, codewords) && b < info.InterleavedBlockCount()
    ensures |h| == info.rsBlockError > 0 && Elems(gf, h)
  {
    BlockElems(gf, info, codewords, b);
    Check(gf, low, Block(info, codewords, b))
  }

  /** The buffer with the check words of block b in place. */
  ghost function PutCheck(info: SymbolInfo, data: seq<nat>, b: nat, words: seq<nat>): (r: seq<nat>)
    requires info.WellFormed() && b < info.InterleavedBlockCount()
    requires |words| == info.rsBlockError && |data| == info.CodewordCount()
    ensures |r| == |data|
  {
    PlaceOfCheck(info, b, info.rsBlockError - 1);
    WriteStrided(data, info.dataCapacity + b, info.InterleavedBlockCount(), words)
  }

  lemma PutCheckAt(info: SymbolInfo, data: seq<nat>, b: nat, words: seq<nat>, c: nat, e: nat)
    requires info.WellFormed() && b < info.InterleavedBlockCount() && c < info.InterleavedBlockCount()
    requires |words| == info.rsBlockError && |data| == info.CodewordCount() && e < info.rsBlockError
    ensures info.dataCapacity <= info.dataCapacity + c + e * info.InterleavedBlockCount() < |data|
    ensures var k := info.dataCapacity + c + e * info.InterleavedBlockCount();
      PutCheck(info, data, b, words)[k] == if c == b then words[e] else data[k]
  {
    hide SymbolInfo.WellFormed, SymbolInfo.InterleavedBlockCount, SymbolInfo.CodewordCount, WriteStrided;
    var count := info.InterleavedBlockCount();
    var k := info.dataCapacity + c + e * count;
    PlaceOfCheck(info, b, info.rsBlockError - 1);
    PlaceOfCheck(info, c, e);
    if c == b {
      WrittenAt(data, info.dataCapacity + b, count, words, e);
    } else {
      forall i | 0 <= i < |words|
        ensures k != info.dataCapacity + b + i * count
      {
        ModUnique(c + e * count, count, e, c);
        ModUnique(b + i * count, count, i, b);
      }
      NotWrittenAt(data, info.dataCapacity + b, count, words, k);
    }
  }

  lemma PutCheckKeeps(info: SymbolInfo, data: seq<nat>, b: nat, words: seq<nat>, k: nat)
    requires info.WellFormed() && b < info.InterleavedBlockCount()
    requires |words| == info.rsBlockError && |data| == info.CodewordCount() && k < info.dataCapacity <= |data|
    ensures PutCheck(info, data, b, words)[k] == data[k]
  {
    hide SymbolInfo.WellFormed, SymbolInfo.InterleavedBlockCount, SymbolInfo.CodewordCount, WriteStrided;
    RoomForErrors(info);
    PlaceOfCheck(info, b, info.rsBlockError - 1);
    NotWrittenBefore(data, info.dataCapacity + b, info.InterleavedBlockCount(), words, k);
  }

  lemma PutCheckData(info: SymbolInfo, data: seq<nat>, b: nat, words: seq<nat>)
    requires info.WellFormed() && b < info.InterleavedBlockCount()
    requires |words| == info.rsBlockError && |data| == info.CodewordCount()
    ensures info.dataCapacity <= |data|
    ensures PutCheck(info, data, b, words)[..info.dataCapacity] == data[..info.dataCapacity]
  {
    hide SymbolInfo.WellFormed, SymbolInfo.InterleavedBlockCount, PutCheck;
    RoomForErrors(info);
    forall k | 0 <= k < info.dataCapacity
      ensures PutCheck(info, data, b, words)[k] == data[k]
    {
      PutCheckKeeps(info, data, b, words, k);
    }
  }

  /** The codewords with room for the check words, and the check words of the first n blocks in place. */
  ghost function Interleaved(gf: GenericGF, info: SymbolInfo, low: seq<nat>, codewords: seq<nat>, n: nat): (r: seq<nat>)
    requires Encodable(gf, info, low, codewords) && n <= info.InterleavedBlockCount()
    ensures |r| == info.CodewordCount()
  {
    if n == 0 then codewords + Zeros(info.errorCodewords)
    else
      PutCheck(info, Interleaved(gf, info, low, codewords, n - 1), n - 1, BlockCheck(gf, info, low, codewords, n - 1))
  }

  lemma RoomForErrors(info: SymbolInfo)
    requires info.WellFormed()
    ensures info.rsBlockError > 0 && info.CodewordCount() == info.dataCapacity + info.errorCodewords
  {
  }

  /** The data words stay where they are. */
  lemma {:induction false} InterleavedData(gf: GenericGF, info: SymbolInfo, low: seq<nat>, codewords: seq<nat>, n: nat)
    requires Encodable(gf, info, low, codewords) && n <= info.InterleavedBlockCount()
    ensures info.CodewordCount() >= info.dataCapacity
    ensures Interleaved(gf, info, low, codewords, n)[..info.dataCapacity] == codewords
    decreases n
  {
    hide SymbolInfo.WellFormed, SymbolInfo.InterleavedBlockCount, BlockCheck, PutCheck;
    if n > 0 {
      InterleavedData(gf, info, low, codewords, n - 1);
      PutCheckData(info, Interleaved(gf, info, low, codewords, n - 1), n - 1, BlockCheck(gf, info, low, codewords, n - 1));
    }
  }

  /** Word e of the check words of block b is the e-th of every block's turn. */
  lemma {:induction false} InterleavedCheck(gf: GenericGF, info: SymbolInfo, low: seq<nat>, codewords: seq<nat>, n: nat,
                                            b: nat, e: nat)
    requires Encodable(gf, info, low, codewords) && b < n <= info.InterleavedBlockCount() && e < info.rsBlockError
    ensures 0 <= info.dataCapacity + b + e * info.InterleavedBlockCount() < info.CodewordCount()
    ensures Interleaved(gf, info, low, codewords, n)[info.dataCapacity + b + e * info.InterleavedBlockCount()]
      == BlockCheck(gf, info, low, codewords, b)[e]
    decreases n
  {
    hide SymbolInfo.WellFormed, SymbolInfo.InterleavedBlockCount, SymbolInfo.CodewordCount, BlockCheck, PutCheck;
    PlaceOfCheck(info, b, e);
    if b < n - 1 {
      InterleavedCheck(gf, info, low, codewords, n - 1, b, e);
    }
    PutCheckAt(info, Interleaved(gf, info, low, codewords, n - 1), n - 1, BlockCheck(gf, info, low, codewords, n - 1), b, e);
  }

  /** The check words of one block, with the stride that a single block makes 1. */
  method EncodeBlock(ghost gf: GenericGF, tables: MultTables, factors: seq<seq<nat>>, data: array<nat>, info: SymbolInfo,
                     block: nat, ghost start: seq<nat>) returns (ok: bool)
    requires gf.Valid() && tables.TablesOf(gf) && AllElems(gf, factors) && Elems(gf, start) && info.WellFormed()
    requires |start| == info.dataCapacity && data.Length == info.CodewordCount() && block < info.InterleavedBlockCount()
    requires Elems(gf, data[..]) && data[..info.dataCapacity] == start
    modifies data
    ensures ok <==> FirstRow(factors, info.rsBlockError) < |factors|
    ensures Elems(gf, data[..])
    ensures ok ==>
      && Encodable(gf, info, Factors(factors, info.rsBlockError), start)
      && data[..] == PutCheck(info, old(data[..]), block, BlockCheck(gf, info, Factors(factors, info.rsBlockError), start, block))
  {
    hide SymbolInfo.WellFormed, SymbolInfo.InterleavedBlockCount, SymbolInfo.DataLengthForInterleavedBlock;
    hide Check, WriteStrided, FirstRow, Factors, Strided, Elems, Block;
    hide GenericGF.Valid, MultTables.TablesOf, AllElems;
    RoomForErrors(info);
    var length, count := info.DataLengthForInterleavedBlock(block + 1), info.InterleavedBlockCount();
    if length > 0 {
      PlaceInCapacity(info, block, length - 1);
    }
    PlaceOfCheck(info, block, info.rsBlockError - 1);
    BlockElems(gf, info, start, block);
    BlockInBuffer(info, start, data[..], block);
    ok := CreateECCBlock(gf, tables, factors, data, block, length, info.dataCapacity + block, info.rsBlockError, count);
  }

  lemma BlockInBuffer(info: SymbolInfo, codewords: seq<nat>, data: seq<nat>, b: nat)
    requires info.WellFormed() && b < info.InterleavedBlockCount() && |codewords| == info.dataCapacity <= |data|
    requires data[..info.dataCapacity] == codewords
    ensures info.InterleavedBlockCount() > 0 && info.DataLength(b) == info.DataLengthForInterleavedBlock(b + 1)
    ensures info.DataLength(b) > 0 ==> b + (info.DataLength(b) - 1) * info.InterleavedBlockCount() < |data|
    ensures Strided(data, b, info.InterleavedBlockCount(), info.DataLength(b)) == Block(info, codewords, b)
  {
    hide SymbolInfo.WellFormed, SymbolInfo.InterleavedBlockCount, SymbolInfo.DataLengthForInterleavedBlock;
    var count, n := info.InterleavedBlockCount(), info.DataLength(b);
    if n > 0 {
      PlaceInCapacity(info, b, n - 1);
    }
    forall i | 0 <= i < n
      ensures Strided(data, b, count, n)[i] == Block(info, codewords, b)[i]
    {
      PlaceInCapacity(info, b, i);
      BlockWord(info, codewords, b, i);
      StridedAt(data, b, count, n, i);
    }
  }

  lemma BlockCountPositive(info: SymbolInfo)
    requires info.WellFormed()
    ensures info.InterleavedBlockCount() > 0
  {
  }

  lemma InterleavedNext(gf: GenericGF, info: SymbolInfo, low: seq<nat>, codewords: seq<nat>, n: nat)
    requires Encodable(gf, info, low, codewords)
    ensures Interleaved(gf, info, low, codewords, 0) == codewords + Zeros(info.errorCodewords)
    ensures n < info.InterleavedBlockCount() ==>
      Interleaved(gf, info, low, codewords, n + 1) ==
      PutCheck(info, Interleaved(gf, info, low, codewords, n), n, BlockCheck(gf, info, low, codewords, n))
  {
    hide SymbolInfo.WellFormed, SymbolInfo.InterleavedBlockCount, PutCheck, BlockCheck;
  }

  lemma PaddedElems(gf: GenericGF, s: seq<nat>, n: nat)
    requires gf.Valid() && Elems(gf, s)
    ensures Elems(gf, s + Zeros(n)) && (s + Zeros(n))[..|s|] == s
  {
  }

  lemma {:induction false} InterleavedElems(gf: GenericGF, info: SymbolInfo, low: seq<nat>, codewords: seq<nat>, n: nat)
    requires Encodable(gf, info, low, codewords) && n <= info.InterleavedBlockCount()
    ensures Elems(gf, Interleaved(gf, info, low, codewords, n))
    decreases n
  {
    hide SymbolInfo.WellFormed, SymbolInfo.InterleavedBlockCount, SymbolInfo.CodewordCount, PutCheck, BlockCheck, WriteStrided;
    PaddedElems(gf, codewords, info.errorCodewords);
    if n > 0 {
      InterleavedElems(gf, info, low, codewords, n - 1);
      PutCheckElems(gf, info, Interleaved(gf, info, low, codewords, n - 1), n - 1, BlockCheck(gf, info, low, codewords, n - 1));
    }
  }

  lemma PutCheckElems(gf: GenericGF, info: SymbolInfo, data: seq<nat>, b: nat, words: seq<nat>)
    requires info.WellFormed() && b < info.InterleavedBlockCount()
    requires |words| == info.rsBlockError && |data| == info.CodewordCount() && Elems(gf, data) && Elems(gf, words)
    ensures Elems(gf, PutCheck(info, data, b, words))
  {
    hide SymbolInfo.WellFormed, SymbolInfo.InterleavedBlockCount, SymbolInfo.CodewordCount, WriteStrided;
    RoomForErrors(info);
    PlaceOfCheck(info, b, info.rsBlockError - 1);
    WrittenElems(gf, data, info.dataCapacity + b, info.InterleavedBlockCount(), words);
  }

  lemma IsEncodable(gf: GenericGF, info: SymbolInfo, low: seq<nat>, codewords: seq<nat>)
    requires gf.Valid() && Elems(gf, low) && Elems(gf, codewords)
    requires info.WellFormed() && |low| == info.rsBlockError && |codewords| == info.dataCapacity
    ensures Encodable(gf, info, low, codewords)
  {
  }

  /** Appends the check words of all blocks; refuses a wrong number of data words or an unknown number of check words. */
  method EncodeECC200(ghost gf: GenericGF, tables: MultTables, factors: seq<seq<nat>>, codewords: array<nat>, info: SymbolInfo)
      returns (ok: bool, result: array<nat>)
    requires gf.Valid() && tables.TablesOf(gf) && AllElems(gf, factors) && Elems(gf, codewords[..]) && info.WellFormed()
    ensures ok <==> codewords.Length == info.dataCapacity && FirstRow(factors, info.rsBlockError) < |factors|
    ensures ok ==> Encodable(gf, info, Factors(factors, info.rsBlockError), codewords[..])
    ensures ok ==>
      var low := Factors(factors, info.rsBlockError);
      result[..] == Interleaved(gf, info, low, codewords[..], info.InterleavedBlockCount())
  {
    hide *;
    ok, result := false, codewords;
    if codewords.Length != info.dataCapacity {
      return;
    }
    BlockCountPositive(info);
    RoomForErrors(info);
    var blockCount := info.InterleavedBlockCount();
    var data := Resize(codewords, info.CodewordCount());
    ghost var start := codewords[..];
    PaddedElems(gf, start, info.errorCodewords);
    if FirstRow(factors, info.rsBlockError) == |factors| {
      ok := EncodeBlock(gf, tables, factors, data, info, 0, start);
      return;
    }
    FactorsElems(gf, factors, info.rsBlockError);
    ghost var low := Factors(factors, info.rsBlockError);
    IsEncodable(gf, info, low, start);
    InterleavedNext(gf, info, low, start, blockCount);
    for block := 0 to blockCount
      invariant codewords[..] == start && Elems(gf, data[..])
      invariant data[..] == Interleaved(gf, info, low, start, block)
    {
      InterleavedData(gf, info, low, start, block);
      InterleavedNext(gf, info, low, start, block);
      ok := EncodeBlock(gf, tables, factors, data, info, block, start);
    }
    result := data;
    ok := true;
  }

  method Resize(codewords: array<nat>, n: nat) returns (data: array<nat>)
    requires codewords.Length <= n
    ensures fresh(data) && data.Length == n && data[..] == codewords[..] + Zeros(n - codewords.Length)
  {
    data := new nat[n](i => 0);
    for i := 0 to codewords.Length
      invariant data[..i] == codewords[..i] && forall k :: i <= k < n ==> data[k] == 0
    {
      data[i] := codewords[i];
    }
  }
}
