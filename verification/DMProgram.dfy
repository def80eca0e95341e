/** Data Matrix error correction with the program's own fields, tables and symbol sizes. */
module DMProgram {
  import opened GenericGFs
  import opened Coefficients
  import opened ReedSolomonEncoders
  import opened DMECEncoder
  import opened DMInterleaving
  import opened DMDataBlock
  import opened DMBlockRoundTrip
  import opened DMTables
  import opened DMFactors
  import opened DMSymbols

  /** The row of factors for a symbol size. */
  function RowFor(i: nat): nat {
    match i
    case 0 => 0 case 1 => 1 case 2 => 1 case 3 => 2 case 4 => 3 case 5 => 4 case 6 => 5 case 7 => 5 case 8 => 6
    case 9 => 6 case 10 => 7 case 11 => 8 case 12 => 8 case 13 => 9 case 14 => 9 case 15 => 10 case 16 => 11
    case 17 => 12 case 18 => 13 case 19 => 15 case 20 => 11 case 21 => 13 case 22 => 10 case 23 => 12 case 24 => 13
    case 25 => 15 case 26 => 13 case 27 => 15 case 28 => 14 case _ => 14
  }

  lemma RowForSymbol(i: nat)
    requires i < 30
    ensures RowFor(i) < 16 && Count(RowFor(i)) == ProdSymbol(i).info.rsBlockError
  {
    match i
    case 0 => case 1 => case 2 => case 3 => case 4 => case 5 => case 6 => case 7 => case 8 => case 9 => case 10 =>
    case 11 => case 12 => case 13 => case 14 => case 15 => case 16 => case 17 => case 18 => case 19 => case 20 =>
    case 21 => case 22 => case 23 => case 24 => case 25 => case 26 => case 27 => case 28 => case _ =>
  }

  /** For every symbol size the encoder has what it needs: tables of the field and a row that is the generator. */
  lemma ProgramReady(gf: GenericGF, i: nat)
    requires IsField(gf) && i < 30
    ensures MultTables(LOG, ALOG).TablesOf(gf) && AllElems(gf, FACTORS)
    ensures 0 < ProdSymbol(i).info.rsBlockError <= 68 && FirstRow(FACTORS, ProdSymbol(i).info.rsBlockError) < |FACTORS|
    ensures Elems(gf, Factors(FACTORS, ProdSymbol(i).info.rsBlockError))
    ensures Monic(Factors(FACTORS, ProdSymbol(i).info.rsBlockError)) == Generator(gf, ProdSymbol(i).info.rsBlockError)
  {
    hide GenericGF.Valid, GenericGF.TablesOf, Generator, Monic, Count, ProdSymbol, FACTORS;
    ProgramTables(gf);
    RowForSymbol(i);
    ProgramFactors(gf, RowFor(i));
    RowIsGenerator(gf, RowFor(i));
    FactorsElems(gf, FACTORS, ProdSymbol(i).info.rsBlockError);
  }

  /** The lower coefficients for a symbol size. */
  function Low(i: nat): seq<nat>
    requires i < 30
  {
    LowFor(ProdSymbol(i).info.rsBlockError)
  }

  function LowFor(n: nat): seq<nat> {
    if FirstRow(FACTORS, n) < |FACTORS| then Factors(FACTORS, n) else []
  }

  lemma ProgramEncodable(gf: GenericGF, i: nat, version: Version, codewords: seq<nat>)
    requires IsField(gf) && i < 30 && LookupOf(i) == Found(version)
    requires Elems(gf, codewords) && |codewords| == ProdSymbol(i).info.dataCapacity
    ensures SameSymbol(ProdSymbol(i).info, version) && Encodable(gf, ProdSymbol(i).info, Low(i), codewords)
    ensures DataEverywhere(version)
  {
    hide GenericGF.Valid, GenericGF.TablesOf, ProdSymbol, LookupOf, Generator, Monic, FACTORS;
    EverySymbolAgrees(i);
    ProgramReady(gf, i);
  }

  /** No block has more wrong words than half its check words; the rest always holds, by ProgramEncodable. */
  ghost predicate Repairable(gf: GenericGF, i: nat, version: Version, codewords: seq<nat>, received: seq<nat>)
    requires i < 30
  {
    && SameSymbol(ProdSymbol(i).info, version) && Encodable(gf, ProdSymbol(i).info, Low(i), codewords)
    && FewErrors(gf, ProdSymbol(i).info, version, false, Low(i), codewords, received)
  }

  /**
   * With nothing assumed of tables or sizes: whichever of its symbol sizes the encoder uses, the version that the
   * decoder finds for the drawn symbol gives the codewords back, however they are damaged, as long as no block has more
   * wrong words than half its check words.
   */
  lemma ProgramRoundTrip(gf: GenericGF, i: nat, version: Version, codewords: seq<nat>, received: seq<nat>)
    requires IsField(gf) && i < 30 && LookupOf(i) == Found(version)
    requires Elems(gf, codewords) && |codewords| == ProdSymbol(i).info.dataCapacity
    requires Elems(gf, received) && |received| == ProdSymbol(i).info.CodewordCount()
    requires Repairable(gf, i, version, codewords, received)
    ensures version.WellFormed() && DataEverywhere(version) && ReadBlocks(gf, received, version) == Stream(codewords)
  {
    ProgramEncodable(gf, i, version, codewords);
    hide GenericGF.Valid, GenericGF.TablesOf, ProdSymbol, LookupOf, Factors, FACTORS, Generator, Monic, ReadBlocks, FewErrors;
    hide Version.WellFormed, SymbolInfo.WellFormed, SymbolInfo.InterleavedBlockCount;
    ProgramReady(gf, i);
    StreamRoundTrip(gf, ProdSymbol(i).info, version, Low(i), codewords, received);
  }

  /** The blocks of every symbol size are shorter than the field's period. */
  lemma BlocksShort(i: nat, b: nat)
    requires i < 30
    ensures ProdSymbol(i).info.DataLength(b) + ProdSymbol(i).info.rsBlockError < 256
  {
    match i
    case 0 => case 1 => case 2 => case 3 => case 4 => case 5 => case 6 => case 7 => case 8 => case 9 => case 10 =>
    case 11 => case 12 => case 13 => case 14 => case 15 => case 16 => case 17 => case 18 => case 19 => case 20 =>
    case 21 => case 22 => case 23 => case 24 => case 25 => case 26 => case 27 => case 28 => case _ =>
  }

  /** The undamaged symbol: of every size, what the encoder sends is repairable as it is, and gives the codewords back. */
  lemma CleanSymbol(gf: GenericGF, i: nat, version: Version, codewords: seq<nat>)
    requires IsField(gf) && i < 30 && LookupOf(i) == Found(version)
    requires Elems(gf, codewords) && |codewords| == ProdSymbol(i).info.dataCapacity
    ensures Encodable(gf, ProdSymbol(i).info, Low(i), codewords)
    ensures var info := ProdSymbol(i).info;
      var sent := Interleaved(gf, info, Low(i), codewords, info.InterleavedBlockCount());
      && Elems(gf, sent) && Repairable(gf, i, version, codewords, sent) && version.WellFormed()
      && ReadBlocks(gf, sent, version) == Stream(codewords)
  {
    hide GenericGF.Valid, GenericGF.TablesOf, ProdSymbol, LookupOf, Factors, FACTORS, Generator, Monic, ReadBlocks, FewErrors;
    hide Version.WellFormed, SymbolInfo.WellFormed, SymbolInfo.InterleavedBlockCount, SymbolInfo.CodewordCount, SymbolInfo.DataLength;
    hide Encodable, SameSymbol, Interleaved, Low;
    ProgramEncodable(gf, i, version, codewords);
    var info := ProdSymbol(i).info;
    var sent := Interleaved(gf, info, Low(i), codewords, info.InterleavedBlockCount());
    forall b | 0 <= b < info.InterleavedBlockCount()
      ensures info.DataLength(b) + info.rsBlockError < gf.size
    {
      BlocksShort(i, b);
    }
    NoErrors(gf, info, version, Low(i), codewords);
    InterleavedElems(gf, info, Low(i), codewords, info.InterleavedBlockCount());
    ProgramRoundTrip(gf, i, version, codewords, sent);
  }

  /**
   * 144x144 symbols of the other layout, with the program's own constants: unless the first try takes the words for some
   * other stream, the decoder gives the codewords back.
   */
  lemma OtherLayout(gf: GenericGF, version: Version, codewords: seq<nat>, received: seq<nat>)
    requires IsField(gf) && LookupOf(29) == Found(version)
    requires Elems(gf, codewords) && |codewords| == ProdSymbol(29).info.dataCapacity
    requires Elems(gf, received) && |received| == ProdSymbol(29).info.CodewordCount()
    requires SameSymbol(ProdSymbol(29).info, version) && Encodable(gf, ProdSymbol(29).info, Low(29), codewords)
    requires version.versionNumber == 24
    requires FewErrorsInRounds(gf, ProdSymbol(29).info, version, Low(29), codewords, received)
    ensures version.WellFormed() && DataEverywhere(version)
    ensures AllReady(gf, BlocksOf(received, version, false, version.ecBlocks.NumBlocks()), version.DataTotal())
    ensures var first := JoinedOr(gf, BlocksOf(received, version, false, version.ecBlocks.NumBlocks()), version.DataTotal());
      ReadBlocks(gf, received, version) == if first == ChecksumError then Stream(codewords) else first
  {
    ProgramEncodable(gf, 29, version, codewords);
    hide GenericGF.Valid, GenericGF.TablesOf, ProdSymbol, LookupOf, Factors, FACTORS, Generator, Monic, ReadBlocks;
    hide FewErrorsInRounds, BlocksOf, JoinedOr, AllReady, Version.DataTotal;
    hide Version.WellFormed, SymbolInfo.WellFormed, SymbolInfo.InterleavedBlockCount;
    ProgramReady(gf, 29);
    SecondTry(gf, ProdSymbol(29).info, version, Low(29), codewords, received);
  }

  lemma LastVersion(version: Version)
    requires LookupOf(29) == Found(version)
    ensures version.versionNumber == 24
  {
  }

  /** The layout is possible: undamaged, it meets the hypotheses of the lemma above. */
  lemma OtherLayoutClean(gf: GenericGF, version: Version, codewords: seq<nat>)
    requires IsField(gf) && LookupOf(29) == Found(version)
    requires Elems(gf, codewords) && |codewords| == ProdSymbol(29).info.dataCapacity
    ensures SameSymbol(ProdSymbol(29).info, version) && Encodable(gf, ProdSymbol(29).info, Low(29), codewords)
    ensures version.versionNumber == 24
    ensures var raw := LaidInRounds(gf, ProdSymbol(29).info, version, Low(29), codewords);
      Elems(gf, raw) && FewErrorsInRounds(gf, ProdSymbol(29).info, version, Low(29), codewords, raw)
  {
    hide GenericGF.Valid, GenericGF.TablesOf, ProdSymbol, LookupOf, Factors, FACTORS, Generator, Monic, ReadBlocks, Low;
    hide FewErrorsInRounds, Version.DataTotal, Version.WellFormed, SymbolInfo.WellFormed, SymbolInfo.InterleavedBlockCount;
    hide SymbolInfo.DataLength, SameSymbol, Encodable;
    ProgramEncodable(gf, 29, version, codewords);
    LastVersion(version);
    forall j | 0 <= j < 10
      ensures ProdSymbol(29).info.DataLength(j) + ProdSymbol(29).info.rsBlockError < gf.size
    {
      BlocksShort(29, j);
    }
    RoundsHaveNoErrors(gf, ProdSymbol(29).info, version, Low(29), codewords);
  }
}
