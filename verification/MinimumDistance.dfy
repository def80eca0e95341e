/** How far codewords lie apart, and what follows for the encoder (core/src/ReedSolomonEncoder.cpp:38-52). */
module MinimumDistance {
  import opened Bits
  import opened GenericGFs
  import opened Polynomials
  import opened Coefficients
  import opened KeyEquation
  import opened ReedSolomonEncoders
  import opened ErrorLocator
  import opened DecoderSpec
  import opened ErrorCorrection
  import opened DecoderTheorems

  /** Up to n errors never go unnoticed. */
  lemma ErrorsNoticed(gf: GenericGF, e: seq<nat>, xs: seq<nat>, n: nat)
    requires gf.Valid() && n + gf.generatorBase <= 2 * gf.size && Covers(gf, e, xs) && Elems(gf, e)
    requires 0 < |xs| <= n
    ensures SyndromePoly(gf, e, 0, n) != Nil
  {
    hide *;
    ValuesElems(gf, e, xs);
    var ys := Values(gf, e, xs);
    ErrorSyndromes(gf, e, xs, |xs|, n);
    PartialAll(gf, e, xs);
    var w := KeyEquationHolds(gf, xs, ys, |xs|, n);
    SyndromesNotZero(gf, xs, ys, n, w);
  }

  /** Different codewords with n check words differ in more than n places. */
  lemma CodewordsApart(gf: GenericGF, a: seq<nat>, b: seq<nat>, n: nat)
    requires gf.Valid() && n + gf.generatorBase <= 2 * gf.size && |a| == |b| < gf.size
    requires IsCodeword(gf, a, n) && IsCodeword(gf, b, n) && a != b
    ensures Distance(a, b) > n
  {
    hide *;
    CodewordElems(gf, a, n);
    CodewordElems(gf, b, n);
    var e := XorSeq(a, b);
    var xs := ErrorsCovered(gf, a, b);
    XorSeqCancel(a, b);
    XorsInField(gf, a, b);
    SyndromesOfErrors(gf, a, e, 0, n);
    if |xs| == 0 {
      NoErrors(gf, e, xs, n);
      ZeroErrors(a, e);
    } else if |xs| <= n {
      ErrorsNoticed(gf, e, xs, n);
    }
  }

  lemma {:induction false} DistanceSplit(a: seq<nat>, b: seq<nat>, k: nat)
    requires |a| == |b| && k <= |a|
    ensures Distance(a, b) <= Distance(a[..k], b[..k]) + (|a| - k)
    decreases |a|
  {
    if k == |a| {
      assert a[..k] == a && b[..k] == b;
    } else {
      var m := |a| - 1;
      DistanceSplit(a[..m], b[..m], k);
      assert a[..m][..k] == a[..k] && b[..m][..k] == b[..k];
    }
  }

  /** The check words are determined by the data: there is one codeword only that begins with them. */
  lemma EncodingUnique(gf: GenericGF, a: seq<nat>, b: seq<nat>, n: nat)
    requires gf.Valid() && n + gf.generatorBase <= 2 * gf.size && n <= |a| == |b| < gf.size
    requires IsCodeword(gf, a, n) && IsCodeword(gf, b, n) && a[..|a| - n] == b[..|b| - n]
    ensures a == b
  {
    hide *;
    if a != b {
      CodewordsApart(gf, a, b, n);
      DistanceSplit(a, b, |a| - n);
      DistanceSelf(a[..|a| - n]);
    }
  }
}
