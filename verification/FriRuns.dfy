/**
 Whole runs of line folds, one challenge per layer (src/prover.rs, src/fri.rs).
 */
module FriRuns {
  import opened Bits
  import opened SecureField
  import opened LastLayer
  import opened FriFold

  /** Folding down from logSize with one challenge per layer. */
  function FoldChain(e: seq<QM31>, alphas: seq<QM31>, logSize: nat): seq<QM31>
    requires |alphas| <= logSize <= 30 && |e| == Pow2(logSize)
    decreases |alphas|
  {
    hide LineFold;
    if |alphas| == 0 then e
    else FoldChain(LineFold(e, alphas[0], logSize), alphas[1..], logSize - 1)
  }

  lemma {:induction false} FoldChainLength(e: seq<QM31>, alphas: seq<QM31>, logSize: nat)
    requires |alphas| <= logSize <= 30 && |e| == Pow2(logSize)
    ensures |FoldChain(e, alphas, logSize)| == Pow2(logSize - |alphas|)
    decreases |alphas|
  {
    hide LineFold;
    if |alphas| > 0 {
      FoldChainLength(LineFold(e, alphas[0], logSize), alphas[1..], logSize - 1);
    }
  }

  function FoldedPolyChain(c: seq<QM31>, alphas: seq<QM31>, logSize: nat): (r: seq<QM31>)
    requires |alphas| <= logSize && |c| == Pow2(logSize)
    ensures |r| == Pow2(logSize - |alphas|)
    decreases |alphas|
  {
    if |alphas| == 0 then c
    else FoldedPolyChain(FoldedPoly(c, alphas[0]), alphas[1..], logSize - 1)
  }

  /** ceil(d / 2^k). */
  function CeilShr(d: nat, k: nat): nat {
    if k == 0 then d else CeilShr((d + 1) / 2, k - 1)
  }

  /** Over a whole run of line folds the values stay those of the folded polynomial, and its degree bound halves. */
  lemma {:induction false} ChainPreservesMeaning(e: seq<QM31>, c: seq<QM31>, alphas: seq<QM31>, logSize: nat, d: nat)
    requires |alphas| <= logSize <= 29 && |c| == |e| == Pow2(logSize) && HoldsBrt(e, c, logSize) && DegreeBelow(c, d)
    ensures HoldsBrt(FoldChain(e, alphas, logSize), FoldedPolyChain(c, alphas, logSize), logSize - |alphas|)
    ensures DegreeBelow(FoldedPolyChain(c, alphas, logSize), CeilShr(d, |alphas|))
    decreases |alphas|
  {
    hide HoldsBrt, DegreeBelow, FoldedPoly, LineFold, FoldChain, FoldedPolyChain, Pow2;
    if |alphas| > 0 {
      FoldPreservesMeaning(e, c, alphas[0], logSize);
      Pow2Unfold(logSize);
      FoldHalvesDegree(c, alphas[0], d);
      var f := LineFold(e, alphas[0], logSize);
      FoldedLength(c, alphas[0]);
      ChainPreservesMeaning(f, FoldedPoly(c, alphas[0]), alphas[1..], logSize - 1, (d + 1) / 2);
      ChainsUnfold(e, c, alphas, logSize);
    } else {
      NoFolds(e, c, alphas, logSize);
    }
  }

  lemma ChainsUnfold(e: seq<QM31>, c: seq<QM31>, alphas: seq<QM31>, logSize: nat)
    requires 0 < |alphas| <= logSize <= 29 && |c| == |e| == Pow2(logSize)
    ensures |FoldedPoly(c, alphas[0])| == Pow2(logSize - 1)
    ensures FoldChain(e, alphas, logSize) == FoldChain(LineFold(e, alphas[0], logSize), alphas[1..], logSize - 1)
    ensures FoldedPolyChain(c, alphas, logSize) == FoldedPolyChain(FoldedPoly(c, alphas[0]), alphas[1..], logSize - 1)
  {
    hide LineFold;
    FoldedLength(c, alphas[0]);
  }

  lemma NoFolds(e: seq<QM31>, c: seq<QM31>, alphas: seq<QM31>, logSize: nat)
    requires |alphas| == 0 && logSize <= 29 && |c| == |e| == Pow2(logSize)
    ensures FoldChain(e, alphas, logSize) == e && FoldedPolyChain(c, alphas, logSize) == c
  {
  }

  lemma FoldedLength(c: seq<QM31>, alpha: QM31)
    requires |c| % 2 == 0
    ensures |FoldedPoly(c, alpha)| == |c| / 2
  {
    hide QAdd, QMul, QScale;
  }

  /** The 8 exported coefficients reproduce every value of the last layer. */
  ghost predicate ExportsExactly(last: seq<QM31>, logLast: nat) {
    && 3 <= logLast <= 29 && |last| == Pow2(logLast) && |last| >= 8
    && HoldsBrt(last, Coefficients(last, logLast)[..8], logLast)
  }

  /**
   If the first line layer has degree below 8 * 2^k, then after k folds the last
   layer is reproduced exactly by its 8 exported coefficients.
   */
  lemma LowDegreeRunsExportExactly(e: seq<QM31>, c: seq<QM31>, alphas: seq<QM31>, logSize: nat, d: nat)
    requires |alphas| + 3 <= logSize <= 29 && |c| == |e| == Pow2(logSize) && HoldsBrt(e, c, logSize)
    requires DegreeBelow(c, d) && CeilShr(d, |alphas|) <= 8
    ensures ExportsExactly(FoldChain(e, alphas, logSize), logSize - |alphas|)
  {
    hide HoldsBrt, FoldChain, FoldedPolyChain, Coefficients, Pow2, DegreeBelow;
    assert Pow2(3) == 8 by { Pow2Table(); }
    Pow2Monotone(3, logSize - |alphas|);
    var last, logLast := FoldChain(e, alphas, logSize), logSize - |alphas|;
    FoldChainLength(e, alphas, logSize);
    ChainPreservesMeaning(e, c, alphas, logSize, d);
    EvaluateThenInterpolate(last, FoldedPolyChain(c, alphas, logSize), logLast);
    TruncationExactIff(last, logLast);
    DegreeBelowEight(FoldedPolyChain(c, alphas, logSize), CeilShr(d, |alphas|));
  }

  lemma DegreeBelowEight(c: seq<QM31>, d: nat)
    requires DegreeBelow(c, d) && d <= 8
    ensures forall i: nat :: 8 <= i < |c| ==> c[i] == QZERO
  {
  }
}
