/**
 What it means that the verifier accepts: opened values that come from a polynomial are
 followed by the values of its fold, down to the last layer, and nothing else is accepted
 (src/verifier.rs).
 */
module Acceptance {
  import opened Bits
  import opened M31Field
  import MersennePrime
  import opened CircleGroup
  import opened CircleOrder
  import opened CircleDomain
  import opened SecureField
  import opened Hashing
  import opened FiatShamir
  import opened LinePoly
  import opened LineIfft
  import opened FriFold
  import opened CircleFolding
  import opened OodsPoints
  import opened FirstFold
  import opened StarkProof
  import opened StarkVerifier

  // ---- the points of the opened pairs ----

  /** Line pairs are opposite and off the y-axis on every line domain, the borrowed one of 2^30 points included. */
  lemma LinePairs(logSize: nat, i: nat)
    requires 1 <= logSize <= 30
    ensures var x := DomainX(logSize, BitRev(2 * i, logSize));
            x != 0 && DomainX(logSize, BitRev(2 * i + 1, logSize)) == Neg(x) && LineTwiddle(logSize, i) == Inverse(x)
  {
    hide At, HalfCoset, BitRev, Pow2, PPow, Inverse, Neg;
    PairIndices(logSize, i);
    if logSize <= 29 {
      DomainXOpposite(logSize, BitRev(i, logSize - 1));
      DomainXNonzero(logSize, BitRev(i, logSize - 1));
    } else {
      LargestLineDomain();
      HalfCosetOpposite(30, BitRev(i, 29));
      PairXZero(30, i);
    }
  }

  lemma LargestLineDomain()
    ensures HalfOdds(30) == HalfCoset(30)
  {
    hide PPow;
  }

  /** The point at a bit-reversed index of the circle-fold domain. */
  function IndexedPoint(logSize: nat, idx: nat): CirclePoint
    requires logSize <= 31
  {
    At(EvalDomain(logSize), BitRev(idx, logSize))
  }

  lemma FullGroupAt(k: nat)
    ensures At(EvalDomain(31), k) == GenAt(k)
  {
    hide PPow, GenAt;
    var g := PPow(GENERATOR, Pow2(0));
    StepPower(0, k);
    assert Shl(k, 0) == k;
    PMulIdentity(GenAt(k));
  }

  /** Circle pairs are antipodal; only the first pair of the full group lies on the x-axis. */
  lemma CirclePairs(logSize: nat, i: nat)
    requires 1 <= logSize <= 31 && i < Pow2(logSize - 1)
    ensures IndexedPoint(logSize, 2 * i + 1) == Antipode(IndexedPoint(logSize, 2 * i))
    ensures IndexedPoint(logSize, 2 * i).y == 0 <==> logSize == 31 && i == 0
    ensures CircleTwiddle(logSize, i) == Inverse(IndexedPoint(logSize, 2 * i).y)
  {
    hide At, HalfCoset, Subgroup, BitRev, Pow2, PPow, Inverse, Antipode, GenAt;
    DomainSize(logSize);
    if logSize <= 30 {
      PairsAreAntipodal(logSize, i);
    } else {
      var k := BitRev(i, 30);
      PairIndices(31, i);
      assert Pow2(30) == 0x4000_0000 by { Pow2Table(); }
      FullGroupAt(k); FullGroupAt(k + 0x4000_0000);
      GenAntipode(k);
      BitRevBound(i, 30);
      if GenAt(k).y == 0 {
        GenYZero(k);
        BitRevInvolution(i, 30); BitRevOfZero(30);
      }
      if i == 0 { BitRevOfZero(30); GenAtZero(); }
    }
  }

  lemma DomainSize(logSize: nat)
    requires logSize <= 31
    ensures EvalDomain(logSize).logSize == logSize
  {
    hide PPow;
  }

  lemma {:induction false} BitRevOfZero(b: nat)
    ensures BitRev(0, b) == 0
  {
    if b > 0 { BitRevOfZero(b - 1); ShlOfOne(b - 1); }
  }

  // ---- what acceptance fixes outright ----

  /** Counts, ranges and nonzero roots of an accepted proof. */
  lemma AcceptedShape(hs: Hashes, p: Proof)
    requires Sampling(hs) && EvalLog(p) <= 31 && Accepts(hs, p)
    ensures p.publicInputs.0 < P && p.publicInputs.1 < P && |p.friLastLayer| == 8
    ensures |p.queryIndices| == 80 && forall q: nat :: q < 80 ==> p.queryIndices[q] < Pow2(EvalLog(p))
    ensures EvalLog(p) >= 3 ==> |p.friCommitments| == EvalLog(p) - 3
    ensures p.traceCommitment != ZERO_DIGEST && p.quotientCommitment != ZERO_DIGEST
    ensures 0 < |p.friDecommitments| <= |p.friCommitments| + 1
    ensures |p.traceDecommitment.values| == |p.quotientDecommitment.values| == 80
    ensures forall l: nat :: l < |p.friDecommitments| ==> 80 <= |p.friDecommitments[l].values|
    ensures forall l: nat :: l + 1 < |p.friDecommitments| ==> 80 <= |p.friDecommitments[l].siblings|
    ensures 80 <= |p.quotientDecommitment.siblings|
  {
    hide *;
    AcceptedRanges(hs, p);
    OpenedCounts(hs, p);
    AcceptedQuery(hs, p, 79);
    var alphas, n := Alphas(hs, p), |p.friDecommitments|;
    FirstSizes(p, alphas, 79);
    if n >= 2 { LineSizes(p, alphas, 79, n - 2); }
    forall l: nat | l < n ensures 80 <= |p.friDecommitments[l].values| {
      if l + 1 < n { LineSizes(p, alphas, 79, l); }
    }
    forall l: nat | l + 1 < n ensures 80 <= |p.friDecommitments[l].siblings| && l + 1 < |alphas| {
      LineSizes(p, alphas, 79, l);
    }
  }

  lemma AcceptedRanges(hs: Hashes, p: Proof)
    requires Sampling(hs) && EvalLog(p) <= 31 && Accepts(hs, p)
    ensures p.publicInputs.0 < P && p.publicInputs.1 < P && |p.friLastLayer| == 8
    ensures |p.queryIndices| == 80 && forall q: nat :: q < 80 ==> p.queryIndices[q] < Pow2(EvalLog(p))
    ensures EvalLog(p) >= 3 ==> |p.friCommitments| == EvalLog(p) - 3
    ensures p.traceCommitment != ZERO_DIGEST && p.quotientCommitment != ZERO_DIGEST
  {
    hide AllOpen, QueryHolds, QueryIndices, Alphas, Sampling, Pow2;
  }

  lemma AcceptedQuery(hs: Hashes, p: Proof, q: nat)
    requires Sampling(hs) && EvalLog(p) <= 31 && Accepts(hs, p) && q < 80
    ensures q < |p.queryIndices| && |Alphas(hs, p)| == |p.friCommitments| + 1 && QueryHolds(p, Alphas(hs, p), q)
  {
    hide AllOpen, QueryHolds, QueryIndices, Alphas, Sampling, Pow2;
  }

  lemma FirstSizes(p: Proof, alphas: seq<QM31>, q: nat)
    requires EvalLog(p) <= 31 && q < |p.queryIndices| && |alphas| > 0 && QueryHolds(p, alphas, q)
    ensures |p.friDecommitments| > 0 && q < |p.quotientDecommitment.siblings|
    ensures q < |p.friDecommitments[|p.friDecommitments| - 1].values|
  {
    hide LineFoldHolds, FoldedPair, Shr;
  }

  lemma LineSizes(p: Proof, alphas: seq<QM31>, q: nat, l: nat)
    requires EvalLog(p) <= 31 && q < |p.queryIndices| && |alphas| > 0 && QueryHolds(p, alphas, q)
    requires l + 1 < |p.friDecommitments|
    ensures l + 1 < |alphas| && q < |p.friDecommitments[l].values| && q < |p.friDecommitments[l].siblings|
  {
    hide CircleFoldHolds, LastLayerHolds, FoldedPair, Shr;
    assert LineFoldHolds(p, alphas, q, l);
  }

  lemma OpenedCounts(hs: Hashes, p: Proof)
    requires Sampling(hs) && EvalLog(p) <= 31 && Accepts(hs, p)
    ensures |p.traceDecommitment.values| == 80 && |p.quotientDecommitment.values| == 80
  {
    hide QueryOpens, QueryHolds, QueryIndices, Alphas, Sampling, WordRows, FeltRows;
  }

  // ---- the first fold ----

  /** The fold of two antipodal values, by the parts of the polynomial behind them. */
  lemma AntipodalFold(f: Parts, p: CirclePoint, alpha: QM31)
    ensures FoldPair(Assembled(f, p.x, p.y), Assembled(f, Neg(p.x), Neg(p.y)), alpha, Inverse(p.y)) ==
      if p.y == 0 then QScale(f.plain, 2)
      else QAdd(CleanFold(f, alpha), QScale(Residue(f, alpha, p.y), Mul(2, Ratio(p))))
  {
    if p.y != 0 { OffAxisFold(f, p, alpha); } else { OnAxisFold(f, p.x, alpha); }
  }

  /** A value at height zero has only its plain and x parts, and the inverse of zero is zero. */
  lemma OnAxisFold(f: Parts, x: M31, alpha: QM31)
    ensures FoldPair(Assembled(f, x, 0), Assembled(f, Neg(x), Neg(0)), alpha, Inverse(0)) == QScale(f.plain, 2)
  {
    hide *;
    MersennePrime.InverseCorrect(0);
    NegZero();
    var u := QScale(f.timesX, x);
    AssembledAtZero(f, x); AssembledAtZero(f, Neg(x));
    TimesMinusOne(x);
    QScaleLaws(f.timesX, f.timesX, x, 0x7FFF_FFFE);
    SignedPair(f.plain, u);
    QDouble(f.plain);
    var l, r := QAdd(f.plain, u), QAdd(f.plain, QScale(u, 0x7FFF_FFFE));
    FoldIs(l, r, alpha, 0);
    QScaleLaws(QSub(l, r), QSub(l, r), 0, 0);
    QMulUnits(alpha);
    QAddLaws(QAdd(l, r), QZERO, QZERO);
  }

  lemma NegZero()
    ensures Neg(0) == 0
  {
  }

  lemma FoldIs(l: QM31, r: QM31, alpha: QM31, t: M31)
    ensures FoldPair(l, r, alpha, t) == QAdd(QAdd(l, r), QMul(alpha, QScale(QSub(l, r), t)))
  {
  }

  lemma AssembledAtZero(f: Parts, x: M31)
    ensures Assembled(f, x, 0) == QAdd(f.plain, QScale(f.timesX, x))
  {
    hide QAdd, QScale;
    var w := QAdd(f.timesY, QScale(f.timesXY, x));
    QScaleLaws(w, w, 0, 0);
    QAddLaws(QAdd(f.plain, QScale(f.timesX, x)), QZERO, QZERO);
  }

  /**
   If the opened quotient pair of query q holds the values of a circle polynomial at its
   two points, the opened value of the first layer is, with f its parts at X = 2x^2 - 1,
   2 (f00 + alpha f10) + 2 (x/y) (y^2 f11 + alpha f01), or 2 f00 for the pair on the x-axis.
   */
  lemma AcceptedCircleFold(hs: Hashes, p: Proof, q: nat, c: seq<QM31>)
    requires Sampling(hs) && EvalLog(p) <= 31 && Accepts(hs, p) && q < 80 && |c| % 4 == 0
    requires |p.queryIndices| == 80 && |p.friDecommitments| > 0
    requires q < |p.quotientDecommitment.values| && q < |p.quotientDecommitment.siblings| && q < |p.friDecommitments[0].values|
    requires p.quotientDecommitment.values[q] == ValueAt(c, OfCirclePoint(IndexedPoint(EvalLog(p), p.queryIndices[q])))
    requires p.quotientDecommitment.siblings[q] == ValueAt(c, OfCirclePoint(IndexedPoint(EvalLog(p), Sibling(p.queryIndices[q]))))
    ensures var (z, alpha) := (IndexedPoint(EvalLog(p), 2 * (p.queryIndices[q] / 2)), Alphas(hs, p)[0]);
            var f := PartsAt(c, DoubleX(z.x));
            p.friDecommitments[0].values[q] ==
              if EvalLog(p) == 31 && p.queryIndices[q] < 2 then QScale(f.plain, 2)
              else QAdd(CleanFold(f, alpha), QScale(Residue(f, alpha, z.y), Mul(2, Ratio(z))))
  {
    hide WellFormed, AllOpen, FoldPair, CircleTwiddle, ValueAt, OfCirclePoint, IndexedPoint, PartsAt, Assembled, CleanFold, Residue,
      Ratio, QAdd, QScale, Mul, Neg, Inverse, DoubleX, Alphas, Sampling, LineFoldHolds, LastLayerHolds, Pow2;
    var log, idx := EvalLog(p), p.queryIndices[q];
    AcceptedShape(hs, p);
    assert QueryHolds(p, Alphas(hs, p), q);
    var i := idx / 2;
    Pow2Unfold(log);
    CirclePairs(log, i);
    var z := IndexedPoint(log, 2 * i);
    ValueByParts(c, z); ValueByParts(c, Antipode(z));
    DoubleXEven(z.x);
    AntipodalFold(PartsAt(c, DoubleX(z.x)), z, Alphas(hs, p)[0]);
  }

  // ---- the line folds ----

  /** 2 (c_even + alpha c_odd) at X. */
  function FoldedValue(c: seq<QM31>, alpha: QM31, X: M31): QM31
    requires |c| % 2 == 0
  {
    QScale(QAdd(LineEval(Even(c), X), QMul(alpha, LineEval(Odd(c), X))), 2)
  }

  /** The x-coordinate of the point opened at a bit-reversed index of a line layer. */
  function IndexedX(logSize: nat, idx: nat): M31
    requires logSize <= 30
  {
    DomainX(logSize, BitRev(idx, logSize))
  }

  lemma LinePairFold(c: seq<QM31>, alpha: QM31, logSize: nat, i: nat)
    requires 1 <= logSize <= 30 && |c| % 2 == 0 && |c| >= 2
    ensures FoldPair(LineEval(c, IndexedX(logSize, 2 * i)), LineEval(c, IndexedX(logSize, 2 * i + 1)), alpha, LineTwiddle(logSize, i))
         == FoldedValue(c, alpha, DoubleX(IndexedX(logSize, 2 * i)))
    ensures DoubleX(IndexedX(logSize, 2 * i + 1)) == DoubleX(IndexedX(logSize, 2 * i))
  {
    hide FoldPair, LineEval, QAdd, QMul, QScale, DoubleX, DomainX, BitRev, LineTwiddle, Inverse, Neg, Even, Odd;
    var x := IndexedX(logSize, 2 * i);
    LinePairs(logSize, i);
    DoubleXEven(x);
    EvalSplit(c, x); EvalSplit(c, Neg(x));
    FoldOfPair(LineEval(Even(c), DoubleX(x)), LineEval(Odd(c), DoubleX(x)), alpha, x);
  }

  /** The doubled x of an opened pair is the point of the next layer's index. */
  lemma NextPoint(logSize: nat, idx: nat)
    requires 1 <= logSize <= 29
    ensures DoubleX(IndexedX(logSize, idx)) == IndexedX(logSize - 1, idx / 2)
  {
    hide DoubleX, DomainX, BitRev, LineTwiddle;
    var i := idx / 2;
    PairIndices(logSize, i);
    LinePairs(logSize, i);
    DomainXDouble(logSize, BitRev(i, logSize - 1));
    DoubleXEven(IndexedX(logSize, 2 * i));
    assert idx == 2 * i || idx == 2 * i + 1;
  }

  /**
   If the opened pair of query q in layer l holds the values of a line polynomial c at its
   two points, the opened value of layer l + 1 is that of 2 (c_even + alpha c_odd) at the
   doubled x, which is the point of its own index.
   */
  lemma AcceptedLineFold(hs: Hashes, p: Proof, q: nat, l: nat, c: seq<QM31>)
    requires Sampling(hs) && EvalLog(p) <= 31 && Accepts(hs, p) && q < 80 && |c| % 2 == 0 && |c| >= 2
    requires |p.queryIndices| == 80 && l + 1 < |p.friDecommitments| && l + 1 < |p.friCommitments| + 1 && l + 3 <= EvalLog(p)
    requires q < |p.friDecommitments[l].values| && q < |p.friDecommitments[l].siblings| && q < |p.friDecommitments[l + 1].values|
    requires var (log, idx) := (EvalLog(p) - 1 - l, Shr(p.queryIndices[q], l + 1));
             && p.friDecommitments[l].values[q] == LineEval(c, IndexedX(log, idx))
             && p.friDecommitments[l].siblings[q] == LineEval(c, IndexedX(log, Sibling(idx)))
    ensures var (log, idx) := (EvalLog(p) - 1 - l, Shr(p.queryIndices[q], l + 1));
            && p.friDecommitments[l + 1].values[q] == FoldedValue(c, Alphas(hs, p)[l + 1], DoubleX(IndexedX(log, idx)))
            && (log <= 29 ==> DoubleX(IndexedX(log, idx)) == IndexedX(log - 1, Shr(p.queryIndices[q], l + 2)))
  {
    hide WellFormed, AllOpen, CircleFoldHolds, LastLayerHolds, FoldPair, LineTwiddle, IndexedX, LineEval, FoldedValue, DoubleX, Shr, Alphas, Sampling;
    var log, idx := EvalLog(p) - 1 - l, Shr(p.queryIndices[q], l + 1);
    assert QueryHolds(p, Alphas(hs, p), q);
    assert LineFoldHolds(p, Alphas(hs, p), q, l);
    LinePairFold(c, Alphas(hs, p)[l + 1], log, idx / 2);
    assert idx == 2 * (idx / 2) || idx == 2 * (idx / 2) + 1;
    ShrSnoc(p.queryIndices[q], l + 1);
    if log <= 29 { NextPoint(log, idx); }
  }

  // ---- the last layer ----

  /** The opened value of the last decommitment is the entry of the last layer at its index. */
  lemma AcceptedLastValue(hs: Hashes, p: Proof, q: nat)
    requires Sampling(hs) && EvalLog(p) <= 31 && Accepts(hs, p) && q < 80 && |p.queryIndices| == 80
    ensures var n := |p.friDecommitments|;
            && n > 0 && Shr(p.queryIndices[q], n) < |p.friLastLayer| && q < |p.friDecommitments[n - 1].values|
            && p.friDecommitments[n - 1].values[q] == p.friLastLayer[Shr(p.queryIndices[q], n)]
  {
    hide WellFormed, AllOpen, CircleFoldHolds, LineFoldHolds, Shr, Alphas, Sampling;
    AcceptedShape(hs, p);
    assert QueryHolds(p, Alphas(hs, p), q);
  }

  // ---- the opened values determine each other ----

  /** Both proofs open the same quotient pair, and the same siblings in the layers before l. */
  ghost predicate SameOpenings(p: Proof, r: Proof, q: nat, l: nat) {
    && q < |p.quotientDecommitment.values| && q < |r.quotientDecommitment.values|
    && q < |p.quotientDecommitment.siblings| && q < |r.quotientDecommitment.siblings|
    && p.quotientDecommitment.values[q] == r.quotientDecommitment.values[q]
    && p.quotientDecommitment.siblings[q] == r.quotientDecommitment.siblings[q]
    && l < |p.friDecommitments| && l < |r.friDecommitments|
    && forall i: nat :: i < l ==> SameSibling(p, r, q, i)
  }

  ghost predicate SameSibling(p: Proof, r: Proof, q: nat, i: nat)
    requires i < |p.friDecommitments| && i < |r.friDecommitments|
  {
    && q < |p.friDecommitments[i].siblings| && q < |r.friDecommitments[i].siblings|
    && p.friDecommitments[i].siblings[q] == r.friDecommitments[i].siblings[q]
  }

  /**
   Two accepted proofs with one transcript, equal quotient pairs and equal siblings before
   layer l at query q open equal values in layer l.
   */
  lemma {:induction false} AcceptedValuesDetermined(hs: Hashes, p: Proof, r: Proof, q: nat, l: nat)
    requires Sampling(hs) && EvalLog(p) <= 31 && SameTranscript(p, r) && Accepts(hs, p) && Accepts(hs, r) && q < 80
    requires SameOpenings(p, r, q, l)
    ensures q < |p.friDecommitments[l].values| && q < |r.friDecommitments[l].values|
    ensures p.friDecommitments[l].values[q] == r.friDecommitments[l].values[q]
    decreases l
  {
    hide AllOpen, LastLayerHolds, FoldPair, LineTwiddle, CircleTwiddle, Shr, FoldAlpha, Sampling, QueryIndices;
    assert QueryHolds(p, Alphas(hs, p), q) && QueryHolds(r, Alphas(hs, r), q);
    if l > 0 {
      assert SameSibling(p, r, q, l - 1);
      AcceptedValuesDetermined(hs, p, r, q, l - 1);
      assert LineFoldHolds(p, Alphas(hs, p), q, l - 1) && LineFoldHolds(r, Alphas(hs, r), q, l - 1);
    }
  }
}
