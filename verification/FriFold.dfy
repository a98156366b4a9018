/**
 FRI folding: the fold formula shared by prover and verifier, and what the line
 fold does to the polynomial behind the evaluations (src/fri.rs, src/verifier.rs).
 */
module FriFold {
  import opened Bits
  import opened M31Field
  import opened CircleGroup
  import opened CircleDomain
  import opened SecureField
  import opened LinePoly
  import opened LineIfft
  import opened LastLayer

  /** fold_twiddle_at: the inverse coordinate of the even member of a bit-reversed pair. */
  function FoldTwiddleAt(domain: Coset, foldedIndex: nat, circle: bool): M31 {
    var point := At(domain, BitRev(2 * foldedIndex, domain.logSize));
    Inverse(if circle then point.y else point.x)
  }

  /** fold_pair. */
  function FoldPair(f0: QM31, f1: QM31, alpha: QM31, twiddle: M31): QM31 {
    QAdd(QAdd(f0, f1), QMul(alpha, QScale(QSub(f0, f1), twiddle)))
  }

  /** fold_line_cpu. */
  function FoldLineCpu(eval: seq<QM31>, alpha: QM31, twiddles: seq<M31>): (r: seq<QM31>)
    requires |twiddles| >= |eval| / 2
    ensures |r| == |eval| / 2
  {
    seq(|eval| / 2, i requires 0 <= i < |eval| / 2 => FoldPair(eval[2 * i], eval[2 * i + 1], alpha, twiddles[i]))
  }

  /** The twiddles of one line fold, in bit-reversed order. */
  function LineTwiddles(logSize: nat): (t: seq<M31>)
    requires 1 <= logSize <= 30
    ensures |t| == Pow2(logSize - 1)
  {
    seq(Pow2(logSize - 1), i requires 0 <= i < Pow2(logSize - 1) => LineTwiddle(logSize, i))
  }

  function LineTwiddle(logSize: nat, i: nat): M31
    requires logSize <= 30
  {
    FoldTwiddleAt(HalfOdds(logSize), i, false)
  }

  /** One line fold on the half-odds domain of size 2^logSize. */
  function LineFold(e: seq<QM31>, alpha: QM31, logSize: nat): (r: seq<QM31>)
    requires 1 <= logSize <= 30 && |e| == Pow2(logSize)
    ensures |r| == Pow2(logSize - 1)
  {
    FoldLineCpu(e, alpha, LineTwiddles(logSize))
  }

  // ---- the polynomial after a fold ----

  /** 2 (c_even + alpha c_odd). */
  function FoldedPoly(c: seq<QM31>, alpha: QM31): seq<QM31>
    requires |c| % 2 == 0
  {
    Scaled(Combined(Even(c), Odd(c), alpha), 2)
  }

  /** a + alpha b, coefficient by coefficient. */
  function Combined(a: seq<QM31>, b: seq<QM31>, alpha: QM31): seq<QM31>
    requires |a| == |b|
  {
    seq(|a|, i requires 0 <= i < |a| => QAdd(a[i], QMul(alpha, b[i])))
  }

  lemma {:induction false} LineEvalCombined(a: seq<QM31>, b: seq<QM31>, alpha: QM31, x: M31)
    requires |a| == |b|
    ensures LineEval(Combined(a, b, alpha), x) == QAdd(LineEval(a, x), QMul(alpha, LineEval(b, x)))
    decreases |a|
  {
    hide QAdd, QMul, QScale, DoubleX;
    if |a| == 0 || (|a| != 1 && |a| % 2 == 1) {
      QMulUnits(alpha);
      QAddLaws(QZERO, QZERO, QZERO);
    } else if |a| > 1 {
      var y := DoubleX(x);
      LineEvalCombined(Even(a), Even(b), alpha, y);
      LineEvalCombined(Odd(a), Odd(b), alpha, y);
      assert Even(Combined(a, b, alpha)) == Combined(Even(a), Even(b), alpha);
      assert Odd(Combined(a, b, alpha)) == Combined(Odd(a), Odd(b), alpha);
      Regroup(LineEval(Even(a), y), LineEval(Even(b), y), LineEval(Odd(a), y), LineEval(Odd(b), y), alpha, x);
    }
  }

  lemma Regroup(a0: QM31, b0: QM31, a1: QM31, b1: QM31, alpha: QM31, x: M31)
    ensures QAdd(QAdd(a0, QMul(alpha, b0)), QScale(QAdd(a1, QMul(alpha, b1)), x))
         == QAdd(QAdd(a0, QScale(a1, x)), QMul(alpha, QAdd(b0, QScale(b1, x))))
  {
    hide *;
    QScaleLaws(a1, QMul(alpha, b1), x, x);
    QScaleLaws(alpha, b1, x, x);
    QMulDistrib(alpha, b0, QScale(b1, x));
    QAddSwap(a0, QMul(alpha, b0), QScale(a1, x), QMul(alpha, QScale(b1, x)));
  }

  /** The fold of the values at x and -x, in terms of the two halves of the polynomial. */
  lemma FoldOfPair(f0: QM31, f1: QM31, alpha: QM31, x: M31)
    requires x != 0
    ensures FoldPair(QAdd(f0, QScale(f1, x)), QAdd(f0, QScale(f1, Neg(x))), alpha, Inverse(x))
         == QScale(QAdd(f0, QMul(alpha, f1)), 2)
  {
    hide QAdd, QSub, QMul, QScale, Inverse, Neg;
    PairOfValues(f0, f1, x);
    QScaleLaws(alpha, f1, 2, 2);
    QScaleLaws(f0, QMul(alpha, f1), 2, 2);
  }

  lemma PairIndices(logSize: nat, i: nat)
    requires 1 <= logSize
    ensures BitRev(2 * i, logSize) == BitRev(i, logSize - 1)
    ensures BitRev(2 * i + 1, logSize) == BitRev(i, logSize - 1) + Pow2(logSize - 1)
  {
    hide BitRev, Shl, Pow2;
    ShlOfOne(logSize - 1);
    BitRevUnfold(2 * i, logSize);
    BitRevUnfold(2 * i + 1, logSize);
  }

  lemma TwiddleIs(logSize: nat, i: nat)
    requires 1 <= logSize <= 29
    ensures LineTwiddle(logSize, i) == Inverse(DomainX(logSize, BitRev(i, logSize - 1)))
  {
    hide At, Inverse, PPow, BitRev, Pow2;
    PairIndices(logSize, i);
  }

  /** The pair at a bit-reversed position holds the values at x and -x. */
  lemma PairValues(e: seq<QM31>, c: seq<QM31>, logSize: nat, i: nat)
    requires 1 <= logSize <= 29 && |c| == Pow2(logSize) && HoldsBrt(e, c, logSize)
    requires i < Pow2(logSize - 1)
    ensures |e| == 2 * Pow2(logSize - 1)
    ensures e[2 * i] == LineEval(c, DomainX(logSize, BitRev(i, logSize - 1)))
    ensures e[2 * i + 1] == LineEval(c, Neg(DomainX(logSize, BitRev(i, logSize - 1))))
  {
    hide DomainX, LineEval, Neg, BitRev, Pow2;
    Pow2Unfold(logSize);
    PairIndices(logSize, i);
    DomainXOpposite(logSize, BitRev(i, logSize - 1));
  }

  lemma EvalSplit(c: seq<QM31>, x: M31)
    requires |c| % 2 == 0 && |c| >= 2
    ensures LineEval(c, x) == QAdd(LineEval(Even(c), DoubleX(x)), QScale(LineEval(Odd(c), DoubleX(x)), x))
  {
    hide QAdd, QScale, DoubleX;
  }

  /** Folding the values at x and -x gives the folded polynomial at 2x^2 - 1. */
  lemma FoldAt(c: seq<QM31>, alpha: QM31, logSize: nat, k: nat, x: M31, y: M31)
    requires 1 <= logSize <= 29 && |c| % 2 == 0 && |c| >= 2
    requires x == DomainX(logSize, k) && y == DomainX(logSize - 1, k)
    ensures FoldPair(LineEval(c, x), LineEval(c, Neg(x)), alpha, Inverse(x)) == LineEval(FoldedPoly(c, alpha), y)
  {
    hide *;
    DomainXNonzero(logSize, k);
    DomainXDouble(logSize, k);
    DoubleXEven(x);
    EvalSplit(c, x);
    EvalSplit(c, Neg(x));
    FoldOfPair(LineEval(Even(c), y), LineEval(Odd(c), y), alpha, x);
    FoldedEval(c, alpha, y);
  }

  lemma FoldedEval(c: seq<QM31>, alpha: QM31, y: M31)
    requires |c| % 2 == 0
    ensures LineEval(FoldedPoly(c, alpha), y)
         == QScale(QAdd(LineEval(Even(c), y), QMul(alpha, LineEval(Odd(c), y))), 2)
  {
    hide LineEval, QAdd, QMul, QScale, Scaled, Combined;
    LineEvalCombined(Even(c), Odd(c), alpha, y);
    LineEvalScaled(Combined(Even(c), Odd(c), alpha), 2, y);
  }

  /** The line fold turns the values of c into the values of 2 (c_even + alpha c_odd). */
  lemma FoldPreservesMeaning(e: seq<QM31>, c: seq<QM31>, alpha: QM31, logSize: nat)
    requires 1 <= logSize <= 29 && |c| == Pow2(logSize) && HoldsBrt(e, c, logSize)
    ensures HoldsBrt(LineFold(e, alpha, logSize), FoldedPoly(c, alpha), logSize - 1)
  {
    hide DomainX, LineEval, FoldPair, LineTwiddle, BitRev, FoldedPoly, Pow2, Inverse, Neg;
    Pow2Unfold(logSize);
    var r := LineFold(e, alpha, logSize);
    forall i: nat | i < Pow2(logSize - 1)
      ensures r[i] == LineEval(FoldedPoly(c, alpha), DomainX(logSize - 1, BitRev(i, logSize - 1)))
    {
      var k := BitRev(i, logSize - 1);
      PairValues(e, c, logSize, i);
      TwiddleIs(logSize, i);
      FoldAt(c, alpha, logSize, k, DomainX(logSize, k), DomainX(logSize - 1, k));
    }
  }

  // ---- degree ----

  /** Only the first d coefficients of c can be nonzero. */
  ghost predicate DegreeBelow(c: seq<QM31>, d: nat) {
    forall i: nat :: d <= i < |c| ==> c[i] == QZERO
  }

  lemma FoldHalvesDegree(c: seq<QM31>, alpha: QM31, d: nat)
    requires |c| % 2 == 0 && DegreeBelow(c, d)
    ensures DegreeBelow(FoldedPoly(c, alpha), (d + 1) / 2)
  {
    hide QAdd, QMul, QScale;
    QMulUnits(alpha);
    QAddLaws(QZERO, QZERO, QZERO);
    QScaleLaws(QZERO, QZERO, 2, 2);
  }
}
