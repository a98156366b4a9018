/**
 What the first fold does to a circle polynomial (src/fri.rs, src/verifier.rs,
 src/cairo_air/prover.rs). Over the half coset the folded pairs are antipodal, so the
 part of the polynomial that is odd in x does not fold into a line polynomial. Over the
 canonic domain the pairs are conjugate and everything folds.
 */
module FirstFold {
  import opened Bits
  import opened M31Field
  import opened MersennePrime
  import opened CircleGroup
  import opened CircleOrder
  import opened CircleDomain
  import opened CanonicOrder
  import opened SecureField
  import opened SecureInverse
  import opened LinePoly
  import opened LineIfft
  import opened LastLayer
  import opened FriFold
  import opened FriRuns
  import opened CircleFolding
  import opened OodsPoints

  // ---- a circle polynomial by its four quarters ----

  /** Values at X of the parts of f = plain + x timesX + y timesY + xy timesXY. */
  datatype Parts = Parts(plain: QM31, timesX: QM31, timesY: QM31, timesXY: QM31)

  /** Coefficients at indices 0, 2, 1 and 3 modulo 4, each a line polynomial in X = 2x^2 - 1. */
  function PartsAt(c: seq<QM31>, X: M31): Parts
    requires |c| % 4 == 0
  {
    Parts(BasisSum(Even(Even(c)), X), BasisSum(XQuarter(c), X), BasisSum(Even(Odd(c)), X), BasisSum(XYQuarter(c), X))
  }

  function XQuarter(c: seq<QM31>): (r: seq<QM31>)
    requires |c| % 4 == 0
    ensures |r| == |c| / 4 && forall j: nat :: j < |r| ==> r[j] == c[4 * j + 2]
  {
    Odd(Even(c))
  }

  function XYQuarter(c: seq<QM31>): (r: seq<QM31>)
    requires |c| % 4 == 0
    ensures |r| == |c| / 4 && forall j: nat :: j < |r| ==> r[j] == c[4 * j + 3]
  {
    Odd(Odd(c))
  }

  function Assembled(f: Parts, x: M31, y: M31): QM31 {
    QAdd(QAdd(f.plain, QScale(f.timesX, x)), QScale(QAdd(f.timesY, QScale(f.timesXY, x)), y))
  }

  lemma ValueByParts(c: seq<QM31>, p: CirclePoint)
    requires |c| % 4 == 0
    ensures ValueAt(c, OfCirclePoint(p)) == Assembled(PartsAt(c, DoubleX(p.x)), p.x, p.y)
  {
    hide QAdd, QScale, DoubleX, BasisSum, CircleSum, ValueAt, OfCirclePoint;
    CircleSumSplits(c, p);
    BasisSumParity(Even(c), p.x);
    BasisSumParity(Odd(c), p.x);
  }

  /** The same value as a + w b with a = plain + m timesXY, b = timesY + n timesX. */
  lemma Regrouped(f: Parts, u: M31, w: M31, m: M31, n: M31)
    requires m == Mul(u, w) && Mul(n, w) == u
    ensures Assembled(f, u, w) == QAdd(QAdd(f.plain, QScale(f.timesXY, m)), QScale(QAdd(f.timesY, QScale(f.timesX, n)), w))
  {
    hide QAdd, QScale, Mul;
    QScaleLaws(f.timesY, QScale(f.timesXY, u), w, w);
    QScaleLaws(f.timesXY, f.timesXY, u, w);
    QScaleLaws(f.timesY, QScale(f.timesX, n), w, w);
    QScaleLaws(f.timesX, f.timesX, n, w);
    var p, q, r, s := f.plain, QScale(f.timesX, u), QScale(f.timesY, w), QScale(f.timesXY, m);
    QAddLaws(r, s, q); QAddLaws(r, q, s);
    QAddSwap(p, q, s, r);
  }

  lemma NegTimesNeg(x: M31, y: M31)
    ensures Mul(Neg(x), Neg(y)) == Mul(x, y) && Mul(x, Neg(y)) == Neg(Mul(x, y))
  {
    hide Mul, Red, Neg;
    var u: int, v: int := x, y;
    RedId(x); RedId(y);
    RedNeg(u); RedNeg(v);
    RedMul(-u, -v); RedMul(u, v); RedMul(u, -v);
    assert -u * -v == u * v && u * -v == -(u * v);
    RedNeg(u * v);
  }

  /** x/y. */
  function Ratio(p: CirclePoint): M31 { Mul(p.x, Inverse(p.y)) }

  lemma RatioFacts(p: CirclePoint)
    requires p.y != 0
    ensures Mul(Ratio(p), p.y) == p.x && Mul(Ratio(p), Neg(p.y)) == Neg(p.x)
    ensures Mul(Mul(p.y, p.y), Ratio(p)) == Mul(p.x, p.y)
    ensures Ratio(p) == 0 <==> p.x == 0
  {
    hide Mul, Inverse, Neg;
    var (x, y, n) := (p.x, p.y, Ratio(p));
    InverseCorrect(y);
    MulAssoc(x, Inverse(y), y); MulComm(Inverse(y), y);
    MulUnits(x); MulUnits(y); MulUnits(Inverse(y));
    NegTimesNeg(n, y);
    MulAssoc(y, y, n); MulComm(y, n); MulComm(y, x);
    if n == 0 && x != 0 { NoZeroDivisors(x, Inverse(y)); }
  }

  // ---- over the half coset ----

  /** e lists the values of the circle polynomial c over the half coset, in bit-reversed order. */
  ghost predicate HoldsOnHalfCoset(e: seq<QM31>, c: seq<QM31>, logSize: nat)
    requires logSize <= 30
  {
    && |e| == Pow2(logSize)
    && forall j: nat :: j < |e| ==> e[j] == ValueAt(c, OfCirclePoint(At(HalfCoset(logSize), BitRev(j, logSize))))
  }

  /** X of a pair: 2x^2 - 1 is the same for both its points. */
  function PairX(logSize: nat, i: nat): M31
    requires logSize <= 30
  {
    DoubleX(PairPoint(logSize, i).x)
  }

  /** 2 (plain + alpha timesY): the value of the folded polynomial without its x-odd part. */
  function CleanFold(f: Parts, alpha: QM31): QM31 { QScale(QAdd(f.plain, QMul(alpha, f.timesY)), 2) }

  /** y^2 timesXY + alpha timesX: what the x-odd part leaves behind. */
  function Residue(f: Parts, alpha: QM31, y: M31): QM31 { QAdd(QScale(f.timesXY, Mul(y, y)), QMul(alpha, f.timesX)) }

  /** The fold at a pair, for every circle polynomial: 2 (plain + alpha timesY) + 2 (x/y) (y^2 timesXY + alpha timesX). */
  lemma CircleFoldValue(e: seq<QM31>, c: seq<QM31>, alpha: QM31, logSize: nat, i: nat)
    requires 1 <= logSize <= 30 && |c| % 4 == 0 && HoldsOnHalfCoset(e, c, logSize) && i < Pow2(logSize - 1)
    ensures var (f, p) := (PartsAt(c, PairX(logSize, i)), PairPoint(logSize, i));
            CircleFold(e, alpha, logSize)[i] == QAdd(CleanFold(f, alpha), QScale(Residue(f, alpha, p.y), Mul(2, Ratio(p))))
  {
    hide *;
    var f, p := PartsAt(c, PairX(logSize, i)), PairPoint(logSize, i);
    Pow2Unfold(logSize);
    PairsAreAntipodal(logSize, i);
    PairValuesByParts(e, c, logSize, i);
    CircleFoldAt(e, alpha, logSize, i);
    OffAxisFold(f, p, alpha);
  }

  /** The fold of the values at p and -p, for p off the x-axis, by the parts of the polynomial behind them. */
  lemma OffAxisFold(f: Parts, p: CirclePoint, alpha: QM31)
    requires p.y != 0
    ensures FoldPair(Assembled(f, p.x, p.y), Assembled(f, Neg(p.x), Neg(p.y)), alpha, Inverse(p.y))
         == QAdd(CleanFold(f, alpha), QScale(Residue(f, alpha, p.y), Mul(2, Ratio(p))))
  {
    hide *;
    var n, m := Ratio(p), Mul(p.x, p.y);
    RatioFacts(p);
    NegTimesNeg(p.x, p.y);
    Regrouped(f, p.x, p.y, m, n);
    Regrouped(f, Neg(p.x), Neg(p.y), m, n);
    FoldOfPair(QAdd(f.plain, QScale(f.timesXY, m)), QAdd(f.timesY, QScale(f.timesX, n)), alpha, p.y);
    SplitFold(f, alpha, n, m, p.y);
  }

  /** The two values of a pair, by the parts at their common X. */
  lemma PairValuesByParts(e: seq<QM31>, c: seq<QM31>, logSize: nat, i: nat)
    requires 1 <= logSize <= 30 && |c| % 4 == 0 && HoldsOnHalfCoset(e, c, logSize) && i < Pow2(logSize - 1)
    ensures |e| == Pow2(logSize) == 2 * Pow2(logSize - 1)
    ensures var (f, p) := (PartsAt(c, PairX(logSize, i)), PairPoint(logSize, i));
            e[2 * i] == Assembled(f, p.x, p.y) && e[2 * i + 1] == Assembled(f, Neg(p.x), Neg(p.y))
  {
    hide Assembled, PartsAt, ValueAt, OfCirclePoint, Neg, At, HalfCoset, Pow2, BitRev, DoubleX;
    Pow2Unfold(logSize);
    var p := PairPoint(logSize, i);
    PairsAreAntipodal(logSize, i);
    ValueByParts(c, p);
    ValueByParts(c, Antipode(p));
    DoubleXEven(p.x);
  }

  /** 2 ((plain + m timesXY) + alpha (timesY + n timesX)) for m = n y^2. */
  lemma SplitFold(f: Parts, alpha: QM31, n: M31, m: M31, y: M31)
    requires m == Mul(Mul(y, y), n)
    ensures QScale(QAdd(QAdd(f.plain, QScale(f.timesXY, m)), QMul(alpha, QAdd(f.timesY, QScale(f.timesX, n)))), 2)
         == QAdd(CleanFold(f, alpha), QScale(Residue(f, alpha, y), Mul(2, n)))
  {
    hide QAdd, QScale, QMul, Mul;
    QMulDistrib(alpha, f.timesY, QScale(f.timesX, n));
    QScaleLaws(alpha, f.timesX, n, n);
    var s, t := QScale(f.timesXY, Mul(y, y)), QMul(alpha, f.timesX);
    QScaleLaws(f.timesXY, f.timesXY, Mul(y, y), n);
    QScaleLaws(s, t, n, 2);
    QAddSwap(f.plain, QScale(s, n), QMul(alpha, f.timesY), QScale(t, n));
    var kept, left := QAdd(f.plain, QMul(alpha, f.timesY)), QAdd(s, t);
    QScaleLaws(kept, QScale(left, n), 2, 2);
    QScaleLaws(left, left, n, 2);
    MulComm(n, 2);
  }

  lemma QScaleZero(z: QM31, m: M31)
    ensures QScale(z, m) == QZERO <==> z == QZERO || m == 0
  {
    hide QScale, QMul;
    QScaleIsMul(z, m);
    QScaleLaws(z, z, m, 0);
    EmbedZero(m);
    if QScale(z, m) == QZERO { QNoZeroDivisors(z, Embed(m)); }
  }

  /** Only on the smallest half coset do pairs lie on the y-axis. */
  lemma PairXZero(logSize: nat, i: nat)
    requires 1 <= logSize <= 30
    ensures PairPoint(logSize, i).x == 0 <==> logSize == 1
  {
    hide GenAt, At, HalfCoset, BitRev, Shl;
    var k := BitRev(2 * i, logSize);
    var e := Shl(1 + 2 * k, 30 - logSize);
    HalfCosetAt(logSize, k);
    GenXZero(e);
    if logSize == 1 {
      ShlSum(1, 2 * k, 29); ShlOfOne(29); Pow2Table(); ShlQuadruple(k, 29); ShlTimes(k);
    } else {
      OddBelow(k, logSize - 1);
      ShlInner(1 + 2 * k, 30 - logSize);
      ShlQuadruple(1 + 2 * k, 30 - logSize);
    }
  }

  /** The fold at one pair is that of the x-even part exactly when the residue vanishes there. */
  lemma CleanAtPairIff(e: seq<QM31>, c: seq<QM31>, alpha: QM31, logSize: nat, i: nat)
    requires 1 <= logSize <= 30 && |c| % 4 == 0 && HoldsOnHalfCoset(e, c, logSize) && i < Pow2(logSize - 1)
    ensures CircleFold(e, alpha, logSize)[i] == CleanFold(PartsAt(c, PairX(logSize, i)), alpha)
       <==> logSize == 1 || Residue(PartsAt(c, PairX(logSize, i)), alpha, PairPoint(logSize, i).y) == QZERO
  {
    hide *;
    var f, p := PartsAt(c, PairX(logSize, i)), PairPoint(logSize, i);
    var r, s := Residue(f, alpha, p.y), Mul(2, Ratio(p));
    CircleFoldValue(e, c, alpha, logSize, i);
    PairsAreAntipodal(logSize, i);
    RatioFacts(p);
    PairXZero(logSize, i);
    MulUnits(2);
    if s == 0 && Ratio(p) != 0 { NoZeroDivisors(2, Ratio(p)); }
    QScaleZero(r, s);
    var z, v := QScale(r, s), CleanFold(f, alpha);
    QAddLaws(v, z, z);
    QAddLaws(z, v, v);
    QAddLaws(QZERO, v, v);
  }

  /** The column folds to 2 (plain + alpha timesY) at every pair. */
  ghost predicate FoldsCleanly(e: seq<QM31>, c: seq<QM31>, alpha: QM31, logSize: nat)
    requires 1 <= logSize <= 30 && |c| % 4 == 0 && |e| == Pow2(logSize)
  {
    forall i: nat :: i < Pow2(logSize - 1) ==> CleanAt(e, c, alpha, logSize, i)
  }

  ghost predicate CleanAt(e: seq<QM31>, c: seq<QM31>, alpha: QM31, logSize: nat, i: nat)
    requires 1 <= logSize <= 30 && |c| % 4 == 0 && |e| == Pow2(logSize) && i < Pow2(logSize - 1)
  {
    CircleFold(e, alpha, logSize)[i] == CleanFold(PartsAt(c, PairX(logSize, i)), alpha)
  }

  /** The polynomial is even in x: coefficients at indices 2 and 3 modulo 4 are zero. */
  ghost predicate EvenInX(c: seq<QM31>) { forall j: nat :: j < |c| && j % 4 >= 2 ==> c[j] == QZERO }

  // ---- a polynomial that vanishes on the whole domain ----

  ghost predicate AllZero(c: seq<QM31>) { forall j: nat :: j < |c| ==> c[j] == QZERO }

  ghost predicate ZeroAt(c: seq<QM31>, n: nat, i: nat)
    requires n <= 30
  {
    LineEval(c, DomainX(n, i)) == QZERO
  }

  lemma ZerosEval(n: nat, x: M31)
    ensures LineEval(Zeros(n), x) == QZERO
  {
    hide QScale, LineEval;
    LineEvalScaled(Zeros(n), 0, x);
    QScaleLaws(LineEval(Zeros(n), x), QZERO, 0, 0);
    assert Scaled(Zeros(n), 0) == Zeros(n) by { QScaleLaws(QZERO, QZERO, 0, 0); }
  }

  /** A line polynomial that vanishes on a half-odds domain at least as large has no nonzero coefficient. */
  lemma VanishesOnDomain(c: seq<QM31>, k: nat, n: nat)
    requires k <= n <= 29 && |c| == Pow2(k)
    requires forall i: nat :: i < Pow2(n) ==> ZeroAt(c, n, i)
    ensures AllZero(c)
  {
    hide LineEval, DomainX, BitRev, Coefficients, Pow2;
    Pow2Monotone(k, n);
    var size := Pow2(n);
    var e, pad := Zeros(size), c + Zeros(size - Pow2(k));
    forall j: nat | j < size
      ensures e[j] == LineEval(pad, DomainX(n, BitRev(j, n))) && e[j] == LineEval(e, DomainX(n, BitRev(j, n)))
    {
      BitRevBound(j, n);
      assert ZeroAt(c, n, BitRev(j, n));
      PaddedEval(c, k, n, DomainX(n, BitRev(j, n)));
      ZerosEval(size, DomainX(n, BitRev(j, n)));
    }
    EvaluateThenInterpolate(e, pad, n);
    EvaluateThenInterpolate(e, e, n);
    assert forall j: nat :: j < |c| ==> c[j] == pad[j];
  }

  /** Every point of the quarter-size line domain is the X of some pair. */
  lemma PairXCovers(logSize: nat, j: nat) returns (i: nat)
    requires 2 <= logSize <= 30 && j < Pow2(logSize - 2)
    ensures i < Pow2(logSize - 1) && PairX(logSize, i) == DomainX(logSize - 2, j)
  {
    hide GenAt, At, HalfCoset, BitRev, Shl, Pow2, DoubleX, DomainX;
    Pow2Unfold(logSize - 1);
    i := BitRev(2 * j, logSize - 1);
    BitRevBound(2 * j, logSize - 1);
    BitRevInvolution(2 * j, logSize - 1);
    PairXIs(logSize, i);
    DomainXIs(logSize - 2, j);
    assert 1 + 2 * (2 * j) == 1 + 4 * j;
  }

  lemma PairXIs(logSize: nat, i: nat)
    requires 1 <= logSize <= 30
    ensures PairX(logSize, i) == GenAt(Shl(1 + 2 * BitRev(i, logSize - 1), 31 - logSize)).x
  {
    hide GenAt, At, HalfCoset, BitRev, Shl, Pow2, DoubleX;
    var k := BitRev(i, logSize - 1);
    PairIndices(logSize, i);
    HalfCosetAt(logSize, k);
    GenDouble(Shl(1 + 2 * k, 30 - logSize));
    ShlInner(1 + 2 * k, 30 - logSize);
    ShlQuadruple(1 + 2 * k, 30 - logSize);
  }

  /** The point of the line domain that the next fold assigns to position i is never the pair's X. */
  lemma PairXOffLineDomain(logSize: nat, i: nat, j: nat)
    requires 1 <= logSize <= 30
    ensures PairX(logSize, i) != DomainX(logSize - 1, j)
  {
    hide *;
    var k, m := BitRev(i, logSize - 1), 30 - logSize;
    PairXIs(logSize, i);
    DomainXIs(logSize - 1, j);
    ShlQuadruple(1 + 2 * k, m);
    if GenAt(Shl(2 + 4 * k, m)).x == GenAt(Shl(1 + 4 * j, m)).x {
      SameX(Shl(2 + 4 * k, m), Shl(1 + 4 * j, m));
      NeverOpposite(k, j, logSize, Shl(2 + 4 * k, m), Shl(1 + 4 * j, m));
    }
  }

  lemma NoFullTurn(z: int)
    requires z % 0x4000_0000 != 0
    ensures z % 0x8000_0000 != 0 && -z % 0x8000_0000 != 0
  {
    HalfTurns(2 * (z / 0x8000_0000));
    HalfTurns(-2 * (-z / 0x8000_0000));
  }

  lemma HalfTurns(q: int)
    ensures (0x4000_0000 * q) % 0x4000_0000 == 0
  {
  }

  /** Exponents 2 + 4k and 1 + 4j, in units of 2^(30 - logSize), are neither equal nor opposite. */
  lemma NeverOpposite(k: nat, j: nat, logSize: nat, a: int, b: int)
    requires 1 <= logSize <= 30 && a == Shl(2 + 4 * k, 30 - logSize) && b == Shl(1 + 4 * j, 30 - logSize)
    ensures (a - b) % 0x8000_0000 != 0 && (a + b) % 0x8000_0000 != 0
  {
    hide *;
    var m := 30 - logSize;
    var o: nat := 1 + 2 * k + 2 * j;
    ShlSum(2 + 4 * k, 1 + 4 * j, m);
    OddBelow(o, logSize);
    assert 1 + 2 * o == 2 + 4 * k + (1 + 4 * j);
    NoFullTurn(a + b);
    if k >= j {
      var d: nat := 2 * (k - j);
      ShlSum(1 + 2 * d, 1 + 4 * j, m);
      assert 1 + 2 * d + (1 + 4 * j) == 2 + 4 * k;
      OddBelow(d, logSize);
      NoFullTurn(a - b);
    } else {
      var d: nat := 2 * (j - k) - 1;
      ShlSum(1 + 2 * d, 2 + 4 * k, m);
      assert 1 + 2 * d + (2 + 4 * k) == 1 + 4 * j;
      OddBelow(d, logSize);
      NoFullTurn(b - a);
    }
  }

  /** Powers of G with one x-coordinate have equal or opposite exponents. */
  lemma SameX(a: int, b: int)
    requires GenAt(a).x == GenAt(b).x
    ensures (a - b) % 0x8000_0000 == 0 || (a + b) % 0x8000_0000 == 0
  {
    hide GenAt, OnCircle;
    GenOnCircle(a); GenOnCircle(b);
    var p, q := GenAt(a), GenAt(b);
    SquareRoots(p, q);
    GenNeg(b);
    GenInjective(a, b);
    GenInjective(a, -b);
  }

  lemma SquareRoots(p: CirclePoint, q: CirclePoint)
    requires OnCircle(p) && OnCircle(q) && p.x == q.x
    ensures q == p || p == Conjugate(q)
  {
    hide Mul, Neg;
    var (y, w) := (p.y, q.y);
    assert Mul(y, y) == Mul(w, w);
    MulDistrib(Add(y, w), y, w);
    MulComm(Add(y, w), y); MulComm(Add(y, w), w);
    MulDistrib(y, y, w); MulDistrib(w, y, w);
    MulComm(y, w);
    assert Mul(Add(y, w), Sub(y, w)) == 0;
    if Add(y, w) != 0 { NoZeroDivisors(Add(y, w), Sub(y, w)); }
    assert Add(y, w) == 0 ==> y == Neg(w) by { SumZero(y, w); }
  }

  lemma SumZero(y: M31, w: M31)
    ensures Add(y, w) == 0 ==> y == Neg(w)
  {
  }

  // ---- exactly which polynomials fold ----

  lemma EvenInXParts(c: seq<QM31>)
    requires |c| % 4 == 0
    ensures EvenInX(c) <==> AllZero(XQuarter(c)) && AllZero(XYQuarter(c))
  {
    var u, v := XQuarter(c), XYQuarter(c);
    if AllZero(u) && AllZero(v) {
      forall j: nat | j < |c| && j % 4 >= 2 ensures c[j] == QZERO {
        assert if j % 4 == 2 then c[j] == u[j / 4] else c[j] == v[j / 4];
      }
    }
    if EvenInX(c) {
      forall j: nat | j < |u| ensures u[j] == QZERO && v[j] == QZERO {
        assert u[j] == c[4 * j + 2] && v[j] == c[4 * j + 3];
      }
    }
  }

  lemma {:induction false} ZeroSumOver(c: seq<QM31>, x: M31)
    requires AllZero(c)
    ensures BasisSum(c, x) == QZERO
  {
    hide QAdd, QScale, Basis;
    if |c| > 0 {
      ZeroSumOver(c[..|c| - 1], x);
      QScaleLaws(QZERO, QZERO, Basis(|c| - 1, x), 0);
      QAddLaws(QZERO, QZERO, QZERO);
    }
  }

  /** A polynomial even in x folds cleanly for every challenge. */
  lemma EvenInXFolds(e: seq<QM31>, c: seq<QM31>, alpha: QM31, logSize: nat)
    requires 1 <= logSize <= 30 && |c| % 4 == 0 && HoldsOnHalfCoset(e, c, logSize) && EvenInX(c)
    ensures FoldsCleanly(e, c, alpha, logSize)
  {
    hide CircleFold, CleanFold, BasisSum, XQuarter, XYQuarter, PairX, PairPoint, HoldsOnHalfCoset, QAdd, QMul, QScale, EvenInX;
    assert |e| == Pow2(logSize) by { HeldLength(e, c, logSize); }
    EvenInXParts(c);
    forall i: nat | i < Pow2(logSize - 1) ensures CleanAt(e, c, alpha, logSize, i) {
      ZeroSumOver(XQuarter(c), PairX(logSize, i));
      ZeroSumOver(XYQuarter(c), PairX(logSize, i));
      CleanAtPairIff(e, c, alpha, logSize, i);
      var y := PairPoint(logSize, i).y;
      QScaleLaws(QZERO, QZERO, Mul(y, y), 0); QMulUnits(alpha); QAddLaws(QZERO, QZERO, QZERO);
    }
  }

  lemma HeldLength(e: seq<QM31>, c: seq<QM31>, logSize: nat)
    requires logSize <= 30 && HoldsOnHalfCoset(e, c, logSize)
    ensures |e| == Pow2(logSize)
  {
  }

  /** Two residues for different challenges vanish only together with both x-odd parts. */
  lemma TwoResidues(f: Parts, alpha: QM31, beta: QM31, y: M31)
    requires alpha != beta && y != 0
    requires Residue(f, alpha, y) == QZERO && Residue(f, beta, y) == QZERO
    ensures f.timesX == QZERO && f.timesXY == QZERO
  {
    hide QAdd, QSub, QMul, QScale, Mul;
    var s, u, v := QScale(f.timesXY, Mul(y, y)), QMul(alpha, f.timesX), QMul(beta, f.timesX);
    QAddLaws(s, u, u); QAddLaws(s, v, v); QAddLaws(u, s, s); QAddLaws(v, s, s);
    assert u == v;
    QMulDistrib(f.timesX, alpha, beta);
    QAddLaws(QZERO, u, u); QAddLaws(QZERO, beta, beta); QAddLaws(alpha, beta, beta); QAddLaws(beta, beta, beta);
    if f.timesX != QZERO { QNoZeroDivisors(QSub(alpha, beta), f.timesX); }
    QMulUnits(alpha); QAddLaws(s, QZERO, QZERO);
    QScaleZero(f.timesXY, Mul(y, y));
    if Mul(y, y) == 0 { NoZeroDivisors(y, y); }
  }

  /** If two challenges both fold cleanly, the x-odd parts vanish at every X of the domain. */
  lemma CleanTwice(e: seq<QM31>, c: seq<QM31>, alpha: QM31, beta: QM31, logSize: nat, j: nat)
    requires 2 <= logSize <= 30 && |c| % 4 == 0 && HoldsOnHalfCoset(e, c, logSize)
    requires alpha != beta && FoldsCleanly(e, c, alpha, logSize) && FoldsCleanly(e, c, beta, logSize)
    requires j < Pow2(logSize - 2)
    ensures BasisSum(XQuarter(c), DomainX(logSize - 2, j)) == QZERO
    ensures BasisSum(XYQuarter(c), DomainX(logSize - 2, j)) == QZERO
  {
    hide CircleFold, CleanFold, BasisSum, XQuarter, XYQuarter, PairX, PairPoint, HoldsOnHalfCoset, Residue, DomainX, Pow2;
    var i := PairXCovers(logSize, j);
    assert |e| == Pow2(logSize) by { HeldLength(e, c, logSize); }
    assert CleanAt(e, c, alpha, logSize, i) && CleanAt(e, c, beta, logSize, i);
    CleanAtPairIff(e, c, alpha, logSize, i);
    CleanAtPairIff(e, c, beta, logSize, i);
    PairsAreAntipodal(logSize, i);
    TwoResidues(PartsAt(c, PairX(logSize, i)), alpha, beta, PairPoint(logSize, i).y);
  }

  lemma CleanTwiceIsEven(e: seq<QM31>, c: seq<QM31>, k: nat, alpha: QM31, beta: QM31, logSize: nat)
    requires 2 <= k <= logSize <= 30 && |c| == Pow2(k) && |c| % 4 == 0 && HoldsOnHalfCoset(e, c, logSize)
    requires alpha != beta && FoldsCleanly(e, c, alpha, logSize) && FoldsCleanly(e, c, beta, logSize)
    ensures EvenInX(c)
  {
    hide FoldsCleanly, EvenInX, BasisSum, HoldsOnHalfCoset, DomainX, LineEval, Pow2, XQuarter, XYQuarter;
    QuarterLengths(c, k);
    var u, v, n: nat := XQuarter(c), XYQuarter(c), logSize - 2;
    forall j: nat | j < Pow2(n) ensures ZeroAt(u, n, j) && ZeroAt(v, n, j) {
      CleanTwice(e, c, alpha, beta, logSize, j);
      LineEvalIsBasisSum(u, k - 2, DomainX(n, j));
      LineEvalIsBasisSum(v, k - 2, DomainX(n, j));
    }
    VanishesOnDomain(u, k - 2, n);
    VanishesOnDomain(v, k - 2, n);
    EvenInXParts(c);
  }

  /**
   The circle fold of a column gives the values of 2 (plain + alpha timesY) for every
   challenge, and already for two different ones, exactly when the polynomial has no
   coefficient at an index that is 2 or 3 modulo 4.
   */
  lemma FoldsCleanlyIff(e: seq<QM31>, c: seq<QM31>, k: nat, alpha: QM31, beta: QM31, logSize: nat)
    requires 2 <= k <= logSize <= 30 && |c| == Pow2(k) && |c| % 4 == 0 && |e| == Pow2(logSize)
    requires HoldsOnHalfCoset(e, c, logSize) && alpha != beta
    ensures EvenInX(c) <==> FoldsCleanly(e, c, alpha, logSize) && FoldsCleanly(e, c, beta, logSize)
    ensures EvenInX(c) <==> forall gamma: QM31 :: FoldsCleanly(e, c, gamma, logSize)
  {
    hide FoldsCleanly, EvenInX, HoldsOnHalfCoset, Pow2;
    if EvenInX(c) {
      forall gamma: QM31 ensures FoldsCleanly(e, c, gamma, logSize) { EvenInXFolds(e, c, gamma, logSize); }
    }
    if FoldsCleanly(e, c, alpha, logSize) && FoldsCleanly(e, c, beta, logSize) {
      CleanTwiceIsEven(e, c, k, alpha, beta, logSize);
    }
  }

  lemma QuarterLengths(c: seq<QM31>, k: nat)
    requires k >= 2 && |c| == Pow2(k) && |c| % 4 == 0
    ensures |XQuarter(c)| == |XYQuarter(c)| == Pow2(k - 2)
  {
  }

  /** The coefficients of f = x. */
  ghost predicate IsX(c: seq<QM31>) { |c| == 4 && c[0] == c[1] == c[3] == QZERO && c[2] == QONE }

  /** f = x does not fold: its fold is 2 alpha x/y where 2 (plain + alpha timesY) is 0. */
  lemma XDoesNotFold(e: seq<QM31>, c: seq<QM31>, alpha: QM31, logSize: nat, i: nat)
    requires 2 <= logSize <= 30 && IsX(c) && HoldsOnHalfCoset(e, c, logSize) && i < Pow2(logSize - 1)
    ensures CleanFold(PartsAt(c, PairX(logSize, i)), alpha) == QZERO
    ensures CircleFold(e, alpha, logSize)[i] == QScale(alpha, Mul(2, Ratio(PairPoint(logSize, i))))
    ensures CircleFold(e, alpha, logSize)[i] == QZERO <==> alpha == QZERO
  {
    hide CircleFold, PairX, PairPoint, HoldsOnHalfCoset, QAdd, QMul, QScale, Mul, Ratio, PartsAt;
    var p := PairPoint(logSize, i);
    PartsOfX(c, PairX(logSize, i));
    CircleFoldValue(e, c, alpha, logSize, i);
    QMulUnits(alpha); QAddLaws(QZERO, QZERO, QZERO); QAddLaws(alpha, QZERO, QZERO);
    QScaleLaws(QZERO, QZERO, 2, 2); QScaleLaws(QZERO, QZERO, Mul(p.y, p.y), 0);
    QAddLaws(QScale(alpha, Mul(2, Ratio(p))), QZERO, QZERO);
    PairsAreAntipodal(logSize, i);
    RatioFacts(p);
    PairXZero(logSize, i);
    if Mul(2, Ratio(p)) == 0 { NoZeroDivisors(2, Ratio(p)); }
    QScaleZero(alpha, Mul(2, Ratio(p)));
  }

  lemma PartsOfX(c: seq<QM31>, X: M31)
    requires IsX(c)
    ensures PartsAt(c, X) == Parts(QZERO, QONE, QZERO, QZERO)
  {
    hide QScale, QAdd, BasisSum;
    assert Even(Even(c)) == [QZERO] && XQuarter(c) == [QONE] && Even(Odd(c)) == [QZERO] && XYQuarter(c) == [QZERO];
    SingleSum(QZERO, X); SingleSum(QONE, X);
  }

  lemma SingleSum(z: QM31, X: M31)
    ensures BasisSum([z], X) == z
  {
    hide QScale, QAdd;
    QScaleLaws(z, z, 1, 1);
    QAddLaws(QZERO, z, z);
    assert [z][..0] == [];
    assert Basis(0, X) == 1;
    assert BasisSum([], X) == QZERO;
  }

  // ---- over the canonic domain ----

  /** e lists the values of the circle polynomial c over the canonic domain, in bit-reversed order. */
  ghost predicate HoldsOnCanonic(e: seq<QM31>, c: seq<QM31>, logSize: nat)
    requires 1 <= logSize <= 30
  {
    && |e| == Pow2(logSize)
    && forall j: nat :: j < |e| ==> e[j] == ValueAt(c, OfCirclePoint(CanonicPoint(BitRev(j, logSize), logSize)))
  }

  /** The inverse height of the even member of each canonic pair. */
  function CanonicTwiddles(logSize: nat): (t: seq<M31>)
    requires 1 <= logSize <= 30
    ensures |t| == Pow2(logSize - 1)
  {
    seq(Pow2(logSize - 1), i requires 0 <= i < Pow2(logSize - 1) => Inverse(CanonicPoint(BitRev(2 * i, logSize), logSize).y))
  }

  function CanonicFold(e: seq<QM31>, alpha: QM31, logSize: nat): (r: seq<QM31>)
    requires 1 <= logSize <= 30 && |e| == Pow2(logSize)
    ensures |r| == Pow2(logSize - 1)
  {
    FoldLineCpu(e, alpha, CanonicTwiddles(logSize))
  }

  /** Canonic pairs are conjugate, off the x-axis, and sit over the line domain. */
  lemma CanonicPairs(logSize: nat, i: nat)
    requires 1 <= logSize <= 30 && i < Pow2(logSize - 1)
    ensures var p := CanonicPoint(BitRev(2 * i, logSize), logSize);
            && p.x == DomainX(logSize - 1, BitRev(i, logSize - 1)) && p.y != 0
            && CanonicPoint(BitRev(2 * i + 1, logSize), logSize) == Conjugate(p)
  {
    hide GenAt, At, HalfOdds, BitRev, Pow2, Shl;
    var k := BitRev(i, logSize - 1);
    PairIndices(logSize, i);
    BitRevBound(i, logSize - 1);
    HalfOddsAt(logSize - 1, k);
    OddBelow(2 * k, logSize);
    assert 1 + 2 * (2 * k) == 1 + 4 * k;
    if GenAt(Shl(1 + 4 * k, 30 - logSize)).y == 0 { GenYZero(Shl(1 + 4 * k, 30 - logSize)); }
  }

  lemma CanonicFoldAt(e: seq<QM31>, alpha: QM31, logSize: nat, i: nat)
    requires 1 <= logSize <= 30 && |e| == Pow2(logSize) == 2 * Pow2(logSize - 1) && i < Pow2(logSize - 1)
    ensures CanonicFold(e, alpha, logSize)[i]
         == FoldPair(e[2 * i], e[2 * i + 1], alpha, Inverse(CanonicPoint(BitRev(2 * i, logSize), logSize).y))
  {
    hide FoldPair, Inverse, CanonicPoint, Pow2, BitRev;
  }

  lemma HeldAt(e: seq<QM31>, c: seq<QM31>, logSize: nat, j: nat)
    requires 1 <= logSize <= 30 && HoldsOnCanonic(e, c, logSize) && j < Pow2(logSize)
    ensures |e| == Pow2(logSize) && e[j] == ValueAt(c, OfCirclePoint(CanonicPoint(BitRev(j, logSize), logSize)))
  {
  }

  /** The fold of a canonic pair is the folded polynomial at the pair's x. */
  lemma CanonicPairFold(e: seq<QM31>, c: seq<QM31>, k: nat, alpha: QM31, logSize: nat, i: nat)
    requires 1 <= logSize <= 30 && 1 <= k && |c| == Pow2(k) && |c| % 2 == 0 && HoldsOnCanonic(e, c, logSize) && |e| == Pow2(logSize)
    requires i < Pow2(logSize - 1)
    ensures CanonicFold(e, alpha, logSize)[i] == LineEval(FoldedPoly(c, alpha), DomainX(logSize - 1, BitRev(i, logSize - 1)))
  {
    hide *;
    var p := CanonicPoint(BitRev(2 * i, logSize), logSize);
    Pow2Unfold(logSize);
    CanonicPairs(logSize, i);
    HeldAt(e, c, logSize, 2 * i); HeldAt(e, c, logSize, 2 * i + 1);
    CircleSumSplits(c, p); CircleSumSplits(c, Conjugate(p));
    HalvesAt(c, k, p);
    FoldOfPair(LineEval(Even(c), p.x), LineEval(Odd(c), p.x), alpha, p.y);
    CanonicFoldAt(e, alpha, logSize, i);
    FoldedEval(c, alpha, p.x);
  }

  lemma HalvesAt(c: seq<QM31>, k: nat, p: CirclePoint)
    requires 1 <= k && |c| == Pow2(k) && |c| % 2 == 0
    ensures SplitValue(c, p) == QAdd(LineEval(Even(c), p.x), QScale(LineEval(Odd(c), p.x), p.y))
    ensures SplitValue(c, Conjugate(p)) == QAdd(LineEval(Even(c), p.x), QScale(LineEval(Odd(c), p.x), Neg(p.y)))
  {
    hide LineEval, QAdd, QScale, BasisSum, Neg;
    LineEvalIsBasisSum(Even(c), k - 1, p.x);
    LineEvalIsBasisSum(Odd(c), k - 1, p.x);
  }

  /** The canonic fold turns a circle polynomial c into the line polynomial 2 (c_even + alpha c_odd). */
  lemma CanonicFoldMeaning(e: seq<QM31>, c: seq<QM31>, k: nat, alpha: QM31, logSize: nat)
    requires 1 <= logSize <= 30 && 1 <= k && |c| == Pow2(k) && HoldsOnCanonic(e, c, logSize) && |e| == Pow2(logSize)
    ensures |c| % 2 == 0 && HoldsBrt(CanonicFold(e, alpha, logSize), FoldedPoly(c, alpha), logSize - 1)
  {
    hide CanonicFold, HoldsOnCanonic, FoldedPoly, LineEval, DomainX, BitRev, Pow2;
    Pow2Unfold(k);
    forall i: nat | i < Pow2(logSize - 1)
      ensures CanonicFold(e, alpha, logSize)[i] == LineEval(FoldedPoly(c, alpha), DomainX(logSize - 1, BitRev(i, logSize - 1)))
    {
      CanonicPairFold(e, c, k, alpha, logSize, i);
    }
  }

  /** The last layer of a run on the canonic domain: circle fold, then line folds. */
  function CanonicLast(e: seq<QM31>, alpha: QM31, alphas: seq<QM31>, logSize: nat): seq<QM31>
    requires |alphas| < logSize <= 30 && |e| == Pow2(logSize)
  {
    hide CanonicFold, FoldChain, Pow2;
    FoldChain(CanonicFold(e, alpha, logSize), alphas, logSize - 1)
  }

  /** The polynomial after the same run. */
  function CanonicFolded(c: seq<QM31>, alpha: QM31, alphas: seq<QM31>, logSize: nat): seq<QM31>
    requires |alphas| < logSize && |c| == Pow2(logSize)
  {
    hide FoldedPoly, FoldedPolyChain, Pow2;
    Pow2Unfold(logSize);
    FoldedLength(c, alpha);
    FoldedPolyChain(FoldedPoly(c, alpha), alphas, logSize - 1)
  }

  /**
   The last layer of a run holds the folded polynomial, a bound of d nonzero coefficients
   on the circle shrinks to ceil(d / 2^folds), and once that is at most 8 the exported
   coefficients reproduce the layer exactly.
   */
  lemma CanonicRun(e: seq<QM31>, c: seq<QM31>, alpha: QM31, alphas: seq<QM31>, logSize: nat, d: nat)
    requires |alphas| < logSize <= 30 && |c| == |e| == Pow2(logSize) && HoldsOnCanonic(e, c, logSize) && DegreeBelow(c, d)
    ensures HoldsBrt(CanonicLast(e, alpha, alphas, logSize), CanonicFolded(c, alpha, alphas, logSize), logSize - 1 - |alphas|)
    ensures DegreeBelow(CanonicFolded(c, alpha, alphas, logSize), CeilShr(d, |alphas| + 1))
    ensures CeilShr(d, |alphas| + 1) <= 8 && |alphas| + 4 <= logSize ==>
              ExportsExactly(CanonicLast(e, alpha, alphas, logSize), logSize - 1 - |alphas|)
  {
    hide CanonicFold, HoldsOnCanonic, FoldedPoly, HoldsBrt, DegreeBelow, FoldChain, FoldedPolyChain, ExportsExactly, CeilShr, Pow2;
    Pow2Unfold(logSize);
    FoldedLength(c, alpha);
    CanonicFoldMeaning(e, c, logSize, alpha, logSize);
    FoldHalvesDegree(c, alpha, d);
    CeilShrUnfold(d, |alphas| + 1);
    var first, g := CanonicFold(e, alpha, logSize), FoldedPoly(c, alpha);
    ChainPreservesMeaning(first, g, alphas, logSize - 1, (d + 1) / 2);
    if CeilShr(d, |alphas| + 1) <= 8 && |alphas| + 4 <= logSize {
      LowDegreeRunsExportExactly(first, g, alphas, logSize - 1, (d + 1) / 2);
    }
  }

  lemma CeilShrUnfold(d: nat, k: nat)
    requires k >= 1
    ensures CeilShr(d, k) == CeilShr((d + 1) / 2, k - 1)
  {
  }
}
