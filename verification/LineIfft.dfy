/**
 Interpolation on half-odds domains: the recursive inverse transform, and the
 proof that interpolating and evaluating undo each other (src/fri.rs).
 */
module LineIfft {
  import opened Bits
  import opened M31Field
  import opened CircleGroup
  import opened CircleOrder
  import opened MersennePrime
  import opened CircleDomain
  import opened SecureField
  import opened LinePoly

  /** The x-coordinate of the i-th point of the line domain of size 2^logSize. */
  function DomainX(logSize: nat, i: nat): M31
    requires logSize <= 30
  {
    At(HalfOdds(logSize), i).x
  }

  // ---- geometry of the domain ----

  lemma DomainXIs(logSize: nat, i: nat)
    requires logSize <= 29
    ensures DomainX(logSize, i) == GenAt(Shl(1 + 4 * i, 29 - logSize)).x
  {
    hide GenAt, At, HalfOdds, Shl;
    HalfOddsAt(logSize, i);
  }

  lemma DomainXDouble(logSize: nat, i: nat)
    requires 1 <= logSize <= 29
    ensures DoubleX(DomainX(logSize, i)) == DomainX(logSize - 1, i)
  {
    hide GenAt, DomainX, DoubleX;
    DomainXIs(logSize, i); DomainXIs(logSize - 1, i);
    GenDouble(Shl(1 + 4 * i, 29 - logSize));
  }

  /** Opposite halves of the domain are antipodal. */
  lemma DomainXOpposite(logSize: nat, i: nat)
    requires 1 <= logSize <= 29
    ensures DomainX(logSize, i + Pow2(logSize - 1)) == Neg(DomainX(logSize, i))
  {
    hide GenAt, DomainX, Neg, Shl, Pow2;
    var h, m := Pow2(logSize - 1), 29 - logSize;
    DomainXIs(logSize, i); DomainXIs(logSize, i + h);
    ShlSum(1 + 4 * i, 4 * h, m);
    ShlQuadruple(h, m);
    ShlPow2(logSize - 1, m + 2);
    Pow2Table();
    GenAntipode(Shl(1 + 4 * i, m));
  }

  lemma SinglePointX(i: nat)
    ensures DomainX(0, i) == 0
  {
    hide GenAt, DomainX, Shl, Pow2;
    DomainXIs(0, i);
    assert Shl(1 + 4 * i, 29) == 0x2000_0000 + 0x8000_0000 * i by {
      ShlSum(1, 4 * i, 29);
      ShlOfOne(29); Pow2Table();
      ShlQuadruple(i, 29);
      ShlTimes(i);
    }
    GenXZero(Shl(1 + 4 * i, 29));
  }

  lemma {:induction false} IterDomainX(logSize: nat, i: nat)
    requires logSize <= 29
    ensures IterDoubleX(DomainX(logSize, i), logSize) == 0
  {
    hide DomainX, DoubleX;
    if logSize == 0 {
      SinglePointX(i);
    } else {
      DomainXDouble(logSize, i);
      IterDomainX(logSize - 1, i);
    }
  }

  lemma {:induction false} DoublingsOfUnits(x: M31, n: nat)
    requires x == 1 || x == 0x7FFF_FFFE
    ensures IterDoubleX(x, n) != 0
    decreases n
  {
    hide DoubleX;
    if n > 0 {
      assert DoubleX(1) == 1 && DoubleX(0x7FFF_FFFE) == 1 by { DoubleXUnits(); }
      DoublingsOfUnits(1, n - 1);
    }
  }

  lemma DoubleXUnits()
    ensures DoubleX(1) == 1 && DoubleX(0x7FFF_FFFE) == 1
  {
    hide Mul;
    MulUnits(2);
    NegOne();
    DoubleXEven(1);
  }

  /** No line-fold twiddle is zero. */
  lemma DomainXNonzero(logSize: nat, i: nat)
    requires 1 <= logSize <= 29
    ensures DomainX(logSize, i) != 0
  {
    hide DomainX, DoubleX;
    IterDomainX(logSize, i);
    if DomainX(logSize, i) == 0 {
      DoubleXOfZero();
      DoublingsOfUnits(0x7FFF_FFFE, logSize - 1);
    }
  }

  // ---- one level ----

  /** l + r over the two halves of e. */
  function Sums(e: seq<QM31>): seq<QM31>
    requires |e| % 2 == 0
  {
    var h := |e| / 2;
    seq(h, i requires 0 <= i < h => QAdd(e[i], e[i + h]))
  }

  /** (l - r) / x over the two halves of e. */
  function Diffs(e: seq<QM31>, logSize: nat): seq<QM31>
    requires |e| % 2 == 0 && logSize <= 30
  {
    var h := |e| / 2;
    seq(h, i requires 0 <= i < h => QScale(QSub(e[i], e[i + h]), Inverse(DomainX(logSize, i))))
  }

  /** The unnormalised inverse transform; its output is in bit-reversed order. */
  function Ifft(e: seq<QM31>, logSize: nat): (c: seq<QM31>)
    requires logSize <= 30 && |e| == Pow2(logSize)
    ensures |c| == |e|
    decreases logSize
  {
    if logSize == 0 then e
    else Ifft(Sums(e), logSize - 1) + Ifft(Diffs(e, logSize), logSize - 1)
  }

  function Scaled(c: seq<QM31>, m: M31): seq<QM31> {
    seq(|c|, i requires 0 <= i < |c| => QScale(c[i], m))
  }

  /** 2^logSize as a field element. */
  function SizeElement(logSize: nat): M31 { Red(Pow2(logSize)) }

  lemma SizeElementFacts(logSize: nat)
    requires logSize <= 30
    ensures SizeElement(logSize) == Pow2(logSize) && SizeElement(logSize) != 0
    ensures logSize >= 1 ==> SizeElement(logSize) == Mul(2, SizeElement(logSize - 1))
    ensures logSize >= 1 ==> SizeElement(logSize) == Mul(SizeElement(logSize - 1), 2)
  {
    hide Mul, Red;
    Pow2Monotone(logSize, 30);
    assert Pow2(30) == 0x4000_0000 by { Pow2Table(); }
    RedId(Pow2(logSize));
    if logSize >= 1 {
      RedId(2); RedId(Pow2(logSize - 1));
      RedMul(2, Pow2(logSize - 1));
      MulComm(2, SizeElement(logSize - 1));
    }
  }

  lemma QDouble(z: QM31)
    ensures QAdd(z, z) == QScale(z, 2)
  {
    hide QAdd, QScale;
    QScaleLaws(z, z, 1, 1);
    assert Add(1, 1) == 2;
  }

  /** (l + r) + x (l - r)/x = 2l and (l + r) - x (l - r)/x = 2r. */
  lemma ButterflyUndone(l: QM31, r: QM31, x: M31)
    requires x != 0
    ensures QAdd(QAdd(l, r), QScale(QScale(QSub(l, r), Inverse(x)), x)) == QScale(l, 2)
    ensures QAdd(QAdd(l, r), QScale(QScale(QSub(l, r), Inverse(x)), Neg(x))) == QScale(r, 2)
  {
    hide QAdd, QSub, QScale, Mul, Inverse, Neg;
    var q := QSub(l, r);
    InverseCorrect(x);
    QScaleLaws(q, q, Inverse(x), x);
    QScaleLaws(q, q, Inverse(x), Neg(x));
    QScaleLaws(q, q, 1, 1);
    QScaleLaws(q, q, 0x7FFF_FFFE, 0x7FFF_FFFE);
    InverseTimesNeg(x);
    QDouble(l); QDouble(r);
    SumPlusDifference(l, r);
  }

  lemma InverseTimesNeg(x: M31)
    requires x != 0
    ensures Mul(Inverse(x), Neg(x)) == 0x7FFF_FFFE
  {
    hide Mul, Inverse, Red, Neg;
    InverseCorrect(x);
    var i: int, v: int := Inverse(x), x;
    RedId(Inverse(x)); RedId(x);
    RedNeg(v);
    RedMul(i, -v); RedMul(i, v);
    assert i * -v == -(i * v);
    RedNeg(i * v);
    assert Neg(1) == 0x7FFF_FFFE by { NegOne(); }
  }

  lemma NegOne()
    ensures Neg(1) == 0x7FFF_FFFE
  {
  }

  lemma SumPlusDifference(l: QM31, r: QM31)
    ensures QAdd(QAdd(l, r), QSub(l, r)) == QAdd(l, l)
    ensures QAdd(QAdd(l, r), QScale(QSub(l, r), 0x7FFF_FFFE)) == QAdd(r, r)
  {
    hide QScale, Mul;
    MinusOneScales(QSub(l, r));
  }

  lemma MinusOneScales(q: QM31)
    ensures QScale(q, 0x7FFF_FFFE) == QM31(CNeg(q.a), CNeg(q.b))
  {
    hide Mul, Neg;
    TimesMinusOne(q.a.a); TimesMinusOne(q.a.b); TimesMinusOne(q.b.a); TimesMinusOne(q.b.b);
  }

  lemma TimesMinusOne(v: M31)
    ensures Mul(v, 0x7FFF_FFFE) == Neg(v)
  {
    hide Mul, Red, Neg;
    var z: int := v;
    RedId(v); RedMinusOne();
    RedMul(z, -1);
    assert z * -1 == -z;
    RedNeg(z);
  }

  // ---- interpolate, then evaluate ----

  lemma FoldEvalSplit(a: seq<QM31>, b: seq<QM31>, x: M31, ds: seq<M31>)
    requires |a| == |b| == Pow2(|ds|)
    ensures FoldEval(a + b, [x] + ds) == QAdd(FoldEval(a, ds), QScale(FoldEval(b, ds), x))
  {
    hide QAdd, QScale;
    var c := a + b;
    assert c[..|c| / 2] == a && c[|c| / 2..] == b;
    assert ([x] + ds)[1..] == ds;
  }

  lemma IfftUnfold(e: seq<QM31>, logSize: nat)
    requires 1 <= logSize <= 30 && |e| == Pow2(logSize)
    ensures Ifft(e, logSize) == Ifft(Sums(e), logSize - 1) + Ifft(Diffs(e, logSize), logSize - 1)
  {
    hide DomainX, QAdd, QSub, QScale, Inverse;
  }

  /** Evaluating the transform of e at the i-th domain point gives 2^logSize e[i]. */
  lemma {:induction false} EvalOfIfft(e: seq<QM31>, logSize: nat, i: nat)
    requires logSize <= 29 && |e| == Pow2(logSize) && i < |e|
    ensures |Doublings(DomainX(logSize, i), logSize)| == logSize
    ensures FoldEval(Ifft(e, logSize), Doublings(DomainX(logSize, i), logSize)) == QScale(e[i], SizeElement(logSize))
    decreases logSize
  {
    hide DomainX, DoubleX, QAdd, QSub, QScale, Mul, Inverse, Neg, SizeElement, Red, Ifft, FoldEval;
    SizeElementFacts(logSize);
    DoublingsLength(DomainX(logSize, i), logSize);
    if logSize == 0 {
      QScaleLaws(e[i], e[i], 1, 1);
      IfftBase(e, Doublings(DomainX(0, i), 0));
    } else {
      var h := Pow2(logSize - 1);
      var k := if i < h then i else i - h;
      EvalOfIfft(Sums(e), logSize - 1, k);
      EvalOfIfft(Diffs(e, logSize), logSize - 1, k);
      DomainXDouble(logSize, k);
      SameDouble(logSize, k);
      IfftUnfold(e, logSize);
      var xi := DomainX(logSize, i);
      var ds := Doublings(DomainX(logSize - 1, k), logSize - 1);
      assert Doublings(xi, logSize) == [xi] + ds;
      FoldEvalSplit(Ifft(Sums(e), logSize - 1), Ifft(Diffs(e, logSize), logSize - 1), xi, ds);
      EvalStep(e, logSize, i, k);
    }
  }

  lemma IfftBase(e: seq<QM31>, ds: seq<M31>)
    requires |e| == 1 && ds == []
    ensures FoldEval(Ifft(e, 0), ds) == e[0]
  {
    assert Pow2(0) == 1;
  }

  /** The two half evaluations recombine to 2^logSize e[i]. */
  lemma EvalStep(e: seq<QM31>, logSize: nat, i: nat, k: nat)
    requires 1 <= logSize <= 29 && |e| == Pow2(logSize) && i < |e|
    requires k < Pow2(logSize - 1) && (i == k || i == k + Pow2(logSize - 1))
    ensures QAdd(QScale(Sums(e)[k], SizeElement(logSize - 1)),
                 QScale(QScale(Diffs(e, logSize)[k], SizeElement(logSize - 1)), DomainX(logSize, i)))
         == QScale(e[i], SizeElement(logSize))
  {
    hide DomainX, QAdd, QSub, QScale, Mul, Inverse, Neg, SizeElement;
    var h, s := Pow2(logSize - 1), SizeElement(logSize - 1);
    var l, r, x, xi := e[k], e[k + h], DomainX(logSize, k), DomainX(logSize, i);
    DomainXNonzero(logSize, k);
    DomainXOpposite(logSize, k);
    ButterflyUndone(l, r, x);
    ScaleOut(QAdd(l, r), QScale(QSub(l, r), Inverse(x)), s, xi);
    SizeElementFacts(logSize);
    QScaleLaws(e[i], e[i], 2, s);
  }

  lemma SameDouble(logSize: nat, k: nat)
    requires 1 <= logSize <= 29
    ensures DoubleX(DomainX(logSize, k + Pow2(logSize - 1))) == DomainX(logSize - 1, k)
  {
    hide DomainX, DoubleX, Neg;
    DomainXOpposite(logSize, k);
    DomainXDouble(logSize, k);
    DoubleXEven(DomainX(logSize, k));
  }

  lemma DoubleXEven(x: M31)
    ensures DoubleX(Neg(x)) == DoubleX(x)
  {
    hide Mul, Red, Neg;
    var v: int := x;
    RedId(x); RedId(2);
    RedNeg(v);
    RedMul(2, -v); RedMul(2 * -v, -v); RedMul(2, v); RedMul(2 * v, v);
    assert (2 * -v) * -v == (2 * v) * v;
  }

  lemma ScaleOut(a: QM31, b: QM31, s: M31, x: M31)
    ensures QAdd(QScale(a, s), QScale(QScale(b, s), x)) == QScale(QAdd(a, QScale(b, x)), s)
  {
    hide *;
    QScaleLaws(b, b, s, x);
    QScaleLaws(b, b, x, s);
    MulComm(s, x);
    QScaleLaws(a, QScale(b, x), s, s);
  }

  lemma {:induction false} DoublingsLength(x: M31, n: nat)
    ensures |Doublings(x, n)| == n
    decreases n
  {
    hide DoubleX;
    if n > 0 { DoublingsLength(DoubleX(x), n - 1); }
  }

  // ---- evaluate, then interpolate ----

  /** e lists the values of c over the domain, in natural order. */
  ghost predicate HoldsNatural(e: seq<QM31>, c: seq<QM31>, logSize: nat)
    requires logSize <= 30
  {
    |e| == Pow2(logSize) && forall i: nat :: i < |e| ==> e[i] == LineEval(c, DomainX(logSize, i))
  }

  lemma {:induction false} LineEvalScaled(c: seq<QM31>, m: M31, x: M31)
    ensures LineEval(Scaled(c, m), x) == QScale(LineEval(c, x), m)
    decreases |c|
  {
    hide QAdd, QScale, DoubleX;
    if |c| == 0 {
      QScaleLaws(QZERO, QZERO, m, m);
    } else if |c| % 2 == 1 {
      QScaleLaws(QZERO, QZERO, m, m);
    } else {
      var y := DoubleX(x);
      LineEvalScaled(Even(c), m, y);
      LineEvalScaled(Odd(c), m, y);
      assert Even(Scaled(c, m)) == Scaled(Even(c), m);
      assert Odd(Scaled(c, m)) == Scaled(Odd(c), m);
      ScaleOut(LineEval(Even(c), y), LineEval(Odd(c), y), m, x);
    }
  }

  /** f(x) + f(-x) = 2 f0(2x^2-1) and (f(x) - f(-x))/x = 2 f1(2x^2-1). */
  lemma PairOfValues(f0: QM31, f1: QM31, x: M31)
    requires x != 0
    ensures var l, r := QAdd(f0, QScale(f1, x)), QAdd(f0, QScale(f1, Neg(x)));
            QAdd(l, r) == QScale(f0, 2) && QScale(QSub(l, r), Inverse(x)) == QScale(f1, 2)
  {
    hide QAdd, QSub, QScale, Mul, Inverse, Neg;
    var q := QScale(f1, x);
    QScaleLaws(f1, f1, x, 0x7FFF_FFFE);
    TimesMinusOne(x);
    assert QScale(f1, Neg(x)) == QScale(q, 0x7FFF_FFFE);
    SignedPair(f0, q);
    QDouble(f0); QDouble(q);
    QScaleLaws(f1, f1, x, 2);
    QScaleLaws(f1, f1, Mul(x, 2), Inverse(x));
    HalveAndCancel(x);
  }

  lemma HalveAndCancel(x: M31)
    requires x != 0
    ensures Mul(Mul(x, 2), Inverse(x)) == 2
  {
    hide Mul, Inverse;
    MulComm(x, 2);
    MulAssoc(2, x, Inverse(x));
    InverseCorrect(x);
    MulUnits(2);
  }

  lemma SignedPair(f: QM31, q: QM31)
    ensures var l, r := QAdd(f, q), QAdd(f, QScale(q, 0x7FFF_FFFE));
            QAdd(l, r) == QAdd(f, f) && QSub(l, r) == QAdd(q, q)
  {
    hide QScale, Mul;
    MinusOneScales(q);
  }

  lemma LevelOfValues(e: seq<QM31>, c: seq<QM31>, logSize: nat)
    requires 1 <= logSize <= 29 && |c| == Pow2(logSize) && HoldsNatural(e, c, logSize)
    ensures HoldsNatural(Sums(e), Scaled(Even(c), 2), logSize - 1)
    ensures HoldsNatural(Diffs(e, logSize), Scaled(Odd(c), 2), logSize - 1)
  {
    hide DomainX, DoubleX, QAdd, QSub, QScale, Inverse, LineEval, Sums, Diffs;
    LevelLengths(e, logSize);
    forall i: nat | i < Pow2(logSize - 1)
      ensures Sums(e)[i] == LineEval(Scaled(Even(c), 2), DomainX(logSize - 1, i))
      ensures Diffs(e, logSize)[i] == LineEval(Scaled(Odd(c), 2), DomainX(logSize - 1, i))
    {
      LevelAt(e, c, logSize, i);
    }
  }

  lemma LevelLengths(e: seq<QM31>, logSize: nat)
    requires 1 <= logSize <= 30 && |e| == Pow2(logSize)
    ensures |Sums(e)| == |Diffs(e, logSize)| == Pow2(logSize - 1)
  {
    hide DomainX, QAdd, QSub, QScale, Inverse;
  }

  lemma LevelAt(e: seq<QM31>, c: seq<QM31>, logSize: nat, i: nat)
    requires 1 <= logSize <= 29 && |c| == Pow2(logSize) && HoldsNatural(e, c, logSize)
    requires i < Pow2(logSize - 1)
    ensures |Sums(e)| == |Diffs(e, logSize)| == Pow2(logSize - 1)
    ensures Sums(e)[i] == LineEval(Scaled(Even(c), 2), DomainX(logSize - 1, i))
    ensures Diffs(e, logSize)[i] == LineEval(Scaled(Odd(c), 2), DomainX(logSize - 1, i))
  {
    hide DomainX, DoubleX, QAdd, QSub, QScale, Mul, Inverse, Neg, Scaled;
    var x, y := DomainX(logSize, i), DomainX(logSize - 1, i);
    DomainXDouble(logSize, i);
    SameDouble(logSize, i);
    DomainXOpposite(logSize, i);
    DomainXNonzero(logSize, i);
    PairOfValues(LineEval(Even(c), y), LineEval(Odd(c), y), x);
    LineEvalScaled(Even(c), 2, y);
    LineEvalScaled(Odd(c), 2, y);
  }

  /** The transform of the values of c is 2^logSize c, bit-reversed. */
  lemma {:induction false} IfftOfValues(e: seq<QM31>, c: seq<QM31>, logSize: nat)
    requires logSize <= 29 && |c| == Pow2(logSize) && HoldsNatural(e, c, logSize)
    ensures Ifft(e, logSize) == Scaled(BitRevPermuted(c, logSize), SizeElement(logSize))
    decreases logSize
  {
    hide DomainX, QAdd, QSub, QScale, Mul, SizeElement, HoldsNatural, BitRev, Sums, Diffs, Ifft, BitRevPermuted;
    assert |e| == Pow2(logSize) by { HoldsLength(e, c, logSize); }
    SizeElementFacts(logSize);
    if logSize == 0 {
      HoldsAt(e, c, 0, 0);
      IfftOfConstant(e, c);
    } else {
      var s, s1 := SizeElement(logSize), SizeElement(logSize - 1);
      LevelOfValues(e, c, logSize);
      IfftOfValues(Sums(e), Scaled(Even(c), 2), logSize - 1);
      IfftOfValues(Diffs(e, logSize), Scaled(Odd(c), 2), logSize - 1);
      RescaleHalf(Even(c), logSize - 1, s1, s);
      RescaleHalf(Odd(c), logSize - 1, s1, s);
      IfftUnfold(e, logSize);
      ScaledHalves(c, logSize, s);
    }
  }

  lemma ScaledHalves(c: seq<QM31>, k: nat, s: M31)
    requires k >= 1 && |c| == Pow2(k)
    ensures Scaled(BitRevPermuted(c, k), s)
         == Scaled(BitRevPermuted(Even(c), k - 1), s) + Scaled(BitRevPermuted(Odd(c), k - 1), s)
  {
    hide QScale, BitRev;
    BitRevPermutedHalves(c, k);
    var h, b := Pow2(k - 1), BitRevPermuted(c, k);
    assert b == b[..h] + b[h..];
    assert Scaled(b, s) == Scaled(b[..h], s) + Scaled(b[h..], s);
  }

  lemma IfftOfConstant(e: seq<QM31>, c: seq<QM31>)
    requires |e| == |c| == 1 && e[0] == LineEval(c, DomainX(0, 0))
    ensures Ifft(e, 0) == Scaled(BitRevPermuted(c, 0), SizeElement(0))
  {
    hide *;
    SizeElementFacts(0);
    QScaleLaws(c[0], c[0], 1, 1);
    ReversedSingle(c);
    ScaledSingle(c, 1);
    ConstantEval(c, DomainX(0, 0));
    IfftSingle(e);
    assert e == [e[0]] && c == [c[0]];
  }

  lemma ReversedSingle(c: seq<QM31>)
    requires |c| == 1
    ensures Pow2(0) == 1 && BitRevPermuted(c, 0) == c
  {
    hide BitRev;
    BitRevBound(0, 0);
  }

  lemma ScaledSingle(c: seq<QM31>, s: M31)
    requires |c| == 1
    ensures Scaled(c, s) == [QScale(c[0], s)]
  {
    hide QScale;
  }

  lemma ConstantEval(c: seq<QM31>, x: M31)
    requires |c| == 1
    ensures LineEval(c, x) == c[0]
  {
    hide QScale, QAdd, DoubleX;
  }

  lemma IfftSingle(e: seq<QM31>)
    requires |e| == 1
    ensures Pow2(0) == 1 && Ifft(e, 0) == e
  {
    hide Sums, Diffs;
  }

  lemma HoldsLength(e: seq<QM31>, c: seq<QM31>, logSize: nat)
    requires logSize <= 30 && HoldsNatural(e, c, logSize)
    ensures |e| == Pow2(logSize)
  {
  }

  lemma HoldsAt(e: seq<QM31>, c: seq<QM31>, logSize: nat, i: nat)
    requires logSize <= 30 && HoldsNatural(e, c, logSize) && i < |e|
    ensures e[i] == LineEval(c, DomainX(logSize, i))
  {
  }

  lemma RescaleHalf(c: seq<QM31>, k: nat, s1: M31, s: M31)
    requires |c| == Pow2(k) && s == Mul(2, s1)
    ensures Scaled(BitRevPermuted(Scaled(c, 2), k), s1) == Scaled(BitRevPermuted(c, k), s)
  {
    hide QScale, Mul, BitRev;
    forall i: nat | i < |c|
      ensures Scaled(BitRevPermuted(Scaled(c, 2), k), s1)[i] == Scaled(BitRevPermuted(c, k), s)[i]
    {
      BitRevBound(i, k);
      var z := c[BitRev(i, k)];
      QScaleLaws(z, z, 2, s1);
    }
  }
}
