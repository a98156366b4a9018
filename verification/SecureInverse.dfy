/**
 CM31 and QM31 are fields: both inverses are correct on every nonzero element
 (src/field/cm31.rs, src/field/qm31.rs). Minus one is no square because P = 3 modulo 4,
 and 2 + i is none because 5, its norm, is none.
 */
module SecureInverse {
  import opened Bits
  import opened M31Field
  import opened MersennePrime
  import opened SecureField
  import CG = CircleGroup

  // ---- two non-squares of M31 ----

  lemma PowTwice(n: M31, e: nat)
    ensures Pow(n, 2 * e) == Pow(Mul(n, n), e)
  {
    hide Mul;
    if e == 0 { PowZero(n); PowZero(Mul(n, n)); }
  }

  lemma {:induction false} PowOfMinusOne(e: nat)
    requires e % 2 == 1
    ensures Pow(0x7FFF_FFFE, e) == 0x7FFF_FFFE
  {
    hide *;
    RedHom(); RedId(1); CG.RedMinusOne();
    assert Mul(0x7FFF_FFFE, 0x7FFF_FFFE) == 1;
    var m: M31 := 0x7FFF_FFFE;
    PowTwice(m, e / 2);
    PowOne(e / 2);
    PowSucc(m, e - 1);
    MulUnits(m);
    assert e == 2 * (e / 2) + 1;
  }

  lemma MinusOneIsNoSquare(c: M31)
    ensures Mul(c, c) != 0x7FFF_FFFE
  {
    hide *;
    if Mul(c, c) == 0x7FFF_FFFE {
      NonzeroSquare(c);
      Fermat(c);
      PowTwice(c, 0x3FFF_FFFF);
      PowOfMinusOne(0x3FFF_FFFF);
    }
  }

  lemma NonzeroSquare(c: M31)
    requires Mul(c, c) != 0
    ensures c != 0
  {
    MulUnits(0);
  }

  lemma SquareStep(a: M31, q: int, b: M31, n: nat)
    requires a * a == 0x7FFF_FFFF * q + b
    ensures Pow(a, Pow2(n + 1)) == Pow(b, Pow2(n))
  {
    hide *;
    RedHom(); RedId(a);
    CG.RedQuotient(q, b);
    Pow2Unfold(n + 1);
    PowTwice(a, Pow2(n));
  }

  /** 5^(2^30) = -5. */
  lemma FiveIsNoResidue()
    ensures Pow(5, Pow2(30)) == 0x7FFF_FFFA
  {
    hide *;
    SquareStep(5, 0, 25, 29);
    SquareStep(25, 0, 625, 28);
    SquareStep(625, 0, 390625, 27);
    SquareStep(390625, 71, 116551688, 26);
    SquareStep(116551688, 6325680, 1619494384, 25);
    SquareStep(1619494384, 1221318757, 1375672677, 24);
    SquareStep(1375672677, 881252491, 943831652, 23);
    SquareStep(943831652, 414819544, 121052136, 22);
    SquareStep(121052136, 6823623, 824369415, 21);
    SquareStep(824369415, 316456394, 1283853307, 20);
    SquareStep(1283853307, 767539867, 1091781300, 19);
    SquareStep(1091781300, 555061925, 19849525, 18);
    SquareStep(19849525, 183472, 523043241, 17);
    SquareStep(523043241, 127392929, 184852018, 16);
    SquareStep(184852018, 15911771, 541363487, 15);
    SquareStep(541363487, 136473414, 241538311, 14);
    SquareStep(241538311, 27167031, 870690664, 13);
    SquareStep(870690664, 353018861, 1296694829, 12);
    SquareStep(1296694829, 782971028, 850560125, 11);
    SquareStep(850560125, 336883834, 1786353027, 10);
    SquareStep(1786353027, 1485951775, 28939304, 9);
    SquareStep(28939304, 389983, 1200896415, 8);
    SquareStep(1200896415, 671554450, 114773075, 7);
    SquareStep(114773075, 6134090, 780729395, 6);
    SquareStep(780729395, 283838430, 1401911815, 5);
    SquareStep(1401911815, 915190548, 1317625669, 4);
    SquareStep(1317625669, 808451978, 1467893795, 3);
    SquareStep(1467893795, 1003366054, 479583087, 2);
    SquareStep(479583087, 107102066, 2041534867, 1);
    SquareStep(2041534867, 1940813201, 2147483642, 0);
    CG.Pow2Zero();
    PowSucc(0x7FFF_FFFA, 0); PowZero(0x7FFF_FFFA); MulUnits(0x7FFF_FFFA);
  }

  lemma FiveIsNoSquare(c: M31)
    ensures Mul(c, c) != 5
  {
    hide *;
    if Mul(c, c) == 5 {
      NonzeroSquare(c);
      Fermat(c);
      FiveIsNoResidue();
      assert Pow2(30) == 0x4000_0000 by { Pow2Table(); }
      PowTwice(c, 0x4000_0000);
      PowAdd(c, 0x7FFF_FFFE, 2);
      PowTwice(c, 1);
      PowSucc(5, 0); PowZero(5); MulUnits(5);
    }
  }

  // ---- CM31 ----

  lemma TimesConjugate(x: CM31)
    ensures CMul(x, CConj(x)) == CM31(CNorm(x), 0)
  {
    hide *;
    CMulParts(x, CConj(x)); ConjNormParts(x);
    var a: int, b: int := x.a, x.b;
    RedHom(); RedId(a); RedId(b); RedId(0);
    assert b * -b == -(b * b);
    assert a * -b == -(b * a);
  }

  lemma CMulParts(x: CM31, y: CM31)
    ensures CMul(x, y) == CM31(Sub(Mul(x.a, y.a), Mul(x.b, y.b)), Add(Mul(x.a, y.b), Mul(x.b, y.a)))
  {
  }

  lemma ConjNormParts(x: CM31)
    ensures CConj(x) == CM31(x.a, Neg(x.b)) && CNorm(x) == Add(Mul(x.a, x.a), Mul(x.b, x.b))
  {
  }

  lemma ConjugateOfProduct(x: CM31, y: CM31)
    ensures CConj(CMul(x, y)) == CMul(CConj(x), CConj(y))
  {
    hide *;
    CMulParts(x, y); CMulParts(CConj(x), CConj(y)); ConjNormParts(x); ConjNormParts(y); ConjNormParts(CMul(x, y));
    NegMul(x.a, y.b); NegMul(y.a, x.b); NegMul(Neg(x.b), y.b);
    MulComm(y.a, x.b); MulComm(y.a, Neg(x.b)); MulComm(Neg(x.b), y.b); MulComm(x.b, y.b); NegMul(y.b, x.b);
    NegTwice(Mul(x.b, y.b));
    NegAdd(Mul(x.a, y.b), Mul(x.b, y.a));
  }

  lemma NegMul(m: M31, n: M31)
    ensures Mul(m, Neg(n)) == Neg(Mul(m, n))
  {
    hide *;
    var a: int, b: int := m, n;
    RedHom(); RedId(a); RedId(b);
    assert a * -b == -(a * b);
  }

  lemma NegTwice(m: M31)
    ensures Neg(Neg(m)) == m
  {
  }

  lemma NegAdd(m: M31, n: M31)
    ensures Neg(Add(m, n)) == Add(Neg(m), Neg(n))
  {
  }

  /** The norm is multiplicative. */
  lemma NormOfProduct(x: CM31, y: CM31)
    ensures CNorm(CMul(x, y)) == Mul(CNorm(x), CNorm(y))
  {
    hide *;
    TimesConjugate(CMul(x, y)); TimesConjugate(x); TimesConjugate(y);
    ConjugateOfProduct(x, y);
    CMulSwap(x, y, CConj(x), CConj(y));
    ScaledReal(CNorm(x), CNorm(y));
  }

  lemma CMulSwap(a: CM31, b: CM31, c: CM31, d: CM31)
    ensures CMul(CMul(a, b), CMul(c, d)) == CMul(CMul(a, c), CMul(b, d))
  {
    hide *;
    CMulAssoc(a, b, CMul(c, d)); CMulAssoc(b, c, d); CMulComm(b, c); CMulAssoc(c, b, d); CMulAssoc(a, c, CMul(b, d));
  }

  lemma ScaledReal(m: M31, n: M31)
    ensures CMul(CM31(m, 0), CM31(n, 0)) == CM31(Mul(m, n), 0)
  {
    hide Mul;
    CScaleIsMul(CM31(m, 0), n);
    MulUnits(n);
  }

  /** Only zero has norm zero. */
  lemma NormZero(x: CM31)
    ensures CNorm(x) == 0 <==> x == CZERO
  {
    hide Mul, Inverse;
    MulUnits(0);
    if CNorm(x) == 0 && x.b != 0 {
      QuotientSquared(x.a, x.b);
      MinusOneIsNoSquare(Mul(x.a, Inverse(x.b)));
    }
    if CNorm(x) == 0 && x.b == 0 && x.a != 0 {
      NoZeroDivisors(x.a, x.a);
    }
  }

  lemma QuotientSquared(a: M31, b: M31)
    requires b != 0 && Add(Mul(a, a), Mul(b, b)) == 0
    ensures Mul(Mul(a, Inverse(b)), Mul(a, Inverse(b))) == 0x7FFF_FFFE
  {
    hide *;
    var v := Inverse(b);
    InverseCorrect(b);
    Mul4(a, v, a, v);
    SumZero(Mul(a, a), Mul(b, b));
    Mul4(b, v, b, v);
    NegMul(Mul(v, v), Mul(b, b));
    MulComm(Mul(v, v), Neg(Mul(b, b))); MulComm(Mul(v, v), Mul(b, b));
    MulUnits(1);
    MinusOneIsNeg();
  }

  lemma MinusOneIsNeg()
    ensures Neg(1) == 0x7FFF_FFFE
  {
  }

  lemma SumZero(a: M31, b: M31)
    requires Add(a, b) == 0
    ensures a == Neg(b)
  {
  }

  /** CM31::inverse */
  lemma CInverseCorrect(x: CM31)
    ensures x != CZERO ==> CMul(x, CInverse(x)) == CONE
    ensures x == CZERO ==> CInverse(x) == CZERO
  {
    hide Mul, Inverse, CMul, CConj, CNorm, CScale;
    NormZero(x);
    InverseCorrect(CNorm(x));
    var v := Inverse(CNorm(x));
    CScaleIsMul(CConj(x), v);
    CMulAssoc(x, CConj(x), CM31(v, 0));
    TimesConjugate(x);
    ScaledReal(CNorm(x), v);
    CMulUnits(CConj(x));
  }

  lemma CNoZeroDivisors(x: CM31, y: CM31)
    requires CMul(x, y) == CZERO
    ensures x == CZERO || y == CZERO
  {
    hide CMul, CInverse;
    if x != CZERO {
      CInverseCorrect(x);
      CMulComm(x, CInverse(x));
      CMulAssoc(CInverse(x), x, y);
      CMulUnits(y); CMulUnits(CInverse(x));
    }
  }

  // ---- QM31 ----

  lemma NormOfU2()
    ensures CNorm(CM31(2, 1)) == 5
  {
    hide Mul;
    MulIsMod(2, 2); MulIsMod(1, 1);
  }

  /** 2 + i is not a square. */
  lemma U2IsNoSquare(c: CM31)
    ensures CMul(c, c) != CM31(2, 1)
  {
    hide CMul, CNorm, Mul;
    if CMul(c, c) == CM31(2, 1) {
      NormOfProduct(c, c);
      NormOfU2();
      FiveIsNoSquare(CNorm(c));
    }
  }

  /** Only zero has norm zero. */
  lemma QNormZero(x: QM31)
    ensures QNorm(x) == CZERO <==> x == QZERO
  {
    hide CMul, CInverse, TimesU2;
    CMulUnits(CZERO);
    TimesU2IsMul(CZERO); CMulUnits(CM31(2, 1));
    CAddLaws(CZERO, CZERO, CZERO);
    if QNorm(x) == CZERO {
      CSubZero(CMul(x.a, x.a), TimesU2(CMul(x.b, x.b)));
      if x.b != CZERO {
        var v := CInverse(x.b);
        CInverseCorrect(x.b);
        CMulSwap(x.a, v, x.a, v);
        TimesU2IsMul(CMul(x.b, x.b));
        CMulAssoc(CM31(2, 1), CMul(x.b, x.b), CMul(v, v));
        CMulSwap(x.b, x.b, v, v);
        CMulUnits(CONE); CMulUnits(CM31(2, 1));
        U2IsNoSquare(CMul(x.a, v));
      } else {
        CNoZeroDivisors(x.a, x.a);
      }
    }
  }

  lemma CSubZero(x: CM31, y: CM31)
    ensures CSub(x, y) == CZERO <==> x == y
  {
  }

  lemma QTimesConjugate(x: QM31)
    ensures QMul(x, QConj(x)) == QM31(QNorm(x), CZERO)
  {
    hide CMul, TimesU2, CAdd, CSub;
    NegatedProduct(x.b, x.b); NegatedProduct(x.a, x.b);
    CMulComm(x.b, x.a);
    TimesU2Neg(CMul(x.b, x.b));
    CAddNeg(CMul(x.a, x.a), TimesU2(CMul(x.b, x.b)));
    CAddNeg(CMul(x.a, x.b), CMul(x.a, x.b));
    CAddLaws(CNeg(CMul(x.a, x.b)), CMul(x.a, x.b), CZERO);
    CSubZero(CMul(x.a, x.b), CMul(x.a, x.b));
  }

  lemma NegatedProduct(x: CM31, y: CM31)
    ensures CMul(x, CNeg(y)) == CNeg(CMul(x, y))
  {
    hide Mul, CMul, CAdd, CSub;
    CNegIsSub(y); CNegIsSub(CMul(x, y));
    CMulDistrib(x, CZERO, y);
    CMulUnits(x);
  }

  lemma CNegIsSub(y: CM31)
    ensures CNeg(y) == CSub(CZERO, y)
  {
  }

  lemma TimesU2Neg(x: CM31)
    ensures TimesU2(CNeg(x)) == CNeg(TimesU2(x))
  {
    hide CMul, TimesU2;
    TimesU2IsMul(x); TimesU2IsMul(CNeg(x));
    NegatedProduct(CM31(2, 1), x);
  }

  lemma CAddNeg(x: CM31, y: CM31)
    ensures CAdd(x, CNeg(y)) == CSub(x, y)
  {
  }

  lemma QScaleCIsMul(x: QM31, c: CM31)
    ensures QScaleC(x, c) == QMul(x, QM31(c, CZERO))
  {
    hide CMul, TimesU2;
    CMulUnits(x.a); CMulUnits(x.b);
    TimesU2IsMul(CZERO); CMulUnits(CM31(2, 1));
    CAddLaws(CMul(x.a, c), CZERO, CZERO); CAddLaws(CMul(x.b, c), CZERO, CZERO);
  }

  /** QM31::inverse is the multiplicative inverse on nonzero elements, and maps zero to zero. */
  lemma QInverseCorrect(x: QM31)
    ensures x != QZERO ==> QMul(x, QInverse(x)) == QONE && QMul(QInverse(x), x) == QONE && QInverse(x) != QZERO
    ensures x == QZERO ==> QInverse(x) == QZERO
  {
    hide CMul, CInverse, QNorm, QConj, QMul, QScaleC;
    QNormZero(x);
    CInverseCorrect(QNorm(x));
    var v := CInverse(QNorm(x));
    QScaleCIsMul(QConj(x), v);
    QMulAssoc(x, QConj(x), QM31(v, CZERO));
    QTimesConjugate(x);
    QScaleCIsMul(QM31(QNorm(x), CZERO), v);
    ScaledComplex(QNorm(x), v);
    QMulComm(x, QInverse(x));
    QMulUnits(x); QMulUnits(QConj(x));
    EmbedUnits();
  }

  lemma ScaledComplex(x: CM31, v: CM31)
    ensures QScaleC(QM31(x, CZERO), v) == QM31(CMul(x, v), CZERO)
    ensures QM31(CZERO, CZERO) == QZERO && QM31(CONE, CZERO) == QONE
  {
    hide CMul;
    CMulUnits(v);
  }

  lemma QNoZeroDivisors(x: QM31, y: QM31)
    requires QMul(x, y) == QZERO
    ensures x == QZERO || y == QZERO
  {
    hide QMul, QInverse;
    if x != QZERO {
      QInverseCorrect(x);
      QMulAssoc(QInverse(x), x, y);
      QMulUnits(y); QMulUnits(QInverse(x));
    }
  }

  lemma QInverseUnique(x: QM31, y: QM31)
    requires QMul(x, y) == QONE
    ensures x != QZERO && y == QInverse(x)
  {
    hide QMul, QInverse;
    QMulUnits(y);
    OneIsNotZero();
    QInverseCorrect(x);
    QMulAssoc(QInverse(x), x, y);
    QMulUnits(QInverse(x));
  }

  lemma OneIsNotZero()
    ensures QONE != QZERO
  {
  }
}
