/**
 The extension tower M31 < CM31 = M31[i] < QM31 = CM31[u], u^2 = 2 + i
 (src/field/cm31.rs, src/field/qm31.rs).
 */
module SecureField {
  import opened M31Field
  import CG = CircleGroup

  datatype CM31 = CM31(a: M31, b: M31)
  datatype QM31 = QM31(a: CM31, b: CM31)

  const CZERO := CM31(0, 0)
  const CONE := CM31(1, 0)
  const QZERO := QM31(CZERO, CZERO)
  const QONE := QM31(CONE, CZERO)

  // ---- CM31 ----

  function CAdd(x: CM31, y: CM31): CM31 { CM31(Add(x.a, y.a), Add(x.b, y.b)) }

  function CSub(x: CM31, y: CM31): CM31 { CM31(Sub(x.a, y.a), Sub(x.b, y.b)) }

  function CNeg(x: CM31): CM31 { CM31(Neg(x.a), Neg(x.b)) }

  function CMul(x: CM31, y: CM31): CM31 {
    CM31(Sub(Mul(x.a, y.a), Mul(x.b, y.b)), Add(Mul(x.a, y.b), Mul(x.b, y.a)))
  }

  function CScale(x: CM31, m: M31): CM31 { CM31(Mul(x.a, m), Mul(x.b, m)) }

  function CConj(x: CM31): CM31 { CM31(x.a, Neg(x.b)) }

  function CNorm(x: CM31): M31 { Add(Mul(x.a, x.a), Mul(x.b, x.b)) }

  function CInverse(x: CM31): CM31 { CScale(CConj(x), Inverse(CNorm(x))) }

  /** x * (2 + i), the way the QM31 operators spell it. */
  function TimesU2(x: CM31): CM31 { CM31(Sub(Double(x.a), x.b), Add(x.a, Double(x.b))) }

  lemma CAddLaws(x: CM31, y: CM31, z: CM31)
    ensures CAdd(x, y) == CAdd(y, x)
    ensures CAdd(CAdd(x, y), z) == CAdd(x, CAdd(y, z))
    ensures CAdd(x, CZERO) == x && CAdd(CZERO, x) == x
    ensures CSub(CAdd(x, y), y) == x && CAdd(CSub(x, y), y) == x
  {
  }

  lemma CMulComm(x: CM31, y: CM31)
    ensures CMul(x, y) == CMul(y, x)
  {
    hide *;
    CMulIsPMul(x, y); CMulIsPMul(y, x);
    CG.PMulComm(CG.CirclePoint(x.a, x.b), CG.CirclePoint(y.a, y.b));
  }

  /** Complex multiplication is the circle group operation. */
  lemma CMulIsPMul(x: CM31, y: CM31)
    ensures var p := CG.PMul(CG.CirclePoint(x.a, x.b), CG.CirclePoint(y.a, y.b));
            CMul(x, y) == CM31(p.x, p.y)
  {
    hide Add, Sub, Mul;
  }

  lemma CMulAssoc(x: CM31, y: CM31, z: CM31)
    ensures CMul(CMul(x, y), z) == CMul(x, CMul(y, z))
  {
    hide *;
    CMulIsPMul(x, y); CMulIsPMul(CMul(x, y), z); CMulIsPMul(y, z); CMulIsPMul(x, CMul(y, z));
    CG.PMulAssoc(CG.CirclePoint(x.a, x.b), CG.CirclePoint(y.a, y.b), CG.CirclePoint(z.a, z.b));
  }

  lemma CMulUnits(x: CM31)
    ensures CMul(x, CONE) == x && CMul(CONE, x) == x
    ensures CMul(x, CZERO) == CZERO && CMul(CZERO, x) == CZERO
  {
    hide Mul;
    MulUnits(x.a); MulUnits(x.b);
  }

  lemma CMulDistrib(x: CM31, y: CM31, z: CM31)
    ensures CMul(x, CAdd(y, z)) == CAdd(CMul(x, y), CMul(x, z))
    ensures CMul(x, CSub(y, z)) == CSub(CMul(x, y), CMul(x, z))
  {
    hide Mul, Add, Sub;
    MulDistrib(x.a, y.a, z.a); MulDistrib(x.b, y.b, z.b);
    MulDistrib(x.a, y.b, z.b); MulDistrib(x.b, y.a, z.a);
    AddSwap(Mul(x.a, y.a), Mul(x.a, z.a), Mul(x.b, y.b), Mul(x.b, z.b));
    AddSwap(Mul(x.a, y.b), Mul(x.a, z.b), Mul(x.b, y.a), Mul(x.b, z.a));
    SubSwap(Mul(x.a, y.a), Mul(x.a, z.a), Mul(x.b, y.b), Mul(x.b, z.b));
    SubSwap(Mul(x.a, y.b), Mul(x.a, z.b), Mul(x.b, y.a), Mul(x.b, z.a));
  }

  lemma SubSwap(a: M31, b: M31, c: M31, d: M31)
    ensures Sub(Sub(a, b), Sub(c, d)) == Sub(Sub(a, c), Sub(b, d))
    ensures Add(Sub(a, b), Sub(c, d)) == Sub(Add(a, c), Add(b, d))
  {
  }

  lemma CScaleIsMul(x: CM31, m: M31)
    ensures CScale(x, m) == CMul(x, CM31(m, 0))
  {
    hide Mul;
    MulUnits(x.a); MulUnits(x.b);
  }

  lemma TimesU2IsMul(x: CM31)
    ensures TimesU2(x) == CMul(CM31(2, 1), x)
  {
    hide Mul, Double, Add, Sub, Red;
    RedHom(); RedId(x.a); RedId(x.b); RedId(2); RedId(1);
    MulUnits(x.a); MulUnits(x.b);
    AddComm(x.a, Double(x.b)); AddComm(Mul(2, x.b), x.a);
    assert 2 * x.a == 2 * x.a;
  }

  // ---- QM31 ----

  function QAdd(x: QM31, y: QM31): QM31 { QM31(CAdd(x.a, y.a), CAdd(x.b, y.b)) }

  function QSub(x: QM31, y: QM31): QM31 { QM31(CSub(x.a, y.a), CSub(x.b, y.b)) }

  function QMul(x: QM31, y: QM31): QM31 {
    QM31(CAdd(CMul(x.a, y.a), TimesU2(CMul(x.b, y.b))), CAdd(CMul(x.a, y.b), CMul(x.b, y.a)))
  }

  function QScale(x: QM31, m: M31): QM31 { QM31(CScale(x.a, m), CScale(x.b, m)) }

  function QScaleC(x: QM31, c: CM31): QM31 { QM31(CMul(x.a, c), CMul(x.b, c)) }

  function QConj(x: QM31): QM31 { QM31(x.a, CNeg(x.b)) }

  function QNorm(x: QM31): CM31 { CSub(CMul(x.a, x.a), TimesU2(CMul(x.b, x.b))) }

  function QInverse(x: QM31): QM31 { QScaleC(QConj(x), CInverse(QNorm(x))) }

  function Embed(m: M31): QM31 { QM31(CM31(m, 0), CZERO) }

  function FromWords(v: seq<M31>): QM31
    requires |v| == 4
  {
    QM31(CM31(v[0], v[1]), CM31(v[2], v[3]))
  }

  function ToWords(x: QM31): (r: seq<M31>)
    ensures |r| == 4 && FromWords(r) == x
  {
    [x.a.a, x.a.b, x.b.a, x.b.b]
  }

  lemma QAddLaws(x: QM31, y: QM31, z: QM31)
    ensures QAdd(x, y) == QAdd(y, x)
    ensures QAdd(QAdd(x, y), z) == QAdd(x, QAdd(y, z))
    ensures QAdd(x, QZERO) == x && QAdd(QZERO, x) == x
    ensures QSub(QAdd(x, y), y) == x && QAdd(QSub(x, y), y) == x
  {
    hide CAdd, CSub;
    CAddLaws(x.a, y.a, z.a);
    CAddLaws(x.b, y.b, z.b);
  }

  lemma QAddSwap(a: QM31, b: QM31, c: QM31, d: QM31)
    ensures QAdd(QAdd(a, b), QAdd(c, d)) == QAdd(QAdd(a, c), QAdd(b, d))
    ensures QSub(QAdd(a, b), QAdd(c, d)) == QAdd(QSub(a, c), QSub(b, d))
  {
    hide Add, Sub;
    AddSwap(a.a.a, b.a.a, c.a.a, d.a.a); AddSwap(a.a.b, b.a.b, c.a.b, d.a.b);
    AddSwap(a.b.a, b.b.a, c.b.a, d.b.a); AddSwap(a.b.b, b.b.b, c.b.b, d.b.b);
  }

  lemma AddSwap(a: M31, b: M31, c: M31, d: M31)
    ensures Add(Add(a, b), Add(c, d)) == Add(Add(a, c), Add(b, d))
    ensures Sub(Add(a, b), Add(c, d)) == Add(Sub(a, c), Sub(b, d))
  {
  }

  lemma QMulComm(x: QM31, y: QM31)
    ensures QMul(x, y) == QMul(y, x)
  {
    hide CMul, CAdd, TimesU2;
    CMulComm(x.a, y.a); CMulComm(x.b, y.b); CMulComm(x.a, y.b); CMulComm(x.b, y.a);
    CAddLaws(CMul(x.a, y.b), CMul(x.b, y.a), CZERO);
  }

  lemma QMulUnits(x: QM31)
    ensures QMul(x, QONE) == x && QMul(QONE, x) == x
    ensures QMul(x, QZERO) == QZERO && QMul(QZERO, x) == QZERO
  {
    hide CMul;
    CMulUnits(x.a); CMulUnits(x.b);
  }

  lemma TimesU2Sum(x: CM31, y: CM31)
    ensures TimesU2(CAdd(x, y)) == CAdd(TimesU2(x), TimesU2(y))
    ensures TimesU2(CSub(x, y)) == CSub(TimesU2(x), TimesU2(y))
    ensures TimesU2(CMul(x, y)) == CMul(TimesU2(x), y) == CMul(x, TimesU2(y))
  {
    hide CMul, CAdd, CSub, TimesU2;
    var w := CM31(2, 1);
    TimesU2IsMul(x); TimesU2IsMul(y); TimesU2IsMul(CAdd(x, y)); TimesU2IsMul(CSub(x, y)); TimesU2IsMul(CMul(x, y));
    CMulDistrib(w, x, y);
    CMulAssoc(w, x, y);
    CMulAssoc(x, w, y); CMulComm(x, w);
  }

  lemma CAddSwap(a: CM31, b: CM31, c: CM31, d: CM31)
    ensures CAdd(CAdd(a, b), CAdd(c, d)) == CAdd(CAdd(a, c), CAdd(b, d))
    ensures CSub(CAdd(a, b), CAdd(c, d)) == CAdd(CSub(a, c), CSub(b, d))
  {
    hide Add, Sub;
    AddSwap(a.a, b.a, c.a, d.a); AddSwap(a.b, b.b, c.b, d.b);
  }

  lemma QMulDistrib(x: QM31, y: QM31, z: QM31)
    ensures QMul(x, QAdd(y, z)) == QAdd(QMul(x, y), QMul(x, z))
    ensures QMul(x, QSub(y, z)) == QSub(QMul(x, y), QMul(x, z))
    ensures QMul(QAdd(y, z), x) == QAdd(QMul(y, x), QMul(z, x))
    ensures QMul(QSub(y, z), x) == QSub(QMul(y, x), QMul(z, x))
  {
    hide CMul, CAdd, CSub, TimesU2;
    CMulDistrib(x.a, y.a, z.a); CMulDistrib(x.b, y.b, z.b);
    CMulDistrib(x.a, y.b, z.b); CMulDistrib(x.b, y.a, z.a);
    TimesU2Sum(CMul(x.b, y.b), CMul(x.b, z.b));
    CAddSwap(CMul(x.a, y.a), CMul(x.a, z.a), TimesU2(CMul(x.b, y.b)), TimesU2(CMul(x.b, z.b)));
    CAddSwap(CMul(x.a, y.b), CMul(x.a, z.b), CMul(x.b, y.a), CMul(x.b, z.a));
    CSubSwap(CMul(x.a, y.a), CMul(x.a, z.a), TimesU2(CMul(x.b, y.b)), TimesU2(CMul(x.b, z.b)));
    CSubSwap(CMul(x.a, y.b), CMul(x.a, z.b), CMul(x.b, y.a), CMul(x.b, z.a));
    QMulComm(x, QAdd(y, z)); QMulComm(x, QSub(y, z)); QMulComm(x, y); QMulComm(x, z);
  }

  lemma CSubSwap(a: CM31, b: CM31, c: CM31, d: CM31)
    ensures CAdd(CSub(a, b), CSub(c, d)) == CSub(CAdd(a, c), CAdd(b, d))
  {
    CAddSwap(a, c, b, d);
  }

  lemma QMulAssoc(x: QM31, y: QM31, z: QM31)
    ensures QMul(QMul(x, y), z) == QMul(x, QMul(y, z))
  {
    hide CMul, CAdd, TimesU2;
    QMulAssocLow(x, y, z);
    QMulAssocHigh(x, y, z);
  }

  /** The u-free part of a triple product, expanded. */
  lemma QMulAssocLow(x: QM31, y: QM31, z: QM31)
    ensures QMul(QMul(x, y), z).a == QMul(x, QMul(y, z)).a
  {
    hide CMul, CAdd, TimesU2;
    var ac, bd, ad, bc := CMul(x.a, y.a), CMul(x.b, y.b), CMul(x.a, y.b), CMul(x.b, y.a);
    CSumTimes(ac, TimesU2(bd), z.a);
    CSumTimes(ad, bc, z.b);
    TimesU2Sum(CMul(ad, z.b), CMul(bc, z.b));
    CMulDistrib(x.a, CMul(y.a, z.a), TimesU2(CMul(y.b, z.b)));
    CMulDistrib(x.b, CMul(y.a, z.b), CMul(y.b, z.a));
    TimesU2Sum(CMul(x.b, CMul(y.a, z.b)), CMul(x.b, CMul(y.b, z.a)));
    CMulAssoc(x.a, y.a, z.a);
    TimesU2Sum(bd, z.a); CMulAssoc(x.b, y.b, z.a);
    CMulAssoc(x.a, y.b, z.b); TimesU2Sum(x.a, CMul(y.b, z.b));
    CMulAssoc(x.b, y.a, z.b);
    CAddRotate(CMul(ac, z.a), TimesU2(CMul(bd, z.a)), TimesU2(CMul(ad, z.b)), TimesU2(CMul(bc, z.b)));
  }

  lemma QMulAssocHigh(x: QM31, y: QM31, z: QM31)
    ensures QMul(QMul(x, y), z).b == QMul(x, QMul(y, z)).b
  {
    hide CMul, CAdd, TimesU2;
    var ac, bd, ad, bc := CMul(x.a, y.a), CMul(x.b, y.b), CMul(x.a, y.b), CMul(x.b, y.a);
    CSumTimes(ac, TimesU2(bd), z.b);
    CSumTimes(ad, bc, z.a);
    CMulDistrib(x.a, CMul(y.a, z.b), CMul(y.b, z.a));
    CMulDistrib(x.b, CMul(y.a, z.a), TimesU2(CMul(y.b, z.b)));
    CMulAssoc(x.a, y.a, z.b);
    TimesU2Sum(bd, z.b); CMulAssoc(x.b, y.b, z.b); TimesU2Sum(x.b, CMul(y.b, z.b));
    CMulAssoc(x.a, y.b, z.a);
    CMulAssoc(x.b, y.a, z.a);
    CAddRotate(CMul(ac, z.b), TimesU2(CMul(bd, z.b)), CMul(ad, z.a), CMul(bc, z.a));
  }

  lemma CSumTimes(x: CM31, y: CM31, z: CM31)
    ensures CMul(CAdd(x, y), z) == CAdd(CMul(x, z), CMul(y, z))
  {
    hide CMul, CAdd;
    CMulComm(CAdd(x, y), z); CMulComm(x, z); CMulComm(y, z);
    CMulDistrib(z, x, y);
  }

  lemma CAddRotate(p: CM31, q: CM31, r: CM31, s: CM31)
    ensures CAdd(CAdd(p, q), CAdd(r, s)) == CAdd(CAdd(p, r), CAdd(s, q))
    ensures CAdd(CAdd(p, q), CAdd(r, s)) == CAdd(CAdd(p, r), CAdd(q, s))
  {
    hide CAdd;
    CAddSwap(p, q, r, s);
    CAddLaws(q, s, p);
  }

  lemma QScaleIsMul(x: QM31, m: M31)
    ensures QScale(x, m) == QMul(x, Embed(m))
    ensures QScale(x, m) == QMul(Embed(m), x)
  {
    hide CMul, CScale;
    CScaleIsMul(x.a, m); CScaleIsMul(x.b, m);
    CMulUnits(x.a); CMulUnits(x.b);
    assert TimesU2(CZERO) == CZERO;
    QMulComm(x, Embed(m));
  }

  lemma EmbedHom(m: M31, n: M31)
    ensures QMul(Embed(m), Embed(n)) == Embed(Mul(m, n))
    ensures QAdd(Embed(m), Embed(n)) == Embed(Add(m, n))
    ensures QSub(Embed(m), Embed(n)) == Embed(Sub(m, n))
  {
    hide Mul;
    QScaleIsMul(Embed(m), n);
    MulUnits(n);
  }

  /** Scaling by base-field elements is linear and associates with everything. */
  lemma QScaleLaws(x: QM31, y: QM31, m: M31, n: M31)
    ensures QScale(QAdd(x, y), m) == QAdd(QScale(x, m), QScale(y, m))
    ensures QScale(QSub(x, y), m) == QSub(QScale(x, m), QScale(y, m))
    ensures QScale(QScale(x, m), n) == QScale(x, Mul(m, n))
    ensures QMul(x, QScale(y, m)) == QScale(QMul(x, y), m) == QMul(QScale(x, m), y)
    ensures QScale(x, 1) == x && QScale(QZERO, m) == QZERO && QScale(x, 0) == QZERO
    ensures QAdd(QScale(x, m), QScale(x, n)) == QScale(x, Add(m, n))
  {
    hide *;
    QScaleIsMul(x, m); QScaleIsMul(y, m); QScaleIsMul(QAdd(x, y), m); QScaleIsMul(QSub(x, y), m);
    QScaleIsMul(QScale(x, m), n); QScaleIsMul(x, Mul(m, n)); QScaleIsMul(x, n); QScaleIsMul(x, Add(m, n));
    QScaleIsMul(QMul(x, y), m);
    QMulDistrib(Embed(m), x, y);
    QMulAssoc(x, Embed(m), Embed(n));
    EmbedHom(m, n);
    QMulAssoc(x, y, Embed(m));
    QMulAssoc(x, Embed(m), y); QMulComm(y, Embed(m));
    QMulDistrib(x, Embed(m), Embed(n));
    QScaleIsMul(x, 1); QScaleIsMul(x, 0); QScaleIsMul(QZERO, m);
    EmbedUnits();
    QMulUnits(x); QMulUnits(Embed(m));
  }

  /** The tower: i squares to -1 and u squares to 2 + i. */
  lemma TowerGenerators()
    ensures CMul(CM31(0, 1), CM31(0, 1)) == CM31(0x7FFF_FFFE, 0)
    ensures QMul(QM31(CZERO, CONE), QM31(CZERO, CONE)) == QM31(CM31(2, 1), CZERO)
  {
    hide Mul;
    MulUnits(1); MulUnits(0);
  }

  lemma EmbedUnits()
    ensures Embed(1) == QONE && Embed(0) == QZERO
  {
  }
}
