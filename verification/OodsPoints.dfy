/**
 Points of the circle over the secure field, and what evaluating coefficients at
 them means (src/oods.rs).
 */
module OodsPoints {
  import opened Bits
  import opened M31Field
  import opened CircleGroup
  import opened CircleDomain
  import opened CanonicOrder
  import opened SecureField
  import opened SecureInverse
  import opened LinePoly
  import opened OodsFold

  datatype OodsPoint = OodsPoint(x: QM31, y: QM31)

  function OfCirclePoint(p: CirclePoint): OodsPoint { OodsPoint(Embed(p.x), Embed(p.y)) }

  predicate OnSecureCircle(z: OodsPoint) { QAdd(QMul(z.x, z.x), QMul(z.y, z.y)) == QONE }

  /** double_x_qm31 */
  function DoubleXQ(x: QM31): QM31 { QSub(QAdd(QMul(x, x), QMul(x, x)), QONE) }

  lemma DoubleXEmbeds(x: M31)
    ensures DoubleXQ(Embed(x)) == Embed(DoubleX(x))
  {
    hide *;
    DoubleXParts(x, Embed(x));
    EmbedHom(x, x); EmbedHom(Mul(x, x), Mul(x, x)); EmbedHom(Add(Mul(x, x), Mul(x, x)), 1);
    EmbedUnits();
    RedHom(); RedId(x); RedId(2); RedId(1);
    assert x * x + x * x == (2 * x) * x;
  }

  lemma DoubleXParts(x: M31, z: QM31)
    ensures DoubleX(x) == Sub(Mul(Mul(2, x), x), 1)
    ensures DoubleXQ(z) == QSub(QAdd(QMul(z, z), QMul(z, z)), QONE)
  {
  }

  // ---- drawing a point ----

  /** OodsPoint::from_channel, for the drawn parameter t. */
  function FromParameter(t: QM31): OodsPoint {
    var inv := QInverse(QAdd(QONE, QMul(t, t)));
    OodsPoint(QMul(QSub(QONE, QMul(t, t)), inv), QMul(QAdd(t, t), inv))
  }

  lemma QSquareOfProduct(a: QM31, v: QM31)
    ensures QMul(QMul(a, v), QMul(a, v)) == QMul(QMul(a, a), QMul(v, v))
  {
    hide *;
    QMulAssoc(a, v, QMul(a, v)); QMulAssoc(v, a, v); QMulComm(v, a); QMulAssoc(a, v, v); QMulAssoc(a, a, QMul(v, v));
  }

  /** (1 - s)^2 + 4s = (1 + s)^2, with 4s written (t + t)^2 for s = t^2. */
  lemma ParameterIdentity(t: QM31)
    ensures var s := QMul(t, t);
            QAdd(QMul(QSub(QONE, s), QSub(QONE, s)), QMul(QAdd(t, t), QAdd(t, t))) == QMul(QAdd(QONE, s), QAdd(QONE, s))
  {
    hide *;
    var s := QMul(t, t);
    Expanded(QONE, s);
    QMulUnits(QONE); QMulUnits(s);
    QMulDistrib(QAdd(t, t), t, t); QMulDistrib(t, t, t);
    Rearranged(QONE, s, QMul(s, s));
  }

  lemma Expanded(a: QM31, b: QM31)
    ensures QMul(QSub(a, b), QSub(a, b)) == QSub(QSub(QMul(a, a), QMul(a, b)), QSub(QMul(b, a), QMul(b, b)))
    ensures QMul(QAdd(a, b), QAdd(a, b)) == QAdd(QAdd(QMul(a, a), QMul(a, b)), QAdd(QMul(b, a), QMul(b, b)))
  {
    hide *;
    QMulDistrib(QSub(a, b), a, b); QMulDistrib(QAdd(a, b), a, b);
    QMulComm(QSub(a, b), a); QMulComm(QSub(a, b), b); QMulComm(QAdd(a, b), a); QMulComm(QAdd(a, b), b);
    QMulDistrib(a, a, b); QMulDistrib(b, a, b);
  }

  lemma Rearranged(one: QM31, s: QM31, ss: QM31)
    ensures QAdd(QSub(QSub(one, s), QSub(s, ss)), QAdd(QAdd(s, s), QAdd(s, s))) == QAdd(QAdd(one, s), QAdd(s, ss))
  {
    hide Add, Sub;
    RearrangedM31(one.a.a, s.a.a, ss.a.a); RearrangedM31(one.a.b, s.a.b, ss.a.b);
    RearrangedM31(one.b.a, s.b.a, ss.b.a); RearrangedM31(one.b.b, s.b.b, ss.b.b);
  }

  lemma RearrangedM31(one: M31, s: M31, ss: M31)
    ensures Add(Sub(Sub(one, s), Sub(s, ss)), Add(Add(s, s), Add(s, s))) == Add(Add(one, s), Add(s, ss))
  {
    hide *;
    RedHom(); RedId(one); RedId(s); RedId(ss);
    assert (one - s) - (s - ss) + ((s + s) + (s + s)) == (one + s) + (s + ss);
  }

  /** The drawn point lies on the circle exactly when 1 + t^2 is not zero; otherwise it is (0, 0). */
  lemma DrawnPointOnCircle(t: QM31)
    ensures OnSecureCircle(FromParameter(t)) <==> QAdd(QONE, QMul(t, t)) != QZERO
    ensures QAdd(QONE, QMul(t, t)) == QZERO ==> FromParameter(t) == OodsPoint(QZERO, QZERO)
  {
    hide QAdd, QSub, QMul, QInverse;
    var s := QMul(t, t);
    var d := QAdd(QONE, s);
    var v := QInverse(d);
    QInverseCorrect(d);
    QMulUnits(QSub(QONE, s)); QMulUnits(QAdd(t, t)); QMulUnits(QZERO);
    QAddLaws(QZERO, QZERO, QZERO);
    OneIsNotZero();
    ParameterIdentity(t);
    QSquareOfProduct(QSub(QONE, s), v); QSquareOfProduct(QAdd(t, t), v); QSquareOfProduct(d, v);
    QMulDistrib(QMul(v, v), QMul(QSub(QONE, s), QSub(QONE, s)), QMul(QAdd(t, t), QAdd(t, t)));
    QMulUnits(QONE);
  }

  /** That happens: t = i is a square root of -1, and its point is the origin. */
  lemma DrawnPointCanFail()
    ensures FromParameter(QM31(CM31(0, 1), CZERO)) == OodsPoint(QZERO, QZERO)
    ensures !OnSecureCircle(FromParameter(QM31(CM31(0, 1), CZERO)))
  {
    hide QInverse, QNorm, OnSecureCircle, FromParameter;
    var t := QM31(CM31(0, 1), CZERO);
    assert QAdd(QONE, QMul(t, t)) == QZERO by { ImaginarySquare(t); }
    DrawnPointOnCircle(t);
  }

  lemma ImaginarySquare(t: QM31)
    requires t == QM31(CM31(0, 1), CZERO)
    ensures QAdd(QONE, QMul(t, t)) == QZERO
  {
    hide Mul;
    MulUnits(1); MulUnits(0);
  }

  /** 1 + x is twice the inverse of 1 + t^2, and y is t times that; so t is recovered as y / (1 + x). */
  lemma ParameterRecovered(t: QM31)
    requires QAdd(QONE, QMul(t, t)) != QZERO
    ensures var z := FromParameter(t);
            QAdd(QONE, z.x) != QZERO && QMul(t, QAdd(QONE, z.x)) == z.y && QMul(z.y, QInverse(QAdd(QONE, z.x))) == t
  {
    hide *;
    var s := QMul(t, t);
    var d, n := QAdd(QONE, s), QSub(QONE, s);
    var v := QInverse(d);
    var z := FromParameter(t);
    FromParameterIs(t);
    QInverseCorrect(d); QMulComm(d, v);
    QMulDistrib(v, d, n);
    SumOfHalves(s);
    var w := QMul(QAdd(QONE, QONE), v);
    assert QAdd(QONE, z.x) == w;
    QMulDistrib(v, QONE, QONE); QMulDistrib(v, t, t); QMulUnits(v);
    QMulDistrib(t, v, v);
    TwoIsNotZero();
    if w == QZERO { QNoZeroDivisors(QAdd(QONE, QONE), v); QMulUnits(d); OneIsNotZero(); }
    QInverseCorrect(w);
    QMulAssoc(t, w, QInverse(w));
    QMulUnits(t);
  }

  lemma FromParameterIs(t: QM31)
    ensures var v := QInverse(QAdd(QONE, QMul(t, t)));
            FromParameter(t) == OodsPoint(QMul(QSub(QONE, QMul(t, t)), v), QMul(QAdd(t, t), v))
  {
    hide QMul, QAdd, QSub, QInverse;
  }

  lemma SumOfHalves(s: QM31)
    ensures QAdd(QAdd(QONE, s), QSub(QONE, s)) == QAdd(QONE, QONE)
  {
  }

  lemma TwoIsNotZero()
    ensures QAdd(QONE, QONE) != QZERO
  {
  }

  /** (1 + t^2)(1 + x) = 2 and (1 - t^2)(1 + x) = 2x for t = y / (1 + x). */
  lemma SlopeProducts(z: OodsPoint, t: QM31)
    requires OnSecureCircle(z) && QAdd(QONE, z.x) != QZERO && QMul(t, QAdd(QONE, z.x)) == z.y
    ensures QMul(QAdd(QONE, QMul(t, t)), QAdd(QONE, z.x)) == QAdd(QONE, QONE)
    ensures QMul(QSub(QONE, QMul(t, t)), QAdd(QONE, z.x)) == QAdd(z.x, z.x)
  {
    hide *;
    var s, c, d := QMul(t, t), QAdd(QONE, z.x), QSub(QONE, z.x);
    // t^2 (1 + x)^2 = y^2 = (1 - x)(1 + x)
    QSquareOfProduct(t, c);
    CircleFactors(z);
    QMulAssoc(s, c, c);
    assert QMul(QMul(s, c), c) == QMul(d, c);
    QCancel(QMul(s, c), d, c);
    QMulDistrib(c, QONE, s); QMulUnits(c);
    HalvesOfSum(z.x);
  }

  /** y^2 = (1 - x)(1 + x) on the circle. */
  lemma CircleFactors(z: OodsPoint)
    requires OnSecureCircle(z)
    ensures QMul(z.y, z.y) == QMul(QSub(QONE, z.x), QAdd(QONE, z.x))
  {
    hide QMul, QAdd, QSub;
    var x, xx, yy := z.x, QMul(z.x, z.x), QMul(z.y, z.y);
    QMulDistrib(QSub(QONE, x), QONE, x);
    QMulDistrib(x, QONE, x); QMulUnits(x); QMulUnits(QSub(QONE, x));
    QAddLaws(yy, xx, xx);
    QAddLaws(xx, yy, yy);
    Telescoped(x, xx);
  }

  lemma Telescoped(x: QM31, xx: QM31)
    ensures QAdd(QSub(QONE, x), QSub(x, xx)) == QSub(QONE, xx)
  {
    hide Add, Sub;
    TelescopedM31(1, x.a.a, xx.a.a); TelescopedM31(0, x.a.b, xx.a.b); TelescopedM31(0, x.b.a, xx.b.a); TelescopedM31(0, x.b.b, xx.b.b);
  }

  lemma TelescopedM31(o: M31, x: M31, w: M31)
    ensures Add(Sub(o, x), Sub(x, w)) == Sub(o, w)
  {
  }

  lemma HalvesOfSum(x: QM31)
    ensures QAdd(QAdd(QONE, x), QSub(QONE, x)) == QAdd(QONE, QONE)
    ensures QSub(QAdd(QONE, x), QSub(QONE, x)) == QAdd(x, x)
  {
  }

  lemma QCancel(a: QM31, b: QM31, c: QM31)
    requires QMul(a, c) == QMul(b, c) && c != QZERO
    ensures a == b
  {
    hide *;
    QInverseCorrect(c);
    QMulAssoc(a, c, QInverse(c)); QMulAssoc(b, c, QInverse(c));
    QMulUnits(a); QMulUnits(b);
  }

  /** Every circle point but those with x = -1 is drawn, by the parameter y / (1 + x) and no other. */
  lemma DrawnByOneParameter(z: OodsPoint, t: QM31)
    requires OnSecureCircle(z) && QAdd(QONE, z.x) != QZERO
    ensures FromParameter(t) == z <==> t == QMul(z.y, QInverse(QAdd(QONE, z.x)))
  {
    hide *;
    var c := QAdd(QONE, z.x);
    QInverseCorrect(c);
    if FromParameter(t) == z {
      DrawnPointOnCircle(t);
      ParameterRecovered(t);
    }
    if t == QMul(z.y, QInverse(c)) {
      QMulComm(QInverse(c), c);
      QMulAssoc(z.y, QInverse(c), c); QMulUnits(z.y);
      SlopeProducts(z, t);
      RebuiltPoint(z, t);
    }
  }

  lemma RebuiltPoint(z: OodsPoint, t: QM31)
    requires QMul(QAdd(QONE, QMul(t, t)), QAdd(QONE, z.x)) == QAdd(QONE, QONE)
    requires QMul(QSub(QONE, QMul(t, t)), QAdd(QONE, z.x)) == QAdd(z.x, z.x)
    requires QMul(t, QAdd(QONE, z.x)) == z.y
    ensures FromParameter(t) == z
  {
    hide *;
    var d, n, c, two := QAdd(QONE, QMul(t, t)), QSub(QONE, QMul(t, t)), QAdd(QONE, z.x), QAdd(QONE, QONE);
    var v := QInverse(d);
    TwoIsNotZero();
    QMulUnits(c); QMulUnits(z.x); QMulUnits(z.y);
    QInverseCorrect(d); QMulComm(d, v);
    // 2 v = c, because d c = 2
    QMulAssoc(v, d, c); QMulComm(v, two);
    assert QMul(two, v) == c;
    DoubledIs(z.x); DoubledIs(t); DoubledIs(z.y);
    // 2 (n v) = n c = 2 x and 2 (t v) = t c = y
    QMulAssoc(n, two, v); QMulComm(n, two); QMulAssoc(two, n, v);
    QMulComm(QMul(n, v), two); QMulComm(z.x, two);
    QCancel(QMul(n, v), z.x, two);
    QMulAssoc(two, t, v); QMulComm(two, t); QMulAssoc(t, two, v);
    FromParameterIs(t);
  }

  lemma DoubledIs(x: QM31)
    ensures QMul(QAdd(QONE, QONE), x) == QAdd(x, x) && QMul(x, QAdd(QONE, QONE)) == QAdd(x, x)
  {
    hide QMul;
    QMulDistrib(x, QONE, QONE); QMulUnits(x);
  }

  // ---- the next row ----

  /** OodsPoint::next_step */
  function NextStep(z: OodsPoint, step: CirclePoint): OodsPoint {
    var (sx, sy) := (Embed(step.x), Embed(step.y));
    OodsPoint(QSub(QMul(z.x, sx), QMul(z.y, sy)), QAdd(QMul(z.x, sy), QMul(z.y, sx)))
  }

  /** On base-field points it is the group operation. */
  lemma NextStepIsPMul(p: CirclePoint, step: CirclePoint)
    ensures NextStep(OfCirclePoint(p), step) == OfCirclePoint(PMul(p, step))
  {
    hide Mul, Add, Sub, QMul, QAdd, QSub;
    EmbedHom(p.x, step.x); EmbedHom(p.y, step.y); EmbedHom(p.x, step.y); EmbedHom(p.y, step.x);
    EmbedHom(Mul(p.x, step.x), Mul(p.y, step.y)); EmbedHom(Mul(p.x, step.y), Mul(p.y, step.x));
  }

  /** On the evaluation domain next_step and canonic_next move to the same point. */
  lemma NextStepIsCanonicNext(qi: nat, logN: nat)
    requires 2 <= logN <= 30 && qi < Pow2(logN)
    ensures NextStep(OfCirclePoint(CanonicPoint(BitRev(qi, logN), logN)), HalfCoset(logN - BLOWUP_BITS).step)
         == OfCirclePoint(CanonicPoint(BitRev(CanonicNext(qi, logN), logN), logN))
  {
    hide NextStep, OfCirclePoint, PMul, CanonicPoint, CanonicNext, BitRev, HalfCoset, Pow2;
    NextStepIsPMul(CanonicPoint(BitRev(qi, logN), logN), HalfCoset(logN - BLOWUP_BITS).step);
    CanonicNextAdvancesOneTraceStep(qi, logN);
  }

  /** (ac - bd)^2 + (ad + bc)^2 = (a^2 + b^2)(c^2 + d^2). */
  lemma TwoSquares(a: QM31, b: QM31, c: QM31, d: QM31)
    ensures var (p, q) := (QSub(QMul(a, c), QMul(b, d)), QAdd(QMul(a, d), QMul(b, c)));
            QAdd(QMul(p, p), QMul(q, q)) == QMul(QAdd(QMul(a, a), QMul(b, b)), QAdd(QMul(c, c), QMul(d, d)))
  {
    hide *;
    Expanded(QMul(a, c), QMul(b, d)); Expanded(QMul(a, d), QMul(b, c));
    QSquareOfProduct(a, c); QSquareOfProduct(b, d); QSquareOfProduct(a, d); QSquareOfProduct(b, c);
    CrossTerms(a, b, c, d);
    QMulComm(QMul(a, c), QMul(b, d)); QMulComm(QMul(a, d), QMul(b, c));
    QMulDistrib(QAdd(QMul(a, a), QMul(b, b)), QMul(c, c), QMul(d, d));
    QMulDistrib(QMul(c, c), QMul(a, a), QMul(b, b)); QMulDistrib(QMul(d, d), QMul(a, a), QMul(b, b));
    Cancelled(QMul(QMul(a, a), QMul(c, c)), QMul(QMul(a, c), QMul(b, d)), QMul(QMul(b, b), QMul(d, d)),
              QMul(QMul(a, a), QMul(d, d)), QMul(QMul(b, b), QMul(c, c)));
  }

  lemma CrossTerms(a: QM31, b: QM31, c: QM31, d: QM31)
    ensures QMul(QMul(a, c), QMul(b, d)) == QMul(QMul(a, d), QMul(b, c))
  {
    hide *;
    QMulAssoc(a, c, QMul(b, d)); QMulAssoc(a, d, QMul(b, c));
    QMulAssoc(c, b, d); QMulComm(c, b); QMulComm(QMul(b, c), d);
  }

  lemma Cancelled(p: QM31, m: QM31, q: QM31, r: QM31, s: QM31)
    ensures QAdd(QSub(QSub(p, m), QSub(m, q)), QAdd(QAdd(r, m), QAdd(m, s))) == QAdd(QAdd(p, s), QAdd(r, q))
  {
    hide Add, Sub;
    CancelledM31(p.a.a, m.a.a, q.a.a, r.a.a, s.a.a); CancelledM31(p.a.b, m.a.b, q.a.b, r.a.b, s.a.b);
    CancelledM31(p.b.a, m.b.a, q.b.a, r.b.a, s.b.a); CancelledM31(p.b.b, m.b.b, q.b.b, r.b.b, s.b.b);
  }

  lemma CancelledM31(p: M31, m: M31, q: M31, r: M31, s: M31)
    ensures Add(Sub(Sub(p, m), Sub(m, q)), Add(Add(r, m), Add(m, s))) == Add(Add(p, s), Add(r, q))
  {
    hide *;
    RedHom(); RedId(p); RedId(m); RedId(q); RedId(r); RedId(s);
    assert (p - m) - (m - q) + ((r + m) + (m + s)) == (p + s) + (r + q);
  }

  /** Stepping keeps a point on the circle. */
  lemma NextStepOnCircle(z: OodsPoint, step: CirclePoint)
    requires OnSecureCircle(z) && OnCircle(step)
    ensures OnSecureCircle(NextStep(z, step))
  {
    hide QMul, QAdd, QSub, Mul, Add;
    TwoSquares(z.x, z.y, Embed(step.x), Embed(step.y));
    EmbedHom(step.x, step.x); EmbedHom(step.y, step.y); EmbedHom(Mul(step.x, step.x), Mul(step.y, step.y));
    EmbedUnits();
    QMulUnits(QONE);
  }

  // ---- vanishing ----

  function IterDoubleXQ(x: QM31, n: nat): QM31
    decreases n
  {
    if n == 0 then x else IterDoubleXQ(DoubleXQ(x), n - 1)
  }

  lemma {:induction false} IterDoubleXQSnoc(x: QM31, n: nat)
    ensures IterDoubleXQ(x, n + 1) == DoubleXQ(IterDoubleXQ(x, n))
    decreases n
  {
    hide DoubleXQ;
    if n > 0 { IterDoubleXQSnoc(DoubleXQ(x), n - 1); }
  }

  /** oods_vanishing */
  method OodsVanishing(z: OodsPoint, logN: nat) returns (v: QM31)
    ensures v == IterDoubleXQ(z.x, DoublingsBeforeLast(logN))
  {
    hide DoubleXQ;
    v := z.x;
    for i := 0 to DoublingsBeforeLast(logN)
      invariant v == IterDoubleXQ(z.x, i)
    {
      IterDoubleXQSnoc(z.x, i);
      v := DoubleXQ(v);
    }
  }

  lemma {:induction false} IterDoubleXEmbeds(x: M31, n: nat)
    ensures IterDoubleXQ(Embed(x), n) == Embed(IterDoubleX(x, n))
    decreases n
  {
    hide DoubleXQ, DoubleX, Embed;
    if n > 0 {
      DoubleXEmbeds(x);
      IterDoubleXEmbeds(DoubleX(x), n - 1);
    }
  }

  /** At base-field points it is coset_vanishing_at for the half coset, so it vanishes exactly there. */
  lemma OodsVanishingAgrees(logN: nat, p: CirclePoint)
    requires 1 <= logN <= 30 && OnCircle(p)
    ensures IterDoubleXQ(OfCirclePoint(p).x, logN - 1) == Embed(IterDoubleX(Rotated(HalfCoset(logN), p).x, logN - 1))
    ensures IterDoubleXQ(OfCirclePoint(p).x, logN - 1) == QZERO <==> IsMember(HalfCoset(logN), p)
  {
    hide IterDoubleX, IterDoubleXQ, PPow, PMul, OnCircle, IsMember, HalfCoset, Rotated;
    HalfCosetParts(logN);
    GeneratorOnCircle();
    PPowOnCircle(GENERATOR, Pow2(30 - logN));
    HalfCosetNeedsNoRotation(logN, p);
    IterDoubleXEmbeds(p.x, logN - 1);
    VanishesExactlyOnCoset(HalfCoset(logN), p);
    EmbedZero(IterDoubleX(p.x, logN - 1));
  }

  lemma EmbedZero(m: M31)
    ensures Embed(m) == QZERO <==> m == 0
  {
  }

  // ---- evaluation ----

  /** Iterated doublings of x, innermost factor last. */
  function LineFactors(x: QM31, n: nat): (r: seq<QM31>)
    ensures |r| == n
    decreases n
  {
    if n == 0 then [] else LineFactors(DoubleXQ(x), n - 1) + [x]
  }

  /** The factors of a fold over 2^n coefficients at z. */
  function Factors(z: OodsPoint, n: nat): (r: seq<QM31>)
    ensures |r| == n
  {
    if n == 0 then [] else LineFactors(z.x, n - 1) + [z.y]
  }

  /** phi_i over the secure field: the doublings of x selected by the bits of i. */
  function LineBasisQ(i: nat, x: QM31): QM31
    decreases i
  {
    if i == 0 then QONE
    else if i % 2 == 1 then QMul(x, LineBasisQ(i / 2, DoubleXQ(x)))
    else LineBasisQ(i / 2, DoubleXQ(x))
  }

  /** The circle basis: bit 0 selects y, the other bits a line basis element. */
  function CircleBasis(i: nat, z: OodsPoint): QM31 {
    if i % 2 == 1 then QMul(z.y, LineBasisQ(i / 2, z.x)) else LineBasisQ(i / 2, z.x)
  }

  lemma {:induction false} LineWeight(i: nat, x: QM31, n: nat)
    requires i < Pow2(n)
    ensures Weight(i, LineFactors(x, n)) == LineBasisQ(i, x)
    decreases n
  {
    hide QMul, DoubleXQ;
    if n > 0 {
      assert LineFactors(x, n)[..n - 1] == LineFactors(DoubleXQ(x), n - 1);
      LineWeight(i / 2, DoubleXQ(x), n - 1);
      if i == 0 { BasisOfZero(DoubleXQ(x)); }
    }
  }

  lemma BasisOfZero(x: QM31)
    ensures LineBasisQ(0, x) == QONE
  {
  }

  /** The weight of coefficient i is the i-th circle basis function at z. */
  lemma WeightIsBasis(i: nat, z: OodsPoint, n: nat)
    requires i < Pow2(n)
    ensures Weight(i, Factors(z, n)) == CircleBasis(i, z)
  {
    hide QMul, LineBasisQ, LineFactors;
    if n > 0 {
      assert Factors(z, n)[..n - 1] == LineFactors(z.x, n - 1);
      LineWeight(i / 2, z.x, n - 1);
    } else {
      BasisOfZero(z.x);
    }
  }

  /** The value at z of the polynomial with these circle coefficients. */
  function CircleSum(c: seq<QM31>, z: OodsPoint, n: nat): QM31
    requires n <= |c|
    decreases n
  {
    if n == 0 then QZERO else QAdd(CircleSum(c, z, n - 1), QMul(c[n - 1], CircleBasis(n - 1, z)))
  }

  function ValueAt(c: seq<QM31>, z: OodsPoint): QM31 { CircleSum(c, z, |c|) }

  lemma {:induction false} SumOverBasis(c: seq<QM31>, z: OodsPoint, k: nat, n: nat)
    requires n <= |c| == Pow2(k)
    ensures WeightedSum(c, Factors(z, k), n) == CircleSum(c, z, n)
    decreases n
  {
    hide QAdd, QMul, CircleBasis, Factors, Weight;
    if n > 0 {
      SumOverBasis(c, z, k, n - 1);
      WeightIsBasis(n - 1, z, k);
    }
  }

  /** The list the evaluators build and reverse before folding. */
  method BuildFactors(z: OodsPoint, n: nat) returns (factors: seq<QM31>)
    requires n >= 1
    ensures factors == Factors(z, n)
  {
    hide DoubleXQ;
    var raw := [z.y];
    var x := z.x;
    for i := 1 to n
      invariant |raw| == i && raw[0] == z.y
      invariant LineFactors(z.x, n - 1) == LineFactors(x, n - i) + Backwards(raw[1..])
    {
      LineFactorsUnfold(x, n - i);
      assert (raw + [x])[1..] == raw[1..] + [x];
      BackwardsSnoc(raw[1..], x);
      raw := raw + [x];
      x := DoubleXQ(x);
    }
    factors := Backwards(raw);
    BackwardsHead(raw);
  }

  function Backwards<T>(s: seq<T>): (r: seq<T>)
    ensures |r| == |s|
  {
    seq(|s|, i requires 0 <= i < |s| => s[|s| - 1 - i])
  }

  lemma BackwardsSnoc<T>(s: seq<T>, x: T)
    ensures Backwards(s + [x]) == [x] + Backwards(s)
  {
  }

  lemma BackwardsHead<T>(s: seq<T>)
    requires |s| > 0
    ensures Backwards(s) == Backwards(s[1..]) + [s[0]]
  {
  }

  lemma LineFactorsUnfold(x: QM31, n: nat)
    requires n > 0
    ensures LineFactors(x, n) == LineFactors(DoubleXQ(x), n - 1) + [x]
  {
  }

  /** eval_at_oods_from_coeffs: the value at z of the circle polynomial with these coefficients. */
  method EvalAtOods(coeffs: seq<M31>, logN: nat, z: OodsPoint) returns (v: QM31)
    requires |coeffs| == Pow2(logN)
    ensures v == ValueAt(Lifted(coeffs), z)
  {
    hide Factors, Fold, WeightedSum, CircleSum, Pow2;
    FoldIsWeightedSum(Lifted(coeffs), Factors(z, logN));
    SumOverBasis(Lifted(coeffs), z, logN, |coeffs|);
    if logN == 0 {
      SingleValue(0);
      FoldOfOne(Lifted(coeffs), Factors(z, 0));
      return Embed(coeffs[0]);
    }
    var factors := BuildFactors(z, logN);
    v := FoldM31(coeffs, factors);
  }

  /** eval_at_oods_from_coeffs_seq */
  method EvalAtOodsSeq(coeffs: seq<M31>, logN: nat, z: OodsPoint) returns (v: QM31)
    requires |coeffs| == Pow2(logN)
    ensures v == ValueAt(Lifted(coeffs), z)
  {
    hide Factors, Fold, WeightedSum, CircleSum, Pow2;
    FoldIsWeightedSum(Lifted(coeffs), Factors(z, logN));
    SumOverBasis(Lifted(coeffs), z, logN, |coeffs|);
    if logN == 0 {
      SingleValue(0);
      FoldOfOne(Lifted(coeffs), Factors(z, 0));
      return Embed(coeffs[0]);
    }
    var factors := BuildFactors(z, logN);
    v := FoldM31Seq(coeffs, factors);
  }

  /** eval_qm31_col_at_oods, by the recursive fold. */
  method EvalSecureAtOods(coeffs: seq<QM31>, logN: nat, z: OodsPoint) returns (v: QM31)
    requires |coeffs| == Pow2(logN)
    ensures v == ValueAt(coeffs, z)
  {
    hide Factors, Fold, WeightedSum, CircleSum, Pow2;
    FoldIsWeightedSum(coeffs, Factors(z, logN));
    SumOverBasis(coeffs, z, logN, |coeffs|);
    if logN == 0 {
      SingleValue(0);
      FoldOfOne(coeffs, Factors(z, 0));
      return coeffs[0];
    }
    var factors := BuildFactors(z, logN);
    v := Fold(coeffs, factors);
  }

  // ---- agreement with the base field ----

  lemma {:induction false} LineBasisEmbeds(i: nat, x: M31)
    ensures LineBasisQ(i, Embed(x)) == Embed(Basis(i, x))
    decreases i
  {
    hide Mul, QMul, DoubleX, DoubleXQ, Embed;
    EmbedUnits();
    if i > 0 {
      DoubleXEmbeds(x);
      LineBasisEmbeds(i / 2, DoubleX(x));
      EmbedHom(x, Basis(i / 2, DoubleX(x)));
    }
  }

  /** f0(x) + y f1(x) for the line polynomials of the even and the odd coefficients. */
  function SplitValue(c: seq<QM31>, p: CirclePoint): QM31
    requires |c| % 2 == 0
  {
    hide QAdd, QScale, BasisSum, Even, Odd;
    QAdd(BasisSum(Even(c), p.x), QScale(BasisSum(Odd(c), p.x), p.y))
  }

  /** At base-field points the even coefficients form a line polynomial in x, the odd ones another, times y. */
  lemma {:induction false} CircleSumSplits(c: seq<QM31>, p: CirclePoint)
    requires |c| % 2 == 0
    ensures ValueAt(c, OfCirclePoint(p)) == SplitValue(c, p)
    decreases |c|
  {
    hide QAdd, QMul, QScale, Basis, BasisSum, LineBasisQ, Embed, CircleSum, Even, Odd;
    var m := |c| / 2;
    if m == 0 {
      NothingToSplit(c, p);
    } else {
      var front, z, phi := c[..2 * m - 2], OfCirclePoint(p), Basis(m - 1, p.x);
      CircleSumSplits(front, p);
      CircleSumFront(c, z, 2 * m - 2);
      EvenOddFront(c, m);
      BasisSumLast(Even(c), p.x); BasisSumLast(Odd(c), p.x);
      LineBasisEmbeds(m - 1, p.x);
      LastPair(c, z, m);
      LastTwo(BasisSum(Even(front), p.x), BasisSum(Odd(front), p.x), c[2 * m - 2], c[2 * m - 1], phi, p.y);
    }
  }

  lemma NothingToSplit(c: seq<QM31>, p: CirclePoint)
    requires |c| == 0
    ensures CircleSum(c, OfCirclePoint(p), 0) == QAdd(BasisSum(Even(c), p.x), QScale(BasisSum(Odd(c), p.x), p.y))
  {
    hide QAdd, QScale;
    QScaleLaws(QZERO, QZERO, p.y, p.y); QAddLaws(QZERO, QZERO, QZERO);
  }

  lemma EvenOddFront(c: seq<QM31>, m: nat)
    requires m > 0 && |c| == 2 * m
    ensures |Even(c)| == m && Even(c)[..m - 1] == Even(c[..2 * m - 2]) && Even(c)[m - 1] == c[2 * m - 2]
    ensures |Odd(c)| == m && Odd(c)[..m - 1] == Odd(c[..2 * m - 2]) && Odd(c)[m - 1] == c[2 * m - 1]
  {
  }

  lemma BasisSumLast(c: seq<QM31>, x: M31)
    requires |c| > 0
    ensures BasisSum(c, x) == QAdd(BasisSum(c[..|c| - 1], x), QScale(c[|c| - 1], Basis(|c| - 1, x)))
  {
    hide QAdd, QScale, Basis;
  }

  lemma {:induction false} CircleSumFront(c: seq<QM31>, z: OodsPoint, n: nat)
    requires n <= |c|
    ensures CircleSum(c[..n], z, n) == CircleSum(c, z, n)
    decreases n
  {
    hide QAdd, QMul, CircleBasis;
    if n > 0 {
      CircleSumFront(c, z, n - 1);
      CircleSumFront(c[..n], z, n - 1);
      assert c[..n][..n - 1] == c[..n - 1];
    }
  }

  lemma LastPair(c: seq<QM31>, z: OodsPoint, m: nat)
    requires m > 0 && |c| == 2 * m
    ensures CircleSum(c, z, 2 * m)
         == QAdd(QAdd(CircleSum(c, z, 2 * m - 2), QMul(c[2 * m - 2], LineBasisQ(m - 1, z.x))),
                 QMul(c[2 * m - 1], QMul(z.y, LineBasisQ(m - 1, z.x))))
  {
    hide QAdd, QMul, LineBasisQ;
    assert (2 * m - 1) / 2 == m - 1 && (2 * m - 2) / 2 == m - 1;
    assert CircleBasis(2 * m - 1, z) == QMul(z.y, LineBasisQ(m - 1, z.x));
    assert CircleBasis(2 * m - 2, z) == LineBasisQ(m - 1, z.x);
    assert CircleSum(c, z, 2 * m - 1) == QAdd(CircleSum(c, z, 2 * m - 2), QMul(c[2 * m - 2], CircleBasis(2 * m - 2, z)));
  }

  lemma LastTwo(e: QM31, o: QM31, a: QM31, b: QM31, phi: M31, y: M31)
    ensures QAdd(QAdd(QAdd(e, QScale(o, y)), QMul(a, Embed(phi))), QMul(b, QMul(Embed(y), Embed(phi))))
         == QAdd(QAdd(e, QScale(a, phi)), QScale(QAdd(o, QScale(b, phi)), y))
  {
    hide *;
    QScaleIsMul(a, phi);
    QScaleLaws(o, QScale(b, phi), y, y);
    QScaleIsMul(b, phi); QScaleIsMul(QScale(b, phi), y);
    QMulAssoc(b, Embed(phi), Embed(y)); QMulComm(Embed(phi), Embed(y));
    var oy, bp := QScale(o, y), QScale(QScale(b, phi), y);
    QAddLaws(QAdd(e, oy), QScale(a, phi), bp);
    QAddSwap(e, oy, QScale(a, phi), bp);
  }
}
