/**
 The circle group x^2 + y^2 = 1 over M31 and its generator of order 2^31
 (src/circle.rs).
 */
module CircleGroup {
  import opened Bits
  import opened M31Field

  datatype CirclePoint = CirclePoint(x: M31, y: M31)

  const IDENTITY := CirclePoint(1, 0)
  const GENERATOR := CirclePoint(2, 1268011823)
  const HALF_TURN := CirclePoint(0x7FFF_FFFE, 0)

  function PMul(p: CirclePoint, q: CirclePoint): CirclePoint {
    CirclePoint(Sub(Mul(p.x, q.x), Mul(p.y, q.y)), Add(Mul(p.x, q.y), Mul(p.y, q.x)))
  }

  function Conjugate(p: CirclePoint): CirclePoint { CirclePoint(p.x, Neg(p.y)) }

  function PDouble(p: CirclePoint): CirclePoint { PMul(p, p) }

  function Antipode(p: CirclePoint): CirclePoint { CirclePoint(Neg(p.x), Neg(p.y)) }

  predicate OnCircle(p: CirclePoint) { Add(Mul(p.x, p.x), Mul(p.y, p.y)) == 1 }

  /** The x-coordinate of the doubled point: 2x^2 - 1. */
  function DoubleX(x: M31): M31 { Sub(Mul(Mul(2, x), x), 1) }

  // ---- group laws ----

  /** Real and imaginary part of (a + bi)(c + di) over the integers. */
  function ZRe(a: int, b: int, c: int, d: int): int { a * c - b * d }

  function ZIm(a: int, b: int, c: int, d: int): int { a * d + b * c }

  lemma PMulRed(px: int, py: int, qx: int, qy: int)
    ensures PMul(CirclePoint(Red(px), Red(py)), CirclePoint(Red(qx), Red(qy)))
         == CirclePoint(Red(ZRe(px, py, qx, qy)), Red(ZIm(px, py, qx, qy)))
  {
    hide Add, Sub, Mul, Red;
    RedHom();
  }

  lemma PMulAssoc(p: CirclePoint, q: CirclePoint, r: CirclePoint)
    ensures PMul(PMul(p, q), r) == PMul(p, PMul(q, r))
  {
    hide *;
    RedId(p.x); RedId(p.y); RedId(q.x); RedId(q.y); RedId(r.x); RedId(r.y);
    PMulRed(p.x, p.y, q.x, q.y);
    PMulRed(q.x, q.y, r.x, r.y);
    PMulRed(ZRe(p.x, p.y, q.x, q.y), ZIm(p.x, p.y, q.x, q.y), r.x, r.y);
    PMulRed(p.x, p.y, ZRe(q.x, q.y, r.x, r.y), ZIm(q.x, q.y, r.x, r.y));
    ZAssoc(p.x, p.y, q.x, q.y, r.x, r.y);
  }

  lemma ZAssoc(a: int, b: int, c: int, d: int, e: int, f: int)
    ensures ZRe(ZRe(a, b, c, d), ZIm(a, b, c, d), e, f) == ZRe(a, b, ZRe(c, d, e, f), ZIm(c, d, e, f))
    ensures ZIm(ZRe(a, b, c, d), ZIm(a, b, c, d), e, f) == ZIm(a, b, ZRe(c, d, e, f), ZIm(c, d, e, f))
  {
    assert (a * c - b * d) * e - (a * d + b * c) * f == a * (c * e - d * f) - b * (c * f + d * e);
    assert (a * c - b * d) * f + (a * d + b * c) * e == a * (c * f + d * e) + b * (c * e - d * f);
  }

  lemma PMulComm(p: CirclePoint, q: CirclePoint)
    ensures PMul(p, q) == PMul(q, p)
  {
    hide Add, Mul, Sub;
    MulComm(p.x, q.x); MulComm(p.y, q.y); MulComm(p.x, q.y); MulComm(p.y, q.x);
    AddComm(Mul(p.x, q.y), Mul(p.y, q.x));
  }

  lemma PMulIdentity(p: CirclePoint)
    ensures PMul(p, IDENTITY) == p && PMul(IDENTITY, p) == p
  {
    MulUnits(p.x); MulUnits(p.y);
  }

  lemma ConjugateInverse(p: CirclePoint)
    requires OnCircle(p)
    ensures PMul(p, Conjugate(p)) == IDENTITY
  {
    hide Add, Sub, Mul, Neg, Red;
    RedHom(); RedId(p.x); RedId(p.y);
    var x, y: int := p.x, p.y;
    assert x * x - y * -y == x * x + y * y;
    assert x * -y + y * x == 0;
    RedId(0);
  }

  lemma OnCircleClosed(p: CirclePoint, q: CirclePoint)
    requires OnCircle(p) && OnCircle(q)
    ensures OnCircle(PMul(p, q))
  {
    hide *;
    RedId(p.x); RedId(p.y); RedId(q.x); RedId(q.y); RedId(1);
    NormRed(p.x, p.y);
    NormRed(q.x, q.y);
    PMulRed(p.x, p.y, q.x, q.y);
    NormRed(ZRe(p.x, p.y, q.x, q.y), ZIm(p.x, p.y, q.x, q.y));
    NormMultiplies(p.x, p.y, q.x, q.y);
    RedMul(ZNorm(p.x, p.y), ZNorm(q.x, q.y));
    MulUnits(1);
  }

  function ZNorm(x: int, y: int): int { x * x + y * y }

  lemma NormRed(x: int, y: int)
    ensures OnCircle(CirclePoint(Red(x), Red(y))) <==> Red(ZNorm(x, y)) == 1
  {
    hide Add, Mul, Red;
    RedHom();
  }

  lemma NormMultiplies(a: int, b: int, c: int, d: int)
    ensures ZNorm(ZRe(a, b, c, d), ZIm(a, b, c, d)) == ZNorm(a, b) * ZNorm(c, d)
  {
    var ac, bd, ad, bc := a * c, b * d, a * d, b * c;
    assert (ac - bd) * (ac - bd) + (ad + bc) * (ad + bc) == ac * ac + bd * bd + ad * ad + bc * bc by {
      SquareOfDifference(ac, bd);
      SquareOfSum(ad, bc);
      FourFactors(a, c, b, d);
      FourFactors(a, d, b, c);
      assert c * d == d * c;
    }
    FourFactors(a, c, a, c); FourFactors(b, d, b, d); FourFactors(a, d, a, d); FourFactors(b, c, b, c);
    ProductOfSums(a * a, b * b, c * c, d * d);
  }

  lemma SquareOfDifference(x: int, y: int)
    ensures (x - y) * (x - y) == x * x - 2 * (x * y) + y * y
  {
  }

  lemma SquareOfSum(x: int, y: int)
    ensures (x + y) * (x + y) == x * x + 2 * (x * y) + y * y
  {
  }

  lemma FourFactors(a: int, c: int, b: int, d: int)
    ensures (a * c) * (b * d) == (a * b) * (c * d)
  {
    assert (a * c) * (b * d) == a * (c * (b * d)) == a * (b * (c * d)) == (a * b) * (c * d);
  }

  lemma DoubleXCorrect(p: CirclePoint)
    requires OnCircle(p)
    ensures PDouble(p).x == DoubleX(p.x)
  {
    hide Add, Sub, Mul, Red;
    RedHom(); RedId(p.x); RedId(p.y); RedId(1); RedId(2);
    var x, y: int := p.x, p.y;
    assert x * x - y * y == (2 * x) * x - (x * x + y * y);
    RedSub((2 * x) * x, x * x + y * y);
  }

  lemma HalfTurnIsAntipode(p: CirclePoint)
    ensures PMul(p, HALF_TURN) == Antipode(p)
  {
    hide Add, Sub, Mul, Neg, Red;
    RedHom(); RedId(p.x); RedId(p.y); RedId(0); RedMinusOne();
    var x, y: int := p.x, p.y;
    assert x * -1 - y * 0 == -x;
    assert x * 0 + y * -1 == -y;
    PMulRed(x, y, -1, 0);
  }

  lemma RedMinusOne()
    ensures Red(-1) == 0x7FFF_FFFE
  {
  }

  // ---- powers ----

  /** Repeated doubling, least significant bit first. */
  function PPow(p: CirclePoint, k: nat): CirclePoint
    decreases k, p
  {
    if k == 0 then IDENTITY
    else if k % 2 == 1 then PMul(p, PPow(PDouble(p), k / 2))
    else PPow(PDouble(p), k / 2)
  }

  lemma PPowZero(p: CirclePoint)
    ensures PPow(p, 0) == IDENTITY
  {
  }

  lemma {:induction false} PPowSucc(p: CirclePoint, k: nat)
    ensures PPow(p, k + 1) == PMul(p, PPow(p, k))
    decreases k
  {
    hide PMul;
    if k % 2 == 1 {
      assert (k + 1) / 2 == k / 2 + 1;
      PPowSucc(PDouble(p), k / 2);
      PMulAssoc(p, p, PPow(PDouble(p), k / 2));
    } else {
      assert (k + 1) / 2 == k / 2;
      PMulIdentity(p);
    }
  }

  lemma {:induction false} PPowAdd(p: CirclePoint, j: nat, k: nat)
    ensures PPow(p, j + k) == PMul(PPow(p, j), PPow(p, k))
  {
    hide PMul, PPow;
    if j == 0 {
      PPowZero(p);
      PMulIdentity(PPow(p, k));
    } else {
      PPowAdd(p, j - 1, k);
      PPowSucc(p, j - 1);
      PPowSucc(p, j - 1 + k);
      PMulAssoc(p, PPow(p, j - 1), PPow(p, k));
    }
  }

  lemma {:induction false} PPowShl(p: CirclePoint, m: nat, i: nat)
    ensures PPow(PPow(p, Pow2(m)), i) == PPow(p, Shl(i, m))
    decreases m
  {
    hide PMul;
    if m == 0 {
      PMulIdentity(p);
      assert PPow(p, 1) == p;
    } else {
      PPowShl(PDouble(p), m - 1, i);
    }
  }

  lemma {:induction false} PPowIdentity(k: nat)
    ensures PPow(IDENTITY, k) == IDENTITY
    decreases k
  {
    hide PMul;
    if k > 0 {
      PMulIdentity(IDENTITY);
      PPowIdentity(k / 2);
    }
  }

  lemma {:induction false} PPowOnCircle(p: CirclePoint, k: nat)
    requires OnCircle(p)
    ensures OnCircle(PPow(p, k))
    decreases k
  {
    hide PMul, OnCircle;
    if k > 0 {
      OnCircleClosed(p, p);
      PPowOnCircle(PDouble(p), k / 2);
      OnCircleClosed(p, PPow(PDouble(p), k / 2));
    } else {
      IdentityOnCircle();
    }
  }

  lemma IdentityOnCircle()
    ensures OnCircle(IDENTITY)
  {
    MulUnits(1); MulUnits(0);
  }

  /** CirclePoint::repeated_double. */
  method RepeatedDouble(self: CirclePoint, n: nat) returns (p: CirclePoint)
    ensures p == PPow(self, Pow2(n))
  {
    hide PMul;
    p := self;
    for i := 0 to n
      invariant PPow(p, Pow2(n - i)) == PPow(self, Pow2(n))
    {
      p := PDouble(p);
    }
    PMulIdentity(p);
  }

  /** CirclePoint::mul_scalar. */
  method MulScalar(self: CirclePoint, scalar: nat) returns (result: CirclePoint)
    ensures result == PPow(self, scalar)
  {
    hide PMul;
    result := IDENTITY;
    var base, k := self, scalar;
    PMulIdentity(PPow(self, scalar));
    while k > 0
      invariant PMul(result, PPow(base, k)) == PPow(self, scalar)
    {
      if k % 2 == 1 {
        PMulAssoc(result, base, PPow(PDouble(base), k / 2));
        result := PMul(result, base);
      }
      base := PDouble(base);
      k := k / 2;
    }
    PMulIdentity(result);
  }

  // ---- the generator has order exactly 2^31 ----

  /** One doubling, with the quotients of the two reductions given. */
  lemma DoubleStep(x: M31, y: M31, k: int, x2: M31, m: int, y2: M31, n: nat)
    requires x * x - y * y == 0x7FFF_FFFF * k + x2
    requires x * y + y * x == 0x7FFF_FFFF * m + y2
    ensures PPow(CirclePoint(x, y), Pow2(n + 1)) == PPow(CirclePoint(x2, y2), Pow2(n))
  {
    hide PMul, Red, PPow;
    RedId(x); RedId(y);
    PMulRed(x, y, x, y);
    RedQuotient(k, x2); RedQuotient(m, y2);
    PPowDouble(CirclePoint(x, y), n);
  }

  lemma PPowDouble(p: CirclePoint, n: nat)
    ensures PPow(p, Pow2(n + 1)) == PPow(PDouble(p), Pow2(n))
  {
    hide PMul;
  }

  lemma RedQuotient(k: int, r: M31)
    ensures Red(0x7FFF_FFFF * k + r) == r
  {
    ModUnique(0x7FFF_FFFF * k + r, k, r);
  }

  /** Thirty doublings take G to (-1, 0). */
  lemma GeneratorHalfTurn()
    ensures PPow(GENERATOR, Pow2(30)) == HALF_TURN
  {
    hide *;
    GeneratorIs();
    DoubleStep(2, 1268011823, -748715356, 7, 2, 777079998, 29);
    DoubleStep(7, 777079998, -281191116, 97, 5, 141701737, 28);
    DoubleStep(97, 141701737, -9350191, 18817, 12, 1720333214, 27);
    DoubleStep(18817, 1720333214, -1378146172, 708158977, 30148, 683185920, 26);
    DoubleStep(708158977, 683185920, 16179930, 334835419, 450577812, 1444967316, 25);
    DoubleStep(334835419, 1444967316, -920060924, 2042371533, 450598296, 1362265296, 24);
    DoubleStep(2042371533, 1362265296, 1078245576, 212706801, 2591173967, 1223819887, 23);
    DoubleStep(212706801, 1223819887, -676368798, 421007138, 242437062, 256177860, 22);
    DoubleStep(421007138, 256177860, 51977073, 6346213, 100445661, 905523693, 21);
    DoubleStep(6346213, 905523693, -381811003, 1022251061, 5351981, 788094511, 20);
    DoubleStep(1022251061, 788094511, 197395809, 1633461177, 750301825, 574296567, 19);
    DoubleStep(1633461177, 574296567, 1088892515, 595037635, 873665461, 2111542451, 18);
    DoubleStep(595037635, 2111542451, -1911326190, 1799120754, 1170157666, 343598868, 17);
    DoubleStep(1799120754, 343598868, 1452292924, 438833264, 575721128, 1327019128, 16);
    DoubleStep(438833264, 1327019128, -730345554, 1389168750, 542346514, 838891026, 15);
    DoubleStep(1389168750, 838891026, 570924795, 1543902459, 1085327191, 1632329423, 14);
    DoubleStep(1543902459, 1632329423, -130787745, 1330239767, 2347079488, 1446369578, 13);
    DoubleStep(1330239767, 1446369578, -150151141, 1420207432, 1791881705, 2023238517, 12);
    DoubleStep(1420207432, 2023238517, -966947968, 2015554631, 2676079403, 1088093947, 11);
    DoubleStep(2015554631, 1088093947, 1340411619, 996212859, 2042495454, 1140996376, 10);
    DoubleStep(996212859, 1140996376, -144090816, 1434706457, 1058611331, 1835793811, 9);
    DoubleStep(1434706457, 1835793811, -610834127, 13610297, 2452940899, 1064696601, 8);
    DoubleStep(13610297, 1064696601, -527777529, 785043271, 13495643, 1260750973, 7);
    DoubleStep(785043271, 1260750973, -453181602, 838195206, 921770993, 1774253895, 6);
    DoubleStep(838195206, 1774253895, -1138730758, 579625837, 1385036026, 1690787918, 5);
    DoubleStep(579625837, 1690787918, -1174769213, 1179735656, 912718812, 1241207368, 4);
    DoubleStep(1179735656, 1241207368, -69299486, 590768354, 1363732469, 978592373, 3);
    DoubleStep(590768354, 978592373, -283418123, 32768, 538417515, 2147450879, 2);
    DoubleStep(32768, 2147450879, -2147418111, 0, 65534, 2147483646, 1);
    DoubleStep(0, 2147483646, -2147483646, 2147483646, 0, 0, 0);
    PPowSucc(HALF_TURN, 0); PPowZero(HALF_TURN); PMulIdentity(HALF_TURN);
    assert Pow2(0) == 1 by { Pow2Zero(); }
  }

  lemma Pow2Zero()
    ensures Pow2(0) == 1
  {
  }

  lemma GeneratorIs()
    ensures GENERATOR == CirclePoint(2, 1268011823) && HALF_TURN == CirclePoint(0x7FFF_FFFE, 0)
  {
  }

  lemma GeneratorOnCircle()
    ensures OnCircle(GENERATOR)
  {
    hide OnCircle, Red;
    RedId(2); RedId(1268011823);
    NormRed(2, 1268011823);
    assert ZNorm(2, 1268011823) == 0x7FFF_FFFF * 748715356 + 1;
    RedQuotient(748715356, 1);
  }
}
