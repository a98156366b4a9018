/**
 Cosets of the circle group, their points as powers of G, and the coset
 vanishing polynomial (src/circle.rs, src/oods.rs).
 */
module CircleDomain {
  import opened Bits
  import opened Counting
  import opened M31Field
  import opened CircleGroup
  import opened CircleOrder
  import opened MersennePrime

  // ---- every point of the circle is a power of G ----

  /** The slope of the line through (-1, 0) and p, with P for (-1, 0) itself. */
  function Slope(p: CirclePoint): nat {
    if p.x == 0x7FFF_FFFE then 0x7FFF_FFFF else Mul(p.y, Inverse(Add(1, p.x)))
  }

  ghost predicate Zero(v: int) { Red(v) == 0 }

  lemma ZeroSum(u: int, v: int)
    requires Zero(u) && Zero(v)
    ensures Zero(u + v) && Zero(u - v)
  {
    hide Red;
    RedId(0);
    RedAdd(u, v); RedSub(u, v);
  }

  lemma ZeroScaled(u: int, c: int)
    requires Zero(u)
    ensures Zero(u * c) && Zero(c * u)
  {
    hide Red, Mul;
    RedMul(u, c); RedMul(c, u);
    MulUnits(Red(c));
  }

  lemma ZeroFactor(u: int, v: int)
    requires Zero(u * v) && !Zero(u)
    ensures Zero(v)
  {
    hide Red, Mul;
    RedMul(u, v);
    NoZeroDivisors(Red(u), Red(v));
  }

  lemma ZeroDifference(a: M31, b: M31)
    ensures Zero(a - b) <==> a == b
  {
  }

  lemma OnCircleZero(p: CirclePoint)
    ensures OnCircle(p) <==> Zero(ZNorm(p.x, p.y) - 1)
  {
    hide OnCircle, Red;
    RedId(p.x); RedId(p.y); RedId(1); RedId(0);
    NormRed(p.x, p.y);
    RedSub(ZNorm(p.x, p.y), 1);
    assert forall v: M31 :: Sub(v, 1) == 0 <==> v == 1;
  }

  /** y = t(1 + x) for the slope t. */
  lemma SlopeEquation(p: CirclePoint)
    requires p.x != 0x7FFF_FFFE
    ensures !Zero(1 + p.x) && Zero(p.y - Slope(p) * (1 + p.x))
  {
    hide Mul, Inverse, Red;
    var c := Add(1, p.x);
    assert c != 0;
    InverseCorrect(c);
    RedId(1); RedId(p.x); RedId(p.y); RedId(0);
    RedAdd(1, p.x);
    var t := Mul(p.y, Inverse(c));
    MulAssoc(p.y, Inverse(c), c);
    MulUnits(p.y);
    RedId(t);
    RedMul(t, 1 + p.x);
    RedSub(p.y, t * (1 + p.x));
  }

  /** (1 + t^2) x = 1 - t^2 on the circle. */
  lemma SlopeDeterminesX(p: CirclePoint)
    requires OnCircle(p) && p.x != 0x7FFF_FFFE
    ensures Zero((1 + Slope(p) * Slope(p)) * p.x - (1 - Slope(p) * Slope(p)))
  {
    hide Zero, OnCircle, Slope;
    var x, y, t: int := p.x, p.y, Slope(p);
    var c := 1 + x;
    OnCircleZero(p);
    SlopeEquation(p);
    ZeroScaled(y - t * c, y + t * c);
    ZeroSum(ZNorm(x, y) - 1, (y - t * c) * (y + t * c));
    SlopeIdentity(x, y, t);
    ZeroScaled(c * ((1 + t * t) * x - (1 - t * t)), -1);
    ZeroFactor(c, (1 + t * t) * x - (1 - t * t));
  }

  lemma SlopeIdentity(x: int, y: int, t: int)
    ensures ZNorm(x, y) - 1 - (y - t * (1 + x)) * (y + t * (1 + x))
         == (1 + x) * ((1 + t * t) * x - (1 - t * t))
  {
    var c := 1 + x;
    assert (y - t * c) * (y + t * c) == y * y - (t * c) * (t * c);
    assert (t * c) * (t * c) == (t * t) * (c * c);
    assert (1 + t * t) * x - (1 - t * t) == x - 1 + (t * t) * c;
    assert c * (x - 1 + (t * t) * c) == c * (x - 1) + (t * t) * (c * c);
    assert c * (x - 1) == x * x - 1;
  }

  lemma TwoNotZero()
    ensures !Zero(2) && !Zero(-2)
  {
  }

  /** A circle point is determined by its slope. */
  lemma SlopeInjective(p: CirclePoint, q: CirclePoint)
    requires OnCircle(p) && OnCircle(q) && Slope(p) == Slope(q)
    ensures p == q
  {
    hide Zero, OnCircle, Mul, Inverse, Red;
    if p.x == 0x7FFF_FFFE {
      assert q.x == 0x7FFF_FFFE;
      OnlyHalfTurn(p); OnlyHalfTurn(q);
    } else {
      assert q.x != 0x7FFF_FFFE;
      hide Slope;
      SlopeDeterminesX(p);
      SlopeDeterminesX(q);
      SlopeEquation(p);
      SlopeEquation(q);
      var t: int := Slope(p);
      SameSlopeSameX(p.x, q.x, t);
      ZeroDifference(p.x, q.x);
      ZeroSum(p.y - t * (1 + p.x), q.y - t * (1 + q.x));
      ZeroDifference(p.y, q.y);
    }
  }

  lemma SameSlopeSameX(x: int, x': int, t: int)
    requires Zero((1 + t * t) * x - (1 - t * t)) && Zero((1 + t * t) * x' - (1 - t * t))
    ensures Zero(x - x')
  {
    hide Zero;
    var a := 1 + t * t;
    ZeroSum(a * x - (1 - t * t), a * x' - (1 - t * t));
    assert a * x - a * x' == a * (x - x');
    if Zero(a) {
      ZeroScaled(a, x);
      ZeroSum(a * x - (1 - t * t), a * x);
      ZeroSum(a * x - (1 - t * t) - a * x, a);
      ZeroSum(a, a);
      assert a * x - (1 - t * t) - a * x - a == -2;
      TwoNotZero();
      assert false;
    } else {
      ZeroFactor(a, x - x');
    }
  }

  lemma OnlyHalfTurn(p: CirclePoint)
    requires OnCircle(p) && p.x == 0x7FFF_FFFE
    ensures p.y == 0
  {
    hide Mul, Red;
    RedHom(); RedId(p.y); RedId(1); RedMinusOne();
    assert Mul(p.x, p.x) == 1;
    assert Mul(p.y, p.y) == 0;
    if p.y != 0 { NoZeroDivisors(p.y, p.y); }
  }

  lemma SlopeBound(p: CirclePoint)
    ensures Slope(p) < 0x8000_0000
  {
    hide Mul, Inverse;
  }

  /** The circle has 2^31 points, and they are the powers of G. */
  lemma EveryPointIsAPower(p: CirclePoint) returns (e: nat)
    requires OnCircle(p)
    ensures e < 0x8000_0000 && GenAt(e) == p
  {
    hide GenAt, Slope, OnCircle;
    var f: nat -> nat := (i: nat) => Slope(GenAt(i));
    forall i: nat | i < 0x8000_0000 ensures f(i) < 0x8000_0000 {
      SlopeBound(GenAt(i));
    }
    forall i: nat, j: nat | i < j < 0x8000_0000 ensures f(i) != f(j) {
      GenOnCircle(i); GenOnCircle(j);
      if Slope(GenAt(i)) == Slope(GenAt(j)) {
        SlopeInjective(GenAt(i), GenAt(j));
        GenInjective(i, j);
      }
    }
    SlopeBound(p);
    e := Onto(f, 0x8000_0000, Slope(p));
    GenOnCircle(e);
    SlopeInjective(GenAt(e), p);
  }

  // ---- x-coordinates ----

  /** The x-coordinate of G^e vanishes exactly at the quarter turns. */
  lemma GenXZero(e: int)
    ensures GenAt(e).x == 0 <==> (e - 0x2000_0000) % 0x4000_0000 == 0
  {
    hide GenAt, Mul, DoubleX;
    GenDouble(e);
    var p := GenAt(e);
    GenAtZero();
    GenInjective(2 * e, 0x4000_0000);
    assert (2 * e - 0x4000_0000) % 0x8000_0000 == 0 <==> (e - 0x2000_0000) % 0x4000_0000 == 0;
    if p.x == 0 {
      MulUnits(p.y);
      GenOnCircle(e);
      GenOnCircle(2 * e);
      assert DoubleX(0) == 0x7FFF_FFFE by { DoubleXOfZero(); }
      OnlyHalfTurn(GenAt(2 * e));
    } else if GenAt(2 * e) == HALF_TURN {
      DoubleXIsMinusOne(p.x);
      assert false;
    }
  }

  lemma DoubleXOfZero()
    ensures DoubleX(0) == 0x7FFF_FFFE
  {
    MulUnits(2); MulUnits(0);
  }

  lemma DoubleXIsMinusOne(x: M31)
    requires DoubleX(x) == 0x7FFF_FFFE
    ensures x == 0
  {
    hide Mul;
    assert Mul(Mul(2, x), x) == 0;
    if x != 0 {
      if Mul(2, x) == 0 {
        NoZeroDivisors(2, x);
      } else {
        NoZeroDivisors(Mul(2, x), x);
      }
    }
  }

  // ---- cosets ----

  datatype Coset = Coset(initial: CirclePoint, step: CirclePoint, logSize: nat)

  function Subgroup(logSize: nat): Coset
    requires logSize <= 31
  {
    Coset(IDENTITY, PPow(GENERATOR, Pow2(31 - logSize)), logSize)
  }

  function HalfCoset(logSize: nat): Coset
    requires logSize <= 30
  {
    Coset(PPow(GENERATOR, Pow2(30 - logSize)), PPow(GENERATOR, Pow2(31 - logSize)), logSize)
  }

  /** The line-fold domain; logSize 30 borrows the initial point of HalfCoset(30). */
  function HalfOdds(logSize: nat): Coset
    requires logSize <= 30
  {
    var shift := if logSize <= 29 then 29 - logSize else 0;
    Coset(PPow(GENERATOR, Pow2(shift)), PPow(GENERATOR, Pow2(31 - logSize)), logSize)
  }

  function At(c: Coset, i: nat): CirclePoint { PMul(c.initial, PPow(c.step, i)) }

  lemma StepPower(m: nat, i: nat)
    ensures PPow(PPow(GENERATOR, Pow2(m)), i) == GenAt(Shl(i, m))
  {
    hide PPow;
    PPowShl(GENERATOR, m, i);
    GenAtNat(Shl(i, m));
  }

  lemma HalfOddsAt(logSize: nat, i: nat)
    requires logSize <= 29
    ensures At(HalfOdds(logSize), i) == GenAt(Shl(1 + 4 * i, 29 - logSize))
  {
    hide PPow, PMul, GenAt, Shl, Pow2;
    var m := 29 - logSize;
    GenAtNat(Pow2(m));
    StepPower(31 - logSize, i);
    GenAdd(Pow2(m), Shl(i, m + 2));
    ShlSum(1, 4 * i, m);
    ShlOfOne(m);
    ShlQuadruple(i, m);
  }

  lemma ShlQuadruple(i: nat, m: nat)
    ensures Shl(4 * i, m) == Shl(i, m + 2) && Shl(2 * i, m) == Shl(i, m + 1)
  {
    ShlInner(2 * i, m);
    ShlInner(i, m);
  }

  lemma HalfCosetAt(logSize: nat, k: nat)
    requires logSize <= 30
    ensures At(HalfCoset(logSize), k) == GenAt(Shl(1 + 2 * k, 30 - logSize))
  {
    hide PPow, PMul, GenAt, Shl, Pow2;
    var m := 30 - logSize;
    GenAtNat(Pow2(m));
    StepPower(31 - logSize, k);
    GenAdd(Pow2(m), Shl(k, m + 1));
    ShlSum(1, 2 * k, m);
    ShlOfOne(m);
    ShlQuadruple(k, m);
  }

  /** Coset::all_points: sequential multiplication by the step. */
  method AllPoints(c: Coset) returns (points: seq<CirclePoint>)
    ensures |points| == Pow2(c.logSize)
    ensures forall i :: 0 <= i < |points| ==> points[i] == At(c, i)
  {
    hide PMul, PPow;
    points := [];
    var current := c.initial;
    PPowZero(c.step);
    PMulIdentity(c.initial);
    for i := 0 to Pow2(c.logSize)
      invariant |points| == i
      invariant current == At(c, i)
      invariant forall j :: 0 <= j < i ==> points[j] == At(c, j)
    {
      points := points + [current];
      current := PMul(current, c.step);
      PPowSucc(c.step, i);
      PMulComm(c.step, PPow(c.step, i));
      PMulAssoc(c.initial, PPow(c.step, i), c.step);
    }
  }

  // ---- vanishing polynomials ----

  function IterDoubleX(x: M31, n: nat): M31
    decreases n
  {
    if n == 0 then x else IterDoubleX(DoubleX(x), n - 1)
  }

  lemma {:induction false} IterDoubleXSnoc(x: M31, n: nat)
    ensures IterDoubleX(x, n + 1) == DoubleX(IterDoubleX(x, n))
    decreases n
  {
    hide DoubleX;
    if n > 0 { IterDoubleXSnoc(DoubleX(x), n - 1); }
  }

  lemma {:induction false} IterDoubleXGen(e: nat, n: nat)
    ensures IterDoubleX(GenAt(e).x, n) == GenAt(Shl(e, n)).x
    decreases n
  {
    hide DoubleX, GenAt;
    if n > 0 {
      GenDouble(e);
      IterDoubleXGen(2 * e, n - 1);
      ShlInner(e, n - 1);
    }
  }

  function Rotated(c: Coset, p: CirclePoint): CirclePoint
    requires c.logSize <= 30
  {
    PMul(PMul(p, Conjugate(c.initial)), PPow(GENERATOR, Pow2(30 - c.logSize)))
  }

  function DoublingsBeforeLast(logSize: nat): nat { if logSize == 0 then 0 else logSize - 1 }

  /** Coset::coset_vanishing_at. */
  method CosetVanishingAt(c: Coset, p: CirclePoint) returns (x: M31)
    requires c.logSize <= 30
    ensures x == IterDoubleX(Rotated(c, p).x, DoublingsBeforeLast(c.logSize))
  {
    hide DoubleX, PMul, PPow;
    var stepHalf := RepeatedDouble(GENERATOR, 30 - c.logSize);
    x := PMul(PMul(p, Conjugate(c.initial)), stepHalf).x;
    var n := DoublingsBeforeLast(c.logSize);
    for i := 0 to n
      invariant x == IterDoubleX(Rotated(c, p).x, i)
    {
      IterDoubleXSnoc(Rotated(c, p).x, i);
      x := DoubleX(x);
    }
  }

  ghost predicate IsMember(c: Coset, p: CirclePoint) {
    exists k: nat :: k < Pow2(c.logSize) && At(c, k) == p
  }

  /** Doubling w a further n times lands on a multiple of 2^30 only from a multiple of 2^(30-n). */
  lemma MultipleOfHalfTurn(w: nat, n: nat)
    requires n <= 30
    ensures Shl(w, n) % 0x4000_0000 == 0 <==> w == Shl(Shr(w, 30 - n), 30 - n)
  {
    hide Shl, Shr, Pow2;
    var k := 30 - n;
    var q := Shr(w, k);
    var r := ShrSplit(w, k);
    ShlSum(Shl(q, k), r, n);
    ShlShl(q, k, n);
    ShlTimes(q);
    ShlBelow(r, k, n);
    Pow2Table();
  }

  lemma MemberIffExponent(c: Coset, a: int, e: int)
    requires 1 <= c.logSize <= 30
    requires c.initial == GenAt(a) && c.step == PPow(GENERATOR, Pow2(31 - c.logSize))
    ensures var w := (e - a) % 0x8000_0000;
            var m := 31 - c.logSize;
            IsMember(c, GenAt(e)) <==> w == Shl(Shr(w, m), m)
  {
    hide Shl, Shr, PPow, PMul, GenAt, Pow2;
    var w, m := (e - a) % 0x8000_0000, 31 - c.logSize;
    if IsMember(c, GenAt(e)) {
      var k: nat :| k < Pow2(c.logSize) && At(c, k) == GenAt(e);
      MemberExponent(c, a, k);
      GenInjective(a + Shl(k, m), e);
      ShlBelow(k, c.logSize, m);
      Pow2Table();
      assert w == Shl(k, m);
      Pow2Positive(m);
      ShrOfSum(k, m, 0);
    }
    if w == Shl(Shr(w, m), m) {
      var k := Shr(w, m);
      Pow2Table();
      ShrBound(w, m, c.logSize);
      MemberExponent(c, a, k);
      GenAtCongruent(a + w, e);
    }
  }

  lemma Pow2Positive(m: nat)
    ensures 0 < Pow2(m)
  {
  }

  lemma MemberExponent(c: Coset, a: int, k: nat)
    requires 1 <= c.logSize <= 30
    requires c.initial == GenAt(a) && c.step == PPow(GENERATOR, Pow2(31 - c.logSize))
    ensures At(c, k) == GenAt(a + Shl(k, 31 - c.logSize))
  {
    hide Shl, PPow, PMul, GenAt, Pow2;
    StepPower(31 - c.logSize, k);
    GenAdd(a, Shl(k, 31 - c.logSize));
  }

  /** The coset vanishing polynomial is zero at a circle point exactly when the coset contains it. */
  lemma VanishesExactlyOnCoset(c: Coset, p: CirclePoint)
    requires 1 <= c.logSize <= 30
    requires OnCircle(c.initial) && OnCircle(p)
    requires c.step == PPow(GENERATOR, Pow2(31 - c.logSize))
    ensures IterDoubleX(Rotated(c, p).x, c.logSize - 1) == 0 <==> IsMember(c, p)
  {
    hide Shl, Shr, PPow, PMul, GenAt, Pow2, IsMember, OnCircle, IterDoubleX;
    var a: int := EveryPointIsAPower(c.initial);
    var e: int := EveryPointIsAPower(p);
    var n := c.logSize - 1;
    var half, w := Pow2(30 - c.logSize), (e - a) % 0x8000_0000;
    RotatedExponent(c, a, e);
    IterDoubleXGen(w + half, n);
    ShlSum(w, half, n);
    ShlPow2(30 - c.logSize, n);
    Pow2Table();
    GenXZero(Shl(w + half, n));
    MultipleOfHalfTurn(w, n);
    MemberIffExponent(c, a, e);
  }

  lemma RotatedExponent(c: Coset, a: int, e: int)
    requires 1 <= c.logSize <= 30 && c.initial == GenAt(a)
    ensures Rotated(c, GenAt(e)) == GenAt((e - a) % 0x8000_0000 + Pow2(30 - c.logSize))
  {
    hide PPow, PMul, GenAt, Pow2;
    var half := Pow2(30 - c.logSize);
    GenNeg(a);
    GenAdd(e, -a);
    GenAtNat(half);
    GenAdd(e - a, half);
    GenAtCongruent(e - a + half, (e - a) % 0x8000_0000 + half);
  }

  /** The value at G^e for a coset starting at G^a is the x-coordinate of a power of G. */
  lemma CosetVanishingValue(c: Coset, a: int, e: int)
    requires 1 <= c.logSize <= 30 && c.initial == GenAt(a)
    ensures IterDoubleX(Rotated(c, GenAt(e)).x, c.logSize - 1)
         == GenAt(Shl((e - a) % 0x8000_0000 + Pow2(30 - c.logSize), c.logSize - 1)).x
  {
    hide Shl, GenAt, Pow2, IterDoubleX, Rotated;
    RotatedExponent(c, a, e);
    IterDoubleXGen((e - a) % 0x8000_0000 + Pow2(30 - c.logSize), c.logSize - 1);
  }

  /** For a half coset no rotation is needed: the doublings of p.x alone vanish on it. */
  lemma HalfCosetNeedsNoRotation(logSize: nat, p: CirclePoint)
    requires logSize <= 30
    ensures Rotated(HalfCoset(logSize), p) == p
  {
    hide PPow, PMul, OnCircle, Conjugate;
    var h := PPow(GENERATOR, Pow2(30 - logSize));
    GeneratorOnCircle();
    PPowOnCircle(GENERATOR, Pow2(30 - logSize));
    ConjugateInverse(h);
    PMulComm(h, Conjugate(h));
    PMulAssoc(p, Conjugate(h), h);
    PMulIdentity(p);
  }

  /** Coset::circle_vanishing_poly_at. */
  method CircleVanishingPolyAt(x: M31, logSize: nat) returns (v: M31)
    ensures v == Add(IterDoubleX(x, logSize), 1)
  {
    hide DoubleX, Add;
    v := x;
    for i := 0 to logSize
      invariant v == IterDoubleX(x, i)
    {
      IterDoubleXSnoc(x, i);
      v := DoubleX(v);
    }
    v := Add(v, 1);
  }

  /** It too vanishes on the whole half coset, and nowhere else on the circle. */
  lemma CircleVanishingExactlyOnHalfCoset(logSize: nat, p: CirclePoint)
    requires 1 <= logSize <= 30 && OnCircle(p)
    ensures Add(IterDoubleX(p.x, logSize), 1) == 0 <==> IsMember(HalfCoset(logSize), p)
  {
    hide PPow, PMul, OnCircle, IterDoubleX, DoubleX, HalfCoset, IsMember;
    var c := HalfCoset(logSize);
    assert c.initial == PPow(GENERATOR, Pow2(30 - logSize)) && c.logSize == logSize
        && c.step == PPow(GENERATOR, Pow2(31 - logSize)) by { HalfCosetParts(logSize); }
    GeneratorOnCircle();
    PPowOnCircle(GENERATOR, Pow2(30 - logSize));
    VanishesExactlyOnCoset(c, p);
    HalfCosetNeedsNoRotation(logSize, p);
    IterDoubleXSnoc(p.x, logSize - 1);
    var x := IterDoubleX(p.x, logSize - 1);
    DoubleXOfZero();
    if DoubleX(x) == 0x7FFF_FFFE { DoubleXIsMinusOne(x); }
  }

  lemma HalfCosetParts(logSize: nat)
    requires logSize <= 30
    ensures HalfCoset(logSize) == Coset(PPow(GENERATOR, Pow2(30 - logSize)), PPow(GENERATOR, Pow2(31 - logSize)), logSize)
  {
  }
}
