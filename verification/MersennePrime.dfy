/**
 P = 2^31 - 1 is prime, hence M31 is a field and M31::inverse is an inverse.
 Primality comes from the circle group: modulo any divisor d of P the
 generator still has 2^31 distinct powers, so d * d >= 2^31.
 */
module MersennePrime {
  import opened Bits
  import opened Counting
  import opened M31Field
  import opened CircleGroup
  import opened CircleOrder

  // ---- congruence modulo a divisor of P ----

  predicate IsMultiple(x: int, d: int, k: int) { x == d * k }

  ghost predicate Cong(x: int, y: int, d: int) { DivisibleBy(x - y, d) }

  ghost predicate DivisibleBy(x: int, d: int) { exists k: int :: IsMultiple(x, d, k) }

  ghost predicate CongPoint(p: CirclePoint, q: CirclePoint, d: int) {
    Cong(p.x, q.x, d) && Cong(p.y, q.y, d)
  }

  lemma CongBy(x: int, y: int, d: int, k: int)
    requires x - y == d * k
    ensures Cong(x, y, d)
  {
    assert IsMultiple(x - y, d, k);
  }

  lemma CongSum(a: int, b: int, c: int, e: int, d: int)
    requires Cong(a, b, d) && Cong(c, e, d)
    ensures Cong(a + c, b + e, d) && Cong(a - c, b - e, d)
  {
    var k :| IsMultiple(a - b, d, k);
    var l :| IsMultiple(c - e, d, l);
    assert d * (k + l) == d * k + d * l && d * (k - l) == d * k - d * l;
    CongBy(a + c, b + e, d, k + l);
    CongBy(a - c, b - e, d, k - l);
  }

  lemma CongProduct(a: int, b: int, c: int, e: int, d: int)
    requires Cong(a, b, d) && Cong(c, e, d)
    ensures Cong(a * c, b * e, d)
  {
    var k :| IsMultiple(a - b, d, k);
    var l :| IsMultiple(c - e, d, l);
    ProductDifference(a, b, c, e, d, k, l);
    CongBy(a * c, b * e, d, k * c + b * l);
  }

  lemma ProductDifference(a: int, b: int, c: int, e: int, d: int, k: int, l: int)
    requires a - b == d * k && c - e == d * l
    ensures a * c - b * e == d * (k * c + b * l)
  {
    assert a * c - b * e == (a - b) * c + b * (c - e);
    assert (d * k) * c == d * (k * c);
    assert b * (d * l) == d * (b * l);
  }

  lemma CongTrans(a: int, b: int, c: int, d: int)
    requires Cong(a, b, d) && Cong(b, c, d)
    ensures Cong(a, c, d) && Cong(b, a, d)
  {
    var k :| IsMultiple(a - b, d, k);
    var l :| IsMultiple(b - c, d, l);
    assert d * (k + l) == d * k + d * l && d * (-k) == -(d * k);
    CongBy(a, c, d, k + l);
    CongBy(b, a, d, -k);
  }

  lemma CongRed(x: int, d: int, e: int)
    requires d * e == 0x7FFF_FFFF
    ensures Cong(Red(x), x, d) && Cong(x, Red(x), d)
  {
    var q := x / 0x7FFF_FFFF;
    assert d * (e * q) == (d * e) * q;
    assert d * (-(e * q)) == -(d * (e * q));
    CongBy(Red(x), x, d, -(e * q));
    CongBy(x, Red(x), d, e * q);
  }

  lemma CongPMul(p: CirclePoint, p': CirclePoint, q: CirclePoint, q': CirclePoint, d: int, e: int)
    requires d * e == 0x7FFF_FFFF
    requires CongPoint(p, p', d) && CongPoint(q, q', d)
    ensures CongPoint(PMul(p, q), PMul(p', q'), d)
  {
    hide PMul, Red, Cong;
    PMulIsRed(p, q);
    PMulIsRed(p', q');
    CongProduct(p.x, p'.x, q.x, q'.x, d); CongProduct(p.y, p'.y, q.y, q'.y, d);
    CongProduct(p.x, p'.x, q.y, q'.y, d); CongProduct(p.y, p'.y, q.x, q'.x, d);
    CongSum(p.x * q.x, p'.x * q'.x, p.y * q.y, p'.y * q'.y, d);
    CongSum(p.x * q.y, p'.x * q'.y, p.y * q.x, p'.y * q'.x, d);
    CongRedBoth(ZRe(p.x, p.y, q.x, q.y), ZRe(p'.x, p'.y, q'.x, q'.y), d, e);
    CongRedBoth(ZIm(p.x, p.y, q.x, q.y), ZIm(p'.x, p'.y, q'.x, q'.y), d, e);
  }

  lemma PMulIsRed(p: CirclePoint, q: CirclePoint)
    ensures PMul(p, q) == CirclePoint(Red(ZRe(p.x, p.y, q.x, q.y)), Red(ZIm(p.x, p.y, q.x, q.y)))
  {
    hide *;
    RedId(p.x); RedId(p.y); RedId(q.x); RedId(q.y);
    PMulRed(p.x, p.y, q.x, q.y);
  }

  lemma CongRedBoth(x: int, y: int, d: int, e: int)
    requires d * e == 0x7FFF_FFFF && Cong(x, y, d)
    ensures Cong(Red(x), Red(y), d)
  {
    hide *;
    CongRed(x, d, e); CongRed(y, d, e);
    CongTrans(Red(x), x, y, d);
    CongTrans(Red(x), y, Red(y), d);
  }

  lemma CongSelf(p: CirclePoint, d: int)
    ensures CongPoint(p, p, d)
  {
    CongBy(p.x, p.x, d, 0);
    CongBy(p.y, p.y, d, 0);
  }

  lemma {:induction false} CongPPow(p: CirclePoint, k: nat, d: int, e: int)
    requires d * e == 0x7FFF_FFFF
    requires CongPoint(p, IDENTITY, d)
    ensures CongPoint(PPow(p, k), IDENTITY, d)
  {
    hide PMul, CongPoint, PPow;
    if k == 0 {
      PPowZero(p);
      CongSelf(IDENTITY, d);
    } else {
      CongPPow(p, k - 1, d, e);
      PPowSucc(p, k - 1);
      CongPMul(p, IDENTITY, PPow(p, k - 1), IDENTITY, d, e);
      PMulIdentity(IDENTITY);
    }
  }

  /** Modulo a proper divisor of P, the powers G^i with i < 2^31 stay distinct. */
  lemma PowersDistinctModulo(i: nat, j: nat, d: int, e: int)
    requires d * e == 0x7FFF_FFFF && d >= 2
    requires i < j < 0x8000_0000
    ensures !CongPoint(GenAt(i), GenAt(j), d)
  {
    hide PMul, PPow, CongPoint, Shl, Pow2, GenAt;
    if CongPoint(GenAt(i), GenAt(j), d) {
      var r: nat, back: int := j - i, 0 - i;
      CongSelf(GenAt(back), d);
      CongPMul(GenAt(i), GenAt(j), GenAt(back), GenAt(back), d, e);
      GenAdd(i, back); GenAdd(j, back); GenAtZero();
      CongFlip(IDENTITY, GenAt(r), d);
      GenAtNat(r);
      var t, m := OddPart(r);
      OddPartBound(r, t, m);
      OddMultipleReachesHalfTurn(m, t);
      CongPPow(GenAt(r), Pow2(30 - t), d, e);
      HalfTurnNotIdentityModulo(d, e);
      assert false;
    }
  }

  lemma CongFlip(p: CirclePoint, q: CirclePoint, d: int)
    requires CongPoint(p, q, d)
    ensures CongPoint(q, p, d)
  {
    CongBy(q.x, q.x, d, 0); CongBy(q.y, q.y, d, 0);
    CongTrans(p.x, q.x, q.x, d);
    CongTrans(p.y, q.y, q.y, d);
  }

  lemma HalfTurnNotIdentityModulo(d: int, e: int)
    requires d * e == 0x7FFF_FFFF && d >= 2
    ensures !CongPoint(HALF_TURN, IDENTITY, d)
  {
    if CongPoint(HALF_TURN, IDENTITY, d) {
      var k :| IsMultiple(0x7FFF_FFFE - 1, d, k);
      assert d * (e - k) == d * e - d * k;
      assert d * (e - k) == 2;
      DividesTwo(d, e - k);
      assert false;
    }
  }

  lemma DividesTwo(d: int, k: int)
    requires d >= 2 && d * k == 2
    ensures d == 2
  {
    if k >= 2 {
      MulAtLeast(d, k, 2);
    } else {
      MulAtMost(d, k, 1);
    }
  }

  lemma MulAtLeast(d: nat, k: int, m: nat)
    requires k >= m
    ensures d * k >= d * m
  {
    assert d * k == d * m + d * (k - m);
    assert d * (k - m) >= 0;
  }

  lemma MulAtMost(d: nat, k: int, m: int)
    requires k <= m
    ensures d * k <= d * m
  {
    assert d * m == d * k + d * (m - k);
    assert d * (m - k) >= 0;
  }

  // ---- counting the residues ----

  function Code(u: nat, v: nat, d: nat): nat { u * d + v }

  lemma CodeBound(u: nat, v: nat, d: nat)
    requires u < d && v < d
    ensures Code(u, v, d) < d * d
  {
    MulAtLeast(d, d - 1, u);
    assert d * (d - 1) == d * d - d;
    assert u * d == d * u;
  }

  lemma CodeInjective(u: nat, v: nat, u': nat, v': nat, d: nat)
    requires v < d && v' < d && Code(u, v, d) == Code(u', v', d)
    ensures u == u' && v == v'
  {
    assert d * (u - u') == u * d - u' * d;
    if u > u' {
      MulAtLeast(d, u - u', 1);
    } else {
      MulAtMost(d, u - u', if u == u' then 0 else -1);
    }
  }

  lemma SameResidueCong(x: int, y: int, d: int)
    requires d >= 1 && x % d == y % d
    ensures Cong(x, y, d)
  {
    assert x == d * (x / d) + x % d;
    assert y == d * (y / d) + y % d;
    assert d * (x / d - y / d) == d * (x / d) - d * (y / d);
    CongBy(x, y, d, x / d - y / d);
  }

  function ResidueCode(i: nat, d: nat): nat
    requires d > 0
  {
    Code(GenAt(i).x % d, GenAt(i).y % d, d)
  }

  lemma ResidueCodeInjective(i: nat, j: nat, d: nat, e: int)
    requires d * e == 0x7FFF_FFFF && d >= 2
    requires i < j < 0x8000_0000
    ensures ResidueCode(i, d) != ResidueCode(j, d)
  {
    hide GenAt, Code, Cong;
    if ResidueCode(i, d) == ResidueCode(j, d) {
      var p, q := GenAt(i), GenAt(j);
      CodeInjective(p.x % d, p.y % d, q.x % d, q.y % d, d);
      SameResidueCong(p.x, q.x, d);
      SameResidueCong(p.y, q.y, d);
      PowersDistinctModulo(i, j, d, e);
    }
  }

  /** Every divisor of P other than 1 has square at least 2^31. */
  lemma DivisorsAreLarge(d: nat, e: int)
    requires d * e == 0x7FFF_FFFF && d >= 2
    ensures d * d >= 0x8000_0000
  {
    hide GenAt, Code, ResidueCode;
    var f: nat -> nat := (i: nat) => ResidueCode(i, d);
    forall i: nat | i < 0x8000_0000 ensures f(i) < d * d {
      ResidueCodeBound(i, d);
    }
    forall i: nat, j: nat | i < j < 0x8000_0000 ensures f(i) != f(j) {
      ResidueCodeInjective(i, j, d, e);
    }
    Pigeonhole(f, 0x8000_0000, d * d);
  }

  lemma ResidueCodeBound(i: nat, d: nat)
    requires d > 0
    ensures ResidueCode(i, d) < d * d
  {
    hide GenAt, Code;
    CodeBound(GenAt(i).x % d, GenAt(i).y % d, d);
  }

  /** 2^31 - 1 is prime. */
  lemma ModulusIsPrime(d: int)
    requires 2 <= d < 0x7FFF_FFFF
    ensures 0x7FFF_FFFF % d != 0
  {
    if 0x7FFF_FFFF % d == 0 {
      var e := 0x7FFF_FFFF / d;
      assert d * e == 0x7FFF_FFFF;
      CofactorRange(d, e);
      DivisorsAreLarge(d, e);
      assert e * d == d * e;
      DivisorsAreLarge(e, d);
      if d <= e {
        MulAtLeast(d, e, d);
      } else {
        MulAtLeast(e, d, e);
      }
      assert false;
    }
  }

  lemma CofactorRange(d: int, e: int)
    requires 2 <= d < 0x7FFF_FFFF && d * e == 0x7FFF_FFFF
    ensures e >= 2
  {
    if e <= 1 { MulAtMost(d, e, 1); }
  }

  // ---- no zero divisors ----

  /** If d*y = 0 with 0 < d < P, the remainder P mod d annihilates y as well. */
  lemma {:induction false} NoZeroDivisors(d: M31, y: M31)
    requires d != 0 && Mul(d, y) == 0
    ensures y == 0
    decreases d
  {
    MulIsMod(d, y);
    if d == 1 {
      MulUnits(y);
    } else {
      ModulusIsPrime(d);
      var r, q := 0x7FFF_FFFF % d, 0x7FFF_FFFF / d;
      Annihilates(d, y, q, r);
      NoZeroDivisors(r, y);
    }
  }

  lemma Annihilates(d: M31, y: M31, q: nat, r: M31)
    requires 0x7FFF_FFFF == d * q + r && Mul(d, y) == 0
    ensures Mul(r, y) == 0
  {
    MulIsMod(d, y); MulIsMod(r, y);
    var k := (d * y) / 0x7FFF_FFFF;
    assert d * y == 0x7FFF_FFFF * k;
    assert r * y == 0x7FFF_FFFF * y - (d * y) * q by {
      assert (d * q + r) * y == d * q * y + r * y;
      assert d * q * y == (d * y) * q;
    }
    assert (0x7FFF_FFFF * k) * q == 0x7FFF_FFFF * (k * q);
    ModUnique(r * y, y - k * q, 0);
  }

  lemma Cancel(a: M31, b: M31, c: M31)
    requires a != 0 && Mul(a, b) == Mul(a, c)
    ensures b == c
  {
    hide Mul;
    MulDistrib(a, b, c);
    assert Sub(Mul(a, b), Mul(a, c)) == 0;
    NoZeroDivisors(a, Sub(b, c));
  }

  // ---- Fermat ----

  ghost function Product(s: set<M31>): M31 {
    if s == {} then 1 else var x :| x in s; Mul(x, Product(s - {x}))
  }

  lemma {:induction false} ProductRemove(s: set<M31>, x: M31)
    requires x in s
    ensures Product(s) == Mul(x, Product(s - {x}))
    decreases |s|
  {
    hide Mul;
    var y :| y in s && Product(s) == Mul(y, Product(s - {y}));
    if y != x {
      ProductRemove(s - {y}, x);
      ProductRemove(s - {x}, y);
      assert s - {y} - {x} == s - {x} - {y};
      var rest := Product(s - {x} - {y});
      MulAssoc(y, x, rest); MulAssoc(x, y, rest); MulComm(x, y);
    }
  }

  ghost function Multiples(a: M31, s: set<M31>): set<M31> {
    set x | x in s :: Mul(a, x)
  }

  lemma {:induction false} ScaledProduct(a: M31, s: set<M31>)
    requires a != 0
    ensures |Multiples(a, s)| == |s|
    ensures Product(Multiples(a, s)) == Mul(Pow(a, |s|), Product(s))
  {
    hide Mul, Pow, Product;
    if s == {} {
      assert Multiples(a, s) == {};
      assert Product({}) == 1 by { ProductEmpty(); }
      PowZero(a); MulUnits(1);
    } else {
      var x :| x in s;
      var s', ax := s - {x}, Mul(a, x);
      ScaledProduct(a, s');
      assert ax !in Multiples(a, s') by {
        if y :| y in s' && ax == Mul(a, y) {
          Cancel(a, x, y);
        }
      }
      assert Multiples(a, s) == Multiples(a, s') + {ax};
      assert Multiples(a, s) - {ax} == Multiples(a, s');
      ProductRemove(Multiples(a, s), ax);
      ProductRemove(s, x);
      PowSucc(a, |s'|);
      Mul4(a, x, Pow(a, |s'|), Product(s'));
    }
  }

  lemma ProductEmpty()
    ensures Product({}) == 1
  {
  }

  lemma {:induction false} ProductNonzero(s: set<M31>)
    requires 0 !in s
    ensures Product(s) != 0
  {
    hide Mul;
    if s != {} {
      var x :| x in s && Product(s) == Mul(x, Product(s - {x}));
      ProductNonzero(s - {x});
      if Mul(x, Product(s - {x})) == 0 {
        NoZeroDivisors(x, Product(s - {x}));
      }
    }
  }

  predicate IsUnit(x: M31, n: int) { 1 <= x < n }

  ghost function Units(n: int): set<M31>
    requires 1 <= n <= 0x7FFF_FFFF
  {
    set x: M31 | 1 <= x < n && IsUnit(x, n)
  }

  lemma {:induction false} UnitsSize(n: int)
    requires 1 <= n <= 0x7FFF_FFFF
    ensures |Units(n)| == n - 1
  {
    if n > 1 {
      UnitsSize(n - 1);
      assert forall x: M31 :: IsUnit(x, n) <==> IsUnit(x, n - 1) || x == n - 1;
      assert Units(n) == Units(n - 1) + {n - 1};
    } else {
      assert Units(1) == {};
    }
  }

  /** a^(P-1) = 1 for every nonzero a. */
  lemma Fermat(a: M31)
    requires a != 0
    ensures Pow(a, 0x7FFF_FFFE) == 1
  {
    hide Mul, Pow, Product;
    var u := Units(0x7FFF_FFFF);
    UnitsSize(0x7FFF_FFFF);
    ScaledProduct(a, u);
    forall y | y in Multiples(a, u) ensures y in u {
      var x :| x in u && y == Mul(a, x);
      if y == 0 { NoZeroDivisors(a, x); }
      assert IsUnit(y, 0x7FFF_FFFF);
    }
    SubsetSize(Multiples(a, u), u);
    ProductNonzero(u);
    MulUnits(Product(u));
    MulComm(Pow(a, 0x7FFF_FFFE), Product(u));
    Cancel(Product(u), Pow(a, 0x7FFF_FFFE), 1);
  }

  /** M31::inverse is the multiplicative inverse on nonzero elements, and maps 0 to 0. */
  lemma InverseCorrect(a: M31)
    ensures a != 0 ==> Mul(a, Inverse(a)) == 1 && Mul(Inverse(a), a) == 1 && Inverse(a) != 0
    ensures a == 0 ==> Inverse(a) == 0
  {
    hide Mul, Pow;
    PowSucc(a, 0x7FFF_FFFD);
    MulComm(a, Inverse(a));
    if a != 0 {
      Fermat(a);
      MulUnits(a);
    } else {
      PowSucc(a, 0x7FFF_FFFC);
      MulUnits(Pow(a, 0x7FFF_FFFC));
    }
  }

  lemma InverseUnique(a: M31, b: M31)
    requires Mul(a, b) == 1
    ensures a != 0 && b == Inverse(a)
  {
    hide Mul, Inverse;
    MulUnits(b);
    InverseCorrect(a);
    Cancel(a, b, Inverse(a));
  }
}
