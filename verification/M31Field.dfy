/**
 The Mersenne field of 2^31 - 1 elements, as src/field/m31.rs computes in it.
 Ring identities are proved by pushing every operation through Red, the
 reduction of an unbounded integer.
 */
module M31Field {

  const P: int := 0x7FFF_FFFF

  type M31 = x: int | 0 <= x < 0x7FFF_FFFF

  function Red(x: int): M31 { x % 0x7FFF_FFFF }

  /** Shift-and-add reduction of a 62-bit product. */
  function Reduce(val: nat): nat {
    var lo := val % 0x8000_0000;
    var hi := val / 0x8000_0000;
    var r := lo + hi;
    if r >= 0x7FFF_FFFF then r - 0x7FFF_FFFF else r
  }

  /** The single subtraction suffices for every 62-bit value but the largest. */
  lemma ReduceExact(val: nat)
    requires val < 0x4000_0000_0000_0000
    ensures Reduce(val) == val % 0x7FFF_FFFF <==> val != 0x3FFF_FFFF_FFFF_FFFF
  {
    var lo, hi := val % 0x8000_0000, val / 0x8000_0000;
    assert val == 0x7FFF_FFFF * hi + (lo + hi);
  }

  lemma MulUpTo(a: nat, m: nat, b: nat)
    requires a <= m
    ensures 0 <= a * b <= m * b
  {
    assert m * b == a * b + (m - a) * b;
    assert (m - a) * b >= 0;
  }

  lemma ProductFits(a: M31, b: M31)
    ensures 0 <= a * b < 0x3FFF_FFFF_FFFF_FFFF
  {
    MulUpTo(a, 0x7FFF_FFFE, b);
    assert 0x7FFF_FFFE * b <= 0x7FFF_FFFE * 0x7FFF_FFFE;
  }

  function Add(a: M31, b: M31): M31 {
    var r := a + b;
    if r >= 0x7FFF_FFFF then r - 0x7FFF_FFFF else r
  }

  function Sub(a: M31, b: M31): M31 {
    if a >= b then a - b else a + 0x7FFF_FFFF - b
  }

  function Neg(a: M31): M31 {
    if a == 0 then 0 else 0x7FFF_FFFF - a
  }

  function Mul(a: M31, b: M31): M31 {
    ProductFits(a, b);
    ReduceExact(a * b);
    Reduce(a * b)
  }

  function Double(a: M31): M31 {
    var r := a * 2;
    if r >= 0x7FFF_FFFF then r - 0x7FFF_FFFF else r
  }

  lemma MulIsMod(a: M31, b: M31)
    ensures Mul(a, b) == (a * b) % 0x7FFF_FFFF
  {
    ProductFits(a, b);
    ReduceExact(a * b);
  }

  lemma ModMul(x: int, y: int)
    ensures ((x % 0x7FFF_FFFF) * (y % 0x7FFF_FFFF)) % 0x7FFF_FFFF == (x * y) % 0x7FFF_FFFF
  {
    var a, b := x / 0x7FFF_FFFF, y / 0x7FFF_FFFF;
    var r, s := x % 0x7FFF_FFFF, y % 0x7FFF_FFFF;
    ProductOfSums(0x7FFF_FFFF * a, r, 0x7FFF_FFFF * b, s);
    assert (0x7FFF_FFFF * a) * y == 0x7FFF_FFFF * (a * y);
    assert r * (0x7FFF_FFFF * b) == 0x7FFF_FFFF * (r * b);
    SameResidue(x * y, r * s, a * y + r * b);
  }

  lemma ProductOfSums(u: int, r: int, v: int, s: int)
    ensures (u + r) * (v + s) == u * (v + s) + r * v + r * s
  {
  }

  lemma SameResidue(x: int, y: int, q: int)
    requires x == y + 0x7FFF_FFFF * q
    ensures y % 0x7FFF_FFFF == x % 0x7FFF_FFFF
  {
  }

  /** Red carries the integer operations to the field operations. */
  lemma RedHom()
    ensures forall x: int, y: int {:trigger Add(Red(x), Red(y))} :: Add(Red(x), Red(y)) == Red(x + y)
    ensures forall x: int, y: int {:trigger Sub(Red(x), Red(y))} :: Sub(Red(x), Red(y)) == Red(x - y)
    ensures forall x: int, y: int {:trigger Mul(Red(x), Red(y))} :: Mul(Red(x), Red(y)) == Red(x * y)
    ensures forall x: int {:trigger Neg(Red(x))} :: Neg(Red(x)) == Red(-x)
    ensures forall x: int {:trigger Double(Red(x))} :: Double(Red(x)) == Red(2 * x)
  {
    hide *;
    forall x: int, y: int ensures Add(Red(x), Red(y)) == Red(x + y) { RedAdd(x, y); }
    forall x: int, y: int ensures Sub(Red(x), Red(y)) == Red(x - y) { RedSub(x, y); }
    forall x: int, y: int ensures Mul(Red(x), Red(y)) == Red(x * y) { RedMul(x, y); }
    forall x: int ensures Neg(Red(x)) == Red(-x) { RedNeg(x); }
    forall x: int ensures Double(Red(x)) == Red(2 * x) { RedDouble(x); }
  }

  lemma ModUnique(x: int, q: int, r: int)
    requires x == 0x7FFF_FFFF * q + r && 0 <= r < 0x7FFF_FFFF
    ensures x % 0x7FFF_FFFF == r
  {
  }

  lemma RedAdd(x: int, y: int)
    ensures Add(Red(x), Red(y)) == Red(x + y)
  {
    var q, r := x / 0x7FFF_FFFF + y / 0x7FFF_FFFF, x % 0x7FFF_FFFF + y % 0x7FFF_FFFF;
    if r >= 0x7FFF_FFFF {
      ModUnique(x + y, q + 1, r - 0x7FFF_FFFF);
    } else {
      ModUnique(x + y, q, r);
    }
  }

  lemma RedSub(x: int, y: int)
    ensures Sub(Red(x), Red(y)) == Red(x - y)
  {
    var q, r := x / 0x7FFF_FFFF - y / 0x7FFF_FFFF, x % 0x7FFF_FFFF - y % 0x7FFF_FFFF;
    if r < 0 {
      ModUnique(x - y, q - 1, r + 0x7FFF_FFFF);
    } else {
      ModUnique(x - y, q, r);
    }
  }

  lemma RedMul(x: int, y: int)
    ensures Mul(Red(x), Red(y)) == Red(x * y)
  {
    MulIsMod(Red(x), Red(y));
    ModMul(x, y);
  }

  lemma RedNeg(x: int)
    ensures Neg(Red(x)) == Red(-x)
  {
  }

  lemma RedDouble(x: int)
    ensures Double(Red(x)) == Red(2 * x)
  {
    var q, r := x / 0x7FFF_FFFF, x % 0x7FFF_FFFF;
    if 2 * r >= 0x7FFF_FFFF {
      ModUnique(2 * x, 2 * q + 1, 2 * r - 0x7FFF_FFFF);
    } else {
      ModUnique(2 * x, 2 * q, 2 * r);
    }
  }

  lemma RedId(a: M31)
    ensures Red(a) == a
  {
  }

  // ---- ring laws ----

  lemma AddComm(a: M31, b: M31)
    ensures Add(a, b) == Add(b, a)
  {
  }

  lemma MulComm(a: M31, b: M31)
    ensures Mul(a, b) == Mul(b, a)
  {
    hide *;
    RedHom(); RedId(a); RedId(b);
    assert a * b == b * a;
  }

  lemma MulAssoc(a: M31, b: M31, c: M31)
    ensures Mul(Mul(a, b), c) == Mul(a, Mul(b, c))
  {
    hide *;
    RedHom(); RedId(a); RedId(b); RedId(c);
    assert (a * b) * c == a * (b * c);
  }

  lemma MulDistrib(a: M31, b: M31, c: M31)
    ensures Mul(a, Add(b, c)) == Add(Mul(a, b), Mul(a, c))
    ensures Mul(a, Sub(b, c)) == Sub(Mul(a, b), Mul(a, c))
  {
    hide *;
    RedHom(); RedId(a); RedId(b); RedId(c);
    assert a * (b + c) == a * b + a * c;
    assert a * (b - c) == a * b - a * c;
  }

  lemma MulUnits(a: M31)
    ensures Mul(a, 1) == a && Mul(1, a) == a
    ensures Mul(a, 0) == 0 && Mul(0, a) == 0
  {
    MulIsMod(a, 1); MulIsMod(1, a); MulIsMod(a, 0); MulIsMod(0, a);
  }

  // ---- powers ----

  /** Square-and-multiply, least significant exponent bit first. */
  function Pow(base: M31, exp: nat): M31
    decreases exp, base
  {
    if exp == 0 then 1
    else if exp % 2 == 1 then Mul(base, Pow(Mul(base, base), exp / 2))
    else Pow(Mul(base, base), exp / 2)
  }

  lemma {:induction false} PowSucc(a: M31, e: nat)
    ensures Pow(a, e + 1) == Mul(a, Pow(a, e))
    decreases e
  {
    hide Mul;
    if e % 2 == 1 {
      var s := Mul(a, a);
      assert (e + 1) / 2 == e / 2 + 1;
      PowSucc(s, e / 2);
      MulAssoc(a, a, Pow(s, e / 2));
    } else {
      assert (e + 1) / 2 == e / 2;
      MulUnits(a);
    }
  }

  lemma {:induction false} PowAdd(a: M31, e: nat, f: nat)
    ensures Pow(a, e + f) == Mul(Pow(a, e), Pow(a, f))
  {
    hide Mul, Pow;
    if e == 0 {
      PowZero(a);
      MulUnits(Pow(a, f));
    } else {
      PowAdd(a, e - 1, f);
      PowSucc(a, e - 1);
      PowSucc(a, e - 1 + f);
      MulAssoc(a, Pow(a, e - 1), Pow(a, f));
    }
  }

  lemma PowZero(a: M31)
    ensures Pow(a, 0) == 1
  {
  }

  lemma {:induction false} PowMul(a: M31, e: nat, f: nat)
    ensures e * f >= 0 && Pow(Pow(a, e), f) == Pow(a, e * f)
  {
    hide Mul, Pow;
    if f == 0 {
      PowZero(a); PowZero(Pow(a, e));
      assert e * f == 0;
    } else {
      PowMul(a, e, f - 1);
      PowSucc(Pow(a, e), f - 1);
      assert e * f == e + e * (f - 1);
      PowAdd(a, e, e * (f - 1));
    }
  }

  lemma Mul4(a: M31, b: M31, c: M31, d: M31)
    ensures Mul(Mul(a, b), Mul(c, d)) == Mul(Mul(a, c), Mul(b, d))
  {
    hide *;
    RedHom(); RedId(a); RedId(b); RedId(c); RedId(d);
    assert (a * b) * (c * d) == (a * c) * (b * d);
  }

  lemma {:induction false} PowOne(e: nat)
    ensures Pow(1, e) == 1
    decreases e
  {
    if e > 0 {
      MulUnits(1);
      PowOne(e / 2);
    }
  }

  /** M31::pow. */
  method PowLoop(a: M31, exponent: nat) returns (result: M31)
    ensures result == Pow(a, exponent)
  {
    hide Mul;
    result := 1;
    var base, exp := a, exponent;
    MulUnits(Pow(a, exponent));
    while exp > 0
      invariant Mul(result, Pow(base, exp)) == Pow(a, exponent)
    {
      if exp % 2 == 1 {
        MulAssoc(result, base, Pow(Mul(base, base), exp / 2));
        result := Mul(result, base);
      }
      base := Mul(base, base);
      exp := exp / 2;
    }
    MulUnits(result);
  }

  /** M31::inverse: the power P - 2. */
  function Inverse(a: M31): M31 { Pow(a, 0x7FFF_FFFD) }
}
