/**
 The generator has order exactly 2^31, so its powers are indexed by the
 integers modulo 2^31.
 */
module CircleOrder {
  import opened Bits
  import opened CircleGroup

  /** G^e for any integer exponent. */
  function GenAt(e: int): CirclePoint { PPow(GENERATOR, e % 0x8000_0000) }

  lemma FullTurn()
    ensures PPow(GENERATOR, 0x8000_0000) == IDENTITY
  {
    hide *;
    assert Pow2(30) == 0x4000_0000 by { Pow2Table(); }
    GeneratorHalfTurn();
    PPowAdd(GENERATOR, 0x4000_0000, 0x4000_0000);
    HalfTurnIsAntipode(HALF_TURN);
    assert Antipode(HALF_TURN) == IDENTITY by { AntipodeOfHalfTurn(); }
  }

  lemma AntipodeOfHalfTurn()
    ensures Antipode(HALF_TURN) == IDENTITY
  {
  }

  lemma PPowPeriod(q: nat, k: nat)
    ensures PPow(GENERATOR, 0x8000_0000 * q + k) == PPow(GENERATOR, k)
  {
    hide PPow;
    if q > 0 {
      PPowPeriod(q - 1, k);
      PPowAdd(GENERATOR, 0x8000_0000, 0x8000_0000 * (q - 1) + k);
      FullTurn();
      PMulIdentity(PPow(GENERATOR, 0x8000_0000 * (q - 1) + k));
    }
  }

  lemma GenAtNat(k: nat)
    ensures GenAt(k) == PPow(GENERATOR, k)
  {
    hide PPow;
    PPowPeriod(k / 0x8000_0000, k % 0x8000_0000);
  }

  lemma GenAtZero()
    ensures GenAt(0) == IDENTITY
    ensures GenAt(0x4000_0000) == HALF_TURN
  {
    hide PPow;
    PPowZero(GENERATOR);
    assert Pow2(30) == 0x4000_0000 by { Pow2Table(); }
    GeneratorHalfTurn();
  }

  lemma GenAtCongruent(a: int, b: int)
    requires (a - b) % 0x8000_0000 == 0
    ensures GenAt(a) == GenAt(b)
  {
    hide PPow;
    assert a % 0x8000_0000 == b % 0x8000_0000;
  }

  lemma GenAdd(a: int, b: int)
    ensures GenAt(a + b) == PMul(GenAt(a), GenAt(b))
  {
    hide PPow, PMul;
    var r, s := a % 0x8000_0000, b % 0x8000_0000;
    PPowAdd(GENERATOR, r, s);
    GenAtNat(r + s);
    assert (a + b) % 0x8000_0000 == (r + s) % 0x8000_0000;
  }

  lemma GenOnCircle(e: int)
    ensures OnCircle(GenAt(e))
  {
    hide PPow, OnCircle;
    GeneratorOnCircle();
    PPowOnCircle(GENERATOR, e % 0x8000_0000);
  }

  /** A point's inverse is unique, and it is the conjugate. */
  lemma InverseIsConjugate(p: CirclePoint, q: CirclePoint)
    requires OnCircle(p) && PMul(p, q) == IDENTITY
    ensures q == Conjugate(p)
  {
    hide PMul, OnCircle;
    ConjugateInverse(p);
    PMulComm(p, Conjugate(p));
    PMulAssoc(Conjugate(p), p, q);
    PMulIdentity(q);
    PMulIdentity(Conjugate(p));
  }

  lemma GenNeg(e: int)
    ensures GenAt(-e) == Conjugate(GenAt(e))
  {
    hide *;
    GenAdd(e, -e);
    GenAtZero();
    GenOnCircle(e);
    InverseIsConjugate(GenAt(e), GenAt(-e));
  }

  lemma GenAntipode(e: int)
    ensures GenAt(e + 0x4000_0000) == Antipode(GenAt(e))
  {
    hide *;
    GenAdd(e, 0x4000_0000);
    GenAtZero();
    HalfTurnIsAntipode(GenAt(e));
  }

  lemma GenDouble(e: int)
    ensures GenAt(2 * e) == PDouble(GenAt(e))
    ensures GenAt(2 * e).x == DoubleX(GenAt(e).x)
  {
    hide GenAt, PMul, OnCircle, DoubleX;
    GenAdd(e, e);
    GenOnCircle(e);
    DoubleXCorrect(GenAt(e));
  }

  lemma {:induction false} OddPart(r: nat) returns (t: nat, m: nat)
    requires r > 0
    ensures m % 2 == 1 && Shl(m, t) == r
  {
    if r % 2 == 1 {
      t, m := 0, r;
    } else {
      t, m := OddPart(r / 2);
      t := t + 1;
    }
  }

  lemma {:induction false} ShlGrows(m: nat, t: nat)
    requires m >= 1
    ensures Shl(m, t) >= Pow2(t)
  {
    if t > 0 { ShlGrows(m, t - 1); }
  }

  /** An odd multiple of 2^t, doubled 30 - t times, is an odd number of half turns. */
  lemma OddMultipleReachesHalfTurn(m: nat, t: nat)
    requires m % 2 == 1 && t <= 30
    ensures PPow(PPow(GENERATOR, Shl(m, t)), Pow2(30 - t)) == HALF_TURN
  {
    hide PPow, PMul, Pow2, Shl;
    var s := m / 2;
    PPowShl(PPow(GENERATOR, Shl(m, t)), 30 - t, 1);
    PPowShl(GENERATOR, t, m);
    PPowOnce(PPow(GENERATOR, Shl(m, t)), Pow2(30 - t));
    ShlShl(m, t, 30 - t);
    PPowTower(GENERATOR, Shl(m, t), 30 - t);
    assert Shl(m, 30) == 0x8000_0000 * s + 0x4000_0000 by {
      ShlSum(2 * s, 1, 30);
      ShlOfOne(30);
      ShlInner(s, 30);
      ShlTimes(s);
      Pow2Table();
    }
    PPowPeriod(s, 0x4000_0000);
    assert Pow2(30) == 0x4000_0000 by { Pow2Table(); }
    GeneratorHalfTurn();
  }

  lemma ShlTimes(s: nat)
    ensures Shl(s, 30) == 0x4000_0000 * s
    ensures Shl(s, 31) == 0x8000_0000 * s
  {
    ShlByTen(s);
    ShlShl(s, 10, 10);
    ShlByTen(Shl(s, 10));
    ShlShl(s, 20, 10);
    ShlByTen(Shl(s, 20));
  }

  lemma PPowOnce(p: CirclePoint, k: nat)
    ensures PPow(p, Shl(1, 0)) == p
  {
    hide PMul;
    PMulIdentity(p);
  }

  lemma {:induction false} PPowTower(p: CirclePoint, a: nat, t: nat)
    ensures PPow(PPow(p, a), Pow2(t)) == PPow(p, Shl(a, t))
    decreases t
  {
    hide PMul, PPow;
    if t == 0 {
      PPowOnce(PPow(p, a), 1);
    } else {
      PPowTower(p, a, t - 1);
      var q, k := PPow(p, a), Pow2(t - 1);
      PPowAdd(q, k, k);
      PPowAdd(p, Shl(a, t - 1), Shl(a, t - 1));
    }
  }

  lemma OddPartBound(r: nat, t: nat, m: nat)
    requires 0 < r < 0x8000_0000 && m % 2 == 1 && Shl(m, t) == r
    ensures t <= 30
  {
    hide Shl;
    ShlGrows(m, t);
    if t > 30 {
      Pow2Monotone(31, t);
      Pow2Table();
    }
  }

  /** G^e is the identity exactly when 2^31 divides e. */
  lemma GenOrder(e: int)
    ensures GenAt(e) == IDENTITY <==> e % 0x8000_0000 == 0
  {
    hide PPow, PMul, Shl, Pow2;
    var r := e % 0x8000_0000;
    PPowZero(GENERATOR);
    if r != 0 && GenAt(e) == IDENTITY {
      var t, m := OddPart(r);
      OddPartBound(r, t, m);
      OddMultipleReachesHalfTurn(m, t);
      PPowIdentity(Pow2(30 - t));
      assert false;
    }
  }

  lemma GenInjective(a: int, b: int)
    ensures GenAt(a) == GenAt(b) <==> (a - b) % 0x8000_0000 == 0
  {
    hide PPow, PMul, OnCircle, GenAt;
    GenAdd(a - b, b);
    if GenAt(a) == GenAt(b) {
      // cancel G^b
      GenNeg(b);
      GenAdd(a, -b);
      GenOnCircle(b);
      ConjugateInverse(GenAt(b));
      GenOrder(a - b);
    } else if (a - b) % 0x8000_0000 == 0 {
      GenAtCongruent(a, b);
    }
  }
}
