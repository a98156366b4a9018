/**
 The quintic S-box and its inverse (src/rpo_m31.rs), the Poseidon2 permutation, its
 trace and its transition constraints (src/poseidon.rs). Round constants are parameters.
 */
module Poseidon2 {
  import opened M31Field
  import opened MersennePrime

  const RF_BEFORE: nat := 4
  const RP: nat := 22
  const RF_AFTER: nat := 4
  const NUM_ROUNDS: nat := 30

  type State = s: seq<M31> | |s| == 8 witness [0, 0, 0, 0, 0, 0, 0, 0]

  // ---- S-box ----

  /** sbox_fwd, sbox_one: x^5. */
  function Sbox(x: M31): M31 { Mul(Mul(Mul(x, x), Mul(x, x)), x) }

  const INV_QUINTIC_EXP: nat := 1717986917

  function SboxInverse(x: M31): M31 { Pow(x, INV_QUINTIC_EXP) }

  /** sbox_inv */
  method SboxInv(x: M31) returns (result: M31)
    ensures result == SboxInverse(x)
  {
    hide Mul, Pow;
    result := PowLoop(x, INV_QUINTIC_EXP);
  }

  lemma SboxIsPower(x: M31)
    ensures Sbox(x) == Pow(x, 5)
  {
    hide Mul, Pow;
    PowZero(x); MulUnits(x);
    PowSucc(x, 0);
    PowAdd(x, 1, 1); PowAdd(x, 2, 2); PowAdd(x, 4, 1);
  }

  /** 5 * 1717986917 = 4 (P - 1) + 1, so the two powers undo each other. */
  lemma FifthRootPower(x: M31)
    ensures Pow(x, 8589934585) == x
  {
    hide Mul, Pow;
    PowSucc(x, 8589934584);
    if x == 0 {
      MulUnits(Pow(x, 8589934584));
    } else {
      Fermat(x);
      PowMul(x, 0x7FFF_FFFE, 4);
      PowOne(4);
      MulUnits(x);
    }
  }

  /** The S-boxes are mutual inverses on the whole field. */
  lemma SboxesInvert(x: M31)
    ensures SboxInverse(Sbox(x)) == x && Sbox(SboxInverse(x)) == x
  {
    hide Mul, Pow, Sbox;
    SboxIsPower(x); SboxIsPower(SboxInverse(x));
    PowMul(x, 5, 1717986917);
    PowMul(x, 1717986917, 5);
    FifthRootPower(x);
  }

  // ---- linear layers ----

  /** The left-to-right sum of the first n entries. */
  function SumTo(s: seq<M31>, n: nat): M31
    requires n <= |s|
    decreases n
  {
    if n == 0 then 0 else Add(SumTo(s, n - 1), s[n - 1])
  }

  function IntSum(s: seq<int>): int { if |s| == 0 then 0 else IntSum(s[..|s| - 1]) + s[|s| - 1] }

  /** Sums of reduced integers are reduced sums. */
  lemma {:induction false} SumReduces(s: seq<M31>, v: seq<int>)
    requires |s| == |v| && forall i :: 0 <= i < |s| ==> s[i] == Red(v[i])
    ensures SumTo(s, |s|) == Red(IntSum(v))
    decreases |s|
  {
    hide Red;
    if |s| == 0 {
      RedId(0);
    } else {
      var n := |s| - 1;
      SumReduces(s[..n], v[..n]);
      SumPrefix(s, n);
      RedAdd(IntSum(v[..n]), v[n]);
    }
  }

  lemma {:induction false} SumPrefix(s: seq<M31>, n: nat)
    requires n <= |s|
    ensures SumTo(s[..n], n) == SumTo(s, n)
    decreases n
  {
    if n > 0 {
      SumPrefix(s, n - 1);
      SumPrefix(s[..n], n - 1);
      assert s[..n][..n - 1] == s[..n - 1];
    }
  }

  /** Sum of a x_i + c over the entries. */
  lemma {:induction false} AffineSum(v: seq<int>, w: seq<int>, a: int, c: int)
    requires |v| == |w| && forall i :: 0 <= i < |v| ==> w[i] == a * v[i] + c
    ensures IntSum(w) == a * IntSum(v) + |v| * c
    decreases |v|
  {
    if |v| == 0 {
      assert a * 0 == 0 && 0 * c == 0;
    } else {
      var n := |v| - 1;
      AffineSum(v[..n], w[..n], a, c);
      assert a * (IntSum(v[..n]) + v[n]) == a * IntSum(v[..n]) + a * v[n];
      assert |v| * c == n * c + c;
    }
  }

  function Affine(a: int, x: int, c: int): M31 { Red(a * x + c) }

  /** The sum after an affine map x -> a x + c of every entry. */
  lemma SumOfAffine(s: State, t: State, a: int, c: M31)
    requires forall i :: 0 <= i < 8 ==> t[i] == Affine(a, s[i], c)
    ensures SumTo(t, 8) == Add(Mul(Red(a), SumTo(s, 8)), Mul(8, c))
  {
    hide Red, Mul, Add, SumTo, IntSum;
    var v: seq<int> := s;
    var w := seq(8, i requires 0 <= i < 8 => a * v[i] + c);
    forall i | 0 <= i < 8 ensures s[i] == Red(v[i]) { RedId(s[i]); }
    SumReduces(s, v);
    SumReduces(t, w);
    AffineSum(v, w, a, c);
    RedMul(a, IntSum(v)); RedId(c); RedId(8);
    RedMul(8, c); RedAdd(a * IntSum(v), 8 * c);
  }

  /** m_ext: circ(3, 1, ..., 1). */
  function MExt(s: State): State {
    seq(8, i requires 0 <= i < 8 => Add(Add(s[i], s[i]), SumTo(s, 8)))
  }

  /** m_int: circ(2, 1, ..., 1). */
  function MInt(s: State): State {
    seq(8, i requires 0 <= i < 8 => Add(s[i], SumTo(s, 8)))
  }

  /** Entry (i, j) of the circulant matrix with d on the diagonal and 1 elsewhere. */
  function Circulant(d: int, i: nat, j: nat): int { if i == j then d else 1 }

  /** Row i of the circulant matrix times s. */
  function RowTimes(d: int, i: nat, s: State): int {
    IntSum(seq(8, j requires 0 <= j < 8 => Circulant(d, i, j) * s[j]))
  }

  /** A row sum is the plain sum and d - 1 times the diagonal entry. */
  lemma RowTimesIs(d: int, i: nat, s: State)
    requires i < 8
    ensures RowTimes(d, i, s) == (d - 1) * s[i] + IntSum(seq(8, j requires 0 <= j < 8 => s[j]))
  {
    hide IntSum;
    var w := seq(8, j requires 0 <= j < 8 => Circulant(d, i, j) * s[j]);
    var v: seq<int> := seq(8, j requires 0 <= j < 8 => s[j]);
    SumOfEight(w); SumOfEight(v);
    assert d * s[i] == (d - 1) * s[i] + s[i];
    assert forall j :: 0 <= j < 8 && j != i ==> w[j] == v[j];
  }

  lemma SumOfEight(v: seq<int>)
    requires |v| == 8
    ensures IntSum(v) == v[0] + v[1] + v[2] + v[3] + v[4] + v[5] + v[6] + v[7]
  {
    hide IntSum;
    assert IntSum(v[..0]) == 0 by { SumOfNone(); }
    SumSnoc(v, 0); SumSnoc(v, 1); SumSnoc(v, 2); SumSnoc(v, 3);
    SumSnoc(v, 4); SumSnoc(v, 5); SumSnoc(v, 6); SumSnoc(v, 7);
    assert v[..8] == v;
  }

  lemma SumOfNone()
    ensures IntSum([]) == 0
  {
  }

  lemma SumSnoc(v: seq<int>, n: nat)
    requires n < |v|
    ensures IntSum(v[..n + 1]) == IntSum(v[..n]) + v[n]
  {
    assert v[..n + 1][..n] == v[..n];
  }

  /** The linear layers are multiplication by circ(3, 1, ..., 1) and circ(2, 1, ..., 1). */
  lemma LayersAreCirculant(s: State, i: nat)
    requires i < 8
    ensures MExt(s)[i] == Red(RowTimes(3, i, s)) && MInt(s)[i] == Red(RowTimes(2, i, s))
  {
    hide Red, Add, SumTo, IntSum, RowTimes;
    var v: seq<int> := seq(8, j requires 0 <= j < 8 => s[j]);
    forall j | 0 <= j < 8 ensures s[j] == Red(v[j]) { RedId(s[j]); }
    SumReduces(s, v);
    RowTimesIs(3, i, s); RowTimesIs(2, i, s);
    var x: int := s[i];
    RedAdd(x, x); RedAdd(x + x, IntSum(v)); RedAdd(x, IntSum(v));
  }

  function MExtInverse(t: State): State {
    var c := Mul(SumTo(t, 8), Inverse(10));
    seq(8, i requires 0 <= i < 8 => Mul(Sub(t[i], c), Inverse(2)))
  }

  function MIntInverse(t: State): State {
    var c := Mul(SumTo(t, 8), Inverse(9));
    seq(8, i requires 0 <= i < 8 => Sub(t[i], c))
  }

  lemma AffineIs(a: int, x: int, c: int)
    ensures Affine(a, x, c) == Red(a * x + c)
  {
  }

  lemma MExtEntry(x: M31, c: M31)
    ensures Add(Add(x, x), c) == Affine(2, x, c)
    ensures Sub(Add(Add(x, x), c), c) == Mul(2, x)
  {
    hide *;
    RedHom(); RedId(x); RedId(c); RedId(2);
    AffineIs(2, x, c);
    assert x + x + c == 2 * x + c && x + x + c - c == 2 * x;
  }

  lemma Tenfold(c: M31)
    ensures Add(Mul(Red(2), c), Mul(8, c)) == Mul(10, c)
    ensures Add(Mul(Red(1), c), Mul(8, c)) == Mul(9, c)
  {
    hide *;
    RedHom(); RedId(c); RedId(2); RedId(8); RedId(10); RedId(1); RedId(9);
    assert 2 * c + 8 * c == 10 * c && 1 * c + 8 * c == 9 * c;
  }

  lemma DivideBack(k: M31, c: M31)
    requires k != 0
    ensures Mul(Mul(k, c), Inverse(k)) == c && Mul(k, Mul(c, Inverse(k))) == c
  {
    hide Mul, Inverse;
    InverseCorrect(k);
    MulComm(k, c); MulAssoc(c, k, Inverse(k)); MulUnits(c);
    MulComm(c, Inverse(k)); MulAssoc(k, Inverse(k), c);
  }

  lemma MExtUndone(s: State)
    ensures MExtInverse(MExt(s)) == s
  {
    hide Mul, Add, Sub, Red, Inverse, SumTo, Affine;
    var t, c := MExt(s), SumTo(s, 8);
    forall i | 0 <= i < 8 ensures t[i] == Affine(2, s[i], c) { MExtEntry(s[i], c); }
    SumOfAffine(s, t, 2, c);
    Tenfold(c);
    DivideBack(10, c);
    forall i | 0 <= i < 8 ensures MExtInverse(t)[i] == s[i] {
      MExtEntry(s[i], c);
      DivideBack(2, s[i]);
    }
  }

  /** The sum before the layer, recovered from the one after it. */
  lemma SumRecovered(t: State, s: State, a: M31, k: M31, c: M31)
    requires a != 0 && k != 0 && Add(Mul(Red(a), c), Mul(8, c)) == Mul(k, c)
    requires c == Mul(SumTo(t, 8), Inverse(k))
    requires forall i :: 0 <= i < 8 ==> t[i] == Affine(a, s[i], c)
    ensures SumTo(s, 8) == c
  {
    hide Mul, Add, Sub, Red, Inverse, SumTo, Affine;
    SumOfAffine(s, t, a, c);
    DivideBack(k, SumTo(t, 8));
    RedId(a);
    AddCancel(Mul(a, SumTo(s, 8)), Mul(a, c), Mul(8, c));
    Cancel(a, SumTo(s, 8), c);
  }

  lemma AddCancel(x: M31, y: M31, z: M31)
    requires Add(x, z) == Add(y, z)
    ensures x == y
  {
  }

  lemma MExtRedone(t: State)
    ensures MExt(MExtInverse(t)) == t
  {
    hide Mul, Add, Sub, Red, Inverse, SumTo, Affine;
    var s, c := MExtInverse(t), Mul(SumTo(t, 8), Inverse(10));
    forall i | 0 <= i < 8 ensures Add(Add(s[i], s[i]), c) == t[i] && t[i] == Affine(2, s[i], c) {
      MExtEntry(s[i], c);
      DivideBack(2, Sub(t[i], c));
      SubBack(Add(Add(s[i], s[i]), c), t[i], c);
    }
    Tenfold(c);
    SumRecovered(t, s, 2, 10, c);
  }

  lemma SubBack(x: M31, y: M31, c: M31)
    requires Sub(x, c) == Sub(y, c)
    ensures x == y
  {
  }

  lemma MIntEntry(x: M31, c: M31)
    ensures Add(x, c) == Affine(1, x, c) && Sub(Add(x, c), c) == x && Add(Sub(x, c), c) == x
  {
    hide *;
    RedHom(); RedId(x); RedId(c);
    AffineIs(1, x, c);
    assert 1 * x + c == x + c && x + c - c == x && x - c + c == x;
  }

  lemma MIntUndone(s: State)
    ensures MIntInverse(MInt(s)) == s
  {
    hide Mul, Add, Sub, Red, Inverse, SumTo, Affine;
    var t, c := MInt(s), SumTo(s, 8);
    forall i | 0 <= i < 8 ensures t[i] == Affine(1, s[i], c) && Sub(t[i], c) == s[i] { MIntEntry(s[i], c); }
    SumOfAffine(s, t, 1, c);
    Tenfold(c);
    DivideBack(9, c);
  }

  lemma MIntRedone(t: State)
    ensures MInt(MIntInverse(t)) == t
  {
    hide Mul, Add, Sub, Red, Inverse, SumTo, Affine;
    var s, c := MIntInverse(t), Mul(SumTo(t, 8), Inverse(9));
    forall i | 0 <= i < 8 ensures Add(s[i], c) == t[i] && t[i] == Affine(1, s[i], c) {
      MIntEntry(t[i], c); MIntEntry(s[i], c);
    }
    Tenfold(c);
    SumRecovered(t, s, 1, 9, c);
  }

  // ---- rounds ----

  datatype Constants = Constants(full: seq<State>, partial: seq<M31>)

  ghost predicate ValidConstants(rc: Constants) { |rc.full| == RF_BEFORE + RF_AFTER && |rc.partial| == RP }

  function Shifted(s: State, c: State): State { seq(8, i requires 0 <= i < 8 => Add(s[i], c[i])) }

  function SboxAll(s: State): State { seq(8, i requires 0 <= i < 8 => Sbox(s[i])) }

  function FullRound(s: State, c: State): State { MExt(SboxAll(Shifted(s, c))) }

  function PartialRound(s: State, c: M31): State { MInt(s[0 := Sbox(Add(s[0], c))]) }

  predicate IsPartial(r: nat) { RF_BEFORE <= r < RF_BEFORE + RP }

  /** Round r of 0..29: four full, twenty-two partial, four full. */
  function Round(rc: Constants, r: nat, s: State): State
    requires ValidConstants(rc) && r < NUM_ROUNDS
  {
    if IsPartial(r) then PartialRound(s, rc.partial[r - RF_BEFORE])
    else FullRound(s, rc.full[if r < RF_BEFORE then r else r - RP])
  }

  function FullRoundInverse(t: State, c: State): State {
    var u := MExtInverse(t);
    seq(8, i requires 0 <= i < 8 => Sub(SboxInverse(u[i]), c[i]))
  }

  function PartialRoundInverse(t: State, c: M31): State {
    var u := MIntInverse(t);
    u[0 := Sub(SboxInverse(u[0]), c)]
  }

  function RoundInverse(rc: Constants, r: nat, t: State): State
    requires ValidConstants(rc) && r < NUM_ROUNDS
  {
    if IsPartial(r) then PartialRoundInverse(t, rc.partial[r - RF_BEFORE])
    else FullRoundInverse(t, rc.full[if r < RF_BEFORE then r else r - RP])
  }

  lemma FullRoundInverts(s: State, c: State)
    ensures FullRoundInverse(FullRound(s, c), c) == s && FullRound(FullRoundInverse(s, c), c) == s
  {
    hide Add, Sub, Sbox, SboxInverse, MExt, MExtInverse;
    MExtUndone(SboxAll(Shifted(s, c)));
    var u, back := MExtInverse(s), FullRoundInverse(s, c);
    forall i | 0 <= i < 8
      ensures Sub(SboxInverse(SboxAll(Shifted(s, c))[i]), c[i]) == s[i]
      ensures SboxAll(Shifted(back, c))[i] == u[i]
    {
      SboxesInvert(Add(s[i], c[i])); MIntEntry(s[i], c[i]);
      SboxesInvert(u[i]); MIntEntry(SboxInverse(u[i]), c[i]);
    }
    assert SboxAll(Shifted(back, c)) == u;
    MExtRedone(s);
  }

  lemma PartialRoundInverts(s: State, c: M31)
    ensures PartialRoundInverse(PartialRound(s, c), c) == s && PartialRound(PartialRoundInverse(s, c), c) == s
  {
    hide Add, Sub, Sbox, SboxInverse, MInt, MIntInverse;
    MIntUndone(s[0 := Sbox(Add(s[0], c))]);
    SboxesInvert(Add(s[0], c)); MIntEntry(s[0], c);
    var u := MIntInverse(s);
    SboxesInvert(u[0]); MIntEntry(SboxInverse(u[0]), c);
    assert PartialRoundInverse(s, c)[0 := Sbox(Add(PartialRoundInverse(s, c)[0], c))] == u;
    MIntRedone(s);
  }

  lemma RoundInverts(rc: Constants, r: nat, s: State)
    requires ValidConstants(rc) && r < NUM_ROUNDS
    ensures RoundInverse(rc, r, Round(rc, r, s)) == s && Round(rc, r, RoundInverse(rc, r, s)) == s
  {
    hide FullRound, PartialRound, FullRoundInverse, PartialRoundInverse;
    if IsPartial(r) {
      PartialRoundInverts(s, rc.partial[r - RF_BEFORE]);
    } else {
      FullRoundInverts(s, rc.full[if r < RF_BEFORE then r else r - RP]);
    }
  }

  /** The state after rounds 0..n-1. */
  function AfterRounds(rc: Constants, s: State, n: nat): State
    requires ValidConstants(rc) && n <= NUM_ROUNDS
    decreases n
  {
    if n == 0 then s else Round(rc, n - 1, AfterRounds(rc, s, n - 1))
  }

  function BeforeRounds(rc: Constants, t: State, n: nat): State
    requires ValidConstants(rc) && n <= NUM_ROUNDS
    decreases n
  {
    if n == 0 then t else BeforeRounds(rc, RoundInverse(rc, n - 1, t), n - 1)
  }

  function Permutation(rc: Constants, s: State): State
    requires ValidConstants(rc)
  {
    AfterRounds(rc, s, NUM_ROUNDS)
  }

  /** All full rounds with these constants, in order. */
  function FullRounds(cs: seq<State>, s: State): State
    decreases |cs|
  {
    if |cs| == 0 then s else FullRound(FullRounds(cs[..|cs| - 1], s), cs[|cs| - 1])
  }

  function PartialRounds(cs: seq<M31>, s: State): State
    decreases |cs|
  {
    if |cs| == 0 then s else PartialRound(PartialRounds(cs[..|cs| - 1], s), cs[|cs| - 1])
  }

  lemma {:induction false} FirstPhase(rc: Constants, s: State, n: nat)
    requires ValidConstants(rc) && n <= RF_BEFORE
    ensures AfterRounds(rc, s, n) == FullRounds(rc.full[..n], s)
    decreases n
  {
    hide FullRound, PartialRound;
    if n > 0 {
      FirstPhase(rc, s, n - 1);
      assert rc.full[..n][..n - 1] == rc.full[..n - 1];
    }
  }

  lemma {:induction false} MiddlePhase(rc: Constants, s: State, n: nat)
    requires ValidConstants(rc) && n <= RP
    ensures AfterRounds(rc, s, RF_BEFORE + n) == PartialRounds(rc.partial[..n], FullRounds(rc.full[..RF_BEFORE], s))
    decreases n
  {
    hide FullRound, PartialRound, FullRounds;
    if n == 0 {
      FirstPhase(rc, s, RF_BEFORE);
    } else {
      MiddlePhase(rc, s, n - 1);
      assert rc.partial[..n][..n - 1] == rc.partial[..n - 1];
    }
  }

  lemma {:induction false} LastPhase(rc: Constants, s: State, n: nat)
    requires ValidConstants(rc) && n <= RF_AFTER
    ensures AfterRounds(rc, s, RF_BEFORE + RP + n)
         == FullRounds(rc.full[RF_BEFORE..RF_BEFORE + n], PartialRounds(rc.partial, FullRounds(rc.full[..RF_BEFORE], s)))
    decreases n
  {
    hide FullRound, PartialRound, PartialRounds;
    if n == 0 {
      MiddlePhase(rc, s, RP);
      assert rc.partial[..RP] == rc.partial;
    } else {
      LastPhase(rc, s, n - 1);
      var cs := rc.full[RF_BEFORE..RF_BEFORE + n];
      assert cs[..n - 1] == rc.full[RF_BEFORE..RF_BEFORE + n - 1] && cs[n - 1] == rc.full[RF_BEFORE + n - 1];
    }
  }

  /** Four full rounds, all partial rounds, four full rounds, each taking the next constants. */
  lemma PermutationInPhases(rc: Constants, s: State)
    requires |rc.full| == 8 && |rc.partial| == 22
    ensures Permutation(rc, s) == FullRounds(rc.full[4..], PartialRounds(rc.partial, FullRounds(rc.full[..4], s)))
  {
    hide AfterRounds, FullRounds, PartialRounds;
    LastPhase(rc, s, 4);
    assert rc.full[4..8] == rc.full[4..];
  }

  /** One full round by its formula: sums of (s_j + c_j)^5 with weight 3 on the diagonal and 1 elsewhere. */
  lemma FullRoundFormula(s: State, c: State, i: nat)
    requires i < 8
    ensures FullRound(s, c)[i] == Red(RowTimes(3, i, seq(8, j requires 0 <= j < 8 => Pow(Add(s[j], c[j]), 5))))
  {
    hide Add, Sbox, Pow, RowTimes, MExt, Red;
    var t := SboxAll(Shifted(s, c));
    var u := seq(8, j requires 0 <= j < 8 => Pow(Add(s[j], c[j]), 5));
    forall j | 0 <= j < 8 ensures t[j] == u[j] { SboxIsPower(Add(s[j], c[j])); }
    assert t == u;
    LayersAreCirculant(t, i);
  }

  /** One partial round: only the first entry gets its constant and its fifth power. */
  lemma PartialRoundFormula(s: State, c: M31, i: nat)
    requires i < 8
    ensures PartialRound(s, c)[i] == Red(RowTimes(2, i, s[0 := Pow(Add(s[0], c), 5)]))
  {
    hide Add, Sbox, Pow, RowTimes, MInt, Red;
    SboxIsPower(Add(s[0], c));
    LayersAreCirculant(s[0 := Sbox(Add(s[0], c))], i);
  }

  function PermutationInverse(rc: Constants, t: State): State
    requires ValidConstants(rc)
  {
    BeforeRounds(rc, t, NUM_ROUNDS)
  }

  lemma {:induction false} RoundsInvert(rc: Constants, s: State, n: nat)
    requires ValidConstants(rc) && n <= NUM_ROUNDS
    ensures BeforeRounds(rc, AfterRounds(rc, s, n), n) == s
    ensures AfterRounds(rc, BeforeRounds(rc, s, n), n) == s
    decreases n
  {
    hide Round, RoundInverse;
    if n > 0 {
      RoundInverts(rc, n - 1, AfterRounds(rc, s, n - 1));
      RoundsInvert(rc, s, n - 1);
      RoundsInvert(rc, RoundInverse(rc, n - 1, s), n - 1);
      RoundInverts(rc, n - 1, s);
    }
  }

  /** The permutation is a bijection, whatever the round constants. */
  lemma PermutationIsBijective(rc: Constants, s: State)
    requires ValidConstants(rc)
    ensures PermutationInverse(rc, Permutation(rc, s)) == s && Permutation(rc, PermutationInverse(rc, s)) == s
  {
    hide AfterRounds, BeforeRounds;
    RoundsInvert(rc, s, NUM_ROUNDS);
  }
}
