/**
 The index maps between half-coset order and bit-reversed canonic order
 (src/circle.rs, src/cairo_air/prover.rs), and the points they connect.
 */
module CanonicOrder {
  import opened Bits
  import opened CircleGroup
  import opened CircleOrder
  import opened CircleDomain
  import Words = Hashing

  const BLOWUP_BITS: nat := 2

  /** Half-coset position k to canonic position, for a domain of n points. */
  function ToCanonic(k: nat, n: nat): nat
    requires k < n
  {
    if k % 2 == 0 then k / 2 else n - 1 - k / 2
  }

  function FromCanonic(cn: nat, n: nat): nat
    requires cn < n
  {
    if cn < n / 2 then 2 * cn else 2 * (n - 1 - cn) + 1
  }

  lemma ToCanonicBijective(k: nat, n: nat)
    requires k < n && n % 2 == 0
    ensures ToCanonic(k, n) < n && FromCanonic(ToCanonic(k, n), n) == k
    ensures FromCanonic(k, n) < n && ToCanonic(FromCanonic(k, n), n) == k
  {
  }

  /** Coset::hc_natural_to_canonic_brt_index. */
  function CanonicBrtIndex(k: nat, logN: nat): nat
    requires k < Pow2(logN)
  {
    BitRev(ToCanonic(k, Pow2(logN)), logN)
  }

  function HalfCosetIndex(j: nat, logN: nat): nat
    requires 1 <= logN
  {
    BitRevBound(j, logN);
    FromCanonic(BitRev(j, logN), Pow2(logN))
  }

  /** The index map is a bijection of [0, 2^logN). */
  lemma CanonicBrtBijective(k: nat, logN: nat)
    requires 1 <= logN && k < Pow2(logN)
    ensures CanonicBrtIndex(k, logN) < Pow2(logN)
    ensures HalfCosetIndex(CanonicBrtIndex(k, logN), logN) == k
    ensures HalfCosetIndex(k, logN) < Pow2(logN)
    ensures CanonicBrtIndex(HalfCosetIndex(k, logN), logN) == k
  {
    hide BitRev;
    var n := Pow2(logN);
    assert n % 2 == 0;
    ToCanonicBijective(k, n);
    BitRevBound(ToCanonic(k, n), logN);
    BitRevInvolution(ToCanonic(k, n), logN);
    BitRevBound(k, logN);
    ToCanonicBijective(BitRev(k, logN), n);
    BitRevInvolution(k, logN);
  }

  /** Natural half-coset data, rearranged so that slot CanonicBrtIndex(k) holds data[k]. */
  function ToCanonicBrt<T>(data: seq<T>, logN: nat): seq<T>
    requires 1 <= logN && |data| == Pow2(logN)
  {
    seq(|data|, j requires 0 <= j < |data| => CanonicBrtBijective(j, logN); data[HalfCosetIndex(j, logN)])
  }

  function ToHalfCosetNatural<T>(data: seq<T>, logN: nat): seq<T>
    requires 1 <= logN && |data| == Pow2(logN)
  {
    seq(|data|, k requires 0 <= k < |data| => CanonicBrtBijective(k, logN); data[CanonicBrtIndex(k, logN)])
  }

  lemma PermutationsAreInverse<T>(data: seq<T>, logN: nat)
    requires 1 <= logN && |data| == Pow2(logN)
    ensures ToHalfCosetNatural(ToCanonicBrt(data, logN), logN) == data
    ensures ToCanonicBrt(ToHalfCosetNatural(data, logN), logN) == data
  {
    forall k | 0 <= k < |data|
      ensures ToHalfCosetNatural(ToCanonicBrt(data, logN), logN)[k] == data[k]
      ensures ToCanonicBrt(ToHalfCosetNatural(data, logN), logN)[k] == data[k]
    {
      CanonicBrtBijective(k, logN);
    }
  }

  /** Coset::permute_hc_natural_to_canonic_brt. */
  method PermuteHcNaturalToCanonicBrt(data: seq<Words.u32>, logN: nat) returns (out: seq<Words.u32>)
    requires 1 <= logN && |data| == Pow2(logN)
    ensures out == ToCanonicBrt(data, logN)
  {
    var n := Pow2(logN);
    out := seq(n, _ => 0);
    for k := 0 to n
      invariant |out| == n
      invariant forall i: nat :: i < k ==> CanonicBrtIndex(i, logN) < n && out[CanonicBrtIndex(i, logN)] == data[i]
    {
      var cn := if k % 2 == 0 then k / 2 else n - 1 - k / 2;
      var j := BitReverse(cn, logN);
      CanonicBrtBijective(k, logN);
      forall i: nat | i < k ensures CanonicBrtIndex(i, logN) != j { CanonicBrtBijective(i, logN); }
      out := out[j := data[k]];
    }
    forall j: nat | j < n ensures out[j] == ToCanonicBrt(data, logN)[j] {
      CanonicBrtBijective(j, logN);
    }
  }

  /** Coset::permute_canonic_brt_to_hc_natural. */
  method PermuteCanonicBrtToHcNatural(data: seq<Words.u32>, logN: nat) returns (out: seq<Words.u32>)
    requires 1 <= logN && |data| == Pow2(logN)
    ensures out == ToHalfCosetNatural(data, logN)
  {
    var n := Pow2(logN);
    out := seq(n, _ => 0);
    for k := 0 to n
      invariant |out| == n
      invariant forall i: nat :: i < k ==> out[i] == ToHalfCosetNatural(data, logN)[i]
    {
      var cn := if k % 2 == 0 then k / 2 else n - 1 - k / 2;
      var j := BitReverse(cn, logN);
      CanonicBrtBijective(k, logN);
      out := out[k := data[j]];
    }
  }

  /** Bit-reversed half-coset index to bit-reversed canonic index. */
  function BrtToCanonicBrt(i: nat, logN: nat): nat {
    BitRevBound(i, logN);
    CanonicBrtIndex(BitRev(i, logN), logN)
  }

  lemma BrtToCanonicInjective(i: nat, a: nat, logN: nat)
    requires 1 <= logN && i < Pow2(logN) && a < Pow2(logN) && i != a
    ensures BrtToCanonicBrt(i, logN) != BrtToCanonicBrt(a, logN)
  {
    hide BitRev, CanonicBrtIndex, HalfCosetIndex, Pow2;
    BitRevBound(i, logN); BitRevBound(a, logN);
    CanonicBrtBijective(BitRev(i, logN), logN); CanonicBrtBijective(BitRev(a, logN), logN);
    BitRevInvolution(i, logN); BitRevInvolution(a, logN);
  }

  lemma BrtToCanonicOnto(j: nat, logN: nat) returns (i: nat)
    requires 1 <= logN && j < Pow2(logN)
    ensures i < Pow2(logN) && BrtToCanonicBrt(i, logN) == j && i == BitRev(HalfCosetIndex(j, logN), logN)
  {
    hide BitRev, CanonicBrtIndex, HalfCosetIndex, Pow2;
    CanonicBrtBijective(j, logN);
    var k := HalfCosetIndex(j, logN);
    BitRevBound(k, logN);
    BitRevInvolution(k, logN);
    i := BitRev(k, logN);
  }

  /** Coset::permute_half_coset_to_canonic: the same map, on bit-reversed half-coset data. */
  method PermuteHalfCosetToCanonic(data: seq<Words.u32>, logN: nat) returns (out: seq<Words.u32>)
    requires 1 <= logN && |data| == Pow2(logN)
    ensures out == ToCanonicBrt(BitRevPermuted(data, logN), logN)
  {
    hide BitRev, CanonicBrtIndex, HalfCosetIndex, Pow2, BrtToCanonicBrt;
    var n := Pow2(logN);
    out := seq(n, _ => 0);
    for i := 0 to n
      invariant |out| == n
      invariant forall a: nat :: a < i ==> BrtToCanonicBrt(a, logN) < n
      invariant forall a: nat :: a < i ==> out[BrtToCanonicBrt(a, logN)] == data[a]
    {
      var k := BitReverse(i, logN);
      BitRevBound(i, logN);
      var cn := if k % 2 == 0 then k / 2 else n - 1 - k / 2;
      var j := BitReverse(cn, logN);
      BrtToCanonicIs(i, k, cn, logN);
      forall a: nat | a < i ensures BrtToCanonicBrt(a, logN) != j { BrtToCanonicInjective(i, a, logN); }
      out := out[j := data[i]];
    }
    forall j: nat | j < n ensures out[j] == ToCanonicBrt(BitRevPermuted(data, logN), logN)[j] {
      CanonicBrtBijective(j, logN);
      var i := BrtToCanonicOnto(j, logN);
    }
  }

  lemma BrtToCanonicIs(i: nat, k: nat, cn: nat, logN: nat)
    requires 1 <= logN && i < Pow2(logN) && k == BitRev(i, logN) && k < Pow2(logN)
    requires cn == if k % 2 == 0 then k / 2 else Pow2(logN) - 1 - k / 2
    ensures BrtToCanonicBrt(i, logN) == BitRev(cn, logN) < Pow2(logN)
  {
    hide BitRev, Pow2;
    BitRevBound(cn, logN);
  }

  // ---- the points behind the indices ----

  /** canonic_domain_point: half odds, followed by their conjugates. */
  function CanonicPoint(j: nat, logN: nat): CirclePoint
    requires 1 <= logN <= 30
  {
    var half := Pow2(logN - 1);
    if j < half then At(HalfOdds(logN - 1), j) else Conjugate(At(HalfOdds(logN - 1), j - half))
  }

  /** ToCanonic sends each half-coset position to the same point of the circle. */
  lemma CanonicOrderIsGeometric(k: nat, logN: nat)
    requires 1 <= logN <= 30 && k < Pow2(logN)
    ensures CanonicPoint(ToCanonic(k, Pow2(logN)), logN) == At(HalfCoset(logN), k)
  {
    hide GenAt, PMul, PPow, Conjugate, At, HalfOdds, HalfCoset, Shl;
    var half := Pow2(logN - 1);
    assert Pow2(logN) == 2 * half;
    if k % 2 == 0 {
      HalfCosetAt(logN, k);
      HalfOddsAt(logN - 1, k / 2);
    } else {
      ConjugateAt(k, half - 1 - k / 2, logN);
    }
  }

  lemma ConjugateAt(k: nat, i: nat, logN: nat)
    requires 1 <= logN <= 30 && 1 + 2 * k + (1 + 4 * i) == Pow2(logN + 1)
    ensures Conjugate(At(HalfOdds(logN - 1), i)) == At(HalfCoset(logN), k)
  {
    hide GenAt, PMul, PPow, Conjugate, At, HalfOdds, HalfCoset, Shl, Pow2;
    var m := 30 - logN;
    HalfCosetAt(logN, k);
    HalfOddsAt(logN - 1, i);
    var e: int := Shl(1 + 4 * i, m);
    GenNeg(e);
    ShlSum(1 + 2 * k, 1 + 4 * i, m);
    ShlPow2(logN + 1, m);
    Pow2Table();
    GenAtCongruent(-e, Shl(1 + 2 * k, m));
  }

  /** canonic_next: one trace step ahead, from a bit-reversed canonic index. */
  function CanonicNext(qi: nat, logN: nat): nat
    requires 1 <= logN
  {
    var n := Pow2(logN);
    var k := HalfCosetIndex(qi, logN);
    var kNext := (k + 4) % n;
    CanonicBrtIndex(kNext, logN)
  }

  lemma CanonicNextInRange(qi: nat, logN: nat)
    requires 1 <= logN
    ensures CanonicNext(qi, logN) < Pow2(logN)
  {
    var kNext := (HalfCosetIndex(qi, logN) + 4) % Pow2(logN);
    CanonicBrtBijective(kNext, logN);
  }

  /** The point at canonic_next(qi) is the point at qi times the trace-domain step. */
  lemma CanonicNextAdvancesOneTraceStep(qi: nat, logN: nat)
    requires 2 <= logN <= 30 && qi < Pow2(logN)
    ensures CanonicPoint(BitRev(CanonicNext(qi, logN), logN), logN)
         == PMul(CanonicPoint(BitRev(qi, logN), logN), HalfCoset(logN - BLOWUP_BITS).step)
  {
    hide GenAt, PMul, PPow, Conjugate, At, Shl, CanonicPoint, Pow2, BitRev;
    var n := Pow2(logN);
    var k := HalfCosetIndex(qi, logN);
    CanonicBrtBijective(qi, logN);
    var kNext := (k + 4) % n;
    CanonicBrtBijective(kNext, logN);
    Pow2Monotone(2, logN); Pow2OfTwo();
    WrapOnce(k, n);
    NextAt(k, kNext, logN);
    CanonicOrderIsGeometric(k, logN);
    CanonicOrderIsGeometric(kNext, logN);
    BitRevCanonic(kNext, logN);
    BitRevCanonic(k, logN);
  }

  lemma BitRevCanonic(k: nat, logN: nat)
    requires 1 <= logN && k < Pow2(logN)
    ensures BitRev(CanonicBrtIndex(k, logN), logN) == ToCanonic(k, Pow2(logN))
  {
    hide BitRev;
    assert Pow2(logN) % 2 == 0;
    ToCanonicBijective(k, Pow2(logN));
    BitRevInvolution(ToCanonic(k, Pow2(logN)), logN);
  }

  /** Advancing a half-coset index by 4, cyclically, multiplies by step^4. */
  lemma NextAt(k: nat, kNext: nat, logN: nat)
    requires 2 <= logN <= 30 && k < Pow2(logN)
    requires kNext == if k + 4 < Pow2(logN) then k + 4 else k + 4 - Pow2(logN)
    ensures At(HalfCoset(logN), kNext) == PMul(At(HalfCoset(logN), k), HalfCoset(logN - 2).step)
  {
    hide GenAt, PMul, PPow, At, Shl, Pow2, HalfCoset;
    var n, m := Pow2(logN), 30 - logN;
    HalfCosetAt(logN, k); HalfCosetAt(logN, kNext);
    assert HalfCoset(logN - 2).step == PPow(GENERATOR, Pow2(m + 3)) by { HalfCosetParts(logN - 2); }
    GenAtNat(Pow2(m + 3));
    GenAdd(Shl(1 + 2 * k, m), Pow2(m + 3));
    ShlSum(1 + 2 * k, 8, m);
    assert Shl(8, m) == Pow2(m + 3) by { Pow2Table(); ShlPow2(3, m); }
    if k + 4 >= n {
      ShlSum(1 + 2 * kNext, 2 * n, m);
      assert Shl(2 * n, m) == 0x8000_0000 by { ShlPow2(logN + 1, m); Pow2Unfold(logN + 1); Pow2Table(); }
      GenAtCongruent(Shl(1 + 2 * k, m) + Pow2(m + 3), Shl(1 + 2 * kNext, m));
    }
  }

  lemma WrapOnce(k: nat, n: nat)
    requires k < n && 4 <= n
    ensures (k + 4) % n == if k + 4 < n then k + 4 else k + 4 - n
  {
  }

  lemma Pow2OfTwo()
    ensures Pow2(2) == 4
  {
  }
}
