/**
 The first fold: from the circle domain to the line, and what it does to the pair of
 values at antipodal points (src/fri.rs, src/verifier.rs).
 */
module CircleFolding {
  import opened Bits
  import opened M31Field
  import opened CircleGroup
  import opened CircleOrder
  import opened CircleDomain
  import opened SecureField
  import opened FriFold

  /** The domain of the circle fold; the full group when the evaluation domain has 2^31 points. */
  function EvalDomain(logSize: nat): Coset
    requires logSize <= 31
  {
    if logSize <= 30 then HalfCoset(logSize) else Subgroup(logSize)
  }

  /** The circle fold of a whole column. */
  function CircleFold(e: seq<QM31>, alpha: QM31, logSize: nat): (r: seq<QM31>)
    requires 1 <= logSize <= 31 && |e| == Pow2(logSize)
    ensures |r| == Pow2(logSize - 1)
  {
    FoldLineCpu(e, alpha, CircleTwiddles(logSize))
  }

  function CircleTwiddles(logSize: nat): (t: seq<M31>)
    requires 1 <= logSize <= 31
    ensures |t| == Pow2(logSize - 1)
  {
    seq(Pow2(logSize - 1), i requires 0 <= i < Pow2(logSize - 1) => CircleTwiddle(logSize, i))
  }

  function CircleTwiddle(logSize: nat, i: nat): M31
    requires logSize <= 31
  {
    FoldTwiddleAt(EvalDomain(logSize), i, true)
  }

  /** The point of the even member of pair i. */
  function PairPoint(logSize: nat, i: nat): CirclePoint
    requires logSize <= 30
  {
    At(HalfCoset(logSize), BitRev(2 * i, logSize))
  }

  /** y is zero only at the identity and the half turn. */
  lemma GenYZero(e: int)
    requires GenAt(e).y == 0
    ensures e % 0x4000_0000 == 0
  {
    hide GenAt, Mul;
    var p := GenAt(e);
    GenDouble(e);
    GenOnCircle(e);
    MulUnits(p.x); MulUnits(0);
    GenAtZero();
    GenOrder(2 * e);
    assert PDouble(p) == IDENTITY;
  }

  /** Half the coset further is half a turn further. */
  lemma HalfCosetOpposite(logSize: nat, k: nat)
    requires 1 <= logSize <= 30
    ensures At(HalfCoset(logSize), k + Pow2(logSize - 1)) == Antipode(At(HalfCoset(logSize), k))
  {
    hide *;
    var h, m := Pow2(logSize - 1), 30 - logSize;
    HalfCosetAt(logSize, k); HalfCosetAt(logSize, k + h);
    ShlSum(1 + 2 * k, 2 * h, m);
    ShlQuadruple(h, m);
    ShlPow2(logSize - 1, m + 1);
    Pow2Table();
    GenAntipode(Shl(1 + 2 * k, m));
  }

  lemma HalfCosetOffAxis(logSize: nat, k: nat)
    requires 1 <= logSize <= 30
    ensures At(HalfCoset(logSize), k).y != 0
  {
    hide *;
    HalfCosetAt(logSize, k);
    OddBelow(k, logSize);
    if GenAt(Shl(1 + 2 * k, 30 - logSize)).y == 0 {
      GenYZero(Shl(1 + 2 * k, 30 - logSize));
    }
  }

  /** Both members of a pair are antipodal, off the x-axis. */
  lemma PairsAreAntipodal(logSize: nat, i: nat)
    requires 1 <= logSize <= 30 && i < Pow2(logSize - 1)
    ensures At(HalfCoset(logSize), BitRev(2 * i + 1, logSize)) == Antipode(PairPoint(logSize, i))
    ensures PairPoint(logSize, i).y != 0
  {
    hide At, HalfCoset, Antipode, Pow2, BitRev;
    PairIndices(logSize, i);
    HalfCosetOpposite(logSize, BitRev(i, logSize - 1));
    HalfCosetOffAxis(logSize, BitRev(i, logSize - 1));
  }

  /** An odd multiple of 2^(30 - logSize) is not a multiple of 2^30. */
  lemma OddBelow(k: nat, logSize: nat)
    requires 1 <= logSize <= 30
    ensures Shl(1 + 2 * k, 30 - logSize) % 0x4000_0000 != 0
  {
    hide Shl, Shr, Pow2;
    var m := 30 - logSize;
    MultipleOfHalfTurn(Shl(1 + 2 * k, m), 0);
    ShlZero(Shl(1 + 2 * k, m));
    var q := Shr(Shl(1 + 2 * k, m), 30);
    if Shl(1 + 2 * k, m) == Shl(q, 30) {
      ShlShl(q, logSize, m);
      ShlInjective(1 + 2 * k, Shl(q, logSize), m);
      ShlEven(q, logSize);
    }
  }

  lemma CircleFoldAt(e: seq<QM31>, alpha: QM31, logSize: nat, i: nat)
    requires 1 <= logSize <= 30 && |e| == Pow2(logSize) && i < Pow2(logSize - 1) && |e| == 2 * Pow2(logSize - 1)
    ensures CircleFold(e, alpha, logSize)[i] == FoldPair(e[2 * i], e[2 * i + 1], alpha, Inverse(PairPoint(logSize, i).y))
  {
    hide FoldPair, Inverse, At, HalfCoset, Pow2, BitRev;
    HalfCosetParts(logSize);
  }
}
