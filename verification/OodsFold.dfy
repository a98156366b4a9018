/**
 The folds that evaluate coefficients at an out-of-domain point: recursive halves,
 iterated adjacent pairs, and 2^16-element segments (src/oods.rs).
 */
module OodsFold {
  import opened Bits
  import opened M31Field
  import opened SecureField

  // ---- the recursive fold ----

  /** fold_qm31: split into halves, outermost factor first. */
  function Fold(values: seq<QM31>, factors: seq<QM31>): QM31
    requires |values| == Pow2(|factors|)
    decreases |factors|
  {
    if |factors| == 0 then values[0]
    else
      var half := |values| / 2;
      QAdd(Fold(values[..half], factors[1..]), QMul(factors[0], Fold(values[half..], factors[1..])))
  }

  /** One pass over adjacent pairs. */
  function PairUp(values: seq<QM31>, f: QM31): (r: seq<QM31>)
    ensures |r| == |values| / 2
  {
    seq(|values| / 2, i requires 0 <= i < |values| / 2 => QAdd(values[2 * i], QMul(f, values[2 * i + 1])))
  }

  /** The innermost factor can be applied first, to adjacent pairs. */
  lemma {:induction false} FoldOfPairs(values: seq<QM31>, factors: seq<QM31>)
    requires |factors| > 0 && |values| == Pow2(|factors|)
    ensures |PairUp(values, factors[|factors| - 1])| == Pow2(|factors| - 1)
    ensures Fold(values, factors) == Fold(PairUp(values, factors[|factors| - 1]), factors[..|factors| - 1])
    decreases |factors|
  {
    hide QAdd, QMul, PairUp;
    var k := |factors|;
    var f, half := factors[k - 1], |values| / 2;
    var paired := PairUp(values, f);
    if k == 1 {
      PairUpTwo(values, f);
      FoldOfOne(values[..1], factors[1..]); FoldOfOne(values[1..], factors[1..]);
      FoldOfOne(paired, factors[..0]);
    } else {
      var inner := factors[1..];
      assert inner[|inner| - 1] == f && inner[..|inner| - 1] == factors[..k - 1][1..];
      FoldOfPairs(values[..half], inner);
      FoldOfPairs(values[half..], inner);
      assert |values| == 2 * half && half == 2 * (half / 2);
      PairUpHalves(values, f, half / 2);
    }
  }

  lemma PairUpTwo(values: seq<QM31>, f: QM31)
    requires |values| == 2
    ensures PairUp(values, f) == [QAdd(values[..1][0], QMul(f, values[1..][0]))]
  {
    hide QAdd, QMul;
  }

  lemma PairUpHalves(values: seq<QM31>, f: QM31, q: nat)
    requires |values| == 4 * q
    ensures PairUp(values[..2 * q], f) == PairUp(values, f)[..q]
    ensures PairUp(values[2 * q..], f) == PairUp(values, f)[q..]
  {
    hide QAdd, QMul;
  }

  lemma FoldOfOne(values: seq<QM31>, factors: seq<QM31>)
    requires |factors| == 0 && |values| == 1
    ensures Fold(values, factors) == values[0]
  {
  }

  // ---- its meaning ----

  /** The product of the factors selected by the bits of i; the last factor belongs to bit 0. */
  function Weight(i: nat, factors: seq<QM31>): QM31
    decreases |factors|
  {
    if |factors| == 0 then QONE
    else
      var rest := Weight(i / 2, factors[..|factors| - 1]);
      if i % 2 == 1 then QMul(factors[|factors| - 1], rest) else rest
  }

  /** values_0 w_0 + ... + values_{n-1} w_{n-1}. */
  function WeightedSum(values: seq<QM31>, factors: seq<QM31>, n: nat): QM31
    requires n <= |values|
    decreases n
  {
    if n == 0 then QZERO
    else QAdd(WeightedSum(values, factors, n - 1), QMul(values[n - 1], Weight(n - 1, factors)))
  }

  lemma {:induction false} PairedSum(values: seq<QM31>, factors: seq<QM31>, n: nat)
    requires |factors| > 0 && 2 * n <= |values|
    ensures WeightedSum(values, factors, 2 * n)
         == WeightedSum(PairUp(values, factors[|factors| - 1]), factors[..|factors| - 1], n)
    decreases n
  {
    hide QAdd, QMul, Weight;
    if n > 0 {
      var f, outer := factors[|factors| - 1], factors[..|factors| - 1];
      PairedSum(values, factors, n - 1);
      var s := WeightedSum(values, factors, 2 * n - 2);
      var a, b := values[2 * n - 2], values[2 * n - 1];
      WeightOfPair(n - 1, factors);
      TwoTerms(s, a, b, f, Weight(n - 1, outer));
      assert WeightedSum(values, factors, 2 * n)
          == QAdd(WeightedSum(values, factors, 2 * n - 1), QMul(b, Weight(2 * n - 1, factors)));
      assert PairUp(values, f)[n - 1] == QAdd(a, QMul(f, b));
    }
  }

  lemma WeightOfPair(i: nat, factors: seq<QM31>)
    requires |factors| > 0
    ensures Weight(2 * i, factors) == Weight(i, factors[..|factors| - 1])
    ensures Weight(2 * i + 1, factors) == QMul(factors[|factors| - 1], Weight(i, factors[..|factors| - 1]))
  {
    hide *;
    WeightUnfold(2 * i, factors);
    WeightUnfold(2 * i + 1, factors);
    assert (2 * i) / 2 == i && (2 * i + 1) / 2 == i;
  }

  lemma WeightUnfold(i: nat, factors: seq<QM31>)
    requires |factors| > 0
    ensures var rest := Weight(i / 2, factors[..|factors| - 1]);
            Weight(i, factors) == if i % 2 == 1 then QMul(factors[|factors| - 1], rest) else rest
  {
    hide QMul;
  }

  lemma TwoTerms(s: QM31, a: QM31, b: QM31, f: QM31, w: QM31)
    ensures QAdd(QAdd(s, QMul(a, w)), QMul(b, QMul(f, w))) == QAdd(s, QMul(QAdd(a, QMul(f, b)), w))
  {
    hide *;
    QMulDistrib(w, a, QMul(f, b));
    QMulAssoc(b, f, w); QMulComm(b, f);
    QAddLaws(s, QMul(a, w), QMul(QMul(f, b), w));
  }

  /** Folding gives the sum of values_i times the factors selected by the bits of i. */
  lemma {:induction false} FoldIsWeightedSum(values: seq<QM31>, factors: seq<QM31>)
    requires |values| == Pow2(|factors|)
    ensures Fold(values, factors) == WeightedSum(values, factors, |values|)
    decreases |factors|
  {
    hide QAdd, QMul;
    if |factors| == 0 {
      QMulUnits(values[0]);
      QAddLaws(values[0], QZERO, QZERO);
      OneTerm(values, factors);
    } else {
      var f, outer := factors[|factors| - 1], factors[..|factors| - 1];
      FoldOfPairs(values, factors);
      FoldIsWeightedSum(PairUp(values, f), outer);
      PairedSum(values, factors, |values| / 2);
    }
  }

  lemma OneTerm(values: seq<QM31>, factors: seq<QM31>)
    requires |factors| == 0 && |values| == 1
    ensures WeightedSum(values, factors, 1) == QAdd(QZERO, QMul(values[0], QONE))
  {
    hide QAdd, QMul;
  }

  // ---- segments ----

  /** Segment j of 2^m values. */
  function Segment<T>(values: seq<T>, m: nat, j: nat): seq<T>
    requires Shl(j + 1, m) <= |values|
  {
    ShlSum(j, 1, m);
    values[Shl(j, m)..Shl(j + 1, m)]
  }

  lemma SegmentFits(m: nat, n: nat, j: nat)
    requires j < Pow2(n)
    ensures Shl(j + 1, m) <= Pow2(m + n)
    ensures Shl(j + 1, m) == Shl(j, m) + Pow2(m)
  {
    hide Shl, Pow2;
    ShlSum(j, 1, m); ShlOfOne(m);
    ShlSum(j + 1, Pow2(n) - (j + 1), m);
    ShlPow2(n, m);
  }

  /** The folds of all segments. */
  function Partials(values: seq<QM31>, inner: seq<QM31>, n: nat): (r: seq<QM31>)
    requires |values| == Pow2(|inner| + n)
    ensures |r| == Pow2(n)
  {
    seq(Pow2(n), j requires 0 <= j < Pow2(n) => SegmentFits(|inner|, n, j); Fold(Segment(values, |inner|, j), inner))
  }

  lemma PartialsOfHalf(values: seq<QM31>, inner: seq<QM31>, n: nat)
    requires n > 0 && |values| == Pow2(|inner| + n)
    ensures var half := |values| / 2;
            && half == Pow2(|inner| + n - 1) && 2 * half == |values|
            && Partials(values[..half], inner, n - 1) == Partials(values, inner, n)[..Pow2(n - 1)]
            && Partials(values[half..], inner, n - 1) == Partials(values, inner, n)[Pow2(n - 1)..]
  {
    hide Shl, Pow2, Fold;
    var m, half := |inner|, |values| / 2;
    Pow2Unfold(m + n); Pow2Unfold(n);
    ShlPow2(n - 1, m);
    var low, high, all := Partials(values[..half], inner, n - 1), Partials(values[half..], inner, n - 1), Partials(values, inner, n);
    forall j: nat | j < Pow2(n - 1) ensures low[j] == all[j] && high[j] == all[Pow2(n - 1)..][j] {
      SegmentOfHalf(values, m, n, j);
    }
    assert low == all[..Pow2(n - 1)] && high == all[Pow2(n - 1)..];
  }

  lemma SegmentOfHalf<T>(values: seq<T>, m: nat, n: nat, j: nat)
    requires n > 0 && |values| == Pow2(m + n) && j < Pow2(n - 1)
    ensures var half := Pow2(m + n - 1);
            && |values| == 2 * half && Shl(j + 1, m) <= half && Shl(j + Pow2(n - 1) + 1, m) <= |values|
            && Segment(values[..half], m, j) == Segment(values, m, j)
            && Segment(values[half..], m, j) == Segment(values, m, j + Pow2(n - 1))
  {
    hide Shl, Pow2;
    var half := Pow2(m + n - 1);
    Pow2Unfold(m + n); Pow2Unfold(n);
    ShlPow2(n - 1, m);
    SegmentFits(m, n - 1, j);
    SegmentFits(m, n, j);
    SegmentFits(m, n, j + Pow2(n - 1));
    ShlSum(j, Pow2(n - 1), m);
    assert values[..half][Shl(j, m)..Shl(j + 1, m)] == values[Shl(j, m)..Shl(j + 1, m)];
    assert values[half..][Shl(j, m)..Shl(j + 1, m)] == values[half + Shl(j, m)..half + Shl(j + 1, m)];
  }

  /** Folding segments with the inner factors and their results with the outer ones is one fold. */
  lemma {:induction false} SegmentedFold(values: seq<QM31>, outer: seq<QM31>, inner: seq<QM31>)
    requires |values| == Pow2(|inner| + |outer|)
    ensures Fold(values, outer + inner) == Fold(Partials(values, inner, |outer|), outer)
    decreases |outer|
  {
    hide QAdd, QMul, Shl, Pow2;
    if |outer| == 0 {
      OneSegment(values, inner);
      assert outer + inner == inner;
      assert Pow2(0) == 1 by { Pow2Table(); }
    } else {
      var half := |values| / 2;
      PartialsOfHalf(values, inner, |outer|);
      Pow2Unfold(|outer|);
      assert (outer + inner)[1..] == outer[1..] + inner;
      SegmentedFold(values[..half], outer[1..], inner);
      SegmentedFold(values[half..], outer[1..], inner);
    }
  }

  lemma OneSegment(values: seq<QM31>, inner: seq<QM31>)
    requires |values| == Pow2(|inner|)
    ensures Partials(values, inner, 0) == [Fold(values, inner)]
  {
    hide Fold, Shl;
    SegmentFits(|inner|, 0, 0);
    ShlOfOne(|inner|);
    assert Segment(values, |inner|, 0) == values;
  }

  // ---- the loops ----

  function Lifted(values: seq<M31>): (r: seq<QM31>)
    ensures |r| == |values|
  {
    seq(|values|, i requires 0 <= i < |values| => Embed(values[i]))
  }

  /** The passes after the first: one per remaining factor, innermost first. */
  method CollapsePairs(first: seq<QM31>, factors: seq<QM31>) returns (r: QM31)
    requires |first| == Pow2(|factors|)
    ensures r == Fold(first, factors)
  {
    hide PairUp, Pow2, Fold;
    var buf := first;
    var lvl := |factors|;
    assert factors[..lvl] == factors;
    while lvl > 0
      invariant 0 <= lvl <= |factors| && |buf| == Pow2(lvl)
      invariant Fold(buf, factors[..lvl]) == Fold(first, factors)
    {
      lvl := lvl - 1;
      FoldOfPairs(buf, factors[..lvl + 1]);
      assert factors[..lvl + 1][..lvl] == factors[..lvl];
      buf := PairUp(buf, factors[lvl]);
    }
    assert Pow2(0) == 1 by { Pow2Table(); }
    FoldOfOne(buf, factors[..0]);
    r := buf[0];
  }

  /** fold_qm31_seq */
  method FoldQm31Seq(values: seq<QM31>, factors: seq<QM31>) returns (r: QM31)
    requires |values| == Pow2(|factors|)
    ensures r == Fold(values, factors)
  {
    hide PairUp, Pow2, Fold;
    if |values| == 1 {
      SingleValue(|factors|);
      FoldOfOne(values, factors);
      return values[0];
    }
    var k := |factors|;
    if k == 0 { SingleValue(0); }
    FoldOfPairs(values, factors);
    r := CollapsePairs(PairUp(values, factors[k - 1]), factors[..k - 1]);
  }

  lemma SingleValue(k: nat)
    ensures Pow2(k) == 1 <==> k == 0
  {
  }

  /** fold_m31_seq: the first pass also lifts the values to the secure field. */
  method FoldM31Seq(values: seq<M31>, factors: seq<QM31>) returns (r: QM31)
    requires |values| == Pow2(|factors|)
    ensures r == Fold(Lifted(values), factors)
  {
    hide Pow2, Fold, QAdd, QMul, Embed;
    if |values| == 1 {
      SingleValue(|factors|);
      FoldOfOne(Lifted(values), factors);
      return Embed(values[0]);
    }
    var k := |factors|;
    SingleValue(k);
    FoldOfPairs(Lifted(values), factors);
    var buf := seq(|values| / 2, i requires 0 <= i < |values| / 2 =>
      QAdd(Embed(values[2 * i]), QMul(factors[k - 1], Embed(values[2 * i + 1]))));
    assert buf == PairUp(Lifted(values), factors[k - 1]);
    r := CollapsePairs(buf, factors[..k - 1]);
  }

  const SEGMENT_LOG: nat := 16

  /** fold_m31: sequential up to 2^16 values, segmented above. */
  method FoldM31(values: seq<M31>, factors: seq<QM31>) returns (r: QM31)
    requires |values| == Pow2(|factors|)
    ensures r == Fold(Lifted(values), factors)
  {
    hide Pow2, Fold, Embed, Shl;
    var k := |factors|;
    if |values| == 1 || k <= SEGMENT_LOG {
      r := FoldM31Seq(values, factors);
      return;
    }
    var inner, outer := factors[k - SEGMENT_LOG..], factors[..k - SEGMENT_LOG];
    assert outer + inner == factors;
    var partials := FoldSegments(values, inner, k - SEGMENT_LOG);
    SegmentedFold(Lifted(values), outer, inner);
    r := FoldQm31Seq(partials, outer);
  }

  method FoldSegments(values: seq<M31>, inner: seq<QM31>, n: nat) returns (partials: seq<QM31>)
    requires |values| == Pow2(|inner| + n)
    ensures partials == Partials(Lifted(values), inner, n)
  {
    hide Pow2, Fold, Embed, Shl;
    partials := [];
    for j := 0 to Pow2(n)
      invariant |partials| == j
      invariant forall i: nat :: i < j ==> partials[i] == Partials(Lifted(values), inner, n)[i]
    {
      SegmentFits(|inner|, n, j);
      var segment := Segment(values, |inner|, j);
      assert Lifted(segment) == Segment(Lifted(values), |inner|, j);
      var p := FoldM31Seq(segment, inner);
      partials := partials + [p];
    }
  }
}
