/**
 The last FRI layer: interpolation of its bit-reversed evaluations, truncation,
 and evaluation at a queried index (src/fri.rs).
 */
module LastLayer {
  import opened Bits
  import opened M31Field
  import opened MersennePrime
  import opened SecureField
  import opened LinePoly
  import opened LineIfft

  const LOG_LAST_LAYER_DEGREE_BOUND: nat := 3

  function Ilog2(n: nat): nat
    requires n >= 1
  {
    if n == 1 then 0 else 1 + Ilog2(n / 2)
  }

  lemma {:induction false} Ilog2OfPow2(k: nat)
    ensures Ilog2(Pow2(k)) == k
  {
    if k > 0 { Ilog2OfPow2(k - 1); }
  }

  /** e lists the values of c over the half-odds domain, in bit-reversed order. */
  ghost predicate HoldsBrt(e: seq<QM31>, c: seq<QM31>, logSize: nat)
    requires logSize <= 30
  {
    && |e| == Pow2(logSize)
    && forall j: nat :: j < |e| ==> e[j] == LineEval(c, DomainX(logSize, BitRev(j, logSize)))
  }

  /** All the coefficients of the polynomial through bit-reversed evaluations e. */
  function Coefficients(e: seq<QM31>, logSize: nat): (c: seq<QM31>)
    requires logSize <= 30 && |e| == Pow2(logSize)
    ensures |c| == |e|
  {
    BitRevPermuted(Scaled(Ifft(BitRevPermuted(e, logSize), logSize), Inverse(SizeElement(logSize))), logSize)
  }

  lemma ScaledBack(c: seq<QM31>, logSize: nat)
    requires logSize <= 29
    ensures Scaled(Scaled(c, SizeElement(logSize)), Inverse(SizeElement(logSize))) == c
  {
    hide QScale, Mul, Inverse, SizeElement;
    var s := SizeElement(logSize);
    SizeElementFacts(logSize);
    InverseCorrect(s);
    forall i: nat | i < |c| ensures QScale(QScale(c[i], s), Inverse(s)) == c[i] {
      QScaleLaws(c[i], c[i], s, Inverse(s));
    }
  }

  lemma NaturalIffBrt(e: seq<QM31>, c: seq<QM31>, logSize: nat)
    requires logSize <= 30 && |e| == Pow2(logSize)
    ensures HoldsBrt(e, c, logSize) <==> HoldsNatural(BitRevPermuted(e, logSize), c, logSize)
  {
    hide LineEval, DomainX, BitRev;
    var n := BitRevPermuted(e, logSize);
    if HoldsBrt(e, c, logSize) {
      forall i: nat | i < |e| ensures n[i] == LineEval(c, DomainX(logSize, i)) {
        BitRevBound(i, logSize); BitRevInvolution(i, logSize);
      }
    }
    if HoldsNatural(n, c, logSize) {
      forall j: nat | j < |e| ensures e[j] == LineEval(c, DomainX(logSize, BitRev(j, logSize))) {
        BitRevBound(j, logSize); BitRevInvolution(j, logSize);
        assert n[BitRev(j, logSize)] == e[j];
      }
    }
  }

  /** Interpolation recovers the coefficients of every polynomial from its evaluations. */
  lemma EvaluateThenInterpolate(e: seq<QM31>, c: seq<QM31>, logSize: nat)
    requires logSize <= 29 && |c| == Pow2(logSize) && HoldsBrt(e, c, logSize)
    ensures Coefficients(e, logSize) == c
  {
    hide LineEval, DomainX, BitRev, Ifft, SizeElement, Inverse, QScale, BitRevPermuted;
    NaturalIffBrt(e, c, logSize);
    PermutedLength(e, logSize);
    IfftOfValues(BitRevPermuted(e, logSize), c, logSize);
    PermutedLength(c, logSize);
    ScaledBack(BitRevPermuted(c, logSize), logSize);
    BitRevPermutedTwice(c, logSize);
  }

  lemma PermutedLength<T>(s: seq<T>, k: nat)
    requires |s| == Pow2(k)
    ensures |BitRevPermuted(s, k)| == |s|
  {
  }

  lemma {:induction false} FoldEvalScaled(c: seq<QM31>, m: M31, ds: seq<M31>)
    requires |c| == Pow2(|ds|)
    ensures FoldEval(Scaled(c, m), ds) == QScale(FoldEval(c, ds), m)
    decreases |ds|
  {
    hide QAdd, QScale;
    if |ds| > 0 {
      var h := |c| / 2;
      FoldEvalScaled(c[..h], m, ds[1..]);
      FoldEvalScaled(c[h..], m, ds[1..]);
      assert Scaled(c, m)[..h] == Scaled(c[..h], m);
      assert Scaled(c, m)[h..] == Scaled(c[h..], m);
      ScaleOut(FoldEval(c[..h], ds[1..]), FoldEval(c[h..], ds[1..]), m, ds[0]);
    }
  }

  /** The interpolated polynomial takes the given value at every domain point. */
  lemma InterpolateThenEvaluate(e: seq<QM31>, logSize: nat)
    requires logSize <= 29 && |e| == Pow2(logSize)
    ensures HoldsBrt(e, Coefficients(e, logSize), logSize)
  {
    hide LineEval, DomainX, BitRev, Ifft, SizeElement, Inverse, QScale, FoldEval, Doublings, BitRevPermuted;
    var n := BitRevPermuted(e, logSize);
    PermutedLength(e, logSize);
    var s := SizeElement(logSize);
    var b := Scaled(Ifft(n, logSize), Inverse(s));
    var c := Coefficients(e, logSize);
    forall i: nat | i < |n| ensures n[i] == LineEval(c, DomainX(logSize, i)) {
      var x := DomainX(logSize, i);
      EvalOfIfft(n, logSize, i);
      var ds := Doublings(x, logSize);
      FoldEvalScaled(Ifft(n, logSize), Inverse(s), ds);
      BitRevPermutedTwice(b, logSize);
      FoldEvalIsLineEval(c, logSize, x);
      UnscaleValue(n[i], logSize);
    }
    NaturalIffBrt(e, c, logSize);
  }

  lemma UnscaleValue(z: QM31, logSize: nat)
    requires logSize <= 29
    ensures QScale(QScale(z, SizeElement(logSize)), Inverse(SizeElement(logSize))) == z
  {
    hide QScale;
    ScaledBack([z], logSize);
    assert Scaled(Scaled([z], SizeElement(logSize)), Inverse(SizeElement(logSize)))[0]
        == QScale(QScale(z, SizeElement(logSize)), Inverse(SizeElement(logSize)));
  }

  // ---- truncation ----

  function Zeros(n: nat): seq<QM31> { seq(n, _ => QZERO) }

  lemma BasisSumSnoc(c: seq<QM31>, z: QM31, x: M31)
    ensures BasisSum(c + [z], x) == QAdd(BasisSum(c, x), QScale(z, Basis(|c|, x)))
  {
    hide QAdd, QScale, Basis;
    assert (c + [z])[..|c|] == c;
  }

  lemma {:induction false} TrailingZerosDoNotMatter(c: seq<QM31>, n: nat, x: M31)
    ensures BasisSum(c + Zeros(n), x) == BasisSum(c, x)
    decreases n
  {
    hide QAdd, QScale, Basis, BasisSum;
    if n == 0 {
      assert c + Zeros(0) == c;
    } else {
      TrailingZerosDoNotMatter(c, n - 1, x);
      var d := c + Zeros(n - 1);
      assert c + Zeros(n) == d + [QZERO];
      BasisSumSnoc(d, QZERO, x);
      QScaleLaws(QZERO, QZERO, Basis(|d|, x), 0);
      QAddLaws(BasisSum(c, x), QZERO, QZERO);
    }
  }

  lemma PaddedEval(c: seq<QM31>, j: nat, k: nat, x: M31)
    requires |c| == Pow2(j) && j <= k
    ensures Pow2(k) >= Pow2(j) && LineEval(c + Zeros(Pow2(k) - Pow2(j)), x) == LineEval(c, x)
  {
    Pow2Monotone(j, k);
    var n: nat := Pow2(k) - Pow2(j);
    LineEvalIsBasisSum(c + Zeros(n), k, x);
    LineEvalIsBasisSum(c, j, x);
    TrailingZerosDoNotMatter(c, n, x);
  }

  /** Keeping 8 coefficients reproduces every evaluation exactly when the dropped ones are zero. */
  lemma TruncationExactIff(e: seq<QM31>, logSize: nat)
    requires LOG_LAST_LAYER_DEGREE_BOUND <= logSize <= 29 && |e| == Pow2(logSize)
    ensures |e| >= 8
    ensures HoldsBrt(e, Coefficients(e, logSize)[..8], logSize)
       <==> forall k: nat :: 8 <= k < |e| ==> Coefficients(e, logSize)[k] == QZERO
  {
    hide LineEval, DomainX, BitRev, Coefficients;
    Pow2Monotone(3, logSize);
    assert Pow2(3) == 8 by { Pow2Table(); }
    var c := Coefficients(e, logSize);
    var t := c[..8];
    var pad := t + Zeros(|e| - 8);
    forall x: M31 ensures LineEval(pad, x) == LineEval(t, x) {
      PaddedEval(t, 3, logSize, x);
    }
    if HoldsBrt(e, t, logSize) {
      assert HoldsBrt(e, pad, logSize);
      EvaluateThenInterpolate(e, pad, logSize);
      assert forall k: nat :: 8 <= k < |e| ==> c[k] == pad[k];
    }
    if forall k: nat :: 8 <= k < |e| ==> c[k] == QZERO {
      assert c == pad;
      InterpolateThenEvaluate(e, logSize);
    }
  }

  // ---- the in-place algorithms ----

  /** bit_reverse_qm31. */
  method BitReverseInPlace(v: array<QM31>, logN: nat)
    requires v.Length == Pow2(logN)
    modifies v
    ensures v[..] == BitRevPermuted(old(v[..]), logN)
  {
    hide BitRev, Pow2;
    var n := v.Length;
    forall k: nat | k < n ensures BitRev(k, logN) < n { BitRevBound(k, logN); }
    for i := 0 to n
      invariant forall k: nat :: k < n ==> BitRev(k, logN) < n
      invariant forall k: nat :: k < n ==>
        v[k] == if k < i || BitRev(k, logN) < i then old(v[BitRev(k, logN)]) else old(v[k])
    {
      var j := BitReverse(i, logN);
      forall k: nat | k < n ensures BitRev(k, logN) < n && BitRev(BitRev(k, logN), logN) == k {
        BitRevBound(k, logN); BitRevInvolution(k, logN);
      }
      if i < j {
        v[i], v[j] := v[j], v[i];
      }
    }
  }
}
