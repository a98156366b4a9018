/**
 Polynomials over the line domain in the basis 1, x, 2x^2-1, x(2x^2-1), ...
 and their interpolation on half-odds domains (src/fri.rs).
 */
module LinePoly {
  import opened Bits
  import opened M31Field
  import opened CircleGroup
  import opened SecureField

  // ---- meaning: a sum over the basis ----

  /** phi_j: the product of the iterated doublings of x selected by the bits of j. */
  function Basis(j: nat, x: M31): M31
    decreases j
  {
    if j == 0 then 1
    else if j % 2 == 1 then Mul(x, Basis(j / 2, DoubleX(x)))
    else Basis(j / 2, DoubleX(x))
  }

  /** c_0 phi_0(x) + ... + c_{n-1} phi_{n-1}(x). */
  function BasisSum(c: seq<QM31>, x: M31): QM31 {
    if |c| == 0 then QZERO
    else QAdd(BasisSum(c[..|c| - 1], x), QScale(c[|c| - 1], Basis(|c| - 1, x)))
  }

  function Even<T>(c: seq<T>): seq<T>
    requires |c| % 2 == 0
  {
    seq(|c| / 2, i requires 0 <= i < |c| / 2 => c[2 * i])
  }

  function Odd<T>(c: seq<T>): seq<T>
    requires |c| % 2 == 0
  {
    seq(|c| / 2, i requires 0 <= i < |c| / 2 => c[2 * i + 1])
  }

  /** Split by parity of the index: f(x) = f0(2x^2-1) + x f1(2x^2-1). */
  function LineEval(c: seq<QM31>, x: M31): QM31
    decreases |c|
  {
    if |c| == 0 then QZERO
    else if |c| == 1 then c[0]
    else if |c| % 2 == 1 then QZERO
    else QAdd(LineEval(Even(c), DoubleX(x)), QScale(LineEval(Odd(c), DoubleX(x)), x))
  }

  lemma BasisParity(i: nat, x: M31)
    ensures Basis(2 * i, x) == Basis(i, DoubleX(x))
    ensures Basis(2 * i + 1, x) == Mul(Basis(i, DoubleX(x)), x)
  {
    hide Mul, DoubleX;
    MulComm(x, Basis(i, DoubleX(x)));
    if i == 0 {
      assert (2 * i + 1) / 2 == 0;
    }
  }

  /** The parity split of the basis sum. */
  lemma {:induction false} BasisSumParity(c: seq<QM31>, x: M31)
    requires |c| % 2 == 0
    ensures BasisSum(c, x) == QAdd(BasisSum(Even(c), DoubleX(x)), QScale(BasisSum(Odd(c), DoubleX(x)), x))
    decreases |c|
  {
    hide QAdd, QScale, DoubleX, Mul, Basis;
    var y := DoubleX(x);
    if |c| == 0 {
      QScaleLaws(QZERO, QZERO, x, x);
      QAddLaws(QZERO, QZERO, QZERO);
    } else {
      var h := |c| / 2 - 1;
      var d := c[..|c| - 2];
      BasisSumParity(d, x);
      assert Even(c)[..h] == Even(d) && Odd(c)[..h] == Odd(d);
      assert c[..|c| - 1][..|c| - 2] == d;
      BasisParity(h, x);
      var a, b := BasisSum(Even(d), y), BasisSum(Odd(d), y);
      var p, q := QScale(c[2 * h], Basis(h, y)), QScale(c[2 * h + 1], Basis(h, y));
      QScaleLaws(b, q, x, x);
      QScaleLaws(c[2 * h + 1], c[2 * h + 1], Basis(h, y), x);
      QAddSwap(a, QScale(b, x), p, QScale(q, x));
      QAddLaws(QAdd(a, QScale(b, x)), p, QScale(q, x));
    }
  }

  /** Evaluation by parity splitting is the basis sum. */
  lemma {:induction false} LineEvalIsBasisSum(c: seq<QM31>, k: nat, x: M31)
    requires |c| == Pow2(k)
    ensures LineEval(c, x) == BasisSum(c, x)
    decreases k
  {
    hide QAdd, QScale, DoubleX;
    if k == 0 {
      QScaleLaws(c[0], c[0], 1, 1);
      QAddLaws(QZERO, c[0], c[0]);
      assert c[..0] == [];
      assert Basis(0, x) == 1;
    } else {
      BasisSumParity(c, x);
      LineEvalIsBasisSum(Even(c), k - 1, DoubleX(x));
      LineEvalIsBasisSum(Odd(c), k - 1, DoubleX(x));
    }
  }

  // ---- the evaluator of the source: bit-reversed coefficients, list of doublings ----

  function Doublings(x: M31, n: nat): seq<M31>
    decreases n
  {
    if n == 0 then [] else [x] + Doublings(DoubleX(x), n - 1)
  }

  /** The inner fold_eval. */
  function FoldEval(brt: seq<QM31>, doublings: seq<M31>): QM31
    requires |brt| == Pow2(|doublings|)
    decreases |doublings|
  {
    if |doublings| == 0 then brt[0]
    else
      var half := |brt| / 2;
      QAdd(FoldEval(brt[..half], doublings[1..]), QScale(FoldEval(brt[half..], doublings[1..]), doublings[0]))
  }

  lemma BitRevPermutedHalves<T>(c: seq<T>, k: nat)
    requires k >= 1 && |c| == Pow2(k)
    ensures BitRevPermuted(c, k)[..Pow2(k - 1)] == BitRevPermuted(Even(c), k - 1)
    ensures BitRevPermuted(c, k)[Pow2(k - 1)..] == BitRevPermuted(Odd(c), k - 1)
  {
    hide BitRev, Pow2, Shl;
    Pow2Unfold(k);
    var h := Pow2(k - 1);
    forall i: nat | i < h
      ensures BitRevPermuted(c, k)[..h][i] == BitRevPermuted(Even(c), k - 1)[i]
      ensures BitRevPermuted(c, k)[h..][i] == BitRevPermuted(Odd(c), k - 1)[i]
    {
      BitRevHalves(i, k);
    }
  }

  lemma BitRevHalves(i: nat, k: nat)
    requires k >= 1 && i < Pow2(k - 1)
    ensures BitRev(i, k) == 2 * BitRev(i, k - 1)
    ensures BitRev(i + Pow2(k - 1), k) == 2 * BitRev(i, k - 1) + 1
    ensures BitRev(i, k - 1) < Pow2(k - 1)
  {
    hide BitRev, Pow2, Shl;
    var h := Pow2(k - 1);
    BitRevSnoc(i, k - 1);
    ShrSmall(i, k - 1);
    BitRevSnoc(i + h, k - 1);
    ShlOfOne(k - 1);
    ShrOfSum(1, k - 1, i);
    BitRevLow(i, 1, k - 1);
    BitRevBound(i, k - 1);
  }

  /** fold_eval on bit-reversed coefficients evaluates the polynomial. */
  lemma {:induction false} FoldEvalIsLineEval(c: seq<QM31>, k: nat, x: M31)
    requires |c| == Pow2(k)
    ensures |Doublings(x, k)| == k
    ensures FoldEval(BitRevPermuted(c, k), Doublings(x, k)) == LineEval(c, x)
    decreases k
  {
    hide QAdd, QScale, DoubleX, BitRev;
    if k == 0 {
      BitRevBound(0, 0);
      assert BitRevPermuted(c, 0)[0] == c[0];
    } else {
      FoldEvalIsLineEval(Even(c), k - 1, DoubleX(x));
      FoldEvalIsLineEval(Odd(c), k - 1, DoubleX(x));
      BitRevPermutedHalves(c, k);
      assert Doublings(x, k)[1..] == Doublings(DoubleX(x), k - 1);
    }
  }
}
