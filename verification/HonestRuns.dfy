/**
 Honest runs as a whole: they exist for every trace, what their layers hold, and what
 acceptance says about the degree of the last layer (src/prover.rs, src/verifier.rs).
 */
module HonestRuns {
  import opened Bits
  import opened M31Field
  import opened CanonicOrder
  import opened CircleGroup
  import opened CircleFolding
  import opened SecureField
  import opened SecureInverse
  import opened Hashing
  import opened MerkleTree
  import opened FiatShamir
  import opened LinePoly
  import opened LineIfft
  import opened LastLayer
  import opened FriFold
  import opened FriRuns
  import opened FirstFold
  import opened StarkProof
  import opened StarkVerifier
  import opened StarkProver
  import Fib = Fibonacci

  // ---- every trace has an honest run ----

  lemma {:induction false} LayersExist(hs: Hashes, base: Digest, quotient: seq<QM31>, log: nat, n: nat)
    returns (coms: seq<Digest>, layers: seq<seq<QM31>>)
    requires Sampling(hs) && 4 <= log <= 30 && |quotient| == Pow2(log) && 1 <= n < log
    ensures |layers| == n && FoldedLayers(hs, base, quotient, log, coms, layers)
    decreases n
  {
    hide Root, CircleFold, LineFold, FoldAlpha, Felt, FeltTree, Pow2, Sampling, FoldedLayers, MixedDigest;
    if n == 1 {
      var line := CircleFold(quotient, Felt(hs, State(base, 0)), log);
      var root := Root(hs.block, FeltTree(hs.block, line), log - 1);
      FirstLayer(hs, base, quotient, log, line, root);
      coms, layers := [root], [line];
    } else {
      coms, layers := LayersExist(hs, base, quotient, log, n - 1);
      LayersShape(hs, base, quotient, log, coms, layers);
      var folded := LineFold(layers[n - 2], FoldAlpha(hs, base, coms, n - 1), log - n + 1);
      var root := Root(hs.block, FeltTree(hs.block, folded), log - n);
      LayersExtended(hs, base, quotient, log, coms, layers, folded, root);
      coms, layers := coms + [root], layers + [folded];
    }
  }

  /** The decommitment with the true values, siblings and paths. */
  ghost function TrueDecommitment<T(!new)>(h: HashFn, values: seq<T>, leaves: seq<Digest>, k: nat, indices: seq<nat>): (d: Decommitment<T>)
    requires |values| == |leaves| == Pow2(k) && k >= 1 && forall q: nat :: q < |indices| ==> indices[q] < Pow2(k)
    ensures HonestDecommitment(h, values, leaves, k, indices, d)
  {
    hide AuthPath, Pow2, Sibling;
    var siblings := Siblings(indices);
    assert forall q: nat :: q < |indices| ==> siblings[q] == Sibling(indices[q]) < Pow2(k) by {
      forall q: nat | q < |indices| ensures siblings[q] == Sibling(indices[q]) < Pow2(k) { SiblingBound(indices[q], k); }
    }
    Decommitment(ValuesOf(values, indices), ValuesOf(values, siblings),
                 seq(|indices|, q requires 0 <= q < |indices| => AuthPath(h, leaves, k, indices[q])),
                 seq(|indices|, q requires 0 <= q < |indices| => AuthPath(h, leaves, k, siblings[q])))
  }

  lemma {:induction false} LayerOpeningsExist(h: HashFn, layers: seq<seq<QM31>>, log: nat, indices: seq<nat>, n: nat)
    returns (ds: seq<Decommitment<QM31>>)
    requires n <= |layers| < log && forall l: nat :: l < |layers| ==> |layers[l]| == Pow2(log - 1 - l)
    requires forall q: nat :: q < |indices| ==> indices[q] < Pow2(log)
    ensures |ds| == n
    ensures forall l: nat :: l < n ==>
      HonestDecommitment(h, layers[l], FeltTree(h, layers[l]), log - 1 - l, ShiftedBy(indices, l + 1), ds[l])
    decreases n
  {
    hide HonestDecommitment, FeltTree, Pow2, Shr;
    if n == 0 {
      ds := [];
    } else {
      ds := LayerOpeningsExist(h, layers, log, indices, n - 1);
      forall q: nat | q < |indices| ensures ShiftedBy(indices, n)[q] < Pow2(log - n) {
        ShrBound(indices[q], n, log - n);
      }
      ds := ds + [TrueDecommitment(h, layers[n - 1], FeltTree(h, layers[n - 1]), log - n, ShiftedBy(indices, n))];
    }
  }

  /** Every evaluated trace and every pair of inputs has an honest run. */
  lemma HonestRunExists(hs: Hashes, a: M31, b: M31, logN: nat, trace: seq<M31>) returns (p: Proof, layers: seq<seq<QM31>>)
    requires Sampling(hs) && 4 <= logN && logN + BLOWUP_BITS <= 30 && |trace| == Pow2(logN + BLOWUP_BITS)
    ensures p.logTraceSize == logN && p.publicInputs == (a, b)
    ensures HonestRun(hs, trace, p, layers)
  {
    hide Root, FeltTree, WordTree, Pow2, Sampling, Quotient, FoldedLayers, HonestDecommitment, BaseDigest, QuotientAlpha, QueryIndices, HonestRun;
    var h, log := hs.block, logN + BLOWUP_BITS;
    var traceRoot := Root(h, WordTree(h, trace), log);
    var quotient := Quotient(trace, QuotientAlpha(hs, traceRoot));
    var quotientRoot := Root(h, FeltTree(h, quotient), log);
    var base := BaseDigest(hs, traceRoot, quotientRoot);
    var coms, lines := LayersExist(hs, base, quotient, log, log - LAST_LOG);
    LayerSizes(hs, base, quotient, log, coms, lines);
    var indices := QueryIndices(hs, base, coms, lines[|lines| - 1], Pow2(log));
    var openings := LayerOpeningsExist(h, lines, log, indices, |lines|);
    p := Proof(traceRoot, quotientRoot, coms, lines[|lines| - 1], logN, (a, b), indices,
               TrueDecommitment<u32>(h, trace, WordTree(h, trace), log, indices),
               TrueDecommitment(h, quotient, FeltTree(h, quotient), log, indices), openings);
    layers := lines;
    RunAssembled(hs, trace, p, lines, quotient);
  }

  // ---- what the layers hold ----

  ghost function RunQuotient(hs: Hashes, trace: seq<M31>, p: Proof): (r: seq<QM31>)
    requires Sampling(hs)
    ensures |r| == |trace|
  {
    Quotient(trace, QuotientAlpha(hs, p.traceCommitment))
  }

  /**
   What an honest run opens at query q: the trace value at its index, and the defect of the
   recurrence there times the challenge drawn from the trace commitment.
   */
  lemma OpenedRows(hs: Hashes, trace: seq<M31>, p: Proof, layers: seq<seq<QM31>>, q: nat)
    requires Sampling(hs) && HonestRun(hs, trace, p, layers) && q < N_QUERIES
    ensures |p.queryIndices| == N_QUERIES && p.queryIndices[q] < |trace|
    ensures q < |p.traceDecommitment.values| && p.traceDecommitment.values[q] == trace[p.queryIndices[q]]
    ensures q < |p.quotientDecommitment.values| && p.quotientDecommitment.values[q]
         == QScale(Felt(hs, State(MixedDigest(hs, ZERO_DIGEST, p.traceCommitment), 0)), Defect(trace, p.queryIndices[q]))
  {
    hide Root, QueryIndices, FoldedLayers, Felt, MixedDigest, QScale, Sub, AuthPath, Pow2;
  }

  /** t[i + 2] - t[i + 1] - t[i], cyclically. */
  function Defect(trace: seq<M31>, i: nat): M31
    requires i < |trace|
  {
    Sub(Sub(trace[(i + 2) % |trace|], trace[(i + 1) % |trace|]), trace[i])
  }

  /** The first line layer, value by value, when the committed quotient column holds the circle polynomial c. */
  lemma FirstLayerOfColumn(hs: Hashes, trace: seq<M31>, p: Proof, layers: seq<seq<QM31>>, c: seq<QM31>, i: nat)
    requires Sampling(hs) && HonestRun(hs, trace, p, layers) && |c| % 4 == 0
    requires HoldsOnHalfCoset(RunQuotient(hs, trace, p), c, EvalLog(p)) && i < Pow2(EvalLog(p) - 1)
    ensures |layers[0]| == Pow2(EvalLog(p) - 1)
    ensures var (alpha, f, q) := (FoldAlpha(hs, Base(hs, p), p.friCommitments, 0), PartsAt(c, PairX(EvalLog(p), i)), PairPoint(EvalLog(p), i));
            layers[0][i] == QAdd(CleanFold(f, alpha), QScale(Residue(f, alpha, q.y), Mul(2, Ratio(q))))
  {
    hide Root, Quotient, QuotientAlpha, QueryIndices, HonestDecommitment, FoldAlpha, CircleFold, LineFold, HoldsOnHalfCoset,
      CleanFold, Residue, Ratio, PartsAt, PairX, PairPoint, QAdd, QScale, Mul, Pow2;
    assert HonestLayer(hs, Base(hs, p), RunQuotient(hs, trace, p), EvalLog(p), p.friCommitments, layers, 0);
    CircleFoldValue(RunQuotient(hs, trace, p), c, FoldAlpha(hs, Base(hs, p), p.friCommitments, 0), EvalLog(p), i);
  }

  /** The polynomial of the last layer, from the polynomial of the first. */
  ghost function LastPoly(hs: Hashes, p: Proof, c: seq<QM31>): (r: seq<QM31>)
    requires Sampling(hs) && 6 <= EvalLog(p) <= 30 && |p.friCommitments| == EvalLog(p) - 3 && |c| == Pow2(EvalLog(p) - 1)
    ensures |r| == Pow2(LAST_LOG)
  {
    FoldedPolyChain(c, LineAlphas(hs, Base(hs, p), p.friCommitments, 0), EvalLog(p) - 1)
  }

  lemma RunShape(hs: Hashes, trace: seq<M31>, p: Proof, layers: seq<seq<QM31>>)
    requires Sampling(hs) && HonestRun(hs, trace, p, layers)
    ensures 6 <= EvalLog(p) <= 30 && |layers| == |p.friCommitments| == EvalLog(p) - 3
    ensures |layers[0]| == Pow2(EvalLog(p) - 1) && |p.friLastLayer| == Pow2(LAST_LOG)
  {
    hide Root, Quotient, QuotientAlpha, QueryIndices, HonestDecommitment, FoldAlpha, CircleFold, LineFold, Pow2;
    LayerSizes(hs, Base(hs, p), RunQuotient(hs, trace, p), EvalLog(p), p.friCommitments, layers);
  }

  lemma LastLayerHoldsFold(hs: Hashes, trace: seq<M31>, p: Proof, layers: seq<seq<QM31>>, c: seq<QM31>)
    requires Sampling(hs) && HonestRun(hs, trace, p, layers)
    requires |layers| > 0 && 6 <= EvalLog(p) <= 30 && |c| == |layers[0]| == Pow2(EvalLog(p) - 1)
    requires |p.friCommitments| == EvalLog(p) - 3 && HoldsBrt(layers[0], c, EvalLog(p) - 1)
    ensures HoldsBrt(p.friLastLayer, LastPoly(hs, p, c), LAST_LOG)
  {
    hide HonestRun, HoldsBrt, FoldedPolyChain, LineAlphas, Pow2, CeilShr, Sampling;
    RunShape(hs, trace, p, layers);
    assert DegreeBelow(c, |c|);
    RunFoldsPolynomial(hs, trace, p, layers, c, |c|);
    assert LastLayerFolds(hs, p, c, CeilShr(|c|, EvalLog(p) - 4));
  }

  /** A column holds exactly one polynomial of its size: the interpolated one. */
  lemma HeldPolynomialIsUnique(e: seq<QM31>, c: seq<QM31>, n: nat)
    requires n <= 29 && |e| == |c| == Pow2(n)
    ensures HoldsBrt(e, c, n) <==> c == Coefficients(e, n)
  {
    hide HoldsBrt, Coefficients, Pow2;
    InterpolateThenEvaluate(e, n);
    if HoldsBrt(e, c, n) { EvaluateThenInterpolate(e, c, n); }
  }

  /**
   In every honest run the last layer interpolates to the fold of the polynomial of the
   first line layer; so it has degree below d exactly when the coefficients of that fold
   from d on vanish.
   */
  lemma LastLayerDegreeIff(hs: Hashes, trace: seq<M31>, p: Proof, layers: seq<seq<QM31>>, c: seq<QM31>, d: nat)
    requires Sampling(hs) && HonestRun(hs, trace, p, layers)
    requires |layers| > 0 && 6 <= EvalLog(p) <= 30 && |c| == |layers[0]| == Pow2(EvalLog(p) - 1)
    requires |p.friCommitments| == EvalLog(p) - 3 && |p.friLastLayer| == Pow2(LAST_LOG)
    requires HoldsBrt(layers[0], c, EvalLog(p) - 1)
    ensures Coefficients(p.friLastLayer, LAST_LOG) == LastPoly(hs, p, c)
    ensures DegreeBelow(Coefficients(p.friLastLayer, LAST_LOG), d) <==> DegreeBelow(LastPoly(hs, p, c), d)
  {
    hide HonestRun, HoldsBrt, Coefficients, LastPoly, DegreeBelow, Pow2, Sampling;
    LastLayerHoldsFold(hs, trace, p, layers, c);
    HeldPolynomialIsUnique(p.friLastLayer, LastPoly(hs, p, c), LAST_LOG);
  }

  // ---- verify makes no degree check ----

  const U: QM31 := QM31(CZERO, CONE)
  const CONSTANT_DIGEST: Digest := [0, 0, 1, 0, 0, 0, 0, 0]
  const CONSTANT_HASHES: Hashes := Hashes(ConstantHash, ConstantHash)

  function ConstantHash(input: seq<byte>): Digest { CONSTANT_DIGEST }

  /** Under the constant hash every challenge is u. */
  lemma ConstantDraws(s: State)
    ensures Sampling(CONSTANT_HASHES) && Felt(CONSTANT_HASHES, s) == U
  {
    forall t: State ensures Ends(CONSTANT_HASHES, t) { assert EndsAt(CONSTANT_HASHES, t, 0); }
  }

  lemma {:induction false} ConstantRoot(leaves: seq<Digest>, k: nat)
    requires |leaves| == Pow2(k) && k >= 1
    ensures Root(ConstantHash, leaves, k) == CONSTANT_DIGEST
  {
    hide Layer;
    LayerSize(ConstantHash, leaves, k, k - 1);
    LayerSize(ConstantHash, leaves, k, k);
    LayerSnoc(ConstantHash, leaves, k - 1);
  }

  /** A first value that is not zero, followed by zeros up to position n. */
  ghost predicate Spike(e: seq<QM31>, n: nat) {
    1 < n <= |e| && e[0] != QZERO && forall j: nat :: 1 <= j < n ==> e[j] == QZERO
  }

  /** The evaluated trace 1, 0, 0, ..., 0. */
  function SpikeTrace(): (r: seq<M31>)
    ensures |r| == 64
  {
    seq(64, i requires 0 <= i < 64 => if i == 0 then 1 else 0)
  }

  lemma SpikeQuotient()
    ensures Spike(Quotient(SpikeTrace(), U), 62)
  {
    hide Mul;
    QScaleLaws(U, U, 0, 0);
    MulUnits(0x7FFF_FFFE);
    assert Sub(Sub(0, 0), 1) == 0x7FFF_FFFE && Sub(Sub(0, 0), 0) == 0;
  }

  /** 1 + u t is never zero. */
  lemma NeverCancels(t: M31)
    ensures QAdd(QONE, QScale(U, t)) != QZERO
  {
    hide Mul;
    MulUnits(t);
  }

  lemma FoldOfZeros(alpha: QM31, t: M31)
    ensures FoldPair(QZERO, QZERO, alpha, t) == QZERO
  {
    hide QAdd, QMul, QScale, QSub;
    QAddLaws(QZERO, QZERO, QZERO); QScaleLaws(QZERO, QZERO, t, t); QMulUnits(alpha);
  }

  lemma FoldOfHead(z: QM31, t: M31)
    requires z != QZERO
    ensures FoldPair(z, QZERO, U, t) != QZERO
  {
    hide QAdd, QMul, QScale, QSub;
    QAddLaws(z, QZERO, QZERO);
    QScaleLaws(U, z, t, t);
    QMulDistrib(z, QONE, QScale(U, t)); QMulUnits(z);
    QMulComm(z, QScale(U, t));
    NeverCancels(t);
    if FoldPair(z, QZERO, U, t) == QZERO { QNoZeroDivisors(z, QAdd(QONE, QScale(U, t))); }
  }

  /** Folding with the challenge u keeps a spike, over half the length. */
  lemma FoldKeepsSpike(e: seq<QM31>, twiddles: seq<M31>, n: nat)
    requires |twiddles| >= |e| / 2 && Spike(e, n) && n >= 4
    ensures Spike(FoldLineCpu(e, U, twiddles), n / 2)
  {
    hide FoldPair;
    var r := FoldLineCpu(e, U, twiddles);
    FoldOfHead(e[0], twiddles[0]);
    forall i: nat | 1 <= i < n / 2 ensures r[i] == QZERO { FoldOfZeros(U, twiddles[i]); }
  }

  /** A constant polynomial, padded to any power of two. */
  lemma ConstantValue(c: seq<QM31>, k: nat, x: M31)
    requires |c| == Pow2(k) && DegreeBelow(c, 1)
    ensures |c| > 0 && LineEval(c, x) == c[0]
  {
    hide LineEval;
    PaddedEval([c[0]], 0, k, x);
    assert c == [c[0]] + Zeros(Pow2(k) - 1);
    ConstantEval([c[0]], x);
  }

  lemma LowHalves(c: seq<QM31>)
    requires |c| == 8 && DegreeBelow(c, 2)
    ensures |Even(c)| == |Odd(c)| == Pow2(2) && Even(c)[0] == c[0] && Odd(c)[0] == c[1]
    ensures DegreeBelow(Even(c), 1) && DegreeBelow(Odd(c), 1)
    ensures c[0] == QZERO && c[1] == QZERO ==> c == Zeros(8)
  {
    assert Pow2(2) == 4 by { Pow2Table(); }
  }

  /** Degree below 2 and a root at both members of a pair leave only the zero polynomial. */
  lemma TwoRoots(c: seq<QM31>, x: M31)
    requires |c| == Pow2(3) && |c| == 8 && DegreeBelow(c, 2) && x != 0
    requires LineEval(c, x) == QZERO && LineEval(c, Neg(x)) == QZERO
    ensures c == Zeros(8)
  {
    hide *;
    var y := DoubleX(x);
    LowHalves(c);
    EvalSplit(c, x); EvalSplit(c, Neg(x)); DoubleXEven(x);
    PairOfValues(LineEval(Even(c), y), LineEval(Odd(c), y), x);
    QAddLaws(QZERO, QZERO, QZERO); QSubSelf(QZERO); QScaleLaws(QZERO, QZERO, Inverse(x), 0);
    QScaleZero(LineEval(Even(c), y), 2); QScaleZero(LineEval(Odd(c), y), 2);
    ConstantValue(Even(c), 2, y); ConstantValue(Odd(c), 2, y);
  }

  lemma QSubSelf(z: QM31)
    ensures QSub(z, z) == QZERO
  {
  }

  /** Eight values that start with a spike do not come from a polynomial of degree below 2. */
  lemma SpikeHasHighDegree(e: seq<QM31>)
    requires |e| == Pow2(3) && Spike(e, 7)
    ensures !DegreeBelow(Coefficients(e, 3), 2)
  {
    hide LineEval, DomainX, Coefficients, BitRev, Neg;
    assert Pow2(3) == 8 by { Pow2Table(); }
    var c := Coefficients(e, 3);
    InterpolateThenEvaluate(e, 3);
    if DegreeBelow(c, 2) {
      PairValues(e, c, 3, 1);
      DomainXNonzero(3, BitRev(1, 2));
      TwoRoots(c, DomainX(3, BitRev(1, 2)));
      ZerosEval(8, DomainX(3, BitRev(0, 3)));
    }
  }

  /** The three line layers of the run on the spike. */
  lemma SpikeRun(p: Proof, layers: seq<seq<QM31>>)
    requires Sampling(CONSTANT_HASHES) && HonestRun(CONSTANT_HASHES, SpikeTrace(), p, layers) && EvalLog(p) == 6
    ensures |p.friLastLayer| == Pow2(3) && Spike(p.friLastLayer, 7)
  {
    hide Root, Quotient, QueryIndices, HonestDecommitment, Felt, FoldLineCpu, CircleTwiddles, LineTwiddles, Spike, Pow2;
    var hs, base := CONSTANT_HASHES, Base(CONSTANT_HASHES, p);
    var quotient := RunQuotient(hs, SpikeTrace(), p);
    RunShape(hs, SpikeTrace(), p, layers);
    ConstantDraws(State(MixedDigest(hs, ZERO_DIGEST, p.traceCommitment), 0));
    SpikeQuotient();
    forall l: nat | l < 3 ensures FoldAlpha(hs, base, p.friCommitments, l) == U {
      ConstantDraws(State(MixedAll(hs, base, p.friCommitments[..l]), 0));
    }
    assert HonestLayer(hs, base, quotient, 6, p.friCommitments, layers, 0);
    assert HonestLayer(hs, base, quotient, 6, p.friCommitments, layers, 1);
    assert HonestLayer(hs, base, quotient, 6, p.friCommitments, layers, 2);
    Pow2Unfold(6); Pow2Unfold(5); Pow2Unfold(4);
    FoldKeepsSpike(quotient, CircleTwiddles(6), 62);
    FoldKeepsSpike(layers[0], LineTwiddles(5), 31);
    FoldKeepsSpike(layers[1], LineTwiddles(4), 15);
  }

  /**
   An honest run that verify accepts although its last layer has a nonzero coefficient
   at index 2 or above, the bound for a trace of one quarter of the evaluation domain.
   */
  lemma HighDegreeAccepted() returns (hs: Hashes, trace: seq<M31>, p: Proof, layers: seq<seq<QM31>>)
    ensures Sampling(hs) && HonestRun(hs, trace, p, layers) && EvalLog(p) <= 30 && Accepts(hs, p)
    ensures EvalLog(p) >= LAST_LOG && CeilShr(Pow2(p.logTraceSize), EvalLog(p) - LAST_LOG) == 2
    ensures |p.friLastLayer| == Pow2(LAST_LOG) && !DegreeBelow(Coefficients(p.friLastLayer, LAST_LOG), 2)
  {
    hide HonestRun, Accepts, Sampling, Coefficients, DegreeBelow, Spike, Root;
    ConstantDraws(State(ZERO_DIGEST, 0));
    assert Pow2(6) == 64;
    hs, trace := CONSTANT_HASHES, SpikeTrace();
    p, layers := HonestRunExists(hs, 0, 0, 4, trace);
    SpikeRun(p, layers);
    SpikeHasHighDegree(p.friLastLayer);
    SpikeRoots(p, layers);
    Completeness(hs, trace, p, layers);
  }

  lemma SpikeRoots(p: Proof, layers: seq<seq<QM31>>)
    requires Sampling(CONSTANT_HASHES) && HonestRun(CONSTANT_HASHES, SpikeTrace(), p, layers) && EvalLog(p) == 6
    ensures p.traceCommitment != ZERO_DIGEST && p.quotientCommitment != ZERO_DIGEST
  {
    hide Root, Quotient, QuotientAlpha, QueryIndices, HonestDecommitment, FoldedLayers, FeltTree, WordTree, Pow2;
    ConstantRoot(WordTree(ConstantHash, SpikeTrace()), 6);
    ConstantRoot(FeltTree(ConstantHash, RunQuotient(CONSTANT_HASHES, SpikeTrace(), p)), 6);
  }

  // ---- from the public inputs ----

  /** The Fibonacci trace as a column. */
  function FibColumn(a: M31, b: M31, n: nat): (r: seq<M31>)
    ensures |r| == n
  {
    seq(n, i requires 0 <= i < n => Fib.Fib(a, b, i))
  }

  /**
   prove_with_cache from the public inputs: fill the trace, extend it to the evaluation
   domain by whatever transform the device computes, and run the protocol on the result.
   */
  method ProveFibonacci(hs: Hashes, a: M31, b: M31, logN: nat, extend: seq<M31> -> seq<M31>)
    returns (p: Proof, ghost layers: seq<seq<QM31>>)
    requires Sampling(hs) && 4 <= logN && logN + BLOWUP_BITS <= 30
    requires |extend(FibColumn(a, b, Pow2(logN)))| == Pow2(logN + BLOWUP_BITS)
    ensures p.logTraceSize == logN && p.publicInputs == (a, b)
    ensures HonestRun(hs, extend(FibColumn(a, b, Pow2(logN))), p, layers)
  {
    hide HonestRun, Sampling, Pow2, Fib.Fib;
    var trace := new M31[Pow2(logN)](_ => 0);
    Fib.FibonacciTraceParallel(a, b, logN, trace);
    assert trace[..] == FibColumn(a, b, Pow2(logN));
    p, layers := Prove(hs, a, b, logN, extend(trace[..]));
  }

  /** Proving a Fibonacci statement and verifying it succeeds, unless a root happens to be all zero. */
  method ProveFibonacciThenVerify(hs: Hashes, a: M31, b: M31, logN: nat, extend: seq<M31> -> seq<M31>) returns (p: Proof, v: Verdict)
    requires Sampling(hs) && 4 <= logN && logN + BLOWUP_BITS <= 30
    requires |extend(FibColumn(a, b, Pow2(logN)))| == Pow2(logN + BLOWUP_BITS)
    ensures p.logTraceSize == logN && p.publicInputs == (a, b)
    ensures v.Accept? <==> p.traceCommitment != ZERO_DIGEST && p.quotientCommitment != ZERO_DIGEST
  {
    hide HonestRun, Accepts, Sampling;
    ghost var layers;
    p, layers := ProveFibonacci(hs, a, b, logN, extend);
    Completeness(hs, extend(FibColumn(a, b, Pow2(logN))), p, layers);
    v := Verify(hs, p);
  }
}
