/**
 The Fibonacci prover after the trace has been evaluated on the blowup domain, and
 the acceptance of every honest run (src/prover.rs, src/fri.rs, src/verifier.rs).
 */
module StarkProver {
  import opened Bits
  import opened M31Field
  import opened CanonicOrder
  import opened SecureField
  import opened Hashing
  import opened MerkleTree
  import opened MerkleTiles
  import opened FiatShamir
  import opened FriFold
  import opened CircleFolding
  import opened FriRuns
  import opened LastLayer
  import opened StarkProof
  import opened StarkVerifier

  const FRI_CPU_TAIL_LOG: nat := 10

  // ---- an honest run ----

  function FeltTree(h: HashFn, values: seq<QM31>): (r: seq<Digest>)
    ensures |r| == |values|
  {
    Leaves(h, FeltRows(values))
  }

  function WordTree(h: HashFn, values: seq<u32>): (r: seq<Digest>)
    ensures |r| == |values|
  {
    Leaves(h, WordRows(values))
  }

  /** Every entry of d is the true value, sibling and paths at its index. */
  ghost predicate HonestDecommitment<T(!new)>(h: HashFn, values: seq<T>, leaves: seq<Digest>, k: nat, indices: seq<nat>, d: Decommitment<T>) {
    && |values| == |leaves| == Pow2(k) && k >= 1
    && |d.values| == |d.siblings| == |d.paths| == |d.siblingPaths| == |indices|
    && forall q: nat :: q < |indices| ==>
      && indices[q] < Pow2(k) && Sibling(indices[q]) < Pow2(k)
      && d.values[q] == values[indices[q]] && d.siblings[q] == values[Sibling(indices[q])]
      && d.paths[q] == AuthPath(h, leaves, k, indices[q])
      && d.siblingPaths[q] == AuthPath(h, leaves, k, Sibling(indices[q]))
  }

  /** The challenge that combines the constraints. */
  ghost function QuotientAlpha(hs: Hashes, traceCom: Digest): QM31
    requires Sampling(hs)
  {
    Felt(hs, State(MixedDigest(hs, ZERO_DIGEST, traceCom), 0))
  }

  /** The layers committed so far, each folded with the challenge its own transcript gives. */
  ghost predicate FoldedLayers(hs: Hashes, base: Digest, quotient: seq<QM31>, log: nat, coms: seq<Digest>, layers: seq<seq<QM31>>)
    requires Sampling(hs)
  {
    && 4 <= log <= 30 && |quotient| == Pow2(log) && 1 <= |layers| <= log && |coms| == |layers|
    && forall l: nat :: l < |layers| ==> HonestLayer(hs, base, quotient, log, coms, layers, l)
  }

  /** Layer l is the fold of the one before it, and its root is commitment l. */
  ghost predicate HonestLayer(hs: Hashes, base: Digest, quotient: seq<QM31>, log: nat, coms: seq<Digest>, layers: seq<seq<QM31>>, l: nat)
    requires Sampling(hs) && l < |layers| == |coms| <= log <= 30 && |quotient| == Pow2(log)
  {
    hide Root, CircleFold, LineFold, FoldAlpha, Leaves, Pow2;
    && |layers[l]| == Pow2(log - 1 - l) && coms[l] == Root(hs.block, FeltTree(hs.block, layers[l]), log - 1 - l)
    && if l == 0 then layers[0] == CircleFold(quotient, FoldAlpha(hs, base, coms, 0), log)
       else |layers[l - 1]| == Pow2(log - l) && layers[l] == LineFold(layers[l - 1], FoldAlpha(hs, base, coms, l), log - l)
  }

  /** p is the proof of an honest run on the evaluated trace, with these line layers. */
  ghost predicate HonestRun(hs: Hashes, trace: seq<M31>, p: Proof, layers: seq<seq<QM31>>)
    requires Sampling(hs)
  {
    var h, log := hs.block, EvalLog(p);
    && 6 <= log <= 30 && |trace| == Pow2(log)
    && var quotient := Quotient(trace, QuotientAlpha(hs, p.traceCommitment));
    && p.traceCommitment == Root(h, WordTree(h, trace), log)
    && p.quotientCommitment == Root(h, FeltTree(h, quotient), log)
    && |layers| == log - LAST_LOG && |p.friDecommitments| == |layers|
    && FoldedLayers(hs, Base(hs, p), quotient, log, p.friCommitments, layers)
    && p.friLastLayer == layers[|layers| - 1]
    && p.queryIndices == QueryIndices(hs, Base(hs, p), p.friCommitments, p.friLastLayer, Pow2(log))
    && HonestDecommitment(h, trace, WordTree(h, trace), log, p.queryIndices, p.traceDecommitment)
    && HonestDecommitment(h, quotient, FeltTree(h, quotient), log, p.queryIndices, p.quotientDecommitment)
    && (forall l: nat :: l < |layers| ==>
      HonestDecommitment(h, layers[l], FeltTree(h, layers[l]), log - 1 - l, ShiftedBy(p.queryIndices, l + 1), p.friDecommitments[l]))
  }

  // ---- honest openings are accepted ----

  lemma HonestFeltsOpen(h: HashFn, values: seq<QM31>, k: nat, indices: seq<nat>, d: Decommitment<QM31>)
    requires HonestDecommitment(h, values, FeltTree(h, values), k, indices, d) && |indices| == N_QUERIES
    ensures FeltsOpen(h, Root(h, FeltTree(h, values), k), d, indices)
  {
    hide Climb, Root, AuthPath, Pow2, HashLeaf;
    var leaves := FeltTree(h, values);
    forall q: nat | q < |indices|
      ensures QueryOpens(h, Root(h, leaves, k), FeltRows(d.values)[q], FeltRows(d.siblings)[q], d.paths[q], d.siblingPaths[q], indices[q])
    {
      HonestPathAccepted(h, leaves, k, indices[q]);
      HonestPathAccepted(h, leaves, k, Sibling(indices[q]));
    }
  }

  lemma HonestWordsOpen(h: HashFn, values: seq<u32>, k: nat, indices: seq<nat>, d: Decommitment<u32>)
    requires HonestDecommitment(h, values, WordTree(h, values), k, indices, d) && |indices| == N_QUERIES
    ensures WordsOpen(h, Root(h, WordTree(h, values), k), d, indices)
  {
    hide Climb, Root, AuthPath, Pow2, HashLeaf;
    var leaves := WordTree(h, values);
    forall q: nat | q < |indices|
      ensures QueryOpens(h, Root(h, leaves, k), WordRows(d.values)[q], WordRows(d.siblings)[q], d.paths[q], d.siblingPaths[q], indices[q])
    {
      HonestPathAccepted(h, leaves, k, indices[q]);
      HonestPathAccepted(h, leaves, k, Sibling(indices[q]));
    }
  }

  // ---- honest folds are accepted ----

  /** The opened pair at idx, in order, is the pair 2*(idx/2), 2*(idx/2)+1 of the layer. */
  lemma OpenedPair(h: HashFn, values: seq<QM31>, k: nat, indices: seq<nat>, d: Decommitment<QM31>, q: nat)
    requires HonestDecommitment(h, values, FeltTree(h, values), k, indices, d) && q < |indices|
    ensures indices[q] < Pow2(k) && 2 * (indices[q] / 2) + 1 < |values|
    ensures OrderedPair(d.values[q], d.siblings[q], indices[q])
         == (values[2 * (indices[q] / 2)], values[2 * (indices[q] / 2) + 1])
  {
    hide AuthPath;
    Pow2Unfold(k);
  }

  lemma CircleFoldAccepted(hs: Hashes, trace: seq<M31>, p: Proof, layers: seq<seq<QM31>>, q: nat)
    requires Sampling(hs) && HonestRun(hs, trace, p, layers) && q < |p.queryIndices|
    ensures CircleFoldHolds(p, Alphas(hs, p), q)
  {
    hide FoldPair, CircleTwiddle, Root, QuotientAt, Pow2, FoldAlpha, AuthPath, Shr, QueryIndices, Leaves, LineFold;
    var log := EvalLog(p);
    var quotient := Quotient(trace, QuotientAlpha(hs, p.traceCommitment));
    OpenedPair(hs.block, quotient, log, p.queryIndices, p.quotientDecommitment, q);
    assert HonestDecommitment(hs.block, layers[0], FeltTree(hs.block, layers[0]), log - 1, ShiftedBy(p.queryIndices, 1), p.friDecommitments[0]);
    assert HonestLayer(hs, Base(hs, p), quotient, log, p.friCommitments, layers, 0);
    ShrZero(p.queryIndices[q]); ShrSnoc(p.queryIndices[q], 0);
  }

  /** Layer l of an honest run, committed and opened. */
  lemma RunAtLayer(hs: Hashes, trace: seq<M31>, p: Proof, layers: seq<seq<QM31>>, l: nat)
    requires Sampling(hs) && HonestRun(hs, trace, p, layers) && l < |layers|
    ensures 6 <= EvalLog(p) <= 30 && |layers| == |p.friDecommitments| == |p.friCommitments| == EvalLog(p) - 3
    ensures |trace| == Pow2(EvalLog(p))
    ensures HonestLayer(hs, Base(hs, p), Quotient(trace, QuotientAlpha(hs, p.traceCommitment)), EvalLog(p), p.friCommitments, layers, l)
    ensures HonestDecommitment(hs.block, layers[l], FeltTree(hs.block, layers[l]), EvalLog(p) - 1 - l,
                               ShiftedBy(p.queryIndices, l + 1), p.friDecommitments[l])
  {
    hide HonestLayer, HonestDecommitment, Root, Quotient, QuotientAlpha, Pow2, QueryIndices, FeltTree;
  }

  /** Value i of layer l + 1 folds the pair at i of layer l. */
  lemma NextLayerAt(hs: Hashes, base: Digest, quotient: seq<QM31>, log: nat, coms: seq<Digest>, layers: seq<seq<QM31>>, l: nat, i: nat)
    requires Sampling(hs) && l + 1 < |layers| == |coms| && |layers| + 3 <= log <= 30 && |quotient| == Pow2(log)
    requires HonestLayer(hs, base, quotient, log, coms, layers, l + 1) && 2 * i + 1 < |layers[l]|
    ensures i < |layers[l + 1]| && layers[l + 1][i]
         == FoldPair(layers[l][2 * i], layers[l][2 * i + 1], FoldAlpha(hs, base, coms, l + 1), LineTwiddle(log - 1 - l, i))
  {
    hide FoldPair, LineTwiddle, Root, FoldAlpha, Leaves, CircleFold, Pow2, Sampling;
  }

  /** The opened value of query q is the value at its index. */
  lemma OpenedValue(h: HashFn, values: seq<QM31>, k: nat, indices: seq<nat>, d: Decommitment<QM31>, q: nat)
    requires HonestDecommitment(h, values, FeltTree(h, values), k, indices, d) && q < |indices|
    ensures |d.values| == |d.siblings| == |indices| && indices[q] < |values| && d.values[q] == values[indices[q]]
  {
    hide AuthPath;
  }

  lemma LineFoldAccepted(hs: Hashes, trace: seq<M31>, p: Proof, layers: seq<seq<QM31>>, q: nat, l: nat)
    requires Sampling(hs) && HonestRun(hs, trace, p, layers) && q < |p.queryIndices| && l + 1 < |layers|
    ensures LineFoldHolds(p, Alphas(hs, p), q, l)
  {
    hide HonestRun, HonestLayer, HonestDecommitment, Sampling, FoldPair, LineTwiddle, Quotient, QuotientAlpha, Pow2, FoldAlpha, Shr, FeltTree;
    var h, log, idx := hs.block, EvalLog(p), Shr(p.queryIndices[q], l + 1);
    RunAtLayer(hs, trace, p, layers, l);
    RunAtLayer(hs, trace, p, layers, l + 1);
    OpenedPair(h, layers[l], log - 1 - l, ShiftedBy(p.queryIndices, l + 1), p.friDecommitments[l], q);
    OpenedValue(h, layers[l], log - 1 - l, ShiftedBy(p.queryIndices, l + 1), p.friDecommitments[l], q);
    OpenedValue(h, layers[l + 1], log - 2 - l, ShiftedBy(p.queryIndices, l + 2), p.friDecommitments[l + 1], q);
    ShrSnoc(p.queryIndices[q], l + 1);
    NextLayerAt(hs, Base(hs, p), Quotient(trace, QuotientAlpha(hs, p.traceCommitment)), log, p.friCommitments, layers, l, idx / 2);
  }

  lemma LastLayerAccepted(hs: Hashes, trace: seq<M31>, p: Proof, layers: seq<seq<QM31>>, q: nat)
    requires Sampling(hs) && HonestRun(hs, trace, p, layers) && q < |p.queryIndices|
    ensures LastLayerHolds(p, q)
  {
    hide Root, Quotient, Pow2, FoldAlpha, AuthPath, Shr, QueryIndices, Leaves, CircleFold, LineFold;
    var n := |layers|;
    assert HonestDecommitment(hs.block, layers[n - 1], FeltTree(hs.block, layers[n - 1]), EvalLog(p) - n,
                              ShiftedBy(p.queryIndices, n), p.friDecommitments[n - 1]);
    assert ShiftedBy(p.queryIndices, n)[q] == Shr(p.queryIndices[q], n);
  }

  lemma HonestOpeningsAccepted(hs: Hashes, trace: seq<M31>, p: Proof, layers: seq<seq<QM31>>)
    requires Sampling(hs) && HonestRun(hs, trace, p, layers)
    ensures AllOpen(hs.block, p)
  {
    hide HonestDecommitment, Root, Quotient, Pow2, FoldAlpha, QueryIndices, CircleFold, LineFold, FeltsOpen, WordsOpen;
    var log := EvalLog(p);
    HonestWordsOpen(hs.block, trace, log, p.queryIndices, p.traceDecommitment);
    HonestFeltsOpen(hs.block, Quotient(trace, QuotientAlpha(hs, p.traceCommitment)), log, p.queryIndices, p.quotientDecommitment);
    forall l: nat | l < |p.friDecommitments| ensures LayerOpens(hs.block, p, l) {
      assert HonestLayer(hs, Base(hs, p), Quotient(trace, QuotientAlpha(hs, p.traceCommitment)), log, p.friCommitments, layers, l);
      HonestFeltsOpen(hs.block, layers[l], log - 1 - l, ShiftedBy(p.queryIndices, l + 1), p.friDecommitments[l]);
    }
  }

  /**
   Completeness: for every evaluated trace with 6 <= log <= 30, canonical public
   inputs and nonzero roots, the verifier accepts the proof of an honest run.
   */
  lemma Completeness(hs: Hashes, trace: seq<M31>, p: Proof, layers: seq<seq<QM31>>)
    requires Sampling(hs) && HonestRun(hs, trace, p, layers)
    requires p.publicInputs.0 < P && p.publicInputs.1 < P
    ensures Accepts(hs, p) <==> p.traceCommitment != ZERO_DIGEST && p.quotientCommitment != ZERO_DIGEST
  {
    hide HonestDecommitment, Root, Quotient, FoldAlpha, QueryIndices, CircleFold, LineFold, AllOpen, Alphas,
      CircleFoldHolds, LineFoldHolds, LastLayerHolds;
    HonestOpeningsAccepted(hs, trace, p, layers);
    LayersShape(hs, Base(hs, p), Quotient(trace, QuotientAlpha(hs, p.traceCommitment)), EvalLog(p), p.friCommitments, layers);
    assert Pow2(3) == 8 by { Pow2Table(); }
    forall q: nat | q < N_QUERIES ensures QueryHolds(p, Alphas(hs, p), q) {
      CircleFoldAccepted(hs, trace, p, layers, q);
      forall l: nat | l + 1 < |p.friDecommitments| ensures LineFoldHolds(p, Alphas(hs, p), q, l) {
        LineFoldAccepted(hs, trace, p, layers, q, l);
      }
      LastLayerAccepted(hs, trace, p, layers, q);
    }
  }

  // ---- what the committed layers hold ----

  /** The challenges of the line folds from layer j on. */
  ghost function LineAlphas(hs: Hashes, base: Digest, coms: seq<Digest>, j: nat): (r: seq<QM31>)
    requires Sampling(hs) && j < |coms|
    ensures |r| == |coms| - 1 - j
  {
    seq(|coms| - 1 - j, i requires 0 <= i < |coms| - 1 - j => FoldAlpha(hs, base, coms, j + 1 + i))
  }

  /** The last layer is the whole chain of folds applied to layer j. */
  lemma {:induction false} RunIsFoldChain(hs: Hashes, base: Digest, quotient: seq<QM31>, log: nat, coms: seq<Digest>,
                                          layers: seq<seq<QM31>>, j: nat)
    requires Sampling(hs) && FoldedLayers(hs, base, quotient, log, coms, layers) && j < |layers|
    ensures |layers[j]| == Pow2(log - 1 - j)
    ensures FoldChain(layers[j], LineAlphas(hs, base, coms, j), log - 1 - j) == layers[|layers| - 1]
    decreases |layers| - j
  {
    hide Root, CircleFold, LineFold, FoldAlpha, FeltTree, Pow2;
    assert HonestLayer(hs, base, quotient, log, coms, layers, j);
    if j + 1 < |layers| {
      assert HonestLayer(hs, base, quotient, log, coms, layers, j + 1);
      RunIsFoldChain(hs, base, quotient, log, coms, layers, j + 1);
      assert LineAlphas(hs, base, coms, j)[1..] == LineAlphas(hs, base, coms, j + 1);
    }
  }

  /** The last layer holds the polynomial c folded with the run's challenges, with at most d leading coefficients nonzero. */
  ghost predicate LastLayerFolds(hs: Hashes, p: Proof, c: seq<QM31>, d: nat)
    requires Sampling(hs) && 6 <= EvalLog(p) <= 30 && |p.friCommitments| == EvalLog(p) - 3 && |c| == Pow2(EvalLog(p) - 1)
  {
    hide HoldsBrt, DegreeBelow, FoldAlpha, FoldedPoly, Pow2;
    var folded := FoldedPolyChain(c, LineAlphas(hs, Base(hs, p), p.friCommitments, 0), EvalLog(p) - 1);
    HoldsBrt(p.friLastLayer, folded, LAST_LOG) && DegreeBelow(folded, d)
  }

  /**
   In an honest run, if the first line layer holds a polynomial c with at most d leading
   coefficients nonzero, the eight values of the last layer are those of the folded
   polynomial, with at most ceil(d / 2^(log - 4)) of them.
   */
  lemma RunFoldsPolynomial(hs: Hashes, trace: seq<M31>, p: Proof, layers: seq<seq<QM31>>, c: seq<QM31>, d: nat)
    requires Sampling(hs) && HonestRun(hs, trace, p, layers)
    requires 6 <= EvalLog(p) <= 30 && |layers| == |p.friCommitments| == EvalLog(p) - 3
    requires |c| == Pow2(EvalLog(p) - 1) && HoldsBrt(layers[0], c, EvalLog(p) - 1) && DegreeBelow(c, d)
    ensures LastLayerFolds(hs, p, c, CeilShr(d, EvalLog(p) - 4))
  {
    hide HonestDecommitment, Root, Quotient, QueryIndices, CircleFold, LineFold, HoldsBrt, DegreeBelow, FoldChain, FoldedPolyChain,
      Pow2, FoldAlpha;
    var log := EvalLog(p);
    var quotient := Quotient(trace, QuotientAlpha(hs, p.traceCommitment));
    RunIsFoldChain(hs, Base(hs, p), quotient, log, p.friCommitments, layers, 0);
    ChainPreservesMeaning(layers[0], c, LineAlphas(hs, Base(hs, p), p.friCommitments, 0), log - 1, d);
  }

  // ---- the prover ----

  /** precompute_fri_twiddles: the circle fold, then line folds down to the stopping size. */
  method PrecomputeFriTwiddles(start: nat, stop: nat) returns (twiddles: seq<seq<M31>>)
    requires 1 <= start <= 30
    ensures |twiddles| == (if stop < start then start - stop else 1) && twiddles[0] == CircleTwiddles(start)
    ensures forall k: nat :: 1 <= k < |twiddles| ==> twiddles[k] == LineTwiddles(start - k)
  {
    hide CircleTwiddles, LineTwiddles, Pow2;
    twiddles := [CircleTwiddles(start)];
    var log := start - 1;
    while log > stop
      invariant 0 <= log < start && |twiddles| == start - log
      invariant stop < start ==> stop <= log
      invariant stop >= start ==> log == start - 1
      invariant twiddles[0] == CircleTwiddles(start)
      invariant forall k: nat :: 1 <= k < |twiddles| ==> twiddles[k] == LineTwiddles(start - k)
    {
      twiddles := twiddles + [LineTwiddles(log)];
      log := log - 1;
    }
  }

  /** Commit a layer: the root of its tree, mixed into the channel. */
  method CommitLayer(channel: Channel, layer: seq<QM31>, k: nat) returns (root: Digest)
    requires |layer| == Pow2(k)
    modifies channel
    ensures root == Root(channel.hs.block, FeltTree(channel.hs.block, layer), k)
    ensures channel.Now() == State(MixedDigest(channel.hs, old(channel.digest), root), 0)
  {
    root := ReduceToRoot(channel.hs.block, FeltTree(channel.hs.block, layer), k);
    channel.MixDigest(root);
  }

  lemma AlphaOfPrefix(hs: Hashes, base: Digest, coms: seq<Digest>, c: Digest, k: nat)
    requires Sampling(hs) && k <= |coms|
    ensures FoldAlpha(hs, base, coms + [c], k) == FoldAlpha(hs, base, coms, k)
  {
    assert (coms + [c])[..k] == coms[..k];
  }

  /** Committing one more folded layer keeps the run well formed. */
  lemma LayersExtended(hs: Hashes, base: Digest, quotient: seq<QM31>, log: nat, coms: seq<Digest>, layers: seq<seq<QM31>>,
                       folded: seq<QM31>, root: Digest)
    requires Sampling(hs) && FoldedLayers(hs, base, quotient, log, coms, layers) && |layers| < log - 1
    requires |layers[|layers| - 1]| == Pow2(log - |layers|)
    requires folded == LineFold(layers[|layers| - 1], FoldAlpha(hs, base, coms, |layers|), log - |layers|)
    requires root == Root(hs.block, FeltTree(hs.block, folded), log - |layers| - 1)
    ensures FoldedLayers(hs, base, quotient, log, coms + [root], layers + [folded])
  {
    hide Root, FoldAlpha, CircleFold, LineFold, FeltTree, Pow2;
    var n := |layers|;
    var coms', layers' := coms + [root], layers + [folded];
    assert HonestLayer(hs, base, quotient, log, coms, layers, n - 1);
    AlphaOfPrefix(hs, base, coms, root, n);
    assert HonestLayer(hs, base, quotient, log, coms', layers', n);
    forall l: nat | l < n ensures HonestLayer(hs, base, quotient, log, coms', layers', l) {
      assert HonestLayer(hs, base, quotient, log, coms, layers, l);
      AlphaOfPrefix(hs, base, coms, root, l);
      assert coms'[l] == coms[l] && layers'[l] == layers[l] && (l > 0 ==> layers'[l - 1] == layers[l - 1]);
    }
  }

  /** One line fold: draw the challenge, fold, commit. */
  method FoldOnce(channel: Channel, ghost base: Digest, ghost quotient: seq<QM31>, log: nat, coms: seq<Digest>,
                  layers: seq<seq<QM31>>, twiddles: seq<M31>)
    returns (coms': seq<Digest>, layers': seq<seq<QM31>>)
    requires Sampling(channel.hs) && FoldedLayers(channel.hs, base, quotient, log, coms, layers) && |layers| < log - 1
    requires twiddles == LineTwiddles(log - |layers|)
    requires channel.Now() == State(MixedAll(channel.hs, base, coms), 0)
    modifies channel
    ensures |layers'| == |layers| + 1 && FoldedLayers(channel.hs, base, quotient, log, coms', layers')
    ensures channel.Now() == State(MixedAll(channel.hs, base, coms'), 0)
  {
    hide Root, CircleFold, Felt, AfterFelt, FeltTree, Pow2, Sampling, MixedDigest, FoldLineCpu, LineTwiddles, FoldedLayers;
    LayersShape(channel.hs, base, quotient, log, coms, layers);
    var n := |layers|;
    Pow2Unfold(log - n);
    assert coms[..n] == coms;
    var alpha := channel.DrawFelt();
    var folded := FoldLineCpu(layers[n - 1], alpha, twiddles);
    var root := CommitLayer(channel, folded, log - n - 1);
    LayersExtended(channel.hs, base, quotient, log, coms, layers, folded, root);
    coms', layers' := coms + [root], layers + [folded];
    assert coms'[..n] == coms;
  }

  lemma LayersShape(hs: Hashes, base: Digest, quotient: seq<QM31>, log: nat, coms: seq<Digest>, layers: seq<seq<QM31>>)
    requires Sampling(hs) && FoldedLayers(hs, base, quotient, log, coms, layers)
    ensures 4 <= log <= 30 && 1 <= |layers| == |coms| <= log
    ensures |layers[|layers| - 1]| == Pow2(log - |layers|)
  {
    hide Root, CircleFold, LineFold, FoldAlpha, Pow2;
    assert HonestLayer(hs, base, quotient, log, coms, layers, |layers| - 1);
  }

  function Siblings(indices: seq<nat>): (r: seq<nat>)
    ensures |r| == |indices|
  {
    seq(|indices|, q requires 0 <= q < |indices| => Sibling(indices[q]))
  }

  function ValuesOf<T>(values: seq<T>, indices: seq<nat>): (r: seq<T>)
    requires forall q: nat :: q < |indices| ==> indices[q] < |values|
    ensures |r| == |indices|
  {
    seq(|indices|, q requires 0 <= q < |indices| => values[indices[q]])
  }

  /** Values, siblings and paths at the indices. */
  method Decommit<T(!new)>(h: HashFn, values: seq<T>, leaves: seq<Digest>, k: nat, indices: seq<nat>) returns (d: Decommitment<T>)
    requires |values| == |leaves| == Pow2(k) && k >= 1
    requires forall q: nat :: q < |indices| ==> indices[q] < Pow2(k)
    ensures HonestDecommitment(h, values, leaves, k, indices, d)
  {
    hide AuthPath, Pow2, Sibling;
    var siblings := Siblings(indices);
    forall q: nat | q < |indices| ensures siblings[q] == Sibling(indices[q]) < Pow2(k) {
      SiblingBound(indices[q], k);
    }
    var paths := PathsFromLayers(h, leaves, k, indices);
    var siblingPaths := PathsFromLayers(h, leaves, k, siblings);
    d := Decommitment(ValuesOf(values, indices), ValuesOf(values, siblings), paths, siblingPaths);
    forall q: nat | q < |indices|
      ensures d.siblings[q] == values[Sibling(indices[q])] && d.siblingPaths[q] == AuthPath(h, leaves, k, Sibling(indices[q]))
    {
      assert siblings[q] == Sibling(indices[q]);
    }
  }

  /** The commit phase: circle fold, then line folds down to eight values. */
  method CommitPhase(channel: Channel, quotient: seq<QM31>, log: nat, ghost base: Digest)
    returns (coms: seq<Digest>, layers: seq<seq<QM31>>)
    requires Sampling(channel.hs) && 6 <= log <= 30 && |quotient| == Pow2(log)
    requires channel.Now() == State(base, 0)
    modifies channel
    ensures |layers| == log - LAST_LOG && FoldedLayers(channel.hs, base, quotient, log, coms, layers)
    ensures channel.Now() == State(MixedAll(channel.hs, base, coms), 0)
  {
    hide Root, Felt, AfterFelt, FeltTree, Pow2, Sampling, MixedDigest, FoldLineCpu, LineTwiddles, CircleTwiddles, LineFold, FoldedLayers;
    Pow2Unfold(log);
    var twiddles := PrecomputeFriTwiddles(log, LAST_LOG);
    var alpha := channel.DrawFelt();
    var line := FoldLineCpu(quotient, alpha, twiddles[0]);
    var root := CommitLayer(channel, line, log - 1);
    coms, layers := [root], [line];
    FirstLayer(channel.hs, base, quotient, log, line, root);
    var current := log - 1;
    while current > FRI_CPU_TAIL_LOG
      invariant 3 <= current == log - |layers|
      invariant FoldedLayers(channel.hs, base, quotient, log, coms, layers)
      invariant channel.Now() == State(MixedAll(channel.hs, base, coms), 0)
    {
      coms, layers := FoldOnce(channel, base, quotient, log, coms, layers, twiddles[log - current]);
      current := current - 1;
    }
    while current > LAST_LOG
      invariant 3 <= current == log - |layers|
      invariant FoldedLayers(channel.hs, base, quotient, log, coms, layers)
      invariant channel.Now() == State(MixedAll(channel.hs, base, coms), 0)
    {
      coms, layers := FoldOnce(channel, base, quotient, log, coms, layers, twiddles[log - current]);
      current := current - 1;
    }
  }

  lemma FirstLayer(hs: Hashes, base: Digest, quotient: seq<QM31>, log: nat, line: seq<QM31>, root: Digest)
    requires Sampling(hs) && 4 <= log <= 30 && |quotient| == Pow2(log)
    requires line == CircleFold(quotient, Felt(hs, State(base, 0)), log) && root == Root(hs.block, FeltTree(hs.block, line), log - 1)
    ensures FoldedLayers(hs, base, quotient, log, [root], [line])
    ensures MixedAll(hs, base, [root]) == MixedDigest(hs, base, root)
  {
    hide Root, Felt, FeltTree, Pow2, MixedDigest, CircleFold;
    MixedNothing(hs, base, [root]);
    assert [root][..0] == [];
    assert HonestLayer(hs, base, quotient, log, [root], [line], 0);
  }

  /** Decommit every line layer at the halved indices. */
  method DecommitLayers(h: HashFn, layers: seq<seq<QM31>>, log: nat, indices: seq<nat>) returns (ds: seq<Decommitment<QM31>>)
    requires |layers| < log && forall l: nat :: l < |layers| ==> |layers[l]| == Pow2(log - 1 - l)
    requires forall q: nat :: q < |indices| ==> indices[q] < Pow2(log)
    ensures |ds| == |layers|
    ensures forall l: nat :: l < |layers| ==>
      HonestDecommitment(h, layers[l], FeltTree(h, layers[l]), log - 1 - l, ShiftedBy(indices, l + 1), ds[l])
  {
    hide HonestDecommitment, FeltTree, Pow2, Shr;
    ds := [];
    var folded := Halved(indices);
    ShiftedSnoc(indices, 0);
    for l := 0 to |layers|
      invariant |ds| == l && folded == ShiftedBy(indices, l + 1)
      invariant forall i: nat :: i < l ==>
        HonestDecommitment(h, layers[i], FeltTree(h, layers[i]), log - 1 - i, ShiftedBy(indices, i + 1), ds[i])
    {
      forall q: nat | q < |indices| ensures folded[q] < Pow2(log - 1 - l) {
        ShrBound(indices[q], l + 1, log - 1 - l);
      }
      var d := Decommit(h, layers[l], FeltTree(h, layers[l]), log - 1 - l, folded);
      ds := ds + [d];
      ShiftedSnoc(indices, l + 1);
      folded := Halved(folded);
    }
  }

  /** All channel work of the prover: commit, challenge, fold, draw the indices. */
  method CommitAll(hs: Hashes, trace: seq<M31>, log: nat)
    returns (traceRoot: Digest, quotientRoot: Digest, quotient: seq<QM31>, coms: seq<Digest>, lines: seq<seq<QM31>>, indices: seq<nat>)
    requires Sampling(hs) && 6 <= log <= 30 && |trace| == Pow2(log)
    ensures traceRoot == Root(hs.block, WordTree(hs.block, trace), log)
    ensures quotient == Quotient(trace, QuotientAlpha(hs, traceRoot))
    ensures quotientRoot == Root(hs.block, FeltTree(hs.block, quotient), log)
    ensures |lines| == log - LAST_LOG
    ensures FoldedLayers(hs, BaseDigest(hs, traceRoot, quotientRoot), quotient, log, coms, lines)
    ensures indices == QueryIndices(hs, BaseDigest(hs, traceRoot, quotientRoot), coms, lines[|lines| - 1], Pow2(log))
  {
    hide Root, Felt, AfterFelt, FeltTree, WordTree, Pow2, Sampling, MixedDigest, MixedFelts, Quotient, FoldedLayers, Numbers, QuotientAlpha, QueryIndices;
    var channel := new Channel(hs);
    traceRoot := ReduceToRoot(hs.block, WordTree(hs.block, trace), log);
    channel.MixDigest(traceRoot);
    var alpha := channel.DrawFelt();
    quotient := Quotient(trace, alpha);
    quotientRoot := CommitLayer(channel, quotient, log);
    ghost var base := BaseDigest(hs, traceRoot, quotientRoot);
    coms, lines := CommitPhase(channel, quotient, log, base);
    LayerSizes(hs, base, quotient, log, coms, lines);
    var last := lines[|lines| - 1];
    channel.MixFelts(last);
    indices := channel.DrawNumbers(Pow2(log), N_QUERIES);
    DrawnAsSpecified(hs, traceRoot, base, coms, last, Pow2(log));
  }

  /** prove_with_cache from the evaluated trace on. */
  method Prove(hs: Hashes, a: M31, b: M31, logN: nat, trace: seq<M31>) returns (p: Proof, ghost layers: seq<seq<QM31>>)
    requires Sampling(hs) && 4 <= logN && logN + BLOWUP_BITS <= 30 && |trace| == Pow2(logN + BLOWUP_BITS)
    ensures p.logTraceSize == logN && p.publicInputs == (a, b)
    ensures HonestRun(hs, trace, p, layers)
  {
    hide Root, FeltTree, WordTree, Pow2, Sampling, Quotient, FoldedLayers, HonestDecommitment, BaseDigest, QuotientAlpha, QueryIndices, HonestRun;
    var h, log := hs.block, logN + BLOWUP_BITS;
    var traceRoot, quotientRoot, quotient, coms, lines, indices := CommitAll(hs, trace, log);
    LayerSizes(hs, BaseDigest(hs, traceRoot, quotientRoot), quotient, log, coms, lines);
    layers := lines;
    var traceOpening := Decommit<u32>(h, trace, WordTree(h, trace), log, indices);
    var quotientOpening := Decommit(h, quotient, FeltTree(h, quotient), log, indices);
    var layerOpenings := DecommitLayers(h, lines, log, indices);
    p := Proof(traceRoot, quotientRoot, coms, lines[|lines| - 1], logN, (a, b), indices, traceOpening, quotientOpening, layerOpenings);
    RunAssembled(hs, trace, p, lines, quotient);
  }

  lemma DrawnAsSpecified(hs: Hashes, traceRoot: Digest, base: Digest, coms: seq<Digest>, last: seq<QM31>, evalSize: nat)
    requires Sampling(hs) && |last| > 0 && evalSize > 0
    ensures QuotientAlpha(hs, traceRoot) == Felt(hs, State(MixedDigest(hs, ZERO_DIGEST, traceRoot), 0))
    ensures QueryIndices(hs, base, coms, last, evalSize)
         == Numbers(hs, State(MixedFelts(hs, MixedAll(hs, base, coms), last), 0), evalSize, N_QUERIES)
  {
  }

  lemma RunAssembled(hs: Hashes, trace: seq<M31>, p: Proof, layers: seq<seq<QM31>>, quotient: seq<QM31>)
    requires Sampling(hs) && 6 <= EvalLog(p) <= 30 && |trace| == Pow2(EvalLog(p))
    requires quotient == Quotient(trace, QuotientAlpha(hs, p.traceCommitment))
    requires p.traceCommitment == Root(hs.block, WordTree(hs.block, trace), EvalLog(p))
    requires p.quotientCommitment == Root(hs.block, FeltTree(hs.block, quotient), EvalLog(p))
    requires |layers| == EvalLog(p) - LAST_LOG && |p.friDecommitments| == |layers|
    requires FoldedLayers(hs, Base(hs, p), quotient, EvalLog(p), p.friCommitments, layers)
    requires p.friLastLayer == layers[|layers| - 1]
    requires p.queryIndices == QueryIndices(hs, Base(hs, p), p.friCommitments, p.friLastLayer, Pow2(EvalLog(p)))
    requires HonestDecommitment(hs.block, trace, WordTree(hs.block, trace), EvalLog(p), p.queryIndices, p.traceDecommitment)
    requires HonestDecommitment(hs.block, quotient, FeltTree(hs.block, quotient), EvalLog(p), p.queryIndices, p.quotientDecommitment)
    requires forall l: nat :: l < |layers| ==>
      HonestDecommitment(hs.block, layers[l], FeltTree(hs.block, layers[l]), EvalLog(p) - 1 - l, ShiftedBy(p.queryIndices, l + 1), p.friDecommitments[l])
    ensures HonestRun(hs, trace, p, layers)
  {
    hide Root, Quotient, FoldedLayers, HonestDecommitment, FeltTree, WordTree, Pow2, QueryIndices, QuotientAlpha;
  }

  lemma LayerSizes(hs: Hashes, base: Digest, quotient: seq<QM31>, log: nat, coms: seq<Digest>, layers: seq<seq<QM31>>)
    requires Sampling(hs) && FoldedLayers(hs, base, quotient, log, coms, layers)
    ensures |coms| == |layers|
    ensures forall l: nat :: l < |layers| ==> |layers[l]| == Pow2(log - 1 - l)
    ensures |layers| == log - 3 ==> |layers[|layers| - 1]| == 8
  {
    hide Root, CircleFold, LineFold, FoldAlpha, Pow2;
    forall l: nat | l < |layers| ensures |layers[l]| == Pow2(log - 1 - l) {
      assert HonestLayer(hs, base, quotient, log, coms, layers, l);
    }
    assert Pow2(3) == 8 by { Pow2Table(); }
  }

  /** Proving and then verifying succeeds, unless a root happens to be all zero. */
  method ProveThenVerify(hs: Hashes, a: M31, b: M31, logN: nat, trace: seq<M31>) returns (p: Proof, v: Verdict)
    requires Sampling(hs) && 4 <= logN && logN + BLOWUP_BITS <= 30 && |trace| == Pow2(logN + BLOWUP_BITS)
    ensures v.Accept? <==> p.traceCommitment != ZERO_DIGEST && p.quotientCommitment != ZERO_DIGEST
  {
    hide HonestRun, Accepts, Sampling;
    ghost var layers;
    p, layers := Prove(hs, a, b, logN, trace);
    Completeness(hs, trace, p, layers);
    v := Verify(hs, p);
  }
}
