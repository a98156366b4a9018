/**
 Proofs as files: the wire form of a proof determines it, every honest proof fits the
 format, and an honest proof read back from its file is the proof that was accepted
 (src/bin/stark_cli.rs, src/prover.rs).
 */
module ProofFiles {
  import opened Bits
  import opened M31Field
  import opened SecureField
  import opened Hashing
  import opened MerkleTree
  import opened FiatShamir
  import opened StarkProof
  import opened StarkVerifier
  import opened StarkProver
  import opened HonestRuns
  import Codec = ProofCodec

  function FeltsToWire(d: Decommitment<QM31>): Codec.WireDecommitment {
    Codec.WireDecommitment(FeltRows(d.values), FeltRows(d.siblings), d.paths, d.siblingPaths)
  }

  function WordsToWire(d: Decommitment<u32>): Codec.WireDecommitment {
    Codec.WireDecommitment(WordRows(d.values), WordRows(d.siblings), d.paths, d.siblingPaths)
  }

  /** The fields in the form they are written. */
  function ToWire(p: Proof): Codec.WireProof
    requires Codec.Fits(p.logTraceSize)
  {
    Codec.WireProof(
      p.logTraceSize, p.publicInputs.0, p.publicInputs.1, p.traceCommitment, p.quotientCommitment, p.friCommitments,
      FeltRows(p.friLastLayer), p.queryIndices, WordsToWire(p.traceDecommitment), FeltsToWire(p.quotientDecommitment),
      seq(|p.friDecommitments|, i requires 0 <= i < |p.friDecommitments| => FeltsToWire(p.friDecommitments[i])))
  }

  lemma FeltRowsInjective(a: seq<QM31>, b: seq<QM31>)
    requires FeltRows(a) == FeltRows(b)
    ensures a == b
  {
    forall i | 0 <= i < |a| ensures a[i] == b[i] {
      assert ToWords(a[i]) == FeltRows(a)[i] == FeltRows(b)[i] == ToWords(b[i]);
      assert FromWords(ToWords(a[i])) == a[i] && FromWords(ToWords(b[i])) == b[i];
    }
  }

  lemma WordRowsInjective(a: seq<u32>, b: seq<u32>)
    requires WordRows(a) == WordRows(b)
    ensures a == b
  {
    forall i | 0 <= i < |a| ensures a[i] == b[i] {
      assert [a[i]] == WordRows(a)[i] == WordRows(b)[i] == [b[i]];
    }
  }

  lemma FeltsToWireInjective(d: Decommitment<QM31>, e: Decommitment<QM31>)
    requires FeltsToWire(d) == FeltsToWire(e)
    ensures d == e
  {
    FeltRowsInjective(d.values, e.values);
    FeltRowsInjective(d.siblings, e.siblings);
  }

  /** The wire form determines the proof. */
  lemma ToWireInjective(p: Proof, q: Proof)
    requires Codec.Fits(p.logTraceSize) && Codec.Fits(q.logTraceSize) && ToWire(p) == ToWire(q)
    ensures p == q
  {
    hide FeltsToWire, FeltRows, WordRows;
    FeltRowsInjective(p.friLastLayer, q.friLastLayer);
    WordRowsInjective(p.traceDecommitment.values, q.traceDecommitment.values);
    WordRowsInjective(p.traceDecommitment.siblings, q.traceDecommitment.siblings);
    FeltsToWireInjective(p.quotientDecommitment, q.quotientDecommitment);
    var a, b := ToWire(p).friDecommitments, ToWire(q).friDecommitments;
    assert |p.friDecommitments| == |a| == |b| == |q.friDecommitments|;
    forall i | 0 <= i < |p.friDecommitments| ensures p.friDecommitments[i] == q.friDecommitments[i] {
      assert a[i] == b[i];
      FeltsToWireInjective(p.friDecommitments[i], q.friDecommitments[i]);
    }
    assert p.friDecommitments == q.friDecommitments;
  }

  // ---- back from the file ----

  /** Rows of four canonical words, as from_u32_array takes them. */
  ghost predicate FeltShaped(rows: seq<seq<u32>>) {
    forall i :: 0 <= i < |rows| ==> |rows[i]| == 4 && forall j :: 0 <= j < 4 ==> rows[i][j] < P
  }

  ghost predicate WordShaped(rows: seq<seq<u32>>) { forall i :: 0 <= i < |rows| ==> |rows[i]| == 1 }

  ghost predicate Digests(ds: seq<seq<u32>>) { forall i :: 0 <= i < |ds| ==> |ds[i]| == 8 }

  ghost predicate PathShaped(paths: seq<seq<seq<u32>>>) { forall i :: 0 <= i < |paths| ==> Digests(paths[i]) }

  ghost predicate FeltsWire(d: Codec.WireDecommitment) {
    FeltShaped(d.values) && FeltShaped(d.siblings) && PathShaped(d.paths) && PathShaped(d.siblingPaths)
  }

  /** The shapes the reader's array types give, with canonical words. */
  ghost predicate ProofShaped(w: Codec.WireProof) {
    && |w.traceCommitment| == 8 && |w.quotientCommitment| == 8 && Digests(w.friCommitments) && FeltShaped(w.friLastLayer)
    && WordShaped(w.traceDecommitment.values) && WordShaped(w.traceDecommitment.siblings)
    && PathShaped(w.traceDecommitment.paths) && PathShaped(w.traceDecommitment.siblingPaths)
    && FeltsWire(w.quotientDecommitment)
    && forall i :: 0 <= i < |w.friDecommitments| ==> FeltsWire(w.friDecommitments[i])
  }

  ghost function Felts(rows: seq<seq<u32>>): (r: seq<QM31>)
    requires FeltShaped(rows)
    ensures |r| == |rows|
  {
    seq(|rows|, i requires 0 <= i < |rows| => QM31(CM31(rows[i][0], rows[i][1]), CM31(rows[i][2], rows[i][3])))
  }

  ghost function Words(rows: seq<seq<u32>>): (r: seq<u32>)
    requires WordShaped(rows)
    ensures |r| == |rows|
  {
    seq(|rows|, i requires 0 <= i < |rows| => rows[i][0])
  }

  ghost function AsDigests(ds: seq<seq<u32>>): (r: seq<Digest>)
    requires Digests(ds)
    ensures |r| == |ds|
  {
    seq(|ds|, i requires 0 <= i < |ds| => ds[i])
  }

  ghost function AsPaths(paths: seq<seq<seq<u32>>>): (r: seq<seq<Digest>>)
    requires PathShaped(paths)
    ensures |r| == |paths|
  {
    seq(|paths|, i requires 0 <= i < |paths| => AsDigests(paths[i]))
  }

  ghost function FeltsFromWire(d: Codec.WireDecommitment): Decommitment<QM31>
    requires FeltsWire(d)
  {
    Decommitment(values := Felts(d.values), siblings := Felts(d.siblings), paths := AsPaths(d.paths), siblingPaths := AsPaths(d.siblingPaths))
  }

  /** The proof deserialize_proof puts together from what it read. */
  ghost function FromWire(w: Codec.WireProof): Proof
    requires ProofShaped(w)
  {
    var t := w.traceDecommitment;
    Proof(
      traceCommitment := w.traceCommitment, quotientCommitment := w.quotientCommitment, friCommitments := AsDigests(w.friCommitments),
      friLastLayer := Felts(w.friLastLayer), logTraceSize := w.logTraceSize, publicInputs := (w.a, w.b), queryIndices := w.queryIndices,
      traceDecommitment := Decommitment(values := Words(t.values), siblings := Words(t.siblings),
                                        paths := AsPaths(t.paths), siblingPaths := AsPaths(t.siblingPaths)),
      quotientDecommitment := FeltsFromWire(w.quotientDecommitment),
      friDecommitments := seq(|w.friDecommitments|, i requires 0 <= i < |w.friDecommitments| => FeltsFromWire(w.friDecommitments[i])))
  }

  lemma FeltsBack(values: seq<QM31>)
    ensures FeltShaped(FeltRows(values)) && Felts(FeltRows(values)) == values
  {
  }

  lemma WordsBack(values: seq<u32>)
    ensures WordShaped(WordRows(values)) && Words(WordRows(values)) == values
  {
  }

  lemma DecommitmentBack(d: Decommitment<QM31>)
    ensures FeltsWire(FeltsToWire(d)) && FeltsFromWire(FeltsToWire(d)) == d
  {
    hide FeltRows, Felts, FeltShaped;
    FeltsBack(d.values); FeltsBack(d.siblings);
    PathsBack(d.paths); PathsBack(d.siblingPaths);
  }

  lemma PathsBack(paths: seq<seq<Digest>>)
    ensures PathShaped(paths) && AsPaths(paths) == paths
  {
    forall i | 0 <= i < |paths| ensures AsDigests(paths[i]) == paths[i] {
    }
  }

  /** The written fields, put back together, are the proof. */
  lemma WireRoundTrip(p: Proof)
    requires Codec.Fits(p.logTraceSize)
    ensures ProofShaped(ToWire(p)) && FromWire(ToWire(p)) == p
  {
    hide FeltRows, Felts, FeltShaped, WordRows, Words, WordShaped, FeltsToWire, FeltsFromWire, FeltsWire;
    var w := ToWire(p);
    FeltsBack(p.friLastLayer);
    WordsBack(p.traceDecommitment.values); WordsBack(p.traceDecommitment.siblings);
    DecommitmentBack(p.quotientDecommitment);
    forall i | 0 <= i < |w.friDecommitments|
      ensures FeltsWire(w.friDecommitments[i]) && FeltsFromWire(w.friDecommitments[i]) == p.friDecommitments[i]
    {
      DecommitmentBack(p.friDecommitments[i]);
    }
    PathsBack(p.traceDecommitment.paths); PathsBack(p.traceDecommitment.siblingPaths);
    assert AsDigests(p.friCommitments) == p.friCommitments;
    assert FromWire(w).friDecommitments == p.friDecommitments;
  }

  /** Path lists of trees of height at most 30. */
  ghost predicate ShortPaths(paths: seq<seq<Digest>>) { forall i :: 0 <= i < |paths| ==> |paths[i]| <= 30 }

  lemma ShortPathsFit(paths: seq<seq<Digest>>)
    requires ShortPaths(paths)
    ensures Codec.PathsFit(paths)
  {
  }

  lemma HonestFeltsFit(h: HashFn, values: seq<QM31>, k: nat, indices: seq<nat>, d: Decommitment<QM31>)
    requires k <= 30 && |indices| == N_QUERIES && HonestDecommitment(h, values, FeltTree(h, values), k, indices, d)
    ensures Codec.DecommitmentFits(FeltsToWire(d), 4)
  {
    hide AuthPath, Pow2;
    forall q | 0 <= q < |indices| ensures |d.paths[q]| == k && |d.siblingPaths[q]| == k {
      assert d.paths[q] == AuthPath(h, FeltTree(h, values), k, indices[q]);
    }
    ShortPathsFit(d.paths); ShortPathsFit(d.siblingPaths);
  }

  lemma HonestWordsFit(h: HashFn, values: seq<u32>, k: nat, indices: seq<nat>, d: Decommitment<u32>)
    requires k <= 30 && |indices| == N_QUERIES && HonestDecommitment(h, values, WordTree(h, values), k, indices, d)
    ensures Codec.DecommitmentFits(WordsToWire(d), 1)
  {
    hide AuthPath, Pow2;
    forall q | 0 <= q < |indices| ensures |d.paths[q]| == k && |d.siblingPaths[q]| == k {
      assert d.paths[q] == AuthPath(h, WordTree(h, values), k, indices[q]);
    }
    ShortPathsFit(d.paths); ShortPathsFit(d.siblingPaths);
  }

  /** Every honest proof can be written without truncation. */
  lemma HonestProofFits(hs: Hashes, trace: seq<M31>, p: Proof, layers: seq<seq<QM31>>)
    requires Sampling(hs) && HonestRun(hs, trace, p, layers)
    ensures Codec.Fits(p.logTraceSize) && Codec.ProofFits(ToWire(p))
  {
    hide HonestDecommitment, HonestLayer, Root, Quotient, QuotientAlpha, FeltTree, WordTree, FoldAlpha, Pow2, FeltsToWire, WordsToWire,
      Codec.DecommitmentFits;
    var log := EvalLog(p);
    var quotient := Quotient(trace, QuotientAlpha(hs, p.traceCommitment));
    LayersShape(hs, Base(hs, p), quotient, log, p.friCommitments, layers);
    assert Pow2(3) == 8 by { Pow2Table(); }
    Pow2Monotone(log, 30); Pow2Table();
    HonestWordsFit(hs.block, trace, log, p.queryIndices, p.traceDecommitment);
    HonestFeltsFit(hs.block, quotient, log, p.queryIndices, p.quotientDecommitment);
    var w := ToWire(p);
    forall i | 0 <= i < |w.friDecommitments| ensures Codec.DecommitmentFits(w.friDecommitments[i], 4) {
      RunAtLayer(hs, trace, p, layers, i);
      HonestFeltsFit(hs.block, layers[i], log - 1 - i, ShiftedBy(p.queryIndices, i + 1), p.friDecommitments[i]);
    }
  }

  /** Prove from the public inputs, write, read back: the file gives the proof itself, and that proof is accepted. */
  method ProveThroughFile(hs: Hashes, a: M31, b: M31, logN: nat, extend: seq<M31> -> seq<M31>)
    returns (p: Proof, file: seq<byte>, read: Codec.Option<Codec.WireProof>)
    requires Sampling(hs) && 4 <= logN <= 28 && |extend(FibColumn(a, b, Pow2(logN)))| == Pow2(logN + 2)
    ensures p.logTraceSize == logN && p.publicInputs == (a, b) && read.Some?
    ensures ProofShaped(read.value) && FromWire(read.value) == p
    ensures Accepts(hs, p) <==> p.traceCommitment != ZERO_DIGEST && p.quotientCommitment != ZERO_DIGEST
  {
    hide HonestRun, Accepts, Sampling, ToWire, FromWire, ProofShaped, Codec.ProofFits, Codec.EncodeProof, Codec.DecodeProof, Pow2, FibColumn;
    ghost var layers;
    p, layers := ProveFibonacci(hs, a, b, logN, extend);
    Completeness(hs, extend(FibColumn(a, b, Pow2(logN))), p, layers);
    HonestProofFits(hs, extend(FibColumn(a, b, Pow2(logN))), p, layers);
    file := Codec.SerializeProof(ToWire(p));
    Codec.ProofRoundTrip(ToWire(p), []);
    assert Codec.EncodeProof(ToWire(p)) + [] == Codec.EncodeProof(ToWire(p));
    read := Codec.DeserializeProof(file);
    WireRoundTrip(p);
  }
}
