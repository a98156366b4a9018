/**
 The Fibonacci proof and the computation prover and verifier share: transcript
 digests, challenges, query indices, folds and openings (src/prover.rs, src/verifier.rs).
 */
module StarkProof {
  import opened Bits
  import opened M31Field
  import opened SecureField
  import opened SecureInverse
  import Fib = Fibonacci
  import opened Hashing
  import opened MerkleTree
  import opened FiatShamir

  const N_QUERIES: nat := 80
  const LAST_LOG: nat := 3

  /** Values at the queried positions and at their siblings, each with its path. */
  datatype Decommitment<T> = Decommitment(
    values: seq<T>, siblings: seq<T>, paths: seq<seq<Digest>>, siblingPaths: seq<seq<Digest>>)

  datatype Proof = Proof(
    traceCommitment: Digest,
    quotientCommitment: Digest,
    friCommitments: seq<Digest>,
    friLastLayer: seq<QM31>,
    logTraceSize: nat,
    publicInputs: (u32, u32),
    queryIndices: seq<nat>,
    traceDecommitment: Decommitment<u32>,
    quotientDecommitment: Decommitment<QM31>,
    friDecommitments: seq<Decommitment<QM31>>)

  // ---- leaves ----

  /** Single-word rows of the trace column. */
  function WordRows(values: seq<u32>): (r: seq<seq<u32>>)
    ensures |r| == |values|
  {
    seq(|values|, i requires 0 <= i < |values| => [values[i]])
  }

  /** Four-word rows of a secure column. */
  function FeltRows(values: seq<QM31>): (r: seq<seq<u32>>)
    ensures |r| == |values|
  {
    seq(|values|, i requires 0 <= i < |values| => ToWords(values[i]))
  }

  // ---- transcript ----

  /** The digest once the trace and quotient roots are mixed in. */
  function BaseDigest(hs: Hashes, traceCom: Digest, quotientCom: Digest): Digest {
    MixedDigest(hs, MixedDigest(hs, ZERO_DIGEST, traceCom), quotientCom)
  }

  /** The challenge of fold k: drawn right after the first k layer commitments. */
  ghost function FoldAlpha(hs: Hashes, base: Digest, coms: seq<Digest>, k: nat): QM31
    requires Sampling(hs) && k <= |coms|
  {
    Felt(hs, FoldState(hs, base, coms, k))
  }

  /** The channel from which the challenge of fold k is drawn. */
  function FoldState(hs: Hashes, base: Digest, coms: seq<Digest>, k: nat): State
    requires k <= |coms|
  {
    State(MixedAll(hs, base, coms[..k]), 0)
  }

  /** The channel from which the query indices are drawn. */
  function IndexState(hs: Hashes, base: Digest, coms: seq<Digest>, last: seq<QM31>): State {
    State(MixedFelts(hs, MixedAll(hs, base, coms), last), 0)
  }

  /** The query indices: drawn after the last layer is mixed in. */
  ghost function QueryIndices(hs: Hashes, base: Digest, coms: seq<Digest>, last: seq<QM31>, evalSize: nat): (r: seq<nat>)
    requires evalSize > 0
    ensures |r| == N_QUERIES && forall q: nat :: q < N_QUERIES ==> r[q] < evalSize
  {
    Numbers(hs, IndexState(hs, base, coms, last), evalSize, N_QUERIES)
  }

  // ---- folds ----

  /** get_pair_from_decom_4: the even member first. */
  function OrderedPair(value: QM31, sibling: QM31, idx: nat): (QM31, QM31) {
    if idx % 2 == 0 then (value, sibling) else (sibling, value)
  }

  /** recompute_quotient_at */
  function QuotientAt(trace: seq<M31>, alpha: QM31, index: nat): QM31
    requires index < |trace|
  {
    var n := |trace|;
    QScale(alpha, Sub(Sub(trace[(index + 2) % n], trace[(index + 1) % n]), trace[index]))
  }

  function Quotient(trace: seq<M31>, alpha: QM31): (r: seq<QM31>)
    ensures |r| == |trace|
  {
    seq(|trace|, i requires 0 <= i < |trace| => QuotientAt(trace, alpha, i))
  }

  /** The quotient vanishes at an index exactly when the three trace values there satisfy the recurrence. */
  lemma QuotientZeroIff(trace: seq<M31>, alpha: QM31, index: nat)
    requires index < |trace| && alpha != QZERO
    ensures QuotientAt(trace, alpha, index) == QZERO
       <==> trace[(index + 2) % |trace|] == Add(trace[(index + 1) % |trace|], trace[index])
  {
    hide QScale, Add, Sub;
    var n := |trace|;
    var c := Sub(Sub(trace[(index + 2) % n], trace[(index + 1) % n]), trace[index]);
    Fib.TransitionZeroIff(trace[index], trace[(index + 1) % n], trace[(index + 2) % n]);
    QScaleIsMul(alpha, c);
    QScaleLaws(alpha, alpha, 0, 0);
    if QScale(alpha, c) == QZERO {
      QNoZeroDivisors(alpha, Embed(c));
    }
  }

  /** Raising one of the three trace values by v moves the quotient by alpha v, with the sign of the recurrence. */
  lemma QuotientSlopes(trace: seq<M31>, alpha: QM31, i: nat, v: M31)
    requires i < |trace| && |trace| >= 3
    ensures var (n, before) := (|trace|, QuotientAt(trace, alpha, i));
            && QuotientAt(Raised(trace, (i + 2) % n, v), alpha, i) == QAdd(before, QScale(alpha, v))
            && QuotientAt(Raised(trace, (i + 1) % n, v), alpha, i) == QSub(before, QScale(alpha, v))
            && QuotientAt(Raised(trace, i, v), alpha, i) == QSub(before, QScale(alpha, v))
  {
    hide QScale, QAdd, QSub;
    var n := |trace|;
    assert (i + 1) % n != i && (i + 2) % n != i && (i + 1) % n != (i + 2) % n by { ThreeApart(i, n); }
    var a, b, c := trace[(i + 2) % n], trace[(i + 1) % n], trace[i];
    SlopesOfDifference(a, b, c, v);
    QScaleSlopes(alpha, Sub(Sub(a, b), c), v);
  }

  function Raised(trace: seq<M31>, j: nat, v: M31): seq<M31>
    requires j < |trace|
  {
    trace[j := Add(trace[j], v)]
  }

  lemma ThreeApart(i: nat, n: nat)
    requires i < n && n >= 3
    ensures (i + 1) % n == (if i + 1 < n then i + 1 else i + 1 - n) && (i + 2) % n == if i + 2 < n then i + 2 else i + 2 - n
  {
  }

  lemma SlopesOfDifference(a: M31, b: M31, c: M31, v: M31)
    ensures Sub(Sub(Add(a, v), b), c) == Add(Sub(Sub(a, b), c), v)
    ensures Sub(Sub(a, Add(b, v)), c) == Sub(Sub(Sub(a, b), c), v)
    ensures Sub(Sub(a, b), Add(c, v)) == Sub(Sub(Sub(a, b), c), v)
  {
  }

  lemma QScaleSlopes(alpha: QM31, m: M31, v: M31)
    ensures QScale(alpha, Add(m, v)) == QAdd(QScale(alpha, m), QScale(alpha, v))
    ensures QScale(alpha, Sub(m, v)) == QSub(QScale(alpha, m), QScale(alpha, v))
  {
    hide *;
    QScaleIsMul(alpha, Add(m, v)); QScaleIsMul(alpha, Sub(m, v)); QScaleIsMul(alpha, m); QScaleIsMul(alpha, v);
    EmbedHom(m, v);
    QMulDistrib(alpha, Embed(m), Embed(v));
  }

  function Halved(indices: seq<nat>): (r: seq<nat>)
    ensures |r| == |indices|
  {
    seq(|indices|, q requires 0 <= q < |indices| => indices[q] / 2)
  }

  /** The indices after l halvings. */
  function ShiftedBy(indices: seq<nat>, l: nat): (r: seq<nat>)
    ensures |r| == |indices|
  {
    seq(|indices|, q requires 0 <= q < |indices| => Shr(indices[q], l))
  }

  lemma ShiftedSnoc(indices: seq<nat>, l: nat)
    ensures Halved(ShiftedBy(indices, l)) == ShiftedBy(indices, l + 1)
    ensures ShiftedBy(indices, 0) == indices
  {
    hide Shr;
    forall q | 0 <= q < |indices| ensures Shr(indices[q], l) / 2 == Shr(indices[q], l + 1) && Shr(indices[q], 0) == indices[q] {
      ShrSnoc(indices[q], l);
      ShrZero(indices[q]);
    }
  }

  // ---- openings ----

  /** One query: the value opens at its index and the sibling value at the sibling index. */
  ghost predicate QueryOpens(h: HashFn, root: Digest, row: seq<u32>, siblingRow: seq<u32>,
                             path: seq<Digest>, siblingPath: seq<Digest>, index: nat) {
    && Climb(h, HashLeaf(h, row), index, path) == root
    && Climb(h, HashLeaf(h, siblingRow), Sibling(index), siblingPath) == root
  }

  /** What the auth-path checks of one decommitment establish. */
  ghost predicate Opens(h: HashFn, root: Digest, rows: seq<seq<u32>>, siblingRows: seq<seq<u32>>,
                        paths: seq<seq<Digest>>, siblingPaths: seq<seq<Digest>>, indices: seq<nat>) {
    && |rows| == N_QUERIES && |paths| == N_QUERIES
    && |siblingRows| >= |indices| && |siblingPaths| >= |indices| && |indices| <= N_QUERIES
    && forall q: nat :: q < |indices| ==>
         QueryOpens(h, root, rows[q], siblingRows[q], paths[q], siblingPaths[q], indices[q])
  }

  ghost predicate FeltsOpen(h: HashFn, root: Digest, d: Decommitment<QM31>, indices: seq<nat>) {
    Opens(h, root, FeltRows(d.values), FeltRows(d.siblings), d.paths, d.siblingPaths, indices)
  }

  ghost predicate WordsOpen(h: HashFn, root: Digest, d: Decommitment<u32>, indices: seq<nat>) {
    Opens(h, root, WordRows(d.values), WordRows(d.siblings), d.paths, d.siblingPaths, indices)
  }
}
