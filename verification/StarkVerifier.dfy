/**
 The Fibonacci verifier, and exactly which proofs it accepts (src/verifier.rs).
 */
module StarkVerifier {
  import opened Bits
  import opened M31Field
  import opened CanonicOrder
  import opened SecureField
  import opened Hashing
  import opened MerkleTree
  import opened FiatShamir
  import opened FriFold
  import opened CircleFolding
  import opened StarkProof

  datatype Part = TraceColumn | QuotientColumn | FriLayer(layer: nat)

  datatype Error =
    | InputsOutOfRange
    | WrongQueryCount
    | WrongLayerCount
    | WrongLastLayerSize
    | WrongIndices
    | ZeroTrace
    | ZeroQuotient
    | SizeMismatch(part: Part)
    | PathInvalid(part: Part, query: nat)
    | SiblingPathInvalid(part: Part, query: nat)
    | CircleFoldMismatch(query: nat)
    | LineFoldMismatch(query: nat, layer: nat)
    | LastIndexOutOfBounds(query: nat)
    | LastLayerMismatch(query: nat)
    | Panicked // an index out of bounds in a malformed proof

  datatype Verdict = Accept | Reject(error: Error)

  // ---- what acceptance means ----

  function EvalLog(p: Proof): nat { p.logTraceSize + BLOWUP_BITS }

  function Base(hs: Hashes, p: Proof): Digest { BaseDigest(hs, p.traceCommitment, p.quotientCommitment) }

  /** Counts, ranges and the Fiat-Shamir derivation of the query indices. */
  ghost predicate WellFormed(hs: Hashes, p: Proof) {
    && p.publicInputs.0 < P && p.publicInputs.1 < P
    && |p.queryIndices| == N_QUERIES
    && |p.friCommitments| == (if EvalLog(p) >= 3 then EvalLog(p) - 3 else 0)
    && |p.friLastLayer| == 8
    && p.queryIndices == QueryIndices(hs, Base(hs, p), p.friCommitments, p.friLastLayer, Pow2(EvalLog(p)))
    && p.traceCommitment != ZERO_DIGEST && p.quotientCommitment != ZERO_DIGEST
  }

  /** Every decommitment that has a commitment opens at the halved indices. */
  ghost predicate AllOpen(h: HashFn, p: Proof) {
    && WordsOpen(h, p.traceCommitment, p.traceDecommitment, p.queryIndices)
    && FeltsOpen(h, p.quotientCommitment, p.quotientDecommitment, p.queryIndices)
    && forall l: nat :: l < |p.friDecommitments| && l < |p.friCommitments| ==> LayerOpens(h, p, l)
  }

  ghost predicate LayerOpens(h: HashFn, p: Proof, l: nat)
    requires l < |p.friDecommitments| && l < |p.friCommitments|
  {
    FeltsOpen(h, p.friCommitments[l], p.friDecommitments[l], ShiftedBy(p.queryIndices, l + 1))
  }

  /** The fold of the opened pair d at index idx. */
  function FoldedPair(d: Decommitment<QM31>, q: nat, idx: nat, alpha: QM31, twiddle: M31): QM31
    requires q < |d.values| && q < |d.siblings|
  {
    var (f0, f1) := OrderedPair(d.values[q], d.siblings[q], idx);
    FoldPair(f0, f1, alpha, twiddle)
  }

  ghost predicate CircleFoldHolds(p: Proof, alphas: seq<QM31>, q: nat)
    requires EvalLog(p) <= 31 && q < |p.queryIndices| && |alphas| > 0
  {
    var d := p.quotientDecommitment;
    && |p.friDecommitments| > 0
    && q < |d.values| && q < |d.siblings| && q < |p.friDecommitments[0].values|
    && FoldedPair(d, q, p.queryIndices[q], alphas[0], CircleTwiddle(EvalLog(p), p.queryIndices[q] / 2))
       == p.friDecommitments[0].values[q]
  }

  ghost predicate LineFoldHolds(p: Proof, alphas: seq<QM31>, q: nat, l: nat)
    requires EvalLog(p) <= 31 && q < |p.queryIndices| && l + 1 < |p.friDecommitments|
  {
    var d, idx := p.friDecommitments[l], Shr(p.queryIndices[q], l + 1);
    && l + 1 < |alphas| && l + 1 <= EvalLog(p)
    && q < |d.values| && q < |d.siblings| && q < |p.friDecommitments[l + 1].values|
    && FoldedPair(d, q, idx, alphas[l + 1], LineTwiddle(EvalLog(p) - 1 - l, idx / 2)) == p.friDecommitments[l + 1].values[q]
  }

  ghost predicate LastLayerHolds(p: Proof, q: nat)
    requires q < |p.queryIndices| && |p.friDecommitments| > 0
  {
    var n := |p.friDecommitments|;
    var idx := Shr(p.queryIndices[q], n);
    && q < |p.friDecommitments[n - 1].values| && idx < |p.friLastLayer|
    && p.friDecommitments[n - 1].values[q] == p.friLastLayer[idx]
  }

  ghost predicate QueryHolds(p: Proof, alphas: seq<QM31>, q: nat)
    requires EvalLog(p) <= 31 && q < |p.queryIndices| && |alphas| > 0
  {
    && CircleFoldHolds(p, alphas, q)
    && (forall l: nat :: l + 1 < |p.friDecommitments| ==> LineFoldHolds(p, alphas, q, l))
    && LastLayerHolds(p, q)
  }

  ghost function Alphas(hs: Hashes, p: Proof): (r: seq<QM31>)
    requires Sampling(hs)
    ensures |r| == |p.friCommitments| + 1
  {
    seq(|p.friCommitments| + 1, k requires 0 <= k <= |p.friCommitments| => FoldAlpha(hs, Base(hs, p), p.friCommitments, k))
  }

  ghost predicate Accepts(hs: Hashes, p: Proof)
    requires Sampling(hs) && EvalLog(p) <= 31
  {
    && WellFormed(hs, p)
    && AllOpen(hs.block, p)
    && forall q: nat :: q < N_QUERIES ==> QueryHolds(p, Alphas(hs, p), q)
  }

  // ---- what each rejection says ----

  /** The checks before any opening, in the order they are made. */
  ghost predicate EarlyCheck(hs: Hashes, p: Proof, k: nat) {
    match k
    case 0 => p.publicInputs.0 < P && p.publicInputs.1 < P
    case 1 => |p.queryIndices| == N_QUERIES
    case 2 => |p.friCommitments| == (if EvalLog(p) >= 3 then EvalLog(p) - 3 else 0)
    case 3 => |p.friLastLayer| == 8
    case 4 => p.queryIndices == QueryIndices(hs, Base(hs, p), p.friCommitments, p.friLastLayer, Pow2(EvalLog(p)))
    case 5 => p.traceCommitment != ZERO_DIGEST
    case _ => p.quotientCommitment != ZERO_DIGEST
  }

  ghost predicate FirstFailed(hs: Hashes, p: Proof, k: nat) {
    !EarlyCheck(hs, p, k) && forall j: nat :: j < k ==> EarlyCheck(hs, p, j)
  }

  /** The rejection names the first check that fails, and that check fails. */
  ghost predicate Blames(hs: Hashes, p: Proof, e: Error)
    requires Sampling(hs) && EvalLog(p) <= 31
  {
    match e
    case InputsOutOfRange => FirstFailed(hs, p, 0)
    case WrongQueryCount => FirstFailed(hs, p, 1)
    case WrongLayerCount => FirstFailed(hs, p, 2)
    case WrongLastLayerSize => FirstFailed(hs, p, 3)
    case WrongIndices => FirstFailed(hs, p, 4)
    case ZeroTrace => FirstFailed(hs, p, 5)
    case ZeroQuotient => FirstFailed(hs, p, 6)
    case SizeMismatch(_) => WellFormed(hs, p) && BlamesOpening(hs.block, p, e)
    case PathInvalid(_, _) => WellFormed(hs, p) && BlamesOpening(hs.block, p, e)
    case SiblingPathInvalid(_, _) => WellFormed(hs, p) && BlamesOpening(hs.block, p, e)
    case CircleFoldMismatch(q) => FirstBadQuery(hs, p, q) && BlamesFold(p, Alphas(hs, p), q, e)
    case LineFoldMismatch(q, _) => FirstBadQuery(hs, p, q) && BlamesFold(p, Alphas(hs, p), q, e)
    case LastIndexOutOfBounds(q) => FirstBadQuery(hs, p, q) && BlamesFold(p, Alphas(hs, p), q, e)
    case LastLayerMismatch(q) => FirstBadQuery(hs, p, q) && BlamesFold(p, Alphas(hs, p), q, e)
    case Panicked => WellFormed(hs, p) && !Accepts(hs, p)
  }

  ghost predicate FirstBadQuery(hs: Hashes, p: Proof, q: nat)
    requires Sampling(hs) && EvalLog(p) <= 31
  {
    && WellFormed(hs, p) && AllOpen(hs.block, p) && q < N_QUERIES
    && (forall i: nat :: i < q ==> QueryHolds(p, Alphas(hs, p), i))
    && !QueryHolds(p, Alphas(hs, p), q)
  }

  /** Queries before q open; for q itself, the value's path is looked at before the sibling's. */
  ghost predicate BlamesPath(h: HashFn, root: Digest, rows: seq<seq<u32>>, siblingRows: seq<seq<u32>>, paths: seq<seq<Digest>>,
                             siblingPaths: seq<seq<Digest>>, indices: seq<nat>, part: Part, e: Error) {
    match e
    case SizeMismatch(b) => b == part && (|rows| != N_QUERIES || |paths| != N_QUERIES)
    case PathInvalid(b, q) =>
      && b == part && OpenBefore(h, root, rows, siblingRows, paths, siblingPaths, indices, q)
      && Climb(h, HashLeaf(h, rows[q]), indices[q], paths[q]) != root
    case SiblingPathInvalid(b, q) =>
      && b == part && OpenBefore(h, root, rows, siblingRows, paths, siblingPaths, indices, q)
      && q < |siblingRows| && q < |siblingPaths|
      && Climb(h, HashLeaf(h, rows[q]), indices[q], paths[q]) == root
      && Climb(h, HashLeaf(h, siblingRows[q]), Sibling(indices[q]), siblingPaths[q]) != root
    case Panicked => |siblingRows| < |indices| || |siblingPaths| < |indices|
    case _ => false
  }

  ghost predicate OpenBefore(h: HashFn, root: Digest, rows: seq<seq<u32>>, siblingRows: seq<seq<u32>>, paths: seq<seq<Digest>>,
                             siblingPaths: seq<seq<Digest>>, indices: seq<nat>, q: nat) {
    && q < |rows| && q < |paths| && q < |indices| && q <= |siblingRows| && q <= |siblingPaths|
    && forall i: nat :: i < q ==> QueryOpens(h, root, rows[i], siblingRows[i], paths[i], siblingPaths[i], indices[i])
  }

  ghost predicate BlamesWords(h: HashFn, root: Digest, d: Decommitment<u32>, indices: seq<nat>, part: Part, e: Error) {
    BlamesPath(h, root, WordRows(d.values), WordRows(d.siblings), d.paths, d.siblingPaths, indices, part, e)
  }

  ghost predicate BlamesFelts(h: HashFn, root: Digest, d: Decommitment<QM31>, indices: seq<nat>, part: Part, e: Error) {
    BlamesPath(h, root, FeltRows(d.values), FeltRows(d.siblings), d.paths, d.siblingPaths, indices, part, e)
  }

  ghost predicate BlamesLayer(h: HashFn, p: Proof, l: nat, e: Error)
    requires l < |p.friDecommitments| && l < |p.friCommitments|
  {
    && (forall i: nat :: i < l ==> LayerOpens(h, p, i))
    && BlamesFelts(h, p.friCommitments[l], p.friDecommitments[l], ShiftedBy(p.queryIndices, l + 1), FriLayer(l), e)
  }

  /** Trace, then quotient, then layer by layer. */
  ghost predicate BlamesOpening(h: HashFn, p: Proof, e: Error) {
    || BlamesWords(h, p.traceCommitment, p.traceDecommitment, p.queryIndices, TraceColumn, e)
    || (WordsOpen(h, p.traceCommitment, p.traceDecommitment, p.queryIndices)
        && BlamesFelts(h, p.quotientCommitment, p.quotientDecommitment, p.queryIndices, QuotientColumn, e))
    || (WordsOpen(h, p.traceCommitment, p.traceDecommitment, p.queryIndices)
        && FeltsOpen(h, p.quotientCommitment, p.quotientDecommitment, p.queryIndices)
        && exists l: nat :: l < |p.friDecommitments| && l < |p.friCommitments| && BlamesLayer(h, p, l, e))
  }

  /** The first fold equation of query q that fails, and that it is there to be checked. */
  ghost predicate BlamesFold(p: Proof, alphas: seq<QM31>, q: nat, e: Error)
    requires EvalLog(p) <= 31 && q < |p.queryIndices| && |alphas| > 0
  {
    var n := |p.friDecommitments|;
    match e
    case CircleFoldMismatch(i) => i == q && n > 0 && q < |p.friDecommitments[0].values| && !CircleFoldHolds(p, alphas, q)
    case LineFoldMismatch(i, l) =>
      && i == q && l + 1 < n && q < |p.friDecommitments[l + 1].values|
      && CircleFoldHolds(p, alphas, q) && (forall j: nat :: j < l ==> LineFoldHolds(p, alphas, q, j)) && !LineFoldHolds(p, alphas, q, l)
    case LastIndexOutOfBounds(i) =>
      && i == q && FoldsHold(p, alphas, q) && Shr(p.queryIndices[q], n) >= |p.friLastLayer|
    case LastLayerMismatch(i) =>
      && i == q && FoldsHold(p, alphas, q) && Shr(p.queryIndices[q], n) < |p.friLastLayer|
      && q < |p.friDecommitments[n - 1].values| && p.friDecommitments[n - 1].values[q] != p.friLastLayer[Shr(p.queryIndices[q], n)]
    case Panicked => !QueryHolds(p, alphas, q)
    case _ => false
  }

  ghost predicate FoldsHold(p: Proof, alphas: seq<QM31>, q: nat)
    requires EvalLog(p) <= 31 && q < |p.queryIndices| && |alphas| > 0
  {
    && |p.friDecommitments| > 0 && CircleFoldHolds(p, alphas, q)
    && forall l: nat :: l + 1 < |p.friDecommitments| ==> LineFoldHolds(p, alphas, q, l)
  }

  // ---- the verifier ----

  /** verify_decommitment_auth_paths and its four-word twin. */
  method VerifyPaths(h: HashFn, root: Digest, rows: seq<seq<u32>>, siblingRows: seq<seq<u32>>, paths: seq<seq<Digest>>,
                     siblingPaths: seq<seq<Digest>>, indices: seq<nat>, part: Part)
    returns (v: Verdict)
    requires |indices| == N_QUERIES
    ensures v.Accept? <==> Opens(h, root, rows, siblingRows, paths, siblingPaths, indices)
    ensures v.Reject? ==> BlamesPath(h, root, rows, siblingRows, paths, siblingPaths, indices, part, v.error)
  {
    hide HashLeaf, Climb;
    if |rows| != N_QUERIES || |paths| != N_QUERIES {
      return Reject(SizeMismatch(part));
    }
    for q := 0 to |indices|
      invariant q <= |siblingRows| && q <= |siblingPaths|
      invariant forall i: nat :: i < q ==> QueryOpens(h, root, rows[i], siblingRows[i], paths[i], siblingPaths[i], indices[i])
    {
      var ok := VerifyAuthPath(h, root, HashLeaf(h, rows[q]), indices[q], paths[q]);
      if !ok {
        if q < |siblingRows| && q < |siblingPaths| {
          assert !QueryOpens(h, root, rows[q], siblingRows[q], paths[q], siblingPaths[q], indices[q]);
        }
        return Reject(PathInvalid(part, q));
      }
      if q >= |siblingRows| || q >= |siblingPaths| {
        return Reject(Panicked);
      }
      ok := VerifyAuthPath(h, root, HashLeaf(h, siblingRows[q]), Sibling(indices[q]), siblingPaths[q]);
      if !ok {
        assert !QueryOpens(h, root, rows[q], siblingRows[q], paths[q], siblingPaths[q], indices[q]);
        return Reject(SiblingPathInvalid(part, q));
      }
    }
    v := Accept;
  }

  /** Replay the channel: all fold challenges, then the query indices. */
  method Replay(hs: Hashes, p: Proof) returns (alphas: seq<QM31>, indices: seq<nat>)
    requires Sampling(hs)
    ensures alphas == Alphas(hs, p)
    ensures |p.friLastLayer| > 0 ==>
      indices == QueryIndices(hs, Base(hs, p), p.friCommitments, p.friLastLayer, Pow2(EvalLog(p)))
  {
    hide MixedDigest, MixedFelts, Felt, Pow2, Sampling, AfterFelt;
    var channel := new Channel(hs);
    channel.MixDigest(p.traceCommitment);
    var ignored := channel.DrawFelt();
    channel.MixDigest(p.quotientCommitment);
    ghost var base := Base(hs, p);
    MixedNothing(hs, base, p.friCommitments);
    var first := channel.DrawFelt();
    alphas := [first];
    for i := 0 to |p.friCommitments|
      invariant channel.hs == hs && fresh(channel)
      invariant channel.digest == MixedAll(hs, base, p.friCommitments[..i])
      invariant |alphas| == i + 1
      invariant forall k: nat :: k <= i ==> alphas[k] == FoldAlpha(hs, base, p.friCommitments, k)
    {
      MixedAllSnoc(hs, base, p.friCommitments, i);
      channel.MixDigest(p.friCommitments[i]);
      var alpha := channel.DrawFelt();
      alphas := alphas + [alpha];
    }
    assert p.friCommitments[..|p.friCommitments|] == p.friCommitments;
    channel.MixFelts(p.friLastLayer);
    indices := channel.DrawNumbers(Pow2(EvalLog(p)), N_QUERIES);
  }

  lemma MixedNothing(hs: Hashes, d: Digest, coms: seq<Digest>)
    ensures MixedAll(hs, d, coms[..0]) == d
  {
  }

  /** The auth-path checks: trace, quotient, then layer by layer at halved indices. */
  method CheckOpenings(h: HashFn, p: Proof) returns (v: Verdict)
    requires |p.queryIndices| == N_QUERIES
    ensures v.Accept? <==> AllOpen(h, p)
    ensures v.Reject? ==> BlamesOpening(h, p, v.error)
  {
    hide Opens, FeltRows, WordRows, Shr, BlamesPath;
    var t := p.traceDecommitment;
    v := VerifyPaths(h, p.traceCommitment, WordRows(t.values), WordRows(t.siblings), t.paths, t.siblingPaths,
                     p.queryIndices, TraceColumn);
    if v.Reject? { return; }
    var d := p.quotientDecommitment;
    v := VerifyPaths(h, p.quotientCommitment, FeltRows(d.values), FeltRows(d.siblings), d.paths, d.siblingPaths,
                     p.queryIndices, QuotientColumn);
    if v.Reject? { return; }
    var folded := Halved(p.queryIndices);
    ShiftedSnoc(p.queryIndices, 0);
    var n := if |p.friDecommitments| <= |p.friCommitments| then |p.friDecommitments| else |p.friCommitments|;
    for l := 0 to n
      invariant folded == ShiftedBy(p.queryIndices, l + 1)
      invariant forall i: nat :: i < l ==> LayerOpens(h, p, i)
    {
      d := p.friDecommitments[l];
      v := VerifyPaths(h, p.friCommitments[l], FeltRows(d.values), FeltRows(d.siblings), d.paths, d.siblingPaths,
                       folded, FriLayer(l));
      if v.Reject? {
        assert !LayerOpens(h, p, l);
        assert BlamesLayer(h, p, l, v.error);
        return;
      }
      ShiftedSnoc(p.queryIndices, l + 1);
      folded := Halved(folded);
    }
    v := Accept;
  }

  /** The fold equations and the last-layer check of one query. */
  method CheckQuery(p: Proof, alphas: seq<QM31>, q: nat) returns (v: Verdict)
    requires EvalLog(p) <= 31 && q < |p.queryIndices| && |alphas| > 0
    requires |alphas| <= EvalLog(p) + 1
    ensures v.Accept? <==> QueryHolds(p, alphas, q)
    ensures v.Reject? ==> BlamesFold(p, alphas, q, v.error)
  {
    hide FoldPair, CircleTwiddle, LineTwiddle, Shr;
    var idx, log := p.queryIndices[q], EvalLog(p);
    var d := p.quotientDecommitment;
    if |p.friDecommitments| == 0 || q >= |d.values| || q >= |d.siblings| || q >= |p.friDecommitments[0].values| {
      return Reject(Panicked);
    }
    var expected := FoldedPair(d, q, idx, alphas[0], CircleTwiddle(log, idx / 2));
    if expected != p.friDecommitments[0].values[q] {
      return Reject(CircleFoldMismatch(q));
    }
    ShrZero(idx); ShrSnoc(idx, 0);
    idx := idx / 2;
    var n := |p.friDecommitments|;
    for l := 0 to n - 1
      invariant idx == Shr(p.queryIndices[q], l + 1)
      invariant forall i: nat :: i < l ==> LineFoldHolds(p, alphas, q, i)
    {
      d := p.friDecommitments[l];
      if l + 1 >= |alphas| || q >= |d.values| || q >= |d.siblings| || q >= |p.friDecommitments[l + 1].values| {
        assert !LineFoldHolds(p, alphas, q, l);
        return Reject(Panicked);
      }
      expected := FoldedPair(d, q, idx, alphas[l + 1], LineTwiddle(log - 1 - l, idx / 2));
      if expected != p.friDecommitments[l + 1].values[q] {
        assert !LineFoldHolds(p, alphas, q, l);
        return Reject(LineFoldMismatch(q, l));
      }
      ShrSnoc(p.queryIndices[q], l + 1);
      idx := idx / 2;
    }
    if q >= |p.friDecommitments[n - 1].values| {
      return Reject(Panicked);
    }
    if idx >= |p.friLastLayer| {
      return Reject(LastIndexOutOfBounds(q));
    }
    if p.friDecommitments[n - 1].values[q] != p.friLastLayer[idx] {
      return Reject(LastLayerMismatch(q));
    }
    v := Accept;
  }

  /** verify */
  method Verify(hs: Hashes, p: Proof) returns (v: Verdict)
    requires Sampling(hs) && EvalLog(p) <= 31
    ensures v.Accept? <==> Accepts(hs, p)
    ensures v.Reject? ==> Blames(hs, p, v.error)
  {
    hide AllOpen, QueryHolds, Alphas, QueryIndices, Sampling, Base, BlamesOpening, BlamesFold;
    if p.publicInputs.0 >= P || p.publicInputs.1 >= P {
      return Reject(InputsOutOfRange);
    }
    if |p.queryIndices| != N_QUERIES {
      return Reject(WrongQueryCount);
    }
    var alphas, indices := Replay(hs, p);
    var layers := if EvalLog(p) >= 3 then EvalLog(p) - 3 else 0;
    if |p.friCommitments| != layers {
      return Reject(WrongLayerCount);
    }
    if |p.friLastLayer| != 8 {
      return Reject(WrongLastLayerSize);
    }
    if p.queryIndices != indices {
      return Reject(WrongIndices);
    }
    if p.traceCommitment == ZERO_DIGEST {
      return Reject(ZeroTrace);
    }
    if p.quotientCommitment == ZERO_DIGEST {
      return Reject(ZeroQuotient);
    }
    v := CheckOpenings(hs.block, p);
    if v.Reject? {
      OpeningKinds(hs.block, p, v.error);
      return;
    }
    for q := 0 to N_QUERIES
      invariant forall i: nat :: i < q ==> QueryHolds(p, alphas, i)
    {
      v := CheckQuery(p, alphas, q);
      if v.Reject? {
        assert !QueryHolds(p, alphas, q);
        RejectedKinds(p, alphas, q, v.error);
        return;
      }
    }
    v := Accept;
  }

  lemma RejectedKinds(p: Proof, alphas: seq<QM31>, q: nat, e: Error)
    requires EvalLog(p) <= 31 && q < |p.queryIndices| && |alphas| > 0 && BlamesFold(p, alphas, q, e)
    ensures e == CircleFoldMismatch(q) || (e.LineFoldMismatch? && e.query == q) || e == LastIndexOutOfBounds(q)
         || e == LastLayerMismatch(q) || e.Panicked?
  {
    hide CircleFoldHolds, LineFoldHolds, FoldsHold, QueryHolds, Shr;
  }

  lemma OpeningKinds(h: HashFn, p: Proof, e: Error)
    requires BlamesOpening(h, p, e)
    ensures e.SizeMismatch? || e.PathInvalid? || e.SiblingPathInvalid? || e.Panicked?
  {
    hide Opens, OpenBefore, Climb, HashLeaf;
  }

  // ---- acceptance binds the opened values ----

  ghost predicate SameTranscript(p: Proof, r: Proof) {
    && p.logTraceSize == r.logTraceSize && p.traceCommitment == r.traceCommitment
    && p.quotientCommitment == r.quotientCommitment && p.friCommitments == r.friCommitments && p.friLastLayer == r.friLastLayer
  }

  /** Two rows opened at one index under one root: equal, or two inputs of the hash collide. */
  ghost predicate RowsBound(h: HashFn, v: seq<u32>, pathV: seq<Digest>, w: seq<u32>, pathW: seq<Digest>, index: nat) {
    || v == w
    || Collision(h, WordBytes(v), WordBytes(w))
    || (|pathV| == |pathW| > 0
        && var (x, y) := FindCollision(h, HashLeaf(h, v), pathV, HashLeaf(h, w), pathW, index); Collision(h, x, y))
  }

  lemma OpenedRowsBind(h: HashFn, root: Digest, v: seq<u32>, pathV: seq<Digest>, w: seq<u32>, pathW: seq<Digest>, index: nat)
    requires |pathV| == |pathW|
    requires Climb(h, HashLeaf(h, v), index, pathV) == root && Climb(h, HashLeaf(h, w), index, pathW) == root
    ensures RowsBound(h, v, pathV, w, pathW, index)
  {
    hide WordBytes;
    OpeningsBind(h, HashLeaf(h, v), pathV, HashLeaf(h, w), pathW, index);
    if WordBytes(v) == WordBytes(w) { WordBytesInjective(v, w); }
  }

  /** Entry q of two decommitments opened at one index: values and siblings are the same or hash inputs collide, where path lengths agree. */
  ghost predicate EntriesBound(h: HashFn, rows: seq<seq<u32>>, siblings: seq<seq<u32>>, paths: seq<seq<Digest>>, siblingPaths: seq<seq<Digest>>,
                               rows': seq<seq<u32>>, siblings': seq<seq<u32>>, paths': seq<seq<Digest>>, siblingPaths': seq<seq<Digest>>,
                               index: nat, q: nat) {
    && q < |rows| && q < |siblings| && q < |paths| && q < |siblingPaths|
    && q < |rows'| && q < |siblings'| && q < |paths'| && q < |siblingPaths'|
    && (|paths[q]| == |paths'[q]| ==> RowsBound(h, rows[q], paths[q], rows'[q], paths'[q], index))
    && (|siblingPaths[q]| == |siblingPaths'[q]| ==>
          RowsBound(h, siblings[q], siblingPaths[q], siblings'[q], siblingPaths'[q], Sibling(index)))
  }

  ghost predicate WordsBound(h: HashFn, d: Decommitment<u32>, e: Decommitment<u32>, index: nat, q: nat) {
    EntriesBound(h, WordRows(d.values), WordRows(d.siblings), d.paths, d.siblingPaths,
                 WordRows(e.values), WordRows(e.siblings), e.paths, e.siblingPaths, index, q)
  }

  ghost predicate FeltsBound(h: HashFn, d: Decommitment<QM31>, e: Decommitment<QM31>, index: nat, q: nat) {
    EntriesBound(h, FeltRows(d.values), FeltRows(d.siblings), d.paths, d.siblingPaths,
                 FeltRows(e.values), FeltRows(e.siblings), e.paths, e.siblingPaths, index, q)
  }

  lemma OpeningsOfOneRootBind(h: HashFn, root: Digest, rows: seq<seq<u32>>, siblings: seq<seq<u32>>, paths: seq<seq<Digest>>,
                              siblingPaths: seq<seq<Digest>>, rows': seq<seq<u32>>, siblings': seq<seq<u32>>,
                              paths': seq<seq<Digest>>, siblingPaths': seq<seq<Digest>>, indices: seq<nat>, q: nat)
    requires Opens(h, root, rows, siblings, paths, siblingPaths, indices) && q < |indices|
    requires Opens(h, root, rows', siblings', paths', siblingPaths', indices)
    ensures EntriesBound(h, rows, siblings, paths, siblingPaths, rows', siblings', paths', siblingPaths', indices[q], q)
  {
    hide Climb, HashLeaf, RowsBound, Sibling;
    assert QueryOpens(h, root, rows[q], siblings[q], paths[q], siblingPaths[q], indices[q]);
    assert QueryOpens(h, root, rows'[q], siblings'[q], paths'[q], siblingPaths'[q], indices[q]);
    if |paths[q]| == |paths'[q]| {
      OpenedRowsBind(h, root, rows[q], paths[q], rows'[q], paths'[q], indices[q]);
    }
    if |siblingPaths[q]| == |siblingPaths'[q]| {
      OpenedRowsBind(h, root, siblings[q], siblingPaths[q], siblings'[q], siblingPaths'[q], Sibling(indices[q]));
    }
  }

  /**
   Accepted proofs with one transcript ask the same queries and open the same trace,
   quotient and layer values and siblings, or hash inputs collide; path lengths, which
   the source does not check, must agree.
   */
  lemma AcceptedProofsBind(hs: Hashes, p: Proof, r: Proof, l: nat, q: nat)
    requires Sampling(hs) && EvalLog(p) <= 31 && SameTranscript(p, r) && Accepts(hs, p) && Accepts(hs, r)
    requires l < |p.friDecommitments| && l < |r.friDecommitments| && l < |p.friCommitments| && q < N_QUERIES
    ensures p.queryIndices == r.queryIndices && |p.queryIndices| == N_QUERIES
    ensures WordsBound(hs.block, p.traceDecommitment, r.traceDecommitment, p.queryIndices[q], q)
    ensures FeltsBound(hs.block, p.quotientDecommitment, r.quotientDecommitment, p.queryIndices[q], q)
    ensures FeltsBound(hs.block, p.friDecommitments[l], r.friDecommitments[l], Shr(p.queryIndices[q], l + 1), q)
  {
    hide Opens, EntriesBound, FeltRows, WordRows, Shr, QueryHolds, QueryIndices, Alphas, Sampling;
    assert LayerOpens(hs.block, p, l) && LayerOpens(hs.block, r, l);
    WordsBind(hs.block, p.traceCommitment, p.traceDecommitment, r.traceDecommitment, p.queryIndices, q);
    FeltsBind(hs.block, p.quotientCommitment, p.quotientDecommitment, r.quotientDecommitment, p.queryIndices, q);
    FeltsBind(hs.block, p.friCommitments[l], p.friDecommitments[l], r.friDecommitments[l], ShiftedBy(p.queryIndices, l + 1), q);
  }

  lemma WordsBind(h: HashFn, root: Digest, d: Decommitment<u32>, e: Decommitment<u32>, indices: seq<nat>, q: nat)
    requires WordsOpen(h, root, d, indices) && WordsOpen(h, root, e, indices) && q < |indices|
    ensures WordsBound(h, d, e, indices[q], q)
  {
    hide Opens, EntriesBound, WordRows;
    OpeningsOfOneRootBind(h, root, WordRows(d.values), WordRows(d.siblings), d.paths, d.siblingPaths,
                          WordRows(e.values), WordRows(e.siblings), e.paths, e.siblingPaths, indices, q);
  }

  lemma FeltsBind(h: HashFn, root: Digest, d: Decommitment<QM31>, e: Decommitment<QM31>, indices: seq<nat>, q: nat)
    requires FeltsOpen(h, root, d, indices) && FeltsOpen(h, root, e, indices) && q < |indices|
    ensures FeltsBound(h, d, e, indices[q], q)
  {
    hide Opens, EntriesBound, FeltRows;
    OpeningsOfOneRootBind(h, root, FeltRows(d.values), FeltRows(d.siblings), d.paths, d.siblingPaths,
                          FeltRows(e.values), FeltRows(e.siblings), e.paths, e.siblingPaths, indices, q);
  }
}
