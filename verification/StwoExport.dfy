/**
 The Merkle half of the proof export and its verifier: seven commitment trees, three
 of them opened at the current and the next trace row (src/stwo_export.rs).
 */
module StwoExport {
  import opened Bits
  import opened Hashing
  import opened MerkleTree
  import opened SortedSets
  import opened HashWitness
  import opened HashReconstruct
  import opened WitnessRoundTrip
  import opened FriOpening
  import opened CanonicOrder

  /** Openings of a Cairo proof. Trees 0..2 hold the trace, 3..6 four-word rows. */
  datatype Openings = Openings(
    logEval: nat,
    commitments: seq<Digest>,
    queries: seq<nat>,
    traceRows: seq<seq<u32>>,
    curPaths: seq<seq<seq<Digest>>>,
    nextPaths: seq<seq<seq<Digest>>>,
    wideRows: seq<seq<seq<u32>>>,
    widePaths: seq<seq<seq<Digest>>>)

  /** The exported trees: columns by query position, and one hash stream per tree. */
  datatype StwoProof = StwoProof(
    logEval: nat,
    commitments: seq<Digest>,
    columns: seq<seq<seq<u32>>>,
    streams: seq<seq<Digest>>)

  // ---- paths for current and next rows ----

  function NextPositions(queries: seq<nat>, logEval: nat): (r: seq<nat>)
    requires logEval >= 1
    ensures |r| == |queries|
  {
    seq(|queries|, i requires 0 <= i < |queries| => CanonicNext(queries[i], logEval))
  }

  /** or_insert over the list: each position keeps its first path. */
  function PathsFor(positions: seq<nat>, paths: seq<seq<Digest>>): map<nat, seq<Digest>>
    requires |paths| >= |positions|
  {
    FirstIndexFacts(positions);
    map p | p in FirstIndex(positions) :: paths[FirstIndex(positions)[p]]
  }

  /** Current rows win over next rows. */
  function MergedPaths(queries: seq<nat>, cur: seq<seq<Digest>>, next: seq<seq<Digest>>, height: nat): map<nat, seq<Digest>>
    requires height >= 1 && |cur| >= |queries| && (|next| > 0 ==> |next| >= |queries|)
  {
    (if |next| == 0 then map[] else PathsFor(NextPositions(queries, height), next)) + PathsFor(queries, cur)
  }

  /** A queried position has the path of its first query, any other the path of the first query it is next to. */
  lemma MergedPathIs(queries: seq<nat>, cur: seq<seq<Digest>>, next: seq<seq<Digest>>, height: nat, q: nat)
    requires height >= 1 && |cur| >= |queries| && (|next| > 0 ==> |next| >= |queries|) && q < |queries|
    ensures queries[q] !in queries[..q] ==>
      queries[q] in MergedPaths(queries, cur, next, height) && MergedPaths(queries, cur, next, height)[queries[q]] == cur[q]
    ensures var nexts := NextPositions(queries, height);
      |next| > 0 && nexts[q] !in queries && nexts[q] !in nexts[..q] ==>
        nexts[q] in MergedPaths(queries, cur, next, height) && MergedPaths(queries, cur, next, height)[nexts[q]] == next[q]
  {
    hide NextPositions, FirstIndex;
    var nexts := NextPositions(queries, height);
    FirstIndexFacts(queries); FirstIndexFacts(nexts);
    if queries[q] !in queries[..q] { FirstIndexIsFirst(queries, q); }
    if nexts[q] !in nexts[..q] { FirstIndexIsFirst(nexts, q); }
  }

  function InOrder<T>(ps: seq<nat>, m: map<nat, T>): (r: seq<T>)
    requires forall p :: p in ps ==> p in m
    ensures |r| == |ps|
  {
    seq(|ps|, i requires 0 <= i < |ps| => assert ps[i] in ps; m[ps[i]])
  }

  ghost function TraceStream(m: map<nat, seq<Digest>>, height: nat): seq<Digest> {
    hide Sorted, FirstIndex;
    var merged := Sorted(m.Keys);
    SortedIsAscending(m.Keys);
    FirstIndexFacts(merged);
    Witness(FirstIndex(merged), InOrder(merged, m), 0, height)
  }

  method InsertPaths(start: map<nat, seq<Digest>>, positions: seq<nat>, paths: seq<seq<Digest>>)
    returns (m: map<nat, seq<Digest>>)
    requires |paths| >= |positions|
    ensures m == PathsFor(positions, paths) + start
  {
    hide PathsFor;
    m := start;
    NoPaths(positions[..0], paths);
    for i := 0 to |positions|
      invariant m == PathsFor(positions[..i], paths) + start
    {
      PathsForSnoc(positions, i, paths);
      if positions[i] !in m { m := m[positions[i] := paths[i]]; }
    }
    assert positions[..|positions|] == positions;
  }

  lemma NoPaths(positions: seq<nat>, paths: seq<seq<Digest>>)
    requires positions == []
    ensures PathsFor(positions, paths) == map[]
  {
  }

  lemma PathsForSnoc(positions: seq<nat>, i: nat, paths: seq<seq<Digest>>)
    requires i < |positions| <= |paths|
    ensures PathsFor(positions[..i + 1], paths)
         == var m := PathsFor(positions[..i], paths); if positions[i] in m then m else m[positions[i] := paths[i]]
  {
    assert positions[..i + 1][..i] == positions[..i];
    FirstIndexFacts(positions[..i]);
  }

  /** build_trace_witness. */
  method BuildTraceWitness(queries: seq<nat>, cur: seq<seq<Digest>>, next: seq<seq<Digest>>, height: nat)
    returns (stream: seq<Digest>)
    requires height >= 1 && |cur| >= |queries| && (|next| > 0 ==> |next| >= |queries|)
    ensures stream == TraceStream(MergedPaths(queries, cur, next, height), height)
  {
    hide PathsFor, Sorted, FirstIndex, Witness;
    var posToAuth := InsertPaths(map[], queries, cur);
    assert PathsFor(queries, cur) + map[] == PathsFor(queries, cur);
    if |next| > 0 {
      posToAuth := InsertPaths(posToAuth, NextPositions(queries, height), next);
    } else {
      assert map[] + PathsFor(queries, cur) == PathsFor(queries, cur);
    }
    var merged := SortedKeys(posToAuth.Keys);
    SortedIsAscending(posToAuth.Keys);
    stream := AuthPathsToHashWitness(merged, InOrder(merged, posToAuth), height);
  }

  // ---- columns ----

  /** Columns lo..hi of the first n rows. */
  function Transposed(rows: seq<seq<u32>>, lo: nat, hi: nat, n: nat): (cols: seq<seq<u32>>)
    requires lo <= hi && n <= |rows| && forall q: nat :: q < n ==> hi <= |rows[q]|
    ensures |cols| == hi - lo
  {
    seq(hi - lo, c requires 0 <= c < hi - lo => seq(n, q requires 0 <= q < n => rows[q][lo + c]))
  }

  /** trace_queried_values; interaction_queried_values is the case of columns 0..4. */
  method TransposeRows(rows: seq<seq<u32>>, lo: nat, hi: nat, n: nat) returns (out: seq<seq<u32>>)
    requires lo <= hi && n <= |rows| && forall q: nat :: q < n ==> hi <= |rows[q]|
    ensures out == Transposed(rows, lo, hi, n)
  {
    out := seq(hi - lo, _ => []);
    for q := 0 to n
      invariant |out| == hi - lo
      invariant forall c: nat :: c < hi - lo ==> out[c] == Transposed(rows, lo, hi, q)[c]
    {
      for c := 0 to hi - lo
        invariant |out| == hi - lo
        invariant forall d: nat :: d < c ==> out[d] == Transposed(rows, lo, hi, q + 1)[d]
        invariant forall d: nat :: c <= d < hi - lo ==> out[d] == Transposed(rows, lo, hi, q)[d]
      {
        out := out[c := out[c] + [rows[q][lo + c]]];
      }
    }
  }

  // ---- the export ----

  function FirstWidth(rows: seq<seq<u32>>, cap: nat, empty: nat): nat {
    if |rows| == 0 then empty else Min(|rows[0]|, cap)
  }

  function HiEnd(rows: seq<seq<u32>>): nat { FirstWidth(rows, 31, 16) }
  function DictEnd(rows: seq<seq<u32>>): nat { FirstWidth(rows, 34, 31) }

  /** What indexing in the exporter demands: enough rows and paths, no row shorter than the first. */
  ghost predicate Exportable(p: Openings) {
    var n := |p.queries|;
    && p.logEval >= 1 && |p.commitments| == 7
    && |p.traceRows| >= n && 16 <= HiEnd(p.traceRows) <= DictEnd(p.traceRows)
    && (forall q: nat :: q < n ==> DictEnd(p.traceRows) <= |p.traceRows[q]|)
    && |p.curPaths| == 3 && |p.nextPaths| == 3 && |p.wideRows| == 4 && |p.widePaths| == 4
    && (forall t: nat :: t < 3 ==> |p.curPaths[t]| >= n && (|p.nextPaths[t]| > 0 ==> |p.nextPaths[t]| >= n))
    && (forall t: nat :: t < 4 ==> |p.widePaths[t]| >= n && |p.wideRows[t]| >= n)
    && (forall t: nat, q: nat :: t < 4 && q < n ==> 4 <= |p.wideRows[t][q]|)
  }

  /** The column range of a trace tree, as exported. */
  function ExportRange(rows: seq<seq<u32>>, t: nat): (nat, nat) {
    if t == 0 then (0, 16) else if t == 1 then (16, HiEnd(rows)) else (HiEnd(rows), DictEnd(rows))
  }

  ghost function ExportedColumns(p: Openings, t: nat): seq<seq<u32>>
    requires Exportable(p) && t < 7
  {
    if t < 3 then
      Transposed(p.traceRows, ExportRange(p.traceRows, t).0, ExportRange(p.traceRows, t).1, |p.queries|)
    else Transposed(p.wideRows[t - 3], 0, 4, |p.queries|)
  }

  ghost function ExportedStream(p: Openings, t: nat): seq<Digest>
    requires Exportable(p) && t < 7
  {
    hide Sorted, FirstIndex;
    FirstIndexFacts(p.queries);
    if t < 3 then TraceStream(MergedPaths(p.queries, p.curPaths[t], p.nextPaths[t], p.logEval), p.logEval)
    else Witness(FirstIndex(p.queries), p.widePaths[t - 3], 0, p.logEval)
  }

  ghost predicate IsExport(p: Openings, two: StwoProof)
    requires Exportable(p)
  {
    && two.logEval == p.logEval && two.commitments == p.commitments
    && |two.columns| == 7 && |two.streams| == 7
    && forall t: nat :: t < 7 ==> two.columns[t] == ExportedColumns(p, t) && two.streams[t] == ExportedStream(p, t)
  }

  /** cairo_proof_to_stwo, the queried values and decommitments. */
  method Export(p: Openings) returns (two: StwoProof)
    requires Exportable(p)
    ensures IsExport(p, two)
  {
    hide PathsFor, Witness, FirstIndex, MergedPaths, TraceStream, Transposed;
    var n := |p.queries|;
    var hi, dict := HiEnd(p.traceRows), DictEnd(p.traceRows);
    var lo := TransposeRows(p.traceRows, 0, 16, n);
    var mid := TransposeRows(p.traceRows, 16, hi, n);
    var last := TransposeRows(p.traceRows, hi, dict, n);
    var columns := [lo, mid, last];
    var streams := [];
    for t := 0 to 3
      invariant |streams| == t
      invariant forall u: nat :: u < t ==> streams[u] == ExportedStream(p, u)
    {
      var stream := BuildTraceWitness(p.queries, p.curPaths[t], p.nextPaths[t], p.logEval);
      streams := streams + [stream];
    }
    for t := 3 to 7
      invariant |streams| == t && |columns| == t
      invariant forall u: nat :: u < t ==> streams[u] == ExportedStream(p, u) && columns[u] == ExportedColumns(p, u)
    {
      var wide := TransposeRows(p.wideRows[t - 3], 0, 4, n);
      columns := columns + [wide];
      var stream := AuthPathsToHashWitness(p.queries, p.widePaths[t - 3], p.logEval);
      streams := streams + [stream];
    }
    two := StwoProof(p.logEval, p.commitments, columns, streams);
  }

  // ---- the verifier ----

  datatype Failure =
    | WitnessError(tree: nat, error: Error)
    | RootMismatch(tree: nat)
    | MissingNext(column: nat, query: nat)

  datatype Outcome = Accepted | Rejected(failure: Failure)

  function FailedTree(f: Failure): nat {
    match f
    case WitnessError(t, _) => t
    case RootMismatch(t) => t
    case MissingNext(column, _) => if column < 16 then 0 else if column < 31 then 1 else 2
  }

  /** Any order an unstable sort by position may produce. */
  ghost predicate SortingOrder(order: seq<nat>, queries: seq<nat>) {
    && |order| == |queries|
    && (forall i: nat :: i < |order| ==> order[i] < |queries|)
    && (forall q: nat :: q < |queries| ==> q in order)
    && (forall i: nat, j: nat :: i < j < |order| ==> queries[order[i]] <= queries[order[j]])
  }

  function Picked<T>(s: seq<T>, order: seq<nat>): (r: seq<T>)
    requires forall i: nat :: i < |order| ==> order[i] < |s|
    ensures |r| == |order|
  {
    seq(|order|, i requires 0 <= i < |order| => s[order[i]])
  }

  function PickedColumns(cols: seq<seq<u32>>, order: seq<nat>): (r: seq<seq<u32>>)
    requires forall c: nat, i: nat :: c < |cols| && i < |order| ==> order[i] < |cols[c]|
    ensures |r| == |cols|
  {
    seq(|cols|, c requires 0 <= c < |cols| => Picked(cols[c], order))
  }

  /** HashMap collected from (position, index) pairs: the last index of each position. */
  function LastIndex(queries: seq<nat>): map<nat, nat>
    decreases |queries|
  {
    if |queries| == 0 then map[]
    else var n := |queries| - 1; LastIndex(queries[..n])[queries[n] := n]
  }

  lemma {:induction false} LastIndexFacts(queries: seq<nat>)
    ensures forall p :: p in LastIndex(queries) <==> p in queries
    ensures forall p :: p in LastIndex(queries) ==>
      LastIndex(queries)[p] < |queries| && queries[LastIndex(queries)[p]] == p
    decreases |queries|
  {
    if |queries| > 0 {
      var n := |queries| - 1;
      LastIndexFacts(queries[..n]);
      assert queries == queries[..n] + [queries[n]];
    }
  }

  /** The last query at a position is the one that counts. */
  lemma {:induction false} LastIndexIsLast(positions: seq<nat>, i: nat)
    requires i < |positions| && positions[i] !in positions[i + 1..]
    ensures positions[i] in LastIndex(positions) && LastIndex(positions)[positions[i]] == i
    decreases |positions|
  {
    var n := |positions| - 1;
    if i < n {
      assert positions[i + 1..] == positions[..n][i + 1..] + [positions[n]];
      LastIndexIsLast(positions[..n], i);
    }
  }

  method CollectIndex(queries: seq<nat>) returns (m: map<nat, nat>)
    ensures m == LastIndex(queries)
  {
    m := map[];
    for i := 0 to |queries|
      invariant m == LastIndex(queries[..i])
    {
      assert queries[..i + 1][..i] == queries[..i];
      m := m[queries[i] := i];
    }
    assert queries[..|queries|] == queries;
  }

  function TreeRange(t: nat): (nat, nat) {
    if t == 0 then (0, 16) else if t == 1 then (16, 31) else (31, 34)
  }

  /** What indexing in the verifier demands. */
  ghost predicate Checkable(two: StwoProof, n: nat) {
    && two.logEval >= 1 && |two.commitments| == 7 && |two.columns| == 7 && |two.streams| == 7
    && (forall t: nat :: t < 3 ==> |two.columns[t]| >= TreeRange(t).1 - TreeRange(t).0)
    && (forall t: nat, c: nat :: t < 7 && c < |two.columns[t]| ==> |two.columns[t][c]| >= n)
  }

  /** The opened value of one column at one merged position. */
  ghost predicate ValueIs(two: StwoProof, queries: seq<nat>, next: seq<seq<u32>>, t: nat, c: nat, pos: nat, v: u32)
    requires Checkable(two, |queries|) && t < 3 && c < TreeRange(t).1 - TreeRange(t).0
  {
    LastIndexFacts(queries);
    LastIndexFacts(NextPositions(queries, two.logEval));
    var cur, nxt := LastIndex(queries), LastIndex(NextPositions(queries, two.logEval));
    var g := TreeRange(t).0 + c;
    if pos in cur then v == two.columns[t][c][cur[pos]]
    else pos in nxt && g < |next| && nxt[pos] < |next[g]| && v == next[g][nxt[pos]]
  }

  ghost function MergedPositions(queries: seq<nat>, logEval: nat): seq<nat>
    requires logEval >= 1
  {
    Sorted(ToSet(queries) + ToSet(NextPositions(queries, logEval)))
  }

  /** Columns of trace tree t at the merged positions. */
  ghost predicate Gathered(two: StwoProof, queries: seq<nat>, next: seq<seq<u32>>, t: nat, cols: seq<seq<u32>>, merged: seq<nat>, n: nat)
    requires Checkable(two, |queries|) && t < 3 && n <= |merged|
  {
    && |cols| == TreeRange(t).1 - TreeRange(t).0
    && (forall c: nat :: c < |cols| ==> |cols[c]| == n)
    && (forall c: nat, i: nat :: c < |cols| && i < n ==> ValueIs(two, queries, next, t, c, merged[i], cols[c][i]))
  }

  ghost predicate Opens(h: HashFn, height: nat, positions: seq<nat>, cols: seq<seq<u32>>, stream: seq<Digest>, root: Digest) {
    && |positions| > 0 && ColumnsCover(cols, |positions|)
    && Reconstruct(h, LeafLayer(h, positions, cols), stream, height) == Ok(root)
  }

  /** Tree t of 3..6 is absent, or its witness opens its commitment. */
  ghost predicate WideTreeOpens(h: HashFn, two: StwoProof, queries: seq<nat>, order: seq<nat>, t: nat)
    requires Checkable(two, |queries|) && SortingOrder(order, queries) && 3 <= t < 7
  {
    two.columns[t] == [] ||
    Opens(h, two.logEval, Picked(queries, order), PickedColumns(two.columns[t], order), two.streams[t], two.commitments[t])
  }

  ghost predicate TraceTreeOpens(h: HashFn, two: StwoProof, queries: seq<nat>, next: seq<seq<u32>>, t: nat)
    requires Checkable(two, |queries|) && t < 3
  {
    var merged := MergedPositions(queries, two.logEval);
    exists cols ::
      && Gathered(two, queries, next, t, cols, merged, |merged|)
      && Opens(h, two.logEval, merged, cols, two.streams[t], two.commitments[t])
  }

  ghost predicate AllTreesOpen(h: HashFn, two: StwoProof, queries: seq<nat>, order: seq<nat>, next: seq<seq<u32>>)
    requires Checkable(two, |queries|) && SortingOrder(order, queries)
  {
    && (forall t :: 3 <= t < 7 ==> WideTreeOpens(h, two, queries, order, t))
    && (forall t :: 0 <= t < 3 ==> TraceTreeOpens(h, two, queries, next, t))
  }

  /** Trees are checked in the order 3, 4, 5, 6, 0, 1, 2; t is the first that does not open. */
  ghost predicate FirstToFail(h: HashFn, two: StwoProof, queries: seq<nat>, order: seq<nat>, next: seq<seq<u32>>, t: nat)
    requires Checkable(two, |queries|) && SortingOrder(order, queries)
  {
    if t >= 3 then
      t < 7 && (forall u :: 3 <= u < t ==> WideTreeOpens(h, two, queries, order, u)) && !WideTreeOpens(h, two, queries, order, t)
    else
      && (forall u :: 3 <= u < 7 ==> WideTreeOpens(h, two, queries, order, u))
      && (forall u :: 0 <= u < t ==> TraceTreeOpens(h, two, queries, next, u)) && !TraceTreeOpens(h, two, queries, next, t)
  }

  /** What a rejected reconstruction found. */
  ghost predicate BlamesTree(h: HashFn, height: nat, positions: seq<nat>, cols: seq<seq<u32>>, stream: seq<Digest>, root: Digest, t: nat, f: Failure)
    requires ColumnsCover(cols, |positions|)
  {
    match f
    case WitnessError(u, e) =>
      u == t && if |positions| == 0 then e == NoQueries else Reconstruct(h, LeafLayer(h, positions, cols), stream, height) == Err(e)
    case RootMismatch(u) =>
      u == t && |positions| > 0 && Reconstruct(h, LeafLayer(h, positions, cols), stream, height).Ok?
      && Reconstruct(h, LeafLayer(h, positions, cols), stream, height) != Ok(root)
    case MissingNext(_, _) => false
  }

  /** A next-row value is missing: the position is no query, and the looked-up entry lies outside the given rows. */
  ghost predicate BlamesNext(two: StwoProof, queries: seq<nat>, next: seq<seq<u32>>, t: nat, f: Failure)
    requires two.logEval >= 1 && t < 3
  {
    var nexts := NextPositions(queries, two.logEval);
    && f.MissingNext? && TreeRange(t).0 <= f.column < TreeRange(t).1 && f.query < |nexts|
    && nexts[f.query] !in queries && nexts[f.query] in LastIndex(nexts) && LastIndex(nexts)[nexts[f.query]] == f.query
    && (f.column >= |next| || f.query >= |next[f.column]|)
  }

  /** What the rejection of an export says about the tree it names. */
  ghost predicate BlamesExport(h: HashFn, two: StwoProof, queries: seq<nat>, order: seq<nat>, next: seq<seq<u32>>, f: Failure)
    requires Checkable(two, |queries|) && SortingOrder(order, queries)
  {
    var t := FailedTree(f);
    if 3 <= t < 7 then
      PickedCover(two.columns[t], order);
      BlamesTree(h, two.logEval, Picked(queries, order), PickedColumns(two.columns[t], order), two.streams[t], two.commitments[t], t, f)
    else
      && t < 3
      && (BlamesNext(two, queries, next, t, f) || BlamesGathered(h, two, queries, next, t, f))
  }

  ghost predicate BlamesGathered(h: HashFn, two: StwoProof, queries: seq<nat>, next: seq<seq<u32>>, t: nat, f: Failure)
    requires Checkable(two, |queries|) && t < 3
  {
    hide LastIndex, NextPositions, Sorted;
    var merged := MergedPositions(queries, two.logEval);
    exists cols ::
      && Gathered(two, queries, next, t, cols, merged, |merged|)
      && (GatheredCover(two, queries, next, t, cols, merged);
          BlamesTree(h, two.logEval, merged, cols, two.streams[t], two.commitments[t], t, f))
  }

  /** One reconstruction compared with its commitment. */
  method CheckTree(h: HashFn, height: nat, positions: seq<nat>, cols: seq<seq<u32>>, stream: seq<Digest>, root: Digest, t: nat)
    returns (out: Outcome)
    requires ColumnsCover(cols, |positions|)
    ensures out.Accepted? <==> Opens(h, height, positions, cols, stream, root)
    ensures out.Rejected? ==> FailedTree(out.failure) == t && BlamesTree(h, height, positions, cols, stream, root, t, out.failure)
  {
    hide LeafLayer, Reconstruct;
    var r := ReconstructRootFromWitness(h, height, positions, cols, stream);
    match r
    case Err(e) => out := Rejected(WitnessError(t, e));
    case Ok(computed) => out := if computed != root then Rejected(RootMismatch(t)) else Accepted;
  }

  /** The columns of trace tree t, position by position. */
  method GatherColumns(two: StwoProof, queries: seq<nat>, next: seq<seq<u32>>, t: nat, merged: seq<nat>,
                       curIdx: map<nat, nat>, nextIdx: map<nat, nat>)
    returns (out: Outcome, cols: seq<seq<u32>>)
    requires Checkable(two, |queries|) && t < 3
    requires curIdx == LastIndex(queries) && nextIdx == LastIndex(NextPositions(queries, two.logEval))
    requires forall p :: p in merged <==> p in queries || p in NextPositions(queries, two.logEval)
    ensures out.Accepted? ==> Gathered(two, queries, next, t, cols, merged, |merged|)
    ensures out.Rejected? ==> forall cs :: !Gathered(two, queries, next, t, cs, merged, |merged|)
    ensures out.Rejected? ==> FailedTree(out.failure) == t && BlamesNext(two, queries, next, t, out.failure)
  {
    hide LastIndex, NextPositions;
    LastIndexFacts(queries);
    LastIndexFacts(NextPositions(queries, two.logEval));
    var (lo, hi) := TreeRange(t);
    cols := seq(hi - lo, _ => []);
    for i := 0 to |merged|
      invariant Gathered(two, queries, next, t, cols, merged, i)
    {
      var pos := merged[i];
      assert pos in merged;
      for c := 0 to hi - lo
        invariant |cols| == hi - lo
        invariant forall d: nat :: d < |cols| ==> |cols[d]| == (if d < c then i + 1 else i)
        invariant forall d: nat, j: nat :: d < |cols| && j < |cols[d]| ==> ValueIs(two, queries, next, t, d, merged[j], cols[d][j])
      {
        var v: u32;
        if pos in curIdx {
          v := two.columns[t][c][curIdx[pos]];
        } else {
          var qi := nextIdx[pos];
          if lo + c < |next| && qi < |next[lo + c]| {
            v := next[lo + c][qi];
          } else {
            NothingGathered(two, queries, next, t, merged, i, c);
            return Rejected(MissingNext(lo + c, qi)), cols;
          }
        }
        assert ValueIs(two, queries, next, t, c, pos, v);
        cols := cols[c := cols[c] + [v]];
      }
    }
    out := Accepted;
  }

  lemma NothingGathered(two: StwoProof, queries: seq<nat>, next: seq<seq<u32>>, t: nat, merged: seq<nat>, i: nat, c: nat)
    requires Checkable(two, |queries|) && t < 3 && i < |merged| && c < TreeRange(t).1 - TreeRange(t).0
    requires forall v: u32 :: !ValueIs(two, queries, next, t, c, merged[i], v)
    ensures forall cs :: !Gathered(two, queries, next, t, cs, merged, |merged|)
  {
    hide ValueIs;
    forall cs ensures !Gathered(two, queries, next, t, cs, merged, |merged|) {
      if c < |cs| && i < |cs[c]| {
        assert !ValueIs(two, queries, next, t, c, merged[i], cs[c][i]);
      }
    }
  }

  lemma GatheredOnce(two: StwoProof, queries: seq<nat>, next: seq<seq<u32>>, t: nat, a: seq<seq<u32>>, b: seq<seq<u32>>, merged: seq<nat>)
    requires Checkable(two, |queries|) && t < 3
    requires Gathered(two, queries, next, t, a, merged, |merged|) && Gathered(two, queries, next, t, b, merged, |merged|)
    ensures a == b
  {
    hide LastIndex, NextPositions;
    forall c: nat | c < |a| ensures a[c] == b[c] {
      forall i: nat | i < |merged| ensures a[c][i] == b[c][i] {
        assert ValueIs(two, queries, next, t, c, merged[i], a[c][i]);
        assert ValueIs(two, queries, next, t, c, merged[i], b[c][i]);
      }
    }
  }

  /** verify_all_merkle_witnesses. */
  method VerifyAllMerkleWitnesses(h: HashFn, two: StwoProof, queries: seq<nat>, order: seq<nat>, next: seq<seq<u32>>)
    returns (out: Outcome)
    requires Checkable(two, |queries|) && SortingOrder(order, queries)
    ensures out.Accepted? <==> AllTreesOpen(h, two, queries, order, next)
    ensures out.Rejected? ==> FirstToFail(h, two, queries, order, next, FailedTree(out.failure))
    ensures out.Rejected? ==> BlamesExport(h, two, queries, order, next, out.failure)
  {
    hide Opens, PickedColumns, Picked, Gathered, Sorted, LastIndex, NextPositions, BlamesTree, BlamesNext;
    var sortedQi := Picked(queries, order);
    for t := 3 to 7
      invariant forall u :: 3 <= u < t ==> WideTreeOpens(h, two, queries, order, u)
    {
      if two.columns[t] != [] {
        var cols := PickedColumns(two.columns[t], order);
        PickedCover(two.columns[t], order);
        out := CheckTree(h, two.logEval, sortedQi, cols, two.streams[t], two.commitments[t], t);
        if out.Rejected? {
          assert !WideTreeOpens(h, two, queries, order, t);
          return;
        }
      }
    }
    var nextPositions := NextPositions(queries, two.logEval);
    var merged := SortedKeys(ToSet(queries) + ToSet(nextPositions));
    SortedIsAscending(ToSet(queries) + ToSet(nextPositions));
    var curIdx := CollectIndex(queries);
    var nextIdx := CollectIndex(nextPositions);
    for t := 0 to 3
      invariant forall u :: 0 <= u < t ==> TraceTreeOpens(h, two, queries, next, u)
    {
      var cols;
      out, cols := GatherColumns(two, queries, next, t, merged, curIdx, nextIdx);
      if out.Rejected? {
        assert !TraceTreeOpens(h, two, queries, next, t);
        return;
      }
      GatheredCover(two, queries, next, t, cols, merged);
      out := CheckTree(h, two.logEval, merged, cols, two.streams[t], two.commitments[t], t);
      if out.Rejected? {
        OnlyThese(h, two, queries, next, t, cols, merged);
        assert !TraceTreeOpens(h, two, queries, next, t);
        assert BlamesGathered(h, two, queries, next, t, out.failure);
        return;
      }
      TheseOpen(h, two, queries, next, t, cols, merged);
    }
    out := Accepted;
  }

  lemma PickedCover(cols: seq<seq<u32>>, order: seq<nat>)
    requires forall c: nat, i: nat :: c < |cols| && i < |order| ==> order[i] < |cols[c]|
    ensures ColumnsCover(PickedColumns(cols, order), |order|)
  {
  }

  lemma GatheredCover(two: StwoProof, queries: seq<nat>, next: seq<seq<u32>>, t: nat, cols: seq<seq<u32>>, merged: seq<nat>)
    requires Checkable(two, |queries|) && t < 3 && Gathered(two, queries, next, t, cols, merged, |merged|)
    ensures ColumnsCover(cols, |merged|)
  {
  }

  lemma TheseOpen(h: HashFn, two: StwoProof, queries: seq<nat>, next: seq<seq<u32>>, t: nat, cols: seq<seq<u32>>, merged: seq<nat>)
    requires Checkable(two, |queries|) && t < 3 && merged == MergedPositions(queries, two.logEval)
    requires Gathered(two, queries, next, t, cols, merged, |merged|)
    requires Opens(h, two.logEval, merged, cols, two.streams[t], two.commitments[t])
    ensures TraceTreeOpens(h, two, queries, next, t)
  {
    hide Opens, Gathered, MergedPositions;
  }

  lemma OnlyThese(h: HashFn, two: StwoProof, queries: seq<nat>, next: seq<seq<u32>>, t: nat, cols: seq<seq<u32>>, merged: seq<nat>)
    requires Checkable(two, |queries|) && t < 3 && merged == MergedPositions(queries, two.logEval)
    requires Gathered(two, queries, next, t, cols, merged, |merged|)
    requires !Opens(h, two.logEval, merged, cols, two.streams[t], two.commitments[t])
    ensures !TraceTreeOpens(h, two, queries, next, t)
  {
    hide Opens, Gathered, MergedPositions;
    forall cs | Gathered(two, queries, next, t, cs, merged, |merged|)
      ensures !Opens(h, two.logEval, merged, cs, two.streams[t], two.commitments[t])
    {
      GatheredOnce(two, queries, next, t, cs, cols, merged);
    }
  }

  // ---- an honest export is accepted ----

  /** Columns lo..hi of the rows. */
  function Columns(rows: seq<seq<u32>>, lo: nat, hi: nat): (r: seq<seq<u32>>)
    requires lo <= hi && forall i: nat :: i < |rows| ==> hi <= |rows[i]|
    ensures |r| == |rows|
  {
    seq(|rows|, i requires 0 <= i < |rows| => rows[i][lo..hi])
  }

  /** The committed data: the trace rows of 34 columns, and four trees of four-word rows. */
  datatype Trees = Trees(trace: seq<seq<u32>>, wide: seq<seq<seq<u32>>>)

  ghost predicate ValidTrees(trees: Trees, k: nat) {
    && |trees.trace| == Pow2(k) && (forall i: nat :: i < |trees.trace| ==> |trees.trace[i]| == 34)
    && |trees.wide| == 4
    && (forall t: nat :: t < 4 ==> |trees.wide[t]| == Pow2(k))
    && (forall t: nat, i: nat :: t < 4 && i < Pow2(k) ==> |trees.wide[t][i]| == 4)
  }

  ghost function TreeRows(trees: Trees, k: nat, t: nat): (r: seq<seq<u32>>)
    requires ValidTrees(trees, k) && t < 7
    ensures |r| == Pow2(k)
  {
    if t < 3 then Columns(trees.trace, TreeRange(t).0, TreeRange(t).1) else trees.wide[t - 3]
  }

  /** The openings an honest prover exports for these trees. */
  ghost predicate HonestOpenings(h: HashFn, trees: Trees, p: Openings)
    requires ValidTrees(trees, p.logEval)
  {
    var k, n := p.logEval, |p.queries|;
    && k >= 1 && n > 0 && |p.commitments| == 7 && |p.traceRows| == n
    && (forall t: nat :: t < 7 ==> p.commitments[t] == Root(h, Leaves(h, TreeRows(trees, k, t)), k))
    && (forall q: nat :: q < n ==> p.queries[q] < Pow2(k) && p.traceRows[q] == trees.trace[p.queries[q]])
    && |p.curPaths| == 3 && |p.nextPaths| == 3 && |p.wideRows| == 4 && |p.widePaths| == 4
    && (forall t: nat :: t < 3 ==>
      && HonestPaths(h, Leaves(h, TreeRows(trees, k, t)), k, p.queries, p.curPaths[t])
      && HonestPaths(h, Leaves(h, TreeRows(trees, k, t)), k, NextPositions(p.queries, k), p.nextPaths[t]))
    && (forall t: nat :: t < 4 ==> HonestPaths(h, Leaves(h, trees.wide[t]), k, p.queries, p.widePaths[t]) && |p.wideRows[t]| == n)
    && (forall t: nat, q: nat :: t < 4 && q < n ==> p.wideRows[t][q] == trees.wide[t][p.queries[q]])
  }

  /** The true next-row values, column by column. */
  ghost predicate HonestNextRows(trees: Trees, k: nat, queries: seq<nat>, next: seq<seq<u32>>)
    requires ValidTrees(trees, k) && k >= 1
  {
    && |next| >= 34
    && forall c: nat, q: nat :: c < 34 && q < |queries| ==>
      && CanonicNext(queries[q], k) < Pow2(k) && |next[c]| == |queries|
      && next[c][q] == trees.trace[CanonicNext(queries[q], k)][c]
  }

  lemma HonestIsExportable(h: HashFn, trees: Trees, p: Openings)
    requires ValidTrees(trees, p.logEval) && HonestOpenings(h, trees, p)
    ensures Exportable(p) && HiEnd(p.traceRows) == 31 && DictEnd(p.traceRows) == 34
  {
    assert |p.traceRows[0]| == 34;
    forall t: nat, q: nat | t < 4 && q < |p.queries| ensures |p.wideRows[t][q]| == 4 {
      assert p.wideRows[t][q] == trees.wide[t][p.queries[q]];
    }
  }

  /** A tree of 3..6. */
  lemma WideTreeAccepted(h: HashFn, rows: seq<seq<u32>>, k: nat, queries: seq<nat>, own: seq<seq<u32>>,
                         paths: seq<seq<Digest>>, order: seq<nat>, n: nat)
    requires n == |queries| > 0 && SortingOrder(order, queries) && |own| == n
    requires |rows| == Pow2(k) && forall i: nat :: i < |rows| ==> |rows[i]| == 4
    requires HonestPaths(h, Leaves(h, rows), k, queries, paths)
    requires forall q: nat :: q < n ==> own[q] == rows[queries[q]]
    requires ValidIndex(FirstIndex(queries), paths)
    ensures forall q: nat :: q < n ==> 4 <= |own[q]|
    ensures forall c: nat, i: nat :: c < 4 && i < |order| ==> order[i] < |Transposed(own, 0, 4, n)[c]|
    ensures Opens(h, k, Picked(queries, order), PickedColumns(Transposed(own, 0, 4, n), order),
                  Witness(FirstIndex(queries), paths, 0, k), Root(h, Leaves(h, rows), k))
  {
    hide Witness, FirstIndex, Reconstruct, Root, HashLeaf, LeafLayer, Pow2;
    var positions, cols := Picked(queries, order), PickedColumns(Transposed(own, 0, 4, n), order);
    SamePositions(queries, order);
    forall q: nat | q < n
      ensures positions[q] < |rows| && Row(cols, q) == rows[positions[q]]
    {
      assert positions[q] == queries[order[q]];
    }
    RoundTrip(h, Leaves(h, rows), k, queries, paths, positions, cols);
  }

  lemma SamePositions(queries: seq<nat>, order: seq<nat>)
    requires SortingOrder(order, queries)
    ensures forall p :: p in Picked(queries, order) <==> p in queries
  {
    forall p | p in queries ensures p in Picked(queries, order) {
      var q: nat :| q < |queries| && queries[q] == p;
      assert q in order;
      var i: nat :| i < |order| && order[i] == q;
      assert Picked(queries, order)[i] == p;
    }
  }

  /** Paths gathered by position are the true paths of the merged positions. */
  lemma MergedPathsHonest(h: HashFn, leaves: seq<Digest>, k: nat, queries: seq<nat>, cur: seq<seq<Digest>>, next: seq<seq<Digest>>)
    requires k >= 1 && |queries| > 0
    requires HonestPaths(h, leaves, k, queries, cur) && HonestPaths(h, leaves, k, NextPositions(queries, k), next)
    ensures var m := MergedPaths(queries, cur, next, k);
            && m.Keys == ToSet(queries) + ToSet(NextPositions(queries, k))
            && forall p :: p in m ==> p < Pow2(k) && m[p] == AuthPath(h, leaves, k, p)
  {
    hide FirstIndex, NextPositions, AuthPath, Pow2;
    FirstIndexFacts(queries);
    FirstIndexFacts(NextPositions(queries, k));
  }

  /** A trace tree, opened at the merged positions. */
  lemma TraceTreeAccepted(h: HashFn, rows: seq<seq<u32>>, k: nat, m: map<nat, seq<Digest>>, merged: seq<nat>, cols: seq<seq<u32>>)
    requires |rows| == Pow2(k) && m.Keys != {} && merged == Sorted(m.Keys)
    requires forall p :: p in m ==> p < Pow2(k) && m[p] == AuthPath(h, Leaves(h, rows), k, p)
    requires ColumnsCover(cols, |merged|)
    requires forall i: nat :: i < |merged| ==> merged[i] < |rows| && Row(cols, i) == rows[merged[i]]
    ensures Opens(h, k, merged, cols, TraceStream(m, k), Root(h, Leaves(h, rows), k))
  {
    hide Witness, FirstIndex, Reconstruct, Root, HashLeaf, LeafLayer, Pow2, AuthPath, Sorted, Row;
    SortedIsAscending(m.Keys);
    var p :| p in m.Keys;
    assert p in merged;
    FirstIndexFacts(merged);
    RoundTrip(h, Leaves(h, rows), k, merged, InOrder(merged, m), merged, cols);
  }

  /** The true columns of trace tree t at the merged positions. */
  function TrueColumns(trace: seq<seq<u32>>, lo: nat, hi: nat, merged: seq<nat>): (r: seq<seq<u32>>)
    requires lo <= hi && forall i: nat :: i < |merged| ==> merged[i] < |trace| && hi <= |trace[merged[i]]|
    ensures |r| == hi - lo && ColumnsCover(r, |merged|)
  {
    seq(hi - lo, c requires 0 <= c < hi - lo => seq(|merged|, i requires 0 <= i < |merged| => trace[merged[i]][lo + c]))
  }

  lemma MergedInRange(trees: Trees, k: nat, queries: seq<nat>, pos: nat)
    requires ValidTrees(trees, k) && k >= 1
    requires forall q: nat :: q < |queries| ==> queries[q] < Pow2(k)
    requires pos in queries || pos in NextPositions(queries, k)
    ensures pos < |trees.trace|
  {
    hide Pow2, CanonicNext;
    if pos !in queries {
      var q: nat :| q < |queries| && NextPositions(queries, k)[q] == pos;
      CanonicNextInRange(queries[q], k);
    }
  }

  /** The value the verifier looks up at a merged position is the true one. */
  lemma TrueValueLookedUp(h: HashFn, trees: Trees, p: Openings, two: StwoProof, next: seq<seq<u32>>, t: nat, c: nat, pos: nat)
    requires ValidTrees(trees, p.logEval) && HonestOpenings(h, trees, p) && Exportable(p) && IsExport(p, two)
    requires Checkable(two, |p.queries|) && HonestNextRows(trees, p.logEval, p.queries, next)
    requires t < 3 && c < TreeRange(t).1 - TreeRange(t).0 && pos < |trees.trace|
    requires pos in p.queries || pos in NextPositions(p.queries, p.logEval)
    ensures ValueIs(two, p.queries, next, t, c, pos, trees.trace[pos][TreeRange(t).0 + c])
  {
    hide LastIndex, Pow2, CanonicNext, ExportedStream, HonestPaths, Leaves, Root;
    HonestIsExportable(h, trees, p);
    LastIndexFacts(p.queries);
    var nextPositions := NextPositions(p.queries, p.logEval);
    LastIndexFacts(nextPositions);
    var cur, nxt := LastIndex(p.queries), LastIndex(nextPositions);
    var g := TreeRange(t).0 + c;
    if pos in cur {
      assert two.columns[t] == ExportedColumns(p, t);
      assert two.columns[t][c][cur[pos]] == p.traceRows[cur[pos]][g];
    } else {
      var q := nxt[pos];
      assert nextPositions[q] == CanonicNext(p.queries[q], p.logEval);
      assert next[g][q] == trees.trace[CanonicNext(p.queries[q], p.logEval)][g];
    }
  }

  lemma TrueColumnsAreGathered(trees: Trees, p: Openings, two: StwoProof, next: seq<seq<u32>>, t: nat, merged: seq<nat>, h: HashFn)
    requires ValidTrees(trees, p.logEval) && HonestOpenings(h, trees, p) && Exportable(p) && IsExport(p, two)
    requires Checkable(two, |p.queries|) && HonestNextRows(trees, p.logEval, p.queries, next) && t < 3
    requires forall x :: x in merged <==> x in p.queries || x in NextPositions(p.queries, p.logEval)
    ensures forall i: nat :: i < |merged| ==> merged[i] < |trees.trace|
    ensures Gathered(two, p.queries, next, t, TrueColumns(trees.trace, TreeRange(t).0, TreeRange(t).1, merged), merged, |merged|)
  {
    hide Pow2, HonestPaths, ColumnsCover, Leaves, Root, NextPositions, IsExport, Exportable, HonestNextRows, ValueIs;
    forall i: nat | i < |merged| ensures merged[i] < |trees.trace| {
      assert merged[i] in merged;
      MergedInRange(trees, p.logEval, p.queries, merged[i]);
    }
    var cols := TrueColumns(trees.trace, TreeRange(t).0, TreeRange(t).1, merged);
    forall c: nat, i: nat | c < |cols| && i < |merged|
      ensures ValueIs(two, p.queries, next, t, c, merged[i], cols[c][i])
    {
      assert merged[i] in merged;
      TrueValueLookedUp(h, trees, p, two, next, t, c, merged[i]);
    }
  }

  lemma TrueRows(trees: Trees, k: nat, t: nat, merged: seq<nat>, i: nat)
    requires ValidTrees(trees, k) && t < 3 && i < |merged| && forall j: nat :: j < |merged| ==> merged[j] < |trees.trace|
    ensures Row(TrueColumns(trees.trace, TreeRange(t).0, TreeRange(t).1, merged), i) == TreeRows(trees, k, t)[merged[i]]
  {
  }

  lemma TraceTreeOfExport(h: HashFn, trees: Trees, p: Openings, two: StwoProof, next: seq<seq<u32>>, t: nat)
    requires ValidTrees(trees, p.logEval) && HonestOpenings(h, trees, p) && Exportable(p) && IsExport(p, two)
    requires Checkable(two, |p.queries|) && HonestNextRows(trees, p.logEval, p.queries, next) && t < 3
    ensures TraceTreeOpens(h, two, p.queries, next, t)
  {
    hide LastIndex, Pow2, CanonicNext, HonestPaths, Leaves, Root, MergedPaths, TraceStream,
      Opens, Gathered, Sorted, ToSet, NextPositions, TrueColumns, AuthPath, Row, TreeRows;
    var k := p.logEval;
    var rows := TreeRows(trees, k, t);
    var m := MergedPaths(p.queries, p.curPaths[t], p.nextPaths[t], k);
    MergedPathsHonest(h, Leaves(h, rows), k, p.queries, p.curPaths[t], p.nextPaths[t]);
    var merged := Sorted(m.Keys);
    SortedIsAscending(m.Keys);
    SetMembers(p.queries); SetMembers(NextPositions(p.queries, k));
    TrueColumnsAreGathered(trees, p, two, next, t, merged, h);
    var cols := TrueColumns(trees.trace, TreeRange(t).0, TreeRange(t).1, merged);
    assert ColumnsCover(cols, |merged|);
    forall i: nat | i < |merged| ensures merged[i] < |rows| && Row(cols, i) == rows[merged[i]] {
      TrueRows(trees, k, t, merged, i);
    }
    assert p.queries[0] in m.Keys;
    TraceTreeAccepted(h, rows, k, m, merged, cols);
    TheseOpen(h, two, p.queries, next, t, cols, merged);
  }

  lemma SetMembers(ps: seq<nat>)
    ensures forall x :: x in ToSet(ps) <==> x in ps
  {
  }

  lemma ExportIsCheckable(h: HashFn, trees: Trees, p: Openings, two: StwoProof)
    requires ValidTrees(trees, p.logEval) && HonestOpenings(h, trees, p) && Exportable(p) && IsExport(p, two)
    ensures Checkable(two, |p.queries|)
  {
    hide ExportedStream, HonestPaths, Leaves, Root, Pow2;
    HonestIsExportable(h, trees, p);
    forall t: nat, c: nat | t < 7 && c < |two.columns[t]| ensures |two.columns[t][c]| >= |p.queries| {
      assert two.columns[t] == ExportedColumns(p, t);
    }
  }

  lemma WideTreeOfExport(h: HashFn, trees: Trees, p: Openings, two: StwoProof, order: seq<nat>, t: nat)
    requires ValidTrees(trees, p.logEval) && HonestOpenings(h, trees, p) && Exportable(p) && IsExport(p, two)
    requires Checkable(two, |p.queries|) && SortingOrder(order, p.queries) && 3 <= t < 7
    ensures WideTreeOpens(h, two, p.queries, order, t)
  {
    hide Pow2, HonestPaths, ColumnsCover, Leaves, Root, MergedPaths, TraceStream, Opens, Witness, FirstIndex,
      Transposed, Picked, PickedColumns, Sorted;
    IndexFacts(p.queries, FirstIndex(p.queries));
    PathsCount(h, Leaves(h, trees.wide[t - 3]), p.logEval, p.queries, p.widePaths[t - 3]);
    WideTreeAccepted(h, trees.wide[t - 3], p.logEval, p.queries, p.wideRows[t - 3], p.widePaths[t - 3], order, |p.queries|);
    assert two.columns[t] == ExportedColumns(p, t);
    assert two.streams[t] == ExportedStream(p, t);
    assert p.commitments[t] == Root(h, Leaves(h, TreeRows(trees, p.logEval, t)), p.logEval);
  }

  lemma PathsCount(h: HashFn, leaves: seq<Digest>, k: nat, queries: seq<nat>, paths: seq<seq<Digest>>)
    requires HonestPaths(h, leaves, k, queries, paths)
    ensures |paths| == |queries|
  {
  }

  /**
   The verifier accepts the export of honest openings: any nonempty query list, any
   order a sort may produce, with current and next rows merged.
   */
  lemma HonestExportAccepted(h: HashFn, trees: Trees, p: Openings, two: StwoProof, order: seq<nat>, next: seq<seq<u32>>)
    requires ValidTrees(trees, p.logEval) && HonestOpenings(h, trees, p) && Exportable(p) && IsExport(p, two)
    requires SortingOrder(order, p.queries) && HonestNextRows(trees, p.logEval, p.queries, next)
    ensures Checkable(two, |p.queries|) && AllTreesOpen(h, two, p.queries, order, next)
  {
    hide HonestOpenings, ValidTrees, IsExport, Exportable, Checkable, WideTreeOpens, TraceTreeOpens, HonestNextRows, SortingOrder;
    ExportIsCheckable(h, trees, p, two);
    forall t | 3 <= t < 7 ensures WideTreeOpens(h, two, p.queries, order, t) {
      WideTreeOfExport(h, trees, p, two, order, t);
    }
    forall t | 0 <= t < 3 ensures TraceTreeOpens(h, two, p.queries, next, t) {
      NextInRange(h, trees, p);
      TraceTreeOfExport(h, trees, p, two, next, t);
    }
  }

  lemma NextInRange(h: HashFn, trees: Trees, p: Openings)
    requires ValidTrees(trees, p.logEval) && HonestOpenings(h, trees, p)
    ensures p.logEval >= 1
  {
  }
}
