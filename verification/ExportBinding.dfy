/**
 What it means that an export is accepted: its commitments are checked, and they bind
 the opened values (src/stwo_export.rs).
 */
module ExportBinding {
  import opened Hashing
  import opened SortedSets
  import opened HashWitness
  import opened HashReconstruct
  import opened WitnessRoundTrip
  import opened FriOpening
  import opened StwoExport

  // ---- every commitment is checked ----

  lemma RootIsUnique(h: HashFn, height: nat, positions: seq<nat>, cols: seq<seq<u32>>, stream: seq<Digest>, root: Digest, other: Digest)
    requires Opens(h, height, positions, cols, stream, root) && Opens(h, height, positions, cols, stream, other)
    ensures root == other
  {
    hide LeafLayer, Reconstruct, ColumnsCover;
  }

  /** The same export with another commitment for tree t. */
  function WithCommitment(two: StwoProof, t: nat, root: Digest): StwoProof
    requires t < |two.commitments|
  {
    two.(commitments := two.commitments[t := root])
  }

  /** An accepted export is rejected once the commitment of a tree with columns is replaced. */
  lemma CommitmentsAreChecked(h: HashFn, two: StwoProof, queries: seq<nat>, order: seq<nat>, next: seq<seq<u32>>, t: nat, root: Digest)
    requires Checkable(two, |queries|) && SortingOrder(order, queries) && t < 7 && two.columns[t] != []
    requires AllTreesOpen(h, two, queries, order, next) && root != two.commitments[t]
    ensures Checkable(WithCommitment(two, t, root), |queries|)
    ensures !AllTreesOpen(h, WithCommitment(two, t, root), queries, order, next)
  {
    hide Opens, Picked, PickedColumns, MergedPositions, Gathered;
    var other := WithCommitment(two, t, root);
    if AllTreesOpen(h, other, queries, order, next) {
      if t >= 3 {
        assert WideTreeOpens(h, two, queries, order, t) && WideTreeOpens(h, other, queries, order, t);
        RootIsUnique(h, two.logEval, Picked(queries, order), PickedColumns(two.columns[t], order), two.streams[t], two.commitments[t], root);
      } else {
        assert TraceTreeOpens(h, two, queries, next, t) && TraceTreeOpens(h, other, queries, next, t);
        TraceRootIsUnique(h, two, other, queries, next, t);
      }
    }
  }

  lemma TraceRootIsUnique(h: HashFn, two: StwoProof, other: StwoProof, queries: seq<nat>, next: seq<seq<u32>>, t: nat)
    requires Checkable(two, |queries|) && Checkable(other, |queries|) && t < 3
    requires other.columns == two.columns && other.streams == two.streams && other.logEval == two.logEval
    requires TraceTreeOpens(h, two, queries, next, t) && TraceTreeOpens(h, other, queries, next, t)
    ensures two.commitments[t] == other.commitments[t]
  {
    hide Opens, MergedPositions, Gathered, ValueIs;
    var merged := MergedPositions(queries, two.logEval);
    var a := GatheredOf(h, two, queries, next, t);
    var b := GatheredOf(h, other, queries, next, t);
    SameGathered(two, other, queries, next, t, b, merged);
    GatheredOnce(two, queries, next, t, a, b, merged);
    RootIsUnique(h, two.logEval, merged, a, two.streams[t], two.commitments[t], other.commitments[t]);
  }

  lemma GatheredOf(h: HashFn, two: StwoProof, queries: seq<nat>, next: seq<seq<u32>>, t: nat) returns (cols: seq<seq<u32>>)
    requires Checkable(two, |queries|) && t < 3 && TraceTreeOpens(h, two, queries, next, t)
    ensures Gathered(two, queries, next, t, cols, MergedPositions(queries, two.logEval), |MergedPositions(queries, two.logEval)|)
    ensures Opens(h, two.logEval, MergedPositions(queries, two.logEval), cols, two.streams[t], two.commitments[t])
  {
    hide Opens, MergedPositions, Gathered;
    var merged := MergedPositions(queries, two.logEval);
    cols :| Gathered(two, queries, next, t, cols, merged, |merged|)
         && Opens(h, two.logEval, merged, cols, two.streams[t], two.commitments[t]);
  }

  /** What is gathered does not depend on the commitments. */
  lemma SameGathered(two: StwoProof, other: StwoProof, queries: seq<nat>, next: seq<seq<u32>>, t: nat, cols: seq<seq<u32>>, merged: seq<nat>)
    requires Checkable(two, |queries|) && Checkable(other, |queries|) && t < 3
    requires other.columns == two.columns && other.logEval == two.logEval
    requires Gathered(other, queries, next, t, cols, merged, |merged|)
    ensures Gathered(two, queries, next, t, cols, merged, |merged|)
  {
    hide LastIndex, NextPositions, CanonicOrder.CanonicNext;
    forall c: nat, i: nat | c < |cols| && i < |merged| ensures ValueIs(two, queries, next, t, c, merged[i], cols[c][i]) {
      assert ValueIs(other, queries, next, t, c, merged[i], cols[c][i]);
    }
  }

  // ---- the commitments bind the values ----

  /** All byte strings hashed while one tree is checked: the leaf rows and the inner nodes. */
  ghost function OpeningInputs(h: HashFn, height: nat, positions: seq<nat>, cols: seq<seq<u32>>, stream: seq<Digest>): set<seq<byte>>
    requires ColumnsCover(cols, |positions|)
  {
    RunInputs(h, LeafLayer(h, positions, cols), stream, height) + set i: nat | i < |positions| :: WordBytes(Row(cols, i))
  }

  /** The rows at first occurrences agree. */
  ghost predicate FirstRowsAgree(positions: seq<nat>, a: seq<seq<u32>>, b: seq<seq<u32>>)
    requires ColumnsCover(a, |positions|) && ColumnsCover(b, |positions|)
  {
    forall i: nat :: i < |positions| && positions[i] !in positions[..i] ==> Row(a, i) == Row(b, i)
  }

  /** Two openings of one root at the same positions have the same rows, or hash inputs collide. */
  lemma OpenedRowsAgree(h: HashFn, height: nat, positions: seq<nat>, a: seq<seq<u32>>, v: seq<Digest>, b: seq<seq<u32>>, w: seq<Digest>, root: Digest)
    requires Opens(h, height, positions, a, v, root) && Opens(h, height, positions, b, w, root)
    ensures FirstRowsAgree(positions, a, b) || Collide(h, OpeningInputs(h, height, positions, a, v), OpeningInputs(h, height, positions, b, w))
  {
    hide Reconstruct, RunInputs, Row, WordBytes, Collide, FirstIndex;
    FirstIndexFacts(positions);
    var x, y := LeafLayer(h, positions, a), LeafLayer(h, positions, b);
    var xs, ys := OpeningInputs(h, height, positions, a, v), OpeningInputs(h, height, positions, b, w);
    MultiOpeningsBind(h, x, v, y, w, height);
    if x != y {
      CollideGrows(h, RunInputs(h, x, v, height), RunInputs(h, y, w, height), xs, ys);
    } else {
      forall i: nat | i < |positions| && positions[i] !in positions[..i]
        ensures Row(a, i) == Row(b, i) || Collide(h, xs, ys)
      {
        FirstIndexIsFirst(positions, i);
        assert x[positions[i]] == y[positions[i]];
        LeafCollides(h, Row(a, i), Row(b, i), xs, ys);
      }
    }
  }

  lemma LeafCollides(h: HashFn, a: seq<u32>, b: seq<u32>, xs: set<seq<byte>>, ys: set<seq<byte>>)
    requires HashLeaf(h, a) == HashLeaf(h, b) && WordBytes(a) in xs && WordBytes(b) in ys
    ensures a == b || Collide(h, xs, ys)
  {
    hide WordBytes;
    if WordBytes(a) == WordBytes(b) { WordBytesInjective(a, b); }
  }

  /** Two exports of the same trees for the same queries. */
  ghost predicate Comparable(a: StwoProof, b: StwoProof, n: nat) {
    Checkable(a, n) && Checkable(b, n) && a.logEval == b.logEval && a.commitments == b.commitments
  }

  /** The inputs hashed for tree t of 3..6. */
  ghost function WideInputs(h: HashFn, two: StwoProof, queries: seq<nat>, order: seq<nat>, t: nat): set<seq<byte>>
    requires Checkable(two, |queries|) && SortingOrder(order, queries) && 3 <= t < 7
  {
    PickedCover(two.columns[t], order);
    OpeningInputs(h, two.logEval, Picked(queries, order), PickedColumns(two.columns[t], order), two.streams[t])
  }

  /** Query order[i] is the first in sorted order at its position; there the columns agree. */
  ghost predicate WideValuesAgree(a: StwoProof, b: StwoProof, queries: seq<nat>, order: seq<nat>, t: nat)
    requires Comparable(a, b, |queries|) && SortingOrder(order, queries) && 3 <= t < 7
  {
    && |a.columns[t]| == |b.columns[t]|
    && forall c: nat, i: nat :: c < |a.columns[t]| && i < |order| && Picked(queries, order)[i] !in Picked(queries, order)[..i] ==>
         a.columns[t][c][order[i]] == b.columns[t][c][order[i]]
  }

  /** Trees 3..6: one commitment, the same columns at every opened position, or a collision. */
  lemma WideTreesBind(h: HashFn, a: StwoProof, b: StwoProof, queries: seq<nat>, order: seq<nat>, nextA: seq<seq<u32>>, nextB: seq<seq<u32>>, t: nat)
    requires Comparable(a, b, |queries|) && SortingOrder(order, queries) && 3 <= t < 7
    requires AllTreesOpen(h, a, queries, order, nextA) && AllTreesOpen(h, b, queries, order, nextB)
    requires a.columns[t] != [] && b.columns[t] != []
    ensures WideValuesAgree(a, b, queries, order, t)
         || Collide(h, WideInputs(h, a, queries, order, t), WideInputs(h, b, queries, order, t))
  {
    hide Opens, OpeningInputs, Collide, Row;
    var positions := Picked(queries, order);
    var x, y := PickedColumns(a.columns[t], order), PickedColumns(b.columns[t], order);
    PickedCover(a.columns[t], order); PickedCover(b.columns[t], order);
    assert WideTreeOpens(h, a, queries, order, t) && WideTreeOpens(h, b, queries, order, t);
    OpenedRowsAgree(h, a.logEval, positions, x, a.streams[t], y, b.streams[t], a.commitments[t]);
    if FirstRowsAgree(positions, x, y) {
      SomePosition(h, a, queries, order, t);
      RowsToColumns(x, y, 0);
      forall c: nat, i: nat | c < |x| && i < |order| && positions[i] !in positions[..i]
        ensures a.columns[t][c][order[i]] == b.columns[t][c][order[i]]
      {
        RowsToColumns(x, y, i);
        assert x[c][i] == a.columns[t][c][order[i]] && y[c][i] == b.columns[t][c][order[i]];
      }
    }
  }

  lemma SomePosition(h: HashFn, two: StwoProof, queries: seq<nat>, order: seq<nat>, t: nat)
    requires Checkable(two, |queries|) && SortingOrder(order, queries) && 3 <= t < 7
    requires two.columns[t] != [] && WideTreeOpens(h, two, queries, order, t)
    ensures |order| > 0
  {
    hide Reconstruct, LeafLayer, PickedColumns;
  }

  lemma RowsToColumns(x: seq<seq<u32>>, y: seq<seq<u32>>, i: nat)
    requires ColumnsCover(x, i + 1) && ColumnsCover(y, i + 1) && Row(x, i) == Row(y, i)
    ensures |x| == |y| && forall c: nat :: c < |x| ==> x[c][i] == y[c][i]
  {
    assert |Row(x, i)| == |x| && |Row(y, i)| == |y|;
    forall c: nat | c < |x| ensures x[c][i] == y[c][i] {
      assert Row(x, i)[c] == Row(y, i)[c];
    }
  }

  // ---- current and next rows ----

  ghost predicate CanGather(two: StwoProof, queries: seq<nat>, next: seq<seq<u32>>, t: nat)
    requires Checkable(two, |queries|) && t < 3
  {
    var merged := MergedPositions(queries, two.logEval);
    exists cols :: Gathered(two, queries, next, t, cols, merged, |merged|)
  }

  /** The columns of trace tree t at the merged positions; there is one choice (GatheredOnce). */
  ghost function GatheredColumns(two: StwoProof, queries: seq<nat>, next: seq<seq<u32>>, t: nat): (cols: seq<seq<u32>>)
    requires Checkable(two, |queries|) && t < 3 && CanGather(two, queries, next, t)
    ensures Gathered(two, queries, next, t, cols, MergedPositions(queries, two.logEval), |MergedPositions(queries, two.logEval)|)
  {
    hide Gathered, MergedPositions;
    var merged := MergedPositions(queries, two.logEval);
    var cols :| Gathered(two, queries, next, t, cols, merged, |merged|);
    cols
  }

  lemma OpenTreeGathers(h: HashFn, two: StwoProof, queries: seq<nat>, next: seq<seq<u32>>, t: nat)
    requires Checkable(two, |queries|) && t < 3 && TraceTreeOpens(h, two, queries, next, t)
    ensures CanGather(two, queries, next, t)
    ensures Opens(h, two.logEval, MergedPositions(queries, two.logEval), GatheredColumns(two, queries, next, t), two.streams[t], two.commitments[t])
  {
    hide Opens, Gathered, MergedPositions;
    var cols := GatheredOf(h, two, queries, next, t);
    GatheredOnce(two, queries, next, t, cols, GatheredColumns(two, queries, next, t), MergedPositions(queries, two.logEval));
  }

  /** The inputs hashed for trace tree t. */
  ghost function TraceInputs(h: HashFn, two: StwoProof, queries: seq<nat>, next: seq<seq<u32>>, t: nat): set<seq<byte>>
    requires Checkable(two, |queries|) && t < 3 && CanGather(two, queries, next, t)
  {
    hide MergedPositions, LastIndex, NextPositions;
    var merged := MergedPositions(queries, two.logEval);
    var cols := GatheredColumns(two, queries, next, t);
    GatheredCover(two, queries, next, t, cols, merged);
    OpeningInputs(h, two.logEval, merged, cols, two.streams[t])
  }

  /** The last query at a position gives its current row, whatever its next rows are. */
  ghost predicate CurrentValuesAgree(a: StwoProof, b: StwoProof, queries: seq<nat>, t: nat)
    requires Comparable(a, b, |queries|) && t < 3
  {
    forall c: nat, q: nat :: c < TreeRange(t).1 - TreeRange(t).0 && q < |queries| && queries[q] !in queries[q + 1..] ==>
      a.columns[t][c][q] == b.columns[t][c][q]
  }

  /** At next positions that are no queries, the last next row counts. */
  ghost predicate NextValuesAgree(queries: seq<nat>, logEval: nat, nextA: seq<seq<u32>>, nextB: seq<seq<u32>>, t: nat)
    requires logEval >= 1 && t < 3
  {
    var nexts := NextPositions(queries, logEval);
    forall g: nat, q: nat :: TreeRange(t).0 <= g < TreeRange(t).1 && q < |nexts| && nexts[q] !in queries && nexts[q] !in nexts[q + 1..] ==>
      SameNextValue(nextA, nextB, g, q)
  }

  ghost predicate SameNextValue(nextA: seq<seq<u32>>, nextB: seq<seq<u32>>, g: nat, q: nat) {
    g < |nextA| && g < |nextB| && q < |nextA[g]| && q < |nextB[g]| && nextA[g][q] == nextB[g][q]
  }

  /** Trees 0..2: one commitment, the same current and next rows, or a collision. */
  lemma TraceTreesBind(h: HashFn, a: StwoProof, b: StwoProof, queries: seq<nat>, order: seq<nat>, nextA: seq<seq<u32>>, nextB: seq<seq<u32>>, t: nat)
    requires Comparable(a, b, |queries|) && SortingOrder(order, queries) && t < 3
    requires AllTreesOpen(h, a, queries, order, nextA) && AllTreesOpen(h, b, queries, order, nextB)
    ensures CanGather(a, queries, nextA, t) && CanGather(b, queries, nextB, t)
    ensures (CurrentValuesAgree(a, b, queries, t) && NextValuesAgree(queries, a.logEval, nextA, nextB, t))
         || Collide(h, TraceInputs(h, a, queries, nextA, t), TraceInputs(h, b, queries, nextB, t))
  {
    hide Opens, OpeningInputs, Collide, Row, MergedPositions, Gathered, LastIndex, NextPositions, SortingOrder,
      CurrentValuesAgree, NextValuesAgree;
    assert TraceTreeOpens(h, a, queries, nextA, t) && TraceTreeOpens(h, b, queries, nextB, t);
    OpenTreeGathers(h, a, queries, nextA, t); OpenTreeGathers(h, b, queries, nextB, t);
    var merged := MergedPositions(queries, a.logEval);
    var x, y := GatheredColumns(a, queries, nextA, t), GatheredColumns(b, queries, nextB, t);
    GatheredCover(a, queries, nextA, t, x, merged); GatheredCover(b, queries, nextB, t, y, merged);
    OpenedRowsAgree(h, a.logEval, merged, x, a.streams[t], y, b.streams[t], a.commitments[t]);
    if FirstRowsAgree(merged, x, y) {
      MergedOnce(queries, a.logEval);
      forall i: nat | i < |merged| ensures Row(x, i) == Row(y, i) { AscendingFresh(merged, i); }
      CurrentRows(a, b, queries, nextA, nextB, t, x, y, merged);
      NextRows(a, b, queries, nextA, nextB, t, x, y, merged);
    }
  }

  lemma MergedOnce(queries: seq<nat>, logEval: nat)
    requires logEval >= 1
    ensures Ascending(MergedPositions(queries, logEval))
    ensures forall p :: p in MergedPositions(queries, logEval) <==> p in queries || p in NextPositions(queries, logEval)
  {
    hide Sorted, NextPositions;
    SortedIsAscending(ToSet(queries) + ToSet(NextPositions(queries, logEval)));
    SetMembers(queries); SetMembers(NextPositions(queries, logEval));
  }

  lemma AscendingFresh(ps: seq<nat>, i: nat)
    requires Ascending(ps) && i < |ps|
    ensures ps[i] !in ps[..i]
  {
  }

  /** The gathered columns agree at every merged position. */
  ghost predicate SameRows(x: seq<seq<u32>>, y: seq<seq<u32>>, n: nat) {
    ColumnsCover(x, n) && ColumnsCover(y, n) && forall i: nat :: i < n ==> Row(x, i) == Row(y, i)
  }

  lemma CurrentRows(a: StwoProof, b: StwoProof, queries: seq<nat>, nextA: seq<seq<u32>>, nextB: seq<seq<u32>>, t: nat,
                    x: seq<seq<u32>>, y: seq<seq<u32>>, merged: seq<nat>)
    requires Comparable(a, b, |queries|) && t < 3 && SameRows(x, y, |merged|)
    requires forall p :: p in merged <==> p in queries || p in NextPositions(queries, a.logEval)
    requires Gathered(a, queries, nextA, t, x, merged, |merged|) && Gathered(b, queries, nextB, t, y, merged, |merged|)
    ensures CurrentValuesAgree(a, b, queries, t)
  {
    hide LastIndex, NextPositions, Row;
    forall c: nat, q: nat | c < TreeRange(t).1 - TreeRange(t).0 && q < |queries| && queries[q] !in queries[q + 1..]
      ensures a.columns[t][c][q] == b.columns[t][c][q]
    {
      LastIndexIsLast(queries, q);
      assert queries[q] in merged;
      var i: nat :| i < |merged| && merged[i] == queries[q];
      RowsToColumns(x, y, i);
      assert ValueIs(a, queries, nextA, t, c, merged[i], x[c][i]) && ValueIs(b, queries, nextB, t, c, merged[i], y[c][i]);
    }
  }

  lemma NextRows(a: StwoProof, b: StwoProof, queries: seq<nat>, nextA: seq<seq<u32>>, nextB: seq<seq<u32>>, t: nat,
                 x: seq<seq<u32>>, y: seq<seq<u32>>, merged: seq<nat>)
    requires Comparable(a, b, |queries|) && t < 3 && SameRows(x, y, |merged|)
    requires forall p :: p in merged <==> p in queries || p in NextPositions(queries, a.logEval)
    requires Gathered(a, queries, nextA, t, x, merged, |merged|) && Gathered(b, queries, nextB, t, y, merged, |merged|)
    ensures NextValuesAgree(queries, a.logEval, nextA, nextB, t)
  {
    hide LastIndex, NextPositions, Row;
    var nexts := NextPositions(queries, a.logEval);
    LastIndexFacts(queries);
    forall g: nat, q: nat | TreeRange(t).0 <= g < TreeRange(t).1 && q < |nexts| && nexts[q] !in queries && nexts[q] !in nexts[q + 1..]
      ensures SameNextValue(nextA, nextB, g, q)
    {
      LastIndexIsLast(nexts, q);
      assert nexts[q] in merged;
      var i: nat :| i < |merged| && merged[i] == nexts[q];
      var c: nat := g - TreeRange(t).0;
      RowsToColumns(x, y, i);
      assert ValueIs(a, queries, nextA, t, c, merged[i], x[c][i]) && ValueIs(b, queries, nextB, t, c, merged[i], y[c][i]);
    }
  }
}
