/**
 reconstruct_root_from_witness: levels rebuilt from the queried leaves and the
 hash stream; when it succeeds, what it then proves, and the round trip with the
 compressor (src/stwo_export.rs).
 */
module HashReconstruct {
  import opened Bits
  import opened Hashing
  import opened MerkleTree
  import opened SortedSets
  import opened HashWitness

  datatype Error = NoQueries | TooShort | TooLong | NotOneRoot
  datatype Result = Ok(root: Digest) | Err(error: Error)

  type LayerMap = map<nat, Digest>

  /** The outcome of one level: the parents and the rest of the stream. */
  datatype LevelResult = Next(layer: LayerMap, rest: seq<Digest>) | Short

  function PairNode(h: HashFn, layer: LayerMap, pos: nat): Digest
    requires pos in layer && Sibling(pos) in layer
  {
    if pos % 2 == 0 then HashPair(h, layer[pos], layer[Sibling(pos)]) else HashPair(h, layer[Sibling(pos)], layer[pos])
  }

  /** The pairing loop over the sorted positions of a level. */
  function ConsumeLevel(h: HashFn, ps: seq<nat>, layer: LayerMap, stream: seq<Digest>): LevelResult
    requires forall p :: p in ps ==> p in layer
    decreases |ps|
  {
    if |ps| == 0 then Next(map[], stream)
    else if PairFirst(ps) then
      assert ps[1] in ps;
      match ConsumeLevel(h, ps[2..], layer, stream)
      case Short => Short
      case Next(up, rest) => Next(up[ps[0] / 2 := PairNode(h, layer, ps[0])], rest)
    else if |stream| == 0 then Short
    else
      match ConsumeLevel(h, ps[1..], layer, stream[1..])
      case Short => Short
      case Next(up, rest) => Next(up[ps[0] / 2 := Parent(h, layer[ps[0]], stream[0], ps[0])], rest)
  }

  lemma {:induction false} ConsumeKeys(h: HashFn, ps: seq<nat>, layer: LayerMap, stream: seq<Digest>)
    requires forall p :: p in ps ==> p in layer
    ensures ConsumeLevel(h, ps, layer, stream).Short? <==> |stream| < |Singles(ps)|
    ensures var r := ConsumeLevel(h, ps, layer, stream);
            r.Next? ==> r.layer.Keys == ParentsOf(ps) && r.rest == stream[|Singles(ps)|..]
    decreases |ps|
  {
    hide HashPair, ParentsOf;
    if |ps| == 0 {
      NoParents(ps);
    } else if PairFirst(ps) {
      ConsumeKeys(h, ps[2..], layer, stream);
      ParentsOfPair(ps);
    } else {
      if |stream| > 0 {
        ConsumeKeys(h, ps[1..], layer, stream[1..]);
      }
      ParentsOfHead(ps);
    }
  }

  lemma NoParents(ps: seq<nat>)
    requires |ps| == 0
    ensures ParentsOf(ps) == {}
  {
  }

  lemma ParentsOfHead(ps: seq<nat>)
    requires |ps| > 0
    ensures ParentsOf(ps) == {ps[0] / 2} + ParentsOf(ps[1..])
  {
    hide ParentsOf;
    ParentsOfFront([ps[0]], ps[1..]);
    assert ps == [ps[0]] + ps[1..];
    ParentsOfSnoc([], ps[0]);
    NoParents([]);
    assert [] + [ps[0]] == [ps[0]];
  }

  lemma ParentsOfPair(ps: seq<nat>)
    requires PairFirst(ps)
    ensures ParentsOf(ps) == {ps[0] / 2} + ParentsOf(ps[2..])
  {
    hide ParentsOf;
    ParentsOfHead(ps);
    ParentsOfHead(ps[1..]);
    assert ps[1..][1..] == ps[2..];
  }

  lemma ParentsOfFront(a: seq<nat>, b: seq<nat>)
    ensures ParentsOf(a + b) == ParentsOf(a) + ParentsOf(b)
  {
    assert forall x :: x in a + b <==> x in a || x in b;
    forall y | y in ParentsOf(a) + ParentsOf(b) ensures y in ParentsOf(a + b) {
      if y in ParentsOf(a) {
        var x :| x in a && x / 2 == y;
        assert x in a + b;
      } else {
        var x :| x in b && x / 2 == y;
        assert x in a + b;
      }
    }
  }

  /** All levels, then the final checks. */
  ghost function Reconstruct(h: HashFn, layer: LayerMap, stream: seq<Digest>, height: nat): Result
    decreases height
  {
    if height == 0 then
      if |stream| > 0 then Err(TooLong)
      else if |layer| != 1 then Err(NotOneRoot)
      else Ok(layer[SomeLeast(layer.Keys)])
    else
      SortedIsAscending(layer.Keys);
      match ConsumeLevel(h, Sorted(layer.Keys), layer, stream)
      case Short => Err(TooShort)
      case Next(up, rest) => Reconstruct(h, up, rest, height - 1)
  }

  // ---- the method ----

  /** Row q across the columns. */
  function Row(cols: seq<seq<u32>>, q: nat): seq<u32>
    requires forall c :: 0 <= c < |cols| ==> q < |cols[c]|
  {
    seq(|cols|, c requires 0 <= c < |cols| => cols[c][q])
  }

  ghost predicate ColumnsCover(cols: seq<seq<u32>>, n: nat) {
    forall c :: 0 <= c < |cols| ==> |cols[c]| >= n
  }

  /** Leaf hashes at the queried positions; the first row wins for duplicates. */
  ghost function LeafLayer(h: HashFn, queries: seq<nat>, cols: seq<seq<u32>>): LayerMap
    requires ColumnsCover(cols, |queries|)
  {
    FirstIndexFacts(queries);
    map p | p in FirstIndex(queries) :: HashLeaf(h, Row(cols, FirstIndex(queries)[p]))
  }

  method ReconstructRootFromWitness(h: HashFn, height: nat, queries: seq<nat>, cols: seq<seq<u32>>,
                                    stream: seq<Digest>)
    returns (result: Result)
    requires ColumnsCover(cols, |queries|)
    ensures result == if |queries| == 0 then Err(NoQueries)
                      else Reconstruct(h, LeafLayer(h, queries, cols), stream, height)
  {
    hide ConsumeLevel, LeafLayer, Reconstruct;
    if |queries| == 0 {
      return Err(NoQueries);
    }
    var layer := HashQueriedRows(h, queries, cols);
    var rest := stream;
    for level := 0 to height
      invariant Reconstruct(h, layer, rest, height - level) == Reconstruct(h, LeafLayer(h, queries, cols), stream, height)
    {
      var positions := SortedKeys(layer.Keys);
      SortedIsAscending(layer.Keys);
      var r := ConsumeOneLevel(h, positions, layer, rest);
      ReconstructUnfold(h, layer, rest, height - level, positions, r);
      if r.Short? {
        return Err(TooShort);
      }
      layer, rest := r.layer, r.rest;
    }
    ReconstructTop(h, layer, rest);
    if |rest| > 0 {
      return Err(TooLong);
    }
    if |layer| != 1 {
      return Err(NotOneRoot);
    }
    var top := SortedKeys(layer.Keys);
    return Ok(layer[top[0]]);
  }

  lemma ReconstructUnfold(h: HashFn, layer: LayerMap, stream: seq<Digest>, height: nat, ps: seq<nat>, r: LevelResult)
    requires height >= 1 && ps == Sorted(layer.Keys)
    requires forall p :: p in ps ==> p in layer
    requires r == ConsumeLevel(h, ps, layer, stream)
    ensures Reconstruct(h, layer, stream, height)
         == if r.Short? then Err(TooShort) else Reconstruct(h, r.layer, r.rest, height - 1)
  {
    hide ConsumeLevel;
  }

  lemma ReconstructTop(h: HashFn, layer: LayerMap, stream: seq<Digest>)
    ensures Reconstruct(h, layer, stream, 0)
         == if |stream| > 0 then Err(TooLong) else if |layer| != 1 then Err(NotOneRoot)
            else Ok(layer[SomeLeast(layer.Keys)])
    ensures |layer| == 1 ==> Sorted(layer.Keys) == [SomeLeast(layer.Keys)]
  {
    if |layer| == 1 {
      var m := SomeLeast(layer.Keys);
      assert |layer.Keys - {m}| == 0;
      assert Sorted(layer.Keys) == [m] + Sorted(layer.Keys - {m});
    }
  }

  /** Hash the row of every distinct queried position. */
  method HashQueriedRows(h: HashFn, queries: seq<nat>, cols: seq<seq<u32>>) returns (layer: LayerMap)
    requires ColumnsCover(cols, |queries|)
    ensures layer == LeafLayer(h, queries, cols)
  {
    hide HashLeaf, Row;
    layer := map[];
    ghost var posToRow: map<nat, nat> := map[];
    for q := 0 to |queries|
      invariant posToRow == FirstIndex(queries[..q])
      invariant layer.Keys == posToRow.Keys
      invariant forall p :: p in posToRow ==> posToRow[p] < |queries| && layer[p] == HashLeaf(h, Row(cols, posToRow[p]))
    {
      assert queries[..q + 1][..q] == queries[..q];
      if queries[q] !in layer {
        posToRow := posToRow[queries[q] := q];
        layer := layer[queries[q] := HashLeaf(h, Row(cols, q))];
      }
    }
    assert queries[..|queries|] == queries;
  }

  lemma ParentFresh(ps: seq<nat>, n: nat)
    requires Ascending(ps) && 1 <= n <= |ps|
    requires n == 2 || !PairFirst(ps)
    ensures ps[0] / 2 !in ParentsOf(ps[n..])
  {
    forall i | n <= i < |ps| ensures ps[i] / 2 != ps[0] / 2 {
      if i > 1 { assert ps[0] < ps[1] < ps[i]; }
    }
  }

  lemma MergeStep(up: LayerMap, par: nat, x: Digest, more: LayerMap)
    requires par !in more
    ensures up + more[par := x] == up[par := x] + more
  {
  }

  /** One level of the loop: pair up, or pull from the stream. */
  method ConsumeOneLevel(h: HashFn, positions: seq<nat>, layer: LayerMap, stream: seq<Digest>) returns (r: LevelResult)
    requires forall p :: p in positions ==> p in layer
    requires Ascending(positions)
    ensures r == ConsumeLevel(h, positions, layer, stream)
  {
    hide Parent, PairNode, ConsumeLevel, After;
    var up: LayerMap := map[];
    var i, w := 0, 0;
    AfterNothing(ConsumeLevel(h, positions, layer, stream));
    assert positions[0..] == positions && stream[0..] == stream;
    while i < |positions|
      invariant i <= |positions| && w <= |stream|
      invariant forall p :: p in positions[i..] ==> p in layer
      invariant ConsumeLevel(h, positions, layer, stream)
             == After(up, ConsumeLevel(h, positions[i..], layer, stream[w..]))
    {
      var pos := positions[i];
      ghost var rest, tail := positions[i..], stream[w..];
      if i + 1 < |positions| && positions[i + 1] == Sibling(pos) {
        assert rest[2..] == positions[i + 2..];
        assert positions[i + 1] in positions;
        PairStep(h, rest, layer, tail, up);
        up := up[pos / 2 := PairNode(h, layer, pos)];
        i := i + 2;
      } else {
        SingleStep(h, rest, layer, tail, up);
        if w == |stream| {
          return Short;
        }
        assert rest[1..] == positions[i + 1..] && tail[1..] == stream[w + 1..];
        up := up[pos / 2 := Parent(h, layer[pos], stream[w], pos)];
        i, w := i + 1, w + 1;
      }
    }
    ConsumeNothing(h, layer, stream[w..], up);
    assert positions[|positions|..] == [];
    r := Next(up, stream[w..]);
  }

  lemma ConsumeNothing(h: HashFn, layer: LayerMap, stream: seq<Digest>, up: LayerMap)
    ensures After(up, ConsumeLevel(h, [], layer, stream)) == Next(up, stream)
  {
    assert up + map[] == up;
  }

  lemma PairStep(h: HashFn, ps: seq<nat>, layer: LayerMap, stream: seq<Digest>, up: LayerMap)
    requires Ascending(ps) && PairFirst(ps) && forall p :: p in ps ==> p in layer
    ensures ps[0] in layer && Sibling(ps[0]) in layer
    ensures After(up, ConsumeLevel(h, ps, layer, stream))
         == After(up[ps[0] / 2 := PairNode(h, layer, ps[0])], ConsumeLevel(h, ps[2..], layer, stream))
  {
    hide PairNode, ParentsOf;
    assert ps[1] in ps;
    ParentFresh(ps, 2);
    ConsumeKeys(h, ps[2..], layer, stream);
    var c := ConsumeLevel(h, ps[2..], layer, stream);
    if c.Next? { MergeStep(up, ps[0] / 2, PairNode(h, layer, ps[0]), c.layer); }
  }

  lemma SingleStep(h: HashFn, ps: seq<nat>, layer: LayerMap, stream: seq<Digest>, up: LayerMap)
    requires Ascending(ps) && |ps| > 0 && !PairFirst(ps) && forall p :: p in ps ==> p in layer
    ensures |stream| == 0 ==> After(up, ConsumeLevel(h, ps, layer, stream)) == Short
    ensures |stream| > 0 ==>
      After(up, ConsumeLevel(h, ps, layer, stream))
        == After(up[ps[0] / 2 := Parent(h, layer[ps[0]], stream[0], ps[0])],
                 ConsumeLevel(h, ps[1..], layer, stream[1..]))
  {
    hide Parent, ParentsOf;
    if |stream| > 0 {
      ParentFresh(ps, 1);
      ConsumeKeys(h, ps[1..], layer, stream[1..]);
      var c := ConsumeLevel(h, ps[1..], layer, stream[1..]);
      if c.Next? { MergeStep(up, ps[0] / 2, Parent(h, layer[ps[0]], stream[0], ps[0]), c.layer); }
    }
  }

  /** Parents already built, joined with those of the remaining positions. */
  function After(up: LayerMap, r: LevelResult): LevelResult {
    match r
    case Short => Short
    case Next(more, rest) => Next(up + more, rest)
  }

  lemma AfterNothing(r: LevelResult)
    ensures After(map[], r) == r
  {
    if r.Next? { assert map[] + r.layer == r.layer; }
  }
}
