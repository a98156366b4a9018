/**
 Compressing and reconstructing undo each other; the exact outcome of every
 reconstruction; and what a successful one binds (src/stwo_export.rs).
 */
module WitnessRoundTrip {
  import opened Bits
  import opened Hashing
  import opened MerkleTree
  import opened SortedSets
  import opened HashWitness
  import opened HashReconstruct

  lemma ParentsOfSorted(s: set<nat>)
    ensures ParentsOf(Sorted(s)) == Parents(s)
  {
    SortedIsAscending(s);
  }

  // ---- the outcome, exactly ----

  /** How many hashes the stream must hold for positions s below a root of this height. */
  ghost function Needed(s: set<nat>, height: nat): nat
    decreases height
  {
    if height == 0 then 0 else |Singles(Sorted(s))| + Needed(Parents(s), height - 1)
  }

  ghost function Ancestors(s: set<nat>, height: nat): set<nat>
    decreases height
  {
    if height == 0 then s else Ancestors(Parents(s), height - 1)
  }

  /** Which result a reconstruction gives depends only on the stream length and the positions. */
  lemma {:induction false} OutcomeExact(h: HashFn, layer: LayerMap, stream: seq<Digest>, height: nat)
    ensures Reconstruct(h, layer, stream, height) == Err(TooShort) <==> |stream| < Needed(layer.Keys, height)
    ensures Reconstruct(h, layer, stream, height) == Err(TooLong) <==> |stream| > Needed(layer.Keys, height)
    ensures Reconstruct(h, layer, stream, height).Ok?
       <==> |stream| == Needed(layer.Keys, height) && |Ancestors(layer.Keys, height)| == 1
    decreases height
  {
    hide ConsumeLevel, Sorted, Singles, Parents;
    if height > 0 {
      SortedIsAscending(layer.Keys);
      var ps := Sorted(layer.Keys);
      ConsumeKeys(h, ps, layer, stream);
      ParentsOfSorted(layer.Keys);
      var r := ConsumeLevel(h, ps, layer, stream);
      if r.Next? {
        OutcomeExact(h, r.layer, r.rest, height - 1);
      }
    }
  }

  /** Positions below 2^height have the single ancestor 0. */
  lemma {:induction false} OneAncestor(s: set<nat>, height: nat)
    requires s != {} && forall p :: p in s ==> p < Pow2(height)
    ensures Ancestors(s, height) == {0}
    decreases height
  {
    if height > 0 {
      var p :| p in s;
      assert p / 2 in Parents(s);
      OneAncestor(Parents(s), height - 1);
    } else {
      var p :| p in s;
      assert s == {0};
    }
  }

  // ---- honest levels ----

  /** The layer map agrees with the true nodes of a level. */
  ghost predicate Agrees(layer: LayerMap, nodes: seq<Digest>) {
    forall p :: p in layer ==> p < |nodes| && layer[p] == nodes[p]
  }

  function SiblingNodes(singles: seq<nat>, nodes: seq<Digest>): (r: seq<Digest>)
    requires |nodes| % 2 == 0 && forall p :: p in singles ==> p < |nodes|
    ensures |r| == |singles|
  {
    seq(|singles|, i requires 0 <= i < |singles| => assert singles[i] in singles; nodes[Sibling(singles[i])])
  }

  /** Fed with the true sibling nodes, one level yields the true parents. */
  lemma {:induction false} ConsumeHonest(h: HashFn, ps: seq<nat>, layer: LayerMap, nodes: seq<Digest>, rest: seq<Digest>)
    requires |nodes| % 2 == 0 && Agrees(layer, nodes)
    requires forall p :: p in ps ==> p in layer
    requires forall p :: p in Singles(ps) ==> p < |nodes|
    ensures var r := ConsumeLevel(h, ps, layer, SiblingNodes(Singles(ps), nodes) + rest);
            r.Next? && r.rest == rest && r.layer.Keys == ParentsOf(ps) && Agrees(r.layer, LayerUp(h, nodes))
    decreases |ps|
  {
    hide HashPair, Parent, PairNode, LayerUp, SiblingNodes, ParentsOf, Agrees;
    var stream := SiblingNodes(Singles(ps), nodes) + rest;
    ConsumeKeys(h, ps, layer, stream);
    if |ps| == 0 {
      NothingAgrees(LayerUp(h, nodes));
    } else if PairFirst(ps) {
      assert ps[0] in ps && ps[1] in ps;
      ConsumeHonest(h, ps[2..], layer, nodes, rest);
      TrueParent(h, layer, nodes, ps[0]);
      AgreesExtended(ConsumeLevel(h, ps[2..], layer, stream).layer, LayerUp(h, nodes), ps[0] / 2);
    } else {
      assert ps[0] in ps;
      assert Singles(ps)[1..] == Singles(ps[1..]);
      assert forall p :: p in Singles(ps[1..]) ==> p in Singles(ps);
      SiblingNodesCons(Singles(ps), nodes, rest);
      ConsumeHonest(h, ps[1..], layer, nodes, rest);
      TrueParent(h, layer, nodes, ps[0]);
      AgreesExtended(ConsumeLevel(h, ps[1..], layer, stream[1..]).layer, LayerUp(h, nodes), ps[0] / 2);
    }
  }

  lemma NothingAgrees(nodes: seq<Digest>)
    ensures Agrees(map[], nodes)
  {
  }

  lemma AgreesExtended(layer: LayerMap, nodes: seq<Digest>, q: nat)
    requires Agrees(layer, nodes) && q < |nodes|
    ensures Agrees(layer[q := nodes[q]], nodes)
  {
  }

  lemma SiblingNodesCons(singles: seq<nat>, nodes: seq<Digest>, rest: seq<Digest>)
    requires |singles| > 0 && |nodes| % 2 == 0 && forall p :: p in singles ==> p < |nodes|
    ensures forall p :: p in singles[1..] ==> p in singles
    ensures singles[0] < |nodes| && Sibling(singles[0]) < |nodes|
    ensures (SiblingNodes(singles, nodes) + rest)[0] == nodes[Sibling(singles[0])]
    ensures (SiblingNodes(singles, nodes) + rest)[1..] == SiblingNodes(singles[1..], nodes) + rest
  {
    assert singles[0] in singles;
  }

  /** Combining a true node with its true sibling gives the true parent. */
  lemma TrueParent(h: HashFn, layer: LayerMap, nodes: seq<Digest>, pos: nat)
    requires |nodes| % 2 == 0 && Agrees(layer, nodes) && pos in layer
    ensures pos < |nodes| && Sibling(pos) < |nodes| && pos / 2 < |LayerUp(h, nodes)|
    ensures Parent(h, layer[pos], nodes[Sibling(pos)], pos) == LayerUp(h, nodes)[pos / 2]
    ensures Sibling(pos) in layer ==> PairNode(h, layer, pos) == LayerUp(h, nodes)[pos / 2]
  {
    hide HashPair;
  }

  /** Positions of level l of a tree of height k. */
  ghost predicate InLevel(s: set<nat>, k: nat, l: nat)
    requires l <= k
  {
    forall p :: p in s ==> p < Pow2(k - l)
  }

  lemma LevelFacts(h: HashFn, leaves: seq<Digest>, k: nat, s: set<nat>, l: nat)
    requires |leaves| == Pow2(k) && l < k && InLevel(s, k, l)
    ensures |Layer(h, leaves, l)| == Pow2(k - l) && |Layer(h, leaves, l)| % 2 == 0
    ensures forall p :: p in Singles(Sorted(s)) ==> p in s && p < |Layer(h, leaves, l)|
    ensures InLevel(Parents(s), k, l + 1)
  {
    LayerSize(h, leaves, k, l);
    SinglesSubset(Sorted(s));
    SortedIsAscending(s);
  }

  /** The true nodes that level l contributes: the absent siblings of s, in order. */
  ghost function LevelStream(h: HashFn, leaves: seq<Digest>, k: nat, s: set<nat>, l: nat): seq<Digest>
    requires |leaves| == Pow2(k) && l < k && InLevel(s, k, l)
  {
    hide Layer, Singles, Sorted, InLevel;
    LevelFacts(h, leaves, k, s, l);
    SiblingNodes(Singles(Sorted(s)), Layer(h, leaves, l))
  }

  /** The stream a full tree gives for positions s at level l: absent siblings, level by level. */
  ghost function TreeStream(h: HashFn, leaves: seq<Digest>, k: nat, s: set<nat>, l: nat): seq<Digest>
    requires |leaves| == Pow2(k) && l <= k && InLevel(s, k, l)
    decreases k - l
  {
    hide Layer, Singles, Sorted, InLevel, LevelStream, Pow2;
    if l == k then []
    else
      LevelFacts(h, leaves, k, s, l);
      LevelStream(h, leaves, k, s, l) + TreeStream(h, leaves, k, Parents(s), l + 1)
  }

  /** From true nodes and the tree's own stream, reconstruction returns the true root. */
  lemma {:induction false} ReconstructHonest(h: HashFn, leaves: seq<Digest>, k: nat, layer: LayerMap, l: nat)
    requires |leaves| == Pow2(k) && l <= k && layer.Keys != {}
    requires Agrees(layer, Layer(h, leaves, l)) && InLevel(layer.Keys, k, l)
    ensures Reconstruct(h, layer, TreeStream(h, leaves, k, layer.Keys, l), k - l) == Ok(Root(h, leaves, k))
    decreases k - l
  {
    hide Layer, Singles, Sorted, ConsumeLevel, Parents, ParentsOf, Pow2;
    if l == k {
      assert Pow2(0) == 1 by { Pow2Table(); }
      LayerSize(h, leaves, k, k);
      var p :| p in layer.Keys;
      assert layer.Keys == {0};
      assert |layer| == |layer.Keys| == 1;
    } else {
      LevelFacts(h, leaves, k, layer.Keys, l);
      SortedIsAscending(layer.Keys);
      var ps, nodes := Sorted(layer.Keys), Layer(h, leaves, l);
      var rest := TreeStream(h, leaves, k, Parents(layer.Keys), l + 1);
      ConsumeHonest(h, ps, layer, nodes, rest);
      ParentsOfSorted(layer.Keys);
      var r := ConsumeLevel(h, ps, layer, SiblingNodes(Singles(ps), nodes) + rest);
      LayerSnoc(h, leaves, l);
      assert Parents(layer.Keys) != {} by { ParentsNonempty(layer.Keys); }
      ReconstructHonest(h, leaves, k, r.layer, l + 1);
    }
  }

  lemma ParentsNonempty(s: set<nat>)
    requires s != {}
    ensures Parents(s) != {}
  {
    var p :| p in s;
    assert p / 2 in Parents(s);
  }

  // ---- honest compression ----

  /** Every position stands for a query below it. */
  ghost predicate StandsFor(m: map<nat, nat>, queries: seq<nat>, l: nat) {
    forall p :: p in m ==> m[p] < |queries| && Shr(queries[m[p]], l) == p
  }

  ghost predicate HonestPaths(h: HashFn, leaves: seq<Digest>, k: nat, queries: seq<nat>, paths: seq<seq<Digest>>) {
    && |leaves| == Pow2(k) && |paths| == |queries|
    && forall q: nat :: q < |queries| ==> queries[q] < Pow2(k) && paths[q] == AuthPath(h, leaves, k, queries[q])
  }

  lemma {:induction false} EmitHonest(h: HashFn, leaves: seq<Digest>, k: nat, queries: seq<nat>, paths: seq<seq<Digest>>,
                                      m: map<nat, nat>, singles: seq<nat>, l: nat)
    requires HonestPaths(h, leaves, k, queries, paths) && StandsFor(m, queries, l) && l < k
    requires forall p :: p in singles ==> p in m && m[p] < |paths|
    ensures |Layer(h, leaves, l)| % 2 == 0 && forall p :: p in singles ==> p < |Layer(h, leaves, l)|
    ensures EmitLevel(singles, m, paths, l) == SiblingNodes(singles, Layer(h, leaves, l))
    decreases |singles|
  {
    hide Layer, Pow2, Shr, PathNode;
    LayerSize(h, leaves, k, l);
    Pow2Unfold(k - l);
    forall p | p in singles ensures p < Pow2(k - l) {
      ShrBound(queries[m[p]], l, k - l);
    }
    if |singles| > 0 {
      EmitHonest(h, leaves, k, queries, paths, m, singles[1..], l);
      var p := singles[0];
      PathNodeValue(h, leaves, k, queries[m[p]], l);
      var nodes := Layer(h, leaves, l);
      assert SiblingNodes(singles, nodes) == [nodes[Sibling(p)]] + SiblingNodes(singles[1..], nodes);
    }
  }

  lemma PathNodeValue(h: HashFn, leaves: seq<Digest>, k: nat, index: nat, l: nat)
    requires |leaves| == Pow2(k) && index < Pow2(k) && l < k
    ensures Sibling(Shr(index, l)) < |Layer(h, leaves, l)|
    ensures AuthPath(h, leaves, k, index)[l] == Layer(h, leaves, l)[Sibling(Shr(index, l))]
  {
    hide Layer, Pow2, Shr;
    LayerSize(h, leaves, k, l);
    ShrBound(index, l, k - l);
    SiblingBound(Shr(index, l), k - l);
  }

  lemma StandsForParents(m: map<nat, nat>, queries: seq<nat>, l: nat)
    requires StandsFor(m, queries, l)
    requires forall p :: p in Sorted(m.Keys) ==> p in m
    ensures StandsFor(ParentIndex(Sorted(m.Keys), m), queries, l + 1)
    ensures ParentIndex(Sorted(m.Keys), m).Keys == Parents(m.Keys)
  {
    hide ParentIndex, Sorted, Shr;
    ParentIndexFacts(Sorted(m.Keys), m);
    ParentsOfSorted(m.Keys);
    var up := ParentIndex(Sorted(m.Keys), m);
    forall q | q in up ensures up[q] < |queries| && Shr(queries[up[q]], l + 1) == q {
      assert InheritsIndex(up, m, q);
      var p :| p in m && p / 2 == q && up[q] == m[p];
      ShrSnoc(queries[m[p]], l);
    }
  }

  /** Compressing true paths gives the tree's own stream. */
  lemma {:induction false} WitnessHonest(h: HashFn, leaves: seq<Digest>, k: nat, queries: seq<nat>,
                                         paths: seq<seq<Digest>>, m: map<nat, nat>, l: nat)
    requires HonestPaths(h, leaves, k, queries, paths) && l <= k
    requires StandsFor(m, queries, l) && ValidIndex(m, paths)
    ensures InLevel(m.Keys, k, l)
    ensures Witness(m, paths, l, k) == TreeStream(h, leaves, k, m.Keys, l)
    decreases k - l
  {
    hide Layer, Singles, Sorted, EmitLevel, Shr, ParentIndex, Parents, Pow2, SiblingNodes;
    forall p | p in m.Keys ensures p < Pow2(k - l) {
      ShrBound(queries[m[p]], l, k - l);
    }
    if l < k {
      ParentIndexValid(m, paths);
      var ps := Sorted(m.Keys);
      SinglesSubset(ps);
      StandsForParents(m, queries, l);
      LevelFacts(h, leaves, k, m.Keys, l);
      EmitHonest(h, leaves, k, queries, paths, m, Singles(ps), l);
      WitnessHonest(h, leaves, k, queries, paths, ParentIndex(ps, m), l + 1);
    }
  }

  // ---- the round trip ----

  /** Each queried row hashes to its leaf. */
  ghost predicate HonestRows(h: HashFn, leaves: seq<Digest>, queries: seq<nat>, cols: seq<seq<u32>>) {
    && ColumnsCover(cols, |queries|)
    && forall q: nat :: q < |queries| ==> queries[q] < |leaves| && HashLeaf(h, Row(cols, q)) == leaves[queries[q]]
  }

  lemma LeafLayerAgrees(h: HashFn, leaves: seq<Digest>, queries: seq<nat>, cols: seq<seq<u32>>)
    requires HonestRows(h, leaves, queries, cols)
    ensures Agrees(LeafLayer(h, queries, cols), Layer(h, leaves, 0))
    ensures forall p :: p in LeafLayer(h, queries, cols) <==> p in queries
  {
    hide HashLeaf, Row;
    FirstIndexFacts(queries);
  }

  /**
   Compress the true paths of any nonempty query list, in any order and with
   duplicates and siblings; reconstruct from true rows at the same positions, in
   any order: the true root comes back and the stream is consumed exactly.
   */
  lemma RoundTrip(h: HashFn, leaves: seq<Digest>, k: nat, queries: seq<nat>, paths: seq<seq<Digest>>,
                  reopened: seq<nat>, cols: seq<seq<u32>>)
    requires HonestPaths(h, leaves, k, queries, paths) && |queries| > 0
    requires HonestRows(h, leaves, reopened, cols)
    requires forall p :: p in reopened <==> p in queries
    ensures ValidIndex(FirstIndex(queries), paths)
    ensures Reconstruct(h, LeafLayer(h, reopened, cols), Witness(FirstIndex(queries), paths, 0, k), k)
         == Ok(Root(h, leaves, k))
  {
    hide Layer, LeafLayer, Witness, TreeStream, Reconstruct, FirstIndex, Root;
    FirstIndexFacts(queries);
    var m, layer := FirstIndex(queries), LeafLayer(h, reopened, cols);
    StandsForQueries(queries, m);
    WitnessHonest(h, leaves, k, queries, paths, m, 0);
    LeafLayerAgrees(h, leaves, reopened, cols);
    assert layer.Keys == m.Keys;
    assert queries[0] in m;
    ReconstructHonest(h, leaves, k, layer, 0);
  }

  lemma StandsForQueries(queries: seq<nat>, m: map<nat, nat>)
    requires forall p :: p in m ==> m[p] < |queries| && queries[m[p]] == p
    ensures StandsFor(m, queries, 0)
  {
  }

  // ---- binding ----

  /** The byte inputs hashed while one level is consumed. */
  function LevelInputs(ps: seq<nat>, layer: LayerMap, stream: seq<Digest>): set<seq<byte>>
    requires forall p :: p in ps ==> p in layer
    decreases |ps|
  {
    if |ps| == 0 then {}
    else if PairFirst(ps) then
      assert ps[1] in ps;
      {ParentInput(layer[ps[0]], layer[ps[1]], ps[0])} + LevelInputs(ps[2..], layer, stream)
    else if |stream| == 0 then {}
    else {ParentInput(layer[ps[0]], stream[0], ps[0])} + LevelInputs(ps[1..], layer, stream[1..])
  }

  /** Two runs hash two different inputs to one value. */
  ghost predicate Collide(h: HashFn, xs: set<seq<byte>>, ys: set<seq<byte>>) {
    exists x, y :: x in xs && y in ys && Collision(h, x, y)
  }

  lemma CollideGrows(h: HashFn, xs: set<seq<byte>>, ys: set<seq<byte>>, xs': set<seq<byte>>, ys': set<seq<byte>>)
    requires Collide(h, xs, ys) && xs <= xs' && ys <= ys'
    ensures Collide(h, xs', ys')
  {
    var x, y :| x in xs && y in ys && Collision(h, x, y);
    assert x in xs' && y in ys';
  }

  /** Equal parents come from equal children, unless the hash inputs collide. */
  lemma ParentBinds(h: HashFn, a: Digest, s: Digest, b: Digest, t: Digest, index: nat)
    requires Parent(h, a, s, index) == Parent(h, b, t, index)
    ensures (a == b && s == t) || Collision(h, ParentInput(a, s, index), ParentInput(b, t, index))
  {
    if ParentInput(a, s, index) == ParentInput(b, t, index) {
      if index % 2 == 0 { PairInputInjective(a, s, b, t); } else { PairInputInjective(s, a, t, b); }
    }
  }

  lemma {:induction false} LevelBinds(h: HashFn, ps: seq<nat>, a: LayerMap, v: seq<Digest>, b: LayerMap, w: seq<Digest>)
    requires Ascending(ps) && forall p :: p in ps ==> p in a && p in b
    requires |v| == |w|
    requires ConsumeLevel(h, ps, a, v).Next? && ConsumeLevel(h, ps, b, w).Next?
    requires ConsumeLevel(h, ps, a, v).layer == ConsumeLevel(h, ps, b, w).layer
    ensures Collide(h, LevelInputs(ps, a, v), LevelInputs(ps, b, w)) || forall p :: p in ps ==> a[p] == b[p]
    decreases |ps|
  {
    hide HashPair, ParentInput, PairNode, Parent;
    if |ps| > 0 {
      var n := if PairFirst(ps) then 2 else 1;
      assert ps[0] in ps && (n == 2 ==> ps[1] in ps);
      var v', w' := if n == 2 then v else v[1..], if n == 2 then w else w[1..];
      var s, t := if n == 2 then a[ps[1]] else v[0], if n == 2 then b[ps[1]] else w[0];
      var ra, rb := ConsumeLevel(h, ps[n..], a, v'), ConsumeLevel(h, ps[n..], b, w');
      ConsumeKeys(h, ps[n..], a, v'); ConsumeKeys(h, ps[n..], b, w');
      ParentFresh(ps, n);
      if n == 2 { PairNodeIsParent(h, a, ps[0]); PairNodeIsParent(h, b, ps[0]); }
      var x, y := Parent(h, a[ps[0]], s, ps[0]), Parent(h, b[ps[0]], t, ps[0]);
      assert ra.layer[ps[0] / 2 := x] == rb.layer[ps[0] / 2 := y];
      SameAfterUpdate(ra.layer, rb.layer, ps[0] / 2, x, y);
      assert Ascending(ps[n..]);
      LevelBinds(h, ps[n..], a, v', b, w');
      ParentBinds(h, a[ps[0]], s, b[ps[0]], t, ps[0]);
      var xs, ys := LevelInputs(ps, a, v), LevelInputs(ps, b, w);
      if Collide(h, LevelInputs(ps[n..], a, v'), LevelInputs(ps[n..], b, w')) {
        CollideGrows(h, LevelInputs(ps[n..], a, v'), LevelInputs(ps[n..], b, w'), xs, ys);
      } else if Collision(h, ParentInput(a[ps[0]], s, ps[0]), ParentInput(b[ps[0]], t, ps[0])) {
        assert ParentInput(a[ps[0]], s, ps[0]) in xs && ParentInput(b[ps[0]], t, ps[0]) in ys;
      } else {
        forall p | p in ps ensures a[p] == b[p] {
          if p !in ps[n..] { FrontMember(ps, n, p); }
        }
      }
    }
  }

  lemma FrontMember(ps: seq<nat>, n: nat, p: nat)
    requires n <= |ps| && p in ps && p !in ps[n..]
    ensures p in ps[..n]
  {
    assert ps == ps[..n] + ps[n..];
  }

  lemma SameAfterUpdate(a: LayerMap, b: LayerMap, q: nat, x: Digest, y: Digest)
    requires q !in a && q !in b && a[q := x] == b[q := y]
    ensures a == b && x == y
  {
    assert a[q := x][q] == x && b[q := y][q] == y;
    assert a == a[q := x] - {q} && b == b[q := y] - {q};
  }

  lemma PairNodeIsParent(h: HashFn, layer: LayerMap, pos: nat)
    requires pos in layer && Sibling(pos) in layer
    ensures PairNode(h, layer, pos) == Parent(h, layer[pos], layer[Sibling(pos)], pos)
  {
  }

  /** All hash inputs of a run. */
  ghost function RunInputs(h: HashFn, layer: LayerMap, stream: seq<Digest>, height: nat): set<seq<byte>>
    decreases height
  {
    if height == 0 then {}
    else
      SortedIsAscending(layer.Keys);
      var ps := Sorted(layer.Keys);
      var r := ConsumeLevel(h, ps, layer, stream);
      LevelInputs(ps, layer, stream) + if r.Short? then {} else RunInputs(h, r.layer, r.rest, height - 1)
  }

  /**
   Two successful reconstructions of one root at the same positions open the same
   leaf hashes, or between them they hash two different inputs to one digest.
   */
  lemma {:induction false} MultiOpeningsBind(h: HashFn, a: LayerMap, v: seq<Digest>, b: LayerMap, w: seq<Digest>, height: nat)
    requires a.Keys == b.Keys
    requires Reconstruct(h, a, v, height).Ok? && Reconstruct(h, a, v, height) == Reconstruct(h, b, w, height)
    ensures a == b || Collide(h, RunInputs(h, a, v, height), RunInputs(h, b, w, height))
    decreases height
  {
    hide ConsumeLevel, LevelInputs, Sorted, Collide;
    if height == 0 {
      SingleKey(a); SingleKey(b);
    } else {
      SortedIsAscending(a.Keys);
      OutcomeExact(h, a, v, height);
      OutcomeExact(h, b, w, height);
      var ps := Sorted(a.Keys);
      var ra, rb := ConsumeLevel(h, ps, a, v), ConsumeLevel(h, ps, b, w);
      ConsumeKeys(h, ps, a, v); ConsumeKeys(h, ps, b, w);
      MultiOpeningsBind(h, ra.layer, ra.rest, rb.layer, rb.rest, height - 1);
      var xs, ys := RunInputs(h, a, v, height), RunInputs(h, b, w, height);
      if ra.layer == rb.layer {
        LevelBinds(h, ps, a, v, b, w);
        if Collide(h, LevelInputs(ps, a, v), LevelInputs(ps, b, w)) {
          CollideGrows(h, LevelInputs(ps, a, v), LevelInputs(ps, b, w), xs, ys);
        } else {
          assert forall p :: p in a ==> p in ps;
          assert a == b;
        }
      } else {
        CollideGrows(h, RunInputs(h, ra.layer, ra.rest, height - 1), RunInputs(h, rb.layer, rb.rest, height - 1), xs, ys);
      }
    }
  }

  lemma SingleKey(a: LayerMap)
    requires |a| == 1
    ensures a == map[SomeLeast(a.Keys) := a[SomeLeast(a.Keys)]]
  {
    var m := SomeLeast(a.Keys);
    assert |a.Keys - {m}| == 0;
    assert a.Keys == {m};
  }
}
