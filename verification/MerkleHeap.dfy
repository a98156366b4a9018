/**
 The heap-layout tile tree and its bottom-up walk (src/prover.rs).
 */
module MerkleHeap {
  import opened Bits
  import opened Hashing
  import opened MerkleTree
  import opened MerkleTiles

  /** Node i of the heap over 2^m leaves: children at 2i+1 and 2i+2. */
  function HeapNode(h: HashFn, leaves: seq<Digest>, i: nat): Digest
    requires |leaves| >= 1 && i < 2 * |leaves| - 1
    decreases 2 * |leaves| - i
  {
    if i >= |leaves| - 1 then leaves[i - (|leaves| - 1)]
    else HashPair(h, HeapNode(h, leaves, 2 * i + 1), HeapNode(h, leaves, 2 * i + 2))
  }

  /** Level l, position p sits at heap index 2^(m-l) - 1 + p. */
  lemma {:induction false} HeapNodeIsLayerNode(h: HashFn, leaves: seq<Digest>, m: nat, l: nat, p: nat)
    requires |leaves| == Pow2(m) && l <= m && p < Pow2(m - l)
    ensures Pow2(m - l) <= |leaves| && |Layer(h, leaves, l)| == Pow2(m - l)
    ensures HeapNode(h, leaves, Pow2(m - l) - 1 + p) == Layer(h, leaves, l)[p]
    decreases l
  {
    hide HashPair, Layer, Pow2;
    Pow2Monotone(m - l, m);
    LayerSize(h, leaves, m, l);
    if l == 0 {
      assert Layer(h, leaves, 0) == leaves by { LayerZero(h, leaves); }
    } else {
      Pow2Unfold(m - l + 1);
      Pow2Monotone(m - l + 1, m);
      HeapNodeIsLayerNode(h, leaves, m, l - 1, 2 * p);
      HeapNodeIsLayerNode(h, leaves, m, l - 1, 2 * p + 1);
      LayerSnoc(h, leaves, l - 1);
    }
  }

  lemma LayerZero(h: HashFn, leaves: seq<Digest>)
    ensures Layer(h, leaves, 0) == leaves
  {
  }

  /** The tile tree as one flat array, filled from the leaves down to index 0. */
  method HeapTree(h: HashFn, leafHashes: seq<Digest>) returns (tree: array<Digest>)
    requires |leafHashes| >= 1
    ensures fresh(tree) && tree.Length == 2 * |leafHashes| - 1
    ensures forall i :: 0 <= i < tree.Length ==> tree[i] == HeapNode(h, leafHashes, i)
  {
    hide HashPair, HeapNode;
    var size := |leafHashes|;
    tree := new Digest[2 * size - 1](_ => ZERO_DIGEST);
    for j := 0 to size
      invariant forall i :: size - 1 <= i < size - 1 + j ==> tree[i] == HeapNode(h, leafHashes, i)
    {
      HeapLeaf(h, leafHashes, j);
      tree[size - 1 + j] := leafHashes[j];
    }
    for i := size - 1 downto 0
      invariant forall j :: i <= j < tree.Length ==> tree[j] == HeapNode(h, leafHashes, j)
    {
      HeapInner(h, leafHashes, i);
      tree[i] := HashPair(h, tree[2 * i + 1], tree[2 * i + 2]);
    }
  }

  lemma HeapLeaf(h: HashFn, leaves: seq<Digest>, j: nat)
    requires j < |leaves|
    ensures HeapNode(h, leaves, |leaves| - 1 + j) == leaves[j]
  {
  }

  lemma HeapInner(h: HashFn, leaves: seq<Digest>, i: nat)
    requires i + 1 < |leaves|
    ensures HeapNode(h, leaves, i) == HashPair(h, HeapNode(h, leaves, 2 * i + 1), HeapNode(h, leaves, 2 * i + 2))
  {
  }

  /** From a leaf to the root of the flat tree, pushing the other child at each step. */
  method HeapWalk(h: HashFn, tree: array<Digest>, ghost leaves: seq<Digest>, ghost m: nat, intraIdx: nat)
    returns (path: seq<Digest>)
    requires |leaves| == Pow2(m) && intraIdx < Pow2(m) && tree.Length == 2 * |leaves| - 1
    requires forall i :: 0 <= i < tree.Length ==> tree[i] == HeapNode(h, leaves, i)
    ensures path == AuthPath(h, leaves, m, intraIdx)
  {
    hide HeapNode, Pow2, Layer, Shr, PathNode;
    path := [];
    var node: nat := (tree.Length + 1) / 2 - 1 + intraIdx;
    ghost var l: nat := 0;
    assert Shr(intraIdx, 0) == intraIdx by { ShrZero(intraIdx); }
    while node > 0
      invariant l <= m && |path| == l && Shr(intraIdx, l) < Pow2(m - l) <= |leaves|
      invariant node == Pow2(m - l) - 1 + Shr(intraIdx, l)
      invariant path == AuthPath(h, leaves, m, intraIdx)[..l]
    {
      assert l < m by { Pow2Table(); }
      var sibling := if node % 2 == 1 then node + 1 else node - 1;
      Pow2Unfold(m - l);
      ShrSnoc(intraIdx, l);
      ShrBound(intraIdx, l + 1, m - l - 1);
      PathNodeAt(h, leaves, m, intraIdx, l);
      path := path + [tree[sibling]];
      node := (node - 1) / 2;
      l := l + 1;
    }
    assert l == m by { if l < m { Pow2Unfold(m - l); } }
  }

  lemma PathNodeAt(h: HashFn, leaves: seq<Digest>, m: nat, index: nat, l: nat)
    requires |leaves| == Pow2(m) && index < Pow2(m) && l < m
    ensures Sibling(Shr(index, l)) < Pow2(m - l) <= |leaves|
    ensures HeapNode(h, leaves, Pow2(m - l) - 1 + Sibling(Shr(index, l))) == PathNode(h, leaves, m, index, l)
  {
    hide HeapNode, Pow2, Layer, Shr;
    LayerSize(h, leaves, m, l);
    ShrBound(index, l, m - l);
    SiblingBound(Shr(index, l), m - l);
    HeapNodeIsLayerNode(h, leaves, m, l, Sibling(Shr(index, l)));
  }

  // ---- heap-layout tiles below, plain upper tree above ----

  /** The array is the heap of tile t. */
  ghost predicate IsTileHeap(h: HashFn, leaves: seq<Digest>, t: nat, tree: array<Digest>)
    reads tree
  {
    && 1024 * (t + 1) <= |leaves| && tree.Length == 2047
    && forall i :: 0 <= i < 2047 ==> tree[i] == HeapNode(h, Tile(leaves, t), i)
  }

  /** The heap of every tile some index falls into. */
  method TileHeaps(h: HashFn, leaves: seq<Digest>, k: nat, indices: seq<nat>) returns (trees: map<nat, array<Digest>>)
    requires k >= 10 && |leaves| == Pow2(k) && forall q: nat :: q < |indices| ==> indices[q] < Pow2(k)
    ensures forall q: nat :: q < |indices| ==> indices[q] / TILE_SIZE in trees
    ensures forall t: nat :: t in trees ==> IsTileHeap(h, leaves, t, trees[t])
  {
    hide HeapNode, Pow2, Tile;
    trees := map[];
    for q := 0 to |indices|
      invariant forall i: nat :: i < q ==> indices[i] / TILE_SIZE in trees
      invariant forall t: nat :: t in trees ==> IsTileHeap(h, leaves, t, trees[t])
    {
      var t := indices[q] / TILE_SIZE;
      if t !in trees {
        TileBounds(h, leaves, k, indices[q]);
        var tree := HeapTree(h, Tile(leaves, t));
        trees := trees[t := tree];
      }
    }
  }

  /**
   The path extraction of decommit_soa4_from_gpu_resident: walk the heap of the tile, then
   climb the upper tree. The paths are those of the untiled tree.
   */
  method HeapPaths(h: HashFn, leaves: seq<Digest>, k: nat, subtreeRoots: seq<Digest>, indices: seq<nat>) returns (paths: seq<seq<Digest>>)
    requires k >= 10 && |leaves| == Pow2(k) && subtreeRoots == TileRoots(h, leaves)
    requires forall q: nat :: q < |indices| ==> indices[q] < Pow2(k)
    ensures AllPathsCorrect(h, leaves, k, indices, paths)
  {
    hide HeapNode, Pow2, Tile, TileRoots, AuthPath, Layer;
    var trees := TileHeaps(h, leaves, k, indices);
    TileCount(h, leaves, k);
    var upperLayers := FullLayers(h, subtreeRoots, k - 10);
    paths := [];
    for q := 0 to |indices|
      invariant |paths| == q
      invariant forall t: nat :: t in trees ==> IsTileHeap(h, leaves, t, trees[t])
      invariant forall i: nat :: i < q ==> paths[i] == AuthPath(h, leaves, k, indices[i])
    {
      var tileIdx, intraIdx := indices[q] / TILE_SIZE, indices[q] % TILE_SIZE;
      TileFits(h, leaves, k, indices[q]);
      TiledPathIsFullPath(h, leaves, k, indices[q]);
      assert IsTileHeap(h, leaves, tileIdx, trees[tileIdx]);
      var path := HeapWalk(h, trees[tileIdx], Tile(leaves, tileIdx), 10, intraIdx);
      var upper := ExtractPath(h, upperLayers, subtreeRoots, k - 10, tileIdx);
      paths := paths + [path + upper];
    }
  }
}
