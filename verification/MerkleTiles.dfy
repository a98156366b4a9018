/**
 Path extraction from tiles of 1024 leaves: per-tile subtrees below, one upper
 tree over the tile roots above (src/merkle.rs, src/prover.rs).
 */
module MerkleTiles {
  import opened Bits
  import opened Hashing
  import opened MerkleTree

  const TILE_SIZE: nat := 1024

  /** The leaves of tile t. */
  function Tile(leaves: seq<Digest>, t: nat): (r: seq<Digest>)
    requires 1024 * (t + 1) <= |leaves|
    ensures |r| == 1024
  {
    leaves[1024 * t..1024 * (t + 1)]
  }

  // ---- layers of slices are slices of layers ----

  lemma LayerUpSlice(h: HashFn, s: seq<Digest>, a: nat, b: nat)
    requires a <= b && 2 * b <= |s|
    ensures LayerUp(h, s[2 * a..2 * b]) == LayerUp(h, s)[a..b]
  {
    hide HashPair;
  }

  lemma {:induction false} LayerSlice(h: HashFn, s: seq<Digest>, a: nat, b: nat, l: nat)
    requires a <= b && Shl(b, l) <= |s|
    ensures Shl(a, l) <= Shl(b, l) && b <= |Layer(h, s, l)|
    ensures Layer(h, s[Shl(a, l)..Shl(b, l)], l) == Layer(h, s, l)[a..b]
    decreases l
  {
    hide LayerUp;
    ShlSum(a, b - a, l);
    if l > 0 {
      LayerUpSlice(h, s, Shl(a, l - 1), Shl(b, l - 1));
      LayerSlice(h, LayerUp(h, s), a, b, l - 1);
    }
  }

  lemma ShlByTenIs(t: nat, l: nat)
    requires l <= 10
    ensures Shl(Shl(t, 10 - l), l) == 1024 * t
  {
    hide Shl;
    ShlShl(t, 10 - l, l);
    assert Shl(t, 10) == 1024 * t by { ShlByTen(t); }
  }

  /** Level l of tile t is a slice of level l of the whole tree. */
  lemma TileLayer(h: HashFn, leaves: seq<Digest>, t: nat, l: nat)
    requires l <= 10 && 1024 * (t + 1) <= |leaves|
    ensures Shl(t, 10 - l) <= Shl(t + 1, 10 - l) <= |Layer(h, leaves, l)|
    ensures Layer(h, Tile(leaves, t), l) == Layer(h, leaves, l)[Shl(t, 10 - l)..Shl(t + 1, 10 - l)]
  {
    hide Shl, Layer;
    ShlByTenIs(t, l);
    ShlByTenIs(t + 1, l);
    ShlSum(t, 1, 10 - l);
    LayerSlice(h, leaves, Shl(t, 10 - l), Shl(t + 1, 10 - l), l);
  }

  /** The root of tile t is node t of level 10. */
  lemma TileRoot(h: HashFn, leaves: seq<Digest>, t: nat)
    requires 1024 * (t + 1) <= |leaves|
    ensures Pow2(10) == 1024 && t < |Layer(h, leaves, 10)|
    ensures Root(h, Tile(leaves, t), 10) == Layer(h, leaves, 10)[t]
  {
    hide Layer;
    Pow2Table();
    TileLayer(h, leaves, t, 10);
    LayerSize(h, Tile(leaves, t), 10, 10);
    assert Shl(t, 0) == t && Shl(t + 1, 0) == t + 1;
  }

  /** The nodes of level 10, one per tile. */
  function TileRoots(h: HashFn, leaves: seq<Digest>): seq<Digest> { Layer(h, leaves, 10) }

  lemma TileCount(h: HashFn, leaves: seq<Digest>, k: nat)
    requires k >= 10 && |leaves| == Pow2(k)
    ensures |TileRoots(h, leaves)| == Pow2(k - 10) && 1024 * Pow2(k - 10) == |leaves|
  {
    hide Layer, Pow2, Shl;
    LayerSize(h, leaves, k, 10);
    ShlPow2(k - 10, 10);
    ShlByTen(Pow2(k - 10));
  }

  lemma TileBounds(h: HashFn, leaves: seq<Digest>, k: nat, index: nat)
    requires k >= 10 && |leaves| == Pow2(k) && index < Pow2(k)
    ensures index / 1024 < Pow2(k - 10) && 1024 * (index / 1024 + 1) <= |leaves|
  {
    TileCount(h, leaves, k);
  }

  /** index >> l, split at the tile boundary. */
  lemma ShrInTile(index: nat, l: nat)
    requires l <= 10
    ensures Shr(index, l) == Shl(index / 1024, 10 - l) + Shr(index % 1024, l)
    ensures Shr(index % 1024, l) < Pow2(10 - l)
  {
    hide Shl, Shr, Pow2;
    var t, r := index / 1024, index % 1024;
    Pow2Table();
    ShrBound(r, l, 10 - l);
    ShlByTenIs(t, l);
    ShrAdd(Shl(t, 10 - l), r, l);
  }

  lemma ShrTile(index: nat, l: nat)
    requires l >= 10
    ensures Shr(index, l) == Shr(index / 1024, l - 10)
  {
    hide Shr;
    ShrShr(index, 10, l - 10);
    assert Shr(index, 10) == index / 1024 by {
      ShrInTile(index, 10);
      assert Shl(index / 1024, 0) == index / 1024;
      Pow2Table();
      ShrSmall(index % 1024, 10);
    }
  }

  lemma IntraNode(h: HashFn, leaves: seq<Digest>, k: nat, index: nat, l: nat)
    requires k >= 10 && |leaves| == Pow2(k) && index < Pow2(k) && l < 10
    requires 1024 * (index / 1024 + 1) <= |leaves| && Pow2(10) == 1024
    ensures PathNode(h, Tile(leaves, index / 1024), 10, index % 1024, l) == PathNode(h, leaves, k, index, l)
  {
    hide Shl, Shr, Layer, Pow2;
    var t, r := index / 1024, index % 1024;
    TileLayer(h, leaves, t, l);
    ShrInTile(index, l);
    LayerSize(h, Tile(leaves, t), 10, l);
    SiblingBound(Shr(r, l), 10 - l);
    assert Shl(t, 10 - l) % 2 == 0 by { ShlEven(t, 10 - l); }
    assert Sibling(Shr(index, l)) == Shl(t, 10 - l) + Sibling(Shr(r, l));
  }

  lemma UpperNode(h: HashFn, leaves: seq<Digest>, k: nat, index: nat, roots: seq<Digest>, m: nat, t: nat, j: nat)
    requires |leaves| == Pow2(k) && index < Pow2(k) && j + 10 < k
    requires |roots| == Pow2(m) && t < Pow2(m) && j < m
    requires roots == Layer(h, leaves, 10) && t == index / 1024
    ensures PathNode(h, roots, m, t, j) == PathNode(h, leaves, k, index, j + 10)
  {
    hide *;
    PathNodeIs(h, roots, m, t, j);
    PathNodeIs(h, leaves, k, index, j + 10);
    LayerLayer(h, leaves, 10, j);
    ShrTile(index, j + 10);
  }

  lemma TileRootsIs(h: HashFn, leaves: seq<Digest>)
    ensures TileRoots(h, leaves) == Layer(h, leaves, 10)
  {
  }

  lemma PathNodeIs(h: HashFn, leaves: seq<Digest>, k: nat, index: nat, l: nat)
    requires |leaves| == Pow2(k) && index < Pow2(k) && l < k
    ensures Sibling(Shr(index, l)) < |Layer(h, leaves, l)|
    ensures PathNode(h, leaves, k, index, l) == Layer(h, leaves, l)[Sibling(Shr(index, l))]
  {
    hide Layer, Pow2, Shr;
    LayerSize(h, leaves, k, l);
    ShrBound(index, l, k - l);
    SiblingBound(Shr(index, l), k - l);
  }

  /** The index splits into a tile and an offset, and the tile fits. */
  lemma TileFits(h: HashFn, leaves: seq<Digest>, k: nat, index: nat)
    requires k >= 10 && |leaves| == Pow2(k) && index < Pow2(k)
    ensures Pow2(10) == 1024 && index / 1024 < Pow2(k - 10) == |TileRoots(h, leaves)|
    ensures 1024 * (index / 1024 + 1) <= |leaves|
  {
    hide Pow2, TileRoots;
    Pow2Table();
    TileCount(h, leaves, k);
    TileBounds(h, leaves, k, index);
  }

  /** The path put together from a tile and the upper tree. */
  function TiledPath(h: HashFn, leaves: seq<Digest>, k: nat, index: nat): seq<Digest>
    requires k >= 10 && |leaves| == Pow2(k) && index < Pow2(k)
  {
    hide Pow2, TileRoots, AuthPath;
    TileFits(h, leaves, k, index);
    AuthPath(h, Tile(leaves, index / 1024), 10, index % 1024)
      + AuthPath(h, TileRoots(h, leaves), k - 10, index / 1024)
  }

  /** Intra-tile path, then upper path: exactly the path in the untiled tree. */
  lemma TiledPathIsFullPath(h: HashFn, leaves: seq<Digest>, k: nat, index: nat)
    requires k >= 10 && |leaves| == Pow2(k) && index < Pow2(k)
    ensures TiledPath(h, leaves, k, index) == AuthPath(h, leaves, k, index)
  {
    hide PathNode, Pow2, TileRoots, Tile;
    TileFits(h, leaves, k, index);
    var joined := TiledPath(h, leaves, k, index);
    assert |joined| == k;
    forall l: nat | l < k ensures joined[l] == AuthPath(h, leaves, k, index)[l] {
      if l < 10 {
        IntraNode(h, leaves, k, index, l);
      } else {
        TileRootsIs(h, leaves);
        UpperNode(h, leaves, k, index, TileRoots(h, leaves), k - 10, index / 1024, l - 10);
      }
    }
  }

  // ---- the extractors ----

  /** The leaf hashes in order, as (0..n).map(hash_leaf). */
  function LeafHashes(n: nat, hashLeaf: nat -> Digest): seq<Digest> {
    seq(n, i requires 0 <= i < n => hashLeaf(i))
  }

  /** The eleven layers of tile t. */
  ghost predicate IsTileLayers(h: HashFn, leaves: seq<Digest>, t: nat, layers: seq<seq<Digest>>) {
    && 1024 * (t + 1) <= |leaves| && |layers| == 11
    && forall l: nat :: l <= 10 ==> layers[l] == Layer(h, Tile(leaves, t), l)
  }

  ghost predicate AllPathsCorrect(h: HashFn, leaves: seq<Digest>, k: nat, indices: seq<nat>, paths: seq<seq<Digest>>)
    requires |leaves| == Pow2(k) && forall q: nat :: q < |indices| ==> indices[q] < Pow2(k)
  {
    |paths| == |indices| && forall q: nat :: q < |indices| ==> paths[q] == AuthPath(h, leaves, k, indices[q])
  }

  /** Build all layers of a power-of-two tree. */
  method FullLayers(h: HashFn, leaves: seq<Digest>, ghost k: nat) returns (layers: seq<seq<Digest>>)
    requires |leaves| == Pow2(k)
    ensures |layers| == k + 1 && forall l: nat :: l <= k ==> layers[l] == Layer(h, leaves, l)
  {
    hide Layer, Pow2;
    layers := BuildCpuTreeLayers(h, leaves);
    LayerCount(h, leaves, k, |layers|);
  }

  method PathsFromLayers(h: HashFn, leaves: seq<Digest>, k: nat, indices: seq<nat>) returns (paths: seq<seq<Digest>>)
    requires |leaves| == Pow2(k) && forall q: nat :: q < |indices| ==> indices[q] < Pow2(k)
    ensures AllPathsCorrect(h, leaves, k, indices, paths)
  {
    hide Layer, Pow2, AuthPath;
    var layers := FullLayers(h, leaves, k);
    paths := [];
    for q := 0 to |indices|
      invariant |paths| == q
      invariant forall i: nat :: i < q ==> paths[i] == AuthPath(h, leaves, k, indices[i])
    {
      var p := ExtractPath(h, layers, leaves, k, indices[q]);
      paths := paths + [p];
    }
  }

  /** The per-index loop shared by the tiled extractors. */
  method PathsFromTiles(h: HashFn, ghost leaves: seq<Digest>, k: nat, indices: seq<nat>,
                        subtrees: map<nat, seq<seq<Digest>>>, upperLayers: seq<seq<Digest>>)
    returns (paths: seq<seq<Digest>>)
    requires k >= 10 && |leaves| == Pow2(k) && forall q: nat :: q < |indices| ==> indices[q] < Pow2(k)
    requires forall q: nat :: q < |indices| ==> indices[q] / 1024 in subtrees
    requires forall t: nat :: t in subtrees ==> IsTileLayers(h, leaves, t, subtrees[t])
    requires |upperLayers| == k - 10 + 1
    requires forall l: nat :: l <= k - 10 ==> upperLayers[l] == Layer(h, TileRoots(h, leaves), l)
    ensures AllPathsCorrect(h, leaves, k, indices, paths)
  {
    hide Layer, Pow2, AuthPath, TileRoots;
    paths := [];
    for q := 0 to |indices|
      invariant |paths| == q
      invariant forall i: nat :: i < q ==> paths[i] == AuthPath(h, leaves, k, indices[i])
    {
      var qi := indices[q];
      var tileIdx, intraIdx := qi / 1024, qi % 1024;
      TileFits(h, leaves, k, qi);
      TiledPathIsFullPath(h, leaves, k, qi);
      var path := ExtractPath(h, subtrees[tileIdx], Tile(leaves, tileIdx), 10, intraIdx);
      var upper := ExtractPath(h, upperLayers, TileRoots(h, leaves), k - 10, tileIdx);
      paths := paths + [path + upper];
    }
  }

  /** targeted_auth_paths. */
  method TargetedAuthPaths(h: HashFn, n: nat, k: nat, indices: seq<nat>, hashLeaf: nat -> Digest)
    returns (paths: seq<seq<Digest>>)
    requires n == Pow2(k) && forall q: nat :: q < |indices| ==> indices[q] < n
    ensures AllPathsCorrect(h, LeafHashes(n, hashLeaf), k, indices, paths)
  {
    hide Layer, Pow2, AuthPath, Root, Tile;
    ghost var leaves := LeafHashes(n, hashLeaf);
    if n <= TILE_SIZE * 4 {
      var leafHashes := LeafHashes(n, hashLeaf);
      paths := PathsFromLayers(h, leafHashes, k, indices);
      return;
    }
    assert k >= 10 by { if k < 10 { Pow2Monotone(k, 10); Pow2Table(); } }
    Pow2Table();
    TileCount(h, leaves, k);
    var nTiles := n / TILE_SIZE;
    var neededTiles := set q | 0 <= q < |indices| :: indices[q] / TILE_SIZE;
    var tileRoots: seq<Digest> := [];
    var subtrees: map<nat, seq<seq<Digest>>> := map[];
    for tileIdx := 0 to nTiles
      invariant |tileRoots| == tileIdx
      invariant forall t: nat :: t < tileIdx ==> tileRoots[t] == TileRoots(h, leaves)[t]
      invariant forall t: nat :: t < tileIdx && t in neededTiles ==> t in subtrees
      invariant forall t: nat :: t in subtrees ==> IsTileLayers(h, leaves, t, subtrees[t])
    {
      var base := tileIdx * TILE_SIZE;
      var leafHashes := seq(TILE_SIZE, j requires 0 <= j < TILE_SIZE => hashLeaf(base + j));
      assert leafHashes == Tile(leaves, tileIdx) by { TileIs(h, leaves, hashLeaf, tileIdx, leafHashes); }
      TileRoot(h, leaves, tileIdx);
      if tileIdx in neededTiles {
        var layers := FullLayers(h, leafHashes, 10);
        LayerSize(h, leafHashes, 10, 10);
        assert layers[10][0] == Root(h, leafHashes, 10) by { RootIs(h, leafHashes, 10); }
        tileRoots := tileRoots + [layers[|layers| - 1][0]];
        subtrees := subtrees[tileIdx := layers];
      } else {
        var root := ReduceToRoot(h, leafHashes, 10);
        tileRoots := tileRoots + [root];
      }
    }
    assert tileRoots == TileRoots(h, leaves);
    var upperLayers := FullLayers(h, tileRoots, k - 10);
    forall q: nat | q < |indices| ensures indices[q] / 1024 in subtrees {
      TileBounds(h, leaves, k, indices[q]);
      assert indices[q] / TILE_SIZE in neededTiles;
    }
    paths := PathsFromTiles(h, leaves, k, indices, subtrees, upperLayers);
  }

  lemma RootIs(h: HashFn, leaves: seq<Digest>, k: nat)
    requires |leaves| == Pow2(k)
    ensures |Layer(h, leaves, k)| == 1 && Root(h, leaves, k) == Layer(h, leaves, k)[0]
  {
    LayerSize(h, leaves, k, k);
  }

  lemma TileIs(h: HashFn, leaves: seq<Digest>, hashLeaf: nat -> Digest, t: nat, tile: seq<Digest>)
    requires leaves == LeafHashes(|leaves|, hashLeaf) && 1024 * (t + 1) <= |leaves|
    requires |tile| == 1024 && forall j: nat :: j < 1024 ==> tile[j] == hashLeaf(t * 1024 + j)
    ensures tile == Tile(leaves, t)
  {
  }

  /** targeted_auth_paths_with_tile_roots, given the true tile roots. */
  method TargetedAuthPathsWithTileRoots(h: HashFn, tileRoots: seq<Digest>, n: nat, k: nat, indices: seq<nat>,
                                        hashLeaf: nat -> Digest)
    returns (paths: seq<seq<Digest>>)
    requires n == Pow2(k) && forall q: nat :: q < |indices| ==> indices[q] < n
    requires n > TILE_SIZE ==> tileRoots == TileRoots(h, LeafHashes(n, hashLeaf))
    ensures AllPathsCorrect(h, LeafHashes(n, hashLeaf), k, indices, paths)
  {
    hide Layer, Pow2, AuthPath, Tile, TileRoots;
    ghost var leaves := LeafHashes(n, hashLeaf);
    if n <= TILE_SIZE {
      var leafHashes := LeafHashes(n, hashLeaf);
      paths := PathsFromLayers(h, leafHashes, k, indices);
      return;
    }
    assert k >= 10 by { if k < 10 { Pow2Monotone(k, 10); Pow2Table(); } }
    Pow2Table();
    TileCount(h, leaves, k);
    var subtrees: map<nat, seq<seq<Digest>>> := map[];
    for q := 0 to |indices|
      invariant forall i: nat :: i < q ==> indices[i] / 1024 in subtrees
      invariant forall t: nat :: t in subtrees ==> IsTileLayers(h, leaves, t, subtrees[t])
    {
      var tileIdx := indices[q] / TILE_SIZE;
      if tileIdx !in subtrees {
        TileBounds(h, leaves, k, indices[q]);
        var base := tileIdx * TILE_SIZE;
        var leafHashes := seq(TILE_SIZE, j requires 0 <= j < TILE_SIZE => hashLeaf(base + j));
        TileIs(h, leaves, hashLeaf, tileIdx, leafHashes);
        var layers := FullLayers(h, leafHashes, 10);
        subtrees := subtrees[tileIdx := layers];
      }
    }
    var upperLayers := FullLayers(h, tileRoots, k - 10);
    paths := PathsFromTiles(h, leaves, k, indices, subtrees, upperLayers);
  }
}
