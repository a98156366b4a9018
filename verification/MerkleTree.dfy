/**
 Merkle layers, authentication paths and their verification (src/merkle.rs).
 */
module MerkleTree {
  import opened Bits
  import opened Hashing

  /** The leaf hashes of a list of rows. */
  function Leaves(h: HashFn, rows: seq<seq<u32>>): (r: seq<Digest>)
    ensures |r| == |rows|
  {
    seq(|rows|, i requires 0 <= i < |rows| => HashLeaf(h, rows[i]))
  }

  /** The parents of one layer. */
  function LayerUp(h: HashFn, s: seq<Digest>): (r: seq<Digest>)
    ensures |r| == |s| / 2
  {
    seq(|s| / 2, i requires 0 <= i < |s| / 2 => HashPair(h, s[2 * i], s[2 * i + 1]))
  }

  /** The layer l levels above the leaves. */
  function Layer(h: HashFn, leaves: seq<Digest>, l: nat): (r: seq<Digest>)
    ensures |r| == Shr(|leaves|, l)
    decreases l
  {
    if l == 0 then leaves else Layer(h, LayerUp(h, leaves), l - 1)
  }

  lemma {:induction false} LayerSnoc(h: HashFn, leaves: seq<Digest>, l: nat)
    ensures Layer(h, leaves, l + 1) == LayerUp(h, Layer(h, leaves, l))
    decreases l
  {
    hide LayerUp;
    if l > 0 { LayerSnoc(h, LayerUp(h, leaves), l - 1); }
  }

  lemma {:induction false} LayerLayer(h: HashFn, leaves: seq<Digest>, a: nat, b: nat)
    ensures Layer(h, Layer(h, leaves, a), b) == Layer(h, leaves, a + b)
    decreases a
  {
    hide LayerUp;
    if a > 0 { LayerLayer(h, LayerUp(h, leaves), a - 1, b); }
  }

  lemma {:induction false} ShrOfPow2(k: nat, l: nat)
    requires l <= k
    ensures Shr(Pow2(k), l) == Pow2(k - l)
    decreases l
  {
    if l > 0 { ShrOfPow2(k - 1, l - 1); }
  }

  lemma LayerSize(h: HashFn, leaves: seq<Digest>, k: nat, l: nat)
    requires |leaves| == Pow2(k) && l <= k
    ensures |Layer(h, leaves, l)| == Pow2(k - l)
  {
    ShrOfPow2(k, l);
  }

  function Root(h: HashFn, leaves: seq<Digest>, k: nat): Digest
    requires |leaves| == Pow2(k)
  {
    LayerSize(h, leaves, k, k);
    Layer(h, leaves, k)[0]
  }

  lemma SiblingBound(i: nat, k: nat)
    requires k >= 1 && i < Pow2(k)
    ensures Sibling(i) < Pow2(k)
  {
  }

  /** The sibling hashes on the way from leaf index to the root. */
  function AuthPath(h: HashFn, leaves: seq<Digest>, k: nat, index: nat): (p: seq<Digest>)
    requires |leaves| == Pow2(k) && index < Pow2(k)
    ensures |p| == k
  {
    seq(k, l requires 0 <= l < k => PathNode(h, leaves, k, index, l))
  }

  function PathNode(h: HashFn, leaves: seq<Digest>, k: nat, index: nat, l: nat): Digest
    requires |leaves| == Pow2(k) && index < Pow2(k) && l < k
  {
    hide Layer, Pow2, Shr;
    LayerSize(h, leaves, k, l);
    ShrBound(index, l, k - l);
    SiblingBound(Shr(index, l), k - l);
    Layer(h, leaves, l)[Sibling(Shr(index, l))]
  }

  /** build_cpu_tree_layers: all layers, leaves first. */
  method BuildCpuTreeLayers(h: HashFn, leafHashes: seq<Digest>) returns (layers: seq<seq<Digest>>)
    ensures |layers| >= 1
    ensures forall l: nat :: l < |layers| ==> layers[l] == Layer(h, leafHashes, l)
    ensures |layers[|layers| - 1]| <= 1
    ensures forall l: nat :: l < |layers| - 1 ==> |layers[l]| > 1
  {
    hide LayerUp;
    layers := [leafHashes];
    while |layers[|layers| - 1]| > 1
      invariant |layers| >= 1
      invariant forall l: nat :: l < |layers| ==> layers[l] == Layer(h, leafHashes, l)
      invariant forall l: nat :: l < |layers| - 1 ==> |layers[l]| > 1
      decreases |layers[|layers| - 1]|
    {
      LayerSnoc(h, leafHashes, |layers| - 1);
      var parents := LayerUp(h, layers[|layers| - 1]);
      layers := layers + [parents];
    }
  }

  /** A power-of-two tree has one layer per level. */
  lemma LayerCount(h: HashFn, leaves: seq<Digest>, k: nat, n: nat)
    requires |leaves| == Pow2(k) && n >= 1
    requires |Layer(h, leaves, n - 1)| <= 1
    requires forall l: nat :: l < n - 1 ==> |Layer(h, leaves, l)| > 1
    ensures n == k + 1
  {
    hide Layer;
    LayerSize(h, leaves, k, k);
    if n - 1 < k {
      LayerSize(h, leaves, k, n - 1);
      Pow2Monotone(1, k - (n - 1));
    }
  }

  /** reduce_to_root: the root without keeping the layers. */
  method ReduceToRoot(h: HashFn, leafHashes: seq<Digest>, ghost k: nat) returns (root: Digest)
    requires |leafHashes| == Pow2(k)
    ensures root == Root(h, leafHashes, k)
  {
    hide LayerUp;
    var hashes := leafHashes;
    ghost var l := 0;
    while |hashes| > 1
      invariant l <= k && hashes == Layer(h, leafHashes, l) && |hashes| == Pow2(k - l)
      decreases |hashes|
    {
      assert l < k;
      LayerSnoc(h, leafHashes, l);
      LayerSize(h, leafHashes, k, l + 1);
      hashes := LayerUp(h, hashes);
      l := l + 1;
    }
    assert l == k by { if l < k { Pow2Monotone(1, k - l); } }
    root := hashes[0];
  }

  /** extract_paths_from_layers, for one index. */
  method ExtractPath(h: HashFn, layers: seq<seq<Digest>>, ghost leaves: seq<Digest>, k: nat, index: nat)
    returns (path: seq<Digest>)
    requires |leaves| == Pow2(k) && index < Pow2(k)
    requires |layers| == k + 1 && forall l: nat :: l <= k ==> layers[l] == Layer(h, leaves, l)
    ensures path == AuthPath(h, leaves, k, index)
  {
    hide Layer;
    path := [];
    var idx := index;
    for l := 0 to k
      invariant idx == Shr(index, l)
      invariant |path| == l && path == AuthPath(h, leaves, k, index)[..l]
    {
      LayerSize(h, leaves, k, l);
      ShrBound(index, l, k - l);
      SiblingBound(idx, k - l);
      ShrSnoc(index, l);
      path := path + [layers[l][Sibling(idx)]];
      idx := idx / 2;
    }
  }

  // ---- verification ----

  /** One step up: combine with the sibling on the side given by the index parity. */
  function Parent(h: HashFn, current: Digest, sibling: Digest, index: nat): Digest {
    if index % 2 == 0 then HashPair(h, current, sibling) else HashPair(h, sibling, current)
  }

  function ParentInput(current: Digest, sibling: Digest, index: nat): seq<byte> {
    if index % 2 == 0 then PairInput(current, sibling) else PairInput(sibling, current)
  }

  /** The root reached from a leaf hash along a path. */
  function Climb(h: HashFn, leafHash: Digest, index: nat, path: seq<Digest>): Digest
    decreases |path|
  {
    if |path| == 0 then leafHash
    else Climb(h, Parent(h, leafHash, path[0], index), index / 2, path[1..])
  }

  /** verify_auth_path. */
  method VerifyAuthPath(h: HashFn, expectedRoot: Digest, leafHash: Digest, leafIndex: nat, path: seq<Digest>)
    returns (ok: bool)
    ensures ok <==> Climb(h, leafHash, leafIndex, path) == expectedRoot
  {
    hide Parent;
    var current, index := leafHash, leafIndex;
    for i := 0 to |path|
      invariant Climb(h, current, index, path[i..]) == Climb(h, leafHash, leafIndex, path)
    {
      assert path[i..][1..] == path[i + 1..];
      current := Parent(h, current, path[i], index);
      index := index / 2;
    }
    assert path[|path|..] == [];
    ok := current == expectedRoot;
  }

  lemma {:induction false} ClimbFromLevel(h: HashFn, leaves: seq<Digest>, k: nat, index: nat, l: nat)
    requires |leaves| == Pow2(k) && index < Pow2(k) && l <= k
    ensures Shr(index, l) < |Layer(h, leaves, l)|
    ensures Climb(h, Layer(h, leaves, l)[Shr(index, l)], Shr(index, l), AuthPath(h, leaves, k, index)[l..])
         == Root(h, leaves, k)
    decreases k - l
  {
    hide Layer, HashPair, Pow2, Shr;
    LayerSize(h, leaves, k, l);
    ShrBound(index, l, k - l);
    var path := AuthPath(h, leaves, k, index);
    if l == k {
      Pow2Table();
      assert path[k..] == [];
    } else {
      ClimbFromLevel(h, leaves, k, index, l + 1);
      LayerSnoc(h, leaves, l);
      ShrSnoc(index, l);
      assert path[l..][1..] == path[l + 1..];
      assert path[l..][0] == PathNode(h, leaves, k, index, l);
    }
  }

  /** The path extracted for an index is accepted against the root, with that leaf. */
  lemma HonestPathAccepted(h: HashFn, leaves: seq<Digest>, k: nat, index: nat)
    requires |leaves| == Pow2(k) && index < Pow2(k)
    ensures Climb(h, leaves[index], index, AuthPath(h, leaves, k, index)) == Root(h, leaves, k)
  {
    ClimbFromLevel(h, leaves, k, index, 0);
    assert AuthPath(h, leaves, k, index)[0..] == AuthPath(h, leaves, k, index);
  }

  /** The first level at which two climbs from different hashes meet. */
  function FindCollision(h: HashFn, a: Digest, p: seq<Digest>, b: Digest, q: seq<Digest>, index: nat)
    : (seq<byte>, seq<byte>)
    requires |p| == |q| > 0
    decreases |p|
  {
    var (u, v) := (Parent(h, a, p[0], index), Parent(h, b, q[0], index));
    if u == v || |p| == 1 then (ParentInput(a, p[0], index), ParentInput(b, q[0], index))
    else FindCollision(h, u, p[1..], v, q[1..], index / 2)
  }

  /** Two equal-length openings of one index against one root agree, or exhibit a collision. */
  lemma {:induction false} OpeningsBind(h: HashFn, a: Digest, p: seq<Digest>, b: Digest, q: seq<Digest>, index: nat)
    requires |p| == |q| && Climb(h, a, index, p) == Climb(h, b, index, q)
    ensures a == b || (|p| > 0 && var (x, y) := FindCollision(h, a, p, b, q, index); Collision(h, x, y))
    decreases |p|
  {
    hide PairInput;
    if a != b && |p| > 0 {
      var u, v := Parent(h, a, p[0], index), Parent(h, b, q[0], index);
      ParentInputDiffers(a, p[0], b, q[0], index);
      if u != v {
        OpeningsBind(h, u, p[1..], v, q[1..], index / 2);
      }
    }
  }

  lemma ParentInputDiffers(a: Digest, s: Digest, b: Digest, t: Digest, index: nat)
    requires a != b
    ensures ParentInput(a, s, index) != ParentInput(b, t, index)
  {
    if ParentInput(a, s, index) == ParentInput(b, t, index) {
      if index % 2 == 0 { PairInputInjective(a, s, b, t); } else { PairInputInjective(s, a, t, b); }
    }
  }
}
