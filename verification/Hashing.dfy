/**
 Words, bytes and the two Merkle hash inputs. The Blake2s compression itself is
 a parameter h: any function of the input bytes (src/merkle.rs, src/channel.rs).
 */
module Hashing {

  type byte = x: int | 0 <= x < 256
  type u32 = x: int | 0 <= x < 0x1_0000_0000
  type Digest = d: seq<u32> | |d| == 8 witness [0, 0, 0, 0, 0, 0, 0, 0]
  type HashFn = seq<byte> -> Digest

  const ZERO_DIGEST: Digest := [0, 0, 0, 0, 0, 0, 0, 0]

  /** u32::to_le_bytes. */
  function LeBytes(w: u32): (b: seq<byte>)
    ensures |b| == 4
  {
    [w % 256, (w / 0x100) % 256, (w / 0x1_0000) % 256, w / 0x100_0000]
  }

  /** u32::from_le_bytes. */
  function FromLeBytes(b: seq<byte>): u32
    requires |b| == 4
  {
    var b0: int, b1: int, b2: int, b3: int := b[0], b[1], b[2], b[3];
    b0 + 0x100 * b1 + 0x1_0000 * b2 + 0x100_0000 * b3
  }

  lemma LeBytesRoundTrip(w: u32)
    ensures FromLeBytes(LeBytes(w)) == w
  {
    var q1 := w / 0x100;
    var q2 := w / 0x1_0000;
    assert q1 / 0x100 == q2;
    assert q2 / 0x100 == w / 0x100_0000;
    assert w == 0x100 * q1 + w % 256;
    assert q1 == 0x100 * q2 + q1 % 256;
    assert q2 == 0x100 * (q2 / 0x100) + q2 % 256;
  }

  /** The number a little-endian byte string stands for. */
  function LeNumber(b: seq<byte>): nat {
    if |b| == 0 then 0 else b[0] + 0x100 * LeNumber(b[1..])
  }

  /** A word's four bytes, and what follows them. */
  lemma LeNumberOfWord(w: u32, rest: seq<byte>)
    ensures LeNumber(LeBytes(w) + rest) == w + 0x1_0000_0000 * LeNumber(rest)
  {
    var b := LeBytes(w) + rest;
    LeBytesRoundTrip(w);
    assert b[1..][1..] == b[2..] && b[2..][1..] == b[3..] && b[3..][1..] == rest;
    assert LeNumber(b) == b[0] + 0x100 * LeNumber(b[1..]);
    assert LeNumber(b[1..]) == b[1] + 0x100 * LeNumber(b[2..]);
    assert LeNumber(b[2..]) == b[2] + 0x100 * LeNumber(b[3..]);
    assert LeNumber(b[3..]) == b[3] + 0x100 * LeNumber(rest);
  }

  function WordBytes(ws: seq<u32>): (b: seq<byte>)
    ensures |b| == 4 * |ws|
  {
    if |ws| == 0 then [] else LeBytes(ws[0]) + WordBytes(ws[1..])
  }

  lemma {:induction false} WordBytesInjective(v: seq<u32>, w: seq<u32>)
    requires WordBytes(v) == WordBytes(w)
    ensures v == w
  {
    hide LeBytes;
    if |v| > 0 {
      assert |v| == |w|;
      assert LeBytes(v[0]) == WordBytes(v)[..4] == WordBytes(w)[..4] == LeBytes(w[0]);
      assert WordBytes(v[1..]) == WordBytes(v)[4..] == WordBytes(w)[4..] == WordBytes(w[1..]);
      LeBytesRoundTrip(v[0]); LeBytesRoundTrip(w[0]);
      WordBytesInjective(v[1..], w[1..]);
      assert v == [v[0]] + v[1..] && w == [w[0]] + w[1..];
    }
  }

  /** MerkleTree::hash_leaf: the little-endian column values of one row. */
  function HashLeaf(h: HashFn, values: seq<u32>): Digest { h(WordBytes(values)) }

  /** The 64-byte input of an inner node. */
  function PairInput(left: Digest, right: Digest): (x: seq<byte>)
    ensures |x| == 64 && x[..32] == WordBytes(left) && x[32..] == WordBytes(right)
  {
    WordBytes(left) + WordBytes(right)
  }

  /** MerkleTree::hash_pair. */
  function HashPair(h: HashFn, left: Digest, right: Digest): Digest { h(PairInput(left, right)) }

  lemma PairInputInjective(a: Digest, b: Digest, c: Digest, d: Digest)
    requires PairInput(a, b) == PairInput(c, d)
    ensures a == c && b == d
  {
    hide WordBytes;
    assert WordBytes(a) == PairInput(a, b)[..32] == PairInput(c, d)[..32] == WordBytes(c);
    assert WordBytes(b) == PairInput(a, b)[32..] == PairInput(c, d)[32..] == WordBytes(d);
    WordBytesInjective(a, c);
    WordBytesInjective(b, d);
  }

  /** Two different inputs with the same hash. */
  predicate Collision(h: HashFn, x: seq<byte>, y: seq<byte>) { x != y && h(x) == h(y) }
}
