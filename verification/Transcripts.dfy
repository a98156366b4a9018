/**
 What the challenges of a proof depend on: equal channel states come from equal
 commitments, and every commitment can change every later challenge (src/verifier.rs,
 src/channel.rs).
 */
module Transcripts {
  import opened Bits
  import opened SecureField
  import opened Hashing
  import opened FiatShamir
  import opened StarkProof
  import opened StarkVerifier
  import opened StarkProver

  // ---- equal states bind the transcript ----

  /** What the channel has taken in before fold k: trace, quotient, and the first k layers. */
  function Transcript(p: Proof, k: nat): (r: seq<Digest>)
    requires k <= |p.friCommitments|
    ensures |r| == k + 2
  {
    [p.traceCommitment, p.quotientCommitment] + p.friCommitments[..k]
  }

  /** Mixing is step by step, so a first part can be mixed in beforehand. */
  lemma {:induction false} MixedAllSplit(hs: Hashes, d: Digest, a: seq<Digest>, b: seq<Digest>)
    ensures MixedAll(hs, d, a + b) == MixedAll(hs, MixedAll(hs, d, a), b)
    decreases |b|
  {
    hide MixedDigest;
    if |b| == 0 {
      assert a + b == a;
    } else {
      var n := |b| - 1;
      MixedAllSplit(hs, d, a, b[..n]);
      assert (a + b)[..|a + b| - 1] == a + b[..n] && (a + b)[|a + b| - 1] == b[n];
    }
  }

  /** The state at fold k is the empty channel with the transcript mixed in, one commitment after the other. */
  lemma FoldStateIs(hs: Hashes, p: Proof, k: nat)
    requires k <= |p.friCommitments|
    ensures FoldState(hs, Base(hs, p), p.friCommitments, k) == State(MixedAll(hs, ZERO_DIGEST, Transcript(p, k)), 0)
  {
    hide MixedDigest;
    var a := [p.traceCommitment, p.quotientCommitment];
    MixedAllSplit(hs, ZERO_DIGEST, a, p.friCommitments[..k]);
    assert a[..1] == [p.traceCommitment] && a[..1][..0] == [];
    assert MixedAll(hs, ZERO_DIGEST, []) == ZERO_DIGEST;
    assert MixedAll(hs, ZERO_DIGEST, a[..1]) == MixedDigest(hs, ZERO_DIGEST, p.traceCommitment);
  }

  /** Equal transcripts, commitment by commitment. */
  ghost predicate SameUpTo(p: Proof, r: Proof, k: nat)
    requires k <= |p.friCommitments| && k <= |r.friCommitments|
  {
    && p.traceCommitment == r.traceCommitment && p.quotientCommitment == r.quotientCommitment
    && p.friCommitments[..k] == r.friCommitments[..k]
  }

  lemma SameTranscripts(p: Proof, r: Proof, k: nat)
    requires k <= |p.friCommitments| && k <= |r.friCommitments| && Transcript(p, k) == Transcript(r, k)
    ensures SameUpTo(p, r, k)
  {
    var a, b := Transcript(p, k), Transcript(r, k);
    assert a[0] == b[0] && a[1] == b[1];
    assert p.friCommitments[..k] == a[2..] == b[2..] == r.friCommitments[..k];
  }

  /**
   The channel states at fold k are equal only if trace, quotient and the first k layer
   commitments are, or else some step of the two transcripts hashes different inputs to
   one digest. The challenge is drawn from that state.
   */
  lemma FoldStatesBind(hs: Hashes, p: Proof, r: Proof, k: nat)
    requires Sampling(hs) && k <= |p.friCommitments| && k <= |r.friCommitments|
    requires FoldState(hs, Base(hs, p), p.friCommitments, k) == FoldState(hs, Base(hs, r), r.friCommitments, k)
    ensures Alphas(hs, p)[k] == Alphas(hs, r)[k]
    ensures SameUpTo(p, r, k) || exists j: nat :: j < k + 2 && CollideAt(hs, ZERO_DIGEST, Transcript(p, k), Transcript(r, k), j)
  {
    hide MixedAll, CollideAt, BaseDigest, SameUpTo;
    FoldStateIs(hs, p, k); FoldStateIs(hs, r, k);
    TranscriptBinds(hs, ZERO_DIGEST, Transcript(p, k), Transcript(r, k));
    if Transcript(p, k) == Transcript(r, k) { SameTranscripts(p, r, k); }
  }

  /** Two element lists are hashed with different digests or elements to one digest. */
  ghost predicate FeltsCollide(hs: Hashes, d: Digest, a: seq<QM31>, e: Digest, b: seq<QM31>) {
    Collision(hs.full, FeltsInput(d, a), FeltsInput(e, b))
  }

  /**
   The states before the query indices are equal only if all commitments and the last
   layer are, or else a step of the transcript or the hash of the last layer collides.
   */
  lemma IndexStatesBind(hs: Hashes, p: Proof, r: Proof)
    requires |p.friCommitments| == |r.friCommitments| && |p.friLastLayer| > 0 && |r.friLastLayer| > 0
    requires IndexState(hs, Base(hs, p), p.friCommitments, p.friLastLayer) == IndexState(hs, Base(hs, r), r.friCommitments, r.friLastLayer)
    ensures var (n, d, e) := (|p.friCommitments|, MixedAll(hs, Base(hs, p), p.friCommitments), MixedAll(hs, Base(hs, r), r.friCommitments));
            || (SameUpTo(p, r, n) && p.friLastLayer == r.friLastLayer)
            || FeltsCollide(hs, d, p.friLastLayer, e, r.friLastLayer)
            || exists j: nat :: j < n + 2 && CollideAt(hs, ZERO_DIGEST, Transcript(p, n), Transcript(r, n), j)
  {
    hide CollideAt, BaseDigest, SameUpTo, FeltsInput, MixedAll;
    var n := |p.friCommitments|;
    var d, e := MixedAll(hs, Base(hs, p), p.friCommitments), MixedAll(hs, Base(hs, r), r.friCommitments);
    if FeltsInput(d, p.friLastLayer) == FeltsInput(e, r.friLastLayer) {
      FeltsInputInjective(d, p.friLastLayer, e, r.friLastLayer);
      assert p.friCommitments[..n] == p.friCommitments && r.friCommitments[..n] == r.friCommitments;
      FoldStateIs(hs, p, n); FoldStateIs(hs, r, n);
      TranscriptBinds(hs, ZERO_DIGEST, Transcript(p, n), Transcript(r, n));
      if Transcript(p, n) == Transcript(r, n) { SameTranscripts(p, r, n); }
    } else {
      assert hs.full(FeltsInput(d, p.friLastLayer)) == hs.full(FeltsInput(e, r.friLastLayer));
    }
  }

  // ---- every commitment matters ----

  function WordAt(x: seq<byte>, i: nat): u32
    requires 4 * i + 4 <= |x|
  {
    FromLeBytes(x[4 * i..4 * i + 4])
  }

  function Counted(n: u32): u32 { var m: int := n; (m + 1) % 0x1_0000_0000 }

  /** A digest that remembers a bit and a count. */
  function Tagged(bit: u32, count: u32): Digest { [bit, count, 0, 0, 0, 0, 0, 0] }

  /**
   A hash that tells two transcripts apart: mixing counts the steps and sets the bit at
   step j to whether the commitment is com; squeezing gives the bit out.
   */
  function Separator(j: nat, com: Digest): HashFn {
    (x: seq<byte>) =>
      if |x| == 64 then
        Tagged(if WordAt(x, 1) == j then (if x[32..] == WordBytes(com) then 1 else 0) else WordAt(x, 0),
               Counted(WordAt(x, 1)))
      else if |x| == 37 then Tagged(WordAt(x, 0) % 2, 0)
      else ZERO_DIGEST
  }

  lemma WordsAt(d: Digest, rest: seq<byte>)
    ensures WordAt(WordBytes(d) + rest, 0) == d[0] && WordAt(WordBytes(d) + rest, 1) == d[1]
  {
    hide LeBytes, FromLeBytes;
    var x := WordBytes(d) + rest;
    assert d[1..][0] == d[1] && d[1..][1..] == d[2..];
    assert WordBytes(d) == LeBytes(d[0]) + (LeBytes(d[1]) + WordBytes(d[2..]));
    assert x[..4] == LeBytes(d[0]) && x[4..8] == LeBytes(d[1]);
    LeBytesRoundTrip(d[0]); LeBytesRoundTrip(d[1]);
  }

  lemma SeparatorMixes(j: nat, com: Digest, d: Digest, c: Digest)
    ensures Separator(j, com)(MixInput(d, c))
         == Tagged(if d[1] == j then (if c == com then 1 else 0) else d[0], Counted(d[1]))
  {
    hide WordBytes, WordAt;
    var x := MixInput(d, c);
    WordsAt(d, WordBytes(c));
    assert x[32..] == WordBytes(c);
    if WordBytes(c) == WordBytes(com) { WordBytesInjective(c, com); }
  }

  lemma SeparatorSqueezes(j: nat, com: Digest, s: State)
    ensures Separator(j, com)(SqueezeInput(s)) == Tagged(s.digest[0] % 2, 0)
  {
    hide WordBytes, WordAt, LeBytes;
    assert SqueezeInput(s) == WordBytes(s.digest) + (LeBytes(s.draws) + [0]);
    WordsAt(s.digest, LeBytes(s.draws) + [0]);
  }

  /** After n steps the digest holds n, and once past step j whether that step mixed com. */
  lemma {:induction false} SeparatorChain(hs: Hashes, j: nat, com: Digest, a: seq<Digest>)
    requires hs.block == Separator(j, com) && |a| < 0x1_0000_0000
    ensures MixedAll(hs, ZERO_DIGEST, a) == Tagged(if j < |a| && a[j] == com then 1 else 0, |a|)
    decreases |a|
  {
    hide Separator, MixInput, MixedDigest, Counted;
    if |a| > 0 {
      var n := |a| - 1;
      var d := MixedAll(hs, ZERO_DIGEST, a[..n]);
      SeparatorChain(hs, j, com, a[..n]);
      SeparatorMixes(j, com, d, a[n]);
      MixedIs(hs, d, a[n]);
      CountedIs(n);
      assert j < n ==> a[..n][j] == a[j];
    }
  }

  lemma CountedIs(n: u32)
    ensures n < 0xFFFF_FFFF ==> Counted(n) == n + 1
  {
  }

  lemma SeparatorSamples(hs: Hashes, j: nat, com: Digest, s: State)
    requires hs.block == Separator(j, com)
    ensures Sampling(hs) && Felt(hs, s) == Embed(s.digest[0] % 2)
  {
    hide Separator, SqueezeInput;
    forall t: State, n: nat ensures Squeezed(hs, DrawnTimes(t, n)) == Tagged(t.digest[0] % 2, 0) {
      SeparatorSqueezes(j, com, DrawnTimes(t, n));
      DrawnTimesSnoc(t, n);
    }
    forall t: State ensures Ends(hs, t) {
      assert Kept(Squeezed(hs, DrawnTimes(t, 0)));
      assert EndsAt(hs, t, 0);
    }
  }

  lemma FirstDifference(a: seq<Digest>, b: seq<Digest>) returns (j: nat)
    requires |a| == |b| && a != b
    ensures j < |a| && a[j] != b[j]
  {
    j :| j < |a| && a[j] != b[j];
  }

  /** Different transcripts up to fold k can always give different challenges at fold k. */
  lemma ChallengeSeparates(p: Proof, r: Proof, k: nat) returns (hs: Hashes)
    requires k <= |p.friCommitments| && k <= |r.friCommitments| && k < 0xFFFF_FFFE && !SameUpTo(p, r, k)
    ensures Sampling(hs) && Alphas(hs, p)[k] != Alphas(hs, r)[k]
  {
    hide Separator, MixedAll, BaseDigest, SameUpTo, Sampling, Felt;
    var a, b := Transcript(p, k), Transcript(r, k);
    if a == b { SameTranscripts(p, r, k); }
    var j := FirstDifference(a, b);
    hs := Hashes(Separator(j, a[j]), Separator(j, a[j]));
    SeparatorChain(hs, j, a[j], a); SeparatorChain(hs, j, a[j], b);
    FoldStateIs(hs, p, k); FoldStateIs(hs, r, k);
    SeparatorSamples(hs, j, a[j], FoldState(hs, Base(hs, p), p.friCommitments, k));
    SeparatorSamples(hs, j, a[j], FoldState(hs, Base(hs, r), r.friCommitments, k));
  }

  /** One input is told apart from all others. */
  function Spotter(x: seq<byte>): HashFn { (y: seq<byte>) => Tagged(if x == y then 1 else 0, 0) }

  /** Different commitments or last layers can always give different query indices. */
  lemma IndicesSeparate(p: Proof, r: Proof) returns (hs: Hashes)
    requires |p.friCommitments| == |r.friCommitments| < 0xFFFF_FFFE && |p.friLastLayer| > 0 && |r.friLastLayer| > 0
    requires !SameUpTo(p, r, |p.friCommitments|) || p.friLastLayer != r.friLastLayer
    ensures Sampling(hs)
    ensures QueryIndices(hs, Base(hs, p), p.friCommitments, p.friLastLayer, Pow2(EvalLog(p)))
         != QueryIndices(hs, Base(hs, r), r.friCommitments, r.friLastLayer, Pow2(EvalLog(r)))
  {
    hide Separator, MixedAll, BaseDigest, SameUpTo, Sampling, FeltsInput, Squeezed, Pow2;
    var n := |p.friCommitments|;
    var a, b := Transcript(p, n), Transcript(r, n);
    var j: nat := 0;
    if a != b { j := FirstDifference(a, b); } else { SameTranscripts(p, r, n); }
    var block := Hashes(Separator(j, a[j]), Separator(j, a[j]));
    SeparatorChain(block, j, a[j], a); SeparatorChain(block, j, a[j], b);
    var d, e := MixedAll(block, ZERO_DIGEST, a), MixedAll(block, ZERO_DIGEST, b);
    if FeltsInput(d, p.friLastLayer) == FeltsInput(e, r.friLastLayer) {
      FeltsInputInjective(d, p.friLastLayer, e, r.friLastLayer);
      assert false;
    }
    hs := Hashes(Separator(j, a[j]), Spotter(FeltsInput(d, p.friLastLayer)));
    SeparatorChain(hs, j, a[j], a); SeparatorChain(hs, j, a[j], b);
    FoldStateIs(hs, p, n); FoldStateIs(hs, r, n);
    assert p.friCommitments[..n] == p.friCommitments && r.friCommitments[..n] == r.friCommitments;
    FirstIndex(hs, j, a[j], p, 1); FirstIndex(hs, j, a[j], r, 0);
  }

  /** With the separator the first index is the bit of the state it is drawn from. */
  lemma FirstIndex(hs: Hashes, j: nat, com: Digest, p: Proof, bit: u32)
    requires hs.block == Separator(j, com) && bit < 2
    requires IndexState(hs, Base(hs, p), p.friCommitments, p.friLastLayer).digest == Tagged(bit, 0)
    ensures Sampling(hs)
    ensures QueryIndices(hs, Base(hs, p), p.friCommitments, p.friLastLayer, Pow2(EvalLog(p)))[0] == bit
  {
    hide *;
    var s := IndexState(hs, Base(hs, p), p.friCommitments, p.friLastLayer);
    SeparatorSamples(hs, j, com, s);
    SeparatorSqueezes(j, com, s);
    FirstOf(hs, p, Pow2(EvalLog(p)));
    SizeIsEven(p);
    BitNumber(Squeezed(hs, s), bit, Pow2(EvalLog(p)));
  }

  lemma FirstOf(hs: Hashes, p: Proof, size: nat)
    requires size > 0
    ensures QueryIndices(hs, Base(hs, p), p.friCommitments, p.friLastLayer, size)[0]
         == NumberOf(Squeezed(hs, IndexState(hs, Base(hs, p), p.friCommitments, p.friLastLayer)), size)
    ensures Squeezed(hs, IndexState(hs, Base(hs, p), p.friCommitments, p.friLastLayer))
         == hs.block(SqueezeInput(IndexState(hs, Base(hs, p), p.friCommitments, p.friLastLayer)))
  {
    hide NumberOf, SqueezeInput, IndexState;
    NoDraws(IndexState(hs, Base(hs, p), p.friCommitments, p.friLastLayer));
  }

  lemma SizeIsEven(p: Proof)
    ensures Pow2(EvalLog(p)) >= 2
  {
  }

  lemma BitNumber(w: Digest, bit: u32, size: nat)
    requires bit < 2 <= size && w == Tagged(Tagged(bit, 0)[0] % 2, 0)
    ensures NumberOf(w, size) == bit
  {
  }

  /** A challenge depends on nothing that is committed later. */
  lemma ChallengeDependsOnPrefix(hs: Hashes, p: Proof, r: Proof, k: nat)
    requires Sampling(hs) && k <= |p.friCommitments| && k <= |r.friCommitments| && SameUpTo(p, r, k)
    ensures Alphas(hs, p)[k] == Alphas(hs, r)[k]
  {
    hide MixedAll, MixedDigest, Sampling, Felt;
  }

  /** Different trace commitments can always give different constraint challenges. */
  lemma ConstraintChallengeSeparates(a: Digest, b: Digest) returns (hs: Hashes)
    requires a != b
    ensures Sampling(hs) && QuotientAlpha(hs, a) != QuotientAlpha(hs, b)
  {
    hide Separator, MixInput, Sampling, Felt;
    hs := Hashes(Separator(0, a), Separator(0, a));
    SeparatorMixes(0, a, ZERO_DIGEST, a); SeparatorMixes(0, a, ZERO_DIGEST, b);
    SeparatorSamples(hs, 0, a, State(MixedDigest(hs, ZERO_DIGEST, a), 0));
    SeparatorSamples(hs, 0, a, State(MixedDigest(hs, ZERO_DIGEST, b), 0));
  }
}
