/**
 The Fiat-Shamir channel (src/channel.rs). The two Blake2s entry points are
 parameters: `block` for inputs of at most 64 bytes, `full` for any length.
 */
module FiatShamir {
  import opened Bits
  import opened M31Field
  import opened SecureField
  import opened Hashing

  datatype Hashes = Hashes(block: HashFn, full: HashFn)

  /** The channel as a value: digest and draw counter. */
  datatype State = State(digest: Digest, draws: u32)

  const TWO_P: nat := 0xFFFF_FFFE

  // ---- squeezing ----

  /** The 37 bytes hashed by one squeeze. */
  function SqueezeInput(s: State): (x: seq<byte>)
    ensures |x| == 37 && x[..32] == WordBytes(s.digest) && LeNumber(x[32..]) == s.draws
  {
    hide WordBytes, LeBytes;
    CounterBytes(s.draws);
    assert (WordBytes(s.digest) + LeBytes(s.draws) + [0])[32..] == LeBytes(s.draws) + [0];
    WordBytes(s.digest) + LeBytes(s.draws) + [0]
  }

  lemma CounterBytes(n: u32)
    ensures LeNumber(LeBytes(n) + [0]) == n
  {
    hide LeBytes;
    LeNumberOfWord(n, [0]);
    assert [0][1..] == [];
    assert LeNumber([0]) == 0;
  }

  function Squeezed(hs: Hashes, s: State): Digest { hs.block(SqueezeInput(s)) }

  /** The counter is a u32 and wraps. */
  function Drawn(s: State): State { s.(draws := (s.draws + 1) % 0x1_0000_0000) }

  ghost function DrawnTimes(s: State, n: nat): State
    decreases n
  {
    if n == 0 then s else DrawnTimes(Drawn(s), n - 1)
  }

  lemma {:induction false} DrawnTimesSnoc(s: State, n: nat)
    ensures DrawnTimes(s, n + 1) == Drawn(DrawnTimes(s, n))
    ensures DrawnTimes(s, n).digest == s.digest
    decreases n
  {
    if n > 0 { DrawnTimesSnoc(Drawn(s), n - 1); }
  }

  /** Rejection sampling keeps a squeeze only when all eight words are below 2P. */
  predicate Kept(w: Digest) { forall i :: 0 <= i < 8 ==> w[i] < TWO_P }

  /** A squeeze is rejected exactly when one of its eight words is one of the two largest. */
  lemma KeptExactly(w: Digest)
    ensures Kept(w) <==> forall i :: 0 <= i < 8 ==> w[i] != 0xFFFF_FFFE && w[i] != 0xFFFF_FFFF
  {
    forall i | 0 <= i < 8 ensures w[i] < TWO_P <==> w[i] != 0xFFFF_FFFE && w[i] != 0xFFFF_FFFF {
    }
  }

  /** Of the kept words each field element has exactly two, r and r + P: the draw is unbiased. */
  lemma KeptWordsBalanced(r: M31, w: u32)
    ensures w < TWO_P && w % P == r <==> w == r || w == r + P
  {
  }

  /** Rejection sampling from s ends after t rejected squeezes. */
  ghost predicate EndsAt(hs: Hashes, s: State, t: nat) {
    && Kept(Squeezed(hs, DrawnTimes(s, t)))
    && forall u: nat :: u < t ==> !Kept(Squeezed(hs, DrawnTimes(s, u)))
  }

  /** Rejection sampling ends from every state: what the unbounded loop of draw_felt relies on. */
  ghost predicate Sampling(hs: Hashes) { forall s: State :: Ends(hs, s) }

  ghost predicate Ends(hs: Hashes, s: State) { exists t: nat :: EndsAt(hs, s, t) }

  function FeltOf(w: Digest): QM31 {
    QM31(CM31(w[0] % P, w[1] % P), CM31(w[2] % P, w[3] % P))
  }

  ghost function Rejections(hs: Hashes, s: State): (t: nat)
    requires Sampling(hs)
    ensures EndsAt(hs, s, t)
  {
    assert Ends(hs, s);
    var t: nat :| EndsAt(hs, s, t);
    t
  }

  /** The challenge draw_felt returns from s, and the channel after it. */
  ghost function Felt(hs: Hashes, s: State): QM31
    requires Sampling(hs)
  {
    FeltOf(Squeezed(hs, DrawnTimes(s, Rejections(hs, s))))
  }

  ghost function AfterFelt(hs: Hashes, s: State): (r: State)
    requires Sampling(hs)
    ensures r.digest == s.digest
  {
    DrawnTimesSnoc(s, Rejections(hs, s) + 1);
    DrawnTimes(s, Rejections(hs, s) + 1)
  }

  /** draw_number: the first eight bytes as a little-endian u64, reduced. */
  function NumberOf(w: Digest, bound: nat): nat
    requires bound > 0
  {
    (w[0] + 0x1_0000_0000 * w[1]) % bound
  }

  /** The eight bytes read little-endian, whatever order the words are joined in. */
  lemma NumberIsLittleEndian(w: Digest, bound: nat)
    requires bound > 0
    ensures NumberOf(w, bound) == LeNumber(WordBytes(w)[..8]) % bound
  {
    hide LeBytes, LeNumber;
    assert w[1..][0] == w[1] && w[1..][1..] == w[2..];
    assert WordBytes(w) == LeBytes(w[0]) + (LeBytes(w[1]) + WordBytes(w[2..]));
    assert WordBytes(w)[..8] == LeBytes(w[0]) + (LeBytes(w[1]) + []);
    LeNumberOfWord(w[0], LeBytes(w[1]) + []);
    LeNumberOfWord(w[1], []);
    assert LeNumber([]) == 0 by { NoBytes(); }
  }

  lemma NoBytes()
    ensures LeNumber([]) == 0
  {
  }

  /** Modulo a power of two up to 2^32 only the first word counts. */
  lemma NumberIsMaskedWord(w: Digest, k: nat)
    requires k <= 32
    ensures NumberOf(w, Pow2(k)) == w[0] % Pow2(k)
  {
    hide *;
    PowersOfWord(k);
    NumberParts(w, Pow2(k));
    HighWordDrops(w[0], w[1], Pow2(k), Pow2(32 - k));
  }

  lemma NumberParts(w: Digest, bound: nat)
    requires bound > 0
    ensures NumberOf(w, bound) == (w[0] + 0x1_0000_0000 * w[1]) % bound
  {
  }

  lemma PowersOfWord(k: nat)
    requires k <= 32
    ensures Pow2(k) * Pow2(32 - k) == 0x1_0000_0000
  {
    hide Pow2;
    ShlPow2(k, 32 - k);
    ShlTimesPow2(Pow2(k), 32 - k);
    Pow2Unfold(32); Pow2Table();
  }

  lemma {:induction false} ShlTimesPow2(x: nat, k: nat)
    ensures Shl(x, k) == x * Pow2(k)
  {
    if k > 0 { ShlTimesPow2(x, k - 1); }
  }

  lemma HighWordDrops(x: nat, y: nat, m: nat, q: nat)
    requires m > 0 && m * q == 0x1_0000_0000
    ensures (x + 0x1_0000_0000 * y) % m == x % m
  {
    var c := q * y;
    assert 0x1_0000_0000 * y == m * c by { assert (m * q) * y == m * (q * y); }
    assert x + m * c == m * (x / m + c) + x % m;
    RemainderUnique(x + m * c, x / m + c, x % m, m);
  }

  lemma RemainderUnique(x: nat, q: nat, r: nat, m: nat)
    requires m > 0 && r < m && x == m * q + r
    ensures x % m == r
  {
    var d := x / m - q;
    assert m * d == r - x % m;
    MultipleBounds(m, d);
  }

  lemma MultipleBounds(m: nat, d: int)
    requires m > 0
    ensures d >= 1 ==> m * d >= m
    ensures d <= -1 ==> m * d + m <= 0
  {
  }

  // ---- which input is hashed when ----

  /** A squeeze input determines the digest and the counter. */
  lemma SqueezeInputInjective(s: State, t: State)
    requires SqueezeInput(s) == SqueezeInput(t)
    ensures s == t
  {
    hide WordBytes, LeBytes;
    var x, y := SqueezeInput(s), SqueezeInput(t);
    assert WordBytes(s.digest) == x[..32] && WordBytes(t.digest) == y[..32];
    assert LeBytes(s.draws) == x[32..36] && LeBytes(t.draws) == y[32..36];
    WordBytesInjective(s.digest, t.digest);
    LeBytesRoundTrip(s.draws); LeBytesRoundTrip(t.draws);
  }

  lemma {:induction false} DrawsCounted(s: State, n: nat)
    ensures DrawnTimes(s, n) == s.(draws := (s.draws + n) % 0x1_0000_0000)
    decreases n
  {
    if n > 0 {
      DrawsCounted(Drawn(s), n - 1);
      CounterWraps(s.draws, n - 1);
    }
  }

  lemma CounterWraps(d: u32, m: nat)
    ensures ((d as int + 1) % 0x1_0000_0000 + m) % 0x1_0000_0000 == (d + (m + 1)) % 0x1_0000_0000
  {
    if d == 0xFFFF_FFFF {
      assert d + (m + 1) == 0x1_0000_0000 + m;
    }
  }

  /** Successive squeezes hash different inputs until the counter has gone round. */
  lemma DrawsAreFresh(s: State, i: nat, j: nat)
    requires i < j < i + 0x1_0000_0000
    ensures SqueezeInput(DrawnTimes(s, i)) != SqueezeInput(DrawnTimes(s, j))
  {
    hide SqueezeInput;
    DrawsCounted(s, i); DrawsCounted(s, j);
    if SqueezeInput(DrawnTimes(s, i)) == SqueezeInput(DrawnTimes(s, j)) {
      SqueezeInputInjective(DrawnTimes(s, i), DrawnTimes(s, j));
    }
  }

  /** Squeezes, mixed digests and mixed elements never hash the same input. */
  lemma InputsSeparate(s: State, d: Digest, com: Digest, e: Digest, felts: seq<QM31>)
    ensures SqueezeInput(s) != MixInput(d, com) && SqueezeInput(s) != FeltsInput(e, felts)
    ensures |felts| != 2 ==> MixInput(d, com) != FeltsInput(e, felts)
  {
    assert |SqueezeInput(s)| == 37 && |MixInput(d, com)| == 64 && |FeltsInput(e, felts)| == 32 + 16 * |felts|;
  }

  // ---- mixing ----

  function MixedDigest(hs: Hashes, d: Digest, com: Digest): Digest { hs.block(MixInput(d, com)) }

  function FeltWords(felts: seq<QM31>): (r: seq<u32>)
    ensures |r| == 4 * |felts|
  {
    if |felts| == 0 then [] else ToWords(felts[0]) + FeltWords(felts[1..])
  }

  function FeltsInput(d: Digest, felts: seq<QM31>): (x: seq<byte>)
    ensures |x| == 32 + 16 * |felts| && x[..32] == WordBytes(d) && x[32..] == WordBytes(FeltWords(felts))
  {
    WordBytes(d) + WordBytes(FeltWords(felts))
  }

  function MixedFelts(hs: Hashes, d: Digest, felts: seq<QM31>): Digest {
    if |felts| == 0 then d else hs.full(FeltsInput(d, felts))
  }

  lemma {:induction false} FeltWordsInjective(a: seq<QM31>, b: seq<QM31>)
    requires FeltWords(a) == FeltWords(b)
    ensures a == b
    decreases |a|
  {
    assert |a| == |b|;
    if |a| > 0 {
      assert FeltWords(a)[..4] == ToWords(a[0]) && FeltWords(b)[..4] == ToWords(b[0]);
      assert FeltWords(a)[4..] == FeltWords(a[1..]) && FeltWords(b)[4..] == FeltWords(b[1..]);
      FeltWordsInjective(a[1..], b[1..]);
      assert FromWords(ToWords(a[0])) == FromWords(ToWords(b[0]));
      assert a == [a[0]] + a[1..] && b == [b[0]] + b[1..];
    }
  }

  /** The input of mix_felts determines the digest and all the elements. */
  lemma FeltsInputInjective(d: Digest, a: seq<QM31>, e: Digest, b: seq<QM31>)
    requires FeltsInput(d, a) == FeltsInput(e, b)
    ensures d == e && a == b
  {
    hide WordBytes, FeltWords;
    var x, y := FeltsInput(d, a), FeltsInput(e, b);
    assert WordBytes(d) == x[..32] && WordBytes(e) == y[..32];
    assert WordBytes(FeltWords(a)) == x[32..] && WordBytes(FeltWords(b)) == y[32..];
    WordBytesInjective(d, e);
    WordBytesInjective(FeltWords(a), FeltWords(b));
    FeltWordsInjective(a, b);
  }

  /** The words of a drawn element are the first four of the squeeze, reduced; it is mixed in as them. */
  lemma DrawnWords(w: Digest)
    requires forall i :: 0 <= i < 4 ==> w[i] < P
    ensures FeltWords([FeltOf(w)]) == w[..4]
  {
    assert [FeltOf(w)][1..] == [];
    assert FeltWords([FeltOf(w)]) == ToWords(FeltOf(w)) + FeltWords([]);
  }

  /** The digest after a list of commitments. */
  function MixedAll(hs: Hashes, d: Digest, coms: seq<Digest>): Digest
    decreases |coms|
  {
    if |coms| == 0 then d else MixedDigest(hs, MixedAll(hs, d, coms[..|coms| - 1]), coms[|coms| - 1])
  }

  lemma MixedAllSnoc(hs: Hashes, d: Digest, coms: seq<Digest>, k: nat)
    requires k < |coms|
    ensures MixedAll(hs, d, coms[..k + 1]) == MixedDigest(hs, MixedAll(hs, d, coms[..k]), coms[k])
  {
    assert coms[..k + 1][..k] == coms[..k];
  }

  function MixInput(d: Digest, com: Digest): (x: seq<byte>)
    ensures |x| == 64 && x[..32] == WordBytes(d) && x[32..] == WordBytes(com)
  {
    WordBytes(d) + WordBytes(com)
  }

  /** Step k of two transcripts hashes different inputs to one digest. */
  ghost predicate CollideAt(hs: Hashes, d: Digest, a: seq<Digest>, b: seq<Digest>, k: nat)
    requires k < |a| && k < |b|
  {
    Collision(hs.block, MixInput(MixedAll(hs, d, a[..k]), a[k]), MixInput(MixedAll(hs, d, b[..k]), b[k]))
  }

  /** Equal transcripts come from equal commitments, or two hash inputs collide. */
  lemma {:induction false} TranscriptBinds(hs: Hashes, d: Digest, a: seq<Digest>, b: seq<Digest>)
    requires |a| == |b| && MixedAll(hs, d, a) == MixedAll(hs, d, b)
    ensures a == b || exists k: nat :: k < |a| && CollideAt(hs, d, a, b, k)
    decreases |a|
  {
    hide MixInput;
    if |a| > 0 {
      var n := |a| - 1;
      var x, y := MixedAll(hs, d, a[..n]), MixedAll(hs, d, b[..n]);
      MixedIs(hs, x, a[n]); MixedIs(hs, y, b[n]);
      if MixInput(x, a[n]) == MixInput(y, b[n]) {
        MixInputInjective(x, a[n], y, b[n]);
        TranscriptBinds(hs, d, a[..n], b[..n]);
        if a[..n] == b[..n] {
          assert a == a[..n] + [a[n]] && b == b[..n] + [b[n]];
        } else {
          var k: nat :| k < n && CollideAt(hs, d, a[..n], b[..n], k);
          assert a[..n][..k] == a[..k] && b[..n][..k] == b[..k];
          assert CollideAt(hs, d, a, b, k);
        }
      } else {
        assert CollideAt(hs, d, a, b, n);
      }
    }
  }

  lemma MixedIs(hs: Hashes, d: Digest, com: Digest)
    ensures MixedDigest(hs, d, com) == hs.block(MixInput(d, com))
  {
  }

  lemma MixInputInjective(a: Digest, b: Digest, c: Digest, d: Digest)
    requires MixInput(a, b) == MixInput(c, d)
    ensures a == c && b == d
  {
    PairInputInjective(a, b, c, d);
  }

  // ---- the channel object ----

  class Channel {
    const hs: Hashes
    var digest: Digest
    var draws: u32

    ghost function Now(): State
      reads this
    {
      State(digest, draws)
    }

    constructor (hs: Hashes)
      ensures this.hs == hs && Now() == State(ZERO_DIGEST, 0)
    {
      this.hs := hs;
      digest, draws := ZERO_DIGEST, 0;
    }

    method Squeeze() returns (w: Digest)
      modifies this
      ensures w == Squeezed(hs, old(Now())) && Now() == Drawn(old(Now()))
    {
      w := hs.block(WordBytes(digest) + LeBytes(draws) + [0]);
      draws := (draws + 1) % 0x1_0000_0000;
    }

    /** mix_digest */
    method MixDigest(com: Digest)
      modifies this
      ensures Now() == State(MixedDigest(hs, old(digest), com), 0)
    {
      digest := hs.block(WordBytes(digest) + WordBytes(com));
      draws := 0;
    }

    /** mix_felts */
    method MixFelts(felts: seq<QM31>)
      modifies this
      ensures Now() == if |felts| == 0 then old(Now()) else State(MixedFelts(hs, old(digest), felts), 0)
    {
      if |felts| == 0 { return; }
      digest := hs.full(WordBytes(digest) + WordBytes(FeltWords(felts)));
      draws := 0;
    }

    /** mix_u64: low word, then high word. */
    method MixU64(value: nat)
      requires value < 0x1_0000_0000_0000_0000
      modifies this
      ensures Now() == State(hs.block(WordBytes(old(digest)) + WordBytes([value % 0x1_0000_0000, value / 0x1_0000_0000])), 0)
    {
      var lo: u32, hi: u32 := value % 0x1_0000_0000, value / 0x1_0000_0000;
      var bytes := WordBytes(digest) + (LeBytes(lo) + LeBytes(hi));
      assert WordBytes([lo, hi]) == LeBytes(lo) + LeBytes(hi) by { TwoWords(lo, hi); }
      digest := hs.block(bytes);
      draws := 0;
    }

    /** draw_felt, under the assumption that rejection sampling ends. */
    method DrawFelt() returns (felt: QM31)
      requires Sampling(hs)
      modifies this
      ensures felt == Felt(hs, old(Now())) && Now() == AfterFelt(hs, old(Now()))
    {
      hide Squeezed, Drawn, DrawnTimes, Kept;
      ghost var start := Now();
      ghost var t := Rejections(hs, start);
      ghost var n: nat := 0;
      NoDraws(start);
      while true
        invariant n <= t && Now() == DrawnTimes(start, n)
        decreases t - n
      {
        var w := Squeeze();
        DrawnTimesSnoc(start, n);
        if Kept(w) {
          assert n == t;
          return FeltOf(w);
        }
        n := n + 1;
      }
    }

    /** draw_number */
    method DrawNumber(bound: nat) returns (r: nat)
      requires bound > 0
      modifies this
      ensures r == NumberOf(Squeezed(hs, old(Now())), bound) && Now() == Drawn(old(Now()))
      ensures r == LeNumber(WordBytes(Squeezed(hs, old(Now())))[..8]) % bound
    {
      hide Squeezed, Drawn, NumberOf, WordBytes, LeNumber;
      var w := Squeeze();
      NumberIsLittleEndian(w, bound);
      r := NumberOf(w, bound);
    }

    /** N successive draws below a bound. */
    method DrawNumbers(bound: nat, n: nat) returns (r: seq<nat>)
      requires bound > 0
      modifies this
      ensures r == Numbers(hs, old(Now()), bound, n) && Now() == DrawnTimes(old(Now()), n)
    {
      hide Squeezed, Drawn, DrawnTimes, NumberOf;
      r := [];
      ghost var start := Now();
      NoDraws(start);
      for i := 0 to n
        invariant r == Numbers(hs, start, bound, i) && Now() == DrawnTimes(start, i)
      {
        var x := DrawNumber(bound);
        DrawnTimesSnoc(start, i);
        NumbersSnoc(hs, start, bound, i);
        r := r + [x];
      }
    }

    /** draw_query_indices: eight masked words per squeeze. */
    method DrawQueryIndices(logSize: nat, n: nat) returns (r: seq<nat>)
      requires logSize < 32
      modifies this
      ensures |r| == n && digest == old(digest)
      ensures forall i: nat :: i < n ==> r[i] == Squeezed(hs, DrawnTimes(old(Now()), i / 8))[i % 8] % Pow2(logSize)
    {
      hide Squeezed, Drawn, DrawnTimes, Pow2;
      r := [];
      ghost var start := Now();
      ghost var k: nat := 0;
      NoDraws(start);
      while |r| < n
        invariant |r| <= n && (|r| == 8 * k || |r| == n)
        invariant |r| < n ==> Now() == DrawnTimes(start, k)
        invariant digest == start.digest
        invariant forall i: nat :: i < |r| ==> r[i] == Squeezed(hs, DrawnTimes(start, i / 8))[i % 8] % Pow2(logSize)
        decreases n - |r|
      {
        DrawnTimesSnoc(start, k);
        var words := Squeeze();
        DrawnTimesSnoc(start, k + 1);
        var i := 0;
        while i < 8 && |r| < n
          invariant i <= 8 && |r| == 8 * k + i && |r| <= n
          invariant Now() == DrawnTimes(start, k + 1)
          invariant forall i: nat :: i < |r| ==> r[i] == Squeezed(hs, DrawnTimes(start, i / 8))[i % 8] % Pow2(logSize)
        {
          assert |r| / 8 == k && |r| % 8 == i;
          r := r + [words[i] % Pow2(logSize)];
          i := i + 1;
        }
        k := k + 1;
      }
    }
  }

  /** For a power-of-two bound the two index draws agree. */
  method DrawIndexTwice(a: Channel, b: Channel, k: nat) returns (x: nat, y: nat)
    requires a != b && a.hs == b.hs && a.Now() == b.Now() && k < 32
    modifies a, b
    ensures x == y < Pow2(k) && a.Now() == Drawn(old(a.Now()))
  {
    hide Squeezed, Drawn, NumberOf, WordBytes, LeNumber, Pow2;
    x := a.DrawNumber(Pow2(k));
    var ys := b.DrawQueryIndices(k, 1);
    y := ys[0];
    NoDraws(old(b.Now()));
    NumberIsMaskedWord(Squeezed(a.hs, old(a.Now())), k);
  }

  lemma TwoWords(lo: u32, hi: u32)
    ensures WordBytes([lo, hi]) == LeBytes(lo) + LeBytes(hi)
  {
    hide LeBytes;
    assert [lo, hi][1..] == [hi] && [hi][1..] == [];
    assert WordBytes([hi]) == LeBytes(hi) + WordBytes([]);
  }

  lemma NoDraws(s: State)
    ensures DrawnTimes(s, 0) == s
  {
  }

  /** n numbers below bound, drawn in turn. */
  ghost function Numbers(hs: Hashes, s: State, bound: nat, n: nat): (r: seq<nat>)
    requires bound > 0
    ensures |r| == n && forall i: nat :: i < n ==> r[i] < bound
  {
    seq(n, i requires 0 <= i < n => NumberOf(Squeezed(hs, DrawnTimes(s, i)), bound))
  }

  lemma NumbersSnoc(hs: Hashes, s: State, bound: nat, n: nat)
    requires bound > 0
    ensures Numbers(hs, s, bound, n + 1) == Numbers(hs, s, bound, n) + [NumberOf(Squeezed(hs, DrawnTimes(s, n)), bound)]
  {
    hide Squeezed, NumberOf, DrawnTimes;
  }

  /** Draws leave the digest alone and a mix resets the counter, so extra draws before a mix change nothing after it. */
  lemma DrawsForgotten(hs: Hashes, s: State, n: nat, com: Digest)
    requires Sampling(hs)
    ensures MixedDigest(hs, DrawnTimes(s, n).digest, com) == MixedDigest(hs, s.digest, com)
    ensures MixedDigest(hs, AfterFelt(hs, s).digest, com) == MixedDigest(hs, s.digest, com)
  {
    DrawnTimesSnoc(s, n);
  }
}
