/**
 last_layer_poly_coeffs and eval_last_layer_poly as the source runs them:
 bit reversal and butterflies in place, level by level (src/fri.rs).
 */
module LastLayerInPlace {
  import opened Bits
  import opened M31Field
  import opened CircleGroup
  import opened SecureField
  import opened LinePoly
  import opened LineIfft
  import opened LastLayer

  // ---- one level over all chunks ----

  /** The butterflies of one chunk of 2^m values. */
  function Butterfly(e: seq<QM31>, m: nat): (r: seq<QM31>)
    requires 1 <= m <= 30 && |e| == Pow2(m)
    ensures |r| == |e|
  {
    Sums(e) + Diffs(e, m)
  }

  lemma ChunkCount(chunks: nat, m: nat)
    requires chunks >= 1
    ensures Shl(chunks, m) == Pow2(m) + Shl(chunks - 1, m)
  {
    ShlSum(1, chunks - 1, m);
    ShlOfOne(m);
  }

  /** One level of the transform: every chunk of 2^m values in turn. */
  function Level(e: seq<QM31>, m: nat, chunks: nat): (r: seq<QM31>)
    requires 1 <= m <= 30 && |e| == Shl(chunks, m)
    ensures |r| == |e|
    decreases chunks
  {
    if chunks == 0 then ShlOfOne(m); []
    else
      ChunkCount(chunks, m);
      Butterfly(e[..Pow2(m)], m) + Level(e[Pow2(m)..], m, chunks - 1)
  }

  /** The levels m, m-1, ..., 1. */
  function Levels(e: seq<QM31>, m: nat, chunks: nat): (r: seq<QM31>)
    requires m <= 30 && |e| == Shl(chunks, m)
    ensures |r| == |e|
    decreases m
  {
    if m == 0 then e
    else ShlInner(chunks, m - 1); Levels(Level(e, m, chunks), m - 1, 2 * chunks)
  }

  /** The recursive transform applied to each chunk. */
  function IfftChunks(e: seq<QM31>, m: nat, chunks: nat): (r: seq<QM31>)
    requires m <= 30 && |e| == Shl(chunks, m)
    ensures |r| == |e|
    decreases chunks
  {
    if chunks == 0 then ShlOfOne(m); []
    else
      ChunkCount(chunks, m);
      Ifft(e[..Pow2(m)], m) + IfftChunks(e[Pow2(m)..], m, chunks - 1)
  }

  lemma IfftChunksCons(b: seq<QM31>, rest: seq<QM31>, m: nat, chunks: nat)
    requires m <= 30 && |b| == Pow2(m) && |rest| == Shl(chunks, m)
    ensures Shl(chunks + 1, m) == |b| + |rest|
    ensures IfftChunks(b + rest, m, chunks + 1) == Ifft(b, m) + IfftChunks(rest, m, chunks)
  {
    hide Ifft;
    ChunkCount(chunks + 1, m);
    assert (b + rest)[..Pow2(m)] == b && (b + rest)[Pow2(m)..] == rest;
  }

  /** Transforming a level's half-chunks transforms its chunks. */
  lemma {:induction false} ChunksOfLevel(e: seq<QM31>, m: nat, chunks: nat)
    requires 1 <= m <= 30 && |e| == Shl(chunks, m)
    ensures Shl(2 * chunks, m - 1) == |e|
    ensures IfftChunks(Level(e, m, chunks), m - 1, 2 * chunks) == IfftChunks(e, m, chunks)
    decreases chunks
  {
    hide Ifft, Sums, Diffs, Shl, Pow2;
    ShlInner(chunks, m - 1);
    ShlUnfold(chunks, m);
    if chunks == 0 {
      ShlOfOne(m);
    } else {
      ChunkCount(chunks, m);
      Pow2Unfold(m);
      var b, rest := e[..Pow2(m)], e[Pow2(m)..];
      ChunksOfLevel(rest, m, chunks - 1);
      var tail := Level(rest, m, chunks - 1);
      LevelLengths(b, m);
      IfftUnfold(b, m);
      assert Butterfly(b, m) + tail == Sums(b) + (Diffs(b, m) + tail);
      IfftChunksCons(Diffs(b, m), tail, m - 1, 2 * (chunks - 1));
      IfftChunksCons(Sums(b), Diffs(b, m) + tail, m - 1, 2 * (chunks - 1) + 1);
    }
  }

  lemma ShlUnfold(x: nat, k: nat)
    requires k >= 1
    ensures Shl(x, k) == 2 * Shl(x, k - 1)
  {
  }

  /** Going level by level over the whole buffer is the recursive transform. */
  lemma {:induction false} LevelsAreIfft(e: seq<QM31>, m: nat, chunks: nat)
    requires m <= 30 && |e| == Shl(chunks, m)
    ensures Levels(e, m, chunks) == IfftChunks(e, m, chunks)
    decreases m
  {
    hide Sums, Diffs, Level;
    if m == 0 {
      IfftOfSingles(e, chunks);
    } else {
      ShlInner(chunks, m - 1);
      LevelsAreIfft(Level(e, m, chunks), m - 1, 2 * chunks);
      ChunksOfLevel(e, m, chunks);
    }
  }

  lemma {:induction false} IfftOfSingles(e: seq<QM31>, chunks: nat)
    requires |e| == Shl(chunks, 0)
    ensures IfftChunks(e, 0, chunks) == e
    decreases chunks
  {
    if chunks > 0 {
      IfftOfSingles(e[1..], chunks - 1);
      assert e == e[..1] + e[1..];
    }
  }

  lemma LevelsOfOneChunk(e: seq<QM31>, m: nat)
    requires m <= 30 && |e| == Pow2(m)
    ensures Shl(1, m) == |e|
    ensures Levels(e, m, 1) == Ifft(e, m)
  {
    hide Ifft, Levels;
    ShlOfOne(m);
    LevelsAreIfft(e, m, 1);
    IfftChunksCons(e, [], m, 0);
    assert e + [] == e;
    assert IfftChunks([], m, 0) == [];
    assert Ifft(e, m) + [] == Ifft(e, m);
  }

  // ---- in place ----

  lemma ButterflyAt(e: seq<QM31>, m: nat, k: nat)
    requires 1 <= m <= 30 && |e| == Pow2(m) && k < Pow2(m) / 2
    ensures Pow2(m) == 2 * (Pow2(m) / 2)
    ensures Butterfly(e, m)[k] == QAdd(e[k], e[k + Pow2(m) / 2])
    ensures Butterfly(e, m)[k + Pow2(m) / 2]
         == QScale(QSub(e[k], e[k + Pow2(m) / 2]), Inverse(DomainX(m, k)))
  {
    hide QAdd, QSub, QScale, DomainX, Inverse;
  }

  /** After i butterflies: both halves are done up to i, the rest of the chunk and of s is as in was. */
  ghost predicate Halfway(s: seq<QM31>, was: seq<QM31>, r: seq<QM31>, base: nat, half: nat, i: nat)
    requires |s| == |was| && |r| == 2 * half && base + 2 * half <= |s| && i <= half
  {
    forall k: nat :: k < |s| ==>
      s[k] == if base <= k < base + i || base + half <= k < base + half + i then r[k - base] else was[k]
  }

  lemma ButterflyStep(s: seq<QM31>, was: seq<QM31>, r: seq<QM31>, base: nat, half: nat, i: nat)
    requires |s| == |was| && |r| == 2 * half && base + 2 * half <= |s| && i < half
    requires Halfway(s, was, r, base, half, i)
    ensures Halfway(s[base + i := r[i]][base + half + i := r[half + i]], was, r, base, half, i + 1)
  {
  }

  /** The ibutterfly loop over the two halves of the chunk at base. */
  method ButterflyInPlace(a: array<QM31>, base: nat, m: nat)
    requires 1 <= m <= 30 && base + Pow2(m) <= a.Length
    modifies a
    ensures a[base..base + Pow2(m)] == Butterfly(old(a[base..base + Pow2(m)]), m)
    ensures forall k :: 0 <= k < base || base + Pow2(m) <= k < a.Length ==> a[k] == old(a[k])
  {
    hide *;
    var half := Pow2(m) / 2;
    Pow2Unfold(m);
    ghost var was := a[..];
    ghost var e := was[base..base + Pow2(m)];
    ghost var r := Butterfly(e, m);
    NothingDone(was, r, base, half);
    for i := 0 to half
      invariant Halfway(a[..], was, r, base, half, i)
    {
      var xInv := Inverse(DomainX(m, i));
      ghost var s := a[..];
      Untouched(s, was, r, base, half, i);
      var tmp, other := a[base + i], a[base + half + i];
      ButterflyAt(e, m, i);
      ButterflyStep(s, was, r, base, half, i);
      a[base + i] := QAdd(tmp, other);
      a[base + half + i] := QScale(QSub(tmp, other), xInv);
      assert a[..] == s[base + i := r[i]][base + half + i := r[half + i]];
    }
    AllDone(a[..], was, r, base, half);
    assert a[base..base + Pow2(m)] == a[..][base..base + Pow2(m)];
  }

  lemma NothingDone(was: seq<QM31>, r: seq<QM31>, base: nat, half: nat)
    requires |r| == 2 * half && base + 2 * half <= |was|
    ensures Halfway(was, was, r, base, half, 0)
  {
  }

  lemma Untouched(s: seq<QM31>, was: seq<QM31>, r: seq<QM31>, base: nat, half: nat, i: nat)
    requires |s| == |was| && |r| == 2 * half && base + 2 * half <= |s| && i < half
    requires Halfway(s, was, r, base, half, i)
    ensures s[base + i] == was[base..base + 2 * half][i] && s[base + half + i] == was[base..base + 2 * half][half + i]
  {
  }

  lemma AllDone(s: seq<QM31>, was: seq<QM31>, r: seq<QM31>, base: nat, half: nat)
    requires |s| == |was| && |r| == 2 * half && base + 2 * half <= |s|
    requires Halfway(s, was, r, base, half, half)
    ensures s[base..base + 2 * half] == r
    ensures forall k: nat :: k < base || base + 2 * half <= k < |s| ==> s[k] == was[k]
  {
  }

  lemma {:induction false} LevelAppend(e: seq<QM31>, b: seq<QM31>, m: nat, chunks: nat)
    requires 1 <= m <= 30 && |e| == Shl(chunks, m) && |b| == Pow2(m)
    ensures |e + b| == Shl(chunks + 1, m)
    ensures Level(e + b, m, chunks + 1) == Level(e, m, chunks) + Butterfly(b, m)
    decreases chunks
  {
    hide Butterfly, Shl, Pow2;
    ChunkCount(chunks + 1, m);
    if chunks == 0 {
      ShlOfOne(m);
      assert e + b == b;
      assert b[..Pow2(m)] == b && b[Pow2(m)..] == [];
      assert Level(b, m, 1) == Butterfly(b, m) + Level([], m, 0);
    } else {
      ChunkCount(chunks, m);
      LevelAppend(e[Pow2(m)..], b, m, chunks - 1);
      assert (e + b)[..Pow2(m)] == e[..Pow2(m)];
      assert (e + b)[Pow2(m)..] == e[Pow2(m)..] + b;
    }
  }

  /** One pass of the chunk loop. */
  method LevelInPlace(a: array<QM31>, m: nat, chunks: nat)
    requires 1 <= m <= 30 && a.Length == Shl(chunks, m)
    modifies a
    ensures a[..] == Level(old(a[..]), m, chunks)
  {
    hide Butterfly, Level, Shl, Pow2;
    ghost var e := a[..];
    var base := 0;
    ShlOfOne(m);
    assert Level([], m, 0) == [] by { LevelEmpty(m); }
    for c := 0 to chunks
      invariant base == Shl(c, m) <= a.Length
      invariant |e[..base]| == Shl(c, m)
      invariant a[..base] == Level(e[..base], m, c)
      invariant a[base..] == e[base..]
    {
      ChunkCount(c + 1, m);
      ShlMonotone(c + 1, chunks, m);
      var next := base + Pow2(m);
      ghost var chunk := e[base..next];
      assert a[base..next] == a[base..][..Pow2(m)] == chunk;
      assert a[next..] == a[base..][Pow2(m)..] == e[next..];
      LevelAppend(e[..base], chunk, m, c);
      assert e[..base] + chunk == e[..next];
      ghost var before := a[..];
      ButterflyInPlace(a, base, m);
      assert a[..base] == before[..base];
      assert a[base..next] == Butterfly(chunk, m);
      assert a[..next] == a[..base] + a[base..next];
      assert a[next..] == before[next..];
      base := next;
    }
    assert a[..] == a[..base] && e[..base] == e;
  }

  lemma LevelEmpty(m: nat)
    requires 1 <= m <= 30
    ensures Shl(0, m) == 0 && Level([], m, 0) == []
  {
    ShlOfOne(m);
  }

  /** The level loop, from the whole buffer down to pairs. */
  method LineIfftInPlace(a: array<QM31>, logN: nat)
    requires logN <= 30 && a.Length == Pow2(logN)
    modifies a
    ensures a[..] == Ifft(old(a[..]), logN)
  {
    hide Level, Shl, Pow2, Ifft;
    ghost var e := a[..];
    LevelsOfOneChunk(e, logN);
    var chunkSize: nat, domLog: nat, chunks: nat := a.Length, logN, 1;
    while chunkSize > 1
      invariant domLog <= logN && chunkSize == Pow2(domLog) && a.Length == Shl(chunks, domLog)
      invariant Levels(a[..], domLog, chunks) == Ifft(e, logN)
    {
      assert domLog >= 1 by { Pow2Zero(); }
      ShlInner(chunks, domLog - 1);
      ShlUnfold(chunks, domLog);
      Pow2Unfold(domLog);
      LevelInPlace(a, domLog, chunks);
      domLog, chunkSize, chunks := domLog - 1, chunkSize / 2, 2 * chunks;
    }
    assert domLog == 0 by { if domLog > 0 { Pow2Unfold(domLog); } }
  }

  /** last_layer_poly_coeffs: all coefficients, cut to the first 8. */
  method LastLayerPolyCoeffs(eval: seq<QM31>) returns (coeffs: seq<QM31>)
    requires |eval| >= 2 && Pow2(Ilog2(|eval|)) == |eval| && Ilog2(|eval|) <= 30
    ensures var full := Coefficients(eval, Ilog2(|eval|));
            coeffs == if |eval| <= 8 then full else full[..8]
  {
    hide Ifft, Pow2, QScale, Inverse, BitRevPermuted;
    var logN := Ilog2(|eval|);
    var a := new QM31[|eval|](i requires 0 <= i < |eval| => eval[i]);
    assert a[..] == eval;
    PermutedLength(eval, logN);
    BitReverseInPlace(a, logN);
    LineIfftInPlace(a, logN);
    ghost var t := a[..];
    var nInv := Inverse(Red(|eval|));
    for i := 0 to a.Length
      invariant forall k :: 0 <= k < i ==> a[k] == QScale(t[k], nInv)
      invariant forall k :: i <= k < a.Length ==> a[k] == t[k]
    {
      a[i] := QScale(a[i], nInv);
    }
    assert a[..] == Scaled(t, Inverse(SizeElement(logN)));
    BitReverseInPlace(a, logN);
    coeffs := if a.Length <= 8 then a[..] else a[..8];
  }

  /** eval_last_layer_poly: the polynomial at the domain point of a bit-reversed index. */
  method EvalLastLayerPoly(coeffs: seq<QM31>, lastIdx: nat, logSize: nat) returns (r: QM31)
    requires 1 <= logSize <= 30
    requires |coeffs| >= 1 && Pow2(Ilog2(|coeffs|)) == |coeffs|
    ensures r == LineEval(coeffs, DomainX(logSize, BitRev(lastIdx, logSize)))
  {
    hide DomainX, DoubleX, QAdd, QScale, BitRev, Pow2, FoldEval, LineEval;
    var naturalIdx := BitReverse(lastIdx, logSize);
    var x := DomainX(logSize, naturalIdx);
    var n := |coeffs|;
    if n == 1 {
      LineEvalSingle(coeffs, x);
      return coeffs[0];
    }
    var logN := Ilog2(n);
    var doublings, xi := [], x;
    for i := 0 to logN
      invariant |doublings| == i && doublings + Doublings(xi, logN - i) == Doublings(x, logN)
    {
      assert Doublings(xi, logN - i) == [xi] + Doublings(DoubleX(xi), logN - i - 1);
      assert doublings + ([xi] + Doublings(DoubleX(xi), logN - i - 1))
          == (doublings + [xi]) + Doublings(DoubleX(xi), logN - i - 1);
      doublings := doublings + [xi];
      xi := DoubleX(xi);
    }
    assert Doublings(xi, 0) == [];
    assert doublings == Doublings(x, logN);
    var brt := seq(n, _ => QZERO);
    for i := 0 to n
      invariant |brt| == n
      invariant forall k: nat :: k < i ==> BitRev(k, logN) < n && brt[BitRev(k, logN)] == coeffs[k]
    {
      var j := BitReverse(i, logN);
      BitRevBound(i, logN); BitRevInvolution(i, logN);
      forall k: nat | k < i ensures BitRev(k, logN) != j { BitRevInvolution(k, logN); }
      brt := brt[j := coeffs[i]];
    }
    forall j: nat | j < n ensures brt[j] == BitRevPermuted(coeffs, logN)[j] {
      BitRevBound(j, logN); BitRevInvolution(j, logN);
    }
    assert brt == BitRevPermuted(coeffs, logN);
    FoldEvalIsLineEval(coeffs, logN, x);
    r := FoldEval(brt, doublings);
  }

  lemma LineEvalSingle(c: seq<QM31>, x: M31)
    requires |c| == 1
    ensures LineEval(c, x) == c[0]
  {
  }
}
