/**
 The Fibonacci trace: filled in sequence, or in eight chunks whose starting values come
 from matrix powers and whose threads may interleave in any way (src/air.rs).
 */
module Fibonacci {
  import opened Bits
  import opened M31Field

  /** F(0) = a, F(1) = b, F(k) = F(k-1) + F(k-2). */
  function Fib(a: M31, b: M31, k: nat): M31
    decreases k
  {
    if k == 0 then a else if k == 1 then b else Add(Fib(a, b, k - 1), Fib(a, b, k - 2))
  }

  // ---- matrix powers ----

  datatype Matrix = Matrix(m00: M31, m01: M31, m10: M31, m11: M31)

  const IDENTITY := Matrix(1, 0, 0, 1)
  const STEP := Matrix(1, 1, 1, 0)

  function MatMul(m: Matrix, n: Matrix): Matrix {
    Matrix(Add(Mul(m.m00, n.m00), Mul(m.m01, n.m10)), Add(Mul(m.m00, n.m01), Mul(m.m01, n.m11)),
           Add(Mul(m.m10, n.m00), Mul(m.m11, n.m10)), Add(Mul(m.m10, n.m01), Mul(m.m11, n.m11)))
  }

  /** The matrix times the column (x, y). */
  function Apply(m: Matrix, v: (M31, M31)): (M31, M31) {
    (Add(Mul(m.m00, v.0), Mul(m.m01, v.1)), Add(Mul(m.m10, v.0), Mul(m.m11, v.1)))
  }

  lemma ApplyProduct(m: Matrix, n: Matrix, v: (M31, M31))
    ensures Apply(MatMul(m, n), v) == Apply(m, Apply(n, v))
  {
    hide Mul, Add;
    ApplyEntry(m.m00, m.m01, n, v);
    ApplyEntry(m.m10, m.m11, n, v);
  }

  lemma ApplyEntry(p: M31, q: M31, n: Matrix, v: (M31, M31))
    ensures Add(Mul(Add(Mul(p, n.m00), Mul(q, n.m10)), v.0), Mul(Add(Mul(p, n.m01), Mul(q, n.m11)), v.1))
         == Add(Mul(p, Add(Mul(n.m00, v.0), Mul(n.m01, v.1))), Mul(q, Add(Mul(n.m10, v.0), Mul(n.m11, v.1))))
  {
    hide Mul, Add;
    SumTimes(Mul(p, n.m00), Mul(q, n.m10), v.0); SumTimes(Mul(p, n.m01), Mul(q, n.m11), v.1);
    MulDistrib(p, Mul(n.m00, v.0), Mul(n.m01, v.1)); MulDistrib(q, Mul(n.m10, v.0), Mul(n.m11, v.1));
    MulAssoc(p, n.m00, v.0); MulAssoc(q, n.m10, v.0); MulAssoc(p, n.m01, v.1); MulAssoc(q, n.m11, v.1);
    Interchange(Mul(p, Mul(n.m00, v.0)), Mul(q, Mul(n.m10, v.0)), Mul(p, Mul(n.m01, v.1)), Mul(q, Mul(n.m11, v.1)));
  }

  lemma SumTimes(x: M31, y: M31, z: M31)
    ensures Mul(Add(x, y), z) == Add(Mul(x, z), Mul(y, z))
  {
    hide Mul, Add;
    MulComm(Add(x, y), z); MulComm(x, z); MulComm(y, z); MulDistrib(z, x, y);
  }

  lemma Interchange(w: M31, x: M31, y: M31, z: M31)
    ensures Add(Add(w, x), Add(y, z)) == Add(Add(w, y), Add(x, z))
  {
  }

  /** base^exp applied to v, by the bits of exp. */
  function PowApply(base: Matrix, exp: nat, v: (M31, M31)): (M31, M31)
    decreases exp, base
  {
    if exp == 0 then v
    else if exp % 2 == 1 then Apply(base, PowApply(MatMul(base, base), exp / 2, v))
    else PowApply(MatMul(base, base), exp / 2, v)
  }

  lemma {:induction false} PowApplySucc(base: Matrix, exp: nat, v: (M31, M31))
    ensures PowApply(base, exp + 1, v) == Apply(base, PowApply(base, exp, v))
    decreases exp
  {
    hide MatMul, Apply;
    if exp % 2 == 1 {
      var square := MatMul(base, base);
      assert (exp + 1) / 2 == exp / 2 + 1;
      PowApplySucc(square, exp / 2, v);
      ApplyProduct(base, base, PowApply(square, exp / 2, v));
    } else {
      assert (exp + 1) / 2 == exp / 2;
    }
  }

  /** k steps take (F(1), F(0)) to (F(k+1), F(k)). */
  lemma {:induction false} StepsAreFib(a: M31, b: M31, k: nat)
    ensures PowApply(STEP, k, (b, a)) == (Fib(a, b, k + 1), Fib(a, b, k))
    decreases k
  {
    hide Apply, PowApply, MatMul, Add;
    if k == 0 {
      NoSteps(STEP, (b, a));
    } else {
      StepsAreFib(a, b, k - 1);
      PowApplySucc(STEP, k - 1, (b, a));
      OneStep(Fib(a, b, k), Fib(a, b, k - 1));
    }
  }

  lemma NoSteps(m: Matrix, v: (M31, M31))
    ensures PowApply(m, 0, v) == v
  {
  }

  lemma OneStep(x: M31, y: M31)
    ensures Apply(STEP, (x, y)) == (Add(x, y), x) && Apply(IDENTITY, (x, y)) == (x, y)
  {
    hide Mul;
    MulUnits(x); MulUnits(y);
  }

  /** fib_at: F(k) and F(k+1) by square and multiply. */
  method FibAt(a: M31, b: M31, k: nat) returns (fk: M31, fk1: M31)
    ensures fk == Fib(a, b, k) && fk1 == Fib(a, b, k + 1)
  {
    hide MatMul, Apply, Fib;
    if k == 0 {
      FirstTwo(a, b);
      return a, b;
    }
    var m, base, exp := IDENTITY, STEP, k;
    ghost var v := (b, a);
    ghost var target := PowApply(STEP, k, v);
    OneStep(target.0, target.1);
    while exp > 0
      invariant Apply(m, PowApply(base, exp, v)) == target
    {
      if exp % 2 == 1 {
        ApplyProduct(m, base, PowApply(MatMul(base, base), exp / 2, v));
        m := MatMul(m, base);
      }
      base := MatMul(base, base);
      exp := exp / 2;
    }
    StepsAreFib(a, b, k);
    ApplyParts(m, b, a);
    fk := Add(Mul(m.m10, b), Mul(m.m11, a));
    fk1 := Add(Mul(m.m00, b), Mul(m.m01, a));
  }

  lemma FirstTwo(a: M31, b: M31)
    ensures Fib(a, b, 0) == a && Fib(a, b, 1) == b
  {
  }

  lemma ApplyParts(m: Matrix, x: M31, y: M31)
    ensures Apply(m, (x, y)) == (Add(Mul(m.m00, x), Mul(m.m01, y)), Add(Mul(m.m10, x), Mul(m.m11, y)))
  {
  }

  lemma FibNext(a: M31, b: M31, i: nat)
    requires i >= 2
    ensures Fib(a, b, i) == Add(Fib(a, b, i - 1), Fib(a, b, i - 2))
  {
    hide Add;
  }

  // ---- the sequential trace ----

  /** fibonacci_trace */
  method FibonacciTrace(a: M31, b: M31, logN: nat) returns (trace: array<M31>)
    requires logN >= 1
    ensures fresh(trace) && trace.Length == Pow2(logN)
    ensures forall i: nat :: i < trace.Length ==> trace[i] == Fib(a, b, i)
  {
    hide Add, Fib, Pow2;
    var n := Pow2(logN);
    Pow2Unfold(logN);
    FirstTwo(a, b);
    trace := new M31[n](_ => 0);
    trace[0] := a;
    trace[1] := b;
    for i := 2 to n
      invariant forall j: nat :: j < i ==> trace[j] == Fib(a, b, j)
    {
      FibNext(a, b, i);
      trace[i] := Add(trace[i - 1], trace[i - 2]);
    }
  }

  // ---- the chunked trace ----

  const PARALLEL_MIN: nat := 131072
  const CHUNKS: nat := 8

  /** c * size, as repeated addition. */
  function Start(c: nat, size: nat): nat
    decreases c
  {
    if c == 0 then 0 else Start(c - 1, size) + size
  }

  lemma {:induction false} StartIs(c: nat, size: nat)
    ensures Start(c, size) == c * size
    decreases c
  {
    if c == 0 {
      assert 0 * size == 0;
    } else {
      StartIs(c - 1, size);
      assert c * size == (c - 1) * size + size;
    }
  }

  lemma {:induction false} ChunksApart(c: nat, d: nat, size: nat)
    requires c < d
    ensures Start(c, size) + size <= Start(d, size)
    decreases d
  {
    if c < d - 1 { ChunksApart(c, d - 1, size); }
  }

  /** Chunk c holds the right values in its first done[c] slots. */
  ghost predicate ChunkDone(out: seq<M31>, a: M31, b: M31, c: nat, size: nat, done: nat) {
    forall j: nat :: Start(c, size) <= j < Start(c, size) + done && j < |out| ==> out[j] == Fib(a, b, j)
  }

  ghost predicate ChunksDone(out: seq<M31>, a: M31, b: M31, size: nat, done: seq<nat>) {
    |done| == CHUNKS && forall c: nat :: c < CHUNKS ==> done[c] <= size && ChunkDone(out, a, b, c, size, done[c])
  }

  /** One write of one thread keeps every chunk's progress. */
  lemma WriteKeepsChunks(out: seq<M31>, a: M31, b: M31, size: nat, done: seq<nat>, c: nat, v: M31)
    requires ChunksDone(out, a, b, size, done) && c < CHUNKS && done[c] < size && Start(CHUNKS, size) <= |out|
    requires v == Fib(a, b, Start(c, size) + done[c])
    ensures Start(c, size) + done[c] < |out|
    ensures ChunksDone(out[Start(c, size) + done[c] := v], a, b, size, done[c := done[c] + 1])
  {
    hide Fib;
    ChunksApart(c, CHUNKS, size);
    var slot := Start(c, size) + done[c];
    var out', done' := out[slot := v], done[c := done[c] + 1];
    forall d: nat | d < CHUNKS ensures ChunkDone(out', a, b, d, size, done'[d]) {
      assert ChunkDone(out, a, b, d, size, done[d]);
      if d < c { ChunksApart(d, c, size); }
      if c < d { ChunksApart(c, d, size); }
    }
  }

  /**
   fibonacci_trace_parallel. Each thread fills its chunk slot by slot; the loop picks any
   thread with work left, so every interleaving of the eight threads is covered.
   */
  method FibonacciTraceParallel(a: M31, b: M31, logN: nat, out: array<M31>)
    requires logN >= 1 && out.Length >= Pow2(logN)
    modifies out
    ensures forall i: nat :: i < Pow2(logN) ==> out[i] == Fib(a, b, i)
    ensures forall i: nat :: Pow2(logN) <= i < out.Length ==> out[i] == old(out[i])
  {
    hide Add, Fib, Pow2;
    var n := Pow2(logN);
    Pow2Unfold(logN);
    FirstTwo(a, b);
    if n <= PARALLEL_MIN {
      out[0] := a;
      out[1] := b;
      for i := 2 to n
        invariant forall j: nat :: j < i ==> out[j] == Fib(a, b, j)
        invariant forall j: nat :: n <= j < out.Length ==> out[j] == old(out[j])
      {
        FibNext(a, b, i);
        out[i] := Add(out[i - 1], out[i - 2]);
      }
      return;
    }
    var size := n / CHUNKS;
    EightChunks(logN);
    var starts := ChunkStarts(a, b, size);
    RunThreads(a, b, size, starts, out);
    forall i: nat | i < n ensures out[i] == Fib(a, b, i) {
      InSomeChunk(out[..], a, b, size, i);
    }
  }

  lemma EightChunks(logN: nat)
    requires Pow2(logN) > PARALLEL_MIN
    ensures Start(CHUNKS, Pow2(logN) / CHUNKS) == Pow2(logN) && Pow2(logN) / CHUNKS >= 2
  {
    if logN < 3 { Pow2Monotone(logN, 3); Pow2Table(); }
    Pow2Unfold(logN); Pow2Unfold(logN - 1); Pow2Unfold(logN - 2);
    StartIs(CHUNKS, Pow2(logN) / CHUNKS);
  }

  /** The starting pair of every chunk. */
  method ChunkStarts(a: M31, b: M31, size: nat) returns (starts: seq<(nat, M31, M31)>)
    ensures |starts| == CHUNKS
    ensures forall c: nat :: c < CHUNKS ==>
      starts[c] == (Start(c, size), Fib(a, b, Start(c, size)), Fib(a, b, Start(c, size) + 1))
  {
    hide Fib;
    starts := [];
    for c := 0 to CHUNKS
      invariant |starts| == c
      invariant forall d: nat :: d < c ==>
        starts[d] == (Start(d, size), Fib(a, b, Start(d, size)), Fib(a, b, Start(d, size) + 1))
    {
      StartIs(c, size);
      var fk, fk1 := FibAt(a, b, c * size);
      starts := starts + [(c * size, fk, fk1)];
    }
  }

  /** What thread c writes next: its starting pair, then the sum of its last two values. */
  method NextValue(ghost a: M31, ghost b: M31, ghost size: nat, ghost c: nat, start: (nat, M31, M31), done: nat, out: array<M31>)
    returns (v: M31)
    requires start == (Start(c, size), Fib(a, b, Start(c, size)), Fib(a, b, Start(c, size) + 1))
    requires start.0 + done < out.Length && ChunkDone(out[..], a, b, c, size, done)
    ensures v == Fib(a, b, Start(c, size) + done)
  {
    hide Fib, Add;
    if done == 0 {
      v := start.1;
    } else if done == 1 {
      v := start.2;
    } else {
      PreviousTwo(out[..], a, b, c, size, done);
      v := Add(out[start.0 + done - 1], out[start.0 + done - 2]);
    }
  }

  /** One write of thread c. */
  method OneWrite(ghost a: M31, ghost b: M31, ghost size: nat, c: nat, start: (nat, M31, M31), done: seq<nat>, out: array<M31>)
    requires ChunksDone(out[..], a, b, size, done) && c < CHUNKS && done[c] < size && Start(CHUNKS, size) <= out.Length
    requires start == (Start(c, size), Fib(a, b, Start(c, size)), Fib(a, b, Start(c, size) + 1))
    modifies out
    ensures ChunksDone(out[..], a, b, size, done[c := done[c] + 1])
    ensures forall i: nat :: Start(CHUNKS, size) <= i < out.Length ==> out[i] == old(out[i])
  {
    hide Fib, Start;
    ChunksApart(c, CHUNKS, size);
    ghost var before := out[..];
    assert ChunkDone(before, a, b, c, size, done[c]);
    var v := NextValue(a, b, size, c, start, done[c], out);
    WriteKeepsChunks(before, a, b, size, done, c, v);
    out[start.0 + done[c]] := v;
    assert out[..] == before[start.0 + done[c] := v];
  }

  method RunThreads(a: M31, b: M31, size: nat, starts: seq<(nat, M31, M31)>, out: array<M31>)
    requires |starts| == CHUNKS && Start(CHUNKS, size) <= out.Length
    requires forall c: nat :: c < CHUNKS ==>
      starts[c] == (Start(c, size), Fib(a, b, Start(c, size)), Fib(a, b, Start(c, size) + 1))
    modifies out
    ensures ChunksDone(out[..], a, b, size, seq(CHUNKS, _ => size))
    ensures forall i: nat :: Start(CHUNKS, size) <= i < out.Length ==> out[i] == old(out[i])
  {
    hide Fib, Start, Remaining, ChunksDone;
    var done: seq<nat> := seq(CHUNKS, _ => 0);
    RemainingNonnegative(done, size, CHUNKS);
    NothingDone(out[..], a, b, size);
    while exists c :: 0 <= c < CHUNKS && done[c] < size
      invariant |done| == CHUNKS && forall c: nat :: c < CHUNKS ==> done[c] <= size
      invariant ChunksDone(out[..], a, b, size, done)
      invariant Remaining(done, size, CHUNKS) >= 0
      invariant forall i: nat :: Start(CHUNKS, size) <= i < out.Length ==> out[i] == old(out[i])
      decreases Remaining(done, size, CHUNKS)
    {
      var c: nat :| c < CHUNKS && done[c] < size;
      OneWrite(a, b, size, c, starts[c], done, out);
      OneLess(done, size, c, CHUNKS);
      done := done[c := done[c] + 1];
      RemainingNonnegative(done, size, CHUNKS);
    }
    assert done == seq(CHUNKS, _ => size);
  }

  lemma NothingDone(out: seq<M31>, a: M31, b: M31, size: nat)
    ensures ChunksDone(out, a, b, size, seq(CHUNKS, _ => 0))
  {
  }

  lemma PreviousTwo(out: seq<M31>, a: M31, b: M31, c: nat, size: nat, done: nat)
    requires done >= 2 && Start(c, size) + done < |out| && ChunkDone(out, a, b, c, size, done)
    ensures var i := Start(c, size) + done; Add(out[i - 1], out[i - 2]) == Fib(a, b, i)
  {
    hide Add, Fib;
    FibNext(a, b, Start(c, size) + done);
  }

  /** Writes still to come from the first k threads. */
  ghost function Remaining(done: seq<nat>, size: nat, k: nat): int
    requires k <= |done|
    decreases k
  {
    if k == 0 then 0 else Remaining(done, size, k - 1) + (size - done[k - 1])
  }

  lemma {:induction false} RemainingNonnegative(done: seq<nat>, size: nat, k: nat)
    requires k <= |done| && forall c: nat :: c < |done| ==> done[c] <= size
    ensures Remaining(done, size, k) >= 0
    decreases k
  {
    if k > 0 { RemainingNonnegative(done, size, k - 1); }
  }

  lemma {:induction false} OneLess(done: seq<nat>, size: nat, c: nat, k: nat)
    requires c < |done| && k <= |done| && done[c] < size
    ensures Remaining(done[c := done[c] + 1], size, k) == Remaining(done, size, k) - if c < k then 1 else 0
    decreases k
  {
    if k > 0 { OneLess(done, size, c, k - 1); }
  }

  /** Every slot belongs to one of the eight chunks. */
  lemma InSomeChunk(out: seq<M31>, a: M31, b: M31, size: nat, i: nat)
    requires ChunksDone(out, a, b, size, seq(CHUNKS, _ => size)) && i < Start(CHUNKS, size) <= |out|
    ensures out[i] == Fib(a, b, i)
  {
    hide Fib;
    var c := ChunkOf(size, i, CHUNKS);
    assert seq(CHUNKS, _ => size)[c] == size;
    assert ChunkDone(out, a, b, c, size, seq(CHUNKS, _ => size)[c]);
  }

  lemma {:induction false} ChunkOf(size: nat, i: nat, k: nat) returns (c: nat)
    requires i < Start(k, size)
    ensures c < k && Start(c, size) <= i < Start(c, size) + size
    decreases k
  {
    if Start(k - 1, size) <= i { c := k - 1; } else { c := ChunkOf(size, i, k - 1); }
  }

  // ---- the constraint ----

  /** eval_transition */
  function EvalTransition(ti: M31, ti1: M31, ti2: M31): M31 { Sub(Sub(ti2, ti1), ti) }

  lemma TransitionZeroIff(ti: M31, ti1: M31, ti2: M31)
    ensures EvalTransition(ti, ti1, ti2) == 0 <==> ti2 == Add(ti1, ti)
  {
  }

  /** Raising the last value by v raises the constraint by v. */
  lemma TransitionSlope(ti: M31, ti1: M31, ti2: M31, v: M31)
    ensures EvalTransition(ti, ti1, Add(ti2, v)) == Add(EvalTransition(ti, ti1, ti2), v)
  {
  }

  /** A column satisfies the boundary and every transition exactly when it is the Fibonacci trace. */
  lemma {:induction false} ConstraintsDetermineTrace(t: seq<M31>, a: M31, b: M31)
    requires |t| >= 2
    ensures (t[0] == a && t[1] == b && forall i: nat :: i + 2 < |t| ==> EvalTransition(t[i], t[i + 1], t[i + 2]) == 0)
       <==> forall i: nat :: i < |t| ==> t[i] == Fib(a, b, i)
  {
    hide Add, EvalTransition;
    if t[0] == a && t[1] == b && forall i: nat :: i + 2 < |t| ==> EvalTransition(t[i], t[i + 1], t[i + 2]) == 0 {
      for n := 2 to |t|
        invariant forall i: nat :: i < n ==> t[i] == Fib(a, b, i)
      {
        assert EvalTransition(t[n - 2], t[n - 2 + 1], t[n - 2 + 2]) == 0;
        TransitionZeroIff(t[n - 2], t[n - 1], t[n]);
      }
    }
    if forall i: nat :: i < |t| ==> t[i] == Fib(a, b, i) {
      FirstTwo(a, b);
      forall i: nat | i + 2 < |t| ensures EvalTransition(t[i], t[i + 1], t[i + 2]) == 0 {
        TransitionZeroIff(t[i], t[i + 1], t[i + 2]);
      }
    }
  }
}
