/**
 The flat twiddle buffer of the NTT cache and its inverses (src/ntt.rs).
 */
module TwiddleCache {
  import opened Bits
  import opened M31Field
  import opened CircleGroup
  import opened CircleDomain
  import opened MersennePrime
  import opened LineIfft
  import opened BatchInverse

  /** One layer: x-coordinates of the first half of the half-odds domain, bit-reversed. */
  function TwiddleLayer(logSize: nat): (r: seq<M31>)
    requires 1 <= logSize <= 30
    ensures |r| == Pow2(logSize - 1)
  {
    seq(Pow2(logSize - 1), i requires 0 <= i < Pow2(logSize - 1) => DomainX(logSize, BitRev(i, logSize - 1)))
  }

  /** All layers from the largest domain down, then the single 1. */
  function FlatTwiddles(logSize: nat): (r: seq<M31>)
    requires logSize <= 30
    decreases logSize
  {
    hide TwiddleLayer;
    if logSize == 0 then [1] else TwiddleLayer(logSize) + FlatTwiddles(logSize - 1)
  }

  /** The layers and the 1 fill the buffer exactly: no slot is left for padding. */
  lemma {:induction false} FlatTwiddlesFill(logSize: nat)
    requires logSize <= 30
    ensures |FlatTwiddles(logSize)| == Pow2(logSize)
    decreases logSize
  {
    hide TwiddleLayer;
    if logSize > 0 { FlatTwiddlesFill(logSize - 1); }
  }

  /** Layer l of the buffer starts at slot 2^n - 2^(n-l). */
  lemma {:induction false} LayerSlots(logSize: nat, l: nat, i: nat)
    requires l < logSize <= 30 && i < Pow2(logSize - l - 1)
    ensures var slot := Pow2(logSize) - Pow2(logSize - l) + i;
            && 0 <= slot < |FlatTwiddles(logSize)|
            && FlatTwiddles(logSize)[slot] == DomainX(logSize - l, BitRev(i, logSize - l - 1))
    decreases l
  {
    hide DomainX, BitRev, Pow2;
    FlatTwiddlesFill(logSize);
    Pow2Unfold(logSize);
    Pow2Unfold(logSize - l);
    FlatUnfold(logSize);
    if l > 0 {
      Pow2Monotone(logSize - l, logSize - 1);
      LayerSlots(logSize - 1, l - 1, i);
      var slot := Pow2(logSize - 1) - Pow2(logSize - l) + i;
      assert FlatTwiddles(logSize)[Pow2(logSize - 1) + slot] == FlatTwiddles(logSize - 1)[slot];
    }
  }

  lemma FlatUnfold(logSize: nat)
    requires 1 <= logSize <= 30
    ensures FlatTwiddles(logSize) == TwiddleLayer(logSize) + FlatTwiddles(logSize - 1)
  {
    hide TwiddleLayer;
  }

  /** No twiddle is zero. */
  lemma {:induction false} FlatTwiddlesNonzero(logSize: nat)
    requires logSize <= 29
    ensures 0 !in FlatTwiddles(logSize)
    decreases logSize
  {
    hide DomainX, BitRev, Pow2;
    if logSize > 0 {
      FlatTwiddlesNonzero(logSize - 1);
      forall i | 0 <= i < |TwiddleLayer(logSize)| ensures TwiddleLayer(logSize)[i] != 0 {
        DomainXNonzero(logSize, BitRev(i, logSize - 1));
      }
    }
  }

  /** Doubling a half-odds coset gives the half-odds coset of half the size. */
  lemma HalfOddsDoubled(logSize: nat)
    requires 1 <= logSize <= 29
    ensures var c := HalfOdds(logSize);
            Coset(PMul(c.initial, c.initial), PMul(c.step, c.step), logSize - 1) == HalfOdds(logSize - 1)
  {
    hide PMul, PPow, Pow2;
    HalfOddsParts(logSize); HalfOddsParts(logSize - 1);
    PowerDoubled(29 - logSize);
    PowerDoubled(31 - logSize);
  }

  lemma HalfOddsParts(logSize: nat)
    requires logSize <= 29
    ensures HalfOdds(logSize) == Coset(PPow(GENERATOR, Pow2(29 - logSize)), PPow(GENERATOR, Pow2(31 - logSize)), logSize)
  {
  }

  lemma PowerDoubled(m: nat)
    ensures PMul(PPow(GENERATOR, Pow2(m)), PPow(GENERATOR, Pow2(m))) == PPow(GENERATOR, Pow2(m + 1))
  {
    hide PMul, PPow, Pow2;
    PPowAdd(GENERATOR, Pow2(m), Pow2(m));
    Pow2Unfold(m + 1);
  }

  // ---- the builder ----

  /** x-coordinates of the first half of the coset, in natural order. */
  method FirstHalf(c: Coset) returns (xs: seq<M31>)
    requires 1 <= c.logSize
    ensures |xs| == Pow2(c.logSize - 1) && forall j :: 0 <= j < |xs| ==> xs[j] == At(c, j).x
  {
    hide PMul, PPow, Pow2;
    xs := [];
    var pt := c.initial;
    PPowZero(c.step);
    PMulIdentity(c.initial);
    for j := 0 to Pow2(c.logSize - 1)
      invariant |xs| == j && pt == At(c, j)
      invariant forall i :: 0 <= i < j ==> xs[i] == At(c, i).x
    {
      xs := xs + [pt.x];
      pt := PMul(pt, c.step);
      PPowSucc(c.step, j);
      PMulComm(c.step, PPow(c.step, j));
      PMulAssoc(c.initial, PPow(c.step, j), c.step);
    }
  }

  /** Scatter to bit-reversed slots. */
  method ScatterBitReversed(xs: seq<M31>, layerLog: nat) returns (brt: seq<M31>)
    requires |xs| == Pow2(layerLog)
    ensures brt == BitRevPermuted(xs, layerLog)
  {
    hide Pow2, BitRev;
    brt := seq(|xs|, _ => 0);
    for i := 0 to |xs|
      invariant |brt| == |xs|
      invariant forall j :: 0 <= j < |xs| && BitRev(j, layerLog) < i ==> brt[j] == xs[BitRev(j, layerLog)]
    {
      BitRevBound(i, layerLog);
      BitRevInvolution(i, layerLog);
      forall j | 0 <= j < |xs| && BitRev(j, layerLog) == i ensures j == BitRev(i, layerLog) {
        BitRevInvolution(j, layerLog);
      }
      brt := brt[BitRev(i, layerLog) := xs[i]];
    }
    forall j: nat | j < |xs| ensures BitRev(j, layerLog) < |xs| {
      BitRevBound(j, layerLog);
    }
  }

  /** The forward buffer: one layer per doubling of the twiddle coset, a 1, and padding that never happens. */
  method BuildForward(logN: nat) returns (fwd: seq<M31>)
    requires 1 <= logN <= 30
    ensures fwd == FlatTwiddles(logN - 1)
  {
    hide PMul, PPow, Pow2, BitRev, FlatTwiddles, HalfOdds, At;
    var top := logN - 1;
    var tcSize := Pow2(top);
    fwd := [];
    var current := HalfOdds(top);
    HalfOddsSize(top);
    for l := 0 to top
      invariant current == HalfOdds(top - l) && current.logSize == top - l
      invariant fwd + FlatTwiddles(top - l) == FlatTwiddles(top)
    {
      var xs := FirstHalf(current);
      var brt := ScatterBitReversed(xs, current.logSize - 1);
      LayerIs(xs, brt, top - l);
      FlatUnfold(top - l);
      assert fwd + (brt + FlatTwiddles(top - l - 1)) == (fwd + brt) + FlatTwiddles(top - l - 1);
      fwd := fwd + brt;
      HalfOddsDoubled(top - l); HalfOddsSize(top - l - 1);
      current := Coset(PMul(current.initial, current.initial), PMul(current.step, current.step), current.logSize - 1);
    }
    LastIsOne();
    fwd := fwd + [1];
    ghost var n := |fwd|;
    while |fwd| < tcSize
      invariant n <= |fwd| && fwd[..n] == FlatTwiddles(top)
      invariant |fwd| == n || |fwd| <= tcSize
      decreases tcSize - |fwd|
    {
      fwd := fwd + [0];
    }
    FlatTwiddlesFill(top);
    fwd := fwd[..tcSize];
  }

  lemma HalfOddsSize(logSize: nat)
    requires logSize <= 30
    ensures HalfOdds(logSize).logSize == logSize
  {
  }

  lemma LastIsOne()
    ensures FlatTwiddles(0) == [1]
  {
  }

  lemma LayerIs(xs: seq<M31>, brt: seq<M31>, logSize: nat)
    requires 1 <= logSize <= 29 && |xs| == Pow2(logSize - 1)
    requires forall j :: 0 <= j < |xs| ==> xs[j] == At(HalfOdds(logSize), j).x
    requires brt == BitRevPermuted(xs, logSize - 1)
    ensures brt == TwiddleLayer(logSize)
  {
    hide Pow2, BitRev, HalfOdds, At;
    forall i | 0 <= i < |brt| ensures brt[i] == TwiddleLayer(logSize)[i] {
      BitRevBound(i, logSize - 1);
    }
  }

  /** StwoNttCache::new: forward twiddles and their inverses, slot by slot. */
  method NewCache(logN: nat) returns (fwd: seq<M31>, inv: seq<M31>)
    requires 1 <= logN <= 30
    ensures fwd == FlatTwiddles(logN - 1) && |fwd| == |inv| == Pow2(logN - 1)
    ensures forall i :: 0 <= i < |fwd| ==> fwd[i] != 0 && Mul(fwd[i], inv[i]) == 1
  {
    hide FlatTwiddles, Inverse, Pow2, Mul;
    fwd := BuildForward(logN);
    FlatTwiddlesFill(logN - 1);
    FlatTwiddlesNonzero(logN - 1);
    var copy := new M31[|fwd|](i requires 0 <= i < |fwd| => fwd[i]);
    assert copy[..] == fwd;
    BatchInvertInPlace(copy);
    inv := copy[..];
    forall i | 0 <= i < |fwd| ensures fwd[i] != 0 && Mul(fwd[i], inv[i]) == 1 {
      assert fwd[i] in fwd;
      InverseCorrect(fwd[i]);
    }
  }
}
