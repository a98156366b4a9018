/**
 Powers of two, shifts, bit reversal and sibling arithmetic on machine indices.
 Shifts are repeated doubling and halving, so every fact here is linear.
 */
module Bits {

  function Pow2(k: nat): (r: nat)
    ensures r >= 1
  {
    if k == 0 then 1 else 2 * Pow2(k - 1)
  }

  /** x << k */
  function Shl(x: nat, k: nat): nat {
    if k == 0 then x else 2 * Shl(x, k - 1)
  }

  /** x >> k */
  function Shr(x: nat, k: nat): nat {
    if k == 0 then x else Shr(x / 2, k - 1)
  }

  lemma {:induction false} Pow2Monotone(a: nat, b: nat)
    requires a <= b
    ensures Pow2(a) <= Pow2(b)
  {
    if a < b { Pow2Monotone(a, b - 1); }
  }

  lemma Pow2Table()
    ensures Pow2(0) == 1 && Pow2(1) == 2 && Pow2(2) == 4 && Pow2(3) == 8
    ensures Pow2(10) == 1024 && Pow2(16) == 0x1_0000
    ensures Pow2(29) == 0x2000_0000 && Pow2(30) == 0x4000_0000 && Pow2(31) == 0x8000_0000
  {
  }

  lemma {:induction false} ShlOfOne(k: nat)
    ensures Shl(1, k) == Pow2(k) && Shl(0, k) == 0
  {
    if k > 0 { ShlOfOne(k - 1); }
  }

  lemma {:induction false} ShlSum(x: nat, y: nat, k: nat)
    ensures Shl(x + y, k) == Shl(x, k) + Shl(y, k)
  {
    if k > 0 { ShlSum(x, y, k - 1); }
  }

  lemma {:induction false} ShlPow2(a: nat, b: nat)
    ensures Shl(Pow2(a), b) == Pow2(a + b)
  {
    if b > 0 { ShlPow2(a, b - 1); }
  }

  lemma {:induction false} ShlInner(x: nat, k: nat)
    ensures Shl(2 * x, k) == 2 * Shl(x, k)
  {
    if k > 0 { ShlInner(x, k - 1); }
  }

  lemma {:induction false} ShlShl(x: nat, a: nat, b: nat)
    ensures Shl(Shl(x, a), b) == Shl(x, a + b)
  {
    if b > 0 { ShlShl(x, a, b - 1); }
  }

  lemma ShlZero(x: nat)
    ensures Shl(x, 0) == x
  {
  }

  lemma ShlEven(x: nat, k: nat)
    requires k >= 1
    ensures Shl(x, k) % 2 == 0
  {
  }

  lemma {:induction false} ShlMonotone(x: nat, y: nat, k: nat)
    requires x <= y
    ensures Shl(x, k) <= Shl(y, k)
  {
    if k > 0 { ShlMonotone(x, y, k - 1); }
  }

  lemma ShlByFive(x: nat)
    ensures Shl(x, 5) == 32 * x
  {
    assert Shl(x, 1) == 2 * x;
    assert Shl(x, 2) == 4 * x;
    assert Shl(x, 3) == 8 * x;
    assert Shl(x, 4) == 16 * x;
  }

  lemma ShlByTen(x: nat)
    ensures Shl(x, 10) == 1024 * x
  {
    ShlShl(x, 5, 5);
    ShlByFive(x);
    ShlByFive(Shl(x, 5));
  }

  lemma ShrZero(x: nat)
    ensures Shr(x, 0) == x
  {
  }

  lemma {:induction false} ShrSnoc(x: nat, k: nat)
    ensures Shr(x, k + 1) == Shr(x, k) / 2
  {
    if k > 0 { ShrSnoc(x / 2, k - 1); }
  }

  lemma {:induction false} ShrShr(x: nat, a: nat, b: nat)
    ensures Shr(Shr(x, a), b) == Shr(x, a + b)
  {
    if a > 0 { ShrShr(x / 2, a - 1, b); }
  }

  lemma {:induction false} ShrSmall(x: nat, k: nat)
    ensures Shr(x, k) == 0 <==> x < Pow2(k)
  {
    if k > 0 { ShrSmall(x / 2, k - 1); }
  }

  lemma {:induction false} ShrBound(x: nat, a: nat, b: nat)
    requires x < Pow2(a + b)
    ensures Shr(x, a) < Pow2(b)
  {
    if a > 0 { ShrBound(x / 2, a - 1, b); }
  }

  lemma {:induction false} ShrOfSum(q: nat, k: nat, r: nat)
    requires r < Pow2(k)
    ensures Shr(Shl(q, k) + r, k) == q
  {
    if k > 0 { ShrOfSum(q, k - 1, r / 2); }
  }

  lemma {:induction false} ShrAdd(q: nat, r: nat, l: nat)
    ensures Shr(Shl(q, l) + r, l) == q + Shr(r, l)
    decreases l
  {
    if l > 0 {
      assert (Shl(q, l) + r) / 2 == Shl(q, l - 1) + r / 2;
      ShrAdd(q, r / 2, l - 1);
    }
  }

  lemma {:induction false} ShrSplit(w: nat, k: nat) returns (r: nat)
    ensures w == Shl(Shr(w, k), k) + r && r < Pow2(k)
  {
    if k == 0 {
      r := 0;
    } else {
      r := ShrSplit(w / 2, k - 1);
      r := 2 * r + w % 2;
    }
  }

  lemma {:induction false} ShlBelow(r: nat, k: nat, n: nat)
    requires r < Pow2(k)
    ensures Shl(r, n) < Pow2(k + n)
    ensures Shl(r, n) == 0 <==> r == 0
  {
    if n > 0 { ShlBelow(r, k, n - 1); }
  }

  lemma {:induction false} ShlInjective(x: nat, y: nat, k: nat)
    requires Shl(x, k) == Shl(y, k)
    ensures x == y
  {
    if k > 0 { ShlInjective(x, y, k - 1); }
  }

  /** i ^ 1: the other child of the same parent. */
  function Sibling(i: nat): nat {
    if i % 2 == 0 then i + 1 else i - 1
  }

  /** The low b bits of i, read backwards. */
  function BitRev(i: nat, b: nat): nat {
    if b == 0 then 0 else Shl(i % 2, b - 1) + BitRev(i / 2, b - 1)
  }

  lemma {:induction false} BitRevBound(i: nat, b: nat)
    ensures BitRev(i, b) < Pow2(b)
  {
    if b > 0 {
      BitRevBound(i / 2, b - 1);
      ShlOfOne(b - 1);
    }
  }

  /** The loop step of the bit-by-bit reversal. */
  lemma {:induction false} BitRevSnoc(i: nat, b: nat)
    ensures BitRev(i, b + 1) == 2 * BitRev(i, b) + Shr(i, b) % 2
  {
    if b > 0 { BitRevSnoc(i / 2, b - 1); }
  }

  /** Bits at position b and above do not reach a b-bit reversal. */
  lemma {:induction false} BitRevLow(j: nat, hi: nat, b: nat)
    ensures BitRev(Shl(hi, b) + j, b) == BitRev(j, b)
  {
    if b > 0 { BitRevLow(j / 2, hi, b - 1); }
  }

  lemma {:induction false} BitRevInvolution(i: nat, b: nat)
    requires i < Pow2(b)
    ensures BitRev(BitRev(i, b), b) == i
  {
    hide *;
    if b == 0 {
      BitRevOfNothing(i);
    } else {
      var j, bit := BitRev(i / 2, b - 1), i % 2;
      BitRevUnfold(i, b);
      BitRevBound(i / 2, b - 1);
      BitRevSnoc(Shl(bit, b - 1) + j, b - 1);
      BitRevLow(j, bit, b - 1);
      ShrOfSum(bit, b - 1, j);
      Pow2Unfold(b);
      BitRevInvolution(i / 2, b - 1);
    }
  }

  lemma BitRevOfNothing(i: nat)
    requires i < Pow2(0)
    ensures BitRev(BitRev(i, 0), 0) == i
  {
  }

  lemma BitRevUnfold(i: nat, b: nat)
    requires b > 0
    ensures BitRev(i, b) == Shl(i % 2, b - 1) + BitRev(i / 2, b - 1)
  {
  }

  lemma Pow2Unfold(k: nat)
    requires k > 0
    ensures Pow2(k) == 2 * Pow2(k - 1)
  {
  }

  /** Reversing b + c bits puts the reversal of the low b bits on top. */
  lemma {:induction false} BitRevSplit(i: nat, b: nat, c: nat)
    ensures BitRev(i, b + c) == Shl(BitRev(i, b), c) + BitRev(Shr(i, b), c)
  {
    if b == 0 {
      ShlOfOne(c);
    } else {
      BitRevSplit(i / 2, b - 1, c);
      ShlSum(Shl(i % 2, b - 1), BitRev(i / 2, b - 1), c);
      ShlShl(i % 2, b - 1, c);
    }
  }

  /** In a word of w bits, x.reverse_bits() >> (w - n) is the n-bit reversal. */
  lemma WordReverseShifted(x: nat, w: nat, n: nat)
    requires n <= w
    ensures Shr(BitRev(x, w), w - n) == BitRev(x, n)
  {
    BitRevSplit(x, n, w - n);
    BitRevBound(Shr(x, n), w - n);
    ShrOfSum(BitRev(x, n), w - n, BitRev(Shr(x, n), w - n));
  }

  method BitReverse(x: nat, nBits: nat) returns (result: nat)
    ensures result == BitRev(x, nBits)
  {
    result := 0;
    var val := x;
    for k := 0 to nBits
      invariant result == BitRev(x, k)
      invariant val == Shr(x, k)
    {
      BitRevSnoc(x, k);
      ShrSnoc(x, k);
      result := 2 * result + val % 2;
      val := val / 2;
    }
  }

  /** Reordering a power-of-two sequence by bit reversal. */
  function BitRevPermuted<T>(s: seq<T>, b: nat): seq<T>
    requires |s| == Pow2(b)
  {
    seq(|s|, i requires 0 <= i < |s| => BitRevBound(i, b); s[BitRev(i, b)])
  }

  lemma BitRevPermutedTwice<T>(s: seq<T>, b: nat)
    requires |s| == Pow2(b)
    ensures BitRevPermuted(BitRevPermuted(s, b), b) == s
  {
    forall i | 0 <= i < |s|
      ensures BitRevPermuted(BitRevPermuted(s, b), b)[i] == s[i]
    {
      BitRevBound(i, b);
      BitRevInvolution(i, b);
    }
  }
}
