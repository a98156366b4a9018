/**
 Stark field elements as four 64-bit limbs: reduction, bytes, and the repacking into
 nine 28-bit limbs (src/felt252.rs, src/cairo_air/stark252_field.rs).
 */
module Felt252 {
  import opened Bits

  type u64 = x: int | 0 <= x < 0x1_0000_0000_0000_0000
  type Felt = v: seq<u64> | |v| == 4 witness [0, 0, 0, 0]

  const B64: int := 0x1_0000_0000_0000_0000
  const PRIME: Felt := [1, 0, 0, 0x0800_0000_0000_0011]

  // ---- value and reduction ----

  function FourLimbs(a: int, b: int, c: int, d: int): int {
    a + 0x1_0000_0000_0000_0000 * (b + 0x1_0000_0000_0000_0000 * (c + 0x1_0000_0000_0000_0000 * d))
  }

  function Value(v: Felt): nat { FourLimbs(v[0], v[1], v[2], v[3]) }

  predicate Canonical(v: Felt) { Value(v) < Value(PRIME) }

  /** ge_prime: limb by limb from the top. */
  method GePrime(v: Felt) returns (ge: bool)
    ensures ge <==> Value(v) >= Value(PRIME)
  {
    var i := 4;
    while i > 0
      invariant 0 <= i <= 4
      invariant forall j :: i <= j < 4 ==> v[j] == PRIME[j]
    {
      i := i - 1;
      if v[i] > PRIME[i] { return true; }
      if v[i] < PRIME[i] { return false; }
    }
    ge := true;
  }

  /** Low limbs followed by a signed rest, in base 2^64. */
  function Join(low: seq<u64>, rest: int): int
    decreases |low|
  {
    if |low| == 0 then rest else low[0] + 0x1_0000_0000_0000_0000 * Join(low[1..], rest)
  }

  lemma {:induction false} JoinSnoc(low: seq<u64>, x: u64, rest: int)
    ensures Join(low + [x], rest) == Join(low, x + 0x1_0000_0000_0000_0000 * rest)
    decreases |low|
  {
    if |low| == 0 {
      assert ([] + [x])[1..] == [];
    } else {
      assert (low + [x])[1..] == low[1..] + [x];
      JoinSnoc(low[1..], x, rest);
    }
  }

  lemma JoinOfFelt(v: Felt)
    ensures Join(v, 0) == Value(v)
  {
    assert v[1..][1..] == v[2..] && v[2..][1..] == v[3..] && v[3..][1..] == [];
    assert Join(v[3..], 0) == v[3];
    assert Join(v[2..], 0) == v[2] + 0x1_0000_0000_0000_0000 * Join(v[3..], 0);
    assert Join(v[1..], 0) == v[1] + 0x1_0000_0000_0000_0000 * Join(v[2..], 0);
  }

  function Tail(v: seq<u64>): int
    decreases |v|
  {
    if |v| == 0 then 0 else v[0] + 0x1_0000_0000_0000_0000 * Tail(v[1..])
  }

  lemma TailOfFelt(v: Felt)
    ensures Tail(v[0..]) == Value(v) && v[0..] == v
  {
    assert v[0..] == v;
    assert v[1..][1..] == v[2..] && v[2..][1..] == v[3..] && v[3..][1..] == [];
    assert Tail(v[3..]) == v[3];
    assert Tail(v[2..]) == v[2] + 0x1_0000_0000_0000_0000 * Tail(v[3..]);
    assert Tail(v[1..]) == v[1] + 0x1_0000_0000_0000_0000 * Tail(v[2..]);
  }

  /** Two overflowing subtractions: the limb and the borrow out. */
  function SubLimb(x: u64, y: u64, borrow: u64): (r: (u64, u64)) {
    var b1 := x < y;
    var r1: u64 := if b1 then x - y + B64 else x - y;
    var b2 := r1 < borrow;
    var r2: u64 := if b2 then r1 - borrow + B64 else r1 - borrow;
    (r2, (if b1 then 1 else 0) + (if b2 then 1 else 0))
  }

  lemma SubLimbExact(x: u64, y: u64, borrow: u64)
    requires borrow <= 1
    ensures var (r, next) := SubLimb(x, y, borrow); next <= 1 && x - y - borrow == r - 0x1_0000_0000_0000_0000 * next
  {
  }

  lemma TailStep(v: Felt, i: nat)
    requires i < 4
    ensures Tail(v[i..]) == v[i] + 0x1_0000_0000_0000_0000 * Tail(v[i + 1..])
  {
    assert v[i..][1..] == v[i + 1..];
  }

  /** sub_prime: subtraction with borrow, limb by limb. */
  method SubPrime(v: Felt) returns (r: Felt)
    requires Value(v) >= Value(PRIME)
    ensures Value(r) == Value(v) - Value(PRIME)
  {
    hide Value, Tail, SubLimb, Join;
    var out: seq<u64> := [];
    var borrow: u64 := 0;
    TailOfFelt(v); TailOfFelt(PRIME);
    JoinNothing(Tail(v[0..]) - Tail(PRIME[0..]));
    for i := 0 to 4
      invariant |out| == i && 0 <= borrow <= 1
      invariant Join(out, Tail(v[i..]) - Tail(PRIME[i..]) - borrow) == Value(v) - Value(PRIME)
    {
      var (limb, next) := SubLimb(v[i], PRIME[i], borrow);
      SubLimbExact(v[i], PRIME[i], borrow);
      TailStep(v, i); TailStep(PRIME, i);
      JoinSnoc(out, limb, Tail(v[i + 1..]) - Tail(PRIME[i + 1..]) - next);
      out, borrow := out + [limb], next;
    }
    r := out;
    NoTail(v[4..]); NoTail(PRIME[4..]);
    NoFinalBorrow(r, borrow, Value(v) - Value(PRIME));
  }

  lemma JoinNothing(d: int)
    ensures Join([], d) == d
  {
  }

  lemma NoTail(v: seq<u64>)
    requires v == []
    ensures Tail(v) == 0
  {
  }

  lemma NoFinalBorrow(r: Felt, borrow: int, d: int)
    requires 0 <= borrow <= 1 && d >= 0 && Join(r, 0 - borrow) == d
    ensures Value(r) == d
  {
    assert r[1..][1..] == r[2..] && r[2..][1..] == r[3..] && r[3..][1..] == [];
    assert Join(r[3..], 0 - borrow) == r[3] - 0x1_0000_0000_0000_0000 * borrow;
    assert Join(r[2..], 0 - borrow) == r[2] + 0x1_0000_0000_0000_0000 * Join(r[3..], 0 - borrow);
    assert Join(r[1..], 0 - borrow) == r[1] + 0x1_0000_0000_0000_0000 * Join(r[2..], 0 - borrow);
  }

  /** Fp::new: subtract the prime while the value is at least the prime. */
  method New(v: Felt) returns (r: Felt)
    ensures Canonical(r) && Value(r) == Value(v) % Value(PRIME)
    ensures Canonical(v) ==> r == v
  {
    hide Value;
    r := v;
    PrimePositive();
    var ge := GePrime(r);
    ghost var k := 0;
    while ge
      invariant ge <==> Value(r) >= Value(PRIME)
      invariant Value(r) % Value(PRIME) == Value(v) % Value(PRIME)
      invariant Canonical(v) ==> r == v
      decreases Value(r)
    {
      SubtractOnce(Value(r), Value(PRIME));
      r := SubPrime(r);
      ge := GePrime(r);
    }
  }

  lemma PrimePositive()
    ensures Value(PRIME) > 0
  {
  }

  lemma SubtractOnce(x: nat, p: nat)
    requires x >= p > 0
    ensures (x - p) % p == x % p
  {
    var q, r := x / p, x % p;
    assert x - p == p * (q - 1) + r;
    Remainder(x - p, p, q - 1, r);
  }

  lemma Remainder(x: int, p: int, q: int, r: int)
    requires p > 0 && x == p * q + r && 0 <= r < p
    ensures x % p == r
  {
    var q', r' := x / p, x % p;
    var k := q - q';
    DivMod(x, p);
    assert p * k == p * q - p * q';
    if k >= 1 { AtLeastOnce(p, k); }
    if k <= -1 { AtLeastOnce(p, -k); }
  }

  lemma DivMod(x: int, p: int)
    requires p > 0
    ensures x == p * (x / p) + x % p && 0 <= x % p < p
  {
  }

  lemma AtLeastOnce(p: int, k: int)
    requires p > 0 && k >= 1
    ensures p * k >= p
  {
  }

  // ---- bitwise or of disjoint numbers ----

  /** x | y */
  function BitOr(x: nat, y: nat): nat
    decreases x + y
  {
    if x == 0 && y == 0 then 0
    else (if x % 2 == 1 || y % 2 == 1 then 1 else 0) + 2 * BitOr(x / 2, y / 2)
  }

  /** Or of a k-bit number with one shifted past it is their sum. */
  lemma {:induction false} OrIsSum(x: nat, y: nat, k: nat)
    requires x < Pow2(k)
    ensures BitOr(x, Shl(y, k)) == x + Shl(y, k)
    decreases k, y
  {
    if k == 0 {
      OrWithZero(y);
    } else {
      OrIsSum(x / 2, y, k - 1);
      assert Shl(y, k) / 2 == Shl(y, k - 1) && Shl(y, k) % 2 == 0;
    }
  }

  lemma {:induction false} OrWithZero(y: nat)
    ensures BitOr(0, y) == y
  {
    if y > 0 { OrWithZero(y / 2); }
  }

  // ---- little-endian digits ----

  /** n digits of x in base 2^k, lowest first. */
  function Digits(x: nat, k: nat, n: nat): (r: seq<nat>)
    ensures |r| == n
    decreases n
  {
    if n == 0 then [] else [x % Pow2(k)] + Digits(Shr(x, k), k, n - 1)
  }

  /** The number with these base-2^k digits. */
  function FromDigits(ds: seq<nat>, k: nat): nat
    decreases |ds|
  {
    if |ds| == 0 then 0 else ds[0] + Shl(FromDigits(ds[1..], k), k)
  }

  lemma SplitOff(x: nat, k: nat)
    ensures x == x % Pow2(k) + Shl(Shr(x, k), k) && x % Pow2(k) < Pow2(k)
  {
    hide Shl, Shr, Pow2;
    var r := ShrSplit(x, k);
    ShlIsTimes(Shr(x, k), k);
    Remainder(x, Pow2(k), Shr(x, k), r);
  }

  lemma {:induction false} ShlIsTimes(q: nat, k: nat)
    ensures Shl(q, k) == Pow2(k) * q
    decreases k
  {
    if k > 0 { ShlIsTimes(q, k - 1); }
  }

  /** Reading n digits back gives the number, if it has no more. */
  lemma {:induction false} DigitsRoundTrip(x: nat, k: nat, n: nat)
    requires Shr(x, Times(k, n)) == 0
    ensures FromDigits(Digits(x, k, n), k) == x
    decreases n
  {
    hide Shl, Shr, Pow2;
    if n == 0 {
      ShrZero(x);
    } else {
      SplitOff(x, k);
      ShrShr(x, k, Times(k, n - 1));
      DigitsRoundTrip(Shr(x, k), k, n - 1);
      assert Digits(x, k, n)[1..] == Digits(Shr(x, k), k, n - 1);
    }
  }

  /** k * n as repeated addition. */
  function Times(k: nat, n: nat): nat
    decreases n
  {
    if n == 0 then 0 else k + Times(k, n - 1)
  }

  lemma {:induction false} DigitsBelow(x: nat, k: nat, n: nat)
    ensures forall d :: d in Digits(x, k, n) ==> d < Pow2(k)
    decreases n
  {
    hide Shr, Pow2;
    if n > 0 {
      SplitOff(x, k);
      DigitsBelow(Shr(x, k), k, n - 1);
    }
  }

  /** Digits of a concatenation of bit strings. */
  lemma {:induction false} DigitsJoin(a: nat, b: nat, k: nat, n: nat, m: nat)
    requires a < Pow2(Times(k, n))
    ensures Digits(a + Shl(b, Times(k, n)), k, n + m) == Digits(a, k, n) + Digits(b, k, m)
    decreases n
  {
    hide Shl, Shr, Pow2, Digits;
    if n == 0 {
      NoBits(a, b);
      NoDigits(a, k);
      assert [] + Digits(b, k, m) == Digits(b, k, m);
    } else {
      var t := Times(k, n - 1);
      LowDigit(a, b, k, t);
      ShrBound(a, k, t);
      DigitsJoin(Shr(a, k), b, k, n - 1, m);
      NextDigit(a + Shl(b, k + t), k, n + m);
      NextDigit(a, k, n);
      assert [a % Pow2(k)] + (Digits(Shr(a, k), k, n - 1) + Digits(b, k, m)) == ([a % Pow2(k)] + Digits(Shr(a, k), k, n - 1)) + Digits(b, k, m);
    }
  }

  lemma NoBits(a: nat, b: nat)
    requires a < Pow2(0)
    ensures a == 0 && Shl(b, 0) == b
  {
  }

  lemma LowDigit(a: nat, b: nat, k: nat, t: nat)
    ensures (a + Shl(b, k + t)) % Pow2(k) == a % Pow2(k)
    ensures Shr(a + Shl(b, k + t), k) == Shr(a, k) + Shl(b, t)
  {
    hide Shl, Shr, Pow2;
    ShlShl(b, t, k);
    ShrAdd(Shl(b, t), a, k);
    SplitOff(a, k);
    ShlIsTimes(Shl(b, t), k); ShlIsTimes(Shr(a, k), k);
    TimesSum(Pow2(k), Shr(a, k), Shl(b, t));
    Remainder(a + Shl(b, k + t), Pow2(k), Shr(a, k) + Shl(b, t), a % Pow2(k));
  }

  lemma TimesSum(p: int, x: int, y: int)
    ensures p * (x + y) == p * x + p * y
  {
  }

  lemma {:induction false} FromDigitsJoin(a: seq<nat>, b: seq<nat>, k: nat)
    ensures FromDigits(a + b, k) == FromDigits(a, k) + Shl(FromDigits(b, k), Times(k, |a|))
    decreases |a|
  {
    hide Shl;
    if |a| == 0 {
      assert [] + b == b;
      NoBits(0, FromDigits(b, k));
    } else {
      assert (a + b)[1..] == a[1..] + b;
      FromDigitsJoin(a[1..], b, k);
      ShlSum(FromDigits(a[1..], k), Shl(FromDigits(b, k), Times(k, |a| - 1)), k);
      ShlShl(FromDigits(b, k), Times(k, |a| - 1), k);
    }
  }

  lemma {:induction false} FromDigitsBelow(ds: seq<nat>, k: nat)
    requires forall d :: d in ds ==> d < Pow2(k)
    ensures FromDigits(ds, k) < Pow2(Times(k, |ds|))
    decreases |ds|
  {
    hide Shl, Pow2;
    if |ds| > 0 {
      assert ds[0] in ds;
      forall d | d in ds[1..] ensures d < Pow2(k) { assert d in ds; }
      var hi, t := FromDigits(ds[1..], k), Times(k, |ds| - 1);
      FromDigitsBelow(ds[1..], k);
      ShlMonotone(hi + 1, Pow2(t), k);
      ShlSum(hi, 1, k); ShlOfOne(k); ShlPow2(t, k);
    } else {
      assert Pow2(0) == 1 by { Pow2Table(); }
    }
  }

  /** n digits hold exactly the numbers below 2^(k n). */
  lemma DigitsExactIff(x: nat, k: nat, n: nat)
    ensures FromDigits(Digits(x, k, n), k) == x <==> x < Pow2(Times(k, n))
  {
    hide Pow2, Shr, Digits, FromDigits;
    ShrSmall(x, Times(k, n));
    if x < Pow2(Times(k, n)) {
      DigitsRoundTrip(x, k, n);
    } else {
      DigitsBelow(x, k, n);
      FromDigitsBelow(Digits(x, k, n), k);
    }
  }

  // ---- bytes ----

  /** The low-first bytes of all limbs. */
  function LimbBytes(v: seq<u64>): (r: seq<nat>)
    ensures |r| == 8 * |v|
    decreases |v|
  {
    if |v| == 0 then [] else Digits(v[0], 8, 8) + LimbBytes(v[1..])
  }

  lemma ByteTable()
    ensures Pow2(8) == 256 && Pow2(28) == 0x1000_0000 && Pow2(64) == 0x1_0000_0000_0000_0000 && Times(8, 8) == 64
    ensures Times(28, 9) == 252 && Times(8, 32) == 256
  {
    Pow2Table();
    Pow2Unfold(29); Pow2Unfold(32);
    ShlPow2(32, 32); ShlIsTimes(Pow2(32), 32);
    assert Pow2(8) == 256 by { Pow2Unfold(10); Pow2Unfold(9); }
    TimesIs(8, 8); TimesIs(28, 9); TimesIs(8, 32);
  }

  lemma {:induction false} TimesIs(k: nat, n: nat)
    ensures Times(k, n) == k * n
    decreases n
  {
    if n == 0 {
      assert k * 0 == 0;
    } else {
      TimesIs(k, n - 1);
      assert k * n == k + k * (n - 1);
    }
  }

  lemma {:induction false} TailBytes(v: seq<u64>)
    ensures Tail(v) >= 0 && LimbBytes(v) == Digits(Tail(v), 8, 8 * |v|)
    decreases |v|
  {
    hide Digits, Shl, Pow2, Times;
    if |v| > 0 {
      TailBytes(v[1..]);
      ByteTable();
      ShlIsTimes(Tail(v[1..]), 64);
      DigitsJoin(v[0], Tail(v[1..]), 8, 8, 8 * |v[1..]|);
    } else {
      NoDigits(0, 8);
    }
  }

  lemma NoDigits(x: nat, k: nat)
    ensures Digits(x, k, 0) == []
  {
  }

  /** The 32 bytes of an element are its base-256 digits. */
  lemma BytesAreDigits(v: Felt)
    ensures LimbBytes(v) == Digits(Value(v), 8, 32)
  {
    hide LimbBytes, Digits, Value;
    TailOfFelt(v);
    TailBytes(v);
  }

  /** to_le_bytes */
  method ToLeBytes(v: Felt) returns (bytes: seq<nat>)
    ensures bytes == Digits(Value(v), 8, 32)
  {
    hide Digits, Value;
    bytes := [];
    for i := 0 to 4
      invariant bytes + LimbBytes(v[i..]) == LimbBytes(v)
    {
      assert v[i..][1..] == v[i + 1..];
      assert (bytes + Digits(v[i], 8, 8)) + LimbBytes(v[i + 1..]) == bytes + (Digits(v[i], 8, 8) + LimbBytes(v[i + 1..]));
      bytes := bytes + Digits(v[i], 8, 8);
    }
    assert v[4..] == [] && LimbBytes([]) == [];
    BytesAreDigits(v);
  }

  /** from_le_bytes: eight bytes per limb, then reduction. */
  method FromBytes(bytes: seq<nat>) returns (r: Felt)
    requires |bytes| == 32 && forall b :: b in bytes ==> b < 256
    ensures Canonical(r) && Value(r) == FromDigits(bytes, 8) % Value(PRIME)
    ensures FromDigits(bytes, 8) < Value(PRIME) ==> Value(r) == FromDigits(bytes, 8)
  {
    hide FromDigits, Value, Pow2, Shl;
    var limbs: seq<u64> := [];
    for i := 0 to 4
      invariant |limbs| == i
      invariant Join(limbs, FromDigits(bytes[8 * i..], 8)) == FromDigits(bytes, 8)
    {
      var chunk := bytes[8 * i..8 * i + 8];
      LimbOfBytes(bytes, i);
      JoinSnoc(limbs, FromDigits(chunk, 8), FromDigits(bytes[8 * i + 8..], 8));
      limbs := limbs + [FromDigits(chunk, 8)];
    }
    NothingLeft(bytes[32..]);
    JoinOfFelt(limbs);
    r := New(limbs);
    PrimePositive();
    if FromDigits(bytes, 8) < Value(PRIME) { Remainder(FromDigits(bytes, 8), Value(PRIME), 0, FromDigits(bytes, 8)); }
  }

  lemma NothingLeft(bytes: seq<nat>)
    requires bytes == []
    ensures FromDigits(bytes, 8) == 0
  {
  }

  lemma LimbOfBytes(bytes: seq<nat>, i: nat)
    requires |bytes| == 32 && i < 4 && forall b :: b in bytes ==> b < 256
    ensures FromDigits(bytes[8 * i..8 * i + 8], 8) < 0x1_0000_0000_0000_0000
    ensures FromDigits(bytes[8 * i..], 8)
         == FromDigits(bytes[8 * i..8 * i + 8], 8) + 0x1_0000_0000_0000_0000 * FromDigits(bytes[8 * i + 8..], 8)
  {
    hide FromDigits, Pow2, Shl, Times;
    ByteTable();
    var chunk, rest := bytes[8 * i..8 * i + 8], bytes[8 * i + 8..];
    assert bytes[8 * i..] == chunk + rest;
    forall d | d in chunk ensures d < 256 { assert d in bytes; }
    FromDigitsBelow(chunk, 8);
    FromDigitsJoin(chunk, rest, 8);
    ShlIsTimes(FromDigits(rest, 8), 64);
  }

  // ---- nine limbs of 28 bits ----

  /** One more byte on top of the accumulator. */
  lemma ByteAppended(acc: nat, bits: nat, rest: seq<nat>)
    requires |rest| > 0 && rest[0] < 256 && acc < Pow2(bits)
    ensures BitOr(acc, Shl(rest[0], bits)) < Pow2(bits + 8)
    ensures BitOr(acc, Shl(rest[0], bits)) + Shl(FromDigits(rest[1..], 8), bits + 8) == acc + Shl(FromDigits(rest, 8), bits)
  {
    DigitAppended(acc, bits, rest, 8);
  }

  lemma DigitAppended(acc: nat, bits: nat, rest: seq<nat>, k: nat)
    requires |rest| > 0 && rest[0] < Pow2(k) && acc < Pow2(bits)
    ensures BitOr(acc, Shl(rest[0], bits)) < Pow2(bits + k)
    ensures BitOr(acc, Shl(rest[0], bits)) + Shl(FromDigits(rest[1..], k), bits + k) == acc + Shl(FromDigits(rest, k), bits)
  {
    hide Shl, Pow2, BitOr;
    OrIsSum(acc, rest[0], bits);
    var hi := FromDigits(rest[1..], k);
    ShlSum(rest[0], Shl(hi, k), bits);
    ShlShl(hi, k, bits);
    ShlMonotone(rest[0] + 1, Pow2(k), bits);
    ShlSum(rest[0], 1, bits); ShlOfOne(bits); ShlPow2(k, bits);
  }

  /** The low k bits of the accumulator are the next digit of everything still to come. */
  lemma DigitTaken(acc: nat, bits: nat, rest: nat, k: nat)
    requires acc < Pow2(bits) && (bits >= k || rest == 0)
    ensures (acc + Shl(rest, bits)) % Pow2(k) == acc % Pow2(k)
    ensures bits >= k ==> Shr(acc + Shl(rest, bits), k) == Shr(acc, k) + Shl(rest, bits - k) && Shr(acc, k) < Pow2(bits - k)
    ensures bits < k ==> Shr(acc + Shl(rest, bits), k) == 0 && Shr(acc, k) == 0
  {
    hide Shl, Shr, Pow2;
    if bits >= k {
      LowDigit(acc, rest, k, bits - k);
      ShrBound(acc, k, bits - k);
    } else {
      ShlBelow(0, bits, bits);
      Pow2Monotone(bits, k);
      ShlOfOne(bits);
      ShrSmall(acc, k);
    }
  }

  lemma AccFits(acc: nat, bits: nat)
    requires acc < Pow2(bits) && bits <= 35
    ensures acc < 0x8_0000_0000
  {
    Pow2Monotone(bits, 35);
    Pow2Table();
    Pow2Unfold(32); Pow2Unfold(33); Pow2Unfold(34); Pow2Unfold(35);
  }

  /** Load bytes until 28 bits are there, or no byte is left. */
  method FillAccumulator(bytes: seq<nat>, acc0: nat, bits0: nat, byteIdx0: nat) returns (acc: nat, bits: nat, byteIdx: nat)
    requires |bytes| == 32 && (forall b :: b in bytes ==> b < 256)
    requires byteIdx0 <= 32 && bits0 <= 7 && acc0 < Pow2(bits0)
    ensures byteIdx <= 32 && bits <= 35 && acc < Pow2(bits) && (bits >= 28 || byteIdx == 32)
    ensures acc < 0x1_0000_0000_0000_0000
    ensures acc + Shl(FromDigits(bytes[byteIdx..], 8), bits) == acc0 + Shl(FromDigits(bytes[byteIdx0..], 8), bits0)
  {
    hide Shl, Pow2, FromDigits, BitOr;
    acc, bits, byteIdx := acc0, bits0, byteIdx0;
    while bits < 28 && byteIdx < 32
      invariant byteIdx <= 32 && bits <= 35 && acc < Pow2(bits)
      invariant acc + Shl(FromDigits(bytes[byteIdx..], 8), bits) == acc0 + Shl(FromDigits(bytes[byteIdx0..], 8), bits0)
      decreases 32 - byteIdx
    {
      assert bytes[byteIdx] in bytes;
      ByteAppended(acc, bits, bytes[byteIdx..]);
      assert bytes[byteIdx..][1..] == bytes[byteIdx + 1..];
      acc := BitOr(acc, Shl(bytes[byteIdx], bits));
      bits := bits + 8;
      byteIdx := byteIdx + 1;
    }
    AccFits(acc, bits);
  }

  /** to_m31_limbs_9: nine 28-bit digits, through a 64-bit accumulator that never overflows. */
  method ToM31Limbs9(v: Felt) returns (limbs: seq<nat>)
    ensures limbs == Digits(Value(v), 28, 9)
    ensures forall l :: l in limbs ==> l < 0x1000_0000
  {
    hide *;
    var bytes := ToLeBytes(v);
    ghost var n := Value(v);
    ByteTable();
    DigitsBelow(n, 8, 32);
    WholeValue(v);
    var acc: nat, bitsInAcc: nat, byteIdx: nat := 0, 0, 0;
    limbs := [];
    NoBits(0, FromDigits(bytes, 8));
    assert bytes[0..] == bytes;
    assert [] + Digits(n, 28, 9) == Digits(n, 28, 9);
    assert Pow2(0) == 1 by { Pow2Table(); }
    for k := 0 to 9
      invariant byteIdx <= 32 && bitsInAcc <= 7 && acc < Pow2(bitsInAcc) && |limbs| == k
      invariant limbs + Digits(acc + Shl(FromDigits(bytes[byteIdx..], 8), bitsInAcc), 28, 9 - k) == Digits(n, 28, 9)
    {
      acc, bitsInAcc, byteIdx := FillAccumulator(bytes, acc, bitsInAcc, byteIdx);
      ghost var rest := FromDigits(bytes[byteIdx..], 8);
      if byteIdx == 32 { NothingLeft(bytes[byteIdx..]); }
      DigitTaken(acc, bitsInAcc, rest, 28);
      NextDigit(acc + Shl(rest, bitsInAcc), 28, 9 - k);
      limbs := limbs + [acc % 0x1000_0000];
      acc := Shr(acc, 28);
      bitsInAcc := if bitsInAcc >= 28 then bitsInAcc - 28 else 0;
      assert Shl(0, 0) == 0 by { NoBits(0, 0); }
    }
    NoDigits(acc + Shl(FromDigits(bytes[byteIdx..], 8), bitsInAcc), 28);
    DigitsBelow(n, 28, 9);
  }

  lemma NextDigit(x: nat, k: nat, n: nat)
    requires n > 0
    ensures Digits(x, k, n) == [x % Pow2(k)] + Digits(Shr(x, k), k, n - 1)
  {
  }

  lemma WholeValue(v: Felt)
    ensures FromDigits(Digits(Value(v), 8, 32), 8) == Value(v)
  {
    hide Digits, Value, FromDigits, Pow2;
    DigitsExactIff(Value(v), 8, 32);
    ByteTable();
    ValueBelow(v);
  }

  lemma ValueBelow(v: Felt)
    ensures Value(v) < Pow2(256)
  {
    hide Pow2;
    ByteTable();
    ShlPow2(64, 64); ShlPow2(64, 128); ShlPow2(64, 192);
    ShlIsTimes(Pow2(64), 64); ShlIsTimes(Pow2(64), 128); ShlIsTimes(Pow2(64), 192);
  }

  // ---- back to an element ----

  /** The mask drops bits 28 and up of each limb. */
  function Masked(limbs: seq<nat>): (r: seq<nat>)
    ensures |r| == |limbs|
  {
    seq(|limbs|, i requires 0 <= i < |limbs| => limbs[i] % 0x1000_0000)
  }

  lemma MaskedAt(limbs: seq<nat>, i: nat)
    requires i < |limbs|
    ensures Masked(limbs)[i] == limbs[i] % 0x1000_0000
  {
  }

  /** Emit whole bytes from the accumulator. */
  method DrainBytes(acc0: nat, bits0: nat, bytes0: seq<nat>, ghost rest: nat, ghost total: seq<nat>)
    returns (acc: nat, bits: nat, bytes: seq<nat>)
    requires acc0 < Pow2(bits0) && bits0 <= 35 && |bytes0| <= 31
    requires bytes0 + Digits(acc0 + Shl(rest, bits0), 8, 32 - |bytes0|) == total
    requires 8 * |bytes0| + bits0 <= 252
    ensures bits <= 7 && |bytes| <= 31 && acc < Pow2(bits) && 8 * |bytes| + bits == 8 * |bytes0| + bits0
    ensures bytes + Digits(acc + Shl(rest, bits), 8, 32 - |bytes|) == total
  {
    hide Digits, Shl, Shr, Pow2;
    acc, bits, bytes := acc0, bits0, bytes0;
    while bits >= 8 && |bytes| < 32
      invariant |bytes| <= 31 && acc < Pow2(bits) && 8 * |bytes| + bits == 8 * |bytes0| + bits0
      invariant bytes + Digits(acc + Shl(rest, bits), 8, 32 - |bytes|) == total
      decreases bits
    {
      DigitTaken(acc, bits, rest, 8);
      NextDigit(acc + Shl(rest, bits), 8, 32 - |bytes|);
      ByteTable();
      bytes := bytes + [acc % 256];
      acc := Shr(acc, 8);
      bits := bits - 8;
    }
  }

  /** The last partial byte, and zeros above it. */
  lemma FlushedDigits(acc: nat, bits: nat, n: nat)
    requires n >= 1 && acc < Pow2(bits) && bits <= 7
    ensures Digits(acc, 8, n) == [acc] + Digits(0, 8, n - 1) && acc < 256
    ensures bits == 0 ==> acc == 0
  {
    hide Digits, Shr, Pow2;
    Pow2Monotone(bits, 8);
    ByteTable();
    NextDigit(acc, 8, n);
    ShrSmall(acc, 8);
    Remainder(acc, 256, 0, acc);
    if bits == 0 { NoBits(acc, 0); }
  }

  lemma {:induction false} ZeroDigits(n: nat)
    ensures Digits(0, 8, n) == seq(n, _ => 0)
    decreases n
  {
    hide Shr, Pow2;
    if n > 0 {
      ZeroDigits(n - 1);
      ByteTable();
      ShrSmall(0, 8);
    }
  }

  /** The byte loop of from_m31_limbs_9. */
  method PackBytes(limbs: seq<nat>) returns (bytes: seq<nat>)
    requires |limbs| == 9
    ensures bytes == Digits(FromDigits(Masked(limbs), 28), 8, 32)
  {
    hide *;
    ghost var all := Masked(limbs);
    ghost var total := Digits(FromDigits(all, 28), 8, 32);
    var acc: nat, bits: nat := 0, 0;
    bytes := [];
    NoBits(0, FromDigits(all, 28));
    assert all[0..] == all;
    assert Pow2(0) == 1 by { Pow2Table(); }
    ByteTable();
    for i := 0 to 9
      invariant bits <= 7 && |bytes| <= 31 && acc < Pow2(bits) && 8 * |bytes| + bits == 28 * i
      invariant bytes + Digits(acc + Shl(FromDigits(all[i..], 28), bits), 8, 32 - |bytes|) == total
    {
      MaskedAt(limbs, i);
      DigitAppended(acc, bits, all[i..], 28);
      assert all[i..][1..] == all[i + 1..];
      var widened := BitOr(acc, Shl(limbs[i] % 0x1000_0000, bits));
      acc, bits, bytes := DrainBytes(widened, bits + 28, bytes, FromDigits(all[i + 1..], 28), total);
    }
    NoDigitsLeft(all[9..], bits);
    FlushedDigits(acc, bits, 32 - |bytes|);
    ZeroDigits(31 - |bytes|);
    var flushed := if bits > 0 then acc % 0x100 else 0;
    var padding := seq(31 - |bytes|, _ => 0);
    assert bytes + ([acc] + padding) == (bytes + [acc]) + padding;
    bytes := bytes + [flushed] + padding;
  }

  lemma NoDigitsLeft(ds: seq<nat>, bits: nat)
    requires ds == []
    ensures Shl(FromDigits(ds, 28), bits) == 0
  {
    ShlOfOne(bits);
  }

  /** from_m31_limbs_9 */
  method FromM31Limbs9(limbs: seq<nat>) returns (r: Felt)
    requires |limbs| == 9
    ensures Canonical(r) && Value(r) == FromDigits(Masked(limbs), 28) % Value(PRIME)
  {
    hide Digits, FromDigits, Value, Pow2;
    var bytes := PackBytes(limbs);
    ghost var x := FromDigits(Masked(limbs), 28);
    MaskedBelow(limbs);
    DigitsExactIff(x, 8, 32);
    DigitsBelow(x, 8, 32);
    ByteTable();
    r := FromBytes(bytes);
  }

  lemma MaskedBelow(limbs: seq<nat>)
    requires |limbs| == 9
    ensures FromDigits(Masked(limbs), 28) < Pow2(256)
  {
    hide FromDigits, Pow2;
    ByteTable();
    FromDigitsBelow(Masked(limbs), 28);
    Pow2Monotone(252, 256);
  }

  lemma ValueInjective(v: Felt, w: Felt)
    requires Value(v) == Value(w)
    ensures v == w
  {
    assert v[0] == w[0] && v[1] == w[1] && v[2] == w[2] && v[3] == w[3];
    assert v == [v[0], v[1], v[2], v[3]] && w == [w[0], w[1], w[2], w[3]];
  }

  /** The nine limbs sum to the element in base 2^28 exactly when it is below 2^252; canonical elements are. */
  lemma LimbsSumToValueIff(v: Felt)
    ensures FromDigits(Digits(Value(v), 28, 9), 28) == Value(v) <==> Value(v) < Pow2(252)
    ensures Canonical(v) ==> Value(v) < Pow2(252)
  {
    hide Digits, FromDigits, Pow2;
    DigitsExactIff(Value(v), 28, 9);
    ByteTable();
    Pow252();
  }

  lemma Pow252()
    ensures Pow2(252) == 0x1000_0000_0000_0000 * (0x1_0000_0000_0000_0000 * (0x1_0000_0000_0000_0000 * 0x1_0000_0000_0000_0000))
  {
    hide Pow2;
    ByteTable();
    Pow2Table();
    ShlPow2(60, 64); ShlPow2(60, 128); ShlPow2(60, 192);
    ShlPow2(60, 4); ShlIsTimes(Pow2(60), 4);
    assert Pow2(4) == 16 by { Pow2Unfold(4); }
    ShlPow2(64, 64); ShlPow2(64, 128); ShlIsTimes(Pow2(64), 64); ShlIsTimes(Pow2(64), 128); ShlIsTimes(Pow2(60), 192);
  }

  /** Repacking any canonical element into limbs and back gives it again. */
  method RepackRoundTrip(v: Felt) returns (limbs: seq<nat>, r: Felt)
    requires Canonical(v)
    ensures r == v && |limbs| == 9 && FromDigits(limbs, 28) == Value(v)
  {
    hide Digits, FromDigits, Value, Pow2;
    limbs := ToM31Limbs9(v);
    r := FromM31Limbs9(limbs);
    LimbsSumToValueIff(v);
    MaskedSmall(limbs);
    PrimePositive();
    Remainder(Value(v), Value(PRIME), 0, Value(v));
    ValueInjective(v, r);
  }

  lemma MaskedSmall(limbs: seq<nat>)
    requires forall l :: l in limbs ==> l < 0x1000_0000
    ensures Masked(limbs) == limbs
  {
    forall i | 0 <= i < |limbs| ensures Masked(limbs)[i] == limbs[i] { assert limbs[i] in limbs; }
  }
}
