/**
 Montgomery batch inversion over both fields, and what it does when an entry is zero
 (src/ntt.rs, src/oods.rs).
 */
module BatchInverse {
  import opened M31Field
  import opened MersennePrime
  import opened SecureField
  import opened SecureInverse

  // ---- base field, in place ----

  /** The product of the first n entries. */
  function Prefix(s: seq<M31>, n: nat): M31
    requires n <= |s|
    decreases n
  {
    if n == 0 then 1 else Mul(Prefix(s, n - 1), s[n - 1])
  }

  lemma {:induction false} PrefixZero(s: seq<M31>, n: nat)
    requires n <= |s|
    ensures Prefix(s, n) == 0 <==> 0 in s[..n]
    decreases n
  {
    hide Mul;
    if n > 0 {
      PrefixZero(s, n - 1);
      assert s[..n] == s[..n - 1] + [s[n - 1]];
      MulUnits(s[n - 1]); MulUnits(Prefix(s, n - 1));
      if Prefix(s, n) == 0 && Prefix(s, n - 1) != 0 { NoZeroDivisors(Prefix(s, n - 1), s[n - 1]); }
    }
  }

  /** The inverse of a prefix product gives the entry's inverse, and the shorter product's. */
  lemma SuffixStep(p: M31, x: M31)
    requires Mul(p, x) != 0
    ensures Mul(Inverse(Mul(p, x)), p) == Inverse(x)
    ensures Mul(Inverse(Mul(p, x)), x) == Inverse(p)
  {
    hide Mul, Inverse;
    var v := Inverse(Mul(p, x));
    InverseCorrect(Mul(p, x));
    MulComm(v, Mul(p, x));
    MulAssoc(x, v, p); MulComm(x, v); MulAssoc(v, x, p); MulComm(x, p);
    MulComm(v, x); MulComm(v, p);
    InverseUnique(x, Mul(v, p));
    MulAssoc(p, v, x); MulAssoc(v, p, x);
    InverseUnique(p, Mul(v, x));
  }

  /** What the prefix and suffix loops leave behind: every inverse, or zero everywhere. */
  function BatchInverted(s: seq<M31>): (r: seq<M31>)
    ensures |r| == |s|
  {
    seq(|s|, i requires 0 <= i < |s| => if 0 in s then 0 else Inverse(s[i]))
  }

  /** The batch inversion inside StwoNttCache::new, overwriting inv. */
  method BatchInvertInPlace(inv: array<M31>)
    requires inv.Length >= 1
    modifies inv
    ensures inv[..] == BatchInverted(old(inv[..]))
  {
    hide Mul, Inverse, Prefix;
    ghost var s := inv[..];
    var n := inv.Length;
    var prefix := Prefixes(inv);
    PrefixZero(s, n);
    assert s[..n] == s;
    var invProd := Inverse(prefix[n - 1]);
    ghost var dead := 0 in s;
    InverseCorrect(prefix[n - 1]);
    var i := n - 1;
    while i >= 1
      modifies inv
      invariant 0 <= i < n
      invariant invProd == if dead then 0 else Inverse(Prefix(s, i + 1))
      invariant forall j :: 0 <= j <= i ==> inv[j] == s[j]
      invariant forall j :: i < j < n ==> inv[j] == if dead then 0 else Inverse(s[j])
    {
      SuffixAt(s, i, invProd, dead);
      var invI := Mul(invProd, prefix[i - 1]);
      invProd := Mul(invProd, inv[i]);
      inv[i] := invI;
      i := i - 1;
    }
    FirstPrefix(s);
    inv[0] := invProd;
  }

  method Prefixes(inv: array<M31>) returns (prefix: array<M31>)
    requires inv.Length >= 1
    ensures fresh(prefix) && prefix.Length == inv.Length
    ensures forall j :: 0 <= j < inv.Length ==> prefix[j] == Prefix(inv[..], j + 1)
  {
    hide Mul, Prefix;
    ghost var s := inv[..];
    var n := inv.Length;
    prefix := new M31[n](_ => 1);
    FirstPrefix(s);
    prefix[0] := inv[0];
    for i := 1 to n
      invariant forall j :: 0 <= j < i ==> prefix[j] == Prefix(s, j + 1)
    {
      PrefixSnoc(s, i);
      prefix[i] := Mul(prefix[i - 1], inv[i]);
    }
  }

  lemma FirstPrefix(s: seq<M31>)
    requires |s| > 0
    ensures Prefix(s, 1) == s[0]
  {
    hide Mul;
    MulUnits(s[0]);
    assert Prefix(s, 0) == 1;
  }

  lemma PrefixSnoc(s: seq<M31>, i: nat)
    requires i < |s|
    ensures Prefix(s, i + 1) == Mul(Prefix(s, i), s[i])
  {
    hide Mul;
  }

  lemma SuffixAt(s: seq<M31>, i: nat, invProd: M31, dead: bool)
    requires 1 <= i < |s| && dead == (0 in s)
    requires invProd == if dead then 0 else Inverse(Prefix(s, i + 1))
    ensures Mul(invProd, Prefix(s, i)) == if dead then 0 else Inverse(s[i])
    ensures Mul(invProd, s[i]) == if dead then 0 else Inverse(Prefix(s, i))
  {
    hide Mul, Inverse, Prefix;
    if dead {
      MulUnits(Prefix(s, i)); MulUnits(s[i]);
    } else {
      PrefixZero(s, i + 1);
      PrefixSnoc(s, i);
      SuffixStep(Prefix(s, i), s[i]);
    }
  }

  // ---- secure field ----

  function QPrefix(s: seq<QM31>, n: nat): QM31
    requires n <= |s|
    decreases n
  {
    if n == 0 then QONE else QMul(QPrefix(s, n - 1), s[n - 1])
  }

  lemma {:induction false} QPrefixZero(s: seq<QM31>, n: nat)
    requires n <= |s|
    ensures QPrefix(s, n) == QZERO <==> QZERO in s[..n]
    decreases n
  {
    hide QMul;
    if n == 0 {
      OneIsNotZero();
    } else {
      QPrefixZero(s, n - 1);
      assert s[..n] == s[..n - 1] + [s[n - 1]];
      QMulUnits(s[n - 1]); QMulUnits(QPrefix(s, n - 1));
      if QPrefix(s, n) == QZERO { QNoZeroDivisors(QPrefix(s, n - 1), s[n - 1]); }
    }
  }

  lemma QSuffixStep(p: QM31, x: QM31)
    requires QMul(p, x) != QZERO
    ensures QMul(QInverse(QMul(p, x)), p) == QInverse(x)
    ensures QMul(QInverse(QMul(p, x)), x) == QInverse(p)
  {
    hide QMul, QInverse;
    var v := QInverse(QMul(p, x));
    QInverseCorrect(QMul(p, x));
    QMulAssoc(x, v, p); QMulComm(x, v); QMulAssoc(v, x, p); QMulComm(x, p);
    QInverseUnique(x, QMul(v, p));
    QMulAssoc(p, v, x); QMulComm(p, v); QMulAssoc(v, p, x);
    QInverseUnique(p, QMul(v, x));
  }

  function QBatchInverted(s: seq<QM31>): (r: seq<QM31>)
    ensures |r| == |s|
  {
    seq(|s|, i requires 0 <= i < |s| => if QZERO in s then QZERO else QInverse(s[i]))
  }

  lemma QFirstPrefix(s: seq<QM31>)
    requires |s| > 0
    ensures QPrefix(s, 1) == s[0]
  {
    hide QMul;
    QMulUnits(s[0]);
    assert QPrefix(s, 0) == QONE;
  }

  lemma QPrefixSnoc(s: seq<QM31>, i: nat)
    requires i < |s|
    ensures QPrefix(s, i + 1) == QMul(QPrefix(s, i), s[i])
  {
    hide QMul;
  }

  lemma QSuffixAt(s: seq<QM31>, i: nat, invAcc: QM31, dead: bool)
    requires 1 <= i < |s| && dead == (QZERO in s)
    requires invAcc == if dead then QZERO else QInverse(QPrefix(s, i + 1))
    ensures QMul(invAcc, QPrefix(s, i)) == if dead then QZERO else QInverse(s[i])
    ensures QMul(invAcc, s[i]) == if dead then QZERO else QInverse(QPrefix(s, i))
  {
    hide QMul, QInverse, QPrefix;
    if dead {
      QMulUnits(QPrefix(s, i)); QMulUnits(s[i]);
    } else {
      QPrefixZero(s, i + 1);
      QPrefixSnoc(s, i);
      QSuffixStep(QPrefix(s, i), s[i]);
    }
  }

  /** qm31_batch_inverse */
  method QBatchInverse(values: seq<QM31>) returns (result: seq<QM31>)
    ensures result == QBatchInverted(values)
  {
    hide QMul, QInverse, QPrefix;
    var n := |values|;
    if n == 0 { return []; }
    var prefix := [values[0]];
    QFirstPrefix(values);
    for i := 1 to n
      invariant |prefix| == i && forall j :: 0 <= j < i ==> prefix[j] == QPrefix(values, j + 1)
    {
      QPrefixSnoc(values, i);
      prefix := prefix + [QMul(prefix[i - 1], values[i])];
    }
    QPrefixZero(values, n);
    assert values[..n] == values;
    var invAcc := QInverse(prefix[n - 1]);
    QInverseCorrect(prefix[n - 1]);
    ghost var dead := QZERO in values;
    result := seq(n, _ => QZERO);
    var i := n - 1;
    while i >= 1
      invariant 0 <= i < n && |result| == n
      invariant invAcc == if dead then QZERO else QInverse(QPrefix(values, i + 1))
      invariant forall j :: i < j < n ==> result[j] == if dead then QZERO else QInverse(values[j])
    {
      QSuffixAt(values, i, invAcc, dead);
      result := result[i := QMul(invAcc, prefix[i - 1])];
      invAcc := QMul(invAcc, values[i]);
      i := i - 1;
    }
    result := result[0 := invAcc];
  }

  /**
   Zero entries spoil the others: every nonzero entry is inverted exactly when no entry
   is zero or all are.
   */
  lemma NonzeroEntriesInvertedIff(values: seq<QM31>)
    ensures (forall i :: 0 <= i < |values| && values[i] != QZERO ==> QBatchInverted(values)[i] == QInverse(values[i]))
       <==> QZERO !in values || forall i :: 0 <= i < |values| ==> values[i] == QZERO
  {
    hide QInverse;
    if i :| 0 <= i < |values| && values[i] != QZERO {
      QInverseCorrect(values[i]);
      if QZERO in values { assert QBatchInverted(values)[i] != QInverse(values[i]); }
    }
  }

  /** A one next to a zero comes out as zero. */
  lemma OneBesideZero()
    ensures QBatchInverted([QONE, QZERO]) == [QZERO, QZERO] && QInverse(QONE) == QONE
  {
    hide QMul, QInverse;
    QMulUnits(QONE);
    QInverseUnique(QONE, QONE);
    assert [QONE, QZERO][1] == QZERO;
  }
}
