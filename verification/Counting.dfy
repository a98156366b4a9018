/**
 Finite counting: an injection between ranges, and when it is onto.
 */
module Counting {

  ghost function Image(f: nat -> nat, n: nat): set<nat> {
    set i: nat | i < n :: f(i)
  }

  predicate Below(i: nat, m: nat) { i < m }

  ghost function Range(m: nat): set<nat> {
    set i: nat | i < m && Below(i, m)
  }

  ghost predicate InjectiveBelow(f: nat -> nat, n: nat) {
    forall i: nat, j: nat :: i < j < n ==> f(i) != f(j)
  }

  lemma {:induction false} ImageSize(f: nat -> nat, n: nat)
    requires InjectiveBelow(f, n)
    ensures |Image(f, n)| == n
  {
    if n > 0 {
      ImageSize(f, n - 1);
      assert Image(f, n) == Image(f, n - 1) + {f(n - 1)};
    } else {
      assert Image(f, 0) == {};
    }
  }

  lemma {:induction false} RangeSize(m: nat)
    ensures |Range(m)| == m
  {
    if m > 0 {
      RangeSize(m - 1);
      assert forall i: nat :: Below(i, m) <==> Below(i, m - 1) || i == m - 1;
      assert Range(m) == Range(m - 1) + {m - 1};
    } else {
      assert Range(0) == {};
    }
  }

  lemma {:induction false} SubsetSize<T>(a: set<T>, b: set<T>)
    requires a <= b
    ensures |a| <= |b|
    ensures |a| == |b| ==> a == b
  {
    if a != {} {
      var x :| x in a;
      SubsetSize(a - {x}, b - {x});
    }
  }

  /** An injection of [0, n) into [0, m) needs n <= m. */
  lemma Pigeonhole(f: nat -> nat, n: nat, m: nat)
    requires forall i: nat :: i < n ==> f(i) < m
    requires InjectiveBelow(f, n)
    ensures n <= m
  {
    ImageSize(f, n);
    RangeSize(m);
    ImageInRange(f, n, m);
    SubsetSize(Image(f, n), Range(m));
  }

  lemma ImageInRange(f: nat -> nat, n: nat, m: nat)
    requires forall i: nat :: i < n ==> f(i) < m
    ensures Image(f, n) <= Range(m)
  {
    forall y | y in Image(f, n) ensures y in Range(m) {
      assert Below(y, m);
    }
  }

  /** An injection of [0, n) into itself reaches every y. */
  lemma Onto(f: nat -> nat, n: nat, y: nat) returns (i: nat)
    requires forall i: nat :: i < n ==> f(i) < n
    requires InjectiveBelow(f, n)
    requires y < n
    ensures i < n && f(i) == y
  {
    ImageSize(f, n);
    RangeSize(n);
    ImageInRange(f, n, n);
    SubsetSize(Image(f, n), Range(n));
    assert Below(y, n);
    assert y in Image(f, n);
    i :| i < n && f(i) == y;
  }
}
