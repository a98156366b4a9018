/**
 The ascending key sequence of a BTreeMap or BTreeSet of indices.
 */
module SortedSets {

  lemma {:induction false} LeastExists(s: set<nat>) returns (m: nat)
    requires s != {}
    ensures m in s && forall x :: x in s ==> m <= x
  {
    var x :| x in s;
    if s == {x} {
      m := x;
    } else {
      var r := LeastExists(s - {x});
      assert forall y :: y in s ==> y == x || y in s - {x};
      m := if x < r then x else r;
    }
  }

  lemma LeastUnique(s: set<nat>, a: nat, b: nat)
    requires a in s && b in s
    requires forall x :: x in s ==> a <= x
    requires forall x :: x in s ==> b <= x
    ensures a == b
  {
  }

  ghost predicate IsLeast(s: set<nat>, m: nat) { m in s && forall x :: x in s ==> m <= x }

  /** The elements of s in ascending order. */
  ghost function Sorted(s: set<nat>): (r: seq<nat>)
    ensures |r| == |s|
    decreases |s|
  {
    if s == {} then []
    else
      var w := SomeLeast(s);
      [w] + Sorted(s - {w})
  }

  ghost function SomeLeast(s: set<nat>): (m: nat)
    requires s != {}
    ensures IsLeast(s, m)
  {
    LeastIs(s);
    var m :| IsLeast(s, m);
    m
  }

  lemma LeastIs(s: set<nat>)
    requires s != {}
    ensures exists m :: IsLeast(s, m)
  {
    var m := LeastExists(s);
    assert IsLeast(s, m);
  }

  ghost predicate Ascending(ps: seq<nat>) {
    forall i, j :: 0 <= i < j < |ps| ==> ps[i] < ps[j]
  }

  lemma {:induction false} SortedIsAscending(s: set<nat>)
    ensures Ascending(Sorted(s))
    ensures forall x :: x in Sorted(s) <==> x in s
    decreases |s|
  {
    if s != {} {
      hide SomeLeast;
      var m := SomeLeast(s);
      var rest := Sorted(s - {m});
      assert Sorted(s) == [m] + rest;
      SortedIsAscending(s - {m});
      ConsAscending(m, rest);
      forall x ensures x in [m] + rest <==> x in s {
        assert x in [m] + rest <==> x == m || x in rest;
      }
    }
  }

  lemma ConsAscending(m: nat, rest: seq<nat>)
    requires Ascending(rest) && forall x :: x in rest ==> m <= x && m != x
    ensures Ascending([m] + rest)
  {
    forall i, j | 0 <= i < j < |[m] + rest| ensures ([m] + rest)[i] < ([m] + rest)[j] {
      assert ([m] + rest)[j] == rest[j - 1] && rest[j - 1] in rest;
    }
  }

  lemma {:induction false} AscendingUnique(ps: seq<nat>, qs: seq<nat>)
    requires Ascending(ps) && Ascending(qs)
    requires forall x :: x in ps <==> x in qs
    ensures ps == qs
    decreases |ps|
  {
    assert |qs| > 0 ==> qs[0] in qs;
    if |ps| > 0 {
      assert ps[0] in qs && qs[0] in ps;
      var i :| 0 <= i < |qs| && qs[i] == ps[0];
      var j :| 0 <= j < |ps| && ps[j] == qs[0];
      assert ps[0] == qs[0];
      forall x ensures x in ps[1..] <==> x in qs[1..] {
        TailMember(ps, x);
        TailMember(qs, x);
      }
      AscendingUnique(ps[1..], qs[1..]);
      assert ps == [ps[0]] + ps[1..] && qs == [qs[0]] + qs[1..];
    }
  }

  lemma TailMember(ps: seq<nat>, x: nat)
    requires Ascending(ps) && |ps| > 0
    ensures x in ps[1..] <==> x in ps && x != ps[0]
  {
    if x in ps && x != ps[0] {
      var i :| 0 <= i < |ps| && ps[i] == x;
      assert ps[1..][i - 1] == x;
    }
    if x in ps[1..] {
      var i :| 0 <= i < |ps[1..]| && ps[1..][i] == x;
      assert ps[i + 1] == x;
    }
  }

  /** Collect the keys of an ordered map, ascending. */
  method SortedKeys(keys: set<nat>) returns (ps: seq<nat>)
    ensures ps == Sorted(keys)
  {
    ps := [];
    var rest := keys;
    while rest != {}
      invariant rest <= keys
      invariant ps + Sorted(rest) == Sorted(keys)
      decreases |rest|
    {
      var m := Minimum(rest);
      LeastUnique(rest, m, SomeLeast(rest));
      ps := ps + [m];
      rest := rest - {m};
    }
  }

  method Minimum(s: set<nat>) returns (m: nat)
    requires s != {}
    ensures IsLeast(s, m)
  {
    var rest := s;
    m :| m in rest;
    rest := rest - {m};
    while rest != {}
      invariant rest <= s && m in s
      invariant forall x :: x in s && x !in rest ==> m <= x
      decreases |rest|
    {
      var x :| x in rest;
      if x < m { m := x; }
      rest := rest - {x};
    }
  }
}
