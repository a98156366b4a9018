/**
 Per-query authentication paths squeezed into one level-ordered hash stream, and
 the level-by-level reconstruction that consumes it (src/stwo_export.rs).
 */
module HashWitness {
  import opened Bits
  import opened Hashing
  import opened SortedSets

  // ---- positions ----

  /** The first two positions are the two children of one parent. */
  predicate PairFirst(ps: seq<nat>) { |ps| > 1 && ps[1] == Sibling(ps[0]) }

  /** The positions of a level whose sibling has to come from the stream. */
  function Singles(ps: seq<nat>): seq<nat>
    decreases |ps|
  {
    if |ps| == 0 then []
    else if PairFirst(ps) then Singles(ps[2..])
    else [ps[0]] + Singles(ps[1..])
  }

  function Parents(s: set<nat>): set<nat> { set p | p in s :: p / 2 }

  /** Positions whose sibling is not in s, in order. */
  function Lonely(ps: seq<nat>, s: set<nat>): seq<nat>
    decreases |ps|
  {
    if |ps| == 0 then []
    else (if Sibling(ps[0]) in s then [] else [ps[0]]) + Lonely(ps[1..], s)
  }

  /** On an ascending level, the pairing loop emits exactly the positions with an absent sibling. */
  lemma {:induction false} SinglesAreLonely(ps: seq<nat>, s: set<nat>)
    requires Ascending(ps)
    requires forall p :: p in ps ==> p in s
    requires forall p :: p in ps && Sibling(p) in s ==> Sibling(p) in ps
    ensures Singles(ps) == Lonely(ps, s)
    decreases |ps|
  {
    if |ps| > 0 {
      var p := ps[0];
      assert Ascending(ps[1..]);
      if PairFirst(ps) {
        assert ps[1..][1..] == ps[2..];
        assert p in ps && ps[1] in ps;
        assert Sibling(ps[1]) == p;
        RestClosed(ps, s, 2);
        SinglesAreLonely(ps[2..], s);
      } else {
        assert p in ps;
        FirstIsSingle(ps);
        RestClosed(ps, s, 1);
        SinglesAreLonely(ps[1..], s);
      }
    }
  }

  lemma RestClosed(ps: seq<nat>, s: set<nat>, n: nat)
    requires Ascending(ps) && 1 <= n <= 2 <= |ps| + 1 && n <= |ps|
    requires forall p :: p in ps ==> p in s
    requires forall p :: p in ps && Sibling(p) in s ==> Sibling(p) in ps
    requires if n == 2 then ps[1] == Sibling(ps[0]) else Sibling(ps[0]) !in s
    ensures Ascending(ps[n..])
    ensures forall p :: p in ps[n..] && Sibling(p) in s ==> Sibling(p) in ps[n..]
  {
    forall p | p in ps[n..] && Sibling(p) in s ensures Sibling(p) in ps[n..] {
      var i :| n <= i < |ps| && ps[i] == p;
      assert p in ps;
      var j :| 0 <= j < |ps| && ps[j] == Sibling(p);
      assert Sibling(Sibling(p)) == p && p in s && ps[0] != p && (n == 2 ==> ps[1] != p);
      assert j >= n;
      assert ps[n..][j - n] == Sibling(p);
    }
  }

  lemma FirstIsSingle(ps: seq<nat>)
    requires Ascending(ps) && |ps| > 0 && !PairFirst(ps)
    ensures Sibling(ps[0]) !in ps
  {
    forall i | 0 <= i < |ps| ensures ps[i] != Sibling(ps[0]) {
      if i > 1 { assert ps[0] < ps[1] < ps[i]; }
    }
  }

  // ---- compression ----

  /** or_insert over the list: each position keeps its first index. */
  function FirstIndex(queries: seq<nat>): map<nat, nat>
    decreases |queries|
  {
    if |queries| == 0 then map[]
    else
      var n := |queries| - 1;
      var m := FirstIndex(queries[..n]);
      if queries[n] in m then m else m[queries[n] := n]
  }

  lemma {:induction false} FirstIndexFacts(queries: seq<nat>)
    ensures forall p :: p in FirstIndex(queries) <==> p in queries
    ensures forall p :: p in FirstIndex(queries) ==>
      FirstIndex(queries)[p] < |queries| && queries[FirstIndex(queries)[p]] == p
    decreases |queries|
  {
    if |queries| > 0 {
      var n := |queries| - 1;
      FirstIndexFacts(queries[..n]);
      assert queries == queries[..n] + [queries[n]];
    }
  }

  /** The first query at a position is the one that counts. */
  lemma {:induction false} FirstIndexIsFirst(positions: seq<nat>, i: nat)
    requires i < |positions| && positions[i] !in positions[..i]
    ensures positions[i] in FirstIndex(positions) && FirstIndex(positions)[positions[i]] == i
    decreases |positions|
  {
    var n := |positions| - 1;
    FirstIndexFacts(positions[..n]);
    if i < n {
      assert positions[..n][..i] == positions[..i];
      FirstIndexIsFirst(positions[..n], i);
    }
  }

  /** or_insert of each position's index at its parent. */
  function ParentIndex(ps: seq<nat>, m: map<nat, nat>): map<nat, nat>
    requires forall p :: p in ps ==> p in m
    decreases |ps|
  {
    if |ps| == 0 then map[]
    else
      var n := |ps| - 1;
      var up := ParentIndex(ps[..n], m);
      if ps[n] / 2 in up then up else up[ps[n] / 2 := m[ps[n]]]
  }

  ghost predicate InheritsIndex(up: map<nat, nat>, m: map<nat, nat>, q: nat) {
    q in up && exists p :: p in m && p / 2 == q && up[q] == m[p]
  }

  function ParentsOf(ps: seq<nat>): set<nat> { set p | p in ps :: p / 2 }

  lemma ParentsOfSnoc(ps: seq<nat>, p: nat)
    ensures ParentsOf(ps + [p]) == ParentsOf(ps) + {p / 2}
  {
    assert forall x :: x in ps + [p] <==> x in ps || x == p;
    assert p in ps + [p];
  }

  lemma {:induction false} ParentIndexFacts(ps: seq<nat>, m: map<nat, nat>)
    requires forall p :: p in ps ==> p in m
    ensures ParentIndex(ps, m).Keys == ParentsOf(ps)
    ensures forall q :: q in ParentIndex(ps, m) ==> InheritsIndex(ParentIndex(ps, m), m, q)
    decreases |ps|
  {
    if |ps| == 0 {
      assert ParentsOf(ps) == {};
    } else {
      var n := |ps| - 1;
      ParentIndexFacts(ps[..n], m);
      assert ps == ps[..n] + [ps[n]];
      ParentsOfSnoc(ps[..n], ps[n]);
      var up, low := ParentIndex(ps, m), ParentIndex(ps[..n], m);
      forall q | q in up ensures InheritsIndex(up, m, q) {
        if q in low {
          assert InheritsIndex(low, m, q);
          var p :| p in m && p / 2 == q && low[q] == m[p];
          assert p in m && p / 2 == q && up[q] == m[p];
        } else {
          assert ps[n] in m && ps[n] / 2 == q && up[q] == m[ps[n]];
        }
      }
    }
  }

  /** The hash pulled from the path of the query that stands for p, if its path is that long. */
  function Pulled(m: map<nat, nat>, paths: seq<seq<Digest>>, level: nat, p: nat): seq<Digest>
    requires p in m && m[p] < |paths|
  {
    if level < |paths[m[p]]| then [paths[m[p]][level]] else []
  }

  function EmitLevel(singles: seq<nat>, m: map<nat, nat>, paths: seq<seq<Digest>>, level: nat): seq<Digest>
    requires forall p :: p in singles ==> p in m && m[p] < |paths|
    decreases |singles|
  {
    if |singles| == 0 then []
    else Pulled(m, paths, level, singles[0]) + EmitLevel(singles[1..], m, paths, level)
  }

  lemma {:induction false} SinglesSubset(ps: seq<nat>)
    ensures forall p :: p in Singles(ps) ==> p in ps
    decreases |ps|
  {
    if |ps| > 0 {
      SinglesSubset(if PairFirst(ps) then ps[2..] else ps[1..]);
    }
  }

  ghost predicate ValidIndex(m: map<nat, nat>, paths: seq<seq<Digest>>) {
    forall p :: p in m ==> m[p] < |paths|
  }

  lemma ParentIndexValid(m: map<nat, nat>, paths: seq<seq<Digest>>)
    requires ValidIndex(m, paths)
    ensures forall p :: p in Sorted(m.Keys) ==> p in m
    ensures ValidIndex(ParentIndex(Sorted(m.Keys), m), paths)
    ensures ParentIndex(Sorted(m.Keys), m).Keys == Parents(m.Keys)
  {
    hide ParentIndex, Sorted;
    SortedIsAscending(m.Keys);
    var ps := Sorted(m.Keys);
    ParentIndexFacts(ps, m);
    assert ParentsOf(ps) == Parents(m.Keys);
    var up := ParentIndex(ps, m);
    forall q | q in up ensures up[q] < |paths| {
      assert InheritsIndex(up, m, q);
    }
  }

  /** The hash stream for levels level..height of the positions in m. */
  ghost function Witness(m: map<nat, nat>, paths: seq<seq<Digest>>, level: nat, height: nat): seq<Digest>
    requires ValidIndex(m, paths)
    decreases height - level
  {
    if level >= height then []
    else
      ParentIndexValid(m, paths);
      var ps := Sorted(m.Keys);
      SinglesSubset(ps);
      EmitLevel(Singles(ps), m, paths, level) + Witness(ParentIndex(ps, m), paths, level + 1, height)
  }

  /** auth_paths_to_hash_witness. */
  method AuthPathsToHashWitness(queries: seq<nat>, paths: seq<seq<Digest>>, height: nat) returns (stream: seq<Digest>)
    requires |queries| <= |paths|
    ensures ValidIndex(FirstIndex(queries), paths)
    ensures stream == Witness(FirstIndex(queries), paths, 0, height)
  {
    FirstIndexFacts(queries);
    if |queries| == 0 || height == 0 {
      if height > 0 { EmptyWitness(paths, 0, height); assert FirstIndex(queries) == map[]; }
      return [];
    }
    var posToPath: map<nat, nat> := map[];
    for idx := 0 to |queries|
      invariant posToPath == FirstIndex(queries[..idx])
    {
      assert queries[..idx + 1][..idx] == queries[..idx];
      if queries[idx] !in posToPath {
        posToPath := posToPath[queries[idx] := idx];
      }
    }
    assert queries[..|queries|] == queries;
    stream := StreamLevels(posToPath, paths, 0, height);
  }

  /** The level loop shared by both stream builders. */
  method StreamLevels(start: map<nat, nat>, paths: seq<seq<Digest>>, first: nat, height: nat)
    returns (stream: seq<Digest>)
    requires ValidIndex(start, paths) && first <= height
    ensures stream == Witness(start, paths, first, height)
  {
    hide ParentIndex, Sorted, EmitLevel, Singles, Parents;
    stream := [];
    var m := start;
    for level := first to height
      invariant ValidIndex(m, paths)
      invariant stream + Witness(m, paths, level, height) == Witness(start, paths, first, height)
    {
      var current := SortedKeys(m.Keys);
      ParentIndexValid(m, paths);
      var emitted := StreamOneLevel(current, m, paths, level);
      var up := ParentMap(current, m);
      WitnessUnfold(m, paths, level, height, current, up, emitted);
      AppendAssoc(stream, emitted, Witness(up, paths, level + 1, height));
      stream := stream + emitted;
      m := up;
    }
  }

  lemma AppendAssoc<T>(a: seq<T>, b: seq<T>, c: seq<T>)
    ensures a + (b + c) == (a + b) + c
  {
  }

  lemma WitnessUnfold(m: map<nat, nat>, paths: seq<seq<Digest>>, level: nat, height: nat,
                      ps: seq<nat>, up: map<nat, nat>, emitted: seq<Digest>)
    requires ValidIndex(m, paths) && level < height && ps == Sorted(m.Keys)
    requires forall p :: p in ps ==> p in m
    requires forall p :: p in Singles(ps) ==> p in ps
    requires up == ParentIndex(ps, m) && emitted == EmitLevel(Singles(ps), m, paths, level)
    ensures ValidIndex(up, paths)
    ensures Witness(m, paths, level, height) == emitted + Witness(up, paths, level + 1, height)
  {
    hide ParentIndex, Sorted, EmitLevel, Singles;
    ParentIndexValid(m, paths);
  }

  /** Advance to the parent level: each parent keeps the first index that reaches it. */
  method ParentMap(current: seq<nat>, m: map<nat, nat>) returns (up: map<nat, nat>)
    requires forall p :: p in current ==> p in m
    ensures up == ParentIndex(current, m)
  {
    up := map[];
    for j := 0 to |current|
      invariant up == ParentIndex(current[..j], m)
    {
      assert current[..j + 1][..j] == current[..j];
      if current[j] / 2 !in up {
        up := up[current[j] / 2 := m[current[j]]];
      }
    }
    assert current[..|current|] == current;
  }

  /** One pass over the sorted positions of a level. */
  method StreamOneLevel(current: seq<nat>, m: map<nat, nat>, paths: seq<seq<Digest>>, level: nat)
    returns (stream: seq<Digest>)
    requires forall p :: p in current ==> p in m && m[p] < |paths|
    ensures forall p :: p in Singles(current) ==> p in current
    ensures stream == EmitLevel(Singles(current), m, paths, level)
  {
    hide Singles, EmitLevel;
    SinglesSubset(current);
    stream := [];
    var i := 0;
    assert current[0..] == current;
    while i < |current|
      invariant i <= |current|
      invariant forall p :: p in Singles(current[i..]) ==> p in current[i..]
      invariant stream + EmitLevel(Singles(current[i..]), m, paths, level) == EmitLevel(Singles(current), m, paths, level)
    {
      var pos := current[i];
      ghost var rest := current[i..];
      SinglesStep(rest);
      if i + 1 < |current| && current[i + 1] == Sibling(pos) {
        assert rest[2..] == current[i + 2..];
        SinglesSubset(rest[2..]);
        i := i + 2;
      } else {
        assert rest[1..] == current[i + 1..];
        SinglesSubset(rest[1..]);
        var queryIdx := m[pos];
        var pulled := if level < |paths[queryIdx]| then [paths[queryIdx][level]] else [];
        EmitStep(pos, Singles(rest[1..]), m, paths, level);
        AppendAssoc(stream, pulled, EmitLevel(Singles(rest[1..]), m, paths, level));
        stream := stream + pulled;
        i := i + 1;
      }
    }
    EmitNothing(current[|current|..], m, paths, level);
  }

  lemma SinglesStep(ps: seq<nat>)
    requires |ps| > 0
    ensures PairFirst(ps) ==> Singles(ps) == Singles(ps[2..])
    ensures !PairFirst(ps) ==> Singles(ps) == [ps[0]] + Singles(ps[1..])
  {
  }

  lemma EmitStep(p: nat, more: seq<nat>, m: map<nat, nat>, paths: seq<seq<Digest>>, level: nat)
    requires p in m && m[p] < |paths| && forall q :: q in more ==> q in m && m[q] < |paths|
    ensures forall q :: q in [p] + more ==> q in m && m[q] < |paths|
    ensures EmitLevel([p] + more, m, paths, level) == Pulled(m, paths, level, p) + EmitLevel(more, m, paths, level)
  {
    assert ([p] + more)[1..] == more;
  }

  lemma EmitNothing(ps: seq<nat>, m: map<nat, nat>, paths: seq<seq<Digest>>, level: nat)
    requires ps == []
    ensures Singles(ps) == [] && EmitLevel(Singles(ps), m, paths, level) == []
  {
  }

  lemma {:induction false} EmptyWitness(paths: seq<seq<Digest>>, level: nat, height: nat)
    ensures Witness(map[], paths, level, height) == []
    decreases height - level
  {
    var m: map<nat, nat> := map[];
    if level < height {
      assert m.Keys == {};
      assert Sorted(m.Keys) == [];
      EmptyWitness(paths, level + 1, height);
    }
  }
}
