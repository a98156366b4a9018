/**
 Opening one FRI layer: the deduplicated sibling values, the hash stream for
 complete fold pairs, and the rebuilding of the opened leaves (src/stwo_export.rs).
 */
module FriOpening {
  import opened Bits
  import opened Hashing
  import opened MerkleTree
  import opened SortedSets
  import opened HashWitness
  import opened HashReconstruct
  import opened WitnessRoundTrip

  // ---- sibling values ----

  function ValuesAt<T>(ps: seq<nat>, m: map<nat, nat>, values: seq<T>): (r: seq<T>)
    requires forall p :: p in ps ==> p in m && m[p] < |values|
    ensures |r| == |ps|
  {
    seq(|ps|, i requires 0 <= i < |ps| => assert ps[i] in ps; values[m[ps[i]]])
  }

  lemma {:induction false} LonelySubset(ps: seq<nat>, s: set<nat>)
    ensures forall p :: p in Lonely(ps, s) ==> p in ps
    decreases |ps|
  {
    if |ps| > 0 { LonelySubset(ps[1..], s); }
  }

  lemma {:induction false} LonelySnoc(ps: seq<nat>, p: nat, s: set<nat>)
    ensures Lonely(ps + [p], s) == Lonely(ps, s) + if Sibling(p) in s then [] else [p]
    decreases |ps|
  {
    if |ps| > 0 {
      assert (ps + [p])[1..] == ps[1..] + [p];
      LonelySnoc(ps[1..], p, s);
    } else {
      assert [] + [p] == [p];
    }
  }

  function Min(a: nat, b: nat): nat { if a <= b then a else b }

  /** The positions whose sibling value the verifier cannot know, in order. */
  ghost function Missing(s: set<nat>): seq<nat> { Lonely(Sorted(s), s) }

  lemma MissingFacts(s: set<nat>)
    ensures forall p :: p in Missing(s) ==> p in s
    ensures Missing(s) == Singles(Sorted(s))
  {
    SortedIsAscending(s);
    LonelySubset(Sorted(s), s);
    SinglesAreLonely(Sorted(s), s);
  }

  ghost predicate SameValues<T>(byValue: map<nat, T>, m: map<nat, nat>, values: seq<T>) {
    && byValue.Keys == m.Keys
    && forall p :: p in m ==> m[p] < |values| && byValue[p] == values[m[p]]
  }

  /** The first sibling value given for each position. */
  method FirstValues<T>(positions: seq<nat>, siblings: seq<T>) returns (first: map<nat, T>)
    ensures SameValues(first, FirstIndex(positions[..Min(|positions|, |siblings|)]), siblings)
  {
    first := map[];
    for i := 0 to |positions|
      invariant SameValues(first, FirstIndex(positions[..Min(i, |siblings|)]), siblings)
    {
      if i < |siblings| {
        assert positions[..i + 1][..i] == positions[..i];
        FirstIndexFacts(positions[..i]);
        if positions[i] !in first { first := first[positions[i] := siblings[i]]; }
      }
    }
  }

  /** dedup_fri_witness. */
  method DedupFriWitness<T>(positions: seq<nat>, siblings: seq<T>) returns (stream: seq<T>)
    ensures var m := FirstIndex(positions[..Min(|positions|, |siblings|)]);
            && (forall p :: p in Missing(m.Keys) ==> p in m && m[p] < |siblings|)
            && stream == ValuesAt(Missing(m.Keys), m, siblings)
  {
    hide Sorted, FirstIndex, Lonely, ValuesAt;
    var first := FirstValues(positions, siblings);
    ghost var m := FirstIndex(positions[..Min(|positions|, |siblings|)]);
    MissingFacts(m.Keys);
    var unique := SortedKeys(first.Keys);
    SortedIsAscending(first.Keys);
    stream := EmitMissing(unique, first, m, siblings);
  }

  method EmitMissing<T>(unique: seq<nat>, first: map<nat, T>, ghost m: map<nat, nat>, ghost siblings: seq<T>)
    returns (stream: seq<T>)
    requires SameValues(first, m, siblings) && forall p :: p in unique ==> p in m
    ensures forall p :: p in Lonely(unique, m.Keys) ==> p in m && m[p] < |siblings|
    ensures stream == ValuesAt(Lonely(unique, m.Keys), m, siblings)
  {
    hide Lonely, ValuesAt;
    LonelySubset(unique, m.Keys);
    stream := [];
    ghost var lonely := [];
    LonelyOfNothing(unique[..0], m.Keys);
    ValuesAtNothing(m, siblings);
    for i := 0 to |unique|
      invariant lonely == Lonely(unique[..i], m.Keys)
      invariant forall p :: p in lonely ==> p in m && m[p] < |siblings|
      invariant stream == ValuesAt(lonely, m, siblings)
    {
      var pos := unique[i];
      assert unique[..i + 1] == unique[..i] + [pos];
      LonelySnoc(unique[..i], pos, m.Keys);
      if Sibling(pos) !in first.Keys {
        ValuesAtSnoc(lonely, pos, m, siblings);
        stream := stream + [first[pos]];
        lonely := lonely + [pos];
      } else {
        assert lonely + [] == lonely;
      }
    }
    assert unique[..|unique|] == unique;
  }

  lemma ValuesAtNothing<T>(m: map<nat, nat>, values: seq<T>)
    ensures ValuesAt([], m, values) == []
  {
  }

  lemma ValuesAtSnoc<T>(ps: seq<nat>, p: nat, m: map<nat, nat>, values: seq<T>)
    requires forall q :: q in ps ==> q in m && m[q] < |values|
    requires p in m && m[p] < |values|
    ensures forall q :: q in ps + [p] ==> q in m && m[q] < |values|
    ensures ValuesAt(ps + [p], m, values) == ValuesAt(ps, m, values) + [values[m[p]]]
  {
  }

  lemma LonelyOfNothing(ps: seq<nat>, s: set<nat>)
    requires ps == []
    ensures Lonely(ps, s) == []
  {
  }

  // ---- rebuilding the opened leaves ----

  datatype Rebuilt<T> = Pairs(values: map<nat, T>) | Malformed

  /** Both members of every fold pair, from known values and the stream, pair by pair. */
  function Rebuild<T>(ps: seq<nat>, known: map<nat, T>, stream: seq<T>): Rebuilt<T>
    requires forall p :: p in ps ==> p in known
    decreases |ps|
  {
    if |ps| == 0 then if |stream| == 0 then Pairs(map[]) else Malformed
    else if PairFirst(ps) then
      assert ps[1] in ps;
      match Rebuild(ps[2..], known, stream)
      case Malformed => Malformed
      case Pairs(more) => Pairs(more[ps[0] := known[ps[0]]][ps[1] := known[ps[1]]])
    else if |stream| == 0 then Malformed
    else
      match Rebuild(ps[1..], known, stream[1..])
      case Malformed => Malformed
      case Pairs(more) => Pairs(more[ps[0] := known[ps[0]]][Sibling(ps[0]) := stream[0]])
  }

  /** s together with all siblings. */
  function Closed(s: set<nat>): set<nat> { s + set p | p in s :: Sibling(p) }

  ghost predicate TrueValues<T(!new)>(known: map<nat, T>, values: seq<T>) {
    forall p :: p in known ==> p < |values| && known[p] == values[p]
  }

  function SiblingValues<T>(singles: seq<nat>, values: seq<T>): (r: seq<T>)
    requires |values| % 2 == 0 && forall p :: p in singles ==> p < |values|
    ensures |r| == |singles|
  {
    seq(|singles|, i requires 0 <= i < |singles| => assert singles[i] in singles; values[Sibling(singles[i])])
  }

  function ToSet(ps: seq<nat>): set<nat> { set p | p in ps }

  lemma ClosedOfSplit(ps: seq<nat>, n: nat)
    requires n <= |ps|
    ensures Closed(ToSet(ps)) == Closed(ToSet(ps[..n])) + Closed(ToSet(ps[n..]))
  {
    assert ps == ps[..n] + ps[n..];
    assert ToSet(ps) == ToSet(ps[..n]) + ToSet(ps[n..]);
  }

  lemma ClosedOfFront(ps: seq<nat>)
    requires |ps| > 0
    ensures Closed(ToSet(ps[..1])) == {ps[0], Sibling(ps[0])}
    ensures PairFirst(ps) ==> Closed(ToSet(ps[..2])) == {ps[0], ps[1]}
  {
    assert ps[..1] == [ps[0]];
    assert ToSet(ps[..1]) == {ps[0]};
    if PairFirst(ps) {
      assert ps[..2] == [ps[0], ps[1]];
      assert ToSet(ps[..2]) == {ps[0], ps[1]};
      assert Sibling(ps[1]) == ps[0];
    }
  }

  lemma ClosedOfNothing(ps: seq<nat>)
    requires ps == []
    ensures Closed(ToSet(ps)) == {}
  {
  }

  /** With true values and true siblings, rebuilding gives exactly the sibling-closed leaves. */
  lemma {:induction false} RebuildHonest<T(!new)>(ps: seq<nat>, known: map<nat, T>, values: seq<T>)
    requires |values| % 2 == 0 && TrueValues(known, values)
    requires forall p :: p in ps ==> p in known
    requires forall p :: p in Singles(ps) ==> p < |values|
    ensures var r := Rebuild(ps, known, SiblingValues(Singles(ps), values));
            r.Pairs? && r.values.Keys == Closed(ToSet(ps)) && TrueValues(r.values, values)
    decreases |ps|
  {
    hide Closed, ToSet;
    var stream := SiblingValues(Singles(ps), values);
    if |ps| == 0 {
      ClosedOfNothing(ps);
    } else if PairFirst(ps) {
      assert ps[0] in ps && ps[1] in ps;
      ClosedOfSplit(ps, 2); ClosedOfFront(ps);
      RebuildHonest(ps[2..], known, values);
    } else {
      assert ps[0] in ps;
      ClosedOfSplit(ps, 1); ClosedOfFront(ps);
      assert Singles(ps)[1..] == Singles(ps[1..]);
      assert forall p :: p in Singles(ps[1..]) ==> p in Singles(ps);
      assert stream[1..] == SiblingValues(Singles(ps[1..]), values);
      RebuildHonest(ps[1..], known, values);
    }
  }

  // ---- the hash stream for complete pairs ----

  /** Each opened position stands for the first query at it or at its sibling. */
  function ClosedIndex(m: map<nat, nat>): map<nat, nat> {
    map p | p in Closed(m.Keys) :: if p in m then m[p] else m[Sibling(p)]
  }

  lemma ClosedIndexValid(m: map<nat, nat>, paths: seq<seq<Digest>>)
    requires ValidIndex(m, paths)
    ensures ValidIndex(ClosedIndex(m), paths)
    ensures ClosedIndex(m).Keys == Closed(m.Keys)
  {
  }

  /** The set of both members of every queried pair. */
  method PairSet(positions: seq<nat>) returns (pairs: set<nat>)
    ensures pairs == Closed(ToSet(positions))
  {
    hide Closed, ToSet;
    pairs := {};
    ClosedOfNothing(positions[..0]);
    for i := 0 to |positions|
      invariant pairs == Closed(ToSet(positions[..i]))
    {
      var pos := positions[i];
      ghost var front := positions[..i + 1];
      assert front[..i] == positions[..i] && front[i..] == [pos] && [pos][..1] == [pos];
      ClosedOfSplit(front, i);
      ClosedOfFront([pos]);
      pairs := pairs + {pos - pos % 2};
      pairs := pairs + {pos - pos % 2 + 1};
      PairMembers(pos);
    }
    assert positions[..|positions|] == positions;
  }

  lemma PairMembers(pos: nat)
    ensures {pos - pos % 2, pos - pos % 2 + 1} == {pos, Sibling(pos)}
  {
  }

  /** The query index each of these positions takes its path from. */
  method SpreadIndex(slots: seq<nat>, m: map<nat, nat>) returns (spread: map<nat, nat>)
    requires forall p :: p in slots <==> p in Closed(m.Keys)
    ensures spread == ClosedIndex(m)
  {
    spread := map[];
    for i := 0 to |slots|
      invariant forall p :: p in spread <==> p in slots[..i]
      invariant forall p :: p in spread ==> spread[p] == ClosedIndex(m)[p]
    {
      var pos := slots[i];
      assert pos in slots;
      if pos in m {
        spread := spread[pos := m[pos]];
      } else if Sibling(pos) in m {
        spread := spread[pos := m[Sibling(pos)]];
      }
    }
    assert slots[..|slots|] == slots;
  }

  lemma EmitFront(ps: seq<nat>, m: map<nat, nat>, paths: seq<seq<Digest>>, level: nat)
    requires |ps| > 0 && forall p :: p in ps ==> p in m && m[p] < |paths|
    ensures forall p :: p in Singles(ps) ==> p in ps
    ensures PairFirst(ps) ==> Singles(ps) == Singles(ps[2..])
    ensures !PairFirst(ps) ==>
      && (forall p :: p in Singles(ps[1..]) ==> p in ps)
      && EmitLevel(Singles(ps), m, paths, level)
         == Pulled(m, paths, level, ps[0]) + EmitLevel(Singles(ps[1..]), m, paths, level)
  {
    hide EmitLevel, Pulled;
    SinglesSubset(ps);
    if !PairFirst(ps) {
      SinglesSubset(ps[1..]);
      assert Singles(ps)[1..] == Singles(ps[1..]);
      EmitCons(Singles(ps), m, paths, level);
    }
  }

  lemma EmitCons(singles: seq<nat>, m: map<nat, nat>, paths: seq<seq<Digest>>, level: nat)
    requires |singles| > 0 && forall p :: p in singles ==> p in m && m[p] < |paths|
    ensures EmitLevel(singles, m, paths, level)
         == Pulled(m, paths, level, singles[0]) + EmitLevel(singles[1..], m, paths, level)
  {
  }

  lemma ParentIndexSnoc(current: seq<nat>, i: nat, m: map<nat, nat>)
    requires i < |current| && forall p :: p in current ==> p in m
    ensures ParentIndex(current[..i + 1], m)
         == var up := ParentIndex(current[..i], m);
            if current[i] / 2 in up then up else up[current[i] / 2 := m[current[i]]]
  {
    assert current[..i + 1][..i] == current[..i];
  }

  /** One pass over a level: emit absent siblings and record the parents. */
  method FoldPairLevel(current: seq<nat>, m: map<nat, nat>, paths: seq<seq<Digest>>, level: nat)
    returns (stream: seq<Digest>, up: map<nat, nat>)
    requires forall p :: p in current ==> p in m && m[p] < |paths|
    ensures forall p :: p in Singles(current) ==> p in current
    ensures stream == EmitLevel(Singles(current), m, paths, level)
    ensures up == ParentIndex(current, m)
  {
    hide ParentIndex, Singles, EmitLevel;
    SinglesSubset(current);
    stream, up := [], map[];
    EmptyParentIndex(current[..0], m);
    var i := 0;
    while i < |current|
      invariant i <= |current|
      invariant forall p :: p in Singles(current[i..]) ==> p in current[i..]
      invariant stream + EmitLevel(Singles(current[i..]), m, paths, level) == EmitLevel(Singles(current), m, paths, level)
      invariant up == ParentIndex(current[..i], m)
    {
      var pos := current[i];
      ghost var rest := current[i..];
      assert rest[0] == pos && rest[1..] == current[i + 1..];
      EmitFront(rest, m, paths, level);
      ParentIndexSnoc(current, i, m);
      if i + 1 < |current| && current[i + 1] == Sibling(pos) {
        assert rest[2..] == current[i + 2..];
        SinglesSubset(rest[2..]);
        ParentIndexSnoc(current, i + 1, m);
        if pos / 2 !in up { up := up[pos / 2 := m[pos]]; }
        i := i + 2;
      } else {
        SinglesSubset(rest[1..]);
        var queryIdx := m[pos];
        var pulled := if level < |paths[queryIdx]| then [paths[queryIdx][level]] else [];
        AppendAssoc(stream, pulled, EmitLevel(Singles(rest[1..]), m, paths, level));
        stream := stream + pulled;
        if pos / 2 !in up { up := up[pos / 2 := queryIdx]; }
        i := i + 1;
      }
    }
    NothingEmitted(current[|current|..], m, paths, level);
    assert current[..|current|] == current;
  }

  lemma EmptyParentIndex(ps: seq<nat>, m: map<nat, nat>)
    requires ps == []
    ensures ParentIndex(ps, m) == map[]
  {
  }

  lemma NothingEmitted(ps: seq<nat>, m: map<nat, nat>, paths: seq<seq<Digest>>, level: nat)
    requires ps == []
    ensures Singles(ps) == [] && EmitLevel(Singles(ps), m, paths, level) == []
  {
  }

  /** fold_pair_hash_witness. */
  method FoldPairHashWitness(queries: seq<nat>, paths: seq<seq<Digest>>, height: nat) returns (stream: seq<Digest>)
    requires |queries| <= |paths|
    ensures ValidIndex(ClosedIndex(FirstIndex(queries)), paths)
    ensures stream == Witness(ClosedIndex(FirstIndex(queries)), paths, 0, height)
  {
    hide ParentIndex, Sorted, EmitLevel, Singles, Parents, Closed, ToSet, ClosedIndex;
    FirstIndexFacts(queries);
    ClosedIndexValid(FirstIndex(queries), paths);
    if |queries| == 0 || height == 0 {
      NothingOpened(queries, paths, height);
      return [];
    }
    var posToPath: map<nat, nat> := map[];
    for idx := 0 to |queries|
      invariant posToPath == FirstIndex(queries[..idx])
    {
      assert queries[..idx + 1][..idx] == queries[..idx];
      if queries[idx] !in posToPath {
        posToPath := posToPath[queries[idx] := idx];
      }
    }
    assert queries[..|queries|] == queries;
    var keys := SortedKeys(posToPath.Keys);
    SortedIsAscending(posToPath.Keys);
    SetOfSorted(posToPath.Keys);
    var pairs := PairSet(keys);
    var current := SortedKeys(pairs);
    SortedIsAscending(pairs);
    var m := SpreadIndex(current, posToPath);
    stream := [];
    for level := 0 to height
      invariant ValidIndex(m, paths) && current == Sorted(m.Keys)
      invariant stream + Witness(m, paths, level, height) == Witness(ClosedIndex(FirstIndex(queries)), paths, 0, height)
    {
      ParentIndexValid(m, paths);
      var emitted, up := FoldPairLevel(current, m, paths, level);
      WitnessUnfold(m, paths, level, height, current, up, emitted);
      AppendAssoc(stream, emitted, Witness(up, paths, level + 1, height));
      stream := stream + emitted;
      current := SortedKeys(up.Keys);
      m := up;
    }
  }

  lemma SetOfSorted(s: set<nat>)
    ensures ToSet(Sorted(s)) == s
  {
    SortedIsAscending(s);
  }

  lemma NothingOpened(queries: seq<nat>, paths: seq<seq<Digest>>, height: nat)
    requires |queries| == 0 || height == 0
    requires ValidIndex(ClosedIndex(FirstIndex(queries)), paths)
    ensures Witness(ClosedIndex(FirstIndex(queries)), paths, 0, height) == []
  {
    if |queries| == 0 {
      assert ClosedIndex(FirstIndex(queries)) == map[];
      EmptyWitness(paths, 0, height);
    }
  }

  // ---- what the two streams achieve ----

  /** A level holding complete pairs only pulls nothing. */
  lemma {:induction false} CompletePairsNeedNothing(ps: seq<nat>, s: set<nat>)
    requires forall p :: p in ps ==> Sibling(p) in s
    ensures Lonely(ps, s) == []
    decreases |ps|
  {
    if |ps| > 0 {
      assert ps[0] in ps;
      CompletePairsNeedNothing(ps[1..], s);
    }
  }

  lemma ClosedIsClosed(s: set<nat>)
    ensures forall p :: p in Closed(s) ==> Sibling(p) in Closed(s)
  {
    assert forall p: nat :: Sibling(Sibling(p)) == p;
  }

  lemma ClosedLevelEmitsNothing(s: set<nat>)
    ensures Singles(Sorted(Closed(s))) == []
  {
    hide Sorted, Singles, Lonely;
    var c := Closed(s);
    SortedIsAscending(c);
    ClosedIsClosed(s);
    CompletePairsNeedNothing(Sorted(c), c);
    MissingFacts(c);
  }

  lemma ClosedBelow(s: set<nat>, k: nat)
    requires k >= 1 && forall p :: p in s ==> p < Pow2(k)
    ensures forall p :: p in Closed(s) ==> p < Pow2(k)
  {
  }

  /** One level up, each parent stands for a query below it. */
  lemma ClosedParentsStand(m: map<nat, nat>, queries: seq<nat>, paths: seq<seq<Digest>>)
    requires StandsFor(m, queries, 0) && ValidIndex(m, paths)
    requires forall p :: p in Sorted(Closed(m.Keys)) ==> p in ClosedIndex(m)
    ensures StandsFor(ParentIndex(Sorted(Closed(m.Keys)), ClosedIndex(m)), queries, 1)
  {
    hide ParentIndex, Sorted, Shr, ClosedIndex, Closed;
    var c := ClosedIndex(m);
    var ps := Sorted(Closed(m.Keys));
    ParentIndexFacts(ps, c);
    var up := ParentIndex(ps, c);
    forall q | q in up ensures up[q] < |queries| && Shr(queries[up[q]], 1) == q {
      assert InheritsIndex(up, c, q);
      var p :| p in c && p / 2 == q && up[q] == c[p];
      ClosedStands(m, queries, p);
    }
  }

  lemma ClosedStands(m: map<nat, nat>, queries: seq<nat>, p: nat)
    requires StandsFor(m, queries, 0) && p in ClosedIndex(m)
    ensures ClosedIndex(m)[p] < |queries| && Shr(queries[ClosedIndex(m)[p]], 1) == p / 2
  {
    hide Shr;
    var q := if p in m then p else Sibling(p);
    assert q in m by { if p !in m { SiblingBack(m.Keys, p); } }
    ShrOnce(queries[m[q]]);
  }

  lemma SiblingBack(s: set<nat>, p: nat)
    requires p in Closed(s) && p !in s
    ensures Sibling(p) in s
  {
  }

  lemma ShrOnce(x: nat)
    ensures Shr(x, 0) == x && Shr(x, 1) == x / 2
  {
  }

  /** Paths of the queries alone give the tree's own stream for the complete pairs. */
  lemma FoldPairStreamHonest(h: HashFn, leaves: seq<Digest>, k: nat, queries: seq<nat>, paths: seq<seq<Digest>>,
                             m: map<nat, nat>)
    requires HonestPaths(h, leaves, k, queries, paths) && k >= 1
    requires StandsFor(m, queries, 0) && ValidIndex(m, paths) && ValidIndex(ClosedIndex(m), paths)
    ensures InLevel(Closed(m.Keys), k, 0)
    ensures Witness(ClosedIndex(m), paths, 0, k) == TreeStream(h, leaves, k, Closed(m.Keys), 0)
  {
    hide Layer, Singles, Sorted, EmitLevel, ParentIndex, Parents, Pow2, SiblingNodes, ClosedIndex, Closed;
    var c, s := ClosedIndex(m), Closed(m.Keys);
    ClosedIndexValid(m, paths);
    BelowFromStands(h, leaves, k, queries, paths, m);
    ClosedBelow(m.Keys, k);
    ParentIndexValid(c, paths);
    var ps := Sorted(s);
    var up := ParentIndex(ps, c);
    ClosedParentsStand(m, queries, paths);
    ClosedLevelEmitsNothing(m.Keys);
    LevelFacts(h, leaves, k, s, 0);
    WitnessHonest(h, leaves, k, queries, paths, up, 1);
    WitnessUnfold(c, paths, 0, k, ps, up, EmitLevel([], c, paths, 0));
    EmptyStreams(h, leaves, k, s, c, paths);
  }

  lemma BelowFromStands(h: HashFn, leaves: seq<Digest>, k: nat, queries: seq<nat>, paths: seq<seq<Digest>>, m: map<nat, nat>)
    requires HonestPaths(h, leaves, k, queries, paths) && StandsFor(m, queries, 0)
    ensures forall p :: p in m.Keys ==> p < Pow2(k)
  {
    forall p | p in m.Keys ensures p < Pow2(k) {
      assert Shr(queries[m[p]], 0) == queries[m[p]];
    }
  }

  lemma EmptyStreams(h: HashFn, leaves: seq<Digest>, k: nat, s: set<nat>, c: map<nat, nat>, paths: seq<seq<Digest>>)
    requires |leaves| == Pow2(k) && k >= 1 && InLevel(s, k, 0)
    requires Singles(Sorted(s)) == []
    ensures EmitLevel([], c, paths, 0) == []
    ensures InLevel(Parents(s), k, 1)
    ensures TreeStream(h, leaves, k, s, 0) == TreeStream(h, leaves, k, Parents(s), 1)
  {
    hide Layer, Sorted, Pow2;
    LevelFacts(h, leaves, k, s, 0);
    assert LevelStream(h, leaves, k, s, 0) == [];
  }

  /** Row i of a committed layer hashes to leaf i. */
  ghost predicate Committed(h: HashFn, values: seq<seq<u32>>, leaves: seq<Digest>) {
    && |values| == |leaves|
    && forall i: nat :: i < |values| ==> leaves[i] == HashLeaf(h, values[i])
  }

  /** One entry per query: the value at its position, or at the sibling position. */
  ghost predicate HonestEntries(values: seq<seq<u32>>, queries: seq<nat>, own: seq<seq<u32>>, siblings: seq<seq<u32>>) {
    && |own| == |siblings| == |queries|
    && forall q: nat :: q < |queries| ==>
      && queries[q] < |values| && Sibling(queries[q]) < |values|
      && own[q] == values[queries[q]] && siblings[q] == values[Sibling(queries[q])]
  }

  function KnownValues<T>(m: map<nat, nat>, own: seq<T>): map<nat, T>
    requires forall p :: p in m ==> m[p] < |own|
  {
    map p | p in m :: own[m[p]]
  }

  function HashRows(h: HashFn, rows: map<nat, seq<u32>>): LayerMap {
    map p | p in rows :: HashLeaf(h, rows[p])
  }

  lemma IndexFacts(queries: seq<nat>, m: map<nat, nat>)
    requires m == FirstIndex(queries)
    ensures forall p :: p in m ==> m[p] < |queries| && queries[m[p]] == p
    ensures forall p :: p in Sorted(m.Keys) <==> p in m
    ensures forall p :: p in Missing(m.Keys) ==> p in m
  {
    hide Sorted, Missing, FirstIndex;
    FirstIndexFacts(queries);
    MissingFacts(FirstIndex(queries).Keys);
    SortedIsAscending(FirstIndex(queries).Keys);
  }

  /** What a verifier makes of the queried values and the deduplicated sibling values. */
  ghost function OpenedLeaves(queries: seq<nat>, own: seq<seq<u32>>, siblings: seq<seq<u32>>): Rebuilt<seq<u32>>
    requires |own| == |siblings| == |queries|
  {
    hide Sorted, Missing, FirstIndex, Rebuild;
    var m := FirstIndex(queries);
    IndexFacts(queries, m);
    Rebuild(Sorted(m.Keys), KnownValues(m, own), ValuesAt(Missing(m.Keys), m, siblings))
  }

  /** The fold-pair stream of the queries. */
  ghost function PairStream(queries: seq<nat>, paths: seq<seq<Digest>>, height: nat): seq<Digest>
    requires |queries| == |paths|
  {
    hide Sorted, Missing, FirstIndex, Witness;
    IndexFacts(queries, FirstIndex(queries));
    ClosedIndexValid(FirstIndex(queries), paths);
    Witness(ClosedIndex(FirstIndex(queries)), paths, 0, height)
  }

  /** The queried values and the deduplicated siblings rebuild exactly the complete pairs. */
  lemma LeavesRebuilt(values: seq<seq<u32>>, queries: seq<nat>, own: seq<seq<u32>>, siblings: seq<seq<u32>>)
    requires HonestEntries(values, queries, own, siblings) && |values| % 2 == 0
    ensures var r := OpenedLeaves(queries, own, siblings);
            r.Pairs? && r.values.Keys == Closed(ToSet(queries)) && TrueValues(r.values, values)
  {
    hide Sorted, Missing, Rebuild, FirstIndex, Closed, Singles, TrueValues, ValuesAt;
    var m := FirstIndex(queries);
    IndexFacts(queries, m);
    FirstIndexFacts(queries);
    assert m.Keys == ToSet(queries);
    SetOfSorted(m.Keys);
    MissingAreSiblings(values, queries, own, siblings, m);
    RebuildHonest(Sorted(m.Keys), KnownValues(m, own), values);
  }

  /**
   Opening one FRI layer, for any nonempty list of positions: the leaves rebuilt from
   the queried and the deduplicated sibling values, with the fold-pair hash stream,
   reconstruct the committed root.
   */
  lemma LayerOpening(h: HashFn, values: seq<seq<u32>>, leaves: seq<Digest>, k: nat, queries: seq<nat>,
                     own: seq<seq<u32>>, siblings: seq<seq<u32>>, paths: seq<seq<Digest>>)
    requires HonestPaths(h, leaves, k, queries, paths) && k >= 1 && |queries| > 0
    requires Committed(h, values, leaves) && HonestEntries(values, queries, own, siblings)
    ensures OpenedLeaves(queries, own, siblings).Pairs?
    ensures Reconstruct(h, HashRows(h, OpenedLeaves(queries, own, siblings).values), PairStream(queries, paths, k), k)
         == Ok(Root(h, leaves, k))
  {
    hide Sorted, Missing, Rebuild, Witness, TreeStream, Reconstruct, Root, FirstIndex, Closed, Pow2, HashLeaf,
      Singles, ClosedIndex, Layer, OpenedLeaves, HashRows, TrueValues;
    var m := FirstIndex(queries);
    IndexFacts(queries, m);
    EvenLayer(values, leaves, k);
    LeavesRebuilt(values, queries, own, siblings);
    var r := OpenedLeaves(queries, own, siblings);
    FirstIndexFacts(queries);
    assert m.Keys == ToSet(queries);
    StandsForQueries(queries, m);
    ClosedIndexValid(m, paths);
    FoldPairStreamHonest(h, leaves, k, queries, paths, m);
    HashedRowsAgree(h, values, leaves, r.values);
    ClosedContains(m.Keys, queries[0]);
    ReconstructHonest(h, leaves, k, HashRows(h, r.values), 0);
  }

  lemma EvenLayer(values: seq<seq<u32>>, leaves: seq<Digest>, k: nat)
    requires |values| == |leaves| == Pow2(k) && k >= 1
    ensures |values| % 2 == 0
  {
  }

  lemma ClosedContains(s: set<nat>, p: nat)
    requires p in s
    ensures p in Closed(s)
  {
  }

  lemma MissingAreSiblings(values: seq<seq<u32>>, queries: seq<nat>, own: seq<seq<u32>>, siblings: seq<seq<u32>>,
                           m: map<nat, nat>)
    requires HonestEntries(values, queries, own, siblings) && |values| % 2 == 0
    requires forall p :: p in m ==> m[p] < |queries| && queries[m[p]] == p
    requires forall p :: p in Missing(m.Keys) ==> p in m
    ensures TrueValues(KnownValues(m, own), values)
    ensures forall p :: p in Singles(Sorted(m.Keys)) ==> p < |values|
    ensures ValuesAt(Missing(m.Keys), m, siblings) == SiblingValues(Singles(Sorted(m.Keys)), values)
  {
    hide Missing, Singles, Sorted;
    MissingFacts(m.Keys);
  }

  lemma HashedRowsAgree(h: HashFn, values: seq<seq<u32>>, leaves: seq<Digest>, rows: map<nat, seq<u32>>)
    requires Committed(h, values, leaves) && TrueValues(rows, values)
    ensures Agrees(HashRows(h, rows), Layer(h, leaves, 0))
    ensures HashRows(h, rows).Keys == rows.Keys
  {
    hide HashLeaf;
  }
}
