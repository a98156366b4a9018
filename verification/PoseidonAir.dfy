/**
 The permutation run in place, the trace it leaves, and the transition constraints
 that trace satisfies and that force it (src/poseidon.rs).
 */
module PoseidonAir {
  import opened M31Field
  import opened Poseidon2

  // ---- in-place rounds ----

  method FoldSum(state: array<M31>) returns (s: M31)
    requires state.Length == 8
    ensures s == SumTo(state[..], 8)
  {
    hide Add;
    s := 0;
    for i := 0 to 8
      invariant s == SumTo(state[..], i)
    {
      s := Add(s, state[i]);
    }
  }

  /** m_ext */
  method MExtInPlace(state: array<M31>)
    requires state.Length == 8
    modifies state
    ensures state[..] == MExt(old(state[..]))
  {
    hide Add, SumTo;
    var s := FoldSum(state);
    for i := 0 to 8
      invariant forall j :: 0 <= j < i ==> state[j] == Add(Add(old(state[j]), old(state[j])), s)
      invariant forall j :: i <= j < 8 ==> state[j] == old(state[j])
    {
      state[i] := Add(Add(state[i], state[i]), s);
    }
  }

  /** m_int */
  method MIntInPlace(state: array<M31>)
    requires state.Length == 8
    modifies state
    ensures state[..] == MInt(old(state[..]))
  {
    hide Add, SumTo;
    var s := FoldSum(state);
    for i := 0 to 8
      invariant forall j :: 0 <= j < i ==> state[j] == Add(old(state[j]), s)
      invariant forall j :: i <= j < 8 ==> state[j] == old(state[j])
    {
      state[i] := Add(state[i], s);
    }
  }

  /** Round constants, S-box on every entry, external layer. */
  method FullRoundInPlace(state: array<M31>, c: State)
    requires state.Length == 8
    modifies state
    ensures state[..] == FullRound(old(state[..]), c)
  {
    hide Add, Sbox, MExt;
    for j := 0 to 8
      invariant forall k :: 0 <= k < j ==> state[k] == Add(old(state[k]), c[k])
      invariant forall k :: j <= k < 8 ==> state[k] == old(state[k])
    {
      state[j] := Add(state[j], c[j]);
    }
    assert state[..] == Shifted(old(state[..]), c);
    for j := 0 to 8
      invariant forall k :: 0 <= k < j ==> state[k] == Sbox(Shifted(old(state[..]), c)[k])
      invariant forall k :: j <= k < 8 ==> state[k] == Shifted(old(state[..]), c)[k]
    {
      state[j] := Sbox(state[j]);
    }
    assert state[..] == SboxAll(Shifted(old(state[..]), c));
    MExtInPlace(state);
  }

  /** Constant and S-box on the first entry only, internal layer. */
  method PartialRoundInPlace(state: array<M31>, c: M31)
    requires state.Length == 8
    modifies state
    ensures state[..] == PartialRound(old(state[..]), c)
  {
    hide Add, Sbox, MInt;
    state[0] := Add(state[0], c);
    state[0] := Sbox(state[0]);
    assert state[..] == old(state[..])[0 := Sbox(Add(old(state[0]), c))];
    MIntInPlace(state);
  }

  /** poseidon_permutation */
  method PoseidonPermutation(rc: Constants, input: State) returns (output: State)
    requires ValidConstants(rc)
    ensures output == Permutation(rc, input)
  {
    hide FullRound, PartialRound;
    var state := new M31[8](i requires 0 <= i < 8 => input[i]);
    assert state[..] == input;
    for r := 0 to RF_BEFORE
      invariant state[..] == AfterRounds(rc, input, r)
    {
      FullRoundInPlace(state, rc.full[r]);
    }
    for r := 0 to RP
      invariant state[..] == AfterRounds(rc, input, RF_BEFORE + r)
    {
      PartialRoundInPlace(state, rc.partial[r]);
    }
    for r := 0 to RF_AFTER
      invariant state[..] == AfterRounds(rc, input, RF_BEFORE + RP + r)
    {
      FullRoundInPlace(state, rc.full[RF_BEFORE + r]);
    }
    output := state[..];
  }

  // ---- the trace ----

  type Columns = c: seq<seq<M31>> | |c| == 8 witness [[], [], [], [], [], [], [], []]

  predicate RowInRange(columns: Columns, row: nat) { forall j :: 0 <= j < 8 ==> row < |columns[j]| }

  function RowAt(columns: Columns, row: nat): State
    requires RowInRange(columns, row)
  {
    seq(8, j requires 0 <= j < 8 => columns[j][row])
  }

  /** The input of block b. */
  function BlockInput(b: nat): State { seq(8, j requires 0 <= j < 8 => (b * 8 + j + 1) % 0x7FFF_FFFF) }

  /** Block inputs count on from 1: each entry is one more than the entry before it. */
  lemma InputsCountUp(b: nat, j: nat)
    requires j < 8
    ensures BlockInput(0)[0] == 1
    ensures j < 7 ==> BlockInput(b)[j + 1] == Add(BlockInput(b)[j], 1)
    ensures BlockInput(b + 1)[0] == Add(BlockInput(b)[7], 1)
  {
    hide Red, Add;
    RedId(1);
    RedAdd(b * 8 + j + 1, 1); RedAdd(b * 8 + 7 + 1, 1);
    RedIs(b * 8 + j + 1); RedIs(b * 8 + j + 2); RedIs(b * 8 + 8); RedIs(b * 8 + 9);
  }

  lemma RedIs(x: int)
    ensures Red(x) == x % 0x7FFF_FFFF
  {
  }

  /** Row i of the trace: block i / 30 after round i % 30. */
  function TraceRow(rc: Constants, i: nat): State
    requires ValidConstants(rc)
  {
    AfterRounds(rc, BlockInput(i / 30), i % 30 + 1)
  }

  ghost predicate IsTrace(rc: Constants, columns: Columns, n: nat)
    requires ValidConstants(rc)
  {
    forall j :: 0 <= j < 8 ==> |columns[j]| == n && forall i: nat :: i < n ==> columns[j][i] == TraceRow(rc, i)[j]
  }

  method PushRow(rc: Constants, columns: Columns, state: array<M31>, ghost n: nat) returns (pushed: Columns)
    requires ValidConstants(rc) && state.Length == 8 && IsTrace(rc, columns, n) && state[..] == TraceRow(rc, n)
    ensures IsTrace(rc, pushed, n + 1)
  {
    hide TraceRow;
    var now := state[..];
    pushed := seq(8, j requires 0 <= j < 8 => columns[j] + [now[j]]);
  }

  /** One block: thirty rounds, one row pushed after each. */
  method TraceBlock(rc: Constants, columns: Columns, block: nat) returns (more: Columns, last: State)
    requires ValidConstants(rc) && IsTrace(rc, columns, 30 * block)
    ensures IsTrace(rc, more, 30 * block + 30) && last == Permutation(rc, BlockInput(block))
  {
    hide FullRound, PartialRound, IsTrace, BlockInput;
    more := columns;
    var input := BlockInput(block);
    var state := new M31[8](i requires 0 <= i < 8 => input[i]);
    assert state[..] == input;
    for r := 0 to RF_BEFORE
      invariant state[..] == AfterRounds(rc, input, r) && IsTrace(rc, more, 30 * block + r)
    {
      FullRoundInPlace(state, rc.full[r]);
      RowNumber(block, r);
      more := PushRow(rc, more, state, 30 * block + r);
    }
    for r := 0 to RP
      invariant state[..] == AfterRounds(rc, input, RF_BEFORE + r) && IsTrace(rc, more, 30 * block + RF_BEFORE + r)
    {
      PartialRoundInPlace(state, rc.partial[r]);
      RowNumber(block, RF_BEFORE + r);
      more := PushRow(rc, more, state, 30 * block + RF_BEFORE + r);
    }
    for r := 0 to RF_AFTER
      invariant state[..] == AfterRounds(rc, input, RF_BEFORE + RP + r) && IsTrace(rc, more, 30 * block + RF_BEFORE + RP + r)
    {
      FullRoundInPlace(state, rc.full[RF_BEFORE + r]);
      RowNumber(block, RF_BEFORE + RP + r);
      more := PushRow(rc, more, state, 30 * block + RF_BEFORE + RP + r);
    }
    last := state[..];
  }

  lemma RowNumber(block: nat, r: nat)
    requires r < 30
    ensures (30 * block + r) / 30 == block && (30 * block + r) % 30 == r
  {
  }

  /** generate_trace for n rows: as many whole blocks as fit. */
  method GenerateTrace(rc: Constants, n: nat) returns (columns: Columns, first: State, last: State)
    requires ValidConstants(rc) && n >= NUM_ROUNDS
    ensures IsTrace(rc, columns, 30 * (n / 30))
    ensures first == BlockInput(0) && last == Permutation(rc, BlockInput(n / 30 - 1))
  {
    hide Permutation, TraceRow;
    var nBlocks := n / NUM_ROUNDS;
    first := seq(8, j requires 0 <= j < 8 => (j + 1) % 0x7FFF_FFFF);
    columns := seq(8, _ => []);
    last := [0, 0, 0, 0, 0, 0, 0, 0];
    for block := 0 to nBlocks
      invariant IsTrace(rc, columns, 30 * block)
      invariant block > 0 ==> last == Permutation(rc, BlockInput(block - 1))
    {
      columns, last := TraceBlock(rc, columns, block);
    }
  }

  // ---- constraints ----

  function NextRound(row: nat): nat { (row % NUM_ROUNDS + 1) % NUM_ROUNDS }

  /** Next row minus the round applied to this row. */
  function ConstraintsAt(rc: Constants, columns: Columns, row: nat, evalSize: nat): State
    requires ValidConstants(rc) && evalSize > 0 && RowInRange(columns, row) && RowInRange(columns, (row + 1) % evalSize)
  {
    var expected := Round(rc, NextRound(row), RowAt(columns, row));
    seq(8, j requires 0 <= j < 8 => Sub(columns[j][(row + 1) % evalSize], expected[j]))
  }

  /** eval_constraints_at */
  method EvalConstraintsAt(rc: Constants, columns: Columns, row: nat, evalSize: nat) returns (constraints: State)
    requires ValidConstants(rc) && evalSize > 0 && RowInRange(columns, row) && RowInRange(columns, (row + 1) % evalSize)
    ensures constraints == ConstraintsAt(rc, columns, row, evalSize)
  {
    hide FullRound, PartialRound, Sub;
    var roundInBlock := row % NUM_ROUNDS;
    var nextRound := (roundInBlock + 1) % NUM_ROUNDS;
    var nextRow := (row + 1) % evalSize;
    var state := new M31[8](j requires 0 <= j < 8 => columns[j][row]);
    assert state[..] == RowAt(columns, row);
    if nextRound >= RF_BEFORE && nextRound < RF_BEFORE + RP {
      PartialRoundInPlace(state, rc.partial[nextRound - RF_BEFORE]);
    } else {
      var fullR := if nextRound < RF_BEFORE then nextRound else nextRound - RP;
      FullRoundInPlace(state, rc.full[fullR]);
    }
    var expected := state[..];
    constraints := seq(8, j requires 0 <= j < 8 => Sub(columns[j][nextRow], expected[j]));
  }

  /** Raising the next row's entry j by v raises constraint j by v and no other. */
  lemma ConstraintSlope(rc: Constants, columns: Columns, row: nat, evalSize: nat, j: nat, v: M31)
    requires ValidConstants(rc) && evalSize > 0 && RowInRange(columns, row) && RowInRange(columns, (row + 1) % evalSize)
    requires j < 8 && (row + 1) % evalSize != row
    ensures RowInRange(Bumped(columns, (row + 1) % evalSize, j, v), row) && RowInRange(Bumped(columns, (row + 1) % evalSize, j, v), (row + 1) % evalSize)
    ensures var c := ConstraintsAt(rc, columns, row, evalSize);
            ConstraintsAt(rc, Bumped(columns, (row + 1) % evalSize, j, v), row, evalSize) == c[j := Add(c[j], v)]
  {
    hide Round;
    var next := (row + 1) % evalSize;
    var bumped := Bumped(columns, next, j, v);
    assert RowAt(bumped, row) == RowAt(columns, row);
    var a, b := ConstraintsAt(rc, columns, row, evalSize), ConstraintsAt(rc, bumped, row, evalSize);
    forall k | 0 <= k < 8 ensures b[k] == a[j := Add(a[j], v)][k] {
      SlopeOfDifference(columns[k][next], Round(rc, NextRound(row), RowAt(columns, row))[k], v);
    }
  }

  function Bumped(columns: Columns, row: nat, j: nat, v: M31): Columns
    requires RowInRange(columns, row) && j < 8
  {
    var column: seq<M31> := columns[j][row := Add(columns[j][row], v)];
    columns[j := column]
  }

  lemma SlopeOfDifference(x: M31, y: M31, v: M31)
    ensures Sub(Add(x, v), y) == Add(Sub(x, y), v)
  {
  }

  const ZERO_STATE: State := [0, 0, 0, 0, 0, 0, 0, 0]

  lemma ConstraintsZeroIff(rc: Constants, columns: Columns, row: nat, evalSize: nat)
    requires ValidConstants(rc) && evalSize > 0 && RowInRange(columns, row) && RowInRange(columns, (row + 1) % evalSize)
    ensures ConstraintsAt(rc, columns, row, evalSize) == ZERO_STATE
       <==> RowAt(columns, (row + 1) % evalSize) == Round(rc, NextRound(row), RowAt(columns, row))
  {
    hide Round;
    var c := ConstraintsAt(rc, columns, row, evalSize);
    if c == ZERO_STATE {
      forall j | 0 <= j < 8
        ensures RowAt(columns, (row + 1) % evalSize)[j] == Round(rc, NextRound(row), RowAt(columns, row))[j]
      {
        assert c[j] == 0;
      }
    }
  }

  /** Block b lies inside the columns and the evaluation domain. */
  ghost predicate BlockInRange(columns: Columns, b: nat, evalSize: nat) {
    30 * b + 30 <= evalSize && forall j :: 0 <= j < 8 ==> 30 * b + 30 <= |columns[j]|
  }

  /** Transition r inside block b vanishes. */
  ghost predicate StepVanishes(rc: Constants, columns: Columns, b: nat, evalSize: nat, r: nat)
    requires ValidConstants(rc) && BlockInRange(columns, b, evalSize) && r < 29
  {
    ConstraintsAt(rc, columns, 30 * b + r, evalSize) == ZERO_STATE
  }

  /** The 29 transitions inside the block that starts at row 30 b all vanish. */
  ghost predicate BlockSatisfied(rc: Constants, columns: Columns, b: nat, evalSize: nat)
    requires ValidConstants(rc) && BlockInRange(columns, b, evalSize)
  {
    forall r: nat :: r < 29 ==> StepVanishes(rc, columns, b, evalSize, r)
  }

  /** Row r of block b is the input after rounds 0..r. */
  ghost predicate RowIsAfter(rc: Constants, columns: Columns, b: nat, input: State, r: nat)
    requires ValidConstants(rc) && r < 30 && RowInRange(columns, 30 * b + r)
  {
    RowAt(columns, 30 * b + r) == AfterRounds(rc, input, r + 1)
  }

  lemma SmallMod(x: nat, n: nat)
    requires x < n
    ensures x % n == x
  {
  }

  lemma InBlockStep(rc: Constants, columns: Columns, b: nat, evalSize: nat, r: nat)
    requires ValidConstants(rc) && BlockInRange(columns, b, evalSize) && r < 29
    ensures StepVanishes(rc, columns, b, evalSize, r)
       <==> RowAt(columns, 30 * b + r + 1) == Round(rc, r + 1, RowAt(columns, 30 * b + r))
  {
    hide Round, ConstraintsAt, RowAt;
    RowNumber(b, r);
    SmallMod(30 * b + r + 1, evalSize);
    ConstraintsZeroIff(rc, columns, 30 * b + r, evalSize);
  }

  lemma AfterRoundsSnoc(rc: Constants, s: State, n: nat)
    requires ValidConstants(rc) && n < NUM_ROUNDS
    ensures AfterRounds(rc, s, n + 1) == Round(rc, n, AfterRounds(rc, s, n))
    ensures AfterRounds(rc, s, 0) == s
  {
    hide Round;
  }

  /**
   A block whose first row is round 0 of some input satisfies its constraints exactly
   when every row is the input after that many rounds.
   */
  lemma BlockSatisfiedIff(rc: Constants, columns: Columns, b: nat, evalSize: nat, input: State)
    requires ValidConstants(rc) && BlockInRange(columns, b, evalSize)
    requires RowAt(columns, 30 * b) == Round(rc, 0, input)
    ensures BlockSatisfied(rc, columns, b, evalSize) <==> forall r: nat :: r < 30 ==> RowIsAfter(rc, columns, b, input, r)
  {
    hide Round, AfterRounds, StepVanishes, RowIsAfter, RowAt;
    if BlockSatisfied(rc, columns, b, evalSize) {
      forall r: nat | r < 30 ensures RowIsAfter(rc, columns, b, input, r) {
        RowsForced(rc, columns, b, evalSize, input, r);
      }
    }
    if forall r: nat :: r < 30 ==> RowIsAfter(rc, columns, b, input, r) {
      forall r: nat | r < 29 ensures StepVanishes(rc, columns, b, evalSize, r) {
        assert RowIsAfter(rc, columns, b, input, r) && RowIsAfter(rc, columns, b, input, r + 1);
        RowsThenStep(rc, columns, b, evalSize, input, r);
      }
    }
  }

  lemma RowsThenStep(rc: Constants, columns: Columns, b: nat, evalSize: nat, input: State, r: nat)
    requires ValidConstants(rc) && BlockInRange(columns, b, evalSize) && r < 29
    requires RowIsAfter(rc, columns, b, input, r) && RowIsAfter(rc, columns, b, input, r + 1)
    ensures StepVanishes(rc, columns, b, evalSize, r)
  {
    hide Round, AfterRounds, StepVanishes, RowAt;
    InBlockStep(rc, columns, b, evalSize, r);
    AfterRoundsSnoc(rc, input, r + 1);
    assert 30 * b + (r + 1) == 30 * b + r + 1;
  }

  lemma {:induction false} RowsForced(rc: Constants, columns: Columns, b: nat, evalSize: nat, input: State, r: nat)
    requires ValidConstants(rc) && BlockInRange(columns, b, evalSize)
    requires RowAt(columns, 30 * b) == Round(rc, 0, input) && BlockSatisfied(rc, columns, b, evalSize) && r < 30
    ensures RowIsAfter(rc, columns, b, input, r)
    decreases r
  {
    hide Round, AfterRounds, RowAt, StepVanishes;
    if r == 0 {
      AfterRoundsSnoc(rc, input, 0);
    } else {
      RowsForced(rc, columns, b, evalSize, input, r - 1);
      assert StepVanishes(rc, columns, b, evalSize, r - 1);
      InBlockStep(rc, columns, b, evalSize, r - 1);
      AfterRoundsSnoc(rc, input, r);
      assert 30 * b + (r - 1) + 1 == 30 * b + r;
    }
  }

  /** Zero constraints on a block force its last row to be the permutation of its input. */
  lemma ConstraintsForcePermutation(rc: Constants, columns: Columns, b: nat, evalSize: nat, input: State)
    requires ValidConstants(rc) && BlockInRange(columns, b, evalSize)
    requires RowAt(columns, 30 * b) == Round(rc, 0, input) && BlockSatisfied(rc, columns, b, evalSize)
    ensures RowAt(columns, 30 * b + 29) == Permutation(rc, input)
  {
    hide Round, AfterRounds, RowAt, BlockSatisfied;
    RowsForced(rc, columns, b, evalSize, input, 29);
  }

  /** Every block of a generated trace satisfies its constraints and ends in the permutation of its input. */
  lemma TraceSatisfies(rc: Constants, columns: Columns, n: nat, b: nat, evalSize: nat)
    requires ValidConstants(rc) && IsTrace(rc, columns, n) && 30 * b + 30 <= n <= evalSize
    ensures BlockInRange(columns, b, evalSize) && BlockSatisfied(rc, columns, b, evalSize)
    ensures RowAt(columns, 30 * b + 29) == Permutation(rc, BlockInput(b))
  {
    hide Round, AfterRounds, BlockInput, BlockSatisfied;
    forall r: nat | r < 30 ensures RowIsAfter(rc, columns, b, BlockInput(b), r) {
      RowNumber(b, r);
      assert TraceRow(rc, 30 * b + r) == AfterRounds(rc, BlockInput(b), r + 1);
    }
    assert RowIsAfter(rc, columns, b, BlockInput(b), 0) && RowIsAfter(rc, columns, b, BlockInput(b), 29);
    AfterRoundsSnoc(rc, BlockInput(b), 0);
    BlockSatisfiedIff(rc, columns, b, evalSize, BlockInput(b));
  }
}
