/**
  * What the rows emitted by the transition-table generator mean: the layout of one
  * scan step, the single row that advances the counter, exactly which symbols each
  * step reads, when a step is deterministic and when it is not, and, for a whole
  * program, that the table only grows, that its states stay within the counter's
  * range, that every allocated state reads every symbol, and how loops return.
  */
module CalculationProperties {
  import opened Wrappers
  import opened Instructions
  import opened Parsing
  import opened Calculation

  /** Some row attached to state `state` reads `c`. */
  predicate Reads(rows: seq<State>, state: nat, c: char) {
    exists i :: 0 <= i < |rows| && rows[i].currentState == state && rows[i].replace.0 == c
  }

  /** No two rows leave the same state on the same symbol. */
  predicate Deterministic(rows: seq<State>) {
    forall i, j :: 0 <= i < j < |rows| ==>
      rows[i].currentState != rows[j].currentState || rows[i].replace.0 != rows[j].replace.0
  }

  predicate NoDuplicates(s: seq<char>) {
    forall i, j :: 0 <= i < j < |s| ==> s[i] != s[j]
  }

  /** The conditions under which one scan step reads each symbol through one row only. */
  predicate WellFormedStep(alphabet: seq<char>, target: char, replacements: seq<Replace>) {
    && NoDuplicates(alphabet)
    && Blank !in alphabet
    && (forall i, j :: 0 <= i < j < |replacements| ==> replacements[i].0 != replacements[j].0)
    && (forall i :: 0 <= i < |replacements| ==> replacements[i].0 != target && replacements[i].0 != Blank)
  }

  lemma {:induction false} WithoutNoDuplicates(symbols: seq<char>, c: char)
    requires NoDuplicates(symbols)
    ensures NoDuplicates(Without(symbols, c))
  {
    if symbols != [] {
      var n := |symbols| - 1;
      WithoutNoDuplicates(symbols[..n], c);
      assert symbols[n] !in symbols[..n];
    }
  }

  lemma {:induction false} UnreplacedNoDuplicates(symbols: seq<char>, replacements: seq<Replace>)
    requires NoDuplicates(symbols)
    ensures NoDuplicates(Unreplaced(symbols, replacements))
  {
    if symbols != [] {
      var n := |symbols| - 1;
      UnreplacedNoDuplicates(symbols[..n], replacements);
      assert symbols[n] !in symbols[..n];
    }
  }

  /**
    * The layout of one scan step: self-loops over the kept symbols in alphabet
    * order, then one row per replacement in list order, then the advancing target
    * row, then (unless the target is the blank) the blank self-loop; nothing else.
    */
  lemma MoveRowsLayout(alphabet: seq<char>, target: char, replacements: seq<Replace>, direction: Direction,
                       current: nat)
    ensures var rows, kept := MoveRows(alphabet, target, replacements, direction, current),
                              Kept(alphabet, target, replacements);
      && (forall c :: c in kept <==> c in alphabet && c != target && !IsReplaced(replacements, c))
      && |rows| == |kept| + |replacements| + 1 + (if target != Blank then 1 else 0)
      && (forall i :: 0 <= i < |kept| ==> rows[i] == State(current, current, direction, (kept[i], kept[i])))
      && (forall j :: 0 <= j < |replacements| ==>
            rows[|kept| + j] == State(current, current, direction, replacements[j]))
      && rows[|kept| + |replacements|] == State(current, current + 1, direction.Opposite(), (target, target))
      && (target != Blank ==> rows[|kept| + |replacements| + 1] == State(current, current, direction, (Blank, Blank)))
  {
  }

  /**
    * One scan step leaves state `current` only, and exactly one of its rows
    * advances to `current + 1`: the target row, moving the opposite way; every other
    * row stays in `current` and moves the given way.
    */
  lemma MoveRowsAdvanceOnce(alphabet: seq<char>, target: char, replacements: seq<Replace>, direction: Direction,
                            current: nat)
    ensures var rows, at := MoveRows(alphabet, target, replacements, direction, current),
                            |Kept(alphabet, target, replacements)| + |replacements|;
      && at < |rows|
      && (forall i :: 0 <= i < |rows| ==> rows[i].currentState == current)
      && (forall i :: 0 <= i < |rows| ==> (rows[i].nextState == current + 1 <==> i == at))
      && rows[at].replace == (target, target) && rows[at].direction == direction.Opposite()
      && (forall i :: 0 <= i < |rows| && i != at ==> rows[i].nextState == current && rows[i].direction == direction)
  {
    MoveRowsLayout(alphabet, target, replacements, direction, current);
  }

  /**
    * A scan step reads exactly the alphabet, the blank, its target and its replace
    * sources: every such symbol has a row, and no row reads anything else.
    */
  lemma MoveRowsReads(alphabet: seq<char>, target: char, replacements: seq<Replace>, direction: Direction,
                      current: nat, c: char)
    ensures Reads(MoveRows(alphabet, target, replacements, direction, current), current, c) <==>
            c in alphabet || c == Blank || c == target || IsReplaced(replacements, c)
  {
    var rows := MoveRows(alphabet, target, replacements, direction, current);
    var kept := Kept(alphabet, target, replacements);
    var at := |kept| + |replacements|;
    MoveRowsLayout(alphabet, target, replacements, direction, current);
    forall i | 0 <= i < |rows|
      ensures rows[i].replace.0 in alphabet || rows[i].replace.0 == Blank || rows[i].replace.0 == target ||
              IsReplaced(replacements, rows[i].replace.0)
    {
      if i < |kept| {
        assert kept[i] in kept;
      } else if i < at {
        assert replacements[i - |kept|].0 == rows[i].replace.0;
      }
    }
    if c == target {
      assert rows[at].replace.0 == c;
    } else if c == Blank {
      assert rows[at + 1].replace.0 == c;
    } else if IsReplaced(replacements, c) {
      var j :| 0 <= j < |replacements| && replacements[j].0 == c;
      assert rows[|kept| + j].replace.0 == c;
    } else if c in alphabet {
      assert c in kept;
      var i :| 0 <= i < |kept| && kept[i] == c;
      assert rows[i].replace.0 == c;
    }
  }

  /** Under the well-formedness conditions a scan step reads each symbol through one row only. */
  lemma MoveRowsDeterministic(alphabet: seq<char>, target: char, replacements: seq<Replace>, direction: Direction,
                              current: nat)
    requires WellFormedStep(alphabet, target, replacements)
    ensures Deterministic(MoveRows(alphabet, target, replacements, direction, current))
  {
    var rows := MoveRows(alphabet, target, replacements, direction, current);
    var kept := Kept(alphabet, target, replacements);
    var at := |kept| + |replacements|;
    MoveRowsLayout(alphabet, target, replacements, direction, current);
    WithoutNoDuplicates(alphabet, target);
    UnreplacedNoDuplicates(Without(alphabet, target), replacements);
    forall i, j | 0 <= i < j < |rows| ensures rows[i].replace.0 != rows[j].replace.0 {
      if i < |kept| {
        assert kept[i] in kept;
        if j < |kept| {
        } else if j < at {
          assert IsReplaced(replacements, replacements[j - |kept|].0);
        }
      } else if i < at {
        assert replacements[i - |kept|].0 != target && replacements[i - |kept|].0 != Blank;
      }
    }
  }

  /**
    * A target that is also a replace source gets two rows in the same state, one
    * that stays and one that advances: the step is not deterministic.
    */
  lemma TargetReplacedConflict(alphabet: seq<char>, target: char, replacements: seq<Replace>, direction: Direction,
                               current: nat, j: nat)
    requires j < |replacements| && replacements[j].0 == target
    ensures !Deterministic(MoveRows(alphabet, target, replacements, direction, current))
  {
    var rows := MoveRows(alphabet, target, replacements, direction, current);
    var kept := Kept(alphabet, target, replacements);
    MoveRowsLayout(alphabet, target, replacements, direction, current);
    var a, b := |kept| + j, |kept| + |replacements|;
    assert rows[a].currentState == rows[b].currentState && rows[a].replace.0 == rows[b].replace.0;
  }

  /** Every row that closes a loop leaves `current` for `beginLoopState`, moving the given way. */
  lemma EndLoopRowsLeave(alphabet: seq<char>, replacements: seq<Replace>, direction: Direction,
                         beginLoopState: nat, current: nat)
    ensures var rows := EndLoopRows(alphabet, replacements, direction, beginLoopState, current);
      forall i :: 0 <= i < |rows| ==>
        rows[i].currentState == current && rows[i].nextState == beginLoopState && rows[i].direction == direction
  {
  }

  /**
    * The rows that close a loop: one per alphabet symbol no replacement rewrites and
    * one per replacement, all leaving state `current` for `beginLoopState` the given
    * way; they read exactly the alphabet and the replace sources (so no blank row).
    */
  lemma EndLoopRowsShape(alphabet: seq<char>, replacements: seq<Replace>, direction: Direction,
                         beginLoopState: nat, current: nat, c: char)
    ensures var rows := EndLoopRows(alphabet, replacements, direction, beginLoopState, current);
      && |rows| == |Unreplaced(alphabet, replacements)| + |replacements|
      && (forall i :: 0 <= i < |rows| ==>
            rows[i].currentState == current && rows[i].nextState == beginLoopState && rows[i].direction == direction)
      && (Reads(rows, current, c) <==> c in alphabet || IsReplaced(replacements, c))
  {
    var rows := EndLoopRows(alphabet, replacements, direction, beginLoopState, current);
    var kept := Unreplaced(alphabet, replacements);
    forall i | 0 <= i < |rows| ensures rows[i].replace.0 in alphabet || IsReplaced(replacements, rows[i].replace.0) {
      if i < |kept| {
        assert kept[i] in kept;
      } else {
        assert replacements[i - |kept|].0 == rows[i].replace.0;
      }
    }
    if IsReplaced(replacements, c) {
      var j :| 0 <= j < |replacements| && replacements[j].0 == c;
      assert rows[|kept| + j].replace.0 == c;
    } else if c in alphabet {
      assert c in kept;
      var i :| 0 <= i < |kept| && kept[i] == c;
      assert rows[i].replace.0 == c;
    }
  }

  lemma ReadsAppend(a: seq<State>, b: seq<State>, state: nat, c: char)
    requires Reads(a, state, c) || Reads(b, state, c)
    ensures Reads(a + b, state, c)
  {
    if Reads(a, state, c) {
      var i :| 0 <= i < |a| && a[i].currentState == state && a[i].replace.0 == c;
      assert (a + b)[i] == a[i];
    } else {
      var i :| 0 <= i < |b| && b[i].currentState == state && b[i].replace.0 == c;
      assert (a + b)[|a| + i] == b[i];
    }
  }

  /** The recorded loop entry is never ahead of the counter. */
  lemma {:induction false} MarkerBound(program: seq<Instruction>)
    ensures Marker(program).Some? ==> Marker(program).value <= Moves(program)
  {
    if program != [] {
      MarkerBound(program[..|program| - 1]);
    }
  }

  /**
    * The loop entry after a program is the counter at its last `BeginLoop`, unless an
    * `EndLoop` came later; with no loop instruction at all there is none.
    */
  lemma {:induction false} MarkerAfter(program: seq<Instruction>, j: nat)
    requires j < |program|
    requires forall l :: j < l < |program| ==> !program[l].BeginLoop? && !program[l].EndLoop?
    ensures program[j].BeginLoop? ==> Marker(program) == Some(Moves(program[..j]))
    ensures program[j].EndLoop? ==> Marker(program) == None
  {
    var n := |program| - 1;
    if j < n {
      MarkerAfter(program[..n], j);
      assert program[..n][..j] == program[..j];
    }
  }

  lemma {:induction false} MarkerWithoutLoops(program: seq<Instruction>)
    requires forall l :: 0 <= l < |program| ==> !program[l].BeginLoop? && !program[l].EndLoop?
    ensures Marker(program) == None
  {
    if program != [] {
      MarkerWithoutLoops(program[..|program| - 1]);
    }
  }

  /** The table is only ever appended to: the rows of a prefix of the program start the rows of the program. */
  lemma {:induction false} ProgramRowsGrow(alphabet: seq<char>, program: seq<Instruction>, n: nat)
    requires Closable(program) && n <= |program|
    ensures Closable(program[..n])
    ensures ProgramRows(alphabet, program[..n]) <= ProgramRows(alphabet, program)
  {
    ClosablePrefix(program, n);
    if n == |program| {
      assert program[..n] == program;
    } else {
      var m := |program| - 1;
      ProgramStep(alphabet, program, m);
      assert program[..m + 1] == program;
      ProgramRowsGrow(alphabet, program[..m], n);
      assert program[..m][..n] == program[..n];
      PrefixOfAppend(ProgramRows(alphabet, program[..n]), ProgramRows(alphabet, program[..m]),
                     StepRows(alphabet, program[m], Moves(program[..m]), Marker(program[..m])));
    }
  }

  lemma PrefixOfAppend(a: seq<State>, b: seq<State>, c: seq<State>)
    requires a <= b
    ensures a <= b + c
  {
    assert (b + c)[..|a|] == b[..|a|];
  }

  /** The rows of instruction `i` follow the rows of the instructions before it in the final table. */
  lemma StepRowsInTable(alphabet: seq<char>, program: seq<Instruction>, i: nat)
    requires Closable(program) && i < |program|
    ensures Closable(program[..i]) && (program[i].EndLoop? ==> Marker(program[..i]).Some?)
    ensures ProgramRows(alphabet, program[..i]) + StepRows(alphabet, program[i], Moves(program[..i]), Marker(program[..i]))
            <= ProgramRows(alphabet, program)
  {
    ProgramStep(alphabet, program, i);
    ProgramRowsGrow(alphabet, program, i + 1);
  }

  /** A row of `step` that reads `c` in `state` sits, in any table that `head + step` starts, right after `head`. */
  lemma ReadsAfter(rows: seq<State>, head: seq<State>, step: seq<State>, state: nat, c: char)
    requires head + step <= rows && Reads(step, state, c)
    ensures exists r :: |head| <= r < |head| + |step| && rows[r].currentState == state && rows[r].replace.0 == c
  {
    var a :| 0 <= a < |step| && step[a].currentState == state && step[a].replace.0 == c;
    assert rows[|head| + a] == (head + step)[|head| + a] == step[a];
  }

  /** A symbol that instruction `i` reads in its state is read there by a row of the final table after the earlier rows. */
  lemma StepReadsInTable(alphabet: seq<char>, program: seq<Instruction>, i: nat, c: char)
    requires Closable(program) && i < |program|
    requires Closable(program[..i]) && (program[i].EndLoop? ==> Marker(program[..i]).Some?)
    requires Reads(StepRows(alphabet, program[i], Moves(program[..i]), Marker(program[..i])), Moves(program[..i]), c)
    ensures Closable(program[..i + 1])
    ensures var rows := ProgramRows(alphabet, program);
      exists r :: |ProgramRows(alphabet, program[..i])| <= r < |ProgramRows(alphabet, program[..i + 1])| <= |rows| &&
        rows[r].currentState == Moves(program[..i]) && rows[r].replace.0 == c
  {
    ProgramStep(alphabet, program, i);
    ProgramRowsGrow(alphabet, program, i + 1);
    StepRowsInTable(alphabet, program, i);
    ReadsAfter(ProgramRows(alphabet, program), ProgramRows(alphabet, program[..i]),
               StepRows(alphabet, program[i], Moves(program[..i]), Marker(program[..i])), Moves(program[..i]), c);
  }

  /**
    * Every row leaves a state the counter has reached and goes at most one state
    * forward: the table mentions no state beyond Moves(program). (That every state
    * below Moves(program) does occur is ProgramRowsExhaustive.)
    */
  lemma {:induction false} ProgramRowsStates(alphabet: seq<char>, program: seq<Instruction>)
    requires Closable(program)
    ensures var rows := ProgramRows(alphabet, program);
      forall i :: 0 <= i < |rows| ==>
        && rows[i].currentState <= Moves(program)
        && rows[i].nextState <= rows[i].currentState + 1
        && rows[i].nextState <= Moves(program)
  {
    if program != [] {
      var n := |program| - 1;
      var init := program[..n];
      ProgramStep(alphabet, program, n);
      assert program[..n + 1] == program;
      ProgramRowsStates(alphabet, init);
      MarkerBound(init);
      match program[n]
      case MoveToChar(direction, target, replacements) =>
        MoveRowsAdvanceOnce(alphabet, target, replacements, direction, Moves(init));
      case EndLoop(direction, replacements) =>
        EndLoopRowsLeave(alphabet, replacements, direction, Marker(init).value, Moves(init));
      case _ =>
    }
  }

  /** Every state the counter allocates reads every alphabet symbol and the blank: the table never gets stuck there. */
  lemma {:induction false} ProgramRowsExhaustive(alphabet: seq<char>, program: seq<Instruction>, state: nat, c: char)
    requires Closable(program) && state < Moves(program) && (c in alphabet || c == Blank)
    ensures Reads(ProgramRows(alphabet, program), state, c)
  {
    var n := |program| - 1;
    var init := program[..n];
    ProgramStep(alphabet, program, n);
    assert program[..n + 1] == program;
    var before := ProgramRows(alphabet, init);
    var step := StepRows(alphabet, program[n], Moves(init), Marker(init));
    if state < Moves(init) {
      ProgramRowsExhaustive(alphabet, init, state, c);
    } else {
      assert program[n].MoveToChar? && state == Moves(init);
      var target, replacements, direction := program[n].target, program[n].replacements, program[n].direction;
      assert step == MoveRows(alphabet, target, replacements, direction, state);
      MoveRowsReads(alphabet, target, replacements, direction, state, c);
      assert Reads(step, state, c);
    }
    ReadsAppend(before, step, state, c);
  }

  /** How many rows advance to the state after the one they leave. */
  function Advancing(rows: seq<State>): nat {
    if rows == [] then 0
    else
      var n := |rows| - 1;
      Advancing(rows[..n]) + (if rows[n].nextState == rows[n].currentState + 1 then 1 else 0)
  }

  lemma {:induction false} AdvancingAppend(a: seq<State>, b: seq<State>)
    ensures Advancing(a + b) == Advancing(a) + Advancing(b)
  {
    if b != [] {
      var n := |b| - 1;
      AdvancingAppend(a, b[..n]);
      assert (a + b)[..|a + b| - 1] == a + b[..n];
    } else {
      assert a + b == a;
    }
  }

  lemma {:induction false} AdvancingNone(rows: seq<State>)
    requires forall i :: 0 <= i < |rows| ==> rows[i].nextState != rows[i].currentState + 1
    ensures Advancing(rows) == 0
  {
    if rows != [] {
      AdvancingNone(rows[..|rows| - 1]);
    }
  }

  /** A scan step contributes exactly one advancing row. */
  lemma MoveRowsAdvancing(alphabet: seq<char>, target: char, replacements: seq<Replace>, direction: Direction,
                          current: nat)
    ensures Advancing(MoveRows(alphabet, target, replacements, direction, current)) == 1
  {
    var rows := MoveRows(alphabet, target, replacements, direction, current);
    var at := |Kept(alphabet, target, replacements)| + |replacements|;
    MoveRowsAdvanceOnce(alphabet, target, replacements, direction, current);
    var before, after := rows[..at], rows[at + 1..];
    assert rows == before + [rows[at]] + after;
    AdvancingNone(before);
    AdvancingNone(after);
    AdvancingAppend(before, [rows[at]]);
    AdvancingAppend(before + [rows[at]], after);
    assert Advancing([rows[at]]) == 1 by {
      assert [rows[at]][..0] == [];
    }
  }

  /** The counter after a program is the number of advancing rows in its table: one fresh state per scan step. */
  lemma {:induction false} ProgramRowsAdvancing(alphabet: seq<char>, program: seq<Instruction>)
    requires Closable(program)
    ensures Advancing(ProgramRows(alphabet, program)) == Moves(program)
  {
    if program != [] {
      var n := |program| - 1;
      var init := program[..n];
      ClosablePrefix(program, n);
      ProgramRowsAdvancing(alphabet, init);
      var step := StepRows(alphabet, program[n], Moves(init), Marker(init));
      AdvancingAppend(ProgramRows(alphabet, init), step);
      match program[n]
      case MoveToChar(direction, target, replacements) =>
        MoveRowsAdvancing(alphabet, target, replacements, direction, Moves(init));
      case EndLoop(direction, replacements) =>
        MarkerBound(init);
        EndLoopRowsLeave(alphabet, replacements, direction, Marker(init).value, Moves(init));
        AdvancingNone(step);
      case _ =>
    }
  }

  /**
    * The rows of an `EndLoop` leave the state the counter has reached and all return
    * to the state recorded by the nearest `BeginLoop` before it; they are appended to
    * the table right after the rows of the instructions before it.
    */
  lemma LoopReturnsToEntry(alphabet: seq<char>, program: seq<Instruction>, j: nat, i: nat)
    requires Closable(program) && j < i < |program| && program[j].BeginLoop? && program[i].EndLoop?
    requires forall l :: j < l < i ==> !program[l].BeginLoop? && !program[l].EndLoop?
    ensures Closable(program[..i])
    ensures var rows := EndLoopRows(alphabet, program[i].replacements, program[i].direction,
                                    Moves(program[..j]), Moves(program[..i]));
      && ProgramRows(alphabet, program[..i]) + rows <= ProgramRows(alphabet, program)
      && forall r :: 0 <= r < |rows| ==>
           rows[r].currentState == Moves(program[..i]) && rows[r].nextState == Moves(program[..j])
  {
    MarkerAfter(program[..i], j);
    assert program[..i][..j] == program[..j];
    StepRowsInTable(alphabet, program, i);
    EndLoopRowsLeave(alphabet, program[i].replacements, program[i].direction, Moves(program[..j]), Moves(program[..i]));
  }

  /** Rows of different scan steps leave different states, so well-formed steps make a deterministic table. */
  lemma DeterministicAppend(a: seq<State>, b: seq<State>, state: nat)
    requires Deterministic(a) && Deterministic(b)
    requires forall i :: 0 <= i < |a| ==> a[i].currentState < state
    requires forall i :: 0 <= i < |b| ==> b[i].currentState == state
    ensures Deterministic(a + b)
  {
    forall i, j | 0 <= i < j < |a + b|
      ensures (a + b)[i].currentState != (a + b)[j].currentState || (a + b)[i].replace.0 != (a + b)[j].replace.0
    {
      if j < |a| {
        assert (a + b)[i] == a[i] && (a + b)[j] == a[j];
      } else if i < |a| {
        assert (a + b)[i] == a[i] && (a + b)[j] == b[j - |a|];
      } else {
        assert (a + b)[i] == b[i - |a|] && (a + b)[j] == b[j - |a|];
      }
    }
  }

  /**
    * A program without loops whose every scan step is well formed compiles to a
    * deterministic table whose rows all leave allocated states.
    */
  lemma {:induction false} LoopFreeDeterministic(alphabet: seq<char>, program: seq<Instruction>)
    requires forall l :: 0 <= l < |program| ==> !program[l].BeginLoop? && !program[l].EndLoop?
    requires forall l :: 0 <= l < |program| && program[l].MoveToChar? ==>
               WellFormedStep(alphabet, program[l].target, program[l].replacements)
    ensures Closable(program)
    ensures Deterministic(ProgramRows(alphabet, program))
    ensures var rows := ProgramRows(alphabet, program);
      forall i :: 0 <= i < |rows| ==> rows[i].currentState < Moves(program)
  {
    if program != [] {
      var n := |program| - 1;
      var init := program[..n];
      assert forall l :: 0 <= l < n ==> init[l] == program[l];
      LoopFreeDeterministic(alphabet, init);
      ClosablePrefix(program, n);
      assert ProgramRows(alphabet, program) == ProgramRows(alphabet, init) + StepRows(alphabet, program[n], Moves(init), Marker(init));
      var before := ProgramRows(alphabet, init);
      assert forall r :: 0 <= r < |before| ==> before[r].currentState < Moves(init);
      if program[n].MoveToChar? {
        var target, replacements, direction := program[n].target, program[n].replacements, program[n].direction;
        var step := MoveRows(alphabet, target, replacements, direction, Moves(init));
        MoveRowsDeterministic(alphabet, target, replacements, direction, Moves(init));
        MoveRowsAdvanceOnce(alphabet, target, replacements, direction, Moves(init));
        DeterministicAppend(before, step, Moves(init));
      } else {
        assert before + [] == before;
      }
    }
  }

  /**
    * An `EndLoop` followed by a scan step leaves its rows on the state that step
    * then uses as well (the counter does not move past a loop end), so with a
    * non-empty alphabet the table is not deterministic.
    */
  lemma EndLoopSharesNextState(alphabet: seq<char>, program: seq<Instruction>, i: nat)
    requires Closable(program) && i + 1 < |program| && program[i].EndLoop? && program[i + 1].MoveToChar?
    requires alphabet != []
    ensures !Deterministic(ProgramRows(alphabet, program))
  {
    var c, state := alphabet[0], Moves(program[..i]);
    EndLoopStepReads(alphabet, program, i, c);
    StepReadsInTable(alphabet, program, i, c);
    ProgramStep(alphabet, program, i);
    MoveStepReads(alphabet, program, i + 1, c);
    StepReadsInTable(alphabet, program, i + 1, c);
    var rows := ProgramRows(alphabet, program);
    var r1 :| |ProgramRows(alphabet, program[..i])| <= r1 < |ProgramRows(alphabet, program[..i + 1])| <= |rows| &&
      rows[r1].currentState == state && rows[r1].replace.0 == c;
    var r2 :| |ProgramRows(alphabet, program[..i + 1])| <= r2 < |rows| &&
      rows[r2].currentState == state && rows[r2].replace.0 == c;
    SharedReadNotDeterministic(rows, r1, r2);
  }

  /** The rows of an `EndLoop` read every alphabet symbol in the state they leave. */
  lemma EndLoopStepReads(alphabet: seq<char>, program: seq<Instruction>, i: nat, c: char)
    requires Closable(program) && i < |program| && program[i].EndLoop? && c in alphabet
    ensures Closable(program[..i]) && Marker(program[..i]).Some?
    ensures Reads(StepRows(alphabet, program[i], Moves(program[..i]), Marker(program[..i])), Moves(program[..i]), c)
  {
    ProgramStep(alphabet, program, i);
    EndLoopRowsShape(alphabet, program[i].replacements, program[i].direction, Marker(program[..i]).value,
                     Moves(program[..i]), c);
  }

  /** The rows of a scan step read every alphabet symbol in the state they leave. */
  lemma MoveStepReads(alphabet: seq<char>, program: seq<Instruction>, i: nat, c: char)
    requires Closable(program) && i < |program| && program[i].MoveToChar? && c in alphabet
    ensures Closable(program[..i])
    ensures Reads(StepRows(alphabet, program[i], Moves(program[..i]), Marker(program[..i])), Moves(program[..i]), c)
  {
    ProgramStep(alphabet, program, i);
    MoveRowsReads(alphabet, program[i].target, program[i].replacements, program[i].direction, Moves(program[..i]), c);
  }

  /** Two rows that leave the same state on the same symbol make a table non-deterministic. */
  lemma SharedReadNotDeterministic(rows: seq<State>, r1: nat, r2: nat)
    requires r1 < r2 < |rows|
    requires rows[r1].currentState == rows[r2].currentState && rows[r1].replace.0 == rows[r2].replace.0
    ensures !Deterministic(rows)
  {
  }

  /**
    * A program the parser accepts never reaches the `EndLoop` unwrap, and when its
    * scan steps are well formed for its alphabet it compiles to a deterministic table.
    */
  lemma ParsedProgramDeterministic(lines: seq<string>)
    requires ProgramOf(lines).Ok?
    requires var program := ProgramOf(lines).value;
      forall l :: 0 <= l < |program| && program[l].MoveToChar? ==>
        WellFormedStep(program[0].symbols, program[l].target, program[l].replacements)
    ensures Closable(ProgramOf(lines).value)
    ensures var program := ProgramOf(lines).value;
      Deterministic(ProgramRows(program[0].symbols, program))
  {
    AcceptedProgram(lines);
    var program := ProgramOf(lines).value;
    LoopFreeDeterministic(program[0].symbols, program);
  }
}
