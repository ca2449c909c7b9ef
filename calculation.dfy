/**
  * The transition-table generator of src/calculation.rs. A program is compiled in
  * one left-to-right pass into rows `(current state, read, next state, write,
  * direction)` of a single-tape machine, threading a state counter (from 0) and the
  * state recorded by the last `BeginLoop`. Each method below is the source's loop,
  * proved equal to a function that states the rows it emits; the properties of those
  * functions are proved in module CalculationProperties.
  */
module Calculation {
  import opened Wrappers
  import opened Text
  import opened Instructions
  import opened Parsing

  /** One transition row: in `currentState`, reading `replace.0`, write `replace.1`, move, go to `nextState`. */
  datatype State = State(currentState: nat, nextState: nat, direction: Direction, replace: (char, char)) {

    /**
      * The wire form `(current,read,next,write,D)` with D `<` or `>` (`Display for State`):
      * the two state numbers in decimal, each field after a ',', in parentheses.
      */
    function ToString(): (s: string)
      ensures var n1, n2 := NatToString(currentState), NatToString(nextState);
        && |s| == |n1| + |n2| + 9
        && s[0] == '(' && s[1..|n1| + 1] == n1
        && s[|n1| + 1..|n1| + 4] == [',', replace.0, ',']
        && s[|n1| + 4..|n1| + 4 + |n2|] == n2
        && s[|n1| + 4 + |n2|..] == [',', replace.1, ',', ArrowOf(direction), ')']
    {
      var n1, n2 := NatToString(currentState), NatToString(nextState);
      RowTextLayout(n1, replace.0, n2, replace.1, ArrowOf(direction));
      "(" + n1 + "," + [replace.0] + "," + n2 + "," + [replace.1] + "," + [ArrowOf(direction)] + ")"
    }
  }

  /** Where each field of a rendered row sits in its text. */
  lemma RowTextLayout(n1: string, read: char, n2: string, write: char, arrow: char)
    ensures var s := "(" + n1 + "," + [read] + "," + n2 + "," + [write] + "," + [arrow] + ")";
      && |s| == |n1| + |n2| + 9
      && s[0] == '(' && s[1..|n1| + 1] == n1
      && s[|n1| + 1..|n1| + 4] == [',', read, ',']
      && s[|n1| + 4..|n1| + 4 + |n2|] == n2
      && s[|n1| + 4 + |n2|..] == [',', write, ',', arrow, ')']
  {
    var head := ['('] + n1;
    var middle := [',', read, ','] + n2;
    var tail := [',', write, ',', arrow, ')'];
    var s := "(" + n1 + "," + [read] + "," + n2 + "," + [write] + "," + [arrow] + ")";
    assert s == head + middle + tail;
    assert s[1..|n1| + 1] == head[1..];
    assert s[|n1| + 1..|n1| + 4 + |n2|] == middle;
    assert s[|n1| + 4 + |n2|..] == tail;
  }

  /** The arrow a row prints for its direction. */
  function ArrowOf(d: Direction): (c: char)
    ensures c == '<' <==> d == Left
    ensures c == '>' <==> d == Right
  {
    match d
    case Left => '<'
    case Right => '>'
  }

  /** A reader for the wire form of one row, as a generic quintuple reader would parse it. */
  function ReadRow(s: string): Option<State> {
    if |s| < 1 || s[0] != '(' then None
    else
      match ReadNumber(s[1..])
      case None => None
      case Some((current, afterCurrent)) =>
        if |afterCurrent| < 3 || afterCurrent[0] != ',' || afterCurrent[2] != ',' then None
        else
          match ReadNumber(afterCurrent[3..])
          case None => None
          case Some((next, tail)) =>
            if |tail| != 5 || tail[0] != ',' || tail[2] != ',' || tail[4] != ')' then None
            else if tail[3] == '<' then Some(State(current, next, Left, (afterCurrent[1], tail[1])))
            else if tail[3] == '>' then Some(State(current, next, Right, (afterCurrent[1], tail[1])))
            else None
  }

  /** The decimal number at the start of `s` and the text after it; `None` when `s` starts with no digit. */
  function ReadNumber(s: string): Option<(nat, string)> {
    var k := LeadingDigits(s);
    if k == 0 then None else Some((DigitsValue(s[..k]), s[k..]))
  }

  lemma ReadNumberOf(digits: string, rest: string)
    requires |digits| >= 1 && AllDigits(digits) && rest != [] && !IsDigit(rest[0])
    ensures ReadNumber(digits + rest) == Some((DigitsValue(digits), rest))
  {
    LeadingDigitsOf(digits, rest);
    assert (digits + rest)[..|digits|] == digits;
    assert (digits + rest)[|digits|..] == rest;
  }

  /** How `ReadRow` decides once the two numbers have been read. */
  lemma ReadRowFrom(text: string, current: nat, afterCurrent: string, next: nat, tail: string)
    requires |text| >= 1 && text[0] == '(' && ReadNumber(text[1..]) == Some((current, afterCurrent))
    requires |afterCurrent| >= 3 && afterCurrent[0] == ',' && afterCurrent[2] == ','
    requires ReadNumber(afterCurrent[3..]) == Some((next, tail))
    requires |tail| == 5 && tail[0] == ',' && tail[2] == ',' && tail[4] == ')' && (tail[3] == '<' || tail[3] == '>')
    ensures ReadRow(text) == Some(State(current, next, if tail[3] == '<' then Left else Right, (afterCurrent[1], tail[1])))
  {
  }

  /** The text after three leading characters, as `ReadRow` takes it apart after the first number. */
  lemma ThreeThen(a: char, b: char, c: char, rest: string)
    ensures var s := [a, b, c] + rest;
      |s| >= 3 && s[0] == a && s[1] == b && s[2] == c && s[3..] == rest
  {
  }

  /** The text after the opening parenthesis, where `ReadRow` reads the first number. */
  lemma OpenThen(digits: string, rest: string)
    ensures var s := ['('] + digits + rest;
      |s| >= 1 && s[0] == '(' && s[1..] == digits + rest
  {
    assert ['('] + digits + rest == ['('] + (digits + rest);
  }

  /** Reading the text of a row built from two numerals, two symbols and an arrow. */
  lemma ReadRowOf(text: string, n1: string, afterCurrent: string, read: char, n2: string, tail: string, write: char,
                  direction: Direction)
    requires |n1| >= 1 && AllDigits(n1) && |n2| >= 1 && AllDigits(n2)
    requires tail == [',', write, ',', ArrowOf(direction), ')']
    requires afterCurrent == [',', read, ','] + (n2 + tail)
    requires text == ['('] + n1 + afterCurrent
    ensures ReadRow(text) == Some(State(DigitsValue(n1), DigitsValue(n2), direction, (read, write)))
  {
    ThreeThen(',', read, ',', n2 + tail);
    OpenThen(n1, afterCurrent);
    ReadNumberOf(n1, afterCurrent);
    ReadNumberOf(n2, tail);
    ReadRowFrom(text, DigitsValue(n1), afterCurrent, DigitsValue(n2), tail);
  }

  /** Reading back a rendered row recovers the row: the rendering loses nothing and is unambiguous. */
  lemma ReadRowToString(row: State)
    ensures ReadRow(row.ToString()) == Some(row)
  {
    var n1, n2 := NatToString(row.currentState), NatToString(row.nextState);
    var tail := [',', row.replace.1, ',', ArrowOf(row.direction), ')'];
    var afterCurrent := [',', row.replace.0, ','] + (n2 + tail);
    assert row.ToString() == ['('] + n1 + afterCurrent;
    ReadRowOf(row.ToString(), n1, afterCurrent, row.replace.0, n2, tail, row.replace.1, row.direction);
  }

  /** Some replacement rewrites `c` (the `any` over the replace sources). */
  predicate IsReplaced(replacements: seq<Replace>, c: char) {
    exists i :: 0 <= i < |replacements| && replacements[i].0 == c
  }

  /** The symbols other than `c`, in their order (the filter that builds `alphabet_without_char`). */
  function Without(symbols: seq<char>, c: char): (r: seq<char>)
    ensures forall x :: x in r <==> x in symbols && x != c
  {
    if symbols == [] then []
    else
      var n := |symbols| - 1;
      Without(symbols[..n], c) + (if symbols[n] != c then [symbols[n]] else [])
  }

  /** The symbols no replacement rewrites, in their order (the symbols kept by the `continue`). */
  function Unreplaced(symbols: seq<char>, replacements: seq<Replace>): (r: seq<char>)
    ensures forall x :: x in r <==> x in symbols && !IsReplaced(replacements, x)
  {
    if symbols == [] then []
    else
      var n := |symbols| - 1;
      Unreplaced(symbols[..n], replacements) + (if IsReplaced(replacements, symbols[n]) then [] else [symbols[n]])
  }

  /** One row per symbol that reads and writes it back unchanged. */
  function SelfLoops(symbols: seq<char>, current: nat, next: nat, direction: Direction): seq<State> {
    seq(|symbols|, i requires 0 <= i < |symbols| => State(current, next, direction, (symbols[i], symbols[i])))
  }

  /** One row per replacement that rewrites its source into its target. */
  function ReplaceRows(replacements: seq<Replace>, current: nat, next: nat, direction: Direction): seq<State> {
    seq(|replacements|, i requires 0 <= i < |replacements| => State(current, next, direction, replacements[i]))
  }

  /** Extending the scanned symbols by one adds that symbol's self-loop, unless a replacement rewrites it. */
  lemma UnreplacedStep(symbols: seq<char>, k: nat, replacements: seq<Replace>, current: nat, next: nat,
                       direction: Direction)
    requires k < |symbols|
    ensures SelfLoops(Unreplaced(symbols[..k + 1], replacements), current, next, direction) ==
            SelfLoops(Unreplaced(symbols[..k], replacements), current, next, direction) +
            (if IsReplaced(replacements, symbols[k]) then [] else [State(current, next, direction, (symbols[k], symbols[k]))])
  {
    assert symbols[..k + 1][..k] == symbols[..k];
  }

  /** Extending the scanned replacements by one adds that replacement's row. */
  lemma ReplaceRowsStep(replacements: seq<Replace>, k: nat, current: nat, next: nat, direction: Direction)
    requires k < |replacements|
    ensures ReplaceRows(replacements[..k + 1], current, next, direction) ==
            ReplaceRows(replacements[..k], current, next, direction) + [State(current, next, direction, replacements[k])]
  {
  }

  /** The alphabet symbols a scan step passes over unchanged: neither its target nor a replace source. */
  function Kept(alphabet: seq<char>, target: char, replacements: seq<Replace>): seq<char> {
    Unreplaced(Without(alphabet, target), replacements)
  }

  /**
    * The rows of one scan step at state `current`, in the order they are emitted:
    * self-loops over the kept symbols, the replacements, the row that reads the
    * target and advances to `current + 1` moving back, and, unless the target is
    * the blank, a self-loop over the blank.
    */
  function MoveRows(alphabet: seq<char>, target: char, replacements: seq<Replace>, direction: Direction,
                    current: nat): seq<State>
  {
    SelfLoops(Kept(alphabet, target, replacements), current, current, direction) +
    ReplaceRows(replacements, current, current, direction) +
    [State(current, current + 1, direction.Opposite(), (target, target))] +
    (if target != Blank then [State(current, current, direction, (Blank, Blank))] else [])
  }

  /**
    * The rows that close a loop, attached to state `current` and all returning to
    * `beginLoopState`: self-loops over the alphabet symbols no replacement rewrites,
    * then the replacements; no blank row.
    */
  function EndLoopRows(alphabet: seq<char>, replacements: seq<Replace>, direction: Direction,
                       beginLoopState: nat, current: nat): seq<State>
  {
    SelfLoops(Unreplaced(alphabet, replacements), current, beginLoopState, direction) +
    ReplaceRows(replacements, current, beginLoopState, direction)
  }

  /** The state counter after `program`: one state per scan step. */
  function Moves(program: seq<Instruction>): nat {
    if program == [] then 0
    else
      var n := |program| - 1;
      Moves(program[..n]) + (if program[n].MoveToChar? then 1 else 0)
  }

  /** The loop entry recorded after `program`: set by `BeginLoop` to the counter, cleared by `EndLoop`. */
  function Marker(program: seq<Instruction>): Option<nat> {
    if program == [] then None
    else
      var n := |program| - 1;
      match program[n]
      case BeginLoop => Some(Moves(program[..n]))
      case EndLoop(_, _) => None
      case _ => Marker(program[..n])
  }

  /**
    * Every `EndLoop` finds a loop entry recorded (otherwise `calculate_states` panics
    * on `unwrap`); `ClosableMeans` states this for every position at once.
    */
  predicate Closable(program: seq<Instruction>) {
    program == [] ||
    var n := |program| - 1;
    Closable(program[..n]) && (program[n].EndLoop? ==> Marker(program[..n]).Some?)
  }

  lemma {:induction false} ClosableMeans(program: seq<Instruction>)
    ensures Closable(program) <==>
            forall k :: 0 <= k < |program| && program[k].EndLoop? ==> Marker(program[..k]).Some?
  {
    if program != [] {
      var n := |program| - 1;
      ClosableMeans(program[..n]);
      assert forall k :: 0 <= k < n ==> program[..n][k] == program[k] && program[..n][..k] == program[..k];
    }
  }

  lemma {:induction false} ClosablePrefix(program: seq<Instruction>, n: nat)
    requires Closable(program) && n <= |program|
    ensures Closable(program[..n])
  {
    if n == |program| {
      assert program[..n] == program;
    } else {
      var m := |program| - 1;
      ClosablePrefix(program[..m], n);
      assert program[..m][..n] == program[..n];
    }
  }

  /** A program without `EndLoop` never reaches the `unwrap`. */
  lemma {:induction false} WithoutEndLoopClosable(program: seq<Instruction>)
    requires forall k :: 0 <= k < |program| ==> !program[k].EndLoop?
    ensures Closable(program)
  {
    if program != [] {
      var n := |program| - 1;
      assert forall k :: 0 <= k < n ==> program[..n][k] == program[k];
      WithoutEndLoopClosable(program[..n]);
    }
  }

  /** The rows one instruction contributes, given the counter and loop entry before it. */
  function StepRows(alphabet: seq<char>, instruction: Instruction, counter: nat, marker: Option<nat>): seq<State>
    requires instruction.EndLoop? ==> marker.Some?
  {
    match instruction
    case MoveToChar(direction, target, replacements) => MoveRows(alphabet, target, replacements, direction, counter)
    case EndLoop(direction, replacements) => EndLoopRows(alphabet, replacements, direction, marker.value, counter)
    case _ => []
  }

  /** The whole table: the rows of every instruction, concatenated in program order. */
  function ProgramRows(alphabet: seq<char>, program: seq<Instruction>): seq<State>
    requires Closable(program)
  {
    if program == [] then []
    else
      var n := |program| - 1;
      ClosablePrefix(program, n);
      assert program[..n] == program[..n][..n];
      ProgramRows(alphabet, program[..n]) + StepRows(alphabet, program[n], Moves(program[..n]), Marker(program[..n]))
  }

  /** What one more instruction does to the table, the counter and the loop entry. */
  lemma ProgramStep(alphabet: seq<char>, program: seq<Instruction>, i: nat)
    requires Closable(program) && i < |program|
    ensures Closable(program[..i]) && Closable(program[..i + 1])
    ensures program[i].EndLoop? ==> Marker(program[..i]).Some?
    ensures ProgramRows(alphabet, program[..i + 1]) ==
            ProgramRows(alphabet, program[..i]) + StepRows(alphabet, program[i], Moves(program[..i]), Marker(program[..i]))
    ensures Moves(program[..i + 1]) == Moves(program[..i]) + (if program[i].MoveToChar? then 1 else 0)
    ensures Marker(program[..i + 1]) ==
            if program[i].BeginLoop? then Some(Moves(program[..i]))
            else if program[i].EndLoop? then None
            else Marker(program[..i])
  {
    ClosablePrefix(program, i);
    ClosablePrefix(program, i + 1);
    assert program[..i + 1][..i] == program[..i];
    assert program[..i + 1][i] == program[i];
  }

  /** The machine: the parsed program and the alphabet of its first instruction. */
  datatype TuringMachine = TuringMachine(instructions: seq<Instruction>, alphabet: seq<char>) {

    /**
      * `TuringMachine::new` after the file has been read into lines: parse them and
      * take the alphabet from the first instruction, which parsing guarantees is one.
      */
    static method New(lines: seq<string>) returns (r: Result<TuringMachine, ParseError>)
      ensures r.Ok? <==> ProgramOf(lines).Ok?
      ensures r.Err? ==> r.error == ProgramOf(lines).error
      ensures r.Ok? ==> r.value.instructions == ProgramOf(lines).value
      ensures r.Ok? ==> r.value.instructions[0] == Alphabet(r.value.alphabet)
      ensures r.Ok? ==> Closable(r.value.instructions)
    {
      var instructions := ParseFile(lines);
      if instructions.Err? {
        return Err(instructions.error);
      }
      AcceptedProgram(lines);
      var program := instructions.value;
      var alphabet := program[0].symbols;
      WithoutEndLoopClosable(program);
      return Ok(TuringMachine(program, alphabet));
    }

    /** `calculate_move_states`: the rows of one scan step; the counter moves on by one. */
    method CalculateMoveStates(excludedChar: char, replacements: seq<Replace>, direction: Direction,
                               currentState: nat)
      returns (states: seq<State>, currentState': nat)
      ensures states == MoveRows(alphabet, excludedChar, replacements, direction, currentState)
      ensures currentState' == currentState + 1
    {
      var alphabetWithoutChar := Without(alphabet, excludedChar);
      states := [];
      for k := 0 to |alphabetWithoutChar|
        invariant states == SelfLoops(Unreplaced(alphabetWithoutChar[..k], replacements), currentState, currentState, direction)
      {
        var character := alphabetWithoutChar[k];
        UnreplacedStep(alphabetWithoutChar, k, replacements, currentState, currentState, direction);
        if IsReplaced(replacements, character) {
          continue;
        }
        states := states + [State(currentState, currentState, direction, (character, character))];
      }
      assert alphabetWithoutChar[..|alphabetWithoutChar|] == alphabetWithoutChar;
      ghost var kept := states;
      for k := 0 to |replacements|
        invariant states == kept + ReplaceRows(replacements[..k], currentState, currentState, direction)
      {
        var (replaceFrom, replaceTo) := replacements[k];
        ReplaceRowsStep(replacements, k, currentState, currentState, direction);
        states := states + [State(currentState, currentState, direction, (replaceFrom, replaceTo))];
      }
      assert replacements[..|replacements|] == replacements;
      states := states + [State(currentState, currentState + 1, direction.Opposite(), (excludedChar, excludedChar))];
      if excludedChar != Blank {
        states := states + [State(currentState, currentState, direction, (Blank, Blank))];
      }
      currentState' := currentState + 1;
    }

    /** `calculate_end_loop_states`: the rows that send state `currentState` back to the loop entry. */
    method CalculateEndLoopStates(direction: Direction, replacements: seq<Replace>, beginLoopState: nat,
                                  currentState: nat)
      returns (states: seq<State>)
      ensures states == EndLoopRows(alphabet, replacements, direction, beginLoopState, currentState)
    {
      states := [];
      for k := 0 to |alphabet|
        invariant states == SelfLoops(Unreplaced(alphabet[..k], replacements), currentState, beginLoopState, direction)
      {
        var character := alphabet[k];
        UnreplacedStep(alphabet, k, replacements, currentState, beginLoopState, direction);
        if IsReplaced(replacements, character) {
          continue;
        }
        states := states + [State(currentState, beginLoopState, direction, (character, character))];
      }
      assert alphabet[..|alphabet|] == alphabet;
      ghost var kept := states;
      for k := 0 to |replacements|
        invariant states == kept + ReplaceRows(replacements[..k], currentState, beginLoopState, direction)
      {
        var (replaceFrom, replaceTo) := replacements[k];
        ReplaceRowsStep(replacements, k, currentState, beginLoopState, direction);
        states := states + [State(currentState, beginLoopState, direction, (replaceFrom, replaceTo))];
      }
      assert replacements[..|replacements|] == replacements;
      assert kept == SelfLoops(Unreplaced(alphabet, replacements), currentState, beginLoopState, direction);
    }

    /** `calculate_states`: one pass over the program, appending each instruction's rows. */
    method CalculateStates() returns (states: seq<State>)
      requires Closable(instructions)
      ensures states == ProgramRows(alphabet, instructions)
    {
      states := [];
      var beginLoopState: Option<nat> := None;
      var currentState: nat := 0;
      for i := 0 to |instructions|
        invariant Closable(instructions[..i])
        invariant states == ProgramRows(alphabet, instructions[..i])
        invariant currentState == Moves(instructions[..i])
        invariant beginLoopState == Marker(instructions[..i])
      {
        ProgramStep(alphabet, instructions, i);
        ghost var step := StepRows(alphabet, instructions[i], currentState, beginLoopState);
        var rows: seq<State> := [];
        match instructions[i] {
          case MoveToChar(direction, target, replacements) =>
            rows, currentState := CalculateMoveStates(target, replacements, direction, currentState);
          case BeginLoop =>
            beginLoopState := Some(currentState);
          case EndLoop(direction, replacements) =>
            rows := CalculateEndLoopStates(direction, replacements, beginLoopState.value, currentState);
            beginLoopState := None;
          case Alphabet(_) =>
        }
        assert rows == step;
        states := states + rows;
      }
      assert instructions[..|instructions|] == instructions;
    }
  }
}
