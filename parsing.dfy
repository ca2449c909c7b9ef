/**
  * The line parser and program validator of src/parsing.rs: each line of a program
  * is cut at ", " into an instruction name and its arguments, turned into an
  * `Instruction` or a `ParseError`, and the whole file is accepted only when it is
  * non-empty, starts with its one and only `alphabet` line, and every line parses.
  * Opening and reading the file are not modelled: a program is given as its lines.
  */
module Parsing {
  import opened Wrappers
  import opened Text
  import opened Instructions

  datatype ParseError =
    | CouldNotOpenFile
    | CouldNotParseCharacter
    | CouldNotParseReplace
    | CouldNotReadFile
    | EmptyFile
    | EmptyLine
    | InvalidDirection
    | MissingParameter
    | NoAlphabet
    | OnlyOneAlphabetAllowed
    | OnlyOneLetterAllowed
    | UnknownCommand

  /** What separates the arguments of a line. */
  const ArgumentSeparator: string := ", "

  /** What separates the two sides of a replace argument. */
  const ReplaceArrow: string := " -> "

  /** The single character at argument position `argument` (`get_char`). */
  function GetChar(split: seq<string>, argument: nat): (r: Result<char, ParseError>)
    ensures r.Ok? <==> argument < |split| && |split[argument]| == 1
    ensures r.Ok? ==> split[argument] == [r.value]
    ensures r.Err? ==> r.error == (if argument < |split| then OnlyOneLetterAllowed else MissingParameter)
  {
    if argument >= |split| then Err(MissingParameter)
    else if |split[argument]| != 1 then Err(OnlyOneLetterAllowed)
    else Ok(split[argument][0])
  }

  /** The direction keyword at argument position `argument` (`get_direction`). */
  function GetDirection(split: seq<string>, argument: nat): (r: Result<Direction, ParseError>)
    ensures r.Ok? ==> argument < |split| && split[argument] == r.value.ToString()
    ensures r.Err? ==> r.error == (if argument < |split| then InvalidDirection else MissingParameter)
  {
    if argument >= |split| then Err(MissingParameter)
    else if split[argument] == "left" then Ok(Left)
    else if split[argument] == "right" then Ok(Right)
    else Err(InvalidDirection)
  }

  /** `get_direction` reads back what `Display for Direction` writes. */
  lemma GetDirectionInvertsToString(split: seq<string>, argument: nat, d: Direction)
    ensures GetDirection(split, argument) == Ok(d) <==> argument < |split| && split[argument] == d.ToString()
  {
  }

  /** One replace argument `f -> t`: the body of the loop in `get_replaces`. */
  function PairOf(element: string): (r: Result<Replace, ParseError>)
    ensures r.Err? ==> r.error == CouldNotParseReplace || r.error == CouldNotParseCharacter
  {
    match SplitOnce(element, ReplaceArrow)
    case None => Err(CouldNotParseReplace)
    case Some((from, to)) =>
      if |from| != 1 || |to| != 1 then Err(CouldNotParseCharacter)
      else Ok((from[0], to[0]))
  }

  /** An argument is rejected as no replace at all exactly when it holds no arrow. */
  lemma PairOfWithoutArrow(element: string)
    ensures PairOf(element) == Err(CouldNotParseReplace) <==> forall j: nat :: !OccursAt(element, ReplaceArrow, j)
  {
  }

  /** The text of a replace argument, as a program writes it. */
  function PairText(p: Replace): string {
    [p.0] + ReplaceArrow + [p.1]
  }

  /** Every written pair reads back as itself, whatever its two characters. */
  lemma PairOfPairText(p: Replace)
    ensures PairOf(PairText(p)) == Ok(p)
  {
    var s := PairText(p);
    assert s[1..5] == ReplaceArrow;
    assert s[0..4][1] != ReplaceArrow[1];
    FindFirstIs(s, ReplaceArrow, 1);
    assert s[..1] == [p.0] && s[5..] == [p.1];
  }

  /** An argument reads as the pair `p` exactly when it is the written form of `p`. */
  lemma PairOfIsPairText(element: string, p: Replace)
    ensures PairOf(element) == Ok(p) <==> element == PairText(p)
  {
    PairOfPairText(p);
    if PairOf(element) == Ok(p) {
      var (from, to) := SplitOnce(element, ReplaceArrow).value;
      assert from == [p.0] && to == [p.1];
    }
  }

  /**
    * The replacements listed from some argument position to the end of a line, in
    * order (the result of `get_replaces`); the first malformed one decides the error.
    */
  function ReplacesOf(elements: seq<string>): (r: Result<seq<Replace>, ParseError>)
    ensures r.Ok? <==> forall i :: 0 <= i < |elements| ==> PairOf(elements[i]).Ok?
    ensures r.Ok? ==> |r.value| == |elements|
    ensures r.Ok? ==> forall i :: 0 <= i < |elements| ==> PairOf(elements[i]) == Ok(r.value[i])
    ensures r.Err? ==> r.error == CouldNotParseReplace || r.error == CouldNotParseCharacter
  {
    if elements == [] then Ok([])
    else
      var n := |elements| - 1;
      var init := elements[..n];
      assert forall i :: 0 <= i < n ==> init[i] == elements[i];
      match ReplacesOf(init)
      case Err(e) =>
        assert exists i :: 0 <= i < n && !PairOf(init[i]).Ok?;
        Err(e)
      case Ok(pairs) =>
        match PairOf(elements[n])
        case Err(e) => Err(e)
        case Ok(p) =>
          PairsExtend(elements, pairs, p);
          Ok(pairs + [p])
  }

  /** Appending the pair of the last argument keeps every argument matched with its pair. */
  lemma PairsExtend(elements: seq<string>, pairs: seq<Replace>, p: Replace)
    requires |elements| == |pairs| + 1
    requires forall i :: 0 <= i < |pairs| ==> PairOf(elements[i]) == Ok(pairs[i])
    requires PairOf(elements[|pairs|]) == Ok(p)
    ensures forall i :: 0 <= i < |elements| ==> PairOf(elements[i]) == Ok((pairs + [p])[i])
  {
    var all := pairs + [p];
    assert all[|pairs|] == p && forall i :: 0 <= i < |pairs| ==> all[i] == pairs[i];
  }

  /** Once a prefix of the arguments is rejected, the later ones no longer matter. */
  lemma {:induction false} ReplacesErrPersists(elements: seq<string>, k: nat)
    requires k <= |elements| && ReplacesOf(elements[..k]).Err?
    ensures ReplacesOf(elements) == ReplacesOf(elements[..k])
    decreases |elements|
  {
    if k < |elements| {
      var init := elements[..|elements| - 1];
      assert init[..k] == elements[..k];
      ReplacesErrPersists(init, k);
    } else {
      assert elements[..k] == elements;
    }
  }

  /** What one more argument does to the list: its error, or one more pair. */
  lemma ReplacesStep(elements: seq<string>, k: nat, pairs: seq<Replace>)
    requires k < |elements| && ReplacesOf(elements[..k]) == Ok(pairs)
    ensures ReplacesOf(elements[..k + 1]) ==
      if PairOf(elements[k]).Err? then Err(PairOf(elements[k]).error) else Ok(pairs + [PairOf(elements[k]).value])
  {
    var prefix := elements[..k + 1];
    assert prefix[..k] == elements[..k] && prefix[k] == elements[k];
  }

  /** Arguments that all parse make an accepted list. */
  lemma ReplacesAccepted(elements: seq<string>)
    requires forall j :: 0 <= j < |elements| ==> PairOf(elements[j]).Ok?
    ensures ReplacesOf(elements).Ok?
  {
  }

  /** The first malformed replace argument decides the error. */
  lemma ReplacesOfFirstError(elements: seq<string>, k: nat)
    requires k < |elements| && PairOf(elements[k]).Err?
    requires forall j :: 0 <= j < k ==> PairOf(elements[j]).Ok?
    ensures ReplacesOf(elements) == Err(PairOf(elements[k]).error)
  {
    var prefix := elements[..k];
    assert forall j :: 0 <= j < k ==> prefix[j] == elements[j];
    ReplacesAccepted(prefix);
    ReplacesStep(elements, k, ReplacesOf(prefix).value);
    ReplacesErrPersists(elements, k + 1);
  }

  /** `get_replaces`: the replacements from argument position `argument` on; `split_at` needs it in range. */
  method GetReplaces(split: seq<string>, argument: nat) returns (r: Result<seq<Replace>, ParseError>)
    requires argument <= |split|
    ensures r == ReplacesOf(split[argument..])
  {
    var rest := split[argument..];
    var replacements: seq<Replace> := [];
    for i := 0 to |rest|
      invariant ReplacesOf(rest[..i]) == Ok(replacements)
    {
      ReplacesStep(rest, i, replacements);
      var sides := SplitOnce(rest[i], ReplaceArrow);
      if sides.None? {
        ReplacesErrPersists(rest, i + 1);
        return Err(CouldNotParseReplace);
      }
      var (from, to) := sides.value;
      if |from| != 1 || |to| != 1 {
        ReplacesErrPersists(rest, i + 1);
        return Err(CouldNotParseCharacter);
      }
      replacements := replacements + [(from[0], to[0])];
    }
    assert rest[..|rest|] == rest;
    return Ok(replacements);
  }

  /** One line, already cut into its name and arguments (`parse_instruction`). */
  function InstructionOf(split: seq<string>): (r: Result<Instruction, ParseError>)
    ensures r.Ok? ==> r.value.Alphabet? || r.value.MoveToChar?
    ensures r == Err(EmptyLine) <==> split == []
  {
    if |split| == 0 then Err(EmptyLine)
    else if split[0] == "move_to_char" then
      match GetDirection(split, 1)
      case Err(e) => Err(e)
      case Ok(direction) =>
        match GetChar(split, 2)
        case Err(e) => Err(e)
        case Ok(target) =>
          match ReplacesOf(split[3..])
          case Err(e) => Err(e)
          case Ok(replacements) => Ok(MoveToChar(direction, target, replacements))
    else if split[0] == "alphabet" then
      if |split| < 2 then Err(MissingParameter) else Ok(Alphabet(split[1]))
    else Err(UnknownCommand)
  }

  /** The lines accepted as a scan step are exactly the ones written in its textual form. */
  lemma MoveToCharLine(split: seq<string>, d: Direction, target: char, replacements: seq<Replace>)
    ensures InstructionOf(split) == Ok(MoveToChar(d, target, replacements)) <==>
      |split| == 3 + |replacements| && split[0] == "move_to_char" && split[1] == d.ToString() &&
      split[2] == [target] && forall i :: 0 <= i < |replacements| ==> split[3 + i] == PairText(replacements[i])
  {
    if |split| == 3 + |replacements| && split[0] == "move_to_char" && split[1] == d.ToString() &&
       split[2] == [target] && forall i :: 0 <= i < |replacements| ==> split[3 + i] == PairText(replacements[i])
    {
      var rest := split[3..];
      forall i | 0 <= i < |rest| ensures PairOf(rest[i]) == Ok(replacements[i]) {
        PairOfPairText(replacements[i]);
      }
      var r := ReplacesOf(rest);
      assert r.value == replacements;
    }
    if InstructionOf(split) == Ok(MoveToChar(d, target, replacements)) {
      var rest := split[3..];
      forall i | 0 <= i < |replacements| ensures split[3 + i] == PairText(replacements[i]) {
        assert PairOf(rest[i]) == Ok(replacements[i]);
        PairOfIsPairText(rest[i], replacements[i]);
      }
    }
  }

  /** The lines accepted as an alphabet declaration: its symbols are the second element, in order. */
  lemma AlphabetLine(split: seq<string>, symbols: seq<char>)
    ensures InstructionOf(split) == Ok(Alphabet(symbols)) <==>
      |split| >= 2 && split[0] == "alphabet" && split[1] == symbols
  {
  }

  /** A line whose first element names neither command is an unknown command, and only such a line is. */
  lemma UnknownCommandLine(split: seq<string>)
    ensures InstructionOf(split) == Err(UnknownCommand) <==>
      split != [] && split[0] != "move_to_char" && split[0] != "alphabet"
  {
  }

  /** An alphabet declaration fails exactly when its symbols are missing, and then with `MissingParameter`. */
  lemma AlphabetLineErrors(split: seq<string>)
    requires split != [] && split[0] == "alphabet"
    ensures InstructionOf(split).Err? <==> |split| < 2
    ensures InstructionOf(split).Err? ==> InstructionOf(split).error == MissingParameter
  {
  }

  /**
    * A scan step's arguments are checked in order: the direction, then the target,
    * then the replacements; the first failure is the error of the line.
    */
  lemma MoveToCharErrorOrder(split: seq<string>)
    requires split != [] && split[0] == "move_to_char"
    ensures GetDirection(split, 1).Err? ==> InstructionOf(split) == Err(GetDirection(split, 1).error)
    ensures GetDirection(split, 1).Ok? && GetChar(split, 2).Err? ==> InstructionOf(split) == Err(GetChar(split, 2).error)
    ensures GetDirection(split, 1).Ok? && GetChar(split, 2).Ok? ==>
      |split| >= 3 && (ReplacesOf(split[3..]).Err? ==> InstructionOf(split) == Err(ReplacesOf(split[3..]).error))
    ensures InstructionOf(split).Ok? <==>
      GetDirection(split, 1).Ok? && GetChar(split, 2).Ok? && ReplacesOf(split[3..]).Ok?
  {
  }

  /** `parse_instruction` applied to a line cut at every ", ". */
  function LineOf(line: string): Result<Instruction, ParseError> {
    InstructionOf(Split(line, ArgumentSeparator))
  }

  /** A line never splits into nothing, so no line of a file is reported as `EmptyLine`. */
  lemma LineNeverEmptyLine(line: string)
    ensures LineOf(line) != Err(EmptyLine)
  {
  }

  /** An empty line is reported as an unknown command. */
  lemma EmptyLineIsUnknownCommand()
    ensures LineOf("") == Err(UnknownCommand)
  {
    assert Split("", ArgumentSeparator) == [""];
  }

  /** Every line parsed on its own, as the loop of `parse_file` parses them. */
  function ParsedLines(lines: seq<string>): (parsed: seq<Result<Instruction, ParseError>>)
    ensures |parsed| == |lines|
  {
    seq(|lines|, i requires 0 <= i < |lines| => LineOf(lines[i]))
  }

  predicate DeclaresAlphabet(p: Result<Instruction, ParseError>) {
    p.Ok? && p.value.Alphabet?
  }

  predicate HasAlphabet(instructions: seq<Instruction>) {
    exists i :: 0 <= i < |instructions| && instructions[i].Alphabet?
  }

  lemma HasAlphabetAppend(instructions: seq<Instruction>, x: Instruction)
    ensures HasAlphabet(instructions + [x]) <==> HasAlphabet(instructions) || x.Alphabet?
  {
    if HasAlphabet(instructions) {
      var i :| 0 <= i < |instructions| && instructions[i].Alphabet?;
      assert (instructions + [x])[i].Alphabet?;
    }
    if x.Alphabet? {
      assert (instructions + [x])[|instructions|].Alphabet?;
    }
  }

  /**
    * The line loop of `parse_file` over the lines' parse results: all instructions,
    * one per line and in order, unless a line failed or a second alphabet appears.
    */
  function CheckLines(parsed: seq<Result<Instruction, ParseError>>): (r: Result<seq<Instruction>, ParseError>)
    ensures r.Ok? <==>
      (forall i :: 0 <= i < |parsed| ==> parsed[i].Ok?) &&
      (forall i, j :: 0 <= i < j < |parsed| && DeclaresAlphabet(parsed[i]) ==> !DeclaresAlphabet(parsed[j]))
    ensures r.Ok? ==> |r.value| == |parsed|
    ensures r.Ok? ==> forall i :: 0 <= i < |parsed| ==> parsed[i] == Ok(r.value[i])
  {
    if parsed == [] then Ok([])
    else
      var n := |parsed| - 1;
      var init := parsed[..n];
      assert forall i :: 0 <= i < n ==> init[i] == parsed[i];
      match CheckLines(init)
      case Err(e) => Err(e)
      case Ok(instructions) =>
        assert HasAlphabet(instructions) <==> exists i :: 0 <= i < n && DeclaresAlphabet(parsed[i]) by {
          if HasAlphabet(instructions) {
            var i :| 0 <= i < |instructions| && instructions[i].Alphabet?;
            assert DeclaresAlphabet(parsed[i]);
          }
        }
        match parsed[n]
        case Err(e) => Err(e)
        case Ok(instruction) =>
          if instruction.Alphabet? && HasAlphabet(instructions) then Err(OnlyOneAlphabetAllowed)
          else
            assert forall i :: 0 <= i < n ==> parsed[i] == Ok((instructions + [instruction])[i]);
            Ok(instructions + [instruction])
  }

  /** What one more line does to the loop: its error, a second alphabet, or one more instruction. */
  lemma CheckLinesStep(parsed: seq<Result<Instruction, ParseError>>, k: nat, instructions: seq<Instruction>)
    requires k < |parsed| && CheckLines(parsed[..k]) == Ok(instructions)
    ensures CheckLines(parsed[..k + 1]) ==
      if parsed[k].Err? then Err(parsed[k].error)
      else if parsed[k].value.Alphabet? && HasAlphabet(instructions) then Err(OnlyOneAlphabetAllowed)
      else Ok(instructions + [parsed[k].value])
  {
    var prefix := parsed[..k + 1];
    assert prefix[..k] == parsed[..k] && prefix[k] == parsed[k];
  }

  /** Once a prefix of the lines is rejected, the later lines no longer matter. */
  lemma {:induction false} CheckLinesErrPersists(parsed: seq<Result<Instruction, ParseError>>, k: nat)
    requires k <= |parsed| && CheckLines(parsed[..k]).Err?
    ensures CheckLines(parsed) == CheckLines(parsed[..k])
    decreases |parsed|
  {
    if k < |parsed| {
      var init := parsed[..|parsed| - 1];
      assert init[..k] == parsed[..k];
      CheckLinesErrPersists(init, k);
    } else {
      assert parsed[..k] == parsed;
    }
  }

  /**
    * The error of the first rejected line is the error of the whole loop: either
    * that line's own parse error, or a second alphabet declaration.
    */
  lemma FirstRejectedLineDecides(parsed: seq<Result<Instruction, ParseError>>, k: nat)
    requires k < |parsed|
    requires forall j :: 0 <= j < k ==> parsed[j].Ok?
    requires forall i, j :: 0 <= i < j < k && DeclaresAlphabet(parsed[i]) ==> !DeclaresAlphabet(parsed[j])
    requires parsed[k].Err? || (DeclaresAlphabet(parsed[k]) && exists j :: 0 <= j < k && DeclaresAlphabet(parsed[j]))
    ensures CheckLines(parsed) == Err(if parsed[k].Err? then parsed[k].error else OnlyOneAlphabetAllowed)
  {
    assert CheckLines(parsed[..k]).Ok? by {
      assert forall j :: 0 <= j < k ==> parsed[..k][j] == parsed[j];
    }
    var instructions := CheckLines(parsed[..k]).value;
    if parsed[k].Ok? {
      var j :| 0 <= j < k && DeclaresAlphabet(parsed[j]);
      assert parsed[..k][j] == parsed[j] == Ok(instructions[j]);
      assert HasAlphabet(instructions);
    }
    CheckLinesStep(parsed, k, instructions);
    CheckLinesErrPersists(parsed, k + 1);
  }

  /** `parse_file` without the file reading: the line loop, then the checks on its result. */
  function ProgramOf(lines: seq<string>): (r: Result<seq<Instruction>, ParseError>)
    ensures |lines| == 0 ==> r == Err(EmptyFile)
  {
    match CheckLines(ParsedLines(lines))
    case Err(e) => Err(e)
    case Ok(instructions) =>
      if |instructions| == 0 then Err(EmptyFile)
      else if !instructions[0].Alphabet? then Err(NoAlphabet)
      else Ok(instructions)
  }

  /**
    * An accepted file gives one instruction per line, each the parse of its line;
    * the first is the alphabet, no other is, and none is a loop marker.
    */
  lemma AcceptedProgram(lines: seq<string>)
    requires ProgramOf(lines).Ok?
    ensures var program := ProgramOf(lines).value;
      |program| == |lines| && (forall i :: 0 <= i < |lines| ==> LineOf(lines[i]) == Ok(program[i])) &&
      program[0].Alphabet? && (forall i :: 0 < i < |program| ==> !program[i].Alphabet?) &&
      (forall i :: 0 <= i < |program| ==> program[i].Alphabet? || program[i].MoveToChar?)
  {
    var parsed := ParsedLines(lines);
    var program := ProgramOf(lines).value;
    assert forall i :: 0 <= i < |lines| ==> parsed[i] == LineOf(lines[i]);
    assert DeclaresAlphabet(parsed[0]);
    forall i | 0 < i < |program| ensures !program[i].Alphabet? {
      assert !DeclaresAlphabet(parsed[i]);
    }
  }

  /**
    * A file is accepted exactly when it has lines, all of them parse, the first
    * declares the alphabet and no other line does.
    */
  lemma ProgramOfAccepts(lines: seq<string>)
    ensures ProgramOf(lines).Ok? <==>
      |lines| > 0 && (forall i :: 0 <= i < |lines| ==> LineOf(lines[i]).Ok?) &&
      DeclaresAlphabet(LineOf(lines[0])) && (forall i :: 0 < i < |lines| ==> !DeclaresAlphabet(LineOf(lines[i])))
  {
    var parsed := ParsedLines(lines);
    assert forall i :: 0 <= i < |lines| ==> parsed[i] == LineOf(lines[i]);
    if |lines| > 0 && (forall i :: 0 <= i < |lines| ==> LineOf(lines[i]).Ok?) &&
       DeclaresAlphabet(LineOf(lines[0])) && (forall i :: 0 < i < |lines| ==> !DeclaresAlphabet(LineOf(lines[i])))
    {
      assert CheckLines(parsed).Ok?;
    }
  }

  /** Lines that parse one by one into a program starting with its only alphabet are accepted as that program. */
  lemma ProgramOfParsedLines(lines: seq<string>, program: seq<Instruction>)
    requires |lines| == |program| > 0 && forall i :: 0 <= i < |lines| ==> LineOf(lines[i]) == Ok(program[i])
    requires program[0].Alphabet? && forall i :: 0 < i < |program| ==> !program[i].Alphabet?
    ensures ProgramOf(lines) == Ok(program)
  {
    assert DeclaresAlphabet(LineOf(lines[0]));
    assert forall i :: 0 < i < |lines| ==> !DeclaresAlphabet(LineOf(lines[i]));
    ProgramOfAccepts(lines);
    AcceptedProgram(lines);
    var accepted := ProgramOf(lines).value;
    assert forall i :: 0 <= i < |lines| ==> Ok(accepted[i]) == LineOf(lines[i]) == Ok(program[i]);
    assert accepted == program;
  }

  /** When every line parses and no alphabet is declared twice, an alphabet not on the first line is missing. */
  lemma AlphabetNotFirst(lines: seq<string>)
    requires |lines| > 0 && forall i :: 0 <= i < |lines| ==> LineOf(lines[i]).Ok?
    requires forall i, j :: 0 <= i < j < |lines| && DeclaresAlphabet(LineOf(lines[i])) ==> !DeclaresAlphabet(LineOf(lines[j]))
    requires !DeclaresAlphabet(LineOf(lines[0]))
    ensures ProgramOf(lines) == Err(NoAlphabet)
  {
    var parsed := ParsedLines(lines);
    assert forall i :: 0 <= i < |lines| ==> parsed[i] == LineOf(lines[i]);
    assert CheckLines(parsed).Ok?;
  }

  /** The error of the first rejected line is the error of the file. */
  lemma FirstRejectedLineIsFileError(lines: seq<string>, k: nat)
    requires k < |lines|
    requires forall j :: 0 <= j < k ==> LineOf(lines[j]).Ok?
    requires forall i, j :: 0 <= i < j < k && DeclaresAlphabet(LineOf(lines[i])) ==> !DeclaresAlphabet(LineOf(lines[j]))
    requires LineOf(lines[k]).Err? ||
             (DeclaresAlphabet(LineOf(lines[k])) && exists j :: 0 <= j < k && DeclaresAlphabet(LineOf(lines[j])))
    ensures ProgramOf(lines) == Err(if LineOf(lines[k]).Err? then LineOf(lines[k]).error else OnlyOneAlphabetAllowed)
  {
    var parsed := ParsedLines(lines);
    assert forall i :: 0 <= i < |lines| ==> parsed[i] == LineOf(lines[i]);
    FirstRejectedLineDecides(parsed, k);
  }

  /** `parse_file` over the lines of the file. */
  method ParseFile(lines: seq<string>) returns (r: Result<seq<Instruction>, ParseError>)
    ensures r == ProgramOf(lines)
  {
    ghost var parsed := ParsedLines(lines);
    var instructions: seq<Instruction> := [];
    var alphabetAlreadyExists := false;
    for i := 0 to |lines|
      invariant CheckLines(parsed[..i]) == Ok(instructions)
      invariant alphabetAlreadyExists == HasAlphabet(instructions)
    {
      var instruction := ParseLine(lines[i]);
      assert instruction == parsed[i];
      CheckLinesStep(parsed, i, instructions);
      if instruction.Err? {
        CheckLinesErrPersists(parsed, i + 1);
        return Err(instruction.error);
      }
      if instruction.value.Alphabet? {
        if alphabetAlreadyExists {
          CheckLinesErrPersists(parsed, i + 1);
          return Err(OnlyOneAlphabetAllowed);
        }
        alphabetAlreadyExists := true;
      }
      HasAlphabetAppend(instructions, instruction.value);
      instructions := instructions + [instruction.value];
    }
    assert parsed[..|lines|] == parsed;
    assert CheckLines(ParsedLines(lines)) == Ok(instructions);
    if |instructions| == 0 {
      return Err(EmptyFile);
    }
    if !instructions[0].Alphabet? {
      return Err(NoAlphabet);
    }
    return Ok(instructions);
  }

  /** One line of the loop of `parse_file`: cut at ", ", then `parse_instruction`. */
  method ParseLine(line: string) returns (r: Result<Instruction, ParseError>)
    ensures r == LineOf(line)
  {
    var split := Split(line, ArgumentSeparator);
    r := ParseInstruction(split);
  }

  /** `parse_instruction`: the alphabet arm copies the characters of its argument one by one. */
  method ParseInstruction(split: seq<string>) returns (r: Result<Instruction, ParseError>)
    ensures r == InstructionOf(split)
  {
    if |split| == 0 {
      return Err(EmptyLine);
    }
    var first := split[0];
    if first == "move_to_char" {
      var direction := GetDirection(split, 1);
      if direction.Err? {
        return Err(direction.error);
      }
      var target := GetChar(split, 2);
      if target.Err? {
        return Err(target.error);
      }
      var replacements := GetReplaces(split, 3);
      if replacements.Err? {
        return Err(replacements.error);
      }
      return Ok(MoveToChar(direction.value, target.value, replacements.value));
    } else if first == "alphabet" {
      if |split| < 2 {
        return Err(MissingParameter);
      }
      var symbols := split[1];
      var chars: seq<char> := [];
      for i := 0 to |symbols|
        invariant chars == symbols[..i]
      {
        chars := chars + [symbols[i]];
      }
      assert symbols[..|symbols|] == symbols;
      return Ok(Alphabet(chars));
    }
    return Err(UnknownCommand);
  }
}
