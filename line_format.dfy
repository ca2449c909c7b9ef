/**
  * The program text the parser reads, written back from instructions: a line is
  * its instruction name and arguments joined with ", ", a replace argument is
  * `from -> to`. Parsing what is written gives the instructions back, which pins
  * down the line grammar the parser accepts.
  */
module LineFormat {
  import opened Wrappers
  import opened Text
  import opened Instructions
  import opened Parsing

  /** The arguments of the line declaring `ins`, name first. */
  function Pieces(ins: Instruction): seq<string>
    requires ins.Alphabet? || ins.MoveToChar?
  {
    match ins
    case Alphabet(symbols) => ["alphabet", symbols]
    case MoveToChar(direction, target, replacements) =>
      ["move_to_char", direction.ToString(), [target]] +
      seq(|replacements|, i requires 0 <= i < |replacements| => PairText(replacements[i]))
  }

  /** The line declaring `ins`. */
  function LineText(ins: Instruction): string
    requires ins.Alphabet? || ins.MoveToChar?
  {
    Join(Pieces(ins), ArgumentSeparator)
  }

  /**
    * The instructions a line can declare unambiguously: an alphabet whose symbols do
    * not contain ", ", or a scan step none of whose replace sources is ','.
    */
  predicate Writable(ins: Instruction) {
    match ins
    case Alphabet(symbols) => FindFirst(symbols, ArgumentSeparator).None?
    case MoveToChar(_, _, replacements) => forall i :: 0 <= i < |replacements| ==> replacements[i].0 != ','
    case _ => false
  }

  /** A text with no ',' before its last character holds no ", ". */
  lemma NoCommaBeforeLast(x: string)
    requires forall j :: 0 <= j < |x| - 1 ==> x[j] != ','
    ensures FindFirst(x, ArgumentSeparator).None?
  {
    forall j: nat ensures !OccursAt(x, ArgumentSeparator, j) {
      if j + 2 <= |x| {
        assert x[j..j + 2][0] == x[j];
      }
    }
  }

  /** Every argument of a writable instruction's line ends right before the ", " that follows it. */
  lemma PiecesEndBeforeSeparator(ins: Instruction)
    requires Writable(ins)
    ensures forall i :: 0 <= i < |Pieces(ins)| ==> EndsBeforeSeparator(Pieces(ins)[i], ArgumentSeparator)
  {
    var pieces := Pieces(ins);
    forall i | 0 <= i < |pieces| ensures FindFirst(pieces[i], ArgumentSeparator).None? {
      if ins.MoveToChar? && i >= 3 {
        var p := ins.replacements[i - 3];
        assert pieces[i] == [p.0] + ReplaceArrow + [p.1];
        NoCommaBeforeLast(pieces[i]);
      } else if ins.MoveToChar? && i == 1 {
        NoCommaBeforeLast(ins.direction.ToString());
      } else if i == 0 {
        NoCommaBeforeLast(pieces[0]);
      } else if ins.MoveToChar? {
        NoCommaBeforeLast(pieces[i]);
      }
    }
    forall i | 0 <= i < |pieces| ensures EndsBeforeSeparator(pieces[i], ArgumentSeparator) {
      AbsentSeparatorEndsBefore(pieces[i], ArgumentSeparator);
    }
  }

  /** Parsing the line written for a writable instruction gives the instruction back. */
  lemma LineTextRoundTrip(ins: Instruction)
    requires Writable(ins)
    ensures LineOf(LineText(ins)) == Ok(ins)
  {
    var pieces := Pieces(ins);
    PiecesEndBeforeSeparator(ins);
    SplitJoin(pieces, ArgumentSeparator);
    match ins
    case Alphabet(symbols) =>
      AlphabetLine(pieces, symbols);
    case MoveToChar(direction, target, replacements) =>
      MoveToCharLine(pieces, direction, target, replacements);
  }

  /** The lines of a whole program. */
  function ProgramText(program: seq<Instruction>): (lines: seq<string>)
    requires forall i :: 0 <= i < |program| ==> program[i].Alphabet? || program[i].MoveToChar?
  {
    seq(|program|, i requires 0 <= i < |program| => LineText(program[i]))
  }

  /**
    * A program of writable instructions that starts with its only alphabet is
    * accepted back from its text unchanged.
    */
  lemma ProgramTextRoundTrip(program: seq<Instruction>)
    requires |program| > 0 && program[0].Alphabet?
    requires forall i :: 0 < i < |program| ==> program[i].MoveToChar?
    requires forall i :: 0 <= i < |program| ==> Writable(program[i])
    ensures ProgramOf(ProgramText(program)) == Ok(program)
  {
    var lines := ProgramText(program);
    forall i | 0 <= i < |lines| ensures LineOf(lines[i]) == Ok(program[i]) {
      LineTextRoundTrip(program[i]);
    }
    ProgramOfParsedLines(lines, program);
  }
}
