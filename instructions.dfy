/**
  * The vocabulary shared by the parser and the transition-table generator: head
  * directions and the typed instructions of a program. `Direction` is declared in
  * calculation.rs; it lives here because parsing.rs and calculation.rs use each
  * other, and Dafny modules may not import one another in a cycle.
  */
module Instructions {

  /** The reserved blank symbol: never part of a declared alphabet, always readable. */
  const Blank: char := '-'

  datatype Direction = Left | Right {

    /** The other direction; a scan step moves this way once it reads its target. */
    function Opposite(): (r: Direction)
      ensures r != this
    {
      match this
      case Left => Right
      case Right => Left
    }

    /** The keyword a program line uses for this direction (`Display for Direction`). */
    function ToString(): (r: string)
      ensures r == "left" <==> this == Left
      ensures r == "right" <==> this == Right
    {
      match this
      case Left => "left"
      case Right => "right"
    }
  }

  /** `opposite` is an involution without fixed points. */
  lemma OppositeInvolutive(d: Direction)
    ensures d.Opposite().Opposite() == d
    ensures d.Opposite() != d
  {
  }

  /** The keywords of the two directions differ, so a keyword names one direction. */
  lemma ToStringInjective(d: Direction, e: Direction)
    ensures d.ToString() == e.ToString() <==> d == e
  {
  }

  /** A (from, to) pair: a scan step rewrites `from` into `to` wherever it passes over it. */
  type Replace = (char, char)

  datatype Instruction =
    | Alphabet(symbols: seq<char>)
    | MoveToChar(direction: Direction, target: char, replacements: seq<Replace>)
    | BeginLoop
    | EndLoop(direction: Direction, replacements: seq<Replace>)
}
