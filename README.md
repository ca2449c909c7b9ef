# tulang: transition-table generator and program parser

tulang compiles a small line-oriented language into the transition table of a
Turing machine. A program is a list of lines. The first line declares the
alphabet (`alphabet, abc`). Each later line is a scan step
(`move_to_char, right, c, a -> b, d -> e`): it moves over the tape in one
direction, rewriting the listed symbols as it passes, until it meets the target
character, and then turns back one cell. The generator turns every scan step
into the rows `(current,read,next,write,direction)` of one fresh machine
state. A `BeginLoop`/`EndLoop` pair sends the state reached at the loop end
back to the state recorded at the loop entry.

This project models the two components that hold the logic:

- `parsing.dfy` (module `Parsing`) models the line parser (`get_char`,
  `get_direction`, `get_replaces`, `parse_instruction`) and the line loop of
  `parse_file` with its three checks: one alphabet only, alphabet first, file
  not empty. Each function is a specification. `GetReplaces`,
  `ParseInstruction` and `ParseFile` are the source's loops, proved equal to
  those functions. There are lemmas for the error cases and the acceptance
  condition.
- `calculation.dfy` (module `Calculation`) models `Direction`'s and `State`'s
  rendering, `TuringMachine::new` over the file's lines, and the three row
  builders. Each builder is a method with loops, proved equal to a function
  that states which rows it emits: `MoveRows`, `EndLoopRows` and
  `ProgramRows`. `ProgramRows` threads a state counter (`Moves`) and a loop
  entry (`Marker`).
- `calculation_properties.dfy` (module `CalculationProperties`) proves what
  those rows mean:
  - the layout of a scan step, and that exactly one of its rows advances;
  - exactly which symbols each step reads;
  - when a step is deterministic, and the two ways a table stops being
    deterministic;
  - for whole programs: the table only grows, its states stay within
    `0 .. Moves`, every state below `Moves` reads every alphabet symbol and
    the blank, and a loop end returns to its entry.
- `line_format.dfy` (module `LineFormat`) writes instructions back as program
  text and proves that parsing that text returns the instructions.
- `text.dfy` (module `Text`) models the string operations the source borrows
  from Rust's standard library: `split`, `split_once`, and decimal rendering
  of a number. `instructions.dfy` (module `Instructions`) holds `Direction` and
  `Instruction`. `wrappers.dfy` (module `Wrappers`) holds `Option` and
  `Result`.

`Instruction` is taken from how the compiled code uses it: `Alphabet`,
`MoveToChar`, `BeginLoop` and `EndLoop`. `src/instructions.rs` declares older
variants that the rest of the code does not use. `Direction` is declared in
`src/calculation.rs`. It lives in module `Instructions` here, so that the
parser and the generator can both import it without a module cycle.

Points where the model had to decide how to read the code:

- `Closable` says that every `EndLoop` finds a recorded loop entry.
  `calculate_states` otherwise panics on `unwrap`. The comment at
  `src/calculation.rs:207-208` says that parsing checks loop order. The parser,
  however, never produces a loop instruction (`Parsing.InstructionOf`), so this
  is a precondition of `CalculateStates`. It is proved to hold for every parsed
  program (`TuringMachine.New`).
- Two kinds of conflicting rows are modelled as written and proved to conflict.
  They are not corrected:
  - a target that is also a replace source (`TargetReplacedConflict`);
  - a scan step that follows an `EndLoop`. It reuses the state the loop end
    left its rows on, because `calculate_end_loop_states` never advances the
    counter (`EndLoopSharesNextState`).
- A state a loop end leaves its rows on gets rows for the alphabet and the
  replace sources only, so no blank row unless a replacement rewrites the
  blank (`EndLoopRowsShape`). When the
  `EndLoop` is the last counting instruction, that state is `Moves` itself,
  which `ProgramRowsExhaustive` does not cover: the machine has no row there
  for the blank. This is a third side of the loop hazard, beside the two
  conflicts above.
- An empty line splits into `[""]` and is reported as `UnknownCommand`. The
  `EmptyLine` error of `parse_instruction` is unreachable from `parse_file`
  (`LineNeverEmptyLine`, `EmptyLineIsUnknownCommand`).

## Model

| member | source | states |
|---|---|---|
| Instructions.Direction.Opposite | src/calculation.rs:23-30 | the opposite of a direction is never the direction itself |
| Instructions.OppositeInvolutive | src/calculation.rs:23-30 | taking the opposite twice gives the direction back, and the opposite always differs from it |
| Instructions.ToStringInjective | src/calculation.rs:14-21 | two directions render alike (`left` / `right`) exactly when they are equal |
| Text.Split | src/parsing.rs:144 | splitting a line at `", "` gives at least one piece, and joining the pieces with `", "` gives the line back |
| Text.SplitJoin | src/parsing.rs:144 | splitting the join of pieces that hold no separator gives those pieces back |
| Text.SplitOnce | src/parsing.rs:59 | `split_once`: no result exactly when the separator does not occur; otherwise the text is left + separator + right, cut at the first occurrence |
| Text.NatToString | src/calculation.rs:47-50 | a state number renders as a non-empty string of decimal digits whose value is that number, with no leading zero, and `"0"` exactly for zero |
| Text.NatToStringUnique | src/calculation.rs:47-50 | any numeral of `n` without a leading zero is the rendering of `n`: the contract fixes the text `Display for u32` produces |
| Instructions.Direction.ToString | src/calculation.rs:14-21 | `Display for Direction`: `left` exactly for `Left`, `right` exactly for `Right` |
| Calculation.ArrowOf | src/calculation.rs:52-55 | the row arrow is `<` exactly for `Left` and `>` exactly for `Right` |
| Calculation.State.ToString | src/calculation.rs:43-58 | `Display for State`: `(`, the current state in decimal, `,` read `,`, the next state in decimal, `,` write `,`, the arrow, `)`, and nothing else |
| Parsing.GetChar | src/parsing.rs:26-39 | `Ok` exactly when the argument exists and is one character long, and then it is that character; otherwise `MissingParameter` past the end, `OnlyOneLetterAllowed` for any other length |
| Parsing.GetDirection | src/parsing.rs:80-94 | an accepted direction is the argument's rendering; past the end the error is `MissingParameter`, any other text gives `InvalidDirection` |
| Parsing.GetDirectionInvertsToString | src/parsing.rs:80-94 | `get_direction` returns `d` exactly when the argument is `d` rendered, so it inverts `Display for Direction` |
| Parsing.PairOf | src/parsing.rs:57-73 | a rejected replace argument fails only with `CouldNotParseReplace` or `CouldNotParseCharacter` |
| Parsing.PairOfWithoutArrow | src/parsing.rs:59-62 | the error is `CouldNotParseReplace` exactly when the argument holds no `" -> "` |
| Parsing.PairOfPairText | src/parsing.rs:59-73 | the argument `a -> b` parses to the pair `(a, b)` |
| Parsing.PairOfIsPairText | src/parsing.rs:59-73 | an argument parses to `(a, b)` exactly when it is the text `a -> b` |
| Parsing.ReplacesOf | src/parsing.rs:45-77 | the list is accepted exactly when every argument parses; then it has one pair per argument, each that argument's pair, in order; the errors are the replace errors |
| Parsing.ReplacesStep | src/parsing.rs:57-74 | one more argument either stops the list with its own error or appends its pair |
| Parsing.ReplacesErrPersists | src/parsing.rs:57-67 | once a prefix of the arguments is rejected, the arguments after it do not change the result |
| Parsing.ReplacesOfFirstError | src/parsing.rs:57-67 | the first malformed argument decides the error of the whole list |
| Parsing.GetReplaces | src/parsing.rs:45-77 | the push loop of `get_replaces` from position `argument` returns the specified list or error; `split_at` requires the position in range |
| Parsing.InstructionOf | src/parsing.rs:97-127 | every accepted instruction is an alphabet or a scan step, never a loop marker; `EmptyLine` exactly for an empty split |
| Parsing.UnknownCommandLine | src/parsing.rs:103-125 | a line is an unknown command exactly when it has a first element and that element is neither `move_to_char` nor `alphabet` |
| Parsing.AlphabetLineErrors | src/parsing.rs:110-115 | an `alphabet` line fails exactly when it has no second element, and then with `MissingParameter` |
| Parsing.MoveToCharErrorOrder | src/parsing.rs:104-108 | a `move_to_char` line reports the direction's error first, then the target's, then the replacements'; it is accepted exactly when all three parse |
| Parsing.MoveToCharLine | src/parsing.rs:104-108 | a split parses to a given scan step exactly when it is `move_to_char`, the direction's rendering, the one-character target and one `a -> b` per replacement, in order |
| Parsing.AlphabetLine | src/parsing.rs:110-123 | a split parses to a given alphabet exactly when it starts with `alphabet` and its second element is the symbols in order |
| Parsing.LineNeverEmptyLine | src/parsing.rs:143-145 | no line of a file is reported as `EmptyLine` |
| Parsing.EmptyLineIsUnknownCommand | src/parsing.rs:143-145 | an empty line is reported as `UnknownCommand` |
| Parsing.HasAlphabetAppend | src/parsing.rs:147-155 | the `alphabet_already_exists` flag after one more instruction is the old flag or that instruction being an alphabet |
| Parsing.CheckLines | src/parsing.rs:143-161 | the line loop accepts exactly when every line parses and no two lines declare an alphabet; then it keeps one instruction per line, in order |
| Parsing.CheckLinesStep | src/parsing.rs:143-160 | one more line stops the loop with its parse error, stops it with `OnlyOneAlphabetAllowed` if it is an alphabet after an alphabet, or appends its instruction |
| Parsing.CheckLinesErrPersists | src/parsing.rs:143-161 | once the loop rejects a prefix of the lines, the later lines do not change the result |
| Parsing.FirstRejectedLineDecides | src/parsing.rs:143-161 | the first line that fails to parse, or the first second alphabet, decides the error (`OnlyOneAlphabetAllowed` for the latter) |
| Parsing.ProgramOf | src/parsing.rs:163-172 | a file without lines is rejected with `EmptyFile` |
| Parsing.AcceptedProgram | src/parsing.rs:141-176 | an accepted file gives one instruction per line, each the parse of its line; the first is the alphabet, no other is, and none is a loop marker |
| Parsing.ProgramOfAccepts | src/parsing.rs:141-176 | a file is accepted exactly when it has lines, they all parse, the first declares the alphabet and no other does |
| Parsing.ProgramOfParsedLines | src/parsing.rs:141-176 | lines that parse one by one into a program starting with its only alphabet are accepted as exactly that program |
| Parsing.AlphabetNotFirst | src/parsing.rs:163-168 | when every line parses and none declares a second alphabet, an alphabet missing from the first line gives `NoAlphabet` |
| Parsing.FirstRejectedLineIsFileError | src/parsing.rs:143-161 | the error of a file is the error of its first rejected line, or `OnlyOneAlphabetAllowed` at the first repeated alphabet |
| Parsing.ParseFile | src/parsing.rs:141-176 | the line loop with its flag, then the empty-file and alphabet-first checks, returns the specified program or error |
| Parsing.ParseLine | src/parsing.rs:143-145 | one line is split at `", "` and parsed as specified |
| Parsing.ParseInstruction | src/parsing.rs:97-127 | `parse_instruction`, including the loop that copies the alphabet's characters, returns the specified instruction or error |
| LineFormat.LineTextRoundTrip | src/parsing.rs:97-127 | parsing the line written for an alphabet without `", "`, or for a scan step with no `','` replace source, gives the instruction back |
| LineFormat.ProgramTextRoundTrip | src/parsing.rs:141-176 | a program that starts with its only alphabet, followed by such scan steps, is accepted back from its text unchanged |
| Calculation.ReadRowToString | src/calculation.rs:43-58 | reading back the rendering `(cur,read,next,write,<or>)` of a row gives the row: the rendering loses nothing and is unambiguous |
| Calculation.Without | src/calculation.rs:93-98 | the alphabet without the target holds exactly the other symbols |
| Calculation.Unreplaced | src/calculation.rs:101-108 | the symbols kept by the `continue` are exactly those no replace source names |
| Calculation.UnreplacedStep | src/calculation.rs:101-116 | scanning one more symbol adds its self-loop row unless a replacement names it |
| Calculation.ReplaceRowsStep | src/calculation.rs:119-126 | scanning one more replacement adds its row |
| Calculation.ClosableMeans | src/calculation.rs:204-216 | the `unwrap` never fails exactly when every `EndLoop` comes after a recorded loop entry |
| Calculation.ClosablePrefix | src/calculation.rs:198-221 | every prefix of a program that never fails the `unwrap` never fails it either |
| Calculation.WithoutEndLoopClosable | src/calculation.rs:206-215 | a program without `EndLoop` never reaches the `unwrap` |
| Calculation.ProgramStep | src/calculation.rs:198-221 | one more instruction appends its rows, adds one to the counter for a scan step only, and records, clears or keeps the loop entry |
| Calculation.TuringMachine.New | src/calculation.rs:69-84 | `new` succeeds exactly when parsing does, with parsing's error otherwise; the alphabet is the first instruction's; the program never fails the `unwrap` |
| Calculation.TuringMachine.CalculateMoveStates | src/calculation.rs:86-153 | the loops of `calculate_move_states` return the rows of `MoveRows`, and the counter moves on by exactly one |
| Calculation.TuringMachine.CalculateEndLoopStates | src/calculation.rs:155-190 | the loops of `calculate_end_loop_states` return the rows of `EndLoopRows`; the counter is not touched |
| Calculation.TuringMachine.CalculateStates | src/calculation.rs:192-224 | the pass returns the rows of `ProgramRows`; its loop keeps the counter equal to the number of scan steps so far and the marker equal to the pending loop entry |
| CalculationProperties.WithoutNoDuplicates | src/calculation.rs:93-98 | filtering out the target keeps an alphabet free of repeats |
| CalculationProperties.UnreplacedNoDuplicates | src/calculation.rs:101-108 | dropping the replaced symbols keeps a symbol list free of repeats |
| CalculationProperties.MoveRowsLayout | src/calculation.rs:93-148 | a scan step emits self-loops over the kept symbols in alphabet order, then the replacements in list order, then the target row, then a blank self-loop unless the target is the blank; so its length is kept + replacements + 1 (+1) |
| CalculationProperties.MoveRowsAdvanceOnce | src/calculation.rs:110-150 | every row of a scan step leaves the entry state; exactly one row, the target row, goes to entry + 1 and moves the opposite way; every other row stays and moves the given way |
| CalculationProperties.MoveRowsReads | src/calculation.rs:93-148 | a scan step reads a symbol exactly when it is in the alphabet, the blank, the target or a replace source |
| CalculationProperties.MoveRowsDeterministic | src/calculation.rs:93-148 | with a repeat-free alphabet without the blank and distinct replace sources other than the target and the blank, no two rows of a step read the same symbol |
| CalculationProperties.TargetReplacedConflict | src/calculation.rs:119-135 | a target that is also a replace source gets two rows in the same state on the same symbol |
| CalculationProperties.EndLoopRowsLeave | src/calculation.rs:164-187 | every loop-end row leaves the current state for the loop entry, moving the given way |
| CalculationProperties.EndLoopRowsShape | src/calculation.rs:155-190 | a loop end emits one row per unreplaced alphabet symbol plus one per replacement, and reads exactly the alphabet and the replace sources (no blank row) |
| CalculationProperties.MarkerBound | src/calculation.rs:198-221 | the recorded loop entry is never ahead of the counter |
| CalculationProperties.MarkerAfter | src/calculation.rs:204-216 | with no loop instruction after position `j`, the loop entry is the counter at `j` after a `BeginLoop` there and none after an `EndLoop` |
| CalculationProperties.MarkerWithoutLoops | src/calculation.rs:195-216 | without loop instructions no loop entry is ever recorded |
| CalculationProperties.ProgramRowsGrow | src/calculation.rs:198-221 | the table is only appended to: the rows of a prefix start the rows of the program |
| CalculationProperties.StepRowsInTable | src/calculation.rs:198-221 | the rows of instruction `i` follow the rows of the instructions before it in the final table |
| CalculationProperties.StepReadsInTable | src/calculation.rs:198-221 | a symbol that instruction `i` reads in its state is read there by a row of the final table, among that instruction's rows |
| CalculationProperties.ProgramRowsStates | src/calculation.rs:192-224 | every row leaves a state up to the final counter and goes at most one state forward, never past the final counter |
| CalculationProperties.ProgramRowsExhaustive | src/calculation.rs:192-224 | every state below the final counter reads every alphabet symbol and the blank |
| CalculationProperties.MoveRowsAdvancing | src/calculation.rs:128-135 | a scan step contributes exactly one advancing row |
| CalculationProperties.ProgramRowsAdvancing | src/calculation.rs:192-224 | the final counter equals the number of advancing rows in the table: one fresh state per scan step |
| CalculationProperties.LoopReturnsToEntry | src/calculation.rs:204-216 | the rows of an `EndLoop` are appended after the earlier rows, leave the counter's state and return to the counter recorded at the nearest `BeginLoop` before it |
| CalculationProperties.DeterministicAppend | src/calculation.rs:198-202 | appending the rows of a later state to a deterministic table keeps it deterministic |
| CalculationProperties.LoopFreeDeterministic | src/calculation.rs:192-224 | a program without loops whose scan steps are well formed gives a deterministic table whose rows all leave allocated states |
| CalculationProperties.EndLoopSharesNextState | src/calculation.rs:155-190 | an `EndLoop` followed by a scan step, with a non-empty alphabet, gives a table that is not deterministic |
| CalculationProperties.ParsedProgramDeterministic | src/calculation.rs:192-224 | a parsed program never reaches the `unwrap`, and with well-formed scan steps its table is deterministic |

## Left out

- File I/O: opening and reading the file (`src/parsing.rs:129-139`), and the
  path argument of `TuringMachine::new`. The model starts from the file's
  lines, and `CouldNotOpenFile` and `CouldNotReadFile` are never produced.
- `str::lines` is not modelled: the lines are an input sequence, so its
  handling of `\r\n` and of a final line terminator is not captured.
- `src/main.rs` is not part of this model: it only reads the arguments and
  prints. `src/opcodes.rs` and `src/turing_machine.rs` are not part of this
  model: they are not declared as modules.
- `src/instructions.rs` is not part of this model: its variants are not the
  ones the code uses, and its `Display` is debug text for those variants.
- Checking that instructions use only symbols of the alphabet is not
  modelled. The source leaves it as a TODO at `src/parsing.rs:174`.
- Conflicting rows are not removed or corrected. They are proved to arise
  (`TargetReplacedConflict`, `EndLoopSharesNextState`).
- CalculateMoveStates: the counter is an unbounded `nat`. The `u32` counter
  differs only at `u32::MAX`: `wrapping_add` wraps the advancing row's target
  (`src/calculation.rs:133`), while `+= 1` overflows
  (`src/calculation.rs:150`).
- CalculateStates: an `EndLoop` without a recorded loop entry, where the
  source panics on `unwrap`, is excluded by the precondition `Closable`. It is
  not modelled as a panic.
- GetChar: a text argument is a sequence of characters, and "length one" means
  one character. The source's `len()` counts UTF-8 bytes, so a single
  non-ASCII character is rejected there and accepted here. Arguments are
  assumed to be ASCII.
- PairOf: the same ASCII assumption applies to both sides of `a -> b`
  (`src/parsing.rs:65`).
