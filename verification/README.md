# A verified model of a tape-language interpreter

This project models the core of a small interpreter for the eight-operation
tape language (Brainfuck), written in Rust in `src/main.rs`. Five parts are
modelled:

- **The memory.** `Memory` is a tape of 30,000 `u16` cells and a pointer.
- **The primitive operations.** `inc_pointer`, `dec_pointer`, `inc_value`,
  `dec_value`, `print` and `scan`.
- **The bracket matcher.** `find_next` is a depth-counting scan for the `]`
  that balances a `[`.
- **The evaluator.** `eval` scans the program text left to right and dispatches on
  each character. At a `[` it finds the matching `]`. While the current cell
  is non-zero it evaluates the text strictly between the two brackets again,
  through `apply` and `eval_loop`.
- **Concrete programs.** For a few small programs, the whole evaluation is
  proved as a worked example.

The Dafny modules follow those parts:

- `Tape` (`tape.dfy`): the memory and the primitive operations, each returning
  a `Result` for its failure cases.
- `Brackets` (`brackets.dfy`): `find_next`, and what it means for a `]` to
  balance a `[`.
- `Interpreter` (`interpreter.dfy`): the evaluation state, the single-character
  step, and the mutually recursive `eval` scan and loop.
- `Properties` (`properties.dfy`): what evaluation preserves, the loop rules,
  the unmatched-bracket failure, and fuel monotonicity.
- `Scenarios` (`scenarios.dfy`): repeated increments, the clearing loop `[-]`,
  the multiplication loop `[>+…+<-]`, and the complete evaluation of concrete
  programs such as `++++++++[>++++++++<-]>.`, which prints 64.

## Semantic choices

- **Cells wrap.** `+` and `-` wrap modulo 2^16, as in a release build. A debug
  build panics on that overflow instead.
- **`>` is unchecked.** It always succeeds, even past the end of the tape.
  Any later cell access with the pointer at or past the end fails with
  `PointerOutOfRange`. That covers `+`, `-`, `.`, `,` and the loop condition
  at a `[`. `Scenarios.MovesThenIncrement` states the consequence: any number
  of `>` succeed, and the `+` after them fails exactly when the pointer has
  reached the capacity.
- **`<` at pointer 0 fails.** This is `PointerUnderflow`, and it follows the
  debug build, where the `usize` underflow panics. The two build semantics
  are mixed on purpose: cells follow the release build's wrap-around, and the
  pointer follows the debug build's panic. A release build would wrap the
  pointer to `usize::MAX` instead (see "Left out").
- **Standard I/O is data.**
  - Input is the sequence of lines that successive `read_line` calls return,
    each line holding its bytes, newline included.
  - `,` stores the first byte of the next line and consumes that line.
  - It fails with `InputExhausted` when no line is left, or when the line is
    empty (end of input, where `nth(0)` finds no byte). This check comes
    before the cell access, as in `scan`.
  - Output is the sequence of character codes `.` has printed. Each is the
    current cell's low 8 bits, from the `as u8` cast.
- **Failures keep earlier effects.** A panic becomes a `Fail` outcome. It
  carries the error and the state just before the failing instruction, so
  output printed earlier stays visible.
- **Fuel bounds the run.** Programs may run forever, so evaluation carries
  fuel, and running out is the separate outcome `OutOfFuel`.
  - The bound is per loop, not a budget shared by the whole run.
  - A loop entered with fuel `f` may iterate at most `f` times.
  - Its body runs with one unit less at each iteration, so a nested loop gets
    less fuel than the loop around it.
  - Loops side by side each get the full `f`, so `f` does not bound the total
    number of iterations in a run.
  - The loop condition is checked before the fuel, so a loop whose cell is
    already 0 needs no fuel.
  - `Properties.RunFuelMonotone` shows that fuel only cuts runs short: more
    fuel never changes an outcome that did not run out.

## Model

`Interpreter.Run` (the model of `eval`) and `Interpreter.Interpret` (a run
on a fresh memory) carry no contract of their own. Their properties are the
lemmas in `Properties` and `Scenarios` listed below.

| member | source | states |
|---|---|---|
| Tape.New | src/main.rs:21-26 | a fresh memory has its pointer at 0 and exactly `capacity` cells, every one 0 and so a valid `u16` |
| Tape.IncPointer | src/main.rs:42-44 | `>` moves the pointer one cell right and leaves every cell as it was; it never fails, even past the last cell |
| Tape.DecPointer | src/main.rs:46-48 | `<` fails with `PointerUnderflow` exactly when the pointer is 0; otherwise it moves the pointer one cell left and leaves every cell as it was |
| Tape.MoveRightThenLeft | src/main.rs:42-48 | `<` after `>` gives back exactly the memory before the move |
| Tape.MoveLeftThenRight | src/main.rs:42-48 | when the pointer is above 0, `>` after `<` gives back exactly the memory before the move |
| Tape.Write | src/main.rs:72 | storing into the current cell succeeds exactly when the pointer addresses a cell; the stored cell holds the value afterwards and every other cell and the pointer are unchanged |
| Tape.WriteThenRead | src/main.rs:72 | a value stored in the current cell is read back unchanged |
| Tape.IncValue | src/main.rs:50-52 | `+` fails with `PointerOutOfRange` exactly when the pointer is past the tape; otherwise only the current cell changes, it stays a `u16`, and it goes up by one, with 65535 wrapping to 0 |
| Tape.DecValue | src/main.rs:54-56 | `-` fails with `PointerOutOfRange` exactly when the pointer is past the tape; otherwise only the current cell changes, it stays a `u16`, and it goes down by one, with 0 wrapping to 65535 |
| Tape.IncThenDec | src/main.rs:50-56 | on a valid memory, `-` after `+` restores the memory exactly, across the wrap-around too |
| Tape.DecThenInc | src/main.rs:50-56 | on a valid memory, `+` after `-` restores the memory exactly, across the wrap-around too |
| Tape.IncValueModular | src/main.rs:51 | whatever the cell held, the new cell value is congruent to the old one plus one modulo 2^16 |
| Tape.DecValueModular | src/main.rs:55 | whatever the cell held, the new cell value is congruent to the old one minus one modulo 2^16 |
| Tape.IncWrapsAtMax | src/main.rs:51 | `+` on a cell holding 65535 leaves it at 0 |
| Tape.DecWrapsAtZero | src/main.rs:55 | `-` on a cell holding 0 leaves it at 65535 |
| Tape.Read | src/main.rs:141 | reading the current cell, as the loop condition does, succeeds exactly when the pointer addresses a cell, fails with `PointerOutOfRange` otherwise, and on a valid memory yields a `u16` |
| Tape.Print | src/main.rs:64-66 | `.` fails with `PointerOutOfRange` exactly when the pointer is past the tape; otherwise the emitted code is a byte, below 256 |
| Tape.PrintLowByte | src/main.rs:65 | the emitted byte is congruent to the cell modulo 256, that is, it is the cell's low 8 bits |
| Tape.Scan | src/main.rs:68-73 | `,` fails with `InputExhausted` when no line is left or the line is empty, and otherwise with `PointerOutOfRange` exactly when the pointer is past the tape; on success only the current cell changes, it holds the line's first byte, and exactly that line is consumed |
| Brackets.MatchFrom | src/main.rs:197-218 | the scan from a `[` returns a position only when it is the balancing `]`: the depth counted from the `[` stays at least 1 before it and reaches 0 just after it; when it returns nothing, the depth never returns to 0 up to the end of the text |
| Brackets.FindNext | src/main.rs:197-218 | a position returned for the `[` at `i` lies after `i`, inside the text, and holds a `]` |
| Brackets.FindNextSound | src/main.rs:197-218 | the result of `find_next` is the balancing `]` when there is one, and otherwise the depth stays open to the end |
| Brackets.MatchUnique | src/main.rs:203-213 | a `[` has at most one balancing `]` |
| Brackets.FindNextIsMatch | src/main.rs:197-218 | `find_next` returns `e` if and only if `e` is the `]` that balances the `[` |
| Brackets.FindNextNone | src/main.rs:217 | `find_next` returns nothing if and only if no position in the text balances the `[` |
| Brackets.FlatLoopMatches | src/main.rs:203-213 | when no bracket lies between a `[` and a later `]`, that `]` is the one `find_next` returns |
| Brackets.MatchInPrefix | src/main.rs:197-218 | a `[` balanced before position `j` is matched by `find_next` at the same `]` in the text's first `j` characters |
| Interpreter.Step | src/main.rs:100-130 | one non-loop character never runs out of fuel, a failing one leaves the state unchanged, and a character outside `><+-.,` leaves the state unchanged |
| Interpreter.RunLoop | src/main.rs:141-151 | a loop that ends normally leaves the pointer on a cell and that cell at 0; with the pointer past the end of the tape, the loop condition fails with `PointerOutOfRange` and the state is unchanged |
| Properties.StepFollows | src/main.rs:168-194 | a single operation keeps the tape's length and every cell a `u16`, only appends to the output and only consumes input from the front |
| Properties.RunFollows | src/main.rs:96-165 | evaluation, whether it completes or fails, keeps the tape's length and every cell a `u16`, only appends to the output and only consumes input from the front |
| Properties.RunLoopFollows | src/main.rs:141-151 | the same holds for every run of a loop |
| Properties.InterpretFollows | src/main.rs:89-92 | a run from a fresh memory keeps the tape at exactly 30,000 cells and never consumes more input than there is |
| Properties.RunStretch | src/main.rs:98-164 | scanning a stretch of text without `[` applies its single-character operations in order, then goes on after the stretch, or stops at the first failure |
| Properties.RunWithoutLoops | src/main.rs:96-165 | a program without `[` evaluates to the in-order fold of its single-character operations, whatever the fuel |
| Properties.SkipsNonCommand | src/main.rs:158-163 | a character outside `><+-.,[`, a stray `]` included, only advances the scan |
| Properties.RunFuelMonotone | src/main.rs:141-151 | more fuel never changes an outcome that did not run out of fuel, so the bound only cuts the unbounded loop short |
| Properties.RunLoopFuelMonotone | src/main.rs:141-151 | the same holds for a single loop |
| Properties.ZeroCellSkipsLoop | src/main.rs:141-155 | a `[` reached with the current cell at 0 changes nothing, and the scan resumes just after its balancing `]` |
| Properties.LoopDoneContinues | src/main.rs:132-155 | after a loop ends normally, the scan resumes just after the `]` that balances its `[` (by the depth definition, independent of `find_next`), in the state the loop left |
| Properties.NonZeroCellEntersLoop | src/main.rs:132-155 | at a `[` with the current cell non-zero, the scan evaluates the text strictly between it and its balancing `]`, then checks the cell again; once the loop ends normally the scan resumes after the `]`, and a failure in the body ends the run |
| Properties.OffTapeLoopFails | src/main.rs:141 | a `[` reached with the pointer past the end of the tape fails with `PointerOutOfRange`, with the state unchanged, whatever the fuel |
| Properties.UnmatchedBracketFails | src/main.rs:135-138 | a `[` with no balancing `]` fails the run with the unmatched-bracket error when the scan reaches it, with the state unchanged |
| Properties.RunPrefix | src/main.rs:96-164 | when every `[` before position `j` is balanced before `j`, scanning the text is scanning its first `j` characters on their own, then going on at `j` |
| Properties.RunLoopSameBody | src/main.rs:58-62 | a loop's outcome depends on the text only through its body, the slice between its brackets |
| Properties.UnmatchedAfterPrefix | src/main.rs:96-138 | an unmatched `[` is detected only when reached: when every `[` before it is balanced before it, the run is the evaluation of the text before it, loops included, followed by the unmatched-bracket failure in the state that evaluation left |
| Properties.PrintAppendsLowByte | src/main.rs:64-66 | `.` appends one byte to the output, congruent to the current cell modulo 256, and changes nothing else |
| Properties.ScanReadsFirstByte | src/main.rs:68-73 | `,` succeeds if and only if a non-empty line is left and the pointer addresses a cell; it fails with `InputExhausted` when the input is exhausted; on success it stores the line's first byte, consumes the line and changes nothing else |
| Scenarios.Increments | src/main.rs:50-52 | `n` consecutive `+` add `n` to the current cell modulo 2^16 |
| Scenarios.MovesRight | src/main.rs:42-44 | `n` consecutive `>` never fail and advance the pointer by `n`, whatever the tape's length |
| Scenarios.ExecConcat | src/main.rs:96-165 | folding over concatenated text folds over the first part, then over the second unless the first failed |
| Scenarios.ClearLoop | src/main.rs:141-151 | the loop `[-]` counts the current cell down and ends with it at 0, the rest of the state unchanged, given as much fuel as the cell held |
| Scenarios.MultiplyLoop | src/main.rs:141-151 | the loop `[>` followed by `k` `+` and `<-]` empties the current cell `a` and adds `a * k` modulo 2^16 to the next cell |
| Scenarios.PrintsTwo | src/main.rs:96-165 | `++.` prints the byte 2 and leaves 2 in the first cell |
| Scenarios.IncrementThenClear | src/main.rs:132-155 | `+[-]` ends on a tape equal to a fresh one when given one unit of fuel or more, and runs out of fuel with none |
| Scenarios.LoneOpenBracketFails | src/main.rs:135-138 | `[` alone fails with the unmatched-bracket error on an untouched state |
| Scenarios.MovesThenIncrement | src/main.rs:42-52 | `n` moves right followed by `+` fail, with `PointerOutOfRange` at pointer `n`, exactly when `n` reaches the tape's capacity; otherwise cell `n` becomes 1 |
| Scenarios.PrintsSixtyFour | src/main.rs:96-165 | `++++++++[>++++++++<-]>.` prints the byte 64 given fuel for its eight iterations, ending on the second cell, which holds 64, with the first cell back at 0 |

## Left out

- `main` (src/main.rs:77-93) is left out. It parses arguments, reads the file
  and trims it: host I/O. The model takes the program text as input and runs
  it on a fresh 30,000-cell memory (`Interpreter.Interpret`).
- Real standard input and output are left out: the `read_line` buffering and
  flushing. Input and output are sequences.
- The model does not include `read_line`'s error on input that is not valid
  UTF-8.
  - On such input `read_line` returns an error, and `expect` panics with
    "Unable to read" (src/main.rs:70).
  - The model takes a line as bytes and accepts any of them. So a line that
    starts with byte 0xFF makes `,` fail in the program, but in the model the
    byte is stored.
- Input consumed at a panic is left out. A `,` that fails on the pointer has
  already read its line, but the failed state keeps the input as it was,
  since nothing can be observed after the panic.
- UTF-8 effects are left out, and the program text is taken to be ASCII, where
  character and byte positions agree. This affects three places:
  - `eval` slices the text by byte (src/main.rs:100).
  - `find_next` adds a character index to a byte offset
    (src/main.rs:203-208).
  - `print!` of a character at or above 128 writes two UTF-8 bytes. The model
    records the character code.
- Tape.DecPointer: `<` at pointer 0 fails, as in a debug build.
  - A release build wraps the pointer to `usize::MAX` instead. Any cell
    access there still fails, and a following `>` wraps it back to 0.
  - So `<` alone and `<>+` complete in a release build but fail in the model.
  - The pointer here is a natural number, and a wrapped pointer is not
    modelled.
- Debug-build overflow panics on `+` and `-` are left out. Release-build
  wrap-around is modelled.
- The `Operation` enum and the `apply` dispatch (src/main.rs:30-38, 168-194)
  are inlined into `Interpreter.Step` and `Interpreter.RunLoop`. They add no
  behaviour.
