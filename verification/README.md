# A verified model of a Brainfuck interpreter

This project models the core of a small Brainfuck interpreter written in Rust
(`src/main.rs`) and proves properties of that model in Dafny.

- **Tape.** The tape is unbounded in both directions. It is stored as three parts:
  - a left vector (cells -1, -2, ...);
  - an origin byte (cell 0);
  - a right vector (cells +1, +2, ...).

  A three-way `Position` (`Left(n)`, `Zero`, `Right(n)`) says where the cursor is. Stepping onto a cell that was never visited appends a 0 first. The cells are `u8`, and `+` and `-` wrap modulo 256, as a release build does.
- **`interpret`.** It reverses the code into a stack of (index, character) pairs and pops them one at a time. It dispatches `><+-.,`, `[` and whitespace to tape operations, reading from standard input and printing to standard output. A `]` is only ever consumed by the scan that a `[` starts; one that reaches the dispatch aborts the run.
- **Loops.** On `[` it pops further characters into a loop body. It counts bracket depth from 1 and stops at the `]` that brings the depth to 0; an unclosed `[` takes the whole rest of the code. It then runs the body recursively while the cell under the cursor is nonzero.
- **Errors.** Any other character, including a `]` that no scan consumed, aborts the run. So does a `,` with no input left.

The model is built in layers:

- **`Tapes`** (`tape.dfy`): the tape and its seven operations, stated against one abstraction. `Cell(t, k)` is the value of the cell at signed offset `k`, and reads 0 where nothing is stored yet.
- **`Brackets`** (`brackets.dfy`): the reversed `(index, char)` stack and the `[` scan. The scan is specified independently by `IsLoopSplit`, a property of the left-to-right text. `LoopSplitExists` and `LoopSplitUnique` show it always holds and determines the body and the rest uniquely.
- **`Interpreter`** (`interpreter.dfy`): the state (tape, unread input, output so far) and `Step`, `Exec`, `Loop` and `Interpret`.
  - Non-termination (`+[]`) is modelled with fuel. Each loop iteration costs one unit of the fuel of the loop it belongs to: the body and the rest of that loop run with one unit less, and a later loop at the same level starts again with the full fuel. So `OutOfFuel` means some loop needed more iterations than its fuel allowed. It is not a bound on the total number of steps (`+[-]+[-]` finishes with fuel 1).
  - An aborted run is `Fail(err, st)`. It keeps the state reached, because everything before the failing character has already happened.
- **`Semantics`** (`semantics.dfy`): laws that describe `Interpret` on the left-to-right text, one per kind of first character, with no mention of the reversed stack. They cover straight-line code against a reference fold (`StraightRun`), cursor moves, and the `[-]` clear loop.
- **`Transfers`** (`transfer.dfy`): the transfer loop `[>` + m plus signs + `<-]`. `Drain` is its reference definition: the body repeated until the cell is 0. The proved law says the loop empties the cell into its right neighbour, multiplied by `m` modulo 256, and changes nothing else.
- **`Programs`** (`programs.dfy`): whole programs run from a fresh tape, each pinning down one rule of the dispatch.

**The error index.** When an unexpected character aborts the run, the interpreter reports `code.len() - i`. Here `i` is the popped entry's index in the reversed code, and `code.len()` is the stack length after the pop. The two are always equal, so the code as written reports index 0 for every unexpected character. One could read the reported value as a 1-based position counted from the end of the code, but that is not what the code computes. The model follows the code: `Interpreter.Interpret` proves that the index is 0.

## Model

| member | source | states |
|---|---|---|
| Tapes.New | src/main.rs:20-27 | The new tape is valid, its cursor is at the origin, nothing is materialised on either side, and every cell reads 0. |
| Tapes.StepRight | src/main.rs:28-47 | The cursor moves one cell right and no cell's value changes. The left side and the origin are untouched, and the right side grows by one 0 exactly when the cursor moves past its end. A valid tape stays valid. |
| Tapes.StepLeft | src/main.rs:48-67 | The cursor moves one cell left and no cell's value changes. The right side and the origin are untouched, and the left side grows by one 0 exactly when the cursor moves past its end. A valid tape stays valid. |
| Tapes.Increment | src/main.rs:68-74 | The cursor cell becomes (v + 1) mod 256, so 255 wraps to 0. Every other cell, the cursor and the stored lengths stay as they were. |
| Tapes.Decrement | src/main.rs:75-81 | The cursor cell becomes (v + 255) mod 256, so 0 wraps to 255. Every other cell, the cursor and the stored lengths stay as they were. |
| Tapes.Get | src/main.rs:82-88 | Returns the value of the cell at the cursor's offset. |
| Tapes.Set | src/main.rs:89-95 | The cursor cell holds the new byte. Every other cell, the cursor and the stored lengths stay as they were. |
| Tapes.Extensionality | src/main.rs:12-17 | A tape is determined by its cursor, its stored lengths and its cell values. |
| Tapes.StepLeftThenRight | src/main.rs:28-67 | A step left followed by a step right restores the cursor and every cell value. The only trace is that the left side may be longer by at most one extra 0. |
| Tapes.StepRightThenLeft | src/main.rs:28-67 | A step right followed by a step left restores the cursor and every cell value. The only trace is that the right side may be longer by at most one extra 0. |
| Tapes.SetThenGet | src/main.rs:82-95 | `get` reads back the byte `set` wrote. |
| Tapes.SetOwnValue | src/main.rs:82-95 | Writing back the byte under the cursor leaves the tape exactly as it was. |
| Tapes.SetTwice | src/main.rs:89-95 | A second write to the cursor cell overrides the first. |
| Tapes.DecrementUndoesIncrement | src/main.rs:68-81 | `decrement` after `increment` is the identity, and so is the other order, at every cell value including 0 and 255. |
| Tapes.IncrementAfterSet | src/main.rs:68-95 | Incrementing after writing `b` is writing (b + 1) mod 256. |
| Tapes.DecrementAfterSet | src/main.rs:75-95 | Decrementing after writing `b` is writing (b + 255) mod 256. |
| Tapes.IncrementTimes | src/main.rs:68-74 | `k` increments in a row are one write of (v + k) mod 256 to the cursor cell. |
| Tapes.DecrementTimes | src/main.rs:75-81 | `k` decrements in a row are one write of (v - k) mod 256 to the cursor cell. |
| Tapes.WrapAroundCycle | src/main.rs:68-81 | 256 increments, or 256 decrements, leave the tape exactly as it was. |
| Brackets.Stack | src/main.rs:116 | The stack has one entry per character, and entry `k` carries index `k`. |
| Brackets.StackAt | src/main.rs:116 | Entry `k` of the stack holds the `k`-th character from the end of the code, as the reversal puts it. |
| Brackets.StackThenPending | src/main.rs:116-118 | Popping the stack from the end yields the code from left to right. |
| Brackets.PendingThenStack | src/main.rs:116-118 | A well-indexed stack is the stack of the code it holds. So what is left after any number of pops is again a stack built from text, with the same indices. |
| Brackets.Scan | src/main.rs:132-148 | What the scan leaves is a prefix of the stack. The body it collects and the code it leaves satisfy `IsLoopSplit` on the pending text. Either the text is body + `]` + rest, where the body's depth never drops below 1 and the `]` brings it to 0, or no `]` closes the loop and the body is the whole text. |
| Brackets.LoopSplitUnique | src/main.rs:132-148 | At most one body and rest satisfy `IsLoopSplit` for a text, so the scan's result is determined by the text alone. |
| Brackets.LoopSplitExists | src/main.rs:132-148 | Every text has a body and rest satisfying `IsLoopSplit`. |
| Brackets.BracketFreeSplit | src/main.rs:132-148 | A body without brackets ends at the first `]`. |
| Interpreter.Step | src/main.rs:119-131 | A command other than `[` always finishes unless it is a `,` with no input left. In that case it fails with the state unchanged. A finished step keeps the tape valid, only consumes input from the front and only appends output. |
| Interpreter.StepEffect | src/main.rs:120-131 | `>` and `<` move the cursor by one and change no cell. `+` and `-` change the cursor cell by one modulo 256 and no other cell. `.` appends the cursor cell to the output. `,` consumes exactly one input byte and stores it in the cursor cell. Whitespace does nothing. |
| Interpreter.Exec | src/main.rs:118-156 | Popping and dispatching the stack keeps the tape valid and only consumes input and appends output. An unexpected character that aborts the run comes from the pending code, is neither a command nor `[`, and is reported at index 0 when the stack is well indexed. |
| Interpreter.Loop | src/main.rs:150-152 | A loop that finishes leaves the cursor on a 0 cell. The loop only consumes input and appends output, and an abort comes from a character of the body, reported at index 0. |
| Interpreter.Interpret | src/main.rs:113-158 | A run keeps the tape valid and only consumes input and appends output. An unexpected-character abort names a character of the code that is neither a command nor `[`, always at index 0. |
| Semantics.InterpretEmpty | src/main.rs:118 | Empty code finishes with the state unchanged. |
| Semantics.InterpretCommand | src/main.rs:118-131 | Code starting with a command runs that command. If it finishes, the rest of the code runs on its result; otherwise the run stops with that failure. |
| Semantics.InterpretBracket | src/main.rs:132-153 | Code starting with `[` runs the loop on the body of the split, then the rest of the code on the loop's result. |
| Semantics.InterpretUnexpected | src/main.rs:155 | Code starting with any other character, a stray `]` included, aborts at once with that character, index 0 and the state untouched. |
| Semantics.SkipLoopOnZero | src/main.rs:150-152 | On a 0 cell a `[` skips its body without looking at it, so an unexpected character inside the body is never reported. |
| Semantics.StraightLineAgrees | src/main.rs:118-131 | On code without brackets or unexpected characters, the stack-based interpreter agrees with the left-to-right fold of `Step`, whatever the fuel. |
| Semantics.StraightLineThen | src/main.rs:118-131 | Straight-line code never runs out of fuel. Running it before more code is running it and then the rest on its result, so effects before a failure stay. |
| Semantics.MovesShiftCursor | src/main.rs:120-121 | Code made of `>` and `<` only moves the cursor by right moves minus left moves. It changes no cell value, input or output. |
| Semantics.LoopIterationDone | src/main.rs:150-152 | When the body of a loop on a nonzero cell finishes, the loop goes on from the body's final state with one unit of fuel less. |
| Semantics.EmptyLoopSpins | src/main.rs:150-152 | `[]` on a nonzero cell never finishes, whatever the fuel. |
| Semantics.DecrementLoop | src/main.rs:150-152 | The loop with body `-` sets the cell to 0 in exactly as many iterations as its value, and runs out of fuel with less. |
| Semantics.ClearLoop | src/main.rs:132-152 | `[-]` sets the cursor cell to 0 and changes nothing else when the fuel covers the cell's value, and runs out of fuel otherwise. |
| Transfers.PlusesRun | src/main.rs:122 | `m` plus signs in a row add `m` modulo 256 to the cursor cell. |
| Transfers.BodyRun | src/main.rs:120-123 | The body `>` + m plus signs + `<-` runs to the state of one iteration of the transfer. |
| Transfers.DrainMoves | src/main.rs:150-152 | Repeating the transfer body until the cell is 0 empties the cell into its right neighbour, multiplied by `m` modulo 256. The cursor, every other cell, the input and the output are unchanged. |
| Transfers.LoopDrains | src/main.rs:150-152 | The interpreter's transfer loop equals the reference `Drain` when the fuel covers the cell's value, and runs out of fuel with less. |
| Transfers.TransferLoop | src/main.rs:150-152 | The transfer loop empties the cursor cell into its right neighbour, multiplied by `m` modulo 256, and changes nothing else when the fuel covers the cell's value. With less fuel it cannot finish. |
| Programs.PrintThree | src/main.rs:122-124 | `+++.` prints the byte 3. |
| Programs.EchoByte | src/main.rs:124-131 | `,.` prints the one input byte and consumes it. |
| Programs.ReadPastEnd | src/main.rs:125-130 | `,` with no input aborts with `InputExhausted` and the fresh state untouched. |
| Programs.StrayClose | src/main.rs:155 | A `]` with no `[` before it aborts as an unexpected character at index 0. |
| Programs.EarlierEffectsKept | src/main.rs:118-155 | In `+@.` the increment has happened when `@` aborts the run, and the `.` after it never runs. |
| Programs.UnmatchedSkipped | src/main.rs:132-152 | In `[@` the unclosed `[` takes `@` as its body and skips it on the 0 cell, so the run finishes. |
| Programs.SpinForever | src/main.rs:150-152 | `+[]` runs out of fuel whatever the fuel. |
| Programs.TwoClearsOneFuel | src/main.rs:132-152 | `+[-]+[-]` on a 0 cell finishes with a single unit of fuel and leaves the state as it was. Fuel bounds each loop's iterations, not the steps of the whole run. |
| Programs.PlusClearThen | src/main.rs:132-152 | On a 0 cell, `+[-]` with one unit of fuel leaves the state unchanged and goes on with the rest of the code. |
| Programs.ClearThen | src/main.rs:132-152 | `[-]` followed by any code runs the loop, then the rest on the loop's result; a loop that does not finish ends the run. |
| Programs.DoubleIntoNeighbour | src/main.rs:113-158 | `++[>++<-]>.` prints 4 with at least two units of fuel, and runs out of fuel with fewer. |

## Left out

- `main` and the command-line parsing (src/main.rs:98-111) are not modelled. `Interpreter.Run` stands for calling `interpret` on a fresh tape.
- Standard input and output are the `input` and `output` sequences of the state. There is no buffering and no interleaving with other output.
- Interpreter.Step: `.` appends the cell's byte value to the output. The source prints the byte as a `char` (src/main.rs:124), so a byte of 128 or more reaches standard output as two UTF-8 bytes; the model does not encode UTF-8.
- Interpreter.Step: a failed read from standard input (src/main.rs:126-130) is merged with end of input into `InputExhausted`, because both end in the same panic.
- Panics are `Fail` outcomes that keep the state reached. The panic message and the process exit are not modelled.
- Tapes.Increment: wraps modulo 256 as a release build does. A debug build panics on `u8` overflow at src/main.rs:70-79, and that panic is not modelled.
- Brackets.Scan: the depth counter is an unbounded integer. The source's `i32` counter (src/main.rs:134) could only overflow after more than 2^31 nested `[`.
- Interpreter.Interpret: the recursion of `interpret` for loop bodies (src/main.rs:151) has no stack limit in the model. Non-termination is replaced by fuel: each iteration costs one unit of the fuel of the loop it belongs to, so `OutOfFuel` only means some loop needed more iterations than its fuel allowed, not that a bound on total steps was reached.
- No lemma states that more fuel never changes a finished result (fuel monotonicity). This is a property of the fuel device, not of the source.
- Memory: the tape grows without bound, and allocation failure is not modelled.
- The depth-2 program `+++[>+++[>+<-]<-]` has no lemma. `Transfers.TransferLoop` covers transfer loops one level deep.
