/**
 The interpreter: walks the code left to right by popping a stack of
 (index, character) entries, dispatches each character to a tape operation,
 and runs each `[`...`]` body again and again while the cell under the
 cursor is nonzero, by interpreting the body's text recursively.

 Programs need not terminate (`+[]`), so every run carries fuel: each
 iteration of a loop costs one unit of the fuel of the loop it belongs to,
 and a loop that would need more iterations reports `OutOfFuel`. Fuel is not
 a bound on the total number of steps: a later loop at the same level starts
 again with the full fuel. Standard input and output are the
 `input` and `output` sequences of the state.
 */
module Interpreter {
  import opened Tapes
  import opened Brackets

  /** The whole machine: the tape, the input not yet read, and the bytes
      written so far. */
  datatype State = State(tape: Tape, input: seq<Byte>, output: seq<Byte>)

  /** The two ways a run aborts: a character that is not an instruction
      (with the index the interpreter reports for it), or a `,` with no
      input byte left. */
  datatype Error = UnexpectedChar(ch: char, index: int) | InputExhausted

  /** The result of a run. An aborted run keeps the state it reached, since
      the instructions before the failing one have already taken effect. */
  datatype Outcome = Done(st: State) | Fail(err: Error, st: State) | OutOfFuel

  predicate IsWhitespace(c: char) {
    c == '\n' || c == '\t' || c == '\r' || c == ' '
  }

  /** The characters handled without a bracket scan. */
  predicate IsCommand(c: char) {
    c == '>' || c == '<' || c == '+' || c == '-' || c == '.' || c == ',' || IsWhitespace(c)
  }

  /** The characters that abort the run when popped: anything that is not a
      command or `[`, a stray `]` included. */
  predicate IsUnexpected(c: char) {
    !IsCommand(c) && c != '['
  }

  /** Input is only ever consumed from the front and output only ever
      appended to. */
  predicate Follows(before: State, after: State) {
    && before.output <= after.output
    && |after.input| <= |before.input|
    && after.input == before.input[|before.input| - |after.input|..]
  }

  /** `Follows` is transitive: a run that goes on from a state reached
      from `st` has still only consumed input and appended output. */
  lemma FollowsThen(st: State, mid: State, r: Outcome)
    requires Follows(st, mid)
    requires r.Done? || r.Fail? ==> Follows(mid, r.st)
    ensures r.Done? || r.Fail? ==> Follows(st, r.st)
  {
    if r.Done? || r.Fail? {
      var k := |st.input| - |mid.input|;
      assert r.st.input == st.input[k + |mid.input| - |r.st.input|..];
    }
  }

  /** One command other than `[`: only a `,` with no input left fails, and
      then nothing has changed. What each command does to the tape and the
      streams is stated by `StepEffect`. */
  function Step(c: char, st: State): (r: Outcome)
    requires IsCommand(c) && Valid(st.tape)
    ensures r.Done? || r.Fail?
    ensures r.Fail? <==> c == ',' && |st.input| == 0
    ensures r.Fail? ==> r == Fail(InputExhausted, st)
    ensures r.Done? ==> Valid(r.st.tape) && Follows(st, r.st)
  {
    match c
    case '>' => Done(st.(tape := StepRight(st.tape)))
    case '<' => Done(st.(tape := StepLeft(st.tape)))
    case '+' => Done(st.(tape := Increment(st.tape)))
    case '-' => Done(st.(tape := Decrement(st.tape)))
    case '.' => Done(st.(output := st.output + [Get(st.tape)]))
    case ',' =>
      if |st.input| == 0 then Fail(InputExhausted, st)
      else Done(st.(tape := Set(st.tape, st.input[0]), input := st.input[1..]))
    case _ => Done(st)
  }

  /** The effect of each command, stated against the abstract tape: `>` and
      `<` move the cursor by one and change no cell; `+` and `-` change the
      cursor cell by one modulo 256 and nothing else; `.` appends the cursor
      cell to the output; `,` consumes exactly one input byte and stores it
      in the cursor cell; whitespace does nothing. */
  lemma StepEffect(c: char, st: State)
    requires IsCommand(c) && Valid(st.tape)
    ensures var r := Step(c, st);
      && (c == '>' ==> Cursor(r.st.tape) == Cursor(st.tape) + 1)
      && (c == '<' ==> Cursor(r.st.tape) == Cursor(st.tape) - 1)
      && (c == '>' || c == '<' ==> forall k :: Cell(r.st.tape, k) == Cell(st.tape, k))
      && (c != '>' && c != '<' ==> r.st.tape.position == st.tape.position)
      && (c == '+' ==> forall k :: Cell(r.st.tape, k) == (if k == Cursor(st.tape) then (Cell(st.tape, k) + 1) % 256 else Cell(st.tape, k)))
      && (c == '-' ==> forall k :: Cell(r.st.tape, k) == (if k == Cursor(st.tape) then (Cell(st.tape, k) + 255) % 256 else Cell(st.tape, k)))
      && (c == '.' ==> r.st.output == st.output + [Get(st.tape)] && r.st.tape == st.tape)
      && (c != '.' ==> r.st.output == st.output)
      && (c == ',' && r.Done? ==> r.st.input == st.input[1..])
      && (c == ',' && r.Done? ==> forall k :: Cell(r.st.tape, k) == (if k == Cursor(st.tape) then st.input[0] else Cell(st.tape, k)))
      && (c != ',' ==> r.st.input == st.input)
      && (IsWhitespace(c) ==> r == Done(st))
  {
  }

  /** `interpret`: runs `code` against the state. */
  function Interpret(fuel: nat, st: State, code: seq<char>): (r: Outcome)
    requires Valid(st.tape)
    ensures r.Done? ==> Valid(r.st.tape)
    ensures r.Done? || r.Fail? ==> Follows(st, r.st)
    ensures r.Fail? && r.err.UnexpectedChar? ==> IsUnexpected(r.err.ch) && r.err.ch in code
    ensures r.Fail? && r.err.UnexpectedChar? ==> r.err.index == 0
    decreases fuel, 2, 0
  {
    StackThenPending(code);
    Exec(fuel, st, Stack(code))
  }

  /** The dispatch loop of `interpret` on the stack that is left: pops the
      next entry and dispatches on its character. The index an unexpected
      character is reported at is the stack length after the pop minus the
      entry's index. */
  function Exec(fuel: nat, st: State, stack: seq<Entry>): (r: Outcome)
    requires Valid(st.tape)
    ensures r.Done? ==> Valid(r.st.tape)
    ensures r.Done? || r.Fail? ==> Follows(st, r.st)
    ensures r.Fail? && r.err.UnexpectedChar? ==> IsUnexpected(r.err.ch) && r.err.ch in Pending(stack)
    ensures r.Fail? && r.err.UnexpectedChar? && WellIndexed(stack) ==> r.err.index == 0
    decreases fuel, 1, |stack|
  {
    if |stack| == 0 then Done(st)
    else
      var e := stack[|stack| - 1];
      var rest := stack[..|stack| - 1];
      PopTop(stack);
      if e.ch == '[' then
        var (body, after) := Scan(rest, 1, []);
        ScanWithin(rest);
        var r := Loop(fuel, st, body);
        if r.Done? then
          var r' := Exec(fuel, r.st, after);
          FollowsThen(st, r.st, r');
          r'
        else r
      else if IsCommand(e.ch) then
        var r := Step(e.ch, st);
        if r.Done? then
          var r' := Exec(fuel, r.st, rest);
          FollowsThen(st, r.st, r');
          r'
        else r
      else
        Fail(UnexpectedChar(e.ch, |rest| - e.index), st)
  }

  /** Runs the body again while the cell under the cursor is nonzero; a
      run that stops normally leaves the cursor on a 0 cell. */
  function Loop(fuel: nat, st: State, body: seq<char>): (r: Outcome)
    requires Valid(st.tape)
    ensures r.Done? ==> Valid(r.st.tape) && Get(r.st.tape) == 0
    ensures r.Done? || r.Fail? ==> Follows(st, r.st)
    ensures r.Fail? && r.err.UnexpectedChar? ==> IsUnexpected(r.err.ch) && r.err.ch in body
    ensures r.Fail? && r.err.UnexpectedChar? ==> r.err.index == 0
    decreases fuel, 0, 0
  {
    if Get(st.tape) == 0 then Done(st)
    else if fuel == 0 then OutOfFuel
    else
      var r := Interpret(fuel - 1, st, body);
      if r.Done? then Loop(fuel - 1, r.st, body) else r
  }

  /** A program run from scratch: a fresh tape, the given input, no output. */
  function Run(fuel: nat, code: seq<char>, input: seq<Byte>): Outcome {
    Interpret(fuel, State(New(), input, []), code)
  }
}
