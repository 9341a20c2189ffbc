/**
 Whole programs run from a fresh tape, worked out from the laws of the
 interpreter. Each one pins down one rule of the dispatch.
 */
module Programs {
  import opened Tapes
  import opened Brackets
  import opened Interpreter
  import opened Semantics
  import opened Transfers

  /** The state a run starts from. */
  function Start(input: seq<Byte>): (st: State)
    ensures Valid(st.tape) && Get(st.tape) == 0
    ensures st.input == input && st.output == []
  {
    State(New(), input, [])
  }

  /** `+++.` prints the byte 3. */
  lemma PrintThree(fuel: nat)
    ensures Run(fuel, "+++.", []).Done?
    ensures Run(fuel, "+++.", []).st.output == [3]
  {
    var st := Start([]);
    var st3 := st.(tape := Increment(Increment(Increment(st.tape))));
    assert Run(fuel, "+++.", []) == Interpret(fuel, st, "+++" + ['.']) by {
      assert "+++." == "+++" + ['.'];
    }
    ThreePlusThen(fuel, st, ['.']);
    PrintLast(fuel, st3);
    ThreeFresh();
  }

  /** A fresh tape incremented three times reads 3. */
  lemma ThreeFresh()
    ensures Get(Increment(Increment(Increment(New())))) == 3
  {
    IncrementFresh();
    var t1 := Increment(New());
    assert Cell(Increment(t1), 0) == 2;
  }

  /** `+++` followed by anything adds 3 and goes on with the rest. */
  lemma ThreePlusThen(fuel: nat, st: State, rest: seq<char>)
    requires Valid(st.tape)
    ensures Interpret(fuel, st, "+++" + rest) ==
      Interpret(fuel, st.(tape := Increment(Increment(Increment(st.tape)))), rest)
  {
    assert "+++" + rest == ['+'] + ("++" + rest);
    InterpretCommand(fuel, st, '+', "++" + rest);
    TwoPlusThen(fuel, st.(tape := Increment(st.tape)), rest);
  }

  /** A lone `.` appends the cell to the output. */
  lemma PrintLast(fuel: nat, st: State)
    requires Valid(st.tape)
    ensures Interpret(fuel, st, ['.']) == Done(st.(output := st.output + [Get(st.tape)]))
  {
    assert ['.'] == ['.'] + [];
    PrintThen(fuel, st, []);
    InterpretEmpty(fuel, st.(output := st.output + [Get(st.tape)]));
  }

  /** `.` followed by anything appends the cell to the output and goes on
      with the rest. */
  lemma PrintThen(fuel: nat, st: State, rest: seq<char>)
    requires Valid(st.tape)
    ensures Interpret(fuel, st, ['.'] + rest) ==
      Interpret(fuel, st.(output := st.output + [Get(st.tape)]), rest)
  {
    InterpretCommand(fuel, st, '.', rest);
    assert Step('.', st) == Done(st.(output := st.output + [Get(st.tape)]));
  }

  /** `,.` echoes one input byte and consumes it. */
  lemma EchoByte(fuel: nat, b: Byte)
    ensures Run(fuel, ",.", [b]).Done?
    ensures Run(fuel, ",.", [b]).st.output == [b]
    ensures Run(fuel, ",.", [b]).st.input == []
  {
    ReadThenPrint(fuel, Start([b]));
  }

  /** `,.` from any state with input left: the first input byte is
      consumed and printed. */
  lemma ReadThenPrint(fuel: nat, st: State)
    requires Valid(st.tape) && |st.input| > 0
    ensures Interpret(fuel, st, ",.").Done?
    ensures Interpret(fuel, st, ",.").st.output == st.output + [st.input[0]]
    ensures Interpret(fuel, st, ",.").st.input == st.input[1..]
  {
    var st1 := st.(tape := Set(st.tape, st.input[0]), input := st.input[1..]);
    assert ",." == [','] + ".";
    InterpretCommand(fuel, st, ',', ".");
    assert "." == ['.'] + [];
    PrintThen(fuel, st1, []);
    InterpretEmpty(fuel, st1.(output := st1.output + [Get(st1.tape)]));
    SetThenGet(st.tape, st.input[0]);
  }

  /** `,` with no input aborts with nothing changed. */
  lemma ReadPastEnd(fuel: nat)
    ensures Run(fuel, ",", []) == Fail(InputExhausted, Start([]))
  {
    StraightLineAgrees(fuel, Start([]), ",");
  }

  /** A `]` with no `[` before it is an unexpected character, reported at
      index 0. */
  lemma StrayClose(fuel: nat)
    ensures Run(fuel, "]", []) == Fail(UnexpectedChar(']', 0), Start([]))
  {
    assert "]" == [']'] + [];
    InterpretUnexpected(fuel, Start([]), ']', []);
  }

  /** In `+@.` the increment has taken effect when `@` aborts the run, and
      the `.` after it never runs. */
  lemma EarlierEffectsKept(fuel: nat)
    ensures Run(fuel, "+@.", []).Fail?
    ensures Run(fuel, "+@.", []).err == UnexpectedChar('@', 0)
    ensures Valid(Run(fuel, "+@.", []).st.tape)
    ensures Get(Run(fuel, "+@.", []).st.tape) == 1
    ensures Run(fuel, "+@.", []).st.output == []
  {
    PlusThenAt(fuel, Start([]));
    IncrementFresh();
  }

  /** A fresh tape incremented once reads 1. */
  lemma IncrementFresh()
    ensures Get(Increment(New())) == 1
  {
    assert Cell(Increment(New()), 0) == (Cell(New(), 0) + 1) % 256;
  }

  /** `+@.` from any state: the increment is done, then `@` aborts. */
  lemma PlusThenAt(fuel: nat, st: State)
    requires Valid(st.tape)
    ensures Interpret(fuel, st, "+@.") == Fail(UnexpectedChar('@', 0), st.(tape := Increment(st.tape)))
  {
    var st1 := st.(tape := Increment(st.tape));
    assert "+@." == ['+'] + "@.";
    InterpretCommand(fuel, st, '+', "@.");
    assert "@." == ['@'] + ".";
    InterpretUnexpected(fuel, st1, '@', ".");
  }

  /** In `[@` the `[` is never closed, so the whole remainder is the body;
      the cell is 0, so the body is skipped and its `@` never looked at. */
  lemma UnmatchedSkipped(fuel: nat)
    ensures Run(fuel, "[@", []) == Done(Start([]))
  {
    var st := Start([]);
    assert "[@" == ['['] + "@";
    assert IsLoopSplit("@", 1, "@", []) by {
      assert "@"[..0] == [] && "@"[..1] == "@";
    }
    SkipLoopOnZero(fuel, st, "@", "@", []);
    InterpretEmpty(fuel, st);
  }

  /** `+[]` never finishes, whatever the fuel. */
  lemma SpinForever(fuel: nat)
    ensures Run(fuel, "+[]", []) == OutOfFuel
  {
    IncrementFresh();
    PlusThenSpin(fuel, Start([]));
  }

  /** `+[]` from any state whose cell becomes nonzero. */
  lemma PlusThenSpin(fuel: nat, st: State)
    requires Valid(st.tape) && Get(Increment(st.tape)) != 0
    ensures Interpret(fuel, st, "+[]") == OutOfFuel
  {
    assert "+[]" == ['+'] + "[]";
    InterpretCommand(fuel, st, '+', "[]");
    SpinOnNonzero(fuel, st.(tape := Increment(st.tape)));
  }

  /** `[]` on a nonzero cell, as a program. */
  lemma SpinOnNonzero(fuel: nat, st: State)
    requires Valid(st.tape) && Get(st.tape) != 0
    ensures Interpret(fuel, st, "[]") == OutOfFuel
  {
    assert "[]" == ['['] + "]";
    var none: seq<char> := [];
    assert IsLoopSplit("]", 1, none, none) by {
      assert none[..0] == none && "]" == none + [']'] + none;
    }
    InterpretBracket(fuel, st, "]", none, none);
    EmptyLoopSpins(fuel, st);
  }

  /** Fuel bounds the iterations of each loop, not the steps of a run:
      `+[-]+[-]` holds two loops of one iteration each, and a single unit
      of fuel lets both finish, leaving the state as it was. */
  lemma TwoClearsOneFuel(st: State)
    requires Valid(st.tape) && Get(st.tape) == 0
    ensures Interpret(1, st, "+[-]+[-]") == Done(st)
  {
    assert "+[-]+[-]" == "+[-]" + "+[-]";
    PlusClearThen(st, "+[-]");
    assert "+[-]" == "+[-]" + [];
    PlusClearThen(st, []);
    InterpretEmpty(1, st);
  }

  /** On a 0 cell, `+[-]` with one unit of fuel sets the cell to 1 and
      clears it again in one iteration, then goes on with the rest. */
  lemma PlusClearThen(st: State, rest: seq<char>)
    requires Valid(st.tape) && Get(st.tape) == 0
    ensures Interpret(1, st, "+[-]" + rest) == Interpret(1, st, rest)
  {
    var st1 := st.(tape := Increment(st.tape));
    assert "+[-]" + rest == ['+'] + ("[-]" + rest);
    InterpretCommand(1, st, '+', "[-]" + rest);
    ClearThen(1, st1, rest);
    IncrementThenClear(st.tape);
    DecrementLoop(1, st1);
    assert Loop(1, st1, "-") == Done(st);
  }

  /** Incrementing a 0 cell gives 1, and clearing it again restores the
      tape. */
  lemma IncrementThenClear(t: Tape)
    requires Valid(t) && Get(t) == 0
    ensures Get(Increment(t)) == 1
    ensures Set(Increment(t), 0) == t
  {
    Extensionality(Set(Increment(t), 0), t);
  }

  /** `[-]` followed by anything: the loop, then the rest on its result. */
  lemma ClearThen(fuel: nat, st: State, rest: seq<char>)
    requires Valid(st.tape)
    ensures Interpret(fuel, st, "[-]" + rest) ==
      (var r := Loop(fuel, st, "-");
       if r.Done? then Interpret(fuel, r.st, rest) else r)
  {
    assert BracketFree("-");
    BracketFreeSplit("-", rest);
    assert "[-]" + rest == ['['] + ("-" + [']'] + rest);
    InterpretBracket(fuel, st, "-" + [']'] + rest, "-", rest);
  }

  /** `++[>++<-]>.` doubles the 2 in the origin cell into its right
      neighbour, in two loop iterations, and prints it: the output is 4.
      With fewer than two units of fuel the loop cannot finish. */
  lemma DoubleIntoNeighbour(fuel: nat)
    ensures fuel >= 2 ==> Run(fuel, "++[>++<-]>.", []).Done?
    ensures fuel >= 2 ==> Run(fuel, "++[>++<-]>.", []).st.output == [4]
    ensures fuel < 2 ==> Run(fuel, "++[>++<-]>.", []) == OutOfFuel
  {
    DoublerText();
    assert Cell(Start([]).tape, 1) == 0;
    DoubleFrom(fuel, Start([]));
  }

  /** `++[>++<-]>.` built from its parts. */
  function Doubler(): seq<char> {
    "++" + (['['] + TransferBody(2) + [']'] + ">.")
  }

  /** The parts spell `++[>++<-]>.`. */
  lemma DoublerText()
    ensures Doubler() == "++[>++<-]>."
  {
    assert TransferBody(2) == ">++<-" by {
      assert Pluses(2) == "++";
    }
  }

  /** `++[>++<-]>.` from a 0 cell whose right neighbour is 0. */
  lemma DoubleFrom(fuel: nat, st: State)
    requires Valid(st.tape) && Get(st.tape) == 0 && Cell(st.tape, Cursor(st.tape) + 1) == 0
    ensures fuel >= 2 ==> Interpret(fuel, st, Doubler()).Done?
    ensures fuel >= 2 ==> Interpret(fuel, st, Doubler()).st.output == st.output + [4]
    ensures fuel < 2 ==> Interpret(fuel, st, Doubler()) == OutOfFuel
  {
    DoublerSplits(fuel, st);
    DoubleOutcome(fuel, st);
  }

  /** What the transfer loop and `>.` yield after the two increments. */
  lemma DoubleOutcome(fuel: nat, st: State)
    requires Valid(st.tape) && Get(st.tape) == 0 && Cell(st.tape, Cursor(st.tape) + 1) == 0
    ensures var r := Loop(fuel, st.(tape := Increment(Increment(st.tape))), TransferBody(2));
      var o := if r.Done? then Interpret(fuel, r.st, ">.") else r;
      && (fuel >= 2 ==> o.Done? && o.st.output == st.output + [4])
      && (fuel < 2 ==> o == OutOfFuel)
  {
    if fuel >= 2 {
      DoubleEnoughFuel(fuel, st);
    } else {
      TwoMore(st.tape);
      TransferLoop(fuel, st.(tape := Increment(Increment(st.tape))), 2);
    }
  }

  /** With two units of fuel or more the loop finishes and `>.` prints 4. */
  lemma DoubleEnoughFuel(fuel: nat, st: State)
    requires Valid(st.tape) && Get(st.tape) == 0 && Cell(st.tape, Cursor(st.tape) + 1) == 0
    requires fuel >= 2
    ensures var r := Loop(fuel, st.(tape := Increment(Increment(st.tape))), TransferBody(2));
      r.Done? && Interpret(fuel, r.st, ">.").Done? && Interpret(fuel, r.st, ">.").st.output == st.output + [4]
  {
    var st2 := st.(tape := Increment(Increment(st.tape)));
    var r := Loop(fuel, st2, TransferBody(2));
    assert r.Done? && Valid(r.st.tape) && Cell(r.st.tape, Cursor(r.st.tape) + 1) == 4
      && r.st.output == st.output by {
      TwoMore(st.tape);
      TransferLoop(fuel, st2, 2);
      DoubledNeighbour(st, st2, r.st);
    }
    RightThenPrint(fuel, r.st);
  }

  /** The program is its two increments, the transfer loop, then `>.`. */
  lemma DoublerSplits(fuel: nat, st: State)
    requires Valid(st.tape)
    ensures Interpret(fuel, st, Doubler()) ==
      (var r := Loop(fuel, st.(tape := Increment(Increment(st.tape))), TransferBody(2));
       if r.Done? then Interpret(fuel, r.st, ">.") else r)
  {
    TwoPlusThen(fuel, st, ['['] + TransferBody(2) + [']'] + ">.");
    TransferThen(fuel, st.(tape := Increment(Increment(st.tape))), 2, ">.");
  }

  /** After the loop the right neighbour holds 2 * 2. */
  lemma DoubledNeighbour(st: State, st2: State, r: State)
    requires Valid(st.tape) && Cell(st.tape, Cursor(st.tape) + 1) == 0
    requires Valid(st2.tape) && Cursor(st2.tape) == Cursor(st.tape) && Get(st2.tape) == 2
    requires Cell(st2.tape, Cursor(st.tape) + 1) == 0
    requires Moved(st2, r, 2)
    ensures Valid(r.tape) && Cell(r.tape, Cursor(r.tape) + 1) == 4 && r.output == st2.output
  {
  }

  /** Two increments of a 0 cell: 2 under the cursor, the rest unchanged. */
  lemma TwoMore(t: Tape)
    requires Valid(t) && Get(t) == 0
    ensures Valid(Increment(Increment(t)))
    ensures Cursor(Increment(Increment(t))) == Cursor(t)
    ensures Get(Increment(Increment(t))) == 2
    ensures forall k :: k != Cursor(t) ==> Cell(Increment(Increment(t)), k) == Cell(t, k)
  {
    var t1 := Increment(t);
    assert Cell(t1, Cursor(t)) == 1;
  }

  /** `++` followed by anything adds 2 and goes on with the rest. */
  lemma TwoPlusThen(fuel: nat, st: State, rest: seq<char>)
    requires Valid(st.tape)
    ensures Interpret(fuel, st, "++" + rest) ==
      Interpret(fuel, st.(tape := Increment(Increment(st.tape))), rest)
  {
    var st1 := st.(tape := Increment(st.tape));
    assert "++" + rest == ['+'] + (['+'] + rest);
    InterpretCommand(fuel, st, '+', ['+'] + rest);
    InterpretCommand(fuel, st1, '+', rest);
  }

  /** A transfer loop followed by anything: the loop, then the rest on its
      result. */
  lemma TransferThen(fuel: nat, st: State, m: nat, rest: seq<char>)
    requires Valid(st.tape)
    ensures Interpret(fuel, st, ['['] + TransferBody(m) + [']'] + rest) ==
      (var r := Loop(fuel, st, TransferBody(m));
       if r.Done? then Interpret(fuel, r.st, rest) else r)
  {
    var body := TransferBody(m);
    assert BracketFree(body);
    BracketFreeSplit(body, rest);
    assert ['['] + body + [']'] + rest == ['['] + (body + [']'] + rest);
    InterpretBracket(fuel, st, body + [']'] + rest, body, rest);
  }

  /** `>.` prints the right neighbour of the cursor cell. */
  lemma RightThenPrint(fuel: nat, st: State)
    requires Valid(st.tape)
    ensures Interpret(fuel, st, ">.").Done?
    ensures Interpret(fuel, st, ">.").st.output == st.output + [Cell(st.tape, Cursor(st.tape) + 1)]
  {
    var st1 := st.(tape := StepRight(st.tape));
    assert Interpret(fuel, st, ">.") == Interpret(fuel, st1, ['.']) by {
      assert ">." == ['>'] + ['.'];
      InterpretCommand(fuel, st, '>', ['.']);
    }
    PrintLast(fuel, st1);
  }
}
