/**
 Laws of the interpreter, stated on the left-to-right text of the code.

 Together, `InterpretEmpty`, `InterpretCommand`, `InterpretBracket` and
 `InterpretUnexpected` describe `Interpret` completely by the first
 character of the code, with no mention of the reversed stack it is run
 from: this is the reference semantics the stack-based dispatch agrees with.
 For a `[`, the law takes the body and the rest as any split satisfying
 `IsLoopSplit`; `Brackets.LoopSplitExists` shows one always exists and
 `Brackets.LoopSplitUnique` that it is the only one.
 */
module Semantics {
  import opened Tapes
  import opened Brackets
  import opened Interpreter

  /** Nothing to run: the state is returned as it is. */
  lemma InterpretEmpty(fuel: nat, st: State)
    requires Valid(st.tape)
    ensures Interpret(fuel, st, []) == Done(st)
  {
  }

  /** A command runs first, then the rest of the code runs on its result;
      a command that fails aborts the run. */
  lemma {:induction false} InterpretCommand(fuel: nat, st: State, c: char, s: seq<char>)
    requires Valid(st.tape) && IsCommand(c)
    ensures Interpret(fuel, st, [c] + s) ==
      (var r := Step(c, st); if r.Done? then Interpret(fuel, r.st, s) else r)
  {
    StackCons(c, s);
    ExecCommandOnTop(fuel, st, Stack(s), Entry(|s|, c));
  }

  /** Popping a command entry off the stack. */
  lemma ExecCommandOnTop(fuel: nat, st: State, stack: seq<Entry>, e: Entry)
    requires Valid(st.tape) && IsCommand(e.ch)
    ensures Exec(fuel, st, stack + [e]) ==
      (var r := Step(e.ch, st); if r.Done? then Exec(fuel, r.st, stack) else r)
  {
    assert (stack + [e])[..|stack|] == stack;
  }

  /** A `[` runs its loop on the body the scan extracts, then the rest of
      the code runs on the loop's result. */
  lemma {:induction false} InterpretBracket(fuel: nat, st: State, s: seq<char>, body: seq<char>, rest: seq<char>)
    requires Valid(st.tape)
    requires IsLoopSplit(s, 1, body, rest)
    ensures Interpret(fuel, st, ['['] + s) ==
      (var r := Loop(fuel, st, body); if r.Done? then Interpret(fuel, r.st, rest) else r)
  {
    StackCons('[', s);
    ExecBracketOnTop(fuel, st, Stack(s), Entry(|s|, '['));
    var scanned := Scan(Stack(s), 1, []);
    assert scanned.0 == body && scanned.1 == Stack(rest) by {
      StackThenPending(s);
      assert scanned.0[0..] == scanned.0;
      LoopSplitUnique(s, 1, scanned.0, Pending(scanned.1), body, rest);
      PendingThenStack(scanned.1);
    }
  }

  /** Popping a `[` entry off the stack. */
  lemma ExecBracketOnTop(fuel: nat, st: State, stack: seq<Entry>, e: Entry)
    requires Valid(st.tape) && e.ch == '['
    ensures Exec(fuel, st, stack + [e]) ==
      (var sc := Scan(stack, 1, []); var r := Loop(fuel, st, sc.0); if r.Done? then Exec(fuel, r.st, sc.1) else r)
  {
    assert (stack + [e])[..|stack|] == stack;
  }

  /** Any character that is neither a command nor `[` (a `]` that no scan
      consumed included) aborts the run at once, reporting index 0, with
      the state untouched. */
  lemma {:induction false} InterpretUnexpected(fuel: nat, st: State, c: char, s: seq<char>)
    requires Valid(st.tape) && IsUnexpected(c)
    ensures Interpret(fuel, st, [c] + s) == Fail(UnexpectedChar(c, 0), st)
  {
    StackCons(c, s);
    ExecUnexpectedOnTop(fuel, st, Stack(s), Entry(|s|, c));
  }

  /** Popping an unexpected entry off the stack. */
  lemma ExecUnexpectedOnTop(fuel: nat, st: State, stack: seq<Entry>, e: Entry)
    requires Valid(st.tape) && IsUnexpected(e.ch)
    ensures Exec(fuel, st, stack + [e]) == Fail(UnexpectedChar(e.ch, |stack| - e.index), st)
  {
    assert (stack + [e])[..|stack|] == stack;
  }

  /** When the cell under the cursor is 0 at `[`, the body is skipped
      without being looked at: the run goes on with the text after the
      matching `]`, whatever the body holds. */
  lemma {:induction false} SkipLoopOnZero(fuel: nat, st: State, s: seq<char>, body: seq<char>, rest: seq<char>)
    requires Valid(st.tape) && Get(st.tape) == 0
    requires IsLoopSplit(s, 1, body, rest)
    ensures Interpret(fuel, st, ['['] + s) == Interpret(fuel, st, rest)
  {
    InterpretBracket(fuel, st, s, body, rest);
  }

  /** Code made of commands only: no brackets to scan and nothing unexpected. */
  predicate StraightLine(p: seq<char>) {
    forall i :: 0 <= i < |p| ==> IsCommand(p[i])
  }

  /** Reference semantics of straight-line code: the commands applied one
      after the other from the left, stopping at the first that fails. */
  function StraightRun(st: State, p: seq<char>): Outcome
    requires Valid(st.tape) && StraightLine(p)
    decreases |p|
  {
    if |p| == 0 then Done(st)
    else
      var r := Step(p[0], st);
      if r.Done? then StraightRun(r.st, p[1..]) else r
  }

  /** The stack-based interpreter agrees with the reference semantics on
      straight-line code, whatever the fuel. */
  lemma {:induction false} StraightLineAgrees(fuel: nat, st: State, p: seq<char>)
    requires Valid(st.tape) && StraightLine(p)
    ensures Interpret(fuel, st, p) == StraightRun(st, p)
    decreases |p|
  {
    if |p| > 0 {
      assert p == [p[0]] + p[1..];
      InterpretCommand(fuel, st, p[0], p[1..]);
      var r := Step(p[0], st);
      if r.Done? {
        StraightLineAgrees(fuel, r.st, p[1..]);
      }
    }
  }

  /** Straight-line code runs without fuel, and running it before `s` is
      running it and then `s` on its result: the effects of every command
      before a failing one have already taken place. */
  lemma {:induction false} StraightLineThen(fuel: nat, st: State, p: seq<char>, s: seq<char>)
    requires Valid(st.tape) && StraightLine(p)
    ensures !Interpret(fuel, st, p).OutOfFuel?
    ensures Interpret(fuel, st, p + s) ==
      (var r := Interpret(fuel, st, p); if r.Done? then Interpret(fuel, r.st, s) else r)
    decreases |p|
  {
    if |p| == 0 {
      assert p + s == s;
    } else {
      var c := p[0];
      assert p + s == [c] + (p[1..] + s);
      assert p == [c] + p[1..];
      InterpretCommand(fuel, st, c, p[1..] + s);
      InterpretCommand(fuel, st, c, p[1..]);
      var r := Step(c, st);
      if r.Done? {
        StraightLineThen(fuel, r.st, p[1..], s);
      }
    }
  }

  /** Right moves minus left moves. */
  function Displacement(p: seq<char>): int
    decreases |p|
  {
    if |p| == 0 then 0
    else (if p[0] == '>' then 1 else if p[0] == '<' then -1 else 0) + Displacement(p[1..])
  }

  /** Code made of `>` and `<` only moves the cursor by its displacement and
      changes no cell's value, no input and no output. */
  lemma {:induction false} MovesShiftCursor(fuel: nat, st: State, p: seq<char>)
    requires Valid(st.tape)
    requires forall i :: 0 <= i < |p| ==> p[i] == '>' || p[i] == '<'
    ensures Interpret(fuel, st, p).Done?
    ensures Cursor(Interpret(fuel, st, p).st.tape) == Cursor(st.tape) + Displacement(p)
    ensures forall k :: Cell(Interpret(fuel, st, p).st.tape, k) == Cell(st.tape, k)
    ensures Interpret(fuel, st, p).st.input == st.input
    ensures Interpret(fuel, st, p).st.output == st.output
    decreases |p|
  {
    if |p| > 0 {
      assert p == [p[0]] + p[1..];
      InterpretCommand(fuel, st, p[0], p[1..]);
      MovesShiftCursor(fuel, Step(p[0], st).st, p[1..]);
    }
  }

  /** `[-]` clears the cell under the cursor, taking exactly as many loop
      iterations as the cell's value: with less fuel than that it cannot
      finish. */
  lemma {:induction false} ClearLoop(fuel: nat, st: State)
    requires Valid(st.tape)
    ensures fuel >= Get(st.tape) ==> Interpret(fuel, st, "[-]") == Done(st.(tape := Set(st.tape, 0)))
    ensures fuel < Get(st.tape) ==> Interpret(fuel, st, "[-]") == OutOfFuel
  {
    assert "[-]" == ['['] + "-]";
    assert "-]"[..0] == [] && "-]"[..1] == "-";
    assert IsLoopSplit("-]", 1, "-", []) by {
      assert "-"[..0] == [] && "-"[..1] == "-";
      assert "-" + [']'] + [] == "-]";
    }
    InterpretBracket(fuel, st, "-]", "-", []);
    DecrementLoop(fuel, st);
    var r := Loop(fuel, st, "-");
    if r.Done? {
      InterpretEmpty(fuel, r.st);
    }
  }

  /** A loop whose cell is 0 stops at once. */
  lemma LoopOnZero(fuel: nat, st: State, body: seq<char>)
    requires Valid(st.tape) && Get(st.tape) == 0
    ensures Loop(fuel, st, body) == Done(st)
  {
  }

  /** A loop whose cell is not 0 needs fuel for its first iteration. */
  lemma LoopWithoutFuel(st: State, body: seq<char>)
    requires Valid(st.tape) && Get(st.tape) != 0
    ensures Loop(0, st, body) == OutOfFuel
  {
  }

  /** An iteration whose body completes continues the loop from the body's
      final state with one unit of fuel less. */
  lemma LoopIterationDone(fuel: nat, st: State, body: seq<char>, st': State)
    requires Valid(st.tape) && Get(st.tape) != 0 && fuel > 0
    requires Interpret(fuel - 1, st, body) == Done(st')
    ensures Valid(st'.tape)
    ensures Loop(fuel, st, body) == Loop(fuel - 1, st', body)
  {
  }

  /** `[]` on a nonzero cell never finishes: every iteration leaves the
      state as it was, so any amount of fuel runs out. */
  lemma {:induction false} EmptyLoopSpins(fuel: nat, st: State)
    requires Valid(st.tape) && Get(st.tape) != 0
    ensures Loop(fuel, st, []) == OutOfFuel
    decreases fuel
  {
    if fuel == 0 {
      LoopWithoutFuel(st, []);
    } else {
      InterpretEmpty(fuel - 1, st);
      LoopIterationDone(fuel, st, [], st);
      EmptyLoopSpins(fuel - 1, st);
    }
  }

  /** The loop of `[-]`, by induction on the cell value. */
  lemma {:induction false} DecrementLoop(fuel: nat, st: State)
    requires Valid(st.tape)
    ensures fuel >= Get(st.tape) ==> Loop(fuel, st, "-") == Done(st.(tape := Set(st.tape, 0)))
    ensures fuel < Get(st.tape) ==> Loop(fuel, st, "-") == OutOfFuel
    decreases fuel
  {
    if Get(st.tape) == 0 {
      DecrementLoopZero(fuel, st);
    } else if fuel == 0 {
      LoopWithoutFuel(st, "-");
    } else {
      var st' := st.(tape := Decrement(st.tape));
      assert Loop(fuel, st, "-") == Loop(fuel - 1, st', "-") by {
        DecrementBody(fuel - 1, st);
        LoopIterationDone(fuel, st, "-", st');
      }
      assert Get(st'.tape) == Get(st.tape) - 1 by {
        DecrementNonzero(st.tape);
      }
      DecrementLoop(fuel - 1, st');
      assert Set(st'.tape, 0) == Set(st.tape, 0) by {
        ClearAfterDecrement(st.tape);
      }
    }
  }

  lemma DecrementLoopZero(fuel: nat, st: State)
    requires Valid(st.tape) && Get(st.tape) == 0
    ensures Loop(fuel, st, "-") == Done(st.(tape := Set(st.tape, 0)))
  {
    LoopOnZero(fuel, st, "-");
    SetOwnValue(st.tape);
  }

  /** The body `-` on its own. */
  lemma DecrementBody(fuel: nat, st: State)
    requires Valid(st.tape)
    ensures Interpret(fuel, st, "-") == Done(st.(tape := Decrement(st.tape)))
  {
    assert "-" == ['-'] + [];
    InterpretCommand(fuel, st, '-', []);
    InterpretEmpty(fuel, st.(tape := Decrement(st.tape)));
  }

  /** Decrementing a nonzero cell does not wrap. */
  lemma DecrementNonzero(t: Tape)
    requires Valid(t) && Get(t) != 0
    ensures Get(Decrement(t)) == Get(t) - 1
  {
    assert Cell(Decrement(t), Cursor(t)) == (Get(t) + 255) % 256;
  }

  /** Clearing a cell does not depend on a decrement just before. */
  lemma ClearAfterDecrement(t: Tape)
    requires Valid(t)
    ensures Set(Decrement(t), 0) == Set(t, 0)
  {
    SetOwnValue(t);
    DecrementAfterSet(t, Get(t));
    SetTwice(t, (Get(t) + 255) % 256, 0);
  }
}
