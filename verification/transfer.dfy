/**
 The transfer loop `[>` `+`...`+` `<-]`: each iteration takes one from the
 cell under the cursor and adds `m` to its right neighbour, so the loop
 empties the cell into the neighbour, multiplied by `m`, modulo 256.
 */
module Transfers {
  import opened Tapes
  import opened Brackets
  import opened Interpreter
  import opened Semantics

  /** `m` plus signs. */
  function Pluses(m: nat): (p: seq<char>)
    ensures |p| == m
    ensures forall i :: 0 <= i < |p| ==> p[i] == '+'
  {
    if m == 0 then [] else Pluses(m - 1) + ['+']
  }

  /** The body of the transfer loop. */
  function TransferBody(m: nat): seq<char> {
    ['>'] + Pluses(m) + ['<', '-']
  }

  /** The state after one run of the body. */
  function TransferOnce(st: State, m: nat): State
    requires Valid(st.tape)
  {
    st.(tape := Decrement(StepLeft(IncrementTimes(StepRight(st.tape), m))))
  }

  /** `st'` is `st` with the cursor cell emptied into its right neighbour,
      multiplied by `m`, and nothing else changed. */
  ghost predicate Moved(st: State, st': State, m: nat) {
    var c := Cursor(st.tape);
    && Valid(st'.tape)
    && Cursor(st'.tape) == c
    && Cell(st'.tape, c) == 0
    && Cell(st'.tape, c + 1) == (Cell(st.tape, c + 1) + m * Cell(st.tape, c)) % 256
    && (forall k :: k != c && k != c + 1 ==> Cell(st'.tape, k) == Cell(st.tape, k))
    && st'.input == st.input && st'.output == st.output
  }

  /** `m` plus signs add `m` to the cursor cell. */
  lemma {:induction false} PlusesRun(fuel: nat, st: State, m: nat)
    requires Valid(st.tape)
    ensures Interpret(fuel, st, Pluses(m)) == Done(st.(tape := IncrementTimes(st.tape, m)))
    decreases m
  {
    if m == 0 {
      InterpretEmpty(fuel, st);
    } else {
      var st1 := st.(tape := IncrementTimes(st.tape, m - 1));
      assert Interpret(fuel, st, Pluses(m)) == Interpret(fuel, st1, "+") by {
        assert Pluses(m) == Pluses(m - 1) + "+";
        StraightLineThen(fuel, st, Pluses(m - 1), "+");
        PlusesRun(fuel, st, m - 1);
      }
      assert Interpret(fuel, st1, "+") == Done(st1.(tape := Increment(st1.tape))) by {
        assert "+" == ['+'] + [];
        InterpretCommand(fuel, st1, '+', []);
        InterpretEmpty(fuel, st1.(tape := Increment(st1.tape)));
      }
      assert Increment(st1.tape) == IncrementTimes(st.tape, m);
    }
  }

  /** The body runs to the state `TransferOnce` describes. */
  lemma BodyRun(fuel: nat, st: State, m: nat)
    requires Valid(st.tape)
    ensures Interpret(fuel, st, TransferBody(m)) == Done(TransferOnce(st, m))
  {
    var s1 := st.(tape := StepRight(st.tape));
    var s2 := s1.(tape := IncrementTimes(s1.tape, m));
    assert Interpret(fuel, st, TransferBody(m)) == Interpret(fuel, s1, Pluses(m) + "<-") by {
      assert TransferBody(m) == ['>'] + (Pluses(m) + "<-");
      InterpretCommand(fuel, st, '>', Pluses(m) + "<-");
    }
    assert Interpret(fuel, s1, Pluses(m) + "<-") == Interpret(fuel, s2, "<-") by {
      StraightLineThen(fuel, s1, Pluses(m), "<-");
      PlusesRun(fuel, s1, m);
    }
    LeftThenDecrement(fuel, s2);
  }

  /** The tail `<-` of the body. */
  lemma LeftThenDecrement(fuel: nat, st: State)
    requires Valid(st.tape)
    ensures Interpret(fuel, st, "<-") == Done(st.(tape := Decrement(StepLeft(st.tape))))
  {
    var s1 := st.(tape := StepLeft(st.tape));
    assert "<-" == ['<'] + "-";
    InterpretCommand(fuel, st, '<', "-");
    DecrementBody(fuel, s1);
  }

  /** One run of the body, cell by cell. */
  lemma TransferOnceCells(st: State, m: nat)
    requires Valid(st.tape)
    ensures var c := Cursor(st.tape); var u := TransferOnce(st, m).tape;
      && Valid(u)
      && Cursor(u) == c
      && Cell(u, c) == (Cell(st.tape, c) + 255) % 256
      && Cell(u, c + 1) == (Cell(st.tape, c + 1) + m) % 256
      && (forall k :: k != c && k != c + 1 ==> Cell(u, k) == Cell(st.tape, k))
    ensures TransferOnce(st, m).input == st.input && TransferOnce(st, m).output == st.output
  {
    var t3 := StepLeft(IncrementTimes(StepRight(st.tape), m));
    AddToNeighbour(st.tape, m);
    assert Cursor(Decrement(t3)) == Cursor(t3);
  }

  /** `>`, `m` increments and `<`: the cursor is back where it was and the
      right neighbour has grown by `m` modulo 256. */
  lemma AddToNeighbour(t: Tape, m: nat)
    requires Valid(t)
    ensures var c := Cursor(t); var u := StepLeft(IncrementTimes(StepRight(t), m));
      && Valid(u)
      && Cursor(u) == c
      && (forall k :: Cell(u, k) == if k == c + 1 then (Cell(t, c + 1) + m) % 256 else Cell(t, k))
  {
    var c := Cursor(t);
    var t1 := StepRight(t);
    var t2 := IncrementTimes(t1, m);
    assert Cursor(t1) == c + 1 && Get(t1) == Cell(t, c + 1);
    assert forall k :: Cell(t2, k) == (if k == c + 1 then (Get(t1) + m) % 256 else Cell(t, k));
  }

  /** The modular arithmetic of one more iteration. */
  lemma AddOneMore(b: int, m: nat, a: nat)
    requires a > 0
    ensures ((b + m) % 256 + m * (a - 1)) % 256 == (b + m * a) % 256
  {
    var y := m * (a - 1);
    assert y + m == m * a;
    ModAddLeft(b + m, y);
  }

  /** Reducing the left summand modulo 256 first does not change the sum
      modulo 256. */
  lemma ModAddLeft(x: int, y: int)
    ensures (x % 256 + y) % 256 == (x + y) % 256
  {
    var q := x / 256;
    assert x == 256 * q + x % 256;
  }

  /** An iteration followed by the rest of the loop is the whole loop:
      `st'` is `st` after one iteration, cell by cell. */
  lemma MovedAfterOnce(st: State, st': State, r: State, m: nat)
    requires Valid(st.tape) && Get(st.tape) > 0
    requires Valid(st'.tape) && Cursor(st'.tape) == Cursor(st.tape)
    requires Cell(st'.tape, Cursor(st.tape)) == Get(st.tape) - 1
    requires Cell(st'.tape, Cursor(st.tape) + 1) == (Cell(st.tape, Cursor(st.tape) + 1) + m) % 256
    requires forall k :: k != Cursor(st.tape) && k != Cursor(st.tape) + 1 ==> Cell(st'.tape, k) == Cell(st.tape, k)
    requires st'.input == st.input && st'.output == st.output
    requires Moved(st', r, m)
    ensures Moved(st, r, m)
  {
    AddOneMore(Cell(st.tape, Cursor(st.tape) + 1), m, Get(st.tape));
  }

  /** `MovedAfterOnce` for the iteration the body performs. */
  lemma MovedThroughOnce(st: State, r: State, m: nat)
    requires Valid(st.tape) && Get(st.tape) > 0
    requires Moved(TransferOnce(st, m), r, m)
    ensures Moved(st, r, m)
  {
    var st' := TransferOnce(st, m);
    var c := Cursor(st.tape);
    TransferOnceCells(st, m);
    assert Cell(st'.tape, c) == Get(st.tape) - 1;
    MovedAfterOnce(st, st', r, m);
  }

  /** Reference definition of the whole loop: the body repeated until the
      cursor cell is 0. */
  function Drain(st: State, m: nat): (r: State)
    requires Valid(st.tape)
    ensures Valid(r.tape)
    decreases Get(st.tape)
  {
    if Get(st.tape) == 0 then
      st
    else
      OnceCountsDown(st, m);
      Drain(TransferOnce(st, m), m)
  }

  /** One run of the body takes one from a nonzero cursor cell. */
  lemma OnceCountsDown(st: State, m: nat)
    requires Valid(st.tape) && Get(st.tape) > 0
    ensures Valid(TransferOnce(st, m).tape)
    ensures Get(TransferOnce(st, m).tape) == Get(st.tape) - 1
  {
    TransferOnceCells(st, m);
  }

  /** `Drain` empties the cursor cell into its right neighbour, multiplied
      by `m`, and changes nothing else. */
  lemma {:induction false} DrainMoves(st: State, m: nat)
    requires Valid(st.tape)
    ensures Moved(st, Drain(st, m), m)
    decreases Get(st.tape)
  {
    if Get(st.tape) > 0 {
      OnceCountsDown(st, m);
      DrainMoves(TransferOnce(st, m), m);
      MovedThroughOnce(st, Drain(st, m), m);
    }
  }

  /** The transfer loop empties the cursor cell into its right neighbour,
      multiplied by `m`, in as many iterations as the cell's value; with less
      fuel it cannot finish. */
  lemma TransferLoop(fuel: nat, st: State, m: nat)
    requires Valid(st.tape)
    ensures fuel < Get(st.tape) ==> Loop(fuel, st, TransferBody(m)) == OutOfFuel
    ensures fuel >= Get(st.tape) ==>
      Loop(fuel, st, TransferBody(m)).Done? && Moved(st, Loop(fuel, st, TransferBody(m)).st, m)
  {
    LoopDrains(fuel, st, m);
    DrainMoves(st, m);
  }

  /** The interpreter's loop agrees with `Drain` when the fuel suffices. */
  lemma {:induction false} LoopDrains(fuel: nat, st: State, m: nat)
    requires Valid(st.tape)
    ensures fuel < Get(st.tape) ==> Loop(fuel, st, TransferBody(m)) == OutOfFuel
    ensures fuel >= Get(st.tape) ==> Loop(fuel, st, TransferBody(m)) == Done(Drain(st, m))
    decreases fuel
  {
    var body := TransferBody(m);
    if Get(st.tape) == 0 {
      TransferLoopZero(fuel, st, m);
    } else if fuel == 0 {
      LoopWithoutFuel(st, body);
    } else {
      TransferLoopStep(fuel, st, m);
      LoopDrains(fuel - 1, TransferOnce(st, m), m);
    }
  }

  /** The transfer loop on a 0 cell changes nothing. */
  lemma TransferLoopZero(fuel: nat, st: State, m: nat)
    requires Valid(st.tape) && Get(st.tape) == 0
    ensures Loop(fuel, st, TransferBody(m)) == Done(st)
    ensures Moved(st, st, m)
  {
    LoopOnZero(fuel, st, TransferBody(m));
  }

  /** One iteration of the transfer loop on a nonzero cell. */
  lemma TransferLoopStep(fuel: nat, st: State, m: nat)
    requires Valid(st.tape) && Get(st.tape) != 0 && fuel > 0
    ensures Valid(TransferOnce(st, m).tape)
    ensures Get(TransferOnce(st, m).tape) == Get(st.tape) - 1
    ensures Loop(fuel, st, TransferBody(m)) == Loop(fuel - 1, TransferOnce(st, m), TransferBody(m))
  {
    OnceCountsDown(st, m);
    BodyRun(fuel - 1, st, m);
    LoopIterationDone(fuel, st, TransferBody(m), TransferOnce(st, m));
  }
}
