/**
 The tape of the interpreter: a byte array that is unbounded in both
 directions. It is stored as a left sequence (cells -1, -2, ...), an origin
 byte (cell 0) and a right sequence (cells +1, +2, ...), with a three-way
 cursor. Stepping onto a cell that was never visited materialises it as a 0.

 The abstraction every contract is stated against is `Cell(t, k)`: the value
 of the cell at signed offset `k`, reading 0 where nothing is stored yet.
 */
module Tapes {

  /** An unsigned 8-bit cell value (`u8`). */
  type Byte = b: int | 0 <= b < 256

  /** `u8 += 1` as compiled in a release build: 255 wraps to 0. */
  function WrapInc(b: Byte): Byte {
    (b + 1) % 256
  }

  /** `u8 -= 1` as compiled in a release build: 0 wraps to 255
      (Dafny's `%` is Euclidean, so `-1 % 256 == 255`). */
  function WrapDec(b: Byte): Byte {
    (b - 1) % 256
  }

  /** The cursor: an index into the left sequence, the origin, or an index
      into the right sequence. */
  datatype Position = Left(n: nat) | Zero | Right(n: nat)

  datatype Tape = Tape(left: seq<Byte>, origin: Byte, right: seq<Byte>, position: Position)

  /** The signed offset a cursor stands for: `Left(n)` is -(n+1), `Zero` is 0
      and `Right(n)` is n+1. */
  function Offset(p: Position): int {
    match p
    case Left(n) => -(n + 1)
    case Zero => 0
    case Right(n) => n + 1
  }

  /** The cursor of a tape, as a signed offset. */
  function Cursor(t: Tape): int {
    Offset(t.position)
  }

  /** The safety invariant: the cursor indexes into the sequence it names. */
  predicate Valid(t: Tape) {
    match t.position
    case Left(n) => n < |t.left|
    case Zero => true
    case Right(n) => n < |t.right|
  }

  /** The value of the cell at offset `k`; a cell that was never
      materialised reads 0. */
  function Cell(t: Tape, k: int): Byte {
    if k == 0 then t.origin
    else if k < 0 then (if -k - 1 < |t.left| then t.left[-k - 1] else 0)
    else (if k - 1 < |t.right| then t.right[k - 1] else 0)
  }

  /** Distinct positions stand for distinct offsets. */
  lemma OffsetInjective(p: Position, q: Position)
    ensures Offset(p) == Offset(q) <==> p == q
  {
  }

  /** `Tape::new`: cursor at the origin, nothing materialised, every cell 0. */
  function New(): (t: Tape)
    ensures Valid(t)
    ensures Cursor(t) == 0
    ensures |t.left| == 0 && |t.right| == 0
    ensures forall k :: Cell(t, k) == 0
  {
    Tape([], 0, [], Zero)
  }

  /** `Tape::step_right`: moves the cursor one cell to the right, appending a
      0 to the right sequence when the cursor would leave it. */
  function StepRight(t: Tape): (t': Tape)
    ensures Valid(t) ==> Valid(t')
    ensures Cursor(t') == Cursor(t) + 1
    ensures forall k :: Cell(t', k) == Cell(t, k)
    ensures t'.left == t.left && t'.origin == t.origin
    ensures t'.right == t.right || t'.right == t.right + [0]
    ensures Valid(t) ==>
      |t'.right| == (if Cursor(t') == |t.right| + 1 then |t.right| + 1 else |t.right|)
  {
    match t.position
    case Left(0) => t.(position := Zero)
    case Zero =>
      var right := if |t.right| == 0 then t.right + [0] else t.right;
      t.(right := right, position := Right(0))
    case Right(n) =>
      var right := if n + 1 == |t.right| then t.right + [0] else t.right;
      t.(right := right, position := Right(n + 1))
    case Left(n) => t.(position := Left(n - 1))
  }

  /** `Tape::step_left`: moves the cursor one cell to the left, appending a
      0 to the left sequence when the cursor would leave it. */
  function StepLeft(t: Tape): (t': Tape)
    ensures Valid(t) ==> Valid(t')
    ensures Cursor(t') == Cursor(t) - 1
    ensures forall k :: Cell(t', k) == Cell(t, k)
    ensures t'.right == t.right && t'.origin == t.origin
    ensures t'.left == t.left || t'.left == t.left + [0]
    ensures Valid(t) ==>
      |t'.left| == (if Cursor(t') == -(|t.left| + 1) then |t.left| + 1 else |t.left|)
  {
    match t.position
    case Right(0) => t.(position := Zero)
    case Zero =>
      var left := if |t.left| == 0 then t.left + [0] else t.left;
      t.(left := left, position := Left(0))
    case Right(n) => t.(position := Right(n - 1))
    case Left(n) =>
      var left := if n + 1 == |t.left| then t.left + [0] else t.left;
      t.(left := left, position := Left(n + 1))
  }

  /** `Tape::get`: the value under the cursor. */
  function Get(t: Tape): (b: Byte)
    requires Valid(t)
    ensures b == Cell(t, Cursor(t))
  {
    match t.position
    case Left(n) => t.left[n]
    case Zero => t.origin
    case Right(n) => t.right[n]
  }

  /** `Tape::set`: overwrites the cell under the cursor and nothing else. */
  function Set(t: Tape, b: Byte): (t': Tape)
    requires Valid(t)
    ensures Valid(t')
    ensures t'.position == t.position
    ensures |t'.left| == |t.left| && |t'.right| == |t.right|
    ensures forall k :: Cell(t', k) == if k == Cursor(t) then b else Cell(t, k)
  {
    match t.position
    case Left(n) => t.(left := t.left[n := b])
    case Zero => t.(origin := b)
    case Right(n) => t.(right := t.right[n := b])
  }

  /** `Tape::increment`: adds 1, modulo 256, to the cell under the cursor
      and changes nothing else. */
  function Increment(t: Tape): (t': Tape)
    requires Valid(t)
    ensures Valid(t')
    ensures t'.position == t.position
    ensures |t'.left| == |t.left| && |t'.right| == |t.right|
    ensures forall k :: Cell(t', k) == (if k == Cursor(t) then (Cell(t, k) + 1) % 256 else Cell(t, k))
  {
    match t.position
    case Left(n) => t.(left := t.left[n := WrapInc(t.left[n])])
    case Zero => t.(origin := WrapInc(t.origin))
    case Right(n) => t.(right := t.right[n := WrapInc(t.right[n])])
  }

  /** `Tape::decrement`: subtracts 1, modulo 256, from the cell under the
      cursor and changes nothing else. */
  function Decrement(t: Tape): (t': Tape)
    requires Valid(t)
    ensures Valid(t')
    ensures t'.position == t.position
    ensures |t'.left| == |t.left| && |t'.right| == |t.right|
    ensures forall k :: Cell(t', k) == (if k == Cursor(t) then (Cell(t, k) + 255) % 256 else Cell(t, k))
  {
    match t.position
    case Left(n) => t.(left := t.left[n := WrapDec(t.left[n])])
    case Zero => t.(origin := WrapDec(t.origin))
    case Right(n) => t.(right := t.right[n := WrapDec(t.right[n])])
  }

  /** Two tapes with the same cursor, the same materialised lengths and the
      same cell values are the same tape. */
  lemma {:induction false} Extensionality(t: Tape, u: Tape)
    requires t.position == u.position
    requires |t.left| == |u.left| && |t.right| == |u.right|
    requires forall k :: Cell(t, k) == Cell(u, k)
    ensures t == u
  {
    assert t.origin == Cell(t, 0) == Cell(u, 0) == u.origin;
    forall i | 0 <= i < |t.left|
      ensures t.left[i] == u.left[i]
    {
      assert t.left[i] == Cell(t, -i - 1) == Cell(u, -i - 1) == u.left[i];
    }
    forall i | 0 <= i < |t.right|
      ensures t.right[i] == u.right[i]
    {
      assert t.right[i] == Cell(t, i + 1) == Cell(u, i + 1) == u.right[i];
    }
  }

  /** A step left undone by a step right returns the cursor to where it was;
      the only trace left behind is possibly one more materialised 0. */
  lemma {:induction false} StepLeftThenRight(t: Tape)
    requires Valid(t)
    ensures StepRight(StepLeft(t)).position == t.position
    ensures Valid(StepRight(StepLeft(t)))
    ensures forall k :: Cell(StepRight(StepLeft(t)), k) == Cell(t, k)
    ensures t.left <= StepRight(StepLeft(t)).left && StepRight(StepLeft(t)).right == t.right
    ensures |StepRight(StepLeft(t)).left| <= |t.left| + 1
  {
    OffsetInjective(StepRight(StepLeft(t)).position, t.position);
  }

  /** A step right undone by a step left returns the cursor to where it was. */
  lemma {:induction false} StepRightThenLeft(t: Tape)
    requires Valid(t)
    ensures StepLeft(StepRight(t)).position == t.position
    ensures Valid(StepLeft(StepRight(t)))
    ensures forall k :: Cell(StepLeft(StepRight(t)), k) == Cell(t, k)
    ensures t.right <= StepLeft(StepRight(t)).right && StepLeft(StepRight(t)).left == t.left
    ensures |StepLeft(StepRight(t)).right| <= |t.right| + 1
  {
    OffsetInjective(StepLeft(StepRight(t)).position, t.position);
  }

  /** A value written with `set` is the value `get` reads back. */
  lemma SetThenGet(t: Tape, b: Byte)
    requires Valid(t)
    ensures Get(Set(t, b)) == b
  {
  }

  /** Writing back the value under the cursor changes nothing. */
  lemma {:induction false} SetOwnValue(t: Tape)
    requires Valid(t)
    ensures Set(t, Get(t)) == t
  {
    Extensionality(Set(t, Get(t)), t);
  }

  /** A second write to the cursor cell overrides the first. */
  lemma {:induction false} SetTwice(t: Tape, a: Byte, b: Byte)
    requires Valid(t)
    ensures Set(Set(t, a), b) == Set(t, b)
  {
    Extensionality(Set(Set(t, a), b), Set(t, b));
  }

  /** `decrement` undoes `increment`, and the other way round. */
  lemma {:induction false} DecrementUndoesIncrement(t: Tape)
    requires Valid(t)
    ensures Decrement(Increment(t)) == t
    ensures Increment(Decrement(t)) == t
  {
    var b: int := Get(t);
    assert ((b + 1) % 256 + 255) % 256 == b;
    assert ((b + 255) % 256 + 1) % 256 == b;
    Extensionality(Decrement(Increment(t)), t);
    Extensionality(Increment(Decrement(t)), t);
  }

  /** Incrementing after a write is writing the incremented value. */
  lemma {:induction false} IncrementAfterSet(t: Tape, b: Byte)
    requires Valid(t)
    ensures Increment(Set(t, b)) == Set(t, (b + 1) % 256)
  {
    Extensionality(Increment(Set(t, b)), Set(t, (b + 1) % 256));
  }

  /** Decrementing after a write is writing the decremented value. */
  lemma {:induction false} DecrementAfterSet(t: Tape, b: Byte)
    requires Valid(t)
    ensures Decrement(Set(t, b)) == Set(t, (b + 255) % 256)
  {
    Extensionality(Decrement(Set(t, b)), Set(t, (b + 255) % 256));
  }

  /** Reducing modulo 256 before adding 1 does not change the result. */
  lemma ModSucc(a: int)
    ensures (a % 256 + 1) % 256 == (a + 1) % 256
  {
  }

  /** Reducing modulo 256 before subtracting 1 (adding 255) does not change
      the result. */
  lemma ModPred(a: int)
    ensures (a % 256 + 255) % 256 == (a - 1) % 256
  {
  }

  /** `k` increments in a row: the cursor cell advances by `k` modulo 256. */
  function IncrementTimes(t: Tape, k: nat): (t': Tape)
    requires Valid(t)
    ensures Valid(t')
    ensures t' == Set(t, (Get(t) + k) % 256)
  {
    if k == 0 then
      SetOwnValue(t);
      t
    else
      var u := IncrementTimes(t, k - 1);
      assert Increment(u) == Set(t, (Get(t) + k) % 256) by {
        IncrementAfterSet(t, (Get(t) + k - 1) % 256);
        ModSucc(Get(t) + k - 1);
      }
      Increment(u)
  }

  /** `k` decrements in a row: the cursor cell goes back by `k` modulo 256. */
  function DecrementTimes(t: Tape, k: nat): (t': Tape)
    requires Valid(t)
    ensures Valid(t')
    ensures t' == Set(t, (Get(t) - k) % 256)
  {
    if k == 0 then
      SetOwnValue(t);
      t
    else
      var u := DecrementTimes(t, k - 1);
      assert Decrement(u) == Set(t, (Get(t) - k) % 256) by {
        DecrementAfterSet(t, (Get(t) - (k - 1)) % 256);
        ModPred(Get(t) - (k - 1));
      }
      Decrement(u)
  }

  /** The wraparound law: 256 increments, or 256 decrements, leave the tape
      exactly as it was. */
  lemma {:induction false} WrapAroundCycle(t: Tape)
    requires Valid(t)
    ensures IncrementTimes(t, 256) == t
    ensures DecrementTimes(t, 256) == t
  {
    SetOwnValue(t);
  }
}
