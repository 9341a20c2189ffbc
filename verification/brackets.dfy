/**
 The instruction stack and the bracket scan of the interpreter.

 The interpreter turns its code into a stack of (index, character) entries:
 the code reversed, each character paired with its position in that reversed
 order, so that popping from the end yields the code from left to right. On
 a `[` it pops further entries, counting bracket depth from 1, and collects
 them into a loop body until the `]` that brings the depth to 0.

 The scan is specified independently of the stack by `IsLoopSplit`, a
 property of the left-to-right text, and that property determines the body
 and the remainder uniquely (`LoopSplitUnique`).
 */
module Brackets {

  /** One stack element: a character and its index in the reversed code. */
  datatype Entry = Entry(index: nat, ch: char)

  /** Every entry's index is its own position in the stack. */
  predicate WellIndexed(s: seq<Entry>) {
    forall k :: 0 <= k < |s| ==> s[k].index == k
  }

  /** The stack built from `code`: the last entry holds the first character. */
  function Stack(code: seq<char>): (s: seq<Entry>)
    ensures |s| == |code|
    ensures WellIndexed(s)
    decreases |code|
  {
    if |code| == 0 then [] else Stack(code[1..]) + [Entry(|code| - 1, code[0])]
  }

  /** The first character of the code is pushed last. */
  lemma StackCons(c: char, s: seq<char>)
    ensures Stack([c] + s) == Stack(s) + [Entry(|s|, c)]
  {
    assert ([c] + s)[1..] == s;
  }

  /** Entry `k` of the stack holds the `k`-th character from the end. */
  lemma {:induction false} StackAt(code: seq<char>, k: nat)
    requires k < |code|
    ensures Stack(code)[k].ch == code[|code| - 1 - k]
    decreases |code|
  {
    if k < |code| - 1 {
      StackAt(code[1..], k);
    }
  }

  /** The code a stack still holds, in execution order (top of stack first). */
  function Pending(s: seq<Entry>): (code: seq<char>)
    ensures |code| == |s|
    decreases |s|
  {
    if |s| == 0 then [] else [s[|s| - 1].ch] + Pending(s[..|s| - 1])
  }

  /** Character `k` of the pending code is entry `k` from the top. */
  lemma {:induction false} PendingAt(s: seq<Entry>, k: nat)
    requires k < |s|
    ensures Pending(s)[k] == s[|s| - 1 - k].ch
    decreases |s|
  {
    if k > 0 {
      PendingAt(s[..|s| - 1], k - 1);
    }
  }

  /** Building the stack and reading it back gives the code. */
  lemma {:induction false} StackThenPending(code: seq<char>)
    ensures Pending(Stack(code)) == code
  {
    forall k | 0 <= k < |code|
      ensures Pending(Stack(code))[k] == code[k]
    {
      PendingAt(Stack(code), k);
      StackAt(code, |code| - 1 - k);
    }
  }

  /** A well-indexed stack is the stack of the code it holds, so every
      prefix of a stack (what is left after popping) is again a stack. */
  lemma {:induction false} PendingThenStack(s: seq<Entry>)
    requires WellIndexed(s)
    ensures Stack(Pending(s)) == s
  {
    var t := Stack(Pending(s));
    forall k | 0 <= k < |s|
      ensures t[k] == s[k]
    {
      StackAt(Pending(s), k);
      PendingAt(s, |s| - 1 - k);
    }
  }

  /** How a character changes the bracket depth. */
  function Delta(c: char): int {
    if c == '[' then 1 else if c == ']' then -1 else 0
  }

  /** Opening minus closing brackets in `p`. */
  function Balance(p: seq<char>): int
    decreases |p|
  {
    if |p| == 0 then 0 else Balance(p[..|p| - 1]) + Delta(p[|p| - 1])
  }

  /** The balance of the first `i` characters of `p`. */
  function BalanceTo(p: seq<char>, i: nat): int
    requires i <= |p|
  {
    Balance(p[..i])
  }

  lemma {:induction false} BalanceAppend(p: seq<char>, q: seq<char>)
    ensures Balance(p + q) == Balance(p) + Balance(q)
    decreases |q|
  {
    if |q| > 0 {
      var q' := q[..|q| - 1];
      assert (p + q)[..|p + q| - 1] == p + q';
      BalanceAppend(p, q');
    } else {
      assert p + q == p;
    }
  }

  /** No `[` and no `]` in `p`. */
  predicate BracketFree(p: seq<char>) {
    forall i :: 0 <= i < |p| ==> p[i] != '[' && p[i] != ']'
  }

  lemma {:induction false} BalanceBracketFree(p: seq<char>)
    requires BracketFree(p)
    ensures Balance(p) == 0
    decreases |p|
  {
    if |p| > 0 {
      BalanceBracketFree(p[..|p| - 1]);
    }
  }

  /** What the scan at starting depth `depth` collects from the text `s`
      (`body`) and what it leaves behind (`rest`): the depth stays at least 1
      throughout `body`, and either a `]` right after `body` brings it to 0,
      or it never reaches 0 and `body` is the whole of `s`. */
  ghost predicate IsLoopSplit(s: seq<char>, depth: int, body: seq<char>, rest: seq<char>) {
    && (forall i :: 0 <= i <= |body| ==> depth + BalanceTo(body, i) >= 1)
    && ((s == body + [']'] + rest && depth + Balance(body) == 1)
        || (s == body && rest == []))
  }

  /** Prepending a scanned character to a split found one level on. */
  lemma {:induction false} LoopSplitCons(c: char, depth: int, s: seq<char>, body: seq<char>, rest: seq<char>)
    requires depth >= 1
    requires IsLoopSplit(s, depth + Delta(c), body, rest)
    ensures IsLoopSplit([c] + s, depth, [c] + body, rest)
  {
    var body' := [c] + body;
    forall i | 1 <= i <= |body'|
      ensures depth + BalanceTo(body', i) >= 1
    {
      assert depth + Delta(c) + BalanceTo(body, i - 1) >= 1;
      assert body'[..i] == [c] + body[..i - 1];
      BalanceAppend([c], body[..i - 1]);
      assert Balance([c]) == Delta(c) by {
        assert [c][..0] == [];
      }
    }
    assert body'[..0] == [];
    BalanceAppend([c], body);
    assert Balance([c]) == Delta(c) by {
      assert [c][..0] == [];
    }
    assert body'[..|body'|] == body';
  }

  /** A body without brackets is closed by the first `]` after it. */
  lemma {:induction false} BracketFreeSplit(body: seq<char>, rest: seq<char>)
    requires BracketFree(body)
    ensures IsLoopSplit(body + [']'] + rest, 1, body, rest)
  {
    forall i | 0 <= i <= |body|
      ensures 1 + BalanceTo(body, i) >= 1
    {
      BalanceBracketFree(body[..i]);
    }
    BalanceBracketFree(body);
  }

  /** The scan of a `[`: pops entries, raising the depth on `[` and lowering
      it on `]`, and appends each popped character to `buf` until the `]`
      that brings the depth to 0, which is dropped. It returns the collected
      body and the stack that is left. */
  function Scan(stack: seq<Entry>, depth: int, buf: seq<char>): (r: (seq<char>, seq<Entry>))
    requires depth >= 1
    ensures |r.1| <= |stack| && r.1 == stack[..|r.1|]
    ensures |buf| <= |r.0| && r.0[..|buf|] == buf
    ensures IsLoopSplit(Pending(stack), depth, r.0[|buf|..], Pending(r.1))
    decreases |stack|
  {
    if |stack| == 0 then
      (buf, [])
    else
      var c := stack[|stack| - 1].ch;
      var rest := stack[..|stack| - 1];
      var depth' := if c == '[' then depth + 1 else if c == ']' then depth - 1 else depth;
      assert Pending(stack) == [c] + Pending(rest);
      if c == ']' && depth' == 0 then
        assert IsLoopSplit(Pending(stack), depth, buf[|buf|..], Pending(rest)) by {
          var none: seq<char> := [];
          assert buf[|buf|..] == none && none[..0] == none;
          assert Pending(stack) == none + [']'] + Pending(rest);
        }
        (buf, rest)
      else
        var r := Scan(rest, depth', buf + [c]);
        assert r.1 == stack[..|r.1|];
        assert r.0[..|buf|] == buf by {
          assert r.0[..|buf|] == r.0[..|buf| + 1][..|buf|];
        }
        assert IsLoopSplit(Pending(stack), depth, r.0[|buf|..], Pending(r.1)) by {
          assert r.0[|buf|..] == [c] + r.0[|buf| + 1..];
          LoopSplitCons(c, depth, Pending(rest), r.0[|buf| + 1..], Pending(r.1));
        }
        r
  }

  /** Every text has a split: the one the scan finds. Together with
      `LoopSplitUnique`, the scan's result is the only split there is. */
  lemma {:induction false} LoopSplitExists(s: seq<char>)
    ensures exists body, rest :: IsLoopSplit(s, 1, body, rest)
  {
    var r := Scan(Stack(s), 1, []);
    StackThenPending(s);
    assert r.0[0..] == r.0;
    assert IsLoopSplit(s, 1, r.0, Pending(r.1));
  }

  /** The split is unique: `IsLoopSplit` pins down the body and the rest, so
      it is a complete description of what the scan does. */
  lemma {:induction false} LoopSplitUnique(s: seq<char>, depth: int, b1: seq<char>, r1: seq<char>, b2: seq<char>, r2: seq<char>)
    requires IsLoopSplit(s, depth, b1, r1)
    requires IsLoopSplit(s, depth, b2, r2)
    ensures b1 == b2 && r1 == r2
  {
    if s == b1 + [']'] + r1 && depth + Balance(b1) == 1 {
      ClosingPrefix(s, depth, b1, r1, b2, r2);
    } else if s == b2 + [']'] + r2 && depth + Balance(b2) == 1 {
      ClosingPrefix(s, depth, b2, r2, b1, r1);
    }
  }

  /** A `]` inside a scanned body never closes it: the text before it still
      has depth at least 2. */
  lemma {:induction false} ClosingBracketInside(b: seq<char>, depth: int, q: seq<char>)
    requires forall i :: 0 <= i <= |b| ==> depth + BalanceTo(b, i) >= 1
    requires |q| < |b| && b[..|q| + 1] == q + [']']
    ensures depth + Balance(q) >= 2
  {
    BalanceAppend(q, [']']);
    assert Balance([']']) == -1 by {
      assert [']'][..0] == [];
    }
    assert depth + BalanceTo(b, |q| + 1) >= 1;
  }

  /** Helper for `LoopSplitUnique`: a split that closes at `b1` leaves no
      room for any other split. */
  lemma {:induction false} ClosingPrefix(s: seq<char>, depth: int, b1: seq<char>, r1: seq<char>, b2: seq<char>, r2: seq<char>)
    requires IsLoopSplit(s, depth, b1, r1)
    requires s == b1 + [']'] + r1 && depth + Balance(b1) == 1
    requires IsLoopSplit(s, depth, b2, r2)
    ensures b1 == b2 && r1 == r2
  {
    var j := |b1|;
    assert b2 == s[..|b2|];
    assert s[..j + 1] == b1 + [']'];
    if |b2| > j {
      assert b2[..j + 1] == s[..j + 1];
      ClosingBracketInside(b2, depth, b1);
      assert false;
    }
    if |b2| < j {
      if s == b2 {
        assert false;
      }
      assert s[..|b2| + 1] == b2 + [']'];
      assert b1[..|b2| + 1] == s[..|b2| + 1];
      ClosingBracketInside(b1, depth, b2);
      assert false;
    }
    if s == b2 {
      assert false;
    }
    assert b1 == s[..j] == b2;
    assert r1 == s[j + 1..] == r2;
  }

  /** Popping the top entry: the pending code loses its first character,
      and a well-indexed stack stays well indexed, with the popped entry's
      index equal to the length of what is left. */
  lemma PopTop(stack: seq<Entry>)
    requires |stack| > 0
    ensures Pending(stack) == [stack[|stack| - 1].ch] + Pending(stack[..|stack| - 1])
    ensures WellIndexed(stack) ==>
      WellIndexed(stack[..|stack| - 1]) && stack[|stack| - 1].index == |stack| - 1
  {
  }

  /** The scan of a loop body draws the body, and the stack it leaves, from
      the pending code; what it leaves is a prefix of the stack, so it stays
      well indexed. */
  lemma ScanWithin(stack: seq<Entry>)
    ensures var r := Scan(stack, 1, []);
      && |r.1| <= |stack|
      && (forall ch :: ch in r.0 ==> ch in Pending(stack))
      && (forall ch :: ch in Pending(r.1) ==> ch in Pending(stack))
      && (WellIndexed(stack) ==> WellIndexed(r.1))
  {
    var r := Scan(stack, 1, []);
    assert r.0[0..] == r.0;
    assert Pending(stack) == r.0 + [']'] + Pending(r.1) || (Pending(stack) == r.0 && Pending(r.1) == []);
  }
}
