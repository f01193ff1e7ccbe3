/**
 * The memory of the simulator and the entities that live in it.
 *
 * Memory is a flat sequence of cells. A cell is either free (the JavaScript
 * `null`) or holds the id of the process that owns it. Processes are numbered
 * from 1 in submission order, so a cell never has to tell "free" apart from a
 * real id by value.
 */
module Cells {

  datatype Option<T> = None | Some(value: T)

  /** One memory cell: `Free` is `null`, `Owned(id)` is the owning process id. */
  datatype Cell = Free | Owned(id: nat)

  /** A process as submitted: its id, the cells it needs and its duration. */
  datatype Process = Process(id: nat, size: nat, time: int)

  /** The n-cell sequence whose every cell is c. */
  function Repeat(c: Cell, n: nat): (r: seq<Cell>)
    ensures |r| == n && forall k :: 0 <= k < n ==> r[k] == c
  {
    seq(n, _ => c)
  }

  /** Every cell of m is free. */
  predicate AllFree(m: seq<Cell>) {
    forall k :: 0 <= k < |m| ==> m[k] == Free
  }

  /** Every occupied cell of m belongs to one of the ids in owners. */
  ghost predicate OwnedOnlyBy(m: seq<Cell>, owners: set<nat>) {
    forall k :: 0 <= k < |m| && m[k].Owned? ==> m[k].id in owners
  }

  /** The number of cells of m equal to c. */
  function Count(m: seq<Cell>, c: Cell): (n: nat)
    ensures n <= |m|
  {
    if m == [] then 0
    else Count(m[..|m| - 1], c) + (if m[|m| - 1] == c then 1 else 0)
  }

  /** The number of occupied cells of m. */
  function Occupied(m: seq<Cell>): (n: nat)
    ensures n <= |m|
  {
    |m| - Count(m, Free)
  }

  lemma {:induction false} CountAppend(a: seq<Cell>, b: seq<Cell>, c: Cell)
    ensures Count(a + b, c) == Count(a, c) + Count(b, c)
  {
    if b != [] {
      assert (a + b)[..|a + b| - 1] == a + b[..|b| - 1];
      CountAppend(a, b[..|b| - 1], c);
    } else {
      assert a + b == a;
    }
  }

  /** A count is zero exactly when the cell does not occur. */
  lemma {:induction false} CountZero(m: seq<Cell>, c: Cell)
    ensures Count(m, c) == 0 <==> c !in m
  {
    if m != [] {
      CountZero(m[..|m| - 1], c);
      assert m == m[..|m| - 1] + [m[|m| - 1]];
    }
  }

  /** In a sequence of copies of x, x occurs everywhere and nothing else occurs. */
  lemma {:induction false} CountUniform(t: seq<Cell>, x: Cell, c: Cell)
    requires forall k :: 0 <= k < |t| ==> t[k] == x
    ensures Count(t, c) == if x == c then |t| else 0
  {
    if t != [] {
      CountUniform(t[..|t| - 1], x, c);
    }
  }

  /** No cell is occupied exactly when every cell is free. */
  lemma {:induction false} OccupiedZero(m: seq<Cell>)
    ensures Occupied(m) == 0 <==> AllFree(m)
  {
    if AllFree(m) {
      CountUniform(m, Free, Free);
    } else {
      var k :| 0 <= k < |m| && m[k] != Free;
      CountSplit(m, k, k + 1, Free);
      assert m[k..k + 1] == [m[k]];
    }
  }

  /** Counting over three consecutive pieces of m. */
  lemma {:induction false} CountSplit(m: seq<Cell>, s: nat, t: nat, c: Cell)
    requires s <= t <= |m|
    ensures Count(m, c) == Count(m[..s], c) + Count(m[s..t], c) + Count(m[t..], c)
  {
    assert m == m[..s] + m[s..t] + m[t..];
    CountAppend(m[..s] + m[s..t], m[t..], c);
    CountAppend(m[..s], m[s..t], c);
  }

  /**
   * Replacing the free run [s, s+n) of m by n copies of x, which is not
   * free, leaves every count alone except those of Free and of x.
   */
  lemma {:induction false} CountAfterFill(m: seq<Cell>, b: seq<Cell>, s: nat, n: nat, x: Cell, c: Cell)
    requires s + n <= |m| == |b| && x != Free
    requires forall k :: s <= k < s + n ==> m[k] == Free
    requires forall k :: 0 <= k < |m| ==> b[k] == if s <= k < s + n then x else m[k]
    ensures Count(b, c) + (if c == Free then n else 0) == Count(m, c) + (if c == x then n else 0)
  {
    CountSplit(m, s, s + n, c);
    CountSplit(b, s, s + n, c);
    assert b[..s] == m[..s] by {
      forall k | 0 <= k < s ensures b[k] == m[k] { }
    }
    assert b[s + n..] == m[s + n..] by {
      forall k | s + n <= k < |m| ensures b[k] == m[k] { }
    }
    var hole, block := m[s..s + n], b[s..s + n];
    forall k | 0 <= k < n ensures hole[k] == Free && block[k] == x {
      assert hole[k] == m[s + k] && block[k] == b[s + k];
    }
    CountUniform(hole, Free, c);
    CountUniform(block, x, c);
    assert Count(b[..s], c) == Count(m[..s], c);
    assert Count(b[s + n..], c) == Count(m[s + n..], c);
  }
}
