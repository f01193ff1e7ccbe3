/**
 * Hole measurement and compaction after a release (`coalesceMemory`).
 * The scan keeps a single `holeSize` that each closed hole overwrites, so it
 * ends up with the last hole: the trailing free run if memory ends free, else
 * the last hole closed by an occupied cell. Compaction runs when that value is
 * positive, which happens exactly when some cell is free.
 */
module Coalescing {
  import opened Cells
  import opened Reports

  /** The length of the free run at the end of m: all free, and not preceded by a free cell. */
  function TrailingFree(m: seq<Cell>): (n: nat)
    ensures n <= |m|
    ensures forall k :: |m| - n <= k < |m| ==> m[k] == Free
    ensures n < |m| ==> m[|m| - n - 1] != Free
  {
    if m == [] || m[|m| - 1] != Free then 0 else TrailingFree(m[..|m| - 1]) + 1
  }

  /**
   * The length of the last hole of m: the trailing free run if m ends with a
   * free cell, else the last hole of m without its final (occupied) cell.
   */
  function LastHole(m: seq<Cell>): (n: nat)
    ensures n <= |m|
  {
    if m == [] then 0
    else if m[|m| - 1] != Free then LastHole(m[..|m| - 1])
    else TrailingFree(m)
  }

  /** [b, e) is a maximal run of free cells with no free cell after it. */
  ghost predicate IsLastHole(m: seq<Cell>, b: nat, e: nat) {
    && b < e <= |m|
    && (forall k :: b <= k < e ==> m[k] == Free)
    && (b == 0 || m[b - 1] != Free)
    && (forall k :: e <= k < |m| ==> m[k] != Free)
  }

  lemma {:induction false} TrailingFreeRun(m: seq<Cell>, b: nat)
    requires b <= |m|
    requires forall k :: b <= k < |m| ==> m[k] == Free
    requires b == 0 || m[b - 1] != Free
    ensures TrailingFree(m) == |m| - b
  {
    if |m| > b {
      TrailingFreeRun(m[..|m| - 1], b);
    }
  }

  /** The scan's result is the length of the last maximal free run. */
  lemma {:induction false} LastHoleIsLastRun(m: seq<Cell>, b: nat, e: nat)
    requires IsLastHole(m, b, e)
    ensures LastHole(m) == e - b
  {
    if e < |m| {
      LastHoleIsLastRun(m[..|m| - 1], b, e);
    } else {
      TrailingFreeRun(m, b);
    }
  }

  /** The measured hole is positive exactly when memory has a free cell. */
  lemma {:induction false} LastHolePositive(m: seq<Cell>)
    ensures LastHole(m) > 0 <==> Free in m
  {
    if m != [] && m[|m| - 1] != Free {
      LastHolePositive(m[..|m| - 1]);
      assert m == m[..|m| - 1] + [m[|m| - 1]];
    }
  }

  /** Memory that is entirely free is one hole as long as memory, so it is still compacted. */
  lemma {:induction false} AllFreeIsOneHole(n: nat)
    requires n > 0
    ensures LastHole(Repeat(Free, n)) == n
  {
    LastHoleIsLastRun(Repeat(Free, n), 0, n);
  }

  /** The occupied cells of m, in their original order. */
  function NonFree(m: seq<Cell>): (r: seq<Cell>)
    ensures |r| <= |m|
    ensures Free !in r
  {
    if m == [] then []
    else NonFree(m[..|m| - 1]) + (if m[|m| - 1] != Free then [m[|m| - 1]] else [])
  }

  /** m rebuilt with its occupied cells at the front and the free cells after them. */
  function Compacted(m: seq<Cell>): (r: seq<Cell>)
    ensures |r| == |m|
  {
    NonFree(m) + Repeat(Free, |m| - |NonFree(m)|)
  }

  lemma {:induction false} NonFreeAppend(a: seq<Cell>, b: seq<Cell>)
    ensures NonFree(a + b) == NonFree(a) + NonFree(b)
  {
    if b != [] {
      assert (a + b)[..|a + b| - 1] == a + b[..|b| - 1];
      NonFreeAppend(a, b[..|b| - 1]);
    } else {
      assert a + b == a;
    }
  }

  /** Filtering keeps the count of every owner and drops the free cells. */
  lemma {:induction false} NonFreeCounts(m: seq<Cell>, c: Cell)
    ensures Count(NonFree(m), c) == if c == Free then 0 else Count(m, c)
  {
    if m != [] {
      var front, last := m[..|m| - 1], m[|m| - 1];
      NonFreeCounts(front, c);
      var tail := if last != Free then [last] else [];
      CountAppend(NonFree(front), tail, c);
      assert Count(tail, c) == if last == c && last != Free then 1 else 0 by {
        if tail != [] { assert tail[..0] == []; }
      }
      CountZero(NonFree(m), Free);
    }
  }

  lemma {:induction false} NonFreeLength(m: seq<Cell>)
    ensures |NonFree(m)| == Occupied(m)
  {
    if m != [] {
      NonFreeLength(m[..|m| - 1]);
    }
  }

  lemma {:induction false} NonFreeNoHole(m: seq<Cell>)
    requires Free !in m
    ensures NonFree(m) == m
  {
    if m != [] {
      var front, last := m[..|m| - 1], m[|m| - 1];
      assert m == front + [last];
      assert Free !in front;
      NonFreeNoHole(front);
      assert NonFree(m) == NonFree(front) + [last];
    }
  }

  lemma {:induction false} NonFreeOfFree(n: nat)
    ensures NonFree(Repeat(Free, n)) == []
  {
    if n > 0 {
      assert Repeat(Free, n)[..n - 1] == Repeat(Free, n - 1);
      NonFreeOfFree(n - 1);
    }
  }

  lemma {:induction false} NonFreeMembers(m: seq<Cell>, c: Cell)
    ensures c in NonFree(m) <==> c in m && c != Free
  {
    if m != [] {
      NonFreeMembers(m[..|m| - 1], c);
      assert m == m[..|m| - 1] + [m[|m| - 1]];
    }
  }

  /**
   * Compaction keeps the length; the first Occupied(m) cells are the occupied
   * cells of m in their original order and every cell after them is free.
   */
  lemma {:induction false} CompactedShape(m: seq<Cell>)
    ensures |Compacted(m)| == |m|
    ensures Compacted(m)[..Occupied(m)] == NonFree(m)
    ensures forall k :: 0 <= k < Occupied(m) ==> Compacted(m)[k] != Free
    ensures forall k :: Occupied(m) <= k < |m| ==> Compacted(m)[k] == Free
  {
    NonFreeLength(m);
    var r := Compacted(m);
    forall k | 0 <= k < Occupied(m) ensures r[k] != Free {
      assert r[k] == NonFree(m)[k];
    }
  }

  /** Compaction keeps every process's cell count, and so the occupancy. */
  lemma {:induction false} CompactedCounts(m: seq<Cell>, c: Cell)
    ensures Count(Compacted(m), c) == Count(m, c)
  {
    var nf := NonFree(m);
    CountAppend(nf, Repeat(Free, |m| - |nf|), c);
    CountUniform(Repeat(Free, |m| - |nf|), Free, c);
    NonFreeCounts(m, c);
    if c == Free {
      NonFreeLength(m);
    }
  }

  /** Memory without a free cell is left exactly as it is. */
  lemma {:induction false} CompactedNoHole(m: seq<Cell>)
    requires Free !in m
    ensures Compacted(m) == m
  {
    NonFreeNoHole(m);
  }

  /** Compacting compacted memory changes nothing. */
  lemma {:induction false} CompactedIdempotent(m: seq<Cell>)
    ensures Compacted(Compacted(m)) == Compacted(m)
  {
    var nf := NonFree(m);
    var r := Compacted(m);
    NonFreeAppend(nf, Repeat(Free, |m| - |nf|));
    NonFreeOfFree(|m| - |nf|);
    NonFreeNoHole(nf);
    assert NonFree(r) == nf;
  }

  /** Compaction only moves owners; it brings in none. */
  lemma {:induction false} CompactedOwners(m: seq<Cell>, owners: set<nat>)
    requires OwnedOnlyBy(m, owners)
    ensures OwnedOnlyBy(Compacted(m), owners)
  {
    var r := Compacted(m);
    var nf := NonFree(m);
    forall k | 0 <= k < |r| && r[k].Owned? ensures r[k].id in owners {
      if k < |nf| {
        assert r[k] in nf;
        NonFreeMembers(m, r[k]);
      }
    }
  }

  /** The worked example [1, _, 2, _, 3] becomes [1, 2, 3, _, _]. */
  lemma CompactedExample()
    ensures Compacted([Owned(1), Free, Owned(2), Free, Owned(3)])
         == [Owned(1), Owned(2), Owned(3), Free, Free]
  {
    var m := [Owned(1), Free, Owned(2), Free, Owned(3)];
    assert m[..1][..0] == [];
    assert NonFree(m[..1]) == [Owned(1)];
    assert m[..2][..1] == m[..1];
    assert NonFree(m[..2]) == [Owned(1)];
    assert m[..3][..2] == m[..2];
    assert NonFree(m[..3]) == [Owned(1), Owned(2)];
    assert m[..4][..3] == m[..3];
    assert NonFree(m[..4]) == [Owned(1), Owned(2)];
    assert m[..4] == m[..|m| - 1];
    assert NonFree(m) == [Owned(1), Owned(2), Owned(3)];
  }

  /**
   * The scan half of `coalesceMemory`: walks the cells once, opening a hole
   * at the first free cell after an occupied one (`start`) and recording its
   * length in `holeSize` when an occupied cell closes it, then closes a hole
   * still open at the end.
   */
  method MeasureHole(memory: array<Cell>) returns (holeSize: nat)
    ensures holeSize == LastHole(memory[..])
    ensures holeSize > 0 <==> Free in memory[..]
  {
    var start := -1;
    holeSize := 0;
    for i := 0 to memory.Length
      invariant start == -1 <==> TrailingFree(memory[..i]) == 0
      invariant start != -1 ==> start == i - TrailingFree(memory[..i])
      invariant holeSize == LastHole(memory[..if start == -1 then i else start])
    {
      assert memory[..i + 1][..i] == memory[..i];
      if memory[i] == Free && start == -1 {
        start := i;
      } else if memory[i] != Free && start != -1 {
        holeSize := i - start;
        start := -1;
      }
    }
    assert memory[..memory.Length] == memory[..];
    if start != -1 {
      holeSize := memory.Length - start;
    }
    LastHolePositive(memory[..]);
  }

  /**
   * The compaction half of `coalesceMemory`: copies the occupied cells, in
   * order, to the front of a fresh all-free array (`newMemory`, moving
   * `dest`), then splices that array back over memory.
   */
  method Compact(memory: array<Cell>)
    modifies memory
    ensures memory[..] == Compacted(old(memory[..]))
  {
    ghost var orig := memory[..];
    var newMemory := new Cell[memory.Length](_ => Free);
    var dest := 0;
    for i := 0 to memory.Length
      invariant memory[..] == orig
      invariant dest == |NonFree(orig[..i])|
      invariant newMemory[..dest] == NonFree(orig[..i])
      invariant forall k :: dest <= k < newMemory.Length ==> newMemory[k] == Free
    {
      assert orig[..i + 1][..i] == orig[..i];
      if memory[i] != Free {
        newMemory[dest] := memory[i];
        assert newMemory[..dest + 1] == newMemory[..dest] + [orig[i]];
        dest := dest + 1;
      }
    }
    assert orig[..memory.Length] == orig;
    assert newMemory[..] == Compacted(orig) by {
      assert newMemory[..] == newMemory[..dest] + newMemory[dest..];
      assert newMemory[dest..] == Repeat(Free, memory.Length - dest);
    }
    forall k | 0 <= k < memory.Length {
      memory[k] := newMemory[k];
    }
    assert memory[..] == newMemory[..];
  }

  /**
   * What `coalesceMemory` reports for memory m: the completion message and
   * the compacted memory labelled "After Compaction" when m has a free cell,
   * else m itself labelled "No Coalescing Needed".
   */
  function CoalesceEvents(m: seq<Cell>, compactionTime: int, coalescingHoleTime: int): seq<Event> {
    if Free in m then [CompactionDone(compactionTime + coalescingHoleTime), Snapshot(Compacted(m), AfterCompaction)]
    else [Snapshot(m, NoCoalescingNeeded)]
  }

  /**
   * `coalesceMemory` with its timer run at once: measure the last hole; if it
   * is positive compact and report the total time and the compacted memory,
   * otherwise report the memory unchanged.
   */
  method CoalesceMemory(memory: array<Cell>, compactionTime: int, coalescingHoleTime: int)
    returns (events: seq<Event>)
    modifies memory
    ensures memory[..] == Compacted(old(memory[..]))
    ensures events == CoalesceEvents(old(memory[..]), compactionTime, coalescingHoleTime)
    ensures Free in old(memory[..]) ==>
      events == [CompactionDone(compactionTime + coalescingHoleTime), Snapshot(memory[..], AfterCompaction)]
    ensures Free !in old(memory[..]) ==>
      memory[..] == old(memory[..]) && events == [Snapshot(memory[..], NoCoalescingNeeded)]
  {
    var holeSize := MeasureHole(memory);
    if holeSize > 0 {
      Compact(memory);
      events := [CompactionDone(compactionTime + coalescingHoleTime), Snapshot(memory[..], AfterCompaction)];
    } else {
      CompactedNoHole(memory[..]);
      events := [Snapshot(memory[..], NoCoalescingNeeded)];
    }
  }
}
