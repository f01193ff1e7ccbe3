/**
 * Placement of one process (`allocateProcess`). The scan keeps a
 * "best fit" index and size, but every candidate it measures is a slice of
 * exactly `process.size` cells, so the strict `<` test only ever accepts the
 * first feasible offset: the placement is first-fit.
 */
module Placement {
  import opened Cells

  /** The `size` cells from `start` exist and are all free. */
  predicate Fits(m: seq<Cell>, start: int, size: nat) {
    0 <= start && start + size <= |m| && forall k :: start <= k < start + size ==> m[k] == Free
  }

  /** The smallest feasible start at or after `from`, if any. */
  function FirstFitFrom(m: seq<Cell>, size: nat, from: nat): (r: Option<nat>)
    ensures r.Some? ==> from <= r.value && Fits(m, r.value, size)
    ensures r.Some? ==> forall j :: from <= j < r.value ==> !Fits(m, j, size)
    ensures r.None? ==> forall j :: from <= j ==> !Fits(m, j, size)
    decreases |m| - from
  {
    if from + size > |m| then None
    else if Fits(m, from, size) then Some(from)
    else FirstFitFrom(m, size, from + 1)
  }

  /** The smallest feasible start in m for a block of `size` cells, if any. */
  function FirstFit(m: seq<Cell>, size: nat): (r: Option<nat>)
    ensures r.Some? ==> Fits(m, r.value, size) && forall j :: 0 <= j < r.value ==> !Fits(m, j, size)
    ensures r.None? <==> forall j :: !Fits(m, j, size)
  {
    FirstFitFrom(m, size, 0)
  }

  /** A process that needs no cells always fits, at offset 0. */
  lemma ZeroSizeFitsAtZero(m: seq<Cell>)
    ensures FirstFit(m, 0) == Some(0)
  {
    assert Fits(m, 0, 0);
  }

  /** A process larger than memory never fits. */
  lemma TooLargeNeverFits(m: seq<Cell>, size: nat)
    requires size > |m|
    ensures FirstFit(m, size) == None
  {
  }

  /** The memory and placement that result from placing one process. */
  datatype Placed = Placed(mem: seq<Cell>, start: Option<nat>)

  /**
   * Placing p: on success the block [start, start + p.size) becomes p's and
   * nothing else changes; on failure memory is untouched.
   */
  function Place(m: seq<Cell>, p: Process): (r: Placed)
    ensures |r.mem| == |m|
    ensures r.start == FirstFit(m, p.size)
    ensures r.start.None? ==> r.mem == m
    ensures r.start.Some? ==> forall k :: 0 <= k < |m| ==>
      r.mem[k] == if r.start.value <= k < r.start.value + p.size then Owned(p.id) else m[k]
  {
    match FirstFit(m, p.size)
    case None => Placed(m, None)
    case Some(s) =>
      Placed(seq(|m|, k requires 0 <= k < |m| => if s <= k < s + p.size then Owned(p.id) else m[k]), Some(s))
  }

  /** Placing p makes p.size more cells occupied, all of them p's, or changes nothing. */
  lemma {:induction false} PlaceCounts(m: seq<Cell>, p: Process, c: Cell)
    ensures var r := Place(m, p);
      Count(r.mem, c) + (if r.start.Some? && c == Free then p.size else 0)
        == Count(m, c) + (if r.start.Some? && c == Owned(p.id) then p.size else 0)
  {
    var r := Place(m, p);
    if r.start.Some? {
      CountAfterFill(m, r.mem, r.start.value, p.size, Owned(p.id), c);
    }
  }

  lemma {:induction false} PlaceOccupied(m: seq<Cell>, p: Process)
    ensures var r := Place(m, p);
      Occupied(r.mem) == Occupied(m) + if r.start.Some? then p.size else 0
  {
    PlaceCounts(m, p, Free);
  }

  /** One row of the allocation table: `{id, size, blockNo, time}`. */
  datatype BlockNo = Block(no: nat) | NotAllocated
  datatype TimeCell = Units(units: int) | NotApplicable
  datatype Row = Row(id: nat, size: nat, blockNo: BlockNo, time: TimeCell)

  /** The row reported for p: 1-based block number and time, or 'Not Allocated' and 'N/A'. */
  function RowFor(p: Process, start: Option<nat>): (r: Row)
    ensures r.id == p.id && r.size == p.size
    ensures r.blockNo.Block? <==> start.Some?
    ensures start.Some? ==> r.blockNo.no == start.value + 1 && r.time == Units(p.time)
    ensures start.None? ==> r.time == NotApplicable
  {
    match start
    case Some(s) => Row(p.id, p.size, Block(s + 1), Units(p.time))
    case None => Row(p.id, p.size, NotAllocated, NotApplicable)
  }

  /**
   * The scan loop of `allocateProcess`: tries every offset from 0 to
   * |memory| - size, keeping the candidate whose slice is strictly shorter
   * than the best so far (initially "Infinity", here None). Returns -1 when
   * nothing fits.
   */
  method FindBestFit(memory: array<Cell>, size: nat) returns (bestFitIndex: int)
    ensures bestFitIndex == -1 <==> FirstFit(memory[..], size).None?
    ensures bestFitIndex != -1 ==> FirstFit(memory[..], size) == Some(bestFitIndex)
  {
    bestFitIndex := -1;
    var bestFitSize: Option<nat> := None;
    var i := 0;
    while i <= memory.Length - size
      invariant 0 <= i
      invariant i <= memory.Length - size + 1 || i == 0
      invariant bestFitIndex == -1 <==> bestFitSize.None?
      invariant bestFitIndex == -1 ==> forall j :: 0 <= j < i ==> !Fits(memory[..], j, size)
      invariant bestFitIndex != -1 ==>
        0 <= bestFitIndex < i && Fits(memory[..], bestFitIndex, size) && bestFitSize == Some(size) &&
        forall j :: 0 <= j < bestFitIndex ==> !Fits(memory[..], j, size)
      decreases memory.Length - size + 1 - i
    {
      if Fits(memory[..], i, size) {
        var blockSize := |memory[i..i + size]|;
        if bestFitSize.None? || blockSize < bestFitSize.value {
          bestFitSize := Some(blockSize);
          bestFitIndex := i;
        }
      }
      i := i + 1;
    }
  }

  /**
   * `allocateProcess(memory, process, output)`: on success fills the block
   * with the process id, appends the process's row and answers true; on
   * failure changes nothing and answers false.
   */
  method AllocateProcess(memory: array<Cell>, p: Process, output: seq<Row>)
    returns (placed: bool, output': seq<Row>)
    modifies memory
    ensures var r := Place(old(memory[..]), p);
      && memory[..] == r.mem
      && placed == r.start.Some?
      && output' == if placed then output + [RowFor(p, r.start)] else output
  {
    var bestFitIndex := FindBestFit(memory, p.size);
    if bestFitIndex != -1 {
      forall k | bestFitIndex <= k < bestFitIndex + p.size {
        memory[k] := Owned(p.id);
      }
      output' := output + [Row(p.id, p.size, Block(bestFitIndex + 1), Units(p.time))];
      return true, output';
    }
    return false, output;
  }
}
