/**
 * The simulation run (`runSimulation`): number the submitted processes,
 * sort them by size, place each in turn in an all-free memory, report the
 * table and the initial snapshot, then run the lifecycles of the placed
 * processes one after another in sorted order.
 */
module Simulation {
  import opened Cells
  import opened Ordering
  import opened Placement
  import opened Freeing
  import opened Coalescing
  import opened Reports
  import opened Lifecycle

  /** One submitted process: the size and time read from the form. */
  datatype Request = Request(size: nat, time: int)

  /** Process i of the form gets id i + 1. */
  function Numbered(requests: seq<Request>): (ps: seq<Process>)
    ensures |ps| == |requests|
  {
    seq(|requests|, i requires 0 <= i < |requests| => Process(i + 1, requests[i].size, requests[i].time))
  }

  lemma NumberedDistinct(requests: seq<Request>)
    ensures DistinctIds(Numbered(requests))
  {
  }

  /** requests[k] is the first request of least size. */
  ghost predicate FirstSmallest(requests: seq<Request>, k: int) {
    && 0 <= k < |requests|
    && (forall j :: 0 <= j < k ==> requests[j].size > requests[k].size)
    && (forall j :: k <= j < |requests| ==> requests[j].size >= requests[k].size)
  }

  /**
   * The input loop of `runSimulation`: numbers the processes and keeps the
   * smallest one seen, replacing it only on a strictly smaller size. None
   * stands for the initial `{ size: Infinity, time: 0 }`.
   */
  method BuildProcesses(requests: seq<Request>) returns (processes: seq<Process>, smallest: Option<Request>)
    ensures processes == Numbered(requests)
    ensures smallest.None? <==> requests == []
    ensures smallest.Some? ==> exists k :: 0 <= k < |requests| && FirstSmallest(requests, k) && requests[k] == smallest.value
  {
    processes := [];
    smallest := None;
    ghost var at := 0;
    for i := 0 to |requests|
      invariant processes == Numbered(requests[..i])
      invariant smallest.None? <==> i == 0
      invariant smallest.Some? ==> 0 <= at < i && requests[at] == smallest.value
      invariant smallest.Some? ==> forall j :: 0 <= j < at ==> requests[j].size > smallest.value.size
      invariant smallest.Some? ==> forall j :: at <= j < i ==> requests[j].size >= smallest.value.size
    {
      var size, time := requests[i].size, requests[i].time;
      processes := processes + [Process(i + 1, size, time)];
      if smallest.None? || size < smallest.value.size {
        smallest := Some(Request(size, time));
        at := i;
      }
    }
    assert smallest.Some? ==> FirstSmallest(requests, at);
  }

  /** Memory and table after placing a sequence of processes in order. */
  datatype Pass = Pass(mem: seq<Cell>, rows: seq<Row>)

  /** The allocation loop as a function: each process is placed, then its row is appended. */
  function AllocPass(m: seq<Cell>, ps: seq<Process>): (r: Pass)
    ensures |r.mem| == |m| && |r.rows| == |ps|
    ensures forall k :: 0 <= k < |ps| ==> r.rows[k].id == ps[k].id && r.rows[k].size == ps[k].size
  {
    if ps == [] then Pass(m, [])
    else
      var prev := AllocPass(m, ps[..|ps| - 1]);
      var placed := Place(prev.mem, ps[|ps| - 1]);
      Pass(placed.mem, prev.rows + [RowFor(ps[|ps| - 1], placed.start)])
  }

  lemma {:induction false} AllocPassSnoc(m: seq<Cell>, ps: seq<Process>, p: Process)
    ensures var prev := AllocPass(m, ps);
      var placed := Place(prev.mem, p);
      AllocPass(m, ps + [p]) == Pass(placed.mem, prev.rows + [RowFor(p, placed.start)])
  {
    assert (ps + [p])[..|ps|] == ps;
  }

  /** The ids of the rows that got a block. */
  function AllocatedIds(rows: seq<Row>): set<nat> {
    set k | 0 <= k < |rows| && rows[k].blockNo.Block? :: rows[k].id
  }

  /** The total size of the rows that got a block. */
  function AllocatedSize(rows: seq<Row>): nat {
    if rows == [] then 0
    else
      var last := rows[|rows| - 1];
      AllocatedSize(rows[..|rows| - 1]) + if last.blockNo.Block? then last.size else 0
  }

  /** The cells owned by id are exactly [start, start + size). */
  ghost predicate OwnsBlock(m: seq<Cell>, id: nat, start: nat, size: nat) {
    && start + size <= |m|
    && forall k :: 0 <= k < |m| ==> (m[k] == Owned(id) <==> start <= k < start + size)
  }

  /** What a row promises about memory: the block it names, or no cell at all. */
  ghost predicate Agrees(m: seq<Cell>, p: Process, row: Row) {
    && row.id == p.id
    && (row.blockNo.Block? ==> row.blockNo.no >= 1 && OwnsBlock(m, p.id, row.blockNo.no - 1, p.size))
    && (row.blockNo.NotAllocated? ==> Owned(p.id) !in m)
  }

  /** The invariant of the allocation loop. */
  ghost predicate Consistent(m: seq<Cell>, ps: seq<Process>, rows: seq<Row>) {
    && |rows| == |ps|
    && (forall i :: 0 <= i < |ps| ==> Agrees(m, ps[i], rows[i]))
    && OwnedOnlyBy(m, AllocatedIds(rows))
    && Occupied(m) == AllocatedSize(rows)
  }

  /** Placing a process with a new id keeps memory and table consistent. */
  lemma {:induction false} PlaceKeepsConsistent(m: seq<Cell>, ps: seq<Process>, rows: seq<Row>, p: Process)
    requires Consistent(m, ps, rows)
    requires forall i :: 0 <= i < |ps| ==> ps[i].id != p.id
    ensures var placed := Place(m, p);
      Consistent(placed.mem, ps + [p], rows + [RowFor(p, placed.start)])
  {
    var placed := Place(m, p);
    var row := RowFor(p, placed.start);
    var rows' := rows + [row];
    var ps' := ps + [p];
    assert rows'[..|rows|] == rows;
    assert Owned(p.id) !in m by {
      forall k | 0 <= k < |m| && m[k].Owned? ensures m[k].id != p.id {
        var i :| 0 <= i < |rows| && rows[i].blockNo.Block? && rows[i].id == m[k].id;
        assert Agrees(m, ps[i], rows[i]);
      }
    }
    PlaceOccupied(m, p);
    if placed.start.Some? {
      var s := placed.start.value;
      forall i | 0 <= i < |ps'| ensures Agrees(placed.mem, ps'[i], rows'[i]) {
        if i < |ps| {
          assert Agrees(m, ps[i], rows[i]);
          assert forall k :: 0 <= k < |m| ==> (placed.mem[k] == Owned(ps[i].id) <==> m[k] == Owned(ps[i].id));
        }
      }
      assert rows'[|rows|] == row;
      forall x ensures x in AllocatedIds(rows') <==> x in AllocatedIds(rows) || x == p.id {
        if x in AllocatedIds(rows') {
          var k :| 0 <= k < |rows'| && rows'[k].blockNo.Block? && rows'[k].id == x;
          if k < |rows| {
            assert rows[k] == rows'[k];
          }
        }
        if x in AllocatedIds(rows) {
          var k :| 0 <= k < |rows| && rows[k].blockNo.Block? && rows[k].id == x;
          assert rows'[k] == rows[k];
        }
      }
    } else {
      forall i | 0 <= i < |ps'| ensures Agrees(placed.mem, ps'[i], rows'[i]) {
        if i < |ps| {
          assert Agrees(m, ps[i], rows[i]);
        }
      }
      assert AllocatedIds(rows') == AllocatedIds(rows);
    }
  }

  /**
   * Placing processes with distinct ids in an all-free memory: every placed
   * process owns exactly its block, an unplaced one owns no cell, every
   * occupied cell belongs to a placed process, and the occupied cells add up
   * to the placed sizes (hence at most the memory size).
   */
  lemma {:induction false} AllocPassConsistent(m: seq<Cell>, ps: seq<Process>)
    requires AllFree(m) && DistinctIds(ps)
    ensures var r := AllocPass(m, ps);
      Consistent(r.mem, ps, r.rows) && AllocatedSize(r.rows) <= |m|
  {
    var r := AllocPass(m, ps);
    if ps == [] {
      OccupiedZero(m);
    } else {
      var front := ps[..|ps| - 1];
      AllocPassConsistent(m, front);
      var prev := AllocPass(m, front);
      PlaceKeepsConsistent(prev.mem, front, prev.rows, ps[|ps| - 1]);
      assert front + [ps[|ps| - 1]] == ps;
    }
  }

  /** The reported final time: the largest time of a placed process, and at least 0. */
  ghost predicate IsFinalTime(rows: seq<Row>, t: int) {
    && t >= 0
    && (forall k :: 0 <= k < |rows| && rows[k].blockNo.Block? ==> rows[k].time.Units? && rows[k].time.units <= t)
    && (t == 0 || exists k :: 0 <= k < |rows| && rows[k].blockNo.Block? && rows[k].time == Units(t))
  }

  /** Appending a row keeps the running maximum of the placed rows' durations. */
  lemma FinalTimeStep(rows: seq<Row>, t: int, row: Row)
    requires IsFinalTime(rows, t)
    requires row.blockNo.Block? ==> row.time.Units?
    ensures row.blockNo.Block? ==>
      IsFinalTime(rows + [row], if t < row.time.units then row.time.units else t)
    ensures !row.blockNo.Block? ==> IsFinalTime(rows + [row], t)
  {
    var rows' := rows + [row];
    if row.blockNo.Block? && t < row.time.units {
      assert rows'[|rows|] == row;
    } else if t != 0 {
      var k :| 0 <= k < |rows| && rows[k].blockNo.Block? && rows[k].time == Units(t);
      assert rows'[k] == rows[k];
    }
  }

  /**
   * The allocation loop of `runSimulation`: `allocateProcess` on each
   * process; a failure appends the 'Not Allocated' / 'N/A' row, a success
   * raises `finalTimeUnit` to the process's time.
   */
  method AllocationPass(memory: array<Cell>, processes: seq<Process>)
    returns (output: seq<Row>, finalTimeUnit: int)
    modifies memory
    ensures var r := AllocPass(old(memory[..]), processes);
      memory[..] == r.mem && output == r.rows
    ensures IsFinalTime(output, finalTimeUnit)
  {
    ghost var m0 := memory[..];
    output := [];
    finalTimeUnit := 0;
    for i := 0 to |processes|
      invariant Pass(memory[..], output) == AllocPass(m0, processes[..i])
      invariant IsFinalTime(output, finalTimeUnit)
    {
      var process := processes[i];
      ghost var prev := Pass(memory[..], output);
      ghost var step := Place(prev.mem, process);
      FinalTimeStep(prev.rows, finalTimeUnit, RowFor(process, step.start));
      assert processes[..i + 1] == processes[..i] + [process];
      AllocPassSnoc(m0, processes[..i], process);
      var placed;
      placed, output := AllocateProcess(memory, process, output);
      if placed {
        finalTimeUnit := if finalTimeUnit < process.time then process.time else finalTimeUnit;
      } else {
        output := output + [Row(process.id, process.size, NotAllocated, NotApplicable)];
      }
      assert output == prev.rows + [RowFor(process, step.start)];
    }
    assert processes[..|processes|] == processes;
  }

  /** `output.find(item => item.id === id)`: the first row with that id. */
  function FindRow(rows: seq<Row>, id: nat): (r: Option<Row>)
    ensures r.None? <==> forall k :: 0 <= k < |rows| ==> rows[k].id != id
    ensures r.Some? ==> r.value.id == id && r.value in rows
    ensures forall k :: (0 <= k < |rows| && rows[k].id == id && forall j :: 0 <= j < k ==> rows[j].id != id) ==>
      r == Some(rows[k])
  {
    if rows == [] then None
    else if rows[0].id == id then Some(rows[0])
    else
      var r := FindRow(rows[1..], id);
      assert forall k :: 1 <= k < |rows| ==> rows[k] == rows[1..][k - 1];
      r
  }

  /** The time-cell update ids the lifecycles produce: each placed process's countdown, in order. */
  function ExpectedTicks(ps: seq<Process>, rows: seq<Row>): (ids: seq<nat>)
    requires |rows| == |ps|
  {
    if ps == [] then []
    else
      var last := ps[|ps| - 1];
      ExpectedTicks(ps[..|ps| - 1], rows[..|ps| - 1]) +
        if rows[|ps| - 1].blockNo.Block? then seq(ReportCount(last.time), _ => last.id) else []
  }

  /** An id that no listed process has never ticks. */
  lemma {:induction false} NotTicking(ps: seq<Process>, rows: seq<Row>, id: nat)
    requires |rows| == |ps|
    requires forall i :: 0 <= i < |ps| ==> ps[i].id != id
    ensures id !in ExpectedTicks(ps, rows)
  {
    if ps != [] {
      NotTicking(ps[..|ps| - 1], rows[..|ps| - 1], id);
    }
  }

  /**
   * The lifecycles are serialized: when process a comes before process b in
   * the sorted order, every time-cell update of a precedes every one of b.
   */
  lemma {:induction false} TicksSerialized(ps: seq<Process>, rows: seq<Row>, a: nat, b: nat, x: nat, y: nat)
    requires |rows| == |ps| && DistinctIds(ps)
    requires a < b < |ps|
    requires 0 <= x < |ExpectedTicks(ps, rows)| && 0 <= y < |ExpectedTicks(ps, rows)|
    requires ExpectedTicks(ps, rows)[x] == ps[a].id && ExpectedTicks(ps, rows)[y] == ps[b].id
    ensures x < y
  {
    var n := |ps| - 1;
    var fps, frows := ps[..n], rows[..n];
    var t, front := ExpectedTicks(ps, rows), ExpectedTicks(fps, frows);
    assert forall z :: 0 <= z < |front| ==> t[z] == front[z];
    assert forall z :: |front| <= z < |t| ==> t[z] == ps[n].id;
    assert x < |front| by {
      assert ps[a].id != ps[n].id;
    }
    if b == n {
      NotTicking(fps, frows, ps[n].id);
      assert t[y] !in front;
    } else {
      assert ps[b].id != ps[n].id;
      assert front[x] == fps[a].id && front[y] == fps[b].id;
      TicksSerialized(fps, frows, a, b, x, y);
    }
  }

  /** The ids of the placed rows from position i on. */
  function RemainingIds(rows: seq<Row>, i: nat): set<nat> {
    set k | i <= k < |rows| && rows[k].blockNo.Block? :: rows[k].id
  }

  /** Stepping past row i removes at most its own id from the remaining ones. */
  lemma RemainingStep(rows: seq<Row>, i: nat)
    requires i < |rows|
    ensures RemainingIds(rows, i) - {rows[i].id} <= RemainingIds(rows, i + 1)
    ensures !rows[i].blockNo.Block? ==> RemainingIds(rows, i) <= RemainingIds(rows, i + 1)
  {
  }

  /** The reports of the lifecycle loop so far and the memory they leave. */
  datatype Run = Run(log: seq<Event>, mem: seq<Cell>)

  /**
   * The lifecycle loop as a function: for each placed process in turn, its
   * lifecycle log starting from the memory the earlier lifecycles left, and
   * that memory with the process released and then compacted.
   */
  function Lifecycles(m: seq<Cell>, ps: seq<Process>, rows: seq<Row>,
                      compactionTime: int, coalescingHoleTime: int): (r: Run)
    requires |rows| == |ps|
    ensures |r.mem| == |m|
  {
    if ps == [] then Run([], m)
    else
      var n := |ps| - 1;
      var prev := Lifecycles(m, ps[..n], rows[..n], compactionTime, coalescingHoleTime);
      if rows[n].blockNo.Block? then
        Run(prev.log + LifecycleLog(ps[n], prev.mem, compactionTime, coalescingHoleTime),
            Compacted(Release(prev.mem, ps[n].id)))
      else prev
  }

  /** One more process: its lifecycle is appended if its row is placed. */
  lemma LifecyclesStep(m: seq<Cell>, ps: seq<Process>, rows: seq<Row>,
                       compactionTime: int, coalescingHoleTime: int, i: nat)
    requires i < |ps| == |rows|
    ensures var prev := Lifecycles(m, ps[..i], rows[..i], compactionTime, coalescingHoleTime);
      Lifecycles(m, ps[..i + 1], rows[..i + 1], compactionTime, coalescingHoleTime) ==
        if rows[i].blockNo.Block? then
          Run(prev.log + LifecycleLog(ps[i], prev.mem, compactionTime, coalescingHoleTime),
              Compacted(Release(prev.mem, ps[i].id)))
        else prev
  {
    assert ps[..i + 1][..i] == ps[..i];
    assert rows[..i + 1][..i] == rows[..i];
  }

  /** The time-cell updates of the lifecycle loop are exactly the expected ticks. */
  lemma {:induction false} LifecyclesTicks(m: seq<Cell>, ps: seq<Process>, rows: seq<Row>,
                                           compactionTime: int, coalescingHoleTime: int)
    requires |rows| == |ps|
    ensures TimeUpdateIds(Lifecycles(m, ps, rows, compactionTime, coalescingHoleTime).log) == ExpectedTicks(ps, rows)
  {
    if ps != [] {
      var n := |ps| - 1;
      var prev := Lifecycles(m, ps[..n], rows[..n], compactionTime, coalescingHoleTime);
      LifecyclesTicks(m, ps[..n], rows[..n], compactionTime, coalescingHoleTime);
      if rows[n].blockNo.Block? {
        LifecycleLogShape(ps[n], prev.mem, compactionTime, coalescingHoleTime);
        TimeUpdateIdsAppend(prev.log, LifecycleLog(ps[n], prev.mem, compactionTime, coalescingHoleTime));
      }
    }
  }

  /**
   * Lifecycles run to completion one after another: the log of the first i
   * processes, their coalescing reports included, is a prefix of the whole log.
   */
  lemma {:induction false} LifecyclesPrefix(m: seq<Cell>, ps: seq<Process>, rows: seq<Row>,
                                            compactionTime: int, coalescingHoleTime: int, i: nat)
    requires |rows| == |ps| && i <= |ps|
    ensures Lifecycles(m, ps[..i], rows[..i], compactionTime, coalescingHoleTime).log
      <= Lifecycles(m, ps, rows, compactionTime, coalescingHoleTime).log
  {
    if i == |ps| {
      assert ps[..i] == ps && rows[..i] == rows;
    } else {
      var n := |ps| - 1;
      LifecyclesPrefix(m, ps[..n], rows[..n], compactionTime, coalescingHoleTime, i);
      assert ps[..n][..i] == ps[..i] && rows[..n][..i] == rows[..i];
    }
  }

  /**
   * The lifecycle loop of `runSimulation`: for each process in sorted order
   * whose row has a block, its countdown, release and coalescing, one
   * lifecycle finishing before the next starts. The log and the memory left
   * are those of `Lifecycles`; when the loop ends every placed process has
   * released its cells, so memory is entirely free.
   */
  method RunLifecycles(memory: array<Cell>, processes: seq<Process>, output: seq<Row>,
                       compactionTime: int, coalescingHoleTime: int)
    returns (log: seq<Event>)
    requires |output| == |processes| && DistinctIds(processes)
    requires forall i :: 0 <= i < |output| ==> output[i].id == processes[i].id
    requires OwnedOnlyBy(memory[..], AllocatedIds(output))
    modifies memory
    ensures Run(log, memory[..]) == Lifecycles(old(memory[..]), processes, output, compactionTime, coalescingHoleTime)
    ensures AllFree(memory[..])
    ensures TimeUpdateIds(log) == ExpectedTicks(processes, output)
  {
    ghost var m0 := memory[..];
    log := [];
    assert RemainingIds(output, 0) == AllocatedIds(output);
    for i := 0 to |processes|
      invariant OwnedOnlyBy(memory[..], RemainingIds(output, i))
      invariant Run(log, memory[..]) == Lifecycles(m0, processes[..i], output[..i], compactionTime, coalescingHoleTime)
    {
      var process := processes[i];
      var found := FindRow(output, process.id);
      assert found == Some(output[i]) by {
        assert forall j :: 0 <= j < i ==> output[j].id != process.id by {
          assert forall j :: 0 <= j < i ==> processes[j].id != processes[i].id;
        }
      }
      LifecyclesStep(m0, processes, output, compactionTime, coalescingHoleTime, i);
      RemainingStep(output, i);
      if found.Some? && found.value.blockNo != NotAllocated {
        ghost var before := memory[..];
        var events := UpdateProcessTimes(process, memory, compactionTime, coalescingHoleTime);
        ReleaseOwners(before, process.id, RemainingIds(output, i));
        CompactedOwners(Release(before, process.id), RemainingIds(output, i) - {process.id});
        log := log + events;
      }
    }
    assert processes[..|processes|] == processes;
    assert output[..|output|] == output;
    LifecyclesTicks(m0, processes, output, compactionTime, coalescingHoleTime);
  }

  /** Everything one run hands to the renderer. */
  datatype Summary = Summary(
    output: seq<Row>,             // the allocation table, in sorted order
    finalTimeUnit: int,
    totalTime: int,               // finalTimeUnit + compactionTime + coalescingHoleTime
    smallest: Option<Request>,
    initial: seq<Cell>,           // memory after the allocation loop
    log: seq<Event>,              // every report, in order
    final: seq<Cell>)             // memory after the last lifecycle

  /** Reading the form: the processes numbered and sorted by size, and the smallest request. */
  method PrepareProcesses(requests: seq<Request>) returns (processes: seq<Process>, smallest: Option<Request>)
    ensures processes == SortBySize(Numbered(requests)) && DistinctIds(processes)
    ensures smallest.None? <==> requests == []
    ensures smallest.Some? ==> exists k :: 0 <= k < |requests| && FirstSmallest(requests, k) && requests[k] == smallest.value
  {
    var list;
    list, smallest := BuildProcesses(requests);
    var a := new Process[|list|](i requires 0 <= i < |list| => list[i]);
    assert a[..] == list;
    SortProcesses(a);
    processes := a[..];
    NumberedDistinct(requests);
    SortBySizeDistinct(list);
  }

  /** The rows of a consistent table line up with the processes, and only they own memory. */
  lemma ConsistentAligned(m: seq<Cell>, ps: seq<Process>, rows: seq<Row>)
    requires Consistent(m, ps, rows)
    ensures |rows| == |ps| && forall i :: 0 <= i < |rows| ==> rows[i].id == ps[i].id
    ensures OwnedOnlyBy(m, AllocatedIds(rows))
  {
    forall i | 0 <= i < |rows| ensures rows[i].id == ps[i].id {
      assert Agrees(m, ps[i], rows[i]);
    }
  }

  /**
   * The allocation half of `runSimulation`: a fresh all-free memory and the
   * sorted processes placed one by one.
   */
  method AllocatePhase(memorySize: nat, processes: seq<Process>)
    returns (memory: array<Cell>, output: seq<Row>, finalTimeUnit: int)
    requires DistinctIds(processes)
    ensures fresh(memory)
    ensures Pass(memory[..], output) == AllocPass(Repeat(Free, memorySize), processes)
    ensures |output| == |processes| && forall i :: 0 <= i < |output| ==> output[i].id == processes[i].id
    ensures OwnedOnlyBy(memory[..], AllocatedIds(output))
    ensures IsFinalTime(output, finalTimeUnit)
  {
    memory := new Cell[memorySize](_ => Free);
    assert memory[..] == Repeat(Free, memorySize);
    output, finalTimeUnit := AllocationPass(memory, processes);
    AllocPassConsistent(Repeat(Free, memorySize), processes);
    ConsistentAligned(memory[..], processes, output);
  }

  /**
   * `runSimulation` with the form input as parameters and every timer run
   * at once: the allocation table and initial snapshot, then the lifecycles
   * of the placed processes in sorted order, as `Lifecycles` describes them.
   */
  method RunSimulation(memorySize: nat, requests: seq<Request>, compactionTime: int, coalescingHoleTime: int)
    returns (s: Summary)
    ensures Pass(s.initial, s.output) == AllocPass(Repeat(Free, memorySize), SortBySize(Numbered(requests)))
    ensures IsFinalTime(s.output, s.finalTimeUnit)
    ensures s.totalTime == s.finalTimeUnit + compactionTime + coalescingHoleTime
    ensures s.smallest.None? <==> requests == []
    ensures s.smallest.Some? ==> exists k :: 0 <= k < |requests| && FirstSmallest(requests, k) && requests[k] == s.smallest.value
    ensures s.log != [] && s.log[0] == Snapshot(s.initial, InitialAllocation)
    ensures TimeUpdateIds(s.log) == ExpectedTicks(SortBySize(Numbered(requests)), s.output)
    ensures |s.final| == memorySize && AllFree(s.final)
    ensures var run := Lifecycles(s.initial, SortBySize(Numbered(requests)), s.output, compactionTime, coalescingHoleTime);
      s.log == [Snapshot(s.initial, InitialAllocation)] + run.log && s.final == run.mem
  {
    var processes, smallest := PrepareProcesses(requests);
    var memory, output, finalTimeUnit := AllocatePhase(memorySize, processes);
    var initial := memory[..];
    var log := RunLifecycles(memory, processes, output, compactionTime, coalescingHoleTime);
    var final := memory[..];
    var all := [Snapshot(initial, InitialAllocation)] + log;
    ghost var ticks := ExpectedTicks(processes, output);
    assert TimeUpdateIds(all) == ticks by {
      TimeUpdateIdsAppend([Snapshot(initial, InitialAllocation)], log);
      assert [Snapshot(initial, InitialAllocation)][..0] == [];
    }
    s := Summary(output, finalTimeUnit, finalTimeUnit + compactionTime + coalescingHoleTime, smallest,
                 initial, all, final);
  }

  /**
   * Ten free cells, requests of sizes 4 and 3: the size-3 process (id 2)
   * is placed first, at block 1, and the size-4 process (id 1) follows it
   * at block 4.
   */
  lemma SmallerFirstExample()
    ensures AllocPass(Repeat(Free, 10), SortBySize(Numbered([Request(4, 2), Request(3, 1)]))).rows
      == [Row(2, 3, Block(1), Units(1)), Row(1, 4, Block(4), Units(2))]
  {
    var p1, p2 := Process(1, 4, 2), Process(2, 3, 1);
    ExampleOrder();
    var m0 := Repeat(Free, 10);
    var m1 := Place(m0, p2).mem;
    ExampleFirstPlacement();
    ExampleSecondPlacement(m1);
    assert [p2, p1][..1] == [p2] && [p2][..0] == [];
    assert AllocPass(m0, [p2]) == Pass(m1, [RowFor(p2, Some(0))]);
  }

  lemma ExampleOrder()
    ensures SortBySize(Numbered([Request(4, 2), Request(3, 1)])) == [Process(2, 3, 1), Process(1, 4, 2)]
  {
    var p1, p2 := Process(1, 4, 2), Process(2, 3, 1);
    assert Numbered([Request(4, 2), Request(3, 1)]) == [p1, p2];
    assert [p1, p2][..1] == [p1] && [p1][..0] == [];
    assert SortBySize([p1]) == [p1];
    assert Insert([p1], p2) == Insert([], p2) + [p1];
  }

  lemma ExampleFirstPlacement()
    ensures Place(Repeat(Free, 10), Process(2, 3, 1)).start == Some(0)
    ensures forall k :: 0 <= k < 10 ==> Place(Repeat(Free, 10), Process(2, 3, 1)).mem[k] == if k < 3 then Owned(2) else Free
  {
    assert Fits(Repeat(Free, 10), 0, 3);
  }

  lemma ExampleSecondPlacement(m1: seq<Cell>)
    requires |m1| == 10 && forall k :: 0 <= k < 10 ==> m1[k] == if k < 3 then Owned(2) else Free
    ensures Place(m1, Process(1, 4, 2)).start == Some(3)
  {
    assert !Fits(m1, 0, 4) && !Fits(m1, 1, 4) && !Fits(m1, 2, 4) by {
      assert m1[2] == Owned(2);
    }
    assert Fits(m1, 3, 4);
  }

  /** Three free cells and a request for five: the process is not allocated and memory stays free. */
  lemma TooLargeExample()
    ensures AllocPass(Repeat(Free, 3), SortBySize(Numbered([Request(5, 1)])))
      == Pass(Repeat(Free, 3), [Row(1, 5, NotAllocated, NotApplicable)])
  {
    var p := Process(1, 5, 1);
    assert Numbered([Request(5, 1)]) == [p];
    TooLargeNeverFits(Repeat(Free, 3), 5);
  }
}
