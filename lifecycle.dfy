/**
 * One process's lifecycle after allocation (`updateProcessTimes`): a
 * countdown of its time cell, then 'Completed', then the release of its
 * memory and a coalescing pass. The one-second interval and the compaction
 * timeout are run as immediate, consecutive steps.
 */
module Lifecycle {
  import opened Cells
  import opened Reports
  import opened Freeing
  import opened Coalescing

  /** How many values the time cell shows: time, time-1, ..., 0 (or just time), then 'Completed'. */
  function ReportCount(time: int): nat {
    if time > 0 then time + 2 else 2
  }

  /** The ids of the time-cell updates in events, in order. */
  function TimeUpdateIds(events: seq<Event>): (ids: seq<nat>)
    ensures |ids| <= |events|
  {
    if events == [] then []
    else
      var last := events[|events| - 1];
      TimeUpdateIds(events[..|events| - 1]) + if last.TimeUpdate? then [last.id] else []
  }

  lemma {:induction false} TimeUpdateIdsAppend(a: seq<Event>, b: seq<Event>)
    ensures TimeUpdateIds(a + b) == TimeUpdateIds(a) + TimeUpdateIds(b)
  {
    if b != [] {
      assert (a + b)[..|a + b| - 1] == a + b[..|b| - 1];
      TimeUpdateIdsAppend(a, b[..|b| - 1]);
    } else {
      assert a + b == a;
    }
  }

  /** n time-cell updates for id, then no more. */
  lemma {:induction false} TimeUpdateIdsOfUpdates(events: seq<Event>, id: nat)
    requires forall k :: 0 <= k < |events| ==> events[k].TimeUpdate? && events[k].id == id
    ensures TimeUpdateIds(events) == seq(|events|, _ => id)
  {
    if events != [] {
      TimeUpdateIdsOfUpdates(events[..|events| - 1], id);
    }
  }

  /** The values the time cell shows over a lifecycle: time, time-1, ..., then 'Completed'. */
  function CountdownReports(time: int): seq<Report> {
    seq(ReportCount(time) - 1, k => Remaining(time - k)) + [Completed]
  }

  /** The time-cell updates of process id showing reports in turn. */
  function TimeUpdates(id: nat, reports: seq<Report>): seq<Event> {
    seq(|reports|, k requires 0 <= k < |reports| => TimeUpdate(id, reports[k]))
  }

  /**
   * Everything one lifecycle of p reports when it starts from memory m: its
   * countdown, then what the coalescing pass reports for m with p released.
   */
  function LifecycleLog(p: Process, m: seq<Cell>, compactionTime: int, coalescingHoleTime: int): seq<Event> {
    TimeUpdates(p.id, CountdownReports(p.time)) + CoalesceEvents(Release(m, p.id), compactionTime, coalescingHoleTime)
  }

  /**
   * The shape of one lifecycle's log: ReportCount(time) - 1 remaining-time
   * values counting down from time, then 'Completed', then one or two
   * coalescing reports, which are not time-cell updates.
   */
  lemma LifecycleLogShape(p: Process, m: seq<Cell>, compactionTime: int, coalescingHoleTime: int)
    ensures var log := LifecycleLog(p, m, compactionTime, coalescingHoleTime);
      var n := ReportCount(p.time);
      && n + 1 <= |log| <= n + 2
      && (forall k :: 0 <= k < n - 1 ==> log[k] == TimeUpdate(p.id, Remaining(p.time - k)))
      && log[n - 1] == TimeUpdate(p.id, Completed)
      && log[n..] == CoalesceEvents(Release(m, p.id), compactionTime, coalescingHoleTime)
      && TimeUpdateIds(log) == seq(n, _ => p.id)
  {
    var updates := TimeUpdates(p.id, CountdownReports(p.time));
    var coalescing := CoalesceEvents(Release(m, p.id), compactionTime, coalescingHoleTime);
    assert LifecycleLog(p, m, compactionTime, coalescingHoleTime) == updates + coalescing;
    TimeUpdateIdsAppend(updates, coalescing);
    TimeUpdateIdsOfUpdates(updates, p.id);
    assert TimeUpdateIds(coalescing) == [] by {
      assert coalescing[..0] == [];
      if |coalescing| == 2 { assert coalescing[..1] == [coalescing[0]]; }
    }
  }

  /**
   * The interval callback of `updateProcessTimes` run to the end: the time
   * cell first shows `time`; while the remaining time is positive each tick
   * decrements it and shows the new value; the first tick that finds it at
   * or below zero shows 'Completed'.
   */
  method Countdown(time: int) returns (reports: seq<Report>)
    ensures |reports| == ReportCount(time)
    ensures forall k :: 0 <= k < |reports| - 1 ==> reports[k] == Remaining(time - k)
    ensures reports[|reports| - 1] == Completed
    ensures reports == CountdownReports(time)
  {
    var timeRemaining := time;
    reports := [Remaining(timeRemaining)];
    while timeRemaining > 0
      invariant time > 0 ==> 0 <= timeRemaining <= time
      invariant time <= 0 ==> timeRemaining == time
      invariant |reports| == time - timeRemaining + 1
      invariant forall k :: 0 <= k < |reports| ==> reports[k] == Remaining(time - k)
    {
      timeRemaining := timeRemaining - 1;
      reports := reports + [Remaining(timeRemaining)];
    }
    reports := reports + [Completed];
    assert reports == CountdownReports(time) by {
      var expected := CountdownReports(time);
      assert |expected| == |reports|;
      forall k | 0 <= k < |reports|
        ensures reports[k] == expected[k]
      {
        if k == |reports| - 1 {
          assert expected[k] == Completed;
        } else {
          assert expected[k] == Remaining(time - k);
        }
      }
    }
  }

  /**
   * `updateProcessTimes(process, memory, ...)`: the countdown of the
   * process's time cell, then its memory is freed and coalesced; the events
   * are exactly the lifecycle log of p from the memory it started with.
   */
  method UpdateProcessTimes(p: Process, memory: array<Cell>, compactionTime: int, coalescingHoleTime: int)
    returns (events: seq<Event>)
    modifies memory
    ensures memory[..] == Compacted(Release(old(memory[..]), p.id))
    ensures events == LifecycleLog(p, old(memory[..]), compactionTime, coalescingHoleTime)
  {
    ghost var m0 := memory[..];
    var reports := Countdown(p.time);
    var updates := seq(|reports|, k requires 0 <= k < |reports| => TimeUpdate(p.id, reports[k]));
    assert updates == TimeUpdates(p.id, CountdownReports(p.time));
    FreeMemory(p.id, memory);
    var coalescing := CoalesceMemory(memory, compactionTime, coalescingHoleTime);
    events := updates + coalescing;
  }

  /** After its lifecycle a process owns no cell and every other owner keeps its count. */
  lemma {:induction false} LifecycleCounts(m: seq<Cell>, id: nat, c: Cell)
    ensures Owned(id) !in Compacted(Release(m, id))
    ensures c != Owned(id) && c != Free ==> Count(Compacted(Release(m, id)), c) == Count(m, c)
  {
    CompactedCounts(Release(m, id), Owned(id));
    ReleaseCounts(m, id, Owned(id));
    CountZero(Compacted(Release(m, id)), Owned(id));
    CompactedCounts(Release(m, id), c);
    ReleaseCounts(m, id, c);
  }
}
