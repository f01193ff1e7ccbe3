/**
 * What the engine hands to the renderer: table updates and memory
 * snapshots. Drawing them (Chart.js, the HTML table) is the renderer's job.
 */
module Reports {
  import opened Cells

  /** A value written into a process's time cell: remaining units, or 'Completed'. */
  datatype Report = Remaining(units: int) | Completed

  /** The label a memory snapshot is drawn with. */
  datatype Phase = InitialAllocation | NoCoalescingNeeded | AfterCompaction

  datatype Event =
    | TimeUpdate(id: nat, report: Report)         // updateTableRow(id, value)
    | Snapshot(memory: seq<Cell>, phase: Phase)   // updateChart(memory, ...)
    | CompactionDone(totalTime: int)              // the 'completed in ... ms' message
}
