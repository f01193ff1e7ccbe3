# Memory allocation simulator — a Dafny model of its engine

The simulator takes a memory size, a list of processes (each a size in cells
and a duration in time units) and two delays. It numbers the processes from 1,
sorts them by size, and places each one in a flat memory of cells. The
placement scan is named "best fit" but is really first fit. The simulator then
reports an allocation table and a memory snapshot. Finally it runs each placed
process to completion, one after the other: a countdown of its time cell, then
the release of its cells, then a coalescing pass. The coalescing pass measures
a hole and compacts the occupied cells to the front of memory.

This project models that engine, `runSimulation` and the functions it calls in
`its150l-func.js`, in these modules:

- `Cells` (cells.dfy): a memory cell is `Free` (the JavaScript `null`) or
  `Owned(id)`. It also defines processes and cell counting.
- `Ordering` (ordering.dfy): `processes.sort((a, b) => a.size - b.size)`. It is
  specified by a stable insertion function `SortBySize` and done in place on an
  array by `SortProcesses`.
- `Placement` (placement.dfy): `allocateProcess`. `FirstFit` is the
  specification. `FindBestFit` is the scan loop as written, and
  `AllocateProcess` fills the block and appends the table row.
- `Freeing` (freeing.dfy): `freeMemory`.
- `Coalescing` (coalescing.dfy): the hole scan of `coalesceMemory`
  (`MeasureHole`, specified by `LastHole`), the compaction (`Compact`,
  specified by `Compacted`) and the whole of `coalesceMemory`.
- `Reports` (reports.dfy): what the engine hands to the renderer. These are
  time-cell updates, memory snapshots with their phase label, and the
  "compaction completed" message.
- `Lifecycle` (lifecycle.dfy): the countdown and the rest of
  `updateProcessTimes`.
- `Simulation` (simulation.dfy): the input loop, the allocation loop, the
  lifecycle loop and `runSimulation` as a whole.

Each loop of the source is a Dafny method with a `while` or `for` loop. Memory
is an `array<Cell>` that the methods update in place. Each method's results,
its reports included, and the memory it leaves are proved equal to functions
on sequences (`SortBySize`, `FirstFit`, `Place`, `Release`, `LastHole`,
`Compacted`, `CoalesceEvents`, `CountdownReports`, `LifecycleLog`, `AllocPass`,
`Lifecycles`), and the properties are proved about those functions.

After the last release, memory is entirely free. Fully free memory measures
as one hole as long as memory (`AllFreeIsOneHole`), so it is compacted again
and "After Compaction" is reported (`CoalesceMemory`).

## Model

| member | source | states |
|---|---|---|
| Ordering.SortProcesses | its150l-func.js:65 | the in-place sort leaves the array holding exactly `SortBySize` of its old contents |
| Ordering.InsertNext | its150l-func.js:65 | one insertion step: element i moves past the larger elements of the sorted prefix and lands after its equals; the rest of the array is unchanged |
| Ordering.SortBySizeSorted | its150l-func.js:65 | `SortBySize` of any sequence of processes is ascending by size. |
| Ordering.SortBySizePermutes | its150l-func.js:65 | sorting is a permutation: same multiset of processes |
| Ordering.SortBySizeStable | its150l-func.js:65 | for every size, the processes of that size keep their submission order (stability) |
| Ordering.SortBySizeDistinct | its150l-func.js:65 | sorting keeps process ids distinct |
| Ordering.InsertSorted | its150l-func.js:65 | inserting into an ascending sequence keeps it ascending |
| Ordering.InsertMembers | its150l-func.js:65 | insertion adds exactly the new process to the multiset and the membership |
| Ordering.InsertOfSize | its150l-func.js:65 | insertion appends the new process after the existing processes of its size |
| Ordering.InsertAt | its150l-func.js:65 | insertion puts the process after the prefix of no larger sizes and before the strictly larger rest |
| Placement.FirstFit | its150l-func.js:114-122 | the chosen offset has `size` free cells, no smaller offset does, and there is none exactly when no offset fits |
| Placement.FindBestFit | its150l-func.js:110-122 | the scan as written, with a best-fit size kept and replaced only on strictly smaller slices, returns -1 exactly when nothing fits and otherwise the first-fit offset |
| Placement.ZeroSizeFitsAtZero | its150l-func.js:114-120 | a process of size 0 is always placed, at offset 0 |
| Placement.TooLargeNeverFits | its150l-func.js:114 | a process larger than memory is never placed |
| Placement.Place | its150l-func.js:124-130 | on success exactly the cells [start, start + size) become the process's and nothing else changes; on failure memory is untouched |
| Placement.PlaceCounts | its150l-func.js:125 | placing takes `size` free cells and gives them to the process; every other cell count is unchanged |
| Placement.PlaceOccupied | its150l-func.js:125 | placing raises occupancy by exactly the process size, or not at all |
| Placement.RowFor | its150l-func.js:126 | a placed row carries the 1-based block number and the time; an unplaced row carries 'Not Allocated' and 'N/A' |
| Placement.AllocateProcess | its150l-func.js:109-131 | memory becomes `Place` of the old memory, the answer is whether a block was found, and the row is appended only on success |
| Freeing.Release | its150l-func.js:157-163 | the released id owns no cell afterwards; its cells become free and every other cell is unchanged |
| Freeing.ReleaseCounts | its150l-func.js:157-163 | the id's count drops to 0, the free count grows by the same amount, and every other count is unchanged |
| Freeing.ReleaseOccupied | its150l-func.js:157-163 | occupancy drops by exactly the cells the process owned |
| Freeing.ReleaseOwners | its150l-func.js:157-163 | after release the id is no longer among the owners |
| Freeing.FreeMemory | its150l-func.js:157-163 | the loop leaves memory equal to `Release` of the old memory |
| Coalescing.TrailingFree | its150l-func.js:181-183 | the last n cells are free and the cell before them, if any, is not: n is the length of the maximal free run at the end of memory |
| Coalescing.TrailingFreeRun | its150l-func.js:181-183 | any free run that reaches the end of memory and is preceded by an occupied cell or the start has length `TrailingFree`, so the trailing run is unique |
| Coalescing.LastHoleIsLastRun | its150l-func.js:166-183 | the measured hole is the length of the last maximal free run: the last closed hole, or the hole still open at the end |
| Coalescing.LastHolePositive | its150l-func.js:181-186 | the measured hole is positive exactly when memory has a free cell, so compaction happens exactly then |
| Coalescing.AllFreeIsOneHole | its150l-func.js:181-183 | fully free memory measures as one hole of its whole length |
| Coalescing.MeasureHole | its150l-func.js:166-183 | the scan with its -1 sentinel returns `LastHole` of memory, positive exactly when a cell is free |
| Coalescing.NonFreeCounts | its150l-func.js:190-194 | the copied cells are the occupied ones, with every owner's count kept |
| Coalescing.NonFreeLength | its150l-func.js:190-194 | the number of cells copied to the front is the occupancy |
| Coalescing.NonFreeMembers | its150l-func.js:190-194 | a cell value is copied exactly when it occurs in memory and is not free |
| Coalescing.NonFreeNoHole | its150l-func.js:190-194 | with no free cell, every cell is copied in place |
| Coalescing.NonFreeOfFree | its150l-func.js:190-194 | from fully free memory nothing is copied |
| Coalescing.NonFreeAppend | its150l-func.js:190-194 | the copy of two concatenated pieces is the concatenation of their copies, so relative order is kept |
| Coalescing.CompactedShape | its150l-func.js:188-195 | after compaction the first `Occupied` cells are the occupied cells in their old order and the rest are free |
| Coalescing.CompactedCounts | its150l-func.js:188-195 | compaction keeps every cell count: no process gains or loses cells |
| Coalescing.CompactedNoHole | its150l-func.js:188-195 | compaction of memory with no free cell changes nothing |
| Coalescing.CompactedIdempotent | its150l-func.js:188-195 | compacting twice is compacting once |
| Coalescing.CompactedOwners | its150l-func.js:188-195 | compaction introduces no new owner |
| Coalescing.CompactedExample | its150l-func.js:188-195 | [1, free, 2, free, 3] compacts to [1, 2, 3, free, free] |
| Coalescing.Compact | its150l-func.js:188-195 | the copy into a fresh all-free array and the splice back leave memory equal to `Compacted` of the old memory |
| Coalescing.CoalesceMemory | its150l-func.js:165-202 | its reports are `CoalesceEvents` of the old memory: with a free cell, memory is compacted and the completion message (compaction plus coalescing time) and an "After Compaction" snapshot are reported; with none, memory is unchanged and a "No Coalescing Needed" snapshot is reported |
| Lifecycle.Countdown | its150l-func.js:135-153 | the time cell shows time, time-1, ..., 0 (only time when time is 0 or less) and then 'Completed': `ReportCount(time)` reports in all, which are `CountdownReports(time)` |
| Lifecycle.TimeUpdateIdsAppend | its150l-func.js:137-151 | the time-cell updates of two consecutive logs are those of the first followed by those of the second |
| Lifecycle.LifecycleLogShape | its150l-func.js:133-155 | one lifecycle's log is the countdown from time as time-cell updates of the process, then 'Completed' at position `ReportCount(time) - 1`, then the one or two coalescing reports for memory with the process released; its time-cell updates are exactly `ReportCount(time)` updates of this id |
| Lifecycle.UpdateProcessTimes | its150l-func.js:133-155 | the events are exactly `LifecycleLog` of the process from the old memory (countdown, 'Completed', then the coalescing reports), and memory becomes `Compacted(Release(old memory, id))` |
| Lifecycle.LifecycleCounts | its150l-func.js:144-146 | after a lifecycle the process owns no cell and every other process keeps its cell count |
| Simulation.NumberedDistinct | its150l-func.js:56 | the numbered processes have distinct ids |
| Simulation.BuildProcesses | its150l-func.js:53-62 | the processes are numbered i + 1 in form order; the smallest is absent exactly for an empty form, else it is the first request of least size (strict `<`) |
| Simulation.AllocPass | its150l-func.js:69-79 | the table has one row per process, in sorted order, with that process's id and size, and memory keeps its length |
| Simulation.AllocPassSnoc | its150l-func.js:69-79 | one more process is placed in the memory the earlier ones left, and its row is appended |
| Simulation.PlaceKeepsConsistent | its150l-func.js:69-78 | placing a process with a new id keeps memory and table consistent |
| Simulation.AllocPassConsistent | its150l-func.js:67-79 | from all-free memory, each placed row's block holds exactly its process's cells, an unplaced process owns no cell, only placed ids own cells, and occupancy equals the total placed size, at most memory size |
| Simulation.ConsistentAligned | its150l-func.js:67-79 | in a consistent table the rows line up with the processes and only placed processes own memory |
| Simulation.FinalTimeStep | its150l-func.js:75 | the running maximum of placed durations stays the maximum when a row is appended |
| Simulation.AllocationPass | its150l-func.js:67-79 | the loop leaves memory and table equal to `AllocPass` of the sorted processes, and `finalTimeUnit` is the largest placed duration, or 0 when none is positive |
| Simulation.FindRow | its150l-func.js:103 | `output.find` by id gives nothing exactly when no row has the id, and otherwise the first row with it |
| Simulation.NotTicking | its150l-func.js:102-105 | an id no process has gets no time-cell update |
| Simulation.TicksSerialized | its150l-func.js:101-106 | when process a comes before process b in sorted order, every time-cell update of a precedes every update of b |
| Simulation.RemainingStep | its150l-func.js:102-106 | stepping past a row removes at most its own id from the owners still to run |
| Simulation.Lifecycles | its150l-func.js:101-106 | the lifecycle loop as a fold of `LifecycleLog` over the placed processes in sorted order, passing memory on through `Compacted(Release(·))`; memory keeps its length |
| Simulation.LifecyclesStep | its150l-func.js:101-106 | one more process appends its whole lifecycle log if its row is placed, and nothing otherwise |
| Simulation.LifecyclesTicks | its150l-func.js:101-106 | the time-cell updates of the lifecycle log are exactly `ExpectedTicks`, so `TicksSerialized` applies to it |
| Simulation.LifecyclesPrefix | its150l-func.js:101-106 | the log of the first i processes, their coalescing reports included, is a prefix of the whole log: each lifecycle completes before any later one reports |
| Simulation.RunLifecycles | its150l-func.js:101-106 | the log and the memory left are exactly `Lifecycles` of the old memory; the time-cell updates are `ExpectedTicks`, and afterwards memory is entirely free |
| Simulation.PrepareProcesses | its150l-func.js:53-65 | the processes are numbered, sorted by size and distinct, and the smallest request is reported as in `BuildProcesses` |
| Simulation.AllocatePhase | its150l-func.js:67-79 | fresh all-free memory and table equal `AllocPass` of the sorted processes, with aligned rows and only placed owners |
| Simulation.RunSimulation | its150l-func.js:42-107 | the snapshot and table are `AllocPass` of the sorted, numbered requests; final time and total time; the smallest request; the log is the "Initial Allocation" snapshot followed by `Lifecycles` of that snapshot, and the final memory is the memory `Lifecycles` leaves; the time-cell updates are those of the placed processes in sorted order; memory ends fully free |
| Simulation.SmallerFirstExample | its150l-func.js:65-79 | 10 cells with requests of sizes 4 and 3: process 2 gets block 1 and process 1 gets block 4 |
| Simulation.TooLargeExample | its150l-func.js:69-78 | 3 cells with a request of size 5: the process is 'Not Allocated' and memory stays free |

## Left out

- The form, the DOM and `parseInt` (lines 3-35, 43-46, 54-55) are left out. Memory size, requests and delays are parameters, and sizes are `nat`. Negative or NaN sizes, which the form could produce, are not modelled.
- `updateChart`, `updateTable` and `updateTableRow` (rendering with Chart.js and HTML) are left out. The engine returns its table rows, snapshots (`Snapshot`) and time-cell updates (`TimeUpdate`) instead. After compaction the source passes the label in the `allocationStatus` argument and no title; the model records only the phase.
- The displayed values on lines 86-99 are left out. The model returns the final time, the total time (`finalTimeUnit + compactionTime + coalescingHoleTime`) and the smallest request. The division by 1000 for display is floating point and is left out.
- `successfulAllocations` (line 74) only feeds the chart and is left out.
- Timers are left out: `setInterval`, both `setTimeout`s and `await` run as immediate, consecutive steps. In the source, `resolve()` fires after `coalesceMemory` returns, while the compaction itself is scheduled by a second timeout. The next lifecycle's timers can therefore interleave with a pending compaction. The model runs each compaction before the next lifecycle starts.
- The array sort used by the JavaScript engine is not modelled. `SortProcesses` is an insertion sort proved to produce the stable ascending-by-size order. ECMAScript 2019 and later require `Array.prototype.sort` to be stable, so the result is the same.
- Placement.AllocateProcess: the fill of the block (`memory.fill`) is a `forall` statement rather than a loop.
- Coalescing.CompactedShape: states the occupied cells in their old order at the front, but not that each process's cells stay contiguous after compaction. Contiguity is proved only right after allocation (`AllocPassConsistent`).
- Simulation.RunSimulation: states the table and snapshot as `AllocPass` of the sorted requests. That they are consistent (blocks match the table, occupancy equals the placed size) is `AllocPassConsistent` about the same function, not repeated in this contract.
