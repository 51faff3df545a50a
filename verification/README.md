# Trace analysis filters: a verified model

The trace streamer turns an unbounded stream of events into tables. Its filters are state machines
that update maps, stacks and table rows in place. This project models the hardest of them, and the
small algorithms around them, in Dafny, and proves what every run keeps.

Each filter is written twice. A datatype holds its whole state, and a function per event gives the
next state; theorems are proved about every run of these functions. A class holds the fields that
the filter updates, and its methods, with the loops of the source, are proved to do to the fields
exactly what the functions do to the state.

| component | files |
|---|---|
| Offline symbolization, its cache and its invalidation | `AddressMaps`, `Symbolization`, `SymbolFrames`, `NativeHook`, `NativeHookTheorems`, `CacheCoherence`, `TableScan`, `ChainFreshness`, `ChainRuns`, `StaleRuns`, `NativeHookFilter` |
| Reorder buffer and heap pairing of the native hook | `ReorderBuffer`, `HeapPairing`, `HeapRecords`, `HeapRuns` |
| CPU scheduling timelines | `CpuFilter`, `CpuTimelines`, `CpuRecords`, `ThreadStates`, `CpuSwitches` |
| Lanes for overlapping slices | `LaneAssignment`, `LaneGuard` |
| Call slices and asynchronous slices | `SliceFilter`, `SliceForest`, `SliceStacks`, `SliceEnds`, `SliceRecords`, `SliceBrackets`, `NestedMaps`, `AsyncSlices` |
| Process and thread identity | `ProcessFilter`, `ProcessIdentity`, `ProcessRecords` |
| Protobuf reader | `ProtoWire`, `ProtoBytes`, `ProtoReader` |
| Frame life cycle | `FrameFilter`, `FrameLifeCycle`, `FrameRecords` |
| Subset choice, constraint text, clocks | `FreeSize`, `Decimal`, `FilterConstraints`, `ConstraintText`, `ClockFilter` |

`Words` holds the machine words, `Chunks` what it means for one sequence to stand inside another. `dafny verify dfyconfig.toml` checks the whole project.

## How the code is read

- A `std::map` or `std::multimap` is a sequence in key order, or a Dafny map where the order of keys is not
  used; an iterator is an index. `multimap` keeps equal keys in insertion order.
- Column stores are sequences of rows. Unsigned arithmetic wraps at 2^64 where the source lets it.
- Interned names stand for themselves: the dictionary is taken to be injective.
- `native_hook_filter.cpp:665-669` erases from the cache while it iterates over it. The model removes every
  cached frame of the file, which is what the loop is for.
- `native_hook_filter.cpp:670-680` looks for the address range of a replaced table with a 32-bit sentinel and stops
  after the first run of maps of the file. The model does the same; `ScanCoversIff` says exactly when that is
  the whole file.
- A stack is fresh if it has no call chain, or the rows of its chain are the uncached lookups of its ips under the
  current maps and tables. An event is timely for a stack if it meets the condition of `TimelyMap` or `TimelyTable`,
  which read the state before the event. The runs of `ChainRuns` are those of `RunSound` in which a stack id is
  registered once.
- `slice_filter.cpp:258-262` sets the duration of the entry it has just read, to the value it has. The model
  therefore leaves the rows alone there.
- A root slice gets a parent that holds INVALID_UINT32 (`slice_filter.cpp:314-317`); in the model a root has no parent.
- `ThreadStateData::End` writes -1, the value an open row already has, so it changes nothing.
- `VarIntDecode` combines digits with a bitwise or of disjoint bits; the model adds them and
  `ProtoReader.NextDigit` shows that the sum never carries.
- `FilterConstraints::FromString` crashes on a failed assertion in a debug build; `Parse` returns `Failed` there.

Where the code does not meet a property, the code is kept, a run or an input shows the failure, and the exact
condition is proved:

| what fails | shown by | exact condition |
|---|---|---|
| The first symbol table of a file does not invalidate cached frames. | `LateFirstTable` | `FirstTableCoherentIff` |
| A map whose end is not after its start hides what lies behind it. | `EmptyMapInside` | `EmptyMapCoherentIff` |
| A stack parsed before its map arrives keeps a chain without its frame. | `LateMap` | `MapsFreshIff`, `StackFreshIff`, `RunGoodIff` |
| The scan for a replaced symbol table misses maps of the file, and a stack with a moved ip keeps its chain. | `SplitFileStale`, `ScanMisses` | `ScanCoversIff`, `TableFreshIff`, `StackFreshIff`, `RunGoodIff` |
| More disorder than the buffer holds is handled out of order. | `StragglerMisordered` | `BufferSortsIff` |
| An end that is already a key of the lane table loses a lane, and overlapping slices share one. | `EqualEndsCollide`, `LostLaneCollides` | `CalcGoodIff`, `GuardedIff`, `SafeIff` |
| A field id above 65535 is skipped without its value. | `BigIdDerails` | `ConsumedIff`, `DeliveredIff` |
| `FindDataArea` does not come to an end on some truncated buffers. | `TruncatedFieldHangs` | `FindEndsIff` |
| Asking for a thread with pid 0 is not stable. | `ZeroPidMoves` | `ZeroPidAgreesIff` |
| Converting a time there and back can miss, when the clocks drift between snapshots. | `DriftBreaksRoundTrip` | `RoundTripIff` |

## Model

| member | source | states |
|---|---|---|
| `AddressMaps.RangeShape` | trace_streamer/src/filter/native_hook_filter.cpp:464-515 | The invalidation range is never inverted; its upper end is open or the start of a stored map. |
| `AddressMaps.RangeCovers` | trace_streamer/src/filter/native_hook_filter.cpp:464-515 | Every stored map that overlaps the new one lies in the range, and the range then counts as a conflict. |
| `AddressMaps.RangeExact` | trace_streamer/src/filter/native_hook_filter.cpp:464-515 | Exactly where the range opens and closes, from the runs of equal files around the touched maps. |
| `AddressMaps.MapsStayDisjoint` | trace_streamer/src/filter/native_hook_filter.cpp:596-624 | After a maps event with start < end the stored maps are pairwise disjoint, hold the new map, and lack exactly the maps of the range: the final insert never collides. |
| `Symbolization.NearestIsIndexPredecessor` | trace_streamer/src/filter/offline_symbolization_filter.cpp:116-130 | The symbol found is the entry of the greatest indexed address at or below the looked-up one, and none only if all are above. |
| `Symbolization.BuildIndex` | trace_streamer/src/filter/native_hook_filter.cpp:627-640 | The loop over symbol entries builds the index in which the last function symbol of an address wins. |
| `Symbolization.CoveringContains` | trace_streamer/src/filter/offline_symbolization_filter.cpp:55-79 | Among disjoint maps the selected map is the one that contains the address. |
| `Symbolization.CoveringAfterMaps` | trace_streamer/src/filter/native_hook_filter.cpp:596-624 | Outside the invalidation range a maps event changes no covered address. |
| `SymbolFrames.LookupDescribes` | trace_streamer/src/filter/offline_symbolization_filter.cpp:39-148 | Among disjoint maps an ip has a frame if and only if a map with a file contains it. The frame's virtual address lies as far from the text segment as the ip's file offset does, modulo 2^64; it has the name, offset and symbol offset of the last function symbol of the greatest value at or below that address if the symbol reaches it and its name lies in the string table; otherwise the fallback values. |
| `SymbolFrames.CachedFramesDescribe` | trace_streamer/src/filter/offline_symbolization_filter.cpp:80-148 | Over every admissible run every cached frame is described in this way by its map and table. |
| `SymbolFrames.FramesAreLookups` | trace_streamer/src/filter/offline_symbolization_filter.cpp:25-38 | The fresh frames of a stack are the lookups of its ips, up to the first one without. |
| `CacheCoherence.SymbolizeStackIsFresh` | trace_streamer/src/filter/offline_symbolization_filter.cpp:25-38 | With a coherent cache a stack resolves to the uncached lookups up to the first failure, and the cache stays coherent. |
| `CacheCoherence.StepSound` | trace_streamer/src/filter/native_hook_filter.cpp:577-695 | Every admissible event keeps maps disjoint and the cache coherent. |
| `CacheCoherence.RunSound` | trace_streamer/src/filter/native_hook_filter.cpp:577-695 | Over every run with non-empty maps and timely first tables, each cached frame equals an uncached lookup under the current maps and tables. |
| `CacheCoherence.FirstTableCoherentIff` | trace_streamer/src/filter/native_hook_filter.cpp:683-685 | A file's first table keeps coherence if and only if it moves no cached frame of the file. |
| `CacheCoherence.EmptyMapCoherentIff` | trace_streamer/src/filter/native_hook_filter.cpp:464-515 | A map with start >= end keeps coherence if and only if no cached ip lies behind its start in its own map. |
| `CacheCoherence.SymbolizeCaches` | trace_streamer/src/filter/offline_symbolization_filter.cpp:25-38 | Exactly the symbolized ips of a stack are added to the cache. |
| `CacheCoherence.MapsErase` | trace_streamer/src/filter/native_hook_filter.cpp:596-624 | A maps event takes from the cache exactly the ips of the range. |
| `CacheCoherence.TableErases` | trace_streamer/src/filter/native_hook_filter.cpp:665-669 | A replaced table takes from it exactly the frames of its file. |
| `StaleRuns.LateFirstTable` | trace_streamer/src/filter/native_hook_filter.cpp:683-685 | A map, a stack, a table of another file twice, which parses the stack, and then the first table of the mapped file: the cache, coherent before, holds a frame that a lookup no longer gives, whatever the capacity. |
| `StaleRuns.EmptyMapInside` | trace_streamer/src/filter/native_hook_filter.cpp:464-515 | After the same start an empty map inside the mapped one leaves a cached frame that no lookup gives. |
| `TableScan.ScanCoversIff` | trace_streamer/src/filter/native_hook_filter.cpp:670-680 | The range scanned for a replaced table reaches all maps of the file if and only if they form one run or start above the sentinel. |
| `TableScan.ScanMisses` | trace_streamer/src/filter/native_hook_filter.cpp:670-680 | For a file mapped on both sides of another one the range ends with its first map. |
| `ChainRuns.MapsFreshIff` | trace_streamer/src/filter/native_hook_filter.cpp:596-624 | A map keeps the chain of a fresh stack up to date if and only if the stack, as read off the state before, loses its chain or did not end, for want of a map, inside the new one. |
| `ChainRuns.TableFreshIff` | trace_streamer/src/filter/native_hook_filter.cpp:641-695 | A symbol table, first or replacing, does so if and only if the stack, as read off the state before, loses its chain or none of its symbolized ips moves. |
| `ChainRuns.FirstTableSteadyIff` | trace_streamer/src/filter/native_hook_filter.cpp:683-685 | For a first table: if and only if every symbolized ip of the file stays where it is. |
| `ChainRuns.CoveredScanIsTimely` | trace_streamer/src/filter/native_hook_filter.cpp:670-680 | A replacing table whose scan reaches all maps of the file is timely for every stack. |
| `ChainRuns.StepFreshIff` | trace_streamer/src/filter/native_hook_filter.cpp:541-695 | Any event keeps a fresh stack fresh if and only if it is timely for the stack, a condition on the state before the event. |
| `ChainRuns.StepHandlesIff` | trace_streamer/src/filter/native_hook_filter.cpp:421-461 | Whatever a step handles of a registered stack gets a chain, and the chain holds the fresh frames if and only if the stack was fresh. |
| `ChainRuns.StackFreshIff` | trace_streamer/src/filter/native_hook_filter.cpp:541-695 | From any point of a run at which one stack is fresh, it stays fresh after every event if and only if every later event is timely for it, whatever happens to other stacks. |
| `ChainRuns.RunGoodIff` | trace_streamer/src/filter/native_hook_filter.cpp:541-695 | Over every such run the chains in use hold exactly the fresh symbolization of their stacks throughout if and only if every maps and table event is timely. |
| `ChainRuns.HandledFreshIff` | trace_streamer/src/filter/native_hook_filter.cpp:421-461 | In every such run an entry has, in the final table, the fresh frames of its stack under the maps and tables in force when it was handled, if and only if the stack was fresh then. |
| `ChainRuns.HandledFresh` | trace_streamer/src/filter/native_hook_filter.cpp:421-461 | It has them if every event from a point at which the stack was fresh up to the handling one was timely for that stack. |
| `ChainRuns.HandlerExists` | trace_streamer/src/filter/native_hook_filter.cpp:421-461 | Every handled entry was handled by some event of the run. |
| `ChainRuns.RowsStay` | trace_streamer/src/filter/native_hook_filter.cpp:517-540 | The rows of a chain never change once it exists. |
| `StaleRuns.LateMap` | trace_streamer/src/filter/native_hook_filter.cpp:596-624 | A stack, a table of another file twice, which parses the stack, and then the map of its ip: the stack keeps a chain without rows where a lookup gives its frame. |
| `StaleRuns.SplitFileStale` | trace_streamer/src/filter/native_hook_filter.cpp:641-695 | For a file mapped on both sides of another one, a stack in its upper map keeps a stale chain when the table is replaced by one that moves its ip. |
| `NativeHookTheorems.BothParsed` | trace_streamer/src/filter/native_hook_filter.cpp:541-552 | Once both waiting maps are parsed they are empty, no chain is lost, and every registered stack has one. |
| `NativeHookTheorems.RunById` | trace_streamer/src/filter/native_hook_filter.cpp:60-68 | The three maps from stack id to frames are ordered by id in every run. |
| `NativeHookTheorems.StackQueued` | trace_streamer/src/filter/native_hook_filter.cpp:60-68 | In every run a stack event registers the stack unless its id is taken, and queues it unless its id already waits. |
| `NativeHookTheorems.MarkQueues` | trace_streamer/src/filter/native_hook_filter.cpp:553-575 | Exactly the stacks with an ip in the range that are not pending are queued to be parsed again. |
| `NativeHookTheorems.RunTracked` | trace_streamer/src/filter/native_hook_filter.cpp:60-68 | Over every run each registered stack is pending, awaiting re-parse or mapped to a chain. |
| `NativeHookTheorems.StepHandles` | trace_streamer/src/filter/native_hook_filter.cpp:421-461 | An event is handled with a chain if and only if its stack id is not 0 and is registered, and main events move exactly as in the reorder buffer. |
| `NativeHookTheorems.RunHandlesOnce` | trace_streamer/src/filter/native_hook_filter.cpp:421-461 | Every main event is handled exactly once or still waits, however maps and tables force flushes. |
| `NativeHookTheorems.UnforcedRunIsBuffer` | trace_streamer/src/filter/native_hook_filter.cpp:450-461 | Without forced flushes the filter is the plain reorder buffer. |
| `NativeHookTheorems.FinishedRunSortsIff` | trace_streamer/src/filter/native_hook_filter.cpp:848-858 | A finished unforced run has handled the stable timestamp sort if and only if the disorder is within the buffer. |
| `NativeHookTheorems.CachedRunSortsIff` | trace_streamer/src/filter/native_hook_filter.h:161 | The same for the capacity of 200000 events. |
| `NativeHookFilters.NativeHookFilter.AppendStackMaps` | trace_streamer/src/filter/native_hook_filter.cpp:60-68 | The new state is the stack event of the state machine. |
| `NativeHookFilters.NativeHookFilter.GetNeedUpdateProcessMapsAddrRange` | trace_streamer/src/filter/native_hook_filter.cpp:464-515 | The two iterator walks compute the invalidation range. |
| `NativeHookFilters.NativeHookFilter.OfflineSymbolizationOfStack` | trace_streamer/src/filter/offline_symbolization_filter.cpp:25-38 | The loop over ips computes the frames and the new cache. |
| `NativeHookFilters.NativeHookFilter.FillOfflineSymbolizationFrames` | trace_streamer/src/filter/native_hook_filter.cpp:517-540 | Rows are appended innermost last under a new chain id; an id that has a chain keeps it. |
| `NativeHookFilters.NativeHookFilter.MaybeParseNativeHookMainEvent` | trace_streamer/src/filter/native_hook_filter.cpp:450-461 | The new state is the arrival event of the state machine. |
| `NativeHookFilters.NativeHookFilter.FilterNativeHookMainEvent` | trace_streamer/src/filter/native_hook_filter.cpp:421-449 | The first num waiting events are handled with their chains and leave the buffer. |
| `NativeHookFilters.NativeHookFilter.ReparseStacksWithAddrRange` | trace_streamer/src/filter/native_hook_filter.cpp:553-575 | Exactly the stacks with an ip in the range lose their chain and await re-parse. |
| `NativeHookFilters.NativeHookFilter.ParseMapsEvent` | trace_streamer/src/filter/native_hook_filter.cpp:577-625 | The new state is the maps event of the state machine. |
| `NativeHookFilters.NativeHookFilter.ParseSymbolTableEvent` | trace_streamer/src/filter/native_hook_filter.cpp:641-695 | The new state is the table event of the state machine. |
| `NativeHookFilters.NativeHookFilter.FinishParseNativeHookData` | trace_streamer/src/filter/native_hook_filter.cpp:848-858 | Both waiting maps are parsed and all waiting events handled. |
| `ReorderBuffer.RunConserves` | trace_streamer/src/filter/native_hook_filter.cpp:450-461 | Whatever the timestamps, nothing is lost or duplicated. |
| `ReorderBuffer.BoundedRunSorts` | trace_streamer/src/filter/native_hook_filter.cpp:450-461 | If each event is preceded by at most cap later ones, the order is the stable timestamp sort. |
| `ReorderBuffer.BufferSortsIff` | trace_streamer/src/filter/native_hook_filter.cpp:450-461 | It is the stable sort if and only if the disorder is bounded so. |
| `ReorderBuffer.StragglerMisordered` | trace_streamer/src/filter/native_hook_filter.cpp:450-461 | For every capacity, one early event behind one later event too many is handled out of order. |
| `HeapPairing.HeapConservation` | trace_streamer/src/filter/native_hook_filter.cpp:186-274 | After every prefix, allocated minus freed size equals the summed size of open allocations and the running total, and is never negative. |
| `HeapPairing.FreesCloseAllocations` | trace_streamer/src/filter/native_hook_filter.cpp:225-274 | Free rows and ended allocations are in one-to-one correspondence, with equal address and size and an earlier allocation time, whatever duplicates and unmatched frees occur. |
| `HeapPairing.RowsRecordTotals` | trace_streamer/src/trace_data/trace_stdtype.cpp:591-596 | In every run each row records the balance up to it. |
| `HeapRecords.RowsAreEvents` | trace_streamer/src/filter/native_hook_filter.cpp:186-274 | In every run the table holds exactly one row per allocation, with its time, address and size, and one per free that ends an allocation, in the order of the events; each row has the heap size behind its event, and an allocation the end and duration given by the free that ended it. |
| `HeapRecords.HolderIsFirst` | trace_streamer/src/filter/native_hook_filter.cpp:225-274 | A free ends the first allocation of its address since the last free of the address to take effect, if that allocation is strictly earlier. |
| `HeapRecords.FreedOnce` | trace_streamer/src/filter/native_hook_filter.cpp:225-274 | No allocation is freed twice. |
| `HeapRuns.HeapEventsReported` | trace_streamer/src/filter/native_hook_filter.cpp:421-449 | Every allocation and free among the handled events reaches the heap table once, in order, with its time. |
| `HeapRuns.TimedRun` | trace_streamer/src/filter/native_hook_filter.cpp:186-274 | For a stream in time order the rows are in time order, and two ended allocations of one address never overlap in time. |
| `HeapRuns.HeapIsSorted` | trace_streamer/src/filter/native_hook_filter.cpp:421-461 | For an unforced run within the buffer the heap table is that of the time-sorted stream, with rows in time order and disjoint lifetimes per address. |
| `HeapRuns.ArrivalOrderIrrelevant` | trace_streamer/src/filter/native_hook_filter.cpp:421-461 | The same events with distinct times leave the same heap table, in whatever order within the buffer they arrive. |
| `HeapPairing.NativeHookRows.ParseAllocEvent` | trace_streamer/src/filter/native_hook_filter.cpp:186-224 | The new tables are those of an allocation step. |
| `HeapPairing.NativeHookRows.ParseFreeEvent` | trace_streamer/src/filter/native_hook_filter.cpp:225-274 | The new tables are those of a free step. |
| `CpuFilter.Filter.InsertSwitchEvent` | trace_streamer/src/filter/cpu_filter.cpp:25-109 | The new maps and rows are those of a switch step. |
| `CpuFilter.Filter.InsertWakeupEvent` | trace_streamer/src/filter/cpu_filter.cpp:227-232 | The new maps and rows are those of a wakeup step. |
| `CpuFilter.Filter.CheckWakeupEvent` | trace_streamer/src/filter/cpu_filter.cpp:266-286 | A pending wakeup becomes a runnable row unless the thread is running, and is forgotten. |
| `CpuTimelines.LegalRunSane` | trace_streamer/src/filter/cpu_filter.cpp:25-109 | Over every legal trace: rows of a thread abut with only the remembered last one open, cpus run one thread at a time, and sched slices tile. |
| `CpuTimelines.RebuiltTimelines` | trace_streamer/src/filter/cpu_filter.cpp:25-109 | The same, said of the tables alone for every two rows. |
| `CpuTimelines.NaturalRunIsLegal` | trace_streamer/src/filter/cpu_filter.cpp:25-109 | Every trace in which a cpu's prev is its last next, or at first a thread never seen, and threads are switched in only while they run nowhere, is legal. |
| `CpuRecords.SlicesAreSwitches` | trace_streamer/src/filter/cpu_filter.cpp:25-109 | In every run, legal or not, there is one sched slice per switch, which lasts to the next switch on its cpu and ends in the state given there. |
| `ThreadStates.RowsAreChanges` | trace_streamer/src/filter/cpu_filter.cpp:25-109 | In every natural trace the rows of the thread-state table are, in order, the changes the events make (runnable since a pending wakeup, running since a switch, left in the state given), each lasting to its thread's next change. |
| `CpuSwitches.EveryEntry` | trace_streamer/src/filter/cpu_filter.cpp:25-109 | In any trace a switch gives the next thread a running row, remembered by the thread and the cpu, and forgets exactly the thread that the cpu's open row belongs to if that is not the one leaving. |
| `CpuSwitches.EveryExit` | trace_streamer/src/filter/cpu_filter.cpp:25-109 | In any trace the previous thread gets a row with its state, unless it entered another cpu at the same time; then nothing changes. |
| `LaneAssignment.GreedyIsOptimal` | trace_streamer/src/filter/app_start_filter.cpp:246-302 | If every slice meets the guard of the insert, no two overlapping slices share a depth, the number of depths is the maximum number open at once, and no assignment does with fewer. |
| `LaneGuard.DistinctEndsGuarded` | trace_streamer/src/filter/app_start_filter.cpp:246-302 | Slices in start order with distinct ends all meet the guard. |
| `LaneGuard.CalcGoodIff` | trace_streamer/src/filter/app_start_filter.cpp:246-271 | One slice keeps the table in step with the lanes if and only if no entry kept after the erase has its end. |
| `LaneGuard.GuardedIff` | trace_streamer/src/filter/app_start_filter.cpp:273-302 | Over a stream the table is in step throughout if and only if every slice meets the guard. |
| `LaneGuard.LostLaneCollides` | trace_streamer/src/filter/app_start_filter.cpp:246-271 | After a loss with no lane left free, every slice that starts before the next end shares a lane with one that is open. |
| `LaneGuard.SafeIff` | trace_streamer/src/filter/app_start_filter.cpp:246-302 | A slice that is not empty can be followed by any slices with new ends without a collision, if and only if it meets the guard. |
| `LaneGuard.EqualEndsCollide` | trace_streamer/src/filter/app_start_filter.cpp:246-302 | Of three slices, two with equal ends, two overlap on one depth. |
| `LaneGuard.GreedyTakesLowest` | trace_streamer/src/filter/app_start_filter.cpp:246-271 | In a guarded stream each slice takes the lowest lane that ended before it starts, otherwise the lane that ends right then, otherwise the first unused one. |
| `LaneAssignment.CalcDepthByTimeStamp` | trace_streamer/src/filter/app_start_filter.cpp:246-271 | The scan over the ordered map computes the lane of the specification. |
| `LaneAssignment.ParserSoInitalization` | trace_streamer/src/filter/app_start_filter.cpp:273-302 | The loop over all slices gives each process the lanes of its own slices. |
| `SliceFilter.Filter.CloseUnMatchedSlice` | trace_streamer/src/filter/slice_filter.cpp:241-271 | The loop computes what is left of the stack. |
| `SliceFilter.Filter.MatchingIncompleteSliceIndex` | trace_streamer/src/filter/slice_filter.cpp:273-291 | The topmost open entry that fits category and name, or -1. |
| `SliceFilter.Filter.StartSlice` | trace_streamer/src/filter/slice_filter.cpp:293-340 | The new rows, stack and result are those of a start step. |
| `SliceFilter.Filter.CompleteSlice` | trace_streamer/src/filter/slice_filter.cpp:348-410 | The new rows, stack and result are those of an end step. |
| `SliceForest.RunForest` | trace_streamer/src/filter/slice_filter.cpp:293-340 | Over every mix of events stack entry i has depth i, and a returned row is a root or hangs below an earlier row of its thread with depth one less. |
| `SliceForest.AscendToRoot` | trace_streamer/src/filter/animation_filter.cpp:176-192 | In such a forest following parents reaches a root in exactly depth steps. |
| `SliceForest.ReturnedRowsReachRoot` | trace_streamer/src/filter/slice_filter.cpp:293-340 | Every row that StartSlice returned, in every run, reaches a root in exactly depth steps. |
| `SliceStacks.CloseKeepsLongest` | trace_streamer/src/filter/slice_filter.cpp:241-271 | If closed slices have ended by the time of the event, what stays on the stack is the longest part in which nothing ended before and the top is open. |
| `SliceStacks.RunKeepsLongest` | trace_streamer/src/filter/slice_filter.cpp:241-271 | Every event of every stream ordered by time leaves that part, whatever mix of slices and binder slices came before. |
| `SliceStacks.CloseExact` | trace_streamer/src/filter/slice_filter.cpp:241-271 | For any times, what is left are the entries below the lowest entry that ended early under an open one, less one for each closed entry on top that has ended. |
| `SliceEnds.EndClosesTopmost` | trace_streamer/src/filter/slice_filter.cpp:273-291 | In every run an end closes the topmost entry left on its thread's stack that is open and agrees with it in category and name where both say something; it returns nothing if and only if there is none; an entry below the top stays on the stack with those above it. |
| `SliceEnds.TimedEndClosesTopmost` | trace_streamer/src/filter/slice_filter.cpp:348-414 | In time order the entries left are the longest part that can stay. |
| `SliceRecords.RowsAreStarts` | trace_streamer/src/filter/slice_filter.cpp:293-340 | In every run the table holds one row per start, with its time, thread, labels, depth and parent from what was left on the stack, and the duration up to the end that closed it. |
| `SliceRecords.StartsArePushed` | trace_streamer/src/filter/slice_filter.cpp:293-340 | A start is returned and pushed on what was left, unless 255 are left. |
| `SliceBrackets.RunBracketed` | trace_streamer/src/filter/slice_filter.cpp:241-340 | Over every plain stream that nests below 255 the stacks are the open brackets and rows are closed by matching ends. |
| `SliceBrackets.EndsCloseTheirBegins` | trace_streamer/src/filter/slice_filter.cpp:348-410 | The row of a begin holds its time, category and name; it is closed if and only if some end matches it in the sense of bracket matching, and it lasts until that end. |
| `SliceBrackets.SlicesNest` | trace_streamer/src/filter/slice_filter.cpp:293-410 | Each child lies inside its parent, and of two siblings the first ends before the second begins. |
| `NestedMaps.DoubleMap.Insert` | trace_streamer/src/base/double_map.h:33-46 | The flat map gets the key, overwriting. |
| `NestedMaps.DoubleMap.Find` | trace_streamer/src/base/double_map.h:47-60 | The value of the flat map, or the invalid value. |
| `NestedMaps.DoubleMap.Erase` | trace_streamer/src/base/base_map.h:35-42 | The flat map loses exactly the key. |
| `NestedMaps.TripleMap.Insert` | trace_streamer/src/base/triple_map.h:32-42 | The flat map gets the key, overwriting. |
| `NestedMaps.TripleMap.Find` | trace_streamer/src/base/triple_map.h:43-51 | The value of the flat map, or the invalid value. |
| `NestedMaps.TripleMap.Erase` | trace_streamer/src/base/base_map.h:44-48 | The flat map loses exactly the key. |
| `AsyncSlices.RunLinked` | trace_streamer/src/filter/slice_filter.cpp:436-491 | Over every run the ids of the three-key map are exactly the keys of the id map, all distinct and none invalid. |
| `AsyncSlices.FinishLinked` | trace_streamer/src/filter/slice_filter.cpp:464-491 | A finish is refused if and only if its key has no open slice: the logic error is unreachable. |
| `AsyncSlices.RowsArePairs` | trace_streamer/src/filter/slice_filter.cpp:436-491 | The rows are the accepted starts in order, each lasting to the first later finish of its thread, cookie and name, or open. |
| `AsyncSlices.ClosedOnce` | trace_streamer/src/filter/slice_filter.cpp:464-491 | No two finishes close the same row. |
| `AsyncSlices.OneOpenPerKey` | trace_streamer/src/filter/slice_filter.cpp:436-463 | In every run no two open slices have rows with the same thread, cookie and name. |
| `AsyncSlices.AsyncFilter.StartAsyncSlice` | trace_streamer/src/filter/slice_filter.cpp:436-463 | The new maps, rows and result are those of a start step. |
| `AsyncSlices.AsyncFilter.FinishAsyncSlice` | trace_streamer/src/filter/slice_filter.cpp:464-491 | The new maps, rows and result are those of a finish step. |
| `ProcessIdentity.GetOrCreateEffect` | trace_streamer/src/filter/process_filter.cpp:81-101 | It returns a thread of that tid, bound to the process of a non-zero pid, and keeps all identities. |
| `ProcessIdentity.CreateProcessEffect` | trace_streamer/src/filter/process_filter.cpp:245-263 | It returns the one process of the pid, with a main thread, and keeps all identities. |
| `ProcessIdentity.RunValid` | trace_streamer/src/filter/process_filter.cpp:81-263 | Over every run threads of one tid have distinct processes, pids and internal pids are in bijection, and registered pids have a main thread. |
| `ProcessIdentity.OneThreadPerBinding` | trace_streamer/src/filter/process_filter.cpp:150-170 | At most one unbound thread per tid and at most one bound per tid and pid. |
| `ProcessIdentity.OneMainThread` | trace_streamer/src/filter/process_filter.cpp:245-263 | Every registered pid has exactly one main thread. |
| `ProcessIdentity.BindingsStay` | trace_streamer/src/filter/process_filter.cpp:81-101 | No later operation changes a binding, a tid, a pid or a start time once set. |
| `ProcessIdentity.RepeatedCallsAgree` | trace_streamer/src/filter/process_filter.cpp:81-101 | Two requests for the same tid and non-zero pid return the same thread, whatever lies between. |
| `ProcessIdentity.ZeroPidAgreesIff` | trace_streamer/src/filter/process_filter.cpp:172-180 | With pid 0 they agree if and only if no thread of the tid has been added between. |
| `ProcessIdentity.ZeroPidMoves` | trace_streamer/src/filter/process_filter.cpp:81-101 | Two requests for thread 7 with pid 0, around one with pid 2, return different threads. |
| `ProcessIdentity.NameProcessSets` | trace_streamer/src/filter/process_filter.cpp:103-118 | The process takes a name that is not empty, and its one main thread has the name of the process. |
| `ProcessIdentity.NameThreadsSets` | trace_streamer/src/filter/process_filter.cpp:120-149 | Exactly the threads of the tid take the name. |
| `ProcessRecords.CreateProcessQuiet` | trace_streamer/src/filter/process_filter.cpp:245-263 | After CreateProcessMaybe the process has the start time it had, or the given one if it had none; all others keep theirs, and all names stay. |
| `ProcessRecords.StartIsRegistered` | trace_streamer/src/filter/process_filter.cpp:212-263 | In every run a process has the start time given by the operation that registered it, which is 0 unless that was GetOrCreateInternalPid. |
| `ProcessRecords.Registration` | trace_streamer/src/filter/process_filter.cpp:236-263 | Every registered pid other than 0 was registered by an operation. |
| `ProcessRecords.RunNames` | trace_streamer/src/filter/process_filter.cpp:81-192 | In every run an operation names the process it is about and its main thread, or the thread or threads it is about, and leaves every other name. |
| `ProcessFilter.Filter.GetInternalTid` | trace_streamer/src/filter/process_filter.cpp:150-170 | The scan finds the thread bound to the pid, otherwise the last unbound one. |
| `ProcessFilter.Filter.GetOrCreateThreadWithPid` | trace_streamer/src/filter/process_filter.cpp:81-101 | The mutual recursion terminates and computes the specification; the tid index stays right. |
| `ProcessFilter.Filter.CreateProcessMaybe` | trace_streamer/src/filter/process_filter.cpp:245-263 | The same for the other half of the recursion. |
| `ProcessFilter.Filter.UpdateOrCreateProcessWithName` | trace_streamer/src/filter/process_filter.cpp:103-118 | The process and its main thread take the name. |
| `ProcessFilter.Filter.UpdateOrCreateThreadWithPidAndName` | trace_streamer/src/filter/process_filter.cpp:68-79 | The thread takes the name and, when it is the main thread's, so does the process. |
| `ProcessFilter.Filter.UpdateOrCreateThreadWithNameIndex` | trace_streamer/src/filter/process_filter.cpp:120-149 | All threads of the tid take the name; the newest is returned, or a new one. |
| `ProtoWire.VarIntRoundTrip` | trace_streamer/src/proto_reader/include/proto_reader_help.h:126-142 | Any 64-bit number in base 128 is read back wherever it stands. |
| `ProtoWire.ParseOne` | trace_streamer/src/proto_reader/proto_reader.cpp:136-168 | On arbitrary bytes the cursor strictly advances unless the parse aborts, never passes the end, and an accepted field has an id. |
| `ProtoWire.FieldRoundTrip` | trace_streamer/src/proto_reader/proto_reader.cpp:46-168 | An encoded field of any supported type is read back and the cursor stands behind it. |
| `ProtoWire.MessageRoundTrip` | trace_streamer/src/proto_reader/proto_reader.cpp:195-225 | An encoded message is read as exactly its fields in wire order. |
| `ProtoWire.FieldRead` | trace_streamer/src/proto_reader/proto_reader.cpp:136-168 | What becomes of any encoded field with an id up to 2^29 - 1: only its tag is consumed above 65535; otherwise all of it, delivered unless its payload is too long. |
| `ProtoWire.ConsumedIff` | trace_streamer/src/proto_reader/proto_reader.cpp:151-156 | A field of any type is consumed whole if and only if its id is at most 65535; otherwise the reader goes on with its value. |
| `ProtoWire.DeliveredIff` | trace_streamer/src/proto_reader/proto_reader.cpp:81-168 | A field is delivered if and only if its id is at most 65535 and its payload within the maximum length. |
| `ProtoWire.BigIdDerails` | trace_streamer/src/proto_reader/proto_reader.cpp:151-156 | The encoded fields (65536, 8) and (2, 5) are read as the one field (1, 16). |
| `ProtoBytes.DeliversIff` | trace_streamer/src/proto_reader/proto_reader.cpp:46-168 | From any bytes, a field is delivered if and only if they start with a number of at most ten bytes that gives a fitting id and a kind, followed by a whole value of that kind and a payload that is not too long. |
| `ProtoBytes.SkipsIff` | trace_streamer/src/proto_reader/proto_reader.cpp:46-168 | They are skipped, and up to where, if and only if the id does not fit or the payload is too long; everything else aborts. |
| `ProtoReader.StoreAppends` | trace_streamer/src/proto_reader/proto_reader.cpp:207-222 | Storing a field appends it to the occurrences of its id and leaves other ids alone. |
| `ProtoReader.ParseRoundTrip` | trace_streamer/src/proto_reader/proto_reader.cpp:195-235 | After parsing an encoded message the overflow entries of each id followed by its slot are exactly its fields in wire order. |
| `ProtoReader.FindEndsIff` | trace_streamer/src/proto_reader/proto_reader.cpp:170-193 | The search comes to an end if and only if the id occurs or the field at the abort has this id or none. |
| `ProtoReader.TruncatedFieldHangs` | trace_streamer/src/proto_reader/proto_reader.cpp:170-193 | On a truncated field 1 no number of reads ends the search for field 2. |
| `ProtoReader.Reader.VarIntDecode` | trace_streamer/src/proto_reader/include/proto_reader_help.h:126-142 | The shifting loop computes the base 128 number modulo 2^64, or nothing. |
| `ProtoReader.Reader.ParseOneDataArea` | trace_streamer/src/proto_reader/proto_reader.cpp:136-168 | Status, next position and field are those of the specification. |
| `ProtoReader.Reader.MoveToLargerHeapStorage` | trace_streamer/src/proto_reader/proto_reader.cpp:227-235 | The array doubles and keeps its contents. |
| `ProtoReader.Reader.ParseAllDataAreas` | trace_streamer/src/proto_reader/proto_reader.cpp:195-225 | The array holds all fields as stored one by one, across all doublings, and reading stopped at the abort. |
| `ProtoReader.Reader.FindDataArea` | trace_streamer/src/proto_reader/proto_reader.cpp:170-193 | Where the search ends it returns the first field with the id, or the field at the abort, and restores the cursor. |
| `ProtoReader.Reader.GetRepeated` | trace_streamer/src/proto_reader/include/proto_reader.h:37-106 | The iterator visits the overflow entries of the id and then its slot. |
| `FrameLifeCycle.RunSane` | trace_streamer/src/filter/frame_filter.cpp:27-69 | Over every run a frame in flight whose vsync has ended is a render-service frame with unfinished GPU work, and rows are on the list of their thread, in order. |
| `FrameLifeCycle.EndsOnLeaving` | trace_streamer/src/filter/frame_filter.cpp:152-229 | An event ends a row in flight if and only if it takes it off its list. |
| `FrameLifeCycle.EndedOnce` | trace_streamer/src/filter/frame_filter.cpp:152-229 | No row is ended twice. |
| `FrameLifeCycle.EndsWhenBothDone` | trace_streamer/src/filter/frame_filter.cpp:152-229 | A frame marked by a composition while it was the newest in flight ends with the event after which its vsync has ended and no GPU work is outstanding. |
| `FrameLifeCycle.EndsAtLater` | trace_streamer/src/filter/frame_filter.cpp:152-229 | In time order, it ends at the later of its vsync end and its last GPU end. |
| `FrameLifeCycle.DurationStays` | trace_streamer/src/filter/frame_filter.cpp:152-229 | The duration is written by the event that ends the row and never again. |
| `FrameLifeCycle.EndedFlag` | trace_streamer/src/filter/frame_filter.cpp:152-229 | The ended row is marked on time if and only if it ended by the end of its expected slice, and erased if no composition was marked while it was the newest in flight and no number given while it was the oldest. |
| `FrameLifeCycle.FlagStays` | trace_streamer/src/filter/frame_filter.cpp:152-229 | That mark is never changed again. |
| `FrameLifeCycle.GpuSliceSpans` | trace_streamer/src/filter/frame_filter.cpp:205-229 | Each GPU slice belongs to the oldest frame and reaches back to its last queue start. |
| `FrameLifeCycle.RunTracks` | trace_streamer/src/filter/frame_filter.cpp:55-90 | In every run a frame in flight is a render-service frame if and only if a composition was marked while its row was the newest in flight, and has the last number given while it was the oldest; its vsync and GPU flags are those of its events. |
| `FrameRecords.RowsAreVsyncs` | trace_streamer/src/filter/frame_filter.cpp:27-69 | In every run each vsync has two rows, with its times and thread; the actual one lasts to the event that ends the frame and is marked on time, late or erased, and the expected one is erased with it. |
| `FrameRecords.GpuSlicesAreEnds` | trace_streamer/src/filter/frame_filter.cpp:205-229 | In every run the GPU slices are, in order, those of the ends of GPU work that found a frame. |
| `FrameFilter.Filter.BeginVsyncEvent` | trace_streamer/src/filter/frame_filter.cpp:27-53 | The new lists and rows are those of a vsync step. |
| `FrameFilter.Filter.EndVsyncEvent` | trace_streamer/src/filter/frame_filter.cpp:152-187 | The new lists and rows, and the ended row, are those of a vsync-end step. |
| `FrameFilter.Filter.MarkRSOnDoCompositionEvent` | trace_streamer/src/filter/frame_filter.cpp:55-69 | The newest frame of the thread becomes a render-service frame; nothing without one. |
| `FrameFilter.Filter.StartFrameQueue` | trace_streamer/src/filter/frame_filter.cpp:189-204 | The oldest frame has GPU work outstanding from this time. |
| `FrameFilter.Filter.EndFrameQueue` | trace_streamer/src/filter/frame_filter.cpp:205-229 | The new lists, rows and GPU slices are those of a queue-end step. |
| `FreeSize.SearchBest` | ide/src/trace/SpApplication.ts:1386-1411 | No continuation of the current choice that fits is better than what the search returns. |
| `FreeSize.FoundFirst` | ide/src/trace/SpApplication.ts:1392-1407 | Among choices of the largest size the search finds the one that takes the earlier files. |
| `FreeSize.Finder.ReBackFind` | ide/src/trace/SpApplication.ts:1392-1407 | Each call restores the current size and choice and leaves the best choice found. |
| `FreeSize.FindFreeSizeAlgorithm` | ide/src/trace/SpApplication.ts:1386-1411 | The result is strictly increasing, fits, is the largest that fits, and comes first among those. |
| `Decimal.ReadPrinted` | trace_streamer/src/base/filter_constraints.cpp:67-85 | A printed number, negative or not, is read back by strtol and the end is found. |
| `FilterConstraints.TextRoundTrip` | trace_streamer/src/base/filter_constraints.cpp:51-120 | Reading the text of any constraints and order-by list gives back the same pairs. |
| `ConstraintText.ParseIff` | trace_streamer/src/base/filter_constraints.cpp:66-120 | For any text, well formed or not, reading succeeds with these pairs if and only if the text is a C, a count, that many pairs, a character, an O, a count and that many pairs, with the overflow cases of the source. |
| `ConstraintText.StrToLReads` | trace_streamer/src/base/filter_constraints.cpp:66-85 | strtol on any text: spaces, a sign and digits, the nearest long on overflow, and nothing without digits. |
| `FilterConstraints.RoundTrip` | trace_streamer/src/base/filter_constraints.cpp:51-120 | Writing an object and reading it into an empty one rebuilds columns and operators, numbered from 0, and the order-by list. |
| `FilterConstraints.Constraints.ToString` | trace_streamer/src/base/filter_constraints.cpp:51-65 | The loops write the specified text. |
| `FilterConstraints.Constraints.FromString` | trace_streamer/src/base/filter_constraints.cpp:87-120 | The parsed pairs are appended. |
| `ClockFilter.KeyInjective` | trace_streamer/src/base/clock_filter.cpp:29-36 | Different pairs of clocks have different keys. |
| `ClockFilter.PositionSpec` | trace_streamer/src/base/clock_filter.cpp:46-64 | Convert uses the latest entry at or before the time, otherwise the earliest. |
| `ClockFilter.SnapshotGet` | trace_streamer/src/base/clock_filter.cpp:77-91 | A snapshot adds one entry for each ordered pair of its clocks and no other. |
| `ClockFilter.OneSnapshot` | trace_streamer/src/base/clock_filter.cpp:46-91 | With one snapshot, converting adds the distance of the two readings modulo 2^64. |
| `ClockFilter.ConversionsCompose` | trace_streamer/src/base/clock_filter.cpp:46-91 | With one snapshot of distinct clocks conversions compose and are mutually inverse. |
| `ClockFilter.SegmentConvert` | trace_streamer/src/base/clock_filter.cpp:46-91 | With many snapshots the distance of the snapshot in whose segment the time lies is used. |
| `ClockFilter.SegmentRoundTrip` | trace_streamer/src/base/clock_filter.cpp:46-91 | There and back is the identity when a time and its image lie in the same snapshot's segment. |
| `ClockFilter.EveryTimeHasSegment` | trace_streamer/src/base/clock_filter.cpp:46-64 | Every time lies in the segment of a snapshot, once one reads both clocks. |
| `ClockFilter.RoundTripIff` | trace_streamer/src/base/clock_filter.cpp:46-91 | With a time in one snapshot's segment and its image in another's, there and back is the identity if and only if the clocks were equally far apart in both, modulo 2^64. |
| `ClockFilter.DriftBreaksRoundTrip` | trace_streamer/src/base/clock_filter.cpp:46-91 | With two snapshots between which a clock drifts, 18 becomes 108 and comes back as 23. |
| `ClockFilter.Clocks.ConvertTs` | trace_streamer/src/base/clock_filter.cpp:46-64 | The search from upper_bound computes the conversion. |
| `ClockFilter.Clocks.AddClockSnapshot` | trace_streamer/src/base/clock_filter.cpp:77-91 | The nested loops build the table of the specification. |

## Left out

- mmap and munmap rows, memory tags, how long each heap size lasted, statistics and the compressed and already symbolized modes of the native hook.
- Re-symbolization with ELF files loaded later, and the rewriting of last callers: separate passes over finished tables.
- Symbol tables with entry size 0, which the source would divide by.
- Wrap-around of 32-bit call chain ids and row numbers, and of the doubled 32-bit capacity of the protobuf storage: these are natural numbers.
- ChainRuns.RunGoodIff: like the other run theorems of its module, assumes that a stack id is registered once; what the chain of an id that is registered again with other ips should hold is not defined by the source.
- HeapRuns.HeapIsSorted: speaks of runs in which no map or table forces waiting events out; the call chain column of the heap rows is `Handled.chain`, not part of the heap row.
- LaneGuard.SafeIff: speaks of slices that are not empty, and of streams that leave room for later ends below 2^64; an empty slice can lose its lane without harm.
- Blocked reasons, process exit and the binder-runnable bookkeeping of the cpu filter.
- Irq, ipi and softirq slices, arguments, distributed-call fields and depths of asynchronous slices.
- AsyncSlices.RunLinked: assumes fewer events than there are 64-bit ids, and speaks of the asynchronous rows of the callstack table alone.
- Thread and process counters (slices, cpu states, memory), which do not affect identity.
- Links between application frames and render-service frames.
- FrameLifeCycle.EndedFlag: the mark of frames with abnormal start and end times, which other code sets and SetEndTimeAndFlag then keeps, is not modelled.
- ProtoReader.Reader.FindDataArea: buffers on which the search of the source never ends are excluded; `ProtoReader.FindEndsIff` says which those are.
- Packed repeated fields and the typed accessors of a data area.
- Address arithmetic of `ParseFixed64Value` beyond the end of the buffer: an index past the end is compared, not formed.
- ClockFilter.Clocks.ConvertTs: the smallest 64-bit offset, whose negation overflows in the source, is negated without overflow.
- ClockFilter.Clocks.AddClockSnapshot: an empty snapshot is excluded, since the source subtracts one from its unsigned size.
- FilterConstraints.Constraints.FromString: texts on which an assertion fails are excluded; a build without assertions reads on, past the end of the text for some.
- SliceFilter.Filter.StartSlice: a root's parent is absent where the source stores INVALID_UINT32.
- The user interface, file reading and paging around findFreeSizeAlgorithm; sizes are integers, not floating-point numbers.
- Clearing and finishing of filters, split-file mode, and tables and SQL on top of the rows.
