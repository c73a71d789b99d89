# virtmem: a verified model of the demand-paging simulator

`project_4/virtmem.c` simulates demand paging. It generates a synthetic stream of
page references with low, medium or high locality, then replays the stream
against `nframes` physical frames. A page that is not resident causes a fault:
the handler takes the lowest free frame, or asks one of three replacement
policies (FIFO, LRU, Random) for a victim frame, unmaps the victim's page and
installs the new one. The program prints the number of faults and the number of
frames still empty.

The model has two layers.

- **Value layer.** Pure functions on datatypes.
  - `Types`: the sizes of the global arrays, the algorithm and locality choices, and `Outcome`.
    `Outcome` is a value or the point where the C program has undefined behaviour: an index outside a global array, or `% 0`.
  - `CArith`: C's truncating `%`.
  - `PageTables`: `pageTable` and `frameToPage` and the table work of the fault handler.
  - `Policies`: the FIFO ring, the LRU stamps and the random choice.
  - `ReferenceStream`: the generator.
  - `Simulation`: one access, the replay loop and the whole run on the complete global state.
- **Imperative layer.** `VirtMem.Simulator` is a class whose array fields are the C globals.
  Each C function is a method that updates them in place with the same loops.
  Every method's contract ties the arrays it leaves behind to the value-layer function of the arrays it found.

Every `rand()` result is an oracle value passed in as an argument. For the generator, reference `i` consumes `genRnd[i]`. For the random policy, the fault at reference `i` consumes `evictRnd[i]`.

The C globals are zero-initialised, so the model starts from all-zero arrays. Three facts follow and the model keeps them:
- `initPageTable` resets only the first `npages` pages and `nframes` frames;
- neither `initFIFO` nor `initLRU` resets its counter;
- entries beyond those ranges keep their zeros.

The model also keeps the program's own quirks:
- FIFO and LRU are fed the faulting page, not the frame it went to (lines 136-140).
- The FIFO victim is whatever the ring slot under the index holds. It stays -1 until 500 insertions have wrapped the ring, so with fewer than 500 frames FIFO can never evict. `Simulation.FifoRunNeverEvicts` proves that a completed FIFO run never faulted more than `nframes` times.
- The LRU scan covers all 500 slots, whatever `nframes` is.
- Under an unrecognised algorithm string, a fault that finds no free frame leaves `frameToUse` at -1 (a fault that finds a free frame is unaffected). The -1 is then used as an index, which is an `OutOfBounds(FrameToPageArray, -1)` outcome (`Simulation.UnknownAlgorithmFault`).
- Under LRU the victim can be a slot at or above `nframes`, because the scan covers all 500 slots and the unused slots keep the stamp -1. `initPageTable` resets only the first `nframes` entries of `frameToPage`, so such a slot still holds the startup 0, and the fault unmaps page 0 even when page 0 is resident in a frame below `nframes`. The page table and `frameToPage` then stop being inverse maps. `Simulation.LruTraceBreaksInverse` exhibits this for the references 0, 1, 0, 2 with 2 frames. The frames used also exceed `nframes`: with 2 frames and the references 0, 1, 2, 3, page 2 goes to frame 2 and page 3 to frame 3, so pages 1, 2 and 3 are all mapped at once.
- A locality string other than `ll`, `ml` and `hl` is windowed exactly like `hl`. Line 95 picks the 3% window for every string except `ml` (`ReferenceStream.OtherLocalityIsHigh`).
- A negative windowed step is wrapped by taking C's truncating remainder first and then adding `npages` (lines 97-98). `CArith.FixedUpRem` shows the result is the mathematical remainder.

## Model

| member | source | states |
|---|---|---|
| `CArith.CRem` | project_4/virtmem.c:97 | C's `%` truncates toward zero: the remainder lies strictly between `-n` and `n` and, when nonzero, has the sign of the dividend |
| `CArith.FixedUpRem` | project_4/virtmem.c:97-98 | adding `npages` to a negative truncated remainder gives exactly the mathematical remainder, so every windowed reference lands in `[0, npages)` |
| `PageTables.FirstEmptyFrom` | project_4/virtmem.c:66-72 | the first-free scan yields -1 exactly when every frame in the range is occupied, and otherwise an empty frame with no empty frame below it |
| `PageTables.EmptyCount` | project_4/virtmem.c:55-63 | the empty-frame count lies in `[0, n]`, is 0 exactly when every frame below `n` is occupied and `n` exactly when all are empty |
| `PageTables.EmptyCountIsCardinality` | project_4/virtmem.c:55-63 | the count equals the size of the set of frames below `n` that hold -1 |
| `PageTables.EmptyCountUpdate` | project_4/virtmem.c:84 | writing one frame changes the empty count by what that frame was and what it became, and only when it lies below `n` |
| `PageTables.InitTables` | project_4/virtmem.c:50-53 | the first `npages` pages become -1 and the first `nframes` frames become -1; no other entry changes |
| `PageTables.InitTablesEmpty` | project_4/virtmem.c:50-53 | freshly initialised tables are mutually inverse and all `nframes` frames are empty |
| `PageTables.Install` | project_4/virtmem.c:84-85 | the page maps to the frame and the frame holds the page; every other entry of both tables is unchanged |
| `PageTables.HandleFault` | project_4/virtmem.c:65-87 | the faulting page is installed in the returned frame and no other frame changes. With a free frame below `nframes` the lowest one is used and nothing is evicted. Eviction happens only when all `nframes` frames are occupied; the victim's page becomes unmapped and every other page keeps its mapping. With no free frame the fault completes exactly when the victim indexes `frameToPage` and its occupant indexes `pageTable`; it then reuses the victim frame and evicts its occupant. A victim outside `frameToPage` is `OutOfBounds(FrameToPageArray, victim)` and an occupant outside `pageTable` is `OutOfBounds(PageTableArray, occupant)` |
| `PageTables.FaultKeepsConsistent` | project_4/virtmem.c:73-86 | given a victim in `[0, nframes)` and a previously unmapped page, a fault keeps `pageTable[p] == f` if and only if `frameToPage[f] == p`, with every mapping in range |
| `PageTables.FaultEmptyCount` | project_4/virtmem.c:67-86 | a fault either fills an empty frame (the empty count drops by one) or replaces an occupant (the count is unchanged) |
| `PageTables.OccupiedEqualsMapped` | project_4/virtmem.c:55-86 | in consistent tables the number of occupied frames equals the number of mapped pages, hence is at most `npages` |
| `Policies.FifoInit` | project_4/virtmem.c:13-15 | every ring slot becomes -1 and the index is left where it was |
| `Policies.FifoAdd` | project_4/virtmem.c:17-20 | exactly the slot under the index is written and the index advances by one modulo 500 |
| `Policies.FifoVictim` | project_4/virtmem.c:22-24 | the victim is the oldest entry of the ring: the first one read from the index onwards |
| `Policies.AgesAfterAdd` | project_4/virtmem.c:17-20 | read from the index onwards, one insertion drops the oldest entry of the ring and appends the new value |
| `Policies.AgesAfterAddAll` | project_4/virtmem.c:13-20 | after `initFIFO`, the ring read from the index onwards is the last 500 values of 500 times -1 followed by every value added |
| `Policies.FifoVictimAfterAdds` | project_4/virtmem.c:22-24 | from a cleared ring the FIFO victim is the value added exactly 500 insertions earlier, and -1 before 500 insertions |
| `Policies.LruInit` | project_4/virtmem.c:26-28 | every stamp becomes -1 and the counter is left where it was |
| `Policies.LruTouch` | project_4/virtmem.c:30-32 | the slot receives the incremented counter, strictly greater than every stamp before; every other slot is unchanged |
| `Policies.LowestMin` | project_4/virtmem.c:34-44 | the scan returns an index holding the minimum stamp, and no lower index holds that minimum |
| `Policies.LruVictim` | project_4/virtmem.c:34-44 | the LRU victim is a slot in `[0, 500)`, whatever `nframes` is |
| `Policies.LruSparesLastTouched` | project_4/virtmem.c:30-44 | the slot stamped last is never the next LRU victim |
| `Policies.RandVictim` | project_4/virtmem.c:46-48 | with `nframes > 0` the random victim lies in `[0, nframes)`, and equals the oracle value when that is already below `nframes` |
| `ReferenceStream.NextRef` | project_4/virtmem.c:95-98 | a windowed step lands in `[0, npages)` and equals the mathematical remainder of the predecessor plus the offset |
| `ReferenceStream.Generate` | project_4/virtmem.c:89-101 | the stream has one reference per oracle value and every reference lies in `[0, npages)` |
| `ReferenceStream.GeneratePrefix` | project_4/virtmem.c:91-100 | generating from a prefix of the oracle values yields the same prefix of the stream: each reference depends only on earlier draws |
| `ReferenceStream.UniformReferences` | project_4/virtmem.c:92-93 | the first reference, and every reference under `ll`, is its own draw modulo `npages`, independent of the references before it |
| `ReferenceStream.WindowedReferences` | project_4/virtmem.c:95-98 | under any locality but `ll`, each reference after the first is within the window of its predecessor, modulo `npages` |
| `ReferenceStream.StepDistance` | project_4/virtmem.c:97-98 | one windowed step moves at most `range` pages around the circle of `npages` pages |
| `ReferenceStream.OtherLocalityIsHigh` | project_4/virtmem.c:92-95 | an unrecognised locality string produces exactly the `hl` stream |
| `ReferenceStream.GeneratePageReferences` | project_4/virtmem.c:89-101 | the buffer afterwards holds exactly the stream `Generate` specifies |
| `Simulation.Initial` | project_4/virtmem.c:6-11 | before `main` runs every global array is zero-filled at its declared size and both counters are zero, so every page claims frame 0 and every frame claims page 0 |
| `Simulation.Victim` | project_4/virtmem.c:74-80 | the random victim lies in `[0, nframes)`; the LRU victim is a slot in `[0, 500)` holding the least stamp; the FIFO victim is the oldest ring entry; any other algorithm string leaves -1 |
| `Simulation.Fault` | project_4/virtmem.c:65-87 | under the random policy with no frames `rand() % 0` divides by zero. A completed fault installs the page in the returned frame. A free frame below `nframes` is always used first, the lowest one, with nothing evicted. With none free, an unknown algorithm indexes `frameToPage` with -1, and the random policy completes exactly when its victim frame holds a valid page |
| `Simulation.Access` | project_4/virtmem.c:132-141 | a reference faults exactly when its page is unmapped; a hit changes nothing; after a completed access the page is resident and the state well formed; on a fault FIFO receives the page, and LRU stamps the page's slot, which must lie below 500 |
| `Simulation.Replay` | project_4/virtmem.c:130-142 | a completed replay counts at most one fault per reference and leaves a well-formed state |
| `Simulation.ReplayUndefinedPersists` | project_4/virtmem.c:130-142 | once a prefix of the stream reaches undefined behaviour, the whole replay ends in that same outcome |
| `Simulation.AccessEmptyCount` | project_4/virtmem.c:133-135 | one access never empties a frame, and fills at most one, only when it faults |
| `Simulation.ReplayEmptyFrames` | project_4/virtmem.c:130-142 | over a replay the empty-frame count never rises and falls by at most the number of faults |
| `Simulation.RandomReplayConsistent` | project_4/virtmem.c:130-142 | under the random policy with at least one frame, a replay of pages below `npages` always completes and keeps the page and frame tables inverse to each other |
| `Simulation.FifoAccessStep` | project_4/virtmem.c:133-137 | while the FIFO ring has not wrapped, a fault must find a free frame, fills it and makes one more insertion |
| `Simulation.FifoReplayNeverEvicts` | project_4/virtmem.c:130-142 | with fewer than 500 frames, a FIFO replay from empty frames and a cleared ring completes only with at most `nframes` faults, each of which filled a free frame |
| `Simulation.Setup` | project_4/virtmem.c:122-128 | the state after `initPageTable` and the chosen policy's initialisation is well formed |
| `Simulation.Run` | project_4/virtmem.c:121-146 | with `npages == 0` and at least one reference the first `rand() % npages` divides by zero; with no references the run reports no faults and all `nframes` frames empty; a completed run reports at most `nrefs` faults and at most `nframes` empty frames |
| `Simulation.RunReport` | project_4/virtmem.c:121-146 | a completed run reports at most `nrefs` faults and at most `nframes` empty frames, and no more frames filled than faults |
| `Simulation.RandomRunCompletes` | project_4/virtmem.c:121-146 | a random-policy run with at least one frame, and at least one page whenever there are references, always completes, and leaves at most `npages` frames occupied |
| `Simulation.FifoRunNeverEvicts` | project_4/virtmem.c:121-146 | a FIFO run with fewer than 500 frames completes only if it never evicts: at most `nframes` faults, and every frame it filled is still occupied |
| `Simulation.UnknownAlgorithmFault` | project_4/virtmem.c:73-84 | under an unrecognised algorithm string, a reference to an unmapped page that finds no free frame ends in `OutOfBounds(FrameToPageArray, -1)` |
| `Simulation.LruTraceBreaksInverse` | project_4/virtmem.c:78-85 | from the startup globals, LRU with 3 pages, 2 frames and the references 0, 1, 0, 2 completes with 3 faults, but evicts slot 2, unmaps page 0 while frame 0 still holds it and installs page 2 in frame 2, so the two tables are no longer inverse |
| `VirtMem.Simulator.constructor` | project_4/virtmem.c:6-11 | the globals start as zero-filled arrays of their declared sizes with both counters at zero |
| `VirtMem.Simulator.InitFIFO` | project_4/virtmem.c:13-15 | the ring afterwards is `FifoInit` of the ring before; nothing else changes |
| `VirtMem.Simulator.AddToFIFO` | project_4/virtmem.c:17-20 | the ring afterwards is `FifoAdd` of the ring before; nothing else changes |
| `VirtMem.Simulator.ReplacePageFIFO` | project_4/virtmem.c:22-24 | returns the FIFO victim of the current ring |
| `VirtMem.Simulator.InitLRU` | project_4/virtmem.c:26-28 | the stamps afterwards are `LruInit` of the stamps before; nothing else changes |
| `VirtMem.Simulator.UpdateLRUTimestamp` | project_4/virtmem.c:30-32 | the stamps and counter afterwards are `LruTouch` of those before; nothing else changes |
| `VirtMem.Simulator.ReplacePageLRU` | project_4/virtmem.c:34-44 | returns a slot in `[0, 500)` holding the minimum stamp with no lower slot holding it |
| `VirtMem.Simulator.InitPageTable` | project_4/virtmem.c:50-53 | the tables afterwards are `InitTables` of the tables before; the policies' arrays are untouched |
| `VirtMem.Simulator.CountEmptyFrames` | project_4/virtmem.c:55-63 | returns the number of frames below `nframes` holding -1 |
| `VirtMem.Simulator.HandlePageFault` | project_4/virtmem.c:65-87 | the tables afterwards, the returned frame and every undefined-behaviour outcome are those `HandleFault` specifies for the victim the chosen policy names |
| `VirtMem.Simulator.Reference` | project_4/virtmem.c:132-141 | the fault flag, the globals afterwards and every undefined-behaviour outcome are those of `Access` |
| `VirtMem.Simulator.ReplayReferences` | project_4/virtmem.c:130-142 | the fault count, the globals afterwards and every undefined-behaviour outcome are those of `Replay` over the buffer |
| `VirtMem.Simulator.Simulate` | project_4/virtmem.c:115-146 | the report equals `Run` on the configuration and oracles, and the globals afterwards are the replayed state |

## Left out

- Argument handling (lines 104-113): `Config` holds the five arguments already parsed. The algorithm and locality strings become enumerations, with one constructor for "any other string". Negative numbers from `atoi` are not modelled (the counts are `nat`).
- `Simulate` and `Run` require `npages <= 1000` and `nframes <= 500`. Larger values overflow the global arrays inside `initPageTable`, and the model does not follow the program there.
- `malloc` failure and `free` (lines 115-119, 148): allocation is taken to succeed, and `nrefs * sizeof(int)` is taken not to overflow.
- Output (lines 145-146): `Report` holds the two printed numbers.
- `srand(time(NULL))` and the distribution of `rand()` (lines 47, 90, 93, 97): every `rand()` result is an oracle argument, so nothing is said about uniformity.
- `Window`: the floating-point products `npages * 0.05` and `npages * 0.03` (line 95), truncated to `int`, are written as the integer quotients `npages * 5 / 100` and `npages * 3 / 100`. In IEEE double arithmetic the two forms agree for every `npages` from 0 to 1000, which is the whole range `Fits` admits; the model does not prove this, since it has no floating point.
- Integer widths: `int` and `long long` are unbounded here. The counter `lruFrameCount` does not wrap after 2^31 increments.
- Undefined behaviour: where C reads or writes outside a global array or computes `% 0`, the model stops with an `Outcome` naming the array and index. It does not follow what the compiled program might do next.
- `VirtMem.Simulator.UpdateLRUTimestamp` requires its slot to lie inside `lruTimestamps`. The out-of-range case is reported by `Simulation.Access` and `VirtMem.Simulator.Reference` before the call.
- `replacePageRAND` reads no global, so it is the function `Policies.RandVictim` rather than a method of the class.
