# TeraNoC runtime, golden model and tooling: a Dafny model

TeraNoC is a many-core cluster (NUM_CORES cores in tiles and groups on a network on chip). This project
models the parts of its software, data generators and scripts that hold real algorithms, in their own
form, and proves what they are for. All theorems are over every input, every run or every reachable
state: every core count that a 32-bit machine allows, and any number of rounds, blocks, requests, windows and matrix rows.

| Modules | What is modelled |
|---|---|
| `WakeUp`, `TreeBarrier*`, `BarrierPrograms`, `BarrierTheorems`, `BarrierLimits`, `BarrierTeams`, `BarrierEnds`, `BarrierExact` | The barriers of `software/runtime/synchronization.c` and the wake-up registers. Every core runs the C code in its own local variables, one shared-memory operation per step, in any interleaving, round after round on the same counters. A run is the state after an arbitrary schedule of cores. |
| `FreeList`, `Heap`, `Alloc` | The first-fit coalescing allocator of `software/runtime/alloc.c`, with the list threaded through the managed memory words. |
| `Flows`, `PortWindows`, `StallWindows`, `WindowBudget` | Transaction correlation and windowed counters of `hardware/scripts/perfetto_gen.py`. |
| `DigitReversal`, `SwapTable`, `ReorderKernels`, `RadixTwo`, `ParallelSwap`, `ParallelReverse` | The FFT reorder tables of `software/data/qmath.py` and the kernels that apply them, sequentially and on any number of cores in any interleaving. |
| `Newton`, `NewtonConvergence`, `Cholesky`, `Substitution` | The fixed-point golden model of `software/data/qmath.py`. |
| `Selector` | The rotating-priority selector that `hardware/scripts/gen_xbar.py` generates. |
| `Traffic` | The transaction ids of `hardware/tb/dpi/traffic_generator.cpp`. |
| `Arith`, `Options` | Powers of two, blocks and shifts; optional values. |

How the pieces fit together:

* **Barriers.** `TreeBarrier` is one generic machine: a tree of counters shared by teams of cores. Its
  inductive invariant is in `TreeBarrierInv`, its preservation in `TreeBarrierProof`, and safety, progress,
  termination and refinement of an abstract barrier in `TreeBarrierTheorems`. `BarrierPrograms` holds the
  five C functions with their own index arithmetic and loop variables; `BarrierTheorems.RunsMatch` shows that
  each of their runs is, state by state, a run of the tree, and carries every theorem over to the C code. `BarrierTeams`
  projects a run on one team, and `BarrierExact` says exactly for which machines and teams the barriers are safe and live.
* **Allocator.** `FreeList` works on lists of blocks, where `Canonical` says that a sorted coalesced list is
  determined by its set of free bytes. `Heap` ties lists to pointers in memory, `Alloc.Allocator` is the object.
* **Correlation.** `Flows.Run` says what a disciplined run of events is; the constructor of
  `Flows.Correlator` builds the index from the packet lists; `IndexIsRun`, `NoStreams` and `HopOfRun` relate the two.

## Assumptions

* Barriers: sequential consistency; a wake-up that arrives before `wfi` is latched; NUM_CORES, tiles, groups
  and team sizes are powers of two (at least 2 cores, group and tile masks of at most 32 bits); all cores
  of a team make the same call. Runs start from the state `mempool_barrier_init` leaves: all counters 0,
  no wake-up pending, every core outside.
* Allocator: the region lies below 2^32 and holds at least one block; a `domain_free` gets a pointer to a live
  block, or one whose header fails the canary test; clients write only inside their payloads.
* Correlation: `sorted` and `bisect` are what Python documents; here they are a sort function and two bisection methods.
* Golden model: integers do not overflow, `//` is the floor of the quotient and 0 for a zero divisor.
* Traffic: a response names an id whose request has been accepted and that has not been answered.

## Where the code does not do what it seems to promise

* `wake_up_tile` sends group ids above 7 to the register of group 0, while the terapool configuration has 16
  groups. `WakeUp.ReleaseExactIff` states exactly when the partial barrier wakes its team: unless it is in the
  tile branch and its group is above 7. Such a release leaves its own team stuck
  for good (`BarrierLimits.StuckAboveGroup7`) and wakes cores of group 0 early. `BarrierExact.BarrierSafeIff`: the partial
  barrier is safe for all cores in all runs if and only if every release is decoded; `TeamSafeIff` and `TeamLiveIff`
  say the same team by team: every team outside group 0 stays safe, and every one in groups 1 to 7 makes progress,
  whatever the others do.
* `domain_malloc` adds the header and rounds up on 32 bits. `Heap.BlockSizeFits` states exactly for which
  requests the block is large enough (up to 2^32 - 12), `Alloc.ZeroBlockRange` for which the size wraps to 0, and
  `DomainMalloc` exactly when the heap survives such a request.
* `bitreversal` takes any radix. `DigitReversal.PermutationIff` states exactly when the indices are a
  permutation: the radix is a power of two or larger than N.
* The wide swap kernel shifts 16-bit table entries arithmetically. `ReorderKernels.DecodeIff` states exactly which
  tables it reads right: those that only name samples below 4096, while the scalar kernel reaches all 8192;
  `RadixTwo.TooWide`: no radix-2 table of 8192 samples is one of them.
* The wide kernel reads eight table entries at a time. `RadixTwo.TableIsWholeChunks` states exactly for which
  lengths the table is a multiple of that: N of at most 2 or at least 32.
* `WindowAcc.add` ends its loop at the window of t - 1, where t is in nanoseconds. `StallWindows.SharesWhole` states
  exactly when the whole of a retirement's stalls is handed out: when no window border lies between t - 1 and t.
  With a clock of at least one nanosecond that always holds; with a faster one stalls can vanish
  (`FastClockLosesStalls`).
* A packet on a boundary cycle shared by two transactions can bind to the neighbour: `Flows.HopExact` states
  exactly when it binds to its own.
* "IPC + stalls == 1 when busy" fails in the trailing window, which is divided by the cycles from its start to the
  latest retirement, one too few: a core that retires in every cycle shows an IPC above 1 there
  (`WindowBudget.TwoPerCycle`). `StallWindows.CapBudget` and `WindowBudget.BudgetOfLast` state exactly when;
  all other windows keep the promise.
* `qsqrt(0)` is not 0 but S / 2048 (`Newton.RootOfZero`), 16 in the default format; so `qcholesky` puts that on
  the diagonal for a pivot that is not positive (`Cholesky.ClampedError`).
* The Newton iteration can swing between the root and the root plus one, and is then cut off: `Newton.StandsStill` and
  `Newton.IteratesStay` state exactly when. It can also be cut off before it converges: that depends on the
  ratio of scale and value. `NewtonConvergence.Converges` covers ratios up to 2^16, 2^14 and 2^12 with a bound on the
  product for each; `StopsEarly` is an input with ratio 2^22 where it is cut off.
* A response with any other id duplicates it in the free queue: `Traffic.ReturnIff`.

## Model

| member | source | states |
|---|---|---|
| `BarrierPrograms.IdxInC` | software/runtime/synchronization.c:76-76 | the block-based counter index of the model is the C expression (step * (core_id / step)) * 4 |
| `BarrierPrograms.ClimbAtLevel` | software/runtime/synchronization.c:108-130 | after winning a level each of the five functions climbs exactly to the next level, and stops exactly at the root: `num_cores == step`, or the any-radix remaining count reaching 1, happens there and nowhere else |
| `BarrierPrograms.AccessAtLevel` | software/runtime/synchronization.c:80-82 | at every level the fetch-and-add hits the counter of the core's aligned block, adds the size of a child, and compares with block size minus child size |
| `BarrierPrograms.TheTree` | software/runtime/synchronization.c:45-156 | for every valid machine there is one tree whose counters, increments, climbs and wake-ups are those of the C function |
| `BarrierTheorems.RunsMatch` | software/runtime/synchronization.c:45-237 | every run of any of the five C functions under any schedule is, state by state, a run of the counter tree, which keeps its invariant, until a partial barrier issues a release that `wake_up_tile` does not decode |
| `BarrierTheorems.BarrierSafe` | software/runtime/synchronization.c:75-95 | over every run and any number of rounds no core returns from its r-th call before all cores of its team have made their r-th, and no core ever holds more than one pending wake-up; in runs without an undecoded release (`BarrierTeams` lifts it to all runs, team by team) |
| `BarrierTheorems.OneWaker` | software/runtime/synchronization.c:86-89 | at most one core of a team is ever issuing wake-ups; in runs without an undecoded release (`BarrierTeams` lifts it to all runs, team by team) |
| `BarrierTheorems.CountersZero` | software/runtime/synchronization.c:84-88 | every counter any core of the team uses at any level is 0 when the winner is about to issue the wake-up; in runs without an undecoded release (`BarrierTeams` lifts it to all runs, team by team) |
| `BarrierTheorems.CountersShared` | software/runtime/synchronization.c:113-121 | two accesses hit the same word if and only if they are at the same level of the same aligned block; the plain barrier uses the word `barrier`, all others stay inside `log_barrier[4 * NUM_CORES]` |
| `BarrierTheorems.TeamsApart` | software/runtime/synchronization.c:200-208 | cores of different teams of a partial barrier never access the same counter, at whatever levels |
| `BarrierTheorems.NoWrap` | software/runtime/synchronization.c:80-82 | in every reachable state the 32-bit addition of a counter does not wrap |
| `BarrierTheorems.BarrierProgress` | software/runtime/synchronization.c:80-94 | when a whole team has made its n-th call and one core has not returned from it, some core of the team can step, also when others are already in later rounds; in runs without an undecoded release (`BarrierTeams` lifts it to all runs, team by team) |
| `BarrierTheorems.BarrierRefines` | software/runtime/synchronization.c:97-156 | each step of the C code is a call, an opening, a return or no step of the abstract barrier, whose round opens only when its whole team has called; in runs without an undecoded release (`BarrierTeams` lifts it to all runs, team by team) |
| `BarrierTheorems.WholeMachine` | software/runtime/synchronization.c:45-55 | for all but a smaller partial barrier the team is the whole machine |
| `BarrierTheorems.AllReleasing` | software/runtime/synchronization.c:212-229 | where every release is decoded, the theorems cover every run |
| `BarrierTeams.Projected` | software/runtime/synchronization.c:198-208 | a team whose counters are its own and that no other release wakes goes through the states of the run of its own steps alone |
| `BarrierTeams.TeamSafe` | software/runtime/synchronization.c:189-237 | in every run, whatever other teams do and release, a team outside group 0, or any team if all releases are decoded, is safe and holds at most one pending wake-up per core |
| `BarrierTeams.TeamProgress` | software/runtime/synchronization.c:189-237 | in every run such a team, if its own release is decoded, makes progress |
| `BarrierTeams.TeamOneWaker` | software/runtime/synchronization.c:209-229 | in every run such a team has one waker |
| `BarrierTeams.TeamCountersZero` | software/runtime/synchronization.c:203-209 | in every run the counters of such a team are 0 when it is about to be woken |
| `BarrierTeams.TeamRefines` | software/runtime/synchronization.c:189-237 | in every run each step of such a team is a step of the abstract barrier, and no step of another team shows |
| `BarrierEnds.BarrierTerminates` | software/runtime/synchronization.c:45-237 | in every run of every barrier, while no core makes more than r calls there are at most cores * r * (2 * levels + writes + 2) effective steps |
| `BarrierExact.EarlyReturn` | software/runtime/runtime.h:191-193 | for every machine with an undecoded release and every core of group 0 there is a run in which that core returns before a team mate has called |
| `BarrierExact.TeamSafeIff` | software/runtime/runtime.h:164-195 | a core is safe in all runs if and only if every release of the machine is decoded or the core is outside group 0 |
| `BarrierExact.BarrierSafeIff` | software/runtime/runtime.h:164-195 | the barrier is safe for all cores in all runs if and only if every release is decoded |
| `BarrierExact.Hangs` | software/runtime/runtime.h:164-195 | a team whose release is not decoded has a run in which all its cores have called, none returns and none can step |
| `BarrierExact.TeamLiveIff` | software/runtime/runtime.h:164-195 | a team that no stray release reaches makes progress in all runs if and only if its own release is decoded |
| `BarrierLimits.StuckAboveGroup7` | software/runtime/runtime.h:164-195 | in the tile branch a core of a group above 7 is never woken and never returns, in any run |
| `TreeBarrierProof.CellsDistinct` | software/runtime/synchronization.c:21-24 | the counters of different nodes of the tree are different words |
| `TreeBarrierProof.FetchedValue` | software/runtime/synchronization.c:80-82 | a fetch returns child size times the number of earlier arrivals of this round, there are fewer than radix of them, and the last arrival is recognised exactly |
| `TreeBarrierProof.NextInv` | software/runtime/synchronization.c:75-95 | the invariant of the tree is kept by every step of every core |
| `TreeBarrierProof.ExecInv` | software/runtime/synchronization.c:75-95 | the invariant holds after every schedule |
| `TreeBarrierTheorems.NoEarlyReturn` | software/runtime/synchronization.c:75-95 | tree form of the safety theorem |
| `TreeBarrierTheorems.CountersZeroAtWake` | software/runtime/synchronization.c:84-88 | all counters of the team are 0 when the first wake-up is about to be issued |
| `TreeBarrierTheorems.CounterBound` | software/runtime/synchronization.c:80-82 | a counter never exceeds the number of cores that share it |
| `TreeBarrierTheorems.EveryNodeFull` | software/runtime/synchronization.c:80-94 | when the root is about to be reset, every node of the team has had exactly its radix of arrivals |
| `TreeBarrierTheorems.Progress` | software/runtime/synchronization.c:80-94 | when a whole team has made at least n calls and one core has not returned n times, some core of the team can step |
| `TreeBarrierTheorems.Terminates` | software/runtime/synchronization.c:80-94 | a decreasing measure bounds the effective steps of r rounds |
| `TreeBarrierTheorems.Refines` | software/runtime/synchronization.c:75-95 | every step refines the abstract one-shot-per-round barrier |
| `WakeUp.TeamInitInC` | software/runtime/synchronization.c:192-192 | the first core of a team is num_cores_barrier * (core_id / num_cores_barrier) |
| `WakeUp.MaskBits` | software/runtime/synchronization.c:217-223 | ((1 << n) - 1) << i has exactly the bits i to i + n - 1 set on 32 bits |
| `WakeUp.PartialWrites` | software/runtime/synchronization.c:212-229 | the all, group and tile branches make one register write, the core branch one per core |
| `WakeUp.PartialWakeExact` | software/runtime/synchronization.c:212-229 | the k-th register write wakes exactly the cores of the team at wake position k, whichever branch is taken |
| `WakeUp.ReleaseExactIff` | software/runtime/runtime.h:164-195 | the release wakes exactly [core_init, core_end) if and only if it is not the tile branch with a group id above 7 |
| `FreeList.Canonical` | software/runtime/alloc.c:153-189 | two sorted, coalesced lists with the same free bytes are equal |
| `FreeList.FirstFitIsLowest` | software/runtime/alloc.c:84-88 | the search returns a sufficient block with all earlier ones too small, and none if and only if no block is that large |
| `FreeList.TakeOrdered` | software/runtime/alloc.c:90-112 | taking a block, whole or split, keeps the list sorted and coalesced |
| `FreeList.TakeBytes` | software/runtime/alloc.c:90-112 | taking a block removes exactly its bytes |
| `FreeList.InsertOrdered` | software/runtime/alloc.c:165-188 | giving a block back keeps the list sorted and coalesced in all four merge cases |
| `FreeList.InsertBytes` | software/runtime/alloc.c:165-188 | giving a block back adds exactly its bytes |
| `FreeList.TakeInsert` | software/runtime/alloc.c:79-117 | a take followed by giving the block back restores the exact list |
| `FreeList.InsertsCommute` | software/runtime/alloc.c:153-189 | any two frees commute |
| `Heap.BlockSizeFits` | software/runtime/alloc.c:120-122 | the block holds header and payload if and only if the request is at most 2^32 - 12, and wastes less than 8 bytes |
| `Heap.Decode` | software/runtime/alloc.c:45-56 | decoding the header word gives back the size (below 2^24) and the canary |
| `Heap.EmptyHeapIsOneBlock` | software/runtime/alloc.c:61-74 | with nothing live the list is the single initial block |
| `Heap.FreeListDetermined` | software/runtime/alloc.c:79-189 | the free list is determined by the region and the live blocks, whatever the history |
| `Heap.MallocKeeps` | software/runtime/alloc.c:119-144 | a malloc keeps the heap invariant: list in memory, headers, and free plus live blocks tiling the region exactly |
| `Heap.FreeKeeps` | software/runtime/alloc.c:191-207 | a free keeps the heap invariant |
| `Heap.StoreKeeps` | software/runtime/alloc.c:138-143 | whatever a client writes inside a payload keeps the heap invariant |
| `Alloc.TakeBlock` | software/runtime/alloc.c:90-112 | the pointer stores of allocate_memory turn the list in memory into the list with the block taken, and touch only free words |
| `Alloc.InsertBlock` | software/runtime/alloc.c:165-188 | the pointer stores of free_memory turn the list in memory into the list with the block inserted and merged |
| `Alloc.Allocator.Init` | software/runtime/alloc.c:61-74 | the initial heap is one aligned block and satisfies the invariant |
| `Alloc.Allocator.FindFit` | software/runtime/alloc.c:80-88 | the search loop over the pointers finds the first fit and its predecessor |
| `Alloc.Allocator.AllocateMemory` | software/runtime/alloc.c:79-117 | returns the first-fit block and takes it from the list, or NULL if and only if there is none |
| `Alloc.Allocator.FindPlace` | software/runtime/alloc.c:156-163 | the search loop finds the address-sorted position |
| `Alloc.Allocator.FreeMemory` | software/runtime/alloc.c:153-189 | inserts and coalesces the block, keeps the list well formed and touches no other word |
| `Alloc.Allocator.DomainMalloc` | software/runtime/alloc.c:119-144 | fails exactly when the rounded size is at least 2^24 or no free block is that large, and then changes nothing; otherwise the lowest sufficient block becomes live with its header, holds the payload for requests up to 2^32 - 12, and is apart from all live blocks; the heap stays valid if and only if the size has not wrapped to 0, or nothing is free, or the first free block is as large as its canary |
| `Alloc.Allocator.DomainFree` | software/runtime/alloc.c:191-207 | frees exactly the block that was allocated, with the size from the canary word; a failed canary changes nothing |
| `Alloc.Allocator.MallocThenFree` | software/runtime/alloc.c:119-207 | a malloc immediately followed by its free restores the exact previous list |
| `Alloc.Allocator.FreeAll` | software/runtime/alloc.c:153-207 | freeing every live block in any order restores the single initial block |
| `Alloc.Allocator.ClientStore` | software/runtime/alloc.c:138-143 | client writes inside a payload keep the invariant |
| `Alloc.Allocator.EmptyIsInitial` | software/runtime/alloc.c:61-74 | a valid heap without live blocks is the initial one |
| `Alloc.ZeroBlockBreaksList` | software/runtime/alloc.c:120-139 | a request whose rounded size wraps to 0 overwrites the size word of the first free block, and the list survives if and only if that block is as large as its canary |
| `Alloc.ZeroBlockBreaksHeap` | software/runtime/alloc.c:120-139 | the same for the whole heap invariant |
| `Alloc.ZeroBlockRange` | software/runtime/alloc.c:120-122 | the size wraps to 0 exactly for requests from 2^32 - 11 to 2^32 - 4 |
| `Alloc.NewRoom` | software/runtime/alloc.c:119-144 | a new block has room for the payload and is apart from every live block |
| `Flows.SortFacts` | hardware/scripts/perfetto_gen.py:991-992 | the sort yields a sorted permutation |
| `Flows.BisectRight` | hardware/scripts/perfetto_gen.py:1040-1042 | bisection finds the border between entries at most x and above x |
| `Flows.BisectLeft` | hardware/scripts/perfetto_gen.py:1040-1042 | bisection finds the border between entries below x and at least x, with infinity last |
| `Flows.Lookup` | hardware/scripts/perfetto_gen.py:1037-1049 | the bisected lookup equals a linear scan: an interval if and only if one contains the cycle, the latest for a request, the earliest for a response |
| `Flows.LookupScan` | hardware/scripts/perfetto_gen.py:1040-1045 | if any interval contains the cycle, the bisected one does and is the first choice |
| `Flows.SharedBoundary` | hardware/scripts/perfetto_gen.py:1004-1007 | two intervals of a bucket that is no stream share at most one cycle, the response of one and the request of the other |
| `Flows.GroupByMeta` | hardware/scripts/perfetto_gen.py:983-988 | the dictionaries hold for each meta id exactly its cycles in trace order, and list each id once |
| `Flows.MakeIntervals` | hardware/scripts/perfetto_gen.py:1008-1013 | one interval per request, consecutive flow ids, in-flight ones counted |
| `Flows.Correlate` | hardware/scripts/perfetto_gen.py:991-1020 | sorts, pairs k-th request with k-th response, reports a stream if and only if two transactions overlap, and numbers the intervals |
| `Flows.InflightCount` | hardware/scripts/perfetto_gen.py:1012-1017 | the in-flight count is the surplus of requests over responses |
| `Flows.AddKeepsFids` | hardware/scripts/perfetto_gen.py:1008-1013 | a new bucket keeps flow ids globally unique and below the next one |
| `Flows.Correlator.constructor` | hardware/scripts/perfetto_gen.py:980-1021 | for every requester and meta id the index holds its paired transactions, or the stream set holds its key, and nothing else; n_txn == _next - 1 |
| `Flows.Correlator.AddPort` | hardware/scripts/perfetto_gen.py:981-1021 | one requester: all its meta ids are indexed and other requesters' entries stay |
| `Flows.Correlator.AddBucket` | hardware/scripts/perfetto_gen.py:990-1020 | one meta id: index, streams and all counters after it |
| `Flows.Correlator.Fid` | hardware/scripts/perfetto_gen.py:1023-1049 | the lookup is the linear scan, and bound + unbound + stream_pkts grows by one per lookup |
| `Flows.RecoversTransactions` | hardware/scripts/perfetto_gen.py:949-957 | whatever order the trace lists them in, sorting recovers requests and responses in issue order, and no stream is seen |
| `Flows.RunIsTrue` | hardware/scripts/perfetto_gen.py:949-957 | in a run where no id is reissued before its response, each key's transactions are consecutive |
| `Flows.IndexIsRun` | hardware/scripts/perfetto_gen.py:980-1021 | the index of such a run holds exactly its transactions, each request with its own response |
| `Flows.NoStreams` | hardware/scripts/perfetto_gen.py:1004-1007 | such a run has no stream |
| `Flows.HopBindsToOwn` | hardware/scripts/perfetto_gen.py:1023-1032 | a request hop strictly before the response, and a response hop strictly after the request, resolve to their own interval |
| `Flows.HopOfRun` | hardware/scripts/perfetto_gen.py:1023-1049 | in such a run every such hop gets the flow id of its transaction, which no other transaction has |
| `Flows.HopExact` | hardware/scripts/perfetto_gen.py:1023-1032 | on a boundary cycle a hop binds to its own transaction if and only if the neighbouring interval does not reach it |
| `PortWindows.AddRun` | hardware/scripts/perfetto_gen.py:1263-1273 | one run adds to every window exactly its overlap with it, as handshake or stall |
| `PortWindows.Accumulate` | hardware/scripts/perfetto_gen.py:1261-1273 | every window holds exactly the handshake and stall cycles the runs spend in it, and maxw covers all of them |
| `PortWindows.Conserved` | hardware/scripts/perfetto_gen.py:1261-1273 | handshake and stall cycles summed over the windows equal the total run lengths |
| `PortWindows.WindowBound` | hardware/scripts/perfetto_gen.py:1261-1273 | for non-overlapping runs a window never holds more cycles than its size |
| `PortWindows.UtilAtMostOne` | hardware/scripts/perfetto_gen.py:1276-1284 | so the utilisation stays between 0 and 1 |
| `PortWindows.EmitCounter` | hardware/scripts/perfetto_gen.py:1274-1294 | emitting on change only, the sample-and-hold counter is exact in every window and 0 behind the last; unforced, no value is emitted twice in a row |
| `PortWindows.PortCounters` | hardware/scripts/perfetto_gen.py:1261-1294 | the three counters of a port show in every window the exact handshake, stall and combined fractions |
| `StallWindows.NoBorderOnTicks` | hardware/scripts/perfetto_gen.py:333-333 | with a clock of at least 1 ns and windows of whole cycles no border lies between t - 1 and t |
| `StallWindows.SharesTotal` | hardware/scripts/perfetto_gen.py:332-337 | what the shares of a gap add up to |
| `StallWindows.SharesWhole` | hardware/scripts/perfetto_gen.py:323-337 | the shares of a retirement add up to 1 if and only if there is no gap or no border between t - 1 and t |
| `StallWindows.FastClockLosesStalls` | hardware/scripts/perfetto_gen.py:333-333 | with a 0.5 ns clock a stall gets no share at all |
| `StallWindows.WindowAcc.SpreadGap` | hardware/scripts/perfetto_gen.py:332-337 | the loop gives every window its share of each stall counter |
| `StallWindows.WindowAcc.Add` | hardware/scripts/perfetto_gen.py:323-337 | every window gets its share and the retirement is counted in the window of t; the sums over the emitted windows grow by exactly the stalls and by one |
| `StallWindows.WindowAcc.Record` | hardware/scripts/perfetto_gen.py:517-571 | over a whole trace the emitted windows hold every retirement, each in the window of its cycle, and with a clock of at least 1 ns every stall cycle |
| `WindowBudget.Divisors` | hardware/scripts/perfetto_gen.py:349-355 | a window before the last is divided by its cycles, the last by the cycles from its start to the latest retirement, one fewer than it can retire in |
| `StallWindows.WindowAcc.Emit` | hardware/scripts/perfetto_gen.py:339-385 | each metric's held counter shows the capped value in every window and 0 behind the last |
| `StallWindows.CapTotal` | hardware/scripts/perfetto_gen.py:363-374 | the capped components sum to min(measured, max(0, 1 - IPC)) |
| `StallWindows.CapBudget` | hardware/scripts/perfetto_gen.py:357-374 | for non-negative stalls IPC plus stalls is at most 1 if and only if the window has no more retirements than cycles it is divided by, and equals 1 if and only if moreover the measured stalls fill the budget; otherwise IPC exceeds 1 |
| `StallWindows.CapRatio` | hardware/scripts/perfetto_gen.py:363-373 | all components are scaled by one factor, which is below 1 if and only if they exceed the budget |
| `WindowBudget.CountBound` | hardware/scripts/perfetto_gen.py:324-325 | a core that retires at most once per cycle has at most one retirement per cycle of a window |
| `WindowBudget.BudgetBeforeLast` | hardware/scripts/perfetto_gen.py:357-374 | for such a core every window but the last shows IPC plus stalls of at most 1 |
| `WindowBudget.BudgetOfLast` | hardware/scripts/perfetto_gen.py:352-374 | the last window does if and only if it has one retirement, or some cycle from its start to the latest retirement has none |
| `WindowBudget.TwoPerCycle` | hardware/scripts/perfetto_gen.py:352-353 | two retirements in the first two cycles of a trace show an IPC of 2 |
| `DigitReversal.Decompose` | software/data/qmath.py:368-375 | the loop computes the digit widths |
| `DigitReversal.WidthsSum` | software/data/qmath.py:368-375 | for power-of-two N and R the widths make up all bits |
| `DigitReversal.ReverseDigits` | software/data/qmath.py:379-384 | the shift loop cuts the bits into digits and puts them together in opposite order |
| `DigitReversal.MakeIndexes` | software/data/qmath.py:377-384 | the index list is the digit reversal |
| `DigitReversal.ReverseInverse` | software/data/qmath.py:376-384 | digit reversal maps [0, N) to itself and is undone by reversing with the reversed widths |
| `DigitReversal.ReverseBijective` | software/data/qmath.py:376-384 | so it is a bijection |
| `DigitReversal.Collision` | software/data/qmath.py:368-384 | widths that miss a bit make two indices collide |
| `DigitReversal.PermutationIff` | software/data/qmath.py:368-387 | the indices are a permutation if and only if R is a power of two or exceeds N |
| `SwapTable.CycleEffect` | software/data/qmath.py:387-389 | the swaps of one cycle move each of its elements where the permutation says, and nothing else |
| `SwapTable.TableScatters` | software/data/qmath.py:385-390 | the table applied in order and in place is the scatter dst[f(x)] = src[x] |
| `SwapTable.AppendCycle` | software/data/qmath.py:388-389 | the inner loop appends the swaps of one cycle |
| `SwapTable.MakeTable` | software/data/qmath.py:385-390 | the loops produce the flattened table of byte offsets |
| `ReorderKernels.SwapSamples` | software/kernels/baremetal/mempool_cfft_q16_bitreversal.h:18-26 | both components of two samples are exchanged |
| `ReorderKernels.SwapByTable` | software/kernels/baremetal/mempool_cfft_q16_bitreversal.h:10-28 | the in-place kernel applies the table's swaps to the samples, in order, for all N up to 8192 |
| `ReorderKernels.ReorderScatters` | software/kernels/baremetal/mempool_cfft_q16_bitreversal.h:14-27 | for every power-of-two N and R the table moves sample x to its digit-reversed place, both components |
| `ReorderKernels.ApplyExchanges` | software/kernels/baremetal/mempool_cfft_q16_bitreversal.h:65-103 | for disjoint pairs the sequential swaps are the simultaneous exchange |
| `ReorderKernels.AnyInterleaving` | software/kernels/baremetal/mempool_cfft_q16_bitreversal.h:119-133 | in any order of the loads and stores of disjoint swaps, each swap with its own registers, memory ends as the sequential swaps leave it once all stores are made |
| `ReorderKernels.Sra16Exact` | software/kernels/baremetal/mempool_cfft_q16_bitreversal.h:70-73 | the arithmetic 16-bit shift addresses sample c if and only if c is below 4096 |
| `ReorderKernels.DecodeIff` | software/kernels/baremetal/mempool_cfft_q16_bitreversal.h:66-81 | the wide kernels decode a table of up to 8192 samples right if and only if it only names samples below 4096 |
| `ReorderKernels.ExchangeFour` | software/kernels/baremetal/mempool_cfft_q16_bitreversal.h:88-103 | eight loads then eight stores exchange four disjoint pairs |
| `ReorderKernels.SwapItems` | software/kernels/baremetal/mempool_cfft_q16_bitreversal.h:65-103 | one expansion continues the sequential swaps by four |
| `ReorderKernels.SwapFourAtATime` | software/kernels/baremetal/mempool_cfft_q16_bitreversal.h:106-117 | the wide kernel leaves the same array as the sequential swaps |
| `ReorderKernels.SwapOwner` | software/kernels/baremetal/mempool_cfft_q16_bitreversal.h:129-131 | in the parallel kernel every swap belongs to exactly one core and iteration |
| `ParallelSwap.Visits` | software/kernels/baremetal/mempool_cfft_q16_bitreversal.h:129-131 | the loop of a core is at a swap in an iteration if and only if it owns the swap and it is its turn |
| `ParallelSwap.StepRelated` | software/kernels/baremetal/mempool_cfft_q16_bitreversal.h:65-103 | each of the sixteen accesses of a core, with its decoded addresses and reused registers, is one access of the machine with registers per swap |
| `ParallelSwap.RunsRefine` | software/kernels/baremetal/mempool_cfft_q16_bitreversal.h:119-131 | every schedule of the cores is a run of that machine |
| `ParallelSwap.DoneFinished` | software/kernels/baremetal/mempool_cfft_q16_bitreversal.h:129-131 | when all cores have left their loops, every swap has made all its accesses |
| `ParallelSwap.ParallelKernel` | software/kernels/baremetal/mempool_cfft_q16_bitreversal.h:119-131 | in every interleaving of any number of cores, memory ends as the sequential swaps leave it, for disjoint swaps of samples below 4096 |
| `ParallelSwap.CoreProgress` | software/kernels/baremetal/mempool_cfft_q16_bitreversal.h:129-131 | a core in its loop comes closer to the end with each of its steps |
| `RadixTwo.WidthsAreOnes` | software/data/qmath.py:368-375 | for R = 2 all digits are one bit wide |
| `RadixTwo.RevInvolution` | software/data/qmath.py:376-384 | for R = 2 reversal is an involution |
| `RadixTwo.ReverseIndex` | software/kernels/baremetal/mempool_cfft_q16_bitreversal.h:140-145 | the bit loop of the direct kernel computes the bit reversal |
| `RadixTwo.BitrevCore` | software/kernels/baremetal/mempool_cfft_q16_bitreversal.h:135-148 | one core writes exactly its samples to their reversed places, both components |
| `RadixTwo.TableApart` | software/data/qmath.py:385-390 | the swaps of the radix-2 table are pairwise disjoint |
| `RadixTwo.ScatterIsTable` | software/data/qmath.py:385-390 | an array with every sample at its reversed place is the one the table swaps leave |
| `ParallelReverse.DirectKernel` | software/kernels/baremetal/mempool_cfft_q16_bitreversal.h:135-148 | in every interleaving of any number of cores the direct kernel scatters every sample, both components, to its reversed place |
| `ParallelReverse.DirectIsTable` | software/kernels/baremetal/mempool_cfft_q16_bitreversal.h:135-148 | so it computes what the sequential table swaps compute in place |
| `ParallelReverse.ParallelKernelsAgree` | software/kernels/baremetal/mempool_cfft_q16_bitreversal.h:119-148 | the parallel table kernel and the parallel direct kernel give the same array, whatever the core counts and interleavings |
| `RadixTwo.TableLength` | software/data/qmath.py:385-390 | the table has N - 2^ceil(n/2) entries |
| `RadixTwo.TableIsWholeChunks` | software/kernels/baremetal/mempool_cfft_q16_bitreversal.h:114-116 | the table length is a multiple of 8 if and only if n <= 1 or n >= 5 |
| `RadixTwo.TooWide` | software/kernels/baremetal/mempool_cfft_q16_bitreversal.h:70-73 | every radix-2 table of 8192 samples has an entry that they decode to a negative word |
| `Newton.StepAbove` | software/data/qmath.py:149-149 | a step from anywhere lands at or above the floor root |
| `Newton.StepDown` | software/data/qmath.py:149-149 | above the root a step goes strictly down |
| `Newton.StandsStill` | software/data/qmath.py:149-151 | two iterates are equal if and only if both are the exact floor root and n * S is not one below the next square |
| `Newton.StepQuadratic` | software/data/qmath.py:149-149 | quadratic convergence |
| `Newton.IteratesAbove` | software/data/qmath.py:146-153 | for n > 0 no iterate is 0, and all after the first are at least the root |
| `Newton.IteratesFall` | software/data/qmath.py:146-153 | the iterates fall strictly until they reach the root |
| `Newton.IteratesStay` | software/data/qmath.py:146-153 | once at s or s + 1 all later iterates stay there, fixed at s or swinging between the two |
| `Newton.RootError` | software/data/qmath.py:146-154 | the capped loop ends at or above the root, by at most 2 plus a 1024th of the first error |
| `Newton.EqualExit` | software/data/qmath.py:150-152 | an exit on equal iterates is an exit at the exact floor root |
| `Newton.Converged` | software/data/qmath.py:150-154 | once within one of the root, the result is the exact root if and only if n * S is not one below a square, or the swing ends there |
| `Newton.Qsqrt` | software/data/qmath.py:142-154 | the loop with its early exit returns the eleventh iterate |
| `Newton.RootOfZero` | software/data/qmath.py:142-154 | the root of 0 comes out as S / 2048 |
| `NewtonConvergence.Converges` | software/data/qmath.py:146-154 | where scale and value make it certain the tenth iterate is within one of the root, and the result is the exact root, or one above when v * S is one below a square |
| `NewtonConvergence.TenthIterate` | software/data/qmath.py:146-153 | certain are: v * S below 210^2; or a ratio of scale and value of at most 2^16, 2^14 or 2^12 with v * S below 1400^2, 2^44 or 2^66 |
| `NewtonConvergence.RatioShrinks` | software/data/qmath.py:149-149 | one step turns an error of at most a * s + b into one of at most a' * s + b', for coefficients that satisfy three inequalities |
| `NewtonConvergence.FirstRatioError` | software/data/qmath.py:143-149 | the first error is bounded by the ratio of scale and value |
| `NewtonConvergence.SixteenBitsAreCertain` | software/data/qmath.py:142-154 | scales and values up to 2^16 are certain |
| `NewtonConvergence.TenFractionalBitsAreCertain` | software/data/qmath.py:142-154 | with 10 fractional bits all values up to 2^24 are, among them all pivots of the cholesky_q32 data set |
| `NewtonConvergence.StopsEarly` | software/data/qmath.py:150-151 | elsewhere the cap can stop early: an input whose ratio is 2^22 and whose result is 640 too large |
| `Cholesky.PivotError` | software/data/qmath.py:188-192 | scaling each product on its own loses less than one unit per product |
| `Cholesky.PivotLoop` | software/data/qmath.py:188-192 | the inner loop computes the pivot |
| `Cholesky.Qcholesky` | software/data/qmath.py:168-198 | a non-square matrix is refused; otherwise every entry of the result in place satisfies its defining equation |
| `Cholesky.OffDiagonalError` | software/data/qmath.py:187-194 | -j(S-1) <= S*A[i,j] - sum L[i,k]L[j,k] <= L[j,j]-1 below the diagonal, for every scale of at least 2048, or a positive pivot |
| `Cholesky.DiagonalPositive` | software/data/qmath.py:177-186 | a diagonal entry is positive if and only if its pivot is or S is at least 2048 |
| `Cholesky.DiagonalError` | software/data/qmath.py:177-186 | on the diagonal the upper bound 2*L[j,j] for every positive pivot; the lower bound when the root has converged, which it always has where scale and pivot make it certain, less one when S times the pivot is one below a square |
| `Cholesky.ClampedError` | software/data/qmath.py:182-186 | for a pivot that is not positive the diagonal misses by S times the pivot and the square of S / 2048 |
| `Substitution.Subtract` | software/data/qmath.py:292-296 | the inner loop computes both parts of the remaining sum |
| `Substitution.InvertLower` | software/data/qmath.py:284-301 | every row of the forward substitution is solved from the rows before it |
| `Substitution.InvertUpper` | software/data/qmath.py:316-334 | every row of the back substitution is solved from the rows behind it |
| `Substitution.RowError` | software/data/qmath.py:289-301 | each row holds, with the real part of its diagonal entry, up to S-1 per column and the diagonal entry, for either sign of it; the imaginary part of the diagonal is ignored, as in the code |
| `Substitution.ResidualIsError` | software/data/qmath.py:289-301 | the true residual differs from that by the imaginary part of the diagonal entry times the other part of the unknown |
| `Substitution.ResidualBound` | software/data/qmath.py:289-301 | with a real diagonal entry the bound is one on the residual of M x = S y |
| `Selector.GenerateCase` | hardware/scripts/gen_xbar.py:106-127 | one case lists the set bits in ascending order, then invalid outputs |
| `Selector.GenerateTable` | hardware/scripts/gen_xbar.py:99-132 | there is one such case for every value of the rotated vector |
| `Selector.BinaryOfValue` | hardware/scripts/gen_xbar.py:106-109 | the case that matches a vector is the one generated from its bits |
| `Selector.RotateTurns` | hardware/scripts/gen_xbar.py:66-71 | the two shifts rotate the request vector by the priority |
| `Selector.SelectInports` | hardware/scripts/gen_xbar.py:74-84 | the selected indices are rotated back |
| `Selector.AssignOutports` | hardware/scripts/gen_xbar.py:85-96 | the assignment is the inverse partial map of the valid selections |
| `Selector.Select` | hardware/scripts/gen_xbar.py:66-132 | output m is valid if and only if there are more than m requesters and then selects the m-th in cyclic order from the priority; input k is assigned if and only if it requests and fewer than OutNum requesters come before it |
| `Selector.Inverse` | hardware/scripts/gen_xbar.py:85-96 | output m validly selects k if and only if k is validly assigned m |
| `Selector.InOrder` | hardware/scripts/gen_xbar.py:66-96 | a requester closer to the priority than a served one is served, at a lower output |
| `Selector.TotalIsPopcount` | hardware/scripts/gen_xbar.py:108-110 | the number of requesters is the popcount of the request vector, whatever the priority |
| `Traffic.Sub32OfTimes` | hardware/tb/dpi/traffic_generator.cpp:162-163 | the 32-bit difference of wrapped cycles is the wrapped elapsed time |
| `Traffic.ElapsedExact` | hardware/tb/dpi/traffic_generator.cpp:162-163 | it is the true latency if and only if that is below 2^32 |
| `Traffic.Merge` | hardware/tb/dpi/traffic_generator.cpp:110-117 | masked address bits come from the base, the others stay |
| `Traffic.Align` | hardware/tb/dpi/traffic_generator.cpp:120-120 | the address is word aligned and otherwise unchanged |
| `Traffic.Partition` | hardware/tb/dpi/traffic_generator.cpp:89-95 | the invariant means: free, queued and in-flight ids repeat nothing, are pairwise disjoint and together are exactly all ids |
| `Traffic.ReturnIff` | hardware/tb/dpi/traffic_generator.cpp:157-159 | pushing an answered id back keeps that if and only if it was in flight |
| `Traffic.TotalBump` | hardware/tb/dpi/traffic_generator.cpp:164-167 | counting a latency raises the histogram total by one |
| `Traffic.AnswerLatency` | hardware/tb/dpi/traffic_generator.cpp:162-163 | the difference taken is the time since this transaction's own creation |
| `Traffic.Generator.Initialize` | hardware/tb/dpi/traffic_generator.cpp:90-95 | every core starts with all its ids free |
| `Traffic.Generator.CreateRequest` | hardware/tb/dpi/traffic_generator.cpp:81-142 | keeps the invariant; a request is made if and only if it is wanted and an id is free; shows the front request |
| `Traffic.Generator.ProbeResponse` | hardware/tb/dpi/traffic_generator.cpp:144-169 | keeps the invariant; accepts the front request, frees the answered id, counts its latency from its creation, and keeps the histogram total equal to the number of responses |

## Left out

- `mempool_strided_barrier`, `mempool_strided_log_barrier`, `mempool_partial_barrier`: stride and offset registers; the strided log barrier continues in the unstrided one, and the wake set of the partial barrier over arbitrary ranges depends on operator precedence that the code leaves open.
- `mempool_barrier` with fewer than NUM_CORES cores: it wakes every core.
- `mempool_barrier_init`: runs start from the state it leaves.
- Weak-memory effects of relaxed atomics, the RTL of the wake-up unit and the network: not part of this model.
- The any-radix local `step` is unbounded; past the root its 32-bit value is never used.
- BarrierTheorems.BarrierSafe: for a partial barrier it covers runs until an undecoded release (tile branch, group above 7) is issued; `BarrierTeams.TeamSafe` covers the other runs for every team outside group 0, and `BarrierExact.EarlyReturn` shows it false for those in it.
- BarrierTeams.TeamProgress: says nothing of a team of group 0 that stray releases can reach.
- The allocator is one object on a map of aligned words; the per-tile instances and `alloc_dump` are the same code or output.
- Alloc.Allocator.DomainFree: does not cover pointers that are not live but whose preceding word happens to pass the canary test; the C code cannot tell them apart.
- The nested dictionary of `Flows` is one map keyed by requester and meta id; the base offset of `_build` is part of the requester index; `report` and the Perfetto output are formatting.
- Windowed counters are over real numbers; float rounding is not modelled, and the range-pinning points are left out. `Record` takes a trace inside one export window, where the previous time is not reset.
- The cycle decomposition of sympy is specified, not modelled: each non-trivial cycle is listed once, in any order and from any start.
- The reorder kernels work on samples and table offsets; the barrier call that ends the parallel kernels is covered by the barrier theorems.
- ReorderKernels.SwapFourAtATime: does not cover tables whose swaps share samples, whose length is no multiple of 8, or that name samples from 4096 on; the generators only build radix-2 tables (`RadixTwo.TableApart`, `RadixTwo.TableIsWholeChunks`).
- Fixed-point overflow and dtype conversion of numpy; the vectors of the substitutions are local sequences that each row updates.
- `qccholesky`: its off-diagonal product is not conjugated, so no product law follows; `qmatmul`, twiddles and `q_sat` would only add easy members.
- Cholesky.DiagonalError: where scale and pivot do not make convergence certain, the lower bound needs a converged root, because the loop can be cut off before (`NewtonConvergence.StopsEarly`).
- The selector is modelled for a priority below InNum and without the bit widths of its indices, all of which fit.
- Traffic.Generator.ProbeResponse: assumes that a response names an accepted and unanswered id; `Traffic.ReturnIff` shows that any other id breaks the pools.
- The traffic generator has a parameter for the number of ids per core (2048 in the code), random choices are parameters, counts do not overflow, and `print_histogram` is output.
- The other kernels (matmul, axpy, channel estimation, batch norm, C Cholesky), `printf.c`, `string.c`, checks, trace parsing, plotting, build and bench scripts.
