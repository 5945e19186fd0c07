# mm-mem: proofs about its algorithms

mm-mem measures memory latency, bandwidth, copying and branch throughput. Its numbers mean
something only if the algorithms under the measuring loops are right. This project models
those algorithms in Dafny and proves them, for all sizes, draws, clocks, inputs and
interruption points. `dafny verify dfyconfig.toml` checks the project.

## What is modelled

Code that works by changing things in the original is a class or a method with loops here;
each such method is proved equal to a specification function, and the properties are lemmas
about that function.

- **The pointer ring** (`Shuffle`, `Reachability`, `Ring`, `Layouts`, `MemRegion`,
  `SharedStream`). A shuffle driven by an arbitrary stream of draws, the three layouts that
  link a region into a ring, what following the pointers visits, and several workers laying
  out their regions from one stream. Memory is an array of cells by byte offset, and a store
  tears the words it overlaps, so non-overlap is proved and not presupposed.
- **The timed workers** (`Timing`, `Checkpoints`, `RunLoops`, `LatencyWorker`,
  `BandwidthWorker`, `MemcpyWorker`). The clock is an arbitrary function from readings to
  nanoseconds; it need not even be monotone. The checkpoint block the three workers repeat is
  the class `Pacer`, used by all three; their nested loops are also a machine, about which
  it is proved exactly when a run ends.
- **The bandwidth kernels** (`KernelLanguage`, `BandwidthKernels`, `DelayTables`,
  `SinglePrecision`). The macro language has a syntax and a semantics; the kernels are
  programs in it. The traffic a run reports is computed with single-precision rounding.
- **Reversible kernel settings** (`Settings`, `KernelSettings`, `HugePages`, `Runner`). Every
  access to the host has a fate given by an arbitrary script: it succeeds, stores another
  value, raises or is interrupted, before or after taking effect. What is conserved is the
  settings as undoing the log would leave them.
- **The command-line parser** (`CommandLine`), with a printer written for it.
- **The branch chain** (`BranchChain`), as a program-counter machine for x86-64 and AArch64.
- **Display rounding** (`KmgParser`) and **worker threads** (`WorkerThreads`, and
  `BandwidthFleet` for a fleet of bandwidth workers).

`Wrappers`, `Arith` and `Numerals` hold what several of these share.

## What the proofs found

- `MN104` is 120 nops, not 104 (`cpu_micro/kernels_common.h:34`): `BandwidthKernels.NopCount`.
- The scan that moves offset 0 to the front has a 32-bit index over a 64-bit size
  (`common/mem_region.cc:169`). It ends for all draws exactly when there are at most 2^32
  entries; with more, draws of nothing but 0 make it run for ever
  (`Reachability.ShuffleEndsIff`, `Reachability.ZeroDraws`).
- A run ends exactly when a pass has at least one kernel call and the clock comes to the
  target. Nothing checks the former: 16 KiB with lines of 128 bytes never ends
  (`LatencyWorker.LatRunEndsIff`, `LatencyWorker.ShortRegionNeverEnds`).
- A layout is a ring exactly when its words share no byte; a stride below 8 bytes tears the
  pointers of any two lines or more (`Layouts.LayoutIsRingIff`).
- The reported traffic is rounded to 24 significant bits: of 2^24 + 1 read-only kernel calls
  one goes unreported (`BandwidthWorker.TrafficLosesCalls`).
- The stride ring has `numActiveLines()` nodes exactly when the sizes divide one another, and
  the random layouts use the same nodes exactly when line divides page or there is one page
  (`Layouts.StrideCountIsActiveLinesIff`, `Layouts.RandomLayoutsShareNodesIff`).
- `chunk_size_kb * 1024` is a 32-bit product (`cpu_micro/worker_latency.h:17`): at a multiple
  of 4 GiB the page size is zero (`LatencyWorker.ChunkBytesIff`).
- A loaded-latency run with a mix above 3, which nothing refuses, uses the 2:1 kernel with 256
  nops and accounts for it as read-only: half of the lines are written and none reported
  (`DelayTables.ListedMatchesAccountingIff`, `DelayTables.UnknownMixReportsNoWrites`). Asked
  for a delay as well, it takes the first item of an empty list (`DelayTables.SomeDelayIff`).
- Nor are strides checked: 512 MiB by strides of 11 bytes, or 16 KiB by strides of 4095, store
  the last pointer past the end of the region (`Layouts.StrideOverruns`); it stays inside
  exactly when the last line has room for a word (`Layouts.StrideFitsIff`). A page smaller
  than a line makes the shuffle of a random layout divide by zero (`Layouts.NothingToShuffleIff`,
  `Shuffle.FirstDivisorIff`).
- The constant 0.3333 of the 3:1 mix is not the share of dirty lines, 43 of 128
  (`BandwidthKernels.WriteFractionJustified`).
- A run stops at the first checkpoint that finds the target reached, and every interval shorter
  than one batch acts as one checkpoint a batch (`Checkpoints.Batches`).
- Unwinding the transactions last-in first-out is necessary and not just a habit: the opposite
  order is right exactly when the logs agree on shared paths (`Runner.UnwindFifoIff`).

## Model

| member | source | states |
|---|---|---|
| Shuffle.FillSequential | common/mem_region.cc:153-156 | the array becomes the multiples of `unit` in order |
| Shuffle.SwapAll | common/mem_region.cc:160-167 | the in-place Fisher-Yates loop, with its 64-bit mixing of the draws, computes the function `SwapDown` for every stream of draws |
| Shuffle.MoveZeroFirst | common/mem_region.cc:168-175 | the scan with the 32-bit index, including its wrap at 2^32, exchanges the zero with the first entry on every sequence on which it ends: those of up to 2^32 entries, and the longer ones whose zero is at an index below 2^32 |
| Shuffle.RandomizeSequence | common/mem_region.cc:150-176 | the whole in-place routine gives the sequential order or `RandomOrder`, of which `RandomOrderCovers` says what it is, whenever it ends: always for up to 2^32 entries, and beyond for the draws on which the scan does |
| Shuffle.SwapDownIsPermutation | common/mem_region.cc:162-167 | the swaps permute the entries, whatever the draws |
| Shuffle.StartFirstIsPermutation | common/mem_region.cc:168-175 | moving the zero to the front keeps the entries and puts 0 first |
| Shuffle.RandomOrderCovers | common/mem_region.cc:150-176 | for every stream of draws the result starts at 0 and lists each of the `n` units exactly once |
| Shuffle.ScanEndsIff | common/mem_region.cc:169-175 | on a sequence of distinct entries the scan for the zero ends if and only if the size is at most 2^32 or the zero is at an index below 2^32 |
| Shuffle.FirstDivisorIff | common/mem_region.cc:162-164 | in 64-bit arithmetic the first swap reduces by zero if and only if there is no entry to shuffle |
| Reachability.ShuffleEndsIff | common/mem_region.cc:150-176 | for the routine as a whole: it ends on every stream of 31-bit draws if and only if it has at most 2^32 entries |
| Reachability.ZeroDraws | common/mem_region.cc:161-167 | the witness: draws of nothing but 0 take offset 0 to the last position, out of reach of the scan when there are more |
| Reachability.DrawFor | common/mem_region.cc:163-165 | whatever the mixed state, some 31-bit draw makes the next swap pick any position asked for |
| Reachability.SeedBits | common/mem_region.cc:161-161 | the bits of the seed are those of the first draw, exclusive or those of the second 10 places up, on 64 bits |
| Reachability.MixBits | common/mem_region.cc:163-163 | the bits of the mixed value are those of the one before, one place up, exclusive or those of the draw |
| Reachability.XorBits | common/mem_region.cc:161-163 | exclusive or acts bit by bit |
| Reachability.EveryOrderReachable | common/mem_region.cc:160-175 | the converse of `RandomOrderCovers`: every order of the units that starts at 0 is produced by some stream of 31-bit draws, so the mixing and the reduction exclude no layout |
| Reachability.EveryLayoutReachable | cpu_micro/worker_latency.h:22-30 | so access pattern 2 can link the active lines of the region in every order that starts at 0 |
| Ring.LinkMakesRing | common/mem_region.cc:183-221 | storing the links of an order whose words share no byte leaves one ring through exactly that order, whatever the memory held |
| Ring.LinkIsRingIff | common/mem_region.cc:183-221 | storing the links of distinct nodes leaves a ring if and only if no two of their words share a byte |
| Ring.ChaseAround | cpu_micro/kernels_latency.h:9-12 | k dependent loads from the a-th node end at node (a + k) mod n, and every one of them finds a pointer |
| Ring.HopsDistinct | cpu_micro/kernels_latency.h:9-12 | any n consecutive hops of a ring of n nodes are at pairwise distinct nodes |
| Ring.FirstReturn | common/mem_region.cc:183-221 | offset 0 recurs after exactly n hops and not before |
| Ring.RingUnique | common/mem_region.cc:183-221 | memory determines the ring: it cannot be read as two different orders |
| Layouts.ActiveLinesFit | common/mem_region.h:94-94 | the lines counted by `numActiveLines()` fill no more than the active size, and fill it exactly when page and line size divide (or there is no page) |
| Layouts.StrideRing | common/mem_region.cc:183-189 | the sequential stride is a ring whenever its last word is inside the region |
| Layouts.PageRandomRing | common/mem_region.cc:192-209 | for every stream: one ring over all P*L lines; hop k from the start is in page (k div L) mod P at line perm[k mod L], with perm[0] = 0, so a page is used up before the next is entered at its first line |
| Layouts.AllRandomRing | common/mem_region.cc:212-221 | for every stream: one ring, over each active line once |
| Layouts.PatternHops | cpu_micro/worker_latency.h:22-30 | which layout a pattern number gives, by where hop k from the start is: at line k for pattern 0, and in page k div L for any but 0 and 2, both going round (pattern 2: `Reachability.EveryLayoutReachable`) |
| Layouts.LayoutIsRingIff | cpu_micro/worker_latency.h:22-30 | whatever the access pattern number and the sizes, with the words stored inside the region: the layout is a ring if and only if `RingFits`, that is, the unit between its nodes is at least 8 bytes or there is just one node (and for pages, there is a page) |
| Layouts.LayoutInsideIff | common/mem_region.cc:183-221 | whatever the access pattern, sizes and draws: every word a layout stores is inside the region if and only if `LayoutFits` |
| Layouts.StrideFitsIff | common/mem_region.cc:183-189 | for the sequential stride over a whole region: if and only if the last line has room for a word |
| Layouts.StrideOverruns | common/mem_region.cc:183-189 | concrete cases: 512 MiB by strides of 11 bytes and 16 KiB by strides of 4095 store their last word past the end |
| Layouts.NothingToShuffleIff | common/mem_region.cc:193-215 | a random layout has no entry to shuffle if and only if a page holds no line or, over the whole region, the region holds no page |
| Layouts.StrideCountIsActiveLinesIff | common/mem_region.cc:183-189 | the stride ring has `numActiveLines()` nodes if and only if line divides page and page divides the active size |
| Layouts.RandomLayoutsShareNodesIff | common/mem_region.cc:192-221 | the two random layouts use the same nodes if and only if there is a single page or line divides page |
| Layouts.SameRing | common/mem_region.cc:183-221 | when line divides page and page divides the active size, all three layouts are rings over the nodes 0, line, 2*line, ..., and each first returns to the start after exactly `numActiveLines()` hops |
| MemRegions.MemRegion.constructor | common/mem_region.cc:21-59 | the size fields after the correction of an oversized page to 4096, and a zeroed region |
| MemRegions.MemRegion.StorePointer | common/mem_region.cc:178-189 | a 64-bit pointer store: one cell gets the pointer, the cells overlapping it are torn, nothing else changes |
| MemRegions.MemRegion.StrideInit | common/mem_region.cc:183-189 | the loop leaves exactly the links of the stride order |
| MemRegions.MemRegion.LinkPage | common/mem_region.cc:200-207 | the inner loop and the jump store exactly the links of one page, the last to the next page |
| MemRegions.MemRegion.LinkPages | common/mem_region.cc:198-208 | the nested loops leave exactly the links of the page order, the last page closing the ring |
| MemRegions.MemRegion.PageRandomInit | common/mem_region.cc:192-209 | memory is exactly the linking of the random-in-page order of the given draws |
| MemRegions.MemRegion.AllRandomInit | common/mem_region.cc:212-221 | memory is exactly the linking of the random-in-region order of the given draws |
| LatencyWorker.ChunkBytesIff | cpu_micro/worker_latency.h:15-18 | the 32-bit product of the chunk size is right exactly below 4 GiB and zero exactly at multiples of 4 GiB |
| LatencyWorker.RegionBytesIff | cpu_micro/worker_latency.h:15-18 | the 64-bit product of the region size is right exactly below 2^54 KiB and zero exactly at multiples of that |
| LatencyWorker.AllocLat | cpu_micro/worker_latency.h:13-32 | the dispatch on the access pattern, wherever it has a meaning: memory is exactly the linking of the order of that pattern in a zeroed region, and a ring if and only if `RingFits`; strides below 8 bytes and regions below a page included. `LayoutFits` holds if and only if there is something to shuffle and every store is inside (`Layouts.LayoutInsideIff`, `Layouts.NothingToShuffleIff`) |
| LatencyWorker.KernelLat | cpu_micro/kernels_latency.h:9-12 | 256 dependent hops, then the word at the place reached is added to `ret` mod 2^64; all 257 loads find pointers |
| LatencyWorker.PassDistinctIff | cpu_micro/worker_latency.h:67-69 | the nodes loaded by a pass are pairwise distinct if and only if they do not outnumber the ring; as many are a full lap |
| LatencyWorker.PassFitsRing | cpu_micro/worker_latency.h:39-41 | with sizes that divide one another a pass never outruns the ring of any layout, and equals it if and only if the active size is a multiple of 256 lines |
| LatencyWorker.StridePassFits | cpu_micro/worker_latency.h:39-41 | for the sequential stride a pass never outruns the ring, for any sizes |
| LatencyWorker.PassVisits | cpu_micro/worker_latency.h:66-70 | for all three layouts with such sizes: every load of a pass is from a node of the region, no node is loaded twice, and the pass ends at the start if and only if it is empty or a full lap |
| LatencyWorker.LatencyPacket.ChasePass | cpu_micro/worker_latency.h:67-80 | the inner loop: where the pointer is and what `ret` is after the calls made, and that it stops early only when a checkpoint finds the target reached |
| LatencyWorker.LatencyPacket.ChasePasses | cpu_micro/worker_latency.h:66-84 | the nested loops end (measure: clock readings left, then distance to the next checkpoint) with the counters, pointer sum and calls agreeing |
| LatencyWorker.RetIsSum | cpu_micro/worker_latency.h:66-84 | what the `ret` of a run is on a ring: the sum, mod 2^64, of the addresses each of its calls loads last, every full pass adding the same ones |
| LatencyWorker.LatencyPacket.LatPtr | cpu_micro/worker_latency.h:35-98 | under the exact condition of `LatRunEndsIff`: the run ends at the first checkpoint that finds the target duration reached; the time reported is the clock at that checkpoint minus the clock at the start; the chases reported are those up to it, without a reference latency 32768 n + 256 for n checkpoints above 32 MiB, 131072 n + 256 above 2 MiB, 524288 n + 256 above 32 KiB and 2097152 n + 256 otherwise; `ret` is the sum over exactly those calls |
| LatencyWorker.IntervalIs | cpu_micro/worker_latency.h:42-55 | the chases between checkpoints: 1000 for each time the reference latency goes into 2^22, or without one 2^15, 2^17, 2^19 or 2^21 by the size of the region |
| LatencyWorker.LatRunEndsIff | cpu_micro/worker_latency.h:66-84 | a latency run ends if and only if the active size holds 256 lines and the clock at some checkpoint is at least the target duration past its start |
| LatencyWorker.ShortRegionNeverEnds | cpu_micro/worker_latency.h:39-41 | a concrete case: 16 KiB with lines of 128 bytes give no kernel call a pass, and on no clock does the run end |
| RunLoops.RunEndsIff | cpu_micro/worker_latency.h:66-84 | for the nested loops of all three workers, as a machine that takes one step at a time: some step is the last if and only if a pass has at least one batch and the clock at some checkpoint is at least the target past its start |
| RunLoops.ReachableIff | cpu_micro/worker_latency.h:75-77 | some checkpoint is the first to find the target reached if and only if the clock is ever that far past its start |
| RunLoops.RunEndsAt | cpu_micro/worker_latency.h:70-79 | when the machine ends it is at the first checkpoint that finds the target reached, with the number of batches of the closed form |
| Timing.LapsTelescope | common/timing.h:21-31 | over any start, (end, resume)*, end run the accumulated time is the last reading minus the first, whatever was in between |
| Timing.Timer.EndTimer | common/timing.h:24-28 | one step of the stopwatch machine `LapsTelescope` is about |
| Timing.Timer.ResumeTimer | common/timing.h:29-31 | resuming starts from the last end, without reading the clock |
| Checkpoints.Pacer.BatchDone | cpu_micro/worker_latency.h:70-79 | the block shared by the three workers: it keeps next = (n + 1) * chkpt, the timer equal to the clock span, and that no earlier checkpoint reached the target; it stops exactly at the first that does, and otherwise the termination measure has decreased |
| Checkpoints.PaceStep | cpu_micro/worker_latency.h:70-74 | a batch takes a checkpoint exactly when the test says so, and the number of batches at the k-th checkpoint is the closed form `Batches`, also when the interval is shorter than a batch |
| Checkpoints.PaceBounds | cpu_micro/worker_latency.h:70-74 | with an interval of at least one batch: n * chkpt <= finished <= (n + 1) * chkpt at all times |
| Checkpoints.BatchesBounds | cpu_micro/worker_bandwidth.h:57-61 | at the k-th checkpoint the finished work is past k intervals by at most one batch |
| Checkpoints.FirstReachUnique | cpu_micro/worker_latency.h:75-77 | the checkpoint that ends a run is determined by the clock and the target alone |
| KernelLanguage.MacrosRepeat | cpu_micro/kernels_common.h:9-21 | each LPn macro repeats its argument exactly n times |
| KernelLanguage.EraseSameMeaning | cpu_micro/kernels_common.h:23-23 | erasing the nops of any program of the macro language changes nothing, from any state |
| KernelLanguage.ExecSweeps | cpu_micro/kernels_common.h:6-7 | a nop-free program leaves in each written slot the entry value of `ret` plus the initial words of all read slots before it mod 2^64, and changes no other word |
| KernelLanguage.FaultIff | cpu_micro/kernels_common.h:6-7 | it stays inside memory if and only if its last slot does |
| KernelLanguage.LineCountCounts | cpu_micro/kernels_common.h:6-7 | from a 64-byte-aligned start, counting slot pairs counts the distinct lines accessed |
| BandwidthKernels.NopCount | cpu_micro/kernels_common.h:23-49 | each nop macro MNn is n nops, except MN104, which is 120 |
| BandwidthKernels.DelayKeepsMeaning | cpu_micro/kernels_delay_bandwidth/kernels_delay_bandwidth_3_0.cc:6-17 | with any nops as the delay, the delayed kernel of a mix ends with the same memory, `ret` and pointer as the peak kernel of that mix, from any state |
| BandwidthKernels.GetKernelsWithWrmix | cpu_micro/kernels_bandwidth.h:38-58 | what is appended: for a mix up to 3 one kernel, accounted under that mix, which from an aligned start reads all 128 lines a call and writes 0, 128, 64 or 43; for 100 those of 0, 3, 2 and 1 in that order; for any other mix one that writes none |
| BandwidthKernels.KernelsMatchAccounting | cpu_micro/kernels_bandwidth.h:42-57 | whatever mix is asked for, each peak kernel is listed with the mix whose dirty lines it writes (for the delayed kernels this fails: `DelayTables.ListedMatchesAccountingIff`) |
| DelayTables.ListedKeepsMeaning | cpu_micro/kernels_delay_bandwidth/kernels_delay_bandwidth_utils.cc:9-118 | every kernel listed for a mix does what the peak kernel of that mix does, from any state; the one listed for a mix above 3 does what the 2:1 kernel does |
| DelayTables.DelaysListed | cpu_micro/kernels_delay_bandwidth/kernels_delay_bandwidth_utils.cc:9-118 | the delays listed for mixes 0 to 3 are those of exactly the nop macros but MN2, MN4 and MN16 and, for a mix other than 2, MN320, MN448 and MN640 |
| DelayTables.DelaysGoUp | cpu_micro/kernels_delay_bandwidth/kernels_delay_bandwidth_utils.cc:9-118 | in increasing order |
| DelayTables.ListedWrites | cpu_micro/kernels_delay_bandwidth/kernels_delay_bandwidth_utils.cc:9-118 | in figures: the kernels listed for mixes 0 to 3 write 0, 128, 64 and 43 lines a call, the one for any other mix 64, and all read 128 |
| DelayTables.ListedMatchesAccountingIff | cpu_micro/kernels_delay_bandwidth/kernels_delay_bandwidth_utils.cc:9-118 | whatever mix is asked for, and for any number of calls: the lines its listed kernels write are the share of the lines read that the accounting adds for it if and only if the mix is below 3 |
| DelayTables.UnknownMixReportsNoWrites | cpu_micro/kernels_delay_bandwidth/kernels_delay_bandwidth_utils.cc:116-118 | for every mix above 3 the listed kernel writes 64 of 128 lines a call, and the run reports the bytes read, rounded, and nothing for these |
| DelayTables.ChooseDelay | cpu_micro/cpu_loaded_latency.cc:92-101 | the loop over the list leaves the first of the items nearest to the delay asked for, or none if none is nearer than 0 is |
| DelayTables.BuildDelays | cpu_micro/cpu_loaded_latency.cc:86-106 | the list a run goes through: all items, or the nearest one, with the first repeated |
| DelayTables.SomeDelayIff | cpu_micro/cpu_loaded_latency.cc:92-105 | there is a first item to repeat if and only if no delay is asked for or the mix is at most 3 |
| BandwidthKernels.PassEffect | cpu_micro/worker_bandwidth.h:53-57 | a full pass stays inside the region; each written slot holds the entry value of `ret` plus the pass-initial words of all read slots before it mod 2^64; all other words are unchanged |
| BandwidthKernels.BatchLines | cpu_micro/kernels_bandwidth.h:13-34 | over any number of batches from an aligned start, all 128 lines a batch are read, and 0, 128, 64 or 43 distinct lines a batch are written |
| BandwidthKernels.WriteFractionJustified | cpu_micro/worker_common.cc:9-19 | the accounting constant, as a single-precision number, equals dirty lines over lines read if and only if the mix is 0, 1 or 2, and for mix 3 it is within 0.003 |
| BandwidthWorker.DelayIsKernel | cpu_micro/kernels_delay_bandwidth/kernels_delay_bandwidth_3_0.cc:6-17 | every delayed kernel, and every peak one, makes 256 accesses, which is what the worker loops rely on |
| BandwidthWorker.RunKernel | cpu_micro/kernels_bandwidth.h:13-34 | executing the statements one by one in memory gives the meaning of the program |
| BandwidthWorker.PassEffectInRun | cpu_micro/worker_bandwidth.h:53-57 | the effect of `PassEffect` holds for each pass of a run, with the peak kernel of the mix or any that differs from it in nops only; a pass begins with the memory and `ret` that the one before it ended with, the pointer back at the start |
| BandwidthWorker.DelayedRun | cpu_micro/worker_bandwidth.h:53-71 | a whole run with a delayed kernel is, after any number of passes and calls, in the state of the run with the peak kernel of its mix |
| BandwidthWorker.BandwidthPacket.SweepPass | cpu_micro/worker_bandwidth.h:55-67 | the inner loop leaves memory, `ret` and pointer as that many kernel calls, and stops early only at the target |
| BandwidthWorker.BandwidthPacket.SweepPasses | cpu_micro/worker_bandwidth.h:53-71 | the nested loops end, with memory as the passes and calls counted leave it |
| BandwidthWorker.BandwidthPacket.BwSequential | cpu_micro/worker_bandwidth.h:25-86 | under the exact condition of `BwRunEndsIff`: the run ends at the first checkpoint reaching the target; reported time and bytes are those up to it, in closed form; memory is as exactly those calls leave it |
| BandwidthWorker.BandwidthPacket.PerCoreMbps | cpu_micro/worker_bandwidth.h:29-36 | the part of a thread: the whole quotient of 1024 times the reference bandwidth, or of 2048 times all threads, by the threads of the run |
| BandwidthWorker.BandwidthPacket.ChkptBytes | cpu_micro/worker_bandwidth.h:37-38 | the interval: the bytes that part moves in 4 ms, cut |
| BandwidthWorker.BwRunEndsIff | cpu_micro/worker_bandwidth.h:53-71 | a bandwidth run ends if and only if the active size holds 8 KiB and the clock at some checkpoint is at least the target past its start |
| BandwidthWorker.TrafficIsLinesIff | cpu_micro/worker_bandwidth.h:73-73 | with the count, the product and the sum each rounded to single precision: for mixes 0, 1 and 2 the reported traffic is 64 bytes for each line read plus 64 for each line written if and only if that total is a single-precision number |
| BandwidthWorker.TrafficExact | cpu_micro/worker_bandwidth.h:73-73 | it is for up to 2^24 / 3 kernel calls |
| BandwidthWorker.TrafficLosesCalls | cpu_micro/worker_bandwidth.h:73-73 | it is not for ever: of 2^24 + 1 read-only calls one goes unreported |
| SinglePrecision.SingleIsNearest | cpu_micro/worker_bandwidth.h:73-73 | the rounding of the float product and sum, roundTiesToEven of section 4.3.1 of IEEE 754: no number of at most 24 significant bits is nearer and, of two as near, the even one is taken |
| SinglePrecision.SingleShape | cpu_micro/worker_bandwidth.h:73-73 | and what it gives is such a number |
| BandwidthWorker.TrafficOfThreeToOne | cpu_micro/worker_bandwidth.h:73-73 | for mix 3 the reported traffic falls short of the lines read and written by 21 to 23 bytes a call, rounding included, for any number of calls |
| MemcpyWorker.MemcpyPacket.CopyOne | cpu_micro/worker_memcpy.h:46-49 | a call is in bounds and extends the copied prefix by its fragment, or copies one again |
| MemcpyWorker.MemcpyPacket.CopyPasses | cpu_micro/worker_memcpy.h:44-63 | the nested loops end; the destination is a copied prefix and an untouched tail |
| MemcpyWorker.MemcpyPacket.CopyFragments | cpu_micro/worker_memcpy.h:26-81 | the run ends at the first checkpoint reaching the target; after a full pass or more the first (active div fragment) * fragment bytes equal the source, after a shorter run as many fragments as calls; the tail and the source are untouched; bytes and time reported are exactly those up to the checkpoint |
| MemcpyWorker.MemcpyPacket.ChkptCalls | cpu_micro/worker_memcpy.h:30-33 | the interval: the most calls that take up to 5 ms by the reference time, at least one, and one without a reference |
| MemcpyWorker.CopyRunEndsIff | cpu_micro/worker_memcpy.h:44-63 | a copying run ends if and only if the fragment fits the active size and the clock at some checkpoint is at least the target past its start |
| Settings.SetConserves | scripts/host_config.py:50-59 | however `set` ends, at whichever access it fails or is interrupted, undoing the log still gives the same settings, no other path changes, and a normal end means the host has the value |
| Settings.SetProgress | scripts/host_config.py:50-59 | a privileged `set` with smooth accesses ends normally, whether the value was there or not, changing that setting only and logging its value if it did |
| Settings.SetRefused | scripts/host_config.py:36-59 | without privilege `set` changes no setting, and ends normally only if the value was there already |
| Settings.RestoreRefused | scripts/host_config.py:36-75 | nor does `restore`, whatever it has to undo |
| Settings.RestoreEntryConserves | scripts/host_config.py:64-71 | the same for restoring one entry, which leaves the log exactly when it ends normally |
| Settings.RestoreConserves | scripts/host_config.py:61-75 | however `restore` ends: the undone settings are conserved, only logged paths change, a path no longer logged has its original value; a normal end empties the log and restores everything, an error leaves some entry |
| Settings.RestoreProgress | scripts/host_config.py:61-75 | a path whose accesses succeed is restored and forgotten by an uninterrupted restore, whatever happens to the other paths |
| Settings.RestoreSmooth | scripts/host_config.py:61-75 | a restore all of whose accesses succeed ends normally with all settings back |
| Settings.RunConserves | scripts/host_config.py:50-75 | any sequence of `set` and `restore`, each ending in any way, conserves the undone settings and leaves alone every path it does not name |
| Settings.CrashSafety | scripts/host_config.py:50-75 | after any such sequence from an empty log, a later restore that ends normally, as it does when its accesses succeed, gives back every setting as before the first `set` |
| KernelSettings.Kernel.WriteFile | scripts/host_config.py:36-48 | a write that can succeed, store another value, fail or be interrupted, the last two before or after taking effect; without privilege it fails untried |
| KernelSettings.KernelSettings.SetValue | scripts/host_config.py:50-59 | the method does what the specification `Set` says: read, log, write, read back |
| KernelSettings.KernelSettings.RestoreOne | scripts/host_config.py:64-71 | the loop body does what `RestoreEntry` says |
| KernelSettings.KernelSettings.RestoreAll | scripts/host_config.py:61-75 | the loop over the reversed snapshot does what `Restore` says, errors being collected and not stopping it |
| HugePages.PickedSize | scripts/config_huge_page.py:46-53 | of 2 MiB, 512 MiB and 1 GiB the size picked is the largest that every node of at least 1 GiB has a pool of; it is 0 if and only if there is no such node or size |
| HugePages.ReserveConserves | scripts/config_huge_page.py:71-74 | one node: the pool ends at the larger of its size and the count asked for; however it ends it can be undone |
| HugePages.ReserveAllConserves | scripts/config_huge_page.py:66-75 | a normal end means every eligible node has at least its pages and no pool anywhere shrank; however it ends it can be undone |
| HugePages.ReserveAllMeans | scripts/config_huge_page.py:66-74 | the same of the specification of the loop, stated of the nodes, pools and size in figures |
| HugePages.ReserveAllProgress | scripts/config_huge_page.py:66-74 | with smooth accesses the loop ends normally |
| HugePages.ClearAllConserves | scripts/config_huge_page.py:78-84 | a normal end means all pools of the size are empty; no other setting changes; however it ends it can be undone |
| HugePages.SetupHugePages | scripts/config_huge_page.py:56-75 | a normal end means that every node of at least 1 GiB has in its pool at least the pages that fit in its memory and in 2 GiB, that only pools of such nodes have grown, to exactly that many, and that nothing else has changed; any other end reports size 0; however it ends it can be undone; with a size to pick and smooth accesses it ends normally |
| HugePages.ClearPools | scripts/config_huge_page.py:82-84 | the loop over the pools empties exactly those of the size, stopping at the first error; however it ends it can be undone |
| HugePages.ClearHugePages | scripts/config_huge_page.py:78-84 | a normal end means every pool of the picked size is empty, the keys being all those of the dictionary; with no size to pick it fails and changes nothing |
| HugePages.RunAction | scripts/config_huge_page.py:99-115 | the stand-alone script: an action that ends normally has reserved, or emptied, the pools of the picked size; one that does not is undone, completely if the restore ends normally |
| Runner.UnwindLifo | scripts/run_cpu_micro.py:153-158 | restoring the second transaction and then the first gives back the settings at entry, also when both logs name a path; path by path for partial restores |
| Runner.UnwindFifoIff | scripts/run_cpu_micro.py:153-158 | in the opposite order, with nothing going wrong, the settings are back if and only if the two logs agree on the paths they share |
| Runner.FifoFails | scripts/run_cpu_micro.py:153-158 | a concrete pair of transactions that the opposite order does not restore |
| Runner.SuiteRunner.DisableAutonuma | scripts/run_cpu_micro.py:122-127 | on a normal end either NUMA balancing is 0, or the warning was given and everything is as before with nothing logged; however it ends it can be undone; with smooth accesses it ends normally with exactly that setting at 0 |
| Runner.SuiteRunner.ProvisionHugePages | scripts/run_cpu_micro.py:131-136 | a nonzero size is the picked one with the pages of every node reserved (`Reserved`); size 0 on a normal end means everything is as before with nothing logged; however it ends it can be undone; with smooth accesses the size is the picked one |
| Runner.SuiteRunner.Body | scripts/run_cpu_micro.py:113-145 | the guarded body on every exit: the two transactions are nested, the second starting from an empty log; without privilege nothing changes. If the benchmarks are started (`ran`), NUMA balancing is off (or that was warned about and taken back), untouched where it was off or unreadable; in automatic mode the picked size is reserved or everything is taken back; the size and the administrative access they get are as the mode says. With smooth accesses they are started without a warning, unless existing pages are asked for and there is no size |
| Runner.SuiteRunner.Unwind | scripts/run_cpu_micro.py:153-158 | one restore of the `finally`: never interrupted, and a path whose accesses succeed is out of the log |
| Runner.SuiteRunner.UnwindBoth | scripts/run_cpu_micro.py:146-163 | the `finally`: both transactions are restored, the last first, whatever the first of the restores ends with; it fails if and only if some log is left with entries |
| Runner.SuiteRunner.Run | scripts/run_cpu_micro.py:107-164 | whole-run safety: on every exit from the body each setting is as at entry unless still logged; a path whose accesses succeed during the cleanup is not; a nonempty log makes the run fail, an empty one means all settings are back. On the host the benchmarks run on, NUMA balancing is 0 (unless warned) and the pages are reserved; otherwise the run ends as the benchmarks do |
| CommandLine.CastIff | common/command_line.h:27-27 | a default cast to the target type is in range, and is the default if and only if that was in range |
| CommandLine.IntegerIff | common/command_line.h:22-24 | the kinds an integer option may have are those that have a value |
| CommandLine.RangesInFigures | common/command_line.h:35-50 | the ranges of the 32- and 64-bit types, in figures |
| CommandLine.ConvertIff | common/command_line.h:29-52 | for every text: it converts to v if and only if v is in range and the text is a sign or none, any zeros, and the decimal digits of v, a minus sign being refused for unsigned types; anything else is refused |
| CommandLine.ConvertDecimal | common/command_line.h:29-52 | a printed value converts back to itself if and only if it is in the range of the signed or unsigned type, and is refused otherwise |
| CommandLine.ReadsBack | common/command_line.h:63-106 | the parser reads one printed occurrence back, in each of the spellings, whatever follows: a duplicate, a value attached to a switch and a bad value stop it with their own errors, anything else is bound to its option |
| CommandLine.ParsePrinted | common/command_line.h:60-108 | a line of well-spelled occurrences is accepted if and only if each value is acceptable and no option repeats; each target then has its value, or is as before |
| CommandLine.AcceptedIsPrinted | common/command_line.h:60-108 | nothing else is accepted: every accepted command line is a sequence of spelled occurrences, possibly with a final `--` |
| CommandLine.AcceptedIff | common/command_line.h:60-108 | for any table of distinct names and aliases, a command line is accepted if and only if it is a sequence of spelled occurrences, possibly with a final `--`, no option twice, each value in decimal and in the range of its option |
| CommandLine.LineBinds | common/command_line.h:60-108 | each target then is the number its text writes, a switch named is on, and the other targets keep their defaults |
| CommandLine.UnexpectedIff | common/command_line.h:68-70 | an argument is refused as unexpected if and only if it is empty, a lone dash, a `--` that is not last, or does not begin with a dash |
| CommandLine.UnknownIsReported | common/command_line.h:71-82 | a name or a letter that no option has is refused as unknown, with or without a value |
| CommandLine.MissingIff | common/command_line.h:94-99 | an option that takes a value, with none attached, is refused as missing it if and only if the line ends there or the next argument begins with two dashes |
| CommandLine.RoundTrip | common/command_line.h:60-108 | for any table of distinct names and aliases, any duplicate-free set of in-range values in any mix of spellings and any order parses back to exactly those values, the other targets keeping their defaults |
| CommandLine.OrderIndependent | common/command_line.h:60-108 | permuting the occurrences changes neither acceptance nor the value of any target |
| CommandLine.SplitJoined | common/command_line.h:135-141 | a declaration `name,alias` or `name` is taken apart as it was put together |
| CommandLine.Parser.AddValue | common/command_line.h:22-53 | declaring an integer option appends it and sets its target to the cast default |
| CommandLine.Parser.AddFlag | common/command_line.h:55-58 | declaring a switch appends it and sets its target to false |
| CommandLine.Parser.Parse | common/command_line.h:60-108 | the loop gives the error and the targets of the specification `ParseFrom`, values bound before an error staying bound |
| BranchChain.ChainAt | cpu_micro/kernels_branch.h:23-31 | the k-th forward branch jumps to the start of the next one, over its padding |
| BranchChain.CodeShape | cpu_micro/kernels_branch.h:12-60 | the code begins with a test if and only if it is a conditional chain of x86-64, ends with the decrement and the loop branch, and holds nothing else but the chain |
| BranchChain.TripBranches | cpu_micro/kernels_branch.h:22-31 | on both instruction sets, conditional or not, the forward branches of a trip are all taken and nothing else is executed |
| BranchChain.Trip | cpu_micro/kernels_branch.h:19-33 | a trip takes N forward branches and the loop branch, the last trip N |
| BranchChain.RunTakes | cpu_micro/kernels_branch.h:12-60 | for every chain length, padding and number of rounds the machine halts, never executing padding, with rounds * (N + 1) - 1 branches taken |
| BranchChain.RunChain | cpu_micro/kernels_branch.h:12-60 | executing the code instruction by instruction, on either instruction set and whatever the flag on entry, ends having taken exactly that many branches |
| BranchChain.TakenBranchesIff | cpu_micro/kernels_branch.h:83-85 | the computed count, with its 32- and 64-bit arithmetic, is the true one if and only if that fits 64 bits and N + 1 fits 32 (or it is the largest 64-bit number) |
| BranchChain.BranchPacket.BranchTp | cpu_micro/worker_branch_throughput.h:11-34 | the batch loop, executing the chain of N branches 65536 times round in each batch (N is 8, 32 or 128 by the case), ends at the first batch by whose end the sample duration has passed; the branches reported are exactly those executed in these batches, 65536 (N + 1) - 1 in each, the warm-up not among them, over exactly the time they span |
| KmgParser.RoundBounds | common/kmg_parser.cc:57-57 | rounding to the next unit of an even base is off by at most half a unit |
| KmgParser.DisplayError | common/kmg_parser.cc:52-66 | the mantissa m shown after L levels of an even base k satisfies, for the number n shown, 2(k - 1) abs(m k^L - n) <= k (k^L - 1) |
| KmgParser.DisplayStep | common/kmg_parser.cc:56-64 | the display goes up one unit, to the whole number nearest, if and only if there is more than one unit and that number is off by at most 5% |
| KmgParser.DisplayGoesOn | common/kmg_parser.cc:56-64 | the number shown is at most one unit, unless the whole number of units nearest to it is off by more than 5% |
| KmgParser.LevelsBound | common/kmg_parser.cc:56-64 | a number up to k^(n+1) goes up at most n units |
| KmgParser.SixLevels | common/kmg_parser.cc:56-64 | a 64-bit number goes up at most six units in base 1000 or 1024 |
| KmgParser.GetDispStr | common/kmg_parser.cc:52-66 | the loop ends and shows the mantissa of `Display` with its unit: none, K, M, G, T or P, and ? for any other |
| WorkerThreads.PinnedBalanced | common/worker_thread_manager.h:130-148 | two or more workers over s distinct CPUs are dealt to them in turn; the c-th gets n div s workers, and one more exactly when c < n mod s |
| WorkerThreads.PinnedAlone | common/worker_thread_manager.h:118-143 | a single worker is pinned to the CPU a quarter into the list; without binding or with an empty list none is |
| WorkerThreads.Independent | common/worker_thread_manager.h:203-231 | with shared memory that any worker may use and change: in any interleaving the packet of a worker whose steps depend on its packet only is as if it had run alone |
| WorkerThreads.JoinDeterministic | common/worker_thread_manager.h:233-284 | when that holds of all workers, any two complete interleavings leave the same packets |
| WorkerThreads.JoinEqualsOneByOne | common/worker_thread_manager.h:233-284 | and running the workers one at a time is a complete interleaving that leaves the same packets |
| BandwidthFleet.BwRoutineIsLocal | cpu_micro/worker_bandwidth.h:53-71 | the loops of the bandwidth worker, as a routine, depend on its own packet only |
| BandwidthFleet.FleetReports | cpu_micro/worker_bandwidth.h:45-72 | any number of bandwidth workers forked and joined, in any complete interleaving: each has ended at the first checkpoint of its own clock that reaches its target, with the batches of the closed form and its memory as its own passes and calls leave it, and one at a time they end the same |
| SharedStream.SharedStreamRings | common/mem_region.cc:150-221 | for workers that all draw from the one stream behind `rand()`, in any interleaving: the region of each that has finished is laid out as its own draws say and is a ring if and only if the sizes make it one |
| SharedStream.RunKeepsTrack | common/mem_region.cc:160-167 | at every point of any interleaving each worker is where its own draws alone would have taken it |
| SharedStream.DrawsConserved | common/mem_region.cc:161-163 | every draw of the stream goes to exactly one worker |
| WorkerThreads.WorkerThreadManager.constructor | common/worker_thread_manager.h:102-152 | the pinning of each worker, no routine set, nothing created, each packet with its thread number |
| WorkerThreads.WorkerThreadManager.SetRoutine | common/worker_thread_manager.h:164-180 | exactly the workers selected get the routine |
| WorkerThreads.WorkerThreadManager.Create | common/worker_thread_manager.h:203-231 | a worker is created if and only if it has a routine and its start succeeds; success is reported if and only if none with a routine is missing |
| WorkerThreads.WorkerThreadManager.Join | common/worker_thread_manager.h:233-284 | whichever joins time out or fail: success is reported if and only if none does, and then every worker has returned; the packets are those of the schedule |

## Left out

- LatencyWorker.LatencyPacket.LatPtr: counters are unbounded, so a wrap-around of `finished_chases` or `num_chkpts` is not modelled. That a pass has a kernel call and the clock comes to the target is required because without either the run does not end (`LatencyWorker.LatRunEndsIff`).
- BandwidthWorker.BandwidthPacket.BwSequential: the products giving the checkpoint interval, and the counters, are unbounded; what is required of size and clock is what `BandwidthWorker.BwRunEndsIff` shows to be needed.
- MemcpyWorker.MemcpyPacket.CopyFragments: needs a fragment between one byte and the active size (zero divides by zero; a larger one never ends, by `MemcpyWorker.CopyRunEndsIff`). Source and destination are different buffers, as the allocation makes them.
- LatencyWorker.AllocLat: what happens after a division by zero (a zero chunk or stride, or nothing to shuffle) or a store outside the region has no meaning in the original and is not modelled; exactly these are excluded (`LatencyWorker.ChunkBytesIff`, `Layouts.NothingToShuffleIff` with `Shuffle.FirstDivisorIff`, `Layouts.LayoutInsideIff`), and draws on which the shuffle never ends.
- DelayTables.BuildDelays: a delay asked for with a mix above 3 takes the first item of an empty list, which has no meaning; that this is the only such case is `DelayTables.SomeDelayIff`.
- MemRegions.MemRegion.StorePointer: a word partly overwritten by another store is only known to be torn, its value is not modelled. Pointers are offsets into the region; the address of the region comes in as a parameter where sums of addresses are taken.
- MemRegions.MemRegion.StrideInit: offsets are unbounded, so a loop index passing 2^64 is not modelled.
- KmgParser.DisplayError: the 5% test is made on exact fractions, and the sum with half a unit does not overflow; the statement is about nonnegative numbers and even bases, such as the 1000 and 1024 of `get_count_str` and `get_byte_str`.
- KernelSettings.Kernel.WriteFile: a helper process that outlives the interrupt and writes later is not modelled, nor are other processes changing the same settings. A file that cannot be parsed as an integer counts as a failing read.
- Runner.SuiteRunner.Run: signals that arrive between entering the `finally` block and ignoring them are not modelled. Interrupts elsewhere are placed at the accesses to settings and at the deletion of a log entry; between accesses nothing else changes.
- HugePages.SetupHugePages: the one-shot writes to `drop_caches` and `compact_memory`, outside the undo log by design, are left out. The dictionaries of nodes and pools are given as a sequence and a map.
- WorkerThreads.WorkerThreadManager.Join: the wording of the watchdog, and the exit it ends with, are only the result that not all joins succeeded.
- Allocation, `mmap`, `set_mempolicy`, libnuma and `perf_event` calls: a region starts zeroed and of the given size.
- The distribution of `rand()`: any stream of numbers is allowed.
- Cycle counters, caches, TLBs and the physical meaning of the numbers; the time a nop takes.
- Console output, help text, error wording, `dump()`, `argparse` and the launching of benchmarks, of which only how it ends is an input.
- Host inventory, sudo detection, `measure_stats.py` and the build and installation scripts.
