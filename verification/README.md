# A verified model of Aladdin's scheduler and its surroundings

Aladdin turns an execution trace into a dynamic data dependence graph (DDDG), list-schedules the
graph cycle by cycle under memory-port limits, and then reschedules it as late as possible. This
project models that pipeline and the components it leans on in Dafny 4.11 and proves, for all inputs
and all runs, what they are there to guarantee. `dafny verify dfyconfig.toml` checks everything.

## What is where

| part | files |
|---|---|
| graph facts, latencies, sequences without duplicates, product and quotient facts | `DependenceGraph`, `ExecNodes`, `Collections`, `Arithmetic` |
| scheduler on a state value, and its invariants | `Scheduler`, `SchedulerStructure`, `SchedulerRun`, `SchedulerTiming`, `SchedulerSafety`, `SchedulerLiveness`, `SchedulerStalePorts`, `SchedulerPorts`, `SchedulerPacking`, `SchedulerBegin`, `SchedulerGreedy`, `SchedulerLength` |
| when a node starts, said with opcodes, edge kinds and cycles; who gets a port, and who waits for one | `SchedulerEdges`, `SchedulerChains`, `SchedulerMixedEdges`, `SchedulerPriority`, `SchedulerSaturation` |
| as-late-as-possible pass | `Alap`, `AlapCorrect`, `AlapDeadlines`, `AlapLatency`, `AlapExamples` |
| the datapath object that implements both in place | `ScratchpadDatapath` |
| DDDG: what the edges mean, the tables that compute them | `ControlDependence`, `MemoryDependence`, `RegisterDependence`, `ControlTracking`, `MemoryTracking`, `RegisterTracking`, `MemoryOrigins` |
| what a trace means, the parser, the graph, the whole pipeline | `TraceParsing`, `TraceLinks`, `CallForwarding`, `Dddg`, `InitialGraph`, `EndToEnd` |
| the edges of a trace, said with its records | `TraceRecords`, `TraceDataflow`, `TraceOrigins` |
| breadth-first search | `ShortestDistance` |
| partitioned array | `PartitionLayout`, `FlatMemory`, `ArrayAddressing`, `ArrayAccess`, `LogicalArray` |
| DMA | `DmaProtocol`, `DmaAnswers`, `DmaEngine`, `PageSplit` |
| TLB | `TlbRow`, `TlbRecency`, `TlbMemory`, `TlbRuns`, `TlbProtocol`, `TlbProgress`, `AladdinTlb` |
| loop tree and upsampling | `LoopTree`, `LoopInfo`, `Upsample`, `UpsampleGroups` |
| blocked radix sort | `RadixGroups`, `RadixPass`, `RadixSort` |

The trace is the starting point: `TraceParsing.ParseAll` folds its records into instructions, memory accesses
and register events, with the function stack in the state of the fold; the parser is proved to compute that
fold, and what the edges and the schedule keep is stated about it.

Components that the source writes as objects updated in place are classes here; each method is proved
against a function or relation on values, and the long results are lemmas about those. Protocols
(scheduler visits, DMA, TLB) are transition systems whose steps the environment interleaves freely.

Times are exact integers in hundredths of a nanosecond. Node ids, addresses and ticks are unbounded
unless a width is named; `LogicalArray` works on 64-bit addresses. Products and quotients by variables are
written as repeated addition and subtraction (`Arithmetic.Steps`, `Quot`, `Rem`), tied to `*`, `/` and `%` by
`StepsMultiply` and `QuotDivides`.

## Where the code and the expectation part

- **Calls hold nothing back.** The parser's comment intends function boundaries to separate what is before from
  what is after. A call or return waits for every earlier node that is not DMA, and for nothing else
  (`ControlDependence.BoundaryWaitsIff`), but only later calls and returns wait for it
  (`BoundaryHoldsBackIff`): an addition after a call is not ordered after it (`CallDoesNotHoldBack`).
- **Ports survive an invocation.** `scratchpad->step()` is skipped in a run's last cycle, so ports can
  still be occupied when the next run begins (`SchedulerSaturation.LeftoverPorts`). The cycle bound is then one higher
  (`SchedulerLiveness.EveryRunCompletes`), and has to be: the lower bound holds of all graphs if and only if no
  partition was left fully occupied (`SchedulerStalePorts.BoundHoldsIff`); two loads from an occupied one
  exceed it (`OccupiedSlotCostsACycle`).
- **Mixed edges.** Memory and floating-point operations are meant not to share a cycle with their neighbours. The
  edge of the parent whose completion is seen last decides alone, so a child starts in the cycle of such a parent if
  another parent that completes in the same cycle has an edge that lets it (`SchedulerEdges.ChildWaits`): of a load
  and an addition that complete together and feed a second addition, the latter by a register edge, the second
  addition starts in the load's own cycle (`SchedulerMixedEdges.SeparatedChildStartsAtOnce`). Where every edge of the parents that complete last separates,
  it waits (`ChildStartsNext`).
- **ALAP and short clocks.** Deadlines are rounded up to whole nanoseconds. The pass keeps the schedule's
  length if and only if that rounding stays within a cycle or no connected sink may move
  (`AlapCorrect.LengthKeptIff`); 1 ns suffices. At 0.5 ns a pair of operations scheduled in one cycle takes two
  after the pass (`AlapExamples.HalfNsOverruns`).
- **ALAP and latencies.** A connected node takes its latency after the pass if and only if it is not a multi-cycle
  node whose deadline leaves room for a later cycle (`AlapLatency.LatencyKeptIff`). The deadline is a function of
  the graph and the schedule before the pass, whatever order the pass goes in (`AlapDeadlines.PassDetermined`,
  `OrderDoesNotMatter`). A moved floating-point node takes one cycle less, as in an addition of 5 cycles scheduled
  beside a division of 16 (`AlapExamples.MovedAdditionLosesACycle`).
- **Back-to-back DMA fences.** A fence forgets the transfers before it, so two fences with no transfer
  between them order nothing across them. `ControlDependence.FencedTransfersOrderedIff` gives the exact
  condition.
- **Transfers do not wait for stores.** A transfer into the accelerator overwrites bytes but gets no memory edge
  outside ready mode, so a load after it is not ordered after a store before it
  (`MemoryDependence.TransferHidesStore`). Where no transfer or change of ready bits comes in between, every access
  waits for every earlier store whose start address it reads or stores to (`SameAddressOrdered`).
- **Self calls across an entry declaration.** A call predicts the invocation its arguments are forwarded to. The
  callee's first instruction enters it, unless a function calls itself and an entry declaration stands in between
  (`CallForwarding.CalleeEnteredIff`, `SelfCallAcrossEntry`).
- **Size of a store.** The parser takes the size of a store from its address operand, not from the value stored
  (`TraceParsing.StoreMeans`).
- **Edge kinds.** A register edge's kind is its parameter tag in one byte (`InitialGraph.RegisterKindIff`), so the
  5th parameter reads as a register edge, the 6th as a fused branch, the 11th as a control edge and the 255th as
  a memory edge (`OperandsThatLookOtherwise`); whichever edge between two nodes comes first keeps its kind
  (`OutputDddg`).
- **Unaligned and tail accesses.** An access starts at the word that holds its address. Bytes behind the
  last whole word are within the declared size but in no block; an access that reaches them aborts after
  writing what precedes them.
- **Far addresses.** The partition is looked up with the offset cut to 32 bits, the block with the 64-bit offset,
  cut afterwards. An access outside the array goes undetected if and only if its low 32 bits name a whole word of
  the array and the offset counts as many units as they do, modulo 2^32, where a unit is a word, or a word of every
  partition in the cyclic layout (`ArrayAddressing.DetectedIff`). It then reaches that word and no other
  (`EveryOffset`). So does an offset a multiple of 2^32 units behind one in the array (`FarOffsetsAlias`), and for
  units of up to 2 GiB nothing else does (`OnlyMultiplesAlias`).
- **Touching loops.** A loop that starts and ends at the same node, where two others touch, has no smallest
  enclosing loop. A tree of smallest parents exists if and only if the loops around any loop are nested:
  `LoopTree.TreeNeedsChains` is one direction, `LoopInfos.LoopInfo.BuildLoopTree` the other.
- **Histogram overflow.** `hist` writes one cell past `BUCKETSIZE` if and only if a key of the last block has
  digit 3 (`RadixPass.DeclaredBucketFitsIff`). With the limit the source gives its loop over `exp`, the sort makes one pass
  and leaves its result in `b`, ordered by the lowest two bits only (`RadixSort.SsSort`).
- **Touches in one tick.** Eviction goes by tick and takes the last of the entries with the least one. It evicts the
  page touched longest ago if and only if no entry of the victim's tick was touched before it
  (`TlbRecency.EvictsLeastRecentIff`), and a row holds the most recently touched pages throughout a run if and only
  if every eviction is of this kind (`RunIsLruIff`). Rows of one entry and ticks that are not shared always are;
  two pages touched in one tick and a third later leave the older of the two (`MoreRecentEvicted`).
- **Stale frames.** Inserting a translation for a resident page does not replace the cached frame; the TLB and
  the backup map agree afterwards if and only if the frame did not change
  (`AladdinTlbs.AladdinTlb.Insert`, `InsertBackupTlb`). Inserted with frame 10 and then with frame 20, a page
  translates to 10 (`AladdinTlbs.StaleFrame`). `translateInvisibly` is meant to leave no trace but
  marks the page as touched.
- **Fractional factors.** Products with sampling factors are truncated at every loop on the way to the root. With
  positive factors the root sees the exact product if and only if it is whole at every step
  (`Upsample.HandUpExactIff`); of 3 cycles sampled 1.5 times, 1 is added instead of 1.5 (`FractionsAreLost`).

## Model

| member | source | states |
|---|---|---|
| `SchedulerStructure.VisitKeeps` | common/ScratchpadDatapath.cpp:219-289 | a visit of any node keeps the split of the connected nodes into waiting, ready, executing and completed, and every waiting node's count of uncompleted parents |
| `SchedulerStructure.UpdateChildrenKeeps` | common/ScratchpadDatapath.cpp:348-417 | waking the children of a completed node, one at a time, restores the counts that its completion put out of step |
| `SchedulerStructure.RetireKeeps` | common/BaseDatapath.cpp:992-1001 | marking a node completed moves it between phases and leaves exactly its children one count behind |
| `SchedulerRun.VisitAdvances` | common/ScratchpadDatapath.cpp:219-289 | every visit either completes one more node or passes one queue position, so a pass ends |
| `SchedulerTiming.VisitTiming` | common/ScratchpadDatapath.cpp:219-289 | latencies, in-flight counters and parent-before-child order survive any visit |
| `SchedulerTiming.PassTiming` | common/ScratchpadDatapath.cpp:219-289 | and a whole pass |
| `SchedulerTiming.StepTiming` | common/ScratchpadDatapath.cpp:209-217 | and a whole cycle, in which every multi-cycle node advances exactly once |
| `SchedulerSafety.EveryStateSafe` | common/ScratchpadDatapath.cpp:209-289 | in every state of every run, after any number of visits: exactly one phase per connected node, counters equal uncompleted parents, completed nodes took exactly their latency, no node started before its parents completed |
| `SchedulerSafety.CycleIsVisits` | common/ScratchpadDatapath.cpp:209-217 | those states include the states between cycles: a cycle is finitely many visits and an end |
| `SchedulerLiveness.QueueNotEmpty` | common/ScratchpadDatapath.cpp:219-289 | on an acyclic graph the executing queue is never empty while nodes are left |
| `SchedulerLiveness.StepProgress` | common/ScratchpadDatapath.cpp:209-217 | with free ports every cycle uses up potential, whatever the port limits |
| `SchedulerLiveness.RunBound` | common/BaseDatapath.cpp:978-985 | a run from any state takes at most as many cycles as its potential |
| `SchedulerLiveness.EveryRunCompletes` | common/BaseDatapath.cpp:978-985 | every run on an acyclic graph ends; exactly the connected nodes complete, each once; cycles are at most max(1, connected nodes + multi-cycle latencies), plus 1 when ports were left occupied |
| `SchedulerStalePorts.OccupiedSlotCostsACycle` | common/ScratchpadDatapath.cpp:209-217 | whatever ports and partitions: with any partition left fully occupied, two dependent loads from it exceed the bound for free ports |
| `SchedulerStalePorts.BoundHoldsIff` | common/ScratchpadDatapath.cpp:209-217 | all acyclic graphs stay within the bound for free ports if and only if no partition was left fully occupied |
| `SchedulerPorts.PortsRespected` | common/Partition.h:59-81 | in every cycle of every run a partition serves at most its nonzero port count; its load and store counters grow by exactly the accesses mapped to it, all of which are served |
| `SchedulerGreedy.StartsAsEarlyAsPossible` | common/ScratchpadDatapath.cpp:348-417 | in every run a node that needs no scratchpad port starts at cycle 0 without parents, else in the cycle of its last parent to complete, or the next exactly when the rule for their edge (register, fused, control, memory, floating point, zero latency, packing) defers it; a scratchpad access starts no earlier; the rule reads nothing but the cycles in which ancestors completed |
| `SchedulerEdges.RunDecided` | common/ScratchpadDatapath.cpp:387-411 | in every run, and without naming the rule: the edge of a parent that completes last decides whether a node starts with it or in the next cycle, by edge kinds 5, 6 and 11, opcodes, and whether it fits |
| `SchedulerEdges.ChildWaits` | common/ScratchpadDatapath.cpp:387-411 | a child starts after the cycle of a parent whose edge separates (a control edge, a memory or floating-point operation at an end, or no room), unless another parent completing in that cycle lets it start |
| `SchedulerEdges.ChildStartsAtOnce` | common/ScratchpadDatapath.cpp:387-411 | if no edge of the parents that complete last separates, the child starts in their cycle |
| `SchedulerEdges.ChildStartsNext` | common/ScratchpadDatapath.cpp:387-411 | if all do, in the next |
| `SchedulerEdges.PackedIff` | common/ScratchpadDatapath.cpp:400-411 | operations that may share a cycle do if and only if begin plus latency stays below its end |
| `SchedulerEdges.ExecutedIff` | common/BaseDatapath.cpp:840-870 | a node starts and completes if and only if it has an edge or is a transfer through DMA |
| `SchedulerEdges.LatencyIs` | common/ExecNode.h:598-620 | in every run, cycles from start to completion by opcode: 16, 5, 4, 3 or 0 |
| `SchedulerEdges.UnitFitsIff` | common/ExecNode.h:455-542 | at 1 ns and more every unit but the floating-point ones is done within a cycle; below, exactly the shifters from 0.7 ns and the bitwise units from 0.06 ns are |
| `SchedulerChains.BeginIsLongestChain` | common/ScratchpadDatapath.cpp:351-376 | a node's begin time is the end of the longest chain of operations that leads to it |
| `SchedulerChains.FitsIff` | common/ScratchpadDatapath.cpp:405-410 | it fits into a cycle if and only if every such chain, with its own latency, ends before the cycle does |
| `SchedulerMixedEdges.SeparatedChildStartsAtOnce` | common/ScratchpadDatapath.cpp:377-399 | a concrete graph in which an addition starts in the cycle of the load it waits for |
| `SchedulerPriority.StoresOvertake` | common/BaseDatapath.cpp:966-976 | of the nodes woken in a cycle, stores go before the whole executing queue and the others behind it, both in the order of waking |
| `SchedulerPriority.ServedInOrder` | common/ScratchpadDatapath.cpp:219-289 | of two accesses of one partition in the queue, the later one gets a port in a cycle only if the earlier one does |
| `SchedulerPriority.StoresGoFirst` | common/ScratchpadDatapath.cpp:392-399 | a store woken in one cycle gets a port in the next before any access of its partition that was waiting already and before the loads woken with it |
| `SchedulerSaturation.OnlyPortsDelay` | common/ScratchpadDatapath.cpp:236-262 | in every run, an access starts when its parents let it unless in that cycle and in each one up to its start its partition serves as many accesses as it has ports; without a port limit always |
| `SchedulerSaturation.LeftoverPorts` | common/ScratchpadDatapath.cpp:209-217 | every run leaves as many ports in use as its last cycle served accesses, plus what it found if that cycle was its first |
| `SchedulerPriority.WokenInEdgeOrder` | common/ScratchpadDatapath.cpp:365-416 | children that may start at once join the executing queue in the order of the node's edges |
| `SchedulerPriority.RootsInOrder` | common/BaseDatapath.cpp:1041-1048 | a run begins with the nodes without parents in id order |
| `SchedulerSaturation.PassSaturated` | common/ScratchpadDatapath.cpp:219-289 | a pass leaves an access behind only if its partition is full, and the ports in use are the accesses of this cycle and what was left over |
| `SchedulerGreedy.VisitGreedy` | common/ScratchpadDatapath.cpp:219-289 | every visit keeps what that needs: nothing unstarted is passed over except for want of a port |
| `SchedulerBegin.RunLatest` | common/ScratchpadDatapath.cpp:348-417 | throughout a run a node's begin time is the latest at which one of its completed parents is done |
| `SchedulerBegin.BeginDetermined` | common/ScratchpadDatapath.cpp:348-417 | in the end it is a function of the completion cycles of its ancestors |
| `SchedulerLength.LengthIsLastCompletion` | common/BaseDatapath.cpp:978-985 | the run ends in the cycle of its last completion |
| `SchedulerPacking.RunPacks` | common/ScratchpadDatapath.cpp:348-417 | the timing facts behind packing hold throughout a run |
| `SchedulerPacking.PackingFitsClock` | common/ScratchpadDatapath.cpp:400-411 | along any chain of packed nodes all complete in one cycle and their latencies, the first included, sum to less than the cycle time |
| `AlapCorrect.PassMeetsDeadlines` | common/ScratchpadDatapath.cpp:291-335 | each deadline is the least of the schedule's end and the children's begin times, attained, and each node sits where its deadline puts it |
| `AlapCorrect.NeverEarlier` | common/ScratchpadDatapath.cpp:304-332 | no node moves earlier; loads, stores, branches, switches, calls and unconnected nodes do not move |
| `AlapCorrect.PortsKept` | common/ScratchpadDatapath.cpp:306-307 | so at most as many accesses of a partition as it has ports start in one cycle after the pass too |
| `AlapCorrect.ParentBeforeChild` | common/ScratchpadDatapath.cpp:304-332 | on every edge the parent still completes no later than the child starts |
| `AlapCorrect.MovedChainFitsClock` | common/ScratchpadDatapath.cpp:304-332 | moved non-FP nodes along a path that share a cycle have latencies, the first excluded, summing to less than the cycle time |
| `AlapCorrect.LengthKeptIff` | common/ScratchpadDatapath.cpp:291-335 | no completion lands at or beyond `num_cycles` if and only if rounding stays within a cycle or no connected sink is movable |
| `AlapCorrect.OneNsSuffices` | common/ScratchpadDatapath.cpp:291-303 | a cycle time of 1 ns or more always rounds within a cycle |
| `AlapDeadlines.DeadlinesDetermined` | common/ScratchpadDatapath.cpp:291-335 | whatever order the pass goes in, every deadline is the least of the schedule's end and the begin times its children have by their own deadlines |
| `AlapDeadlines.PassDetermined` | common/ScratchpadDatapath.cpp:291-335 | start and completion after the pass as functions of the graph and the schedule before it |
| `AlapDeadlines.FinishIff` | common/ScratchpadDatapath.cpp:295-303 | by when a node must be done, written out: the rounded-up end of the schedule and the whole nanoseconds at which its children begin |
| `AlapDeadlines.MovesIff` | common/ScratchpadDatapath.cpp:306-324 | when a node moves and where to: if and only if it is no load, store, branch, switch or call and the last cycle that ends by its deadline is later than its own |
| `AlapDeadlines.OrderDoesNotMatter` | common/ScratchpadDatapath.cpp:292-293 | any two sinks-first orders give the same schedule |
| `AlapLatency.LatencyKeptIff` | common/ScratchpadDatapath.cpp:304-332 | a connected node takes its latency after the pass if and only if it is not a multi-cycle node whose deadline, known before the pass, leaves room for a later cycle |
| `AlapLatency.SinkKeepsLatencyIff` | common/ScratchpadDatapath.cpp:304-332 | for a multi-cycle sink that is: if and only if it completed no earlier than the last cycle of the rounded-up schedule |
| `AlapLatency.SinkLosesACycle` | common/ScratchpadDatapath.cpp:304-324 | a floating-point sink that completed earlier takes exactly one cycle less |
| `AlapExamples.MovedAdditionLosesACycle` | common/ScratchpadDatapath.cpp:304-324 | a concrete graph, scheduled and rescheduled: the addition takes 4 cycles instead of 5, whatever the ports and the order of the pass |
| `AlapExamples.HalfNsOverruns` | common/ScratchpadDatapath.cpp:291-303 | a concrete graph at 0.5 ns: scheduled in one cycle, it takes two after the pass |
| `AlapCorrect.RunIsFirstPass` | common/ScratchpadDatapath.cpp:209-289 | every scheduler run yields a schedule the pass accepts |
| `AlapCorrect.PassCorrect` | common/ScratchpadDatapath.cpp:291-335 | all of the above for every first-pass schedule and every sinks-first order |
| `AlapCorrect.InvocationCorrect` | common/ScratchpadDatapath.cpp:209-335 | schedule, then reschedule: cycle bound, completion, precedence and ports together |
| `AlapCorrect.SinksFirstExists` | common/ScratchpadDatapath.cpp:292-293 | every acyclic graph has an order for the pass to follow |
| `ScratchpadDatapaths.ScratchpadDatapath.CountParents` | common/BaseDatapath.cpp:840-870 | the loop computes every in-degree and the number of connected nodes |
| `ScratchpadDatapaths.ScratchpadDatapath.InitExecutingQueue` | common/BaseDatapath.cpp:1041-1048 | the queue starts with exactly the connected nodes without parents, in order |
| `ScratchpadDatapaths.ScratchpadDatapath.PrepareForScheduling` | common/BaseDatapath.cpp:840-870 | everything starts afresh except ports and counters |
| `ScratchpadDatapaths.ScratchpadDatapath.UpdateChildrenOf` | common/ScratchpadDatapath.cpp:348-417 | the in-place loop over out-edges equals the recursive wake-up, queue order included |
| `ScratchpadDatapaths.ScratchpadDatapath.MarkNodeCompleted` | common/BaseDatapath.cpp:992-1001 | completes one node, removes it and wakes its children |
| `ScratchpadDatapaths.ScratchpadDatapath.ScratchpadCanServiceAny` | common/Scratchpad.cpp:46-52 | true exactly when some partition has a port left |
| `ScratchpadDatapaths.ScratchpadDatapath.StepExecutingQueue` | common/ScratchpadDatapath.cpp:219-289 | asking the scratchpad only while the flag is up gives the same state as asking the partition for every access |
| `ScratchpadDatapaths.ScratchpadDatapath.CopyToExecutingQueue` | common/BaseDatapath.cpp:966-976 | stores go to the front, everything else to the back, none lost |
| `ScratchpadDatapaths.ScratchpadDatapath.StepCycle` | common/ScratchpadDatapath.cpp:209-217 | one cycle; answers whether all connected nodes have executed |
| `ScratchpadDatapaths.ScratchpadDatapath.Schedule` | common/BaseDatapath.cpp:978-985 | the step loop ends and computes the whole run |
| `ScratchpadDatapaths.ScratchpadDatapath.RescheduleNodesWhenNeeded` | common/ScratchpadDatapath.cpp:291-335 | the in-place pass computes the rescheduling function |
| `ScratchpadDatapaths.ScratchpadDatapath.Invoke` | common/ScratchpadDatapath.cpp:209-335 | one invocation on any acyclic graph, from whatever state the last one left: bound, completion, precedence, ports |
| `ControlDependence.BoundaryWaitsIff` | common/DDDG.cpp:315-369 | a call or return is ordered, over control edges, after exactly the earlier nodes that are not DMA |
| `ControlDependence.BoundaryHoldsBackIff` | common/DDDG.cpp:315-328 | after a call or return come exactly the later calls and returns |
| `ControlDependence.OthersWaitForNothing` | common/DDDG.cpp:315-369 | no other node outside DMA is ordered after anything by control edges |
| `ControlDependence.CallDoesNotHoldBack` | common/DDDG.cpp:315-328 | call, then add: the failing case of the separation the comment intends |
| `ControlDependence.FencedTransfersOrderedIff` | common/DDDG.cpp:315-369 | two DMA transfers are ordered exactly when a fence lies between them and no two successive fences lack a transfer between them |
| `ControlDependence.BackToBackFencesDoNotOrder` | common/DDDG.cpp:315-369 | load, fence, fence, store: the failing case |
| `ControlTracking.ControlEdgesExtend` | common/DDDG.cpp:315-369 | one more instruction adds exactly the edges that the trackers' contents name |
| `ControlTracking.ControlTracker.Track` | common/DDDG.cpp:315-369 | the trackers' edges are always the control edges of the instructions seen |
| `ControlTracking.ControlTracker.InsertControlDependences` | common/DDDG.cpp:195-202 | adds one edge per tracked source, and no other |
| `MemoryDependence.SameAddressOrdered` | common/DDDG.cpp:161-193 | among any accesses: a load, store or transfer out is reachable by memory edges from every earlier store whose start address it reads or stores to, if only nonempty stores wrote that byte since |
| `MemoryDependence.TransferInWaitsForNothing` | common/DDDG.cpp:614-631 | outside ready mode a transfer into the accelerator gets no memory edge |
| `MemoryDependence.TransferHidesStore` | common/DDDG.cpp:614-631 | store, transfer, load: the failing case of ordering a load after every earlier store |
| `MemoryDependence.MemoryEdgesForward` | common/DDDG.cpp:136-193 | memory edges join recorded accesses and never go back |
| `MemoryOrigins.MemoryEdgeIff` | common/DDDG.cpp:136-193 | there is a memory edge if and only if an access covers a byte that an earlier one wrote last (a store its first byte, a transfer or a change of ready bits its range), with the exceptions for first bytes of stores, loads in ready mode and transfers, which wait for ready bits only |
| `MemoryOrigins.AccessWaits` | common/DDDG.cpp:552-558 | so in the edges of every trace: outside ready mode a load waits for the transfer, store or change of ready bits that wrote its byte last |
| `MemoryOrigins.MemoryMarkMeans` | common/DDDG.cpp:136-193 | and an edge marked as memory comes from such accesses or from a 255th operand |
| `MemoryTracking.TablesHoldLast` | common/DDDG.cpp:552-647 | the address tables hold the last writer, and the last ready-bit change, of every address |
| `MemoryTracking.EventAppended` | common/DDDG.cpp:489-503 | how one access changes both tables and the edge set, for all five kinds of access |
| `MemoryTracking.MemoryTracker.HandlePostWriteDependency` | common/DDDG.cpp:161-193 | adds the edge from the last writer of every byte, except those a load in ready mode leaves to ready bits |
| `MemoryTracking.MemoryTracker.HandleReadyBitDependency` | common/DDDG.cpp:136-159 | adds the edge from each ready-bit change in the range and forgets it |
| `MemoryTracking.MemoryTracker.RecordStore` | common/DDDG.cpp:489-503 | the tracker's state stays the tables and edges of the accesses seen |
| `MemoryTracking.MemoryTracker.RecordLoad` | common/DDDG.cpp:552-558 | likewise for a load |
| `MemoryTracking.MemoryTracker.RecordHostLoad` | common/DDDG.cpp:614-631 | likewise for a transfer into the accelerator |
| `MemoryTracking.MemoryTracker.RecordHostStore` | common/DDDG.cpp:632-636 | likewise for a transfer out of it |
| `MemoryTracking.MemoryTracker.RecordReadyBits` | common/DDDG.cpp:637-647 | likewise for a change of ready bits |
| `RegisterDependence.ReadsWaitForLastWrite` | common/DDDG.cpp:425-464 | every register read gets an edge from the last write before it |
| `RegisterDependence.RegisterEdgeOrigin` | common/DDDG.cpp:425-464 | and there is no other register edge |
| `TraceParsing.LoadMeans` | common/DDDG.cpp:552-558 | wherever the records of a load stand in a trace, they mean one access at the value of its operand, as large as its result |
| `TraceParsing.StoreMeans` | common/DDDG.cpp:489-503 | those of a store mean one access at the value of its second operand, as large as that operand |
| `TraceRecords.TransferInMeans` | common/DDDG.cpp:563-631 | the records of a dmaLoad or hostLoad mean one access that writes its destination: by the version of the interface the first argument, or base and offset, with the size argument of that version |
| `TraceRecords.TransferOutMeans` | common/DDDG.cpp:563-636 | those of a dmaStore or hostStore one that reads its source |
| `TraceRecords.ReadyBitsMeans` | common/DDDG.cpp:637-647 | those of setReadyBits a change of the range that its first two arguments name |
| `TraceRecords.PhiReadsIff` | common/DDDG.cpp:383-395 | of the parameters of a run of PHI nodes exactly those from the block of the last instruction before the run are read; the others change nothing |
| `TraceRecords.OtherReadsIff` | common/DDDG.cpp:409-413 | every register parameter of another instruction is read unless an entry declaration came in between, whose parameters change nothing |
| `TraceDataflow.ResultReachesRead` | common/DDDG.cpp:543-546 | by the records alone: a parameter that reads a register has an edge from the node whose result record wrote it last in the same invocation |
| `TraceDataflow.ForwardReachesRead` | common/DDDG.cpp:662-698 | likewise from the producer of an argument forwarded to it |
| `TraceDataflow.AddressReachesRead` | common/DDDG.cpp:448-454 | likewise from a load or store whose address operand nobody had written |
| `TraceDataflow.ResultScheduled` | common/DDDG.cpp:443-447 | and starts no earlier than that node completes |
| `TraceOrigins.RegisterEdgeIff` | common/DDDG.cpp:425-464 | there is a register edge if and only if a parameter record reads a register that a result, a forwarded argument or an unwritten address operand of the source node wrote last |
| `TraceParsing.InstructionsParsed` | common/DDDG.cpp:272-377 | the instructions of a trace are its instruction records, whatever stands between them |
| `TraceLinks.StepLinks` | common/DDDG.cpp:745-820 | whatever the record, every event and pending argument stays that of a known node, in id order |
| `TraceLinks.TraceLinked` | common/DDDG.cpp:745-820 | so for every trace with increasing ids |
| `CallForwarding.NewInvocationIsFresh` | common/DDDG.cpp:330-355 | in every trace a new invocation has registers that no earlier record touches, except to forward arguments |
| `CallForwarding.FunctionGoesOn` | common/DDDG.cpp:333-345 | an instruction of the function on top of the stack belongs to its invocation unless it follows a self call |
| `CallForwarding.FunctionBegins` | common/DDDG.cpp:349-355 | one of another function begins an invocation of it |
| `CallForwarding.CallerResumes` | common/DDDG.cpp:346-348 | after a return the caller's invocation goes on |
| `CallForwarding.CalleeEnteredIff` | common/DDDG.cpp:330-355 | the invocation predicted at a call is the one the callee's first instruction enters, if and only if it is no self call across an entry declaration |
| `CallForwarding.SelfCallAcrossEntry` | common/DDDG.cpp:330-355 | the failing case |
| `CallForwarding.ArgumentProducer` | common/DDDG.cpp:425-464 | a call remembers the last writer of each register it passes |
| `CallForwarding.OtherArgument` | common/DDDG.cpp:425-464 | an argument nobody wrote is remembered with the call, a literal one as such; each takes its place |
| `CallForwarding.ArgumentReaches` | common/DDDG.cpp:662-698 | a read of any formal parameter in the callee gets an edge from the producer of the argument in its place |
| `Dddg.Builder.EnterFunction` | common/DDDG.cpp:330-355 | the function stack, and with it the registers a name denotes, is that of the fold: same function, call, return or new invocation |
| `Dddg.Builder.ParseInstruction` | common/DDDG.cpp:272-377 | the builder stays the meaning of the records seen: one more node, its function, block and control edges |
| `Dddg.Builder.ParseParameter` | common/DDDG.cpp:379-530 | likewise for a parameter: arity, callee and passed arguments, the register read, the address of a store, or nothing where it is ignored |
| `Dddg.Builder.ParseResult` | common/DDDG.cpp:532-660 | likewise for a result: its register is written and the memory access of its instruction performed |
| `Dddg.Builder.ParseForward` | common/DDDG.cpp:662-698 | likewise for a forwarded argument: the callee register is written by the node that produced it |
| `Dddg.Builder.ParseRecord` | common/DDDG.cpp:804-818 | whatever the record, the builder moves by exactly the step of the fold: instructions, memory accesses, register events, stack |
| `Dddg.Builder.BuildInitialDddg` | common/DDDG.cpp:745-820 | the tables describe exactly the memory and register events and the instructions of the parsed part of any trace with increasing ids; it stops only at a record that makes no sense where it stands |
| `InitialGraph.OutputDddg` | common/DDDG.cpp:111-134 | the graph holds exactly the edges of the three tables without self loops, the first kind winning |
| `InitialGraph.RegisterKindIff` | common/DDDG.cpp:111-134 | the edge of a register operand reads as a kind if and only if the tag of the first operand between the two nodes is that kind in one byte |
| `InitialGraph.OperandsThatLookOtherwise` | common/DDDG.cpp:111-134 | tags 5, 6, 11 and 255, and those of 256 more, read as register, fused-branch, control and memory edges |
| `InitialGraph.BuildEdges` | common/DDDG.cpp:745-820 | from a trace: exactly the register, memory and control edges that the fold over its records defines |
| `InitialGraph.EveryEdgeForward` | common/Program.cpp:8-13 | every edge of a trace joins two of its nodes, from a smaller to a larger id, whatever records it mixes |
| `InitialGraph.ReadWaits` | common/DDDG.cpp:425-464 | in the edges of every trace each register operand has one from the last write of its register |
| `InitialGraph.SameAddressWaits` | common/DDDG.cpp:161-193 | in the edges of every trace, an access is reachable from every earlier store whose start address it reads or stores to, under the same condition |
| `InitialGraph.GraphHasEdges` | common/DDDG.cpp:111-134 | the graph has the opcode of every instruction, and an edge, with its kind, exactly where the table has one |
| `InitialGraph.BuildGraph` | common/DDDG.cpp:745-820 | builds the graph of the parsed part of any trace with increasing ids |
| `InitialGraph.GraphForward` | common/DDDG.cpp:111-134 | every edge of the graph of a trace leads to a later instruction |
| `InitialGraph.TraceGraphAcyclic` | common/DDDG.cpp:111-134 | so the initial graph of every trace is acyclic |
| `EndToEnd.ScheduleTrace` | common/ScratchpadDatapath.cpp:209-335 | parses any trace with increasing ids, builds its graph, schedules and reschedules it: the cycle bound, completion of exactly the connected nodes and every edge of the graph are kept |
| `EndToEnd.SameAddressScheduled` | common/DDDG.cpp:161-193 | in such a schedule it starts no earlier than that store completes |
| `EndToEnd.ReadScheduled` | common/DDDG.cpp:425-464 | and no node starts before the last writer of each register it reads has completed |
| `ShortestDistance.ShortestDistanceBetweenNodes` | common/Program.cpp:214-235 | the search without a visited set ends on every acyclic graph and returns the length of the shortest nonempty path avoiding control edges, or -1 exactly when there is none |
| `ShortestDistance.DataEdgeIff` | common/Program.cpp:214-235 | the edges followed are those of every kind but 11 |
| `ShortestDistance.PendingShrinks` | common/Program.cpp:214-235 | each turn leaves one path fewer below the queued nodes |
| `ShortestDistance.LayerIsWalks` | common/Program.cpp:214-235 | the nodes reached after k expansions are the ends of walks of length k |
| `PartitionLayout.SizesAddUpIff` | common/LogicalArray.cpp:75-91 | partition sizes sum to the whole words, and to the array size if and only if the word size divides it |
| `PartitionLayout.SpreadEvenly` | common/LogicalArray.cpp:75-91 | no two partitions differ by more than one word, the longer ones come first, as many as the words leave over |
| `PartitionLayout.CyclicDeals` | common/LogicalArray.cpp:93-136 | the cyclic layout puts word q into partition q mod n, block q / n |
| `PartitionLayout.BlockKeepsOrder` | common/LogicalArray.cpp:93-136 | the block layout puts the next word into the next block, or first into a later partition |
| `PartitionLayout.WordRoundTrip` | common/LogicalArray.cpp:93-136 | every word has an existing (partition, block) slot that leads back to it, in both layouts |
| `PartitionLayout.SlotRoundTrip` | common/LogicalArray.cpp:93-136 | every slot is the slot of exactly one word |
| `LogicalArrays.LogicalArray.ComputePartitionSizes` | common/LogicalArray.cpp:75-91 | sizes differ by at most a word, the longer ones first |
| `LogicalArrays.LogicalArray.GetPartitionIndex` | common/LogicalArray.cpp:93-120 | the partition of any address, with both exceptions and the failed assertion of the block walk |
| `LogicalArrays.LogicalArray.GetBlockIndex` | common/LogicalArray.cpp:122-136 | the block index of any 64-bit address, counted from the start of the given partition modulo 2^64 |
| `LogicalArrays.LogicalArray.Locate` | common/LogicalArray.cpp:213-222 | what any 64-bit address finds: a slot, an exception or an abort |
| `ArrayAddressing.SmallOffsetsResolve` | common/LogicalArray.cpp:93-136 | for offsets of 32 bits that is the word's own slot, and every offset outside the array is detected |
| `ArrayAddressing.OffsetsWrap` | common/LogicalArray.cpp:125-134 | offsets count modulo 2^64 |
| `ArrayAddressing.FarOffsetsAlias` | common/LogicalArray.cpp:216-217 | an offset a multiple of 2^32 units behind one in the array reaches its word |
| `ArrayAddressing.EveryOffset` | common/LogicalArray.cpp:216-217 | what every 64-bit offset finds in every layout: the word its low 32 bits name if it counts as many units as they do modulo 2^32, an exception or an abort otherwise |
| `ArrayAddressing.DetectedBelow4GiB` | common/LogicalArray.cpp:94-102 | below 4 GiB every access outside the array is an exception |
| `ArrayAddressing.DetectedIff` | common/LogicalArray.cpp:216-217 | an access outside the array is detected if and only if its low 32 bits name no whole word or it counts other units |
| `ArrayAddressing.OnlyMultiplesAlias` | common/LogicalArray.cpp:216-217 | with units of up to 2 GiB only multiples of 2^32 units go undetected |
| `ArrayAddressing.LargeUnitsAlias` | common/LogicalArray.cpp:216-217 | a layout with a larger unit, where the offset 4 GiB reaches the first word |
| `FlatMemory.StoreIsFlat` | common/Partition.h:49-52 | storing into a word's slot changes that word of the flat array and no other |
| `FlatMemory.OverwriteIsFlat` | common/LogicalArray.cpp:204-224 | writing consecutive words replaces one stretch of the flat bytes |
| `LogicalArrays.LogicalArray.AccessData` | common/LogicalArray.cpp:204-224 | for every address and length: which words an access reaches, how it ends, and what it has read or written by then |
| `LogicalArrays.LogicalArray.ReadData` | common/LogicalArray.cpp:230-232 | likewise for a read; with offsets of 32 bits it returns the slice a flat byte array would |
| `LogicalArrays.LogicalArray.WriteData` | common/LogicalArray.cpp:226-228 | likewise for a write; with offsets of 32 bits it changes the flat bytes as a flat byte array would, partial writes included |
| `ArrayAccess.FlatReach` | common/LogicalArray.cpp:204-224 | where the lookup finds what it should, an access reaches consecutive words up to the end of the array |
| `ArrayAccess.FarAccess` | common/LogicalArray.cpp:204-224 | a far access reaches the very words of the access in the array that it looks like |
| `ArrayAccess.InRangeReached` | common/LogicalArray.cpp:204-224 | an aligned access inside the whole words succeeds in full at its own offset |
| `ArrayAccess.ReadAfterWrite` | common/LogicalArray.cpp:226-232 | what was written is read back |
| `DmaProtocol.StepKeeps` | gem5/HybridDatapath.cpp:207-245 | visits, setup events and completions keep: event scheduled exactly when nodes wait, at most 100 in flight, each node in one place; unless pipelined nothing is issued while a node is in setup |
| `DmaProtocol.RunKeeps` | gem5/HybridDatapath.cpp:513-575 | so in every reachable state of every interleaving |
| `DmaProtocol.IssuedExactlyOnce` | gem5/HybridDatapath.cpp:887-941 | no node is ever issued twice, a completed one exactly once, one in setup not yet |
| `DmaProtocol.SetupEnds` | gem5/HybridDatapath.cpp:207-245 | however visits, firings and completions interleave, 100 firings issue every node that was in setup |
| `DmaProtocol.FiringsDrain` | gem5/HybridDatapath.cpp:207-245 | with nothing in between, as many firings as nodes wait do |
| `DmaAnswers.AnsweredIffCompleted` | gem5/HybridDatapath.cpp:568-574 | over runs whose visits carry their answers: a visit is answered with true if and only if the completion of its node's transfer came before it |
| `DmaAnswers.AnsweredOnce` | gem5/HybridDatapath.cpp:568-574 | so at most once, at the first visit after the completion |
| `DmaAnswers.CompletedOnce` | gem5/HybridDatapath.cpp:944-950 | a transfer completes at most once, after a visit that was answered with false |
| `DmaAnswers.TakenOnIff` | gem5/HybridDatapath.cpp:520-536 | a node is taken on by the first visit that finds fewer than 100 in flight; visits before it change nothing |
| `DmaAnswers.FinishedIffAnswered` | gem5/HybridDatapath.cpp:568-574 | the nodes logged as finished are those answered with true |
| `DmaEngines.DmaEngine.HandleDmaMemoryOp` | gem5/HybridDatapath.cpp:513-575 | a visit is a step of the protocol, answered with true exactly when the node leaves the flight and is logged as finished; fences complete at once |
| `DmaEngines.DmaEngine.DelayedDmaIssue` | gem5/HybridDatapath.cpp:207-245 | the setup event is a step, issuing in ascending order |
| `DmaEngines.DmaEngine.DmaCompleteCallback` | gem5/HybridDatapath.cpp:944-950 | a completion is a step |
| `PageSplit.MaskIsRemainder` | gem5/Gem5Datapath.h:300-301 | masking with a power of two less one is taking the remainder |
| `PageSplit.Split` | gem5/Gem5Datapath.h:290-342 | for every start, size and power-of-two page: pieces contiguous, covering exactly the request, offsets and buffer positions equal to the bytes sent before; no bytes are one piece |
| `PageSplit.PiecesStayInPages` | gem5/Gem5Datapath.h:304-317 | no piece crosses a page; piece i lies i pages after the first |
| `PageSplit.EventCounted` | gem5/Gem5Datapath.h:155-162 | a completion event reports its request exactly when it is the last |
| `PageSplit.ReportedExactlyOnce` | gem5/Gem5Datapath.h:155-162 | over all interleavings of requests and events each request is reported once, never early |
| `PageSplit.SpadPort.SplitAndSendDmaRequest` | gem5/Gem5Datapath.h:290-342 | the counter of a request becomes its number of pieces |
| `PageSplit.SpadPort.Process` | gem5/Gem5Datapath.h:155-162 | the callback fires on the last event, and the counter is dropped |
| `TlbRow.ResidentIff` | gem5/aladdin_tlb.cc:296-339 | a page not touched in one tick with another is resident exactly when fewer other pages than the associativity were touched after it |
| `TlbRow.EvictedIsOld` | gem5/aladdin_tlb.cc:319-330 | with ticks that repeat: an evicted page has at least as many others touched after it or in the same tick |
| `TlbRecency.EvictsLeastRecentIff` | gem5/aladdin_tlb.cc:319-330 | the victim of a full row is the page touched longest ago if and only if no entry of its tick was touched before it |
| `TlbRecency.TouchKeepsSuffixIff` | gem5/aladdin_tlb.cc:296-339 | a row that holds the most recently touched pages goes on doing so if and only if the touch evicts no other |
| `TlbRecency.RunIsLruIff` | gem5/aladdin_tlb.cc:296-339 | so throughout every run |
| `TlbRecency.FairRunHoldsMostRecent` | gem5/aladdin_tlb.cc:296-339 | then a page is resident exactly when fewer pages than fit were touched after its last touch |
| `TlbRecency.OneEntryIsFair` | gem5/aladdin_tlb.cc:319-330 | a row of one entry always evicts the right page |
| `TlbRecency.IncreasingTicksAreFair` | gem5/aladdin_tlb.cc:319-330 | and so does every row if no two touches share a tick |
| `TlbRecency.MoreRecentEvicted` | gem5/aladdin_tlb.cc:319-330 | touches of 1 and 2 in one tick and of 3 later leave 1 and 3 in a row of two: the failing case |
| `TlbRow.FillKeeps` | gem5/aladdin_tlb.cc:312-339 | filling the victim keeps the row's invariant |
| `TlbRow.RowHoldsMostRecent` | gem5/aladdin_tlb.cc:296-339 | after every run at ticks that never go back a row holds no page twice; what it holds is recent, what it does not hold is not; without ties it holds exactly its most recently touched distinct pages, up to the associativity |
| `TlbMemories.TlbMemory.Lookup` | gem5/aladdin_tlb.cc:296-310 | hits exactly the pages in row (vpn / page size) mod rows, returns the cached frame and touches the page in that row; contents unchanged |
| `TlbMemories.TlbMemory.Insert` | gem5/aladdin_tlb.cc:312-339 | makes the page resident; a resident page keeps its frame; every other translation left was there before, and those of pages of other rows, by the quotient, all stay |
| `TlbRuns.MemoryHoldsMostRecent` | gem5/aladdin_tlb.cc:296-339 | the whole TLB after any run: a page stands in the row of its number only, and whether it does is decided by the later touches of pages of that row alone |
| `TlbRuns.RowsStayOk` | gem5/aladdin_tlb.cc:296-339 | touches of any pages keep every row the most recent of its own |
| `TlbMemories.TlbMemory.ChooseEntry` | gem5/aladdin_tlb.cc:319-330 | the scan finds the first free entry, or the last of those with the least tick |
| `TlbMemories.TlbMemory.constructor` | gem5/aladdin_tlb.hh:76-87 | rows and associativity as configured, nothing resident |
| `TlbProtocol.RunKeeps` | gem5/aladdin_tlb.cc:179-224 | in every interleaving the pages waited for are exactly the pages walked, each once; the counter equals the walks and stays within a nonzero limit; events match queues |
| `TlbProtocol.WalkKeeps` | gem5/aladdin_tlb.cc:71-97 | a returning walk finds packets waiting and completes all of its page's |
| `TlbProtocol.CompletedExactlyOnce` | gem5/aladdin_tlb.cc:53-57 | no packet completes more often than it was accepted, and exactly as often once no event is left |
| `TlbProgress.AcceptedComplete` | gem5/aladdin_tlb.cc:53-97 | once as many hit events and walk returns have come as were under way, every packet accepted before has completed, whatever requests came in between |
| `TlbProtocol.ServiceDrains` | gem5/aladdin_tlb.cc:53-97 | with no requests in between, the events under way, in any order, complete every accepted packet |
| `AladdinTlbs.AladdinTlb.TranslateTiming` | gem5/aladdin_tlb.cc:179-224 | a request is a step of the protocol, refused exactly when it misses a page that is not being walked at the walk limit; a page is walked once at a time; a hit returns the backup map's frame while the two agree |
| `AladdinTlbs.AladdinTlb.DequeueHit` | gem5/aladdin_tlb.cc:53-57 | the hit event never finds an empty queue |
| `AladdinTlbs.AladdinTlb.ReturnWalk` | gem5/aladdin_tlb.cc:71-97 | the page becomes resident with the backup map's frame or its own number; agreement is kept |
| `AladdinTlbs.AladdinTlb.Insert` | gem5/aladdin_tlb.cc:226-229 | TLB and backup map still agree if and only if the page was not resident with another frame |
| `AladdinTlbs.AladdinTlb.InsertBackupTlb` | gem5/aladdin_tlb.cc:231-233 | likewise for the backup map alone |
| `AladdinTlbs.StaleFrame` | gem5/aladdin_tlb.cc:226-229 | a page inserted with one frame and then with another translates to the first |
| `AladdinTlbs.AladdinTlb.TranslateInvisibly` | gem5/aladdin_tlb.cc:165-177 | fails exactly for pages in neither place; marks a resident page as touched |
| `LoopTree.TreeNeedsChains` | common/LoopInfo.h:23-27 | a tree of smallest parents exists only if the loops around any loop are nested in each other |
| `LoopTree.NestedOrApartIsChained` | common/LoopInfo.h:23-27 | intervals nested or sharing at most an endpoint, and not empty, are such loops |
| `LoopTree.PointBetweenTwoLoops` | common/LoopInfo.h:23-27 | an interval of one node where two others touch has no smallest parent |
| `LoopTree.HostIsSmallest` | common/LoopInfo.cpp:38-81 | the node the descent stops at is inside every loop that contains the new one |
| `LoopTree.SpliceKeepsTree` | common/LoopInfo.cpp:53-76 | splicing a loop in under it keeps every loop listed once, under its smallest parent |
| `LoopInfos.OneWayDown` | common/LoopInfo.cpp:53-69 | at most one child contains the loop, and then no sibling lies inside it |
| `LoopInfos.LoopInfo.InsertLoop` | common/LoopInfo.cpp:38-81 | the recursive in-place insertion is that splice, child order included |
| `LoopInfos.LoopInfo.BuildLoopTree` | common/LoopInfo.cpp:6-36 | any such loops in any order: each appears once and its parent is the smallest loop containing it, or the root |
| `Upsample.TotalIsMeaning` | common/LoopInfo.cpp:179-232 | with whole factors, corrections propagated loop by loop add up to D(L) = C(L) + f * sum of D(children), summed over the root's children |
| `Upsample.PlainIsWhole` | common/LoopInfo.cpp:194 | where C(L) = (f-1)*E(L) for a loop that is not pipelined |
| `Upsample.Affected` | common/LoopInfo.cpp:172-177 | a correction weighs the same in every enclosing loop's meaning as at the root |
| `Upsample.HandUpScales` | common/LoopInfo.cpp:172-177 | with whole factors a correction arrives multiplied by all factors on the way |
| `Upsample.HandUpExactIff` | common/LoopInfo.cpp:172-177 | with any positive factors at most the exact product arrives, and all of it if and only if it is whole at every step |
| `Upsample.FractionsAreLost` | common/LoopInfo.cpp:194 | the failing case |
| `Upsample.PlainLoopsCorrected` | common/LoopInfo.cpp:192-230 | without pipelined loops exactly the sampled loops not upsampled before are corrected, each by its own cycles |
| `Upsample.GroupCorrectedOnce` | common/LoopInfo.cpp:204-210 | of the iterations of a pipelined loop only one is corrected |
| `Upsample.IntervalsTelescope` | common/LoopInfo.cpp:211-219 | its intervals come down to its first and last end |
| `UpsampleGroups.CorrectedIff` | common/LoopInfo.cpp:192-230 | a loop is corrected in a call if and only if it is sampled, not upsampled before, and no earlier sampled iteration of the same pipelined loop speaks for it; by its own cycles or its group's |
| `UpsampleGroups.PipelinedIsAverage` | common/LoopInfo.cpp:211-226 | the correction of a pipelined loop of n iterations with a whole factor f is (f-1) times n times the average distance of their ends, rounded down |
| `UpsampleGroups.OneIterationAddsNothing` | common/LoopInfo.cpp:220-226 | of a loop with one iteration, nothing |
| `UpsampleGroups.CutTowardZero` | common/LoopInfo.cpp:194 | products with factors are cut toward zero |
| `Upsample.CallUpsamplesAll` | common/LoopInfo.cpp:192-230 | a call is done with every sampled loop |
| `Upsample.NothingLeft` | common/LoopInfo.cpp:192-230 | so a second call adds nothing, whatever the factors |
| `Upsample.LoopCycles.UpsampleLoop` | common/LoopInfo.cpp:172-177 | adds the correction, multiplied and truncated on the way, at the root only |
| `Upsample.LoopCycles.UpsampleLoops` | common/LoopInfo.cpp:179-232 | for any factors, pipelined loops included: the root's total grows by what the corrections applied now come to, with whole factors by the recursive meaning |
| `RadixGroups.FlatStablySorted` | SHOC/ss_sort/ss_sort.c:61-88 | slots by digit and block, end to end, are the keys stably ordered by digit, for any number of blocks |
| `RadixPass.DeclaredBucketFitsIff` | SHOC/ss_sort/ss_sort.c:61-70 | the histogram stays within `BUCKETSIZE` cells if and only if no key of the last block has digit 3; one more cell always suffices |
| `RadixPass.Hist` | SHOC/ss_sort/ss_sort.c:61-70 | counts every slot one cell up |
| `RadixPass.LocalScan` | SHOC/ss_sort/ss_sort.c:17-27 | each run holds its own inclusive sums |
| `RadixPass.SumScan` | SHOC/ss_sort/ss_sort.c:29-36 | the sums of all cells before each run |
| `RadixPass.LastStepScan` | SHOC/ss_sort/ss_sort.c:38-50 | every cell holds the sum of all cells up to it, for any run length |
| `RadixPass.PlaceStep` | SHOC/ss_sort/ss_sort.c:81-86 | the next key goes to a free place inside its own slot |
| `RadixPass.Update` | SHOC/ss_sort/ss_sort.c:75-88 | every key ends up in its slot, in order |
| `RadixPass.Pass` | SHOC/ss_sort/ss_sort.c:97-126 | one pass makes `b` a stable permutation of `a` by the digit at any `exp`, whatever the buckets held |
| `RadixSort.PassExtends` | SHOC/ss_sort/ss_sort.c:97-126 | a pass over the next digit makes a stable order by the low bits one digit longer |
| `RadixSort.SortDigits` | SHOC/ss_sort/ss_sort.c:90-131 | the loop over `exp` with its `flag`, for any limit: the keys end, stably ordered by as many digits as passes, in the array the flag names |
| `RadixSort.FullySorted` | SHOC/ss_sort/ss_sort.c:90-131 | with enough passes, in ascending order |
| `RadixSort.SsSort` | SHOC/ss_sort/ss_sort.c:90-131 | with the limit of the source: `a` as it was, `b` stably ordered by the lowest two bits |

## Left out

- Text parsing of traces and configuration files, label maps and statistics output: records are typed, and where one invocation's part of a trace ends is an input.
- Graph optimisation passes between the initial graph and scheduling: the scheduler takes any acyclic graph.
- Ready mode in the scheduler, and the cache, ACP and `HybridDatapath` scheduling of memory nodes.
- The cycle-based ALAP pass of `BaseDatapath`, which `ScratchpadDatapath` overrides.
- Boost's choice among topological orders: the ALAP pass is proved for every sinks-first order.
- Rounding of `float` latencies: arithmetic is exact in hundredths of a nanosecond.
- Register-file access counters, power, area and CACTI.
- Write-after-read ordering and partial overlap of ordinary stores: the DDDG does not record them.
- Dddg.Builder.ParseParameter: the array-name bookkeeping of parameters and the translation of host addresses are not modelled, because no edge depends on them.
- EndToEnd.ScheduleTrace: in ready mode the graph leaves out the edges from transfers to loads and the scheduler has no ready bits to stand in for them, so these waits are not kept. Which node lies in which partition is an input, since it comes from array names and the configuration.
- LogicalArrays.LogicalArray.constructor: blocks start as zeros where the source leaves memory uninitialised; every contract about data holds from any contents.
- Ready bits of partitions, streaming and DMA access counters of the scratchpad.
- DMA setup delays in ticks and the data moved by a transfer: events come whenever the environment lets them.
- PageSplit.SpadPort.SplitAndSendDmaRequest: address translation of the pieces is not modelled; pieces are computed before they are counted, where the source does both in one loop.
- `TLBMemory::clear`, the infinite TLB, the packet form of `translateInvisibly`, and request bandwidth per cycle.
- LoopInfos.LoopInfo.InsertLoop: loop sets that are not chained are excluded; `LoopTree.TreeNeedsChains` shows that for them the tree it maintains does not exist.
- LoopInfos.LoopInfo.BuildLoopTree: likewise.
- Upsample.LoopCycles.UpsampleLoops: the DMA correction of elapsed cycles is not modelled and measured cycles are an input; factors are exact reals where the source has `float`.
- `findLoopBoundaries` and label matching: loop intervals are an input.
- 32-bit overflow of cycle, loop and histogram counters.
- The other SHOC and MachSuite kernels.
