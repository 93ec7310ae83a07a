# Proofs about four operating system simulators

This project models four programs and proves what they are for:

- a **demand-paging simulator** (`proj03/src/paging.c`): two-level page table, frame table, FIFO and LRU
  victims found by a scan over time stamps;
- a **CFS-like scheduler** (`proj02/src/scheduler.c`, `process.c`, `cfs.c`): one scheduler thread, a generator
  and one thread per process, which exchange mutexes, condition variables and flags;
- a **parallel word count** (`proj01/src/pword.c`, `tword.c`, `common.c`): child processes that send packed
  messages over one queue, and threads that fill slots;
- a **search tree** of linked nodes (`hw01/src/tree.c`).

Check everything with `dafny verify dfyconfig.toml`.

## How it is built

Code that changes things in place is written that way: the page table is an `array2`, the frame table and the
message buffers are arrays, the run queue is a linked list, the word list a growable array, the tree a heap of
nodes. Every such method is proved against a function on values, and the theorems are about those functions.

| part | on values | in place | theorems |
|---|---|---|---|
| paging | `ReplacementPolicies`, `PagingModel`, `ScanSentinel` | `Addresses`, `PagingSimulator` | `ReplacementPolicies`, `Competitiveness`, `AddingFrames`, `ScanSentinel`, `PagingReports`, `PagingTheorems` |
| scheduler | `CfsArithmetic`, `RunQueueOrder`, `SchedulerProtocol` | `RunQueue`, `SchedulerQueue` | `SchedulerInvariant`, `SchedulerSafety`, `SchedulerProgress`, `SchedulerSlices`, `SchedulerFairness`, `SchedulerUnfairness` |
| word count | `WordCounts`, `MessageCodec`, `MessagePacker`, `WordCountPrograms` | `WordCountArray`, `MessageBuffers`, `WordCountLoops` | `WordCountOutput`, `WordCountPrograms`, `WordCountTheorems`, `WordCountLoops` |
| tree | `SearchTree` | `SearchTree` | `SearchTree` |

**Paging.** A run is a function of the trace (`PagingModel.MemoryAfter`): the resident pages in eviction order,
their frames and their stamps. The simulator computes it for every trace on which it finds a victim whenever it
needs one (`PagingSimulator.RunPagingSimulation`), and which traces these are is characterised exactly
(`ScanSentinel.RunsToTheEndIff`). LRU inclusion, stack distance, conservativeness, competitiveness and the exact
range of FIFO's anomaly are proved for the policies and then for the reported faults.

**Scheduler.** The threads form a state machine with one program counter each (`SchedulerProtocol`). One invariant
(`SchedulerInvariant.Inv`) holds in every reachable state, spurious wake-ups included, for any number of processes.
Mutual exclusion, absence of lost wake-ups and of deadlock, exact accounting, termination and, for runs in which every
pick sees all unfinished processes, weighted fairness follow from it.

**Word count.** Children are scripts of messages; every interleaving of them on a queue of any capacity is a list of
moves. The packer is modelled twice: as it was meant, and as it is written.

## Where the code does not do what it is for

These are results, each with its exact condition and with an input:

- **The victim scan starts from 999999** and only looks at smaller stamps. After that time a run can need a victim
  that no scan sees, and then the program dereferences a pointer that was never set. Since `proj03/src/utility.h:4`
  defines `DEBUG_LOG`, the frames of the FIFO and of the LRU victim are both printed, so that under FIFO, too, a
  victim must be visible to the LRU scan. A run goes through if and only if from that time on no fault meets a memory
  full of pages that were all used since (`RunsToTheEndIff`); under LRU this means no more than M distinct pages
  (`LruRunsToTheEndIff`). `LongRunSticks` and `OneLateFaultSticks` give addresses on which it fails.
- **FIFO is not monotone** in the number of frames. N frames never fault more often than M, for M <= N, if and only if
  N = M or N >= 2 M - 1 (`FifoMonotoneIff`, `ReportedFifoMonotoneIff`); otherwise `SomeRunReportsMore` gives addresses.
- **The packer as written** moves its cursor back by one before it leaves the packing loop (`proj01/src/pword.c:41`).
  It stops if and only if any two neighbouring pairs fit into one message (`TerminatesIff`), which is always so
  from 256 bytes on and not always with 128 (`SomeFileHangs`). When it stops, it repeats the last pair of every message
  in the next one (`AsWrittenDelivers`), and the process version writes the right counts if and only if the words of every
  single file fit into one message (`AsWrittenIsRightIff`); `SomeOutputIsWrong` gives a file that does not.
- **A process of length zero or less** is never counted down. The scheduler leaves its loop if and only if all lengths are
  positive (`EveryRunFinishes`, `NoDeadlock`, `NonPositiveLengthHangs`).

Weighted fairness is proved for runs in which every unfinished process is queued when the scheduler picks one. The program
does not ensure this: a process that has used its slice wakes the scheduler before it queues up again
(`proj02/src/process.c:52-54` and then `:23-26`). Then two processes can take turns whatever their virtual runtimes
(`FairnessHasNoBound`), and one that is late to queue up is left out (`LateOnesAreLeftOut`): without a condition on the run
some bound holds if and only if there is at most one process (`BoundedIff`). The condition on a run is sufficient; it is not
claimed to be necessary run by run.

## Model

| member | source | states |
|---|---|---|
| Addresses.GetLogicalAddress | proj03/src/paging.c:7-13 | for every 32-bit address both table indices are below 1024 and the offset is below 4096 |
| Addresses.SplitIsInjective | proj03/src/paging.c:7-13 | no two addresses share outer index, inner index and offset |
| Addresses.SplitInNumbers | proj03/src/paging.c:7-13 | as numbers, an address is 4194304 times its outer index, plus 4096 times its inner index, plus its offset |
| Addresses.PageAndOffset | proj03/src/paging.c:7-13 | the offset is the address modulo 4096, and the two indices number the page |
| Addresses.SignedInNumbers | proj03/src/paging.c:15-23 | addresses are compared as the signed number with the same 32 bits |
| Addresses.RegionEnds | proj03/src/paging.c:18 | a region holds its base and does not hold its end |
| Addresses.IsVirtualAddressInRange | proj03/src/paging.c:15-23 | true exactly when some region holds the address, compared as signed integers |
| Addresses.PhysicalIsInjective | proj03/src/paging.c:25-27 | a physical address determines frame and offset |
| Addresses.PageOfAddress | proj03/src/paging.c:7-23 | address 4096 k, for k below 1024, is the start of page (0, k) and in range of one region of 4 MiB |
| ReplacementPolicies.LruStretch | proj03/src/paging.c:138-178 | after any stretch of the trace the back of the LRU queue is made of the pages of the stretch, all of them if they fit |
| ReplacementPolicies.FifoStretch | proj03/src/paging.c:138-178 | the FIFO queue is always the last M pages loaded |
| ReplacementPolicies.Conservative | proj03/src/paging.c:138-178 | under both policies, from any memory, a stretch with at most M distinct pages faults at most once on each |
| ReplacementPolicies.LruResident | proj03/src/paging.c:138-178 | LRU holds a page if and only if it was used and fewer than M other pages were used since |
| ReplacementPolicies.LruInclusion | proj03/src/paging.c:138-178 | the pages LRU holds with M frames are among those it holds with more |
| ReplacementPolicies.LruFaultsMonotone | proj03/src/paging.c:138-178 | adding frames never adds LRU faults |
| AddingFrames.NewHome | proj03/src/paging.c:138-178 | under FIFO with at least 2 M - 1 frames, while the memory with M frames holds a page, the larger one does not load it a second time |
| AddingFrames.TwiceIsSafe | proj03/src/paging.c:138-178 | so with at least 2 M - 1 frames FIFO never faults more often than with M, on any trace |
| AddingFrames.SmallFaults | proj03/src/paging.c:138-178 | for M < N < 2 M - 1, a trace of N + 1 different pages that faults 2 N + 1 times with M frames |
| AddingFrames.LargeFaults | proj03/src/paging.c:138-178 | the same trace faults 2 N + 2 times with N frames (M = 3, N = 4: nine and ten) |
| AddingFrames.FifoMonotoneIff | proj03/src/paging.c:138-178 | more frames never mean more FIFO faults, on all traces, if and only if the frame counts are equal or the larger is at least 2 M - 1 |
| AddingFrames.SomeRunReportsMore | proj03/src/paging.c:132-184 | otherwise there are addresses on which both runs go through and the one with more frames reports one fault more |
| AddingFrames.ReportedFifoMonotoneIff | proj03/src/paging.c:132-184 | the same if and only if, for the faults reported on all regions and addresses |
| Competitiveness.FaultsThroughPhase | proj03/src/paging.c:154-173 | at most M faults in a phase of at most M distinct pages |
| Competitiveness.RivalPerPhase | proj03/src/paging.c:154-173 | any rival with h frames, started empty, loads at least M - h + 1 pages per phase |
| Competitiveness.LoadsAreFaults | proj03/src/paging.c:154-173 | a rival that loads on demand loads exactly as often as it faults |
| Competitiveness.Competitive | proj03/src/paging.c:138-178 | LRU and FIFO with M frames against any rival with h: faults times (M - h + 1) at most M times the rival's loads plus M (M - h) |
| Competitiveness.CompetitiveFaults | proj03/src/paging.c:138-178 | with equally many frames, at most M times the faults of any demand policy, for every trace |
| PagingModel.AccessCoupled | proj03/src/paging.c:151-175 | every access keeps the coupling: resident pages own distinct frames that fill a prefix, and stamps follow the eviction order |
| PagingModel.MemoryAfter | proj03/src/paging.c:132-178 | the coupling holds after every trace |
| PagingModel.AccessedIsResident | proj03/src/paging.c:167-177 | the page just accessed is resident, so its address can be translated |
| PagingModel.RunsThePolicy | proj03/src/paging.c:138-178 | queue and number of reported faults are those of the simple policy on the in-range accesses |
| PagingModel.ResidentCount | proj03/src/paging.c:154-173 | the number of resident pages is the smaller of the number of faults and of M |
| PagingModel.FramesAreAPrefix | proj03/src/paging.c:29-35 | the frames in use are exactly the first ones, one per resident page |
| PagingModel.TranslationIsInjective | proj03/src/paging.c:177 | two resident addresses with the same physical address are the same address |
| PagingModel.TranslationInBounds | proj03/src/paging.c:25-27 | physical addresses of resident pages lie below 4096 M and keep the offset |
| PagingModel.FifoFrames | proj03/src/paging.c:157-172 | under FIFO the j-th faulting page, from 0, is put in frame j mod M |
| PagingReports.ReportInside | proj03/src/paging.c:153-177 | an access inside a region is reported at the translation of its address by the tables after it, as a fault exactly when its page was not resident, and then with the frame of the page |
| PagingReports.ReportOutside | proj03/src/paging.c:146-149 | an access outside every region reports that only, and changes nothing |
| PagingReports.ReportInNumbers | proj03/src/paging.c:177 | the reported physical address is below 4096 M, is the address modulo 4096, and divided by 4096 is the frame of the page |
| PagingReports.ReportIsRight | proj03/src/paging.c:140-178 | every report of the model is the right one, field by field, in terms of addresses and tables |
| PagingReports.FrameStays | proj03/src/paging.c:154-177 | a page that does not fault stays in its frame |
| PagingReports.ReportsAgreeIff | proj03/src/paging.c:154-177 | if the page of the later of two accesses did not fault in between, both are reported at the same physical address exactly when their addresses are equal |
| ScanSentinel.LastUses | proj03/src/paging.c:175 | no recorded time of last use is later than the current time |
| ScanSentinel.StuckNow | proj03/src/paging.c:67-84 | late in a run no victim is seen exactly when all frames are held by pages used since the cut and the access faults |
| ScanSentinel.RunsToTheEndIff | proj03/src/paging.c:37-84 | a run finds all its victims if and only if, from stamp 999999 on, no fault meets a memory full of pages that were all used since then |
| ScanSentinel.FewLatePages | proj03/src/paging.c:37-84 | under either policy a run goes through if it uses at most M distinct pages from then on |
| ScanSentinel.LruRunsToTheEndIff | proj03/src/paging.c:52-65 | under LRU this is also necessary |
| ScanSentinel.ManyLateFaultsStick | proj03/src/paging.c:37-50 | under FIFO more than M faults from then on are too many |
| ScanSentinel.ShortRunsEnd | proj03/src/paging.c:37-84 | every trace of at most 999998 + M accesses goes through |
| ScanSentinel.LongRunSticks | proj03/src/paging.c:37-84 | for both policies and every M, addresses in one region on which the run needs a victim that was never set |
| ScanSentinel.OneLateFaultSticks | proj03/src/paging.c:71-75 | under FIFO with one frame, addresses on which the last access needs a victim and the printed LRU victim was never set, although the only resident page carries FIFO stamp 1 |
| PagingSimulator.InitFrameTable | proj03/src/paging.c:124-130 | no frame is taken at first |
| PagingSimulator.InitOuterPageTable | proj03/src/paging.c:86-98 | no page is valid at first |
| PagingSimulator.FindFirstFreeFrame | proj03/src/paging.c:29-35 | the frame after the taken ones, or -1 exactly when all M are taken |
| PagingSimulator.GetFifoPage | proj03/src/paging.c:37-50 | a valid page with the least page-in time, or nothing exactly when none is below 999999 |
| PagingSimulator.GetLruPage | proj03/src/paging.c:52-65 | a valid page with the least time of last use, or nothing exactly when none is below 999999 |
| PagingSimulator.GetVictimPage | proj03/src/paging.c:67-84 | the page of the policy asked for, or nothing when either printed pointer is unset |
| PagingSimulator.ScanFindsOldest | proj03/src/paging.c:37-84 | the scans over the whole table find the head of the eviction queue, unless every resident page was used too late to be seen |
| PagingSimulator.TakeFrame | proj03/src/paging.c:157-165 | the next free frame, or that of the victim, which is no longer valid |
| PagingSimulator.Evict | proj03/src/paging.c:160-161 | the frame of the victim; afterwards the table is that of the memory without it |
| PagingSimulator.WriteEntry | proj03/src/paging.c:168-175 | the table entry of a page that was loaded |
| PagingSimulator.TouchEntry | proj03/src/paging.c:175 | the table after a hit |
| PagingSimulator.LoadPage | proj03/src/paging.c:154-173 | a page fault takes the tables from one modelled memory to the next, or finds no victim |
| PagingSimulator.AccessPage | proj03/src/paging.c:151-177 | so does every in-range access, and it reports fault and frame of the model, and 4096 times the frame plus the offset |
| PagingSimulator.SimulateNext | proj03/src/paging.c:140-178 | one turn of the loop, out-of-range accesses included: these advance time and touch nothing |
| PagingSimulator.RunPagingSimulation | proj03/src/paging.c:132-184 | the whole run reports for every access what the model reports, which is right field by field, and fails exactly on the traces that do not run to the end |
| PagingTheorems.ReportedLruFault | proj03/src/paging.c:138-178 | where the run goes through, it reports an LRU fault exactly when the stack distance is M or more, or the page is new |
| PagingTheorems.ReportedLruMonotone | proj03/src/paging.c:138-178 | where the runs go through, the LRU faults they report never increase when frames are added |
| PagingTheorems.ReportedConservative | proj03/src/paging.c:138-178 | where the run goes through, between any two accesses it reports no more faults than distinct pages are used, if these fit |
| PagingTheorems.ReportedCompetitive | proj03/src/paging.c:138-178 | where the run goes through, the faults it reports against any rival with h frames |
| PagingTheorems.ReportedCompetitiveFaults | proj03/src/paging.c:138-178 | where the run goes through, it reports at most M times the faults of any demand policy |
| CfsArithmetic.RoundedBounds | proj02/src/cfs.c:67 | rounding is off by at most one half |
| CfsArithmetic.TimesliceIsMonotone | proj02/src/cfs.c:57-70 | more weight never means a shorter slice |
| CfsArithmetic.WeightsFall | proj02/src/cfs.c:7-20 | each priority weighs between 6/5 and 32/25 of the next one |
| CfsArithmetic.AllWeights | proj02/src/cfs.c:7-20 | the forty weights add up to 445163 |
| CfsArithmetic.BetterIsServedMore | proj02/src/cfs.c:57-74 | the better of two priorities gets a slice at least as long beside the same queue, and its virtual runtime grows strictly more slowly |
| CfsArithmetic.RoundTakesTheLatency | proj02/src/cfs.c:57-70 | the slices of n queued processes add up to between 100 - n/2 and 100 + 10 n |
| RunQueueOrder.SmallestIndex | proj02/src/cfs.c:76-89 | the position of the first smallest virtual runtime |
| RunQueue.Runqueue.AddPcb | proj02/src/cfs.c:33-38 | the new process is at the head, the others behind it |
| RunQueue.Runqueue.RemovePcb | proj02/src/cfs.c:40-55 | the first node of the process leaves the list, the order of the others stays; nothing changes if there is none |
| RunQueue.Runqueue.Unlink | proj02/src/cfs.c:45-48 | relinking around node k leaves the list without its k-th element |
| RunQueue.Runqueue.RunqueueTimeslice | proj02/src/cfs.c:57-70 | the slice of a weight against the total weight of the list, 100 for an empty list |
| RunQueue.Runqueue.RunqueueSmallestPcb | proj02/src/cfs.c:76-89 | the first process in list order with the smallest virtual runtime, null for the empty list |
| RunQueue.RemoveAt | proj02/src/cfs.c:43-51 | removal cuts out exactly the first occurrence |
| RunQueue.ProcessControlBlock.UpdatePcbTimings | proj02/src/scheduler.c:98-101 | cpu time grows by the slice, virtual runtime by the slice scaled by weight |
| SchedulerQueue.QueueUp | proj02/src/process.c:23-25 | adding to the linked queue is the enqueue step of the state machine |
| SchedulerQueue.PickNext | proj02/src/scheduler.c:52-54 | the process found on the linked queue is the one that the state machine picks, ties included |
| SchedulerQueue.LeaveQueue | proj02/src/process.c:33-35 | removing a process and then asking for its slice gives the slice of the state machine |
| SchedulerQueue.UseSlice | proj02/src/process.c:32-38 | removal, slice and charge in place are the step of the state machine on its queue and its accounts |
| SchedulerSlices.QueueWeight | proj02/src/cfs.c:57-65 | the loop over the queue adds the weight of every listed process once |
| SchedulerSlices.TimesliceBeside | proj02/src/cfs.c:57-70 | a slice is 100 beside nobody, otherwise 100 times the weight over that of the others, rounded to the nearest and at least 10 |
| SchedulerSlices.SliceOfConsume | proj02/src/process.c:33-37 | in every reachable state a process that uses a slice uses the one of its weight beside the other queued processes, itself left out, or what is left of its length |
| SchedulerSlices.LargestGainInARun | proj02/src/process.c:33-37 | a run of two processes with priorities 12 and 19 in which the first uses 467 and gains 1024 * 467 / 70 |
| SchedulerSlices.SwitchesAreSlices | proj02/src/process.c:38 | in every run the context switches counted by a process are the slices it used |
| SchedulerInvariant.InitInv | proj02/src/scheduler.c:11-15 | the invariant holds at the start, for any workload |
| SchedulerInvariant.ProcessKeeps | proj02/src/process.c:20-56 | every step of a process thread keeps it |
| SchedulerInvariant.ConsumeKeeps | proj02/src/process.c:32-39 | in particular leaving the queue and charging the slice |
| SchedulerInvariant.SchedulerKeeps | proj02/src/scheduler.c:46-66 | every step of the scheduler thread keeps it |
| SchedulerInvariant.CreateKeeps | proj02/src/generator.c:30-49 | so does the creation of a process |
| SchedulerInvariant.StepKeeps | proj02/src/scheduler.c:36-130 | every step of every thread keeps it, spurious wake-ups included |
| SchedulerInvariant.ReachableInv | proj02/src/scheduler.c:43-122 | it holds in every reachable state |
| SchedulerSafety.MutualExclusion | proj02/src/scheduler.c:47-66 | at most one process is RUNNING; one that is was recorded or is being granted the processor; have_running_process excludes waiting_for_new_process |
| SchedulerSafety.NoLostWakeup | proj02/src/scheduler.c:49-50 | a thread asleep without reason has a signal coming; while the scheduler waits for a new process, whoever is queued has yet to announce itself |
| SchedulerSafety.InvertedLocksAreSafe | proj02/src/scheduler.c:56-60 | when the scheduler wants a process's mutex while holding its own, that process is queued and ready, and holds its mutex at most to test its state |
| SchedulerSafety.NoDeadlock | proj02/src/scheduler.c:43-66 | if no thread can move, every process has finished, and the scheduler has left its loop if and only if all lengths are positive |
| SchedulerSafety.ExactAccounts | proj02/src/process.c:34-38 | no process exceeds its length, a finished one has used exactly that, with 10 (c - 1) below it for c context switches |
| SchedulerSafety.ExactVirtualRuntime | proj02/src/scheduler.c:98-101 | in every reachable state virtual runtime is 1024 cpu_time / weight |
| SchedulerProgress.StepLowers | proj02/src/process.c:20-56 | every step but a spurious wake-up lowers a measure of remaining time and program counters |
| SchedulerProgress.RunsAreBounded | proj02/src/scheduler.c:43-66 | so the number of steps is bounded, without any fairness |
| SchedulerProgress.EveryRunFinishes | proj02/src/scheduler.c:43-66 | with positive lengths every maximal run finishes all processes and leaves the scheduler's loop |
| SchedulerProgress.NonPositiveLengthHangs | proj02/src/process.c:20-53 | with a process of length zero or less the scheduler never leaves its loop |
| SchedulerFairness.PickIsLeast | proj02/src/cfs.c:76-89 | the pick has the least virtual runtime of all unfinished processes, if all are queued |
| SchedulerFairness.WeightedFairness | proj02/src/scheduler.c:47-66 | in runs in which every pick of a process sees all unfinished ones, their virtual runtimes never differ by more than the largest gain of a slice |
| SchedulerFairness.WeightedFairnessAlways | proj02/src/cfs.c:57-74 | and so in such runs never by more than 1024 * 467 / 70, whatever the workload |
| SchedulerFairness.GainIsBounded | proj02/src/cfs.c:57-74 | no slice gains more than that, for any priority and any queue |
| SchedulerFairness.LargestGainIsMade | proj02/src/cfs.c:57-74 | weight 70 gains exactly that beside weight 15 |
| SchedulerUnfairness.HalfRound | proj02/src/process.c:51-56 | a process runs a full slice and wakes the scheduler, which then finds only the other one on the queue |
| SchedulerUnfairness.LoneRound | proj02/src/process.c:20-56 | or finds it alone on the queue again, when the others are late to queue up |
| SchedulerUnfairness.FairnessHasNoBound | proj02/src/process.c:23-26 | for any two different weights and any bound, a run of two processes, both created before either queues up, in which they used equal time and the lighter one is further ahead |
| SchedulerUnfairness.LateOnesAreLeftOut | proj02/src/process.c:23-26 | for any priorities of two or more processes, all created before anybody queues up, and any bound, a run in which the first one is further ahead of the second |
| SchedulerUnfairness.BoundedIff | proj02/src/scheduler.c:47-66 | over all workloads with given priorities and all runs in which all processes are there from the start, some bound on the differences of virtual runtimes exists if and only if there is at most one process |
| WordCounts.LessIsTotal | proj01/src/common.c:115-117 | of two different words one comes first |
| WordCounts.LessIsTransitive | proj01/src/common.c:115-117 | the order of words is transitive |
| WordCounts.IncrementBag | proj01/src/common.c:155-159 | counting a word adds its occurrences and changes nothing else |
| WordCounts.IncrementDistinct | proj01/src/common.c:155-159 | no word is ever listed twice |
| WordCounts.AddAllBag | proj01/src/common.c:161-165 | merging adds the counts of both lists, word by word |
| WordCounts.CountWordsBag | proj01/src/common.c:174-179 | a file's list holds exactly its words in upper case, as often as they occur |
| WordCounts.SortIsStrict | proj01/src/common.c:119-122 | sorting a list of distinct words orders it strictly |
| WordCounts.SortedIsUnique | proj01/src/common.c:119-122 | a strictly sorted list is determined by its counts |
| WordCounts.OutputIsDetermined | proj01/src/common.c:187-200 | lists with the same counts are written alike, however they were sorted |
| WordCountOutput.LessByPosition | proj01/src/common.c:115-117 | one word comes before another exactly when it is a proper prefix or has the smaller byte where they first differ |
| WordCountOutput.UpperIsCapital | proj01/src/common.c:82-88 | in upper case there are no small letters, and only small letters change |
| WordCountOutput.UpperIff | proj01/src/common.c:82-88 | two words agree in upper case exactly when at each position they have the same byte or the two forms of one letter |
| WordCountOutput.BagIsCounted | proj01/src/common.c:136-159 | each entry counts all words spelled with its letters, and every word has an entry |
| WordCountOutput.WrittenRight | proj01/src/common.c:174-200 | the sorted list has right counts, and each line is before the next by position |
| WordCountOutput.RightIsWritten | proj01/src/common.c:174-200 | and nothing else has: right counts in that order determine the output |
| WordCountArray.WordCountArray.constructor | proj01/src/common.c:90-96 | empty, with room for 20 pairs |
| WordCountArray.WordCountArray.ReallocArrayIfFull | proj01/src/common.c:129-134 | there is room for one more pair, and the contents stay |
| WordCountArray.WordCountArray.TryIncrementExistingWord | proj01/src/common.c:136-144 | true exactly when the word is listed; its count grows, nothing else changes |
| WordCountArray.WordCountArray.InsertWordPair | proj01/src/common.c:146-153 | the pair is appended |
| WordCountArray.WordCountArray.IncrementWord | proj01/src/common.c:155-159 | one more counted word |
| WordCountArray.WordCountArray.AddArray | proj01/src/common.c:161-165 | the other array is merged in, pair by pair |
| WordCountArray.WordCountArray.ShrinkToFit | proj01/src/common.c:124-127 | the allocated size is the used size, the contents stay |
| WordCountArray.StrToupper | proj01/src/common.c:82-88 | each byte from 97 to 122 is 32 less, all others, the terminator and what follows are unchanged |
| WordCountArray.ParseInFile | proj01/src/common.c:174-181 | the array holds the counts of the file's words |
| MessageCodec.IntRoundTrip | proj01/src/pword.c:49-50 | a stored 32-bit integer is read back |
| MessageCodec.IntBytes | proj01/src/pword.c:49-50 | a stored integer is its digits to base 256, lowest first, in two's complement |
| MessageCodec.PairLayout | proj01/src/pword.c:46-51 | each pair lies at its offset in the message: word, zero byte, four bytes of count |
| MessageCodec.MessageEnds | proj01/src/pword.c:33-55 | the number of pairs comes first, and behind the pairs there are zeros |
| MessageCodec.EofLayout | proj01/src/pword.c:60-63 | the end marker is four bytes 255 and zeros |
| MessageCodec.MessageRoundTrip | proj01/src/pword.c:109-127 | unpacking a packed message gives exactly the packed pairs, whatever the receive buffer holds behind it |
| MessageCodec.EofRoundTrip | proj01/src/pword.c:60-63 | an end marker is read as one, and with the round trip no data message is |
| MessagePacker.PackIsGreedy | proj01/src/pword.c:37-52 | a message takes n pairs if and only if n pairs fit |
| MessagePacker.BatchesCarryAll | proj01/src/pword.c:32-58 | as meant, the messages carry every pair once and in order |
| MessagePacker.TerminatesIff | proj01/src/pword.c:32-58 | as written, the loop stops if and only if any two neighbouring pairs fit into one message |
| MessagePacker.LargeMessagesTerminate | proj01/src/pword.c:32-58 | it stops for every list from 256 bytes on |
| MessagePacker.LargeMessagesAdvance | proj01/src/pword.c:37-43 | then each message that is cut short moves the cursor on by two pairs or more |
| MessagePacker.SmallMessagesHang | proj01/src/pword.c:37-43 | with 128 bytes it never stops for two words of 63 letters |
| MessagePacker.SentInAll | proj01/src/pword.c:32-58 | as written, on lists on which it stops, what is sent message by message is exactly the batches |
| MessagePacker.LastPairIsRepeated | proj01/src/pword.c:40-43 | as written, each message after the first starts with the last pair of the one before |
| MessagePacker.AsWrittenDelivers | proj01/src/pword.c:32-58 | as written, exactly every pair is sent, and once more the last pair of every message but the last |
| MessagePacker.RepeatedIff | proj01/src/pword.c:32-58 | nothing is repeated if and only if one message is enough |
| MessagePacker.AsWrittenIsExactIff | proj01/src/pword.c:32-58 | as written, what is sent counts right if and only if one message is enough |
| MessageBuffers.PackPair | proj01/src/pword.c:46-51 | one more pair in the buffer |
| MessageBuffers.PackMessage | proj01/src/pword.c:33-55 | the buffer is the encoding of as many pairs as fit |
| MessageBuffers.SendPairs | proj01/src/pword.c:31-63 | as meant: the messages sent are those of the batches, then one end marker |
| MessageBuffers.NextMessageAsWritten | proj01/src/pword.c:37-57 | as written, on every list: one message of as many pairs as fit, and the cursor one back when it was cut short |
| MessageBuffers.SendSomeAsWritten | proj01/src/pword.c:31-63 | as written, on every list, after any number of messages: what was sent, and whether the loop is done |
| MessageBuffers.SendPairsAsWritten | proj01/src/pword.c:31-63 | as written, on lists on which it stops: all messages sent, repetitions included, and the end marker |
| MessageBuffers.ReceivePairs | proj01/src/pword.c:115-127 | the unpacking loop merges the decoded pairs and reads within the buffer |
| MessageBuffers.ReceiveMessage | proj01/src/pword.c:109-127 | an end marker is recognised and changes nothing, a data message is merged |
| WordCountPrograms.MessagesDecode | proj01/src/pword.c:31-63 | the bytes a child sends decode to data messages and then one end marker |
| WordCountPrograms.StoppedMeansAll | proj01/src/pword.c:102-113 | when the parent has seen as many end markers as children, every message ever sent was received and every child is done |
| WordCountPrograms.QueueIsBounded | proj01/src/pword.c:71-78 | the queue never holds more than its capacity, and nothing is received before it was sent |
| WordCountPrograms.QueueNeverBlocks | proj01/src/pword.c:102-106 | until then the parent or a child can move, whatever the capacity of the queue |
| WordCountPrograms.ExchangesAreBounded | proj01/src/pword.c:102-128 | no exchange has more moves than two per message |
| WordCountPrograms.CanFinish | proj01/src/pword.c:102-128 | so every exchange, whatever has happened in it, can go on until the parent stops |
| WordCountPrograms.MergeBag | proj01/src/pword.c:116-127 | the parent's list counts what was received |
| WordCountPrograms.TrafficIsSum | proj01/src/pword.c:80-91 | what is sent in any interleaving is what each child sends |
| WordCountPrograms.ParentCountsAll | proj01/src/pword.c:93-135 | when the parent stops it has counted exactly what all children sent |
| WordCountTheorems.CountsArePackable | proj01/src/pword.c:38-40 | every pair counted in a file fits into a message of 128 bytes or more |
| WordCountTheorems.ChildScriptsCarryAll | proj01/src/pword.c:27-69 | as meant, the children together send the words of all files |
| WordCountTheorems.ThreadTotalBag | proj01/src/tword.c:47-50 | the merged slots hold the words of all files |
| WordCountTheorems.ProgramsAgree | proj01/src/pword.c:93-135 | as meant, for every interleaving, process version, thread version and one sequential count of all files write the same, with right counts and in order |
| WordCountTheorems.AsWrittenCarries | proj01/src/pword.c:27-69 | as written, the children together send the words of all files and those the packer repeats, which are none exactly when every file fits into one message |
| WordCountTheorems.AsWrittenIsRightIff | proj01/src/pword.c:27-135 | as written, the process version writes what a sequential count writes if and only if every file fits into one message |
| WordCountTheorems.SomeFileHangs | proj01/src/pword.c:32-58 | a file of two words of 63 letters on which the packer never stops, with messages of 128 bytes |
| WordCountTheorems.SomeFileIsMiscounted | proj01/src/pword.c:32-58 | a file of four words of 63 letters of which the third is sent twice, with messages of 256 bytes |
| WordCountTheorems.SomeOutputIsWrong | proj01/src/pword.c:27-135 | on that file every finished run writes something else than a sequential count |
| WordCountLoops.ArrivalsDecode | proj01/src/pword.c:103-109 | the bytes that arrive, in whatever buffer, decode to the messages of the exchange |
| WordCountLoops.ChildSends | proj01/src/pword.c:27-69 | as meant, the bytes of the sending loop belong to the scripts of the children |
| WordCountLoops.ChildSendsAsWritten | proj01/src/pword.c:27-69 | so do those of the sending loop as written |
| WordCountLoops.CompleteExchange | proj01/src/pword.c:102-113 | the arrivals of a complete exchange are well formed and hold one end marker per child |
| WordCountLoops.LoopCountsAll | proj01/src/pword.c:102-128 | where the parent's loop stops everything sent has arrived, and the loop has counted exactly what the children sent, from bytes to counts |
| WordCountLoops.FilesToOutput | proj01/src/pword.c:27-135 | as meant, from files through bytes to output: whatever order the messages arrive in, what is written is what a sequential count writes, with right counts and in order |
| WordCountLoops.FilesToOutputAsWritten | proj01/src/pword.c:27-135 | as written, the same if and only if every file fits into one message |
| WordCountLoops.AwaitChildProcesses | proj01/src/pword.c:93-135 | the parent stops at the end marker that completes the count, with everything before it merged |
| WordCountLoops.FillSlots | proj01/src/tword.c:12-36 | threads that finish in any order fill every slot with the counts of its own file |
| WordCountLoops.CountWithThreads | proj01/src/tword.c:43-50 | the array then holds the slots merged in the order of the files |
| SearchTree.InsertedValues | hw01/src/tree.c:20-40 | the descent puts a value exactly where insertion into the sorted sequence puts it |
| SearchTree.InsertSortedBag | hw01/src/tree.c:20-40 | one value is added, nothing else changes |
| SearchTree.InsertedOrdered | hw01/src/tree.c:24-36 | the order survives, equal values on the left |
| SearchTree.OrderedIsSorted | hw01/src/tree.c:42-47 | read from left to right an ordered tree is sorted |
| SearchTree.OneLinkChanges | hw01/src/tree.c:25-34 | the only link that changes is the one from the parent to the new node |
| SearchTree.InsertBstNode | hw01/src/tree.c:20-40 | the heap forms the tree with the new node, only the parent is written to; a null root stays empty for the caller |
| SearchTree.TraverseInorder | hw01/src/tree.c:42-47 | the values printed are those of the tree from left to right |
| SearchTree.SomeUnused | hw01/src/tree.c:81-83 | while fewer than n numbers are used one is left to draw |
| SearchTree.HoldsStep | hw01/src/tree.c:84-87 | tree and table stay in step |
| SearchTree.HoldsAll | hw01/src/tree.c:79-88 | with all numbers used the tree reads 0, 1, ..., n - 1 |
| SearchTree.DrawAndInsert | hw01/src/tree.c:80-87 | one turn of the filling loop marks and inserts one new number |
| SearchTree.PopulateAndTraverse | hw01/src/tree.c:62-96 | for every n > 0 the program prints 0 to n - 1, a permutation of the middle and the n - 1 numbers drawn |

## Left out

- Files, message-queue and thread system calls, printing, timing, sleeping, `malloc` and `free`, error exits: a queue is a
  list of messages, a lock a field that names its holder, `qsort` any sorted permutation, a line of output a word and its count.
- Argument parsing and the list iterators: traces, regions, workloads and words are given sequences.
- Random generation: drawn numbers are arbitrary; a draw that repeats until it is unused is one choice of an unused number.
- The number of frames outside 1 to 1000, where the frame table is overrun, and policies other than LRU and FIFO, for which the program exits.
- Integer overflow of counts, cpu times and stamps: integers are unbounded, except that addresses are 32-bit words and stored
  counts 32-bit integers.
- CfsArithmetic.Rounded: exact rationals instead of doubles, halves rounded up.
- SchedulerSafety.ExactVirtualRuntime: exact reals instead of doubles.
- SchedulerProgress.StepLowers: spurious wake-ups are excluded, because any number of them may occur; safety is proved with them.
- SchedulerFairness.WeightedFairness: only for runs in which every unfinished process is queued when the scheduler picks one. A process
  that yields wakes the scheduler before it queues again, and one that arrives late starts at virtual runtime 0
  (`proj02/src/generator.c:38`); without the condition there is no bound, see SchedulerUnfairness.BoundedIff.
- SchedulerFairness.WeightedFairnessAlways: for the same runs only.
- The limit on the queue length: `count` is never updated (`proj02/src/cfs.c:33-55`), so the generator polls 0 once per process; a limit of 0
  would make it poll forever and is not modelled.
- Threads are not run: the scheduler and process loops are a state machine on values with the locks as fields; the linked
  run queue and the control blocks are in place, one step at a time (SchedulerQueue).
- What the scheduler thread destroys after its loop, and process statistics.
- WordCountArray.ParseInFile: words without zero bytes, as the scanner yields them from text; bytes outside 'a' to 'z' have no upper case.
- WordCountArray.WordCountArray.InsertWordPair: not for an array of allocated size zero, which cannot grow since twice nothing is
  nothing; the program would write behind it, but only shrinks arrays that it no longer adds to.
- MessageBuffers.SendPairsAsWritten: only for lists on which the loop stops; MessagePacker.TerminatesIff says which these are, and
  MessageBuffers.SendSomeAsWritten what is sent on all others.
- MessageCodec.MessageRoundTrip: only positive counts; a message that would be read past its end has no defined result.
- WordCountLoops.AwaitChildProcesses: the arrivals are well formed and hold enough end markers, as those of every complete
  exchange do (WordCountLoops.CompleteExchange); otherwise the program waits for
  more messages, or reads past the end of one.
- Message priorities are all equal, so the queue is first in, first out.
- proj04 (a printer of file system structures): block reads and struct overlays without state of their own.
