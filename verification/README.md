# Or1ksim: proofs about the algorithms inside the simulator

Or1ksim simulates the OpenRISC 1000 architecture. Inside it are several algorithms whose correctness rests on
invariants that no single function shows. This project models them in Dafny, in the form the C code has: passes over
global arrays are classes or methods with loops that change the arrays, and each is proved equal to a function on
values, about which the properties are then proved.

* **Custom Unit Compiler, lowering** (`CucInsn`, `CucExec`, `CucExpand`, `CucLower`, `CucLoad`,
  `CucFlags`). An OpenRISC function
  with delayed branches becomes a sequential one: branches get a saved flag, delay slots change places with their
  branches, memory operands become an addition and an access, signed comparisons become biased unsigned ones. The
  passes work in place, the last instruction first, with a relocation table. `CucLower.LowerCorrect` is a simulation in
  both directions over runs of any length.
* **Custom Unit Compiler, scheduling and clean-up** (`CucFunc`, `CucMemory`, `CucSchedule`, `CucDataDep`,
  `CucFlow`, `CucReordered`, `CucNops`, `CucDead`, `CucEffects`, `CucCmov`, `CucInputs`). Memory and data dependencies and the reordering of
  accesses, with an execution in which addresses and stored values come from what loads have read; mark-and-sweep removal of dead code,
  insertion and removal of nops with relocation of references, and collapsing of trees of conditional moves.
* **Custom Unit Compiler, graphs** (`CucGraph`, `CucBlocks`, `CucDetectBb`, `CucFuncDeps`). Basic blocks with
  artificial join blocks, and the pruning of the call graph.
* **Caches** (`IcacheLru`, `Icache`, `DcacheSpec`, `Dcache`), with the compact usage counters of the instruction cache
  refined to a true order of last use.
* **Breakpoints and packets of the GDB remote server** (`MpHash`, `Breakpoints`, `RspSpec`, `RspRegister`,
  `RspPacket`), with
  instruction fetches through the instruction cache.
* **JTAG debug unit** (`Bits`, `Crc`, `JtagSpec`, `JtagSafety`, `JtagRoundTrip`,
  `JtagReplies`, `Jtag`). The shift registers are
  sequences of bits, first bit first; `Jtag.DebugUnit` works on the bytes as the C code does, with every unaligned field
  written out, and is proved equal to the specification on bits.
* **getopt** (`Getopt`): the scanner in its permuting mode, a call at a time.
* **Profiler** (`ProfileSpec`, `Profiler`): call-stack time accounting against an independent account of open calls.

Conventions. 32-bit values are integers below 2^32 and wrap explicitly. Target memory is a map from addresses to bytes
(words for the instruction cache), and an address is mapped when the map has it. Sockets are two sequences, what comes
in and what went out. Statistics and cycle counters are dropped, except those the profiler is about.

## Where the code does not do what one would expect

Each of these is proved, with the condition under which the code is right:

* The weak conflict test of the memory scheduler compares offsets and their sums with widths as words. It never finds
  a conflict that is none, but misses some. A word stored at offset -2 and a byte loaded at offset 0 overlap around 2^32
  (`CucReordered.WrapMissed`); a byte loaded at offset -1 and the word stored at offset -4 overlap without wrapping around,
  but the end of the word is computed as 0 (`CucReordered.EndMissed`). Both pairs are reordered, and the load reads
  something else. `CucFlow.WeakCheckExact`: two accesses that the test lets pass are disjoint if and only if neither range
  reaches around 2^32 onto the other and, where one of them ends at or beyond 2^32, they have no offset in common
  (`CucMemory.Fits`). Ranges that end below 2^32 always meet this (`CucMemory.EndsBelow`).
* Memory dependencies alone are not enough for the scheduler: a store can go in front of the load whose value it writes
  (`CucReordered.DataDepsNeeded`). With the data dependencies that cuc_optimize adds in between it cannot
  (`CucFlow.OrderAccesses`).
* The usage counters of the instruction cache are an exact order only with at least as many states as ways;
  `IcacheLru.TooFewStates` shows for every smaller number how the order is lost.
* The zero-initialised data cache takes 0 for a valid tag. It is coherent exactly when it has one way and the blocks with
  tag 0 are mapped and zero (`DcacheSpec.ZeroStateExact`); invalidating an address of every set with the cache off makes it so, whatever it held (`DcacheSpec.InvalidatedAgrees`). A write that
  bypasses the cache leaves a stale line exactly when `DcacheSpec.BypassedStore` says so.
* A cached read whose block is not wholly mapped gives 0, also where the address itself is mapped and not 0
  (`DcacheSpec.PartlyMapped`, `Icache.PartlyMapped`).
* A GO_COMMAND shorter than its fixed fields makes the C code compute a byte count far beyond the register, as the
  subtraction is unsigned; `JtagSpec.ShortGoRunsOver` has the exact condition.
* A character that is no hexadecimal digit sets all bits of a register from its place up (`RspRegister.BadDigitSpills`).
* Where the profile's time runs backwards the difference is unsigned, so a function is charged almost 2^32 cycles and the
  warning about negative times does not come (`ProfileSpec.BackwardsCharge`).
* A JTAG response is ORed into the register, so it can be read exactly when the host sent zeros in the rest of its first
  byte (`JtagSpec.RespondReadable`).
* A packet whose escaped form needs more than GDB_BUF_MAX - 2 characters is dropped without an answer
  (`RspSpec.RoundTrip`). An escape character at the end of the data makes `rsp_unescape` read the byte behind it; the
  model makes that byte a parameter.
* Nops are removed together with dead code. `CucDead.RemoveDeadExact`: the roots keep their values if and only if none of
  them needs a nop.
* `remove_dslots` has a part that saves a register before a branch that reads it. After `expand_branch` it is never
  entered; `CucLoad.Loader.RemoveDslots` is proved for every program that pass makes.

## Model

| member | source | states |
|---|---|---|
| CucExec.BiasedCompare | cuc/load.c:344-390 | for all six comparisons and all words, the signed order is the unsigned order after adding 2^31 modulo 2^32 |
| CucLower.SavedFlag | cuc/load.c:258-273 | the value that the inserted CMOV records is nonzero exactly when the original branch is taken, for both polarities and for unconditional branches, and registers and memory stay |
| CucLower.SplitBranchTaken | cuc/load.c:235-286 | from related states a delayed branch with its slot in the original and CMOV, nop, branch and slot in the split program end at corresponding instructions in related states |
| CucLower.SplitBranchRuns | cuc/load.c:235-286 | any number of delayed-branch steps of the original is matched by at least as many of the split program |
| CucLower.SwapRuns | cuc/load.c:105-143 | delayed-branch execution is matched, for any number of steps, by sequential execution of the program in which branches and slots have changed places |
| CucLower.SplitAccess | cuc/load.c:288-342 | address addition and access leave the registers and memory of the single access, for loads and stores of every width |
| CucLower.SplitComparison | cuc/load.c:344-390 | the three instructions leave the flag that the signed comparison leaves |
| CucLower.SplitRuns | cuc/load.c:288-390 | for any number of steps the expansions of memory accesses and of signed comparisons, with all jumps and references relocated, do what the unexpanded program does |
| CucLower.LowerSimulates | cuc/load.c:567-580 | however far a decoded body runs with delayed branches, the lowered body run in sequence gets as far, to the same registers, flag and memory, and returns if and only if the original does |
| CucLower.LowerReturnsAlike | cuc/load.c:567-580 | conversely, when the lowered body has returned the original returns, in the same state |
| CucLower.LowerCorrect | cuc/load.c:567-580 | both directions together, over all initial registers, memories and lengths of run |
| CucLoad.NegatedFlag | cuc/load.c:91-103 | a negated comparison sets the flag exactly when the original clears it, and negating twice is the identity |
| CucLoad.Loader.ExpandBranch | cuc/load.c:235-286 | the backward in-place loop and the relocation loop produce the specified expansion of the old program, although source and destination overlap |
| CucLoad.Loader.RemoveDslots | cuc/load.c:105-143 | exactly the branches and their slots change places; the part that saves a register is not entered |
| CucLoad.Loader.ExpandMemory | cuc/load.c:288-342 | the in-place expansion equals the specified one, stores and loads each with their own operand moves |
| CucLoad.Loader.ExpandSigned | cuc/load.c:344-390 | the in-place expansion equals the specified one; comparisons are not relocated, memory accesses are |
| CucLoad.Loader.Convert | cuc/load.c:567-580 | running the four passes in the order of the loader on the array leaves a program with the behaviour of the one it held |
| CucFlags.LoweredMarks | cuc/load.c:235-390 | the lowered program has exactly the volatile instructions, outputs, branches and memory accesses of the original, as the same kind of instruction with the same marks, and one marked address addition for every access |
| CucFunc.RefRoundTrip | cuc/cuc.h:92-95 | packing a block and an index is undone by unpacking, is injective and orders references as the program does, for indices below MAX_INSNS |
| CucFunc.RefUnpacked | cuc/cuc.h:92-95 | unpacking is undone by packing |
| CucFunc.RefLimit | cuc/cuc.h:92-95 | packing can be undone only below MAX_INSNS |
| CucMemory.RangesApart | cuc/memory.c:63-96 | for two offsets and widths and any base: ranges found overlapping do overlap; others are disjoint if and only if they fit |
| CucMemory.EndsBelow | cuc/memory.c:84-87 | ranges whose offset plus width stays below 2^32 fit |
| CucFlow.WeakCheckExact | cuc/memory.c:63-96 | whatever the base is and whatever has been loaded: a conflict found between two accesses at offsets from one base is real, and two accesses the test lets pass are disjoint if and only if they fit |
| CucReordered.WrapMissed | cuc/memory.c:63-96 | an aligned store and load that overlap by wrap-around: the three passes schedule the load first, and it then reads 0 instead of 0xff |
| CucReordered.EndMissed | cuc/memory.c:84-87 | a byte load inside a word store whose end is computed as 0, no range wrapping onto the other: the three passes schedule the store first, and the load reads what it has stored |
| CucFlow.AccessesCommute | cuc/memory.c:352-399 | two accesses that never touch a common byte and neither of which is computed from the other give the same memory and loaded values in either order |
| CucMemory.MemRefsInOrder | cuc/memory.c:358-365 | the collected list has every memory access once, in program order |
| CucMemory.SchedulePermutes | cuc/memory.c:373-399 | the scheduled list is a permutation of the collected one |
| CucMemory.ScheduleKeepsBlocks | cuc/memory.c:373-399 | every place of the schedule keeps the block it had, so blocks stay contiguous and in order |
| CucMemory.ScheduleExtends | cuc/memory.c:373-399 | no access is placed before one that its dependency list names |
| CucFlow.ScheduleRuns | cuc/memory.c:373-399 | with complete dependencies every block whose accesses fit loads the same values and leaves the same memory as in program order, where addresses and stored values are computed from what has been loaded so far |
| CucSchedule.MemoryDepsComplete | cuc/memory.c:98-120 | the dependencies added are exactly the earlier accesses of the function that conflict; none is lost and none invented, for every memory order |
| CucSchedule.AddMemoryDep | cuc/memory.c:98-120 | the loops over instructions and collected accesses change dependency lists to the specified ones and nothing else |
| CucSchedule.Collect | cuc/memory.c:352-365 | the access list in program order, and the scheduling mark on exactly its members if the order is weak or none |
| CucSchedule.PickBest | cuc/memory.c:376-388 | the scan returns the specified candidate: the best access of the same block that waits for nothing |
| CucMemory.PickLeavesNone | cuc/memory.c:376-388 | the scan leaves no access of the block behind that waits for nothing and has a smaller offset from the same base |
| CucMemory.ConflictByOrder | cuc/memory.c:65-96 | exact and strong order find a conflict between any two accesses, no order between none, and weak order wherever the distance is not known |
| CucSchedule.Shift | cuc/memory.c:390-396 | moving the chosen access forward shifts the ones in between by one place |
| CucSchedule.Schedule | cuc/memory.c:352-399 | the array after the pass is the specified schedule of what it was; a strong or exact order leaves it in program order |
| CucSchedule.ScheduledOrder | cuc/memory.c:352-399 | the schedule is a permutation, leaves every place with its block, and puts no access before an earlier one it depends on |
| CucDataDep.AddDataDep | cuc/insn.c:203-228 | every instruction's list becomes the specified one, computed from lists already extended |
| CucDataDep.FeedersInDeps | cuc/insn.c:203-228 | whatever an instruction is computed from in the same pass through the code, directly or over any chain of operands, is in its list |
| CucDataDep.DataDepsWithin | cuc/insn.c:203-228 | nothing else gets in: every relation that has the old dependencies and the operands, and passes from operands to users, has all new dependencies |
| CucDataDep.ScheduleRespectsData | cuc/insn.c:203-228 | hence the memory scheduler never puts an access before a load whose value goes into its address or data |
| CucFlow.PreparedComplete | cuc/cuc.c:156-162 | after add_memory_dep and add_data_dep no conflict with an earlier access is missing, and nothing an instruction is computed from |
| CucFlow.WeakScheduleRuns | cuc/cuc.c:156-162 | for every weakly ordered function, without any assumption on its dependencies: the schedule that the three passes produce loads the same values and leaves the same memory as program order, in every block whose accesses fit |
| CucFlow.WeakPathRuns | cuc/cuc.c:156-162 | the same along every sequence of block executions, loops included, whose inputs may depend on what has been loaded and stored |
| CucFlow.OrderAccesses | cuc/cuc.c:156-162 | running the three passes on the arrays, for every order but none, leaves a permutation of the accesses with the effect of program order |
| CucReordered.DataDepsNeeded | cuc/cuc.c:156-162 | a function whose accesses fit and whose schedule made from memory dependencies alone stores another value |
| CucNops.SurvivorKept | cuc/insn.c:1229-1273 | after nops are removed every other instruction is where its relocated reference points, with its own references relocated |
| CucNops.SurvivorsDistinct | cuc/insn.c:1229-1273 | different instructions stay different, so a relocated reference denotes its original target |
| CucNops.SurvivorSource | cuc/insn.c:1229-1273 | nothing is left but the original non-nops |
| CucNops.ReferenceKept | cuc/insn.c:1229-1273 | a relocated reference denotes its original target if and only if the target is no nop; otherwise it denotes another instruction or none |
| CucNops.CompactBlock | cuc/insn.c:1237-1251 | the in-place compaction keeps the non-nops in order and records each one's new index |
| CucNops.RemoveNops | cuc/insn.c:1229-1273 | block by block compaction and relocation of the whole function together give the specified function; the result says whether anything shrank |
| CucNops.OpenGap | cuc/insn.c:243-260 | the backward move opens a gap of the given width filled with nops, and records new indices |
| CucNops.InsertInsns | cuc/insn.c:230-293 | the function with the gap, every reference and the access schedule shifted |
| CucNops.InsertThenRemove | cuc/insn.c:230-293 | inserting any number of nops anywhere and removing them again restores every block, operand and dependency list |
| CucDead.UnmarkTree | cuc/insn.c:1275-1288 | the recursion ends on cyclic graphs; it unmarks only what is needed, and everything an unmarked instruction uses is unmarked |
| CucDead.UnmarkRoots | cuc/insn.c:1299-1311 | afterwards the mark is off exactly the instructions that some root needs through a chain of operands; which instructions are roots is what CucEffects is about |
| CucDead.RemoveDead | cuc/insn.c:1290-1321 | the function that remains is the live part of the old one without nops, and the result says whether anything went |
| CucDead.LiveSurvive | cuc/insn.c:1290-1321 | every live instruction survives and each of its references leads to what it referred to |
| CucDead.SurvivorsLive | cuc/insn.c:1290-1321 | every survivor is the place of a live instruction |
| CucDead.RemoveDeadMeaning | cuc/insn.c:1290-1321 | evaluated iteration by iteration, under any meaning of the instructions, every live instruction keeps its value |
| CucDead.RemoveDeadExact | cuc/insn.c:1290-1321 | the roots keep their values in every iteration, under any meaning of the instructions, if and only if no root needs a nop |
| CucEffects.RemoveDeadShowsSame | cuc/insn.c:1290-1321 | if nothing visible needs a nop, every run through the blocks makes the same stores, kept loads, branch decisions, outputs and other volatile steps, with the same operand values and in the same order, and leaves the same memory |
| CucEffects.VisibleStays | cuc/insn.c:1299-1321 | every branch and other volatile instruction, output, store and, where loads may be reordered, load is still in its block, in order, the same instruction with operands leading to what they led to |
| CucEffects.LeftIsNeeded | cuc/insn.c:1290-1321 | nothing is left but what something visible needs through a chain of operands |
| CucCmov.CmovPass.CmovNeeded | cuc/insn.c:608-704 | the recursion with path marks ends on any graph, takes its marks off again and computes the specified search |
| CucInputs.NeededExact | cuc/insn.c:608-704 | in an acyclic graph cmov_needed is 0 if and only if all values that the CMOV can hand on, through non-volatile moves and CMOVs, come from one primary input, and that input is the one left over |
| CucCmov.SearchSound | cuc/insn.c:608-704 | in an acyclic graph, if a CMOV is found not needed, every evaluation gives it the value of the one input left over |
| CucCmov.OptimizeOneKeeps | cuc/insn.c:706-744 | replacing one such CMOV keeps every evaluation, the acyclic order and all references valid |
| CucCmov.OneEvaluation | cuc/insn.c:706-744 | an acyclic graph has only one evaluation for given inputs |
| CucCmov.CmovPass.OptimizeCmovs | cuc/insn.c:706-744 | the loop over blocks and instructions makes the specified replacements, and reports a change if and only if there was one |
| CucInputs.PassExact | cuc/insn.c:706-744 | in an acyclic graph exactly the non-volatile CMOVs of live blocks that have one primary input become moves of it, everything else stays, and the function changes if and only if there is one |
| CucCmov.OptimizeMeaning | cuc/insn.c:706-744 | after the whole pass every instruction evaluates to what it evaluated to before |
| CucBlocks.SpansPartition | cuc/bb.c:219-237 | for all functions the blocks found are contiguous, nonempty, start and end where they should and cover the instructions |
| CucBlocks.BlocksMaximal | cuc/bb.c:192-219 | a block other than the first starts behind a branch or where some branch leads, so blocks are not split needlessly |
| CucBlocks.GraphShape | cuc/bb.c:240-265 | every edge of the block graph stays inside it, none leads to the first block and none leaves the last |
| CucGraph.LandedBound | cuc/bb.c:297-321 | counting edges into a block with k predecessors, every place in front of it gets at most one and the block itself at most two |
| CucGraph.AtMostTwo | cuc/bb.c:269-321 | with artificial blocks in place no block of any graph has more than two predecessors |
| CucGraph.Contracted | cuc/bb.c:269-321 | skipping artificial blocks gives back exactly the edges there were |
| CucBlocks.FinalAtMostTwo | cuc/bb.c:188-375 | the bound also holds after edges behind unconditional jumps have been cut |
| CucBlocks.FirstHasNone | cuc/bb.c:188-375 | the first block keeps its place and has no predecessor |
| CucDetectBb.FlowKept | cuc/bb.c:188-375 | through artificial blocks, a branch leads to the block that starts at its target and, unless it is unconditional, to the next block; other blocks lead to the next block only |
| CucDetectBb.Detector.MarkLimits | cuc/bb.c:192-219 | the start and end marks are those of the definition; it fails exactly when a jump leads out of the function |
| CucDetectBb.Detector.CollectBlocks | cuc/bb.c:219-237 | the block array holds the partition |
| CucDetectBb.Detector.LinkBlocks | cuc/bb.c:240-265 | forward links are the block graph, jumps name blocks, and the number of artificial blocks is the sum of all excess predecessors |
| CucDetectBb.Detector.InsertBlocks | cuc/bb.c:269-288 | the in-place move, last block first, puts every block at its place with its artificial blocks in front |
| CucDetectBb.Detector.RelocateJumps | cuc/bb.c:290-294 | jump operands name the new places of their blocks |
| CucDetectBb.Detector.LeadAll | cuc/bb.c:297-321 | the counters kept in the blocks distribute the edges as the graph with artificial blocks has them |
| CucDetectBb.Detector.CutJumps | cuc/bb.c:324-337 | unconditional jumps disappear together with the edge behind them |
| CucDetectBb.Detector.BackLinks | cuc/bb.c:340-363 | every block lists its predecessors, once for each edge, and two slots are always enough |
| CucDetectBb.Detector.DetectBb | cuc/bb.c:188-375 | the whole function: fails exactly when a jump leads out, and otherwise every block has its span, its successors and its predecessors, consistent with each other |
| CucFuncDeps.UnresolvedOut | cuc/cuc.c:635-656 | a function with a call to itself or to nothing loaded is in no set that is closed under calls and acyclic |
| CucFuncDeps.StuckOut | cuc/cuc.c:672-709 | functions that all call into each other are in none either |
| CucFuncDeps.Functions.BuildDeps | cuc/cuc.c:625-670 | either everything left lists exactly its distinct callees, or something was removed that no such set has |
| CucFuncDeps.Functions.MarkLayers | cuc/cuc.c:672-698 | marking ends with layers of an acyclic order, and every unmarked function waits for an unmarked one |
| CucFuncDeps.Functions.DropCycles | cuc/cuc.c:672-710 | nothing is removed that some closed acyclic set has; if nothing is removed the rest is such a set |
| CucFuncDeps.Functions.SetFuncDeps | cuc/cuc.c:620-711 | ends, and leaves the greatest set that is closed under calls and acyclic, each survivor with its callees |
| IcacheLru.ScanMinimal | cache/icache-model.c:133-145 | the victim scan ends at the first way with the smallest counter, if one is below the start value |
| IcacheLru.LruExact | cache/icache-model.c:112-151 | after any history of fetches with at least as many states as ways, a tag hits exactly when it is among the most recently used distinct tags, and the victim is an empty way or the least recently used one |
| IcacheLru.TooFewStates | cache/icache-model.c:115-151 | for every number of states below the number of ways a history that evicts a tag although ways are empty |
| Icache.MasksSplit | cache/icache-model.c:466-510 | the precomputed masks select set, tag, offset and block, bit by bit, for every address |
| Icache.BlockFromTag | cache/icache-model.c:111-129 | tag and set determine the block |
| Icache.WordsBlock | cache/icache-model.c:153-175 | a refilled word belongs to the block of its line and to no other |
| Icache.RunPerSet | cache/icache-model.c:87-184 | in a whole-cache run each set goes through the history of its own tags |
| Icache.CacheLruExact | cache/icache-model.c:87-184 | from reset, an address hits exactly when its block is among the most recently fetched ones of its set |
| Icache.InsnCache.constructor | cache/icache-model.c:466-510 | the masks and bounds are the configured ones and the empty cache is coherent with every memory |
| Icache.InsnCache.ChooseVictim | cache/icache-model.c:133-145 | the strided scan over the flat array finds the victim of the set |
| Icache.InsnCache.Refill | cache/icache-model.c:153-175 | wrap-around refill: it succeeds exactly when the block is mapped, and then the line holds the block |
| Icache.PartlyMapped | cache/icache-model.c:159-171 | a mapped word that is not 0 in a block that is not wholly mapped, so that a fetch of it through the cache gives 0 |
| Icache.InsnCache.HitsExact | cache/icache-model.c:111-131 | on the flat arrays, after any interleaved run of fetches over all sets, an address finds its tag in the strided ways of its set exactly when its block is among the last distinct ones of that set |
| Icache.InsnCache.Fetch | cache/icache-model.c:87-184 | with cache off or inhibited, the word in memory; otherwise the specified change of one set, which extends the run that HitsExact speaks of by one fetch, coherence kept, and the word memory holds (0 if the block is not mapped) |
| Icache.InsnCache.Inv | cache/icache-model.c:190-226 | afterwards no line holds the block, other lines stay, and coherence is kept |
| Icache.InvalidateKeeps | cache/icache-model.c:215-225 | with the cache on, a way is emptied if it holds the block and otherwise keeps tag and counter |
| Icache.FailedFetch | cache/icache-model.c:147-171 | a fetch whose block is not wholly mapped empties the victim and takes no other tag |
| Icache.AgreeAfterWrite | cache/icache-model.c:190-226 | memory under a block that no line holds may change without making the cache incoherent |
| DcacheSpec.SelectIsDirect | cache/dcache-model.c:128-141 | extracting 1, 2 or 4 bytes of a big-endian word is the direct read at that address |
| DcacheSpec.MergeIsStore | cache/dcache-model.c:261-276 | merging 1, 2 or 4 bytes into a cached word gives the word that memory has after the write |
| DcacheSpec.AccessUnique | cache/dcache-model.c:83-316 | no access gives two ways of a set the same valid tag |
| DcacheSpec.InvalidateUnique | cache/dcache-model.c:320-357 | nor does an invalidation, after which no way has the tag, although only the last match is emptied |
| DcacheSpec.BypassedStore | cache/dcache-model.c:221-239 | a write past the cache keeps it coherent if and only if no line holds the block or the word does not change |
| DcacheSpec.InvalidatedAgrees | cache/dcache-model.c:320-357 | once an address of every set has been invalidated with the cache off, any initial tags and lines agree with memory |
| DcacheSpec.ZeroStateExact | cache/dcache-model.c:108-142 | the zero-initialised cache agrees with memory if and only if there is one way and every word of the blocks with tag 0 is mapped and zero |
| DcacheSpec.PartlyMapped | cache/dcache-model.c:159-175 | a mapped word that is not 0 in a block that is not wholly mapped, so that a cached read of it gives 0 |
| Dcache.DataCache.Read | cache/dcache-model.c:83-208 | a coherent cache stays coherent and returns what a direct read of that width returns (0 if the block is not mapped) |
| Dcache.DataCache.Write | cache/dcache-model.c:221-316 | memory is written through; a cached write keeps coherence, one past the cache keeps it exactly under the condition of BypassedStore |
| Dcache.DataCache.Inv | cache/dcache-model.c:320-357 | the specified sets, coherence kept, and nothing at all without a cache |
| DcacheSpec.InvalidateKeeps | cache/dcache-model.c:346-356 | with the cache on, a way that does not hold the block keeps tag and counter |
| DcacheSpec.ReadLruExact | cache/dcache-model.c:112-187 | reads alone use an empty set in exact order of last use: a read hits exactly when its tag is among the most recently read distinct ones, with at least as many states as ways |
| MpHash.Table.constructor | debug/rsp-server.c:1016-1025 | all chains are empty |
| MpHash.Table.Add | debug/rsp-server.c:1040-1067 | the table as a map gains the key, and a key it already has keeps its instruction |
| MpHash.Table.Lookup | debug/rsp-server.c:1080-1099 | an entry is found exactly when the map has the key, and it carries that key and the saved instruction |
| MpHash.Table.Delete | debug/rsp-server.c:1120-1153 | exactly the key is unlinked, at the head or inside a chain, and its entry is handed over |
| Breakpoints.InsertOver | debug/rsp-server.c:2371-2383 | memory stays the image with traps at the table's addresses, and the table the image's words, also for an address that has a breakpoint already |
| Breakpoints.RemoveOver | debug/rsp-server.c:2281-2302 | the same for removals, also of breakpoints that are not there |
| Breakpoints.RunTraps | debug/rsp-server.c:2251-2409 | after any requests memory is the image with traps at exactly the breakpoints inserted and not removed; without any it is the image |
| Breakpoints.Target.InsertMatchpoint | debug/rsp-server.c:2341-2409 | table, memory and cache change together, the cache stays coherent, other types are answered as unsupported |
| Breakpoints.Target.RemoveMatchpoint | debug/rsp-server.c:2251-2327 | the same for removal |
| Breakpoints.Target.Fetch | cache/icache-model.c:87-184 | a fetch between any requests sees the image with the traps of the table |
| Breakpoints.Session | debug/rsp-server.c:2251-2409 | over any sequence of requests, fetches, invalidations and switching of the cache: every fetched word is that of the image with the traps standing at the time, memory ends as that image, and the cache stays coherent |
| RspSpec.UnescapeEscape | debug/rsp-server.c:981-1007 | unescaping undoes escaping for every byte sequence |
| RspSpec.OnTheLine | debug/rsp-server.c:681-704 | a packet is '$', the escaped data without '$', '#' and '*', '#', and the sum of the escaped data modulo 256 in two lower-case hex digits |
| RspSpec.EscapedAs | debug/rsp-server.c:684-698 | exactly '$', '#', '*' and '}' go out as '}' and the character exclusive-or 0x20; answers are '+' and '-' |
| RspSpec.HexReads | debug/rsp-server.c:1166-1173 | digits are read in either case, and everything else is -1 |
| RspSpec.FrameReceived | debug/rsp-server.c:762-870 | a frame is received and acknowledged if and only if its escaped form leaves two places of the buffer |
| RspSpec.PrefixHarmless | debug/rsp-server.c:762-870 | characters up to the next end of packet leave the receiver ready for the next frame and unanswered |
| RspSpec.BadSumRejected | debug/rsp-server.c:827-865 | a wrong checksum is answered with a request to send again, and the receiver starts over |
| RspSpec.RoundTrip | debug/rsp-server.c:664-870 | after noise and a truncated frame, a frame is received, acknowledged and unescapes to the data sent, exactly when it fits |
| RspRegister.RegisterRoundTrip | debug/rsp-server.c:1185-1234 | the hex digits of any 32-bit register, in either byte order of the host, read back as its value |
| RspRegister.DigitOrder | debug/rsp-server.c:1185-1234 | which digit stands for which four bits in either byte order |
| RspRegister.DigitsExact | debug/rsp-server.c:1216-1234 | every character gives the four bits at its place if and only if all eight are digits |
| RspRegister.BadDigitSpills | debug/rsp-server.c:1216-1234 | a character that is no digit sets all bits from its place up, whatever the others are |
| RspPacket.UnescapeInPlace | debug/rsp-server.c:981-1007 | in place the front of the buffer becomes the unescaped data, never longer than what was there, and the rest stays |
| RspPacket.Connection.SendFrame | debug/rsp-server.c:671-704 | one attempt sends start, escaped data, end and the two digits of the checksum of what was sent |
| RspPacket.Connection.PutPacket | debug/rsp-server.c:664-715 | the frame is sent once more for every answer that is not an acknowledgement, until one is or the input ends |
| RspPacket.SentUntilAccepted | debug/rsp-server.c:706-713 | the number of frames sent and answers read: up to the first '+', or to the end of the answers |
| RspPacket.Connection.GetPacket | debug/rsp-server.c:762-870 | result, buffer, remaining input and answers are those of the receiving machine, and the data ends in a zero |
| RspPacket.RegToHex | debug/rsp-server.c:1185-1203 | the digits written have the register's value, followed by an end of string |
| RspPacket.HexToReg | debug/rsp-server.c:1216-1234 | the characters are ORed in at their places, those that are no digits included |
| Getopt.ParsePermutes | argtable2/getopt.c:504-579 | options and others together are a permutation of the arguments |
| Getopt.ParseInterleaves | argtable2/getopt.c:504-579 | both keep their order: the arguments are an interleaving of the two |
| Getopt.ParseByTexts | argtable2/getopt.c:501-579 | from texts and places alone: in front go, up to the first "--" that is no argument, the elements that start with '-' and have more than one character, the elements taken as arguments by the option before them, and that "--"; everything else follows |
| Getopt.ParseStanding | argtable2/getopt.c:501-579 | in front every element starts with '-' and goes on, or follows an option that takes it, a "--" standing last; behind, elements are empty, a lone '-' or start otherwise, then what followed the "--" unchanged |
| Getopt.RotateShortFirst | argtable2/getopt.c:315-330 | swapping a short first segment with the far end of the second leaves a smaller rotation with the same outcome |
| Getopt.RotateShortSecond | argtable2/getopt.c:331-346 | the same for a short second segment |
| Getopt.Scanner.Exchange | argtable2/getopt.c:299-353 | A ++ B becomes B ++ A in place, the rest stays, and the two bounds move along |
| Getopt.Scanner.MoveOptions | argtable2/getopt.c:515-523 | pending options go in front of the non-options and the parse still to be done stays the same |
| Getopt.Scanner.SkipNonOptions | argtable2/getopt.c:525-530 | non-options are skipped up to the next option, the order of the bounds kept |
| Getopt.Scanner.EndOptions | argtable2/getopt.c:533-549 | a "--" joins the options and everything behind it the non-options |
| Getopt.Scanner.GetOpt | argtable2/getopt.c:504-579 | between calls 1 <= first_nonopt <= last_nonopt <= optind and the vector still holds the parse of the first call's arguments; every call makes progress; the last leaves options before optind and non-options behind |
| Getopt.ParseAll | argtable2/getopt.c:504-579 | a whole parse ends with a permutation, options with arguments and any "--" first and non-options from optind, each group in its original order; both sides as ParseByTexts and ParseStanding describe them |
| ProfileSpec.PopCloses | profiler.c:176-219 | closing a frame keeps the adjusted start of every open call equal to its start plus its callees' time, and charges exactly the time since the adjusted start |
| ProfileSpec.TimesCharged | profiler.c:116-229 | over any calls and returns with time that does not run backwards: every function that has returned is in the table once, with the number of its closed calls and the sum over them of length less callees' lengths in normal mode, of whole lengths in cumulative mode; adjusted starts never decrease up the stack |
| ProfileSpec.ChargeLedger | profiler.c:201-218 | charging one more closed call keeps the table, function by function, the account of the closed calls |
| ProfileSpec.Conserved | profiler.c:116-229 | the sum of all charges is the closed outermost calls plus the bottom frame's adjustment, so once the stack is empty it is the elapsed time of the outermost calls |
| ProfileSpec.BackwardsCharge | profiler.c:181-188 | a call that ends one cycle before it starts is charged 2^32 - 1 cycles |
| Profiler.Profiling.ChargeFunc | profiler.c:201-218 | the function with the address, or a new one, is charged |
| Profiler.Profiling.PopFrame | profiler.c:176-219 | the arrays after closing the top frame are those of the specification, every remaining frame adjusted |
| Profiler.Profiling.EnterFunc | profiler.c:121-148 | a frame is pushed with its time, and call count and depth follow |
| Profiler.Profiling.LeaveFunc | profiler.c:149-226 | frames are closed down to the topmost one with the return address, or none |
| Profiler.Profiling.Acquire | profiler.c:116-229 | the arrays after any record sequence are those of the specified run, and with timely records the table is the account of the closed calls, in both modes |
| Crc.StepIsDivision | debug/jtag.c:79-99 | the step with masks is one step of division by the generator polynomial, most significant bit first |
| Crc.PolynomialIs | debug/jtag.c:79-99 | the exponents of the generator polynomial of IEEE 802.3 |
| Crc.Crc32Of | debug/jtag.c:79-99 | the loop over the bits of a value is the CRC of those bits in the order they are taken |
| Crc.OverConcat | debug/jtag.c:79-99 | the CRC of a concatenation is the CRC of the second part started at that of the first |
| Crc.OverLinear | debug/jtag.c:79-99 | differences propagate linearly |
| Crc.BurstDetected | debug/jtag.c:79-99 | streams that differ only inside 32 consecutive bits have equal CRCs only if they are equal, from any starting value |
| Bits.ReverseBitsReverses | debug/jtag.c:113-131 | the stages of masks, shifts and a final swap of halves reverse the low bits for every length up to 64, with zeros above |
| Bits.ReverseByteReverses | debug/jtag.c:144-152 | the three stages reverse a byte |
| JtagSpec.RespondReadable | debug/jtag.c:180-246 | the response is in the register if and only if no stray bit was in the rest of its first byte |
| JtagSafety.BadCrcChangesNothing | debug/jtag.c:286-1702 | whichever register has a wrong CRC, memory, SPRs, selected module, CPU state and address stay, and no command becomes defined |
| JtagSafety.BurstRejected | debug/jtag.c:889-935 | a register corrupted inside 32 consecutive covered bits, its CRC field intact, is rejected |
| JtagSafety.ShiftKeepsConsistent | debug/jtag.c:1326-1443 | a defined command always has a legal access type and 1 <= size <= 65536, and no register maps or unmaps memory |
| JtagSafety.RunKeepsConsistent | debug/jtag.c:1850-1883 | the same over every sequence of registers |
| JtagSafety.NothingUntilWriteCommand | debug/jtag.c:959-990 | while no command is defined no sequence without a good WRITE_COMMAND touches memory or SPRs |
| JtagSafety.AddressAdvances | debug/jtag.c:437-441 | after k error-free GO_COMMANDs the address is k times the size further on, for reads and writes mixed |
| JtagRoundTrip.ReplyDecodes | debug/jtag.c:622-689 | a reply decodes to the bytes read; status OK if and only if the incoming status bits were zero, and then the CRC checks |
| JtagRoundTrip.WriteThenRead | debug/jtag.c:389-941 | two commands and two GOs at one address write any n bytes and read the same n bytes back with status OK and a good CRC |
| JtagRoundTrip.SprWriteThenRead | debug/jtag.c:484-941 | with the CPU as module, any four bytes written to a register are read back from it with status OK and a good CRC, and in between the register holds the number they stand for, the first byte lowest |
| JtagRoundTrip.SprReadArithmetic | debug/jtag.c:497-535 | the four bytes that are read stand for the number in the register, the first byte lowest |
| JtagReplies.BadCrcReported | debug/jtag.c:180-1702 | for every command the status that comes back says bad CRC if and only if the CRC was bad |
| JtagReplies.SelectStatus | debug/jtag.c:286-351 | SELECT_MODULE: status and new module for every CRC and module number |
| JtagReplies.GoStatusSent | debug/jtag.c:622-941 | GO_COMMAND: each status bit if and only if its cause: bad CRC, an unmapped byte, a length that was not announced |
| JtagReplies.ReadDelivers | debug/jtag.c:389-689 | every data byte of the answer to a good read, for each module: zero beyond the announced size, where nothing is mapped and beyond a register's four bytes |
| JtagReplies.GoAdvances | debug/jtag.c:389-941 | the address moves on by the size, or to the next register, if and only if CRC, length and every byte were good |
| JtagReplies.CommandDecided | debug/jtag.c:1145-1443 | a good WRITE_COMMAND is recorded if and only if its width, alignment and size fit the module |
| JtagReplies.CommandReadBack | debug/jtag.c:1027-1443 | READ_COMMAND gives back access type, address and size of the WRITE_COMMAND before it, with a good CRC |
| JtagReplies.ControlReadBack | debug/jtag.c:1479-1702 | READ_CONTROL gives back the stall bit that WRITE_CONTROL set, unless it reset the CPU instead |
| JtagReplies.UndefinedGo | debug/jtag.c:959-990 | without a pending command the register comes back as zeros and nothing changes |
| Jtag.ConstructResponse | debug/jtag.c:180-246 | status and CRC, split over bytes at any bit offset, end up where the specification on bits has them, and leading bits become zero |
| Jtag.DebugUnit.ShiftIr | debug/jtag.c:1768-1812 | only an instruction register of 4 bits is taken |
| Jtag.DebugUnit.SelectModule | debug/jtag.c:285-351 | on bytes, state and reply of the specification on bits |
| Jtag.DebugUnit.WriteCommand | debug/jtag.c:1325-1443 | the same, with fields that lie across bytes and the validation of each module |
| Jtag.DebugUnit.WishboneRead | debug/jtag.c:388-445 | bytes that are not mapped or exceed the size read as zero and set the status; data and CRC are placed from bit 37 on |
| Jtag.DebugUnit.WishboneWrite | debug/jtag.c:715-755 | mapped bytes up to the size are written; the address advances only without an error |
| JtagSpec.ShortGoRunsOver | debug/jtag.c:622-644 | the bytes the code means to transfer lie in the register if and only if it has at least 73 bits, on hosts with 32- and 64-bit unsigned long |
| JtagSpec.PutAllAt | debug/jtag.c:716-755 | bytes written around the end of the 32-bit address space are each where they should be, and nothing else changes |
| Jtag.DebugUnit.GoCommandRead | debug/jtag.c:621-689 | state and reply of the specification on bits |
| Jtag.DebugUnit.GoCommandWrite | debug/jtag.c:866-941 | the same; with a wrong CRC nothing is written |
| Jtag.DebugUnit.GoCommand | debug/jtag.c:958-990 | without a defined command the register is cleared and nothing else happens |
| Jtag.DebugUnit.ReadCommand | debug/jtag.c:1026-1117 | the recorded command is ORed into the reply, its CRC over what is sent |
| Jtag.DebugUnit.ReadControl | debug/jtag.c:1478-1571 | the control bits of the selected CPU |
| Jtag.DebugUnit.WriteControl | debug/jtag.c:1606-1702 | reset and stall take effect only with a good CRC and a valid module |
| Jtag.DebugUnit.ShiftDr | debug/jtag.c:1850-1883 | dispatch on the first five bits; state and reply of the specification for every data register |

## Left out

- CUC value rewrites (edge conditions, operand swap of comparisons, add and sub joins, merging two CMOVs, common subexpressions): as written they do not keep values, so no meaning is claimed for them.
- CUC detect_locals, expand_calls, same_transfers, join_transfers, burst and dependency-reduction tail of schedule_memory, cuc/adv.c: heuristic or disabled; detect_locals and expand_calls are not reached with calling convention 0 and without calls.
- CUC Verilog text, timing and area estimates, loop rolling, block joining, command prompt: text and floating-point estimates.
- CUC operands: value and kind of an operand are one datatype and the four operands that a pass looks at are kept.
- CucLoad.Loader.Convert: starts from decoded instructions; decoding one and computing branch offsets are not modelled.
- CucNops.InsertInsns: the lists of dependent memory accesses that other passes attach are not modelled; removing nops does not relocate the access schedule, as in the code.
- CucCmov.OptimizeMeaning: for acyclic graphs; across iterations the code has latches, which are inputs here.
- CucFlow.WeakScheduleRuns: the addresses of accesses and their bases, as far as they are references, lead back in the code, so both ends of a comparison belong to one pass; a reference that leads forward is a value from the pass before and stays an input.
- CucMemory.RangesApart: offsets are words of 32 bits, as they are where unsigned long has 32; where it has 64, sign-extended immediates compare and wrap around alike.
- CucFlow.OrderAccesses: nothing is claimed for memory order "none", which drops all memory dependencies on purpose; what instructions other than accesses and additions compute is a parameter.
- CucDetectBb.Detector.DetectBb: for a nonempty function whose last instruction is not a branch and without a jump to instruction 0, as a compiled prologue has it; the block array must have room for the artificial blocks, which the code asserts only before it adds them.
- CucFuncDeps.Functions.SetFuncDeps: functions have distinct start addresses, as the loader gives them.
- Icache.InsnCache.Fetch: memory is words at aligned addresses; the MMU and the delays are left out, and whether the unit is present does not change.
- Dcache.DataCache.Write: coherence only; which line a write miss replaces is modelled as the code has it but no usage order is claimed, because its scan does not track the minimum.
- Dcache.DataCache.Read: the mask with block size less one is written as a remainder, the block size being 16 or 32.
- Breakpoints.Target.InsertMatchpoint: addresses are below 2^32; hardware breakpoints and watchpoints are only answered as unsupported, as in the code.
- RspPacket.Connection.GetPacket: the socket is a sequence that may end; errors other than its end are not distinguished.
- RspPacket.HexToReg: registers are 32 bits wide; a wider unsigned long may have sign bits above.
- RSP register, memory, query and run-control packets, signals, and the connection itself: dispatch and text scanning.
- Getopt.ParseAll: permuting mode without a leading "+" or "-" in the option string and without POSIXLY_CORRECT; how an element is decoded against the option tables is a parameter (number of calls, and whether it takes the next element), and a caller that moves optind back is not modelled.
- Profiler.Profiling.PopFrame: long is wider than unsigned int; where it is not, differences of 2^31 and more are taken for negative and, unless warnings are off, count as 0.
- ProfileSpec.Conserved: non-cumulative mode; Profiler.Profiling.Acquire covers both modes.
- Profiler.Profiling.Acquire: starts from parsed records, without function names; the arrays must have room for the records, which the code does not test.
- Jtag.DebugUnit.GoCommand: a GO_COMMAND after a WRITE_COMMAND has at least its 73 fixed bits, and so for Jtag.DebugUnit.ShiftDr; for shorter ones the code leaves the register (JtagSpec.ShortGoRunsOver), and what happens then is not modelled.
- Jtag.DebugUnit.GoCommandRead: the same, as it is only called from there.
- Jtag.DebugUnit.GoCommandWrite: the same.
- Jtag.DebugUnit.ShiftDr: the same.
- Jtag.DebugUnit.WishboneRead: bus addresses wrap around at 2^32; the address register itself is an unsigned long that does not.
- Jtag.DebugUnit.WriteControl: a reset is counted, the simulator reset itself is not part of this model.
- Jtag.DebugUnit.SprRead: the variant for a big-endian OpenRISC (OR32_BIG_ENDIAN), which is the default, is modelled.
- MMUs, branch predictor, performance counters, debug watchpoints, instruction execution, exceptions, peripherals, configuration and file reading: not part of this model.
