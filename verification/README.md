# The back end of the compiler: allocation, moves, objects, data

This project models the back half of a C compiler and proves what it is for.

* **Register allocation.** Blocks are laid out in reverse postorder (`BlockOrder`), live intervals are
  computed in one walk and one pass over the back edges (`LiveIntervals`), and linear scan assigns
  registers and spill slots in place (`LinearScan`). `Liveness` shows that the intervals cover true
  liveness on every path, `ValueClasses` which class and size a value has and what it gets for it;
  `ScanInvariants`, `ScanResults` and `ScanTheorems` hold the invariants of the scan and what they give at
  the end, `PoolOrder` the order of preference; `SpillOptimality` shows that the number of spills is minimal;
  `CallSafety` treats values that live across calls; `AllocationSimulation` shows that a run on registers
  and slots agrees with a run on virtual registers.
* **Moves and spill code.** `ParallelMoves` has the counting argument shared by the two resolvers,
  `ParamMoves` and `CallArguments`; `SetupPartition` recognises the units of a call set-up;
  `CallBlocks` looks for the set-up of a call in its block; `SpillRewriting` replaces virtual registers by
  registers, scratches and frame cells, and `SpillExactness` says exactly when that is right.
* **Object files.** `ElfStrings`, `ElfFormat`, `ElfSymbols`, `ElfWriter` and `ElfParser` write and read
  64-bit relocatable objects (System V ABI, generic edition, chapter 4, "Sections", "String Table" and
  "Symbol Table"); `ElfIdentity` reads what is written field by field; `ElfRoundTrip` and
  `ElfRelocations` show that writer and parser undo each other; `RelocSymbols` and `SymbolContents` say which
  symbols a file has and what they stand for; `RelocIndices` and `DataIndices` treat the two symbol
  numberings that relocation entries rely on.
* **Initialised data.** `TypeLayout`, `ConstantData`, `ConstantMeaning`, `ConstantRelocs`, `RelocConditions` and
  `FlatRelocs` relate type layout, serialised constants, what they mean, and relocation offsets.
* **Bit deposit and extract** (`BitDeposit`).

`Ir` holds functions, paths and liveness; `Bytes` and `Wrappers` are shared helpers. Loops of the program
are methods with invariants, tied to specification functions; the results are lemmas about those functions.

## Reading the results

A function is *strict* when every path from its entry to a use of a value passes a definition of it or
the value is a parameter. Several definitions per value are allowed, as in code from which phi
instructions have been removed.

`AllocationPreservesMeaning` holds for an arbitrary meaning of the instructions. Calls and divisions may
leave anything in registers that are not callee-saved, something else at every step. No value suffers:
the eviction branch of the scan filters candidates by class only, but an interval that it evicts encloses
the current one, so a call inside the current one is inside the evicted one as well, which therefore
holds a callee-saved register already (`EveryFunctionRespectsCalls`). `CallsRespectedExactly` says what
the scan relies on for this: flags that nest. Intervals with other flags could break it, but the interval
computation never produces them (`ComputedFlagsNest`).

`ResolveParamMoves` assumes distinct destinations and none among R11 and XMM15, which the recogniser and
the register set guarantee. `ResolveCallArguments` assumes distinct destinations, scratches used only
inside pairs, register arguments loaded by instructions that name their result, and addresses of register
arguments only in registers that the set-up does not write. Of a struct on the stack the address may come
from the set-up itself, as instruction selection has it: the address goes to R10, then every word is loaded
through R10 into R11 and pushed (src/backend/x86_64/codegen.rs:7798-7823). A push must not read a register
that a load before it has written; instruction selection emits all pushes before the register arguments
(src/backend/x86_64/codegen.rs:7759-7915). The k-th push of a set-up fills the k-th stack cell, which is why
the order of pushes matters.
That copies keep to their class is stated for set-ups whose own moves do: from float to float registers or
from integer to integer registers, with an opcode that is not the move of the other class (`ClassySetup`).

`InstructionSimulatesExactly` and `BlockSimulatesExactly` quantify over every meaning whose memory is a log
of what instructions read. One such meaning exposes every unsafe block: it gives registers 0 and cells 1, so
that an instruction that reads a scratch with a spilled value in it logs something else.

Where the program differs from what its comments say, the model follows the code:

* comments on expiry speak of intervals that end at or before the current start; the code compares
  strictly, so ranges are closed and two intervals that touch do not share a register;
* comments on live intervals speak of a single definition per value; the code accepts several;
* the comments on the scratch of the spill rewriting call it reserved; instruction selection keeps the
  address of a global in it as well, which is lost when the value loaded or stored is a spilled integer
  (`GlobalLoadExactly`, `GlobalStoreExactly`);
* the comment on the indirect-call save calls its register safe because no argument goes there; it may
  still be the source of one (`SaveCanLoseArgument`), and the address of a struct does go there
  (`StructCanLoseTarget`);
* the comment on instructions that read no register as first operand calls them safe to emit in any order;
  loads of a struct through R10 are among them, and are emitted before the move that sets R10
  (`ConflictCanLoseStruct`);
* the comment on reloads says that marking them shows the resolver the whole set-up; the reload of the
  callee itself is not marked and hides it (`SpilledCalleeExactly`, `SwapNeedsResolving`);
* the comment in the relocation collector says that it mirrors the serialiser; it does so only under the
  conditions of `RelocsArePlaces` (`ElisionMisplacesRelocs`, `PackingMisplacesRelocs`);
* the comment on the name-to-index map says that it mirrors the writer; aliases without a target are the
  exception (`RecoveredExactly`, `UnresolvedAliasShifts`);
* the comment on the map for data relocations says that it partitions symbols like the one for code; local
  labels that code mentions are the exception (`DataRecoveredExactly`, `MentionRecoveredExactly`, `LabelMisleadsData`).

## Model

| member | source | states |
|---|---|---|
| `BlockOrder.ReversePostorder` | src/ir/function.rs:706-745 | the iterative search returns a layout order: entry first, no block twice, closed under successors, every later block with a predecessor before it; and every edge goes to a later block unless it closes a cycle; empty for a function without blocks |
| `BlockOrder.Search` | src/ir/function.rs:711-740 | the explicit-stack search keeps, at every step, that seen blocks are on the stack or done, that tried successors are seen, and that every done block has a parent still to be done; it terminates |
| `BlockOrder.ReversedIsOrder` | src/ir/function.rs:742-744 | reversing a finished search gives the layout order the allocator relies on |
| `BlockOrder.PopPostordered` | src/ir/function.rs:723-739 | when a block is done, each of its successors was done before it or leads back to it |
| `BlockOrder.ListedIsReachable` | src/ir/function.rs:695-697 | every listed block is reached from the entry by a walk through the control flow |
| `BlockOrder.ReachableIsListed` | src/ir/function.rs:695-697 | every block on a walk from the entry is listed |
| `LiveIntervals.NumberBlocks` | src/backend/register_allocator.rs:351-370 | instructions are numbered block after block from one, index zero being kept for parameters |
| `LiveIntervals.WalkInstructions` | src/backend/register_allocator.rs:372-489 | the walk fills the first-occurrence and last-occurrence maps, classes, sizes and the positions of calls and divisions |
| `LiveIntervals.ExtendOverEdge` | src/backend/register_allocator.rs:624-635 | one back edge lengthens exactly the intervals that start before the header and reach it |
| `LiveIntervals.ExtendBackEdges` | src/backend/register_allocator.rs:544-638 | the single pass over back edges, their sources in layout order |
| `LiveIntervals.Assemble` | src/backend/register_allocator.rs:640-668 | one interval per recorded value, sorted by start and value |
| `LiveIntervals.ComputeLiveIntervals` | src/backend/register_allocator.rs:328-669 | the whole computation, tied to the function that the soundness results are about |
| `LiveIntervals.SortSorts` | src/backend/register_allocator.rs:665-666 | sorting by start and value gives a strict order and keeps every interval |
| `LiveIntervals.SortAscends` | src/backend/register_allocator.rs:665-666 | starts ascend, and of equal starts the smaller value comes first |
| `Liveness.WalkIsExact` | src/backend/register_allocator.rs:372-489 | before the loop pass the range of a value runs exactly from its first to its last occurrence |
| `ValueClasses.TypeIsExact` | src/backend/register_allocator.rs:372-489 | the class and size of a value are those of its last parameter entry; else those of the instruction where it first occurs, if this defines it; else integer and eight bytes |
| `ValueClasses.ValueGetsPlace` | src/backend/register_allocator.rs:715-888 | every value of every function is kept in a register of its class or in a slot of its size, one byte at least |
| `ValueClasses.DefinedValueGetsPlace` | src/backend/register_allocator.rs:452-466 | a value first defined by an instruction of floating type is in a floating register or in a slot of the size of that type, any other in a general one |
| `ValueClasses.ParamGetsPlace` | src/backend/register_allocator.rs:382-391 | so is a parameter, by the type it is listed with |
| `Liveness.OnePassIsFixpoint` | src/backend/register_allocator.rs:544-638 | after the single pass every back edge s->h is closed for every value at once: live into h and started before it means the end is at or past the end of s |
| `Liveness.OnePassIsLeast` | src/backend/register_allocator.rs:544-638 | no interval is longer than closure under the back edges forces it to be |
| `Liveness.LiveStartsBefore` | src/backend/register_allocator.rs:372-489 | in a strict function a live value starts strictly before every point where it is live |
| `Liveness.LivePathEndsAfter` | src/backend/register_allocator.rs:544-638 | along every live path, through nested and irreducible loops, the final end stays at or past the index |
| `Liveness.LiveInsideInterval` | src/backend/register_allocator.rs:328-669 | wherever a value is live, the point lies inside its final interval, for arbitrary control flow |
| `Liveness.DefInsideInterval` | src/backend/register_allocator.rs:452-461 | every definition lies inside the interval of the value it defines |
| `Liveness.LiveAcrossCallIsFlagged` | src/backend/register_allocator.rs:426-451 | every value live across a call or division has its interval flagged, including parameters at the first instruction |
| `Liveness.FlaggedCrossesACall` | src/backend/register_allocator.rs:648-652 | a flagged interval does have a call or division strictly inside |
| `LinearScan.ExpireOld` | src/backend/register_allocator.rs:749-765 | expired positions are collected and removed in reverse order, their registers returned to the pool of their class; the result is the one-pass filter of the specification |
| `LinearScan.PickRegister` | src/backend/register_allocator.rs:767-782 | a crossing interval takes the first callee-saved register of its pool, another one pops the pool |
| `LinearScan.InsertActive` | src/backend/register_allocator.rs:793-798 | the interval is inserted before the first active one that ends later |
| `LinearScan.FindFarthest` | src/backend/register_allocator.rs:801-806 | the last active interval of the class among those with the greatest end |
| `LinearScan.InsertPosition` | src/backend/register_allocator.rs:794-798 | where an interval is inserted: everything before ends no later, the one there ends later |
| `LinearScan.Farthest` | src/backend/register_allocator.rs:801-806 | the spill candidate is active, of the class, and no active interval of the class ends later |
| `LinearScan.PlaceInterval` | src/backend/register_allocator.rs:746-878 | one step of the scan in place on the interval array: take a register, evict, or spill the interval itself |
| `LinearScan.SpillToSlot` | src/backend/register_allocator.rs:814-828 | a fresh slot directly below the others, recorded in the slot list, the map and the frame size |
| `LinearScan.EvictFor` | src/backend/register_allocator.rs:808-844 | the farthest interval gives up its register, which the current one takes |
| `LinearScan.AllocateRegisters` | src/backend/register_allocator.rs:715-888 | the whole scan over the array, tied to the function that the results below are about |
| `ScanInvariants.RunKeepsCore` | src/backend/register_allocator.rs:746-878 | after every step of every run: intervals keep their bounds, the active list is exactly the placed intervals that have not ended, sorted by end, and registers are conserved |
| `ScanInvariants.ExpireConserves` | src/backend/register_allocator.rs:749-765 | returning registers moves them from the active list to the pool of their class and loses none |
| `ScanInvariants.ActiveDiffer` | src/backend/register_allocator.rs:737-800 | two active intervals never hold the same register |
| `PoolOrder.TakesPreferred` | src/backend/register_allocator.rs:730-735 | as long as no interval ends, the n-th interval of a class that crosses no call takes the n-th register in the target's order of preference |
| `PoolOrder.FirstEndedIsOnTop` | src/backend/register_allocator.rs:749-765 | of the registers given back together, the one whose interval ended first is taken next |
| `PoolOrder.FarthestIsLast` | src/backend/register_allocator.rs:801-806 | of active intervals that end last, the one activated last is the candidate |
| `ScanTheorems.RegistersAreConserved` | src/backend/register_allocator.rs:737-878 | at every step the free registers of a class together with those of its active intervals are exactly its allocatable registers, none repeated, and the active list is sorted by end |
| `ScanTheorems.MeetingIntervalsAreApart` | src/backend/register_allocator.rs:737-878 | two different intervals whose closed ranges meet never hold the same register, evictions included |
| `ScanTheorems.EveryIntervalIsAllocated` | src/backend/register_allocator.rs:715-888 | every input interval is in the result, with its bounds and class unchanged |
| `ScanTheorems.TablesAreExact` | src/backend/register_allocator.rs:784-887 | every interval ends with exactly one of a register and a slot, and the assignment and spill tables say which |
| `ScanTheorems.SpillMapIsBijection` | src/backend/register_allocator.rs:730-735 | spilled values and slot indices 0..n-1 correspond one to one |
| `ScanTheorems.SlotsTileTheFrame` | src/backend/register_allocator.rs:814-828 | the slots tile the frame: every byte of it lies in exactly one slot, no byte outside in any |
| `ScanTheorems.CalleeSavedIsExact` | src/backend/register_allocator.rs:784-838 | the callee-saved list is exactly the callee-saved registers of the final assignment, despite evictions |
| `ScanResults.RunKeepsApart` | src/backend/register_allocator.rs:746-878 | after every step placed intervals that meet hold different registers |
| `ScanResults.RunKeepsBooks` | src/backend/register_allocator.rs:784-878 | assignments, spill map, slots and callee-saved set are exact after every step |
| `SpillOptimality.KeptIsFeasible` | src/backend/register_allocator.rs:746-878 | the intervals left in registers never overlap more than k deep, the assignment itself being the colouring |
| `SpillOptimality.ForcedExchange` | src/backend/register_allocator.rs:802-812 | at a forced spill some interval over the current start is missing from any feasible choice, and the one that ends last can be traded for it |
| `SpillOptimality.ExchangeAlong` | src/backend/register_allocator.rs:746-878 | after every step any feasible choice can be turned into one as large that agrees with the scan so far |
| `SpillOptimality.SpillCountIsMinimal` | src/backend/register_allocator.rs:746-878 | if no interval of a class crosses a call, the number of its spilled intervals is the least over all ways of dropping intervals so that at most k closed ranges overlap anywhere |
| `CallSafety.PoolServesCalleeSaved` | src/backend/register_allocator.rs:773-782 | a crossing interval served from the pool gets a callee-saved register |
| `CallSafety.NestedFlagsKeepCallsSafe` | src/backend/register_allocator.rs:746-878 | if every interval that starts before a crossing one of its class and ends after it crosses as well, then after every step of the scan, evictions included, crossing intervals hold only callee-saved registers |
| `CallSafety.UnnestedFlagsBreakCalls` | src/backend/register_allocator.rs:802-838 | if two given intervals do not nest like that, registers exist, plentiful but none callee-saved, with which some crossing interval ends in one |
| `CallSafety.CallsRespectedExactly` | src/backend/register_allocator.rs:715-888 | given intervals are allocated with calls respected, whatever the registers, if and only if their flags nest |
| `CallSafety.ComputedFlagsNest` | src/backend/register_allocator.rs:648-652 | the flags that the interval computation sets do nest |
| `AllocationSimulation.EveryFunctionRespectsCalls` | src/backend/register_allocator.rs:328-888 | so for every function and every set of registers, crossing intervals in registers end in callee-saved ones |
| `AllocationSimulation.SharedPointApart` | src/backend/register_allocator.rs:737-878 | two values whose intervals share a point have different locations |
| `AllocationSimulation.ParametersApart` | src/backend/register_allocator.rs:382-391 | different parameters have different locations, so they can be put in place |
| `AllocationSimulation.SurvivesCall` | src/backend/register_allocator.rs:426-451 | a value live across a call is not in a register that the call clobbers |
| `AllocationSimulation.StepAgrees` | src/backend/register_allocator.rs:328-888 | one step of the machine on locations keeps agreement with the machine on values |
| `AllocationSimulation.AllocationPreservesMeaning` | src/backend/register_allocator.rs:328-888 | for every strict function, calls and divisions included, every meaning of its instructions and every number of steps, the machine on registers and slots is at the same point with the same memory and the same value for every live value as the machine on virtual registers |
| `ParallelMoves.StuckIsPermutation` | src/backend/generation.rs:1888-1966 | when no pending move is safe, sources and destinations are the same registers, each read exactly once, and no load is pending |
| `ParallelMoves.BreakingFrees` | src/backend/generation.rs:1925-1966 | saving one source of a stuck set in a register outside it makes some move safe |
| `ParallelMoves.SafeMoveKeepsOwed` | src/backend/generation.rs:1908-1924 | executing a safe move settles its destination and leaves what every other one is owed |
| `ParallelMoves.BreakKeepsOwed` | src/backend/generation.rs:1925-1966 | saving a source and redirecting its readers leaves what every destination is owed |
| `ParamMoves.ResolveParamMoves` | src/backend/generation.rs:1854-1971 | for distinct destinations, with shared sources, several cycles and memory loads, the emitted sequence equals performing all moves at once; every copy has the opcode of its move, and if the moves keep to their class with opcodes that suit it, so do all copies; the cap never ends the loop |
| `ParamMoves.ScratchIsFree` | src/backend/generation.rs:1936-1956 | the scratch chosen for a cycle is never a destination and, the moves being stuck, no pending source; R11 serves integers only if R10 is taken |
| `ParamMoves.CollectLoads` | src/backend/generation.rs:1867-1882 | the load of every memory-sourced destination is found again by its destination |
| `CallArguments.OriginalOrderWorks` | src/backend/generation.rs:2742-2824 | when the conflict check finds nothing, the original order delivers every argument, pushed ones included |
| `CallArguments.ConflictExactly` | src/backend/generation.rs:2742-2824 | the check finds a conflict if and only if a move reads what some unit writes, or a push what a move writes |
| `CallArguments.Flush` | src/backend/generation.rs:2868-2956 | deferred loads and pairs are emitted exactly when no pending move reads their destination, the rest kept in order |
| `CallArguments.NobodyWaitsWhenStuck` | src/backend/generation.rs:2906-2992 | when the moves are stuck no load and no pair is waiting, so one scratch serves all cycles |
| `CallArguments.BreakCycle` | src/backend/generation.rs:2957-2992 | breaking a cycle keeps every debt and makes some move safe; it goes through the scratch of the class, with an opcode of the class |
| `CallArguments.BreakIsRight` | src/backend/generation.rs:2959-2976 | redirecting a cycle through the scratch of its class leaves every pending move within its class |
| `CallArguments.FirstRound` | src/backend/generation.rs:2868-2905 | what need not wait is emitted first, every push while its source still holds its first value |
| `CallArguments.SequenceSetup` | src/backend/generation.rs:2843-2998 | pushes, moves, deferred loads and load-then-move pairs leave every argument register and stack cell as simultaneous assignment would, but that a push through an address finds there what was emitted in the first round; pushes keep their order; copies keep to their class and have the opcodes of the set-up; the cap never ends the loop |
| `CallArguments.ResolveCallArguments` | src/backend/generation.rs:2528-3003 | whichever way the resolver takes, pushes keep their order, copies keep to their class and have the opcodes of the set-up, and set-up without conflict stays as it is; all arguments are delivered if and only if no unit reads the save register while it is used and no address of a struct comes late, which needs a conflict and an address from a move, from a pair or in a register that moves read; an indirect target survives to the call if and only if nothing but itself is moved to where it is kept |
| `CallArguments.AllArrive` | src/backend/generation.rs:2742-2998 | the first of these conditions is exact for whatever code obeys the meaning of the set-up, original order or resolved |
| `CallArguments.TargetKept` | src/backend/generation.rs:2541-2572 | so is the one for the target |
| `CallArguments.ThroughInFirst` | src/backend/generation.rs:2868-2905 | a push through an address delivers what the last unit before it in the first round put there, else what the register held before the set-up |
| `CallArguments.OriginalOrderExactly` | src/backend/generation.rs:2742-2824 | left in its order, any set-up delivers every argument if and only if no move and no push reads a register that an earlier unit has changed |
| `CallArguments.SaveCanLoseArgument` | src/backend/generation.rs:2541-2572 | a set-up in which saving the target overwrites the source of an argument |
| `CallArguments.StructCanLoseTarget` | src/backend/x86_64/codegen.rs:7798-7823 | a set-up in which the address of a struct overwrites the saved target |
| `CallArguments.ConflictCanLoseStruct` | src/backend/generation.rs:2868-2905 | a set-up in which two arguments change places and a struct is pushed through an address that has not been moved to its register yet |
| `CallBlocks.FindSetup` | src/backend/generation.rs:2508-2523 | the backward search returns the start of the longest run of marked instructions before the call |
| `CallBlocks.MarksMatch` | src/backend/generation.rs:1291-1293 | rewriting leaves one mark for every instruction, reloads bearing that of the instruction they serve |
| `CallBlocks.SetupFoundExactly` | src/backend/generation.rs:1341-1410 | after spill rewriting the set-up of a call is found as a whole if the call needs no reload, and none of it otherwise |
| `CallBlocks.SpilledCalleeExactly` | src/backend/generation.rs:2508-2527 | so the set-up of a call through a value is resolved if and only if the value is not spilled |
| `CallBlocks.SwapNeedsResolving` | src/backend/generation.rs:2525-2527 | a set-up that the resolver would deliver and the original order does not |
| `SetupPartition.Partition` | src/backend/generation.rs:2573-2731 | the scan that marks consumed instructions splits the set-up into moves, single instructions and load-then-move pairs as the left-to-right reading does |
| `SetupPartition.PartitionRecovers` | src/backend/generation.rs:2573-2731 | from any instructions that write the units of a proper set-up, loads being immediate, address or memory and pushes going through a scratch that holds a word, an address or a part of a struct, the scan reads every unit as it ought to: no pair is split and nothing else is taken for a pair or a move |
| `SetupPartition.AddressIsTakenApart` | src/backend/generation.rs:2608-2731 | an address computed into the scratch is not paired with the move behind it |
| `SpillRewriting.RewriteInstruction` | src/backend/generation.rs:1262-1468 | the operand loop with its two scratch flags emits the reload, instruction and store sequence of the specification; every reload and store moves a value of its class through the scratch of the class |
| `SpillRewriting.RewriteBlock` | src/backend/generation.rs:1257-1470 | a block is rewritten instruction by instruction, in order, and so are its reloads and stores |
| `SpillRewriting.AllWellMoved` | src/backend/generation.rs:1053-1064 | a float moves between its cell and the float scratch by the float move, anything else between its cell and the integer scratch by the integer move |
| `SpillRewriting.CellExactly` | src/backend/generation.rs:1343-1440 | an operand is read from its cell if and only if it is spilled, is not the result, and the scratch of its class is taken |
| `SpillRewriting.InstructionSimulates` | src/backend/generation.rs:1257-1471 | with any subset of result and operands spilled, the rewritten sequence of an instruction that reads only scratches still holding their value computes the same result from the old destination value and the operands, writes it to the right place, and leaves right every scratch that it does not need itself; `InstructionSimulatesExactly` shows that no other instruction can be rewritten safely |
| `SpillRewriting.BlockSimulates` | src/backend/generation.rs:1257-1470 | the rewritten block ends in the state that in-place access to every location would have reached, if each of its instructions is safe where it stands |
| `SpillExactness.InstructionSimulatesExactly` | src/backend/generation.rs:1257-1471 | an instruction is rewritten correctly, for every meaning and every state, if and only if each scratch it reads holds its value and is not needed for a spilled value of the same instruction |
| `SpillExactness.BlockSimulatesExactly` | src/backend/generation.rs:1257-1470 | so is a block, if and only if that is true of each of its instructions where it stands |
| `SpillExactness.MarkedStep` | src/backend/generation.rs:1257-1471 | one rewritten instruction under the tracing meaning keeps registers and cells apart and logs wrong inputs wherever it is not safe |
| `SpillExactness.GlobalLoadExactly` | src/backend/x86_64/codegen.rs:3108-3133 | loading a global in position-independent code is rewritten correctly if and only if the destination is no spilled integer; otherwise the preload overwrites the address in R11 |
| `SpillExactness.GlobalStoreExactly` | src/backend/x86_64/codegen.rs:3488-3530 | storing to one, if and only if the source is no spilled integer, whose reload overwrites the address |
| `SpillRewriting.LoadThenPushIsSafe` | src/backend/generation.rs:1257-1470 | a stack argument set up through R11, spilled or not, meets that condition |
| `SpillRewriting.LocalsUntouched` | src/backend/generation.rs:1032-1036 | no byte of the locals, and none below the spill area, is written |
| `SpillRewriting.PlanIsSound` | src/backend/generation.rs:957-1036 | slots are within the spill area, no value lives in a scratch, and every value is where the allocator put it |
| `SpillRewriting.CellsTileTheFrame` | src/backend/generation.rs:969-1036 | the 8-byte cells are pairwise disjoint, lie below the locals, and fill the enlarged frame exactly; the frame before is the larger of the two given |
| `SpillRewriting.ApplyAllocation` | src/backend/generation.rs:957-1475 | every block of the function is rewritten as specified, reloads and stores keep to their class, no store leaves the spill cells, and the frame grows by exactly these |
| `TypeLayout.SizeIsAligned` | src/backend/generation.rs:3451-3491 | every size is a multiple of the alignment |
| `TypeLayout.FieldsFit` | src/backend/generation.rs:3466-3488 | fields are aligned, in order, disjoint, and inside the struct |
| `TypeLayout.FieldsAreTight` | src/backend/generation.rs:3466-3488 | and no padding is more than alignment asks for |
| `TypeLayout.AlignIsAttained` | src/backend/generation.rs:3428-3446 | the alignment of a struct is that of one of its fields |
| `TypeLayout.ArrayIsElements` | src/backend/generation.rs:3424-3465 | arrays grow by the size of the element and are aligned like it |
| `ConstantMeaning.ScalarLayout` | src/backend/generation.rs:3424-3465 | scalars are as wide as their bits or encodings need and aligned to their width |
| `ConstantMeaning.ConstantHolds` | src/backend/generation.rs:3138-3345 | the bytes of a variable hold what its initialiser stands for: integers modulo their width, floats as encoded or cut to the nearest integer in range, strings and then zeros, fields and elements in their places, zeros everywhere else, parts within parts |
| `ConstantMeaning.IntegerComesBack` | src/backend/generation.rs:3170-3181 | a number in the signed range of its type is read back as it is |
| `ConstantMeaning.ReadsSaturated` | src/backend/generation.rs:3197-3209 | a float at an integer type is read back as the nearest number that the type holds |
| `ConstantData.SizeIsTypeSize` | src/backend/generation.rs:3138-3345 | a constant that fills its type serialises to exactly the size of the type, over nested, packed, partial and elided initialisers |
| `ConstantData.FieldAtItsOffset` | src/backend/generation.rs:3253-3286 | every supplied field lies at its layout offset |
| `ConstantData.ElementAtItsSlot` | src/backend/generation.rs:3287-3322 | every supplied element starts its slot, and zeros fill the slot up |
| `ConstantData.RestIsZero` | src/backend/generation.rs:3253-3286 | padding and omitted fields are zero |
| `ConstantRelocs.PatchingResolves` | src/backend/generation.rs:3323-3341 | patching the placeholders gives the data in which every reference already has its value |
| `ConstantRelocs.PlacesFit` | src/backend/generation.rs:3323-3341 | the placeholders are in range, in order and pairwise disjoint |
| `ConstantRelocs.ReferenceAtItsPlace` | src/backend/generation.rs:3323-3341 | every place holds the eight bytes emitted for its reference, zeros in the compiler's own output |
| `ConstantRelocs.RelocsArePlaces` | src/backend/generation.rs:3355-3411 | if, up to every reference, structs start aligned and elements have full width, the collector reports exactly the places of the placeholders |
| `ConstantRelocs.LinkingResolves` | src/backend/generation.rs:3355-3411 | under that condition, linking a section against the entries resolves this constant's references and changes nothing else |
| `RelocConditions.WellPlacedMirrors` | src/backend/generation.rs:3355-3411 | the condition holds for every constant that fills its type without elision when no unpacked struct is misaligned |
| `RelocConditions.NaturallyPlaced` | src/backend/generation.rs:3424-3491 | types without packed structs never misalign a struct |
| `RelocConditions.NaturalDataLinks` | src/backend/generation.rs:3355-3411 | data of a type without packed structs, aligned and without elision, always links correctly |
| `RelocConditions.ElisionMisplacesRelocs` | src/backend/generation.rs:3395-3406 | an initialiser with an elided element whose entry points eight bytes too low |
| `RelocConditions.PackingMisplacesRelocs` | src/backend/generation.rs:3371-3394 | an initialiser with a struct in a packed struct whose entry points past the data |
| `RelocConditions.ChanceRealigns` | src/backend/generation.rs:3355-3411 | a nested initialiser whose entry is right by chance: an elided element misleads the collector and the alignment of the next struct puts it right |
| `FlatRelocs.FlatStructExact` | src/backend/generation.rs:3371-3394 | for a flat struct initialiser the entries are right if and only if the start is aligned for every field up to the last reference |
| `FlatRelocs.FlatArrayExact` | src/backend/generation.rs:3395-3406 | for a flat array initialiser they are right if and only if every element before the last reference has full width |
| `FlatRelocs.DriftStays` | src/backend/generation.rs:3371-3394 | once misled, the collector's offset never agrees again within the struct |
| `ElfStrings.StringTable.AddString` | src/backend/elf_writer_common.rs:777-786 | a known string keeps its offset, a new one is appended with its terminator |
| `ElfStrings.AddedSound` | src/backend/elf_writer_common.rs:777-786 | adding keeps every earlier offset and byte, and every interned string stands terminated at its offset |
| `ElfStrings.NameIsFound` | src/backend/generation.rs:5380-5390 | reading up to the NUL at the offset of a string gives the string back |
| `ElfFormat.HeaderReads` | src/backend/elf_writer_common.rs:389-406 | a serialised section header is read back field by field at the reader's offsets |
| `ElfFormat.SymbolReads` | src/backend/elf_writer_common.rs:580-600 | a serialised symbol entry is read back |
| `ElfFormat.RelaReads` | src/backend/elf_writer_common.rs:656-680 | a serialised relocation entry is read back: place, symbol index, type and signed addend |
| `ElfSymbols.SymbolTable.AddSymbol` | src/backend/elf_writer_common.rs:896-899 | the symbol is appended and its name interned |
| `ElfSymbols.SymbolTable.FirstGlobalIndex` | src/backend/elf_writer_common.rs:905-913 | one past the last local symbol, the null symbol counted |
| `ElfSymbols.SymbolTable.BuildBytes` | src/backend/elf_writer_common.rs:932-980 | the null entry, the locals, then the others, each in order of addition |
| `ElfSymbols.LocalsComeFirst` | src/backend/elf_writer_common.rs:932-980 | every local symbol has an index below sh_info and every other one an index from it on; none is lost or repeated |
| `ElfSymbols.OrderIsStable` | src/backend/elf_writer_common.rs:932-980 | within each group the order is that of addition |
| `ElfSymbols.SymbolAtIndex` | src/backend/elf_writer_common.rs:932-980 | symbol k of that order is entry k + 1 of the table |
| `ElfWriter.ElfWriter.AddSection` | src/backend/elf_writer_common.rs:1168-1171 | sections are numbered from one |
| `ElfWriter.ElfWriter.PlaceSections` | src/backend/elf_writer_common.rs:1299-1369 | without offset hints every section gets the next offset that its alignment allows, sections without contents taking no space |
| `ElfWriter.ElfWriter.Write` | src/backend/elf_writer_common.rs:1239-1572 | for a 64-bit relocatable object without offset hints the phases of the writer produce the file image of the specification |
| `ElfWriter.OffsetsAscend` | src/backend/elf_writer_common.rs:1316-1350 | section data is aligned, in order and disjoint, behind the file header |
| `ElfWriter.ImageLength` | src/backend/elf_writer_common.rs:1386-1389 | the length of the file is exactly the announced total |
| `ElfWriter.SectionInImage` | src/backend/elf_writer_common.rs:1449-1465 | every section's bytes sit at the offset in its header |
| `ElfWriter.TablesInImage` | src/backend/elf_writer_common.rs:1467-1486 | symbol table, string table and section names sit at the offsets in their headers |
| `ElfWriter.HeaderInImage` | src/backend/elf_writer_common.rs:1489-1571 | every section header stands in its place in the table |
| `ElfIdentity.FileSaysWhatItIs` | src/backend/elf_writer_common.rs:1392-1412 | the file begins with the identification of a 64-bit little-endian object and the thirteen fields of the header, each at its offset |
| `ElfIdentity.SectionIsDescribed` | src/backend/elf_writer_common.rs:1489-1571 | every section's header, read at the offsets of the format, gives its name, type, flags, address, size, link, info, alignment and entry size and leads to its data |
| `ElfIdentity.OwnSectionsAreDescribed` | src/backend/elf_writer_common.rs:1489-1571 | the null header, the symbol table with its string table and number of local entries, and the two string tables |
| `ElfIdentity.SymbolIsDescribed` | src/backend/elf_writer_common.rs:580-600 | every entry of the symbol table, read at the offsets of the format, gives its symbol's name, binding, type, visibility, section, value and size |
| `ElfIdentity.RelaFields` | src/backend/elf_writer_common.rs:656-680 | a relocation entry holds place, symbol, type and addend where the format has them |
| `ElfIdentity.LayoutIsTight` | src/backend/elf_writer_common.rs:1299-1389 | nothing in the file is further back than alignment asks for |
| `ElfParser.ParseObject` | src/backend/generation.rs:5212-5882 | the parser's passes over headers, symbols, sections and relocations compute the function that the round trip is about, fallbacks included |
| `ElfParser.ReadSymbols` | src/backend/generation.rs:5392-5532 | the symbol pass, which leaves out the null entry, stops at the end of the file and tells local names of several objects apart |
| `ElfParser.ReadSections` | src/backend/generation.rs:5534-5583 | the section pass, which keeps sections with contents or reserved space whose names are not skipped |
| `ElfParser.ReadRelocs` | src/backend/generation.rs:5585-5847 | the relocation pass, which drops entries for sections that were not loaded and names symbols as the symbol pass does |
| `ElfIdentity.LoadedExactly` | src/backend/generation.rs:5540-5561 | sections with contents or reserved space are loaded, but for .eh_frame*, .note*, .comment, .GCC* and .gnu.hash* |
| `ElfIdentity.UnknownIsRead` | src/backend/generation.rs:5510-5531 | bindings and types that the linker does not know are read as global and untyped |
| `ElfIdentity.WithoutAddend` | src/backend/generation.rs:5700-5760 | entries without addends have addend zero and are sixteen bytes apart |
| `ElfIdentity.LocalLabelExactly` | src/backend/generation.rs:3811-3815 | names that begin with .L are private |
| `ElfIdentity.RawDataIsCode` | src/backend/generation.rs:5212-5260 | data without a section table are one executable section and nothing else |
| `ElfIdentity.SectionNamesStay` | src/backend/generation.rs:5478-5508 | section symbols keep the name made from their section and object |
| `ElfRoundTrip.WrittenObjectParses` | src/backend/elf_writer_common.rs:1239-1572 | parsing what was written gives the loadable sections with name, type, flags, size, alignment and contents, and the symbols, locals first, each group in order; the defaults appear exactly when there is nothing to load or no symbol |
| `ElfRoundTrip.SymbolSurvives` | src/backend/generation.rs:5478-5531 | a symbol that is not a section symbol keeps all fields if and only if its binding, type and visibility are ones the linker knows and it is not a local name to be told apart |
| `ElfRoundTrip.TargetIsSymbol` | src/backend/generation.rs:5796-5820 | relocations find such a symbol under the very name under which it was read, suffix included |
| `ElfRoundTrip.LocalsOfObjectsDiffer` | src/backend/generation.rs:5496-5508 | local names of different objects never coincide once they carry the number of their object |
| `ElfRoundTrip.ContentsBack` | src/backend/generation.rs:5563-5568 | a section with contents is read back in full if and only if its declared size is zero or the length of its data |
| `ElfRoundTrip.SectionNameIsBack` | src/backend/generation.rs:5371-5390 | the name of every section, the writer's own included, is read back |
| `ElfRoundTrip.RelocIsBack` | src/backend/generation.rs:5705-5846 | a relocation entry comes back with place, type, addend and the name under which the symbol at its index is known |
| `ElfRelocations.WrittenRelocsParse` | src/backend/generation.rs:5585-5847 | the parsed relocations are exactly the written entries for loaded sections, section after section and in order, each with the name of its symbol |
| `ElfRelocations.FoundExactly` | src/backend/generation.rs:5684-5694 | a relocation section counts if and only if the section it is for is one of the caller's and is loaded |
| `RelocSymbols.CollectExterns` | src/backend/generation.rs:3862-3907 | declared variables are listed once, unless they are defined or aliases |
| `RelocSymbols.CollectDeclarations` | src/backend/generation.rs:3833-3860 | declared functions are listed unless the unit defines them |
| `RelocSymbols.CollectMentioned` | src/backend/generation.rs:3997-4052 | names that only relocations mention become local labels or undefined symbols, each once |
| `RelocSymbols.FindTarget` | src/backend/generation.rs:3909-3953 | an alias takes the address of the function of its target name, else of the variable, else it is not written |
| `RelocSymbols.AddSymbols` | src/backend/generation.rs:3786-4112 | the pass that fills the writer's table adds exactly the written symbols, in order |
| `SymbolContents.DefinitionsAreWritten` | src/backend/generation.rs:3786-3831 | these begin with the functions, each at its offset in the code with its size, binding and visibility, and the variables, each at its offset in its section |
| `SymbolContents.AliasIsWritten` | src/backend/generation.rs:3909-3953 | every alias whose target the unit defines has the address and size of the first function of that name, else variable |
| `SymbolContents.MentionIsWritten` | src/backend/generation.rs:3997-4112 | what else relocations mention is there: labels at their offset, the rest undefined, as functions if they are called |
| `SymbolContents.DeclarationIsWritten` | src/backend/generation.rs:3833-3860 | declared functions that the unit does not define are there, undefined |
| `SymbolContents.ExternIsWritten` | src/backend/generation.rs:3862-3907 | so are declared variables, weak if their first declaration is |
| `SymbolContents.ExternsOnce` | src/backend/generation.rs:3862-3907 | each of these once, and none that is defined |
| `SymbolContents.EverySymbolIsExplained` | src/backend/generation.rs:3786-4112 | every symbol of the file is one of these |
| `SymbolContents.FunctionIsSeen` | src/backend/generation.rs:5392-5532 | the linker finds every function of the unit at its offset in the code, with its size |
| `SymbolContents.VariableIsSeen` | src/backend/generation.rs:5392-5532 | and every variable at its offset in its section |
| `RelocSymbols.BuildIndex` | src/backend/generation.rs:4114-4221 | the second pass rebuilds the list, every alias included, and numbers locals before the others |
| `RelocIndices.IndexIsPosition` | src/backend/generation.rs:4205-4221 | the map gives a name that is listed once its position in the symbol table, counted from one |
| `RelocIndices.IndexLeadsBack` | src/backend/generation.rs:4205-4221 | whatever index the map has for a name, listed once or more often, the entry at it bears the name |
| `RelocIndices.RecoveredExactly` | src/backend/generation.rs:4186-4221 | a name listed once is recovered through its index if and only if its symbol is written and, unless it is local, no symbol before it is missing from the file |
| `RelocIndices.RelocIsCandidate` | src/backend/generation.rs:4026-4052 | every relocation's symbol is in the list that is numbered |
| `RelocIndices.RelocNamesRecovered` | src/backend/generation.rs:3786-4236 | if every alias target is defined, every relocation's symbol is recovered from its index, even when the unit lists names repeatedly |
| `RelocIndices.RelocNamesSurvive` | src/backend/generation.rs:5769-5820 | and after writing and parsing the file the parser finds a symbol of that name, under the name the linker knows it by |
| `RelocIndices.UnresolvedAliasShifts` | src/backend/generation.rs:4186-4192 | a unit with one alias without a target, in which the index of a called function leads elsewhere |
| `DataIndices.NumberForData` | src/backend/generation.rs:4300-4475 | the second numbering, for relocations of data: names only data mentions are added to the file, every name code mentions is listed as global, locals are numbered before the others |
| `DataIndices.ExtrasExactly` | src/backend/generation.rs:4300-4360 | the names added are those that nothing else mentions, once each, undefined |
| `DataIndices.DataNamesRecovered` | src/backend/generation.rs:4300-4490 | if every alias target is defined, a data relocation's symbol is recovered from its index when code mentions no local label, and with labels too when only data mentions it |
| `DataIndices.DataNamesSurvive` | src/backend/generation.rs:5769-5820 | and after writing and parsing the file the parser finds a symbol of that name |
| `DataIndices.DataRecoveredExactly` | src/backend/generation.rs:4447-4475 | a listed symbol or alias whose name is listed once is recovered for data if and only if it is local or code mentions no local label |
| `DataIndices.MentionRecoveredExactly` | src/backend/generation.rs:4447-4475 | a name that relocations of code mention and the unit does not list is recovered if and only if every label is mentioned before it; a label, if and only if nothing that is not local is listed or mentioned before it |
| `DataIndices.TailLeadsBack` | src/backend/generation.rs:4447-4475 | a name at the common end of two lists is recovered, whatever equally many symbols stand before it |
| `DataIndices.LabelMisleadsData` | src/backend/generation.rs:4447-4475 | a unit with one function and one local label, in which a data entry for the function leads elsewhere |
| `BitDeposit.Deposit` | include/immintrin.h:950-958 | the loop puts bit number n of x under the n-th mask bit and zeros elsewhere, in as many rounds as the mask has bits |
| `BitDeposit.Extract` | include/immintrin.h:961-969 | the loop packs the bits under the mask in order, zeros above, in as many rounds as the mask has bits |
| `BitDeposit.ExtractUndoesDeposit` | include/immintrin.h:950-969 | extracting what was deposited gives the low bits of x, as many as the mask has |
| `BitDeposit.ExtractRecovers` | include/immintrin.h:950-969 | it gives x itself if and only if x fits in that many bits |
| `BitDeposit.DepositUndoesExtract` | include/immintrin.h:950-969 | depositing what was extracted gives x under the mask |
| `BitDeposit.DepositIsUnique` | include/immintrin.h:950-958 | the description of deposit determines the result |
| `BitDeposit.ExtractIsUnique` | include/immintrin.h:961-969 | the description of extract determines the result |

## Left out

- Phi-specific extension of intervals (src/backend/register_allocator.rs:491-530): the model starts from code without phi instructions, where that step does nothing.
- Loop membership (src/backend/register_allocator.rs:553-607): computed but not used by the extension rule.
- Types of values appear as a class and a size in bytes; how a type determines these (src/backend/register_allocator.rs:241-306), and the value types handed on with the result, are not modelled.
- `insert_spill_code` in the allocator, which the driver does not call.
- Which virtual registers count as floats (src/backend/generation.rs:1117-1152) is given to the rewriting.
- The search for virtual-register names outside the value map (src/backend/generation.rs:942-948, 1014-1030): one total, injective map is assumed.
- The AArch64, RISC-V and i686 branches of spill rewriting and of the resolvers; the call-argument resolver takes its constants as parameters.
- SpillRewriting.PlanIsSound: cells are eight bytes wide as in the code, so a value whose allocator slot is wider than eight bytes is not covered.
- SpillRewriting.InstructionSimulates: the values read and written by an instruction other than virtual registers, named registers and addresses through registers are one abstract memory; whether an encoding allows more than one memory operand is not modelled.
- The recognition of parameter moves and their neighbours at function entry (src/backend/generation.rs:1531-1790): the model starts from the recognised moves; struct copies, frame stores and spill stores that precede them are not modelled.
- CallArguments.SequenceSetup: a second struct in one call, whose address goes to R10 again, and the float stores and x87 conversions of stack arguments are not modelled.
- CallBlocks.SetupFoundExactly: one call and the instructions before it; set-up that an unmarked stack adjustment for a float argument splits is not modelled.
- RelocConditions.WellPlacedMirrors: sufficient only; in nested initialisers a wrong offset can be put right by chance (`ChanceRealigns`), and the exact condition is proved for flat ones (`FlatStructExact`, `FlatArrayExact`).
- Rounding of numbers to IEEE formats: a numeric constant carries its encodings and its truncated value.
- ElfWriter.ElfWriter.PlaceSections: file-offset hints, which only linked output uses.
- ElfWriter.ElfWriter.Write: program headers, file-offset hints and 32-bit objects; without hints the sort by offset changes nothing (`OffsetsAscend`).
- ElfParser.ParseObject: big-endian and 32-bit objects, entry sizes below the standard ones and offsets past the end of the file.
- Alignments are powers of two, as the writer's helper demands; on these rounding up by arithmetic and by masking agree. Section and symbol counts, table sizes and offsets are assumed to fit their fields.
- Names are sequences of bytes; decoding them as UTF-8 is not modelled.
- RelocSymbols.CollectMentioned: how the offset of a local code label is found is not modelled; the labels and offsets are given.
- DataIndices.DataRecoveredExactly: names listed more than once are left to `DataNamesRecovered`.
- `resolve_div_conflicts`, `resolve_shift_conflicts`, relocation patching, start-up stubs, DWARF, linking proper, lowering, optimisation and the driver.
- Overflow of fixed-width counters in the allocator: instruction indices, slot indices and frame sizes are unbounded.
