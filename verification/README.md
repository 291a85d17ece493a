# Verification of the Fast PokeEMU test-case compiler

Fast PokeEMU compares CPU emulators. Symbolic execution of one emulator yields test cases: values for some
registers and memory bytes, to be in force when one instruction is executed. A compiler
(`scripts/gen_floppy_image.py`) turns many of them into one straight-line x86 program that a small kernel runs on
every emulator; the outputs of all test cases are folded, by a Feistel network, into one aggregate that is compared
at the end. This project models that compiler, the parts of the kernel it relies on, and the tools before and after
it, and proves what they promise.

`dafny verify dfyconfig.toml` checks everything (Dafny 4.11).

## What is proved

**The gadget scheduler** (`TopologicalSort`, `Gadgets`, `Schedule`). A gadget is a piece of code with the sets of
locations it defines, kills and uses. The iterative depth-first search ends on every graph; it returns a topological
order or stops at its "find cycle" exit, and does the latter exactly on cyclic graphs. The orders it accepts are
exactly those that meet eight rules about the sets, stated without the dependency test. A machine state maps locations
to values, a step stores a gadget's values in what it defines and arbitrary values in what it kills. In every order
that respects the dependencies, every run ends with each defined location at its defined value, whatever the kills
wrote; uses are read at their initial value, late uses at their final value; any two orders agree.

**Set-up and revert** (`SetUp`, `SetUpOrder`, `StableSetUp`, `SetUpRuns`, `JointSetUp`). For every test case and
snapshot: which registers are lost and which gadget has to precede which, if and only if; the generated gadgets have
acyclic dependencies, the repair pass `make_stable` never trips its assertion, and the whole set-up takes the snapshot
to the test-case state *if and only if* one repair pass is enough; the revert gadgets return to the snapshot under the
same condition, again if and only if. One pass is not always enough: a repair reloads a segment register through EAX
(and CS also through EBX and the flags), and the pass does not look at what its own gadgets kill. A test case that
changes only a segment descriptor loses EAX. The condition can be told from the items of the test case. In the Feistel
modes the set-up is sorted together with the gadgets that save and load the operands of the instruction; that list has a
schedule *if and only if* the instruction does not address memory with both EAX and ECX while something sets ECX.

**Feistel aggregation** (`Feistel`, `FeistelCode`, `FeistelWide`, `FeistelPlans`, `FeistelSpace`, `FeistelBlocks`,
`FeistelEmission`, `FeistelFit`, `FeistelBytes`, `FeistelRuns`, `FeistelScratch`, `FeistelSpills`). A round is injective
exactly when it writes every block in full, which the operands decide: the code of a test case loses nothing exactly
when it writes no narrow register and leaves no block over. Then series of rounds are bijections, and two emulators that
differ in the outputs of one test case end with different aggregates if and only if those outputs differ. The bump
allocator, the block counters and the emission of the stores, operand by operand, are modelled as they stand; the code
emitted computes exactly the round, and every byte of every output is folded that its operand covers, provided that the
stores of `xmm` registers fit. These are single stores of 16 bytes: one takes the place of the operations on its blocks
if and only if the operand has four words and these are consecutive in L and in R, and whether that is so is decided, if
and only if, by the operands of the test case and of the first one.

**Recovery** (`Handlers`, `Recovery`, `RecoverySeries`). A state machine in which an exception may strike in any gadget
of any section. From the store of the return point in the prologue on, the return point lies ahead, every run ends, the
counter bounds the passes, and an iteration that reaches the tested instruction passes through the remaining sections
exactly once and in order. Before that store the return point does not lie ahead: a series ends if and only if no fault
in the first prologue leads astray, which the first such fault does exactly when it leaves some of the budget, and the
faults in the other prologues stop.

**Addresses** (`Paging`, `AddressForms`, `PagedSections`). The page tables map every linear address modulo 4 MB. Hence
the two forms of an address name one cell while paging is on, and an address reaches its cell if and only if the code
runs paged or was generated with the low form. The mode is a function of the sections a run went through and of how far
it got in each; hence, for every test case and after any faults, which addresses are reached in which section, if and
only if.

**Tools** (`MemoryDiff`, `Intervals`, `SymbolicMemory`, `Printf`, `ElfSections`, `Base32`, `VarNames`,
`TestCaseInputs`). The page-skipping comparison of memory dumps reports what a plain scan does; clustering is undone by
unclustering; every byte of physical memory is symbolic, concrete or remaining; the kernel's integer printer reads back;
the binary search agrees with a linear one; test-case files are read back byte by byte.

Where the code falls short of a property, a lemma names an input and another one the condition, which is exact (if and
only if) unless the list says otherwise:

- One repair pass may leave EAX, EBX or the flags clobbered (`SetUpRuns.SetUpCorrectExactlyWhen`,
  `SetUpRuns.DescriptorOnlyTestCaseLosesEAX`).
- A round loses information when a register is stored in part: narrower than a word, or wider and moved with `movd`, as
  `mm` registers are, or when a block is left over (`FeistelRuns.NothingLostExactlyWhen`,
  `FeistelRuns.NarrowOutputLoses`, `FeistelRuns.BlockLeftOverLoses`).
- An instruction that addresses memory with EAX and ECX, such as `add (%eax,%ecx),%edx`, cannot be compiled in the
  Feistel modes for a test case that sets ECX: the assertion before the sort fails (`JointSetUp.SortJointly`,
  `JointSetUp.IndexedAddIsTrapped`).
- The 16-byte store of an `xmm` register overwrites backup blocks when the blocks are not consecutive, as for
  `movaps (%eax),%xmm0` (`FeistelFit.FitsExactlyWhen`, `FeistelFit.LoadIsSpoiled`). Exact for each store; for the round
  as a whole the condition is sufficient, since a stray word may happen to be overwritten.
- Scratch words for the flags and other special outputs are drawn at random from the range the blocks lie in. Every
  block, and the loop counter, can be drawn (`FeistelScratch.EveryBlockCanBeDrawn`); the round is computed exactly when
  none of them is live at that moment (`FeistelSpills.SpillsExactly`).
- A fault in a prologue, before it stores its return point, resumes at the start of that prologue, so that a series may
  never end (`RecoverySeries.EndsExactlyWhen`, `RecoverySeries.PrologueCanTrap`); in the first test case it resumes at
  an address that nothing has stored (`RecoverySeries.AstrayExactlyWhen`, `RecoverySeries.FirstPrologueGoesAstray`).
- Vectors 10 and 11 draw on a budget that the kernel sets to ten; when it is used up the machine halts before the end of
  the test case (`Recovery.TestCaseEnds`).
- A loop count of zero wraps around to 2^32 passes, and an exception in the set-up code of a later pass, before its
  store for the inputs, ends the test case (`Recovery.LoopCountIsKept`, `Recovery.FaultLeadsTo`,
  `Recovery.PassesCutShort`).
- Blocks are addressed in the high form throughout the code around the tested instruction. In a test case that switches
  paging off they are out of reach in the instruction's section, and in the code after it unless a fault led there
  either from the set-up code, before it switched paging off, or through the copy of the revert code, which switched it
  on again (`PagedSections.ReachWithPagingOff`, `PagedSections.FaultBeforeSwitch`).
- Handlers 11 and 12 record the same vector, and so do 10 and 15 while paging is on
  (`Handlers.RecordedExactlyWhen`).
- The list of differences also contains differences from unknown memory, from pages looked into
  (`MemoryDiff.RecordedExactlyWhen`). A difference that a dump cuts short is an error (`MemoryDiff.EqualDumpsBreak`).
- Zeros on the right of a number change it (`Printf.ReadsBackExactlyWhen`).
- A section nested in another hides part of it from the search (`ElfSections.NestedSectionHides`). Which sections are
  found is exact (`ElfSections.ProbeExactly`); the simpler condition of `ElfSections.ProbeFinds` is sufficient only.
- A memory cell named under two labels makes a file that cannot be loaded (`TestCaseInputs.TwoLabelsFail`); a page-table
  byte that is both a directory entry and a table entry is such a cell.
- A fused gadget does not list uses of locations that it kills itself (`Gadgets.MergeIsExposed`).

## Model

The functions without a contract of their own (`Gadgets.Depend`, `Gadgets.Add`, `SetUp.GenSetReg`, `SetUp.GenSetSreg`,
`SetUp.GenSetCreg`, `SetUp.GenSetMem`, `Feistel.Mix`, `FeistelPlans.Emission`, `FeistelSpace.FirstSpace`,
`Recovery.Step`, `RecoverySeries.Advance`, `Paging.Walk`, `Printf.Output`, ...) are the definitions that the members
below are about.

| member | source | states |
|---|---|---|
| TopologicalSort.NewNodes | scripts/gen_floppy_image.py:2384-2393 | the successors still to be explored, or nothing exactly when one of them is active |
| TopologicalSort.CycleFound | scripts/gen_floppy_image.py:2387-2392 | meeting an active node again means that the graph has a cycle |
| TopologicalSort.Expand | scripts/gen_floppy_image.py:2378-2399 | descending into a node and finishing a node keep the search invariant: the active nodes form a path, their unexplored successors lie above them on the fringe, the finished ones are in order |
| TopologicalSort.Explore | scripts/gen_floppy_image.py:2373-2399 | the search below one root ends; everything reachable is explored and ordered, or there is a cycle |
| TopologicalSort.OrderedGraphIsAcyclic | scripts/gen_floppy_image.py:2358-2401 | a graph with a topological order has no cycle |
| TopologicalSort.Sort | scripts/gen_floppy_image.py:2358-2401 | every node once and every edge forwards in a returned list; the early exit is taken exactly when the graph has a cycle |
| Gadgets.AddRunsBoth | scripts/gen_floppy_image.py:1866-1882 | running one gadget after the other is a step of the fused gadget, when the second does not read what the first kills |
| Gadgets.AddIsAssociative | scripts/gen_floppy_image.py:1866-1882 | fusing is associative on the defined and on the killed locations |
| Gadgets.MergeIsExposed | scripts/gen_floppy_image.py:1866-1882 | in the fusion of a list nothing is both defined and killed; a use exposed at the front of the list is listed exactly when the list never kills the location and does not use it after defining it |
| Gadgets.MergeGlist | scripts/gen_floppy_image.py:2425-2434 | nothing for the empty list; otherwise the fused gadget defines (kills) exactly the locations whose last toucher defines (kills) them, its late uses are those of the gadgets of the list, and runs of the list are steps of it |
| Schedule.BuildDependencyGraph | scripts/gen_floppy_image.py:2317-2329 | an edge from one gadget to another exactly when one of the eight ordering rules, each a statement about their sets, puts the second after the first |
| Schedule.SortGadget | scripts/gen_floppy_image.py:2407-2420 | a result is an order of all gadgets, each once, in which all eight rules hold: killers before definers, users before definers and killers, definers before late users, definers of everything last, users of the flags before the other gadgets, definers of page-directory and page-table entries before definers of the flags; there is none exactly when no order meets them |
| Schedule.DependExactlyWhen | scripts/gen_floppy_image.py:1892-1898 | a dependency is a violation of one of these rules, and nothing else |
| Schedule.ScheduleExactlyWhen | scripts/gen_floppy_image.py:2407-2420 | the orders that respect all dependencies are exactly those that meet the rules |
| Schedule.DefinedValueStays | scripts/gen_floppy_image.py:1892-1898 | once stored, a defined value is never lost again in a scheduled run, whatever the kills write |
| Schedule.FinalValue | scripts/gen_floppy_image.py:1892-1898 | schedule soundness: at the end of every run each defined location holds its defined value |
| Schedule.SoleDefiner | scripts/gen_floppy_image.py:1892-1898 | the only gadget that defines a location decides its value at the end of every run, whatever else is in the list |
| Schedule.ReadsInitialValue | scripts/gen_floppy_image.py:1892-1898 | a gadget finds every location it uses at its value before the run |
| Schedule.ReadsFinalValue | scripts/gen_floppy_image.py:1892-1898 | a gadget finds a late use that another gadget defines at its final value |
| Schedule.LateReadOfUndefined | scripts/gen_floppy_image.py:1892-1898 | a late use that nobody else defines is found at its value before the run |
| Schedule.SameValuesStored | scripts/gen_floppy_image.py:1892-1898 | in two runs under different schedules each gadget stores the same values |
| Schedule.SchedulesAgree | scripts/gen_floppy_image.py:2358-2420 | any two schedules leave the same values in all defined locations, whatever the kills write in either |
| SetUp.DependencyRaisesRank | scripts/gen_floppy_image.py:1892-2061 | a dependency between set-up gadgets always leads to a later rank (plain cells, descriptors, page tables and the jump patch, flags, segment registers, the rest) |
| SetUp.RankedGadgetsAreAcyclic | scripts/gen_floppy_image.py:1904-2061 | no list of set-up gadgets has cyclic dependencies |
| SetUp.ItemsAreDefined | scripts/gen_floppy_image.py:1904-2061 | the generated gadgets define exactly the registers and cells of the items |
| SetUp.DefinersAreUnique | scripts/gen_floppy_image.py:1904-2061 | no register or cell is defined by two gadgets |
| SetUp.GeneratedListIsWellFormed | scripts/gen_floppy_image.py:1904-2061 | the gadgets of distinct items meet the conditions of the schedule theorems, and their dependency graph has no cycle |
| SetUpOrder.KilledExactly | scripts/gen_floppy_image.py:1904-2061 | for every list of items and every snapshot: a segment register is lost if and only if the descriptor that its snapshot selector picks is changed; EAX if and only if a paging structure is changed or a segment or control register is loaded; EBX and the flags if and only if CS is loaded; nothing else is lost |
| SetUpOrder.OrderExactly | scripts/gen_floppy_image.py:1892-2061 | which of any two gadgets of any two items has to come first, told from the kinds of the items alone |
| SetUpOrder.ScheduledExactly | scripts/gen_floppy_image.py:1892-2061 | the schedules of a test case are exactly the orders of its gadgets that put these kinds in order |
| StableSetUp.KilledAndDefined | scripts/gen_floppy_image.py:632-642 | the killed and the defined locations of a list |
| StableSetUp.MakeStable | scripts/gen_floppy_image.py:632-655 | the input is kept as a prefix, followed by snapshot gadgets for exactly the locations killed and not defined; the assertion trips exactly when one of them is a location of the test case |
| StableSetUp.GenParam | scripts/gen_floppy_image.py:2727-2735 | set-up gadgets for exactly the items that differ from the snapshot, which lose exactly the registers that `SetUpOrder.KilledExactly` names, and revert gadgets with the snapshot's values for the same locations |
| StableSetUp.Prepare | scripts/gen_floppy_image.py:2737-2741 | for every test case the repair passes its assertion and the repaired list has a schedule, which is found and puts the kinds of gadgets in order |
| StableSetUp.RunSetsItems | scripts/gen_floppy_image.py:1904-2061 | every run of a schedule gives each item its value and leaves alone what is neither an item nor killed |
| StableSetUp.LostRegisters | scripts/gen_floppy_image.py:1922-2061 | set-up gadgets can lose only segment registers, EAX, EBX and the flags |
| StableSetUp.RepairsKill | scripts/gen_floppy_image.py:1922-1970 | what the repair gadgets themselves clobber: EAX when a segment register is reloaded, EBX and the flags when it is CS |
| StableSetUp.OnePassIsEnough | scripts/gen_floppy_image.py:632-655 | after one pass no location is killed and undefined, if and only if the condition on the list before the pass holds |
| StableSetUp.OnePassExactly | scripts/gen_floppy_image.py:632-655 | the condition told from the items and the snapshot: EAX is set or lost whenever a segment register is lost and not set, and so are EBX and the flags whenever CS is |
| SetUpRuns.SetUpReachesTarget | scripts/gen_floppy_image.py:2727-2741 | under the condition every run ends with test-case values on the test case's locations and snapshot values on all others, for lists sorted on their own |
| SetUpRuns.SetUpMissesTarget | scripts/gen_floppy_image.py:632-655 | without the condition there is a run from the snapshot that ends elsewhere |
| SetUpRuns.SetUpCorrectExactlyWhen | scripts/gen_floppy_image.py:632-655 | for every test case and schedule: all runs from the snapshot reach the test-case state if and only if the condition holds |
| SetUpRuns.DescriptorOnlyTestCaseLosesEAX | scripts/gen_floppy_image.py:2002-2061 | a test case that changes only the descriptor that one of the six segment registers selects fails the condition, for every snapshot |
| SetUpRuns.JointRunSetsItem | scripts/gen_floppy_image.py:2775-2786 | set-up gadgets sorted together with any others: a test-case location that none of the others defines ends with its test-case value, in every run of every schedule |
| JointSetUp.DependencyRaisesPlace | scripts/gen_floppy_image.py:1892-1898 | a dependency between gadgets of set-up, loads and saves leads to a later place, but for memory operands and a scratch register that the address needs |
| JointSetUp.PartIsPlaced | scripts/gen_floppy_image.py:938-1170 | the sets declared for loading, saving and copying registers, memory operands and blocks keep to their places |
| JointSetUp.UntrappedListIsAcyclic | scripts/gen_floppy_image.py:2759-2783 | set-up, loads and saves have acyclic dependencies unless memory is addressed with EAX and ECX and something sets ECX |
| JointSetUp.TrappedListHasCycle | scripts/gen_floppy_image.py:938-966 | in that case the memory operand is copied through ECX and waits for ECX: a cycle |
| JointSetUp.SortJointly | scripts/gen_floppy_image.py:2775-2783 | for every test case and instruction a schedule of the joint list is found if and only if that is not the case |
| JointSetUp.IndexedAddIsTrapped | scripts/gen_floppy_image.py:1364-1376 | for the operand of `add (%eax,%ecx),%edx` it is the case exactly when the test case sets ECX |
| JointSetUp.EarlyPartDelivers | scripts/gen_floppy_image.py:1498-1546 | in every run of every schedule, a location that one load, copy, upper half or restored memory operand alone sets ends with what its source held at the start |
| JointSetUp.LatePartDelivers | scripts/gen_floppy_image.py:1498-1546 | a block that one save alone sets ends with what the register or memory operand held when it was saved, which was after everything that sets it |
| JointSetUp.PartsKillExactly | scripts/gen_floppy_image.py:938-966 | loads and saves lose the scratch register, ECX if the address needs EAX and EAX otherwise, if and only if one of them moves a memory operand, and nothing else |
| JointSetUp.PartsInOrder | scripts/gen_floppy_image.py:938-1170 | in every schedule each load and save runs before all gadgets it has to precede and after all gadgets it has to follow |
| SetUpRuns.RevertReachesSnapshot | scripts/gen_floppy_image.py:2731-2741 | the revert gadgets return to the snapshot from every state that differs from it only in the test case's locations |
| SetUpRuns.RevertCorrectExactlyWhen | scripts/gen_floppy_image.py:2731-2741 | for every test case and schedule: all runs of the revert gadgets from states that differ from the snapshot only where the test case does reach the snapshot if and only if the condition holds |
| SetUpRuns.CompileTestCase | scripts/gen_floppy_image.py:2727-2741 | both programs of a test case, end to end: all runs of one reach the test-case state from the snapshot, and all runs of the other the snapshot from states that differ from it only where the test case does, if and only if the condition holds, which is told from the items that differ from the snapshot |
| Feistel.UnroundUndoesRound | scripts/gen_floppy_image.py:1191-1284 | a round that writes all blocks in full is undone by its inverse |
| Feistel.RoundUndoesUnround | scripts/gen_floppy_image.py:1191-1284 | and the other way round, for any output function |
| Feistel.InjectiveExactlyWhenFull | scripts/gen_floppy_image.py:1191-1284 | a round is injective if and only if it writes all blocks in full |
| Feistel.RoundsAreBijective | scripts/gen_floppy_image.py:2221-2277 | every series of full rounds is a bijection |
| Feistel.RoundsOfConcat | scripts/gen_floppy_image.py:2221-2277 | a series in two parts is one part after the other |
| Feistel.DifferencesSurvive | scripts/gen_floppy_image.py:2221-2277 | two aggregates are equal after any number of common rounds if and only if they were equal before |
| Feistel.DivergenceIsVisible | scripts/gen_floppy_image.py:2221-2277 | with one divergent round the final aggregates are equal if and only if the outputs of that round were |
| FeistelCode.CopyStage | scripts/gen_floppy_image.py:2255-2273 | block copies move every block and nothing else |
| FeistelCode.OutputStage | scripts/gen_floppy_image.py:1191-1284 | the output code leaves in every block of R the old L block, xor-ed with the output where there is one, to the width written |
| FeistelCode.RoundMemory | scripts/gen_floppy_image.py:2221-2277 | the memory after backup, output and update code, cell by cell |
| FeistelCode.CodeComputesRound | scripts/gen_floppy_image.py:2221-2277 | generated code computes the Feistel round on the contents of its blocks and touches no other cell |
| FeistelWide.WideIsBlockwise | scripts/gen_floppy_image.py:1631-1631 | one store of 16 bytes does what the operations on the blocks of the operand do, for all outputs and memories, if and only if the operand has four words and these are consecutive in L and in R |
| FeistelPlans.CompletedServes | scripts/gen_floppy_image.py:2221-2252 | after exception data and padding every block a test case uses is served exactly once |
| FeistelPlans.PlanInOrder | scripts/gen_floppy_image.py:1573-1650 | the outputs are stored in the order of their blocks, hence registers before memory, except that those for the flags come first |
| FeistelBytes.EmitWrite | scripts/gen_floppy_image.py:1191-1284 | for every operand whose stores fit, all outputs and all memories: executing the emitted stores leaves in each byte of each R block of the operand the exclusive or of the L byte and the output byte, where the operand covers the byte (all bytes for memory, xmm registers and registers of at least a word, the low bytes for narrower ones, the first word for a register moved with movd), and what it held elsewhere; no other cell changes |
| FeistelBytes.EmitAll | scripts/gen_floppy_image.py:1683-1717 | the stores of a plan, operand by operand |
| FeistelBytes.EmissionByBytes | scripts/gen_floppy_image.py:1191-1284 | every byte of the blocks of one operand after its stores, for every width, output and memory |
| FeistelBytes.CodeFoldsCase | scripts/gen_floppy_image.py:2221-2277 | every byte of every block after the code of a whole test case whose stores fit, told from the operands alone: L is the old R; in R each byte that an operand covers is the exclusive or of the L byte and the output byte, two words of exception data follow, then the old L as far as the test case reads, and all other bytes are kept |
| FeistelBytes.ByteShowsExactlyWhen | scripts/gen_floppy_image.py:2221-2277 | two emulators whose outputs differ in one byte of one operand end the test case with different bytes in its block if and only if the operand covers that byte |
| FeistelSpace.RunsOfMore | scripts/gen_floppy_image.py:601-624 | words allocated after a gap form a new run of consecutive words |
| FeistelSpace.ConsecutiveExactly | scripts/gen_floppy_image.py:601-624 | four blocks of any list are consecutive words if and only if they lie in one run |
| FeistelSpace.RunsOfR | scripts/gen_floppy_image.py:1403-1413 | R consists of a run for each operand read by the first test case, and of single blocks |
| FeistelSpace.RunsOfL | scripts/gen_floppy_image.py:1451-1458 | L consists of a run for each operand written by the first test case, and of one for exception data and padding |
| FeistelSpace.SpaceIsAccounted | scripts/gen_floppy_image.py:2184-2252 | how many blocks of each kind the first test case gets, told from the words it reads and writes, and that every word taken from the range belongs to one list |
| FeistelBlocks.BlocksAreInPlace | scripts/gen_floppy_image.py:66-71 | blocks are aligned words inside the address range, away from return point, exception data and loop counter, and pairwise disjoint |
| FeistelBlocks.OwnedApart | scripts/gen_floppy_image.py:601-624 | no list of blocks repeats an address and different lists share none |
| FeistelBlocks.Blocks.constructor | scripts/gen_floppy_image.py:66-71 | no blocks, and the first address after the loop counter |
| FeistelBlocks.Blocks.GetAddr | scripts/gen_floppy_image.py:601-624 | consecutive words from the next address, which moves by the rounded size; failure exactly past the end of the range |
| FeistelBlocks.Blocks.AddReadBlocks | scripts/gen_floppy_image.py:1403-1413 | as many R blocks, backups and save blocks as the operand has words, in three runs of consecutive words; failure exactly past the end of the range |
| FeistelBlocks.Blocks.AddWriteBlocks | scripts/gen_floppy_image.py:1451-1458 | as many L blocks and save blocks as the operand has words, in two runs of consecutive words |
| FeistelBlocks.Blocks.HandleRead | scripts/gen_floppy_image.py:1379-1426 | the counter of R moves by the words read; the first test case allocates, later ones reuse and fail only when they read more |
| FeistelBlocks.Blocks.GrowR | scripts/gen_floppy_image.py:1465-1468 | R reaches the requested length and keeps its blocks |
| FeistelBlocks.Blocks.ReserveWrite | scripts/gen_floppy_image.py:1430-1481 | blocks in L and R for every word written, or an index error exactly when a later test case writes more |
| FeistelBlocks.Blocks.HandleWrite | scripts/gen_floppy_image.py:1573-1650 | the operand joins the plan at the block where the counter of L stands, flags in front; the counter moves by its words; a later test case fails only when it writes more |
| FeistelBlocks.Blocks.HandleReads | scripts/gen_floppy_image.py:2190-2194 | all reads, registers first: the counter ends at the words read |
| FeistelBlocks.Blocks.HandleWrites | scripts/gen_floppy_image.py:2198-2202 | all writes, registers first: the plan is that of the operands, in order |
| FeistelBlocks.Blocks.HandleOperands | scripts/gen_floppy_image.py:1683-1716 | after all operands of the first test case R has as many blocks as are read or written |
| FeistelBlocks.Blocks.EvenOut | scripts/gen_floppy_image.py:2209-2247 | two blocks for exception data, then R and L brought to the same length |
| FeistelBlocks.Blocks.GenRoot | scripts/gen_floppy_image.py:2184-2277 | the first test case gets max(read words, write words + 2) blocks in R, its backup and L, at addresses that are a function of its operands; later ones leave the lists alone and fail only when they need more; success yields the stores of the plan, wide ones as single stores of 16 bytes; on every emulator and from every memory these fold the output bytes as `FeistelBytes.CodeFoldsCase` says |
| FeistelEmission.RoundIsServed | scripts/gen_floppy_image.py:2184-2277 | block by block, the output code of a test case serves every block it uses exactly once, with the widths of its operands |
| FeistelEmission.EmissionExactly | scripts/gen_floppy_image.py:1191-1284 | the stores of an operand amount to the operations on its blocks if and only if they fit |
| FeistelEmission.RoundAmounts | scripts/gen_floppy_image.py:2184-2277 | the stores of a test case whose wide outputs fit amount to the block by block code |
| FeistelEmission.StoresComputeRound | scripts/gen_floppy_image.py:2221-2277 | the code generated for a test case whose wide outputs fit computes its Feistel round, for all outputs and memories |
| FeistelEmission.WideStoreOverBackup | scripts/gen_floppy_image.py:1631-1631 | where a word of a wide store falls on a backup block, the aggregate after the round is wrong |
| FeistelFit.FitsExactlyWhen | scripts/gen_floppy_image.py:1498-1650 | the wide outputs of a test case fit if and only if each has four words that lie within one operand read and one operand written (or the padding) of the first test case |
| FeistelFit.LoadIsSpoiled | scripts/gen_floppy_image.py:1498-1650 | a load into an xmm register, as the first test case, does not fit, and its code does not compute the round |
| FeistelFit.XorpsFits | scripts/gen_floppy_image.py:1498-1650 | an operation between two xmm registers fits |
| FeistelRuns.FullExactlyWhen | scripts/gen_floppy_image.py:1191-1284 | a test case writes every block in full if and only if it leaves no block over and writes no register that is narrower than a word or moved with movd and wider than one |
| FeistelRuns.NothingLostExactlyWhen | scripts/gen_floppy_image.py:1191-1284 | on every emulator, what the blocks held before the code of a test case whose wide stores fit can be told from what they hold after it if and only if the test case writes no narrow register and leaves no block over |
| FeistelRuns.NarrowOutputLoses | scripts/gen_floppy_image.py:1191-1284 | a byte move and a shift of an mm register lose what a block held |
| FeistelRuns.BlockLeftOverLoses | scripts/gen_floppy_image.py:2250-2277 | a test case without outputs loses what a block held when there are more blocks than it serves |
| FeistelRuns.SeriesComputesRounds | scripts/gen_floppy_image.py:2221-2277 | a compiled series whose wide stores fit computes the rounds of its test cases |
| FeistelRuns.SeriesShowsDivergence | scripts/gen_floppy_image.py:2221-2277 | two emulators that run a compiled series whose wide stores fit and differ in one test case end with equal aggregates if and only if their outputs there are equal; blocks are written in full from that test case on |
| FeistelRuns.CompileSeries | scripts/gen_floppy_image.py:2184-2277 | test cases compiled one after the other share their blocks, which are in place, all wide stores fit if and only if the operands do, and then the series computes its rounds on every emulator and from every memory; test cases of the same shape fail only when the address range is exhausted; every test case folds its output bytes as `FeistelBytes.CodeFoldsCase` says |
| FeistelScratch.RandomWordsMeetBlocks | scripts/gen_floppy_image.py:605-608 | words drawn at random overlap a block if and only if one of them is that block |
| FeistelScratch.EveryBlockCanBeDrawn | scripts/gen_floppy_image.py:605-608 | no block is safe from being drawn, nor is the loop counter |
| FeistelSpills.HarmlessRound | scripts/gen_floppy_image.py:1221-1258 | whatever is left in the scratch words, the code computes the round as long as each of them is dead when it is written |
| FeistelSpills.HarmfulRound | scripts/gen_floppy_image.py:1221-1258 | a scratch word that is live when it is written gives a wrong aggregate, on a blank memory and without outputs |
| FeistelSpills.SpillsExactly | scripts/gen_floppy_image.py:1221-1258 | the code of a round computes it for all outputs, memories and scratch contents if and only if no scratch word is live when it is written: backup blocks, L blocks still to be loaded, and R blocks stored, never stored or stored in part |
| Paging.SetPage | Kernel/loader.c:237-252 | all directory entries name the one table, whose entries map the first 4 MB one to one, all with the flags present, writable, user |
| Paging.WalkIsModulo | Kernel/loader.c:237-252 | the 32-bit walk (section 4.3 of the Intel SDM, volume 3A) maps every linear address, writable and user, to itself modulo 4 MB |
| Paging.WalkByFields | Kernel/loader.c:237-252 | for any tables: the ten highest bits of an address select the directory entry, the next ten the table entry; the address is mapped if and only if both are present, to the page of the second, with the rights that both grant |
| Paging.EntryBits | Kernel/loader.c:237-252 | the mask 0xfffff000 and the flags 0x7, on the bits of a word, give its frame plus seven |
| Paging.FlagBits | Kernel/loader.c:237-252 | present, writable and user are the three lowest bits of an entry |
| Paging.PagedCellIsWalked | Kernel/loader.c:237-252 | the cell that an address names while paging is on is the one that the walk finds, with write and user access |
| Paging.FlipIsXor | scripts/gen_floppy_image.py:129-155 | exclusive or with 0x01000000, on the bits of a word, is the flipping of the model |
| Paging.FlippedCell | scripts/gen_floppy_image.py:129-155 | flipping twice changes nothing, and the flipped address names the same cell exactly when paging is on |
| AddressForms.FlipForm | scripts/gen_floppy_image.py:129-155 | an address flipped together with the paging mode names the same cell |
| AddressForms.PagingBitIsHighest | scripts/gen_floppy_image.py:1974-1990 | the mode a load of CR0 switches to is the highest bit of the value loaded |
| AddressForms.AddressBook.FlipAddrs | scripts/gen_floppy_image.py:129-155 | every cell list and single cell, one by one, flipped in its bit 24, or left alone as the saved outputs are |
| AddressForms.AddressBook.Toggle | scripts/gen_floppy_image.py:1980-1985 | mode and address form change together and all cells stay the same |
| AddressForms.AddressBook.LoadCr0s | scripts/gen_floppy_image.py:1974-1990 | after the gadgets of a test case the form is the low one exactly when one of them loaded CR0 with paging off; all lists flipped once |
| AddressForms.AddressBook.TestCase | scripts/gen_floppy_image.py:2723-2819 | the addresses a test case is generated with, before and after its gadgets: high, and low exactly when a gadget switched paging off; at the end each list is the high one with the new blocks meant for it appended |
| AddressForms.ReachesExactlyWhen | scripts/gen_floppy_image.py:129-155 | an address generated in one form names its cell if and only if the code runs paged or the form is the low one |
| Handlers.VectorsExactly | Kernel/interrupts-mod.c:98-560 | which vectors redirect, count down and find an error code on the stack |
| Handlers.RecordedExactlyWhen | Kernel/interrupts-mod.c:98-560 | two redirecting vectors are recorded alike if and only if they are equal, or 11 and 12, or 10 and 15 while paging is on |
| Handlers.BothNamesMeetTheCell | Kernel/interrupts-mod.c:102-119 | both addresses in a handler name the same cell, each in its paging mode |
| Handlers.Kernel.Handle | Kernel/interrupts-mod.c:98-121 | a redirecting handler resumes at the return point and records the error code and its own vector, except that 12 records 11, and 15 records 10 while paging is on; vectors 10 and 11 count down and halt at zero; nothing else in memory changes |
| Recovery.ReturnPointAhead | scripts/gen_floppy_image.py:2786-2812 | the return point lies strictly after the section executing |
| Recovery.StepKeepsSane | scripts/gen_floppy_image.py:2786-2812 | every step, faulting or not, keeps the invariant that gives this |
| Recovery.StepMakesProgress | scripts/gen_floppy_image.py:2768-2812 | every step makes the measure of passes, sections and gadgets left smaller |
| Recovery.RunEnds | scripts/gen_floppy_image.py:2768-2812 | from the prologue's store on, every run is over within the steps measured, under every pattern of faults |
| Recovery.TestCaseEnds | scripts/gen_floppy_image.py:2768-2812 | from the prologue's store on, a test case reaches its end label, or halts, which it does exactly when the budget of the counting vectors is spent |
| Recovery.IterationIsComplete | scripts/gen_floppy_image.py:2743-2814 | after the tested instruction come post, revert and loop, once each and in order, preceded by the fault revert exactly when that section faulted |
| Recovery.LoopCountIsKept | scripts/gen_floppy_image.py:2768-2773 | never more passes than the counter allows (zero counts as 2^32); at the end label exactly as many if and only if the first pass was not skipped and the end was reached without a fault or in the last pass; the counter cell is taken as touched by the loop alone |
| Recovery.FaultLeadsTo | scripts/gen_floppy_image.py:2775-2812 | in every run, a fault in any section leads to the start of the section that the return point stored last names: from the set-up code to the code after the instruction once the inputs are stored, before that to the revert code in the first pass and to the end of the test case in later ones; it costs no pass |
| Recovery.PassesCutShort | scripts/gen_floppy_image.py:2768-2812 | a run of three passes that ends after two |
| RecoverySeries.AdvanceMakesProgress | scripts/gen_floppy_image.py:2294-2311 | every step of a series gets closer to its end, except that a fault in the prologue of a later test case loses the instructions of the prologue run so far |
| RecoverySeries.SeriesEnds | scripts/gen_floppy_image.py:2294-2311 | a run is over, or has gone astray, within the steps of its test cases and the steps lost by faults in prologues |
| RecoverySeries.SeriesIsOver | scripts/gen_floppy_image.py:2294-2311 | from its start a series passes its last label, unless it goes astray or one budget for all test cases is spent, which is exactly when the machine halts |
| RecoverySeries.EndsExactlyWhen | scripts/gen_floppy_image.py:2294-2311 | under any stream of events a series ends, at its last label or by halting, if and only if no fault in the prologue of the first test case leads it astray and from some step on no fault turns back in the prologue of another |
| RecoverySeries.PrologueCanTrap | scripts/gen_floppy_image.py:2294-2311 | a run that never leaves the prologue of the second test case |
| RecoverySeries.FirstPrologueGoesAstray | scripts/gen_floppy_image.py:2294-2311 | from the start of a series, the first fault, when it strikes in the prologue of the first test case, halts the machine if it uses up the budget and otherwise resumes at an address that nothing has stored |
| RecoverySeries.AstrayExactlyWhen | scripts/gen_floppy_image.py:2294-2311 | under any stream of events a series goes astray if and only if there is such a fault and it leaves some of the budget |
| PagedSections.ReachExactlyWhen | scripts/gen_floppy_image.py:2743-2819 | every test case, after any events, in any section: return points and counter are always reached; blocks are reached if and only if the sections gone through, each as far as it ran, left paging on |
| PagedSections.ReachWithPagingOff | scripts/gen_floppy_image.py:2743-2819 | in a test case that switches paging off, after any events: blocks are not reached in the tested instruction's section; in the code after it they are reached if and only if a fault led there from the set-up code before paging was switched off or the copy of the revert code switched it on again; in the set-up code, in a pass that starts paged, exactly until paging is switched off |
| PagedSections.FaultBeforeSwitch | scripts/gen_floppy_image.py:2743-2819 | a run that reaches the blocks in the code after a tested instruction it never came to |
| PagedSections.ReachWithPagingOn | scripts/gen_floppy_image.py:2743-2819 | in a test case that leaves paging on all addresses are reached |
| MemoryDiff.SkippedPageHasNoReport | scripts/diff_cpustate.py:250-268 | no word of a skipped page is a difference to be reported |
| MemoryDiff.DiffMemory | scripts/diff_cpustate.py:250-325 | for any dumps of any lengths: an error exactly when a difference to be shown is cut short by the end of a dump; otherwise the words shown are, in ascending order, exactly the words compared, three kernel addresses aside, that are not one common word but for dumps in which they are unknown, and the words recorded are, in ascending order, exactly those that differ on pages that are not one common page in this sense |
| MemoryDiff.ReportedExactlyWhen | scripts/diff_cpustate.py:268-281 | a word is shown if and only if it is not at one of three kernel addresses and there is no word that every dump either holds there or has marked as unknown |
| MemoryDiff.KnownDifferenceIsShown | scripts/diff_cpustate.py:268-281 | two known words that differ are always shown |
| MemoryDiff.RecordedExactlyWhen | scripts/diff_cpustate.py:268-325 | a word is recorded if and only if it is reported or differs only from unknown memory on a page that is not skipped |
| MemoryDiff.EqualDumpsScan | scripts/diff_cpustate.py:250-325 | for dumps of equal length the scan is that of the words inside them |
| MemoryDiff.EqualDumpsBreak | scripts/diff_cpustate.py:271-281 | for dumps of equal length the error occurs if and only if the length is no multiple of four and the last word is a difference to be shown |
| Intervals.SortSorts | scripts/common.py:147-160 | the sorted list is ordered and a permutation |
| Intervals.Uncluster | scripts/common.py:162-170 | all numbers of all intervals, in order |
| Intervals.Cluster | scripts/common.py:147-160 | unclustering the result gives the sorted input; without repetitions the intervals are separated, hence maximal |
| Intervals.FlattenCovers | scripts/common.py:162-170 | a number is among the unclustered ones exactly when an interval covers it |
| Intervals.ComputeMissingLocs | tools/emuFuzzBall/run-emu-fuzzball.py:281-285 | the intervals cover exactly the physical bytes that are neither symbolic nor concrete |
| SymbolicMemory.MakeMemSymbolic | tools/emuFuzzBall/run-emu-fuzzball.py:124-162 | for any masks: every byte is marked, symbolic if its mask leaves bits free and concrete otherwise, and no other byte is |
| SymbolicMemory.MakeMemConcrete | tools/emuFuzzBall/run-emu-fuzzball.py:167-175 | for any size: every byte is marked concrete, and no other byte is |
| SymbolicMemory.MarkDirectoryEntry | tools/emuFuzzBall/run-emu-fuzzball.py:627-662 | one directory entry and its table, unless done before, are marked |
| SymbolicMemory.MarkPageTables | tools/emuFuzzBall/run-emu-fuzzball.py:625-662 | exactly the bytes of the directory and of the tables in use are marked, each by its kind, even with recursive mappings |
| SymbolicMemory.ClassifyMemory | tools/emuFuzzBall/run-emu-fuzzball.py:625-692 | whatever was marked before: the marks added are those of the directory and the tables, by their kind, and the intervals cover exactly the unmarked bytes |
| SymbolicMemory.MarkedOneWayExactlyWhen | tools/emuFuzzBall/run-emu-fuzzball.py:541-692 | a byte is marked if and only if it was before or lies in the tables, and in one way only if and only if its earlier marks agree with each other and with its kind there |
| Printf.DigitsDenote | Kernel/kprintf.c:92-98 | the digits produced denote the number |
| Printf.TenDigitsSuffice | Kernel/kprintf.c:66-67 | a 32-bit number has at most ten digits, so that sign and terminator fit the buffer |
| Printf.PrintS | Kernel/kprintf.c:37-64 | the string padded to the width on the side asked for; the count is that of the characters emitted |
| Printf.WriteDigits | Kernel/kprintf.c:89-98 | the digits end at the terminator, inside the buffer, with room for a sign |
| Printf.PrintI | Kernel/kprintf.c:69-111 | emits the field of the number and counts its characters; no write leaves the buffer |
| Printf.OutputIsText | Kernel/kprintf.c:69-111 | the field is sign, digits and padding on the side asked for, where the digits are the canonical numeral of the number |
| Printf.CanonicalIsUnique | Kernel/kprintf.c:92-98 | a string of digits 0 to 9 and letters from the base letter on, without leading zero, is the numeral of its value |
| Printf.OutputLength | Kernel/kprintf.c:69-111 | the field is as long as the width, or as sign and digits if these are longer |
| Printf.ReadsBackExactlyWhen | Kernel/kprintf.c:69-111 | the output reads back as the number, signed or modulo 2^32, unless zeros were appended on the right of a number other than zero |
| Printf.RightZeroPadding | Kernel/kprintf.c:113-141 | a number for which they were |
| ElfSections.SortSorts | scripts/elf.py:143-146 | sorting orders the sections by address and keeps all of them |
| ElfSections.DisjointIsSearchable | scripts/elf.py:157-182 | sections that at most touch meet this condition for every address |
| ElfSections.ProbeFinds | scripts/elf.py:166-182 | an answer always holds the address; where the last section that starts at or below the address holds it, or none does, there is one if and only if some section does |
| ElfSections.ProbeExactly | scripts/elf.py:166-182 | an answer is found if and only if one of the sections on the path of the bisection to the number of sections that start at or below the address holds it |
| ElfSections.Bisect | scripts/elf.py:166-182 | the loop makes the probes of that search, and ends |
| ElfSections.FindByName | scripts/elf.py:185-191 | the first section of that name, or nothing exactly when there is none |
| ElfSections.File.AddSection | scripts/elf.py:143-146 | the table is ordered and is the old one with the new section; an ordered table gets it behind all sections that start at or below its address |
| ElfSections.File.FindSection | scripts/elf.py:157-193 | the search by address or name; the whole table for no query, address zero or an empty name |
| ElfSections.NestedSectionHides | scripts/elf.py:166-182 | a table in which the search misses an address that a section holds |
| Base32.SymbolsRoundTrip | scripts/common.py:217-226 | regrouping bytes into five-bit symbols and back loses nothing |
| Base32.PaddingIsLegal | scripts/common.py:217-226 | the padding is one of those the decoder accepts |
| Base32.RoundTrip | scripts/common.py:217-226 | decoding an encoded label gives the label (RFC 4648, section 6) |
| Base32.EncodingDenotes | scripts/common.py:217-226 | the text is padded to a multiple of eight, and its letters, read as digits to the base 32, denote the number that the bytes denote to the base 256, shifted to full letters |
| Base32.DecodeExactly | scripts/common.py:217-226 | a text is decoded if and only if its length is a multiple of eight, its padding one of the five legal ones and the rest of the alphabet; the bytes are those whose number is the leading bits of the number that the text denotes |
| Base32.LabelsAreNames | scripts/common.py:217-226 | an encoded label contains no separator of names or lines |
| VarNames.SplitOfJoin | scripts/common.py:386-396 | splitting undoes joining when no part contains the separator |
| VarNames.JoinOfSplit | scripts/common.py:386-396 | joining undoes splitting, and no part contains the separator, for every text |
| VarNames.RegisterNames | tools/emuFuzzBall/run-emu-fuzzball.py:237-237 | the shape of the names of register bytes |
| VarNames.MemoryNames | tools/emuFuzzBall/run-emu-fuzzball.py:128-128 | the shape of the names of memory bytes |
| VarNames.AddressRoundTrip | scripts/gen_floppy_image.py:2623-2624 | the name of a memory cell reads back as its address |
| VarNames.IntegersRoundTrip | scripts/common.py:398-406 | decimal and prefixed hexadecimal numbers are read back |
| VarNames.NumeralsExactly | scripts/common.py:398-406 | decimal, hexadecimal and eight-digit hexadecimal texts are the numerals of the number |
| VarNames.IntTextIsRead | scripts/common.py:398-406 | any text made of blanks, a sign, a prefix that the base allows, digits and blanks is read as the number that these denote |
| VarNames.ReadTextIsInt | scripts/common.py:398-406 | and every text that is read has this form |
| VarNames.LineSplits | scripts/common.py:386-396 | a printed line splits into name and value, and the name into its six parts |
| VarNames.LineIsRecognised | scripts/common.py:386-389 | stripping leaves a printed line alone and it is not skipped |
| TestCaseInputs.InputLineExactly | scripts/common.py:386-406 | a line of six parts and a value is loaded if and only if its label and numbers can be read and the byte can be stored; the size is needed only for a new variable |
| TestCaseInputs.OtherLineExactly | scripts/common.py:386-396 | every other line is passed over, or an error if it begins like one |
| TestCaseInputs.StoreExactly | scripts/common.py:398-406 | recording one byte succeeds if and only if label, index and value are in order; it changes that byte of that variable and nothing else |
| TestCaseInputs.LoadFuzzballTc | scripts/common.py:376-410 | the two dictionaries filled line by line, with signs, blanks and indices from the end as the source reads them, or an error exactly when a line is in error |
| TestCaseInputs.LoadOfLine | scripts/common.py:386-406 | a printed line records its byte |
| TestCaseInputs.LoadOfFile | scripts/common.py:376-410 | a printed file, with any other lines between, records exactly its entries |
| TestCaseInputs.LoadedExactly | scripts/common.py:398-406 | loading succeeds if and only if the entries of each variable agree in label and stay inside its size; then the dictionary holds exactly the variables named, with exactly the bytes given |
| TestCaseInputs.GivenExactly | scripts/common.py:398-406 | the byte a file gives is that of the last entry for it, if there is one |
| TestCaseInputs.FileRoundTrip | scripts/common.py:376-410 | for any selection of bytes of registers and memory cells, loading the file gives back those bytes, under their kind, name and label, and no others |
| TestCaseInputs.TwoLabelsFail | scripts/common.py:405-405 | a file that names a cell under two labels cannot be loaded |
| TestCaseInputs.Merge | scripts/gen_floppy_image.py:2581-2591 | given bytes where there are some, original ones elsewhere |
| TestCaseInputs.BytesOfWord | scripts/gen_floppy_image.py:2566-2579 | unpacking a packed word gives its bytes |
| TestCaseInputs.WordHoldsBytes | scripts/gen_floppy_image.py:2566-2579 | a packed word is below 256^n, and its quotient by 256^i modulo 256 is byte i: the first byte is the lowest |
| TestCaseInputs.LoadRegister | scripts/gen_floppy_image.py:2596-2622 | from the file to the register: the value is below 256^n and its quotient by 256^i modulo 256 is byte i as given last in the file, or as in the snapshot |

## Left out

- Instruction decoding, the x86 text of gadgets, assembling, linking, floppy images, GRUB, compression and file access:
  foreign tools. An instruction is a list of operands with sizes and read/write flags; its effect is any function.
- Aliasing of AL, AH and AX in `Register.__eq__`: locations are whole registers.
- Sorting gadgets of equal rank by mnemonic: the theorems hold for every order that respects the dependencies.
- SetUpRuns.SetUpReachesTarget: for set-up gadgets sorted on their own, as the source sorts `param` in modes 0 and 1,
  where there are no backup and input gadgets. In the Feistel modes `param` is sorted together with them, and input
  gadgets define registers of the test case again; `SetUpRuns.JointRunSetsItem`, `JointSetUp.EarlyPartDelivers` and
  `JointSetUp.LatePartDelivers` say what the locations set once end with. A register that both the test case and an
  input gadget set is not covered: no dependency orders the two.
- JointSetUp.SortJointly: for the lists of `pre` and of the first test case's `startup`. The joint list of output code
  and restores in `post` is not covered. Memory operands are known by their text, and are never blocks.
- SetUpRuns.CompileTestCase: likewise for modes 0 and 1; the revert gadgets are sorted on their own in all modes.
- The gadget for EIP, which changes nothing although it declares a definition: EIP is not a location.
- FeistelSpills.SpillsExactly: for the block by block code; scratch words and wide stores are not combined. Stack
  registers of the floating-point unit are read back from their scratch words after earlier stores; that these stores
  may hit the scratch words is not modelled, nor are scratch words drawn outside the output code. What a spill leaves in
  its scratch word is any value, whereas in the source it is the output itself: the condition is exact for all contents,
  and a program whose outputs happen to equal what the word held is not told apart.
- FeistelSpills.HarmfulRound: the wrong aggregate comes from contents of the scratch word that are chosen freely, not
  from an output of the instruction.
- Recovery.LoopCountIsKept: the loop counter is changed by the loop alone. A scratch word may fall on its cell
  (`FeistelScratch.EveryBlockCanBeDrawn`) and change the number of passes.
- FeistelEmission.StoresComputeRound: sufficient for the round. A wide store that does not fit may still be harmless
  when its stray words are overwritten or belong to no block; which ones are is stated for scratch words only
  (`FeistelSpills.SpillsExactly`). Words of an `xmm` register beyond its operand are taken as zero. That wide inputs are
  loaded from consecutive words of R, and `mm` inputs with 4 bytes, is not modelled: the inputs of an instruction are
  the contents of the R blocks.
- `get_addr(0)`, which returns an address without reserving it, is modelled in `FeistelBlocks.Blocks.GetAddr` but no
  caller asks for it.
- Operands that the handlers skip (memory reads of POP, for instance) count as neither read nor written; that inputs and
  outputs are saved and restored once per operand text is not modelled.
- The mask applied to the flags as an input, which edits R in place before the instruction.
- Handlers.Kernel.Handle: vectors 2, 5 and 32, which do not redirect, are modelled as doing nothing.
- PagedSections.ReachWithPagingOff: the tested instruction is taken to leave CR0.PG alone, and inputs that load CR0 with
  the paging bit set are outside the test cases considered; `PagedSections.ReachExactlyWhen` covers both.
- The register writes of `enable_paging`, and GDT field packing.
- The stores to the return-point cell themselves are taken not to fault.
- Entries of paging structures that point outside the dump, and which descriptor-table bytes are marked before the walk:
  `SymbolicMemory.ClassifyMemory` starts from any marks.
- The kernel's parsing of format strings, and field widths that overflow an `int`.
- TestCaseInputs.LoadFuzzballTc: numbers with a blank between sign and digits are errors.
- Symbol names and formatting in the report of differences; registers and other parts of the dumps; `normalize_states`.
- `cluster_sub2`, `delSection`, `memoizable`, the console, `kvm-run`, the old WhiteBochs wrappers, and duplicated copies
  of modules: easy or unused.
- Sorting in Python is modelled by insertion sort; only order, stability and content matter.
