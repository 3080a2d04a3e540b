# A verified model of Rosa's translation core

Rosa runs x86_64 programs on AArch64 by translating basic blocks. This project models, in Dafny,
the places where Rosa replaces a simple computation by a fast one, and proves that the fast form
means the same: which flag updates the back end leaves out, where it keeps SSA values, how it
encodes and patches code, how translations are saved, moved and cached, how packed pointer chains
are rewritten in place, and how addresses, code memory and Mach port names are given out.

`dafny verify dfyconfig.toml` checks everything. Each module is one file.

## The parts

**Compiling a block.** `IR` is the SSA form with an interpreter that does every flag update where
it is written. `FlagPasses` is the compiled block: dead updates left out, Equal and NotEqual
answered from an SSA value, logic updates sunk into the slow path of a byte load.
`FlagSimulation` proves that it ends as the interpreter does.
`LinearScan` gives values the registers x8..x15 and `RegisterRun` runs the compiled block on them.
`SelfLoop` is the loop inside the emitted code with its deferred compare. `ExactFlags` says where
its flags word is exact; `DeferredExit` and `LoopTheorem` relate it to repeated eager runs;
`ServedReaders` is a loop that reads flags in every pass and is covered; `StaleReaders` and
`LateFaults` are two families of blocks for which it is not the eager loop (see below). The whole
chain: text of the block, to decisions, to registers, to any number of passes.

**From instructions.** `X86` carries out a few x86 instructions on integers: moves, loads, stores,
additions and subtractions with and without carry, increments, tests, conditional moves, jumps,
calls and system calls. `Lowering` is what they are lowered to, and `LoweredInstructions` proves each.
`LoweredBlocks` and `LoweredDifferences` prove that the result is a block as the verifier and the loop
want it, `LoweringTheorem` that a compiled program does what its instructions do, and `ProgramLoops`
the same for a program that jumps back to its start. `LoopRuns` says what the loop is, run by run,
without the loop's own test.

**Flags.** `Flags` is the flags word and its conditions, `FlagHelpers` the C++ helpers against
integer definitions, `InlineFlags` the emitted sequences step by step, `Compare` the host's NZCV,
`CarryChain` arithmetic on numbers of any length. The definitions follow section 3.4.3.1 and
Appendix B of the Intel 64 and IA-32 Architectures Software Developer's Manual, Volume 1.

**Code as bytes.** `MoveWide` and `Branches` give instruction words a decoder of their own, from
section C6.2 of the Arm Architecture Reference Manual (DDI 0487), so that what the assembler
emits is judged by what it decodes to. `Assembler` is the class with its label and pointer
tables, `ByteOrder` the little-endian readers and writers, `Relocation` moves a program's pointers in
place, `PersistentCodec` is the file format, its writer and its reader, and `FileLayout` where each field
stands.

**Caches.** `BlockCache` has the three indices, the persistent blocks and the dispatcher's
direct-mapped cache as objects that share blocks by reference. `CachedTranslations` joins it to
the file: what another process has saved is what this one would translate, and a process that
opens, runs and saves loses nothing.

**Chains in pages.** `SlideInfo`, `SlidePages` and `LazyPages` are shared-cache slide info version 2
as the loader has it, and `SlideAcceptance` says which slide info it accepts. `SlideEncoding`,
`SlideSplitting`, `SlideTables` and `SlideRoundTrip` are its inverse, from a list of pointers per page
to chains, tables and a whole image, and the round trip.
`LinkFixups` is the page walk of `map_with_linking`; `LinkEncoding` and `LinkBlobs` write the words
and the tables that it reads, for the round trip.

**Allocators.** `PortSpace` and `PortTraps` are the port namespace and the traps on it, `TrapAnswers`
says on its own when each status is given and what changes, `MachDispatch` is the dispatcher object.
`AddressSearch` has the two first-fit searches, `CodeArena` is the arena for executable code and
`CodeRoom` says when it has room, `WriteSpan` is the guard that lets a loop of byte stores skip its
checks.

`Words` defines 64-bit words as numbers with their binary digits, and proves what masks, shifts
and wrap-around mean; `Options` is the usual option type.

## Assumptions

They are parameters or preconditions in the text, never unproved statements.

- A block satisfies what `ir::verify` checks, and a flag update defines no value.
- The subtract update that a loop defers has the 64-bit difference of its other two operands as its
  third (`DeferredExit.RecordsItsDifference`), as the lowering of compares, subtractions and negations
  writes it (`src/x86/Lowering.cpp:2487-2592`, `5323-5480`). The code does not check this;
  `LoweredDifferences.LoweredRecords` proves it of every program lowered in the model.
- The values of shifts, multiplications and similar pure operations, the flags that shifts,
  rotates, multiplications and bit tests replace, and the effect of all other operations are given by
  an arbitrary `Host`. Partial updates may replace only arithmetic flags.
- The host's bitwise `and` is one (`LoweredInstructions.ComputesAnd`), where programs are lowered.
- A translation depends only on the source bytes it consumed (`DependsOnPrefix`), and two processes
  translate alike but for moved pointers (`MovesWithAnchor`; what `Relocation.RelocatedIsReemitted`
  shows of emitted programs). One executable version of the address space has one content (`text`).
- Offsets of relocations are at least 16 bytes apart, as the assembler records them.
- Guest mappings end below 2^64, so the last page is never mapped; a direct memory window does
  not wrap.

## Where the code does less than one might expect

Each is a lemma with the exact condition or a concrete family of inputs.

- *Deferred exit.* `deferredExitFlagUpdate` accepts blocks in which a test stands behind the compare,
  or in front of it without an emitted full update before. An unfused test then reads the flags
  word that the loop was entered with. A fused one reads the skipped difference, which
  `emittedUseCounts` does not know about. `LoopTheorem.CompiledLoopIsEager` holds without such tests
  (`ExactFlags.NoStaleReader`, a property of the block's text). For `cmp; setcc; jne` with any
  condition `StaleReaders.StaleReadersDiffer` and `StaleReaders.StaleLoopDiffers` say exactly when
  the result is wrong.
- *Faults in a deferring loop.* From the second pass on a fault can show arithmetic flags of the
  loop's entry. `LateFaults.LateFaultShowsEntryFlags` is a loop that does, with the exact condition
  under which the flags word differs; `LoopTheorem.CompiledLoopIsEager` says when faults are exact.
- *Slide delta mask.* `parseSlideInfo2` accepts 0xFFFFFFFFFFFFFFFC, under which a step can wrap
  around 2^64 and lead backwards. `SlideInfo.OnlyTheWidestMaskWraps`: it is the only such mask.
- *Trap 19* can take a cached host, thread, bootstrap or clock port to zero references without
  erasing it; from then on no request for that object gives a port. `PortTraps.StuckExactly` and
  `PortTraps.StuckAfterRun` say exactly which traps do that, `PortTraps.StrandedForever` that it
  lasts.
- *The cache file's writer* does not check the limits that its loader enforces, so saving and
  loading is the identity exactly under `Restorable` (`PersistentCodec.SaveThenLoad`).
- *The address searches* accept a gap in front of a mapping without looking at the limit. With
  a mapping above the limit, which fixed placement in trap 15 can create, they may answer with a
  range past it; `AddressSearch.AnswerIsLeastFree` has the exact condition.

## Model

| member | source | states |
|---|---|---|
| FlagSimulation.CompiledBlockIsEager | src/arm64/Backend.cpp:38-206 | main result: for every well-formed block, with fusing and sinking on or off, for every choice of fast and slow loads and whatever the value cells hold on entry, the block compiled with dead updates left out, zero-flag tests fused and logic updates sunk ends exactly like the interpreter that updates flags where they are written: same exit or same faulting RIP, same registers, memory and flags word |
| FlagSimulation.PassSimulation | src/arm64/Backend.cpp:1291-1296 | the invariant behind it, at every operation: the compiled flags word equals the eager one, or the difference is hidden by an update that replaces it before anything looks, and a pending sunk update restores it |
| LoweringTheorem.CompiledProgramIsProgram | src/x86/Lowering.cpp:60-5848 | main result: for any sequence of the modelled instructions and any exit, the block that the lowering makes of them, compiled in any way, ends as the instructions do when each is carried out on integers: a register gets the sum or difference modulo 2^w with the rest of the register kept at 8 and 16 bits and cleared at 32, the flags word gets the six flags of the integer operation and keeps its other bits, a system call leaves the next RIP in RCX and the flags word in R11, and a fault is at the instruction whose memory is missing, with all state in front of it |
| LoweringTheorem.AllocatedProgramIsProgram | src/arm64/Backend.cpp:244-331 | main result: the same on host registers x8..x15, for any allocation and any contents at the start |
| LoweringTheorem.LoweredProgramIsProgram | src/arm64/Backend.cpp:1304-3631 | the same for the interpreter of the SSA form: what an `Add`, a `Sub`, a register write, a load, a store, a test, each flag update and each exit does is fixed by integer arithmetic, not by the interpreter's own definitions |
| LoweredInstructions.InstructionMeaning | src/x86/Lowering.cpp:60-5592 | for every modelled instruction at every accepted operand size, its operations have exactly its effect on registers, flags word and memory, or stop at it |
| LoweringTheorem.ExitMeaning | src/arm64/Backend.cpp:3593-3631 | each exit leaves the RIP, RCX and R11 that the instruction asks for, with the condition of a branch taken from the flags by its x86 meaning |
| LoweringTheorem.StoreThenLoad | src/x86/Lowering.cpp:101-211 | a load behind a store through the same register gives the stored part back at every width, also where the address wraps around |
| LoweringTheorem.StoredIsLoaded | src/x86/Lowering.cpp:101-211 | the little-endian bytes of a store read back as the stored value modulo 2^w |
| LoweredBlocks.LoweredIsWellFormed | src/ir/IR.cpp:1596-1610 | the lowered block satisfies the verifier: values defined once, before use, and one exit at the end, for any program |
| FlagPasses.FindZeroFlagSource | src/arm64/Backend.cpp:178-190 | the backward scan gives the value of the nearest flag update, and nothing if an operation that does not keep it comes in between |
| FlagPasses.IsDeadFlagUpdate | src/arm64/Backend.cpp:362-385 | the forward scan says dead exactly if the update replaces all six flags, has a value to fuse with when tests are fused, and is followed by pure operations and fused tests up to another full update |
| FlagPasses.LogicFlagSinkTarget | src/arm64/Backend.cpp:143-166 | the loop that remembers its candidate load gives the recursive meaning: the first non-pure operation is a byte load after which only pure operations come before a full update |
| FlagPasses.SunkLogicFlagUpdateAt | src/arm64/Backend.cpp:168-176 | the update found for a load is the one and only update sunk to it, and one is found whenever one exists |
| FlagPasses.SinkTargetUnique | src/arm64/Backend.cpp:143-176 | a load receives at most one sunk update |
| FlagPasses.SunkIsNotDead | src/arm64/Backend.cpp:143-166 | no update is both dropped as dead and sunk |
| FlagPasses.DeadMeaning | src/arm64/Backend.cpp:362-385 | without recursion: an update is dropped if and only if some later update replaces all flags and every operation between them is pure or a fused test, and fused tests have a source |
| FlagPasses.ZeroFlagSourceMeaning | src/arm64/Backend.cpp:178-190 | a fused test finds the source of the last update in front of it exactly if nothing in between may change the recorded value |
| FlagPasses.SinkMeaning | src/arm64/Backend.cpp:143-166 | an update is moved to a load if and only if that load is the first operation behind it that is not pure, and only pure operations come before the next full update |
| FlagSimulation.UpdateZeroFlag | src/arm64/Backend.cpp:38-59 | ZF after each update that has a zero-flag source says whether that source is zero at the update's width |
| FlagSimulation.FlushRestores | src/arm64/Backend.cpp:3088-3097 | on the slow path of a byte load the flags word equals the eager one, so a fault there shows exact flags |
| IR.UpdateKeepsSystem | src/dbt/FlagHelpers.cpp:11-582 | no flag update changes a bit outside the arithmetic flags and the reserved one |
| IR.PureIgnoresFlags | src/arm64/Backend.cpp:118-141 | an operation counted as pure computes the same value and registers for any flags word and leaves memory and flags alone |
| RegisterRun.RegistersRefineEager | src/arm64/Backend.cpp:244-331 | main result: running the compiled block on any allocation into x8..x15, whatever the registers hold on entry, is the eager run on SSA values |
| RegisterRun.RegisterPass | src/arm64/Backend.cpp:244-331 | at every operation each value that is still needed is in its register, also when an update is deferred and its subtraction skipped |
| RegisterRun.WroteApart | src/arm64/Backend.cpp:299-330 | a result never shares a register with a value used at its own definition or later, so code may write the result before it has read all operands |
| LinearScan.FindLastUses | src/arm64/Backend.cpp:247-297 | the table holds, for each value, the last position at which emitted code touches it, lengthened for fused tests, sunk updates and the deferred update; both that it covers every touch and that it is attained |
| LinearScan.AllocateHostRegisters | src/arm64/Backend.cpp:299-330 | succeeds exactly if no definition point has more than eight values in closed live ranges; then every value has one of x8..x15 and values live together have different ones; otherwise it names a point with nine |
| LinearScan.TooManyLive | src/arm64/Backend.cpp:299-330 | eight occupied slots and one more result are nine live values |
| LinearScan.LiveValuesPlaced | src/arm64/Backend.cpp:299-330 | the slots hold every live value, each in its own register, so at most eight are live |
| LinearScan.UsesInTable | src/ir/IR.cpp:1596-1610 | in a block that the verifier accepts every result and operand is inside the value table, so the allocator's range check cannot fire |
| LoopTheorem.CompiledLoopIsEager | src/arm64/Backend.cpp:3632-3806 | main result: a self-looping block compiled with the plan that `compile` makes, on allocated registers, for any budget and any stop condition, ends as the same number of eager runs: same exit, remaining budget, RIP, registers, memory and flags word, provided no test reads the skipped difference or flags that the pass has not emitted (`NoStaleReader`) and the deferred update's third operand is the 64-bit difference of its other two (`RecordsItsDifference`); a fault differs at most in arithmetic flags, and in nothing if no update is deferred, in the first pass, or if every memory operation stands behind an emitted full update |
| LoopRuns.EagerLoopIsRuns | src/arm64/Backend.cpp:3632-3835 | main result: with s_0 the entry state and s_k+1 what a run from s_k leaves, a loop whose exit is a conditional or direct jump leaves after the least n of at least one for which s_n is elsewhere, the 64-bit budget minus n is 0 or a stop is requested, with that budget and that state; or it faults as the run behind n faults |
| LoopRuns.LoopIsUnique | src/arm64/Backend.cpp:3632-3835 | that fixes n and the outcome |
| LoopRuns.EagerLeavesAtOnce | src/arm64/Backend.cpp:3822-3846 | returns, calls and system calls leave after one run with the budget untouched |
| LoopRuns.CompiledLoopIsRuns | src/arm64/Backend.cpp:3632-3835 | main result: the same for the emitted loop on allocated registers; only a fault behind a deferred update may show other arithmetic flags |
| ProgramLoops.CompiledLoopIsProgram | src/arm64/Backend.cpp:3632-3835 | main result: the emitted loop over a lowered program, without a test that reads flags the pass has not emitted, is runs of its instructions, as many as budget, stop request and jump allow |
| LoweredDifferences.LoweredRecords | src/x86/Lowering.cpp:2487-2592 | in the block of any program, whatever its instructions, every 64-bit subtract update has the difference of its other two operands, computed earlier in the block, as its third: what the deferring loop takes for granted |
| ProgramLoops.LoweredLoopIsProgram | src/arm64/Backend.cpp:3632-3835 | the same for the loop over eager runs, for any lowered program that ends in a jump |
| LoopTheorem.PlanDefers | src/arm64/Backend.cpp:208-234 | whenever the plan defers an update, and the two stated assumptions hold, all that the deferral proof needs follows from the scans |
| LoopTheorem.SkippedHasOneUse | src/arm64/Backend.cpp:426-460 | one counted use means the skipped difference is read by the deferred update alone, provided no fused test reads it |
| SelfLoop.LoopIsEager | src/arm64/Backend.cpp:3748-3806 | without a deferred update the emitted loop equals the eager loop, faults included |
| SelfLoop.FindZeroFlagUpdate | src/arm64/Backend.cpp:192-206 | the scan gives the nearest update that has a zero-flag source, with only preserving operations after it |
| SelfLoop.CountEmittedUses | src/arm64/Backend.cpp:426-439 | the counts are the number of mentions of each value in the updates and operations that are not dead |
| DeferredExit.OwingPass | src/arm64/Backend.cpp:1291-1302 | during a pass the eager flags word is the compiled one with the deferred update applied, and all other state agrees; a fault shows exact flags wherever the word is exact |
| ExactFlags.ExactStep | src/arm64/Backend.cpp:1291-1302 | behind an emitted full update the word of a deferring loop, entered with any flags, is exact wherever something looks: the single-pass simulation holds there, faults included |
| ExactFlags.BecomesExact | src/arm64/Backend.cpp:112-116 | an emitted update that replaces all six flags makes it so |
| DeferredExit.UnfusedMeetsFlags | src/arm64/Backend.cpp:1436-1462 | so a test that reads the flags word in front of the deferred update reads what the eager loop has |
| DeferredExit.ExitAgrees | src/arm64/Backend.cpp:3632-3693 | `cmp` answers the exit as the eager flags word would, and the subtraction and update made up for on the way out, in the allocated registers, give exactly the eager flags word |
| DeferredExit.OperandsSurvive | src/arm64/Backend.cpp:3792-3800 | recomputing the skipped difference into its register does not destroy the operands that the flag update reads next |
| DeferredExit.DeferringLoop | src/arm64/Backend.cpp:3748-3806 | any number of passes of the deferring loop agree with as many eager passes; the remaining budget is the termination measure |
| StaleReaders.SetPlan | src/arm64/Backend.cpp:449-460 | for `cmp; setcc; jne` as the front end lowers it, the plan defers the compare and skips its subtraction although the test follows |
| StaleReaders.StaleReadersDiffer | src/arm64/Backend.cpp:208-234 | for all 16 conditions, every entry state and every register contents: the compiled pass over compare, set and jump ends with the eager registers if and only if the answer from the stale register (Equal, NotEqual) or from the entry flags (all others) happens to be what the comparison says |
| StaleReaders.StaleLoopDiffers | src/arm64/Backend.cpp:3748-3806 | the same if and only if for the whole emitted loop, for all operands, any allocation, budget and stop condition, and so for any number of passes: exit, remaining budget, registers, memory and flags word agree exactly if the stale answer is the right one |
| StaleReaders.SetBlockHasStaleReader | src/arm64/Backend.cpp:208-234 | the assumption of the loop theorem excludes every block of this family |
| ServedReaders.TestBehindUpdateIsAdmitted | src/arm64/Backend.cpp:208-234 | a loop that adds, tests any flag of the sum but a fused zero flag, compares and repeats itself meets the assumptions of the loop theorem |
| LateFaults.LateFaultShowsEntryFlags | src/arm64/Backend.cpp:1297-1302 | a loop that faults in its second pass shows the flags word of the loop's entry, the eager loop the six flags of the first comparison; the two faults are equal if and only if the comparison leaves the flags word as it was, and all other state agrees |
| Compare.DeferredConditionAgrees | src/arm64/Backend.cpp:3635-3690 | for all 14 non-parity conditions and all operands: the branch after `cmp`, the x86 condition on the 64-bit subtract flags and the comparison of the numbers are one |
| Compare.ParityHasNoHostFlags | src/arm64/Backend.cpp:219-224 | two subtractions with the same N, Z, C, V and different parity: why parity exits are never deferred |
| Flags.TestsMeanConditions | src/arm64/Backend.cpp:3692-3746 | each sequence of bit tests on the flags word, also the one that folds OF under SF by a shift and an exclusive or, decides the condition as the manual defines it |
| Flags.MaterialisedFlags | src/dbt/FlagHelpers.cpp:11-34 | a full update records exactly its six flags |
| Flags.SystemOfMaterialise | src/dbt/FlagHelpers.cpp:11-34 | a full update keeps every other bit, sets the reserved one and erases all trace of earlier arithmetic flags |
| FlagHelpers.UpdateAddFlags | src/dbt/FlagHelpers.cpp:11-124 | the new flags word; and when the result is the wrapped sum, its six flags are those of the integer sum (CF a carry out, AF a carry out of the nibble, OF a signed overflow), at all four widths |
| FlagHelpers.UpdateSubFlags | src/dbt/FlagHelpers.cpp:402-515 | the same for the integer difference |
| FlagHelpers.UpdateAdcFlags64 | src/dbt/FlagHelpers.cpp:196-224 | flags of the integer sum with carry in, for every carry argument |
| FlagHelpers.UpdateSbbFlags64 | src/dbt/FlagHelpers.cpp:325-353 | flags of the integer difference with borrow in |
| FlagHelpers.UpdateLogicFlags | src/dbt/FlagHelpers.cpp:517-582 | CF, AF and OF clear, the other three from the result, at all widths |
| FlagHelpers.UpdateStepFlags | src/dbt/FlagSemantics.h:12-62 | an increment or decrement keeps CF and all system bits, and its other flags are exact when the result is the true successor or predecessor |
| FlagHelpers.AddFormulaIsSum | src/dbt/FlagHelpers.cpp:11-124 | the exclusive-or and comparison formulas are the integer definitions whenever the result is the wrapped sum |
| FlagHelpers.SubFormulaIsDifference | src/dbt/FlagHelpers.cpp:402-515 | likewise for subtraction |
| FlagHelpers.AdcFormulaIsSum | src/dbt/FlagHelpers.cpp:126-224 | likewise for add with carry, where CF is found by two wrap-around tests at 64 bits and in a wider word at 8 and 32 |
| FlagHelpers.SbbFormulaIsDifference | src/dbt/FlagHelpers.cpp:226-353 | likewise for subtract with borrow at all widths |
| FlagHelpers.StepFormulaIsExact | src/dbt/FlagSemantics.h:12-62 | increment and decrement formulas are the integer definitions, apart from CF |
| InlineFlags.RunAddFlags | src/arm64/Backend.cpp:3227-3304 | the emitted sequence, run register by register, gives the flags word of the add formula at all four widths |
| InlineFlags.RunSubFlags | src/arm64/Backend.cpp:1231-1286 | the emitted 64-bit subtract sequence gives the flags word of the C++ helper; so does the masked 8-bit one |
| InlineFlags.RunLogicFlags | src/arm64/Backend.cpp:1186-1229 | the emitted logic sequence gives the flags word of the C++ helper at all four widths |
| InlineFlags.RunDecFlags64 | src/arm64/Backend.cpp:3436-3479 | the emitted 64-bit decrement gives the flags word of the C++ helper although it leaves out one exclusive or |
| InlineFlags.InlineAddIsExact | src/arm64/Backend.cpp:3227-3304 | on a true sum the emitted sequence, the C++ helper and the integer definition agree on the whole flags word |
| InlineFlags.ParityFoldIsParity | src/arm64/Backend.cpp:1212-1218 | folding a word by 4, 2 and 1 leaves in bit 0 the complement of x86 parity |
| CarryChain.RunAdcChain | src/dbt/FlagHelpers.cpp:196-224 | threading CF through the flags word, limb by limb, is the chain of steps |
| CarryChain.AdcChainIsSum | src/dbt/FlagHelpers.cpp:196-224 | for any number of limbs the result limbs and the final CF are the exact sum of the whole numbers |
| CarryChain.AdcChainOverflow | src/dbt/FlagHelpers.cpp:196-224 | the final OF is the signed overflow of the whole number |
| CarryChain.SbbChainIsDifference | src/dbt/FlagHelpers.cpp:325-353 | likewise the exact difference and final borrow |
| CarryChain.SbbChainOverflow | src/dbt/FlagHelpers.cpp:325-353 | likewise its signed overflow |
| MoveWide.DecodeEncode | src/arm64/Assembler.cpp:74-114 | every MOVZ, MOVN and MOVK word decodes to the instruction it was made from |
| MoveWide.EncodeDecode | src/arm64/Assembler.cpp:74-114 | and every word that decodes to one is its encoding |
| MoveWide.MovImmediate | src/arm64/Assembler.cpp:74-114 | the emitted words, executed from any register contents, leave the constant in the register, and their number is the cost function |
| MoveWide.Shortest | src/arm64/Backend.cpp:473-482 | no sequence of such moves that loads the constant is shorter than that cost |
| Branches.PlaceholderDecodes | src/arm64/Assembler.cpp:736-819 | the word emitted for a branch decodes to that branch with displacement 0 |
| Branches.PatchDecodes | src/arm64/Assembler.cpp:901-931 | patching a displacement in range gives the same branch, with its register, condition and bit number, to exactly that displacement |
| Branches.RangeIsExact | src/arm64/Assembler.cpp:736-925 | the accepted registers, bits, conditions and displacements are exactly those that some instruction word decodes to, but for the zero register and the two conditions that always hold |
| Assembler.Assembler.LoadImmediate | src/arm64/Assembler.cpp:74-114 | appends words that load the constant, or nothing for a bad register; the class invariant says that every fixup still is a placeholder and every recorded pointer still stands |
| Assembler.Assembler.LoadPointer | src/arm64/Assembler.cpp:116-151 | appends the four moves and records their byte offset, and keeps recorded pointers apart from each other and from branches |
| Assembler.Assembler.BranchTo | src/arm64/Assembler.cpp:736-819 | appends one placeholder that decodes to the branch and one fixup for it, or nothing for a bad register, bit or label |
| Assembler.Assembler.MakeLabel | src/arm64/Assembler.cpp:717-724 | a new unbound label, until 32-bit names run out |
| Assembler.Assembler.Bind | src/arm64/Assembler.cpp:726-734 | binds an unbound known label to the current word, and refuses every other one |
| Assembler.Assembler.Finish | src/arm64/Assembler.cpp:891-940 | main result: a program exists exactly if every label branched to is bound and in range; then each branch word goes from its own index to its label, every other word is as emitted, all bytes are little-endian words and every recorded pointer is held at its offset |
| Assembler.PointerIsLoaded | src/arm64/Assembler.cpp:116-151 | the four moves load the pointer whatever the register held |
| ByteOrder.BytesRoundTrip | src/dbt/BlockCache.cpp:27-37 | bytes written for a number read back as that number |
| ByteOrder.ValueRoundTrip | src/dbt/BlockCache.cpp:82-90 | a number read from bytes writes the same bytes |
| ByteOrder.ReadWord | src/dbt/BlockCache.cpp:82-90 | the shift-and-or loop gives the little-endian value |
| ByteOrder.WriteWord | src/dbt/BlockCache.cpp:92-98 | writes the value's bytes in place and no other byte |
| Relocation.RelocateProgram | src/dbt/BlockCache.cpp:100-141 | the in-place loop succeeds and produces bytes as the recursive relocation does, for offsets in any order |
| Relocation.CheckPointer | src/dbt/BlockCache.cpp:103-128 | the masks and shifts accept exactly the MOVZ and three MOVKs to x16 at halfwords 0 to 3 and give the pointer they load |
| Relocation.WritePointer | src/dbt/BlockCache.cpp:130-139 | writes the new pointer's four instruction words and no other byte |
| Relocation.RelocationSlides | src/dbt/BlockCache.cpp:100-141 | main result: relocation by a slide succeeds exactly if every offset holds a pointer in x16, and then every pointer is moved by the slide modulo 2^64 and no other byte changes |
| Relocation.RelocationComposes | src/dbt/BlockCache.cpp:100-141 | relocating twice is relocating by the sum of the slides, and by zero changes nothing |
| Relocation.RelocateByZero | src/dbt/BlockCache.cpp:100-141 | for any offsets, spaced or not, relocating by zero leaves every byte as it was |
| Relocation.SlidIsUnique | src/dbt/BlockCache.cpp:100-141 | there is only one program with the moved pointers and the other bytes unchanged |
| Relocation.RelocatedIsReemitted | src/arm64/Assembler.cpp:116-151 | the relocated bytes are those the assembler would have emitted for the moved pointers |
| Relocation.HeldIsRead | src/dbt/BlockCache.cpp:111-128 | what the assembler records as a pointer in x16 is what the relocator reads |
| Relocation.ReadIsHeld | src/dbt/BlockCache.cpp:111-128 | and the other way round |
| PersistentCodec.SaveThenLoad | src/dbt/BlockCache.cpp:198-360 | main result: loading a saved file gives every record once, its program moved from the saved anchor to the current one; it is refused exactly if the file is too big, a record breaks a limit of the loader, an address repeats or a program cannot be relocated |
| PersistentCodec.SaveThenLoadHere | src/dbt/BlockCache.cpp:198-360 | at one anchor saving and loading is the identity: every record comes back unchanged, and no other |
| PersistentCodec.ThreeAnchors | src/dbt/BlockCache.cpp:198-360 | saving at one anchor, loading and saving at a second, loading at a third gives what loading the first file at the third gives |
| PersistentCodec.TakeRecordOf | src/dbt/BlockCache.cpp:213-256 | a written record is read back exactly, with the bytes after it untouched, and refused exactly if it breaks a limit or cannot be relocated |
| PersistentCodec.OtherBuildIsStale | src/dbt/BlockCache.cpp:198-205 | a file of another build is ignored, never misread |
| PersistentCodec.SavedExactlyOnce | src/dbt/BlockCache.cpp:290-360 | every live or loaded address is saved once and a live block wins over a loaded one |
| PersistentCodec.PersistentReader.ReadBytes | src/dbt/BlockCache.cpp:39-80 | the reader consumes exactly what it returns, and nothing when the file is too short |
| PersistentCodec.PersistentReader.ReadInteger | src/dbt/BlockCache.cpp:39-80 | likewise for little-endian integers of 4 and 8 bytes |
| PersistentCodec.PersistentReader.Finished | src/dbt/BlockCache.cpp:39-80 | finished exactly when no byte remains |
| PersistentCodec.ReadRecord | src/dbt/BlockCache.cpp:213-256 | the imperative reader of one record, with every check in the order of the source, is the declarative one |
| PersistentCodec.LoadPersistent | src/dbt/BlockCache.cpp:179-261 | the whole loader, over any bytes whatsoever, gives the blocks of the declarative reader or none |
| PersistentCodec.SaveRecords | src/dbt/BlockCache.cpp:283-360 | the appending loop writes the declarative encoding, or gives up on sizes beyond 32 bits |
| PersistentCodec.SavePersistent | src/dbt/BlockCache.cpp:278-388 | the file holds the live blocks and then the loaded ones that are not live |
| FileLayout.PrologueLayout | src/dbt/BlockCache.cpp:284-304 | the written file starts with the eight magic bytes, then version 2, fingerprint, anchor and number of records at offsets 8, 12, 20 and 28 |
| FileLayout.RecordLayout | src/dbt/BlockCache.cpp:306-339 | every field of a record stands at its own byte offset, flags in bits 0 and 1, and source, program and pointer offsets follow in that order |
| FileLayout.OnlyOwnFiles | src/dbt/BlockCache.cpp:179-212 | for any bytes: ignored as stale exactly if magic, version or fingerprint differ, and loaded only from a file of this build within the limits |
| CachedTranslations.LoadedAreTranslations | src/dbt/BlockCache.cpp:198-276 | whatever is loaded from the file of another process is, at the new anchor, what this process would translate from the source bytes stored with it |
| CachedTranslations.MovedIsFaithful | src/dbt/BlockCache.cpp:243-256 | moving one record to another anchor gives the translation of that anchor |
| CachedTranslations.LiveIsFaithful | src/dbt/BlockCache.cpp:340-350 | the record written for a live block is a translation of its own source bytes |
| CachedTranslations.SavedAreFaithful | src/dbt/BlockCache.cpp:340-360 | so are all records that are written, live or unused |
| CachedTranslations.Reopen | src/dbt/BlockCache.cpp:152-165 | a cache made on such a file satisfies its invariant, whatever the build that wrote the file |
| CachedTranslations.SaveCache | src/dbt/BlockCache.cpp:278-388 | writing a cache back: the file holds exactly one record for each live block and each loaded record that was not used, nothing else, all of them translations; written exactly if there is a file, something new and no oversized record |
| CachedTranslations.Session | src/dbt/BlockCache.cpp:152-388 | main result: a process that opens another one's file, runs any events and writes back holds a translation at its own anchor for every address that it loaded or ran and for no other; nothing that was loaded is lost |
| CachedTranslations.HeldAreFaithful | src/dbt/BlockCache.cpp:340-360 | what such a file holds are translations, whether live or still unused |
| BlockCache.Dispatcher.Dispatch | src/dbt/Dispatcher.cpp:55-74 | main result: the block chosen to run, through the direct-mapped cache and all three indices, has the translation that a translator without caches makes of the current bytes at RIP, and none is chosen exactly if that fails; the new contents of all caches, and the invariant that no entry names a replaced block |
| BlockCache.RunAll | src/dbt/Dispatcher.cpp:55-74 | over any sequence of dispatches and code changes every chosen translation is of the bytes of that moment, the run stops at the first failure, and the addresses known live or loaded are the old ones and those run: none is lost |
| BlockCache.BlockCache.GetOrTranslate | src/dbt/BlockCache.cpp:407-484 | which of the three ways is taken, and the whole new state: loaded translations lose exactly the address whose record was used, the hit count grows exactly then, the dirty flag is set exactly by a new translation, all indices name the same block, and a failed translation changes nothing |
| BlockCache.BlockCache.FindCurrent | src/dbt/BlockCache.cpp:390-398 | a block is found exactly if the indexed one was checked at this version, and it is a translation of the bytes of that version |
| BlockCache.BlockCache.constructor | src/dbt/BlockCache.cpp:152-165 | a cache starts with no block and the loaded translations |
| BlockCache.ReusedEntry | src/dbt/BlockCache.cpp:411-416 | an indexed block whose source bytes still match may be stamped with the new version |
| BlockCache.Inserted | src/dbt/BlockCache.cpp:421-484 | replacing a block keeps all three indices naming the same live block |
| BlockCache.NewIsTranslation | src/dbt/BlockCache.cpp:143-148 | comparing only the consumed source bytes is enough |
| BlockCache.OtherSlot | src/dbt/Dispatcher.cpp:55-74 | a block stored for one address cannot retire what another slot of the direct-mapped cache points at |
| BlockCache.SlotBits | src/dbt/Dispatcher.cpp:58-58 | the shift and mask select the slot |
| SlidePages.ParseSlideInfo2 | src/darwin/SharedCache.cpp:221-318 | accepts exactly the blobs whose tables lie inside, whose mask is one run of ones from bit 2 up and whose every page start and extra list is in range and terminated |
| SlideAcceptance.AcceptedMeaning | src/darwin/SharedCache.cpp:221-318 | as numbers in the blob: version 2 and pages of 4096 bytes that are the whole mapping, tables inside the blob, a mask of one field, and page starts that mean no chain, a place in the page, or a list of extras in the page that ends with a marked one; if and only if |
| SlideAcceptance.MaskMeaning | src/darwin/SharedCache.cpp:255-264 | the accepted masks are exactly one or more ones followed by two or more zeros |
| SlidePages.ApplySlideInfo2Page | src/darwin/SharedCache.cpp:320-394 | for any accepted blob: reads only inside the tables, writes only inside its page, and gives the page that walking its chains gives; it ends by itself for every mask but the wrapping one, for which the model stops in front of the first step backwards |
| SlidePages.ApplyChain | src/darwin/SharedCache.cpp:331-368 | the in-place walk writes the page of the recursive walk and no other byte, and never steps backwards unless the mask is the wrapping one |
| SlideInfo.Extracted | src/darwin/SharedCache.cpp:328-350 | masking and shifting give the distance, four times the packed field, and the remaining value |
| SlideInfo.MaskIsField | src/darwin/SharedCache.cpp:255-264 | an accepted mask is one contiguous field |
| SlideInfo.WalksForward | src/darwin/SharedCache.cpp:331-368 | under every accepted mask but one a walk only moves forward, and so ends |
| SlideInfo.WidestMaskWraps | src/darwin/SharedCache.cpp:331-368 | under the mask with all 62 upper bits a null pointer can lead backwards |
| SlideInfo.OnlyTheWidestMaskWraps | src/darwin/SharedCache.cpp:255-264 | a walk can wrap around exactly if the mask is that one |
| LazyPages.LazyFilePageTransform.Materialize | src/guest/AddressSpace.cpp:47-79 | after a range is touched its bytes are those of the eagerly rebased mapping, whatever was touched before; pages are rebased once; it fails only for a range outside the mapping or if a page of the range cannot be rebased |
| LazyPages.LazyFilePageTransform.AllTouchedIsEager | src/darwin/SharedCache.cpp:941-952 | once every page was touched, in any order, the mapping equals the eagerly rebased one |
| SlideEncoding.PackedChainRebases | src/darwin/SharedCache.cpp:331-368 | walking a packed chain, each word rewritten before the next is found, puts the moved pointer at each location |
| SlideEncoding.EncodedPageRebases | src/darwin/SharedCache.cpp:320-394 | the same for all chains of a page, which do not disturb each other |
| SlideEncoding.EncodeThenApply | src/darwin/SharedCache.cpp:320-394 | for chains in any order that do not overlap: after packing and walking them each location holds its rebased value and every other byte is as it was |
| SlideSplitting.SplitWellFormed | src/darwin/SharedCache.cpp:331-368 | every ascending list of pointers that do not overlap splits into chains whose steps the packed distance can express, apart from each other |
| SlideSplitting.SplitJoins | src/darwin/SharedCache.cpp:331-368 | splitting loses, doubles and moves no pointer |
| SlideSplitting.OverflowRejected | src/darwin/SharedCache.cpp:347-357 | the walk over a packed chain is refused exactly where the first pointer overflows, whatever comes before it |
| SlideSplitting.EncodedPageApplies | src/darwin/SharedCache.cpp:331-394 | for every list of pointers that do not overlap: splitting, packing and walking the chains gives the moved pointers if none overflows, and is refused otherwise |
| SlideSplitting.PointersInPlace | src/darwin/SharedCache.cpp:347-358 | those are target plus value and slide at each location, null at null ones, and every other byte as it was |
| SlideTables.ExtrasRoundTrip | src/darwin/SharedCache.cpp:381-393 | a list of extras, the last one marked, is accepted and read back as the chain starts it was made from |
| SlideTables.TablesRoundTrip | src/darwin/SharedCache.cpp:370-393 | for every page of the written tables, with no chain, one or several: it is accepted and its chain starts read back are those written |
| SlideTables.HeaderRoundTrip | src/darwin/SharedCache.cpp:224-236 | the written header reads back field by field |
| SlideTables.BlobAccepted | src/darwin/SharedCache.cpp:221-318 | the written slide info passes every check of the parser, for any number of pages |
| SlideRoundTrip.EncodeThenApply | src/darwin/SharedCache.cpp:221-394 | main result: for any lists of pointers per page that do not overlap and fit the 14-bit extra index, the written slide info is accepted, and rebasing a page of the packed image (the chains that `ApplySlideInfo2Page` walks) moves exactly its pointers if none overflows, and is refused otherwise |
| SlideRoundTrip.RebasedImage | src/darwin/SharedCache.cpp:221-394 | main result: in the rebased mapping each location holds its target plus value and slide, or null where it was null, and every other byte is the original one |
| LinkFixups.ApplyMapWithLinkingPageFixups | src/darwin/SyscallMemory.cpp:72-150 | over any blob and any guest memory, the in-place walk has the outcome and memory of the recursive one, reads inside the blob or rejects, and writes nothing outside the given page |
| LinkFixups.WalkIsDecodeThenWrite | src/darwin/SyscallMemory.cpp:115-147 | main result: walking and rewriting a well-formed chain succeeds, every decoded slot then holds the address that its original word resolves to, slots do not overlap, and every other byte is as it was |
| LinkFixups.WalkStaysInPage | src/darwin/SyscallMemory.cpp:115-147 | a walk from anywhere writes only its page, for every page address, also where the compared sums wrap |
| LinkFixups.FixupsStayInPage | src/darwin/SyscallMemory.cpp:72-150 | so do all fixups, accepted or rejected half-way |
| LinkFixups.MappingEndsBelowLastPage | src/guest/AddressSpace.cpp:576-584 | no mapping that is accepted covers the last page of the address space |
| LinkFixups.StartEntryInside | src/darwin/SyscallMemory.cpp:89-111 | the start entry of a covered page is inside the segment's table |
| LinkFixups.WordFields | src/darwin/SyscallMemory.cpp:120-146 | the masks and shifts select the fields of the pointer format |
| LinkBlobs.EncodeThenLink | src/darwin/SyscallMemory.cpp:72-150 | main result: for any image of segments, pages, binds and rebases written by an encoder of its own, linking a page leaves at each pointer the bind target plus its addend, or target plus slide plus upper byte times 2^56, or target plus image address plus upper byte times 2^56 for format 6, all modulo 2^64, and no other byte changes |
| LinkBlobs.LinksPage | src/darwin/SyscallMemory.cpp:87-113 | the written tables lead to the first segment that has the page and to the start entry of the page |
| LinkBlobs.HeaderOf | src/darwin/SyscallMemory.cpp:79-85 | header fields read back from their offsets |
| LinkEncoding.WordResolves | src/darwin/SyscallMemory.cpp:120-138 | each packed word stands for its sum and its distance |
| LinkEncoding.WalkRefuses | src/darwin/SyscallMemory.cpp:115-146 | a walk is refused at a pointer past the page or an ordinal past the bind table without a write, and behind the write where the next pointer would be past the page |
| TrapAnswers.StepAnswers | src/darwin/Mach.cpp:1482-1985 | main result: for every trap, which condition on the old ports gives each status, and the whole new namespace it leaves: a trap 22 that succeeds appends the member to the set exactly if it was absent and changes nothing else, a trap 19 adds its delta or is refused for name, right, underflow or overflow, a trap 18 drops one reference and erases port and cached names with the last |
| TrapAnswers.RunAnswers | src/darwin/Mach.cpp:1482-1985 | the same at every point of every run |
| TrapAnswers.RunMembers | src/darwin/Mach.cpp:1574-1604 | main result: over any run the members of a set are those it had and then the names whose trap 22 on it succeeded, in order, each once |
| TrapAnswers.MembersFromStart | src/darwin/Mach.cpp:1574-1604 | from the initial namespace they are exactly those names |
| PortTraps.RunKeeps | src/darwin/Mach.cpp:1482-1738 | main result: after any sequence of traps names are below the next name, reference counts are at most 0xFFFF, each cached name is the one live port of its object, and set members are distinct live receive rights that are no sets |
| PortTraps.StepKeeps | src/darwin/Mach.cpp:1482-1738 | each single trap keeps that invariant |
| PortTraps.FreedStaysFree | src/darwin/PortSpace.cpp:139-197 | a name that was freed is never issued again |
| PortTraps.LiveBelowNext | src/darwin/PortSpace.cpp:178-197 | names that ever were live stay below the next name |
| PortTraps.RunConserves | src/darwin/PortSpace.cpp:37-176 | over any run the send references of each name are the copy-outs minus the drops plus the adjustments that the guest saw succeed |
| PortTraps.CreateKeeps | src/darwin/Mach.cpp:1482-1513 | a trap that cannot write the name back leaves the namespace exactly as it was |
| PortTraps.StuckExactly | src/darwin/Mach.cpp:1536-1573 | for each of host, thread, bootstrap and clocks and every trap: its cached name is without references after the trap if and only if it was before or the trap is a trap 19 on it that takes away exactly all it has; drops never leave it so |
| PortTraps.StuckAfterRun | src/darwin/Mach.cpp:1482-1738 | the same for whole runs: stuck at the end if and only if stuck at the start or some trap 19 of the run did that |
| PortTraps.StuckFromStart | src/darwin/Mach.cpp:1482-1738 | from the initial namespace only trap 19 brings it about |
| PortTraps.StrandedRun | src/darwin/Mach.cpp:1536-1573 | a request for the host or the thread, by trap or by message, and one trap 19 bring it about |
| PortTraps.StrandedForever | src/darwin/PortSpace.cpp:37-126 | once stuck, no request in any run gives a port for that object again |
| MachDispatch.MachDispatcher.Dispatch | src/darwin/Mach.cpp:1482-1985 | the imperative dispatcher gives for every trap the status and new namespace that the conditions of `TrapAnswers` say |
| PortSpace.ProbeIsImmediate | src/darwin/PortSpace.cpp:178-197 | the search for a free name looks at one name |
| PortSpace.AllocateKeeps | src/darwin/PortSpace.cpp:178-197 | allocation keeps the invariant, also when names run out |
| PortSpace.CopyoutsKeep | src/darwin/PortSpace.cpp:37-126 | so do the four cached copy-outs |
| PortSpace.DeallocateKeeps | src/darwin/PortSpace.cpp:139-176 | so does dropping a reference, which erases the port and its cached names with the last one |
| PortSpace.RollbackUndoes | src/darwin/PortSpace.cpp:199-223 | rolling back right after an allocation restores the namespace, next name included |
| PortSpace.InitialIsValid | src/darwin/PortSpace.cpp:10-14 | the initial namespace satisfies the invariant |
| PortSpace.GuestPortSpace.Allocate | src/darwin/PortSpace.cpp:178-197 | the probing loop allocates as the specification does |
| PortSpace.GuestPortSpace.Deallocate | src/darwin/PortSpace.cpp:139-176 | new state and result of a drop, on the object |
| PortSpace.GuestPortSpace.CopyoutHostSendRight | src/darwin/PortSpace.cpp:37-57 | new state and result, on the object |
| PortSpace.GuestPortSpace.CopyoutClockSendRight | src/darwin/PortSpace.cpp:100-126 | new state and result, on the object |
| PortSpace.GuestPortSpace.Rollback | src/darwin/PortSpace.cpp:199-223 | new state, on the object |
| AddressSearch.FindMmapRange | src/darwin/SyscallMemory.cpp:6-43 | main result: for any mapping list the least clear page-aligned address from 4 GiB up that is below the limit or in front of a mapping; this is the least free address, and none exactly if there is none, if and only if the search does not overshoot |
| AddressSearch.FindAnywhereRange | src/darwin/Mach.cpp:1112-1147 | the same for any hint and any accepted alignment mask, also where rounding overflows |
| AddressSearch.AnswerIsLeastFree | src/darwin/SyscallMemory.cpp:20-41 | it overshoots exactly if nothing is free below the limit but something clear lies in front of a mapping |
| AddressSearch.NoOvershoot | src/darwin/SyscallMemory.cpp:20-41 | never while every mapping starts below the limit |
| AddressSearch.HighMappingOvershoots | src/darwin/SyscallMemory.cpp:20-41 | a mapping above the limit and none of the room below it free make it overshoot |
| AddressSearch.FirstFit | src/darwin/SyscallMemory.cpp:20-41 | the loop both searches share |
| AddressSearch.MaskMeaning | src/darwin/Mach.cpp:1402-1412 | the masks that the trap lets through are those of 12 up to 46 ones and no other |
| AddressSearch.AlignUpIsLeast | src/darwin/Mach.cpp:1104-1110 | rounding up gives the least aligned number that is not smaller, and fails exactly if that is 2^64 or more |
| CodeArena.ExecutableArena.PublishBatch | src/arm64/CodeBuffer.cpp:130-166 | main result: all programs or none, and all exactly if each finds room in turn, in the last chunk or in one that the host gives; addresses are 16-byte aligned, in bounds and disjoint, every program published earlier is still intact, totals are the per-chunk sums, and the invalidated ranges are exactly the new code and gaps shorter than 16 bytes |
| CodeArena.ExecutableArena.Publish | src/arm64/CodeBuffer.cpp:119-128 | one program, whole and with every earlier one intact, exactly if there is room; otherwise nothing is written |
| CodeArena.ExecutableArena.Reserve | src/arm64/CodeBuffer.cpp:63-117 | succeeds exactly if the last chunk has room behind its rounded end or the host gives a usable chunk and its bytes can still be counted; then aligned memory that no chunk had used, and the whole new state; the count of used bytes never overflows |
| CodeArena.ExecutableArena.AddChunk | src/arm64/CodeBuffer.cpp:72-102 | succeeds exactly if the size can be rounded and counted and the host answers with usable memory; then one more chunk, apart from all others and large enough, otherwise no change |
| CodeArena.InvalidationRanges | src/arm64/CodeBuffer.cpp:146-163 | the coalescing loop reports every new byte and nothing but new bytes and gaps shorter than 16 bytes |
| CodeArena.PublishedOne | src/arm64/CodeBuffer.cpp:119-128 | copying into memory that was not used keeps every published program |
| CodeArena.RoundUpIsLeast | src/arm64/CodeBuffer.cpp:20-34 | the least multiple that is not smaller |
| CodeRoom.RoundUpMeaning | src/arm64/CodeBuffer.cpp:20-34 | and fails exactly for a zero alignment or if that multiple is 2^64 or more |
| CodeRoom.ReserveMeaning | src/arm64/CodeBuffer.cpp:63-117 | a reservation succeeds if and only if the size is positive, the used part of the last chunk can be rounded, and that chunk has an aligned place for it or the host gives memory, separate from all chunks, of the least whole number of pages |
| WriteSpan.Guard | src/arm64/Backend.cpp:2487-2516 | the wrap-around comparisons accept exactly if a window is cached and the whole remaining span lies in it with no wrap, for all 64-bit inputs |
| WriteSpan.FastStores | src/arm64/Backend.cpp:2522-2525 | main result: any number of later stores through the running host pointer have the effect of stores that each check the window |
| WriteSpan.LaterStoresInside | src/arm64/Backend.cpp:2487-2525 | after any number of passes below the limit the store is at bytes + (address - base), inside the window |
| WriteSpan.SpanContinues | src/arm64/Backend.cpp:2487-2525 | the induction variable does not wrap, and while below the limit the guard would accept again |

## Left out

- FlagSimulation.CompiledBlockIsEager: vector, atomic, string, divide and system operations appear only as an arbitrary `Other` operation on the modelled state; XMM registers and the remaining processor state are not part of it.
- RegisterRun.RegistersRefineEager: guest-register pinning, coalescing, folded immediates and fused 32-bit pairs are not modelled; every operation reads and writes the registers that linear scan gave.
- LoopTheorem.CompiledLoopIsEager: needs the two stated properties of the block; flags are tracked as a whole, so that a test behind an emitted increment or shift, but no full update, counts as stale whichever flag it reads; the entries that skip the stop check after a direct write or read are not modelled; the stop request is an arbitrary function of remaining budget and memory.
- StaleReaders.StaleLoopDiffers: exact for one family of blocks, all operands and any number of passes; a block outside `NoStaleReader` whose test result does not matter still runs right.
- IR.UpdateKeepsSystem: shift, rotate, multiply and bit-test flags are those of the host parameter, restricted to arithmetic flags; their formulas are per-opcode facts.
- MoveWide.Shortest: compares with sequences of MOVZ, MOVN and MOVK only.
- Assembler.Assembler.Finish: listings, the check for 2^63 words, and the encodings of other instructions, which enter as given words.
- Relocation.RelocationSlides: only for offsets that are at least 16 bytes apart; the in-place method has no such condition.
- PersistentCodec.LoadPersistent: starts from the bytes of the file; opening and reading it, and publishing the programs in the arena, are left out.
- PersistentCodec.SavePersistent: ends with the bytes of the file; the dirty flag, the temporary file and its renaming are left out.
- CachedTranslations.LoadedAreTranslations: that a translator moves with the anchor is assumed of it, not derived from a model of the whole translator.
- BlockCache.Dispatcher.Dispatch: running the block, counters, timings, tracing, the recent-block ring and the LLVM tier are left out; a failed translation is a missing block instead of an exception.
- SlidePages.ApplySlideInfo2Page: a step backwards under the one wrapping mask ends the model's walk with its own status; the source goes on from the lower offset.
- LazyPages.LazyFilePageTransform.Materialize: after an exception the page is partly rewritten and the invariant is not promised, as in the source.
- LinkFixups.ApplyMapWithLinkingPageFixups: guest memory is a map of bytes without permissions, so a mapped slot can be written; the rest of the system call is left out.
- MachDispatch.MachDispatcher.Dispatch: guest memory accesses of the traps are flags of the step, trap 24's policy bits one flag, and messages are reduced to the right they copy out; the importance receiver is left out.
- CodeArena.ExecutableArena.Reserve: the host's mappings are a list of answers and impossible answers count as failure; write protection and exceptions of the allocator are left out.
- WriteSpan.Guard: the search for a loop of the right shape is left out, so that step and offset do not change is part of the model's loop.
- AddressSearch.FindMmapRange: sizes are positive, as the callers make sure; the mapping itself is left out.
- Resource exceptions of the C++ library, host files and system calls.
- LoweredInstructions.InstructionMeaning: only the listed instructions; a memory operand is one base register without index and displacement; shifts, multiplications, strings and the rest of the instruction set are not lowered in the model.
- LoweringTheorem.StoredIsLoaded: alignment and direct windows of a memory access play no part.
- The decoder and the optimiser; the translator of the caches is a parameter.
- Direct read spans and adjacent direct reads.
- Floating point, vector and atomic operations.
- Other system calls and Mach messages, shared-cache parsing outside slide info, commpage contents.
