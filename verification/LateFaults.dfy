/** Why a fault of a later pass may show flags of the loop's entry: a block that follows a chain
    of pointers through RAX and repeats itself while RCX and RDX differ. */
module LateFaults {
  import opened Options
  import opened Words
  import opened Flags
  import opened FlagHelpers
  import opened Compare
  import opened IR
  import opened FlagPasses
  import opened FlagSimulation
  import opened SelfLoop
  import opened DeferredExit
  import opened StaleReaders

  /** mov rax, [rax]; cmp rcx, rdx; jne START. */
  function Chase(): Block {
    Block(START, [
      Op(START, ReadGuestReg, Some(0), None, None, None, 0),
      Op(START, LoadGuest, Some(1), Some(0), None, None, 0),
      Op(START, WriteGuestReg, None, Some(1), None, None, 0),
      Op(START + 3, ReadGuestReg, Some(2), None, None, None, 1),
      Op(START + 3, ReadGuestReg, Some(3), None, None, None, 2),
      Op(START + 3, Sub, Some(4), Some(2), Some(3), None, 0),
      Op(START + 3, UpdateSubFlags, None, Some(2), Some(3), Some(4), 0),
      JumpBack(START + 6, START + 8)], 5)
  }

  lemma ChaseOperations()
    ensures var block := Chase();
      block.start == START && |block.operations| == 8 && block.valueCount == 5 &&
      block.operations[0] == Op(START, ReadGuestReg, Some(0), None, None, None, 0) &&
      block.operations[1] == Op(START, LoadGuest, Some(1), Some(0), None, None, 0) &&
      block.operations[2] == Op(START, WriteGuestReg, None, Some(1), None, None, 0) &&
      block.operations[3] == Op(START + 3, ReadGuestReg, Some(2), None, None, None, 1) &&
      block.operations[4] == Op(START + 3, ReadGuestReg, Some(3), None, None, None, 2) &&
      block.operations[5] == Op(START + 3, Sub, Some(4), Some(2), Some(3), None, 0) &&
      block.operations[6] == Op(START + 3, UpdateSubFlags, None, Some(2), Some(3), Some(4), 0) &&
      block.operations[7] == JumpBack(START + 6, START + 8)
  {
  }

  // ----- the plan

  lemma ChasePlan()
    ensures PlanFor(Chase()) == Plan(true, Some(6), Some(5))
  {
    hide Chase, EmittedUses;
    var block := Chase();
    ChaseOperations();
    assert LeadsTo(block.operations[7], block.start);
    assert ZeroFlagUpdateIndexAt(block, 7) == Some(6);
    ChaseUses();
    ChaseDefinition();
    hide ZeroFlagUpdateIndexAt, DefinitionBefore;
    assert DeferredExitFlagUpdate(block, true) == Some(6);
    assert DeferredExitResultOperation(block, true, 6) == Some(5);
  }

  lemma ChaseDefinition()
    ensures DefinitionBefore(Chase(), 4, 8) == Some(5)
  {
    hide Chase;
    var block := Chase();
    ChaseOperations();
    assert DefinitionBefore(block, 4, 6) == Some(5);
    assert DefinitionBefore(block, 4, 7) == Some(5);
  }

  lemma ChaseNotDead(i: nat)
    requires i < 8
    ensures !IsDead(Chase(), i, true) && SinkTarget(Chase(), i).None?
  {
    hide Chase, ReplacedBefore;
    ChaseOperations();
    if i == 6 { NothingAfterExit(); }
  }

  lemma NothingAfterExit()
    ensures !ReplacedBefore(Chase(), 7, true)
  {
    hide Chase;
    ChaseOperations();
  }

  lemma ChaseUses()
    ensures EmittedUses(Chase(), true, 4, 8) == 1
  {
    hide Chase, IsDead;
    var block := Chase();
    ChaseOperations();
    forall i | 0 <= i < 8
      ensures !IsDead(block, i, true)
    {
      ChaseNotDead(i);
    }
    assert EmittedUses(block, true, 4, 1) == 0;
    assert EmittedUses(block, true, 4, 2) == 0;
    assert EmittedUses(block, true, 4, 3) == 0;
    assert EmittedUses(block, true, 4, 4) == 0;
    assert EmittedUses(block, true, 4, 5) == 0;
    assert EmittedUses(block, true, 4, 6) == 0;
    assert EmittedUses(block, true, 4, 7) == 1;
  }

  // ----- one pass

  /** Where the chain leads from RAX, if there is memory. */
  function Next(st: GuestState): Option<u64> {
    LoadValue(st.memory, st.regs[0], I64)
  }

  lemma Loads(host: Host, op: Operation, a: u64, st: GuestState)
    requires op.opcode.LoadGuest?
    ensures Execute(host, op, a, 0, 0, st) ==
      var loaded := LoadValue(st.memory, a, op.width); if loaded.None? then Fault(st) else Continue(loaded.value, st)
  {
    hide LoadValue;
  }

  lemma EagerChase(host: Host, st: GuestState)
    requires Next(st).Some?
    ensures var l, r := st.regs[1], st.regs[2];
      var p := EagerPass(host, Chase(), 0, Values(map[]), st);
      p.AtExit? && p.index == 7 &&
      p.state == st.(regs := st.regs[0 := Next(st).value], rflags := ComparedFlags(st.rflags, l, r))
  {
    hide Chase, Materialise, SubFormula, Sub64, Execute;
    var block := Chase();
    ChaseOperations();
    var l, r, x := st.regs[1], st.regs[2], Next(st).value;
    var moved := st.(regs := st.regs[0 := x]);
    var s0 := map[][0 := st.regs[0]];
    var s1 := s0[1 := x];
    var s2 := s1[2 := l];
    var s3 := s2[3 := r];
    var s4 := s3[4 := Sub64(l, r)];
    Reads(host, block.operations[0], st);
    EagerNext(host, block, 0, Values(map[]), st, st.regs[0], st);
    Loads(host, block.operations[1], st.regs[0], st);
    EagerNext(host, block, 1, Values(s0), st, x, st);
    Writes(host, block.operations[2], x, st);
    EagerNext(host, block, 2, Values(s1), st, 0, moved);
    Reads(host, block.operations[3], moved);
    EagerNext(host, block, 3, Values(s1), moved, l, moved);
    Reads(host, block.operations[4], moved);
    EagerNext(host, block, 4, Values(s2), moved, r, moved);
    SubtractionValue(host, block.operations[5], l, r, 0, moved);
    EagerNext(host, block, 5, Values(s3), moved, Sub64(l, r), moved);
    UpdateExecutes(host, block.operations[6], l, r, Sub64(l, r), moved);
    var updated := moved.(rflags := ComparedFlags(st.rflags, l, r));
    assert FlagsAfter(host, block.operations[6], l, r, Sub64(l, r), moved.rflags) == updated.rflags;
    EagerNext(host, block, 6, Values(s4), moved, 0, updated);
  }

  lemma EagerStops(host: Host, st: GuestState)
    requires Next(st).None?
    ensures EagerPass(host, Chase(), 0, Values(map[]), st) == PassFault(START, st)
  {
    hide Chase, Execute;
    var block := Chase();
    ChaseOperations();
    Reads(host, block.operations[0], st);
    EagerNext(host, block, 0, Values(map[]), st, st.regs[0], st);
    Loads(host, block.operations[1], st.regs[0], st);
  }

  lemma LoadStep(host: Host, fast: nat -> bool, store: Store, st: GuestState)
    ensures CompiledStep(host, Chase(), Plan(true, Some(6), Some(5)), fast, 1, store, st) ==
      Execute(host, Chase().operations[1], Read(store, 0), 0, 0, st)
  {
    hide Chase, Execute;
    ChaseOperations();
  }

  lemma CompiledChase(host: Host, fast: nat -> bool, cells: map<ValueId, u64>, st: GuestState)
    requires Next(st).Some?
    ensures var p := CompiledPass(host, Chase(), PlanFor(Chase()), fast, 0, Values(cells), st);
      p.AtExit? && p.index == 7 && p.state == st.(regs := st.regs[0 := Next(st).value]) &&
      p.store.Values? && Read(p.store, 2) == st.regs[1] && Read(p.store, 3) == st.regs[2]
  {
    hide Chase, PlanFor, CompiledStep, IsDead, Execute;
    var block, plan := Chase(), Plan(true, Some(6), Some(5));
    ChaseOperations();
    ChasePlan();
    var l, r, x := st.regs[1], st.regs[2], Next(st).value;
    var moved := st.(regs := st.regs[0 := x]);
    var s0 := cells[0 := st.regs[0]];
    var s1 := s0[1 := x];
    var s2 := s1[2 := l];
    var s3 := s2[3 := r];
    forall i | 0 <= i < 5
      ensures !Skipped(block, plan, i)
    {
      ChaseNotDead(i);
    }
    hide Skipped;
    StepAsWritten(host, block, plan, fast, 0, Values(cells), st);
    Reads(host, block.operations[0], st);
    CompiledNext(host, block, plan, fast, 0, Values(cells), st, st.regs[0], st);
    LoadStep(host, fast, Values(s0), st);
    Loads(host, block.operations[1], st.regs[0], st);
    CompiledNext(host, block, plan, fast, 1, Values(s0), st, x, st);
    StepAsWritten(host, block, plan, fast, 2, Values(s1), st);
    Writes(host, block.operations[2], x, st);
    CompiledNext(host, block, plan, fast, 2, Values(s1), st, 0, moved);
    StepAsWritten(host, block, plan, fast, 3, Values(s1), moved);
    Reads(host, block.operations[3], moved);
    CompiledNext(host, block, plan, fast, 3, Values(s1), moved, l, moved);
    StepAsWritten(host, block, plan, fast, 4, Values(s2), moved);
    Reads(host, block.operations[4], moved);
    CompiledNext(host, block, plan, fast, 4, Values(s2), moved, r, moved);
    ChaseEnds(host, fast, s3, moved);
  }

  lemma ChaseEnds(host: Host, fast: nat -> bool, cells: map<ValueId, u64>, st: GuestState)
    ensures CompiledPass(host, Chase(), Plan(true, Some(6), Some(5)), fast, 5, Values(cells), st) ==
      AtExit(7, Values(cells), st)
  {
    hide Chase, CompiledStep;
    var block, plan := Chase(), Plan(true, Some(6), Some(5));
    ChaseOperations();
    CompiledSkips(host, block, plan, fast, 5, Values(cells), st);
    CompiledSkips(host, block, plan, fast, 6, Values(cells), st);
  }

  lemma CompiledStops(host: Host, fast: nat -> bool, cells: map<ValueId, u64>, st: GuestState)
    requires Next(st).None?
    ensures CompiledPass(host, Chase(), PlanFor(Chase()), fast, 0, Values(cells), st) == PassFault(START, st)
  {
    hide Chase, PlanFor, CompiledStep, IsDead, Execute;
    var block, plan := Chase(), Plan(true, Some(6), Some(5));
    ChaseOperations();
    ChasePlan();
    ChaseNotDead(0);
    ChaseNotDead(1);
    StepAsWritten(host, block, plan, fast, 0, Values(cells), st);
    Reads(host, block.operations[0], st);
    CompiledNext(host, block, plan, fast, 0, Values(cells), st, st.regs[0], st);
    LoadStep(host, fast, Values(cells[0 := st.regs[0]]), st);
    Loads(host, block.operations[1], st.regs[0], st);
  }

  // ----- the second pass faults

  /** The first pass goes on, and leads out of memory. */
  predicate SecondFaults(st: GuestState) {
    Next(st).Some? && LoadValue(st.memory, Next(st).value, I64).None? && st.regs[1] != st.regs[2]
  }

  lemma EagerFaultsLater(host: Host, stop: (u64, map<u64, byte>) -> bool, budget: u64, st: GuestState)
    requires SecondFaults(st)
    requires budget != 1 && !stop(Sub64(budget, 1), st.memory)
    ensures var l, r := st.regs[1], st.regs[2];
      EagerLoop(host, Chase(), stop, budget, st) ==
      LoopFault(START, Sub64(budget, 1), st.(rip := START, regs := st.regs[0 := Next(st).value],
        rflags := ComparedFlags(st.rflags, l, r)))
  {
    hide Chase, EagerPass, Materialise, SubFormula, Holds;
    ChaseOperations();
    var l, r := st.regs[1], st.regs[2];
    EagerChase(host, st);
    TakenIfDifferent(st.rflags, l, r);
    var again := st.(rip := START, regs := st.regs[0 := Next(st).value], rflags := ComparedFlags(st.rflags, l, r));
    EagerStops(host, again);
    assert EagerLoop(host, Chase(), stop, Sub64(budget, 1), again) == LoopFault(START, Sub64(budget, 1), again);
  }

  lemma CompiledFaultsLater(host: Host, fast: u64 -> nat -> bool, stop: (u64, map<u64, byte>) -> bool, budget: u64,
                            cells: map<ValueId, u64>, st: GuestState)
    requires st.rip == START && SecondFaults(st)
    requires budget != 1 && !stop(Sub64(budget, 1), st.memory)
    ensures CompiledLoop(host, Chase(), PlanFor(Chase()), fast, stop, budget, Values(cells), st) ==
      LoopFault(START, Sub64(budget, 1), st.(regs := st.regs[0 := Next(st).value]))
  {
    hide Chase, PlanFor, CompiledPass, BranchTaken, CompareFlags, FinalFlags;
    ChaseOperations();
    ChasePlan();
    var plan := Plan(true, Some(6), Some(5));
    CompiledChase(host, fast(budget), cells, st);
    var p := CompiledPass(host, Chase(), plan, fast(budget), 0, Values(cells), st);
    TakenIfDifferent(st.rflags, st.regs[1], st.regs[2]);
    var again := st.(regs := st.regs[0 := Next(st).value]);
    CompiledStops(host, fast(Sub64(budget, 1)), p.store.cells, again);
    assert CompiledLoop(host, Chase(), plan, fast, stop, Sub64(budget, 1), p.store, again) ==
      LoopFault(START, Sub64(budget, 1), again);
  }

  /** The fault of the second pass shows the flags of the loop's entry where the eager loop shows
      those of the first comparison. The two faults agree exactly if the comparison leaves the flags
      word as it was, and differ in nothing else. */
  lemma LateFaultShowsEntryFlags(host: Host, fast: u64 -> nat -> bool, stop: (u64, map<u64, byte>) -> bool, budget: u64,
                                 cells: map<ValueId, u64>, st: GuestState)
    requires st.rip == START && SecondFaults(st) && budget != 1 && !stop(Sub64(budget, 1), st.memory)
    ensures var l, r := st.regs[1], st.regs[2];
      var eager := EagerLoop(host, Chase(), stop, budget, st);
      var compiled := CompiledLoop(host, Chase(), PlanFor(Chase()), fast, stop, budget, Values(cells), st);
      eager.LoopFault? && compiled.LoopFault? && eager.faultRip == compiled.faultRip &&
        eager.remaining == compiled.remaining &&
      eager.state == compiled.state.(rflags := eager.state.rflags) &&
      compiled.state.rflags == st.rflags && ArithOf(eager.state.rflags) == DifferenceFlags(I64, l, r, 0) &&
      SystemFlags(eager.state.rflags) == SystemFlags(st.rflags) &&
      (compiled == eager <==> st.rflags == ComparedFlags(st.rflags, l, r))
  {
    hide Chase, PlanFor, EagerLoop, CompiledLoop, Materialise, SubFormula, DifferenceFlags, SystemFlags;
    EagerFaultsLater(host, stop, budget, st);
    CompiledFaultsLater(host, fast, stop, budget, cells, st);
    SubtractFlagsExact(st.rflags, st.regs[1], st.regs[2]);
    SystemOfMaterialise(st.rflags, SubFormula(I64, st.regs[1], st.regs[2], Sub64(st.regs[1], st.regs[2])));
  }
}
