/** Why `LoopAssumptions` bans tests behind the deferred comparison that read the flags word or
    the skipped difference: a block that compares RAX with RCX, stores a condition in DL and
    repeats itself while the two differ. */
module StaleReaders {
  import opened Options
  import opened Words
  import opened Flags
  import opened FlagHelpers
  import opened Compare
  import opened IR
  import opened FlagPasses
  import opened FlagSimulation
  import opened LinearScan
  import opened SelfLoop
  import opened ExactFlags
  import opened DeferredExit

  const START: u64 := 0x1000

  /** A 64-bit operation of the instruction at `rip`. */
  function Op(rip: u64, opcode: Opcode, result: Option<ValueId>, lhs: Option<ValueId>, rhs: Option<ValueId>,
              third: Option<ValueId>, r: Reg): Operation
  {
    Operation(opcode, I64, rip, result, lhs, rhs, third, r, NotEqual, Conditional, None, None, 0)
  }

  /** What `setcc` is lowered to: a condition, and a write of the low byte. */
  function TestOp(rip: u64, result: ValueId, c: Condition): Operation {
    Op(rip, EvaluateCondition, Some(result), None, None, None, 0).(width := I8, condition := c)
  }

  function WriteByteOp(rip: u64, value: ValueId, r: Reg): Operation {
    Op(rip, WriteGuestReg, None, Some(value), None, None, r).(width := I8)
  }

  /** A jump back to the start while the comparison in front of it finds a difference. */
  function JumpBack(rip: u64, fallthrough: u64): Operation {
    Op(rip, ExitBlock, None, None, None, None, 0).(target := Some(START), fallthrough := Some(fallthrough))
  }

  /** cmp rax, rcx; setcc dl; jne START. */
  function SetBlock(c: Condition): Block {
    Block(START, [
      Op(START, ReadGuestReg, Some(0), None, None, None, 0),
      Op(START, ReadGuestReg, Some(1), None, None, None, 1),
      Op(START, Sub, Some(2), Some(0), Some(1), None, 0),
      Op(START, UpdateSubFlags, None, Some(0), Some(1), Some(2), 0),
      TestOp(START + 3, 3, c),
      WriteByteOp(START + 3, 3, 2),
      JumpBack(START + 6, START + 8)], 4)
  }

  lemma SetOperations(c: Condition)
    ensures var block := SetBlock(c);
      block.start == START && |block.operations| == 7 && block.valueCount == 4 &&
      block.operations[0] == Op(START, ReadGuestReg, Some(0), None, None, None, 0) &&
      block.operations[1] == Op(START, ReadGuestReg, Some(1), None, None, None, 1) &&
      block.operations[2] == Op(START, Sub, Some(2), Some(0), Some(1), None, 0) &&
      block.operations[3] == Op(START, UpdateSubFlags, None, Some(0), Some(1), Some(2), 0) &&
      block.operations[4] == TestOp(START + 3, 3, c) &&
      block.operations[5] == WriteByteOp(START + 3, 3, 2) &&
      block.operations[6] == JumpBack(START + 6, START + 8)
  {
  }

  lemma EagerNext(host: Host, block: Block, i: nat, store: Store, st: GuestState, x: u64, s: GuestState)
    requires i < |block.operations| && !block.operations[i].opcode.ExitBlock?
    requires var op := block.operations[i];
      Execute(host, op, Operand(store, op.lhs), Operand(store, op.rhs), Operand(store, op.third), st) == Continue(x, s)
    ensures EagerPass(host, block, i, store, st) ==
      EagerPass(host, block, i + 1, Define(store, block.operations[i].result, x), s)
  {
    hide Execute;
  }

  lemma CompiledNext(host: Host, block: Block, plan: Plan, fast: nat -> bool, i: nat, store: Store, st: GuestState,
                     x: u64, s: GuestState)
    requires i < |block.operations| && !block.operations[i].opcode.ExitBlock? && !Skipped(block, plan, i)
    requires CompiledStep(host, block, plan, fast, i, store, st) == Continue(x, s)
    ensures CompiledPass(host, block, plan, fast, i, store, st) ==
      CompiledPass(host, block, plan, fast, i + 1, Define(store, block.operations[i].result, x), s)
  {
    hide CompiledStep, Skipped;
  }

  lemma CompiledSkips(host: Host, block: Block, plan: Plan, fast: nat -> bool, i: nat, store: Store, st: GuestState)
    requires i < |block.operations| && !block.operations[i].opcode.ExitBlock? && Skipped(block, plan, i)
    ensures CompiledPass(host, block, plan, fast, i, store, st) ==
      CompiledPass(host, block, plan, fast, i + 1, store, st)
  {
    hide CompiledStep, Skipped;
  }

  lemma Reads(host: Host, op: Operation, st: GuestState)
    requires op.opcode.ReadGuestReg? && op.width == I64
    ensures Execute(host, op, 0, 0, 0, st) == Continue(st.regs[op.guestRegister], st)
  {
  }

  lemma Tests(host: Host, op: Operation, st: GuestState)
    requires op.opcode.EvaluateCondition?
    ensures Execute(host, op, 0, 0, 0, st) == Continue(if Holds(op.condition, st.rflags) then 1 else 0, st)
  {
    hide Holds;
  }

  lemma Writes(host: Host, op: Operation, x: u64, st: GuestState)
    requires op.opcode.WriteGuestReg?
    ensures Execute(host, op, x, 0, 0, st) ==
      Continue(0, st.(regs := WriteRegister(st.regs, op.guestRegister, op.width, x)))
  {
  }

  /** The comparison is deferred and its subtraction skipped. */
  lemma SetPlan(c: Condition)
    ensures PlanFor(SetBlock(c)) == Plan(true, Some(3), Some(2))
  {
    hide SetBlock, EmittedUses;
    var block := SetBlock(c);
    SetOperations(c);
    assert LeadsTo(block.operations[6], block.start);
    SetUpdate(c);
    SetUses(c);
    SetDefinition(c);
    hide ZeroFlagUpdateIndexAt, DefinitionBefore;
    assert DeferredExitFlagUpdate(block, true) == Some(3);
    assert DeferredExitResultOperation(block, true, 3) == Some(2);
  }

  lemma SetUpdate(c: Condition)
    ensures ZeroFlagUpdateIndexAt(SetBlock(c), 6) == Some(3) &&
      ZeroFlagSourceAt(SetBlock(c), 4) == Some(ZeroFlagSource(2, I64))
  {
    hide SetBlock;
    var block := SetBlock(c);
    SetOperations(c);
    assert ZeroFlagUpdateIndexAt(block, 4) == Some(3);
    assert ZeroFlagUpdateIndexAt(block, 5) == Some(3);
  }

  lemma SetDefinition(c: Condition)
    ensures DefinitionBefore(SetBlock(c), 2, 7) == Some(2)
  {
    hide SetBlock;
    var block := SetBlock(c);
    SetOperations(c);
    assert DefinitionBefore(block, 2, 3) == Some(2);
    assert DefinitionBefore(block, 2, 4) == Some(2);
    assert DefinitionBefore(block, 2, 5) == Some(2);
    assert DefinitionBefore(block, 2, 6) == Some(2);
  }

  lemma SetNotDead(c: Condition, i: nat)
    requires i < 7
    ensures !IsDead(SetBlock(c), i, true) && SinkTarget(SetBlock(c), i).None?
  {
    hide SetBlock, ReplacedBefore;
    SetOperations(c);
    if i == 3 { NothingReplaces(c); }
  }

  lemma NothingReplaces(c: Condition)
    ensures !ReplacedBefore(SetBlock(c), 4, true)
  {
    hide SetBlock;
    var block := SetBlock(c);
    SetOperations(c);
    assert !ReplacedBefore(block, 6, true);
    assert !ReplacedBefore(block, 5, true);
  }

  lemma SetUses(c: Condition)
    ensures EmittedUses(SetBlock(c), true, 2, 7) == 1
  {
    hide SetBlock, IsDead;
    var block := SetBlock(c);
    SetOperations(c);
    forall i | 0 <= i < 7
      ensures !IsDead(block, i, true)
    {
      SetNotDead(c, i);
    }
    assert EmittedUses(block, true, 2, 1) == 0;
    assert EmittedUses(block, true, 2, 2) == 0;
    assert EmittedUses(block, true, 2, 3) == 0;
    assert EmittedUses(block, true, 2, 4) == 1;
    assert EmittedUses(block, true, 2, 5) == 1;
    assert EmittedUses(block, true, 2, 6) == 1;
  }

  function AsWord(b: bool): u64 {
    if b then 1 else 0
  }

  /** What the condition says about the comparison of `l` with `r`. */
  predicate Right(c: Condition, l: u64, r: u64) {
    Means(c, DifferenceFlags(I64, l, r, 0))
  }

  /** What the emitted code answers: Equal and NotEqual from the register of the difference that
      no pass writes, any other condition from the flags word as it was before the block. */
  predicate Answer(c: Condition, stale: u64, rflags: u64) {
    if c == Equal || c == NotEqual then (stale == 0) == (c == Equal) else Holds(c, rflags)
  }

  /** The registers with DL set. */
  function WithDl(regs: Registers, x: u64): Registers { WriteRegister(regs, 2, I8, x) }

  lemma DlIsSet(regs: Registers, x: u64, y: u64)
    requires x <= 1 && y <= 1
    ensures WithDl(regs, x) == WithDl(regs, y) <==> x == y
    ensures WithDl(WithDl(regs, x), x) == WithDl(regs, x)
    ensures WithDl(regs, x)[0] == regs[0] && WithDl(regs, x)[1] == regs[1]
  {
    assert WithDl(regs, x)[2] % 0x100 == x && WithDl(regs, y)[2] % 0x100 == y;
  }

  /** Eagerly, DL becomes what the comparison says. */
  lemma EagerSet(host: Host, c: Condition, st: GuestState)
    ensures var l, r := st.regs[0], st.regs[1];
      var x := AsWord(Right(c, l, r));
      EagerPass(host, SetBlock(c), 0, Values(map[]), st) ==
      AtExit(6, Values(map[][0 := l][1 := r][2 := Sub64(l, r)][3 := x]),
        st.(rflags := Materialise(st.rflags, SubFormula(I64, l, r, Sub64(l, r))), regs := WithDl(st.regs, x)))
  {
    hide SetBlock, Materialise, SubFormula, Sub64, Holds, Execute, Right;
    var block := SetBlock(c);
    SetOperations(c);
    var l, r := st.regs[0], st.regs[1];
    var s2 := map[][0 := l][1 := r][2 := Sub64(l, r)];
    EagerCompares(host, c, st);
    var updated := st.(rflags := Materialise(st.rflags, SubFormula(I64, l, r, Sub64(l, r))));
    ComparisonTested(c, st.rflags, l, r);
    var x := AsWord(Holds(c, updated.rflags));
    Tests(host, block.operations[4], updated);
    EagerNext(host, block, 4, Values(s2), updated, x, updated);
    Writes(host, block.operations[5], x, updated);
    EagerNext(host, block, 5, Values(s2[3 := x]), updated, 0, updated.(regs := WithDl(updated.regs, x)));
  }

  lemma ComparisonTested(c: Condition, rflags: u64, l: u64, r: u64)
    ensures Holds(c, Materialise(rflags, SubFormula(I64, l, r, Sub64(l, r)))) == Right(c, l, r)
  {
    hide Holds, Means, Materialise, SubFormula, DifferenceFlags;
    TestsMeanConditions(c, Materialise(rflags, SubFormula(I64, l, r, Sub64(l, r))));
    SubtractFlagsExact(rflags, l, r);
  }

  lemma EagerCompares(host: Host, c: Condition, st: GuestState)
    ensures var l, r := st.regs[0], st.regs[1];
      EagerPass(host, SetBlock(c), 0, Values(map[]), st) ==
      EagerPass(host, SetBlock(c), 4, Values(map[][0 := l][1 := r][2 := Sub64(l, r)]),
        st.(rflags := Materialise(st.rflags, SubFormula(I64, l, r, Sub64(l, r)))))
  {
    hide SetBlock, Materialise, SubFormula, Sub64, Execute, EagerPass;
    var block := SetBlock(c);
    SetOperations(c);
    var l, r := st.regs[0], st.regs[1];
    var s1 := Values(map[][0 := l][1 := r]);
    var s2 := Values(s1.cells[2 := Sub64(l, r)]);
    Reads(host, block.operations[0], st);
    EagerNext(host, block, 0, Values(map[]), st, l, st);
    Reads(host, block.operations[1], st);
    EagerNext(host, block, 1, Values(map[][0 := l]), st, r, st);
    SubtractionValue(host, block.operations[2], l, r, 0, st);
    EagerNext(host, block, 2, s1, st, Sub64(l, r), st);
    UpdateExecutes(host, block.operations[3], l, r, Sub64(l, r), st);
    EagerNext(host, block, 3, s2, st, 0, st.(rflags := Materialise(st.rflags, SubFormula(I64, l, r, Sub64(l, r)))));
  }

  /** A store that the block's four values fit in. */
  predicate Fits(store: Store) {
    store.HostRegisters? ==> |store.assignment| == 4
  }

  function AfterReads(store: Store, st: GuestState): Store {
    Define(Define(store, Some(0), st.regs[0]), Some(1), st.regs[1])
  }

  lemma CompiledSet(host: Host, c: Condition, fast: nat -> bool, store: Store, st: GuestState)
    requires Fits(store)
    ensures var s := AfterReads(store, st);
      var x := AsWord(Answer(c, Read(s, 2), st.rflags));
      CompiledPass(host, SetBlock(c), PlanFor(SetBlock(c)), fast, 0, store, st) ==
      AtExit(6, Define(s, Some(3), x), st.(regs := WithDl(st.regs, x)))
  {
    hide SetBlock, PlanFor, CompiledStep, IsDead, Execute, AfterReads, Answer;
    var block, plan := SetBlock(c), Plan(true, Some(3), Some(2));
    SetOperations(c);
    SetPlan(c);
    var s := AfterReads(store, st);
    var x := AsWord(Answer(c, Read(s, 2), st.rflags));
    CompiledReads(host, c, fast, store, st);
    SetNotDead(c, 4);
    SetTest(host, c, fast, s, st);
    CompiledNext(host, block, plan, fast, 4, s, st, x, st);
    SetNotDead(c, 5);
    var after := Define(s, Some(3), x);
    StepAsWritten(host, block, plan, fast, 5, after, st);
    StillFits(store, st);
    assert Read(after, 3) == x;
    Writes(host, block.operations[5], x, st);
    CompiledNext(host, block, plan, fast, 5, after, st, 0, st.(regs := WithDl(st.regs, x)));
  }

  lemma StillFits(store: Store, st: GuestState)
    requires Fits(store)
    ensures Fits(AfterReads(store, st))
  {
  }

  lemma CompiledReads(host: Host, c: Condition, fast: nat -> bool, store: Store, st: GuestState)
    requires Fits(store)
    ensures var plan := Plan(true, Some(3), Some(2));
      CompiledPass(host, SetBlock(c), plan, fast, 0, store, st) ==
        CompiledPass(host, SetBlock(c), plan, fast, 4, AfterReads(store, st), st)
  {
    hide SetBlock, CompiledStep, CompiledPass, IsDead, Execute, Define;
    var block, plan := SetBlock(c), Plan(true, Some(3), Some(2));
    SetOperations(c);
    var s0 := Define(store, Some(0), st.regs[0]);
    var s1 := Define(s0, Some(1), st.regs[1]);
    SetNotDead(c, 0);
    SetNotDead(c, 1);
    StepAsWritten(host, block, plan, fast, 0, store, st);
    Reads(host, block.operations[0], st);
    CompiledNext(host, block, plan, fast, 0, store, st, st.regs[0], st);
    StepAsWritten(host, block, plan, fast, 1, s0, st);
    Reads(host, block.operations[1], st);
    CompiledNext(host, block, plan, fast, 1, s0, st, st.regs[1], st);
    CompiledSkips(host, block, plan, fast, 2, s1, st);
    CompiledSkips(host, block, plan, fast, 3, s1, st);
  }

  lemma SetTest(host: Host, c: Condition, fast: nat -> bool, store: Store, st: GuestState)
    ensures CompiledStep(host, SetBlock(c), Plan(true, Some(3), Some(2)), fast, 4, store, st) ==
      Continue(AsWord(Answer(c, Read(store, 2), st.rflags)), st)
  {
    hide SetBlock, Execute, ZeroFlagSourceAt, Holds;
    SetOperations(c);
    SetUpdate(c);
    Tests(host, SetBlock(c).operations[4], st);
    NarrowIs64(Read(store, 2));
  }

  /** For every condition, every state and every store: the passes end with the same registers
      exactly if the stale answer happens to be the right one. */
  lemma StaleReadersDiffer(host: Host, c: Condition, fast: nat -> bool, store: Store, st: GuestState)
    requires Fits(store)
    ensures var eager := EagerPass(host, SetBlock(c), 0, Values(map[]), st);
      var compiled := CompiledPass(host, SetBlock(c), PlanFor(SetBlock(c)), fast, 0, store, st);
      eager.AtExit? && compiled.AtExit? &&
      (compiled.state.regs == eager.state.regs <==>
        Answer(c, Read(AfterReads(store, st), 2), st.rflags) == Right(c, st.regs[0], st.regs[1]))
  {
    hide SetBlock, PlanFor, EagerPass, CompiledPass, Answer, Right, AfterReads;
    EagerSet(host, c, st);
    CompiledSet(host, c, fast, store, st);
    DlIsSet(st.regs, AsWord(Answer(c, Read(AfterReads(store, st), 2), st.rflags)),
      AsWord(Right(c, st.regs[0], st.regs[1])));
  }

  /** The assumption of `LoopTheorem` excludes every block of the family. */
  lemma SetBlockHasStaleReader(c: Condition)
    ensures !NoStaleReader(SetBlock(c), PlanFor(SetBlock(c)))
  {
    hide SetBlock, PlanFor, ZeroFlagSourceAt;
    SetOperations(c);
    SetPlan(c);
    SetUpdate(c);
    assert !ReadsFresh(SetBlock(c), Plan(true, Some(3), Some(2)), 4);
  }

  // ----- in the loop, on allocated registers

  /** A register for each of the four values. */
  predicate FourRegisters(assignment: seq<nat>) {
    |assignment| == 4 && forall v, w | 0 <= v < w < 4 :: assignment[v] != assignment[w]
  }

  lemma RegistersApart(c: Condition, last: seq<nat>, assignment: seq<nat>)
    requires AreLastUses(SetBlock(c), PlanFor(SetBlock(c)), last) && IsAllocation(SetBlock(c), last, assignment)
    ensures FourRegisters(assignment)
  {
    hide SetBlock, PlanFor, IsAllocation;
    var block, plan := SetBlock(c), Plan(true, Some(3), Some(2));
    SetOperations(c);
    SetPlan(c);
    SetDefined(c);
    forall v | 0 <= v < 3
      ensures last[v] >= 6
    {
      assert Touches(block, plan, v, 3, 6);
    }
    assert Touches(block, plan, 3, 5, 5);
    hide AreLastUses, Defined, Touches;
    assert |assignment| == 4 && |last| == 4 && RegistersDistinct(block, last, assignment, 6) &&
      RegistersDistinct(block, last, assignment, 4) by {
      AllocationMeans(block, last, assignment);
    }
    assert 0 in LiveAt(block, last, 6) && 1 in LiveAt(block, last, 6) && 2 in LiveAt(block, last, 6);
    assert 0 in LiveAt(block, last, 4) && 1 in LiveAt(block, last, 4) && 2 in LiveAt(block, last, 4) &&
      3 in LiveAt(block, last, 4);
  }

  lemma AllocationMeans(block: Block, last: seq<nat>, assignment: seq<nat>)
    requires IsAllocation(block, last, assignment)
    ensures |assignment| == block.valueCount == |last|
    ensures forall d | 0 <= d < |block.operations| :: RegistersDistinct(block, last, assignment, d)
  {
  }

  lemma SetDefined(c: Condition)
    ensures Defined(SetBlock(c), 5) == {0, 1, 2, 3} && Defined(SetBlock(c), 7) == {0, 1, 2, 3}
  {
    hide SetBlock;
    var block := SetBlock(c);
    SetOperations(c);
    assert Defined(block, 1) == {0};
    assert Defined(block, 2) == {0, 1};
    assert Defined(block, 3) == {0, 1, 2};
    assert Defined(block, 4) == {0, 1, 2};
    assert Defined(block, 5) == {0, 1, 2, 3};
    assert Defined(block, 6) == {0, 1, 2, 3};
  }

  /** The budget left when the loop ends: a comparison that finds no difference ends it, the budget
      or the stop test end it otherwise. */
  function LeftOver(stop: (u64, map<u64, byte>) -> bool, budget: u64, memory: map<u64, byte>, again: bool): u64
    decreases Passes(budget)
  {
    var rest := Sub64(budget, 1);
    if again && rest != 0 && !stop(rest, memory) then LeftOver(stop, rest, memory, again) else rest
  }

  /** How both loops leave, but for what is in DL. */
  function LeftWith(stop: (u64, map<u64, byte>) -> bool, budget: u64, st: GuestState, x: u64): LoopOutcome {
    var l, r := st.regs[0], st.regs[1];
    var rip := if l == r then START + 8 else START;
    LoopLeft(Conditional, LeftOver(stop, budget, st.memory, l != r),
      st.(rip := rip, rflags := ComparedFlags(st.rflags, l, r), regs := WithDl(st.regs, x)))
  }

  function ComparedFlags(rflags: u64, l: u64, r: u64): u64 {
    Materialise(rflags, SubFormula(I64, l, r, Sub64(l, r)))
  }

  lemma ComparedTwice(rflags: u64, l: u64, r: u64)
    ensures ComparedFlags(ComparedFlags(rflags, l, r), l, r) == ComparedFlags(rflags, l, r)
  {
    hide SystemFlags, SubFormula, Sub64;
    SystemOfMaterialise(rflags, SubFormula(I64, l, r, Sub64(l, r)));
  }

  lemma TakenIfDifferent(rflags: u64, l: u64, r: u64)
    ensures Holds(NotEqual, ComparedFlags(rflags, l, r)) <==> l != r
    ensures BranchTaken(NotTakenBranch(NotEqual), CompareFlags(l, r)) <==> l == r
  {
    hide Materialise, SubFormula, Sub64, Holds, CompareFlags;
    DeferredConditionAgrees(NotEqual, rflags, l, r);
  }

  lemma EagerCompared(host: Host, c: Condition, st: GuestState)
    ensures var l, r := st.regs[0], st.regs[1];
      var p := EagerPass(host, SetBlock(c), 0, Values(map[]), st);
      p.AtExit? && p.index == 6 &&
      p.state == st.(rflags := ComparedFlags(st.rflags, l, r), regs := WithDl(st.regs, AsWord(Right(c, l, r))))
  {
    hide SetBlock, EagerPass, Right, Materialise, SubFormula, WithDl;
    EagerSet(host, c, st);
  }

  lemma {:induction false} EagerLeaves(host: Host, c: Condition, stop: (u64, map<u64, byte>) -> bool, budget: u64,
                                       st: GuestState)
    ensures EagerLoop(host, SetBlock(c), stop, budget, st) ==
      LeftWith(stop, budget, st, AsWord(Right(c, st.regs[0], st.regs[1])))
    decreases Passes(budget)
  {
    hide SetBlock, EagerPass, Right, Materialise, SubFormula, Holds, WithDl, ComparedFlags;
    SetOperations(c);
    EagerCompared(host, c, st);
    var l, r := st.regs[0], st.regs[1];
    var x, rest := AsWord(Right(c, l, r)), Sub64(budget, 1);
    TakenIfDifferent(st.rflags, l, r);
    if l != r && rest != 0 && !stop(rest, st.memory) {
      var s := st.(rip := START, rflags := ComparedFlags(st.rflags, l, r), regs := WithDl(st.regs, x));
      DlIsSet(st.regs, x, x);
      ComparedTwice(st.rflags, l, r);
      EagerLeaves(host, c, stop, rest, s);
    }
  }

  /** What is in the registers at the exit: the operands are there to be compared and subtracted
      again, and the difference's register still holds what it held before the pass. */
  lemma ExitRegisters(c: Condition, assignment: seq<nat>, contents: map<nat, u64>, st: GuestState, x: u64, rflags: u64)
    requires FourRegisters(assignment)
    ensures var registers, l, r := HostRegisters(assignment, contents), st.regs[0], st.regs[1];
      var s := Define(AfterReads(registers, st), Some(3), x);
      s.HostRegisters? && s.assignment == assignment && Read(s, 0) == l && Read(s, 1) == r &&
      Read(AfterReads(registers, st), 2) == Read(registers, 2) && Read(s, 2) == Read(registers, 2) &&
      FinalFlags(SetBlock(c), Plan(true, Some(3), Some(2)), s, rflags) == ComparedFlags(rflags, l, r)
  {
    hide SetBlock, Materialise, SubFormula, Sub64, Recomputed;
    SetOperations(c);
    var s := Define(AfterReads(HostRegisters(assignment, contents), st), Some(3), x);
    RecomputedReads(Plan(true, Some(3), Some(2)), SetBlock(c).operations[3], assignment, s.contents, st.regs[0],
      st.regs[1]);
  }

  lemma RecomputedReads(plan: Plan, update: Operation, assignment: seq<nat>, contents: map<nat, u64>, l: u64, r: u64)
    requires plan.skippedResult.Some? && update.lhs == Some(0) && update.rhs == Some(1) && update.third == Some(2)
    requires FourRegisters(assignment)
    requires Read(HostRegisters(assignment, contents), 0) == l && Read(HostRegisters(assignment, contents), 1) == r
    ensures var after := Recomputed(plan, update, HostRegisters(assignment, contents));
      Operand(after, update.lhs) == l && Operand(after, update.rhs) == r && Operand(after, update.third) == Sub64(l, r)
  {
    hide Sub64;
  }

  lemma CompiledSees(host: Host, c: Condition, fast: nat -> bool, assignment: seq<nat>, contents: map<nat, u64>,
                     st: GuestState)
    requires FourRegisters(assignment)
    ensures var registers, l, r := HostRegisters(assignment, contents), st.regs[0], st.regs[1];
      var x := AsWord(Answer(c, Read(registers, 2), st.rflags));
      var p := CompiledPass(host, SetBlock(c), Plan(true, Some(3), Some(2)), fast, 0, registers, st);
      p.AtExit? && p.index == 6 && p.state == st.(regs := WithDl(st.regs, x)) &&
      p.store.HostRegisters? && p.store.assignment == assignment && Read(p.store, 2) == Read(registers, 2) &&
      ExitTaken(SetBlock(c), Plan(true, Some(3), Some(2)), JumpBack(START + 6, START + 8), p.store, st.rflags) ==
        (l != r) &&
      FinalFlags(SetBlock(c), Plan(true, Some(3), Some(2)), p.store, st.rflags) == ComparedFlags(st.rflags, l, r)
  {
    hide SetBlock, PlanFor, CompiledPass, Answer, ComparedFlags, BranchTaken, CompareFlags, AfterReads, FinalFlags,
      WithDl, FourRegisters;
    SetOperations(c);
    SetPlan(c);
    var registers := HostRegisters(assignment, contents);
    FourFit(assignment, contents);
    CompiledSet(host, c, fast, registers, st);
    ExitRegisters(c, assignment, contents, st, AsWord(Answer(c, Read(registers, 2), st.rflags)), st.rflags);
    TakenIfDifferent(st.rflags, st.regs[0], st.regs[1]);
  }

  lemma FourFit(assignment: seq<nat>, contents: map<nat, u64>)
    requires FourRegisters(assignment)
    ensures Fits(HostRegisters(assignment, contents))
  {
  }

  lemma {:induction false} CompiledLeaves(host: Host, c: Condition, fast: u64 -> nat -> bool,
                                          stop: (u64, map<u64, byte>) -> bool, budget: u64, assignment: seq<nat>,
                                          contents: map<nat, u64>, st: GuestState)
    requires FourRegisters(assignment)
    ensures var registers := HostRegisters(assignment, contents);
      CompiledLoop(host, SetBlock(c), Plan(true, Some(3), Some(2)), fast, stop, budget, registers, st) ==
      LeftWith(stop, budget, st, AsWord(Answer(c, Read(registers, 2), st.rflags)))
    decreases Passes(budget)
  {
    hide SetBlock, CompiledPass, Answer, ComparedFlags, FinalFlags, ExitTaken, WithDl, FourRegisters, Read;
    SetOperations(c);
    var plan, registers := Plan(true, Some(3), Some(2)), HostRegisters(assignment, contents);
    CompiledSees(host, c, fast(budget), assignment, contents, st);
    var p := CompiledPass(host, SetBlock(c), plan, fast(budget), 0, registers, st);
    var x, rest := AsWord(Answer(c, Read(registers, 2), st.rflags)), Sub64(budget, 1);
    if st.regs[0] != st.regs[1] && rest != 0 && !stop(rest, st.memory) {
      DlIsSet(st.regs, x, x);
      CompiledLeaves(host, c, fast, stop, rest, assignment, p.store.contents, p.state);
    }
  }

  /** For all operands, all budgets and any number of passes: the emitted loop ends as the eager
      loop does exactly if the stale answer is the right one. */
  lemma StaleLoopDiffers(host: Host, c: Condition, fast: u64 -> nat -> bool, stop: (u64, map<u64, byte>) -> bool,
                         budget: u64, last: seq<nat>, assignment: seq<nat>, contents: map<nat, u64>, st: GuestState)
    requires AreLastUses(SetBlock(c), PlanFor(SetBlock(c)), last) && IsAllocation(SetBlock(c), last, assignment)
    ensures var registers := HostRegisters(assignment, contents);
      var eager := EagerLoop(host, SetBlock(c), stop, budget, st);
      var compiled := CompiledLoop(host, SetBlock(c), PlanFor(SetBlock(c)), fast, stop, budget, registers, st);
      compiled == eager <==> Answer(c, Read(registers, 2), st.rflags) == Right(c, st.regs[0], st.regs[1])
  {
    hide SetBlock, PlanFor, Answer, Right, ComparedFlags, AreLastUses, IsAllocation, EagerLoop, CompiledLoop,
      FourRegisters, WithDl, LeftOver;
    RegistersApart(c, last, assignment);
    SetPlan(c);
    EagerLeaves(host, c, stop, budget, st);
    CompiledLeaves(host, c, fast, stop, budget, assignment, contents, st);
    DlIsSet(st.regs, AsWord(Answer(c, Read(HostRegisters(assignment, contents), 2), st.rflags)),
      AsWord(Right(c, st.regs[0], st.regs[1])));
  }
}
