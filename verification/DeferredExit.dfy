/** Why a loop may leave the flags of its last comparison unwritten until it is left. */
module DeferredExit {
  import opened Options
  import opened Words
  import opened Flags
  import opened FlagHelpers
  import opened Compare
  import opened IR
  import opened FlagPasses
  import opened FlagSimulation
  import opened LinearScan
  import opened RegisterRun
  import opened SelfLoop
  import opened ExactFlags

  // ----- what is deferred

  /** The update `u` compares two operands and records the flags of their difference. */
  predicate RecordsItsDifference(block: Block, u: nat, k: nat) {
    k < u < |block.operations| &&
    var update, difference := block.operations[u], block.operations[k];
    difference.opcode.Sub? && difference.width == I64 && difference.result.Some? && update.third == difference.result &&
    update.lhs == difference.lhs && update.rhs == difference.rhs
  }

  /** What `PlanFor` finds when it defers, and what it takes for granted. */
  ghost predicate Deferral(block: Block, plan: Plan, u: nat, k: nat) {
    plan.fuse && plan.deferred == Some(u) && (plan.skippedResult.None? || plan.skippedResult == Some(k)) &&
    RecordsItsDifference(block, u, k) && u + 1 < |block.operations| &&
    block.operations[u].opcode.UpdateSubFlags? && block.operations[u].width == I64 &&
    (forall j | u < j < |block.operations| - 1 :: PreservesZeroFlagSource(block.operations[j].opcode)) &&
    block.operations[|block.operations| - 1].exitKind == Conditional &&
    HasHostCondition(block.operations[|block.operations| - 1].condition) &&
    NoStaleReader(block, plan) && SkippedUnread(block, plan)
  }

  // ----- the simulation: the flags words agree outside the arithmetic flags

  ghost predicate SameOutsideFlags(eager: GuestState, compiled: GuestState) {
    compiled == eager.(rflags := compiled.rflags) && SystemFlags(compiled.rflags) == SystemFlags(eager.rflags)
  }

  /** Once the difference is defined, the eager store holds it. */
  ghost predicate DifferenceKnown(block: Block, k: nat, i: nat, eager: Store)
    requires k < |block.operations|
  {
    var difference := block.operations[k];
    k < i && difference.result.Some? ==>
      Read(eager, difference.result.value) == Sub64(Operand(eager, difference.lhs), Operand(eager, difference.rhs))
  }

  /** After the deferred update, the eager word is the compiled one with that update applied. */
  ghost predicate UpdateOwed(block: Block, u: nat, i: nat, eagerStore: Store, eager: u64, compiled: u64)
    requires u < |block.operations|
  {
    var update := block.operations[u];
    var l, r := Operand(eagerStore, update.lhs), Operand(eagerStore, update.rhs);
    u < i ==> eager == Materialise(compiled, SubFormula(I64, l, r, Sub64(l, r)))
  }

  ghost predicate Owes(block: Block, plan: Plan, u: nat, k: nat, i: nat, eagerStore: Store, eager: GuestState,
                       store: Store, st: GuestState)
    requires i <= |block.operations| && k < |block.operations| && u < |block.operations|
  {
    AgreeUnlessSkipped(block, plan, i, eagerStore, store) && SameOutsideFlags(eager, st) &&
    ZeroFlagTracks(block, i, eagerStore, eager.rflags) && DifferenceKnown(block, k, i, eagerStore) &&
    UpdateOwed(block, u, i, eagerStore, eager.rflags, st.rflags)
  }

  lemma AgreeStep(block: Block, plan: Plan, i: nat, eager: Store, compiled: Store, x: u64)
    requires WellFormed(block) && i < |block.operations| && AgreeUnlessSkipped(block, plan, i, eager, compiled)
    ensures var r := block.operations[i].result;
      AgreeUnlessSkipped(block, plan, i + 1, Define(eager, r, x), Define(compiled, r, x))
  {
    hide IsSkippedValue;
    DefinedNext(block, i);
    hide Defined;
  }

  lemma DifferenceStep(block: Block, k: nat, i: nat, store: Store, x: u64)
    requires WellFormed(block) && i < |block.operations| && k < |block.operations| && store.Values?
    requires DifferenceKnown(block, k, i, store)
    requires k == i && block.operations[k].result.Some? ==>
      x == Sub64(Operand(store, block.operations[k].lhs), Operand(store, block.operations[k].rhs))
    ensures DifferenceKnown(block, k, i + 1, Define(store, block.operations[i].result, x))
  {
    var r := block.operations[i].result;
    if k <= i && block.operations[k].result.Some? {
      OperandsOutlive(block, k, i, store, x);
      assert OperationWellFormed(block, k);
      if k < i {
        DefinedIsKept(block, k, i, store, x, block.operations[k].result.value);
      }
    }
  }

  /** The operands of operation `k` keep their values. */
  lemma OperandsOutlive(block: Block, k: nat, i: nat, store: Store, x: u64)
    requires WellFormed(block) && k <= i < |block.operations| && store.Values?
    ensures var r, op := block.operations[i].result, block.operations[k];
      Operand(Define(store, r, x), op.lhs) == Operand(store, op.lhs) &&
      Operand(Define(store, r, x), op.rhs) == Operand(store, op.rhs)
  {
    assert OperationWellFormed(block, k);
    DefinedGrows(block, k, i);
    var op := block.operations[k];
    if op.lhs.Some? {
      assert op.lhs.value in Uses(op);
      EarlierValueKept(block, i, store, x, op.lhs.value);
    }
    if op.rhs.Some? {
      assert op.rhs.value in Uses(op);
      EarlierValueKept(block, i, store, x, op.rhs.value);
    }
  }

  lemma DefinedIsKept(block: Block, k: nat, i: nat, store: Store, x: u64, v: ValueId)
    requires WellFormed(block) && k < i < |block.operations| && store.Values? && block.operations[k].result == Some(v)
    ensures Read(Define(store, block.operations[i].result, x), v) == Read(store, v)
  {
    DefinedGrows(block, k + 1, i);
    EarlierValueKept(block, i, store, x, v);
  }

  lemma OwedStep(block: Block, u: nat, i: nat, store: Store, eager: u64, compiled: u64, x: u64)
    requires WellFormed(block) && u < i < |block.operations| && store.Values?
    requires UpdateOwed(block, u, i, store, eager, compiled)
    ensures UpdateOwed(block, u, i + 1, Define(store, block.operations[i].result, x), eager, compiled)
  {
    hide Materialise, SubFormula;
    OperandsOutlive(block, u, i, store, x);
  }

  /** An operation that is no update changes no eager flag; the compiled word may pick up a sunk
      update, but not once the deferred one is owed. */
  lemma QuietlyOwes(block: Block, plan: Plan, u: nat, k: nat, i: nat, eagerStore: Store, eager: GuestState,
                    store: Store, st: GuestState, x: u64, next: GuestState, after: GuestState)
    requires WellFormed(block) && i < |block.operations| && Deferral(block, plan, u, k)
    requires Owes(block, plan, u, k, i, eagerStore, eager, store, st)
    requires !IsFlagUpdate(block.operations[i].opcode)
    requires next.rflags == eager.rflags && SameOutsideFlags(next, after)
    requires u < i ==> after.rflags == st.rflags
    requires i == k ==>
      x == Sub64(Operand(eagerStore, block.operations[k].lhs), Operand(eagerStore, block.operations[k].rhs))
    ensures var r := block.operations[i].result;
      Owes(block, plan, u, k, i + 1, Define(eagerStore, r, x), next, Define(store, r, x), after)
  {
    hide SystemFlags, Materialise, SubFormula, SkippedUnread, Sub64;
    AgreeStep(block, plan, i, eagerStore, store, x);
    DifferenceStep(block, k, i, eagerStore, x);
    SourceStep(block, i, eagerStore, eager.rflags, x);
    if u < i {
      OwedStep(block, u, i, eagerStore, eager.rflags, st.rflags, x);
    }
  }

  lemma SourceStep(block: Block, i: nat, store: Store, rflags: u64, x: u64)
    requires WellFormed(block) && i < |block.operations| && store.Values?
    requires !IsFlagUpdate(block.operations[i].opcode) && ZeroFlagTracks(block, i, store, rflags)
    ensures ZeroFlagTracks(block, i + 1, Define(store, block.operations[i].result, x), rflags)
  {
    var source := ZeroFlagSourceAt(block, i + 1);
    if source.Some? {
      ZeroFlagSourceDefined(block, i);
      EarlierValueKept(block, i, store, x, source.value.value);
    }
  }

  /** The code of an operation keeps the two runs together, up to arithmetic flags at a fault. */
  ghost predicate OwingStep(host: Host, block: Block, plan: Plan, fast: nat -> bool, u: nat, k: nat, i: nat,
                            eagerStore: Store, eager: GuestState, store: Store, st: GuestState)
    requires i < |block.operations| && k < |block.operations| && u < |block.operations|
  {
    var op := block.operations[i];
    var expected := Execute(host, op, Operand(eagerStore, op.lhs), Operand(eagerStore, op.rhs),
      Operand(eagerStore, op.third), eager);
    match CompiledStep(host, block, plan, fast, i, store, st)
    case Fault(s) => expected.Fault? && SameOutsideFlags(expected.state, s)
    case Continue(x, s) =>
      expected.Continue? && expected.value == x &&
      Owes(block, plan, u, k, i + 1, Define(eagerStore, op.result, x), expected.state, Define(store, op.result, x), s)
  }

  /** Only tests and byte loads are compiled differently from what they mean. */
  lemma StepAsWritten(host: Host, block: Block, plan: Plan, fast: nat -> bool, i: nat, store: Store, st: GuestState)
    requires i < |block.operations| && !IsTest(block.operations[i].opcode) && !block.operations[i].opcode.LoadGuest?
    ensures var op := block.operations[i];
      CompiledStep(host, block, plan, fast, i, store, st) ==
      Execute(host, op, Operand(store, op.lhs), Operand(store, op.rhs), Operand(store, op.third), st)
  {
    hide Execute, FusedHolds, ZeroFlagSourceAt;
  }

  lemma OwingPure(host: Host, block: Block, plan: Plan, fast: nat -> bool, u: nat, k: nat, i: nat,
                  eagerStore: Store, eager: GuestState, store: Store, st: GuestState)
    requires WellFormed(block) && i < |block.operations| && Deferral(block, plan, u, k) && !Skipped(block, plan, i)
    requires Owes(block, plan, u, k, i, eagerStore, eager, store, st) && IsPure(block.operations[i].opcode)
    ensures OwingStep(host, block, plan, fast, u, k, i, eagerStore, eager, store, st)
  {
    hide SystemFlags, Owes, Sub64, IsSkippedValue, Skipped, SkippedUnread, WellFormed, CompiledStep, Execute,
      NoStaleReader;
    var op := block.operations[i];
    StepAsWritten(host, block, plan, fast, i, store, st);
    EmittedAgree(block, plan, u, k, i, eagerStore, eager, store, st);
    var a, b, c := Operand(store, op.lhs), Operand(store, op.rhs), Operand(store, op.third);
    OutsideFlags(block, plan, u, k, i, eagerStore, eager, store, st);
    PureIgnoresFlags(host, op, a, b, c, eager, st.rflags);
    var e := Execute(host, op, a, b, c, eager);
    var after := e.state.(rflags := st.rflags);
    if i == k {
      SubtractionValue(host, op, a, b, c, eager);
    }
    QuietlyOwes(block, plan, u, k, i, eagerStore, eager, store, st, e.value, e.state, after);
  }

  lemma EmittedAgree(block: Block, plan: Plan, u: nat, k: nat, i: nat, eagerStore: Store, eager: GuestState,
                     store: Store, st: GuestState)
    requires WellFormed(block) && i < |block.operations| && Deferral(block, plan, u, k) && !Skipped(block, plan, i)
    requires Owes(block, plan, u, k, i, eagerStore, eager, store, st)
    ensures var op := block.operations[i];
      Operand(eagerStore, op.lhs) == Operand(store, op.lhs) &&
      Operand(eagerStore, op.rhs) == Operand(store, op.rhs) &&
      Operand(eagerStore, op.third) == Operand(store, op.third)
  {
    EmittedOperandsAgree(block, plan, i, eagerStore, store);
  }

  lemma OutsideFlags(block: Block, plan: Plan, u: nat, k: nat, i: nat, eagerStore: Store, eager: GuestState,
                     store: Store, st: GuestState)
    requires i <= |block.operations| && k < |block.operations| && u < |block.operations|
    requires Owes(block, plan, u, k, i, eagerStore, eager, store, st)
    ensures SameOutsideFlags(eager, st) && eagerStore.Values? && store.Values?
  {
  }

  lemma SubtractionValue(host: Host, op: Operation, a: u64, b: u64, c: u64, st: GuestState)
    requires op.opcode.Sub? && op.width == I64
    ensures Execute(host, op, a, b, c, st) == Continue(Sub64(a, b), st)
  {
  }

  /** An update that is not the deferred one: the eager word changes to `f`, the compiled one to
      `g`, and only arithmetic flags differ. */
  lemma UpdateOwes(host: Host, block: Block, plan: Plan, u: nat, k: nat, i: nat,
                   eagerStore: Store, eager: GuestState, store: Store, st: GuestState, f: u64, g: u64)
    requires WellFormed(block) && i < u < |block.operations| && k < |block.operations|
    requires IsFlagUpdate(block.operations[i].opcode) && block.operations[k].opcode.Sub?
    requires Owes(block, plan, u, k, i, eagerStore, eager, store, st)
    requires SystemFlags(f) == SystemFlags(eager.rflags) && SystemFlags(g) == SystemFlags(st.rflags)
    requires ZeroFlagTracks(block, i + 1, eagerStore, f)
    ensures block.operations[i].result.None?
    ensures Owes(block, plan, u, k, i + 1, eagerStore, eager.(rflags := f), store, st.(rflags := g))
  {
    hide SystemFlags, Materialise, SubFormula, ZeroFlagTracks, IsSkippedValue, Sub64;
    assert OperationWellFormed(block, i);
    hide WellFormed, HasOperands;
    DefinedNext(block, i);
    hide Defined;
  }

  /** No update follows the deferred one. */
  lemma LastUpdate(block: Block, plan: Plan, u: nat, k: nat, i: nat)
    requires WellFormed(block) && Deferral(block, plan, u, k) && i < |block.operations| &&
      IsFlagUpdate(block.operations[i].opcode)
    ensures i <= u < |block.operations| && k < u && block.operations[k].opcode.Sub?
  {
    hide NoStaleReader, SkippedUnread;
  }

  lemma OwesZeroFlag(block: Block, plan: Plan, u: nat, k: nat, i: nat, eagerStore: Store, eager: GuestState,
                     store: Store, st: GuestState)
    requires i <= |block.operations| && k < |block.operations| && u < |block.operations|
    requires Owes(block, plan, u, k, i, eagerStore, eager, store, st)
    ensures ZeroFlagTracks(block, i, eagerStore, eager.rflags)
    ensures AgreeUnlessSkipped(block, plan, i, eagerStore, store)
  {
  }

  lemma OwingUpdate(host: Host, block: Block, plan: Plan, fast: nat -> bool, u: nat, k: nat, i: nat,
                    eagerStore: Store, eager: GuestState, store: Store, st: GuestState)
    requires WellFormed(block) && i < |block.operations| && Deferral(block, plan, u, k) && !Skipped(block, plan, i)
    requires Owes(block, plan, u, k, i, eagerStore, eager, store, st) && IsFlagUpdate(block.operations[i].opcode)
    ensures OwingStep(host, block, plan, fast, u, k, i, eagerStore, eager, store, st)
  {
    hide FlagsAfter, Owes, WellFormed, SkippedUnread, CompiledStep, Execute;
    var op := block.operations[i];
    StepAsWritten(host, block, plan, fast, i, store, st);
    LastUpdate(block, plan, u, k, i);
    EmittedAgree(block, plan, u, k, i, eagerStore, eager, store, st);
    assert i < u;
    hide Deferral, Skipped;
    var a, b, c := Operand(store, op.lhs), Operand(store, op.rhs), Operand(store, op.third);
    var f, g := FlagsAfter(host, op, a, b, c, eager.rflags), FlagsAfter(host, op, a, b, c, st.rflags);
    UpdateKeepsSystem(host, op, a, b, c, eager.rflags);
    UpdateKeepsSystem(host, op, a, b, c, st.rflags);
    UpdateTracksZero(host, block, i, eagerStore, eager.rflags);
    UpdateOwes(host, block, plan, u, k, i, eagerStore, eager, store, st, f, g);
    UpdateExecutes(host, op, a, b, c, eager);
    UpdateExecutes(host, op, a, b, c, st);
  }

  /** A fused test gives the answer that the eager flags word would give. */
  lemma FusedAnswer(block: Block, plan: Plan, u: nat, k: nat, i: nat, eagerStore: Store, eager: GuestState,
                    store: Store, st: GuestState)
    requires WellFormed(block) && i < |block.operations| && Deferral(block, plan, u, k) && !Skipped(block, plan, i)
    requires Owes(block, plan, u, k, i, eagerStore, eager, store, st) && Fused(block, plan, i)
    ensures var op, source := block.operations[i], ZeroFlagSourceAt(block, i).value;
      FusedHolds(op, source, Read(store, source.value)) == Holds(op.condition, eager.rflags)
  {
    hide SystemFlags, Materialise, SubFormula, SkippedUnread, NoStaleReader, Narrow, Owes, WellFormed, Skipped;
    OwesZeroFlag(block, plan, u, k, i, eagerStore, eager, store, st);
    FusedSourceAgrees(block, plan, i, eagerStore, store);
    hide ZeroFlagSourceAt;
  }

  /** Any other test meets the eager flags word. */
  lemma UnfusedMeetsFlags(block: Block, plan: Plan, clean: bool, u: nat, k: nat, i: nat, eagerStore: Store,
                          eager: GuestState, st: GuestState)
    requires WellFormed(block) && i < |block.operations| && Deferral(block, plan, u, k)
    requires Tracks(block, plan, clean, u, i, eagerStore, eager, st) && IsTest(block.operations[i].opcode) &&
      !Fused(block, plan, i)
    ensures st.rflags == eager.rflags
  {
    assert ReadsFresh(block, plan, i);
    assert !Fused(block, Plan(true, None, None), i);
    hide Simulates, WellFormed, Deferral, SystemFlags;
    TestMeetsFlags(block, true, i, eagerStore, eager, eagerStore, st);
  }

  lemma OwingTest(host: Host, block: Block, plan: Plan, fast: nat -> bool, clean: bool, u: nat, k: nat, i: nat,
                  eagerStore: Store, eager: GuestState, store: Store, st: GuestState)
    requires WellFormed(block) && i < |block.operations| && Deferral(block, plan, u, k) && !Skipped(block, plan, i)
    requires Owes(block, plan, u, k, i, eagerStore, eager, store, st) && IsTest(block.operations[i].opcode)
    requires Tracks(block, plan, clean, u, i, eagerStore, eager, st)
    ensures OwingStep(host, block, plan, fast, u, k, i, eagerStore, eager, store, st)
  {
    hide SystemFlags, Owes, WellFormed, FusedHolds, Tracks;
    var op := block.operations[i];
    EmittedAgree(block, plan, u, k, i, eagerStore, eager, store, st);
    if Fused(block, plan, i) {
      FusedAnswer(block, plan, u, k, i, eagerStore, eager, store, st);
    } else {
      UnfusedMeetsFlags(block, plan, clean, u, k, i, eagerStore, eager, st);
    }
    OutsideFlags(block, plan, u, k, i, eagerStore, eager, store, st);
    NoTestInPlaceOf(block, plan, u, k, i);
    hide Skipped, Deferral, Holds, ZeroFlagSourceAt;
    var a := Operand(store, op.lhs);
    var holds := Holds(op.condition, eager.rflags);
    var x := if op.opcode.EvaluateCondition? && holds then 1 else 0;
    var regs := if op.opcode.EvaluateCondition? then eager.regs else ConditionalMove(op, a, eager.regs, holds);
    QuietlyOwes(block, plan, u, k, i, eagerStore, eager, store, st, x, eager.(regs := regs), st.(regs := regs));
  }

  lemma NoTestInPlaceOf(block: Block, plan: Plan, u: nat, k: nat, i: nat)
    requires Deferral(block, plan, u, k) && i < |block.operations| && IsTest(block.operations[i].opcode)
    ensures i != k && i != u
  {
    hide NoStaleReader, SkippedUnread;
  }

  /** Memory operations do not look at the flags word. */
  lemma MemorySteps(host: Host, block: Block, plan: Plan, fast: nat -> bool, i: nat, store: Store, eager: GuestState,
                    st: GuestState)
    requires i < |block.operations| && SameOutsideFlags(eager, st)
    requires block.operations[i].opcode.LoadGuest? || block.operations[i].opcode.StoreGuest?
    ensures var op := block.operations[i];
      var e := Execute(host, op, Operand(store, op.lhs), Operand(store, op.rhs), Operand(store, op.third), eager);
      var s := CompiledStep(host, block, plan, fast, i, store, st);
      s.Continue? == e.Continue? && (e.Continue? ==> s.value == e.value) &&
      SameOutsideFlags(e.state, s.state) && e.state.rflags == eager.rflags
  {
    hide SystemFlags, FlushSunk, LoadValue, StoreBytes;
    FlushKeepsSystem(block, i, store, st.rflags);
  }

  lemma OwingMemory(host: Host, block: Block, plan: Plan, fast: nat -> bool, u: nat, k: nat, i: nat,
                    eagerStore: Store, eager: GuestState, store: Store, st: GuestState)
    requires WellFormed(block) && i < |block.operations| && Deferral(block, plan, u, k) && !Skipped(block, plan, i)
    requires Owes(block, plan, u, k, i, eagerStore, eager, store, st)
    requires block.operations[i].opcode.LoadGuest? || block.operations[i].opcode.StoreGuest?
    ensures OwingStep(host, block, plan, fast, u, k, i, eagerStore, eager, store, st)
  {
    hide SystemFlags, Owes, WellFormed, CompiledStep, Execute;
    var op := block.operations[i];
    EmittedAgree(block, plan, u, k, i, eagerStore, eager, store, st);
    OutsideFlags(block, plan, u, k, i, eagerStore, eager, store, st);
    MemorySteps(host, block, plan, fast, i, store, eager, st);
    NoMemoryAfter(block, plan, u, k, i);
    hide Deferral, Skipped;
    var e := Execute(host, op, Operand(store, op.lhs), Operand(store, op.rhs), Operand(store, op.third), eager);
    var s := CompiledStep(host, block, plan, fast, i, store, st);
    if e.Continue? {
      QuietlyOwes(block, plan, u, k, i, eagerStore, eager, store, st, e.value, e.state, s.state);
    }
  }

  lemma NoMemoryAfter(block: Block, plan: Plan, u: nat, k: nat, i: nat)
    requires WellFormed(block) && Deferral(block, plan, u, k) && i < |block.operations|
    requires block.operations[i].opcode.LoadGuest? || block.operations[i].opcode.StoreGuest?
    ensures i < u && i != k
  {
    hide NoStaleReader, SkippedUnread;
  }

  lemma FlushKeepsSystem(block: Block, i: nat, store: Store, rflags: u64)
    ensures SystemFlags(FlushSunk(block, i, store, rflags)) == SystemFlags(rflags)
  {
    hide SystemFlags, Materialise, SunkUpdateAt;
    var sunk := SunkUpdateAt(block, i);
    if sunk.Some? && sunk.value < |block.operations| {
      var update := block.operations[sunk.value];
      SystemOfMaterialise(rflags, LogicFormula(update.width, Operand(store, update.lhs)));
    }
  }

  // ----- operations for which nothing is emitted

  /** The eager run of a skipped operation, with nothing on the compiled side. */
  ghost predicate OwingSkip(host: Host, block: Block, plan: Plan, u: nat, k: nat, i: nat,
                            eagerStore: Store, eager: GuestState, store: Store, st: GuestState)
    requires i < |block.operations| && k < |block.operations| && u < |block.operations|
  {
    var op := block.operations[i];
    var e := Execute(host, op, Operand(eagerStore, op.lhs), Operand(eagerStore, op.rhs), Operand(eagerStore, op.third),
      eager);
    e.Continue? && Owes(block, plan, u, k, i + 1, Define(eagerStore, op.result, e.value), e.state, store, st)
  }

  lemma SkippedDifference(host: Host, block: Block, plan: Plan, u: nat, k: nat, i: nat,
                          eagerStore: Store, eager: GuestState, store: Store, st: GuestState)
    requires WellFormed(block) && Deferral(block, plan, u, k) && plan.skippedResult == Some(i)
    requires i == k && Owes(block, plan, u, k, i, eagerStore, eager, store, st)
    ensures OwingSkip(host, block, plan, u, k, i, eagerStore, eager, store, st)
  {
    hide SystemFlags, Materialise, SubFormula, SkippedUnread, Sub64, NoStaleReader;
    var op := block.operations[i];
    var x := Sub64(Operand(eagerStore, op.lhs), Operand(eagerStore, op.rhs));
    SubtractionValue(host, op, Operand(eagerStore, op.lhs), Operand(eagerStore, op.rhs), Operand(eagerStore, op.third),
      eager);
    DifferenceStep(block, k, i, eagerStore, x);
    SourceStep(block, i, eagerStore, eager.rflags, x);
    DefinedNext(block, i);
    assert OperationWellFormed(block, i);
  }

  lemma SkippedUpdate(host: Host, block: Block, plan: Plan, u: nat, k: nat, i: nat,
                      eagerStore: Store, eager: GuestState, store: Store, st: GuestState)
    requires WellFormed(block) && i < |block.operations| && Deferral(block, plan, u, k)
    requires Owes(block, plan, u, k, i, eagerStore, eager, store, st) && IsFlagUpdate(block.operations[i].opcode)
    ensures OwingSkip(host, block, plan, u, k, i, eagerStore, eager, store, st)
  {
    hide FlagsAfter, Owes, WellFormed;
    var op := block.operations[i];
    LastUpdate(block, plan, u, k, i);
    var a, b, c := Operand(eagerStore, op.lhs), Operand(eagerStore, op.rhs), Operand(eagerStore, op.third);
    var f := FlagsAfter(host, op, a, b, c, eager.rflags);
    UpdateKeepsSystem(host, op, a, b, c, eager.rflags);
    UpdateTracksZero(host, block, i, eagerStore, eager.rflags);
    UpdateExecutes(host, op, a, b, c, eager);
    hide Execute;
    if i < u {
      hide Deferral;
      UpdateOwes(host, block, plan, u, k, i, eagerStore, eager, store, st, f, st.rflags);
    } else {
      DifferenceRecorded(block, plan, u, k, eagerStore, eager, store, st);
      OutsideFlags(block, plan, u, k, i, eagerStore, eager, store, st);
      DeferredWord(host, op, a, b, eager.rflags, st.rflags);
      hide Deferral;
      DeferredOwes(block, plan, u, k, eagerStore, eager, store, st, f);
    }
  }

  /** The result operand of the deferred update is the difference of the other two. */
  lemma DifferenceRecorded(block: Block, plan: Plan, u: nat, k: nat, eagerStore: Store, eager: GuestState, store: Store,
                           st: GuestState)
    requires Deferral(block, plan, u, k) && Owes(block, plan, u, k, u, eagerStore, eager, store, st)
    ensures var op := block.operations[u];
      op.opcode.UpdateSubFlags? && op.width == I64 &&
      Operand(eagerStore, op.third) == Sub64(Operand(eagerStore, op.lhs), Operand(eagerStore, op.rhs))
  {
    hide NoStaleReader, SkippedUnread, AgreeUnlessSkipped, ZeroFlagTracks, UpdateOwed, SystemFlags;
  }

  lemma DeferredOwes(block: Block, plan: Plan, u: nat, k: nat, eagerStore: Store, eager: GuestState, store: Store,
                     st: GuestState, f: u64)
    requires WellFormed(block) && k < u < |block.operations| && block.operations[u].opcode.UpdateSubFlags?
    requires Owes(block, plan, u, k, u, eagerStore, eager, store, st)
    requires ZeroFlagTracks(block, u + 1, eagerStore, f) && SystemFlags(f) == SystemFlags(eager.rflags)
    requires var l, r := Operand(eagerStore, block.operations[u].lhs), Operand(eagerStore, block.operations[u].rhs);
      f == Materialise(st.rflags, SubFormula(I64, l, r, Sub64(l, r)))
    ensures block.operations[u].result.None?
    ensures Owes(block, plan, u, k, u + 1, eagerStore, eager.(rflags := f), store, st)
  {
    hide SystemFlags, Materialise, SubFormula, ZeroFlagTracks, IsSkippedValue, Sub64;
    assert OperationWellFormed(block, u);
    DefinedNext(block, u);
    hide Defined, WellFormed;
  }

  /** Applied later to a word with the same system flags, the update gives the same word. */
  lemma DeferredWord(host: Host, op: Operation, l: u64, r: u64, eager: u64, compiled: u64)
    requires op.opcode.UpdateSubFlags? && op.width == I64 && SystemFlags(eager) == SystemFlags(compiled)
    ensures FlagsAfter(host, op, l, r, Sub64(l, r), eager) == Materialise(compiled, SubFormula(I64, l, r, Sub64(l, r)))
  {
    hide SystemFlags, WithArith, SubFormula;
  }

  lemma SkippedOwes(host: Host, block: Block, plan: Plan, u: nat, k: nat, i: nat,
                    eagerStore: Store, eager: GuestState, store: Store, st: GuestState)
    requires WellFormed(block) && i < |block.operations| && Deferral(block, plan, u, k) && Skipped(block, plan, i)
    requires Owes(block, plan, u, k, i, eagerStore, eager, store, st)
    ensures OwingSkip(host, block, plan, u, k, i, eagerStore, eager, store, st)
  {
    hide OwingSkip, Owes, NoStaleReader, SkippedUnread;
    if plan.skippedResult == Some(i) {
      SkippedDifference(host, block, plan, u, k, i, eagerStore, eager, store, st);
    } else {
      SkippedUpdate(host, block, plan, u, k, i, eagerStore, eager, store, st);
    }
  }

  lemma EmittedOwes(host: Host, block: Block, plan: Plan, fast: nat -> bool, clean: bool, u: nat, k: nat, i: nat,
                    eagerStore: Store, eager: GuestState, store: Store, st: GuestState)
    requires WellFormed(block) && i < |block.operations| && Deferral(block, plan, u, k) && !Skipped(block, plan, i)
    requires !block.operations[i].opcode.ExitBlock? && SafelyRepeatable(block.operations[i])
    requires Owes(block, plan, u, k, i, eagerStore, eager, store, st)
    requires Tracks(block, plan, clean, u, i, eagerStore, eager, st)
    ensures OwingStep(host, block, plan, fast, u, k, i, eagerStore, eager, store, st)
  {
    hide OwingStep, Owes, Deferral, Skipped, WellFormed, Tracks;
    var o := block.operations[i].opcode;
    if IsPure(o) {
      OwingPure(host, block, plan, fast, u, k, i, eagerStore, eager, store, st);
    } else if IsFlagUpdate(o) {
      OwingUpdate(host, block, plan, fast, u, k, i, eagerStore, eager, store, st);
    } else if IsTest(o) {
      OwingTest(host, block, plan, fast, clean, u, k, i, eagerStore, eager, store, st);
    } else {
      OwingMemory(host, block, plan, fast, u, k, i, eagerStore, eager, store, st);
    }
  }

  // ----- where the flags word is exact

  /** An emitted operation in a place where the word is exact, or becomes so. */
  lemma EmittedTracks(host: Host, block: Block, plan: Plan, fast: nat -> bool, clean: bool, u: nat, k: nat, i: nat,
                      eagerStore: Store, eager: GuestState, store: Store, st: GuestState)
    requires WellFormed(block) && i < |block.operations| && Deferral(block, plan, u, k) && !Skipped(block, plan, i)
    requires !block.operations[i].opcode.ExitBlock? && Owes(block, plan, u, k, i, eagerStore, eager, store, st)
    requires Tracks(block, plan, clean, u, i, eagerStore, eager, st)
    ensures var op := block.operations[i];
      var expected := Execute(host, op, Operand(eagerStore, op.lhs), Operand(eagerStore, op.rhs),
        Operand(eagerStore, op.third), eager);
      match CompiledStep(host, block, plan, fast, i, store, st)
      case Fault(s) => Exact(block, plan, clean, u, i) ==> expected == Fault(s)
      case Continue(x, s) => expected.Continue? ==>
        Tracks(block, plan, clean, u, i + 1, Define(eagerStore, op.result, x), expected.state, s)
  {
    hide Owes, WellFormed, Execute, CompiledStep, Simulates, NoStaleReader, SkippedUnread, Skipped;
    OwesZeroFlag(block, plan, u, k, i, eagerStore, eager, store, st);
    if Exact(block, plan, clean, u, i) {
      ExactStep(host, block, plan, fast, i, eagerStore, eager, store, st);
    } else if Exact(block, plan, clean, u, i + 1) {
      assert EmitsFull(block, plan, i);
      OutsideFlags(block, plan, u, k, i, eagerStore, eager, store, st);
      FullUpdateTracks(host, block, plan, fast, i, eagerStore, eager, store, st);
    }
  }

  lemma FullUpdateTracks(host: Host, block: Block, plan: Plan, fast: nat -> bool, i: nat,
                         eagerStore: Store, eager: GuestState, store: Store, st: GuestState)
    requires WellFormed(block) && i < |block.operations| && EmitsFull(block, plan, i) && plan.fuse &&
      SkippedUnread(block, plan)
    requires AgreeUnlessSkipped(block, plan, i, eagerStore, store) && SameOutsideFlags(eager, st)
    ensures var op := block.operations[i];
      var e := Execute(host, op, Operand(eagerStore, op.lhs), Operand(eagerStore, op.rhs),
        Operand(eagerStore, op.third), eager);
      var c := CompiledStep(host, block, plan, fast, i, store, st);
      e.Continue? && c.Continue? && op.result.None? &&
        Simulates(block, true, i + 1, eagerStore, e.state, eagerStore, c.state)
  {
    hide Execute, CompiledStep, Simulates, SkippedUnread, Skipped, AgreeUnlessSkipped;
    var op := block.operations[i];
    assert OperationWellFormed(block, i);
    EmittedOperandsAgree(block, plan, i, eagerStore, store);
    StepAsWritten(host, block, plan, fast, i, store, st);
    var a, b, c := Operand(eagerStore, op.lhs), Operand(eagerStore, op.rhs), Operand(eagerStore, op.third);
    UpdateExecutes(host, op, a, b, c, eager);
    UpdateExecutes(host, op, a, b, c, st);
    hide WellFormed;
    assert eagerStore.Values? by { AgreeingStores(block, plan, i, eagerStore, store); }
    BecomesExact(host, block, plan, i, eagerStore, eager, st);
  }

  lemma AgreeingStores(block: Block, plan: Plan, i: nat, eagerStore: Store, store: Store)
    requires i <= |block.operations| && AgreeUnlessSkipped(block, plan, i, eagerStore, store)
    ensures eagerStore.Values? && store.Values?
  {
  }

  lemma SkippedTracks(host: Host, block: Block, plan: Plan, clean: bool, u: nat, k: nat, i: nat,
                      eagerStore: Store, eager: GuestState, st: GuestState)
    requires WellFormed(block) && i < |block.operations| && Deferral(block, plan, u, k) && Skipped(block, plan, i)
    requires Tracks(block, plan, clean, u, i, eagerStore, eager, st)
    ensures var op := block.operations[i];
      var e := Execute(host, op, Operand(eagerStore, op.lhs), Operand(eagerStore, op.rhs),
        Operand(eagerStore, op.third), eager);
      e.Continue? ==> Tracks(block, plan, clean, u, i + 1, Define(eagerStore, op.result, e.value), e.state, st)
  {
    hide NoStaleReader, SkippedUnread, WellFormed, Tracks, FlagsAfter;
    var op := block.operations[i];
    var a, b, c := Operand(eagerStore, op.lhs), Operand(eagerStore, op.rhs), Operand(eagerStore, op.third);
    if plan.skippedResult == Some(i) {
      SubtractionValue(host, op, a, b, c, eager);
      SkippedValueTracks(host, block, plan, clean, u, i, eagerStore, eager, st);
    } else if i == u {
      UpdateExecutes(host, op, a, b, c, eager);
      var e := Execute(host, op, a, b, c, eager);
      PastDeferred(block, plan, clean, u, Define(eagerStore, op.result, e.value), e.state, st);
    } else {
      SkippedUpdateTracks(host, block, plan, clean, u, i, eagerStore, eager, st);
      UpdateExecutes(host, op, a, b, c, eager);
    }
  }

  lemma PastDeferred(block: Block, plan: Plan, clean: bool, u: nat, eagerStore: Store, eager: GuestState,
                     st: GuestState)
    requires u < |block.operations|
    ensures Tracks(block, plan, clean, u, u + 1, eagerStore, eager, st)
  {
  }

  // ----- whole passes

  /** `exact` says that a fault shows the eager flags word. */
  ghost predicate PassOwes(block: Block, plan: Plan, exact: bool, u: nat, k: nat, eager: Pass, compiled: Pass)
    requires eager.AtExit? ==> eager.index < |block.operations|
    requires k < |block.operations| && u < |block.operations|
  {
    match eager
    case PassFault(rip, s) =>
      compiled.PassFault? && compiled.faultRip == rip && SameOutsideFlags(s, compiled.state) &&
        (exact ==> compiled == eager)
    case RanOff => compiled == eager
    case AtExit(i, store, s) =>
      compiled.AtExit? && compiled.index == i && Owes(block, plan, u, k, i, store, s, compiled.store, compiled.state)
  }

  lemma {:induction false} OwingPass(host: Host, block: Block, plan: Plan, fast: nat -> bool, clean: bool, u: nat,
                                     k: nat, i: nat, eagerStore: Store, eager: GuestState, store: Store, st: GuestState)
    requires WellFormed(block) && i <= |block.operations| && Deferral(block, plan, u, k) && HasInternalSelfEdge(block)
    requires Owes(block, plan, u, k, i, eagerStore, eager, store, st)
    requires Tracks(block, plan, clean, u, i, eagerStore, eager, st)
    ensures u < |block.operations| && k < |block.operations|
    ensures PassOwes(block, plan, FaultsExact(block, plan, clean), u, k, EagerPass(host, block, i, eagerStore, eager),
      CompiledPass(host, block, plan, fast, i, store, st))
    decreases |block.operations| - i
  {
    hide Owes, Execute, CompiledStep, Skipped, Deferral, WellFormed, Tracks, FaultsExact;
    DeferralInRange(block, plan, u, k);
    if i < |block.operations| && !block.operations[i].opcode.ExitBlock? {
      var op := block.operations[i];
      var expected := Execute(host, op, Operand(eagerStore, op.lhs), Operand(eagerStore, op.rhs),
        Operand(eagerStore, op.third), eager);
      if Skipped(block, plan, i) {
        SkippedOwes(host, block, plan, u, k, i, eagerStore, eager, store, st);
        SkippedTracks(host, block, plan, clean, u, k, i, eagerStore, eager, st);
        OwingPass(host, block, plan, fast, clean, u, k, i + 1,
          Define(eagerStore, op.result, expected.value), expected.state, store, st);
      } else {
        EmittedOwes(host, block, plan, fast, clean, u, k, i, eagerStore, eager, store, st);
        EmittedTracks(host, block, plan, fast, clean, u, k, i, eagerStore, eager, store, st);
        var e := CompiledStep(host, block, plan, fast, i, store, st);
        if e.Continue? {
          OwingPass(host, block, plan, fast, clean, u, k, i + 1,
            Define(eagerStore, op.result, e.value), expected.state, Define(store, op.result, e.value), e.state);
        } else if FaultsExact(block, plan, clean) {
          OnlyMemoryFaults(host, block, i, eagerStore, eager);
          ExactAtMemory(block, plan, clean, u, k, i);
        }
      }
    }
  }

  lemma OnlyMemoryFaults(host: Host, block: Block, i: nat, store: Store, st: GuestState)
    requires HasInternalSelfEdge(block) && i < |block.operations| && !block.operations[i].opcode.ExitBlock?
    requires var op := block.operations[i];
      Execute(host, op, Operand(store, op.lhs), Operand(store, op.rhs), Operand(store, op.third), st).Fault?
    ensures IsMemory(block.operations[i].opcode)
  {
    hide FlagsAfter, PureValue, WriteRegister, LoadValue;
    assert SafelyRepeatable(block.operations[i]);
  }

  lemma ExactAtMemory(block: Block, plan: Plan, clean: bool, u: nat, k: nat, i: nat)
    requires WellFormed(block) && Deferral(block, plan, u, k) && i < |block.operations| &&
      IsMemory(block.operations[i].opcode)
    requires FaultsExact(block, plan, clean)
    ensures Exact(block, plan, clean, u, i)
  {
    NoMemoryAfter(block, plan, u, k, i);
  }

  lemma DeferralInRange(block: Block, plan: Plan, u: nat, k: nat)
    requires Deferral(block, plan, u, k)
    ensures u < |block.operations| && k < |block.operations|
  {
  }

  // ----- the exit

  /** Both operands of the deferred update, and its result unless it was skipped, are still in
      their registers at the exit. */
  lemma ExitOperands(block: Block, plan: Plan, u: nat, k: nat, last: seq<nat>, eagerStore: Store, eager: GuestState,
                     values: Store, registers: Store, st: GuestState)
    requires WellFormed(block) && Deferral(block, plan, u, k) && AreLastUses(block, plan, last)
    requires Owes(block, plan, u, k, |block.operations| - 1, eagerStore, eager, values, st)
    requires Mirrors(block, plan, last, |block.operations| - 1, values, registers)
    ensures var update := block.operations[u];
      Operand(registers, update.lhs) == Operand(eagerStore, update.lhs) &&
      Operand(registers, update.rhs) == Operand(eagerStore, update.rhs) &&
      (plan.skippedResult.None? ==> Operand(registers, update.third) == Operand(eagerStore, update.third))
  {
    var update, end := block.operations[u], |block.operations| - 1;
    OperandsBefore(block, plan, u, k);
    hide Deferral, WellFormed;
    forall v | v in Uses(update) && !IsSkippedValue(block, plan, v)
      ensures Read(registers, v) == Read(eagerStore, v)
    {
      ExitOperand(block, plan, u, k, last, eagerStore, eager, values, registers, st, v);
    }
    assert update.lhs.Some? ==> update.lhs.value in Uses(update);
    assert update.rhs.Some? ==> update.rhs.value in Uses(update);
    assert update.third.Some? ==> update.third.value in Uses(update);
  }

  lemma ExitOperand(block: Block, plan: Plan, u: nat, k: nat, last: seq<nat>, eagerStore: Store, eager: GuestState,
                    values: Store, registers: Store, st: GuestState, v: ValueId)
    requires WellFormed(block) && Deferral(block, plan, u, k) && AreLastUses(block, plan, last)
    requires Owes(block, plan, u, k, |block.operations| - 1, eagerStore, eager, values, st)
    requires Mirrors(block, plan, last, |block.operations| - 1, values, registers)
    requires v in Uses(block.operations[u]) && !IsSkippedValue(block, plan, v)
    ensures Read(registers, v) == Read(eagerStore, v)
  {
    hide AreLastUses, Mirrors, NoStaleReader, SkippedUnread, IsSkippedValue;
    var end := |block.operations| - 1;
    assert OperationWellFormed(block, u);
    DefinedGrows(block, u, end);
    assert Touches(block, plan, v, u, end);
    TouchedIsMirrored(block, plan, last, u, end, v, values, registers);
    OwesZeroFlag(block, plan, u, k, end, eagerStore, eager, values, st);
    hide Owes, Defined;
  }

  /** The operands that are compared are not the difference itself. */
  lemma OperandsBefore(block: Block, plan: Plan, u: nat, k: nat)
    requires WellFormed(block) && Deferral(block, plan, u, k)
    ensures var update := block.operations[u];
      (update.lhs.Some? ==> !IsSkippedValue(block, plan, update.lhs.value)) &&
      (update.rhs.Some? ==> !IsSkippedValue(block, plan, update.rhs.value)) &&
      (plan.skippedResult.None? && update.third.Some? ==> !IsSkippedValue(block, plan, update.third.value))
  {
    hide NoStaleReader, SkippedUnread;
    var difference := block.operations[k];
    assert OperationWellFormed(block, k);
    assert difference.lhs.Some? ==> difference.lhs.value in Uses(difference);
    assert difference.rhs.Some? ==> difference.rhs.value in Uses(difference);
  }

  lemma OwedAtExit(block: Block, plan: Plan, u: nat, k: nat, eagerStore: Store, eager: GuestState, values: Store,
                   st: GuestState)
    requires Deferral(block, plan, u, k) &&
      Owes(block, plan, u, k, |block.operations| - 1, eagerStore, eager, values, st)
    ensures var update := block.operations[u];
      var l, r := Operand(eagerStore, update.lhs), Operand(eagerStore, update.rhs);
      eager.rflags == Materialise(st.rflags, SubFormula(I64, l, r, Sub64(l, r))) &&
      Operand(eagerStore, update.third) == Sub64(l, r)
  {
    hide NoStaleReader, SkippedUnread, Materialise, SubFormula, ZeroFlagTracks, AgreeUnlessSkipped, SystemFlags;
  }

  /** The operands and the result of the deferred update have different registers at the exit. */
  lemma UpdateRegisters(block: Block, plan: Plan, u: nat, k: nat, last: seq<nat>, registers: Store, v: ValueId,
                        w: ValueId)
    requires WellFormed(block) && Deferral(block, plan, u, k) && Allocated(block, plan, last, registers)
    requires v in Uses(block.operations[u]) && w in Uses(block.operations[u]) && v != w
    ensures v < |registers.assignment| && w < |registers.assignment|
    ensures registers.assignment[v] != registers.assignment[w]
  {
    hide NoStaleReader, SkippedUnread, IsSkippedValue;
    var end := |block.operations| - 1;
    assert OperationWellFormed(block, u);
    DefinedGrows(block, u, end + 1);
    DefinedInTable(block, end + 1, v);
    DefinedInTable(block, end + 1, w);
    assert Touches(block, plan, v, u, end) && Touches(block, plan, w, u, end);
    assert RegistersDistinct(block, last, registers.assignment, end);
    hide Defined;
    assert v in LiveAt(block, last, end) && w in LiveAt(block, last, end);
  }

  /** Making up for the skipped subtraction leaves its operands alone. */
  lemma OperandsSurvive(block: Block, plan: Plan, u: nat, k: nat, last: seq<nat>, registers: Store)
    requires WellFormed(block) && Deferral(block, plan, u, k) && Allocated(block, plan, last, registers)
    requires plan.skippedResult.Some?
    ensures var update := block.operations[u];
      var l, r := Operand(registers, update.lhs), Operand(registers, update.rhs);
      var after := Recomputed(plan, update, registers);
      Operand(after, update.lhs) == l && Operand(after, update.rhs) == r && Operand(after, update.third) == Sub64(l, r)
  {
    OperandsBefore(block, plan, u, k);
    var update := block.operations[u];
    var t := update.third.value;
    assert IsSkippedValue(block, plan, t);
    assert OperationWellFormed(block, u);
    assert t in Uses(update);
    forall v | v in Uses(update) && v != t
      ensures v < |registers.assignment| && t < |registers.assignment| &&
        registers.assignment[v] != registers.assignment[t]
    {
      UpdateRegisters(block, plan, u, k, last, registers, v, t);
    }
    hide WellFormed, Deferral, Allocated;
    assert update.lhs.Some? ==> update.lhs.value in Uses(update);
    assert update.rhs.Some? ==> update.rhs.value in Uses(update);
  }

  /** At the exit `cmp` answers the branch as the eager flags word would, and the update applied
      on the way out gives that very word. */
  lemma ExitAgrees(block: Block, plan: Plan, u: nat, k: nat, last: seq<nat>, eagerStore: Store, eager: GuestState,
                   values: Store, registers: Store, st: GuestState)
    requires WellFormed(block) && Deferral(block, plan, u, k) && Allocated(block, plan, last, registers)
    requires Owes(block, plan, u, k, |block.operations| - 1, eagerStore, eager, values, st)
    requires Mirrors(block, plan, last, |block.operations| - 1, values, registers)
    ensures var exit := block.operations[|block.operations| - 1];
      ExitTaken(block, plan, exit, registers, st.rflags) == Holds(exit.condition, eager.rflags)
    ensures FinalFlags(block, plan, registers, st.rflags) == eager.rflags
  {
    hide Owes, AreLastUses, Mirrors, NoStaleReader, SkippedUnread, WellFormed, Materialise, SubFormula, Holds,
      CompareFlags;
    var update, exit := block.operations[u], block.operations[|block.operations| - 1];
    ExitOperands(block, plan, u, k, last, eagerStore, eager, values, registers, st);
    OwedAtExit(block, plan, u, k, eagerStore, eager, values, st);
    var l, r := Operand(eagerStore, update.lhs), Operand(eagerStore, update.rhs);
    DeferredConditionAgrees(exit.condition, st.rflags, l, r);
    if plan.skippedResult.Some? {
      OperandsSurvive(block, plan, u, k, last, registers);
    }
  }

  // ----- the loop

  /** The same fault, up to arithmetic flags, or the same way out with the same state. */
  ghost predicate LoopsAgree(eager: LoopOutcome, compiled: LoopOutcome) {
    match eager
    case LoopFault(rip, rest, s) =>
      compiled.LoopFault? && compiled.faultRip == rip && compiled.remaining == rest &&
        SameOutsideFlags(s, compiled.state)
    case LoopLeft(_, _, _) => compiled == eager
    case LoopFellOff => compiled == eager
  }

  /** One pass of each loop: faults correspond, and so do exits. */
  ghost predicate PassesAgree(block: Block, plan: Plan, exact: bool, eager: Pass, compiled: Pass)
    requires eager.AtExit? ==> eager.index < |block.operations|
  {
    match eager
    case PassFault(rip, s) =>
      compiled.PassFault? && compiled.faultRip == rip && SameOutsideFlags(s, compiled.state) &&
        (exact ==> compiled == eager)
    case RanOff => compiled == eager
    case AtExit(i, _, s) =>
      var exit := block.operations[i];
      compiled.AtExit? && compiled.index == i && SameOutsideFlags(s, compiled.state) &&
      ExitTaken(block, plan, exit, compiled.store, compiled.state.rflags) == Holds(exit.condition, s.rflags) &&
      FinalFlags(block, plan, compiled.store, compiled.state.rflags) == s.rflags
  }

  lemma DeferringPass(host: Host, block: Block, plan: Plan, fast: nat -> bool, u: nat, k: nat, last: seq<nat>,
                      registers: Store, eager: GuestState, st: GuestState)
    requires WellFormed(block) && Deferral(block, plan, u, k) && HasInternalSelfEdge(block)
    requires Allocated(block, plan, last, registers) && SameOutsideFlags(eager, st)
    ensures PassesAgree(block, plan, FaultsExact(block, plan, eager == st),
      EagerPass(host, block, 0, Values(map[]), eager), CompiledPass(host, block, plan, fast, 0, registers, st))
  {
    var clean := eager == st;
    hide EagerPass, CompiledPass, Deferral, Owes, AreLastUses, IsAllocation, Mirrors, ExitTaken, FinalFlags, Holds,
      HasInternalSelfEdge, SystemFlags, SkippedUnread, IsSubtraction, Tracks, FaultsExact;
    var none := Values(map[]);
    StartsOwing(block, plan, u, k, eager, st);
    StartsMirrored(block, plan, last, registers);
    SkipsSubtraction(block, plan, u, k);
    StartsExact(block, plan, clean, u, none, eager, st);
    OwingPass(host, block, plan, fast, clean, u, k, 0, none, eager, none, st);
    RegisterPass(host, block, plan, fast, last, 0, none, registers, st);
    PassKeepsAssignment(host, block, plan, fast, 0, registers, st);
    var p := EagerPass(host, block, 0, none, eager);
    var v := CompiledPass(host, block, plan, fast, 0, none, st);
    var q := CompiledPass(host, block, plan, fast, 0, registers, st);
    if p.AtExit? {
      assert p.index == |block.operations| - 1;
      OutsideFlags(block, plan, u, k, p.index, p.store, p.state, v.store, v.state);
      ExitAgrees(block, plan, u, k, last, p.store, p.state, v.store, q.store, q.state);
    }
  }

  lemma StartsOwing(block: Block, plan: Plan, u: nat, k: nat, eager: GuestState, st: GuestState)
    requires Deferral(block, plan, u, k) && SameOutsideFlags(eager, st)
    ensures u < |block.operations| && k < |block.operations|
    ensures Owes(block, plan, u, k, 0, Values(map[]), eager, Values(map[]), st)
  {
    hide SystemFlags;
  }

  lemma StartsExact(block: Block, plan: Plan, clean: bool, u: nat, none: Store, eager: GuestState, st: GuestState)
    requires none == Values(map[]) && (clean ==> eager == st)
    ensures Tracks(block, plan, clean, u, 0, none, eager, st)
  {
    hide SystemFlags;
  }

  lemma StartsMirrored(block: Block, plan: Plan, last: seq<nat>, registers: Store)
    requires registers.HostRegisters?
    ensures Mirrors(block, plan, last, 0, Values(map[]), registers)
  {
  }

  lemma SkipsSubtraction(block: Block, plan: Plan, u: nat, k: nat)
    requires Deferral(block, plan, u, k)
    ensures SkippedUnread(block, plan) && IsSubtraction(block, plan)
  {
  }

  lemma {:induction false} DeferringLoop(host: Host, block: Block, plan: Plan, fast: u64 -> nat -> bool,
                                         stop: (u64, map<u64, byte>) -> bool, budget: u64, u: nat, k: nat,
                                         last: seq<nat>, registers: Store, eager: GuestState, st: GuestState)
    requires WellFormed(block) && HasInternalSelfEdge(block) && Deferral(block, plan, u, k)
    requires Allocated(block, plan, last, registers) && SameOutsideFlags(eager, st) && st.rip == block.start
    ensures LoopsAgree(EagerLoop(host, block, stop, budget, eager),
      CompiledLoop(host, block, plan, fast, stop, budget, registers, st))
    ensures (eager == st && EagerRun(host, block, eager).Faulted?) || MemoryBehindUpdate(block, plan) ==>
      CompiledLoop(host, block, plan, fast, stop, budget, registers, st) == EagerLoop(host, block, stop, budget, eager)
    decreases Passes(budget)
  {
    hide WellFormed, HasInternalSelfEdge, AreLastUses, IsAllocation, Holds, Deferral, SystemFlags, ExitTaken,
      FinalFlags, MemoryBehindUpdate;
    DeferringPass(host, block, plan, fast(budget), u, k, last, registers, eager, st);
    PassKeepsRip(host, block, plan, fast(budget), 0, registers, st);
    PassKeepsAssignment(host, block, plan, fast(budget), 0, registers, st);
    var p := EagerPass(host, block, 0, Values(map[]), eager);
    var q := CompiledPass(host, block, plan, fast(budget), 0, registers, st);
    hide EagerPass, CompiledPass;
    if p.AtExit? {
      ExitIsConditional(block, plan, u, k, p.index);
      var op := block.operations[p.index];
      var left := ExitState(op, Operand(p.store, op.lhs), p.state, Holds(op.condition, p.state.rflags));
      assert EagerRun(host, block, eager) == Left(op.exitKind, left);
      var rest := Sub64(budget, 1);
      assert left.memory == q.state.memory;
      if Repeats(block, stop, left, rest) {
        DeferringLoop(host, block, plan, fast, stop, rest, u, k, last, q.store, left, q.state);
      }
    }
  }

  lemma ExitIsConditional(block: Block, plan: Plan, u: nat, k: nat, i: nat)
    requires WellFormed(block) && Deferral(block, plan, u, k) && i < |block.operations| &&
      block.operations[i].opcode.ExitBlock?
    ensures block.operations[i].exitKind == Conditional
  {
    hide NoStaleReader, SkippedUnread;
  }
}
