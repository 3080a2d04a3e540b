/** Where the flags word of a deferring loop is exact.

    Passes after the first start with whatever arithmetic flags the loop was entered with. From
    the first emitted update that replaces all six on, up to the deferred one, the word differs
    from the eager one only where the single-pass simulation allows it: where nothing looks. */
module ExactFlags {
  import opened Options
  import opened Words
  import opened Flags
  import opened FlagHelpers
  import opened IR
  import opened FlagPasses
  import opened FlagSimulation
  import opened LinearScan
  import opened RegisterRun

  predicate IsTest(opcode: Opcode) {
    opcode.EvaluateCondition? || opcode.ConditionalMoveGuestReg?
  }

  predicate EmitsFull(block: Block, plan: Plan, j: nat) {
    j < |block.operations| && FullyReplaces(block.operations[j].opcode) && !Skipped(block, plan, j)
  }

  predicate EmittedFullBefore(block: Block, plan: Plan, i: nat) {
    exists j | 0 <= j < i :: EmitsFull(block, plan, j)
  }

  /** A fused test does not read the value that is computed only at the exit. Any other test
      stands in front of the deferred update and behind an emitted one that replaces all flags. */
  predicate NoStaleReader(block: Block, plan: Plan) {
    forall i | 0 <= i < |block.operations| && IsTest(block.operations[i].opcode) :: ReadsFresh(block, plan, i)
  }

  predicate ReadsFresh(block: Block, plan: Plan, i: nat)
    requires i < |block.operations|
  {
    if Fused(block, plan, i) then !IsSkippedValue(block, plan, ZeroFlagSourceAt(block, i).value.value)
    else plan.deferred.Some? && i < plan.deferred.value && EmittedFullBefore(block, plan, i)
  }

  /** Every memory operation stands behind an emitted update that replaces all flags. */
  predicate MemoryBehindUpdate(block: Block, plan: Plan) {
    forall i | 0 <= i < |block.operations| && IsMemory(block.operations[i].opcode) :: EmittedFullBefore(block, plan, i)
  }

  predicate IsMemory(opcode: Opcode) {
    opcode.LoadGuest? || opcode.StoreGuest?
  }

  /** A fault of a pass shows exact flags if the pass was entered with them, or if every memory
      operation stands behind an emitted full update. */
  predicate FaultsExact(block: Block, plan: Plan, clean: bool) {
    clean || MemoryBehindUpdate(block, plan)
  }

  /** In front of operation `i` of a pass that was entered with the eager flags word (`clean`) or
      with any other. */
  predicate Exact(block: Block, plan: Plan, clean: bool, u: nat, i: nat) {
    i <= u && (clean || EmittedFullBefore(block, plan, i))
  }

  ghost predicate Tracks(block: Block, plan: Plan, clean: bool, u: nat, i: nat, eagerStore: Store, eager: GuestState,
                         st: GuestState)
    requires i <= |block.operations|
  {
    Exact(block, plan, clean, u, i) ==> Simulates(block, true, i, eagerStore, eager, eagerStore, st)
  }

  // ----- the two stores

  ghost predicate AgreeUnlessSkipped(block: Block, plan: Plan, i: nat, eager: Store, compiled: Store)
    requires i <= |block.operations|
  {
    eager.Values? && compiled.Values? &&
    forall v | v in Defined(block, i) && !IsSkippedValue(block, plan, v) :: Read(eager, v) == Read(compiled, v)
  }

  lemma EmittedOperandsAgree(block: Block, plan: Plan, i: nat, eager: Store, compiled: Store)
    requires WellFormed(block) && i < |block.operations| && SkippedUnread(block, plan) && !Skipped(block, plan, i)
    requires AgreeUnlessSkipped(block, plan, i, eager, compiled)
    ensures var op := block.operations[i];
      Operand(eager, op.lhs) == Operand(compiled, op.lhs) &&
      Operand(eager, op.rhs) == Operand(compiled, op.rhs) &&
      Operand(eager, op.third) == Operand(compiled, op.third)
  {
    hide Defined;
    var op := block.operations[i];
    assert OperationWellFormed(block, i);
    forall v | v in Uses(op)
      ensures Read(eager, v) == Read(compiled, v)
    {
      assert Touches(block, plan, v, i, i);
    }
    assert op.lhs.Some? ==> op.lhs.value in Uses(op);
    assert op.rhs.Some? ==> op.rhs.value in Uses(op);
    assert op.third.Some? ==> op.third.value in Uses(op);
  }

  lemma FusedSourceAgrees(block: Block, plan: Plan, i: nat, eager: Store, compiled: Store)
    requires WellFormed(block) && i < |block.operations| && SkippedUnread(block, plan) && !Skipped(block, plan, i)
    requires AgreeUnlessSkipped(block, plan, i, eager, compiled) && Fused(block, plan, i)
    ensures var v := ZeroFlagSourceAt(block, i).value.value; Read(eager, v) == Read(compiled, v)
  {
    ZeroFlagSourceDefined(block, i);
    hide Defined, ZeroFlagSourceAt;
    assert Touches(block, plan, ZeroFlagSourceAt(block, i).value.value, i, i);
  }

  lemma FlushAgrees(block: Block, plan: Plan, i: nat, eager: Store, compiled: Store, rflags: u64)
    requires WellFormed(block) && i < |block.operations| && SkippedUnread(block, plan) && plan.fuse &&
      IsSubtraction(block, plan)
    requires AgreeUnlessSkipped(block, plan, i, eager, compiled)
    ensures FlushSunk(block, i, eager, rflags) == FlushSunk(block, i, compiled, rflags)
  {
    hide Materialise, LogicFormula;
    var sunk := SunkUpdateAt(block, i);
    if sunk.Some? {
      SunkUpdateMeaning(block, i, 0);
      var u := sunk.value;
      assert OperationWellFormed(block, u);
      var v := block.operations[u].lhs.value;
      SunkIsNotDead(block, u, plan.fuse);
      DefinedGrows(block, u, i);
      assert Touches(block, plan, v, u, i);
      assert v in Uses(block.operations[u]);
    }
  }

  /** What is emitted for an operation does the same on the compiled store as on the eager one. */
  lemma SameStep(host: Host, block: Block, plan: Plan, fast: nat -> bool, i: nat, eagerStore: Store, store: Store,
                 st: GuestState)
    requires WellFormed(block) && i < |block.operations| && SkippedUnread(block, plan) && !Skipped(block, plan, i)
    requires plan.fuse && IsSubtraction(block, plan) && AgreeUnlessSkipped(block, plan, i, eagerStore, store)
    ensures CompiledStep(host, block, plan, fast, i, store, st) ==
      CompiledStep(host, block, Plan(true, None, None), fast, i, eagerStore, st)
  {
    hide AgreeUnlessSkipped, SkippedUnread, Execute, FusedHolds, WellFormed, FlushSunk, Skipped, ZeroFlagSourceAt,
      IsSubtraction;
    EmittedOperandsAgree(block, plan, i, eagerStore, store);
    if Fused(block, plan, i) {
      FusedSourceAgrees(block, plan, i, eagerStore, store);
    }
    FlushAgrees(block, plan, i, eagerStore, store, st.rflags);
  }

  // ----- one operation

  /** An emitted operation keeps the word exact where it was, faults included. */
  lemma ExactStep(host: Host, block: Block, plan: Plan, fast: nat -> bool, i: nat,
                  eagerStore: Store, eager: GuestState, store: Store, st: GuestState)
    requires WellFormed(block) && i < |block.operations| && !block.operations[i].opcode.ExitBlock? &&
      !Skipped(block, plan, i)
    requires plan.fuse && IsSubtraction(block, plan) && SkippedUnread(block, plan)
    requires AgreeUnlessSkipped(block, plan, i, eagerStore, store)
    requires Simulates(block, true, i, eagerStore, eager, eagerStore, st)
    ensures StepMatches(host, block, true, fast, i, eagerStore, eager, eagerStore, st)
    ensures CompiledStep(host, block, plan, fast, i, store, st) ==
      CompiledStep(host, block, Plan(true, None, None), fast, i, eagerStore, st)
  {
    SameStep(host, block, plan, fast, i, eagerStore, store, st);
    assert !Skipped(block, Plan(true, None, None), i);
    hide Skipped, Simulates, StepMatches, CompiledStep;
    StepsMatch(host, block, true, fast, i, eagerStore, eager, eagerStore, st);
  }

  /** An emitted update that replaces all flags makes the word exact. */
  lemma BecomesExact(host: Host, block: Block, plan: Plan, i: nat, eagerStore: Store, eager: GuestState, st: GuestState)
    requires WellFormed(block) && i < |block.operations| && EmitsFull(block, plan, i) && plan.fuse
    requires eagerStore.Values? && st == eager.(rflags := st.rflags) &&
      SystemFlags(st.rflags) == SystemFlags(eager.rflags)
    ensures var op := block.operations[i];
      var a, b, c := Operand(eagerStore, op.lhs), Operand(eagerStore, op.rhs), Operand(eagerStore, op.third);
      Simulates(block, true, i + 1, eagerStore, eager.(rflags := FlagsAfter(host, op, a, b, c, eager.rflags)),
        eagerStore, st.(rflags := FlagsAfter(host, op, a, b, c, st.rflags)))
  {
    hide FlagsAfter, SystemFlags, Hidden, ZeroFlagTracks, WellFormed;
    var op := block.operations[i];
    var a, b, c := Operand(eagerStore, op.lhs), Operand(eagerStore, op.rhs), Operand(eagerStore, op.third);
    FullUpdateForgets(host, op, a, b, c, eager.rflags, st.rflags);
    UpdateKeepsSystem(host, op, a, b, c, eager.rflags);
    UpdateTracksZero(host, block, i, eagerStore, eager.rflags);
    NothingPending(block, i);
  }

  /** Nothing is emitted for an update that is dead or sunk: the difference stays hidden. */
  lemma SkippedUpdateTracks(host: Host, block: Block, plan: Plan, clean: bool, u: nat, i: nat, eagerStore: Store,
                            eager: GuestState, st: GuestState)
    requires WellFormed(block) && i < |block.operations| && Skipped(block, Plan(true, None, None), i) &&
      Skipped(block, plan, i)
    requires Tracks(block, plan, clean, u, i, eagerStore, eager, st)
    ensures var op := block.operations[i];
      var a, b, c := Operand(eagerStore, op.lhs), Operand(eagerStore, op.rhs), Operand(eagerStore, op.third);
      op.result.None? && IsFlagUpdate(op.opcode) &&
      Tracks(block, plan, clean, u, i + 1, eagerStore, eager.(rflags := FlagsAfter(host, op, a, b, c, eager.rflags)),
        st)
  {
    SkippedIsUpdate(block, i);
    hide Simulates, FlagsAfter, WellFormed, Skipped, FullyReplaces, IsFlagUpdate;
    if Exact(block, plan, clean, u, i) {
      SkippedStep(host, block, true, i, eagerStore, eager, eagerStore, st);
    }
  }

  lemma SkippedIsUpdate(block: Block, i: nat)
    requires WellFormed(block) && i < |block.operations| && Skipped(block, Plan(true, None, None), i)
    ensures IsFlagUpdate(block.operations[i].opcode) && block.operations[i].result.None?
  {
    hide ReplacedBefore, SinkLoadFrom;
    assert OperationWellFormed(block, i);
  }

  /** The skipped subtraction touches no flags. */
  lemma SkippedValueTracks(host: Host, block: Block, plan: Plan, clean: bool, u: nat, i: nat, eagerStore: Store,
                           eager: GuestState, st: GuestState)
    requires WellFormed(block) && i < |block.operations| && block.operations[i].opcode.Sub? &&
      block.operations[i].width == I64
    requires Tracks(block, plan, clean, u, i, eagerStore, eager, st)
    ensures var op := block.operations[i];
      Tracks(block, plan, clean, u, i + 1,
        Define(eagerStore, op.result, Sub64(Operand(eagerStore, op.lhs), Operand(eagerStore, op.rhs))), eager, st)
  {
    hide Simulates, WellFormed, Define, ZeroFlagSourceAt;
    if Exact(block, plan, clean, u, i) {
      PureStep(host, block, true, _ => false, i, eagerStore, eager, eagerStore, st);
    }
  }
}
