/** Running the emitted code on the registers that linear scan chose, instead of on one cell
    per SSA value. */
module RegisterRun {
  import opened Options
  import opened Words
  import opened FlagHelpers
  import opened IR
  import opened FlagPasses
  import opened FlagSimulation
  import opened LinearScan

  /** `v` is the result of the subtraction that the plan recomputes at the exit. */
  predicate IsSkippedValue(block: Block, plan: Plan, v: ValueId) {
    plan.skippedResult.Some? && plan.skippedResult.value < |block.operations| &&
    block.operations[plan.skippedResult.value].result == Some(v)
  }

  /** Only the subtraction itself, the update that waits for the exit and dead updates mention
      its result. */
  ghost predicate SkippedUnread(block: Block, plan: Plan) {
    forall v, i, p | 0 <= v && 0 <= i < |block.operations| && 0 <= p && IsSkippedValue(block, plan, v) &&
      Touches(block, plan, v, i, p) ::
      plan.skippedResult == Some(i) || plan.deferred == Some(i) || IsDead(block, i, plan.fuse)
  }

  /** In front of operation `i`, every value that is still needed is in its register. */
  ghost predicate Mirrors(block: Block, plan: Plan, last: seq<nat>, i: nat, values: Store, registers: Store)
    requires i <= |block.operations|
  {
    values.Values? && registers.HostRegisters? &&
    (forall v | v in Defined(block, i) && v < |last| && i <= last[v] && !IsSkippedValue(block, plan, v) ::
      Read(values, v) == Read(registers, v))
  }

  ghost predicate Allocated(block: Block, plan: Plan, last: seq<nat>, registers: Store) {
    AreLastUses(block, plan, last) && registers.HostRegisters? && IsAllocation(block, last, registers.assignment)
  }

  /** Whatever the code reads at `p` on behalf of operation `i` is still in its register. */
  lemma TouchedIsMirrored(block: Block, plan: Plan, last: seq<nat>, i: nat, p: nat, v: ValueId, values: Store,
                          registers: Store)
    requires WellFormed(block) && i <= p < |block.operations| && Touches(block, plan, v, i, p)
    requires AreLastUses(block, plan, last) && Mirrors(block, plan, last, p, values, registers)
    requires v in Defined(block, p) && !IsSkippedValue(block, plan, v)
    ensures Read(values, v) == Read(registers, v)
  {
    DefinedInTable(block, p, v);
  }

  /** The operands of an emitted operation are never the skipped value. */
  lemma OperandsMirrored(block: Block, plan: Plan, last: seq<nat>, i: nat, values: Store, registers: Store)
    requires WellFormed(block) && i < |block.operations|
    requires AreLastUses(block, plan, last) && Mirrors(block, plan, last, i, values, registers)
    requires SkippedUnread(block, plan) && !Skipped(block, plan, i)
    ensures var op := block.operations[i];
      Operand(values, op.lhs) == Operand(registers, op.lhs) &&
      Operand(values, op.rhs) == Operand(registers, op.rhs) &&
      Operand(values, op.third) == Operand(registers, op.third)
  {
    hide Defined, Mirrors, AreLastUses;
    var op := block.operations[i];
    assert OperationWellFormed(block, i);
    forall v | v in Uses(op)
      ensures Read(values, v) == Read(registers, v)
    {
      assert Touches(block, plan, v, i, i);
      TouchedIsMirrored(block, plan, last, i, i, v, values, registers);
    }
    assert op.lhs.Some? ==> op.lhs.value in Uses(op);
    assert op.rhs.Some? ==> op.rhs.value in Uses(op);
    assert op.third.Some? ==> op.third.value in Uses(op);
  }

  lemma SourceMirrored(block: Block, plan: Plan, last: seq<nat>, i: nat, values: Store, registers: Store)
    requires WellFormed(block) && i < |block.operations| && Fused(block, plan, i)
    requires AreLastUses(block, plan, last) && Mirrors(block, plan, last, i, values, registers)
    requires SkippedUnread(block, plan) && !Skipped(block, plan, i)
    ensures var v := ZeroFlagSourceAt(block, i).value.value; Read(values, v) == Read(registers, v)
  {
    hide Defined, Mirrors, AreLastUses, ZeroFlagSourceAt;
    var v := ZeroFlagSourceAt(block, i).value.value;
    ZeroFlagSourceDefined(block, i);
    assert Touches(block, plan, v, i, i);
    TouchedIsMirrored(block, plan, last, i, i, v, values, registers);
  }

  /** The operand of a sunk update lives on until its load. */
  lemma FlushMirrored(block: Block, plan: Plan, last: seq<nat>, i: nat, values: Store, registers: Store, rflags: u64)
    requires WellFormed(block) && i < |block.operations| && plan.fuse
    requires AreLastUses(block, plan, last) && Mirrors(block, plan, last, i, values, registers)
    requires SkippedUnread(block, plan) && IsSubtraction(block, plan)
    ensures FlushSunk(block, i, values, rflags) == FlushSunk(block, i, registers, rflags)
  {
    hide Defined, Mirrors, AreLastUses;
    var sunk := SunkUpdateAt(block, i);
    if sunk.Some? {
      SunkUpdateMeaning(block, i, 0);
      var u := sunk.value;
      assert OperationWellFormed(block, u);
      var v := block.operations[u].lhs.value;
      SunkIsNotDead(block, u, plan.fuse);
      DefinedGrows(block, u, i);
      assert Touches(block, plan, v, u, i);
      assert v in Uses(block.operations[u]);
      TouchedIsMirrored(block, plan, last, u, i, v, values, registers);
    }
  }

  /** The plan skips a subtraction and defers a subtract update, if anything. */
  predicate IsSubtraction(block: Block, plan: Plan) {
    (plan.skippedResult.Some? ==>
      plan.skippedResult.value < |block.operations| && block.operations[plan.skippedResult.value].opcode.Sub?) &&
    (plan.deferred.Some? ==>
      plan.deferred.value < |block.operations| && block.operations[plan.deferred.value].opcode.UpdateSubFlags?)
  }

  lemma StepMirrored(host: Host, block: Block, plan: Plan, fast: nat -> bool, last: seq<nat>, i: nat, values: Store,
                     registers: Store, st: GuestState)
    requires WellFormed(block) && i < |block.operations| && !Skipped(block, plan, i)
    requires AreLastUses(block, plan, last) && Mirrors(block, plan, last, i, values, registers)
    requires SkippedUnread(block, plan) && IsSubtraction(block, plan)
    ensures CompiledStep(host, block, plan, fast, i, values, st) ==
      CompiledStep(host, block, plan, fast, i, registers, st)
  {
    hide Mirrors, AreLastUses, SkippedUnread, Execute, FusedHolds, WellFormed, FlushSunk, Skipped;
    OperandsMirrored(block, plan, last, i, values, registers);
    if Fused(block, plan, i) {
      SourceMirrored(block, plan, last, i, values, registers);
    }
    if plan.fuse {
      FlushMirrored(block, plan, last, i, values, registers, st.rflags);
    }
  }

  /** A result goes into a register that holds none of the values needed later. */
  lemma DefineMirrored(block: Block, plan: Plan, last: seq<nat>, i: nat, values: Store, registers: Store, x: u64)
    requires WellFormed(block) && i < |block.operations|
    requires Allocated(block, plan, last, registers) && Mirrors(block, plan, last, i, values, registers)
    ensures var r := block.operations[i].result;
      Allocated(block, plan, last, Define(registers, r, x)) &&
      Mirrors(block, plan, last, i + 1, Define(values, r, x), Define(registers, r, x))
  {
    hide AreLastUses, IsAllocation, WellFormed;
    var r := block.operations[i].result;
    DefinedNext(block, i);
    if r.Some? {
      WroteApart(block, plan, last, i, registers);
    }
    hide Defined, IsSkippedValue;
    forall v | v in Defined(block, i + 1) && v < |last| && i + 1 <= last[v] && !IsSkippedValue(block, plan, v)
      ensures Read(Define(values, r, x), v) == Read(Define(registers, r, x), v)
    {
      if r != Some(v) {
        assert Read(values, v) == Read(registers, v);
      }
    }
  }

  /** A result never shares a register with a value that is used at its own definition or later:
      code that writes the result early cannot destroy an operand. */
  lemma WroteApart(block: Block, plan: Plan, last: seq<nat>, i: nat, registers: Store)
    requires WellFormed(block) && i < |block.operations| && block.operations[i].result.Some?
    requires Allocated(block, plan, last, registers)
    ensures var r := block.operations[i].result.value;
      r < |registers.assignment| == |last| &&
      forall v | v in Defined(block, i) && v < |last| && i <= last[v] ::
        registers.assignment[v] != registers.assignment[r]
  {
    hide AreLastUses;
    var r := block.operations[i].result.value;
    assert OperationWellFormed(block, i);
    ResultIsLive(block, plan, last, i);
    DefinedNext(block, i);
    assert RegistersDistinct(block, last, registers.assignment, i);
    assert r in LiveAt(block, last, i);
    forall v | v in Defined(block, i) && v < |last| && i <= last[v]
      ensures registers.assignment[v] != registers.assignment[r]
    {
      assert v in LiveAt(block, last, i);
    }
  }

  lemma SkipMirrored(block: Block, plan: Plan, last: seq<nat>, i: nat, values: Store, registers: Store)
    requires WellFormed(block) && i < |block.operations| && Skipped(block, plan, i) && IsSubtraction(block, plan)
    requires Mirrors(block, plan, last, i, values, registers)
    ensures Mirrors(block, plan, last, i + 1, values, registers)
  {
    assert OperationWellFormed(block, i);
    DefinedNext(block, i);
  }

  /** A pass on registers and a pass on one cell per value stop alike: same fault, or the same
      exit with the same state and every value needed there in its register. */
  ghost predicate PassMirrored(block: Block, plan: Plan, last: seq<nat>, values: Pass, registers: Pass)
    requires values.AtExit? ==> values.index < |block.operations|
  {
    match values
    case PassFault(_, _) => registers == values
    case RanOff => registers == values
    case AtExit(i, store, s) =>
      registers.AtExit? && registers.index == i && registers.state == s &&
        Mirrors(block, plan, last, i, store, registers.store)
  }

  lemma {:induction false} RegisterPass(host: Host, block: Block, plan: Plan, fast: nat -> bool, last: seq<nat>, i: nat,
                                        values: Store, registers: Store, st: GuestState)
    requires WellFormed(block) && i <= |block.operations|
    requires SkippedUnread(block, plan) && IsSubtraction(block, plan)
    requires Allocated(block, plan, last, registers) && Mirrors(block, plan, last, i, values, registers)
    ensures PassMirrored(block, plan, last,
      CompiledPass(host, block, plan, fast, i, values, st), CompiledPass(host, block, plan, fast, i, registers, st))
    decreases |block.operations| - i
  {
    hide Mirrors, AreLastUses, IsAllocation, SkippedUnread, WellFormed, CompiledStep, Skipped, IsSubtraction;
    if i < |block.operations| && !block.operations[i].opcode.ExitBlock? {
      if Skipped(block, plan, i) {
        SkipMirrored(block, plan, last, i, values, registers);
        RegisterPass(host, block, plan, fast, last, i + 1, values, registers, st);
      } else {
        StepMirrored(host, block, plan, fast, last, i, values, registers, st);
        var e := CompiledStep(host, block, plan, fast, i, values, st);
        if e.Continue? {
          var r := block.operations[i].result;
          DefineMirrored(block, plan, last, i, values, registers, e.value);
          RegisterPass(host, block, plan, fast, last, i + 1,
            Define(values, r, e.value), Define(registers, r, e.value), e.state);
        }
      }
    }
  }

  /** The compiled block on eight host registers, whatever they hold on entry, does what the
      eager interpreter does on SSA values. */
  lemma RegistersRefineEager(host: Host, block: Block, fuse: bool, fast: nat -> bool, last: seq<nat>,
                             assignment: seq<nat>, contents: map<nat, u64>, st: GuestState)
    requires WellFormed(block)
    requires AreLastUses(block, Plan(fuse, None, None), last) && IsAllocation(block, last, assignment)
    ensures CompiledRun(host, block, fuse, fast, HostRegisters(assignment, contents), st) == EagerRun(host, block, st)
  {
    var plan := Plan(fuse, None, None);
    var registers, values := HostRegisters(assignment, contents), Values(map[]);
    RegisterPass(host, block, plan, fast, last, 0, values, registers, st);
    CompiledBlockIsEager(host, block, fuse, fast, map[], st);
    var p := CompiledPass(host, block, plan, fast, 0, values, st);
    var q := CompiledPass(host, block, plan, fast, 0, registers, st);
    hide CompiledPass, AreLastUses, IsAllocation, EagerRun, SkippedUnread;
    if p.AtExit? {
      assert !Skipped(block, plan, p.index);
      OperandsMirrored(block, plan, last, p.index, p.store, q.store);
    }
  }
}
