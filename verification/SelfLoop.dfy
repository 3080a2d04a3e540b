/** A block that jumps back to itself, repeated inside the emitted code.

    The code keeps going while its exit leads back to the start, a budget lasts and nothing asks
    it to stop. When the exit tests a 64-bit comparison, the flags of that comparison are not
    written in every pass: each pass answers its branch with `cmp`, and the flags word is
    written once, on the way out. */
module SelfLoop {
  import opened Options
  import opened Words
  import opened Flags
  import opened FlagHelpers
  import opened Compare
  import opened IR
  import opened FlagPasses
  import opened LinearScan
  import opened RegisterRun

  // ----- decisions

  predicate SafelyRepeatable(op: Operation) {
    !op.opcode.Other?
  }

  predicate LeadsTo(op: Operation, start: u64) {
    op.opcode.ExitBlock? && (op.target == Some(start) || op.fallthrough == Some(start))
  }

  predicate HasInternalSelfEdge(block: Block) {
    (forall i | 0 <= i < |block.operations| :: SafelyRepeatable(block.operations[i])) &&
    (exists i :: 0 <= i < |block.operations| && LeadsTo(block.operations[i], block.start))
  }

  /** The update that the zero flag was last computed by, if a value can stand for it. */
  function ZeroFlagUpdateIndexAt(block: Block, i: nat): (u: Option<nat>)
    requires i <= |block.operations|
    ensures u.Some? ==> u.value < i && IsFlagUpdate(block.operations[u.value].opcode)
    ensures u.Some? ==> ZeroFlagSourceForUpdate(block.operations[u.value]).Some?
    ensures u.Some? ==> forall j | u.value < j < i :: PreservesZeroFlagSource(block.operations[j].opcode)
    ensures u.Some? <==> ZeroFlagSourceAt(block, i).Some?
  {
    if i == 0 then None
    else
      var op := block.operations[i - 1];
      if IsFlagUpdate(op.opcode) then
        if ZeroFlagSourceForUpdate(op).Some? then Some(i - 1) else None
      else if !PreservesZeroFlagSource(op.opcode) then None
      else ZeroFlagUpdateIndexAt(block, i - 1)
  }

  method FindZeroFlagUpdate(block: Block, operationIndex: nat) returns (update: Option<nat>)
    requires operationIndex <= |block.operations|
    ensures update == ZeroFlagUpdateIndexAt(block, operationIndex)
  {
    var index: nat := operationIndex;
    while index != 0
      invariant index <= |block.operations|
      invariant ZeroFlagUpdateIndexAt(block, operationIndex) == ZeroFlagUpdateIndexAt(block, index)
    {
      index := index - 1;
      var candidate := block.operations[index];
      if IsFlagUpdate(candidate.opcode) {
        return if ZeroFlagSourceForUpdate(candidate).Some? then Some(index) else None;
      }
      if !PreservesZeroFlagSource(candidate.opcode) {
        return None;
      }
    }
    return None;
  }

  function DeferredExitFlagUpdate(block: Block, internalSelfEdge: bool): Option<nat> {
    if !internalSelfEdge || |block.operations| == 0 then None
    else
      var exitIndex := |block.operations| - 1;
      var exit := block.operations[exitIndex];
      if !exit.opcode.ExitBlock? || exit.exitKind != Conditional || !HasHostCondition(exit.condition) then None
      else
        var updateIndex := ZeroFlagUpdateIndexAt(block, exitIndex);
        if updateIndex.None? then None
        else
          var update := block.operations[updateIndex.value];
          if !update.opcode.UpdateSubFlags? || update.width != I64 then None else updateIndex
  }

  function Occurrences(op: Operation, v: ValueId): nat {
    (if op.lhs == Some(v) then 1 else 0) + (if op.rhs == Some(v) then 1 else 0) + (if op.third == Some(v) then 1 else 0)
  }

  /** How often the emitted operations before `n` mention `v` as an operand. */
  function EmittedUses(block: Block, fuse: bool, v: ValueId, n: nat): nat
    requires n <= |block.operations|
  {
    if n == 0 then 0
    else
      EmittedUses(block, fuse, v, n - 1) +
      if IsDead(block, n - 1, fuse) then 0 else Occurrences(block.operations[n - 1], v)
  }

  method CountEmittedUses(block: Block, fuse: bool) returns (counts: seq<nat>)
    requires WellFormed(block)
    ensures |counts| == block.valueCount
    ensures forall v | 0 <= v < block.valueCount :: counts[v] == EmittedUses(block, fuse, v, |block.operations|)
  {
    counts := seq(block.valueCount, _ => 0);
    var index := 0;
    while index < |block.operations|
      invariant 0 <= index <= |block.operations| && |counts| == block.valueCount
      invariant forall v | 0 <= v < block.valueCount :: counts[v] == EmittedUses(block, fuse, v, index)
    {
      var operation := block.operations[index];
      var dead := IsDeadFlagUpdate(block, index, fuse);
      if !dead {
        UsesInTable(block, index);
        counts := CountUses(counts, operation);
      }
      index := index + 1;
    }
  }

  method CountUses(counts: seq<nat>, op: Operation) returns (r: seq<nat>)
    requires op.lhs.Some? ==> op.lhs.value < |counts|
    requires op.rhs.Some? ==> op.rhs.value < |counts|
    requires op.third.Some? ==> op.third.value < |counts|
    ensures |r| == |counts|
    ensures forall v | 0 <= v < |counts| :: r[v] == counts[v] + Occurrences(op, v)
  {
    r := counts;
    if op.lhs.Some? { r := r[op.lhs.value := r[op.lhs.value] + 1]; }
    if op.rhs.Some? { r := r[op.rhs.value := r[op.rhs.value] + 1]; }
    if op.third.Some? { r := r[op.third.value := r[op.third.value] + 1]; }
  }

  /** The operation before `n` that defines `v`. */
  function DefinitionBefore(block: Block, v: ValueId, n: nat): (k: Option<nat>)
    requires n <= |block.operations|
    ensures k.Some? ==> k.value < n && block.operations[k.value].result == Some(v)
  {
    if n == 0 then None
    else if block.operations[n - 1].result == Some(v) then Some(n - 1)
    else DefinitionBefore(block, v, n - 1)
  }

  /** The subtraction that feeds only the update `u`: it is recomputed at the exit instead. */
  function DeferredExitResultOperation(block: Block, fuse: bool, u: nat): (k: Option<nat>)
    requires u < |block.operations|
    ensures k.Some? ==> k.value < |block.operations| && block.operations[k.value].opcode.Sub?
    ensures k.Some? ==> block.operations[k.value].result == block.operations[u].third
  {
    var third := block.operations[u].third;
    if third.None? then None
    else
      var k := DefinitionBefore(block, third.value, |block.operations|);
      if k.Some? && block.operations[k.value].opcode.Sub? && block.operations[k.value].width == I64 &&
         EmittedUses(block, fuse, third.value, |block.operations|) == 1
      then k else None
  }

  /** Everything `compile` decides about flags from the text of a block. */
  function PlanFor(block: Block): (plan: Plan)
    ensures plan.deferred.Some? ==> plan.deferred.value < |block.operations|
  {
    var selfEdge := HasInternalSelfEdge(block);
    var deferred := DeferredExitFlagUpdate(block, selfEdge);
    if deferred.None? then Plan(selfEdge, None, None)
    else Plan(selfEdge, deferred, DeferredExitResultOperation(block, selfEdge, deferred.value))
  }

  // ----- the two loops

  datatype LoopOutcome =
    | LoopFault(faultRip: u64, remaining: u64, state: GuestState)
    | LoopLeft(kind: ExitKind, remaining: u64, state: GuestState)
    | LoopFellOff

  /** A budget of zero wraps around on the first decrement. */
  function Passes(budget: u64): nat {
    if budget == 0 then U64_LIMIT else budget
  }

  predicate Continues(kind: ExitKind) {
    kind == Conditional || kind == Direct
  }

  predicate Repeats(block: Block, stop: (u64, map<u64, byte>) -> bool, left: GuestState, rest: u64) {
    left.rip == block.start && rest != 0 && !stop(rest, left.memory)
  }

  /** The reference: one eager run after another. */
  function EagerLoop(host: Host, block: Block, stop: (u64, map<u64, byte>) -> bool, budget: u64,
                     st: GuestState): LoopOutcome
    decreases Passes(budget)
  {
    match EagerRun(host, block, st)
    case Faulted(rip, s) => LoopFault(rip, budget, s)
    case FellOff => LoopFellOff
    case Left(kind, s) =>
      var rest := Sub64(budget, 1);
      if !Continues(kind) then LoopLeft(kind, budget, s)
      else if Repeats(block, stop, s, rest) then EagerLoop(host, block, stop, rest, s)
      else LoopLeft(kind, rest, s)
  }

  predicate ExitTaken(block: Block, plan: Plan, op: Operation, store: Store, rflags: u64) {
    if plan.deferred.Some? && plan.deferred.value < |block.operations| && HasHostCondition(op.condition) then
      var update := block.operations[plan.deferred.value];
      !BranchTaken(NotTakenBranch(op.condition), CompareFlags(Operand(store, update.lhs), Operand(store, update.rhs)))
    else Holds(op.condition, rflags)
  }

  /** On the way out the skipped subtraction is made up for, in the register of its result. */
  function Recomputed(plan: Plan, update: Operation, store: Store): Store {
    if plan.skippedResult.Some? then
      Define(store, update.third, Sub64(Operand(store, update.lhs), Operand(store, update.rhs)))
    else store
  }

  /** The flags word when the loop is left. */
  function FinalFlags(block: Block, plan: Plan, store: Store, rflags: u64): u64 {
    if plan.deferred.Some? && plan.deferred.value < |block.operations| then
      var update := block.operations[plan.deferred.value];
      var after := Recomputed(plan, update, store);
      Materialise(rflags, SubFormula(I64, Operand(after, update.lhs), Operand(after, update.rhs),
        Operand(after, update.third)))
    else rflags
  }

  /** The emitted loop. Between passes the registers keep whatever they hold; a conditional exit
      stores no RIP until it leaves. */
  function CompiledLoop(host: Host, block: Block, plan: Plan, fast: u64 -> nat -> bool,
                        stop: (u64, map<u64, byte>) -> bool, budget: u64, store: Store, st: GuestState): LoopOutcome
    decreases Passes(budget)
  {
    match CompiledPass(host, block, plan, fast(budget), 0, store, st)
    case PassFault(rip, s) => LoopFault(rip, budget, s)
    case RanOff => LoopFellOff
    case AtExit(i, after, s) =>
      var op := block.operations[i];
      var left := ExitState(op, Operand(after, op.lhs), s, ExitTaken(block, plan, op, after, s.rflags));
      var rest := Sub64(budget, 1);
      if !Continues(op.exitKind) then LoopLeft(op.exitKind, budget, left)
      else if Repeats(block, stop, left, rest) then
        CompiledLoop(host, block, plan, fast, stop, rest, after, if op.exitKind.Conditional? then s else left)
      else LoopLeft(op.exitKind, rest, left.(rflags := FinalFlags(block, plan, after, left.rflags)))
  }

  // ----- no deferral

  lemma {:induction false} PassKeepsRip(host: Host, block: Block, plan: Plan, fast: nat -> bool, i: nat, store: Store,
                                        st: GuestState)
    requires HasInternalSelfEdge(block) && i <= |block.operations|
    ensures var p := CompiledPass(host, block, plan, fast, i, store, st);
      p.AtExit? ==> p.state.rip == st.rip
    decreases |block.operations| - i
  {
    hide HasInternalSelfEdge, CompiledStep, Skipped;
    if i < |block.operations| && !block.operations[i].opcode.ExitBlock? {
      if Skipped(block, plan, i) {
        PassKeepsRip(host, block, plan, fast, i + 1, store, st);
      } else {
        var e := CompiledStep(host, block, plan, fast, i, store, st);
        StepKeepsRip(host, block, plan, fast, i, store, st);
        if e.Continue? {
          PassKeepsRip(host, block, plan, fast, i + 1, Define(store, block.operations[i].result, e.value), e.state);
        }
      }
    }
  }

  lemma StepKeepsRip(host: Host, block: Block, plan: Plan, fast: nat -> bool, i: nat, store: Store, st: GuestState)
    requires HasInternalSelfEdge(block) && i < |block.operations| && !block.operations[i].opcode.ExitBlock?
    ensures CompiledStep(host, block, plan, fast, i, store, st).state.rip == st.rip
  {
    hide FlagsAfter, FlushSunk, WriteRegister, PureValue, Holds;
    assert SafelyRepeatable(block.operations[i]);
  }

  /** When nothing is deferred, the emitted loop is the eager loop, faults included. */
  lemma {:induction false} LoopIsEager(host: Host, block: Block, fast: u64 -> nat -> bool,
                                       stop: (u64, map<u64, byte>) -> bool, budget: u64, last: seq<nat>,
                                       assignment: seq<nat>, contents: map<nat, u64>, st: GuestState)
    requires WellFormed(block) && HasInternalSelfEdge(block) && st.rip == block.start
    requires var plan := Plan(true, None, None); AreLastUses(block, plan, last) && IsAllocation(block, last, assignment)
    ensures var registers := HostRegisters(assignment, contents);
      CompiledLoop(host, block, Plan(true, None, None), fast, stop, budget, registers, st) ==
      EagerLoop(host, block, stop, budget, st)
    decreases Passes(budget)
  {
    hide WellFormed, HasInternalSelfEdge, AreLastUses, IsAllocation, EagerRun, Holds;
    var plan, registers := Plan(true, None, None), HostRegisters(assignment, contents);
    RegistersRefineEager(host, block, true, fast(budget), last, assignment, contents, st);
    PassKeepsRip(host, block, plan, fast(budget), 0, registers, st);
    var p := CompiledPass(host, block, plan, fast(budget), 0, registers, st);
    PassKeepsAssignment(host, block, plan, fast(budget), 0, registers, st);
    hide CompiledPass;
    if p.AtExit? {
      var op := block.operations[p.index];
      var left := ExitState(op, Operand(p.store, op.lhs), p.state, Holds(op.condition, p.state.rflags));
      assert EagerRun(host, block, st) == Left(op.exitKind, left);
      var rest := Sub64(budget, 1);
      if Continues(op.exitKind) && Repeats(block, stop, left, rest) {
        LoopIsEager(host, block, fast, stop, rest, last, assignment, p.store.contents, left);
      }
    }
  }

  lemma {:induction false} PassKeepsAssignment(host: Host, block: Block, plan: Plan, fast: nat -> bool, i: nat,
                                               store: Store, st: GuestState)
    requires i <= |block.operations| && store.HostRegisters?
    ensures var p := CompiledPass(host, block, plan, fast, i, store, st);
      p.AtExit? ==> p.store.HostRegisters? && p.store.assignment == store.assignment
    decreases |block.operations| - i
  {
    hide CompiledStep, Skipped;
    if i < |block.operations| && !block.operations[i].opcode.ExitBlock? {
      if Skipped(block, plan, i) {
        PassKeepsAssignment(host, block, plan, fast, i + 1, store, st);
      } else {
        var e := CompiledStep(host, block, plan, fast, i, store, st);
        if e.Continue? {
          PassKeepsAssignment(host, block, plan, fast, i + 1, Define(store, block.operations[i].result, e.value),
            e.state);
        }
      }
    }
  }
}
