/** Why a compiled block ends with the same state as one that does every flag update where it is
    written: the flags words may differ in between, but only while nothing looks. */
module FlagSimulation {
  import opened Options
  import opened Words
  import opened Flags
  import opened FlagHelpers
  import opened InlineFlags
  import opened IR
  import opened FlagPasses

  // ----- the simulation

  /** The stores agree on everything an operation at `i` may read. */
  ghost predicate StoresAgree(block: Block, i: nat, eager: Store, compiled: Store)
    requires i <= |block.operations|
  {
    forall v | v in Defined(block, i) :: Read(eager, v) == Read(compiled, v)
  }

  /** Some update before `i` may be missing from the compiled flags word, and nothing looks at
      it before it is carried out or replaced. */
  ghost predicate Hidden(block: Block, fuse: bool, i: nat)
    requires i <= |block.operations|
  {
    ReplacedBefore(block, i, false) ||
    (fuse && ReplacedBefore(block, i, true) && ZeroFlagSourceAt(block, i).Some?) ||
    (fuse && SinkPending(block, i))
  }

  ghost predicate SinkPending(block: Block, i: nat) {
    exists u: nat :: IsPendingSink(block, i, u)
  }

  ghost predicate IsPendingSink(block: Block, i: nat, u: nat) {
    u < i && SinkTarget(block, u).Some? && i <= SinkTarget(block, u).value
  }

  /** The eager zero flag is what the source value says. */
  ghost predicate ZeroFlagTracks(block: Block, i: nat, store: Store, rflags: u64)
    requires i <= |block.operations|
  {
    var source := ZeroFlagSourceAt(block, i);
    source.Some? ==> (Bit(rflags, 6) <==> Narrow(source.value.width, Read(store, source.value.value)) == 0)
  }

  /** Carrying out a pending sunk update on the compiled word gives the eager word. */
  ghost predicate PendingSinkRestores(block: Block, i: nat, store: Store, eager: u64, compiled: u64) {
    forall u: nat | IsPendingSink(block, i, u) ::
      var update := block.operations[u];
      eager == Materialise(compiled, LogicFormula(update.width, Operand(store, update.lhs)))
  }

  ghost predicate Simulates(block: Block, fuse: bool, i: nat, eagerStore: Store, eager: GuestState, store: Store,
                            st: GuestState)
    requires i <= |block.operations|
  {
    eagerStore.Values? && store.Values? && StoresAgree(block, i, eagerStore, store) &&
    st == eager.(rflags := st.rflags) &&
    SystemFlags(st.rflags) == SystemFlags(eager.rflags) &&
    (st.rflags == eager.rflags || Hidden(block, fuse, i)) &&
    ZeroFlagTracks(block, i, eagerStore, eager.rflags) &&
    (fuse ==> PendingSinkRestores(block, i, eagerStore, eager.rflags, st.rflags))
  }

  // ----- one step of the simulation

  lemma OperandsAgree(block: Block, i: nat, eager: Store, compiled: Store)
    requires WellFormed(block) && i < |block.operations| && StoresAgree(block, i, eager, compiled)
    ensures var op := block.operations[i];
      Operand(eager, op.lhs) == Operand(compiled, op.lhs) &&
      Operand(eager, op.rhs) == Operand(compiled, op.rhs) &&
      Operand(eager, op.third) == Operand(compiled, op.third)
  {
    assert OperationWellFormed(block, i);
  }

  lemma StoresAgreeStep(block: Block, i: nat, eager: Store, compiled: Store, x: u64)
    requires WellFormed(block) && i < |block.operations| && eager.Values? && compiled.Values?
    requires StoresAgree(block, i, eager, compiled)
    ensures var r := block.operations[i].result;
      StoresAgree(block, i + 1, Define(eager, r, x), Define(compiled, r, x))
  {
    var r := block.operations[i].result;
    forall v | v in Defined(block, i + 1)
      ensures Read(Define(eager, r, x), v) == Read(Define(compiled, r, x), v)
    {
      assert v in Defined(block, i) || r == Some(v);
    }
  }

  /** A definition leaves the values defined before it alone. */
  lemma EarlierValueKept(block: Block, i: nat, store: Store, x: u64, v: ValueId)
    requires WellFormed(block) && i < |block.operations| && store.Values? && v in Defined(block, i)
    ensures Read(Define(store, block.operations[i].result, x), v) == Read(store, v)
  {
    assert OperationWellFormed(block, i);
  }

  /** What an operation may be while an update is hidden. */
  lemma HiddenOperation(block: Block, fuse: bool, i: nat)
    requires i <= |block.operations| && Hidden(block, fuse, i)
    ensures i < |block.operations|
    ensures var op := block.operations[i];
      IsPure(op.opcode) || FullyReplaces(op.opcode) || Fused(block, Plan(fuse, None, None), i) ||
      (fuse && IsByteLoad(op) && exists u: nat :: IsPendingSink(block, i, u) && SinkTarget(block, u) == Some(i))
  {
    if !ReplacedBefore(block, i, false) &&
      !(fuse && ReplacedBefore(block, i, true) && ZeroFlagSourceAt(block, i).Some?) {
      var u: nat :| IsPendingSink(block, i, u);
      SinkLoadMeaning(block, u + 1, SinkTarget(block, u).value);
    }
  }

  lemma PureKeepsHidden(block: Block, fuse: bool, i: nat)
    requires i < |block.operations| && Hidden(block, fuse, i) && IsPure(block.operations[i].opcode)
    ensures Hidden(block, fuse, i + 1)
  {
    if !ReplacedBefore(block, i, false) &&
      !(fuse && ReplacedBefore(block, i, true) && ZeroFlagSourceAt(block, i).Some?) {
      var u: nat :| IsPendingSink(block, i, u);
      SinkLoadMeaning(block, u + 1, SinkTarget(block, u).value);
      assert IsPendingSink(block, i + 1, u);
    }
  }

  /** An operation that changes neither flags word keeps the bookkeeping of the simulation. */
  lemma QuietStep(block: Block, fuse: bool, i: nat, eagerStore: Store, eager: GuestState, store: Store, st: GuestState,
                  x: u64, regs: Registers)
    requires WellFormed(block) && i < |block.operations|
    requires Simulates(block, fuse, i, eagerStore, eager, store, st)
    requires PreservesZeroFlagSource(block.operations[i].opcode)
    requires st.rflags == eager.rflags || Hidden(block, fuse, i + 1)
    ensures var r := block.operations[i].result;
      Simulates(block, fuse, i + 1, Define(eagerStore, r, x), eager.(regs := regs), Define(store, r, x),
        st.(regs := regs))
  {
    var r := block.operations[i].result;
    StoresAgreeStep(block, i, eagerStore, store, x);
    var source := ZeroFlagSourceAt(block, i);
    assert ZeroFlagSourceAt(block, i + 1) == source;
    if source.Some? {
      ZeroFlagSourceDefined(block, i);
      EarlierValueKept(block, i, eagerStore, x, source.value.value);
    }
    if fuse {
      PendingKept(block, i, eagerStore, eager.rflags, st.rflags, x);
    }
  }

  lemma PendingKept(block: Block, i: nat, store: Store, eager: u64, compiled: u64, x: u64)
    requires WellFormed(block) && i < |block.operations| && store.Values?
    requires !block.operations[i].opcode.UpdateLogicFlags?
    requires PendingSinkRestores(block, i, store, eager, compiled)
    ensures PendingSinkRestores(block, i + 1, Define(store, block.operations[i].result, x), eager, compiled)
  {
    forall u: nat | IsPendingSink(block, i + 1, u)
      ensures var update := block.operations[u];
        eager == Materialise(compiled,
          LogicFormula(update.width, Operand(Define(store, block.operations[i].result, x), update.lhs)))
    {
      assert u != i;
      assert IsPendingSink(block, i, u);
      var update := block.operations[u];
      assert OperationWellFormed(block, u);
      DefinedGrows(block, u, i);
      EarlierValueKept(block, i, store, x, update.lhs.value);
    }
  }

  /** No sunk update is pending across an operation that is neither pure nor sunk itself. */
  lemma NothingPending(block: Block, i: nat)
    requires i < |block.operations|
    requires !IsPure(block.operations[i].opcode) && SinkTarget(block, i).None?
    ensures !SinkPending(block, i + 1)
  {
    var next := i + 1;
    forall u: nat
      ensures !IsPendingSink(block, next, u)
    {
      if u < i && SinkTarget(block, u).Some? {
        SinkLoadMeaning(block, u + 1, SinkTarget(block, u).value);
      }
    }
  }

  /** The zero flag after an update is what `ZeroFlagSourceForUpdate` says it was computed from. */
  lemma UpdateZeroFlag(host: Host, op: Operation, a: u64, b: u64, c: u64, rflags: u64)
    requires ZeroFlagSourceForUpdate(op).Some? && HasOperands(op)
    ensures var x := if op.opcode.UpdateLogicFlags? then a else c;
      Bit(FlagsAfter(host, op, a, b, c, rflags), 6) <==> Narrow(op.width, x) == 0
  {
    hide Narrow, EvenParity, NibbleCrossed, AddOverflows, SubOverflows, SystemFlags, WithArith;
    if op.opcode.UpdateAddFlags? {
      MaterialiseBit(rflags, InlineAddFormula(op.width, a, b, c), 6);
    } else if op.opcode.UpdateSubFlags? {
      MaterialiseBit(rflags, SubFormula(op.width, a, b, c), 6);
    } else {
      MaterialiseBit(rflags, LogicFormula(op.width, a), 6);
    }
  }

  lemma UpdateTracksZero(host: Host, block: Block, i: nat, store: Store, rflags: u64)
    requires WellFormed(block) && i < |block.operations| && IsFlagUpdate(block.operations[i].opcode)
    ensures var op := block.operations[i];
      ZeroFlagTracks(block, i + 1, store,
        FlagsAfter(host, op, Operand(store, op.lhs), Operand(store, op.rhs), Operand(store, op.third), rflags))
  {
    var op := block.operations[i];
    assert OperationWellFormed(block, i);
    if ZeroFlagSourceForUpdate(op).Some? {
      UpdateZeroFlag(host, op, Operand(store, op.lhs), Operand(store, op.rhs), Operand(store, op.third), rflags);
    }
  }

  /** A full update depends on the old word only through its system bits. */
  lemma FullUpdateForgets(host: Host, op: Operation, a: u64, b: u64, c: u64, f: u64, g: u64)
    requires FullyReplaces(op.opcode) && SystemFlags(f) == SystemFlags(g)
    ensures FlagsAfter(host, op, a, b, c, f) == FlagsAfter(host, op, a, b, c, g)
  {
    hide SystemFlags, WithArith;
  }

  /** The compiled code of an operation that is not skipped keeps step with the eager one. */
  ghost predicate StepMatches(host: Host, block: Block, fuse: bool, fast: nat -> bool, i: nat,
                              eagerStore: Store, eager: GuestState, store: Store, st: GuestState)
    requires i < |block.operations|
  {
    var op := block.operations[i];
    var expected := Execute(host, op, Operand(eagerStore, op.lhs), Operand(eagerStore, op.rhs),
      Operand(eagerStore, op.third), eager);
    match CompiledStep(host, block, Plan(fuse, None, None), fast, i, store, st)
    case Fault(s) => expected == Fault(s)
    case Continue(x, s) =>
      expected.Continue? && expected.value == x &&
      Simulates(block, fuse, i + 1, Define(eagerStore, op.result, x), expected.state, Define(store, op.result, x), s)
  }

  lemma SkippedStep(host: Host, block: Block, fuse: bool, i: nat, eagerStore: Store, eager: GuestState, store: Store,
                    st: GuestState)
    requires WellFormed(block) && i < |block.operations|
    requires Simulates(block, fuse, i, eagerStore, eager, store, st)
    requires Skipped(block, Plan(fuse, None, None), i)
    ensures var op := block.operations[i];
      op.result.None? && IsFlagUpdate(op.opcode) &&
      Simulates(block, fuse, i + 1, eagerStore,
        eager.(rflags := FlagsAfter(host, op, Operand(eagerStore, op.lhs), Operand(eagerStore, op.rhs),
          Operand(eagerStore, op.third), eager.rflags)),
        store, st)
  {
    var op := block.operations[i];
    assert OperationWellFormed(block, i);
    var a, b, c := Operand(eagerStore, op.lhs), Operand(eagerStore, op.rhs), Operand(eagerStore, op.third);
    var updated := FlagsAfter(host, op, a, b, c, eager.rflags);
    UpdateKeepsSystem(host, op, a, b, c, eager.rflags);
    UpdateTracksZero(host, block, i, eagerStore, eager.rflags);
    if SinkTarget(block, i).Some? && fuse {
      SinkLoadMeaning(block, i + 1, SinkTarget(block, i).value);
      assert IsPendingSink(block, i + 1, i);
      FullUpdateForgets(host, op, a, b, c, eager.rflags, st.rflags);
      SinkRestores(host, block, i, eagerStore, eager.rflags, st.rflags);
    } else {
      assert IsDead(block, i, fuse);
      if fuse {
        SinkTargetOfDead(block, i, fuse);
        NothingPending(block, i);
      }
    }
  }

  lemma SinkTargetOfDead(block: Block, i: nat, fuse: bool)
    requires IsDead(block, i, fuse)
    ensures SinkTarget(block, i).None?
  {
    if SinkTarget(block, i).Some? {
      SunkIsNotDead(block, i, fuse);
    }
  }

  lemma SinkRestores(host: Host, block: Block, i: nat, store: Store, eager: u64, compiled: u64)
    requires i < |block.operations| && SinkTarget(block, i).Some?
    requires SystemFlags(eager) == SystemFlags(compiled)
    ensures var op := block.operations[i];
      PendingSinkRestores(block, i + 1, store,
        FlagsAfter(host, op, Operand(store, op.lhs), Operand(store, op.rhs), Operand(store, op.third), eager), compiled)
  {
    hide SystemFlags, WithArith;
    var next := i + 1;
    forall u: nat | IsPendingSink(block, next, u)
      ensures u == i
    {
      if u < i {
        SinkLoadMeaning(block, u + 1, SinkTarget(block, u).value);
      }
    }
  }

  lemma PureStep(host: Host, block: Block, fuse: bool, fast: nat -> bool, i: nat,
                 eagerStore: Store, eager: GuestState, store: Store, st: GuestState)
    requires WellFormed(block) && i < |block.operations| && IsPure(block.operations[i].opcode)
    requires Simulates(block, fuse, i, eagerStore, eager, store, st)
    ensures StepMatches(host, block, fuse, fast, i, eagerStore, eager, store, st)
  {
    var op := block.operations[i];
    OperandsAgree(block, i, eagerStore, store);
    var a, b, c := Operand(store, op.lhs), Operand(store, op.rhs), Operand(store, op.third);
    PureIgnoresFlags(host, op, a, b, c, eager, st.rflags);
    var e := Execute(host, op, a, b, c, eager);
    if Hidden(block, fuse, i) {
      PureKeepsHidden(block, fuse, i);
    }
    PureChangesRegisters(host, op, a, b, c, eager);
    QuietStep(block, fuse, i, eagerStore, eager, store, st, e.value, e.state.regs);
  }

  lemma PureChangesRegisters(host: Host, op: Operation, a: u64, b: u64, c: u64, st: GuestState)
    requires IsPure(op.opcode)
    ensures var e := Execute(host, op, a, b, c, st); e.Continue? && e.state == st.(regs := e.state.regs)
  {
  }

  /** The value that a fused test looks at gives the eager answer. */
  lemma FusedTestHolds(block: Block, fuse: bool, i: nat, eagerStore: Store, eager: GuestState, store: Store,
                       st: GuestState)
    requires WellFormed(block) && i < |block.operations| && Fused(block, Plan(fuse, None, None), i)
    requires Simulates(block, fuse, i, eagerStore, eager, store, st)
    ensures var op, source := block.operations[i], ZeroFlagSourceAt(block, i).value;
      FusedHolds(op, source, Read(store, source.value)) == Holds(op.condition, eager.rflags)
  {
    hide SystemFlags, PendingSinkRestores, Hidden, Narrow;
    ZeroFlagSourceDefined(block, i);
  }

  /** A test either meets the eager flags word, or is fused and leaves what is hidden hidden. */
  lemma TestMeetsFlags(block: Block, fuse: bool, i: nat, eagerStore: Store, eager: GuestState, store: Store,
                       st: GuestState)
    requires WellFormed(block) && i < |block.operations|
    requires block.operations[i].opcode.EvaluateCondition? || block.operations[i].opcode.ConditionalMoveGuestReg?
    requires Simulates(block, fuse, i, eagerStore, eager, store, st)
    ensures st == eager.(rflags := st.rflags)
    ensures st.rflags == eager.rflags || (Fused(block, Plan(fuse, None, None), i) && Hidden(block, fuse, i + 1))
  {
    hide SystemFlags, PendingSinkRestores, ZeroFlagTracks, StoresAgree, Hidden, Fused;
    if Hidden(block, fuse, i) {
      HiddenOperation(block, fuse, i);
      if Fused(block, Plan(fuse, None, None), i) { TestKeepsHidden(block, fuse, i); }
    }
  }

  lemma SimulatedStores(block: Block, fuse: bool, i: nat, eagerStore: Store, eager: GuestState, store: Store,
                        st: GuestState)
    requires i <= |block.operations| && Simulates(block, fuse, i, eagerStore, eager, store, st)
    ensures StoresAgree(block, i, eagerStore, store)
  {
  }

  lemma TestStep(host: Host, block: Block, fuse: bool, fast: nat -> bool, i: nat,
                 eagerStore: Store, eager: GuestState, store: Store, st: GuestState)
    requires WellFormed(block) && i < |block.operations|
    requires block.operations[i].opcode.EvaluateCondition? || block.operations[i].opcode.ConditionalMoveGuestReg?
    requires Simulates(block, fuse, i, eagerStore, eager, store, st)
    ensures StepMatches(host, block, fuse, fast, i, eagerStore, eager, store, st)
  {
    hide Simulates, Hidden, StoresAgree, Holds, FusedHolds, ZeroFlagSourceAt, WellFormed;
    var op := block.operations[i];
    SimulatedStores(block, fuse, i, eagerStore, eager, store, st);
    OperandsAgree(block, i, eagerStore, store);
    TestMeetsFlags(block, fuse, i, eagerStore, eager, store, st);
    var a := Operand(store, op.lhs);
    var holds := Holds(op.condition, eager.rflags);
    if Fused(block, Plan(fuse, None, None), i) {
      FusedTestHolds(block, fuse, i, eagerStore, eager, store, st);
    }
    var x := if op.opcode.EvaluateCondition? && holds then 1 else 0;
    var regs := if op.opcode.EvaluateCondition? then eager.regs else ConditionalMove(op, a, eager.regs, holds);
    QuietStep(block, fuse, i, eagerStore, eager, store, st, x, regs);
  }

  lemma TestKeepsHidden(block: Block, fuse: bool, i: nat)
    requires i < |block.operations| && Hidden(block, fuse, i) && Fused(block, Plan(fuse, None, None), i)
    ensures Hidden(block, fuse, i + 1)
  {
    if SinkPending(block, i) {
      var u: nat :| IsPendingSink(block, i, u);
      SinkLoadMeaning(block, u + 1, SinkTarget(block, u).value);
    }
  }

  /** A full update while something is hidden erases the difference. */
  lemma HiddenUpdateForgets(host: Host, block: Block, fuse: bool, i: nat,
                            eagerStore: Store, eager: GuestState, store: Store, st: GuestState, a: u64, b: u64, c: u64)
    requires WellFormed(block) && i < |block.operations| && IsFlagUpdate(block.operations[i].opcode)
    requires Simulates(block, fuse, i, eagerStore, eager, store, st)
    ensures st == eager.(rflags := st.rflags) && SystemFlags(st.rflags) == SystemFlags(eager.rflags)
    ensures FlagsAfter(host, block.operations[i], a, b, c, st.rflags) ==
      FlagsAfter(host, block.operations[i], a, b, c, eager.rflags)
  {
    hide FlagsAfter, SystemFlags, PendingSinkRestores, ZeroFlagTracks, StoresAgree, Hidden;
    if Hidden(block, fuse, i) {
      HiddenOperation(block, fuse, i);
      FullUpdateForgets(host, block.operations[i], a, b, c, eager.rflags, st.rflags);
    }
  }

  lemma UpdateStep(host: Host, block: Block, fuse: bool, fast: nat -> bool, i: nat,
                   eagerStore: Store, eager: GuestState, store: Store, st: GuestState)
    requires WellFormed(block) && i < |block.operations| && IsFlagUpdate(block.operations[i].opcode)
    requires Simulates(block, fuse, i, eagerStore, eager, store, st)
    requires !Skipped(block, Plan(fuse, None, None), i)
    ensures StepMatches(host, block, fuse, fast, i, eagerStore, eager, store, st)
  {
    hide FlagsAfter, SystemFlags, Hidden, ZeroFlagSourceAt, ZeroFlagTracks, Execute;
    var op := block.operations[i];
    assert OperationWellFormed(block, i);
    OperandsAgree(block, i, eagerStore, store);
    var a, b, c := Operand(eagerStore, op.lhs), Operand(eagerStore, op.rhs), Operand(eagerStore, op.third);
    HiddenUpdateForgets(host, block, fuse, i, eagerStore, eager, store, st, a, b, c);
    UpdateKeepsSystem(host, op, a, b, c, eager.rflags);
    UpdateTracksZero(host, block, i, eagerStore, eager.rflags);
    UpdateExecutes(host, op, a, b, c, eager);
    UpdateExecutes(host, op, a, b, c, st);
    if fuse {
      NothingPending(block, i);
    }
  }

  lemma LoadStep(host: Host, block: Block, fuse: bool, fast: nat -> bool, i: nat,
                 eagerStore: Store, eager: GuestState, store: Store, st: GuestState)
    requires WellFormed(block) && i < |block.operations| && block.operations[i].opcode.LoadGuest?
    requires Simulates(block, fuse, i, eagerStore, eager, store, st)
    ensures StepMatches(host, block, fuse, fast, i, eagerStore, eager, store, st)
  {
    var op := block.operations[i];
    OperandsAgree(block, i, eagerStore, store);
    var a := Operand(store, op.lhs);
    var loaded := LoadValue(st.memory, a, op.width);
    var slow := fuse && IsByteLoad(op) && !(fast(i) && loaded.Some?);
    if Hidden(block, fuse, i) {
      HiddenOperation(block, fuse, i);
    }
    if slow {
      FlushRestores(block, fuse, i, eagerStore, eager, store, st);
    }
    NothingPending(block, i);
    if Hidden(block, fuse, i) && !slow {
      var u: nat :| IsPendingSink(block, i, u) && SinkTarget(block, u) == Some(i);
      SinkLoadMeaning(block, u + 1, i);
    }
    if loaded.Some? {
      StoresAgreeStep(block, i, eagerStore, store, loaded.value);
    }
  }

  /** On the slow path of a load the flags word is exactly the eager one. */
  lemma FlushRestores(block: Block, fuse: bool, i: nat, eagerStore: Store, eager: GuestState, store: Store,
                      st: GuestState)
    requires WellFormed(block) && i < |block.operations| && IsByteLoad(block.operations[i]) && fuse
    requires Simulates(block, fuse, i, eagerStore, eager, store, st)
    ensures FlushSunk(block, i, store, st.rflags) == eager.rflags
  {
    var sunk := SunkUpdateAt(block, i);
    if sunk.Some? {
      SunkUpdateMeaning(block, i, 0);
      assert IsPendingSink(block, i, sunk.value);
      assert OperationWellFormed(block, sunk.value);
      DefinedGrows(block, sunk.value, i);
    } else if Hidden(block, fuse, i) {
      HiddenOperation(block, fuse, i);
      var u: nat :| IsPendingSink(block, i, u) && SinkTarget(block, u) == Some(i);
      SunkUpdateFound(block, i, u, 0);
    }
  }

  /** Any other operation meets the exact state. */
  lemma OtherStep(host: Host, block: Block, fuse: bool, fast: nat -> bool, i: nat,
                  eagerStore: Store, eager: GuestState, store: Store, st: GuestState)
    requires WellFormed(block) && i < |block.operations|
    requires block.operations[i].opcode.StoreGuest? || block.operations[i].opcode.Other?
    requires Simulates(block, fuse, i, eagerStore, eager, store, st)
    ensures StepMatches(host, block, fuse, fast, i, eagerStore, eager, store, st)
  {
    var op := block.operations[i];
    OperandsAgree(block, i, eagerStore, store);
    if Hidden(block, fuse, i) {
      HiddenOperation(block, fuse, i);
    }
    assert st == eager;
    NothingPending(block, i);
    var e := Execute(host, op, Operand(store, op.lhs), Operand(store, op.rhs), Operand(store, op.third), eager);
    if e.Continue? {
      StoresAgreeStep(block, i, eagerStore, store, e.value);
    }
  }

  /** Two passes stop in the same way, with the simulation at the exit. */
  ghost predicate PassesMatch(block: Block, fuse: bool, eager: Pass, compiled: Pass)
    requires eager.AtExit? ==> eager.index < |block.operations|
  {
    match eager
    case PassFault(_, _) => compiled == eager
    case RanOff => compiled == eager
    case AtExit(i, store, s) =>
      compiled.AtExit? && compiled.index == i && Simulates(block, fuse, i, store, s, compiled.store, compiled.state)
  }

  lemma {:induction false} PassSimulation(host: Host, block: Block, fuse: bool, fast: nat -> bool, i: nat,
                                          eagerStore: Store, eager: GuestState, store: Store, st: GuestState)
    requires WellFormed(block) && i <= |block.operations|
    requires Simulates(block, fuse, i, eagerStore, eager, store, st)
    ensures PassesMatch(block, fuse, EagerPass(host, block, i, eagerStore, eager),
      CompiledPass(host, block, Plan(fuse, None, None), fast, i, store, st))
    decreases |block.operations| - i
  {
    hide Simulates, Execute, CompiledStep, Skipped;
    if i < |block.operations| && !block.operations[i].opcode.ExitBlock? {
      var op := block.operations[i];
      if Skipped(block, Plan(fuse, None, None), i) {
        SkippedStep(host, block, fuse, i, eagerStore, eager, store, st);
        SkippedRuns(host, block, fuse, fast, i, eagerStore, eager, store, st);
        PassSimulation(host, block, fuse, fast, i + 1, eagerStore,
          eager.(rflags := FlagsAfter(host, op, Operand(eagerStore, op.lhs), Operand(eagerStore, op.rhs),
            Operand(eagerStore, op.third), eager.rflags)),
          store, st);
      } else {
        StepsMatch(host, block, fuse, fast, i, eagerStore, eager, store, st);
        var e := CompiledStep(host, block, Plan(fuse, None, None), fast, i, store, st);
        if e.Continue? {
          var expected := Execute(host, op, Operand(eagerStore, op.lhs), Operand(eagerStore, op.rhs),
            Operand(eagerStore, op.third), eager);
          PassSimulation(host, block, fuse, fast, i + 1,
            Define(eagerStore, op.result, e.value), expected.state, Define(store, op.result, e.value), e.state);
        }
      }
    }
  }

  lemma UpdateExecutes(host: Host, op: Operation, a: u64, b: u64, c: u64, st: GuestState)
    requires IsFlagUpdate(op.opcode)
    ensures Execute(host, op, a, b, c, st) == Continue(0, st.(rflags := FlagsAfter(host, op, a, b, c, st.rflags)))
  {
    hide FlagsAfter;
  }

  lemma SkippedRuns(host: Host, block: Block, fuse: bool, fast: nat -> bool, i: nat,
                    eagerStore: Store, eager: GuestState, store: Store, st: GuestState)
    requires i < |block.operations| && Skipped(block, Plan(fuse, None, None), i)
    requires IsFlagUpdate(block.operations[i].opcode) && block.operations[i].result.None?
    ensures var plan := Plan(fuse, None, None);
      CompiledPass(host, block, plan, fast, i, store, st) == CompiledPass(host, block, plan, fast, i + 1, store, st)
    ensures var op := block.operations[i];
      EagerPass(host, block, i, eagerStore, eager) ==
      EagerPass(host, block, i + 1, eagerStore,
        eager.(rflags := FlagsAfter(host, op, Operand(eagerStore, op.lhs), Operand(eagerStore, op.rhs),
          Operand(eagerStore, op.third), eager.rflags)))
  {
    hide FlagsAfter, Skipped, CompiledStep, Execute;
    var op := block.operations[i];
    UpdateExecutes(host, op, Operand(eagerStore, op.lhs), Operand(eagerStore, op.rhs), Operand(eagerStore, op.third),
      eager);
  }

  lemma ExitMatches(block: Block, fuse: bool, i: nat, eagerStore: Store, eager: GuestState, store: Store,
                    st: GuestState)
    requires WellFormed(block) && i < |block.operations| && block.operations[i].opcode.ExitBlock?
    requires Simulates(block, fuse, i, eagerStore, eager, store, st)
    ensures st == eager && Operand(store, block.operations[i].lhs) == Operand(eagerStore, block.operations[i].lhs)
  {
    OperandsAgree(block, i, eagerStore, store);
    if Hidden(block, fuse, i) {
      HiddenOperation(block, fuse, i);
    }
  }

  lemma StepsMatch(host: Host, block: Block, fuse: bool, fast: nat -> bool, i: nat,
                   eagerStore: Store, eager: GuestState, store: Store, st: GuestState)
    requires WellFormed(block) && i < |block.operations| && !block.operations[i].opcode.ExitBlock?
    requires Simulates(block, fuse, i, eagerStore, eager, store, st)
    requires !Skipped(block, Plan(fuse, None, None), i)
    ensures StepMatches(host, block, fuse, fast, i, eagerStore, eager, store, st)
  {
    hide StepMatches, Simulates, Skipped;
    var o := block.operations[i].opcode;
    if IsPure(o) {
      PureStep(host, block, fuse, fast, i, eagerStore, eager, store, st);
    } else if IsFlagUpdate(o) {
      UpdateStep(host, block, fuse, fast, i, eagerStore, eager, store, st);
    } else if o.LoadGuest? {
      LoadStep(host, block, fuse, fast, i, eagerStore, eager, store, st);
    } else if o.EvaluateCondition? || o.ConditionalMoveGuestReg? {
      TestStep(host, block, fuse, fast, i, eagerStore, eager, store, st);
    } else {
      OtherStep(host, block, fuse, fast, i, eagerStore, eager, store, st);
    }
  }

  /** Skipping dead updates, fusing tests of the zero flag and sinking logic updates changes no
      outcome: the same exit or fault, the same registers, memory and flags word. */
  lemma CompiledBlockIsEager(host: Host, block: Block, fuse: bool, fast: nat -> bool, cells: map<ValueId, u64>,
                             st: GuestState)
    requires WellFormed(block)
    ensures CompiledRun(host, block, fuse, fast, Values(cells), st) == EagerRun(host, block, st)
  {
    var eager := EagerPass(host, block, 0, Values(map[]), st);
    var compiled := CompiledPass(host, block, Plan(fuse, None, None), fast, 0, Values(cells), st);
    PassSimulation(host, block, fuse, fast, 0, Values(map[]), st, Values(cells), st);
    if eager.AtExit? {
      ExitMatches(block, fuse, eager.index, eager.store, eager.state, compiled.store, compiled.state);
    }
  }
}
