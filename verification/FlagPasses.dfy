/** Which flag updates the back end leaves out, and the code that it emits instead.

    Three decisions are made from the text of a block. An update is dead when the next
    operation that could look at it replaces it. An Equal or NotEqual test is answered from the
    value that the last update was computed from. A logic update before a byte load is moved to
    the load's slow path when another update follows the load. */
module FlagPasses {
  import opened Options
  import opened Words
  import opened Flags
  import opened FlagHelpers
  import opened IR

  // ----- opcode classes

  datatype ZeroFlagSource = ZeroFlagSource(value: ValueId, width: Width)

  function ZeroFlagSourceForUpdate(op: Operation): Option<ZeroFlagSource> {
    match op.opcode
    case UpdateAddFlags =>
      if op.third.Some? then Some(ZeroFlagSource(op.third.value, op.width)) else None
    case UpdateSubFlags =>
      if (op.width == I8 || op.width == I64) && op.third.Some? then Some(ZeroFlagSource(op.third.value, op.width))
      else None
    case UpdateLogicFlags =>
      if op.lhs.Some? then Some(ZeroFlagSource(op.lhs.value, op.width)) else None
    case _ => None
  }

  predicate PreservesZeroFlagSource(opcode: Opcode) {
    IsPure(opcode) || opcode.EvaluateCondition? || opcode.ConditionalMoveGuestReg?
  }

  predicate FullyReplaces(opcode: Opcode) {
    opcode.UpdateAddFlags? || opcode.UpdateAdcFlags? || opcode.UpdateSbbFlags? || opcode.UpdateSubFlags? ||
    opcode.UpdateLogicFlags?
  }

  predicate ConsumesOnlyZeroFlag(op: Operation) {
    (op.opcode.EvaluateCondition? || op.opcode.ConditionalMoveGuestReg?) &&
    (op.condition == Equal || op.condition == NotEqual)
  }

  predicate IsByteLoad(op: Operation) {
    op.opcode.LoadGuest? && op.width == I8
  }

  // ----- the scans

  /** What the zero flag was last computed from, looking back from operation `i`. */
  function ZeroFlagSourceAt(block: Block, i: nat): Option<ZeroFlagSource>
    requires i <= |block.operations|
  {
    if i == 0 then None
    else
      var op := block.operations[i - 1];
      if IsFlagUpdate(op.opcode) then ZeroFlagSourceForUpdate(op)
      else if !PreservesZeroFlagSource(op.opcode) then None
      else ZeroFlagSourceAt(block, i - 1)
  }

  method FindZeroFlagSource(block: Block, operationIndex: nat) returns (source: Option<ZeroFlagSource>)
    requires operationIndex <= |block.operations|
    ensures source == ZeroFlagSourceAt(block, operationIndex)
  {
    var index: nat := operationIndex;
    while index != 0
      invariant index <= |block.operations|
      invariant ZeroFlagSourceAt(block, operationIndex) == ZeroFlagSourceAt(block, index)
    {
      index := index - 1;
      var candidate := block.operations[index];
      if IsFlagUpdate(candidate.opcode) {
        return ZeroFlagSourceForUpdate(candidate);
      }
      if !PreservesZeroFlagSource(candidate.opcode) {
        return None;
      }
    }
    return None;
  }

  /** From `i` on, nothing but pure operations (and, when tests of the zero flag are fused,
      such tests) happens before a full update. */
  predicate ReplacedBefore(block: Block, i: nat, fuse: bool)
    requires i <= |block.operations|
    decreases |block.operations| - i
  {
    i < |block.operations| &&
    var op := block.operations[i];
    FullyReplaces(op.opcode) ||
    (((fuse && ConsumesOnlyZeroFlag(op)) || IsPure(op.opcode)) && ReplacedBefore(block, i + 1, fuse))
  }

  predicate IsDead(block: Block, i: nat, fuse: bool) {
    i < |block.operations| &&
    FullyReplaces(block.operations[i].opcode) &&
    (fuse ==> ZeroFlagSourceForUpdate(block.operations[i]).Some?) &&
    ReplacedBefore(block, i + 1, fuse)
  }

  method IsDeadFlagUpdate(block: Block, start: nat, fuse: bool) returns (dead: bool)
    ensures dead == IsDead(block, start, fuse)
  {
    if start >= |block.operations| || !FullyReplaces(block.operations[start].opcode) {
      return false;
    }
    if fuse && ZeroFlagSourceForUpdate(block.operations[start]).None? {
      return false;
    }
    var index := start + 1;
    while index < |block.operations|
      invariant start < index <= |block.operations|
      invariant ReplacedBefore(block, start + 1, fuse) == ReplacedBefore(block, index, fuse)
    {
      var operation := block.operations[index];
      if FullyReplaces(operation.opcode) {
        return true;
      }
      if !(fuse && ConsumesOnlyZeroFlag(operation)) && !IsPure(operation.opcode) {
        return false;
      }
      index := index + 1;
    }
    return false;
  }

  /** The byte load that comes next, if only pure operations precede it and only pure
      operations separate it from a full update. */
  function SinkLoadFrom(block: Block, i: nat): Option<nat>
    requires i <= |block.operations|
    decreases |block.operations| - i
  {
    if i == |block.operations| then None
    else
      var op := block.operations[i];
      if IsPure(op.opcode) then SinkLoadFrom(block, i + 1)
      else if IsByteLoad(op) && ReplacedBefore(block, i + 1, false) then Some(i)
      else None
  }

  function SinkTarget(block: Block, update: nat): Option<nat> {
    if update < |block.operations| && block.operations[update].opcode.UpdateLogicFlags? then
      SinkLoadFrom(block, update + 1)
    else None
  }

  method LogicFlagSinkTarget(block: Block, updateIndex: nat) returns (result: Option<nat>)
    ensures result == SinkTarget(block, updateIndex)
  {
    if updateIndex >= |block.operations| || !block.operations[updateIndex].opcode.UpdateLogicFlags? {
      return None;
    }
    var target: Option<nat> := None;
    var index := updateIndex + 1;
    while index < |block.operations|
      invariant updateIndex < index <= |block.operations|
      invariant SinkTarget(block, updateIndex) ==
        if target.None? then SinkLoadFrom(block, index)
        else if ReplacedBefore(block, index, false) then target
        else None
    {
      var operation := block.operations[index];
      if IsPure(operation.opcode) {
      } else if target.None? && IsByteLoad(operation) {
        target := Some(index);
      } else if target.Some? && FullyReplaces(operation.opcode) {
        return target;
      } else {
        return None;
      }
      index := index + 1;
    }
    return None;
  }

  /** The update, if any, that the slow path of the load at `load` carries out. */
  function SunkFrom(block: Block, load: nat, i: nat): Option<nat>
    requires i <= load
    decreases load - i
  {
    if i == load then None
    else if SinkTarget(block, i) == Some(load) then Some(i)
    else SunkFrom(block, load, i + 1)
  }

  function SunkUpdateAt(block: Block, load: nat): Option<nat> {
    SunkFrom(block, load, 0)
  }

  method SunkLogicFlagUpdateAt(block: Block, loadIndex: nat) returns (result: Option<nat>)
    ensures result == SunkUpdateAt(block, loadIndex)
    ensures result.Some? <==> exists u :: 0 <= u < loadIndex && SinkTarget(block, u) == Some(loadIndex)
    ensures forall u :: 0 <= u < loadIndex && SinkTarget(block, u) == Some(loadIndex) ==> result == Some(u)
  {
    var index := 0;
    while index < loadIndex
      invariant 0 <= index <= loadIndex
      invariant SunkUpdateAt(block, loadIndex) == SunkFrom(block, loadIndex, index)
      invariant forall u :: 0 <= u < index ==> SinkTarget(block, u) != Some(loadIndex)
    {
      var target := LogicFlagSinkTarget(block, index);
      if target == Some(loadIndex) {
        forall u | 0 <= u < loadIndex && SinkTarget(block, u) == Some(loadIndex)
          ensures u == index
        {
          SinkTargetUnique(block, u, index, loadIndex);
        }
        return Some(index);
      }
      index := index + 1;
    }
    return None;
  }

  // ----- what the scans find

  /** `SinkLoadFrom`, without recursion. */
  lemma {:induction false} SinkLoadMeaning(block: Block, i: nat, t: nat)
    requires i <= |block.operations| && SinkLoadFrom(block, i) == Some(t)
    ensures i <= t < |block.operations| && IsByteLoad(block.operations[t])
    ensures ReplacedBefore(block, t + 1, false)
    ensures forall k :: i <= k < t ==> IsPure(block.operations[k].opcode)
    decreases |block.operations| - i
  {
    if IsPure(block.operations[i].opcode) { SinkLoadMeaning(block, i + 1, t); }
  }

  /** Operation `t` is the first one behind `u` that is neither pure nor, with fused tests, a test of
      the zero flag, and it replaces all flags. */
  predicate ReplacedBehind(block: Block, u: nat, t: nat, fuse: bool) {
    u < t < |block.operations| && FullyReplaces(block.operations[t].opcode) &&
    forall k | u < k < t ::
      IsPure(block.operations[k].opcode) || (fuse && ConsumesOnlyZeroFlag(block.operations[k]))
  }

  lemma {:induction false} ReplacedMeaning(block: Block, u: nat, fuse: bool)
    requires u < |block.operations|
    ensures ReplacedBefore(block, u + 1, fuse) <==> exists t: nat :: ReplacedBehind(block, u, t, fuse)
    decreases |block.operations| - u
  {
    hide FullyReplaces, ConsumesOnlyZeroFlag, IsPure;
    var next := u + 1;
    if next < |block.operations| {
      ReplacedMeaning(block, next, fuse);
      if FullyReplaces(block.operations[next].opcode) {
        assert ReplacedBehind(block, u, next, fuse);
      } else {
        forall t: nat | ReplacedBehind(block, u, t, fuse)
          ensures ReplacedBehind(block, next, t, fuse) && ReplacedBefore(block, next, fuse)
        {
          assert t != next;
          assert ReplacedBehind(block, next, t, fuse);
        }
        if ReplacedBefore(block, next, fuse) {
          var t: nat :| ReplacedBehind(block, next, t, fuse);
          assert ReplacedBehind(block, u, t, fuse);
        }
      }
    }
  }

  /** An update is dropped exactly if it replaces all flags, its zero flag has a source where tests
      are fused, and a later update replaces all flags again before anything looks. */
  lemma DeadMeaning(block: Block, u: nat, fuse: bool)
    ensures IsDead(block, u, fuse) <==>
      u < |block.operations| && FullyReplaces(block.operations[u].opcode) &&
      (fuse ==> ZeroFlagSourceForUpdate(block.operations[u]).Some?) &&
      exists t: nat :: ReplacedBehind(block, u, t, fuse)
  {
    if u < |block.operations| { ReplacedMeaning(block, u, fuse); }
  }

  /** Update `u` is the last one before `i`, and nothing behind it may change what it recorded. */
  predicate LastUpdate(block: Block, u: nat, i: nat) {
    u < i <= |block.operations| && IsFlagUpdate(block.operations[u].opcode) &&
    forall k | u < k < i ::
      !IsFlagUpdate(block.operations[k].opcode) && PreservesZeroFlagSource(block.operations[k].opcode)
  }

  /** A fused test finds exactly the source of that last update. */
  lemma {:induction false} ZeroFlagSourceMeaning(block: Block, i: nat)
    requires i <= |block.operations|
    ensures ZeroFlagSourceAt(block, i).Some? ==> exists u: nat :: LastUpdate(block, u, i)
    ensures forall u: nat :: LastUpdate(block, u, i) ==>
      ZeroFlagSourceAt(block, i) == ZeroFlagSourceForUpdate(block.operations[u])
  {
    if i > 0 {
      ZeroFlagSourceMeaning(block, i - 1);
      if IsFlagUpdate(block.operations[i - 1].opcode) {
        assert LastUpdate(block, i - 1, i);
      } else {
        forall u: nat | LastUpdate(block, u, i)
          ensures LastUpdate(block, u, i - 1) && PreservesZeroFlagSource(block.operations[i - 1].opcode)
        {
          assert u != i - 1;
        }
        if ZeroFlagSourceAt(block, i).Some? {
          var u: nat :| LastUpdate(block, u, i - 1);
          assert LastUpdate(block, u, i);
        }
      }
    }
  }

  /** A logic update is moved to a load exactly if that is the first operation behind it that is not
      pure, loads a byte, and only pure operations separate it from the next full update. */
  lemma SinkMeaning(block: Block, u: nat, t: nat)
    ensures SinkTarget(block, u) == Some(t) <==>
      u < t < |block.operations| && block.operations[u].opcode.UpdateLogicFlags? && IsByteLoad(block.operations[t]) &&
      (forall k | u < k < t :: IsPure(block.operations[k].opcode)) &&
      exists r: nat :: ReplacedBehind(block, t, r, false)
  {
    hide ReplacedBefore, ReplacedBehind, SinkLoadFrom, IsPure, IsByteLoad;
    if u < |block.operations| {
      if SinkTarget(block, u) == Some(t) { SinkLoadMeaning(block, u + 1, t); }
      if u < t < |block.operations| {
        ReplacedMeaning(block, t, false);
        if IsByteLoad(block.operations[t]) && (forall k | u < k < t :: IsPure(block.operations[k].opcode)) {
          SinkLoadReached(block, u + 1, t);
        }
      }
    }
  }

  lemma {:induction false} SinkLoadReached(block: Block, i: nat, t: nat)
    requires i <= t < |block.operations| && IsByteLoad(block.operations[t])
    requires forall k | i <= k < t :: IsPure(block.operations[k].opcode)
    ensures SinkLoadFrom(block, i) == if ReplacedBefore(block, t + 1, false) then Some(t) else None
    decreases t - i
  {
    if i < t { SinkLoadReached(block, i + 1, t); }
  }

  /** Every load receives at most one sunk update. */
  lemma SinkTargetUnique(block: Block, u: nat, v: nat, t: nat)
    requires SinkTarget(block, u) == Some(t) && SinkTarget(block, v) == Some(t)
    ensures u == v
  {
    SinkLoadMeaning(block, u + 1, t);
    SinkLoadMeaning(block, v + 1, t);
  }

  lemma {:induction false} SunkUpdateFound(block: Block, load: nat, u: nat, i: nat)
    requires i <= u < load && SinkTarget(block, u) == Some(load)
    ensures SunkFrom(block, load, i) == Some(u)
    decreases u - i
  {
    if SinkTarget(block, i) == Some(load) {
      SinkTargetUnique(block, i, u, load);
    } else {
      SunkUpdateFound(block, load, u, i + 1);
    }
  }

  lemma {:induction false} SunkUpdateMeaning(block: Block, load: nat, i: nat)
    requires i <= load && SunkFrom(block, load, i).Some?
    ensures var u := SunkFrom(block, load, i).value; i <= u < load && SinkTarget(block, u) == Some(load)
    decreases load - i
  {
    if SinkTarget(block, i) != Some(load) { SunkUpdateMeaning(block, load, i + 1); }
  }

  /** A dead update is never also sunk: a load stands in the way. */
  lemma SunkIsNotDead(block: Block, u: nat, fuse: bool)
    requires SinkTarget(block, u).Some?
    ensures !IsDead(block, u, fuse)
  {
    var t := SinkTarget(block, u).value;
    SinkLoadMeaning(block, u + 1, t);
    LoadBlocks(block, u + 1, t, fuse);
  }

  lemma {:induction false} LoadBlocks(block: Block, i: nat, t: nat, fuse: bool)
    requires i <= t < |block.operations| && block.operations[t].opcode.LoadGuest?
    requires forall k :: i <= k < t ==> IsPure(block.operations[k].opcode)
    ensures !ReplacedBefore(block, i, fuse)
    decreases t - i
  {
    if i < t { LoadBlocks(block, i + 1, t, fuse); }
  }

  /** The source of the zero flag is a value defined before the point that looks for it. */
  lemma {:induction false} ZeroFlagSourceDefined(block: Block, i: nat)
    requires WellFormed(block) && i <= |block.operations| && ZeroFlagSourceAt(block, i).Some?
    ensures ZeroFlagSourceAt(block, i).value.value in Defined(block, i)
    decreases i
  {
    var op := block.operations[i - 1];
    assert OperationWellFormed(block, i - 1);
    if !IsFlagUpdate(op.opcode) { ZeroFlagSourceDefined(block, i - 1); }
  }

  // ----- the compiled pass

  /** What `compile` decided about a block: whether tests are fused and updates eliminated and
      sunk (all three are on exactly when the block can repeat itself), which update waits for
      the exit, and which subtraction is recomputed there. */
  datatype Plan = Plan(fuse: bool, deferred: Option<nat>, skippedResult: Option<nat>)

  /** The operations for which the code generator emits nothing in place. */
  predicate Skipped(block: Block, plan: Plan, i: nat) {
    IsDead(block, i, plan.fuse) ||
    (plan.fuse && SinkTarget(block, i).Some?) ||
    plan.deferred == Some(i) ||
    plan.skippedResult == Some(i)
  }

  predicate Fused(block: Block, plan: Plan, i: nat)
    requires i < |block.operations|
  {
    plan.fuse && ConsumesOnlyZeroFlag(block.operations[i]) && ZeroFlagSourceAt(block, i).Some?
  }

  /** A fused test compares the source value, cut to its width, with zero. */
  predicate FusedHolds(op: Operation, source: ZeroFlagSource, x: u64) {
    (Narrow(source.width, x) == 0) == (op.condition == Equal)
  }

  /** The flags word on the slow path of the byte load at `i`. */
  function FlushSunk(block: Block, i: nat, store: Store, rflags: u64): u64 {
    var sunk := SunkUpdateAt(block, i);
    if sunk.Some? && sunk.value < |block.operations| then
      var update := block.operations[sunk.value];
      Materialise(rflags, LogicFormula(update.width, Operand(store, update.lhs)))
    else rflags
  }

  /** The emitted code of one operation that is not skipped. `fast` says which byte loads hit
      the direct window; an address inside it is readable. */
  function CompiledStep(host: Host, block: Block, plan: Plan, fast: nat -> bool, i: nat, store: Store,
                        st: GuestState): Effect
    requires i < |block.operations|
  {
    var op := block.operations[i];
    var a, b, c := Operand(store, op.lhs), Operand(store, op.rhs), Operand(store, op.third);
    if Fused(block, plan, i) then
      var source := ZeroFlagSourceAt(block, i).value;
      var taken := FusedHolds(op, source, Read(store, source.value));
      if op.opcode.EvaluateCondition? then Continue(if taken then 1 else 0, st)
      else Continue(0, st.(regs := ConditionalMove(op, a, st.regs, taken)))
    else if plan.fuse && IsByteLoad(op) && !(fast(i) && LoadValue(st.memory, a, op.width).Some?) then
      Execute(host, op, a, b, c, st.(rflags := FlushSunk(block, i, store, st.rflags)))
    else Execute(host, op, a, b, c, st)
  }

  /** One pass of the compiled block. */
  function CompiledPass(host: Host, block: Block, plan: Plan, fast: nat -> bool, i: nat, store: Store,
                        st: GuestState): (p: Pass)
    requires i <= |block.operations|
    ensures p.AtExit? ==> i <= p.index < |block.operations| && block.operations[p.index].opcode.ExitBlock?
    decreases |block.operations| - i
  {
    if i == |block.operations| then RanOff
    else
      var op := block.operations[i];
      if op.opcode.ExitBlock? then AtExit(i, store, st)
      else if Skipped(block, plan, i) then CompiledPass(host, block, plan, fast, i + 1, store, st)
      else
        match CompiledStep(host, block, plan, fast, i, store, st)
        case Fault(s) => PassFault(op.rip, s)
        case Continue(x, s) => CompiledPass(host, block, plan, fast, i + 1, Define(store, op.result, x), s)
  }

  /** A compiled block that defers nothing. */
  function CompiledRun(host: Host, block: Block, fuse: bool, fast: nat -> bool, store: Store, st: GuestState): Outcome {
    TakeExit(block, CompiledPass(host, block, Plan(fuse, None, None), fast, 0, store, st))
  }
}
