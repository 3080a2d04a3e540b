/** Placing SSA values in x8..x15 by linear scan, and running a block on those registers. */
module LinearScan {
  import opened Options
  import opened IR
  import opened FlagPasses

  const FIRST_REGISTER: nat := 8
  const REGISTER_COUNT: nat := 8

  // ----- live ranges

  /** The emitted code reads or writes `v` no later than operation `p` finishes because of
      operation `i`: as its result or operand, as the source of a fused test, as the operand
      of a logic update whose load is `p`, or as an operand of the update that waits for the
      last operation. */
  predicate Touches(block: Block, plan: Plan, v: ValueId, i: nat, p: nat)
    requires i < |block.operations|
  {
    var op := block.operations[i];
    (p == i && (op.result == Some(v) || v in Uses(op))) ||
    (p == i && Fused(block, plan, i) && ZeroFlagSourceAt(block, i).value.value == v) ||
    (plan.fuse && SinkTarget(block, i) == Some(p) && op.lhs == Some(v)) ||
    (plan.deferred == Some(i) && p == |block.operations| - 1 && v in Uses(op))
  }

  /** `last` gives every value the last position that touches it. */
  ghost predicate AreLastUses(block: Block, plan: Plan, last: seq<nat>) {
    |last| == block.valueCount &&
    (forall v, i, p | 0 <= v < |last| && 0 <= i < |block.operations| && 0 <= p && Touches(block, plan, v, i, p) ::
      p <= last[v]) &&
    (forall v | 0 <= v < |last| && last[v] != 0 :: IsTouchedAt(block, plan, v, last[v]))
  }

  ghost predicate IsTouchedAt(block: Block, plan: Plan, v: ValueId, p: nat) {
    exists i :: 0 <= i < |block.operations| && Touches(block, plan, v, i, p)
  }

  /** The values whose closed live range contains operation `d`. */
  ghost function LiveAt(block: Block, last: seq<nat>, d: nat): set<ValueId>
    requires d < |block.operations|
  {
    set v | v in Defined(block, d + 1) && v < |last| && d <= last[v]
  }

  predicate IsRegister(r: nat) {
    FIRST_REGISTER <= r < FIRST_REGISTER + REGISTER_COUNT
  }

  /** Every value has a host register, and values that are live together have different ones. */
  ghost predicate IsAllocation(block: Block, last: seq<nat>, assignment: seq<nat>) {
    |assignment| == block.valueCount == |last| &&
    (forall v | v in Defined(block, |block.operations|) :: v < |assignment| && IsRegister(assignment[v])) &&
    (forall d | 0 <= d < |block.operations| :: RegistersDistinct(block, last, assignment, d))
  }

  ghost predicate RegistersDistinct(block: Block, last: seq<nat>, assignment: seq<nat>, d: nat)
    requires d < |block.operations|
  {
    forall v, w | v in LiveAt(block, last, d) && w in LiveAt(block, last, d) && v != w && v < |assignment| &&
      w < |assignment| ::
      assignment[v] != assignment[w]
  }

  // ----- the first loop: last uses

  /** `std::max` on one entry. */
  function Latest(last: seq<nat>, o: Option<ValueId>, p: nat): (r: seq<nat>)
    requires o.Some? ==> o.value < |last|
    ensures |r| == |last|
    ensures forall v | 0 <= v < |last| :: r[v] == if o == Some(v) && last[v] < p then p else last[v]
  {
    if o.Some? && last[o.value] < p then last[o.value := p] else last
  }

  /** `Touches` without the deferred update, which is accounted for after the loop. */
  predicate TouchesInPlace(block: Block, plan: Plan, v: ValueId, i: nat, p: nat)
    requires i < |block.operations|
  {
    Touches(block, plan.(deferred := None), v, i, p)
  }

  /** `last` accounts for the operations before `n`. */
  ghost predicate AccountsFor(block: Block, plan: Plan, last: seq<nat>, n: nat)
    requires n <= |block.operations|
  {
    |last| == block.valueCount &&
    (forall v, i, p | 0 <= v < |last| && 0 <= i < n && 0 <= p && TouchesInPlace(block, plan, v, i, p) ::
      p <= last[v]) &&
    (forall v | 0 <= v < |last| && last[v] != 0 ::
      v in Defined(block, n) && last[v] < |block.operations| && IsTouchedAt(block, plan, v, last[v]))
  }

  method FindLastUses(block: Block, plan: Plan) returns (last: seq<nat>)
    requires WellFormed(block)
    requires plan.deferred.Some? ==> plan.deferred.value < |block.operations|
    ensures AreLastUses(block, plan, last)
  {
    last := seq(block.valueCount, _ => 0);
    var index := 0;
    while index < |block.operations|
      invariant 0 <= index <= |block.operations|
      invariant AccountsFor(block, plan, last, index)
    {
      var next := TouchOperation(block, plan, last, index);
      AccountsForNext(block, plan, last, next, index);
      last := next;
      index := index + 1;
    }
    if plan.deferred.Some? {
      var update := block.operations[plan.deferred.value];
      var end := |block.operations| - 1;
      UsesInTable(block, plan.deferred.value);
      ghost var before := last;
      if update.lhs.Some? { last := last[update.lhs.value := end]; }
      if update.rhs.Some? { last := last[update.rhs.value := end]; }
      if update.third.Some? { last := last[update.third.value := end]; }
      DeferredAccounted(block, plan, before, last);
    } else {
      NothingDeferred(block, plan, last);
    }
  }

  /** One iteration of the loop. A result is recorded first, then the operands, then the source
      of a fused test, then the operand of a sunk update at its load. */
  method TouchOperation(block: Block, plan: Plan, last: seq<nat>, index: nat) returns (r: seq<nat>)
    requires WellFormed(block) && index < |block.operations| && AccountsFor(block, plan, last, index)
    ensures |r| == |last|
    ensures forall v | 0 <= v < |last| :: r[v] >= last[v]
    ensures forall v, p | 0 <= v < |last| && 0 <= p && TouchesInPlace(block, plan, v, index, p) :: p <= r[v]
    ensures forall v | 0 <= v < |last| :: r[v] == last[v] || TouchesInPlace(block, plan, v, index, r[v])
  {
    var operation := block.operations[index];
    assert OperationWellFormed(block, index);
    UsesInTable(block, index);
    var source: Option<ValueId> := None;
    if plan.fuse && ConsumesOnlyZeroFlag(operation) {
      var found := FindZeroFlagSource(block, index);
      if found.Some? {
        ZeroFlagSourceDefined(block, index);
        DefinedInTable(block, index, found.value.value);
        source := Some(found.value.value);
      }
    }
    var target: Option<nat> := None;
    if plan.fuse {
      target := LogicFlagSinkTarget(block, index);
    }
    if target.Some? {
      SinkLoadMeaning(block, index + 1, target.value);
    }
    assert operation.result.Some? ==> last[operation.result.value] == 0;
    r := RecordTouches(last, operation, source, target, index);
    TouchedPositions(block, plan, index, source, target);
    hide Touches, IsTouch;
  }

  method RecordTouches(last: seq<nat>, op: Operation, source: Option<ValueId>, target: Option<nat>, index: nat)
    returns (r: seq<nat>)
    requires op.result.Some? ==> op.result.value < |last| && last[op.result.value] == 0
    requires op.lhs.Some? ==> op.lhs.value < |last|
    requires op.rhs.Some? ==> op.rhs.value < |last|
    requires op.third.Some? ==> op.third.value < |last|
    requires source.Some? ==> source.value < |last|
    ensures |r| == |last|
    ensures forall v | 0 <= v < |last| :: r[v] >= last[v]
    ensures forall v, p | 0 <= v < |last| && 0 <= p && IsTouch(op, source, target, v, index, p) :: p <= r[v]
    ensures forall v | 0 <= v < |last| :: r[v] == last[v] || IsTouch(op, source, target, v, index, r[v])
  {
    r := RecordUses(last, op, source, index);
    ghost var used := r;
    if target.Some? {
      r := Latest(r, op.lhs, target.value);
    }
    forall v | 0 <= v < |last|
      ensures r[v] >= last[v] && (r[v] == last[v] || IsTouch(op, source, target, v, index, r[v]))
      ensures forall p | 0 <= p && IsTouch(op, source, target, v, index, p) :: p <= r[v]
    {
      assert used[v] == if IsTouch(op, source, None, v, index, index) && last[v] < index then index else last[v];
    }
  }

  /** The uses at the operation itself. */
  method RecordUses(last: seq<nat>, op: Operation, source: Option<ValueId>, index: nat) returns (r: seq<nat>)
    requires op.result.Some? ==> op.result.value < |last| && last[op.result.value] == 0
    requires op.lhs.Some? ==> op.lhs.value < |last|
    requires op.rhs.Some? ==> op.rhs.value < |last|
    requires op.third.Some? ==> op.third.value < |last|
    requires source.Some? ==> source.value < |last|
    ensures |r| == |last|
    ensures forall v | 0 <= v < |last| ::
      r[v] == if IsTouch(op, source, None, v, index, index) && last[v] < index then index else last[v]
  {
    hide Latest;
    var r0 := last;
    if op.result.Some? {
      r0 := r0[op.result.value := index];
    }
    var r1 := Latest(r0, op.lhs, index);
    var r2 := Latest(r1, op.rhs, index);
    var r3 := Latest(r2, op.third, index);
    r := Latest(r3, source, index);
    forall v | 0 <= v < |last|
      ensures r[v] == if IsTouch(op, source, None, v, index, index) && last[v] < index then index else last[v]
    {
      assert r0[v] == if op.result == Some(v) && last[v] < index then index else last[v];
      assert r1[v] == if op.lhs == Some(v) && r0[v] < index then index else r0[v];
      assert r2[v] == if op.rhs == Some(v) && r1[v] < index then index else r1[v];
      assert r3[v] == if op.third == Some(v) && r2[v] < index then index else r2[v];
    }
  }

  predicate IsTouch(op: Operation, source: Option<ValueId>, target: Option<nat>, v: ValueId, index: nat, p: nat) {
    (p == index &&
     (op.result == Some(v) || op.lhs == Some(v) || op.rhs == Some(v) || op.third == Some(v) || source == Some(v))) ||
    (target == Some(p) && op.lhs == Some(v))
  }

  lemma TouchedPositions(block: Block, plan: Plan, index: nat, source: Option<ValueId>, target: Option<nat>)
    requires index < |block.operations|
    requires source == if Fused(block, plan, index) then Some(ZeroFlagSourceAt(block, index).value.value) else None
    requires target == if plan.fuse then SinkTarget(block, index) else None
    ensures forall v, p :: TouchesInPlace(block, plan, v, index, p) <==>
      IsTouch(block.operations[index], source, target, v, index, p)
  {
    hide SinkTarget, ZeroFlagSourceAt;
  }

  lemma NothingDeferred(block: Block, plan: Plan, last: seq<nat>)
    requires plan.deferred.None? && AccountsFor(block, plan, last, |block.operations|)
    ensures AreLastUses(block, plan, last)
  {
    assert plan.(deferred := None) == plan;
    forall v, i, p | 0 <= v < |last| && 0 <= i < |block.operations| && 0 <= p && Touches(block, plan, v, i, p)
      ensures p <= last[v]
    {
      assert TouchesInPlace(block, plan, v, i, p);
    }
  }

  lemma {:induction false} DefinedInTable(block: Block, i: nat, v: ValueId)
    requires WellFormed(block) && i <= |block.operations| && v in Defined(block, i)
    ensures v < block.valueCount
  {
    assert OperationWellFormed(block, i - 1);
    if v in Defined(block, i - 1) { DefinedInTable(block, i - 1, v); }
  }

  /** The register allocator's range check never fires on a block that `ir::verify` accepts. */
  lemma UsesInTable(block: Block, i: nat)
    requires WellFormed(block) && i < |block.operations|
    ensures var op := block.operations[i];
      (op.result.Some? ==> op.result.value < block.valueCount) && (op.lhs.Some? ==> op.lhs.value < block.valueCount) &&
      (op.rhs.Some? ==> op.rhs.value < block.valueCount) && (op.third.Some? ==> op.third.value < block.valueCount)
  {
    assert OperationWellFormed(block, i);
    var op := block.operations[i];
    assert op.lhs.Some? ==> op.lhs.value in Uses(op);
    assert op.rhs.Some? ==> op.rhs.value in Uses(op);
    assert op.third.Some? ==> op.third.value in Uses(op);
    forall v | v in Uses(block.operations[i])
      ensures v < block.valueCount
    {
      DefinedInTable(block, i, v);
    }
  }

  lemma TouchedIsDefined(block: Block, plan: Plan, v: ValueId, i: nat, p: nat)
    requires WellFormed(block) && i < |block.operations| && Touches(block, plan, v, i, p)
    ensures v in Defined(block, i + 1) && p < |block.operations|
  {
    assert OperationWellFormed(block, i);
    if Fused(block, plan, i) { ZeroFlagSourceDefined(block, i); }
    if SinkTarget(block, i) == Some(p) { SinkLoadMeaning(block, i + 1, p); }
  }

  lemma AccountsForNext(block: Block, plan: Plan, last: seq<nat>, next: seq<nat>, index: nat)
    requires WellFormed(block) && index < |block.operations| && AccountsFor(block, plan, last, index)
    requires |next| == |last|
    requires forall v | 0 <= v < |last| :: next[v] >= last[v]
    requires forall v, p | 0 <= v < |last| && 0 <= p && TouchesInPlace(block, plan, v, index, p) :: p <= next[v]
    requires forall v | 0 <= v < |last| :: next[v] == last[v] || TouchesInPlace(block, plan, v, index, next[v])
    ensures AccountsFor(block, plan, next, index + 1)
  {
    forall v | 0 <= v < |next| && next[v] != 0
      ensures v in Defined(block, index + 1) && next[v] < |block.operations| && IsTouchedAt(block, plan, v, next[v])
    {
      if next[v] != last[v] {
        TouchedIsDefined(block, plan.(deferred := None), v, index, next[v]);
        assert Touches(block, plan, v, index, next[v]);
      }
    }
  }

  lemma DeferredAccounted(block: Block, plan: Plan, last: seq<nat>, final: seq<nat>)
    requires WellFormed(block) && plan.deferred.Some? && plan.deferred.value < |block.operations|
    requires AccountsFor(block, plan, last, |block.operations|)
    requires |final| == |last|
    requires forall v | 0 <= v < |last| ::
      final[v] == if v in Uses(block.operations[plan.deferred.value]) then |block.operations| - 1 else last[v]
    ensures AreLastUses(block, plan, final)
  {
    var u, end := plan.deferred.value, |block.operations| - 1;
    forall v, i, p | 0 <= v < |final| && 0 <= i < |block.operations| && 0 <= p && Touches(block, plan, v, i, p)
      ensures p <= final[v]
    {
      TouchedIsDefined(block, plan, v, i, p);
      assert TouchesInPlace(block, plan, v, i, p) || (i == u && p == end && v in Uses(block.operations[u]));
    }
    forall v | 0 <= v < |final| && final[v] != 0
      ensures IsTouchedAt(block, plan, v, final[v])
    {
      if v in Uses(block.operations[u]) {
        assert Touches(block, plan, v, u, end);
      }
    }
  }

  // ----- the second loop: eight slots

  datatype Allocation = Assigned(registers: seq<nat>) | Exhausted(at: nat)

  /** The occupied slots hold exactly the values defined before `d` that are needed at `m` or
      later, each in the slot of its register. */
  ghost predicate SlotsHold(block: Block, last: seq<nat>, active: seq<Option<ValueId>>, assignment: seq<nat>, d: nat,
                            m: int)
    requires d <= |block.operations|
  {
    |active| == REGISTER_COUNT && |assignment| == |last| &&
    (forall v | v in Defined(block, d) && v < |last| && m <= last[v] :: HasSlot(active, assignment, v)) &&
    (forall s | 0 <= s < |active| && active[s].Some? ::
      var v := active[s].value;
      v in Defined(block, d) && v < |last| && m <= last[v] && assignment[v] == FIRST_REGISTER + s)
  }

  predicate HasSlot(active: seq<Option<ValueId>>, assignment: seq<nat>, v: ValueId)
    requires |active| == REGISTER_COUNT && v < |assignment|
  {
    IsRegister(assignment[v]) && active[assignment[v] - FIRST_REGISTER] == Some(v)
  }

  method AllocateHostRegisters(block: Block, plan: Plan) returns (r: Allocation, last: seq<nat>)
    requires WellFormed(block)
    requires plan.deferred.Some? ==> plan.deferred.value < |block.operations|
    ensures AreLastUses(block, plan, last)
    ensures r.Assigned? ==> IsAllocation(block, last, r.registers)
    ensures r.Assigned? <==>
      forall d | 0 <= d < |block.operations| && block.operations[d].result.Some? ::
        |LiveAt(block, last, d)| <= REGISTER_COUNT
    ensures r.Exhausted? ==> r.at < |block.operations| && |LiveAt(block, last, r.at)| > REGISTER_COUNT
  {
    hide SlotsHold, AllocatedBefore, FitsBefore, LiveAt, AreLastUses, WellFormed, IsAllocation;
    last := FindLastUses(block, plan);
    var assignment: seq<nat> := seq(block.valueCount, _ => 0);
    var active := new Option<ValueId>[REGISTER_COUNT](_ => None);
    var index := 0;
    NothingAllocated(block, plan, last, active[..], assignment);
    while index < |block.operations|
      invariant 0 <= index <= |block.operations|
      invariant |assignment| == block.valueCount
      invariant SlotsHold(block, last, active[..], assignment, index, index - 1)
      invariant AllocatedBefore(block, last, assignment, index)
      invariant FitsBefore(block, last, index)
    {
      ExpireSlots(block, last, active, assignment, index);
      var result := block.operations[index].result;
      if result.Some? {
        var slot := FirstFree(active);
        ResultIsLive(block, plan, last, index);
        if slot == active.Length {
          TooManyLive(block, last, active[..], assignment, index);
          return Exhausted(index), last;
        }
        ghost var before, held := assignment, active[..];
        active[slot] := result;
        assignment := assignment[result.value := FIRST_REGISTER + slot];
        Placed(block, last, held, active[..], before, assignment, index, slot);
        EarlierAllocationKept(block, last, before, assignment, index, FIRST_REGISTER + slot);
      } else {
        NothingPlaced(block, last, active[..], assignment, index);
      }
      AllocatedStep(block, last, active[..], assignment, index);
      index := index + 1;
    }
    AllAllocated(block, last, assignment);
    r := Assigned(assignment);
  }

  lemma NothingAllocated(block: Block, plan: Plan, last: seq<nat>, active: seq<Option<ValueId>>, assignment: seq<nat>)
    requires AreLastUses(block, plan, last) && |assignment| == block.valueCount
    requires |active| == REGISTER_COUNT && forall s | 0 <= s < |active| :: active[s].None?
    ensures SlotsHold(block, last, active, assignment, 0, -1)
    ensures AllocatedBefore(block, last, assignment, 0) && FitsBefore(block, last, 0)
  {
  }

  lemma NothingPlaced(block: Block, last: seq<nat>, active: seq<Option<ValueId>>, assignment: seq<nat>, index: nat)
    requires index < |block.operations| && block.operations[index].result.None?
    requires SlotsHold(block, last, active, assignment, index, index)
    ensures SlotsHold(block, last, active, assignment, index + 1, index)
  {
  }

  lemma AllAllocated(block: Block, last: seq<nat>, assignment: seq<nat>)
    requires AllocatedBefore(block, last, assignment, |block.operations|) && FitsBefore(block, last, |block.operations|)
    ensures IsAllocation(block, last, assignment)
    ensures forall d | 0 <= d < |block.operations| && block.operations[d].result.Some? ::
      |LiveAt(block, last, d)| <= REGISTER_COUNT
  {
  }

  /** The assignment is final for what is defined before `n`, and register-distinct there. */
  ghost predicate AllocatedBefore(block: Block, last: seq<nat>, assignment: seq<nat>, n: nat)
    requires n <= |block.operations|
  {
    |assignment| == block.valueCount == |last| &&
    (forall v | v in Defined(block, n) :: v < |assignment| && IsRegister(assignment[v])) &&
    (forall d | 0 <= d < n :: RegistersDistinct(block, last, assignment, d))
  }

  ghost predicate FitsBefore(block: Block, last: seq<nat>, n: nat)
    requires n <= |block.operations|
  {
    forall d | 0 <= d < n && block.operations[d].result.Some? :: |LiveAt(block, last, d)| <= REGISTER_COUNT
  }

  /** Slots whose value is not needed any more become free. */
  method ExpireSlots(block: Block, last: seq<nat>, active: array<Option<ValueId>>, assignment: seq<nat>, index: nat)
    requires index < |block.operations|
    requires SlotsHold(block, last, active[..], assignment, index, index - 1)
    modifies active
    ensures SlotsHold(block, last, active[..], assignment, index, index)
  {
    ghost var before := active[..];
    for s := 0 to active.Length
      invariant forall t | 0 <= t < s ::
        active[t] == if before[t].Some? && last[before[t].value] < index then None else before[t]
      invariant forall t | s <= t < active.Length :: active[t] == before[t]
    {
      assert before[s] == active[s];
      if active[s].Some? && last[active[s].value] < index {
        active[s] := None;
      }
    }
  }

  method FirstFree(active: array<Option<ValueId>>) returns (slot: nat)
    ensures slot <= active.Length
    ensures slot < active.Length ==> active[slot].None?
    ensures forall s | 0 <= s < slot :: active[s].Some?
  {
    slot := 0;
    while slot < active.Length && active[slot].Some?
      invariant slot <= active.Length
      invariant forall s | 0 <= s < slot :: active[s].Some?
    {
      slot := slot + 1;
    }
  }

  lemma ResultIsLive(block: Block, plan: Plan, last: seq<nat>, index: nat)
    requires WellFormed(block) && AreLastUses(block, plan, last)
    requires index < |block.operations| && block.operations[index].result.Some?
    ensures var v := block.operations[index].result.value;
      v < block.valueCount == |last| && index <= last[v]
  {
    assert OperationWellFormed(block, index);
    assert Touches(block, plan, block.operations[index].result.value, index, index);
  }

  lemma Placed(block: Block, last: seq<nat>, held: seq<Option<ValueId>>, active: seq<Option<ValueId>>,
               before: seq<nat>, assignment: seq<nat>, index: nat, slot: nat)
    requires WellFormed(block) && index < |block.operations| && block.operations[index].result.Some?
    requires SlotsHold(block, last, held, before, index, index)
    requires slot < REGISTER_COUNT && held[slot].None?
    requires var v := block.operations[index].result.value;
      v < |last| && index <= last[v] && active == held[slot := Some(v)] &&
        assignment == before[v := FIRST_REGISTER + slot]
    ensures SlotsHold(block, last, active, assignment, index + 1, index)
  {
    hide Defined;
    assert OperationWellFormed(block, index);
    var r := block.operations[index].result.value;
    DefinedNext(block, index);
    forall v | v in Defined(block, index + 1) && v < |last| && index <= last[v]
      ensures HasSlot(active, assignment, v)
    {
      if v != r {
        assert HasSlot(held, before, v);
      }
    }
    forall s | 0 <= s < |active| && active[s].Some?
      ensures var v := active[s].value;
        v in Defined(block, index + 1) && v < |last| && index <= last[v] && assignment[v] == FIRST_REGISTER + s
    {
      if s != slot {
        assert active[s] == held[s];
      }
    }
  }

  lemma DefinedNext(block: Block, i: nat)
    requires i < |block.operations|
    ensures forall v :: v in Defined(block, i + 1) <==> v in Defined(block, i) || block.operations[i].result == Some(v)
  {
  }

  /** A register given to a new value changes nothing for the values before it. */
  lemma EarlierAllocationKept(block: Block, last: seq<nat>, before: seq<nat>, assignment: seq<nat>, index: nat, x: nat)
    requires WellFormed(block) && index < |block.operations| && block.operations[index].result.Some?
    requires AllocatedBefore(block, last, before, index)
    requires var v := block.operations[index].result.value; v < |before| && assignment == before[v := x]
    ensures AllocatedBefore(block, last, assignment, index)
  {
    hide LiveAt;
    assert OperationWellFormed(block, index);
    forall d | 0 <= d < index
      ensures RegistersDistinct(block, last, assignment, d)
    {
      DefinedGrows(block, d + 1, index);
      assert RegistersDistinct(block, last, before, d);
      LiveIsDefined(block, last, d);
    }
  }

  lemma LiveIsDefined(block: Block, last: seq<nat>, d: nat)
    requires d < |block.operations|
    ensures LiveAt(block, last, d) <= Defined(block, d + 1)
  {
  }

  lemma {:induction false} InjectionBound(live: set<ValueId>, assignment: seq<nat>, n: nat)
    requires forall v | v in live :: v < |assignment| && FIRST_REGISTER <= assignment[v] < FIRST_REGISTER + n
    requires forall v, w | v in live && w in live && v != w :: assignment[v] != assignment[w]
    ensures |live| <= n
    decreases n
  {
    if v :| v in live && assignment[v] == FIRST_REGISTER + n - 1 {
      InjectionBound(live - {v}, assignment, n - 1);
    } else if n > 0 {
      InjectionBound(live, assignment, n - 1);
    } else {
      assert live == {};
    }
  }

  /** The values in the first `n` slots. */
  ghost function Occupants(active: seq<Option<ValueId>>, n: nat): set<ValueId>
    requires n <= |active| && forall s | 0 <= s < n :: active[s].Some?
  {
    if n == 0 then {} else Occupants(active, n - 1) + {active[n - 1].value}
  }

  lemma {:induction false} OccupantsDistinct(active: seq<Option<ValueId>>, n: nat)
    requires n <= |active| && forall s | 0 <= s < n :: active[s].Some?
    requires forall s, t | 0 <= s < t < n :: active[s].value != active[t].value
    ensures |Occupants(active, n)| == n
    ensures forall v | v in Occupants(active, n) :: exists s :: 0 <= s < n && active[s].value == v
  {
    if n > 0 { OccupantsDistinct(active, n - 1); }
  }

  /** Eight occupied slots and one more result are nine live values. */
  lemma TooManyLive(block: Block, last: seq<nat>, active: seq<Option<ValueId>>, assignment: seq<nat>, index: nat)
    requires WellFormed(block) && index < |block.operations| && block.operations[index].result.Some?
    requires SlotsHold(block, last, active, assignment, index, index)
    requires forall s | 0 <= s < REGISTER_COUNT :: active[s].Some?
    requires var v := block.operations[index].result.value; v < |last| && index <= last[v]
    ensures |LiveAt(block, last, index)| > REGISTER_COUNT
  {
    var v := block.operations[index].result.value;
    assert OperationWellFormed(block, index);
    hide Occupants, Defined;
    OccupantsDistinct(active, |active|);
    DefinedNext(block, index);
    var nine := Occupants(active, |active|) + {v};
    var live := LiveAt(block, last, index);
    assert nine <= live;
    assert live == nine + (live - nine);
  }

  lemma AllocatedStep(block: Block, last: seq<nat>, active: seq<Option<ValueId>>, assignment: seq<nat>, index: nat)
    requires WellFormed(block) && index < |block.operations|
    requires SlotsHold(block, last, active, assignment, index + 1, index)
    requires AllocatedBefore(block, last, assignment, index) && FitsBefore(block, last, index)
    requires block.operations[index].result.Some? ==>
      var v := block.operations[index].result.value; v < |last| && index <= last[v]
    ensures AllocatedBefore(block, last, assignment, index + 1) && FitsBefore(block, last, index + 1)
  {
    hide LiveAt, RegistersDistinct;
    forall v | v in Defined(block, index + 1)
      ensures v < |assignment| && IsRegister(assignment[v])
    {
      assert v in Defined(block, index) || block.operations[index].result == Some(v);
    }
    LiveValuesPlaced(block, last, active, assignment, index);
  }

  /** The slots at an operation keep its live values apart, so there are at most eight. */
  lemma LiveValuesPlaced(block: Block, last: seq<nat>, active: seq<Option<ValueId>>, assignment: seq<nat>, index: nat)
    requires index < |block.operations|
    requires SlotsHold(block, last, active, assignment, index + 1, index)
    ensures RegistersDistinct(block, last, assignment, index)
    ensures |LiveAt(block, last, index)| <= REGISTER_COUNT
  {
    hide Defined;
    var live := LiveAt(block, last, index);
    forall v | v in live
      ensures v < |assignment| && HasSlot(active, assignment, v)
    {
    }
    InjectionBound(live, assignment, REGISTER_COUNT);
  }
}
