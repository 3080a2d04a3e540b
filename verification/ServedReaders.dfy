/** A loop that the assumptions of `LoopTheorem` admit although it reads the flags word in every
    pass: an addition, a test of its carry, then the comparison that is deferred. */
module ServedReaders {
  import opened Options
  import opened Words
  import opened Flags
  import opened FlagHelpers
  import opened IR
  import opened FlagPasses
  import opened SelfLoop
  import opened ExactFlags
  import opened DeferredExit
  import opened LoopTheorem
  import opened StaleReaders

  /** add rax, rcx; setcc dl; cmp rax, rsi; jne START. */
  function AddThenCompare(c: Condition): Block {
    Block(START, [
      Op(START, ReadGuestReg, Some(0), None, None, None, 0),
      Op(START, ReadGuestReg, Some(1), None, None, None, 1),
      Op(START, Add, Some(2), Some(0), Some(1), None, 0),
      Op(START, WriteGuestReg, None, Some(2), None, None, 0),
      Op(START, UpdateAddFlags, None, Some(0), Some(1), Some(2), 0),
      TestOp(START + 3, 3, c),
      WriteByteOp(START + 3, 3, 2),
      Op(START + 6, ReadGuestReg, Some(4), None, None, None, 0),
      Op(START + 6, ReadGuestReg, Some(5), None, None, None, 6),
      Op(START + 6, Sub, Some(6), Some(4), Some(5), None, 0),
      Op(START + 6, UpdateSubFlags, None, Some(4), Some(5), Some(6), 0),
      JumpBack(START + 9, START + 11)], 7)
  }

  lemma AddOperations(c: Condition)
    ensures var block := AddThenCompare(c);
      block.start == START && |block.operations| == 12 &&
      block.operations[0] == Op(START, ReadGuestReg, Some(0), None, None, None, 0) &&
      block.operations[1] == Op(START, ReadGuestReg, Some(1), None, None, None, 1) &&
      block.operations[2] == Op(START, Add, Some(2), Some(0), Some(1), None, 0) &&
      block.operations[3] == Op(START, WriteGuestReg, None, Some(2), None, None, 0) &&
      block.operations[4] == Op(START, UpdateAddFlags, None, Some(0), Some(1), Some(2), 0) &&
      block.operations[5] == TestOp(START + 3, 3, c) &&
      block.operations[6] == WriteByteOp(START + 3, 3, 2) &&
      block.operations[7] == Op(START + 6, ReadGuestReg, Some(4), None, None, None, 0) &&
      block.operations[8] == Op(START + 6, ReadGuestReg, Some(5), None, None, None, 6) &&
      block.operations[9] == Op(START + 6, Sub, Some(6), Some(4), Some(5), None, 0) &&
      block.operations[10] == Op(START + 6, UpdateSubFlags, None, Some(4), Some(5), Some(6), 0) &&
      block.operations[11] == JumpBack(START + 9, START + 11)
  {
  }

  lemma AddPlan(c: Condition)
    ensures var plan := PlanFor(AddThenCompare(c));
      plan.fuse && plan.deferred == Some(10) &&
      (plan.skippedResult.Some? ==> AddThenCompare(c).operations[plan.skippedResult.value].opcode.Sub?)
  {
    hide AddThenCompare, EmittedUses, DefinitionBefore;
    var block := AddThenCompare(c);
    AddOperations(c);
    assert LeadsTo(block.operations[11], block.start);
    assert ZeroFlagUpdateIndexAt(block, 11) == Some(10);
    hide ZeroFlagUpdateIndexAt;
    assert DeferredExitFlagUpdate(block, true) == Some(10);
  }

  /** Unless the test is of the zero flag and fused, the addition's update is emitted in every
      pass, and the test behind it reads what it has written. */
  lemma TestBehindUpdateIsAdmitted(c: Condition)
    requires c != Equal && c != NotEqual
    ensures LoopAssumptions(AddThenCompare(c))
  {
    hide AddThenCompare, PlanFor, HasInternalSelfEdge, ZeroFlagSourceAt;
    var block, plan := AddThenCompare(c), PlanFor(AddThenCompare(c));
    AddOperations(c);
    AddPlan(c);
    assert RecordsItsDifference(block, 10, 9);
    NotReplacedAtTest(c);
    hide ReplacedBefore;
    assert EmitsFull(block, plan, 4);
    assert EmittedFullBefore(block, plan, 5);
    assert ReadsFresh(block, plan, 5);
  }

  lemma NotReplacedAtTest(c: Condition)
    requires c != Equal && c != NotEqual
    ensures !ReplacedBefore(AddThenCompare(c), 5, true)
  {
    hide AddThenCompare;
    AddOperations(c);
  }
}
