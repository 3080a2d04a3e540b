/** The lowering never writes a 64-bit subtract update whose third operand is not the difference of its
    other two: what a loop that defers such an update relies on. */
module LoweredDifferences {
  import opened Options
  import opened Words
  import opened Flags
  import opened FlagHelpers
  import opened IR
  import opened FlagPasses
  import opened SelfLoop
  import opened ExactFlags
  import opened DeferredExit
  import opened LoopTheorem
  import opened X86
  import opened Lowering
  import opened LoweredBlocks

  predicate IsSubtractUpdate(op: Operation) {
    op.opcode.UpdateSubFlags? && op.width == I64
  }

  /** Operation `k` computes the difference of which update `u` records the flags. */
  predicate Records(operations: seq<Operation>, u: nat, k: nat) {
    k < u < |operations| && operations[k].opcode.Sub? && operations[k].width == I64 && operations[k].result.Some? &&
    operations[u].third == operations[k].result && operations[u].lhs == operations[k].lhs &&
    operations[u].rhs == operations[k].rhs
  }

  ghost predicate Recorded(operations: seq<Operation>, u: nat) {
    exists k: nat :: Records(operations, u, k)
  }

  ghost predicate AllRecorded(operations: seq<Operation>) {
    forall u | 0 <= u < |operations| && IsSubtractUpdate(operations[u]) :: Recorded(operations, u)
  }

  lemma RecordedJoined(a: seq<Operation>, b: seq<Operation>)
    requires AllRecorded(a) && AllRecorded(b)
    ensures AllRecorded(a + b)
  {
    hide IsSubtractUpdate;
    forall u | 0 <= u < |a + b| && IsSubtractUpdate((a + b)[u])
      ensures Recorded(a + b, u)
    {
      if u < |a| {
        assert Recorded(a, u);
        var k: nat :| Records(a, u, k);
        assert Records(a + b, u, k);
      } else {
        var v := u - |a|;
        assert Recorded(b, v);
        var k: nat :| Records(b, v, k);
        var later := |a| + k;
        assert Records(a + b, u, later);
      }
    }
  }

  /** Nothing to record. */
  lemma NoneRecorded(operations: seq<Operation>)
    requires forall u | 0 <= u < |operations| :: !operations[u].opcode.UpdateSubFlags?
    ensures AllRecorded(operations)
  {
  }

  lemma OneRecorded(operations: seq<Operation>, u: nat, k: nat)
    requires u < |operations| && (IsSubtractUpdate(operations[u]) ==> Records(operations, u, k))
    requires forall v | 0 <= v < |operations| && v != u :: !operations[v].opcode.UpdateSubFlags?
    ensures AllRecorded(operations)
  {
    hide Records;
  }

  predicate Subtracts(i: Instruction) { i.SubReg? || i.CmpReg? || i.NegReg? || i.SbbSame? }

  lemma SubtractionRecords(i: Instruction, rip: u64, n: ValueId)
    requires Subtracts(i)
    ensures AllRecorded(Lower(i, rip, n))
  {
    hide AllRecorded;
    OneRecorded(Lower(i, rip, n), if i.CmpReg? then 3 else 4, 2);
  }

  lemma MoveRecords(i: Instruction, rip: u64, n: ValueId)
    requires i.MovImm? || i.MovReg? || i.Load? || i.Store? || i.SetCc? || i.CmovCc? || i.CmovLoad? || i.ZeroReg?
    ensures AllRecorded(Lower(i, rip, n))
  {
    hide AllRecorded;
    NoneRecorded(Lower(i, rip, n));
  }

  lemma SumRecords(i: Instruction, rip: u64, n: ValueId)
    requires i.AddReg? || i.AdcReg? || i.SbbImm? || i.TestReg?
    ensures AllRecorded(Lower(i, rip, n))
  {
    hide AllRecorded;
    NoneRecorded(Lower(i, rip, n));
  }

  lemma StepRecords(i: Instruction, rip: u64, n: ValueId)
    requires i.IncReg? || i.DecReg?
    ensures AllRecorded(Lower(i, rip, n))
  {
    hide AllRecorded;
    NoneRecorded(Lower(i, rip, n));
  }

  lemma InstructionRecords(i: Instruction, rip: u64, n: ValueId)
    ensures AllRecorded(Lower(i, rip, n))
  {
    hide AllRecorded, Lower;
    if Subtracts(i) {
      SubtractionRecords(i, rip, n);
    } else if i.AddReg? || i.AdcReg? || i.SbbImm? || i.TestReg? {
      SumRecords(i, rip, n);
    } else if i.IncReg? || i.DecReg? {
      StepRecords(i, rip, n);
    } else {
      MoveRecords(i, rip, n);
    }
  }

  lemma {:induction false} BodyRecords(body: seq<Placed>, n: ValueId)
    ensures AllRecorded(LowerBody(body, n))
    decreases |body|
  {
    hide AllRecorded, Lower, ValuesOf;
    if body == [] {
      NoneRecorded([]);
    } else {
      var i, rip, k := body[0].instruction, body[0].rip, n + ValuesOf(body[0].instruction);
      InstructionRecords(i, rip, n);
      BodyRecords(body[1..], k);
      RecordedJoined(Lower(i, rip, n), LowerBody(body[1..], k));
    }
  }

  /** So every 64-bit subtract update in the block of a program records its own difference. */
  lemma LoweredRecords(p: Program, u: nat) returns (k: nat)
    requires u < |BlockOf(p).operations| && IsSubtractUpdate(BlockOf(p).operations[u])
    ensures RecordsItsDifference(BlockOf(p), u, k)
  {
    hide AllRecorded, LowerBody, BodyValues, IsSubtractUpdate;
    var n := BodyValues(p.body);
    BodyRecords(p.body, 0);
    NoneRecorded(LowerExit(p.exit, p.exitRip, n));
    RecordedJoined(LowerBody(p.body, 0), LowerExit(p.exit, p.exitRip, n));
    k := RecordedAt(BlockOf(p).operations, u);
  }

  lemma RecordedAt(operations: seq<Operation>, u: nat) returns (k: nat)
    requires AllRecorded(operations) && u < |operations| && IsSubtractUpdate(operations[u])
    ensures Records(operations, u, k)
  {
    hide Records, IsSubtractUpdate;
    assert Recorded(operations, u);
    k :| Records(operations, u, k);
  }

  /** What the loop asks of a block comes down to its tests. */
  lemma LoweredLoopAssumptions(p: Program)
    requires var plan := PlanFor(BlockOf(p)); plan.deferred.Some? ==> NoStaleReader(BlockOf(p), plan)
    ensures LoopAssumptions(BlockOf(p))
  {
    hide NoStaleReader, RecordsItsDifference, ZeroFlagUpdateIndexAt, DeferredExitResultOperation, HasInternalSelfEdge,
      BlockOf;
    var plan := PlanFor(BlockOf(p));
    if plan.deferred.Some? {
      var k := LoweredRecords(p, plan.deferred.value);
    }
  }
}
