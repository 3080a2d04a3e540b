/** The emitted loop against the eager loop, for the plan that `compile` makes. */
module LoopTheorem {
  import opened Options
  import opened Words
  import opened Flags
  import opened FlagHelpers
  import opened Compare
  import opened IR
  import opened FlagPasses
  import opened LinearScan
  import opened RegisterRun
  import opened SelfLoop
  import opened ExactFlags
  import opened DeferredExit

  /** A value is defined once. */
  lemma DefinedOnce(block: Block, i: nat, j: nat)
    requires WellFormed(block) && i <= j < |block.operations|
    requires block.operations[i].result.Some? && block.operations[i].result == block.operations[j].result
    ensures i == j
  {
    if i < j {
      assert OperationWellFormed(block, j);
      DefinedGrows(block, i + 1, j);
    }
  }

  /** Nothing replaces the flags between the deferred update and the exit. */
  lemma {:induction false} NotReplaced(block: Block, i: nat, fuse: bool)
    requires WellFormed(block) && i < |block.operations|
    requires forall j | i <= j < |block.operations| - 1 :: PreservesZeroFlagSource(block.operations[j].opcode)
    ensures !ReplacedBefore(block, i, fuse)
    decreases |block.operations| - i
  {
    if i < |block.operations| - 1 {
      NotReplaced(block, i + 1, fuse);
    } else {
      assert block.operations[i].opcode.ExitBlock?;
    }
  }

  lemma {:induction false} UsesAddUp(block: Block, fuse: bool, v: ValueId, i: nat, n: nat)
    requires i < n <= |block.operations| && !IsDead(block, i, fuse)
    ensures EmittedUses(block, fuse, v, n) >= EmittedUses(block, fuse, v, i) + Occurrences(block.operations[i], v)
    decreases n
  {
    if i < n - 1 { UsesAddUp(block, fuse, v, i, n - 1); }
  }

  /** A value with one emitted use has one user. */
  lemma OneUser(block: Block, fuse: bool, v: ValueId, i: nat, j: nat)
    requires i < |block.operations| && j < |block.operations| && !IsDead(block, i, fuse) && !IsDead(block, j, fuse)
    requires v in Uses(block.operations[i]) && v in Uses(block.operations[j])
    requires EmittedUses(block, fuse, v, |block.operations|) == 1
    ensures i == j
  {
    hide IsDead;
    var n := |block.operations|;
    if i < j {
      UsesAddUp(block, fuse, v, j, n);
      UsesAddUp(block, fuse, v, i, j);
    } else if j < i {
      UsesAddUp(block, fuse, v, i, n);
      UsesAddUp(block, fuse, v, j, i);
    }
  }

  /** Counting uses is enough, except that fused tests are not counted. */
  lemma SkippedHasOneUse(block: Block, plan: Plan, u: nat)
    requires WellFormed(block) && plan == PlanFor(block) && plan.deferred == Some(u) && NoStaleReader(block, plan)
    ensures SkippedUnread(block, plan)
  {
    if plan.skippedResult.Some? {
      var k := plan.skippedResult.value;
      DeferredShape(block, u);
      assert !IsDead(block, u, plan.fuse);
      hide NoStaleReader;
      forall v, i, p | 0 <= v && 0 <= i < |block.operations| && 0 <= p && IsSkippedValue(block, plan, v) &&
        Touches(block, plan, v, i, p)
        ensures plan.skippedResult == Some(i) || plan.deferred == Some(i) || IsDead(block, i, plan.fuse)
      {
        SkippedTouch(block, plan, u, k, v, i, p);
      }
    }
  }

  lemma SkippedTouch(block: Block, plan: Plan, u: nat, k: nat, v: ValueId, i: nat, p: nat)
    requires WellFormed(block) && plan == PlanFor(block) && plan.deferred == Some(u) && plan.skippedResult == Some(k)
    requires u < |block.operations| && !IsDead(block, u, plan.fuse) && NoStaleReader(block, plan)
    requires i < |block.operations| && IsSkippedValue(block, plan, v) && Touches(block, plan, v, i, p)
    ensures i == k || i == u || IsDead(block, i, plan.fuse)
  {
    hide IsDead, WellFormed, SinkTarget, HasInternalSelfEdge, DeferredExitFlagUpdate, ZeroFlagSourceAt, EmittedUses;
    var op := block.operations[i];
    assert v in Uses(block.operations[u]);
    if op.result == Some(v) {
      if i <= k { DefinedOnce(block, i, k); } else { DefinedOnce(block, k, i); }
    } else if v in Uses(op) {
      if !IsDead(block, i, plan.fuse) { OneUser(block, plan.fuse, v, i, u); }
    }
  }

  /** The deferred update is followed by operations that leave the flags alone, then the exit. */
  lemma DeferredShape(block: Block, u: nat)
    requires WellFormed(block) && PlanFor(block).deferred == Some(u)
    ensures u + 1 < |block.operations| && HasInternalSelfEdge(block)
    ensures block.operations[u].opcode.UpdateSubFlags? && block.operations[u].width == I64
    ensures forall j | u < j < |block.operations| - 1 :: PreservesZeroFlagSource(block.operations[j].opcode)
    ensures block.operations[|block.operations| - 1].exitKind == Conditional
    ensures HasHostCondition(block.operations[|block.operations| - 1].condition)
    ensures !IsDead(block, u, true)
  {
    hide HasInternalSelfEdge, ZeroFlagUpdateIndexAt;
    NotReplaced(block, u + 1, true);
  }

  lemma PlanDefers(block: Block, u: nat, k: nat)
    requires WellFormed(block) && PlanFor(block).deferred == Some(u)
    requires NoStaleReader(block, PlanFor(block)) && RecordsItsDifference(block, u, k)
    ensures Deferral(block, PlanFor(block), u, k)
  {
    var plan := PlanFor(block);
    DeferredShape(block, u);
    SkippedHasOneUse(block, plan, u);
    hide NoStaleReader, SkippedUnread, HasInternalSelfEdge, DeferredExitFlagUpdate, EmittedUses, WellFormed;
    if plan.skippedResult.Some? {
      var j := plan.skippedResult.value;
      if j <= k { DefinedOnce(block, j, k); } else { DefinedOnce(block, k, j); }
    }
  }

  /** What the emitted code of a self-looping block may rely on: the update that waits for the
      exit records the difference of the operands it compares, and every test in the block is
      answered from a value that exists or from flags that the pass itself has emitted. */
  ghost predicate LoopAssumptions(block: Block) {
    var plan := PlanFor(block);
    plan.deferred.Some? ==>
      NoStaleReader(block, plan) && exists k: nat :: RecordsItsDifference(block, plan.deferred.value, k)
  }

  /** Any number of passes inside the emitted code, on the allocated registers, ends as the same
      number of eager runs: same exit, same remaining budget, same registers, memory and flags
      word. A fault differs at most in arithmetic flags, and not even there if no update was
      deferred, if it happens in the first pass, or if every memory operation of the block stands
      behind an emitted update of all flags. */
  lemma CompiledLoopIsEager(host: Host, block: Block, fast: u64 -> nat -> bool, stop: (u64, map<u64, byte>) -> bool,
                            budget: u64, last: seq<nat>, assignment: seq<nat>, contents: map<nat, u64>, st: GuestState)
    requires WellFormed(block) && HasInternalSelfEdge(block) && LoopAssumptions(block) && st.rip == block.start
    requires AreLastUses(block, PlanFor(block), last) && IsAllocation(block, last, assignment)
    ensures var eager := EagerLoop(host, block, stop, budget, st);
      var compiled := CompiledLoop(host, block, PlanFor(block), fast, stop, budget,
        HostRegisters(assignment, contents), st);
      LoopsAgree(eager, compiled) &&
      (PlanFor(block).deferred.None? ==> compiled == eager) &&
      (EagerRun(host, block, st).Faulted? ==> compiled == eager) &&
      (MemoryBehindUpdate(block, PlanFor(block)) ==> compiled == eager)
  {
    hide HasInternalSelfEdge, AreLastUses, IsAllocation, WellFormed, EagerLoop, CompiledLoop, NoStaleReader,
      SystemFlags, DeferredExitFlagUpdate, DeferredExitResultOperation, EagerRun, MemoryBehindUpdate;
    var plan := PlanFor(block);
    if plan.deferred.Some? {
      var u := plan.deferred.value;
      var k: nat :| RecordsItsDifference(block, u, k);
      PlanDefers(block, u, k);
      DeferringLoop(host, block, plan, fast, stop, budget, u, k, last, HostRegisters(assignment, contents), st, st);
    } else {
      LoopIsEager(host, block, fast, stop, budget, last, assignment, contents, st);
    }
  }
}
