/** The loop inside the emitted code, said as single runs of the block one after another. */
module LoopRuns {
  import opened Options
  import opened Words
  import opened IR
  import opened FlagPasses
  import opened LinearScan
  import opened SelfLoop
  import opened ExactFlags
  import opened DeferredExit
  import opened LoopTheorem

  /** The state after `n` runs of the block, if all of them leave it. */
  function StateAfter(host: Host, block: Block, st: GuestState, n: nat): Option<GuestState> {
    if n == 0 then Some(st)
    else
      var before := StateAfter(host, block, st, n - 1);
      if before.None? then None
      else
        match EagerRun(host, block, before.value)
        case Left(_, s) => Some(s)
        case _ => None
  }

  /** What `n` runs leave of a budget that is counted down in 64 bits. */
  function BudgetAfter(budget: u64, n: nat): u64 { (budget - n) % 0x1_0000_0000_0000_0000 }

  /** After `n` runs there is no other one: control is elsewhere, the budget is used up, or a stop is
      requested. */
  predicate EndsAfter(block: Block, stop: (u64, map<u64, byte>) -> bool, budget: u64, n: nat, s: GuestState) {
    s.rip != block.start || BudgetAfter(budget, n) == 0 || stop(BudgetAfter(budget, n), s.memory)
  }

  /** `n` runs are possible, and none of them but perhaps the last one ends the loop. */
  ghost predicate RunsOn(host: Host, block: Block, stop: (u64, map<u64, byte>) -> bool, budget: u64, st: GuestState,
                         n: nat)
  {
    StateAfter(host, block, st, n).Some? &&
    forall m | 1 <= m < n :: GoesOn(host, block, stop, budget, st, m)
  }

  predicate GoesOn(host: Host, block: Block, stop: (u64, map<u64, byte>) -> bool, budget: u64, st: GuestState, m: nat) {
    var s := StateAfter(host, block, st, m);
    s.Some? && !EndsAfter(block, stop, budget, m, s.value)
  }

  function ExitOf(block: Block): ExitKind
    requires block.operations != []
  {
    block.operations[|block.operations| - 1].exitKind
  }

  // ----- one run

  lemma {:induction false} PassIsAtLast(host: Host, block: Block, i: nat, store: Store, st: GuestState)
    requires WellFormed(block) && i < |block.operations|
    ensures var p := EagerPass(host, block, i, store, st);
      !p.RanOff? && (p.AtExit? ==> p.index == |block.operations| - 1)
    decreases |block.operations| - i
  {
    hide OperationWellFormed, Execute;
    if !block.operations[i].opcode.ExitBlock? {
      var op := block.operations[i];
      var e := Execute(host, op, Operand(store, op.lhs), Operand(store, op.rhs), Operand(store, op.third), st);
      if e.Continue? { PassIsAtLast(host, block, i + 1, Define(store, op.result, e.value), e.state); }
    }
  }

  lemma RunLeavesByLast(host: Host, block: Block, st: GuestState)
    requires WellFormed(block)
    ensures !EagerRun(host, block, st).FellOff?
    ensures EagerRun(host, block, st).Left? ==> EagerRun(host, block, st).kind == ExitOf(block)
  {
    hide WellFormed, EagerPass, ExitState;
    assert |block.operations| > 0 by { NotEmpty(block); }
    PassIsAtLast(host, block, 0, Values(map[]), st);
  }

  lemma NotEmpty(block: Block)
    requires WellFormed(block)
    ensures |block.operations| > 0
  {
  }

  // ----- from the second run on

  lemma {:induction false} LaterStates(host: Host, block: Block, st: GuestState, n: nat)
    ensures var first := EagerRun(host, block, st);
      StateAfter(host, block, st, n + 1) == if first.Left? then StateAfter(host, block, first.state, n) else None
  {
    hide EagerRun;
    if n > 0 { LaterStates(host, block, st, n - 1); }
  }

  lemma LaterBudgets(budget: u64, n: nat)
    ensures BudgetAfter(Sub64(budget, 1), n) == BudgetAfter(budget, n + 1) && BudgetAfter(budget, 0) == budget
  {
    ReduceMultiple(U64_LIMIT, if budget == 0 then 1 else 0, budget - 1 - n);
  }

  lemma LaterEnds(block: Block, stop: (u64, map<u64, byte>) -> bool, budget: u64, n: nat, s: GuestState)
    ensures EndsAfter(block, stop, Sub64(budget, 1), n, s) == EndsAfter(block, stop, budget, n + 1, s)
  {
    hide BudgetAfter, Sub64;
    LaterBudgets(budget, n);
  }

  lemma LaterRuns(host: Host, block: Block, stop: (u64, map<u64, byte>) -> bool, budget: u64, st: GuestState, n: nat)
    requires EagerRun(host, block, st).Left? && GoesOn(host, block, stop, budget, st, 1)
    requires RunsOn(host, block, stop, Sub64(budget, 1), EagerRun(host, block, st).state, n)
    ensures RunsOn(host, block, stop, budget, st, n + 1)
  {
    hide EagerRun, StateAfter, EndsAfter, Sub64;
    var next := EagerRun(host, block, st).state;
    LaterStates(host, block, st, n);
    forall m | 1 <= m < n + 1
      ensures GoesOn(host, block, stop, budget, st, m)
    {
      if m > 1 {
        var k := m - 1;
        assert GoesOn(host, block, stop, Sub64(budget, 1), next, k);
        LaterStates(host, block, st, k);
        LaterEnds(block, stop, budget, k, StateAfter(host, block, next, k).value);
      }
    }
  }

  // ----- the reference loop

  /** What the loop over a block is to give: for the least number of runs, at least one, after which
      it ends, what they leave; or the fault of a run before that. */
  ghost predicate IsLoop(host: Host, block: Block, stop: (u64, map<u64, byte>) -> bool, budget: u64, st: GuestState,
                         n: nat, outcome: LoopOutcome)
    requires block.operations != []
  {
    RunsOn(host, block, stop, budget, st, n) &&
    var s := StateAfter(host, block, st, n).value;
    if n > 0 && EndsAfter(block, stop, budget, n, s) then
      outcome == LoopLeft(ExitOf(block), BudgetAfter(budget, n), s)
    else
      match EagerRun(host, block, s)
      case Faulted(rip, t) => outcome == LoopFault(rip, BudgetAfter(budget, n), t)
      case _ => false
  }

  /** The reference loop over a block that leaves by a jump is as many single runs as the budget, the
      stop request and the jump itself allow, and the budget is counted down once for each. */
  lemma {:induction false} EagerLoopIsRuns(host: Host, block: Block, stop: (u64, map<u64, byte>) -> bool, budget: u64,
                                           st: GuestState) returns (n: nat)
    requires WellFormed(block) && block.operations != [] && (ExitOf(block).Conditional? || ExitOf(block).Direct?)
    ensures IsLoop(host, block, stop, budget, st, n, EagerLoop(host, block, stop, budget, st))
    decreases Passes(budget)
  {
    hide WellFormed, EagerRun, ExitOf, BudgetAfter, Sub64;
    RunLeavesByLast(host, block, st);
    var first := EagerRun(host, block, st);
    LaterBudgets(budget, 0);
    LaterBudgets(Sub64(budget, 1), 0);
    assert BudgetAfter(budget, 1) == Sub64(budget, 1);
    if first.Faulted? {
      n := 0;
    } else {
      LaterStates(host, block, st, 0);
      if EndsAfter(block, stop, budget, 1, first.state) {
        n := 1;
      } else {
        BudgetShrinks(budget);
        var k := EagerLoopIsRuns(host, block, stop, Sub64(budget, 1), first.state);
        n := k + 1;
        LaterRuns(host, block, stop, budget, st, k);
        LaterStates(host, block, st, k);
        LaterBudgets(budget, k);
        LaterEnds(block, stop, budget, k, StateAfter(host, block, first.state, k).value);
      }
    }
  }

  lemma BudgetShrinks(budget: u64)
    requires Sub64(budget, 1) != 0
    ensures Passes(Sub64(budget, 1)) < Passes(budget)
  {
  }

  /** That fixes the number of runs and the outcome. */
  lemma LoopIsUnique(host: Host, block: Block, stop: (u64, map<u64, byte>) -> bool, budget: u64, st: GuestState,
                     n: nat, a: LoopOutcome, m: nat, b: LoopOutcome)
    requires block.operations != []
    requires IsLoop(host, block, stop, budget, st, n, a) && IsLoop(host, block, stop, budget, st, m, b)
    ensures n == m && a == b
  {
    hide EagerRun, EndsAfter, BudgetAfter;
    if n < m {
      NoRunAfter(host, block, stop, budget, st, n, m);
    } else if m < n {
      NoRunAfter(host, block, stop, budget, st, m, n);
    }
  }

  /** Where a run ends the loop or faults, no longer sequence of runs goes on. */
  lemma NoRunAfter(host: Host, block: Block, stop: (u64, map<u64, byte>) -> bool, budget: u64, st: GuestState, n: nat,
                   m: nat)
    requires n < m && StateAfter(host, block, st, n).Some?
    requires var s := StateAfter(host, block, st, n).value;
      (n > 0 && EndsAfter(block, stop, budget, n, s)) || EagerRun(host, block, s).Faulted?
    ensures !RunsOn(host, block, stop, budget, st, m)
  {
    hide EagerRun, EndsAfter;
    if RunsOn(host, block, stop, budget, st, m) {
      assert n > 0 ==> GoesOn(host, block, stop, budget, st, n);
      EarlierStates(host, block, st, n + 1, m);
    }
  }

  lemma {:induction false} EarlierStates(host: Host, block: Block, st: GuestState, n: nat, m: nat)
    requires n <= m && StateAfter(host, block, st, m).Some?
    ensures StateAfter(host, block, st, n).Some?
    decreases m
  {
    hide EagerRun;
    if n < m { EarlierStates(host, block, st, n, m - 1); }
  }

  // ----- exits that never repeat

  /** Returns, calls and system calls leave after one run with the budget as it was. */
  lemma EagerLeavesAtOnce(host: Host, block: Block, stop: (u64, map<u64, byte>) -> bool, budget: u64, st: GuestState)
    requires WellFormed(block) && block.operations != []
    requires ExitOf(block).Return? || ExitOf(block).Call? || ExitOf(block).Syscall?
    ensures var run := EagerRun(host, block, st);
      EagerLoop(host, block, stop, budget, st) ==
      if run.Left? then LoopLeft(ExitOf(block), budget, run.state)
      else if run.Faulted? then LoopFault(run.faultRip, budget, run.state)
      else LoopFellOff
  {
    hide WellFormed, EagerRun, ExitOf;
    RunLeavesByLast(host, block, st);
  }

  // ----- the emitted loop

  /** The loop's outcome, up to the arithmetic flags that a fault shows. */
  ghost predicate IsLoopButFlags(host: Host, block: Block, stop: (u64, map<u64, byte>) -> bool, budget: u64,
                                 st: GuestState, n: nat, outcome: LoopOutcome)
    requires block.operations != []
  {
    exists exact: LoopOutcome :: IsLoop(host, block, stop, budget, st, n, exact) && LoopsAgree(exact, outcome)
  }

  /** The emitted loop, on allocated registers, is those single runs too; only a fault may show other
      arithmetic flags than the run that faults, and not if no update is deferred or all memory
      operations stand behind an emitted full update. */
  lemma CompiledLoopIsRuns(host: Host, block: Block, fast: u64 -> nat -> bool, stop: (u64, map<u64, byte>) -> bool,
                           budget: u64, last: seq<nat>, assignment: seq<nat>, contents: map<nat, u64>, st: GuestState)
    returns (n: nat)
    requires WellFormed(block) && HasInternalSelfEdge(block) && LoopAssumptions(block) && st.rip == block.start
    requires AreLastUses(block, PlanFor(block), last) && IsAllocation(block, last, assignment)
    requires block.operations != [] && (ExitOf(block).Conditional? || ExitOf(block).Direct?)
    ensures var compiled := CompiledLoop(host, block, PlanFor(block), fast, stop, budget,
        HostRegisters(assignment, contents), st);
      !compiled.LoopFellOff? && IsLoopButFlags(host, block, stop, budget, st, n, compiled) &&
      (compiled.LoopLeft? || PlanFor(block).deferred.None? || MemoryBehindUpdate(block, PlanFor(block)) ==>
        IsLoop(host, block, stop, budget, st, n, compiled))
  {
    hide WellFormed, HasInternalSelfEdge, LoopAssumptions, AreLastUses, IsAllocation, EagerRun, EagerLoop, CompiledLoop,
      PlanFor, MemoryBehindUpdate;
    n := EagerLoopIsRuns(host, block, stop, budget, st);
    CompiledLoopIsEager(host, block, fast, stop, budget, last, assignment, contents, st);
    hide IsLoop;
    LoopIsNoFallOff(host, block, stop, budget, st, n, EagerLoop(host, block, stop, budget, st));
  }

  lemma LoopIsNoFallOff(host: Host, block: Block, stop: (u64, map<u64, byte>) -> bool, budget: u64, st: GuestState,
                        n: nat, outcome: LoopOutcome)
    requires block.operations != [] && IsLoop(host, block, stop, budget, st, n, outcome)
    ensures !outcome.LoopFellOff?
  {
    hide EagerRun, RunsOn;
  }
}
