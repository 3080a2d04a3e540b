/** A program that jumps back to its own start, as a loop inside its emitted code. */
module ProgramLoops {
  import opened Options
  import opened Words
  import opened IR
  import opened FlagPasses
  import opened LinearScan
  import opened SelfLoop
  import opened ExactFlags
  import opened DeferredExit
  import opened LoopTheorem
  import opened LoopRuns
  import opened X86
  import opened Lowering
  import opened LoweredInstructions
  import opened LoweredBlocks
  import opened LoweredDifferences
  import opened LoweringTheorem

  /** The state after `n` runs of the program. */
  function ProgramAfter(p: Program, st: GuestState, n: nat): Option<GuestState> {
    if n == 0 then Some(st)
    else
      var before := ProgramAfter(p, st, n - 1);
      if before.Some? && RunProgram(p, before.value).Left? then Some(RunProgram(p, before.value).state) else None
  }

  predicate Stops(p: Program, stop: (u64, map<u64, byte>) -> bool, budget: u64, st: GuestState, m: nat) {
    var s := ProgramAfter(p, st, m);
    s.None? || s.value.rip != p.start || BudgetAfter(budget, m) == 0 || stop(BudgetAfter(budget, m), s.value.memory)
  }

  /** What `n` runs of the program leave, if the last one is the first that stops; or the fault of the
      run behind them. */
  ghost predicate IsProgramLoop(p: Program, stop: (u64, map<u64, byte>) -> bool, budget: u64, st: GuestState, n: nat,
                                outcome: LoopOutcome)
  {
    ProgramAfter(p, st, n).Some? && (forall m | 1 <= m < n :: !Stops(p, stop, budget, st, m)) &&
    var s := ProgramAfter(p, st, n).value;
    if n > 0 && Stops(p, stop, budget, st, n) then
      outcome.LoopLeft? && outcome.state == s && outcome.remaining == BudgetAfter(budget, n)
    else
      var run := RunProgram(p, s);
      run.Faulted? && outcome == LoopFault(run.faultRip, BudgetAfter(budget, n), run.state)
  }

  lemma {:induction false} StatesAreProgram(host: Host, p: Program, st: GuestState, n: nat)
    requires ComputesAnd(host) && AllAccepted(p.body)
    ensures StateAfter(host, BlockOf(p), st, n) == ProgramAfter(p, st, n)
  {
    hide ComputesAnd, AllAccepted, BlockOf, EagerRun, RunProgram;
    if n > 0 {
      StatesAreProgram(host, p, st, n - 1);
      var before := ProgramAfter(p, st, n - 1);
      if before.Some? { LoweredProgramIsProgram(host, p, before.value); }
    }
  }

  lemma StopsWhereItEnds(host: Host, p: Program, stop: (u64, map<u64, byte>) -> bool, budget: u64, st: GuestState,
                         m: nat)
    requires ComputesAnd(host) && AllAccepted(p.body)
    ensures GoesOn(host, BlockOf(p), stop, budget, st, m) <==> !Stops(p, stop, budget, st, m)
  {
    hide ComputesAnd, AllAccepted, StateAfter, ProgramAfter, BudgetAfter;
    StatesAreProgram(host, p, st, m);
  }

  lemma LoopIsProgramLoop(host: Host, p: Program, stop: (u64, map<u64, byte>) -> bool, budget: u64, st: GuestState,
                          n: nat, outcome: LoopOutcome)
    requires ComputesAnd(host) && AllAccepted(p.body) && BlockOf(p).operations != []
    requires IsLoop(host, BlockOf(p), stop, budget, st, n, outcome)
    ensures IsProgramLoop(p, stop, budget, st, n, outcome)
  {
    hide ComputesAnd, AllAccepted, BlockOf, StateAfter, ProgramAfter, BudgetAfter, EagerRun, RunProgram, EndsAfter,
      Stops, GoesOn;
    StatesAreProgram(host, p, st, n);
    forall m | 1 <= m < n
      ensures !Stops(p, stop, budget, st, m)
    {
      assert GoesOn(host, BlockOf(p), stop, budget, st, m);
      StopsWhereItEnds(host, p, stop, budget, st, m);
    }
    StopsWhereItEnds(host, p, stop, budget, st, n);
    EndsIsNotGoing(host, BlockOf(p), stop, budget, st, n);
    LoweredProgramIsProgram(host, p, ProgramAfter(p, st, n).value);
  }

  lemma EndsIsNotGoing(host: Host, block: Block, stop: (u64, map<u64, byte>) -> bool, budget: u64, st: GuestState,
                       n: nat)
    requires StateAfter(host, block, st, n).Some?
    ensures EndsAfter(block, stop, budget, n, StateAfter(host, block, st, n).value) <==>
      !GoesOn(host, block, stop, budget, st, n)
  {
    hide StateAfter, EndsAfter;
  }

  predicate Jumps(e: Exit) { e.Jump? || e.JumpReg? || e.JumpIf? }

  lemma ExitOfProgram(p: Program)
    ensures BlockOf(p).operations != []
    ensures Jumps(p.exit) ==> ExitOf(BlockOf(p)).Conditional? || ExitOf(BlockOf(p)).Direct?
  {
    hide LowerBody, BodyValues;
    var m := LowerExit(p.exit, p.exitRip, BodyValues(p.body));
    assert BlockOf(p).operations[|BlockOf(p).operations| - 1] == m[|m| - 1];
  }

  /** The reference loop over a lowered program is runs of the program, one after another, for the
      least number after which control is elsewhere, the budget is used up or a stop is requested. */
  lemma LoweredLoopIsProgram(host: Host, p: Program, stop: (u64, map<u64, byte>) -> bool, budget: u64, st: GuestState)
    returns (n: nat)
    requires ComputesAnd(host) && AllAccepted(p.body) && Jumps(p.exit)
    ensures IsProgramLoop(p, stop, budget, st, n, EagerLoop(host, BlockOf(p), stop, budget, st))
  {
    hide ComputesAnd, AllAccepted, BlockOf, Jumps, IsLoop, IsProgramLoop, EagerLoop, WellFormed, ExitOf;
    ExitOfProgram(p);
    LoweredIsWellFormed(p);
    n := EagerLoopIsRuns(host, BlockOf(p), stop, budget, st);
    LoopIsProgramLoop(host, p, stop, budget, st, n, EagerLoop(host, BlockOf(p), stop, budget, st));
  }

  /** So is the emitted loop on allocated registers, if no test reads flags that the pass has not
      emitted; a fault in it may show other arithmetic flags where the flag update is deferred and
      memory is touched in front of it. */
  lemma CompiledLoopIsProgram(host: Host, p: Program, fast: u64 -> nat -> bool, stop: (u64, map<u64, byte>) -> bool,
                              budget: u64, last: seq<nat>, assignment: seq<nat>, contents: map<nat, u64>,
                              st: GuestState)
    returns (n: nat)
    requires ComputesAnd(host) && AllAccepted(p.body) && Jumps(p.exit) && st.rip == p.start
    requires var block := BlockOf(p);
      HasInternalSelfEdge(block) && (PlanFor(block).deferred.Some? ==> NoStaleReader(block, PlanFor(block))) &&
      AreLastUses(block, PlanFor(block), last) && IsAllocation(block, last, assignment)
    ensures var block := BlockOf(p);
      var compiled := CompiledLoop(host, block, PlanFor(block), fast, stop, budget,
        HostRegisters(assignment, contents), st);
      compiled.LoopLeft? || PlanFor(block).deferred.None? || MemoryBehindUpdate(block, PlanFor(block)) ==>
      IsProgramLoop(p, stop, budget, st, n, compiled)
  {
    hide ComputesAnd, AllAccepted, HasInternalSelfEdge, LoopAssumptions, AreLastUses, IsAllocation, Jumps, IsLoop,
      IsProgramLoop, IsLoopButFlags, CompiledLoop, PlanFor, MemoryBehindUpdate, WellFormed, ExitOf, NoStaleReader;
    var block := BlockOf(p);
    LoweredLoopAssumptions(p);
    ExitOfProgram(p);
    LoweredIsWellFormed(p);
    n := CompiledLoopIsRuns(host, block, fast, stop, budget, last, assignment, contents, st);
    var compiled := CompiledLoop(host, block, PlanFor(block), fast, stop, budget,
      HostRegisters(assignment, contents), st);
    if compiled.LoopLeft? || PlanFor(block).deferred.None? || MemoryBehindUpdate(block, PlanFor(block)) {
      LoopIsProgramLoop(host, p, stop, budget, st, n, compiled);
    }
  }
}
