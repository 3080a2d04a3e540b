/** What is compiled from a program does what its instructions do. */
module LoweringTheorem {
  import opened Options
  import opened Words
  import opened ByteOrder
  import opened Flags
  import opened FlagHelpers
  import opened IR
  import opened FlagPasses
  import opened FlagSimulation
  import opened LinearScan
  import opened RegisterRun
  import opened X86
  import opened Lowering
  import opened LoweredInstructions
  import opened LoweredBlocks

  // ----- bodies and whole blocks

  lemma {:induction false} BodyMeaning(host: Host, body: seq<Placed>, n: ValueId, cells: map<ValueId, u64>,
                                       st: GuestState)
    requires ComputesAnd(host) && AllAccepted(body)
    ensures Plain(DoAll(host, LowerBody(body, n), Going(cells, st))) == Steps(body, st)
    decreases |body|
  {
    hide DoAll, Do, ComputesAnd, Step, Accepted, Lower;
    if body == [] {
      DoNone(host, Going(cells, st));
    } else {
      var i, rip, rest := body[0].instruction, body[0].rip, LowerBody(body[1..], n + ValuesOf(body[0].instruction));
      InstructionMeaning(host, i, rip, n, cells, st);
      var first := DoAll(host, Lower(i, rip, n), Going(cells, st));
      DoJoined(host, Lower(i, rip, n), rest, Going(cells, st));
      if first.Going? {
        BodyMeaning(host, body[1..], n + ValuesOf(i), first.cells, first.state);
      } else {
        DoStopped(host, rest, first);
      }
    }
  }

  /** A pass over operations that are no exits is those operations one after the other. */
  lemma {:induction false} PassDoes(host: Host, block: Block, i: nat, operations: seq<Operation>,
                                    cells: map<ValueId, u64>, st: GuestState)
    requires i + |operations| <= |block.operations| && block.operations[i..i + |operations|] == operations
    requires forall k | 0 <= k < |operations| :: !operations[k].opcode.ExitBlock?
    ensures EagerPass(host, block, i, Values(cells), st) ==
      var g := DoAll(host, operations, Going(cells, st));
      if g.Stopped? then PassFault(g.rip, g.state)
      else EagerPass(host, block, i + |operations|, Values(g.cells), g.state)
    decreases |operations|
  {
    hide Execute;
    if operations != [] {
      assert block.operations[i] == operations[0];
      var rest := operations[1..];
      assert block.operations[i + 1..i + 1 + |rest|] == rest;
      var g := Do(host, operations[0], Going(cells, st));
      if g.Going? {
        PassDoes(host, block, i + 1, rest, g.cells, g.state);
      } else {
        DoStopped(host, rest, g);
      }
    }
  }

  // ----- programs

  lemma {:induction false} FittingHasNoExit(operations: seq<Operation>, n: nat)
    requires Count(operations, n).Some?
    ensures forall k | 0 <= k < |operations| :: !operations[k].opcode.ExitBlock?
    decreases |operations|
  {
    hide More;
    if operations != [] { FittingHasNoExit(operations[1..], n + More(operations[0])); }
  }

  /** The state in front of the exit, with the register that the exit jumps through. */
  lemma FrontMeaning(host: Host, p: Program, st: GuestState)
    requires ComputesAnd(host) && AllAccepted(p.body)
    ensures var g := DoAll(host, Front(p), Going(map[], st));
      Plain(g) == Steps(p.body, st) &&
      (g.Going? && (p.exit.JumpReg? || p.exit.CallReg?) ==>
       Read(Values(g.cells), BodyValues(p.body)) == g.state.regs[p.exit.r])
  {
    hide DoAll, Do, ComputesAnd, Steps, LowerBody, Cut;
    var n, start := BodyValues(p.body), Going(map[], st);
    BodyMeaning(host, p.body, 0, map[], st);
    DoJoined(host, LowerBody(p.body, 0), Reads(p.exit, p.exitRip, n), start);
    var g := DoAll(host, LowerBody(p.body, 0), start);
    DoNone(host, g);
    if p.exit.JumpReg? || p.exit.CallReg? {
      var o := ReadOp(p.exitRip, I64, n, p.exit.r);
      DoFirst(host, o, [], g);
      DoNone(host, Do(host, o, g));
      if g.Going? {
        DoRead(host, p.exitRip, I64, n, p.exit.r, g.cells, g.state);
        WholeValue(g.state.regs[p.exit.r]);
      } else {
        DoAfterStop(host, o, g.rip, g.state);
      }
    }
  }

  lemma ExitMeaning(e: Exit, rip: u64, n: ValueId, store: Store, st: GuestState)
    requires e.JumpReg? || e.CallReg? ==> Read(store, n) == st.regs[e.r]
    ensures var op := LowerExit(e, rip, n)[|Reads(e, rip, n)|];
      Left(op.exitKind, ExitState(op, Operand(store, op.lhs), st, Holds(op.condition, st.rflags))) == Leave(e, rip, st)
  {
    hide Means, Holds, ArithOf;
    if e.JumpIf? { TestsMeanConditions(e.condition, st.rflags); }
  }

  /** The block of a program does what its instructions and its exit do, fault for fault. */
  lemma LoweredProgramIsProgram(host: Host, p: Program, st: GuestState)
    requires ComputesAnd(host) && AllAccepted(p.body)
    ensures EagerRun(host, BlockOf(p), st) == RunProgram(p, st)
  {
    hide ComputesAnd, DoAll, Steps, Leave, LowerExit, Front, BlockOf, Reads, CountTo, EndsBehind, ExitState, Holds;
    var block, m := BlockOf(p), |Front(p)|;
    FrontFits(p);
    FrontCounts(p);
    FittingHasNoExit(Front(p), 0);
    PassDoes(host, block, 0, Front(p), map[], st);
    FrontMeaning(host, p, st);
    var g := DoAll(host, Front(p), Going(map[], st));
    if g.Going? {
      LastIsExit(p);
      ExitMeaning(p.exit, p.exitRip, BodyValues(p.body), Values(g.cells), g.state);
    }
  }

  lemma FrontCounts(p: Program)
    requires AllAccepted(p.body)
    ensures Count(Front(p), 0).Some?
  {
    hide Count, Front, EndsBehind;
    FrontFits(p);
  }

  lemma LastIsExit(p: Program)
    requires AllAccepted(p.body)
    ensures |Front(p)| < |BlockOf(p).operations| && BlockOf(p).operations[|Front(p)|].opcode.ExitBlock?
  {
    hide Front, BlockOf, CountTo;
    FrontFits(p);
  }

  /** So does the code compiled from it, whatever the switch for fused tests, the fast paths and
      the leftover values. */
  lemma CompiledProgramIsProgram(host: Host, p: Program, fuse: bool, fast: nat -> bool, cells: map<ValueId, u64>,
                                 st: GuestState)
    requires ComputesAnd(host) && AllAccepted(p.body)
    ensures CompiledRun(host, BlockOf(p), fuse, fast, Values(cells), st) == RunProgram(p, st)
  {
    hide WellFormed, CompiledRun, EagerRun, RunProgram, BlockOf, ComputesAnd, AllAccepted;
    LoweredIsWellFormed(p);
    CompiledBlockIsEager(host, BlockOf(p), fuse, fast, cells, st);
    LoweredProgramIsProgram(host, p, st);
  }

  /** And in host registers, however they are filled at the start. */
  lemma AllocatedProgramIsProgram(host: Host, p: Program, fuse: bool, fast: nat -> bool, last: seq<nat>,
                                  assignment: seq<nat>, contents: map<nat, u64>, st: GuestState)
    requires ComputesAnd(host) && AllAccepted(p.body)
    requires AreLastUses(BlockOf(p), Plan(fuse, None, None), last) && IsAllocation(BlockOf(p), last, assignment)
    ensures CompiledRun(host, BlockOf(p), fuse, fast, HostRegisters(assignment, contents), st) == RunProgram(p, st)
  {
    hide WellFormed, CompiledRun, EagerRun, RunProgram, BlockOf, ComputesAnd, AllAccepted, AreLastUses, IsAllocation;
    LoweredIsWellFormed(p);
    RegistersRefineEager(host, BlockOf(p), fuse, fast, last, assignment, contents, st);
    LoweredProgramIsProgram(host, p, st);
  }

  // ----- memory gives back what was stored

  lemma NthIsBehind(a: u64, i: nat)
    requires i < U64_LIMIT
    ensures Behind(Nth(a, i), a) == i
  {
    ReduceDifference(U64_LIMIT, a + i, a);
    ReduceDifference(U64_LIMIT, (a + i) % U64_LIMIT, a);
    CutTwice(U64_LIMIT, a + i);
  }

  lemma StoredBytes(memory: map<u64, byte>, a: u64, v: nat, n: nat)
    requires Accessible(memory, a, n) && n <= 8
    ensures var after := Stored(memory, a, v, n);
      Accessible(after, a, n) && Loaded(after, a, n) == FromBytes(ToBytes(v, n))
  {
    hide FromBytes, ToBytes, Nth, Behind;
    var after := Stored(memory, a, v, n);
    forall i | 0 <= i < n
      ensures Nth(a, i) in after && after[Nth(a, i)] == ToBytes(v, n)[i]
    {
      NthIsBehind(a, i);
    }
    assert seq(n, i requires 0 <= i < n => after[Nth(a, i)]) == ToBytes(v, n);
  }

  lemma StoredIsLoaded(memory: map<u64, byte>, a: u64, v: nat, w: Width)
    requires Accessible(memory, a, Bits(w) / 8)
    ensures var n, after := Bits(w) / 8, Stored(memory, a, v, Bits(w) / 8);
      Accessible(after, a, n) && Loaded(after, a, n) == v % Modulus(w)
  {
    hide FromBytes, ToBytes, Accessible, Stored, Loaded;
    var n: nat := Bits(w) / 8;
    StoredBytes(memory, a, v, n);
    WordPowers();
    LowBytes(v, n, Modulus(w));
    BytesRoundTrip(v % Modulus(w), n);
  }

  /** A load behind a store through the same register gives the stored part back, at every width, and
      both stop at memory that is missing. */
  lemma StoreThenLoad(w: Width, base: Reg, s: Reg, d: Reg, rip: u64, next: u64, st: GuestState)
    ensures var n := Bits(w) / 8;
      Steps([Placed(rip, Store(w, base, s)), Placed(next, Load(w, d, base))], st) ==
      if Accessible(st.memory, st.regs[base], n) then
        Reached(st.(memory := Stored(st.memory, st.regs[base], st.regs[s], n), regs := Put(st.regs, d, w, st.regs[s])))
      else StoppedAt(rip, st)
  {
    hide Accessible, Stored, Loaded, Put;
    var body := [Placed(rip, Store(w, base, s)), Placed(next, Load(w, d, base))];
    var n := Bits(w) / 8;
    assert body[1..] == [Placed(next, Load(w, d, base))];
    if Accessible(st.memory, st.regs[base], n) {
      StoredIsLoaded(st.memory, st.regs[base], st.regs[s], w);
      PutLow(st.regs, d, w, st.regs[s] % Modulus(w), st.regs[s]);
      NoSteps(body[1..][1..], st.(memory := Stored(st.memory, st.regs[base], st.regs[s], n),
        regs := Put(st.regs, d, w, st.regs[s])));
    }
  }

  lemma NoSteps(body: seq<Placed>, st: GuestState)
    requires body == []
    ensures Steps(body, st) == Reached(st)
  {
  }
}
