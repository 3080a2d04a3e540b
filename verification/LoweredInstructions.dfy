/** The operations of each instruction do what the instruction says. */
module LoweredInstructions {
  import opened Options
  import opened Words
  import opened ByteOrder
  import opened Flags
  import opened FlagHelpers
  import opened InlineFlags
  import opened IR
  import opened X86
  import opened Lowering

  /** The one thing asked of the host: its bitwise `and` is one. */
  ghost predicate ComputesAnd(host: Host) {
    forall op: Operation, a: u64, b: u64 | op.opcode.BitAnd? :: host.compute(op, a, b) == And(a, b)
  }

  // ----- operations one after the other

  datatype Going = Going(cells: map<ValueId, u64>, state: GuestState) | Stopped(rip: u64, state: GuestState)

  function Do(host: Host, op: Operation, g: Going): Going {
    if g.Stopped? then g
    else
      var store := Values(g.cells);
      match Execute(host, op, Operand(store, op.lhs), Operand(store, op.rhs), Operand(store, op.third), g.state)
      case Fault(s) => Stopped(op.rip, s)
      case Continue(x, s) => Going(Define(store, op.result, x).cells, s)
  }

  function DoAll(host: Host, operations: seq<Operation>, g: Going): Going
    decreases |operations|
  {
    if operations == [] then g else DoAll(host, operations[1..], Do(host, operations[0], g))
  }

  lemma DoFirst(host: Host, op: Operation, rest: seq<Operation>, g: Going)
    ensures DoAll(host, [op] + rest, g) == DoAll(host, rest, Do(host, op, g))
  {
    hide Do;
    assert ([op] + rest)[1..] == rest;
  }

  lemma DoNone(host: Host, g: Going)
    ensures DoAll(host, [], g) == g
  {
  }

  lemma DoTwo(host: Host, o1: Operation, o2: Operation, g: Going)
    ensures DoAll(host, [o1] + ([o2] + []), g) == Do(host, o2, Do(host, o1, g))
  {
    hide Do, DoAll;
    DoFirst(host, o1, [o2] + [], g);
    DoFirst(host, o2, [], Do(host, o1, g));
    DoNone(host, Do(host, o2, Do(host, o1, g)));
  }

  lemma DoThree(host: Host, o1: Operation, o2: Operation, o3: Operation, g: Going)
    ensures DoAll(host, [o1] + ([o2] + ([o3] + [])), g) == Do(host, o3, Do(host, o2, Do(host, o1, g)))
  {
    hide Do, DoAll;
    DoFirst(host, o1, [o2] + ([o3] + []), g);
    DoTwo(host, o2, o3, Do(host, o1, g));
  }

  lemma DoFour(host: Host, o1: Operation, o2: Operation, o3: Operation, o4: Operation, g: Going)
    ensures DoAll(host, [o1] + ([o2] + ([o3] + ([o4] + []))), g) ==
      Do(host, o4, Do(host, o3, Do(host, o2, Do(host, o1, g))))
  {
    hide Do, DoAll;
    DoFirst(host, o1, [o2] + ([o3] + ([o4] + [])), g);
    DoThree(host, o2, o3, o4, Do(host, o1, g));
  }

  lemma DoFive(host: Host, o1: Operation, o2: Operation, o3: Operation, o4: Operation, o5: Operation, g: Going)
    ensures DoAll(host, [o1] + ([o2] + ([o3] + ([o4] + ([o5] + [])))), g) ==
      Do(host, o5, Do(host, o4, Do(host, o3, Do(host, o2, Do(host, o1, g)))))
  {
    hide Do, DoAll;
    DoFirst(host, o1, [o2] + ([o3] + ([o4] + ([o5] + []))), g);
    DoFour(host, o2, o3, o4, o5, Do(host, o1, g));
  }

  lemma {:induction false} DoStopped(host: Host, operations: seq<Operation>, g: Going)
    requires g.Stopped?
    ensures DoAll(host, operations, g) == g
    decreases |operations|
  {
    if operations != [] { DoStopped(host, operations[1..], g); }
  }

  lemma {:induction false} DoJoined(host: Host, a: seq<Operation>, b: seq<Operation>, g: Going)
    ensures DoAll(host, a + b, g) == DoAll(host, b, DoAll(host, a, g))
    decreases |a|
  {
    hide Do;
    if a == [] {
      assert a + b == b;
    } else {
      assert (a + b)[1..] == a[1..] + b;
      DoJoined(host, a[1..], b, Do(host, a[0], g));
    }
  }

  function Plain(g: Going): Progress {
    match g
    case Going(_, s) => Reached(s)
    case Stopped(rip, s) => StoppedAt(rip, s)
  }

  // ----- memory

  lemma {:induction false} LoadsBytes(memory: map<u64, byte>, a: u64, n: nat)
    ensures LoadBytes(memory, a, n) == if Accessible(memory, a, n) then Some(Loaded(memory, a, n)) else None
    decreases n
  {
    if n > 0 {
      var next := Add64(a, 1);
      LoadsBytes(memory, next, n - 1);
      NthNext(a);
      if a in memory {
        forall i | 0 <= i < n
          ensures Nth(a, i) in memory <==> i == 0 || Nth(next, i - 1) in memory
        {
          if i > 0 { NthLater(a, i); }
        }
        AccessibleNext(memory, a, n);
        if Accessible(memory, a, n) { LoadedNext(memory, a, n); }
      }
    }
  }

  lemma NthNext(a: u64)
    ensures Nth(a, 0) == a && Nth(a, 1) == Add64(a, 1)
  {
  }

  lemma NthLater(a: u64, i: nat)
    requires i > 0
    ensures Nth(a, i) == Nth(Add64(a, 1), i - 1)
  {
    ReduceSum(U64_LIMIT, a + 1, i - 1);
    ReduceSum(U64_LIMIT, (a + 1) % U64_LIMIT, i - 1);
  }

  lemma AccessibleNext(memory: map<u64, byte>, a: u64, n: nat)
    requires n > 0
    ensures Accessible(memory, a, n) <==> a in memory && Accessible(memory, Add64(a, 1), n - 1)
  {
    hide Nth, Add64;
    NthNext(a);
    forall i | 0 < i < n
      ensures Nth(a, i) == Nth(Add64(a, 1), i - 1)
    {
      NthLater(a, i);
    }
    if Accessible(memory, a, n) {
      assert Nth(a, 0) in memory;
      forall i | 0 <= i < n - 1
        ensures Nth(Add64(a, 1), i) in memory
      {
        var next := i + 1;
        assert Nth(a, next) in memory;
      }
    }
  }

  lemma LoadedNext(memory: map<u64, byte>, a: u64, n: nat)
    requires n > 0 && Accessible(memory, a, n) && a in memory && Accessible(memory, Add64(a, 1), n - 1)
    ensures Loaded(memory, a, n) == memory[a] + 0x100 * Loaded(memory, Add64(a, 1), n - 1)
  {
    hide Nth, Add64;
    var all := seq(n, i requires 0 <= i < n => memory[Nth(a, i)]);
    var others := seq(n - 1, i requires 0 <= i < n - 1 => memory[Nth(Add64(a, 1), i)]);
    NthNext(a);
    forall i | 0 <= i < n - 1
      ensures all[1..][i] == others[i]
    {
      NthLater(a, i + 1);
    }
    assert all[1..] == others;
  }

  lemma {:induction false} StoresBytes(memory: map<u64, byte>, a: u64, v: nat, n: nat)
    requires Accessible(memory, a, n) && n <= 8
    ensures StoreBytes(memory, a, v, n) == Stored(memory, a, v, n)
    decreases n
  {
    hide ToBytes;
    if n > 0 {
      AccessibleNext(memory, a, n);
      var next, first := Add64(a, 1), memory[a := v % 0x100];
      assert first.Keys == memory.Keys;
      assert Accessible(first, next, n - 1) by { hide Nth; }
      StoresBytes(first, next, v / 0x100, n - 1);
      forall k | k in memory
        ensures Stored(first, next, v / 0x100, n - 1)[k] == Stored(memory, a, v, n)[k]
      {
        BehindNext(k, a);
        FirstByte(v, n);
      }
    }
  }

  lemma BehindNext(k: u64, a: u64)
    ensures Behind(k, a) == 0 <==> k == a
    ensures k != a ==> Behind(k, Add64(a, 1)) == Behind(k, a) - 1
    ensures k == a ==> Behind(k, Add64(a, 1)) == U64_LIMIT - 1
  {
  }

  lemma FirstByte(v: nat, n: nat)
    requires n > 0
    ensures ToBytes(v, n)[0] == v % 0x100 && ToBytes(v, n)[1..] == ToBytes(v / 0x100, n - 1)
  {
  }

  // ----- single operations

  /** Values are cut at 32 bits and left whole at the other widths; what counts is their low part. */
  function Cut(w: Width, x: nat): u64 {
    if w == I32 then x % 0x1_0000_0000 else x % 0x1_0000_0000_0000_0000
  }

  function CutSum(w: Width, l: nat, r: nat): u64 { Cut(w, l + r) }

  lemma CutKeepsLow(w: Width, x: nat)
    ensures Cut(w, x) % Modulus(w) == x % Modulus(w)
  {
    match w {
      case I8 => SmallerModulus(x, 0x100, 0x100_0000_0000_0000);
      case I16 => SmallerModulus(x, 0x1_0000, 0x1_0000_0000_0000);
      case _ =>
    }
  }

  lemma SmallerModulus(x: nat, m: nat, k: nat)
    requires m > 0 && k > 0 && m * k == U64_LIMIT
    ensures x % U64_LIMIT % m == x % m
  {
    var q := x / U64_LIMIT;
    assert x == m * (k * q) + x % U64_LIMIT by {
      assert (m * k) * q == m * (k * q);
    }
    ReduceMultiple(m, k * q, x % U64_LIMIT);
  }

  /** The low part of a sum or difference depends on the low parts alone. */
  lemma LowSum(w: Width, a: nat, b: nat)
    ensures (a + b) % Modulus(w) == (a % Modulus(w) + b % Modulus(w)) % Modulus(w)
  {
    ReduceSum(Modulus(w), a, b);
  }

  lemma LowDifference(w: Width, a: nat, b: nat)
    ensures (a - b) % Modulus(w) == (a % Modulus(w) - b % Modulus(w)) % Modulus(w)
  {
    ReduceDifference(Modulus(w), a, b);
  }

  lemma DoConstant(host: Host, rip: u64, w: Width, n: ValueId, v: u64, cells: map<ValueId, u64>, st: GuestState)
    ensures Do(host, ConstantOp(rip, w, n, v), Going(cells, st)) == Going(cells[n := Cut(w, v)], st)
  {
  }

  lemma DoRead(host: Host, rip: u64, w: Width, n: ValueId, r: Reg, cells: map<ValueId, u64>, st: GuestState)
    ensures Do(host, ReadOp(rip, w, n, r), Going(cells, st)) == Going(cells[n := Cut(w, st.regs[r])], st)
  {
  }

  lemma DoAdd(host: Host, rip: u64, w: Width, n: ValueId, l: ValueId, r: ValueId, cells: map<ValueId, u64>,
              st: GuestState)
    requires l in cells && r in cells
    ensures Do(host, PairOp(rip, Add, w, n, l, r), Going(cells, st)) ==
      Going(cells[n := CutSum(w, cells[l], cells[r])], st)
  {
  }

  function CutDifference(w: Width, l: nat, r: nat): u64 {
    if w == I32 then (l - r) % 0x1_0000_0000 else (l - r) % 0x1_0000_0000_0000_0000
  }

  lemma DoSub(host: Host, rip: u64, w: Width, n: ValueId, l: ValueId, r: ValueId, cells: map<ValueId, u64>,
              st: GuestState)
    requires l in cells && r in cells
    ensures Do(host, PairOp(rip, Sub, w, n, l, r), Going(cells, st)) ==
      Going(cells[n := CutDifference(w, cells[l], cells[r])], st)
  {
  }

  lemma CutDifferenceKeepsLow(w: Width, l: u64, r: u64)
    ensures CutDifference(w, l, r) % Modulus(w) == (l % Modulus(w) - r % Modulus(w)) % Modulus(w)
  {
    LowDifference(w, l, r);
    CutKeepsLow(w, l + U64_LIMIT - r);
    ReduceMultiple(Modulus(w), U64_LIMIT / Modulus(w), l - r);
    ReduceMultiple(U64_LIMIT, 1, l - r);
    ReduceMultiple(0x1_0000_0000, 0x1_0000_0000, l - r);
  }

  lemma DoWrite(host: Host, rip: u64, w: Width, n: ValueId, d: Reg, cells: map<ValueId, u64>, st: GuestState)
    requires n in cells
    ensures Do(host, WriteOp(rip, w, n, d), Going(cells, st)) == Going(cells, st.(regs := Put(st.regs, d, w, cells[n])))
  {
  }

  /** What is written depends on the low part alone. */
  lemma PutLow(regs: Registers, d: Reg, w: Width, x: nat, y: nat)
    requires x % Modulus(w) == y % Modulus(w)
    ensures Put(regs, d, w, x) == Put(regs, d, w, y)
  {
  }

  lemma DoCondition(host: Host, rip: u64, n: ValueId, c: Condition, cells: map<ValueId, u64>, st: GuestState)
    ensures Do(host, ConditionOp(rip, n, c), Going(cells, st)) ==
      Going(cells[n := if Means(c, ArithOf(st.rflags)) then 1 else 0], st)
  {
    TestsMeanConditions(c, st.rflags);
    hide Holds;
  }

  lemma DoFlags(host: Host, op: Operation, cells: map<ValueId, u64>, st: GuestState)
    requires IsFlagUpdate(op.opcode) && op.result.None?
    ensures var store := Values(cells);
      Do(host, op, Going(cells, st)) == Going(cells, st.(rflags :=
        FlagsAfter(host, op, Operand(store, op.lhs), Operand(store, op.rhs), Operand(store, op.third), st.rflags)))
  {
    hide FlagsAfter;
  }

  lemma DoAddFlags(host: Host, rip: u64, w: Width, l: ValueId, r: ValueId, t: ValueId, cells: map<ValueId, u64>,
                   st: GuestState)
    requires l in cells && r in cells && t in cells
    requires cells[t] % Modulus(w) == (cells[l] % Modulus(w) + cells[r] % Modulus(w)) % Modulus(w)
    ensures Do(host, FlagsOp(rip, UpdateAddFlags, w, l, r, Some(t)), Going(cells, st)) ==
      Going(cells, st.(rflags :=
        Materialise(st.rflags, SumFlags(w, cells[l] % Modulus(w), cells[r] % Modulus(w), 0))))
  {
    hide Materialise, InlineAddFormula, AddFormula, SumFlags, Do;
    DoFlags(host, FlagsOp(rip, UpdateAddFlags, w, l, r, Some(t)), cells, st);
    LowSum(w, cells[l], cells[r]);
    InlineAddIsExact(w, st.rflags, cells[l], cells[r], cells[t]);
  }

  lemma DoSubFlags(host: Host, rip: u64, w: Width, l: ValueId, r: ValueId, t: ValueId, cells: map<ValueId, u64>,
                   st: GuestState)
    requires l in cells && r in cells && t in cells
    requires cells[t] % Modulus(w) == (cells[l] % Modulus(w) - cells[r] % Modulus(w)) % Modulus(w)
    ensures Do(host, FlagsOp(rip, UpdateSubFlags, w, l, r, Some(t)), Going(cells, st)) ==
      Going(cells, st.(rflags :=
        Materialise(st.rflags, DifferenceFlags(w, cells[l] % Modulus(w), cells[r] % Modulus(w), 0))))
  {
    hide Materialise, SubFormula, DifferenceFlags, Do;
    DoFlags(host, FlagsOp(rip, UpdateSubFlags, w, l, r, Some(t)), cells, st);
    LowDifference(w, cells[l], cells[r]);
    SubFormulaIsDifference(w, cells[l], cells[r], cells[t]);
  }

  lemma DoAdcFlags(host: Host, rip: u64, w: Width, l: ValueId, r: ValueId, t: ValueId, cells: map<ValueId, u64>,
                   st: GuestState)
    requires l in cells && r in cells && t in cells && cells[t] <= 1
    ensures Do(host, FlagsOp(rip, UpdateAdcFlags, w, l, r, Some(t)), Going(cells, st)) ==
      Going(cells, st.(rflags :=
        Materialise(st.rflags, SumFlags(w, cells[l] % Modulus(w), cells[r] % Modulus(w), cells[t]))))
  {
    hide Materialise, AdcFormula, SumFlags, Do;
    DoFlags(host, FlagsOp(rip, UpdateAdcFlags, w, l, r, Some(t)), cells, st);
    AdcFormulaIsSum(w, cells[l], cells[r], cells[t]);
  }

  lemma DoSbbFlags(host: Host, rip: u64, w: Width, l: ValueId, r: ValueId, t: ValueId, cells: map<ValueId, u64>,
                   st: GuestState)
    requires l in cells && r in cells && t in cells && cells[t] <= 1
    ensures Do(host, FlagsOp(rip, UpdateSbbFlags, w, l, r, Some(t)), Going(cells, st)) ==
      Going(cells, st.(rflags :=
        Materialise(st.rflags, DifferenceFlags(w, cells[l] % Modulus(w), cells[r] % Modulus(w), cells[t]))))
  {
    hide Materialise, SbbFormula, DifferenceFlags, Do;
    DoFlags(host, FlagsOp(rip, UpdateSbbFlags, w, l, r, Some(t)), cells, st);
    SbbFormulaIsDifference(w, cells[l], cells[r], cells[t]);
  }

  lemma DoLogicFlags(host: Host, rip: u64, w: Width, t: ValueId, cells: map<ValueId, u64>, st: GuestState)
    requires t in cells
    ensures Do(host, Make(rip, UpdateLogicFlags, w, None, Some(t), None, None), Going(cells, st)) ==
      Going(cells, st.(rflags := Materialise(st.rflags, LogicFlags(w, cells[t] % Modulus(w)))))
  {
    hide Materialise, Do;
    DoFlags(host, Make(rip, UpdateLogicFlags, w, None, Some(t), None, None), cells, st);
    SignByDivision(w, Narrow(w, cells[t]));
  }

  lemma DoStepFlags(host: Host, rip: u64, w: Width, up: bool, l: ValueId, t: ValueId, cells: map<ValueId, u64>,
                    st: GuestState)
    requires l in cells && t in cells
    requires cells[t] % Modulus(w) == StepResult(w, up, cells[l] % Modulus(w))
    ensures Do(host, FlagsOp(rip, if up then UpdateIncFlags else UpdateDecFlags, w, l, t, None), Going(cells, st)) ==
      Going(cells, st.(rflags := Materialise(st.rflags,
        StepFlags(w, up, cells[l] % Modulus(w)).(cf := Bit(st.rflags, 0)))))
  {
    hide Materialise, StepFormula, StepFlags, Do, MaterialiseKeepingCarry;
    DoFlags(host, FlagsOp(rip, if up then UpdateIncFlags else UpdateDecFlags, w, l, t, None), cells, st);
    StepFormulaIsExact(w, up, cells[l], cells[t]);
    KeepingCarry(st.rflags, StepFormula(w, up, cells[l], cells[t]));
  }

  // ----- single instructions

  /** The operations of an instruction have done what it says. */
  predicate Does(i: Instruction, rip: u64, st: GuestState, g: Going) {
    Plain(g) == if Step(i, st).Some? then Reached(Step(i, st).value) else StoppedAt(rip, st)
  }

  lemma SumLow(w: Width, x: u64, y: u64)
    ensures Cut(w, x) % Modulus(w) == x % Modulus(w) && Cut(w, y) % Modulus(w) == y % Modulus(w)
    ensures CutSum(w, Cut(w, x), Cut(w, y)) % Modulus(w) == (x % Modulus(w) + y % Modulus(w)) % Modulus(w)
  {
    CutKeepsLow(w, x);
    CutKeepsLow(w, y);
    var a: nat, b: nat := Cut(w, x), Cut(w, y);
    CutKeepsLow(w, a + b);
    LowSum(w, a, b);
  }

  lemma DifferenceLow(w: Width, x: u64, y: u64)
    ensures Cut(w, x) % Modulus(w) == x % Modulus(w) && Cut(w, y) % Modulus(w) == y % Modulus(w)
    ensures CutDifference(w, Cut(w, x), Cut(w, y)) % Modulus(w) == (x % Modulus(w) - y % Modulus(w)) % Modulus(w)
  {
    CutKeepsLow(w, x);
    CutKeepsLow(w, y);
    CutDifferenceKeepsLow(w, Cut(w, x), Cut(w, y));
  }

  lemma MovMeaning(host: Host, w: Width, d: Reg, x: u64, from: Operation, rip: u64, n: ValueId,
                   cells: map<ValueId, u64>, st: GuestState)
    requires Do(host, from, Going(cells, st)) == Going(cells[n := Cut(w, x)], st)
    ensures Plain(DoAll(host, [from] + ([WriteOp(rip, w, n, d)] + []), Going(cells, st))) ==
      Reached(st.(regs := Put(st.regs, d, w, x)))
  {
    hide DoAll, Do, Cut, Put;
    DoTwo(host, from, WriteOp(rip, w, n, d), Going(cells, st));
    DoWrite(host, rip, w, n, d, cells[n := Cut(w, x)], st);
    CutKeepsLow(w, x);
    PutLow(st.regs, d, w, Cut(w, x), x);
  }

  lemma AddMeaning(host: Host, w: Width, d: Reg, s: Reg, rip: u64, n: ValueId, cells: map<ValueId, u64>, st: GuestState)
    ensures Does(AddReg(w, d, s), rip, st, DoAll(host, Lower(AddReg(w, d, s), rip, n), Going(cells, st)))
  {
    hide DoAll, Do, Cut, CutSum, Put, SumFlags, Materialise, Modulus;
    var o1, o2, o3 := ReadOp(rip, w, n, d), ReadOp(rip, w, n + 1, s), PairOp(rip, Add, w, n + 2, n, n + 1);
    var o4, o5 := WriteOp(rip, w, n + 2, d), FlagsOp(rip, UpdateAddFlags, w, n, n + 1, Some(n + 2));
    DoFive(host, o1, o2, o3, o4, o5, Going(cells, st));
    var c1 := cells[n := Cut(w, st.regs[d])];
    var c2 := c1[n + 1 := Cut(w, st.regs[s])];
    var c3 := c2[n + 2 := CutSum(w, c2[n], c2[n + 1])];
    DoRead(host, rip, w, n, d, cells, st);
    DoRead(host, rip, w, n + 1, s, c1, st);
    DoAdd(host, rip, w, n + 2, n, n + 1, c2, st);
    DoWrite(host, rip, w, n + 2, d, c3, st);
    SumLow(w, st.regs[d], st.regs[s]);
    DoAddFlags(host, rip, w, n, n + 1, n + 2, c3, st.(regs := Put(st.regs, d, w, c3[n + 2])));
    PutLow(st.regs, d, w, c3[n + 2], st.regs[d] % Modulus(w) + st.regs[s] % Modulus(w));
  }

  /** Reading two registers, subtracting, and recording the flags. */
  lemma SubMeaning(host: Host, w: Width, d: Reg, s: Reg, rip: u64, n: ValueId, cells: map<ValueId, u64>, st: GuestState)
    ensures Does(SubReg(w, d, s), rip, st, DoAll(host, Lower(SubReg(w, d, s), rip, n), Going(cells, st)))
  {
    hide DoAll, Do, Cut, CutDifference, Put, DifferenceFlags, Materialise, Modulus;
    var o1, o2, o3 := ReadOp(rip, w, n, d), ReadOp(rip, w, n + 1, s), PairOp(rip, Sub, w, n + 2, n, n + 1);
    var o4, o5 := WriteOp(rip, w, n + 2, d), FlagsOp(rip, UpdateSubFlags, w, n, n + 1, Some(n + 2));
    DoFive(host, o1, o2, o3, o4, o5, Going(cells, st));
    var c1 := cells[n := Cut(w, st.regs[d])];
    var c2 := c1[n + 1 := Cut(w, st.regs[s])];
    var c3 := c2[n + 2 := CutDifference(w, c2[n], c2[n + 1])];
    DoRead(host, rip, w, n, d, cells, st);
    DoRead(host, rip, w, n + 1, s, c1, st);
    DoSub(host, rip, w, n + 2, n, n + 1, c2, st);
    DoWrite(host, rip, w, n + 2, d, c3, st);
    DifferenceLow(w, st.regs[d], st.regs[s]);
    DoSubFlags(host, rip, w, n, n + 1, n + 2, c3, st.(regs := Put(st.regs, d, w, c3[n + 2])));
    PutDifference(st.regs, d, w, c3[n + 2], st.regs[d], st.regs[s]);
  }

  lemma CmpMeaning(host: Host, w: Width, d: Reg, s: Reg, rip: u64, n: ValueId, cells: map<ValueId, u64>, st: GuestState)
    ensures Does(CmpReg(w, d, s), rip, st, DoAll(host, Lower(CmpReg(w, d, s), rip, n), Going(cells, st)))
  {
    hide DoAll, Do, Cut, CutDifference, Put, DifferenceFlags, Materialise, Modulus;
    var o1, o2, o3 := ReadOp(rip, w, n, d), ReadOp(rip, w, n + 1, s), PairOp(rip, Sub, w, n + 2, n, n + 1);
    var o4 := FlagsOp(rip, UpdateSubFlags, w, n, n + 1, Some(n + 2));
    DoFour(host, o1, o2, o3, o4, Going(cells, st));
    var c1 := cells[n := Cut(w, st.regs[d])];
    var c2 := c1[n + 1 := Cut(w, st.regs[s])];
    var c3 := c2[n + 2 := CutDifference(w, c2[n], c2[n + 1])];
    DoRead(host, rip, w, n, d, cells, st);
    DoRead(host, rip, w, n + 1, s, c1, st);
    DoSub(host, rip, w, n + 2, n, n + 1, c2, st);
    DifferenceLow(w, st.regs[d], st.regs[s]);
    DoSubFlags(host, rip, w, n, n + 1, n + 2, c3, st);
  }

  lemma PutDifference(regs: Registers, d: Reg, w: Width, v: u64, x: nat, y: nat)
    requires v % Modulus(w) == (x % Modulus(w) - y % Modulus(w)) % Modulus(w)
    ensures Put(regs, d, w, v) == Put(regs, d, w, (x % Modulus(w) - y % Modulus(w)) % Modulus(w))
  {
    hide Put;
    PutLow(regs, d, w, v, (x % Modulus(w) - y % Modulus(w)) % Modulus(w));
  }

  lemma SmallLow(w: Width, x: nat)
    requires x < 0x100
    ensures x % Modulus(w) == x && Cut(w, x) == x
  {
  }

  lemma NegMeaning(host: Host, w: Width, d: Reg, rip: u64, n: ValueId, cells: map<ValueId, u64>, st: GuestState)
    ensures Does(NegReg(w, d), rip, st, DoAll(host, Lower(NegReg(w, d), rip, n), Going(cells, st)))
  {
    hide DoAll, Do, Cut, CutDifference, Put, DifferenceFlags, Materialise, Modulus;
    var o1, o2, o3 := ConstantOp(rip, w, n, 0), ReadOp(rip, w, n + 1, d), PairOp(rip, Sub, w, n + 2, n, n + 1);
    var o4, o5 := WriteOp(rip, w, n + 2, d), FlagsOp(rip, UpdateSubFlags, w, n, n + 1, Some(n + 2));
    DoFive(host, o1, o2, o3, o4, o5, Going(cells, st));
    var c1 := cells[n := Cut(w, 0)];
    var c2 := c1[n + 1 := Cut(w, st.regs[d])];
    var c3 := c2[n + 2 := CutDifference(w, c2[n], c2[n + 1])];
    DoConstant(host, rip, w, n, 0, cells, st);
    DoRead(host, rip, w, n + 1, d, c1, st);
    DoSub(host, rip, w, n + 2, n, n + 1, c2, st);
    DoWrite(host, rip, w, n + 2, d, c3, st);
    SmallLow(w, 0);
    DifferenceLow(w, 0, st.regs[d]);
    DoSubFlags(host, rip, w, n, n + 1, n + 2, c3, st.(regs := Put(st.regs, d, w, c3[n + 2])));
    PutDifference(st.regs, d, w, c3[n + 2], 0, st.regs[d]);
  }

  lemma CarryIs(rflags: u64)
    ensures (if Means(Below, ArithOf(rflags)) then 1 else 0) == Carry(rflags)
  {
  }

  lemma SbbMeaning(host: Host, w: Width, d: Reg, rip: u64, n: ValueId, cells: map<ValueId, u64>, st: GuestState)
    ensures Does(SbbSame(w, d), rip, st, DoAll(host, Lower(SbbSame(w, d), rip, n), Going(cells, st)))
  {
    hide DoAll, Do, Cut, CutDifference, Put, DifferenceFlags, Materialise, Modulus, ArithOf, Means, Carry;
    var o1, o2, o3 := ConditionOp(rip, n, Below), ConstantOp(rip, w, n + 1, 0), PairOp(rip, Sub, w, n + 2, n + 1, n);
    var o4, o5 := WriteOp(rip, w, n + 2, d), FlagsOp(rip, UpdateSubFlags, w, n + 1, n, Some(n + 2));
    DoFive(host, o1, o2, o3, o4, o5, Going(cells, st));
    var c: nat := Carry(st.rflags);
    CarryIs(st.rflags);
    CarryBit(st.rflags);
    var c1 := cells[n := c];
    var c2 := c1[n + 1 := Cut(w, 0)];
    var c3 := c2[n + 2 := CutDifference(w, c2[n + 1], c2[n])];
    DoCondition(host, rip, n, Below, cells, st);
    DoConstant(host, rip, w, n + 1, 0, c1, st);
    DoSub(host, rip, w, n + 2, n + 1, n, c2, st);
    DoWrite(host, rip, w, n + 2, d, c3, st);
    SmallLow(w, 0);
    SmallLow(w, c);
    CutDifferenceKeepsLow(w, 0, c);
    DoSubFlags(host, rip, w, n + 1, n, n + 2, c3, st.(regs := Put(st.regs, d, w, c3[n + 2])));
    PutDifference(st.regs, d, w, c3[n + 2], 0, c);
    SameBorrow(w, st.regs[d] % Modulus(w), c);
  }

  lemma CarryBit(rflags: u64)
    ensures Carry(rflags) <= 1
  {
  }

  /** Subtracting a number and a borrow from itself leaves the borrow, and its flags. */
  lemma SameBorrow(w: Width, l: nat, c: nat)
    requires l < Modulus(w) && c <= 1
    ensures (l - l - c) % Modulus(w) == (0 - c) % Modulus(w)
    ensures DifferenceFlags(w, l, l, c) == DifferenceFlags(w, 0, c, 0)
  {
    assert l - l - c == 0 - c - 0;
    assert Signed(w, 0) == 0 && Signed(w, c) == c;
  }

  lemma DoSix(host: Host, o1: Operation, o2: Operation, o3: Operation, o4: Operation, o5: Operation, o6: Operation,
              o7: Operation, g: Going)
    ensures DoAll(host, [o1] + ([o2] + ([o3] + ([o4] + ([o5] + ([o6] + ([o7] + [])))))), g) ==
      Do(host, o7, Do(host, o6, Do(host, o5, Do(host, o4, Do(host, o3, Do(host, o2, Do(host, o1, g)))))))
  {
    hide Do, DoAll;
    DoFirst(host, o1, [o2] + ([o3] + ([o4] + ([o5] + ([o6] + ([o7] + []))))), g);
    DoFirst(host, o2, [o3] + ([o4] + ([o5] + ([o6] + ([o7] + [])))), Do(host, o1, g));
    DoFive(host, o3, o4, o5, o6, o7, Do(host, o2, Do(host, o1, g)));
  }

  lemma AdcMeaning(host: Host, w: Width, d: Reg, s: Reg, rip: u64, n: ValueId, cells: map<ValueId, u64>, st: GuestState)
    ensures Does(AdcReg(w, d, s), rip, st, DoAll(host, Lower(AdcReg(w, d, s), rip, n), Going(cells, st)))
  {
    hide DoAll, Do, Cut, CutSum, Put, SumFlags, Materialise, Modulus, ArithOf, Means, Carry;
    var o1, o2, o3 := ReadOp(rip, w, n, d), ReadOp(rip, w, n + 1, s), ConditionOp(rip, n + 2, Below);
    var o4, o5 := PairOp(rip, Add, w, n + 3, n, n + 1), PairOp(rip, Add, w, n + 4, n + 3, n + 2);
    var o6, o7 := WriteOp(rip, w, n + 4, d), FlagsOp(rip, UpdateAdcFlags, w, n, n + 1, Some(n + 2));
    DoSix(host, o1, o2, o3, o4, o5, o6, o7, Going(cells, st));
    var c: nat := Carry(st.rflags);
    CarryIs(st.rflags);
    CarryBit(st.rflags);
    var c1 := cells[n := Cut(w, st.regs[d])];
    var c2 := c1[n + 1 := Cut(w, st.regs[s])];
    var c3 := c2[n + 2 := c];
    var c4 := c3[n + 3 := CutSum(w, c3[n], c3[n + 1])];
    var c5 := c4[n + 4 := CutSum(w, c4[n + 3], c4[n + 2])];
    DoRead(host, rip, w, n, d, cells, st);
    DoRead(host, rip, w, n + 1, s, c1, st);
    DoCondition(host, rip, n + 2, Below, c2, st);
    DoAdd(host, rip, w, n + 3, n, n + 1, c3, st);
    DoAdd(host, rip, w, n + 4, n + 3, n + 2, c4, st);
    DoWrite(host, rip, w, n + 4, d, c5, st);
    DoAdcFlags(host, rip, w, n, n + 1, n + 2, c5, st.(regs := Put(st.regs, d, w, c5[n + 4])));
    SumLow(w, st.regs[d], st.regs[s]);
    SumOfThree(w, st.regs[d], st.regs[s], c);
    PutLow(st.regs, d, w, c5[n + 4], st.regs[d] % Modulus(w) + st.regs[s] % Modulus(w) + c);
  }

  lemma SumOfThree(w: Width, x: u64, y: u64, c: nat)
    requires c <= 1
    ensures CutSum(w, CutSum(w, Cut(w, x), Cut(w, y)), c) % Modulus(w) ==
      (x % Modulus(w) + y % Modulus(w) + c) % Modulus(w)
  {
    hide Cut, Modulus;
    SumLow(w, x, y);
    var sum: nat := CutSum(w, Cut(w, x), Cut(w, y));
    CutKeepsLow(w, sum + c);
    LowSum(w, sum, c);
    ReduceSum(Modulus(w), x % Modulus(w) + y % Modulus(w), c);
  }

  lemma SbbImmMeaning(host: Host, w: Width, d: Reg, v: u64, rip: u64, n: ValueId, cells: map<ValueId, u64>,
                      st: GuestState)
    ensures Does(SbbImm(w, d, v), rip, st, DoAll(host, Lower(SbbImm(w, d, v), rip, n), Going(cells, st)))
  {
    hide DoAll, Do, Cut, CutSum, CutDifference, Put, DifferenceFlags, Materialise, Modulus, ArithOf, Means, Carry;
    var o1, o2, o3 := ReadOp(rip, w, n, d), ConditionOp(rip, n + 1, Below), ConstantOp(rip, w, n + 2, v);
    var o4, o5 := PairOp(rip, Add, w, n + 3, n + 2, n + 1), PairOp(rip, Sub, w, n + 4, n, n + 3);
    var o6, o7 := WriteOp(rip, w, n + 4, d), FlagsOp(rip, UpdateSbbFlags, w, n, n + 2, Some(n + 1));
    DoSix(host, o1, o2, o3, o4, o5, o6, o7, Going(cells, st));
    var c: nat := Carry(st.rflags);
    CarryIs(st.rflags);
    CarryBit(st.rflags);
    var c1 := cells[n := Cut(w, st.regs[d])];
    var c2 := c1[n + 1 := c];
    var c3 := c2[n + 2 := Cut(w, v)];
    var c4 := c3[n + 3 := CutSum(w, c3[n + 2], c3[n + 1])];
    var c5 := c4[n + 4 := CutDifference(w, c4[n], c4[n + 3])];
    DoRead(host, rip, w, n, d, cells, st);
    DoCondition(host, rip, n + 1, Below, c1, st);
    DoConstant(host, rip, w, n + 2, v, c2, st);
    DoAdd(host, rip, w, n + 3, n + 2, n + 1, c3, st);
    DoSub(host, rip, w, n + 4, n, n + 3, c4, st);
    DoWrite(host, rip, w, n + 4, d, c5, st);
    DoSbbFlags(host, rip, w, n, n + 2, n + 1, c5, st.(regs := Put(st.regs, d, w, c5[n + 4])));
    DifferenceOfThree(w, st.regs[d], v, c);
    assert st.regs[d] % Modulus(w) - (v % Modulus(w) + c) == st.regs[d] % Modulus(w) - v % Modulus(w) - c;
    PutLow(st.regs, d, w, c5[n + 4], (st.regs[d] % Modulus(w) - v % Modulus(w) - c) % Modulus(w));
  }

  lemma DifferenceOfThree(w: Width, x: u64, y: u64, c: nat)
    requires c <= 1
    ensures Cut(w, x) % Modulus(w) == x % Modulus(w) && Cut(w, y) % Modulus(w) == y % Modulus(w)
    ensures CutDifference(w, Cut(w, x), CutSum(w, Cut(w, y), c)) % Modulus(w) ==
      (x % Modulus(w) - (y % Modulus(w) + c)) % Modulus(w) % Modulus(w)
  {
    hide Cut, CutSum, CutDifference, Modulus;
    CutKeepsLow(w, x);
    CutKeepsLow(w, y);
    LowOfSum(w, Cut(w, y), c);
    CutDifferenceKeepsLow(w, Cut(w, x), CutSum(w, Cut(w, y), c));
    TakeAway(Modulus(w), x, y % Modulus(w) + c);
  }

  lemma LowOfSum(w: Width, y: u64, c: nat)
    ensures CutSum(w, y, c) % Modulus(w) == (y % Modulus(w) + c) % Modulus(w)
  {
    CutKeepsLow(w, y + c);
    hide Cut, Modulus;
    TakeUp(Modulus(w), y, c);
  }

  lemma CutTwice(m: nat, x: int)
    requires m > 0
    ensures x % m % m == x % m
  {
  }

  lemma TakeUp(m: nat, y: nat, c: nat)
    requires m > 0
    ensures (y + c) % m == (y % m + c) % m
  {
    var r := y % m;
    ReduceSum(m, y, c);
    ReduceSum(m, r, c);
    CutTwice(m, y);
  }

  lemma TakeAway(m: nat, x: nat, z: nat)
    requires m > 0
    ensures (x % m - z % m) % m == (x % m - z) % m % m
  {
    var r := x % m;
    ReduceDifference(m, r, z);
    CutTwice(m, x);
    CutTwice(m, r - z);
  }

  lemma DecMeaning(host: Host, w: Width, d: Reg, rip: u64, n: ValueId, cells: map<ValueId, u64>, st: GuestState)
    ensures Does(DecReg(w, d), rip, st, DoAll(host, Lower(DecReg(w, d), rip, n), Going(cells, st)))
  {
    hide DoAll, Do, Cut, CutDifference, Put, DifferenceFlags, Materialise, Modulus;
    var o1, o2, o3 := ReadOp(rip, w, n, d), ConstantOp(rip, w, n + 1, 1), PairOp(rip, Sub, w, n + 2, n, n + 1);
    var o4, o5 := WriteOp(rip, StepWidth(w), n + 2, d), FlagsOp(rip, UpdateDecFlags, w, n, n + 2, None);
    DoFive(host, o1, o2, o3, o4, o5, Going(cells, st));
    var c1 := cells[n := Cut(w, st.regs[d])];
    var c2 := c1[n + 1 := Cut(w, 1)];
    var c3 := c2[n + 2 := CutDifference(w, c2[n], c2[n + 1])];
    DoRead(host, rip, w, n, d, cells, st);
    DoConstant(host, rip, w, n + 1, 1, c1, st);
    DoSub(host, rip, w, n + 2, n, n + 1, c2, st);
    DoWrite(host, rip, StepWidth(w), n + 2, d, c3, st);
    SmallLow(w, 1);
    DifferenceLow(w, st.regs[d], 1);
    DoStepFlags(host, rip, w, false, n, n + 2, c3, st.(regs := Put(st.regs, d, StepWidth(w), c3[n + 2])));
    CutDifferenceIsCut(w, c2[n], c2[n + 1]);
    WholeWrite(st.regs, d, w, c3[n + 2]);
    PutDifference(st.regs, d, w, c3[n + 2], st.regs[d], 1);
  }

  lemma CutDifferenceIsCut(w: Width, l: nat, r: nat)
    ensures w == I32 ==> CutDifference(w, l, r) < 0x1_0000_0000
  {
  }

  /** Writing a whole register with a number below 2^32 is a 32-bit write. */
  lemma WholeWrite(regs: Registers, d: Reg, w: Width, v: u64)
    requires w == I32 ==> v < 0x1_0000_0000
    ensures Put(regs, d, StepWidth(w), v) == Put(regs, d, w, v)
  {
  }

  /** The part of an increment that all widths share. */
  lemma IncSum(host: Host, w: Width, d: Reg, rip: u64, n: ValueId, cells: map<ValueId, u64>, st: GuestState)
    ensures var c1 := cells[n := Cut(w, st.regs[d])];
      var c2 := c1[n + 1 := Cut(w, 1)];
      var sum := CutSum(w, Cut(w, st.regs[d]), Cut(w, 1));
      Do(host, PairOp(rip, Add, w, n + 2, n, n + 1), Do(host, ConstantOp(rip, w, n + 1, 1),
        Do(host, ReadOp(rip, w, n, d), Going(cells, st)))) == Going(c2[n + 2 := sum], st) &&
      sum % Modulus(w) == (st.regs[d] % Modulus(w) + 1) % Modulus(w) &&
      Cut(w, st.regs[d]) % Modulus(w) == st.regs[d] % Modulus(w) && (w == I32 ==> sum < 0x1_0000_0000)
  {
    CutSumBelow(w, Cut(w, st.regs[d]), Cut(w, 1));
    hide Do, Cut, CutSum, Modulus;
    var c1 := cells[n := Cut(w, st.regs[d])];
    var c2 := c1[n + 1 := Cut(w, 1)];
    DoRead(host, rip, w, n, d, cells, st);
    DoConstant(host, rip, w, n + 1, 1, c1, st);
    DoAdd(host, rip, w, n + 2, n, n + 1, c2, st);
    SmallLow(w, 1);
    SumLow(w, st.regs[d], 1);
  }

  lemma CutSumBelow(w: Width, l: nat, r: nat)
    ensures w == I32 ==> CutSum(w, l, r) < 0x1_0000_0000
  {
  }

  lemma IncMeaning(host: Host, w: Width, d: Reg, rip: u64, n: ValueId, cells: map<ValueId, u64>, st: GuestState)
    requires w != I32
    ensures Does(IncReg(w, d), rip, st, DoAll(host, Lower(IncReg(w, d), rip, n), Going(cells, st)))
  {
    hide DoAll, Do, Cut, CutSum, Put, SumFlags, Materialise, Modulus;
    var o1, o2, o3 := ReadOp(rip, w, n, d), ConstantOp(rip, w, n + 1, 1), PairOp(rip, Add, w, n + 2, n, n + 1);
    var o4, o5 := WriteOp(rip, w, n + 2, d), FlagsOp(rip, UpdateIncFlags, w, n, n + 2, None);
    DoFive(host, o1, o2, o3, o4, o5, Going(cells, st));
    IncSum(host, w, d, rip, n, cells, st);
    var sum := CutSum(w, Cut(w, st.regs[d]), Cut(w, 1));
    var c3 := cells[n := Cut(w, st.regs[d])][n + 1 := Cut(w, 1)][n + 2 := sum];
    DoWrite(host, rip, w, n + 2, d, c3, st);
    DoStepFlags(host, rip, w, true, n, n + 2, c3, st.(regs := Put(st.regs, d, w, sum)));
    PutLow(st.regs, d, w, sum, st.regs[d] % Modulus(w) + 1);
  }

  lemma DoAnd(host: Host, rip: u64, w: Width, n: ValueId, l: ValueId, r: ValueId, cells: map<ValueId, u64>,
              st: GuestState)
    requires ComputesAnd(host) && l in cells && r in cells
    ensures And(cells[l], cells[r]) < U64_LIMIT
    ensures Do(host, PairOp(rip, BitAnd, w, n, l, r), Going(cells, st)) ==
      Going(cells[n := And(cells[l], cells[r])], st)
  {
    AndBound(cells[l], cells[r]);
    hide And;
  }

  lemma IncMeaning32(host: Host, d: Reg, rip: u64, n: ValueId, cells: map<ValueId, u64>, st: GuestState)
    requires ComputesAnd(host)
    ensures Does(IncReg(I32, d), rip, st, DoAll(host, Lower(IncReg(I32, d), rip, n), Going(cells, st)))
  {
    hide DoAll, Do, Cut, CutSum, Put, SumFlags, Materialise, Modulus, ComputesAnd, And;
    var w := I32;
    var o1, o2, o3 := ReadOp(rip, w, n, d), ConstantOp(rip, w, n + 1, 1), PairOp(rip, Add, w, n + 2, n, n + 1);
    var o4, o5 := ConstantOp(rip, I64, n + 3, 0xFFFF_FFFF), PairOp(rip, BitAnd, I64, n + 4, n + 2, n + 3);
    var o6, o7 := WriteOp(rip, I64, n + 4, d), FlagsOp(rip, UpdateIncFlags, w, n, n + 4, None);
    DoSix(host, o1, o2, o3, o4, o5, o6, o7, Going(cells, st));
    IncSum(host, w, d, rip, n, cells, st);
    var sum := CutSum(w, Cut(w, st.regs[d]), Cut(w, 1));
    var c3 := cells[n := Cut(w, st.regs[d])][n + 1 := Cut(w, 1)][n + 2 := sum];
    DoConstant(host, rip, I64, n + 3, 0xFFFF_FFFF, c3, st);
    WholeConstant();
    var c4 := c3[n + 3 := 0xFFFF_FFFF];
    DoAnd(host, rip, I64, n + 4, n + 2, n + 3, c4, st);
    LowHalf(sum);
    var c5 := c4[n + 4 := sum];
    DoWrite(host, rip, I64, n + 4, d, c5, st);
    DoStepFlags(host, rip, w, true, n, n + 4, c5, st.(regs := Put(st.regs, d, I64, sum)));
    WholeWrite(st.regs, d, w, sum);
    PutLow(st.regs, d, w, sum, st.regs[d] % Modulus(w) + 1);
  }

  lemma WholeConstant()
    ensures Cut(I64, 0xFFFF_FFFF) == 0xFFFF_FFFF
  {
  }

  lemma LowHalf(x: nat)
    requires x < 0x1_0000_0000
    ensures And(x, 0xFFFF_FFFF) == x
  {
    hide And;
    WordPowers();
    MaskIsRemainder(x, 32, 0x1_0000_0000);
  }

  /** The low digits of a bitwise `and` are those of the numbers cut first. */
  lemma {:induction false} AndOfLow(x: nat, y: nat, n: nat)
    ensures Low(And(x, y), n) == And(Low(x, n), Low(y, n))
  {
    if n > 0 {
      AndOfLow(x / 2, y / 2, n - 1);
      LowOfZero(n);
      assert x != 0 && y != 0 ==> And(x, y) / 2 == And(x / 2, y / 2);
      AndHalves(Low(x, n), Low(y, n));
    }
  }

  lemma {:induction false} LowOfZero(n: nat)
    ensures Low(0, n) == 0
  {
    if n > 0 { LowOfZero(n - 1); }
  }

  lemma AndHalves(a: nat, b: nat)
    ensures And(a, b) == 2 * And(a / 2, b / 2) + if a % 2 == 1 && b % 2 == 1 then 1 else 0
  {
  }

  lemma AndLow32(x: nat, y: nat, p: nat)
    requires p == Pow2(32) && p > 0
    ensures And(x % p, y % p) == And(x, y) % p
  {
    hide And, Low, Pow2;
    LowIsRemainder(x, 32, p);
    LowIsRemainder(y, 32, p);
    LowIsRemainder(And(x, y), 32, p);
    AndOfLow(x, y, 32);
  }

  lemma AndLowPart(w: Width, x: u64, y: u64)
    requires w != I8
    ensures And(Cut(w, x), Cut(w, y)) % Modulus(w) == And(x, y) % Modulus(w)
  {
    hide And, Pow2;
    WordPowers();
    AndLow32(x, y, 0x1_0000_0000);
  }

  lemma TestMeaning(host: Host, w: Width, d: Reg, s: Reg, rip: u64, n: ValueId, cells: map<ValueId, u64>,
                    st: GuestState)
    requires ComputesAnd(host) && w != I8
    ensures Does(TestReg(w, d, s), rip, st, DoAll(host, Lower(TestReg(w, d, s), rip, n), Going(cells, st)))
  {
    hide DoAll, Do, Cut, LogicFlags, Materialise, Modulus, ComputesAnd, And;
    var o1, o2, o3 := ReadOp(rip, w, n, d), ReadOp(rip, w, n + 1, s), PairOp(rip, BitAnd, w, n + 2, n, n + 1);
    DoFour(host, o1, o2, o3, Make(rip, UpdateLogicFlags, w, None, Some(n + 2), None, None), Going(cells, st));
    var c1 := cells[n := Cut(w, st.regs[d])];
    var c2 := c1[n + 1 := Cut(w, st.regs[s])];
    DoRead(host, rip, w, n, d, cells, st);
    DoRead(host, rip, w, n + 1, s, c1, st);
    DoAnd(host, rip, w, n + 2, n, n + 1, c2, st);
    DoLogicFlags(host, rip, w, n + 2, c2[n + 2 := And(c2[n], c2[n + 1])], st);
    AndLowPart(w, st.regs[d], st.regs[s]);
  }

  lemma ZeroMeaning(host: Host, w: Width, d: Reg, rip: u64, n: ValueId, cells: map<ValueId, u64>, st: GuestState)
    ensures Does(ZeroReg(w, d), rip, st, DoAll(host, Lower(ZeroReg(w, d), rip, n), Going(cells, st)))
  {
    hide DoAll, Do, Cut, Put, LogicFlags, Materialise, Modulus;
    var o3 := Make(rip, UpdateLogicFlags, w, None, Some(n), None, None);
    DoThree(host, ConstantOp(rip, w, n, 0), WriteOp(rip, w, n, d), o3, Going(cells, st));
    DoConstant(host, rip, w, n, 0, cells, st);
    SmallLow(w, 0);
    var c1 := cells[n := 0];
    DoWrite(host, rip, w, n, d, c1, st);
    DoLogicFlags(host, rip, w, n, c1, st.(regs := Put(st.regs, d, w, 0)));
  }

  lemma SetCcMeaning(host: Host, c: Condition, d: Reg, rip: u64, n: ValueId, cells: map<ValueId, u64>, st: GuestState)
    ensures Does(SetCc(c, d), rip, st, DoAll(host, Lower(SetCc(c, d), rip, n), Going(cells, st)))
  {
    hide DoAll, Do, Put, ArithOf, Means;
    DoTwo(host, ConditionOp(rip, n, c), WriteOp(rip, I8, n, d), Going(cells, st));
    DoCondition(host, rip, n, c, cells, st);
    DoWrite(host, rip, I8, n, d, cells[n := if Means(c, ArithOf(st.rflags)) then 1 else 0], st);
  }

  lemma CmovMeaning(host: Host, w: Width, c: Condition, d: Reg, s: Reg, rip: u64, n: ValueId, cells: map<ValueId, u64>,
                    st: GuestState)
    requires w == I32 || w == I64
    ensures Does(CmovCc(w, c, d, s), rip, st, DoAll(host, Lower(CmovCc(w, c, d, s), rip, n), Going(cells, st)))
  {
    hide DoAll, ArithOf, Means, Holds;
    var o := Make(rip, ConditionalMoveGuestReg, w, None, None, None, None)
      .(guestRegister := d, condition := c, immediate := s);
    DoFirst(host, o, [], Going(cells, st));
    DoNone(host, Do(host, o, Going(cells, st)));
    TestsMeanConditions(c, st.rflags);
  }

  // ----- loads, stores and moves

  lemma LoadMeaning(host: Host, w: Width, d: Reg, base: Reg, rip: u64, n: ValueId, cells: map<ValueId, u64>,
                    st: GuestState)
    ensures Does(Load(w, d, base), rip, st, DoAll(host, Lower(Load(w, d, base), rip, n), Going(cells, st)))
  {
    hide DoAll, Do, Put, LoadBytes, Loaded, Accessible, Modulus, Cut;
    var o1, o2, o3 := ReadOp(rip, I64, n, base), Make(rip, LoadGuest, w, Some(n + 1), Some(n), None, None),
      WriteOp(rip, w, n + 1, d);
    DoThree(host, o1, o2, o3, Going(cells, st));
    var a := st.regs[base];
    WholeValue(a);
    DoRead(host, rip, I64, n, base, cells, st);
    var c1 := cells[n := a];
    DoLoad(host, rip, w, n, c1, st);
    if Accessible(st.memory, a, Bits(w) / 8) {
      var x := Loaded(st.memory, a, Bits(w) / 8);
      LoadedBelow(st.memory, a, w);
      DoWrite(host, rip, w, n + 1, d, c1[n + 1 := x], st);
    } else {
      DoAfterStop(host, o3, rip, st);
    }
  }

  function CmovLoadOp(rip: u64, w: Width, c: Condition, v: ValueId, d: Reg): Operation {
    Make(rip, ConditionalMoveGuestReg, w, None, Some(v), None, None).(guestRegister := d, condition := c)
  }

  lemma DoCmovLoad(host: Host, rip: u64, w: Width, c: Condition, v: ValueId, d: Reg, cells: map<ValueId, u64>,
                   st: GuestState)
    requires v in cells && (w == I32 || w == I64)
    ensures Do(host, CmovLoadOp(rip, w, c, v, d), Going(cells, st)) ==
      Going(cells, st.(regs :=
        Put(st.regs, d, w, if Means(c, ArithOf(st.rflags)) then cells[v] else st.regs[d])))
  {
    hide ArithOf, Means, Holds;
    TestsMeanConditions(c, st.rflags);
  }

  lemma CmovLoadMeaning(host: Host, w: Width, c: Condition, d: Reg, base: Reg, rip: u64, n: ValueId,
                        cells: map<ValueId, u64>, st: GuestState)
    requires w == I32 || w == I64
    ensures Does(CmovLoad(w, c, d, base), rip, st,
      DoAll(host, Lower(CmovLoad(w, c, d, base), rip, n), Going(cells, st)))
  {
    hide DoAll, Do, Put, LoadBytes, Loaded, Accessible, Modulus, Cut, ArithOf, Means;
    var o1, o2, o3 := ReadOp(rip, I64, n, base), Make(rip, LoadGuest, w, Some(n + 1), Some(n), None, None),
      CmovLoadOp(rip, w, c, n + 1, d);
    DoThree(host, o1, o2, o3, Going(cells, st));
    var a := st.regs[base];
    WholeValue(a);
    DoRead(host, rip, I64, n, base, cells, st);
    var c1 := cells[n := a];
    DoLoad(host, rip, w, n, c1, st);
    if Accessible(st.memory, a, Bits(w) / 8) {
      var x := Loaded(st.memory, a, Bits(w) / 8);
      LoadedBelow(st.memory, a, w);
      DoCmovLoad(host, rip, w, c, n + 1, d, c1[n + 1 := x], st);
    } else {
      DoAfterStop(host, o3, rip, st);
    }
  }

  lemma WholeValue(x: u64)
    ensures Cut(I64, x) == x
  {
  }

  lemma DoAfterStop(host: Host, op: Operation, rip: u64, st: GuestState)
    ensures Do(host, op, Stopped(rip, st)) == Stopped(rip, st)
  {
  }

  lemma LoadedBelow(memory: map<u64, byte>, a: u64, w: Width)
    requires Accessible(memory, a, Bits(w) / 8)
    ensures Loaded(memory, a, Bits(w) / 8) < Modulus(w) <= U64_LIMIT
  {
    hide FromBytes, Nth;
    var n := Bits(w) / 8;
    ValueRoundTrip(seq(n, i requires 0 <= i < n => memory[Nth(a, i)]));
    WordPowers();
  }

  lemma DoLoad(host: Host, rip: u64, w: Width, n: ValueId, cells: map<ValueId, u64>, st: GuestState)
    requires n in cells
    ensures var a := cells[n];
      Do(host, Make(rip, LoadGuest, w, Some(n + 1), Some(n), None, None), Going(cells, st)) ==
      if Accessible(st.memory, a, Bits(w) / 8)
      then Going(cells[n + 1 := Loaded(st.memory, a, Bits(w) / 8) % U64_LIMIT], st)
      else Stopped(rip, st)
  {
    hide LoadBytes, Accessible, Loaded;
    LoadsBytes(st.memory, cells[n], Bits(w) / 8);
  }

  lemma StoreMeaning(host: Host, w: Width, base: Reg, s: Reg, rip: u64, n: ValueId, cells: map<ValueId, u64>,
                     st: GuestState)
    ensures Does(Store(w, base, s), rip, st, DoAll(host, Lower(Store(w, base, s), rip, n), Going(cells, st)))
  {
    hide DoAll, Do, StoreBytes, Stored, Accessible, Modulus, Cut;
    var o1, o2, o3 := ReadOp(rip, I64, n, base), ReadOp(rip, w, n + 1, s),
      Make(rip, StoreGuest, w, None, Some(n), Some(n + 1), None);
    DoThree(host, o1, o2, o3, Going(cells, st));
    var a := st.regs[base];
    WholeValue(a);
    DoRead(host, rip, I64, n, base, cells, st);
    DoRead(host, rip, w, n + 1, s, cells[n := a], st);
    DoStore(host, rip, w, n, cells[n := a][n + 1 := Cut(w, st.regs[s])], st);
    CutStores(st.memory, a, w, st.regs[s]);
  }

  lemma DoStore(host: Host, rip: u64, w: Width, n: ValueId, cells: map<ValueId, u64>, st: GuestState)
    requires n in cells && n + 1 in cells
    ensures var a := cells[n];
      Do(host, Make(rip, StoreGuest, w, None, Some(n), Some(n + 1), None), Going(cells, st)) ==
      if Accessible(st.memory, a, Bits(w) / 8)
      then Going(cells, st.(memory := Stored(st.memory, a, cells[n + 1], Bits(w) / 8)))
      else Stopped(rip, st)
  {
    hide LoadBytes, StoreBytes, Accessible, Loaded, Stored;
    LoadsBytes(st.memory, cells[n], Bits(w) / 8);
    if Accessible(st.memory, cells[n], Bits(w) / 8) {
      StoresBytes(st.memory, cells[n], cells[n + 1], Bits(w) / 8);
    }
  }

  /** Only the bytes that are stored count. */
  lemma CutStores(memory: map<u64, byte>, a: u64, w: Width, v: u64)
    ensures Stored(memory, a, Cut(w, v), Bits(w) / 8) == Stored(memory, a, v, Bits(w) / 8)
  {
    hide ToBytes, Behind;
    WordPowers();
    if w == I32 { LowBytes(v, 4, 0x1_0000_0000); }
  }

  lemma {:induction false} LowBytes(v: nat, n: nat, p: nat)
    requires p > 0 && p == Pow2(8 * n)
    ensures ToBytes(v % p, n) == ToBytes(v, n)
    decreases n
  {
    if n > 0 {
      var q := Pow2(8 * (n - 1));
      Pow2Bytes(n - 1);
      LowBytes(v / 0x100, n - 1, q);
      ByteSplit(v, q);
    } else {
      assert v % p >= 0;
    }
  }

  lemma ByteSplit(v: nat, q: nat)
    requires q > 0
    ensures v % (0x100 * q) % 0x100 == v % 0x100 && v % (0x100 * q) / 0x100 == v / 0x100 % q
  {
    var h := v / 0x100;
    assert h == q * (h / q) + h % q;
    assert v == (0x100 * q) * (h / q) + (0x100 * (h % q) + v % 0x100) by {
      assert 0x100 * (q * (h / q)) == (0x100 * q) * (h / q);
    }
    QuotientUnique(v, 0x100 * q, h / q, 0x100 * (h % q) + v % 0x100);
  }

  /** Whatever the instruction, its operations do what it says. */
  lemma InstructionMeaning(host: Host, i: Instruction, rip: u64, n: ValueId, cells: map<ValueId, u64>, st: GuestState)
    requires ComputesAnd(host) && Accepted(i)
    ensures Does(i, rip, st, DoAll(host, Lower(i, rip, n), Going(cells, st)))
  {
    hide DoAll, Do, ComputesAnd, Step, Does;
    match i {
      case MovImm(w, d, value) => MovImmMeaning(host, w, d, value, rip, n, cells, st);
      case MovReg(w, d, s) => MovRegMeaning(host, w, d, s, rip, n, cells, st);
      case Load(w, d, base) => LoadMeaning(host, w, d, base, rip, n, cells, st);
      case Store(w, base, s) => StoreMeaning(host, w, base, s, rip, n, cells, st);
      case AddReg(w, d, s) => AddMeaning(host, w, d, s, rip, n, cells, st);
      case SubReg(w, d, s) => SubMeaning(host, w, d, s, rip, n, cells, st);
      case CmpReg(w, d, s) => CmpMeaning(host, w, d, s, rip, n, cells, st);
      case NegReg(w, d) => NegMeaning(host, w, d, rip, n, cells, st);
      case AdcReg(w, d, s) => AdcMeaning(host, w, d, s, rip, n, cells, st);
      case SbbSame(w, d) => SbbMeaning(host, w, d, rip, n, cells, st);
      case SbbImm(w, d, value) => SbbImmMeaning(host, w, d, value, rip, n, cells, st);
      case IncReg(w, d) =>
        if w == I32 { IncMeaning32(host, d, rip, n, cells, st); } else { IncMeaning(host, w, d, rip, n, cells, st); }
      case DecReg(w, d) => DecMeaning(host, w, d, rip, n, cells, st);
      case TestReg(w, d, s) => TestMeaning(host, w, d, s, rip, n, cells, st);
      case ZeroReg(w, d) => ZeroMeaning(host, w, d, rip, n, cells, st);
      case SetCc(c, d) => SetCcMeaning(host, c, d, rip, n, cells, st);
      case CmovLoad(w, c, d, base) => CmovLoadMeaning(host, w, c, d, base, rip, n, cells, st);
      case CmovCc(w, c, d, s) => CmovMeaning(host, w, c, d, s, rip, n, cells, st);
    }
  }

  lemma MovImmMeaning(host: Host, w: Width, d: Reg, v: u64, rip: u64, n: ValueId, cells: map<ValueId, u64>,
                      st: GuestState)
    ensures Does(MovImm(w, d, v), rip, st, DoAll(host, Lower(MovImm(w, d, v), rip, n), Going(cells, st)))
  {
    hide DoAll, Do, Cut, Put;
    DoConstant(host, rip, w, n, v, cells, st);
    MovMeaning(host, w, d, v, ConstantOp(rip, w, n, v), rip, n, cells, st);
  }

  lemma MovRegMeaning(host: Host, w: Width, d: Reg, s: Reg, rip: u64, n: ValueId, cells: map<ValueId, u64>,
                      st: GuestState)
    ensures Does(MovReg(w, d, s), rip, st, DoAll(host, Lower(MovReg(w, d, s), rip, n), Going(cells, st)))
  {
    hide DoAll, Do, Cut, Put;
    DoRead(host, rip, w, n, s, cells, st);
    MovMeaning(host, w, d, st.regs[s], ReadOp(rip, w, n, s), rip, n, cells, st);
  }
}
