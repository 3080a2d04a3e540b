/** The typed SSA form that the back end compiles, and its meaning one operation at a time. */
module IR {
  import opened Options
  import opened Words
  import opened Flags
  import opened FlagHelpers
  import opened InlineFlags

  type ValueId = nat
  type Reg = r: nat | r < 16
  type Registers = r: seq<u64> | |r| == 16 witness seq(16, _ => 0)

  /** Every operation outside these (vector, atomic, string, system and so on) is `Other`. */
  datatype Opcode =
    | Constant | ReadGuestReg | WriteGuestReg | ConditionalMoveGuestReg
    | Add | Sub | ShiftLeft | ShiftRightLogical | ShiftRightArithmetic
    | MultiplyLow | MultiplyHighUnsigned | MultiplyHighSigned | ShiftRightDouble
    | BitAnd | BitOr | BitXor | SignExtend32 | ByteSwap
    | EvaluateCondition | LoadGuest | StoreGuest
    | UpdateAddFlags | UpdateAdcFlags | UpdateSbbFlags | UpdateIncFlags | UpdateDecFlags
    | UpdateSubFlags | UpdateLogicFlags | UpdateShiftLeftFlags | UpdateShiftRightFlags
    | UpdateShiftRightArithmeticFlags | UpdateRotateLeftFlags | UpdateRotateRightFlags
    | UpdateMultiplyFlags | UpdateSignedMultiplyFlags | UpdateShiftRightDoubleFlags | UpdateBitTestFlags
    | ExitBlock
    | Other(code: nat)

  datatype ExitKind = Return | Direct | Conditional | Call | Syscall

  datatype Operation = Operation(
    opcode: Opcode,
    width: Width,
    rip: u64,
    result: Option<ValueId>,
    lhs: Option<ValueId>,
    rhs: Option<ValueId>,
    third: Option<ValueId>,
    guestRegister: Reg,
    condition: Condition,
    exitKind: ExitKind,
    target: Option<u64>,
    fallthrough: Option<u64>,
    immediate: u64)

  datatype Block = Block(start: u64, operations: seq<Operation>, valueCount: nat)

  datatype GuestState = GuestState(regs: Registers, rip: u64, rflags: u64, memory: map<u64, byte>)

  /** What the model takes as given about the host: the value of a pure operation that is not
      spelled out below, which arithmetic flags a partial update replaces and by what, and the
      effect of an operation outside the modelled ones. */
  datatype Host = Host(
    compute: (Operation, u64, u64) -> u64,
    partial: (Operation, u64, u64, u64) -> Option<(u64, u64)>,
    other: (Operation, u64, u64, u64, GuestState) -> Effect)

  datatype Effect = Continue(value: u64, state: GuestState) | Fault(state: GuestState)

  datatype Outcome =
    | Faulted(faultRip: u64, state: GuestState)
    | Left(kind: ExitKind, state: GuestState)
    | FellOff

  // ----- values in flight

  /** Where a run keeps its SSA values: one cell per value, or the host registers that
      `assignment` gives them. */
  datatype Store =
    | Values(cells: map<ValueId, u64>)
    | HostRegisters(assignment: seq<nat>, contents: map<nat, u64>)

  function Read(store: Store, v: ValueId): u64 {
    match store
    case Values(cells) => if v in cells then cells[v] else 0
    case HostRegisters(assignment, contents) =>
      if v < |assignment| && assignment[v] in contents then contents[assignment[v]] else 0
  }

  function Write(store: Store, v: ValueId, x: u64): Store {
    match store
    case Values(cells) => Values(cells[v := x])
    case HostRegisters(assignment, contents) =>
      if v < |assignment| then HostRegisters(assignment, contents[assignment[v] := x]) else store
  }

  function Operand(store: Store, o: Option<ValueId>): u64 {
    if o.Some? then Read(store, o.value) else 0
  }

  function Define(store: Store, result: Option<ValueId>, x: u64): Store {
    if result.Some? then Write(store, result.value, x) else store
  }

  // ----- operations

  function PureValue(host: Host, op: Operation, a: u64, b: u64, st: GuestState): u64 {
    var narrow := op.width == I32;
    match op.opcode
    case Constant => if narrow then op.immediate % U32_LIMIT else op.immediate
    case ReadGuestReg => if narrow then st.regs[op.guestRegister] % U32_LIMIT else st.regs[op.guestRegister]
    case Add => if narrow then (a + b) % U32_LIMIT else Add64(a, b)
    case Sub => if narrow then (a - b) % U32_LIMIT else Sub64(a, b)
    case _ => host.compute(op, a, b)
  }

  /** Narrow writes keep the rest of the register; a 32-bit write clears the upper half. */
  function WriteRegister(regs: Registers, r: Reg, w: Width, x: u64): Registers {
    var current := regs[r];
    regs[r :=
      match w
      case I8 => current / 0x100 * 0x100 + x % 0x100
      case I16 => current / 0x1_0000 * 0x1_0000 + x % 0x1_0000
      case I32 => x % U32_LIMIT
      case I64 => x]
  }

  /** A 32-bit conditional move clears the upper half even when it moves nothing. */
  function ConditionalMove(op: Operation, a: u64, regs: Registers, taken: bool): Registers {
    var source := if op.lhs.Some? then a else regs[op.immediate % 16];
    var chosen := if taken then source else regs[op.guestRegister];
    regs[op.guestRegister := if op.width == I32 then chosen % U32_LIMIT else chosen]
  }

  function LoadBytes(memory: map<u64, byte>, address: u64, count: nat): Option<nat>
    decreases count
  {
    if count == 0 then Some(0)
    else if address !in memory then None
    else
      var rest := LoadBytes(memory, Add64(address, 1), count - 1);
      if rest.None? then None else Some(memory[address] + 0x100 * rest.value)
  }

  function StoreBytes(memory: map<u64, byte>, address: u64, x: nat, count: nat): map<u64, byte>
    decreases count
  {
    if count == 0 then memory
    else StoreBytes(memory[address := x % 0x100], Add64(address, 1), x / 0x100, count - 1)
  }

  function LoadValue(memory: map<u64, byte>, address: u64, w: Width): Option<u64> {
    var loaded := LoadBytes(memory, address, Bits(w) / 8);
    if loaded.None? then None else Some(loaded.value % U64_LIMIT)
  }

  /** The flags word after an update opcode. Addition, subtraction, carry, borrow, logic,
      increment and decrement are the emitted sequences and helpers of `FlagHelpers` and
      `InlineFlags`; shifts, rotates, multiplies and bit tests replace the arithmetic flags
      that the host says they do, or nothing. */
  function FlagsAfter(host: Host, op: Operation, a: u64, b: u64, c: u64, rflags: u64): u64 {
    match op.opcode
    case UpdateAddFlags => Materialise(rflags, InlineAddFormula(op.width, a, b, c))
    case UpdateAdcFlags => Materialise(rflags, AdcFormula(op.width, a, b, c))
    case UpdateSbbFlags => Materialise(rflags, SbbFormula(op.width, a, b, c))
    case UpdateSubFlags => Materialise(rflags, SubFormula(op.width, a, b, c))
    case UpdateLogicFlags => Materialise(rflags, LogicFormula(op.width, a))
    case UpdateIncFlags => MaterialiseKeepingCarry(rflags, StepFormula(op.width, true, a, b))
    case UpdateDecFlags => MaterialiseKeepingCarry(rflags, StepFormula(op.width, false, a, b))
    case _ =>
      var change := host.partial(op, a, b, c);
      if change.None? then rflags else ReplaceArithmetic(rflags, change.value.0, change.value.1)
  }

  function ReplaceArithmetic(rflags: u64, replaced: u64, bits: u64): u64 {
    AndBound(replaced, ARITHMETIC_MASK);
    AndBound(bits, ARITHMETIC_MASK);
    ReplaceSome(rflags, And(replaced, ARITHMETIC_MASK), And(bits, ARITHMETIC_MASK))
  }

  predicate IsFlagUpdate(opcode: Opcode) {
    opcode.UpdateAddFlags? || opcode.UpdateAdcFlags? || opcode.UpdateSbbFlags? || opcode.UpdateIncFlags? ||
    opcode.UpdateDecFlags? || opcode.UpdateSubFlags? || opcode.UpdateLogicFlags? || opcode.UpdateShiftLeftFlags? ||
    opcode.UpdateShiftRightFlags? || opcode.UpdateShiftRightArithmeticFlags? || opcode.UpdateRotateLeftFlags? ||
    opcode.UpdateRotateRightFlags? || opcode.UpdateMultiplyFlags? || opcode.UpdateSignedMultiplyFlags? ||
    opcode.UpdateShiftRightDoubleFlags? || opcode.UpdateBitTestFlags?
  }

  /** The operations that neither touch memory nor the flags word. */
  predicate IsPure(opcode: Opcode) {
    opcode.Constant? || opcode.ReadGuestReg? || opcode.WriteGuestReg? || opcode.Add? || opcode.Sub? ||
    opcode.ShiftLeft? || opcode.ShiftRightLogical? || opcode.ShiftRightArithmetic? || opcode.MultiplyLow? ||
    opcode.MultiplyHighUnsigned? || opcode.MultiplyHighSigned? || opcode.ShiftRightDouble? || opcode.BitAnd? ||
    opcode.BitOr? || opcode.BitXor? || opcode.SignExtend32? || opcode.ByteSwap?
  }

  /** The eager meaning of one operation on the values of its operands. */
  function Execute(host: Host, op: Operation, a: u64, b: u64, c: u64, st: GuestState): Effect {
    if op.opcode.WriteGuestReg? then
      Continue(0, st.(regs := WriteRegister(st.regs, op.guestRegister, op.width, a)))
    else if IsPure(op.opcode) then
      Continue(PureValue(host, op, a, b, st), st)
    else if IsFlagUpdate(op.opcode) then
      Continue(0, st.(rflags := FlagsAfter(host, op, a, b, c, st.rflags)))
    else
      match op.opcode
      case EvaluateCondition => Continue(if Holds(op.condition, st.rflags) then 1 else 0, st)
      case ConditionalMoveGuestReg =>
        Continue(0, st.(regs := ConditionalMove(op, a, st.regs, Holds(op.condition, st.rflags))))
      case LoadGuest =>
        var loaded := LoadValue(st.memory, a, op.width);
        if loaded.None? then Fault(st) else Continue(loaded.value, st)
      case StoreGuest =>
        if LoadValue(st.memory, a, op.width).None? then Fault(st)
        else Continue(0, st.(memory := StoreBytes(st.memory, a, b, Bits(op.width) / 8)))
      case _ => host.other(op, a, b, c, st)
  }

  /** The state an exit leaves: the next RIP, and for a system call the saved RIP and flags. */
  function ExitState(op: Operation, a: u64, st: GuestState, taken: bool): GuestState {
    var target := Address(op.target);
    match op.exitKind
    case Return => st.(rip := op.rip)
    case Direct => st.(rip := if op.lhs.Some? then a else target)
    case Call => st.(rip := if op.lhs.Some? then a else target)
    case Syscall => st.(rip := target, regs := st.regs[1 := target][11 := st.rflags])
    case Conditional => st.(rip := if taken then target else Address(op.fallthrough))
  }

  function Address(a: Option<u64>): u64 {
    if a.Some? then a.value else 0
  }

  /** How a pass over the operations stops: at a fault, or in front of an exit with the values
      and the state that the exit sees. */
  datatype Pass =
    | PassFault(faultRip: u64, state: GuestState)
    | AtExit(index: nat, store: Store, state: GuestState)
    | RanOff

  /** One pass over a block in which every flag update happens where it is written. */
  function EagerPass(host: Host, block: Block, i: nat, store: Store, st: GuestState): (p: Pass)
    requires i <= |block.operations|
    ensures p.AtExit? ==> i <= p.index < |block.operations| && block.operations[p.index].opcode.ExitBlock?
    decreases |block.operations| - i
  {
    if i == |block.operations| then RanOff
    else
      var op := block.operations[i];
      if op.opcode.ExitBlock? then AtExit(i, store, st)
      else
        match Execute(host, op, Operand(store, op.lhs), Operand(store, op.rhs), Operand(store, op.third), st)
        case Fault(s) => PassFault(op.rip, s)
        case Continue(x, s) => EagerPass(host, block, i + 1, Define(store, op.result, x), s)
  }

  /** Taking the exit, with conditions read from the flags word. */
  function TakeExit(block: Block, p: Pass): Outcome
    requires p.AtExit? ==> p.index < |block.operations|
  {
    match p
    case PassFault(rip, s) => Faulted(rip, s)
    case RanOff => FellOff
    case AtExit(i, store, s) =>
      var op := block.operations[i];
      Left(op.exitKind, ExitState(op, Operand(store, op.lhs), s, Holds(op.condition, s.rflags)))
  }

  /** The reference meaning of a block. */
  function EagerRun(host: Host, block: Block, st: GuestState): Outcome {
    TakeExit(block, EagerPass(host, block, 0, Values(map[]), st))
  }

  // ----- well-formed blocks

  function Uses(op: Operation): set<ValueId> {
    (if op.lhs.Some? then {op.lhs.value} else {}) +
    (if op.rhs.Some? then {op.rhs.value} else {}) +
    (if op.third.Some? then {op.third.value} else {})
  }

  /** The values that the first `i` operations define. */
  function Defined(block: Block, i: nat): set<ValueId>
    requires i <= |block.operations|
  {
    if i == 0 then {}
    else
      var r := block.operations[i - 1].result;
      Defined(block, i - 1) + (if r.Some? then {r.value} else {})
  }

  predicate HasOperands(op: Operation) {
    match op.opcode
    case UpdateAddFlags => op.lhs.Some? && op.rhs.Some? && op.third.Some?
    case UpdateSubFlags => op.lhs.Some? && op.rhs.Some? && op.third.Some?
    case UpdateAdcFlags => op.lhs.Some? && op.rhs.Some? && op.third.Some? && op.width != I16
    case UpdateSbbFlags => op.lhs.Some? && op.rhs.Some? && op.third.Some?
    case UpdateLogicFlags => op.lhs.Some?
    case ExitBlock =>
      (((op.exitKind == Call || op.exitKind == Direct) && op.lhs.Some?) || op.exitKind == Return || op.target.Some?) &&
      (op.exitKind == Conditional || op.exitKind == Call ==> op.fallthrough.Some?)
    case _ => true
  }

  /** What `ir::verify` accepts: values defined once, before use, inside the value table; one
      exit, at the end; and a flag update, as the builder makes it, defines no value. */
  ghost predicate WellFormed(block: Block) {
    (forall i | 0 <= i < |block.operations| :: OperationWellFormed(block, i)) &&
    |block.operations| > 0 &&
    (forall i | 0 <= i < |block.operations| :: block.operations[i].opcode.ExitBlock? <==> i == |block.operations| - 1)
  }

  predicate OperationWellFormed(block: Block, i: nat)
    requires i < |block.operations|
  {
    var op := block.operations[i];
    HasOperands(op) && Uses(op) <= Defined(block, i) && (IsFlagUpdate(op.opcode) ==> op.result.None?) &&
    (op.result.Some? ==> op.result.value < block.valueCount && op.result.value !in Defined(block, i))
  }

  lemma {:induction false} DefinedGrows(block: Block, i: nat, j: nat)
    requires i <= j <= |block.operations|
    ensures Defined(block, i) <= Defined(block, j)
    decreases j - i
  {
    if i < j { DefinedGrows(block, i, j - 1); }
  }

  /** A pure operation computes the same value and the same registers whatever the flags. */
  lemma PureIgnoresFlags(host: Host, op: Operation, a: u64, b: u64, c: u64, st: GuestState, rflags: u64)
    requires IsPure(op.opcode)
    ensures var e := Execute(host, op, a, b, c, st);
      e.Continue? && e.state.rflags == st.rflags && e.state.memory == st.memory &&
      Execute(host, op, a, b, c, st.(rflags := rflags)) == Continue(e.value, e.state.(rflags := rflags))
  {
  }

  /** No flag update changes a bit outside the arithmetic flags and the reserved one. */
  lemma UpdateKeepsSystem(host: Host, op: Operation, a: u64, b: u64, c: u64, rflags: u64)
    requires IsFlagUpdate(op.opcode)
    ensures SystemFlags(FlagsAfter(host, op, a, b, c, rflags)) == SystemFlags(rflags)
  {
    hide SystemFlags, Materialise, MaterialiseKeepingCarry;
    var o := op.opcode;
    if o.UpdateAddFlags? {
      SystemOfMaterialise(rflags, InlineAddFormula(op.width, a, b, c));
    } else if o.UpdateAdcFlags? {
      SystemOfMaterialise(rflags, AdcFormula(op.width, a, b, c));
    } else if o.UpdateSbbFlags? {
      SystemOfMaterialise(rflags, SbbFormula(op.width, a, b, c));
    } else if o.UpdateSubFlags? {
      SystemOfMaterialise(rflags, SubFormula(op.width, a, b, c));
    } else if o.UpdateLogicFlags? {
      SystemOfMaterialise(rflags, LogicFormula(op.width, a));
    } else if o.UpdateIncFlags? {
      StepIsPartial(rflags, op.width, true, a, b);
    } else if o.UpdateDecFlags? {
      StepIsPartial(rflags, op.width, false, a, b);
    } else {
      var change := host.partial(op, a, b, c);
      if change.Some? {
        SystemOfReplaceArithmetic(rflags, change.value.0, change.value.1);
      }
    }
  }

  lemma SystemOfReplaceArithmetic(rflags: u64, replaced: u64, bits: u64)
    ensures SystemFlags(ReplaceArithmetic(rflags, replaced, bits)) == SystemFlags(rflags)
  {
    AndBound(replaced, ARITHMETIC_MASK);
    AndBound(bits, ARITHMETIC_MASK);
    forall k: nat
      ensures Bit(And(replaced, ARITHMETIC_MASK), k) ==> IsArithmeticBit(k)
      ensures Bit(And(bits, ARITHMETIC_MASK), k) ==> IsArithmeticBit(k)
    {
      Words.BitAnd(replaced, ARITHMETIC_MASK, k);
      Words.BitAnd(bits, ARITHMETIC_MASK, k);
      ArithmeticMaskBits(k);
    }
    SystemOfReplaceSome(rflags, And(replaced, ARITHMETIC_MASK), And(bits, ARITHMETIC_MASK));
  }
}
