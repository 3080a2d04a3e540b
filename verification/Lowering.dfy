/** How those instructions are lowered to SSA operations. */
module Lowering {
  import opened Options
  import opened Words
  import opened Flags
  import opened FlagHelpers
  import opened IR
  import opened X86

  function Make(rip: u64, opcode: Opcode, w: Width, result: Option<ValueId>, lhs: Option<ValueId>, rhs: Option<ValueId>,
                third: Option<ValueId>): Operation
  {
    Operation(opcode, w, rip, result, lhs, rhs, third, 0, NotEqual, Return, None, None, 0)
  }

  function ConstantOp(rip: u64, w: Width, result: ValueId, value: u64): Operation {
    Make(rip, Constant, w, Some(result), None, None, None).(immediate := value)
  }

  function ReadOp(rip: u64, w: Width, result: ValueId, r: Reg): Operation {
    Make(rip, ReadGuestReg, w, Some(result), None, None, None).(guestRegister := r)
  }

  function WriteOp(rip: u64, w: Width, value: ValueId, r: Reg): Operation {
    Make(rip, WriteGuestReg, w, None, Some(value), None, None).(guestRegister := r)
  }

  function PairOp(rip: u64, opcode: Opcode, w: Width, result: ValueId, lhs: ValueId, rhs: ValueId): Operation {
    Make(rip, opcode, w, Some(result), Some(lhs), Some(rhs), None)
  }

  function FlagsOp(rip: u64, opcode: Opcode, w: Width, lhs: ValueId, rhs: ValueId, third: Option<ValueId>): Operation {
    Make(rip, opcode, w, None, Some(lhs), Some(rhs), third)
  }

  function ConditionOp(rip: u64, result: ValueId, c: Condition): Operation {
    Make(rip, EvaluateCondition, I8, Some(result), None, None, None).(condition := c)
  }

  /** Increments and decrements write a whole register at 32 bits, after cutting the value. */
  function StepWidth(w: Width): Width { if w == I32 then I64 else w }

  /** The operations of one instruction, whose values are numbered from `n`. */
  function Lower(i: Instruction, rip: u64, n: ValueId): seq<Operation> {
    match i
    case MovImm(w, d, value) => [ConstantOp(rip, w, n, value)] + ([WriteOp(rip, w, n, d)] + [])
    case MovReg(w, d, s) => [ReadOp(rip, w, n, s)] + ([WriteOp(rip, w, n, d)] + [])
    case Load(w, d, base) =>
      [ReadOp(rip, I64, n, base)] + ([Make(rip, LoadGuest, w, Some(n + 1), Some(n), None, None)] +
      ([WriteOp(rip, w, n + 1, d)] + []))
    case Store(w, base, s) =>
      [ReadOp(rip, I64, n, base)] + ([ReadOp(rip, w, n + 1, s)] +
      ([Make(rip, StoreGuest, w, None, Some(n), Some(n + 1), None)] + []))
    case AddReg(w, d, s) =>
      [ReadOp(rip, w, n, d)] + ([ReadOp(rip, w, n + 1, s)] + ([PairOp(rip, Add, w, n + 2, n, n + 1)] +
      ([WriteOp(rip, w, n + 2, d)] + ([FlagsOp(rip, UpdateAddFlags, w, n, n + 1, Some(n + 2))] + []))))
    case SubReg(w, d, s) =>
      [ReadOp(rip, w, n, d)] + ([ReadOp(rip, w, n + 1, s)] + ([PairOp(rip, Sub, w, n + 2, n, n + 1)] +
      ([WriteOp(rip, w, n + 2, d)] + ([FlagsOp(rip, UpdateSubFlags, w, n, n + 1, Some(n + 2))] + []))))
    case CmpReg(w, d, s) =>
      [ReadOp(rip, w, n, d)] + ([ReadOp(rip, w, n + 1, s)] + ([PairOp(rip, Sub, w, n + 2, n, n + 1)] +
      ([FlagsOp(rip, UpdateSubFlags, w, n, n + 1, Some(n + 2))] + [])))
    case NegReg(w, d) =>
      [ConstantOp(rip, w, n, 0)] + ([ReadOp(rip, w, n + 1, d)] + ([PairOp(rip, Sub, w, n + 2, n, n + 1)] +
      ([WriteOp(rip, w, n + 2, d)] + ([FlagsOp(rip, UpdateSubFlags, w, n, n + 1, Some(n + 2))] + []))))
    case AdcReg(w, d, s) =>
      [ReadOp(rip, w, n, d)] + ([ReadOp(rip, w, n + 1, s)] + ([ConditionOp(rip, n + 2, Below)] +
      ([PairOp(rip, Add, w, n + 3, n, n + 1)] + ([PairOp(rip, Add, w, n + 4, n + 3, n + 2)] +
      ([WriteOp(rip, w, n + 4, d)] + ([FlagsOp(rip, UpdateAdcFlags, w, n, n + 1, Some(n + 2))] + []))))))
    case SbbSame(w, d) =>
      [ConditionOp(rip, n, Below)] + ([ConstantOp(rip, w, n + 1, 0)] + ([PairOp(rip, Sub, w, n + 2, n + 1, n)] +
      ([WriteOp(rip, w, n + 2, d)] + ([FlagsOp(rip, UpdateSubFlags, w, n + 1, n, Some(n + 2))] + []))))
    case SbbImm(w, d, value) =>
      [ReadOp(rip, w, n, d)] + ([ConditionOp(rip, n + 1, Below)] + ([ConstantOp(rip, w, n + 2, value)] +
      ([PairOp(rip, Add, w, n + 3, n + 2, n + 1)] + ([PairOp(rip, Sub, w, n + 4, n, n + 3)] +
      ([WriteOp(rip, w, n + 4, d)] + ([FlagsOp(rip, UpdateSbbFlags, w, n, n + 2, Some(n + 1))] + []))))))
    case IncReg(w, d) =>
      [ReadOp(rip, w, n, d)] + ([ConstantOp(rip, w, n + 1, 1)] + ([PairOp(rip, Add, w, n + 2, n, n + 1)] +
      (if w == I32 then
        [ConstantOp(rip, I64, n + 3, 0xFFFF_FFFF)] + ([PairOp(rip, BitAnd, I64, n + 4, n + 2, n + 3)] +
        ([WriteOp(rip, I64, n + 4, d)] + ([FlagsOp(rip, UpdateIncFlags, w, n, n + 4, None)] + [])))
       else [WriteOp(rip, w, n + 2, d)] + ([FlagsOp(rip, UpdateIncFlags, w, n, n + 2, None)] + []))))
    case DecReg(w, d) =>
      [ReadOp(rip, w, n, d)] + ([ConstantOp(rip, w, n + 1, 1)] + ([PairOp(rip, Sub, w, n + 2, n, n + 1)] +
      ([WriteOp(rip, StepWidth(w), n + 2, d)] + ([FlagsOp(rip, UpdateDecFlags, w, n, n + 2, None)] + []))))
    case TestReg(w, d, s) =>
      [ReadOp(rip, w, n, d)] + ([ReadOp(rip, w, n + 1, s)] + ([PairOp(rip, BitAnd, w, n + 2, n, n + 1)] +
      ([Make(rip, UpdateLogicFlags, w, None, Some(n + 2), None, None)] + [])))
    case ZeroReg(w, d) =>
      [ConstantOp(rip, w, n, 0)] + ([WriteOp(rip, w, n, d)] +
      ([Make(rip, UpdateLogicFlags, w, None, Some(n), None, None)] + []))
    case SetCc(c, d) => [ConditionOp(rip, n, c)] + ([WriteOp(rip, I8, n, d)] + [])
    case CmovCc(w, c, d, s) =>
      [Make(rip, ConditionalMoveGuestReg, w, None, None, None, None)
        .(guestRegister := d, condition := c, immediate := s)] + []
    case CmovLoad(w, c, d, base) =>
      [ReadOp(rip, I64, n, base)] + ([Make(rip, LoadGuest, w, Some(n + 1), Some(n), None, None)] +
      ([Make(rip, ConditionalMoveGuestReg, w, None, Some(n + 1), None, None)
          .(guestRegister := d, condition := c)] + []))
  }

  /** How many values they define. */
  function ValuesOf(i: Instruction): nat {
    match i
    case MovImm(_, _, _) => 1
    case MovReg(_, _, _) => 1
    case Load(_, _, _) => 2
    case Store(_, _, _) => 2
    case AdcReg(_, _, _) => 5
    case SbbImm(_, _, _) => 5
    case IncReg(w, _) => if w == I32 then 5 else 3
    case ZeroReg(_, _) => 1
    case SetCc(_, _) => 1
    case CmovCc(_, _, _, _) => 0
    case CmovLoad(_, _, _, _) => 2
    case _ => 3
  }

  function LowerBody(body: seq<Placed>, n: ValueId): seq<Operation>
    decreases |body|
  {
    if body == [] then []
    else
      Lower(body[0].instruction, body[0].rip, n) + LowerBody(body[1..], n + ValuesOf(body[0].instruction))
  }

  function BodyValues(body: seq<Placed>): nat {
    if body == [] then 0 else ValuesOf(body[0].instruction) + BodyValues(body[1..])
  }

  function ExitOp(rip: u64, kind: ExitKind, lhs: Option<ValueId>, target: Option<u64>,
                  fallthrough: Option<u64>): Operation
  {
    Make(rip, ExitBlock, I64, None, lhs, None, None).(exitKind := kind, target := target, fallthrough := fallthrough)
  }

  function LowerExit(e: Exit, rip: u64, n: ValueId): seq<Operation> {
    match e
    case Jump(target) => [ExitOp(rip, Direct, None, Some(target), None)]
    case JumpReg(r) => [ReadOp(rip, I64, n, r)] + [ExitOp(rip, Direct, Some(n), None, None)]
    case JumpIf(c, target, next) => [ExitOp(rip, Conditional, None, Some(target), Some(next)).(condition := c)]
    case CallTo(target, next) => [ExitOp(rip, Call, None, Some(target), Some(next))]
    case CallReg(r, next) => [ReadOp(rip, I64, n, r)] + [ExitOp(rip, Call, Some(n), None, Some(next))]
    case SystemCall(next) => [ExitOp(rip, Syscall, None, Some(next), None)]
    case Ret => [ExitOp(rip, Return, None, None, None)]
  }

  function ExitValues(e: Exit): nat { if e.JumpReg? || e.CallReg? then 1 else 0 }

  /** The block of a program. */
  function BlockOf(p: Program): Block {
    var n := BodyValues(p.body);
    Block(p.start, LowerBody(p.body, 0) + LowerExit(p.exit, p.exitRip, n), n + ExitValues(p.exit))
  }
}
