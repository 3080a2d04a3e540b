/** What the lowering makes of a program is a block that the verifier of the source accepts. */
module LoweredBlocks {
  import opened Options
  import opened Words
  import opened Flags
  import opened FlagHelpers
  import opened IR
  import opened X86
  import opened Lowering

  // ----- counting the values

  predicate AllAccepted(body: seq<Placed>) {
    forall i | 0 <= i < |body| :: Accepted(body[i].instruction)
  }

  predicate Known(v: Option<ValueId>, n: nat) { v.Some? ==> v.value < n }

  /** An operation that is no exit may stand behind `n` defined values, and defines the next one. */
  predicate FitsBehind(op: Operation, n: nat) {
    !op.opcode.ExitBlock? && HasOperands(op) && Known(op.lhs, n) && Known(op.rhs, n) && Known(op.third, n) &&
    (IsFlagUpdate(op.opcode) ==> op.result.None?) && (op.result.Some? ==> op.result.value == n)
  }

  function More(op: Operation): nat { if op.result.Some? then 1 else 0 }

  /** How many values are defined behind the operations, if all of them fit. */
  function Count(operations: seq<Operation>, n: nat): Option<nat>
    decreases |operations|
  {
    if operations == [] then Some(n)
    else if FitsBehind(operations[0], n) then Count(operations[1..], n + More(operations[0]))
    else None
  }

  lemma CountFirst(op: Operation, rest: seq<Operation>, n: nat)
    ensures Count([op] + rest, n) == if FitsBehind(op, n) then Count(rest, n + More(op)) else None
  {
    hide FitsBehind;
    assert ([op] + rest)[1..] == rest;
  }

  /** Counting goes operation by operation. */
  lemma CountRules()
    ensures forall op, rest, k: nat {:trigger Count([op] + rest, k)} ::
      Count([op] + rest, k) == if FitsBehind(op, k) then Count(rest, k + More(op)) else None
    ensures forall k: nat :: Count([], k) == Some(k)
  {
    hide FitsBehind;
    forall op, rest, k: nat
      ensures Count([op] + rest, k) == if FitsBehind(op, k) then Count(rest, k + More(op)) else None
    {
      CountFirst(op, rest, k);
    }
  }

  /** What each of the operations in a lowering needs to fit. */
  lemma ShapesFit()
    ensures forall rip, w, x: nat, r, k: nat {:trigger FitsBehind(ReadOp(rip, w, x, r), k)} ::
      FitsBehind(ReadOp(rip, w, x, r), k) == (x == k)
    ensures forall rip, w, x: nat, value, k: nat {:trigger FitsBehind(ConstantOp(rip, w, x, value), k)} ::
      FitsBehind(ConstantOp(rip, w, x, value), k) == (x == k)
    ensures forall rip, x: nat, c, k: nat {:trigger FitsBehind(ConditionOp(rip, x, c), k)} ::
      FitsBehind(ConditionOp(rip, x, c), k) == (x == k)
    ensures forall rip, w, x: nat, r, k: nat {:trigger FitsBehind(WriteOp(rip, w, x, r), k)} ::
      FitsBehind(WriteOp(rip, w, x, r), k) == (x < k)
    ensures forall rip, o: Opcode, w, x: nat, l: nat, r: nat, k: nat
      {:trigger FitsBehind(PairOp(rip, o, w, x, l, r), k)} ::
      o.Add? || o.Sub? || o.BitAnd? ==> FitsBehind(PairOp(rip, o, w, x, l, r), k) == (x == k && l < k && r < k)
    ensures forall rip, o: Opcode, w, l: nat, r: nat, t: Option<ValueId>, k: nat
      {:trigger FitsBehind(FlagsOp(rip, o, w, l, r, t), k)} ::
      o.UpdateIncFlags? || o.UpdateDecFlags? || (o.UpdateAdcFlags? && w != I16 && t.Some?) ||
      (o.UpdateAddFlags? && t.Some?) || (o.UpdateSbbFlags? && t.Some?) || (o.UpdateSubFlags? && t.Some?) ==>
      FitsBehind(FlagsOp(rip, o, w, l, r, t), k) == (l < k && r < k && Known(t, k))
  {
  }

  lemma ShapesDefine()
    ensures forall rip, w, x: nat, r :: More(ReadOp(rip, w, x, r)) == 1
    ensures forall rip, w, x: nat, value :: More(ConstantOp(rip, w, x, value)) == 1
    ensures forall rip, x: nat, c :: More(ConditionOp(rip, x, c)) == 1
    ensures forall rip, w, x: nat, r :: More(WriteOp(rip, w, x, r)) == 0
    ensures forall rip, o, w, x: nat, l: nat, r: nat :: More(PairOp(rip, o, w, x, l, r)) == 1
    ensures forall rip, o, w, l: nat, r: nat, t :: More(FlagsOp(rip, o, w, l, r, t)) == 0
  {
  }

  lemma MovesFit(i: Instruction, rip: u64, n: ValueId)
    requires Accepted(i) && (i.MovImm? || i.MovReg? || i.SetCc? || i.CmovCc? || i.ZeroReg?)
    ensures Count(Lower(i, rip, n), n) == Some(n + ValuesOf(i))
  {
    hide Count;
    CountRules();
  }

  lemma MemoryFits(i: Instruction, rip: u64, n: ValueId)
    requires Accepted(i) && (i.Load? || i.Store? || i.CmovLoad?)
    ensures Count(Lower(i, rip, n), n) == Some(n + ValuesOf(i))
  {
    hide Count;
    CountRules();
  }

  lemma TestFits(i: Instruction, rip: u64, n: ValueId)
    requires Accepted(i) && i.TestReg?
    ensures Count(Lower(i, rip, n), n) == Some(n + ValuesOf(i))
  {
    hide Count;
    CountRules();
  }

  lemma SumsFit(i: Instruction, rip: u64, n: ValueId)
    requires Accepted(i) && (i.AddReg? || i.SubReg? || i.CmpReg?)
    ensures Count(Lower(i, rip, n), n) == Some(n + ValuesOf(i))
  {
    hide Count, FitsBehind, More, ReadOp, ConstantOp, ConditionOp, WriteOp, PairOp, FlagsOp;
    CountRules();
    ShapesFit();
    ShapesDefine();
  }

  lemma NegatesFit(i: Instruction, rip: u64, n: ValueId)
    requires Accepted(i) && (i.NegReg? || i.SbbSame?)
    ensures Count(Lower(i, rip, n), n) == Some(n + ValuesOf(i))
  {
    hide Count, FitsBehind, More, ReadOp, ConstantOp, ConditionOp, WriteOp, PairOp, FlagsOp;
    CountRules();
    ShapesFit();
    ShapesDefine();
  }

  lemma CarriesFit(i: Instruction, rip: u64, n: ValueId)
    requires Accepted(i) && (i.AdcReg? || i.SbbImm?)
    ensures Count(Lower(i, rip, n), n) == Some(n + ValuesOf(i))
  {
    hide Count, FitsBehind, More, ReadOp, ConstantOp, ConditionOp, WriteOp, PairOp, FlagsOp;
    CountRules();
    ShapesFit();
    ShapesDefine();
  }

  lemma StepsFit(i: Instruction, rip: u64, n: ValueId)
    requires Accepted(i) && (i.DecReg? || (i.IncReg? && i.w != I32))
    ensures Count(Lower(i, rip, n), n) == Some(n + ValuesOf(i))
  {
    hide Count, FitsBehind, More, ReadOp, ConstantOp, ConditionOp, WriteOp, PairOp, FlagsOp;
    CountRules();
    ShapesFit();
    ShapesDefine();
  }

  lemma LongStepFits(i: Instruction, rip: u64, n: ValueId)
    requires Accepted(i) && (i.IncReg? && i.w == I32)
    ensures Count(Lower(i, rip, n), n) == Some(n + ValuesOf(i))
  {
    hide Count, FitsBehind, More, ReadOp, ConstantOp, ConditionOp, WriteOp, PairOp, FlagsOp;
    CountRules();
    ShapesFit();
    ShapesDefine();
  }

  lemma LoweredFits(i: Instruction, rip: u64, n: ValueId)
    requires Accepted(i)
    ensures Count(Lower(i, rip, n), n) == Some(n + ValuesOf(i))
  {
    hide Count, Lower;
    match i {
      case AddReg(_, _, _) => SumsFit(i, rip, n);
      case SubReg(_, _, _) => SumsFit(i, rip, n);
      case CmpReg(_, _, _) => SumsFit(i, rip, n);
      case NegReg(_, _) => NegatesFit(i, rip, n);
      case SbbSame(_, _) => NegatesFit(i, rip, n);
      case AdcReg(_, _, _) => CarriesFit(i, rip, n);
      case SbbImm(_, _, _) => CarriesFit(i, rip, n);
      case DecReg(_, _) => StepsFit(i, rip, n);
      case IncReg(w, _) => if w == I32 { LongStepFits(i, rip, n); } else { StepsFit(i, rip, n); }
      case Load(_, _, _) => MemoryFits(i, rip, n);
      case Store(_, _, _) => MemoryFits(i, rip, n);
      case CmovLoad(_, _, _, _) => MemoryFits(i, rip, n);
      case TestReg(_, _, _) => TestFits(i, rip, n);
      case _ => MovesFit(i, rip, n);
    }
  }

  lemma {:induction false} CountJoined(a: seq<Operation>, b: seq<Operation>, n: nat)
    ensures Count(a + b, n) == if Count(a, n).None? then None else Count(b, Count(a, n).value)
    decreases |a|
  {
    hide FitsBehind, More;
    if a == [] {
      assert a + b == b;
    } else {
      assert (a + b)[1..] == a[1..] + b;
      CountJoined(a[1..], b, n + More(a[0]));
    }
  }

  lemma {:induction false} BodyFits(body: seq<Placed>, n: ValueId)
    requires AllAccepted(body)
    ensures Count(LowerBody(body, n), n) == Some(n + BodyValues(body))
    decreases |body|
  {
    hide Count, Lower, ValuesOf, Accepted;
    if body == [] {
      CountRules();
    } else {
      var i, rip, k := body[0].instruction, body[0].rip, n + ValuesOf(body[0].instruction);
      LoweredFits(i, rip, n);
      BodyFits(body[1..], k);
      CountJoined(Lower(i, rip, n), LowerBody(body[1..], k), n);
    }
  }

  /** How many values the first `i` operations define. */
  function CountTo(block: Block, i: nat): Option<nat>
    requires i <= |block.operations|
  {
    Count(block.operations[..i], 0)
  }

  lemma CountStep(block: Block, i: nat)
    requires i < |block.operations|
    ensures CountTo(block, 0) == Some(0)
    ensures CountTo(block, i + 1) ==
      if CountTo(block, i).Some? && FitsBehind(block.operations[i], CountTo(block, i).value)
      then Some(CountTo(block, i).value + More(block.operations[i])) else None
  {
    hide Count, FitsBehind, More;
    var op := block.operations[i];
    assert block.operations[..i + 1] == block.operations[..i] + ([op] + []);
    CountJoined(block.operations[..i], [op] + [], 0);
    CountRules();
  }

  /** Values are numbered in the order in which they are defined. */
  lemma {:induction false} CountedAreDefined(block: Block, i: nat)
    requires i <= |block.operations| && CountTo(block, i).Some?
    ensures forall v: nat :: v in Defined(block, i) <==> v < CountTo(block, i).value
  {
    hide CountTo;
    if i > 0 {
      CountStep(block, i - 1);
      CountedAreDefined(block, i - 1);
    } else {
      CountRules();
      assert CountTo(block, 0) == Some(0) by { EmptyCount(block); }
    }
  }

  lemma EmptyCount(block: Block)
    ensures CountTo(block, 0) == Some(0)
  {
  }

  lemma {:induction false} CountsBefore(block: Block, i: nat, j: nat)
    requires i <= j <= |block.operations| && CountTo(block, j).Some?
    ensures CountTo(block, i).Some? && CountTo(block, i).value <= CountTo(block, j).value
    ensures i < j ==> FitsBehind(block.operations[i], CountTo(block, i).value) &&
                      CountTo(block, i).value + More(block.operations[i]) <= CountTo(block, j).value
    decreases j - i
  {
    hide CountTo, FitsBehind, More;
    if i < j {
      CountStep(block, j - 1);
      CountsBefore(block, i, j - 1);
    }
  }

  predicate EndsBehind(op: Operation, n: nat) {
    op.opcode.ExitBlock? && HasOperands(op) && Known(op.lhs, n) && op.rhs.None? && op.third.None? && op.result.None?
  }

  lemma FittingIsWellFormed(block: Block, i: nat)
    requires i < |block.operations| && CountTo(block, i).Some?
    requires var k := CountTo(block, i).value;
      (FitsBehind(block.operations[i], k) && k + More(block.operations[i]) <= block.valueCount) ||
      EndsBehind(block.operations[i], k)
    ensures OperationWellFormed(block, i)
  {
    hide CountTo, HasOperands;
    CountedAreDefined(block, i);
  }

  lemma CountedIsWellFormed(block: Block, m: nat)
    requires |block.operations| == m + 1 && CountTo(block, m) == Some(block.valueCount)
    requires EndsBehind(block.operations[m], block.valueCount)
    ensures WellFormed(block)
  {
    hide CountTo, FitsBehind, OperationWellFormed, More, HasOperands;
    forall i | 0 <= i <= m
      ensures OperationWellFormed(block, i)
      ensures block.operations[i].opcode.ExitBlock? <==> i == m
    {
      CountsBefore(block, i, m);
      FittingIsWellFormed(block, i);
      if i < m { NoExit(block.operations[i], CountTo(block, i).value); }
    }
  }

  lemma NoExit(op: Operation, n: nat)
    requires FitsBehind(op, n)
    ensures !op.opcode.ExitBlock?
  {
  }

  // ----- programs

  /** What the exit reads, in front of it. */
  function Reads(e: Exit, rip: u64, n: ValueId): seq<Operation> {
    if e.JumpReg? || e.CallReg? then [ReadOp(rip, I64, n, e.r)] + [] else []
  }

  lemma ExitShape(e: Exit, rip: u64, n: ValueId)
    ensures |LowerExit(e, rip, n)| == |Reads(e, rip, n)| + 1
    ensures LowerExit(e, rip, n)[..|Reads(e, rip, n)|] == Reads(e, rip, n)
    ensures EndsBehind(LowerExit(e, rip, n)[|Reads(e, rip, n)|], n + ExitValues(e))
    ensures Count(Reads(e, rip, n), n) == Some(n + ExitValues(e))
  {
    hide Count, FitsBehind, More;
    CountRules();
    ShapesFit();
    ShapesDefine();
  }

  /** The operations of a program in front of its exit. */
  function Front(p: Program): seq<Operation> {
    LowerBody(p.body, 0) + Reads(p.exit, p.exitRip, BodyValues(p.body))
  }

  lemma FrontFits(p: Program)
    requires AllAccepted(p.body)
    ensures var block, m := BlockOf(p), |Front(p)|;
      |block.operations| == m + 1 && block.operations[..m] == Front(p) &&
      CountTo(block, m) == Some(block.valueCount) &&
      block.operations[m] == LowerExit(p.exit, p.exitRip, BodyValues(p.body))[
        |Reads(p.exit, p.exitRip, BodyValues(p.body))|] &&
      EndsBehind(block.operations[m], block.valueCount)
  {
    hide Count, EndsBehind, LowerExit, Reads, ExitValues;
    var n := BodyValues(p.body);
    ExitShape(p.exit, p.exitRip, n);
    BodyFits(p.body, 0);
    CountJoined(LowerBody(p.body, 0), Reads(p.exit, p.exitRip, n), 0);
  }

  lemma LoweredIsWellFormed(p: Program)
    requires AllAccepted(p.body)
    ensures WellFormed(BlockOf(p))
  {
    hide WellFormed, EndsBehind, CountTo, Front, BlockOf;
    FrontFits(p);
    CountedIsWellFormed(BlockOf(p), |Front(p)|);
  }
}
