/** Answering an x86 condition from the host's own flags.

    A deferred exit compares the two operands with `cmp` and branches away when the x86
    condition is false. The host flags are those of section C1.2.4 of the Arm Architecture
    Reference Manual (DDI 0487), computed by its AddWithCarry. */
module Compare {
  import opened Words
  import opened Flags
  import opened FlagHelpers

  datatype Nzcv = Nzcv(n: bool, z: bool, c: bool, v: bool)

  datatype BranchCondition =
    | EQ | NE | HS | LO | MI | PL | VS | VC | HI | LS | GE | LT | GT | LE

  /** `cmp lhs, rhs` adds the complement of `rhs` with a carry of one. */
  function CompareFlags(lhs: u64, rhs: u64): Nzcv {
    var complement := U64_LIMIT - 1 - rhs;
    var unsignedSum := lhs + complement + 1;
    var signedSum := Signed(I64, lhs) + Signed(I64, complement) + 1;
    var result := unsignedSum % U64_LIMIT;
    Nzcv(result >= Half(I64), result == 0, unsignedSum != result, signedSum != Signed(I64, result))
  }

  predicate BranchTaken(b: BranchCondition, f: Nzcv) {
    match b
    case EQ => f.z
    case NE => !f.z
    case HS => f.c
    case LO => !f.c
    case MI => f.n
    case PL => !f.n
    case VS => f.v
    case VC => !f.v
    case HI => f.c && !f.z
    case LS => !(f.c && !f.z)
    case GE => f.n == f.v
    case LT => f.n != f.v
    case GT => !f.z && f.n == f.v
    case LE => !(!f.z && f.n == f.v)
  }

  /** The host has no parity flag. */
  predicate HasHostCondition(c: Condition) {
    c != ParityEven && c != ParityOdd
  }

  /** The branch to the not-taken side that a deferred exit emits. */
  function NotTakenBranch(c: Condition): BranchCondition
    requires HasHostCondition(c)
  {
    match c
    case Overflow => VC
    case NotOverflow => VS
    case Equal => NE
    case NotEqual => EQ
    case Below => HS
    case AboveOrEqual => LO
    case Above => LS
    case BelowOrEqual => HI
    case Sign => PL
    case NotSign => MI
    case Less => GE
    case GreaterOrEqual => LT
    case LessOrEqual => GT
    case Greater => LE
  }

  /** What each condition says about the compared numbers. */
  predicate Compares(c: Condition, lhs: u64, rhs: u64)
    requires HasHostCondition(c)
  {
    var difference := Signed(I64, lhs) - Signed(I64, rhs);
    match c
    case Overflow => !SignedFits(I64, difference)
    case NotOverflow => SignedFits(I64, difference)
    case Equal => lhs == rhs
    case NotEqual => lhs != rhs
    case Below => lhs < rhs
    case AboveOrEqual => lhs >= rhs
    case Above => lhs > rhs
    case BelowOrEqual => lhs <= rhs
    case Sign => Signed(I64, Sub64(lhs, rhs)) < 0
    case NotSign => Signed(I64, Sub64(lhs, rhs)) >= 0
    case Less => difference < 0
    case GreaterOrEqual => difference >= 0
    case LessOrEqual => difference <= 0
    case Greater => difference > 0
  }

  /** The table pairs each condition with the branch that negates it, when the host's N, Z, V
      are SF, ZF, OF and its C is the complement of CF. */
  lemma BranchNegates(c: Condition, f: Nzcv, a: Arith)
    requires HasHostCondition(c)
    requires f == Nzcv(a.sf, a.zf, !a.cf, a.of)
    ensures BranchTaken(NotTakenBranch(c), f) <==> !Means(c, a)
  {
  }

  lemma MeansComparison(c: Condition, lhs: u64, rhs: u64)
    requires HasHostCondition(c)
    ensures Means(c, DifferenceFlags(I64, lhs, rhs, 0)) <==> Compares(c, lhs, rhs)
  {
    assert lhs - rhs - 0 == lhs - rhs;
    WrapOnce(I64, lhs - rhs);
  }

  lemma SubtractFlagsExact(rflags: u64, lhs: u64, rhs: u64)
    ensures ArithOf(Materialise(rflags, SubFormula(I64, lhs, rhs, Sub64(lhs, rhs)))) ==
      DifferenceFlags(I64, lhs, rhs, 0)
  {
    NarrowIs64(lhs);
    NarrowIs64(rhs);
    NarrowIs64(Sub64(lhs, rhs));
    SubFormulaIsDifference(I64, lhs, rhs, Sub64(lhs, rhs));
    MaterialisedFlags(rflags, SubFormula(I64, lhs, rhs, Sub64(lhs, rhs)));
  }

  lemma HostFlagsMirror(lhs: u64, rhs: u64)
    ensures var a := DifferenceFlags(I64, lhs, rhs, 0);
      CompareFlags(lhs, rhs) == Nzcv(a.sf, a.zf, !a.cf, a.of)
  {
    assert lhs - rhs - 0 == lhs - rhs;
    WrapOnce(I64, lhs - rhs);
  }

  /** The host's answer, the flags word's answer and the comparison of numbers are one. */
  lemma DeferredConditionAgrees(c: Condition, rflags: u64, lhs: u64, rhs: u64)
    requires HasHostCondition(c)
    ensures var updated := Materialise(rflags, SubFormula(I64, lhs, rhs, Sub64(lhs, rhs)));
      Holds(c, updated) <==> !BranchTaken(NotTakenBranch(c), CompareFlags(lhs, rhs))
    ensures BranchTaken(NotTakenBranch(c), CompareFlags(lhs, rhs)) <==> !Compares(c, lhs, rhs)
  {
    var updated := Materialise(rflags, SubFormula(I64, lhs, rhs, Sub64(lhs, rhs)));
    SubtractFlagsExact(rflags, lhs, rhs);
    HostFlagsMirror(lhs, rhs);
    TestsMeanConditions(c, updated);
    BranchNegates(c, CompareFlags(lhs, rhs), DifferenceFlags(I64, lhs, rhs, 0));
    MeansComparison(c, lhs, rhs);
  }

  /** Parity cannot be answered so: equal host flags, different parity. */
  lemma ParityHasNoHostFlags()
    ensures CompareFlags(2, 1) == CompareFlags(4, 1)
    ensures EvenParity(Sub64(4, 1)) && !EvenParity(Sub64(2, 1))
  {
    assert PopCount(3) == 2;
    assert PopCount(1) == 1;
  }
}
