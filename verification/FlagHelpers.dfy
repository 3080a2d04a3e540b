/** The flag helpers that generated code calls, against integer definitions of the flags. */
module FlagHelpers {
  import opened Words
  import opened Flags

  datatype Width = I8 | I16 | I32 | I64

  function Bits(w: Width): nat {
    match w case I8 => 8 case I16 => 16 case I32 => 32 case I64 => 64
  }

  function Modulus(w: Width): (m: nat)
    ensures m >= 0x100
  {
    match w case I8 => 0x100 case I16 => 0x1_0000 case I32 => U32_LIMIT case I64 => U64_LIMIT
  }

  function Half(w: Width): (h: nat)
    ensures 2 * h == Modulus(w)
  {
    match w case I8 => 0x80 case I16 => 0x8000 case I32 => 0x8000_0000 case I64 => 0x8000_0000_0000_0000
  }

  /** The narrowing cast of a helper's argument. */
  function Narrow(w: Width, x: nat): (r: nat)
    ensures r < Modulus(w) <= U64_LIMIT
  {
    x % Modulus(w)
  }

  /** The value of a word read as a two's complement number. */
  function Signed(w: Width, x: nat): int {
    if x < Half(w) then x else x - Modulus(w)
  }

  predicate SignedFits(w: Width, v: int) {
    0 - Half(w) <= v < Half(w)
  }

  function PopCount(x: nat): nat {
    if x == 0 then 0 else x % 2 + PopCount(x / 2)
  }

  predicate EvenParity(x: nat) {
    PopCount(x % 0x100) % 2 == 0
  }

  // ----- integer definitions

  /** The flags of `l + r + c`. */
  function SumFlags(w: Width, l: nat, r: nat, c: nat): Arith {
    var total := l + r + c;
    var result := total % Modulus(w);
    Arith(total >= Modulus(w), EvenParity(result), l % 16 + r % 16 + c >= 16, result == 0,
      Signed(w, result) < 0, !SignedFits(w, Signed(w, l) + Signed(w, r) + c))
  }

  /** The flags of `l - r - b`. */
  function DifferenceFlags(w: Width, l: nat, r: nat, b: nat): Arith {
    var result := (l - r - b) % Modulus(w);
    Arith(l < r + b, EvenParity(result), l % 16 < r % 16 + b, result == 0,
      Signed(w, result) < 0, !SignedFits(w, Signed(w, l) - Signed(w, r) - b))
  }

  function LogicFlags(w: Width, result: nat): Arith {
    Arith(false, EvenParity(result), false, result == 0, Signed(w, result) < 0, false)
  }

  // ----- the helpers' formulas

  function XorWord(w: Width, a: nat, b: nat): (x: nat)
    requires a < Modulus(w) && b < Modulus(w)
    ensures x < Modulus(w)
  {
    WordPowers();
    XorBound(a, b, Bits(w));
    Xor(a, b)
  }

  predicate TopBit(w: Width, x: nat) { Bit(x, Bits(w) - 1) }

  /** The addition overflow test: both operands differ from the result in the top bit. */
  predicate AddOverflows(w: Width, l: nat, r: nat, result: nat)
    requires l < Modulus(w) && r < Modulus(w) && result < Modulus(w)
  {
    TopBit(w, And(Modulus(w) - 1 - XorWord(w, l, r), Xor(l, result)))
  }

  predicate SubOverflows(w: Width, l: nat, r: nat, result: nat) {
    TopBit(w, And(Xor(l, r), Xor(l, result)))
  }

  predicate NibbleCrossed(l: nat, r: nat, result: nat) {
    And(Xor(Xor(l, r), result), 0x10) != 0
  }

  function AddFormula(w: Width, lhsValue: u64, rhsValue: u64, resultValue: u64): Arith {
    var l, r, result := Narrow(w, lhsValue), Narrow(w, rhsValue), Narrow(w, resultValue);
    Arith(if w == I64 then result < l else l + r > Modulus(w) - 1, EvenParity(result),
      NibbleCrossed(l, r, result), result == 0, result / Half(w) != 0, AddOverflows(w, l, r, result))
  }

  function SubFormula(w: Width, lhsValue: u64, rhsValue: u64, resultValue: u64): Arith {
    var l, r, result := Narrow(w, lhsValue), Narrow(w, rhsValue), Narrow(w, resultValue);
    Arith(l < r, EvenParity(result), NibbleCrossed(l, r, result), result == 0, result / Half(w) != 0,
      SubOverflows(w, l, r, result))
  }

  /** The source has helpers for 8, 32 and 64 bits. */
  function AdcFormula(w: Width, lhsValue: u64, rhsValue: u64, carryValue: u64): Arith {
    var l, r, carry := Narrow(w, lhsValue), Narrow(w, rhsValue), carryValue % 2;
    var nibble := l % 16 + r % 16 + carry > 0xF;
    if w == I64 then
      var sum := Add64(l, r);
      var result := Add64(sum, carry);
      Arith(sum < l || result < sum, EvenParity(result), nibble, result == 0, result / Half(w) != 0,
        AddOverflows(w, l, r, result))
    else
      var wide := l + r + carry;
      var result := Narrow(w, wide);
      Arith(wide > Modulus(w) - 1, EvenParity(result), nibble, result == 0, result / Half(w) != 0,
        !SignedFits(w, Signed(w, l) + Signed(w, r) + carry))
  }

  function SbbFormula(w: Width, lhsValue: u64, rhsValue: u64, borrowValue: u64): Arith {
    var l, r, borrow := Narrow(w, lhsValue), Narrow(w, rhsValue), borrowValue % 2;
    var subtrahend := if w == I64 then Add64(r, borrow) else r + borrow;
    var result := (l - subtrahend) % Modulus(w);
    Arith(if w == I64 then subtrahend < r || l < subtrahend else l < subtrahend, EvenParity(result),
      NibbleCrossed(l, r, result), result == 0, result / Half(w) != 0, SubOverflows(w, l, r, result))
  }

  function LogicFormula(w: Width, resultValue: u64): Arith {
    var result := Narrow(w, resultValue);
    Arith(false, EvenParity(result), false, result == 0, result / Half(w) != 0, false)
  }

  /** The flags of an increment or decrement; the carry field is not used. */
  function StepFormula(w: Width, up: bool, originalValue: u64, resultValue: u64): Arith {
    var original, result := Narrow(w, originalValue), Narrow(w, resultValue);
    Arith(false, EvenParity(result), NibbleCrossed(original, 1, result), result == 0,
      result / Half(w) != 0, original == if up then Half(w) - 1 else Half(w))
  }

  /** What an update that keeps CF starts from. */
  function CarryBase(rflags: u64): u64 {
    AndBound(rflags, KEEP_MASK + CARRY);
    Or64(And(rflags, KEEP_MASK + CARRY), RESERVED_ONE);
    Or(And(rflags, KEEP_MASK + CARRY), RESERVED_ONE)
  }

  function MaterialiseKeepingCarry(rflags: u64, a: Arith): u64 {
    WithArith(CarryBase(rflags), a.(cf := false))
  }

  function StepResult(w: Width, up: bool, original: nat): nat {
    (if up then original + 1 else original - 1) % Modulus(w)
  }

  function StepFlags(w: Width, up: bool, original: nat): Arith {
    if up then SumFlags(w, original, 1, 0) else DifferenceFlags(w, original, 1, 0)
  }

  /** Given the true result, every flag but CF is that of adding or subtracting one. */
  predicate StepIsExact(before: u64, after: u64, w: Width, up: bool, originalValue: u64, resultValue: u64) {
    Narrow(w, resultValue) == StepResult(w, up, Narrow(w, originalValue)) ==>
      ArithOf(after) == StepFlags(w, up, Narrow(w, originalValue)).(cf := Bit(before, 0))
  }

  // ----- the helpers

  class X86State {
    var rflags: u64
    constructor ()
      ensures rflags == 0x2
    {
      rflags := 0x2;
    }
  }

  method UpdateAddFlags(state: X86State, w: Width, lhsValue: u64, rhsValue: u64, resultValue: u64)
    modifies state
    ensures state.rflags == Materialise(old(state.rflags), AddFormula(w, lhsValue, rhsValue, resultValue))
    ensures Narrow(w, resultValue) == Narrow(w, lhsValue + rhsValue) ==>
      ArithOf(state.rflags) == SumFlags(w, Narrow(w, lhsValue), Narrow(w, rhsValue), 0)
  {
    var l, r, result := Narrow(w, lhsValue), Narrow(w, rhsValue), Narrow(w, resultValue);
    var flags := SystemFlags(state.rflags);
    if (if w == I64 then result < l else l + r > Modulus(w) - 1) {
      flags := SetIf(flags, true, CARRY);
    }
    if PopCount(result % 0x100) % 2 == 0 {
      flags := SetIf(flags, true, PARITY);
    }
    if And(Xor(Xor(l, r), result), 0x10) != 0 {
      flags := SetIf(flags, true, AUXILIARY);
    }
    if result == 0 {
      flags := SetIf(flags, true, ZERO);
    }
    if result / Half(w) != 0 {
      flags := SetIf(flags, true, SIGN);
    }
    if AddOverflows(w, l, r, result) {
      flags := SetIf(flags, true, OVERFLOW);
    }
    MaterialisedFlags(state.rflags, AddFormula(w, lhsValue, rhsValue, resultValue));
    if Narrow(w, resultValue) == Narrow(w, lhsValue + rhsValue) {
      AddFormulaIsSum(w, lhsValue, rhsValue, resultValue);
    }
    state.rflags := flags;
  }

  method UpdateSubFlags(state: X86State, w: Width, lhsValue: u64, rhsValue: u64, resultValue: u64)
    modifies state
    ensures state.rflags == Materialise(old(state.rflags), SubFormula(w, lhsValue, rhsValue, resultValue))
    ensures Narrow(w, resultValue) == (lhsValue - rhsValue) % Modulus(w) ==>
      ArithOf(state.rflags) == DifferenceFlags(w, Narrow(w, lhsValue), Narrow(w, rhsValue), 0)
  {
    var l, r, result := Narrow(w, lhsValue), Narrow(w, rhsValue), Narrow(w, resultValue);
    var flags := SystemFlags(state.rflags);
    if l < r {
      flags := SetIf(flags, true, CARRY);
    }
    if PopCount(result % 0x100) % 2 == 0 {
      flags := SetIf(flags, true, PARITY);
    }
    if And(Xor(Xor(l, r), result), 0x10) != 0 {
      flags := SetIf(flags, true, AUXILIARY);
    }
    if result == 0 {
      flags := SetIf(flags, true, ZERO);
    }
    if result / Half(w) != 0 {
      flags := SetIf(flags, true, SIGN);
    }
    if SubOverflows(w, l, r, result) {
      flags := SetIf(flags, true, OVERFLOW);
    }
    MaterialisedFlags(state.rflags, SubFormula(w, lhsValue, rhsValue, resultValue));
    if Narrow(w, resultValue) == (lhsValue - rhsValue) % Modulus(w) {
      SubFormulaIsDifference(w, lhsValue, rhsValue, resultValue);
    }
    state.rflags := flags;
  }

  method UpdateAdcFlags64(state: X86State, lhs: u64, rhs: u64, carryValue: u64)
    modifies state
    ensures state.rflags == Materialise(old(state.rflags), AdcFormula(I64, lhs, rhs, carryValue))
    ensures ArithOf(state.rflags) == SumFlags(I64, lhs, rhs, carryValue % 2)
  {
    var carry := carryValue % 2;
    var sum := Add64(lhs, rhs);
    var result := Add64(sum, carry);
    var flags := SystemFlags(state.rflags);
    if sum < lhs || result < sum {
      flags := SetIf(flags, true, CARRY);
    }
    if PopCount(result % 0x100) % 2 == 0 {
      flags := SetIf(flags, true, PARITY);
    }
    if lhs % 16 + rhs % 16 + carry > 0xF {
      flags := SetIf(flags, true, AUXILIARY);
    }
    if result == 0 {
      flags := SetIf(flags, true, ZERO);
    }
    if result / Half(I64) != 0 {
      flags := SetIf(flags, true, SIGN);
    }
    if AddOverflows(I64, lhs, rhs, result) {
      flags := SetIf(flags, true, OVERFLOW);
    }
    var formula := AdcFormula(I64, lhs, rhs, carryValue);
    AdcFormula64(lhs, rhs, carryValue, sum, result);
    MaterialisedFlags(state.rflags, formula);
    AdcFormulaIsSum(I64, lhs, rhs, carryValue);
    NarrowIs64(lhs);
    NarrowIs64(rhs);
    state.rflags := flags;
  }

  method UpdateSbbFlags64(state: X86State, lhs: u64, rhs: u64, borrowValue: u64)
    modifies state
    ensures state.rflags == Materialise(old(state.rflags), SbbFormula(I64, lhs, rhs, borrowValue))
    ensures ArithOf(state.rflags) == DifferenceFlags(I64, lhs, rhs, borrowValue % 2)
  {
    var borrow := borrowValue % 2;
    var subtrahend := Add64(rhs, borrow);
    var result := Sub64(lhs, subtrahend);
    var flags := SystemFlags(state.rflags);
    if subtrahend < rhs || lhs < subtrahend {
      flags := SetIf(flags, true, CARRY);
    }
    if PopCount(result % 0x100) % 2 == 0 {
      flags := SetIf(flags, true, PARITY);
    }
    if And(Xor(Xor(lhs, rhs), result), 0x10) != 0 {
      flags := SetIf(flags, true, AUXILIARY);
    }
    if result == 0 {
      flags := SetIf(flags, true, ZERO);
    }
    if result / Half(I64) != 0 {
      flags := SetIf(flags, true, SIGN);
    }
    if SubOverflows(I64, lhs, rhs, result) {
      flags := SetIf(flags, true, OVERFLOW);
    }
    var formula := SbbFormula(I64, lhs, rhs, borrowValue);
    SbbFormula64(lhs, rhs, borrowValue, subtrahend, result);
    MaterialisedFlags(state.rflags, formula);
    SbbFormulaIsDifference(I64, lhs, rhs, borrowValue);
    NarrowIs64(lhs);
    NarrowIs64(rhs);
    state.rflags := flags;
  }

  method UpdateLogicFlags(state: X86State, w: Width, resultValue: u64)
    modifies state
    ensures state.rflags == Materialise(old(state.rflags), LogicFormula(w, resultValue))
    ensures ArithOf(state.rflags) == LogicFlags(w, Narrow(w, resultValue))
  {
    var result := Narrow(w, resultValue);
    var flags := SystemFlags(state.rflags);
    if PopCount(result % 0x100) % 2 == 0 {
      flags := SetIf(flags, true, PARITY);
    }
    if result == 0 {
      flags := SetIf(flags, true, ZERO);
    }
    if result / Half(w) != 0 {
      flags := SetIf(flags, true, SIGN);
    }
    MaterialisedFlags(state.rflags, LogicFormula(w, resultValue));
    SignByDivision(w, result);
    state.rflags := flags;
  }

  /** `updateIncFlags` and `updateDecFlags`: the carry flag of the old word survives. */
  method UpdateStepFlags(state: X86State, w: Width, up: bool, originalValue: u64, resultValue: u64)
    modifies state
    ensures state.rflags ==
      MaterialiseKeepingCarry(old(state.rflags), StepFormula(w, up, originalValue, resultValue))
    ensures SystemFlags(state.rflags) == SystemFlags(old(state.rflags))
    ensures StepIsExact(old(state.rflags), state.rflags, w, up, originalValue, resultValue)
  {
    var original, result := Narrow(w, originalValue), Narrow(w, resultValue);
    var flags := CarryBase(state.rflags);
    if PopCount(result % 0x100) % 2 == 0 {
      flags := SetIf(flags, true, PARITY);
    }
    if And(Xor(Xor(original, 1), result), 0x10) != 0 {
      flags := SetIf(flags, true, AUXILIARY);
    }
    if result == 0 {
      flags := SetIf(flags, true, ZERO);
    }
    if result / Half(w) != 0 {
      flags := SetIf(flags, true, SIGN);
    }
    if original == if up then Half(w) - 1 else Half(w) {
      flags := SetIf(flags, true, OVERFLOW);
    }
    StepIsPartial(state.rflags, w, up, originalValue, resultValue);
    state.rflags := flags;
  }

  // ----- the formulas are the integer definitions

  lemma TopBitByDivision(w: Width, x: nat)
    ensures TopBit(w, x) <==> x / Half(w) % 2 == 1
  {
    WordPowers();
    BitByDivision(x, Bits(w) - 1, Half(w));
  }

  lemma SignByDivision(w: Width, x: nat)
    requires x < Modulus(w)
    ensures x / Half(w) != 0 <==> Signed(w, x) < 0
    ensures TopBit(w, x) <==> Signed(w, x) < 0
  {
    TopBitByDivision(w, x);
  }

  /** The nibble test looks at digit 4 of the three-way exclusive or. */
  lemma NibbleIsBit(l: nat, r: nat, result: nat)
    ensures NibbleCrossed(l, r, result) <==> Bit(Xor(Xor(l, r), result), 4)
  {
    var x := Xor(Xor(l, r), result);
    AndField(x, 4, 1);
    assert Shl(1, 4) == 0x10;
    BitOfShr(x, 4, 0);
  }

  lemma NibbleByDivision(l: nat, r: nat, result: nat)
    ensures NibbleCrossed(l, r, result) <==> (l / 16 + r / 16 + result / 16) % 2 == 1
  {
    NibbleIsBit(l, r, result);
    BitXor(Xor(l, r), result, 4);
    BitXor(l, r, 4);
    Digit4(l);
    Digit4(r);
    Digit4(result);
    ParityOfThree(l / 16, r / 16, result / 16);
  }

  lemma ParityOfThree(a: nat, b: nat, c: nat)
    ensures (a + b + c) % 2 == 1 <==> ((a % 2 == 1) != (b % 2 == 1)) != (c % 2 == 1)
  {
  }

  lemma Digit4(x: nat)
    ensures Bit(x, 4) <==> x / 16 % 2 == 1
  {
    SmallPowers();
    BitByDivision(x, 4, 16);
  }

  /** Reduction of a sum or difference that leaves the word at most once. */
  lemma WrapOnce(w: Width, t: int)
    requires 0 - Modulus(w) <= t < 2 * Modulus(w)
    ensures t % Modulus(w) == if t < 0 then t + Modulus(w) else if t < Modulus(w) then t else t - Modulus(w)
  {
  }

  lemma CarryOutOfNibble(l: nat, r: nat, c: nat, result: nat, k: int)
    requires c <= 1 && result == l + r + c - 32 * k
    ensures (l / 16 + r / 16 + result / 16) % 2 == 1 <==> l % 16 + r % 16 + c >= 16
  {
    var carry := if l % 16 + r % 16 + c >= 16 then 1 else 0;
    assert result / 16 == l / 16 + r / 16 + carry - 2 * k;
  }

  lemma BorrowIntoNibble(l: nat, r: nat, b: nat, result: nat, k: int)
    requires b <= 1 && result == l - r - b + 32 * k
    ensures (l / 16 + r / 16 + result / 16) % 2 == 1 <==> l % 16 < r % 16 + b
  {
    var borrow := if l % 16 < r % 16 + b then 1 else 0;
    assert result / 16 == l / 16 - r / 16 - borrow + 2 * k;
  }

  lemma ModulusIsMultiple(w: Width)
    ensures Modulus(w) == 32 * (Modulus(w) / 32)
  {
  }

  lemma NibbleOfSum(w: Width, l: nat, r: nat, c: nat)
    requires l < Modulus(w) && r < Modulus(w) && c <= 1
    ensures NibbleCrossed(l, r, (l + r + c) % Modulus(w)) <==> l % 16 + r % 16 + c >= 16
  {
    var result := (l + r + c) % Modulus(w);
    WrapOnce(w, l + r + c);
    ModulusIsMultiple(w);
    NibbleByDivision(l, r, result);
    CarryOutOfNibble(l, r, c, result, if l + r + c < Modulus(w) then 0 else Modulus(w) / 32);
  }

  lemma NibbleOfDifference(w: Width, l: nat, r: nat, b: nat)
    requires l < Modulus(w) && r < Modulus(w) && b <= 1
    ensures NibbleCrossed(l, r, (l - r - b) % Modulus(w)) <==> l % 16 < r % 16 + b
  {
    var result := (l - r - b) % Modulus(w);
    WrapOnce(w, l - r - b);
    ModulusIsMultiple(w);
    NibbleByDivision(l, r, result);
    BorrowIntoNibble(l, r, b, result, if l - r - b >= 0 then 0 else Modulus(w) / 32);
  }

  lemma TopBitOfXor(w: Width, a: nat, b: nat)
    requires a < Modulus(w) && b < Modulus(w)
    ensures TopBit(w, Xor(a, b)) <==> (Signed(w, a) < 0) != (Signed(w, b) < 0)
  {
    BitXor(a, b, Bits(w) - 1);
    SignByDivision(w, a);
    SignByDivision(w, b);
  }

  lemma TopBitOfComplement(w: Width, a: nat)
    requires a < Modulus(w)
    ensures TopBit(w, Modulus(w) - 1 - a) <==> !TopBit(w, a)
  {
    WordPowers();
    BitComplement(a, Bits(w), Bits(w) - 1);
  }

  lemma AddOverflowBits(w: Width, l: nat, r: nat, result: nat)
    requires l < Modulus(w) && r < Modulus(w) && result < Modulus(w)
    ensures AddOverflows(w, l, r, result) <==>
      (Signed(w, l) < 0) == (Signed(w, r) < 0) && (Signed(w, l) < 0) != (Signed(w, result) < 0)
  {
    BitAnd(Modulus(w) - 1 - XorWord(w, l, r), Xor(l, result), Bits(w) - 1);
    TopBitOfComplement(w, XorWord(w, l, r));
    TopBitOfXor(w, l, r);
    TopBitOfXor(w, l, result);
    hide Signed, Xor, Bit;
  }

  lemma SubOverflowBits(w: Width, l: nat, r: nat, result: nat)
    requires l < Modulus(w) && r < Modulus(w) && result < Modulus(w)
    ensures SubOverflows(w, l, r, result) <==>
      (Signed(w, l) < 0) != (Signed(w, r) < 0) && (Signed(w, l) < 0) != (Signed(w, result) < 0)
  {
    BitAnd(Xor(l, r), Xor(l, result), Bits(w) - 1);
    TopBitOfXor(w, l, r);
    TopBitOfXor(w, l, result);
    hide Signed, Xor, Bit;
  }

  lemma AddOverflowsExactly(w: Width, l: nat, r: nat, c: nat)
    requires l < Modulus(w) && r < Modulus(w) && c <= 1
    ensures AddOverflows(w, l, r, (l + r + c) % Modulus(w)) <==>
      !SignedFits(w, Signed(w, l) + Signed(w, r) + c)
  {
    WrapOnce(w, l + r + c);
    AddOverflowBits(w, l, r, (l + r + c) % Modulus(w));
  }

  lemma SubOverflowsExactly(w: Width, l: nat, r: nat, b: nat)
    requires l < Modulus(w) && r < Modulus(w) && b <= 1
    ensures SubOverflows(w, l, r, (l - r - b) % Modulus(w)) <==>
      !SignedFits(w, Signed(w, l) - Signed(w, r) - b)
  {
    WrapOnce(w, l - r - b);
    SubOverflowBits(w, l, r, (l - r - b) % Modulus(w));
  }

  lemma NarrowIs64(x: u64)
    ensures Narrow(I64, x) == x
  {
  }

  lemma NarrowOfSum(w: Width, a: nat, b: nat)
    ensures Narrow(w, a + b) == (Narrow(w, a) + Narrow(w, b)) % Modulus(w)
  {
    ReduceSum(Modulus(w), a, b);
  }

  lemma NarrowOfDifference(w: Width, a: nat, b: nat)
    ensures (a - b) % Modulus(w) == (Narrow(w, a) - Narrow(w, b) - 0) % Modulus(w)
  {
    ReduceDifference(Modulus(w), a, b);
  }

  lemma WideSumCarries(w: Width, l: nat, r: nat)
    requires l < Modulus(w) && r < Modulus(w)
    ensures (l + r) % Modulus(w) < l <==> l + r >= Modulus(w)
  {
    WrapOnce(w, l + r);
  }

  lemma AddFormulaIsSum(w: Width, lhsValue: u64, rhsValue: u64, resultValue: u64)
    requires Narrow(w, resultValue) == Narrow(w, lhsValue + rhsValue)
    ensures AddFormula(w, lhsValue, rhsValue, resultValue) ==
      SumFlags(w, Narrow(w, lhsValue), Narrow(w, rhsValue), 0)
  {
    hide Narrow;
    var l, r, result := Narrow(w, lhsValue), Narrow(w, rhsValue), Narrow(w, resultValue);
    NarrowOfSum(w, lhsValue, rhsValue);
    WideSumCarries(w, l, r);
    NibbleOfSum(w, l, r, 0);
    SignByDivision(w, result);
    AddOverflowsExactly(w, l, r, 0);
  }

  lemma SubFormulaIsDifference(w: Width, lhsValue: u64, rhsValue: u64, resultValue: u64)
    requires Narrow(w, resultValue) == (lhsValue - rhsValue) % Modulus(w)
    ensures SubFormula(w, lhsValue, rhsValue, resultValue) ==
      DifferenceFlags(w, Narrow(w, lhsValue), Narrow(w, rhsValue), 0)
  {
    hide Narrow;
    var l, r, result := Narrow(w, lhsValue), Narrow(w, rhsValue), Narrow(w, resultValue);
    NarrowOfDifference(w, lhsValue, rhsValue);
    NibbleOfDifference(w, l, r, 0);
    SignByDivision(w, result);
    SubOverflowsExactly(w, l, r, 0);
  }

  lemma AdcFormula64(lhs: u64, rhs: u64, carryValue: u64, sum: u64, result: u64)
    requires sum == Add64(lhs, rhs) && result == Add64(sum, carryValue % 2)
    ensures AdcFormula(I64, lhs, rhs, carryValue) ==
      Arith(sum < lhs || result < sum, EvenParity(result), lhs % 16 + rhs % 16 + carryValue % 2 > 0xF,
        result == 0, result / Half(I64) != 0, AddOverflows(I64, lhs, rhs, result))
  {
    NarrowIs64(lhs);
    NarrowIs64(rhs);
  }

  lemma SbbFormula64(lhs: u64, rhs: u64, borrowValue: u64, subtrahend: u64, result: u64)
    requires subtrahend == Add64(rhs, borrowValue % 2) && result == Sub64(lhs, subtrahend)
    ensures SbbFormula(I64, lhs, rhs, borrowValue) ==
      Arith(subtrahend < rhs || lhs < subtrahend, EvenParity(result), NibbleCrossed(lhs, rhs, result),
        result == 0, result / Half(I64) != 0, SubOverflows(I64, lhs, rhs, result))
  {
    NarrowIs64(lhs);
    NarrowIs64(rhs);
  }

  lemma CarryTwice(l: u64, r: u64, c: nat)
    requires c <= 1
    ensures Add64(Add64(l, r), c) == (l + r + c) % U64_LIMIT
    ensures Add64(l, r) < l || Add64(Add64(l, r), c) < Add64(l, r) <==> l + r + c >= U64_LIMIT
  {
    WrapOnce(I64, l + r);
    WrapOnce(I64, Add64(l, r) + c);
    WrapOnce(I64, l + r + c);
  }

  lemma BorrowTwice(l: u64, r: u64, b: nat)
    requires b <= 1
    ensures Sub64(l, Add64(r, b)) == (l - r - b) % U64_LIMIT
    ensures Add64(r, b) < r || l < Add64(r, b) <==> l < r + b
  {
    WrapOnce(I64, r + b);
    WrapOnce(I64, l - Add64(r, b));
    WrapOnce(I64, l - r - b);
  }

  lemma AdcFormulaIsSum(w: Width, lhsValue: u64, rhsValue: u64, carryValue: u64)
    ensures AdcFormula(w, lhsValue, rhsValue, carryValue) ==
      SumFlags(w, Narrow(w, lhsValue), Narrow(w, rhsValue), carryValue % 2)
  {
    var l, r, c := Narrow(w, lhsValue), Narrow(w, rhsValue), carryValue % 2;
    if w == I64 {
      NarrowIs64(lhsValue);
      NarrowIs64(rhsValue);
      CarryTwice(l, r, c);
      AdcFormula64(l, r, carryValue, Add64(l, r), Add64(Add64(l, r), c));
      SignByDivision(I64, Add64(Add64(l, r), c));
      AddOverflowsExactly(I64, l, r, c);
    } else {
      AdcFormulaNarrow(w, l, r, c, lhsValue, rhsValue, carryValue);
    }
  }

  lemma AdcFormulaNarrow(w: Width, l: nat, r: nat, c: nat, lhsValue: u64, rhsValue: u64, carryValue: u64)
    requires w != I64
    requires l == Narrow(w, lhsValue) && r == Narrow(w, rhsValue) && c == carryValue % 2
    ensures AdcFormula(w, lhsValue, rhsValue, carryValue) == SumFlags(w, l, r, c)
  {
    var total, m := l + r + c, Modulus(w);
    SignByDivision(w, total % m);
    hide Modulus, Half, EvenParity, Signed, SignedFits;
    assert total > m - 1 <==> total >= m;
  }

  lemma SbbFormulaIsDifference(w: Width, lhsValue: u64, rhsValue: u64, borrowValue: u64)
    ensures SbbFormula(w, lhsValue, rhsValue, borrowValue) ==
      DifferenceFlags(w, Narrow(w, lhsValue), Narrow(w, rhsValue), borrowValue % 2)
  {
    var l, r, b := Narrow(w, lhsValue), Narrow(w, rhsValue), borrowValue % 2;
    NibbleOfDifference(w, l, r, b);
    SubOverflowsExactly(w, l, r, b);
    if w == I64 {
      NarrowIs64(lhsValue);
      NarrowIs64(rhsValue);
      BorrowTwice(l, r, b);
      SbbFormula64(l, r, borrowValue, Add64(r, b), Sub64(l, Add64(r, b)));
      SignByDivision(I64, Sub64(l, Add64(r, b)));
    } else {
      SbbFormulaNarrow(w, l, r, b, lhsValue, rhsValue, borrowValue);
    }
  }

  lemma SbbFormulaNarrow(w: Width, l: nat, r: nat, b: nat, lhsValue: u64, rhsValue: u64, borrowValue: u64)
    requires w != I64 && l == Narrow(w, lhsValue) && r == Narrow(w, rhsValue) && b == borrowValue % 2
    requires NibbleCrossed(l, r, (l - r - b) % Modulus(w)) <==> l % 16 < r % 16 + b
    requires SubOverflows(w, l, r, (l - r - b) % Modulus(w)) <==>
      !SignedFits(w, Signed(w, l) - Signed(w, r) - b)
    ensures SbbFormula(w, lhsValue, rhsValue, borrowValue) == DifferenceFlags(w, l, r, b)
  {
    assert l - (r + b) == l - r - b;
    SignByDivision(w, (l - r - b) % Modulus(w));
  }

  /** An increment or decrement changes no system bit and no carry, and its other flags are exact. */
  lemma StepIsPartial(rflags: u64, w: Width, up: bool, originalValue: u64, resultValue: u64)
    ensures var m := MaterialiseKeepingCarry(rflags, StepFormula(w, up, originalValue, resultValue));
      SystemFlags(m) == SystemFlags(rflags) && StepIsExact(rflags, m, w, up, originalValue, resultValue)
  {
    var formula := StepFormula(w, up, originalValue, resultValue);
    var kept := formula.(cf := Bit(rflags, 0));
    KeepingCarry(rflags, formula);
    MaterialisedFlags(rflags, kept);
    SystemOfMaterialise(rflags, kept);
    if Narrow(w, resultValue) == StepResult(w, up, Narrow(w, originalValue)) {
      StepFormulaIsExact(w, up, originalValue, resultValue);
    }
  }

  lemma StepFormulaIsExact(w: Width, up: bool, originalValue: u64, resultValue: u64)
    requires Narrow(w, resultValue) == StepResult(w, up, Narrow(w, originalValue))
    ensures StepFormula(w, up, originalValue, resultValue) ==
      StepFlags(w, up, Narrow(w, originalValue)).(cf := false)
  {
    var original, result := Narrow(w, originalValue), Narrow(w, resultValue);
    SignByDivision(w, result);
    if up {
      NibbleOfSum(w, original, 1, 0);
      IncrementOverflow(w, original);
    } else {
      NibbleOfDifference(w, original, 1, 0);
      DecrementOverflow(w, original);
    }
  }

  lemma IncrementOverflow(w: Width, original: nat)
    requires original < Modulus(w)
    ensures original == Half(w) - 1 <==> !SignedFits(w, Signed(w, original) + Signed(w, 1) + 0)
  {
  }

  lemma DecrementOverflow(w: Width, original: nat)
    requires original < Modulus(w)
    ensures original == Half(w) <==> !SignedFits(w, Signed(w, original) - Signed(w, 1) - 0)
  {
  }

  /** Keeping CF is replacing all six flags with CF set to what it was. */
  lemma KeepingCarry(rflags: u64, a: Arith)
    ensures MaterialiseKeepingCarry(rflags, a) == Materialise(rflags, a.(cf := Bit(rflags, 0)))
  {
    var base := CarryBase(rflags);
    var full := SetIf(SystemFlags(rflags), Bit(rflags, 0), CARRY);
    forall k: nat
      ensures Bit(base, k) == Bit(full, k)
    {
      MaterialiseBit(rflags, a, k);
      SetIfBit(SystemFlags(rflags), Bit(rflags, 0), CARRY, k);
      FlagBits(k);
      CarryBaseBit(rflags, k);
    }
    SameBits(base, full);
  }

  lemma CarryBaseBit(rflags: u64, k: nat)
    ensures Bit(CarryBase(rflags), k) <==> k == 1 || (k < 64 && Bit(rflags, k) && (k == 0 || !IsArithmeticBit(k)))
  {
    var m := KEEP_MASK + CARRY;
    BitOr(And(rflags, m), RESERVED_ONE, k);
    BitAnd(rflags, m, k);
    FlagBits(k);
    WordPowers();
    assert m == Pow2(64) - 1 - (ARITHMETIC_MASK - CARRY);
    BitComplement(ARITHMETIC_MASK - CARRY, 64, k);
    LowerMaskBits(k);
  }

  lemma LowerMaskBits(k: nat)
    ensures Bit(ARITHMETIC_MASK - CARRY, k) <==> IsArithmeticBit(k) && k != 0
  {
    ArithmeticMaskBits(k);
    if k > 0 {
      assert (ARITHMETIC_MASK - CARRY) / 2 == ARITHMETIC_MASK / 2;
    }
  }
}
