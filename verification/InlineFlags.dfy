/** The AArch64 sequences that the back end emits in place of a flag helper.

    Each method runs one emitted sequence, instruction by instruction, over 64-bit host
    registers: `x16` collects the flags word, `x17` and `x1`..`x3` are scratch, a forward branch
    over two instructions is an `if`, and the `ldr`/`str` of the flags word are the argument and
    the result. */
module InlineFlags {
  import opened Words
  import opened Flags
  import opened FlagHelpers

  /** The formula of the emitted addition sequence, over operands cut to the width: the carry
      test is `result < lhs` at every width, where the narrow helpers compare the wide sum. */
  function NarrowAddFormula(w: Width, l: nat, r: nat, result: nat): Arith
    requires l < Modulus(w) && r < Modulus(w) && result < Modulus(w)
  {
    Arith(result < l, EvenParity(result), NibbleCrossed(l, r, result), result == 0, result / Half(w) != 0,
      AddOverflows(w, l, r, result))
  }

  function InlineAddFormula(w: Width, lhs: u64, rhs: u64, result: u64): Arith {
    NarrowAddFormula(w, Narrow(w, lhs), Narrow(w, rhs), Narrow(w, result))
  }

  function ValueMask(w: Width): u64 { Modulus(w) - 1 }

  /** The operands cut to the operation's width; at 64 bits they are only copied. */
  method RunMasks(w: Width, lhs: u64, rhs: u64, result: u64) returns (x1: nat, x2: nat, x3: nat)
    ensures x1 == Narrow(w, lhs) && x2 == Narrow(w, rhs) && x3 == Narrow(w, result)
    ensures x3 / Half(w) <= 1
  {
    MaskNarrows(w, lhs);
    MaskNarrows(w, rhs);
    MaskNarrows(w, result);
    if w == I64 {
      x1, x2, x3 := lhs, rhs, result;
    } else {
      var x17: nat := ValueMask(w);
      x1 := And(lhs, x17);
      x2 := And(rhs, x17);
      x3 := And(result, x17);
    }
  }

  /** The parity, zero and sign steps that all sequences share. */
  method RunParity(x16: u64, value: nat) returns (out: u64)
    ensures out == SetIf(x16, EvenParity(value), PARITY)
  {
    ParityFoldIsParity(value);
    out := x16;
    var x17 := ParityFold(value);
    if !Bit(x17, 0) {
      x17 := PARITY;
      out := SetIf(x16, true, PARITY);
    }
  }

  method RunZeroAndSign(x16: u64, value: nat, half: nat) returns (out: u64)
    requires half > 0 && value / half <= 1
    ensures out == SetIf(SetIf(x16, value == 0, ZERO), value / half != 0, SIGN)
  {
    out := x16;
    var x17: nat;
    if value == 0 {
      x17 := ZERO;
      out := SetIf(x16, true, ZERO);
    }
    x17 := value / half;
    out := OrSign(out, x17);
  }

  method RunAuxiliary(x16: u64, x17: nat, ghost crossed: bool) returns (out: u64)
    requires Bit(x17, 4) == crossed
    ensures out == SetIf(x16, crossed, AUXILIARY)
  {
    out := x16;
    if Bit(x17, 4) {
      out := SetIf(x16, true, AUXILIARY);
    }
  }

  method RunAddFlags(w: Width, rflags: u64, lhs: u64, rhs: u64, result: u64) returns (out: u64)
    ensures out == Materialise(rflags, InlineAddFormula(w, lhs, rhs, result))
  {
    var x1, x2, x3 := RunMasks(w, lhs, rhs, result);
    out := RunAddCore(w, rflags, x1, x2, x3);
  }

  method RunAddCore(w: Width, rflags: u64, lhs: nat, rhs: nat, result: nat) returns (out: u64)
    requires lhs < Modulus(w) && rhs < Modulus(w) && result < Modulus(w) && result / Half(w) <= 1
    ensures out == Materialise(rflags, NarrowAddFormula(w, lhs, rhs, result))
  {
    var x16 := SystemFlags(rflags);
    var x17: nat;
    if result < lhs {
      x16 := SetIf(x16, true, CARRY);
    }
    x16 := RunParity(x16, result);
    x17 := Xor(lhs, rhs);
    x17 := Xor(x17, result);
    NibbleIsBit(lhs, rhs, result);
    x16 := RunAuxiliary(x16, x17, NibbleCrossed(lhs, rhs, result));
    x16 := RunZeroAndSign(x16, result, Half(w));
    x17 := Xor(lhs, result);
    var x1 := Xor(rhs, result);
    x17 := And(x17, x1);
    InlineAddOverflow(w, lhs, rhs, result);
    if Bit(x17, Bits(w) - 1) {
      x16 := SetIf(x16, true, OVERFLOW);
    }
    out := x16;
  }

  /** The 8-bit sequence masks first; the 64-bit one uses its operands as they are. */
  method RunSubFlags(w: Width, rflags: u64, lhs: u64, rhs: u64, result: u64) returns (out: u64)
    requires w == I8 || w == I64
    ensures out == Materialise(rflags, SubFormula(w, lhs, rhs, result))
  {
    var x1, x2, x3 := RunMasks(w, lhs, rhs, result);
    out := RunSubCore(w, rflags, x1, x2, x3);
  }

  method RunSubCore(w: Width, rflags: u64, lhs: nat, rhs: nat, result: nat) returns (out: u64)
    requires result / Half(w) <= 1
    ensures out == Materialise(rflags, Arith(lhs < rhs, EvenParity(result), NibbleCrossed(lhs, rhs, result),
      result == 0, result / Half(w) != 0, SubOverflows(w, lhs, rhs, result)))
  {
    var x16 := SystemFlags(rflags);
    var x17: nat;
    if lhs < rhs {
      x16 := SetIf(x16, true, CARRY);
    }
    x16 := RunParity(x16, result);
    x17 := Xor(lhs, rhs);
    x17 := Xor(x17, result);
    NibbleIsBit(lhs, rhs, result);
    x16 := RunAuxiliary(x16, x17, NibbleCrossed(lhs, rhs, result));
    x16 := RunZeroAndSign(x16, result, Half(w));
    x17 := Xor(lhs, rhs);
    var x1 := Xor(lhs, result);
    x17 := And(x17, x1);
    if Bit(x17, Bits(w) - 1) {
      x16 := SetIf(x16, true, OVERFLOW);
    }
    out := x16;
  }

  method RunLogicFlags(w: Width, rflags: u64, result: u64) returns (out: u64)
    ensures out == Materialise(rflags, LogicFormula(w, result))
  {
    var x1, _, _ := RunMasks(w, result, result, result);
    var x16 := SystemFlags(rflags);
    x16 := RunParity(x16, x1);
    x16 := RunZeroAndSign(x16, x1, Half(w));
    out := x16;
  }

  /** The 64-bit decrement; the last step is a conditional select on `original == 2^63`. */
  method RunDecFlags64(rflags: u64, original: u64, result: u64) returns (out: u64)
    ensures out == MaterialiseKeepingCarry(rflags, StepFormula(I64, false, original, result))
  {
    NarrowIs64(original);
    NarrowIs64(result);
    MaskNarrows(I64, result);
    var x16 := CarryBase(rflags);
    x16 := RunParity(x16, result);
    var x17 := Xor(original, result);
    DecNibble(original, result);
    x16 := RunAuxiliary(x16, x17, NibbleCrossed(original, 1, result));
    x16 := RunZeroAndSign(x16, result, 0x8000_0000_0000_0000);
    var equal := original == 0x8000_0000_0000_0000;
    x17 := SetIf(x16, true, OVERFLOW);
    out := if equal then x17 else x16;
  }

  /** `orr x16, x16, x17, lsl #7` with `x17` the sign bit. */
  function OrSign(flags: u64, sign: nat): u64
    requires sign <= 1
  {
    assert sign * 128 == 0 || sign * 128 == SIGN;
    Or64(flags, sign * 128);
    Or(flags, sign * 128)
  }

  /** `eor x17, x17, x17, lsr #4`, then `#2`, then `#1`. */
  function ParityFold(x: nat): nat {
    var a := Xor(x, Shr(x, 4));
    var b := Xor(a, Shr(a, 2));
    Xor(b, Shr(b, 1))
  }

  lemma MaskNarrows(w: Width, x: u64)
    ensures And(x, ValueMask(w)) == Narrow(w, x)
    ensures Narrow(w, x) / Half(w) <= 1
    ensures w == I64 ==> Narrow(w, x) == x
  {
    WordPowers();
    MaskIsRemainder(x, Bits(w), Modulus(w));
    if w == I64 { NarrowIs64(x); }
    hide Narrow, And;
    HalfQuotient(Half(w), Narrow(w, x));
  }

  lemma HalfQuotient(h: nat, x: nat)
    requires h > 0 && x < 2 * h
    ensures x / h <= 1
  {
    QuotientUnique(x, h, if x < h then 0 else 1, if x < h then x else x - h);
  }

  /** The folded word's last bit is the exclusive or of the low eight bits. */
  lemma ParityFoldBit(x: nat)
    ensures Bit(ParityFold(x), 0) <==>
      (((Bit(x, 0) != Bit(x, 4)) != (Bit(x, 2) != Bit(x, 6))) !=
       ((Bit(x, 1) != Bit(x, 5)) != (Bit(x, 3) != Bit(x, 7))))
  {
    hide Xor, Bit, Shr;
    var a := Xor(x, Shr(x, 4));
    var b := Xor(a, Shr(a, 2));
    FoldBit(b, 1, 0);
    FoldBit(a, 2, 0);
    FoldBit(a, 2, 1);
    FoldBit(x, 4, 0);
    FoldBit(x, 4, 1);
    FoldBit(x, 4, 2);
    FoldBit(x, 4, 3);
  }

  lemma FoldBit(x: nat, j: nat, k: nat)
    ensures Bit(Xor(x, Shr(x, j)), k) <==> Bit(x, k) != Bit(x, j + k)
  {
    BitXor(x, Shr(x, j), k);
    BitOfShr(x, j, k);
  }

  /** The exclusive or of digits `k` to `n - 1`. */
  predicate XorFrom(x: nat, k: nat, n: nat)
    decreases n - k
  {
    k < n && (Bit(x, k) != XorFrom(x, k + 1, n))
  }

  lemma {:induction false} XorFromHalf(x: nat, k: nat, n: nat)
    ensures XorFrom(x, k + 1, n + 1) == XorFrom(x / 2, k, n)
    decreases n - k
  {
    if k < n { XorFromHalf(x, k + 1, n); }
  }

  lemma {:induction false} PopCountParity(x: nat, n: nat, p: nat)
    requires p == Pow2(n)
    ensures PopCount(x % p) % 2 == 1 <==> XorFrom(x, 0, n)
    decreases n
  {
    if n > 0 {
      var h := Pow2(n - 1);
      PopCountOfLow(x, h);
      PopCountParity(x / 2, n - 1, h);
      XorFromHalf(x, 0, n - 1);
      ParityOfThree(x, PopCount(x / 2 % h), 0);
    }
  }

  lemma PopCountOfLow(x: nat, p: nat)
    requires p > 0
    ensures PopCount(x % (2 * p)) == x % 2 + PopCount(x / 2 % p)
  {
    Halves(x, p);
    PopCountStep(x / 2 % p, x % 2);
  }

  lemma PopCountStep(h: nat, b: nat)
    requires b <= 1
    ensures PopCount(2 * h + b) == b + PopCount(h)
  {
  }

  lemma ParityFoldIsParity(x: nat)
    ensures !Bit(ParityFold(x), 0) <==> EvenParity(x)
  {
    ParityFoldBit(x);
    SmallPowers();
    PopCountParity(x, 8, 0x100);
    UnfoldXorFrom(x);
  }

  lemma UnfoldXorFrom(x: nat)
    ensures XorFrom(x, 0, 8) <==>
      (((Bit(x, 0) != Bit(x, 4)) != (Bit(x, 2) != Bit(x, 6))) !=
       ((Bit(x, 1) != Bit(x, 5)) != (Bit(x, 3) != Bit(x, 7))))
  {
    var t4 := XorFrom(x, 4, 8);
    assert t4 <==> (Bit(x, 4) != (Bit(x, 5) != (Bit(x, 6) != Bit(x, 7))));
    assert XorFrom(x, 0, 8) <==> (Bit(x, 0) != (Bit(x, 1) != (Bit(x, 2) != (Bit(x, 3) != t4))));
  }

  lemma InlineAddOverflow(w: Width, l: nat, r: nat, result: nat)
    requires l < Modulus(w) && r < Modulus(w) && result < Modulus(w)
    ensures Bit(And(Xor(l, result), Xor(r, result)), Bits(w) - 1) <==> AddOverflows(w, l, r, result)
  {
    var k := Bits(w) - 1;
    BitAnd(Xor(l, result), Xor(r, result), k);
    BitXor(l, result, k);
    BitXor(r, result, k);
    AddOverflowBits(w, l, r, result);
    SignByDivision(w, l);
    SignByDivision(w, r);
    SignByDivision(w, result);
  }

  /** On a true sum the emitted sequence, the helper and the integer definition agree. */
  lemma InlineAddIsExact(w: Width, rflags: u64, lhs: u64, rhs: u64, result: u64)
    ensures Narrow(w, result) == Narrow(w, lhs + rhs) ==>
      Materialise(rflags, InlineAddFormula(w, lhs, rhs, result)) ==
        Materialise(rflags, AddFormula(w, lhs, rhs, result)) &&
      InlineAddFormula(w, lhs, rhs, result) == SumFlags(w, Narrow(w, lhs), Narrow(w, rhs), 0)
  {
    if Narrow(w, result) == Narrow(w, lhs + rhs) {
      AddFormulaIsSum(w, lhs, rhs, result);
      ReduceSum(Modulus(w), lhs, rhs);
      WrapOnce(w, Narrow(w, lhs) + Narrow(w, rhs));
    }
  }

  /** For a decrement the sequence may leave out the exclusive or with one. */
  lemma DecNibble(original: u64, result: u64)
    ensures Bit(Xor(original, result), 4) <==> NibbleCrossed(original, 1, result)
  {
    NibbleByDivision(original, 1, result);
    BitXor(original, result, 4);
    Digit4(original);
    Digit4(result);
    ParityOfThree(original / 16, 0, result / 16);
  }
}
