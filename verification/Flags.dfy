/** The guest flags word: which bits an arithmetic instruction replaces, and how a condition
    is read off it. Bit positions are those of section 3.4.3.1 of the Intel 64 and IA-32
    Architectures Software Developer's Manual, Volume 1. */
module Flags {
  import opened Words

  const CARRY: u64 := 0x1
  const RESERVED_ONE: u64 := 0x2
  const PARITY: u64 := 0x4
  const AUXILIARY: u64 := 0x10
  const ZERO: u64 := 0x40
  const SIGN: u64 := 0x80
  const OVERFLOW: u64 := 0x800
  const ARITHMETIC_MASK: u64 := 0x8D5
  const KEEP_MASK: u64 := 0xFFFF_FFFF_FFFF_F72A

  /** The six arithmetic flags. */
  datatype Arith = Arith(cf: bool, pf: bool, af: bool, zf: bool, sf: bool, of: bool)

  datatype Condition =
    | Overflow | NotOverflow | ParityEven | ParityOdd | Equal | NotEqual | Below | AboveOrEqual
    | Above | BelowOrEqual | Sign | NotSign | Less | GreaterOrEqual | LessOrEqual | Greater

  function SetIf(flags: u64, on: bool, bit: u64): u64 {
    if on then Or64(flags, bit); Or(flags, bit) else flags
  }

  /** What every full update keeps: all other bits, with the reserved bit set. */
  function SystemFlags(rflags: u64): u64 {
    AndBound(rflags, KEEP_MASK);
    Or64(And(rflags, KEEP_MASK), RESERVED_ONE);
    Or(And(rflags, KEEP_MASK), RESERVED_ONE)
  }

  function WithArith(system: u64, a: Arith): u64 {
    SetIf(SetIf(SetIf(SetIf(SetIf(SetIf(system,
      a.cf, CARRY), a.pf, PARITY), a.af, AUXILIARY), a.zf, ZERO), a.sf, SIGN), a.of, OVERFLOW)
  }

  /** The flags word after an update that replaces all six arithmetic flags. */
  function Materialise(rflags: u64, a: Arith): u64 {
    WithArith(SystemFlags(rflags), a)
  }

  /** The flags word after an update that replaces only the bits of `replaced`. */
  function ReplaceSome(rflags: u64, replaced: u64, bits: u64): u64 {
    AndBound(rflags, U64_LIMIT - 1 - replaced);
    Or64(And(rflags, U64_LIMIT - 1 - replaced), RESERVED_ONE);
    Or64(Or(And(rflags, U64_LIMIT - 1 - replaced), RESERVED_ONE), bits);
    Or(Or(And(rflags, U64_LIMIT - 1 - replaced), RESERVED_ONE), bits)
  }

  /** A condition as the generated code tests it: single bits of the word, and bit 7 of the
      word combined with itself shifted right by four, which brings OF under SF. */
  predicate Holds(c: Condition, rflags: u64) {
    var folded := Xor(rflags, Shr(rflags, 4));
    match c
    case Overflow => Bit(rflags, 11)
    case NotOverflow => !Bit(rflags, 11)
    case ParityEven => Bit(rflags, 2)
    case ParityOdd => !Bit(rflags, 2)
    case Equal => Bit(rflags, 6)
    case NotEqual => !Bit(rflags, 6)
    case Below => Bit(rflags, 0)
    case AboveOrEqual => !Bit(rflags, 0)
    case Above => !Bit(rflags, 0) && !Bit(rflags, 6)
    case BelowOrEqual => Bit(rflags, 0) || Bit(rflags, 6)
    case Sign => Bit(rflags, 7)
    case NotSign => !Bit(rflags, 7)
    case Less => Bit(folded, 7)
    case GreaterOrEqual => !Bit(folded, 7)
    case LessOrEqual => Bit(rflags, 6) || Bit(folded, 7)
    case Greater => !Bit(rflags, 6) && !Bit(folded, 7)
  }

  /** The same conditions as Appendix B of the manual defines them. */
  predicate Means(c: Condition, a: Arith) {
    match c
    case Overflow => a.of
    case NotOverflow => !a.of
    case ParityEven => a.pf
    case ParityOdd => !a.pf
    case Equal => a.zf
    case NotEqual => !a.zf
    case Below => a.cf
    case AboveOrEqual => !a.cf
    case Above => !a.cf && !a.zf
    case BelowOrEqual => a.cf || a.zf
    case Sign => a.sf
    case NotSign => !a.sf
    case Less => a.sf != a.of
    case GreaterOrEqual => a.sf == a.of
    case LessOrEqual => a.zf || a.sf != a.of
    case Greater => !a.zf && a.sf == a.of
  }

  function ArithOf(rflags: u64): Arith {
    Arith(Bit(rflags, 0), Bit(rflags, 2), Bit(rflags, 4), Bit(rflags, 6), Bit(rflags, 7), Bit(rflags, 11))
  }

  // ----- single bits

  lemma {:induction false} BitOfPower(j: nat, k: nat)
    ensures Bit(Pow2(j), k) <==> j == k
  {
    if k == 0 {
    } else if j == 0 {
      assert Pow2(0) / 2 == 0;
      BitOfZero(k - 1);
    } else {
      BitOfPower(j - 1, k - 1);
    }
  }

  lemma FlagBits(k: nat)
    ensures Bit(CARRY, k) <==> k == 0
    ensures Bit(RESERVED_ONE, k) <==> k == 1
    ensures Bit(PARITY, k) <==> k == 2
    ensures Bit(AUXILIARY, k) <==> k == 4
    ensures Bit(ZERO, k) <==> k == 6
    ensures Bit(SIGN, k) <==> k == 7
    ensures Bit(OVERFLOW, k) <==> k == 11
  {
    BitOfPower(0, k);
    BitOfPower(1, k);
    BitOfPower(2, k);
    BitOfPower(4, k);
    BitOfPower(6, k);
    BitOfPower(7, k);
    BitOfPower(11, k);
    assert Pow2(0) == CARRY && Pow2(1) == RESERVED_ONE && Pow2(2) == PARITY && Pow2(4) == AUXILIARY;
    assert Pow2(6) == ZERO && Pow2(7) == SIGN && Pow2(11) == OVERFLOW;
  }

  lemma {:induction false} BitComplement(m: nat, n: nat, k: nat)
    requires m < Pow2(n)
    ensures Bit(Pow2(n) - 1 - m, k) <==> k < n && !Bit(m, k)
  {
    var c := Pow2(n) - 1 - m;
    if n == 0 {
      BitOfZero(k);
    } else {
      assert c / 2 == Pow2(n - 1) - 1 - m / 2 && c % 2 == 1 - m % 2;
      if k > 0 { BitComplement(m / 2, n - 1, k - 1); }
    }
  }

  predicate IsArithmeticBit(k: nat) {
    k == 0 || k == 2 || k == 4 || k == 6 || k == 7 || k == 11
  }

  lemma ArithmeticMaskBits(k: nat)
    ensures Bit(ARITHMETIC_MASK, k) <==> IsArithmeticBit(k)
  {
    if k >= 12 {
      assert Pow2(12) == 0x1000;
      BitBound(ARITHMETIC_MASK, 12, k);
    } else {
      SmallPowers();
      BitByDivision(ARITHMETIC_MASK, k, Pow2(k));
    }
  }

  lemma KeepMaskBits(k: nat)
    ensures Bit(KEEP_MASK, k) <==> k < 64 && !IsArithmeticBit(k)
  {
    WordPowers();
    BitComplement(ARITHMETIC_MASK, 64, k);
    ArithmeticMaskBits(k);
  }

  lemma SetIfBit(flags: u64, on: bool, bit: u64, k: nat)
    ensures Bit(SetIf(flags, on, bit), k) <==> Bit(flags, k) || (on && Bit(bit, k))
  {
    if on { BitOr(flags, bit, k); }
  }

  /** Every bit of the word after a full update. */
  lemma MaterialiseBit(rflags: u64, a: Arith, k: nat)
    ensures Bit(SystemFlags(rflags), k) <==> k == 1 || (k < 64 && Bit(rflags, k) && !IsArithmeticBit(k))
    ensures Bit(Materialise(rflags, a), k) <==>
      match k
      case 0 => a.cf
      case 1 => true
      case 2 => a.pf
      case 4 => a.af
      case 6 => a.zf
      case 7 => a.sf
      case 11 => a.of
      case _ => k < 64 && Bit(rflags, k)
  {
    KeepMaskBits(k);
    FlagBits(k);
    BitAnd(rflags, KEEP_MASK, k);
    BitOr(And(rflags, KEEP_MASK), RESERVED_ONE, k);
    var s := SystemFlags(rflags);
    var s1 := SetIf(s, a.cf, CARRY);
    var s2 := SetIf(s1, a.pf, PARITY);
    var s3 := SetIf(s2, a.af, AUXILIARY);
    var s4 := SetIf(s3, a.zf, ZERO);
    var s5 := SetIf(s4, a.sf, SIGN);
    SetIfBit(s, a.cf, CARRY, k);
    SetIfBit(s1, a.pf, PARITY, k);
    SetIfBit(s2, a.af, AUXILIARY, k);
    SetIfBit(s3, a.zf, ZERO, k);
    SetIfBit(s4, a.sf, SIGN, k);
    SetIfBit(s5, a.of, OVERFLOW, k);
  }

  /** A full update records exactly its six flags. */
  lemma MaterialisedFlags(rflags: u64, a: Arith)
    ensures ArithOf(Materialise(rflags, a)) == a
  {
    MaterialiseBit(rflags, a, 0);
    MaterialiseBit(rflags, a, 2);
    MaterialiseBit(rflags, a, 4);
    MaterialiseBit(rflags, a, 6);
    MaterialiseBit(rflags, a, 7);
    MaterialiseBit(rflags, a, 11);
  }

  /** A full update leaves everything else alone, and so erases all trace of earlier ones. */
  lemma SystemOfMaterialise(rflags: u64, a: Arith)
    ensures SystemFlags(Materialise(rflags, a)) == SystemFlags(rflags)
  {
    var m := Materialise(rflags, a);
    forall k: nat
      ensures Bit(SystemFlags(m), k) == Bit(SystemFlags(rflags), k)
    {
      MaterialiseBit(rflags, a, k);
      MaterialiseBit(m, a, k);
    }
    SameBits(SystemFlags(m), SystemFlags(rflags));
  }

  /** So does an update of some arithmetic flags. */
  lemma SystemOfReplaceSome(rflags: u64, replaced: u64, bits: u64)
    requires forall k: nat :: Bit(replaced, k) ==> IsArithmeticBit(k)
    requires forall k: nat :: Bit(bits, k) ==> IsArithmeticBit(k)
    ensures SystemFlags(ReplaceSome(rflags, replaced, bits)) == SystemFlags(rflags)
  {
    var m := ReplaceSome(rflags, replaced, bits);
    var any := Arith(false, false, false, false, false, false);
    forall k: nat
      ensures Bit(SystemFlags(m), k) == Bit(SystemFlags(rflags), k)
    {
      MaterialiseBit(rflags, any, k);
      MaterialiseBit(m, any, k);
      WordPowers();
      BitComplement(replaced, 64, k);
      FlagBits(k);
      BitAnd(rflags, U64_LIMIT - 1 - replaced, k);
      BitOr(And(rflags, U64_LIMIT - 1 - replaced), RESERVED_ONE, k);
      BitOr(Or(And(rflags, U64_LIMIT - 1 - replaced), RESERVED_ONE), bits, k);
    }
    SameBits(SystemFlags(m), SystemFlags(rflags));
  }

  /** The tests the generated code makes are the conditions of the manual. */
  lemma TestsMeanConditions(c: Condition, rflags: u64)
    ensures Holds(c, rflags) <==> Means(c, ArithOf(rflags))
  {
    BitXor(rflags, Shr(rflags, 4), 7);
    BitOfShr(rflags, 4, 7);
  }
}
