/** The branch instructions of section C6.2 of the Arm Architecture Reference Manual (DDI 0487)
    that the assembler emits, and how a displacement is filled in later. */
module Branches {
  import opened Options
  import opened Words
  import opened MoveWide

  datatype Branch =
    | B(offset: int)
    | Cbz(register: nat, offset: int)
    | Cbnz(register: nat, offset: int)
    | BConditional(condition: nat, offset: int)
    | Tbz(register: nat, bit: nat, offset: int)
    | Tbnz(register: nat, bit: nat, offset: int)

  datatype FixupKind = Branch26 | CompareBranch19 | TestBranch14

  function FieldWidth(kind: FixupKind): nat {
    match kind
    case Branch26 => 26
    case CompareBranch19 => 19
    case TestBranch14 => 14
  }

  function Span(kind: FixupKind): nat {
    match kind
    case Branch26 => 0x400_0000
    case CompareBranch19 => 0x8_0000
    case TestBranch14 => 0x4000
  }

  predicate InRange(kind: FixupKind, displacement: int) {
    -(Span(kind) / 2) <= displacement <= Span(kind) / 2 - 1
  }

  function SignExtend(field: nat, span: nat): int {
    if field >= span / 2 then field - span else field
  }

  /** The branch that a word is. */
  function DecodeBranch(w: u32): Option<Branch> {
    var low, upper := w % 0x20, w / 0x20;
    var top := upper / 0x8_0000;
    var near, nearer := SignExtend(upper % 0x8_0000, 0x8_0000), SignExtend(upper % 0x4000, 0x4000);
    var bit := top / 0x80 * 32 + upper / 0x4000 % 0x20;
    if top / 4 == 0x05 then Some(B(SignExtend(w % 0x400_0000, 0x400_0000)))
    else if top == 0xB4 then Some(Cbz(low, near))
    else if top == 0xB5 then Some(Cbnz(low, near))
    else if top == 0x54 && low < 0x10 then Some(BConditional(low, near))
    else if top % 0x80 == 0x36 then Some(Tbz(low, bit, nearer))
    else if top % 0x80 == 0x37 then Some(Tbnz(low, bit, nearer))
    else None
  }

  function KindOf(b: Branch): FixupKind {
    if b.B? then Branch26 else if b.Tbz? || b.Tbnz? then TestBranch14 else CompareBranch19
  }

  /** The same branch with another displacement. */
  function To(b: Branch, displacement: int): Branch {
    b.(offset := displacement)
  }

  /** The operands that the assembler accepts. */
  predicate Accepts(b: Branch) {
    match b
    case B(_) => true
    case Cbz(r, _) => r <= 30
    case Cbnz(r, _) => r <= 30
    case BConditional(c, _) => c < 14
    case Tbz(r, bit, _) => r <= 30 && bit < 64
    case Tbnz(r, bit, _) => r <= 30 && bit < 64
  }

  /** The word emitted for a branch whose target is not known yet. */
  function Placeholder(b: Branch): nat
    requires Accepts(b)
  {
    match b
    case B(_) => 0x1400_0000
    case Cbz(r, _) => Or(0xB400_0000, r)
    case Cbnz(r, _) => Or(0xB500_0000, r)
    case BConditional(c, _) => Or(0x5400_0000, c)
    case Tbz(r, bit, _) => Or(Or(Or(0x3600_0000, Shl(bit / 32, 31)), Shl(bit % 32, 19)), r)
    case Tbnz(r, bit, _) => Or(Or(Or(0x3700_0000, Shl(bit / 32, 31)), Shl(bit % 32, 19)), r)
  }

  /** A displacement written into its field by `or`. */
  function Patch(kind: FixupKind, word: u32, displacement: int): nat {
    var bits := displacement % U32_LIMIT;
    match kind
    case Branch26 => Or(word, And(bits, 0x03FF_FFFF))
    case CompareBranch19 => Or(word, Shl(And(bits, 0x7_FFFF), 5))
    case TestBranch14 => Or(word, Shl(And(bits, 0x3FFF), 5))
  }

  // ----- placeholders decode as the branch they stand for

  lemma TestWord(base: u32, bit: nat, r: nat)
    requires base == 0x3600_0000 || base == 0x3700_0000
    requires bit < 64 && r <= 30
    ensures Or(Or(Or(base, Shl(bit / 32, 31)), Shl(bit % 32, 19)), r) ==
      base + bit / 32 * 0x8000_0000 + bit % 32 * 0x8_0000 + r
  {
    hide Or, Shl, Pow2, Low, Shr;
    FieldPowers();
    WordPowers();
    ShlIsProduct(bit / 32, 31, 0x8000_0000);
    ShlIsProduct(bit % 32, 19, 0x8_0000);
    OrAbove(base, bit / 32, 31, 0x8000_0000);
    var a := base + bit / 32 * 0x8000_0000;
    OrField(a, bit % 32 * 0x8_0000, 24, 0x100_0000);
    OrField(a + bit % 32 * 0x8_0000, r, 5, 0x20);
  }

  lemma RegisterWord(base: u32, r: nat)
    requires base % 0x100_0000 == 0 && r < 0x20
    ensures Or(base, r) == base + r
  {
    FieldPowers();
    OrField(base, r, 5, 0x20);
  }

  /** A branch with `m` in its displacement field, as a sum of fields. */
  function Compose(b: Branch, m: nat): nat {
    match b
    case B(_) => 0x1400_0000 + m
    case Cbz(r, _) => 0xB400_0000 + m * 0x20 + r
    case Cbnz(r, _) => 0xB500_0000 + m * 0x20 + r
    case BConditional(c, _) => 0x5400_0000 + m * 0x20 + c
    case Tbz(r, bit, _) => 0x3600_0000 + bit / 32 * 0x8000_0000 + bit % 32 * 0x8_0000 + m * 0x20 + r
    case Tbnz(r, bit, _) => 0x3700_0000 + bit / 32 * 0x8000_0000 + bit % 32 * 0x8_0000 + m * 0x20 + r
  }

  lemma PlaceholderIsSum(b: Branch)
    requires Accepts(b)
    ensures Placeholder(b) == Compose(b, 0)
  {
    hide Or, Shl;
    if b.Cbz? { RegisterWord(0xB400_0000, b.register); }
    else if b.Cbnz? { RegisterWord(0xB500_0000, b.register); }
    else if b.BConditional? { RegisterWord(0x5400_0000, b.condition); }
    else if b.Tbz? { TestWord(0x3600_0000, b.bit, b.register); }
    else if b.Tbnz? { TestWord(0x3700_0000, b.bit, b.register); }
  }

  /** The fields of a compare or conditional branch. */
  lemma CompareFields(top: nat, m: nat, low: nat)
    requires m < 0x8_0000 && low < 0x20
    ensures var w := top * 0x100_0000 + m * 0x20 + low;
      w % 0x20 == low && w / 0x20 % 0x8_0000 == m && w / 0x20 / 0x8_0000 == top
  {
    var w := top * 0x100_0000 + m * 0x20 + low;
    assert w / 0x20 == top * 0x8_0000 + m;
  }

  /** The fields of a test branch. */
  lemma TestFields(top: nat, bit: nat, m: nat, low: nat)
    requires bit < 32 && m < 0x4000 && low < 0x20
    ensures var w := top * 0x100_0000 + bit * 0x8_0000 + m * 0x20 + low;
      w % 0x20 == low && w / 0x20 % 0x4000 == m && w / 0x20 / 0x4000 % 0x20 == bit && w / 0x20 / 0x8_0000 == top
  {
    CompareFields(top, bit * 0x4000 + m, low);
    var upper := top * 0x8_0000 + bit * 0x4000 + m;
    assert upper / 0x4000 == top * 0x20 + bit;
  }

  lemma ComposeDecodes(b: Branch, m: nat)
    requires Accepts(b) && m < Span(KindOf(b))
    ensures Compose(b, m) < U32_LIMIT
    ensures DecodeBranch(Compose(b, m)) == Some(To(b, SignExtend(m, Span(KindOf(b)))))
  {
    hide DecodeBranch, SignExtend;
    if b.B? {
      JumpDecodes(m);
    } else if b.Tbz? || b.Tbnz? {
      TestDecodes(b, m);
    } else {
      CompareDecodes(b, m);
    }
  }

  lemma JumpDecodes(m: nat)
    requires m < 0x400_0000
    ensures DecodeBranch(0x1400_0000 + m) == Some(B(SignExtend(m, 0x400_0000)))
  {
    hide SignExtend;
    var w := 0x1400_0000 + m;
    assert w / 0x20 / 0x8_0000 / 4 == 0x05 && w % 0x400_0000 == m;
  }

  lemma CompareDecodes(b: Branch, m: nat)
    requires Accepts(b) && KindOf(b) == CompareBranch19 && m < 0x8_0000
    ensures Compose(b, m) < U32_LIMIT && DecodeBranch(Compose(b, m)) == Some(To(b, SignExtend(m, 0x8_0000)))
  {
    hide SignExtend;
    if b.Cbz? { CompareFields(0xB4, m, b.register); }
    else if b.Cbnz? { CompareFields(0xB5, m, b.register); }
    else { CompareFields(0x54, m, b.condition); }
  }

  lemma TestDecodes(b: Branch, m: nat)
    requires Accepts(b) && KindOf(b) == TestBranch14 && m < 0x4000
    ensures Compose(b, m) < U32_LIMIT && DecodeBranch(Compose(b, m)) == Some(To(b, SignExtend(m, 0x4000)))
  {
    hide SignExtend;
    var high, low := b.bit / 32, b.bit % 32;
    assert high == 0 || high == 1;
    var code := if b.Tbz? then 0x36 else 0x37;
    TestFields(code + high * 0x80, low, m, b.register);
    assert (code + high * 0x80) / 0x80 == high && (code + high * 0x80) % 0x80 == code;
  }

  /** A placeholder is the branch itself, to its own address. */
  lemma PlaceholderDecodes(b: Branch)
    requires Accepts(b)
    ensures Placeholder(b) < U32_LIMIT && DecodeBranch(Placeholder(b)) == Some(To(b, 0))
  {
    hide Placeholder, Compose, DecodeBranch;
    PlaceholderIsSum(b);
    ComposeDecodes(b, 0);
  }

  // ----- patching changes the displacement and nothing else

  lemma RemainderOfWord(displacement: int, kind: FixupKind)
    ensures displacement % U32_LIMIT % Span(kind) == displacement % Span(kind)
  {
    var p := Span(kind);
    var wraps, bits := displacement / U32_LIMIT, displacement % U32_LIMIT;
    var times := if kind == Branch26 then 0x40 else if kind == CompareBranch19 then 0x2000 else 0x4_0000;
    assert U32_LIMIT == p * times;
    assert p * (times * wraps) == p * times * wraps;
    ReduceMultiple(p, times * wraps, bits);
  }

  lemma MaskedDisplacement(displacement: int, kind: FixupKind)
    ensures And(displacement % U32_LIMIT, Span(kind) - 1) == displacement % Span(kind)
  {
    hide And, Pow2;
    FieldPowers();
    RemainderOfWord(displacement, kind);
    var bits := displacement % U32_LIMIT;
    MaskIsRemainder(bits, FieldWidth(kind), Span(kind));
  }

  lemma PatchIsSum(kind: FixupKind, word: u32, displacement: int)
    requires kind == Branch26 ==> word % 0x400_0000 == 0
    requires kind == CompareBranch19 ==> word / 0x20 % 0x8_0000 == 0
    requires kind == TestBranch14 ==> word / 0x20 % 0x4000 == 0
    ensures Patch(kind, word, displacement) == word + displacement % Span(kind) * if kind == Branch26 then 1 else 0x20
  {
    hide Or, Shl, And, Low, Shr, Pow2;
    FieldPowers();
    MaskedDisplacement(displacement, kind);
    var m := displacement % Span(kind);
    if kind == Branch26 {
      OrField(word, m, 26, 0x400_0000);
    } else {
      ShlIsProduct(m, 5, 0x20);
      ShrIsQuotient(word, 5, 0x20);
      LowIsRemainder(word / 0x20, FieldWidth(kind), Span(kind));
      OrIntoField(word, m, 5, FieldWidth(kind));
    }
  }

  lemma EmptyField(b: Branch)
    requires Accepts(b)
    ensures Placeholder(b) < U32_LIMIT
    ensures var w := Placeholder(b);
      if b.B? then w % 0x400_0000 == 0 else w / 0x20 % Span(KindOf(b)) == 0
  {
    hide Placeholder;
    PlaceholderIsSum(b);
    ComposeDecodes(b, 0);
    if b.Cbz? { CompareFields(0xB4, 0, b.register); }
    else if b.Cbnz? { CompareFields(0xB5, 0, b.register); }
    else if b.BConditional? { CompareFields(0x54, 0, b.condition); }
    else if b.Tbz? { TestFields(0x36 + b.bit / 32 * 0x80, b.bit % 32, 0, b.register); }
    else if b.Tbnz? { TestFields(0x37 + b.bit / 32 * 0x80, b.bit % 32, 0, b.register); }
  }

  /** Once patched, a placeholder branches by exactly the displacement: opcode, register,
      condition and bit number are as they were. */
  lemma PatchDecodes(b: Branch, displacement: int)
    requires Accepts(b) && InRange(KindOf(b), displacement)
    ensures Placeholder(b) < U32_LIMIT
    ensures var w := Patch(KindOf(b), Placeholder(b), displacement);
      w < U32_LIMIT && DecodeBranch(w) == Some(To(b, displacement))
  {
    hide Placeholder, Patch, DecodeBranch;
    var kind := KindOf(b);
    EmptyField(b);
    PatchIsSum(kind, Placeholder(b), displacement);
    PlaceholderIsSum(b);
    ComposeDecodes(b, displacement % Span(kind));
  }

  /** The zero register, or one of the two conditions that always hold. */
  predicate Unusable(b: Branch) {
    ((b.Cbz? || b.Cbnz? || b.Tbz? || b.Tbnz?) && b.register == 31) || (b.BConditional? && b.condition >= 14)
  }

  /** The operands and displacements that are accepted are exactly those that an instruction word can
      hold, but for those. */
  lemma RangeIsExact(b: Branch)
    ensures Accepts(b) && InRange(KindOf(b), b.offset) <==>
      (exists w: u32 :: DecodeBranch(w) == Some(b)) && !Unusable(b)
  {
    hide Placeholder, Patch;
    if Accepts(b) && InRange(KindOf(b), b.offset) {
      PatchDecodes(b, b.offset);
      var w: u32 := Patch(KindOf(b), Placeholder(b), b.offset);
      assert DecodeBranch(w) == Some(b);
    }
    if w: u32 :| DecodeBranch(w) == Some(b) {
      DecodedFits(w);
    }
  }

  lemma DecodedFits(w: u32)
    requires DecodeBranch(w).Some?
    ensures var b := DecodeBranch(w).value;
      InRange(KindOf(b), b.offset) && (Accepts(b) <==> !Unusable(b))
  {
  }
}
