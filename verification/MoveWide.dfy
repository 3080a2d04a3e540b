/** Putting a 64-bit constant into a register with MOVZ, MOVN and MOVK, as section C6.2 of the
    Arm Architecture Reference Manual (DDI 0487) defines them. */
module MoveWide {
  import opened Options
  import opened Words

  /** A register is four halfwords, the lowest first. */
  type Halves = h: seq<u16> | |h| == 4 witness [0, 0, 0, 0]

  function Halfword(x: u64, k: nat): u16
    requires k < 4
  {
    if k == 0 then x % 0x1_0000
    else if k == 1 then x / 0x1_0000 % 0x1_0000
    else if k == 2 then x / 0x1_0000_0000 % 0x1_0000
    else x / 0x1_0000_0000_0000
  }

  function Split(x: u64): Halves {
    [Halfword(x, 0), Halfword(x, 1), Halfword(x, 2), Halfword(x, 3)]
  }

  function Place(a: nat, b: nat, c: nat, d: nat): nat {
    a + 0x1_0000 * b + 0x1_0000_0000 * c + 0x1_0000_0000_0000 * d
  }

  function Join(h: Halves): (x: u64) {
    var x := Place(h[0], h[1], h[2], h[3]);
    assert x < U64_LIMIT;
    x
  }

  lemma JoinSplit(x: u64)
    ensures Join(Split(x)) == x
  {
    assert x / 0x1_0000_0000 == x / 0x1_0000 / 0x1_0000;
    assert x / 0x1_0000_0000_0000 == x / 0x1_0000_0000 / 0x1_0000;
  }

  lemma LowestHalf(a: nat, y: nat)
    requires a < 0x1_0000
    ensures (a + 0x1_0000 * y) / 0x1_0000 == y && (a + 0x1_0000 * y) % 0x1_0000 == a
  {
  }

  lemma SplitJoin(h: Halves)
    ensures Split(Join(h)) == h
  {
    var x: nat := Join(h);
    var b, c, d: nat := h[1], h[2], h[3];
    var upper := c + 0x1_0000 * d;
    var middle := b + 0x1_0000 * upper;
    assert x == h[0] + 0x1_0000 * middle;
    LowestHalf(h[0], middle);
    LowestHalf(b, upper);
    LowestHalf(c, d);
    assert x / 0x1_0000_0000 == x / 0x1_0000 / 0x1_0000;
    assert x / 0x1_0000_0000_0000 == x / 0x1_0000_0000 / 0x1_0000;
  }

  // ----- instructions

  datatype Kind = Movz | Movn | Movk

  datatype Move = Move(kind: Kind, halfword: nat, immediate: u16, register: nat)

  predicate IsMove(m: Move) {
    m.halfword < 4 && m.register < 32
  }

  function Base(kind: Kind): u32 {
    match kind
    case Movz => 0xD280_0000
    case Movn => 0x9280_0000
    case Movk => 0xF280_0000
  }

  /** The word as the assembler puts it together. */
  function Encode(m: Move): nat {
    Or(Or(Or(Base(m.kind), Shl(m.halfword, 21)), Shl(m.immediate, 5)), m.register)
  }

  /** The instruction that a word is, by its fields: the register in bits 4..0, the immediate
      in bits 20..5, the halfword in bits 22..21 and the opcode above them. */
  function Decode(w: u32): (m: Option<Move>)
    ensures m.Some? ==> IsMove(m.value)
  {
    var upper := w / 0x20;
    var top := upper / 0x4_0000;
    var kind := if top == 0x1A5 then Some(Movz) else if top == 0x125 then Some(Movn)
      else if top == 0x1E5 then Some(Movk) else None;
    if kind.None? then None
    else Some(Move(kind.value, upper / 0x1_0000 % 4, upper % 0x1_0000, w % 0x20))
  }

  lemma FieldsAddUp(base: u32, hw: nat, immediate: u16, register: nat)
    requires base % 0x80_0000 == 0 && hw < 4 && register < 32
    ensures Or(Or(Or(base, Shl(hw, 21)), Shl(immediate, 5)), register) ==
      base + hw * 0x20_0000 + immediate * 0x20 + register
  {
    hide Shl, Or, Pow2, Low, Shr;
    FieldPowers();
    ShlIsProduct(hw, 21, 0x20_0000);
    ShlIsProduct(immediate, 5, 0x20);
    OrField(base, hw * 0x20_0000, 23, 0x80_0000);
    var a := base + hw * 0x20_0000;
    OrField(a, immediate * 0x20, 21, 0x20_0000);
    OrField(a + immediate * 0x20, register, 5, 0x20);
  }

  /** A field is added below the digits that are already there. */
  lemma OrField(x: nat, field: nat, k: nat, p: nat)
    requires p == Pow2(k) && x % p == 0 && field < p
    ensures Or(x, field) == x + field
  {
    LowIsRemainder(x, k, p);
    OrDisjoint(x, field, k);
  }

  lemma EncodeIsSum(m: Move)
    requires IsMove(m)
    ensures Encode(m) == Base(m.kind) + m.halfword * 0x20_0000 + m.immediate * 0x20 + m.register < U32_LIMIT
  {
    FieldsAddUp(Base(m.kind), m.halfword, m.immediate, m.register);
  }

  /** Encoding and decoding undo each other. */
  lemma DecodeEncode(m: Move)
    requires IsMove(m)
    ensures Encode(m) < U32_LIMIT && Decode(Encode(m)) == Some(m)
  {
    hide Encode;
    EncodeIsSum(m);
    var w: u32 := Encode(m);
    var upper := w / 0x20;
    var base := Base(m.kind) / 0x20;
    assert upper == base + m.halfword * 0x1_0000 + m.immediate && w % 0x20 == m.register;
    assert upper / 0x1_0000 == base / 0x1_0000 + m.halfword;
    assert upper / 0x4_0000 == base / 0x4_0000;
  }

  lemma EncodeDecode(w: u32)
    requires Decode(w).Some?
    ensures Encode(Decode(w).value) == w
  {
    hide Encode;
    var m := Decode(w).value;
    EncodeIsSum(m);
    var upper := w / 0x20;
    assert upper == upper / 0x4_0000 * 0x4_0000 + m.halfword * 0x1_0000 + m.immediate;
  }

  // ----- what a run of moves does

  /** One instruction on the halfwords of its register. */
  function Step(m: Move, h: Halves): Halves
    requires IsMove(m)
  {
    match m.kind
    case Movz => [0, 0, 0, 0][m.halfword := m.immediate]
    case Movn => [0xFFFF, 0xFFFF, 0xFFFF, 0xFFFF][m.halfword := 0xFFFF - m.immediate]
    case Movk => h[m.halfword := m.immediate]
  }

  /** The halfwords of register `r` after `words`, all of which must be moves into it. */
  function Run(words: seq<u32>, r: nat, h: Halves): Option<Halves> {
    if words == [] then Some(h)
    else
      var before := Run(words[..|words| - 1], r, h);
      var m := Decode(words[|words| - 1]);
      if before.Some? && m.Some? && m.value.register == r then Some(Step(m.value, before.value)) else None
  }

  lemma RunNext(words: seq<u32>, r: nat, h: Halves, m: Move)
    requires IsMove(m) && m.register == r && Run(words, r, h).Some?
    ensures Encode(m) < U32_LIMIT
    ensures Run(words + [Encode(m)], r, h) == Some(Step(m, Run(words, r, h).value))
  {
    hide Encode, Decode;
    DecodeEncode(m);
    var longer := words + [Encode(m)];
    assert longer[..|longer| - 1] == words;
  }

  // ----- movImmediate for a plain constant

  function Count(h: seq<u16>, fill: u16): nat {
    if h == [] then 0 else Count(h[..|h| - 1], fill) + (if h[|h| - 1] != fill then 1 else 0)
  }

  function Max(a: nat, b: nat): nat { if a < b then b else a }

  function Min(a: nat, b: nat): nat { if a < b then a else b }

  /** The number of instructions, as the back end estimates it when it picks a constant to pin. */
  function MaterialisationCost(value: u64): nat {
    Max(1, Min(Count(Split(value), 0), Count(Split(value), 0xFFFF)))
  }

  /** The words that load a constant, whatever the register held. */
  ghost predicate Materialises(words: seq<u32>, r: nat, value: u64) {
    forall h: Halves :: Run(words, r, h) == Some(Split(value))
  }

  method MovImmediate(destination: nat, value: u64) returns (words: seq<u32>)
    requires destination <= 30
    ensures Materialises(words, destination, value)
    ensures |words| == MaterialisationCost(value)
  {
    var halfwords := Split(value);
    var nonzeroCount, nonOnesCount := 0, 0;
    for halfword := 0 to 4
      invariant nonzeroCount == Count(halfwords[..halfword], 0)
      invariant nonOnesCount == Count(halfwords[..halfword], 0xFFFF)
    {
      assert halfwords[..halfword + 1][..halfword] == halfwords[..halfword];
      if halfwords[halfword] != 0 { nonzeroCount := nonzeroCount + 1; }
      if halfwords[halfword] != 0xFFFF { nonOnesCount := nonOnesCount + 1; }
    }
    assert halfwords[..4] == halfwords;
    var useMovn := nonOnesCount < nonzeroCount;
    var fill: u16 := if useMovn then 0xFFFF else 0;
    var uniform := if useMovn then value == U64_LIMIT - 1 else value == 0;
    UniformHalves(value);
    words := [];
    var emittedFirst := false;
    for halfword := 0 to 4
      invariant emittedFirst <==> words != []
      invariant !emittedFirst ==> Count(halfwords[..halfword], fill) == 0 && (uniform ==> halfword == 0)
      invariant emittedFirst ==> |words| == Max(1, Count(halfwords[..halfword], fill))
      invariant emittedFirst ==> uniform || Count(halfwords[..halfword], fill) >= 1
      invariant emittedFirst ==> forall h: Halves ::
        Run(words, destination, h) == Some(Prefix(halfwords, halfword, fill))
    {
      assert halfwords[..halfword + 1][..halfword] == halfwords[..halfword];
      var desired := halfwords[halfword];
      if desired == fill && (emittedFirst || !uniform) {
        assert Prefix(halfwords, halfword + 1, fill) == Prefix(halfwords, halfword, fill);
      } else {
        var immediate: u16 := if useMovn && !emittedFirst then 0xFFFF - desired else desired;
        var kind := if emittedFirst then Movk else if useMovn then Movn else Movz;
        var move := Move(kind, halfword, immediate, destination);
        EmittedMove(words, halfwords, halfword, fill, move);
        words := words + [Encode(move)];
        emittedFirst := true;
      }
    }
    AllFillIsUniform(value, fill);
    assert Prefix(halfwords, 4, fill) == halfwords;
  }

  /** The halfwords loaded so far, over the fill. */
  function Prefix(h: Halves, n: nat, fill: u16): Halves
    requires n <= 4
  {
    seq(4, k requires 0 <= k < 4 => if k < n then h[k] else fill)
  }

  lemma PrefixNext(h: Halves, n: nat, fill: u16)
    requires n < 4
    ensures Prefix(h, n + 1, fill) == Prefix(h, n, fill)[n := h[n]]
  {
  }

  lemma UniformHalves(value: u64)
    ensures value == 0 ==> Split(value) == [0, 0, 0, 0]
    ensures value == U64_LIMIT - 1 ==> Split(value) == [0xFFFF, 0xFFFF, 0xFFFF, 0xFFFF]
  {
  }

  lemma {:induction false} CountZero(h: seq<u16>, fill: u16, k: nat)
    requires Count(h, fill) == 0 && k < |h|
    ensures h[k] == fill
  {
    if k < |h| - 1 { CountZero(h[..|h| - 1], fill, k); }
  }

  lemma AllFillIsUniform(value: u64, fill: u16)
    requires fill == 0 || fill == 0xFFFF
    ensures Count(Split(value), fill) == 0 ==> value == if fill == 0 then 0 else U64_LIMIT - 1
  {
    var h := Split(value);
    if Count(h, fill) == 0 {
      CountZero(h, fill, 0);
      CountZero(h, fill, 1);
      CountZero(h, fill, 2);
      CountZero(h, fill, 3);
      JoinSplit(value);
    }
  }

  predicate StartsFill(m: Move, fill: u16, desired: u16) {
    (fill == 0 && m.kind == Movz && m.immediate == desired) ||
      (fill == 0xFFFF && m.kind == Movn && m.immediate == 0xFFFF - desired)
  }

  /** The first word sets the register to the fill around one halfword, the others replace one. */
  lemma EmittedMove(words: seq<u32>, h: Halves, n: nat, fill: u16, m: Move)
    requires n < 4 && IsMove(m) && m.halfword == n
    requires words == [] ==> Count(h[..n], fill) == 0 && StartsFill(m, fill, h[n])
    requires words != [] ==> m.kind == Movk && m.immediate == h[n]
    requires words != [] ==> forall before: Halves :: Run(words, m.register, before) == Some(Prefix(h, n, fill))
    ensures Encode(m) < U32_LIMIT
    ensures forall before: Halves :: Run(words + [Encode(m)], m.register, before) == Some(Prefix(h, n + 1, fill))
  {
    hide Encode, Decode;
    DecodeEncode(m);
    PrefixNext(h, n, fill);
    forall before: Halves
      ensures Run(words + [Encode(m)], m.register, before) == Some(Prefix(h, n + 1, fill))
    {
      RunNext(words, m.register, before, m);
      if words == [] {
        forall k | 0 <= k < n
          ensures h[k] == fill
        {
          CountZero(h[..n], fill, k);
        }
        assert Step(m, before) == Prefix(h, n + 1, fill);
      }
    }
  }

  // ----- no shorter sequence exists

  function One(b: bool): nat { if b then 1 else 0 }

  lemma CountOfFour(h: Halves, fill: u16)
    ensures Count(h, fill) == One(h[0] != fill) + One(h[1] != fill) + One(h[2] != fill) + One(h[3] != fill)
  {
    assert h[..3][..2] == h[..2] && h[..2][..1] == h[..1] && h[..1][..0] == [];
    assert Count(h[..1], fill) == One(h[0] != fill);
    assert Count(h[..2], fill) == Count(h[..1], fill) + One(h[1] != fill);
    assert Count(h[..3], fill) == Count(h[..2], fill) + One(h[2] != fill);
  }

  function Differences(h: Halves, g: Halves): nat {
    One(h[0] != g[0]) + One(h[1] != g[1]) + One(h[2] != g[2]) + One(h[3] != g[3])
  }

  /** After `n` moves, at most `n` halfwords differ from the start, or from one of the fills. */
  ghost predicate Reaches(h: Halves, start: Halves, n: nat) {
    Differences(h, start) <= n || (n >= 1 && (Count(h, 0) <= n || Count(h, 0xFFFF) <= n))
  }

  lemma StepReaches(m: Move, h: Halves, start: Halves, n: nat)
    requires IsMove(m) && Reaches(h, start, n)
    ensures Reaches(Step(m, h), start, n + 1)
  {
    hide Count;
    var g := Step(m, h);
    CountOfFour(h, 0);
    CountOfFour(h, 0xFFFF);
    CountOfFour(g, 0);
    CountOfFour(g, 0xFFFF);
  }

  lemma {:induction false} RunReaches(words: seq<u32>, r: nat, start: Halves)
    requires Run(words, r, start).Some?
    ensures Reaches(Run(words, r, start).value, start, |words|)
  {
    hide Reaches, Step, Decode;
    if words == [] {
      NothingMoved(start);
    } else {
      RunReaches(words[..|words| - 1], r, start);
      StepReaches(Decode(words[|words| - 1]).value, Run(words[..|words| - 1], r, start).value, start, |words| - 1);
    }
  }

  lemma NothingMoved(start: Halves)
    ensures Reaches(start, start, 0)
  {
  }

  /** Nothing shorter than what `MovImmediate` emits loads the constant. */
  lemma Shortest(words: seq<u32>, r: nat, value: u64)
    requires Materialises(words, r, value)
    ensures |words| >= MaterialisationCost(value)
  {
    hide Decode, Step, Count;
    var h := Split(value);
    var start: Halves := seq(4, k requires 0 <= k < 4 => if h[k] == 0 then 1 else 0);
    RunReaches(words, r, start);
    CountOfFour(h, 0);
    CountOfFour(h, 0xFFFF);
  }
}
