/** What a few x86 instructions do, said in integers: the reference for what they are lowered to. */
module X86 {
  import opened Options
  import opened Words
  import opened ByteOrder
  import opened Flags
  import opened FlagHelpers
  import opened IR

  /** Register forms, loads and stores through a base register, and tests of conditions. */
  datatype Instruction =
    | MovImm(w: Width, d: Reg, value: u64)
    | MovReg(w: Width, d: Reg, s: Reg)
    | Load(w: Width, d: Reg, base: Reg)
    | Store(w: Width, base: Reg, s: Reg)
    | AddReg(w: Width, d: Reg, s: Reg)
    | SubReg(w: Width, d: Reg, s: Reg)
    | CmpReg(w: Width, d: Reg, s: Reg)
    | NegReg(w: Width, d: Reg)
    | AdcReg(w: Width, d: Reg, s: Reg)
    | SbbSame(w: Width, d: Reg)
    | SbbImm(w: Width, d: Reg, value: u64)
    | IncReg(w: Width, d: Reg)
    | DecReg(w: Width, d: Reg)
    | TestReg(w: Width, d: Reg, s: Reg)
    | ZeroReg(w: Width, d: Reg)
    | SetCc(condition: Condition, d: Reg)
    | CmovCc(w: Width, condition: Condition, d: Reg, s: Reg)
    | CmovLoad(w: Width, condition: Condition, d: Reg, base: Reg)

  datatype Exit =
    | Jump(target: u64)
    | JumpReg(r: Reg)
    | JumpIf(condition: Condition, target: u64, next: u64)
    | CallTo(target: u64, next: u64)
    | CallReg(r: Reg, next: u64)
    | SystemCall(next: u64)
    | Ret

  datatype Placed = Placed(rip: u64, instruction: Instruction)

  datatype Program = Program(start: u64, body: seq<Placed>, exitRip: u64, exit: Exit)

  // ----- registers and memory

  /** Byte and word writes keep the rest of the register, a 32-bit write clears the upper half. */
  function Put(regs: Registers, d: Reg, w: Width, v: nat): Registers {
    regs[d :=
      match w
      case I8 => regs[d] - regs[d] % 0x100 + v % 0x100
      case I16 => regs[d] - regs[d] % 0x1_0000 + v % 0x1_0000
      case I32 => v % 0x1_0000_0000
      case I64 => v % 0x1_0000_0000_0000_0000]
  }

  /** Addresses wrap around. */
  function Nth(a: u64, i: nat): u64 { (a + i) % 0x1_0000_0000_0000_0000 }

  predicate Accessible(memory: map<u64, byte>, a: u64, n: nat) {
    forall i | 0 <= i < n :: Nth(a, i) in memory
  }

  /** The little-endian number in `n` bytes. */
  function Loaded(memory: map<u64, byte>, a: u64, n: nat): nat
    requires Accessible(memory, a, n)
  {
    FromBytes(seq(n, i requires 0 <= i < n => memory[Nth(a, i)]))
  }

  /** How far behind `a` an address is. */
  function Behind(k: u64, a: u64): nat { (k - a) % 0x1_0000_0000_0000_0000 }

  function Stored(memory: map<u64, byte>, a: u64, v: nat, n: nat): map<u64, byte> {
    map k | k in memory :: if Behind(k, a) < n then ToBytes(v, n)[Behind(k, a)] else memory[k]
  }

  // ----- instructions

  /** The operand sizes that the lowering accepts. */
  predicate Accepted(i: Instruction) {
    match i
    case MovImm(w, _, _) => w != I8
    case SubReg(w, _, _) => w != I16
    case AdcReg(w, _, _) => w == I32 || w == I64
    case SbbSame(w, _) => w == I32 || w == I64
    case TestReg(w, _, _) => w != I8
    case ZeroReg(w, _) => w == I32 || w == I64
    case CmovCc(w, _, _, _) => w == I32 || w == I64
    case CmovLoad(w, _, _, _) => w == I32 || w == I64
    case _ => true
  }

  function Carry(rflags: u64): nat { if Bit(rflags, 0) then 1 else 0 }

  /** One instruction, or none if memory that it touches is missing. The flags word gets the six
      flags of the operation on integers and keeps its other bits. */
  function Step(i: Instruction, st: GuestState): Option<GuestState> {
    var regs, word := st.regs, st.rflags;
    match i
    case MovImm(w, d, value) => Some(st.(regs := Put(regs, d, w, value)))
    case MovReg(w, d, s) => Some(st.(regs := Put(regs, d, w, regs[s])))
    case Load(w, d, base) =>
      if Accessible(st.memory, regs[base], Bits(w) / 8)
      then Some(st.(regs := Put(regs, d, w, Loaded(st.memory, regs[base], Bits(w) / 8)))) else None
    case Store(w, base, s) =>
      if Accessible(st.memory, regs[base], Bits(w) / 8)
      then Some(st.(memory := Stored(st.memory, regs[base], regs[s], Bits(w) / 8))) else None
    case AddReg(w, d, s) =>
      var l, r := regs[d] % Modulus(w), regs[s] % Modulus(w);
      Some(st.(regs := Put(regs, d, w, l + r), rflags := Materialise(word, SumFlags(w, l, r, 0))))
    case SubReg(w, d, s) =>
      var l, r := regs[d] % Modulus(w), regs[s] % Modulus(w);
      Some(st.(regs := Put(regs, d, w, (l - r) % Modulus(w)), rflags := Materialise(word, DifferenceFlags(w, l, r, 0))))
    case CmpReg(w, d, s) =>
      var l, r := regs[d] % Modulus(w), regs[s] % Modulus(w);
      Some(st.(rflags := Materialise(word, DifferenceFlags(w, l, r, 0))))
    case NegReg(w, d) =>
      var r := regs[d] % Modulus(w);
      Some(st.(regs := Put(regs, d, w, (0 - r) % Modulus(w)), rflags := Materialise(word, DifferenceFlags(w, 0, r, 0))))
    case AdcReg(w, d, s) =>
      var l, r, c := regs[d] % Modulus(w), regs[s] % Modulus(w), Carry(word);
      Some(st.(regs := Put(regs, d, w, l + r + c), rflags := Materialise(word, SumFlags(w, l, r, c))))
    case SbbSame(w, d) =>
      var l, c := regs[d] % Modulus(w), Carry(word);
      Some(st.(regs := Put(regs, d, w, (l - l - c) % Modulus(w)),
        rflags := Materialise(word, DifferenceFlags(w, l, l, c))))
    case SbbImm(w, d, value) =>
      var l, r, c := regs[d] % Modulus(w), value % Modulus(w), Carry(word);
      Some(st.(regs := Put(regs, d, w, (l - r - c) % Modulus(w)),
        rflags := Materialise(word, DifferenceFlags(w, l, r, c))))
    case IncReg(w, d) =>
      var l := regs[d] % Modulus(w);
      Some(st.(regs := Put(regs, d, w, l + 1),
        rflags := Materialise(word, SumFlags(w, l, 1, 0).(cf := Bit(word, 0)))))
    case DecReg(w, d) =>
      var l := regs[d] % Modulus(w);
      Some(st.(regs := Put(regs, d, w, (l - 1) % Modulus(w)),
        rflags := Materialise(word, DifferenceFlags(w, l, 1, 0).(cf := Bit(word, 0)))))
    case TestReg(w, d, s) =>
      Some(st.(rflags := Materialise(word, LogicFlags(w, And(regs[d], regs[s]) % Modulus(w)))))
    case ZeroReg(w, d) =>
      Some(st.(regs := Put(regs, d, w, 0), rflags := Materialise(word, LogicFlags(w, 0))))
    case SetCc(c, d) => Some(st.(regs := Put(regs, d, I8, if Means(c, ArithOf(word)) then 1 else 0)))
    case CmovCc(w, c, d, s) => Some(st.(regs := Put(regs, d, w, if Means(c, ArithOf(word)) then regs[s] else regs[d])))
    case CmovLoad(w, c, d, base) =>
      if Accessible(st.memory, regs[base], Bits(w) / 8) then
        Some(st.(regs := Put(regs, d, w,
          if Means(c, ArithOf(word)) then Loaded(st.memory, regs[base], Bits(w) / 8) else regs[d])))
      else None
  }

  // ----- programs

  datatype Progress = Reached(state: GuestState) | StoppedAt(rip: u64, state: GuestState)

  /** One instruction after the other, up to one that cannot access its memory. */
  function Steps(body: seq<Placed>, st: GuestState): Progress
    decreases |body|
  {
    if body == [] then Reached(st)
    else
      var next := Step(body[0].instruction, st);
      if next.None? then StoppedAt(body[0].rip, st) else Steps(body[1..], next.value)
  }

  /** The way out of a block: RCX takes the next address and R11 the flags word on a system call, and
      a return leaves its own address for whoever completes it. */
  function Leave(e: Exit, rip: u64, st: GuestState): Outcome {
    match e
    case Jump(target) => Left(Direct, st.(rip := target))
    case JumpReg(r) => Left(Direct, st.(rip := st.regs[r]))
    case JumpIf(c, target, next) => Left(Conditional, st.(rip := if Means(c, ArithOf(st.rflags)) then target else next))
    case CallTo(target, _) => Left(Call, st.(rip := target))
    case CallReg(r, _) => Left(Call, st.(rip := st.regs[r]))
    case SystemCall(next) => Left(Syscall, st.(rip := next, regs := st.regs[1 := next][11 := st.rflags]))
    case Ret => Left(Return, st.(rip := rip))
  }

  function RunProgram(p: Program, st: GuestState): Outcome {
    match Steps(p.body, st)
    case Reached(s) => Leave(p.exit, p.exitRip, s)
    case StoppedAt(rip, s) => Faulted(rip, s)
  }
}
