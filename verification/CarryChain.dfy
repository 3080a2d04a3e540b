/** Multi-word arithmetic: the carry flag threads through a chain of 64-bit add-with-carry or
    subtract-with-borrow steps. */
module CarryChain {
  import opened Words
  import opened Flags
  import opened FlagHelpers

  /** A number as 64-bit limbs, least significant first. */
  function Value(limbs: seq<u64>): nat {
    if limbs == [] then 0 else limbs[0] + U64_LIMIT * Value(limbs[1..])
  }

  /** The same limbs as a two's complement number. */
  function SignedValue(limbs: seq<u64>): int
    requires limbs != []
  {
    if |limbs| == 1 then Signed(I64, limbs[0]) else limbs[0] + U64_LIMIT * SignedValue(limbs[1..])
  }

  function Weight(n: nat): (w: nat)
    ensures w > 0
  {
    if n == 0 then 1 else U64_LIMIT * Weight(n - 1)
  }

  predicate FitsSigned(n: nat, v: int)
    requires n > 0
  {
    if n == 1 then SignedFits(I64, v) else FitsSigned(n - 1, v / U64_LIMIT)
  }

  function Carry(a: Arith): nat { if a.cf then 1 else 0 }

  /** One step per limb: the result limb, then the flags that feed the next step. */
  function AdcChain(a: seq<u64>, b: seq<u64>, carry: nat): (r: (seq<u64>, Arith))
    requires |a| == |b| > 0 && carry <= 1
    ensures |r.0| == |a|
  {
    var flags := AdcFormula(I64, a[0], b[0], carry);
    var limb := Add64(Add64(a[0], b[0]), carry);
    if |a| == 1 then ([limb], flags)
    else
      var rest := AdcChain(a[1..], b[1..], Carry(flags));
      ([limb] + rest.0, rest.1)
  }

  function SbbChain(a: seq<u64>, b: seq<u64>, borrow: nat): (r: (seq<u64>, Arith))
    requires |a| == |b| > 0 && borrow <= 1
    ensures |r.0| == |a|
  {
    var flags := SbbFormula(I64, a[0], b[0], borrow);
    var limb := Sub64(a[0], Add64(b[0], borrow));
    if |a| == 1 then ([limb], flags)
    else
      var rest := SbbChain(a[1..], b[1..], Carry(flags));
      ([limb] + rest.0, rest.1)
  }

  function CarryBit(rflags: u64): nat { if Bit(rflags, 0) then 1 else 0 }

  /** One step on the processor state: the carry comes out of the flags word and the step's
      flags go back into it. */
  method RunAdcStep(state: X86State, l: u64, r: u64) returns (limb: u64)
    modifies state
    ensures limb == Add64(Add64(l, r), CarryBit(old(state.rflags)))
    ensures ArithOf(state.rflags) == AdcFormula(I64, l, r, CarryBit(old(state.rflags)))
    ensures SystemFlags(state.rflags) == SystemFlags(old(state.rflags))
  {
    var carry := CarryBit(state.rflags);
    var formula := AdcFormula(I64, l, r, carry);
    SystemOfMaterialise(state.rflags, formula);
    MaterialisedFlags(state.rflags, formula);
    limb := Add64(Add64(l, r), carry);
    UpdateAdcFlags64(state, l, r, carry);
  }

  lemma AdcChainUnfold(a: seq<u64>, b: seq<u64>, i: nat, carry: nat)
    requires i < |a| == |b| && carry <= 1
    ensures var flags := AdcFormula(I64, a[i], b[i], carry);
      var limb := Add64(Add64(a[i], b[i]), carry);
      AdcChain(a[i..], b[i..], carry) ==
        if i + 1 == |a| then ([limb], flags)
        else
          var rest := AdcChain(a[i + 1..], b[i + 1..], Carry(flags));
          ([limb] + rest.0, rest.1)
  {
    hide AdcFormula;
    assert a[i..][1..] == a[i + 1..] && b[i..][1..] == b[i + 1..];
  }

  method RunAdcChain(state: X86State, a: seq<u64>, b: seq<u64>) returns (limbs: seq<u64>)
    requires |a| == |b| > 0
    modifies state
    ensures (limbs, ArithOf(state.rflags)) == AdcChain(a, b, CarryBit(old(state.rflags)))
    ensures SystemFlags(state.rflags) == SystemFlags(old(state.rflags))
  {
    hide AdcFormula;
    limbs := [];
    var i := 0;
    ghost var whole := AdcChain(a, b, CarryBit(state.rflags));
    assert a[0..] == a && b[0..] == b;
    while i < |a|
      invariant 0 <= i <= |a| && |limbs| == i
      invariant i < |a| ==>
        var rest := AdcChain(a[i..], b[i..], CarryBit(state.rflags));
        whole.0 == limbs + rest.0 && whole.1 == rest.1
      invariant i == |a| ==> whole == (limbs, ArithOf(state.rflags))
      invariant SystemFlags(state.rflags) == SystemFlags(old(state.rflags))
    {
      AdcChainUnfold(a, b, i, CarryBit(state.rflags));
      ghost var before := limbs;
      var limb := RunAdcStep(state, a[i], b[i]);
      limbs := limbs + [limb];
      i := i + 1;
      if i < |a| {
        ghost var rest := AdcChain(a[i..], b[i..], CarryBit(state.rflags));
        assert before + ([limb] + rest.0) == limbs + rest.0;
      }
    }
  }

  lemma AdcStep(l: u64, r: u64, c: nat)
    requires c <= 1
    ensures Add64(Add64(l, r), c) + U64_LIMIT * Carry(AdcFormula(I64, l, r, c)) == l + r + c
    ensures AdcFormula(I64, l, r, c).of <==> !SignedFits(I64, Signed(I64, l) + Signed(I64, r) + c)
  {
    hide AdcFormula, EvenParity, Signed, SignedFits;
    AdcFormulaIsSum(I64, l, r, c);
    NarrowIs64(l);
    NarrowIs64(r);
    hide Narrow;
    CarryTwice(l, r, c);
    WrapOnce(I64, l + r + c);
  }

  lemma SbbStep(l: u64, r: u64, b: nat)
    requires b <= 1
    ensures Sub64(l, Add64(r, b)) - U64_LIMIT * Carry(SbbFormula(I64, l, r, b)) == l - r - b
    ensures SbbFormula(I64, l, r, b).of <==> !SignedFits(I64, Signed(I64, l) - Signed(I64, r) - b)
  {
    hide SbbFormula, EvenParity, Signed, SignedFits;
    SbbFormulaIsDifference(I64, l, r, b);
    NarrowIs64(l);
    NarrowIs64(r);
    hide Narrow;
    BorrowTwice(l, r, b);
    WrapOnce(I64, l - r - b);
  }

  /** Adding limb by limb: the low digit and the carry `k` absorb the low operands. */
  lemma FoldLimb(limb: nat, k: nat, low: int, high: nat, weight: nat, out: nat, total: int)
    requires limb + U64_LIMIT * k == low
    requires high + weight * out == total + k
    ensures limb + U64_LIMIT * high + (U64_LIMIT * weight) * out == low + U64_LIMIT * total
  {
    assert (U64_LIMIT * weight) * out == U64_LIMIT * (weight * out);
  }

  lemma FoldLimbDown(limb: nat, k: nat, low: int, high: nat, weight: nat, out: nat, total: int)
    requires limb - U64_LIMIT * k == low
    requires high - weight * out == total - k
    ensures limb + U64_LIMIT * high - (U64_LIMIT * weight) * out == low + U64_LIMIT * total
  {
    assert (U64_LIMIT * weight) * out == U64_LIMIT * (weight * out);
  }

  lemma DropLimb(limb: u64, t: int, v: int)
    requires v == limb + U64_LIMIT * t
    ensures v / U64_LIMIT == t
  {
  }

  /** The final limbs and carry are the sum of the whole numbers. */
  lemma {:induction false} AdcChainIsSum(a: seq<u64>, b: seq<u64>, carry: nat)
    requires |a| == |b| > 0 && carry <= 1
    ensures var r := AdcChain(a, b, carry);
      Value(r.0) + Weight(|a|) * Carry(r.1) == Value(a) + Value(b) + carry
  {
    var flags := AdcFormula(I64, a[0], b[0], carry);
    var limb := Add64(Add64(a[0], b[0]), carry);
    var k := Carry(flags);
    AdcStep(a[0], b[0], carry);
    if |a| == 1 {
      SingleLimb(a);
      SingleLimb(b);
      SingleLimb([limb]);
    } else {
      AdcChainIsSum(a[1..], b[1..], k);
      var rest := AdcChain(a[1..], b[1..], k);
      assert ([limb] + rest.0)[1..] == rest.0;
      FoldLimb(limb, k, a[0] + b[0] + carry, Value(rest.0), Weight(|a| - 1), Carry(rest.1),
        Value(a[1..]) + Value(b[1..]));
    }
  }

  lemma SingleLimb(a: seq<u64>)
    requires |a| == 1
    ensures Value(a) == a[0] && Weight(1) == U64_LIMIT
  {
    assert a[1..] == [];
    assert Value(a) == a[0] + U64_LIMIT * Value([]);
  }

  /** The final overflow flag is the signed overflow of the whole numbers. */
  lemma {:induction false} AdcChainOverflow(a: seq<u64>, b: seq<u64>, carry: nat)
    requires |a| == |b| > 0 && carry <= 1
    ensures AdcChain(a, b, carry).1.of <==> !FitsSigned(|a|, SignedValue(a) + SignedValue(b) + carry)
  {
    hide AdcFormula, Add64, SignedFits, Signed;
    var k := Carry(AdcFormula(I64, a[0], b[0], carry));
    var limb := Add64(Add64(a[0], b[0]), carry);
    AdcStep(a[0], b[0], carry);
    if |a| > 1 {
      AdcChainOverflow(a[1..], b[1..], k);
      DropLimb(limb, SignedValue(a[1..]) + SignedValue(b[1..]) + k, SignedValue(a) + SignedValue(b) + carry);
    }
  }

  lemma {:induction false} SbbChainIsDifference(a: seq<u64>, b: seq<u64>, borrow: nat)
    requires |a| == |b| > 0 && borrow <= 1
    ensures var r := SbbChain(a, b, borrow);
      Value(r.0) - Weight(|a|) * Carry(r.1) == Value(a) - Value(b) - borrow
  {
    var flags := SbbFormula(I64, a[0], b[0], borrow);
    var limb := Sub64(a[0], Add64(b[0], borrow));
    var k := Carry(flags);
    SbbStep(a[0], b[0], borrow);
    if |a| == 1 {
      SingleLimb(a);
      SingleLimb(b);
      SingleLimb([limb]);
    } else {
      SbbChainIsDifference(a[1..], b[1..], k);
      var rest := SbbChain(a[1..], b[1..], k);
      assert ([limb] + rest.0)[1..] == rest.0;
      FoldLimbDown(limb, k, a[0] - b[0] - borrow, Value(rest.0), Weight(|a| - 1), Carry(rest.1),
        Value(a[1..]) - Value(b[1..]));
    }
  }

  lemma {:induction false} SbbChainOverflow(a: seq<u64>, b: seq<u64>, borrow: nat)
    requires |a| == |b| > 0 && borrow <= 1
    ensures SbbChain(a, b, borrow).1.of <==> !FitsSigned(|a|, SignedValue(a) - SignedValue(b) - borrow)
  {
    hide SbbFormula, Add64, Sub64, SignedFits, Signed;
    var k := Carry(SbbFormula(I64, a[0], b[0], borrow));
    var limb := Sub64(a[0], Add64(b[0], borrow));
    SbbStep(a[0], b[0], borrow);
    if |a| > 1 {
      SbbChainOverflow(a[1..], b[1..], k);
      DropLimb(limb, SignedValue(a[1..]) - SignedValue(b[1..]) - k, SignedValue(a) - SignedValue(b) - borrow);
    }
  }

  /** `FitsSigned` is the range of an `n`-limb two's complement number. */
  lemma {:induction false} FitsSignedIsRange(n: nat, v: int)
    requires n > 0
    ensures FitsSigned(n, v) <==> 0 - Weight(n) <= 2 * v < Weight(n)
  {
    if n > 1 {
      FitsSignedIsRange(n - 1, v / U64_LIMIT);
      var q, w := v / U64_LIMIT, Weight(n - 1);
      assert Weight(n) == U64_LIMIT * w;
      WeightIsEven(n - 1);
    }
  }

  lemma WeightIsEven(n: nat)
    requires n > 0
    ensures Weight(n) == 2 * (Weight(n) / 2)
  {
    assert Weight(n) == 2 * (0x8000_0000_0000_0000 * Weight(n - 1));
  }
}
