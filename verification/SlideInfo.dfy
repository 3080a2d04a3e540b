/** Rebasing the pages of a mapped shared cache (slide info version 2): packed lists of pointers
    inside each page, walked and rewritten in place. */
module SlideInfo {
  import opened Options
  import opened Words
  import opened ByteOrder

  const PAGE: nat := 4096

  datatype SlideInfo2 = SlideInfo2(
    pageSize: nat,
    pageStartsOffset: nat,
    pageStartsCount: nat,
    pageExtrasOffset: nat,
    pageExtrasCount: nat,
    deltaMask: u64,
    valueAdd: u64)

  // ----- the delta mask

  function TrailingZeros(x: nat): nat
    requires x > 0
  {
    if x % 2 == 1 then 0 else 1 + TrailingZeros(x / 2)
  }

  predicate MaskAccepted(mask: u64) {
    mask != 0 &&
    var zeros := TrailingZeros(mask);
    zeros >= 2 && And(Shr(mask, zeros), Shr(mask, zeros) + 1) == 0
  }

  function Zeros(mask: u64): nat
    requires mask > 0
  {
    TrailingZeros(mask)
  }

  function MaskWidth(mask: u64): nat
    requires mask > 0
  {
    Ones(Shr(mask, TrailingZeros(mask)))
  }

  lemma {:induction false} SplitAtZeros(x: nat)
    requires x > 0
    ensures x == Shl(Shr(x, TrailingZeros(x)), TrailingZeros(x))
    ensures Shr(x, TrailingZeros(x)) % 2 == 1
  {
    if x % 2 == 0 { SplitAtZeros(x / 2); }
  }

  /** An accepted mask is one run of ones that starts at digit 2 or above. */
  lemma MaskIsField(mask: u64)
    requires MaskAccepted(mask)
    ensures var zeros, n := Zeros(mask), MaskWidth(mask);
      zeros >= 2 && n >= 1 && zeros + n <= 64 && mask == Shl(Pow2(n) - 1, zeros)
  {
    var zeros, m := Zeros(mask), Shr(mask, Zeros(mask));
    SplitAtZeros(mask);
    AllOnes(m);
    var n := Ones(m);
    if zeros + n > 64 {
      TopOne(n, zeros);
    }
  }

  lemma {:induction false} TopOne(n: nat, zeros: nat)
    requires n >= 1 && zeros + n > 64
    ensures Shl(Pow2(n) - 1, zeros) >= U64_LIMIT
  {
    WordPowers();
    ShlIsProduct(Pow2(n) - 1, zeros, Pow2(zeros));
    ShlGrows(n, zeros);
    PowersGrow(64, zeros + n - 1);
  }

  lemma {:induction false} ShlGrows(n: nat, zeros: nat)
    requires n >= 1
    ensures Shl(Pow2(n) - 1, zeros) >= Pow2(zeros + n - 1)
  {
    if zeros > 0 { ShlGrows(n, zeros - 1); }
  }

  lemma {:induction false} PowersGrow(a: nat, b: nat)
    requires a <= b
    ensures Pow2(a) <= Pow2(b)
    decreases b - a
  {
    if a < b { PowersGrow(a, b - 1); }
  }

  // ----- one location

  function Field(raw: nat, zeros: nat, n: nat): nat {
    Low(Shr(raw, zeros), n)
  }

  /** Distance to the next location, and the value without it, as the walker extracts them. */
  function Delta(raw: u64, mask: u64): nat
    requires MaskAccepted(mask)
  {
    Shr(And(raw, mask), TrailingZeros(mask) - 2)
  }

  function Value(raw: u64, mask: u64): u64 {
    AndBound(raw, U64_LIMIT - 1 - mask);
    And(raw, U64_LIMIT - 1 - mask)
  }

  lemma {:induction false} ShrOfShl(x: nat, j: nat, k: nat)
    ensures Shr(Shl(x, j + k), k) == Shl(x, j)
  {
    if k > 0 {
      assert Shl(x, j + k) / 2 == Shl(x, j + k - 1);
      ShrOfShl(x, j, k - 1);
    }
  }

  lemma FourTimes(x: nat)
    ensures Shl(x, 2) == 4 * x
  {
    assert Shl(x, 2) == 2 * Shl(x, 1);
  }

  /** The distance is four times the masked field, the value is what is left. */
  lemma Extracted(raw: u64, mask: u64)
    requires MaskAccepted(mask)
    ensures var f := Field(raw, Zeros(mask), MaskWidth(mask));
      Delta(raw, mask) == 4 * f && Value(raw, mask) == raw - Shl(f, Zeros(mask)) && f < Pow2(MaskWidth(mask))
  {
    assert mask != 0;
    hide And, Low, Shr, Shl, Pow2, MaskAccepted, MaskWidth, TrailingZeros, Value;
    MaskIsField(mask);
    var zeros, n := Zeros(mask), MaskWidth(mask);
    var f := Field(raw, zeros, n);
    AndField(raw, zeros, n);
    ShrOfShl(f, 2, zeros - 2);
    FourTimes(f);
    LeftOver(raw, mask);
    LowBound(Shr(raw, zeros), n);
  }

  lemma LeftOver(raw: u64, mask: u64)
    ensures Value(raw, mask) == raw - And(raw, mask)
  {
    hide And, Pow2;
    WordPowers();
    AndComplement(raw, mask, 64);
  }

  /** A value that is zero stays zero, any other is moved. */
  function Rebase(value: u64, valueAdd: u64, slide: u64): Option<u64> {
    if value == 0 then Some(0)
    else if value > U64_LIMIT - 1 - valueAdd || value + valueAdd > U64_LIMIT - 1 - slide then None
    else Some(value + valueAdd + slide)
  }

  function U64At(page: seq<byte>, offset: nat): u64
    requires offset + 8 <= |page|
  {
    WordPowers();
    ValueRoundTrip(page[offset..offset + 8]);
    FromBytes(page[offset..offset + 8])
  }

  function PutU64(page: seq<byte>, offset: nat, x: u64): (r: seq<byte>)
    requires offset + 8 <= |page|
    ensures |r| == |page|
  {
    page[..offset] + ToBytes(x, 8) + page[offset + 8..]
  }

  // ----- a chain

  /** How a walk ends: with the rewritten page, with an exception, or, for a delta that wraps
      around 2^64, in front of a step backwards. */
  datatype Walk = Done(page: seq<byte>) | Rejected | Backwards

  /** One chain, from `offset` of the page on. */
  function Chain(page: seq<byte>, offset: u64, info: SlideInfo2, slide: u64): (w: Walk)
    requires |page| == PAGE && MaskAccepted(info.deltaMask)
    ensures w.Done? ==> |w.page| == PAGE
    decreases U64_LIMIT - offset
  {
    if offset > PAGE - 8 then Rejected
    else
      var raw := U64At(page, offset);
      var delta := Delta(raw, info.deltaMask);
      var value := Rebase(Value(raw, info.deltaMask), info.valueAdd, slide);
      if value.None? then Rejected
      else
        var next := PutU64(page, offset, value.value);
        if delta == 0 then Done(next)
        else if offset > (PAGE - delta) % U64_LIMIT then Rejected
        else if offset + delta >= U64_LIMIT then Backwards
        else Chain(next, offset + delta, info, slide)
  }

  // ----- exactly one mask lets a walk wrap

  const WRAPPING_MASK: u64 := 0xFFFF_FFFF_FFFF_FFFC

  lemma WidestMask(mask: u64)
    requires MaskAccepted(mask) && MaskWidth(mask) >= 62
    ensures mask == WRAPPING_MASK
  {
    MaskIsField(mask);
    WordPowers();
    assert Zeros(mask) == 2;
    assert Shl(Pow2(62) - 1, 2) == 2 * Shl(Pow2(62) - 1, 1);
    assert Pow2(64) == 2 * Pow2(63) && Pow2(63) == 2 * Pow2(62);
  }

  lemma DeltaBound(raw: u64, mask: u64)
    requires MaskAccepted(mask) && mask != WRAPPING_MASK
    ensures Delta(raw, mask) + PAGE < U64_LIMIT
  {
    hide Delta, MaskWidth, MaskAccepted, Value, Pow2;
    Extracted(raw, mask);
    if MaskWidth(mask) >= 62 {
      WidestMask(mask);
    } else {
      WordPowers();
      PowersGrow(MaskWidth(mask), 61);
      ShiftPowers();
    }
  }

  /** With any other accepted mask, a walk only goes forward, and so ends. */
  lemma {:induction false} WalksForward(page: seq<byte>, offset: u64, info: SlideInfo2, slide: u64)
    requires |page| == PAGE && MaskAccepted(info.deltaMask) && info.deltaMask != WRAPPING_MASK
    ensures Chain(page, offset, info, slide) != Backwards
    decreases U64_LIMIT - offset
  {
    hide Delta, Value, MaskAccepted, Rebase;
    if offset <= PAGE - 8 {
      var raw := U64At(page, offset);
      var delta := Delta(raw, info.deltaMask);
      var value := Rebase(Value(raw, info.deltaMask), info.valueAdd, slide);
      DeltaBound(raw, info.deltaMask);
      if value.Some? && delta != 0 && offset <= (PAGE - delta) % U64_LIMIT {
        WalksForward(PutU64(page, offset, value.value), offset + delta, info, slide);
      }
    }
  }

  /** With the widest mask, a null pointer can lead back to the start of its page. */
  lemma WidestMaskWraps(info: SlideInfo2, slide: u64, page: seq<byte>)
    requires |page| == PAGE && info.deltaMask == WRAPPING_MASK && U64At(page, 8) == U64_LIMIT - 8
    ensures MaskAccepted(info.deltaMask)
    ensures Chain(page, 8, info, slide) == Backwards
  {
    hide U64At, PutU64;
    WidestIsAccepted();
    Extracted(U64_LIMIT - 8, WRAPPING_MASK);
    WidestField();
  }

  lemma WidestIsAccepted()
    ensures MaskAccepted(WRAPPING_MASK) && Zeros(WRAPPING_MASK) == 2 && Shr(WRAPPING_MASK, 2) == 0x3FFF_FFFF_FFFF_FFFF
  {
    assert TrailingZeros(0x3FFF_FFFF_FFFF_FFFF) == 0;
    assert TrailingZeros(0x7FFF_FFFF_FFFF_FFFE) == 1;
    assert TrailingZeros(WRAPPING_MASK) == 2;
    assert Shr(0x7FFF_FFFF_FFFF_FFFE, 1) == 0x3FFF_FFFF_FFFF_FFFF;
    WordPowers();
    assert Pow2(64) == 2 * Pow2(63) && Pow2(63) == 2 * Pow2(62);
    OnesAndNext(62);
  }

  lemma WidestField()
    ensures MaskWidth(WRAPPING_MASK) == 62
    ensures Field(U64_LIMIT - 8, 2, 62) == 0x3FFF_FFFF_FFFF_FFFE
  {
    WidestIsAccepted();
    WordPowers();
    assert Pow2(64) == 2 * Pow2(63) && Pow2(63) == 2 * Pow2(62);
    OnesAndNext(62);
    var x := 0x3FFF_FFFF_FFFF_FFFE;
    assert Shr(U64_LIMIT - 8, 2) == Shr((U64_LIMIT - 8) / 2, 1);
    assert Shr((U64_LIMIT - 8) / 2, 1) == x;
    LowFits(x, 62);
  }

  ghost predicate CanWrap(info: SlideInfo2, slide: u64)
    requires MaskAccepted(info.deltaMask)
  {
    exists page: seq<byte>, offset: u64 :: |page| == PAGE && Chain(page, offset, info, slide) == Backwards
  }

  /** Some page makes the walk wrap exactly if the mask is the widest one. */
  lemma OnlyTheWidestMaskWraps(info: SlideInfo2, slide: u64)
    requires MaskAccepted(info.deltaMask)
    ensures CanWrap(info, slide) <==> info.deltaMask == WRAPPING_MASK
  {
    hide Chain, MaskAccepted;
    if info.deltaMask == WRAPPING_MASK {
      var blank: seq<byte> := seq(PAGE, _ => 0);
      var page := PutU64(blank, 8, U64_LIMIT - 8);
      PutThenRead(blank, 8, U64_LIMIT - 8);
      WidestMaskWraps(info, slide, page);
    } else {
      forall page: seq<byte>, offset: u64 | |page| == PAGE
        ensures Chain(page, offset, info, slide) != Backwards
      {
        WalksForward(page, offset, info, slide);
      }
    }
  }

  // ----- memory

  lemma PutThenRead(page: seq<byte>, offset: nat, x: u64)
    requires offset + 8 <= |page|
    ensures U64At(PutU64(page, offset, x), offset) == x
  {
    hide ToBytes, FromBytes;
    WordPowers();
    BytesRoundTrip(x, 8);
    assert PutU64(page, offset, x)[offset..offset + 8] == ToBytes(x, 8);
  }

  lemma PutElsewhere(page: seq<byte>, offset: nat, x: u64, other: nat)
    requires offset + 8 <= |page| && other + 8 <= |page| && (other + 8 <= offset || offset + 8 <= other)
    ensures U64At(PutU64(page, offset, x), other) == U64At(page, other)
  {
    hide ToBytes, FromBytes;
    assert PutU64(page, offset, x)[other..other + 8] == page[other..other + 8];
  }
}
