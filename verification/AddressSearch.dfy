/** First-fit search for a free range of guest addresses. */
module AddressSearch {
  import opened Options
  import opened Words

  const MINIMUM_ADDRESS: u64 := 0x1_0000_0000
  const MAXIMUM_USER_MAP_END: u64 := 0x7FFF_FFFF_F000
  const PAGE_MASK: u64 := 0xFFF

  datatype Mapping = Mapping(base: u64, size: u64)

  function End(m: Mapping): nat { m.base + m.size }

  /** Mappings end below 2^64; the address space refuses any other. */
  predicate EndsInRange(mappings: seq<Mapping>) {
    forall i | 0 <= i < |mappings| :: End(mappings[i]) < U64_LIMIT
  }

  /** The masks that the trap lets through: a run of ones that covers at least a page. */
  predicate MaskAccepted(mask: u64) {
    PAGE_MASK <= mask < MAXIMUM_USER_MAP_END && And(mask, PAGE_MASK) == PAGE_MASK && And(mask, mask + 1) == 0
  }

  /** The masks 2^12 - 1 up to 2^46 - 1 and no other. */
  lemma MaskMeaning(mask: u64)
    ensures MaskAccepted(mask) <==> exists k: nat :: 12 <= k <= 46 && mask == Pow2(k) - 1
  {
    hide And, Pow2;
    AcceptedPowers();
    if MaskAccepted(mask) {
      var k := Ones(mask);
      AllOnes(mask);
      if k < 12 { PowersAscend(k, 11); }
      if k > 46 { PowersAscend(47, k); }
    }
    if k: nat :| 12 <= k <= 46 && mask == Pow2(k) - 1 {
      OnesAndNext(k);
      PowersAscend(12, k);
      PowersAscend(k, 46);
      Pow2Sum(12, k - 12);
      MaskIsRemainder(mask, 12, 0x1000);
      LastOfMultiple(0x1000, Pow2(k - 12));
    }
  }

  lemma LastOfMultiple(m: nat, q: nat)
    requires m > 0 && q > 0
    ensures (m * q - 1) % m == m - 1
  {
    assert m * q - 1 == m * (q - 1) + (m - 1);
    ReduceMultiple(m, q - 1, m - 1);
  }

  lemma AcceptedPowers()
    ensures Pow2(11) == 0x800 && Pow2(12) == 0x1000 && Pow2(46) == 0x4000_0000_0000 && Pow2(47) == 0x8000_0000_0000
  {
    WordPowers();
    Pow2Sum(8, 3);
    Pow2Sum(8, 4);
    Pow2Sum(32, 8);
    Pow2Sum(40, 6);
    Pow2Sum(46, 1);
    assert Pow2(3) == 8 && Pow2(4) == 16 && Pow2(6) == 64 && Pow2(1) == 2;
  }

  lemma {:induction false} PowersAscend(a: nat, b: nat)
    requires a <= b
    ensures Pow2(a) <= Pow2(b)
    decreases b - a
  {
    if a < b { PowersAscend(a, b - 1); }
  }

  predicate Aligned(a: nat, mask: u64) {
    a % (mask + 1) == 0
  }

  predicate Fits(a: nat, size: u64, m: Mapping) {
    a + size <= m.base || End(m) <= a
  }

  /** Aligned, not below the start and clear of every mapping. */
  predicate Clear(a: nat, mappings: seq<Mapping>, start: nat, size: u64, mask: u64) {
    Aligned(a, mask) && start <= a && forall i | 0 <= i < |mappings| :: Fits(a, size, mappings[i])
  }

  /** A range that may be mapped: clear, and below the limit of the user's part. */
  predicate Free(a: nat, mappings: seq<Mapping>, start: nat, size: u64, mask: u64) {
    Clear(a, mappings, start, size, mask) && a + size <= MAXIMUM_USER_MAP_END
  }

  // ----- alignment

  function AlignUp(value: u64, mask: u64): Option<u64> {
    if value > U64_LIMIT - 1 - mask then None
    else
      AndBound(value + mask, U64_LIMIT - 1 - mask);
      Some(And(value + mask, U64_LIMIT - 1 - mask))
  }

  lemma MaskedSum(x: u64, mask: u64)
    requires And(mask, mask + 1) == 0
    ensures And(x, U64_LIMIT - 1 - mask) == x - x % (mask + 1)
  {
    hide And, Pow2, Low;
    AllOnes(mask);
    WordPowers();
    AndComplement(x, mask, 64);
    MaskIsRemainder(x, Ones(mask), mask + 1);
  }

  lemma RoundedDown(x: nat, p: nat)
    requires p > 0
    ensures (x - x % p) % p == 0 && x - x % p >= 0 && x % p < p
  {
    var q := x / p;
    assert x == p * q + x % p;
    QuotientUnique(p * q, p, q, 0);
  }

  /** The least multiple of `p` that is not smaller. */
  function NextMultiple(value: nat, p: nat): nat
    requires p > 0
  {
    value + (p - 1) - (value + (p - 1)) % p
  }

  lemma NextMultipleIsLeast(value: nat, p: nat)
    requires p > 0
    ensures NextMultiple(value, p) % p == 0 && value <= NextMultiple(value, p)
    ensures forall a: nat | a % p == 0 && value <= a :: NextMultiple(value, p) <= a
  {
    RoundedDown(value + (p - 1), p);
    var r := NextMultiple(value, p);
    forall a: nat | a % p == 0 && value <= a
      ensures r <= a
    {
      if a < r { NoMultipleBetween(a, r, p); }
    }
  }

  lemma AlignUpIs(value: u64, mask: u64)
    requires And(mask, mask + 1) == 0
    ensures var r := NextMultiple(value, mask + 1);
      AlignUp(value, mask) == if value + mask < U64_LIMIT then Some(r) else None
    ensures value + mask >= U64_LIMIT ==> NextMultiple(value, mask + 1) >= U64_LIMIT
  {
    hide And;
    if value + mask < U64_LIMIT {
      MaskedSum(value + mask, mask);
    } else {
      RoundedDown(value + mask, mask + 1);
      LimitAligned(value, mask, NextMultiple(value, mask + 1));
    }
  }

  /** Rounding up gives the least aligned number that is not smaller. */
  lemma AlignUpIsLeast(value: u64, mask: u64)
    requires And(mask, mask + 1) == 0
    ensures var r := AlignUp(value, mask);
      (r.Some? ==> Aligned(r.value, mask) && value <= r.value) &&
      forall a: nat | Aligned(a, mask) && value <= a :: if r.Some? then r.value <= a else a >= U64_LIMIT
  {
    hide And, AlignUp, NextMultiple;
    AlignUpIs(value, mask);
    NextMultipleIsLeast(value, mask + 1);
  }

  /** Two multiples are at least one modulus apart. */
  lemma NoMultipleBetween(a: nat, r: nat, p: nat)
    requires p > 0 && a % p == 0 && r % p == 0 && a < r
    ensures r - a >= p
  {
    var i, j := a / p, r / p;
    assert a == p * i && r == p * j;
    assert p * (j - i) == r - a;
    if j - i <= 0 {
      if j < i { AtLeastOnce(p, i - j); }
    } else {
      AtLeastOnce(p, j - i);
    }
  }

  /** Beyond 2^64 - mask the next aligned number is 2^64 or more. */
  lemma LimitAligned(value: u64, mask: u64, r: nat)
    requires And(mask, mask + 1) == 0 && value + mask >= U64_LIMIT
    requires r % (mask + 1) == 0 && r == value + mask - (value + mask) % (mask + 1)
    ensures r >= U64_LIMIT
  {
    hide And;
    var p := mask + 1;
    AllOnes(mask);
    WordPowers();
    LimitIsMultiple(Ones(mask), p);
    if r < U64_LIMIT { NoMultipleBetween(r, U64_LIMIT, p); }
  }

  lemma LimitIsMultiple(n: nat, p: nat)
    requires p == Pow2(n) && p <= U64_LIMIT
    ensures U64_LIMIT % p == 0
  {
    WordPowers();
    if n > 64 {
      PowersGrowStrictly(64, n);
    } else {
      Pow2Sum(n, 64 - n);
      QuotientUnique(U64_LIMIT, p, Pow2(64 - n), 0);
    }
  }

  lemma {:induction false} PowersGrowStrictly(a: nat, b: nat)
    requires a < b
    ensures Pow2(a) < Pow2(b)
    decreases b - a
  {
    if a + 1 < b { PowersGrowStrictly(a, b - 1); }
  }

  // ----- sorting

  predicate Sorted(mappings: seq<Mapping>) {
    forall i, j | 0 <= i < j < |mappings| :: mappings[i].base <= mappings[j].base
  }

  method SortByBase(mappings: seq<Mapping>) returns (sorted: seq<Mapping>)
    ensures Sorted(sorted) && multiset(sorted) == multiset(mappings)
  {
    sorted := [];
    for i := 0 to |mappings|
      invariant Sorted(sorted) && multiset(sorted) == multiset(mappings[..i])
    {
      assert mappings[..i + 1] == mappings[..i] + [mappings[i]];
      sorted := InsertByBase(sorted, mappings[i]);
    }
    assert mappings[..|mappings|] == mappings;
  }

  method InsertByBase(sorted: seq<Mapping>, m: Mapping) returns (r: seq<Mapping>)
    requires Sorted(sorted)
    ensures Sorted(r) && multiset(r) == multiset(sorted) + multiset{m}
  {
    var k := 0;
    while k < |sorted| && sorted[k].base <= m.base
      invariant 0 <= k <= |sorted|
      invariant forall i | 0 <= i < k :: sorted[i].base <= m.base
    {
      k := k + 1;
    }
    r := sorted[..k] + [m] + sorted[k..];
    hide Sorted;
    InsertedMembers(sorted, k, m);
  }

  lemma InsertedMembers(sorted: seq<Mapping>, k: nat, m: Mapping)
    requires k <= |sorted|
    ensures multiset(sorted[..k] + [m] + sorted[k..]) == multiset(sorted) + multiset{m}
  {
    assert sorted == sorted[..k] + sorted[k..];
  }

  lemma SameClear(a: nat, mappings: seq<Mapping>, sorted: seq<Mapping>, start: nat, size: u64, mask: u64)
    requires multiset(sorted) == multiset(mappings)
    ensures Clear(a, mappings, start, size, mask) <==> Clear(a, sorted, start, size, mask)
    ensures MappingBeyond(mappings, a + size) <==> MappingBeyond(sorted, a + size)
  {
    SameMembers(mappings, sorted);
    hide Aligned;
    if Clear(a, mappings, start, size, mask) {
      forall i | 0 <= i < |sorted| ensures Fits(a, size, sorted[i]) {
        assert sorted[i] in mappings;
      }
    }
    if Clear(a, sorted, start, size, mask) {
      forall i | 0 <= i < |mappings| ensures Fits(a, size, mappings[i]) {
        assert mappings[i] in sorted;
      }
    }
    if MappingBeyond(mappings, a + size) { BeyondIn(mappings, sorted, a + size); }
    if MappingBeyond(sorted, a + size) { BeyondIn(sorted, mappings, a + size); }
  }

  lemma BeyondIn(a: seq<Mapping>, b: seq<Mapping>, end: nat)
    requires MappingBeyond(a, end) && forall m :: m in a ==> m in b
    ensures MappingBeyond(b, end)
  {
    var i :| 0 <= i < |a| && end <= a[i].base;
    assert a[i] in b;
  }

  lemma SameMembers(a: seq<Mapping>, b: seq<Mapping>)
    requires multiset(a) == multiset(b)
    ensures forall m :: m in a <==> m in b
  {
    forall m
      ensures m in a <==> m in b
    {
      assert m in a <==> m in multiset(a);
      assert m in b <==> m in multiset(b);
    }
  }

  // ----- what is answered

  predicate MappingBeyond(mappings: seq<Mapping>, end: nat) {
    exists i :: 0 <= i < |mappings| && end <= mappings[i].base
  }

  /** No aligned address from the start up to `candidate` is clear. */
  ghost predicate NoneBelow(candidate: nat, mappings: seq<Mapping>, start: nat, size: u64, mask: u64) {
    forall a: nat | a < candidate :: !Clear(a, mappings, start, size, mask)
  }

  /** The least clear address, provided that it is below the limit or in front of a mapping. */
  ghost predicate IsAnswer(found: Option<u64>, mappings: seq<Mapping>, start: nat, size: u64, mask: u64) {
    match found
    case Some(a) =>
      Clear(a, mappings, start, size, mask) && NoneBelow(a, mappings, start, size, mask) &&
      (a + size <= MAXIMUM_USER_MAP_END || MappingBeyond(mappings, a + size))
    case None =>
      forall a: nat | Clear(a, mappings, start, size, mask) ::
        a + size > MAXIMUM_USER_MAP_END && !MappingBeyond(mappings, a + size)
  }

  /** What a caller wants: the least free address, or none if there is none. */
  ghost predicate IsLeastFree(found: Option<u64>, mappings: seq<Mapping>, start: nat, size: u64, mask: u64) {
    match found
    case Some(a) => Free(a, mappings, start, size, mask) &&
      forall b: nat | b < a :: !Free(b, mappings, start, size, mask)
    case None => forall a: nat :: !Free(a, mappings, start, size, mask)
  }

  /** Nothing is free, but something clear lies in front of a mapping. */
  ghost predicate Overshoots(mappings: seq<Mapping>, start: nat, size: u64, mask: u64) {
    (exists a: nat :: ClearInFront(a, mappings, start, size, mask)) &&
      forall a: nat :: !Free(a, mappings, start, size, mask)
  }

  predicate ClearInFront(a: nat, mappings: seq<Mapping>, start: nat, size: u64, mask: u64) {
    Clear(a, mappings, start, size, mask) && MappingBeyond(mappings, a + size)
  }

  /** The answer is the one wanted exactly if the search does not overshoot. */
  lemma AnswerIsLeastFree(found: Option<u64>, mappings: seq<Mapping>, start: nat, size: u64, mask: u64)
    requires IsAnswer(found, mappings, start, size, mask)
    ensures IsLeastFree(found, mappings, start, size, mask) <==> !Overshoots(mappings, start, size, mask)
  {
    hide Clear, MappingBeyond;
    if found.Some? && found.value + size > MAXIMUM_USER_MAP_END {
      assert ClearInFront(found.value, mappings, start, size, mask);
    }
  }

  /** It never does while every mapping starts inside the user's part. */
  lemma NoOvershoot(mappings: seq<Mapping>, start: nat, size: u64, mask: u64)
    requires forall i | 0 <= i < |mappings| :: mappings[i].base <= MAXIMUM_USER_MAP_END
    ensures !Overshoots(mappings, start, size, mask)
  {
    hide Clear;
    forall a: nat | ClearInFront(a, mappings, start, size, mask)
      ensures Free(a, mappings, start, size, mask)
    {
    }
  }

  /** A mapping from the limit on that leaves no room below it makes the search overshoot. */
  lemma HighMappingOvershoots(size: u64)
    requires size == 0x1000
    ensures var mappings := [Mapping(0, MAXIMUM_USER_MAP_END), Mapping(MAXIMUM_USER_MAP_END + 0x1000, 0x1000)];
      EndsInRange(mappings) && Overshoots(mappings, MINIMUM_ADDRESS, size, PAGE_MASK)
  {
    var mappings := [Mapping(0, MAXIMUM_USER_MAP_END), Mapping(MAXIMUM_USER_MAP_END + 0x1000, 0x1000)];
    assert mappings[1].base == MAXIMUM_USER_MAP_END + size;
    assert ClearInFront(MAXIMUM_USER_MAP_END, mappings, MINIMUM_ADDRESS, size, PAGE_MASK);
    forall a: nat | Clear(a, mappings, MINIMUM_ADDRESS, size, PAGE_MASK)
      ensures a + size > MAXIMUM_USER_MAP_END
    {
      assert Fits(a, size, mappings[0]);
    }
  }

  // ----- the search

  /** The loop both searches share: mappings in ascending order, starting from an aligned address. */
  method FirstFit(mappings: seq<Mapping>, start: u64, size: u64, mask: u64) returns (found: Option<u64>)
    requires Sorted(mappings) && EndsInRange(mappings) && Aligned(start, mask) && And(mask, mask + 1) == 0 && size > 0
    ensures IsAnswer(found, mappings, start, size, mask)
  {
    hide And, Aligned, AlignUp;
    var candidate: u64 := start;
    for i := 0 to |mappings|
      invariant Aligned(candidate, mask) && candidate >= start
      invariant forall j | 0 <= j < i :: End(mappings[j]) <= candidate
      invariant NoneBelow(candidate, mappings, start, size, mask)
    {
      var mapping := mappings[i];
      var mappingEnd := mapping.base + mapping.size;
      if mappingEnd <= candidate {
        continue;
      }
      if candidate <= mapping.base && size <= mapping.base - candidate {
        return Some(candidate);
      }
      var next := AlignUp(mappingEnd, mask);
      AlignUpIsLeast(mappingEnd, mask);
      Skipped(mappings, i, candidate, start, size, mask, mappingEnd);
      if next.None? {
        NothingLeft(mappings, mappingEnd, start, size, mask);
        return None;
      }
      candidate := next.value;
    }
    if candidate <= MAXIMUM_USER_MAP_END && size <= MAXIMUM_USER_MAP_END - candidate {
      return Some(candidate);
    }
    found := None;
  }

  /** Nothing clear starts between the candidate and the end of a mapping that is in its way. */
  lemma Skipped(mappings: seq<Mapping>, i: nat, candidate: u64, start: nat, size: u64, mask: u64, end: nat)
    requires i < |mappings| && end == End(mappings[i]) && candidate < end
    requires candidate + size > mappings[i].base
    requires NoneBelow(candidate, mappings, start, size, mask)
    ensures NoneBelow(end, mappings, start, size, mask)
  {
    forall a: nat | a < end
      ensures !Clear(a, mappings, start, size, mask)
    {
      if a >= candidate { assert !Fits(a, size, mappings[i]); }
    }
  }

  /** Where rounding up overflows there is no address left. */
  lemma NothingLeft(mappings: seq<Mapping>, low: nat, start: nat, size: u64, mask: u64)
    requires EndsInRange(mappings) && NoneBelow(low, mappings, start, size, mask)
    requires forall a: nat | Aligned(a, mask) && low <= a :: a >= U64_LIMIT
    ensures IsAnswer(None, mappings, start, size, mask)
  {
    hide Aligned;
  }

  /** `findMmapRange`: page-aligned addresses from 4 GiB on. */
  method FindMmapRange(mappings: seq<Mapping>, size: u64) returns (found: Option<u64>)
    requires EndsInRange(mappings) && size > 0
    ensures IsAnswer(found, mappings, MINIMUM_ADDRESS, size, PAGE_MASK)
    ensures IsLeastFree(found, mappings, MINIMUM_ADDRESS, size, PAGE_MASK) <==>
      !Overshoots(mappings, MINIMUM_ADDRESS, size, PAGE_MASK)
  {
    PageMaskIsRun();
    found := FindFrom(mappings, MINIMUM_ADDRESS, size, PAGE_MASK);
    AnswerIsLeastFree(found, mappings, MINIMUM_ADDRESS, size, PAGE_MASK);
  }

  lemma PageMaskIsRun()
    ensures And(PAGE_MASK, PAGE_MASK + 1) == 0 && Aligned(MINIMUM_ADDRESS, PAGE_MASK)
  {
    hide And, Ones;
    OnesAndNext(12);
  }

  method FindFrom(mappings: seq<Mapping>, start: u64, size: u64, mask: u64) returns (found: Option<u64>)
    requires EndsInRange(mappings) && Aligned(start, mask) && And(mask, mask + 1) == 0 && size > 0
    ensures IsAnswer(found, mappings, start, size, mask)
  {
    hide And, Aligned, Clear, MappingBeyond;
    var sorted := SortByBase(mappings);
    SameMembers(mappings, sorted);
    forall i | 0 <= i < |sorted|
      ensures End(sorted[i]) < U64_LIMIT
    {
      assert sorted[i] in mappings;
    }
    found := FirstFit(sorted, start, size, mask);
    forall a: nat
      ensures Clear(a, mappings, start, size, mask) <==> Clear(a, sorted, start, size, mask)
      ensures MappingBeyond(mappings, a + size) <==> MappingBeyond(sorted, a + size)
    {
      SameClear(a, mappings, sorted, start, size, mask);
    }
  }

  /** `findAnywhereRange`: addresses with the asked alignment that are not below the hint. */
  method FindAnywhereRange(mappings: seq<Mapping>, hint: u64, size: u64, mask: u64) returns (found: Option<u64>)
    requires EndsInRange(mappings) && MaskAccepted(mask) && size > 0
    ensures var start := if hint < MINIMUM_ADDRESS then MINIMUM_ADDRESS else hint;
      IsAnswer(found, mappings, start, size, mask) &&
      (IsLeastFree(found, mappings, start, size, mask) <==> !Overshoots(mappings, start, size, mask))
  {
    hide And, Aligned, AlignUp, MappingBeyond;
    var start: u64 := if hint < MINIMUM_ADDRESS then MINIMUM_ADDRESS else hint;
    var aligned := AlignUp(start, mask);
    AlignUpIsLeast(start, mask);
    if aligned.None? {
      NothingLeft(mappings, start, start, size, mask);
      found := None;
    } else {
      found := FindFrom(mappings, aligned.value, size, mask);
      FromAligned(found, mappings, start, aligned.value, size, mask);
    }
    AnswerIsLeastFree(found, mappings, start, size, mask);
  }

  /** Starting from the next aligned address is starting from the hint. */
  lemma FromAligned(found: Option<u64>, mappings: seq<Mapping>, start: u64, aligned: u64, size: u64, mask: u64)
    requires IsAnswer(found, mappings, aligned, size, mask) && start <= aligned
    requires forall a: nat | Aligned(a, mask) && start <= a :: aligned <= a
    ensures IsAnswer(found, mappings, start, size, mask)
  {
    hide Aligned, MappingBeyond;
    forall a: nat
      ensures Clear(a, mappings, start, size, mask) <==> Clear(a, mappings, aligned, size, mask)
    {
    }
  }
}
