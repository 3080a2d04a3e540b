/** Packing a page's list of pointers into chains, and getting exactly the rebased page back. */
module SlideEncoding {
  import opened Options
  import opened Words
  import opened ByteOrder
  import opened SlideInfo
  import opened SlidePages

  /** A pointer of the page, before the value that every pointer is moved by is added. */
  datatype Location = Location(offset: nat, target: u64)

  // ----- writes of eight bytes

  datatype Store = Store(offset: nat, value: u64)

  predicate Inside(s: Store) { s.offset + 8 <= PAGE }

  predicate Apart(a: nat, b: nat) { a + 8 <= b || b + 8 <= a }

  predicate AllInside(stores: seq<Store>) {
    forall i | 0 <= i < |stores| :: Inside(stores[i])
  }

  predicate ApartFrom(offset: nat, stores: seq<Store>) {
    forall i | 0 <= i < |stores| :: Apart(offset, stores[i].offset)
  }

  predicate Disjoint(a: seq<Store>, b: seq<Store>) {
    forall i | 0 <= i < |a| :: ApartFrom(a[i].offset, b)
  }

  function StoreAll(page: seq<byte>, stores: seq<Store>): (r: seq<byte>)
    requires |page| == PAGE && AllInside(stores)
    ensures |r| == PAGE
    decreases |stores|
  {
    if stores == [] then page else StoreAll(PutU64(page, stores[0].offset, stores[0].value), stores[1..])
  }

  lemma PutsCommute(page: seq<byte>, a: nat, x: u64, b: nat, y: u64)
    requires |page| == PAGE && a + 8 <= PAGE && b + 8 <= PAGE && Apart(a, b)
    ensures PutU64(PutU64(page, a, x), b, y) == PutU64(PutU64(page, b, y), a, x)
  {
    hide ToBytes;
    var p, q := PutU64(PutU64(page, a, x), b, y), PutU64(PutU64(page, b, y), a, x);
    forall i | 0 <= i < PAGE
      ensures p[i] == q[i]
    {
      PutAt(page, a, x, i);
      PutAt(page, b, y, i);
      PutAt(PutU64(page, a, x), b, y, i);
      PutAt(PutU64(page, b, y), a, x, i);
    }
  }

  lemma PutAt(page: seq<byte>, offset: nat, x: u64, i: nat)
    requires offset + 8 <= |page| && i < |page|
    ensures PutU64(page, offset, x)[i] == if offset <= i < offset + 8 then ToBytes(x, 8)[i - offset] else page[i]
  {
    hide ToBytes;
  }

  lemma PutOver(page: seq<byte>, offset: nat, x: u64, y: u64)
    requires offset + 8 <= |page|
    ensures PutU64(PutU64(page, offset, x), offset, y) == PutU64(page, offset, y)
  {
    hide ToBytes;
  }

  lemma {:induction false} PutThenStores(page: seq<byte>, offset: nat, x: u64, stores: seq<Store>)
    requires |page| == PAGE && offset + 8 <= PAGE && AllInside(stores) && ApartFrom(offset, stores)
    ensures PutU64(StoreAll(page, stores), offset, x) == StoreAll(PutU64(page, offset, x), stores)
    decreases |stores|
  {
    hide PutU64;
    if stores != [] {
      var first := stores[0];
      PutsCommute(page, offset, x, first.offset, first.value);
      PutThenStores(PutU64(page, first.offset, first.value), offset, x, stores[1..]);
    }
  }

  lemma {:induction false} StoresCommute(page: seq<byte>, a: seq<Store>, b: seq<Store>)
    requires |page| == PAGE && AllInside(a) && AllInside(b) && Disjoint(a, b)
    ensures StoreAll(StoreAll(page, a), b) == StoreAll(StoreAll(page, b), a)
    decreases |a|
  {
    hide PutU64;
    if a != [] {
      var first := a[0];
      assert ApartFrom(first.offset, b);
      PutThenStores(page, first.offset, first.value, b);
      StoresCommute(PutU64(page, first.offset, first.value), a[1..], b);
    }
  }

  lemma {:induction false} UnstoredKept(page: seq<byte>, stores: seq<Store>, offset: nat)
    requires |page| == PAGE && AllInside(stores) && offset + 8 <= PAGE && ApartFrom(offset, stores)
    ensures U64At(StoreAll(page, stores), offset) == U64At(page, offset)
    decreases |stores|
  {
    hide PutU64, U64At;
    if stores != [] {
      PutElsewhere(page, stores[0].offset, stores[0].value, offset);
      UnstoredKept(PutU64(page, stores[0].offset, stores[0].value), stores[1..], offset);
    }
  }

  predicate Uncovered(stores: seq<Store>, i: nat) {
    forall j | 0 <= j < |stores| :: !(stores[j].offset <= i < stores[j].offset + 8)
  }

  lemma {:induction false} UncoveredKept(page: seq<byte>, stores: seq<Store>, i: nat)
    requires |page| == PAGE && AllInside(stores) && i < PAGE && Uncovered(stores, i)
    ensures StoreAll(page, stores)[i] == page[i]
    decreases |stores|
  {
    hide PutU64;
    if stores != [] {
      PutAt(page, stores[0].offset, stores[0].value, i);
      UncoveredKept(PutU64(page, stores[0].offset, stores[0].value), stores[1..], i);
    }
  }

  // ----- one chain

  /** Ascending locations at multiples of four, at least eight bytes apart, whose distances fit
      the mask and whose targets leave its bits free and can be moved. */
  predicate WellFormed(chain: seq<Location>, info: SlideInfo2, slide: u64)
    requires MaskAccepted(info.deltaMask)
  {
    (forall i | 0 <= i < |chain| :: LocationOk(chain[i], info, slide)) &&
    (forall i, j | 0 <= i < j < |chain| :: chain[i].offset + 8 <= chain[j].offset) &&
    (forall i | 0 <= i < |chain| - 1 :: StepFits(chain, i, info.deltaMask))
  }

  predicate StepFits(chain: seq<Location>, i: nat, mask: u64)
    requires i + 1 < |chain| && mask > 0
  {
    chain[i + 1].offset - chain[i].offset < 4 * Pow2(MaskWidth(mask))
  }

  predicate LocationOk(l: Location, info: SlideInfo2, slide: u64) {
    l.offset % 4 == 0 && l.offset + 8 <= PAGE && And(l.target, info.deltaMask) == 0 &&
    Rebase(l.target, info.valueAdd, slide).Some?
  }

  function Distance(chain: seq<Location>): int
    requires chain != []
  {
    if |chain| > 1 then chain[1].offset - chain[0].offset else 0
  }

  function RawValue(chain: seq<Location>, mask: u64): nat
    requires chain != [] && mask > 0
  {
    var d := Distance(chain);
    chain[0].target + Shl(if d > 0 then d / 4 else 0, Zeros(mask))
  }

  /** The packed words of a chain. */
  function Packed(chain: seq<Location>, mask: u64): (stores: seq<Store>)
    requires mask > 0
    ensures |stores| == |chain| && forall i | 0 <= i < |chain| :: stores[i].offset == chain[i].offset
  {
    if chain == [] then [] else [Store(chain[0].offset, RawValue(chain, mask) % U64_LIMIT)] + Packed(chain[1..], mask)
  }

  function RebasedValue(l: Location, info: SlideInfo2, slide: u64): u64 {
    var r := Rebase(l.target, info.valueAdd, slide);
    if r.Some? then r.value else 0
  }

  /** The pointers that the chain stands for. */
  function Rebased(chain: seq<Location>, info: SlideInfo2, slide: u64): (stores: seq<Store>)
    ensures |stores| == |chain|
    ensures forall i | 0 <= i < |chain| :: stores[i] == Store(chain[i].offset, RebasedValue(chain[i], info, slide))
  {
    if chain == [] then []
    else [Store(chain[0].offset, RebasedValue(chain[0], info, slide))] + Rebased(chain[1..], info, slide)
  }

  lemma {:induction false} LowOfSum(a: nat, f: nat, n: nat)
    requires Low(a, n) == 0 && f < Pow2(n)
    ensures Low(a + f, n) == f
  {
    if n > 0 {
      assert (a + f) / 2 == a / 2 + f / 2;
      LowOfSum(a / 2, f / 2, n - 1);
    }
  }

  lemma {:induction false} ShrOfSum(v: nat, f: nat, k: nat)
    ensures Shr(v + Shl(f, k), k) == Shr(v, k) + f
  {
    if k > 0 {
      assert (v + Shl(f, k)) / 2 == v / 2 + Shl(f, k - 1);
      ShrOfSum(v / 2, f, k - 1);
    }
  }

  lemma {:induction false} ShlZero(x: nat, k: nat)
    requires Shl(x, k) == 0
    ensures x == 0
  {
    if k > 0 { ShlZero(x, k - 1); }
  }

  /** A packed word gives back the distance and the target. */
  lemma Unpacks(target: u64, f: nat, mask: u64)
    requires MaskAccepted(mask) && And(target, mask) == 0 && f < Pow2(MaskWidth(mask))
    ensures var raw := target + Shl(f, Zeros(mask));
      raw < U64_LIMIT && Delta(raw, mask) == 4 * f && Value(raw, mask) == target
  {
    assert mask != 0;
    hide And, Low, Shr, Shl, Pow2, MaskAccepted, MaskWidth, TrailingZeros, Delta, Value;
    MaskIsField(mask);
    var zeros, n := Zeros(mask), MaskWidth(mask);
    AndField(target, zeros, n);
    ShlZero(Low(Shr(target, zeros), n), zeros);
    ShrOfSum(target, f, zeros);
    LowOfSum(Shr(target, zeros), f, n);
    var raw := target + Shl(f, zeros);
    PackedFits(target, f, zeros, n);
    Extracted(raw, mask);
  }

  lemma PackedFits(target: u64, f: nat, zeros: nat, n: nat)
    requires Low(Shr(target, zeros), n) == 0 && f < Pow2(n)
    requires zeros + n <= 64
    ensures target + Shl(f, zeros) < U64_LIMIT
  {
    hide Or, Shl, Shr, Low, Pow2;
    OrIntoField(target, f, zeros, n);
    WordPowers();
    ShlBound(f, zeros, n);
    PowersGrow(zeros + n, 64);
    OrBound(target, Shl(f, zeros), 64);
  }

  lemma {:induction false} ShlBound(f: nat, zeros: nat, n: nat)
    requires f < Pow2(n)
    ensures Shl(f, zeros) < Pow2(zeros + n)
  {
    if zeros > 0 { ShlBound(f, zeros - 1, n); }
  }

  lemma WellFormedTail(chain: seq<Location>, info: SlideInfo2, slide: u64)
    requires MaskAccepted(info.deltaMask) && chain != [] && WellFormed(chain, info, slide)
    ensures WellFormed(chain[1..], info, slide)
    ensures LocationOk(chain[0], info, slide)
    ensures |chain| > 1 ==> LocationOk(chain[1], info, slide) && StepFits(chain, 0, info.deltaMask)
    ensures |chain| > 1 ==> chain[0].offset + 8 <= chain[1].offset
  {
    assert info.deltaMask != 0;
    hide LocationOk, MaskAccepted;
    var tail := chain[1..];
    forall i | 0 <= i < |tail| - 1
      ensures StepFits(tail, i, info.deltaMask)
    {
      var next := i + 1;
      assert StepFits(chain, next, info.deltaMask);
    }
  }

  /** The first word of a chain, on its page. */
  lemma FirstWord(chain: seq<Location>, info: SlideInfo2, slide: u64)
    requires MaskAccepted(info.deltaMask) && chain != [] && WellFormed(chain, info, slide)
    ensures var raw := RawValue(chain, info.deltaMask);
      raw < U64_LIMIT && Delta(raw, info.deltaMask) == Distance(chain) && Value(raw, info.deltaMask) == chain[0].target
  {
    assert info.deltaMask != 0;
    hide MaskAccepted, Delta, Value, Shl, Pow2, MaskWidth, Zeros, WellFormed;
    WellFormedTail(chain, info, slide);
    var d := Distance(chain);
    assert d % 4 == 0 && d >= 0;
    Unpacks(chain[0].target, d / 4, info.deltaMask);
  }

  lemma TailApart(chain: seq<Location>, info: SlideInfo2, slide: u64)
    requires MaskAccepted(info.deltaMask) && chain != [] && WellFormed(chain, info, slide)
    ensures AllInside(Packed(chain, info.deltaMask)) && AllInside(Rebased(chain, info, slide))
    ensures AllInside(Packed(chain[1..], info.deltaMask)) && AllInside(Rebased(chain[1..], info, slide))
    ensures ApartFrom(chain[0].offset, Packed(chain[1..], info.deltaMask)) && chain[0].offset + 8 <= PAGE
  {
    hide MaskAccepted, RawValue, RebasedValue;
    forall i | 0 <= i < |chain|
      ensures chain[i].offset + 8 <= PAGE
    {
      assert LocationOk(chain[i], info, slide);
    }
  }

  /** One step of a walk that stays in the page. */
  lemma ChainOnce(page: seq<byte>, o: u64, info: SlideInfo2, slide: u64, d: nat, v: u64)
    requires |page| == PAGE && MaskAccepted(info.deltaMask) && o <= PAGE - 8
    requires Delta(U64At(page, o), info.deltaMask) == d
    requires Rebase(Value(U64At(page, o), info.deltaMask), info.valueAdd, slide) == Some(v)
    requires d != 0 ==> o <= (PAGE - d) % U64_LIMIT && o + d < U64_LIMIT
    ensures Chain(page, o, info, slide) ==
      if d == 0 then Done(PutU64(page, o, v)) else Chain(PutU64(page, o, v), o + d, info, slide)
  {
    hide MaskAccepted, Delta, Value, PutU64, U64At, Rebase;
  }

  lemma PackedFirst(chain: seq<Location>, mask: u64)
    requires mask > 0 && chain != [] && RawValue(chain, mask) < U64_LIMIT
    ensures Packed(chain, mask) == [Store(chain[0].offset, RawValue(chain, mask))] + Packed(chain[1..], mask)
  {
    hide RawValue;
  }

  lemma StoreFirst(page: seq<byte>, first: Store, others: seq<Store>)
    requires |page| == PAGE && Inside(first) && AllInside(others)
    ensures AllInside([first] + others)
    ensures StoreAll(page, [first] + others) == StoreAll(PutU64(page, first.offset, first.value), others)
  {
    hide PutU64;
    assert ([first] + others)[1..] == others;
  }

  /** The first word of a packed chain is read as it was packed, and rewritten under the words
      that follow it. */
  lemma FirstRewritten(page: seq<byte>, chain: seq<Location>, info: SlideInfo2, slide: u64)
    requires |page| == PAGE && MaskAccepted(info.deltaMask) && chain != [] && WellFormed(chain, info, slide)
    ensures AllInside(Packed(chain, info.deltaMask)) && AllInside(Packed(chain[1..], info.deltaMask)) &&
      chain[0].offset + 8 <= PAGE
    ensures var o, raw, v := chain[0].offset, RawValue(chain, info.deltaMask), RebasedValue(chain[0], info, slide);
      var encoded := StoreAll(page, Packed(chain, info.deltaMask));
      raw < U64_LIMIT && U64At(encoded, o) == raw &&
      PutU64(encoded, o, v) == StoreAll(PutU64(page, o, v), Packed(chain[1..], info.deltaMask))
  {
    assert info.deltaMask != 0;
    hide MaskAccepted, Delta, Value, PutU64, U64At, WellFormed, RawValue, RebasedValue, Rebase, Packed, StoreAll,
      AllInside, ApartFrom;
    TailApart(chain, info, slide);
    FirstWord(chain, info, slide);
    var o, raw, v := chain[0].offset, RawValue(chain, info.deltaMask), RebasedValue(chain[0], info, slide);
    var packed := Packed(chain[1..], info.deltaMask);
    PackedFirst(chain, info.deltaMask);
    StoreFirst(page, Store(o, raw), packed);
    PutThenRead(page, o, raw);
    UnstoredKept(PutU64(page, o, raw), packed, o);
    PutThenStores(PutU64(page, o, raw), o, v, packed);
    PutOver(page, o, raw, v);
  }

  /** Walking a packed chain rewrites each word to its pointer. */
  lemma {:induction false} PackedChainRebases(page: seq<byte>, chain: seq<Location>, info: SlideInfo2, slide: u64)
    requires |page| == PAGE && MaskAccepted(info.deltaMask) && chain != [] && WellFormed(chain, info, slide)
    ensures AllInside(Packed(chain, info.deltaMask)) && AllInside(Rebased(chain, info, slide))
    ensures Chain(StoreAll(page, Packed(chain, info.deltaMask)), chain[0].offset, info, slide) ==
      Done(StoreAll(page, Rebased(chain, info, slide)))
    decreases |chain|
  {
    assert info.deltaMask != 0;
    hide MaskAccepted, Delta, Value, PutU64, U64At, WellFormed, RawValue, RebasedValue, Rebase, Chain, Packed;
    TailApart(chain, info, slide);
    WellFormedTail(chain, info, slide);
    FirstWord(chain, info, slide);
    FirstRewritten(page, chain, info, slide);
    ValueOf(chain[0], info, slide);
    var tail, o, v := chain[1..], chain[0].offset, RebasedValue(chain[0], info, slide);
    assert Rebased(chain, info, slide)[1..] == Rebased(tail, info, slide);
    if |chain| > 1 {
      SmallStep(chain, info, slide);
    }
    ChainOnce(StoreAll(page, Packed(chain, info.deltaMask)), o, info, slide, Distance(chain), v);
    if |chain| > 1 {
      PackedChainRebases(PutU64(page, o, v), tail, info, slide);
    } else {
      assert tail == [];
      NothingPacked(info.deltaMask);
    }
  }

  lemma NothingPacked(mask: u64)
    requires mask > 0
    ensures Packed([], mask) == []
  {
  }

  lemma ValueOf(l: Location, info: SlideInfo2, slide: u64)
    requires LocationOk(l, info, slide)
    ensures Rebase(l.target, info.valueAdd, slide) == Some(RebasedValue(l, info, slide))
  {
  }

  lemma SmallStep(chain: seq<Location>, info: SlideInfo2, slide: u64)
    requires MaskAccepted(info.deltaMask) && |chain| > 1 && WellFormed(chain, info, slide)
    ensures var o, d := chain[0].offset, Distance(chain);
      0 < d && o + d == chain[1].offset && chain[1].offset <= PAGE - 8 && o <= (PAGE - d) % U64_LIMIT &&
        o + d < U64_LIMIT
  {
    WellFormedTail(chain, info, slide);
  }

  // ----- all the chains of a page

  predicate AllWellFormed(chains: seq<seq<Location>>, info: SlideInfo2, slide: u64)
    requires MaskAccepted(info.deltaMask)
  {
    forall c | 0 <= c < |chains| :: chains[c] != [] && WellFormed(chains[c], info, slide)
  }

  /** Locations of different chains are at least eight bytes apart. */
  predicate ChainsApart(chains: seq<seq<Location>>) {
    forall c, d | 0 <= c < d < |chains| :: LocationsApart(chains[c], chains[d])
  }

  predicate LocationsApart(a: seq<Location>, b: seq<Location>) {
    forall i, j | 0 <= i < |a| && 0 <= j < |b| :: Apart(a[i].offset, b[j].offset)
  }

  function PackedAll(chains: seq<seq<Location>>, mask: u64): seq<Store>
    requires mask > 0
  {
    if chains == [] then [] else Packed(chains[0], mask) + PackedAll(chains[1..], mask)
  }

  function RebasedAll(chains: seq<seq<Location>>, info: SlideInfo2, slide: u64): seq<Store> {
    if chains == [] then [] else Rebased(chains[0], info, slide) + RebasedAll(chains[1..], info, slide)
  }

  function Starts(chains: seq<seq<Location>>): seq<u64>
    requires forall c | 0 <= c < |chains| :: chains[c] != [] && chains[c][0].offset < PAGE
  {
    if chains == [] then [] else [chains[0][0].offset] + Starts(chains[1..])
  }

  lemma {:induction false} StoreBoth(page: seq<byte>, a: seq<Store>, b: seq<Store>)
    requires |page| == PAGE && AllInside(a) && AllInside(b)
    ensures AllInside(a + b) && StoreAll(page, a + b) == StoreAll(StoreAll(page, a), b)
    decreases |a|
  {
    hide PutU64;
    if a == [] {
      assert a + b == b;
    } else {
      assert (a + b)[1..] == a[1..] + b;
      StoreBoth(PutU64(page, a[0].offset, a[0].value), a[1..], b);
    }
  }

  lemma {:induction false} PackedAllInside(chains: seq<seq<Location>>, info: SlideInfo2, slide: u64)
    requires MaskAccepted(info.deltaMask) && AllWellFormed(chains, info, slide)
    ensures AllInside(PackedAll(chains, info.deltaMask)) && AllInside(RebasedAll(chains, info, slide))
    ensures forall c | 0 <= c < |chains| :: chains[c] != [] && chains[c][0].offset < PAGE
  {
    assert info.deltaMask != 0;
    hide MaskAccepted, RawValue, RebasedValue, LocationOk, StepFits;
    forall c | 0 <= c < |chains|
      ensures AllInside(Packed(chains[c], info.deltaMask)) && AllInside(Rebased(chains[c], info, slide))
    {
      TailApart(chains[c], info, slide);
    }
    if chains != [] {
      PackedAllInside(chains[1..], info, slide);
      assert Rebased(chains[0], info, slide)[0].offset == chains[0][0].offset;
      forall c | 0 <= c < |chains|
        ensures chains[c][0].offset < PAGE
      {
        assert Rebased(chains[c], info, slide)[0].offset == chains[c][0].offset;
      }
    }
  }

  /** One chain's words are apart from those of all the chains after it. */
  lemma {:induction false} ApartFromRest(a: seq<Location>, chains: seq<seq<Location>>, info: SlideInfo2, slide: u64)
    requires info.deltaMask > 0
    requires forall c | 0 <= c < |chains| :: LocationsApart(a, chains[c])
    ensures Disjoint(Packed(a, info.deltaMask), PackedAll(chains, info.deltaMask))
    ensures Disjoint(Rebased(a, info, slide), PackedAll(chains, info.deltaMask))
  {
    hide RawValue, RebasedValue;
    if chains != [] {
      ApartFromRest(a, chains[1..], info, slide);
      assert LocationsApart(a, chains[0]);
    }
  }

  lemma ChainsTail(chains: seq<seq<Location>>, info: SlideInfo2, slide: u64)
    requires MaskAccepted(info.deltaMask) && chains != [] && AllWellFormed(chains, info, slide) && ChainsApart(chains)
    ensures AllWellFormed(chains[1..], info, slide) && ChainsApart(chains[1..])
    ensures forall c | 0 <= c < |chains| - 1 :: LocationsApart(chains[0], chains[1..][c])
  {
    hide MaskAccepted, WellFormed, LocationsApart;
    forall c | 0 <= c < |chains| - 1
      ensures LocationsApart(chains[0], chains[1..][c])
    {
      var d := c + 1;
      assert LocationsApart(chains[0], chains[d]);
    }
  }

  /** Encoding a page's pointers and applying the page's chains puts exactly the moved pointers in
      their places. */
  lemma {:induction false} EncodedPageRebases(page: seq<byte>, chains: seq<seq<Location>>, info: SlideInfo2, slide: u64)
    requires |page| == PAGE && MaskAccepted(info.deltaMask) && AllWellFormed(chains, info, slide) && ChainsApart(chains)
    ensures AllInside(PackedAll(chains, info.deltaMask)) && AllInside(RebasedAll(chains, info, slide))
    ensures forall c | 0 <= c < |chains| :: chains[c] != [] && chains[c][0].offset < PAGE
    ensures Chains(StoreAll(page, PackedAll(chains, info.deltaMask)), Starts(chains), info, slide) ==
      Done(StoreAll(page, RebasedAll(chains, info, slide)))
    decreases |chains|
  {
    assert info.deltaMask != 0;
    hide MaskAccepted, WellFormed, Chain, RawValue, RebasedValue, LocationsApart, Disjoint, Packed, Rebased, AllInside;
    PackedAllInside(chains, info, slide);
    if chains == [] {
      NothingStored(page);
    } else {
      var first, others := chains[0], chains[1..];
      ChainsTail(chains, info, slide);
      PackedAllInside(others, info, slide);
      TailApart(first, info, slide);
      ApartFromRest(first, others, info, slide);
      var packed, rest := Packed(first, info.deltaMask), PackedAll(others, info.deltaMask);
      var rebased := Rebased(first, info, slide);
      StoreBoth(page, packed, rest);
      StoresCommute(page, packed, rest);
      PackedChainRebases(StoreAll(page, rest), first, info, slide);
      StoresCommute(page, rebased, rest);
      EncodedPageRebases(StoreAll(page, rebased), others, info, slide);
      StoreBoth(page, rebased, RebasedAll(others, info, slide));
      hide StoreAll, PackedAll, RebasedAll;
      assert Starts(chains)[1..] == Starts(others);
    }
  }

  lemma NothingStored(page: seq<byte>)
    requires |page| == PAGE
    ensures AllInside([]) && StoreAll(page, []) == page
  {
  }

  // ----- what the rebased page holds

  predicate AllApart(stores: seq<Store>) {
    forall i, j | 0 <= i < j < |stores| :: Apart(stores[i].offset, stores[j].offset)
  }

  /** Stores that are apart all show, and nothing else changes. */
  lemma {:induction false} StoresShow(page: seq<byte>, stores: seq<Store>, i: nat)
    requires |page| == PAGE && AllInside(stores) && AllApart(stores) && i < |stores|
    ensures U64At(StoreAll(page, stores), stores[i].offset) == stores[i].value
    decreases |stores|
  {
    hide PutU64, U64At;
    var first, tail := stores[0], stores[1..];
    if i == 0 {
      PutThenRead(page, first.offset, first.value);
      UnstoredKept(PutU64(page, first.offset, first.value), tail, first.offset);
    } else {
      StoresShow(PutU64(page, first.offset, first.value), tail, i - 1);
    }
  }

  /** The rebased page, read pointer by pointer: a null target stays null, any other is moved by
      the value and the slide, and every byte outside the locations is as it was. */
  lemma RebasedPage(page: seq<byte>, stores: seq<Store>)
    requires |page| == PAGE && AllInside(stores) && AllApart(stores)
    ensures forall i | 0 <= i < |stores| :: U64At(StoreAll(page, stores), stores[i].offset) == stores[i].value
    ensures forall i | 0 <= i < PAGE && Uncovered(stores, i) :: StoreAll(page, stores)[i] == page[i]
  {
    hide StoreAll, U64At, Uncovered;
    forall i | 0 <= i < |stores|
      ensures U64At(StoreAll(page, stores), stores[i].offset) == stores[i].value
    {
      StoresShow(page, stores, i);
    }
    forall i | 0 <= i < PAGE && Uncovered(stores, i)
      ensures StoreAll(page, stores)[i] == page[i]
    {
      UncoveredKept(page, stores, i);
    }
  }

  lemma {:induction false} RebasedApart(chains: seq<seq<Location>>, info: SlideInfo2, slide: u64)
    requires MaskAccepted(info.deltaMask) && AllWellFormed(chains, info, slide) && ChainsApart(chains)
    ensures AllApart(RebasedAll(chains, info, slide))
    decreases |chains|
  {
    hide MaskAccepted, RebasedValue, LocationOk, StepFits;
    if chains != [] {
      ChainsTail(chains, info, slide);
      RebasedApart(chains[1..], info, slide);
      OffsetsFrom(chains[0], chains[1..], info, slide);
      assert WellFormed(chains[0], info, slide);
    }
  }

  lemma {:induction false} OffsetsFrom(a: seq<Location>, chains: seq<seq<Location>>, info: SlideInfo2, slide: u64)
    requires forall c | 0 <= c < |chains| :: LocationsApart(a, chains[c])
    ensures Disjoint(Rebased(a, info, slide), RebasedAll(chains, info, slide))
  {
    hide RebasedValue;
    if chains != [] {
      OffsetsFrom(a, chains[1..], info, slide);
      assert LocationsApart(a, chains[0]);
    }
  }

  /** The round trip, read byte by byte and pointer by pointer. */
  lemma EncodeThenApply(page: seq<byte>, chains: seq<seq<Location>>, info: SlideInfo2, slide: u64)
    requires |page| == PAGE && MaskAccepted(info.deltaMask) && AllWellFormed(chains, info, slide) && ChainsApart(chains)
    ensures AllInside(PackedAll(chains, info.deltaMask)) && AllInside(RebasedAll(chains, info, slide))
    ensures forall c | 0 <= c < |chains| :: chains[c] != [] && chains[c][0].offset < PAGE
    ensures var w := Chains(StoreAll(page, PackedAll(chains, info.deltaMask)), Starts(chains), info, slide);
      var pointers := RebasedAll(chains, info, slide);
      w.Done? &&
      (forall i | 0 <= i < |pointers| :: U64At(w.page, pointers[i].offset) == pointers[i].value) &&
      (forall i | 0 <= i < PAGE && Uncovered(pointers, i) :: w.page[i] == page[i])
  {
    hide MaskAccepted, AllWellFormed, ChainsApart, Chains, StoreAll, PackedAll, RebasedAll, U64At, AllApart, Uncovered,
      AllInside, Starts;
    EncodedPageRebases(page, chains, info, slide);
    RebasedApart(chains, info, slide);
    RebasedPage(page, RebasedAll(chains, info, slide));
  }
}
