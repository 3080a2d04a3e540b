/** Splitting a page's list of pointers into chains that the packed distances can express. */
module SlideSplitting {
  import opened Words
  import opened SlideInfo
  import opened SlidePages
  import opened SlideEncoding

  // ----- what can be encoded

  /** A pointer that the page can hold: in place, and with the digits of the distance free. */
  predicate Placed(l: Location, mask: u64) {
    l.offset % 4 == 0 && l.offset + 8 <= PAGE && And(l.target, mask) == 0
  }

  /** Any ascending list of pointers that do not overlap. */
  predicate Encodable(locations: seq<Location>, mask: u64) {
    (forall i | 0 <= i < |locations| :: Placed(locations[i], mask)) &&
    (forall i, j | 0 <= i < j < |locations| :: locations[i].offset + 8 <= locations[j].offset)
  }

  /** No pointer overflows when it is moved. */
  predicate Movable(locations: seq<Location>, valueAdd: u64, slide: u64) {
    forall i | 0 <= i < |locations| :: Rebase(locations[i].target, valueAdd, slide).Some?
  }

  // ----- splitting

  predicate Reaches(from: Location, to: Location, mask: u64)
    requires mask > 0
  {
    to.offset - from.offset < 4 * Pow2(MaskWidth(mask))
  }

  /** A chain goes on as long as the next pointer can be reached. */
  function Split(locations: seq<Location>, mask: u64): (chains: seq<seq<Location>>)
    requires mask > 0
    ensures forall c | 0 <= c < |chains| :: chains[c] != []
    ensures locations != [] ==> chains != [] && chains[0][0] == locations[0]
  {
    if locations == [] then []
    else
      var others := Split(locations[1..], mask);
      if |locations| > 1 && Reaches(locations[0], locations[1], mask) then [[locations[0]] + others[0]] + others[1..]
      else [[locations[0]]] + others
  }

  function Joined(chains: seq<seq<Location>>): seq<Location> {
    if chains == [] then [] else chains[0] + Joined(chains[1..])
  }

  /** No pointer is lost, doubled or moved to another place. */
  lemma {:induction false} SplitJoins(locations: seq<Location>, mask: u64)
    requires mask > 0
    ensures Joined(Split(locations, mask)) == locations
  {
    hide Reaches;
    if locations != [] {
      SplitJoins(locations[1..], mask);
      var others := Split(locations[1..], mask);
      if |locations| > 1 && Reaches(locations[0], locations[1], mask) {
        assert Split(locations, mask)[1..] == others[1..];
      } else {
        assert Split(locations, mask)[1..] == others;
      }
    }
  }

  // ----- the chains are well formed and apart

  /** All of the chains lie behind `offset`. */
  predicate Behind(offset: nat, chains: seq<seq<Location>>) {
    forall c, i | 0 <= c < |chains| && 0 <= i < |chains[c]| :: offset + 8 <= chains[c][i].offset
  }

  lemma {:induction false} SplitBehind(locations: seq<Location>, mask: u64, offset: nat)
    requires mask > 0 && forall i | 0 <= i < |locations| :: offset + 8 <= locations[i].offset
    ensures Behind(offset, Split(locations, mask))
  {
    hide Reaches;
    if locations != [] { SplitBehind(locations[1..], mask, offset); }
  }

  lemma TailEncodable(locations: seq<Location>, mask: u64, valueAdd: u64, slide: u64)
    requires locations != [] && Encodable(locations, mask) && Movable(locations, valueAdd, slide)
    ensures Encodable(locations[1..], mask) && Movable(locations[1..], valueAdd, slide)
    ensures forall i | 0 <= i < |locations| - 1 :: locations[0].offset + 8 <= locations[1..][i].offset
  {
    hide Placed, Rebase;
  }

  lemma LongerChain(first: Location, chain: seq<Location>, info: SlideInfo2, slide: u64)
    requires MaskAccepted(info.deltaMask) && LocationOk(first, info, slide) && WellFormed(chain, info, slide)
    requires chain != [] ==> Reaches(first, chain[0], info.deltaMask)
    requires forall i | 0 <= i < |chain| :: first.offset + 8 <= chain[i].offset
    ensures WellFormed([first] + chain, info, slide)
  {
    assert info.deltaMask != 0;
    hide LocationOk, MaskAccepted;
    var longer := [first] + chain;
    forall i | 0 <= i < |longer| - 1
      ensures StepFits(longer, i, info.deltaMask)
    {
      if i > 0 {
        var previous := i - 1;
        assert StepFits(chain, previous, info.deltaMask);
      }
    }
  }

  lemma FirstIsOk(locations: seq<Location>, info: SlideInfo2, slide: u64)
    requires locations != [] && Encodable(locations, info.deltaMask) && Movable(locations, info.valueAdd, slide)
    ensures LocationOk(locations[0], info, slide)
  {
    assert Placed(locations[0], info.deltaMask);
  }

  /** Chains behind an offset stay apart from a pointer there. */
  lemma OneApart(first: Location, chains: seq<seq<Location>>)
    requires ChainsApart(chains) && Behind(first.offset, chains)
    ensures ChainsApart([[first]] + chains)
    ensures chains != [] ==> ChainsApart([[first] + chains[0]] + chains[1..])
  {
    var alone := [[first]] + chains;
    forall c, d | 0 <= c < d < |alone|
      ensures LocationsApart(alone[c], alone[d])
    {
      if c > 0 {
        var e, f := c - 1, d - 1;
        assert LocationsApart(chains[e], chains[f]);
      }
    }
    if chains != [] {
      var joined := [[first] + chains[0]] + chains[1..];
      forall c, d | 0 <= c < d < |joined|
        ensures LocationsApart(joined[c], joined[d])
      {
        assert LocationsApart(chains[c], chains[d]);
      }
    }
  }

  lemma {:induction false} SplitWellFormed(locations: seq<Location>, info: SlideInfo2, slide: u64)
    requires MaskAccepted(info.deltaMask)
    requires Encodable(locations, info.deltaMask) && Movable(locations, info.valueAdd, slide)
    ensures AllWellFormed(Split(locations, info.deltaMask), info, slide)
    ensures ChainsApart(Split(locations, info.deltaMask))
  {
    assert info.deltaMask != 0;
    hide MaskAccepted, Encodable, Movable, Reaches, LocationOk, WellFormed, LocationsApart, Behind;
    if locations != [] {
      var mask := info.deltaMask;
      var first, tail := locations[0], locations[1..];
      var others := Split(tail, mask);
      TailEncodable(locations, mask, info.valueAdd, slide);
      FirstIsOk(locations, info, slide);
      SplitWellFormed(tail, info, slide);
      SplitBehind(tail, mask, first.offset);
      OneApart(first, others);
      if |locations| > 1 && Reaches(first, locations[1], mask) {
        FirstOfOthers(first, others);
        LongerChain(first, others[0], info, slide);
      } else {
        EmptyChain(info, slide);
        LongerChain(first, [], info, slide);
        assert [first] + [] == [first];
      }
    }
  }

  lemma FirstOfOthers(first: Location, chains: seq<seq<Location>>)
    requires chains != [] && Behind(first.offset, chains)
    ensures forall i | 0 <= i < |chains[0]| :: first.offset + 8 <= chains[0][i].offset
  {
  }

  lemma EmptyChain(info: SlideInfo2, slide: u64)
    requires MaskAccepted(info.deltaMask)
    ensures WellFormed([], info, slide)
  {
  }

  // ----- what the chains stand for

  lemma RebasedJoin(a: seq<Location>, b: seq<Location>, info: SlideInfo2, slide: u64)
    ensures Rebased(a + b, info, slide) == Rebased(a, info, slide) + Rebased(b, info, slide)
  {
    hide RebasedValue;
  }

  lemma {:induction false} RebasedAllIsRebased(chains: seq<seq<Location>>, info: SlideInfo2, slide: u64)
    ensures RebasedAll(chains, info, slide) == Rebased(Joined(chains), info, slide)
  {
    hide Rebased;
    if chains == [] {
      assert Rebased([], info, slide) == [];
    } else {
      RebasedJoin(chains[0], Joined(chains[1..]), info, slide);
      RebasedAllIsRebased(chains[1..], info, slide);
    }
  }

  // ----- one page

  predicate StartOk(start: nat) { start % 4 == 0 && start + 8 <= PAGE }

  /** Where the chains of a page start. */
  function PageStarts(locations: seq<Location>, mask: u64): (starts: seq<u64>)
    requires MaskAccepted(mask) && Encodable(locations, mask)
    ensures forall i | 0 <= i < |starts| :: StartOk(starts[i])
  {
    SplitInside(locations, mask);
    StartsOk(Split(locations, mask));
    Starts(Split(locations, mask))
  }

  function EncodedPage(page: seq<byte>, locations: seq<Location>, mask: u64): (r: seq<byte>)
    requires |page| == PAGE && MaskAccepted(mask) && Encodable(locations, mask)
    ensures |r| == PAGE
  {
    SplitInside(locations, mask);
    StoreAll(page, PackedAll(Split(locations, mask), mask))
  }

  /** The page that encoding and rebasing together should give. */
  function RebasedPointers(page: seq<byte>, locations: seq<Location>, info: SlideInfo2, slide: u64): (r: seq<byte>)
    requires |page| == PAGE && Encodable(locations, info.deltaMask)
    ensures |r| == PAGE
  {
    RebasedInside(locations, info, slide);
    StoreAll(page, Rebased(locations, info, slide))
  }

  lemma RebasedInside(locations: seq<Location>, info: SlideInfo2, slide: u64)
    requires Encodable(locations, info.deltaMask)
    ensures AllInside(Rebased(locations, info, slide)) && AllApart(Rebased(locations, info, slide))
  {
    hide RebasedValue;
    forall i | 0 <= i < |locations|
      ensures locations[i].offset + 8 <= PAGE
    {
      assert Placed(locations[i], info.deltaMask);
    }
  }

  lemma StartsInRange(chains: seq<seq<Location>>, info: SlideInfo2, slide: u64)
    requires MaskAccepted(info.deltaMask) && AllWellFormed(chains, info, slide)
    ensures forall c | 0 <= c < |chains| :: chains[c] != [] && StartOk(chains[c][0].offset)
  {
    hide MaskAccepted, StepFits;
    forall c | 0 <= c < |chains|
      ensures StartOk(chains[c][0].offset)
    {
      assert LocationOk(chains[c][0], info, slide);
    }
  }

  lemma {:induction false} StartsOk(chains: seq<seq<Location>>)
    requires forall c | 0 <= c < |chains| ::
      chains[c] != [] && chains[c][0].offset < PAGE && StartOk(chains[c][0].offset)
    ensures forall i | 0 <= i < |Starts(chains)| :: StartOk(Starts(chains)[i])
  {
    if chains != [] { StartsOk(chains[1..]); }
  }

  /** Packing never depends on where the pointers will be moved. */
  lemma SplitInside(locations: seq<Location>, mask: u64)
    requires MaskAccepted(mask) && Encodable(locations, mask)
    ensures AllInside(PackedAll(Split(locations, mask), mask))
    ensures var chains := Split(locations, mask);
      forall c | 0 <= c < |chains| :: chains[c] != [] && StartOk(chains[c][0].offset)
  {
    assert mask != 0;
    hide MaskAccepted, Encodable, PackedAll, StartOk, Split, AllWellFormed;
    var unmoved := SlideInfo2(0, 0, 0, 0, 0, mask, 0);
    SplitWellFormed(locations, unmoved, 0);
    PackedAllInside(Split(locations, mask), unmoved, 0);
    StartsInRange(Split(locations, mask), unmoved, 0);
  }

  // ----- a pointer that overflows

  function Unmoved(info: SlideInfo2): SlideInfo2 { info.(valueAdd := 0) }

  /** The walk over a packed chain is refused at the first pointer that overflows. */
  lemma {:induction false} OverflowRejected(page: seq<byte>, chain: seq<Location>, info: SlideInfo2, slide: u64)
    requires |page| == PAGE && MaskAccepted(info.deltaMask) && chain != [] && WellFormed(chain, Unmoved(info), 0)
    requires !Movable(chain, info.valueAdd, slide)
    ensures AllInside(Packed(chain, info.deltaMask))
    ensures Chain(StoreAll(page, Packed(chain, info.deltaMask)), chain[0].offset, info, slide) == Rejected
    decreases |chain|
  {
    assert info.deltaMask != 0;
    hide MaskAccepted, Delta, Value, PutU64, U64At, WellFormed, RawValue, RebasedValue, Rebase, Packed, StoreAll,
      AllInside;
    var mask, unmoved, o := info.deltaMask, Unmoved(info), chain[0].offset;
    FirstRewritten(page, chain, unmoved, 0);
    FirstWord(chain, unmoved, 0);
    var encoded := StoreAll(page, Packed(chain, mask));
    var moved := Rebase(chain[0].target, info.valueAdd, slide);
    if moved.Some? {
      RewrittenTo(page, chain, unmoved, moved.value);
      assert !Movable(chain[1..], info.valueAdd, slide);
      SmallStep(chain, unmoved, 0);
      WellFormedTail(chain, unmoved, 0);
      ChainOnce(encoded, o, info, slide, Distance(chain), moved.value);
      OverflowRejected(PutU64(page, o, moved.value), chain[1..], info, slide);
    }
  }

  /** Whatever a packed word is rewritten to, the words that follow it stay as they were packed. */
  lemma RewrittenTo(page: seq<byte>, chain: seq<Location>, unmoved: SlideInfo2, v: u64)
    requires |page| == PAGE && MaskAccepted(unmoved.deltaMask) && chain != [] && WellFormed(chain, unmoved, 0)
    ensures AllInside(Packed(chain, unmoved.deltaMask)) && AllInside(Packed(chain[1..], unmoved.deltaMask)) &&
      chain[0].offset + 8 <= PAGE
    ensures PutU64(StoreAll(page, Packed(chain, unmoved.deltaMask)), chain[0].offset, v) ==
      StoreAll(PutU64(page, chain[0].offset, v), Packed(chain[1..], unmoved.deltaMask))
  {
    assert unmoved.deltaMask != 0;
    hide MaskAccepted, PutU64, WellFormed, RawValue, RebasedValue, Packed, StoreAll, AllInside, ApartFrom;
    var o, w, tail := chain[0].offset, RebasedValue(chain[0], unmoved, 0), Packed(chain[1..], unmoved.deltaMask);
    FirstRewritten(page, chain, unmoved, 0);
    TailApart(chain, unmoved, 0);
    PutOver(StoreAll(page, Packed(chain, unmoved.deltaMask)), o, w, v);
    PutThenStores(PutU64(page, o, w), o, v, tail);
    PutOver(page, o, w, v);
  }

  lemma MovableChain(chain: seq<Location>, info: SlideInfo2, slide: u64)
    requires MaskAccepted(info.deltaMask) && WellFormed(chain, Unmoved(info), 0) && Movable(chain, info.valueAdd, slide)
    ensures WellFormed(chain, info, slide)
  {
    assert info.deltaMask != 0;
    hide MaskAccepted, Rebase, And;
    forall i | 0 <= i < |chain|
      ensures LocationOk(chain[i], info, slide)
    {
      assert LocationOk(chain[i], Unmoved(info), 0);
    }
    forall i | 0 <= i < |chain| - 1
      ensures StepFits(chain, i, info.deltaMask)
    {
      assert StepFits(chain, i, Unmoved(info).deltaMask);
    }
  }

  lemma {:induction false} OverflowRejectsPage(page: seq<byte>, chains: seq<seq<Location>>, info: SlideInfo2,
                                               slide: u64)
    requires |page| == PAGE && MaskAccepted(info.deltaMask)
    requires AllWellFormed(chains, Unmoved(info), 0) && ChainsApart(chains) &&
      !Movable(Joined(chains), info.valueAdd, slide)
    ensures AllInside(PackedAll(chains, info.deltaMask))
    ensures forall c | 0 <= c < |chains| :: chains[c] != [] && chains[c][0].offset < PAGE
    ensures Chains(StoreAll(page, PackedAll(chains, info.deltaMask)), Starts(chains), info, slide) == Rejected
    decreases |chains|
  {
    assert info.deltaMask != 0;
    hide MaskAccepted, WellFormed, Chain, RawValue, RebasedValue, LocationsApart, Disjoint, Packed, Rebased, AllInside,
      Rebase;
    var unmoved := Unmoved(info);
    PackedAllInside(chains, unmoved, 0);
    var first, others := chains[0], chains[1..];
    ChainsTail(chains, unmoved, 0);
    PackedAllInside(others, unmoved, 0);
    TailApart(first, unmoved, 0);
    ApartFromRest(first, others, info, slide);
    var packed, rest := Packed(first, info.deltaMask), PackedAll(others, info.deltaMask);
    StoreBoth(page, packed, rest);
    StoresCommute(page, packed, rest);
    if Movable(first, info.valueAdd, slide) {
      MovableChain(first, info, slide);
      TailApart(first, info, slide);
      PackedChainRebases(StoreAll(page, rest), first, info, slide);
      var rebased := Rebased(first, info, slide);
      StoresCommute(page, rebased, rest);
      assert !Movable(Joined(others), info.valueAdd, slide);
      OverflowRejectsPage(StoreAll(page, rebased), others, info, slide);
    } else {
      OverflowRejected(StoreAll(page, rest), first, info, slide);
    }
    hide StoreAll, PackedAll, Movable, Joined;
    assert Starts(chains)[1..] == Starts(others);
  }

  /** Any encodable list of pointers, split into chains and packed, is rebased by walking the
      chains, each pointer in its place, unless one of them overflows: then the walk is refused. */
  lemma EncodedPageApplies(page: seq<byte>, locations: seq<Location>, info: SlideInfo2, slide: u64)
    requires |page| == PAGE && MaskAccepted(info.deltaMask) && Encodable(locations, info.deltaMask)
    ensures Chains(EncodedPage(page, locations, info.deltaMask), PageStarts(locations, info.deltaMask), info, slide) ==
      if Movable(locations, info.valueAdd, slide) then Done(RebasedPointers(page, locations, info, slide)) else Rejected
  {
    assert info.deltaMask != 0;
    hide MaskAccepted, Encodable, Movable, Split, Chains, StoreAll, PackedAll, RebasedAll, Rebased, AllWellFormed,
      ChainsApart;
    var chains := Split(locations, info.deltaMask);
    SplitJoins(locations, info.deltaMask);
    if Movable(locations, info.valueAdd, slide) {
      SplitWellFormed(locations, info, slide);
      RebasedAllIsRebased(chains, info, slide);
      EncodedPageRebases(page, chains, info, slide);
    } else {
      AlwaysMovable(locations);
      SplitWellFormed(locations, Unmoved(info), 0);
      OverflowRejectsPage(page, chains, info, slide);
    }
  }

  lemma AlwaysMovable(locations: seq<Location>)
    ensures Movable(locations, 0, 0)
  {
  }

  /** The rebased page: each target plus value and slide, null at null ones, and every other byte
      as it was. */
  lemma PointersInPlace(page: seq<byte>, locations: seq<Location>, info: SlideInfo2, slide: u64)
    requires |page| == PAGE
    requires Encodable(locations, info.deltaMask) && Movable(locations, info.valueAdd, slide)
    ensures var r := RebasedPointers(page, locations, info, slide);
      (forall i | 0 <= i < |locations| :: locations[i].offset + 8 <= PAGE &&
        U64At(r, locations[i].offset) ==
          if locations[i].target == 0 then 0 else locations[i].target + info.valueAdd + slide) &&
      (forall b | 0 <= b < PAGE && OutsideAll(locations, b) :: r[b] == page[b])
  {
    hide StoreAll, U64At;
    RebasedInside(locations, info, slide);
    var stores := Rebased(locations, info, slide);
    RebasedPage(page, stores);
    forall i | 0 <= i < |locations|
      ensures locations[i].offset + 8 <= PAGE
      ensures stores[i].offset == locations[i].offset
      ensures stores[i].value == if locations[i].target == 0 then 0 else locations[i].target + info.valueAdd + slide
    {
      assert Placed(locations[i], info.deltaMask);
    }
    forall b | 0 <= b < PAGE && OutsideAll(locations, b)
      ensures Uncovered(stores, b)
    {
    }
  }

  predicate OutsideAll(locations: seq<Location>, b: nat) {
    forall i | 0 <= i < |locations| :: !(locations[i].offset <= b < locations[i].offset + 8)
  }
}
