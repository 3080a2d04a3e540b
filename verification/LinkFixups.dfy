/** Chained fixups of one page, as `map_with_linking` applies them: every slot of a chain is
    decoded, replaced by an address, and the next slot is found from the decoded word. */
module LinkFixups {
  import opened Options
  import opened Words
  import opened ByteOrder

  const PAGE_SIZE: nat := 4096
  const CHAIN_START_NONE: nat := 0xFFFF

  /** The two exceptions, and the normal return. */
  datatype Outcome = Applied | OutOfRange | MemoryFault

  datatype Result = Result(outcome: Outcome, memory: map<u64, byte>)

  // ----- guest memory

  predicate Mapped(memory: map<u64, byte>, address: nat) {
    address + 8 <= U64_LIMIT && forall a | address <= a < address + 8 :: a in memory
  }

  function BytesAt(memory: map<u64, byte>, address: nat): seq<byte>
    requires Mapped(memory, address)
  {
    seq(8, i requires 0 <= i < 8 => memory[address + i])
  }

  function Fetch(memory: map<u64, byte>, address: nat): u64
    requires Mapped(memory, address)
  {
    WordPowers();
    ValueRoundTrip(BytesAt(memory, address));
    FromBytes(BytesAt(memory, address))
  }

  function Put(memory: map<u64, byte>, address: nat, x: u64): (r: map<u64, byte>)
    requires Mapped(memory, address)
    ensures r.Keys == memory.Keys
  {
    map a | a in memory :: if address <= a < address + 8 then ToBytes(x, 8)[a - address] else memory[a]
  }

  // ----- the blob

  function Read(blob: seq<byte>, offset: nat, size: nat): (r: Option<nat>)
    ensures r.Some? <==> offset + size <= |blob|
    ensures r.Some? && size == 2 ==> r.value < 0x1_0000
    ensures r.Some? && size == 4 ==> r.value < U32_LIMIT
    ensures r.Some? && size == 8 ==> r.value < U64_LIMIT
  {
    if offset + size > |blob| then None
    else
      WordPowers();
      ValueRoundTrip(blob[offset..offset + size]);
      Some(FromBytes(blob[offset..offset + size]))
  }

  datatype Linking = Linking(offsetBased: bool, bindsOffset: u32, bindsCount: u32, chainsOffset: u32, slide: u64,
    imageAddress: u64)

  function Header(blob: seq<byte>): Option<Linking> {
    var pointerFormat, bindsOffset, bindsCount := Read(blob, 6, 2), Read(blob, 8, 4), Read(blob, 12, 4);
    var chainsOffset, slide, imageAddress := Read(blob, 16, 4), Read(blob, 24, 8), Read(blob, 32, 8);
    if pointerFormat.None? || bindsOffset.None? || bindsCount.None? || chainsOffset.None? || slide.None? ||
      imageAddress.None? then None
    else
      Some(Linking(pointerFormat.value == 6, bindsOffset.value, bindsCount.value, chainsOffset.value, slide.value,
        imageAddress.value))
  }

  // ----- one slot

  function NextDelta(word: u64): (delta: nat)
    ensures delta < 0x4000
  {
    word / 0x8_0000_0000_0000 % 0x1000 * 4
  }

  /** The address that replaces a word: a bind looks its ordinal up in the blob and adds an
      addend, a rebase adds the slide (or the image address) and an upper byte. */
  function Resolve(blob: seq<byte>, l: Linking, word: u64): Option<u64> {
    if word >= 0x8000_0000_0000_0000 then
      var ordinal := word % 0x100_0000;
      var target := Read(blob, l.bindsOffset + ordinal * 8, 8);
      if ordinal >= l.bindsCount || target.None? then None
      else Some((target.value + word / 0x100_0000 % 0x100) % U64_LIMIT)
    else
      var adjust := if l.offsetBased then l.imageAddress else l.slide;
      Some((word % 0x10_0000_0000 + adjust + word / 0x10_0000_0000 % 0x100 * 0x100_0000_0000_0000) % U64_LIMIT)
  }

  /** The test in front of every access, in 64-bit arithmetic. */
  predicate LeavesPage(pageAddress: u64, location: u64) {
    location < pageAddress || Add64(location, 8) > Add64(pageAddress, PAGE_SIZE)
  }

  /** The test on the distance to the next slot. */
  predicate DeltaLeaves(pageAddress: u64, location: u64, delta: nat) {
    delta > PAGE_SIZE || Add64(location, delta) < pageAddress ||
      Add64(Add64(location, delta), 8) > Add64(pageAddress, PAGE_SIZE)
  }

  const LAST_SLOT: u64 := 0xFFFF_FFFF_FFFF_FFF8

  /** Where a walk can be: less than 65536 bytes into the page, or, in the last pages of the
      address space, in its last eight bytes. */
  predicate Near(pageAddress: u64, location: u64) {
    location <= pageAddress + 0x1_0000 || (location >= LAST_SLOT && pageAddress >= 0xFFFF_FFFF_FFFE_FFF0)
  }

  lemma StepsForward(pageAddress: u64, location: u64, delta: nat)
    requires Near(pageAddress, location) && !LeavesPage(pageAddress, location)
    requires delta < U64_LIMIT && !DeltaLeaves(pageAddress, location, delta)
    ensures Add64(location, delta) == location + delta && Near(pageAddress, location + delta)
  {
  }

  function Walk(memory: map<u64, byte>, blob: seq<byte>, l: Linking, pageAddress: u64, location: u64): Result
    requires Near(pageAddress, location)
    decreases U64_LIMIT - location
  {
    if LeavesPage(pageAddress, location) then Result(OutOfRange, memory)
    else if !Mapped(memory, location) then Result(MemoryFault, memory)
    else
      var word := Fetch(memory, location);
      var address := Resolve(blob, l, word);
      if address.None? then Result(OutOfRange, memory)
      else
        var next := Put(memory, location, address.value);
        var delta := NextDelta(word);
        if delta == 0 then Result(Applied, next)
        else if DeltaLeaves(pageAddress, location, delta) then Result(OutOfRange, next)
        else
          StepsForward(pageAddress, location, delta);
          Walk(next, blob, l, pageAddress, Add64(location, delta))
  }

  // ----- the segments

  datatype Segment = Segment(offset: nat, start: u64, end: u64)

  /** A segment's record, if the blob holds all of it. The offset of the table entry is computed
      in 32 bits. */
  function SegmentAt(blob: seq<byte>, l: Linking, index: nat): Option<Segment> {
    var info := Read(blob, (l.chainsOffset + 4 + index * 4) % U32_LIMIT, 4);
    if info.None? || l.chainsOffset + info.value > |blob| then None
    else
      var offset := l.chainsOffset + info.value;
      var size, segmentOffset, pageCount := Read(blob, offset, 4), Read(blob, offset + 8, 8),
        Read(blob, offset + 20, 2);
      if size.None? || segmentOffset.None? || pageCount.None? then None
      else if size.value < 24 || offset + size.value > |blob| || offset + 22 > |blob| ||
        pageCount.value * 2 > |blob| - (offset + 22) then None
      else
        var start := Add64(l.imageAddress, segmentOffset.value);
        Some(Segment(offset, start, (start + pageCount.value * PAGE_SIZE) % U64_LIMIT))
  }

  predicate Covers(s: Segment, pageAddress: u64) {
    s.start <= pageAddress < s.end
  }

  function FromSegment(memory: map<u64, byte>, blob: seq<byte>, l: Linking, pageAddress: u64, index: nat,
                       count: nat): Result
    decreases count - index
  {
    if index >= count then Result(OutOfRange, memory)
    else
      var segment := SegmentAt(blob, l, index);
      if segment.None? then Result(OutOfRange, memory)
      else if !Covers(segment.value, pageAddress) then FromSegment(memory, blob, l, pageAddress, index + 1, count)
      else
        var first := Read(blob, segment.value.offset + 22 + (pageAddress - segment.value.start) / PAGE_SIZE * 2, 2);
        if first.None? then Result(OutOfRange, memory)
        else if first.value == CHAIN_START_NONE then Result(Applied, memory)
        else Walk(memory, blob, l, pageAddress, Add64(pageAddress, first.value))
  }

  function Fixups(memory: map<u64, byte>, blob: seq<byte>, pageAddress: u64): Result {
    var l := Header(blob);
    if l.None? then Result(OutOfRange, memory)
    else
      var count := Read(blob, l.value.chainsOffset, 4);
      if count.None? then Result(OutOfRange, memory)
      else FromSegment(memory, blob, l.value, pageAddress, 0, count.value)
  }

  /** The start entry of a covered page is always inside the segment's table. */
  lemma StartEntryInside(blob: seq<byte>, l: Linking, index: nat, pageAddress: u64)
    requires SegmentAt(blob, l, index).Some? && Covers(SegmentAt(blob, l, index).value, pageAddress)
    ensures var s := SegmentAt(blob, l, index).value;
      Read(blob, s.offset + 22 + (pageAddress - s.start) / PAGE_SIZE * 2, 2).Some?
  {
    var s := SegmentAt(blob, l, index).value;
    var pages := Read(blob, s.offset + 20, 2).value;
    assert pages * 2 <= |blob| - (s.offset + 22);
  }

  // ----- where the walk writes

  predicate SameOutside(a: map<u64, byte>, b: map<u64, byte>, low: nat, high: nat) {
    a.Keys == b.Keys && forall x | x in a && !(low <= x < high) :: a[x] == b[x]
  }

  lemma PutOutside(memory: map<u64, byte>, location: nat, x: u64, pageAddress: nat)
    requires Mapped(memory, location) && pageAddress <= location && location + 8 <= pageAddress + PAGE_SIZE
    ensures SameOutside(memory, Put(memory, location, x), pageAddress, pageAddress + PAGE_SIZE)
  {
  }

  /** What every guest address space is like: mappings are made of whole pages and none reaches
      2^64, so the last page is never mapped. */
  predicate LastPageUnmapped(memory: map<u64, byte>) {
    forall x | x in memory :: x < LAST_PAGE
  }

  const LAST_PAGE: u64 := 0xFFFF_FFFF_FFFF_F000

  /** The checks on a new mapping keep it so. */
  lemma MappingEndsBelowLastPage(base: u64, size: u64)
    requires size != 0 && base % PAGE_SIZE == 0 && size % PAGE_SIZE == 0 && base <= U64_LIMIT - 1 - size
    ensures base + size <= LAST_PAGE
  {
  }

  /** The walk writes nothing but its page, for every page: near the end of the address space the
      sums wrap, but what they would let through is not mapped. */
  lemma {:induction false} WalkStaysInPage(memory: map<u64, byte>, blob: seq<byte>, l: Linking, pageAddress: u64,
                                           location: u64)
    requires LastPageUnmapped(memory) && Near(pageAddress, location)
    ensures SameOutside(memory, Walk(memory, blob, l, pageAddress, location).memory, pageAddress,
      pageAddress + PAGE_SIZE)
    decreases U64_LIMIT - location
  {
    hide Resolve, Fetch, NextDelta, Put, ToBytes;
    if !LeavesPage(pageAddress, location) && Mapped(memory, location) {
      var word := Fetch(memory, location);
      var address := Resolve(blob, l, word);
      var delta := NextDelta(word);
      MappedSlotInPage(memory, pageAddress, location);
      if address.Some? {
        var next := Put(memory, location, address.value);
        PutOutside(memory, location, address.value, pageAddress);
        if delta != 0 && !DeltaLeaves(pageAddress, location, delta) {
          StepsForward(pageAddress, location, delta);
          WalkStaysInPage(next, blob, l, pageAddress, Add64(location, delta));
        }
      }
    }
  }

  lemma MappedSlotInPage(memory: map<u64, byte>, pageAddress: u64, location: u64)
    requires LastPageUnmapped(memory) && Mapped(memory, location)
    requires Near(pageAddress, location) && !LeavesPage(pageAddress, location)
    ensures pageAddress <= location && location + 8 <= pageAddress + PAGE_SIZE
  {
    var end: u64 := location + 7;
    assert end in memory;
  }

  lemma {:induction false} SegmentStaysInPage(memory: map<u64, byte>, blob: seq<byte>, l: Linking, pageAddress: u64,
                                              index: nat, count: nat)
    requires LastPageUnmapped(memory)
    ensures SameOutside(memory, FromSegment(memory, blob, l, pageAddress, index, count).memory, pageAddress,
      pageAddress + PAGE_SIZE)
    decreases count - index
  {
    hide Walk, Read, SegmentAt, LastPageUnmapped;
    if index < count && SegmentAt(blob, l, index).Some? {
      var segment := SegmentAt(blob, l, index).value;
      if Covers(segment, pageAddress) {
        var first := Read(blob, segment.offset + 22 + (pageAddress - segment.start) / PAGE_SIZE * 2, 2);
        if first.Some? {
          WalkStaysInPage(memory, blob, l, pageAddress, Add64(pageAddress, first.value));
        }
      } else {
        SegmentStaysInPage(memory, blob, l, pageAddress, index + 1, count);
      }
    }
  }

  /** So for any blob whatsoever, accepted or rejected half-way. */
  lemma FixupsStayInPage(memory: map<u64, byte>, blob: seq<byte>, pageAddress: u64)
    requires LastPageUnmapped(memory)
    ensures SameOutside(memory, Fixups(memory, blob, pageAddress).memory, pageAddress, pageAddress + PAGE_SIZE)
  {
    hide FromSegment, Read, Header;
    var l := Header(blob);
    if l.Some? {
      var count := Read(blob, l.value.chainsOffset, 4);
      if count.Some? {
        SegmentStaysInPage(memory, blob, l.value, pageAddress, 0, count.value);
      }
    }
  }

  // ----- a well-formed chain is decoded from the original words

  datatype Slot = Slot(location: u64, address: u64)

  /** The slots of a chain and their new contents, read without writing, if every slot is mapped,
      inside the page and resolvable and no two overlap. */
  function Decoded(memory: map<u64, byte>, blob: seq<byte>, l: Linking, pageAddress: u64,
                   location: u64): Option<seq<Slot>>
    requires Near(pageAddress, location)
    decreases U64_LIMIT - location
  {
    if LeavesPage(pageAddress, location) || !Mapped(memory, location) then None
    else
      var word := Fetch(memory, location);
      var address := Resolve(blob, l, word);
      var delta := NextDelta(word);
      if address.None? then None
      else if delta == 0 then Some([Slot(location, address.value)])
      else if delta < 8 || DeltaLeaves(pageAddress, location, delta) then None
      else
        StepsForward(pageAddress, location, delta);
        var others := Decoded(memory, blob, l, pageAddress, Add64(location, delta));
        if others.None? then None else Some([Slot(location, address.value)] + others.value)
  }

  predicate AllMapped(memory: map<u64, byte>, slots: seq<Slot>) {
    forall i | 0 <= i < |slots| :: Mapped(memory, slots[i].location)
  }

  function PutAll(memory: map<u64, byte>, slots: seq<Slot>): (r: map<u64, byte>)
    requires AllMapped(memory, slots)
    decreases |slots|
  {
    if slots == [] then memory
    else
      var next := Put(memory, slots[0].location, slots[0].address);
      StillMapped(memory, next, slots[1..]);
      PutAll(next, slots[1..])
  }

  lemma StillMapped(memory: map<u64, byte>, next: map<u64, byte>, slots: seq<Slot>)
    requires next.Keys == memory.Keys && AllMapped(memory, slots)
    ensures AllMapped(next, slots)
  {
  }

  /** Two memories that agree from an address on decode alike from there on. */
  lemma {:induction false} DecodesAlike(a: map<u64, byte>, b: map<u64, byte>, blob: seq<byte>, l: Linking,
                                        pageAddress: u64, location: u64)
    requires Near(pageAddress, location) && a.Keys == b.Keys
    requires forall x | x in a && x >= location :: a[x] == b[x]
    ensures Decoded(a, blob, l, pageAddress, location) == Decoded(b, blob, l, pageAddress, location)
    decreases U64_LIMIT - location
  {
    hide Resolve, NextDelta, FromBytes, LeavesPage, DeltaLeaves;
    if !LeavesPage(pageAddress, location) && Mapped(a, location) {
      assert Mapped(b, location);
      assert BytesAt(a, location) == BytesAt(b, location);
      var word := Fetch(a, location);
      var delta := NextDelta(word);
      if Resolve(blob, l, word).Some? && delta >= 8 && !DeltaLeaves(pageAddress, location, delta) {
        StepsForward(pageAddress, location, delta);
        DecodesAlike(a, b, blob, l, pageAddress, Add64(location, delta));
      }
    }
  }

  /** Ascending and without overlap, from `location` on. */
  predicate SlotsApart(slots: seq<Slot>, location: nat) {
    (forall i | 0 <= i < |slots| :: slots[i].location >= location) &&
    forall i, j | 0 <= i < j < |slots| :: slots[i].location + 8 <= slots[j].location
  }

  /** Each slot has the address that its word in `memory` stands for. */
  predicate Resolved(memory: map<u64, byte>, blob: seq<byte>, l: Linking, slots: seq<Slot>)
    requires AllMapped(memory, slots)
  {
    forall i | 0 <= i < |slots| :: Resolve(blob, l, Fetch(memory, slots[i].location)) == Some(slots[i].address)
  }

  lemma {:induction false} DecodedSlots(memory: map<u64, byte>, blob: seq<byte>, l: Linking, pageAddress: u64,
                                        location: u64)
    requires Near(pageAddress, location) && Decoded(memory, blob, l, pageAddress, location).Some?
    ensures var slots := Decoded(memory, blob, l, pageAddress, location).value;
      AllMapped(memory, slots) && SlotsApart(slots, location) && Resolved(memory, blob, l, slots)
    decreases U64_LIMIT - location
  {
    hide Resolve, NextDelta, Fetch, LeavesPage, DeltaLeaves, Mapped;
    var delta := NextDelta(Fetch(memory, location));
    if delta != 0 {
      StepsForward(pageAddress, location, delta);
      DecodedSlots(memory, blob, l, pageAddress, Add64(location, delta));
    }
  }

  lemma PutFetches(memory: map<u64, byte>, location: nat, x: u64)
    requires Mapped(memory, location)
    ensures Mapped(Put(memory, location, x), location) && Fetch(Put(memory, location, x), location) == x
  {
    hide FromBytes, ToBytes;
    WordPowers();
    BytesRoundTrip(x, 8);
    assert BytesAt(Put(memory, location, x), location) == ToBytes(x, 8);
  }

  predicate OutsideSlots(slots: seq<Slot>, a: nat) {
    forall i | 0 <= i < |slots| :: !(slots[i].location <= a < slots[i].location + 8)
  }

  lemma {:induction false} UnwrittenKept(memory: map<u64, byte>, slots: seq<Slot>, a: u64)
    requires AllMapped(memory, slots) && a in memory && OutsideSlots(slots, a)
    ensures PutAll(memory, slots).Keys == memory.Keys && PutAll(memory, slots)[a] == memory[a]
    decreases |slots|
  {
    hide ToBytes;
    if slots != [] {
      var next := Put(memory, slots[0].location, slots[0].address);
      StillMapped(memory, next, slots[1..]);
      UnwrittenKept(next, slots[1..], a);
    }
  }

  lemma {:induction false} KeysKept(memory: map<u64, byte>, slots: seq<Slot>)
    requires AllMapped(memory, slots)
    ensures PutAll(memory, slots).Keys == memory.Keys && AllMapped(PutAll(memory, slots), slots)
    decreases |slots|
  {
    hide Put;
    if slots != [] {
      var next := Put(memory, slots[0].location, slots[0].address);
      StillMapped(memory, next, slots[1..]);
      KeysKept(next, slots[1..]);
      StillMapped(memory, PutAll(memory, slots), slots);
    }
  }

  lemma SameWord(a: map<u64, byte>, b: map<u64, byte>, location: nat)
    requires Mapped(a, location) && Mapped(b, location) && forall x | location <= x < location + 8 :: a[x] == b[x]
    ensures Fetch(a, location) == Fetch(b, location)
  {
    hide FromBytes;
    assert BytesAt(a, location) == BytesAt(b, location);
  }

  lemma {:induction false} WrittenShows(memory: map<u64, byte>, slots: seq<Slot>, location: nat, i: nat)
    requires AllMapped(memory, slots) && SlotsApart(slots, location) && i < |slots|
    ensures AllMapped(PutAll(memory, slots), slots)
    ensures Fetch(PutAll(memory, slots), slots[i].location) == slots[i].address
    decreases |slots|
  {
    hide Put, Mapped, Fetch;
    var first, tail := slots[0], slots[1..];
    var next := Put(memory, first.location, first.address);
    StillMapped(memory, next, tail);
    KeysKept(memory, slots);
    KeysKept(next, tail);
    if i == 0 {
      PutFetches(memory, first.location, first.address);
      forall x: u64 | first.location <= x < first.location + 8
        ensures x in next && PutAll(next, tail)[x] == next[x]
      {
        SlotBytes(next, first.location, x);
        UnwrittenKept(next, tail, x);
      }
      SameWord(PutAll(next, tail), next, first.location);
    } else {
      WrittenShows(next, tail, location, i - 1);
    }
  }

  lemma SlotBytes(memory: map<u64, byte>, location: nat, x: nat)
    requires Mapped(memory, location) && location <= x < location + 8
    ensures x < U64_LIMIT && x in memory
  {
  }

  lemma {:induction false} WalkWritesAll(memory: map<u64, byte>, blob: seq<byte>, l: Linking, pageAddress: u64,
                                         location: u64)
    requires Near(pageAddress, location) && Decoded(memory, blob, l, pageAddress, location).Some?
    ensures var slots := Decoded(memory, blob, l, pageAddress, location).value;
      AllMapped(memory, slots) && Walk(memory, blob, l, pageAddress, location) == Result(Applied, PutAll(memory, slots))
    decreases U64_LIMIT - location
  {
    hide Resolve, NextDelta, Fetch, LeavesPage, DeltaLeaves, Mapped, Put, ToBytes;
    DecodedSlots(memory, blob, l, pageAddress, location);
    var word := Fetch(memory, location);
    var address := Resolve(blob, l, word).value;
    var next := Put(memory, location, address);
    var delta := NextDelta(word);
    var slots := Decoded(memory, blob, l, pageAddress, location).value;
    assert slots[0] == Slot(location, address);
    if delta != 0 {
      StepsForward(pageAddress, location, delta);
      var ahead: u64 := Add64(location, delta);
      PutKeepsAhead(memory, location, address, ahead);
      DecodesAlike(memory, next, blob, l, pageAddress, ahead);
      WalkWritesAll(next, blob, l, pageAddress, ahead);
      assert slots[1..] == Decoded(memory, blob, l, pageAddress, ahead).value;
    } else {
      assert slots[1..] == [];
    }
  }

  /** Rewriting a well-formed chain while walking it is the same as decoding all of it first: each
      slot ends up with the address its original word stands for, and no other byte changes. */
  lemma WalkIsDecodeThenWrite(memory: map<u64, byte>, blob: seq<byte>, l: Linking, pageAddress: u64, location: u64)
    requires Near(pageAddress, location) && Decoded(memory, blob, l, pageAddress, location).Some?
    ensures var slots := Decoded(memory, blob, l, pageAddress, location).value;
      var r := Walk(memory, blob, l, pageAddress, location);
      AllMapped(memory, slots) && Resolved(memory, blob, l, slots) && SlotsApart(slots, location) &&
      r.outcome == Applied && r.memory.Keys == memory.Keys && AllMapped(r.memory, slots) &&
      (forall i | 0 <= i < |slots| :: Fetch(r.memory, slots[i].location) == slots[i].address) &&
      (forall a | a in memory && OutsideSlots(slots, a) :: r.memory[a] == memory[a])
  {
    hide Resolved, SlotsApart, AllMapped, OutsideSlots, PutAll, Walk, Decoded, Fetch;
    DecodedSlots(memory, blob, l, pageAddress, location);
    WalkWritesAll(memory, blob, l, pageAddress, location);
    var slots := Decoded(memory, blob, l, pageAddress, location).value;
    KeysKept(memory, slots);
    forall i | 0 <= i < |slots|
      ensures Mapped(memory, slots[i].location) && Mapped(PutAll(memory, slots), slots[i].location)
      ensures Fetch(PutAll(memory, slots), slots[i].location) == slots[i].address
    {
      SlotMapped(memory, slots, i);
      SlotMapped(PutAll(memory, slots), slots, i);
      WrittenShows(memory, slots, location, i);
    }
    forall a | a in memory && OutsideSlots(slots, a)
      ensures PutAll(memory, slots)[a] == memory[a]
    {
      UnwrittenKept(memory, slots, a);
    }
  }

  lemma SlotMapped(memory: map<u64, byte>, slots: seq<Slot>, i: nat)
    requires AllMapped(memory, slots) && i < |slots|
    ensures Mapped(memory, slots[i].location)
  {
  }

  lemma PutKeepsAhead(memory: map<u64, byte>, location: u64, x: u64, ahead: u64)
    requires Mapped(memory, location) && location + 8 <= ahead
    ensures forall a | a in memory && a >= ahead :: Put(memory, location, x)[a] == memory[a]
  {
    hide ToBytes;
  }

  // ----- the code

  class GuestMemory {
    var bytes: map<u64, byte>

    predicate Valid()
      reads this
    {
      LastPageUnmapped(bytes)
    }

    constructor (bytes: map<u64, byte>)
      requires LastPageUnmapped(bytes)
      ensures Valid() && this.bytes == bytes
    {
      this.bytes := bytes;
    }

    /** An unmapped byte is an exception. */
    method ReadU64(address: u64) returns (value: Option<u64>)
      ensures value == if Mapped(bytes, address) then Some(Fetch(bytes, address)) else None
    {
      if !Mapped(bytes, address) {
        return None;
      }
      value := Some(Fetch(bytes, address));
    }

    method WriteU64(address: u64, value: u64)
      requires Mapped(bytes, address)
      modifies this
      ensures bytes == Put(old(bytes), address, value)
    {
      bytes := Put(bytes, address, value);
    }
  }

  /** The masks and shifts of the walker select the fields of `Resolve` and `NextDelta`. */
  lemma WordFields(word: u64)
    ensures (And(word, 0x8000_0000_0000_0000) != 0) == (word >= 0x8000_0000_0000_0000)
    ensures And(Shr(word, 51), 0xFFF) * 4 == NextDelta(word)
    ensures And(word, 0xFF_FFFF) == word % 0x100_0000 && And(Shr(word, 24), 0xFF) == word / 0x100_0000 % 0x100
    ensures And(word, 0xF_FFFF_FFFF) == word % 0x10_0000_0000 &&
      And(Shr(word, 36), 0xFF) == word / 0x10_0000_0000 % 0x100
  {
    hide And, Shr, Low, Shl, Pow2;
    ShiftPowers();
    MaskIsRemainder(word, 24, 0x100_0000);
    MaskIsRemainder(word, 36, 0x10_0000_0000);
    ShrIsQuotient(word, 51, 0x8_0000_0000_0000);
    MaskIsRemainder(Shr(word, 51), 12, 0x1000);
    ShrIsQuotient(word, 24, 0x100_0000);
    MaskIsRemainder(Shr(word, 24), 8, 0x100);
    ShrIsQuotient(word, 36, 0x10_0000_0000);
    MaskIsRemainder(Shr(word, 36), 8, 0x100);
    TopDigit(word);
  }

  lemma TopDigit(word: u64)
    ensures (And(word, 0x8000_0000_0000_0000) != 0) == (word >= 0x8000_0000_0000_0000)
  {
    hide And, Shr, Low, Shl, Pow2;
    ShiftPowers();
    ShlIsProduct(1, 63, 0x8000_0000_0000_0000);
    AndField(word, 63, 1);
    ShrIsQuotient(word, 63, 0x8000_0000_0000_0000);
    LowIsRemainder(word / 0x8000_0000_0000_0000, 1, 2);
    ShlIsProduct(word / 0x8000_0000_0000_0000, 63, 0x8000_0000_0000_0000);
  }

  method ReadField(blob: seq<byte>, offset: nat, size: nat) returns (value: Option<nat>)
    ensures value == Read(blob, offset, size)
  {
    if offset > |blob| || size > |blob| - offset {
      return None;
    }
    var v := ReadWord(blob, offset, size);
    value := Some(v);
  }

  method ReadHeader(blob: seq<byte>) returns (header: Option<Linking>)
    ensures header == Header(blob)
  {
    hide Read;
    var pointerFormat := ReadField(blob, 6, 2);
    var bindsOffset := ReadField(blob, 8, 4);
    var bindsCount := ReadField(blob, 12, 4);
    var chainsOffset := ReadField(blob, 16, 4);
    var slide := ReadField(blob, 24, 8);
    var imageAddress := ReadField(blob, 32, 8);
    if pointerFormat.None? || bindsOffset.None? || bindsCount.None? || chainsOffset.None? || slide.None? ||
      imageAddress.None? {
      return None;
    }
    header := Some(Linking(pointerFormat.value == 6, bindsOffset.value, bindsCount.value, chainsOffset.value,
      slide.value, imageAddress.value));
  }

  method ResolveWord(blob: seq<byte>, l: Linking, word: u64) returns (address: Option<u64>)
    ensures address == Resolve(blob, l, word)
  {
    hide And, Shr, Read;
    WordFields(word);
    if And(word, 0x8000_0000_0000_0000) != 0 {
      var ordinal := And(word, 0xFF_FFFF);
      if ordinal >= l.bindsCount {
        return None;
      }
      var addend := And(Shr(word, 24), 0xFF);
      var target := ReadField(blob, l.bindsOffset + ordinal * 8, 8);
      if target.None? {
        return None;
      }
      address := Some((target.value + addend) % U64_LIMIT);
    } else {
      var target := And(word, 0xF_FFFF_FFFF);
      var high8 := And(Shr(word, 36), 0xFF);
      var adjust := if l.offsetBased then l.imageAddress else l.slide;
      address := Some((target + adjust + high8 * 0x100_0000_0000_0000) % U64_LIMIT);
    }
  }

  method WalkChain(space: GuestMemory, blob: seq<byte>, l: Linking, pageAddress: u64, start: u64)
    returns (outcome: Outcome)
    requires Near(pageAddress, start)
    modifies space
    ensures Result(outcome, space.bytes) == Walk(old(space.bytes), blob, l, pageAddress, start)
  {
    hide And, Shr, Resolve, Fetch, Put, NextDelta, Mapped, LeavesPage, DeltaLeaves;
    var location: u64 := start;
    while true
      invariant Near(pageAddress, location)
      invariant Walk(old(space.bytes), blob, l, pageAddress, start) == Walk(space.bytes, blob, l, pageAddress, location)
      decreases U64_LIMIT - location
    {
      if LeavesPage(pageAddress, location) {
        return OutOfRange;
      }
      var word := space.ReadU64(location);
      if word.None? {
        return MemoryFault;
      }
      WordFields(word.value);
      var delta := And(Shr(word.value, 51), 0xFFF) * 4;
      var address := ResolveWord(blob, l, word.value);
      if address.None? {
        return OutOfRange;
      }
      space.WriteU64(location, address.value);
      if delta == 0 {
        return Applied;
      }
      if DeltaLeaves(pageAddress, location, delta) {
        return OutOfRange;
      }
      StepsForward(pageAddress, location, delta);
      location := Add64(location, delta);
    }
  }

  method ReadSegment(blob: seq<byte>, l: Linking, index: nat) returns (segment: Option<Segment>)
    ensures segment == SegmentAt(blob, l, index)
  {
    hide Read;
    var info := ReadField(blob, (l.chainsOffset + 4 + index * 4) % U32_LIMIT, 4);
    if info.None? {
      return None;
    }
    var offset := l.chainsOffset + info.value;
    if offset > |blob| {
      return None;
    }
    var size := ReadField(blob, offset, 4);
    var segmentOffset := ReadField(blob, offset + 8, 8);
    var pageCount := ReadField(blob, offset + 20, 2);
    if size.None? || segmentOffset.None? || pageCount.None? {
      return None;
    }
    if size.value < 24 || offset + size.value > |blob| || offset + 22 > |blob| ||
      pageCount.value * 2 > |blob| - (offset + 22) {
      return None;
    }
    var start := Add64(l.imageAddress, segmentOffset.value);
    segment := Some(Segment(offset, start, (start + pageCount.value * PAGE_SIZE) % U64_LIMIT));
  }

  method ApplyMapWithLinkingPageFixups(space: GuestMemory, blob: seq<byte>, pageAddress: u64) returns (outcome: Outcome)
    requires space.Valid()
    modifies space
    ensures space.Valid()
    ensures Result(outcome, space.bytes) == Fixups(old(space.bytes), blob, pageAddress)
    ensures SameOutside(old(space.bytes), space.bytes, pageAddress, pageAddress + PAGE_SIZE)
  {
    hide Read, Header, SegmentAt, Walk;
    FixupsStayInPage(space.bytes, blob, pageAddress);
    var header := ReadHeader(blob);
    if header.None? {
      return OutOfRange;
    }
    var l := header.value;
    var count := ReadField(blob, l.chainsOffset, 4);
    if count.None? {
      return OutOfRange;
    }
    for index := 0 to count.value
      invariant space.bytes == old(space.bytes)
      invariant Fixups(old(space.bytes), blob, pageAddress) ==
        FromSegment(space.bytes, blob, l, pageAddress, index, count.value)
    {
      var segment := ReadSegment(blob, l, index);
      if segment.None? {
        return OutOfRange;
      }
      if Covers(segment.value, pageAddress) {
        StartEntryInside(blob, l, index, pageAddress);
        var pageIndex := (pageAddress - segment.value.start) / PAGE_SIZE;
        var first := ReadField(blob, segment.value.offset + 22 + pageIndex * 2, 2);
        if first.value == CHAIN_START_NONE {
          return Applied;
        }
        outcome := WalkChain(space, blob, l, pageAddress, Add64(pageAddress, first.value));
        return;
      }
    }
    outcome := OutOfRange;
  }
}
