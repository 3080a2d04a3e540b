/** Packing binds and rebases into the words of a page and writing the blob that describes them, and
    getting exactly the linked pointers back. */
module LinkEncoding {
  import opened Options
  import opened Words
  import opened ByteOrder
  import opened LinkFixups

  // ----- reading what was written

  lemma Skip(a: seq<byte>, rest: seq<byte>, offset: nat, n: nat)
    ensures Read(a + rest, |a| + offset, n) == Read(rest, offset, n)
  {
    hide FromBytes;
    if offset + n <= |rest| {
      assert (a + rest)[|a| + offset..|a| + offset + n] == rest[offset..offset + n];
    }
  }

  lemma First(x: nat, n: nat, rest: seq<byte>)
    requires x < Pow2(8 * n)
    ensures Read(ToBytes(x, n) + rest, 0, n) == Some(x)
  {
    hide FromBytes, ToBytes;
    BytesRoundTrip(x, n);
    assert (ToBytes(x, n) + rest)[0..n] == ToBytes(x, n);
  }

  datatype Field = Field(value: nat, size: nat)

  /** Where field `k` begins. */
  function Before(fields: seq<Field>, k: nat): nat
    requires k <= |fields|
  {
    if k == 0 then 0 else Before(fields, k - 1) + fields[k - 1].size
  }

  function FieldBytes(fields: seq<Field>): seq<byte> {
    if fields == [] then [] else ToBytes(fields[0].value, fields[0].size) + FieldBytes(fields[1..])
  }

  lemma {:induction false} BeforeTail(fields: seq<Field>, k: nat)
    requires 1 <= k <= |fields|
    ensures Before(fields, k) == fields[0].size + Before(fields[1..], k - 1)
  {
    if k > 1 { BeforeTail(fields, k - 1); }
  }

  lemma {:induction false} FieldSizes(fields: seq<Field>)
    ensures |FieldBytes(fields)| == Before(fields, |fields|)
  {
    if fields != [] {
      BeforeTail(fields, |fields|);
      FieldSizes(fields[1..]);
    }
  }

  lemma {:induction false} FieldRead(fields: seq<Field>, rest: seq<byte>, k: nat)
    requires k < |fields| && fields[k].value < Pow2(8 * fields[k].size)
    ensures Read(FieldBytes(fields) + rest, Before(fields, k), fields[k].size) == Some(fields[k].value)
    decreases k
  {
    hide ToBytes, Read, Pow2;
    var first, others := ToBytes(fields[0].value, fields[0].size), FieldBytes(fields[1..]) + rest;
    assert FieldBytes(fields) + rest == first + others;
    if k == 0 {
      First(fields[0].value, fields[0].size, others);
    } else {
      BeforeTail(fields, k);
      FieldRead(fields[1..], rest, k - 1);
      Skip(first, others, Before(fields[1..], k - 1), fields[k].size);
    }
  }

  function Table(values: seq<nat>, n: nat): (bytes: seq<byte>)
    ensures |bytes| == n * |values|
  {
    if values == [] then [] else ToBytes(values[0], n) + Table(values[1..], n)
  }

  lemma {:induction false} TableRead(values: seq<nat>, n: nat, rest: seq<byte>, k: nat)
    requires k < |values| && values[k] < Pow2(8 * n)
    ensures Read(Table(values, n) + rest, n * k, n) == Some(values[k])
    decreases k
  {
    hide ToBytes, Read, Pow2, Table;
    var first, others := ToBytes(values[0], n), Table(values[1..], n) + rest;
    TableFirst(values, n, rest);
    if k == 0 {
      First(values[0], n, others);
    } else {
      TableRead(values[1..], n, rest, k - 1);
      Skip(first, others, n * (k - 1), n);
      OneMore(n, k);
    }
  }

  lemma OneMore(n: nat, k: nat)
    ensures n * k == n + n * (k - 1)
  {
  }

  lemma TableFirst(values: seq<nat>, n: nat, rest: seq<byte>)
    requires values != []
    ensures Table(values, n) + rest == ToBytes(values[0], n) + (Table(values[1..], n) + rest)
  {
    hide ToBytes;
  }

  // ----- the words of a page

  /** A pointer of the page before it is linked: to an imported symbol, or into the image. */
  datatype Fixup =
    | Bind(offset: nat, ordinal: nat, addend: nat)
    | Rebase(offset: nat, target: nat, high: nat)

  predicate FieldsFit(f: Fixup, bindsCount: nat) {
    match f
    case Bind(_, ordinal, addend) => ordinal < bindsCount && ordinal < 0x100_0000 && addend < 0x100
    case Rebase(_, target, high) => target < 0x10_0000_0000 && high < 0x100
  }

  /** Ascending offsets inside the page, apart by at least eight bytes and by multiples of four. */
  predicate Chained(fixups: seq<Fixup>, bindsCount: nat) {
    (forall i | 0 <= i < |fixups| :: FieldsFit(fixups[i], bindsCount) && fixups[i].offset + 8 <= 4096) &&
    (forall i | 0 <= i < |fixups| - 1 :: StepOk(fixups, i))
  }

  predicate StepOk(fixups: seq<Fixup>, i: nat)
    requires i + 1 < |fixups|
  {
    fixups[i].offset + 8 <= fixups[i + 1].offset && (fixups[i + 1].offset - fixups[i].offset) % 4 == 0
  }

  /** The distance to the next pointer, in units of four bytes. */
  function StepOf(fixups: seq<Fixup>): nat
    requires fixups != []
  {
    if |fixups| > 1 && fixups[0].offset <= fixups[1].offset then (fixups[1].offset - fixups[0].offset) / 4 else 0
  }

  /** Bit 63 tells binds; bits 62..51 hold the distance; a bind has its addend in bits 31..24 and its
      ordinal below, a rebase its upper byte in bits 43..36 and its target below. */
  function WordOf(f: Fixup, step: nat): nat {
    match f
    case Bind(_, ordinal, addend) =>
      0x8000_0000_0000_0000 + step * 0x8_0000_0000_0000 + addend * 0x100_0000 + ordinal
    case Rebase(_, target, high) => step * 0x8_0000_0000_0000 + high * 0x10_0000_0000 + target
  }

  /** The address that a fixup stands for. */
  function Linked(f: Fixup, offsetBased: bool, slide: u64, imageAddress: u64, binds: seq<u64>): u64
    requires FieldsFit(f, |binds|)
  {
    match f
    case Bind(_, ordinal, addend) => (binds[ordinal] + addend) % 0x1_0000_0000_0000_0000
    case Rebase(_, target, high) =>
      (target + (if offsetBased then imageAddress else slide) + high * 0x100_0000_0000_0000) % 0x1_0000_0000_0000_0000
  }

  lemma RebaseWord(target: nat, high: nat, step: nat)
    requires target < 0x10_0000_0000 && high < 0x100 && step < 0x1000
    ensures var word := WordOf(Rebase(0, target, high), step);
      word < 0x8000_0000_0000_0000 && NextDelta(word) == 4 * step && word % 0x10_0000_0000 == target &&
      word / 0x10_0000_0000 % 0x100 == high
  {
    var word := WordOf(Rebase(0, target, high), step);
    QuotientUnique(word, 0x8_0000_0000_0000, step, high * 0x10_0000_0000 + target);
    QuotientUnique(word, 0x10_0000_0000, step * 0x8000 + high, target);
    QuotientUnique(step * 0x8000 + high, 0x100, step * 0x80, high);
  }

  lemma BindWord(ordinal: nat, addend: nat, step: nat)
    requires ordinal < 0x100_0000 && addend < 0x100 && step < 0x1000
    ensures var word := WordOf(Bind(0, ordinal, addend), step);
      0x8000_0000_0000_0000 <= word < 0x1_0000_0000_0000_0000 && NextDelta(word) == 4 * step &&
      word % 0x100_0000 == ordinal && word / 0x100_0000 % 0x100 == addend
  {
    var word := WordOf(Bind(0, ordinal, addend), step);
    QuotientUnique(word, 0x8_0000_0000_0000, 0x1000 + step, addend * 0x100_0000 + ordinal);
    QuotientUnique(0x1000 + step, 0x1000, 1, step);
    var q := 0x80_0000_0000 + step * 0x800_0000 + addend;
    QuotientUnique(word, 0x100_0000, q, ordinal);
    QuotientUnique(q, 0x100, 0x8000_0000 + step * 0x8_0000, addend);
  }

  predicate HoldsBinds(blob: seq<byte>, l: Linking, binds: seq<u64>) {
    l.bindsCount == |binds| && forall k | 0 <= k < |binds| :: Read(blob, l.bindsOffset + k * 8, 8) == Some(binds[k])
  }

  lemma WordResolves(blob: seq<byte>, l: Linking, binds: seq<u64>, f: Fixup, step: nat)
    requires HoldsBinds(blob, l, binds) && FieldsFit(f, |binds|) && step < 0x1000
    ensures WordOf(f, step) < U64_LIMIT && NextDelta(WordOf(f, step)) == 4 * step
    ensures Resolve(blob, l, WordOf(f, step)) == Some(Linked(f, l.offsetBased, l.slide, l.imageAddress, binds))
  {
    hide HoldsBinds, WordOf, NextDelta;
    match f {
      case Bind(_, ordinal, addend) => BindResolves(blob, l, binds, ordinal, addend, step);
      case Rebase(_, target, high) => RebaseResolves(blob, l, target, high, step);
    }
    hide Resolve, Linked;
    OffsetFree(f, step);
  }

  lemma OffsetFree(f: Fixup, step: nat)
    ensures WordOf(f, step) == WordOf(f.(offset := 0), step)
  {
  }

  lemma BindResolves(blob: seq<byte>, l: Linking, binds: seq<u64>, ordinal: nat, addend: nat, step: nat)
    requires HoldsBinds(blob, l, binds) && ordinal < |binds| && ordinal < 0x100_0000 && addend < 0x100 && step < 0x1000
    ensures var word := WordOf(Bind(0, ordinal, addend), step);
      word < U64_LIMIT && NextDelta(word) == 4 * step &&
      Resolve(blob, l, word) == Some((binds[ordinal] + addend) % U64_LIMIT)
  {
    hide WordOf, Read, NextDelta;
    BindWord(ordinal, addend, step);
  }

  lemma RebaseResolves(blob: seq<byte>, l: Linking, target: nat, high: nat, step: nat)
    requires target < 0x10_0000_0000 && high < 0x100 && step < 0x1000
    ensures var word := WordOf(Rebase(0, target, high), step);
      word < U64_LIMIT && NextDelta(word) == 4 * step &&
      Resolve(blob, l, word) == Some(
        (target + (if l.offsetBased then l.imageAddress else l.slide) + high * 0x100_0000_0000_0000) % U64_LIMIT)
  {
    hide WordOf, Read, NextDelta;
    RebaseWord(target, high, step);
  }

  // ----- one page

  /** The packed words in their places. */
  function PackedSlots(fixups: seq<Fixup>, page: u64): (slots: seq<Slot>)
    requires page + 4096 < U64_LIMIT
    ensures |slots| == |fixups|
    ensures forall i | 0 <= i < |fixups| :: slots[i].location == (page + fixups[i].offset) % U64_LIMIT
  {
    if fixups == [] then []
    else
      [Slot((page + fixups[0].offset) % U64_LIMIT, WordOf(fixups[0], StepOf(fixups)) % U64_LIMIT)] +
      PackedSlots(fixups[1..], page)
  }

  predicate AllFieldsFit(fixups: seq<Fixup>, bindsCount: nat) {
    forall i | 0 <= i < |fixups| :: FieldsFit(fixups[i], bindsCount)
  }

  /** The linked pointers in the same places. */
  function LinkedSlots(fixups: seq<Fixup>, page: u64, l: Linking, binds: seq<u64>): (slots: seq<Slot>)
    requires AllFieldsFit(fixups, |binds|)
    ensures |slots| == |fixups|
    ensures forall i | 0 <= i < |fixups| ::
      slots[i] == Slot((page + fixups[i].offset) % U64_LIMIT,
        Linked(fixups[i], l.offsetBased, l.slide, l.imageAddress, binds))
  {
    if fixups == [] then []
    else
      [Slot((page + fixups[0].offset) % U64_LIMIT, Linked(fixups[0], l.offsetBased, l.slide, l.imageAddress, binds))] +
      LinkedSlots(fixups[1..], page, l, binds)
  }

  predicate Contains(memory: map<u64, byte>, slots: seq<Slot>) {
    forall i | 0 <= i < |slots| :: ContainsOne(memory, slots[i])
  }

  predicate ContainsOne(memory: map<u64, byte>, s: Slot) {
    Mapped(memory, s.location) && Fetch(memory, s.location) == s.address
  }

  lemma ChainedTail(fixups: seq<Fixup>, bindsCount: nat)
    requires Chained(fixups, bindsCount) && fixups != []
    ensures Chained(fixups[1..], bindsCount) && AllFieldsFit(fixups, bindsCount)
    ensures fixups[0].offset + 8 <= 4096 && StepOf(fixups) < 0x1000
    ensures if |fixups| > 1 then StepOf(fixups) >= 2 && fixups[0].offset + 4 * StepOf(fixups) == fixups[1].offset
      else StepOf(fixups) == 0
    ensures |fixups| > 1 ==> fixups[1].offset + 8 <= 4096
  {
    hide FieldsFit;
    var tail := fixups[1..];
    if |fixups| > 1 { assert StepOk(fixups, 0); }
    forall i | 0 <= i < |tail| - 1
      ensures StepOk(tail, i)
    {
      var next := i + 1;
      assert StepOk(fixups, next);
    }
  }

  /** The tests on locations let everything inside the page through. */
  lemma InsidePage(page: u64, offset: nat, delta: nat)
    requires page + 4096 < U64_LIMIT && offset + 8 <= 4096
    ensures var location := (page + offset) % U64_LIMIT;
      location == page + offset && Near(page, location) && !LeavesPage(page, location)
    ensures offset + delta + 8 <= 4096 ==>
      !DeltaLeaves(page, page + offset, delta) && Add64(page + offset, delta) == page + offset + delta
  {
  }

  /** One step of decoding. */
  lemma DecodesOne(memory: map<u64, byte>, blob: seq<byte>, l: Linking, page: u64, location: u64, address: u64,
                   delta: nat, others: seq<Slot>)
    requires Near(page, location) && !LeavesPage(page, location) && Mapped(memory, location)
    requires Resolve(blob, l, Fetch(memory, location)) == Some(address) && NextDelta(Fetch(memory, location)) == delta
    requires delta == 0 ==> others == []
    requires delta != 0 ==>
      delta >= 8 && !DeltaLeaves(page, location, delta) && Near(page, Add64(location, delta)) &&
      Decoded(memory, blob, l, page, Add64(location, delta)) == Some(others)
    ensures Decoded(memory, blob, l, page, location) == Some([Slot(location, address)] + others)
  {
    hide Resolve, NextDelta, Fetch, Mapped, LeavesPage, DeltaLeaves, Near, Add64;
    assert [Slot(location, address)] + [] == [Slot(location, address)];
  }

  /** In memory that holds the packed words, the chain decodes to the linked pointers. */
  lemma {:induction false} DecodesPacked(memory: map<u64, byte>, blob: seq<byte>, l: Linking, binds: seq<u64>,
                                         page: u64, fixups: seq<Fixup>)
    requires fixups != [] && Chained(fixups, |binds|) && page + 4096 < U64_LIMIT && HoldsBinds(blob, l, binds)
    requires Contains(memory, PackedSlots(fixups, page))
    ensures AllFieldsFit(fixups, |binds|) && Near(page, (page + fixups[0].offset) % U64_LIMIT)
    ensures Decoded(memory, blob, l, page, (page + fixups[0].offset) % U64_LIMIT) ==
      Some(LinkedSlots(fixups, page, l, binds))
    decreases |fixups|
  {
    hide Resolve, NextDelta, Fetch, Mapped, HoldsBinds, Chained, FieldsFit, WordOf, Linked, Contains, StepOf, Decoded,
      LeavesPage, DeltaLeaves, Near, Add64;
    ChainedTail(fixups, |binds|);
    FitFirst(fixups, |binds|);
    var slots, step := PackedSlots(fixups, page), StepOf(fixups);
    ContainsAt(memory, slots);
    WordResolves(blob, l, binds, fixups[0], step);
    InsidePage(page, fixups[0].offset, 4 * step);
    var location: u64 := page + fixups[0].offset;
    var address := Linked(fixups[0], l.offsetBased, l.slide, l.imageAddress, binds);
    if |fixups| > 1 {
      var tail := fixups[1..];
      assert slots[1..] == PackedSlots(tail, page);
      InsidePage(page, tail[0].offset, 0);
      DecodesPacked(memory, blob, l, binds, page, tail);
      DecodesOne(memory, blob, l, page, location, address, 4 * step, LinkedSlots(tail, page, l, binds));
    } else {
      DecodesOne(memory, blob, l, page, location, address, 0, []);
    }
  }

  lemma FitFirst(fixups: seq<Fixup>, bindsCount: nat)
    requires fixups != [] && AllFieldsFit(fixups, bindsCount)
    ensures FieldsFit(fixups[0], bindsCount) && AllFieldsFit(fixups[1..], bindsCount)
  {
  }

  lemma ContainsAt(memory: map<u64, byte>, slots: seq<Slot>)
    requires slots != [] && Contains(memory, slots)
    ensures Mapped(memory, slots[0].location) && Fetch(memory, slots[0].location) == slots[0].address
    ensures Contains(memory, slots[1..])
  {
    hide Mapped, Fetch;
    assert ContainsOne(memory, slots[0]);
  }

  lemma PackedApart(fixups: seq<Fixup>, bindsCount: nat, page: u64, i: nat, j: nat)
    requires Chained(fixups, bindsCount) && i < j < |fixups|
    ensures fixups[i].offset + 8 <= fixups[j].offset
    decreases j - i
  {
    assert StepOk(fixups, i);
    if i + 1 < j { PackedApart(fixups, bindsCount, page, i + 1, j); }
  }

  lemma PlacesApart(fixups: seq<Fixup>, bindsCount: nat, page: u64, slots: seq<Slot>)
    requires Chained(fixups, bindsCount) && page + 4096 < U64_LIMIT && |slots| == |fixups|
    requires forall i | 0 <= i < |fixups| :: slots[i].location == (page + fixups[i].offset) % U64_LIMIT
    ensures SlotsApart(slots, 0)
  {
    hide Chained;
    forall i, j | 0 <= i < j < |slots|
      ensures slots[i].location + 8 <= slots[j].location
    {
      PackedApart(fixups, bindsCount, page, i, j);
      OffsetInside(fixups, bindsCount, i);
      OffsetInside(fixups, bindsCount, j);
    }
  }

  /** Words that do not overlap are all there after they are written. */
  lemma WrittenAreThere(memory: map<u64, byte>, slots: seq<Slot>)
    requires AllMapped(memory, slots) && SlotsApart(slots, 0)
    ensures Contains(PutAll(memory, slots), slots)
  {
    hide Mapped, Fetch, PutAll, AllMapped, SlotsApart;
    forall i | 0 <= i < |slots|
      ensures ContainsOne(PutAll(memory, slots), slots[i])
    {
      WrittenShows(memory, slots, 0, i);
      SlotMapped(PutAll(memory, slots), slots, i);
    }
  }

  lemma OffsetInside(fixups: seq<Fixup>, bindsCount: nat, i: nat)
    requires Chained(fixups, bindsCount) && i < |fixups|
    ensures fixups[i].offset + 8 <= 4096
  {
  }

  /** Outside all pointers of the page. */
  predicate OutsideFixups(fixups: seq<Fixup>, page: u64, a: nat) {
    forall i | 0 <= i < |fixups| :: !(page + fixups[i].offset <= a < page + fixups[i].offset + 8)
  }

  lemma SamePlaces(fixups: seq<Fixup>, bindsCount: nat, page: u64, slots: seq<Slot>, a: nat)
    requires Chained(fixups, bindsCount) && page + 4096 < U64_LIMIT && OutsideFixups(fixups, page, a)
    requires |slots| == |fixups|
    requires forall i | 0 <= i < |fixups| :: slots[i].location == (page + fixups[i].offset) % U64_LIMIT
    ensures OutsideSlots(slots, a)
  {
    hide Chained;
    forall i | 0 <= i < |slots|
      ensures !(slots[i].location <= a < slots[i].location + 8)
    {
      OffsetInside(fixups, bindsCount, i);
    }
  }

  /** Each pointer of the page is linked, in its place, and nothing else has changed since before it
      was packed. */
  ghost predicate IsLinked(before: map<u64, byte>, after: map<u64, byte>, page: u64, fixups: seq<Fixup>,
                           offsetBased: bool, slide: u64, imageAddress: u64, binds: seq<u64>)
    requires AllFieldsFit(fixups, |binds|)
  {
    after.Keys == before.Keys &&
    (forall i | 0 <= i < |fixups| ::
      HoldsAt(after, page + fixups[i].offset, Linked(fixups[i], offsetBased, slide, imageAddress, binds))) &&
    forall a | a in before && OutsideFixups(fixups, page, a) :: after[a] == before[a]
  }

  predicate HoldsAt(memory: map<u64, byte>, address: nat, x: u64) {
    Mapped(memory, address) && Fetch(memory, address) == x
  }

  lemma ShowsLinked(after: map<u64, byte>, fixups: seq<Fixup>, bindsCount: nat, page: u64, slots: seq<Slot>, i: nat)
    requires Chained(fixups, bindsCount) && page + 4096 < U64_LIMIT && |slots| == |fixups| && i < |slots|
    requires slots[i].location == (page + fixups[i].offset) % U64_LIMIT && AllMapped(after, slots)
    requires Mapped(after, slots[i].location) && Fetch(after, slots[i].location) == slots[i].address
    ensures HoldsAt(after, page + fixups[i].offset, slots[i].address)
  {
    hide Chained, AllMapped, Mapped, Fetch;
    OffsetInside(fixups, bindsCount, i);
  }

  /** What a walk leaves that decodes to the linked pointers of the packed page. */
  lemma LinkedFromPacked(memory: map<u64, byte>, after: map<u64, byte>, page: u64, fixups: seq<Fixup>, l: Linking,
                         binds: seq<u64>)
    requires Chained(fixups, |binds|) && AllFieldsFit(fixups, |binds|) && page + 4096 < U64_LIMIT
    requires AllMapped(memory, PackedSlots(fixups, page)) && AllMapped(after, LinkedSlots(fixups, page, l, binds))
    requires after.Keys == memory.Keys
    requires var slots := LinkedSlots(fixups, page, l, binds);
      forall i | 0 <= i < |slots| :: Fetch(after, slots[i].location) == slots[i].address
    requires var packed := PutAll(memory, PackedSlots(fixups, page));
      packed.Keys == memory.Keys &&
      forall a | a in packed && OutsideSlots(LinkedSlots(fixups, page, l, binds), a) :: after[a] == packed[a]
    ensures IsLinked(memory, after, page, fixups, l.offsetBased, l.slide, l.imageAddress, binds)
  {
    hide PutAll, Chained, AllMapped, Fetch, Mapped, Linked, OutsideSlots, OutsideFixups, HoldsAt, AllFieldsFit;
    var slots, linked := PackedSlots(fixups, page), LinkedSlots(fixups, page, l, binds);
    forall i | 0 <= i < |fixups|
      ensures HoldsAt(after, page + fixups[i].offset, linked[i].address)
    {
      SlotMapped(after, linked, i);
      ShowsLinked(after, fixups, |binds|, page, linked, i);
    }
    forall a | a in memory && OutsideFixups(fixups, page, a)
      ensures after[a] == memory[a]
    {
      SamePlaces(fixups, |binds|, page, slots, a);
      SamePlaces(fixups, |binds|, page, linked, a);
      UnwrittenKept(memory, slots, a);
    }
    hide PackedSlots, LinkedSlots;
  }

  lemma WalkLinksPacked(memory: map<u64, byte>, blob: seq<byte>, l: Linking, binds: seq<u64>, page: u64,
                        fixups: seq<Fixup>)
    requires fixups != [] && Chained(fixups, |binds|) && page + 4096 < U64_LIMIT && HoldsBinds(blob, l, binds)
    requires AllMapped(memory, PackedSlots(fixups, page))
    ensures var location := (page + fixups[0].offset) % U64_LIMIT;
      Near(page, location) && AllFieldsFit(fixups, |binds|) &&
      var r := Walk(PutAll(memory, PackedSlots(fixups, page)), blob, l, page, location);
      r.outcome == Applied &&
      IsLinked(memory, r.memory, page, fixups, l.offsetBased, l.slide, l.imageAddress, binds)
  {
    hide Walk, PutAll, Chained, AllMapped, HoldsBinds, Contains, Decoded, Fetch, Mapped, Linked, Near, OutsideSlots,
      OutsideFixups, HoldsAt, IsLinked, Resolved, SlotsApart, AllFieldsFit;
    var slots := PackedSlots(fixups, page);
    var packed := PutAll(memory, slots);
    PlacesApart(fixups, |binds|, page, slots);
    WrittenAreThere(memory, slots);
    DecodesPacked(packed, blob, l, binds, page, fixups);
    KeysKept(memory, slots);
    hide PackedSlots;
    var location := (page + fixups[0].offset) % U64_LIMIT;
    WalkIsDecodeThenWrite(packed, blob, l, page, location);
    var after := Walk(packed, blob, l, page, location).memory;
    LinkedFromPacked(memory, after, page, fixups, l, binds);
  }

  // ----- where a walk is refused

  /** A bind whose ordinal is past the table, or whose entry is past the blob. */
  predicate Unbound(blob: seq<byte>, l: Linking, f: Fixup) {
    f.Bind? && (f.ordinal >= l.bindsCount || l.bindsOffset + 8 * f.ordinal + 8 > |blob|)
  }

  predicate WidthsFit(f: Fixup) {
    match f
    case Bind(_, ordinal, addend) => ordinal < 0x100_0000 && addend < 0x100
    case Rebase(_, target, high) => target < 0x10_0000_0000 && high < 0x100
  }

  lemma UnboundRefused(blob: seq<byte>, l: Linking, f: Fixup, step: nat)
    requires WidthsFit(f) && step < 0x1000
    ensures WordOf(f, step) < U64_LIMIT && NextDelta(WordOf(f, step)) == 4 * step
    ensures Resolve(blob, l, WordOf(f, step)).None? <==> Unbound(blob, l, f)
  {
    match f {
      case Bind(_, ordinal, addend) => BindWord(ordinal, addend, step);
      case Rebase(_, target, high) => RebaseWord(target, high, step);
    }
    hide NextDelta;
  }

  lemma TestsOnOffsets(page: u64, offset: nat, delta: nat)
    requires page + 0x1_4000 < U64_LIMIT && offset <= 0xFFFF && delta < 0x4000
    ensures var location: u64 := page + offset;
      Near(page, location) && (LeavesPage(page, location) <==> offset + 8 > 4096) &&
      (offset + 8 <= 4096 ==> (DeltaLeaves(page, location, delta) <==> offset + delta + 8 > 4096))
  {
  }

  /** A walk at the packed word of any pointer: out of range without a write past the page or for an
      unbound symbol, out of range behind the write if the next pointer would be past the page. */
  lemma WalkRefuses(memory: map<u64, byte>, blob: seq<byte>, l: Linking, page: u64, f: Fixup, step: nat)
    requires page + 0x1_4000 < U64_LIMIT && f.offset <= 0xFFFF && WidthsFit(f) && step < 0x1000
    requires HoldsAt(memory, page + f.offset, WordOf(f, step) % U64_LIMIT)
    ensures var location: u64 := page + f.offset;
      var r := Walk(memory, blob, l, page, location);
      (f.offset + 8 > 4096 || Unbound(blob, l, f) ==> r == Result(OutOfRange, memory)) &&
      (f.offset + 8 <= 4096 && !Unbound(blob, l, f) && step != 0 && f.offset + 4 * step + 8 > 4096 ==>
       r.outcome == OutOfRange && SameOutside(memory, r.memory, location, location + 8)) &&
      (f.offset + 8 <= 4096 && !Unbound(blob, l, f) && step == 0 ==>
       r.outcome == Applied && SameOutside(memory, r.memory, location, location + 8))
  {
    hide WordOf, Resolve, NextDelta, Fetch, Unbound, ToBytes, LeavesPage, DeltaLeaves, Near, WidthsFit, Put, Add64,
      SameOutside, Mapped;
    UnboundRefused(blob, l, f, step);
    TestsOnOffsets(page, f.offset, 4 * step);
    var address := Resolve(blob, l, WordOf(f, step) % U64_LIMIT);
    if address.Some? { PutAround(memory, page + f.offset, address.value); }
  }

  lemma PutAround(memory: map<u64, byte>, location: nat, x: u64)
    requires Mapped(memory, location)
    ensures SameOutside(memory, Put(memory, location, x), location, location + 8)
  {
    hide ToBytes;
  }
}
