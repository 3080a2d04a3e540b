/** Which chains a page has, and rebasing the pages of a mapping one by one. */
module SlidePages {
  import opened Options
  import opened Words
  import opened ByteOrder
  import opened SlideInfo

  // ----- the tables

  function Entry(blob: seq<byte>, table: nat, index: nat): (e: u16)
    requires table + 2 * index + 2 <= |blob|
  {
    WordPowers();
    ValueRoundTrip(blob[table + 2 * index..table + 2 * index + 2]);
    FromBytes(blob[table + 2 * index..table + 2 * index + 2])
  }

  /** Bits 15..14 of a page start. */
  function Attributes(start: u16): nat { start / 0x4000 }

  /** Bits 13..0, in units of four bytes. */
  function ChainOffset(entry: u16): u64 { entry % 0x4000 * 4 }

  predicate TablesInside(blob: seq<byte>, info: SlideInfo2) {
    info.pageStartsOffset + 2 * info.pageStartsCount <= |blob| &&
    info.pageExtrasOffset + 2 * info.pageExtrasCount <= |blob|
  }

  /** From an extra on, entries start inside the page until one is marked as the last. */
  predicate ExtrasAccepted(blob: seq<byte>, info: SlideInfo2, index: nat)
    requires TablesInside(blob, info)
    decreases info.pageExtrasCount - index
  {
    index < info.pageExtrasCount &&
    var extra := Entry(blob, info.pageExtrasOffset, index);
    Attributes(extra) % 2 == 0 && ChainOffset(extra) <= PAGE - 8 &&
    (extra >= 0x8000 || ExtrasAccepted(blob, info, index + 1))
  }

  predicate PageAccepted(blob: seq<byte>, info: SlideInfo2, page: nat)
    requires TablesInside(blob, info) && page < info.pageStartsCount
  {
    var start := Entry(blob, info.pageStartsOffset, page);
    Attributes(start) == 1 ||
    (Attributes(start) == 0 && ChainOffset(start) <= PAGE - 8) ||
    (Attributes(start) == 2 && ExtrasAccepted(blob, info, start % 0x4000))
  }

  function Header(blob: seq<byte>): SlideInfo2
    requires |blob| >= 40
  {
    SlideInfo2(FromBytes(blob[4..8]), FromBytes(blob[8..12]), FromBytes(blob[12..16]), FromBytes(blob[16..20]),
      FromBytes(blob[20..24]),
      U64At(blob, 24), U64At(blob, 32))
  }

  predicate HeaderAccepted(blob: seq<byte>, mappingSize: nat) {
    |blob| >= 40 && FromBytes(blob[0..4]) == 2 &&
    var info := Header(blob);
    info.pageSize == PAGE && mappingSize / PAGE == info.pageStartsCount && mappingSize % PAGE == 0 &&
    TablesInside(blob, info) && MaskAccepted(info.deltaMask)
  }

  /** What `parseSlideInfo2` lets through. */
  predicate Accepted(blob: seq<byte>, mappingSize: nat) {
    HeaderAccepted(blob, mappingSize) &&
    forall page | 0 <= page < Header(blob).pageStartsCount :: PageAccepted(blob, Header(blob), page)
  }

  lemma EntryBits(e: u16)
    ensures And(e, 0xC000) == Attributes(e) * 0x4000 && And(e, 0x3FFF) == e % 0x4000
    ensures And(e, 0x4000) == Attributes(e) % 2 * 0x4000 && And(e, 0x8000) == e / 0x8000 * 0x8000
  {
    hide And, Shl, Shr, Low, Pow2;
    WordPowers();
    SmallPowers();
    MaskIsRemainder(e, 14, 0x4000);
    ShlIsProduct(3, 14, 0x4000);
    ShlIsProduct(1, 14, 0x4000);
    ShlIsProduct(1, 15, 0x8000);
    Masked(e, 14, 2, 0x4000, 4);
    Masked(e, 14, 1, 0x4000, 2);
    Masked(e, 15, 1, 0x8000, 2);
    ShlIsProduct(e / 0x4000 % 4, 14, 0x4000);
    ShlIsProduct(e / 0x4000 % 2, 14, 0x4000);
    ShlIsProduct(e / 0x8000 % 2, 15, 0x8000);
  }

  lemma Masked(e: u16, k: nat, n: nat, p: nat, q: nat)
    requires p == Pow2(k) && q == Pow2(n)
    ensures And(e, Shl(q - 1, k)) == Shl(e / p % q, k)
  {
    hide And, Shl, Shr, Low, Pow2;
    AndField(e, k, n);
    ShrIsQuotient(e, k, p);
    LowIsRemainder(e / p, n, q);
  }

  /** One field of an exception-throwing read. */
  method ReadField(blob: seq<byte>, offset: nat, size: nat) returns (r: Option<nat>)
    ensures r.None? <==> offset + size > |blob|
    ensures r.Some? ==> r.value == FromBytes(blob[offset..offset + size])
  {
    if offset > |blob| || size > |blob| - offset {
      return None;
    }
    var value := ReadWord(blob, offset, size);
    r := Some(value);
  }

  method ParseSlideInfo2(blob: seq<byte>, mappingSize: nat) returns (r: Option<SlideInfo2>)
    ensures r == if Accepted(blob, mappingSize) then Some(Header(blob)) else None
  {
    hide MaskAccepted, PageAccepted, FromBytes;
    if |blob| < 40 {
      return None;
    }
    var version := ReadField(blob, 0, 4);
    if version.value != 2 {
      return None;
    }
    var info := ReadHeader(blob);
    if info.pageSize != PAGE || mappingSize / info.pageSize != info.pageStartsCount ||
      mappingSize % info.pageSize != 0 {
      return None;
    }
    var startsSize, extrasSize := info.pageStartsCount * 2, info.pageExtrasCount * 2;
    if info.pageStartsOffset > |blob| || startsSize > |blob| - info.pageStartsOffset ||
       info.pageExtrasOffset > |blob| || extrasSize > |blob| - info.pageExtrasOffset {
      return None;
    }
    if !MaskAccepted(info.deltaMask) {
      return None;
    }
    for page := 0 to info.pageStartsCount
      invariant forall p | 0 <= p < page :: PageAccepted(blob, info, p)
    {
      var accepted := CheckPage(blob, info, page);
      if !accepted {
        return None;
      }
    }
    r := Some(info);
  }

  method ReadHeader(blob: seq<byte>) returns (info: SlideInfo2)
    requires |blob| >= 40
    ensures info == Header(blob)
  {
    hide FromBytes;
    var pageSize := ReadField(blob, 4, 4);
    var startsOffset := ReadField(blob, 8, 4);
    var startsCount := ReadField(blob, 12, 4);
    var extrasOffset := ReadField(blob, 16, 4);
    var extrasCount := ReadField(blob, 20, 4);
    var deltaMask := ReadField(blob, 24, 8);
    var valueAdd := ReadField(blob, 32, 8);
    info := SlideInfo2(pageSize.value, startsOffset.value, startsCount.value, extrasOffset.value, extrasCount.value,
      U64At(blob, 24), U64At(blob, 32));
  }

  method CheckPage(blob: seq<byte>, info: SlideInfo2, page: nat) returns (accepted: bool)
    requires TablesInside(blob, info) && page < info.pageStartsCount
    ensures accepted == PageAccepted(blob, info, page)
  {
    hide And, FromBytes;
    var start := Entry(blob, info.pageStartsOffset, page);
    EntryBits(start);
    var attributes := And(start, 0xC000);
    if attributes == 0x4000 {
      return true;
    }
    if attributes == 0 {
      return start * 4 <= PAGE - 8;
    }
    if attributes != 0x8000 {
      return false;
    }
    var first := And(start, 0x3FFF);
    var extraIndex := first;
    while extraIndex < info.pageExtrasCount
      invariant ExtrasAccepted(blob, info, first) == ExtrasAccepted(blob, info, extraIndex)
    {
      var extra := Entry(blob, info.pageExtrasOffset, extraIndex);
      EntryBits(extra);
      if And(extra, 0x4000) != 0 {
        return false;
      }
      if And(extra, 0x3FFF) * 4 > PAGE - 8 {
        return false;
      }
      extraIndex := extraIndex + 1;
      if And(extra, 0x8000) != 0 {
        return true;
      }
    }
    accepted := false;
  }

  // ----- the chains of a page

  function ExtraOffsets(blob: seq<byte>, info: SlideInfo2, index: nat): seq<u64>
    requires TablesInside(blob, info) && ExtrasAccepted(blob, info, index)
    decreases info.pageExtrasCount - index
  {
    var extra := Entry(blob, info.pageExtrasOffset, index);
    [ChainOffset(extra)] + if extra >= 0x8000 then [] else ExtraOffsets(blob, info, index + 1)
  }

  function ChainOffsets(blob: seq<byte>, info: SlideInfo2, page: nat): seq<u64>
    requires TablesInside(blob, info) && page < info.pageStartsCount && PageAccepted(blob, info, page)
  {
    var start := Entry(blob, info.pageStartsOffset, page);
    if Attributes(start) == 1 then [] else if Attributes(start) == 0 then [ChainOffset(start)]
      else ExtraOffsets(blob, info, start % 0x4000)
  }

  function Chains(page: seq<byte>, offsets: seq<u64>, info: SlideInfo2, slide: u64): (w: Walk)
    requires |page| == PAGE && MaskAccepted(info.deltaMask)
    ensures w.Done? ==> |w.page| == PAGE
    decreases |offsets|
  {
    if offsets == [] then Done(page)
    else
      var first := Chain(page, offsets[0], info, slide);
      if first.Done? then Chains(first.page, offsets[1..], info, slide) else first
  }

  // ----- in place

  function PageOf(bytes: seq<byte>, p: nat): (page: seq<byte>)
    requires 4096 * p + 4096 <= |bytes|
    ensures |page| == PAGE
  {
    bytes[4096 * p..4096 * p + 4096]
  }

  datatype Status = Completed | Threw | WentBackwards

  lemma ReadInPage(bytes: seq<byte>, base: nat, offset: nat)
    requires base + 4096 <= |bytes| && offset + 8 <= 4096
    ensures FromBytes(bytes[base + offset..base + offset + 8]) == U64At(bytes[base..base + 4096], offset)
  {
    SliceOfSlice(bytes, base, 4096, offset, 8);
  }

  lemma WriteInPage(before: seq<byte>, after: seq<byte>, base: nat, offset: nat, x: u64)
    requires base + 4096 <= |before| && offset + 8 <= 4096
    requires after == before[..base + offset] + ToBytes(x, 8) + before[base + offset + 8..]
    ensures |after| == |before| && after[base..base + 4096] == PutU64(before[base..base + 4096], offset, x)
    ensures after[..base] == before[..base] && after[base + 4096..] == before[base + 4096..]
  {
    hide ToBytes;
    var page := before[base..base + 4096];
    assert page[..offset] == before[base..base + offset];
    assert page[offset + 8..] == before[base + offset + 8..base + 4096];
  }

  method ApplyChain(mapping: array<byte>, base: nat, start: u64, info: SlideInfo2, slide: u64) returns (status: Status)
    requires base + 4096 <= mapping.Length && MaskAccepted(info.deltaMask)
    modifies mapping
    ensures mapping[..base] == old(mapping[..base]) && mapping[base + 4096..] == old(mapping[base + 4096..])
    ensures var w := Chain(old(mapping[base..base + 4096]), start, info, slide);
      (status == Completed <==> w.Done?) && (status == Threw <==> w.Rejected?) &&
      (w.Done? ==> mapping[base..base + 4096] == w.page)
    ensures info.deltaMask != WRAPPING_MASK ==> status != WentBackwards
  {
    hide And, Shr, FromBytes, ToBytes, MaskAccepted, U64At, PutU64;
    if info.deltaMask != WRAPPING_MASK {
      WalksForward(mapping[base..base + 4096], start, info, slide);
    }
    var pageOffset: u64 := start;
    while true
      invariant Chain(old(mapping[base..base + 4096]), start, info, slide) ==
        Chain(mapping[base..base + 4096], pageOffset, info, slide)
      invariant mapping[..base] == old(mapping[..base]) && mapping[base + 4096..] == old(mapping[base + 4096..])
      decreases U64_LIMIT - pageOffset
    {
      if pageOffset > PAGE - 8 {
        return Threw;
      }
      var location := base + pageOffset;
      ghost var before, page := mapping[..], mapping[base..base + 4096];
      assert before[base..base + 4096] == page;
      ReadInPage(before, base, pageOffset);
      var raw := ReadWord(mapping[..], location, 8);
      var delta := Delta(raw, info.deltaMask);
      var value := Rebase(Value(raw, info.deltaMask), info.valueAdd, slide);
      if value.None? {
        return Threw;
      }
      WriteWord(mapping, location, 8, value.value);
      WriteInPage(before, mapping[..], base, pageOffset, value.value);
      assert mapping[base..base + 4096] == mapping[..][base..base + 4096];
      assert mapping[..base] == mapping[..][..base] && mapping[base + 4096..] == mapping[..][base + 4096..];
      assert before[..base] == old(mapping[..base]) && before[base + 4096..] == old(mapping[base + 4096..]);
      if delta == 0 {
        return Completed;
      }
      if pageOffset > (PAGE - delta) % U64_LIMIT {
        return Threw;
      }
      if pageOffset + delta >= U64_LIMIT {
        return WentBackwards;
      }
      pageOffset := pageOffset + delta;
    }
  }

  /** The whole page, chain by chain. */
  method ApplySlideInfo2Page(mapping: array<byte>, blob: seq<byte>, info: SlideInfo2, slide: u64, page: nat)
    returns (status: Status)
    requires Accepted(blob, mapping.Length) && info == Header(blob) && page < info.pageStartsCount
    modifies mapping
    ensures 4096 * page + 4096 <= mapping.Length
    ensures mapping[..4096 * page] == old(mapping[..4096 * page])
    ensures mapping[4096 * page + 4096..] == old(mapping[4096 * page + 4096..])
    ensures var w := Chains(old(mapping[4096 * page..4096 * page + 4096]), ChainOffsets(blob, info, page), info, slide);
      (status == Completed <==> w.Done?) && (status == Threw <==> w.Rejected?) &&
      (w.Done? ==> mapping[4096 * page..4096 * page + 4096] == w.page)
    ensures info.deltaMask != WRAPPING_MASK ==> status != WentBackwards
  {
    hide Chain, FromBytes, And, MaskAccepted;
    PageInside(mapping.Length, info.pageStartsCount, page);
    var base := 4096 * page;
    var start := Entry(blob, info.pageStartsOffset, page);
    EntryBits(start);
    var attributes := And(start, 0xC000);
    assert PageAccepted(blob, info, page);
    if attributes == 0x4000 {
      return Completed;
    }
    if attributes == 0 {
      status := ApplyChain(mapping, base, And(start, 0x3FFF) * 4, info, slide);
      return;
    }
    status := ApplyExtras(mapping, base, blob, info, slide, And(start, 0x3FFF));
  }

  lemma PageInside(size: nat, count: nat, page: nat)
    requires size / 4096 == count && size % 4096 == 0 && page < count
    ensures 4096 * page + 4096 <= size
  {
  }

  method ApplyExtras(mapping: array<byte>, base: nat, blob: seq<byte>, info: SlideInfo2, slide: u64, first: nat)
    returns (status: Status)
    requires base + 4096 <= mapping.Length && MaskAccepted(info.deltaMask)
    requires TablesInside(blob, info) && ExtrasAccepted(blob, info, first)
    modifies mapping
    ensures mapping[..base] == old(mapping[..base]) && mapping[base + 4096..] == old(mapping[base + 4096..])
    ensures var w := Chains(old(mapping[base..base + 4096]), ExtraOffsets(blob, info, first), info, slide);
      (status == Completed <==> w.Done?) && (status == Threw <==> w.Rejected?) &&
      (w.Done? ==> mapping[base..base + 4096] == w.page)
    ensures info.deltaMask != WRAPPING_MASK ==> status != WentBackwards
  {
    hide Chain, FromBytes, And, MaskAccepted;
    var extraIndex := first;
    while true
      invariant ExtrasAccepted(blob, info, extraIndex)
      invariant mapping[..base] == old(mapping[..base]) && mapping[base + 4096..] == old(mapping[base + 4096..])
      invariant Chains(old(mapping[base..base + 4096]), ExtraOffsets(blob, info, first), info, slide) ==
        Chains(mapping[base..base + 4096], ExtraOffsets(blob, info, extraIndex), info, slide)
      decreases info.pageExtrasCount - extraIndex
    {
      var extra := Entry(blob, info.pageExtrasOffset, extraIndex);
      EntryBits(extra);
      ghost var page := mapping[base..base + 4096];
      ChainsStep(page, blob, info, extraIndex, slide);
      status := ApplyChain(mapping, base, And(extra, 0x3FFF) * 4, info, slide);
      if status != Completed {
        return;
      }
      extraIndex := extraIndex + 1;
      if And(extra, 0x8000) != 0 {
        break;
      }
    }
  }

  lemma ChainsStep(page: seq<byte>, blob: seq<byte>, info: SlideInfo2, index: nat, slide: u64)
    requires |page| == PAGE && MaskAccepted(info.deltaMask) && TablesInside(blob, info) &&
      ExtrasAccepted(blob, info, index)
    ensures var extra := Entry(blob, info.pageExtrasOffset, index);
      var first := Chain(page, ChainOffset(extra), info, slide);
      Chains(page, ExtraOffsets(blob, info, index), info, slide) ==
      if !first.Done? || extra >= 0x8000 then first
        else Chains(first.page, ExtraOffsets(blob, info, index + 1), info, slide)
  {
    hide Chain, Entry, MaskAccepted;
    var extra := Entry(blob, info.pageExtrasOffset, index);
    var offsets := ExtraOffsets(blob, info, index);
    if extra < 0x8000 {
      assert offsets[1..] == ExtraOffsets(blob, info, index + 1);
    } else {
      assert offsets[1..] == [];
    }
  }
}
