/** What slide info the parser accepts, as numbers in the blob. */
module SlideAcceptance {
  import opened Options
  import opened Words
  import opened ByteOrder
  import opened SlideInfo
  import opened SlidePages

  /** A little-endian half word at an offset. */
  function Half(blob: seq<byte>, at: nat): nat
    requires at + 2 <= |blob|
  {
    FromBytes(blob[at..at + 2])
  }

  /** An accepted mask is `n` ones followed by two or more zeros, and every such mask is accepted. */
  lemma MaskMeaning(mask: u64)
    ensures MaskAccepted(mask) <==> exists n: nat, zeros: nat :: IsField(mask, n, zeros)
  {
    hide And, Shl, Pow2;
    if MaskAccepted(mask) {
      MaskIsField(mask);
      assert mask != 0 by { Positive(mask); }
      var n, zeros := MaskWidth(mask), Zeros(mask);
      ShlIsProduct(Pow2(n) - 1, zeros, Pow2(zeros));
      assert IsField(mask, n, zeros);
    }
    if n: nat, zeros: nat :| IsField(mask, n, zeros) {
      FieldAccepted(mask, n, zeros);
    }
  }

  lemma Positive(mask: u64)
    requires MaskAccepted(mask)
    ensures mask > 0
  {
  }

  predicate IsField(mask: u64, n: nat, zeros: nat) {
    n >= 1 && zeros >= 2 && mask == (Pow2(n) - 1) * Pow2(zeros)
  }

  lemma FieldAccepted(mask: u64, n: nat, zeros: nat)
    requires IsField(mask, n, zeros)
    ensures MaskAccepted(mask)
  {
    hide And;
    PowerParity(n);
    ZerosOf(Pow2(n) - 1, zeros);
    OnesAndNext(n);
  }

  lemma PowerParity(n: nat)
    requires n >= 1
    ensures (Pow2(n) - 1) % 2 == 1
  {
  }

  lemma {:induction false} ZerosOf(x: nat, zeros: nat)
    requires x % 2 == 1
    ensures x * Pow2(zeros) > 0 && TrailingZeros(x * Pow2(zeros)) == zeros && Shr(x * Pow2(zeros), zeros) == x
  {
    if zeros > 0 {
      ZerosOf(x, zeros - 1);
      var y := x * Pow2(zeros - 1);
      assert x * Pow2(zeros) == 2 * y;
    } else {
      assert x * Pow2(0) == x;
    }
  }

  /** The extras from `index` on: one or more entries inside the table and inside the page, of which
      the last one alone is marked. */
  predicate ExtraList(blob: seq<byte>, table: nat, count: nat, index: nat, end: nat)
    requires table + 2 * count <= |blob|
  {
    index <= end < count && Half(blob, table + 2 * end) >= 0x8000 &&
    (forall k | index <= k < end :: Half(blob, table + 2 * k) < 0x8000) &&
    forall k | index <= k <= end :: ExtraInPage(blob, table, k)
  }

  /** Bit 14 is clear and the location is inside the page. */
  predicate ExtraInPage(blob: seq<byte>, table: nat, k: nat)
    requires table + 2 * k + 2 <= |blob|
  {
    Half(blob, table + 2 * k) % 0x8000 < 0x4000 && 4 * (Half(blob, table + 2 * k) % 0x4000) + 8 <= 4096
  }

  ghost predicate HasExtras(blob: seq<byte>, table: nat, count: nat, index: nat)
    requires table + 2 * count <= |blob|
  {
    exists end: nat :: ExtraList(blob, table, count, index, end)
  }

  lemma {:induction false} ExtrasMeaning(blob: seq<byte>, info: SlideInfo2, index: nat)
    requires TablesInside(blob, info)
    ensures ExtrasAccepted(blob, info, index) <==>
      HasExtras(blob, info.pageExtrasOffset, info.pageExtrasCount, index)
    decreases info.pageExtrasCount - index
  {
    hide Half, ExtraInPage;
    var table, count := info.pageExtrasOffset, info.pageExtrasCount;
    if index < count {
      EntryHalf(blob, table, index);
      ExtraOk(blob, table, index);
      if Half(blob, table + 2 * index) >= 0x8000 {
        assert ExtraInPage(blob, table, index) ==> ExtraList(blob, table, count, index, index);
      } else {
        var next := index + 1;
        ExtrasMeaning(blob, info, next);
        forall end: nat | ExtraList(blob, table, count, index, end)
          ensures ExtraList(blob, table, count, next, end) && ExtraInPage(blob, table, index)
        {
          assert end != index;
        }
        if ExtraInPage(blob, table, index) && ExtrasAccepted(blob, info, next) {
          var end: nat :| ExtraList(blob, table, count, next, end);
          assert ExtraList(blob, table, count, index, end);
        }
      }
    }
  }

  lemma EntryHalf(blob: seq<byte>, table: nat, index: nat)
    requires table + 2 * index + 2 <= |blob|
    ensures Entry(blob, table, index) == Half(blob, table + 2 * index)
  {
    hide FromBytes;
  }

  lemma ExtraOk(blob: seq<byte>, table: nat, index: nat)
    requires table + 2 * index + 2 <= |blob|
    ensures var extra := Entry(blob, table, index);
      Attributes(extra) % 2 == 0 && ChainOffset(extra) <= PAGE - 8 <==> ExtraInPage(blob, table, index)
  {
    hide Entry, Half;
    EntryHalf(blob, table, index);
  }

  /** A page start says that the page has no chain, where its only one starts, or which extras to
      look at. */
  ghost predicate StartAccepted(blob: seq<byte>, start: nat, extras: nat, count: nat)
    requires extras + 2 * count <= |blob|
  {
    (start < 0x4000 && 4 * start + 8 <= 4096) || 0x4000 <= start < 0x8000 ||
    (0x8000 <= start < 0xC000 && HasExtras(blob, extras, count, start - 0x8000))
  }

  lemma StartMeaning(blob: seq<byte>, info: SlideInfo2, page: nat)
    requires TablesInside(blob, info) && page < info.pageStartsCount
    ensures PageAccepted(blob, info, page) <==>
      StartAccepted(blob, Half(blob, info.pageStartsOffset + 2 * page), info.pageExtrasOffset, info.pageExtrasCount)
  {
    hide Entry, Half, HasExtras, ExtrasAccepted;
    EntryHalf(blob, info.pageStartsOffset, page);
    var start := Entry(blob, info.pageStartsOffset, page);
    if 0x8000 <= start < 0xC000 {
      assert start % 0x4000 == start - 0x8000;
      ExtrasMeaning(blob, info, start - 0x8000);
    }
  }

  /** The fields of the header, as numbers. */
  function Word32(blob: seq<byte>, at: nat): nat
    requires at + 4 <= |blob|
  {
    FromBytes(blob[at..at + 4])
  }

  ghost predicate TablesFit(blob: seq<byte>, mappingSize: nat)
    requires |blob| >= 40
  {
    Word32(blob, 0) == 2 && Word32(blob, 4) == 4096 && mappingSize == 4096 * Word32(blob, 12) &&
    Word32(blob, 8) + 2 * Word32(blob, 12) <= |blob| && Word32(blob, 16) + 2 * Word32(blob, 20) <= |blob| &&
    exists n: nat, zeros: nat :: IsField(U64At(blob, 24), n, zeros)
  }

  ghost predicate PageFits(blob: seq<byte>, page: nat)
    requires |blob| >= 40 && Word32(blob, 16) + 2 * Word32(blob, 20) <= |blob|
    requires Word32(blob, 8) + 2 * page + 2 <= |blob|
  {
    StartAccepted(blob, Half(blob, Word32(blob, 8) + 2 * page), Word32(blob, 16), Word32(blob, 20))
  }

  /** What `ParseSlideInfo2` accepts: version 2, pages of 4096 bytes that are the whole mapping, tables
      inside the blob, a mask that is one field, and page starts that lead to places in their page. */
  lemma AcceptedMeaning(blob: seq<byte>, mappingSize: nat)
    ensures Accepted(blob, mappingSize) <==>
      |blob| >= 40 && TablesFit(blob, mappingSize) && forall page: nat | page < Word32(blob, 12) :: PageFits(blob, page)
  {
    hide PageAccepted, StartAccepted, Half, MaskAccepted, IsField, FromBytes, U64At;
    if |blob| >= 40 {
      var info := Header(blob);
      MaskMeaning(info.deltaMask);
      WholePages(mappingSize, info.pageStartsCount);
      if TablesInside(blob, info) {
        forall page: nat | page < info.pageStartsCount
          ensures PageAccepted(blob, info, page) <==> PageFits(blob, page)
        {
          StartMeaning(blob, info, page);
        }
      }
    }
  }

  lemma WholePages(size: nat, count: nat)
    ensures size / 4096 == count && size % 4096 == 0 <==> size == 4096 * count
  {
  }
}
