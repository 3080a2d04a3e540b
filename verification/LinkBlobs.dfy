/** Writing the blob of an image with any number of segments and pages, and linking its pages. */
module LinkBlobs {
  import opened Options
  import opened Words
  import opened ByteOrder
  import opened LinkFixups
  import opened LinkEncoding

  /** A segment's distance from the image, and the pointers of each of its pages. */
  datatype Linkable = Linkable(offset: u64, pages: seq<seq<Fixup>>)

  /** An image to be linked. Format 6 counts targets from the image, any other from the slide. */
  datatype Image = Image(format: u16, slide: u64, address: u64, binds: seq<u64>, segments: seq<Linkable>)

  // ----- the blob

  /** Where a page's first pointer is, or all ones. */
  function StartOf(fixups: seq<Fixup>): nat {
    if fixups == [] then 0xFFFF else fixups[0].offset
  }

  function StartsOf(pages: seq<seq<Fixup>>): (starts: seq<nat>)
    ensures |starts| == |pages| && forall p | 0 <= p < |pages| :: starts[p] == StartOf(pages[p])
  {
    seq(|pages|, p requires 0 <= p < |pages| => StartOf(pages[p]))
  }

  /** Size, page size, format, offset, a limit for targets, and the number of pages. */
  function RecordFields(s: Linkable): seq<Field> {
    [Field(22 + 2 * |s.pages|, 4), Field(4096, 2), Field(0, 2), Field(s.offset, 8), Field(0, 4), Field(|s.pages|, 2)]
  }

  function RecordOf(s: Linkable): seq<byte> {
    FieldBytes(RecordFields(s)) + Table(StartsOf(s.pages), 2)
  }

  function Records(segments: seq<Linkable>): seq<byte> {
    if segments == [] then [] else RecordOf(segments[0]) + Records(segments[1..])
  }

  /** Where the records are, from `at` on. */
  function Places(segments: seq<Linkable>, at: nat): (places: seq<nat>)
    ensures |places| == |segments|
  {
    if segments == [] then [] else [at] + Places(segments[1..], at + |RecordOf(segments[0])|)
  }

  function Chains(segments: seq<Linkable>): seq<byte> {
    ToBytes(|segments|, 4) + (Table(Places(segments, 4 + 4 * |segments|), 4) + Records(segments))
  }

  /** Version, page size, format, where and how many binds, where the chains are and their size,
      slide, address. */
  function HeadFields(image: Image): seq<Field> {
    [Field(7, 4), Field(4096, 2), Field(image.format, 2), Field(40, 4), Field(|image.binds|, 4),
     Field(40 + 8 * |image.binds|, 4), Field(|Chains(image.segments)|, 4), Field(image.slide, 8),
     Field(image.address, 8)]
  }

  function BlobOf(image: Image): seq<byte> {
    FieldBytes(HeadFields(image)) + (Table(image.binds, 8) + Chains(image.segments))
  }

  /** The limits of the format: 32-bit sizes, 16-bit page counts, and addresses that do not wrap. */
  predicate Fits(image: Image) {
    |BlobOf(image)| < U32_LIMIT && forall k | 0 <= k < |image.segments| :: SegmentFits(image, image.segments[k])
  }

  predicate SegmentFits(image: Image, s: Linkable) {
    1 <= |s.pages| <= 0xFFFF && image.address + s.offset + 4096 * |s.pages| < U64_LIMIT &&
    forall p | 0 <= p < |s.pages| :: Chained(s.pages[p], |image.binds|)
  }

  // ----- the header reads back

  lemma HeadReads(image: Image, rest: seq<byte>)
    requires 40 + 8 * |image.binds| + |Chains(image.segments)| < U32_LIMIT
    ensures |FieldBytes(HeadFields(image))| == 40
    ensures var blob := FieldBytes(HeadFields(image)) + rest;
      Read(blob, 6, 2) == Some(image.format) && Read(blob, 8, 4) == Some(40) &&
      Read(blob, 12, 4) == Some(|image.binds|) && Read(blob, 16, 4) == Some(40 + 8 * |image.binds|) &&
      Read(blob, 24, 8) == Some(image.slide) && Read(blob, 32, 8) == Some(image.address)
  {
    hide Read, Pow2, FieldBytes, Chains;
    WordPowers();
    var fields := HeadFields(image);
    assert Before(fields, 1) == 4;
    assert Before(fields, 2) == 6;
    assert Before(fields, 3) == 8;
    assert Before(fields, 4) == 12;
    assert Before(fields, 5) == 16;
    assert Before(fields, 6) == 20;
    assert Before(fields, 7) == 24;
    assert Before(fields, 8) == 32;
    assert Before(fields, 9) == 40;
    FieldSizes(fields);
    FieldRead(fields, rest, 2);
    FieldRead(fields, rest, 3);
    FieldRead(fields, rest, 4);
    FieldRead(fields, rest, 5);
    FieldRead(fields, rest, 7);
    FieldRead(fields, rest, 8);
  }

  lemma RecordReads(s: Linkable, rest: seq<byte>)
    requires |s.pages| <= 0xFFFF
    ensures |RecordOf(s)| == 22 + 2 * |s.pages|
    ensures var blob := RecordOf(s) + rest;
      Read(blob, 0, 4) == Some(22 + 2 * |s.pages|) && Read(blob, 8, 8) == Some(s.offset) &&
      Read(blob, 20, 2) == Some(|s.pages|)
    ensures forall p | 0 <= p < |s.pages| && StartOf(s.pages[p]) <= 0xFFFF ::
      Read(RecordOf(s) + rest, 22 + 2 * p, 2) == Some(StartOf(s.pages[p]))
  {
    hide Read, Pow2, FieldBytes, Table, StartsOf;
    WordPowers();
    var fields := RecordFields(s);
    var table := Table(StartsOf(s.pages), 2);
    assert Before(fields, 1) == 4;
    assert Before(fields, 2) == 6;
    assert Before(fields, 3) == 8;
    assert Before(fields, 4) == 16;
    assert Before(fields, 5) == 20;
    assert Before(fields, 6) == 22;
    FieldSizes(fields);
    assert RecordOf(s) + rest == FieldBytes(fields) + (table + rest);
    FieldRead(fields, table + rest, 0);
    FieldRead(fields, table + rest, 3);
    FieldRead(fields, table + rest, 5);
    forall p | 0 <= p < |s.pages| && StartOf(s.pages[p]) <= 0xFFFF
      ensures Read(RecordOf(s) + rest, 22 + 2 * p, 2) == Some(StartOf(s.pages[p]))
    {
      Skip(FieldBytes(fields), table + rest, 2 * p, 2);
      TableRead(StartsOf(s.pages), 2, rest, p);
    }
  }

  // ----- the segments read back

  function RecordsBefore(segments: seq<Linkable>, k: nat): nat
    requires k <= |segments|
  {
    |Records(segments[..k])|
  }

  /** Reading in the record of segment `k`. */
  lemma {:induction false} RecordAt(segments: seq<Linkable>, k: nat, offset: nat, n: nat)
    requires k < |segments|
    ensures Read(Records(segments), RecordsBefore(segments, k) + offset, n) ==
      Read(RecordOf(segments[k]) + Records(segments[k + 1..]), offset, n)
    decreases k
  {
    hide Read, RecordOf;
    if k == 0 {
      assert segments[..0] == [];
    } else {
      var others := segments[1..];
      RecordAt(others, k - 1, offset, n);
      assert segments[..k][1..] == others[..k - 1] && others[k..] == segments[k + 1..];
      Skip(RecordOf(segments[0]), Records(others), RecordsBefore(others, k - 1) + offset, n);
    }
  }

  lemma {:induction false} PlaceAt(segments: seq<Linkable>, at: nat, k: nat)
    requires k < |segments|
    ensures Places(segments, at)[k] == at + RecordsBefore(segments, k)
    decreases k
  {
    hide RecordOf;
    if k == 0 {
      assert segments[..0] == [];
    } else {
      PlaceAt(segments[1..], at + |RecordOf(segments[0])|, k - 1);
      assert segments[..k][1..] == segments[1..][..k - 1];
    }
  }

  /** The record of a segment ends inside the records. */
  lemma {:induction false} RecordInside(segments: seq<Linkable>, k: nat)
    requires k < |segments|
    ensures RecordsBefore(segments, k) + |RecordOf(segments[k])| <= |Records(segments)|
    decreases k
  {
    hide RecordOf;
    if k == 0 {
      assert segments[..0] == [];
    } else {
      RecordInside(segments[1..], k - 1);
      assert segments[..k][1..] == segments[1..][..k - 1];
    }
  }

  function ChainsOffset(image: Image): nat { 40 + 8 * |image.binds| }

  /** The blob from the chains on. */
  lemma ReadsChains(image: Image, offset: nat, n: nat)
    requires |BlobOf(image)| < U32_LIMIT
    ensures Read(BlobOf(image), ChainsOffset(image) + offset, n) == Read(Chains(image.segments), offset, n)
  {
    BlobSize(image);
    hide Read, Chains, FieldBytes;
    var head, table := FieldBytes(HeadFields(image)), Table(image.binds, 8);
    Skip(head, table + Chains(image.segments), 8 * |image.binds| + offset, n);
    Skip(table, Chains(image.segments), offset, n);
  }

  lemma BlobSize(image: Image)
    requires |BlobOf(image)| < U32_LIMIT
    ensures |FieldBytes(HeadFields(image))| == 40
    ensures |BlobOf(image)| == 40 + 8 * |image.binds| + |Chains(image.segments)|
    ensures |Chains(image.segments)| == 4 + 4 * |image.segments| + |Records(image.segments)|
  {
    hide FieldBytes;
    var fields := HeadFields(image);
    assert Before(fields, 1) == 4;
    assert Before(fields, 2) == 6;
    assert Before(fields, 3) == 8;
    assert Before(fields, 4) == 12;
    assert Before(fields, 5) == 16;
    assert Before(fields, 6) == 20;
    assert Before(fields, 7) == 24;
    assert Before(fields, 8) == 32;
    assert Before(fields, 9) == 40;
    FieldSizes(fields);
  }

  /** The table of segments gives each record's place. */
  lemma ReadsPlaces(segments: seq<Linkable>, k: nat)
    requires k < |segments| && |Chains(segments)| < U32_LIMIT
    ensures Read(Chains(segments), 0, 4) == Some(|segments|)
    ensures Read(Chains(segments), 4 + 4 * k, 4) == Some(4 + 4 * |segments| + RecordsBefore(segments, k))
  {
    hide Read, Pow2, ToBytes, RecordOf;
    WordPowers();
    var at := 4 + 4 * |segments|;
    var table := Table(Places(segments, at), 4);
    First(|segments|, 4, table + Records(segments));
    Skip(ToBytes(|segments|, 4), table + Records(segments), 4 * k, 4);
    PlaceAt(segments, at, k);
    RecordInside(segments, k);
    TableRead(Places(segments, at), 4, Records(segments), k);
  }

  /** Reading in a segment's record through the whole blob. */
  lemma ReadsRecord(segments: seq<Linkable>, k: nat, offset: nat, n: nat)
    requires k < |segments|
    ensures Read(Chains(segments), 4 + 4 * |segments| + RecordsBefore(segments, k) + offset, n) ==
      Read(RecordOf(segments[k]) + Records(segments[k + 1..]), offset, n)
  {
    hide Read, ToBytes, RecordOf, Records, RecordsBefore;
    var table := Table(Places(segments, 4 + 4 * |segments|), 4);
    var inner := RecordsBefore(segments, k) + offset;
    Skip(ToBytes(|segments|, 4), table + Records(segments), 4 * |segments| + inner, n);
    Skip(table, Records(segments), inner, n);
    RecordAt(segments, k, offset, n);
  }

  // ----- what the linker finds

  function LinkingOf(image: Image): Linking
    requires Fits(image)
  {
    BlobSize(image);
    Linking(image.format == 6, 40, |image.binds|, ChainsOffset(image), image.slide, image.address)
  }

  lemma HeaderFrom(blob: seq<byte>, l: Linking, format: u16)
    requires Read(blob, 6, 2) == Some(format) && Read(blob, 8, 4) == Some(l.bindsOffset)
    requires Read(blob, 12, 4) == Some(l.bindsCount) && Read(blob, 16, 4) == Some(l.chainsOffset)
    requires Read(blob, 24, 8) == Some(l.slide) && Read(blob, 32, 8) == Some(l.imageAddress)
    requires l.offsetBased == (format == 6)
    ensures Header(blob) == Some(l)
  {
    hide Read;
  }

  lemma HeaderOf(image: Image)
    requires Fits(image)
    ensures Header(BlobOf(image)) == Some(LinkingOf(image))
    ensures Read(BlobOf(image), ChainsOffset(image), 4) == Some(|image.segments|)
  {
    hide Read, Chains, FieldBytes, Header, SegmentFits;
    BlobSize(image);
    HeadReads(image, Table(image.binds, 8) + Chains(image.segments));
    ReadsChains(image, 0, 4);
    CountReads(image.segments);
    HeaderFrom(BlobOf(image), LinkingOf(image), image.format);
  }

  lemma BindsOf(image: Image)
    requires Fits(image)
    ensures HoldsBinds(BlobOf(image), LinkingOf(image), image.binds)
  {
    BlobSize(image);
    hide Read, Chains, FieldBytes, Fits, Pow2;
    WordPowers();
    var tables := Table(image.binds, 8) + Chains(image.segments);
    forall k | 0 <= k < |image.binds|
      ensures Read(BlobOf(image), 40 + k * 8, 8) == Some(image.binds[k])
    {
      Skip(FieldBytes(HeadFields(image)), tables, 8 * k, 8);
      TableRead(image.binds, 8, Chains(image.segments), k);
    }
  }

  lemma CountReads(segments: seq<Linkable>)
    requires |segments| < U32_LIMIT
    ensures |segments| == 0 || |Chains(segments)| >= 4 ==> Read(Chains(segments), 0, 4) == Some(|segments|)
  {
    hide Read, Pow2, ToBytes;
    WordPowers();
    First(|segments|, 4, Table(Places(segments, 4 + 4 * |segments|), 4) + Records(segments));
  }

  lemma SegmentFacts(image: Image, k: nat)
    requires Fits(image) && k < |image.segments|
    ensures |BlobOf(image)| < U32_LIMIT && SegmentFits(image, image.segments[k])
    ensures 1 <= |image.segments[k].pages| <= 0xFFFF
    ensures image.address + image.segments[k].offset + 4096 * |image.segments[k].pages| < U64_LIMIT
  {
    hide BlobOf, Chained;
  }

  lemma PageFacts(image: Image, k: nat, p: nat)
    requires Fits(image) && k < |image.segments| && p < |image.segments[k].pages|
    ensures Chained(image.segments[k].pages[p], |image.binds|)
    ensures AllFieldsFit(image.segments[k].pages[p], |image.binds|)
    ensures StartOf(image.segments[k].pages[p]) <= 0xFFFF
    ensures image.segments[k].pages[p] != [] ==> StartOf(image.segments[k].pages[p]) + 8 <= 4096
  {
    assert SegmentFits(image, image.segments[k]);
    hide BlobOf, Fits, FieldsFit;
  }

  function SegmentOf(image: Image, k: nat): Segment
    requires Fits(image) && k < |image.segments|
  {
    var s := image.segments[k];
    assert SegmentFits(image, s);
    Segment(ChainsOffset(image) + 4 + 4 * |image.segments| + RecordsBefore(image.segments, k), image.address + s.offset,
      image.address + s.offset + 4096 * |s.pages|)
  }

  /** Each segment is found where it was written, with the pages it has. */
  lemma SegmentReads(image: Image, k: nat)
    requires Fits(image) && k < |image.segments|
    ensures SegmentAt(BlobOf(image), LinkingOf(image), k) == Some(SegmentOf(image, k))
  {
    hide Read, Chains, FieldBytes, SegmentFits, BlobOf, RecordOf, Records, Table, RecordsBefore, Fits, SegmentAt;
    var segments, s := image.segments, image.segments[k];
    SegmentFacts(image, k);
    BlobSize(image);
    RecordInside(segments, k);
    RecordReads(s, Records(segments[k + 1..]));
    ReadsPlaces(segments, k);
    var place := 4 + 4 * |segments| + RecordsBefore(segments, k);
    RecordField(image, k, 0, 4);
    RecordField(image, k, 8, 8);
    RecordField(image, k, 20, 2);
    ReadsChains(image, 4 + 4 * k, 4);
    SegmentFrom(BlobOf(image), LinkingOf(image), k, place, s.offset, |s.pages|);
  }

  lemma RecordField(image: Image, k: nat, offset: nat, n: nat)
    requires |BlobOf(image)| < U32_LIMIT && k < |image.segments|
    ensures Read(BlobOf(image),
        ChainsOffset(image) + (4 + 4 * |image.segments| + RecordsBefore(image.segments, k)) + offset, n) ==
      Read(RecordOf(image.segments[k]) + Records(image.segments[k + 1..]), offset, n)
  {
    hide Read, Chains, BlobOf, RecordOf, Records, RecordsBefore;
    ReadsRecord(image.segments, k, offset, n);
    ReadsChains(image, 4 + 4 * |image.segments| + RecordsBefore(image.segments, k) + offset, n);
  }

  lemma SegmentFrom(blob: seq<byte>, l: Linking, k: nat, place: nat, offset: u64, count: nat)
    requires l.chainsOffset + 4 + 4 * k < U32_LIMIT && Read(blob, l.chainsOffset + (4 + 4 * k), 4) == Some(place)
    requires l.chainsOffset + place + 22 + 2 * count <= |blob| && 1 <= count
    requires Read(blob, l.chainsOffset + place + 0, 4) == Some(22 + 2 * count)
    requires Read(blob, l.chainsOffset + place + 8, 8) == Some(offset)
    requires Read(blob, l.chainsOffset + place + 20, 2) == Some(count)
    requires l.imageAddress + offset + 4096 * count < U64_LIMIT
    ensures SegmentAt(blob, l, k) ==
      Some(Segment(l.chainsOffset + place, l.imageAddress + offset, l.imageAddress + offset + 4096 * count))
  {
    hide Read;
    assert l.chainsOffset + 4 + k * 4 == l.chainsOffset + (4 + 4 * k);
    assert l.chainsOffset + place + 0 == l.chainsOffset + place;
  }

  /** And each page's first pointer. */
  lemma StartReads(image: Image, k: nat, p: nat)
    requires Fits(image) && k < |image.segments| && p < |image.segments[k].pages|
    ensures Read(BlobOf(image), SegmentOf(image, k).offset + 22 + p * 2, 2) == Some(StartOf(image.segments[k].pages[p]))
  {
    hide Read, Chains, FieldBytes, SegmentFits, BlobOf, RecordOf, Records, Table, RecordsBefore, Fits;
    var segments, s := image.segments, image.segments[k];
    SegmentFacts(image, k);
    PageFacts(image, k, p);
    RecordReads(s, Records(segments[k + 1..]));
    RecordField(image, k, 22 + 2 * p, 2);
  }

  predicate HasPage(image: Image, k: nat, page: nat)
    requires k < |image.segments|
  {
    var s := image.segments[k];
    image.address + s.offset <= page < image.address + s.offset + 4096 * |s.pages|
  }

  function PageAt(image: Image, k: nat, p: nat): u64
    requires Fits(image) && k < |image.segments| && p < |image.segments[k].pages|
    ensures PageAt(image, k, p) + 4096 < U64_LIMIT
  {
    assert SegmentFits(image, image.segments[k]);
    image.address + image.segments[k].offset + 4096 * p
  }

  lemma SkipsSegment(memory: map<u64, byte>, blob: seq<byte>, l: Linking, page: u64, index: nat, count: nat, s: Segment)
    requires index < count && SegmentAt(blob, l, index) == Some(s) && !Covers(s, page)
    ensures FromSegment(memory, blob, l, page, index, count) == FromSegment(memory, blob, l, page, index + 1, count)
  {
    hide SegmentAt, Walk, Read, Covers;
  }

  lemma StopsAtSegment(memory: map<u64, byte>, blob: seq<byte>, l: Linking, page: u64, index: nat, count: nat,
                       s: Segment, start: nat)
    requires index < count && SegmentAt(blob, l, index) == Some(s) && Covers(s, page) && start <= 0xFFFF
    requires Read(blob, s.offset + 22 + (page - s.start) / 4096 * 2, 2) == Some(start)
    ensures Near(page, Add64(page, start))
    ensures FromSegment(memory, blob, l, page, index, count) ==
      if start == 0xFFFF then Result(Applied, memory) else Walk(memory, blob, l, page, Add64(page, start))
  {
    hide SegmentAt, Walk, Read;
  }

  lemma FixupsFrom(memory: map<u64, byte>, blob: seq<byte>, page: u64, l: Linking, count: nat)
    requires Header(blob) == Some(l) && Read(blob, l.chainsOffset, 4) == Some(count)
    ensures Fixups(memory, blob, page) == FromSegment(memory, blob, l, page, 0, count)
  {
    hide Header, Read, FromSegment;
  }

  /** The search stops at the first segment that has the page. */
  lemma {:induction false} FindsSegment(memory: map<u64, byte>, image: Image, page: u64, index: nat, k: nat)
    requires Fits(image) && index <= k < |image.segments| && forall j | 0 <= j < k :: !HasPage(image, j, page)
    ensures FromSegment(memory, BlobOf(image), LinkingOf(image), page, index, |image.segments|) ==
      FromSegment(memory, BlobOf(image), LinkingOf(image), page, k, |image.segments|)
    decreases k - index
  {
    hide Fits, BlobOf, LinkingOf, SegmentAt, FromSegment, RecordsBefore, SegmentFits;
    if index < k {
      SegmentReads(image, index);
      assert !HasPage(image, index, page);
      SkipsSegment(memory, BlobOf(image), LinkingOf(image), page, index, |image.segments|, SegmentOf(image, index));
      FindsSegment(memory, image, page, index + 1, k);
    }
  }

  /** What linking a page comes to. */
  lemma LinksPage(memory: map<u64, byte>, image: Image, k: nat, p: nat)
    requires Fits(image) && k < |image.segments| && p < |image.segments[k].pages|
    requires forall j | 0 <= j < k :: !HasPage(image, j, PageAt(image, k, p))
    ensures var page, start := PageAt(image, k, p), StartOf(image.segments[k].pages[p]);
      start <= 0xFFFF && Near(page, Add64(page, start)) &&
      Fixups(memory, BlobOf(image), page) ==
      if start == 0xFFFF then Result(Applied, memory)
      else Walk(memory, BlobOf(image), LinkingOf(image), page, Add64(page, start))
  {
    hide SegmentFits, Chained, Fits, BlobOf, SegmentAt, Walk, Read, RecordsBefore, FromSegment, Fixups, Header, Near,
      Add64, HasPage, StartOf, AllFieldsFit;
    var page, l := PageAt(image, k, p), LinkingOf(image);
    SegmentFacts(image, k);
    PageFacts(image, k, p);
    HeaderOf(image);
    SegmentReads(image, k);
    StartReads(image, k, p);
    var s := SegmentOf(image, k);
    assert page - s.start == 4096 * p;
    FixupsFrom(memory, BlobOf(image), page, l, |image.segments|);
    FindsSegment(memory, image, page, 0, k);
    StopsAtSegment(memory, BlobOf(image), l, page, k, |image.segments|, s, StartOf(image.segments[k].pages[p]));
  }

  /** The round trip: packing the pointers of a page and linking the page by the blob of the image
      leaves at each of them the bind's target plus its addend, or the target plus slide (or image
      address) plus the upper byte, and changes no other byte. */
  lemma EncodeThenLink(memory: map<u64, byte>, image: Image, k: nat, p: nat)
    requires Fits(image) && k < |image.segments| && p < |image.segments[k].pages|
    requires forall j | 0 <= j < k :: !HasPage(image, j, PageAt(image, k, p))
    requires AllMapped(memory, PackedSlots(image.segments[k].pages[p], PageAt(image, k, p)))
    ensures var page, fixups := PageAt(image, k, p), image.segments[k].pages[p];
      AllFieldsFit(fixups, |image.binds|) &&
      var r := Fixups(PutAll(memory, PackedSlots(fixups, page)), BlobOf(image), page);
      r.outcome == Applied &&
      IsLinked(memory, r.memory, page, fixups, image.format == 6, image.slide, image.address, image.binds)
  {
    hide SegmentFits, Fits, BlobOf, Walk, Chained, AllMapped, PutAll, PackedSlots, IsLinked, HoldsBinds, AllFieldsFit,
      Near, Fixups, HasPage;
    var page, fixups := PageAt(image, k, p), image.segments[k].pages[p];
    PageFacts(image, k, p);
    LinksPage(PutAll(memory, PackedSlots(fixups, page)), image, k, p);
    if fixups == [] {
      NothingPacked(memory, page, image);
    } else {
      BindsOf(image);
      WalkLinksPacked(memory, BlobOf(image), LinkingOf(image), image.binds, page, fixups);
    }
  }

  lemma NothingPacked(memory: map<u64, byte>, page: u64, image: Image)
    requires page + 4096 < U64_LIMIT
    ensures AllMapped(memory, PackedSlots([], page)) && PutAll(memory, PackedSlots([], page)) == memory
    ensures AllFieldsFit([], |image.binds|)
    ensures IsLinked(memory, memory, page, [], image.format == 6, image.slide, image.address, image.binds)
  {
  }
}
