/** From lists of pointers to an image with its slide info, and by rebasing to the pointers moved. */
module SlideRoundTrip {
  import opened Words
  import opened SlideInfo
  import opened SlidePages
  import opened SlideEncoding
  import opened SlideSplitting
  import opened SlideTables
  import opened LazyPages

  predicate AllEncodable(lists: seq<seq<Location>>, mask: u64) {
    forall p | 0 <= p < |lists| :: Encodable(lists[p], mask)
  }

  function ChainStarts(lists: seq<seq<Location>>, mask: u64): (pages: seq<seq<u64>>)
    requires MaskAccepted(mask) && AllEncodable(lists, mask)
    ensures |pages| == |lists| && AllStarts(pages)
  {
    seq(|lists|, p requires 0 <= p < |lists| => PageStarts(lists[p], mask))
  }

  /** The slide info of the image. */
  function Blob(lists: seq<seq<Location>>, mask: u64, valueAdd: u64): (blob: seq<byte>)
    requires MaskAccepted(mask) && AllEncodable(lists, mask) && TablesFit(ChainStarts(lists, mask))
    ensures |blob| >= 40
  {
    SlideBlob(ChainStarts(lists, mask), mask, valueAdd)
  }

  /** The image: every page with its pointers packed. */
  function Image(original: seq<byte>, lists: seq<seq<Location>>, mask: u64): (image: seq<byte>)
    requires MaskAccepted(mask) && AllEncodable(lists, mask) && |original| == PAGE * |lists|
    ensures |image| == |original|
  {
    seq(|original|, i requires 0 <= i < |original| => ImageByte(original, lists, mask, i))
  }

  function ImageByte(original: seq<byte>, lists: seq<seq<Location>>, mask: u64, i: nat): byte
    requires MaskAccepted(mask) && AllEncodable(lists, mask) && |original| == PAGE * |lists| && i < |original|
  {
    EncodedPage(PageOf(original, i / PAGE), lists[i / PAGE], mask)[i % PAGE]
  }

  lemma PageByte(bytes: seq<byte>, p: nat, b: nat)
    requires PAGE * p + PAGE <= |bytes| && b < PAGE
    ensures (PAGE * p + b) / PAGE == p && (PAGE * p + b) % PAGE == b
    ensures PageOf(bytes, p)[b] == bytes[PAGE * p + b]
  {
  }

  lemma ImagePage(original: seq<byte>, lists: seq<seq<Location>>, mask: u64, p: nat)
    requires MaskAccepted(mask) && AllEncodable(lists, mask) && |original| == PAGE * |lists| && p < |lists|
    ensures Encodable(lists[p], mask)
    ensures PageOf(Image(original, lists, mask), p) == EncodedPage(PageOf(original, p), lists[p], mask)
  {
    hide MaskAccepted, Encodable, PageOf, EncodedPage;
    var image := Image(original, lists, mask);
    forall b | 0 <= b < PAGE
      ensures PageOf(image, p)[b] == EncodedPage(PageOf(original, p), lists[p], mask)[b]
    {
      PageByte(image, p, b);
    }
  }

  lemma BlobOfImage(lists: seq<seq<Location>>, mask: u64, valueAdd: u64)
    requires MaskAccepted(mask) && AllEncodable(lists, mask) && TablesFit(ChainStarts(lists, mask))
    ensures Accepted(Blob(lists, mask, valueAdd), PAGE * |lists|)
    ensures Header(Blob(lists, mask, valueAdd)) == TablesInfo(ChainStarts(lists, mask), mask, valueAdd)
    ensures forall p | 0 <= p < |lists| ::
      ChainOffsets(Blob(lists, mask, valueAdd), Header(Blob(lists, mask, valueAdd)), p) == ChainStarts(lists, mask)[p]
  {
    hide SlideBlob, MaskAccepted, AllEncodable, TablesFit, ChainOffsets, PageAccepted, Header;
    var pages := ChainStarts(lists, mask);
    hide ChainStarts;
    HeaderRoundTrip(pages, mask, valueAdd);
    BlobAccepted(pages, mask, valueAdd);
    forall p | 0 <= p < |lists|
      ensures ChainOffsets(SlideBlob(pages, mask, valueAdd), TablesInfo(pages, mask, valueAdd), p) == pages[p]
    {
      TablesRoundTrip(pages, mask, valueAdd, p);
    }
  }

  /** What the loader does with any image made from lists of pointers: it accepts the slide info, and
      rebasing a page moves exactly the page's pointers, or is refused because one of them overflows. */
  lemma EncodeThenApply(original: seq<byte>, lists: seq<seq<Location>>, mask: u64, valueAdd: u64, slide: u64, p: nat)
    requires MaskAccepted(mask) && AllEncodable(lists, mask) && TablesFit(ChainStarts(lists, mask))
    requires |original| == PAGE * |lists| && p < |lists|
    ensures var blob, image := Blob(lists, mask, valueAdd), Image(original, lists, mask);
      Accepted(blob, |image|) && Header(blob) == TablesInfo(ChainStarts(lists, mask), mask, valueAdd) &&
      WalkOf(image, blob, slide, p) ==
        if Movable(lists[p], valueAdd, slide) then
          Done(RebasedPointers(PageOf(original, p), lists[p], Header(blob), slide))
        else Rejected
  {
    hide Blob, Image, MaskAccepted, Encodable, TablesFit, ChainOffsets, PageAccepted, Header, Accepted, Chains,
      EncodedPage, PageStarts, RebasedPointers, Movable, PageOf;
    BlobOfImage(lists, mask, valueAdd);
    ImagePage(original, lists, mask, p);
    EncodedPageApplies(PageOf(original, p), lists[p], Header(Blob(lists, mask, valueAdd)), slide);
  }

  /** The rebased mapping: each target plus value and slide in its place, null where it was null, and
      every other byte as in the original. */
  lemma RebasedImage(original: seq<byte>, lists: seq<seq<Location>>, mask: u64, valueAdd: u64, slide: u64, p: nat)
    requires MaskAccepted(mask) && AllEncodable(lists, mask) && TablesFit(ChainStarts(lists, mask))
    requires |original| == PAGE * |lists| && p < |lists| && Movable(lists[p], valueAdd, slide)
    ensures Accepted(Blob(lists, mask, valueAdd), |Image(original, lists, mask)|)
    ensures var r := PageOf(Eager(Image(original, lists, mask), Blob(lists, mask, valueAdd), slide), p);
      var locations := lists[p];
      (forall i | 0 <= i < |locations| :: locations[i].offset + 8 <= PAGE &&
        U64At(r, locations[i].offset) ==
          if locations[i].target == 0 then 0 else locations[i].target + valueAdd + slide) &&
      (forall b | 0 <= b < PAGE && OutsideAll(locations, b) :: r[b] == original[PAGE * p + b])
  {
    hide Blob, Image, MaskAccepted, TablesFit, Header, Accepted, EncodedPage, WalkOf, PageOf, RebasedPointers,
      OutsideAll, Movable, U64At;
    var blob, image := Blob(lists, mask, valueAdd), Image(original, lists, mask);
    EncodeThenApply(original, lists, mask, valueAdd, slide, p);
    var info := Header(blob);
    var r := RebasedPointers(PageOf(original, p), lists[p], info, slide);
    assert WalkOf(image, blob, slide, p) == Done(r);
    EagerPage(image, blob, slide, p);
    PointersInPlace(PageOf(original, p), lists[p], info, slide);
    forall b | 0 <= b < PAGE
      ensures PageOf(original, p)[b] == original[PAGE * p + b]
    {
      PageByte(original, p, b);
    }
  }

  /** A page whose walk ends is that page of the eager mapping. */
  lemma EagerPage(image: seq<byte>, blob: seq<byte>, slide: u64, p: nat)
    requires Accepted(blob, |image|) && p < Header(blob).pageStartsCount && PAGE * p + PAGE <= |image|
    requires WalkOf(image, blob, slide, p).Done? && |WalkOf(image, blob, slide, p).page| == PAGE
    ensures PageOf(Eager(image, blob, slide), p) == WalkOf(image, blob, slide, p).page
  {
    hide Accepted, Header, WalkOf, PageOf;
    var r := Eager(image, blob, slide);
    forall b | 0 <= b < PAGE
      ensures PageOf(r, p)[b] == WalkOf(image, blob, slide, p).page[b]
    {
      PageByte(r, p, b);
    }
  }
}
