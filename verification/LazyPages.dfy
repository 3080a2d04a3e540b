/** Rebasing pages when they are first touched gives what rebasing all of them gives. */
module LazyPages {
  import opened Words
  import opened SlideInfo
  import opened SlidePages

  /** How the walk over page `p` of the untouched mapping ends. */
  function WalkOf(original: seq<byte>, blob: seq<byte>, slide: u64, p: nat): Walk
    requires Accepted(blob, |original|) && p < Header(blob).pageStartsCount
  {
    PageInside(|original|, Header(blob).pageStartsCount, p);
    assert PageAccepted(blob, Header(blob), p);
    Chains(PageOf(original, p), ChainOffsets(blob, Header(blob), p), Header(blob), slide)
  }

  /** The byte that rebasing the whole mapping leaves at `i`. */
  function EagerByte(original: seq<byte>, blob: seq<byte>, slide: u64, i: nat): byte
    requires Accepted(blob, |original|) && i < |original|
  {
    var w := WalkOf(original, blob, slide, i / 4096);
    if w.Done? then w.page[i % 4096] else original[i]
  }

  function Eager(original: seq<byte>, blob: seq<byte>, slide: u64): seq<byte>
    requires Accepted(blob, |original|)
  {
    seq(|original|, i requires 0 <= i < |original| => EagerByte(original, blob, slide, i))
  }

  class LazyFilePageTransform {
    const data: array<byte>
    const blob: seq<byte>
    const slide: u64
    ghost const original: seq<byte>
    var transformedPages: seq<bool>

    ghost predicate Valid()
      reads this, data
    {
      |original| == data.Length && Accepted(blob, data.Length) && |transformedPages| == Header(blob).pageStartsCount &&
      forall p | 0 <= p < |transformedPages| :: PageValid(p)
    }

    ghost predicate PageValid(p: nat)
      requires |original| == data.Length && Accepted(blob, data.Length) &&
        p < |transformedPages| == Header(blob).pageStartsCount
      reads this, data
    {
      PageInside(data.Length, Header(blob).pageStartsCount, p);
      var w := WalkOf(original, blob, slide, p);
      if transformedPages[p] then w.Done? && PageOf(data[..], p) == w.page
        else PageOf(data[..], p) == PageOf(original, p)
    }

    constructor (data: array<byte>, blob: seq<byte>, slide: u64)
      requires Accepted(blob, data.Length)
      ensures Valid() && this.data == data && this.blob == blob && this.slide == slide && original == data[..]
      ensures forall p | 0 <= p < |transformedPages| :: !transformedPages[p]
    {
      this.data, this.blob, this.slide, this.original := data, blob, slide, data[..];
      transformedPages := seq(Header(blob).pageStartsCount, _ => false);
    }

    /** Before a range is read or written, its pages are rebased, those that were not yet. */
    method Materialize(firstByte: nat, size: nat) returns (ok: bool)
      requires Valid()
      modifies this`transformedPages, data
      ensures ok ==> Valid() && firstByte + size <= data.Length
      ensures ok ==> data[firstByte..firstByte + size] == Eager(original, blob, slide)[firstByte..firstByte + size]
      ensures !ok && firstByte + size <= data.Length ==>
        exists p | firstByte / 4096 <= p < Header(blob).pageStartsCount && 4096 * p < firstByte + size ::
          !WalkOf(original, blob, slide, p).Done?
      ensures |transformedPages| == |old(transformedPages)|
      ensures forall p | 0 <= p < |transformedPages| && old(transformedPages)[p] :: transformedPages[p]
    {
      if firstByte > data.Length || size > data.Length - firstByte {
        return false;
      }
      if size == 0 {
        return true;
      }
      var firstPage, lastPage := firstByte / 4096, (firstByte + size - 1) / 4096;
      for page := firstPage to lastPage + 1
        invariant Valid() && |transformedPages| == |old(transformedPages)|
        invariant forall p | 0 <= p < |transformedPages| && old(transformedPages)[p] :: transformedPages[p]
        invariant forall p | firstPage <= p < page :: transformedPages[p]
      {
        if !transformedPages[page] {
          var completed := Transform(page);
          if !completed {
            return false;
          }
        }
      }
      RangeIsEager(firstByte, size);
      ok := true;
    }

    method Transform(page: nat) returns (completed: bool)
      requires Valid() && page < |transformedPages| && !transformedPages[page]
      modifies this`transformedPages, data
      ensures completed == WalkOf(original, blob, slide, page).Done?
      ensures |transformedPages| == |old(transformedPages)|
      ensures completed ==> Valid() && transformedPages == old(transformedPages)[page := true]
      ensures !completed ==> transformedPages == old(transformedPages)
    {
      hide Accepted, WalkOf;
      ghost var before := data[..];
      PageInBounds(page);
      assert PageValid(page);
      var status := RebasePage(page);
      if status != Completed {
        return false;
      }
      transformedPages := transformedPages[page := true];
      forall p | 0 <= p < |transformedPages|
        ensures PageValid(p)
      {
        if p != page {
          PageInBounds(p);
          assert old(PageValid(p));
          OtherPage(before, data[..], page, p);
        }
      }
      completed := true;
    }

    lemma PageInBounds(p: nat)
      requires Accepted(blob, data.Length) && p < Header(blob).pageStartsCount
      ensures 4096 * p + 4096 <= data.Length && MaskAccepted(Header(blob).deltaMask)
    {
      PageInside(data.Length, Header(blob).pageStartsCount, p);
    }

    method RebasePage(page: nat) returns (status: Status)
      requires |original| == data.Length && Accepted(blob, data.Length) && page < Header(blob).pageStartsCount
      requires 4096 * page + 4096 <= data.Length && PageOf(data[..], page) == PageOf(original, page)
      modifies data
      ensures data[..4096 * page] == old(data[..4096 * page])
      ensures data[4096 * page + 4096..] == old(data[4096 * page + 4096..])
      ensures var w := WalkOf(original, blob, slide, page);
        (status == Completed <==> w.Done?) && (w.Done? ==> PageOf(data[..], page) == w.page)
    {
      hide Chains, ChainOffsets, PageAccepted;
      assert data[..][4096 * page..4096 * page + 4096] == data[4096 * page..4096 * page + 4096];
      status := ApplySlideInfo2Page(data, blob, Header(blob), slide, page);
      assert data[..][4096 * page..4096 * page + 4096] == data[4096 * page..4096 * page + 4096];
    }

    lemma RangeIsEager(firstByte: nat, size: nat)
      requires Valid() && size > 0 && firstByte + size <= data.Length
      requires forall p | firstByte / 4096 <= p <= (firstByte + size - 1) / 4096 && p < |transformedPages| ::
        transformedPages[p]
      ensures data[firstByte..firstByte + size] == Eager(original, blob, slide)[firstByte..firstByte + size]
    {
      forall i | firstByte <= i < firstByte + size
        ensures data[i] == Eager(original, blob, slide)[i]
      {
        ByteIsEager(i);
      }
    }

    lemma ByteIsEager(i: nat)
      requires Valid() && i < data.Length
      requires i / 4096 < |transformedPages| ==> transformedPages[i / 4096]
      ensures data[i] == Eager(original, blob, slide)[i]
    {
      hide Accepted, WalkOf;
      InPage(i);
      assert PageValid(i / 4096);
      assert data[i] == PageOf(data[..], i / 4096)[i % 4096];
    }

    lemma InPage(i: nat)
      requires Accepted(blob, data.Length) && i < data.Length
      ensures i / 4096 < Header(blob).pageStartsCount &&
        4096 * (i / 4096) <= i < 4096 * (i / 4096) + 4096 <= data.Length
    {
    }

    /** Once every page has been touched, in whatever order, the mapping is the eager one. */
    lemma AllTouchedIsEager()
      requires Valid() && forall p | 0 <= p < |transformedPages| :: transformedPages[p]
      ensures data[..] == Eager(original, blob, slide)
    {
      forall i | 0 <= i < data.Length
        ensures data[i] == Eager(original, blob, slide)[i]
      {
        ByteIsEager(i);
      }
    }
  }

  /** Rebasing one page does not show in another. */
  lemma OtherPage(before: seq<byte>, after: seq<byte>, page: nat, p: nat)
    requires |before| == |after| && p != page && 4096 * p + 4096 <= |before| && 4096 * page + 4096 <= |before|
    requires after[..4096 * page] == before[..4096 * page] &&
      after[4096 * page + 4096..] == before[4096 * page + 4096..]
    ensures PageOf(after, p) == PageOf(before, p)
  {
    if p < page {
      assert PageOf(after, p) == after[..4096 * page][4096 * p..4096 * p + 4096];
      assert PageOf(before, p) == before[..4096 * page][4096 * p..4096 * p + 4096];
    } else {
      var base := 4096 * page + 4096;
      assert PageOf(after, p) == after[base..][4096 * p - base..4096 * p - base + 4096];
      assert PageOf(before, p) == before[base..][4096 * p - base..4096 * p - base + 4096];
    }
  }
}
