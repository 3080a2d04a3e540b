/** Writing the slide info of a whole mapping, and getting exactly the rebased mapping back. */
module SlideTables {
  import opened Words
  import opened ByteOrder
  import opened SlideInfo
  import opened SlidePages
  import opened SlideEncoding
  import opened SlideSplitting
  import opened LazyPages

  // ----- the words of the tables

  predicate StartsOfPage(starts: seq<u64>) {
    forall i | 0 <= i < |starts| :: StartOk(starts[i])
  }

  /** The chain starts of a page with several chains, in units of four bytes, the last one marked. */
  function ExtraWords(starts: seq<u64>): (words: seq<u16>)
    requires StartsOfPage(starts)
    ensures |words| == |starts|
  {
    if starts == [] then []
    else [starts[0] / 4 + if |starts| == 1 then 0x8000 else 0] + ExtraWords(starts[1..])
  }

  /** Only a page with several chains has extras. */
  function PageExtras(starts: seq<u64>): seq<u16>
    requires StartsOfPage(starts)
  {
    if |starts| <= 1 then [] else ExtraWords(starts)
  }

  /** A page's start: no rebase, its only chain, or where its extras begin. */
  function StartWord(starts: seq<u64>, index: nat): u16
    requires StartsOfPage(starts) && (|starts| > 1 ==> index < 0x4000)
  {
    if starts == [] then 0x4000 else if |starts| == 1 then starts[0] / 4 else 0x8000 + index
  }

  predicate AllStarts(pages: seq<seq<u64>>) {
    forall p | 0 <= p < |pages| :: StartsOfPage(pages[p])
  }

  function ExtraTable(pages: seq<seq<u64>>): seq<u16>
    requires AllStarts(pages)
  {
    if pages == [] then [] else PageExtras(pages[0]) + ExtraTable(pages[1..])
  }

  /** How many extras the pages before `p` have. */
  function ExtraIndex(pages: seq<seq<u64>>, p: nat): nat
    requires AllStarts(pages) && p <= |pages|
  {
    |ExtraTable(pages[..p])|
  }

  /** The limits of the format: 14 bits for the index of a page's first extra, 32 for sizes. */
  predicate TablesFit(pages: seq<seq<u64>>)
    requires AllStarts(pages)
  {
    40 + 2 * |pages| < U32_LIMIT && |ExtraTable(pages)| < U32_LIMIT &&
    forall p | 0 <= p < |pages| && |pages[p]| > 1 :: ExtraIndex(pages, p) < 0x4000
  }

  function StartTable(pages: seq<seq<u64>>): (words: seq<u16>)
    requires AllStarts(pages) && TablesFit(pages)
    ensures |words| == |pages|
  {
    seq(|pages|, p requires 0 <= p < |pages| => StartWord(pages[p], ExtraIndex(pages, p)))
  }

  // ----- the bytes of the tables

  function WordsToBytes(words: seq<u16>): (bytes: seq<byte>)
    ensures |bytes| == 2 * |words|
  {
    if words == [] then [] else ToBytes(words[0], 2) + WordsToBytes(words[1..])
  }

  lemma {:induction false} WordAt(words: seq<u16>, k: nat)
    requires k < |words|
    ensures WordsToBytes(words)[2 * k..2 * k + 2] == ToBytes(words[k], 2)
  {
    hide ToBytes;
    if k > 0 {
      WordAt(words[1..], k - 1);
      SliceOfSlice(WordsToBytes(words), 2, 2 * |words| - 2, 2 * k - 2, 2);
    }
  }

  lemma MiddleSlice(before: seq<byte>, middle: seq<byte>, after: seq<byte>, a: nat, n: nat)
    requires a + n <= |middle|
    ensures (before + middle + after)[|before| + a..|before| + a + n] == middle[a..a + n]
  {
  }

  lemma EntryIs(blob: seq<byte>, table: nat, index: nat, word: u16)
    requires table + 2 * index + 2 <= |blob| && blob[table + 2 * index..table + 2 * index + 2] == ToBytes(word, 2)
    ensures Entry(blob, table, index) == word
  {
    hide ToBytes, FromBytes;
    WordPowers();
    BytesRoundTrip(word, 2);
  }

  lemma TableEntry(before: seq<byte>, words: seq<u16>, after: seq<byte>, k: nat)
    requires k < |words|
    ensures Entry(before + WordsToBytes(words) + after, |before|, k) == words[k]
  {
    hide ToBytes, Entry, WordsToBytes;
    WordAt(words, k);
    MiddleSlice(before, WordsToBytes(words), after, 2 * k, 2);
    EntryIs(before + WordsToBytes(words) + after, |before|, k, words[k]);
  }

  function TablesInfo(pages: seq<seq<u64>>, mask: u64, valueAdd: u64): SlideInfo2
    requires AllStarts(pages)
  {
    SlideInfo2(PAGE, 40, |pages|, 40 + 2 * |pages|, |ExtraTable(pages)|, mask, valueAdd)
  }

  function HeaderWords(pages: seq<seq<u64>>): seq<u32>
    requires AllStarts(pages) && TablesFit(pages)
  {
    [2, PAGE, 40, |pages|, 40 + 2 * |pages|, |ExtraTable(pages)|]
  }

  function HeaderBytes(pages: seq<seq<u64>>, mask: u64, valueAdd: u64): (bytes: seq<byte>)
    requires AllStarts(pages) && TablesFit(pages)
    ensures |bytes| == 40
  {
    LittleEndian(HeaderWords(pages)) + ToBytes(mask, 8) + ToBytes(valueAdd, 8)
  }

  /** The slide info: header, starts, extras. */
  function SlideBlob(pages: seq<seq<u64>>, mask: u64, valueAdd: u64): (bytes: seq<byte>)
    requires AllStarts(pages) && TablesFit(pages)
    ensures |bytes| == 40 + 2 * |pages| + 2 * |ExtraTable(pages)|
  {
    HeaderBytes(pages, mask, valueAdd) + WordsToBytes(StartTable(pages)) + WordsToBytes(ExtraTable(pages))
  }

  // ----- the header reads back

  lemma Prefix(front: seq<byte>, back: seq<byte>, i: nat, j: nat)
    requires i <= j <= |front|
    ensures (front + back)[i..j] == front[i..j]
  {
  }

  lemma HeaderWordAt(pages: seq<seq<u64>>, mask: u64, valueAdd: u64, back: seq<byte>, i: nat)
    requires AllStarts(pages) && TablesFit(pages) && i < 6
    ensures FromBytes((HeaderBytes(pages, mask, valueAdd) + back)[4 * i..4 * i + 4]) == HeaderWords(pages)[i]
  {
    hide LittleEndian, ToBytes, FromBytes, AllStarts, TablesFit, ExtraTable;
    var words := LittleEndian(HeaderWords(pages));
    Prefix(HeaderBytes(pages, mask, valueAdd), back, 4 * i, 4 * i + 4);
    Prefix(words + ToBytes(mask, 8), ToBytes(valueAdd, 8), 4 * i, 4 * i + 4);
    Prefix(words, ToBytes(mask, 8), 4 * i, 4 * i + 4);
    WordBytes(HeaderWords(pages), i);
  }

  lemma HeaderLongs(words: seq<byte>, mask: u64, valueAdd: u64, back: seq<byte>)
    requires |words| == 24
    ensures var bytes := words + ToBytes(mask, 8) + ToBytes(valueAdd, 8) + back;
      U64At(bytes, 24) == mask && U64At(bytes, 32) == valueAdd
  {
    hide ToBytes, FromBytes;
    var m, v := ToBytes(mask, 8), ToBytes(valueAdd, 8);
    var bytes := words + m + v + back;
    assert bytes[24..32] == m && bytes[32..40] == v;
    WordPowers();
    BytesRoundTrip(mask, 8);
    BytesRoundTrip(valueAdd, 8);
  }

  lemma HeaderRoundTrip(pages: seq<seq<u64>>, mask: u64, valueAdd: u64)
    requires AllStarts(pages) && TablesFit(pages)
    ensures Header(SlideBlob(pages, mask, valueAdd)) == TablesInfo(pages, mask, valueAdd)
    ensures FromBytes(SlideBlob(pages, mask, valueAdd)[0..4]) == 2
  {
    var starts, extras := WordsToBytes(StartTable(pages)), WordsToBytes(ExtraTable(pages));
    var back := starts + extras;
    var head := HeaderBytes(pages, mask, valueAdd);
    assert SlideBlob(pages, mask, valueAdd) == head + back;
    hide ToBytes, FromBytes, U64At, LittleEndian, AllStarts, TablesFit, ExtraTable, StartTable, WordsToBytes, SlideBlob;
    HeaderLongs(LittleEndian(HeaderWords(pages)), mask, valueAdd, back);
    HeaderWordAt(pages, mask, valueAdd, back, 0);
    HeaderWordAt(pages, mask, valueAdd, back, 1);
    HeaderWordAt(pages, mask, valueAdd, back, 2);
    HeaderWordAt(pages, mask, valueAdd, back, 3);
    HeaderWordAt(pages, mask, valueAdd, back, 4);
    HeaderWordAt(pages, mask, valueAdd, back, 5);
  }

  // ----- the chains read back

  /** A list of extras is accepted and gives the chain starts it was made from. */
  lemma {:induction false} ExtrasRoundTrip(blob: seq<byte>, info: SlideInfo2, index: nat, starts: seq<u64>)
    requires TablesInside(blob, info) && starts != [] && StartsOfPage(starts) &&
      index + |starts| <= info.pageExtrasCount
    requires forall k | 0 <= k < |starts| :: Entry(blob, info.pageExtrasOffset, index + k) == ExtraWords(starts)[k]
    ensures ExtrasAccepted(blob, info, index) && ExtraOffsets(blob, info, index) == starts
    decreases |starts|
  {
    hide Entry;
    var extra := Entry(blob, info.pageExtrasOffset, index + 0);
    assert extra == ExtraWords(starts)[0];
    assert StartOk(starts[0]);
    assert ChainOffset(extra) == starts[0];
    if |starts| > 1 {
      var tail := starts[1..];
      forall k | 0 <= k < |tail|
        ensures Entry(blob, info.pageExtrasOffset, index + 1 + k) == ExtraWords(tail)[k]
      {
        var next := k + 1;
        assert Entry(blob, info.pageExtrasOffset, index + next) == ExtraWords(starts)[next];
      }
      ExtrasRoundTrip(blob, info, index + 1, tail);
    }
  }

  lemma {:induction false} ExtrasOfPage(pages: seq<seq<u64>>, p: nat, k: nat)
    requires AllStarts(pages) && p < |pages| && k < |PageExtras(pages[p])|
    ensures ExtraIndex(pages, p) + |PageExtras(pages[p])| <= |ExtraTable(pages)|
    ensures ExtraTable(pages)[ExtraIndex(pages, p) + k] == PageExtras(pages[p])[k]
    decreases p
  {
    hide PageExtras;
    if p > 0 {
      var others := pages[1..];
      ExtrasOfPage(others, p - 1, k);
      assert pages[..p][1..] == others[..p - 1];
      assert others[p - 1] == pages[p];
    }
  }

  lemma BlobStart(pages: seq<seq<u64>>, mask: u64, valueAdd: u64, p: nat)
    requires AllStarts(pages) && TablesFit(pages) && p < |pages|
    ensures Entry(SlideBlob(pages, mask, valueAdd), 40, p) == StartWord(pages[p], ExtraIndex(pages, p))
  {
    hide Entry, WordsToBytes, ExtraTable, HeaderBytes;
    TableEntry(HeaderBytes(pages, mask, valueAdd), StartTable(pages), WordsToBytes(ExtraTable(pages)), p);
  }

  lemma BlobExtra(pages: seq<seq<u64>>, mask: u64, valueAdd: u64, k: nat)
    requires AllStarts(pages) && TablesFit(pages) && k < |ExtraTable(pages)|
    ensures Entry(SlideBlob(pages, mask, valueAdd), 40 + 2 * |pages|, k) == ExtraTable(pages)[k]
  {
    hide Entry, WordsToBytes, ExtraTable, HeaderBytes, StartTable;
    var before := HeaderBytes(pages, mask, valueAdd) + WordsToBytes(StartTable(pages));
    TableEntry(before, ExtraTable(pages), [], k);
    assert before + WordsToBytes(ExtraTable(pages)) + [] == SlideBlob(pages, mask, valueAdd);
  }

  lemma BlobInside(pages: seq<seq<u64>>, mask: u64, valueAdd: u64)
    requires AllStarts(pages) && TablesFit(pages)
    ensures TablesInside(SlideBlob(pages, mask, valueAdd), TablesInfo(pages, mask, valueAdd))
  {
  }

  lemma BlobExtras(pages: seq<seq<u64>>, mask: u64, valueAdd: u64, p: nat)
    requires AllStarts(pages) && TablesFit(pages) && p < |pages| && |pages[p]| > 1
    ensures var blob, info := SlideBlob(pages, mask, valueAdd), TablesInfo(pages, mask, valueAdd);
      TablesInside(blob, info) && ExtrasAccepted(blob, info, ExtraIndex(pages, p)) &&
      ExtraOffsets(blob, info, ExtraIndex(pages, p)) == pages[p]
  {
    hide Entry, SlideBlob, ExtraTable, ExtraIndex, TablesFit, ExtraWords, TablesInside, ExtrasAccepted, ExtraOffsets,
      StartsOfPage;
    var blob, info, index := SlideBlob(pages, mask, valueAdd), TablesInfo(pages, mask, valueAdd), ExtraIndex(pages, p);
    var starts := pages[p];
    BlobInside(pages, mask, valueAdd);
    ExtrasOfPage(pages, p, 0);
    forall k | 0 <= k < |starts|
      ensures Entry(blob, info.pageExtrasOffset, index + k) == ExtraWords(starts)[k]
    {
      ExtrasOfPage(pages, p, k);
      BlobExtra(pages, mask, valueAdd, index + k);
    }
    ExtrasRoundTrip(blob, info, index, starts);
  }

  /** The loader accepts every page of the tables and finds the chains they were made from. */
  lemma TablesRoundTrip(pages: seq<seq<u64>>, mask: u64, valueAdd: u64, p: nat)
    requires AllStarts(pages) && TablesFit(pages) && p < |pages|
    ensures var blob, info := SlideBlob(pages, mask, valueAdd), TablesInfo(pages, mask, valueAdd);
      TablesInside(blob, info) && PageAccepted(blob, info, p) && ChainOffsets(blob, info, p) == pages[p]
  {
    hide Entry, SlideBlob, ExtraTable, ExtraIndex, ExtrasAccepted, ExtraOffsets, TablesInside, StartsOfPage;
    BlobInside(pages, mask, valueAdd);
    BlobStart(pages, mask, valueAdd, p);
    var starts, index := pages[p], ExtraIndex(pages, p);
    hide AllStarts, TablesFit;
    if |starts| > 1 {
      BlobExtras(pages, mask, valueAdd, p);
    } else if |starts| == 1 {
      OnlyStart(starts);
    }
  }

  lemma OnlyStart(starts: seq<u64>)
    requires StartsOfPage(starts) && |starts| == 1
    ensures StartOk(starts[0])
  {
  }

  lemma BlobAccepted(pages: seq<seq<u64>>, mask: u64, valueAdd: u64)
    requires AllStarts(pages) && TablesFit(pages) && MaskAccepted(mask)
    ensures Accepted(SlideBlob(pages, mask, valueAdd), PAGE * |pages|)
  {
    hide SlideBlob, AllStarts, TablesFit, MaskAccepted, PageAccepted, Header;
    HeaderRoundTrip(pages, mask, valueAdd);
    BlobInside(pages, mask, valueAdd);
    forall p | 0 <= p < |pages|
      ensures PageAccepted(SlideBlob(pages, mask, valueAdd), TablesInfo(pages, mask, valueAdd), p)
    {
      TablesRoundTrip(pages, mask, valueAdd, p);
    }
  }
}
