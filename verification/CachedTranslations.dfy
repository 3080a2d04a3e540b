/** What comes out of the cache file of another process is what this one would have translated. */
module CachedTranslations {
  import opened Options
  import opened Words
  import opened Assembler
  import opened Relocation
  import opened PersistentCodec
  import opened BlockCache

  /** The translator of a process depends on the anchor, the address of the process's own code. */
  datatype Translators = Translators(at: u64 -> Translator)

  /** Two processes translate alike, but for the pointers to their own code. */
  ghost predicate MovesWithAnchor(t: Translators) {
    forall a: u64, b: u64, code: seq<byte>, start: u64, maximum: nat :: SameButMoved(t, a, b, code, start, maximum)
  }

  ghost predicate SameButMoved(t: Translators, a: u64, b: u64, code: seq<byte>, start: u64, maximum: nat) {
    var x, y := t.at(a).translate(code, start, maximum), t.at(b).translate(code, start, maximum);
    (x.Some? <==> y.Some?) &&
    (x.Some? ==>
      y.value == x.value.(program := y.value.program) &&
      y.value.program.pointerRelocations == x.value.program.pointerRelocations &&
      RelocateAll(x.value.program.bytes, x.value.program.pointerRelocations, Sub64(b, a)) ==
        Some(y.value.program.bytes))
  }

  function TranslationOfRecord(r: Record): Translation {
    Translation(r.source, r.program, r.hasInternalSelfEdge, r.callReturnAddress, r.lastInstructionAddress)
  }

  function PersistentOf(r: Record): PersistentBlock {
    PersistentBlock(r.maximumInstructions, TranslationOfRecord(r))
  }

  function PersistentBlocks(records: map<u64, Record>): map<u64, PersistentBlock> {
    map a | a in records :: PersistentOf(records[a])
  }

  /** The record that is written for a live block. */
  function RecordOf(block: TranslatedBlock): Record
    requires block.maximumInstructions < U64_LIMIT
  {
    Record(block.start, block.maximumInstructions, block.translation.source, block.translation.program,
      block.translation.hasInternalSelfEdge, block.translation.callReturnAddress,
        block.translation.lastInstructionAddress)
  }

  ghost predicate RecordFaithful(t: Translator, r: Record) {
    Faithful(t, r.address, r.maximumInstructions, TranslationOfRecord(r))
  }

  ghost predicate RecordsFaithful(t: Translator, records: seq<Record>) {
    forall i | 0 <= i < |records| :: RecordFaithful(t, records[i])
  }

  /** The live blocks of a cache are translations of their own source bytes. */
  lemma LiveIsFaithful(t: Translator, text: Text, blocks: map<u64, TranslatedBlock>, lookup: map<u64, LookupEntry>,
                       maxima: map<u64, nat>, a: u64)
    requires IndicesValid(t, text, blocks, lookup, maxima) && a in blocks && blocks[a].maximumInstructions < U64_LIMIT
    ensures RecordFaithful(t, RecordOf(blocks[a])) && RecordOf(blocks[a]).address == a
  {
    assert EntryValid(t, text, a, blocks[a], lookup[a], maxima[a]);
  }

  /** So are the records that are saved: the live ones, and the loaded ones that nobody used. */
  lemma SavedAreFaithful(t: Translator, live: seq<Record>, persistent: seq<Record>)
    requires DistinctAddresses(live) && DistinctAddresses(persistent)
    requires RecordsFaithful(t, live) && RecordsFaithful(t, persistent)
    ensures RecordsFaithful(t, SavedRecords(live, persistent))
  {
    hide RecordFaithful, SavedRecords, DistinctAddresses;
    SavedExactlyOnce(live, persistent);
    var saved := SavedRecords(live, persistent);
    forall i | 0 <= i < |saved|
      ensures RecordFaithful(t, saved[i])
    {
      assert saved[i] in saved;
      if saved[i] in live {
        var j :| 0 <= j < |live| && live[j] == saved[i];
      } else {
        var j :| 0 <= j < |persistent| && persistent[j] == saved[i];
      }
    }
  }

  /** Moving a record to another anchor gives what the translator there would give. */
  lemma MovedIsFaithful(t: Translators, a: u64, b: u64, r: Record)
    requires MovesWithAnchor(t) && RecordFaithful(t.at(a), r)
    ensures RecordFaithful(t.at(b), Moved(r, Sub64(b, a)))
  {
    hide RelocateAll, Sub64;
    assert SameButMoved(t, a, b, r.source, r.address, r.maximumInstructions);
  }

  /** Whatever a process loads from a file that another one has saved are translations, at its
      own anchor, of the source bytes that stand with them. */
  lemma LoadedAreTranslations(t: Translators, written: u64, fingerprint: u64, a: u64, b: u64, records: seq<Record>)
    requires MovesWithAnchor(t) && AllEncodable(records) && RecordsFaithful(t.at(a), records)
    requires |EncodeFile(written, a, records)| <= MAXIMUM_FILE_SIZE
    ensures PersistentsValid(t.at(b),
      PersistentBlocks(BlocksOf(LoadFile(EncodeFile(written, a, records), fingerprint, b))))
  {
    hide LoadFile, EncodeFile, MovesWithAnchor, RecordFaithful, ByAddress, Moved, AllLoadable, Sub64, AllEncodable;
    if written != fingerprint {
      OtherBuildIsStale(written, fingerprint, a, b, records);
    } else {
      SaveThenLoad(written, a, b, records);
      if Restorable(records, Sub64(b, a)) {
        ByAddressAt(records, Sub64(b, a), map[]);
        var blocks := ByAddress(records, Sub64(b, a), map[]);
        forall address | address in blocks
          ensures PersistentValid(t.at(b), address, PersistentOf(blocks[address]))
        {
          var i :| 0 <= i < |records| && records[i].address == address;
          MovedIsFaithful(t, a, b, records[i]);
          MovedKeepsAddress(t.at(b), records[i], Sub64(b, a));
        }
      }
    }
  }

  lemma MovedKeepsAddress(t: Translator, r: Record, slide: u64)
    requires RecordFaithful(t, Moved(r, slide))
    ensures PersistentValid(t, r.address, PersistentOf(Moved(r, slide)))
  {
    hide RelocateAll;
  }

  /** What a process that opens the file holds before it has translated anything. */
  function Loaded(file: seq<byte>, fingerprint: u64, anchor: u64): map<u64, PersistentBlock> {
    if |file| <= MAXIMUM_FILE_SIZE then PersistentBlocks(BlocksOf(LoadFile(file, fingerprint, anchor))) else map[]
  }

  /** A new process starts with a valid cache on the file of an old one. */
  method Reopen(t: Translators, file: seq<byte>, fingerprint: u64, a: u64, b: u64, ghost written: u64,
                ghost records: seq<Record>, ghost text: Text)
    returns (cache: BlockCache)
    requires MovesWithAnchor(t) && DependsOnPrefix(t.at(b)) && AllEncodable(records) &&
      RecordsFaithful(t.at(a), records)
    requires file == EncodeFile(written, a, records)
    ensures fresh(cache) && cache.Valid() && cache.translator == t.at(b) && cache.text == text && cache.blocks == map[]
    ensures cache.persists && cache.persistent == Loaded(file, fingerprint, b)
  {
    hide LoadFile, EncodeFile, MovesWithAnchor, RecordsFaithful, DependsOnPrefix;
    var blocks: map<u64, Record> := map[];
    if |file| <= MAXIMUM_FILE_SIZE {
      LoadedAreTranslations(t, written, fingerprint, a, b, records);
      blocks := LoadPersistent(file, fingerprint, b);
    }
    cache := new BlockCache(t.at(b), PersistentBlocks(blocks), true, text);
  }

  // ----- writing a cache back

  ghost predicate Sizes(blocks: map<u64, TranslatedBlock>, persistent: map<u64, PersistentBlock>) {
    (forall a | a in blocks :: blocks[a].maximumInstructions < U64_LIMIT) &&
    forall a | a in persistent :: persistent[a].maximumInstructions < U64_LIMIT
  }

  function RecordAt(a: u64, p: PersistentBlock): Record
    requires p.maximumInstructions < U64_LIMIT
  {
    var t := p.translation;
    Record(a, p.maximumInstructions, t.source, t.program, t.hasInternalSelfEdge, t.callReturnAddress,
      t.lastInstructionAddress)
  }

  ghost predicate ListsBlocks(records: seq<Record>, blocks: map<u64, TranslatedBlock>, keys: set<u64>)
    requires Sizes(blocks, map[]) && keys <= blocks.Keys
  {
    DistinctAddresses(records) && Addresses(records) == keys &&
    forall r | r in records :: r.address in blocks && r == RecordOf(blocks[r.address])
  }

  ghost predicate ListsLoaded(records: seq<Record>, persistent: map<u64, PersistentBlock>, keys: set<u64>)
    requires Sizes(map[], persistent) && keys <= persistent.Keys
  {
    DistinctAddresses(records) && Addresses(records) == keys &&
    forall r | r in records :: r.address in persistent && r == RecordAt(r.address, persistent[r.address])
  }

  lemma OneMoreRecord(records: seq<Record>, r: Record)
    requires DistinctAddresses(records) && r.address !in Addresses(records)
    ensures DistinctAddresses(records + [r]) && Addresses(records + [r]) == Addresses(records) + {r.address}
  {
    forall i | 0 <= i < |records|
      ensures records[i].address != r.address
    {
      assert records[i] in records;
    }
    assert r in records + [r];
    forall x | x in records
      ensures x in records + [r]
    {
    }
  }

  predicate IsLeast(a: u64, keys: set<u64>) {
    a in keys && forall b | b in keys :: a <= b
  }

  lemma {:induction false} LeastExists(keys: set<u64>) returns (a: u64)
    requires keys != {}
    ensures IsLeast(a, keys)
    decreases |keys|
  {
    var k :| k in keys;
    var others := keys - {k};
    assert forall b | b in keys :: b == k || b in others;
    a := k;
    if others != {} {
      var b := LeastExists(others);
      a := if b < k then b else k;
    }
  }

  /** Ascending, and below all addresses that are still to come. */
  ghost predicate Ascending(records: seq<Record>, rest: set<u64>) {
    (forall i, j | 0 <= i < j < |records| :: records[i].address < records[j].address) &&
    forall i, a | 0 <= i < |records| && a in rest :: records[i].address < a
  }

  lemma NextRecord(records: seq<Record>, blocks: map<u64, TranslatedBlock>, rest: set<u64>, a: u64)
    requires Sizes(blocks, map[]) && rest <= blocks.Keys && IsLeast(a, rest) && blocks[a].start == a
    requires ListsBlocks(records, blocks, blocks.Keys - rest) && Ascending(records, rest)
    ensures var more := records + [RecordOf(blocks[a])];
      ListsBlocks(more, blocks, blocks.Keys - (rest - {a})) && Ascending(more, rest - {a})
  {
    hide DistinctAddresses, Addresses;
    OneMoreRecord(records, RecordOf(blocks[a]));
    assert blocks.Keys - (rest - {a}) == blocks.Keys - rest + {a};
  }

  lemma NoRecords(blocks: map<u64, TranslatedBlock>)
    requires Sizes(blocks, map[])
    ensures ListsBlocks([], blocks, blocks.Keys - blocks.Keys) && Ascending([], blocks.Keys)
  {
  }

  /** The records of the live blocks, from the lowest address. */
  method LiveRecords(blocks: map<u64, TranslatedBlock>) returns (records: seq<Record>)
    requires Sizes(blocks, map[]) && forall a | a in blocks :: blocks[a].start == a
    ensures ListsBlocks(records, blocks, blocks.Keys) && Ascending(records, {})
  {
    hide ListsBlocks, Ascending;
    records := [];
    var rest := blocks.Keys;
    NoRecords(blocks);
    while rest != {}
      invariant rest <= blocks.Keys && ListsBlocks(records, blocks, blocks.Keys - rest) && Ascending(records, rest)
      decreases |rest|
    {
      ghost var least := LeastExists(rest);
      var a :| a in rest && IsLeast(a, rest);
      NextRecord(records, blocks, rest, a);
      records := records + [RecordOf(blocks[a])];
      rest := rest - {a};
    }
    assert blocks.Keys - rest == blocks.Keys;
  }

  /** The records that were loaded and not used, in any order. */
  method LoadedRecords(persistent: map<u64, PersistentBlock>) returns (records: seq<Record>)
    requires Sizes(map[], persistent)
    ensures ListsLoaded(records, persistent, persistent.Keys)
  {
    records := [];
    var rest := persistent.Keys;
    while rest != {}
      invariant rest <= persistent.Keys && ListsLoaded(records, persistent, persistent.Keys - rest)
      decreases |rest|
    {
      var a :| a in rest;
      OneMoreRecord(records, RecordAt(a, persistent[a]));
      records := records + [RecordAt(a, persistent[a])];
      rest := rest - {a};
    }
  }

  /** What the file of a cache holds: the live blocks, and the loaded records nobody used. */
  ghost predicate HoldsCache(records: seq<Record>, blocks: map<u64, TranslatedBlock>,
                             persistent: map<u64, PersistentBlock>)
    requires Sizes(blocks, persistent)
  {
    DistinctAddresses(records) && Addresses(records) == blocks.Keys + persistent.Keys &&
    forall r | r in records ::
      if r.address in blocks then r == RecordOf(blocks[r.address])
      else r.address in persistent && r == RecordAt(r.address, persistent[r.address])
  }

  lemma SavedHoldsCache(live: seq<Record>, loaded: seq<Record>, blocks: map<u64, TranslatedBlock>,
                        persistent: map<u64, PersistentBlock>)
    requires Sizes(blocks, persistent)
    requires ListsBlocks(live, blocks, blocks.Keys) && ListsLoaded(loaded, persistent, persistent.Keys)
    ensures HoldsCache(SavedRecords(live, loaded), blocks, persistent)
  {
    hide DistinctAddresses, SavedRecords;
    SavedExactlyOnce(live, loaded);
    assert forall r | r in SavedRecords(live, loaded) && r !in live :: r.address !in Addresses(live);
  }

  /** All of them are translations. */
  lemma HeldAreFaithful(t: Translator, text: Text, blocks: map<u64, TranslatedBlock>, lookup: map<u64, LookupEntry>,
                        maxima: map<u64, nat>, persistent: map<u64, PersistentBlock>, records: seq<Record>)
    requires Sizes(blocks, persistent) && IndicesValid(t, text, blocks, lookup, maxima)
    requires PersistentsValid(t, persistent) && HoldsCache(records, blocks, persistent)
    ensures RecordsFaithful(t, records)
  {
    hide IndicesValid, DistinctAddresses, Faithful;
    forall i | 0 <= i < |records|
      ensures RecordFaithful(t, records[i])
    {
      var r := records[i];
      assert r in records;
      if r.address in blocks {
        LiveIsFaithful(t, text, blocks, lookup, maxima, r.address);
      } else {
        assert PersistentValid(t, r.address, persistent[r.address]);
        assert TranslationOfRecord(r) == persistent[r.address].translation;
      }
    }
  }

  /** Writing a cache back: nothing if there is no file or nothing new, or if a record is too large. */
  method SaveCache(cache: BlockCache, fingerprint: u64, anchor: u64)
    returns (file: Option<seq<byte>>, ghost records: seq<Record>)
    requires cache.Valid() && Sizes(cache.blocks, cache.persistent)
    ensures HoldsCache(records, cache.blocks, cache.persistent) && RecordsFaithful(cache.translator, records)
    ensures file == if cache.persists && cache.persistentDirty && AllEncodable(records)
      then Some(EncodeFile(fingerprint, anchor, records)) else None
  {
    hide DistinctAddresses, SavedRecords, EncodeFile, AllEncodable, HoldsCache, ListsBlocks, ListsLoaded, EntryValid;
    BlocksStart(cache);
    var live := LiveRecords(cache.blocks);
    var loaded := LoadedRecords(cache.persistent);
    SavedHoldsCache(live, loaded, cache.blocks, cache.persistent);
    records := SavedRecords(live, loaded);
    HeldAreFaithful(cache.translator, cache.text, cache.blocks, cache.lookup, cache.maximumInstructions,
      cache.persistent, records);
    if !cache.persists || !cache.persistentDirty {
      return None, records;
    }
    file := SavePersistent(fingerprint, anchor, live, loaded);
  }

  lemma BlocksStart(cache: BlockCache)
    requires cache.Valid()
    ensures forall a | a in cache.blocks :: cache.blocks[a].start == a
  {
    forall a | a in cache.blocks
      ensures cache.blocks[a].start == a
    {
      assert EntryValid(cache.translator, cache.text, a, cache.blocks[a], cache.lookup[a],
        cache.maximumInstructions[a]);
    }
  }

  lemma SizesOf(cache: BlockCache, loaded: map<u64, PersistentBlock>, maximum: nat)
    requires OneMaximum(cache.blocks, maximum) && maximum < U64_LIMIT
    requires Remains(cache.persistent, loaded) && Sizes(map[], loaded)
    ensures Sizes(cache.blocks, cache.persistent)
  {
  }

  /** A whole process: it opens the file of another one, runs any events, and writes the cache back.
      What it writes are translations at its own anchor, for every address that it loaded or ran
      and no other: nothing that was loaded is lost. */
  method Session(t: Translators, file: seq<byte>, fingerprint: u64, a: u64, b: u64, ghost written: u64,
                 ghost records: seq<Record>, ghost text: Text, maximum: u64, events: seq<Event>)
    returns (chosen: seq<Translation>, saved: Option<seq<byte>>, ghost held: seq<Record>)
    requires MovesWithAnchor(t) && DependsOnPrefix(t.at(b)) && AllEncodable(records)
    requires RecordsFaithful(t.at(a), records) && file == EncodeFile(written, a, records)
    requires forall i | 0 <= i < |events| :: events[i].code == text(events[i].executableVersion, events[i].rip)
    ensures |chosen| <= |events|
    ensures DistinctAddresses(held) && RecordsFaithful(t.at(b), held)
    ensures Addresses(held) == Loaded(file, fingerprint, b).Keys + Rips(events[..|chosen|])
    ensures saved.Some? ==> saved == Some(EncodeFile(fingerprint, b, held))
  {
    hide MovesWithAnchor, DependsOnPrefix, RecordsFaithful, EncodeFile, LoadFile, DistinctAddresses, AllEncodable,
      IndicesValid, EntriesValid, PersistentsValid, Rips, Loaded, OneMaximum, Remains, Sizes;
    var cache := Reopen(t, file, fingerprint, a, b, written, records, text);
    var d := new Dispatcher(cache, maximum);
    LoadedSizes(file, fingerprint, b);
    chosen := RunAll(d, events);
    SizesOf(cache, Loaded(file, fingerprint, b), maximum);
    saved, held := SaveCache(cache, fingerprint, b);
  }

  lemma LoadedSizes(file: seq<byte>, fingerprint: u64, anchor: u64)
    ensures Sizes(map[], Loaded(file, fingerprint, anchor))
  {
    hide LoadFile;
  }
}
