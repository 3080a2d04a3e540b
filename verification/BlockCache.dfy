/** Three indices over translated blocks and the dispatcher's direct-mapped cache in front of
    them: whatever they answer is a translation of the guest bytes of the moment. */
module BlockCache {
  import opened Options
  import opened Words
  import opened Assembler

  /** What the translator makes of the bytes it consumes. */
  datatype Translation = Translation(
    source: seq<byte>,
    program: Program,
    hasInternalSelfEdge: bool,
    callReturnAddress: Option<u64>,
    lastInstructionAddress: u64)

  /** A translator fails on undecodable code. */
  datatype Translator = Translator(translate: (seq<byte>, u64, nat) -> Option<Translation>)

  /** A translation depends on the bytes it consumed and on no later ones. */
  ghost predicate DependsOnPrefix(t: Translator) {
    forall code: seq<byte>, start: u64, maximum: nat :: PrefixDetermines(t, code, start, maximum)
  }

  ghost predicate PrefixDetermines(t: Translator, code: seq<byte>, start: u64, maximum: nat) {
    var r := t.translate(code, start, maximum);
    (r.Some? ==> r.value.source <= code) &&
    (r.Some? ==> forall other: seq<byte> :: r.value.source <= other ==> t.translate(other, start, maximum) == r)
  }

  class TranslatedBlock {
    const start: u64
    const maximumInstructions: nat
    const translation: Translation

    constructor (start: u64, maximumInstructions: nat, translation: Translation)
      ensures this.start == start && this.maximumInstructions == maximumInstructions && this.translation == translation
    {
      this.start, this.maximumInstructions, this.translation := start, maximumInstructions, translation;
    }
  }

  datatype LookupEntry = LookupEntry(block: TranslatedBlock, executableVersion: u64)

  datatype PersistentBlock = PersistentBlock(maximumInstructions: nat, translation: Translation)

  predicate SourceMatches(source: seq<byte>, code: seq<byte>) {
    source <= code
  }

  /** The guest code bytes from an address on, as they are while a version number is current. */
  type Text = (u64, u64) -> seq<byte>

  class BlockCache {
    const translator: Translator
    const persists: bool
    ghost const text: Text
    var blocks: map<u64, TranslatedBlock>
    var lookup: map<u64, LookupEntry>
    var maximumInstructions: map<u64, nat>
    var persistent: map<u64, PersistentBlock>
    var persistentDirty: bool
    var persistentHitCount: nat

    ghost predicate Valid()
      reads this
    {
      DependsOnPrefix(translator) && IndicesValid(translator, text, blocks, lookup, maximumInstructions) &&
      PersistentsValid(translator, persistent)
    }

    /** A new cache, with what was loaded from a file; each loaded block must be a translation. */
    constructor (translator: Translator, persistent: map<u64, PersistentBlock>, persists: bool, ghost text: Text)
      requires DependsOnPrefix(translator)
      requires PersistentsValid(translator, persistent)
      ensures Valid() && blocks == map[] && this.translator == translator && this.text == text
      ensures this.persistent == persistent && this.persists == persists && !persistentDirty && persistentHitCount == 0
    {
      this.translator, this.text, this.persists := translator, text, persists;
      blocks, lookup, maximumInstructions := map[], map[], map[];
      this.persistent, persistentDirty, persistentHitCount := persistent, false, 0;
    }

    method FindCurrent(address: u64, executableVersion: u64) returns (block: TranslatedBlock?)
      requires Valid()
      ensures block == null <==> address !in lookup || lookup[address].executableVersion != executableVersion
      ensures block != null ==>
        address in blocks && block == blocks[address] && Translates(translator, block, text(executableVersion, address))
    {
      if address !in lookup || lookup[address].executableVersion != executableVersion {
        return null;
      }
      block := lookup[address].block;
      CurrentIsTranslation(translator, text, address, block, lookup[address], maximumInstructions[address]);
    }

    /** The block for the bytes at an address: an indexed one whose bytes are still there, a
        persistent one, or a new translation in place of whatever was there. No block is given
        exactly if a translation is needed and fails, and then nothing has changed. */
    method GetOrTranslate(address: u64, code: seq<byte>, maximum: nat, executableVersion: u64)
      returns (block: TranslatedBlock?)
      requires Valid() && code == text(executableVersion, address)
      modifies this
      ensures Valid()
      ensures block == null <==>
        !old(Reusable(address, code, maximum)) && translator.translate(code, address, maximum).None?
      ensures block == null ==>
        blocks == old(blocks) && lookup == old(lookup) && maximumInstructions == old(maximumInstructions)
      ensures block == null ==> persistent == old(persistent) && persistentDirty == old(persistentDirty)
      ensures block != null ==> block.start == address && Translates(translator, block, code)
      ensures block != null ==>
        blocks == old(blocks)[address := block] &&
          lookup == old(lookup)[address := LookupEntry(block, executableVersion)]
      ensures block != null && block.maximumInstructions != maximum ==>
        address in old(blocks) && block == old(blocks)[address]
      ensures block != null && old(address in lookup && Reusable(address, code, maximum)) ==>
        block == old(lookup)[address].block && maximumInstructions == old(maximumInstructions)
      ensures block != null && !old(address in lookup && Reusable(address, code, maximum)) ==>
        fresh(block) && maximumInstructions == old(maximumInstructions)[address := maximum]
      ensures persistent ==
        if old(Restores(address, code, maximum)) then old(persistent) - {address} else old(persistent)
      ensures persistentHitCount == old(persistentHitCount) + if old(Restores(address, code, maximum)) then 1 else 0
      ensures persistentDirty ==
        if block != null && !old(Reusable(address, code, maximum)) then persists else old(persistentDirty)
    {
      hide DependsOnPrefix, IndicesValid, PersistentsValid, SourceMatches, Translates, EntryValid;
      if address in lookup {
        var existing := lookup[address];
        if SourceMatches(existing.block.translation.source, code) {
          ReusedEntry(translator, text, blocks, lookup, maximumInstructions, address, code, executableVersion);
          block := existing.block;
          lookup := lookup[address := LookupEntry(block, executableVersion)];
          return;
        }
        block := Translate(address, code, maximum);
      } else if address in persistent && persistent[address].maximumInstructions == maximum &&
                SourceMatches(persistent[address].translation.source, code) {
        PersistentTranslation(translator, persistent, address, code);
        block := new TranslatedBlock(address, maximum, persistent[address].translation);
        persistent := persistent - {address};
        persistentHitCount := persistentHitCount + 1;
        FreshTranslation(translator, block, code);
      } else {
        block := Translate(address, code, maximum);
      }
      if block == null {
        return;
      }
      Inserted(translator, text, blocks, lookup, maximumInstructions, address, block, maximum, code, executableVersion);
      blocks := blocks[address := block];
      lookup := lookup[address := LookupEntry(block, executableVersion)];
      maximumInstructions := maximumInstructions[address := maximum];
    }

    /** A new block, or none if the translator fails. */
    method Translate(address: u64, code: seq<byte>, maximum: nat) returns (block: TranslatedBlock?)
      modifies this`persistentDirty
      ensures block == null <==> translator.translate(code, address, maximum).None?
      ensures persistentDirty == if block == null then old(persistentDirty) else persists
      ensures block != null ==> fresh(block) && block.start == address && block.maximumInstructions == maximum
      ensures block != null ==> Translates(translator, block, code)
    {
      var translation := translator.translate(code, address, maximum);
      if translation.None? {
        return null;
      }
      persistentDirty := persists;
      block := new TranslatedBlock(address, maximum, translation.value);
    }

    /** There is a block that can be used without translating. */
    ghost predicate Reusable(address: u64, code: seq<byte>, maximum: nat)
      reads this
    {
      if address in lookup then SourceMatches(lookup[address].block.translation.source, code)
      else Restores(address, code, maximum)
    }

    /** A loaded record takes the place of a translation: nothing is indexed for the address, and
        limit and source bytes are those of the record. */
    ghost predicate Restores(address: u64, code: seq<byte>, maximum: nat)
      reads this
    {
      address !in lookup && address in persistent && persistent[address].maximumInstructions == maximum &&
      SourceMatches(persistent[address].translation.source, code)
    }

    /** The addresses that a file written now would hold. */
    ghost function Known(): set<u64>
      reads this
    {
      blocks.Keys + persistent.Keys
    }
  }

  ghost predicate Faithful(t: Translator, start: u64, maximum: nat, r: Translation) {
    t.translate(r.source, start, maximum) == Some(r)
  }

  ghost predicate EntryValid(t: Translator, text: Text, a: u64, block: TranslatedBlock, entry: LookupEntry,
                             maximum: nat) {
    entry.block == block && block.start == a && block.maximumInstructions == maximum &&
    Faithful(t, a, maximum, block.translation) &&
      SourceMatches(block.translation.source, text(entry.executableVersion, a))
  }

  ghost predicate PersistentValid(t: Translator, a: u64, p: PersistentBlock) {
    Faithful(t, a, p.maximumInstructions, p.translation)
  }

  /** `block` is what the translator would make of `code` at its address. */
  ghost predicate Translates(t: Translator, block: TranslatedBlock, code: seq<byte>) {
    t.translate(code, block.start, block.maximumInstructions) == Some(block.translation)
  }

  lemma StillTranslation(t: Translator, block: TranslatedBlock, code: seq<byte>)
    requires DependsOnPrefix(t) && Faithful(t, block.start, block.maximumInstructions, block.translation)
    requires SourceMatches(block.translation.source, code)
    ensures Translates(t, block, code)
  {
    assert PrefixDetermines(t, block.translation.source, block.start, block.maximumInstructions);
  }

  lemma CurrentIsTranslation(t: Translator, text: Text, a: u64, block: TranslatedBlock, entry: LookupEntry,
                             maximum: nat)
    requires DependsOnPrefix(t) && EntryValid(t, text, a, block, entry, maximum)
    ensures Translates(t, block, text(entry.executableVersion, a))
  {
    StillTranslation(t, block, text(entry.executableVersion, a));
  }

  /** What was translated is determined by its own source bytes. */
  lemma NewIsTranslation(t: Translator, block: TranslatedBlock, code: seq<byte>)
    requires DependsOnPrefix(t) && Translates(t, block, code)
    ensures SourceMatches(block.translation.source, code)
    ensures Faithful(t, block.start, block.maximumInstructions, block.translation)
  {
    assert PrefixDetermines(t, code, block.start, block.maximumInstructions);
  }

  lemma FreshTranslation(t: Translator, block: TranslatedBlock, code: seq<byte>)
    requires t.translate(code, block.start, block.maximumInstructions) == Some(block.translation)
    ensures Translates(t, block, code)
  {
  }

  lemma PersistentTranslation(t: Translator, persistent: map<u64, PersistentBlock>, a: u64, code: seq<byte>)
    requires DependsOnPrefix(t) && PersistentsValid(t, persistent) && a in persistent
    requires SourceMatches(persistent[a].translation.source, code)
    ensures t.translate(code, a, persistent[a].maximumInstructions) == Some(persistent[a].translation)
    ensures PersistentsValid(t, persistent - {a})
  {
    assert PersistentValid(t, a, persistent[a]);
    assert PrefixDetermines(t, persistent[a].translation.source, a, persistent[a].maximumInstructions);
  }

  ghost predicate IndicesValid(t: Translator, text: Text, blocks: map<u64, TranslatedBlock>,
                               lookup: map<u64, LookupEntry>, maxima: map<u64, nat>) {
    blocks.Keys == lookup.Keys && blocks.Keys == maxima.Keys &&
    forall a | a in blocks :: EntryValid(t, text, a, blocks[a], lookup[a], maxima[a])
  }

  ghost predicate PersistentsValid(t: Translator, persistent: map<u64, PersistentBlock>) {
    forall a | a in persistent :: PersistentValid(t, a, persistent[a])
  }

  /** A reused entry is as good for the new version as it was for the old one. */
  lemma ReusedEntry(t: Translator, text: Text, blocks: map<u64, TranslatedBlock>, lookup: map<u64, LookupEntry>,
                    maxima: map<u64, nat>, a: u64, code: seq<byte>, version: u64)
    requires DependsOnPrefix(t) && IndicesValid(t, text, blocks, lookup, maxima)
    requires a in lookup && SourceMatches(lookup[a].block.translation.source, code) && code == text(version, a)
    ensures var block := lookup[a].block;
      blocks[a := block] == blocks && block.start == a && Translates(t, block, code) &&
      IndicesValid(t, text, blocks, lookup[a := LookupEntry(block, version)], maxima)
  {
    hide DependsOnPrefix;
    assert EntryValid(t, text, a, blocks[a], lookup[a], maxima[a]);
    StillTranslation(t, blocks[a], code);
  }

  /** A new block takes the place of whatever was indexed for its address. */
  lemma Inserted(t: Translator, text: Text, blocks: map<u64, TranslatedBlock>, lookup: map<u64, LookupEntry>,
                 maxima: map<u64, nat>, a: u64, block: TranslatedBlock, maximum: nat, code: seq<byte>, version: u64)
    requires DependsOnPrefix(t) && IndicesValid(t, text, blocks, lookup, maxima)
    requires block.start == a && block.maximumInstructions == maximum && Translates(t, block, code) &&
      code == text(version, a)
    ensures IndicesValid(t, text, blocks[a := block], lookup[a := LookupEntry(block, version)], maxima[a := maximum])
  {
    hide DependsOnPrefix;
    NewIsTranslation(t, block, code);
  }

  // ----- the dispatcher

  const DISPATCH_CACHE_SIZE: nat := 256

  datatype DispatchCacheEntry = DispatchCacheEntry(address: u64, executableVersion: u64, block: TranslatedBlock?)

  /** `(address >> 1) & 255`. */
  function Slot(address: u64): (s: nat)
    ensures s < DISPATCH_CACHE_SIZE
  {
    address / 2 % DISPATCH_CACHE_SIZE
  }

  lemma SlotBits(address: u64)
    ensures And(Shr(address, 1), DISPATCH_CACHE_SIZE - 1) == Slot(address)
  {
    WordPowers();
    assert Shr(address, 1) == address / 2;
    MaskIsRemainder(address / 2, 8, 256);
  }

  ghost predicate DispatchEntryValid(t: Translator, text: Text, blocks: map<u64, TranslatedBlock>, slot: nat,
                                     e: DispatchCacheEntry) {
    e.block != null ==>
      Slot(e.address) == slot && e.address in blocks && blocks[e.address] == e.block &&
      Translates(t, e.block, text(e.executableVersion, e.address))
  }

  ghost predicate EntriesValid(t: Translator, text: Text, blocks: map<u64, TranslatedBlock>,
                               entries: seq<DispatchCacheEntry>) {
    forall s | 0 <= s < |entries| :: DispatchEntryValid(t, text, blocks, s, entries[s])
  }

  ghost predicate OneMaximum(blocks: map<u64, TranslatedBlock>, maximum: nat) {
    forall a | a in blocks :: blocks[a].start == a && blocks[a].maximumInstructions == maximum
  }

  class Dispatcher {
    const cache: BlockCache
    const maximumInstructionsPerBlock: nat
    const dispatchCache: array<DispatchCacheEntry>

    ghost predicate Valid()
      reads this, cache, dispatchCache
    {
      cache.Valid() && dispatchCache.Length == DISPATCH_CACHE_SIZE &&
      OneMaximum(cache.blocks, maximumInstructionsPerBlock) &&
      EntriesValid(cache.translator, cache.text, cache.blocks, dispatchCache[..])
    }

    constructor (cache: BlockCache, maximum: nat)
      requires cache.Valid() && cache.blocks == map[]
      ensures Valid() && this.cache == cache && maximumInstructionsPerBlock == maximum && fresh(dispatchCache)
    {
      this.cache, maximumInstructionsPerBlock := cache, maximum;
      dispatchCache := new DispatchCacheEntry[DISPATCH_CACHE_SIZE](_ => DispatchCacheEntry(0, 0, null));
    }

    /** One turn of the loop: the block that will run at `rip`, or none if the bytes cannot be
        translated. The answer is that of a translator without any cache. */
    method Dispatch(rip: u64, code: seq<byte>, executableVersion: u64) returns (block: TranslatedBlock?)
      requires Valid() && code == cache.text(executableVersion, rip)
      modifies cache, dispatchCache
      ensures Valid()
      ensures cache.translator.translate(code, rip, maximumInstructionsPerBlock) ==
        if block == null then None else Some(block.translation)
      ensures block == null ==> cache.blocks == old(cache.blocks) && cache.lookup == old(cache.lookup)
      ensures block != null ==> cache.blocks == old(cache.blocks)[rip := block]
      ensures dispatchCache[..] ==
        if block == null then old(dispatchCache[..])
          else old(dispatchCache[..])[Slot(rip) := DispatchCacheEntry(rip, executableVersion, block)]
      ensures cache.persistent == if old(cache.Restores(rip, code, maximumInstructionsPerBlock))
        then old(cache.persistent) - {rip} else old(cache.persistent)
      ensures cache.Known() == if block == null then old(cache.Known()) else old(cache.Known()) + {rip}
    {
      hide EntriesValid, OneMaximum, Translates, Slot, IndicesValid, PersistentsValid, DependsOnPrefix, SourceMatches;
      var slot := Slot(rip);
      var entry := dispatchCache[slot];
      ghost var before, loaded, entries := cache.blocks, cache.persistent, dispatchCache[..];
      SameKeys(cache.translator, cache.text, before, cache.lookup, cache.maximumInstructions);
      block := null;
      if entry.block != null && entry.address == rip && entry.executableVersion == executableVersion {
        block := entry.block;
        HitIsTranslation(cache.translator, cache.text, before, entries, slot);
      } else {
        block := cache.FindCurrent(rip, executableVersion);
      }
      if block == null {
        block := cache.GetOrTranslate(rip, code, maximumInstructionsPerBlock, executableVersion);
        if block == null {
          return;
        }
      }
      StoredMaximum(before, rip, block, maximumInstructionsPerBlock);
      Refilled(cache.translator, cache.text, before, entries, rip, executableVersion, block);
      KnownGrows(before, loaded, rip, block);
      dispatchCache[slot] := DispatchCacheEntry(rip, executableVersion, block);
      TranslationOf(cache.translator, block, code);
    }
  }

  lemma SameKeys(t: Translator, text: Text, blocks: map<u64, TranslatedBlock>, lookup: map<u64, LookupEntry>,
                 maxima: map<u64, nat>)
    requires IndicesValid(t, text, blocks, lookup, maxima)
    ensures blocks.Keys == lookup.Keys
  {
  }

  /** A stored block keeps its address known, whether or not the loaded record for it is gone. */
  lemma KnownGrows(blocks: map<u64, TranslatedBlock>, persistent: map<u64, PersistentBlock>, rip: u64,
                   block: TranslatedBlock)
    ensures blocks[rip := block].Keys + persistent.Keys == blocks.Keys + persistent.Keys + {rip}
    ensures blocks[rip := block].Keys + (persistent - {rip}).Keys == blocks.Keys + persistent.Keys + {rip}
  {
  }

  lemma HitIsTranslation(t: Translator, text: Text, blocks: map<u64, TranslatedBlock>, entries: seq<DispatchCacheEntry>,
                         s: nat)
    requires EntriesValid(t, text, blocks, entries) && s < |entries| && entries[s].block != null
    ensures var e := entries[s];
      e.address in blocks && blocks[e.address] == e.block && blocks[e.address := e.block] == blocks &&
      Translates(t, e.block, text(e.executableVersion, e.address))
  {
    assert DispatchEntryValid(t, text, blocks, s, entries[s]);
  }

  /** The block for an address is either the old one, with the one maximum, or made with it. */
  lemma StoredMaximum(blocks: map<u64, TranslatedBlock>, rip: u64, block: TranslatedBlock, maximum: nat)
    requires OneMaximum(blocks, maximum)
    requires (rip in blocks && block == blocks[rip]) || (block.start == rip && block.maximumInstructions == maximum)
    ensures block.start == rip && block.maximumInstructions == maximum
    ensures OneMaximum(blocks[rip := block], maximum) &&
      (rip in blocks && block == blocks[rip] ==> blocks[rip := block] == blocks)
  {
  }

  lemma Refilled(t: Translator, text: Text, blocks: map<u64, TranslatedBlock>, entries: seq<DispatchCacheEntry>,
                 rip: u64, version: u64, block: TranslatedBlock)
    requires EntriesValid(t, text, blocks, entries) && |entries| == DISPATCH_CACHE_SIZE
    requires Translates(t, block, text(version, rip))
    ensures EntriesValid(t, text, blocks[rip := block], entries[Slot(rip) := DispatchCacheEntry(rip, version, block)])
  {
    hide Translates, Slot;
    forall s | 0 <= s < |entries| && s != Slot(rip)
      ensures DispatchEntryValid(t, text, blocks[rip := block], s, entries[s])
    {
      assert DispatchEntryValid(t, text, blocks, s, entries[s]);
      OtherSlot(t, text, blocks, s, entries[s], rip, block);
    }
  }

  lemma TranslationOf(t: Translator, block: TranslatedBlock, code: seq<byte>)
    requires Translates(t, block, code)
    ensures t.translate(code, block.start, block.maximumInstructions) == Some(block.translation)
  {
  }

  /** A block stored for one address cannot retire what another slot points at. */
  lemma OtherSlot(t: Translator, text: Text, blocks: map<u64, TranslatedBlock>, s: nat, e: DispatchCacheEntry, rip: u64,
                  block: TranslatedBlock)
    requires DispatchEntryValid(t, text, blocks, s, e) && s != Slot(rip)
    ensures DispatchEntryValid(t, text, blocks[rip := block], s, e)
  {
  }

  datatype Event = Event(rip: u64, executableVersion: u64, code: seq<byte>)

  ghost function Rips(events: seq<Event>): set<u64> {
    set e | e in events :: e.rip
  }

  lemma NoEvents(events: seq<Event>)
    ensures Rips(events[..0]) == {}
  {
  }

  lemma OneMoreEvent(events: seq<Event>, n: nat)
    requires n < |events|
    ensures Rips(events[..n + 1]) == Rips(events[..n]) + {events[n].rip}
  {
    assert events[..n + 1] == events[..n] + [events[n]];
  }

  /** Some of the records, as they were loaded. */
  ghost predicate Remains(now: map<u64, PersistentBlock>, loaded: map<u64, PersistentBlock>) {
    forall a | a in now :: a in loaded && now[a] == loaded[a]
  }

  lemma AllRemains(loaded: map<u64, PersistentBlock>)
    ensures Remains(loaded, loaded)
  {
  }

  lemma StillRemains(now: map<u64, PersistentBlock>, loaded: map<u64, PersistentBlock>, a: u64)
    requires Remains(now, loaded)
    ensures Remains(now - {a}, loaded)
  {
  }

  /** Any sequence of dispatches, over any history of code changes, runs what a translator without
      caches would make of the bytes of each moment, and stops at the first that it cannot
      translate. */
  method RunAll(d: Dispatcher, events: seq<Event>) returns (chosen: seq<Translation>)
    requires d.Valid()
    requires forall i | 0 <= i < |events| :: events[i].code == d.cache.text(events[i].executableVersion, events[i].rip)
    modifies d.cache, d.dispatchCache
    ensures d.Valid() && |chosen| <= |events|
    ensures forall i | 0 <= i < |chosen| ::
      d.cache.translator.translate(events[i].code, events[i].rip, d.maximumInstructionsPerBlock) == Some(chosen[i])
    ensures |chosen| < |events| ==>
      d.cache.translator.translate(events[|chosen|].code, events[|chosen|].rip, d.maximumInstructionsPerBlock).None?
    ensures d.cache.Known() == old(d.cache.Known()) + Rips(events[..|chosen|])
    ensures Remains(d.cache.persistent, old(d.cache.persistent))
  {
    hide Remains, Rips, DependsOnPrefix, IndicesValid, PersistentsValid, EntriesValid, OneMaximum, Slot, SourceMatches;
    chosen := [];
    AllRemains(d.cache.persistent);
    NoEvents(events);
    while |chosen| < |events|
      invariant d.Valid() && |chosen| <= |events|
      invariant forall i | 0 <= i < |chosen| ::
        d.cache.translator.translate(events[i].code, events[i].rip, d.maximumInstructionsPerBlock) == Some(chosen[i])
      invariant d.cache.Known() == old(d.cache.Known()) + Rips(events[..|chosen|])
      invariant Remains(d.cache.persistent, old(d.cache.persistent))
    {
      var event := events[|chosen|];
      OneMoreEvent(events, |chosen|);
      StillRemains(d.cache.persistent, old(d.cache.persistent), event.rip);
      var block := d.Dispatch(event.rip, event.code, event.executableVersion);
      if block == null {
        return;
      }
      chosen := chosen + [block.translation];
    }
  }
}
