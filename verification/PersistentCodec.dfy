/** The file in which translations outlive the process: how it is written and read back. */
module PersistentCodec {
  import opened Options
  import opened Words
  import opened ByteOrder
  import opened Assembler
  import opened Relocation

  const MAGIC: seq<byte> := [0x52, 0x4F, 0x53, 0x41, 0x43, 0x30, 0x31, 0]
  const VERSION: u32 := 2
  const MAXIMUM_FILE_SIZE: nat := 0x2000_0000
  const MAXIMUM_RECORDS: nat := 0x10_0000
  const MAXIMUM_SOURCE_SIZE: nat := 4096
  const MAXIMUM_PROGRAM_SIZE: nat := 0x10_0000
  const MAXIMUM_RELOCATIONS: nat := 0x1_0000

  datatype Record = Record(
    address: u64,
    maximumInstructions: u64,
    source: seq<byte>,
    program: Program,
    hasInternalSelfEdge: bool,
    callReturnAddress: Option<u64>,
    lastInstructionAddress: u64)

  // ----- writing

  function Flags(r: Record): nat {
    Or(if r.hasInternalSelfEdge then 1 else 0, if r.callReturnAddress.Some? then 2 else 0)
  }

  function EncodeRelocations(offsets: seq<u32>): seq<byte> {
    if offsets == [] then [] else ToBytes(offsets[0], 4) + EncodeRelocations(offsets[1..])
  }

  function EncodeHeader(h: Header, tail: seq<byte>): seq<byte> {
    ToBytes(h.address, 8) + (ToBytes(h.maximumInstructions, 8) +
      (ToBytes(h.sourceSize, 4) + (ToBytes(h.programSize, 4) +
    (ToBytes(h.relocationCount, 4) +
      (ToBytes(h.flags, 4) + (ToBytes(h.callReturnAddress, 8) + (ToBytes(h.lastInstructionAddress, 8) + tail)))))))
  }

  function HeaderOf(r: Record): Header {
    Header(r.address, r.maximumInstructions, |r.source|, |r.program.bytes|, |r.program.pointerRelocations|, Flags(r),
      if r.callReturnAddress.Some? then r.callReturnAddress.value else 0, r.lastInstructionAddress)
  }

  /** The bytes of a record in front of others. */
  function EncodeRecord(r: Record, tail: seq<byte>): seq<byte> {
    EncodeHeader(HeaderOf(r), r.source + (r.program.bytes + (EncodeRelocations(r.program.pointerRelocations) + tail)))
  }

  function EncodeRecords(records: seq<Record>): seq<byte> {
    if records == [] then [] else EncodeRecord(records[0], EncodeRecords(records[1..]))
  }

  function EncodeFile(fingerprint: u64, anchor: u64, records: seq<Record>): seq<byte> {
    MAGIC + (ToBytes(VERSION, 4) +
      (ToBytes(fingerprint, 8) + (ToBytes(anchor, 8) + (ToBytes(|records|, 4) + EncodeRecords(records)))))
  }

  /** Beyond this the writer gives up. */
  predicate Encodable(r: Record) {
    |r.source| < U32_LIMIT && |r.program.bytes| < U32_LIMIT && |r.program.pointerRelocations| < U32_LIMIT
  }

  predicate AllEncodable(records: seq<Record>) {
    |records| < U32_LIMIT && forall i | 0 <= i < |records| :: Encodable(records[i])
  }

  // ----- reading

  datatype Header = Header(
    address: nat,
    maximumInstructions: nat,
    sourceSize: nat,
    programSize: nat,
    relocationCount: nat,
    flags: nat,
    callReturnAddress: nat,
    lastInstructionAddress: nat)

  /** What is read, and the bytes after it. */
  datatype Taken<+T> = Truncated | Taken(value: T, rest: seq<byte>)

  function TakeBytes(s: seq<byte>, n: nat): Taken<seq<byte>> {
    if n > |s| then Truncated else Taken(s[..n], s[n..])
  }

  function TakeWord(s: seq<byte>, n: nat): (t: Taken<nat>)
    ensures t.Taken? && n == 4 ==> t.value < U32_LIMIT
    ensures t.Taken? && n == 8 ==> t.value < U64_LIMIT
  {
    if n > |s| then Truncated
    else
      ValueRoundTrip(s[..n]);
      WordPowers();
      Taken(FromBytes(s[..n]), s[n..])
  }

  function TakeHeader(s: seq<byte>): (t: Taken<Header>)
    ensures t.Taken? ==> IsHeader(t.value)
  {
    var a := TakeWord(s, 8);
    if a.Truncated? then Truncated else
    var m := TakeWord(a.rest, 8);
    if m.Truncated? then Truncated else
    var source := TakeWord(m.rest, 4);
    if source.Truncated? then Truncated else
    var program := TakeWord(source.rest, 4);
    if program.Truncated? then Truncated else
    var count := TakeWord(program.rest, 4);
    if count.Truncated? then Truncated else
    var flags := TakeWord(count.rest, 4);
    if flags.Truncated? then Truncated else
    var call := TakeWord(flags.rest, 8);
    if call.Truncated? then Truncated else
    var last := TakeWord(call.rest, 8);
    if last.Truncated? then Truncated else
    Taken(Header(a.value, m.value, source.value, program.value, count.value, flags.value, call.value, last.value),
      last.rest)
  }

  predicate IsHeader(h: Header) {
    h.address < U64_LIMIT && h.maximumInstructions < U64_LIMIT && h.sourceSize < U32_LIMIT &&
      h.programSize < U32_LIMIT &&
    h.relocationCount < U32_LIMIT && h.flags < U32_LIMIT && h.callReturnAddress < U64_LIMIT &&
      h.lastInstructionAddress < U64_LIMIT
  }

  predicate HeaderAccepted(h: Header) {
    h.maximumInstructions != 0 &&
    h.sourceSize != 0 && h.sourceSize <= MAXIMUM_SOURCE_SIZE &&
    h.programSize != 0 && h.programSize <= MAXIMUM_PROGRAM_SIZE &&
    h.relocationCount <= MAXIMUM_RELOCATIONS &&
    And(h.flags, 0xFFFF_FFFC) == 0 &&
    h.lastInstructionAddress >= h.address &&
    h.lastInstructionAddress - h.address < h.sourceSize
  }

  function TakeRelocations(s: seq<byte>, n: nat): (t: Taken<seq<u32>>)
    ensures t.Taken? ==> |t.value| == n
  {
    if n == 0 then Taken([], s)
    else
      var first := TakeWord(s, 4);
      if first.Truncated? then Truncated
      else
        var others := TakeRelocations(first.rest, n - 1);
        if others.Truncated? then Truncated else Taken([first.value] + others.value, others.rest)
  }

  /** One record, with its program moved to the current slide; truncated or invalid otherwise. */
  function TakeRecord(s: seq<byte>, slide: u64): Taken<Record> {
    var h := TakeHeader(s);
    if h.Truncated? || !HeaderAccepted(h.value) then Truncated else
    var source := TakeBytes(h.rest, h.value.sourceSize);
    if source.Truncated? then Truncated else
    var program := TakeBytes(source.rest, h.value.programSize);
    if program.Truncated? then Truncated else
    var relocations := TakeRelocations(program.rest, h.value.relocationCount);
    if relocations.Truncated? then Truncated else
    var moved := RelocateAll(program.value, relocations.value, slide);
    if moved.None? then Truncated else
    Taken(Record(h.value.address, h.value.maximumInstructions, source.value, Program(moved.value, relocations.value),
      And(h.value.flags, 1) != 0,
      if And(h.value.flags, 2) != 0 then Some(h.value.callReturnAddress) else None,
      h.value.lastInstructionAddress), relocations.rest)
  }

  /** `n` records, added to those read before them; an address must not repeat. */
  function TakeRecords(s: seq<byte>, n: nat, slide: u64, blocks: map<u64, Record>): Taken<map<u64, Record>>
    decreases n
  {
    if n == 0 then Taken(blocks, s)
    else
      var first := TakeRecord(s, slide);
      if first.Truncated? || first.value.address in blocks then Truncated
      else TakeRecords(first.rest, n - 1, slide, blocks[first.value.address := first.value])
  }

  datatype Loaded = Blocks(blocks: map<u64, Record>) | Stale | Invalid

  function LoadFile(bytes: seq<byte>, fingerprint: u64, anchor: u64): Loaded {
    if |bytes| > MAXIMUM_FILE_SIZE then Invalid else
    var magic := TakeBytes(bytes, 8);
    if magic.Truncated? then Invalid else
    if magic.value != MAGIC then Stale else
    var version := TakeWord(magic.rest, 4);
    if version.Truncated? then Invalid else
    if version.value != VERSION then Stale else
    var built := TakeWord(version.rest, 8);
    if built.Truncated? then Invalid else
    if built.value != fingerprint then Stale else
    var origin := TakeWord(built.rest, 8);
    if origin.Truncated? then Invalid else
    var count := TakeWord(origin.rest, 4);
    if count.Truncated? || count.value > MAXIMUM_RECORDS then Invalid else
    var all := TakeRecords(count.rest, count.value, Sub64(anchor, origin.value), map[]);
    if all.Truncated? || all.rest != [] then Invalid else Blocks(all.value)
  }

  // ----- what is written is read back

  lemma TakeBytesOf(s: seq<byte>, t: seq<byte>)
    ensures TakeBytes(s + t, |s|) == Taken(s, t)
  {
  }

  lemma TakeWordOf(x: nat, n: nat, t: seq<byte>)
    requires (n == 4 && x < U32_LIMIT) || (n == 8 && x < U64_LIMIT)
    ensures TakeWord(ToBytes(x, n) + t, n) == Taken(x, t)
  {
    hide ToBytes, FromBytes;
    WordPowers();
    BytesRoundTrip(x, n);
    TakeBytesOf(ToBytes(x, n), t);
  }

  lemma TakeHeaderOf(h: Header, t: seq<byte>)
    requires IsHeader(h)
    ensures TakeHeader(EncodeHeader(h, t)) == Taken(h, t)
  {
    hide ToBytes, TakeWord;
    var after7 := ToBytes(h.lastInstructionAddress, 8) + t;
    var after6 := ToBytes(h.callReturnAddress, 8) + after7;
    var after5 := ToBytes(h.flags, 4) + after6;
    var after4 := ToBytes(h.relocationCount, 4) + after5;
    var after3 := ToBytes(h.programSize, 4) + after4;
    var after2 := ToBytes(h.sourceSize, 4) + after3;
    var after1 := ToBytes(h.maximumInstructions, 8) + after2;
    TakeWordOf(h.address, 8, after1);
    TakeWordOf(h.maximumInstructions, 8, after2);
    TakeWordOf(h.sourceSize, 4, after3);
    TakeWordOf(h.programSize, 4, after4);
    TakeWordOf(h.relocationCount, 4, after5);
    TakeWordOf(h.flags, 4, after6);
    TakeWordOf(h.callReturnAddress, 8, after7);
    TakeWordOf(h.lastInstructionAddress, 8, t);
  }

  lemma {:induction false} TakeRelocationsOf(offsets: seq<u32>, t: seq<byte>)
    ensures TakeRelocations(EncodeRelocations(offsets) + t, |offsets|) == Taken(offsets, t)
  {
    hide ToBytes, TakeWord;
    if offsets != [] {
      var others := EncodeRelocations(offsets[1..]);
      assert EncodeRelocations(offsets) + t == ToBytes(offsets[0], 4) + (others + t);
      TakeWordOf(offsets[0], 4, others + t);
      TakeRelocationsOf(offsets[1..], t);
      assert offsets == [offsets[0]] + offsets[1..];
    } else {
      assert EncodeRelocations(offsets) + t == t;
    }
  }

  lemma FlagsBack(r: Record)
    ensures Flags(r) < U32_LIMIT && And(Flags(r), 0xFFFF_FFFC) == 0
    ensures And(Flags(r), 1) != 0 <==> r.hasInternalSelfEdge
    ensures And(Flags(r), 2) != 0 <==> r.callReturnAddress.Some?
  {
    FlagUnions();
    FlagTests();
    hide And, Or;
  }

  lemma FlagUnions()
    ensures Or(1, 2) == 3 && Or(1, 0) == 1 && Or(0, 2) == 2 && Or(0, 0) == 0
  {
  }

  lemma FlagTests()
    ensures And(3, 1) == 1 && And(2, 1) == 0 && And(1, 1) == 1 && And(0, 1) == 0
    ensures And(3, 2) == 2 && And(2, 2) == 2 && And(1, 2) == 0 && And(0, 2) == 0
    ensures And(3, 0xFFFF_FFFC) == 0 && And(2, 0xFFFF_FFFC) == 0 && And(1, 0xFFFF_FFFC) == 0 && And(0, 0xFFFF_FFFC) == 0
  {
  }

  /** What the loader asks of a record. The writer asks none of it. */
  predicate WithinLimits(r: Record) {
    r.maximumInstructions != 0 &&
    1 <= |r.source| <= MAXIMUM_SOURCE_SIZE &&
    1 <= |r.program.bytes| <= MAXIMUM_PROGRAM_SIZE &&
    |r.program.pointerRelocations| <= MAXIMUM_RELOCATIONS &&
    r.address <= r.lastInstructionAddress < r.address + |r.source|
  }

  predicate Loadable(r: Record, slide: u64) {
    WithinLimits(r) && RelocateAll(r.program.bytes, r.program.pointerRelocations, slide).Some?
  }

  function Moved(r: Record, slide: u64): Record {
    var moved := RelocateAll(r.program.bytes, r.program.pointerRelocations, slide);
    if moved.None? then r else r.(program := Program(moved.value, r.program.pointerRelocations))
  }

  lemma HeaderLimits(r: Record)
    requires Encodable(r)
    ensures IsHeader(HeaderOf(r))
    ensures HeaderAccepted(HeaderOf(r)) <==> WithinLimits(r)
  {
    hide Flags;
    FlagsBack(r);
  }

  /** A written record is read back exactly, and refused exactly if it breaks a limit or holds
      something that cannot be relocated. */
  lemma TakeRecordOf(r: Record, t: seq<byte>, slide: u64)
    requires Encodable(r)
    ensures TakeRecord(EncodeRecord(r, t), slide) == if Loadable(r, slide) then Taken(Moved(r, slide), t) else Truncated
  {
    hide TakeHeader, EncodeHeader, TakeBytes, TakeRelocations, EncodeRelocations, RelocateAll, HeaderAccepted,
      WithinLimits, Flags;
    var h := HeaderOf(r);
    var after3 := EncodeRelocations(r.program.pointerRelocations) + t;
    var after2 := r.program.bytes + after3;
    var after1 := r.source + after2;
    FlagsBack(r);
    HeaderLimits(r);
    TakeHeaderOf(h, after1);
    TakeBytesOf(r.source, after2);
    TakeBytesOf(r.program.bytes, after3);
    TakeRelocationsOf(r.program.pointerRelocations, t);
  }

  predicate DistinctAddresses(records: seq<Record>) {
    forall i, j | 0 <= i < j < |records| :: records[i].address != records[j].address
  }

  predicate AllLoadable(records: seq<Record>, slide: u64) {
    forall i | 0 <= i < |records| :: Loadable(records[i], slide)
  }

  predicate NoneIn(records: seq<Record>, blocks: map<u64, Record>) {
    forall i | 0 <= i < |records| :: records[i].address !in blocks
  }

  /** The records by address, each moved by the slide. */
  function ByAddress(records: seq<Record>, slide: u64, blocks: map<u64, Record>): map<u64, Record> {
    if records == [] then blocks
    else ByAddress(records[1..], slide, blocks[records[0].address := Moved(records[0], slide)])
  }

  lemma {:induction false} TakeRecordsOf(records: seq<Record>, slide: u64, blocks: map<u64, Record>)
    requires forall i | 0 <= i < |records| :: Encodable(records[i])
    ensures TakeRecords(EncodeRecords(records), |records|, slide, blocks) ==
      if AllLoadable(records, slide) && DistinctAddresses(records) && NoneIn(records, blocks)
      then Taken(ByAddress(records, slide, blocks), []) else Truncated
  {
    hide TakeRecord, EncodeRecord, Loadable, Moved;
    if records != [] {
      var first, others := records[0], records[1..];
      TakeRecordOf(first, EncodeRecords(others), slide);
      MovedAddress(first, slide);
      var more := blocks[first.address := Moved(first, slide)];
      TakeRecordsOf(others, slide, more);
      Conditions(records, slide, blocks, more);
    }
  }

  lemma MovedAddress(r: Record, slide: u64)
    ensures Moved(r, slide).address == r.address
  {
    hide RelocateAll;
  }

  lemma Conditions(records: seq<Record>, slide: u64, blocks: map<u64, Record>, more: map<u64, Record>)
    requires records != [] && more.Keys == blocks.Keys + {records[0].address}
    ensures var others := records[1..];
      AllLoadable(records, slide) && DistinctAddresses(records) && NoneIn(records, blocks) <==>
      Loadable(records[0], slide) && records[0].address !in blocks &&
      AllLoadable(others, slide) && DistinctAddresses(others) && NoneIn(others, more)
  {
    hide Loadable;
    var others := records[1..];
    if AllLoadable(records, slide) && DistinctAddresses(records) && NoneIn(records, blocks) {
      assert forall i | 0 <= i < |others| :: others[i] == records[i + 1];
    }
    if Loadable(records[0], slide) && records[0].address !in blocks &&
       AllLoadable(others, slide) && DistinctAddresses(others) && NoneIn(others, more) {
      assert forall i | 1 <= i < |records| :: records[i] == others[i - 1];
    }
  }

  /** What the file format can carry back. */
  ghost predicate Restorable(records: seq<Record>, slide: u64) {
    |records| <= MAXIMUM_RECORDS && AllLoadable(records, slide) && DistinctAddresses(records)
  }

  /** Saving and loading: every record comes back once, with its program moved from the anchor at
      which it was saved to the one at which it is loaded; the file is refused exactly if some
      record breaks a limit, repeats an address or cannot be relocated, or the file is too big. */
  lemma SaveThenLoad(fingerprint: u64, saved: u64, now: u64, records: seq<Record>)
    requires AllEncodable(records)
    ensures var file := EncodeFile(fingerprint, saved, records);
      LoadFile(file, fingerprint, now) ==
        if |file| <= MAXIMUM_FILE_SIZE && Restorable(records, Sub64(now, saved))
        then Blocks(ByAddress(records, Sub64(now, saved), map[])) else Invalid
  {
    hide ToBytes, TakeWord, TakeBytes, EncodeRecords, TakeRecords, AllLoadable, DistinctAddresses, Sub64;
    var slide := Sub64(now, saved);
    var body := EncodeRecords(records);
    var after4 := ToBytes(|records|, 4) + body;
    var after3 := ToBytes(saved, 8) + after4;
    var after2 := ToBytes(fingerprint, 8) + after3;
    var after1 := ToBytes(VERSION, 4) + after2;
    TakeBytesOf(MAGIC, after1);
    TakeWordOf(VERSION, 4, after2);
    TakeWordOf(fingerprint, 8, after3);
    TakeWordOf(saved, 8, after4);
    TakeWordOf(|records|, 4, body);
    TakeRecordsOf(records, slide, map[]);
    assert NoneIn(records, map[]);
  }

  /** A file written by another build is ignored. */
  lemma OtherBuildIsStale(fingerprint: u64, other: u64, saved: u64, now: u64, records: seq<Record>)
    requires AllEncodable(records) && other != fingerprint
    requires |EncodeFile(fingerprint, saved, records)| <= MAXIMUM_FILE_SIZE
    ensures LoadFile(EncodeFile(fingerprint, saved, records), other, now) == Stale
  {
    hide ToBytes, TakeWord, TakeBytes, EncodeRecords, TakeRecords;
    var after4 := ToBytes(|records|, 4) + EncodeRecords(records);
    var after3 := ToBytes(saved, 8) + after4;
    var after2 := ToBytes(fingerprint, 8) + after3;
    TakeBytesOf(MAGIC, ToBytes(VERSION, 4) + after2);
    TakeWordOf(VERSION, 4, after2);
    TakeWordOf(fingerprint, 8, after3);
  }

  // ----- what is saved: live blocks, and loaded blocks that nobody used

  function Unused(persistent: seq<Record>, live: set<u64>): seq<Record> {
    if persistent == [] then []
    else (if persistent[0].address in live then [] else [persistent[0]]) + Unused(persistent[1..], live)
  }

  ghost function Addresses(records: seq<Record>): set<u64> {
    set r | r in records :: r.address
  }

  ghost function SavedRecords(live: seq<Record>, persistent: seq<Record>): seq<Record> {
    live + Unused(persistent, Addresses(live))
  }

  lemma {:induction false} UnusedMembers(persistent: seq<Record>, live: set<u64>)
    requires DistinctAddresses(persistent)
    ensures forall r :: r in Unused(persistent, live) <==> r in persistent && r.address !in live
    ensures DistinctAddresses(Unused(persistent, live))
    ensures |Unused(persistent, live)| <= |persistent|
  {
    if persistent != [] {
      var first, others := persistent[0], persistent[1..];
      assert DistinctAddresses(others) by {
        assert forall i | 0 <= i < |others| :: others[i] == persistent[i + 1];
      }
      UnusedMembers(others, live);
      var kept := Unused(others, live);
      forall i | 0 <= i < |kept|
        ensures kept[i].address != first.address
      {
        assert kept[i] in others;
        var j :| 0 <= j < |others| && others[j] == kept[i];
        assert persistent[j + 1] == kept[i];
      }
      assert persistent == [first] + others;
    }
  }

  /** Every address that is live or was loaded is saved exactly once, and a live block wins over a
      loaded one. */
  lemma SavedExactlyOnce(live: seq<Record>, persistent: seq<Record>)
    requires DistinctAddresses(live) && DistinctAddresses(persistent)
    ensures DistinctAddresses(SavedRecords(live, persistent))
    ensures forall r :: r in SavedRecords(live, persistent) <==>
      r in live || (r in persistent && forall l | l in live :: l.address != r.address)
    ensures Addresses(SavedRecords(live, persistent)) == Addresses(live) + Addresses(persistent)
  {
    var names := Addresses(live);
    var unused := Unused(persistent, names);
    UnusedMembers(persistent, names);
    forall i, j | 0 <= i < |live| && 0 <= j < |unused|
      ensures live[i].address != unused[j].address
    {
      assert live[i] in live && unused[j] in unused;
    }
    var saved := live + unused;
    forall a | a in Addresses(persistent)
      ensures a in Addresses(saved)
    {
      var r :| r in persistent && r.address == a;
      if a in names {
        var l :| l in live && l.address == a;
        assert l in saved;
      } else {
        assert r in saved;
      }
    }
    forall a | a in names
      ensures a in Addresses(saved)
    {
      var l :| l in live && l.address == a;
      assert l in saved;
    }
  }

  // ----- three processes

  /** `order` lists the blocks of a map, in whatever order the map is walked. */
  ghost predicate Lists(order: seq<Record>, blocks: map<u64, Record>) {
    DistinctAddresses(order) &&
      (forall i | 0 <= i < |order| :: order[i].address in blocks && blocks[order[i].address] == order[i]) &&
    (forall a | a in blocks :: exists i :: 0 <= i < |order| && order[i].address == a)
  }

  /** A lookup in `ByAddress`. */
  lemma {:induction false} ByAddressAt(records: seq<Record>, slide: u64, blocks: map<u64, Record>)
    requires DistinctAddresses(records) && NoneIn(records, blocks)
    ensures var m := ByAddress(records, slide, blocks);
      (forall a | a in blocks :: a in m && m[a] == blocks[a]) &&
      (forall i | 0 <= i < |records| :: records[i].address in m && m[records[i].address] == Moved(records[i], slide)) &&
      (forall a | a in m :: a in blocks || exists i :: 0 <= i < |records| && records[i].address == a)
  {
    hide Moved;
    if records != [] {
      var first, others := records[0], records[1..];
      var more := blocks[first.address := Moved(first, slide)];
      assert forall i | 0 <= i < |others| :: others[i] == records[i + 1];
      ByAddressAt(others, slide, more);
      var m := ByAddress(records, slide, blocks);
      assert forall i | 1 <= i < |records| :: records[i] == others[i - 1];
      forall a | a in m && a !in blocks
        ensures exists i :: 0 <= i < |records| && records[i].address == a
      {
        if a in more {
          assert records[0].address == a;
        } else {
          var i :| 0 <= i < |others| && others[i].address == a;
          assert records[i + 1].address == a;
        }
      }
    }
  }

  lemma MovedByZero(r: Record)
    requires Loadable(r, 0)
    ensures Moved(r, 0) == r
  {
    RelocateByZero(r.program.bytes, r.program.pointerRelocations);
  }

  /** At one anchor, loading what was saved gives back every record as it was, and no other. */
  lemma SaveThenLoadHere(fingerprint: u64, anchor: u64, records: seq<Record>)
    requires AllEncodable(records) && |EncodeFile(fingerprint, anchor, records)| <= MAXIMUM_FILE_SIZE &&
      Restorable(records, 0)
    ensures var loaded := LoadFile(EncodeFile(fingerprint, anchor, records), fingerprint, anchor);
      loaded.Blocks? && Lists(records, loaded.blocks)
  {
    hide LoadFile, EncodeFile, Loadable, Moved;
    SaveThenLoad(fingerprint, anchor, anchor, records);
    ByAddressAt(records, 0, map[]);
    forall i | 0 <= i < |records|
      ensures Moved(records[i], 0) == records[i]
    {
      MovedByZero(records[i]);
    }
  }

  lemma MovedTwice(r: Record, first: u64, second: u64)
    requires AllSpaced(r.program.pointerRelocations) && Loadable(r, first)
    ensures Loadable(r, Add64(first, second)) && Loadable(Moved(r, first), second)
    ensures Moved(Moved(r, first), second) == Moved(r, Add64(first, second))
  {
    hide RelocateAll, Add64;
    var offsets := r.program.pointerRelocations;
    RelocationSlides(r.program.bytes, offsets, first);
    RelocationSlides(r.program.bytes, offsets, Add64(first, second));
    RelocationComposes(r.program.bytes, offsets, first, second);
  }

  lemma SlidesChain(a: u64, b: u64, c: u64)
    ensures Add64(Sub64(b, a), Sub64(c, b)) == Sub64(c, a)
  {
  }

  /** One address in the last of three processes. */
  lemma ChainedBlock(records: seq<Record>, order: seq<Record>, first: u64, second: u64, a: u64)
    requires DistinctAddresses(records) && AllLoadable(records, first)
    requires forall i | 0 <= i < |records| :: AllSpaced(records[i].program.pointerRelocations)
    requires Lists(order, ByAddress(records, first, map[]))
    ensures var m, n := ByAddress(order, second, map[]), ByAddress(records, Add64(first, second), map[]);
      (a in m <==> a in n) && (a in m ==> m[a] == n[a])
  {
    hide Moved, ByAddress, Loadable, Add64;
    var loaded := ByAddress(records, first, map[]);
    ByAddressAt(records, first, map[]);
    ByAddressAt(records, Add64(first, second), map[]);
    ByAddressAt(order, second, map[]);
    var m, n := ByAddress(order, second, map[]), ByAddress(records, Add64(first, second), map[]);
    if a in m {
      var i :| 0 <= i < |order| && order[i].address == a;
      assert a in loaded;
      var j :| 0 <= j < |records| && records[j].address == a;
      MovedTwice(records[j], first, second);
      assert m[order[i].address] == Moved(order[i], second);
      assert order[i] == loaded[a] == Moved(records[j], first);
      assert n[records[j].address] == Moved(records[j], Add64(first, second));
    }
    if a in n {
      var j :| 0 <= j < |records| && records[j].address == a;
      assert records[j].address in loaded;
      var i :| 0 <= i < |order| && order[i].address == a;
      assert order[i].address in m;
    }
  }

  lemma ListsLoadable(records: seq<Record>, order: seq<Record>, first: u64, second: u64)
    requires DistinctAddresses(records) && AllLoadable(records, first)
    requires forall i | 0 <= i < |records| :: AllSpaced(records[i].program.pointerRelocations)
    requires Lists(order, ByAddress(records, first, map[]))
    ensures AllLoadable(order, second) && AllLoadable(records, Add64(first, second))
  {
    hide Moved, ByAddress, Loadable, Add64;
    var loaded := ByAddress(records, first, map[]);
    ByAddressAt(records, first, map[]);
    forall i | 0 <= i < |order|
      ensures Loadable(order[i], second)
    {
      assert order[i].address in loaded;
      var j :| 0 <= j < |records| && records[j].address == order[i].address;
      assert loaded[records[j].address] == Moved(records[j], first);
      MovedTwice(records[j], first, second);
    }
    forall j | 0 <= j < |records|
      ensures Loadable(records[j], Add64(first, second))
    {
      MovedTwice(records[j], first, second);
    }
  }

  lemma LoadableIsEncodable(records: seq<Record>, slide: u64)
    requires |records| <= MAXIMUM_RECORDS && AllLoadable(records, slide)
    ensures AllEncodable(records)
  {
    forall i | 0 <= i < |records|
      ensures Encodable(records[i])
    {
      assert Loadable(records[i], slide);
    }
  }

  /** Saving at one anchor, loading and saving again at a second and loading at a third gives the
      blocks that loading the first file at the third would give. */
  lemma ThreeAnchors(fingerprint: u64, a: u64, b: u64, c: u64, records: seq<Record>, order: seq<Record>)
    requires AllEncodable(records) && Restorable(records, Sub64(b, a))
    requires forall i | 0 <= i < |records| :: AllSpaced(records[i].program.pointerRelocations)
    requires |EncodeFile(fingerprint, a, records)| <= MAXIMUM_FILE_SIZE
    requires LoadFile(EncodeFile(fingerprint, a, records), fingerprint, b).Blocks?
    requires Lists(order, LoadFile(EncodeFile(fingerprint, a, records), fingerprint, b).blocks)
    requires |order| <= MAXIMUM_RECORDS && |EncodeFile(fingerprint, b, order)| <= MAXIMUM_FILE_SIZE
    ensures LoadFile(EncodeFile(fingerprint, b, order), fingerprint, c) ==
      LoadFile(EncodeFile(fingerprint, a, records), fingerprint, c)
    ensures LoadFile(EncodeFile(fingerprint, b, order), fingerprint, c).Blocks?
  {
    hide EncodeFile, LoadFile, ByAddress, Add64, Sub64, AllLoadable, DistinctAddresses;
    var first, second := Sub64(b, a), Sub64(c, b);
    SlidesChain(a, b, c);
    SaveThenLoad(fingerprint, a, b, records);
    SaveThenLoad(fingerprint, a, c, records);
    ListsLoadable(records, order, first, second);
    LoadableIsEncodable(order, second);
    SaveThenLoad(fingerprint, b, c, order);
    assert DistinctAddresses(order);
    var m, n := ByAddress(order, second, map[]), ByAddress(records, Add64(first, second), map[]);
    forall x: u64
      ensures (x in m <==> x in n) && (x in m ==> m[x] == n[x])
    {
      ChainedBlock(records, order, first, second, x);
    }
    assert m == n;
  }

  // ----- the reader and the two loops

  class PersistentReader {
    const bytes: seq<byte>
    var offset: nat

    ghost predicate Valid()
      reads this
    {
      offset <= |bytes|
    }

    ghost function Remaining(): seq<byte>
      reads this
      requires Valid()
    {
      bytes[offset..]
    }

    constructor (bytes: seq<byte>)
      ensures Valid() && Remaining() == bytes
    {
      this.bytes := bytes;
      offset := 0;
    }

    /** The exception of a truncated file is an absent result. */
    method ReadBytes(size: nat) returns (r: Option<seq<byte>>)
      requires Valid()
      modifies this
      ensures Valid()
      ensures r.None? <==> TakeBytes(old(Remaining()), size).Truncated?
      ensures r.Some? ==> TakeBytes(old(Remaining()), size) == Taken(r.value, Remaining())
      ensures r.None? ==> Remaining() == old(Remaining())
    {
      if size > |bytes| - offset {
        return None;
      }
      r := Some(bytes[offset..offset + size]);
      assert bytes[offset..][..size] == bytes[offset..offset + size];
      assert bytes[offset..][size..] == bytes[offset + size..];
      offset := offset + size;
    }

    method ReadInteger(size: nat) returns (r: Option<nat>)
      requires Valid()
      modifies this
      ensures Valid()
      ensures r.None? <==> TakeWord(old(Remaining()), size).Truncated?
      ensures r.Some? ==> TakeWord(old(Remaining()), size) == Taken(r.value, Remaining())
      ensures r.None? ==> Remaining() == old(Remaining())
    {
      hide FromBytes;
      var part := ReadBytes(size);
      if part.None? {
        return None;
      }
      var value := ReadWord(part.value, 0, size);
      assert part.value[0..size] == part.value;
      r := Some(value);
    }

    method Finished() returns (finished: bool)
      requires Valid()
      ensures finished == (Remaining() == [])
    {
      finished := offset == |bytes|;
    }
  }

  method ReadHeader(reader: PersistentReader) returns (h: Option<Header>)
    requires reader.Valid()
    modifies reader
    ensures reader.Valid()
    ensures h.None? <==> TakeHeader(old(reader.Remaining())).Truncated?
    ensures h.Some? ==> TakeHeader(old(reader.Remaining())) == Taken(h.value, reader.Remaining())
  {
    hide TakeWord;
    var address := reader.ReadInteger(8);
    if address.None? { return None; }
    var maximum := reader.ReadInteger(8);
    if maximum.None? { return None; }
    var source := reader.ReadInteger(4);
    if source.None? { return None; }
    var program := reader.ReadInteger(4);
    if program.None? { return None; }
    var count := reader.ReadInteger(4);
    if count.None? { return None; }
    var flags := reader.ReadInteger(4);
    if flags.None? { return None; }
    var call := reader.ReadInteger(8);
    if call.None? { return None; }
    var last := reader.ReadInteger(8);
    if last.None? { return None; }
    h := Some(Header(address.value, maximum.value, source.value, program.value, count.value, flags.value, call.value,
      last.value));
  }

  method ReadRelocations(reader: PersistentReader, count: nat) returns (r: Option<seq<u32>>)
    requires reader.Valid()
    modifies reader
    ensures reader.Valid()
    ensures r.None? <==> TakeRelocations(old(reader.Remaining()), count).Truncated?
    ensures r.Some? ==> TakeRelocations(old(reader.Remaining()), count) == Taken(r.value, reader.Remaining())
  {
    var offsets: seq<u32> := [];
    ghost var start := reader.Remaining();
    NoOffsets(TakeRelocations(start, count));
    for i := 0 to count
      invariant reader.Valid()
      invariant TakeRelocations(start, count) == AfterOffsets(offsets, TakeRelocations(reader.Remaining(), count - i))
    {
      hide TakeWord;
      ghost var before := reader.Remaining();
      var offset := reader.ReadInteger(4);
      if offset.None? {
        return None;
      }
      NextOffset(before, count - i, offsets);
      offsets := offsets + [offset.value];
    }
    assert offsets + [] == offsets;
    r := Some(offsets);
  }

  lemma NoOffsets(t: Taken<seq<u32>>)
    ensures AfterOffsets([], t) == t
  {
    if t.Taken? { assert [] + t.value == t.value; }
  }

  ghost function AfterOffsets(offsets: seq<u32>, t: Taken<seq<u32>>): Taken<seq<u32>> {
    if t.Truncated? then Truncated else Taken(offsets + t.value, t.rest)
  }

  lemma NextOffset(s: seq<byte>, n: nat, offsets: seq<u32>)
    requires n > 0 && TakeWord(s, 4).Taken?
    ensures var first := TakeWord(s, 4);
      AfterOffsets(offsets, TakeRelocations(s, n)) ==
        AfterOffsets(offsets + [first.value], TakeRelocations(first.rest, n - 1))
  {
    hide TakeWord;
    var first := TakeWord(s, 4);
    var others := TakeRelocations(first.rest, n - 1);
    if others.Taken? {
      assert offsets + ([first.value] + others.value) == offsets + [first.value] + others.value;
    }
  }

  method ReadRecord(reader: PersistentReader, oldAnchor: u64, anchor: u64) returns (record: Option<Record>)
    requires reader.Valid()
    modifies reader
    ensures reader.Valid()
    ensures record.None? <==> TakeRecord(old(reader.Remaining()), Sub64(anchor, oldAnchor)).Truncated?
    ensures record.Some? ==>
      TakeRecord(old(reader.Remaining()), Sub64(anchor, oldAnchor)) == Taken(record.value, reader.Remaining())
  {
    hide TakeHeader, TakeBytes, TakeRelocations, RelocateAll, And;
    var h := ReadHeader(reader);
    if h.None? || !HeaderAccepted(h.value) { return None; }
    var source := reader.ReadBytes(h.value.sourceSize);
    if source.None? { return None; }
    var program := reader.ReadBytes(h.value.programSize);
    if program.None? { return None; }
    var relocations := ReadRelocations(reader, h.value.relocationCount);
    if relocations.None? { return None; }
    var code := new byte[|program.value|](i requires 0 <= i < |program.value| => program.value[i]);
    assert code[..] == program.value;
    var relocated := RelocateProgram(code, relocations.value, oldAnchor, anchor);
    if !relocated { return None; }
    var call := if And(h.value.flags, 2) != 0 then Some(h.value.callReturnAddress) else None;
    record := Some(Record(h.value.address, h.value.maximumInstructions, source.value,
      Program(code[..], relocations.value),
      And(h.value.flags, 1) != 0, call, h.value.lastInstructionAddress));
  }

  /** Any failure leaves the cache without persistent blocks. */
  function BlocksOf(l: Loaded): map<u64, Record> {
    if l.Blocks? then l.blocks else map[]
  }

  method LoadPersistent(bytes: seq<byte>, fingerprint: u64, anchor: u64) returns (blocks: map<u64, Record>)
    ensures blocks == BlocksOf(LoadFile(bytes, fingerprint, anchor))
  {
    hide TakeWord, TakeBytes, TakeRecord;
    if |bytes| > MAXIMUM_FILE_SIZE { return map[]; }
    var reader := new PersistentReader(bytes);
    var magic := reader.ReadBytes(8);
    if magic.None? || magic.value != MAGIC { return map[]; }
    var version := reader.ReadInteger(4);
    if version.None? || version.value != VERSION { return map[]; }
    var built := reader.ReadInteger(8);
    if built.None? || built.value != fingerprint { return map[]; }
    var oldAnchor := reader.ReadInteger(8);
    if oldAnchor.None? { return map[]; }
    var count := reader.ReadInteger(4);
    if count.None? || count.value > MAXIMUM_RECORDS { return map[]; }
    var complete: bool;
    blocks, complete := ReadRecords(reader, count.value, oldAnchor.value, anchor);
    if !complete { return map[]; }
    var finished := reader.Finished();
    if !finished { return map[]; }
  }

  method ReadRecords(reader: PersistentReader, count: nat, oldAnchor: u64, anchor: u64)
    returns (blocks: map<u64, Record>, complete: bool)
    requires reader.Valid()
    modifies reader
    ensures reader.Valid()
    ensures var t := TakeRecords(old(reader.Remaining()), count, Sub64(anchor, oldAnchor), map[]);
      complete == t.Taken? && (complete ==> t == Taken(blocks, reader.Remaining()))
  {
    hide TakeRecord, Sub64;
    ghost var slide := Sub64(anchor, oldAnchor);
    blocks, complete := map[], true;
    for i := 0 to count
      invariant reader.Valid() && complete
      invariant TakeRecords(old(reader.Remaining()), count, slide, map[]) ==
        TakeRecords(reader.Remaining(), count - i, slide, blocks)
    {
      var record := ReadRecord(reader, oldAnchor, anchor);
      if record.None? || record.value.address in blocks {
        return blocks, false;
      }
      blocks := blocks[record.value.address := record.value];
    }
  }

  // ----- writing in a loop

  lemma {:induction false} RelocationsJoin(a: seq<u32>, b: seq<u32>)
    ensures EncodeRelocations(a + b) == EncodeRelocations(a) + EncodeRelocations(b)
  {
    hide ToBytes;
    if a == [] {
      assert a + b == b;
    } else {
      RelocationsJoin(a[1..], b);
      assert (a + b)[1..] == a[1..] + b;
    }
  }

  lemma RecordTail(r: Record, t: seq<byte>)
    ensures EncodeRecord(r, t) == EncodeRecord(r, []) + t
  {
    hide ToBytes, EncodeRelocations, Flags;
    var relocations := EncodeRelocations(r.program.pointerRelocations);
    var after3, after2 := relocations + [], r.program.bytes + (relocations + []);
    assert r.source + (r.program.bytes + (relocations + t)) == r.source + after2 + t;
    HeaderTail(HeaderOf(r), r.source + after2, t);
  }

  lemma HeaderTail(h: Header, s: seq<byte>, t: seq<byte>)
    ensures EncodeHeader(h, s + t) == EncodeHeader(h, s) + t
  {
    hide ToBytes;
    var last := ToBytes(h.lastInstructionAddress, 8);
    var call := ToBytes(h.callReturnAddress, 8);
    var flags := ToBytes(h.flags, 4);
    var count := ToBytes(h.relocationCount, 4);
    var program := ToBytes(h.programSize, 4);
    var source := ToBytes(h.sourceSize, 4);
    var maximum := ToBytes(h.maximumInstructions, 8);
    Associates(last, s, t);
    Associates(call, last + s, t);
    Associates(flags, call + (last + s), t);
    Associates(count, flags + (call + (last + s)), t);
    Associates(program, count + (flags + (call + (last + s))), t);
    Associates(source, program + (count + (flags + (call + (last + s)))), t);
    Associates(maximum, source + (program + (count + (flags + (call + (last + s))))), t);
    Associates(ToBytes(h.address, 8), maximum + (source + (program + (count + (flags + (call + (last + s)))))), t);
  }

  lemma Associates(a: seq<byte>, b: seq<byte>, c: seq<byte>)
    ensures a + (b + c) == a + b + c
  {
  }

  lemma {:induction false} RecordsJoin(a: seq<Record>, r: Record)
    ensures EncodeRecords(a + [r]) == EncodeRecords(a) + EncodeRecord(r, [])
  {
    hide EncodeRecord;
    if a == [] {
      assert a + [r] == [r] && [r][1..] == [];
    } else {
      RecordsJoin(a[1..], r);
      assert (a + [r])[1..] == a[1..] + [r];
      RecordTail(a[0], EncodeRecords(a[1..]));
      RecordTail(a[0], EncodeRecords(a[1..]) + EncodeRecord(r, []));
      Associates(EncodeRecord(a[0], []), EncodeRecords(a[1..]), EncodeRecord(r, []));
    }
  }

  method AppendRecord(bytes: seq<byte>, r: Record) returns (out: Option<seq<byte>>)
    ensures out == if Encodable(r) then Some(bytes + EncodeRecord(r, [])) else None
  {
    hide ToBytes, Flags, EncodeRelocations, EncodeHeader;
    if |r.source| > U32_LIMIT - 1 || |r.program.bytes| > U32_LIMIT - 1 ||
      |r.program.pointerRelocations| > U32_LIMIT - 1 {
      return None;
    }
    var header := AppendHeader(HeaderOf(r));
    var b := header + r.source;
    b := b + r.program.bytes;
    b := AppendRelocations(b, r.program.pointerRelocations);
    var relocations := EncodeRelocations(r.program.pointerRelocations);
    HeaderTail(HeaderOf(r), [], r.source + (r.program.bytes + (relocations + [])));
    assert [] + (r.source + (r.program.bytes + (relocations + []))) ==
      r.source + (r.program.bytes + (relocations + []));
    assert b == header + (r.source + (r.program.bytes + (relocations + [])));
    out := Some(bytes + b);
  }

  method AppendHeader(h: Header) returns (b: seq<byte>)
    ensures b == EncodeHeader(h, [])
  {
    hide ToBytes;
    b := Append([], h.address, 8);
    b := Append(b, h.maximumInstructions, 8);
    b := Append(b, h.sourceSize, 4);
    b := Append(b, h.programSize, 4);
    b := Append(b, h.relocationCount, 4);
    b := Append(b, h.flags, 4);
    b := Append(b, h.callReturnAddress, 8);
    b := Append(b, h.lastInstructionAddress, 8);
  }

  method AppendRelocations(bytes: seq<byte>, offsets: seq<u32>) returns (b: seq<byte>)
    ensures b == bytes + EncodeRelocations(offsets)
  {
    hide ToBytes;
    b := bytes;
    for i := 0 to |offsets|
      invariant b == bytes + EncodeRelocations(offsets[..i])
    {
      assert offsets[..i + 1] == offsets[..i] + [offsets[i]];
      RelocationsJoin(offsets[..i], [offsets[i]]);
      OneOffset(offsets[i]);
      b := Append(b, offsets[i], 4);
    }
    assert offsets[..|offsets|] == offsets;
  }

  lemma OneOffset(offset: u32)
    ensures EncodeRelocations([offset]) == ToBytes(offset, 4)
  {
    assert [offset][1..] == [];
  }

  method SaveRecords(fingerprint: u64, anchor: u64, records: seq<Record>) returns (file: Option<seq<byte>>)
    ensures file == if AllEncodable(records) then Some(EncodeFile(fingerprint, anchor, records)) else None
  {
    hide ToBytes, EncodeRecord, Encodable;
    if |records| > U32_LIMIT - 1 {
      return None;
    }
    var prologue := Append(MAGIC, VERSION, 4);
    prologue := Append(prologue, fingerprint, 8);
    prologue := Append(prologue, anchor, 8);
    prologue := Append(prologue, |records|, 4);
    var bytes := prologue;
    for i := 0 to |records|
      invariant bytes == prologue + EncodeRecords(records[..i])
      invariant forall j | 0 <= j < i :: Encodable(records[j])
    {
      var more := AppendRecord(bytes, records[i]);
      if more.None? {
        return None;
      }
      assert records[..i + 1] == records[..i] + [records[i]];
      RecordsJoin(records[..i], records[i]);
      bytes := more.value;
    }
    assert records[..|records|] == records;
    file := Some(bytes);
    PrologueJoins(fingerprint, anchor, |records|, EncodeRecords(records));
  }

  lemma PrologueJoins(fingerprint: u64, anchor: u64, n: nat, body: seq<byte>)
    ensures MAGIC + ToBytes(VERSION, 4) + ToBytes(fingerprint, 8) + ToBytes(anchor, 8) + ToBytes(n, 4) + body ==
      MAGIC + (ToBytes(VERSION, 4) + (ToBytes(fingerprint, 8) + (ToBytes(anchor, 8) + (ToBytes(n, 4) + body))))
  {
    hide ToBytes;
  }

  /** The live blocks are written first, then the loaded blocks whose address is not live. */
  method SavePersistent(fingerprint: u64, anchor: u64, live: seq<Record>, persistent: seq<Record>)
    returns (file: Option<seq<byte>>)
    ensures var records := SavedRecords(live, persistent);
      file == if AllEncodable(records) then Some(EncodeFile(fingerprint, anchor, records)) else None
  {
    hide EncodeFile, Encodable;
    var addresses: set<u64> := {};
    for i := 0 to |live|
      invariant addresses == Addresses(live[..i])
    {
      assert live[..i + 1] == live[..i] + [live[i]];
      addresses := addresses + {live[i].address};
    }
    assert live[..|live|] == live;
    var records := live;
    for i := 0 to |persistent|
      invariant records == live + Unused(persistent[..i], addresses)
    {
      assert persistent[..i + 1] == persistent[..i] + [persistent[i]];
      UnusedJoin(persistent[..i], persistent[i], addresses);
      if persistent[i].address !in addresses {
        records := records + [persistent[i]];
      }
    }
    assert persistent[..|persistent|] == persistent;
    file := SaveRecords(fingerprint, anchor, records);
  }

  lemma {:induction false} UnusedJoin(a: seq<Record>, r: Record, live: set<u64>)
    ensures Unused(a + [r], live) == Unused(a, live) + (if r.address in live then [] else [r])
  {
    if a == [] {
      assert a + [r] == [r] && [r][1..] == [];
    } else {
      assert (a + [r])[1..] == a[1..] + [r];
      UnusedJoin(a[1..], r, live);
    }
  }
}
