/** Where everything stands in the file of translations, by byte offset. */
module FileLayout {
  import opened Options
  import opened Words
  import opened ByteOrder
  import opened Assembler
  import opened PersistentCodec

  /** A little-endian number of `n` bytes. */
  predicate Holds(b: seq<byte>, at: nat, n: nat, x: nat) {
    at + n <= |b| && FromBytes(b[at..at + n]) == x
  }

  predicate HoldsBytes(b: seq<byte>, at: nat, part: seq<byte>) {
    at + |part| <= |b| && b[at..at + |part|] == part
  }

  lemma FieldHolds(x: nat, n: nat, rest: seq<byte>)
    requires x < Pow2(8 * n)
    ensures Holds(ToBytes(x, n) + rest, 0, n, x)
  {
    assert (ToBytes(x, n) + rest)[0..n] == ToBytes(x, n);
    BytesRoundTrip(x, n);
  }

  /** What stands behind `a` stands that much later. */
  lemma StandsLater(a: seq<byte>, rest: seq<byte>)
    ensures forall at: nat, m: nat, y: nat :: Holds(rest, at, m, y) ==> Holds(a + rest, |a| + at, m, y)
    ensures forall at: nat, part :: HoldsBytes(rest, at, part) ==> HoldsBytes(a + rest, |a| + at, part)
  {
    hide FromBytes;
    forall at: nat, m: nat, y: nat | Holds(rest, at, m, y)
      ensures Holds(a + rest, |a| + at, m, y)
    {
      assert (a + rest)[|a| + at..|a| + at + m] == rest[at..at + m];
    }
    forall at: nat, part | HoldsBytes(rest, at, part)
      ensures HoldsBytes(a + rest, |a| + at, part)
    {
      assert (a + rest)[|a| + at..|a| + at + |part|] == rest[at..at + |part|];
    }
  }

  lemma FourAndEight()
    ensures Pow2(8 * 4) == U32_LIMIT && Pow2(8 * 8) == U64_LIMIT
  {
    WordPowers();
  }

  /** One more number in front: its own place, and the others that much later. */
  lemma InFront(x: nat, n: nat, rest: seq<byte>)
    requires x < Pow2(8 * n)
    ensures Holds(ToBytes(x, n) + rest, 0, n, x)
    ensures forall at: nat, m: nat, y: nat ::
      Holds(rest, at, m, y) ==> Holds(ToBytes(x, n) + rest, n + at, m, y)
    ensures forall at: nat, part ::
      HoldsBytes(rest, at, part) ==> HoldsBytes(ToBytes(x, n) + rest, n + at, part)
  {
    FieldHolds(x, n, rest);
    StandsLater(ToBytes(x, n), rest);
  }

  /** The fields of a record's header, and what follows them. */
  lemma HeaderLayout(h: Header, tail: seq<byte>)
    requires IsHeader(h)
    ensures var b := EncodeHeader(h, tail);
      Holds(b, 0, 8, h.address) && Holds(b, 8, 8, h.maximumInstructions) && Holds(b, 16, 4, h.sourceSize) &&
      Holds(b, 20, 4, h.programSize) && Holds(b, 24, 4, h.relocationCount) && Holds(b, 28, 4, h.flags) &&
      Holds(b, 32, 8, h.callReturnAddress) && Holds(b, 40, 8, h.lastInstructionAddress) && b[48..] == tail
  {
    hide ToBytes, FromBytes, Pow2, Holds, HoldsBytes;
    FourAndEight();
    var last := ToBytes(h.lastInstructionAddress, 8) + tail;
    var call := ToBytes(h.callReturnAddress, 8) + last;
    var flags := ToBytes(h.flags, 4) + call;
    var count := ToBytes(h.relocationCount, 4) + flags;
    var program := ToBytes(h.programSize, 4) + count;
    var source := ToBytes(h.sourceSize, 4) + program;
    var maximum := ToBytes(h.maximumInstructions, 8) + source;
    InFront(h.lastInstructionAddress, 8, tail);
    InFront(h.callReturnAddress, 8, last);
    InFront(h.flags, 4, call);
    InFront(h.relocationCount, 4, flags);
    InFront(h.programSize, 4, count);
    InFront(h.sourceSize, 4, program);
    InFront(h.maximumInstructions, 8, source);
    InFront(h.address, 8, maximum);
    HeaderTailStarts(h, tail);
  }

  lemma HeaderTailStarts(h: Header, tail: seq<byte>)
    ensures EncodeHeader(h, tail)[48..] == tail
  {
    hide ToBytes;
  }

  lemma {:induction false} OffsetsLayout(offsets: seq<u32>, tail: seq<byte>)
    ensures |EncodeRelocations(offsets)| == 4 * |offsets|
    ensures forall i | 0 <= i < |offsets| :: Holds(EncodeRelocations(offsets) + tail, 4 * i, 4, offsets[i])
    decreases |offsets|
  {
    hide ToBytes, FromBytes, Pow2, Holds, HoldsBytes;
    if offsets != [] {
      FourAndEight();
      var rest := EncodeRelocations(offsets[1..]);
      OffsetsLayout(offsets[1..], tail);
      InFront(offsets[0], 4, rest + tail);
      assert EncodeRelocations(offsets) + tail == ToBytes(offsets[0], 4) + (rest + tail);
      forall i | 0 < i < |offsets|
        ensures Holds(EncodeRelocations(offsets) + tail, 4 * i, 4, offsets[i])
      {
        assert Holds(rest + tail, 4 * (i - 1), 4, offsets[1..][i - 1]);
        assert 4 + 4 * (i - 1) == 4 * i;
      }
    }
  }

  /** Bit 0 says that the block jumps to itself inside, bit 1 that it has a return address. */
  lemma FlagsLayout(r: Record)
    ensures Flags(r) == (if r.hasInternalSelfEdge then 1 else 0) + if r.callReturnAddress.Some? then 2 else 0
  {
    assert Or(0, 0) == 0 && Or(1, 0) == 1 && Or(0, 2) == 2 && Or(1, 2) == 3;
  }

  /** A record: its header, then the source bytes, the program's bytes and the pointer offsets. */
  lemma RecordLayout(r: Record, tail: seq<byte>)
    requires Encodable(r)
    ensures var b, s, p := EncodeRecord(r, tail), |r.source|, |r.program.bytes|;
      var k := |r.program.pointerRelocations|;
      Holds(b, 0, 8, r.address) && Holds(b, 8, 8, r.maximumInstructions) && Holds(b, 16, 4, s) && Holds(b, 20, 4, p) &&
      Holds(b, 24, 4, k) &&
      Holds(b, 28, 4, (if r.hasInternalSelfEdge then 1 else 0) + if r.callReturnAddress.Some? then 2 else 0) &&
      Holds(b, 32, 8, if r.callReturnAddress.Some? then r.callReturnAddress.value else 0) &&
      Holds(b, 40, 8, r.lastInstructionAddress) && HoldsBytes(b, 48, r.source) &&
      HoldsBytes(b, 48 + s, r.program.bytes) &&
      (forall i | 0 <= i < k :: Holds(b, 48 + s + p + 4 * i, 4, r.program.pointerRelocations[i])) &&
      |b| >= 48 + s + p + 4 * k && b[48 + s + p + 4 * k..] == tail
  {
    hide EncodeHeader, EncodeRelocations, Holds, HoldsBytes, Flags;
    FlagsLayout(r);
    RecordBody(r, tail);
    HeaderLayout(HeaderOf(r), RecordBytes(r, tail));
  }

  function RecordBytes(r: Record, tail: seq<byte>): seq<byte> {
    r.source + (r.program.bytes + (EncodeRelocations(r.program.pointerRelocations) + tail))
  }

  /** What stands behind the header. */
  lemma RecordBody(r: Record, tail: seq<byte>)
    requires Encodable(r)
    ensures var b, s, p := EncodeRecord(r, tail), |r.source|, |r.program.bytes|;
      var k := |r.program.pointerRelocations|;
      HoldsBytes(b, 48, r.source) && HoldsBytes(b, 48 + s, r.program.bytes) &&
      (forall i | 0 <= i < k :: Holds(b, 48 + s + p + 4 * i, 4, r.program.pointerRelocations[i])) &&
      |b| >= 48 + s + p + 4 * k && b[48 + s + p + 4 * k..] == tail
  {
    hide ToBytes, EncodeRelocations, FromBytes, Flags, Holds, HoldsBytes;
    var b, body := EncodeRecord(r, tail), RecordBytes(r, tail);
    HeaderTailStarts(HeaderOf(r), body);
    BodyLayout(r, tail);
    assert b[..48] + body == b by { hide EncodeHeader; }
    StandsLater(b[..48], body);
    hide EncodeHeader;
    var s, p, k := |r.source|, |r.program.bytes|, |r.program.pointerRelocations|;
    assert b[48..][s + p + 4 * k..] == b[48 + s + p + 4 * k..];
    forall i | 0 <= i < k
      ensures Holds(b, 48 + s + p + 4 * i, 4, r.program.pointerRelocations[i])
    {
      assert Holds(body, s + p + 4 * i, 4, r.program.pointerRelocations[i]);
      assert 48 + (s + p + 4 * i) == 48 + s + p + 4 * i;
    }
  }

  lemma BodyLayout(r: Record, tail: seq<byte>)
    ensures var b, s, p := RecordBytes(r, tail), |r.source|, |r.program.bytes|;
      var k := |r.program.pointerRelocations|;
      HoldsBytes(b, 0, r.source) && HoldsBytes(b, s, r.program.bytes) &&
      (forall i | 0 <= i < k :: Holds(b, s + p + 4 * i, 4, r.program.pointerRelocations[i])) &&
      |b| >= s + p + 4 * k && b[s + p + 4 * k..] == tail
  {
    hide EncodeRelocations, Holds;
    var offsets := EncodeRelocations(r.program.pointerRelocations) + tail;
    OffsetsLayout(r.program.pointerRelocations, tail);
    StandsLater(r.program.bytes, offsets);
    StandsLater(r.source, r.program.bytes + offsets);
    assert HoldsBytes(r.program.bytes + offsets, 0, r.program.bytes);
    var p := |r.program.bytes|;
    forall i | 0 <= i < |r.program.pointerRelocations|
      ensures Holds(r.program.bytes + offsets, p + 4 * i, 4, r.program.pointerRelocations[i])
    {
      assert Holds(offsets, 4 * i, 4, r.program.pointerRelocations[i]);
    }
    forall i | 0 <= i < |r.program.pointerRelocations|
      ensures Holds(RecordBytes(r, tail), |r.source| + p + 4 * i, 4, r.program.pointerRelocations[i])
    {
      var at := p + 4 * i;
      assert Holds(r.program.bytes + offsets, at, 4, r.program.pointerRelocations[i]);
      assert |r.source| + at == |r.source| + p + 4 * i;
    }
  }

  /** The file: eight bytes that name the format, its version, the build, the anchor, the number of
      records, and the records. */
  lemma PrologueLayout(fingerprint: u64, anchor: u64, records: seq<Record>)
    requires |records| < U32_LIMIT
    ensures var b := EncodeFile(fingerprint, anchor, records);
      HoldsBytes(b, 0, [0x52, 0x4F, 0x53, 0x41, 0x43, 0x30, 0x31, 0]) && Holds(b, 8, 4, 2) &&
      Holds(b, 12, 8, fingerprint) && Holds(b, 20, 8, anchor) && Holds(b, 28, 4, |records|) &&
      |b| >= 32 && b[32..] == EncodeRecords(records)
  {
    hide ToBytes, FromBytes, Pow2, EncodeRecords;
    FourAndEight();
    var all := EncodeRecords(records);
    var count := ToBytes(|records|, 4) + all;
    var origin := ToBytes(anchor, 8) + count;
    var built := ToBytes(fingerprint, 8) + origin;
    var version := ToBytes(VERSION, 4) + built;
    InFront(|records|, 4, all);
    InFront(anchor, 8, count);
    InFront(fingerprint, 8, origin);
    InFront(VERSION, 4, built);
    var b := EncodeFile(fingerprint, anchor, records);
    assert b == MAGIC + version;
    hide Holds;
    assert Holds(version, 0, 4, 2);
    assert Holds(built, 0, 8, fingerprint) && Holds(version, 4, 8, fingerprint);
    assert Holds(origin, 0, 8, anchor) && Holds(built, 8, 8, anchor) && Holds(version, 12, 8, anchor);
    assert Holds(count, 0, 4, |records|) && Holds(origin, 8, 4, |records|) && Holds(built, 16, 4, |records|);
    assert Holds(version, 20, 4, |records|);
    StandsLater(MAGIC, version);
  }

  /** Whatever the bytes: a file of another format, version or build is ignored, and nothing is loaded
      from a file that is not of this build or too long. */
  lemma OnlyOwnFiles(bytes: seq<byte>, fingerprint: u64, anchor: u64)
    ensures LoadFile(bytes, fingerprint, anchor).Stale? <==>
      |bytes| <= 0x2000_0000 && |bytes| >= 8 &&
      (bytes[..8] != [0x52, 0x4F, 0x53, 0x41, 0x43, 0x30, 0x31, 0] ||
       (|bytes| >= 12 && (!Holds(bytes, 8, 4, 2) || (|bytes| >= 20 && !Holds(bytes, 12, 8, fingerprint)))))
    ensures LoadFile(bytes, fingerprint, anchor).Blocks? ==>
      |bytes| <= 0x2000_0000 && |bytes| >= 32 && bytes[..8] == [0x52, 0x4F, 0x53, 0x41, 0x43, 0x30, 0x31, 0] &&
      Holds(bytes, 8, 4, 2) && Holds(bytes, 12, 8, fingerprint) && FromBytes(bytes[28..32]) <= 0x10_0000
  {
    hide FromBytes, TakeRecords;
    if 12 <= |bytes| { assert bytes[8..][..4] == bytes[8..12]; }
    if 20 <= |bytes| { assert bytes[8..][4..][..8] == bytes[12..20]; }
    if 32 <= |bytes| { assert bytes[8..][4..][8..][8..][..4] == bytes[28..32]; }
  }
}
