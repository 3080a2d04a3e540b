/** Chunks of executable memory that translated programs are copied into and never leave. */
module CodeArena {
  import opened Options
  import opened Words

  const CODE_ALIGNMENT: nat := 16

  datatype Chunk = Chunk(base: nat, size: nat, used: nat)

  datatype Allocation = Allocation(address: nat, size: nat)

  /** A published program and where it is. */
  datatype Code = Code(address: nat, bytes: seq<byte>)

  type Memory = map<nat, byte>

  /** The next multiple of an alignment; a zero alignment or an overflow is an exception. */
  function RoundUp(value: nat, alignment: nat): (r: Option<nat>)
    ensures r.Some? ==> value <= r.value < U64_LIMIT || r.value == value
  {
    if alignment == 0 then None
    else if value % alignment == 0 then Some(value)
    else if value > U64_LIMIT - 1 - (alignment - value % alignment) then None
    else Some(value + (alignment - value % alignment))
  }

  /** The rounded value is the least multiple that is not smaller. */
  lemma RoundUpIsLeast(value: nat, alignment: nat)
    requires RoundUp(value, alignment).Some?
    ensures var r := RoundUp(value, alignment).value;
      r % alignment == 0 && value <= r < value + alignment
  {
    if value % alignment != 0 {
      var q := value / alignment;
      assert value == alignment * q + value % alignment;
      assert value + (alignment - value % alignment) == alignment * (q + 1);
      QuotientUnique(alignment * (q + 1), alignment, q + 1, 0);
    }
  }

  // ----- chunks

  predicate ChunkValid(c: Chunk) {
    c.used <= c.size && c.base + c.size <= U64_LIMIT && c.base % CODE_ALIGNMENT == 0
  }

  predicate Separate(c: Chunk, d: Chunk) {
    c.base + c.size <= d.base || d.base + d.size <= c.base
  }

  ghost predicate ChunksValid(chunks: seq<Chunk>) {
    (forall i | 0 <= i < |chunks| :: ChunkValid(chunks[i])) &&
    (forall i, j | 0 <= i < j < |chunks| :: Separate(chunks[i], chunks[j]))
  }

  function TotalSize(chunks: seq<Chunk>): nat {
    if chunks == [] then 0 else TotalSize(chunks[..|chunks| - 1]) + chunks[|chunks| - 1].size
  }

  function TotalUsed(chunks: seq<Chunk>): nat {
    if chunks == [] then 0 else TotalUsed(chunks[..|chunks| - 1]) + chunks[|chunks| - 1].used
  }

  predicate InUsedOf(c: Chunk, a: nat, n: nat) {
    c.base <= a && a + n <= c.base + c.used
  }

  /** The range lies in the used part of some chunk. */
  ghost predicate InUsed(chunks: seq<Chunk>, a: nat, n: nat) {
    exists c :: 0 <= c < |chunks| && InUsedOf(chunks[c], a, n)
  }

  predicate OutsideUsedOf(c: Chunk, a: nat, n: nat) {
    a + n <= c.base || c.base + c.used <= a
  }

  /** The range meets the used part of no chunk. */
  ghost predicate OutsideUsed(chunks: seq<Chunk>, a: nat, n: nat) {
    forall c | 0 <= c < |chunks| :: OutsideUsedOf(chunks[c], a, n)
  }

  predicate Disjoint(a: nat, n: nat, b: nat, m: nat) {
    a + n <= b || b + m <= a
  }

  /** Nothing that was used stops being used. */
  ghost predicate Grows(before: seq<Chunk>, after: seq<Chunk>) {
    |before| <= |after| && forall c | 0 <= c < |before| ::
      before[c].base == after[c].base && before[c].used <= after[c].used
  }

  lemma GrownUsed(before: seq<Chunk>, after: seq<Chunk>, a: nat, n: nat)
    requires Grows(before, after)
    ensures InUsed(before, a, n) ==> InUsed(after, a, n)
    ensures OutsideUsed(after, a, n) ==> OutsideUsed(before, a, n)
  {
    if InUsed(before, a, n) {
      var c :| 0 <= c < |before| && InUsedOf(before[c], a, n);
      assert InUsedOf(after[c], a, n);
    }
    if OutsideUsed(after, a, n) {
      forall c | 0 <= c < |before|
        ensures OutsideUsedOf(before[c], a, n)
      {
        assert OutsideUsedOf(after[c], a, n);
      }
    }
  }

  lemma UsedAndOutside(chunks: seq<Chunk>, a: nat, n: nat, b: nat, m: nat)
    requires InUsed(chunks, a, n) && OutsideUsed(chunks, b, m)
    ensures Disjoint(a, n, b, m)
  {
    var c :| 0 <= c < |chunks| && InUsedOf(chunks[c], a, n);
    assert OutsideUsedOf(chunks[c], b, m);
  }

  // ----- memory

  function Copied(memory: Memory, a: nat, bytes: seq<byte>): Memory {
    memory + map i | a <= i < a + |bytes| && Within(i, a, |bytes|) :: bytes[i - a]
  }

  predicate Within(i: nat, a: nat, n: nat) { a <= i < a + n }

  predicate Holds(memory: Memory, c: Code) {
    forall i | 0 <= i < |c.bytes| :: HoldsAt(memory, c, i)
  }

  predicate HoldsAt(memory: Memory, c: Code, i: nat)
    requires i < |c.bytes|
  {
    c.address + i in memory && memory[c.address + i] == c.bytes[i]
  }

  /** Every published program is intact, aligned, in used memory, and apart from the others. */
  ghost predicate CodesValid(chunks: seq<Chunk>, memory: Memory, codes: seq<Code>) {
    (forall i | 0 <= i < |codes| :: CodeValid(chunks, memory, codes[i])) &&
    (forall i, j | 0 <= i < j < |codes| ::
      Disjoint(codes[i].address, |codes[i].bytes|, codes[j].address, |codes[j].bytes|))
  }

  ghost predicate CodeValid(chunks: seq<Chunk>, memory: Memory, c: Code) {
    c.address % CODE_ALIGNMENT == 0 && InUsed(chunks, c.address, |c.bytes|) && Holds(memory, c)
  }

  lemma CopyElsewhere(memory: Memory, a: nat, bytes: seq<byte>, c: Code)
    requires Holds(memory, c) && Disjoint(c.address, |c.bytes|, a, |bytes|)
    ensures Holds(Copied(memory, a, bytes), c)
  {
    forall i | 0 <= i < |c.bytes|
      ensures HoldsAt(Copied(memory, a, bytes), c, i)
    {
      assert HoldsAt(memory, c, i);
    }
  }

  lemma CopyHolds(memory: Memory, a: nat, bytes: seq<byte>)
    ensures Holds(Copied(memory, a, bytes), Code(a, bytes))
  {
  }

  /** Publishing into memory that no chunk used keeps every earlier program. */
  lemma PublishedOne(before: seq<Chunk>, after: seq<Chunk>, memory: Memory, codes: seq<Code>, a: nat, bytes: seq<byte>)
    requires CodesValid(before, memory, codes) && Grows(before, after)
    requires OutsideUsed(before, a, |bytes|) && InUsed(after, a, |bytes|) && a % CODE_ALIGNMENT == 0
    ensures CodesValid(after, Copied(memory, a, bytes), codes + [Code(a, bytes)])
  {
    hide InUsed, OutsideUsed, Holds, Copied;
    var more := codes + [Code(a, bytes)];
    forall i | 0 <= i < |codes|
      ensures CodeValid(after, Copied(memory, a, bytes), more[i])
      ensures Disjoint(more[i].address, |more[i].bytes|, a, |bytes|)
    {
      var c := codes[i];
      assert CodeValid(before, memory, c);
      GrownUsed(before, after, c.address, |c.bytes|);
      UsedAndOutside(before, c.address, |c.bytes|, a, |bytes|);
      CopyElsewhere(memory, a, bytes, c);
    }
    CopyHolds(memory, a, bytes);
  }

  lemma MoreChunks(before: seq<Chunk>, after: seq<Chunk>, memory: Memory, codes: seq<Code>)
    requires CodesValid(before, memory, codes) && Grows(before, after)
    ensures CodesValid(after, memory, codes)
  {
    hide InUsed, Holds;
    forall i | 0 <= i < |codes|
      ensures CodeValid(after, memory, codes[i])
    {
      assert CodeValid(before, memory, codes[i]);
      GrownUsed(before, after, codes[i].address, |codes[i].bytes|);
    }
  }

  // ----- invalidation

  datatype Range = Range(start: nat, end: nat)

  predicate Contains(r: Range, x: nat) { r.start <= x < r.end }

  predicate Covers(r: Range, a: Allocation) {
    r.start <= a.address && a.address + a.size <= r.end
  }

  /** An address of an allocation, or of a gap of less than sixteen bytes behind one. */
  predicate NewCodeOrGap(allocations: seq<Allocation>, x: nat, i: nat)
    requires i < |allocations|
  {
    var end := allocations[i].address + allocations[i].size;
    allocations[i].address <= x < end ||
    (i + 1 < |allocations| && end <= x < allocations[i + 1].address && allocations[i + 1].address - end < 16)
  }

  /** The ranges cover every allocation, and nothing but allocations and short gaps. */
  ghost predicate ExactlyInvalidates(ranges: seq<Range>, allocations: seq<Allocation>) {
    (forall i | 0 <= i < |allocations| :: IsCovered(ranges, allocations[i])) &&
    (forall r, x | 0 <= r < |ranges| && Contains(ranges[r], x) :: IsNewOrGap(allocations, |allocations|, x))
  }

  /** The same for the first `n` allocations, with the last range still growing. */
  ghost predicate RangesSoFar(ranges: seq<Range>, allocations: seq<Allocation>, n: nat) {
    1 <= n <= |allocations| && ranges != [] &&
    ranges[|ranges| - 1].start <= ranges[|ranges| - 1].end == allocations[n - 1].address + allocations[n - 1].size &&
    (forall i | 0 <= i < n :: IsCovered(ranges, allocations[i])) &&
    (forall r, x | 0 <= r < |ranges| && Contains(ranges[r], x) :: IsNewOrGap(allocations, n, x))
  }

  ghost predicate IsCovered(ranges: seq<Range>, a: Allocation) {
    exists r :: 0 <= r < |ranges| && Covers(ranges[r], a)
  }

  ghost predicate IsNewOrGap(allocations: seq<Allocation>, n: nat, x: nat)
    requires n <= |allocations|
  {
    exists i :: 0 <= i < n && NewCodeOrGap(allocations, x, i)
  }

  method InvalidationRanges(allocations: seq<Allocation>) returns (ranges: seq<Range>)
    requires allocations != []
    ensures ExactlyInvalidates(ranges, allocations)
  {
    hide RangesSoFar;
    ranges := [];
    var range := Range(allocations[0].address, allocations[0].address + allocations[0].size);
    FirstRange(allocations);
    assert ranges + [range] == [range];
    for index := 1 to |allocations|
      invariant RangesSoFar(ranges + [range], allocations, index)
      invariant range.end == allocations[index - 1].address + allocations[index - 1].size
    {
      var start := allocations[index].address;
      var next := Range(start, start + allocations[index].size);
      if start >= range.end && start - range.end < 16 {
        Extended(ranges, range, allocations, index);
        range := Range(range.start, next.end);
      } else {
        Started(ranges + [range], next, allocations, index);
        ranges := ranges + [range];
        range := next;
      }
    }
    ranges := ranges + [range];
    AllRanges(ranges, allocations);
  }

  lemma FirstRange(allocations: seq<Allocation>)
    requires allocations != []
    ensures var a := allocations[0]; RangesSoFar([Range(a.address, a.address + a.size)], allocations, 1)
  {
    var a := allocations[0];
    var ranges := [Range(a.address, a.address + a.size)];
    assert Covers(ranges[0], a);
    forall x | a.address <= x < a.address + a.size
      ensures IsNewOrGap(allocations, 1, x)
    {
      assert NewCodeOrGap(allocations, x, 0);
    }
  }

  lemma OneMore(allocations: seq<Allocation>, n: nat, x: nat)
    requires n < |allocations| && IsNewOrGap(allocations, n, x)
    ensures IsNewOrGap(allocations, n + 1, x)
  {
    var i :| 0 <= i < n && NewCodeOrGap(allocations, x, i);
    assert NewCodeOrGap(allocations, x, i);
  }

  /** A close allocation extends the last range over a short gap. */
  lemma Extended(ranges: seq<Range>, range: Range, allocations: seq<Allocation>, n: nat)
    requires n < |allocations| && RangesSoFar(ranges + [range], allocations, n)
    requires range.end == allocations[n - 1].address + allocations[n - 1].size
    requires allocations[n].address >= range.end && allocations[n].address - range.end < 16
    ensures RangesSoFar(ranges + [Range(range.start, allocations[n].address + allocations[n].size)], allocations, n + 1)
  {
    var before := ranges + [range];
    var after := ranges + [Range(range.start, allocations[n].address + allocations[n].size)];
    var last := |ranges|;
    forall i | 0 <= i < n + 1
      ensures IsCovered(after, allocations[i])
    {
      if i < n {
        assert IsCovered(before, allocations[i]);
        var r :| 0 <= r < |before| && Covers(before[r], allocations[i]);
        assert Covers(after[r], allocations[i]);
      } else {
        assert before[last] == range;
        assert Covers(after[last], allocations[n]);
      }
    }
    forall r: nat, x: nat | r < |after| && Contains(after[r], x)
      ensures IsNewOrGap(allocations, n + 1, x)
    {
      if r < last || x < range.end {
        assert Contains(before[r], x);
        OneMore(allocations, n, x);
      } else if x < allocations[n].address {
        assert NewCodeOrGap(allocations, x, n - 1);
      } else {
        assert NewCodeOrGap(allocations, x, n);
      }
    }
  }

  lemma Started(ranges: seq<Range>, next: Range, allocations: seq<Allocation>, n: nat)
    requires n < |allocations| && RangesSoFar(ranges, allocations, n)
    requires next == Range(allocations[n].address, allocations[n].address + allocations[n].size)
    ensures RangesSoFar(ranges + [next], allocations, n + 1)
  {
    var after := ranges + [next];
    forall i | 0 <= i < n + 1
      ensures IsCovered(after, allocations[i])
    {
      if i < n {
        assert IsCovered(ranges, allocations[i]);
        var r :| 0 <= r < |ranges| && Covers(ranges[r], allocations[i]);
        assert Covers(after[r], allocations[i]);
      } else {
        assert Covers(after[|ranges|], allocations[n]);
      }
    }
    forall r: nat, x: nat | r < |after| && Contains(after[r], x)
      ensures IsNewOrGap(allocations, n + 1, x)
    {
      if r < |ranges| {
        assert Contains(ranges[r], x);
        OneMore(allocations, n, x);
      } else {
        assert NewCodeOrGap(allocations, x, n);
      }
    }
  }

  lemma AllRanges(ranges: seq<Range>, allocations: seq<Allocation>)
    requires RangesSoFar(ranges, allocations, |allocations|)
    ensures ExactlyInvalidates(ranges, allocations)
  {
  }

  // ----- the arena

  /** Extending the last chunk, which is the only one that is ever extended. */
  lemma ExtendedChunk(chunks: seq<Chunk>, offset: nat, size: nat)
    requires ChunksValid(chunks) && chunks != [] && size > 0
    requires var c := chunks[|chunks| - 1];
      c.used <= offset && offset % CODE_ALIGNMENT == 0 && offset + size <= c.size
    ensures var c := chunks[|chunks| - 1];
      var after := chunks[|chunks| - 1 := c.(used := offset + size)];
      var a := c.base + offset;
      ChunksValid(after) && Grows(chunks, after) && a % CODE_ALIGNMENT == 0 &&
      OutsideUsed(chunks, a, size) && InUsed(after, a, size) && TotalSize(after) == TotalSize(chunks) &&
      TotalUsed(after) == TotalUsed(chunks) + (offset + size - c.used)
  {
    var last := |chunks| - 1;
    var c := chunks[last];
    var after := chunks[last := c.(used := offset + size)];
    var a := c.base + offset;
    assert InUsedOf(after[last], a, size);
    forall i | 0 <= i < |chunks|
      ensures OutsideUsedOf(chunks[i], a, size)
    {
      assert ChunkValid(chunks[i]) && ChunkValid(c);
      if i < last { assert Separate(chunks[i], c); }
    }
    assert after[..last] == chunks[..last];
  }

  lemma AddedChunk(chunks: seq<Chunk>, base: nat, size: nat)
    requires ChunksValid(chunks) && base % CODE_ALIGNMENT == 0 && base + size <= U64_LIMIT
    requires forall i | 0 <= i < |chunks| :: Separate(chunks[i], Chunk(base, size, 0))
    ensures var after := chunks + [Chunk(base, size, 0)];
      ChunksValid(after) && Grows(chunks, after) && TotalSize(after) == TotalSize(chunks) + size &&
        TotalUsed(after) == TotalUsed(chunks)
  {
    var after := chunks + [Chunk(base, size, 0)];
    assert after[..|chunks|] == chunks;
  }

  /** All that extending the last chunk does to an arena that may have grown before. */
  lemma ExtendedArena(before: seq<Chunk>, during: seq<Chunk>, memory: Memory, codes: seq<Code>, offset: nat, size: nat)
    requires Grows(before, during) && ChunksValid(during) && CodesValid(during, memory, codes) && during != [] &&
      size > 0
    requires var c := during[|during| - 1];
      c.used <= offset && offset % CODE_ALIGNMENT == 0 && offset + size <= c.size
    ensures var c := during[|during| - 1];
      var after := during[|during| - 1 := c.(used := offset + size)];
      var a := c.base + offset;
      ChunksValid(after) && CodesValid(after, memory, codes) && Grows(before, after) && a % CODE_ALIGNMENT == 0 &&
      OutsideUsed(before, a, size) && InUsed(after, a, size) && TotalSize(after) == TotalSize(during) &&
      TotalUsed(after) == TotalUsed(during) + (offset + size - c.used) <= TotalSize(during)
  {
    hide ChunksValid, CodesValid, Grows, OutsideUsed, InUsed, TotalSize, TotalUsed;
    var c := during[|during| - 1];
    var after := during[|during| - 1 := c.(used := offset + size)];
    ExtendedChunk(during, offset, size);
    StillWithinSize(after);
    MoreChunks(during, after, memory, codes);
    GrownUsed(before, during, c.base + offset, size);
    GrowsTwice(before, during, after);
  }

  lemma GrowsTwice(a: seq<Chunk>, b: seq<Chunk>, c: seq<Chunk>)
    requires Grows(a, b) && Grows(b, c)
    ensures Grows(a, c)
  {
  }

  // ----- when there is room

  /** What decides a reservation: the chunks, the counters and what the host will answer. */
  datatype Resources = Resources(chunks: seq<Chunk>, allocatedBytes: nat, usedBytes: nat, host: seq<Option<nat>>)

  /** The end of the last chunk's used part, where the next program would start. */
  function NextOffset(chunks: seq<Chunk>): Option<nat> {
    if chunks == [] then Some(0) else RoundUp(chunks[|chunks| - 1].used, CODE_ALIGNMENT)
  }

  predicate HasRoom(chunks: seq<Chunk>, size: nat) {
    chunks != [] && NextOffset(chunks).Some? && NextOffset(chunks).value + size <= chunks[|chunks| - 1].size
  }

  /** The host's next answer is memory that can be used. */
  predicate Offers(host: seq<Option<nat>>, chunks: seq<Chunk>, size: nat) {
    host != [] && host[0].Some? && host[0].value % CODE_ALIGNMENT == 0 && host[0].value + size <= U64_LIMIT &&
    forall i | 0 <= i < |chunks| :: Separate(chunks[i], Chunk(host[0].value, size, 0))
  }

  /** How many bytes a new chunk for `size` bytes has. */
  function NewChunkSize(size: nat, chunkSize: nat, pageSize: nat): (r: Option<nat>)
    ensures r.Some? ==> size <= r.value
  {
    var required := RoundUp(size, CODE_ALIGNMENT);
    if required.None? then None
    else
      RoundUpIsLeast(size, CODE_ALIGNMENT);
      var wanted := if chunkSize < required.value then required.value else chunkSize;
      var rounded := RoundUp(wanted, pageSize);
      if rounded.Some? then RoundUpIsLeast(wanted, pageSize); rounded else None
  }

  predicate CanAdd(r: Resources, size: nat, chunkSize: nat, pageSize: nat) {
    var bytes := NewChunkSize(size, chunkSize, pageSize);
    bytes.Some? && r.allocatedBytes + bytes.value < U64_LIMIT && Offers(r.host, r.chunks, bytes.value)
  }

  function WithChunk(r: Resources, size: nat, chunkSize: nat, pageSize: nat): Resources
    requires CanAdd(r, size, chunkSize, pageSize)
  {
    var bytes := NewChunkSize(size, chunkSize, pageSize).value;
    Resources(r.chunks + [Chunk(r.host[0].value, bytes, 0)], r.allocatedBytes + bytes, r.usedBytes, r.host[1..])
  }

  /** There is room in the last chunk, or the host has memory for another one. */
  predicate CanReserve(r: Resources, size: nat, chunkSize: nat, pageSize: nat) {
    size > 0 && NextOffset(r.chunks).Some? && (HasRoom(r.chunks, size) || CanAdd(r, size, chunkSize, pageSize))
  }

  function Extend(r: Resources, offset: nat, size: nat): Resources
    requires r.chunks != [] && r.chunks[|r.chunks| - 1].used <= offset + size
  {
    var last := |r.chunks| - 1;
    var chunk := r.chunks[last];
    r.(chunks := r.chunks[last := chunk.(used := offset + size)],
      usedBytes := r.usedBytes + (offset + size - chunk.used))
  }

  function AfterReserve(r: Resources, size: nat, chunkSize: nat, pageSize: nat): Resources
    requires CanReserve(r, size, chunkSize, pageSize)
  {
    if HasRoom(r.chunks, size) then
      RoundUpIsLeast(r.chunks[|r.chunks| - 1].used, CODE_ALIGNMENT);
      Extend(r, NextOffset(r.chunks).value, size)
    else Extend(WithChunk(r, size, chunkSize, pageSize), 0, size)
  }

  /** Room for one program after the other. */
  predicate CanReserveAll(r: Resources, programs: seq<seq<byte>>, chunkSize: nat, pageSize: nat)
    decreases |programs|
  {
    programs == [] ||
    (CanReserve(r, |programs[0]|, chunkSize, pageSize) &&
     CanReserveAll(AfterReserve(r, |programs[0]|, chunkSize, pageSize), programs[1..], chunkSize, pageSize))
  }

  lemma OfferedChunk(host: seq<Option<nat>>, chunks: seq<Chunk>, size: nat)
    requires Offers(host, chunks, size)
    ensures host != [] && host[0].Some? && host[0].value % CODE_ALIGNMENT == 0 && host[0].value + size <= U64_LIMIT
    ensures forall i | 0 <= i < |chunks| :: Separate(chunks[i], Chunk(host[0].value, size, 0))
  {
  }

  lemma AddedIsLast(r: Resources, size: nat, chunkSize: nat, pageSize: nat)
    requires CanAdd(r, size, chunkSize, pageSize)
    ensures var after := WithChunk(r, size, chunkSize, pageSize).chunks;
      after != [] && after[|after| - 1].used == 0 && size <= after[|after| - 1].size
  {
  }

  lemma StillWithinSize(chunks: seq<Chunk>)
    requires ChunksValid(chunks)
    ensures TotalUsed(chunks) <= TotalSize(chunks)
  {
    UsedWithinSize(chunks);
  }

  /** No more is used than there is, so the counter of used bytes cannot overflow. */
  lemma {:induction false} UsedWithinSize(chunks: seq<Chunk>)
    requires forall i | 0 <= i < |chunks| :: ChunkValid(chunks[i])
    ensures TotalUsed(chunks) <= TotalSize(chunks)
  {
    if chunks != [] { UsedWithinSize(chunks[..|chunks| - 1]); }
  }

  class ExecutableArena {
    const chunkSize: nat
    const pageSize: nat
    var allocatedBytes: nat
    var usedBytes: nat
    var chunks: seq<Chunk>
    var memory: Memory
    ghost var codes: seq<Code>
    /** What the host answers to the next requests for memory: a base address, or failure. */
    var host: seq<Option<nat>>
    /** The ranges of the last call that were reported to the instruction cache. */
    var invalidated: seq<Range>

    ghost predicate Valid()
      reads this
    {
      ChunksValid(chunks) && allocatedBytes == TotalSize(chunks) < U64_LIMIT && usedBytes == TotalUsed(chunks) &&
      CodesValid(chunks, memory, codes)
    }

    ghost function State(): Resources
      reads this
    {
      Resources(chunks, allocatedBytes, usedBytes, host)
    }

    constructor (chunkSize: nat, pageSize: nat, host: seq<Option<nat>>)
      requires pageSize > 0
      ensures Valid() && codes == [] && chunks == []
    {
      this.chunkSize, this.pageSize, this.host := chunkSize, pageSize, host;
      allocatedBytes, usedBytes, chunks, memory, codes, invalidated := 0, 0, [], map[], [], [];
    }

    /** The host's answer. An answer that no host gives (unaligned, overlapping a mapping, or past
        the end of the address space) is treated as a failure. */
    method Map(size: nat) returns (base: Option<nat>)
      modifies this`host
      ensures base.Some? <==> Offers(old(host), chunks, size)
      ensures base.Some? ==> base == old(host)[0] && host == old(host)[1..]
    {
      if host == [] {
        return None;
      }
      base := host[0];
      host := host[1..];
      if base.None? || base.value % CODE_ALIGNMENT != 0 || base.value + size > U64_LIMIT {
        return None;
      }
      for i := 0 to |chunks|
        invariant forall j | 0 <= j < i :: Separate(chunks[j], Chunk(base.value, size, 0))
      {
        if !Separate(chunks[i], Chunk(base.value, size, 0)) {
          return None;
        }
      }
    }

    /** A new chunk for at least `size` bytes. */
    method AddChunk(size: nat) returns (ok: bool)
      requires Valid() && size > 0
      modifies this`host, this`chunks, this`allocatedBytes
      ensures Valid() && Grows(old(chunks), chunks)
      ensures ok <==> CanAdd(old(State()), size, chunkSize, pageSize)
      ensures ok ==> State() == WithChunk(old(State()), size, chunkSize, pageSize)
      ensures !ok ==> chunks == old(chunks) && allocatedBytes == old(allocatedBytes)
    {
      hide ChunksValid, CodesValid, Grows, Offers;
      SameChunks(chunks);
      var required := RoundUp(size, CODE_ALIGNMENT);
      if required.None? {
        return false;
      }
      var wanted := if chunkSize < required.value then required.value else chunkSize;
      var allocationSize := RoundUp(wanted, pageSize);
      if allocationSize.None? || allocationSize.value > U64_LIMIT - 1 - allocatedBytes {
        return false;
      }
      var mapping := Map(allocationSize.value);
      if mapping.None? {
        return false;
      }
      OfferedChunk(old(host), chunks, allocationSize.value);
      AddedChunk(chunks, mapping.value, allocationSize.value);
      MoreChunks(chunks, chunks + [Chunk(mapping.value, allocationSize.value, 0)], memory, codes);
      chunks := chunks + [Chunk(mapping.value, allocationSize.value, 0)];
      allocatedBytes := allocatedBytes + allocationSize.value;
      ok := true;
    }

    /** Room for `size` bytes that no program has, or no room. */
    method Reserve(size: nat) returns (r: Option<Allocation>)
      requires Valid()
      modifies this`host, this`chunks, this`allocatedBytes, this`usedBytes
      ensures Valid() && Grows(old(chunks), chunks)
      ensures r.Some? <==> CanReserve(old(State()), size, chunkSize, pageSize)
      ensures r.Some? ==> State() == AfterReserve(old(State()), size, chunkSize, pageSize)
      ensures r.Some? ==> r.value.size == size && r.value.address % CODE_ALIGNMENT == 0
      ensures r.Some? ==> OutsideUsed(old(chunks), r.value.address, size) && InUsed(chunks, r.value.address, size)
    {
      hide ChunksValid, CodesValid, Grows, OutsideUsed, InUsed, CanAdd, WithChunk, TotalSize, TotalUsed;
      SameChunks(chunks);
      if size == 0 {
        return None;
      }
      ghost var before := chunks;
      var offset := 0;
      if chunks != [] {
        var aligned := RoundUp(chunks[|chunks| - 1].used, CODE_ALIGNMENT);
        if aligned.None? {
          return None;
        }
        RoundUpIsLeast(chunks[|chunks| - 1].used, CODE_ALIGNMENT);
        offset := aligned.value;
      }
      if chunks == [] || offset > chunks[|chunks| - 1].size || size > chunks[|chunks| - 1].size - offset {
        var added := AddChunk(size);
        if !added {
          return None;
        }
        AddedIsLast(old(State()), size, chunkSize, pageSize);
        offset := 0;
      }
      var last := |chunks| - 1;
      var chunk := chunks[last];
      var consumed := offset + size - chunk.used;
      ExtendedArena(before, chunks, memory, codes, offset, size);
      if consumed > U64_LIMIT - 1 - usedBytes {
        assert false;
      }
      usedBytes := usedBytes + consumed;
      chunks := chunks[last := chunk.(used := offset + size)];
      r := Some(Allocation(chunk.base + offset, size));
    }

    /** One program. It is published whole, or nothing is written. */
    method Publish(bytes: seq<byte>) returns (r: Option<Allocation>)
      requires Valid()
      modifies this
      ensures Valid()
      ensures r.Some? <==> CanReserve(old(State()), |bytes|, chunkSize, pageSize)
      ensures r.Some? ==> codes == old(codes) + [Code(r.value.address, bytes)]
      ensures r.None? ==> codes == old(codes) && memory == old(memory)
      ensures r.Some? ==> ExactlyInvalidates(invalidated, [r.value])
    {
      hide ChunksValid, CodesValid, Grows, OutsideUsed, InUsed, ExactlyInvalidates;
      ghost var before := chunks;
      assert CodesValid(before, memory, codes);
      r := Reserve(|bytes|);
      if r.None? {
        return;
      }
      PublishedOne(before, chunks, memory, codes, r.value.address, bytes);
      memory := Copied(memory, r.value.address, bytes);
      codes := codes + [Code(r.value.address, bytes)];
      var ranges := InvalidationRanges([r.value]);
      invalidated := ranges;
    }

    /** Several programs: room for all of them first, then all copies, then as few reports to the
        instruction cache as short gaps allow. */
    method PublishBatch(programs: seq<seq<byte>>) returns (r: Option<seq<Allocation>>)
      requires Valid()
      modifies this
      ensures Valid()
      ensures r.Some? <==> CanReserveAll(old(State()), programs, chunkSize, pageSize)
      ensures r.Some? ==> |r.value| == |programs| && codes == old(codes) + Placed(r.value, programs)
      ensures r.None? ==> codes == old(codes) && memory == old(memory)
      ensures r.Some? && programs != [] ==> ExactlyInvalidates(invalidated, r.value)
    {
      hide ChunksValid, CodesValid, ExactlyInvalidates, AllApart, ApartFromCodes;
      var allocations := ReserveAll(programs);
      if allocations.None? {
        return None;
      }
      if programs == [] {
        assert codes + Placed(allocations.value, programs) == codes;
        return allocations;
      }
      for index := 0 to |programs|
        invariant Valid() && codes == old(codes) + Placed(allocations.value[..index], programs[..index])
        invariant Reserved(chunks, old(codes), allocations.value, programs)
      {
        var a := allocations.value[index];
        CopiedOne(chunks, memory, old(codes), allocations.value, programs, index);
        memory := Copied(memory, a.address, programs[index]);
        codes := codes + [Code(a.address, programs[index])];
      }
      assert allocations.value[..|programs|] == allocations.value && programs[..|programs|] == programs;
      var ranges := InvalidationRanges(allocations.value);
      invalidated := ranges;
      r := allocations;
    }

    method ReserveAll(programs: seq<seq<byte>>) returns (r: Option<seq<Allocation>>)
      requires Valid()
      modifies this`host, this`chunks, this`allocatedBytes, this`usedBytes
      ensures Valid() && (r.Some? ==> Reserved(chunks, codes, r.value, programs))
      ensures r.Some? <==> CanReserveAll(old(State()), programs, chunkSize, pageSize)
    {
      hide ChunksValid, CodesValid, Grows, OutsideUsed, InUsed, CanReserve, AfterReserve;
      ghost var before := chunks;
      SameChunks(chunks);
      var allocations: seq<Allocation> := [];
      for index := 0 to |programs|
        invariant Valid() && Grows(before, chunks) && CodesValid(before, memory, codes)
        invariant Reserved(chunks, codes, allocations, programs[..index])
        invariant CanReserveAll(old(State()), programs, chunkSize, pageSize) ==
          CanReserveAll(State(), programs[index..], chunkSize, pageSize)
      {
        ghost var during := chunks;
        var a := Reserve(|programs[index]|);
        if a.None? {
          return None;
        }
        assert programs[..index + 1] == programs[..index] + [programs[index]];
        ReservedMore(before, during, chunks, memory, codes, allocations, programs[..index], a.value, programs[index]);
        GrowsTwice(before, during, chunks);
        allocations := allocations + [a.value];
      }
      assert programs[..|programs|] == programs;
      r := Some(allocations);
    }
  }

  /** The programs at their places. */
  function Placed(allocations: seq<Allocation>, programs: seq<seq<byte>>): (codes: seq<Code>)
    requires |allocations| == |programs|
    ensures |codes| == |programs|
  {
    seq(|programs|, i requires 0 <= i < |programs| => Code(allocations[i].address, programs[i]))
  }

  /** Room for every program, clear of the published ones and of each other. */
  ghost predicate Reserved(chunks: seq<Chunk>, codes: seq<Code>, allocations: seq<Allocation>,
                           programs: seq<seq<byte>>) {
    |allocations| == |programs| &&
    (forall i | 0 <= i < |allocations| :: ReservedOne(chunks, codes, allocations[i], programs[i])) &&
      AllApart(allocations)
  }

  ghost predicate ReservedOne(chunks: seq<Chunk>, codes: seq<Code>, a: Allocation, program: seq<byte>) {
    a.size == |program| && a.address % CODE_ALIGNMENT == 0 && InUsed(chunks, a.address, a.size) &&
      ApartFromCodes(codes, a)
  }

  ghost predicate ApartFromCodes(codes: seq<Code>, a: Allocation) {
    forall i | 0 <= i < |codes| :: Disjoint(codes[i].address, |codes[i].bytes|, a.address, a.size)
  }

  ghost predicate AllApart(allocations: seq<Allocation>) {
    forall i, j | 0 <= i < j < |allocations| ::
      Disjoint(allocations[i].address, allocations[i].size, allocations[j].address, allocations[j].size)
  }

  lemma ReservedMore(before: seq<Chunk>, during: seq<Chunk>, after: seq<Chunk>, memory: Memory, codes: seq<Code>,
                     allocations: seq<Allocation>, programs: seq<seq<byte>>, a: Allocation, program: seq<byte>)
    requires Grows(before, during) && Grows(during, after) && CodesValid(before, memory, codes)
    requires Reserved(during, codes, allocations, programs)
    requires a.size == |program| && a.address % CODE_ALIGNMENT == 0
    requires OutsideUsed(during, a.address, a.size) && InUsed(after, a.address, a.size)
    ensures Reserved(after, codes, allocations + [a], programs + [program])
  {
    hide InUsed, OutsideUsed, Grows, ApartFromCodes;
    forall i | 0 <= i < |allocations|
      ensures ReservedOne(after, codes, allocations[i], programs[i])
      ensures Disjoint(allocations[i].address, allocations[i].size, a.address, a.size)
    {
      assert ReservedOne(during, codes, allocations[i], programs[i]);
      GrownUsed(during, after, allocations[i].address, allocations[i].size);
      UsedAndOutside(during, allocations[i].address, allocations[i].size, a.address, a.size);
    }
    GrownUsed(before, during, a.address, a.size);
    ClearOfCodes(before, memory, codes, a);
    var more, longer := allocations + [a], programs + [program];
    forall i | 0 <= i < |more|
      ensures ReservedOne(after, codes, more[i], longer[i])
    {
      if i < |allocations| { assert ReservedOne(after, codes, allocations[i], programs[i]); }
    }
  }

  lemma ClearOfCodes(chunks: seq<Chunk>, memory: Memory, codes: seq<Code>, a: Allocation)
    requires CodesValid(chunks, memory, codes) && OutsideUsed(chunks, a.address, a.size)
    ensures ApartFromCodes(codes, a)
  {
    hide InUsed, OutsideUsed, Holds;
    forall i | 0 <= i < |codes|
      ensures Disjoint(codes[i].address, |codes[i].bytes|, a.address, a.size)
    {
      assert CodeValid(chunks, memory, codes[i]);
      UsedAndOutside(chunks, codes[i].address, |codes[i].bytes|, a.address, a.size);
    }
  }

  /** Copying one reserved program keeps the published ones and those copied before it. */
  lemma CopiedOne(chunks: seq<Chunk>, memory: Memory, codes: seq<Code>, allocations: seq<Allocation>,
                  programs: seq<seq<byte>>, n: nat)
    requires Reserved(chunks, codes, allocations, programs) && n < |programs|
    requires CodesValid(chunks, memory, codes + Placed(allocations[..n], programs[..n]))
    ensures var a := allocations[n];
      CodesValid(chunks, Copied(memory, a.address, programs[n]),
        codes + Placed(allocations[..n], programs[..n]) + [Code(a.address, programs[n])])
  {
    hide InUsed, Holds, Copied;
    var a := allocations[n];
    var present := codes + Placed(allocations[..n], programs[..n]);
    var next := Code(a.address, programs[n]);
    assert ReservedOne(chunks, codes, a, programs[n]);
    forall i | 0 <= i < |present|
      ensures CodeValid(chunks, Copied(memory, a.address, programs[n]), present[i])
      ensures Disjoint(present[i].address, |present[i].bytes|, a.address, |programs[n]|)
    {
      assert CodeValid(chunks, memory, present[i]);
      if i >= |codes| { assert ReservedOne(chunks, codes, allocations[i - |codes|], programs[i - |codes|]); }
      CopyElsewhere(memory, a.address, programs[n], present[i]);
    }
    CopyHolds(memory, a.address, programs[n]);
  }

  lemma SameChunks(chunks: seq<Chunk>)
    ensures Grows(chunks, chunks)
  {
  }
}
