/** When a reservation in the code arena succeeds, said without its rounding function. */
module CodeRoom {
  import opened Options
  import opened Words
  import opened CodeArena

  /** The least multiple that is not smaller. */
  predicate LeastMultiple(r: nat, value: nat, alignment: nat) {
    alignment > 0 && r % alignment == 0 && value <= r < value + alignment
  }

  lemma OneMultiple(r: nat, s: nat, value: nat, alignment: nat)
    requires LeastMultiple(r, value, alignment) && LeastMultiple(s, value, alignment)
    ensures r == s
  {
    var q, t := r / alignment, s / alignment;
    assert r == alignment * q && s == alignment * t;
    Difference(alignment, q, t);
    SmallMultiple(alignment, q - t);
  }

  lemma Difference(m: nat, q: nat, t: nat)
    ensures m * q - m * t == m * (q - t)
  {
  }

  /** Rounding gives that multiple, and fails exactly if there is none below 2^64. */
  lemma RoundUpMeaning(value: nat, alignment: nat, r: nat)
    requires value < U64_LIMIT
    ensures RoundUp(value, alignment) == Some(r) <==> LeastMultiple(r, value, alignment) && r < U64_LIMIT
  {
    if RoundUp(value, alignment).Some? {
      RoundUpIsLeast(value, alignment);
      if LeastMultiple(r, value, alignment) {
        OneMultiple(r, RoundUp(value, alignment).value, value, alignment);
      }
    } else if LeastMultiple(r, value, alignment) {
      NextMultiple(value, alignment);
      OneMultiple(r, value + (alignment - value % alignment), value, alignment);
    }
  }

  lemma NextMultiple(value: nat, alignment: nat)
    requires alignment > 0 && value % alignment != 0
    ensures LeastMultiple(value + (alignment - value % alignment), value, alignment)
  {
    var q := value / alignment;
    assert value + (alignment - value % alignment) == alignment * (q + 1);
    QuotientUnique(alignment * (q + 1), alignment, q + 1, 0);
  }

  /** An aligned place for the program behind what the chunk has used. */
  predicate PlaceIn(c: Chunk, place: nat, size: nat) {
    place % 16 == 0 && c.used <= place && place + size <= c.size
  }

  ghost predicate HasPlace(chunks: seq<Chunk>, size: nat) {
    chunks != [] && var last := chunks[|chunks| - 1]; exists place: nat :: PlaceIn(last, place, size)
  }

  lemma RoomMeaning(chunks: seq<Chunk>, size: nat)
    requires ChunksValid(chunks) && size > 0
    ensures HasRoom(chunks, size) <==> HasPlace(chunks, size)
  {
    hide RoundUp;
    if chunks != [] {
      var c := chunks[|chunks| - 1];
      assert ChunkValid(c);
      if HasRoom(chunks, size) {
        RoundUpIsLeast(c.used, 16);
        var place := NextOffset(chunks).value;
        assert PlaceIn(c, place, size);
      }
      if place: nat :| PlaceIn(c, place, size) {
        LeastPlace(c.used, place);
        var least: nat := (c.used + 15) / 16 * 16;
        RoundUpMeaning(c.used, 16, least);
      }
    }
  }

  lemma LeastPlace(used: nat, place: nat)
    requires place % 16 == 0 && used <= place
    ensures var least: nat := (used + 15) / 16 * 16;
      LeastMultiple(least, used, 16) && least <= place
  {
  }

  /** The size of a new chunk: whole pages for the program, rounded to 16 bytes, or for the preferred
      size if that is more. */
  predicate ChunkFor(bytes: nat, needed: nat, size: nat, chunkSize: nat, pageSize: nat) {
    LeastMultiple(needed, size, 16) && needed < U64_LIMIT && bytes < U64_LIMIT &&
    LeastMultiple(bytes, if needed < chunkSize then chunkSize else needed, pageSize)
  }

  lemma NewChunkMeaning(size: nat, chunkSize: nat, pageSize: nat, bytes: nat)
    requires size < U64_LIMIT && chunkSize < U64_LIMIT
    ensures NewChunkSize(size, chunkSize, pageSize) == Some(bytes) <==>
      exists needed: nat :: ChunkFor(bytes, needed, size, chunkSize, pageSize)
  {
    hide RoundUp;
    var required := RoundUp(size, CODE_ALIGNMENT);
    if required.Some? {
      var needed := required.value;
      RoundUpMeaning(size, 16, needed);
      RoundUpMeaning(if needed < chunkSize then chunkSize else needed, pageSize, bytes);
      assert NewChunkSize(size, chunkSize, pageSize) == Some(bytes) ==>
        ChunkFor(bytes, needed, size, chunkSize, pageSize);
    }
    if needed: nat :| ChunkFor(bytes, needed, size, chunkSize, pageSize) {
      RoundUpMeaning(size, 16, needed);
      RoundUpMeaning(if needed < chunkSize then chunkSize else needed, pageSize, bytes);
    }
  }

  ghost predicate IsNewChunk(bytes: nat, size: nat, chunkSize: nat, pageSize: nat) {
    exists needed: nat :: ChunkFor(bytes, needed, size, chunkSize, pageSize)
  }

  /** The host's memory can be used for a chunk of `bytes` bytes that can still be counted. */
  predicate HostGives(r: Resources, bytes: nat) {
    r.allocatedBytes + bytes < U64_LIMIT && r.host != [] && r.host[0].Some? && r.host[0].value % 16 == 0 &&
    r.host[0].value + bytes <= U64_LIMIT &&
    forall i | 0 <= i < |r.chunks| ::
      r.chunks[i].base + r.chunks[i].size <= r.host[0].value || r.host[0].value + bytes <= r.chunks[i].base
  }

  /** A reservation succeeds exactly if the size is positive, the end of the last chunk's used part
      can be rounded, and that chunk has an aligned place or the host gives memory for a new one. */
  lemma ReserveMeaning(r: Resources, size: nat, chunkSize: nat, pageSize: nat)
    requires ChunksValid(r.chunks) && size < U64_LIMIT && chunkSize < U64_LIMIT
    requires forall i | 0 <= i < |r.chunks| :: r.chunks[i].used < U64_LIMIT
    ensures CanReserve(r, size, chunkSize, pageSize) <==>
      size > 0 &&
      (r.chunks != [] ==> r.chunks[|r.chunks| - 1].used <= U64_LIMIT - 16) &&
      (HasPlace(r.chunks, size) ||
       exists bytes: nat :: IsNewChunk(bytes, size, chunkSize, pageSize) && HostGives(r, bytes))
  {
    hide RoundUp, ChunkFor, PlaceIn, NewChunkSize, ChunksValid;
    if size > 0 {
      RoomMeaning(r.chunks, size);
      OffsetMeaning(r.chunks);
      var bytes := NewChunkSize(size, chunkSize, pageSize);
      if bytes.Some? {
        NewChunkMeaning(size, chunkSize, pageSize, bytes.value);
        assert IsNewChunk(bytes.value, size, chunkSize, pageSize);
      }
      if b: nat :| IsNewChunk(b, size, chunkSize, pageSize) && HostGives(r, b) {
        NewChunkMeaning(size, chunkSize, pageSize, b);
      }
    }
  }

  lemma OffsetMeaning(chunks: seq<Chunk>)
    requires forall i | 0 <= i < |chunks| :: chunks[i].used < U64_LIMIT
    ensures NextOffset(chunks).Some? <==> chunks != [] ==> chunks[|chunks| - 1].used <= U64_LIMIT - 16
  {
  }
}
