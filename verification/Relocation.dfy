/** Moving a program to another image slide: the pointers inside it are rewritten in place. */
module Relocation {
  import opened Options
  import opened Words
  import opened ByteOrder
  import opened MoveWide
  import opened Assembler

  const SCRATCH: nat := 16

  // ----- one pointer

  function WordAt(bytes: seq<byte>, offset: nat): u32
    requires offset + 4 <= |bytes|
  {
    WordPowers();
    ValueRoundTrip(bytes[offset..offset + 4]);
    FromBytes(bytes[offset..offset + 4])
  }

  /** The move that must stand at halfword `k` of a relocated pointer. */
  predicate IsPointerWord(w: u32, k: nat) {
    Decode(w).Some? &&
    var m := Decode(w).value;
    m.kind == (if k == 0 then Movz else Movk) && m.halfword == k && m.register == SCRATCH
  }

  predicate InBounds(bytes: seq<byte>, offset: u32) {
    offset % 4 == 0 && offset <= |bytes| && 16 <= |bytes| - offset
  }

  function ReadPointer(bytes: seq<byte>, offset: u32): Option<u64> {
    if !InBounds(bytes, offset) then None
    else
      var w0, w1, w2, w3 := WordAt(bytes, offset), WordAt(bytes, offset + 4), WordAt(bytes, offset + 8),
        WordAt(bytes, offset + 12);
      if IsPointerWord(w0, 0) && IsPointerWord(w1, 1) && IsPointerWord(w2, 2) && IsPointerWord(w3, 3) then
        Some(Join([Decode(w0).value.immediate, Decode(w1).value.immediate, Decode(w2).value.immediate,
          Decode(w3).value.immediate]))
      else None
  }

  function PutPointer(bytes: seq<byte>, offset: nat, pointer: u64): (r: seq<byte>)
    requires offset + 16 <= |bytes|
    ensures |r| == |bytes|
  {
    bytes[..offset] + LittleEndian(PointerWords(SCRATCH, pointer)) + bytes[offset + 16..]
  }

  function Relocate(bytes: seq<byte>, offset: u32, slide: u64): Option<seq<byte>> {
    var pointer := ReadPointer(bytes, offset);
    if pointer.None? then None else Some(PutPointer(bytes, offset, Add64(pointer.value, slide)))
  }

  function RelocateAll(bytes: seq<byte>, offsets: seq<u32>, slide: u64): (r: Option<seq<byte>>)
    ensures r.Some? ==> |r.value| == |bytes|
  {
    if offsets == [] then Some(bytes)
    else
      var before := RelocateAll(bytes, offsets[..|offsets| - 1], slide);
      if before.None? then None else Relocate(before.value, offsets[|offsets| - 1], slide)
  }

  // ----- the loops

  /** The two checks on a word: the bits above bit 20, and the register. */
  lemma CheckedWord(w: u32, k: nat)
    requires k < 4
    ensures var base: u32 := if k == 0 then 0xD280_0000 else 0xF280_0000;
      And(w, 0xFFE0_0000) == And(Or(base, Shl(k, 21)), 0xFFE0_0000) && And(w, 0x1F) == SCRATCH <==> IsPointerWord(w, k)
  {
    hide And, Or, Shl, Low, Shr, Pow2;
    var base: u32 := if k == 0 then 0xD280_0000 else 0xF280_0000;
    FieldPowers();
    MaskIsRemainder(w, 5, 0x20);
    ShlIsProduct(k, 21, 0x20_0000);
    OrField(base, k * 0x20_0000, 23, 0x80_0000);
    UpperBits(w);
    UpperBits(base + k * 0x20_0000);
    DecodeUpper(w, k);
  }

  lemma UpperBits(w: u32)
    ensures And(w, 0xFFE0_0000) == w / 0x20_0000 * 0x20_0000
  {
    hide And, Shl, Low, Shr, Pow2;
    FieldPowers();
    assert Pow2(11) == 0x800 by { SmallPowers(); }
    ShlIsProduct(0x7FF, 21, 0x20_0000);
    AndField(w, 21, 11);
    ShrIsQuotient(w, 21, 0x20_0000);
    LowIsRemainder(w / 0x20_0000, 11, 0x800);
    ShlIsProduct(w / 0x20_0000, 21, 0x20_0000);
  }

  lemma DecodeUpper(w: u32, k: nat)
    requires k < 4
    ensures IsPointerWord(w, k) <==>
      w / 0x20_0000 == (if k == 0 then 0x694 else 0x794) + k && w % 0x20 == SCRATCH
  {
    var upper := w / 0x20;
    assert upper / 0x1_0000 == w / 0x20_0000;
    assert upper / 0x1_0000 / 4 == upper / 0x4_0000;
  }

  /** Clearing the immediate and writing another one gives the word for the other pointer. */
  lemma Rewritten(w: u32, k: nat, pointer: u64)
    requires k < 4 && IsPointerWord(w, k)
    ensures Or(And(w, U32_LIMIT - 1 - Shl(0xFFFF, 5)), Shl(Halfword(pointer, k), 5)) == PointerWord(SCRATCH, pointer, k)
  {
    hide And, Or, Shl, Low, Shr, Pow2, Encode, Halfword;
    var m := Decode(w).value;
    EncodeDecode(w);
    EncodeIsSum(m);
    EncodeIsSum(PointerMove(SCRATCH, pointer, k));
    ClearedWord(w);
    hide Decode;
    var cleared := w - m.immediate * 0x20;
    FieldPowers();
    ShlIsProduct(Halfword(pointer, k), 5, 0x20);
    EmptyImmediate(cleared, m);
    OrIntoField(cleared, Halfword(pointer, k), 5, 16);
  }

  lemma ClearedWord(w: u32)
    ensures And(w, U32_LIMIT - 1 - Shl(0xFFFF, 5)) == w - w / 0x20 % 0x1_0000 * 0x20
  {
    hide And, Shl, Low, Shr, Pow2;
    FieldPowers();
    WordPowers();
    ShlIsProduct(0xFFFF, 5, 0x20);
    AndField(w, 5, 16);
    ShrIsQuotient(w, 5, 0x20);
    LowIsRemainder(w / 0x20, 16, 0x1_0000);
    ShlIsProduct(w / 0x20 % 0x1_0000, 5, 0x20);
    AndComplement(w, 0xFFFF * 0x20, 32);
  }

  lemma EmptyImmediate(cleared: nat, m: Move)
    requires IsMove(m) && cleared == Base(m.kind) + m.halfword * 0x20_0000 + m.register
    ensures Low(Shr(cleared, 5), 16) == 0
  {
    hide Low, Shr, Pow2;
    FieldPowers();
    ShrIsQuotient(cleared, 5, 0x20);
    LowIsRemainder(cleared / 0x20, 16, 0x1_0000);
    assert cleared / 0x20 == Base(m.kind) / 0x20 + m.halfword * 0x1_0000;
  }

  lemma HalfwordByShift(x: u64, k: nat)
    requires k < 4
    ensures And(Shr(x, 16 * k), 0xFFFF) == Halfword(x, k)
  {
    hide And, Shr, Pow2, Low;
    WordPowers();
    Pow2Sum(32, 16);
    if k == 0 { SmallPowers(); ShrIsQuotient(x, 0, 1); }
    else if k == 1 { ShrIsQuotient(x, 16, 0x1_0000); }
    else if k == 2 { ShrIsQuotient(x, 32, U32_LIMIT); }
    else { ShrIsQuotient(x, 48, 0x1_0000_0000_0000); }
    MaskIsRemainder(Shr(x, 16 * k), 16, 0x1_0000);
  }

  lemma ImmediateByShift(w: u32)
    ensures And(Shr(w, 5), 0xFFFF) == w / 0x20 % 0x1_0000
  {
    hide And, Shr, Pow2;
    FieldPowers();
    ShrIsQuotient(w, 5, 0x20);
    MaskIsRemainder(w / 0x20, 16, 0x1_0000);
  }

  /** The pointer is put together halfword by halfword. */
  lemma NextHalfword(h: Halves, n: nat)
    requires n < 4
    ensures Or(Join(Prefix(h, n, 0)), Shl(h[n], 16 * n)) == Join(Prefix(h, n + 1, 0))
  {
    hide Or, Shl, Pow2, Join, Place, Prefix;
    WordPowers();
    Pow2Sum(32, 16);
    SmallPowers();
    PartialJoin(h, n);
    PartialJoin(h, n + 1);
    var x := Join(Prefix(h, n, 0));
    if n == 0 {
      PlaceTwo(0, 0);
      PlaceTwo(h[0], 0);
      OrAbove(x, h[0], 0, 1);
    } else if n == 1 {
      PlaceTwo(h[0], 0);
      PlaceTwo(h[0], h[1]);
      OrAbove(x, h[1], 16, 0x1_0000);
    } else if n == 2 {
      PlaceThree(h[0], h[1], h[2]);
      OrAbove(x, h[2], 32, 0x1_0000_0000);
    } else {
      PlaceFour(h[0], h[1], h[2], h[3]);
      OrAbove(x, h[3], 48, 0x1_0000_0000_0000);
    }
  }

  lemma PlaceTwo(a: nat, b: nat)
    requires a < 0x1_0000
    ensures Place(a, b, 0, 0) == a + b * 0x1_0000
  {
  }

  lemma PlaceThree(a: nat, b: nat, c: nat)
    requires a < 0x1_0000 && b < 0x1_0000
    ensures Place(a, b, c, 0) == Place(a, b, 0, 0) + c * 0x1_0000_0000 && Place(a, b, 0, 0) < 0x1_0000_0000
  {
  }

  lemma PlaceFour(a: nat, b: nat, c: nat, d: nat)
    requires a < 0x1_0000 && b < 0x1_0000 && c < 0x1_0000
    ensures Place(a, b, c, d) == Place(a, b, c, 0) + d * 0x1_0000_0000_0000 && Place(a, b, c, 0) < 0x1_0000_0000_0000
  {
  }

  lemma EmptyJoin(h: Halves)
    ensures Join(Prefix(h, 0, 0)) == 0
  {
    PartialJoin(h, 0);
  }

  lemma PartialJoin(h: Halves, n: nat)
    requires n <= 4
    ensures Join(Prefix(h, n, 0)) ==
      Place(if n > 0 then h[0] else 0, if n > 1 then h[1] else 0, if n > 2 then h[2] else 0, if n > 3 then h[3] else 0)
  {
    var p := Prefix(h, n, 0);
    assert Join(p) == Place(p[0], p[1], p[2], p[3]);
    hide Place;
  }

  /** The immediates of the four words at an offset. */
  function Immediates(bytes: seq<byte>, offset: nat): Halves
    requires offset + 16 <= |bytes|
  {
    seq(4, k requires 0 <= k < 4 => WordAt(bytes, offset + 4 * k) / 0x20 % 0x1_0000)
  }

  lemma ReadsImmediates(bytes: seq<byte>, offset: u32)
    requires InBounds(bytes, offset)
    requires forall k | 0 <= k < 4 :: IsPointerWord(WordAt(bytes, offset + 4 * k), k)
    ensures ReadPointer(bytes, offset) == Some(Join(Immediates(bytes, offset)))
  {
    hide WordAt, Join;
    assert IsPointerWord(WordAt(bytes, offset + 4 * 0), 0) && IsPointerWord(WordAt(bytes, offset + 4 * 1), 1);
    assert IsPointerWord(WordAt(bytes, offset + 4 * 2), 2) && IsPointerWord(WordAt(bytes, offset + 4 * 3), 3);
    var w0, w1, w2, w3 := WordAt(bytes, offset), WordAt(bytes, offset + 4), WordAt(bytes, offset + 8),
      WordAt(bytes, offset + 12);
    assert Immediates(bytes, offset) ==
      [Decode(w0).value.immediate, Decode(w1).value.immediate, Decode(w2).value.immediate, Decode(w3).value.immediate];
  }

  method CheckPointer(bytes: seq<byte>, offset: u32) returns (pointer: Option<u64>, words: seq<u32>)
    ensures pointer == ReadPointer(bytes, offset)
    ensures pointer.Some? ==> InBounds(bytes, offset) && |words| == 4
    ensures pointer.Some? ==> forall k | 0 <= k < 4 :: IsPointerWord(words[k], k)
  {
    hide IsPointerWord, Join, And, Or, Shl, Shr, FromBytes, Decode;
    words := [];
    if offset % 4 != 0 || offset > |bytes| || 16 > |bytes| - offset {
      return None, words;
    }
    var oldPointer := 0;
    ghost var h := Immediates(bytes, offset);
    EmptyJoin(h);
    for halfword := 0 to 4
      invariant |words| == halfword
      invariant forall k | 0 <= k < halfword :: words[k] == WordAt(bytes, offset + 4 * k) && IsPointerWord(words[k], k)
      invariant oldPointer == Join(Prefix(h, halfword, 0))
    {
      var read := ReadWord(bytes, offset + halfword * 4, 4);
      var word := WordAt(bytes, offset + 4 * halfword);
      assert read == word;
      var expectedBase: u32 := if halfword == 0 then 0xD280_0000 else 0xF280_0000;
      CheckedWord(word, halfword);
      if And(word, 0xFFE0_0000) != And(Or(expectedBase, Shl(halfword, 21)), 0xFFE0_0000) || And(word, 0x1F) != SCRATCH {
        return None, words;
      }
      ImmediateByShift(word);
      NextHalfword(h, halfword);
      oldPointer := Or(oldPointer, Shl(And(Shr(word, 5), 0xFFFF), 16 * halfword));
      words := words + [word];
    }
    forall k | 0 <= k < 4
      ensures IsPointerWord(WordAt(bytes, offset + 4 * k), k)
    {
      assert words[k] == WordAt(bytes, offset + 4 * k);
    }
    ReadsImmediates(bytes, offset);
    assert Prefix(h, 4, 0) == h;
    pointer := Some(oldPointer);
  }

  method WritePointer(bytes: array<byte>, offset: u32, words: seq<u32>, pointer: u64)
    requires InBounds(bytes[..], offset) && |words| == 4 && forall k | 0 <= k < 4 :: IsPointerWord(words[k], k)
    modifies bytes
    ensures bytes[..] == PutPointer(old(bytes[..]), offset, pointer)
  {
    hide IsPointerWord, And, Or, Shl, Shr, LittleEndian, ToBytes, PointerWords;
    ghost var before := bytes[..];
    ghost var target := PointerWords(SCRATCH, pointer);
    for halfword := 0 to 4
      invariant bytes[..] == before[..offset] + LittleEndian(target[..halfword]) + before[offset + 4 * halfword..]
    {
      Rewritten(words[halfword], halfword, pointer);
      HalfwordByShift(pointer, halfword);
      ImmediateMask();
      var word := And(words[halfword], U32_LIMIT - 1 - Shl(0xFFFF, 5));
      word := Or(word, Shl(And(Shr(pointer, 16 * halfword), 0xFFFF), 5));
      PointerWordOf(pointer, halfword);
      ghost var during := bytes[..];
      WriteWord(bytes, offset + 4 * halfword, 4, word);
      WroteNext(before, during, bytes[..], offset, target, halfword);
    }
    assert target[..4] == target;
  }

  lemma ImmediateMask()
    ensures Shl(0xFFFF, 5) == 0x1F_FFE0
  {
    FieldPowers();
    ShlIsProduct(0xFFFF, 5, 0x20);
  }

  lemma PointerWordOf(pointer: u64, k: nat)
    requires k < 4
    ensures PointerWords(SCRATCH, pointer)[k] == PointerWord(SCRATCH, pointer, k)
  {
    hide PointerWord;
  }

  lemma WroteNext(before: seq<byte>, during: seq<byte>, after: seq<byte>, offset: nat, words: seq<u32>, n: nat)
    requires |words| == 4 && n < 4 && offset + 16 <= |before| == |during|
    requires during == before[..offset] + LittleEndian(words[..n]) + before[offset + 4 * n..]
    requires after == during[..offset + 4 * n] + ToBytes(words[n], 4) + during[offset + 4 * n + 4..]
    ensures after == before[..offset] + LittleEndian(words[..n + 1]) + before[offset + 4 * (n + 1)..]
  {
    hide LittleEndian, ToBytes;
    assert words[..n + 1] == words[..n] + [words[n]];
    LittleEndianJoin(words[..n], [words[n]]);
    OneWord(words[n]);
    assert during[..offset + 4 * n] == before[..offset] + LittleEndian(words[..n]);
    assert during[offset + 4 * n + 4..] == before[offset + 4 * n + 4..];
  }

  method RelocateProgram(bytes: array<byte>, relocations: seq<u32>, oldAnchor: u64, anchor: u64) returns (ok: bool)
    modifies bytes
    ensures var r := RelocateAll(old(bytes[..]), relocations, Sub64(anchor, oldAnchor));
      ok == r.Some? && (ok ==> bytes[..] == r.value)
  {
    hide ReadPointer, PutPointer, InBounds;
    var slide := Sub64(anchor, oldAnchor);
    ghost var before := bytes[..];
    for r := 0 to |relocations|
      invariant RelocateAll(before, relocations[..r], slide) == Some(bytes[..])
    {
      assert relocations[..r + 1][..r] == relocations[..r];
      var oldPointer, words := CheckPointer(bytes[..], relocations[r]);
      if oldPointer.None? {
        FailsLater(before, relocations, slide, r + 1);
        return false;
      }
      WritePointer(bytes, relocations[r], words, Add64(oldPointer.value, slide));
    }
    assert relocations[..|relocations|] == relocations;
    ok := true;
  }

  lemma {:induction false} FailsLater(bytes: seq<byte>, offsets: seq<u32>, slide: u64, n: nat)
    requires n <= |offsets| && RelocateAll(bytes, offsets[..n], slide).None?
    ensures RelocateAll(bytes, offsets, slide).None?
    decreases |offsets| - n
  {
    hide Relocate;
    if n == |offsets| {
      assert offsets[..n] == offsets;
    } else {
      assert offsets[..n + 1][..n] == offsets[..n];
      FailsLater(bytes, offsets, slide, n + 1);
    }
  }

  // ----- reading and writing are the assembler's own encoding

  lemma FourWords(ws: seq<u32>)
    requires |ws| == 4
    ensures LittleEndian(ws) == ToBytes(ws[0], 4) + ToBytes(ws[1], 4) + ToBytes(ws[2], 4) + ToBytes(ws[3], 4)
  {
    hide ToBytes;
    assert ws[..3][..2] == ws[..2] && ws[..2][..1] == ws[..1] && ws[..1][..0] == [];
    assert LittleEndian(ws[..1]) == ToBytes(ws[0], 4);
    assert LittleEndian(ws[..2]) == LittleEndian(ws[..1]) + ToBytes(ws[1], 4);
    assert LittleEndian(ws[..3]) == LittleEndian(ws[..2]) + ToBytes(ws[2], 4);
  }

  /** Sixteen bytes are four words. */
  lemma BytesAreWords(bytes: seq<byte>, offset: nat, ws: seq<u32>)
    requires offset + 16 <= |bytes| && |ws| == 4
    requires forall k | 0 <= k < 4 :: WordAt(bytes, offset + 4 * k) == ws[k]
    ensures bytes[offset..offset + 16] == LittleEndian(ws)
  {
    hide LittleEndian, ToBytes, FromBytes;
    FourWords(ws);
    forall k | 0 <= k < 4
      ensures bytes[offset + 4 * k..offset + 4 * k + 4] == ToBytes(ws[k], 4)
    {
      assert WordAt(bytes, offset + 4 * k) == ws[k];
      ValueRoundTrip(bytes[offset + 4 * k..offset + 4 * k + 4]);
    }
    assert bytes[offset + 4 * 0..offset + 4 * 0 + 4] == ToBytes(ws[0], 4);
    assert bytes[offset + 4 * 1..offset + 4 * 1 + 4] == ToBytes(ws[1], 4);
    assert bytes[offset + 4 * 2..offset + 4 * 2 + 4] == ToBytes(ws[2], 4);
    assert bytes[offset + 4 * 3..offset + 4 * 3 + 4] == ToBytes(ws[3], 4);
  }

  lemma HeldWord(bytes: seq<byte>, offset: u32, p: u64, k: nat)
    requires HoldsPointer(bytes, offset, (SCRATCH, p)) && k < 4
    ensures WordAt(bytes, offset + 4 * k) == PointerWord(SCRATCH, p, k)
    ensures IsPointerWord(WordAt(bytes, offset + 4 * k), k)
    ensures WordAt(bytes, offset + 4 * k) / 0x20 % 0x1_0000 == Split(p)[k]
  {
    hide LittleEndian, FromBytes, Encode, Decode, Halfword;
    var ws := PointerWords(SCRATCH, p);
    WordBytes(ws, k);
    assert bytes[offset + 4 * k..offset + 4 * k + 4] == bytes[offset..offset + 16][4 * k..4 * k + 4] by {
      SliceOfSlice(bytes, offset, 16, 4 * k, 4);
    }
    DecodeEncode(PointerMove(SCRATCH, p, k));
    DecodedImmediate(WordAt(bytes, offset + 4 * k));
  }

  lemma DecodedImmediate(w: u32)
    requires Decode(w).Some?
    ensures Decode(w).value.immediate == w / 0x20 % 0x1_0000
  {
  }

  lemma HeldIsRead(bytes: seq<byte>, offset: u32, p: u64)
    requires HoldsPointer(bytes, offset, (SCRATCH, p))
    ensures ReadPointer(bytes, offset) == Some(p)
  {
    hide LittleEndian, IsPointerWord, WordAt, PointerWords, Split, Join;
    forall k | 0 <= k < 4
      ensures IsPointerWord(WordAt(bytes, offset + 4 * k), k)
      ensures Immediates(bytes, offset)[k] == Split(p)[k]
    {
      HeldWord(bytes, offset, p, k);
    }
    assert Immediates(bytes, offset) == Split(p);
    ReadsImmediates(bytes, offset);
    JoinSplit(p);
  }

  lemma ReadIsHeld(bytes: seq<byte>, offset: u32)
    requires ReadPointer(bytes, offset).Some?
    ensures HoldsPointer(bytes, offset, (SCRATCH, ReadPointer(bytes, offset).value))
  {
    hide LittleEndian, WordAt, Split, Join, Decode, Encode, IsPointerWord;
    var p := ReadPointer(bytes, offset).value;
    forall k | 0 <= k < 4
      ensures WordAt(bytes, offset + 4 * k) == PointerWords(SCRATCH, p)[k]
    {
      ReadWordIs(bytes, offset, k);
    }
    BytesAreWords(bytes, offset, PointerWords(SCRATCH, p));
  }

  lemma ReadWordIs(bytes: seq<byte>, offset: u32, k: nat)
    requires ReadPointer(bytes, offset).Some? && k < 4
    ensures WordAt(bytes, offset + 4 * k) == PointerWord(SCRATCH, ReadPointer(bytes, offset).value, k)
  {
    hide WordAt, Join, Decode, Encode, Halfword;
    var h := Immediates(bytes, offset);
    var p := ReadPointer(bytes, offset).value;
    ReadsImmediates(bytes, offset);
    SplitJoin(h);
    var w := WordAt(bytes, offset + 4 * k);
    assert IsPointerWord(w, k);
    EncodeDecode(w);
    DecodedImmediate(w);
    assert h[k] == Split(p)[k];
  }

  /** A pointer that is put is held; the bytes around it are untouched. */
  lemma PutIsHeld(bytes: seq<byte>, offset: u32, p: u64)
    requires InBounds(bytes, offset)
    ensures HoldsPointer(PutPointer(bytes, offset, p), offset, (SCRATCH, p))
    ensures forall i | 0 <= i < |bytes| && !(offset <= i < offset + 16) :: PutPointer(bytes, offset, p)[i] == bytes[i]
  {
    hide LittleEndian, PointerWords;
  }

  /** Putting the pointer that is there changes nothing. */
  lemma PutSame(bytes: seq<byte>, offset: u32)
    requires ReadPointer(bytes, offset).Some?
    ensures PutPointer(bytes, offset, ReadPointer(bytes, offset).value) == bytes
  {
    hide ReadPointer, LittleEndian, PointerWords;
    ReadInBounds(bytes, offset);
    var p := ReadPointer(bytes, offset).value;
    forall k | 0 <= k < 4
      ensures WordAt(bytes, offset + 4 * k) == PointerWords(SCRATCH, p)[k]
    {
      ReadWordIs(bytes, offset, k);
      PointerWordOf(p, k);
    }
    BytesAreWords(bytes, offset, PointerWords(SCRATCH, p));
    assert bytes == bytes[..offset] + bytes[offset..offset + 16] + bytes[offset + 16..];
  }

  /** Relocation by zero, if it succeeds, changes nothing, for any offsets. */
  lemma {:induction false} RelocateByZero(bytes: seq<byte>, offsets: seq<u32>)
    requires RelocateAll(bytes, offsets, 0).Some?
    ensures RelocateAll(bytes, offsets, 0) == Some(bytes)
    decreases |offsets|
  {
    hide ReadPointer, PutPointer;
    if offsets != [] {
      RelocateByZero(bytes, offsets[..|offsets| - 1]);
      PutSame(bytes, offsets[|offsets| - 1]);
    }
  }

  // ----- whole programs

  predicate Covered(offsets: seq<u32>, i: nat) {
    exists r :: 0 <= r < |offsets| && Inside(offsets[r], i)
  }

  predicate Inside(offset: u32, i: nat) {
    offset <= i < offset + 16
  }

  ghost predicate AllSpaced(offsets: seq<u32>) {
    forall r, s | 0 <= r < s < |offsets| :: Spaced(offsets[r], offsets[s])
  }

  /** At every offset there is a pointer in x16. */
  ghost predicate Relocatable(bytes: seq<byte>, offsets: seq<u32>) {
    forall r | 0 <= r < |offsets| :: ReadPointer(bytes, offsets[r]).Some?
  }

  /** `after` is `before` with every pointer moved by `slide`, and nothing else. */
  ghost predicate Slid(before: seq<byte>, after: seq<byte>, offsets: seq<u32>, slide: u64) {
    |after| == |before| &&
    (forall r | 0 <= r < |offsets| :: SlidAt(before, after, offsets[r], slide)) &&
    (forall i | 0 <= i < |before| && !Covered(offsets, i) :: after[i] == before[i])
  }

  predicate SlidAt(before: seq<byte>, after: seq<byte>, offset: u32, slide: u64) {
    var p := ReadPointer(before, offset);
    p.Some? && ReadPointer(after, offset) == Some(Add64(p.value, slide))
  }

  /** What is held at an offset depends on its sixteen bytes alone. */
  lemma ReadDependsOn(a: seq<byte>, b: seq<byte>, offset: u32)
    requires |a| == |b| && (offset + 16 <= |a| ==> a[offset..offset + 16] == b[offset..offset + 16])
    ensures ReadPointer(a, offset) == ReadPointer(b, offset)
  {
    hide ReadPointer, PointerWords, LittleEndian;
    if ReadPointer(a, offset).Some? {
      ReadIsHeld(a, offset);
      HeldIsRead(b, offset, ReadPointer(a, offset).value);
    } else if ReadPointer(b, offset).Some? {
      ReadIsHeld(b, offset);
      HeldIsRead(a, offset, ReadPointer(b, offset).value);
    }
  }

  lemma ReadInBounds(bytes: seq<byte>, offset: u32)
    requires ReadPointer(bytes, offset).Some?
    ensures InBounds(bytes, offset)
  {
    hide WordAt, IsPointerWord;
  }

  /** Relocating at one more offset. */
  lemma SlidNext(before: seq<byte>, during: seq<byte>, offsets: seq<u32>, slide: u64)
    requires offsets != [] && AllSpaced(offsets)
    requires Slid(before, during, offsets[..|offsets| - 1], slide)
    requires ReadPointer(before, offsets[|offsets| - 1]).Some?
    ensures var after := Relocate(during, offsets[|offsets| - 1], slide);
      after.Some? && Slid(before, after.value, offsets, slide)
  {
    hide ReadPointer, PutPointer;
    var n := |offsets| - 1;
    var offset, earlier := offsets[n], offsets[..n];
    UntouchedAt(before, during, offsets, slide);
    ReadInBounds(during, offset);
    var p := Add64(ReadPointer(during, offset).value, slide);
    var after := PutPointer(during, offset, p);
    PutIsHeld(during, offset, p);
    HeldIsRead(after, offset, p);
    forall r | 0 <= r < |offsets|
      ensures SlidAt(before, after, offsets[r], slide)
    {
      if r < n {
        assert SlidAt(before, during, earlier[r], slide);
        assert Spaced(offsets[r], offset);
        ReadDependsOn(during, after, offsets[r]);
      }
    }
    forall i | 0 <= i < |before| && !Covered(offsets, i)
      ensures after[i] == before[i]
    {
      assert !Inside(offsets[n], i);
      forall r | 0 <= r < |earlier|
        ensures !Inside(earlier[r], i)
      {
        assert !Inside(offsets[r], i);
      }
    }
  }

  lemma UntouchedAt(before: seq<byte>, during: seq<byte>, offsets: seq<u32>, slide: u64)
    requires offsets != [] && AllSpaced(offsets)
    requires Slid(before, during, offsets[..|offsets| - 1], slide)
    ensures ReadPointer(during, offsets[|offsets| - 1]) == ReadPointer(before, offsets[|offsets| - 1])
  {
    hide ReadPointer;
    var n := |offsets| - 1;
    var offset, earlier := offsets[n], offsets[..n];
    if offset + 16 <= |before| {
      forall i | offset <= i < offset + 16
        ensures during[i] == before[i]
      {
        forall r | 0 <= r < |earlier|
          ensures !Inside(earlier[r], i)
        {
          assert Spaced(offsets[r], offset);
        }
      }
    }
    ReadDependsOn(before, during, offset);
  }

  /** Relocation succeeds exactly if every offset names a pointer in x16, and then moves each by
      the slide and touches no other byte. */
  lemma {:induction false} RelocationSlides(bytes: seq<byte>, offsets: seq<u32>, slide: u64)
    requires AllSpaced(offsets)
    ensures RelocateAll(bytes, offsets, slide).Some? <==> Relocatable(bytes, offsets)
    ensures RelocateAll(bytes, offsets, slide).Some? ==>
      Slid(bytes, RelocateAll(bytes, offsets, slide).value, offsets, slide)
  {
    hide ReadPointer, Slid, Relocate;
    if offsets == [] {
      NothingSlides(bytes, slide);
    } else {
      var n := |offsets| - 1;
      var earlier := offsets[..n];
      RelocationSlides(bytes, earlier, slide);
      var during := RelocateAll(bytes, earlier, slide);
      if during.Some? {
        assert forall r | 0 <= r < n :: offsets[r] == earlier[r];
        UntouchedAt(bytes, during.value, offsets, slide);
        if ReadPointer(bytes, offsets[n]).Some? {
          SlidNext(bytes, during.value, offsets, slide);
        } else {
          NoPointer(during.value, offsets[n], slide);
        }
      } else {
        var r :| 0 <= r < |earlier| && ReadPointer(bytes, earlier[r]).None?;
        assert offsets[r] == earlier[r];
      }
    }
  }

  lemma NothingSlides(bytes: seq<byte>, slide: u64)
    ensures Slid(bytes, bytes, [], slide)
  {
  }

  lemma NoPointer(bytes: seq<byte>, offset: u32, slide: u64)
    requires ReadPointer(bytes, offset).None?
    ensures Relocate(bytes, offset, slide).None?
  {
    hide ReadPointer;
  }

  /** There is only one program with given pointers at given offsets. */
  lemma SlidIsUnique(before: seq<byte>, a: seq<byte>, b: seq<byte>, offsets: seq<u32>, slide: u64)
    requires Slid(before, a, offsets, slide) && Slid(before, b, offsets, slide)
    ensures a == b
  {
    hide ReadPointer, PointerWords, LittleEndian;
    forall i | 0 <= i < |before|
      ensures a[i] == b[i]
    {
      if Covered(offsets, i) {
        var r :| 0 <= r < |offsets| && Inside(offsets[r], i);
        assert SlidAt(before, a, offsets[r], slide) && SlidAt(before, b, offsets[r], slide);
        ReadIsHeld(a, offsets[r]);
        ReadIsHeld(b, offsets[r]);
        var o := offsets[r];
        assert a[o..o + 16][i - o] == b[o..o + 16][i - o];
      }
    }
  }

  /** Two relocations are one by the sum of the slides, and a slide of zero changes nothing. */
  lemma RelocationComposes(bytes: seq<byte>, offsets: seq<u32>, first: u64, second: u64)
    requires AllSpaced(offsets) && RelocateAll(bytes, offsets, first).Some?
    ensures RelocateAll(RelocateAll(bytes, offsets, first).value, offsets, second) ==
      RelocateAll(bytes, offsets, Add64(first, second))
    ensures RelocateAll(bytes, offsets, 0) == Some(bytes)
  {
    hide ReadPointer, RelocateAll;
    RelocationSlides(bytes, offsets, first);
    var moved := RelocateAll(bytes, offsets, first).value;
    RelocationSlides(moved, offsets, second);
    RelocationSlides(bytes, offsets, Add64(first, second));
    forall r | 0 <= r < |offsets|
      ensures ReadPointer(moved, offsets[r]).Some?
    {
      assert SlidAt(bytes, moved, offsets[r], first);
    }
    SlidTwice(bytes, moved, RelocateAll(moved, offsets, second).value, offsets, first, second);
    SlidIsUnique(bytes, RelocateAll(moved, offsets, second).value,
      RelocateAll(bytes, offsets, Add64(first, second)).value,
      offsets, Add64(first, second));
    RelocationSlides(bytes, offsets, 0);
    RelocateByZero(bytes, offsets);
  }

  lemma SlidTwice(bytes: seq<byte>, moved: seq<byte>, again: seq<byte>, offsets: seq<u32>, first: u64, second: u64)
    requires Slid(bytes, moved, offsets, first) && Slid(moved, again, offsets, second)
    ensures Slid(bytes, again, offsets, Add64(first, second))
  {
    hide ReadPointer, Add64;
    forall r | 0 <= r < |offsets|
      ensures SlidAt(bytes, again, offsets[r], Add64(first, second))
    {
      assert SlidAt(bytes, moved, offsets[r], first) && SlidAt(moved, again, offsets[r], second);
      SlidesAdd(ReadPointer(bytes, offsets[r]).value, first, second);
    }
  }

  lemma SlidesAdd(p: u64, first: u64, second: u64)
    ensures Add64(Add64(p, first), second) == Add64(p, Add64(first, second))
  {
  }

  /** The assembler would have emitted exactly the relocated bytes, had it been given the moved
      pointers. */
  lemma RelocatedIsReemitted(program: Program, other: Program, pointers: seq<(nat, u64)>, moved: seq<(nat, u64)>,
                             slide: u64)
    requires HoldsPointers(program, pointers) && HoldsPointers(other, moved)
    requires other.pointerRelocations == program.pointerRelocations && |other.bytes| == |program.bytes|
    requires forall r | 0 <= r < |pointers| ::
      pointers[r].0 == SCRATCH && moved[r] == (SCRATCH, Add64(pointers[r].1, slide))
    requires forall i | 0 <= i < |program.bytes| && !Covered(program.pointerRelocations, i) ::
      other.bytes[i] == program.bytes[i]
    ensures RelocateAll(program.bytes, program.pointerRelocations, slide) == Some(other.bytes)
  {
    hide ReadPointer, RelocateAll, HoldsPointer;
    var offsets := program.pointerRelocations;
    forall r | 0 <= r < |offsets|
      ensures SlidAt(program.bytes, other.bytes, offsets[r], slide)
    {
      HeldIsRead(program.bytes, offsets[r], pointers[r].1);
      HeldIsRead(other.bytes, offsets[r], moved[r].1);
    }
    RelocationSlides(program.bytes, offsets, slide);
    SlidIsUnique(program.bytes, other.bytes, RelocateAll(program.bytes, offsets, slide).value, offsets, slide);
  }
}
