/** Little-endian integers. */
module ByteOrder {
  import opened Words

  function FromBytes(bytes: seq<byte>): nat {
    if bytes == [] then 0 else bytes[0] + 0x100 * FromBytes(bytes[1..])
  }

  function ToBytes(x: nat, n: nat): (bytes: seq<byte>)
    ensures |bytes| == n
  {
    if n == 0 then [] else [x % 0x100] + ToBytes(x / 0x100, n - 1)
  }

  lemma Pow2Bytes(n: nat)
    ensures Pow2(8 * n + 8) == 0x100 * Pow2(8 * n)
  {
    WordPowers();
    Pow2Sum(8, 8 * n);
  }

  lemma {:induction false} BytesRoundTrip(x: nat, n: nat)
    requires x < Pow2(8 * n)
    ensures FromBytes(ToBytes(x, n)) == x
  {
    if n > 0 {
      Pow2Bytes(n - 1);
      BytesRoundTrip(x / 0x100, n - 1);
    }
  }

  lemma {:induction false} ValueRoundTrip(bytes: seq<byte>)
    ensures ToBytes(FromBytes(bytes), |bytes|) == bytes
    ensures FromBytes(bytes) < Pow2(8 * |bytes|)
  {
    if bytes != [] {
      Pow2Bytes(|bytes| - 1);
      ValueRoundTrip(bytes[1..]);
      assert FromBytes(bytes) / 0x100 == FromBytes(bytes[1..]);
    }
  }

  /** One more byte, at the upper end. */
  lemma {:induction false} FromBytesSnoc(bytes: seq<byte>, b: byte)
    ensures FromBytes(bytes + [b]) == FromBytes(bytes) + b * Pow2(8 * |bytes|)
  {
    if bytes != [] {
      var tail := bytes[1..];
      assert (bytes + [b])[1..] == tail + [b];
      FromBytesSnoc(tail, b);
      Pow2Bytes(|tail|);
      var p := Pow2(8 * |tail|);
      assert b * (0x100 * p) == 0x100 * (b * p);
    }
  }

  lemma {:induction false} ToBytesSnoc(x: nat, n: nat)
    ensures ToBytes(x, n + 1) == ToBytes(x, n) + [Shr(x, 8 * n) % 0x100]
  {
    if n > 0 {
      ToBytesSnoc(x / 0x100, n - 1);
      ShrByte(x, 8 * (n - 1));
      assert ToBytes(x, n + 1) == [x % 0x100] + ToBytes(x / 0x100, n);
    }
  }

  lemma ShrByte(x: nat, k: nat)
    ensures Shr(x, k + 8) == Shr(x / 0x100, k)
  {
    assert x / 2 / 2 / 2 / 2 / 2 / 2 / 2 / 2 == x / 0x100;
    assert Shr(x, k + 8) == Shr(x / 2, k + 7);
    assert Shr(x / 2, k + 7) == Shr(x / 2 / 2, k + 6);
    assert Shr(x / 2 / 2, k + 6) == Shr(x / 2 / 2 / 2, k + 5);
    assert Shr(x / 2 / 2 / 2, k + 5) == Shr(x / 2 / 2 / 2 / 2, k + 4);
    assert Shr(x / 2 / 2 / 2 / 2, k + 4) == Shr(x / 2 / 2 / 2 / 2 / 2, k + 3);
    assert Shr(x / 2 / 2 / 2 / 2 / 2, k + 3) == Shr(x / 2 / 2 / 2 / 2 / 2 / 2, k + 2);
    assert Shr(x / 2 / 2 / 2 / 2 / 2 / 2, k + 2) == Shr(x / 2 / 2 / 2 / 2 / 2 / 2 / 2, k + 1);
  }

  /** The writers push the value's bytes from the lowest. */
  method Append(bytes: seq<byte>, value: nat, size: nat) returns (r: seq<byte>)
    ensures r == bytes + ToBytes(value, size)
  {
    r := bytes;
    for index := 0 to size
      invariant r == bytes + ToBytes(value, index)
    {
      ToBytesSnoc(value, index);
      r := r + [Shr(value, 8 * index) % 0x100];
    }
  }

  /** The readers combine bytes shifted into place. */
  method ReadWord(bytes: seq<byte>, offset: nat, size: nat) returns (value: nat)
    requires offset + size <= |bytes|
    ensures value == FromBytes(bytes[offset..offset + size])
  {
    value := 0;
    for index := 0 to size
      invariant value == FromBytes(bytes[offset..offset + index])
    {
      var b := bytes[offset + index];
      ghost var read := bytes[offset..offset + index];
      assert bytes[offset..offset + index + 1] == read + [b];
      FromBytesSnoc(read, b);
      ValueRoundTrip(read);
      OrAbove(value, b, 8 * index, Pow2(8 * index));
      value := Or(value, Shl(b, 8 * index));
    }
  }

  method WriteWord(bytes: array<byte>, offset: nat, size: nat, value: nat)
    requires offset + size <= bytes.Length
    modifies bytes
    ensures bytes[..] == old(bytes[..offset]) + ToBytes(value, size) + old(bytes[offset + size..])
  {
    for index := 0 to size
      invariant bytes[offset..offset + index] == ToBytes(value, index)
      invariant bytes[..offset] == old(bytes[..offset])
      invariant bytes[offset + index..] == old(bytes[offset + index..])
    {
      ToBytesSnoc(value, index);
      bytes[offset + index] := Shr(value, 8 * index) % 0x100;
      assert bytes[offset..offset + index + 1] == bytes[offset..offset + index] + [bytes[offset + index]];
    }
  }

  /** A part of a part. */
  lemma SliceOfSlice(bytes: seq<byte>, a: nat, n: nat, b: nat, m: nat)
    requires a + n <= |bytes| && b + m <= n
    ensures bytes[a..a + n][b..b + m] == bytes[a + b..a + b + m]
  {
    var outer := bytes[a..a + n];
    var x, y := outer[b..b + m], bytes[a + b..a + b + m];
    assert |x| == m && |y| == m;
    forall i | 0 <= i < m
      ensures x[i] == y[i]
    {
      assert x[i] == outer[b + i];
    }
  }

  // ----- sequences of 32-bit words

  function LittleEndian(words: seq<u32>): (bytes: seq<byte>)
    ensures |bytes| == 4 * |words|
  {
    if words == [] then [] else LittleEndian(words[..|words| - 1]) + ToBytes(words[|words| - 1], 4)
  }

  lemma {:induction false} LittleEndianJoin(a: seq<u32>, b: seq<u32>)
    ensures LittleEndian(a + b) == LittleEndian(a) + LittleEndian(b)
  {
    hide ToBytes;
    if b == [] {
      assert a + b == a;
    } else {
      var shorter := b[..|b| - 1];
      assert (a + b)[..|a + b| - 1] == a + shorter;
      LittleEndianJoin(a, shorter);
    }
  }

  lemma LittleEndianSlice(words: seq<u32>, i: nat, j: nat)
    requires i <= j <= |words|
    ensures LittleEndian(words)[4 * i..4 * j] == LittleEndian(words[i..j])
  {
    hide LittleEndian;
    var front, middle, back := words[..i], words[i..j], words[j..];
    ThreeParts(words, i, j);
    JoinThree(front, middle, back);
    var a, b, c := LittleEndian(front), LittleEndian(middle), LittleEndian(back);
    MiddlePart(a, b, c);
    assert |a| == 4 * i && |a| + |b| == 4 * j;
  }

  lemma ThreeParts(words: seq<u32>, i: nat, j: nat)
    requires i <= j <= |words|
    ensures words == words[..i] + words[i..j] + words[j..]
  {
  }

  lemma JoinThree(front: seq<u32>, middle: seq<u32>, back: seq<u32>)
    ensures LittleEndian(front + middle + back) == LittleEndian(front) + LittleEndian(middle) + LittleEndian(back)
  {
    hide LittleEndian;
    LittleEndianJoin(front + middle, back);
    LittleEndianJoin(front, middle);
  }

  lemma MiddlePart(a: seq<byte>, b: seq<byte>, c: seq<byte>)
    ensures (a + b + c)[|a|..|a| + |b|] == b
  {
  }

  lemma OneWord(w: u32)
    ensures LittleEndian([w]) == ToBytes(w, 4) && FromBytes(ToBytes(w, 4)) == w
  {
    hide ToBytes, FromBytes;
    WordPowers();
    BytesRoundTrip(w, 4);
    assert [w][..0] == [];
  }

  lemma WordBytes(words: seq<u32>, i: nat)
    requires i < |words|
    ensures LittleEndian(words)[4 * i..4 * i + 4] == ToBytes(words[i], 4)
    ensures FromBytes(LittleEndian(words)[4 * i..4 * i + 4]) == words[i]
  {
    hide LittleEndian, ToBytes, FromBytes;
    LittleEndianSlice(words, i, i + 1);
    assert words[i..i + 1] == [words[i]];
    OneWord(words[i]);
  }
}
