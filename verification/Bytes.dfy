/** Byte strings, little-endian fields and pieces of buffers. */
module Bytes {

  type byte = b: int | 0 <= b < 256
  type bytes = seq<byte>

  function Le16(s: bytes, at: nat): (n: nat)
    requires at + 2 <= |s|
  {
    s[at] as int + 0x100 * (s[at + 1] as int)
  }

  function Le24(s: bytes, at: nat): (n: nat)
    requires at + 3 <= |s|
  {
    s[at] as int + 0x100 * (s[at + 1] as int) + 0x1_0000 * (s[at + 2] as int)
  }

  function Le32(s: bytes, at: nat): (n: nat)
    requires at + 4 <= |s|
  {
    s[at] as int + 0x100 * (s[at + 1] as int) + 0x1_0000 * (s[at + 2] as int) + 0x100_0000 * (s[at + 3] as int)
  }

  // ----- where a piece of data lies in a buffer

  predicate At(data: bytes, p: nat, s: bytes) {
    p + |s| <= |data| && data[p..p + |s|] == s
  }

  lemma AtSplit(data: bytes, p: nat, a: bytes, b: bytes)
    ensures At(data, p, a + b) <==> At(data, p, a) && At(data, p + |a|, b)
  {
    if At(data, p, a + b) {
      assert data[p..p + |a|] == (a + b)[..|a|];
      assert data[p + |a|..p + |a| + |b|] == (a + b)[|a|..];
    }
    if At(data, p, a) && At(data, p + |a|, b) {
      assert data[p..p + |a + b|] == data[p..p + |a|] + data[p + |a|..p + |a| + |b|];
    }
  }

  lemma AtUnique(data: bytes, p: nat, a: bytes, b: bytes)
    requires At(data, p, a) && At(data, p, b) && |a| == |b|
    ensures a == b
  {
  }

  lemma AtSlice(data: bytes, p: nat, s: bytes)
    requires At(data, p, s)
    ensures p + |s| <= |data| && data[p..p + |s|] == s
  {
  }

  // ----- writing into memory

  function Put(mem: bytes, at: nat, data: bytes): (mem': bytes)
    requires at + |data| <= |mem|
    ensures |mem'| == |mem|
  {
    mem[..at] + data + mem[at + |data|..]
  }

  /** Reading back a field gives what was put there, or what was there before. */
  lemma PutThenRead(mem: bytes, at: nat, data: bytes, i: nat, j: nat)
    requires at + |data| <= |mem| && i <= j <= |mem|
    ensures i == at && j == at + |data| ==> Put(mem, at, data)[i..j] == data
    ensures j <= at || at + |data| <= i ==> Put(mem, at, data)[i..j] == mem[i..j]
  {
    var mem' := Put(mem, at, data);
    if i == at && j == at + |data| {
      assert mem'[i..j] == data;
    }
    if j <= at || at + |data| <= i {
      forall x | i <= x < j ensures mem'[x] == mem[x] {
      }
      assert mem'[i..j] == mem[i..j];
    }
  }

  /** memcpy of the first `len` bytes of `chunk`, which is the next piece of
      `whole`, into a buffer with room for it. */
  method CopyChunk(data: array<byte>, at: nat, chunk: bytes, len: nat, ghost whole: bytes)
    requires len <= |chunk| && At(whole, at, chunk[..len]) && at + len <= data.Length
    requires data[..at] == whole[..at]
    modifies data
    ensures data[..at + len] == whole[..at + len]
    ensures data[at + len..] == old(data[at + len..])
  {
    forall i | 0 <= i < len {
      data[at + i] := chunk[i];
    }
    assert data[..at] == whole[..at];
    forall i | at <= i < at + len ensures data[i] == whole[i] {
      assert whole[i] == whole[at..at + len][i - at] == chunk[..len][i - at];
    }
  }
}
