/** The checksum of a stretch of a linked buffer, block by block. */
module BufferAdler {
  import opened Codec
  import opened Adler
  import opened RwBuffers

  lemma FoldSlice(s: Sums, data: seq<byte>, from: nat, p: nat, q: nat)
    requires from <= p <= q <= |data|
    ensures Fold(s, data[from..q]) == Fold(Fold(s, data[from..p]), data[p..q])
  {
    SliceJoin(data, from, p, q);
    FoldConcat(s, data[from..p], data[p..q]);
  }

  lemma NothingFolded(s: Sums)
    ensures Fold(s, []) == s
  {
  }

  /** For every block layout the checksum is that of the flattened bytes, and the read position
      is where it was. */
  method BufferAdler32(adler: nat, buffer: RwBuffer, len: nat) returns (r: nat)
    requires buffer.Valid() && buffer.readPos + len <= buffer.writePos
    modifies buffer`readPos, buffer`readBlock, buffer`readBase
    ensures buffer.Valid() && buffer.readPos == old(buffer.readPos)
    ensures r == Checksum(adler, buffer.Written()[buffer.readPos..buffer.readPos + len])
  {
    hide RwBuffer.Valid, RwBuffer.Written, Fold;
    var from := buffer.readPos;
    WrittenLength(buffer);
    NothingFolded(Unpack(adler));
    var seed := Unpack(adler);
    var a: u32, b: u32 := seed.a, seed.b;
    ghost var data := buffer.Written();
    var left := len;
    while left > 0
      invariant 0 <= left <= len && buffer.Valid() && buffer.readPos == from + len - left
      invariant a <= 65535 && b <= 65535
      invariant Sums(a, b) == Fold(seed, data[from..buffer.readPos])
    {
      ghost var p := buffer.readPos;
      var stretch := buffer.ReadSome(left);
      FoldSlice(seed, data, from, p, buffer.readPos);
      a, b := LongRun(a, b, stretch);
      left := left - |stretch|;
    }
    buffer.ResetRead(from);
    r := Pack(Sums(a, b));
  }
}
