/**
 One chunk under a writer: the counters in memory, the bytes on disk and the record log they
 stand for, and what each pwrite of the writer does to them.
 */
module Chunks {
  import opened Codec
  import opened Format
  import opened Images

  /** The counters of a chunk in memory. */
  datatype Chunk = Chunk(filesAlloc: nat, filesCount: nat, currentOffset: nat, availSpace: nat)

  function SuperOf(id: nat, c: Chunk): Super {
    Super(id, c.filesAlloc, c.filesCount, c.currentOffset, c.availSpace)
  }

  /** The counters that belong to the log `rs` in a chunk of `size` bytes. */
  function CountersFor(rs: seq<Record>, size: nat): Chunk
    requires SUPERBLOCK_SIZE + |Log(rs)| <= size
  {
    Chunk(|rs|, |rs|, SUPERBLOCK_SIZE + |Log(rs)|, size - SUPERBLOCK_SIZE - |Log(rs)|)
  }

  /** The chunk `id` of `size` bytes stands for the log `rs`, of which the superblock on disk
      commits the first `d` records. At least one byte is always left over. */
  predicate ChunkOk(id: nat, c: Chunk, file: seq<byte>, rs: seq<Record>, d: nat, size: nat) {
    && id < 0x1_0000_0000_0000_0000 && size <= 0x8000_0000
    && AllFit(rs) && d <= |rs|
    && SUPERBLOCK_SIZE + |Log(rs)| < size && c == CountersFor(rs, size)
    && |file| == size
    && file[SUPERBLOCK_SIZE..c.currentOffset] == Log(rs)
    && SUPERBLOCK_SIZE + |Log(rs[..d])| < size
    && file[..SUPERBLOCK_SIZE] == EncodeSuper(SuperOf(id, CountersFor(rs[..d], size)))
  }

  /** The first `done` bytes of the record `r` are in the free space right behind the log. */
  predicate InProgress(c: Chunk, file: seq<byte>, r: Record, done: nat) {
    && RecordFits(r)
    && done <= FILE_META_SIZE + |r.data| < c.availSpace
    && c.currentOffset + FILE_META_SIZE + |r.data| < |file|
    && file[c.currentOffset..c.currentOffset + done] == Encode(r)[..done]
  }

  lemma SpliceBehind(file: seq<byte>, at: nat, bytes: seq<byte>, a: nat, b: nat)
    requires a <= b <= at && at + |bytes| <= |file|
    ensures Splice(file, at, bytes)[a..b] == file[a..b]
  {
  }

  lemma SpliceAt(file: seq<byte>, from: nat, at: nat, bytes: seq<byte>)
    requires from <= at && at + |bytes| <= |file|
    ensures Splice(file, at, bytes)[from..at + |bytes|] == file[from..at] + bytes
  {
  }

  lemma SpliceBefore(file: seq<byte>, bytes: seq<byte>, a: nat, b: nat)
    requires |bytes| <= a <= b <= |file|
    ensures Splice(file, 0, bytes)[a..b] == file[a..b]
    ensures Splice(file, 0, bytes)[..|bytes|] == bytes
  {
  }

  /** Writing `n` more bytes of the record leaves the log and the superblock as they are. */
  lemma WriteMore(id: nat, c: Chunk, file: seq<byte>, rs: seq<Record>, d: nat, size: nat, r: Record, done: nat, n: nat)
    requires ChunkOk(id, c, file, rs, d, size) && InProgress(c, file, r, done)
    requires done + n <= FILE_META_SIZE + |r.data|
    ensures var file' := Splice(file, c.currentOffset + done, Encode(r)[done..done + n]);
            ChunkOk(id, c, file', rs, d, size) && InProgress(c, file', r, done + n)
  {
    hide Encode, Log, EncodeSuper, AllFit;
    var e := Encode(r);
    var at, bytes := c.currentOffset + done, e[done..done + n];
    SpliceBehind(file, at, bytes, 0, SUPERBLOCK_SIZE);
    SpliceBehind(file, at, bytes, SUPERBLOCK_SIZE, c.currentOffset);
    SpliceAt(file, c.currentOffset, at, bytes);
    SliceJoin(e, 0, done, done + n);
  }

  /** Advancing the counters makes a record that is wholly written the last one of the log. */
  lemma CountRecord(id: nat, c: Chunk, file: seq<byte>, rs: seq<Record>, d: nat, size: nat, r: Record)
    requires ChunkOk(id, c, file, rs, d, size) && InProgress(c, file, r, FILE_META_SIZE + |r.data|)
    ensures var k := FILE_META_SIZE + |r.data|;
            && k <= c.availSpace
            && ChunkOk(id, Chunk(c.filesAlloc + 1, c.filesCount + 1, c.currentOffset + k, c.availSpace - k),
                       file, rs + [r], d, size)
  {
    hide Encode, EncodeSuper;
    var e := Encode(r);
    assert e[..|e|] == e;
    assert (rs + [r])[..|rs|] == rs;
    assert Log(rs + [r]) == Log(rs) + e;
    SliceJoin(file, SUPERBLOCK_SIZE, c.currentOffset, c.currentOffset + |e|);
    assert (rs + [r])[..d] == rs[..d];
  }

  /** A superblock write that succeeds commits the whole log. */
  lemma CommitLog(id: nat, c: Chunk, file: seq<byte>, rs: seq<Record>, d: nat, size: nat)
    requires ChunkOk(id, c, file, rs, d, size)
    ensures ChunkOk(id, c, Splice(file, 0, EncodeSuper(SuperOf(id, c))), rs, |rs|, size)
  {
    hide Encode, EncodeSuper, Log, AllFit;
    assert rs[..|rs|] == rs;
    SpliceBefore(file, EncodeSuper(SuperOf(id, c)), SUPERBLOCK_SIZE, c.currentOffset);
  }

  lemma {:induction false} LogLength(rs: seq<Record>)
    ensures FILE_META_SIZE * |rs| <= |Log(rs)|
  {
    hide Encode;
    if rs != [] { LogLength(rs[..|rs| - 1]); }
  }

  lemma LogPrefix(rs: seq<Record>, d: nat)
    requires d <= |rs|
    ensures Log(rs) == Log(rs[..d]) + Log(rs[d..])
  {
    hide Log;
    assert rs == rs[..d] + rs[d..];
    LogConcat(rs[..d], rs[d..]);
  }

  function DurableImage(id: nat, rs: seq<Record>, d: nat, size: nat): Image
    requires d <= |rs| && SUPERBLOCK_SIZE + |Log(rs[..d])| <= size
  {
    Image(SuperOf(id, CountersFor(rs[..d], size)), rs[..d])
  }

  /** What a crash leaves of a chunk: the records its superblock commits, and no trace of the
      others. */
  lemma CrashChunk(id: nat, c: Chunk, file: seq<byte>, rs: seq<Record>, d: nat, size: nat)
    requires ChunkOk(id, c, file, rs, d, size)
    ensures Holds(file, DurableImage(id, rs, d, size))
    ensures ChunkOk(id, CountersFor(rs[..d], size), file, rs[..d], d, size)
  {
    hide Log, EncodeSuper, Encode;
    LogPrefix(rs, d);
    LogLength(rs[..d]);
    DropHead(file, SUPERBLOCK_SIZE, c.currentOffset, Log(rs[..d]), Log(rs[d..]));
    assert rs[..d][..d] == rs[..d];
  }
}
