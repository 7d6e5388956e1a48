/**
 The linked read/write buffer: fixed-size memory blocks in a list, a read and a write position,
 and a block cursor for each. The cursors make it behave as one byte string, the concatenation
 of its blocks, of which the first `writePos` bytes are written.
 */
module RwBuffers {
  import opened Codec

  // ---------------------------------------------------------------------------
  // The concatenation of a list of blocks.

  /** The position at which block `k` starts. */
  function Base(bs: seq<seq<byte>>, k: nat): nat
    requires k <= |bs|
  {
    if k == 0 then 0 else Base(bs, k - 1) + |bs[k - 1]|
  }

  function Flat(bs: seq<seq<byte>>): seq<byte> {
    if bs == [] then [] else Flat(bs[..|bs| - 1]) + bs[|bs| - 1]
  }

  lemma {:induction false} BasePrefix(bs: seq<seq<byte>>, cs: seq<seq<byte>>, k: nat)
    requires k <= |bs| && k <= |cs|
    requires forall i :: 0 <= i < k ==> |bs[i]| == |cs[i]|
    ensures Base(bs, k) == Base(cs, k)
  {
    if k > 0 { BasePrefix(bs, cs, k - 1); }
  }

  lemma {:induction false} FlatLength(bs: seq<seq<byte>>)
    ensures |Flat(bs)| == Base(bs, |bs|)
  {
    if bs != [] {
      var init := bs[..|bs| - 1];
      FlatLength(init);
      BasePrefix(init, bs, |init|);
    }
  }

  lemma {:induction false} BaseMonotone(bs: seq<seq<byte>>, j: nat, k: nat)
    requires j <= k <= |bs|
    ensures Base(bs, j) <= Base(bs, k)
    decreases k - j
  {
    if j < k { BaseMonotone(bs, j, k - 1); }
  }

  /** Block `k` is the stretch of the concatenation that starts at its base. */
  lemma {:induction false} FlatBlock(bs: seq<seq<byte>>, k: nat)
    requires k < |bs|
    ensures Base(bs, k) + |bs[k]| <= |Flat(bs)|
    ensures Flat(bs)[Base(bs, k)..Base(bs, k) + |bs[k]|] == bs[k]
    decreases |bs|
  {
    FlatLength(bs);
    BaseMonotone(bs, k + 1, |bs|);
    var init := bs[..|bs| - 1];
    FlatLength(init);
    if k < |bs| - 1 {
      FlatBlock(init, k);
      BasePrefix(init, bs, k);
      var lo, hi := Base(bs, k), Base(bs, k) + |bs[k]|;
      assert Flat(bs)[lo..hi] == Flat(init)[lo..hi];
    } else {
      BasePrefix(init, bs, k);
      assert Flat(bs) == Flat(init) + bs[k] && |Flat(init)| == Base(bs, k);
    }
  }

  /** Part of block `k`, seen in the concatenation. */
  lemma FlatSlice(bs: seq<seq<byte>>, k: nat, off: nat, n: nat)
    requires k < |bs| && off + n <= |bs[k]|
    ensures Base(bs, k) + off + n <= |Flat(bs)|
    ensures bs[k][off..off + n] == Flat(bs)[Base(bs, k) + off..Base(bs, k) + off + n]
  {
    FlatBlock(bs, k);
    SliceSlice(Flat(bs), Base(bs, k), Base(bs, k) + |bs[k]|, off, off + n);
  }

  /** Overwriting part of block `k` overwrites that stretch of the concatenation and moves no
      block. */
  lemma {:induction false} FlatSplice(bs: seq<seq<byte>>, k: nat, off: nat, data: seq<byte>)
    requires k < |bs| && off + |data| <= |bs[k]|
    ensures Base(bs, k) + off + |data| <= |Flat(bs)|
    ensures Flat(bs[k := Splice(bs[k], off, data)]) == Splice(Flat(bs), Base(bs, k) + off, data)
    decreases |bs|
  {
    FlatBlock(bs, k);
    var cs := bs[k := Splice(bs[k], off, data)];
    var init := bs[..|bs| - 1];
    FlatLength(bs);
    FlatLength(init);
    BasePrefix(init, bs, |init|);
    BasePrefix(init, bs, if k < |init| then k else |init|);
    if k < |init| {
      FlatSplice(init, k, off, data);
      assert cs[..|bs| - 1] == init[k := Splice(bs[k], off, data)];
      BasePrefix(init, bs, k);
    } else {
      assert cs[..|bs| - 1] == init;
    }
  }

  // ---------------------------------------------------------------------------
  // Memory blocks and the free list they come from.

  /** One mebibyte less the block's own header: two list pointers and its size. */
  const BLOCK_SIZE: nat := 0x10_0000 - 24

  predicate Distinct(bs: seq<array<byte>>) {
    forall i, j :: 0 <= i < j < |bs| ==> bs[i] != bs[j]
  }

  ghost function SetOf(bs: seq<array<byte>>): set<array<byte>> { set b | b in bs }

  lemma SetOfSnoc(bs: seq<array<byte>>, i: nat)
    requires Distinct(bs) && i < |bs|
    ensures bs[i] !in SetOf(bs[..i])
    ensures SetOf(bs[..i + 1]) == SetOf(bs[..i]) + {bs[i]}
  {
    assert bs[..i + 1] == bs[..i] + [bs[i]];
  }

  lemma {:induction false} DistinctCard(bs: seq<array<byte>>, i: nat)
    requires Distinct(bs) && i <= |bs|
    ensures |SetOf(bs[..i])| == i
  {
    if i > 0 {
      DistinctCard(bs, i - 1);
      SetOfSnoc(bs, i - 1);
    }
  }

  /** How many blocks in a row are allocated from the `i`-th allocation on, if `spare` may be. */
  function Granted(spare: nat, callocs: nat -> bool, i: nat): nat
    decreases spare
  {
    if spare == 0 || !callocs(i) then 0 else 1 + Granted(spare - 1, callocs, i + 1)
  }

  /** A buffer of `cap` bytes can grow to `size`, with that many free blocks and those allocated. */
  predicate Suffices(size: nat, cap: nat, free: nat, spare: nat, callocs: nat -> bool) {
    size <= cap + (free + Granted(spare, callocs, 0)) * BLOCK_SIZE
  }

  class MemPool {
    var free: seq<array<byte>>
    var alloc: nat
    var limit: nat
    var used: nat
    const prealloc: nat
    ghost var out: set<array<byte>>   // the blocks now in some buffer

    /** Every block ever allocated is free or in a buffer, and no more were allocated than the
        limit, or the preallocated number if that is larger. */
    ghost predicate Valid()
      reads this
    {
      && Distinct(free)
      && (forall b :: b in free ==> b !in out)
      && (forall b :: b in free ==> b.Length == BLOCK_SIZE)
      && (forall b :: b in out ==> b.Length == BLOCK_SIZE)
      && used == |out|
      && alloc == |free| + used
      && alloc <= Most()
    }

    /** How many more blocks may be allocated. */
    function Spare(): nat
      reads this
    {
      if alloc < limit then limit - alloc else 0
    }

    /** The most blocks there can be. */
    function Most(): nat
      reads this
    {
      if limit < prealloc then prealloc else limit
    }

    constructor (count: nat, max: nat)
      ensures Valid() && out == {} && alloc == |free| == count == prealloc && limit == max
      ensures forall b :: b in free ==> fresh(b)
    {
      free, alloc, limit, used, prealloc, out := [], count, max, 0, count, {};
      new;
      for i := 0 to count
        invariant |free| == i && used == 0 && alloc == count && limit == max && out == {}
        invariant forall b :: b in free ==> fresh(b) && b.Length == BLOCK_SIZE
        invariant Distinct(free)
        modifies this
      {
        var block := new byte[BLOCK_SIZE];
        free := [block] + free;
      }
    }

    /** Takes a block off the free list, or allocates one below the limit. */
    method Take(callocSucceeds: bool) returns (block: array?<byte>)
      requires Valid()
      modifies this
      ensures Valid() && limit == old(limit)
      ensures block != null <==> old(free) != [] || (old(alloc) < limit && callocSucceeds)
      ensures block == null ==> free == old(free) && out == old(out) && alloc == old(alloc)
      ensures block != null ==> block !in old(out) && out == old(out) + {block}
      ensures block != null ==> if old(free) == [] then fresh(block) && free == [] && alloc == old(alloc) + 1
                                else [block] + free == old(free) && alloc == old(alloc)
    {
      if free == [] {
        if alloc >= limit {
          return null;
        }
        if !callocSucceeds {
          return null;
        }
        block := new byte[BLOCK_SIZE];
        alloc := alloc + 1;
      } else {
        block := free[0];
        free := free[1..];
      }
      out := out + {block};
      used := used + 1;
    }

    method Give(block: array<byte>)
      requires Valid() && block in out
      modifies this
      ensures Valid() && limit == old(limit) && alloc == old(alloc)
      ensures free == [block] + old(free) && out == old(out) - {block}
    {
      free := [block] + free;
      out := out - {block};
      used := used - 1;
    }

    /** Moves the blocks of a buffer to the free list, one by one. */
    method TakeBack(bs: seq<array<byte>>)
      requires Valid() && Distinct(bs) && SetOf(bs) <= out
      modifies this
      ensures Valid() && limit == old(limit) && alloc == old(alloc)
      ensures out == old(out) - SetOf(bs) && |free| == old(|free|) + |bs|
    {
      var i := 0;
      while i < |bs|
        invariant 0 <= i <= |bs|
        invariant Valid() && limit == old(limit) && alloc == old(alloc)
        invariant out == old(out) - SetOf(bs[..i]) && |free| == old(|free|) + i
      {
        SetOfSnoc(bs, i);
        assert bs[i] in SetOf(bs);
        Give(bs[i]);
        i := i + 1;
      }
      assert bs[..i] == bs;
    }
  }

  // ---------------------------------------------------------------------------
  // The buffer.

  ghost function Snapshot(bs: seq<array<byte>>): (r: seq<seq<byte>>)
    reads bs
    ensures |r| == |bs| && forall i :: 0 <= i < |bs| ==> r[i] == bs[i][..]
  {
    seq(|bs|, i requires 0 <= i < |bs| reads bs => bs[i][..])
  }

  /** The position at which block `k` starts; it depends on the block lengths alone. */
  function Start(bs: seq<array<byte>>, k: nat): nat
    requires k <= |bs|
  {
    if k == 0 then 0 else Start(bs, k - 1) + bs[k - 1].Length
  }

  lemma {:induction false} StartIsBase(bs: seq<array<byte>>, k: nat)
    requires k <= |bs|
    ensures Start(bs, k) == Base(Snapshot(bs), k)
  {
    if k > 0 { StartIsBase(bs, k - 1); }
  }

  lemma {:induction false} StartPrefix(bs: seq<array<byte>>, cs: seq<array<byte>>, k: nat)
    requires k <= |bs| && bs <= cs
    ensures Start(bs, k) == Start(cs, k)
  {
    if k > 0 { StartPrefix(bs, cs, k - 1); }
  }

  /** The concatenation of the blocks. */
  ghost function Contents(bs: seq<array<byte>>): (r: seq<byte>)
    reads bs
  {
    if bs == [] then [] else Contents(bs[..|bs| - 1]) + bs[|bs| - 1][..]
  }

  lemma {:induction false} ContentsIsFlat(bs: seq<array<byte>>)
    ensures Contents(bs) == Flat(Snapshot(bs))
    ensures |Contents(bs)| == Start(bs, |bs|)
  {
    FlatLength(Snapshot(bs));
    StartIsBase(bs, |bs|);
    if bs != [] {
      ContentsIsFlat(bs[..|bs| - 1]);
      assert Snapshot(bs)[..|bs| - 1] == Snapshot(bs[..|bs| - 1]);
    }
  }

  lemma {:induction false} StartMonotone(bs: seq<array<byte>>, j: nat, k: nat)
    requires j <= k <= |bs|
    ensures Start(bs, j) <= Start(bs, k)
    decreases k - j
  {
    if j < k { StartMonotone(bs, j, k - 1); }
  }

  lemma ContentsSlice(bs: seq<array<byte>>, k: nat, off: nat, n: nat, pos: nat)
    requires k < |bs| && off + n <= bs[k].Length && pos == Start(bs, k) + off
    ensures pos + n <= |Contents(bs)|
    ensures bs[k][off..off + n] == Contents(bs)[pos..pos + n]
  {
    ContentsIsFlat(bs);
    StartIsBase(bs, k);
    FlatSlice(Snapshot(bs), k, off, n);
    assert bs[k][..][off..off + n] == bs[k][off..off + n];
  }

  /** The first `n` bytes. */
  ghost function Prefix(bs: seq<array<byte>>, n: nat): (r: seq<byte>)
    reads bs
    ensures n <= Start(bs, |bs|) ==> |r| == n
  {
    ContentsIsFlat(bs);
    if n <= |Contents(bs)| then Contents(bs)[..n] else Contents(bs)
  }

  /** Distinct blocks of a usable size, `cap` bytes in all. */
  predicate Layout(bs: seq<array<byte>>, cap: nat) {
    && Distinct(bs)
    && (forall b :: b in bs ==> 0 < b.Length <= BLOCK_SIZE)
    && cap == Start(bs, |bs|)
  }

  /** A cursor's block and base agree with its position, which lies in that block or at its end. */
  predicate Cursor(bs: seq<array<byte>>, block: int, base: int, pos: int) {
    if bs == [] then block == -1 && base == 0 && pos == 0
    else 0 <= block < |bs| && base == Start(bs, block) && base <= pos <= base + bs[block].Length
  }

  /** The jump to the next block when the position stands at the end of the current one. There is
      a next block because the position is not yet the end of the buffer. */
  function Jump(bs: seq<array<byte>>, block: int, base: nat, pos: nat): (r: (int, nat))
    requires Cursor(bs, block, base, pos)
    requires forall b :: b in bs ==> b.Length > 0
    requires pos < Start(bs, |bs|)
    ensures Cursor(bs, r.0, r.1, pos) && bs != [] && pos < r.1 + bs[r.0].Length
    ensures r.1 + bs[r.0].Length <= Start(bs, |bs|)
  {
    if base + bs[block].Length == pos then
      StartMonotone(bs, block + 2, |bs|);
      (block + 1, base + bs[block].Length)
    else
      StartMonotone(bs, block + 1, |bs|);
      (block, base)
  }

  lemma CursorGrows(bs: seq<array<byte>>, b: array<byte>, block: int, base: nat, pos: nat)
    requires Cursor(bs, block, base, pos)
    ensures Cursor(bs + [b], if bs == [] then 0 else block, base, pos)
  {
    if bs != [] { StartPrefix(bs, bs + [b], block); }
  }

  lemma LayoutGrows(bs: seq<array<byte>>, b: array<byte>, cap: nat)
    requires Layout(bs, cap) && b !in bs && 0 < b.Length <= BLOCK_SIZE
    ensures Layout(bs + [b], cap + b.Length)
  {
    StartPrefix(bs, bs + [b], |bs|);
  }

  lemma PrefixGrows(bs: seq<array<byte>>, b: array<byte>, n: nat)
    requires n <= Start(bs, |bs|)
    ensures Prefix(bs + [b], n) == Prefix(bs, n)
  {
    ContentsIsFlat(bs);
    assert (bs + [b])[..|bs|] == bs;
    ConcatPrefix(Contents(bs), b[..], n);
  }

  method Memcpy(a: array<byte>, off: nat, data: seq<byte>)
    requires off + |data| <= a.Length
    modifies a
    ensures a[..] == Splice(old(a[..]), off, data)
  {
    forall i | 0 <= i < |data| { a[off + i] := data[i]; }
  }

  /** Copying into one block of a list of distinct blocks overwrites that stretch of the whole:
      what comes before it, then the new bytes, then what comes after. */
  method CopyIn(bs: seq<array<byte>>, k: nat, off: nat, data: seq<byte>, ghost pos: nat)
    requires Distinct(bs) && k < |bs| && off + |data| <= bs[k].Length
    requires pos == Start(bs, k) + off
    modifies bs[k]
    ensures pos + |data| <= |old(Contents(bs))| == |Contents(bs)|
    ensures Contents(bs)[..pos + |data|] == old(Contents(bs))[..pos] + data
    ensures Contents(bs)[pos + |data|..] == old(Contents(bs))[pos + |data|..]
  {
    ghost var before := Snapshot(bs);
    ContentsIsFlat(bs);
    StartIsBase(bs, k);
    FlatSplice(before, k, off, data);
    Memcpy(bs[k], off, data);
    assert Snapshot(bs) == before[k := Splice(before[k], off, data)];
    ContentsIsFlat(bs);
    SplicePrefix(Flat(before), pos, data);
  }

  class RwBuffer {
    var blocks: seq<array<byte>>
    var readPos: nat
    var writePos: nat
    var cap: nat
    var readBlock: int   // index into `blocks`, -1 for the null pointer
    var writeBlock: int
    var readBase: nat
    var writeBase: nat

    ghost predicate Valid()
      reads this
    {
      && Layout(blocks, cap)
      && readPos <= writePos <= cap
      && Cursor(blocks, readBlock, readBase, readPos)
      && Cursor(blocks, writeBlock, writeBase, writePos)
    }

    /** What has been written so far. */
    ghost function Written(): (r: seq<byte>)
      reads this`blocks, this`writePos, blocks
      ensures writePos <= Start(blocks, |blocks|) ==> |r| == writePos
    {
      Prefix(blocks, writePos)
    }

    /** The `n` bytes of block `k` from `off` on are the written bytes from `pos` on. */
    ghost predicate Shows(k: nat, off: nat, n: nat, pos: nat)
      reads this`blocks, this`writePos, blocks
    {
      && k < |blocks| && off + n <= blocks[k].Length && pos + n <= |Written()|
      && blocks[k][off..off + n] == Written()[pos..pos + n]
    }

    lemma BlockShows(k: nat, off: nat, n: nat, pos: nat)
      requires k < |blocks| && off + n <= blocks[k].Length
      requires pos == Start(blocks, k) + off && pos + n <= writePos <= Start(blocks, |blocks|)
      ensures Shows(k, off, n, pos)
    {
      ContentsSlice(blocks, k, off, n, pos);
      ContentsIsFlat(blocks);
      var all := Contents(blocks);
      assert all[..writePos][pos..pos + n] == all[pos..pos + n];
    }

    constructor ()
      ensures Valid() && blocks == [] && readPos == writePos == cap == 0
    {
      blocks, readPos, writePos, cap := [], 0, 0, 0;
      readBlock, writeBlock, readBase, writeBase := -1, -1, 0, 0;
    }

    /** Every block of the buffer came from the pool. */
    ghost predicate DrawsOn(pool: MemPool)
      reads this, pool
    {
      forall b :: b in blocks ==> b in pool.out
    }

    method Expand(pool: MemPool, callocSucceeds: bool) returns (ok: bool)
      requires Valid() && pool.Valid() && DrawsOn(pool)
      modifies this, pool
      ensures Valid() && pool.Valid() && DrawsOn(pool)
      ensures ok <==> old(pool.free) != [] || (old(pool.alloc) < old(pool.limit) && callocSucceeds)
      ensures !ok ==> blocks == old(blocks) && cap == old(cap) && pool.out == old(pool.out) && pool.free == old(pool.free)
      ensures ok ==> |blocks| == |old(blocks)| + 1 && old(blocks) < blocks
      ensures ok ==> cap == old(cap) + BLOCK_SIZE && pool.out == old(pool.out) + {blocks[|old(blocks)|]}
      ensures ok ==> fresh(blocks[|old(blocks)|]) || blocks[|old(blocks)|] in old(pool.free)
      ensures forall b :: b in pool.free ==> b in old(pool.free)
      ensures |pool.free| == if old(pool.free) == [] then 0 else |old(pool.free)| - 1
      ensures pool.limit == old(pool.limit) && pool.alloc == old(pool.alloc) + if ok && old(pool.free) == [] then 1 else 0
      ensures readPos == old(readPos) && writePos == old(writePos)
      ensures Written() == old(Written())
    {
      var block := pool.Take(callocSucceeds);
      assert Written() == old(Written());
      if block == null {
        return false;
      }
      Attach(block);
      ok := true;
    }

    /** Adds a block at the tail; the first one also becomes the block of both cursors. */
    method Attach(block: array<byte>)
      requires Valid() && block !in blocks && 0 < block.Length <= BLOCK_SIZE
      modifies this
      ensures Valid() && blocks == old(blocks) + [block] && cap == old(cap) + block.Length
      ensures readPos == old(readPos) && writePos == old(writePos)
      ensures Written() == old(Written())
    {
      var grown := blocks + [block];
      LayoutGrows(blocks, block, cap);
      CursorGrows(blocks, block, readBlock, readBase, readPos);
      CursorGrows(blocks, block, writeBlock, writeBase, writePos);
      PrefixGrows(blocks, block, writePos);
      if blocks == [] {
        readBlock := 0;
        writeBlock := 0;
      }
      blocks := grown;
      cap := cap + block.Length;
    }

    method NextReadable() returns (ok: bool, block: nat, off: nat, size: nat)
      requires Valid()
      modifies this`readBlock, this`readBase
      ensures Valid()
      ensures ok <==> readPos < writePos
      ensures ok ==> 0 < size && readPos + size <= writePos
      ensures ok ==> Shows(block, off, size, readPos)
      ensures ok ==> off + size == blocks[block].Length || readPos + size == writePos
      ensures ok ==> block == readBlock && off == readPos - readBase
    {
      if readPos == writePos {
        return false, 0, 0, 0;
      }
      var cursor := Jump(blocks, readBlock, readBase, readPos);
      readBlock, readBase := cursor.0, cursor.1;
      ok, block, off := true, readBlock, readPos - readBase;
      size := Min(readBase + blocks[readBlock].Length - readPos, writePos - readPos);
      BlockShows(block, off, size, readPos);
    }

    method NextWriteable() returns (ok: bool, block: nat, off: nat, size: nat)
      requires Valid()
      modifies this`writeBlock, this`writeBase
      ensures Valid()
      ensures ok <==> writePos < cap
      ensures ok ==> block < |blocks| && 0 < size && off + size == blocks[block].Length
      ensures ok ==> Start(blocks, block) + off == writePos && writePos + size <= cap
      ensures ok ==> block == writeBlock && off == writePos - writeBase
    {
      if writePos == cap {
        return false, 0, 0, 0;
      }
      var cursor := Jump(blocks, writeBlock, writeBase, writePos);
      writeBlock, writeBase := cursor.0, cursor.1;
      ok, block, off := true, writeBlock, writePos - writeBase;
      size := writeBase + blocks[writeBlock].Length - writePos;
    }

    /** Copies into the writeable area and moves the write position past it. */
    method Append(block: nat, off: nat, data: seq<byte>)
      requires Valid() && block < |blocks| && off + |data| <= blocks[block].Length
      requires block == writeBlock && writeBase + off == writePos
      modifies this`writePos, blocks[block]
      ensures Valid() && writePos == old(writePos) + |data|
      ensures Written() == old(Written()) + data
    {
      StartMonotone(blocks, block + 1, |blocks|);
      CopyIn(blocks, block, off, data, writePos);
      writePos := writePos + |data|;
    }

    /** The next `n` bytes to read lie in the current block. */
    ghost predicate CanSkip(n: nat)
      reads this
    {
      && readPos + n <= writePos && (blocks != [] ==> 0 <= readBlock < |blocks|)
      && (blocks == [] || readPos + n <= readBase + blocks[readBlock].Length)
    }

    /** Moves the read position past bytes taken from the readable area. */
    method Skip(n: nat)
      requires Valid() && CanSkip(n)
      modifies this`readPos
      ensures Valid() && readPos == old(readPos) + n
    {
      readPos := readPos + n;
    }

    /** Fills the writeable area, as far as `src` goes. */
    method WriteSome(src: seq<byte>) returns (n: nat)
      requires Valid() && src != []
      modifies this`writePos, this`writeBlock, this`writeBase, blocks
      ensures Valid() && n <= |src| && writePos == old(writePos) + n
      ensures n == 0 <==> old(writePos) == cap
      ensures Written() == old(Written()) + src[..n]
    {
      var ok, block, off, len := NextWriteable();
      if !ok {
        return 0;
      }
      n := Min(len, |src|);
      Append(block, off, src[..n]);
    }

    /** Writes as much of `src` as the capacity takes. */
    method WriteN(src: seq<byte>) returns (n: nat)
      requires Valid()
      modifies this`writePos, this`writeBlock, this`writeBase, blocks
      ensures Valid()
      ensures n == Min(|src|, old(cap - writePos)) && writePos == old(writePos) + n
      ensures Written() == old(Written()) + src[..n]
    {
      n := 0;
      ghost var before := Written();
      while n < |src|
        invariant 0 <= n <= |src|
        invariant Valid() && writePos == old(writePos) + n
        invariant Written() == before + src[..n]
      {
        var nwrite := WriteSome(src[n..]);
        AppendSlice(before, src, n, nwrite);
        if nwrite == 0 {
          break;
        }
        n := n + nwrite;
      }
    }

    /** Looks at the readable area, as far as `size` goes. */
    method Peek(size: nat) returns (ok: bool, data: seq<byte>)
      requires Valid() && 0 < size
      modifies this`readBlock, this`readBase
      ensures Valid() && (ok <==> readPos < writePos)
      ensures ok ==> 0 < |data| <= size && CanSkip(|data|)
      ensures ok && |data| < size ==>
                readPos + |data| == writePos || (readBlock < |blocks| && readPos + |data| == readBase + blocks[readBlock].Length)
      ensures ok ==> data == Written()[readPos..readPos + |data|]
    {
      var block, off, len;
      ok, block, off, len := NextReadable();
      if !ok {
        return false, [];
      }
      var n := Min(len, size);
      BlockShows(block, off, n, readPos);
      data := blocks[block][off..off + n];
    }

    /** Takes the readable area, as far as `size` goes. */
    method ReadSome(size: nat) returns (data: seq<byte>)
      requires Valid() && 0 < size && readPos < writePos
      modifies this`readPos, this`readBlock, this`readBase
      ensures Valid() && 0 < |data| <= size && readPos == old(readPos) + |data|
      ensures data == Written()[old(readPos)..readPos]
    {
      var ok;
      ok, data := Peek(size);
      Skip(|data|);
    }

    /** Reads up to `size` bytes. */
    method ReadN(size: nat) returns (data: seq<byte>)
      requires Valid()
      modifies this`readPos, this`readBlock, this`readBase
      ensures Valid()
      ensures |data| == Min(size, old(writePos - readPos)) && readPos == old(readPos) + |data|
      ensures data == Written()[old(readPos)..readPos]
    {
      data := [];
      ghost var whole := Written();
      while |data| < size && readPos < writePos
        invariant Valid()
        invariant |data| <= size && readPos == old(readPos) + |data|
        invariant data == whole[old(readPos)..readPos]
        decreases writePos - readPos
      {
        ghost var from := readPos;
        var more := ReadSome(size - |data|);
        SliceJoin(whole, old(readPos), from, readPos);
        data := data + more;
      }
    }

    /** Puts the read position back (or forth) to any written position. */
    method ResetRead(pos: nat)
      requires Valid() && pos <= writePos
      modifies this`readPos, this`readBlock, this`readBase
      ensures Valid() && readPos == pos
    {
      readBlock, readBase, readPos := -1, 0, 0;
      if blocks == [] {
        return;
      }
      var block := 0;
      while readBase + blocks[block].Length < pos
        invariant 0 <= block < |blocks| && readBase == Start(blocks, block)
        invariant readBase <= pos
        decreases |blocks| - block
      {
        readBase := readBase + blocks[block].Length;
        block := block + 1;
        assert block < |blocks|;
      }
      readBlock := block;
      readPos := pos;
    }

    /** Gives every block back to the pool. */
    method Reset(pool: MemPool)
      requires Valid() && pool.Valid() && DrawsOn(pool)
      modifies this, pool
      ensures Valid() && pool.Valid() && DrawsOn(pool)
      ensures blocks == [] && readPos == writePos == cap == 0
      ensures pool.alloc == old(pool.alloc) && |pool.free| == old(|pool.free| + |blocks|)
      ensures pool.out == old(pool.out) - SetOf(old(blocks))
    {
      hide MemPool.Valid;
      assert Distinct(blocks) && SetOf(blocks) <= pool.out;
      hide RwBuffer.Valid;
      pool.TakeBack(blocks);
      Clear();
    }

    method Clear()
      modifies this
      ensures Valid() && blocks == [] && readPos == writePos == cap == 0
    {
      blocks := [];
      readPos, readBase, writePos, writeBase, cap := 0, 0, 0, 0, 0;
      readBlock, writeBlock := -1, -1;
    }

    /** A buffer never holds more than all the blocks there can be. */
    lemma CapBounded(pool: MemPool)
      requires Valid() && pool.Valid() && DrawsOn(pool)
      ensures cap <= pool.Most() * BLOCK_SIZE
    {
      DistinctCard(blocks, |blocks|);
      assert blocks[..|blocks|] == blocks;
      SubsetCard(SetOf(blocks), pool.out);
      StartBounded(blocks, cap, |blocks|);
    }
  }

  lemma {:induction false} SubsetCard<T>(s: set<T>, t: set<T>)
    requires s <= t
    ensures |s| <= |t|
  {
    if s != {} {
      var x :| x in s;
      SubsetCard(s - {x}, t - {x});
    }
  }

  lemma {:induction false} StartBounded(bs: seq<array<byte>>, cap: nat, k: nat)
    requires Layout(bs, cap) && k <= |bs|
    ensures Start(bs, k) <= k * BLOCK_SIZE
  {
    if k > 0 {
      StartBounded(bs, cap, k - 1);
      assert bs[k - 1] in bs;
    }
  }

  lemma WrittenLength(b: RwBuffer)
    requires b.Valid()
    ensures |b.Written()| == b.writePos && b.readPos <= b.writePos <= b.cap
    ensures b.writePos == 0 ==> b.Written() == []
  {
  }

  // ---------------------------------------------------------------------------
  // The size of a write request.

  /** A write request with `n` bytes of data that a connection can receive: its length field counts
      the data, server id and fid, and with the headers it lies in the memory blocks there are. */
  predicate Receivable(n: nat, blocks: nat) { n + 10 < 0x1_0000_0000 && n + 15 <= blocks * BLOCK_SIZE }

  /** The most blocks with which the size of a file, meta block included, fits into 32 bits. */
  const SAFE_BLOCKS: nat := 4096

  /** The least data whose size with a meta block does not fit. */
  const WRAPPING: nat := 0x1_0000_0000 - 30

  /** The 32-bit sum of a request's data and a meta block can wrap exactly with more blocks. */
  lemma WrapsExactly(blocks: nat)
    ensures (exists n: nat :: Receivable(n, blocks) && n + 30 >= 0x1_0000_0000) <==> blocks > SAFE_BLOCKS
  {
    if blocks > SAFE_BLOCKS {
      assert blocks * BLOCK_SIZE >= (SAFE_BLOCKS + 1) * BLOCK_SIZE;
      assert Receivable(WRAPPING, blocks);
    } else {
      assert blocks * BLOCK_SIZE <= SAFE_BLOCKS * BLOCK_SIZE;
    }
  }
}
