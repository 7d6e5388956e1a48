/**
 The work of a worker thread: writing a file from a linked buffer to its chunk, and reading one
 back, with system calls that may move any number of bytes or fail.
 */
module Workers {
  import opened Codec
  import opened Adler
  import opened RwBuffers
  import opened BufferAdler
  import opened Format
  import opened Recovery
  import opened Chunks
  import opened Engine
  import opened EngineInv
  import opened Crash
  import opened Runs

  /** An open chunk file and the chunk's counters. */
  class OpenChunk {
    const id: nat
    var file: seq<byte>
    var counters: Chunk
    const answers: nat -> int   // what each system call moves at most; it fails if that is nothing
    var calls: nat              // how many there have been

    constructor (id: nat, file: seq<byte>, counters: Chunk, answers: nat -> int)
      ensures this.id == id && this.file == file && this.counters == counters && this.answers == answers
    {
      this.id, this.file, this.counters, this.answers, this.calls := id, file, counters, answers, 0;
    }

    /** No call from the `i`-th up to the `j`-th fails. */
    ghost predicate Served(i: nat, j: nat) { forall k :: i <= k < j ==> answers(k) > 0 }

    lemma ServedJoin(i: nat, j: nat, k: nat)
      requires Served(i, j) && Served(j, k)
      ensures Served(i, k)
    {
    }

    lemma ServedNot(i: nat, j: nat)
      requires i < j && answers(j - 1) <= 0
      ensures !Served(i, j)
    {
    }

    /** pwrite(2): some or all of the bytes, or an error. An interrupted call is repeated. */
    method PwriteOnce(buf: seq<byte>, offset: nat) returns (n: int)
      requires offset <= |file| && buf != []
      modifies this`file, this`calls
      ensures calls == old(calls) + 1 && n == if answers(old(calls)) > 0 then Min(answers(old(calls)), |buf|) else -1
      ensures file == if n <= 0 then old(file) else Splice(old(file), offset, buf[..n])
    {
      n := if answers(calls) > 0 then Min(answers(calls), |buf|) else -1;
      calls := calls + 1;
      if n > 0 {
        file := Splice(file, offset, buf[..n]);
      }
    }

    /** Writes all of `buf`, or reports an error after some prefix of it has been written. */
    method Pwrite(buf: seq<byte>, offset: nat) returns (n: int, ghost written: nat)
      requires offset <= |file|
      modifies this`file, this`calls
      ensures n == |buf| == written || (n == -1 && written < |buf|)
      ensures calls >= old(calls) && (n == |buf| <==> Served(old(calls), calls))
      ensures n == -1 ==> calls > old(calls) && Served(old(calls), calls - 1)
      ensures file == Splice(old(file), offset, buf[..written])
    {
      var total := 0;
      written := 0;
      assert Splice(file, offset, buf[..0]) == file;
      while total < |buf|
        invariant 0 <= total == written <= |buf| && calls >= old(calls) && Served(old(calls), calls)
        invariant file == Splice(old(file), offset, buf[..total])
      {
        var k := PwriteOnce(buf[total..], offset + total);
        if k <= 0 {
          return -1, total;
        }
        SpliceSplice(old(file), offset, buf[..total], buf[total..][..k]);
        assert buf[..total] + buf[total..][..k] == buf[..total + k];
        total := total + k;
        written := total;
      }
      n := total;
    }

    /** pread(2): some or all of the bytes, nothing at the end of the file, or an error. */
    method PreadOnce(count: nat, offset: nat) returns (n: int, buf: seq<byte>)
      requires 0 < count
      modifies this`calls
      ensures calls == old(calls) + 1 && (n > 0 <==> answers(old(calls)) > 0 && offset < |file|)
      ensures n > 0 ==> n == |buf| <= count && offset + n <= |file| && buf == file[offset..offset + n]
    {
      n, buf := -1, [];
      if answers(calls) > 0 {
        n := if offset < |file| then Min(answers(calls), Min(|file| - offset, count)) else 0;
        buf := if n > 0 then file[offset..offset + n] else [];
      }
      calls := calls + 1;
    }

    /** Reads all of `count` bytes from `offset`, exactly if they are there and no call fails. */
    method Pread(count: nat, offset: nat) returns (n: int, buf: seq<byte>)
      modifies this`calls
      ensures calls >= old(calls) && (n == -1 || n == |buf| == count)
      ensures n == count <==> Served(old(calls), calls) && (count == 0 || offset + count <= |file|)
      ensures n == -1 ==> calls > old(calls) && Served(old(calls), calls - 1)
      ensures n == count > 0 ==> buf == file[offset..offset + count]
    {
      buf := [];
      while |buf| < count
        invariant |buf| <= count && calls >= old(calls) && Served(old(calls), calls)
        invariant buf != [] ==> offset + |buf| <= |file| && buf == file[offset..offset + |buf|]
      {
        var at := offset + |buf|;
        var k, more := PreadOnce(count - |buf|, at);
        if k <= 0 {
          return -1, buf;
        }
        SliceJoin(file, offset, at, at + k);
        buf := buf + more;
      }
      n := count;
    }

    /** The superblock write. It is taken to reach the disk as a whole or not at all. */
    method WriteSuperblock() returns (ok: bool)
      requires |file| >= SUPERBLOCK_SIZE && SuperFits(SuperOf(id, counters))
      modifies this`file, this`calls
      ensures calls == old(calls) + 1 && (ok <==> answers(old(calls)) > 0)
      ensures file == if ok then Splice(old(file), 0, EncodeSuper(SuperOf(id, counters))) else old(file)
    {
      hide EncodeSuper;
      var buf := new byte[SUPERBLOCK_SIZE];
      FillSuperblock(buf, SuperOf(id, counters));
      ok := answers(calls) > 0;
      calls := calls + 1;
      if ok {
        file := Splice(file, 0, buf[..]);
      }
    }

    /** Writes what the request buffer offers next, at most `left` bytes of it. `e` is the whole
        record, of which `done` bytes are written, and `f0` the file before its first byte was. */
    method WritePiece(request: RwBuffer, left: nat, at: nat,
                      ghost f0: seq<byte>, ghost offset: nat, ghost e: seq<byte>, ghost done: nat)
      returns (ok: bool, n: nat, ghost k: nat)
      requires request.Valid() && 0 < left && request.readPos + left <= request.writePos
      requires FILE_META_SIZE <= done == |e| - left && at == offset + done
      requires Matches(request.Written(), request.readPos, left, e, done)
      requires Reached(file, f0, offset, e, done)
      modifies this`file, this`calls, request`readPos, request`readBlock, request`readBase
      ensures calls >= old(calls) && (ok <==> Served(old(calls), calls))
      ensures !ok ==> calls > old(calls) && Served(old(calls), calls - 1) && answers(calls - 1) <= 0
      ensures k <= left && Reached(file, f0, offset, e, done + k)
      ensures if ok then n == k > 0 && request.Valid() && request.readPos == old(request.readPos) + n else k < left
      ensures ok ==> Matches(request.Written(), request.readPos, left - n, e, done + n)
    {
      hide Splice, Reached, Matches, RwBuffer.Valid, RwBuffer.CanSkip, RwBuffer.Written;
      ghost var body := request.Written();
      var readable, piece := request.Peek(left);
      assert readable;   // the request has been received in full
      n := |piece|;
      ghost var before, from := file, request.readPos;
      assert at <= |file| by { ReachedLength(file, f0, offset, e, done); }
      NextPiece(body, from, left, e, done, n);
      var nwrite;
      nwrite, k := Pwrite(piece, at);
      ReachedMore(before, f0, offset, e, done, piece, k);
      ok := nwrite == n;
      if ok {
        request.Skip(n);
      }
    }

    /** Writes the body from the request buffer, block by block. */
    method WriteBody(request: RwBuffer, size: nat, offset: nat, ghost f0: seq<byte>, ghost e: seq<byte>)
      returns (ok: bool, ghost written: nat)
      requires request.Valid() && request.readPos + size <= request.writePos
      requires |e| == FILE_META_SIZE + size
      requires Matches(request.Written(), request.readPos, size, e, FILE_META_SIZE)
      requires Reached(file, f0, offset, e, FILE_META_SIZE)
      modifies this`file, this`calls, request`readPos, request`readBlock, request`readBase
      ensures calls >= old(calls) && (ok <==> Served(old(calls), calls))
      ensures !ok ==> calls > old(calls) && Served(old(calls), calls - 1) && answers(calls - 1) <= 0
      ensures FILE_META_SIZE <= written <= |e| && (ok <==> written == |e|)
      ensures Reached(file, f0, offset, e, written)
    {
      hide Splice, Reached, Matches, RwBuffer.Valid, RwBuffer.Written;
      var left, at := size, offset + FILE_META_SIZE;
      written := FILE_META_SIZE;
      while left > 0
        invariant 0 <= left <= size && written == |e| - left && at == offset + written
        invariant request.Valid() && request.readPos + left <= request.writePos
        invariant Matches(request.Written(), request.readPos, left, e, written)
        invariant Reached(file, f0, offset, e, written) && calls >= old(calls) && Served(old(calls), calls)
      {
        var more, n, k := WritePiece(request, left, at, f0, offset, e, written);
        written := written + k;
        if !more {
          return false, written;
        }
        at := at + n;
        left := left - n;
      }
      ok := true;
    }

    /** Fills and writes the meta block. */
    method WriteMeta(meta: FileMeta, ghost rec: Record, offset: nat) returns (ok: bool, ghost written: nat)
      requires RecordFits(rec) && meta == MetaOf(rec) && offset <= |file|
      modifies this`file, this`calls
      ensures calls >= old(calls) && (ok <==> Served(old(calls), calls))
      ensures !ok ==> calls > old(calls) && Served(old(calls), calls - 1) && answers(calls - 1) <= 0
      ensures written <= FILE_META_SIZE && (ok <==> written == FILE_META_SIZE)
      ensures Reached(file, old(file), offset, Encode(rec), written)
    {
      hide Splice, EncodeMeta;
      var buf := new byte[FILE_META_SIZE];
      FillMeta(buf, meta);
      var n;
      n, written := Pwrite(buf[..], offset);
      ok := n == FILE_META_SIZE;
      MetaPrefix(rec, written);
    }

    /** Writes the meta block and then the body of a record at `offset`. */
    method WriteRecord(request: RwBuffer, meta: FileMeta, ghost rec: Record, offset: nat) returns (ok: bool, ghost written: nat)
      requires request.Valid() && request.readPos + meta.size <= request.writePos && offset <= |file|
      requires RecordFits(rec) && meta == MetaOf(rec)
      requires Stretches(request.Written(), request.readPos, rec.data)
      modifies this`file, this`calls, request`readPos, request`readBlock, request`readBase
      ensures calls >= old(calls) && (ok <==> Served(old(calls), calls))
      ensures !ok ==> calls > old(calls) && Served(old(calls), calls - 1) && answers(calls - 1) <= 0
      ensures !ok ==> written < |Encode(rec)| && Reached(file, old(file), offset, Encode(rec), written)
      ensures ok ==> file == Splice(old(file), offset, Encode(rec)) && |file| >= old(|file|)
    {
      hide Splice, Encode, RwBuffer.Valid, RwBuffer.Written, Reached, Served;
      ghost var f0, c0 := file, calls;
      BodyOf(rec);
      assert Matches(request.Written(), request.readPos, meta.size, Encode(rec), FILE_META_SIZE);
      ok, written := WriteMeta(meta, rec, offset);
      if !ok {
        return;
      }
      ghost var c1 := calls;
      ok, written := WriteBody(request, meta.size, offset, f0, Encode(rec));
      ServedJoin(c0, c1, if ok then calls else calls - 1);
      if ok {
        WholeRecord(file, f0, offset, Encode(rec));
      } else {
        ServedNot(c0, calls);
      }
    }

    /** Writes a file: its meta block and body at `offset`, then the counters, then the superblock.
        A failure leaves the counters and some prefix of the record; a success leaves the whole
        record and the advanced counters, whether or not the superblock got to the disk. It fails
        exactly if a write of data does; the superblock's is the last call. */
    method WriteFile(request: RwBuffer, fid: nat, size: nat, offset: nat, now: nat)
      returns (retcode: int, ghost rec: Record, ghost written: nat, ghost sealed: bool)
      requires request.Valid() && request.readPos + size <= request.writePos
      requires fid < 0x1_0000_0000_0000_0000 && now < 0x1_0000_0000_0000_0000 && size < 0x1_0000_0000
      requires offset <= |file| && SUPERBLOCK_SIZE <= |file| && FILE_META_SIZE + size <= counters.availSpace
      requires SuperFits(SuperOf(id, Advanced(counters, size)))
      modifies this`file, this`calls, this`counters, request`readPos, request`readBlock, request`readBase
      ensures rec.fid == fid && rec.time == now && RecordFits(rec) && Checked(rec)
      ensures rec.data == request.Written()[old(request.readPos)..old(request.readPos) + size]
      ensures retcode == 0 || retcode == -1
      ensures retcode == 0 ==> calls > old(calls) && Served(old(calls), calls - 1) && (sealed <==> answers(calls - 1) > 0)
      ensures retcode == -1 ==> calls > old(calls) && Served(old(calls), calls - 1) && answers(calls - 1) <= 0
      ensures retcode == -1 ==> counters == old(counters) && written < |Encode(rec)|
                                && Reached(file, old(file), offset, Encode(rec), written)
      ensures retcode == 0 ==> counters == Advanced(old(counters), size)
                               && file == Stored(old(file), offset, Encode(rec), SuperOf(id, counters), sealed)
    {
      hide Splice, EncodeSuper, Encode, Checksum, RwBuffer.Valid, Reached, Served;
      written, sealed := 0, false;
      var from := request.readPos;
      assert |request.Written()| == request.writePos by { WrittenLength(request); }
      var checksum := BufferAdler32(0, request, size);
      rec := Record(fid, now, checksum, request.Written()[from..from + size]);
      var ok;
      ok, written := WriteRecord(request, FileMeta(fid, 1, size, checksum, now), rec, offset);
      if !ok {
        return -1, rec, written, false;
      }
      counters := Chunk(counters.filesAlloc + 1, counters.filesCount + 1,
                        counters.currentOffset + (size + FILE_META_SIZE), counters.availSpace - (size + FILE_META_SIZE));
      sealed := WriteSuperblock();
      retcode := 0;
    }

    /** Reads the next piece of an extent into the response buffer. */
    method FetchPiece(rsp: RwBuffer, left: nat, offset: nat) returns (ok: bool, n: nat)
      requires rsp.Valid() && 0 < left && rsp.writePos + left <= rsp.cap && offset + left <= |file|
      modifies this`calls, rsp`writePos, rsp`writeBlock, rsp`writeBase, rsp.blocks
      ensures rsp.Valid() && calls >= old(calls) && (ok <==> Served(old(calls), calls))
      ensures !ok ==> calls > old(calls) && Served(old(calls), calls - 1) && answers(calls - 1) <= 0
      ensures ok ==> 0 < n <= left && rsp.writePos == old(rsp.writePos) + n
                     && rsp.Written() == old(rsp.Written()) + file[offset..offset + n]
    {
      hide RwBuffer.Valid, RwBuffer.Written;
      var room, block, off, len := rsp.NextWriteable();
      assert room;   // the capacity covers the extent
      var shouldread := Min(left, len);
      var got, buf;
      got, buf := Pread(shouldread, offset);
      if got != shouldread {
        return false, 0;
      }
      rsp.Append(block, off, buf);
      ok, n := true, shouldread;
    }

    /** Reads the extent of an index entry into the response buffer. */
    method FetchExtent(rsp: RwBuffer, entry: Entry) returns (ok: bool)
      requires rsp.Valid() && rsp.writePos == 0 && entry.size <= rsp.cap
      requires entry.offset + entry.size <= |file|
      modifies this`calls, rsp`writePos, rsp`writeBlock, rsp`writeBase, rsp.blocks
      ensures rsp.Valid() && calls >= old(calls) && (ok <==> Served(old(calls), calls))
      ensures !ok ==> calls > old(calls) && Served(old(calls), calls - 1) && answers(calls - 1) <= 0
      ensures ok ==> rsp.Written() == file[entry.offset..entry.offset + entry.size]
    {
      hide RwBuffer.Valid, RwBuffer.Written;
      var left, offset := entry.size, entry.offset;
      assert rsp.Written() == [] by { WrittenLength(rsp); }
      while left > 0
        invariant 0 <= left <= entry.size && offset == entry.offset + entry.size - left
        invariant rsp.Valid() && rsp.writePos == entry.size - left
        invariant calls >= old(calls) && Served(old(calls), calls)
        invariant rsp.blocks == old(rsp.blocks) && entry.size <= rsp.cap
        invariant rsp.Written() == file[entry.offset..offset]
      {
        var n;
        ok, n := FetchPiece(rsp, left, offset);
        if !ok {
          return;
        }
        SliceJoin(file, entry.offset, offset, offset + n);
        left := left - n;
        offset := offset + n;
      }
      ok := true;
    }

    /** Reads a file back and checks it: its extent goes into the response buffer, the meta block
        is taken off the front, and fid and checksum are compared. The code is 0 exactly when no system
        call fails and the extent answers, and the buffer then holds the answer unread. */
    method ReadFile(rsp: RwBuffer, fid: nat, entry: Entry) returns (retcode: int, size: nat)
      requires rsp.Valid() && rsp.readPos == rsp.writePos == 0 && entry.size <= rsp.cap
      requires FILE_META_SIZE <= entry.size && entry.offset + entry.size <= |file|
      modifies this`calls, rsp, rsp.blocks
      ensures rsp.Valid()
      ensures var reply := ReadReply(fid, file[entry.offset..entry.offset + entry.size]);
              && calls >= old(calls) && (retcode == 0 <==> Served(old(calls), calls) && reply.Some?)
              && (retcode == 0 ==> reply.Some? && Answers(rsp, entry.size, size, reply.value))
    {
      hide RwBuffer.Valid, RwBuffer.Written, DecodeMeta, Checksum;
      var ok;
      ghost var extent := file[entry.offset..entry.offset + entry.size];
      ok := FetchExtent(rsp, entry);
      if !ok {
        return -1, 0;
      }
      assert rsp.writePos == entry.size && |rsp.Written()| == rsp.writePos by { WrittenLength(rsp); }
      var meta := rsp.ReadN(FILE_META_SIZE);
      var m := DecodeMeta(meta);
      var checksum := BufferAdler32(0, rsp, entry.size - FILE_META_SIZE);
      assert rsp.Written() == extent;
      assert extent[FILE_META_SIZE..FILE_META_SIZE + (entry.size - FILE_META_SIZE)] == extent[FILE_META_SIZE..];
      DecodeMetaPrefix(extent);
      size := m.size;
      retcode := if m.fid != fid || m.checksum != checksum then -1 else 0;
    }
  }

  /** The response buffer holds an extent of `n` bytes, of which the meta block has been read and
      the reply sends `size` bytes at most. */
  ghost predicate Answers(rsp: RwBuffer, n: nat, size: nat, data: seq<byte>)
    reads rsp, rsp.blocks
  {
    && FILE_META_SIZE == rsp.readPos <= rsp.writePos == n == |rsp.Written()|
    && data == rsp.Written()[FILE_META_SIZE..FILE_META_SIZE + Min(size, n - FILE_META_SIZE)]
  }

  /** What is stored of a record: all of it, and the superblock if that was written too. */
  ghost function Stored(f0: seq<byte>, offset: nat, e: seq<byte>, sb: Super, sealed: bool): seq<byte>
    requires offset <= |f0|
  {
    var f := Splice(f0, offset, e);
    if sealed then Splice(f, 0, EncodeSuper(sb)) else f
  }

  lemma MetaPrefix(rec: Record, n: nat)
    requires n <= FILE_META_SIZE
    ensures EncodeMeta(MetaOf(rec))[..n] == Encode(rec)[..n]
  {
    hide EncodeMeta;
  }

  lemma BodyOf(rec: Record)
    ensures Encode(rec)[FILE_META_SIZE..] == rec.data
  {
    hide EncodeMeta;
  }

  lemma WholeRecord(file: seq<byte>, f0: seq<byte>, offset: nat, e: seq<byte>)
    requires Reached(file, f0, offset, e, |e|)
    ensures offset <= |f0| && file == Splice(f0, offset, e)
    ensures |file| >= |f0|
  {
    assert e[..|e|] == e;
  }

  /** `data` is in `s` from `from` on. */
  ghost predicate Stretches(s: seq<byte>, from: nat, data: seq<byte>) {
    from + |data| <= |s| && data == s[from..from + |data|]
  }

  /** The file is `f0` with the first `n` bytes of `e` written at `offset`. */
  ghost predicate Reached(file: seq<byte>, f0: seq<byte>, offset: nat, e: seq<byte>, n: nat) {
    offset <= |f0| && n <= |e| && file == Splice(f0, offset, e[..n])
  }

  lemma ReachedLength(file: seq<byte>, f0: seq<byte>, offset: nat, e: seq<byte>, n: nat)
    requires Reached(file, f0, offset, e, n)
    ensures offset + n <= |file|
  {
  }

  /** The `left` bytes of `body` from `from` on are what `e` still needs behind `done`. */
  ghost predicate Matches(body: seq<byte>, from: nat, left: nat, e: seq<byte>, done: nat) {
    from + left <= |body| && done + left == |e| && e[done..] == body[from..from + left]
  }

  /** What the buffer offers next is what the record needs next. */
  lemma NextPiece(body: seq<byte>, from: nat, left: nat, e: seq<byte>, done: nat, n: nat)
    requires Matches(body, from, left, e, done) && n <= left
    ensures from + n <= |body| && done + n <= |e| && body[from..from + n] == e[done..done + n]
    ensures Matches(body, from + n, left - n, e, done + n)
  {
    SliceSlice(body, from, from + left, 0, n);
    SliceSlice(body, from, from + left, n, left);
    assert e[done..] == e[done..|e|];
    SliceSlice(e, done, |e|, 0, n);
    SliceSlice(e, done, |e|, n, left);
  }

  /** `k` bytes more of the record, of which `piece` comes next. */
  lemma ReachedMore(file: seq<byte>, f0: seq<byte>, offset: nat, e: seq<byte>, done: nat, piece: seq<byte>, k: nat)
    requires Reached(file, f0, offset, e, done) && k <= |piece|
    requires done + |piece| <= |e| && piece == e[done..done + |piece|]
    ensures offset + done <= |file|
    ensures Reached(Splice(file, offset + done, piece[..k]), f0, offset, e, done + k)
  {
    hide Splice;
    SpliceMore(f0, offset, e, done, |piece|, k);
  }

  /** `k` more of the `n` bytes of `e` that come next. */
  lemma SpliceMore(f0: seq<byte>, offset: nat, e: seq<byte>, written: nat, n: nat, k: nat)
    requires offset <= |f0| && written + n <= |e| && k <= n
    ensures offset + written <= |Splice(f0, offset, e[..written])|
    ensures Splice(Splice(f0, offset, e[..written]), offset + written, e[written..written + n][..k]) ==
            Splice(f0, offset, e[..written + k])
  {
    SpliceSplice(f0, offset, e[..written], e[written..written + k]);
    SliceSlice(e, written, written + n, 0, k);
    SliceJoin(e, 0, written, written + k);
  }

  // ---------------------------------------------------------------------------
  // The workers and the state machine.

  /** In every reachable state a queued write finds what `WriteFile` asks for. */
  lemma WriterReady(s: State, j: nat)
    requires Inv(s) && j in s.srv.jobs && s.srv.jobs[j].phase.Queued?
    ensures var job := s.srv.jobs[j];
            && job.chunk in s.disk && job.chunk in s.srv.mem
            && job.fid < 0x1_0000_0000_0000_0000 && |job.data| < 0x1_0000_0000
            && SUPERBLOCK_SIZE <= job.offset <= |s.disk[job.chunk]|
            && FILE_META_SIZE + |job.data| <= s.srv.mem[job.chunk].availSpace
            && SuperFits(SuperOf(job.chunk, Advanced(s.srv.mem[job.chunk], |job.data|)))
  {
    hide Inv, Encode, EncodeSuper, Log;
    JobCell(s, j);
    LogLength(s.hist.logs[s.srv.jobs[j].chunk]);
  }

  /** A `WriteFile` that fails leaves the chunk as a run of its job's steps does. */
  lemma FailureIsRun(s: State, j: nat, rec: Record, written: nat, file: seq<byte>) returns (t: State)
    requires Inv(s) && Enabled(s, Begin(j, rec)) && s.srv.jobs[j].chunk in s.disk
    requires Reached(file, s.disk[s.srv.jobs[j].chunk], s.srv.jobs[j].offset, Encode(rec), written)
    ensures Run(s, [Begin(j, rec), Write(j, written), Fail(j)], t)
    ensures t.disk == s.disk[s.srv.jobs[j].chunk := file] && t.srv.mem == s.srv.mem
    ensures t.srv.jobs == s.srv.jobs[j := s.srv.jobs[j].(phase := Returned(false))]
  {
    hide Inv, Encode, Checked, Splice;
    var s1 := Apply(s, Begin(j, rec));
    StepInv(s, Begin(j, rec));
    WorkersNeverStuck(s1, j);
    var s2 := Apply(s1, Write(j, written));
    assert Encode(rec)[0..written] == Encode(rec)[..written];
    t := Apply(s2, Fail(j));
    RunThree(s, Begin(j, rec), s1, Write(j, written), s2, Fail(j), t);
  }

  /** A `WriteFile` that succeeds leaves the chunk as a run of its job's steps does. */
  lemma SuccessIsRun(s: State, j: nat, rec: Record, sealed: bool, file: seq<byte>) returns (t: State)
    requires Inv(s) && Enabled(s, Begin(j, rec))
    requires var job := s.srv.jobs[j];
             && job.chunk in s.disk && job.chunk in s.srv.mem && job.offset <= |s.disk[job.chunk]|
             && FILE_META_SIZE + |job.data| <= s.srv.mem[job.chunk].availSpace
             && file == Stored(s.disk[job.chunk], job.offset, Encode(rec),
                               SuperOf(job.chunk, Advanced(s.srv.mem[job.chunk], |job.data|)), sealed)
    ensures Run(s, [Begin(j, rec), Write(j, |Encode(rec)|), Count(j)] + [Seal(j, sealed)], t)
    ensures var job := s.srv.jobs[j];
            && t.disk == s.disk[job.chunk := file]
            && t.srv.mem == s.srv.mem[job.chunk := Advanced(s.srv.mem[job.chunk], |job.data|)]
            && t.srv.jobs == s.srv.jobs[j := job.(phase := Returned(true))]
  {
    hide Inv, Encode, Checked, Splice, EncodeSuper;
    var n := |Encode(rec)|;
    var s1 := Apply(s, Begin(j, rec));
    StepInv(s, Begin(j, rec));
    WorkersNeverStuck(s1, j);
    var s2 := Apply(s1, Write(j, n));
    assert Encode(rec)[0..n] == Encode(rec);
    StepInv(s1, Write(j, n));
    WorkersNeverStuck(s2, j);
    var s3 := Apply(s2, Count(j));
    StepInv(s2, Count(j));
    WorkersNeverStuck(s3, j);
    t := Apply(s3, Seal(j, sealed));
    RunThree(s, Begin(j, rec), s1, Write(j, n), s2, Count(j), s3);
    RunOne(s3, Seal(j, sealed));
    RunConcat(s, [Begin(j, rec), Write(j, n), Count(j)], s3, [Seal(j, sealed)], t);
  }

  lemma RunThree(s: State, a: Action, s1: State, b: Action, s2: State, c: Action, t: State)
    requires Enabled(s, a) && s1 == Apply(s, a)
    requires Enabled(s1, b) && s2 == Apply(s1, b)
    requires Enabled(s2, c) && t == Apply(s2, c)
    ensures Run(s, [a, b, c], t)
  {
    hide Enabled, Apply;
    RunOne(s, a);
    RunOne(s1, b);
    RunOne(s2, c);
    RunConcat(s, [a], s1, [b], s2);
    RunConcat(s, [a] + [b], s2, [c], t);
    assert [a] + [b] + [c] == [a, b, c];
  }
}
