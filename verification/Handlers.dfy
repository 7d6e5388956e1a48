/**
 The handlers of the main thread, as they update the server's lists, index and counters in
 place. Each is the corresponding step of the storage engine.
 */
module Handlers {
  import opened Codec
  import opened Format
  import opened Recovery
  import opened Chunks
  import opened Engine
  import RwBuffers

  class ChunkServer {
    var chunks: seq<nat>
    var writing: seq<nat>
    var mem: map<nat, Chunk>
    var index: Index
    var jobs: map<nat, Job>
    var readers: map<nat, Read>
    var nextJob: nat
    var pending: seq<Parked>
    var pendingSize: nat
    var freeJobs: nat

    /** The counter of parked writes is the length of their list, and the free list of chunks
        holds chunks. */
    ghost predicate Valid()
      reads this
    {
      pendingSize == |pending| && forall id :: id in chunks ==> id in mem
    }

    ghost function Value(): Server
      reads this
    {
      Server(chunks, writing, mem, index, jobs, readers, nextJob, pending, freeJobs)
    }

    constructor (ids: seq<nat>, counters: map<nat, Chunk>, files: Index)
      requires forall id :: id in ids ==> id in counters
      ensures Valid() && Value() == Server(ids, [], counters, files, map[], map[], 0, [], MAX_IO_JOBS)
    {
      chunks, writing, mem, index := ids, [], counters, files;
      jobs, readers, nextJob, pending, pendingSize, freeJobs := map[], map[], 0, [], 0, MAX_IO_JOBS;
    }

    /** Looks for the first free chunk with more room than `need`. */
    method FindChunk(need: nat) returns (k: nat)
      requires Valid()
      ensures k == FirstFit(chunks, mem, need)
    {
      k := 0;
      assert chunks[0..] == chunks;
      while k < |chunks|
        invariant 0 <= k <= |chunks|
        invariant FirstFit(chunks, mem, need) == k + FirstFit(chunks[k..], mem, need)
      {
        assert chunks[k..][0] == chunks[k] && chunks[k] in chunks;
        if mem[chunks[k]].availSpace > need {
          return;
        }
        assert chunks[k..][1..] == chunks[k + 1..];
        k := k + 1;
      }
    }

    /** Looks for the first parked write that fits into `avail`. */
    method FindParked(avail: nat) returns (k: nat)
      requires Valid()
      ensures k == FirstParked(pending, avail)
    {
      hide Need;
      k := 0;
      assert pending[0..] == pending;
      while k < |pending|
        invariant 0 <= k <= |pending|
        invariant FirstParked(pending, avail) == k + FirstParked(pending[k..], avail)
      {
        assert pending[k..][0] == pending[k];
        if avail > Need(pending[k].data) {
          return;
        }
        assert pending[k..][1..] == pending[k + 1..];
        k := k + 1;
      }
    }

    method GenIoJob() returns (ok: bool)
      modifies this`freeJobs
      ensures ok <==> old(freeJobs) > 0
      ensures freeJobs == if ok then old(freeJobs) - 1 else old(freeJobs)
    {
      if freeJobs == 0 {
        return false;
      }
      freeJobs := freeJobs - 1;
      ok := true;
    }

    method QueueWrite(fid: nat, data: seq<byte>, c: nat)
      requires Valid() && c in mem
      modifies this`jobs, this`nextJob
      ensures Valid() && Value() == Dispatch(old(Value()), fid, data, c)
    {
      jobs := jobs[nextJob := Job(fid, data, c, mem[c].currentOffset, Queued)];
      nextJob := nextJob + 1;
    }

    method HandleWrite(fid: nat, data: seq<byte>, now: nat) returns (reply: Option<Error>)
      requires Valid()
      modifies this
      ensures Valid() && (Value(), reply) == Admit(old(Value()), fid, data, now)
    {
      hide FirstFit, Need;
      if fid in index {
        return Some(FileExists);
      }
      var k := FindChunk(Need(data));
      if k == |chunks| && pendingSize >= MAX_PENDING_WRITES {
        return Some(ChunkUnavailable);
      }
      var chunk := None;
      if k < |chunks| {
        chunk := Some(chunks[k]);
        assert chunks[k] in chunks;
        writing := [chunks[k]] + writing;
        chunks := chunks[..k] + chunks[k + 1..];
      }
      var ok := GenIoJob();
      if !ok {
        return Some(IoJobUnavailable);
      }
      if chunk.Some? {
        QueueWrite(fid, data, chunk.value);
      } else {
        pending := pending + [Parked(fid, data, now)];
        pendingSize := pendingSize + 1;
      }
      reply := None;
    }

    /** Gives the chunk of a finished write to a parked one, or back to the free list. */
    method PassOn(c: nat)
      requires Valid() && c in mem
      modifies this
      ensures Valid() && Value() == HandOn(old(Value()), c)
    {
      hide FirstParked, Need, Unlink;
      var k := FindParked(mem[c].availSpace);
      if k < |pending| {
        var p := pending[k];
        pending := pending[..k] + pending[k + 1..];
        pendingSize := pendingSize - 1;
        QueueWrite(p.fid, p.data, c);
      } else {
        writing := Unlink(writing, c);
        chunks := chunks + [c];
      }
    }

    method WriteFileDone(j: nat) returns (reply: Error)
      requires Valid() && j in jobs && jobs[j].phase.Returned? && jobs[j].chunk in mem
      modifies this
      ensures Valid() && (Value(), reply) == Complete(old(Value()), j)
    {
      hide HandOn;
      var job := jobs[j];
      jobs := jobs - {j};
      freeJobs := freeJobs + 1;
      if job.fid in index {
        return InternalError;
      }
      PassOn(job.chunk);
      if !job.phase.ok {
        return WriteError;
      }
      HandOnIndex(old(Value()).(jobs := old(jobs) - {j}, freeJobs := old(freeJobs) + 1), job.chunk);
      index := index[job.fid := Entry(job.chunk, job.offset, |job.data| + FILE_META_SIZE)];
      reply := Success;
    }

    /** Answers every parked write, taking them off the list one by one. */
    method KillPendingWrites() returns (killed: seq<Parked>)
      requires Valid()
      modifies this`pending, this`pendingSize, this`freeJobs
      ensures Valid() && Value() == KillParked(old(Value())) && killed == old(pending)
      ensures pending == [] && freeJobs == old(freeJobs) + |killed|
    {
      killed := [];
      while pending != []
        invariant Valid() && killed + pending == old(pending)
        invariant freeJobs == old(freeJobs) + |killed|
        decreases |pending|
      {
        MoveHead(killed, pending);
        killed := killed + [pending[0]];
        pending := pending[1..];
        pendingSize := pendingSize - 1;
        freeJobs := freeJobs + 1;
      }
      assert killed == old(pending);
    }

    /** Answers the parked writes from the head of the list up to the first that has not timed
        out. */
    method RemoveTimeoutPendingWrites(now: nat) returns (removed: seq<Parked>)
      requires Valid()
      modifies this`pending, this`pendingSize, this`freeJobs
      ensures Valid() && Value() == Sweep(old(Value()), now)
      ensures removed + pending == old(pending) && freeJobs == old(freeJobs) + |removed|
      ensures forall p :: p in removed ==> p.reqTime + PENDING_WRITE_TIMEOUT <= now
      ensures old(InOrder(pending)) ==> forall p :: p in pending ==> p.reqTime + PENDING_WRITE_TIMEOUT > now
    {
      hide Expired;
      ghost var all, k := pending, 0;
      removed := [];
      while pending != [] && pending[0].reqTime + PENDING_WRITE_TIMEOUT <= now
        invariant k <= |all| && pending == all[k..] && removed == all[..k] && pendingSize == |pending|
        invariant freeJobs == old(freeJobs) + k && Expired(all, now) == k + Expired(all[k..], now)
        invariant forall p :: p in removed ==> p.reqTime + PENDING_WRITE_TIMEOUT <= now
        decreases |pending|
      {
        ExpiredHead(pending, now);
        removed := removed + [pending[0]];
        pending := pending[1..];
        pendingSize := pendingSize - 1;
        freeJobs := freeJobs + 1;
        k := k + 1;
      }
      ExpiredHead(pending, now);
      assert removed + pending == all;
      if InOrder(all) { NoneExpired(all, k, now); }
    }

    /** Adds blocks to the response buffer until it holds `size` bytes, if they suffice. */
    static method GrowResponse(size: nat, rsp: RwBuffers.RwBuffer, pool: RwBuffers.MemPool, callocs: nat -> bool)
      returns (ok: bool)
      requires rsp.Valid() && pool.Valid() && rsp.DrawsOn(pool)
      modifies rsp, pool
      ensures ok <==> old(RwBuffers.Suffices(size, rsp.cap, |pool.free|, pool.Spare(), callocs))
      ensures ok ==> size <= rsp.cap
      ensures rsp.Valid() && pool.Valid() && rsp.DrawsOn(pool)
      ensures rsp.Written() == old(rsp.Written()) && rsp.readPos == old(rsp.readPos) && old(rsp.cap) <= rsp.cap
    {
      hide RwBuffers.RwBuffer.Valid, RwBuffers.MemPool.Valid, RwBuffers.RwBuffer.Written, RwBuffers.RwBuffer.DrawsOn;
      ghost var most := rsp.cap + (|pool.free| + RwBuffers.Granted(pool.Spare(), callocs, 0)) * RwBuffers.BLOCK_SIZE;
      var made := 0;
      while rsp.cap < size
        invariant rsp.Valid() && pool.Valid() && rsp.DrawsOn(pool) && old(rsp.cap) <= rsp.cap
        invariant rsp.Written() == old(rsp.Written()) && rsp.readPos == old(rsp.readPos)
        invariant rsp.cap + (|pool.free| + RwBuffers.Granted(pool.Spare(), callocs, made)) * RwBuffers.BLOCK_SIZE == most
        decreases size - rsp.cap
      {
        var empty := pool.free == [];
        ok := rsp.Expand(pool, callocs(made));
        if !ok {
          return;
        }
        if empty {
          made := made + 1;
        }
      }
      ok := true;
    }

    /** A read request: the response buffer grows until the file fits into it, if blocks suffice. */
    method HandleRead(fid: nat, rsp: RwBuffers.RwBuffer, pool: RwBuffers.MemPool, callocs: nat -> bool)
      returns (reply: Option<Error>)
      requires Valid() && rsp.Valid() && pool.Valid() && rsp.DrawsOn(pool)
      modifies this, rsp, pool
      ensures Valid() && (Value(), reply) == AdmitRead(old(Value()), fid, old(Roomy(fid, rsp, pool, callocs)))
      ensures reply == Some(FileNotFound) <==> old(fid !in index || index[fid].chunk !in mem)
      ensures reply == Some(MemoryLimit) <==> old(fid in index && index[fid].chunk in mem && !Roomy(fid, rsp, pool, callocs))
      ensures reply == Some(IoJobUnavailable) <==>
                old(fid in index && index[fid].chunk in mem && Roomy(fid, rsp, pool, callocs) && freeJobs == 0)
      ensures reply.None? || reply in {Some(FileNotFound), Some(MemoryLimit), Some(IoJobUnavailable)}
      ensures reply == None ==> index == old(index) && index[fid].size <= rsp.cap && freeJobs == old(freeJobs) - 1
                                && readers == old(readers)[old(nextJob) := Read(fid, index[fid], [])]
      ensures rsp.Valid() && pool.Valid() && rsp.DrawsOn(pool)
      ensures rsp.Written() == old(rsp.Written()) && rsp.readPos == old(rsp.readPos) && old(rsp.cap) <= rsp.cap
    {
      hide RwBuffers.RwBuffer.Valid, RwBuffers.MemPool.Valid, RwBuffers.RwBuffer.Written, RwBuffers.RwBuffer.DrawsOn;
      hide RwBuffers.Suffices;
      if fid !in index || index[fid].chunk !in mem {
        return Some(FileNotFound);
      }
      var room := GrowResponse(index[fid].size, rsp, pool, callocs);
      if !room {
        return Some(MemoryLimit);
      }
      var ok := GenIoJob();
      if !ok {
        return Some(IoJobUnavailable);
      }
      readers := readers[nextJob := Read(fid, index[fid], [])];
      nextJob := nextJob + 1;
      reply := None;
    }

    /** The file fits into the response buffer, or the blocks there are for it suffice. */
    ghost predicate Roomy(fid: nat, rsp: RwBuffers.RwBuffer, pool: RwBuffers.MemPool, callocs: nat -> bool)
      reads this, rsp, pool
    {
      fid in index ==> RwBuffers.Suffices(index[fid].size, rsp.cap, |pool.free|, pool.Spare(), callocs)
    }
  }

  /** Parked in the order of their times. */
  predicate InOrder(ps: seq<Parked>) { forall i, j :: 0 <= i < j < |ps| ==> ps[i].reqTime <= ps[j].reqTime }

  lemma MoveHead<T>(xs: seq<T>, ys: seq<T>)
    requires ys != []
    ensures (xs + [ys[0]]) + ys[1..] == xs + ys
  {
  }

  lemma NoneExpired(ps: seq<Parked>, k: nat, now: nat)
    requires InOrder(ps) && k <= |ps| && (k < |ps| ==> ps[k].reqTime + PENDING_WRITE_TIMEOUT > now)
    ensures forall p :: p in ps[k..] ==> p.reqTime + PENDING_WRITE_TIMEOUT > now
  {
    forall p | p in ps[k..] ensures p.reqTime + PENDING_WRITE_TIMEOUT > now {
      var i :| 0 <= i < |ps[k..]| && ps[k..][i] == p;
      assert p == ps[k + i];
    }
  }

  lemma ExpiredHead(ps: seq<Parked>, now: nat)
    ensures Expired(ps, now) ==
            if ps == [] || ps[0].reqTime + PENDING_WRITE_TIMEOUT > now then 0 else 1 + Expired(ps[1..], now)
  {
  }

  lemma HandOnIndex(s: Server, c: nat)
    requires c in s.mem
    ensures HandOn(s, c).index == s.index
  {
    hide FirstParked, Need, Unlink;
  }
}
