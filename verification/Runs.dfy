/**
 Whole runs of the storage engine: what holds in every reachable state, what no later step
 changes, and what a crash at any point leaves.
 */
module Runs {
  import opened Codec
  import opened Adler
  import opened Format
  import opened Readings
  import opened Recovery
  import opened Images
  import opened Chunks
  import opened Engine
  import opened EngineInv
  import opened Crash
  import opened DistinctFids
  import Framing
  import RwBuffers

  // ---------------------------------------------------------------------------
  // The first start.

  /** A chunk file as it is created: allocated in full and zero behind the superblock. */
  function NewFile(id: nat): (r: seq<byte>)
    ensures |r| == CHUNK_SIZE
  {
    EncodeSuper(SuperOf(id, NewChunk())) + seq(CHUNK_SIZE - SUPERBLOCK_SIZE, _ => 0)
  }

  function NewChunk(): Chunk { Chunk(0, 0, SUPERBLOCK_SIZE, CHUNK_SIZE - SUPERBLOCK_SIZE) }

  /** Chunks 1 to `n`, the last one first. */
  function NewIds(n: nat): (r: seq<nat>)
    ensures |r| == n && forall i :: 0 <= i < n ==> r[i] == n - i
  {
    seq(n, i requires 0 <= i < n => n - i)
  }

  ghost function Initial(n: nat, blocks: nat): State {
    var ids := set i | i in NewIds(n);
    State(
      Server(NewIds(n), [], map i | i in ids :: NewChunk(), map[], map[], map[], 0, [], MAX_IO_JOBS),
      map i | i in ids :: NewFile(i), 0,
      History(map i | i in ids :: [], map i | i in ids :: 0, map[]), blocks)
  }

  lemma NewChunkOk(id: nat)
    requires id < 0x1_0000_0000_0000_0000
    ensures ChunkOk(id, NewChunk(), NewFile(id), [], 0, CHUNK_SIZE)
  {
    hide EncodeSuper;
    var empty: seq<Record> := [];
    assert Log(empty) == [] && empty[..0] == empty;
    assert CountersFor(empty, CHUNK_SIZE) == NewChunk();
  }

  lemma InitialInv(n: nat, blocks: nat)
    requires n < 0x1_0000_0000_0000_0000 && blocks <= RwBuffers.SAFE_BLOCKS
    ensures Inv(Initial(n, blocks)) && FidInv(Initial(n, blocks))
  {
    hide ChunkOk, NewFile, NewChunk, AllChecked;
    var s := Initial(n, blocks);
    forall id | id in s.srv.mem
      ensures ChunkOk(id, s.srv.mem[id], s.disk[id], s.hist.logs[id], s.hist.durable[id], CHUNK_SIZE)
    {
      NewChunkOk(id);
    }
    forall id ensures id in s.srv.mem <==> id in s.srv.chunks {
      if id in s.srv.mem { assert s.srv.chunks[n - id] == id; }
    }
    assert AllChecked([]) by { NoneChecked(); }
  }

  lemma NoneChecked()
    ensures AllChecked([])
  {
  }

  // ---------------------------------------------------------------------------
  // Runs.

  ghost predicate Run(s: State, acts: seq<Action>, t: State)
    decreases |acts|
  {
    if acts == [] then t == s else Enabled(s, acts[0]) && Run(Apply(s, acts[0]), acts[1..], t)
  }

  /** No request arrives with a fid that another one in flight has. */
  ghost predicate FreshRun(s: State, acts: seq<Action>)
    decreases |acts|
  {
    acts != [] && Enabled(s, acts[0]) ==>
      FreshArrival(s, acts[0]) && FreshRun(Apply(s, acts[0]), acts[1..])
  }

  lemma {:induction false} RunInv(s: State, acts: seq<Action>, t: State)
    requires Inv(s) && Run(s, acts, t)
    ensures Inv(t)
    decreases |acts|
  {
    hide Inv, Enabled, Apply;
    if acts != [] {
      StepInv(s, acts[0]);
      RunInv(Apply(s, acts[0]), acts[1..], t);
    }
  }

  lemma {:induction false} RunFids(s: State, acts: seq<Action>, t: State)
    requires Inv(s) && FidInv(s) && Run(s, acts, t) && FreshRun(s, acts)
    ensures Inv(t) && FidInv(t)
    decreases |acts|
  {
    hide Inv, FidInv, Enabled, Apply, FreshArrival;
    if acts != [] {
      StepInv(s, acts[0]);
      StepFids(s, acts[0]);
      RunFids(Apply(s, acts[0]), acts[1..], t);
    }
  }

  // ---------------------------------------------------------------------------
  // Chunks and their writers.

  /** In every reachable state each chunk is on exactly one of the two lists; two writes in flight
      are on different chunks, both taken; a write that is not counted yet starts at its chunk's
      current offset and fits; and the counters of a chunk add up to its size with at least one
      byte to spare, so that a signed 32-bit file position never overflows. */
  lemma WritersExclusive(n: nat, blocks: nat, acts: seq<Action>, t: State)
    requires n < 0x1_0000_0000_0000_0000 && blocks <= RwBuffers.SAFE_BLOCKS
    requires Run(Initial(n, blocks), acts, t)
    ensures forall id :: id in t.srv.mem <==> id in t.srv.chunks || id in t.srv.writing
    ensures forall id :: id in t.srv.chunks ==> id !in t.srv.writing
    ensures NoDup(t.srv.chunks) && NoDup(t.srv.writing)
    ensures forall j, k :: j in t.srv.jobs && k in t.srv.jobs && j != k ==> t.srv.jobs[j].chunk != t.srv.jobs[k].chunk
    ensures forall j :: j in t.srv.jobs ==>
              && t.srv.jobs[j].chunk in t.srv.writing && t.srv.jobs[j].chunk in t.srv.mem
              && (t.srv.jobs[j].phase.Queued? || t.srv.jobs[j].phase.Writing? ==>
                    && t.srv.jobs[j].offset == t.srv.mem[t.srv.jobs[j].chunk].currentOffset
                    && |t.srv.jobs[j].data| + FILE_META_SIZE < t.srv.mem[t.srv.jobs[j].chunk].availSpace)
    ensures forall id :: id in t.srv.mem ==>
              && t.srv.mem[id].currentOffset + t.srv.mem[id].availSpace == CHUNK_SIZE
              && t.srv.mem[id].availSpace >= 1 && t.srv.mem[id].currentOffset <= 0x7fff_ffff
    ensures t.srv.freeJobs + |t.srv.jobs| + |t.srv.readers| + |t.srv.pending| == MAX_IO_JOBS
    ensures |t.srv.pending| <= MAX_PENDING_WRITES
  {
    hide Initial, CellsOk, WritesOk, IndexOk, AckedOk, ReadsOk;
    InitialInv(n, blocks);
    RunInv(Initial(n, blocks), acts, t);
    forall j | j in t.srv.jobs
      ensures t.srv.jobs[j].chunk in t.srv.writing && t.srv.jobs[j].chunk in t.srv.mem
      ensures var job := t.srv.jobs[j];
              job.phase.Queued? || job.phase.Writing? ==>
                && job.offset == t.srv.mem[job.chunk].currentOffset
                && |job.data| + FILE_META_SIZE < t.srv.mem[job.chunk].availSpace
    {
      WriterPlace(t, j);
    }
    forall id | id in t.srv.mem
      ensures t.srv.mem[id].currentOffset + t.srv.mem[id].availSpace == CHUNK_SIZE && t.srv.mem[id].availSpace >= 1
    {
      ChunkBounds(t, id);
    }
  }

  lemma WriterPlace(t: State, j: nat)
    requires Inv(t) && j in t.srv.jobs
    ensures var job := t.srv.jobs[j];
            && job.chunk in t.srv.writing && job.chunk in t.srv.mem
            && (job.phase.Queued? || job.phase.Writing? ==>
                  && job.offset == t.srv.mem[job.chunk].currentOffset
                  && |job.data| + FILE_META_SIZE < t.srv.mem[job.chunk].availSpace)
  {
    hide Inv, Log, EncodeSuper, Encode, Checked, ChunkOk;
    JobCell(t, j);
    assert t.srv.jobs[j].chunk in t.srv.writing by { InvBooks(t); WriterTaken(t.srv, j); }
  }

  lemma ChunkBounds(t: State, id: nat)
    requires CellsOk(t) && id in t.srv.mem
    ensures t.srv.mem[id].currentOffset + t.srv.mem[id].availSpace == CHUNK_SIZE && t.srv.mem[id].availSpace >= 1
  {
    hide Log, EncodeSuper;
  }

  /** Where the protocol has a next step for a worker, that step can be taken: the guards that
      speak of sizes never stand in the way. */
  lemma WorkersNeverStuck(s: State, j: nat)
    requires Inv(s) && j in s.srv.jobs
    ensures match s.srv.jobs[j].phase
            case Queued => true
            case Writing(rec, done) =>
              && done <= |Encode(rec)|
              && (forall n: nat :: done + n <= |Encode(rec)| ==> Enabled(s, Write(j, n)))
              && (done == |Encode(rec)| ==> Enabled(s, Count(j)))
            case Counted(rec) => Enabled(s, Seal(j, true)) && Enabled(s, Seal(j, false))
            case Returned(ok) => Enabled(s, Done(j))
  {
    hide Inv, Log, EncodeSuper, Encode, Checked;
    JobCell(s, j);
  }

  lemma ReadersNeverStuck(s: State, j: nat, n: nat)
    requires Inv(s) && j in s.srv.readers && |s.srv.readers[j].got| + n <= s.srv.readers[j].entry.size
    ensures Enabled(s, Fetch(j, n))
  {
    hide CellsOk, Fetched;
    FetchMore(s, s.srv.readers[j], n);
  }

  // ---------------------------------------------------------------------------
  // What no later step changes.

  /** The file is acknowledged with the data of this record, and the superblock on disk commits
      the record. */
  ghost predicate Safe(s: State, f: nat, rec: Record) {
    && f in s.hist.acked && s.hist.acked[f] == rec.data && f in s.srv.index
    && s.srv.index[f].chunk in s.hist.durable
    && exists k: nat :: SafeAt(s, f, rec, k)
  }

  ghost predicate SafeAt(s: State, f: nat, rec: Record, k: nat)
    requires f in s.srv.index && s.srv.index[f].chunk in s.hist.durable
  {
    var e := s.srv.index[f];
    Locates(s.hist.logs, f, e, k) && s.hist.logs[e.chunk][k] == rec && k < s.hist.durable[e.chunk]
  }

  /** Outside a crash, logs, commitments, the index and the acknowledgements only grow. */
  ghost predicate Grows(s: State, t: State) {
    && LogsGrow(s.hist.logs, t.hist.logs)
    && (forall id :: id in s.hist.durable ==> id in t.hist.durable && s.hist.durable[id] <= t.hist.durable[id])
    && (forall f :: f in s.srv.index ==> f in t.srv.index && t.srv.index[f] == s.srv.index[f])
    && (forall f :: f in s.hist.acked ==> f in t.hist.acked && t.hist.acked[f] == s.hist.acked[f])
  }

  lemma AdmitIndex(s: Server, fid: nat, data: seq<byte>, now: nat)
    ensures Admit(s, fid, data, now).0.index == s.index
  {
    hide FirstFit, Need, Without;
  }

  lemma StepGrows(s: State, a: Action)
    requires Inv(s) && Enabled(s, a) && !a.Restart?
    ensures Grows(s, Apply(s, a))
  {
    hide Inv, Encode, EncodeSuper, Checked, Complete, Admit, AdmitRead, FirstFit, Expired;
    match a
    case Arrive(fid, data, now) => AdmitIndex(s.srv, fid, data, now);
    case Seal(j, ok) =>
      JobCell(s, j);
      Bounds(s.srv.jobs[j].chunk, s.srv.mem[s.srv.jobs[j].chunk], s.disk[s.srv.jobs[j].chunk],
             s.hist.logs[s.srv.jobs[j].chunk], s.hist.durable[s.srv.jobs[j].chunk]);
    case Done(j) => DoneGrows(s, j);
    case StartRead(fid, room) => assert AdmitRead(s.srv, fid, room).0.index == s.srv.index by { ReadIndex(s.srv, fid, room); }
    case _ =>
  }

  lemma ReadIndex(s: Server, fid: nat, room: bool)
    ensures AdmitRead(s, fid, room).0.index == s.index
  {
  }

  lemma DoneGrows(s: State, j: nat)
    requires Inv(s) && Enabled(s, Done(j))
    ensures Grows(s, Apply(s, Done(j)))
  {
    hide Books, Complete, JobsFrom, CellsOk, WritesOk, ReadsOk, IndexOk, HoldsData;
    InvBooks(s);
    CompleteBooks(s.srv, j);
  }

  /** Safe files stay safe, where they are and as they are. */
  lemma SafeStep(s: State, a: Action, f: nat, rec: Record)
    requires Inv(s) && Enabled(s, a) && Safe(s, f, rec)
    ensures Safe(Apply(s, a), f, rec) && Apply(s, a).srv.index[f] == s.srv.index[f]
  {
    hide Inv, Enabled, Apply, Locates;
    var t, e := Apply(s, a), s.srv.index[f];
    var k: nat :| SafeAt(s, f, rec, k);
    if a.Restart? {
      SafeRestart(s, a.order, f, rec, k);
    } else {
      StepGrows(s, a);
      assert e.chunk in s.hist.logs by { LocatesChunk(s.hist.logs, f, e, k); }
      LocatesGrow(s.hist.logs, t.hist.logs, f, e, k);
      assert SafeAt(t, f, rec, k);
    }
  }

  lemma LocatesChunk(logs: map<nat, seq<Record>>, f: nat, e: Entry, k: nat)
    requires Locates(logs, f, e, k)
    ensures e.chunk in logs && k < |logs[e.chunk]|
  {
  }

  lemma SafeRestart(s: State, order: seq<nat>, f: nat, rec: Record, k: nat)
    requires Inv(s) && Enabled(s, Restart(order)) && Safe(s, f, rec) && SafeAt(s, f, rec, k)
    ensures var t := Apply(s, Restart(order)); Safe(t, f, rec) && t.srv.index[f] == s.srv.index[f]
  {
    hide Inv, CellsOk, Covers, InstallAll, Committed, Books, DurableImages, Counters, Ids, Log;
    var t, e := Apply(s, Restart(order)), s.srv.index[f];
    InvCells(s);
    RestartCells(s, order);
    CommittedKeys(s, t);
    CommittedPrefix(s, t, e.chunk);
    CommittedIndexed(s, t, order, e.chunk, k);
    assert t.hist.logs[e.chunk][..k] == s.hist.logs[e.chunk][..k];
    assert t.srv.index[f] == e;
    assert SafeAt(t, f, rec, k);
  }

  /** Main result on durability: data that was acknowledged and committed is, after any run with
      any number of crashes, still acknowledged, still in the index at the same place, and the
      bytes at that place are the same record. */
  lemma {:induction false} SafeForever(s: State, acts: seq<Action>, t: State, f: nat, rec: Record)
    requires Inv(s) && Run(s, acts, t) && Safe(s, f, rec)
    ensures Inv(t) && Safe(t, f, rec) && t.srv.index[f] == s.srv.index[f]
    decreases |acts|
  {
    hide Inv, Enabled, Apply, Safe, SafeAt;
    if acts != [] {
      StepInv(s, acts[0]);
      SafeStep(s, acts[0], f, rec);
      SafeForever(Apply(s, acts[0]), acts[1..], t, f, rec);
    }
    assert f in s.srv.index && f in t.srv.index by { SafeIndexed(s, f, rec); SafeIndexed(t, f, rec); }
  }

  lemma SafeIndexed(s: State, f: nat, rec: Record)
    ensures Safe(s, f, rec) ==> f in s.srv.index
  {
  }

  /** The bytes of a safe file are its record. */
  lemma SafeBytes(s: State, f: nat, rec: Record)
    requires Inv(s) && Safe(s, f, rec)
    ensures var e := s.srv.index[f];
            && e.chunk in s.disk && e.offset + e.size <= |s.disk[e.chunk]|
            && s.disk[e.chunk][e.offset..e.offset + e.size] == Encode(rec)
  {
    hide Inv, CellsOk, Encode, Locates;
    var k: nat :| SafeAt(s, f, rec, k);
    InvCells(s);
    LocatedExtent(s, f, s.srv.index[f], k);
  }

  lemma RecordsApart(id: nat, rs: seq<Record>, k: nat, l: nat)
    requires k < l < |rs|
    ensures EntryAt(id, rs, k).offset + EntryAt(id, rs, k).size <= EntryAt(id, rs, l).offset
  {
    hide Log;
    LogUpTo(rs, k);
    if k + 1 < l { OffsetsGrow(rs, k + 1, l); }
  }

  /** Two files of a chunk lie apart. */
  lemma ExtentsDisjoint(s: State, f: nat, g: nat)
    requires Inv(s) && f in s.srv.index && g in s.srv.index && f != g
    ensures var (d, e) := (s.srv.index[f], s.srv.index[g]);
            d.chunk == e.chunk ==> d.offset + d.size <= e.offset || e.offset + e.size <= d.offset
  {
    hide CellsOk, Log;
    var d, e, logs := s.srv.index[f], s.srv.index[g], s.hist.logs;
    assert Indexed(logs, f, d) && Indexed(logs, g, e);
    var k: nat :| Locates(logs, f, d, k);
    var l: nat :| Locates(logs, g, e, l);
    if d.chunk == e.chunk {
      if k < l { RecordsApart(d.chunk, logs[d.chunk], k, l); }
      if l < k { RecordsApart(d.chunk, logs[d.chunk], l, k); }
    }
  }

  /** The place of an entry is on disk. */
  lemma EntryOnDisk(s: State, f: nat)
    requires Inv(s) && f in s.srv.index
    ensures var e := s.srv.index[f]; e.chunk in s.disk && e.offset + e.size <= |s.disk[e.chunk]|
  {
    hide CellsOk, Locates, Encode;
    var k: nat :| Locates(s.hist.logs, f, s.srv.index[f], k);
    LocatedExtent(s, f, s.srv.index[f], k);
  }

  /** The bytes of a file. */
  ghost function BytesOf(s: State, f: nat): seq<byte>
    requires Inv(s) && f in s.srv.index
  {
    EntryOnDisk(s, f);
    var e := s.srv.index[f];
    s.disk[e.chunk][e.offset..e.offset + e.size]
  }

  lemma StepKeepsBytes(s: State, a: Action, t: State, f: nat)
    requires Inv(s) && Inv(t) && f in s.srv.index
    requires Enabled(s, a) && !a.Restart? && t == Apply(s, a)
    ensures f in t.srv.index && t.srv.index[f] == s.srv.index[f] && BytesOf(t, f) == BytesOf(s, f)
  {
    hide CellsOk, Locates, Encode, Enabled, Apply;
    var e := s.srv.index[f];
    StepGrows(s, a);
    var k: nat :| Locates(s.hist.logs, f, e, k);
    LocatesChunk(s.hist.logs, f, e, k);
    LocatesGrow(s.hist.logs, t.hist.logs, f, e, k);
    LocatedExtent(s, f, e, k);
    LocatedExtent(t, f, e, k);
  }

  /** While the server runs, whatever writes succeed or fail beside it, a file that is in the index
      stays there and its bytes do not change, committed or not. */
  lemma {:induction false} BytesForever(s: State, acts: seq<Action>, t: State, f: nat)
    requires Inv(s) && Run(s, acts, t) && f in s.srv.index && forall a :: a in acts ==> !a.Restart?
    ensures Inv(t) && f in t.srv.index && t.srv.index[f] == s.srv.index[f] && BytesOf(t, f) == BytesOf(s, f)
    decreases |acts|
  {
    hide Inv, Enabled, Apply, BytesOf;
    if acts != [] {
      StepInv(s, acts[0]);
      StepKeepsBytes(s, acts[0], Apply(s, acts[0]), f);
      BytesForever(Apply(s, acts[0]), acts[1..], t, f);
    }
  }

  /** The superblock on disk commits every record of the chunk. */
  ghost predicate Sealed(s: State, c: nat) {
    c in s.hist.logs && c in s.hist.durable && s.hist.durable[c] == |s.hist.logs[c]|
  }

  /** A write that is acknowledged is safe from then on exactly when the last superblock write of
      its chunk succeeded. */
  lemma AcknowledgedSafe(s: State, t: State, j: nat, job: Job) returns (rec: Record)
    requires j in s.srv.jobs && job == s.srv.jobs[j] && job.phase == Returned(true) && job.fid !in s.srv.index
    requires Inv(s) && Enabled(s, Done(j)) && t == Apply(s, Done(j))
    ensures rec.fid == job.fid && rec.data == job.data
    ensures Safe(t, job.fid, rec) <==> Sealed(s, job.chunk)
    ensures forall r :: Safe(t, job.fid, r) ==> r == rec
    ensures job.fid in t.hist.acked
  {
    hide Inv, CellsOk, Books, Complete, JobsFrom, Log, ChunkOk, AllChecked;
    var c := job.chunk;
    InvBooks(s);
    assert Requests(s.srv.pending) by { InvRequests(s); }
    CompleteBooks(s.srv, j);
    JobCell(s, j);
    Bounds(c, s.srv.mem[c], s.disk[c], s.hist.logs[c], s.hist.durable[c]);
    var rs := s.hist.logs[c];
    rec := rs[|rs| - 1];
    var e := Entry(c, job.offset, |job.data| + FILE_META_SIZE);
    assert t.srv.index[job.fid] == e && EntryAt(c, rs, |rs| - 1) == e;
    if s.hist.durable[c] == |rs| {
      assert SafeAt(t, job.fid, rec, |rs| - 1);
    }
    forall r | Safe(t, job.fid, r) ensures r == rec && s.hist.durable[c] == |rs| {
      var k: nat :| SafeAt(t, job.fid, r, k);
      SameRecord(c, rs, k, |rs| - 1);
    }
  }

  lemma InvRequests(s: State)
    requires Inv(s)
    ensures Requests(s.srv.pending)
  {
  }

  // ---------------------------------------------------------------------------
  // Reads.

  /** What the reader answers: the data behind the meta block, if fid and checksum agree. */
  function ReadReply(fid: nat, got: seq<byte>): Option<seq<byte>> {
    if |got| < FILE_META_SIZE then None
    else
      var meta := DecodeMeta(got);
      var body := got[FILE_META_SIZE..];
      if meta.fid != fid || meta.checksum != Checksum(0, body) then None
      else Some(if meta.size <= |body| then body[..meta.size] else body)
  }

  lemma ReplyOfRecord(r: Record)
    requires RecordFits(r) && Checked(r)
    ensures ReadReply(r.fid, Encode(r)) == Some(r.data)
    ensures forall f :: f != r.fid ==> ReadReply(f, Encode(r)) == None
  {
    hide Checksum, DecodeMeta, EncodeMeta;
    DecodeRecord(r, []);
    assert Encode(r) + [] == Encode(r);
    assert Encode(r)[FILE_META_SIZE..] == r.data && r.data[..|r.data|] == r.data;
  }

  lemma LocatedRecord(s: State, f: nat, e: Entry, k: nat)
    requires CellsOk(s) && Locates(s.hist.logs, f, e, k)
    ensures var r := s.hist.logs[e.chunk][k]; RecordFits(r) && Checked(r) && r.fid == f
    ensures e.size == FILE_META_SIZE + |s.hist.logs[e.chunk][k].data|
  {
    hide Log, EncodeSuper, Checked, RecordFits;
    var id := e.chunk;
    assert id in s.srv.mem;
    assert AllFit(s.hist.logs[id]) && AllChecked(s.hist.logs[id]);
    assert Checked(s.hist.logs[id][k]);
  }

  /** An extent of which one byte of the data is damaged is not answered, nor is one of another file. */
  lemma DamagedReply(rec: Record, i: nat, x: byte, f: nat)
    requires RecordFits(rec) && Checked(rec) && i < |rec.data|
    ensures x != rec.data[i] ==> ReadReply(f, Encode(rec)[FILE_META_SIZE + i := x]) == None
    ensures f != rec.fid ==> ReadReply(f, Encode(rec)[FILE_META_SIZE + i := x]) == None
  {
    hide Checksum, DecodeMeta, EncodeMeta;
    var got := Encode(rec)[FILE_META_SIZE + i := x];
    var none: seq<byte> := [];
    DecodeRecord(rec, none);
    assert Encode(rec) + none == Encode(rec);
    DecodeMetaPrefix(got);
    DecodeMetaPrefix(Encode(rec));
    assert got[..FILE_META_SIZE] == Encode(rec)[..FILE_META_SIZE];
    assert got[FILE_META_SIZE..] == rec.data[i := x];
    if x != rec.data[i] { OneByteDetected(rec.data, i, x); }
  }

  /** Main result on reads: a read that has got all its bytes, piece by piece between any other
      steps, passes the fid and checksum tests and answers with the data of the record it was
      after, which is the acknowledged data of the file if the file is acknowledged. */
  lemma ReadsExact(s: State, j: nat, r: Read) returns (data: seq<byte>)
    requires j in s.srv.readers && r == s.srv.readers[j] && |r.got| == r.entry.size
    requires Inv(s)
    ensures ReadReply(r.fid, r.got) == Some(data) && HoldsData(s.hist.logs, r.fid, r.entry, data)
    ensures r.fid in s.hist.acked && r.fid in s.srv.index && s.srv.index[r.fid] == r.entry ==>
              data == s.hist.acked[r.fid]
  {
    hide CellsOk, Encode, Log, ReadReply;
    var logs := s.hist.logs;
    assert Fetched(logs, r);
    var k: nat :| Locates(logs, r.fid, r.entry, k)
                  && |r.got| <= r.entry.size && r.got == Encode(logs[r.entry.chunk][k])[..|r.got|];
    var rec := logs[r.entry.chunk][k];
    LocatedRecord(s, r.fid, r.entry, k);
    assert r.got == Encode(rec);
    ReplyOfRecord(rec);
    data := rec.data;
    if r.fid in s.hist.acked && r.fid in s.srv.index && s.srv.index[r.fid] == r.entry {
      assert HoldsData(logs, r.fid, r.entry, s.hist.acked[r.fid]);
      var l: nat :| Locates(logs, r.fid, r.entry, l) && logs[r.entry.chunk][l].data == s.hist.acked[r.fid];
      SameRecord(r.entry.chunk, logs[r.entry.chunk], k, l);
    }
  }

  // ---------------------------------------------------------------------------
  // Crashes.

  /** The `k`-th record of a chunk is committed. */
  ghost predicate CommittedAt(s: State, id: nat, k: nat) {
    id in s.hist.logs && id in s.hist.durable && k < s.hist.durable[id] && k < |s.hist.logs[id]|
  }

  /** What a crash leaves of a state in which no fid occurs twice. */
  lemma CrashExact(s: State, order: seq<nat>)
    requires Inv(s) && FidInv(s) && Lists(order, s.disk)
    ensures Enabled(s, Restart(order))
    ensures var t := Apply(s, Restart(order));
            && Inv(t)
            && (forall id, k: nat :: CommittedAt(s, id, k) ==>
                  var f := s.hist.logs[id][k].fid;
                  f in t.srv.index && t.srv.index[f] == EntryAt(id, s.hist.logs[id], k))
            && (forall f :: f in t.srv.index ==>
                  exists id, k: nat :: CommittedAt(s, id, k) && s.hist.logs[id][k].fid == f)
            && (forall f :: f in s.hist.acked ==> (f in t.srv.index <==> exists rec :: Safe(s, f, rec)))
  {
    hide Inv, FidInv, Safe, InstallAll, Lists, CellsOk, Covers, Committed, DurableImages, Log, Counters, Ids, AfterCrash, Books;
    InvCells(s);
    Restartable(s, order);
    var t := Apply(s, Restart(order));
    RestartCells(s, order);
    StepInv(s, Restart(order));
    forall id, k: nat | CommittedAt(s, id, k)
      ensures var f := s.hist.logs[id][k].fid;
              f in t.srv.index && t.srv.index[f] == EntryAt(id, s.hist.logs[id], k)
    {
      CommittedKeys(s, t);
      CommittedPrefix(s, t, id);
      CommittedIndexed(s, t, order, id, k);
      assert t.hist.logs[id][..k] == s.hist.logs[id][..k];
    }
    forall f | f in t.srv.index
      ensures exists id, k: nat :: CommittedAt(s, id, k) && s.hist.logs[id][k].fid == f
    {
      CoveredIndexed(s, t, order, f);
      FoundCommitted(s, t, f, t.srv.index[f]);
    }
    forall f | f in s.hist.acked ensures f in t.srv.index <==> exists rec :: Safe(s, f, rec) {
      if f in t.srv.index {
        var id, k: nat :| CommittedAt(s, id, k) && s.hist.logs[id][k].fid == f;
        var rec := CommittedSafe(s, f, id, k);
      }
      if rec :| Safe(s, f, rec) {
        var id, k := SafeCommitted(s, f, rec);
      }
    }
  }

  /** Main result on crashes: in a run whose requests in flight carry different fids, a crash in
      any state is recovered from in any directory order. The recovered index has an entry for
      exactly the fids of committed records, each the entry of its record; and an acknowledged
      file is recovered exactly when its record was committed. */
  lemma CrashRecovered(n: nat, blocks: nat, acts: seq<Action>, s: State, order: seq<nat>)
    requires n < 0x1_0000_0000_0000_0000 && blocks <= RwBuffers.SAFE_BLOCKS
    requires Run(Initial(n, blocks), acts, s) && FreshRun(Initial(n, blocks), acts)
    requires Lists(order, s.disk)
    ensures Enabled(s, Restart(order))
    ensures var t := Apply(s, Restart(order));
            && Inv(t)
            && (forall id, k: nat :: CommittedAt(s, id, k) ==>
                  var f := s.hist.logs[id][k].fid;
                  f in t.srv.index && t.srv.index[f] == EntryAt(id, s.hist.logs[id], k))
            && (forall f :: f in t.srv.index ==>
                  exists id, k: nat :: CommittedAt(s, id, k) && s.hist.logs[id][k].fid == f)
            && (forall f :: f in s.hist.acked ==> (f in t.srv.index <==> exists rec :: Safe(s, f, rec)))
  {
    hide Initial, Inv, FidInv, Safe, Lists, Enabled, Apply, CommittedAt, EntryAt;
    InitialInv(n, blocks);
    RunFids(Initial(n, blocks), acts, s);
    CrashExact(s, order);
  }

  /** And so a write that is being acknowledged survives a crash at that moment exactly if the
      superblock on disk commits its chunk. */
  lemma AcknowledgedSurvives(s: State, t: State, j: nat, job: Job, order: seq<nat>)
    requires j in s.srv.jobs && job == s.srv.jobs[j] && job.phase == Returned(true) && job.fid !in s.srv.index
    requires Inv(s) && FidInv(s) && Enabled(s, Done(j)) && t == Apply(s, Done(j)) && Lists(order, t.disk)
    ensures job.fid in t.hist.acked && Enabled(t, Restart(order))
    ensures job.fid in Apply(t, Restart(order)).srv.index <==> Sealed(s, job.chunk)
  {
    hide Inv, FidInv, Safe, Lists, Enabled, Apply, Sealed;
    StepInv(s, Done(j));
    StepFids(s, Done(j));
    var rec := AcknowledgedSafe(s, t, j, job);
    CrashExact(t, order);
  }

  /** The response to a read of a reachable state, header and data, is short enough for the int in which
      a connection counts what is left to send. */
  lemma ResponseFits(s: State, f: nat)
    requires Inv(s) && f in s.srv.index
    ensures Framing.RSP_HDR_SIZE + (s.srv.index[f].size - FILE_META_SIZE) < INT_LIMIT
    ensures s.srv.index[f].size - FILE_META_SIZE + Framing.INNER_HDR_SIZE < 0x1_0000_0000
  {
    hide ChunkOk, Encode, Log, JobsOk, PendingOk, Conserved, WritesOk, AckedOk, ReadsOk;
    var e := s.srv.index[f];
    assert Indexed(s.hist.logs, f, e);
    var k: nat :| Locates(s.hist.logs, f, e, k);
    LocatedExtent(s, f, e, k);
    DiskSize(s, e.chunk);
  }

  lemma DiskSize(s: State, id: nat)
    requires CellsOk(s) && id in s.disk
    ensures |s.disk[id]| == CHUNK_SIZE
  {
    hide Log, EncodeSuper;
    assert id in s.srv.mem;
  }

  /** Every chunk file of a reachable state is one that the buffered parser recovers. */
  lemma DiskRecoverable(s: State, id: nat)
    requires CellsOk(s) && id in s.disk
    ensures Recoverable(s.disk[id])
  {
    hide Log, EncodeSuper, Encode, Sound, LogEnd, InstallAll;
    assert id in s.srv.mem;
    CrashChunk(id, s.srv.mem[id], s.disk[id], s.hist.logs[id], s.hist.durable[id], CHUNK_SIZE);
    InstallOfImage(s.disk[id], DurableImage(id, s.hist.logs[id], s.hist.durable[id], CHUNK_SIZE), map[]);
  }

  /** Running the parser over the files of a state in which no fid occurs twice, in any order and however
      the reads are cut up, gives the server that a restart of the state machine has, exactly if every
      meta block is read whole, and otherwise none: the process aborts. Full reads are such. */
  method RecoverDisk(files: seq<seq<byte>>, bufSize: nat, stops: seq<set<nat>>, ghost s: State, ghost order: seq<nat>)
    returns (srv: Option<Server>)
    requires Inv(s) && FidInv(s) && Lists(order, s.disk) && files == FilesIn(s.disk, order) && |stops| == |files|
    requires FILE_META_SIZE <= bufSize < INT_LIMIT
    ensures Enabled(s, Restart(order))
    ensures srv == if AllClean(files, bufSize, stops) then Some(Apply(s, Restart(order)).srv) else None
    ensures (forall i :: 0 <= i < |files| ==> stops[i] == {}) ==> AllClean(files, bufSize, stops)
  {
    hide Recoverable, Loadable, Ordinary, InstallAll, Inv, FidInv, CellsOk, Booted, LoadAll, LogEnd, CleanFile;
    assert CellsOk(s) by { InvCells(s); }
    assert Enabled(s, Restart(order)) by { assert FidInv(s); Restartable(s, order); }
    forall i | 0 <= i < |files| ensures Loadable(files[i]) && Ordinary(files[i]) {
      DiskRecoverable(s, order[i]);
      RecoverableLoadable(files[i]);
    }
    SmallIf(files);
    LoadAllMostly(files, bufSize, stops);
    var r := RecoverAll(files, bufSize, stops);
    srv := match r case None => None case Some(v) => Some(Booted(v));
  }

  /** An acknowledged file of which some record is committed is safe: fids occur once. */
  lemma CommittedSafe(s: State, f: nat, id: nat, k: nat) returns (rec: Record)
    requires Inv(s) && FidInv(s) && f in s.hist.acked && CommittedAt(s, id, k) && s.hist.logs[id][k].fid == f
    ensures Safe(s, f, rec)
  {
    hide CellsOk, Log, FlightsApart, LogsKnown;
    var e, logs := s.srv.index[f], s.hist.logs;
    assert HoldsData(logs, f, e, s.hist.acked[f]);
    var l: nat :| Locates(logs, f, e, l) && logs[e.chunk][l].data == s.hist.acked[f];
    rec := logs[e.chunk][l];
    assert (id, k) == (e.chunk, l);
    assert SafeAt(s, f, rec, l);
  }

  lemma SafeCommitted(s: State, f: nat, rec: Record) returns (id: nat, k: nat)
    requires Safe(s, f, rec)
    ensures CommittedAt(s, id, k) && s.hist.logs[id][k].fid == f
  {
    hide Log;
    var l: nat :| SafeAt(s, f, rec, l);
    id, k := s.srv.index[f].chunk, l;
  }

  lemma FoundCommitted(s: State, t: State, f: nat, e: Entry)
    requires CellsOk(s) && Committed(s, t) && Indexed(t.hist.logs, f, e)
    ensures exists id, k: nat :: CommittedAt(s, id, k) && s.hist.logs[id][k].fid == f
  {
    hide CellsOk, Committed, Log;
    var k: nat :| Locates(t.hist.logs, f, e, k);
    CommittedKeys(s, t);
    CommittedPrefix(s, t, e.chunk);
    assert CommittedAt(s, e.chunk, k) by { DurableKeys(s); }
  }

  lemma DurableKeys(s: State)
    requires CellsOk(s)
    ensures s.hist.durable.Keys == s.hist.logs.Keys
  {
  }

  lemma Restartable(s: State, order: seq<nat>)
    requires CellsOk(s) && FidInv(s) && Lists(order, s.disk)
    ensures Enabled(s, Restart(order))
  {
    hide CanRestart, FidsDistinct, CellsOk;
    RestartExact(s, order);
    ImagesApart(s, order);
  }

  lemma ImagesApart(s: State, order: seq<nat>)
    requires CellsOk(s) && LogsApart(s.hist.logs) && Lists(order, s.disk)
    ensures FidsDistinct(DurableImages(s, order))
  {
    hide CellsOk, ImageAt;
    var imgs := DurableImages(s, order);
    forall i, k, j, l | 0 <= i < |imgs| && 0 <= k < |imgs[i].log| && 0 <= j < |imgs| && 0 <= l < |imgs[j].log| && (i, k) != (j, l)
      ensures imgs[i].log[k].fid != imgs[j].log[l].fid
    {
      ImageLog(s, order[i]);
      ImageLog(s, order[j]);
      assert imgs[i] == ImageAt(s, order[i]) && imgs[j] == ImageAt(s, order[j]);
    }
  }

  lemma ImageLog(s: State, id: nat)
    requires CellsOk(s) && id in s.disk
    ensures id in s.hist.logs && ImageAt(s, id).log <= s.hist.logs[id]
  {
    hide ChunkOk;
    assert id in s.srv.mem;
    Bounds(id, s.srv.mem[id], s.disk[id], s.hist.logs[id], s.hist.durable[id]);
    ImageId(s, id);
  }

  // ---------------------------------------------------------------------------
  // Why the fids in flight must differ.

  lemma RunOne(s: State, a: Action)
    requires Enabled(s, a)
    ensures Run(s, [a], Apply(s, a))
  {
    hide Enabled, Apply;
    assert [a][1..] == [];
  }

  lemma {:induction false} RunConcat(s: State, xs: seq<Action>, t: State, ys: seq<Action>, u: State)
    requires Run(s, xs, t) && Run(t, ys, u)
    ensures Run(s, xs + ys, u)
    decreases |xs|
  {
    hide Enabled, Apply;
    if xs == [] {
      assert xs + ys == ys;
    } else {
      RunConcat(Apply(s, xs[0]), xs[1..], t, ys, u);
      assert (xs + ys)[1..] == xs[1..] + ys;
    }
  }

  /** A queued write can always run to the end, leaving its record committed or, if the superblock
      write fails, not. */
  lemma RunJob(s: State, j: nat, rec: Record, sealed: bool) returns (acts: seq<Action>, t: State)
    requires Inv(s) && Enabled(s, Begin(j, rec))
    ensures Run(s, acts, t) && Inv(t)
    ensures var c := s.srv.jobs[j].chunk;
            && c in s.hist.logs
            && t.hist.logs == s.hist.logs[c := s.hist.logs[c] + [rec]]
            && c in s.hist.durable
            && t.hist.durable == (if sealed then s.hist.durable[c := |s.hist.logs[c]| + 1] else s.hist.durable)
            && t.srv.index == s.srv.index && t.srv.pending == s.srv.pending && t.srv.mem.Keys == s.srv.mem.Keys && t.blocks == s.blocks
            && t.srv.jobs == s.srv.jobs[j := s.srv.jobs[j].(phase := Returned(true))]
            && t.disk.Keys == s.disk.Keys
  {
    hide Inv, Encode, EncodeSuper, Checked, ChunkOk, AllChecked;
    var n := |Encode(rec)|;
    JobCell(s, j);
    var s1 := Apply(s, Begin(j, rec));
    RunOne(s, Begin(j, rec));
    StepInv(s, Begin(j, rec));
    WorkersNeverStuck(s1, j);
    var s2 := Apply(s1, Write(j, n));
    RunOne(s1, Write(j, n));
    StepInv(s1, Write(j, n));
    WorkersNeverStuck(s2, j);
    var s3 := Apply(s2, Count(j));
    RunOne(s2, Count(j));
    StepInv(s2, Count(j));
    WorkersNeverStuck(s3, j);
    t := Apply(s3, Seal(j, sealed));
    RunOne(s3, Seal(j, sealed));
    StepInv(s3, Seal(j, sealed));
    RunConcat(s, [Begin(j, rec)], s1, [Write(j, n)], s2);
    RunConcat(s, [Begin(j, rec)] + [Write(j, n)], s2, [Count(j)], s3);
    RunConcat(s, [Begin(j, rec)] + [Write(j, n)] + [Count(j)], s3, [Seal(j, sealed)], t);
    acts := [Begin(j, rec)] + [Write(j, n)] + [Count(j)] + [Seal(j, sealed)];
  }

  /** Two queued writes can both run to the end. */
  lemma RunBoth(s: State, j: nat, k: nat, rec: Record, rec': Record)
    returns (acts: seq<Action>, t: State, k1: nat, k2: nat)
    requires Inv(s) && j != k && Enabled(s, Begin(j, rec)) && Enabled(s, Begin(k, rec'))
    ensures var (c, d) := (s.srv.jobs[j].chunk, s.srv.jobs[k].chunk);
            && Run(s, acts, t) && Inv(t) && c != d
            && CommittedAt(t, c, k1) && t.hist.logs[c][k1] == rec
            && CommittedAt(t, d, k2) && t.hist.logs[d][k2] == rec'
  {
    hide Inv, Encode, EncodeSuper, Checked, CanRestart, Run, RecordFits;
    var c, d := s.srv.jobs[j].chunk, s.srv.jobs[k].chunk;
    assert c != d by { DifferentChunks(s, j, k); }
    var acts1, s1 := RunJob(s, j, rec, true);
    assert Enabled(s1, Begin(k, rec'));
    var acts2, s2 := RunJob(s1, k, rec', true);
    RunConcat(s, acts1, s1, acts2, s2);
    acts, t := acts1 + acts2, s2;
    k1, k2 := |s.hist.logs[c]|, |s1.hist.logs[d]|;
  }

  /** Two writes in flight with the same fid, which the server admits because neither is indexed
      yet, can run to a state from which no recovery succeeds. */
  lemma CollisionFatal(s: State, j: nat, k: nat, rec: Record, rec': Record) returns (acts: seq<Action>, t: State)
    requires Inv(s) && j != k && Enabled(s, Begin(j, rec)) && Enabled(s, Begin(k, rec')) && rec.fid == rec'.fid
    ensures Run(s, acts, t)
    ensures forall order :: Lists(order, t.disk) ==> !CanRestart(t.disk, order)
  {
    hide Inv, CanRestart, CellsOk, JobsOk, Run, Lists, CommittedAt;
    var k1, k2;
    acts, t, k1, k2 := RunBoth(s, j, k, rec, rec');
    forall order | Lists(order, t.disk) ensures !CanRestart(t.disk, order) {
      InvCells(t);
      TwiceFatal(t, order, s.srv.jobs[j].chunk, k1, s.srv.jobs[k].chunk, k2);
    }
  }

  /** A fid that is committed twice makes recovery fail in every directory order. */
  lemma TwiceFatal(t: State, order: seq<nat>, c: nat, k: nat, d: nat, l: nat)
    requires CellsOk(t) && Lists(order, t.disk) && CommittedAt(t, c, k) && CommittedAt(t, d, l) && c != d
    requires t.hist.logs[c][k].fid == t.hist.logs[d][l].fid
    ensures !CanRestart(t.disk, order)
  {
    hide CellsOk, CanRestart, ImageAt, Covers, InstallAll, Images.Chunks;
    RestartExact(t, order);
    DiskKeys(t);
    DurableBound(t, c);
    DurableBound(t, d);
    var imgs := DurableImages(t, order);
    var i :| 0 <= i < |order| && order[i] == c;
    var m :| 0 <= m < |order| && order[m] == d;
    ImageId(t, c);
    ImageId(t, d);
    assert imgs[i] == ImageAt(t, c) && imgs[m] == ImageAt(t, d);
    assert imgs[i].log[k].fid == imgs[m].log[l].fid;
  }

  lemma DiskKeys(s: State)
    requires CellsOk(s)
    ensures s.disk.Keys == s.hist.logs.Keys
  {
  }

  lemma DurableBound(s: State, id: nat)
    requires CellsOk(s) && id in s.hist.logs
    ensures id in s.hist.durable && s.hist.durable[id] <= |s.hist.logs[id]|
  {
    hide ChunkOk;
    assert id in s.srv.mem;
    Bounds(id, s.srv.mem[id], s.disk[id], s.hist.logs[id], s.hist.durable[id]);
  }

  lemma DifferentChunks(s: State, j: nat, k: nat)
    requires Inv(s) && j in s.srv.jobs && k in s.srv.jobs && j != k
    ensures s.srv.jobs[j].chunk != s.srv.jobs[k].chunk
  {
  }
}
