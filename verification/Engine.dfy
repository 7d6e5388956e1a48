/**
 The storage engine as a state machine. The main thread admits and completes writes and reads,
 worker threads issue the reads and writes of the jobs they were given, piece by piece and in any
 interleaving, and the process may crash and recover between any two of those steps.
 */
module Engine {
  import opened Codec
  import opened Format
  import opened Recovery
  import opened Images
  import opened Chunks
  import RwBuffers

  const CHUNK_SIZE: nat := 0x8000_0000
  const MAX_IO_JOBS: nat := 5000
  const MAX_PENDING_WRITES: nat := 20
  const PENDING_WRITE_TIMEOUT: nat := 5

  // ---------------------------------------------------------------------------
  // States.

  /** How far a worker is with a write: not begun, `done` bytes of the record written, counters
      advanced, or returned with a code. */
  datatype Phase = Queued | Writing(rec: Record, done: nat) | Counted(rec: Record) | Returned(ok: bool)

  datatype Job = Job(fid: nat, data: seq<byte>, chunk: nat, offset: nat, phase: Phase)

  /** A write that found no chunk with room for it. */
  datatype Parked = Parked(fid: nat, data: seq<byte>, reqTime: nat)

  /** A read and the bytes its worker has got so far. */
  datatype Read = Read(fid: nat, entry: Entry, got: seq<byte>)

  /** The memory of the process. */
  datatype Server = Server(
    chunks: seq<nat>,           // chunks free to be written, in allocation order
    writing: seq<nat>,          // chunks taken by a writer
    mem: map<nat, Chunk>,
    index: Index,
    jobs: map<nat, Job>,
    readers: map<nat, Read>,
    nextJob: nat,
    pending: seq<Parked>,
    freeJobs: nat)

  /** What an observer knows: the records the counters stand for, how many of them the superblock
      on disk commits, and the data acknowledged to clients and still in the index. No step of
      the server looks at it. */
  datatype History = History(logs: map<nat, seq<Record>>, durable: map<nat, nat>, acked: map<nat, seq<byte>>)

  /** The process, its disk, the time, the history, and the most memory blocks it may use. */
  datatype State = State(srv: Server, disk: map<nat, seq<byte>>, clock: nat, hist: History, blocks: nat)

  // ---------------------------------------------------------------------------
  // The main thread.

  /** The room a file takes, computed in 32 bits as the server does. */
  function Need(data: seq<byte>): nat { (|data| + FILE_META_SIZE) % 0x1_0000_0000 }

  /** The first chunk of the list with more room than `need`; the length of the list if none. */
  function FirstFit(ids: seq<nat>, mem: map<nat, Chunk>, need: nat): (k: nat)
    ensures k <= |ids|
    ensures k < |ids| ==> ids[k] in mem && mem[ids[k]].availSpace > need
    ensures forall i :: 0 <= i < k && ids[i] in mem ==> mem[ids[i]].availSpace <= need
  {
    if ids == [] then 0
    else if ids[0] in mem && mem[ids[0]].availSpace > need then 0
    else 1 + FirstFit(ids[1..], mem, need)
  }

  /** The first parked write that fits into `avail`; the number of them if none. */
  function FirstParked(ps: seq<Parked>, avail: nat): (k: nat)
    ensures k <= |ps|
    ensures k < |ps| ==> avail > Need(ps[k].data)
    ensures forall i :: 0 <= i < k ==> avail <= Need(ps[i].data)
  {
    if ps == [] then 0 else if avail > Need(ps[0].data) then 0 else 1 + FirstParked(ps[1..], avail)
  }

  /** The list without its first occurrence of `x`. */
  function Unlink<T(==)>(s: seq<T>, x: T): seq<T> {
    if s == [] then [] else if s[0] == x then s[1..] else [s[0]] + Unlink(s[1..], x)
  }

  datatype Error =
    | Success | ChunkUnavailable | FileNotFound | FileExists | WriteError | InternalError | IoJobUnavailable
    | MemoryLimit

  /** Queues a write on a chunk that the list of free chunks does not hold any more. */
  function Dispatch(s: Server, fid: nat, data: seq<byte>, c: nat): Server
    requires c in s.mem
  {
    s.(jobs := s.jobs[s.nextJob := Job(fid, data, c, s.mem[c].currentOffset, Queued)], nextJob := s.nextJob + 1)
  }

  function TakeChunk(s: Server, k: nat): Server
    requires k < |s.chunks|
  {
    s.(chunks := Without(s.chunks, k), writing := [s.chunks[k]] + s.writing)
  }

  /** A write request that has arrived in full: the new state, and the reply if there is one
      already. A chunk found for it leaves the free list even when no job is left for it. */
  function Admit(s: Server, fid: nat, data: seq<byte>, now: nat): (r: (Server, Option<Error>)) {
    if fid in s.index then (s, Some(FileExists))
    else
      var k := FirstFit(s.chunks, s.mem, Need(data));
      if k == |s.chunks| then
        if |s.pending| >= MAX_PENDING_WRITES then (s, Some(ChunkUnavailable))
        else if s.freeJobs == 0 then (s, Some(IoJobUnavailable))
        else (s.(pending := s.pending + [Parked(fid, data, now)], freeJobs := s.freeJobs - 1), None)
      else
        var t := TakeChunk(s, k);
        if s.freeJobs == 0 then (t, Some(IoJobUnavailable))
        else (Dispatch(t, fid, data, s.chunks[k]).(freeJobs := s.freeJobs - 1), None)
  }

  /** A chunk whose writer is done goes to a parked write that fits, or back to the free list. */
  function HandOn(s: Server, c: nat): Server
    requires c in s.mem
  {
    var k := FirstParked(s.pending, s.mem[c].availSpace);
    if k < |s.pending| then
      Dispatch(s.(pending := Without(s.pending, k)), s.pending[k].fid, s.pending[k].data, c)
    else s.(writing := Unlink(s.writing, c), chunks := s.chunks + [c])
  }

  /** The completion of a write: the new state and the reply. On a fid that has appeared in the
      index meanwhile the chunk is left where it is. */
  function Complete(s: Server, j: nat): (r: (Server, Error))
    requires j in s.jobs && s.jobs[j].phase.Returned? && s.jobs[j].chunk in s.mem
  {
    var job := s.jobs[j];
    var freed := s.(jobs := s.jobs - {j}, freeJobs := s.freeJobs + 1);
    if job.fid in s.index then (freed, InternalError)
    else
      var t := HandOn(freed, job.chunk);
      if !job.phase.ok then (t, WriteError)
      else
        var e := Entry(job.chunk, job.offset, |job.data| + FILE_META_SIZE);
        (t.(index := t.index[job.fid := e]), Success)
  }

  /** Every parked write is answered and its job freed. */
  function KillParked(s: Server): Server {
    s.(pending := [], freeJobs := s.freeJobs + |s.pending|)
  }

  /** How many parked writes the sweep removes: it stops at the first that has not timed out. */
  function Expired(ps: seq<Parked>, now: nat): (k: nat)
    ensures k <= |ps|
  {
    if ps == [] || ps[0].reqTime + PENDING_WRITE_TIMEOUT > now then 0 else 1 + Expired(ps[1..], now)
  }

  function Sweep(s: Server, now: nat): Server {
    var k := Expired(s.pending, now);
    s.(pending := s.pending[k..], freeJobs := s.freeJobs + k)
  }

  /** A read request, with or without room in memory for the file. */
  function AdmitRead(s: Server, fid: nat, room: bool): (r: (Server, Option<Error>)) {
    if fid !in s.index || s.index[fid].chunk !in s.mem then (s, Some(FileNotFound))
    else if !room then (s, Some(MemoryLimit))
    else if s.freeJobs == 0 then (s, Some(IoJobUnavailable))
    else (s.(readers := s.readers[s.nextJob := Read(fid, s.index[fid], [])], nextJob := s.nextJob + 1,
             freeJobs := s.freeJobs - 1), None)
  }

  // ---------------------------------------------------------------------------
  // Steps.

  datatype Action =
    | Arrive(fid: nat, data: seq<byte>, now: nat)
    | Begin(j: nat, rec: Record)       // the worker fills the meta block
    | Write(j: nat, n: nat)            // the next `n` bytes of the record reach the disk
    | Fail(j: nat)                     // a data write fails
    | Count(j: nat)                    // the chunk's counters advance
    | Seal(j: nat, ok: bool)           // the superblock write, and the worker's return
    | Done(j: nat)
    | Kill
    | Timeout(now: nat)
    | StartRead(fid: nat, room: bool)
    | Fetch(j: nat, n: nat)            // the next `n` bytes of the extent are read
    | EndRead(j: nat)
    | FailRead(j: nat)                 // a read fails, and the worker returns
    | Restart(order: seq<nat>)         // a crash, and recovery in some directory order

  /** The files of a directory, in a given order. */
  function FilesIn(disk: map<nat, seq<byte>>, order: seq<nat>): (r: seq<seq<byte>>)
    requires forall i :: 0 <= i < |order| ==> order[i] in disk
    ensures |r| == |order| && forall i :: 0 <= i < |order| ==> r[i] == disk[order[i]]
  {
    seq(|order|, i requires 0 <= i < |order| => disk[order[i]])
  }

  /** The order lists each chunk file once. */
  ghost predicate Lists(order: seq<nat>, disk: map<nat, seq<byte>>) {
    && (forall i, j :: 0 <= i < j < |order| ==> order[i] != order[j])
    && (forall i :: 0 <= i < |order| ==> order[i] in disk)
    && (forall id :: id in disk ==> id in order)
  }

  ghost predicate CanRestart(disk: map<nat, seq<byte>>, order: seq<nat>) {
    && Lists(order, disk) && Sized(FilesIn(disk, order))
    && InstallAll(FilesIn(disk, order)).Some?
  }

  ghost predicate Enabled(s: State, a: Action) {
    var srv := s.srv;
    match a
    case Arrive(fid, data, now) =>
      fid < 0x1_0000_0000_0000_0000 && RwBuffers.Receivable(|data|, s.blocks) && now >= s.clock
    case Begin(j, rec) =>
      && j in srv.jobs && srv.jobs[j].phase.Queued?
      && rec.fid == srv.jobs[j].fid && rec.data == srv.jobs[j].data
      && RecordFits(rec) && Checked(rec)
    case Write(j, n) =>
      && j in srv.jobs && srv.jobs[j].phase.Writing? && srv.jobs[j].chunk in s.disk
      && srv.jobs[j].phase.done + n <= |Encode(srv.jobs[j].phase.rec)|
      && srv.jobs[j].offset + srv.jobs[j].phase.done <= |s.disk[srv.jobs[j].chunk]|
    case Fail(j) => j in srv.jobs && srv.jobs[j].phase.Writing?
    case Count(j) =>
      && j in srv.jobs && srv.jobs[j].phase.Writing? && srv.jobs[j].chunk in srv.mem
      && srv.jobs[j].phase.done == |Encode(srv.jobs[j].phase.rec)|
      && srv.mem[srv.jobs[j].chunk].availSpace >= FILE_META_SIZE + |srv.jobs[j].data|
    case Seal(j, ok) =>
      && j in srv.jobs && srv.jobs[j].phase.Counted?
      && srv.jobs[j].chunk in srv.mem && srv.jobs[j].chunk in s.disk
    case Done(j) => j in srv.jobs && srv.jobs[j].phase.Returned? && srv.jobs[j].chunk in srv.mem
    case Kill => true
    case Timeout(now) => now >= s.clock
    case StartRead(fid, room) => true
    case Fetch(j, n) =>
      && j in srv.readers && srv.readers[j].entry.chunk in s.disk
      && |srv.readers[j].got| + n <= srv.readers[j].entry.size
      && srv.readers[j].entry.offset + |srv.readers[j].got| + n <= |s.disk[srv.readers[j].entry.chunk]|
    case EndRead(j) => j in srv.readers && |srv.readers[j].got| == srv.readers[j].entry.size
    case FailRead(j) => j in srv.readers
    case Restart(order) => CanRestart(s.disk, order)
  }

  function SetPhase(srv: Server, j: nat, p: Phase): Server
    requires j in srv.jobs
  {
    srv.(jobs := srv.jobs[j := srv.jobs[j].(phase := p)])
  }

  /** The counters after a file of `n` bytes. */
  function Advanced(c: Chunk, n: nat): Chunk
    requires FILE_META_SIZE + n <= c.availSpace
  {
    Chunk(c.filesAlloc + 1, c.filesCount + 1, c.currentOffset + (n + FILE_META_SIZE), c.availSpace - (n + FILE_META_SIZE))
  }

  function Ids(chunks: seq<Super>): (r: seq<nat>)
    ensures |r| == |chunks| && forall i :: 0 <= i < |chunks| ==> r[i] == chunks[i].chunkId
  {
    seq(|chunks|, i requires 0 <= i < |chunks| => chunks[i].chunkId)
  }

  function Counters(chunks: seq<Super>): (m: map<nat, Chunk>) {
    if chunks == [] then map[]
    else
      var sb := chunks[0];
      Counters(chunks[1..])[sb.chunkId := Chunk(sb.filesAlloc, sb.filesCount, sb.currentOffset, sb.availSpace)]
  }

  /** The process right after recovery. */
  function Booted(r: Recovered): Server {
    Server(Ids(r.chunks), [], Counters(r.chunks), r.index, map[], map[], 0, [], MAX_IO_JOBS)
  }

  /** The records that survive a crash, and the acknowledged files that recovery finds where they
      were. */
  function AfterCrash(h: History, before: Index, after: Index): History {
    History(map id | id in h.logs && id in h.durable ::
              if h.durable[id] <= |h.logs[id]| then h.logs[id][..h.durable[id]] else h.logs[id],
            h.durable,
            map f | f in h.acked && f in before && f in after && before[f] == after[f] :: h.acked[f])
  }

  /** The end of a read, whichever way it ended. */
  function Release(srv: Server, j: nat): Server { srv.(readers := srv.readers - {j}, freeJobs := srv.freeJobs + 1) }

  ghost function Apply(s: State, a: Action): State
    requires Enabled(s, a)
  {
    var srv, h := s.srv, s.hist;
    match a
    case Arrive(fid, data, now) => s.(srv := Admit(srv, fid, data, now).0, clock := now)
    case Begin(j, rec) => s.(srv := SetPhase(srv, j, Writing(rec, 0)))
    case Write(j, n) =>
      var job := srv.jobs[j];
      var (rec, done) := (job.phase.rec, job.phase.done);
      s.(srv := SetPhase(srv, j, Writing(rec, done + n)),
         disk := s.disk[job.chunk := Splice(s.disk[job.chunk], job.offset + done, Encode(rec)[done..done + n])])
    case Fail(j) => s.(srv := SetPhase(srv, j, Returned(false)))
    case Count(j) =>
      var job := srv.jobs[j];
      var c := job.chunk;
      s.(srv := SetPhase(srv, j, Counted(job.phase.rec)).(mem := srv.mem[c := Advanced(srv.mem[c], |job.data|)]),
         hist := if c in h.logs then h.(logs := h.logs[c := h.logs[c] + [job.phase.rec]]) else h)
    case Seal(j, ok) =>
      var c := srv.jobs[j].chunk;
      var t := s.(srv := SetPhase(srv, j, Returned(true)));
      if !ok then t
      else
        t.(disk := s.disk[c := Splice(s.disk[c], 0, EncodeSuper(SuperOf(c, srv.mem[c])))],
           hist := if c in h.logs then h.(durable := h.durable[c := |h.logs[c]|]) else h)
    case Done(j) =>
      var (t, reply) := Complete(srv, j);
      s.(srv := t,
         hist := if reply == Success then h.(acked := h.acked[srv.jobs[j].fid := srv.jobs[j].data]) else h)
    case Kill => s.(srv := KillParked(srv))
    case Timeout(now) => s.(srv := Sweep(srv, now), clock := now)
    case StartRead(fid, room) => s.(srv := AdmitRead(srv, fid, room).0)
    case Fetch(j, n) =>
      var r := srv.readers[j];
      var from := r.entry.offset + |r.got|;
      s.(srv := srv.(readers := srv.readers[j := r.(got := r.got + s.disk[r.entry.chunk][from..from + n])]))
    case EndRead(j) => s.(srv := Release(srv, j))
    case FailRead(j) => s.(srv := Release(srv, j))
    case Restart(order) =>
      var r := InstallAll(FilesIn(s.disk, order)).value;
      s.(srv := Booted(r), hist := AfterCrash(h, srv.index, r.index))
  }
}
