/** What every step of the storage engine keeps. */
module EngineInv {
  import opened Codec
  import opened Format
  import opened Recovery
  import opened Images
  import opened Chunks
  import opened Engine
  import RwBuffers

  // ---------------------------------------------------------------------------
  // The invariant, part by part.

  predicate NoDup(s: seq<nat>) { forall i, j :: 0 <= i < j < |s| ==> s[i] != s[j] }

  /** Every chunk is on exactly one of the two lists. */
  ghost predicate ListsOk(s: Server) {
    && NoDup(s.chunks) && NoDup(s.writing)
    && (forall id :: id in s.chunks ==> id !in s.writing)
    && (forall id :: id in s.mem <==> id in s.chunks || id in s.writing)
  }

  /** A chunk has at most one write in flight, and then it is on the list of taken chunks. */
  ghost predicate JobsOk(s: Server) {
    && (forall j :: j in s.jobs ==> j < s.nextJob && s.jobs[j].chunk in s.writing)
    && (forall j, k :: j in s.jobs && k in s.jobs && j != k ==> s.jobs[j].chunk != s.jobs[k].chunk)
    && (forall j :: j in s.readers ==> j < s.nextJob)
  }

  ghost predicate RequestOk(fid: nat, data: seq<byte>) {
    fid < 0x1_0000_0000_0000_0000 && |data| + FILE_META_SIZE < 0x1_0000_0000
  }

  /** Few enough memory blocks that no size wraps, and parked writes that are well-formed. */
  ghost predicate PendingOk(s: State) {
    && s.blocks <= RwBuffers.SAFE_BLOCKS
    && |s.srv.pending| <= MAX_PENDING_WRITES
    && (forall i :: 0 <= i < |s.srv.pending| ==> RequestOk(s.srv.pending[i].fid, s.srv.pending[i].data))
    && (forall i :: 0 <= i < |s.srv.pending| ==> s.srv.pending[i].reqTime <= s.clock)
    && (forall i, j :: 0 <= i < j < |s.srv.pending| ==> s.srv.pending[i].reqTime <= s.srv.pending[j].reqTime)
  }

  /** Every io job is free, parked, writing or reading. */
  ghost predicate Conserved(s: Server) {
    s.freeJobs + |s.jobs| + |s.readers| + |s.pending| == MAX_IO_JOBS
  }

  predicate AllChecked(rs: seq<Record>) {
    forall i {:trigger Checked(rs[i])} :: 0 <= i < |rs| ==> Checked(rs[i])
  }

  ghost predicate CellsOk(s: State) {
    && s.srv.mem.Keys == s.disk.Keys == s.hist.logs.Keys == s.hist.durable.Keys
    && (forall id :: id in s.srv.mem ==>
          ChunkOk(id, s.srv.mem[id], s.disk[id], s.hist.logs[id], s.hist.durable[id], CHUNK_SIZE))
    && (forall id :: id in s.hist.logs ==> AllChecked(s.hist.logs[id]))
  }

  /** The record of a job is the last of the log. */
  predicate IsLast(rs: seq<Record>, fid: nat, data: seq<byte>, offset: nat) {
    && rs != []
    && rs[|rs| - 1].fid == fid && rs[|rs| - 1].data == data
    && offset == SUPERBLOCK_SIZE + |Log(rs[..|rs| - 1])|
  }

  /** A write in flight starts at the chunk's current offset until its record is counted, and its
      record is the last of the log from then on. */
  predicate Progress(job: Job, c: Chunk, file: seq<byte>, rs: seq<Record>) {
    match job.phase
    case Queued =>
      && job.offset == c.currentOffset && job.fid < 0x1_0000_0000_0000_0000
      && |job.data| + FILE_META_SIZE < 0x1_0000_0000 && |job.data| + FILE_META_SIZE < c.availSpace
    case Writing(rec, done) =>
      && job.offset == c.currentOffset && rec.fid == job.fid && rec.data == job.data
      && Checked(rec) && InProgress(c, file, rec, done)
    case Counted(rec) => IsLast(rs, job.fid, job.data, job.offset)
    case Returned(ok) => ok ==> IsLast(rs, job.fid, job.data, job.offset)
  }

  ghost predicate WritesOk(s: State)
    requires CellsOk(s)
  {
    forall j :: j in s.srv.jobs && s.srv.jobs[j].chunk in s.srv.mem ==>
      var c := s.srv.jobs[j].chunk;
      Progress(s.srv.jobs[j], s.srv.mem[c], s.disk[c], s.hist.logs[c])
  }

  /** The entry `e` is that of the `k`-th record of a chunk's log, which holds the fid `f`. */
  predicate Locates(logs: map<nat, seq<Record>>, f: nat, e: Entry, k: nat) {
    && e.chunk in logs && k < |logs[e.chunk]|
    && logs[e.chunk][k].fid == f && e == EntryAt(e.chunk, logs[e.chunk], k)
  }

  ghost predicate Indexed(logs: map<nat, seq<Record>>, f: nat, e: Entry) {
    exists k: nat :: Locates(logs, f, e, k)
  }

  ghost predicate IndexOk(s: State) {
    forall f :: f in s.srv.index ==> Indexed(s.hist.logs, f, s.srv.index[f])
  }

  ghost predicate HoldsData(logs: map<nat, seq<Record>>, f: nat, e: Entry, data: seq<byte>) {
    exists k: nat :: Locates(logs, f, e, k) && logs[e.chunk][k].data == data
  }

  /** Acknowledged data is in the index and is what the record holds. */
  ghost predicate AckedOk(s: State) {
    forall f :: f in s.hist.acked ==>
      f in s.srv.index && HoldsData(s.hist.logs, f, s.srv.index[f], s.hist.acked[f])
  }

  ghost predicate Fetched(logs: map<nat, seq<Record>>, r: Read) {
    exists k: nat :: Locates(logs, r.fid, r.entry, k)
      && |r.got| <= r.entry.size && r.got == Encode(logs[r.entry.chunk][k])[..|r.got|]
  }

  /** What a read has got so far is the beginning of the record it is after. */
  ghost predicate ReadsOk(s: State) {
    forall j :: j in s.srv.readers ==> Fetched(s.hist.logs, s.srv.readers[j])
  }

  ghost predicate Inv(s: State) {
    && ListsOk(s.srv) && JobsOk(s.srv) && PendingOk(s) && Conserved(s.srv)
    && CellsOk(s) && WritesOk(s) && IndexOk(s) && AckedOk(s) && ReadsOk(s)
  }

  // ---------------------------------------------------------------------------
  // Lists.

  lemma WithoutMember<T>(s: seq<T>, k: nat)
    requires k < |s| && forall i, j :: 0 <= i < j < |s| ==> s[i] != s[j]
    ensures forall i, j :: 0 <= i < j < |s| - 1 ==> Without(s, k)[i] != Without(s, k)[j]
    ensures forall x :: x in Without(s, k) <==> x in s && x != s[k]
  {
    var w := Without(s, k);
    forall x | x in s && x != s[k] ensures x in w {
      var i :| 0 <= i < |s| && s[i] == x;
      assert w[if i < k then i else i - 1] == x;
    }
  }

  lemma {:induction false} UnlinkIsWithout(s: seq<nat>, x: nat, k: nat)
    requires k < |s| && s[k] == x && forall i :: 0 <= i < k ==> s[i] != x
    ensures Unlink(s, x) == Without(s, k)
  {
    if k > 0 {
      UnlinkIsWithout(s[1..], x, k - 1);
      assert [s[0]] + Without(s[1..], k - 1) == Without(s, k);
    }
  }

  lemma UnlinkMember(s: seq<nat>, x: nat)
    requires NoDup(s) && x in s
    ensures NoDup(Unlink(s, x))
    ensures forall y :: y in Unlink(s, x) <==> y in s && y != x
  {
    hide Unlink, Without;
    var k :| 0 <= k < |s| && s[k] == x;
    UnlinkIsWithout(s, x, k);
    WithoutMember(s, k);
    assert |Without(s, k)| == |s| - 1 by { WithoutLength(s, k); }
  }

  lemma WithoutLength(s: seq<nat>, k: nat)
    requires k < |s|
    ensures |Without(s, k)| == |s| - 1
  {
  }

  // ---------------------------------------------------------------------------
  // The main thread.

  lemma TakeChunkLists(s: Server, k: nat)
    requires ListsOk(s) && k < |s.chunks|
    ensures ListsOk(TakeChunk(s, k))
  {
    hide Without;
    WithoutMember(s.chunks, k);
    WithoutLength(s.chunks, k);
    var w := [s.chunks[k]] + s.writing;
    assert s.chunks[k] in s.chunks;
    assert forall id :: id in w <==> id == s.chunks[k] || id in s.writing;
    forall i, j | 0 <= i < j < |w| ensures w[i] != w[j] {
      if i == 0 { assert w[j] in s.writing; } else { assert w[i] == s.writing[i - 1] && w[j] == s.writing[j - 1]; }
    }
  }

  /** No write in flight is on chunk `c`. */
  ghost predicate Idle(s: Server, c: nat) {
    forall j :: j in s.jobs ==> s.jobs[j].chunk != c
  }

  /** The part of the invariant that is about the lists and jobs alone. */
  ghost predicate Books(s: Server) { ListsOk(s) && JobsOk(s) && Conserved(s) }

  lemma TakeChunkBooks(s: Server, k: nat)
    requires Books(s) && k < |s.chunks|
    ensures Books(TakeChunk(s, k)) && s.chunks[k] in TakeChunk(s, k).writing && Idle(s, s.chunks[k])
    ensures s.chunks[k] in s.mem
  {
    TakeChunkLists(s, k);
    var w := [s.chunks[k]] + s.writing;
    assert s.chunks[k] in s.chunks && w[0] == s.chunks[k];
    assert forall id :: id in s.writing ==> id in w;
  }

  /** A job on a chunk that no other job writes keeps the jobs apart. */
  lemma DispatchBooks(s: Server, fid: nat, data: seq<byte>, c: nat)
    requires ListsOk(s) && JobsOk(s) && c in s.mem && c in s.writing && Idle(s, c)
    ensures var t := Dispatch(s, fid, data, c);
            ListsOk(t) && JobsOk(t) && s.nextJob !in s.jobs && |t.jobs| == |s.jobs| + 1
  {
  }

  lemma NeedFits(data: seq<byte>, avail: nat)
    requires |data| + FILE_META_SIZE < 0x1_0000_0000 && avail > Need(data)
    ensures |data| + FILE_META_SIZE < avail
  {
  }

  /** A job that has just been queued on a chunk with room for it. */
  predicate Fresh(job: Job, mem: map<nat, Chunk>) {
    && job.phase.Queued? && job.fid < 0x1_0000_0000_0000_0000 && |job.data| + FILE_META_SIZE < 0x1_0000_0000
    && job.chunk in mem && job.offset == mem[job.chunk].currentOffset
    && |job.data| + FILE_META_SIZE < mem[job.chunk].availSpace
  }

  /** Every job of `t` is a job of `s` or has just been queued; the chunks are untouched. */
  ghost predicate JobsFrom(s: Server, t: Server) {
    && t.mem == s.mem
    && (forall j :: j in t.jobs ==> (j in s.jobs && t.jobs[j] == s.jobs[j]) || Fresh(t.jobs[j], t.mem))
  }

  lemma AdmitTaken(s: Server, k: nat, fid: nat, data: seq<byte>)
    requires Books(s) && RequestOk(fid, data) && k < |s.chunks|
    requires s.chunks[k] in s.mem && s.mem[s.chunks[k]].availSpace > Need(data)
    ensures var t := TakeChunk(s, k); Books(t) && JobsFrom(s, t)
    ensures s.freeJobs > 0 ==>
              var t := Dispatch(TakeChunk(s, k), fid, data, s.chunks[k]).(freeJobs := s.freeJobs - 1);
              Books(t) && JobsFrom(s, t)
  {
    hide Need, Without, ListsOk, JobsOk, Idle;
    var t, c := TakeChunk(s, k), s.chunks[k];
    TakeChunkBooks(s, k);
    IdleSame(s, t, c);
    DispatchBooks(t, fid, data, c);
    NeedFits(data, s.mem[c].availSpace);
    BooksFree(Dispatch(t, fid, data, c), s.freeJobs);
  }

  lemma AdmitBooks(s: Server, fid: nat, data: seq<byte>, now: nat)
    requires Books(s) && RequestOk(fid, data)
    ensures var t := Admit(s, fid, data, now).0;
            Books(t) && JobsFrom(s, t) && t.index == s.index && t.readers == s.readers
  {
    hide FirstFit, Need, Books, JobsFrom, Without;
    var k := FirstFit(s.chunks, s.mem, Need(data));
    if fid !in s.index && k < |s.chunks| {
      AdmitTaken(s, k, fid, data);
    }
    BooksPark(s, fid, data, now);
    JobsFromSelf(s);
  }

  lemma JobsFromSelf(s: Server)
    ensures forall p, n :: JobsFrom(s, s.(pending := p, freeJobs := n))
    ensures JobsFrom(s, s)
  {
  }

  lemma IdleSame(s: Server, t: Server, c: nat)
    requires s.jobs == t.jobs && Idle(s, c)
    ensures Idle(t, c)
  {
  }

  lemma BooksFree(s: Server, n: nat)
    requires ListsOk(s) && JobsOk(s)
    ensures n > 0 ==> ListsOk(s.(freeJobs := n - 1)) && JobsOk(s.(freeJobs := n - 1))
  {
  }

  lemma BooksPark(s: Server, fid: nat, data: seq<byte>, now: nat)
    requires Books(s)
    ensures s.freeJobs > 0 ==> Books(s.(pending := s.pending + [Parked(fid, data, now)], freeJobs := s.freeJobs - 1))
  {
  }

  // Completion.

  ghost predicate Requests(ps: seq<Parked>) {
    forall i :: 0 <= i < |ps| ==> RequestOk(ps[i].fid, ps[i].data)
  }

  lemma FreedBooks(s: Server, j: nat)
    requires Books(s) && j in s.jobs
    ensures var t := s.(jobs := s.jobs - {j}, freeJobs := s.freeJobs + 1);
            Books(t) && JobsFrom(s, t) && Idle(t, s.jobs[j].chunk)
  {
    var t := s.(jobs := s.jobs - {j}, freeJobs := s.freeJobs + 1);
    assert t.jobs.Keys == s.jobs.Keys - {j};
    assert |t.jobs| == |t.jobs.Keys| == |s.jobs.Keys| - 1;
  }

  lemma ReleaseLists(s: Server, c: nat)
    requires ListsOk(s) && c in s.writing
    ensures ListsOk(s.(writing := Unlink(s.writing, c), chunks := s.chunks + [c]))
  {
    hide Unlink;
    UnlinkMember(s.writing, c);
    var w := s.chunks + [c];
    assert forall id :: id in w <==> id in s.chunks || id == c;
    forall i, j | 0 <= i < j < |w| ensures w[i] != w[j] {
      assert w[i] == s.chunks[i] && s.chunks[i] in s.chunks;
    }
  }

  lemma ReleaseJobs(s: Server, c: nat)
    requires JobsOk(s) && ListsOk(s) && c in s.writing && Idle(s, c)
    ensures JobsOk(s.(writing := Unlink(s.writing, c), chunks := s.chunks + [c]))
  {
    hide Unlink;
    UnlinkMember(s.writing, c);
  }

  lemma HandOnBooks(s: Server, c: nat)
    requires Books(s) && c in s.mem && c in s.writing && Idle(s, c) && Requests(s.pending)
    ensures var t := HandOn(s, c); Books(t) && JobsFrom(s, t) && t.index == s.index && t.readers == s.readers
  {
    hide FirstParked, Need, Unlink, ListsOk, JobsOk, Idle;
    var k := FirstParked(s.pending, s.mem[c].availSpace);
    if k < |s.pending| {
      var p, t := s.pending[k], s.(pending := Without(s.pending, k));
      BooksPending(s, Without(s.pending, k));
      IdleSame(s, t, c);
      DispatchBooks(t, p.fid, p.data, c);
      NeedFits(p.data, s.mem[c].availSpace);
    } else {
      ReleaseLists(s, c);
      ReleaseJobs(s, c);
    }
  }

  lemma BooksPending(s: Server, ps: seq<Parked>)
    requires ListsOk(s) && JobsOk(s)
    ensures ListsOk(s.(pending := ps)) && JobsOk(s.(pending := ps))
  {
  }

  // ---------------------------------------------------------------------------
  // Every step of the main thread.

  /** What is on disk and what it stands for is the same. */
  ghost predicate SameStore(s: State, t: State) {
    t.disk == s.disk && t.hist.logs == s.hist.logs && t.hist.durable == s.hist.durable
  }

  lemma FreshProgress(job: Job, mem: map<nat, Chunk>, file: seq<byte>, rs: seq<Record>)
    requires Fresh(job, mem)
    ensures Progress(job, mem[job.chunk], file, rs)
  {
  }

  lemma MainCells(s: State, t: State)
    requires CellsOk(s) && WritesOk(s) && SameStore(s, t) && JobsFrom(s.srv, t.srv)
    ensures CellsOk(t) && WritesOk(t)
  {
    hide ChunkOk, AllChecked, Progress, Fresh;
    forall j | j in t.srv.jobs && t.srv.jobs[j].chunk in t.srv.mem
      ensures var c := t.srv.jobs[j].chunk;
              Progress(t.srv.jobs[j], t.srv.mem[c], t.disk[c], t.hist.logs[c])
    {
      var c := t.srv.jobs[j].chunk;
      if !(j in s.srv.jobs && t.srv.jobs[j] == s.srv.jobs[j]) {
        FreshProgress(t.srv.jobs[j], t.srv.mem, t.disk[c], t.hist.logs[c]);
      }
    }
  }

  lemma MainFiles(s: State, t: State)
    requires IndexOk(s) && AckedOk(s) && ReadsOk(s) && SameStore(s, t)
    requires t.srv.index == s.srv.index && t.srv.readers == s.srv.readers && t.hist.acked == s.hist.acked
    ensures IndexOk(t) && AckedOk(t) && ReadsOk(t)
  {
    hide Indexed, HoldsData, Fetched;
  }

  lemma PendingGrows(ps: seq<Parked>, p: Parked, clock: nat)
    requires forall i :: 0 <= i < |ps| ==> ps[i].reqTime <= clock
    requires forall i, j :: 0 <= i < j < |ps| ==> ps[i].reqTime <= ps[j].reqTime
    requires p.reqTime >= clock
    ensures var qs := ps + [p];
            forall i, j :: 0 <= i < j < |qs| ==> qs[i].reqTime <= qs[j].reqTime
  {
  }

  lemma SizeFits(n: nat, blocks: nat)
    requires RwBuffers.Receivable(n, blocks) && blocks <= RwBuffers.SAFE_BLOCKS
    ensures n + FILE_META_SIZE < 0x1_0000_0000
  {
    RwBuffers.WrapsExactly(blocks);
  }

  lemma ArriveInv(s: State, fid: nat, data: seq<byte>, now: nat)
    requires Inv(s) && Enabled(s, Arrive(fid, data, now))
    ensures Inv(Apply(s, Arrive(fid, data, now)))
  {
    hide Books, CellsOk, WritesOk, IndexOk, AckedOk, ReadsOk, JobsFrom, FirstFit, Need, Without;
    var t := Apply(s, Arrive(fid, data, now));
    assert Books(s.srv) by { InvBooks(s); }
    AdmitBooks(s.srv, fid, data, now);
    MainCells(s, t);
    MainFiles(s, t);
    assert RequestOk(fid, data) by { SizeFits(|data|, s.blocks); }
    AdmitPending(s, fid, data, now);
    BooksInv(t);
  }

  lemma InvBooks(s: State)
    requires Inv(s)
    ensures Books(s.srv)
  {
  }

  lemma BooksInv(t: State)
    requires Books(t.srv) && PendingOk(t) && CellsOk(t) && WritesOk(t) && IndexOk(t) && AckedOk(t) && ReadsOk(t)
    ensures Inv(t)
  {
  }

  lemma AdmitPending(s: State, fid: nat, data: seq<byte>, now: nat)
    requires PendingOk(s) && RequestOk(fid, data) && now >= s.clock
    ensures PendingOk(s.(srv := Admit(s.srv, fid, data, now).0, clock := now))
  {
    hide FirstFit, Need, Without;
    PendingGrows(s.srv.pending, Parked(fid, data, now), s.clock);
  }

  lemma PendingShrinks(s: State, t: State, k: nat)
    requires PendingOk(s) && t.clock >= s.clock && t.blocks == s.blocks && k < |s.srv.pending|
    requires t.srv.pending == Without(s.srv.pending, k)
    ensures PendingOk(t)
  {
    var (ps, qs) := (s.srv.pending, t.srv.pending);
    assert forall i :: 0 <= i < |qs| ==> qs[i] == ps[if i < k then i else i + 1];
  }

  lemma HandOnPending(s: State, srv: Server, c: nat)
    requires PendingOk(s) && srv.pending == s.srv.pending && c in srv.mem
    ensures PendingOk(s.(srv := HandOn(srv, c)))
  {
    hide FirstParked, Need, Unlink, Without;
    var k := FirstParked(srv.pending, srv.mem[c].availSpace);
    if k < |srv.pending| {
      PendingShrinks(s, s.(srv := HandOn(srv, c)), k);
    }
  }

  /** The last record of a log is located by its entry. */
  lemma LastLocated(logs: map<nat, seq<Record>>, job: Job)
    requires job.chunk in logs && IsLast(logs[job.chunk], job.fid, job.data, job.offset)
    ensures HoldsData(logs, job.fid, Entry(job.chunk, job.offset, |job.data| + FILE_META_SIZE), job.data)
  {
    var e := Entry(job.chunk, job.offset, |job.data| + FILE_META_SIZE);
    assert Locates(logs, job.fid, e, |logs[job.chunk]| - 1);
  }

  lemma HeldIndexed(logs: map<nat, seq<Record>>, f: nat, e: Entry, data: seq<byte>)
    requires HoldsData(logs, f, e, data)
    ensures Indexed(logs, f, e)
  {
    hide Locates;
  }

  lemma CompleteBooks(s: Server, j: nat)
    requires Books(s) && j in s.jobs && s.jobs[j].phase.Returned? && s.jobs[j].chunk in s.mem && Requests(s.pending)
    ensures var t := Complete(s, j).0; Books(t) && JobsFrom(s, t) && t.readers == s.readers
    ensures Complete(s, j).1 == Success <==> s.jobs[j].fid !in s.index && s.jobs[j].phase.ok
    ensures Complete(s, j).0.index ==
            if Complete(s, j).1 == Success
            then s.index[s.jobs[j].fid := Entry(s.jobs[j].chunk, s.jobs[j].offset, |s.jobs[j].data| + FILE_META_SIZE)]
            else s.index
  {
    hide Books, HandOn, Idle;
    var c := s.jobs[j].chunk;
    var freed := s.(jobs := s.jobs - {j}, freeJobs := s.freeJobs + 1);
    FreedBooks(s, j);
    assert c in s.writing by { WriterTaken(s, j); }
    HandOnBooks(freed, c);
    BooksIndex(HandOn(freed, c));
  }

  lemma WriterTaken(s: Server, j: nat)
    requires Books(s) && j in s.jobs
    ensures s.jobs[j].chunk in s.writing
  {
  }

  lemma BooksIndex(s: Server)
    requires Books(s)
    ensures forall m :: Books(s.(index := m))
  {
  }

  lemma DoneInv(s: State, j: nat)
    requires Inv(s) && Enabled(s, Done(j))
    ensures Inv(Apply(s, Done(j)))
  {
    hide Books, CellsOk, JobsFrom, Complete, Indexed, HoldsData, Fetched, Progress;
    var t := Apply(s, Done(j));
    var job := s.srv.jobs[j];
    InvBooks(s);
    CompleteBooks(s.srv, j);
    MainCells(s, t);
    CompletePending(s, j);
    BooksInv(t) by {
      DoneFiles(s, j);
    }
  }

  lemma CompletePending(s: State, j: nat)
    requires PendingOk(s) && Enabled(s, Done(j))
    ensures PendingOk(Apply(s, Done(j)))
  {
    hide HandOn;
    var srv, job := s.srv, s.srv.jobs[j];
    HandOnPending(s, srv.(jobs := srv.jobs - {j}, freeJobs := srv.freeJobs + 1), job.chunk);
  }

  lemma DoneFiles(s: State, j: nat)
    requires Inv(s) && Enabled(s, Done(j))
    ensures var t := Apply(s, Done(j)); IndexOk(t) && AckedOk(t) && ReadsOk(t)
  {
    hide Books, Complete, Indexed, HoldsData, Fetched, IsLast, ChunkOk, AllChecked;
    var t := Apply(s, Done(j));
    var job := s.srv.jobs[j];
    InvBooks(s);
    CompleteBooks(s.srv, j);
    if Complete(s.srv, j).1 == Success {
      LastLocated(s.hist.logs, job);
      HeldIndexed(s.hist.logs, job.fid, t.srv.index[job.fid], job.data);
    }
  }

  lemma KillInv(s: State)
    requires Enabled(s, Kill) && Inv(s)
    ensures Inv(Apply(s, Kill))
  {
    hide CellsOk, WritesOk, IndexOk, AckedOk, ReadsOk, JobsFrom, NoDup;
    hide Admit, Complete, AdmitRead, Encode, EncodeSuper, Splice, CanRestart, InstallAll;
    var t := Apply(s, Kill);
    JobsFromSelf(s.srv);
    MainCells(s, t);
    MainFiles(s, t);
  }

  lemma TimeoutInv(s: State, now: nat)
    requires Enabled(s, Timeout(now)) && Inv(s)
    ensures Inv(Apply(s, Timeout(now)))
  {
    hide CellsOk, WritesOk, IndexOk, AckedOk, ReadsOk, JobsFrom, Expired, NoDup;
    hide Admit, Complete, AdmitRead, Encode, EncodeSuper, Splice, CanRestart, InstallAll;
    var t := Apply(s, Timeout(now));
    JobsFromSelf(s.srv);
    MainCells(s, t);
    MainFiles(s, t);
  }

  /** With a clock that does not run backwards, the sweep removes exactly the parked writes that
      have timed out, although it stops at the first that has not. */
  lemma {:induction false} SweepExact(ps: seq<Parked>, now: nat)
    requires forall i, j :: 0 <= i < j < |ps| ==> ps[i].reqTime <= ps[j].reqTime
    ensures forall i :: 0 <= i < |ps| ==> (i < Expired(ps, now) <==> ps[i].reqTime + PENDING_WRITE_TIMEOUT <= now)
  {
    if ps != [] && ps[0].reqTime + PENDING_WRITE_TIMEOUT <= now {
      SweepExact(ps[1..], now);
      assert forall i :: 0 < i < |ps| ==> ps[i] == ps[1..][i - 1];
    }
  }

  // ---------------------------------------------------------------------------
  // Reads.

  lemma RecordInLog(rs: seq<Record>, k: nat)
    requires k < |rs|
    ensures Log(rs) == Log(rs[..k]) + Encode(rs[k]) + Log(rs[k + 1..])
  {
    hide Encode, Log;
    assert rs == rs[..k + 1] + rs[k + 1..];
    LogConcat(rs[..k + 1], rs[k + 1..]);
    LogUpTo(rs, k);
  }

  lemma LogUpTo(rs: seq<Record>, k: nat)
    requires k < |rs|
    ensures Log(rs[..k + 1]) == Log(rs[..k]) + Encode(rs[k])
  {
    hide Encode;
    assert rs[..k + 1][..k] == rs[..k];
  }

  /** The extent of an entry holds exactly the record. */
  lemma Extent(id: nat, c: Chunk, file: seq<byte>, rs: seq<Record>, d: nat, k: nat)
    requires ChunkOk(id, c, file, rs, d, CHUNK_SIZE) && k < |rs|
    ensures var e := EntryAt(id, rs, k);
            e.offset + e.size <= c.currentOffset <= |file| && file[e.offset..e.offset + e.size] == Encode(rs[k])
  {
    hide Encode, Log, EncodeSuper, AllFit;
    RecordInLog(rs, k);
    var (x, y, z) := (Log(rs[..k]), Encode(rs[k]), Log(rs[k + 1..]));
    assert x + y + z == x + (y + z);
    DropHead(file, SUPERBLOCK_SIZE, c.currentOffset, x, y + z);
    DropHead(file, SUPERBLOCK_SIZE + |x|, c.currentOffset, y, z);
  }

  lemma LocatedExtent(s: State, f: nat, e: Entry, k: nat)
    requires CellsOk(s) && Locates(s.hist.logs, f, e, k)
    ensures e.chunk in s.disk && e.offset + e.size <= |s.disk[e.chunk]|
    ensures s.disk[e.chunk][e.offset..e.offset + e.size] == Encode(s.hist.logs[e.chunk][k])
  {
    hide Encode, ChunkOk, AllChecked, EntryAt;
    var id := e.chunk;
    assert id in s.srv.mem;
    Extent(id, s.srv.mem[id], s.disk[id], s.hist.logs[id], s.hist.durable[id], k);
  }

  lemma StartReadInv(s: State, fid: nat, room: bool)
    requires Enabled(s, StartRead(fid, room)) && Inv(s)
    ensures Inv(Apply(s, StartRead(fid, room)))
  {
    hide CellsOk, WritesOk, Indexed, HoldsData, Fetched, NoDup;
    hide Admit, Complete, Encode, EncodeSuper, Splice, CanRestart, InstallAll, Expired;
    var t := Apply(s, StartRead(fid, room));
    var srv := s.srv;
    assert JobsFrom(s.srv, t.srv);
    MainCells(s, t);
    if fid in srv.index && srv.index[fid].chunk in srv.mem && room && srv.freeJobs > 0 {
      FetchedNothing(s.hist.logs, fid, srv.index[fid]);
      assert srv.nextJob !in srv.readers;
    }
  }

  lemma FetchedNothing(logs: map<nat, seq<Record>>, fid: nat, e: Entry)
    requires Indexed(logs, fid, e)
    ensures Fetched(logs, Read(fid, e, []))
  {
    hide Encode;
    var k: nat :| Locates(logs, fid, e, k);
  }

  lemma FetchMore(s: State, r: Read, n: nat)
    requires CellsOk(s) && Fetched(s.hist.logs, r)
    requires |r.got| + n <= r.entry.size
    ensures r.entry.chunk in s.disk && r.entry.offset + |r.got| + n <= |s.disk[r.entry.chunk]|
    ensures var from := r.entry.offset + |r.got|;
            Fetched(s.hist.logs, r.(got := r.got + s.disk[r.entry.chunk][from..from + n]))
  {
    hide Encode, CellsOk, Log;
    var k: nat :| Locates(s.hist.logs, r.fid, r.entry, k)
                  && |r.got| <= r.entry.size && r.got == Encode(s.hist.logs[r.entry.chunk][k])[..|r.got|];
    LocatedExtent(s, r.fid, r.entry, k);
    var file, e, off := s.disk[r.entry.chunk], Encode(s.hist.logs[r.entry.chunk][k]), r.entry.offset;
    SliceSlice(file, off, off + r.entry.size, |r.got|, |r.got| + n);
    SliceJoin(e, 0, |r.got|, |r.got| + n);
  }

  lemma FetchInv(s: State, j: nat, n: nat)
    requires Inv(s) && Enabled(s, Fetch(j, n))
    ensures Inv(Apply(s, Fetch(j, n)))
  {
    hide CellsOk, WritesOk, IndexOk, AckedOk, Fetched;
    var t := Apply(s, Fetch(j, n));
    assert JobsFrom(s.srv, t.srv);
    MainCells(s, t);
    FetchMore(s, s.srv.readers[j], n);
    assert IndexOk(t) && AckedOk(t) by { FilesSame(s, t); }
    assert t.srv.readers.Keys == s.srv.readers.Keys;
  }

  lemma FilesSame(s: State, t: State)
    requires IndexOk(s) && AckedOk(s) && SameStore(s, t)
    requires t.srv.index == s.srv.index && t.hist.acked == s.hist.acked
    ensures IndexOk(t) && AckedOk(t)
  {
    hide Indexed, HoldsData;
  }

  /** The end of a read, successful or not. */
  lemma EndReadInv(s: State, j: nat)
    requires Inv(s) && j in s.srv.readers
    ensures Inv(s.(srv := Release(s.srv, j)))
  {
    hide CellsOk, WritesOk, IndexOk, AckedOk, Fetched;
    var t := s.(srv := Release(s.srv, j));
    assert JobsFrom(s.srv, t.srv);
    MainCells(s, t);
    FilesSame(s, t);
    assert t.srv.readers.Keys == s.srv.readers.Keys - {j};
    assert |t.srv.readers| == |t.srv.readers.Keys| == |s.srv.readers.Keys| - 1;
  }

  // ---------------------------------------------------------------------------
  // Every step of a worker that writes.

  lemma SameSize(jobs: map<nat, Job>, j: nat, job: Job)
    requires j in jobs
    ensures |jobs[j := job]| == |jobs|
  {
    assert jobs[j := job].Keys == jobs.Keys;
  }

  lemma WorkerBooks(s: Server, j: nat, p: Phase, m: map<nat, Chunk>)
    requires Books(s) && j in s.jobs && m.Keys == s.mem.Keys
    ensures Books(SetPhase(s, j, p).(mem := m))
  {
    hide NoDup;
    var t := SetPhase(s, j, p).(mem := m);
    SameSize(s.jobs, j, t.jobs[j]);
    assert forall id :: id in m <==> id in s.mem;
  }

  /** The step of job `j` leaves its chunk `c` with these counters, bytes, log and commitment, the
      job as `job`, and everything else alone. */
  ghost predicate Worked(s: State, t: State, j: nat, job: Job, mc: Chunk, fc: seq<byte>, lc: seq<Record>, dc: nat) {
    && j in s.srv.jobs && job.chunk == s.srv.jobs[j].chunk && job.chunk in s.srv.mem
    && t.srv == s.srv.(jobs := s.srv.jobs[j := job], mem := s.srv.mem[job.chunk := mc])
    && t.disk == s.disk[job.chunk := fc] && t.clock == s.clock && t.blocks == s.blocks
    && t.hist == s.hist.(logs := s.hist.logs[job.chunk := lc], durable := s.hist.durable[job.chunk := dc])
  }

  lemma WorkerCells(s: State, t: State, j: nat, job: Job, mc: Chunk, fc: seq<byte>, lc: seq<Record>, dc: nat)
    requires CellsOk(s) && WritesOk(s) && JobsOk(s.srv) && Worked(s, t, j, job, mc, fc, lc, dc)
    requires ChunkOk(job.chunk, mc, fc, lc, dc, CHUNK_SIZE) && AllChecked(lc) && Progress(job, mc, fc, lc)
    ensures CellsOk(t) && WritesOk(t)
  {
    hide ChunkOk, AllChecked, Progress;
  }

  lemma LocatesGrow(logs: map<nat, seq<Record>>, logs': map<nat, seq<Record>>, f: nat, e: Entry, k: nat)
    requires Locates(logs, f, e, k) && e.chunk in logs' && logs[e.chunk] <= logs'[e.chunk]
    ensures Locates(logs', f, e, k) && logs'[e.chunk][k] == logs[e.chunk][k]
  {
    hide Log;
    assert logs'[e.chunk][..k] == logs[e.chunk][..k];
  }

  /** Records are only ever added behind the others. */
  ghost predicate LogsGrow(logs: map<nat, seq<Record>>, logs': map<nat, seq<Record>>) {
    forall id :: id in logs ==> id in logs' && logs[id] <= logs'[id]
  }

  lemma FilesGrow(s: State, t: State)
    requires IndexOk(s) && AckedOk(s) && ReadsOk(s) && LogsGrow(s.hist.logs, t.hist.logs)
    requires t.srv.index == s.srv.index && t.srv.readers == s.srv.readers && t.hist.acked == s.hist.acked
    ensures IndexOk(t) && AckedOk(t) && ReadsOk(t)
  {
    hide Encode, Log;
    var logs := s.hist.logs;
    var logs' := t.hist.logs;
    forall f | f in t.srv.index ensures Indexed(logs', f, t.srv.index[f]) {
      var k: nat :| Locates(logs, f, s.srv.index[f], k);
      LocatesGrow(logs, logs', f, s.srv.index[f], k);
    }
    forall f | f in t.hist.acked ensures HoldsData(logs', f, t.srv.index[f], t.hist.acked[f]) {
      var e := s.srv.index[f];
      var k: nat :| Locates(logs, f, e, k) && logs[e.chunk][k].data == s.hist.acked[f];
      LocatesGrow(logs, logs', f, e, k);
    }
    forall j | j in t.srv.readers ensures Fetched(logs', t.srv.readers[j]) {
      var r := s.srv.readers[j];
      var k: nat :| Locates(logs, r.fid, r.entry, k)
                    && |r.got| <= r.entry.size && r.got == Encode(logs[r.entry.chunk][k])[..|r.got|];
      LocatesGrow(logs, logs', r.fid, r.entry, k);
    }
  }

  lemma WorkerInv(s: State, t: State, j: nat, job: Job, mc: Chunk, fc: seq<byte>, lc: seq<Record>, dc: nat)
    requires Inv(s) && Worked(s, t, j, job, mc, fc, lc, dc)
    requires job == s.srv.jobs[j].(phase := job.phase)
    requires ChunkOk(job.chunk, mc, fc, lc, dc, CHUNK_SIZE) && AllChecked(lc) && Progress(job, mc, fc, lc)
    requires s.hist.logs[job.chunk] <= lc
    ensures Inv(t)
  {
    hide Books, CellsOk, WritesOk, IndexOk, AckedOk, ReadsOk, ChunkOk, AllChecked, Progress;
    InvBooks(s);
    assert t.srv.mem.Keys == s.srv.mem.Keys;
    WorkerBooks(s.srv, j, job.phase, t.srv.mem);
    assert t.srv == SetPhase(s.srv, j, job.phase).(mem := t.srv.mem);
    WorkerCells(s, t, j, job, mc, fc, lc, dc);
    assert LogsGrow(s.hist.logs, t.hist.logs);
    FilesGrow(s, t);
    BooksInv(t);
  }

  /** The chunk of a job, with what the invariant says about the two. */
  lemma JobCell(s: State, j: nat)
    requires Inv(s) && j in s.srv.jobs
    ensures var c := s.srv.jobs[j].chunk;
            && c in s.srv.mem && c in s.disk && c in s.hist.logs && c in s.hist.durable
            && ChunkOk(c, s.srv.mem[c], s.disk[c], s.hist.logs[c], s.hist.durable[c], CHUNK_SIZE)
            && AllChecked(s.hist.logs[c])
            && Progress(s.srv.jobs[j], s.srv.mem[c], s.disk[c], s.hist.logs[c])
  {
    hide ChunkOk, AllChecked, Progress, Books;
    InvBooks(s);
    WriterTaken(s.srv, j);
    assert s.srv.jobs[j].chunk in s.srv.mem;
  }

  lemma BeginInv(s: State, j: nat, rec: Record)
    requires Inv(s) && Enabled(s, Begin(j, rec))
    ensures Inv(Apply(s, Begin(j, rec)))
  {
    hide Inv, ChunkOk, AllChecked, Checked, Encode;
    var t, job := Apply(s, Begin(j, rec)), s.srv.jobs[j].(phase := Writing(rec, 0));
    var c := job.chunk;
    JobCell(s, j);
    BeginProgress(s.srv.jobs[j], rec, c, s.srv.mem[c], s.disk[c], s.hist.logs[c], s.hist.durable[c]);
    WorkerInv(s, t, j, job, s.srv.mem[c], s.disk[c], s.hist.logs[c], s.hist.durable[c]) by {
      assert s.srv.mem == s.srv.mem[c := s.srv.mem[c]] && s.disk == s.disk[c := s.disk[c]];
      assert s.hist.logs == s.hist.logs[c := s.hist.logs[c]];
      assert s.hist.durable == s.hist.durable[c := s.hist.durable[c]];
    }
  }

  lemma BeginProgress(job: Job, rec: Record, id: nat, c: Chunk, file: seq<byte>, rs: seq<Record>, d: nat)
    requires job.phase.Queued? && Progress(job, c, file, rs) && ChunkOk(id, c, file, rs, d, CHUNK_SIZE)
    requires rec.fid == job.fid && rec.data == job.data && RecordFits(rec) && Checked(rec)
    ensures Progress(job.(phase := Writing(rec, 0)), c, file, rs)
  {
    hide Checked, Encode, EncodeSuper;
  }

  lemma SameMaps(s: State, c: nat)
    requires c in s.srv.mem && c in s.disk && c in s.hist.logs && c in s.hist.durable
    ensures s.srv.mem == s.srv.mem[c := s.srv.mem[c]] && s.disk == s.disk[c := s.disk[c]]
    ensures s.hist.logs == s.hist.logs[c := s.hist.logs[c]]
    ensures s.hist.durable == s.hist.durable[c := s.hist.durable[c]]
  {
  }

  lemma WriteInv(s: State, j: nat, n: nat)
    requires Inv(s) && Enabled(s, Write(j, n))
    ensures Inv(Apply(s, Write(j, n)))
  {
    hide Inv, ChunkOk, AllChecked, Checked, Encode, InProgress;
    var t, job := Apply(s, Write(j, n)), s.srv.jobs[j];
    var c, rec, done := job.chunk, job.phase.rec, job.phase.done;
    JobCell(s, j);
    WriteMore(c, s.srv.mem[c], s.disk[c], s.hist.logs[c], s.hist.durable[c], CHUNK_SIZE, rec, done, n);
    SameMaps(s, c);
    WorkerInv(s, t, j, job.(phase := Writing(rec, done + n)), s.srv.mem[c], t.disk[c], s.hist.logs[c], s.hist.durable[c]);
  }

  lemma FailInv(s: State, j: nat)
    requires Inv(s) && Enabled(s, Fail(j))
    ensures Inv(Apply(s, Fail(j)))
  {
    hide Inv, ChunkOk, AllChecked, Checked, InProgress;
    var t, job := Apply(s, Fail(j)), s.srv.jobs[j];
    var c := job.chunk;
    JobCell(s, j);
    SameMaps(s, c);
    WorkerInv(s, t, j, job.(phase := Returned(false)), s.srv.mem[c], s.disk[c], s.hist.logs[c], s.hist.durable[c]);
  }

  lemma CountInv(s: State, j: nat)
    requires Inv(s) && Enabled(s, Count(j))
    ensures Inv(Apply(s, Count(j)))
  {
    hide Inv, ChunkOk, AllChecked, Checked, InProgress, Encode, IsLast;
    var t, job := Apply(s, Count(j)), s.srv.jobs[j];
    var c, rec := job.chunk, job.phase.rec;
    JobCell(s, j);
    CountRecord(c, s.srv.mem[c], s.disk[c], s.hist.logs[c], s.hist.durable[c], CHUNK_SIZE, rec);
    SameMaps(s, c);
    CheckedSnoc(s.hist.logs[c], rec);
    NowLast(c, s.srv.mem[c], s.disk[c], s.hist.logs[c], s.hist.durable[c], rec);
    WorkerInv(s, t, j, job.(phase := Counted(rec)), t.srv.mem[c], s.disk[c], t.hist.logs[c], s.hist.durable[c]);
  }

  lemma CheckedSnoc(rs: seq<Record>, r: Record)
    requires AllChecked(rs) && Checked(r)
    ensures AllChecked(rs + [r])
  {
    hide Checked;
    forall i | 0 <= i < |rs + [r]| ensures Checked((rs + [r])[i]) {
      if i < |rs| { assert Checked(rs[i]); }
    }
  }

  lemma NowLast(id: nat, c: Chunk, file: seq<byte>, rs: seq<Record>, d: nat, r: Record)
    requires ChunkOk(id, c, file, rs, d, CHUNK_SIZE)
    ensures IsLast(rs + [r], r.fid, r.data, c.currentOffset)
  {
    hide Log, EncodeSuper;
    assert (rs + [r])[..|rs|] == rs;
  }

  lemma SealInv(s: State, j: nat, ok: bool)
    requires Inv(s) && Enabled(s, Seal(j, ok))
    ensures Inv(Apply(s, Seal(j, ok)))
  {
    hide Inv, ChunkOk, AllChecked, EncodeSuper, IsLast;
    var t, job := Apply(s, Seal(j, ok)), s.srv.jobs[j];
    var c := job.chunk;
    JobCell(s, j);
    SameMaps(s, c);
    CommitLog(c, s.srv.mem[c], s.disk[c], s.hist.logs[c], s.hist.durable[c], CHUNK_SIZE);
    WorkerInv(s, t, j, job.(phase := Returned(true)), s.srv.mem[c], t.disk[c], s.hist.logs[c], t.hist.durable[c]);
  }
}
