/** Chunks that are taken and written by nobody: which steps strand one, and for how long. */
module Stranded {
  import opened Codec
  import opened Format
  import opened Engine
  import opened EngineInv
  import opened Crash
  import opened Runs

  /** The chunk is on the list of taken chunks, and no write in flight is on it. */
  ghost predicate IsStranded(s: Server, c: nat) { c in s.writing && Idle(s, c) }

  /** The two steps that strand chunk `c`: a write finds it when no job is left, and a write on it
      completes whose fid has turned up in the index. */
  ghost predicate Strands(s: Server, a: Action, c: nat) {
    match a
    case Arrive(fid, data, now) =>
      var k := FirstFit(s.chunks, s.mem, Need(data));
      fid !in s.index && s.freeJobs == 0 && k < |s.chunks| && s.chunks[k] == c
    case Done(j) => j in s.jobs && s.jobs[j].chunk == c && s.jobs[j].fid in s.index
    case _ => false
  }

  lemma IdleAlike(s: Server, t: Server, c: nat)
    requires s.jobs == t.jobs
    ensures Idle(s, c) <==> Idle(t, c)
  {
  }

  lemma DispatchIdle(s: Server, fid: nat, data: seq<byte>, d: nat, c: nat)
    requires JobsOk(s) && d in s.mem
    ensures Idle(Dispatch(s, fid, data, d), c) <==> Idle(s, c) && c != d
  {
    var t := Dispatch(s, fid, data, d);
    assert t.jobs[s.nextJob].chunk == d;
    if Idle(t, c) {
      forall j | j in s.jobs ensures s.jobs[j].chunk != c { assert t.jobs[j] == s.jobs[j]; }
    }
  }

  lemma TakeWriting(s: Server, k: nat, c: nat)
    requires k < |s.chunks|
    ensures c in TakeChunk(s, k).writing <==> c in s.writing || c == s.chunks[k]
    ensures TakeChunk(s, k).jobs == s.jobs && TakeChunk(s, k).mem == s.mem && TakeChunk(s, k).nextJob == s.nextJob
  {
    hide Without;
    assert ([s.chunks[k]] + s.writing)[0] == s.chunks[k];
    if c in s.writing {
      var i :| 0 <= i < |s.writing| && s.writing[i] == c;
      assert ([s.chunks[k]] + s.writing)[i + 1] == c;
    }
  }

  /** Taking chunk `k` strands it, and a write queued on it then does not leave it so. */
  lemma TakeStrands(s: Server, k: nat, fid: nat, data: seq<byte>, c: nat)
    requires Books(s) && k < |s.chunks|
    ensures IsStranded(TakeChunk(s, k), c) <==> IsStranded(s, c) || c == s.chunks[k]
    ensures s.chunks[k] in s.mem && TakeChunk(s, k).mem == s.mem
    ensures IsStranded(Dispatch(TakeChunk(s, k), fid, data, s.chunks[k]), c) <==> IsStranded(s, c)
  {
    hide Without, Idle, NoDup;
    var d, t := s.chunks[k], TakeChunk(s, k);
    TakeWriting(s, k, c);
    TakeChunkBooks(s, k);
    IdleAlike(s, t, c);
    DispatchIdle(t, fid, data, d, c);
    assert d !in s.writing by { assert d in s.chunks; }
  }

  lemma ArriveStrands(s: Server, fid: nat, data: seq<byte>, now: nat, c: nat)
    requires Books(s)
    ensures IsStranded(Admit(s, fid, data, now).0, c) <==> IsStranded(s, c) || Strands(s, Arrive(fid, data, now), c)
  {
    hide Need, FirstFit, Without, Idle, Books, TakeChunk;
    var k, t := FirstFit(s.chunks, s.mem, Need(data)), Admit(s, fid, data, now).0;
    if fid !in s.index && k < |s.chunks| {
      TakeStrands(s, k, fid, data, c);
      if s.freeJobs > 0 { IdleAlike(Dispatch(TakeChunk(s, k), fid, data, s.chunks[k]), t, c); }
    } else {
      IdleAlike(s, t, c);
    }
  }

  /** Without job `j`, whose chunk is `d`. */
  lemma FreedIdle(s: Server, j: nat, c: nat)
    requires JobsOk(s) && j in s.jobs
    ensures var t := s.(jobs := s.jobs - {j}, freeJobs := s.freeJobs + 1);
            Idle(t, c) <==> Idle(s, c) || s.jobs[j].chunk == c
  {
    var t := s.(jobs := s.jobs - {j}, freeJobs := s.freeJobs + 1);
    if Idle(t, c) && s.jobs[j].chunk != c {
      forall k | k in s.jobs ensures s.jobs[k].chunk != c { if k != j { assert t.jobs[k] == s.jobs[k]; } }
    }
  }

  /** A chunk that is handed on is stranded neither before nor after; no other is affected. */
  lemma HandOnStrands(s: Server, d: nat, c: nat)
    requires ListsOk(s) && JobsOk(s) && d in s.mem && d in s.writing && Idle(s, d)
    ensures IsStranded(HandOn(s, d), c) <==> IsStranded(s, c) && c != d
  {
    hide FirstParked, Without, Unlink, Idle, NoDup;
    var k := FirstParked(s.pending, s.mem[d].availSpace);
    if k < |s.pending| {
      var t := s.(pending := Without(s.pending, k));
      IdleAlike(s, t, c);
      DispatchIdle(t, s.pending[k].fid, s.pending[k].data, d, c);
    } else {
      UnlinkMember(s.writing, d);
      IdleAlike(s, HandOn(s, d), c);
    }
  }

  lemma DoneStrands(s: Server, j: nat, c: nat)
    requires Books(s) && j in s.jobs && s.jobs[j].phase.Returned? && s.jobs[j].chunk in s.mem
    ensures IsStranded(Complete(s, j).0, c) <==> IsStranded(s, c) || Strands(s, Done(j), c)
  {
    hide HandOn, Idle, ListsOk, JobsOk, Conserved;
    var job := s.jobs[j];
    var freed := s.(jobs := s.jobs - {j}, freeJobs := s.freeJobs + 1);
    FreedIdle(s, j, c);
    FreedIdle(s, j, job.chunk);
    JobTaken(s, j);
    BooksFreed(s, j);
    assert !Idle(s, job.chunk) by { Busy(s, j); }
    if job.fid !in s.index {
      HandOnStrands(freed, job.chunk, c);
      var t := HandOn(freed, job.chunk);
      IdleAlike(t, Complete(s, j).0, c);
    }
  }

  lemma Busy(s: Server, j: nat)
    requires j in s.jobs
    ensures !Idle(s, s.jobs[j].chunk)
  {
  }

  lemma JobTaken(s: Server, j: nat)
    requires JobsOk(s) && j in s.jobs
    ensures s.jobs[j].chunk in s.writing
  {
  }

  lemma BooksFreed(s: Server, j: nat)
    requires ListsOk(s) && JobsOk(s)
    ensures var t := s.(jobs := s.jobs - {j}, freeJobs := s.freeJobs + 1); ListsOk(t) && JobsOk(t)
  {
    hide NoDup;
  }

  /** Every other step leaves the jobs on their chunks and the chunks on their lists. */
  lemma PhaseStrands(s: Server, t: Server, c: nat)
    requires t.writing == s.writing && t.jobs.Keys == s.jobs.Keys
    requires forall j :: j in s.jobs ==> t.jobs[j].chunk == s.jobs[j].chunk
    ensures IsStranded(t, c) <==> IsStranded(s, c)
  {
    if Idle(t, c) {
      forall j | j in s.jobs ensures s.jobs[j].chunk != c { assert t.jobs[j].chunk != c; }
    }
  }

  /** Outside a restart exactly those two steps strand a chunk, and none frees one. */
  lemma StrandsExactly(s: State, a: Action, c: nat)
    requires Inv(s) && Enabled(s, a) && !a.Restart?
    ensures IsStranded(Apply(s, a).srv, c) <==> IsStranded(s.srv, c) || Strands(s.srv, a, c)
  {
    hide Inv, IsStranded, Admit, Complete, Encode, EncodeSuper, Checked, FirstFit, Expired, AdmitRead, CellsOk, Books;
    match a
    case Arrive(fid, data, now) => InvBooks(s); ArriveStrands(s.srv, fid, data, now, c);
    case Done(j) => InvBooks(s); DoneStrands(s.srv, j, c);
    case StartRead(fid, room) => ReadWriters(s.srv, fid, room); PhaseStrands(s.srv, Apply(s, a).srv, c);
    case Begin(j, rec) => PhaseStrands(s.srv, Apply(s, a).srv, c);
    case Write(j, n) => PhaseStrands(s.srv, Apply(s, a).srv, c);
    case Fail(j) => PhaseStrands(s.srv, Apply(s, a).srv, c);
    case Count(j) => PhaseStrands(s.srv, Apply(s, a).srv, c);
    case Seal(j, ok) => PhaseStrands(s.srv, Apply(s, a).srv, c);
    case Kill => PhaseStrands(s.srv, Apply(s, a).srv, c);
    case Timeout(now) => PhaseStrands(s.srv, Apply(s, a).srv, c);
    case Fetch(j, n) => PhaseStrands(s.srv, Apply(s, a).srv, c);
    case EndRead(j) => PhaseStrands(s.srv, Apply(s, a).srv, c);
    case FailRead(j) => PhaseStrands(s.srv, Apply(s, a).srv, c);
    case Restart(order) =>
  }

  lemma ReadWriters(s: Server, fid: nat, room: bool)
    ensures AdmitRead(s, fid, room).0.writing == s.writing && AdmitRead(s, fid, room).0.jobs == s.jobs
  {
  }

  /** So a stranded chunk is out of use until the process restarts, which frees every chunk. */
  lemma {:induction false} StrandedUntilRestart(s: State, acts: seq<Action>, t: State, c: nat)
    requires Inv(s) && Run(s, acts, t) && IsStranded(s.srv, c) && forall a :: a in acts ==> !a.Restart?
    ensures IsStranded(t.srv, c)
    decreases |acts|
  {
    hide Inv, Enabled, Apply, IsStranded, Strands;
    if acts != [] {
      StepInv(s, acts[0]);
      StrandsExactly(s, acts[0], c);
      StrandedUntilRestart(Apply(s, acts[0]), acts[1..], t, c);
    }
  }

  lemma RestartFrees(s: State, order: seq<nat>, c: nat)
    requires Enabled(s, Restart(order))
    ensures !IsStranded(Apply(s, Restart(order)).srv, c)
  {
    hide CanRestart;
  }
}
