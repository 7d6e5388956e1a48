/**
 What becomes of requests: which answer each of them gets and when, that none is lost, made up or
 mixed up on its way, and that a file that has been acknowledged can be read.
 */
module Requests {
  import opened Codec
  import opened Counting
  import opened Adler
  import opened Format
  import opened Recovery
  import opened Chunks
  import opened Engine
  import opened EngineInv
  import opened Crash
  import opened Runs
  import RwBuffers

  // ---------------------------------------------------------------------------
  // Answers.

  /** No free chunk has room for the file. */
  ghost predicate NoRoom(s: Server, data: seq<byte>) {
    forall id :: id in s.chunks && id in s.mem ==> s.mem[id].availSpace <= Need(data)
  }

  /** The answers to a write that arrives: which there is, if any, and when. */
  lemma AdmitExact(s: Server, fid: nat, data: seq<byte>, now: nat)
    ensures var reply := Admit(s, fid, data, now).1;
            && (reply == Some(FileExists) <==> fid in s.index)
            && (reply == Some(ChunkUnavailable) <==> fid !in s.index && NoRoom(s, data) && |s.pending| >= MAX_PENDING_WRITES)
            && (reply == Some(IoJobUnavailable) <==>
                  fid !in s.index && s.freeJobs == 0 && !(NoRoom(s, data) && |s.pending| >= MAX_PENDING_WRITES))
            && (reply.None? || reply in {Some(FileExists), Some(ChunkUnavailable), Some(IoJobUnavailable)})
  {
    hide Need, Without;
    RoomFound(s, data);
  }

  lemma RoomFound(s: Server, data: seq<byte>)
    ensures NoRoom(s, data) <==> FirstFit(s.chunks, s.mem, Need(data)) == |s.chunks|
  {
    hide Need;
    var k := FirstFit(s.chunks, s.mem, Need(data));
    if k < |s.chunks| {
      assert s.chunks[k] in s.chunks;
    } else {
      forall id | id in s.chunks && id in s.mem ensures s.mem[id].availSpace <= Need(data) {
        var i :| 0 <= i < |s.chunks| && s.chunks[i] == id;
      }
    }
  }

  /** A write that gets no answer yet is parked behind the others if no free chunk has room for it, and
      otherwise queued, at the current offset of the first that has, which nobody else gets then. */
  lemma AdmitPlaces(s: Server, fid: nat, data: seq<byte>, now: nat)
    requires Admit(s, fid, data, now).1.None?
    ensures var t := Admit(s, fid, data, now).0;
            && t.index == s.index && t.mem == s.mem && t.readers == s.readers && t.freeJobs == s.freeJobs - 1
            && (NoRoom(s, data) ==> t.pending == s.pending + [Parked(fid, data, now)] && t.jobs == s.jobs && t.chunks == s.chunks)
            && (!NoRoom(s, data) ==>
                  && t.pending == s.pending && s.nextJob in t.jobs && t.jobs == s.jobs[s.nextJob := t.jobs[s.nextJob]]
                  && var c := t.jobs[s.nextJob].chunk;
                     && c in s.mem && s.mem[c].availSpace > Need(data)
                     && (exists k: nat :: k < |s.chunks| && s.chunks[k] == c && NoRoom(s.(chunks := s.chunks[..k]), data))
                     && t.jobs[s.nextJob] == Job(fid, data, c, s.mem[c].currentOffset, Queued)
                     && (NoDup(s.chunks) ==> c !in t.chunks) && t.writing == [c] + s.writing)
  {
    hide Need, Unlink;
    RoomFound(s, data);
    var k := FirstFit(s.chunks, s.mem, Need(data));
    if k < |s.chunks| {
      assert s.chunks[k] in s.chunks;
      assert NoRoom(s.(chunks := s.chunks[..k]), data);
      if NoDup(s.chunks) { WithoutMember(s.chunks, k); }
    }
  }

  /** The answers to a write that is done. It is in the index, where its worker put it, exactly if it
      succeeded. */
  lemma CompleteExact(s: Server, j: nat)
    requires j in s.jobs && s.jobs[j].phase.Returned? && s.jobs[j].chunk in s.mem
    ensures var (t, reply) := Complete(s, j);
            var job := s.jobs[j];
            && (reply == InternalError <==> job.fid in s.index)
            && (reply == Success <==> job.fid !in s.index && job.phase.ok)
            && (reply == WriteError <==> job.fid !in s.index && !job.phase.ok)
            && t.index == (if reply == Success
                           then s.index[job.fid := Entry(job.chunk, job.offset, FILE_META_SIZE + |job.data|)] else s.index)
            && j !in t.jobs - {s.nextJob} && t.mem == s.mem && t.readers == s.readers
  {
    hide FirstParked, Need, Unlink;
  }

  /** The chunk of a write that is done is taken over, at its current offset, by the first of the parked
      writes that fits into it, and if none does it goes to the end of the free list. */
  lemma HandOnExact(s: Server, c: nat)
    requires c in s.mem && c in s.writing && NoDup(s.writing)
    ensures var t := HandOn(s, c);
            var fits := (p: Parked) => s.mem[c].availSpace > Need(p.data);
            && t.index == s.index && t.mem == s.mem && t.readers == s.readers && t.freeJobs == s.freeJobs
            && (if forall p :: p in s.pending ==> !fits(p)
                then t.chunks == s.chunks + [c] && c !in t.writing && t.pending == s.pending && t.jobs == s.jobs
                else t.chunks == s.chunks && t.writing == s.writing
                     && exists k: nat ::
                          && k < |s.pending| && fits(s.pending[k]) && (forall i :: 0 <= i < k ==> !fits(s.pending[i]))
                          && t.pending == s.pending[..k] + s.pending[k + 1..]
                          && t.jobs == s.jobs[s.nextJob := Job(s.pending[k].fid, s.pending[k].data, c, s.mem[c].currentOffset, Queued)])
  {
    hide Need, Unlink, NoDup;
    var k, t := FirstParked(s.pending, s.mem[c].availSpace), HandOn(s, c);
    UnlinkMember(s.writing, c);
    if k < |s.pending| {
      assert s.pending[k] in s.pending;
      assert t.pending == s.pending[..k] + s.pending[k + 1..];
    } else {
      forall p | p in s.pending ensures s.mem[c].availSpace <= Need(p.data) {
        var i :| 0 <= i < |s.pending| && s.pending[i] == p;
      }
    }
  }

  /** And to a read. */
  lemma AdmitReadExact(s: Server, fid: nat, room: bool)
    ensures var (t, reply) := AdmitRead(s, fid, room);
            && (reply == Some(FileNotFound) <==> fid !in s.index || s.index[fid].chunk !in s.mem)
            && (reply == Some(MemoryLimit) <==> fid in s.index && s.index[fid].chunk in s.mem && !room)
            && (reply == Some(IoJobUnavailable) <==>
                  fid in s.index && s.index[fid].chunk in s.mem && room && s.freeJobs == 0)
            && (reply.None? || reply in {Some(FileNotFound), Some(MemoryLimit), Some(IoJobUnavailable)})
            && (reply.Some? ==> t == s)
            && (reply.None? ==> t.jobs == s.jobs && t.pending == s.pending && t.index == s.index && t.freeJobs == s.freeJobs - 1
                                && t.readers == s.readers[s.nextJob := Read(fid, s.index[fid], [])])
  {
  }

  // ---------------------------------------------------------------------------
  // No parked write waits for nothing.

  /** No free chunk has room for a parked write. */
  ghost predicate NoIdleRoom(s: Server) {
    forall i :: 0 <= i < |s.pending| ==> NoRoom(s, s.pending[i].data)
  }

  lemma AdmitNoIdle(s: Server, fid: nat, data: seq<byte>, now: nat)
    requires NoIdleRoom(s) && ListsOk(s)
    ensures NoIdleRoom(Admit(s, fid, data, now).0)
  {
    hide Need, FirstFit;
    RoomFound(s, data);
    var k, t := FirstFit(s.chunks, s.mem, Need(data)), Admit(s, fid, data, now).0;
    if k < |s.chunks| {
      WithoutMember(s.chunks, k);
      forall i | 0 <= i < |t.pending| ensures NoRoom(t, t.pending[i].data) { assert NoRoom(s, s.pending[i].data); }
    } else {
      forall i | 0 <= i < |t.pending| ensures NoRoom(t, t.pending[i].data) {
        if i < |s.pending| { assert NoRoom(s, s.pending[i].data); }
      }
    }
  }

  lemma HandOnNoIdle(s: Server, c: nat)
    requires NoIdleRoom(s) && c in s.mem
    ensures NoIdleRoom(HandOn(s, c))
  {
    hide Need, Unlink;
    var k, t := FirstParked(s.pending, s.mem[c].availSpace), HandOn(s, c);
    forall i | 0 <= i < |t.pending| ensures NoRoom(t, t.pending[i].data) {
      if k < |s.pending| {
        var l := if i < k then i else i + 1;
        assert t.pending[i] == s.pending[l] && NoRoom(s, s.pending[l].data);
      } else {
        assert NoRoom(s, s.pending[i].data);
      }
    }
  }

  lemma FewerNoIdle(s: Server, t: Server)
    requires NoIdleRoom(s) && t.chunks == s.chunks
    requires forall i :: 0 <= i < |t.pending| ==> t.pending[i] in s.pending
    requires forall id :: id in t.mem && id in t.chunks ==> id in s.mem && t.mem[id] == s.mem[id]
    ensures NoIdleRoom(t)
  {
    hide Need;
    forall i | 0 <= i < |t.pending| ensures NoRoom(t, t.pending[i].data) {
      var l :| 0 <= l < |s.pending| && s.pending[l] == t.pending[i];
      assert NoRoom(s, s.pending[l].data);
    }
  }

  lemma StepNoIdle(s: State, a: Action)
    requires Inv(s) && NoIdleRoom(s.srv) && Enabled(s, a)
    ensures NoIdleRoom(Apply(s, a).srv)
  {
    hide Inv, NoIdleRoom, Admit, HandOn, Encode, EncodeSuper, Checked, Expired, AdmitRead, CellsOk, CanRestart;
    var t := Apply(s, a);
    match a
    case Arrive(fid, data, now) => InvBooks(s); AdmitNoIdle(s.srv, fid, data, now);
    case Done(j) =>
      var job := s.srv.jobs[j];
      var freed := s.srv.(jobs := s.srv.jobs - {j}, freeJobs := s.srv.freeJobs + 1);
      FewerNoIdle(s.srv, freed);
      HandOnNoIdle(freed, job.chunk);
      var handed := HandOn(freed, job.chunk);
      if job.fid !in s.srv.index { FewerNoIdle(handed, t.srv); }
    case Count(j) =>
      assert s.srv.jobs[j].chunk !in s.srv.chunks by { InvBooks(s); TakenNotFree(s.srv, j); }
      FewerNoIdle(s.srv, t.srv);
    case StartRead(fid, room) => AdmitReadExact(s.srv, fid, room); SameMem(s.srv, fid, room); FewerNoIdle(s.srv, t.srv);
    case Restart(order) => NothingParked(t.srv);
    case _ => FewerNoIdle(s.srv, t.srv);
  }

  lemma SameMem(s: Server, fid: nat, room: bool)
    ensures AdmitRead(s, fid, room).0.chunks == s.chunks && AdmitRead(s, fid, room).0.mem == s.mem
  {
  }

  lemma NothingParked(t: Server)
    requires t.pending == []
    ensures NoIdleRoom(t)
  {
  }

  lemma TakenNotFree(s: Server, j: nat)
    requires Books(s) && j in s.jobs
    ensures s.jobs[j].chunk !in s.chunks
  {
  }

  /** In every reachable state no write is parked that a free chunk has room for. */
  lemma {:induction false} ParkedForCause(s: State, acts: seq<Action>, t: State)
    requires Inv(s) && NoIdleRoom(s.srv) && Run(s, acts, t)
    ensures NoIdleRoom(t.srv)
    decreases |acts|
  {
    hide Inv, Enabled, Apply, NoIdleRoom;
    if acts != [] {
      StepInv(s, acts[0]);
      StepNoIdle(s, acts[0]);
      ParkedForCause(Apply(s, acts[0]), acts[1..], t);
    }
  }

  // ---------------------------------------------------------------------------
  // No request is lost, made up or mixed up.

  datatype Request = Request(fid: nat, data: seq<byte>)

  function Asked(p: Parked): Request { Request(p.fid, p.data) }

  function Carried(j: Job): Request { Request(j.fid, j.data) }

  /** How often the request is parked. */
  function InPending(ps: seq<Parked>, q: Request): nat {
    if ps == [] then 0 else Bit(Asked(ps[0]) == q) + InPending(ps[1..], q)
  }

  /** How many of the jobs below `n` carry it. */
  function InJobs(jobs: map<nat, Job>, n: nat, q: Request): nat {
    if n == 0 then 0 else InJobs(jobs, n - 1, q) + Bit(n - 1 in jobs && Carried(jobs[n - 1]) == q)
  }

  function InFlight(s: Server, q: Request): nat { InPending(s.pending, q) + InJobs(s.jobs, s.nextJob, q) }

  lemma {:induction false} InPendingConcat(xs: seq<Parked>, ys: seq<Parked>, q: Request)
    ensures InPending(xs + ys, q) == InPending(xs, q) + InPending(ys, q)
  {
    if xs == [] {
      assert xs + ys == ys;
    } else {
      InPendingConcat(xs[1..], ys, q);
      assert (xs + ys)[1..] == xs[1..] + ys;
    }
  }

  lemma InPendingOne(p: Parked, q: Request)
    ensures InPending([p], q) == Bit(Asked(p) == q)
  {
  }

  lemma InPendingWithout(ps: seq<Parked>, k: nat, q: Request)
    requires k < |ps|
    ensures InPending(ps, q) == InPending(Without(ps, k), q) + Bit(Asked(ps[k]) == q)
  {
    hide InPending;
    assert ps == ps[..k] + ([ps[k]] + ps[k + 1..]);
    InPendingConcat(ps[..k], [ps[k]] + ps[k + 1..], q);
    InPendingConcat([ps[k]], ps[k + 1..], q);
    InPendingOne(ps[k], q);
    InPendingConcat(ps[..k], ps[k + 1..], q);
  }

  /** Jobs that are the same below `n` count the same. */
  lemma {:induction false} InJobsSame(js: map<nat, Job>, ks: map<nat, Job>, n: nat, q: Request)
    requires forall j :: 0 <= j < n ==> (j in js <==> j in ks) && (j in js ==> Carried(js[j]) == Carried(ks[j]))
    ensures InJobs(js, n, q) == InJobs(ks, n, q)
  {
    if n > 0 { InJobsSame(js, ks, n - 1, q); }
  }

  lemma {:induction false} InJobsRemove(jobs: map<nat, Job>, n: nat, j: nat, q: Request)
    requires j < n && j in jobs
    ensures InJobs(jobs, n, q) == InJobs(jobs - {j}, n, q) + Bit(Carried(jobs[j]) == q)
  {
    if j == n - 1 {
      InJobsSame(jobs, jobs - {j}, n - 1, q);
    } else {
      InJobsRemove(jobs, n - 1, j, q);
    }
  }

  /** Job numbers are below the next one, and writes are parked in the order of their times. */
  ghost predicate Orderly(s: State) { Numbered(s.srv) && Timely(s.srv.pending, s.clock) }

  ghost predicate Numbered(s: Server) { forall j :: j in s.jobs ==> j < s.nextJob }

  predicate Timely(ps: seq<Parked>, clock: nat) {
    && (forall i :: 0 <= i < |ps| ==> ps[i].reqTime <= clock)
    && (forall i, j :: 0 <= i < j < |ps| ==> ps[i].reqTime <= ps[j].reqTime)
  }

  lemma CompleteOrderly(s: Server, j: nat, clock: nat)
    requires Numbered(s) && Timely(s.pending, clock)
    requires j in s.jobs && s.jobs[j].phase.Returned? && s.jobs[j].chunk in s.mem
    ensures Numbered(Complete(s, j).0) && Timely(Complete(s, j).0.pending, clock)
  {
    hide Need, FirstParked, Unlink;
  }

  lemma AdmitOrderly(s: Server, fid: nat, data: seq<byte>, now: nat)
    requires Numbered(s) && Timely(s.pending, now)
    ensures Numbered(Admit(s, fid, data, now).0) && Timely(Admit(s, fid, data, now).0.pending, now)
  {
    hide Need, FirstFit;
  }

  lemma StepOrderly(s: State, a: Action)
    requires Orderly(s) && Enabled(s, a)
    ensures Orderly(Apply(s, a))
  {
    hide Admit, Complete, Encode, EncodeSuper, Checked, CanRestart, Expired;
    match a
    case Arrive(fid, data, now) => AdmitOrderly(s.srv, fid, data, now);
    case Done(j) => CompleteOrderly(s.srv, j, s.clock);
    case _ =>
  }

  /** How many parked requests have timed out. */
  function TimedOut(ps: seq<Parked>, now: nat, q: Request): nat {
    if ps == [] then 0
    else Bit(Asked(ps[0]) == q && ps[0].reqTime + PENDING_WRITE_TIMEOUT <= now) + TimedOut(ps[1..], now, q)
  }

  /** How often a step answers the request: at once, when its write is done, when the parked ones are
      killed, or when it has timed out. */
  ghost function Answered(s: State, a: Action, q: Request): nat
    requires Enabled(s, a)
  {
    match a
    case Arrive(fid, data, now) => Bit(Request(fid, data) == q && Admit(s.srv, fid, data, now).1.Some?)
    case Done(j) => Bit(Carried(s.srv.jobs[j]) == q)
    case Kill => InPending(s.srv.pending, q)
    case Timeout(now) => TimedOut(s.srv.pending, now, q)
    case _ => 0
  }

  /** A crash loses what is in flight. */
  function Lost(s: State, a: Action, q: Request): nat { if a.Restart? then InFlight(s.srv, q) else 0 }

  function Came(a: Action, q: Request): nat { Bit(a.Arrive? && Request(a.fid, a.data) == q) }

  lemma DispatchFlight(s: Server, fid: nat, data: seq<byte>, c: nat, q: Request)
    requires c in s.mem && Numbered(s)
    ensures InFlight(Dispatch(s, fid, data, c), q) == InFlight(s, q) + Bit(Request(fid, data) == q)
  {
    InJobsSame(s.jobs, Dispatch(s, fid, data, c).jobs, s.nextJob, q);
  }

  lemma AdmitFlight(s: Server, fid: nat, data: seq<byte>, now: nat, q: Request)
    requires Numbered(s)
    ensures var (t, reply) := Admit(s, fid, data, now);
            InFlight(t, q) == InFlight(s, q) + Bit(Request(fid, data) == q && reply.None?)
  {
    hide Need, InJobs, InPending, Without;
    var k := FirstFit(s.chunks, s.mem, Need(data));
    var p := Parked(fid, data, now);
    InPendingConcat(s.pending, [p], q);
    InPendingOne(p, q);
    if k < |s.chunks| {
      assert s.chunks[k] in s.chunks;
      DispatchFlight(TakeChunk(s, k), fid, data, s.chunks[k], q);
    }
  }

  lemma HandOnFlight(s: Server, c: nat, q: Request)
    requires c in s.mem && Numbered(s)
    ensures InFlight(HandOn(s, c), q) == InFlight(s, q)
  {
    hide Need, Unlink, InJobs, InPending, Without;
    var k := FirstParked(s.pending, s.mem[c].availSpace);
    if k < |s.pending| {
      InPendingWithout(s.pending, k, q);
      DispatchFlight(s.(pending := Without(s.pending, k)), s.pending[k].fid, s.pending[k].data, c, q);
    }
  }

  lemma DoneFlight(s: Server, j: nat, q: Request)
    requires j in s.jobs && s.jobs[j].phase.Returned? && s.jobs[j].chunk in s.mem && Numbered(s)
    ensures InFlight(Complete(s, j).0, q) + Bit(Carried(s.jobs[j]) == q) == InFlight(s, q)
  {
    hide HandOn, InJobs, InPending;
    InJobsRemove(s.jobs, s.nextJob, j, q);
    HandOnFlight(s.(jobs := s.jobs - {j}, freeJobs := s.freeJobs + 1), s.jobs[j].chunk, q);
  }

  lemma {:induction false} SweepFlight(ps: seq<Parked>, now: nat, q: Request)
    requires forall i, j :: 0 <= i < j < |ps| ==> ps[i].reqTime <= ps[j].reqTime
    ensures InPending(ps[Expired(ps, now)..], q) + TimedOut(ps, now, q) == InPending(ps, q)
  {
    if ps == [] {
    } else if ps[0].reqTime + PENDING_WRITE_TIMEOUT <= now {
      SweepFlight(ps[1..], now, q);
      assert ps[Expired(ps, now)..] == ps[1..][Expired(ps[1..], now)..];
    } else {
      NoneTimedOut(ps, now, q);
    }
  }

  lemma {:induction false} NoneTimedOut(ps: seq<Parked>, now: nat, q: Request)
    requires forall i :: 0 <= i < |ps| ==> ps[i].reqTime + PENDING_WRITE_TIMEOUT > now
    ensures TimedOut(ps, now, q) == 0
  {
    if ps != [] { NoneTimedOut(ps[1..], now, q); }
  }

  /** Every step: what was in flight or came is in flight afterwards, or answered, or lost in a crash. */
  lemma StepRequests(s: State, a: Action, q: Request)
    requires Orderly(s) && Enabled(s, a)
    ensures InFlight(Apply(s, a).srv, q) + Answered(s, a, q) + Lost(s, a, q) == InFlight(s.srv, q) + Came(a, q)
  {
    hide Need, Admit, Complete, InJobs, InPending, TimedOut, Encode, EncodeSuper, Checked, CanRestart, Expired, AdmitRead;
    var t := Apply(s, a);
    match a
    case Arrive(fid, data, now) => AdmitFlight(s.srv, fid, data, now, q);
    case Done(j) => DoneFlight(s.srv, j, q);
    case Kill => InPendingNone(q);
    case Timeout(now) => SweepFlight(s.srv.pending, now, q);
    case StartRead(fid, room) => AdmitReadExact(s.srv, fid, room); InJobsRead(s.srv, fid, room, q);
    case Restart(order) => InPendingNone(q); InJobsNone(q);
    case Begin(j, rec) => InJobsSame(s.srv.jobs, t.srv.jobs, s.srv.nextJob, q);
    case Write(j, n) => InJobsSame(s.srv.jobs, t.srv.jobs, s.srv.nextJob, q);
    case Fail(j) => InJobsSame(s.srv.jobs, t.srv.jobs, s.srv.nextJob, q);
    case Count(j) => InJobsSame(s.srv.jobs, t.srv.jobs, s.srv.nextJob, q);
    case Seal(j, ok) => InJobsSame(s.srv.jobs, t.srv.jobs, s.srv.nextJob, q);
    case _ =>
  }

  lemma InJobsRead(s: Server, fid: nat, room: bool, q: Request)
    requires Numbered(s)
    ensures InJobs(AdmitRead(s, fid, room).0.jobs, AdmitRead(s, fid, room).0.nextJob, q) == InJobs(s.jobs, s.nextJob, q)
  {
  }

  lemma InPendingNone(q: Request)
    ensures InPending([], q) == 0
  {
  }

  lemma InJobsNone(q: Request)
    ensures InJobs(map[], 0, q) == 0
  {
  }

  /** Over a run: how often the request arrives, is answered, and is lost. */
  function Arrivals(acts: seq<Action>, q: Request): nat {
    if acts == [] then 0 else Came(acts[0], q) + Arrivals(acts[1..], q)
  }

  ghost function Answers(s: State, acts: seq<Action>, q: Request): nat
    decreases |acts|
  {
    if acts == [] || !Enabled(s, acts[0]) then 0
    else Answered(s, acts[0], q) + Answers(Apply(s, acts[0]), acts[1..], q)
  }

  ghost function Losses(s: State, acts: seq<Action>, q: Request): nat
    decreases |acts|
  {
    if acts == [] || !Enabled(s, acts[0]) then 0 else Lost(s, acts[0], q) + Losses(Apply(s, acts[0]), acts[1..], q)
  }

  lemma {:induction false} RunRequests(s: State, acts: seq<Action>, t: State, q: Request)
    requires Orderly(s) && Run(s, acts, t)
    ensures Orderly(t)
    ensures InFlight(t.srv, q) + Answers(s, acts, q) + Losses(s, acts, q) == InFlight(s.srv, q) + Arrivals(acts, q)
    decreases |acts|
  {
    hide Orderly, Enabled, Apply, InFlight, Answered, Lost, Came;
    if acts != [] {
      StepOrderly(s, acts[0]);
      StepRequests(s, acts[0], q);
      RunRequests(Apply(s, acts[0]), acts[1..], t, q);
    }
  }

  lemma InitialOrderly(n: nat, blocks: nat, q: Request)
    ensures Orderly(Initial(n, blocks)) && InFlight(Initial(n, blocks).srv, q) == 0 && NoIdleRoom(Initial(n, blocks).srv)
    ensures Initial(n, blocks).hist.acked == map[]
  {
    hide NewFile, NewIds;
  }

  /** Main result on requests, over every run from the first start: each request that arrived, with its
      fid and its data, has been answered once, is in flight once, or was lost in a crash, and nothing
      else is answered or in flight. */
  lemma RequestsConserved(n: nat, blocks: nat, acts: seq<Action>, t: State, q: Request)
    requires Run(Initial(n, blocks), acts, t)
    ensures InFlight(t.srv, q) + Answers(Initial(n, blocks), acts, q) + Losses(Initial(n, blocks), acts, q) == Arrivals(acts, q)
  {
    hide Run, Initial, InFlight;
    InitialOrderly(n, blocks, q);
    RunRequests(Initial(n, blocks), acts, t, q);
  }

  /** And no write is parked for which a free chunk has room. */
  lemma NeverIdle(n: nat, blocks: nat, acts: seq<Action>, t: State)
    requires n < 0x1_0000_0000_0000_0000 && blocks <= RwBuffers.SAFE_BLOCKS && Run(Initial(n, blocks), acts, t)
    ensures NoIdleRoom(t.srv)
  {
    hide Run, Initial, Inv;
    InitialInv(n, blocks);
    InitialOrderly(n, blocks, Request(0, []));
    ParkedForCause(Initial(n, blocks), acts, t);
  }

  // ---------------------------------------------------------------------------
  // What is acknowledged has arrived.

  lemma {:induction false} JobCounts(jobs: map<nat, Job>, n: nat, j: nat)
    requires j < n && j in jobs
    ensures InJobs(jobs, n, Carried(jobs[j])) > 0
  {
    if j < n - 1 { JobCounts(jobs, n - 1, j); }
  }

  lemma {:induction false} ParkedCounts(ps: seq<Parked>, i: nat)
    requires i < |ps|
    ensures InPending(ps, Asked(ps[i])) > 0
  {
    if i > 0 { ParkedCounts(ps[1..], i - 1); }
  }

  lemma {:induction false} ArrivalIs(acts: seq<Action>, q: Request) returns (i: nat)
    requires Arrivals(acts, q) > 0
    ensures i < |acts| && acts[i].Arrive? && acts[i].fid == q.fid && acts[i].data == q.data
  {
    if Came(acts[0], q) > 0 {
      i := 0;
    } else {
      var k := ArrivalIs(acts[1..], q);
      i := k + 1;
    }
  }

  /** A step acknowledges only what is in flight. */
  lemma StepAcked(s: State, a: Action, f: nat)
    requires Orderly(s) && Enabled(s, a) && f in Apply(s, a).hist.acked
    ensures var q := Request(f, Apply(s, a).hist.acked[f]);
            (f in s.hist.acked && s.hist.acked[f] == q.data) || InFlight(s.srv, q) > 0
  {
    hide Need, Admit, Encode, EncodeSuper, Checked, CanRestart, AdmitRead, InJobs, InPending, Complete;
    if a.Done? && s.srv.jobs[a.j].fid == f { JobCounts(s.srv.jobs, s.srv.nextJob, a.j); }
  }

  lemma {:induction false} RunAcked(s: State, acts: seq<Action>, t: State, f: nat)
    requires Orderly(s) && Run(s, acts, t) && f in t.hist.acked
    ensures var q := Request(f, t.hist.acked[f]);
            (f in s.hist.acked && s.hist.acked[f] == q.data) || InFlight(s.srv, q) + Arrivals(acts, q) > 0
    decreases |acts|
  {
    hide Orderly, Enabled, Apply, InFlight, Came;
    if acts != [] {
      var q, u := Request(f, t.hist.acked[f]), Apply(s, acts[0]);
      StepOrderly(s, acts[0]);
      RunAcked(u, acts[1..], t, f);
      StepRequests(s, acts[0], q);
      if f in u.hist.acked { StepAcked(s, acts[0], f); }
    }
  }

  /** Over every run from the first start: the data acknowledged for a file is that of a request that
      arrived for it, and every write parked or in flight is a request that arrived. */
  lemma AcknowledgedArrived(n: nat, blocks: nat, acts: seq<Action>, t: State)
    requires Run(Initial(n, blocks), acts, t)
    ensures forall f :: f in t.hist.acked ==> ArrivedAs(acts, Request(f, t.hist.acked[f]))
    ensures forall j :: j in t.srv.jobs ==> ArrivedAs(acts, Carried(t.srv.jobs[j]))
    ensures forall i :: 0 <= i < |t.srv.pending| ==> ArrivedAs(acts, Asked(t.srv.pending[i]))
  {
    hide Run, Initial, InJobs, InPending, ArrivedAs, Arrivals;
    var s := Initial(n, blocks);
    forall q ensures Arrivals(acts, q) > 0 ==> ArrivedAs(acts, q) {
      if Arrivals(acts, q) > 0 { Arrived(acts, q); }
    }
    forall f | f in t.hist.acked ensures ArrivedAs(acts, Request(f, t.hist.acked[f])) {
      InitialOrderly(n, blocks, Request(f, t.hist.acked[f]));
      RunAcked(s, acts, t, f);
    }
    forall j | j in t.srv.jobs ensures ArrivedAs(acts, Carried(t.srv.jobs[j])) {
      InitialOrderly(n, blocks, Carried(t.srv.jobs[j]));
      RunRequests(s, acts, t, Carried(t.srv.jobs[j]));
      JobCounts(t.srv.jobs, t.srv.nextJob, j);
    }
    forall i | 0 <= i < |t.srv.pending| ensures ArrivedAs(acts, Asked(t.srv.pending[i])) {
      InitialOrderly(n, blocks, Asked(t.srv.pending[i]));
      RunRequests(s, acts, t, Asked(t.srv.pending[i]));
      ParkedCounts(t.srv.pending, i);
    }
  }

  /** The request is one of those that arrived. */
  ghost predicate ArrivedAs(acts: seq<Action>, q: Request) {
    exists i :: 0 <= i < |acts| && acts[i].Arrive? && acts[i].fid == q.fid && acts[i].data == q.data
  }

  lemma Arrived(acts: seq<Action>, q: Request)
    requires Arrivals(acts, q) > 0
    ensures ArrivedAs(acts, q)
  {
    var i := ArrivalIs(acts, q);
  }

  // ---------------------------------------------------------------------------
  // Writing and reading a file.

  /** Whenever a job is free, an acknowledged file can be read, and the answer is the data. */
  lemma ReadRun(s: State, f: nat) returns (acts: seq<Action>, t: State, j: nat)
    requires Inv(s) && f in s.hist.acked && s.srv.freeJobs > 0
    ensures Run(s, acts, t) && Inv(t) && j in t.srv.readers && Enabled(t, EndRead(j)) && t.srv.readers[j].fid == f
    ensures ReadReply(f, t.srv.readers[j].got) == Some(s.hist.acked[f])
  {
    hide Inv, ReadReply, Encode;
    var start := StartRead(f, true);
    var e := AckedPlace(s, f);
    var u := Apply(s, start);
    StartReadInv(s, f, true);
    j := s.srv.nextJob;
    assert u.srv.readers[j] == Read(f, e, []);
    ReadersNeverStuck(u, j, e.size);
    t := Apply(u, Fetch(j, e.size));
    StepInv(u, Fetch(j, e.size));
    var data := ReadsExact(t, j, t.srv.readers[j]);
    RunOne(s, start);
    RunOne(u, Fetch(j, e.size));
    RunConcat(s, [start], u, [Fetch(j, e.size)], t);
    acts := [start] + [Fetch(j, e.size)];
  }

  lemma AckedPlace(s: State, f: nat) returns (e: Entry)
    requires Inv(s) && f in s.hist.acked
    ensures f in s.srv.index && e == s.srv.index[f] && e.chunk in s.srv.mem
  {
    hide ChunkOk, Log, WritesOk, ReadsOk, JobsOk;
    e := s.srv.index[f];
    var k: nat :| Locates(s.hist.logs, f, e, k);
  }

  /** A write for which there is room and a job can be stored and acknowledged. */
  lemma WriteRun(s: State, f: nat, data: seq<byte>, now: nat) returns (acts: seq<Action>, t: State)
    requires Inv(s) && Enabled(s, Arrive(f, data, now))
    requires f !in s.srv.index && !NoRoom(s.srv, data) && s.srv.freeJobs > 0
    ensures Run(s, acts, t) && Inv(t) && f in t.hist.acked && t.hist.acked[f] == data && t.srv.freeJobs > 0
  {
    hide Inv, Checksum, Encode, NoRoom, Need, Run;
    var arrive := Arrive(f, data, now);
    AdmitExact(s.srv, f, data, now);
    AdmitPlaces(s.srv, f, data, now);
    var s1 := Apply(s, arrive);
    StepInv(s, arrive);
    RunOne(s, arrive);
    var j, rec := s.srv.nextJob, Record(f, 0, Checksum(0, data), data);
    assert Enabled(s1, Begin(j, rec)) by { WriterPlace(s1, j); assert Checked(rec); DataFits(s1, j); }
    var more, s2 := RunJob(s1, j, rec, true);
    WorkersNeverStuck(s2, j);
    t := Apply(s2, Done(j));
    StepInv(s2, Done(j));
    RunOne(s2, Done(j));
    CompleteExact(s2.srv, j);
    FreedJob(s2.srv, j);
    RunConcat(s, [arrive], s1, more, s2);
    RunConcat(s, [arrive] + more, s2, [Done(j)], t);
    acts := [arrive] + more + [Done(j)];
  }

  lemma DataFits(s: State, j: nat)
    requires Inv(s) && j in s.srv.jobs && s.srv.jobs[j].phase.Queued?
    ensures |s.srv.jobs[j].data| < 0x1_0000_0000 && s.srv.jobs[j].fid < 0x1_0000_0000_0000_0000
  {
    hide Inv, ChunkOk, Log, Encode, AllChecked;
    JobCell(s, j);
  }

  lemma FreedJob(s: Server, j: nat)
    requires j in s.jobs && s.jobs[j].phase.Returned? && s.jobs[j].chunk in s.mem
    ensures Complete(s, j).0.freeJobs == s.freeJobs + 1
  {
    hide FirstParked, Need, Unlink;
  }

  /** So what is written can be read back. */
  lemma WriteThenRead(s: State, f: nat, data: seq<byte>, now: nat) returns (acts: seq<Action>, t: State, j: nat)
    requires Inv(s) && Enabled(s, Arrive(f, data, now))
    requires f !in s.srv.index && !NoRoom(s.srv, data) && s.srv.freeJobs > 0
    ensures Run(s, acts, t) && j in t.srv.readers && Enabled(t, EndRead(j))
    ensures ReadReply(f, t.srv.readers[j].got) == Some(data)
  {
    hide Inv, NoRoom, Run, Enabled, ReadReply;
    var first, u := WriteRun(s, f, data, now);
    var second;
    second, t, j := ReadRun(u, f);
    RunConcat(s, first, u, second, t);
    acts := first + second;
  }
}
