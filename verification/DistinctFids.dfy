/** Runs in which no two requests in flight carry the same fid: no fid is ever stored twice. */
module DistinctFids {
  import opened Codec
  import opened Format
  import opened Recovery
  import opened Images
  import opened Chunks
  import opened Engine
  import opened EngineInv
  import opened Crash

  /** The fid belongs to a write that is queued, in work or parked. */
  ghost predicate InFlight(s: Server, fid: nat) {
    || (exists j :: j in s.jobs && s.jobs[j].fid == fid)
    || (exists i :: 0 <= i < |s.pending| && s.pending[i].fid == fid)
  }

  /** What the fid allocation promises: a request carries a fid that no other one in flight has. */
  ghost predicate FreshArrival(s: State, a: Action) {
    a.Arrive? ==> !InFlight(s.srv, a.fid)
  }

  predicate Landed(p: Phase) { p.Counted? || (p.Returned? && p.ok) }

  /** The fid is indexed, or is about to be by a write whose record is already in a log. */
  ghost predicate Known(s: Server, fid: nat) {
    fid in s.index || exists j :: j in s.jobs && s.jobs[j].fid == fid && Landed(s.jobs[j].phase)
  }

  /** The fids in flight are all different, and none of them is indexed. */
  ghost predicate FlightsApart(s: Server) {
    && (forall j, k :: j in s.jobs && k in s.jobs && j != k ==> s.jobs[j].fid != s.jobs[k].fid)
    && (forall i, k :: 0 <= i < k < |s.pending| ==> s.pending[i].fid != s.pending[k].fid)
    && (forall j, i :: j in s.jobs && 0 <= i < |s.pending| ==> s.jobs[j].fid != s.pending[i].fid)
    && (forall j :: j in s.jobs ==> s.jobs[j].fid !in s.index)
    && (forall i :: 0 <= i < |s.pending| ==> s.pending[i].fid !in s.index)
  }

  ghost predicate LogsKnown(s: Server, logs: map<nat, seq<Record>>) {
    forall id, k :: id in logs && 0 <= k < |logs[id]| ==> Known(s, logs[id][k].fid)
  }

  ghost predicate LogsApart(logs: map<nat, seq<Record>>) {
    forall id, k, id', l ::
      id in logs && 0 <= k < |logs[id]| && id' in logs && 0 <= l < |logs[id']| && (id, k) != (id', l) ==>
        logs[id][k].fid != logs[id'][l].fid
  }

  ghost predicate FidInv(s: State) {
    FlightsApart(s.srv) && LogsKnown(s.srv, s.hist.logs) && LogsApart(s.hist.logs)
  }

  // ---------------------------------------------------------------------------
  // Arrivals.

  lemma AdmitApart(s: Server, fid: nat, data: seq<byte>, now: nat)
    requires FlightsApart(s) && !InFlight(s, fid) && JobsOk(s)
    ensures var t := Admit(s, fid, data, now).0;
            FlightsApart(t) && forall f :: Known(s, f) ==> Known(t, f)
  {
    hide FirstFit, Need, Without;
    var t := Admit(s, fid, data, now).0;
    assert s.nextJob !in s.jobs;
    forall f | Known(s, f) ensures Known(t, f) {
      if f !in s.index {
        var j :| j in s.jobs && s.jobs[j].fid == f && Landed(s.jobs[j].phase);
        assert j in t.jobs && t.jobs[j] == s.jobs[j];
      }
    }
  }

  // ---------------------------------------------------------------------------
  // Completions.

  lemma FreedApart(s: Server, j: nat)
    requires FlightsApart(s) && j in s.jobs
    ensures FlightsApart(s.(jobs := s.jobs - {j}, freeJobs := s.freeJobs + 1))
  {
  }

  function Unpark(s: Server, k: nat, c: nat): Server
    requires k < |s.pending| && c in s.mem
  {
    Dispatch(s.(pending := Without(s.pending, k)), s.pending[k].fid, s.pending[k].data, c)
  }

  lemma UnparkApart(s: Server, k: nat, c: nat)
    requires FlightsApart(s) && s.nextJob !in s.jobs && k < |s.pending| && c in s.mem
    ensures FlightsApart(Unpark(s, k, c))
  {
    var (ps, qs) := (s.pending, Without(s.pending, k));
    assert forall i :: 0 <= i < |qs| ==> qs[i] == ps[if i < k then i else i + 1];
  }

  lemma UnparkInFlight(s: Server, k: nat, c: nat, f: nat)
    requires k < |s.pending| && c in s.mem && InFlight(Unpark(s, k, c), f)
    ensures InFlight(s, f)
  {
    var t := Unpark(s, k, c);
    var (ps, qs) := (s.pending, t.pending);
    if j :| j in t.jobs && t.jobs[j].fid == f {
      if j == s.nextJob { assert ps[k].fid == f; }
    } else {
      var i :| 0 <= i < |qs| && qs[i].fid == f;
      assert ps[if i < k then i else i + 1].fid == f;
    }
  }

  /** Moving a parked write to a chunk changes who holds its fid, not which fids are held. */
  lemma HandOnApart(s: Server, c: nat)
    requires FlightsApart(s) && JobsOk(s) && c in s.mem
    ensures var t := HandOn(s, c);
            && FlightsApart(t) && t.index == s.index
            && (forall j :: j in s.jobs ==> j in t.jobs && t.jobs[j] == s.jobs[j])
            && (forall f :: InFlight(t, f) ==> InFlight(s, f))
  {
    hide FirstParked, Need, Unlink, Without;
    var k := FirstParked(s.pending, s.mem[c].availSpace);
    assert s.nextJob !in s.jobs;
    if k < |s.pending| {
      hide FlightsApart, InFlight;
      UnparkApart(s, k, c);
      forall f | InFlight(HandOn(s, c), f) ensures InFlight(s, f) {
        UnparkInFlight(s, k, c, f);
      }
    }
  }

  lemma IndexApart(t: Server, f: nat, e: Entry)
    requires FlightsApart(t) && !InFlight(t, f)
    ensures FlightsApart(t.(index := t.index[f := e]))
  {
  }

  lemma FreedNotInFlight(s: Server, j: nat)
    requires FlightsApart(s) && j in s.jobs
    ensures !InFlight(s.(jobs := s.jobs - {j}, freeJobs := s.freeJobs + 1), s.jobs[j].fid)
  {
  }

  lemma CompleteApart(s: Server, j: nat)
    requires FlightsApart(s) && JobsOk(s) && j in s.jobs && s.jobs[j].phase.Returned? && s.jobs[j].chunk in s.mem
    ensures var t := Complete(s, j).0;
            FlightsApart(t) && (forall f :: Known(s, f) ==> Known(t, f))
    ensures Complete(s, j).1 != InternalError
  {
    hide HandOn, FlightsApart, InFlight;
    var job := s.jobs[j];
    var freed := s.(jobs := s.jobs - {j}, freeJobs := s.freeJobs + 1);
    var (t, reply) := Complete(s, j);
    assert job.fid !in s.index by { NotIndexed(s, j); }
    FreedApart(s, j);
    FreedNotInFlight(s, j);
    HandOnApart(freed, job.chunk);
    var u := HandOn(freed, job.chunk);
    IndexApart(u, job.fid, Entry(job.chunk, job.offset, |job.data| + FILE_META_SIZE));
    forall f | Known(s, f) ensures Known(t, f) {
      if f !in s.index {
        var i :| i in s.jobs && s.jobs[i].fid == f && Landed(s.jobs[i].phase);
        if i != j { assert i in freed.jobs && t.jobs[i] == s.jobs[i]; }
      }
    }
  }

  lemma NotIndexed(s: Server, j: nat)
    requires FlightsApart(s) && j in s.jobs
    ensures s.jobs[j].fid !in s.index
  {
  }

  // ---------------------------------------------------------------------------
  // Workers.

  lemma PhaseApart(s: Server, j: nat, p: Phase, m: map<nat, Chunk>)
    requires FlightsApart(s) && j in s.jobs && (Landed(s.jobs[j].phase) ==> Landed(p))
    ensures var t := SetPhase(s, j, p).(mem := m);
            FlightsApart(t) && forall f :: Known(s, f) ==> Known(t, f)
  {
    var t := SetPhase(s, j, p).(mem := m);
    forall f | Known(s, f) ensures Known(t, f) {
      if f !in s.index {
        var i :| i in s.jobs && s.jobs[i].fid == f && Landed(s.jobs[i].phase);
        assert i in t.jobs && t.jobs[i].fid == f && Landed(t.jobs[i].phase);
      }
    }
  }

  /** A write whose record is not in a log yet has a fid that no log holds. */
  lemma FreshRecord(s: State, j: nat)
    requires FidInv(s) && j in s.srv.jobs && !Landed(s.srv.jobs[j].phase)
    ensures forall id, k :: id in s.hist.logs && 0 <= k < |s.hist.logs[id]| ==>
              s.hist.logs[id][k].fid != s.srv.jobs[j].fid
  {
    forall id, k | id in s.hist.logs && 0 <= k < |s.hist.logs[id]|
      ensures s.hist.logs[id][k].fid != s.srv.jobs[j].fid
    {
      assert Known(s.srv, s.hist.logs[id][k].fid);
    }
  }

  lemma CountApart(logs: map<nat, seq<Record>>, c: nat, rec: Record)
    requires LogsApart(logs) && c in logs
    requires forall id, k :: id in logs && 0 <= k < |logs[id]| ==> logs[id][k].fid != rec.fid
    ensures LogsApart(logs[c := logs[c] + [rec]])
  {
    var logs': map<nat, seq<Record>> := logs[c := logs[c] + [rec]];
    forall id, k, id', l | id in logs' && 0 <= k < |logs'[id]| && id' in logs' && 0 <= l < |logs'[id']| && (id, k) != (id', l)
      ensures logs'[id][k].fid != logs'[id'][l].fid
    {
      var old1, old2 := id != c || k < |logs[c]|, id' != c || l < |logs[c]|;
      if old1 { assert logs'[id][k] == logs[id][k]; }
      if old2 { assert logs'[id'][l] == logs[id'][l]; }
    }
  }

  // ---------------------------------------------------------------------------
  // Every step.

  lemma KnownLogs(s: Server, t: Server, logs: map<nat, seq<Record>>)
    requires LogsKnown(s, logs) && forall f :: Known(s, f) ==> Known(t, f)
    ensures LogsKnown(t, logs)
  {
    hide Known;
  }

  lemma CountFids(s: State, j: nat)
    requires Inv(s) && FidInv(s) && Enabled(s, Count(j))
    ensures FidInv(Apply(s, Count(j)))
  {
    hide FlightsApart, LogsApart, Known, Encode, Inv;
    var t, job := Apply(s, Count(j)), s.srv.jobs[j];
    var c, rec := job.chunk, job.phase.rec;
    JobCell(s, j);
    assert rec.fid == job.fid by { RecordOfJob(job, s.srv.mem[c], s.disk[c], s.hist.logs[c]); }
    FreshRecord(s, j);
    CountApart(s.hist.logs, c, rec);
    PhaseApart(s.srv, j, Counted(rec), t.srv.mem);
    assert Known(t.srv, rec.fid) by { KnownByJob(t.srv, j); }
    forall id, k | id in t.hist.logs && 0 <= k < |t.hist.logs[id]|
      ensures Known(t.srv, t.hist.logs[id][k].fid)
    {
      if id != c || k < |s.hist.logs[c]| {
        assert t.hist.logs[id][k] == s.hist.logs[id][k];
      }
    }
  }

  lemma RecordOfJob(job: Job, c: Chunk, file: seq<byte>, rs: seq<Record>)
    requires job.phase.Writing? && Progress(job, c, file, rs)
    ensures job.phase.rec.fid == job.fid
  {
  }

  lemma KnownByJob(s: Server, j: nat)
    requires j in s.jobs && Landed(s.jobs[j].phase)
    ensures Known(s, s.jobs[j].fid)
  {
  }

  lemma CommittedApart(s: State, t: State)
    requires CellsOk(s) && Committed(s, t) && LogsApart(s.hist.logs)
    ensures LogsApart(t.hist.logs)
  {
    hide CellsOk, Committed;
    forall id, k, id', l | id in t.hist.logs && 0 <= k < |t.hist.logs[id]| && id' in t.hist.logs
                           && 0 <= l < |t.hist.logs[id']| && (id, k) != (id', l)
      ensures t.hist.logs[id][k].fid != t.hist.logs[id'][l].fid
    {
      CommittedKeys(s, t);
      CommittedPrefix(s, t, id);
      CommittedPrefix(s, t, id');
    }
  }

  lemma CommittedKeys(s: State, t: State)
    requires CellsOk(s) && Committed(s, t)
    ensures t.hist.logs.Keys == s.hist.logs.Keys == s.disk.Keys
  {
  }

  lemma RestartFids(s: State, order: seq<nat>)
    requires Inv(s) && FidInv(s) && Enabled(s, Restart(order))
    ensures FidInv(Apply(s, Restart(order)))
  {
    hide Inv, CellsOk, Covers, InstallAll, Books, LogsApart, AfterCrash, Counters, Ids, Known, Committed, DurableImages;
    var t := Apply(s, Restart(order));
    InvCells(s);
    RestartCells(s, order);
    CommittedApart(s, t);
    forall id, k | id in t.hist.logs && 0 <= k < |t.hist.logs[id]| ensures Known(t.srv, t.hist.logs[id][k].fid) {
      CommittedIndexed(s, t, order, id, k);
      IndexedKnown(t.srv, t.hist.logs[id][k].fid);
    }
  }

  lemma IndexedKnown(s: Server, f: nat)
    requires f in s.index
    ensures Known(s, f)
  {
  }

  lemma InvCells(s: State)
    requires Inv(s)
    ensures CellsOk(s) && JobsOk(s.srv)
  {
  }

  /** Every committed record is in the recovered index. */
  lemma CommittedIndexed(s: State, t: State, order: seq<nat>, id: nat, k: nat)
    requires CellsOk(s) && Committed(s, t) && Lists(order, s.disk) && Covers(t.srv.index, DurableImages(s, order))
    requires id in t.hist.logs && k < |t.hist.logs[id]|
    ensures t.hist.logs[id][k].fid in t.srv.index && t.srv.index[t.hist.logs[id][k].fid] == EntryAt(id, t.hist.logs[id], k)
  {
    hide CellsOk, Log, ImageAt;
    var imgs := DurableImages(s, order);
    assert id in s.disk;
    var i :| 0 <= i < |order| && order[i] == id;
    ImageId(s, id);
    assert imgs[i] == ImageAt(s, id) && imgs[i].log[k] == t.hist.logs[id][k];
    assert EntryOf(imgs[i], k) == EntryAt(id, t.hist.logs[id], k);
  }

  lemma WorkerFids(s: State, t: State, j: nat, p: Phase)
    requires FidInv(s) && j in s.srv.jobs && (Landed(s.srv.jobs[j].phase) ==> Landed(p))
    requires t.srv == SetPhase(s.srv, j, p) && t.hist.logs == s.hist.logs
    ensures FidInv(t)
  {
    hide FlightsApart, LogsApart, Known;
    PhaseApart(s.srv, j, p, s.srv.mem);
    KnownLogs(s.srv, t.srv, s.hist.logs);
  }

  lemma ArriveFids(s: State, fid: nat, data: seq<byte>, now: nat)
    requires Inv(s) && FidInv(s) && Enabled(s, Arrive(fid, data, now)) && !InFlight(s.srv, fid)
    ensures FidInv(Apply(s, Arrive(fid, data, now)))
  {
    hide Inv, FlightsApart, LogsApart, LogsKnown, Known, Admit, CellsOk, JobsOk;
    InvCells(s);
    AdmitApart(s.srv, fid, data, now);
    KnownLogs(s.srv, Admit(s.srv, fid, data, now).0, s.hist.logs);
  }

  lemma DoneFids(s: State, j: nat)
    requires Inv(s) && FidInv(s) && Enabled(s, Done(j))
    ensures FidInv(Apply(s, Done(j)))
  {
    hide Inv, FlightsApart, LogsApart, LogsKnown, Known, Complete, CellsOk, JobsOk;
    InvCells(s);
    CompleteApart(s.srv, j);
    KnownLogs(s.srv, Complete(s.srv, j).0, s.hist.logs);
  }

  lemma ParkedFids(s: State, t: State, k: nat)
    requires FidInv(s) && k <= |s.srv.pending| && t.hist.logs == s.hist.logs
    requires t.srv.jobs == s.srv.jobs && t.srv.index == s.srv.index && t.srv.pending == s.srv.pending[k..]
    ensures FidInv(t)
  {
    hide LogsApart;
    forall f | Known(s.srv, f) ensures Known(t.srv, f) {}
    KnownLogs(s.srv, t.srv, s.hist.logs);
  }

  lemma StepFids(s: State, a: Action)
    requires Inv(s) && FidInv(s) && Enabled(s, a) && FreshArrival(s, a)
    ensures FidInv(Apply(s, a))
  {
    hide Inv, FidInv, Encode, EncodeSuper, CanRestart, Checked;
    match a
    case Arrive(fid, data, now) => ArriveFids(s, fid, data, now);
    case Begin(j, rec) => WorkerFids(s, Apply(s, a), j, Writing(rec, 0));
    case Write(j, n) =>
      var p := s.srv.jobs[j].phase;
      WorkerFids(s, Apply(s, a), j, Writing(p.rec, p.done + n));
    case Fail(j) => WorkerFids(s, Apply(s, a), j, Returned(false));
    case Count(j) => CountFids(s, j);
    case Seal(j, ok) => WorkerFids(s, Apply(s, a), j, Returned(true));
    case Done(j) => DoneFids(s, j);
    case Kill => ParkedFids(s, Apply(s, a), |s.srv.pending|);
    case Timeout(now) => ParkedFids(s, Apply(s, a), Expired(s.srv.pending, now));
    case StartRead(fid, room) => ParkedFids(s, Apply(s, a), 0);
    case Fetch(j, n) => ParkedFids(s, Apply(s, a), 0);
    case EndRead(j) => ParkedFids(s, Apply(s, a), 0);
    case FailRead(j) => ParkedFids(s, Apply(s, a), 0);
    case Restart(order) => RestartFids(s, order);
  }
}
