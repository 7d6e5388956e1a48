/**
 Runs of the storage engine from its first start that end badly, one for each hypothesis of the
 main results.
 */
module Witnesses {
  import opened Codec
  import opened Adler
  import opened Format
  import opened Images
  import opened Chunks
  import opened Engine
  import opened EngineInv
  import opened Crash
  import opened DistinctFids
  import opened Runs
  import opened Stranded
  import RwBuffers

  // ---------------------------------------------------------------------------
  // The first requests.

  /** The server after its first start and some admissions: `k` chunks are taken. */
  ghost predicate Started(s: State, n: nat, k: nat) {
    && k <= n && s.srv.chunks == NewIds(n)[k..] && |s.srv.pending| == 0 && s.srv.nextJob == k
    && s.srv.freeJobs + k == MAX_IO_JOBS && s.srv.index == map[] && s.clock == 0
    && (forall id :: id in s.srv.mem <==> 1 <= id <= n)
    && (forall id :: id in s.srv.mem ==> s.srv.mem[id] == NewChunk())
    && (forall j :: j in s.srv.jobs ==> j < k)
  }

  lemma InitialStarted(n: nat, blocks: nat)
    ensures Started(Initial(n, blocks), n, 0)
  {
    hide NewFile;
    assert NewIds(n)[0..] == NewIds(n);
    var s := Initial(n, blocks);
    forall id: nat ensures id in s.srv.mem <==> 1 <= id <= n {
      if 1 <= id <= n { assert NewIds(n)[n - id] == id; }
    }
  }

  /** A request that takes the next chunk of the list. */
  lemma Admitted(s: State, n: nat, k: nat, fid: nat, data: seq<byte>)
    requires Started(s, n, k) && k < n && k < MAX_IO_JOBS
    requires fid < 0x1_0000_0000_0000_0000 && RwBuffers.Receivable(|data|, s.blocks) && Need(data) < NewChunk().availSpace
    ensures Enabled(s, Arrive(fid, data, 0))
    ensures var t := Apply(s, Arrive(fid, data, 0));
            && Started(t, n, k + 1) && k in t.srv.jobs && t.srv.jobs == s.srv.jobs[k := t.srv.jobs[k]]
            && t.srv.jobs[k] == Job(fid, data, n - k, NewChunk().currentOffset, Queued)
            && t.hist == s.hist && t.disk == s.disk && t.blocks == s.blocks
  {
    hide Need, NewChunk;
    var ids := NewIds(n)[k..];
    assert ids[0] == n - k;
    assert n - k in s.srv.mem;
    assert FirstFit(s.srv.chunks, s.srv.mem, Need(data)) == 0;
    assert Without(ids, 0) == NewIds(n)[k + 1..];
  }

  function RecordOf(fid: nat, data: seq<byte>): Record { Record(fid, 0, Checksum(0, data), data) }

  lemma BeginEnabled(s: State, j: nat, fid: nat)
    requires j in s.srv.jobs && s.srv.jobs[j].phase.Queued? && s.srv.jobs[j].fid == fid && s.srv.jobs[j].data == []
    requires fid < 0x1_0000_0000_0000_0000
    ensures Enabled(s, Begin(j, RecordOf(fid, [])))
  {
    SmallChecksum();
  }

  lemma SmallChecksum()
    ensures Checksum(0, []) < 0x1_0000_0000_0000_0000
  {
  }

  // ---------------------------------------------------------------------------
  // A file too large for 32 bits.

  /** Every write that is not counted yet fits into its chunk. */
  ghost predicate WritesFit(s: State) {
    forall j :: j in s.srv.jobs && (s.srv.jobs[j].phase.Queued? || s.srv.jobs[j].phase.Writing?) ==>
      s.srv.jobs[j].chunk in s.srv.mem && |s.srv.jobs[j].data| + FILE_META_SIZE < s.srv.mem[s.srv.jobs[j].chunk].availSpace
  }

  /** With more memory blocks the server queues a file of nearly 4 GiB on a chunk of 2. */
  lemma OversizedAdmitted(n: nat, blocks: nat) returns (acts: seq<Action>, t: State)
    requires n >= 1 && blocks > RwBuffers.SAFE_BLOCKS
    ensures Run(Initial(n, blocks), acts, t) && !WritesFit(t)
  {
    hide Initial, Run, NewIds;
    var s := Initial(n, blocks);
    var data: seq<byte> := seq(RwBuffers.WRAPPING, _ => 0);
    InitialStarted(n, blocks);
    assert s.blocks == blocks by { InitialBlocks(n, blocks); }
    assert RwBuffers.Receivable(|data|, blocks) by { Receives(blocks); }
    assert Need(data) == 0;
    Admitted(s, n, 0, 1, data);
    acts, t := [Arrive(1, data, 0)], Apply(s, Arrive(1, data, 0));
    RunOne(s, Arrive(1, data, 0));
    assert t.srv.jobs[0].data == data && n in t.srv.mem;
  }

  lemma InitialBlocks(n: nat, blocks: nat)
    ensures Initial(n, blocks).blocks == blocks
  {
  }

  lemma Receives(blocks: nat)
    requires blocks > RwBuffers.SAFE_BLOCKS
    ensures RwBuffers.Receivable(RwBuffers.WRAPPING, blocks)
  {
    assert blocks * RwBuffers.BLOCK_SIZE >= (RwBuffers.SAFE_BLOCKS + 1) * RwBuffers.BLOCK_SIZE;
  }

  /** So over all runs writes fit exactly if there are no more than 4096 memory blocks. */
  lemma SizesExact(n: nat, blocks: nat)
    requires 1 <= n < 0x1_0000_0000_0000_0000
    ensures (forall acts, t :: Run(Initial(n, blocks), acts, t) ==> WritesFit(t)) <==> blocks <= RwBuffers.SAFE_BLOCKS
  {
    hide Initial, Run, WritesFit;
    if blocks <= RwBuffers.SAFE_BLOCKS {
      forall acts, t | Run(Initial(n, blocks), acts, t) ensures WritesFit(t) {
        InitialInv(n, blocks);
        RunInv(Initial(n, blocks), acts, t);
        AllFit(t);
      }
    } else {
      var acts, t := OversizedAdmitted(n, blocks);
    }
  }

  lemma AllFit(t: State)
    requires Inv(t)
    ensures WritesFit(t)
  {
    hide Inv;
    forall j | j in t.srv.jobs && (t.srv.jobs[j].phase.Queued? || t.srv.jobs[j].phase.Writing?)
      ensures t.srv.jobs[j].chunk in t.srv.mem
      ensures |t.srv.jobs[j].data| + FILE_META_SIZE < t.srv.mem[t.srv.jobs[j].chunk].availSpace
    {
      WriterPlace(t, j);
    }
  }

  // ---------------------------------------------------------------------------
  // A write that is acknowledged and lost.

  lemma OneQueued() returns (s: State)
    ensures Run(Initial(1, 1), [Arrive(7, [], 0)], s) && Inv(s) && Started(s, 1, 1)
    ensures s.srv.jobs.Keys == {0} && s.srv.jobs[0].chunk == 1 && s.srv.jobs[0].fid == 7 && s.srv.jobs[0].data == []
    ensures s.hist.logs == map[1 := []] && s.hist.durable == map[1 := 0] && s.disk.Keys == {1}
    ensures Enabled(s, Begin(0, RecordOf(7, [])))
  {
    hide Initial, Run, Inv, NewIds, NewChunk, Checksum, EncodeSuper, Encode;
    var s0, arrive := Initial(1, 1), Arrive(7, [], 0);
    InitialInv(1, 1);
    InitialStarted(1, 1);
    InitialBlocks(1, 1);
    assert Need([]) < NewChunk().availSpace by { RoomInNew(); }
    Admitted(s0, 1, 0, 7, []);
    s := Apply(s0, arrive);
    RunOne(s0, arrive);
    StepInv(s0, arrive);
    InitialHistory();
    BeginEnabled(s, 0, 7);
  }

  /** A write that has run to its end with a superblock write that failed. */
  lemma OneUnsealed() returns (acts: seq<Action>, s: State)
    ensures Run(Initial(1, 1), acts, s) && Inv(s) && FidInv(s) && Enabled(s, Done(0)) && s.disk.Keys == {1}
    ensures 0 in s.srv.jobs && s.srv.jobs[0].fid == 7 && s.srv.jobs[0].phase == Returned(true) && 7 !in s.srv.index
    ensures !Sealed(s, s.srv.jobs[0].chunk)
  {
    hide Initial, Run, Inv, FidInv, NewIds, NewChunk, Checksum, EncodeSuper, Encode, Checked;
    var s1 := OneQueued();
    var more;
    more, s := RunJob(s1, 0, RecordOf(7, []), false);
    RunConcat(Initial(1, 1), [Arrive(7, [], 0)], s1, more, s);
    acts := [Arrive(7, [], 0)] + more;
    LoneRecord(s, 7);
  }

  /** A write whose superblock write fails is acknowledged, and a crash loses it. */
  lemma AcknowledgedLost() returns (acts: seq<Action>, s: State, t: State)
    ensures Run(Initial(1, 1), acts, s) && 7 in s.hist.acked && 7 in s.srv.index
    ensures Enabled(s, Restart([1])) && t == Apply(s, Restart([1])) && 7 !in t.srv.index
  {
    hide Initial, Run, Inv, FidInv, Lists, Sealed, Enabled;
    var before, s2 := OneUnsealed();
    s := Apply(s2, Done(0));
    RunOne(s2, Done(0));
    RunConcat(Initial(1, 1), before, s2, [Done(0)], s);
    acts := before + [Done(0)];
    assert Lists([1], s.disk) by { OneFile(s.disk); }
    AcknowledgedSurvives(s2, s, 0, s2.srv.jobs[0], [1]);
    t := Apply(s, Restart([1]));
    InvAcked(s2, s, 0);
  }

  lemma InvAcked(s: State, t: State, j: nat)
    requires Inv(s) && Enabled(s, Done(j)) && t == Apply(s, Done(j)) && s.srv.jobs[j].fid in t.hist.acked
    ensures s.srv.jobs[j].fid in t.srv.index
  {
    hide Inv, Enabled, Apply;
    StepInv(s, Done(j));
    AckedIndexed(t);
  }

  lemma AckedIndexed(t: State)
    requires Inv(t)
    ensures forall f :: f in t.hist.acked ==> f in t.srv.index
  {
    hide CellsOk, WritesOk, IndexOk, ReadsOk, HoldsData;
  }

  lemma OneFile(disk: map<nat, seq<byte>>)
    requires disk.Keys == {1}
    ensures Lists([1], disk)
  {
  }

  lemma RoomInNew()
    ensures Need([]) < NewChunk().availSpace
  {
  }

  lemma InitialHistory()
    ensures Initial(1, 1).hist.logs == map[1 := []] && Initial(1, 1).hist.durable == map[1 := 0]
    ensures Initial(1, 1).disk.Keys == {1}
  {
    hide NewFile;
    assert NewIds(1) == [1];
  }

  lemma LoneRecord(s: State, f: nat)
    requires s.srv.jobs.Keys == {0} && s.srv.jobs[0].fid == f && s.srv.jobs[0].phase == Returned(true)
    requires s.srv.index == map[] && |s.srv.pending| == 0
    requires s.hist.logs.Keys == {1} && |s.hist.logs[1]| == 1 && s.hist.logs[1][0].fid == f
    ensures FidInv(s)
  {
  }

  // ---------------------------------------------------------------------------
  // Two writes of one fid.

  lemma TwoQueued() returns (s: State)
    ensures Run(Initial(2, 1), [Arrive(7, [], 0)] + [Arrive(7, [], 0)], s) && Inv(s) && Started(s, 2, 2)
    ensures 0 in s.srv.jobs && 1 in s.srv.jobs && s.srv.jobs[0].fid == s.srv.jobs[1].fid == 7
    ensures Enabled(s, Begin(0, RecordOf(7, []))) && Enabled(s, Begin(1, RecordOf(7, [])))
  {
    hide Initial, Run, Inv, NewIds, NewChunk, Checksum, Enabled, Apply;
    var s0, arrive := Initial(2, 1), Arrive(7, [], 0);
    InitialInv(2, 1);
    InitialStarted(2, 1);
    InitialBlocks(2, 1);
    assert Need([]) < NewChunk().availSpace by { RoomInNew(); }
    Admitted(s0, 2, 0, 7, []);
    var s1 := Apply(s0, arrive);
    StepInv(s0, arrive);
    Admitted(s1, 2, 1, 7, []);
    s := Apply(s1, arrive);
    StepInv(s1, arrive);
    RunOne(s0, arrive);
    RunOne(s1, arrive);
    RunConcat(s0, [arrive], s1, [arrive], s);
    BeginEnabled(s, 0, 7);
    BeginEnabled(s, 1, 7);
  }

  /** Two requests with the same fid are both admitted and can end in a state that no recovery gets
      out of. */
  lemma CollisionReached() returns (acts: seq<Action>, t: State)
    ensures Run(Initial(2, 1), acts, t)
    ensures forall order :: Lists(order, t.disk) ==> !CanRestart(t.disk, order)
  {
    hide Initial, Run, Inv, Lists, Checksum, CanRestart, Enabled;
    var s := TwoQueued();
    var more;
    more, t := CollisionFatal(s, 0, 1, RecordOf(7, []), RecordOf(7, []));
    var arrivals := [Arrive(7, [], 0)] + [Arrive(7, [], 0)];
    RunConcat(Initial(2, 1), arrivals, s, more, t);
    acts := arrivals + more;
  }

  // ---------------------------------------------------------------------------
  // Chunks that are stranded.

  /** Both writes have run to their ends. */
  lemma TwoReturned() returns (acts: seq<Action>, s: State)
    ensures Run(Initial(2, 1), acts, s) && Inv(s) && 7 !in s.srv.index && s.srv.pending == []
    ensures 0 in s.srv.jobs && s.srv.jobs[0].fid == 7 && s.srv.jobs[0].phase == Returned(true)
    ensures 1 in s.srv.jobs && s.srv.jobs[1].fid == 7 && s.srv.jobs[1].phase == Returned(true)
    ensures Enabled(s, Done(0))
  {
    hide Initial, Run, Inv, NewIds, NewChunk, Checksum, Checked, RecordFits, Apply;
    var s0 := TwoQueued();
    var rec := RecordOf(7, []);
    var first, s1 := RunJob(s0, 0, rec, true);
    assert Enabled(s1, Begin(1, rec));
    var second;
    second, s := RunJob(s1, 1, rec, true);
    var arrivals := [Arrive(7, [], 0)] + [Arrive(7, [], 0)];
    RunConcat(Initial(2, 1), arrivals, s0, first, s1);
    RunConcat(Initial(2, 1), arrivals + first, s1, second, s);
    acts := arrivals + first + second;
    assert s.srv.jobs[0].chunk in s.srv.mem by { JobCell(s, 0); }
  }

  /** Of two writes with one fid the second to complete strands its chunk. */
  lemma StrandedByDuplicate() returns (acts: seq<Action>, t: State, c: nat)
    ensures Run(Initial(2, 1), acts, t) && IsStranded(t.srv, c)
  {
    hide Initial, Run, Inv, IsStranded, HandOn;
    var before, s := TwoReturned();
    var u := Apply(s, Done(0));
    StepInv(s, Done(0));
    AfterFirst(s, u);
    assert u.srv.jobs[1].chunk in u.srv.mem by { JobCell(u, 1); }
    t, c := Apply(u, Done(1)), u.srv.jobs[1].chunk;
    StrandsExactly(u, Done(1), c);
    RunOne(s, Done(0));
    RunOne(u, Done(1));
    RunConcat(Initial(2, 1), before, s, [Done(0)], u);
    RunConcat(Initial(2, 1), before + [Done(0)], u, [Done(1)], t);
    acts := before + [Done(0)] + [Done(1)];
  }

  lemma AfterFirst(s: State, u: State)
    requires Enabled(s, Done(0)) && u == Apply(s, Done(0)) && s.srv.jobs[0].fid == 7 && 7 !in s.srv.index
    requires s.srv.jobs[0].phase == Returned(true) && s.srv.pending == [] && 1 in s.srv.jobs
    ensures 7 in u.srv.index && 1 in u.srv.jobs && u.srv.jobs[1] == s.srv.jobs[1]
  {
  }

  /** The first `k` requests, for files that are all the same, each take a chunk and a job. */
  lemma {:induction false} ManyQueued(n: nat, k: nat) returns (acts: seq<Action>, s: State)
    requires k <= n < 0x1_0000_0000_0000_0000 && k <= MAX_IO_JOBS
    ensures Run(Initial(n, 1), acts, s) && Inv(s) && Started(s, n, k) && s.blocks == 1 && |acts| == k
  {
    hide Initial, Run, Inv, NewIds, NewChunk, Apply, Enabled, Started, Need;
    if k == 0 {
      acts, s := [], Initial(n, 1);
      InitialInv(n, 1);
      InitialStarted(n, 1);
      InitialBlocks(n, 1);
      RunNone(s);
    } else {
      var before, s0 := ManyQueued(n, k - 1);
      var arrive := Arrive(7, [], 0);
      RoomInNew();
      Admitted(s0, n, k - 1, 7, []);
      s := Apply(s0, arrive);
      StepInv(s0, arrive);
      RunOne(s0, arrive);
      RunConcat(Initial(n, 1), before, s0, [arrive], s);
      acts := before + [arrive];
    }
  }

  lemma RunNone(s: State)
    ensures Run(s, [], s)
  {
  }

  /** With more chunks than jobs, the request that finds no job left strands the chunk it finds. */
  lemma StrandedByShortage(n: nat) returns (acts: seq<Action>, t: State)
    requires MAX_IO_JOBS < n < 0x1_0000_0000_0000_0000
    ensures Run(Initial(n, 1), acts, t) && |acts| == MAX_IO_JOBS + 1 && IsStranded(t.srv, n - MAX_IO_JOBS)
  {
    hide Initial, Run, Inv, IsStranded, Need, NewChunk;
    var before, s := ManyQueued(n, MAX_IO_JOBS);
    var arrive := Arrive(7, [], 0);
    t := Apply(s, arrive);
    RoomInNew();
    var ids := NewIds(n)[MAX_IO_JOBS..];
    assert ids[0] == n - MAX_IO_JOBS && ids[0] in s.srv.mem;
    assert FirstFit(s.srv.chunks, s.srv.mem, Need([])) == 0;
    assert Enabled(s, arrive);
    StrandsExactly(s, arrive, n - MAX_IO_JOBS);
    RunOne(s, arrive);
    RunConcat(Initial(n, 1), before, s, [arrive], t);
    acts := before + [arrive];
  }
}
