/** A crash at any point and the recovery after it. */
module Crash {
  import opened Codec
  import opened Format
  import opened Recovery
  import opened Images
  import opened Chunks
  import opened Engine
  import opened EngineInv

  /** The chunk files in a directory order, as the superblocks on disk commit them. */
  ghost function DurableImages(s: State, order: seq<nat>): (r: seq<Image>)
    requires CellsOk(s) && Lists(order, s.disk)
    ensures |r| == |order|
  {
    seq(|order|, i requires 0 <= i < |order| => ImageAt(s, order[i]))
  }

  ghost function ImageAt(s: State, id: nat): Image
    requires CellsOk(s) && id in s.disk
  {
    assert id in s.srv.mem;
    DurableImage(id, s.hist.logs[id], s.hist.durable[id], CHUNK_SIZE)
  }

  lemma CrashImages(s: State, order: seq<nat>)
    requires CellsOk(s) && Lists(order, s.disk)
    ensures var (files, imgs) := (FilesIn(s.disk, order), DurableImages(s, order));
            Sized(files) && HoldAll(files, imgs) && IdsDistinct(imgs)
  {
    hide ChunkOk, Holds, CountersFor, AllChecked;
    var (files, imgs) := (FilesIn(s.disk, order), DurableImages(s, order));
    forall i | 0 <= i < |order|
      ensures Holds(files[i], imgs[i]) && |files[i]| >= SUPERBLOCK_SIZE
    {
      CrashAt(s, order[i]);
    }
  }

  lemma CrashAt(s: State, id: nat)
    requires CellsOk(s) && id in s.disk
    ensures Holds(s.disk[id], ImageAt(s, id)) && |s.disk[id]| >= SUPERBLOCK_SIZE
  {
    hide Holds, Log, EncodeSuper, AllChecked;
    assert id in s.srv.mem;
    CrashChunk(id, s.srv.mem[id], s.disk[id], s.hist.logs[id], s.hist.durable[id], CHUNK_SIZE);
  }

  /** Recovery from any state of a run succeeds exactly when no fid is committed twice. */
  lemma RestartExact(s: State, order: seq<nat>)
    requires CellsOk(s) && Lists(order, s.disk)
    ensures CanRestart(s.disk, order) <==> FidsDistinct(DurableImages(s, order))
    ensures CanRestart(s.disk, order) ==>
              var r := InstallAll(FilesIn(s.disk, order)).value;
              Covers(r.index, DurableImages(s, order)) && Images.Chunks(r.chunks, DurableImages(s, order))
  {
    hide FidsDistinct, Covers, InstallAll, Images.Chunks, CellsOk, DurableImages, HoldAll, Sized, IdsDistinct, FilesIn;
    CrashImages(s, order);
    RecoveryExact(FilesIn(s.disk, order), DurableImages(s, order));
  }

  // ---------------------------------------------------------------------------
  // The recovered state.

  lemma {:induction false} CountersAt(chunks: seq<Super>, i: nat)
    requires i < |chunks| && forall a, b :: 0 <= a < b < |chunks| ==> chunks[a].chunkId != chunks[b].chunkId
    ensures chunks[i].chunkId in Counters(chunks)
    ensures var sb := chunks[i];
            Counters(chunks)[sb.chunkId] == Chunk(sb.filesAlloc, sb.filesCount, sb.currentOffset, sb.availSpace)
  {
    if i > 0 { CountersAt(chunks[1..], i - 1); }
  }

  lemma {:induction false} CountersKeys(chunks: seq<Super>)
    ensures forall id :: id in Counters(chunks) <==> HasChunk(chunks, id)
  {
    if chunks != [] {
      var rest := chunks[1..];
      CountersKeys(rest);
      forall id ensures HasChunk(chunks, id) <==> id == chunks[0].chunkId || HasChunk(rest, id) {
        if HasChunk(rest, id) {
          var i :| 0 <= i < |rest| && rest[i].chunkId == id;
          assert chunks[i + 1].chunkId == id;
        }
        if HasChunk(chunks, id) && id != chunks[0].chunkId {
          var i :| 0 <= i < |chunks| && chunks[i].chunkId == id;
          assert rest[i - 1].chunkId == id;
        }
      }
    }
  }

  /** The recovered chunk list is the directory order, last file first, each with the counters
      its superblock commits. */
  lemma BootedChunks(s: State, order: seq<nat>, chunks: seq<Super>)
    requires CellsOk(s) && Lists(order, s.disk) && Images.Chunks(chunks, DurableImages(s, order))
    ensures NoDup(Ids(chunks)) && (forall id :: id in Ids(chunks) <==> id in s.disk)
    ensures Counters(chunks).Keys == s.disk.Keys
    ensures forall id :: id in s.disk ==> SuperOf(id, Counters(chunks)[id]) == ImageAt(s, id).super
  {
    hide CellsOk, ImageAt, Counters, HasChunk;
    var (imgs, n) := (DurableImages(s, order), |order|);
    forall i | 0 <= i < n ensures chunks[i].chunkId == order[n - 1 - i] && chunks[i] == ImageAt(s, order[n - 1 - i]).super {
      assert chunks[n - 1 - (n - 1 - i)] == imgs[n - 1 - i].super;
      ImageId(s, order[n - 1 - i]);
    }
    CountersKeys(chunks);
    forall id ensures HasChunk(chunks, id) <==> id in s.disk {
      HasId(chunks, id);
      if id in s.disk {
        var i :| 0 <= i < n && order[i] == id;
        assert chunks[n - 1 - i].chunkId == id;
      }
    }
    forall id | id in s.disk
      ensures id in Counters(chunks) && SuperOf(id, Counters(chunks)[id]) == ImageAt(s, id).super
      ensures id in Ids(chunks)
    {
      var i :| 0 <= i < n && order[i] == id;
      assert chunks[n - 1 - i].chunkId == id && Ids(chunks)[n - 1 - i] == id;
      CountersAt(chunks, n - 1 - i);
    }
  }

  lemma HasId(chunks: seq<Super>, id: nat)
    ensures HasChunk(chunks, id) <==> exists i :: 0 <= i < |chunks| && chunks[i].chunkId == id
  {
  }

  lemma ImageId(s: State, id: nat)
    requires CellsOk(s) && id in s.disk
    ensures ImageAt(s, id).super.chunkId == id
    ensures ImageAt(s, id).log == s.hist.logs[id][..s.hist.durable[id]]
  {
    hide Log, ChunkOk;
  }

  lemma CrashCell(s: State, id: nat, c: Chunk)
    requires CellsOk(s) && id in s.disk && SuperOf(id, c) == ImageAt(s, id).super
    ensures s.hist.durable[id] <= |s.hist.logs[id]|
    ensures var (rs, d) := (s.hist.logs[id][..s.hist.durable[id]], s.hist.durable[id]);
            ChunkOk(id, c, s.disk[id], rs, d, CHUNK_SIZE) && AllChecked(rs)
  {
    hide ChunkOk, CountersFor, AllChecked;
    assert id in s.srv.mem && id in s.hist.logs;
    Bounds(id, s.srv.mem[id], s.disk[id], s.hist.logs[id], s.hist.durable[id]);
    CrashChunk(id, s.srv.mem[id], s.disk[id], s.hist.logs[id], s.hist.durable[id], CHUNK_SIZE);
    CheckedPrefix(s.hist.logs[id], s.hist.durable[id]);
  }

  /** The same disk with the counters and logs of a recovery. */
  lemma CrashCells(s: State, t: State)
    requires CellsOk(s) && t.disk == s.disk && t.hist.durable == s.hist.durable
    requires t.srv.mem.Keys == s.disk.Keys && t.hist.logs.Keys == s.disk.Keys
    requires forall id :: id in s.disk ==> SuperOf(id, t.srv.mem[id]) == ImageAt(s, id).super
    requires forall id :: id in s.disk && s.hist.durable[id] <= |s.hist.logs[id]| ==>
               t.hist.logs[id] == s.hist.logs[id][..s.hist.durable[id]]
    ensures CellsOk(t)
  {
    hide ChunkOk, AllChecked, ImageAt;
    forall id | id in s.disk
      ensures ChunkOk(id, t.srv.mem[id], t.disk[id], t.hist.logs[id], t.hist.durable[id], CHUNK_SIZE)
      ensures AllChecked(t.hist.logs[id])
    {
      CrashCell(s, id, t.srv.mem[id]);
    }
  }

  lemma Bounds(id: nat, c: Chunk, file: seq<byte>, rs: seq<Record>, d: nat)
    requires ChunkOk(id, c, file, rs, d, CHUNK_SIZE)
    ensures d <= |rs| && SUPERBLOCK_SIZE + |Log(rs[..d])| <= CHUNK_SIZE
  {
    hide Log, EncodeSuper;
  }

  lemma CheckedPrefix(rs: seq<Record>, d: nat)
    requires AllChecked(rs) && d <= |rs|
    ensures AllChecked(rs[..d])
  {
    hide Checked;
    forall i | 0 <= i < d ensures Checked(rs[..d][i]) {
      assert Checked(rs[i]);
    }
  }

  lemma {:induction false} OffsetsGrow(rs: seq<Record>, k: nat, l: nat)
    requires k < l <= |rs|
    ensures |Log(rs[..k])| < |Log(rs[..l])|
  {
    hide Encode;
    LogUpTo(rs, l - 1);
    if k < l - 1 { OffsetsGrow(rs, k, l - 1); }
  }

  /** An entry belongs to one record of its chunk. */
  lemma SameRecord(id: nat, rs: seq<Record>, k: nat, l: nat)
    requires k < |rs| && l < |rs| && EntryAt(id, rs, k) == EntryAt(id, rs, l)
    ensures k == l
  {
    hide Log;
    if k < l { OffsetsGrow(rs, k, l); }
    if l < k { OffsetsGrow(rs, l, k); }
  }

  /** The logs of `t` are those that the superblocks of `s` commit. */
  ghost predicate Committed(s: State, t: State)
    requires CellsOk(s)
  {
    && t.hist.logs.Keys == s.disk.Keys
    && (forall id :: id in s.disk ==> t.hist.logs[id] == ImageAt(s, id).log)
  }

  lemma CoveredIndexed(s: State, t: State, order: seq<nat>, f: nat)
    requires CellsOk(s) && Lists(order, s.disk) && Committed(s, t)
    requires Covers(t.srv.index, DurableImages(s, order)) && f in t.srv.index
    ensures Indexed(t.hist.logs, f, t.srv.index[f])
  {
    hide CellsOk, Log, ImageAt;
    var imgs := DurableImages(s, order);
    var i, k :| 0 <= i < |imgs| && 0 <= k < |imgs[i].log| && imgs[i].log[k].fid == f;
    var id := order[i];
    assert imgs[i] == ImageAt(s, id);
    ImageId(s, id);
    assert Locates(t.hist.logs, f, t.srv.index[f], k);
  }

  lemma CommittedPrefix(s: State, t: State, id: nat)
    requires CellsOk(s) && Committed(s, t) && id in s.hist.logs
    ensures id in t.hist.logs && t.hist.logs[id] <= s.hist.logs[id]
    ensures s.hist.durable[id] == |t.hist.logs[id]|
  {
    hide ChunkOk, Log;
    assert id in s.srv.mem;
    Bounds(id, s.srv.mem[id], s.disk[id], s.hist.logs[id], s.hist.durable[id]);
    ImageId(s, id);
  }

  /** A file that recovery finds where it was holds the data it held. */
  lemma CrashData(s: State, t: State, f: nat, e: Entry, data: seq<byte>)
    requires CellsOk(s) && Committed(s, t)
    requires HoldsData(s.hist.logs, f, e, data) && Indexed(t.hist.logs, f, e)
    ensures HoldsData(t.hist.logs, f, e, data)
  {
    hide CellsOk, Committed, Log;
    var k: nat :| Locates(s.hist.logs, f, e, k) && s.hist.logs[e.chunk][k].data == data;
    var l: nat :| Locates(t.hist.logs, f, e, l);
    CommittedPrefix(s, t, e.chunk);
    LocatesGrow(t.hist.logs, s.hist.logs, f, e, l);
    SameRecord(e.chunk, s.hist.logs[e.chunk], k, l);
  }

  lemma AfterCrashLogs(s: State, before: Index, after: Index, t: State)
    requires CellsOk(s) && t.hist == AfterCrash(s.hist, before, after)
    ensures Committed(s, t)
  {
    hide ChunkOk, ImageAt;
    assert t.hist.logs.Keys == s.hist.logs.Keys;
    forall id | id in s.disk ensures t.hist.logs[id] == ImageAt(s, id).log {
      assert id in s.srv.mem;
      Bounds(id, s.srv.mem[id], s.disk[id], s.hist.logs[id], s.hist.durable[id]);
      ImageId(s, id);
    }
  }

  lemma BootedBooks(r: Recovered)
    requires NoDup(Ids(r.chunks)) && forall id :: id in Ids(r.chunks) <==> id in Counters(r.chunks)
    ensures Books(Booted(r))
  {
    hide Ids, Counters;
  }

  lemma RestartCells(s: State, order: seq<nat>)
    requires CellsOk(s) && Enabled(s, Restart(order))
    ensures var t := Apply(s, Restart(order));
            CellsOk(t) && Committed(s, t) && Books(t.srv) && Covers(t.srv.index, DurableImages(s, order))
  {
    hide CellsOk, Covers, InstallAll, Images.Chunks, FidsDistinct, Counters, Ids, Books, AfterCrash;
    var t := Apply(s, Restart(order));
    var r := InstallAll(FilesIn(s.disk, order)).value;
    RestartExact(s, order);
    BootedChunks(s, order, r.chunks);
    BootedBooks(r);
    AfterCrashLogs(s, s.srv.index, r.index, t);
    assert t.hist.durable == s.hist.durable by { DurableSame(s.hist, s.srv.index, r.index); }
    CommittedCells(s, t);
  }

  lemma DurableSame(h: History, before: Index, after: Index)
    ensures AfterCrash(h, before, after).durable == h.durable
  {
  }

  lemma CommittedCells(s: State, t: State)
    requires CellsOk(s) && Committed(s, t) && t.disk == s.disk && t.hist.durable == s.hist.durable
    requires t.srv.mem.Keys == s.disk.Keys
    requires forall id :: id in s.disk ==> SuperOf(id, t.srv.mem[id]) == ImageAt(s, id).super
    ensures CellsOk(t)
  {
    hide ImageAt, ChunkOk;
    forall id | id in s.disk
      ensures s.hist.durable[id] <= |s.hist.logs[id]|
      ensures t.hist.logs[id] == s.hist.logs[id][..s.hist.durable[id]]
    {
      assert id in s.srv.mem;
      Bounds(id, s.srv.mem[id], s.disk[id], s.hist.logs[id], s.hist.durable[id]);
      ImageId(s, id);
    }
    CrashCells(s, t);
  }

  lemma RestartInv(s: State, order: seq<nat>)
    requires Inv(s) && Enabled(s, Restart(order))
    ensures Inv(Apply(s, Restart(order)))
  {
    hide Books, CellsOk, Covers, InstallAll, Images.Chunks, Counters, Ids, HoldsData, Indexed;
    var t := Apply(s, Restart(order));
    RestartCells(s, order);
    forall f | f in t.srv.index ensures Indexed(t.hist.logs, f, t.srv.index[f]) {
      CoveredIndexed(s, t, order, f);
    }
    forall f | f in t.hist.acked
      ensures f in t.srv.index && HoldsData(t.hist.logs, f, t.srv.index[f], t.hist.acked[f])
    {
      CrashData(s, t, f, s.srv.index[f], s.hist.acked[f]);
    }
    BooksInv(t);
  }

  /** Every step keeps the invariant. */
  lemma StepInv(s: State, a: Action)
    requires Inv(s) && Enabled(s, a)
    ensures Inv(Apply(s, a))
  {
    hide Inv, Enabled, Apply;
    match a
    case Arrive(fid, data, now) => ArriveInv(s, fid, data, now);
    case Begin(j, rec) => BeginInv(s, j, rec);
    case Write(j, n) => WriteInv(s, j, n);
    case Fail(j) => FailInv(s, j);
    case Count(j) => CountInv(s, j);
    case Seal(j, ok) => SealInv(s, j, ok);
    case Done(j) => DoneInv(s, j);
    case Kill => KillInv(s);
    case Timeout(now) => assert now >= s.clock by { TimeoutClock(s, now); } TimeoutInv(s, now);
    case StartRead(fid, room) => StartReadInv(s, fid, room);
    case Fetch(j, n) => FetchInv(s, j, n);
    case EndRead(j) => ReaderThere(s, a, j); EndReadInv(s, j);
    case FailRead(j) => ReaderThere(s, a, j); EndReadInv(s, j);
    case Restart(order) => RestartInv(s, order);
  }

  lemma ReaderThere(s: State, a: Action, j: nat)
    requires (a == EndRead(j) || a == FailRead(j)) && Enabled(s, a)
    ensures j in s.srv.readers && Apply(s, a) == s.(srv := Release(s.srv, j))
  {
  }

  lemma TimeoutClock(s: State, now: nat)
    requires Enabled(s, Timeout(now))
    ensures now >= s.clock
  {
  }
}
