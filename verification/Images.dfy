/**
 The recovery of a whole data directory, and what it rebuilds from chunk files that hold a
 superblock and the log it commits.
 */
module Images {
  import opened Codec
  import opened Format
  import opened Readings
  import opened Recovery

  // ---------------------------------------------------------------------------
  // All chunk files, in directory order.

  /** The recovered server: its chunks, last one first, its file index and the largest chunk id. */
  datatype Recovered = Recovered(chunks: seq<Super>, index: Index, maxId: nat)

  predicate HasChunk(chunks: seq<Super>, id: nat) {
    exists i :: 0 <= i < |chunks| && chunks[i].chunkId == id
  }

  function Join(r: Recovered, s: Setup): Option<Recovered> {
    match s
    case Died => None
    case Installed(sb, m) =>
      if HasChunk(r.chunks, sb.chunkId) then None
      else Some(Recovered([sb] + r.chunks, m, if r.maxId < sb.chunkId then sb.chunkId else r.maxId))
  }

  predicate Sized(files: seq<seq<byte>>) {
    forall i :: 0 <= i < |files| ==> |files[i]| >= SUPERBLOCK_SIZE
  }

  function InstallAll(files: seq<seq<byte>>): (r: Option<Recovered>)
    requires Sized(files)
  {
    if files == [] then Some(Recovered([], map[], 0))
    else
      match InstallAll(files[..|files| - 1])
      case None => None
      case Some(r) => Join(r, Install(files[|files| - 1], r.index))
  }

  lemma {:induction false} InstallAllStops(files: seq<seq<byte>>, k: nat)
    requires Sized(files)
    requires k <= |files| && InstallAll(files[..k]) == None
    ensures InstallAll(files) == None
  {
    if k < |files| {
      var init := files[..|files| - 1];
      assert init[..k] == files[..k];
      InstallAllStops(init, k);
    } else {
      assert files[..k] == files;
    }
  }

  /** Whatever the files hold: what is recovered are their superblocks, last one first, no chunk id occurs
      twice among them, and the largest is kept. */
  lemma {:induction false} RecoveredIds(files: seq<seq<byte>>)
    requires Sized(files) && InstallAll(files).Some?
    ensures var v := InstallAll(files).value;
            && |v.chunks| == |files|
            && (forall i :: 0 <= i < |files| ==> ParseSuper(files[i]) == Some(v.chunks[|files| - 1 - i]))
            && (forall i, j :: 0 <= i < j < |v.chunks| ==> v.chunks[i].chunkId != v.chunks[j].chunkId)
            && (forall i :: 0 <= i < |v.chunks| ==> v.chunks[i].chunkId <= v.maxId)
            && (v.maxId == 0 || HasChunk(v.chunks, v.maxId))
  {
    hide ParseSuper, ScanLog, AddFound;
    if files != [] {
      var n := |files| - 1;
      RecoveredIds(files[..n]);
      var r, v := InstallAll(files[..n]).value, InstallAll(files).value;
      var sb := v.chunks[0];
      assert v.chunks == [sb] + r.chunks;
      assert ParseSuper(files[n]) == Some(sb);
      assert v.maxId == 0 || HasChunk(v.chunks, v.maxId) by {
        if v.maxId == sb.chunkId {
          assert v.chunks[0].chunkId == v.maxId;
        } else if v.maxId != 0 {
          var i :| 0 <= i < |r.chunks| && r.chunks[i].chunkId == r.maxId;
          assert v.chunks[i + 1].chunkId == v.maxId;
        }
      }
      forall i | 0 <= i < |files| ensures ParseSuper(files[i]) == Some(v.chunks[n - i]) {
        if i < n { assert files[..n][i] == files[i]; }
      }
    }
  }

  /** A sound file whose log ends inside the range of an int. */
  predicate Recoverable(file: seq<byte>) { Sound(file) && LogEnd(file) < INT_LIMIT }

  lemma RecoverableLoadable(file: seq<byte>)
    requires Recoverable(file)
    ensures Loadable(file) && Ordinary(file)
  {
    hide ParseSuper;
    CompleteSettled(file, SUPERBLOCK_SIZE, LogEnd(file));
    SettledTame(file, SUPERBLOCK_SIZE, LogEnd(file));
  }

  /** Every log ends inside the range of an int. */
  predicate Small(files: seq<seq<byte>>) {
    Sized(files) && forall i :: 0 <= i < |files| ==> LogEnd(files[i]) < INT_LIMIT
  }

  /** What the buffered parser makes of a directory, when `stops` says where reads of each file stop
      short. */
  function LoadAll(files: seq<seq<byte>>, bufSize: nat, stops: seq<set<nat>>): Option<Recovered>
    requires Small(files) && FILE_META_SIZE <= bufSize && |stops| == |files|
  {
    if files == [] then Some(Recovered([], map[], 0))
    else
      var n := |files| - 1;
      match LoadAll(files[..n], bufSize, stops[..n])
      case None => None
      case Some(r) => Join(r, Load(files[n], bufSize, stops[n], r.index))
  }

  lemma {:induction false} LoadAllStops(files: seq<seq<byte>>, bufSize: nat, stops: seq<set<nat>>, k: nat)
    requires Small(files) && FILE_META_SIZE <= bufSize && |stops| == |files|
    requires k <= |files| && LoadAll(files[..k], bufSize, stops[..k]) == None
    ensures LoadAll(files, bufSize, stops) == None
  {
    hide Load, LogEnd, Join;
    if k < |files| {
      var n := |files| - 1;
      assert files[..n][..k] == files[..k] && stops[..n][..k] == stops[..k];
      LoadAllStops(files[..n], bufSize, stops[..n], k);
    } else {
      assert files[..k] == files && stops[..k] == stops;
    }
  }

  predicate AllClean(files: seq<seq<byte>>, bufSize: nat, stops: seq<set<nat>>)
    requires FILE_META_SIZE <= bufSize && |stops| == |files|
  {
    forall i :: 0 <= i < |files| ==> CleanFile(files[i], bufSize, stops[i])
  }

  /** Adding more files to an index that has more: if that works, so does the lesser. */
  lemma AddMore(m: Index, m': Index, chunk: nat, fs: seq<Found>, more: seq<Found>)
    requires m.Keys <= m'.Keys && AddFound(m', chunk, fs + more).Some?
    ensures AddFound(m, chunk, fs).Some?
    ensures AddFound(m, chunk, fs).value.Keys <= AddFound(m', chunk, fs + more).value.Keys
    ensures m.Keys < m'.Keys || more != [] ==>
              AddFound(m, chunk, fs).value.Keys < AddFound(m', chunk, fs + more).value.Keys
  {
    hide AddFound;
    var all := fs + more;
    AddFoundExact(m', chunk, all);
    AddFoundExact(m, chunk, fs);
    assert forall a :: 0 <= a < |fs| ==> all[a] == fs[a];
    var t, t' := AddFound(m, chunk, fs).value, AddFound(m', chunk, all).value;
    if m.Keys < m'.Keys {
      var f :| f in m'.Keys && f !in m.Keys;
      assert f in t' && f !in t;
    }
    if more != [] {
      assert all[|fs|] == more[0];
      assert more[0].fid in t' && more[0].fid !in t;
    }
  }

  /** A file that is loaded, on top of an index that has more, would have been installed; and if it is
      misread it adds more. */
  lemma LoadMore(file: seq<byte>, bufSize: nat, stops: set<nat>, m: Index, m': Index)
    requires |file| >= SUPERBLOCK_SIZE && LogEnd(file) < INT_LIMIT && FILE_META_SIZE <= bufSize
    requires m.Keys <= m'.Keys && Load(file, bufSize, stops, m').Installed?
    ensures Install(file, m).Installed? && Install(file, m).super == Load(file, bufSize, stops, m').super
    ensures Install(file, m).index.Keys <= Load(file, bufSize, stops, m').index.Keys
    ensures m.Keys < m'.Keys || !CleanFile(file, bufSize, stops) ==>
              Install(file, m).index.Keys < Load(file, bufSize, stops, m').index.Keys
  {
    hide ParseSuper, AddFound, ScanLog, Reading.Parsing, Reading.Clean, Reading.Misreads;
    if LogReadable(file) {
      var rd, id := ReadingOf(file, bufSize, stops), ParseSuper(file).value.chunkId;
      var found, p := ScanLog(file, SUPERBLOCK_SIZE, rd.end).found, rd.Parsing(SUPERBLOCK_SIZE, 0);
      rd.ParsingExact(SUPERBLOCK_SIZE, 0);
      var more := p.notes[|found|..];
      assert p.notes == found + more;
      AddMore(m, m', id, found, more);
    }
  }

  /** A directory whose logs end inside the range of an int is recovered as the plain scan would have it
      exactly if every parse is clean, or the plain scan would not have it; and what else is recovered
      has more files in it. */
  lemma {:induction false} LoadAllExact(files: seq<seq<byte>>, bufSize: nat, stops: seq<set<nat>>)
    requires Small(files) && FILE_META_SIZE <= bufSize && |stops| == |files|
    ensures LoadAll(files, bufSize, stops) == InstallAll(files) <==> AllClean(files, bufSize, stops) || InstallAll(files).None?
    ensures LoadAll(files, bufSize, stops).Some? ==>
              && InstallAll(files).Some?
              && InstallAll(files).value.chunks == LoadAll(files, bufSize, stops).value.chunks
              && InstallAll(files).value.index.Keys <= LoadAll(files, bufSize, stops).value.index.Keys
              && (!AllClean(files, bufSize, stops) ==>
                    InstallAll(files).value.index.Keys < LoadAll(files, bufSize, stops).value.index.Keys)
    ensures AllClean(files, bufSize, stops) ==> LoadAll(files, bufSize, stops) == InstallAll(files)
  {
    hide Load, Install, CleanFile, LogEnd, HasChunk;
    if files != [] {
      var n := |files| - 1;
      LoadAllExact(files[..n], bufSize, stops[..n]);
      assert AllClean(files, bufSize, stops) <==> AllClean(files[..n], bufSize, stops[..n]) && CleanFile(files[n], bufSize, stops[n]);
      var l, i := LoadAll(files[..n], bufSize, stops[..n]), InstallAll(files[..n]);
      if l.Some? {
        LoadExact(files[n], bufSize, stops[n], i.value.index);
        if Load(files[n], bufSize, stops[n], l.value.index).Installed? {
          LoadMore(files[n], bufSize, stops[n], i.value.index, l.value.index);
        }
      }
    }
  }

  /** The simple cases of that: full reads of files whose scan stops at an ordinary place, and ordinary
      files however they are read, if anything is recovered. */
  lemma {:induction false} LoadAllMostly(files: seq<seq<byte>>, bufSize: nat, stops: seq<set<nat>>)
    requires Small(files) && FILE_META_SIZE <= bufSize && |stops| == |files|
    ensures (forall i :: 0 <= i < |files| ==> Loadable(files[i]) && stops[i] == {}) ==> AllClean(files, bufSize, stops)
    ensures (forall i :: 0 <= i < |files| ==> Ordinary(files[i])) && LoadAll(files, bufSize, stops).Some? ==>
              AllClean(files, bufSize, stops)
  {
    hide Load, CleanFile, LogEnd, Loadable, Ordinary;
    if files != [] {
      var n := |files| - 1;
      LoadAllMostly(files[..n], bufSize, stops[..n]);
      var l := LoadAll(files[..n], bufSize, stops[..n]);
      LoadExact(files[n], bufSize, stops[n], if l.Some? then l.value.index else map[]);
      assert AllClean(files, bufSize, stops) <==> AllClean(files[..n], bufSize, stops[..n]) && CleanFile(files[n], bufSize, stops[n]);
    }
  }

  /** The loop over the directory, with the buffered parser, however its reads are cut up. Where every
      log ends inside the range of an int, it recovers what the plain scan would have exactly if every
      parse is clean (or the plain scan would not have it). */
  method RecoverAll(files: seq<seq<byte>>, bufSize: nat, stops: seq<set<nat>>) returns (r: Option<Recovered>)
    requires FILE_META_SIZE <= bufSize < INT_LIMIT && Sized(files) && |stops| == |files|
    ensures Small(files) ==> r == LoadAll(files, bufSize, stops)
    ensures Small(files) ==> (r == InstallAll(files) <==> AllClean(files, bufSize, stops) || InstallAll(files).None?)
    ensures (forall i :: 0 <= i < |files| ==> Loadable(files[i]) && stops[i] == {}) ==> r == InstallAll(files)
    ensures (forall i :: 0 <= i < |files| ==> Ordinary(files[i])) && r.Some? ==> r == InstallAll(files)
  {
    hide Ordinary, Loadable, Install, Load, Sound, LogEnd, CleanFile;
    var acc := Recovered([], map[], 0);
    SmallIf(files);
    if Small(files) {
      LoadAllExact(files, bufSize, stops);
      LoadAllMostly(files, bufSize, stops);
    }
    for i := 0 to |files|
      invariant Small(files) ==> LoadAll(files[..i], bufSize, stops[..i]) == Some(acc)
    {
      var s := SetupChunk(files[i], bufSize, stops[i], acc.index);
      assert files[..i + 1][..i] == files[..i] && stops[..i + 1][..i] == stops[..i];
      var joined := Join(acc, s);
      if joined == None {
        if Small(files) { LoadAllStops(files, bufSize, stops, i + 1); }
        return None;
      }
      acc := joined.value;
    }
    assert files[..|files|] == files && stops[..|files|] == stops;
    r := Some(acc);
  }

  lemma SmallIf(files: seq<seq<byte>>)
    requires Sized(files)
    ensures (forall i :: 0 <= i < |files| ==> Ordinary(files[i])) ==> Small(files)
    ensures (forall i :: 0 <= i < |files| ==> Loadable(files[i])) ==> Small(files)
  {
    hide ParseSuper, Tame, Settled;
  }

  // ---------------------------------------------------------------------------
  // What the index of a chunk consists of.

  lemma {:induction false} FindsAt(rs: seq<Record>, pos: nat, k: nat)
    requires k < |rs|
    ensures |Finds(rs, pos)| == |rs|
    ensures Finds(rs, pos)[k] == Found(rs[k].fid, pos + |Log(rs[..k])|, FILE_META_SIZE + |rs[k].data|)
  {
    hide Encode;
    var next := pos + FILE_META_SIZE + |rs[0].data|;
    if k > 0 {
      FindsAt(rs[1..], next, k - 1);
      assert rs[..k] == [rs[0]] + rs[1..][..k - 1];
      LogCons(rs[0], rs[1..][..k - 1]);
    } else if |rs| > 1 {
      FindsAt(rs[1..], next, 0);
    }
  }

  /** A chunk file as its writer sees it: what its superblock says, and the records it commits. */
  datatype Image = Image(super: Super, log: seq<Record>)

  predicate Holds(file: seq<byte>, img: Image) {
    && SuperFits(img.super) && AllFit(img.log)
    && SUPERBLOCK_SIZE + |Log(img.log)| == img.super.currentOffset <= |file|
    && file[..SUPERBLOCK_SIZE] == EncodeSuper(img.super)
    && file[SUPERBLOCK_SIZE..img.super.currentOffset] == Log(img.log)
  }

  /** The index entry of the `k`-th record of the log of chunk `id`. */
  function EntryAt(id: nat, log: seq<Record>, k: nat): Entry
    requires k < |log|
  {
    Entry(id, SUPERBLOCK_SIZE + |Log(log[..k])|, FILE_META_SIZE + |log[k].data|)
  }

  function EntryOf(img: Image, k: nat): Entry
    requires k < |img.log|
  {
    EntryAt(img.super.chunkId, img.log, k)
  }

  /** Recovery parses such a file back, record by record, and reads nothing behind the log. */
  lemma InstallOfImage(file: seq<byte>, img: Image, index: Index)
    requires Holds(file, img)
    ensures Sound(file) && LogEnd(file) == img.super.currentOffset
    ensures Install(file, index) ==
            SetupOf(img, AddFound(index, img.super.chunkId, Finds(img.log, SUPERBLOCK_SIZE)))
  {
    hide ParseSuper, EncodeSuper, AddFound, Finds, Log, AllFit;
    ParseSuperOfEncoded(img.super, file[SUPERBLOCK_SIZE..]);
    assert file == file[..SUPERBLOCK_SIZE] + file[SUPERBLOCK_SIZE..];
    ScanOfLog(file, SUPERBLOCK_SIZE, img.super.currentOffset, img.log);
  }

  /** No fid occurs twice in the logs of a directory. */
  predicate FidsDistinct(imgs: seq<Image>) {
    forall i, k, j, l ::
      0 <= i < |imgs| && 0 <= k < |imgs[i].log| && 0 <= j < |imgs| && 0 <= l < |imgs[j].log| && (i, k) != (j, l) ==>
        imgs[i].log[k].fid != imgs[j].log[l].fid
  }

  /** The index has exactly one entry for each record, and it says where the record is. */
  predicate Covers(index: Index, imgs: seq<Image>) {
    && (forall i, k :: 0 <= i < |imgs| && 0 <= k < |imgs[i].log| ==>
          imgs[i].log[k].fid in index && index[imgs[i].log[k].fid] == EntryOf(imgs[i], k))
    && (forall f :: f in index ==>
          exists i, k :: 0 <= i < |imgs| && 0 <= k < |imgs[i].log| && imgs[i].log[k].fid == f)
  }

  predicate LogDistinct(log: seq<Record>) {
    forall k, l :: 0 <= k < l < |log| ==> log[k].fid != log[l].fid
  }

  /** `m` is `index` with one entry more for each record of `img`. */
  predicate Extends(m: Index, index: Index, img: Image) {
    && (forall k :: 0 <= k < |img.log| ==> img.log[k].fid in m && m[img.log[k].fid] == EntryOf(img, k))
    && (forall f :: f in index ==> f in m && m[f] == index[f])
    && (forall f :: f in m ==> f in index || exists k :: 0 <= k < |img.log| && img.log[k].fid == f)
  }

  lemma AddImageExact(index: Index, img: Image)
    ensures var r := AddFound(index, img.super.chunkId, Finds(img.log, SUPERBLOCK_SIZE));
            && (r.Some? <==> LogDistinct(img.log) && forall k :: 0 <= k < |img.log| ==> img.log[k].fid !in index)
            && (r.Some? ==> Extends(r.value, index, img))
  {
    hide AddFound, Finds, Log;
    var fs := Finds(img.log, SUPERBLOCK_SIZE);
    AddFoundExact(index, img.super.chunkId, fs);
    assert |fs| == |img.log| by { FindsLength(img.log, SUPERBLOCK_SIZE); }
    forall k | 0 <= k < |fs|
      ensures fs[k].fid == img.log[k].fid
      ensures Entry(img.super.chunkId, fs[k].offset, fs[k].size) == EntryOf(img, k)
    {
      FindsAt(img.log, SUPERBLOCK_SIZE, k);
    }
  }

  lemma FindsLength(rs: seq<Record>, pos: nat)
    ensures |Finds(rs, pos)| == |rs|
  {
    if rs != [] { FindsAt(rs, pos, 0); }
  }

  lemma DistinctSnoc(imgs: seq<Image>)
    requires imgs != []
    ensures var (init, last) := (imgs[..|imgs| - 1], imgs[|imgs| - 1]);
            FidsDistinct(imgs) <==>
            && FidsDistinct(init) && LogDistinct(last.log)
            && (forall i, k, l :: 0 <= i < |init| && 0 <= k < |init[i].log| && 0 <= l < |last.log| ==>
                  init[i].log[k].fid != last.log[l].fid)
  {
    var (init, last) := (imgs[..|imgs| - 1], imgs[|imgs| - 1]);
    assert forall i :: 0 <= i < |init| ==> init[i] == imgs[i];
    if FidsDistinct(imgs) {
      forall i, k, j, l | 0 <= i < |init| && 0 <= k < |init[i].log| && 0 <= j < |init| && 0 <= l < |init[j].log| && (i, k) != (j, l)
        ensures init[i].log[k].fid != init[j].log[l].fid
      {
        assert imgs[i].log[k].fid != imgs[j].log[l].fid;
      }
      var n := |imgs| - 1;
      forall k, l | 0 <= k < l < |last.log| ensures last.log[k].fid != last.log[l].fid {
        assert imgs[n].log[k].fid != imgs[n].log[l].fid;
      }
      forall i, k, l | 0 <= i < |init| && 0 <= k < |init[i].log| && 0 <= l < |last.log|
        ensures init[i].log[k].fid != last.log[l].fid
      {
        assert imgs[i].log[k].fid != imgs[n].log[l].fid;
      }
    }
  }

  lemma CoversSnoc(index: Index, m: Index, imgs: seq<Image>)
    requires imgs != [] && Covers(index, imgs[..|imgs| - 1]) && Extends(m, index, imgs[|imgs| - 1])
    ensures Covers(m, imgs)
  {
    hide EntryOf;
    var (init, last) := (imgs[..|imgs| - 1], imgs[|imgs| - 1]);
    assert forall i :: 0 <= i < |init| ==> init[i] == imgs[i];
    forall f | f in m
      ensures exists i, k :: 0 <= i < |imgs| && 0 <= k < |imgs[i].log| && imgs[i].log[k].fid == f
    {
      if f in index {
        var i, k :| 0 <= i < |init| && 0 <= k < |init[i].log| && init[i].log[k].fid == f;
        assert imgs[i].log[k].fid == f;
      } else {
        var k :| 0 <= k < |last.log| && last.log[k].fid == f;
        assert imgs[|imgs| - 1].log[k].fid == f;
      }
    }
  }

  /** The chunks of a recovery, last one first. */
  predicate Chunks(chunks: seq<Super>, imgs: seq<Image>) {
    |chunks| == |imgs| && forall i :: 0 <= i < |imgs| ==> chunks[|imgs| - 1 - i] == imgs[i].super
  }

  predicate IdsDistinct(imgs: seq<Image>) {
    forall i, j :: 0 <= i < j < |imgs| ==> imgs[i].super.chunkId != imgs[j].super.chunkId
  }

  lemma NoChunkYet(chunks: seq<Super>, imgs: seq<Image>)
    requires imgs != [] && IdsDistinct(imgs) && Chunks(chunks, imgs[..|imgs| - 1])
    ensures !HasChunk(chunks, imgs[|imgs| - 1].super.chunkId)
    ensures Chunks([imgs[|imgs| - 1].super] + chunks, imgs)
  {
    var n := |imgs| - 1;
    forall i | 0 <= i < |chunks| ensures chunks[i].chunkId != imgs[n].super.chunkId {
      assert chunks[n - 1 - (n - 1 - i)] == imgs[..n][n - 1 - i].super;
    }
    forall i | 0 <= i < |imgs| ensures ([imgs[n].super] + chunks)[n - i] == imgs[i].super {
      if i < n { assert chunks[n - 1 - i] == imgs[..n][i].super; }
    }
  }

  /** A new fid is in the index exactly when some earlier record has it. */
  lemma CrossDistinct(index: Index, init: seq<Image>, log: seq<Record>)
    requires Covers(index, init)
    ensures (forall l :: 0 <= l < |log| ==> log[l].fid !in index) <==>
            (forall i, k, l :: 0 <= i < |init| && 0 <= k < |init[i].log| && 0 <= l < |log| ==>
               init[i].log[k].fid != log[l].fid)
  {
    hide EntryOf;
    if l :| 0 <= l < |log| && log[l].fid in index {
      var i, k :| 0 <= i < |init| && 0 <= k < |init[i].log| && init[i].log[k].fid == log[l].fid;
    }
  }

  function SetupOf(img: Image, added: Option<Index>): Setup {
    match added
    case None => Died
    case Some(m) => Installed(img.super, m)
  }

  lemma RecoveryStep(r: Recovered, added: Option<Index>, imgs: seq<Image>)
    requires imgs != [] && IdsDistinct(imgs) && FidsDistinct(imgs[..|imgs| - 1])
    requires Covers(r.index, imgs[..|imgs| - 1]) && Chunks(r.chunks, imgs[..|imgs| - 1])
    requires var last := imgs[|imgs| - 1];
             added == AddFound(r.index, last.super.chunkId, Finds(last.log, SUPERBLOCK_SIZE))
    ensures var joined := Join(r, SetupOf(imgs[|imgs| - 1], added));
            && (joined.Some? <==> FidsDistinct(imgs))
            && (joined.Some? ==> Covers(joined.value.index, imgs) && Chunks(joined.value.chunks, imgs))
  {
    hide AddFound, Finds, FidsDistinct, Covers, Extends, LogDistinct, Chunks, HasChunk, IdsDistinct;
    var (init, last) := (imgs[..|imgs| - 1], imgs[|imgs| - 1]);
    DistinctSnoc(imgs);
    CrossDistinct(r.index, init, last.log);
    AddImageExact(r.index, last);
    NoChunkYet(r.chunks, imgs);
    if added.Some? {
      CoversSnoc(r.index, added.value, imgs);
    }
  }

  predicate HoldAll(files: seq<seq<byte>>, imgs: seq<Image>) {
    |files| == |imgs| && forall i :: 0 <= i < |files| ==> Holds(files[i], imgs[i])
  }

  /** Recovery succeeds exactly when no fid occurs twice among the committed records, and then
      the index it builds has exactly their entries. */
  lemma {:induction false} RecoveryExact(files: seq<seq<byte>>, imgs: seq<Image>)
    requires Sized(files) && HoldAll(files, imgs) && IdsDistinct(imgs)
    ensures InstallAll(files).Some? <==> FidsDistinct(imgs)
    ensures InstallAll(files).Some? ==>
              Covers(InstallAll(files).value.index, imgs) && Chunks(InstallAll(files).value.chunks, imgs)
  {
    hide Holds, Install, FidsDistinct, Covers, Join, AddFound, Finds, SetupOf, Sound;
    if files != [] {
      var n := |files| - 1;
      assert imgs[..n] == imgs[..|imgs| - 1];
      RecoveryExact(files[..n], imgs[..n]);
      DistinctSnoc(imgs);
      if InstallAll(files[..n]).Some? {
        var r, last := InstallAll(files[..n]).value, imgs[n];
        InstallOfImage(files[n], last, r.index);
        RecoveryStep(r, AddFound(r.index, last.super.chunkId, Finds(last.log, SUPERBLOCK_SIZE)), imgs);
      }
    } else {
      NoImages();
    }
  }

  lemma NoImages()
    ensures FidsDistinct([]) && Covers(map[], [])
  {
  }
}
