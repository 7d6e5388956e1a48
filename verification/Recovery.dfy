/**
 Rebuilding the file index of a chunk: the buffered parser, the index that it fills, and what becomes
 of a chunk file.
 */
module Recovery {
  import opened Codec
  import opened Format
  import opened Readings
  import opened RwBuffers

  datatype Fill = Ready | NoMore | TooShort

  // ---------------------------------------------------------------------------
  // The buffered parser.

  class Parser {
    const file: seq<byte>
    const end: nat         // the chunk's current offset: the end of the log
    const stops: set<nat>  // where reads stop short
    var filePos: nat       // where the file descriptor is
    var fpos: int          // the parser's count of that, an int
    const buf: array<byte>
    var bufPos: nat
    var bufLeft: nat

    /** Where the log or the file ends. */
    function Limit(): int { Min(end, |file|) }

    /** The buffer holds the `bufLeft` bytes of the file before the descriptor, and nothing past the
        end of the log has been read. */
    ghost predicate Valid()
      reads this, buf
    {
      && FILE_META_SIZE <= buf.Length < INT_LIMIT
      && bufPos + bufLeft <= buf.Length
      && bufLeft <= filePos <= Limit() && fpos == Int32(filePos)
      && Window(buf[..], bufPos, bufLeft, file, filePos)
    }

    /** How far the log has been consumed. */
    ghost function Pos(): int
      reads this
    {
      filePos - bufLeft
    }

    /** The parser believes that nothing is left to read, or there is nothing. */
    ghost predicate Stuck()
      reads this
    {
      Int32(end - filePos) <= 0 || filePos == |file|
    }

    /** The log as it is read. */
    function Reads(): Reading { Reading(file, end, buf.Length, stops) }

    constructor (file: seq<byte>, fpos: nat, end: nat, bufSize: nat, stops: set<nat>)
      requires fpos <= end && fpos <= |file| && fpos < INT_LIMIT && FILE_META_SIZE <= bufSize < INT_LIMIT
      ensures Valid() && fresh(buf) && Pos() == filePos == fpos && bufLeft == 0 && buf.Length == bufSize
      ensures this.file == file && this.end == end && this.stops == stops
    {
      this.file, this.filePos, this.fpos, this.end, this.stops := file, fpos, fpos, end, stops;
      buf, bufPos, bufLeft := new byte[bufSize], 0, 0;
    }

    /** read(2) on the chunk file, which does not fail: nothing at the end of the file, otherwise
        between one byte and all of them. */
    method Read(at: nat, want: nat) returns (n: nat)
      requires 0 < want && at + want <= buf.Length && filePos <= |file|
      modifies buf
      ensures n == Delivered(stops, filePos, Min(want, |file| - filePos))
      ensures buf[..][..at] == old(buf[..])[..at] && buf[..][at..at + n] == file[filePos..filePos + n]
    {
      n := Delivered(stops, filePos, Min(want, |file| - filePos));
      Memcpy(buf, at, file[filePos..filePos + n]);
      SplicePrefix(old(buf[..]), at, file[filePos..filePos + n]);
    }

    /** Moves the bytes left in the buffer to its front. */
    method Compact()
      requires Valid()
      modifies this`bufPos, buf
      ensures Valid() && bufPos == 0
    {
      var kept := buf[bufPos..bufPos + bufLeft];
      if bufLeft > 0 {
        Memcpy(buf, 0, kept);
      }
      bufPos := 0;
      assert buf[..][0..bufLeft] == kept;
    }

    /** Reads on behind the bytes at the front of the buffer. */
    method ReadOn(want: nat) returns (ok: bool)
      requires Valid() && bufPos == 0 && 0 < want && bufLeft + want <= buf.Length && filePos + want <= end
      modifies this`filePos, this`fpos, this`bufLeft, buf
      ensures Valid() && Pos() == old(Pos()) && old(filePos) <= filePos <= old(filePos) + want
      ensures ok <==> old(filePos) < |file|
      ensures ok ==> old(filePos) < filePos
      ensures filePos == old(filePos) + Delivered(stops, old(filePos), Min(want, |file| - old(filePos)))
    {
      hide Window, Int32;
      var n := Read(bufLeft, want);
      if n == 0 {
        WindowGrows(old(buf[..]), buf[..], bufLeft, 0, file, filePos);
        return false;
      }
      WindowGrows(old(buf[..]), buf[..], bufLeft, n, file, filePos);
      Int32Shift(filePos, n);
      bufLeft := bufLeft + n;
      fpos := Int32(fpos + n);
      filePos := filePos + n;
      ok := true;
    }

    /** How much the parser believes to be left of the log. */
    method Remaining() returns (fleft: int)
      requires Valid()
      ensures fleft == Int32(end - filePos) && (fleft > 0 ==> filePos + fleft <= end)
      ensures end < INT_LIMIT ==> fleft == end - filePos
    {
      fleft := Int32(end - fpos);
      Int32Shift(filePos, end);
      Int32Below(end - filePos);
    }

    /** Sees to it that a meta block is in the buffer. */
    method FillHeader() returns (r: Fill)
      requires Valid()
      modifies this`filePos, this`fpos, this`bufPos, this`bufLeft, buf
      ensures Valid() && Pos() == old(Pos())
      ensures r == Ready ==> FILE_META_SIZE <= bufLeft
      ensures r == NoMore ==> Stuck() && bufLeft == old(bufLeft) < FILE_META_SIZE && filePos == old(filePos)
      ensures r == TooShort ==> old(filePos) < filePos && bufLeft < FILE_META_SIZE
      ensures Reads().Ok() && r != NoMore ==> bufLeft == Reads().Buffered(Pos(), old(bufLeft))
    {
      hide Window, Int32;
      SmallPosition();
      if bufLeft < FILE_META_SIZE {
        Compact();
        var fleft := Remaining();
        if fleft <= 0 {
          return NoMore;
        }
        var ok := ReadOn(Min(fleft, buf.Length - bufLeft));
        if !ok {
          return NoMore;
        }
      }
      r := if FILE_META_SIZE <= bufLeft then Ready else TooShort;
    }

    /** Consumes bytes that are in the buffer. */
    method Consume(n: nat)
      requires Valid() && n <= bufLeft
      modifies this`bufPos, this`bufLeft
      ensures Valid() && Pos() == old(Pos()) + n
    {
      hide Window, Int32;
      WindowShrinks(buf[..], bufPos, bufLeft, n, file, filePos);
      bufPos := bufPos + n;
      bufLeft := bufLeft - n;
    }

    /** Reads on for a body of which `left` bytes are not in the buffer, and skips what it gets of it. */
    method SkipSome(left: nat) returns (ok: bool, left': nat)
      requires Valid() && 0 < left
      modifies this`filePos, this`fpos, this`bufPos, this`bufLeft, buf
      ensures Valid() && Pos() >= old(Pos())
      ensures !ok ==> Stuck() && filePos == old(filePos)
      ensures ok ==> old(filePos) < filePos && left' < left
      ensures ok && left' > 0 ==> bufLeft == 0 && filePos + left' == old(filePos) + left
      ensures ok && left' == 0 ==> Pos() == old(filePos) + left
      ensures ok && Reads().Ok() && old(filePos) + left <= end ==>
                (if left' > 0 then Reads().Skim(filePos, left') else bufLeft) == Reads().Skim(old(filePos), left)
    {
      hide Window, Int32, Delivered, Reading.Skim;
      left' := left;
      var fleft := Remaining();
      if fleft <= 0 {
        return false, left;
      }
      bufPos, bufLeft := 0, 0;
      WindowEmpty(buf[..], 0, file, filePos);
      if Reads().Ok() && filePos + left <= end { Reads().SkimIs(filePos, left); }
      ok := ReadOn(Min(fleft, buf.Length));
      if !ok {
        return;
      }
      if left > bufLeft {
        left' := left - bufLeft;
        bufLeft := 0;
        WindowEmpty(buf[..], bufPos, file, filePos);
      } else {
        Consume(left);
        left' := 0;
      }
    }

    /** Skips a body, reading on when it is not all in the buffer. What is left of it after the
        buffer is kept in an int: when that turns negative nothing is skipped. */
    method SkipBody(size: nat) returns (ok: bool)
      requires Valid() && size < 0x1_0000_0000
      modifies this`filePos, this`fpos, this`bufPos, this`bufLeft, buf
      ensures Valid()
      ensures old(Narrow(size, bufLeft)) ==> ok && filePos == old(filePos) && bufLeft == old(bufLeft)
      ensures !old(Narrow(size, bufLeft)) && ok ==> Pos() == old(Pos()) + size && size <= Limit() - old(Pos())
      ensures !ok ==> Stuck() && Pos() >= old(Pos())
      ensures !ok && end < INT_LIMIT ==> size > Limit() - old(Pos())
      ensures Reads().Ok() && !old(Narrow(size, bufLeft)) && ok ==>
                bufLeft == if size <= old(bufLeft) then old(bufLeft) - size else Reads().Skim(old(filePos), size - old(bufLeft))
    {
      hide Window, Int32, Reading.Skim;
      ok := true;
      if bufLeft < size {
        NarrowExactly(size, bufLeft);
        var left := Int32(size - bufLeft);
        while left > 0
          invariant Valid() && Pos() >= old(Pos())
          invariant left > 0 ==> filePos + left == old(Pos()) + size
          invariant left == 0 ==> Pos() == old(Pos()) + size
          invariant left < 0 ==> old(Narrow(size, bufLeft)) && filePos == old(filePos) && bufLeft == old(bufLeft)
          invariant left >= 0 ==> !old(Narrow(size, bufLeft))
          invariant Reads().Ok() && left >= 0 && old(Pos()) + size <= end ==>
                      (if left > 0 then Reads().Skim(filePos, left) else bufLeft) == Reads().Skim(old(filePos), size - old(bufLeft))
        {
          ok, left := SkipSome(left);
          if !ok {
            return;
          }
        }
      } else {
        Consume(size);
      }
    }

    /** Takes a meta block out of the buffer. */
    method ParseHeader() returns (r: Fill, meta: FileMeta)
      requires Valid()
      modifies this`filePos, this`fpos, this`bufPos, this`bufLeft, buf
      ensures Valid()
      ensures r == Ready ==> Pos() == old(Pos()) + FILE_META_SIZE && meta == MetaAt(file, old(Pos())) && meta.size < 0x1_0000_0000
      ensures r == NoMore ==> Stuck() && bufLeft == old(bufLeft) < FILE_META_SIZE && filePos == old(filePos)
      ensures r == TooShort ==> Pos() == old(Pos()) && old(filePos) < filePos && bufLeft < FILE_META_SIZE
      ensures Reads().Ok() && r == Ready ==> bufLeft + FILE_META_SIZE == Reads().Buffered(old(Pos()), old(bufLeft))
      ensures Reads().Ok() && r == TooShort ==> bufLeft == Reads().Buffered(old(Pos()), old(bufLeft))
    {
      hide DecodeMeta, Window, Int32;
      r := FillHeader();
      meta := FileMeta(0, 0, 0, 0, 0);
      if r == Ready {
        ghost var pos := filePos - bufLeft;
        var header := buf[bufPos..bufPos + FILE_META_SIZE];
        WindowShrinks(buf[..], bufPos, bufLeft, FILE_META_SIZE, file, filePos);
        assert header == file[pos..pos + FILE_META_SIZE];
        meta := DecodeMeta(header);
        MetaSize(header);
        Consume(FILE_META_SIZE);
      }
    }

    /** Skips the body behind a meta block that has been taken out, and notes the record. */
    method NoteRecord(meta: FileMeta) returns (r: Outcome, ghost narrow: bool)
      requires Valid() && meta.size < 0x1_0000_0000 && FILE_META_SIZE <= Pos()
      modifies this`filePos, this`fpos, this`bufPos, this`bufLeft, buf
      ensures Valid() && (r.Malformed? || r.Parsed?) && narrow == old(Narrow(meta.size, bufLeft))
      ensures narrow ==> r.Parsed? && filePos == old(filePos) && bufLeft == old(bufLeft)
      ensures r.Parsed? && !narrow ==> Pos() == old(Pos()) + meta.size && meta.size <= Limit() - old(Pos())
      ensures r.Parsed? ==> r.found == Noted(meta, filePos, bufLeft)
      ensures r.Malformed? ==> Stuck() && Pos() >= old(Pos())
      ensures r.Malformed? && end < INT_LIMIT ==> meta.size > Limit() - old(Pos())
      ensures Reads().Ok() && r.Parsed? ==>
                r.found == if narrow
                           then Found(meta.fid, Word64(old(Pos()) - FILE_META_SIZE - meta.size), Word32(meta.size + FILE_META_SIZE))
                           else Found(meta.fid, old(Pos()) - FILE_META_SIZE, meta.size + FILE_META_SIZE)
      ensures Reads().Ok() && r.Parsed? && !narrow ==>
                bufLeft == if meta.size <= old(bufLeft) then old(bufLeft) - meta.size
                           else Reads().Skim(old(filePos), meta.size - old(bufLeft))
    {
      hide Window, Int32, Word64, Word32, Noted, Reading.Skim;
      narrow := Narrow(meta.size, bufLeft);
      ghost var pos := Pos() - FILE_META_SIZE;
      var ok := SkipBody(meta.size);
      if !ok {
        return Malformed, false;
      }
      r := Parsed(Found(meta.fid, Word64(fpos - meta.size - FILE_META_SIZE - bufLeft), Word32(meta.size + FILE_META_SIZE)));
      assert r.found == Noted(meta, filePos, bufLeft) by { NotedIs(meta, filePos, bufLeft); }
      if end < INT_LIMIT {
        if narrow { NotedNarrow(meta, filePos, bufLeft, pos); } else { NotedExactly(meta, filePos, bufLeft, pos); }
      }
    }

    /** Parses one record, on any file and for every way the reads are cut up. With `narrow` the size
        in its meta block exceeds what is buffered by more than an int holds, and nothing of it is
        skipped. Otherwise a record returned is one the plain scan finds there. It aborts exactly if a
        read is made for a meta block and leaves it incomplete. */
    method ParseNext() returns (r: Outcome, ghost narrow: bool)
      requires Valid()
      modifies this`filePos, this`fpos, this`bufPos, this`bufLeft, buf
      ensures Valid()
      ensures r.EndOfLog? <==> old((fpos < 0 || fpos >= end) && bufLeft == 0)
      ensures r.EndOfLog? ==> fpos == old(fpos) && filePos == old(filePos)
      ensures end < INT_LIMIT ==> (r.EndOfLog? <==> old(Pos()) == end)
      ensures r.Malformed? ==> Stuck()
      ensures r.Aborted? <==> old(filePos) < filePos && Pos() == old(Pos())
      ensures r.Aborted? ==> bufLeft < FILE_META_SIZE
      ensures r.Parsed? ==> FILE_META_SIZE <= Limit() - old(Pos())
      ensures narrow ==> r.Parsed? && MetaAt(file, old(Pos())).size >= INT_LIMIT && Pos() == old(Pos()) + FILE_META_SIZE
                         && r.found == Noted(MetaAt(file, old(Pos())), filePos, bufLeft)
      ensures r.Parsed? && !narrow ==>
                && HasRecord(file, old(Pos()), Limit()) && Pos() == old(Pos()) + MetaAt(file, old(Pos())).size + FILE_META_SIZE
                && r.found == Noted(MetaAt(file, old(Pos())), filePos, bufLeft)
      ensures Reads().Ok() ==> r == Reads().Next(old(Pos()), old(bufLeft))
      ensures Reads().Ok() && r.Parsed? ==> (Pos(), bufLeft) == Reads().Then(old(Pos()), old(bufLeft))
    {
      hide MetaAt, Window, Int32, Word64, Word32, Noted, Reading.Skim, Reading.Buffered;
      if (fpos < 0 || fpos >= end) && bufLeft == 0 {
        SmallPosition();
        return EndOfLog, false;
      }
      SmallPosition();
      var fill, meta := ParseHeader();
      if fill == NoMore {
        return Malformed, false;
      }
      if fill == TooShort {
        return Aborted, false;
      }
      r, narrow := NoteRecord(meta);
    }

    lemma SmallPosition()
      requires Valid()
      ensures end < INT_LIMIT ==> fpos == filePos && (Stuck() <==> filePos == Limit())
      ensures Reads().Ok() ==> Reads().At(Pos(), bufLeft)
    {
    }
  }

  lemma NotedIs(meta: FileMeta, at: nat, rest: int)
    ensures Noted(meta, at, rest) ==
            Found(meta.fid, Word64(Int32(at) - meta.size - FILE_META_SIZE - rest), Word32(meta.size + FILE_META_SIZE))
  {
  }

  lemma MetaSize(header: seq<byte>)
    requires |header| >= FILE_META_SIZE
    ensures DecodeMeta(header).size < 0x1_0000_0000
  {
    BigEndianOfFromBigEndian(header[10..14]);
    Pow256Values();
  }

  // ---------------------------------------------------------------------------
  // The index of one chunk, and of all of them.

  /** Where a file is: its chunk, the offset of its record and the record's length. */
  datatype Entry = Entry(chunk: nat, offset: nat, size: nat)

  type Index = map<nat, Entry>

  /** Adds the files found in a chunk one by one; a fid that is already there stops the process. */
  function AddFound(index: Index, chunk: nat, fs: seq<Found>): (r: Option<Index>) {
    if fs == [] then Some(index)
    else
      var f := fs[|fs| - 1];
      match AddFound(index, chunk, fs[..|fs| - 1])
      case None => None
      case Some(m) => if f.fid in m then None else Some(m[f.fid := Entry(chunk, f.offset, f.size)])
  }

  lemma AddFoundSnoc(index: Index, chunk: nat, fs: seq<Found>, f: Found)
    ensures AddFound(index, chunk, fs + [f]) ==
            match AddFound(index, chunk, fs)
            case None => None
            case Some(m) => if f.fid in m then None else Some(m[f.fid := Entry(chunk, f.offset, f.size)])
  {
    assert (fs + [f])[..|fs + [f]| - 1] == fs;
  }

  lemma {:induction false} AddFoundStops(index: Index, chunk: nat, fs: seq<Found>, more: seq<Found>)
    requires AddFound(index, chunk, fs) == None
    ensures AddFound(index, chunk, fs + more) == None
  {
    if more == [] {
      assert fs + more == fs;
    } else {
      var init := more[..|more| - 1];
      AddFoundStops(index, chunk, fs, init);
      assert fs + more == (fs + init) + [more[|more| - 1]];
      AddFoundSnoc(index, chunk, fs + init, more[|more| - 1]);
    }
  }

  lemma {:induction false} AddFoundExact(index: Index, chunk: nat, fs: seq<Found>)
    ensures AddFound(index, chunk, fs).Some? <==>
            && (forall a, b :: 0 <= a < b < |fs| ==> fs[a].fid != fs[b].fid)
            && (forall a :: 0 <= a < |fs| ==> fs[a].fid !in index)
    ensures AddFound(index, chunk, fs).Some? ==>
              var m := AddFound(index, chunk, fs).value;
              && (forall a :: 0 <= a < |fs| ==>
                    fs[a].fid in m && m[fs[a].fid] == Entry(chunk, fs[a].offset, fs[a].size))
              && (forall f :: f in index ==> f in m && m[f] == index[f])
              && (forall f :: f in m ==> f in index || exists a :: 0 <= a < |fs| && fs[a].fid == f)
  {
    if fs != [] {
      var init := fs[..|fs| - 1];
      AddFoundExact(index, chunk, init);
      assert forall a :: 0 <= a < |init| ==> init[a] == fs[a];
    }
  }

  datatype Setup = Installed(super: Super, index: Index) | Died

  /** A chunk file the recovery has no quarrel with: a superblock that parses, and a log that
      ends exactly at the current offset. */
  predicate Sound(file: seq<byte>) {
    && |file| >= SUPERBLOCK_SIZE
    && ParseSuper(file).Some?
    && SUPERBLOCK_SIZE <= ParseSuper(file).value.currentOffset <= |file|
    && ScanLog(file, SUPERBLOCK_SIZE, ParseSuper(file).value.currentOffset).complete
  }

  /** What the plain scan makes of a chunk file. */
  function Install(file: seq<byte>, index: Index): Setup
    requires |file| >= SUPERBLOCK_SIZE
  {
    match ParseSuper(file)
    case None => Died
    case Some(sb) =>
      if sb.currentOffset < SUPERBLOCK_SIZE then Installed(sb, index)
      else if sb.currentOffset > |file| then Died
      else
        match AddFound(index, sb.chunkId, ScanLog(file, SUPERBLOCK_SIZE, sb.currentOffset).found)
        case None => Died
        case Some(m) => Installed(sb, m)
  }

  /** A chunk file is installed exactly if its superblock is one, its log does not end behind the file,
      and the files found in it have fids that are new and different; and then the index gains exactly
      their entries. A log that ends before it begins has none. */
  lemma InstallExact(file: seq<byte>, index: Index)
    requires |file| >= SUPERBLOCK_SIZE
    ensures var found := LogOf(file);
            && (Install(file, index).Installed? <==>
                  && ParseSuper(file).Some? && ParseSuper(file).value.currentOffset <= |file|
                  && (forall a, b :: 0 <= a < b < |found| ==> found[a].fid != found[b].fid)
                  && (forall a :: 0 <= a < |found| ==> found[a].fid !in index))
            && (Install(file, index).Installed? ==>
                  var (sb, m) := (Install(file, index).super, Install(file, index).index);
                  && ParseSuper(file) == Some(sb)
                  && (forall a :: 0 <= a < |found| ==>
                        found[a].fid in m && m[found[a].fid] == Entry(sb.chunkId, found[a].offset, found[a].size))
                  && (forall f :: f in index ==> f in m && m[f] == index[f])
                  && (forall f :: f in m ==> f in index || exists a :: 0 <= a < |found| && found[a].fid == f))
  {
    hide ParseSuper, ScanLog, AddFound;
    if ParseSuper(file).Some? { AddFoundExact(index, ParseSuper(file).value.chunkId, LogOf(file)); }
  }

  /** What the scan finds of the log of a chunk file, as far as it lies in the file. */
  function LogOf(file: seq<byte>): seq<Found>
    requires |file| >= SUPERBLOCK_SIZE
  {
    if ParseSuper(file).Some? && SUPERBLOCK_SIZE <= ParseSuper(file).value.currentOffset <= |file|
    then ScanLog(file, SUPERBLOCK_SIZE, ParseSuper(file).value.currentOffset).found else []
  }

  /** Some file is in the index with another entry than the one it is found with. */
  ghost predicate Garbled(m: Index, chunk: nat, fs: seq<Found>) {
    exists a :: 0 <= a < |fs| && fs[a].fid in m && m[fs[a].fid] != Entry(chunk, fs[a].offset, fs[a].size)
  }

  lemma GarbledDiffers(index: Index, m: Index, chunk: nat, fs: seq<Found>)
    requires Garbled(m, chunk, fs)
    ensures Some(m) != AddFound(index, chunk, fs)
  {
    hide AddFound;
    AddFoundExact(index, chunk, fs);
  }

  lemma GarbledStays(m: Index, chunk: nat, fs: seq<Found>, fid: nat, e: Entry)
    requires Garbled(m, chunk, fs) && fid !in m
    ensures Garbled(m[fid := e], chunk, fs)
  {
    var a :| 0 <= a < |fs| && fs[a].fid in m && m[fs[a].fid] != Entry(chunk, fs[a].offset, fs[a].size);
    assert m[fid := e][fs[a].fid] == m[fs[a].fid];
  }

  /** An index that lacks some of the files is not the index of all of them. */
  lemma MissingDiffers(index: Index, m: Index, chunk: nat, seen: seq<Found>, rest: seq<Found>)
    requires AddFound(index, chunk, seen) == Some(m) && rest != []
    ensures Some(m) != AddFound(index, chunk, seen + rest)
  {
    hide AddFound;
    var fs := seen + rest;
    AddFoundExact(index, chunk, fs);
    AddFoundExact(index, chunk, seen);
    assert fs[|seen|] == rest[0] && forall a :: 0 <= a < |seen| ==> fs[a] == seen[a];
  }

  // ---------------------------------------------------------------------------
  // A log that ends inside the range of an int.

  /** The index of what was noted, unless the process aborted. */
  function IndexOf(index: Index, chunk: nat, p: Parse): Option<Index> {
    if p.aborted then None else AddFound(index, chunk, p.notes)
  }

  /** One more record, in the middle of a parse. */
  lemma IndexedOn(index: Index, chunk: nat, m: Index, seen: seq<Found>, f: Found, rest: Parse)
    requires AddFound(index, chunk, seen) == Some(m)
    ensures After(seen, After([f], rest)) == After(seen + [f], rest)
    ensures f.fid in m ==> IndexOf(index, chunk, After(seen + [f], rest)) == None
    ensures f.fid !in m ==> AddFound(index, chunk, seen + [f]) == Some(m[f.fid := Entry(chunk, f.offset, f.size)])
  {
    hide AddFound;
    assert seen + ([f] + rest.notes) == (seen + [f]) + rest.notes;
    AddFoundSnoc(index, chunk, seen, f);
    if f.fid in m { AddFoundStops(index, chunk, seen + [f], rest.notes); }
  }

  /** And the end of one. */
  lemma IndexedEnd(index: Index, chunk: nat, m: Index, seen: seq<Found>, aborted: bool)
    requires AddFound(index, chunk, seen) == Some(m)
    ensures IndexOf(index, chunk, After(seen, Parse([], aborted))) == if aborted then None else Some(m)
  {
    assert seen + [] == seen;
  }

  lemma ParsingIs(rd: Reading, pos: nat, left: nat)
    requires rd.At(pos, left)
    ensures rd.Parsing(pos, left) ==
            match rd.Next(pos, left)
            case EndOfLog => Parse([], false)
            case Malformed => Parse([], false)
            case Aborted => Parse([], true)
            case Parsed(f) => After([f], rd.Parsing(rd.Then(pos, left).0, rd.Then(pos, left).1))
  {
  }

  lemma AfterNone(p: Parse)
    ensures After([], p) == p
  {
    assert [] + p.notes == p.notes;
  }

  /** What the parser indexes of a log is what the scan finds exactly if the parse is clean, or the
      scan finds what cannot be indexed. */
  lemma IndexedExact(rd: Reading, pos: nat, index: Index, chunk: nat)
    requires rd.At(pos, 0)
    ensures var all := AddFound(index, chunk, ScanLog(rd.file, pos, rd.end).found);
            IndexOf(index, chunk, rd.Parsing(pos, 0)) == all <==> rd.Clean(pos, 0) || all.None?
  {
    hide AddFound, ScanLog, Reading.Parsing, Reading.Clean, Reading.Misreads;
    var found, p := ScanLog(rd.file, pos, rd.end).found, rd.Parsing(pos, 0);
    rd.ParsingExact(pos, 0);
    if rd.Misreads(pos, 0) {
      var more := p.notes[|found|..];
      assert p.notes == found + more;
      match AddFound(index, chunk, found)
      case None => AddFoundStops(index, chunk, found, more);
      case Some(m) => MissingDiffers(index, m, chunk, found, more);
    }
  }

  /** The two simple cases of that. */
  lemma IndexedMostly(rd: Reading, pos: nat, index: Index, chunk: nat)
    requires rd.At(pos, 0)
    ensures var all := AddFound(index, chunk, ScanLog(rd.file, pos, rd.end).found);
            && (Settled(rd.file, pos, rd.end) && rd.stops == {} ==> IndexOf(index, chunk, rd.Parsing(pos, 0)) == all)
            && (Tame(rd.file, pos, rd.end) && IndexOf(index, chunk, rd.Parsing(pos, 0)).Some? ==>
                  IndexOf(index, chunk, rd.Parsing(pos, 0)) == all)
  {
    hide AddFound, ScanLog, Reading.Parsing, Reading.Clean, Reading.Misreads, Tame, Settled;
    IndexedExact(rd, pos, index, chunk);
    if Settled(rd.file, pos, rd.end) && rd.stops == {} { rd.SettledClean(pos, 0); }
    if Tame(rd.file, pos, rd.end) { rd.ParsingExact(pos, 0); rd.TameReads(pos, 0); }
  }

  // ---------------------------------------------------------------------------
  // A log that ends outside it.

  /** Where the parse of such a log stands: `m` has what the scan has found up to `pos`, or some file is
      in the index with a wrong entry. */
  ghost predicate Standing(file: seq<byte>, pos: nat, end: nat, index: Index, chunk: nat, m: Index, seen: seq<Found>, synced: bool)
    requires SUPERBLOCK_SIZE <= pos <= Min(end, |file|)
  {
    var limit := Min(end, |file|);
    var whole := ScanLog(file, SUPERBLOCK_SIZE, limit);
    if synced then
      var rest := ScanLog(file, pos, limit);
      && AddFound(index, chunk, seen) == Some(m) && pos < INT_LIMIT
      && whole.found == seen + rest.found && whole.complete == rest.complete
    else end <= |file| < OFF_LIMIT && whole.complete ==> Garbled(m, chunk, whole.found)
  }

  lemma StandingFirst(file: seq<byte>, end: nat, index: Index, chunk: nat)
    requires SUPERBLOCK_SIZE <= Min(end, |file|)
    ensures Standing(file, SUPERBLOCK_SIZE, end, index, chunk, index, [], true)
  {
    hide ScanLog;
    AddNone(index, chunk);
    assert [] + ScanLog(file, SUPERBLOCK_SIZE, Min(end, |file|)).found == ScanLog(file, SUPERBLOCK_SIZE, Min(end, |file|)).found;
  }

  /** One more record, noted as the scan finds it. */
  lemma StandingOn(file: seq<byte>, pos: nat, end: nat, index: Index, chunk: nat, m: Index, seen: seq<Found>)
    requires SUPERBLOCK_SIZE <= pos <= Min(end, |file|) && Standing(file, pos, end, index, chunk, m, seen, true)
    requires HasRecord(file, pos, Min(end, |file|))
    ensures var f := RecordAt(file, pos);
            f.fid !in m && pos + f.size < INT_LIMIT ==>
              Standing(file, pos + f.size, end, index, chunk, m[f.fid := Entry(chunk, f.offset, f.size)], seen + [f], true)
  {
    hide AddFound, HasRecord, RecordAt;
    var limit := Min(end, |file|);
    RecordBounds(file, pos, limit);
    var f := RecordAt(file, pos);
    var rest := ScanLog(file, pos + f.size, limit);
    AddFoundSnoc(index, chunk, seen, f);
    assert seen + ([f] + rest.found) == (seen + [f]) + rest.found;
  }

  /** A record noted at another place than the scan finds it. */
  lemma StandingOff(file: seq<byte>, pos: nat, end: nat, index: Index, chunk: nat, m: Index, seen: seq<Found>, f: Found, next: nat)
    requires SUPERBLOCK_SIZE <= pos <= Min(end, |file|) && Standing(file, pos, end, index, chunk, m, seen, true)
    requires pos + FILE_META_SIZE <= Min(end, |file|) && f.fid == MetaAt(file, pos).fid && f.fid !in m
    requires |file| < OFF_LIMIT ==> f.offset != pos
    requires SUPERBLOCK_SIZE <= next <= Min(end, |file|)
    ensures Standing(file, next, end, index, chunk, m[f.fid := Entry(chunk, f.offset, f.size)], seen, false)
  {
    hide AddFound, HasRecord, RecordAt, MetaAt;
    var limit := Min(end, |file|);
    var whole := ScanLog(file, SUPERBLOCK_SIZE, limit);
    if end <= |file| < OFF_LIMIT && whole.complete {
      RecordBounds(file, pos, limit);
      assert whole.found[|seen|] == RecordAt(file, pos);
      assert Garbled(m[f.fid := Entry(chunk, f.offset, f.size)], chunk, whole.found);
    }
  }

  lemma StandingStaysOff(file: seq<byte>, pos: nat, end: nat, index: Index, chunk: nat, m: Index, seen: seq<Found>, fid: nat, e: Entry, next: nat)
    requires SUPERBLOCK_SIZE <= pos <= Min(end, |file|) && Standing(file, pos, end, index, chunk, m, seen, false)
    requires SUPERBLOCK_SIZE <= next <= Min(end, |file|) && fid !in m
    ensures Standing(file, next, end, index, chunk, m[fid := e], seen, false)
  {
    hide Garbled, ScanLog;
    var whole := ScanLog(file, SUPERBLOCK_SIZE, Min(end, |file|));
    if Garbled(m, chunk, whole.found) { GarbledStays(m, chunk, whole.found, fid, e); }
  }

  /** How a record that was parsed is noted, with `rest` bytes buffered behind it. */
  lemma NotedAt(file: seq<byte>, pos: nat, limit: nat, at: nat, rest: nat, narrow: bool)
    requires pos + FILE_META_SIZE <= limit <= |file|
    requires if narrow then MetaAt(file, pos).size >= INT_LIMIT && pos + FILE_META_SIZE + rest == at
             else HasRecord(file, pos, limit) && pos + FILE_META_SIZE + MetaAt(file, pos).size + rest == at
    ensures Noted(MetaAt(file, pos), at, rest).fid == MetaAt(file, pos).fid
    ensures !narrow && at < INT_LIMIT ==> Noted(MetaAt(file, pos), at, rest) == RecordAt(file, pos)
    ensures (narrow || at >= INT_LIMIT) && at < OFF_LIMIT ==> Noted(MetaAt(file, pos), at, rest).offset != pos
  {
    hide Noted, DecodeMeta;
    var meta := MetaAt(file, pos);
    MetaSize(file[pos..pos + FILE_META_SIZE]);
    NotedIs(meta, at, rest);
    if !narrow && at < INT_LIMIT { NotedExactly(meta, at, rest, pos); }
    if narrow && at < OFF_LIMIT { NarrowNotedWrongly(meta, at, rest, pos); }
    if !narrow && INT_LIMIT <= at < OFF_LIMIT { NotedWrongly(meta, at, rest, pos); }
  }

  /** One more record, however it is noted. */
  lemma StandingStep(file: seq<byte>, pos: nat, end: nat, index: Index, chunk: nat, m: Index, seen: seq<Found>, synced: bool,
                     f: Found, at: nat, rest: nat, narrow: bool) returns (seen': seq<Found>, synced': bool)
    requires SUPERBLOCK_SIZE <= pos <= Min(end, |file|) && Standing(file, pos, end, index, chunk, m, seen, synced)
    requires pos + FILE_META_SIZE <= Min(end, |file|) && at <= Min(end, |file|) && f == Noted(MetaAt(file, pos), at, rest)
    requires if narrow then MetaAt(file, pos).size >= INT_LIMIT && pos + FILE_META_SIZE + rest == at
             else HasRecord(file, pos, Min(end, |file|)) && pos + FILE_META_SIZE + MetaAt(file, pos).size + rest == at
    requires f.fid !in m
    ensures Standing(file, at - rest, end, index, chunk, m[f.fid := Entry(chunk, f.offset, f.size)], seen', synced')
  {
    hide AddFound, HasRecord, RecordAt, Standing, ScanLog, Noted, MetaAt;
    var limit := Min(end, |file|);
    NotedAt(file, pos, limit, at, rest, narrow);
    seen', synced' := seen, false;
    if !synced {
      StandingStaysOff(file, pos, end, index, chunk, m, seen, f.fid, Entry(chunk, f.offset, f.size), at - rest);
    } else if !narrow && at < INT_LIMIT {
      RecordBounds(file, pos, limit);
      StandingOn(file, pos, end, index, chunk, m, seen);
      seen', synced' := seen + [f], true;
    } else {
      StandingOff(file, pos, end, index, chunk, m, seen, f, at - rest);
    }
  }

  /** In the end a complete log has not been indexed as the scan would. */
  lemma StandingLast(file: seq<byte>, pos: nat, end: nat, index: Index, chunk: nat, m: Index, seen: seq<Found>, synced: bool)
    requires SUPERBLOCK_SIZE <= pos <= end <= |file| && Standing(file, pos, end, index, chunk, m, seen, synced)
    ensures end >= INT_LIMIT && |file| < OFF_LIMIT && ScanLog(file, SUPERBLOCK_SIZE, end).complete ==>
              Some(m) != AddFound(index, chunk, ScanLog(file, SUPERBLOCK_SIZE, end).found)
  {
    hide AddFound, HasRecord, RecordAt, Garbled;
    if end < INT_LIMIT || |file| >= OFF_LIMIT || !ScanLog(file, SUPERBLOCK_SIZE, end).complete {
    } else if synced {
      MissingDiffers(index, m, chunk, seen, ScanLog(file, pos, end).found);
    } else {
      GarbledDiffers(index, m, chunk, ScanLog(file, SUPERBLOCK_SIZE, end).found);
    }
  }

  // ---------------------------------------------------------------------------
  // One chunk.

  /** The loop over the records of one chunk. While the log ends inside the range of an int, what
      comes out is the index of what the scan finds exactly if the parse is clean (or that cannot be
      indexed): it is if the scan stops at the end or at a whole meta block that claims less than 2^31
      bytes and reads deliver what they are asked for, and however they are cut up whatever comes out
      is right if the scan does not stop at a size of 2^31 or more. A log that ends outside the range
      is never indexed correctly. */
  method ParseLog(file: seq<byte>, sb: Super, bufSize: nat, stops: set<nat>, index: Index) returns (r: Option<Index>)
    requires SUPERBLOCK_SIZE <= sb.currentOffset && SUPERBLOCK_SIZE <= |file| && FILE_META_SIZE <= bufSize < INT_LIMIT
    ensures |file| < sb.currentOffset < INT_LIMIT ==> r == None
    ensures sb.currentOffset <= |file| && sb.currentOffset < INT_LIMIT ==>
              var rd := Reading(file, sb.currentOffset, bufSize, stops);
              var all := AddFound(index, sb.chunkId, ScanLog(file, SUPERBLOCK_SIZE, rd.end).found);
              && r == IndexOf(index, sb.chunkId, rd.Parsing(SUPERBLOCK_SIZE, 0))
              && (r == all <==> rd.Clean(SUPERBLOCK_SIZE, 0) || all.None?)
              && (Settled(file, SUPERBLOCK_SIZE, rd.end) && stops == {} ==> r == all)
              && (Tame(file, SUPERBLOCK_SIZE, rd.end) && r.Some? ==> r == all)
    ensures sb.currentOffset <= |file| < OFF_LIMIT && sb.currentOffset >= INT_LIMIT ==>
              var whole := ScanLog(file, SUPERBLOCK_SIZE, sb.currentOffset);
              var all := AddFound(index, sb.chunkId, whole.found);
              whole.complete && all.Some? ==> r != all
  {
    hide AddFound, HasRecord, RecordAt, Standing, ScanLog, Tame, Settled, Noted, MetaAt;
    hide Reading.Parsing, Reading.Clean, Reading.Next, Reading.Then, IndexOf, After;
    var end := sb.currentOffset;
    var parser := new Parser(file, SUPERBLOCK_SIZE, end, bufSize, stops);
    ghost var rd := Reading(file, end, bufSize, stops);
    ghost var seen: seq<Found> := [];
    ghost var synced := true;
    var m := index;
    assert AddFound(index, sb.chunkId, []) == Some(index) by { AddNone(index, sb.chunkId); }
    if end >= INT_LIMIT { StandingFirst(file, end, index, sb.chunkId); }
    if rd.Ok() {
      AfterNone(rd.Parsing(SUPERBLOCK_SIZE, 0));
      IndexedExact(rd, SUPERBLOCK_SIZE, index, sb.chunkId);
      IndexedMostly(rd, SUPERBLOCK_SIZE, index, sb.chunkId);
    }
    while true
      invariant parser.Valid() && fresh(parser) && fresh(parser.buf) && SUPERBLOCK_SIZE <= parser.Pos()
      invariant parser.file == file && parser.end == end && parser.stops == stops && parser.buf.Length == bufSize
      invariant rd.Ok() ==>
                  && AddFound(index, sb.chunkId, seen) == Some(m) && rd.At(parser.Pos(), parser.bufLeft)
                  && rd.Parsing(SUPERBLOCK_SIZE, 0) == After(seen, rd.Parsing(parser.Pos(), parser.bufLeft))
      invariant end >= INT_LIMIT ==> Standing(file, parser.Pos(), end, index, sb.chunkId, m, seen, synced)
      decreases parser.Limit() - parser.Pos()
    {
      ghost var pos, left := parser.Pos(), parser.bufLeft;
      var o;
      ghost var narrow;
      o, narrow := parser.ParseNext();
      if rd.Ok() { ParsingIs(rd, pos, left); }
      match o {
        case EndOfLog =>
          if rd.Ok() { IndexedEnd(index, sb.chunkId, m, seen, false); }
          if INT_LIMIT <= end <= |file| { StandingLast(file, pos, end, index, sb.chunkId, m, seen, synced); }
          break;
        case Malformed =>
          if rd.Ok() { IndexedEnd(index, sb.chunkId, m, seen, false); }
          if INT_LIMIT <= end <= |file| { StandingLast(file, pos, end, index, sb.chunkId, m, seen, synced); }
          break;
        case Aborted =>
          if rd.Ok() { IndexedEnd(index, sb.chunkId, m, seen, true); }
          return None;
        case Parsed(f) =>
          if rd.Ok() { IndexedOn(index, sb.chunkId, m, seen, f, rd.Parsing(parser.Pos(), parser.bufLeft)); }
          if f.fid in m {
            return None;
          }
          if end < INT_LIMIT {
            seen := seen + [f];
          } else {
            seen, synced := StandingStep(file, pos, end, index, sb.chunkId, m, seen, synced, f,
                                         parser.filePos, parser.bufLeft, narrow);
          }
          m := m[f.fid := Entry(sb.chunkId, f.offset, f.size)];
      }
    }
    parser.SmallPosition();
    r := if 0 <= parser.fpos < end then None else Some(m);
  }

  function LogEnd(file: seq<byte>): nat
    requires |file| >= SUPERBLOCK_SIZE
  {
    if ParseSuper(file).None? then 0 else ParseSuper(file).value.currentOffset
  }

  /** How the log of a chunk file is read, if it ends inside the file and the range of an int. */
  predicate LogReadable(file: seq<byte>) {
    |file| >= SUPERBLOCK_SIZE && SUPERBLOCK_SIZE <= LogEnd(file) <= |file| && LogEnd(file) < INT_LIMIT
  }

  function ReadingOf(file: seq<byte>, bufSize: nat, stops: set<nat>): (rd: Reading)
    requires LogReadable(file) && FILE_META_SIZE <= bufSize
    ensures rd.At(SUPERBLOCK_SIZE, 0)
  {
    Reading(file, LogEnd(file), bufSize, stops)
  }

  /** What the buffered parser makes of a chunk file whose log ends inside the range of an int. */
  function Load(file: seq<byte>, bufSize: nat, stops: set<nat>, index: Index): Setup
    requires |file| >= SUPERBLOCK_SIZE && LogEnd(file) < INT_LIMIT && FILE_META_SIZE <= bufSize
  {
    match ParseSuper(file)
    case None => Died
    case Some(sb) =>
      if sb.currentOffset < SUPERBLOCK_SIZE then Installed(sb, index)
      else if sb.currentOffset > |file| then Died
      else
        match IndexOf(index, sb.chunkId, ReadingOf(file, bufSize, stops).Parsing(SUPERBLOCK_SIZE, 0))
        case None => Died
        case Some(m) => Installed(sb, m)
  }

  /** The parse of a chunk file is clean. */
  predicate CleanFile(file: seq<byte>, bufSize: nat, stops: set<nat>)
    requires FILE_META_SIZE <= bufSize
  {
    LogReadable(file) ==> ReadingOf(file, bufSize, stops).Clean(SUPERBLOCK_SIZE, 0)
  }

  /** The log ends inside the range of an int, and the scan does not stop at a size outside it. */
  predicate Ordinary(file: seq<byte>) {
    && |file| >= SUPERBLOCK_SIZE && LogEnd(file) < INT_LIMIT
    && (LogReadable(file) ==> Tame(file, SUPERBLOCK_SIZE, LogEnd(file)))
  }

  /** Damaged or not, the scan of it stops at the end or at a whole meta block with an ordinary size. */
  predicate Loadable(file: seq<byte>) {
    && |file| >= SUPERBLOCK_SIZE && LogEnd(file) < INT_LIMIT
    && (LogReadable(file) ==> Settled(file, SUPERBLOCK_SIZE, LogEnd(file)))
  }

  /** A chunk file is loaded as the plain scan would have it exactly if its parse is clean, or the plain
      scan would not have it. */
  lemma LoadExact(file: seq<byte>, bufSize: nat, stops: set<nat>, index: Index)
    requires |file| >= SUPERBLOCK_SIZE && LogEnd(file) < INT_LIMIT && FILE_META_SIZE <= bufSize
    ensures Load(file, bufSize, stops, index) == Install(file, index) <==>
            CleanFile(file, bufSize, stops) || Install(file, index).Died?
    ensures Loadable(file) && stops == {} ==> CleanFile(file, bufSize, stops)
    ensures Ordinary(file) && Load(file, bufSize, stops, index).Installed? ==> CleanFile(file, bufSize, stops)
  {
    hide ParseSuper, AddFound, ScanLog, Tame, Settled, Reading.Parsing, Reading.Clean, Reading.Misreads;
    if LogReadable(file) {
      var rd := ReadingOf(file, bufSize, stops);
      IndexedExact(rd, SUPERBLOCK_SIZE, index, ParseSuper(file).value.chunkId);
      if Loadable(file) && stops == {} { rd.SettledClean(SUPERBLOCK_SIZE, 0); }
      if Ordinary(file) { rd.TameReads(SUPERBLOCK_SIZE, 0); rd.ParsingExact(SUPERBLOCK_SIZE, 0); }
    }
  }

  /** Sets up one chunk. A file whose log ends inside the range of an int is installed as the plain
      scan would exactly if its parse is clean (or the scan would not): with full reads that is so
      whenever the scan stops at the end, or at a whole meta block with an ordinary size, and then what
      lies behind that is left out of the index in silence. A sound file whose log ends outside the
      range never is. */
  method SetupChunk(file: seq<byte>, bufSize: nat, stops: set<nat>, index: Index) returns (r: Setup)
    requires |file| >= SUPERBLOCK_SIZE && FILE_META_SIZE <= bufSize < INT_LIMIT
    ensures LogEnd(file) < INT_LIMIT ==> r == Load(file, bufSize, stops, index)
    ensures LogEnd(file) < INT_LIMIT ==>
              (r == Install(file, index) <==> CleanFile(file, bufSize, stops) || Install(file, index).Died?)
    ensures Loadable(file) && stops == {} ==> r == Install(file, index)
    ensures Ordinary(file) && r.Installed? ==> r == Install(file, index)
    ensures Sound(file) && LogEnd(file) >= INT_LIMIT && |file| < OFF_LIMIT && Install(file, index).Installed? ==>
              r != Install(file, index)
  {
    hide ParseSuper, AddFound, ScanLog, Tame, Settled, IndexOf, Reading.Parsing, Reading.Clean;
    if LogEnd(file) < INT_LIMIT { LoadExact(file, bufSize, stops, index); }
    var parsed := ParseSuper(file);
    if parsed == None {
      return Died;
    }
    var sb := parsed.value;
    if sb.currentOffset < SUPERBLOCK_SIZE {
      return Installed(sb, index);
    }
    var m := ParseLog(file, sb, bufSize, stops, index);
    r := if m == None then Died else Installed(sb, m.value);
  }

  lemma AddNone(index: Index, chunk: nat)
    ensures AddFound(index, chunk, []) == Some(index)
  {
  }

  // ---------------------------------------------------------------------------
  // Files that show it.

  /** A chunk file with the log `tail`. */
  function FileWith(tail: seq<byte>): seq<byte>
    requires SUPERBLOCK_SIZE + |tail| < INT_LIMIT
  {
    EncodeSuper(SuperWith(tail)) + tail
  }

  function SuperWith(tail: seq<byte>): Super { Super(1, 1, 1, SUPERBLOCK_SIZE + |tail|, 0) }

  lemma FileWithIs(tail: seq<byte>)
    requires SUPERBLOCK_SIZE + |tail| < INT_LIMIT
    ensures ParseSuper(FileWith(tail)) == Some(SuperWith(tail))
    ensures |FileWith(tail)| == SUPERBLOCK_SIZE + |tail| && FileWith(tail)[SUPERBLOCK_SIZE..] == tail && LogReadable(FileWith(tail))
  {
    hide EncodeSuper, ParseSuper;
    ParseSuperOfEncoded(SuperWith(tail), tail);
  }

  /** A log of one meta block that claims 2^31 bytes, and nothing behind it. The plain scan finds no
      record there; the parser notes one, at an offset far behind the file. */
  lemma MisreadFile(bufSize: nat) returns (file: seq<byte>)
    requires FILE_META_SIZE <= bufSize
    ensures LogReadable(file) && Install(file, map[]) == Installed(SuperWith(file[SUPERBLOCK_SIZE..]), map[])
    ensures Load(file, bufSize, {}, map[]) == Installed(SuperWith(file[SUPERBLOCK_SIZE..]),
              map[7 := Entry(1, 0x1_0000_0000_0000_0000 + SUPERBLOCK_SIZE - INT_LIMIT, INT_LIMIT + FILE_META_SIZE)])
  {
    hide EncodeMeta, EncodeSuper, ParseSuper, MetaAt;
    var meta := FileMeta(7, 1, INT_LIMIT, 0, 0);
    file := FileWith(EncodeMeta(meta));
    FileWithIs(EncodeMeta(meta));
    assert file[SUPERBLOCK_SIZE..|file|] == EncodeMeta(meta) + [];
    MetaAtHead(file, SUPERBLOCK_SIZE, |file|, meta, []);
    var rd := ReadingOf(file, bufSize, {});
    DeliveredAll(SUPERBLOCK_SIZE, FILE_META_SIZE);
    assert rd.Buffered(SUPERBLOCK_SIZE, 0) == FILE_META_SIZE;
    assert rd.Then(SUPERBLOCK_SIZE, 0) == (rd.end, 0);
    assert rd.Parsing(rd.end, 0) == Parse([], false);
  }

  /** A log that breaks off inside the body of a record. The file is not sound, and it is installed all
      the same, through a buffer of any size, with the records before that one. */
  lemma CutInstalled(rs: seq<Record>, meta: FileMeta, part: seq<byte>, bufSize: nat, index: Index) returns (file: seq<byte>)
    requires AllFit(rs) && MetaFits(meta) && |part| < meta.size < INT_LIMIT && FILE_META_SIZE <= bufSize
    requires SUPERBLOCK_SIZE + |Log(rs)| + FILE_META_SIZE + |part| < INT_LIMIT
    ensures LogReadable(file) && !Sound(file) && file[SUPERBLOCK_SIZE..] == Log(rs) + (EncodeMeta(meta) + part)
    ensures Load(file, bufSize, {}, index) ==
            match AddFound(index, 1, Finds(rs, SUPERBLOCK_SIZE))
            case None => Died
            case Some(m) => Installed(SuperWith(file[SUPERBLOCK_SIZE..]), m)
  {
    hide EncodeMeta, EncodeSuper, ParseSuper, ScanLog, AddFound, Settled, Log, CleanFile, Load;
    var tail := Log(rs) + (EncodeMeta(meta) + part);
    file := FileWith(tail);
    FileWithIs(tail);
    assert file[SUPERBLOCK_SIZE..|file|] == tail;
    ScanOfCut(file, SUPERBLOCK_SIZE, |file|, rs, meta, part);
    LoadExact(file, bufSize, {}, index);
  }

  /** A log of less than a meta block, which the plain scan finds nothing in, aborts the process however
      it is read. */
  lemma ShortAborts(part: seq<byte>, bufSize: nat, stops: set<nat>, index: Index) returns (file: seq<byte>)
    requires 0 < |part| < FILE_META_SIZE <= bufSize
    ensures LogReadable(file) && file[SUPERBLOCK_SIZE..] == part
    ensures Install(file, index) == Installed(SuperWith(part), index) && Load(file, bufSize, stops, index) == Died
  {
    hide EncodeSuper, ParseSuper;
    file := FileWith(part);
    FileWithIs(part);
  }
}
