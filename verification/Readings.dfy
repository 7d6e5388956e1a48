/**
 The record log of a chunk: the plain scan that finds its records, and what a parser that reads the
 chunk file in pieces, into a buffer and with its numbers in C ints, makes of it.
 */
module Readings {
  import opened Codec
  import opened Format

  // ---------------------------------------------------------------------------
  // The plain scan.

  /** A file found in a log: its fid, where its record starts and how long the record is. */
  datatype Found = Found(fid: nat, offset: nat, size: nat)

  datatype Scan = Scan(found: seq<Found>, complete: bool)

  function MetaAt(file: seq<byte>, pos: nat): FileMeta
    requires pos + FILE_META_SIZE <= |file|
  {
    DecodeMeta(file[pos..pos + FILE_META_SIZE])
  }

  /** A whole record lies between `pos` and `end`. */
  predicate HasRecord(file: seq<byte>, pos: nat, end: nat)
    requires pos <= end <= |file|
  {
    FILE_META_SIZE <= end - pos && MetaAt(file, pos).size <= end - pos - FILE_META_SIZE
  }

  function RecordAt(file: seq<byte>, pos: nat): Found
    requires pos + FILE_META_SIZE <= |file|
  {
    Found(MetaAt(file, pos).fid, pos, MetaAt(file, pos).size + FILE_META_SIZE)
  }

  lemma RecordBounds(file: seq<byte>, pos: nat, limit: nat)
    requires pos <= limit <= |file| && HasRecord(file, pos, limit)
    ensures FILE_META_SIZE <= limit - pos && RecordAt(file, pos).size >= FILE_META_SIZE
    ensures pos + RecordAt(file, pos).size <= limit && RecordAt(file, pos).offset == pos
    ensures RecordAt(file, pos).fid == MetaAt(file, pos).fid && RecordAt(file, pos).size == MetaAt(file, pos).size + FILE_META_SIZE
  {
  }

  /** The records from `pos` on, up to `end` or to the first that does not fit. */
  function ScanLog(file: seq<byte>, pos: nat, end: nat): (r: Scan)
    requires pos <= end <= |file|
    decreases end - pos
  {
    if pos == end then Scan([], true)
    else if !HasRecord(file, pos, end) then Scan([], false)
    else
      var f := RecordAt(file, pos);
      var rest := ScanLog(file, pos + f.size, end);
      Scan([f] + rest.found, rest.complete)
  }

  /** What a scan should find of the records `rs` laid out from `pos` on. */
  function Finds(rs: seq<Record>, pos: nat): seq<Found> {
    if rs == [] then []
    else
      var f := Found(rs[0].fid, pos, FILE_META_SIZE + |rs[0].data|);
      [f] + Finds(rs[1..], pos + f.size)
  }

  lemma RecordAtHead(file: seq<byte>, pos: nat, end: nat, r: Record, rest: seq<byte>)
    requires pos <= end <= |file| && RecordFits(r)
    requires file[pos..end] == Encode(r) + rest
    ensures HasRecord(file, pos, end)
    ensures RecordAt(file, pos) == Found(r.fid, pos, FILE_META_SIZE + |r.data|)
    ensures MetaAt(file, pos) == MetaOf(r)
  {
    hide Encode, DecodeMeta, MetaOf;
    var s := file[pos..end];
    DecodeRecord(r, rest);
    DecodeMetaPrefix(s);
    assert s[..FILE_META_SIZE] == file[pos..pos + FILE_META_SIZE];
    MetaOfFields(r);
  }

  lemma MetaOfFields(r: Record)
    ensures MetaOf(r).fid == r.fid && MetaOf(r).size == |r.data|
  {
  }

  /** Scanning a log of records finds exactly those records, with their positions and sizes. */
  lemma {:induction false} ScanOfLog(file: seq<byte>, pos: nat, end: nat, rs: seq<Record>)
    requires pos <= end <= |file| && AllFit(rs)
    requires file[pos..end] == Log(rs)
    ensures ScanLog(file, pos, end) == Scan(Finds(rs, pos), true)
    decreases |rs|
  {
    hide Encode, RecordAt, HasRecord, MetaAt, MetaOf;
    if rs != [] {
      hide Log;
      var r, ts := rs[0], rs[1..];
      assert rs == [r] + ts;
      LogCons(r, ts);
      RecordAtHead(file, pos, end, r, Log(ts));
      var next := pos + FILE_META_SIZE + |r.data|;
      DropHead(file, pos, end, Encode(r), Log(ts));
      ScanOfLog(file, next, end, ts);
    }
  }

  /** Scanning a log of records behind which one is cut off finds exactly those before it. */
  lemma {:induction false} ScanOfCut(file: seq<byte>, pos: nat, end: nat, rs: seq<Record>, meta: FileMeta, part: seq<byte>)
    requires pos <= end <= |file| && AllFit(rs) && MetaFits(meta) && |part| < meta.size
    requires file[pos..end] == Log(rs) + (EncodeMeta(meta) + part)
    ensures ScanLog(file, pos, end) == Scan(Finds(rs, pos), false)
    ensures meta.size < INT_LIMIT ==> Settled(file, pos, end)
    decreases |rs|
  {
    hide Encode, EncodeMeta, RecordAt, HasRecord, MetaAt, MetaOf;
    var tail := EncodeMeta(meta) + part;
    if rs == [] {
      assert Log(rs) + tail == tail;
      MetaAtHead(file, pos, end, meta, part);
    } else {
      hide Log;
      var r, ts := rs[0], rs[1..];
      assert rs == [r] + ts;
      LogCons(r, ts);
      assert Encode(r) + Log(ts) + tail == Encode(r) + (Log(ts) + tail);
      RecordAtHead(file, pos, end, r, Log(ts) + tail);
      DropHead(file, pos, end, Encode(r), Log(ts) + tail);
      ScanOfCut(file, pos + FILE_META_SIZE + |r.data|, end, ts, meta, part);
    }
  }

  lemma MetaAtHead(file: seq<byte>, pos: nat, end: nat, meta: FileMeta, part: seq<byte>)
    requires pos <= end <= |file| && MetaFits(meta) && file[pos..end] == EncodeMeta(meta) + part
    ensures FILE_META_SIZE + |part| == end - pos && MetaAt(file, pos) == meta
    ensures HasRecord(file, pos, end) <==> meta.size <= |part|
  {
    hide EncodeMeta, DecodeMeta;
    var s := file[pos..end];
    DecodeMetaOfEncoded(meta, part);
    DecodeMetaPrefix(s);
    assert s[..FILE_META_SIZE] == file[pos..pos + FILE_META_SIZE];
  }

  // ---------------------------------------------------------------------------
  // Machine words.

  /** What a C int can hold ends here. */
  const INT_LIMIT: nat := 0x8000_0000

  /** And what a file offset can hold, here. */
  const OFF_LIMIT: nat := 0x8000_0000_0000_0000

  datatype Outcome =
    | EndOfLog
    | Parsed(found: Found)
    | Malformed
    | Aborted   // the assertion that a whole meta block is in the buffer fails

  /** The `left` bytes of the buffer from `pos` on are those of the file before `fpos`. */
  predicate Window(buf: seq<byte>, pos: nat, left: nat, file: seq<byte>, fpos: nat) {
    pos + left <= |buf| && left <= fpos <= |file| && buf[pos..pos + left] == file[fpos - left..fpos]
  }

  lemma WindowEmpty(buf: seq<byte>, pos: nat, file: seq<byte>, fpos: nat)
    requires pos <= |buf| && fpos <= |file|
    ensures Window(buf, pos, 0, file, fpos)
  {
  }

  lemma WindowGrows(was: seq<byte>, buf: seq<byte>, left: nat, n: nat, file: seq<byte>, fpos: nat)
    requires Window(was, 0, left, file, fpos) && left + n <= |buf| && fpos + n <= |file|
    requires buf[..left] == was[..left] && buf[left..left + n] == file[fpos..fpos + n]
    ensures Window(buf, 0, left + n, file, fpos + n)
  {
    SliceJoin(file, fpos - left, fpos, fpos + n);
    SliceJoin(buf, 0, left, left + n);
  }

  lemma WindowShrinks(buf: seq<byte>, pos: nat, left: nat, n: nat, file: seq<byte>, fpos: nat)
    requires Window(buf, pos, left, file, fpos) && n <= left
    ensures Window(buf, pos + n, left - n, file, fpos)
    ensures buf[pos..pos + n] == file[fpos - left..fpos - left + n]
  {
    SliceSlice(file, fpos - left, fpos, n, left);
    SliceSlice(buf, pos, pos + left, n, left);
    SliceSlice(file, fpos - left, fpos, 0, n);
    SliceSlice(buf, pos, pos + left, 0, n);
  }

  /** A record as the parser notes it when the file descriptor is at `at` and the record is taken to
      end `rest` bytes before: both numbers are computed in machine words. */
  function Noted(meta: FileMeta, at: nat, rest: int): Found {
    Found(meta.fid, Word64(Int32(at) - meta.size - FILE_META_SIZE - rest), Word32(meta.size + FILE_META_SIZE))
  }

  /** With the descriptor inside the range of an int, a record that is skipped is noted where it is. */
  lemma NotedExactly(meta: FileMeta, at: nat, rest: nat, pos: nat)
    requires at < INT_LIMIT && pos + FILE_META_SIZE + meta.size + rest == at
    ensures Noted(meta, at, rest) == Found(meta.fid, pos, meta.size + FILE_META_SIZE)
  {
  }

  /** Outside it, it is not. */
  lemma NotedWrongly(meta: FileMeta, at: nat, rest: nat, pos: nat)
    requires INT_LIMIT <= at < OFF_LIMIT && pos + FILE_META_SIZE + meta.size + rest == at
    ensures Noted(meta, at, rest).offset != pos
  {
    Word64Far(pos, Int32(at) - meta.size - FILE_META_SIZE - rest);
  }

  /** Nor is one that is not skipped. */
  lemma NarrowNotedWrongly(meta: FileMeta, at: nat, rest: nat, pos: nat)
    requires at < OFF_LIMIT && pos + FILE_META_SIZE + rest == at && INT_LIMIT <= meta.size < 0x1_0000_0000
    ensures Noted(meta, at, rest).offset != pos
  {
    Word64Far(pos, Int32(at) - meta.size - FILE_META_SIZE - rest);
  }

  /** With the descriptor inside the range of an int it is noted as far before as its size is large. */
  lemma NotedNarrow(meta: FileMeta, at: nat, rest: nat, pos: nat)
    requires at < INT_LIMIT && pos + FILE_META_SIZE + rest == at
    ensures Noted(meta, at, rest) == Found(meta.fid, Word64(pos - meta.size), Word32(meta.size + FILE_META_SIZE))
  {
  }

  // ---------------------------------------------------------------------------
  // What the parser makes of a log, as a function of how it is read.

  /** What a read at `at` delivers of the `most` bytes that it could: all of them, or as many as there
      are up to the first place at which reads stop short. No place is read from twice, so every way
      in which reads can go is one set of such places. */
  function Delivered(stops: set<nat>, at: nat, most: nat): (n: nat)
    ensures n <= most && (n == 0 <==> most == 0)
    decreases most
  {
    if most <= 1 || at + 1 in stops then Min(most, 1) else 1 + Delivered(stops, at + 1, most - 1)
  }

  lemma {:induction false} DeliveredAll(at: nat, most: nat)
    ensures Delivered({}, at, most) == most
    decreases most
  {
    if most > 1 { DeliveredAll(at + 1, most - 1); }
  }

  /** Up to a stop at `q`, if there is none before. */
  lemma {:induction false} DeliveredTo(stops: set<nat>, at: nat, most: nat, q: nat)
    requires at < q && q in stops && forall p :: at < p < q ==> p !in stops
    ensures Delivered(stops, at, most) == Min(most, q - at)
    decreases most
  {
    if most > 1 && at + 1 !in stops { DeliveredTo(stops, at + 1, most - 1, q); }
  }

  /** Every way of delivering at least a byte is one of these. */
  lemma DeliveredAny(at: nat, most: nat, n: nat)
    requires 1 <= n <= most
    ensures Delivered({at + n}, at, most) == n
  {
    DeliveredTo({at + n}, at, most, at + n);
  }

  /** What is left of a body behind `left` buffered bytes does not fit into an int. */
  predicate Narrow(size: nat, left: nat) { size - left >= INT_LIMIT }

  lemma NarrowExactly(size: nat, left: nat)
    requires left < size < 0x1_0000_0000
    ensures Int32(size - left) < 0 <==> Narrow(size, left)
    ensures !Narrow(size, left) ==> Int32(size - left) == size - left
  {
  }

  /** The records that are noted, and whether the process aborts behind the last of them. */
  datatype Parse = Parse(notes: seq<Found>, aborted: bool)

  /** A log that ends inside the range of an int, the size of the buffer it is read through, and the
      places at which reads stop short. A state of the parser is how far the log has been consumed and
      how many bytes behind that are buffered. */
  datatype Reading = Reading(file: seq<byte>, end: nat, bufSize: nat, stops: set<nat>) {

    predicate Ok() { end <= |file| && end < INT_LIMIT && FILE_META_SIZE <= bufSize }

    predicate At(pos: nat, left: nat) { Ok() && pos + left <= end && left <= bufSize }

    /** How much is buffered when the meta block at `pos` is looked at. */
    function Buffered(pos: nat, left: nat): (b: nat)
      requires At(pos, left)
      ensures At(pos, b) && left <= b
    {
      if left < FILE_META_SIZE then left + Delivered(stops, pos + left, Min(end - pos - left, bufSize - left)) else left
    }

    /** How much is buffered behind a body of which `skip` bytes are to be read from `at` on. */
    function Skim(at: nat, skip: nat): (left: nat)
      requires Ok() && 0 < skip && at + skip <= end
      ensures At(at + skip, left)
      decreases skip
    {
      var n := Delivered(stops, at, Min(end - at, bufSize));
      if n < skip then Skim(at + n, skip - n) else n - skip
    }

    lemma SkimIs(at: nat, skip: nat)
      requires Ok() && 0 < skip && at + skip <= end
      ensures var n := Delivered(stops, at, Min(end - at, bufSize));
              Skim(at, skip) == if n < skip then Skim(at + n, skip - n) else n - skip
    {
    }

    /** And how much behind the record at `pos`, when `buffered` bytes were at its start. */
    function Behind(pos: nat, buffered: nat): (left: nat)
      requires At(pos, buffered) && FILE_META_SIZE <= buffered && HasRecord(file, pos, end)
      ensures At(pos + RecordAt(file, pos).size, left)
    {
      var (size, rest) := (MetaAt(file, pos).size, buffered - FILE_META_SIZE);
      if size <= rest then rest - size else Skim(pos + buffered, size - rest)
    }

    /** What the parser makes of the record at `pos`. */
    function Next(pos: nat, left: nat): (o: Outcome)
      requires At(pos, left)
      ensures o.Parsed? ==> FILE_META_SIZE <= end - pos && FILE_META_SIZE <= Buffered(pos, left)
    {
      if pos == end then EndOfLog
      else if left < FILE_META_SIZE && left == end - pos then Malformed
      else if Buffered(pos, left) < FILE_META_SIZE then Aborted
      else
        var meta := MetaAt(file, pos);
        if Narrow(meta.size, Buffered(pos, left) - FILE_META_SIZE) then
          Parsed(Found(meta.fid, Word64(pos - meta.size), Word32(meta.size + FILE_META_SIZE)))
        else if HasRecord(file, pos, end) then Parsed(RecordAt(file, pos))
        else Malformed
    }

    /** Where that leaves it. */
    function Then(pos: nat, left: nat): (s: (nat, nat))
      requires At(pos, left) && Next(pos, left).Parsed?
      ensures At(s.0, s.1) && pos < s.0
    {
      var b := Buffered(pos, left);
      if Narrow(MetaAt(file, pos).size, b - FILE_META_SIZE) then (pos + FILE_META_SIZE, b - FILE_META_SIZE)
      else (pos + RecordAt(file, pos).size, Behind(pos, b))
    }

    /** The whole parse. */
    function Parsing(pos: nat, left: nat): Parse
      requires At(pos, left)
      decreases end - pos
    {
      match Next(pos, left)
      case EndOfLog => Parse([], false)
      case Malformed => Parse([], false)
      case Aborted => Parse([], true)
      case Parsed(f) => After([f], Parsing(Then(pos, left).0, Then(pos, left).1))
    }

    /** Every meta block of the log is buffered whole when it is looked at, and where the scan stops
        there is nothing, or less than a meta block and that is buffered, or a meta block with a size
        that an int can tell. */
    predicate Clean(pos: nat, left: nat)
      requires At(pos, left)
      decreases end - pos
    {
      if end - pos < FILE_META_SIZE then left == end - pos
      else
        && FILE_META_SIZE <= Buffered(pos, left)
        && if HasRecord(file, pos, end) then Clean(pos + RecordAt(file, pos).size, Behind(pos, Buffered(pos, left)))
           else !Narrow(MetaAt(file, pos).size, Buffered(pos, left) - FILE_META_SIZE)
    }

    /** Every meta block is buffered whole, and the scan stops at one with a size that an int cannot
        tell. */
    predicate Misreads(pos: nat, left: nat)
      requires At(pos, left)
      decreases end - pos
    {
      && FILE_META_SIZE <= end - pos && FILE_META_SIZE <= Buffered(pos, left)
      && if HasRecord(file, pos, end) then Misreads(pos + RecordAt(file, pos).size, Behind(pos, Buffered(pos, left)))
         else Narrow(MetaAt(file, pos).size, Buffered(pos, left) - FILE_META_SIZE)
    }

    /** A record that is there is parsed if its meta block is buffered. */
    lemma NextAtRecord(pos: nat, left: nat)
      requires At(pos, left) && HasRecord(file, pos, end)
      ensures Next(pos, left) == if FILE_META_SIZE <= Buffered(pos, left) then Parsed(RecordAt(file, pos)) else Aborted
      ensures FILE_META_SIZE <= Buffered(pos, left) ==>
                Then(pos, left) == (pos + RecordAt(file, pos).size, Behind(pos, Buffered(pos, left)))
    {
      hide DecodeMeta, Behind;
    }

    /** The whole parse against the scan. It notes the scan's records and goes through exactly if it
        is clean, it notes more than those exactly if it misreads, and otherwise it aborts. */
    lemma {:induction false} ParsingExact(pos: nat, left: nat)
      requires At(pos, left)
      ensures Clean(pos, left) <==> Parsing(pos, left) == Parse(ScanLog(file, pos, end).found, false)
      ensures Misreads(pos, left) <==> ScanLog(file, pos, end).found < Parsing(pos, left).notes
      ensures !Misreads(pos, left) ==> Parsing(pos, left).notes <= ScanLog(file, pos, end).found
      ensures Clean(pos, left) || Misreads(pos, left) || Parsing(pos, left).aborted
      decreases end - pos
    {
      hide MetaAt, RecordAt, Behind, Narrow;
      if pos < end && HasRecord(file, pos, end) {
        hide HasRecord, Buffered;
        RecordBounds(file, pos, end);
        NextAtRecord(pos, left);
        if FILE_META_SIZE <= Buffered(pos, left) {
          var f, next := RecordAt(file, pos), Then(pos, left);
          ParsingExact(next.0, next.1);
          AfterExact(f, Parsing(next.0, next.1), ScanLog(file, next.0, end).found);
        }
      }
    }

    /** A parse through full reads is clean if the scan stops at the end or at a size below 2^31. */
    lemma {:induction false} SettledClean(pos: nat, left: nat)
      requires At(pos, left) && stops == {} && Settled(file, pos, end)
      ensures Clean(pos, left)
      decreases end - pos
    {
      hide MetaAt, RecordAt, Behind, Skim;
      if pos < end {
        DeliveredAll(pos + left, if left < FILE_META_SIZE then Min(end - pos - left, bufSize - left) else 0);
        if HasRecord(file, pos, end) {
          RecordBounds(file, pos, end);
          SettledClean(pos + RecordAt(file, pos).size, Behind(pos, Buffered(pos, left)));
        }
      }
    }

    /** However it is read, no size is misread if the scan does not stop at one of 2^31 or more. */
    lemma {:induction false} TameReads(pos: nat, left: nat)
      requires At(pos, left) && Tame(file, pos, end)
      ensures !Misreads(pos, left)
      decreases end - pos
    {
      hide MetaAt, RecordAt, Behind, Skim;
      if FILE_META_SIZE <= end - pos && FILE_META_SIZE <= Buffered(pos, left) && HasRecord(file, pos, end) {
        RecordBounds(file, pos, end);
        TameReads(pos + RecordAt(file, pos).size, Behind(pos, Buffered(pos, left)));
      }
    }

    /** And one that no buffer makes up for always is, unless the process aborts. */
    lemma {:induction false} WildReads(pos: nat, left: nat)
      requires At(pos, left) && Wild(file, pos, end, bufSize)
      ensures !Clean(pos, left)
      decreases end - pos
    {
      hide MetaAt, RecordAt, Behind, Skim;
      if FILE_META_SIZE <= Buffered(pos, left) && HasRecord(file, pos, end) {
        RecordBounds(file, pos, end);
        WildReads(pos + RecordAt(file, pos).size, Behind(pos, Buffered(pos, left)));
      }
    }

    /** Reads that stop at `q` buffer no more than the bytes before it. */
    lemma {:induction false} SkimTo(at: nat, skip: nat, q: nat)
      requires Ok() && 0 < skip && at + skip <= q <= end && stops == {q, q + FILE_META_SIZE}
      ensures at + skip + Skim(at, skip) <= q
      decreases skip
    {
      DeliveredTo(stops, at, Min(end - at, bufSize), q);
      var n := Delivered(stops, at, Min(end - at, bufSize));
      if n < skip { SkimTo(at + n, skip - n, q); }
    }

    lemma StopsBehind(pos: nat, left: nat, q: nat)
      requires At(pos, left) && pos + left <= q <= end && stops == {q, q + FILE_META_SIZE}
      requires HasRecord(file, pos, end) && pos + RecordAt(file, pos).size <= q
      ensures FILE_META_SIZE <= Buffered(pos, left)
      ensures pos + RecordAt(file, pos).size + Behind(pos, Buffered(pos, left)) <= q
    {
      hide MetaAt, Skim;
      if left < FILE_META_SIZE { DeliveredTo(stops, pos + left, Min(end - pos - left, bufSize - left), q); }
      var b := Buffered(pos, left);
      if MetaAt(file, pos).size > b - FILE_META_SIZE {
        SkimTo(pos + b, MetaAt(file, pos).size - (b - FILE_META_SIZE), q);
      }
    }

    /** A log that the scan leaves at `q`, at a size of 2^31 or more, is misread if reads stop before
        and behind that meta block. */
    lemma {:induction false} StopsMisread(pos: nat, left: nat, q: nat)
      requires At(pos, left) && pos + left <= q && !Tame(file, pos, end) && q == StopOf(file, pos, end)
      requires stops == {q, q + FILE_META_SIZE}
      ensures Misreads(pos, left)
      decreases end - pos
    {
      hide MetaAt, RecordAt, Behind, Delivered;
      if HasRecord(file, pos, end) {
        RecordBounds(file, pos, end);
        var next := pos + RecordAt(file, pos).size;
        StopBounds(file, next, end);
        StopsBehind(pos, left, q);
        StopsMisread(next, Behind(pos, Buffered(pos, left)), q);
      } else {
        DeliveredTo(stops, pos, Min(end - pos, bufSize), q + FILE_META_SIZE);
      }
    }
  }

  function After(fs: seq<Found>, p: Parse): Parse { Parse(fs + p.notes, p.aborted) }

  lemma AfterExact(f: Found, p: Parse, found: seq<Found>)
    ensures After([f], p) == Parse([f] + found, false) <==> p == Parse(found, false)
    ensures [f] + found < After([f], p).notes <==> found < p.notes
    ensures After([f], p).notes <= [f] + found <==> p.notes <= found
  {
    var a, b := [f] + found, [f] + p.notes;
    assert a[1..] == found && b[1..] == p.notes;
    if a <= b { assert forall i :: 0 <= i < |found| ==> found[i] == a[i + 1] && p.notes[i] == b[i + 1]; }
    if b <= a { assert forall i :: 0 <= i < |p.notes| ==> found[i] == a[i + 1] && p.notes[i] == b[i + 1]; }
  }

  /** The scan stops at the end of the log, or at a whole meta block that claims less than 2^31 bytes. */
  predicate Settled(file: seq<byte>, pos: nat, end: nat)
    requires pos <= end <= |file|
    decreases end - pos
  {
    pos == end ||
    (FILE_META_SIZE <= end - pos &&
     if HasRecord(file, pos, end) then Settled(file, pos + RecordAt(file, pos).size, end)
     else MetaAt(file, pos).size < INT_LIMIT)
  }

  lemma {:induction false} CompleteSettled(file: seq<byte>, pos: nat, end: nat)
    requires pos <= end <= |file| && ScanLog(file, pos, end).complete
    ensures Settled(file, pos, end)
    decreases end - pos
  {
    hide MetaAt;
    if pos < end { CompleteSettled(file, pos + RecordAt(file, pos).size, end); }
  }

  /** The meta block at which the scan stops, if there is one, claims less than 2^31 bytes. */
  predicate Tame(file: seq<byte>, pos: nat, end: nat)
    requires pos <= end <= |file|
    decreases end - pos
  {
    end - pos < FILE_META_SIZE ||
    if HasRecord(file, pos, end) then Tame(file, pos + RecordAt(file, pos).size, end)
    else MetaAt(file, pos).size < INT_LIMIT
  }

  /** It claims so much that no buffer of `bufSize` bytes makes up for it. */
  predicate Wild(file: seq<byte>, pos: nat, end: nat, bufSize: nat)
    requires pos <= end <= |file|
    decreases end - pos
  {
    FILE_META_SIZE <= end - pos &&
    if HasRecord(file, pos, end) then Wild(file, pos + RecordAt(file, pos).size, end, bufSize)
    else MetaAt(file, pos).size >= INT_LIMIT + bufSize
  }

  lemma {:induction false} SettledTame(file: seq<byte>, pos: nat, end: nat)
    requires pos <= end <= |file| && Settled(file, pos, end)
    ensures Tame(file, pos, end)
    decreases end - pos
  {
    hide MetaAt;
    if pos < end && HasRecord(file, pos, end) { SettledTame(file, pos + RecordAt(file, pos).size, end); }
  }

  /** Where the scan stops. */
  function StopOf(file: seq<byte>, pos: nat, end: nat): nat
    requires pos <= end <= |file|
    decreases end - pos
  {
    if HasRecord(file, pos, end) then StopOf(file, pos + RecordAt(file, pos).size, end) else pos
  }

  lemma {:induction false} StopBounds(file: seq<byte>, pos: nat, end: nat)
    requires pos <= end <= |file|
    ensures pos <= StopOf(file, pos, end) <= end
    decreases end - pos
  {
    hide MetaAt;
    if HasRecord(file, pos, end) { StopBounds(file, pos + RecordAt(file, pos).size, end); }
  }

  /** The parser notes a record exactly where the scan finds one, if its meta block is buffered and
      unless the size in it is too large for an int. */
  lemma NextExact(rd: Reading, pos: nat, left: nat)
    requires rd.At(pos, left) && FILE_META_SIZE <= rd.end - pos
    ensures (if HasRecord(rd.file, pos, rd.end) then rd.Next(pos, left) == Parsed(RecordAt(rd.file, pos))
             else rd.Next(pos, left).Malformed?) <==>
            && FILE_META_SIZE <= rd.Buffered(pos, left)
            && !Narrow(MetaAt(rd.file, pos).size, rd.Buffered(pos, left) - FILE_META_SIZE)
  {
    hide DecodeMeta, Reading.Buffered;
  }

  /** Over a whole log: some way of reading it makes the parser note a record that is not there,
      exactly if the scan stops at a size of 2^31 or more. */
  lemma MisreadSomehow(file: seq<byte>, pos: nat, end: nat, bufSize: nat)
    requires pos <= end <= |file| && end < INT_LIMIT && FILE_META_SIZE <= bufSize
    ensures (exists stops :: ScanLog(file, pos, end).found < Reading(file, end, bufSize, stops).Parsing(pos, 0).notes) <==>
            !Tame(file, pos, end)
  {
    hide ScanLog, Tame, Reading.Parsing, Reading.Misreads, Reading.Clean;
    if Tame(file, pos, end) {
      forall stops ensures !(ScanLog(file, pos, end).found < Reading(file, end, bufSize, stops).Parsing(pos, 0).notes) {
        Reading(file, end, bufSize, stops).TameReads(pos, 0);
        Reading(file, end, bufSize, stops).ParsingExact(pos, 0);
      }
    } else {
      var q := StopOf(file, pos, end);
      StopBounds(file, pos, end);
      var rd := Reading(file, end, bufSize, {q, q + FILE_META_SIZE});
      rd.StopsMisread(pos, 0, q);
      rd.ParsingExact(pos, 0);
    }
  }
}
