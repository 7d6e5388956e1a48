/**
 The layout of a chunk file: a superblock of 55 bytes, then one record per file, a meta block of
 30 bytes followed by the file's data.
 */
module Format {
  import opened Codec
  import opened Adler

  const SUPERBLOCK_SIZE: nat := 55
  const FILE_META_SIZE: nat := 30

  /** "CHUNK_SB_MAGIC!" */
  const MAGIC: seq<byte> := [67, 72, 85, 78, 75, 95, 83, 66, 95, 77, 65, 71, 73, 67, 33]

  // ---------------------------------------------------------------------------
  // The superblock.

  datatype Super = Super(chunkId: nat, filesAlloc: nat, filesCount: nat, currentOffset: nat, availSpace: nat)

  predicate SuperFits(sb: Super) {
    && sb.chunkId < 0x1_0000_0000_0000_0000
    && sb.filesAlloc < 0x1_0000_0000
    && sb.filesCount < 0x1_0000_0000
    && sb.currentOffset < 0x1_0000_0000_0000_0000
    && sb.availSpace < 0x1_0000_0000_0000_0000
  }

  function SuperBody(sb: Super): (s: seq<byte>)
    ensures |s| == 47
  {
    MAGIC + BigEndian(sb.chunkId, 8) + BigEndian(sb.filesAlloc, 4) + BigEndian(sb.filesCount, 4)
    + BigEndian(sb.currentOffset, 8) + BigEndian(sb.availSpace, 8)
  }

  function EncodeSuper(sb: Super): (s: seq<byte>)
    ensures |s| == SUPERBLOCK_SIZE
  {
    hide Checksum;
    SuperBody(sb) + BigEndian(Checksum(0, SuperBody(sb)), 8)
  }

  /** The fields behind the magic, as the recovery reads them. */
  function SuperFields(s: seq<byte>): Super
    requires |s| >= SUPERBLOCK_SIZE
  {
    Super(ReadFrom8(s, 15), ReadFrom4(s, 23), ReadFrom4(s, 27), ReadFrom8(s, 31), ReadFrom8(s, 39))
  }

  /** The recovery stops the process on a wrong magic or a wrong checksum. */
  function ParseSuper(s: seq<byte>): Option<Super>
    requires |s| >= SUPERBLOCK_SIZE
  {
    if s[..15] == MAGIC && ReadFrom8(s, 47) == Checksum(0, s[..47]) then Some(SuperFields(s)) else None
  }

  lemma ReadField8(s: seq<byte>, pre: seq<byte>, n: nat, post: seq<byte>)
    requires n < 0x1_0000_0000_0000_0000
    requires s == pre + BigEndian(n, 8) + post
    ensures ReadFrom8(s, |pre|) == n
  {
    assert s[|pre|..|pre| + 8] == BigEndian(n, 8);
    Pow256Values();
    FromBigEndianOfBigEndian(n, 8);
  }

  lemma ReadField4(s: seq<byte>, pre: seq<byte>, n: nat, post: seq<byte>)
    requires n < 0x1_0000_0000
    requires s == pre + BigEndian(n, 4) + post
    ensures ReadFrom4(s, |pre|) == n
  {
    assert s[|pre|..|pre| + 4] == BigEndian(n, 4);
    Pow256Values();
    FromBigEndianOfBigEndian(n, 4);
  }

  lemma ReadField2(s: seq<byte>, pre: seq<byte>, n: nat, post: seq<byte>)
    requires n < 0x1_0000
    requires s == pre + BigEndian(n, 2) + post
    ensures ReadFrom2(s, |pre|) == n
  {
    assert s[|pre|..|pre| + 2] == BigEndian(n, 2);
    Pow256Values();
    FromBigEndianOfBigEndian(n, 2);
  }

  lemma SuperFieldsOfEncoded(sb: Super, rest: seq<byte>)
    requires SuperFits(sb)
    ensures SuperFields(EncodeSuper(sb) + rest) == sb
  {
    hide Checksum, ReadFrom8, ReadFrom4, BigEndian;
    var s := EncodeSuper(sb) + rest;
    var (a, b, c, d, e) := (BigEndian(sb.chunkId, 8), BigEndian(sb.filesAlloc, 4), BigEndian(sb.filesCount, 4),
                            BigEndian(sb.currentOffset, 8), BigEndian(sb.availSpace, 8));
    var tail := BigEndian(Checksum(0, SuperBody(sb)), 8) + rest;
    assert s == MAGIC + a + b + c + d + e + tail;
    assert s == MAGIC + a + (b + c + d + e + tail);
    ReadField8(s, MAGIC, sb.chunkId, b + c + d + e + tail);
    assert s == (MAGIC + a) + b + (c + d + e + tail);
    ReadField4(s, MAGIC + a, sb.filesAlloc, c + d + e + tail);
    assert s == (MAGIC + a + b) + c + (d + e + tail);
    ReadField4(s, MAGIC + a + b, sb.filesCount, d + e + tail);
    assert s == (MAGIC + a + b + c) + d + (e + tail);
    ReadField8(s, MAGIC + a + b + c, sb.currentOffset, e + tail);
    ReadField8(s, MAGIC + a + b + c + d, sb.availSpace, tail);
  }

  /** Parsing a filled superblock gives back the chunk's fields, whatever follows it. */
  lemma ParseSuperOfEncoded(sb: Super, rest: seq<byte>)
    requires SuperFits(sb)
    ensures ParseSuper(EncodeSuper(sb) + rest) == Some(sb)
  {
    hide Checksum, ReadFrom8, ReadFrom4, BigEndian, SuperFields;
    var s := EncodeSuper(sb) + rest;
    SuperFieldsOfEncoded(sb, rest);
    assert s[..47] == SuperBody(sb);
    assert s[..15] == SuperBody(sb)[..15] == MAGIC;
    assert s == SuperBody(sb) + BigEndian(Checksum(0, SuperBody(sb)), 8) + rest;
    ReadField8(s, SuperBody(sb), Checksum(0, SuperBody(sb)), rest);
  }

  lemma Field8(s: seq<byte>, at: nat)
    requires at + 8 <= |s|
    ensures ReadFrom8(s, at) < 0x1_0000_0000_0000_0000 && BigEndian(ReadFrom8(s, at), 8) == s[at..at + 8]
  {
    BigEndianOfFromBigEndian(s[at..at + 8]);
    Pow256Values();
  }

  lemma Field4(s: seq<byte>, at: nat)
    requires at + 4 <= |s|
    ensures ReadFrom4(s, at) < 0x1_0000_0000 && BigEndian(ReadFrom4(s, at), 4) == s[at..at + 4]
  {
    BigEndianOfFromBigEndian(s[at..at + 4]);
    Pow256Values();
  }

  /** And nothing else parses: what is accepted is the filled superblock of the fields it gives. */
  lemma ParseSuperExact(s: seq<byte>, sb: Super)
    requires |s| >= SUPERBLOCK_SIZE
    ensures ParseSuper(s) == Some(sb) <==> SuperFits(sb) && s[..SUPERBLOCK_SIZE] == EncodeSuper(sb)
  {
    hide Checksum, ReadFrom8, ReadFrom4, BigEndian;
    if ParseSuper(s) == Some(sb) {
      Field8(s, 15);
      Field4(s, 23);
      Field4(s, 27);
      Field8(s, 31);
      Field8(s, 39);
      Field8(s, 47);
      assert s[..47] == SuperBody(sb) by {
        assert s[..47] == s[..15] + s[15..23] + s[23..27] + s[27..31] + s[31..39] + s[39..47];
      }
      assert s[..SUPERBLOCK_SIZE] == s[..47] + s[47..55];
    }
    if SuperFits(sb) && s[..SUPERBLOCK_SIZE] == EncodeSuper(sb) {
      assert s == s[..SUPERBLOCK_SIZE] + s[SUPERBLOCK_SIZE..];
      ParseSuperOfEncoded(sb, s[SUPERBLOCK_SIZE..]);
    }
  }

  /** So a superblock of which one byte is damaged, in the checksum or before it, is refused. */
  lemma DamagedSuper(sb: Super, i: nat, x: byte, rest: seq<byte>)
    requires SuperFits(sb) && i < SUPERBLOCK_SIZE && x != EncodeSuper(sb)[i]
    ensures ParseSuper(EncodeSuper(sb)[i := x] + rest) == None
  {
    hide EncodeSuper, ParseSuper, SuperFits;
    var d := EncodeSuper(sb)[i := x];
    forall t ensures ParseSuper(d + rest) != Some(t) {
      ParseSuperExact(d + rest, t);
      assert (d + rest)[..SUPERBLOCK_SIZE] == d;
      NotASuper(sb, t, i, x);
    }
  }

  lemma NotASuper(sb: Super, t: Super, i: nat, x: byte)
    requires i < SUPERBLOCK_SIZE && x != EncodeSuper(sb)[i]
    ensures EncodeSuper(t) != EncodeSuper(sb)[i := x]
  {
    hide Checksum, BigEndian, SuperBody;
    var (body, other, d) := (SuperBody(sb), SuperBody(t), EncodeSuper(sb)[i := x]);
    assert EncodeSuper(t)[..47] == other;
    if i < 47 && other == body[i := x] {
      OneByteDetected(body, i, x);
      WordsApart(Checksum(0, other), Checksum(0, body));
      assert EncodeSuper(t)[47..] == BigEndian(Checksum(0, other), 8) && d[47..] == BigEndian(Checksum(0, body), 8);
    } else if i < 47 {
      assert d[..47] == body[i := x];
    } else if other == body {
      assert d[i] != EncodeSuper(t)[i];
    } else {
      assert d[..47] == body;
    }
  }

  lemma WordsApart(m: nat, n: nat)
    requires m < 0x1_0000_0000 && n < 0x1_0000_0000 && m != n
    ensures BigEndian(m, 8) != BigEndian(n, 8)
  {
    Pow256Values();
    FromBigEndianOfBigEndian(m, 8);
    FromBigEndianOfBigEndian(n, 8);
  }

  /** Fills the superblock in place, field after field, and its checksum last. */
  method FillSuperblock(buf: array<byte>, sb: Super)
    requires buf.Length == SUPERBLOCK_SIZE && SuperFits(sb)
    modifies buf
    ensures buf[..] == EncodeSuper(sb)
  {
    hide BigEndian, Checksum;
    forall i | 0 <= i < 15 { buf[i] := MAGIC[i]; }
    WriteTo8(buf, 15, sb.chunkId);
    WriteTo4(buf, 23, sb.filesAlloc);
    WriteTo4(buf, 27, sb.filesCount);
    WriteTo8(buf, 31, sb.currentOffset);
    WriteTo8(buf, 39, sb.availSpace);
    assert buf[..47] == SuperBody(sb);
    var checksum := Adler32(0, buf, 47);
    assert checksum == Checksum(0, SuperBody(sb));
    WriteTo8(buf, 47, checksum);
  }

  // ---------------------------------------------------------------------------
  // The meta block of a file.

  datatype FileMeta = FileMeta(fid: nat, ref: nat, size: nat, checksum: nat, timestamp: nat)

  predicate MetaFits(m: FileMeta) {
    && m.fid < 0x1_0000_0000_0000_0000
    && m.ref < 0x1_0000
    && m.size < 0x1_0000_0000
    && m.checksum < 0x1_0000_0000_0000_0000
    && m.timestamp < 0x1_0000_0000_0000_0000
  }

  function EncodeMeta(m: FileMeta): (s: seq<byte>)
    ensures |s| == FILE_META_SIZE
  {
    BigEndian(m.fid, 8) + BigEndian(m.ref, 2) + BigEndian(m.size, 4)
    + BigEndian(m.checksum, 8) + BigEndian(m.timestamp, 8)
  }

  function DecodeMeta(s: seq<byte>): FileMeta
    requires |s| >= FILE_META_SIZE
  {
    FileMeta(ReadFrom8(s, 0), ReadFrom2(s, 8), ReadFrom4(s, 10), ReadFrom8(s, 14), ReadFrom8(s, 22))
  }

  /** What the reader and the recovery decode is what the writer encoded. */
  lemma DecodeMetaOfEncoded(m: FileMeta, rest: seq<byte>)
    requires MetaFits(m)
    ensures DecodeMeta(EncodeMeta(m) + rest) == m
  {
    hide ReadFrom8, ReadFrom4, ReadFrom2, BigEndian;
    var s := EncodeMeta(m) + rest;
    var (a, b, c, d, e) := (BigEndian(m.fid, 8), BigEndian(m.ref, 2), BigEndian(m.size, 4),
                            BigEndian(m.checksum, 8), BigEndian(m.timestamp, 8));
    assert s == [] + a + (b + c + d + e + rest);
    ReadField8(s, [], m.fid, b + c + d + e + rest);
    assert s == a + b + (c + d + e + rest);
    ReadField2(s, a, m.ref, c + d + e + rest);
    assert s == (a + b) + c + (d + e + rest);
    ReadField4(s, a + b, m.size, d + e + rest);
    assert s == (a + b + c) + d + (e + rest);
    ReadField8(s, a + b + c, m.checksum, e + rest);
    assert s == (a + b + c + d) + e + rest;
    ReadField8(s, a + b + c + d, m.timestamp, rest);
  }

  /** Decoding looks at the thirty bytes of the meta block only. */
  lemma DecodeMetaPrefix(s: seq<byte>)
    requires |s| >= FILE_META_SIZE
    ensures DecodeMeta(s) == DecodeMeta(s[..FILE_META_SIZE])
  {
  }

  method FillMeta(buf: array<byte>, m: FileMeta)
    requires buf.Length == FILE_META_SIZE && MetaFits(m)
    modifies buf
    ensures buf[..] == EncodeMeta(m)
  {
    hide BigEndian;
    WriteTo8(buf, 0, m.fid);
    WriteTo2(buf, 8, m.ref);
    WriteTo4(buf, 10, m.size);
    WriteTo8(buf, 14, m.checksum);
    WriteTo8(buf, 22, m.timestamp);
  }

  // ---------------------------------------------------------------------------
  // Records and logs of records.

  /** A stored file: the client's fid and data, the time it was written and its checksum. */
  datatype Record = Record(fid: nat, time: nat, checksum: nat, data: seq<byte>)

  predicate RecordFits(r: Record) {
    && r.fid < 0x1_0000_0000_0000_0000
    && r.time < 0x1_0000_0000_0000_0000
    && r.checksum < 0x1_0000_0000
    && |r.data| < 0x1_0000_0000
  }

  /** The checksum is the Adler-32 of the data, from the seed 0 that the server uses. */
  predicate Checked(r: Record) { r.checksum == Checksum(0, r.data) }

  function MetaOf(r: Record): FileMeta {
    FileMeta(r.fid, 1, |r.data|, r.checksum, r.time)
  }

  function Encode(r: Record): (s: seq<byte>)
    ensures |s| == FILE_META_SIZE + |r.data|
  {
    hide EncodeMeta;
    EncodeMeta(MetaOf(r)) + r.data
  }

  /** A record's meta block is found at the head of anything that starts with the record. */
  lemma DecodeRecord(r: Record, rest: seq<byte>)
    requires RecordFits(r)
    ensures DecodeMeta(Encode(r) + rest) == MetaOf(r)
  {
    hide EncodeMeta, DecodeMeta;
    DecodeMetaOfEncoded(MetaOf(r), r.data + rest);
    assert Encode(r) + rest == EncodeMeta(MetaOf(r)) + (r.data + rest);
  }

  function Log(rs: seq<Record>): seq<byte> {
    if rs == [] then [] else Log(rs[..|rs| - 1]) + Encode(rs[|rs| - 1])
  }

  predicate AllFit(rs: seq<Record>) { forall i :: 0 <= i < |rs| ==> RecordFits(rs[i]) }

  lemma {:induction false} LogConcat(rs: seq<Record>, ts: seq<Record>)
    ensures Log(rs + ts) == Log(rs) + Log(ts)
  {
    hide Encode;
    if ts == [] {
      assert rs + ts == rs;
    } else {
      var init := ts[..|ts| - 1];
      LogConcat(rs, init);
      assert (rs + ts)[..|rs + ts| - 1] == rs + init;
    }
  }

  lemma LogCons(r: Record, rs: seq<Record>)
    ensures Log([r] + rs) == Encode(r) + Log(rs)
  {
    hide Encode;
    LogConcat([r], rs);
    assert Log([r]) == Log([]) + Encode(r);
  }
}
