/**
 The registry driver: a stream is cut into fragments that are uploaded in the background, the
 fragments are listed in whatever order their uploads ended, and a reader puts the stream
 together again while a downloader is still fetching.
 */
module Driver {
  import opened Codec

  // ---------------------------------------------------------------------------
  // Uploading.

  /** A fragment as it is sent: where it is in the stream, whether it is the last one, its bytes. */
  datatype Part = Part(index: nat, start: nat, end: nat, isLast: bool, data: seq<byte>)

  function StartOf(ps: seq<Part>, i: nat): nat
    requires i <= |ps|
  {
    if i == 0 then 0 else ps[i - 1].end
  }

  predicate PartOk(ps: seq<Part>, data: seq<byte>, i: nat)
    requires i < |ps|
  {
    && ps[i].index == i && ps[i].start == StartOf(ps, i)
    && ps[i].start < ps[i].end <= |data| && ps[i].data == data[ps[i].start..ps[i].end]
  }

  /** The parts are numbered and cover the first `n` bytes of `data` without gap or overlap. */
  predicate Tile(ps: seq<Part>, data: seq<byte>, n: nat) {
    StartOf(ps, |ps|) == n <= |data| && forall i :: 0 <= i < |ps| ==> PartOk(ps, data, i)
  }

  lemma TilePart(ps: seq<Part>, data: seq<byte>, n: nat, i: nat)
    requires Tile(ps, data, n) && i < |ps|
    ensures PartOk(ps, data, i)
  {
  }

  lemma TileBound(ps: seq<Part>, data: seq<byte>, n: nat)
    requires Tile(ps, data, n)
    ensures n <= |data|
  {
  }

  /** Exactly the last one is marked. */
  predicate LastMarked(ps: seq<Part>) {
    forall i :: 0 <= i < |ps| ==> (ps[i].isLast <==> i == |ps| - 1)
  }

  lemma PartStays(ps: seq<Part>, qs: seq<Part>, data: seq<byte>, more: seq<byte>, i: nat)
    requires i < |ps| && ps <= qs && PartOk(ps, data, i)
    ensures PartOk(qs, data + more, i)
  {
    assert qs[i] == ps[i] && (i > 0 ==> qs[i - 1] == ps[i - 1]);
    assert data[ps[i].start..ps[i].end] == (data + more)[ps[i].start..ps[i].end];
  }

  lemma TileGrows(ps: seq<Part>, p: Part, data: seq<byte>, n: nat, more: seq<byte>)
    requires Tile(ps, data, n)
    requires p == Part(|ps|, n, |data| + |more|, p.isLast, data[n..] + more) && n < |data| + |more|
    ensures Tile(ps + [p], data + more, |data| + |more|)
  {
    hide PartOk;
    forall i | 0 <= i < |ps| ensures PartOk(ps + [p], data + more, i) {
      assert PartOk(ps, data, i);
      PartStays(ps, ps + [p], data, more, i);
    }
    LastPartOk(ps, p, data, n, more);
  }

  lemma LastPartOk(ps: seq<Part>, p: Part, data: seq<byte>, n: nat, more: seq<byte>)
    requires StartOf(ps, |ps|) == n <= |data|
    requires p == Part(|ps|, n, |data| + |more|, p.isLast, data[n..] + more) && n < |data| + |more|
    ensures PartOk(ps + [p], data + more, |ps|)
  {
    assert (data + more)[n..|data| + |more|] == data[n..] + more;
  }

  lemma TileStays(ps: seq<Part>, data: seq<byte>, n: nat, more: seq<byte>)
    requires Tile(ps, data, n)
    ensures Tile(ps, data + more, n)
  {
    hide PartOk;
    forall i | 0 <= i < |ps| ensures PartOk(ps, data + more, i) {
      assert PartOk(ps, data, i);
      PartStays(ps, ps, data, more, i);
    }
  }

  class UploadContext {
    const fragmentSize: nat
    var files: seq<seq<byte>>     // the temporary files
    var curFragment: nat
    var curOffset: nat
    var parts: seq<Part>          // the uploads that have been started
    ghost var pushed: seq<byte>

    ghost predicate Valid()
      reads this
    {
      && Tile(parts, pushed, curOffset) && |parts| == curFragment
      && curFragment <= |files| <= curFragment + 1
      && (if |files| == curFragment then curOffset == |pushed| else files[curFragment] == pushed[curOffset..])
    }

    /** What has been pushed since the last fragment was sent off. */
    ghost function Current(): seq<byte>
      requires curOffset <= |pushed|
      reads this
    {
      pushed[curOffset..]
    }

    lemma OffsetBound()
      requires Valid()
      ensures curOffset <= |pushed|
    {
      TileBound(parts, pushed, curOffset);
    }

    constructor (fragmentSize: nat)
      ensures Valid() && pushed == [] && parts == [] && curOffset == 0 && this.fragmentSize == fragmentSize
    {
      this.fragmentSize := fragmentSize;
      files, curFragment, curOffset, parts, pushed := [], 0, 0, [], [];
    }

    /** Puts a buffer at the end of the current fragment's file. */
    method Append(buf: seq<byte>) returns (content: seq<byte>)
      requires Valid() && curOffset <= |pushed|
      modifies this`files
      ensures content == Current() + buf && |files| == curFragment + 1 && files[curFragment] == content
    {
      hide Tile;
      if |files| <= curFragment {
        files := files + [[]];
      }
      content := files[curFragment] + buf;
      files := files[curFragment := content];
    }

    /** A buffer goes to the end of the current fragment, which is sent off if it has got large
        enough or nothing is to come. */
    method PushContent(buf: seq<byte>, moreData: bool)
      requires Valid() && buf != []
      modifies this
      ensures Valid() && pushed == old(pushed) + buf
      ensures old(parts) <= parts
      ensures forall i :: |old(parts)| <= i < |parts| ==> parts[i].isLast == !moreData
      ensures |parts| == |old(parts)| + 1 || (parts == old(parts) && curOffset == old(curOffset))
      ensures |parts| > |old(parts)| <==> !moreData || |old(pushed)| - old(curOffset) + |buf| >= fragmentSize
      ensures |parts| > |old(parts)| ==> curOffset == |pushed| && parts[|old(parts)|].data == old(Current()) + buf
    {
      hide Tile, PartOk, StartOf;
      TileBound(parts, pushed, curOffset);
      ghost var before := pushed;
      var content := Append(buf);
      var fsize := |content|;
      pushed := before + buf;
      assert content == pushed[curOffset..] by { DropAppend(before, curOffset, buf); }
      if fsize >= fragmentSize || !moreData {
        var part := Part(curFragment, curOffset, curOffset + fsize, !moreData, content);
        TileGrows(parts, part, before, curOffset, buf);
        parts := parts + [part];
        curOffset := curOffset + fsize;
        curFragment := curFragment + 1;
      } else {
        TileStays(parts, before, curOffset, buf);
      }
    }
  }

  lemma DropAppend(s: seq<byte>, n: nat, t: seq<byte>)
    requires n <= |s|
    ensures (s + t)[n..] == s[n..] + t
  {
  }

  function Join(bufs: seq<seq<byte>>): seq<byte> {
    if bufs == [] then [] else Join(bufs[..|bufs| - 1]) + bufs[|bufs| - 1]
  }

  lemma JoinSnoc(bufs: seq<seq<byte>>, from: nat, i: nat)
    requires from <= i < |bufs|
    ensures Join(bufs[from..i + 1]) == Join(bufs[from..i]) + bufs[i]
  {
    assert bufs[from..i + 1][..i - from] == bufs[from..i];
  }

  /** The `i`-th part is what the buffers from `a` up to `b` hold: large enough unless it is the last
      one, and not large enough without its last buffer. */
  ghost predicate CutAt(bufs: seq<seq<byte>>, size: nat, data: seq<byte>, last: bool, a: nat, b: nat) {
    && a < b <= |bufs| && data == Join(bufs[a..b])
    && (last || size <= |data|) && (a < b - 1 ==> |Join(bufs[a..b - 1])| < size)
  }

  /** The parts are cut from the buffers at the places `cuts`. */
  ghost predicate Cuts(bufs: seq<seq<byte>>, size: nat, parts: seq<Part>, cuts: seq<nat>) {
    && |cuts| == |parts| + 1 && cuts[0] == 0
    && forall i :: 0 <= i < |parts| ==> CutAt(bufs, size, parts[i].data, parts[i].isLast, cuts[i], cuts[i + 1])
  }

  /** Reads a stream to its end and sends it off in parts. `bufs` is what the reads return before
      they return nothing; `cuts` says where between them the parts end. */
  method StreamWrite(bufs: seq<seq<byte>>, fragmentSize: nat) returns (parts: seq<Part>, ghost cuts: seq<nat>)
    requires forall i :: 0 <= i < |bufs| ==> bufs[i] != []
    ensures Tile(parts, Join(bufs), |Join(bufs)|) && LastMarked(parts)
    ensures parts == [] <==> bufs == []
    ensures Cuts(bufs, fragmentSize, parts, cuts) && cuts[|parts|] == |bufs|
  {
    hide Tile, Join, CutAt;
    var c := new UploadContext(fragmentSize);
    var moreData := true;
    var i := 0;
    cuts := [0];
    assert bufs[..0] == bufs[0..0] == [] && Join([]) == [] by { JoinNone(); }
    while i < |bufs|
      invariant 0 <= i <= |bufs| && fresh(c) && c.Valid() && c.pushed == Join(bufs[..i]) && c.fragmentSize == fragmentSize
      invariant moreData <==> i < |bufs| || bufs == []
      invariant if moreData then forall k :: 0 <= k < |c.parts| ==> !c.parts[k].isLast else LastMarked(c.parts)
      invariant !moreData ==> c.parts != [] && c.curOffset == |c.pushed|
      invariant Cuts(bufs, fragmentSize, c.parts, cuts) && c.curOffset <= |c.pushed| && cuts[|c.parts|] <= i
      invariant c.Current() == Join(bufs[cuts[|c.parts|]..i])
      invariant if c.curOffset == |c.pushed| then cuts[|c.parts|] == i else |c.Current()| < fragmentSize
    {
      if i + 1 == |bufs| {
        moreData := false;
      }
      ghost var from, was := cuts[|c.parts|], c.parts;
      JoinSnoc(bufs, from, i);
      JoinSnoc(bufs, 0, i);
      assert bufs[..i] == bufs[0..i] && bufs[..i + 1] == bufs[0..i + 1];
      c.PushContent(bufs[i], moreData);
      c.OffsetBound();
      i := i + 1;
      if |c.parts| > |was| {
        assert CutAt(bufs, fragmentSize, c.parts[|was|].data, c.parts[|was|].isLast, from, i) by {
          CutHere(bufs, fragmentSize, c.parts[|was|], from, i);
        }
        cuts := cuts + [i];
        assert bufs[i..i] == [] && Join([]) == [] by { JoinNone(); }
      }
    }
    assert bufs[..|bufs|] == bufs;
    parts := c.parts;
    if bufs == [] {
      assert parts == [] && Tile(parts, [], 0) by { NothingTiled(parts, c.curOffset, c.pushed); }
    }
  }

  lemma JoinNone()
    ensures Join([]) == []
  {
  }

  lemma CutHere(bufs: seq<seq<byte>>, size: nat, p: Part, a: nat, b: nat)
    requires a < b <= |bufs| && p.data == Join(bufs[a..b]) && (p.isLast || size <= |p.data|)
    requires a < b - 1 ==> |Join(bufs[a..b - 1])| < size
    ensures CutAt(bufs, size, p.data, p.isLast, a, b)
  {
  }

  lemma NothingTiled(ps: seq<Part>, n: nat, data: seq<byte>)
    requires Tile(ps, data, n) && data == []
    ensures ps == [] && n == 0
  {
    hide Tile;
    if ps != [] {
      TilePart(ps, data, n, 0);
      assert false;
    }
    TileBound(ps, data, n);
  }

  // ---------------------------------------------------------------------------
  // The list of fragments.

  /** What the server tells about a fragment. */
  datatype Info = Info(index: int, start: int, end: int, isLast: bool)

  function InfoOf(p: Part): Info { Info(p.index, p.start, p.end, p.isLast) }

  function Infos(ps: seq<Part>): (r: seq<Info>)
    ensures |r| == |ps| && forall i :: 0 <= i < |ps| ==> r[i] == InfoOf(ps[i])
  {
    seq(|ps|, i requires 0 <= i < |ps| => InfoOf(ps[i]))
  }

  predicate SortedByIndex(s: seq<Info>) { forall i, j :: 0 <= i < j < |s| ==> s[i].index <= s[j].index }

  /** A stable sort by index. */
  function Insert(x: Info, s: seq<Info>): seq<Info> {
    if s == [] || x.index <= s[0].index then [x] + s else [s[0]] + Insert(x, s[1..])
  }

  function Sorted(s: seq<Info>): seq<Info> { if s == [] then [] else Insert(s[0], Sorted(s[1..])) }

  lemma {:induction false} InsertKeeps(x: Info, s: seq<Info>)
    ensures multiset(Insert(x, s)) == multiset{x} + multiset(s)
  {
    if s != [] && x.index > s[0].index {
      InsertKeeps(x, s[1..]);
      assert s == [s[0]] + s[1..];
    }
  }

  lemma {:induction false} InsertSorts(x: Info, s: seq<Info>)
    requires SortedByIndex(s)
    ensures SortedByIndex(Insert(x, s))
  {
    if s != [] && x.index > s[0].index {
      InsertSorts(x, s[1..]);
      var t := Insert(x, s[1..]);
      forall j | 0 <= j < |t| ensures s[0].index <= t[j].index {
        InsertKeeps(x, s[1..]);
        assert t[j] in multiset(t);
      }
    }
  }

  lemma {:induction false} SortedIsSorted(s: seq<Info>)
    ensures SortedByIndex(Sorted(s)) && multiset(Sorted(s)) == multiset(s)
  {
    if s != [] {
      SortedIsSorted(s[1..]);
      InsertSorts(s[0], Sorted(s[1..]));
      InsertKeeps(s[0], Sorted(s[1..]));
      assert s == [s[0]] + s[1..];
    }
  }

  predicate Numbered(s: seq<Info>, from: int) { forall i :: 0 <= i < |s| ==> s[i].index == from + i }

  /** Sorting undoes any reordering of numbered fragments. */
  lemma SortUndoes(s: seq<Info>, listing: seq<Info>)
    requires Numbered(s, 0) && multiset(listing) == multiset(s)
    ensures Sorted(listing) == s
  {
    SortedIsSorted(listing);
    SameSorted(Sorted(listing), s, 0);
  }

  lemma {:induction false} SameSorted(t: seq<Info>, s: seq<Info>, from: int)
    requires SortedByIndex(t) && Numbered(s, from) && multiset(t) == multiset(s)
    ensures t == s
    decreases |s|
  {
    assert |multiset(t)| == |multiset(s)|;
    if s != [] {
      SameFirst(t, s, from);
      SameRest(t);
      SameRest(s);
      SameSorted(t[1..], s[1..], from + 1);
      assert t == [t[0]] + t[1..] && s == [s[0]] + s[1..];
    }
  }

  lemma SameRest(s: seq<Info>)
    requires s != []
    ensures multiset(s[1..]) == multiset(s) - multiset{s[0]}
  {
    assert s == [s[0]] + s[1..];
  }

  lemma SameFirst(t: seq<Info>, s: seq<Info>, from: int)
    requires SortedByIndex(t) && Numbered(s, from) && multiset(t) == multiset(s) && s != [] && t != []
    ensures t[0] == s[0]
  {
    assert s[0] in multiset(s) && t[0] in multiset(t);
    var i :| 0 <= i < |t| && t[i] == s[0];
    var j :| 0 <= j < |s| && s[j] == t[0];
    assert t[0].index <= t[i].index;
  }

  datatype Checked = Accepted(size: int, fragments: seq<Info>) | Refused | Raised

  predicate Follows(s: seq<Info>, i: nat)
    requires i < |s|
  {
    s[i].index == i && s[i].start == if i == 0 then 0 else s[i - 1].end
  }

  /** The fragments are numbered from 0 and each begins where the one before ends. */
  predicate Contiguous(s: seq<Info>) { forall i :: 0 <= i < |s| ==> Follows(s, i) }

  /** Accepts a list exactly if, sorted, it is contiguous and ends with the last fragment. */
  method CheckFragments(fragments: seq<Info>) returns (r: Checked)
    ensures var s := Sorted(fragments);
            && (r.Refused? <==> !Contiguous(s))
            && (r.Accepted? <==> Contiguous(s) && s != [] && s[|s| - 1].isLast)
            && (r.Accepted? ==> r.fragments == s && r.size == s[|s| - 1].end)
  {
    hide Sorted;
    var fragcount, maxRange := 0, 0;
    var sorted := Sorted(fragments);
    while fragcount < |sorted|
      invariant 0 <= fragcount <= |sorted|
      invariant maxRange == if fragcount == 0 then 0 else sorted[fragcount - 1].end
      invariant forall i :: 0 <= i < fragcount ==> Follows(sorted, i)
    {
      assert Follows(sorted, fragcount) <==> sorted[fragcount].index == fragcount && sorted[fragcount].start == maxRange;
      if sorted[fragcount].index != fragcount || sorted[fragcount].start != maxRange {
        return Refused;
      }
      maxRange := sorted[fragcount].end;
      fragcount := fragcount + 1;
    }
    if sorted == [] || !sorted[|sorted| - 1].isLast {
      return Raised;
    }
    r := Accepted(maxRange, sorted);
  }

  lemma PartsContiguous(ps: seq<Part>, data: seq<byte>)
    requires Tile(ps, data, |data|)
    ensures Contiguous(Infos(ps)) && Numbered(Infos(ps), 0)
  {
    hide Tile;
    forall i | 0 <= i < |ps| ensures Follows(Infos(ps), i) && Infos(ps)[i].index == i {
      TilePart(ps, data, |data|, i);
    }
  }

  // ---------------------------------------------------------------------------
  // Downloading.

  /** A temporary file that is being read. */
  datatype TempFile = TempFile(content: seq<byte>, pos: nat)

  datatype Outcome = Piece(buf: seq<byte>) | EndOfStream | DownloadFailed

  /** The fragments cover the stream, and none is empty. */
  predicate Covers(fs: seq<Info>, n: nat) {
    && fs != [] && Contiguous(fs) && fs[|fs| - 1].end == n
    && forall i :: 0 <= i < |fs| ==> 0 <= fs[i].start < fs[i].end <= n
  }

  lemma PartsCover(ps: seq<Part>, data: seq<byte>)
    requires Tile(ps, data, |data|) && ps != []
    ensures Covers(Infos(ps), |data|)
  {
    hide Contiguous;
    PartsContiguous(ps, data);
    forall i | 0 <= i < |ps| ensures 0 <= Infos(ps)[i].start < Infos(ps)[i].end <= |data| {
      TilePart(ps, data, |data|, i);
    }
  }

  lemma StartIs(fs: seq<Info>, n: nat, i: nat)
    requires Covers(fs, n) && i < |fs|
    ensures fs[i].start == if i == 0 then 0 else fs[i - 1].end
  {
    assert Follows(fs, i);
  }

  lemma {:induction false} EndsGrow(fs: seq<Info>, n: nat, i: nat, j: nat)
    requires Covers(fs, n) && i < j < |fs|
    ensures fs[i].end <= fs[j].start && fs[i].end <= fs[j].end
    decreases j
  {
    hide Contiguous;
    StartIs(fs, n, j);
    if i < j - 1 { EndsGrow(fs, n, i, j - 1); }
  }

  class DownloadContext {
    const fragments: seq<Info>
    const fsize: nat
    var files: seq<Option<TempFile>>
    var completed: seq<Option<int>>
    var next: nat                    // the fragment the downloader comes to next
    var maxCompletedByte: int
    var error: bool
    var curRead: nat
    var cursor: nat
    ghost const data: seq<byte>

    function At(i: nat): (nat, nat)
      requires Covers(fragments, fsize) && i < |fragments|
    {
      (fragments[i].start, fragments[i].end)
    }

    /** What the temporary file of a fragment holds, and how far it has been read. */
    ghost function FileOf(i: nat): Option<TempFile>
      requires Covers(fragments, fsize) && fsize == |data| && i < |fragments| && At(i).0 <= cursor
      reads this
    {
      if i < curRead || i >= next then None
      else Some(TempFile(data[At(i).0..At(i).1], cursor - At(i).0))
    }

    ghost predicate Placed()
      reads this
    {
      && Covers(fragments, fsize) && fsize == |data|
      && |files| == |completed| == |fragments| && next <= |fragments|
      && curRead < |fragments| && At(curRead).0 <= cursor <= At(curRead).1
      && maxCompletedByte == (if next == 0 then 0 else fragments[next - 1].end) && cursor <= maxCompletedByte
    }

    ghost predicate Valid()
      reads this
    {
      && Placed()
      && (forall i :: 0 <= i < |fragments| ==> completed[i] == if i < next then Some(fragments[i].end) else None)
      && (forall i :: 0 <= i < |fragments| && (i < curRead || i >= next) ==> files[i] == None)
      && (curRead < next ==> files[curRead] == FileOf(curRead))
      && (forall i :: curRead < i < next ==> files[i] == Some(TempFile(data[At(i).0..At(i).1], 0)))
    }

    constructor (fragments: seq<Info>, fsize: nat, ghost data: seq<byte>)
      requires Covers(fragments, fsize) && fsize == |data|
      ensures Valid() && this.fragments == fragments && this.fsize == fsize && this.data == data
      ensures next == cursor == 0 && !error
    {
      StartIs(fragments, fsize, 0);
      this.fragments, this.fsize, this.data := fragments, fsize, data;
      files := seq(|fragments|, _ => None);
      completed := seq(|fragments|, _ => None);
      next, maxCompletedByte, error, curRead, cursor := 0, 0, false, 0, 0;
    }

    /** The downloader fetches one more fragment, or gives up for good: because it does not get it, or
        because, with the fragment there, nobody has read for 300 seconds. */
    method DownloadNext(answer: Option<seq<byte>>, idle: bool)
      requires Valid() && !error && next < |fragments|
      requires answer.Some? ==> answer.value == data[At(next).0..At(next).1]
      modifies this`files, this`completed, this`next, this`maxCompletedByte, this`error
      ensures Valid() && (error <==> answer.None? || idle)
      ensures next == if answer.None? then old(next) else old(next) + 1
    {
      hide Contiguous;
      if answer.None? {
        error := true;
        return;
      }
      NextIsUnread();
      var index := next;
      files := files[index := Some(TempFile(answer.value, 0))];
      completed := completed[index := Some(fragments[index].end)];
      maxCompletedByte := fragments[index].end;
      next := next + 1;
      if idle {
        error := true;
      }
    }

    lemma NextIsUnread()
      requires Placed() && next < |fragments|
      ensures curRead <= next && cursor <= At(next).0 && (curRead == next ==> cursor == At(next).0)
    {
      hide Contiguous;
      StartIs(fragments, fsize, next);
      if next < curRead {
        EndsGrow(fragments, fsize, next, curRead);
        assert false;
      }
    }

    /** The reader does not have to wait, whatever size it asks for; where what it asks for is
        complete it does not. */
    predicate Ready()
      reads this
    {
      cursor >= fsize || error || cursor < maxCompletedByte
    }

    /** Below the completed bytes the fragment to be read is there. */
    lemma FragmentThere()
      requires Placed() && cursor < maxCompletedByte
      ensures curRead < next && At(curRead).1 <= maxCompletedByte
      ensures cursor == At(curRead).1 ==>
                curRead + 1 < next && At(curRead + 1).0 == cursor && At(curRead + 1).1 <= maxCompletedByte
    {
      hide Contiguous;
      if next <= curRead {
        EndsGrow(fragments, fsize, next - 1, curRead);
        assert false;
      }
      if curRead < next - 1 {
        EndsGrow(fragments, fsize, curRead, next - 1);
        StartIs(fragments, fsize, curRead + 1);
        if curRead + 1 < next - 1 { EndsGrow(fragments, fsize, curRead + 1, next - 1); }
      }
    }

    /** Goes on to the next fragment. */
    method MoveOn()
      requires Valid() && curRead + 1 < next && At(curRead).1 == cursor == At(curRead + 1).0
      modifies this`files, this`curRead
      ensures Valid() && curRead == old(curRead) + 1
    {
      hide Contiguous;
      files := files[curRead := None];
      curRead := curRead + 1;
    }

    /** Reads up to `sz` bytes from the file of the current fragment. */
    method ReadFile(sz: nat) returns (buf: seq<byte>)
      requires Valid() && curRead < next && cursor < At(curRead).1 <= maxCompletedByte && 0 < sz
      modifies this`files, this`cursor
      ensures Valid() && old(cursor) < cursor <= |data| && buf == data[old(cursor)..cursor]
      ensures |buf| == Min(sz, old(At(curRead).1 - cursor))
    {
      hide Contiguous;
      var f := files[curRead].value;
      var n := Min(sz, |f.content| - f.pos);
      buf := f.content[f.pos..f.pos + n];
      SliceSlice(data, At(curRead).0, At(curRead).1, f.pos, f.pos + n);
      files := files[curRead := Some(f.(pos := f.pos + n))];
      cursor := cursor + n;
    }

    /** A read, from where waiting ends. It only ever looks at fragments that are complete, never
        comes back with nothing before the end, and gives the bytes of the stream from the cursor
        on, as many as are asked for or left of the fragment. */
    method Read(size: nat) returns (r: Outcome)
      requires Valid() && Ready() && 0 < size
      modifies this`files, this`curRead, this`cursor
      ensures Valid()
      ensures r.EndOfStream? <==> old(cursor) == |data|
      ensures r.DownloadFailed? <==> old(cursor) < |data| && error
      ensures r.Piece? ==> old(cursor) < cursor <= |data| && |r.buf| <= size && r.buf == data[old(cursor)..cursor]
      ensures r.Piece? ==> At(curRead).0 <= old(cursor) && |r.buf| == Min(size, At(curRead).1 - old(cursor))
      ensures !r.Piece? ==> cursor == old(cursor)
    {
      hide Covers;
      CursorInside(this);
      if cursor >= fsize {
        return EndOfStream;
      }
      if error {
        return DownloadFailed;
      }
      FragmentThere();
      var sz := size;
      var left := completed[curRead].value - cursor;
      if left == 0 {
        NextNonEmpty(fragments, fsize, curRead + 1);
        MoveOn();
      } else if left <= sz {
        sz := left;
      }
      var buf := ReadFile(sz);
      r := Piece(buf);
    }
  }

  lemma NextNonEmpty(fs: seq<Info>, n: nat, i: nat)
    requires Covers(fs, n) && i < |fs|
    ensures fs[i].start < fs[i].end
  {
  }

  lemma CursorInside(c: DownloadContext)
    requires c.Placed()
    ensures c.cursor <= |c.data| && c.next <= |c.fragments|
    ensures c.next == |c.fragments| ==> c.Ready()
  {
  }

  /** The downloads of every fragment give what was uploaded. */
  predicate Serves(store: seq<seq<byte>>, fs: seq<Info>, data: seq<byte>) {
    && |store| == |fs|
    && forall i :: 0 <= i < |fs| ==> 0 <= fs[i].start <= fs[i].end <= |data| && store[i] == data[fs[i].start..fs[i].end]
  }

  /** The fragments of which the download fails, and those behind which it stops for want of a reader. */
  datatype Trouble = Trouble(failing: set<nat>, idle: set<nat>)

  /** None of the first `n` fragments gives trouble. */
  predicate Smooth(t: Trouble, n: int) { forall i :: 0 <= i < n ==> i !in t.failing && i !in t.idle }

  /** Reads a stream while it is being downloaded, in any interleaving of the two. If there is no
      trouble the pieces are the stream; trouble with any fragment makes the read fail, but for a
      downloader that misses its reader behind the last one, who may have come to the end by then. */
  method StreamRead(c: DownloadContext, size: nat, store: seq<seq<byte>>, t: Trouble) returns (out: seq<byte>, ok: bool)
    requires c.Valid() && c.next == c.cursor == 0 && !c.error && 0 < size && Serves(store, c.fragments, c.data)
    modifies c
    ensures ok ==> out == c.data
    ensures Smooth(t, |c.fragments|) ==> ok
    ensures ok ==> |c.fragments| - 1 !in t.failing && Smooth(t, |c.fragments| - 1)
  {
    hide DownloadContext.Placed, Covers;
    out := [];
    CursorInside(c);
    while true
      invariant c.Valid() && c.cursor <= |c.data| && c.next <= |c.fragments| && out == c.data[..c.cursor]
      invariant forall i :: 0 <= i < c.next ==> i !in t.failing
      invariant !c.error ==> Smooth(t, c.next)
      invariant c.error ==> !Smooth(t, |c.fragments|)
      invariant Smooth(t, c.next - 1)
      decreases !c.error, |c.data| - c.cursor + |c.fragments| - c.next
    {
      CursorInside(c);
      var download := *;
      if !c.error && c.next < |c.fragments| && (download || !c.Ready()) {
        var answer := if c.next in t.failing then None else Some(store[c.next]);
        c.DownloadNext(answer, c.next in t.idle);
      } else {
        ghost var from := c.cursor;
        var r := c.Read(size);
        match r
        case EndOfStream =>
          AllDownloaded(c);
          return out, true;
        case DownloadFailed => return out, false;
        case Piece(buf) =>
          SliceJoin(c.data, 0, from, c.cursor);
          out := out + buf;
      }
      CursorInside(c);
    }
  }

  /** A reader comes to the end only when every fragment is there. */
  lemma AllDownloaded(c: DownloadContext)
    requires c.Placed() && c.cursor == |c.data|
    ensures c.next == |c.fragments|
  {
    hide Contiguous;
    if c.next < |c.fragments| {
      c.NextIsUnread();
      assert false;
    }
  }

  /** The parts of an upload, listed in any order, are accepted, and reading them back gives the
      stream that was written, unless there is trouble with a download. */
  method ReadBack(parts: seq<Part>, listing: seq<Info>, size: nat, t: Trouble, ghost data: seq<byte>)
    returns (out: seq<byte>, ok: bool)
    requires Tile(parts, data, |data|) && LastMarked(parts) && parts != [] && 0 < size
    requires multiset(listing) == multiset(Infos(parts))
    ensures ok ==> out == data
    ensures Smooth(t, |parts|) ==> ok
    ensures ok ==> |parts| - 1 !in t.failing && Smooth(t, |parts| - 1)
  {
    hide Tile, Covers, Contiguous;
    PartsContiguous(parts, data);
    PartsCover(parts, data);
    SortUndoes(Infos(parts), listing);
    var r := CheckFragments(listing);
    assert r == Accepted(r.size, Infos(parts)) && r.size == |data| by { CoverEnds(Infos(parts), |data|); }
    var c := new DownloadContext(r.fragments, r.size, data);
    var store := seq(|parts|, i requires 0 <= i < |parts| => parts[i].data);
    assert Serves(store, Infos(parts), data) by { PartsServe(parts, data, store); }
    out, ok := StreamRead(c, size, store, t);
  }

  lemma CoverEnds(fs: seq<Info>, n: nat)
    requires Covers(fs, n)
    ensures fs != [] && Contiguous(fs) && fs[|fs| - 1].end == n
  {
  }

  lemma PartsServe(ps: seq<Part>, data: seq<byte>, store: seq<seq<byte>>)
    requires Tile(ps, data, |data|) && |store| == |ps| && forall i :: 0 <= i < |ps| ==> store[i] == ps[i].data
    ensures Serves(store, Infos(ps), data)
  {
    hide Tile;
    forall i | 0 <= i < |ps|
      ensures 0 <= ps[i].start <= ps[i].end <= |data| && store[i] == data[ps[i].start..ps[i].end]
    {
      TilePart(ps, data, |data|, i);
    }
  }
}
