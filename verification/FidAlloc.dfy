/**
 Where file ids come from: the chunk master hands out ranges of a window it has reserved in the
 database, image servers push them one by one into a bounded channel, and uploads take them out.
 */
module FidAlloc {
  import opened Codec
  import opened Counting

  const MAX_RANGE: nat := 10000
  const ALLOCATE_RANGE: nat := 100
  const CHANNEL: nat := 200

  // ---------------------------------------------------------------------------
  // The master.

  /** The window of the master, from `begin` up to but not including `end`. */
  datatype Master = Master(begin: nat, end: nat)

  /** How an update of the database ends. An error does not tell whether the value was stored. */
  datatype Update = Stored | Rejected | StoredButFailed

  datatype Answer = Answer(master: Master, cell: nat, range: Option<(nat, nat)>)

  function Hand(m: Master, cell: nat): Answer {
    Answer(Master(m.begin + ALLOCATE_RANGE, m.end), cell, Some((m.begin, m.begin + ALLOCATE_RANGE)))
  }

  /** One request for a range. A failed read of the database leaves 0 in `begin`, and `end` as it
      was. */
  function Allocate(m: Master, cell: nat, got: bool, update: Update): Answer {
    if m.begin != m.end then Hand(m, cell)
    else if !got then Answer(Master(0, m.end), cell, None)
    else if update.Stored? then Hand(Master(cell, cell + MAX_RANGE), cell + MAX_RANGE)
    else Answer(Master(0, 0), if update.Rejected? then cell else cell + MAX_RANGE, None)
  }

  /** A range is answered exactly if the window is not used up or a new one could be reserved, and it is
      the front of that window; the database then covers all of it. */
  lemma AllocateExact(m: Master, cell: nat, got: bool, update: Update)
    ensures var r := Allocate(m, cell, got, update);
            var front := if m.begin != m.end then m.begin else cell;
            && (r.range.Some? <==> m.begin != m.end || (got && update == Stored))
            && (r.range.Some? ==> r.range.value == (front, front + ALLOCATE_RANGE) && r.master.begin == front + ALLOCATE_RANGE)
            && (r.range.Some? ==> r.master.end == if m.begin != m.end then m.end else r.cell)
            && (r.cell != cell <==> m.begin == m.end && got && update != Rejected)
            && (r.cell == cell || r.cell == cell + MAX_RANGE)
            && (r.range.None? ==> r.master == Master(0, if got then 0 else m.end))
  {
  }

  /** The row the database keeps. */
  class FidCell {
    var cell: nat

    constructor (cell: nat)
      ensures this.cell == cell
    {
      this.cell := cell;
    }

    method GetFid(works: bool) returns (fid: nat, ok: bool)
      ensures ok == works && fid == if works then cell else 0
    {
      fid, ok := if works then cell else 0, works;
    }

    method UpdateFid(fid: nat, outcome: Update) returns (ok: bool)
      modifies this
      ensures ok == outcome.Stored?
      ensures cell == if outcome.Rejected? then old(cell) else fid
    {
      if !outcome.Rejected? {
        cell := fid;
      }
      ok := outcome.Stored?;
    }
  }

  class ChunkMaster {
    var begin: nat
    var end: nat

    constructor ()
      ensures begin == end == 0
    {
      begin, end := 0, 0;
    }

    method AllocFid(db: FidCell, got: bool, update: Update) returns (range: Option<(nat, nat)>)
      modifies this, db
      ensures Answer(Master(begin, end), db.cell, range) ==
              Allocate(Master(old(begin), old(end)), old(db.cell), got, update)
    {
      if begin == end {
        var ok;
        begin, ok := db.GetFid(got);
        if !ok {
          return None;
        }
        end := begin + MAX_RANGE;
        ok := db.UpdateFid(end, update);
        if !ok {
          begin, end := 0, 0;
          return None;
        }
      }
      var fidBegin := begin;
      var fidEnd := begin + ALLOCATE_RANGE;
      begin := fidEnd;
      range := Some((fidBegin, fidEnd));
    }
  }

  // ---------------------------------------------------------------------------
  // The fids of an image server.

  function Interval(from: nat, to: nat): (r: seq<nat>)
    requires from <= to
    ensures |r| == to - from && forall i :: 0 <= i < |r| ==> r[i] == from + i
  {
    seq(to - from, i requires 0 <= i => from + i)
  }

  class Fids {
    var ch: seq<nat>

    constructor ()
      ensures ch == []
    {
      ch := [];
    }

    /** Without waiting: the front of the range goes in, as far as there is room. */
    method Merge(start: nat, end: nat) returns (next: nat)
      requires |ch| <= CHANNEL && start <= end
      modifies this
      ensures start <= next <= end && ch == old(ch) + Interval(start, next)
      ensures next == end || |ch| == CHANNEL
      ensures |ch| <= CHANNEL
    {
      next := start;
      while next < end
        invariant start <= next <= end && |ch| <= CHANNEL
        invariant ch == old(ch) + Interval(start, next)
      {
        if |ch| == CHANNEL {
          return;
        }
        assert Interval(start, next + 1) == Interval(start, next) + [next];
        ch := ch + [next];
        next := next + 1;
      }
    }

    method GetFid() returns (fid: Option<nat>)
      modifies this
      ensures old(ch) == [] ==> fid.None? && ch == []
      ensures old(ch) != [] ==> fid.Some? && [fid.value] + ch == old(ch)
    {
      if ch == [] {
        return None;
      }
      fid := Some(ch[0]);
      ch := ch[1..];
    }
  }

  // ---------------------------------------------------------------------------
  // The whole system, as a state machine.

  /** A range on its way into the channel of an image server. */
  datatype Merging = Merging(server: nat, next: nat, end: nat)

  datatype System = System(
    master: Master, cell: nat,
    issued: seq<(nat, nat)>,         // every range the master has answered with
    merging: seq<Merging>, chans: seq<seq<nat>>,
    uploads: seq<nat>)               // the fids that uploads have got

  datatype Action =
    | Ask(server: nat, got: bool, update: Update)   // a request for a range, and its answer
    | Drop(m: nat)                   // an answer is lost, or a merge ends with a full channel
    | Push(m: nat)
    | Take(server: nat)              // an upload gets a fid
    | Clear(server: nat)             // an image server restarts
    | RestartMaster

  predicate Enabled(s: System, a: Action) {
    match a
    case Ask(server, _, _) => server < |s.chans|
    case Drop(m) => m < |s.merging|
    case Push(m) =>
      && m < |s.merging| && s.merging[m].next < s.merging[m].end
      && s.merging[m].server < |s.chans| && |s.chans[s.merging[m].server]| < CHANNEL
    case Take(server) => server < |s.chans| && s.chans[server] != []
    case Clear(server) => server < |s.chans|
    case RestartMaster => true
  }

  function Apply(s: System, a: Action): System
    requires Enabled(s, a)
  {
    match a
    case Ask(server, got, update) =>
      var r := Allocate(s.master, s.cell, got, update);
      var t := s.(master := r.master, cell := r.cell);
      if r.range.None? then t
      else t.(issued := s.issued + [r.range.value],
              merging := s.merging + [Merging(server, r.range.value.0, r.range.value.1)])
    case Drop(m) => s.(merging := s.merging[..m] + s.merging[m + 1..])
    case Push(m) =>
      var g := s.merging[m];
      s.(merging := s.merging[m := g.(next := g.next + 1)],
         chans := s.chans[g.server := s.chans[g.server] + [g.next]])
    case Take(server) =>
      s.(chans := s.chans[server := s.chans[server][1..]], uploads := s.uploads + [s.chans[server][0]])
    case Clear(server) => s.(chans := s.chans[server := []])
    case RestartMaster => s.(master := Master(0, 0))
  }

  // ---------------------------------------------------------------------------
  // Counting a fid.

  /** How many of the ranges contain `f`. */
  function Given(rs: seq<(nat, nat)>, f: nat): nat {
    if rs == [] then 0 else Given(rs[..|rs| - 1], f) + Bit(rs[|rs| - 1].0 <= f < rs[|rs| - 1].1)
  }

  lemma GivenSnoc(rs: seq<(nat, nat)>, r: (nat, nat), f: nat)
    ensures Given(rs + [r], f) == Given(rs, f) + Bit(r.0 <= f < r.1)
  {
    assert (rs + [r])[..|rs|] == rs;
  }

  /** How often `f` is in the channels. */
  function Channelled(cs: seq<seq<nat>>, f: nat): nat {
    if cs == [] then 0 else Times(cs[0], f) + Channelled(cs[1..], f)
  }

  lemma {:induction false} ChannelledSet(cs: seq<seq<nat>>, i: nat, c: seq<nat>, f: nat)
    requires i < |cs|
    ensures Channelled(cs[i := c], f) == Channelled(cs, f) - Times(cs[i], f) + Times(c, f)
  {
    hide Times;
    if i == 0 {
      assert cs[0 := c][1..] == cs[1..];
    } else {
      ChannelledSet(cs[1..], i - 1, c, f);
      assert cs[i := c][1..] == cs[1..][i - 1 := c];
    }
  }

  predicate Carries(m: Merging, f: nat) { m.next <= f < m.end }

  /** How many merges are still to push `f`. */
  function Coming(ms: seq<Merging>, f: nat): nat {
    if ms == [] then 0 else Bit(Carries(ms[0], f)) + Coming(ms[1..], f)
  }

  lemma {:induction false} ComingConcat(xs: seq<Merging>, ys: seq<Merging>, f: nat)
    ensures Coming(xs + ys, f) == Coming(xs, f) + Coming(ys, f)
  {
    if xs == [] {
      assert xs + ys == ys;
    } else {
      ComingConcat(xs[1..], ys, f);
      assert (xs + ys)[1..] == xs[1..] + ys;
    }
  }

  lemma ComingSet(ms: seq<Merging>, i: nat, m: Merging, f: nat)
    requires i < |ms|
    ensures Coming(ms[i := m], f) == Coming(ms[..i] + ms[i + 1..], f) + Bit(Carries(m, f))
  {
    assert ms[i := m] == ms[..i] + ([m] + ms[i + 1..]);
    ComingConcat(ms[..i], [m] + ms[i + 1..], f);
    assert ([m] + ms[i + 1..])[1..] == ms[i + 1..];
    ComingConcat(ms[..i], ms[i + 1..], f);
  }

  lemma ComingAt(ms: seq<Merging>, i: nat, f: nat)
    requires i < |ms|
    ensures Coming(ms, f) == Coming(ms[..i] + ms[i + 1..], f) + Bit(Carries(ms[i], f))
  {
    assert ms == ms[i := ms[i]];
    ComingSet(ms, i, ms[i], f);
  }

  /** How often `f` is in the hands of image servers and uploads. */
  function Out(s: System, f: nat): nat { Coming(s.merging, f) + Channelled(s.chans, f) + Times(s.uploads, f) }

  // ---------------------------------------------------------------------------
  // What image servers keep.

  /** No fid is in more hands than it was given out. */
  ghost predicate Delivered(s: System) { forall f: nat :: Out(s, f) <= Given(s.issued, f) }

  lemma StepOut(s: System, a: Action, f: nat)
    requires Enabled(s, a)
    ensures Out(Apply(s, a), f) + Given(s.issued, f) <= Out(s, f) + Given(Apply(s, a).issued, f)
  {
    hide Times, Given, Channelled, Coming;
    match a
    case Ask(server, got, update) =>
      var r := Allocate(s.master, s.cell, got, update);
      if r.range.Some? {
        var m := Merging(server, r.range.value.0, r.range.value.1);
        ComingConcat(s.merging, [m], f);
        GivenSnoc(s.issued, r.range.value, f);
        assert Coming([m], f) == Bit(Carries(m, f)) by { ComingOne(m, f); }
      }
    case Drop(m) => ComingAt(s.merging, m, f);
    case Push(m) =>
      var g := s.merging[m];
      ComingAt(s.merging, m, f);
      ComingSet(s.merging, m, g.(next := g.next + 1), f);
      ChannelledSet(s.chans, g.server, s.chans[g.server] + [g.next], f);
      TimesSnoc(s.chans[g.server], g.next, f);
    case Take(server) =>
      ChannelledSet(s.chans, server, s.chans[server][1..], f);
      TimesFirst(s.chans[server], f);
      TimesSnoc(s.uploads, s.chans[server][0], f);
    case Clear(server) =>
      ChannelledSet(s.chans, server, [], f);
      TimesNone(f);
    case RestartMaster =>
  }

  lemma ComingOne(m: Merging, f: nat)
    ensures Coming([m], f) == Bit(Carries(m, f))
  {
  }

  lemma StepDelivered(s: System, a: Action)
    requires Delivered(s) && Enabled(s, a)
    ensures Delivered(Apply(s, a))
  {
    hide Out, Given, Apply;
    forall f: nat ensures Out(Apply(s, a), f) <= Given(Apply(s, a).issued, f) { StepOut(s, a, f); }
  }

  // ---------------------------------------------------------------------------
  // What the master keeps.

  /** The database fails to be read when the master needs a new window and has had one before. */
  predicate BadRead(s: System, a: Action) { a.Ask? && !a.got && s.master.begin == s.master.end != 0 }

  predicate InWindow(m: Master, f: nat) { m.begin <= f < m.end }

  /** No fid of the window has been given out. */
  ghost predicate WindowFree(s: System) {
    forall f: nat :: InWindow(s.master, f) ==> Given(s.issued, f) == 0
  }

  /** No fid has been given out twice, or before the database covered it. */
  ghost predicate GivenOnce(s: System) {
    forall f: nat :: Given(s.issued, f) <= Bit(f < s.cell)
  }

  /** The window is a number of whole ranges, the database covers it, and the range before it is
      one that the master has answered with. */
  predicate WindowWhole(s: System) {
    && s.master.begin <= s.master.end <= s.cell
    && (s.master.end - s.master.begin) % ALLOCATE_RANGE == 0
    && (s.master.end != 0 ==> s.master.begin >= ALLOCATE_RANGE
                              && (s.master.begin - ALLOCATE_RANGE, s.master.begin) in s.issued)
  }

  ghost predicate MasterOk(s: System) { WindowFree(s) && GivenOnce(s) && WindowWhole(s) }

  /** Handing out the front of a free window of whole ranges. */
  lemma HandOk(s: System, m: Master, cell: nat, server: nat)
    requires GivenOnce(s) && s.cell <= cell && m.begin < m.end <= cell
    requires (m.end - m.begin) % ALLOCATE_RANGE == 0
    requires forall f: nat :: InWindow(m, f) ==> Given(s.issued, f) == 0
    ensures var r := (m.begin, m.begin + ALLOCATE_RANGE);
            MasterOk(s.(master := Hand(m, cell).master, cell := cell, issued := s.issued + [r]))
  {
    var r := (m.begin, m.begin + ALLOCATE_RANGE);
    var t := s.(master := Hand(m, cell).master, cell := cell, issued := s.issued + [r]);
    WholeRanges(m.end - m.begin);
    forall f: nat ensures Given(t.issued, f) <= Bit(f < cell) && (InWindow(t.master, f) ==> Given(t.issued, f) == 0) {
      GivenSnoc(s.issued, r, f);
      assert Given(s.issued, f) <= Bit(f < s.cell);
    }
    assert t.issued[|s.issued|] == r;
  }

  lemma WholeRanges(n: nat)
    requires n % ALLOCATE_RANGE == 0 && n > 0
    ensures n >= ALLOCATE_RANGE && (n - ALLOCATE_RANGE) % ALLOCATE_RANGE == 0
  {
  }

  lemma StepMaster(s: System, a: Action)
    requires MasterOk(s) && Enabled(s, a) && !BadRead(s, a)
    ensures MasterOk(Apply(s, a))
  {
    hide Given;
    match a
    case Ask(server, got, update) =>
      if s.master.begin != s.master.end {
        HandOk(s, s.master, s.cell, server);
        SameMaster(s.(master := Hand(s.master, s.cell).master, issued := Apply(s, a).issued), Apply(s, a));
      } else if got && update.Stored? {
        var m := Master(s.cell, s.cell + MAX_RANGE);
        HandOk(s, m, s.cell + MAX_RANGE, server);
        SameMaster(s.(master := Hand(m, 0).master, cell := s.cell + MAX_RANGE, issued := Apply(s, a).issued), Apply(s, a));
      }
    case _ => assert Apply(s, a).issued == s.issued && Apply(s, a).cell == s.cell;
  }

  /** Nothing but the master, the database and the answers matters for what the master keeps. */
  lemma SameMaster(s: System, t: System)
    requires MasterOk(s) && t.master == s.master && t.cell == s.cell && t.issued == s.issued
    ensures MasterOk(t)
  {
  }

  // ---------------------------------------------------------------------------
  // Runs.

  predicate Run(s: System, acts: seq<Action>, t: System)
    decreases |acts|
  {
    if acts == [] then t == s else Enabled(s, acts[0]) && Run(Apply(s, acts[0]), acts[1..], t)
  }

  predicate NoBadRead(s: System, acts: seq<Action>)
    decreases |acts|
  {
    acts != [] && Enabled(s, acts[0]) ==> !BadRead(s, acts[0]) && NoBadRead(Apply(s, acts[0]), acts[1..])
  }

  /** A master that starts with any value in the database, and `n` image servers. */
  function Initial(cell: nat, n: nat): System {
    System(Master(0, 0), cell, [], [], seq(n, _ => []), [])
  }

  lemma {:induction false} ChannelledNone(n: nat, f: nat)
    ensures Channelled(seq(n, _ => []), f) == 0
  {
    if n > 0 {
      var cs: seq<seq<nat>> := seq(n, _ => []);
      var ds: seq<seq<nat>> := seq(n - 1, _ => []);
      assert cs[1..] == ds;
      ChannelledNone(n - 1, f);
    }
  }

  lemma InitialOk(cell: nat, n: nat)
    ensures Delivered(Initial(cell, n)) && MasterOk(Initial(cell, n))
  {
    forall f: nat ensures Out(Initial(cell, n), f) == 0 { ChannelledNone(n, f); }
  }

  lemma {:induction false} RunDelivered(s: System, acts: seq<Action>, t: System)
    requires Delivered(s) && Run(s, acts, t)
    ensures Delivered(t)
    decreases |acts|
  {
    hide Delivered, Enabled, Apply;
    if acts != [] {
      StepDelivered(s, acts[0]);
      RunDelivered(Apply(s, acts[0]), acts[1..], t);
    }
  }

  lemma {:induction false} RunMaster(s: System, acts: seq<Action>, t: System)
    requires MasterOk(s) && Run(s, acts, t) && NoBadRead(s, acts)
    ensures MasterOk(t)
    decreases |acts|
  {
    hide MasterOk, Enabled, Apply, BadRead;
    if acts != [] {
      StepMaster(s, acts[0]);
      RunMaster(Apply(s, acts[0]), acts[1..], t);
    }
  }

  /** Over every run of one master, with restarts of anything, lost answers and updates that fail
      either way, no fid is handed to two uploads, nor is one that an upload has still on its way
      to another. */
  lemma FidsUnique(cell: nat, n: nat, acts: seq<Action>, t: System, f: nat)
    requires Run(Initial(cell, n), acts, t) && NoBadRead(Initial(cell, n), acts)
    ensures Coming(t.merging, f) + Channelled(t.chans, f) + Times(t.uploads, f) <= 1
    ensures f in t.uploads ==> Times(t.uploads, f) == 1 && f < t.cell && !InWindow(t.master, f)
  {
    hide Run, NoBadRead, Initial, Given, Channelled, Coming;
    InitialOk(cell, n);
    RunDelivered(Initial(cell, n), acts, t);
    RunMaster(Initial(cell, n), acts, t);
    assert Out(t, f) <= Given(t.issued, f) <= Bit(f < t.cell);
  }

  // ---------------------------------------------------------------------------
  // A read that fails after the first window.

  lemma {:induction false} GivenMember(rs: seq<(nat, nat)>, r: (nat, nat), f: nat)
    requires r in rs && r.0 <= f < r.1
    ensures Given(rs, f) >= 1
  {
    if rs[|rs| - 1] != r { GivenMember(rs[..|rs| - 1], r, f); }
  }

  /** When the window is used up and the database cannot be read, the window that is left is free
      exactly if the master has had none before. */
  lemma FailedReadExact(s: System, server: nat, update: Update)
    requires MasterOk(s) && s.master.begin == s.master.end && server < |s.chans|
    ensures var t := Apply(s, Ask(server, false, update));
            && t == s.(master := Master(0, s.master.end))
            && (WindowFree(t) <==> s.master.end == 0)
  {
    hide Given;
    var t := Apply(s, Ask(server, false, update));
    if s.master.end != 0 {
      var f := s.master.end - 1;
      GivenMember(s.issued, (s.master.begin - ALLOCATE_RANGE, s.master.begin), f);
      assert InWindow(t.master, f);
    }
  }

  function Asks(server: nat, n: nat): (r: seq<Action>)
    ensures |r| == n && forall i :: 0 <= i < n ==> r[i] == Ask(server, true, Stored)
  {
    seq(n, _ => Ask(server, true, Stored))
  }

  /** The next requests, as long as `begin` does not meet `end`, are answered from memory. */
  lemma {:induction false} AnswersFromMemory(s: System, server: nat, n: nat) returns (t: System)
    requires server < |s.chans|
    requires forall i: nat :: i < n ==> s.master.begin + Mul(i) != s.master.end
    ensures Run(s, Asks(server, n), t)
    ensures t.cell == s.cell && t.chans == s.chans && t.uploads == s.uploads && |t.merging| == |s.merging| + n
    ensures t.master == Master(s.master.begin + Mul(n), s.master.end)
    ensures s.issued <= t.issued
    ensures forall i: nat :: i < n ==> (s.master.begin + Mul(i), s.master.begin + Mul(i + 1)) in t.issued[|s.issued|..]
    decreases n
  {
    if n == 0 {
      t := s;
    } else {
      var u := AnswersFromMemory(s, server, n - 1);
      var a := Ask(server, true, Stored);
      assert s.master.begin + Mul(n - 1) != s.master.end;
      t := Apply(u, a);
      RunSnoc(s, Asks(server, n - 1), u, a);
      assert Asks(server, n) == Asks(server, n - 1) + [a];
      var r := (s.master.begin + Mul(n - 1), s.master.begin + Mul(n));
      assert t.issued == u.issued + [r];
      assert t.issued[|s.issued|..] == u.issued[|s.issued|..] + [r];
    }
  }

  function Mul(i: nat): nat { ALLOCATE_RANGE * i }

  lemma {:induction false} RunSnoc(s: System, acts: seq<Action>, t: System, a: Action)
    requires Run(s, acts, t) && Enabled(t, a)
    ensures Run(s, acts + [a], Apply(t, a))
    decreases |acts|
  {
    hide Enabled, Apply;
    if acts == [] {
      assert (acts + [a])[1..] == [];
    } else {
      RunSnoc(Apply(s, acts[0]), acts[1..], t, a);
      assert (acts + [a])[1..] == acts[1..] + [a];
    }
  }

  lemma {:induction false} GivenSplit(rs: seq<(nat, nat)>, k: nat, f: nat)
    requires k <= |rs|
    ensures Given(rs, f) == Given(rs[..k], f) + Given(rs[k..], f)
  {
    if k == |rs| {
      assert rs[..k] == rs;
    } else {
      var init, last := rs[..|rs| - 1], rs[|rs| - 1];
      GivenSplit(init, k, f);
      assert init[..k] == rs[..k] && init[k..] + [last] == rs[k..];
      GivenSnoc(init[k..], last, f);
    }
  }

  /** From there the master hands out fids a second time, without ever asking the database. */
  lemma FailedReadReissues(s: System, server: nat) returns (acts: seq<Action>, t: System, f: nat)
    requires MasterOk(s) && s.master.begin == s.master.end != 0 && server < |s.chans|
    ensures Run(s, acts, t) && t.cell == s.cell && Given(t.issued, f) >= 2
  {
    hide Given;
    var bad := Ask(server, false, Stored);
    var u := Apply(s, bad);
    f := s.master.end - 1;
    var k: nat := f / ALLOCATE_RANGE;
    forall i: nat | i < k + 1 ensures u.master.begin + Mul(i) != u.master.end {
      assert Mul(i) <= f;
    }
    t := AnswersFromMemory(u, server, k + 1);
    acts := [bad] + Asks(server, k + 1);
    assert acts[1..] == Asks(server, k + 1);
    var again := (Mul(k), Mul(k + 1));
    assert again in t.issued[|s.issued|..] && again.0 <= f < again.1;
    GivenMember(t.issued[|s.issued|..], again, f);
    GivenMember(s.issued, (s.master.begin - ALLOCATE_RANGE, s.master.begin), f);
    GivenSplit(t.issued, |s.issued|, f);
    assert t.issued[..|s.issued|] == s.issued;
  }

  // A run in which two uploads get one fid: a window is used up, the database fails to be read, and
  // the next range goes to an image server.

  lemma {:induction false} RunConcat(s: System, xs: seq<Action>, t: System, ys: seq<Action>, u: System)
    requires Run(s, xs, t) && Run(t, ys, u)
    ensures Run(s, xs + ys, u)
    decreases |xs|
  {
    hide Enabled, Apply;
    if xs == [] {
      assert xs + ys == ys;
    } else {
      RunConcat(Apply(s, xs[0]), xs[1..], t, ys, u);
      assert (xs + ys)[1..] == xs[1..] + ys;
    }
  }

  /** The first upload gets fid 1, and the rest of the window goes out. */
  lemma FirstWindow() returns (acts: seq<Action>, t: System)
    ensures Run(Initial(1, 1), acts, t)
    ensures t.uploads == [1] && t.chans == [[]] && t.master == Master(10001, 10001) && |t.merging| == 100
  {
    hide Run, Given;
    var s0 := Initial(1, 1);
    var ask := Ask(0, true, Stored);
    assert s0.chans == [[]];
    var s1 := Apply(s0, ask);
    var s2 := Apply(s1, Push(0));
    assert s2.chans[0] == [1];
    var s3 := Apply(s2, Take(0));
    assert s3.chans[0] == [] && |s3.chans| == 1 && s3.uploads == [1];
    assert s3.chans == [[]];
    assert Run(s0, [], s0) by { RunNothing(s0); }
    RunSnoc(s0, [], s0, ask);
    RunSnoc(s0, [] + [ask], s1, Push(0));
    RunSnoc(s0, [] + [ask] + [Push(0)], s2, Take(0));
    t := AnswersFromMemory(s3, 0, 99);
    RunConcat(s0, [] + [ask] + [Push(0)] + [Take(0)], s3, Asks(0, 99), t);
    acts := [] + [ask] + [Push(0)] + [Take(0)] + Asks(0, 99);
  }

  lemma RunNothing(s: System)
    ensures Run(s, [], s)
  {
  }

  /** The read fails, and fid 1 goes out again. */
  lemma SecondWindow(s: System) returns (acts: seq<Action>, t: System)
    requires s.uploads == [1] && s.chans == [[]] && s.master == Master(10001, 10001) && |s.merging| == 100
    ensures Run(s, acts, t) && t.uploads == [1, 0, 1]
  {
    hide Run;
    var bad, ask, push := Ask(0, false, Stored), Ask(0, true, Stored), Push(100);
    var s1 := Apply(s, bad);
    var s2 := Apply(s1, ask);
    assert s2.merging[100] == Merging(0, 0, 100);
    var s3 := Apply(s2, push);
    assert s3.chans[0] == [0] && s3.merging[100] == Merging(0, 1, 100);
    var s4 := Apply(s3, push);
    assert s4.chans[0] == [0, 1];
    var s5 := Apply(s4, Take(0));
    assert s5.chans[0] == [1] && s5.uploads == [1, 0];
    t := Apply(s5, Take(0));
    RunNothing(s);
    RunSnoc(s, [], s, bad);
    RunSnoc(s, [] + [bad], s1, ask);
    RunSnoc(s, [] + [bad] + [ask], s2, push);
    RunSnoc(s, [] + [bad] + [ask] + [push], s3, push);
    RunSnoc(s, [] + [bad] + [ask] + [push] + [push], s4, Take(0));
    RunSnoc(s, [] + [bad] + [ask] + [push] + [push] + [Take(0)], s5, Take(0));
    acts := [] + [bad] + [ask] + [push] + [push] + [Take(0)] + [Take(0)];
  }

  /** With the database as it is set up, one image server and one failed read. */
  lemma UploadedTwice() returns (acts: seq<Action>, t: System)
    ensures Run(Initial(1, 1), acts, t) && Times(t.uploads, 1) == 2
  {
    hide Run, Initial;
    var first, s := FirstWindow();
    var second;
    second, t := SecondWindow(s);
    RunConcat(Initial(1, 1), first, s, second, t);
    acts := first + second;
  }
}
