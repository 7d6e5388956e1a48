/**
 A pool of connections over a Go channel of tokens, as a state machine: clients get and put,
 resizes and closing go on token by token beside them. A send on a closed channel, a second
 close and a put into a full channel are panics. Resources are numbered as they are created.
 */
module ResourcePool {
  import opened Codec
  import opened Counting

  /** A client that has taken a token: with what was in it, with a resource to use, or about to
      give the token back because no resource could be made. */
  datatype Holder = Fetched(slot: Option<nat>) | Holding(res: nat) | Failed

  /** A `SetCapacity` under way, with the tokens it has still to add or to drain. */
  datatype Resize = Resize(grow: bool, left: nat, closes: bool)

  datatype Pool = Pool(
    max: nat, capacity: nat, tokens: seq<Option<nat>>, closed: bool,
    holders: seq<Holder>, resizes: seq<Resize>,
    created: nat, dead: seq<nat>, panicked: bool)   // resources made, and those closed

  datatype Action =
    | Fetch                                        // receive a token
    | Unwrap(h: nat, expired: bool, made: bool)    // check its age, make a resource if need be
    | Return(h: nat)                               // the token goes back after a failure
    | Put(h: nat, keep: bool)
    | SetCapacity(n: nat)                          // up to the compare-and-swap that succeeds
    | Move(r: nat)                                 // one token is added or drained
    | Finish(r: nat)

  predicate Enabled(s: Pool, a: Action) {
    match a
    case Fetch => s.tokens != []
    case Unwrap(h, _, _) => h < |s.holders| && s.holders[h].Fetched?
    case Return(h) => h < |s.holders| && s.holders[h].Failed? && (s.closed || |s.tokens| < s.max)
    case Put(h, _) => h < |s.holders| && s.holders[h].Holding?
    case SetCapacity(n) => n <= s.max && s.capacity != 0 && s.capacity != n
    case Move(r) =>
      && r < |s.resizes| && s.resizes[r].left > 0
      && (s.closed || if s.resizes[r].grow then |s.tokens| < s.max else s.tokens != [])
    case Finish(r) => r < |s.resizes| && s.resizes[r].left == 0
  }

  function Panic(s: Pool): Pool { s.(panicked := true) }

  /** The resource in a slot is closed. */
  function Bury(s: Pool, slot: Option<nat>): Pool {
    if slot.Some? then s.(dead := s.dead + [slot.value]) else s
  }

  function Opened(s: Pool, h: nat, expired: bool, made: bool): Pool
    requires h < |s.holders| && s.holders[h].Fetched?
  {
    var slot := s.holders[h].slot;
    if slot.Some? && !expired then s.(holders := s.holders[h := Holding(slot.value)])
    else
      var t := Bury(s, slot);
      if made then t.(holders := s.holders[h := Holding(s.created)], created := s.created + 1)
      else t.(holders := s.holders[h := Failed])
  }

  function Apply(s: Pool, a: Action): Pool
    requires Enabled(s, a)
  {
    match a
    case Fetch => s.(tokens := s.tokens[1..], holders := s.holders + [Fetched(s.tokens[0])])
    case Unwrap(h, expired, made) => Opened(s, h, expired, made)
    case Return(h) =>
      if s.closed then Panic(s) else s.(tokens := s.tokens + [None], holders := Without(s.holders, h))
    case Put(h, keep) =>
      if s.closed || |s.tokens| == s.max then Panic(s)
      else
        var t := s.(holders := Without(s.holders, h));
        if keep then t.(tokens := s.tokens + [Some(s.holders[h].res)])
        else t.(tokens := s.tokens + [None], dead := s.dead + [s.holders[h].res])
    case SetCapacity(n) =>
      var r := if n < s.capacity then Resize(false, s.capacity - n, n == 0) else Resize(true, n - s.capacity, false);
      s.(capacity := n, resizes := s.resizes + [r])
    case Move(r) =>
      var t := s.(resizes := s.resizes[r := s.resizes[r].(left := s.resizes[r].left - 1)]);
      if s.resizes[r].grow then if s.closed then Panic(s) else t.(tokens := s.tokens + [None])
      else if s.tokens == [] then t   // a closed channel gives zero values
      else Bury(t.(tokens := s.tokens[1..]), s.tokens[0])
    case Finish(r) =>
      var t := s.(resizes := Without(s.resizes, r));
      if !s.resizes[r].closes then t else if s.closed then Panic(t) else t.(closed := true)
  }

  /** The pool as it is made. Other capacities are refused. */
  function New(capacity: nat, max: nat): Option<Pool> {
    if capacity == 0 || max == 0 || capacity > max then None
    else Some(Pool(max, capacity, seq(capacity, _ => None), false, [], [], 0, [], false))
  }

  // ---------------------------------------------------------------------------
  // Tokens.

  /** What the resizes under way have still to drain, less what they have still to add. */
  function Due(rs: seq<Resize>): int {
    if rs == [] then 0 else (if rs[0].grow then 0 - rs[0].left else rs[0].left) + Due(rs[1..])
  }

  lemma {:induction false} DueConcat(xs: seq<Resize>, ys: seq<Resize>)
    ensures Due(xs + ys) == Due(xs) + Due(ys)
  {
    if xs == [] {
      assert xs + ys == ys;
    } else {
      DueConcat(xs[1..], ys);
      assert (xs + ys)[1..] == xs[1..] + ys;
    }
  }

  lemma DueOne(r: Resize)
    ensures Due([r]) == if r.grow then 0 - r.left else r.left
  {
  }

  lemma DueAt(rs: seq<Resize>, i: nat, r: Resize)
    requires i < |rs|
    ensures Due(rs[i := r]) == Due(Without(rs, i)) + Due([r])
    ensures Due(rs) == Due(Without(rs, i)) + Due([rs[i]])
  {
    hide Due;
    DueConcat(rs[..i], rs[i + 1..]);
    assert rs[i := r] == rs[..i] + [r] + rs[i + 1..];
    DueConcat(rs[..i], [r]);
    DueConcat(rs[..i] + [r], rs[i + 1..]);
    assert rs == rs[..i] + [rs[i]] + rs[i + 1..];
    DueConcat(rs[..i], [rs[i]]);
    DueConcat(rs[..i] + [rs[i]], rs[i + 1..]);
  }

  /** As long as the channel is open no token is lost or made up, however resizes overlap. */
  predicate Conserved(s: Pool) {
    && |s.tokens| <= s.max && s.capacity <= s.max
    && (!s.closed ==> |s.tokens| + |s.holders| == s.capacity + Due(s.resizes))
  }

  lemma StepConserved(s: Pool, a: Action)
    requires Conserved(s) && Enabled(s, a)
    ensures Conserved(Apply(s, a)) && Apply(s, a).max == s.max
  {
    hide Due;
    match a
    case SetCapacity(n) =>
      var r := Apply(s, a).resizes[|s.resizes|];
      DueConcat(s.resizes, [r]);
      DueOne(r);
    case Move(r) =>
      var x := s.resizes[r];
      DueAt(s.resizes, r, x.(left := x.left - 1));
      DueOne(x);
      DueOne(x.(left := x.left - 1));
    case Finish(r) =>
      DueAt(s.resizes, r, s.resizes[r]);
      DueOne(s.resizes[r]);
    case _ =>
  }

  // ---------------------------------------------------------------------------
  // Closing.

  /** How many of the resizes under way close the channel when they are done. */
  function Closers(rs: seq<Resize>): nat {
    if rs == [] then 0 else Bit(rs[0].closes) + Closers(rs[1..])
  }

  lemma {:induction false} ClosersConcat(xs: seq<Resize>, ys: seq<Resize>)
    ensures Closers(xs + ys) == Closers(xs) + Closers(ys)
  {
    if xs == [] {
      assert xs + ys == ys;
    } else {
      ClosersConcat(xs[1..], ys);
      assert (xs + ys)[1..] == xs[1..] + ys;
    }
  }

  lemma ClosersOne(r: Resize)
    ensures Closers([r]) == Bit(r.closes)
  {
  }

  lemma ClosersAt(rs: seq<Resize>, i: nat, r: Resize)
    requires i < |rs|
    ensures Closers(rs[i := r]) == Closers(Without(rs, i)) + Bit(r.closes)
    ensures Closers(rs) == Closers(Without(rs, i)) + Bit(rs[i].closes)
  {
    hide Closers;
    ClosersConcat(rs[..i], rs[i + 1..]);
    assert rs[i := r] == rs[..i] + [r] + rs[i + 1..];
    ClosersConcat(rs[..i], [r]);
    ClosersConcat(rs[..i] + [r], rs[i + 1..]);
    assert rs == rs[..i] + [rs[i]] + rs[i + 1..];
    ClosersConcat(rs[..i], [rs[i]]);
    ClosersConcat(rs[..i] + [rs[i]], rs[i + 1..]);
    ClosersOne(r);
    ClosersOne(rs[i]);
  }

  /** The channel is closed once, and only after the capacity was set to 0, which it stays. */
  predicate ClosedOnce(s: Pool) {
    && Closers(s.resizes) + Bit(s.closed) <= 1
    && (Closers(s.resizes) + Bit(s.closed) == 1 ==> s.capacity == 0)
  }

  lemma StepClosedOnce(s: Pool, a: Action)
    requires ClosedOnce(s) && Enabled(s, a)
    ensures ClosedOnce(Apply(s, a))
  {
    hide Closers;
    match a
    case SetCapacity(n) =>
      var r := Apply(s, a).resizes[|s.resizes|];
      ClosersConcat(s.resizes, [r]);
      ClosersOne(r);
    case Move(r) => ClosersAt(s.resizes, r, s.resizes[r].(left := s.resizes[r].left - 1));
    case Finish(r) => ClosersAt(s.resizes, r, s.resizes[r]);
    case _ =>
  }

  /** What is left when the channel is closed: as many tokens, in it or with clients, as other
      resizes have still to drain. So a client can hold one exactly if there are such resizes. */
  lemma CloseLeaves(s: Pool, r: nat)
    requires Conserved(s) && ClosedOnce(s) && Enabled(s, Finish(r)) && s.resizes[r].closes
    ensures var t := Apply(s, Finish(r));
            && t.closed && t.panicked == s.panicked
            && |t.tokens| + |t.holders| == Due(t.resizes)
            && (t.tokens != [] || t.holders != [] <==> Due(t.resizes) > 0)
  {
    hide Due, Closers;
    ClosersAt(s.resizes, r, s.resizes[r]);
    DueAt(s.resizes, r, s.resizes[r]);
    DueOne(s.resizes[r]);
  }

  // ---------------------------------------------------------------------------
  // Panics.

  /** The steps that panic: whatever sends on a closed channel, and a put into a full one, which is
      said here in terms of the capacity and the resizes under way. */
  predicate Panics(s: Pool, a: Action) {
    match a
    case Put(h, keep) => s.closed || s.capacity + Due(s.resizes) == s.max + |s.holders|
    case Return(h) => s.closed
    case Move(r) => s.closed && r < |s.resizes| && s.resizes[r].grow
    case _ => false
  }

  /** However resizes overlap, exactly those steps panic; in particular no second close does. */
  lemma PanicsExactly(s: Pool, a: Action)
    requires Conserved(s) && ClosedOnce(s) && Enabled(s, a) && !s.panicked
    ensures Apply(s, a).panicked <==> Panics(s, a)
  {
    hide Due, Closers;
    if a.Finish? { ClosersAt(s.resizes, a.r, s.resizes[a.r]); }
  }

  // ---------------------------------------------------------------------------
  // One resize at a time.

  predicate Alone(s: Pool, a: Action) { a.SetCapacity? ==> s.resizes == [] }

  predicate ResizeOk(s: Pool, r: Resize) {
    if r.grow then !r.closes && r.left < s.capacity
    else s.capacity + r.left <= s.max && (r.closes <==> s.capacity == 0)
  }

  predicate Calm(s: Pool) {
    && Conserved(s) && !s.panicked && |s.resizes| <= 1
    && (s.closed ==> s.tokens == [] && s.holders == [] && s.resizes == [] && s.capacity == 0)
    && (!s.closed && s.resizes == [] ==> s.capacity > 0)
    && (s.resizes != [] ==> ResizeOk(s, s.resizes[0]))
  }

  lemma CalmTotal(s: Pool)
    requires Calm(s)
    ensures |s.tokens| + |s.holders| <= s.max
    ensures s.resizes == [] ==> |s.tokens| + |s.holders| == s.capacity
  {
    if s.resizes != [] { assert s.resizes == [s.resizes[0]]; DueOne(s.resizes[0]); }
  }

  lemma FinishCalm(s: Pool)
    requires Calm(s) && |s.resizes| == 1 && s.resizes[0].left == 0
    ensures Calm(Apply(s, Finish(0)))
  {
    StepConserved(s, Finish(0));
    assert s.resizes == [s.resizes[0]];
    DueOne(s.resizes[0]);
    assert Without(s.resizes, 0) == [];
  }

  lemma StepCalm(s: Pool, a: Action)
    requires Calm(s) && Enabled(s, a) && Alone(s, a)
    ensures Calm(Apply(s, a))
  {
    hide Due;
    CalmTotal(s);
    if a.Finish? {
      FinishCalm(s);
    } else {
      StepConserved(s, a);
    }
  }

  // ---------------------------------------------------------------------------
  // Resources.

  function Slot(h: Holder): Option<nat> {
    match h
    case Fetched(slot) => slot
    case Holding(res) => Some(res)
    case Failed => None
  }

  /** How many clients have the resource `r`. */
  function Held(hs: seq<Holder>, r: nat): nat {
    if hs == [] then 0 else Bit(Slot(hs[0]) == Some(r)) + Held(hs[1..], r)
  }

  lemma {:induction false} HeldConcat(xs: seq<Holder>, ys: seq<Holder>, r: nat)
    ensures Held(xs + ys, r) == Held(xs, r) + Held(ys, r)
  {
    if xs == [] {
      assert xs + ys == ys;
    } else {
      HeldConcat(xs[1..], ys, r);
      assert (xs + ys)[1..] == xs[1..] + ys;
    }
  }

  lemma HeldOne(h: Holder, r: nat)
    ensures Held([h], r) == Bit(Slot(h) == Some(r))
  {
  }

  lemma HeldAt(hs: seq<Holder>, i: nat, h: Holder, r: nat)
    requires i < |hs|
    ensures Held(hs[i := h], r) == Held(Without(hs, i), r) + Bit(Slot(h) == Some(r))
    ensures Held(hs, r) == Held(Without(hs, i), r) + Bit(Slot(hs[i]) == Some(r))
  {
    hide Held;
    HeldConcat(hs[..i], hs[i + 1..], r);
    assert hs[i := h] == hs[..i] + [h] + hs[i + 1..];
    HeldConcat(hs[..i], [h], r);
    HeldConcat(hs[..i] + [h], hs[i + 1..], r);
    assert hs == hs[..i] + [hs[i]] + hs[i + 1..];
    HeldConcat(hs[..i], [hs[i]], r);
    HeldConcat(hs[..i] + [hs[i]], hs[i + 1..], r);
    HeldOne(h, r);
    HeldOne(hs[i], r);
  }

  function Places(s: Pool, r: nat): nat { Times(s.tokens, Some(r)) + Held(s.holders, r) + Times(s.dead, r) }

  /** Every resource that was made is in the channel, with one client, or closed, once. */
  ghost predicate Accounted(s: Pool) { forall r: nat :: Places(s, r) == Bit(r < s.created) }

  lemma OpenedPlaces(s: Pool, h: nat, expired: bool, made: bool, r: nat)
    requires h < |s.holders| && s.holders[h].Fetched?
    ensures var t := Opened(s, h, expired, made);
            Places(t, r) + Bit(r < s.created) == Places(s, r) + Bit(r < t.created)
  {
    hide Held, Times;
    var t := Opened(s, h, expired, made);
    HeldAt(s.holders, h, t.holders[h], r);
    var slot := s.holders[h].slot;
    if slot.Some? { TimesSnoc(s.dead, slot.value, r); }
  }

  lemma ClientPlaces(s: Pool, a: Action, r: nat)
    requires Enabled(s, a) && (a.Fetch? || a.Return? || a.Put?)
    ensures Places(Apply(s, a), r) == Places(s, r) && Apply(s, a).created == s.created
  {
    hide Held, Times;
    match a
    case Fetch =>
      TimesFirst(s.tokens, Some(r));
      HeldConcat(s.holders, [Fetched(s.tokens[0])], r);
      HeldOne(Fetched(s.tokens[0]), r);
    case Return(h) =>
      HeldAt(s.holders, h, s.holders[h], r);
      TimesSnoc(s.tokens, None, Some(r));
    case Put(h, keep) =>
      HeldAt(s.holders, h, s.holders[h], r);
      TimesSnoc(s.tokens, None, Some(r));
      TimesSnoc(s.tokens, Some(s.holders[h].res), Some(r));
      TimesSnoc(s.dead, s.holders[h].res, r);
  }

  lemma MovePlaces(s: Pool, i: nat, r: nat)
    requires Enabled(s, Move(i))
    ensures Places(Apply(s, Move(i)), r) == Places(s, r)
  {
    hide Held, Times;
    TimesSnoc(s.tokens, None, Some(r));
    if s.tokens != [] {
      TimesFirst(s.tokens, Some(r));
      if s.tokens[0].Some? { TimesSnoc(s.dead, s.tokens[0].value, r); }
    }
  }

  lemma StepAccounted(s: Pool, a: Action)
    requires Accounted(s) && Enabled(s, a)
    ensures Accounted(Apply(s, a))
  {
    hide Held, Times;
    forall r: nat ensures Places(Apply(s, a), r) == Bit(r < Apply(s, a).created) {
      assert Places(s, r) == Bit(r < s.created);
      match a
      case Unwrap(h, expired, made) => OpenedPlaces(s, h, expired, made, r);
      case Move(i) => MovePlaces(s, i, r);
      case SetCapacity(n) =>
      case Finish(i) =>
      case _ => ClientPlaces(s, a, r);
    }
  }

  // ---------------------------------------------------------------------------
  // What happens to a resource.

  /** The steps that close the resource `r`: it has expired by the time it is taken, its client gives it
      up, or a resize drains the token that holds it. */
  predicate Closes(s: Pool, a: Action, r: nat) {
    match a
    case Unwrap(h, expired, made) => h < |s.holders| && s.holders[h] == Fetched(Some(r)) && expired
    case Put(h, keep) => h < |s.holders| && s.holders[h] == Holding(r) && !keep && !s.closed && |s.tokens| < s.max
    case Move(m) => m < |s.resizes| && !s.resizes[m].grow && s.tokens != [] && s.tokens[0] == Some(r)
    case _ => false
  }

  /** Exactly those close one, and then that one only. */
  lemma ClosesExactly(s: Pool, a: Action)
    requires Enabled(s, a) && |s.tokens| <= s.max
    ensures forall r: nat :: Closes(s, a, r) ==> Apply(s, a).dead == s.dead + [r]
    ensures (forall r: nat :: !Closes(s, a, r)) ==> Apply(s, a).dead == s.dead
  {
    match a
    case Unwrap(h, expired, made) =>
      var slot := s.holders[h].slot;
      if slot.Some? { assert Closes(s, a, slot.value) <==> expired; }
    case Put(h, keep) => assert Closes(s, a, s.holders[h].res) <==> !keep && !s.closed && |s.tokens| < s.max;
    case Move(m) => if s.tokens != [] && s.tokens[0].Some? { assert Closes(s, a, s.tokens[0].value) <==> !s.resizes[m].grow; }
    case _ =>
  }

  /** What a client gets: the resource in the slot if it has not expired, or else a new one, if one can
      be made. */
  lemma GetsExactly(s: Pool, h: nat, expired: bool, made: bool)
    requires Enabled(s, Unwrap(h, expired, made))
    ensures var t := Apply(s, Unwrap(h, expired, made));
            && |t.holders| == |s.holders| && t.tokens == s.tokens
            && (forall k :: 0 <= k < |s.holders| && k != h ==> t.holders[k] == s.holders[k])
            && (forall r: nat :: t.holders[h] == Holding(r) <==>
                  if s.holders[h] == Fetched(Some(r)) && !expired then true
                  else made && r == s.created && (expired || s.holders[h].slot.None?))
            && t.created == s.created + Bit(made && (expired || s.holders[h].slot.None?))
            && (t.holders[h].Failed? <==> !made && (expired || s.holders[h].slot.None?))
  {
  }

  /** What a step takes from the channel, and what it puts into it. */
  function Taken(s: Pool, a: Action): seq<Option<nat>> {
    if s.tokens != [] && (a.Fetch? || (a.Move? && a.r < |s.resizes| && !s.resizes[a.r].grow)) then [s.tokens[0]] else []
  }

  function Given(s: Pool, a: Action): seq<Option<nat>> {
    if s.closed then []
    else
      match a
      case Return(h) => [None]
      case Put(h, keep) =>
        if h < |s.holders| && s.holders[h].Holding? && |s.tokens| < s.max
        then [if keep then Some(s.holders[h].res) else None] else []
      case Move(m) => if m < |s.resizes| && s.resizes[m].grow then [None] else []
      case _ => []
  }

  /** The channel is a queue: a resource that is put back is handed out when those before it have been. */
  lemma Queues(s: Pool, a: Action)
    requires Enabled(s, a) && |s.tokens| <= s.max
    ensures Taken(s, a) + Apply(s, a).tokens == s.tokens + Given(s, a)
    ensures a.Fetch? ==> Apply(s, a).holders == s.holders + [Fetched(Taken(s, a)[0])]
  {
  }

  function LiveTokens(ts: seq<Option<nat>>): nat { if ts == [] then 0 else Bit(ts[0].Some?) + LiveTokens(ts[1..]) }

  function LiveHolders(hs: seq<Holder>): nat { if hs == [] then 0 else Bit(Slot(hs[0]).Some?) + LiveHolders(hs[1..]) }

  /** The resources that are open. */
  function Live(s: Pool): nat { LiveTokens(s.tokens) + LiveHolders(s.holders) }

  lemma {:induction false} LiveTokensConcat(xs: seq<Option<nat>>, ys: seq<Option<nat>>)
    ensures LiveTokens(xs + ys) == LiveTokens(xs) + LiveTokens(ys)
  {
    if xs == [] {
      assert xs + ys == ys;
    } else {
      LiveTokensConcat(xs[1..], ys);
      assert (xs + ys)[1..] == xs[1..] + ys;
    }
  }

  lemma {:induction false} LiveHoldersConcat(xs: seq<Holder>, ys: seq<Holder>)
    ensures LiveHolders(xs + ys) == LiveHolders(xs) + LiveHolders(ys)
  {
    if xs == [] {
      assert xs + ys == ys;
    } else {
      LiveHoldersConcat(xs[1..], ys);
      assert (xs + ys)[1..] == xs[1..] + ys;
    }
  }

  lemma LiveOne(t: Option<nat>, h: Holder)
    ensures LiveTokens([t]) == Bit(t.Some?) && LiveHolders([h]) == Bit(Slot(h).Some?)
  {
  }

  lemma LiveHoldersAt(hs: seq<Holder>, i: nat, h: Holder)
    requires i < |hs|
    ensures LiveHolders(hs[i := h]) == LiveHolders(Without(hs, i)) + Bit(Slot(h).Some?)
    ensures LiveHolders(hs) == LiveHolders(Without(hs, i)) + Bit(Slot(hs[i]).Some?)
  {
    hide LiveHolders;
    LiveHoldersConcat(hs[..i], hs[i + 1..]);
    assert hs[i := h] == hs[..i] + ([h] + hs[i + 1..]);
    LiveHoldersConcat(hs[..i], [h] + hs[i + 1..]);
    LiveHoldersConcat([h], hs[i + 1..]);
    assert hs == hs[..i] + ([hs[i]] + hs[i + 1..]);
    LiveHoldersConcat(hs[..i], [hs[i]] + hs[i + 1..]);
    LiveHoldersConcat([hs[i]], hs[i + 1..]);
    LiveOne(None, h);
    LiveOne(None, hs[i]);
  }

  lemma {:induction false} LiveBound(ts: seq<Option<nat>>, hs: seq<Holder>)
    ensures LiveTokens(ts) <= |ts| && LiveHolders(hs) <= |hs|
    decreases |ts| + |hs|
  {
    if ts != [] {
      LiveBound(ts[1..], hs);
    } else if hs != [] {
      LiveBound(ts, hs[1..]);
    }
  }

  /** Every resource made is open or has been closed. */
  predicate Counted(s: Pool) { s.created == Live(s) + |s.dead| }

  lemma StepCounted(s: Pool, a: Action)
    requires Counted(s) && Enabled(s, a)
    ensures Counted(Apply(s, a))
  {
    hide LiveTokens, LiveHolders;
    var t := Apply(s, a);
    match a
    case Fetch =>
      assert s.tokens == [s.tokens[0]] + s.tokens[1..];
      LiveTokensConcat([s.tokens[0]], s.tokens[1..]);
      LiveHoldersConcat(s.holders, [Fetched(s.tokens[0])]);
      LiveOne(s.tokens[0], Fetched(s.tokens[0]));
    case Unwrap(h, expired, made) => LiveHoldersAt(s.holders, h, t.holders[h]);
    case Return(h) =>
      LiveHoldersAt(s.holders, h, s.holders[h]);
      LiveTokensConcat(s.tokens, [None]);
      LiveOne(None, s.holders[h]);
    case Put(h, keep) =>
      LiveHoldersAt(s.holders, h, s.holders[h]);
      var x := if keep then Some(s.holders[h].res) else None;
      LiveTokensConcat(s.tokens, [x]);
      LiveOne(x, s.holders[h]);
    case Move(m) =>
      LiveTokensConcat(s.tokens, [None]);
      LiveOne(None, Failed);
      if s.tokens != [] {
        assert s.tokens == [s.tokens[0]] + s.tokens[1..];
        LiveTokensConcat([s.tokens[0]], s.tokens[1..]);
        LiveOne(s.tokens[0], Failed);
      }
    case _ =>
  }

  // ---------------------------------------------------------------------------
  // Runs.

  predicate Run(s: Pool, acts: seq<Action>, t: Pool)
    decreases |acts|
  {
    if acts == [] then t == s else Enabled(s, acts[0]) && Run(Apply(s, acts[0]), acts[1..], t)
  }

  predicate OneByOne(s: Pool, acts: seq<Action>)
    decreases |acts|
  {
    acts != [] && Enabled(s, acts[0]) ==> Alone(s, acts[0]) && OneByOne(Apply(s, acts[0]), acts[1..])
  }

  lemma {:induction false} RunOverlapping(s: Pool, acts: seq<Action>, t: Pool)
    requires Conserved(s) && Accounted(s) && ClosedOnce(s) && Counted(s) && Run(s, acts, t)
    ensures Conserved(t) && Accounted(t) && ClosedOnce(t) && Counted(t) && t.max == s.max
    decreases |acts|
  {
    hide Conserved, Accounted, ClosedOnce, Counted, Enabled, Apply;
    if acts != [] {
      StepCounted(s, acts[0]);
      StepClosedOnce(s, acts[0]);
      StepConserved(s, acts[0]);
      StepAccounted(s, acts[0]);
      RunOverlapping(Apply(s, acts[0]), acts[1..], t);
    }
  }

  lemma {:induction false} RunCalm(s: Pool, acts: seq<Action>, t: Pool)
    requires Calm(s) && Run(s, acts, t) && OneByOne(s, acts)
    ensures Calm(t)
    decreases |acts|
  {
    hide Calm, Enabled, Apply, Alone;
    if acts != [] {
      StepCalm(s, acts[0]);
      RunCalm(Apply(s, acts[0]), acts[1..], t);
    }
  }

  lemma {:induction false} NoneLive(n: nat)
    ensures LiveTokens(seq(n, _ => None)) == 0
  {
    if n > 0 {
      var ts: seq<Option<nat>> := seq(n, _ => None);
      var rest: seq<Option<nat>> := seq(n - 1, _ => None);
      assert ts[1..] == rest;
      NoneLive(n - 1);
    }
  }

  lemma NewOk(capacity: nat, max: nat)
    requires New(capacity, max).Some?
    ensures var s := New(capacity, max).value; Calm(s) && Accounted(s) && Conserved(s) && ClosedOnce(s) && Counted(s)
  {
    var s := New(capacity, max).value;
    NoneLive(capacity);
    forall r: nat ensures Times(s.tokens, Some(r)) == 0 {
      assert Some(r) !in s.tokens;
    }
  }

  /** However resizes overlap: no resource is with two clients, used after it was closed, or lost;
      and while the channel is open its tokens and those held add up to the capacity and what the
      resizes have still to do, which bounds the resources that are open. The next step panics exactly
      if it is one of those named. */
  lemma PoolConserves(capacity: nat, max: nat, acts: seq<Action>, t: Pool)
    requires New(capacity, max).Some? && Run(New(capacity, max).value, acts, t)
    ensures Accounted(t) && Conserved(t) && ClosedOnce(t)
    ensures t.created == Live(t) + |t.dead| && (!t.closed ==> Live(t) <= t.capacity + Due(t.resizes))
    ensures forall a :: Enabled(t, a) && !t.panicked ==> (Apply(t, a).panicked <==> Panics(t, a))
  {
    hide Run, New;
    hide Enabled, Apply, Panics, Conserved, ClosedOnce, Accounted;
    NewOk(capacity, max);
    RunOverlapping(New(capacity, max).value, acts, t);
    OpenBounded(t);
    forall a | Enabled(t, a) && !t.panicked ensures Apply(t, a).panicked <==> Panics(t, a) { PanicsExactly(t, a); }
  }

  lemma OpenBounded(t: Pool)
    requires Conserved(t)
    ensures !t.closed ==> Live(t) <= t.capacity + Due(t.resizes)
  {
    LiveBound(t.tokens, t.holders);
  }

  /** Nothing expires, nobody gives a resource up, and the capacity stays. */
  predicate Steady(a: Action) {
    match a
    case Unwrap(_, expired, _) => !expired
    case Put(_, keep) => keep
    case SetCapacity(_) => false
    case _ => true
  }

  lemma {:induction false} RunSteady(s: Pool, acts: seq<Action>, t: Pool)
    requires Calm(s) && s.resizes == [] && s.dead == [] && Run(s, acts, t) && forall a :: a in acts ==> Steady(a)
    ensures Calm(t) && t.resizes == [] && t.dead == [] && t.capacity == s.capacity
    decreases |acts|
  {
    hide Calm, Conserved;
    if acts != [] {
      var a := acts[0];
      assert Steady(a);
      StepCalm(s, a);
      RunSteady(Apply(s, a), acts[1..], t);
    }
  }

  /** What a pool is for: as long as nothing expires or is given up and the capacity stays, no resource
      is ever closed, and no more are made than the capacity, however many gets and puts there are. */
  lemma PoolReuses(capacity: nat, max: nat, acts: seq<Action>, t: Pool)
    requires New(capacity, max).Some? && Run(New(capacity, max).value, acts, t) && forall a :: a in acts ==> Steady(a)
    ensures t.dead == [] && t.created <= capacity
  {
    hide Run, Live, Conserved, Accounted, ClosedOnce;
    NewOk(capacity, max);
    var s := New(capacity, max).value;
    RunSteady(s, acts, t);
    RunOverlapping(s, acts, t);
    CalmTotal(t);
    OpenBounded(t);
    assert Due([]) == 0;
    assert !t.closed || Live(t) == 0 by { if t.closed { NothingLive(t); } }
  }

  lemma NothingLive(t: Pool)
    requires t.tokens == [] && t.holders == []
    ensures Live(t) == 0
  {
  }

  /** With one resize at a time: nothing panics; tokens and resources never exceed the maximum; a
      put or the return of a token finds room, and so does a resize that grows; the channel is
      closed only when nothing is held; and with no resize under way the tokens are as many as
      the capacity. */
  lemma PoolSafe(capacity: nat, max: nat, acts: seq<Action>, t: Pool)
    requires New(capacity, max).Some?
    requires Run(New(capacity, max).value, acts, t) && OneByOne(New(capacity, max).value, acts)
    ensures !t.panicked && |t.tokens| + |t.holders| <= max
    ensures t.holders != [] ==> !t.closed && |t.tokens| < max
    ensures t.resizes != [] && t.resizes[0].left > 0 && t.resizes[0].grow ==> !t.closed && |t.tokens| < max
    ensures t.resizes == [] ==> |t.tokens| + |t.holders| == t.capacity && (t.closed <==> t.capacity == 0)
  {
    hide Run, OneByOne, New;
    NewOk(capacity, max);
    RunCalm(New(capacity, max).value, acts, t);
    RunOverlapping(New(capacity, max).value, acts, t);
    MaxOf(capacity, max);
    CalmTotal(t);
    if t.resizes != [] { assert t.resizes == [t.resizes[0]]; DueOne(t.resizes[0]); }
  }

  lemma MaxOf(capacity: nat, max: nat)
    requires New(capacity, max).Some?
    ensures New(capacity, max).value.max == max
  {
  }

  /** A resize that waits for tokens waits for clients that hold one. */
  lemma DrainWaits(s: Pool)
    requires Calm(s) && s.resizes != [] && !s.resizes[0].grow && s.resizes[0].left > 0
    ensures Enabled(s, Move(0)) || s.holders != []
  {
    assert s.resizes == [s.resizes[0]];
    DueOne(s.resizes[0]);
  }

  // ---------------------------------------------------------------------------
  // Resizes that overlap.

  function Sample(capacity: nat, tokens: seq<Option<nat>>, holders: seq<Holder>, resizes: seq<Resize>, created: nat): Pool {
    Pool(2, capacity, tokens, false, holders, resizes, created, [], false)
  }

  /** One of two tokens is taken, and a shrink to one is under way. */
  function Shrinking(): Pool { Sample(1, [None], [Holding(0)], [Resize(false, 1, false)], 1) }

  lemma RunShrinking(rest: seq<Action>, t: Pool) returns (acts: seq<Action>)
    requires Run(Shrinking(), rest, t)
    ensures New(2, 2).Some? && Run(New(2, 2).value, acts, t)
  {
    hide Run;
    var s0 := Sample(2, [None, None], [], [], 0);
    var s1 := Sample(2, [None], [Fetched(None)], [], 0);
    var s2 := Sample(2, [None], [Holding(0)], [], 1);
    assert New(2, 2).value == s0 by { assert New(2, 2).value.tokens == [None, None]; }
    acts := RunCons(s2, SetCapacity(1), Shrinking(), rest, t);
    acts := RunCons(s1, Unwrap(0, false, true), s2, acts, t);
    acts := RunCons(s0, Fetch, s1, acts, t);
  }

  /** Then a growth back to two overlaps. It adds its token before the shrink has drained one, and
      the client finds the channel full. */
  lemma OverlapPanics() returns (acts: seq<Action>, t: Pool)
    ensures New(2, 2).Some? && Run(New(2, 2).value, acts, t) && t.panicked && !t.closed
  {
    hide Run;
    var shrink := Resize(false, 1, false);
    var s4 := Sample(2, [None], [Holding(0)], [shrink, Resize(true, 1, false)], 1);
    var s5 := Sample(2, [None, None], [Holding(0)], [shrink, Resize(true, 0, false)], 1);
    t := Panic(s5);
    RunNothing(t);
    acts := RunCons(s5, Put(0, true), t, [], t);
    acts := RunCons(s4, Move(1), s5, acts, t);
    acts := RunCons(Shrinking(), SetCapacity(2), s4, acts, t);
    acts := RunShrinking(acts, t);
  }

  /** Or the pool is closed meanwhile. The close drains the other token and closes the channel under
      the client, whose put then panics. */
  lemma CloseUnderHolder() returns (acts: seq<Action>, t: Pool)
    ensures New(2, 2).Some? && Run(New(2, 2).value, acts, t) && t.panicked && t.closed
  {
    hide Run, Enabled, Apply, Shrinking;
    var shrink := Resize(false, 1, false);
    var s4 := Sample(0, [None], [Holding(0)], [shrink, Resize(false, 1, true)], 1);
    var s5 := Sample(0, [], [Holding(0)], [shrink, Resize(false, 0, true)], 1);
    var s6 := Sample(0, [], [Holding(0)], [shrink], 1).(closed := true);
    t := Panic(s6);
    assert Run(s5, [Finish(1)] + [Put(0, true)], t) by { CloseThenPut(s5, s6, t); }
    assert Enabled(s4, Move(1)) && Apply(s4, Move(1)) == s5 by { CloseDrains(s4, s5); }
    assert Enabled(Shrinking(), SetCapacity(0)) && Apply(Shrinking(), SetCapacity(0)) == s4 by { CloseBegins(s4); }
    acts := RunCons(s4, Move(1), s5, [Finish(1)] + [Put(0, true)], t);
    acts := RunCons(Shrinking(), SetCapacity(0), s4, acts, t);
    acts := RunShrinking(acts, t);
  }

  lemma CloseBegins(t: Pool)
    requires t == Sample(0, [None], [Holding(0)], [Resize(false, 1, false), Resize(false, 1, true)], 1)
    ensures Enabled(Shrinking(), SetCapacity(0)) && Apply(Shrinking(), SetCapacity(0)) == t
  {
    assert Shrinking().resizes + [Resize(false, 1, true)] == t.resizes;
  }

  lemma CloseDrains(s: Pool, t: Pool)
    requires s == Sample(0, [None], [Holding(0)], [Resize(false, 1, false), Resize(false, 1, true)], 1)
    requires t == Sample(0, [], [Holding(0)], [Resize(false, 1, false), Resize(false, 0, true)], 1)
    ensures Enabled(s, Move(1)) && Apply(s, Move(1)) == t
  {
    assert s.tokens[1..] == [];
    assert s.resizes[1 := Resize(false, 0, true)] == t.resizes;
  }

  lemma CloseThenPut(s: Pool, u: Pool, t: Pool)
    requires s == Sample(0, [], [Holding(0)], [Resize(false, 1, false), Resize(false, 0, true)], 1)
    requires u == Sample(0, [], [Holding(0)], [Resize(false, 1, false)], 1).(closed := true) && t == Panic(u)
    ensures Run(s, [Finish(1)] + [Put(0, true)], t)
  {
    hide Run;
    RunNothing(t);
    var last := RunCons(u, Put(0, true), t, [], t);
    assert [Put(0, true)] + [] == [Put(0, true)];
    assert Without(s.resizes, 1) == u.resizes;
    var both := RunCons(s, Finish(1), u, [Put(0, true)], t);
  }

  lemma RunNothing(s: Pool)
    ensures Run(s, [], s)
  {
  }

  lemma RunCons(s: Pool, a: Action, u: Pool, rest: seq<Action>, t: Pool) returns (acts: seq<Action>)
    requires Enabled(s, a) && Apply(s, a) == u && Run(u, rest, t)
    ensures acts == [a] + rest && Run(s, acts, t)
  {
    hide Enabled, Apply;
    acts := [a] + rest;
    assert acts[1..] == rest;
  }
}
