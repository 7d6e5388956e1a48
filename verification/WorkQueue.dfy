/**
 The worker pool as a state machine over its critical sections and atomic operations: the main
 thread queues work and collects what is finished, worker threads sleep on a condition variable,
 and the pool grows and shrinks with the load. Works are numbered in the order they are queued.
 */
module WorkQueue {
  import opened Counting

  const DEF_THREADS: nat := 10
  const SHRINK_PROTECTION: nat := 10

  /** Where a worker thread is in its routine. */
  datatype Worker =
    | AtTop                  // about to take the pending lock
    | Sleeping               // in pthread_cond_wait, not signalled
    | Woken                  // signalled, about to take the lock again
    | Running(work: nat)
    | Pushed                 // the work is on the finished list, not yet subtracted from nr_works
    | Notifying              // subtracted, about to write the eventfd
    | Exited

  /** Where the main thread is in queueing a work. */
  datatype Queueing = NotQueueing | Counted(work: nat) | SignalDue

  /** Where the main thread is in collecting finished works. */
  datatype Collecting = Waiting | EventRead | Draining(list: seq<nat>)

  datatype Pool = Pool(
    pending: seq<nat>, finished: seq<nat>, eventfd: nat,
    nrWorks: int, nrThreads: int, lastExpand: nat,
    workers: seq<Worker>, queueing: Queueing, collecting: Collecting,
    queued: nat, done: seq<nat>)     // how many works were queued, and those whose `done` has run

  predicate NeedShrink(s: Pool, now: nat) {
    && s.nrWorks + 1 < (s.nrThreads + 1) / 2 && s.nrThreads + 1 > DEF_THREADS / 2
    && now > s.lastExpand + SHRINK_PROTECTION
  }

  predicate NeedExpand(s: Pool) {
    s.nrThreads + 1 < (s.nrWorks + 1) / 2 && s.nrThreads + 1 < 2 * DEF_THREADS
  }

  // ---------------------------------------------------------------------------
  // Steps.

  datatype Action =
    | Queue                        // nr_works grows
    | Append(now: nat, made: nat)  // the locked part of queueing, which creates `made` threads
    | Signal(i: nat)               // wakes sleeper `i`, if anybody sleeps
    | Spurious(i: nat)             // pthread_cond_wait returns without a signal
    | Enter(i: nat, now: nat)      // the locked part of the routine, from its top
    | Reenter(i: nat)              // the locked part of the routine, after a wake-up
    | Finish(i: nat)               // the work is run and put on the finished list
    | Uncount(i: nat)
    | Notify(i: nat)
    | ReadEvent
    | Splice
    | RunDone
    | EndDrain

  predicate Is(s: Pool, i: nat, w: Worker) { i < |s.workers| && s.workers[i] == w }

  ghost predicate Enabled(s: Pool, a: Action) {
    match a
    case Queue => s.queueing.NotQueueing? && !s.collecting.EventRead?
    // a thread that cannot be created ends the expansion early
    case Append(now, made) => s.queueing.Counted? && made <= if NeedExpand(s) && s.nrThreads > 0 then s.nrThreads else 0
    case Signal(i) => s.queueing.SignalDue? && (Is(s, i, Sleeping) || Sleeping !in s.workers)
    case Spurious(i) => Is(s, i, Sleeping)
    case Enter(i, now) => Is(s, i, AtTop)
    case Reenter(i) => Is(s, i, Woken)
    case Finish(i) => i < |s.workers| && s.workers[i].Running?
    case Uncount(i) => Is(s, i, Pushed)
    case Notify(i) => Is(s, i, Notifying)
    case ReadEvent => s.queueing.NotQueueing? && s.collecting.Waiting? && s.eventfd > 0
    case Splice => s.collecting.EventRead?
    case RunDone => s.queueing.NotQueueing? && s.collecting.Draining? && s.collecting.list != []
    case EndDrain => s.queueing.NotQueueing? && s.collecting == Draining([])
  }

  function Set(s: Pool, i: nat, w: Worker): Pool
    requires i < |s.workers|
  {
    s.(workers := s.workers[i := w])
  }

  /** Takes the first pending work, or waits if there is none. */
  function TakeOrWait(s: Pool, i: nat): Pool
    requires i < |s.workers|
  {
    if s.pending == [] then Set(s, i, Sleeping)
    else Set(s, i, Running(s.pending[0])).(pending := s.pending[1..])
  }

  function NewThreads(n: nat): (r: seq<Worker>)
    ensures |r| == n
  {
    seq(n, _ => AtTop)
  }

  ghost function Apply(s: Pool, a: Action): Pool
    requires Enabled(s, a)
  {
    match a
    case Queue => s.(nrWorks := s.nrWorks + 1, queueing := Counted(s.queued), queued := s.queued + 1)
    case Append(now, made) =>
      s.(workers := s.workers + NewThreads(made), nrThreads := s.nrThreads + made,
         lastExpand := if NeedExpand(s) then now else s.lastExpand,
         pending := s.pending + [s.queueing.work], queueing := SignalDue)
    case Signal(i) =>
      var t := s.(queueing := NotQueueing);
      if Is(s, i, Sleeping) then Set(t, i, Woken) else t
    case Spurious(i) => Set(s, i, Woken)
    case Enter(i, now) =>
      if NeedShrink(s, now) then Set(s, i, Exited).(nrThreads := s.nrThreads - 1) else TakeOrWait(s, i)
    case Reenter(i) => TakeOrWait(s, i)
    case Finish(i) => Set(s, i, Pushed).(finished := s.finished + [s.workers[i].work])
    case Uncount(i) => Set(s, i, Notifying).(nrWorks := s.nrWorks - 1)
    case Notify(i) => Set(s, i, AtTop).(eventfd := s.eventfd + 1)
    case ReadEvent => s.(eventfd := 0, collecting := EventRead)
    case Splice => s.(finished := [], collecting := Draining(s.finished))
    case RunDone =>
      var list := s.collecting.list;
      s.(collecting := Draining(list[1..]), done := s.done + [list[0]])
    case EndDrain => s.(collecting := Waiting)
  }

  // ---------------------------------------------------------------------------
  // Counting workers.

  /** A kind of worker for each thing that is counted. */
  datatype Kind = Asleep | Awake | Loaded | Telling | Gone | Has(work: nat)

  predicate IsKind(w: Worker, k: Kind) {
    match k
    case Asleep => w.Sleeping?
    case Awake => w.Woken?
    case Loaded => w.Running? || w.Pushed?     // counted in nr_works
    case Telling => w.Pushed? || w.Notifying?  // yet to write the eventfd
    case Gone => w.Exited?
    case Has(work) => w == Running(work)
  }

  function One(w: Worker, k: Kind): nat { if IsKind(w, k) then 1 else 0 }

  function Count(ws: seq<Worker>, k: Kind): (n: nat)
    ensures n <= |ws|
  {
    if ws == [] then 0 else One(ws[0], k) + Count(ws[1..], k)
  }

  lemma {:induction false} CountSet(ws: seq<Worker>, i: nat, w: Worker, k: Kind)
    requires i < |ws|
    ensures Count(ws[i := w], k) == Count(ws, k) - One(ws[i], k) + One(w, k)
  {
    if i == 0 {
      assert ws[0 := w][1..] == ws[1..];
    } else {
      CountSet(ws[1..], i - 1, w, k);
      assert ws[i := w][1..] == ws[1..][i - 1 := w];
    }
  }

  lemma {:induction false} CountNew(ws: seq<Worker>, n: nat, k: Kind)
    ensures Count(ws + NewThreads(n), k) == Count(ws, k)
    decreases |ws| + n
  {
    if ws != [] {
      CountNew(ws[1..], n, k);
      assert (ws + NewThreads(n))[1..] == ws[1..] + NewThreads(n);
    } else if n > 0 {
      CountNew(ws, n - 1, k);
      assert (ws + NewThreads(n))[1..] == ws + NewThreads(n - 1);
      assert (ws + NewThreads(n))[0] == AtTop;
    }
  }

  lemma {:induction false} CountNone(ws: seq<Worker>, k: Kind)
    ensures Count(ws, k) == 0 <==> forall i :: 0 <= i < |ws| ==> !IsKind(ws[i], k)
  {
    if ws != [] {
      CountNone(ws[1..], k);
      assert Count(ws, k) == 0 <==> !IsKind(ws[0], k) && Count(ws[1..], k) == 0;
      if Count(ws, k) == 0 {
        forall i | 0 <= i < |ws| ensures !IsKind(ws[i], k) {
          if i > 0 { assert ws[i] == ws[1..][i - 1]; }
        }
      } else if !IsKind(ws[0], k) {
        var i :| 0 <= i < |ws| - 1 && IsKind(ws[1..][i], k);
        assert IsKind(ws[i + 1], k);
      }
    }
  }

  // ---------------------------------------------------------------------------
  // What every interleaving keeps.

  /** If a worker sleeps unsignalled, each pending work has a woken worker or a signal on its way. */
  predicate NoLostWakeup(s: Pool) {
    Count(s.workers, Asleep) > 0 ==> |s.pending| <= Count(s.workers, Awake) + Bit(s.queueing.SignalDue?)
  }

  /** The two counters say what they are for. */
  predicate CountersExact(s: Pool) {
    && s.nrThreads == |s.workers| - Count(s.workers, Gone)
    && s.nrWorks == Bit(s.queueing.Counted?) + |s.pending| + Count(s.workers, Loaded)
  }

  predicate ThreadsBounded(s: Pool) { 4 <= s.nrThreads <= 36 }

  /** Finished works are never forgotten. */
  predicate WillCollect(s: Pool) {
    s.finished != [] ==> s.eventfd > 0 || Count(s.workers, Telling) > 0 || s.collecting.EventRead?
  }

  /** How often the work `w` is still in the pool, over every place it can be in. */
  function Inside(s: Pool, w: nat): nat {
    Bit(s.queueing == Counted(w)) + Times(s.pending, w) + Count(s.workers, Has(w)) + Times(s.finished, w)
    + if s.collecting.Draining? then Times(s.collecting.list, w) else 0
  }

  /** Every work that was queued is in one place, or has had its `done` run, once. */
  ghost predicate ExactlyOnce(s: Pool) {
    forall w: nat :: Inside(s, w) + Times(s.done, w) == Bit(w < s.queued)
  }

  /** The pending works are the last ones appended, in the order they were queued: whoever takes the
      first of them takes the oldest that nobody has taken. */
  predicate InOrder(s: Pool) {
    && (s.queueing.Counted? ==> s.queued > 0 && s.queueing.work == s.queued - 1)
    && forall i :: 0 <= i < |s.pending| ==> s.pending[i] == s.queued - Bit(s.queueing.Counted?) - |s.pending| + i
  }

  predicate CountsOk(s: Pool) { NoLostWakeup(s) && CountersExact(s) && ThreadsBounded(s) && WillCollect(s) }

  ghost predicate Inv(s: Pool) { CountsOk(s) && ExactlyOnce(s) && InOrder(s) }

  /** The pool as it is created: ten threads, each at the top, asleep or gone, and no work. */
  predicate Created(s: Pool) {
    && s.pending == s.finished == s.done == [] && s.eventfd == 0 && s.queued == s.nrWorks == 0
    && s.queueing.NotQueueing? && s.collecting.Waiting?
    && (forall i :: 0 <= i < |s.workers| ==>
          s.workers[i].AtTop? || s.workers[i].Sleeping? || s.workers[i].Woken? || s.workers[i].Exited?)
    && s.nrThreads == |s.workers| - Count(s.workers, Gone) == DEF_THREADS
  }

  lemma CreatedInv(s: Pool)
    requires Created(s)
    ensures Inv(s)
  {
    CountNone(s.workers, Loaded);
    forall w: nat ensures Count(s.workers, Has(w)) == 0 { CountNone(s.workers, Has(w)); }
  }

  /** Replacing one worker, for all that is counted. */
  lemma SetCounts(ws: seq<Worker>, i: nat, w: Worker)
    requires i < |ws|
    ensures forall k {:trigger Count(ws[i := w], k)} :: Count(ws[i := w], k) == Count(ws, k) - One(ws[i], k) + One(w, k)
  {
    forall k ensures Count(ws[i := w], k) == Count(ws, k) - One(ws[i], k) + One(w, k) {
      CountSet(ws, i, w, k);
    }
  }

  lemma NewCounts(ws: seq<Worker>, n: nat)
    ensures forall k {:trigger Count(ws + NewThreads(n), k)} :: Count(ws + NewThreads(n), k) == Count(ws, k)
  {
    forall k ensures Count(ws + NewThreads(n), k) == Count(ws, k) { CountNew(ws, n, k); }
  }

  lemma AppendCounts(s: Pool, now: nat, made: nat)
    requires CountsOk(s) && Enabled(s, Append(now, made))
    ensures CountsOk(Apply(s, Append(now, made)))
  {
    hide Count, NewThreads;
    NewCounts(s.workers, made);
  }

  lemma SignalCounts(s: Pool, i: nat)
    requires CountsOk(s) && Enabled(s, Signal(i))
    ensures CountsOk(Apply(s, Signal(i)))
  {
    hide Count;
    if Is(s, i, Sleeping) {
      SetCounts(s.workers, i, Woken);
    } else {
      CountNone(s.workers, Asleep);
    }
  }

  lemma ShrinkCounts(s: Pool, i: nat, now: nat)
    requires CountsOk(s) && Is(s, i, AtTop) && NeedShrink(s, now)
    ensures CountsOk(Set(s, i, Exited).(nrThreads := s.nrThreads - 1))
  {
    hide Count;
    SetCounts(s.workers, i, Exited);
  }

  lemma TakeOrWaitCounts(s: Pool, i: nat)
    requires CountsOk(s) && i < |s.workers| && (s.workers[i].AtTop? || s.workers[i].Woken?)
    ensures CountsOk(TakeOrWait(s, i))
  {
    hide Count;
    SetCounts(s.workers, i, TakeOrWait(s, i).workers[i]);
  }

  lemma WorkerCounts(s: Pool, a: Action)
    requires CountsOk(s) && Enabled(s, a) && (a.Spurious? || a.Finish? || a.Uncount? || a.Notify?)
    ensures CountsOk(Apply(s, a))
  {
    hide Count;
    SetCounts(s.workers, a.i, Apply(s, a).workers[a.i]);
  }

  lemma CollectCounts(s: Pool, a: Action)
    requires CountsOk(s) && Enabled(s, a)
    requires a.Queue? || a.ReadEvent? || a.Splice? || a.RunDone? || a.EndDrain?
    ensures CountsOk(Apply(s, a))
  {
    hide Count;
  }

  lemma StepCounts(s: Pool, a: Action)
    requires CountsOk(s) && Enabled(s, a)
    ensures CountsOk(Apply(s, a))
  {
    hide CountsOk, NeedExpand;
    match a
    case Append(now, made) => AppendCounts(s, now, made);
    case Signal(i) => SignalCounts(s, i);
    case Spurious(i) => WorkerCounts(s, a);
    case Enter(i, now) => if NeedShrink(s, now) { ShrinkCounts(s, i, now); } else { TakeOrWaitCounts(s, i); }
    case Reenter(i) => TakeOrWaitCounts(s, i);
    case Finish(i) => WorkerCounts(s, a);
    case Uncount(i) => WorkerCounts(s, a);
    case Notify(i) => WorkerCounts(s, a);
    case _ => CollectCounts(s, a);
  }

  /** A step moves works about, and queueing adds one. */
  lemma StepPlaces(s: Pool, a: Action, w: nat)
    requires Enabled(s, a)
    ensures var t := Apply(s, a);
            Inside(t, w) + Times(t.done, w) == Inside(s, w) + Times(s.done, w) + Bit(a.Queue? && w == s.queued && t.queued > w)
  {
    hide Count, NewThreads, Times;
    match a
    case Append(now, made) =>
      NewCounts(s.workers, made);
      TimesSnoc(s.pending, s.queueing.work, w);
    case Signal(i) => if Is(s, i, Sleeping) { SetCounts(s.workers, i, Woken); }
    case Spurious(i) => SetCounts(s.workers, i, Woken);
    case Enter(i, now) => TakeOrWaitPlaces(s, i, w); SetCounts(s.workers, i, Exited);
    case Reenter(i) => TakeOrWaitPlaces(s, i, w);
    case Finish(i) =>
      SetCounts(s.workers, i, Pushed);
      TimesSnoc(s.finished, s.workers[i].work, w);
    case Uncount(i) => SetCounts(s.workers, i, Notifying);
    case Notify(i) => SetCounts(s.workers, i, AtTop);
    case Splice => TimesNone(w);
    case RunDone =>
      TimesFirst(s.collecting.list, w);
      TimesSnoc(s.done, s.collecting.list[0], w);
    case EndDrain => TimesNone(w);
    case _ =>
  }

  lemma TakeOrWaitPlaces(s: Pool, i: nat, w: nat)
    requires i < |s.workers| && !s.workers[i].Running?
    ensures Inside(TakeOrWait(s, i), w) == Inside(s, w)
  {
    hide Count, Times;
    SetCounts(s.workers, i, TakeOrWait(s, i).workers[i]);
    if s.pending != [] { TimesFirst(s.pending, w); }
  }

  lemma StepOrder(s: Pool, a: Action)
    requires InOrder(s) && Enabled(s, a)
    ensures InOrder(Apply(s, a))
  {
    hide NeedShrink, NeedExpand, NewThreads;
  }

  lemma StepInv(s: Pool, a: Action)
    requires Inv(s) && Enabled(s, a)
    ensures Inv(Apply(s, a))
  {
    hide CountsOk, Inside, InOrder;
    StepCounts(s, a);
    StepOrder(s, a);
    forall w: nat
      ensures Inside(Apply(s, a), w) + Times(Apply(s, a).done, w) == Bit(w < Apply(s, a).queued)
    {
      StepPlaces(s, a, w);
      assert Inside(s, w) + Times(s.done, w) == Bit(w < s.queued);
    }
  }

  // ---------------------------------------------------------------------------
  // Runs.

  ghost predicate Run(s: Pool, acts: seq<Action>, t: Pool)
    decreases |acts|
  {
    if acts == [] then t == s else Enabled(s, acts[0]) && Run(Apply(s, acts[0]), acts[1..], t)
  }

  lemma {:induction false} RunInv(s: Pool, acts: seq<Action>, t: Pool)
    requires Inv(s) && Run(s, acts, t)
    ensures Inv(t)
    decreases |acts|
  {
    hide Inv, Enabled, Apply;
    if acts != [] {
      StepInv(s, acts[0]);
      RunInv(Apply(s, acts[0]), acts[1..], t);
    }
  }

  /** In every reachable state: pending work never meets a pool that is all asleep with no signal
      to come; a finished work has a notification on its way; the counters are exact and the
      number of threads is in bounds; each work is in one place, until its `done` runs, once; and
      works are taken in the order they were queued. */
  lemma PoolSafe(s: Pool, acts: seq<Action>, t: Pool)
    requires Created(s) && Run(s, acts, t)
    ensures t.pending != [] && !t.queueing.SignalDue? ==>
              exists i :: 0 <= i < |t.workers| && !t.workers[i].Sleeping? && !t.workers[i].Exited?
    ensures NoLostWakeup(t) && WillCollect(t) && CountersExact(t) && ThreadsBounded(t)
    ensures ExactlyOnce(t) && InOrder(t)
  {
    hide Run, Created, ExactlyOnce;
    CreatedInv(s);
    RunInv(s, acts, t);
    if t.pending != [] && !t.queueing.SignalDue? {
      SomeoneUp(t);
    }
  }

  lemma SomeoneUp(t: Pool)
    requires Inv(t) && t.pending != [] && !t.queueing.SignalDue?
    ensures exists i :: 0 <= i < |t.workers| && !t.workers[i].Sleeping? && !t.workers[i].Exited?
  {
    hide Count, ExactlyOnce;
    if Count(t.workers, Asleep) == 0 {
      CountNone(t.workers, Asleep);
      if forall i :: 0 <= i < |t.workers| ==> t.workers[i].Exited? {
        CountAll(t.workers);
      }
    } else {
      CountNone(t.workers, Awake);
      var i :| 0 <= i < |t.workers| && t.workers[i].Woken?;
    }
  }

  lemma {:induction false} CountAll(ws: seq<Worker>)
    requires forall i :: 0 <= i < |ws| ==> ws[i].Exited?
    ensures Count(ws, Gone) == |ws|
  {
    if ws != [] { CountAll(ws[1..]); }
  }

  // ---------------------------------------------------------------------------
  // The order of completion.

  /** The works that have been finished, in the order in which their `done` has run or will. */
  function Collected(s: Pool): seq<nat> {
    s.done + (if s.collecting.Draining? then s.collecting.list else []) + s.finished
  }

  /** The works that a run finishes, in that order. */
  ghost function Finished(s: Pool, acts: seq<Action>): seq<nat>
    decreases |acts|
  {
    if acts == [] || !Enabled(s, acts[0]) then []
    else (if acts[0].Finish? then [s.workers[acts[0].i].work] else []) + Finished(Apply(s, acts[0]), acts[1..])
  }

  lemma StepCollected(s: Pool, a: Action)
    requires Enabled(s, a)
    ensures Collected(Apply(s, a)) == Collected(s) + if a.Finish? then [s.workers[a.i].work] else []
  {
    hide NeedShrink, NeedExpand, NewThreads;
    if a.RunDone? {
      var list := s.collecting.list;
      assert s.done + list + s.finished == (s.done + [list[0]]) + list[1..] + s.finished;
    }
  }

  /** Works are completed in the order in which they were finished. */
  lemma {:induction false} CompletedInOrder(s: Pool, acts: seq<Action>, t: Pool)
    requires Run(s, acts, t)
    ensures Collected(t) == Collected(s) + Finished(s, acts)
    decreases |acts|
  {
    hide Enabled, Apply, Collected;
    if acts != [] {
      StepCollected(s, acts[0]);
      CompletedInOrder(Apply(s, acts[0]), acts[1..], t);
    }
  }

  // ---------------------------------------------------------------------------
  // Growing and shrinking.

  /** A thread leaves exactly if it comes to the top when the pool is to shrink, and threads are made
      only when a work is queued and the pool is to grow. */
  lemma ThreadsExactly(s: Pool, a: Action, k: nat)
    requires Enabled(s, a) && k < |s.workers|
    ensures |Apply(s, a).workers| == |s.workers| + if a.Append? then a.made else 0
    ensures Apply(s, a).workers[k].Exited? <==> s.workers[k].Exited? || (a.Enter? && a.i == k && NeedShrink(s, a.now))
    ensures |Apply(s, a).workers| > |s.workers| ==> NeedExpand(s) && |Apply(s, a).workers| <= |s.workers| + s.nrThreads
  {
    hide NeedShrink, NeedExpand;
  }

  /** The clock does not show less than `since`, nor a worker at its top more than the protection
      allows. */
  predicate Recent(a: Action, since: nat) {
    match a
    case Append(now, _) => now >= since
    case Enter(_, now) => now <= since + SHRINK_PROTECTION
    case _ => true
  }

  lemma StepProtected(s: Pool, a: Action, since: nat)
    requires Enabled(s, a) && s.lastExpand >= since && Recent(a, since)
    ensures Apply(s, a).lastExpand >= since && Count(Apply(s, a).workers, Gone) == Count(s.workers, Gone)
  {
    hide Count, NewThreads;
    match a
    case Append(now, made) => NewCounts(s.workers, made);
    case Signal(i) => if Is(s, i, Sleeping) { SetCounts(s.workers, i, Woken); }
    case Spurious(i) => SetCounts(s.workers, i, Woken);
    case Enter(i, now) => SetCounts(s.workers, i, Apply(s, a).workers[i]);
    case Reenter(i) => SetCounts(s.workers, i, Apply(s, a).workers[i]);
    case Finish(i) => SetCounts(s.workers, i, Pushed);
    case Uncount(i) => SetCounts(s.workers, i, Notifying);
    case Notify(i) => SetCounts(s.workers, i, AtTop);
    case _ =>
  }

  lemma {:induction false} RunProtected(s: Pool, acts: seq<Action>, t: Pool, since: nat)
    requires Run(s, acts, t) && s.lastExpand >= since && forall a :: a in acts ==> Recent(a, since)
    ensures Count(t.workers, Gone) == Count(s.workers, Gone)
    decreases |acts|
  {
    hide Enabled, Apply, Count, Recent;
    if acts != [] {
      StepProtected(s, acts[0], since);
      RunProtected(Apply(s, acts[0]), acts[1..], t, since);
    }
  }

  /** For ten seconds after the pool has grown no thread leaves, whatever happens. */
  lemma GrowthProtected(s: Pool, now: nat, made: nat, acts: seq<Action>, t: Pool)
    requires Enabled(s, Append(now, made)) && NeedExpand(s) && Run(Apply(s, Append(now, made)), acts, t)
    requires forall a :: a in acts ==> Recent(a, now)
    ensures Count(t.workers, Gone) == Count(s.workers, Gone)
  {
    hide Run, Count, Recent, NewThreads;
    NewCounts(s.workers, made);
    RunProtected(Apply(s, Append(now, made)), acts, t, now);
  }

  // ---------------------------------------------------------------------------
  // Progress.

  /** Any step but the arrival of new work and a wake-up without cause. */
  predicate Busy(a: Action) { !a.Queue? && !a.Spurious? }

  function Weight(w: Worker): nat {
    match w
    case AtTop => 1
    case Sleeping => 0
    case Woken => 1
    case Running(_) => 8
    case Pushed => 6
    case Notifying => 5
    case Exited => 0
  }

  function Weights(ws: seq<Worker>): nat { if ws == [] then 0 else Weight(ws[0]) + Weights(ws[1..]) }

  lemma {:induction false} WeightsSet(ws: seq<Worker>, i: nat, w: Worker)
    requires i < |ws|
    ensures Weights(ws[i := w]) == Weights(ws) - Weight(ws[i]) + Weight(w)
  {
    if i == 0 {
      assert ws[0 := w][1..] == ws[1..];
    } else {
      WeightsSet(ws[1..], i - 1, w);
      assert ws[i := w][1..] == ws[1..][i - 1 := w];
    }
  }

  lemma {:induction false} WeightsNew(ws: seq<Worker>, n: nat)
    ensures Weights(ws + NewThreads(n)) == Weights(ws) + n
    decreases |ws| + n
  {
    if ws != [] {
      WeightsNew(ws[1..], n);
      assert (ws + NewThreads(n))[1..] == ws[1..] + NewThreads(n);
    } else if n > 0 {
      WeightsNew(ws, n - 1);
      assert (ws + NewThreads(n))[1..] == ws + NewThreads(n - 1);
      assert (ws + NewThreads(n))[0] == AtTop;
    }
  }

  /** How much is left to do. */
  function Rank(s: Pool): nat {
    (match s.queueing case NotQueueing => 0 case Counted(_) => 50 case SignalDue => 2)
    + (match s.collecting case Waiting => 0 case EventRead => 2 case Draining(list) => 1 + |list|)
    + 8 * |s.pending| + Weights(s.workers) + |s.finished| + 3 * s.eventfd
  }

  lemma RankFalls(s: Pool, a: Action)
    requires Inv(s) && Enabled(s, a) && Busy(a)
    ensures Rank(Apply(s, a)) < Rank(s)
  {
    hide Count, Weights, ExactlyOnce, NoLostWakeup, CountersExact, WillCollect;
    match a
    case Append(now, made) => WeightsNew(s.workers, made);
    case Signal(i) => if Is(s, i, Sleeping) { WeightsSet(s.workers, i, Woken); }
    case Enter(i, now) => WeightsSet(s.workers, i, Apply(s, a).workers[i]);
    case Reenter(i) => WeightsSet(s.workers, i, Apply(s, a).workers[i]);
    case Finish(i) => WeightsSet(s.workers, i, Pushed);
    case Uncount(i) => WeightsSet(s.workers, i, Notifying);
    case Notify(i) => WeightsSet(s.workers, i, AtTop);
    case _ =>
  }

  /** The pool never runs on without new work: the rank bounds every busy run. */
  lemma {:induction false} RunsEnd(s: Pool, acts: seq<Action>, t: Pool)
    requires Inv(s) && Run(s, acts, t) && forall a :: a in acts ==> Busy(a)
    ensures |acts| <= Rank(s)
    decreases |acts|
  {
    hide Inv, Enabled, Apply, Rank;
    if acts != [] {
      StepInv(s, acts[0]);
      RankFalls(s, acts[0]);
      RunsEnd(Apply(s, acts[0]), acts[1..], t);
    }
  }

  /** No busy step is possible any more. */
  ghost predicate Quiet(s: Pool) { forall a :: Busy(a) ==> !Enabled(s, a) }

  /** And it only comes to rest when everything is done: every work that was ever queued has had
      its `done` run, exactly once. */
  lemma RestMeansDone(s: Pool)
    requires Inv(s) && Quiet(s)
    ensures s.pending == s.finished == [] && s.nrWorks == 0
    ensures forall w: nat :: Times(s.done, w) == Bit(w < s.queued)
  {
    hide Count, Quiet;
    assert s.queueing.NotQueueing? by { QueueingGoesOn(s); }
    assert s.eventfd == 0 && s.collecting.Waiting? by { CollectingGoesOn(s); }
    forall i | 0 <= i < |s.workers| ensures s.workers[i].Sleeping? || s.workers[i].Exited? {
      WorkerGoesOn(s, i);
    }
    CountNone(s.workers, Loaded);
    CountNone(s.workers, Telling);
    assert s.pending == [] by { if s.pending != [] { SomeoneUp(s); } }
    forall w: nat ensures Times(s.done, w) == Bit(w < s.queued) {
      CountNone(s.workers, Has(w));
      assert Inside(s, w) == 0;
    }
  }

  lemma QueueingGoesOn(s: Pool)
    requires Quiet(s)
    ensures s.queueing.NotQueueing?
  {
    if s.queueing.Counted? {
      assert Enabled(s, Append(0, 0)) && Busy(Append(0, 0));
    } else if s.queueing.SignalDue? {
      if Sleeping in s.workers {
        var i :| 0 <= i < |s.workers| && s.workers[i] == Sleeping;
        assert Enabled(s, Signal(i)) && Busy(Signal(i));
      } else {
        assert Enabled(s, Signal(0)) && Busy(Signal(0));
      }
    }
  }

  lemma CollectingGoesOn(s: Pool)
    requires Quiet(s) && s.queueing.NotQueueing?
    ensures s.eventfd == 0 && s.collecting.Waiting?
  {
    assert Busy(ReadEvent) && Busy(Splice) && Busy(RunDone) && Busy(EndDrain);
    assert !Enabled(s, ReadEvent) && !Enabled(s, Splice) && !Enabled(s, RunDone) && !Enabled(s, EndDrain);
  }

  lemma WorkerGoesOn(s: Pool, i: nat)
    requires Quiet(s) && i < |s.workers|
    ensures s.workers[i].Sleeping? || s.workers[i].Exited?
  {
    assert Busy(Enter(i, 0)) && Busy(Reenter(i)) && Busy(Finish(i)) && Busy(Uncount(i)) && Busy(Notify(i));
    assert !Enabled(s, Enter(i, 0)) && !Enabled(s, Reenter(i)) && !Enabled(s, Finish(i));
    assert !Enabled(s, Uncount(i)) && !Enabled(s, Notify(i));
  }
}
