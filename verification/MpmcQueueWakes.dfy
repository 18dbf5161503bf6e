/** What the notification after a send or a receive does for the sleepers of an open queue. */
module MpmcQueueWakes {
  import opened Words
  import opened Options
  import opened MpmcQueue
  import opened MpmcQueueInvariant
  import opened MpmcQueueTheorems
  import M = MpmcRing
  import I = MpmcInvariant
  import W = Waker
  import T = WakerTheorems
  import U = WakerUse
  import N = WakerNotes

  /** The writers' waker, or the readers'. */
  function WakerOf<T>(q: Queue<T>, writers: bool): W.State {
    if writers then q.writers else q.readers
  }

  function Notifies(writers: bool): Phase {
    if writers then NotifiesWriters else NotifiesReaders
  }

  /** The other threads are where they were, but for sleepers of this waker that were woken. */
  ghost predicate OnlyWoke<T>(q: Queue<T>, q': Queue<T>, me: nat, writers: bool) {
    && |q'.phases| == |q.phases| && |q'.writers.threads| == |q.writers.threads| && |q'.readers.threads| == |q.readers.threads|
    && q'.watch == q.watch && WakerOf(q', !writers).threads == WakerOf(q, !writers).threads && WakerOf(q', !writers).lock == WakerOf(q, !writers).lock
    && (forall o :: 0 <= o < |q.phases| && o != me ==> q'.phases[o] == q.phases[o])
    && (forall o :: 0 <= o < |WakerOf(q, writers).threads| && o != me ==>
          || WakerOf(q', writers).threads[o] == WakerOf(q, writers).threads[o]
          || (WakerOf(q, writers).threads[o].Asleep? && WakerOf(q', writers).threads[o].SleepClosed?))
  }

  lemma OnlyWokeTrans<T>(q: Queue<T>, q1: Queue<T>, q2: Queue<T>, me: nat, writers: bool)
    requires OnlyWoke(q, q1, me, writers) && OnlyWoke(q1, q2, me, writers)
    ensures OnlyWoke(q, q2, me, writers)
  {
  }

  /** Inside the notification. */
  ghost predicate Notifying<T>(q: Queue<T>, me: nat, writers: bool, ws: seq<nat>, reach: nat) {
    Inv(q) && me < |q.phases| && q.phases[me] == Notifies(writers) && N.Wakes(WakerOf(q, writers), me, ws, reach)
  }

  /** Its waker is the only thing a step of it changes. */
  lemma NoteIsWakers<T>(q: Queue<T>, me: nat, writers: bool)
    requires Inv(q) && me < |q.phases| && q.phases[me] == Notifies(writers) && !WakerOf(q, writers).threads[me].NoteDone?
    ensures
      var w' := W.Next(WakerOf(q, writers), W.Step(me, false));
      Next(q, Step(me)) == if writers then q.(writers := w') else q.(readers := w')
  {
    assert Sizes(q);
    hide W.Next, Inv;
  }

  lemma NoteGoesOn<T>(q: Queue<T>, me: nat, writers: bool, ws: seq<nat>, reach: nat)
    requires Notifying(q, me, writers, ws, reach) && !WakerOf(q, writers).threads[me].NoteDone?
    ensures
      var q' := Next(q, Step(me));
      && Notifying(q', me, writers, ws, reach) && q'.ring == q.ring && OnlyWoke(q, q', me, writers)
      && N.NoteRank(WakerOf(q', writers), me, reach) < N.NoteRank(WakerOf(q, writers), me, reach)
  {
    var w := WakerOf(q, writers);
    NoteIsWakers(q, me, writers);
    StepKeepsInv(q, Step(me));
    assert Sizes(q) && Sizes(Next(q, Step(me)));
    N.NoteNears(w, me, ws, reach);
    T.StepIsGood(w, W.Step(me, false));
    hide W.Next, Next, Inv, N.Wakes, N.NoteRank, T.Inv, T.Shared, T.ThreadOk;
    var w' := W.Next(w, W.Step(me, false));
    forall o | 0 <= o < |w.threads| && o != me
      ensures w'.threads[o] == w.threads[o] || (w.threads[o].Asleep? && w'.threads[o].SleepClosed?)
    {
      assert T.Untouched(w, w', me, o);
    }
  }

  /** The notification over, its call is. */
  lemma NoteOver<T>(q: Queue<T>, me: nat, writers: bool, ws: seq<nat>, reach: nat)
    requires Notifying(q, me, writers, ws, reach) && WakerOf(q, writers).threads[me].NoteDone?
    ensures Next(q, Step(me)) == q.(phases := q.phases[me := InRing]) && Inv(Next(q, Step(me)))
    ensures WakerOf(q, writers).lock == None && N.AwakeUpTo(WakerOf(q, writers), ws, reach)
  {
    assert Sizes(q);
    StepKeepsInv(q, Step(me));
    hide W.Next, Inv, T.Inv;
  }

  /** Alone it ends, and leaves those it reached awake. */
  lemma {:induction false} NotifyEnds<T>(q: Queue<T>, me: nat, writers: bool, ws: seq<nat>, reach: nat) returns (n: nat)
    requires Notifying(q, me, writers, ws, reach)
    ensures
      var q' := Exec(q, Steps(me, n));
      && Inv(q') && q'.ring == q.ring && OnlyWoke(q, q', me, writers)
      && me < |q'.phases| && q'.phases[me].InRing? && WakerOf(q', writers).lock == None
      && reach <= |ws| && N.AwakeUpTo(WakerOf(q', writers), ws, reach)
    decreases N.NoteRank(WakerOf(q, writers), me, reach)
  {
    if WakerOf(q, writers).threads[me].NoteDone? {
      n := 1;
      NoteOver(q, me, writers, ws, reach);
      OneStep(q, me);
      hide Next, Inv, N.Wakes;
    } else {
      var q1 := Next(q, Step(me));
      NoteGoesOn(q, me, writers, ws, reach);
      hide Next, Inv, N.Wakes, N.NoteRank, N.AwakeUpTo;
      var m := NotifyEnds(q1, me, writers, ws, reach);
      n := m + 1;
      FirstStep(q, me, m);
      OnlyWokeTrans(q, q1, Exec(q1, Steps(me, m)), me, writers);
    }
  }

  lemma OneStep<T>(q: Queue<T>, me: nat)
    ensures Exec(q, Steps(me, 1)) == Next(q, Step(me)) && Exec(q, Steps(me, 0)) == q
  {
    hide Next;
    assert Steps<T>(me, 0) == [] && Steps<T>(me, 1) == [] + [Step(me)];
    ExecSnoc(q, [], Step(me));
  }

  lemma FirstStep<T>(q: Queue<T>, me: nat, m: nat)
    ensures Exec(q, Steps(me, m + 1)) == Exec(Next(q, Step(me)), Steps(me, m))
  {
    hide Next;
    OneStep(q, me);
    assert Steps<T>(me, m + 1) == Steps(me, 1) + Steps(me, m);
    ExecAppend(q, Steps(me, 1), Steps(me, m));
  }

  // ---------------------------------------------------------------- after a publication, after a release

  /** The last access of a send or a receive: before storing the lap. */
  ghost predicate Finishes<T>(q: Queue<T>, me: nat, writers: bool) {
    && Inv(q) && me < |q.phases| && me < |q.ring.threads| && q.phases[me].InRing?
    && if writers then q.ring.threads[me].RRelease? else q.ring.threads[me].SPublish?
  }

  lemma ReleaseIs<T>(q: Queue<T>, me: nat)
    requires Finishes(q, me, true)
    ensures
      var q', q1 := Next(q, Step(me)), InnerStep(q, me);
      q' == q1.(phases := q.phases[me := NotifiesWriters], writers := W.Next(q1.writers, W.StartWakeOne(me)))
  {
    assert Sizes(q) && PlaceOk(q, me);
    hide M.Next, W.Next, I.Inv, Inv, U.Enter, InnerStep, M.IsClosed;
    assert Next(q, Step(me)) == RingStep(q, me);
  }

  lemma PublishIs<T>(q: Queue<T>, me: nat)
    requires Finishes(q, me, false)
    ensures
      var q', q1 := Next(q, Step(me)), InnerStep(q, me);
      q' == q1.(phases := q.phases[me := NotifiesReaders], readers := W.Next(q1.readers, W.StartWakeOne(me)))
  {
    assert Sizes(q) && PlaceOk(q, me);
    hide M.Next, W.Next, I.Inv, Inv, U.Enter, InnerStep, M.IsClosed;
    assert Next(q, Step(me)) == RingStep(q, me);
  }

  /** It goes on to notify: nothing else has changed but its slot. */
  lemma FinishIs<T>(q: Queue<T>, me: nat, writers: bool)
    requires Finishes(q, me, writers)
    ensures
      var q', w := Next(q, Step(me)), WakerOf(q, writers);
      && Inv(q') && |q'.phases| == |q.phases| && |w.threads| == |q.phases|
      && q'.phases == q.phases[me := Notifies(writers)] && q'.watch == q.watch && q'.ring == M.Next(q.ring, M.Advance(me))
      && WakerOf(q', writers) == w.(queueClosed := M.IsClosed(q'.ring), threads := w.threads[me := W.NoteEmpty])
      && WakerOf(q', !writers) == WakerOf(q, !writers).(queueClosed := M.IsClosed(q'.ring))
  {
    assert Sizes(q) && PlaceOk(q, me);
    InnerMoves(q, me);
    InnerRing(q, me);
    StepKeepsInv(q, Step(me));
    WatchKept(q, me);
    var q1 := InnerStep(q, me);
    OkInv(WakerOf(q1, writers));
    StartsNote(WakerOf(q1, writers), me);
    if writers {
      ReleaseIs(q, me);
    } else {
      PublishIs(q, me);
    }
    hide M.Next, W.Next, I.Inv, Inv, InnerStep, M.IsClosed, Next, U.WakerOk, T.Inv;
  }

  lemma OkInv(w: W.State)
    requires U.WakerOk(w)
    ensures T.Inv(w)
  {
  }

  lemma GoesToNotify<T>(q: Queue<T>, me: nat, writers: bool)
    requires Finishes(q, me, writers) && WakerOf(q, writers).lock == None
    ensures
      var q', w := Next(q, Step(me)), WakerOf(q, writers);
      && Notifying(q', me, writers, w.meta.waiters, N.Reachable(w.meta))
      && q'.ring == M.Next(q.ring, M.Advance(me)) && OnlyWoke(q, q', me, writers)
  {
    FinishIs(q, me, writers);
    NotedInv(Next(q, Step(me)), writers);
    NotedInv(q, writers);
    hide M.Next, W.Next, Inv, M.IsClosed, Next;
    var w := WakerOf(q, writers);
    assert w.meta.start <= |w.meta.waiters|;
    hide T.Inv;
  }

  lemma NotedInv<T>(q: Queue<T>, writers: bool)
    requires Inv(q)
    ensures T.Inv(WakerOf(q, writers)) && Sizes(q)
  {
  }

  lemma WatchKept<T>(q: Queue<T>, me: nat)
    requires Has(q, me) && (q.ring.threads[me].RRelease? || q.ring.threads[me].SPublish?)
    ensures InnerStep(q, me).watch == q.watch
  {
    hide M.Next, W.Next;
  }

  lemma StartsNote(w: W.State, me: nat)
    requires T.Inv(w) && me < |w.threads| && W.AtRest(w.threads[me])
    ensures W.Next(w, W.StartWakeOne(me)) == w.(threads := w.threads[me := W.NoteEmpty])
  {
    hide T.Inv;
  }

  /**
   A `recv` that is about to store its lap, running alone to its end with the writers' lock free: of the writers' list as it
   found it, none of those reached before, and not the next one either, is left asleep. Nobody else is disturbed.
   */
  lemma ReleaseWakes<T>(q: Queue<T>, me: nat) returns (n: nat)
    requires Inv(q) && me < |q.phases| && me < |q.ring.threads| && q.phases[me].InRing? && q.ring.threads[me].RRelease?
    requires q.writers.lock == None
    ensures
      var q', ws := Exec(q, Steps(me, n)), q.writers.meta.waiters;
      && Inv(q') && q'.ring == M.Next(q.ring, M.Advance(me)) && OnlyWoke(q, q', me, true)
      && me < |q'.phases| && q'.phases[me].InRing? && q'.writers.lock == None
      && forall i :: 0 <= i < |ws| && i <= q.writers.meta.start ==> ws[i] < |q'.writers.threads| && !q'.writers.threads[ws[i]].Asleep?
  {
    n := FinishWakes(q, me, true);
  }

  /** A `send` that is about to store its lap, likewise: of the readers' list. */
  lemma PublishWakes<T>(q: Queue<T>, me: nat) returns (n: nat)
    requires Inv(q) && me < |q.phases| && me < |q.ring.threads| && q.phases[me].InRing? && q.ring.threads[me].SPublish?
    requires q.readers.lock == None
    ensures
      var q', ws := Exec(q, Steps(me, n)), q.readers.meta.waiters;
      && Inv(q') && q'.ring == M.Next(q.ring, M.Advance(me)) && OnlyWoke(q, q', me, false)
      && me < |q'.phases| && q'.phases[me].InRing? && q'.readers.lock == None
      && forall i :: 0 <= i < |ws| && i <= q.readers.meta.start ==> ws[i] < |q'.readers.threads| && !q'.readers.threads[ws[i]].Asleep?
  {
    n := FinishWakes(q, me, false);
  }

  lemma FinishWakes<T>(q: Queue<T>, me: nat, writers: bool) returns (n: nat)
    requires Finishes(q, me, writers) && WakerOf(q, writers).lock == None
    ensures
      var q', w, w' := Exec(q, Steps(me, n)), WakerOf(q, writers), WakerOf(Exec(q, Steps(me, n)), writers);
      && Inv(q') && q'.ring == M.Next(q.ring, M.Advance(me)) && OnlyWoke(q, q', me, writers)
      && me < |q'.phases| && q'.phases[me].InRing? && w'.lock == None
      && forall i :: 0 <= i < |w.meta.waiters| && i <= w.meta.start ==> w.meta.waiters[i] < |w'.threads| && !w'.threads[w.meta.waiters[i]].Asleep?
  {
    var w, q1 := WakerOf(q, writers), Next(q, Step(me));
    GoesToNotify(q, me, writers);
    hide Next, M.Next, Inv, N.Wakes;
    var m := NotifyEnds(q1, me, writers, w.meta.waiters, N.Reachable(w.meta));
    n := m + 1;
    FirstStep(q, me, m);
    OnlyWokeTrans(q, q1, Exec(q1, Steps(me, m)), me, writers);
    hide OnlyWoke, Notifying, Exec;
  }
}
