/** A waiting call watches the right slot: what it waits for cannot come without a change of the lap it watches. */
module MpmcQueueWatch {
  import opened Words
  import opened Options
  import opened Tickets
  import opened MpmcQueue
  import opened MpmcQueueInvariant
  import opened MpmcQueueTheorems
  import M = MpmcRing
  import I = MpmcInvariant
  import S = MpmcSteps
  import R = MpmcTheorems
  import L = MpmcQueueLeft
  import W = Waker
  import U = WakerUse

  /** The watched slot is that of ticket t, which had not got so far. */
  ghost predicate Awaits<T>(r: M.Ring<T>, seen: Watch, t: nat, read: bool)
    requires |r.slots| > 0
  {
    && t <= (if read then |r.taken| else |r.sent|)
    && seen.idx == SlotOf(t, |r.slots|) && seen.lap < 2 * RoundOf(t, |r.slots|) + if read then 1 else 0
  }

  /** Before its second lap load, and while it waits. */
  ghost predicate WatchOk<T>(r: M.Ring<T>, pc: M.Pc<T>, seen: Watch)
    requires |r.slots| > 0
  {
    && (pc.RRelap? || pc.RWait? ==> exists t :: Awaits(r, seen, t, true))
    && (pc.SRelap? || pc.SWait? ==> exists t :: Awaits(r, seen, t, false))
  }

  ghost predicate WatchInv<T>(q: Queue<T>) {
    && Inv(q) && |q.ring.slots| > 0
    && forall o :: 0 <= o < |q.phases| && Has(q, o) ==> WatchOk(q.ring, q.ring.threads[o], q.watch[o])
  }

  lemma InitWatch<T>(cap: U32, threads: nat)
    requires cap <= MAX_CAPACITY
    ensures WatchInv(Init<T>(cap, threads))
  {
    InitInv<T>(cap, threads);
  }

  // ---------------------------------------------------------------- steps

  /** What a ring has grown by does not matter. */
  lemma WatchStays<T>(r: M.Ring<T>, r': M.Ring<T>, pc: M.Pc<T>, seen: Watch)
    requires 0 < |r.slots| == |r'.slots| && |r.sent| <= |r'.sent| && |r.taken| <= |r'.taken| && WatchOk(r, pc, seen)
    ensures WatchOk(r', pc, seen)
  {
    if pc.RRelap? || pc.RWait? {
      var t :| Awaits(r, seen, t, true);
      assert Awaits(r', seen, t, true);
    }
    if pc.SRelap? || pc.SWait? {
      var t :| Awaits(r, seen, t, false);
      assert Awaits(r', seen, t, false);
    }
  }

  /** Places with something to watch are reached from each other, or from the first lap load. */
  lemma WatchesFrom<T>(r: M.Ring<T>, a: M.Action<T>)
    requires a.me < |r.threads| && a.me < |M.Next(r, a).threads|
    ensures
      var pc, pc' := r.threads[a.me], M.Next(r, a).threads[a.me];
      && (pc'.RRelap? || pc'.RWait? ==> pc.RRelap? || pc.RWait? || (a.Advance? && pc.RLap? && pc'.RRelap?))
      && (pc'.SRelap? || pc'.SWait? ==> pc.SRelap? || pc.SWait? || (a.Advance? && pc.SLap? && pc'.SRelap?))
  {
    hide LapOf, IdxOf;
    if a.Advance? {
      SendWatchesFrom(r, a.me);
      RecvWatchesFrom(r, a.me);
    }
  }

  lemma SendWatchesFrom<T>(r: M.Ring<T>, me: nat)
    requires me < |r.threads|
    ensures
      var pc, r' := r.threads[me], M.AdvanceSend(r, me);
      && |r'.threads| == |r.threads| && !r'.threads[me].RRelap? == !pc.RRelap? && !r'.threads[me].RWait? == !pc.RWait?
      && (r'.threads[me].SRelap? || r'.threads[me].SWait? ==> pc.SRelap? || pc.SWait? || (pc.SLap? && r'.threads[me].SRelap?))
  {
    hide LapOf, IdxOf;
  }

  lemma RecvWatchesFrom<T>(r: M.Ring<T>, me: nat)
    requires me < |r.threads|
    ensures
      var pc, r' := r.threads[me], M.AdvanceRecv(r, me);
      && |r'.threads| == |r.threads| && !r'.threads[me].SRelap? == !pc.SRelap? && !r'.threads[me].SWait? == !pc.SWait?
      && (r'.threads[me].RRelap? || r'.threads[me].RWait? ==> pc.RRelap? || pc.RWait? || (pc.RLap? && r'.threads[me].RRelap?))
  {
    hide LapOf, IdxOf;
  }

  /** The first lap load found a lap below the snapshot's. */
  lemma LoadsWatch<T>(q: Queue<T>, me: nat)
    requires Inv(q) && me < |q.phases| && Has(q, me) && (q.ring.threads[me].SLap? || q.ring.threads[me].RLap?)
    ensures |q.ring.slots| > 0 && WatchOk(q.ring, M.Next(q.ring, M.Advance(me)).threads[me], Watched(q, me)[me])
  {
    var r := q.ring;
    var snap := r.threads[me].snap;
    assert I.ThreadOk(r, me, r.threads[me]);
    R.LapStep(r, me);
    if r.threads[me].SLap? {
      I.SendSnapCurrent(r, snap);
      if M.Next(r, M.Advance(me)).threads[me].SRelap? {
        assert Awaits(r, Watched(q, me)[me], snap.seen, false);
      }
    } else {
      I.RecvSnapCurrent(r, snap);
      if M.Next(r, M.Advance(me)).threads[me].RRelap? {
        assert Awaits(r, Watched(q, me)[me], snap.seen, true);
      }
    }
  }

  /** A first lap load of a selection. */
  ghost predicate Loads<T>(q: Queue<T>, a: Action<T>)
    requires Has(q, By(a))
  {
    a.Step? && q.phases[a.me].InRing? && (q.ring.threads[a.me].SLap? || q.ring.threads[a.me].RLap?)
  }

  lemma RingStepWatch<T>(q: Queue<T>, me: nat)
    requires Has(q, me)
    ensures var pc := q.ring.threads[me];
      RingStep(q, me).watch == if pc.SLap? || pc.RLap? then Watched(q, me) else q.watch
    ensures var pc := q.ring.threads[me]; pc.SLap? || pc.RLap? ==> RingStep(q, me).ring == M.Next(q.ring, M.Advance(me))
  {
    InnerWatch(q, me);
    InnerRing(q, me);
    hide M.Next, W.Next, U.Enter, InnerStep;
  }

  lemma WakerStepsWatch<T>(q: Queue<T>, me: nat)
    requires Has(q, me)
    ensures WriterStep(q, me).watch == q.watch && ReaderStep(q, me).watch == q.watch
  {
    hide M.Next, W.Next, U.Enter;
  }

  /** The watch changes in one only. */
  lemma WatchMoves<T>(q: Queue<T>, a: Action<T>)
    requires Inv(q) && By(a) < |q.phases|
    ensures Has(q, By(a))
    ensures Next(q, a).watch == if Loads(q, a) then Watched(q, By(a)) else q.watch
    ensures Loads(q, a) ==> Next(q, a).ring == M.Next(q.ring, M.Advance(By(a)))
  {
    assert Sizes(q);
    hide M.Next, W.Next, U.Enter, Inv, RingStep, WriterStep, ReaderStep, Watched;
    if a.Step? {
      RingStepWatch(q, a.me);
      WakerStepsWatch(q, a.me);
    }
  }

  lemma OtherWatches<T>(q: Queue<T>, me: nat, o: nat)
    requires Has(q, me) && Has(q, o) && o != me
    ensures |Watched(q, me)| == |q.watch| && Watched(q, me)[o] == q.watch[o]
  {
  }

  /** The stepping thread's own watch. */
  lemma OwnWatch<T>(q: Queue<T>, a: Action<T>)
    requires WatchInv(q) && Inv(Next(q, a)) && By(a) < |q.phases| && Has(q, By(a)) && Has(Next(q, a), By(a))
    requires |Next(q, a).ring.slots| == |q.ring.slots| && |q.ring.sent| <= |Next(q, a).ring.sent| && |q.ring.taken| <= |Next(q, a).ring.taken|
    ensures WatchOk(Next(q, a).ring, Next(q, a).ring.threads[By(a)], Next(q, a).watch[By(a)])
  {
    var me, r, r' := By(a), q.ring, Next(q, a).ring;
    WatchMoves(q, a);
    if Loads(q, a) {
      LoadsWatch(q, me);
      hide Next, Inv, WatchOk, Watched, M.Next;
      WatchStays(r, r', r'.threads[me], Watched(q, me)[me]);
    } else {
      WatchStays(r, r', r.threads[me], q.watch[me]);
      OwnPlace(q, a);
      hide Next, Inv, M.Next, Awaits;
    }
  }

  /** Without one a place with something to watch was one before. */
  lemma OwnPlace<T>(q: Queue<T>, a: Action<T>)
    requires Inv(q) && By(a) < |q.phases| && Has(q, By(a)) && Has(Next(q, a), By(a)) && !Loads(q, a)
    ensures
      var pc, pc' := q.ring.threads[By(a)], Next(q, a).ring.threads[By(a)];
      && (pc'.RRelap? || pc'.RWait? ==> pc.RRelap? || pc.RWait?)
      && (pc'.SRelap? || pc'.SWait? ==> pc.SRelap? || pc.SWait?)
  {
    var pc := q.ring.threads[By(a)];
    L.RingMove(q, a);
    hide Next, M.Next;
    if Next(q, a).ring != q.ring {
      var act := RingActions(q, a)[0];
      WatchesFrom(q.ring, act);
      if act.Advance? && (pc.SLap? || pc.RLap?) {
        FirstLapIsInRing(q, a);
        assert false;
      }
    }
  }

  /** A first lap load is a step in the ring. */
  lemma FirstLapIsInRing<T>(q: Queue<T>, a: Action<T>)
    requires Inv(q) && By(a) < |q.phases| && Has(q, By(a)) && RingActions(q, a) != [] && RingActions(q, a)[0].Advance?
    requires q.ring.threads[By(a)].SLap? || q.ring.threads[By(a)].RLap?
    ensures a.Step? && q.phases[By(a)].InRing?
  {
    assert PlaceOk(q, By(a));
  }

  lemma StepKeepsWatch<T>(q: Queue<T>, a: Action<T>)
    requires WatchInv(q)
    ensures WatchInv(Next(q, a))
  {
    var q' := Next(q, a);
    StepKeepsInv(q, a);
    assert Sizes(q) && Sizes(q') && I.Inv(q.ring);
    L.RingMove(q, a);
    Histories(q, a);
    if By(a) < |q.phases| {
      WatchMoves(q, a);
    } else {
      Nobody(q, a);
    }
    hide Next, Inv, I.Inv, M.Next, RingActions;
    if q'.ring != q.ring {
      RingFacts(q.ring, RingActions(q, a)[0]);
      R.StepGrows(q.ring, RingActions(q, a)[0]);
    }
    forall o | 0 <= o < |q'.phases| && Has(q', o) ensures WatchOk(q'.ring, q'.ring.threads[o], q'.watch[o]) {
      if o == By(a) {
        OwnWatch(q, a);
      } else {
        assert Has(q, o);
        if By(a) < |q.phases| {
          OtherWatches(q, By(a), o);
        }
        WatchStays(q.ring, q'.ring, q.ring.threads[o], q.watch[o]);
      }
    }
  }

  lemma Nobody<T>(q: Queue<T>, a: Action<T>)
    requires Inv(q) && By(a) >= |q.phases|
    ensures Next(q, a) == q
  {
    assert Sizes(q);
    hide Inv;
  }

  lemma {:induction false} RunKeepsWatch<T>(cap: U32, threads: nat, run: seq<Action<T>>)
    requires cap <= MAX_CAPACITY
    ensures WatchInv(Exec(Init(cap, threads), run))
  {
    if run == [] {
      InitWatch<T>(cap, threads);
    } else {
      hide Next, WatchInv;
      RunKeepsWatch(cap, threads, run[..|run| - 1]);
      StepKeepsWatch(Exec(Init(cap, threads), run[..|run| - 1]), run[|run| - 1]);
    }
  }

  // ---------------------------------------------------------------- nobody watches in vain

  /** The next message is there to be taken: accepted, unclaimed, and its sender has published it. */
  ghost predicate HeadThere<T>(r: M.Ring<T>)
    requires I.Shape(r)
  {
    |r.taken| < |r.sent| && !R.Unpublished(r, |r.taken|)
  }

  /** The next slot is there to be filled: there is room, and the reader one turn back has released it. */
  ghost predicate TailFree<T>(r: M.Ring<T>)
    requires I.Shape(r)
  {
    |r.sent| < |r.taken| + |r.slots| && !R.Unreleased(r, |r.sent| - |r.slots|)
  }

  lemma HeadChangesLap<T>(r: M.Ring<T>, seen: Watch, t: nat)
    requires I.Inv(r) && HeadThere(r) && Awaits(r, seen, t, true)
    ensures seen.idx < |r.slots| && r.slots[seen.idx].lap > seen.lap
  {
    S.ServingTicket(r, t);
    assert I.SlotOk(r, SlotOf(t, |r.slots|));
  }

  lemma TailChangesLap<T>(r: M.Ring<T>, seen: Watch, t: nat)
    requires I.Inv(r) && TailFree(r) && Awaits(r, seen, t, false)
    ensures seen.idx < |r.slots| && r.slots[seen.idx].lap > seen.lap
  {
    S.ServingTicket(r, t);
    assert I.SlotOk(r, SlotOf(t, |r.slots|));
    if r.slots[seen.idx].lap / 2 < RoundOf(t, |r.slots|) {
      OneTurnBack(I.Serving(r, seen.idx), t, |r.slots|);
    }
  }

  lemma OneTurnBack(a: nat, t: nat, cap: nat)
    requires a + cap <= t
    ensures t <= a + cap ==> a == t - cap
  {
  }

  /** The lap a waiting receive watches has changed when the next message is there; that of a waiting send when the next slot is. */
  lemma WatchSees<T>(q: Queue<T>, me: nat)
    requires WatchInv(q) && me < |q.phases|
    ensures Has(q, me) && I.Shape(q.ring)
    ensures (q.phases[me].WaitsReader? && HeadThere(q.ring)) || (q.phases[me].WaitsWriter? && TailFree(q.ring)) ==>
        q.watch[me].idx < |q.ring.slots| && q.ring.slots[q.watch[me].idx].lap != q.watch[me].lap
  {
    assert Sizes(q) && PlaceOk(q, me) && I.Inv(q.ring);
    var seen := q.watch[me];
    if q.phases[me].WaitsReader? && HeadThere(q.ring) {
      var t :| Awaits(q.ring, seen, t, true);
      HeadChangesLap(q.ring, seen, t);
    } else if q.phases[me].WaitsWriter? && TailFree(q.ring) {
      var t :| Awaits(q.ring, seen, t, false);
      TailChangesLap(q.ring, seen, t);
    }
    hide Inv, I.Inv;
  }

  /** So it is in every reachable state. */
  lemma {:induction false} NobodyWatchesInVain<T>(cap: U32, threads: nat, run: seq<Action<T>>, me: nat)
    requires cap <= MAX_CAPACITY && me < |Exec(Init<T>(cap, threads), run).phases|
    ensures
      var q := Exec(Init<T>(cap, threads), run);
      && Has(q, me) && I.Shape(q.ring)
      && ((q.phases[me].WaitsReader? && HeadThere(q.ring)) || (q.phases[me].WaitsWriter? && TailFree(q.ring)) ==>
           q.watch[me].idx < |q.ring.slots| && q.ring.slots[q.watch[me].idx].lap != q.watch[me].lap)
  {
    RunKeepsWatch(cap, threads, run);
    WatchSees(Exec(Init<T>(cap, threads), run), me);
  }
}
