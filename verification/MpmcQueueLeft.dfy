/** Readers left asleep by a queue that closed itself: for good, and exactly with two threads or more. */
module MpmcQueueLeft {
  import opened Words
  import opened MpmcQueue
  import opened MpmcQueueInvariant
  import opened MpmcQueueTheorems
  import M = MpmcRing
  import I = MpmcInvariant
  import R = MpmcTheorems
  import W = Waker
  import T = WakerTheorems
  import U = WakerUse

  /** On the way to waking the readers: a send that has claimed, or notifies, and a close that sets the bit or closes the wakers. */
  ghost predicate WillWake<T>(q: Queue<T>, o: nat)
    requires Has(q, o)
  {
    || q.phases[o].NotifiesReaders? || Closes(q.phases[o])
    || q.ring.threads[o].SWrite? || q.ring.threads[o].SPublish? || q.ring.threads[o].CCas?
  }

  /** A close has returned, thread o sleeps on the readers' waker, and no thread is on the way to waking it. */
  ghost predicate Abandoned<T>(q: Queue<T>, o: nat) {
    && q.returned && Has(q, o) && q.readers.threads[o].Asleep?
    && forall p :: 0 <= p < |q.phases| && Has(q, p) ==> !WillWake(q, p)
  }

  // ---------------------------------------------------------------- for good

  /** In a closed ring nobody comes to be about to publish, or to set the bit. */
  lemma ClosedRingCalm<T>(r: M.Ring<T>, a: M.Action<T>)
    requires I.Inv(r) && M.IsClosed(r) && a.me < |r.threads|
    requires !r.threads[a.me].SWrite? && !r.threads[a.me].SPublish? && !r.threads[a.me].CCas?
    ensures var pc := M.Next(r, a).threads[a.me]; !pc.SWrite? && !pc.SPublish? && !pc.CCas?
  {
    R.StepGrows(r, a);
    R.StepEffect(r, a);
    ClosedBit(r.writeMeta);
    if !R.WinsSend(r, a) {
      hide I.Inv;
      NoClaimNoWrite(r, a);
    }
  }

  lemma NoClaimNoWrite<T>(r: M.Ring<T>, a: M.Action<T>)
    requires a.me < |r.threads| && !R.WinsSend(r, a) && r.writeMeta >= MASK64
    requires !r.threads[a.me].SWrite? && !r.threads[a.me].SPublish? && !r.threads[a.me].CCas?
    ensures var pc := M.Next(r, a).threads[a.me]; !pc.SWrite? && !pc.SPublish? && !pc.CCas?
  {
    hide M.AdvanceSend, M.AdvanceRecv, M.AdvanceClose;
    if a.Advance? {
      SendNoWrite(r, a.me);
      RecvNoWrite(r, a.me);
      CloseNoCas(r, a.me);
    }
  }

  lemma SendNoWrite<T>(r: M.Ring<T>, me: nat)
    requires me < |r.threads| && !R.WinsSend(r, M.Advance(me))
    requires !r.threads[me].SWrite? && !r.threads[me].SPublish? && !r.threads[me].CCas?
    ensures var pc := M.AdvanceSend(r, me).threads[me]; !pc.SWrite? && !pc.SPublish? && !pc.CCas?
  {
    hide LapOf, IdxOf;
  }

  lemma RecvNoWrite<T>(r: M.Ring<T>, me: nat)
    requires me < |r.threads| && !r.threads[me].SWrite? && !r.threads[me].SPublish? && !r.threads[me].CCas?
    ensures var pc := M.AdvanceRecv(r, me).threads[me]; !pc.SWrite? && !pc.SPublish? && !pc.CCas?
  {
    hide LapOf, IdxOf;
  }

  lemma CloseNoCas<T>(r: M.Ring<T>, me: nat)
    requires me < |r.threads| && r.writeMeta >= MASK64 && !r.threads[me].SWrite? && !r.threads[me].SPublish? && !r.threads[me].CCas?
    ensures var pc := M.AdvanceClose(r, me).threads[me]; !pc.SWrite? && !pc.SPublish? && !pc.CCas?
  {
  }

  /** Of the readers' waker, a waiting thread moves itself only. */
  lemma WaiterWakesNobody(w: W.State, b: W.Action, o: nat)
    requires b.me < |w.threads| && o < |w.threads| && o != b.me
    requires b.StartWait? || b.GiveUpRetry? || b.Spurious? || (b.Step? && U.InWait(w.threads[b.me]))
    ensures W.Next(w, b).threads[o] == w.threads[o]
  {
    hide W.EnterStep, W.SleepStep, W.NoteStep, W.CloseStep;
    var pc := w.threads[b.me];
    if b.Step? {
      if W.Entering(pc) {
        T.EnterParks(w, b.me, b.ready, o);
      } else if W.Sleeping(pc) {
        T.SleeperMovesItself(w, b.me, b.ready, o);
      }
    }
  }

  /** A sleeping thread does not wake itself, unless spuriously. */
  lemma SleepsOn(w: W.State, b: W.Action)
    requires b.me < |w.threads| && w.threads[b.me].Asleep? && (b.Step? || b.GiveUpRetry?)
    ensures W.Next(w, b) == w
  {
  }

  lemma RingStepLeavesReaders<T>(q: Queue<T>, me: nat, o: nat)
    requires Inv(q) && me < |q.phases| && o < |q.phases| && o != me && q.phases[me].InRing? && M.IsClosed(q.ring) && !WillWake(q, me)
    ensures Has(RingStep(q, me), o) && RingStep(q, me).readers.threads[o] == q.readers.threads[o]
  {
    RingFacts(q.ring, M.Advance(me));
    hide M.Next, W.Next, I.Inv, U.WakerOk;
    if q.ring.threads[me].RWait? {
      WaiterWakesNobody(q.readers, W.StartWait(me), o);
    }
  }

  /** Whoever steps, the sleeper sleeps on. */
  lemma AsleepStays<T>(q: Queue<T>, a: Action<T>, o: nat)
    requires Inv(q) && Abandoned(q, o) && a != Spurious(o)
    ensures Has(Next(q, a), o) && Next(q, a).readers.threads[o].Asleep?
  {
    StepKeepsInv(q, a);
    var me := By(a);
    assert Sizes(q) && Flags(q) && Sizes(Next(q, a));
    if me < |q.phases| {
      assert PlaceOk(q, me) && PlaceOk(q, o) && !WillWake(q, me);
      if a.Step? && q.phases[me].InRing? {
        RingStepLeavesReaders(q, me, o);
        hide Inv, RingStep;
      } else {
        hide M.Next, Inv, RingStep, U.Enter;
        if q.phases[me].WaitsReader? {
          var b := if a.GiveUp? then W.GiveUpRetry(me) else if a.Spurious? then W.Spurious(me) else W.Step(me, Ready(q, me));
          if me == o {
            SleepsOn(q.readers, b);
          } else {
            WaiterWakesNobody(q.readers, b, o);
          }
        }
        hide W.Next;
      }
    }
  }

  /** And nobody comes to be on the way to waking it. */
  lemma CalmStays<T>(q: Queue<T>, a: Action<T>, p: nat)
    requires Inv(q) && M.IsClosed(q.ring) && p < |q.phases| && !WillWake(q, p)
    ensures Has(Next(q, a), p) && !WillWake(Next(q, a), p)
  {
    var q', me := Next(q, a), By(a);
    StepKeepsInv(q, a);
    assert Sizes(q) && Sizes(q') && I.Inv(q.ring);
    assert me < |q.phases| ==> PlaceOk(q, me);
    Histories(q, a);
    if me == p {
      OwnCalm(q, a);
    } else {
      hide Inv, I.Inv;
      OthersPlaces(q, a, p);
    }
  }

  /** The ring's action of a step is its thread's own. */
  lemma RingMove<T>(q: Queue<T>, a: Action<T>)
    ensures Next(q, a).ring == q.ring
      || (|RingActions(q, a)| == 1 && RingActions(q, a)[0].me == By(a) && Next(q, a).ring == M.Next(q.ring, RingActions(q, a)[0]))
  {
    RingTakes(q, a);
    var acts := RingActions(q, a);
    OwnActions(q, a);
    hide Next, M.Next, RingActions;
    if acts != [] {
      assert acts[..0] == [];
      assert M.Exec(q.ring, acts) == M.Next(M.Exec(q.ring, []), acts[0]);
    }
  }

  lemma OwnActions<T>(q: Queue<T>, a: Action<T>)
    ensures |RingActions(q, a)| <= 1 && (RingActions(q, a) != [] ==> RingActions(q, a)[0].me == By(a))
  {
  }

  lemma PhasesOwn<T>(q: Queue<T>, a: Action<T>, p: nat)
    requires p < |q.phases| && p != By(a)
    ensures |Next(q, a).phases| == |q.phases| && Next(q, a).phases[p] == q.phases[p]
  {
    hide M.Next, RingStep, WriterStep, ReaderStep, WaitAction;
  }

  lemma OthersPlaces<T>(q: Queue<T>, a: Action<T>, p: nat)
    requires Sizes(q) && Sizes(Next(q, a)) && I.Inv(q.ring) && p < |q.phases| && p != By(a)
    ensures Has(Next(q, a), p) && Next(q, a).phases[p] == q.phases[p] && Next(q, a).ring.threads[p] == q.ring.threads[p]
  {
    RingMove(q, a);
    PhasesOwn(q, a, p);
    hide Next, M.Next, I.Inv, RingActions;
    if Next(q, a).ring != q.ring {
      RingFacts(q.ring, RingActions(q, a)[0]);
    }
  }

  /** A thread's phase turns to a notification of the readers from a publication only, and to a close from a CAS. */
  lemma OwnPhase<T>(q: Queue<T>, a: Action<T>)
    requires Has(q, By(a)) && Has(Next(q, a), By(a)) && !WillWake(q, By(a))
    ensures !Next(q, a).phases[By(a)].NotifiesReaders? && !Closes(Next(q, a).phases[By(a)])
  {
    hide M.Next, W.Next, U.Enter, M.IsClosed;
  }

  lemma OwnCalm<T>(q: Queue<T>, a: Action<T>)
    requires Inv(q) && M.IsClosed(q.ring) && By(a) < |q.phases| && !WillWake(q, By(a)) && Has(Next(q, a), By(a))
    ensures !WillWake(Next(q, a), By(a))
  {
    OwnPhase(q, a);
    RingMove(q, a);
    assert Sizes(q) && I.Inv(q.ring);
    hide Next, M.Next, Inv, I.Inv, RingActions, M.IsClosed;
    if Next(q, a).ring != q.ring {
      ClosedRingCalm(q.ring, RingActions(q, a)[0]);
    }
  }

  /** So nothing but a spurious wake-up ends it: whatever the others and the sleeper itself do, over any run. */
  lemma {:induction false} AbandonedForGood<T>(q: Queue<T>, more: seq<Action<T>>, o: nat)
    requires Inv(q) && Abandoned(q, o)
    requires forall k :: 0 <= k < |more| ==> more[k] != Spurious(o)
    ensures Inv(Exec(q, more)) && Abandoned(Exec(q, more), o)
  {
    if more != [] {
      var before, a := Exec(q, more[..|more| - 1]), more[|more| - 1];
      AbandonedForGood(q, more[..|more| - 1], o);
      StepKeepsInv(before, a);
      AbandonedStep(before, a, o);
      hide Next, Abandoned, Inv;
    }
  }

  lemma AbandonedStep<T>(q: Queue<T>, a: Action<T>, o: nat)
    requires Inv(q) && Abandoned(q, o) && a != Spurious(o)
    ensures Abandoned(Next(q, a), o)
  {
    AsleepStays(q, a, o);
    Histories(q, a);
    assert M.IsClosed(q.ring) && Sizes(q);
    forall p | 0 <= p < |Next(q, a).phases| && Has(Next(q, a), p) ensures !WillWake(Next(q, a), p) {
      CalmStays(q, a, p);
    }
    hide Next, Inv;
  }

  // ---------------------------------------------------------------- one thread is not enough

  /** Nobody parks between w and w'. */
  ghost predicate Shrinks(w: W.State, w': W.State) {
    |w'.threads| == |w.threads| && forall o :: 0 <= o < |w.threads| && T.Parking(w'.threads[o]) ==> T.Parking(w.threads[o])
  }

  lemma NextShrinks(w: W.State, b: W.Action)
    requires w.queueClosed
    ensures Shrinks(w, W.Next(w, b))
  {
    hide T.Parking, W.Next;
    forall o | 0 <= o < |w.threads| && T.Parking(W.Next(w, b).threads[o]) ensures T.Parking(w.threads[o]) {
      U.WakerShrinks(w, b, o);
    }
  }

  lemma EnterShrinks(w: W.State, me: nat)
    requires w.queueClosed
    ensures Shrinks(w, w) && Shrinks(w, U.Enter(w, me))
  {
    NextShrinks(w, W.StartClose(me));
    NextShrinks(W.Next(w, W.StartClose(me)), W.Step(me, false));
    hide T.Parking, W.Next;
  }

  lemma RingStepShrinks<T>(q: Queue<T>, me: nat)
    requires q.writers.queueClosed && q.readers.queueClosed && Has(q, me)
    ensures Shrinks(q.writers, RingStep(q, me).writers) && Shrinks(q.readers, RingStep(q, me).readers)
  {
    EnterShrinks(q.writers, me);
    EnterShrinks(q.readers, me);
    NextShrinks(q.writers, W.StartWait(me));
    NextShrinks(q.readers, W.StartWait(me));
    NextShrinks(q.writers, W.StartWakeOne(me));
    NextShrinks(q.readers, W.StartWakeOne(me));
    hide Shrinks, M.Next, W.Next, U.Enter, M.IsClosed, Watched;
  }

  lemma WriterStepShrinks<T>(q: Queue<T>, me: nat)
    requires q.writers.queueClosed && q.readers.queueClosed && Has(q, me)
    ensures Shrinks(q.writers, WriterStep(q, me).writers) && Shrinks(q.readers, WriterStep(q, me).readers)
  {
    EnterShrinks(q.writers, me);
    EnterShrinks(q.readers, me);
    NextShrinks(q.writers, W.Step(me, Ready(q, me)));
    NextShrinks(q.writers, W.Step(me, false));
    hide Shrinks, M.Next, W.Next, U.Enter;
  }

  lemma ReaderStepShrinks<T>(q: Queue<T>, me: nat)
    requires q.writers.queueClosed && q.readers.queueClosed && Has(q, me)
    ensures Shrinks(q.writers, ReaderStep(q, me).writers) && Shrinks(q.readers, ReaderStep(q, me).readers)
  {
    EnterShrinks(q.writers, me);
    EnterShrinks(q.readers, me);
    NextShrinks(q.readers, W.Step(me, Ready(q, me)));
    NextShrinks(q.readers, W.Step(me, false));
    hide Shrinks, M.Next, W.Next, U.Enter;
  }

  lemma WaitActionShrinks<T>(q: Queue<T>, me: nat, b: W.Action)
    requires q.writers.queueClosed && q.readers.queueClosed && Has(q, me)
    ensures Shrinks(q.writers, WaitAction(q, me, b).writers) && Shrinks(q.readers, WaitAction(q, me, b).readers)
  {
    EnterShrinks(q.writers, me);
    EnterShrinks(q.readers, me);
    NextShrinks(q.writers, b);
    NextShrinks(q.readers, b);
    hide Shrinks, W.Next, U.Enter;
  }

  lemma WakersShrink<T>(q: Queue<T>, a: Action<T>)
    requires q.writers.queueClosed && q.readers.queueClosed && Has(q, By(a))
    ensures Shrinks(q.writers, Next(q, a).writers) && Shrinks(q.readers, Next(q, a).readers)
  {
    EnterShrinks(q.writers, By(a));
    EnterShrinks(q.readers, By(a));
    hide Shrinks, RingStep, WriterStep, ReaderStep, WaitAction, U.Enter, M.Next;
    match a
    case Start(_) =>
    case Step(me) =>
      RingStepShrinks(q, me);
      WriterStepShrinks(q, me);
      ReaderStepShrinks(q, me);
    case GiveUp(me) => WaitActionShrinks(q, me, W.GiveUpRetry(me));
    case Spurious(me) => WaitActionShrinks(q, me, W.Spurious(me));
  }

  /** With the bit set nobody parks any more, on either waker. */
  lemma ParkedShrinks<T>(q: Queue<T>, a: Action<T>, o: nat)
    requires Inv(q) && M.IsClosed(q.ring) && Parked(Next(q, a), o)
    ensures Parked(q, o)
  {
    assert q.writers.queueClosed && q.readers.queueClosed && Sizes(q);
    SameThreads(q, a);
    hide Inv, Next, T.Parking;
    if By(a) < |q.phases| {
      WakersShrink(q, a);
    } else {
      NobodySteps(q, a);
    }
  }

  lemma NobodySteps<T>(q: Queue<T>, a: Action<T>)
    requires !Has(q, By(a))
    ensures Next(q, a) == q
  {
  }

  lemma SameThreads<T>(q: Queue<T>, a: Action<T>)
    requires Inv(q)
    ensures Sizes(Next(q, a)) && |Next(q, a).phases| == |q.phases|
  {
    StepKeepsInv(q, a);
    Histories(q, a);
    hide Next;
  }

  /** The thread whose close returns is not parked. */
  lemma ReturnIsUnparked<T>(q: Queue<T>, a: Action<T>)
    requires Inv(q) && |q.phases| == 1 && !q.returned && Next(q, a).returned
    ensures !Parked(Next(q, a), 0)
  {
    StepKeepsInv(q, a);
    assert PlaceOk(Next(q, a), 0);
    ReturnsToRing(q, a);
    hide Next, Inv;
  }

  lemma ReturnsToRing<T>(q: Queue<T>, a: Action<T>)
    requires |q.phases| == 1 && !q.returned && Next(q, a).returned
    ensures |Next(q, a).phases| == 1 && Next(q, a).phases[0].InRing?
  {
    hide M.Next, W.Next, U.Enter;
  }

  lemma {:induction false} AloneUnparked<T>(cap: U32, run: seq<Action<T>>)
    requires cap <= MAX_CAPACITY
    ensures Exec(Init<T>(cap, 1), run).returned ==> !Parked(Exec(Init<T>(cap, 1), run), 0)
  {
    if run != [] {
      var before, a := Exec(Init<T>(cap, 1), run[..|run| - 1]), run[|run| - 1];
      AloneUnparked(cap, run[..|run| - 1]);
      RunKeepsInv(cap, 1, run[..|run| - 1]);
      ThroughStays(Init<T>(cap, 1), run[..|run| - 1]);
      assert before.returned ==> M.IsClosed(before.ring);
      hide Next, Parked, Exec, Inv;
      if before.returned && Parked(Next(before, a), 0) {
        ParkedShrinks(before, a, 0);
      } else if !before.returned && Next(before, a).returned {
        ReturnIsUnparked(before, a);
      }
    }
  }

  lemma {:induction false} FewAbandonNobody<T>(cap: U32, threads: nat, run: seq<Action<T>>, o: nat)
    requires cap <= MAX_CAPACITY && threads < 2
    ensures !Abandoned(Exec(Init<T>(cap, threads), run), o)
  {
    ThroughStays(Init<T>(cap, threads), run);
    if threads == 1 {
      AloneUnparked(cap, run);
    }
    hide Exec;
  }
}
