/** How a queue uses one of its wakers: a thread is in one call of it at a time, and what the others do keeps it there. */
module WakerUse {
  import opened Waker
  import T = WakerTheorems

  /** Calls `close` on a waker, the queue's flag being set. */
  function Enter(w: State, me: nat): State {
    Next(Next(w, StartClose(me)), Step(me, false))
  }

  /** Inside a wait, or done with it. */
  predicate InWait(pc: Pc) {
    Entering(pc) || Sleeping(pc) || pc.Asleep? || pc.WaitDone?
  }

  predicate InNote(pc: Pc) {
    Noting(pc) || pc.NoteDone?
  }

  predicate InClose(pc: Pc) {
    Closing(pc) || pc.CloseDone?
  }

  /** What a step of the waker may do to a thread inside one of its calls, or at rest. */
  predicate Follows(pc: Pc, pc': Pc) {
    && (AtRest(pc) ==> pc' == pc)
    && (InWait(pc) ==> InWait(pc')) && (InNote(pc) ==> InNote(pc')) && (InClose(pc) ==> InClose(pc'))
    && (!pc.CloseFlag? ==> !pc'.CloseFlag?)
  }

  /** The flag is set by the queue, not by a closer of this waker. */
  ghost predicate WakerOk(w: State) {
    T.Inv(w) && forall o :: 0 <= o < |w.threads| ==> !w.threads[o].CloseFlag?
  }

  lemma InitOk(threads: nat)
    ensures WakerOk(Init(threads))
  {
    T.InitInv(threads);
  }

  /** A step of a call stays in it. */
  lemma EntererStays(w: State, me: nat, ready: bool)
    requires me < |w.threads| && Entering(w.threads[me])
    ensures InWait(EnterStep(w, me, ready).threads[me])
  {
    hide Register;
  }

  lemma SleeperStays(w: State, me: nat, ready: bool)
    requires me < |w.threads| && Sleeping(w.threads[me])
    ensures InWait(SleepStep(w, me, ready).threads[me])
  {
    hide Unregister;
  }

  lemma NoterStays(w: State, me: nat)
    requires me < |w.threads| && Noting(w.threads[me]) && !NoteStep(w, me).threads[me].Undefined?
    ensures InNote(NoteStep(w, me).threads[me])
  {
    hide Reach;
  }

  lemma NoterKeepsFlag(w: State, me: nat)
    requires me < |w.threads|
    ensures NoteStep(w, me).queueClosed == w.queueClosed
  {
    hide Reach;
  }

  lemma StaysFollows(pc: Pc, pc': Pc)
    requires !AtRest(pc) && ((InWait(pc) && InWait(pc')) || (InNote(pc) && InNote(pc')))
    ensures Follows(pc, pc')
  {
  }

  lemma CloserFollows(w: State, me: nat)
    requires me < |w.threads| && Closing(w.threads[me]) && !w.threads[me].CloseFlag?
    ensures Follows(w.threads[me], CloseStep(w, me).threads[me]) && CloseStep(w, me).queueClosed == w.queueClosed
  {
  }

  lemma OwnFollows(w: State, a: Action)
    requires a.me < |w.threads| && !w.threads[a.me].CloseFlag? && (a.Step? || a.GiveUpRetry? || a.Spurious?)
    requires !Next(w, a).threads[a.me].Undefined?
    ensures Follows(w.threads[a.me], Next(w, a).threads[a.me])
    ensures Next(w, a).queueClosed == w.queueClosed
  {
    hide EnterStep, SleepStep, NoteStep, CloseStep;
    var pc := w.threads[a.me];
    if a.Step? {
      if Entering(pc) {
        EntererStays(w, a.me, a.ready);
        StaysFollows(pc, Next(w, a).threads[a.me]);
      } else if Sleeping(pc) {
        SleeperStays(w, a.me, a.ready);
        StaysFollows(pc, Next(w, a).threads[a.me]);
      } else if Noting(pc) {
        NoterStays(w, a.me);
        NoterKeepsFlag(w, a.me);
        StaysFollows(pc, Next(w, a).threads[a.me]);
      } else if Closing(pc) {
        CloserFollows(w, a.me);
      }
    }
  }

  /** A thread starts waiting or notifying. */
  lemma CallFollows(w: State, a: Action)
    requires a.me < |w.threads| && (a.StartWait? || a.StartWakeOne?)
    ensures Next(w, a).queueClosed == w.queueClosed
    ensures !w.threads[a.me].CloseFlag? ==> !Next(w, a).threads[a.me].CloseFlag?
    ensures AtRest(w.threads[a.me]) ==> Next(w, a).threads[a.me] == if a.StartWait? then RetryClosed else NoteEmpty
  {
    hide EnterStep, SleepStep, NoteStep, CloseStep;
  }

  lemma UntouchedFollows(w: State, w': State, me: nat, o: nat)
    requires o < |w.threads| == |w'.threads| && T.Untouched(w, w', me, o)
    ensures Follows(w.threads[o], w'.threads[o])
  {
  }

  predicate Starts(a: Action) {
    a.StartWait? || a.StartWakeOne?
  }

  /** A step of a waker that is neither the start of a close nor the flag. */
  lemma WakerMoves(w: State, a: Action)
    requires WakerOk(w) && (Starts(a) || a.Step? || a.GiveUpRetry? || a.Spurious?)
    ensures WakerOk(Next(w, a)) && Next(w, a).queueClosed == w.queueClosed
    ensures forall o :: 0 <= o < |w.threads| && (o != a.me || !Starts(a)) ==> Follows(w.threads[o], Next(w, a).threads[o])
    ensures a.me < |w.threads| && Starts(a) && AtRest(w.threads[a.me]) ==>
      Next(w, a).threads[a.me] == if a.StartWait? then RetryClosed else NoteEmpty
  {
    var w' := Next(w, a);
    T.StepKeepsInv(w, a);
    if a.me < |w.threads| {
      T.StepIsGood(w, a);
      assert T.ThreadOk(w', a.me);
      hide Next, T.Inv, T.Shared, Follows;
      forall o | 0 <= o < |w.threads| && o != a.me ensures Follows(w.threads[o], w'.threads[o]) {
        assert T.Untouched(w, w', a.me, o);
        UntouchedFollows(w, w', a.me, o);
      }
      hide T.ThreadOk;
      if Starts(a) {
        CallFollows(w, a);
      } else {
        OwnFollows(w, a);
      }
      FollowsOut(w, w', a.me);
    } else {
      assert w' == w;
      hide Next, T.Inv;
    }
  }

  lemma FollowsOut(w: State, w': State, me: nat)
    requires |w.threads| == |w'.threads| && me < |w.threads|
    requires !w'.threads[me].CloseFlag? || Follows(w.threads[me], w'.threads[me])
    requires forall o :: 0 <= o < |w.threads| ==> !w.threads[o].CloseFlag?
    requires forall o :: 0 <= o < |w.threads| && o != me ==> Follows(w.threads[o], w'.threads[o])
    ensures forall o :: 0 <= o < |w'.threads| ==> !w'.threads[o].CloseFlag?
  {
    forall o | 0 <= o < |w'.threads| ensures !w'.threads[o].CloseFlag? {
      assert o != me ==> Follows(w.threads[o], w'.threads[o]);
    }
  }

  /** A close enters a waker. */
  lemma EnterMoves(w: State, me: nat)
    requires WakerOk(w) && me < |w.threads| && AtRest(w.threads[me])
    ensures WakerOk(Enter(w, me)) && Enter(w, me).queueClosed && Enter(w, me).threads == w.threads[me := CloseLock]
    ensures Enter(w, me).closeReturned == w.closeReturned
  {
    T.StepKeepsInv(w, StartClose(me));
    var w1 := Next(w, StartClose(me));
    assert w1 == Goto(w, me, CloseFlag);
    T.StepKeepsInv(w1, Step(me, false));
    hide T.Inv;
    T.CloserSteps(w1, me, false);
    hide Next;
    assert w1.threads[me := CloseLock] == w.threads[me := CloseLock];
  }

  lemma RaiseMoves(w: State, me: nat)
    requires WakerOk(w) && me < |w.threads|
    ensures WakerOk(Next(w, RaiseFlag(me))) && Next(w, RaiseFlag(me)) == w.(queueClosed := true)
  {
    T.StepKeepsInv(w, RaiseFlag(me));
    hide T.Inv;
  }

  lemma CloseDoneMeans(w: State, me: nat)
    requires WakerOk(w) && me < |w.threads|
    ensures w.threads[me].CloseDone? ==> w.closeReturned
    ensures T.SawClosed(w.threads[me]) ==> w.queueClosed
  {
    assert T.ThreadOk(w, me);
  }

  /** Once a close of the waker has returned nobody parks on it. */
  lemma ClosedMeans(w: State, o: nat)
    requires WakerOk(w) && w.closeReturned && o < |w.threads|
    ensures !T.Parking(w.threads[o])
  {
    assert T.ThreadOk(w, o);
  }

  lemma WakerShrinks(w: State, a: Action, o: nat)
    requires w.queueClosed && o < |w.threads| && T.Parking(Next(w, a).threads[o])
    ensures T.Parking(w.threads[o])
  {
    T.ParkingOnlyShrinks(w, a, o);
  }
}
