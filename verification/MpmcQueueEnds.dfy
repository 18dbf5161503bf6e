/** Once the bit is set, a blocked call that is not asleep ends by its own steps. */
module MpmcQueueEnds {
  import opened Words
  import opened Options
  import opened MpmcQueue
  import opened MpmcQueueInvariant
  import opened MpmcQueueTheorems
  import M = MpmcRing
  import I = MpmcInvariant
  import S = MpmcSteps
  import R = MpmcTheorems
  import C = MpmcSelfClose
  import L = MpmcQueueLeft
  import W = Waker
  import T = WakerTheorems
  import U = WakerUse
  import opened WakerClosing

  // ---------------------------------------------------------------- the waker alone

  /** On its way out of a wait, with the lock free or its own. */
  ghost predicate LeavesWait(w: W.State, me: nat) {
    && U.WakerOk(w) && me < |w.threads| && U.InWait(w.threads[me]) && !T.Parking(w.threads[me])
    && w.queueClosed && (w.lock == None || w.lock == Some(me))
  }

  lemma EnterNears(w: W.State, me: nat, ready: bool)
    requires me < |w.threads| && W.Entering(w.threads[me]) && w.queueClosed && (w.lock == None || w.lock == Some(me))
    requires T.Holds(w.threads[me]) <==> w.lock == Some(me)
    ensures var w' := W.EnterStep(w, me, ready);
      WaitRank(w'.threads[me]) < WaitRank(w.threads[me]) && (w'.lock == None || w'.lock == Some(me))
  {
    hide W.Register;
  }

  lemma SleepNears(w: W.State, me: nat, ready: bool)
    requires me < |w.threads| && W.Sleeping(w.threads[me]) && !T.Parking(w.threads[me]) && w.queueClosed && (w.lock == None || w.lock == Some(me))
    requires T.Holds(w.threads[me]) <==> w.lock == Some(me)
    ensures var w' := W.SleepStep(w, me, ready);
      WaitRank(w'.threads[me]) < WaitRank(w.threads[me]) && (w'.lock == None || w'.lock == Some(me))
  {
    hide W.Unregister;
  }

  lemma WaitNears(w: W.State, me: nat, ready: bool)
    requires LeavesWait(w, me) && !w.threads[me].WaitDone?
    ensures var w' := W.Next(w, W.Step(me, ready));
      LeavesWait(w', me) && WaitRank(w'.threads[me]) < WaitRank(w.threads[me])
  {
    U.WakerMoves(w, W.Step(me, ready));
    assert T.ThreadOk(w, me);
    if T.Parking(W.Next(w, W.Step(me, ready)).threads[me]) {
      U.WakerShrinks(w, W.Step(me, ready), me);
    }
    hide U.WakerOk, W.EnterStep, W.SleepStep, W.NoteStep, W.CloseStep, T.Parking;
    if W.Entering(w.threads[me]) {
      EnterNears(w, me, ready);
    } else {
      StillSleeping(w.threads[me]);
      SleepNears(w, me, ready);
    }
  }

  lemma StillSleeping(pc: W.Pc)
    requires U.InWait(pc) && !W.Entering(pc) && !T.Parking(pc) && !pc.WaitDone?
    ensures W.Sleeping(pc) && !W.Noting(pc)
  {
  }

  // ---------------------------------------------------------------- the ring alone

  /** A receive from its load of the meta on, with nobody else moving: it looks once, and then claims or finds nothing. */
  lemma LookAlone<T>(r: M.Ring<T>, me: nat)
    requires I.Inv(r) && me < |r.threads| && r.threads[me].RLoad?
    ensures forall k :: 0 <= k <= 5 ==> |C.After(r, k, me).threads| == |r.threads|
    ensures C.After(r, 1, me).threads[me].RLap?
    ensures if C.After(r, 2, me).threads[me].RCas?
      then C.After(r, 3, me).threads[me].RRead? && C.After(r, 4, me).threads[me].RRelease? && C.After(r, 5, me).threads[me].RDone?
      else C.After(r, 2, me).threads[me].RRelap? && C.After(r, 3, me).threads[me] == M.NothingToRead(r.threads[me].blocking, r.threads[me].sawClosed)
  {
    forall k | 0 <= k <= 5 ensures |C.After(r, k, me).threads| == |r.threads| {
      SizeAfter(r, k, me);
    }
    hide M.Next, I.Inv;
    var a := M.Action<T>.Advance(me);
    C.AfterNext(r, 1, me);
    C.AfterNext(r, 2, me);
    C.AfterNext(r, 3, me);
    assert C.After(r, 0, me) == r;
    var r1 := M.Next(r, a);
    S.StepKeepsInv(r, a);
    LoadsNow(r, me);
    LapNow(r1, me);
    var r2 := M.Next(r1, a);
    S.StepKeepsInv(r1, a);
    if r2.threads[me].RCas? {
      C.AfterNext(r, 4, me);
      C.AfterNext(r, 5, me);
      TakesAll(r2, me);
    } else {
      RelapNow(r1, me);
    }
  }

  lemma {:induction false} SizeAfter<T>(r: M.Ring<T>, n: nat, me: nat)
    requires I.Inv(r)
    ensures |C.After(r, n, me).threads| == |r.threads| && I.Inv(C.After(r, n, me))
  {
    hide M.Next, I.Inv;
    if n > 0 {
      SizeAfter(r, n - 1, me);
      C.AfterNext(r, n, me);
      RingFacts(C.After(r, n - 1, me), M.Advance(me));
    }
  }

  /** The place right after the meta was loaded. */
  ghost predicate LapPlace<T>(r: M.Ring<T>, me: nat) {
    me < |r.threads| && r.threads[me].RLap? && r.threads[me].snap == M.Snapshot(r.readMeta, |r.taken|)
  }

  lemma LoadsNow<T>(r: M.Ring<T>, me: nat)
    requires me < |r.threads| && r.threads[me].RLoad?
    ensures LapPlace(M.Next(r, M.Advance(me)), me)
    ensures var pc := M.Next(r, M.Advance(me)).threads[me]; pc.blocking == r.threads[me].blocking && pc.sawClosed == r.threads[me].sawClosed
  {
  }

  lemma LapNow<T>(r: M.Ring<T>, me: nat)
    requires I.Inv(r) && LapPlace(r, me)
    ensures var pc, pc' := r.threads[me], M.Next(r, M.Advance(me)).threads[me];
      pc' == M.RCas(pc.blocking, pc.sawClosed, pc.snap) || pc' == M.RRelap(pc.blocking, pc.sawClosed, pc.snap)
    ensures M.Next(r, M.Advance(me)) == M.Goto(r, me, M.Next(r, M.Advance(me)).threads[me])
    ensures M.Next(r, M.Advance(me)).threads[me].RRelap? ==>
      IdxOf(r.threads[me].snap.meta) < |r.slots| && LapOf(r.threads[me].snap.meta) > r.slots[IdxOf(r.threads[me].snap.meta)].lap
  {
    R.LessOnlyWhenStale(r, me);
    R.LapStep(r, me);
    hide I.Inv, M.Next;
  }

  lemma RelapNow<T>(r: M.Ring<T>, me: nat)
    requires I.Inv(r) && LapPlace(r, me) && M.Next(r, M.Advance(me)).threads[me].RRelap?
    ensures M.Next(M.Next(r, M.Advance(me)), M.Advance(me)).threads[me] == M.NothingToRead(r.threads[me].blocking, r.threads[me].sawClosed)
  {
    LapNow(r, me);
    R.LapStep(M.Next(r, M.Advance(me)), me);
    hide I.Inv, M.Next;
  }

  lemma TakesAll<T>(r: M.Ring<T>, me: nat)
    requires I.Inv(r) && me < |r.threads| && r.threads[me].RCas? && r.threads[me].snap.meta == r.readMeta
    ensures var a := M.Advance(me);
      var r1, r2 := M.Next(r, a), M.Next(M.Next(r, a), a);
      && |r1.threads| == |r2.threads| == |M.Next(r2, a).threads| == |r.threads|
      && r1.threads[me].RRead? && r2.threads[me].RRelease? && M.Next(r2, a).threads[me].RDone?
      && M.Next(r2, a).threads[me] == M.RDone(M.Received(|r.taken|, r2.threads[me].msg))
  {
    var a := M.Advance(me);
    R.RecvCasStep(r, me);
    var r1 := M.Next(r, a);
    S.StepKeepsInv(r, a);
    S.RecvWindowFacts(r1, me);
    ReadsNow(r1, me);
    var r2 := M.Next(r1, a);
    S.StepKeepsInv(r1, a);
    RingEnds(r2, me);
    R.StepEffect(r2, a);
    S.WindowIdx(r2, me);
    ReleasesNow(r2, me);
    hide I.Inv, M.Next;
  }

  lemma ReleasesNow<T>(r: M.Ring<T>, me: nat)
    requires me < |r.threads| && r.threads[me].RRelease? && r.threads[me].claim.idx < |r.slots|
    ensures var pc := r.threads[me]; M.Next(r, M.Advance(me)).threads[me] == M.RDone(M.Received(pc.claim.ticket, pc.msg))
  {
  }

  lemma ReadsNow<T>(r: M.Ring<T>, me: nat)
    requires me < |r.threads| && r.threads[me].RRead? && r.threads[me].claim.idx < |r.slots| && r.threads[me].claim.ticket < |r.taken|
    requires r.slots[r.threads[me].claim.idx].msg.Some?
    ensures |M.Next(r, M.Advance(me)).threads| == |r.threads| && M.Next(r, M.Advance(me)).threads[me].RRelease?
    ensures M.Next(r, M.Advance(me)).threads[me].claim == r.threads[me].claim
  {
  }

  // ---------------------------------------------------------------- the queue

  /** The call of thread me has its answer. */
  ghost predicate CallOver<T>(q: Queue<T>, me: nat) {
    Has(q, me) && (q.ring.threads[me].RDone? || q.ring.threads[me].SDone?)
  }

  /** The call of thread me ends by that thread's own steps. */
  ghost predicate Ends<T>(q: Queue<T>, me: nat) {
    exists n: nat :: CallOver(Exec(q, Steps(me, n)), me)
  }

  lemma EndsAfter<T>(q: Queue<T>, me: nat, k: nat)
    requires Ends(Exec(q, Steps(me, k)), me)
    ensures Ends(q, me)
  {
    var n: nat :| CallOver(Exec(Exec(q, Steps(me, k)), Steps(me, n)), me);
    hide Next, CallOver;
    ExecAppend(q, Steps(me, k), Steps(me, n));
    assert Steps<T>(me, k) + Steps(me, n) == Steps(me, k + n);
    assert CallOver(Exec(q, Steps(me, k + n)), me);
  }

  lemma StepsOne<T>(q: Queue<T>, me: nat)
    ensures Exec(q, Steps(me, 0)) == q && Exec(q, Steps(me, 1)) == Next(q, Step(me))
  {
    hide Next;
    assert Steps<T>(me, 0) == [] && Steps<T>(me, 1) == [] + [Step(me)];
    ExecSnoc(q, [], Step(me));
  }

  lemma IsOver<T>(q: Queue<T>, me: nat)
    requires CallOver(q, me)
    ensures Ends(q, me)
  {
    StepsOne(q, me);
    hide CallOver, Next;
    assert CallOver(Exec(q, Steps(me, 0)), me);
  }

  /** A blocked call of thread me, closed and not parked, its waker's lock free or its own. */
  ghost predicate LeavesReaders<T>(q: Queue<T>, me: nat) {
    Inv(q) && me < |q.phases| && q.phases[me].WaitsReader? && M.IsClosed(q.ring) && LeavesWait(q.readers, me)
  }

  lemma WaitingStep<T>(q: Queue<T>, me: nat)
    requires LeavesReaders(q, me) && !q.readers.threads[me].WaitDone?
    ensures LeavesReaders(Next(q, Step(me)), me)
    ensures WaitRank(Next(q, Step(me)).readers.threads[me]) < WaitRank(q.readers.threads[me])
  {
    assert Sizes(q);
    WaitNears(q.readers, me, Ready(q, me));
    StepKeepsInv(q, Step(me));
    hide W.Next, M.Next, Inv, LeavesWait, M.IsClosed, U.Enter;
    assert Next(q, Step(me)) == q.(readers := W.Next(q.readers, W.Step(me, Ready(q, me))));
    assert me < |W.Next(q.readers, W.Step(me, Ready(q, me))).threads|;
  }

  /** The end of the wait: back to the ring, which knows whether the wait saw the bit. */
  lemma WaitOver<T>(q: Queue<T>, me: nat)
    requires LeavesReaders(q, me) && q.readers.threads[me].WaitDone?
    ensures var q', sawClosed := Next(q, Step(me)), q.readers.threads[me].out.Closed?;
      && Inv(q') && |q'.phases| == |q.phases| && q'.phases[me].InRing? && M.IsClosed(q'.ring) && me < |q'.ring.threads|
      && q'.ring.threads[me] == M.RLoad(true, sawClosed) && q'.readers == q.readers
  {
    assert Sizes(q) && PlaceOk(q, me);
    OnwardKeepsBit(q.ring, me, q.readers.threads[me].out);
    StepKeepsInv(q, Step(me));
    RingFacts(q.ring, Onward(me, q.readers.threads[me].out));
    hide W.Next, M.Next, Inv, LeavesWait, M.IsClosed, U.Enter, I.Inv;
  }

  /** A blocking receive with the bit set, from the ring: it claims, or finds nothing, and then gives up or waits. */
  lemma RecvInRing<T>(q: Queue<T>, me: nat)
    requires Inv(q) && me < |q.phases| && q.phases[me].InRing? && me < |q.ring.threads|
    requires q.ring.threads[me].RLoad? && q.ring.threads[me].blocking && M.IsClosed(q.ring)
    ensures Ends(q, me) || (!q.ring.threads[me].sawClosed && Found(q, Exec(q, Steps(me, 3)), me))
  {
    assert I.Inv(q.ring);
    LookAlone(q.ring, me);
    hide M.Next, Inv, I.Inv, M.IsClosed, Next, C.After;
    if C.After(q.ring, 2, me).threads[me].RCas? {
      PlainPlaces(q.ring, me, 4);
      PlainSteps(q, me, 4);
      LastStep(q, me);
    } else {
      PlainPlaces(q.ring, me, 3);
      PlainSteps(q, me, 3);
      ThreePlain(q, me);
    }
  }

  /** After three steps in the ring it waits, and nothing else has changed. */
  ghost predicate Found<T>(q: Queue<T>, q3: Queue<T>, me: nat) {
    && Inv(q3) && OnlyFlagged(q, q3) && me < |q3.phases| && me < |q3.ring.threads| && q3.ring.threads[me].RWait?
  }

  lemma ThreePlain<T>(q: Queue<T>, me: nat)
    requires Inv(q) && me < |q.phases| && me < |q.ring.threads| && q.ring.threads[me].RLoad? && q.ring.threads[me].blocking
    requires var q3 := Exec(q, Steps(me, 3)); Inv(q3) && OnlyFlagged(q, q3) && q3.ring == C.After(q.ring, 3, me)
    requires me < |C.After(q.ring, 3, me).threads| && C.After(q.ring, 3, me).threads[me] == M.NothingToRead(true, q.ring.threads[me].sawClosed)
    ensures Ends(q, me) || (!q.ring.threads[me].sawClosed && Found(q, Exec(q, Steps(me, 3)), me))
  {
    var q3 := Exec(q, Steps(me, 3));
    assert Sizes(q3);
    if q.ring.threads[me].sawClosed {
      assert CallOver(q3, me);
    }
  }

  lemma PlainPlaces<T>(r: M.Ring<T>, me: nat, n: nat)
    requires me < |r.threads| && r.threads[me].RLoad? && (n == 3 || n == 4)
    requires forall k :: 0 <= k <= 5 ==> |C.After(r, k, me).threads| == |r.threads|
    requires C.After(r, 1, me).threads[me].RLap?
    requires if n == 4 then C.After(r, 2, me).threads[me].RCas? && C.After(r, 3, me).threads[me].RRead? else C.After(r, 2, me).threads[me].RRelap?
    ensures forall k :: 0 <= k < n ==> me < |C.After(r, k, me).threads| && Plain(C.After(r, k, me).threads[me])
  {
    assert C.After(r, 0, me) == r;
    hide M.Next, C.After;
    forall k | 0 <= k < n ensures me < |C.After(r, k, me).threads| && Plain(C.After(r, k, me).threads[me]) {
      assert k == 0 || k == 1 || k == 2 || k == 3;
    }
  }

  /** The release ends the receive. */
  lemma LastStep<T>(q: Queue<T>, me: nat)
    requires Inv(q) && me < |q.phases|
    requires var q4 := Exec(q, Steps(me, 4)); Inv(q4) && OnlyFlagged(q, q4) && q4.phases[me].InRing? && q4.ring == C.After(q.ring, 4, me)
    requires me < |C.After(q.ring, 4, me).threads| && C.After(q.ring, 4, me).threads[me].RRelease?
    ensures Ends(q, me)
  {
    var q4 := Exec(q, Steps(me, 4));
    assert Sizes(q4) && I.Inv(q4.ring);
    StepKeepsInv(q4, Step(me));
    RingEnds(q4.ring, me);
    RingFacts(q4.ring, M.Advance(me));
    RingTakes(q4, Step(me));
    assert RingActions(q4, Step(me)) == [M.Advance(me)];
    ExecOne(q4.ring, M.Advance(me));
    Histories(q4, Step(me));
    hide Next, M.Next, Inv, I.Inv, C.After, RingActions;
    assert Sizes(Next(q4, Step(me)));
    assert Steps<T>(me, 5) == Steps(me, 4) + [Step(me)];
    ExecSnoc(q, Steps(me, 4), Step(me));
    assert CallOver(Exec(q, Steps(me, 5)), me);
  }

  lemma ExecOne<T>(r: M.Ring<T>, a: M.Action<T>)
    ensures M.Exec(r, [a]) == M.Next(r, a)
  {
    hide M.Next;
    assert [a][..0] == [] && M.Exec(r, [a]) == M.Next(M.Exec(r, []), a);
  }

  /** A receive that goes back to wait finds the bit at once. */
  lemma WaitsAgain<T>(q: Queue<T>, me: nat)
    requires Inv(q) && me < |q.phases| && q.phases[me].InRing? && me < |q.ring.threads| && q.ring.threads[me].RWait? && M.IsClosed(q.ring)
    requires q.readers.lock == None || q.readers.lock == Some(me)
    ensures var q' := Exec(q, Steps(me, 2)); LeavesReaders(q', me) && q'.readers.threads[me] == W.WaitDone(W.Closed)
  {
    assert Sizes(q) && PlaceOk(q, me) && Flags(q);
    StepKeepsInv(q, Step(me));
    var q1 := Next(q, Step(me));
    StepKeepsInv(q1, Step(me));
    var q2 := Next(q1, Step(me));
    SeesAtOnce(q.readers, me, false);
    WaitBegins(q, me);
    SeesAtOnce(q.readers, me, Ready(q1, me));
    WaitGoesOn(q1, me);
    StepsTwo(q, me);
    assert U.WakerOk(q2.readers);
    hide W.Next, M.Next, Inv, I.Inv, U.WakerOk, M.IsClosed, Next, T.Parking, U.InWait;
    DoneIsOut(q2.readers, me);
  }

  lemma DoneIsOut(w: W.State, me: nat)
    requires U.WakerOk(w) && me < |w.threads| && w.threads[me].WaitDone? && w.queueClosed && (w.lock == None || w.lock == Some(me))
    ensures LeavesWait(w, me)
  {
    hide U.WakerOk;
  }

  lemma StepsTwo<T>(q: Queue<T>, me: nat)
    ensures Exec(q, Steps(me, 2)) == Next(Next(q, Step(me)), Step(me))
  {
    hide Next;
    StepsOne(q, me);
    assert Steps<T>(me, 2) == Steps(me, 1) + [Step(me)];
    ExecSnoc(q, Steps(me, 1), Step(me));
  }

  lemma SeesAtOnce(w: W.State, me: nat, ready: bool)
    requires me < |w.threads| && W.AtRest(w.threads[me]) && w.queueClosed
    ensures var w1 := W.Next(w, W.StartWait(me));
      && |w1.threads| == |w.threads| && w1.threads[me] == W.RetryClosed && w1.lock == w.lock && w1.queueClosed
      && var w2 := W.Next(w1, W.Step(me, ready)); me < |w2.threads| && w2.threads[me] == W.WaitDone(W.Closed) && w2.lock == w.lock && w2.queueClosed
  {
    hide W.SleepStep, W.NoteStep, W.CloseStep;
  }

  lemma WaitBegins<T>(q: Queue<T>, me: nat)
    requires Has(q, me) && q.phases[me].InRing? && q.ring.threads[me].RWait?
    requires |W.Next(q.readers, W.StartWait(me)).threads| == |q.readers.threads|
    ensures Next(q, Step(me)) == Move(q, me, WaitsReader).(readers := W.Next(q.readers, W.StartWait(me))) && Has(Next(q, Step(me)), me)
  {
    hide M.Next, InnerStep, U.Enter, W.Next;
  }

  lemma WaitGoesOn<T>(q: Queue<T>, me: nat)
    requires Has(q, me) && q.phases[me].WaitsReader? && !q.readers.threads[me].WaitDone?
    ensures Next(q, Step(me)) == q.(readers := W.Next(q.readers, W.Step(me, Ready(q, me))))
  {
    hide M.Next, InnerStep, U.Enter, W.Next;
  }

  /** With the bit seen, a receive in the ring ends. */
  lemma ClosedRecvEnds<T>(q: Queue<T>, me: nat)
    requires LeavesReaders(q, me) && q.readers.threads[me] == W.WaitDone(W.Closed)
    ensures Ends(q, me)
  {
    WaitOver(q, me);
    hide Next, Inv, LeavesReaders, Ends, Found;
    var q1 := Next(q, Step(me));
    RecvInRing(q1, me);
    StepsOne(q, me);
    EndsAfter(q, me, 1);
  }

  /** A wait that is over without having seen it goes round once more at most. */
  lemma OpenRecvEnds<T>(q: Queue<T>, me: nat)
    requires LeavesReaders(q, me) && q.readers.threads[me].WaitDone?
    ensures Ends(q, me)
  {
    WaitOver(q, me);
    assert q.readers.lock == None || q.readers.lock == Some(me);
    StepsOne(q, me);
    hide Next, Inv, LeavesReaders, Ends, M.IsClosed;
    var q1 := Next(q, Step(me));
    RecvInRing(q1, me);
    if !Ends(q1, me) {
      var q3 := Exec(q1, Steps(me, 3));
      ClosedStays(q1, Steps(me, 3));
      WaitsAgain(q3, me);
      ClosedRecvEnds(Exec(q3, Steps(me, 2)), me);
      EndsAfter(q3, me, 2);
      EndsAfter(q1, me, 3);
    }
    EndsAfter(q, me, 1);
  }

  lemma {:induction false} ClosedStays<T>(q: Queue<T>, more: seq<Action<T>>)
    requires Inv(q) && M.IsClosed(q.ring)
    ensures Inv(Exec(q, more)) && M.IsClosed(Exec(q, more).ring)
  {
    if more != [] {
      var before, a := Exec(q, more[..|more| - 1]), more[|more| - 1];
      ClosedStays(q, more[..|more| - 1]);
      StepKeepsInv(before, a);
      L.RingMove(before, a);
      assert I.Inv(before.ring);
      hide Next, Inv, I.Inv, M.Next, M.IsClosed, RingActions;
      if Next(before, a).ring != before.ring {
        RingFacts(before.ring, RingActions(before, a)[0]);
      }
    }
  }

  /**
   A blocked `recv` with the bit set, not parked, ends by its own steps once its waker's lock is free: with a
   message, or with the error.
   */
  lemma {:induction false} BlockedRecvEnds<T>(q: Queue<T>, me: nat)
    requires LeavesReaders(q, me)
    ensures Ends(q, me)
    decreases WaitRank(q.readers.threads[me])
  {
    if q.readers.threads[me].WaitDone? {
      OpenRecvEnds(q, me);
    } else {
      WaitingStep(q, me);
      StepsOne(q, me);
      hide Next, LeavesReaders, Ends;
      BlockedRecvEnds(Next(q, Step(me)), me);
      EndsAfter(q, me, 1);
    }
  }

  // The send side: it is over as soon as it is back in the ring.

  ghost predicate LeavesWriters<T>(q: Queue<T>, me: nat) {
    Inv(q) && me < |q.phases| && q.phases[me].WaitsWriter? && M.IsClosed(q.ring) && LeavesWait(q.writers, me)
  }

  lemma SendWaitingStep<T>(q: Queue<T>, me: nat)
    requires LeavesWriters(q, me) && !q.writers.threads[me].WaitDone?
    ensures LeavesWriters(Next(q, Step(me)), me)
    ensures WaitRank(Next(q, Step(me)).writers.threads[me]) < WaitRank(q.writers.threads[me])
  {
    assert Sizes(q);
    WaitNears(q.writers, me, Ready(q, me));
    StepKeepsInv(q, Step(me));
    hide W.Next, M.Next, Inv, LeavesWait, M.IsClosed, U.Enter;
    assert Next(q, Step(me)) == q.(writers := W.Next(q.writers, W.Step(me, Ready(q, me))));
    assert me < |W.Next(q.writers, W.Step(me, Ready(q, me))).threads|;
  }

  lemma SendWaitOver<T>(q: Queue<T>, me: nat)
    requires LeavesWriters(q, me) && q.writers.threads[me].WaitDone?
    ensures var q', out := Next(q, Step(me)), q.writers.threads[me].out;
      && Inv(q') && |q'.phases| == |q.phases| && q'.phases[me].InRing? && M.IsClosed(q'.ring) && me < |q'.ring.threads|
      && (if out.Closed? then q'.ring.threads[me].SDone? else q'.ring.threads[me].SLoad?)
  {
    assert Sizes(q) && PlaceOk(q, me);
    OnwardKeepsBit(q.ring, me, q.writers.threads[me].out);
    StepKeepsInv(q, Step(me));
    RingFacts(q.ring, Onward(me, q.writers.threads[me].out));
    hide W.Next, M.Next, Inv, LeavesWait, M.IsClosed, U.Enter, I.Inv;
  }

  lemma SendOverEnds<T>(q: Queue<T>, me: nat)
    requires LeavesWriters(q, me) && q.writers.threads[me].WaitDone?
    ensures Ends(q, me)
  {
    SendWaitOver(q, me);
    var q1 := Next(q, Step(me));
    assert Sizes(q1) && I.Inv(q1.ring);
    StepsOne(q, me);
    if q1.ring.threads[me].SDone? {
      IsOver(q1, me);
    } else {
      R.DisconnectedExact(q1.ring, me, q1.ring.threads[me].msg);
      PlainStep(q1, me);
      StepsOne(q1, me);
      assert Sizes(Next(q1, Step(me)));
      hide Next, M.Next, Inv, I.Inv, M.IsClosed;
      IsOver(Next(q1, Step(me)), me);
      EndsAfter(q1, me, 1);
    }
    hide Next;
    EndsAfter(q, me, 1);
  }

  /** So does a blocked `send`. */
  lemma {:induction false} BlockedSendEnds<T>(q: Queue<T>, me: nat)
    requires LeavesWriters(q, me)
    ensures Ends(q, me)
    decreases WaitRank(q.writers.threads[me])
  {
    if q.writers.threads[me].WaitDone? {
      SendOverEnds(q, me);
    } else {
      SendWaitingStep(q, me);
      StepsOne(q, me);
      hide Next, LeavesWriters, Ends;
      BlockedSendEnds(Next(q, Step(me)), me);
      EndsAfter(q, me, 1);
    }
  }

  /** Nobody else holds the lock of the waker that thread me waits on. */
  predicate LockFree<T>(q: Queue<T>, me: nat)
    requires me < |q.phases|
  {
    var lock := if q.phases[me].WaitsWriter? then q.writers.lock else q.readers.lock;
    lock == None || lock == Some(me)
  }

  /**
   After a close that was not turned back, in every later state of any run, a call that is blocked ends by its own
   steps, given its waker's lock: no notification and no further close is needed.
   */
  lemma {:induction false} AllBlockedEnd<T>(cap: U32, threads: nat, run: seq<Action<T>>, more: seq<Action<T>>, me: nat)
    requires cap <= MAX_CAPACITY && Exec(Init<T>(cap, threads), run).through && me < threads
    requires var q := Exec(Exec(Init<T>(cap, threads), run), more);
      me < |q.phases| && (q.phases[me].WaitsWriter? || q.phases[me].WaitsReader?) && LockFree(q, me)
    ensures Ends(Exec(Exec(Init<T>(cap, threads), run), more), me)
  {
    var q := Exec(Exec(Init<T>(cap, threads), run), more);
    NobodyParkedAfterClose(cap, threads, run, more, me);
    ThroughStays(Exec(Init<T>(cap, threads), run), more);
    ExecAppend(Init<T>(cap, threads), run, more);
    RunKeepsInv(cap, threads, run + more);
    BlockedLeaves(q, me);
    hide Exec, Inv, LeavesReaders, LeavesWriters, Ends;
    if q.phases[me].WaitsWriter? {
      BlockedSendEnds(q, me);
    } else {
      BlockedRecvEnds(q, me);
    }
  }

  lemma BlockedLeaves<T>(q: Queue<T>, me: nat)
    requires Inv(q) && q.through && me < |q.phases| && !Parked(q, me) && LockFree(q, me)
    ensures q.phases[me].WaitsWriter? ==> LeavesWriters(q, me)
    ensures q.phases[me].WaitsReader? ==> LeavesReaders(q, me)
  {
    assert Sizes(q) && PlaceOk(q, me);
    ReturnedClosed(q);
    hide T.Parking, U.InWait, U.WakerOk, M.IsClosed, I.Inv;
  }

  lemma ReturnedClosed<T>(q: Queue<T>)
    requires Inv(q) && q.through
    ensures M.IsClosed(q.ring)
  {
  }
}
