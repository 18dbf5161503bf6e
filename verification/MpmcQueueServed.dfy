/** What a waiting call of an open queue gets by its own steps once it has been woken, or has not yet fallen asleep. */
module MpmcQueueServed {
  import opened Words
  import opened Options
  import opened Tickets
  import opened MpmcQueue
  import opened MpmcQueueInvariant
  import opened MpmcQueueTheorems
  import opened MpmcQueueWatch
  import opened MpmcQueueWakes
  import E = MpmcQueueEnds
  import C = MpmcSelfClose
  import M = MpmcRing
  import I = MpmcInvariant
  import S = MpmcSteps
  import R = MpmcTheorems
  import W = Waker
  import T = WakerTheorems
  import U = WakerUse

  // ---------------------------------------------------------------- the ring alone: a receive

  /** A thread outside the windows moves, and what there is to take or fill stays. */
  lemma ThereStays<T>(r: M.Ring<T>, me: nat, pc: M.Pc<T>)
    requires I.Shape(r) && me < |r.threads| && !I.InWindow(r.threads[me]) && !I.InWindow(pc)
    ensures HeadThere(r) <==> HeadThere(M.Goto(r, me, pc))
    ensures TailFree(r) <==> TailFree(M.Goto(r, me, pc))
  {
  }

  /** A receive that looks now claims the next message. */
  lemma HeadClaims<T>(r: M.Ring<T>, me: nat)
    requires I.Inv(r) && E.LapPlace(r, me) && HeadThere(r)
    ensures M.Next(r, M.Advance(me)).threads == r.threads[me := M.RCas(r.threads[me].blocking, r.threads[me].sawClosed, r.threads[me].snap)]
    ensures M.Next(r, M.Advance(me)) == M.Goto(r, me, M.Next(r, M.Advance(me)).threads[me])
  {
    var r' := M.Next(r, M.Advance(me));
    E.LapNow(r, me);
    if r'.threads[me].RRelap? {
      S.StepKeepsInv(r, M.Advance(me));
      ThereStays(r, me, r'.threads[me]);
      E.RelapNow(r, me);
      R.EmptyExact(r', me);
      hide I.Inv, M.Next, R.Unpublished;
      assert false;
    }
  }

  lemma LoadIs<T>(r: M.Ring<T>, me: nat)
    requires me < |r.threads| && r.threads[me].RLoad?
    ensures M.Next(r, M.Advance(me)) == M.Goto(r, me, M.RecvTop(r, r.threads[me].blocking, r.threads[me].sawClosed))
  {
  }

  /** What a delivered receive has. */
  lemma DeliveredIs<T>(r: M.Ring<T>, me: nat, t: nat, msg: T)
    requires I.Inv(r) && me < |r.threads| && r.threads[me] == M.RDone(M.Received(t, msg))
    ensures t < |r.sent| && msg == r.sent[t]
  {
    assert I.ThreadOk(r, me, r.threads[me]);
    assert I.TakenOk(r, t);
  }

  lemma SentKept<T>(r: M.Ring<T>, me: nat)
    requires me < |r.threads| && (r.threads[me].RLoad? || r.threads[me].RLap? || r.threads[me].RCas? || r.threads[me].RRead? || r.threads[me].RRelease?)
    ensures M.Next(r, M.Advance(me)).sent == r.sent
  {
  }

  /** The five accesses of a receive that finds the next message there. */
  lemma TakesHead<T>(r: M.Ring<T>, me: nat)
    requires I.Inv(r) && me < |r.threads| && r.threads[me].RLoad? && HeadThere(r)
    ensures forall k :: 0 <= k <= 5 ==> |C.After(r, k, me).threads| == |r.threads|
    ensures C.After(r, 1, me).threads[me].RLap? && C.After(r, 2, me).threads[me].RCas? && C.After(r, 3, me).threads[me].RRead?
    ensures C.After(r, 4, me).threads[me].RRelease?
    ensures C.After(r, 5, me).threads[me] == M.RDone(M.Received(|r.taken|, r.sent[|r.taken|])) && C.After(r, 5, me).sent == r.sent
  {
    forall k | 0 <= k <= 5 ensures |C.After(r, k, me).threads| == |r.threads| && I.Inv(C.After(r, k, me)) {
      E.SizeAfter(r, k, me);
    }
    hide M.Next, I.Inv, HeadThere, R.Unpublished;
    var a := M.Action<T>.Advance(me);
    AfterFive(r, me);
    var r1 := C.After(r, 1, me);
    LoadIs(r, me);
    ThereStays(r, me, r1.threads[me]);
    HeadClaims(r1, me);
    var r2 := C.After(r, 2, me);
    E.TakesAll(r2, me);
    SentKept(r, me);
    SentKept(r1, me);
    SentKept(r2, me);
    SentKept(C.After(r, 3, me), me);
    SentKept(C.After(r, 4, me), me);
    DeliveredIs(C.After(r, 5, me), me, |r2.taken|, C.After(r, 4, me).threads[me].msg);
  }

  lemma AfterFive<T>(r: M.Ring<T>, me: nat)
    ensures C.After(r, 0, me) == r
    ensures C.After(r, 1, me) == M.Next(r, M.Advance(me))
    ensures forall k :: 0 <= k < 5 ==> C.After(r, k + 1, me) == M.Next(C.After(r, k, me), M.Advance(me))
  {
    hide M.Next;
    forall k | 0 <= k < 5 ensures C.After(r, k + 1, me) == M.Next(C.After(r, k, me), M.Advance(me)) {
      C.AfterNext(r, k + 1, me);
    }
    C.AfterNext(r, 1, me);
  }

  // ---------------------------------------------------------------- the ring alone: a send

  ghost predicate SendLapPlace<T>(r: M.Ring<T>, me: nat) {
    me < |r.threads| && r.threads[me].SLap? && r.threads[me].snap == M.Snapshot(r.writeMeta, |r.sent|)
  }

  lemma SendLoadIs<T>(r: M.Ring<T>, me: nat)
    requires me < |r.threads| && r.threads[me].SLoad?
    ensures M.Next(r, M.Advance(me)) == M.Goto(r, me, M.SendTop(r, r.threads[me].msg, r.threads[me].blocking))
  {
  }

  lemma SendLapNow<T>(r: M.Ring<T>, me: nat)
    requires I.Inv(r) && SendLapPlace(r, me)
    ensures
      var pc, r' := r.threads[me], M.Next(r, M.Advance(me));
      && me < |r'.threads| && r' == M.Goto(r, me, r'.threads[me])
      && (r'.threads[me] == M.SCas(pc.msg, pc.blocking, pc.snap) || r'.threads[me] == M.SRelap(pc.msg, pc.blocking, pc.snap))
      && (r'.threads[me].SRelap? ==> IdxOf(pc.snap.meta) < |r.slots| && LapOf(pc.snap.meta) > r.slots[IdxOf(pc.snap.meta)].lap)
  {
    R.LessOnlyWhenStale(r, me);
    R.LapStep(r, me);
    hide I.Inv, M.Next;
  }

  lemma SendRelapNow<T>(r: M.Ring<T>, me: nat)
    requires I.Inv(r) && SendLapPlace(r, me) && M.Next(r, M.Advance(me)).threads[me].SRelap?
    ensures M.Next(M.Next(r, M.Advance(me)), M.Advance(me)).threads[me] == M.NoRoom(r.threads[me].msg, r.threads[me].blocking)
  {
    SendLapNow(r, me);
    R.LapStep(M.Next(r, M.Advance(me)), me);
    hide I.Inv, M.Next;
  }

  /** A send that looks now claims the next slot. */
  lemma TailClaims<T>(r: M.Ring<T>, me: nat)
    requires I.Inv(r) && SendLapPlace(r, me) && TailFree(r)
    ensures M.Next(r, M.Advance(me)) == M.Goto(r, me, M.SCas(r.threads[me].msg, r.threads[me].blocking, r.threads[me].snap))
  {
    var r' := M.Next(r, M.Advance(me));
    SendLapNow(r, me);
    if r'.threads[me].SRelap? {
      S.StepKeepsInv(r, M.Advance(me));
      ThereStays(r, me, r'.threads[me]);
      SendRelapNow(r, me);
      R.FullExact(r', me);
      hide I.Inv, M.Next, R.Unreleased;
      assert false;
    }
  }

  /** The claim, the message and the lap. */
  lemma PutsAll<T>(r: M.Ring<T>, me: nat)
    requires I.Inv(r) && me < |r.threads| && r.threads[me].SCas? && r.threads[me].snap.meta == r.writeMeta
    ensures
      var a, msg := M.Action<T>.Advance(me), r.threads[me].msg;
      var r1, r2 := M.Next(r, a), M.Next(M.Next(r, a), a);
      && |r1.threads| == |r2.threads| == |M.Next(r2, a).threads| == |r.threads|
      && r1.threads[me].SWrite? && r2.threads[me].SPublish? && M.Next(r2, a).threads[me] == M.SDone(M.Sent(|r.sent|))
      && M.Next(r2, a).sent == r.sent + [msg]
  {
    var a := M.Action<T>.Advance(me);
    R.SendCasStep(r, me);
    var r1 := M.Next(r, a);
    S.StepKeepsInv(r, a);
    S.WindowIdx(r1, me);
    WritesNow(r1, me);
    var r2 := M.Next(r1, a);
    S.StepKeepsInv(r1, a);
    S.WindowIdx(r2, me);
    PublishesNow(r2, me);
    hide I.Inv, M.Next;
  }

  lemma WritesNow<T>(r: M.Ring<T>, me: nat)
    requires me < |r.threads| && r.threads[me].SWrite? && r.threads[me].claim.idx < |r.slots|
    ensures var r' := M.Next(r, M.Advance(me)); |r'.threads| == |r.threads| && r'.threads[me] == M.SPublish(r.threads[me].claim) && r'.sent == r.sent
  {
  }

  lemma PublishesNow<T>(r: M.Ring<T>, me: nat)
    requires me < |r.threads| && r.threads[me].SPublish? && r.threads[me].claim.idx < |r.slots|
    ensures var r' := M.Next(r, M.Advance(me));
      |r'.threads| == |r.threads| && r'.threads[me] == M.SDone(M.Sent(r.threads[me].claim.ticket)) && r'.sent == r.sent
  {
  }

  /** The five accesses of a send that finds the next slot there. */
  lemma FillsTail<T>(r: M.Ring<T>, me: nat)
    requires I.Inv(r) && me < |r.threads| && r.threads[me].SLoad? && TailFree(r) && !M.IsClosed(r)
    ensures forall k :: 0 <= k <= 5 ==> |C.After(r, k, me).threads| == |r.threads|
    ensures C.After(r, 1, me).threads[me].SLap? && C.After(r, 2, me).threads[me].SCas? && C.After(r, 3, me).threads[me].SWrite?
    ensures C.After(r, 4, me).threads[me].SPublish?
    ensures C.After(r, 5, me).threads[me] == M.SDone(M.Sent(|r.sent|)) && C.After(r, 5, me).sent == r.sent + [r.threads[me].msg]
  {
    forall k | 0 <= k <= 5 ensures |C.After(r, k, me).threads| == |r.threads| && I.Inv(C.After(r, k, me)) {
      E.SizeAfter(r, k, me);
    }
    hide M.Next, I.Inv, TailFree, R.Unreleased;
    AfterFive(r, me);
    var r1 := C.After(r, 1, me);
    SendLoadIs(r, me);
    ThereStays(r, me, r1.threads[me]);
    TailClaims(r1, me);
    PutsAll(C.After(r, 2, me), me);
  }

  // ---------------------------------------------------------------- the wait alone

  /** Past the last look before the futex: such a wait is not ended by the thread's own steps. */
  predicate PastLook(pc: W.Pc) {
    pc.SleepPark? || pc.SleepWait? || pc.Asleep?
  }

  /** How far a wait is from its end once the watched lap has changed. */
  function ServeRank(pc: W.Pc): (n: nat)
    ensures n <= 13
  {
    match pc
    case RetryClosed => 13
    case RetryLap => 12
    case RegLock => 11
    case RegInside => 10
    case RegStoreEmpty => 9
    case RegUnlock => 8
    case SleepClosed => 7
    case SleepLap => 6
    case SleepUnpark(_) => 5
    case UnregLock(_) => 4
    case UnregInside(_) => 3
    case UnregStoreEmpty(_) => 2
    case UnregUnlock(_) => 1
    case RegUnlockFail => 1
    case _ => 0
  }

  /** In a wait, not past its last look, nobody else behind the lock. */
  ghost predicate LooksYet(w: W.State, me: nat) {
    && U.WakerOk(w) && me < |w.threads| && U.InWait(w.threads[me]) && !PastLook(w.threads[me])
    && (w.lock == None || w.lock == Some(me))
  }

  lemma EnterServes(w: W.State, me: nat)
    requires me < |w.threads| && W.Entering(w.threads[me]) && (w.lock == None || w.lock == Some(me))
    requires T.Holds(w.threads[me]) <==> w.lock == Some(me)
    ensures var w' := W.EnterStep(w, me, true);
      ServeRank(w'.threads[me]) < ServeRank(w.threads[me]) && (w'.lock == None || w'.lock == Some(me)) && !PastLook(w'.threads[me])
  {
    hide W.Register;
  }

  lemma SleepServes(w: W.State, me: nat)
    requires me < |w.threads| && W.Sleeping(w.threads[me]) && !PastLook(w.threads[me]) && (w.lock == None || w.lock == Some(me))
    requires T.Holds(w.threads[me]) <==> w.lock == Some(me)
    ensures var w' := W.SleepStep(w, me, true);
      ServeRank(w'.threads[me]) < ServeRank(w.threads[me]) && (w'.lock == None || w'.lock == Some(me)) && !PastLook(w'.threads[me])
  {
    hide W.Unregister;
  }

  /** Each of its steps brings such a wait nearer its end. */
  lemma WaitServes(w: W.State, me: nat)
    requires LooksYet(w, me) && !w.threads[me].WaitDone?
    ensures var w' := W.Next(w, W.Step(me, true)); LooksYet(w', me) && ServeRank(w'.threads[me]) < ServeRank(w.threads[me])
  {
    U.WakerMoves(w, W.Step(me, true));
    assert T.ThreadOk(w, me);
    hide U.WakerOk, W.EnterStep, W.SleepStep, W.NoteStep, W.CloseStep, PastLook;
    if W.Entering(w.threads[me]) {
      EnterServes(w, me);
    } else {
      StillSleeping(w.threads[me]);
      SleepServes(w, me);
    }
  }

  lemma StillSleeping(pc: W.Pc)
    requires U.InWait(pc) && !W.Entering(pc) && !PastLook(pc) && !pc.WaitDone?
    ensures W.Sleeping(pc) && !W.Noting(pc)
  {
  }

  // ---------------------------------------------------------------- a waiting receive

  /** Waiting, with the next message there. */
  ghost predicate RecvReady<T>(q: Queue<T>, me: nat) {
    WatchInv(q) && me < |q.phases| && q.phases[me].WaitsReader? && I.Shape(q.ring) && HeadThere(q.ring) && LooksYet(q.readers, me)
  }

  lemma RecvWaitStep<T>(q: Queue<T>, me: nat)
    requires RecvReady(q, me) && !q.readers.threads[me].WaitDone?
    ensures
      var q' := Next(q, Step(me));
      RecvReady(q', me) && ServeRank(q'.readers.threads[me]) < ServeRank(q.readers.threads[me]) && q'.ring == q.ring
  {
    WatchSees(q, me);
    assert Sizes(q) && Ready(q, me);
    StepKeepsWatch(q, Step(me));
    E.WaitGoesOn(q, me);
    WaitServes(q.readers, me);
    hide Next, W.Next, WatchInv, LooksYet, HeadThere, Inv;
  }

  /** The wait is over: the receive goes round its loop. */
  lemma RecvWaitOver<T>(q: Queue<T>, me: nat)
    requires RecvReady(q, me) && q.readers.threads[me].WaitDone?
    ensures
      var q', saw := Next(q, Step(me)), q.readers.threads[me].out.Closed?;
      && WatchInv(q') && |q'.phases| == |q.phases| && q'.phases[me].InRing? && q'.writers == q.writers
      && me < |q.ring.threads| && q'.ring == M.Goto(q.ring, me, M.RLoad(true, saw)) && HeadThere(q'.ring)
  {
    StepKeepsWatch(q, Step(me));
    assert Sizes(q) && PlaceOk(q, me);
    U.CloseDoneMeans(q.readers, me);
    assert Flags(q);
    GoesRound(q.ring, me, q.readers.threads[me].out);
    ThereStays(q.ring, me, M.RLoad(true, q.readers.threads[me].out.Closed?));
    hide M.Next, W.Next, WatchInv, Inv, HeadThere, LooksYet, M.IsClosed;
    OverIs(q, me);
  }

  lemma OverIs<T>(q: Queue<T>, me: nat)
    requires Has(q, me)
    ensures q.phases[me].WaitsReader? && q.readers.threads[me].WaitDone? ==>
      Next(q, Step(me)) == Move(q, me, InRing).(ring := M.Next(q.ring, Onward(me, q.readers.threads[me].out)))
    ensures q.phases[me].WaitsWriter? && q.writers.threads[me].WaitDone? ==>
      Next(q, Step(me)) == Move(q, me, InRing).(ring := M.Next(q.ring, Onward(me, q.writers.threads[me].out)))
  {
    hide M.Next, W.Next;
  }

  lemma GoesRound<T>(r: M.Ring<T>, me: nat, out: W.Outcome)
    requires me < |r.threads| && (out.Closed? ==> M.IsClosed(r))
    ensures r.threads[me].RWait? ==> M.Next(r, Onward(me, out)) == M.Goto(r, me, M.RLoad(true, out.Closed?))
    ensures r.threads[me].SWait? && !out.Closed? ==> M.Next(r, Onward(me, out)) == M.Goto(r, me, M.SLoad(r.threads[me].msg, true))
  {
  }

  /** From its load of the meta on it is delivered the next message. */
  lemma RecvInRing<T>(q: Queue<T>, me: nat) returns (n: nat)
    requires WatchInv(q) && me < |q.phases| && q.phases[me].InRing? && me < |q.ring.threads| && q.ring.threads[me].RLoad?
    requires I.Shape(q.ring) && HeadThere(q.ring)
    ensures
      var q' := Exec(q, Steps(me, n));
      me < |q'.ring.threads| && q'.ring.threads[me] == M.RDone(M.Received(|q.ring.taken|, q.ring.sent[|q.ring.taken|]))
  {
    assert I.Inv(q.ring);
    TakesHead(q.ring, me);
    assert Inv(q);
    hide M.Next, Inv, I.Inv, Next, C.After, WatchInv, HeadThere;
    E.PlainPlaces(q.ring, me, 4);
    PlainSteps(q, me, 4);
    n := 5;
    FifthStep(q, me, true);
  }

  /** The lap store, in the queue. */
  lemma FifthStep<T>(q: Queue<T>, me: nat, writers: bool)
    requires Inv(q) && me < |q.phases| && q.phases[me].InRing?
    requires var q4 := Exec(q, Steps(me, 4)); Inv(q4) && OnlyFlagged(q, q4) && q4.ring == C.After(q.ring, 4, me)
    requires
      && me < |C.After(q.ring, 4, me).threads|
      && if writers then C.After(q.ring, 4, me).threads[me].RRelease? else C.After(q.ring, 4, me).threads[me].SPublish?
    ensures Exec(q, Steps(me, 5)).ring == C.After(q.ring, 5, me)
  {
    var q4 := Exec(q, Steps(me, 4));
    assert Sizes(q4);
    assert Steps<T>(me, 5) == Steps(me, 4) + [Step(me)];
    ExecSnoc(q, Steps(me, 4), Step(me));
    FinishIs(q4, me, writers);
    C.AfterNext(q.ring, 5, me);
    hide Next, M.Next, Inv;
  }

  /**
   A `recv` that waits, not past its last look, with the lock of its waker free and the next message there, is delivered
   that message by its own steps.
   */
  lemma {:induction false} WaitingRecvServed<T>(q: Queue<T>, me: nat) returns (n: nat)
    requires RecvReady(q, me)
    ensures
      var q' := Exec(q, Steps(me, n));
      me < |q'.ring.threads| && q'.ring.threads[me] == M.RDone(M.Received(|q.ring.taken|, q.ring.sent[|q.ring.taken|]))
    decreases ServeRank(q.readers.threads[me])
  {
    var q1 := Next(q, Step(me));
    if q.readers.threads[me].WaitDone? {
      RecvWaitOver(q, me);
      assert I.Inv(q1.ring);
      hide Next, WatchInv, HeadThere, LooksYet, I.Inv;
      n := RecvInRing(q1, me);
    } else {
      RecvWaitStep(q, me);
      hide Next, RecvReady;
      n := WaitingRecvServed(q1, me);
    }
    FirstStep(q, me, n);
    n := n + 1;
  }

  // ---------------------------------------------------------------- a waiting send

  ghost predicate SendReady<T>(q: Queue<T>, me: nat) {
    && WatchInv(q) && me < |q.phases| && q.phases[me].WaitsWriter? && I.Shape(q.ring) && TailFree(q.ring) && LooksYet(q.writers, me)
    && !M.IsClosed(q.ring)
  }

  lemma SendWaitStep<T>(q: Queue<T>, me: nat)
    requires SendReady(q, me) && !q.writers.threads[me].WaitDone?
    ensures
      var q' := Next(q, Step(me));
      SendReady(q', me) && ServeRank(q'.writers.threads[me]) < ServeRank(q.writers.threads[me]) && q'.ring == q.ring
  {
    WatchSees(q, me);
    assert Sizes(q) && Ready(q, me);
    StepKeepsWatch(q, Step(me));
    WriterGoesOn(q, me);
    WaitServes(q.writers, me);
    hide Next, W.Next, WatchInv, LooksYet, TailFree, Inv, M.IsClosed;
  }

  lemma WriterGoesOn<T>(q: Queue<T>, me: nat)
    requires Has(q, me) && q.phases[me].WaitsWriter? && !q.writers.threads[me].WaitDone?
    ensures Next(q, Step(me)) == q.(writers := W.Next(q.writers, W.Step(me, Ready(q, me))))
  {
    hide M.Next, InnerStep, U.Enter, W.Next;
  }

  lemma SendWaitOver<T>(q: Queue<T>, me: nat)
    requires SendReady(q, me) && q.writers.threads[me].WaitDone?
    ensures
      var q' := Next(q, Step(me));
      && WatchInv(q') && |q'.phases| == |q.phases| && q'.phases[me].InRing?
      && me < |q.ring.threads| && q.ring.threads[me].SWait? && q'.ring == M.Goto(q.ring, me, M.SLoad(q.ring.threads[me].msg, true))
      && TailFree(q'.ring) && !M.IsClosed(q'.ring)
  {
    StepKeepsWatch(q, Step(me));
    assert Sizes(q) && PlaceOk(q, me);
    U.CloseDoneMeans(q.writers, me);
    assert Flags(q);
    GoesRound(q.ring, me, q.writers.threads[me].out);
    ThereStays(q.ring, me, M.SLoad(q.ring.threads[me].msg, true));
    hide M.Next, W.Next, WatchInv, Inv, TailFree, LooksYet;
    OverIs(q, me);
  }

  lemma SendInRing<T>(q: Queue<T>, me: nat) returns (n: nat)
    requires WatchInv(q) && me < |q.phases| && q.phases[me].InRing? && me < |q.ring.threads| && q.ring.threads[me].SLoad?
    requires I.Shape(q.ring) && TailFree(q.ring) && !M.IsClosed(q.ring)
    ensures
      var q' := Exec(q, Steps(me, n));
      && me < |q'.ring.threads| && q'.ring.threads[me] == M.SDone(M.Sent(|q.ring.sent|))
      && q'.ring.sent == q.ring.sent + [q.ring.threads[me].msg]
  {
    assert I.Inv(q.ring);
    FillsTail(q.ring, me);
    assert Inv(q);
    hide M.Next, Inv, I.Inv, Next, C.After, WatchInv, TailFree, M.IsClosed;
    SendPlaces(q.ring, me);
    PlainSteps(q, me, 4);
    n := 5;
    FifthStep(q, me, false);
  }

  lemma SendPlaces<T>(r: M.Ring<T>, me: nat)
    requires me < |r.threads| && r.threads[me].SLoad?
    requires forall k :: 0 <= k <= 5 ==> |C.After(r, k, me).threads| == |r.threads|
    requires C.After(r, 1, me).threads[me].SLap? && C.After(r, 2, me).threads[me].SCas? && C.After(r, 3, me).threads[me].SWrite?
    ensures forall k :: 0 <= k < 4 ==> me < |C.After(r, k, me).threads| && Plain(C.After(r, k, me).threads[me])
  {
    assert C.After(r, 0, me) == r;
    hide M.Next, C.After;
    forall k | 0 <= k < 4 ensures me < |C.After(r, k, me).threads| && Plain(C.After(r, k, me).threads[me]) {
      assert k == 0 || k == 1 || k == 2 || k == 3;
    }
  }

  /** A `send` that waits on an open queue, likewise, with the next slot free: its message is accepted there by its own steps. */
  lemma {:induction false} WaitingSendServed<T>(q: Queue<T>, me: nat) returns (n: nat)
    requires SendReady(q, me) && me < |q.ring.threads| && q.ring.threads[me].SWait?
    ensures
      var q' := Exec(q, Steps(me, n));
      && me < |q'.ring.threads| && q'.ring.threads[me] == M.SDone(M.Sent(|q.ring.sent|))
      && q'.ring.sent == q.ring.sent + [q.ring.threads[me].msg]
    decreases ServeRank(q.writers.threads[me])
  {
    var q1 := Next(q, Step(me));
    if q.writers.threads[me].WaitDone? {
      SendWaitOver(q, me);
      assert I.Inv(q1.ring);
      hide Next, WatchInv, TailFree, LooksYet, I.Inv, M.IsClosed;
      n := SendInRing(q1, me);
    } else {
      SendWaitStep(q, me);
      hide Next, SendReady;
      n := WaitingSendServed(q1, me);
    }
    FirstStep(q, me, n);
    n := n + 1;
  }
}
