/**
 The run that leaves a reader asleep: round trips up to the last claim; a reader looks at the empty queue and gets as far
 as parking; the last send sets the bit, publishes and notifies in vain; the reader goes to sleep; a close turns back.
 */
module MpmcQueueWitness {
  import opened Words
  import opened Options
  import opened MpmcQueue
  import opened MpmcQueueInvariant
  import opened MpmcQueueTheorems
  import opened MpmcQueueLeft
  import M = MpmcRing
  import I = MpmcInvariant
  import S = MpmcSteps
  import R = MpmcTheorems
  import C = MpmcSelfClose
  import W = Waker
  import T = WakerTheorems
  import U = WakerUse

  // ---------------------------------------------------------------- round trips

  /** A waker that nobody waits on. */
  ghost predicate Blank(w: W.State) {
    w.lock.None? && w.meta == W.Metadata([], 0, false) && w.empty
  }

  /** Between calls of thread 0, with nothing else ever done. */
  ghost predicate Still<T>(q: Queue<T>) {
    && Inv(q) && Blank(q.writers) && Blank(q.readers) && C.Ready(q.ring)
    && (forall p :: 0 <= p < |q.phases| ==> q.phases[p].InRing?)
    && (forall p :: 1 <= p < |q.phases| ==> q.ring.threads[p].Idle?)
  }

  lemma NoteEnds(w: W.State, me: nat)
    requires me < |w.threads| && w.threads[me].NoteEmpty? && w.empty
    ensures W.Next(w, W.Step(me, false)) == w.(threads := w.threads[me := W.NoteDone])
  {
    hide W.EnterStep, W.SleepStep, W.CloseStep;
  }

  lemma NoteStarts(w: W.State, me: nat)
    requires me < |w.threads| && W.AtRest(w.threads[me])
    ensures W.Next(w, W.StartWakeOne(me)) == w.(threads := w.threads[me := W.NoteEmpty])
  {
    hide W.EnterStep, W.SleepStep, W.NoteStep, W.CloseStep;
  }

  // The last two steps of a notification that finds nobody.

  lemma ReadersNoted<T>(q: Queue<T>)
    requires Inv(q) && |q.phases| > 0 && q.phases[0].NotifiesReaders? && q.readers.threads[0].NoteEmpty? && q.readers.empty
    ensures var q' := Next(Next(q, Step(0)), Step(0));
      Inv(q') && q' == q.(phases := q.phases[0 := InRing], readers := q.readers.(threads := q.readers.threads[0 := W.NoteDone]))
  {
    StepKeepsInv(q, Step(0));
    NoteEnds(q.readers, 0);
    hide M.Next, Inv, M.IsClosed, InnerStep, U.Enter, W.Next;
    var q1 := Next(q, Step(0));
    assert q1 == q.(readers := W.Next(q.readers, W.Step(0, false)));
    StepKeepsInv(q1, Step(0));
  }

  lemma WritersNoted<T>(q: Queue<T>)
    requires Inv(q) && |q.phases| > 0 && q.phases[0].NotifiesWriters? && q.writers.threads[0].NoteEmpty? && q.writers.empty
    ensures var q' := Next(Next(q, Step(0)), Step(0));
      Inv(q') && q' == q.(phases := q.phases[0 := InRing], writers := q.writers.(threads := q.writers.threads[0 := W.NoteDone]))
  {
    StepKeepsInv(q, Step(0));
    NoteEnds(q.writers, 0);
    hide M.Next, Inv, M.IsClosed, InnerStep, U.Enter, W.Next;
    var q1 := Next(q, Step(0));
    assert q1 == q.(writers := W.Next(q.writers, W.Step(0, false)));
    StepKeepsInv(q1, Step(0));
  }

  /** The publication: its thread begins to notify the readers. */
  lemma PublishStarts<T>(q: Queue<T>)
    requires Inv(q) && |q.phases| > 0 && q.phases[0].InRing? && q.ring.threads[0].SPublish?
    ensures var q1, closed := Next(q, Step(0)), M.IsClosed(M.Next(q.ring, M.Advance(0)));
      && Inv(q1) && q1.ring == M.Next(q.ring, M.Advance(0)) && q1.phases == q.phases[0 := NotifiesReaders] && q1.returned == q.returned
      && q1.writers == q.writers.(queueClosed := closed) && |q.readers.threads| == |q.phases|
      && q1.readers == q.readers.(queueClosed := closed, threads := q.readers.threads[0 := W.NoteEmpty])
  {
    StepKeepsInv(q, Step(0));
    InnerMoves(q, 0);
    InnerRing(q, 0);
    assert PlaceOk(q, 0) && Sizes(q);
    NoteStarts(InnerStep(q, 0).readers, 0);
    PublishMove(q);
    hide M.Next, Next, Inv, M.IsClosed, InnerStep, I.Inv, U.WakerOk, W.Next, PlaceOk;
  }

  lemma PublishMove<T>(q: Queue<T>)
    requires Has(q, 0) && q.phases[0].InRing? && q.ring.threads[0].SPublish?
    ensures var inner := InnerStep(q, 0);
      Next(q, Step(0)) == inner.(phases := q.phases[0 := NotifiesReaders], readers := W.Next(inner.readers, W.StartWakeOne(0)))
  {
    hide M.Next, InnerStep, U.Enter, W.Next;
  }

  /** The last three steps of a send: publication, and a notification that finds nobody. */
  lemma PublishAlone<T>(q: Queue<T>)
    requires Inv(q) && |q.phases| > 0 && q.phases[0].InRing? && q.ring.threads[0].SPublish? && Blank(q.readers)
    ensures var q' := Next(Next(Next(q, Step(0)), Step(0)), Step(0));
      && Inv(q') && q'.ring == M.Next(q.ring, M.Advance(0)) && q'.phases == q.phases
      && Blank(q'.readers) && (Blank(q.writers) ==> Blank(q'.writers)) && q'.returned == q.returned
  {
    PublishStarts(q);
    hide M.Next, Next, Inv, M.IsClosed;
    ReadersNoted(Next(q, Step(0)));
    assert q.phases[0 := NotifiesReaders][0 := InRing] == q.phases;
  }

  /** And of a receive. */
  lemma ReleaseAlone<T>(q: Queue<T>)
    requires Inv(q) && |q.phases| > 0 && q.phases[0].InRing? && q.ring.threads[0].RRelease? && Blank(q.writers)
    ensures var q' := Next(Next(Next(q, Step(0)), Step(0)), Step(0));
      && Inv(q') && q'.ring == M.Next(q.ring, M.Advance(0)) && q'.phases == q.phases
      && Blank(q'.writers) && (Blank(q.readers) ==> Blank(q'.readers)) && q'.returned == q.returned
  {
    var q1 := Next(q, Step(0));
    StepKeepsInv(q, Step(0));
    InnerMoves(q, 0);
    InnerRing(q, 0);
    assert PlaceOk(q, 0);
    var inner := InnerStep(q, 0);
    NoteStarts(inner.writers, 0);
    hide M.Next, Inv, M.IsClosed, InnerStep, U.Enter, I.Inv, U.WakerOk, W.Next;
    assert q1 == inner.(phases := q.phases[0 := NotifiesWriters], writers := W.Next(inner.writers, W.StartWakeOne(0)));
    WritersNoted(q1);
    assert q.phases[0 := NotifiesWriters][0 := InRing] == q.phases;
  }


  /** A whole call of thread 0 in five steps of the ring, and its notification. */
  function Whole<T>(start: M.Action<T>): (run: seq<Action<T>>) {
    [Start(start)] + Steps(0, 4) + [Step(0)] + [Step(0)] + [Step(0)]
  }

  lemma {:induction false} ExecWhole<T>(q: Queue<T>, start: M.Action<T>)
    ensures Exec(q, Whole(start)) == Next(Next(Next(Exec(Next(q, Start(start)), Steps(0, 4)), Step(0)), Step(0)), Step(0))
  {
    hide Next;
    assert [Start(start)] == [] + [Start(start)];
    ExecSnoc(q, [], Start(start));
    ExecAppend(q, [Start(start)], Steps(0, 4));
    ExecSnoc(q, [Start(start)] + Steps(0, 4), Step(0));
    ExecSnoc(q, [Start(start)] + Steps(0, 4) + [Step(0)], Step(0));
    ExecSnoc(q, [Start(start)] + Steps(0, 4) + [Step(0)] + [Step(0)], Step(0));
  }

  lemma StartIs<T>(q: Queue<T>, start: M.Action<T>)
    requires Inv(q) && IsCall(start) && start.me < |q.phases| && Free(q, start.me)
    ensures Next(q, Start(start)) == q.(ring := M.Next(q.ring, start)) && Inv(Next(q, Start(start)))
  {
    StepKeepsInv(q, Start(start));
    hide M.Next, Inv;
  }

  /** The other threads' places in the ring. */
  lemma {:induction false} AfterOthers<T>(r: M.Ring<T>, n: nat, me: nat, p: nat)
    requires I.Inv(r) && p < |r.threads| && p != me
    ensures I.Inv(C.After(r, n, me)) && |C.After(r, n, me).threads| == |r.threads| && C.After(r, n, me).threads[p] == r.threads[p]
  {
    hide M.Next, I.Inv;
    if n > 0 {
      AfterOthers(r, n - 1, me, p);
      C.AfterNext(r, n, me);
      RingFacts(C.After(r, n - 1, me), M.Advance(me));
    }
  }

  lemma PlacesPlain<T>(r: M.Ring<T>)
    requires C.SendPlaces(r) || C.RecvPlaces(r)
    ensures forall k :: 0 <= k < 4 ==> |C.After(r, k, 0).threads| > 0 && Plain(C.After(r, k, 0).threads[0])
    ensures |C.After(r, 4, 0).threads| > 0 && (C.After(r, 4, 0).threads[0].SPublish? || C.After(r, 4, 0).threads[0].RRelease?)
    ensures C.SendPlaces(r) ==> C.After(r, 4, 0).threads[0].SPublish?
    ensures C.RecvPlaces(r) ==> C.After(r, 4, 0).threads[0].RRelease?
  {
    hide M.Next, C.After;
    forall k | 0 <= k < 4 ensures |C.After(r, k, 0).threads| > 0 && Plain(C.After(r, k, 0).threads[0]) {
      assert k == 0 || k == 1 || k == 2 || k == 3;
    }
  }

  lemma {:induction false} SendWhole<T>(q: Queue<T>, msg: T)
    requires Still(q) && C.Room(q.ring) && !M.IsClosed(q.ring)
    ensures var q' := Exec(q, Whole(M.StartSend(0, msg, false)));
      Still(q') && |q'.ring.sent| == |q.ring.sent| + 1 && |q'.ring.taken| == |q.ring.taken| + 0 && |q'.ring.slots| == |q.ring.slots|
    ensures |Exec(q, Whole(M.StartSend(0, msg, false))).phases| == |q.phases|
  {
    var start := M.StartSend(0, msg, false);
    assert Sizes(q) && PlaceOk(q, 0) && C.Calm(q.ring) && I.Inv(q.ring);
    StartIs(q, start);
    var q1 := Next(q, Start(start));
    C.SendWalk(q.ring, msg);
    RingFacts(q.ring, start);
    ThroughStays(q, Whole(start));
    hide M.Next, Next, Inv, I.Inv, C.Ready, C.Calm, Whole, M.IsClosed;
    PlacesPlain(q1.ring);
    PlainSteps(q1, 0, 4);
    var q5 := Exec(q1, Steps(0, 4));
    PublishAlone(q5);
    ExecWhole(q, start);
    C.AfterNext(q1.ring, 5, 0);
    var q' := Exec(q, Whole(start));
    forall p | 1 <= p < |q'.phases| ensures p < |q'.ring.threads| && q'.ring.threads[p].Idle? {
      AfterOthers(q1.ring, 5, 0, p);
    }
  }

  lemma {:induction false} RecvWhole<T>(q: Queue<T>)
    requires Still(q) && |q.ring.taken| < |q.ring.sent|
    ensures var q' := Exec(q, Whole(M.StartRecv(0, false)));
      Still(q') && |q'.ring.sent| == |q.ring.sent| + 0 && |q'.ring.taken| == |q.ring.taken| + 1 && |q'.ring.slots| == |q.ring.slots|
    ensures |Exec(q, Whole(M.StartRecv(0, false))).phases| == |q.phases|
  {
    var start := M.StartRecv(0, false);
    assert Sizes(q) && PlaceOk(q, 0) && C.Calm(q.ring) && I.Inv(q.ring);
    StartIs(q, start);
    var q1 := Next(q, Start(start));
    C.RecvWalk(q.ring);
    RingFacts(q.ring, start);
    ThroughStays(q, Whole(start));
    hide M.Next, Next, Inv, I.Inv, C.Ready, C.Calm, Whole, M.IsClosed;
    PlacesPlain(q1.ring);
    PlainSteps(q1, 0, 4);
    var q5 := Exec(q1, Steps(0, 4));
    ReleaseAlone(q5);
    ExecWhole(q, start);
    C.AfterNext(q1.ring, 5, 0);
    var q' := Exec(q, Whole(start));
    forall p | 1 <= p < |q'.phases| ensures p < |q'.ring.threads| && q'.ring.threads[p].Idle? {
      AfterOthers(q1.ring, 5, 0, p);
    }
  }

  lemma InitStill<T>(cap: U32, threads: nat)
    requires cap <= MAX_CAPACITY && threads > 0
    ensures Still(Init<T>(cap, threads))
  {
    InitInv<T>(cap, threads);
  }

  /** The bit is clear as long as claims are left, if nobody closes. */
  lemma {:induction false} StillOpen<T>(cap: U32, threads: nat, run: seq<Action<T>>)
    requires cap <= MAX_CAPACITY && NobodyCloses(run)
    ensures var r := Exec(Init<T>(cap, threads), run).ring; I.Inv(r) && (M.IsClosed(r) <==> UsedUp(r))
  {
    RingRuns(Init<T>(cap, threads), run);
    NoClosesInRing(Init<T>(cap, threads), run);
    hide Next, M.Next, Exec, RingRun, M.IsClosed;
    R.SelfCloseExact(cap, threads, RingRun(Init<T>(cap, threads), run));
  }

  predicate NobodyCloses<T>(run: seq<Action<T>>) {
    forall k :: 0 <= k < |run| ==> !(run[k].Start? && run[k].call.StartClose?)
  }

  lemma {:induction false} NoClosesInRing<T>(q: Queue<T>, run: seq<Action<T>>)
    requires NobodyCloses(run)
    ensures forall k :: 0 <= k < |RingRun(q, run)| ==> !RingRun(q, run)[k].StartClose?
  {
    if run != [] {
      NoClosesInRing(q, run[..|run| - 1]);
    }
  }

  /** One message sent and received. */
  lemma {:induction false} WholeRoundTrip<T>(q: Queue<T>, msg: T) returns (run: seq<Action<T>>)
    requires Still(q) && |q.ring.sent| == |q.ring.taken| && !M.IsClosed(q.ring)
    ensures NobodyCloses(run)
    ensures var q' := Exec(q, run);
      && Still(q') && |q'.phases| == |q.phases| && |q'.ring.slots| == |q.ring.slots|
      && |q'.ring.sent| == |q'.ring.taken| == |q.ring.sent| + 1
  {
    var send, recv := Whole(M.StartSend(0, msg, false)), Whole<T>(M.StartRecv(0, false));
    run := send + recv;
    StillRing(q);
    WholeCloseFree(M.StartSend(0, msg, false));
    WholeCloseFree<T>(M.StartRecv(0, false));
    CloseFreeConcat(send, recv);
    hide Next, M.Next, I.Inv, Still, M.IsClosed, Exec, Whole, NobodyCloses;
    SendWhole(q, msg);
    RecvWhole(Exec(q, send));
    ExecAppend(q, send, recv);
  }

  lemma WholeCloseFree<T>(start: M.Action<T>)
    requires !start.StartClose?
    ensures NobodyCloses(Whole(start))
  {
  }

  lemma CloseFreeConcat<T>(run: seq<Action<T>>, more: seq<Action<T>>)
    requires NobodyCloses(run) && NobodyCloses(more)
    ensures NobodyCloses(run + more)
  {
  }

  /** k messages sent and received one at a time, with their notifications. */
  lemma {:induction false} WholeRoundTrips<T>(cap: U32, threads: nat, msg: T, k: nat) returns (run: seq<Action<T>>)
    requires cap <= MAX_CAPACITY && threads > 0 && k < I.MAX_ROUNDS * (if cap > 0 then cap else 1)
    ensures NobodyCloses(run)
    ensures var q := Exec(Init<T>(cap, threads), run);
      Still(q) && |q.phases| == threads && |q.ring.sent| == |q.ring.taken| == k && |q.ring.slots| == if cap > 0 then cap else 1
    decreases k
  {
    var init := Init<T>(cap, threads);
    run := [];
    if k == 0 {
      InitStill<T>(cap, threads);
    } else {
      hide Next, M.Next, I.Inv, Still, M.IsClosed, Exec, NobodyCloses;
      var pre := WholeRoundTrips(cap, threads, msg, k - 1);
      StillOpen(cap, threads, pre);
      var trip := WholeRoundTrip(Exec(init, pre), msg);
      ExecAppend(init, pre, trip);
      CloseFreeConcat(pre, trip);
      run := pre + trip;
    }
  }

  lemma StillRing<T>(q: Queue<T>)
    requires Still(q)
    ensures C.Ready(q.ring) && |q.ring.slots| > 0
  {
  }

  // ---------------------------------------------------------------- the reader

  /** Thread 1 finds the ring empty. */
  lemma EmptyWalk<T>(r: M.Ring<T>)
    requires C.Calm(r) && |r.threads| > 1 && r.threads[1].Idle? && |r.sent| == |r.taken|
    ensures var r1, snap := M.Next(r, M.StartRecv(1, true)), M.Snapshot(r.readMeta, |r.taken|);
      && r1 == M.Goto(r, 1, M.RLoad(true, false))
      && M.Next(r1, M.Advance(1)) == M.Goto(r, 1, M.RLap(true, false, snap))
      && M.Next(M.Goto(r, 1, M.RLap(true, false, snap)), M.Advance(1)) == M.Goto(r, 1, M.RRelap(true, false, snap))
      && M.Next(M.Goto(r, 1, M.RRelap(true, false, snap)), M.Advance(1)) == M.Goto(r, 1, M.RWait)
      && IdxOf(r.readMeta) < |r.slots|
  {
    var a, snap := M.Advance(1), M.Snapshot(r.readMeta, |r.taken|);
    var r1 := M.Next(r, M.StartRecv(1, true));
    S.StepKeepsInv(r, M.StartRecv(1, true));
    var r2 := M.Goto(r, 1, M.RLap(true, false, snap));
    assert M.Next(r1, a) == r2;
    S.StepKeepsInv(r1, a);
    RelapFollows(r2);
    var r3 := M.Goto(r2, 1, M.RRelap(true, false, snap));
    S.StepKeepsInv(r2, a);
    R.EmptyExact(r3, 1);
    R.LapStep(r3, 1);
    hide M.Next, I.Inv, R.Unpublished, M.AfterLap;
    assert r3 == M.Goto(r, 1, M.RRelap(true, false, snap));
    assert M.Goto(r3, 1, M.RWait) == M.Goto(r, 1, M.RWait);
  }

  lemma RelapFollows<T>(r: M.Ring<T>)
    requires I.Inv(r) && |r.threads| > 1 && |r.sent| == |r.taken| && r.threads[1] == M.RLap(true, false, M.Snapshot(r.readMeta, |r.taken|))
    ensures M.Next(r, M.Advance(1)) == M.Goto(r, 1, M.RRelap(true, false, M.Snapshot(r.readMeta, |r.taken|)))
    ensures IdxOf(r.readMeta) < |r.slots|
  {
    R.LessOnlyWhenStale(r, 1);
    R.LapStep(r, 1);
    var r' := M.Next(r, M.Advance(1));
    S.StepKeepsInv(r, M.Advance(1));
    if r'.threads[1].RCas? {
      assert I.ThreadOk(r', 1, r'.threads[1]);
      S.ClaimRecvFits(r', 1, r'.threads[1].snap);
    }
    hide I.Inv, M.Next;
  }

  // ---------------------------------------------------------------- one waker

  /** Where thread me stands in w. */
  ghost predicate At(w: W.State, me: nat, pc: W.Pc) {
    me < |w.threads| && w.threads[me] == pc
  }

  /** Thread 1 registers with a waker nobody waits on. */
  lemma Registers(w: W.State)
    requires |w.threads| == |w.parked| > 1 && W.AtRest(w.threads[1]) && Blank(w) && !w.queueClosed
    ensures var w1 := W.Next(w, W.StartWait(1));
      var w2 := W.Next(w1, W.GiveUpRetry(1));
      var w3, w4 := W.Next(w2, W.Step(1, false)), W.Next(W.Next(w2, W.Step(1, false)), W.Step(1, false));
      && At(w1, 1, W.RetryClosed) && At(w2, 1, W.RegLock) && At(w3, 1, W.RegInside)
      && w4 == w.(threads := w.threads[1 := W.RegStoreEmpty], lock := Some(1), parked := w.parked[1 := false], meta := W.Metadata([1], 0, false))
  {
    hide W.SleepStep, W.NoteStep, W.CloseStep;
    var w1 := W.Next(w, W.StartWait(1));
    assert w1 == w.(threads := w.threads[1 := W.RetryClosed], parked := w.parked[1 := false]);
    var w2 := W.Next(w1, W.GiveUpRetry(1));
    assert w2 == w1.(threads := w.threads[1 := W.RegLock]);
    var w3 := W.Next(w2, W.Step(1, false));
    assert w3 == w2.(threads := w.threads[1 := W.RegInside], lock := Some(1));
    var w4 := W.Next(w3, W.Step(1, false));
    assert w4 == w3.(threads := w.threads[1 := W.RegStoreEmpty], meta := W.Metadata([1], 0, false));
  }

  /** And gets as far as parking. */
  lemma ComesToPark(w: W.State)
    requires |w.threads| == |w.parked| > 1 && w.threads[1] == W.RegStoreEmpty && !w.queueClosed
    ensures var a := W.Step(1, false);
      var w1, w2, w3, w4 := W.Next(w, a), W.Next(W.Next(w, a), a), W.Next(W.Next(W.Next(w, a), a), a), W.Next(W.Next(W.Next(W.Next(w, a), a), a), a);
      && At(w1, 1, W.RegUnlock) && At(w2, 1, W.SleepClosed) && At(w3, 1, W.SleepLap)
      && w4 == w.(threads := w.threads[1 := W.SleepPark], lock := None, empty := false)
  {
    var a := W.Step(1, false);
    hide W.NoteStep, W.CloseStep;
    var w1 := W.Next(w, a);
    assert w1 == w.(threads := w.threads[1 := W.RegUnlock], empty := false);
    var w2 := W.Next(w1, a);
    assert w2 == w1.(threads := w.threads[1 := W.SleepClosed], lock := None);
    var w3 := W.Next(w2, a);
    assert w3 == w2.(threads := w.threads[1 := W.SleepLap]);
    var w4 := W.Next(w3, a);
    assert w4 == w3.(threads := w.threads[1 := W.SleepPark]);
  }

  /** It parks, and sleeps, whatever has become of the slot. */
  lemma ThenSleeps(w: W.State, ready: bool, still: bool)
    requires |w.threads| == |w.parked| > 1 && w.threads[1] == W.SleepPark
    ensures At(W.Next(w, W.Step(1, ready)), 1, W.SleepWait)
    ensures At(W.Next(W.Next(w, W.Step(1, ready)), W.Step(1, still)), 1, W.Asleep)
  {
    hide W.NoteStep, W.CloseStep, W.EnterStep;
  }

  /** A notification by thread 0 that reaches thread 1 before it parks. */
  lemma NoteInVain(w: W.State)
    requires |w.threads| == |w.parked| > 1 && w.threads[0] == W.NoteEmpty && !w.empty && w.lock == None
    requires w.meta == W.Metadata([1], 0, false) && !w.parked[1]
    ensures var a := W.Step(0, false);
      var w2 := W.Next(W.Next(w, a), a);
      && At(W.Next(w, a), 0, W.NoteLock)
      && w2 == w.(threads := w.threads[0 := W.NoteInside], lock := Some(0))
  {
    hide W.SleepStep, W.EnterStep, W.CloseStep;
    var w1 := W.Next(w, W.Step(0, false));
    assert w1 == w.(threads := w.threads[0 := W.NoteLock]);
    assert W.Next(w1, W.Step(0, false)) == w1.(threads := w.threads[0 := W.NoteInside], lock := Some(0));
  }

  lemma NoteScansInVain(w: W.State)
    requires |w.threads| == |w.parked| > 1 && w.threads[0] == W.NoteInside && w.meta == W.Metadata([1], 0, false) && !w.parked[1]
    ensures var a := W.Step(0, false);
      && At(W.Next(w, a), 0, W.NoteScan(0))
      && W.Next(W.Next(w, a), a) == w.(threads := w.threads[0 := W.NoteScan(1)], meta := W.Metadata([1], 1, false))
  {
    var a := W.Step(0, false);
    hide W.SleepStep, W.EnterStep, W.CloseStep;
    var w1 := W.Next(w, a);
    assert w1 == w.(threads := w.threads[0 := W.NoteScan(0)], meta := W.Metadata([1], 1, false));
    assert W.Next(w1, a) == w1.(threads := w.threads[0 := W.NoteScan(1)]);
  }

  lemma NoteEndsInVain(w: W.State)
    requires |w.threads| > 1 && w.threads[0] == W.NoteScan(1) && w.meta == W.Metadata([1], 1, false)
    ensures var a := W.Step(0, false);
      && At(W.Next(w, a), 0, W.NoteUnlock)
      && W.Next(W.Next(w, a), a) == w.(threads := w.threads[0 := W.NoteDone], lock := None)
  {
    var a := W.Step(0, false);
    hide W.SleepStep, W.EnterStep, W.CloseStep;
    var w1 := W.Next(w, a);
    assert w1 == w.(threads := w.threads[0 := W.NoteUnlock]);
    assert W.Next(w1, a) == w1.(threads := w.threads[0 := W.NoteDone], lock := None);
  }

  // ---------------------------------------------------------------- steps on the readers' waker

  /** n steps of thread me on a waker, its slot never ready. */
  function Onwards(w: W.State, me: nat, n: nat): W.State {
    if n == 0 then w else W.Next(Onwards(w, me, n - 1), W.Step(me, false))
  }

  lemma OnwardsIs(w: W.State, me: nat)
    ensures var a := W.Step(me, false);
      && Onwards(w, me, 0) == w && Onwards(w, me, 1) == W.Next(w, a) && Onwards(w, me, 2) == W.Next(W.Next(w, a), a)
      && Onwards(w, me, 3) == W.Next(W.Next(W.Next(w, a), a), a) && Onwards(w, me, 4) == W.Next(W.Next(W.Next(W.Next(w, a), a), a), a)
  {
    hide W.Next;
    var a := W.Step(me, false);
    assert Onwards(w, me, 1) == W.Next(Onwards(w, me, 0), a);
    assert Onwards(w, me, 2) == W.Next(Onwards(w, me, 1), a);
    assert Onwards(w, me, 3) == W.Next(Onwards(w, me, 2), a);
    assert Onwards(w, me, 4) == W.Next(Onwards(w, me, 3), a);
  }

  /** Thread me is in a call on the readers' waker, and what it waits for has not come. */
  ghost predicate OnReaders<T>(q: Queue<T>, me: nat) {
    Has(q, me) && (q.phases[me].NotifiesReaders? || (q.phases[me].WaitsReader? && !Ready(q, me)))
  }

  /** Not at the end of the call. */
  predicate Busy(w: W.State, me: nat) {
    me < |w.threads| && !w.threads[me].WaitDone? && !w.threads[me].NoteDone?
  }

  lemma ReaderMove<T>(q: Queue<T>, me: nat)
    requires Inv(q) && OnReaders(q, me) && Busy(q.readers, me)
    ensures Next(q, Step(me)) == q.(readers := W.Next(q.readers, W.Step(me, false))) && Inv(Next(q, Step(me)))
  {
    StepKeepsInv(q, Step(me));
    hide M.Next, W.Next, Inv, U.Enter;
  }

  lemma {:induction false} ReaderMoves<T>(q: Queue<T>, me: nat, n: nat)
    requires Inv(q) && OnReaders(q, me)
    requires forall k :: 0 <= k < n ==> Busy(Onwards(q.readers, me, k), me)
    ensures Exec(q, Steps(me, n)) == q.(readers := Onwards(q.readers, me, n)) && Inv(Exec(q, Steps(me, n)))
  {
    if n > 0 {
      hide W.Next, Next, Inv, Busy;
      ReaderMoves(q, me, n - 1);
      assert Steps<T>(me, n) == Steps(me, n - 1) + [Step(me)];
      ExecSnoc(q, Steps(me, n - 1), Step(me));
      var q1 := Exec(q, Steps(me, n - 1));
      StillOn(q, q1, me);
      ReaderMove(q1, me);
    }
  }

  lemma StillOn<T>(q: Queue<T>, q1: Queue<T>, me: nat)
    requires OnReaders(q, me) && Inv(q1) && q1 == q.(readers := q1.readers)
    ensures OnReaders(q1, me)
  {
  }

  // ---------------------------------------------------------------- putting it together

  /** Thread 1 has found the queue empty and is about to wait; the others are between calls. */
  ghost predicate FoundEmpty<T>(q: Queue<T>) {
    && Inv(q) && |q.phases| > 1 && Blank(q.writers) && Blank(q.readers) && C.Ready(q.ring) && q.ring.threads[1].RWait?
    && (forall p :: 0 <= p < |q.phases| ==> q.phases[p].InRing?)
    && (forall p :: 2 <= p < |q.phases| ==> q.ring.threads[p].Idle?)
    && !M.IsClosed(q.ring) && !Ready(q, 1)
  }

  /** A look: the call and the first lap load, which the watch records. */
  lemma FirstLook<T>(q: Queue<T>)
    requires Inv(q) && C.Calm(q.ring) && |q.phases| > 1 && q.phases[1].InRing? && q.ring.threads[1].Idle? && |q.ring.sent| == |q.ring.taken|
    ensures var r, snap := q.ring, M.Snapshot(q.ring.readMeta, |q.ring.taken|);
      var q3 := Next(Next(Next(q, Start(M.StartRecv(1, true))), Step(1)), Step(1));
      && Inv(q3) && q3.ring == M.Goto(r, 1, M.RRelap(true, false, snap)) && OnlyFlagged(q, q3)
      && Has(q3, 1) && IdxOf(r.readMeta) < |r.slots| && q3.watch[1] == Watch(IdxOf(r.readMeta), r.slots[IdxOf(r.readMeta)].lap)
  {
    var r, start := q.ring, M.Action<T>.StartRecv(1, true);
    EmptyWalk(r);
    StartIs(q, start);
    var q1 := Next(q, Start(start));
    PlainStep(q1, 1);
    var q2 := Next(q1, Step(1));
    hide M.Next, Next, I.Inv, C.Calm, M.IsClosed;
    PlainStep(q2, 1);
    assert Sizes(Next(q2, Step(1)));
    hide Inv;
  }

  /** The second lap load, which finds nothing to read. */
  lemma SecondLook<T>(q: Queue<T>, r: M.Ring<T>)
    requires Inv(q) && Has(q, 1) && q.phases[1].InRing? && |r.threads| > 1 && C.Calm(r) && |r.sent| == |r.taken| && r.threads[1].Idle?
    requires q.ring == M.Goto(r, 1, M.RRelap(true, false, M.Snapshot(r.readMeta, |r.taken|)))
    requires IdxOf(r.readMeta) < |r.slots| && q.watch[1] == Watch(IdxOf(r.readMeta), r.slots[IdxOf(r.readMeta)].lap)
    ensures var q' := Next(q, Step(1));
      Inv(q') && q'.ring == M.Goto(r, 1, M.RWait) && OnlyFlagged(q, q') && Has(q', 1) && !Ready(q', 1)
  {
    EmptyWalk(r);
    PlainStep(q, 1);
    assert Sizes(Next(q, Step(1)));
    hide M.Next, Next, Inv, I.Inv, C.Calm, M.IsClosed;
    assert Next(q, Step(1)).watch == q.watch;
  }

  lemma {:induction false} LooksAtEmpty<T>(q: Queue<T>)
    requires Still(q) && |q.phases| > 1 && |q.ring.sent| == |q.ring.taken| && !M.IsClosed(q.ring)
    ensures var q' := Exec(q, [Start(M.StartRecv(1, true))] + Steps(1, 3));
      FoundEmpty(q') && |q'.phases| == |q.phases| && q'.ring == M.Goto(q.ring, 1, M.RWait)
  {
    assert Sizes(q) && I.Inv(q.ring) && C.Calm(q.ring);
    var start := M.Action<T>.StartRecv(1, true);
    FirstLook(q);
    var q1 := Next(q, Start(start));
    var q3 := Next(Next(q1, Step(1)), Step(1));
    var q4 := Next(q3, Step(1));
    SecondLook(q3, q.ring);
    ThreeSteps(q1);
    assert I.Inv(q4.ring) && Sizes(q4);
    ReadyWaiting(q.ring);
    hide M.Next, Next, Inv, I.Inv, C.Ready, C.Calm;
    ExecSnoc(q, [], Start(start));
    assert [] + [Start(start)] == [Start(start)];
    ExecAppend(q, [Start(start)], Steps(1, 3));
  }

  lemma ThreeSteps<T>(q: Queue<T>)
    ensures Exec(q, Steps(1, 3)) == Next(Next(Next(q, Step(1)), Step(1)), Step(1))
  {
    hide Next;
    assert Steps<T>(1, 0) == [] && Steps<T>(1, 1) == Steps(1, 0) + [Step(1)];
    assert Steps<T>(1, 2) == Steps(1, 1) + [Step(1)] && Steps<T>(1, 3) == Steps(1, 2) + [Step(1)];
    ExecSnoc(q, Steps(1, 0), Step(1));
    ExecSnoc(q, Steps(1, 1), Step(1));
    ExecSnoc(q, Steps(1, 2), Step(1));
  }

  lemma ReadyWaiting<T>(r: M.Ring<T>)
    requires C.Ready(r) && |r.threads| > 1 && I.Inv(M.Goto(r, 1, M.RWait))
    ensures C.Ready(M.Goto(r, 1, M.RWait))
  {
    hide I.Inv;
  }

  /** Thread 1 is about to park; nobody has been notified. */
  ghost predicate AboutToPark<T>(q: Queue<T>) {
    && Inv(q) && |q.phases| > 1 && Blank(q.writers) && C.Ready(q.ring) && q.ring.threads[1].RWait?
    && q.phases[1].WaitsReader? && (forall p :: 0 <= p < |q.phases| && p != 1 ==> q.phases[p].InRing?)
    && (forall p :: 2 <= p < |q.phases| ==> q.ring.threads[p].Idle?)
    && q.readers.threads[1] == W.SleepPark && q.readers.lock == None && q.readers.meta == W.Metadata([1], 0, false)
    && !q.readers.empty && !q.readers.parked[1]
  }

  /** From the wait's beginning to the lock. */
  lemma BeginsToWait<T>(q: Queue<T>)
    requires FoundEmpty(q)
    ensures var q2 := Next(Next(q, Step(1)), GiveUp(1));
      && Inv(q2) && OnReaders(q2, 1) && |q2.phases| == |q.phases|
      && q2 == Move(q, 1, WaitsReader).(readers := W.Next(W.Next(q.readers, W.StartWait(1)), W.GiveUpRetry(1)))
  {
    assert Sizes(q);
    WaitMove(q);
    var q1 := Next(q, Step(1));
    StepKeepsInv(q, Step(1));
    StepKeepsInv(q1, GiveUp(1));
    hide M.Next, Next, Inv, W.Next, C.Ready, M.IsClosed, Blank;
  }

  lemma WaitMove<T>(q: Queue<T>)
    requires Has(q, 1) && q.phases[1].InRing? && q.ring.threads[1].RWait?
    ensures Next(q, Step(1)) == Move(q, 1, WaitsReader).(readers := W.Next(q.readers, W.StartWait(1)))
    ensures |W.Next(q.readers, W.StartWait(1)).threads| == |q.readers.threads|
    ensures var q1 := Move(q, 1, WaitsReader).(readers := W.Next(q.readers, W.StartWait(1)));
      Next(q1, GiveUp(1)) == q1.(readers := W.Next(q1.readers, W.GiveUpRetry(1)))
      && |W.Next(q1.readers, W.GiveUpRetry(1)).threads| == |q.readers.threads|
  {
    hide M.Next, InnerStep, U.Enter, W.Next;
  }

  /** The same two walks of the waker, step by step. */
  lemma RegistersOnwards(w: W.State)
    requires |w.threads| == |w.parked| > 1 && W.AtRest(w.threads[1]) && Blank(w) && !w.queueClosed
    ensures var v := W.Next(W.Next(w, W.StartWait(1)), W.GiveUpRetry(1));
      && (forall k :: 0 <= k < 2 ==> Busy(Onwards(v, 1, k), 1))
      && Onwards(v, 1, 2) == w.(threads := w.threads[1 := W.RegStoreEmpty], lock := Some(1), parked := w.parked[1 := false], meta := W.Metadata([1], 0, false))
  {
    Registers(w);
    OnwardsIs(W.Next(W.Next(w, W.StartWait(1)), W.GiveUpRetry(1)), 1);
    hide W.Next, Onwards, Blank, W.AtRest;
    var v := W.Next(W.Next(w, W.StartWait(1)), W.GiveUpRetry(1));
    forall k | 0 <= k < 2 ensures Busy(Onwards(v, 1, k), 1) {
      assert k == 0 || k == 1;
    }
  }

  lemma ParkOnwards(w: W.State)
    requires |w.threads| == |w.parked| > 1 && w.threads[1] == W.RegStoreEmpty && !w.queueClosed
    ensures forall k :: 0 <= k < 4 ==> Busy(Onwards(w, 1, k), 1)
    ensures Onwards(w, 1, 4) == w.(threads := w.threads[1 := W.SleepPark], lock := None, empty := false)
  {
    ComesToPark(w);
    OnwardsIs(w, 1);
    hide W.Next, Onwards;
    forall k | 0 <= k < 4 ensures Busy(Onwards(w, 1, k), 1) {
      assert k == 0 || k == 1 || k == 2 || k == 3;
    }
  }

  /** From there to the place before parking. */
  lemma {:induction false} WalksToPark<T>(q: Queue<T>, w: W.State) returns (run: seq<Action<T>>)
    requires Inv(q) && OnReaders(q, 1)
    requires |w.threads| == |w.parked| > 1 && W.AtRest(w.threads[1]) && Blank(w) && !w.queueClosed
    requires q.readers == W.Next(W.Next(w, W.StartWait(1)), W.GiveUpRetry(1))
    ensures Inv(Exec(q, run))
    ensures Exec(q, run) == q.(readers := w.(threads := w.threads[1 := W.SleepPark], lock := None, empty := false,
      parked := w.parked[1 := false], meta := W.Metadata([1], 0, false)))
  {
    RegistersOnwards(w);
    hide M.Next, Inv, U.Enter, I.Inv, W.Next, Next, W.AtRest, Blank, OnReaders, Onwards, Busy, Exec;
    ReaderMoves(q, 1, 2);
    var q4 := Exec(q, Steps(1, 2));
    StillOn(q, q4, 1);
    ParkOnwards(q4.readers);
    ReaderMoves(q4, 1, 4);
    run := Steps(1, 2) + Steps(1, 4);
    ExecAppend(q, Steps(1, 2), Steps(1, 4));
    assert w.threads[1 := W.RegStoreEmpty][1 := W.SleepPark] == w.threads[1 := W.SleepPark];
  }

  lemma IsAboutToPark<T>(q: Queue<T>, q': Queue<T>)
    requires FoundEmpty(q) && Inv(q') && |q.readers.threads| == |q.readers.parked| > 1
    requires q' == Move(q, 1, WaitsReader).(readers := q.readers.(threads := q.readers.threads[1 := W.SleepPark], lock := None, empty := false,
      parked := q.readers.parked[1 := false], meta := W.Metadata([1], 0, false)))
    ensures AboutToPark(q')
  {
    hide Inv, C.Ready, M.IsClosed, Ready;
  }

  /** What the queue is to its readers' waker at the beginning of the wait. */
  lemma ReadersBlank<T>(q: Queue<T>)
    requires FoundEmpty(q)
    ensures |q.readers.threads| == |q.readers.parked| > 1 && W.AtRest(q.readers.threads[1]) && Blank(q.readers) && !q.readers.queueClosed
  {
    assert Sizes(q) && T.Inv(q.readers) && PlaceOk(q, 1);
  }

  lemma {:induction false} ComesToWait<T>(q: Queue<T>) returns (run: seq<Action<T>>)
    requires FoundEmpty(q)
    ensures var q' := Exec(q, run); AboutToPark(q') && |q'.phases| == |q.phases| && q'.ring == q.ring
  {
    BeginsToWait(q);
    ReadersBlank(q);
    var q2 := Next(Next(q, Step(1)), GiveUp(1));
    hide FoundEmpty, AboutToPark, Next, Exec, Inv, OnReaders, Blank, W.Next, W.AtRest;
    var more := WalksToPark(q2, q.readers);
    run := [] + [Step(1)] + [GiveUp(1)] + more;
    ExecSnoc(q, [], Step(1));
    ExecSnoc(q, [] + [Step(1)], GiveUp(1));
    ExecAppend(q, [] + [Step(1)] + [GiveUp(1)], more);
    ExecNone(q);
    IsAboutToPark(q, Exec(q, run));
  }

  lemma ExecNone<T>(q: Queue<T>)
    ensures Exec(q, []) == q
  {
  }

  // ---------------------------------------------------------------- the last send

  /** Thread 0 notifies while thread 1 is about to park: it takes no notice. */
  lemma VainOnwards(w: W.State)
    requires |w.threads| == |w.parked| > 1 && w.threads[0] == W.NoteEmpty && !w.empty && w.lock == None
    requires w.meta == W.Metadata([1], 0, false) && !w.parked[1]
    ensures forall k :: 0 <= k < 2 ==> Busy(Onwards(w, 0, k), 0)
    ensures Onwards(w, 0, 2) == w.(threads := w.threads[0 := W.NoteInside], lock := Some(0))
  {
    NoteInVain(w);
    OnwardsIs(w, 0);
    hide W.Next, Onwards;
    forall k | 0 <= k < 2 ensures Busy(Onwards(w, 0, k), 0) {
      assert k == 0 || k == 1;
    }
  }

  lemma ScanOnwards(w: W.State)
    requires |w.threads| == |w.parked| > 1 && w.threads[0] == W.NoteInside && w.meta == W.Metadata([1], 0, false) && !w.parked[1]
    ensures forall k :: 0 <= k < 2 ==> Busy(Onwards(w, 0, k), 0)
    ensures Onwards(w, 0, 2) == w.(threads := w.threads[0 := W.NoteScan(1)], meta := W.Metadata([1], 1, false))
  {
    NoteScansInVain(w);
    OnwardsIs(w, 0);
    hide W.Next, Onwards;
    forall k | 0 <= k < 2 ensures Busy(Onwards(w, 0, k), 0) {
      assert k == 0 || k == 1;
    }
  }

  lemma EndOnwards(w: W.State)
    requires |w.threads| > 1 && w.threads[0] == W.NoteScan(1) && w.meta == W.Metadata([1], 1, false)
    ensures forall k :: 0 <= k < 2 ==> Busy(Onwards(w, 0, k), 0)
    ensures Onwards(w, 0, 2) == w.(threads := w.threads[0 := W.NoteDone], lock := None)
  {
    NoteEndsInVain(w);
    OnwardsIs(w, 0);
    hide W.Next, Onwards;
    forall k | 0 <= k < 2 ensures Busy(Onwards(w, 0, k), 0) {
      assert k == 0 || k == 1;
    }
  }

  lemma {:induction false} OnwardsAdd(w: W.State, me: nat, m: nat, n: nat)
    ensures Onwards(Onwards(w, me, m), me, n) == Onwards(w, me, m + n)
  {
    hide W.Next;
    if n > 0 {
      OnwardsAdd(w, me, m, n - 1);
    }
  }

  /** The whole notification. */
  lemma WholeNoteInVain(w: W.State)
    requires |w.threads| == |w.parked| > 1 && w.threads[0] == W.NoteEmpty && !w.empty && w.lock == None
    requires w.meta == W.Metadata([1], 0, false) && !w.parked[1]
    ensures forall k :: 0 <= k < 6 ==> Busy(Onwards(w, 0, k), 0)
    ensures At(Onwards(w, 0, 6), 0, W.NoteDone) && At(Onwards(w, 0, 6), 1, w.threads[1])
  {
    hide W.Next, Onwards, Busy;
    VainOnwards(w);
    var w2 := Onwards(w, 0, 2);
    ScanOnwards(w2);
    var w4 := Onwards(w2, 0, 2);
    EndOnwards(w4);
    OnwardsAdd(w, 0, 2, 0);
    OnwardsAdd(w, 0, 2, 1);
    OnwardsAdd(w, 0, 2, 2);
    OnwardsAdd(w, 0, 4, 0);
    OnwardsAdd(w, 0, 4, 1);
    OnwardsAdd(w, 0, 4, 2);
    forall k | 0 <= k < 6 ensures Busy(Onwards(w, 0, k), 0) {
      if 2 <= k < 4 {
        assert Onwards(w, 0, k) == Onwards(w2, 0, k - 2);
      } else if 4 <= k {
        assert Onwards(w, 0, k) == Onwards(w4, 0, k - 4);
      }
    }
  }

  lemma {:induction false} NotifiesInVain<T>(q: Queue<T>) returns (run: seq<Action<T>>)
    requires Inv(q) && |q.phases| > 1 && q.phases[0].NotifiesReaders?
    requires |q.readers.threads| == |q.readers.parked| > 1 && q.readers.threads[0] == W.NoteEmpty && !q.readers.empty && q.readers.lock == None
    requires q.readers.meta == W.Metadata([1], 0, false) && !q.readers.parked[1]
    ensures var q' := Exec(q, run);
      && Inv(q') && |q'.phases| > 1 && |q'.readers.threads| > 1
      && q' == q.(phases := q.phases[0 := InRing], readers := q'.readers) && q'.readers.threads[1] == q.readers.threads[1]
  {
    assert OnReaders(q, 0);
    hide Inv, Next, W.Next, M.Next, Onwards, Busy, OnReaders, Exec;
    WholeNoteInVain(q.readers);
    ReaderMoves(q, 0, 6);
    NoteLeaves(Exec(q, Steps(0, 6)));
    run := Steps(0, 6) + [Step(0)];
    ExecSnoc(q, Steps(0, 6), Step(0));
  }

  lemma NoteLeaves<T>(q: Queue<T>)
    requires Inv(q) && |q.phases| > 0 && q.phases[0].NotifiesReaders? && |q.readers.threads| > 0 && q.readers.threads[0].NoteDone?
    ensures Has(q, 0) && Next(q, Step(0)) == Move(q, 0, InRing) && Inv(Next(q, Step(0)))
  {
    StepKeepsInv(q, Step(0));
    hide M.Next, W.Next, Inv;
  }

  /** The bit is set, the message published, the notification over; thread 1 is still about to park. */
  ghost predicate ClosedItself<T>(q: Queue<T>) {
    && Inv(q) && |q.phases| > 1 && M.IsClosed(q.ring) && M.AtRest(q.ring.threads[0]) && q.ring.threads[1].RWait?
    && q.phases[1].WaitsReader? && (forall p :: 0 <= p < |q.phases| && p != 1 ==> q.phases[p].InRing?)
    && (forall p :: 2 <= p < |q.phases| ==> q.ring.threads[p].Idle?)
    && q.readers.threads[1] == W.SleepPark
  }

  lemma UsedUpCloses<T>(r: M.Ring<T>)
    requires I.Inv(r) && UsedUp(r)
    ensures M.IsClosed(r)
  {
    I.WriteMetaFacts(r);
    I.WriteMetaFits(|r.sent|, |r.slots|);
    ClosedBit(r.writeMeta);
  }

  /** The ring's part of the last send. */
  lemma LastClaim<T>(r: M.Ring<T>, msg: T)
    requires C.Ready(r) && C.Room(r) && !M.IsClosed(r) && |r.sent| + 1 == I.MAX_ROUNDS * |r.slots|
    ensures var r1 := M.Next(r, M.StartSend(0, msg, false));
      && (forall k :: 0 <= k < 4 ==> |C.After(r1, k, 0).threads| > 0 && Plain(C.After(r1, k, 0).threads[0]))
      && |C.After(r1, 4, 0).threads| == |r.threads| && C.After(r1, 4, 0).threads[0].SPublish?
      && C.After(r1, 5, 0) == M.Next(C.After(r1, 4, 0), M.Advance(0))
      && M.IsClosed(C.After(r1, 5, 0)) && |C.After(r1, 5, 0).threads| == |r.threads| && M.AtRest(C.After(r1, 5, 0).threads[0])
      && forall p :: 1 <= p < |r.threads| ==> C.After(r1, 5, 0).threads[p] == r.threads[p]
  {
    var start := M.StartSend(0, msg, false);
    var r1 := M.Next(r, start);
    C.SendWalk(r, msg);
    assert I.Inv(r) && C.Calm(r) && I.Inv(C.After(r1, 5, 0));
    RingFacts(r, start);
    PlacesPlain(r1);
    UsedUpCloses(C.After(r1, 5, 0));
    C.AfterNext(r1, 5, 0);
    assert M.AtRest(C.After(r1, 5, 0).threads[0]);
    hide M.Next, I.Inv, C.Ready, C.Calm, M.IsClosed, C.After;
    C.AfterSize(r1, 5);
    C.AfterSize(r1, 4);
    forall p | 1 <= p < |r.threads| ensures C.After(r1, 5, 0).threads[p] == r.threads[p] {
      AfterOthers(r1, 5, 0, p);
    }
  }

  lemma CallThenMore<T>(q: Queue<T>, a: Action<T>, run: seq<Action<T>>, b: Action<T>, more: seq<Action<T>>)
    ensures Exec(q, [] + [a] + run + [b] + more) == Exec(Next(Exec(Next(q, a), run), b), more)
  {
    hide Next, Exec;
    ExecNone(q);
    ExecSnoc(q, [], a);
    ExecAppend(q, [] + [a], run);
    ExecSnoc(q, [] + [a] + run, b);
    ExecAppend(q, [] + [a] + run + [b], more);
  }

  lemma {:induction false} LastSend<T>(q: Queue<T>, msg: T) returns (run: seq<Action<T>>)
    requires AboutToPark(q) && C.Room(q.ring) && !M.IsClosed(q.ring) && |q.ring.sent| + 1 == I.MAX_ROUNDS * |q.ring.slots|
    ensures ClosedItself(Exec(q, run)) && |Exec(q, run).phases| == |q.phases|
  {
    var start := M.StartSend(0, msg, false);
    assert Sizes(q) && T.Inv(q.readers) && M.AtRest(q.ring.threads[0]);
    assert |q.readers.parked| == |q.readers.threads|;
    StartIs(q, start);
    LastClaim(q.ring, msg);
    var q1 := Next(q, Start(start));
    hide M.Next, Next, Inv, I.Inv, C.Ready, C.Calm, M.IsClosed, T.Inv, C.Room, C.After, Blank, M.AtRest, Exec;
    PlainSteps(q1, 0, 4);
    var q5 := Exec(q1, Steps(0, 4));
    PublishStarts(q5);
    var q6 := Next(q5, Step(0));
    var more := NotifiesInVain(q6);
    run := [] + [Start(start)] + Steps(0, 4) + [Step(0)] + more;
    CallThenMore(q, Start(start), Steps(0, 4), Step(0), more);
  }

  /** Thread 1 parks after all, and sleeps; the close of thread 0 finds the bit set. */
  lemma SleepsAtLast<T>(q: Queue<T>)
    requires ClosedItself(q)
    ensures var q' := Next(Next(q, Step(1)), Step(1));
      Inv(q') && |q'.phases| == |q.phases| && q' == q.(readers := q'.readers) && At(q'.readers, 1, W.Asleep)
  {
    assert Sizes(q) && T.Inv(q.readers);
    var w, q1 := q.readers, Next(q, Step(1));
    var b1 := Ready(q, 1);
    ThenSleeps(w, b1, b1);
    StepKeepsInv(q, Step(1));
    hide W.Next, M.Next, Inv, I.Inv, T.Inv, M.IsClosed;
    assert q1 == q.(readers := W.Next(w, W.Step(1, b1)));
    StepKeepsInv(q1, Step(1));
    assert Next(q1, Step(1)) == q1.(readers := W.Next(q1.readers, W.Step(1, b1)));
  }

  lemma ClosesInVain<T>(q: Queue<T>)
    requires Inv(q) && |q.phases| > 1 && M.IsClosed(q.ring) && M.AtRest(q.ring.threads[0]) && q.ring.threads[1].RWait?
    requires q.phases[1].WaitsReader? && (forall p :: 0 <= p < |q.phases| && p != 1 ==> q.phases[p].InRing?)
    requires (forall p :: 2 <= p < |q.phases| ==> q.ring.threads[p].Idle?) && At(q.readers, 1, W.Asleep)
    ensures Abandoned(Next(Next(q, Start(M.StartClose(0))), Step(0)), 1)
  {
    assert Sizes(q) && Flags(q);
    StartIs(q, M.StartClose(0));
    var q1 := Next(q, Start(M.StartClose(0)));
    TurnsBack(q.ring);
    assert Has(q1, 0);
    hide M.Next, W.Next, Inv, I.Inv, U.Enter;
    var q' := Next(q1, Step(0));
    assert q'.ring == M.Goto(q.ring, 0, M.CDone) && q'.readers == q1.readers && q'.phases == q.phases && q'.returned;
  }

  lemma TurnsBack<T>(r: M.Ring<T>)
    requires M.IsClosed(r) && |r.threads| > 0 && M.AtRest(r.threads[0])
    ensures var r1 := M.Next(r, M.StartClose(0));
      && r1 == M.Goto(r, 0, M.CLoad) && r1.writeMeta >= MASK64
      && M.Next(r1, M.Advance(0)) == M.Goto(r, 0, M.CDone) && M.IsClosed(M.Next(r1, M.Advance(0)))
  {
    ClosedBit(r.writeMeta);
  }

  /** The run, at every capacity and with any two threads or more. */
  lemma {:induction false} TwoThreadsAbandon<T>(cap: U32, threads: nat, msg: T) returns (run: seq<Action<T>>)
    requires cap <= MAX_CAPACITY && threads >= 2
    ensures Abandoned(Exec(Init<T>(cap, threads), run), 1)
  {
    var init, c := Init<T>(cap, threads), if cap > 0 then cap else 1;
    var trips := WholeRoundTrips(cap, threads, msg, I.MAX_ROUNDS * c - 1);
    StillOpen(cap, threads, trips);
    var q := Exec(init, trips);
    hide Next, M.Next, I.Inv, M.IsClosed, Exec, Still, Abandoned;
    var look := [Start(M.StartRecv(1, true))] + Steps(1, 3);
    LooksAtEmpty(q);
    var wait := ComesToWait(Exec(q, look));
    var q2 := Exec(Exec(q, look), wait);
    OpenStill(q, q2);
    var send := LastSend(q2, msg);
    var q3 := Exec(q2, send);
    SleepsAtLast(q3);
    var q4 := Next(Next(q3, Step(1)), Step(1));
    ClosesInVain(q4);
    run := trips + look + wait + send + [Step(1)] + [Step(1)] + [Start(M.StartClose(0))] + [Step(0)];
    ExecAppend(init, trips, look);
    ExecAppend(init, trips + look, wait);
    ExecAppend(init, trips + look + wait, send);
    ExecSnoc(init, trips + look + wait + send, Step(1));
    ExecSnoc(init, trips + look + wait + send + [Step(1)], Step(1));
    ExecSnoc(init, trips + look + wait + send + [Step(1)] + [Step(1)], Start(M.StartClose(0)));
    ExecSnoc(init, trips + look + wait + send + [Step(1)] + [Step(1)] + [Start(M.StartClose(0))], Step(0));
  }

  lemma OpenStill<T>(q: Queue<T>, q2: Queue<T>)
    requires |q.ring.threads| > 1 && q2.ring == M.Goto(q.ring, 1, M.RWait) && |q.ring.sent| == |q.ring.taken| && |q.ring.slots| > 0
    ensures M.IsClosed(q2.ring) == M.IsClosed(q.ring) && C.Room(q2.ring) && |q2.ring.sent| == |q.ring.sent| && |q2.ring.slots| == |q.ring.slots|
  {
  }

  // ---------------------------------------------------------------- exactly when

  /** Some run leaves a reader asleep for good. */
  ghost predicate CanAbandon<T(!new)>(cap: U32, threads: nat)
    requires cap <= MAX_CAPACITY
  {
    exists run: seq<Action<T>>, o: nat :: Abandoned(Exec(Init<T>(cap, threads), run), o)
  }

  /** That takes two threads, and no more, at any capacity. */
  lemma AbandonsIff<T(!new)>(cap: U32, threads: nat, msg: T)
    requires cap <= MAX_CAPACITY
    ensures CanAbandon<T>(cap, threads) <==> threads >= 2
  {
    hide Exec, Next, Abandoned;
    if threads >= 2 {
      var run := TwoThreadsAbandon(cap, threads, msg);
    } else {
      forall run: seq<Action<T>>, o: nat ensures !Abandoned(Exec(Init<T>(cap, threads), run), o) {
        FewAbandonNobody(cap, threads, run, o);
      }
    }
  }
}
