/** What the waker keeps, over all interleavings. */
module WakerTheorems {
  import opened Options
  import opened Waker

  /** Inside the critical section. */
  predicate Holds(pc: Pc) {
    || pc.RegInside? || pc.RegStoreEmpty? || pc.RegUnlock? || pc.RegUnlockFail?
    || pc.UnregInside? || pc.UnregStoreEmpty? || pc.UnregUnlock?
    || pc.NoteInside? || pc.NoteScan? || pc.NoteWake? || pc.NoteUnlock?
    || pc.CloseInside? || pc.CloseWake? || pc.CloseUnlock? || pc.CloseUnlockEnd?
  }

  /** Between the push of a successful `register` and the removal by `unregister`. */
  predicate Registered(pc: Pc) {
    || pc.RegStoreEmpty? || pc.RegUnlock?
    || pc.SleepClosed? || pc.SleepLap? || pc.SleepPark? || pc.SleepWait? || pc.Asleep? || pc.SleepUnpark?
    || pc.UnregLock? || pc.UnregInside?
  }

  /** Asleep, or past the last look at the closed flag before sleeping. */
  predicate Parking(pc: Pc) {
    pc.SleepLap? || pc.SleepPark? || pc.SleepWait? || pc.Asleep?
  }

  /** On the way out of a wait, or out, with the outcome Closed. */
  predicate SawClosed(pc: Pc) {
    (pc.SleepUnpark? || pc.UnregLock? || pc.UnregInside? || pc.UnregStoreEmpty? || pc.UnregUnlock? || pc.WaitDone?) && pc.out.Closed?
  }

  ghost predicate NoDup(ws: seq<nat>) {
    forall i, j :: 0 <= i < j < |ws| ==> ws[i] != ws[j]
  }

  /** The empty flag is about to be brought up to date. */
  predicate Updating(pc: Pc) {
    pc.RegStoreEmpty? || pc.UnregStoreEmpty?
  }

  ghost predicate ThreadOk(s: State, o: nat)
    requires o < |s.threads|
  {
    var pc := s.threads[o];
    && (Holds(pc) <==> s.lock == Some(o))
    && (Registered(pc) <==> o in s.meta.waiters)
    && ((pc.CloseLock? || pc.CloseInside? || pc.CloseWake? || pc.CloseUnlock? || pc.CloseUnlockEnd? || pc.CloseDone?) ==> s.queueClosed)
    && (pc.CloseUnlockEnd? ==> s.drained) && (pc.CloseDone? ==> s.closeReturned)
    && (SawClosed(pc) ==> s.queueClosed)
    && (s.drained ==> !Parking(pc))
    && (pc.NoteWake? ==> pc.idx < s.meta.start)
    && (pc.SleepWait? || pc.Asleep? ==> o < |s.parked| && s.parked[o])
    && !pc.Undefined?
  }

  /** What holds of the shared words; while a thread is between changing the list and the flag, the flag may lag. */
  ghost predicate Shared(s: State) {
    && |s.parked| == |s.threads|
    && NoDup(s.meta.waiters) && s.meta.start <= |s.meta.waiters|
    && (forall w :: w in s.meta.waiters ==> w < |s.threads|)
    && (s.lock.Some? ==> s.lock.value < |s.threads|)
    && ((s.lock.Some? && Updating(s.threads[s.lock.value])) || (s.empty <==> s.meta.waiters == []))
    && (s.drained ==> s.queueClosed) && (s.closeReturned ==> s.drained)
  }

  ghost predicate Inv(s: State) {
    Shared(s) && forall o :: 0 <= o < |s.threads| ==> ThreadOk(s, o)
  }

  lemma InitInv(threads: nat)
    ensures Inv(Init(threads))
  {
  }

  /** What a step of thread `me` may do to thread o. */
  ghost predicate Untouched(s: State, s': State, me: nat, o: nat)
    requires o < |s.threads| == |s'.threads|
  {
    && (s'.threads[o] == s.threads[o] || (s.threads[o].Asleep? && s'.threads[o].SleepClosed?))
    && (o in s'.meta.waiters <==> o in s.meta.waiters)
    && (o < |s.parked| ==> o < |s'.parked| && s'.parked[o] == s.parked[o])
  }

  /** What a step of thread `me` may do to the other threads and the shared words. */
  ghost predicate Mild(s: State, s': State, me: nat)
    requires me < |s.threads|
  {
    && |s'.threads| == |s.threads|
    && (s'.lock == s.lock || (s.lock == None && s'.lock == Some(me)) || (s.lock == Some(me) && s'.lock == None))
    && (s.queueClosed ==> s'.queueClosed) && (s.closeReturned ==> s'.closeReturned) && (s'.drained ==> s.drained || s'.meta.waiters == [])
    && (s.lock == Some(me) || s'.meta.start >= s.meta.start)
    && (s.drained ==> s'.drained)
    && forall o :: 0 <= o < |s.threads| && o != me ==> Untouched(s, s', me, o)
  }

  lemma OthersStayOk(s: State, s': State, me: nat)
    requires Inv(s) && me < |s.threads| && Mild(s, s', me)
    requires Shared(s') && ThreadOk(s', me)
    ensures Inv(s')
  {
    hide Shared, NoDup;
    forall o | 0 <= o < |s'.threads| ensures ThreadOk(s', o) {
      assert ThreadOk(s, o);
      if o != me {
        assert Untouched(s, s', me, o);
      }
    }
  }

  lemma UnregisterMembers(m: Metadata, w: nat)
    requires NoDup(m.waiters) && m.start <= |m.waiters| && w in m.waiters
    ensures NoDup(Unregister(m, w).waiters) && Unregister(m, w).start <= |Unregister(m, w).waiters|
    ensures forall x :: x in Unregister(m, w).waiters <==> x in m.waiters && x != w
  {
    var i, m' := IndexOf(m.waiters, w), Unregister(m, w);
    forall x ensures x in m'.waiters <==> x in m.waiters && x != w {
      if x in m.waiters && x != w {
        var j :| 0 <= j < |m.waiters| && m.waiters[j] == x;
        assert if j < i then m'.waiters[j] == x else m'.waiters[j - 1] == x;
      }
    }
  }

  // ---------------------------------------------------------------- one step, kind by kind

  predicate Waking(pc: Pc) {
    pc.NoteWake? || pc.CloseWake?
  }

  /** What has to be shown of a step by thread `me`. */
  ghost predicate Good(s: State, s': State, me: nat)
    requires me < |s.threads|
  {
    Mild(s, s', me) && Shared(s') && ThreadOk(s', me)
  }

  /** A step that moves its thread, and may take or release the lock. */
  lemma MoveIsGood(s: State, s': State, me: nat, pc: Pc)
    requires Shared(s) && me < |s.threads| && !Updating(s.threads[me]) && !Updating(pc)
    requires s' == s.(threads := s.threads[me := pc], parked := s'.parked, lock := s'.lock, closeReturned := s'.closeReturned)
    requires |s'.parked| == |s.parked| && forall o :: 0 <= o < |s.parked| && o != me ==> s'.parked[o] == s.parked[o]
    requires (s'.closeReturned ==> s.drained) && (s.closeReturned ==> s'.closeReturned)
    requires s'.lock == s.lock || (s.lock == None && s'.lock == Some(me)) || (s.lock == Some(me) && s'.lock == None)
    requires ThreadOk(s', me)
    ensures Good(s, s', me)
  {
    hide NoDup, ThreadOk, Updating;
    assert forall o :: 0 <= o < |s.threads| && o != me ==> Untouched(s, s', me, o);
  }

  lemma WaiterAcquireIsGood(s: State, me: nat, ready: bool)
    requires Shared(s) && me < |s.threads| && ThreadOk(s, me) && (s.threads[me].RegLock? || s.threads[me].UnregLock?)
    ensures Good(s, Next(s, Step(me, ready)), me)
  {
    hide NoDup, Good, NoteStep, CloseStep;
    var s' := Next(s, Step(me, ready));
    MoveIsGood(s, s', me, s'.threads[me]);
  }

  lemma OtherAcquireIsGood(s: State, me: nat, ready: bool)
    requires Shared(s) && me < |s.threads| && ThreadOk(s, me) && (s.threads[me].NoteLock? || s.threads[me].CloseLock?)
    ensures Good(s, Next(s, Step(me, ready)), me)
  {
    hide NoDup, Good, EnterStep, SleepStep;
    var s' := Next(s, Step(me, ready));
    MoveIsGood(s, s', me, s'.threads[me]);
  }

  lemma WaiterReleaseIsGood(s: State, me: nat, ready: bool)
    requires Shared(s) && me < |s.threads| && ThreadOk(s, me) && (s.threads[me].RegUnlock? || s.threads[me].RegUnlockFail? || s.threads[me].UnregUnlock?)
    ensures Good(s, Next(s, Step(me, ready)), me)
  {
    hide NoDup, Good, NoteStep, CloseStep;
    var s' := Next(s, Step(me, ready));
    MoveIsGood(s, s', me, s'.threads[me]);
  }

  lemma OtherReleaseIsGood(s: State, me: nat, ready: bool)
    requires Shared(s) && me < |s.threads| && ThreadOk(s, me) && (s.threads[me].NoteUnlock? || s.threads[me].CloseUnlock? || s.threads[me].CloseUnlockEnd?)
    ensures Good(s, Next(s, Step(me, ready)), me)
  {
    hide NoDup, Good, EnterStep, SleepStep;
    var s' := Next(s, Step(me, ready));
    MoveIsGood(s, s', me, s'.threads[me]);
  }

  lemma RegisterIsGood(s: State, me: nat, ready: bool)
    requires Shared(s) && me < |s.threads| && ThreadOk(s, me) && s.threads[me].RegInside?
    ensures Good(s, Next(s, Step(me, ready)), me)
  {
    hide NoteStep, CloseStep;
  }

  lemma UnregisterIsGood(s: State, me: nat, ready: bool)
    requires Shared(s) && me < |s.threads| && ThreadOk(s, me) && s.threads[me].UnregInside?
    ensures Good(s, Next(s, Step(me, ready)), me)
  {
    UnregisterMembers(s.meta, me);
    hide NoDup, IndexOf, Unregister;
  }

  lemma ReachIsGood(s: State, me: nat, ready: bool)
    requires Shared(s) && me < |s.threads| && ThreadOk(s, me) && (s.threads[me].NoteInside? || s.threads[me].CloseInside?)
    ensures Good(s, Next(s, Step(me, ready)), me)
  {
    hide NoDup;
  }

  lemma WakeIsGood(s: State, me: nat, ready: bool)
    requires Shared(s) && me < |s.threads| && ThreadOk(s, me) && Waking(s.threads[me])
    ensures Good(s, Next(s, Step(me, ready)), me)
  {
    hide NoDup;
  }

  lemma StoreEmptyIsGood(s: State, me: nat, ready: bool)
    requires Shared(s) && me < |s.threads| && ThreadOk(s, me) && Updating(s.threads[me])
    ensures Good(s, Next(s, Step(me, ready)), me)
  {
    hide NoDup, NoteStep, CloseStep;
  }

  lemma CloseFlagIsGood(s: State, me: nat, ready: bool)
    requires Shared(s) && me < |s.threads| && ThreadOk(s, me) && s.threads[me].CloseFlag?
    ensures Good(s, Next(s, Step(me, ready)), me)
  {
    hide NoDup, EnterStep, SleepStep, NoteStep;
  }

  lemma ScanIsGood(s: State, me: nat, ready: bool)
    requires Shared(s) && me < |s.threads| && ThreadOk(s, me) && s.threads[me].NoteScan?
    ensures Good(s, Next(s, Step(me, ready)), me)
  {
    hide NoDup;
    var idx := s.threads[me].idx;
    if idx < s.meta.start {
      assert s.meta.waiters[idx] in s.meta.waiters;
    }
  }

  lemma RetryIsGood(s: State, me: nat, ready: bool)
    requires Shared(s) && me < |s.threads| && ThreadOk(s, me) && (s.threads[me].RetryClosed? || s.threads[me].RetryLap?)
    ensures Good(s, Next(s, Step(me, ready)), me)
  {
    hide NoDup, Good, NoteStep, CloseStep;
    var s' := Next(s, Step(me, ready));
    MoveIsGood(s, s', me, s'.threads[me]);
  }

  lemma LookIsGood(s: State, me: nat, ready: bool)
    requires Shared(s) && me < |s.threads| && ThreadOk(s, me) && (s.threads[me].SleepClosed? || s.threads[me].SleepLap?)
    ensures Good(s, Next(s, Step(me, ready)), me)
  {
    hide NoDup, Good, NoteStep, CloseStep;
    var s' := Next(s, Step(me, ready));
    MoveIsGood(s, s', me, s'.threads[me]);
  }

  lemma ParkIsGood(s: State, me: nat, ready: bool)
    requires Shared(s) && me < |s.threads| && ThreadOk(s, me) && (s.threads[me].SleepPark? || s.threads[me].SleepWait? || s.threads[me].SleepUnpark?)
    ensures Good(s, Next(s, Step(me, ready)), me)
  {
    hide NoDup, Good, NoteStep, CloseStep;
    var s' := Next(s, Step(me, ready));
    MoveIsGood(s, s', me, s'.threads[me]);
  }

  lemma NoteEmptyIsGood(s: State, me: nat, ready: bool)
    requires Shared(s) && me < |s.threads| && ThreadOk(s, me) && s.threads[me].NoteEmpty?
    ensures Good(s, Next(s, Step(me, ready)), me)
  {
    hide NoDup, Good, EnterStep, SleepStep, CloseStep;
    var s' := Next(s, Step(me, ready));
    MoveIsGood(s, s', me, s'.threads[me]);
  }

  lemma StayIsGood(s: State, me: nat)
    requires Shared(s) && me < |s.threads| && ThreadOk(s, me)
    ensures Good(s, s, me)
  {
    hide Shared, ThreadOk;
  }

  lemma StepKeepsInv(s: State, a: Action)
    requires Inv(s)
    ensures Inv(Next(s, a))
  {
    if a.me < |s.threads| {
      StepIsGood(s, a);
      OthersStayOk(s, Next(s, a), a.me);
    }
  }

  lemma StepIsGood(s: State, a: Action)
    requires Inv(s) && a.me < |s.threads|
    ensures Good(s, Next(s, a), a.me)
  {
    hide Good, Shared, ThreadOk, Next;
    assert Shared(s) && ThreadOk(s, a.me);
    if Next(s, a) == s {
      StayIsGood(s, a.me);
    } else if a.Step? {
      AccessIsGood(s, a.me, a.ready);
    } else if a.RaiseFlag? {
      RaiseIsGood(s, a.me);
    } else {
      CallIsGood(s, a);
    }
  }

  lemma RaiseIsGood(s: State, me: nat)
    requires Shared(s) && me < |s.threads| && ThreadOk(s, me)
    ensures Good(s, Next(s, RaiseFlag(me)), me)
  {
    hide NoDup;
  }

  lemma CallIsGood(s: State, a: Action)
    requires Shared(s) && a.me < |s.threads| && ThreadOk(s, a.me) && !a.Step? && !a.RaiseFlag? && Next(s, a) != s
    ensures Good(s, Next(s, a), a.me)
  {
    hide NoDup, Good, EnterStep, SleepStep, NoteStep, CloseStep;
    var s' := Next(s, a);
    MoveIsGood(s, s', a.me, s'.threads[a.me]);
  }

  lemma AccessIsGood(s: State, me: nat, ready: bool)
    requires Shared(s) && me < |s.threads| && ThreadOk(s, me)
    requires Next(s, Step(me, ready)) != s
    ensures Good(s, Next(s, Step(me, ready)), me)
  {
    hide Good, Shared, ThreadOk, EnterStep, SleepStep, NoteStep;
    match s.threads[me]
    case RetryClosed | RetryLap => RetryIsGood(s, me, ready);
    case RegLock | UnregLock(_) => WaiterAcquireIsGood(s, me, ready);
    case NoteLock | CloseLock => OtherAcquireIsGood(s, me, ready);
    case RegUnlock | RegUnlockFail | UnregUnlock(_) => WaiterReleaseIsGood(s, me, ready);
    case NoteUnlock | CloseUnlock | CloseUnlockEnd => OtherReleaseIsGood(s, me, ready);
    case RegInside => RegisterIsGood(s, me, ready);
    case UnregInside(_) => UnregisterIsGood(s, me, ready);
    case NoteInside | CloseInside => ReachIsGood(s, me, ready);
    case NoteWake(_) | CloseWake(_) => WakeIsGood(s, me, ready);
    case RegStoreEmpty | UnregStoreEmpty(_) => StoreEmptyIsGood(s, me, ready);
    case CloseFlag => CloseFlagIsGood(s, me, ready);
    case NoteScan(_) => ScanIsGood(s, me, ready);
    case SleepClosed | SleepLap => LookIsGood(s, me, ready);
    case SleepPark | SleepWait | SleepUnpark(_) => ParkIsGood(s, me, ready);
    case NoteEmpty => NoteEmptyIsGood(s, me, ready);
    case Idle | WaitDone(_) | NoteDone | CloseDone | Asleep | Undefined =>
  }

  lemma {:induction false} RunKeepsInv(s: State, run: seq<Action>)
    requires Inv(s)
    ensures Inv(Exec(s, run))
  {
    if run != [] {
      RunKeepsInv(s, run[..|run| - 1]);
      StepKeepsInv(Exec(s, run[..|run| - 1]), run[|run| - 1]);
    }
  }

  // ---------------------------------------------------------------- main results

  /**
   The list in step with the threads: a pointer in it belongs to a thread between a successful `register` and its
   `unregister`, and the reverse; `notify` never runs past its end; with the lock free the flag is exact.
   */
  ghost predicate ListSound(s: State) {
    && NoDup(s.meta.waiters) && s.meta.start <= |s.meta.waiters|
    && (forall w :: w in s.meta.waiters ==> w < |s.threads|)
    && (forall o :: 0 <= o < |s.threads| ==> (Registered(s.threads[o]) <==> o in s.meta.waiters) && !s.threads[o].Undefined?)
    && (s.lock == None ==> (s.empty <==> s.meta.waiters == []))
  }

  lemma {:induction false} ListIsSound(threads: nat, run: seq<Action>)
    ensures ListSound(Exec(Init(threads), run))
  {
    InitInv(threads);
    RunKeepsInv(Init(threads), run);
    InvIsSound(Exec(Init(threads), run));
  }

  lemma InvIsSound(s: State)
    requires Inv(s)
    ensures ListSound(s)
  {
    hide NoDup, Registered, Holds, Parking;
    forall o | 0 <= o < |s.threads| ensures (Registered(s.threads[o]) <==> o in s.meta.waiters) && !s.threads[o].Undefined? {
      assert ThreadOk(s, o);
    }
  }

  /** The lock excludes: two threads are never inside together. */
  lemma {:induction false} LockExcludes(threads: nat, run: seq<Action>, a: nat, b: nat)
    requires var s := Exec(Init(threads), run); a < |s.threads| && b < |s.threads| && Holds(s.threads[a]) && Holds(s.threads[b])
    ensures a == b
  {
    InitInv(threads);
    RunKeepsInv(Init(threads), run);
    var s := Exec(Init(threads), run);
    assert ThreadOk(s, a) && ThreadOk(s, b);
  }

  lemma {:induction false} HistoryStays(s: State, more: seq<Action>)
    ensures s.closeReturned ==> Exec(s, more).closeReturned
    ensures s.queueClosed ==> Exec(s, more).queueClosed
    ensures |Exec(s, more).threads| == |s.threads|
  {
    if more != [] {
      HistoryStays(s, more[..|more| - 1]);
    }
  }

  lemma {:induction false} ExecAppend(s: State, run: seq<Action>, more: seq<Action>)
    ensures Exec(Exec(s, run), more) == Exec(s, run + more)
  {
    if more == [] {
      assert run + more == run;
    } else {
      ExecAppend(s, run, more[..|more| - 1]);
      assert (run + more)[..|run + more| - 1] == run + more[..|more| - 1];
    }
  }

  /** Once some `close` has returned, no thread is asleep or about to sleep, then or in any later state. */
  lemma {:induction false} NoParkingAfterClose(threads: nat, run: seq<Action>, more: seq<Action>, o: nat)
    requires Exec(Init(threads), run).closeReturned && o < threads
    ensures var s := Exec(Exec(Init(threads), run), more); |s.threads| == threads && !Parking(s.threads[o])
  {
    var s := Exec(Exec(Init(threads), run), more);
    InitInv(threads);
    RunKeepsInv(Init(threads), run);
    RunKeepsInv(Exec(Init(threads), run), more);
    HistoryStays(Init(threads), run);
    HistoryStays(Exec(Init(threads), run), more);
    assert ThreadOk(s, o);
  }

  function Alone(me: nat, k: nat): (run: seq<Action>) { seq(k, _ => Step(me, false)) }

  /** A `close` finds a waiter in the list, and sets the mark. */
  ghost predicate FindsSomebody(s: State, a: Action) {
    a.Step? && a.me < |s.threads| && s.threads[a.me].CloseInside? && s.meta.waiters != []
  }

  lemma EnterKeepsMark(s: State, me: nat, ready: bool)
    requires me < |s.threads|
    ensures EnterStep(s, me, ready).meta.closed == s.meta.closed
  {
  }

  lemma SleepKeepsMark(s: State, me: nat, ready: bool)
    requires me < |s.threads|
    ensures SleepStep(s, me, ready).meta.closed == s.meta.closed
  {
    hide Unregister;
  }

  lemma NoteKeepsMark(s: State, me: nat)
    requires me < |s.threads|
    ensures NoteStep(s, me).meta.closed == s.meta.closed
  {
  }

  lemma CloseSetsMark(s: State, me: nat)
    requires me < |s.threads|
    ensures CloseStep(s, me).meta.closed <==> s.meta.closed || (s.threads[me].CloseInside? && s.meta.waiters != [])
  {
  }

  lemma MarkStep(s: State, a: Action)
    ensures Next(s, a).meta.closed <==> s.meta.closed || FindsSomebody(s, a)
  {
    if a.me < |s.threads| && a.Step? {
      EnterKeepsMark(s, a.me, a.ready);
      SleepKeepsMark(s, a.me, a.ready);
      NoteKeepsMark(s, a.me);
      CloseSetsMark(s, a.me);
    }
    hide EnterStep, SleepStep, NoteStep, CloseStep;
  }

  /** Some `close` of the run found somebody. */
  ghost predicate FoundSomebody(s: State, run: seq<Action>) {
    exists k :: 0 <= k < |run| && FindsSomebody(Exec(s, run[..k]), run[k])
  }

  lemma FoundSnoc(s: State, run: seq<Action>)
    requires run != []
    ensures FoundSomebody(s, run)
      <==> FoundSomebody(s, run[..|run| - 1]) || FindsSomebody(Exec(s, run[..|run| - 1]), run[|run| - 1])
  {
    hide Exec, FindsSomebody;
    var n := |run| - 1;
    assert forall k :: 0 <= k < n ==> run[..n][..k] == run[..k] && run[..n][k] == run[k];
  }

  /** Yet the metadata need not say closed: the mark is set exactly if some `close` in the run found somebody in the list. */
  lemma {:induction false} MarkExact(threads: nat, run: seq<Action>)
    ensures Exec(Init(threads), run).meta.closed <==> FoundSomebody(Init(threads), run)
  {
    if run != [] {
      hide Next, FindsSomebody, FoundSomebody;
      MarkExact(threads, run[..|run| - 1]);
      FoundSnoc(Init(threads), run);
      MarkStep(Exec(Init(threads), run[..|run| - 1]), run[|run| - 1]);
    }
  }

  lemma CloserSteps(s: State, me: nat, ready: bool)
    requires me < |s.threads| && Closing(s.threads[me])
    ensures Next(s, Step(me, ready)) == CloseStep(s, me)
  {
    hide EnterStep, SleepStep, NoteStep, CloseStep;
  }

  lemma AloneFirst(s: State, me: nat, k: nat)
    ensures Exec(s, Alone(me, 0)) == s
    ensures Exec(s, Alone(me, k + 1)) == Exec(Next(s, Step(me, false)), Alone(me, k))
  {
    hide Next;
    ExecAppend(s, [Step(me, false)], Alone(me, k));
    assert [Step(me, false)] + Alone(me, k) == Alone(me, k + 1);
    assert [Step(me, false)][..0] == [] && Exec(s, [Step(me, false)]) == Next(Exec(s, []), Step(me, false));
  }

  lemma OwnParking(s: State, me: nat, ready: bool)
    requires s.queueClosed && me < |s.threads| && Sleeping(s.threads[me]) && Parking(SleepStep(s, me, ready).threads[me])
    ensures Parking(s.threads[me])
  {
    hide Unregister;
  }

  lemma EnterParks(s: State, me: nat, ready: bool, o: nat)
    requires me < |s.threads| && o < |s.threads| && Entering(s.threads[me])
    ensures if o == me then !Parking(EnterStep(s, me, ready).threads[o]) else EnterStep(s, me, ready).threads[o] == s.threads[o]
  {
    hide Register;
  }

  lemma NoteParks(s: State, me: nat)
    requires me < |s.threads| && Noting(s.threads[me])
    ensures !Parking(NoteStep(s, me).threads[me])
  {
    hide Reach, Parking;
    if s.threads[me].NoteWake? && s.threads[me].idx < |s.meta.waiters| {
      WakeMoves(Goto(s, me, NoteScan(s.threads[me].idx + 1)), s.meta.waiters[s.threads[me].idx], me);
      hide Wake;
    }
    NotParking(NoteStep(s, me).threads[me]);
  }

  lemma WakeMoves(s: State, w: nat, o: nat)
    requires o < |s.threads|
    ensures Wake(s, w).threads[o] == s.threads[o] || (Wake(s, w).threads[o].SleepClosed? && s.threads[o].Asleep?)
  {
  }

  lemma NotParking(pc: Pc)
    requires pc.NoteDone? || pc.NoteLock? || pc.NoteInside? || pc.NoteScan? || pc.NoteWake? || pc.NoteUnlock? || pc.Undefined?
      || pc.CloseLock? || pc.CloseInside? || pc.CloseWake? || pc.CloseUnlock? || pc.CloseUnlockEnd? || pc.CloseDone?
    ensures !Parking(pc)
  {
  }

  lemma NoteWakesOnly(s: State, me: nat, o: nat)
    requires me < |s.threads| && o < |s.threads| && o != me
    ensures NoteStep(s, me).threads[o] == s.threads[o] || NoteStep(s, me).threads[o].SleepClosed?
  {
    if s.threads[me].NoteWake? && s.threads[me].idx < |s.meta.waiters| {
      WakeMoves(Goto(s, me, NoteScan(s.threads[me].idx + 1)), s.meta.waiters[s.threads[me].idx], o);
    }
    hide Reach, Wake;
  }

  lemma CloseParks(s: State, me: nat)
    requires me < |s.threads| && Closing(s.threads[me])
    ensures !Parking(CloseStep(s, me).threads[me])
  {
    hide Parking;
    if s.threads[me].CloseWake? && s.threads[me].idx < |s.meta.waiters| {
      WakeMoves(Goto(s, me, CloseWake(s.threads[me].idx + 1)), s.meta.waiters[s.threads[me].idx], me);
      hide Wake;
    }
    NotParking(CloseStep(s, me).threads[me]);
  }

  lemma CloseWakesOnly(s: State, me: nat, o: nat)
    requires me < |s.threads| && o < |s.threads| && o != me
    ensures CloseStep(s, me).threads[o] == s.threads[o] || CloseStep(s, me).threads[o].SleepClosed?
  {
    if s.threads[me].CloseWake? && s.threads[me].idx < |s.meta.waiters| {
      WakeMoves(Goto(s, me, CloseWake(s.threads[me].idx + 1)), s.meta.waiters[s.threads[me].idx], o);
    }
    hide Wake;
  }

  lemma SleeperMovesItself(s: State, me: nat, ready: bool, o: nat)
    requires me < |s.threads| && o < |s.threads| && o != me
    ensures SleepStep(s, me, ready).threads[o] == s.threads[o]
  {
    hide Unregister;
  }

  /** With the queue's flag set, no step takes a thread into parking: the sleepers only get fewer. */
  lemma ParkingOnlyShrinks(s: State, a: Action, o: nat)
    requires s.queueClosed && o < |s.threads| && Parking(Next(s, a).threads[o])
    ensures Parking(s.threads[o])
  {
    if a.me < |s.threads| {
      var pc := s.threads[a.me];
      if !a.Step? {
        CallParks(s, a, o);
      } else if Entering(pc) {
        hide EnterStep, SleepStep, NoteStep, CloseStep;
        EnterParks(s, a.me, a.ready, o);
      } else if Sleeping(pc) {
        hide *;
        if a.me == o {
          OwnParking(s, a.me, a.ready);
        } else {
          SleeperMovesItself(s, a.me, a.ready, o);
        }
      } else if Noting(pc) {
        hide EnterStep, SleepStep, NoteStep, CloseStep;
        if a.me == o {
          NoteParks(s, o);
        } else {
          NoteWakesOnly(s, a.me, o);
        }
      } else if Closing(pc) {
        hide EnterStep, SleepStep, NoteStep, CloseStep;
        if a.me == o {
          CloseParks(s, o);
        } else {
          CloseWakesOnly(s, a.me, o);
        }
      }
    }
  }

  lemma CallParks(s: State, a: Action, o: nat)
    requires !a.Step? && o < |s.threads| && Parking(Next(s, a).threads[o])
    ensures Parking(s.threads[o])
  {
    hide EnterStep, SleepStep, NoteStep, CloseStep;
  }

  lemma {:induction false} ParkingOnlyShrinksRun(s: State, more: seq<Action>, o: nat)
    requires s.queueClosed && o < |s.threads| == |Exec(s, more).threads| && Parking(Exec(s, more).threads[o])
    ensures Parking(s.threads[o])
  {
    hide Next, Parking;
    if more != [] {
      HistoryStays(s, more[..|more| - 1]);
      ParkingOnlyShrinks(Exec(s, more[..|more| - 1]), more[|more| - 1], o);
      ParkingOnlyShrinksRun(s, more[..|more| - 1], o);
    }
  }

  /** The sleepers a sweep has still to reach stand in the list from its position on. */
  ghost predicate SweepsOn(s: State, me: nat, idx: nat) {
    && me < |s.threads| && s.threads[me] == CloseWake(idx) && idx <= |s.meta.waiters|
    && forall o :: 0 <= o < |s.threads| && s.threads[o].Asleep? ==> o in s.meta.waiters[idx..]
  }

  lemma SweepStep(s: State, me: nat, idx: nat)
    requires SweepsOn(s, me, idx) && idx < |s.meta.waiters| && me != s.meta.waiters[idx]
    ensures CloseStep(s, me).meta == s.meta && SweepsOn(CloseStep(s, me), me, idx + 1)
  {
    var w := s.meta.waiters[idx];
    assert s.meta.waiters[idx..] == [w] + s.meta.waiters[idx + 1..];
    var s' := CloseStep(s, me);
    assert s' == Wake(Goto(s, me, CloseWake(idx + 1)), w);
    hide CloseStep;
    forall o | 0 <= o < |s'.threads| && s'.threads[o].Asleep? ensures o in s.meta.waiters[idx + 1..] {
      assert s.threads[o].Asleep? && o != w;
    }
  }

  lemma SweepEnd(s: State, me: nat)
    requires SweepsOn(s, me, |s.meta.waiters|)
    ensures var s' := CloseStep(s, me);
      |s'.threads| == |s.threads| && s'.threads[me].CloseUnlock? && forall o :: 0 <= o < |s.threads| ==> !s'.threads[o].Asleep?
  {
  }

  /** A sweep of `close`, run on its own, leaves nobody asleep. */
  lemma {:induction false} SweepWakesAll(s: State, me: nat, idx: nat)
    requires Inv(s) && SweepsOn(s, me, idx)
    ensures var s' := Exec(s, Alone(me, |s.meta.waiters| - idx + 1));
      |s'.threads| == |s.threads| && s'.threads[me].CloseUnlock? && forall o :: 0 <= o < |s.threads| ==> !s'.threads[o].Asleep?
    decreases |s.meta.waiters| - idx
  {
    var n := |s.meta.waiters|;
    CloserSteps(s, me, false);
    AloneFirst(s, me, n - idx);
    if idx < n {
      StepKeepsInv(s, Step(me, false));
      assert ThreadOk(s, me);
      assert s.meta.waiters[idx] in s.meta.waiters;
      hide Next, Inv, CloseStep, Exec;
      SweepStep(s, me, idx);
      SweepWakesAll(CloseStep(s, me), me, idx + 1);
    } else {
      hide Next, Inv, CloseStep, Exec;
      SweepEnd(s, me);
      AloneFirst(CloseStep(s, me), me, 0);
    }
  }

  /** When `close` has taken the lock and found somebody, the sweep it starts reaches every sleeper. */
  lemma SweepStarts(s: State, me: nat)
    requires Inv(s) && me < |s.threads| && s.threads[me].CloseInside? && s.meta.waiters != []
    ensures SweepsOn(CloseStep(s, me), me, 0)
  {
    hide NoDup;
    var s' := CloseStep(s, me);
    forall o | 0 <= o < |s'.threads| && s'.threads[o].Asleep? ensures o in s'.meta.waiters {
      assert ThreadOk(s, o);
    }
  }
}
