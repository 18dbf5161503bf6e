/**
 How long `close` goes round on a waker: as long as somebody is in the list, and the waiters need a bounded number of steps,
 once the flag is set, to leave it for good.
 */
module WakerClosing {
  import opened Options
  import opened Waker
  import opened WakerTheorems

  // ---------------------------------------------------------------- running alone

  /** Inside the loop of a close that has found somebody, or has yet to look. */
  predicate Sweeping(pc: Pc) {
    pc.CloseLock? || pc.CloseInside? || pc.CloseWake? || pc.CloseUnlock?
  }

  ghost predicate Spins(w: State, me: nat, ws: seq<nat>) {
    && me < |w.threads| && Sweeping(w.threads[me]) && w.meta.waiters == ws
    && (w.lock == None || w.lock == Some(me)) && (w.threads[me].CloseLock? ==> w.lock == None)
  }

  lemma SpinStep(w: State, me: nat, ws: seq<nat>)
    requires Spins(w, me, ws) && ws != [] && me !in ws
    ensures Spins(CloseStep(w, me), me, ws)
  {
  }

  lemma {:induction false} SpinsAlone(w: State, me: nat, ws: seq<nat>, n: nat)
    requires Spins(w, me, ws) && ws != [] && me !in ws
    ensures Spins(Exec(w, Alone(me, n)), me, ws)
  {
    hide Next, CloseStep;
    if n > 0 {
      SpinsAlone(w, me, ws, n - 1);
      var w1 := Exec(w, Alone(me, n - 1));
      CloserSteps(w1, me, false);
      SpinStep(w1, me, ws);
      assert Alone(me, n)[..n - 1] == Alone(me, n - 1);
    }
  }

  lemma EndsInThree(w: State, me: nat)
    requires me < |w.threads| && w.threads[me].CloseLock? && w.lock == None && w.meta.waiters == []
    ensures var w' := Exec(w, Alone(me, 3)); |w'.threads| == |w.threads| && w'.threads[me].CloseDone?
  {
    var w1 := w.(lock := Some(me), threads := w.threads[me := CloseInside]);
    var w2 := w1.(empty := true, drained := true, threads := w.threads[me := CloseUnlockEnd]);
    var w3 := w2.(lock := None, closeReturned := true, threads := w.threads[me := CloseDone]);
    assert CloseStep(w, me) == w1;
    assert CloseStep(w1, me) == w2;
    assert CloseStep(w2, me) == w3;
    hide Next, CloseStep, Exec;
    CloserSteps(w, me, false);
    CloserSteps(w1, me, false);
    CloserSteps(w2, me, false);
    AloneFirst(w, me, 2);
    AloneFirst(w1, me, 1);
    AloneFirst(w2, me, 0);
    AloneFirst(w3, me, 0);
  }

  /** With the lock free, `close` running alone comes back if and only if nobody is in the list. */
  lemma CloseComesBack(w: State, me: nat)
    requires Inv(w) && me < |w.threads| && w.threads[me].CloseLock? && w.lock == None
    ensures (exists n: nat :: me < |Exec(w, Alone(me, n)).threads| && Exec(w, Alone(me, n)).threads[me].CloseDone?) <==> w.meta.waiters == []
  {
    if w.meta.waiters == [] {
      EndsInThree(w, me);
      HistoryStays(w, Alone(me, 3));
    } else {
      assert ThreadOk(w, me);
      forall n: nat ensures Spins(Exec(w, Alone(me, n)), me, w.meta.waiters) {
        SpinsAlone(w, me, w.meta.waiters, n);
      }
    }
  }

  // ---------------------------------------------------------------- what the waiters still owe

  /** How many steps at most a wait has before it once the flag is set. */
  function WaitRank(pc: Pc): (n: nat)
    ensures n <= 12
  {
    match pc
    case RetryLap => 12
    case RetryClosed => 11
    case RegLock => 10
    case RegInside => 9
    case RegStoreEmpty => 8
    case RegUnlock => 7
    case SleepLap => 10
    case SleepPark => 9
    case SleepWait => 8
    case Asleep => 7
    case SleepClosed => 6
    case SleepUnpark(_) => 5
    case UnregLock(_) => 4
    case UnregInside(_) => 3
    case UnregStoreEmpty(_) => 2
    case UnregUnlock(_) => 1
    case RegUnlockFail => 1
    case _ => 0
  }

  function Debt(ts: seq<Pc>): nat {
    if ts == [] then 0 else Debt(ts[..|ts| - 1]) + WaitRank(ts[|ts| - 1])
  }

  lemma {:induction false} DebtBound(ts: seq<Pc>)
    ensures Debt(ts) <= 12 * |ts|
  {
    if ts != [] {
      DebtBound(ts[..|ts| - 1]);
    }
  }

  lemma {:induction false} DebtFalls(ts: seq<Pc>, ts': seq<Pc>, me: nat)
    requires |ts'| == |ts| && forall o :: 0 <= o < |ts| ==> WaitRank(ts'[o]) <= WaitRank(ts[o])
    ensures Debt(ts') <= Debt(ts)
    ensures me < |ts| && WaitRank(ts'[me]) < WaitRank(ts[me]) ==> Debt(ts') < Debt(ts)
  {
    if ts != [] {
      DebtFalls(ts[..|ts| - 1], ts'[..|ts| - 1], me);
    }
  }

  lemma {:induction false} NoDebt(ts: seq<Pc>, o: nat)
    requires Debt(ts) == 0 && o < |ts|
    ensures WaitRank(ts[o]) == 0
  {
    if o < |ts| - 1 {
      NoDebt(ts[..|ts| - 1], o);
    }
  }

  /** Not a step, or one step less to go. */
  predicate Pays(pc: Pc, pc': Pc) {
    pc' == pc || WaitRank(pc') < WaitRank(pc)
  }

  lemma RetryPays(w: State, me: nat, ready: bool)
    requires me < |w.threads| && (w.threads[me].RetryClosed? || w.threads[me].RetryLap?) && w.queueClosed
    ensures Pays(w.threads[me], EnterStep(w, me, ready).threads[me])
  {
  }

  lemma RegisterPays(w: State, me: nat, ready: bool)
    requires me < |w.threads| && (w.threads[me].RegLock? || w.threads[me].RegInside? || w.threads[me].RegStoreEmpty?) && w.queueClosed
    ensures Pays(w.threads[me], EnterStep(w, me, ready).threads[me])
  {
    hide Register;
  }

  lemma RegisteredPays(w: State, me: nat, ready: bool)
    requires me < |w.threads| && (w.threads[me].RegUnlock? || w.threads[me].RegUnlockFail?) && w.queueClosed
    ensures Pays(w.threads[me], EnterStep(w, me, ready).threads[me])
  {
  }

  lemma LookPays(w: State, me: nat, ready: bool)
    requires me < |w.threads| && (w.threads[me].SleepClosed? || w.threads[me].SleepLap?) && w.queueClosed
    ensures Pays(w.threads[me], SleepStep(w, me, ready).threads[me])
  {
  }

  lemma ParkPays(w: State, me: nat, ready: bool)
    requires me < |w.threads| && (w.threads[me].SleepPark? || w.threads[me].SleepWait? || w.threads[me].SleepUnpark?) && w.queueClosed
    ensures Pays(w.threads[me], SleepStep(w, me, ready).threads[me])
  {
  }

  lemma UnregisterPays(w: State, me: nat, ready: bool)
    requires me < |w.threads| && (w.threads[me].UnregLock? || w.threads[me].UnregInside? || w.threads[me].UnregStoreEmpty? || w.threads[me].UnregUnlock?) && w.queueClosed
    ensures Pays(w.threads[me], SleepStep(w, me, ready).threads[me])
  {
    hide Unregister;
  }

  lemma EnterPays(w: State, me: nat, ready: bool)
    requires me < |w.threads| && Entering(w.threads[me]) && w.queueClosed
    ensures Pays(w.threads[me], EnterStep(w, me, ready).threads[me])
  {
    hide EnterStep, Pays;
    if w.threads[me].RetryClosed? || w.threads[me].RetryLap? {
      RetryPays(w, me, ready);
    } else if w.threads[me].RegUnlock? || w.threads[me].RegUnlockFail? {
      RegisteredPays(w, me, ready);
    } else {
      RegisterPays(w, me, ready);
    }
  }

  lemma SleepPays(w: State, me: nat, ready: bool)
    requires me < |w.threads| && Sleeping(w.threads[me]) && w.queueClosed
    ensures Pays(w.threads[me], SleepStep(w, me, ready).threads[me])
  {
    hide SleepStep, Pays;
    if w.threads[me].SleepClosed? || w.threads[me].SleepLap? {
      LookPays(w, me, ready);
    } else if w.threads[me].SleepPark? || w.threads[me].SleepWait? || w.threads[me].SleepUnpark? {
      ParkPays(w, me, ready);
    } else {
      UnregisterPays(w, me, ready);
    }
  }

  lemma OwesNothing(pc: Pc)
    requires pc.NoteDone? || pc.NoteLock? || pc.NoteInside? || pc.NoteScan? || pc.NoteWake? || pc.NoteUnlock? || pc.Undefined?
      || pc.CloseLock? || pc.CloseInside? || pc.CloseWake? || pc.CloseUnlock? || pc.CloseUnlockEnd? || pc.CloseDone?
    ensures WaitRank(pc) == 0
  {
  }

  lemma NotePaysNothing(w: State, me: nat)
    requires me < |w.threads| && Noting(w.threads[me])
    ensures WaitRank(NoteStep(w, me).threads[me]) == 0
  {
    hide Reach, WaitRank;
    if w.threads[me].NoteWake? && w.threads[me].idx < |w.meta.waiters| {
      WakeMoves(Goto(w, me, NoteScan(w.threads[me].idx + 1)), w.meta.waiters[w.threads[me].idx], me);
      hide Wake;
    }
    OwesNothing(NoteStep(w, me).threads[me]);
  }

  lemma ClosePaysNothing(w: State, me: nat)
    requires me < |w.threads| && Closing(w.threads[me])
    ensures WaitRank(CloseStep(w, me).threads[me]) == 0
  {
    hide WaitRank;
    if w.threads[me].CloseWake? && w.threads[me].idx < |w.meta.waiters| {
      WakeMoves(Goto(w, me, CloseWake(w.threads[me].idx + 1)), w.meta.waiters[w.threads[me].idx], me);
      hide Wake;
    }
    OwesNothing(CloseStep(w, me).threads[me]);
  }

  /** A step by which a waiting thread gets on. */
  ghost predicate Moves(w: State, a: Action) {
    a.me < |w.threads| && WaitRank(w.threads[a.me]) > 0 && Next(w, a).threads[a.me] != w.threads[a.me]
  }

  lemma OwnPays(w: State, a: Action)
    requires a.me < |w.threads| && w.queueClosed && !a.StartWait?
    ensures var pc, pc' := w.threads[a.me], Next(w, a).threads[a.me];
      WaitRank(pc') <= WaitRank(pc) && (WaitRank(pc) > 0 && pc' != pc ==> WaitRank(pc') < WaitRank(pc))
  {
    hide EnterStep, SleepStep, NoteStep, CloseStep;
    var pc := w.threads[a.me];
    if a.Step? {
      if Entering(pc) {
        EnterPays(w, a.me, a.ready);
      } else if Sleeping(pc) {
        SleepPays(w, a.me, a.ready);
      } else if Noting(pc) {
        NotePaysNothing(w, a.me);
      } else if Closing(pc) {
        ClosePaysNothing(w, a.me);
      }
    }
  }

  /** With the flag set no step adds to the debt, and each step by which a waiter gets on pays some of it. */
  lemma StepPays(w: State, a: Action)
    requires Inv(w) && w.queueClosed && !a.StartWait?
    ensures Debt(Next(w, a).threads) + (if Moves(w, a) then 1 else 0) <= Debt(w.threads)
  {
    var w' := Next(w, a);
    if a.me < |w.threads| {
      StepIsGood(w, a);
      OwnPays(w, a);
      hide Next, Inv, WaitRank;
      forall o | 0 <= o < |w.threads| ensures WaitRank(w'.threads[o]) <= WaitRank(w.threads[o]) {
        if o != a.me {
          assert Untouched(w, w', a.me, o);
          WokenPays(w.threads[o], w'.threads[o]);
        }
      }
      DebtFalls(w.threads, w'.threads, a.me);
    }
  }

  lemma WokenPays(pc: Pc, pc': Pc)
    requires pc' == pc || (pc.Asleep? && pc'.SleepClosed?)
    ensures WaitRank(pc') <= WaitRank(pc)
  {
  }

  /** How often a waiter gets on in a run. */
  ghost function MovesIn(w: State, run: seq<Action>): nat {
    if run == [] then 0
    else MovesIn(w, run[..|run| - 1]) + if Moves(Exec(w, run[..|run| - 1]), run[|run| - 1]) then 1 else 0
  }

  /**
   Once the flag is set the waits under way get on at most twelve times each, over any run, whoever notifies and closes;
   and when they have nothing left to do the list is empty, so that `close` comes back.
   */
  lemma {:induction false} WaitersLeave(w: State, run: seq<Action>)
    requires Inv(w) && w.queueClosed && forall k :: 0 <= k < |run| ==> !run[k].StartWait?
    ensures MovesIn(w, run) + Debt(Exec(w, run).threads) <= Debt(w.threads) <= 12 * |w.threads|
    ensures Debt(Exec(w, run).threads) == 0 ==> Exec(w, run).meta.waiters == []
  {
    DebtBound(w.threads);
    MovesPaid(w, run);
    RunKeepsInv(w, run);
    if Debt(Exec(w, run).threads) == 0 {
      NobodyListed(Exec(w, run));
    }
  }

  lemma {:induction false} MovesPaid(w: State, run: seq<Action>)
    requires Inv(w) && w.queueClosed && forall k :: 0 <= k < |run| ==> !run[k].StartWait?
    ensures MovesIn(w, run) + Debt(Exec(w, run).threads) <= Debt(w.threads)
  {
    hide Next, Inv, Moves;
    if run != [] {
      var pre := run[..|run| - 1];
      MovesPaid(w, pre);
      RunKeepsInv(w, pre);
      HistoryStays(w, pre);
      StepPays(Exec(w, pre), run[|run| - 1]);
    }
  }

  lemma NobodyListed(w: State)
    requires Inv(w) && Debt(w.threads) == 0
    ensures w.meta.waiters == []
  {
    if w.meta.waiters != [] {
      var o := w.meta.waiters[0];
      assert o in w.meta.waiters && ThreadOk(w, o);
      NoDebt(w.threads, o);
    }
  }
}
