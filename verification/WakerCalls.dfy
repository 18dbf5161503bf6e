/**
 The waker's own methods, and the waiter's loops, over their mutable words. Before each access of a call to a shared word
 the other threads take any number of steps; what they will still do is the arbitrary finite `schedule`. Looks at the
 watched slot are answered at will.
 */
module WakerCalls {
  import opened Options
  import opened Waker
  import opened WakerSteps
  import opened Moments
  import T = WakerTheorems
  import U = WakerUse
  import L = WaiterList

  lemma {:induction false} ExecSnoc(s: State, run: seq<Action>, a: Action)
    ensures Exec(s, run + [a]) == Next(Exec(s, run), a)
  {
    assert (run + [a])[..|run|] == run;
  }

  /** What the other threads may do to one. */
  predicate Kept(pc: Pc, pc': Pc) {
    pc' == pc || (pc.Asleep? && pc'.SleepClosed?)
  }

  lemma OthersKeep(s: State, a: Action, me: nat)
    requires T.Inv(s) && me < |s.threads| && a.me != me
    ensures |Next(s, a).threads| == |s.threads| && Kept(s.threads[me], Next(s, a).threads[me])
  {
    if a.me < |s.threads| {
      T.StepIsGood(s, a);
      hide Next, T.Inv, T.Shared, T.ThreadOk;
      assert T.Untouched(s, Next(s, a), a.me, me);
    }
  }

  lemma KeptSame(pc: Pc)
    ensures Kept(pc, pc)
  {
  }

  /** Behind the lock nobody else changes the list. */
  lemma HolderRules(s: State, a: Action, me: nat)
    requires T.Inv(s) && me < |s.threads| && a.me != me && s.lock == Some(me)
    ensures Next(s, a).lock == Some(me) && Next(s, a).meta == s.meta
  {
    if a.me < |s.threads| {
      assert T.ThreadOk(s, a.me);
      hide T.Inv, IndexOf, Register, Unregister, Reach, EnterStep, SleepStep, NoteStep, CloseStep;
      if a.Step? {
        HolderStep(s, a.me, a.ready, me);
      }
    }
  }

  lemma HolderStep(s: State, o: nat, ready: bool, me: nat)
    requires o < |s.threads| && !T.Holds(s.threads[o]) && s.lock == Some(me)
    ensures Next(s, Step(o, ready)).lock == Some(me) && Next(s, Step(o, ready)).meta == s.meta
  {
    hide IndexOf, Register, Unregister, Reach;
  }

  /** Out of a close. */
  lemma CloseMeans(s: State, me: nat)
    requires T.Inv(s) && me < |s.threads|
    ensures s.threads[me].CloseDone? ==> s.closeReturned && forall o :: 0 <= o < |s.threads| ==> !T.Parking(s.threads[o])
    ensures s.threads[me].CloseDone? || s.threads[me].CloseLock? ==> s.queueClosed
  {
    assert T.ThreadOk(s, me);
    forall o | 0 <= o < |s.threads| ensures s.closeReturned ==> !T.Parking(s.threads[o]) {
      assert T.ThreadOk(s, o);
    }
  }

  /** Out of a wait: not in the list, and with the flag seen only if it is set. */
  lemma OutMeans(s: State, me: nat)
    requires T.Inv(s) && me < |s.threads|
    ensures s.threads[me].WaitDone? ==> me !in s.meta.waiters && (s.threads[me].out.Closed? ==> s.queueClosed)
  {
    assert T.ThreadOk(s, me);
  }

  // What a call that is still at it has found, round by round.

  ghost function HeldAt(threads: nat): seq<Action> -> bool {
    (run: seq<Action>) => Exec(Init(threads), run).lock.Some?
  }

  ghost function OpenAt(threads: nat): seq<Action> -> bool {
    (run: seq<Action>) => !Exec(Init(threads), run).queueClosed
  }

  /** Somebody was in the list. */
  ghost function ListedAt(threads: nat): seq<Action> -> bool {
    (run: seq<Action>) => Exec(Init(threads), run).meta.waiters != []
  }

  /** The thread had looked at the flag and at the slot, and was about to park. */
  ghost function ParksAt(threads: nat, me: nat): seq<Action> -> bool {
    (run: seq<Action>) => var s := Exec(Init(threads), run); me < |s.threads| && s.threads[me].SleepPark?
  }

  class SharedWaker {
    var lock: Option<nat>
    var waiters: seq<nat>
    var start: nat
    var closedMark: bool
    var empty: bool
    var queueClosed: bool
    var parked: seq<bool>

    // Where the threads stand, and the histories.
    var threads: seq<Pc>
    var drained: bool
    var closeReturned: bool

    // What the other threads will still do.
    var schedule: seq<Action>

    // All steps since the waker was created.
    ghost var run: seq<Action>

    function View(): State
      reads this
    {
      State(lock, Metadata(waiters, start, closedMark), empty, queueClosed, parked, threads, drained, closeReturned)
    }

    ghost predicate Valid()
      reads this
    {
      View() == Exec(Init(|threads|), run) && T.Inv(View())
    }

    constructor (threadCount: nat, schedule: seq<Action>)
      ensures Valid() && |threads| == threadCount && waiters == [] && empty && !queueClosed && this.schedule == schedule
    {
      lock, waiters, start, closedMark, empty, queueClosed := None, [], 0, false, true, false;
      parked, threads := seq(threadCount, _ => false), seq(threadCount, _ => Idle);
      drained, closeReturned := false, false;
      this.schedule, run := schedule, [];
      new;
      T.InitInv(threadCount);
    }

    // -------------------------------------------------------------- steps

    /** Ends an access that turned `before` into the present state by action a. */
    ghost method Record(before: State, a: Action)
      requires T.Inv(before) && before == Exec(Init(|threads|), run) && View() == Next(before, a)
      modifies this`run
      ensures Valid() && run == old(run) + [a]
    {
      hide Next, T.Inv, Exec;
      T.StepKeepsInv(before, a);
      ExecSnoc(Init(|threads|), run, a);
      run := run + [a];
    }

    method Apply(a: Action)
      requires Valid()
      modifies this
      ensures Valid() && old(run) <= run && |threads| == |old(threads)| && schedule == old(schedule)
      ensures View() == Next(old(View()), a)
    {
      hide Next, T.Inv, Exec;
      ghost var before := View();
      Install(Next(View(), a));
      Record(before, a);
    }

    method Install(s: State)
      modifies this`lock, this`waiters, this`start, this`closedMark, this`empty, this`queueClosed, this`parked, this`threads,
        this`drained, this`closeReturned
      ensures View() == s
    {
      lock, waiters, start, closedMark, empty, queueClosed := s.lock, s.meta.waiters, s.meta.start, s.meta.closed, s.empty, s.queueClosed;
      parked, threads, drained, closeReturned := s.parked, s.threads, s.drained, s.closeReturned;
    }

    /** One scheduled step of another thread. */
    method Turn(me: nat)
      requires Valid() && me < |threads| && schedule != []
      modifies this
      ensures Valid() && old(run) <= run && |threads| == |old(threads)| && schedule == old(schedule)[1..]
      ensures Kept(old(threads)[me], threads[me])
      ensures old(lock) == Some(me) ==> lock == Some(me) && waiters == old(waiters) && start == old(start)
      ensures old(queueClosed) ==> queueClosed
    {
      hide Next, T.Inv, Exec, Kept;
      var a := schedule[0];
      schedule := schedule[1..];
      if a.me != me {
        OthersKeep(View(), a, me);
        if lock == Some(me) {
          HolderRules(View(), a, me);
        }
        Apply(a);
      } else {
        KeptSame(threads[me]);
      }
    }

    /** The other threads take any number of scheduled steps; they may wake this one. */
    method Interfere(me: nat)
      requires Valid() && me < |threads|
      modifies this
      ensures Valid() && old(run) <= run && |threads| == |old(threads)|
      ensures Kept(old(threads)[me], threads[me])
      ensures old(lock) == Some(me) ==> lock == Some(me) && waiters == old(waiters) && start == old(start)
      ensures old(queueClosed) ==> queueClosed
      ensures old(schedule) == [] ==> schedule == [] && lock == old(lock)
    {
      hide Next, T.Inv, Exec, View, Valid;
      var n: nat :| n <= |schedule|;
      while n > 0
        invariant n <= |schedule|
        invariant Valid() && old(run) <= run && |threads| == |old(threads)|
        invariant Kept(old(threads)[me], threads[me])
        invariant old(lock) == Some(me) ==> lock == Some(me) && waiters == old(waiters) && start == old(start)
        invariant old(queueClosed) ==> queueClosed
        invariant old(schedule) == [] ==> schedule == [] && lock == old(lock)
      {
        Turn(me);
        n := n - 1;
      }
    }

    /** Starts a wait of a thread at rest: its waiter is new and not parked. */
    method EnterWait(me: nat)
      requires Valid() && me < |threads| && AtRest(threads[me])
      modifies this`threads, this`parked, this`run
      ensures Valid() && old(run) <= run && threads == old(threads)[me := RetryClosed]
    {
      hide Next, Exec, T.Inv;
      ghost var before := View();
      ParkedSize(before);
      StartIs(before, me);
      threads, parked := threads[me := RetryClosed], parked[me := false];
      Record(before, StartWait(me));
    }

    /** Starts a `wake_one` or a close of a thread at rest. */
    method EnterCall(me: nat, closes: bool)
      requires Valid() && me < |threads| && AtRest(threads[me])
      modifies this`threads, this`run
      ensures Valid() && old(run) <= run && threads == old(threads)[me := if closes then CloseFlag else NoteEmpty]
    {
      hide Next, Exec, T.Inv;
      ghost var before := View();
      ParkedSize(before);
      StartIs(before, me);
      threads := threads[me := if closes then CloseFlag else NoteEmpty];
      Record(before, if closes then StartClose(me) else StartWakeOne(me));
    }

    /** A lock that is free is taken; `taken` says whether. */
    method TryLock(me: nat) returns (taken: bool)
      requires Valid() && me < |threads| && AtLock(threads[me])
      modifies this`lock, this`threads, this`run
      ensures Valid() && old(run) <= run && threads == if taken then old(threads)[me := Inside(old(threads)[me])] else old(threads)
      ensures |old(run)| < |run| && (taken <==> old(lock) == None)
      ensures taken ==> lock == Some(me)
    {
      hide Next, Exec, T.Inv, AtLock, Inside;
      ghost var before := View();
      LockIs(before, me);
      taken := lock == None;
      if taken {
        lock, threads := Some(me), threads[me := Inside(threads[me])];
      }
      Record(before, Step(me, false));
    }

    /** One try, after others' steps; it was made after step `at`. */
    method TryAgain(me: nat) returns (taken: bool, ghost at: nat)
      requires Valid() && me < |threads| && AtLock(threads[me])
      modifies this
      ensures Valid() && old(run) <= run && |threads| == |old(threads)| && |old(run)| <= at < |run|
      ensures threads[me] == if taken then Inside(old(threads)[me]) else old(threads)[me]
      ensures if taken then lock == Some(me) else HeldAt(|threads|)(run[..at])
      ensures old(queueClosed) ==> queueClosed
      ensures old(schedule) == [] && old(lock) == None ==> taken
    {
      hide Next, Exec, T.Inv, Inside;
      Interfere(me);
      at := |run|;
      ghost var upTo := run;
      taken := TryLock(me);
      assert run[..at] == upTo;
    }

    /** `guard.lock()`: at most `patience` tries. Not taken: it was held at each, at the moments in `held`. */
    method Lock(me: nat, patience: nat) returns (taken: bool, ghost held: seq<nat>)
      requires Valid() && me < |threads| && AtLock(threads[me])
      modifies this
      ensures Valid() && old(run) <= run && |threads| == |old(threads)|
      ensures threads[me] == if taken then Inside(old(threads)[me]) else old(threads)[me]
      ensures taken ==> lock == Some(me)
      ensures !taken ==> |held| == patience && At(run, held, |old(run)|, HeldAt(|threads|))
      ensures old(queueClosed) ==> queueClosed
      ensures old(schedule) == [] && old(lock) == None && patience > 0 ==> taken
    {
      hide Next, Exec, T.Inv, View, Valid, Inside, HeldAt;
      held, taken := [], false;
      for n := 0 to patience
        invariant Valid() && old(run) <= run && |threads| == |old(threads)| && threads[me] == old(threads)[me]
        invariant old(queueClosed) ==> queueClosed
        invariant |held| == n && At(run, held, |old(run)|, HeldAt(|threads|))
        invariant forall i :: 0 <= i < |held| ==> held[i] < |run|
        invariant old(schedule) == [] && old(lock) == None ==> n == 0 && schedule == [] && lock == None
      {
        ghost var before := run;
        ghost var at;
        taken, at := TryAgain(me);
        if taken {
          return;
        }
        Later(before, run, held, |old(run)|, HeldAt(|threads|));
        OneMore(run, held, at, |old(run)|, HeldAt(|threads|));
        held := held + [at];
      }
    }

    method Unlock(me: nat)
      requires Valid() && me < |threads| && AtUnlock(threads[me])
      modifies this`lock, this`threads, this`closeReturned, this`run
      ensures Valid() && old(run) <= run && threads == old(threads)[me := Outside(old(threads)[me])]
    {
      hide Next, Exec, T.Inv, AtUnlock, Outside;
      ghost var before := View();
      UnlockIs(before, me);
      closeReturned := closeReturned || threads[me].CloseUnlockEnd?;
      lock, threads := None, threads[me := Outside(threads[me])];
      Record(before, Step(me, false));
    }

    // -------------------------------------------------------------- waiting

    /** An access of a wait that moves its thread on, and touches its parked word at most. */
    method Move(me: nat, ready: bool)
      requires Valid() && me < |threads|
      requires
        var pc := threads[me];
        pc.RetryClosed? || pc.RetryLap? || pc.SleepClosed? || pc.SleepLap? || pc.SleepPark? || pc.SleepUnpark?
      modifies this`threads, this`parked, this`run
      ensures Valid() && old(run) <= run && |old(run)| < |run|
      ensures threads == old(threads)[me := Onward(old(threads)[me], queueClosed, ready)]
    {
      hide Next, Exec, T.Inv, Onward;
      ghost var before := View();
      ParkedSize(before);
      OnwardIs(before, me, ready);
      if threads[me].SleepPark? || threads[me].SleepUnpark? {
        parked := parked[me := threads[me].SleepPark?];
      }
      threads := threads[me := Onward(threads[me], queueClosed, ready)];
      Record(before, Step(me, ready));
    }

    /** A turn of the inner loop of `retry`; the flag was looked at after step `at`. */
    method RetryTurn(me: nat) returns (out: Option<Outcome>, ghost at: nat)
      requires Valid() && me < |threads| && threads[me].RetryClosed?
      modifies this
      ensures Valid() && old(run) <= run && |threads| == |old(threads)| && |old(run)| <= at < |run|
      ensures threads[me] == if out.Some? then WaitDone(out.value) else RetryClosed
      ensures out == None ==> OpenAt(|threads|)(run[..at])
      ensures old(queueClosed) ==> out == Some(Closed)
    {
      hide Next, Exec, T.Inv;
      Interfere(me);
      at := |run|;
      ghost var upTo := run;
      assert View() == Exec(Init(|threads|), run) && View().queueClosed == queueClosed;
      Move(me, false);
      if threads[me].WaitDone? {
        return Some(Closed), at;
      }
      Interfere(me);
      var changed: bool := *;
      Move(me, changed);
      assert run[..at] == upTo;
      out := if changed then Some(Success) else None;
    }

    /** `retry`, for at most `turns` turns: how it ended, or that the thread goes on to register, the flag having been unset at each. */
    method Retry(me: nat, turns: nat) returns (out: Option<Outcome>, ghost opens: seq<nat>)
      requires Valid() && me < |threads| && threads[me].RetryClosed?
      modifies this
      ensures Valid() && old(run) <= run && |threads| == |old(threads)|
      ensures threads[me] == if out.Some? then WaitDone(out.value) else RegLock
      ensures out == None ==> |opens| == turns && At(run, opens, |old(run)|, OpenAt(|threads|))
      ensures old(queueClosed) && turns > 0 ==> out == Some(Closed)
    {
      hide Next, Exec, T.Inv, View, Valid, OpenAt;
      opens, out := [], None;
      for n := 0 to turns
        invariant Valid() && old(run) <= run && |threads| == |old(threads)| && threads[me].RetryClosed? && out == None
        invariant |opens| == n && At(run, opens, |old(run)|, OpenAt(|threads|))
        invariant forall i :: 0 <= i < |opens| ==> opens[i] < |run|
        invariant old(queueClosed) ==> n == 0 && queueClosed
      {
        ghost var before := run;
        ghost var at;
        out, at := RetryTurn(me);
        if out.Some? {
          return;
        }
        Later(before, run, opens, |old(run)|, OpenAt(|threads|));
        OneMore(run, opens, at, |old(run)|, OpenAt(|threads|));
        opens := opens + [at];
      }
      ghost var here := run;
      Interfere(me);
      EndRetries(me);
      Later(here, run, opens, |old(run)|, OpenAt(|threads|));
    }

    method EndRetries(me: nat)
      requires Valid() && me < |threads| && threads[me].RetryClosed?
      modifies this`threads, this`run
      ensures Valid() && old(run) <= run && threads == old(threads)[me := RegLock]
    {
      hide Next, Exec, T.Inv;
      ghost var before := View();
      ParkedSize(before);
      FutexIs(before, me);
      threads := threads[me := RegLock];
      Record(before, GiveUpRetry(me));
    }

    /** The push of `register`, behind the lock. */
    method Push(me: nat) returns (pushed: bool)
      requires Valid() && me < |threads| && threads[me].RegInside?
      modifies this`waiters, this`threads, this`run
      ensures Valid() && old(run) <= run && threads == old(threads)[me := if pushed then RegStoreEmpty else RegUnlockFail]
      ensures waiters == if pushed then old(waiters) + [me] else old(waiters)
      ensures pushed ==> !closedMark
    {
      hide Next, Exec, T.Inv;
      ghost var before := View();
      var changed: bool := *;
      PushIs(before, me, changed);
      pushed := !closedMark && !changed;
      if pushed {
        waiters := waiters + [me];
      }
      threads := threads[me := if pushed then RegStoreEmpty else RegUnlockFail];
      Record(before, Step(me, changed));
    }

    /** The store to the empty flag, by a thread that has changed the list. */
    method StoreEmpty(me: nat)
      requires Valid() && me < |threads| && (threads[me].RegStoreEmpty? || threads[me].UnregStoreEmpty?)
      modifies this`empty, this`threads, this`run
      ensures Valid() && old(run) <= run
      ensures threads == old(threads)[me := if old(threads)[me].RegStoreEmpty? then RegUnlock else UnregUnlock(old(threads)[me].out)]
    {
      hide Next, Exec, T.Inv;
      ghost var before := View();
      StoreEmptyIs(before, me);
      empty := threads[me].UnregStoreEmpty? && waiters == [];
      threads := threads[me := if threads[me].RegStoreEmpty? then RegUnlock else UnregUnlock(threads[me].out)];
      Record(before, Step(me, false));
    }

    /** `register`: whether the waiter went into the list. No result: the lock was held at each of `patience` tries. */
    method Register(me: nat, patience: nat) returns (registered: Option<bool>, ghost held: seq<nat>)
      requires Valid() && me < |threads| && threads[me].RegLock?
      modifies this
      ensures Valid() && old(run) <= run && |threads| == |old(threads)|
      ensures threads[me] == match registered case None => RegLock case Some(yes) => if yes then SleepClosed else WaitDone(NotRegistered)
      ensures registered == None ==> |held| == patience && At(run, held, |old(run)|, HeldAt(|threads|))
    {
      hide Next, Exec, T.Inv, View, Valid, HeldAt, At;
      var taken;
      taken, held := Lock(me, patience);
      if !taken {
        return None, held;
      }
      Interfere(me);
      var pushed := Push(me);
      Interfere(me);
      if pushed {
        StoreEmpty(me);
        Interfere(me);
      }
      Unlock(me);
      registered := Some(pushed);
    }

    /** The futex compares the parked word and sleeps. */
    method FutexWait(me: nat)
      requires Valid() && me < |threads| && threads[me].SleepWait?
      modifies this`threads, this`run
      ensures Valid() && old(run) <= run && threads == old(threads)[me := threads[me]] && (threads[me].Asleep? || threads[me].SleepClosed?)
    {
      hide Next, Exec, T.Inv;
      ghost var before := View();
      ParkedSize(before);
      FutexIs(before, me);
      threads := threads[me := if parked[me] then Asleep else SleepClosed];
      Record(before, Step(me, false));
    }

    /** It returns for no reason. */
    method WakeUp(me: nat)
      requires Valid() && me < |threads| && threads[me].Asleep?
      modifies this`threads, this`run
      ensures Valid() && old(run) <= run && threads == old(threads)[me := SleepClosed]
    {
      hide Next, Exec, T.Inv;
      ghost var before := View();
      ParkedSize(before);
      FutexIs(before, me);
      threads := threads[me := SleepClosed];
      Record(before, Spurious(me));
    }

    /** The looks of one turn of `sleep`: how it ended, or that the thread is about to park. */
    method Look(me: nat) returns (out: Option<Outcome>)
      requires Valid() && me < |threads| && threads[me].SleepClosed?
      modifies this
      ensures Valid() && old(run) <= run && |threads| == |old(threads)|
      ensures threads[me] == if out.Some? then SleepUnpark(out.value) else SleepPark
      ensures |old(run)| < |run| && (out == None ==> ParksAt(|threads|, me)(run[..|run|]))
      ensures old(queueClosed) ==> out.Some?
    {
      hide Next, Exec, T.Inv, View, Valid, ParksAt;
      Interfere(me);
      Move(me, false);
      if threads[me].SleepUnpark? {
        return Some(Closed);
      }
      Interfere(me);
      var changed: bool := *;
      Move(me, changed);
      if changed {
        return Some(Success);
      }
      WholeRun(run);
      ParksNow(me);
      return None;
    }

    lemma ParksNow(me: nat)
      requires Valid() && me < |threads| && threads[me].SleepPark?
      ensures ParksAt(|threads|, me)(run)
    {
      hide Exec, T.Inv;
    }

    /** Parks and calls the futex; awake again only if another thread wakes this one, or for no reason. */
    method ParkAndWait(me: nat)
      requires Valid() && me < |threads| && threads[me].SleepPark?
      modifies this
      ensures Valid() && old(run) <= run && |threads| == |old(threads)| && (threads[me].Asleep? || threads[me].SleepClosed?)
    {
      hide Next, Exec, T.Inv, View, Valid;
      Interfere(me);
      Move(me, false);
      Interfere(me);
      FutexWait(me);
      Interfere(me);
      var spurious: bool := *;
      if spurious && threads[me].Asleep? {
        WakeUp(me);
      }
    }

    /**
     `sleep`, for at most `patience` turns of its loop; asleep in the middle of one, it may stay so. In each turn that did not
     end it the thread came to park, after both looks, at the moments in `parks`.
     */
    method Sleep(me: nat, patience: nat) returns (out: Option<Outcome>, ghost parks: seq<nat>)
      requires Valid() && me < |threads| && threads[me].SleepClosed?
      modifies this
      ensures Valid() && old(run) <= run && |threads| == |old(threads)|
      ensures out.Some? ==> threads[me] == UnregLock(out.value)
      ensures out == None ==> if threads[me].Asleep? then parks != [] else threads[me].SleepClosed? && |parks| == patience
      ensures out == None ==> At(run, parks, |old(run)|, ParksAt(|threads|, me))
      ensures old(queueClosed) && patience > 0 ==> out.Some?
    {
      hide Next, Exec, T.Inv, View, Valid, ParksAt;
      parks, out := [], None;
      for n := 0 to patience
        invariant Valid() && old(run) <= run && |threads| == |old(threads)| && threads[me].SleepClosed? && out == None
        invariant |parks| == n && At(run, parks, |old(run)|, ParksAt(|threads|, me))
        invariant old(queueClosed) ==> n == 0 && queueClosed
      {
        ghost var before := run;
        out := Look(me);
        if out.Some? {
          Interfere(me);
          Move(me, false);
          return;
        }
        ghost var here := run;
        Note(before, run, parks, |run|, |old(run)|, ParksAt(|threads|, me));
        parks := parks + [|run|];
        ParkAndWait(me);
        Later(here, run, parks, |old(run)|, ParksAt(|threads|, me));
        if threads[me].Asleep? {
          return;
        }
      }
    }

    /** Where this thread stands in the list, or the list's length. */
    method Find(me: nat) returns (i: nat)
      ensures i == IndexOf(waiters, me)
    {
      i := 0;
      while i < |waiters| && waiters[i] != me
        invariant i <= |waiters| && me !in waiters[..i]
      {
        i := i + 1;
      }
      L.FoundFirst(waiters, me, i);
    }

    /** The removal of `unregister`, behind the lock: the first entry of this thread goes. */
    method Remove(me: nat)
      requires Valid() && me < |threads| && threads[me].UnregInside?
      modifies this`waiters, this`start, this`threads, this`run
      ensures Valid() && old(run) <= run && threads == old(threads)[me := UnregStoreEmpty(old(threads)[me].out)]
    {
      hide Next, Exec, T.Inv, IndexOf;
      ghost var before := View();
      RemoveIs(before, me);
      var i := Find(me);
      if i < |waiters| {
        waiters := waiters[..i] + waiters[i + 1..];
        if start > 0 {
          start := start - 1;
        }
      }
      threads := threads[me := UnregStoreEmpty(threads[me].out)];
      Record(before, Step(me, false));
    }

    /** `unregister`. Not done: the lock was held at each of `patience` tries. */
    method Unregister(me: nat, patience: nat) returns (done: bool, ghost held: seq<nat>)
      requires Valid() && me < |threads| && threads[me].UnregLock?
      modifies this
      ensures Valid() && old(run) <= run && |threads| == |old(threads)|
      ensures threads[me] == if done then WaitDone(old(threads)[me].out) else old(threads)[me]
      ensures !done ==> |held| == patience && At(run, held, |old(run)|, HeldAt(|threads|))
    {
      hide Next, Exec, T.Inv, View, Valid, HeldAt, At;
      done, held := Lock(me, patience);
      if done {
        Leave(me);
      }
    }

    /** The same behind the lock. */
    method Leave(me: nat)
      requires Valid() && me < |threads| && threads[me].UnregInside?
      modifies this
      ensures Valid() && old(run) <= run && |threads| == |old(threads)|
      ensures threads[me] == WaitDone(old(threads)[me].out)
    {
      hide Next, Exec, T.Inv, View, Valid;
      Interfere(me);
      Remove(me);
      Interfere(me);
      StoreEmpty(me);
      Interfere(me);
      Unlock(me);
    }

    /** A wait that is still inside: at a lock it did not get, or in `sleep`. */
    ghost predicate StillIn(me: nat, from: nat, patience: nat, held: seq<nat>, parks: seq<nat>)
      reads this
      requires me < |threads|
    {
      if threads[me].RegLock? || threads[me].UnregLock? then |held| == patience && At(run, held, from, HeldAt(|threads|))
      else
        && (if threads[me].Asleep? then parks != [] else threads[me].SleepClosed? && |parks| == patience)
        && At(run, parks, from, ParksAt(|threads|, me))
    }

    lemma StillSooner(me: nat, from: nat, earlier: nat, patience: nat, held: seq<nat>, parks: seq<nat>)
      requires me < |threads| && earlier <= from && StillIn(me, from, patience, held, parks)
      ensures StillIn(me, earlier, patience, held, parks)
    {
    }

    /**
     The whole wait: retry, register, sleep, unregister. With a result the thread is out of the list, and if it says closed
     the flag is set; without one it is still inside, and `StillIn` says what kept it. With the flag set it has a result at once.
     */
    method Wait(me: nat, turns: nat, patience: nat) returns (out: Option<Outcome>, ghost held: seq<nat>, ghost parks: seq<nat>)
      requires Valid() && me < |threads| && AtRest(threads[me])
      modifies this
      ensures Valid() && old(run) <= run && |threads| == |old(threads)|
      ensures out.Some? ==> threads[me] == WaitDone(out.value) && me !in waiters && (out.value.Closed? ==> queueClosed)
      ensures out == None ==> U.InWait(threads[me]) && !threads[me].WaitDone? && StillIn(me, |old(run)|, patience, held, parks)
      ensures old(queueClosed) && turns > 0 ==> out == Some(Closed)
    {
      hide Next, Exec, T.Inv, StillIn;
      EnterWait(me);
      var tried, _ := Retry(me, turns);
      out, held, parks := tried, [], [];
      if out == None {
        ghost var here := run;
        out, held, parks := Block(me, patience);
        if out == None {
          StillSooner(me, |here|, |old(run)|, patience, held, parks);
        }
      }
      OutMeans(View(), me);
    }

    /** The blocking half of a wait. */
    method Block(me: nat, patience: nat) returns (out: Option<Outcome>, ghost held: seq<nat>, ghost parks: seq<nat>)
      requires Valid() && me < |threads| && threads[me].RegLock?
      modifies this
      ensures Valid() && old(run) <= run && |threads| == |old(threads)|
      ensures out.Some? ==> threads[me] == WaitDone(out.value)
      ensures out == None ==> U.InWait(threads[me]) && !threads[me].WaitDone? && StillIn(me, |old(run)|, patience, held, parks)
    {
      hide Next, Exec, T.Inv, View, Valid, HeldAt, ParksAt, At;
      parks := [];
      var registered;
      registered, held := Register(me, patience);
      if registered == None {
        return None, held, parks;
      }
      if !registered.value {
        return Some(NotRegistered), held, parks;
      }
      ghost var in1 := run;
      out, parks := Sleep(me, patience);
      if out == None {
        Sooner(run, parks, |in1|, |old(run)|, ParksAt(|threads|, me));
        return;
      }
      ghost var in2 := run;
      var done;
      done, held := Unregister(me, patience);
      if !done {
        Sooner(run, held, |in2|, |old(run)|, HeldAt(|threads|));
        out := None;
      }
    }

    // -------------------------------------------------------------- notifying

    /** The load of the empty flag, by which `wake_one` decides to take the lock; behind the lock, the reach of `notify`. */
    method Reach(me: nat)
      requires Valid() && me < |threads| && (threads[me].NoteEmpty? || threads[me].NoteInside?)
      modifies this`start, this`threads, this`run
      ensures Valid() && old(run) <= run
      ensures old(threads)[me].NoteEmpty? ==> threads == old(threads)[me := if empty then NoteDone else NoteLock] && start == old(start)
      ensures old(threads)[me].NoteInside? ==>
          threads == old(threads)[me := NoteScan(0)] && start == if old(start) < |waiters| then old(start) + 1 else old(start)
    {
      hide Next, Exec, T.Inv;
      ghost var before := View();
      NoteIs(before, me);
      if threads[me].NoteEmpty? {
        threads := threads[me := if empty then NoteDone else NoteLock];
      } else {
        if start < |waiters| {
          start := start + 1;
        }
        threads := threads[me := NoteScan(0)];
      }
      Record(before, Step(me, false));
    }

    /** The look at the parked word of the next waiter reached. */
    method Scan(me: nat)
      requires Valid() && me < |threads| && threads[me].NoteScan?
      modifies this`threads, this`run
      ensures Valid() && old(run) <= run && |threads| == |old(threads)|
      ensures
        var idx := old(threads)[me].idx;
        if idx >= start then threads[me] == NoteUnlock else threads[me] == NoteWake(idx) || threads[me] == NoteScan(idx + 1)
    {
      hide Next, Exec, T.Inv;
      ghost var before := View();
      ScanSafe(before, me);
      ScanIs(before, me);
      var idx := threads[me].idx;
      var pc := if idx >= start then NoteUnlock else if parked[waiters[idx]] then NoteWake(idx) else NoteScan(idx + 1);
      threads := threads[me := pc];
      Record(before, Step(me, false));
    }

    /** The futex wake of the waiter just looked at, or of the next entry of a sweep. */
    method WakeNext(me: nat)
      requires Valid() && me < |threads| && (threads[me].NoteWake? || threads[me].CloseWake?)
      modifies this`threads, this`run
      ensures Valid() && old(run) <= run && |threads| == |old(threads)|
      ensures old(threads)[me].NoteWake? ==> threads[me] == NoteScan(old(threads)[me].idx + 1)
      ensures old(threads)[me].CloseWake? ==>
          threads[me] == if old(threads)[me].idx < |waiters| then CloseWake(old(threads)[me].idx + 1) else CloseUnlock
      ensures old(threads)[me].idx < |waiters| ==>
          var o := waiters[old(threads)[me].idx];
          o < |threads| && o != me ==> !threads[o].Asleep?
    {
      hide Next, Exec, T.Inv, Woken;
      ghost var before := View();
      ScanSafe(before, me);
      WakeIs(before, me);
      var pc := threads[me];
      if pc.idx < |waiters| {
        threads := Woken(threads, me, if pc.NoteWake? then NoteScan(pc.idx + 1) else CloseWake(pc.idx + 1), waiters[pc.idx]);
      } else {
        threads := threads[me := CloseUnlock];
      }
      Record(before, Step(me, false));
    }

    /** `notify` behind the lock: every waiter reached is looked at, and woken if parked, until the scan is through. */
    method ScanAll(me: nat)
      requires Valid() && me < |threads| && threads[me] == NoteScan(0) && lock == Some(me)
      modifies this
      ensures Valid() && old(run) <= run && |threads| == |old(threads)|
      ensures threads[me].NoteUnlock?
    {
      hide Next, Exec, T.Inv, View, Valid;
      for idx := 0 to start
        invariant Valid() && old(run) <= run && |threads| == |old(threads)| && lock == Some(me) && start == old(start)
        invariant threads[me] == NoteScan(idx)
      {
        Interfere(me);
        Scan(me);
        if threads[me].NoteWake? {
          Interfere(me);
          WakeNext(me);
        }
      }
      Interfere(me);
      Scan(me);
    }

    /** `guard.lock().notify()`. Not done: the lock was held at each of `patience` tries. */
    method Notify(me: nat, patience: nat) returns (done: bool, ghost held: seq<nat>)
      requires Valid() && me < |threads| && threads[me].NoteLock?
      modifies this
      ensures Valid() && old(run) <= run && |threads| == |old(threads)|
      ensures threads[me] == if done then NoteDone else NoteLock
      ensures !done ==> |held| == patience && At(run, held, |old(run)|, HeldAt(|threads|))
    {
      hide Next, Exec, T.Inv, View, Valid, HeldAt, At;
      done, held := Lock(me, patience);
      if done {
        NotifyInside(me);
      }
    }

    method NotifyInside(me: nat)
      requires Valid() && me < |threads| && threads[me].NoteInside? && lock == Some(me)
      modifies this
      ensures Valid() && old(run) <= run && |threads| == |old(threads)| && threads[me] == NoteDone
    {
      hide Next, Exec, T.Inv, View, Valid;
      Interfere(me);
      Reach(me);
      ScanAll(me);
      Interfere(me);
      Unlock(me);
    }

    /** `wake_one`. It comes back unless the lock was held at each of `patience` tries. */
    method WakeOne(me: nat, patience: nat) returns (done: bool, ghost held: seq<nat>)
      requires Valid() && me < |threads| && AtRest(threads[me])
      modifies this
      ensures Valid() && old(run) <= run && |threads| == |old(threads)|
      ensures threads[me] == if done then NoteDone else NoteLock
      ensures !done ==> |held| == patience && At(run, held, |old(run)|, HeldAt(|threads|))
    {
      hide Next, Exec, T.Inv, View, Valid, HeldAt, At;
      EnterCall(me, false);
      Interfere(me);
      Reach(me);
      held := [];
      if threads[me].NoteDone? {
        return true, held;
      }
      ghost var here := run;
      done, held := Notify(me, patience);
      if !done {
        Sooner(run, held, |here|, |old(run)|, HeldAt(|threads|));
      }
    }

    // -------------------------------------------------------------- closing

    /** The queue's flag; behind the lock, the look at the list. */
    method Decide(me: nat)
      requires Valid() && me < |threads| && (threads[me].CloseFlag? || threads[me].CloseInside?)
      modifies this`queueClosed, this`closedMark, this`empty, this`drained, this`threads, this`run
      ensures Valid() && old(run) <= run
      ensures old(threads)[me].CloseFlag? ==> threads == old(threads)[me := CloseLock] && queueClosed
      ensures old(threads)[me].CloseInside? ==> threads == old(threads)[me := if waiters != [] then CloseWake(0) else CloseUnlockEnd]
      ensures |old(run)| < |run|
      ensures old(queueClosed) ==> queueClosed
    {
      hide Next, Exec, T.Inv;
      ghost var before := View();
      CloseIs(before, me);
      if threads[me].CloseFlag? {
        queueClosed, threads := true, threads[me := CloseLock];
      } else if waiters != [] {
        closedMark, threads := true, threads[me := CloseWake(0)];
      } else {
        empty, drained, threads := true, true, threads[me := CloseUnlockEnd];
      }
      Record(before, Step(me, false));
    }

    /** One sweep: every entry of the list gets its futex wake. */
    method Sweep(me: nat)
      requires Valid() && me < |threads| && threads[me] == CloseWake(0) && lock == Some(me)
      modifies this
      ensures Valid() && old(run) <= run && |threads| == |old(threads)|
      ensures threads[me].CloseUnlock?
    {
      hide Next, Exec, T.Inv, View, Valid;
      for idx := 0 to |waiters|
        invariant Valid() && old(run) <= run && |threads| == |old(threads)| && lock == Some(me) && waiters == old(waiters)
        invariant threads[me] == CloseWake(idx)
      {
        Interfere(me);
        WakeNext(me);
      }
      Interfere(me);
      WakeNext(me);
    }

    /**
     A round of the loop of `Waker::close`: the end, or a sweep of a list with somebody in it after step `at`, or the lock was
     held at each of `patience` tries.
     */
    method CloseRound(me: nat, patience: nat) returns (done: bool, swept: bool, ghost at: nat, ghost held: seq<nat>)
      requires Valid() && me < |threads| && threads[me].CloseLock?
      modifies this
      ensures Valid() && old(run) <= run && |threads| == |old(threads)|
      ensures threads[me] == if done then CloseDone else CloseLock
      ensures swept ==> !done && |old(run)| <= at < |run| && ListedAt(|threads|)(run[..at])
      ensures !done && !swept ==> |held| == patience && At(run, held, |old(run)|, HeldAt(|threads|))
    {
      hide Next, Exec, T.Inv, View, Valid, HeldAt, ListedAt, At;
      at := |run|;
      var taken;
      taken, held := Lock(me, patience);
      if !taken {
        return false, false, at, held;
      }
      swept, at := LookAndSweep(me);
      done := !swept;
    }

    /** Behind the lock: the look at the list, after step `at`, the sweep if somebody is in it, and the unlock. */
    method LookAndSweep(me: nat) returns (swept: bool, ghost at: nat)
      requires Valid() && me < |threads| && threads[me].CloseInside? && lock == Some(me)
      modifies this
      ensures Valid() && old(run) <= run && |threads| == |old(threads)| && |old(run)| <= at < |run|
      ensures threads[me] == if swept then CloseLock else CloseDone
      ensures swept ==> ListedAt(|threads|)(run[..at])
    {
      hide Next, Exec, T.Inv, View, Valid, ListedAt;
      Interfere(me);
      at := |run|;
      ghost var upTo := run;
      Decides(me);
      swept := threads[me].CloseWake?;
      if swept {
        Sweep(me);
      }
      Interfere(me);
      Unlock(me);
      assert run[..at] == upTo;
    }

    /** `Decide`, and what it went by. */
    method Decides(me: nat)
      requires Valid() && me < |threads| && threads[me].CloseInside? && lock == Some(me)
      modifies this`queueClosed, this`closedMark, this`empty, this`drained, this`threads, this`run
      ensures Valid() && old(run) <= run && |old(run)| < |run|
      ensures threads == old(threads)[me := if waiters != [] then CloseWake(0) else CloseUnlockEnd]
      ensures threads[me].CloseWake? ==> ListedAt(|threads|)(old(run))
    {
      hide Next, Exec, T.Inv;
      Decide(me);
    }

    /**
     A whole close. When it comes back the flag is set and no thread is asleep, or about to fall asleep without a look.
     Otherwise it has swept `patience` lists with somebody in them, or did not get the lock.
     */
    method Close(me: nat, patience: nat) returns (done: bool, ghost sweeps: seq<nat>, ghost held: seq<nat>)
      requires Valid() && me < |threads| && AtRest(threads[me])
      modifies this
      ensures Valid() && old(run) <= run && |threads| == |old(threads)|
      ensures threads[me] == if done then CloseDone else CloseLock
      ensures done ==> closeReturned && queueClosed && forall o :: 0 <= o < |threads| ==> !T.Parking(threads[o])
      ensures !done ==>
        || (|sweeps| == patience && At(run, sweeps, |old(run)|, ListedAt(|threads|)))
        || (|held| == patience && At(run, held, |old(run)|, HeldAt(|threads|)))
      ensures queueClosed
    {
      hide Next, Exec, T.Inv, ListedAt, HeldAt;
      EnterCall(me, true);
      Interfere(me);
      Decide(me);
      done, sweeps, held := false, [], [];
      for n := 0 to patience
        invariant Valid() && old(run) <= run && |threads| == |old(threads)| && threads[me] == CloseLock && !done
        invariant |sweeps| == n && At(run, sweeps, |old(run)|, ListedAt(|threads|))
        invariant forall i :: 0 <= i < |sweeps| ==> sweeps[i] < |run|
      {
        ghost var before := run;
        var swept;
        ghost var at;
        done, swept, at, held := CloseRound(me, patience);
        if !swept {
          if !done {
            Sooner(run, held, |before|, |old(run)|, HeldAt(|threads|));
          }
          break;
        }
        Later(before, run, sweeps, |old(run)|, ListedAt(|threads|));
        OneMore(run, sweeps, at, |old(run)|, ListedAt(|threads|));
        sweeps := sweeps + [at];
      }
      CloseMeans(View(), me);
    }
  }
}
