/** What each access of a waker's calls does, spelled out. */
module WakerSteps {
  import opened Options
  import opened Waker
  import T = WakerTheorems

  lemma ParkedSize(s: State)
    requires T.Inv(s)
    ensures |s.parked| == |s.threads|
  {
  }

  /** Where a thread of a waiting call goes when its access changes nothing but its place and its parked word. */
  function Onward(pc: Pc, queueClosed: bool, ready: bool): Pc {
    match pc
    case RetryClosed => if queueClosed then WaitDone(Closed) else RetryLap
    case RetryLap => if ready then WaitDone(Success) else RetryClosed
    case SleepClosed => if queueClosed then SleepUnpark(Closed) else SleepLap
    case SleepLap => if ready then SleepUnpark(Success) else SleepPark
    case SleepPark => SleepWait
    case SleepUnpark(out) => UnregLock(out)
    case _ => pc
  }

  lemma OnwardIs(s: State, me: nat, ready: bool)
    requires me < |s.threads| == |s.parked|
    requires
      var pc := s.threads[me];
      pc.RetryClosed? || pc.RetryLap? || pc.SleepClosed? || pc.SleepLap? || pc.SleepPark? || pc.SleepUnpark?
    ensures Next(s, Step(me, ready)) == s.(
        threads := s.threads[me := Onward(s.threads[me], s.queueClosed, ready)],
        parked := if s.threads[me].SleepPark? || s.threads[me].SleepUnpark? then s.parked[me := s.threads[me].SleepPark?] else s.parked)
  {
    hide NoteStep, CloseStep;
  }

  predicate AtLock(pc: Pc) {
    pc.RegLock? || pc.UnregLock? || pc.NoteLock? || pc.CloseLock?
  }

  function Inside(pc: Pc): Pc {
    match pc
    case RegLock => RegInside
    case UnregLock(out) => UnregInside(out)
    case NoteLock => NoteInside
    case CloseLock => CloseInside
    case _ => pc
  }

  lemma LockIs(s: State, me: nat)
    requires me < |s.threads| && AtLock(s.threads[me])
    ensures Next(s, Step(me, false)) == if s.lock == None then s.(lock := Some(me), threads := s.threads[me := Inside(s.threads[me])]) else s
  {
  }

  predicate AtUnlock(pc: Pc) {
    pc.RegUnlock? || pc.RegUnlockFail? || pc.UnregUnlock? || pc.NoteUnlock? || pc.CloseUnlock? || pc.CloseUnlockEnd?
  }

  function Outside(pc: Pc): Pc {
    match pc
    case RegUnlock => SleepClosed
    case RegUnlockFail => WaitDone(NotRegistered)
    case UnregUnlock(out) => WaitDone(out)
    case NoteUnlock => NoteDone
    case CloseUnlock => CloseLock
    case CloseUnlockEnd => CloseDone
    case _ => pc
  }

  lemma UnlockIs(s: State, me: nat)
    requires me < |s.threads| && AtUnlock(s.threads[me])
    ensures Next(s, Step(me, false)) == s.(
        lock := None, threads := s.threads[me := Outside(s.threads[me])],
        closeReturned := s.closeReturned || s.threads[me].CloseUnlockEnd?)
  {
  }

  lemma StartIs(s: State, me: nat)
    requires me < |s.threads| == |s.parked| && AtRest(s.threads[me])
    ensures Next(s, StartWait(me)) == s.(threads := s.threads[me := RetryClosed], parked := s.parked[me := false])
    ensures Next(s, StartWakeOne(me)) == s.(threads := s.threads[me := NoteEmpty])
    ensures Next(s, StartClose(me)) == s.(threads := s.threads[me := CloseFlag])
  {
    hide EnterStep, SleepStep, NoteStep, CloseStep;
  }

  lemma PushIs(s: State, me: nat, changed: bool)
    requires me < |s.threads| && s.threads[me].RegInside?
    ensures Next(s, Step(me, changed)) ==
      if s.meta.closed || changed then s.(threads := s.threads[me := RegUnlockFail])
      else s.(threads := s.threads[me := RegStoreEmpty], meta := s.meta.(waiters := s.meta.waiters + [me]))
  {
    hide SleepStep, NoteStep, CloseStep;
  }

  lemma StoreEmptyIs(s: State, me: nat)
    requires me < |s.threads|
    ensures s.threads[me].RegStoreEmpty? ==> Next(s, Step(me, false)) == s.(threads := s.threads[me := RegUnlock], empty := false)
    ensures s.threads[me].UnregStoreEmpty? ==>
        Next(s, Step(me, false)) == s.(threads := s.threads[me := UnregUnlock(s.threads[me].out)], empty := s.meta.waiters == [])
  {
    hide NoteStep, CloseStep;
  }

  lemma RemoveIs(s: State, me: nat)
    requires me < |s.threads| && s.threads[me].UnregInside?
    ensures
      var i := IndexOf(s.meta.waiters, me);
      Next(s, Step(me, false)) == s.(
        threads := s.threads[me := UnregStoreEmpty(s.threads[me].out)],
        meta := if i == |s.meta.waiters| then s.meta else Metadata(s.meta.waiters[..i] + s.meta.waiters[i + 1..], if s.meta.start > 0 then s.meta.start - 1 else 0, s.meta.closed))
  {
    hide EnterStep, NoteStep, CloseStep, IndexOf;
  }

  lemma FutexIs(s: State, me: nat)
    requires me < |s.threads| == |s.parked|
    ensures s.threads[me].SleepWait? ==> Next(s, Step(me, false)) == s.(threads := s.threads[me := if s.parked[me] then Asleep else SleepClosed])
    ensures s.threads[me].Asleep? ==> Next(s, Spurious(me)) == s.(threads := s.threads[me := SleepClosed])
    ensures s.threads[me].RetryClosed? ==> Next(s, GiveUpRetry(me)) == s.(threads := s.threads[me := RegLock])
  {
    hide EnterStep, NoteStep, CloseStep;
  }

  lemma NoteIs(s: State, me: nat)
    requires me < |s.threads|
    ensures s.threads[me].NoteEmpty? ==> Next(s, Step(me, false)) == s.(threads := s.threads[me := if s.empty then NoteDone else NoteLock])
    ensures s.threads[me].NoteInside? ==> Next(s, Step(me, false)) == s.(
        threads := s.threads[me := NoteScan(0)],
        meta := if s.meta.start < |s.meta.waiters| then s.meta.(start := s.meta.start + 1) else s.meta)
  {
    hide EnterStep, SleepStep, CloseStep;
  }

  lemma ScanIs(s: State, me: nat)
    requires me < |s.threads| && s.threads[me].NoteScan?
    requires s.meta.start <= |s.meta.waiters| && forall i :: 0 <= i < |s.meta.waiters| ==> s.meta.waiters[i] < |s.parked|
    ensures
      var idx := s.threads[me].idx;
      Next(s, Step(me, false)) == s.(threads := s.threads[me :=
        if idx >= s.meta.start then NoteUnlock
        else if s.parked[s.meta.waiters[idx]] then NoteWake(idx) else NoteScan(idx + 1)])
  {
    hide EnterStep, SleepStep, CloseStep;
  }

  lemma CloseIs(s: State, me: nat)
    requires me < |s.threads|
    ensures s.threads[me].CloseFlag? ==> Next(s, Step(me, false)) == s.(threads := s.threads[me := CloseLock], queueClosed := true)
    ensures s.threads[me].CloseInside? && s.meta.waiters != [] ==>
        Next(s, Step(me, false)) == s.(threads := s.threads[me := CloseWake(0)], meta := s.meta.(closed := true))
    ensures s.threads[me].CloseInside? && s.meta.waiters == [] ==>
        Next(s, Step(me, false)) == s.(threads := s.threads[me := CloseUnlockEnd], empty := true, drained := true)
  {
    hide EnterStep, SleepStep, NoteStep;
  }

  /** The futex wake of entry idx, for a notifier and for a closer. */
  function Woken(threads: seq<Pc>, me: nat, pc: Pc, o: nat): (r: seq<Pc>)
    requires me < |threads|
    ensures |r| == |threads| && (o < |threads| && o != me ==> r[o] == if threads[o].Asleep? then SleepClosed else threads[o])
    ensures pc.NoteScan? || pc.CloseWake? ==> r[me] == pc
  {
    var moved := threads[me := pc];
    if o < |moved| && moved[o].Asleep? then moved[o := SleepClosed] else moved
  }

  lemma WakeIs(s: State, me: nat)
    requires me < |s.threads|
    ensures
      var pc := s.threads[me];
      var n := |s.meta.waiters|;
      && (pc.NoteWake? && pc.idx < n ==>
        Next(s, Step(me, false)) == s.(threads := Woken(s.threads, me, NoteScan(pc.idx + 1), s.meta.waiters[pc.idx])))
      && (pc.CloseWake? ==>
        Next(s, Step(me, false)) == if pc.idx < n then s.(threads := Woken(s.threads, me, CloseWake(pc.idx + 1), s.meta.waiters[pc.idx])) else s.(threads := s.threads[me := CloseUnlock]))
  {
    hide EnterStep, SleepStep;
  }

  /** What a notifier behind the lock may rely on. */
  lemma ScanSafe(s: State, me: nat)
    requires T.Inv(s) && me < |s.threads|
    ensures s.meta.start <= |s.meta.waiters| && forall i :: 0 <= i < |s.meta.waiters| ==> s.meta.waiters[i] < |s.parked|
    ensures s.threads[me].NoteWake? ==> s.threads[me].idx < |s.meta.waiters|
  {
    assert T.ThreadOk(s, me);
    forall i | 0 <= i < |s.meta.waiters| ensures s.meta.waiters[i] < |s.parked| {
      assert s.meta.waiters[i] in s.meta.waiters;
    }
  }
}
