/**
 The waker as a step system: threads that register, sleep and unregister, threads that notify, and threads that
 close, any number of each, one step per access to a shared word. The slot lap a waiter watches is left
 to the environment: each look at it comes with the answer.
 */
module Waker {
  import opened Options

  // ---------------------------------------------------------------- the metadata behind the lock

  /** The deque of waiters (a waiter is named by its thread), how many of them notify has reached, and the closed mark. */
  datatype Metadata = Metadata(waiters: seq<nat>, start: nat, closed: bool)

  function Register(m: Metadata, w: nat): Metadata {
    m.(waiters := m.waiters + [w])
  }

  /** Where w first stands in the deque, or its length. */
  function IndexOf(ws: seq<nat>, w: nat): (i: nat)
    ensures i <= |ws| && w !in ws[..i] && (i < |ws| ==> ws[i] == w)
  {
    if ws == [] || ws[0] == w then 0
    else
      var i := 1 + IndexOf(ws[1..], w);
      assert ws[..i] == [ws[0]] + ws[1..][..i - 1];
      i
  }

  function Unregister(m: Metadata, w: nat): (r: Metadata)
    ensures r.closed == m.closed
  {
    var i := IndexOf(m.waiters, w);
    if i == |m.waiters| then m
    else m.(waiters := m.waiters[..i] + m.waiters[i + 1..], start := if m.start > 0 then m.start - 1 else 0)
  }

  /** The first half of `notify`: reach one waiter more. */
  function Reach(m: Metadata): Metadata {
    if m.start < |m.waiters| then m.(start := m.start + 1) else m
  }

  // ---------------------------------------------------------------- threads

  datatype Outcome = Success | Closed | NotRegistered

  datatype Pc =
    | Idle
    | RetryClosed              // `retry`: before loading the closed flag
    | RetryLap                 // before loading the lap
    | RegLock                  // `register`: before taking the lock
    | RegInside                // lock held: closed mark, lap, push
    | RegStoreEmpty
    | RegUnlock
    | RegUnlockFail
    | SleepClosed              // `sleep`: before loading the closed flag
    | SleepLap
    | SleepPark                // before storing PARKED
    | SleepWait                // before the futex wait
    | Asleep
    | SleepUnpark(out: Outcome)
    | UnregLock(out: Outcome)  // `unregister`
    | UnregInside(out: Outcome)
    | UnregStoreEmpty(out: Outcome)
    | UnregUnlock(out: Outcome)
    | WaitDone(out: Outcome)
    | NoteEmpty                // `wake_one`: before loading the empty flag
    | NoteLock
    | NoteInside
    | NoteScan(idx: nat)       // before loading waiter idx's parked word
    | NoteWake(idx: nat)
    | NoteUnlock
    | NoteDone
    | CloseFlag                // before setting the queue's closed flag
    | CloseLock                // `Waker::close`
    | CloseInside
    | CloseWake(idx: nat)
    | CloseUnlock              // the list was not empty: go round
    | CloseUnlockEnd
    | CloseDone
    | Undefined

  /** `parked[o]` is the parked word of thread o's waiter. `closeReturned`: some `Waker::close` has returned (history). */
  datatype State = State(
    lock: Option<nat>,
    meta: Metadata,
    empty: bool,
    queueClosed: bool,
    parked: seq<bool>,
    threads: seq<Pc>,
    drained: bool,
    closeReturned: bool)

  datatype Action =
    | StartWait(me: nat)
    | StartWakeOne(me: nat)
    | StartClose(me: nat)
    | Step(me: nat, ready: bool)  // `ready`: a lap load made by this step finds the slot changed
    | GiveUpRetry(me: nat)        // the retries are used up: go on to register
    | Spurious(me: nat)           // a futex wait may return for no reason
    | RaiseFlag(me: nat)          // the queue's closed flag is set elsewhere

  function Init(threads: nat): State {
    State(None, Metadata([], 0, false), true, false, seq(threads, _ => false), seq(threads, _ => Idle), false, false)
  }

  predicate AtRest(pc: Pc) {
    pc.Idle? || pc.WaitDone? || pc.NoteDone? || pc.CloseDone?
  }

  predicate Entering(pc: Pc) {
    || pc.RetryClosed? || pc.RetryLap? || pc.RegLock? || pc.RegInside? || pc.RegStoreEmpty? || pc.RegUnlock? || pc.RegUnlockFail?
  }

  predicate Sleeping(pc: Pc) {
    || pc.SleepClosed? || pc.SleepLap? || pc.SleepPark? || pc.SleepWait? || pc.SleepUnpark?
    || pc.UnregLock? || pc.UnregInside? || pc.UnregStoreEmpty? || pc.UnregUnlock?
  }

  predicate Noting(pc: Pc) {
    pc.NoteEmpty? || pc.NoteLock? || pc.NoteInside? || pc.NoteScan? || pc.NoteWake? || pc.NoteUnlock?
  }

  predicate Closing(pc: Pc) {
    pc.CloseFlag? || pc.CloseLock? || pc.CloseInside? || pc.CloseWake? || pc.CloseUnlock? || pc.CloseUnlockEnd?
  }

  function Goto(s: State, me: nat, pc: Pc): State
    requires me < |s.threads|
  {
    s.(threads := s.threads[me := pc])
  }

  function Acquire(s: State, me: nat, pc: Pc): State
    requires me < |s.threads|
  {
    if s.lock == None then Goto(s, me, pc).(lock := Some(me)) else s
  }

  function Release(s: State, me: nat, pc: Pc): State
    requires me < |s.threads|
  {
    Goto(s, me, pc).(lock := None)
  }

  function Park(s: State, me: nat, parked: bool, pc: Pc): State
    requires me < |s.threads|
  {
    Goto(s, me, pc).(parked := if me < |s.parked| then s.parked[me := parked] else s.parked)
  }

  /** The futex wakes thread o if it sleeps. */
  function Wake(s: State, o: nat): State {
    if o < |s.threads| && s.threads[o].Asleep? then Goto(s, o, SleepClosed) else s
  }

  /** `retry` and `register`. */
  function EnterStep(s: State, me: nat, ready: bool): (r: State)
    requires me < |s.threads|
    ensures |r.threads| == |s.threads| && r.queueClosed == s.queueClosed && r.closeReturned == s.closeReturned
  {
    match s.threads[me]
    case RetryClosed => Goto(s, me, if s.queueClosed then WaitDone(Closed) else RetryLap)
    case RetryLap => Goto(s, me, if ready then WaitDone(Success) else RetryClosed)
    case RegLock => Acquire(s, me, RegInside)
    case RegInside =>
      if s.meta.closed || ready then Goto(s, me, RegUnlockFail)
      else Goto(s, me, RegStoreEmpty).(meta := Register(s.meta, me))
    case RegStoreEmpty => Goto(s, me, RegUnlock).(empty := false)
    case RegUnlock => Release(s, me, SleepClosed)
    case RegUnlockFail => Release(s, me, WaitDone(NotRegistered))
    case _ => s
  }

  /** `sleep` and `unregister`. */
  function SleepStep(s: State, me: nat, ready: bool): (r: State)
    requires me < |s.threads|
    ensures |r.threads| == |s.threads| && r.queueClosed == s.queueClosed && r.closeReturned == s.closeReturned
  {
    match s.threads[me]
    case SleepClosed => Goto(s, me, if s.queueClosed then SleepUnpark(Closed) else SleepLap)
    case SleepLap => Goto(s, me, if ready then SleepUnpark(Success) else SleepPark)
    case SleepPark => Park(s, me, true, SleepWait)
    case SleepWait => Goto(s, me, if me < |s.parked| && s.parked[me] then Asleep else SleepClosed)
    case SleepUnpark(out) => Park(s, me, false, UnregLock(out))
    case UnregLock(out) => Acquire(s, me, UnregInside(out))
    case UnregInside(out) => Goto(s, me, UnregStoreEmpty(out)).(meta := Unregister(s.meta, me))
    case UnregStoreEmpty(out) => Goto(s, me, UnregUnlock(out)).(empty := s.meta.waiters == [])
    case UnregUnlock(out) => Release(s, me, WaitDone(out))
    case _ => s
  }

  function NoteStep(s: State, me: nat): (r: State)
    requires me < |s.threads|
    ensures |r.threads| == |s.threads| && (s.queueClosed ==> r.queueClosed) && (s.closeReturned ==> r.closeReturned)
  {
    match s.threads[me]
    case NoteEmpty => Goto(s, me, if s.empty then NoteDone else NoteLock)
    case NoteLock => Acquire(s, me, NoteInside)
    case NoteInside => Goto(s, me, NoteScan(0)).(meta := Reach(s.meta))
    case NoteScan(idx) =>
      if idx >= s.meta.start then Goto(s, me, NoteUnlock)
      else if idx >= |s.meta.waiters| || s.meta.waiters[idx] >= |s.parked| then Goto(s, me, Undefined)
      else Goto(s, me, if s.parked[s.meta.waiters[idx]] then NoteWake(idx) else NoteScan(idx + 1))
    case NoteWake(idx) =>
      if idx >= |s.meta.waiters| then Goto(s, me, Undefined)
      else Wake(Goto(s, me, NoteScan(idx + 1)), s.meta.waiters[idx])
    case NoteUnlock => Release(s, me, NoteDone)
    case _ => s
  }

  function CloseStep(s: State, me: nat): (r: State)
    requires me < |s.threads|
    ensures |r.threads| == |s.threads| && (s.queueClosed ==> r.queueClosed) && (s.closeReturned ==> r.closeReturned)
  {
    match s.threads[me]
    case CloseFlag => Goto(s, me, CloseLock).(queueClosed := true)
    case CloseLock => Acquire(s, me, CloseInside)
    case CloseInside =>
      if s.meta.waiters != [] then Goto(s, me, CloseWake(0)).(meta := s.meta.(closed := true))
      else Goto(s, me, CloseUnlockEnd).(empty := true, drained := true)
    case CloseWake(idx) =>
      if idx >= |s.meta.waiters| then Goto(s, me, CloseUnlock)
      else Wake(Goto(s, me, CloseWake(idx + 1)), s.meta.waiters[idx])
    case CloseUnlock => Release(s, me, CloseLock)
    case CloseUnlockEnd => Release(s, me, CloseDone).(closeReturned := true)
    case _ => s
  }

  function Next(s: State, a: Action): (r: State)
    ensures |r.threads| == |s.threads| && (s.queueClosed ==> r.queueClosed) && (s.closeReturned ==> r.closeReturned)
  {
    if a.me >= |s.threads| then s else
    var pc := s.threads[a.me];
    match a
    case StartWait(me) => if AtRest(pc) then Park(s, me, false, RetryClosed) else s
    case StartWakeOne(me) => if AtRest(pc) then Goto(s, me, NoteEmpty) else s
    case StartClose(me) => if AtRest(pc) then Goto(s, me, CloseFlag) else s
    case GiveUpRetry(me) => if pc.RetryClosed? then Goto(s, me, RegLock) else s
    case Spurious(me) => if pc.Asleep? then Goto(s, me, SleepClosed) else s
    case RaiseFlag(_) => s.(queueClosed := true)
    case Step(me, ready) =>
      if Entering(pc) then EnterStep(s, me, ready)
      else if Sleeping(pc) then SleepStep(s, me, ready)
      else if Noting(pc) then NoteStep(s, me)
      else if Closing(pc) then CloseStep(s, me)
      else s
  }

  function Exec(s: State, run: seq<Action>): State {
    if run == [] then s else Next(Exec(s, run[..|run| - 1]), run[|run| - 1])
  }
}
