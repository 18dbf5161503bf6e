/** A notification alone: which sleepers it leaves awake. */
module WakerNotes {
  import opened Options
  import opened Waker
  import opened WakerSteps
  import T = WakerTheorems

  /** How many waiters a notification reaches: those reached before, and one more. */
  function Reachable(m: Metadata): nat {
    if m.start < |m.waiters| then m.start + 1 else |m.waiters|
  }

  /** None of the first n in the list is asleep. */
  ghost predicate AwakeUpTo(w: State, ws: seq<nat>, n: nat)
    requires n <= |ws|
  {
    forall i :: 0 <= i < n ==> ws[i] < |w.threads| && !w.threads[ws[i]].Asleep?
  }

  /** A notification on its way to waking the first `reach` of ws, nobody else being inside. */
  ghost predicate Wakes(w: State, me: nat, ws: seq<nat>, reach: nat) {
    && T.Inv(w) && me < |w.threads| && w.meta.waiters == ws && reach <= |ws|
    && (w.lock == None || w.lock == Some(me))
    && match w.threads[me]
       case NoteEmpty => reach == Reachable(w.meta)
       case NoteLock => reach == Reachable(w.meta)
       case NoteInside => reach == Reachable(w.meta)
       case NoteScan(idx) => w.meta.start == reach && idx <= reach && AwakeUpTo(w, ws, idx)
       case NoteWake(idx) => w.meta.start == reach && idx < reach && AwakeUpTo(w, ws, idx)
       case NoteUnlock => AwakeUpTo(w, ws, reach)
       case NoteDone => w.lock == None && AwakeUpTo(w, ws, reach)
       case _ => false
  }

  function NoteRank(w: State, me: nat, reach: nat): nat
    requires me < |w.threads|
  {
    match w.threads[me]
    case NoteEmpty => 2 * reach + 6
    case NoteLock => 2 * reach + 5
    case NoteInside => 2 * reach + 4
    case NoteScan(idx) => if idx <= reach then 2 * (reach - idx) + 3 else 0
    case NoteWake(idx) => if idx <= reach then 2 * (reach - idx) + 2 else 0
    case NoteUnlock => 1
    case _ => 0
  }

  /** What the theorem says of the step. */
  ghost predicate Nears(w: State, w': State, me: nat, ws: seq<nat>, reach: nat) {
    me < |w.threads| && me < |w'.threads| && Wakes(w', me, ws, reach) && NoteRank(w', me, reach) < NoteRank(w, me, reach)
  }

  lemma LooksInList(w: State, me: nat, ws: seq<nat>, reach: nat)
    requires Wakes(w, me, ws, reach) && w.threads[me].NoteEmpty? && T.Inv(Next(w, Step(me, false)))
    ensures Nears(w, Next(w, Step(me, false)), me, ws, reach)
  {
    NoteIs(w, me);
    assert T.ThreadOk(w, me);
    hide Next;
  }

  lemma GoesInside(w: State, me: nat, ws: seq<nat>, reach: nat)
    requires Wakes(w, me, ws, reach) && w.threads[me].NoteLock? && T.Inv(Next(w, Step(me, false)))
    ensures Nears(w, Next(w, Step(me, false)), me, ws, reach)
  {
    LockIs(w, me);
    assert T.ThreadOk(w, me);
    hide Next, T.Inv;
  }

  lemma ReachesOne(w: State, me: nat, ws: seq<nat>, reach: nat)
    requires Wakes(w, me, ws, reach) && w.threads[me].NoteInside? && T.Inv(Next(w, Step(me, false)))
    ensures Nears(w, Next(w, Step(me, false)), me, ws, reach)
  {
    NoteIs(w, me);
    hide Next;
    assert w.meta.start <= |w.meta.waiters|;
    hide T.Inv;
  }

  /** A waiter that is not parked is not asleep. */
  lemma ScansOne(w: State, me: nat, ws: seq<nat>, reach: nat)
    requires Wakes(w, me, ws, reach) && w.threads[me].NoteScan? && T.Inv(Next(w, Step(me, false)))
    ensures Nears(w, Next(w, Step(me, false)), me, ws, reach)
  {
    var idx := w.threads[me].idx;
    ScanSafe(w, me);
    ScanIs(w, me);
    if idx < reach {
      assert ws[idx] in w.meta.waiters;
      assert T.ThreadOk(w, ws[idx]);
    }
    hide Next, T.Inv;
  }

  lemma WakesOne(w: State, me: nat, ws: seq<nat>, reach: nat)
    requires Wakes(w, me, ws, reach) && w.threads[me].NoteWake? && T.Inv(Next(w, Step(me, false)))
    ensures Nears(w, Next(w, Step(me, false)), me, ws, reach)
  {
    var idx := w.threads[me].idx;
    ScanSafe(w, me);
    WakeIs(w, me);
    assert ws[idx] in w.meta.waiters;
    WakeKeeps(w.threads, me, NoteScan(idx + 1), ws[idx]);
    hide Next, T.Inv, Woken;
  }

  lemma WakeKeeps(threads: seq<Pc>, me: nat, pc: Pc, o: nat)
    requires me < |threads| && pc.NoteScan?
    ensures var r := Woken(threads, me, pc, o);
      forall p :: 0 <= p < |threads| && !threads[p].Asleep? ==> !r[p].Asleep?
    ensures o < |threads| ==> !Woken(threads, me, pc, o)[o].Asleep?
  {
  }

  lemma Leaves(w: State, me: nat, ws: seq<nat>, reach: nat)
    requires Wakes(w, me, ws, reach) && w.threads[me].NoteUnlock? && T.Inv(Next(w, Step(me, false)))
    ensures Nears(w, Next(w, Step(me, false)), me, ws, reach)
  {
    UnlockIs(w, me);
    hide Next, T.Inv;
  }

  /** Each step of its own brings the notification nearer its end, with those it has passed awake. */
  lemma NoteNears(w: State, me: nat, ws: seq<nat>, reach: nat)
    requires Wakes(w, me, ws, reach) && !w.threads[me].NoteDone?
    ensures Nears(w, Next(w, Step(me, false)), me, ws, reach)
  {
    T.StepKeepsInv(w, Step(me, false));
    hide T.Inv, Nears, Next;
    match w.threads[me]
    case NoteEmpty => LooksInList(w, me, ws, reach);
    case NoteLock => GoesInside(w, me, ws, reach);
    case NoteInside => ReachesOne(w, me, ws, reach);
    case NoteScan(_) => ScansOne(w, me, ws, reach);
    case NoteWake(_) => WakesOne(w, me, ws, reach);
    case NoteUnlock => Leaves(w, me, ws, reach);
  }
}
