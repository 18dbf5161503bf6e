/**
 From a send to the receive that waits for it, and from a receive to the send that waits for room: the notification wakes
 the sleeper, which then gets what it waited for. And exactly which waiting calls need a notification.
 */
module MpmcQueueHandover {
  import opened Words
  import opened Options
  import opened Tickets
  import opened MpmcQueue
  import opened MpmcQueueInvariant
  import opened MpmcQueueTheorems
  import opened MpmcQueueWatch
  import opened MpmcQueueWakes
  import opened MpmcQueueServed
  import M = MpmcRing
  import I = MpmcInvariant
  import S = MpmcSteps
  import R = MpmcTheorems
  import W = Waker
  import T = WakerTheorems
  import U = WakerUse

  lemma {:induction false} WatchOn<T>(q: Queue<T>, run: seq<Action<T>>)
    requires WatchInv(q)
    ensures WatchInv(Exec(q, run))
  {
    hide Next, WatchInv;
    if run != [] {
      WatchOn(q, run[..|run| - 1]);
      StepKeepsWatch(Exec(q, run[..|run| - 1]), run[|run| - 1]);
    }
  }

  // ---------------------------------------------------------------- the publication

  /** With the head's lap stored the next message is there. */
  lemma PublishedHead<T>(r: M.Ring<T>, me: nat)
    requires I.Inv(r) && me < |r.threads| && r.threads[me].SPublish? && r.threads[me].claim.ticket == |r.taken|
    ensures
      var r' := M.Next(r, M.Advance(me));
      && I.Inv(r') && |r.taken| < |r.sent| && r'.taken == r.taken && r'.sent == r.sent && |r'.threads| == |r.threads| && HeadThere(r')
      && forall o :: 0 <= o < |r.threads| && o != me ==> r'.threads[o] == r.threads[o]
  {
    S.SendWindowFacts(r, me);
    S.StepKeepsInv(r, M.Advance(me));
    Publishes(r, me);
    hide I.Inv, M.Next;
  }

  lemma Publishes<T>(r: M.Ring<T>, me: nat)
    requires me < |r.threads| && r.threads[me].SPublish? && r.threads[me].claim.idx < |r.slots|
    ensures
      var r' := M.Next(r, M.Advance(me));
      && r'.taken == r.taken && r'.sent == r.sent && r'.senders == r.senders && |r'.threads| == |r.threads| && r'.threads[me].SDone?
      && forall o :: 0 <= o < |r.threads| && o != me ==> r'.threads[o] == r.threads[o]
  {
  }

  /** A sleeper no longer asleep is about to look. */
  lemma WokenLooks(w: W.State, w': W.State, o: nat)
    requires U.WakerOk(w') && o < |w.threads| == |w'.threads| && w.threads[o].Asleep? && w'.lock == None
    requires w'.threads[o] == w.threads[o] || w'.threads[o].SleepClosed?
    requires !w'.threads[o].Asleep?
    ensures LooksYet(w', o)
  {
    hide U.WakerOk;
  }

  /**
   A `send` is about to publish the head's message, and a `recv` sleeps among the waiters its notification reaches, be it the
   only one. The send alone to its end, with the readers' lock free, and then the receive alone: it is delivered that message.
   */
  lemma SendHandsOver<T>(q: Queue<T>, me: nat, o: nat, i: nat) returns (n: nat, m: nat)
    requires WatchInv(q) && me < |q.phases| && me < |q.ring.threads| && q.phases[me].InRing?
    requires q.ring.threads[me].SPublish? && q.ring.threads[me].claim.ticket == |q.ring.taken| && q.readers.lock == None
    requires i < |q.readers.meta.waiters| && i <= q.readers.meta.start && q.readers.meta.waiters[i] == o
    requires o < |q.readers.threads| && q.readers.threads[o].Asleep?
    ensures
      var q' := Exec(Exec(q, Steps(me, n)), Steps(o, m));
      && |q.ring.taken| < |q.ring.sent| && o < |q'.ring.threads|
      && q'.ring.threads[o] == M.RDone(M.Received(|q.ring.taken|, q.ring.sent[|q.ring.taken|]))
  {
    WatchMeans(q);
    n := PublishWakes(q, me);
    var q1 := Exec(q, Steps(me, n));
    WatchOn(q, Steps(me, n));
    PublishedHead(q.ring, me);
    hide Exec, M.Next, Inv, I.Inv, WatchInv, HeadThere, RecvReady, OnlyWoke;
    ReaderReady(q, q1, me, o);
    m := WaitingRecvServed(q1, o);
  }

  lemma WatchMeans<T>(q: Queue<T>)
    requires WatchInv(q)
    ensures Inv(q) && I.Inv(q.ring)
  {
  }

  lemma ReaderReady<T>(q: Queue<T>, q1: Queue<T>, me: nat, o: nat)
    requires Inv(q) && WatchInv(q1) && me < |q.phases| && q.phases[me].InRing? && o < |q.readers.threads| && q.readers.threads[o].Asleep?
    requires OnlyWoke(q, q1, me, false) && q1.readers.lock == None && o < |q1.readers.threads| && !q1.readers.threads[o].Asleep?
    requires I.Shape(q1.ring) && HeadThere(q1.ring)
    ensures RecvReady(q1, o) && o < |q.ring.threads|
  {
    SleeperWaits(q, me, o, false);
    WatchMeans(q1);
    ReadersOk(q1);
    hide Inv, I.Inv, WatchInv, HeadThere, U.WakerOk, LooksYet;
    WokeOne(q, q1, me, o, false);
    hide OnlyWoke;
    WokenLooks(q.readers, q1.readers, o);
  }

  lemma WokeOne<T>(q: Queue<T>, q1: Queue<T>, me: nat, o: nat, writers: bool)
    requires OnlyWoke(q, q1, me, writers) && o != me && o < |q.phases| && o < |WakerOf(q, writers).threads|
    ensures |q1.phases| == |q.phases| && q1.phases[o] == q.phases[o] && |WakerOf(q1, writers).threads| == |WakerOf(q, writers).threads|
    ensures
      var w, w1 := WakerOf(q, writers), WakerOf(q1, writers);
      w1.threads[o] == w.threads[o] || w1.threads[o].SleepClosed?
  {
  }

  /** A sleeper of a waker is a call that waits there. */
  lemma SleeperWaits<T>(q: Queue<T>, me: nat, o: nat, writers: bool)
    requires Inv(q) && me < |q.phases| && q.phases[me].InRing? && o < |WakerOf(q, writers).threads| && WakerOf(q, writers).threads[o].Asleep?
    ensures o != me && o < |q.phases| && o < |q.ring.threads|
    ensures if writers then q.phases[o].WaitsWriter? && q.ring.threads[o].SWait? else q.phases[o].WaitsReader?
  {
    assert Sizes(q) && PlaceOk(q, o) && PlaceOk(q, me);
    hide Inv;
  }

  lemma ReadersOk<T>(q: Queue<T>)
    requires Inv(q)
    ensures U.WakerOk(q.readers) && U.WakerOk(q.writers)
  {
  }

  // ---------------------------------------------------------------- the release

  /** With the lap of the ticket one turn back stored the next slot is free. */
  lemma ReleasedTail<T>(r: M.Ring<T>, me: nat)
    requires I.Inv(r) && me < |r.threads| && r.threads[me].RRelease? && r.threads[me].claim.ticket + |r.slots| == |r.sent|
    ensures
      var r' := M.Next(r, M.Advance(me));
      && I.Inv(r') && r'.sent == r.sent && r'.writeMeta == r.writeMeta && |r'.threads| == |r.threads| && TailFree(r')
      && forall o :: 0 <= o < |r.threads| && o != me ==> r'.threads[o] == r.threads[o]
  {
    S.RecvWindowFacts(r, me);
    S.StepKeepsInv(r, M.Advance(me));
    Releases(r, me);
    hide I.Inv, M.Next;
  }

  lemma Releases<T>(r: M.Ring<T>, me: nat)
    requires me < |r.threads| && r.threads[me].RRelease? && r.threads[me].claim.idx < |r.slots|
    ensures
      var r' := M.Next(r, M.Advance(me));
      && r'.taken == r.taken && r'.sent == r.sent && r'.readers == r.readers && r'.writeMeta == r.writeMeta && |r'.slots| == |r.slots|
      && |r'.threads| == |r.threads| && r'.threads[me].RDone?
      && forall o :: 0 <= o < |r.threads| && o != me ==> r'.threads[o] == r.threads[o]
  {
  }

  /**
   A `recv` is about to release the slot of the next send, and a `send` sleeps among the waiters its notification reaches.
   The receive alone to its end, with the writers' lock free, and then the send alone: its message is accepted there.
   */
  lemma RecvLetsIn<T>(q: Queue<T>, me: nat, o: nat, i: nat) returns (n: nat, m: nat)
    requires WatchInv(q) && me < |q.phases| && me < |q.ring.threads| && q.phases[me].InRing? && !M.IsClosed(q.ring)
    requires q.ring.threads[me].RRelease? && q.ring.threads[me].claim.ticket + |q.ring.slots| == |q.ring.sent| && q.writers.lock == None
    requires i < |q.writers.meta.waiters| && i <= q.writers.meta.start && q.writers.meta.waiters[i] == o
    requires o < |q.writers.threads| && q.writers.threads[o].Asleep?
    ensures
      var q' := Exec(Exec(q, Steps(me, n)), Steps(o, m));
      && o < |q.ring.threads| && q.ring.threads[o].SWait? && o < |q'.ring.threads| && q'.ring.threads[o] == M.SDone(M.Sent(|q.ring.sent|))
      && q'.ring.sent == q.ring.sent + [q.ring.threads[o].msg]
  {
    WatchMeans(q);
    SleeperWaits(q, me, o, true);
    n := ReleaseWakes(q, me);
    var q1 := Exec(q, Steps(me, n));
    WatchOn(q, Steps(me, n));
    ReleasedTail(q.ring, me);
    hide Exec, M.Next, Inv, I.Inv, WatchInv, TailFree, SendReady, OnlyWoke;
    WriterReady(q, q1, me, o);
    m := WaitingSendServed(q1, o);
  }

  lemma WriterReady<T>(q: Queue<T>, q1: Queue<T>, me: nat, o: nat)
    requires Inv(q) && WatchInv(q1) && me < |q.phases| && q.phases[me].InRing? && o < |q.writers.threads| && q.writers.threads[o].Asleep?
    requires OnlyWoke(q, q1, me, true) && q1.writers.lock == None && o < |q1.writers.threads| && !q1.writers.threads[o].Asleep?
    requires I.Shape(q1.ring) && TailFree(q1.ring) && !M.IsClosed(q1.ring)
    ensures SendReady(q1, o)
  {
    SleeperWaits(q, me, o, true);
    WatchMeans(q1);
    ReadersOk(q1);
    hide Inv, I.Inv, WatchInv, TailFree, U.WakerOk, LooksYet, M.IsClosed;
    WokeOne(q, q1, me, o, true);
    hide OnlyWoke;
    WokenLooks(q.writers, q1.writers, o);
  }

  // ---------------------------------------------------------------- who needs a notification

  /** Waiting, past its last look. */
  ghost predicate Stays<T>(q: Queue<T>, me: nat, writers: bool) {
    && Inv(q) && me < |q.phases| && me < |WakerOf(q, writers).threads| && PastLook(WakerOf(q, writers).threads[me])
    && if writers then q.phases[me].WaitsWriter? else q.phases[me].WaitsReader?
  }

  lemma SleepsOn(w: W.State, me: nat, ready: bool)
    requires T.Inv(w) && me < |w.threads| && PastLook(w.threads[me])
    ensures me < |W.Next(w, W.Step(me, ready)).threads| && PastLook(W.Next(w, W.Step(me, ready)).threads[me])
  {
    assert T.ThreadOk(w, me);
    hide W.NoteStep, W.CloseStep, W.EnterStep, T.Inv;
  }

  lemma StaysStep<T>(q: Queue<T>, me: nat, writers: bool)
    requires Stays(q, me, writers)
    ensures Stays(Next(q, Step(me)), me, writers)
  {
    assert Sizes(q) && PlaceOk(q, me);
    StepKeepsInv(q, Step(me));
    var w := WakerOf(q, writers);
    assert U.WakerOk(w);
    SleepsOn(w, me, Ready(q, me));
    hide W.Next, M.Next, Inv, T.Inv, U.WakerOk;
  }

  lemma {:induction false} StaysOn<T>(q: Queue<T>, me: nat, writers: bool, n: nat)
    requires Stays(q, me, writers)
    ensures Stays(Exec(q, Steps(me, n)), me, writers)
    decreases n
  {
    hide Next, Stays;
    if n == 0 {
      OneStep(q, me);
    } else {
      StaysStep(q, me, writers);
      FirstStep(q, me, n - 1);
      StaysOn(Next(q, Step(me)), me, writers, n - 1);
    }
  }

  lemma StillWaits<T>(q: Queue<T>, me: nat, writers: bool)
    requires Stays(q, me, writers)
    ensures me < |q.ring.threads| && !q.ring.threads[me].RDone? && !q.ring.threads[me].SDone?
  {
    assert Sizes(q) && PlaceOk(q, me);
    hide Inv;
  }

  /** The call has its answer. */
  ghost predicate Answered<T>(q: Queue<T>, me: nat) {
    me < |q.ring.threads| && (q.ring.threads[me].RDone? || q.ring.threads[me].SDone?)
  }

  /** A waiting `recv` with the next message there and its waker's lock free comes back by itself exactly if it has another look before the futex. */
  lemma RecvNeedsNotice<T>(q: Queue<T>, me: nat)
    requires WatchInv(q) && me < |q.phases| && q.phases[me].WaitsReader? && I.Shape(q.ring) && HeadThere(q.ring)
    requires me < |q.readers.threads| && (q.readers.lock == None || q.readers.lock == Some(me))
    ensures (exists n :: Answered(Exec(q, Steps(me, n)), me)) <==> !PastLook(q.readers.threads[me])
  {
    assert Inv(q) && Sizes(q) && PlaceOk(q, me) && U.WakerOk(q.readers);
    hide Exec, Inv, HeadThere, WatchInv, U.WakerOk;
    if PastLook(q.readers.threads[me]) {
      forall n: nat ensures !Answered(Exec(q, Steps(me, n)), me) {
        StaysOn(q, me, false, n);
        StillWaits(Exec(q, Steps(me, n)), me, false);
      }
    } else {
      var n := WaitingRecvServed(q, me);
      assert Answered(Exec(q, Steps(me, n)), me);
    }
  }

  lemma SendNeedsNotice<T>(q: Queue<T>, me: nat)
    requires WatchInv(q) && me < |q.phases| && q.phases[me].WaitsWriter? && I.Shape(q.ring) && TailFree(q.ring) && !M.IsClosed(q.ring)
    requires me < |q.writers.threads| && (q.writers.lock == None || q.writers.lock == Some(me))
    ensures (exists n :: Answered(Exec(q, Steps(me, n)), me)) <==> !PastLook(q.writers.threads[me])
  {
    assert Inv(q) && Sizes(q) && PlaceOk(q, me) && U.WakerOk(q.writers);
    hide Exec, Inv, TailFree, WatchInv, U.WakerOk, M.IsClosed;
    if PastLook(q.writers.threads[me]) {
      forall n: nat ensures !Answered(Exec(q, Steps(me, n)), me) {
        StaysOn(q, me, true, n);
        StillWaits(Exec(q, Steps(me, n)), me, true);
      }
    } else {
      var n := WaitingSendServed(q, me);
      assert Answered(Exec(q, Steps(me, n)), me);
    }
  }
}
