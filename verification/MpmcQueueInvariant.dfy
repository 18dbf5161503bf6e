/** What every step of the whole queue keeps. */
module MpmcQueueInvariant {
  import opened Words
  import opened MpmcQueue
  import M = MpmcRing
  import I = MpmcInvariant
  import S = MpmcSteps
  import R = MpmcTheorems
  import W = Waker
  import T = WakerTheorems
  import U = WakerUse

  /** Each thread stands in the ring or in a waker where its phase says, and is at rest in the other wakers. */
  ghost predicate PlaceOk<T>(q: Queue<T>, o: nat)
    requires Has(q, o)
  {
    var pc, w, r := q.ring.threads[o], q.writers.threads[o], q.readers.threads[o];
    match q.phases[o]
    case InRing => W.AtRest(w) && W.AtRest(r)
    case WaitsWriter => pc.SWait? && U.InWait(w) && W.AtRest(r)
    case WaitsReader => pc.RWait? && W.AtRest(w) && U.InWait(r)
    case NotifiesReaders => pc.SDone? && W.AtRest(w) && U.InNote(r)
    case NotifiesWriters => pc.RDone? && U.InNote(w) && W.AtRest(r)
    case ClosesWriters => pc.CDone? && U.InClose(w) && W.AtRest(r)
    case ClosesReaders => pc.CDone? && W.AtRest(w) && U.InClose(r) && q.writers.closeReturned
  }

  /** Some close is at work on the wakers. */
  ghost predicate Working<T>(q: Queue<T>) {
    exists o :: 0 <= o < |q.phases| && (q.phases[o].ClosesWriters? || q.phases[o].ClosesReaders?)
  }

  ghost predicate Sizes<T>(q: Queue<T>) {
    |q.phases| == |q.watch| == |q.ring.threads| == |q.writers.threads| == |q.readers.threads|
  }

  /** The ring is full of claims: the next one would set the bit, or the last one has. */
  ghost predicate UsedUp<T>(r: M.Ring<T>) {
    |r.sent| == I.MAX_ROUNDS * |r.slots|
  }

  ghost predicate Flags<T>(q: Queue<T>) {
    && q.writers.queueClosed == q.readers.queueClosed == M.IsClosed(q.ring)
    && (q.returned ==> M.IsClosed(q.ring))
    && (q.through ==> q.writers.closeReturned && q.readers.closeReturned)
    && (Working(q) ==> M.IsClosed(q.ring))
    && (M.IsClosed(q.ring) && !UsedUp(q.ring) ==> Working(q) || q.through)
  }

  ghost predicate Shared<T>(q: Queue<T>) {
    Sizes(q) && I.Inv(q.ring) && U.WakerOk(q.writers) && U.WakerOk(q.readers) && Flags(q)
  }

  ghost predicate Inv<T>(q: Queue<T>) {
    Shared(q) && forall o :: 0 <= o < |q.phases| ==> PlaceOk(q, o)
  }

  lemma InitInv<T>(cap: U32, threads: nat)
    requires cap <= MAX_CAPACITY
    ensures Inv(Init<T>(cap, threads))
  {
    I.InitInv<T>(cap, threads);
    U.InitOk(threads);
    R.SelfCloseExact<T>(cap, threads, []);
  }

  // ---------------------------------------------------------------- frames

  /** What a step of thread me may do to another thread. */
  ghost predicate Leaves<T>(q: Queue<T>, q': Queue<T>, o: nat)
    requires Has(q, o) && Has(q', o)
  {
    && q'.phases[o] == q.phases[o] && q'.ring.threads[o] == q.ring.threads[o]
    && U.Follows(q.writers.threads[o], q'.writers.threads[o]) && U.Follows(q.readers.threads[o], q'.readers.threads[o])
  }

  lemma LeavesPlace<T>(q: Queue<T>, q': Queue<T>, o: nat)
    requires Has(q, o) && Has(q', o) && PlaceOk(q, o) && Leaves(q, q', o) && (q.writers.closeReturned ==> q'.writers.closeReturned)
    ensures PlaceOk(q', o)
  {
    hide W.AtRest, U.InWait, U.InNote, U.InClose;
  }

  lemma OthersStayPlaced<T>(q: Queue<T>, q': Queue<T>, me: nat)
    requires Inv(q) && me < |q.phases| && Shared(q') && |q'.phases| == |q.phases|
    requires q.writers.closeReturned ==> q'.writers.closeReturned
    requires forall o :: 0 <= o < |q.phases| && o != me ==> Leaves(q, q', o)
    requires PlaceOk(q', me)
    ensures Inv(q')
  {
    assert Sizes(q) && Sizes(q');
    hide Shared, PlaceOk, Leaves;
    forall o | 0 <= o < |q'.phases| ensures PlaceOk(q', o) {
      if o != me {
        LeavesPlace(q, q', o);
      }
    }
  }

  // ---------------------------------------------------------------- the parts

  /** What a ring action does, as far as the wakers care. */
  lemma RingFacts<T>(r: M.Ring<T>, a: M.Action<T>)
    requires I.Inv(r)
    ensures var r' := M.Next(r, a);
      && I.Inv(r') && |r'.threads| == |r.threads| && |r'.slots| == |r.slots|
      && (forall o :: 0 <= o < |r.threads| && o != a.me ==> r'.threads[o] == r.threads[o])
      && (M.IsClosed(r) ==> M.IsClosed(r') && r'.sent == r.sent)
      && (M.IsClosed(r') && !M.IsClosed(r) ==>
            UsedUp(r') || (a.Advance? && a.me < |r.threads| && r.threads[a.me].CCas? && r.writeMeta == r.threads[a.me].meta))
  {
    S.StepKeepsInv(r, a);
    R.StepGrows(r, a);
    R.StepEffect(r, a);
    var r' := M.Next(r, a);
    if M.IsClosed(r') && !M.IsClosed(r) {
      if R.WinsSend(r, a) {
        WinCloses(r, a);
      } else {
        hide R.WinsSend, R.WinsRecv;
        assert r'.writeMeta != r.writeMeta;
        CloserWins(r, a);
      }
    }
  }

  /** A winning send sets the bit only with the last claim there is. */
  lemma WinCloses<T>(r: M.Ring<T>, a: M.Action<T>)
    requires I.Inv(r) && R.WinsSend(r, a)
    ensures I.Inv(M.Next(r, a)) && (M.IsClosed(M.Next(r, a)) ==> UsedUp(M.Next(r, a)))
  {
    S.StepKeepsInv(r, a);
    R.StepEffect(r, a);
    var r' := M.Next(r, a);
    assert I.ThreadOk(r, a.me, r.threads[a.me]);
    S.ClaimSendFits(r, a.me, r.threads[a.me].snap);
    I.BumpWriteMeta(|r.sent|, |r.slots|);
    assert r'.writeMeta == I.WriteMetaAt(|r'.sent|, |r'.slots|) && |r'.sent| <= I.MAX_ROUNDS * |r'.slots|;
    hide I.Inv, M.Next;
    I.WriteMetaFits(|r'.sent|, |r'.slots|);
  }

  lemma CloserWins<T>(r: M.Ring<T>, a: M.Action<T>)
    requires a.me < |r.threads| && r.threads[a.me].CCas? && M.Next(r, a).writeMeta != r.writeMeta
    ensures a.Advance? && r.writeMeta == r.threads[a.me].meta
  {
  }

  lemma FlaggedMoves(w: W.State, me: nat, closed: bool)
    requires U.WakerOk(w) && me < |w.threads| && (w.queueClosed ==> closed)
    ensures U.WakerOk(Flagged(w, me, closed)) && Flagged(w, me, closed) == w.(queueClosed := closed)
  {
    U.RaiseMoves(w, me);
    hide U.WakerOk, W.Next;
  }

  /** The state between a ring step and what it leads to. */
  ghost predicate Inner<T>(q: Queue<T>, q1: Queue<T>, me: nat)
    requires me < |q.phases| && Sizes(q)
  {
    && Sizes(q1) && |q1.phases| == |q.phases| && I.Inv(q1.ring) && U.WakerOk(q1.writers) && U.WakerOk(q1.readers)
    && q1.writers == q.writers.(queueClosed := M.IsClosed(q1.ring)) && q1.readers == q.readers.(queueClosed := M.IsClosed(q1.ring))
    && q1.phases == q.phases && q1.returned == q.returned && q1.through == q.through
    && |q1.ring.slots| == |q.ring.slots|
    && (forall o :: 0 <= o < |q.phases| && o != me ==> q1.ring.threads[o] == q.ring.threads[o])
    && (M.IsClosed(q.ring) ==> M.IsClosed(q1.ring) && q1.ring.sent == q.ring.sent)
  }

  lemma InnerMoves<T>(q: Queue<T>, me: nat)
    requires Inv(q) && me < |q.phases|
    ensures Inner(q, InnerStep(q, me), me)
    ensures M.IsClosed(InnerStep(q, me).ring) && !M.IsClosed(q.ring) ==>
      UsedUp(InnerStep(q, me).ring) || (q.ring.threads[me].CCas? && q.ring.writeMeta == q.ring.threads[me].meta)
  {
    hide M.Next, I.Inv, U.WakerOk, M.IsClosed, UsedUp;
    RingFacts(q.ring, M.Advance(me));
    var closed := M.IsClosed(M.Next(q.ring, M.Advance(me)));
    FlaggedMoves(q.writers, me, closed);
    FlaggedMoves(q.readers, me, closed);
  }

  // ---------------------------------------------------------------- steps in the ring

  /** A call begins. */
  lemma StartKeepsInv<T>(q: Queue<T>, call: M.Action<T>)
    requires Inv(q) && IsCall(call) && call.me < |q.phases| && Free(q, call.me)
    ensures Inv(Next(q, Start(call)))
  {
    assert PlaceOk(q, call.me);
    hide M.Next, I.Inv, U.WakerOk, M.IsClosed, UsedUp;
    var q', me := Next(q, Start(call)), call.me;
    RingFacts(q.ring, call);
    CallKeepsBit(q.ring, call);
    WorkingSame(q, q', me);
    OthersStayPlaced(q, q', me);
  }

  lemma CallKeepsBit<T>(r: M.Ring<T>, call: M.Action<T>)
    requires IsCall(call)
    ensures M.Next(r, call).writeMeta == r.writeMeta && M.Next(r, call).sent == r.sent && M.Next(r, call).slots == r.slots
    ensures M.IsClosed(M.Next(r, call)) == M.IsClosed(r) && UsedUp(M.Next(r, call)) == UsedUp(r)
  {
  }

  /** A step inside the ring that stays there. */
  lemma PlainKeepsInv<T>(q: Queue<T>, q': Queue<T>, me: nat)
    requires Inv(q) && me < |q.phases| && q.phases[me].InRing?
    requires !(q.ring.threads[me].CCas? && q.ring.writeMeta == q.ring.threads[me].meta)
    requires q' == InnerStep(q, me).(returned := q'.returned) && (q'.returned ==> q.returned || M.IsClosed(q.ring))
    ensures Inv(q')
  {
    assert PlaceOk(q, me);
    hide M.Next, I.Inv, U.WakerOk, M.IsClosed, UsedUp, InnerStep;
    InnerMoves(q, me);
    WorkingSame(q, q', me);
    UsedUpSame(q, q');
    OthersStayPlaced(q, q', me);
  }

  predicate Closes(p: Phase) {
    p.ClosesWriters? || p.ClosesReaders?
  }

  /** A thread that was not at work on a close and is not now changes nothing for the others. */
  lemma WorkingSame<T>(q: Queue<T>, q': Queue<T>, me: nat)
    requires me < |q.phases| == |q'.phases| && q'.phases == q.phases[me := q'.phases[me]]
    requires !Closes(q.phases[me]) && !Closes(q'.phases[me])
    ensures Working(q') == Working(q)
  {
    if Working(q) {
      var o :| 0 <= o < |q.phases| && (q.phases[o].ClosesWriters? || q.phases[o].ClosesReaders?);
      assert q'.phases[o] == q.phases[o];
    }
    if Working(q') {
      var o :| 0 <= o < |q'.phases| && (q'.phases[o].ClosesWriters? || q'.phases[o].ClosesReaders?);
      assert q.phases[o] == q'.phases[o];
    }
  }

  lemma UsedUpSame<T>(q: Queue<T>, q': Queue<T>)
    requires |q'.ring.slots| == |q.ring.slots|
    ensures q'.ring.sent == q.ring.sent ==> (UsedUp(q'.ring) <==> UsedUp(q.ring))
  {
  }

  /** The ends of calls in the ring. */
  lemma RingEnds<T>(r: M.Ring<T>, me: nat)
    requires I.Inv(r) && me < |r.threads|
    ensures r.threads[me].SPublish? ==> M.Next(r, M.Advance(me)).threads[me].SDone?
    ensures r.threads[me].RRelease? ==> M.Next(r, M.Advance(me)).threads[me].RDone?
    ensures r.threads[me].CCas? && r.writeMeta == r.threads[me].meta ==>
      M.Next(r, M.Advance(me)).threads[me].CDone? && M.IsClosed(M.Next(r, M.Advance(me)))
    ensures r.threads[me].CLoad? && r.writeMeta >= MASK64 ==> M.IsClosed(r)
  {
    ClosedBit(r.writeMeta);
    if r.threads[me].SPublish? || r.threads[me].RRelease? {
      S.WindowIdx(r, me);
    } else if r.threads[me].CCas? {
      ClosedBit(M.Next(r, M.Advance(me)).writeMeta);
    }
    hide I.Inv;
  }

  /** A send has published: a notification of the readers begins. */
  lemma PublishKeepsInv<T>(q: Queue<T>, me: nat)
    requires Inv(q) && me < |q.phases| && q.phases[me].InRing? && q.ring.threads[me].SPublish?
    ensures Inv(RingStep(q, me))
  {
    assert PlaceOk(q, me);
    hide M.Next, I.Inv, U.WakerOk, M.IsClosed, UsedUp, W.Next, InnerStep;
    InnerMoves(q, me);
    RingEnds(q.ring, me);
    InnerRing(q, me);
    var q1, q' := InnerStep(q, me), RingStep(q, me);
    U.WakerMoves(q1.readers, W.StartWakeOne(me));
    WorkingSame(q, q', me);
    UsedUpSame(q, q');
    OthersStayPlaced(q, q', me);
  }

  /** A receive has released: one of the writers. */
  lemma ReleaseKeepsInv<T>(q: Queue<T>, me: nat)
    requires Inv(q) && me < |q.phases| && q.phases[me].InRing? && q.ring.threads[me].RRelease?
    ensures Inv(RingStep(q, me))
  {
    assert PlaceOk(q, me);
    hide M.Next, I.Inv, U.WakerOk, M.IsClosed, UsedUp, W.Next, InnerStep;
    InnerMoves(q, me);
    RingEnds(q.ring, me);
    InnerRing(q, me);
    var q1, q' := InnerStep(q, me), RingStep(q, me);
    U.WakerMoves(q1.writers, W.StartWakeOne(me));
    WorkingSame(q, q', me);
    UsedUpSame(q, q');
    OthersStayPlaced(q, q', me);
  }

  lemma InnerRing<T>(q: Queue<T>, me: nat)
    requires Has(q, me)
    ensures InnerStep(q, me).ring == M.Next(q.ring, M.Advance(me))
  {
    hide M.Next, W.Next;
  }

  /** The winning CAS of a close. */
  lemma SetKeepsInv<T>(q: Queue<T>, me: nat)
    requires Inv(q) && me < |q.phases| && q.phases[me].InRing? && q.ring.threads[me].CCas? && q.ring.writeMeta == q.ring.threads[me].meta
    ensures Inv(RingStep(q, me))
  {
    assert PlaceOk(q, me);
    hide M.Next, I.Inv, U.WakerOk, M.IsClosed, UsedUp, W.Next, InnerStep, U.Enter;
    InnerMoves(q, me);
    RingEnds(q.ring, me);
    InnerRing(q, me);
    var q1, q' := InnerStep(q, me), RingStep(q, me);
    U.EnterMoves(q1.writers, me);
    assert q'.phases[me].ClosesWriters?;
    OthersStayPlaced(q, q', me);
  }

  /** A thread that found no room begins to wait. */
  lemma SendWaitsKeepsInv<T>(q: Queue<T>, me: nat)
    requires Inv(q) && me < |q.phases| && q.phases[me].InRing? && q.ring.threads[me].SWait?
    ensures Inv(RingStep(q, me))
  {
    assert PlaceOk(q, me);
    hide M.Next, I.Inv, U.WakerOk, M.IsClosed, UsedUp, W.Next, InnerStep;
    var q' := RingStep(q, me);
    U.WakerMoves(q.writers, W.StartWait(me));
    WorkingSame(q, q', me);
    OthersStayPlaced(q, q', me);
  }

  /** One that found nothing to read. */
  lemma RecvWaitsKeepsInv<T>(q: Queue<T>, me: nat)
    requires Inv(q) && me < |q.phases| && q.phases[me].InRing? && q.ring.threads[me].RWait?
    ensures Inv(RingStep(q, me))
  {
    assert PlaceOk(q, me);
    hide M.Next, I.Inv, U.WakerOk, M.IsClosed, UsedUp, W.Next, InnerStep;
    var q' := RingStep(q, me);
    U.WakerMoves(q.readers, W.StartWait(me));
    WorkingSame(q, q', me);
    OthersStayPlaced(q, q', me);
  }

  lemma RingStepKeepsInv<T>(q: Queue<T>, me: nat)
    requires Inv(q) && me < |q.phases| && q.phases[me].InRing?
    ensures Inv(RingStep(q, me))
  {
    assert Sizes(q);
    hide Inv, InnerStep, M.Next, W.Next, U.Enter;
    var pc := q.ring.threads[me];
    if pc.SWait? {
      SendWaitsKeepsInv(q, me);
    } else if pc.RWait? {
      RecvWaitsKeepsInv(q, me);
    } else if pc.SPublish? {
      PublishKeepsInv(q, me);
    } else if pc.RRelease? {
      ReleaseKeepsInv(q, me);
    } else if pc.CLoad? {
      LoadKeepsInv(q, me);
    } else if pc.CCas? && q.ring.writeMeta == pc.meta {
      SetKeepsInv(q, me);
    } else if RingStep(q, me) != q {
      PlainKeepsInv(q, RingStep(q, me), me);
    }
  }

  lemma LoadKeepsInv<T>(q: Queue<T>, me: nat)
    requires Inv(q) && me < |q.phases| && q.phases[me].InRing? && q.ring.threads[me].CLoad?
    ensures Inv(RingStep(q, me))
  {
    RingEnds(q.ring, me);
    hide InnerStep, M.Next, W.Next, I.Inv, U.WakerOk;
    PlainKeepsInv(q, RingStep(q, me), me);
  }

  // ---------------------------------------------------------------- steps in the wakers

  /** A step of a waker that leaves its thread in its call. */
  lemma WakerStepKeepsInv<T>(q: Queue<T>, q': Queue<T>, me: nat, b: W.Action)
    requires Inv(q) && me < |q.phases| && b.me == me && (b.Step? || b.GiveUpRetry? || b.Spurious?)
    requires if AtWriters(q.phases[me]) then q' == q.(writers := W.Next(q.writers, b))
      else AtReaders(q.phases[me]) && q' == q.(readers := W.Next(q.readers, b))
    ensures Inv(q')
  {
    assert PlaceOk(q, me);
    hide M.Next, I.Inv, U.WakerOk, M.IsClosed, UsedUp, W.Next;
    if AtWriters(q.phases[me]) {
      U.WakerMoves(q.writers, b);
    } else {
      U.WakerMoves(q.readers, b);
    }
    assert Working(q') == Working(q);
    hide U.InWait, U.InNote, U.InClose, W.AtRest;
    OthersStayPlaced(q, q', me);
  }

  /** A wait is over. */
  lemma WaitOverKeepsInv<T>(q: Queue<T>, q': Queue<T>, me: nat, out: W.Outcome)
    requires Inv(q) && me < |q.phases|
    requires if q.phases[me].WaitsWriter? then q.writers.threads[me] == W.WaitDone(out) else q.phases[me].WaitsReader? && q.readers.threads[me] == W.WaitDone(out)
    requires q' == Move(q, me, InRing).(ring := M.Next(q.ring, Onward(me, out)))
    ensures Inv(q')
  {
    assert PlaceOk(q, me);
    U.CloseDoneMeans(q.writers, me);
    U.CloseDoneMeans(q.readers, me);
    hide M.Next, I.Inv, U.WakerOk, M.IsClosed, UsedUp, W.Next;
    RingFacts(q.ring, Onward(me, out));
    OnwardKeepsBit(q.ring, me, out);
    WorkingSame(q, q', me);
    OthersStayPlaced(q, q', me);
  }

  lemma OnwardKeepsBit<T>(r: M.Ring<T>, me: nat, out: W.Outcome)
    requires me < |r.threads| && (r.threads[me].SWait? || r.threads[me].RWait?)
    ensures var r' := M.Next(r, Onward(me, out));
      && M.IsClosed(r') == M.IsClosed(r) && UsedUp(r') == UsedUp(r) && r'.sent == r.sent && r'.slots == r.slots
      && (out.Closed? && M.IsClosed(r) ==> if r.threads[me].SWait? then r'.threads[me] == M.SDone(M.Disconnected(r.threads[me].msg)) else r'.threads[me] == M.RLoad(true, true))
      && (!out.Closed? ==> if r.threads[me].SWait? then r'.threads[me] == M.SLoad(r.threads[me].msg, true) else r'.threads[me] == M.RLoad(true, false))
  {
  }

  /** A notification is over. */
  lemma NoteOverKeepsInv<T>(q: Queue<T>, me: nat)
    requires Inv(q) && me < |q.phases|
    requires if q.phases[me].NotifiesWriters? then q.writers.threads[me].NoteDone? else q.phases[me].NotifiesReaders? && q.readers.threads[me].NoteDone?
    ensures Inv(Move(q, me, InRing))
  {
    assert PlaceOk(q, me);
    hide M.Next, I.Inv, U.WakerOk, M.IsClosed, UsedUp, W.Next;
    WorkingSame(q, Move(q, me, InRing), me);
    OthersStayPlaced(q, Move(q, me, InRing), me);
  }

  /** A close goes on from the writers to the readers. */
  lemma HalfClosedKeepsInv<T>(q: Queue<T>, me: nat)
    requires Inv(q) && me < |q.phases| && q.phases[me].ClosesWriters? && q.writers.threads[me].CloseDone?
    ensures Inv(WriterStep(q, me))
  {
    assert PlaceOk(q, me);
    U.CloseDoneMeans(q.writers, me);
    hide M.Next, I.Inv, U.WakerOk, M.IsClosed, UsedUp, W.Next, U.Enter;
    U.EnterMoves(q.readers, me);
    var q' := WriterStep(q, me);
    assert q'.phases[me].ClosesReaders? && q.phases[me].ClosesWriters?;
    OthersStayPlaced(q, q', me);
  }

  /** And is over. */
  lemma ClosedKeepsInv<T>(q: Queue<T>, me: nat)
    requires Inv(q) && me < |q.phases| && q.phases[me].ClosesReaders? && q.readers.threads[me].CloseDone?
    ensures Inv(ReaderStep(q, me)) && ReaderStep(q, me).through
  {
    assert PlaceOk(q, me);
    U.CloseDoneMeans(q.readers, me);
    hide M.Next, I.Inv, U.WakerOk, M.IsClosed, UsedUp, W.Next;
    var q' := ReaderStep(q, me);
    assert Working(q);
    OthersStayPlaced(q, q', me);
  }

  lemma WriterStepKeepsInv<T>(q: Queue<T>, me: nat)
    requires Inv(q) && me < |q.phases| && AtWriters(q.phases[me])
    ensures Inv(WriterStep(q, me))
  {
    assert Sizes(q);
    hide Inv, M.Next, W.Next, U.Enter;
    var pc := q.writers.threads[me];
    if q.phases[me].WaitsWriter? && pc.WaitDone? {
      WaitOverKeepsInv(q, WriterStep(q, me), me, pc.out);
    } else if q.phases[me].NotifiesWriters? && pc.NoteDone? {
      NoteOverKeepsInv(q, me);
    } else if q.phases[me].ClosesWriters? && pc.CloseDone? {
      HalfClosedKeepsInv(q, me);
    } else {
      WakerStepKeepsInv(q, WriterStep(q, me), me, W.Step(me, q.phases[me].WaitsWriter? && Ready(q, me)));
    }
  }

  lemma ReaderStepKeepsInv<T>(q: Queue<T>, me: nat)
    requires Inv(q) && me < |q.phases| && AtReaders(q.phases[me])
    ensures Inv(ReaderStep(q, me))
  {
    assert Sizes(q);
    hide Inv, M.Next, W.Next, U.Enter;
    var pc := q.readers.threads[me];
    if q.phases[me].WaitsReader? && pc.WaitDone? {
      WaitOverKeepsInv(q, ReaderStep(q, me), me, pc.out);
    } else if q.phases[me].NotifiesReaders? && pc.NoteDone? {
      NoteOverKeepsInv(q, me);
    } else if q.phases[me].ClosesReaders? && pc.CloseDone? {
      ClosedKeepsInv(q, me);
    } else {
      WakerStepKeepsInv(q, ReaderStep(q, me), me, W.Step(me, q.phases[me].WaitsReader? && Ready(q, me)));
    }
  }

  lemma StepKeepsInv<T>(q: Queue<T>, a: Action<T>)
    requires Inv(q)
    ensures Inv(Next(q, a))
  {
    assert Sizes(q);
    hide Inv, RingStep, WriterStep, ReaderStep, M.Next, W.Next;
    if By(a) < |q.phases| {
      var phase := q.phases[By(a)];
      match a
      case Start(call) => if IsCall(call) && Free(q, call.me) { StartKeepsInv(q, call); }
      case Step(me) =>
        if AtWriters(phase) {
          WriterStepKeepsInv(q, me);
        } else if AtReaders(phase) {
          ReaderStepKeepsInv(q, me);
        } else {
          RingStepKeepsInv(q, me);
        }
      case GiveUp(me) => if phase.WaitsWriter? || phase.WaitsReader? { WakerStepKeepsInv(q, Next(q, a), me, W.GiveUpRetry(me)); }
      case Spurious(me) => if phase.WaitsWriter? || phase.WaitsReader? { WakerStepKeepsInv(q, Next(q, a), me, W.Spurious(me)); }
    }
  }

  lemma {:induction false} RunKeepsInv<T>(cap: U32, threads: nat, run: seq<Action<T>>)
    requires cap <= MAX_CAPACITY
    ensures Inv(Exec(Init(cap, threads), run))
  {
    if run == [] {
      InitInv<T>(cap, threads);
    } else {
      hide Next, Inv;
      RunKeepsInv(cap, threads, run[..|run| - 1]);
      StepKeepsInv(Exec(Init(cap, threads), run[..|run| - 1]), run[|run| - 1]);
    }
  }
}
