/** What the MPMC ring promises over whole runs, and what its answers mean. */
module MpmcTheorems {
  import opened Words
  import opened Options
  import opened Elem
  import opened Tickets
  import opened MpmcRing
  import opened MpmcInvariant
  import opened MpmcSteps

  // ---------------------------------------------------------------- runs

  ghost predicate WinsSend<T>(s: Ring<T>, a: Action<T>) {
    a.Advance? && a.me < |s.threads| && s.threads[a.me].SCas? && s.writeMeta == s.threads[a.me].snap.meta
  }

  ghost predicate WinsRecv<T>(s: Ring<T>, a: Action<T>) {
    a.Advance? && a.me < |s.threads| && s.threads[a.me].RCas? && s.readMeta == s.threads[a.me].snap.meta
  }

  /** What every action leaves alone. */
  ghost predicate Frame<T>(s: Ring<T>, me: nat, s': Ring<T>) {
    && |s'.slots| == |s.slots| && |s'.threads| == |s.threads|
    && (forall o :: 0 <= o < |s.threads| && o != me ==> s'.threads[o] == s.threads[o])
  }

  ghost predicate NoClaim<T>(s: Ring<T>, s': Ring<T>) {
    && s'.sent == s.sent && s'.senders == s.senders
    && |s'.taken| == |s.taken| && s'.readers == s.readers && s'.readMeta == s.readMeta
  }

  lemma AdvanceSendEffect<T>(s: Ring<T>, me: nat)
    requires me < |s.threads| && !(s.threads[me].SCas? && s.writeMeta == s.threads[me].snap.meta)
    ensures var s' := AdvanceSend(s, me);
      Frame(s, me, s') && NoClaim(s, s') && s'.writeMeta == s.writeMeta && s'.taken == s.taken
      && (!s.threads[me].CLoad? && !s.threads[me].CCas? ==> !s'.threads[me].CLoad? && !s'.threads[me].CCas?)
      && (!InWindow(s.threads[me]) ==> s'.slots == s.slots)
  {
  }

  lemma AdvanceRecvEffect<T>(s: Ring<T>, me: nat)
    requires me < |s.threads| && !(s.threads[me].RCas? && s.readMeta == s.threads[me].snap.meta)
    ensures var s' := AdvanceRecv(s, me);
      Frame(s, me, s') && NoClaim(s, s') && s'.writeMeta == s.writeMeta
      && (!s.threads[me].CLoad? && !s.threads[me].CCas? ==> !s'.threads[me].CLoad? && !s'.threads[me].CCas?)
      && (!InWindow(s.threads[me]) ==> s'.slots == s.slots && s'.taken == s.taken)
  {
  }

  /** Only a winning CAS claims a ticket, and only a claim or a closer moves the write meta. */
  lemma StepEffect<T>(s: Ring<T>, a: Action<T>)
    ensures Frame(s, a.me, Next(s, a))
    ensures WinsSend(s, a) ==> Next(s, a) == ClaimSend(s, a.me, s.threads[a.me].msg, s.threads[a.me].snap)
    ensures WinsRecv(s, a) ==> Next(s, a) == ClaimRecv(s, a.me, s.threads[a.me].snap)
    ensures !WinsSend(s, a) && !WinsRecv(s, a) ==> NoClaim(s, Next(s, a))
    ensures Next(s, a).writeMeta != s.writeMeta ==> WinsSend(s, a) || (a.me < |s.threads| && s.threads[a.me].CCas?)
    ensures a.me < |s.threads| && !(a.Advance? && InWindow(s.threads[a.me])) ==> Next(s, a).slots == s.slots && s.taken <= Next(s, a).taken
    ensures a.me < |s.threads| && !a.StartClose? && !s.threads[a.me].CLoad? && !s.threads[a.me].CCas? ==>
      !Next(s, a).threads[a.me].CLoad? && !Next(s, a).threads[a.me].CCas?
  {
    if a.me < |s.threads| && a.Advance? && !WinsSend(s, a) && !WinsRecv(s, a) {
      AdvanceSendEffect(s, a.me);
      AdvanceRecvEffect(s, a.me);
    }
  }

  lemma StepGrows<T>(s: Ring<T>, a: Action<T>)
    requires Inv(s)
    ensures Grows(s, Next(s, a))
  {
    StepEffect(s, a);
    if a.me < |s.threads| && a.Advance? && InWindow(s.threads[a.me]) {
      WindowGrows(s, a.me);
    } else if WinsSend(s, a) {
      assert ThreadOk(s, a.me, s.threads[a.me]);
      SendSnapCurrent(s, s.threads[a.me].snap);
    } else if a.me < |s.threads| && s.threads[a.me].CCas? {
      assert ClosedMeta(SetClosedBit(s.writeMeta));
    }
  }

  lemma WindowGrows<T>(s: Ring<T>, me: nat)
    requires Inv(s) && me < |s.threads| && InWindow(s.threads[me])
    ensures Grows(s, Next(s, Advance(me)))
  {
    if s.threads[me].SWrite? || s.threads[me].SPublish? {
      SendWindowFacts(s, me);
      AdvanceSendEffect(s, me);
    } else {
      RecvWindowFacts(s, me);
      assert ThreadOk(s, me, s.threads[me]);
      AdvanceRecvEffect(s, me);
    }
  }

  /** Over any run: accepted messages keep their tickets, delivered ones stay delivered, laps only rise, and a closed queue accepts nothing more. */
  lemma {:induction false} RunGrows<T>(s: Ring<T>, run: seq<Action<T>>)
    requires Inv(s)
    ensures Grows(s, Exec(s, run))
  {
    if run != [] {
      var mid := Exec(s, run[..|run| - 1]);
      RunGrows(s, run[..|run| - 1]);
      RunKeepsInv(s, run[..|run| - 1]);
      StepGrows(mid, run[|run| - 1]);
      GrowsTrans(s, mid, Next(mid, run[|run| - 1]));
    }
  }

  lemma GrowsTrans<T>(s: Ring<T>, s1: Ring<T>, s2: Ring<T>)
    requires Grows(s, s1) && Grows(s1, s2)
    ensures Grows(s, s2)
  {
    forall i | 0 <= i < |s.slots| ensures s.slots[i].lap <= s2.slots[i].lap {
      assert s1.slots[i].lap <= s2.slots[i].lap;
    }
  }

  /** Claim-ordered receives are a prefix of claim-ordered sends, message by message. */
  ghost predicate InOrder<T>(s: Ring<T>) {
    && |s.taken| <= |s.sent| <= |s.taken| + |s.slots|
    && |s.readers| == |s.taken|
    && (forall t :: 0 <= t < |s.taken| && s.taken[t].Some? ==> s.taken[t].value == s.sent[t])
    && (forall o :: 0 <= o < |s.threads| && s.threads[o].RDone? && s.threads[o].recvResult.Received? ==>
         var r := s.threads[o].recvResult;
         r.ticket < |s.taken| && r.msg == s.sent[r.ticket] && s.readers[r.ticket] == o)
  }

  lemma InvInOrder<T>(s: Ring<T>)
    requires Inv(s)
    ensures InOrder(s)
  {
    forall t | 0 <= t < |s.taken| && s.taken[t].Some? ensures s.taken[t].value == s.sent[t] {
      assert TakenOk(s, t);
    }
    forall o | 0 <= o < |s.threads| && s.threads[o].RDone? && s.threads[o].recvResult.Received?
      ensures var r := s.threads[o].recvResult;
        r.ticket < |s.taken| && r.msg == s.sent[r.ticket] && s.readers[r.ticket] == o
    {
      assert ThreadOk(s, o, s.threads[o]);
      assert TakenOk(s, s.threads[o].recvResult.ticket);
    }
  }

  /** FIFO: in every interleaving the claimant of read ticket t gets the message of write ticket t. */
  lemma {:induction false} Fifo<T>(cap: U32, threads: nat, run: seq<Action<T>>)
    requires cap <= MAX_CAPACITY
    ensures InOrder(Exec(Init(cap, threads), run))
    ensures |Exec(Init<T>(cap, threads), run).slots| == if cap > 0 then cap else 1
  {
    InitInv<T>(cap, threads);
    RunKeepsInv(Init<T>(cap, threads), run);
    RunGrows(Init<T>(cap, threads), run);
    InvInOrder(Exec(Init(cap, threads), run));
  }

  /** No run reads an uninitialised message, overwrites an unread one, or leaves the buffer. */
  lemma {:induction false} SafeAccess<T>(cap: U32, threads: nat, run: seq<Action<T>>, o: nat)
    requires cap <= MAX_CAPACITY && o < threads
    ensures var s := Exec(Init(cap, threads), run);
      && |s.threads| == threads && !s.threads[o].Undefined?
      && (InWindow(s.threads[o]) ==>
           && s.threads[o].claim.idx < |s.slots| && s.threads[o].claim.ticket < |s.sent|
           && (s.threads[o].SWrite? ==> s.slots[s.threads[o].claim.idx].msg == None)
           && (s.threads[o].RRead? ==> s.slots[s.threads[o].claim.idx].msg == Some(s.sent[s.threads[o].claim.ticket]))
           && forall p :: 0 <= p < threads && p != o && InWindow(s.threads[p]) ==> s.threads[p].claim.idx != s.threads[o].claim.idx)
  {
    var init := Init<T>(cap, threads);
    InitInv<T>(cap, threads);
    RunKeepsInv(init, run);
    RunGrows(init, run);
    var s := Exec(init, run);
    assert ThreadOk(s, o, s.threads[o]);
    if InWindow(s.threads[o]) {
      WindowIdx(s, o);
      forall p | 0 <= p < threads && p != o && InWindow(s.threads[p]) ensures s.threads[p].claim.idx != s.threads[o].claim.idx {
        WindowsExclusive(s, p, o);
      }
    }
  }

  // ---------------------------------------------------------------- the queue behind the ring

  /** The messages accepted and not yet claimed by a receiver, oldest first. */
  ghost function Contents<T>(s: Ring<T>): seq<T>
    requires Shape(s)
  {
    s.sent[|s.taken|..]
  }

  /** What a step is to the queue. */
  datatype Op<T> = Append(msg: T) | Remove | Silent

  ghost function OpOf<T>(s: Ring<T>, a: Action<T>): Op<T> {
    if WinsSend(s, a) then Append(s.threads[a.me].msg) else if WinsRecv(s, a) then Remove else Silent
  }

  ghost function Ops<T>(s: Ring<T>, run: seq<Action<T>>): seq<Op<T>> {
    if run == [] then []
    else Ops(s, run[..|run| - 1]) + [OpOf(Exec(s, run[..|run| - 1]), run[|run| - 1])]
  }

  /** A plain queue of at most cap messages taking one operation; None if it cannot. */
  function Apply<T>(q: seq<T>, op: Op<T>, cap: nat): Option<seq<T>> {
    match op
    case Append(m) => if |q| < cap then Some(q + [m]) else None
    case Remove => if q != [] then Some(q[1..]) else None
    case Silent => Some(q)
  }

  function Replay<T>(q: seq<T>, ops: seq<Op<T>>, cap: nat): Option<seq<T>> {
    if ops == [] then Some(q)
    else
      var before := Replay(q, ops[..|ops| - 1], cap);
      if before.Some? then Apply(before.value, ops[|ops| - 1], cap) else None
  }

  /** Every step is a queue step: nothing, an append by a winning send CAS, or a removal at the front by a winning receive CAS. */
  lemma StepApplies<T>(s: Ring<T>, a: Action<T>)
    requires Inv(s)
    ensures Shape(Next(s, a)) && |Next(s, a).slots| == |s.slots|
    ensures Apply(Contents(s), OpOf(s, a), |s.slots|) == Some(Contents(Next(s, a)))
  {
    hide Next, Bump;
    StepKeepsInv(s, a);
    StepEffect(s, a);
    if WinsSend(s, a) {
      ClaimSendFits(s, a.me, s.threads[a.me].snap);
      assert Next(s, a).sent == s.sent + [s.threads[a.me].msg] && Next(s, a).taken == s.taken;
      hide Inv, ClaimSend, WinsRecv;
      assert Contents(Next(s, a)) == Contents(s) + [s.threads[a.me].msg];
    } else if WinsRecv(s, a) {
      ClaimRecvFits(s, a.me, s.threads[a.me].snap);
      assert Next(s, a).sent == s.sent && |Next(s, a).taken| == |s.taken| + 1;
      hide Inv, ClaimRecv, WinsSend;
      assert Contents(Next(s, a)) == Contents(s)[1..];
    } else {
      hide Inv;
    }
  }

  /** The ring refines a plain bounded queue: replayed there, the winning CASes of any run never fail, and give its contents. */
  lemma {:induction false} RunRefinesQueue<T>(cap: U32, threads: nat, run: seq<Action<T>>)
    requires cap <= MAX_CAPACITY
    ensures var s := Exec(Init(cap, threads), run);
      Shape(s) && Replay([], Ops(Init(cap, threads), run), if cap > 0 then cap else 1) == Some(Contents(s))
  {
    var init, c := Init<T>(cap, threads), if cap > 0 then cap else 1;
    InitInv<T>(cap, threads);
    RunKeepsInv(init, run);
    if run != [] {
      var pre, a := run[..|run| - 1], run[|run| - 1];
      RunRefinesQueue(cap, threads, pre);
      RunKeepsInv(init, pre);
      RunGrows(init, pre);
      StepApplies(Exec(init, pre), a);
      assert (Ops(init, pre) + [OpOf(Exec(init, pre), a)])[..|pre|] == Ops(init, pre) by { OpsLength(init, pre); }
    }
  }

  lemma {:induction false} OpsLength<T>(s: Ring<T>, run: seq<Action<T>>)
    ensures |Ops(s, run)| == |run|
  {
    if run != [] {
      OpsLength(s, run[..|run| - 1]);
    }
  }

  /** The claimant of write ticket t has not yet published its message. */
  ghost predicate Unpublished<T>(s: Ring<T>, t: int)
    requires Shape(s)
  {
    0 <= t < |s.sent|
    && var o := s.senders[t];
      o < |s.threads| && (s.threads[o].SWrite? || s.threads[o].SPublish?) && s.threads[o].claim.ticket == t
  }

  ghost predicate Held<T>(s: Ring<T>, t: nat, slot: Slot<T>)
    requires Shape(s) && t < |s.sent|
  {
    || (slot.lap == 2 * RoundOf(t, |s.slots|) + 1 && slot.msg == Some(s.sent[t]))
    || (slot.lap == 2 * RoundOf(t, |s.slots|) && Unpublished(s, t))
  }

  /** An unclaimed accepted ticket lies published in its slot, or its sender is between its CAS and its lap store. */
  lemma AcceptedIsHeld<T>(s: Ring<T>, t: nat)
    requires Inv(s) && |s.taken| <= t < |s.sent|
    ensures SlotOf(t, |s.slots|) < |s.slots|
    ensures Held(s, t, s.slots[SlotOf(t, |s.slots|)])
  {
    ServingTicket(s, t);
    assert SlotOk(s, SlotOf(t, |s.slots|));
  }

  /** At rest nothing is lost: every accepted ticket was delivered, or its message lies in its slot. */
  lemma NothingLost<T>(s: Ring<T>, t: nat)
    requires Inv(s) && (forall o :: 0 <= o < |s.threads| ==> !InWindow(s.threads[o])) && t < |s.sent|
    ensures t < |s.taken| ==> s.taken[t] == Some(s.sent[t])
    ensures t >= |s.taken| ==> SlotOf(t, |s.slots|) < |s.slots| && s.slots[SlotOf(t, |s.slots|)].msg == Some(s.sent[t])
  {
    if t < |s.taken| {
      assert TakenOk(s, t);
    } else {
      AcceptedIsHeld(s, t);
    }
  }

  // ---------------------------------------------------------------- what Full and Empty mean

  /** The claimant of read ticket t has not yet released its slot. */
  ghost predicate Unreleased<T>(s: Ring<T>, t: int)
    requires Shape(s)
  {
    0 <= t < |s.taken|
    && var o := s.readers[t];
      o < |s.threads| && (s.threads[o].RRead? || s.threads[o].RRelease?) && s.threads[o].claim.ticket == t
  }

  /**
   `try_send` answers Full exactly when, at its second lap load, its snapshot is current and
   the ring holds a full turn of messages, or the reader one turn back still owns the slot.
   */
  lemma FullExact<T>(s: Ring<T>, me: nat)
    requires Inv(s) && me < |s.threads| && s.threads[me].SRelap?
    ensures Next(s, Advance(me)).threads[me] == NoRoom(s.threads[me].msg, s.threads[me].blocking)
      <==> (s.threads[me].snap.seen == |s.sent|
            && (|Contents(s)| == |s.slots| || Unreleased(s, |s.sent| - |s.slots|)))
  {
    assert ThreadOk(s, me, s.threads[me]);
    var snap := s.threads[me].snap;
    SendSnapCurrent(s, snap);
    ServingTicket(s, snap.seen);
    var i := SlotOf(snap.seen, |s.slots|);
    assert SlotOk(s, i);
    if |s.sent| >= |s.slots| && Unreleased(s, |s.sent| - |s.slots|) {
      var o := s.readers[|s.sent| - |s.slots|];
      RecvWindowFacts(s, o);
      assert ThreadOk(s, o, s.threads[o]);
      TurnTicket(|s.sent| - |s.slots|, |s.slots|);
    }
  }

  /** The receive side: Empty exactly when the snapshot is current and the head ticket is unclaimed by any sender, or claimed but unpublished. */
  lemma EmptyExact<T>(s: Ring<T>, me: nat)
    requires Inv(s) && me < |s.threads| && s.threads[me].RRelap?
    ensures Next(s, Advance(me)).threads[me] == NothingToRead(s.threads[me].blocking, s.threads[me].sawClosed)
      <==> (s.threads[me].snap.seen == |s.taken|
            && (Contents(s) == [] || Unpublished(s, |s.taken|)))
  {
    assert ThreadOk(s, me, s.threads[me]);
    var snap := s.threads[me].snap;
    RecvSnapCurrent(s, snap);
    ServingTicket(s, snap.seen);
    var i := SlotOf(snap.seen, |s.slots|);
    assert SlotOk(s, i);
    if Unpublished(s, |s.taken|) {
      var o := s.senders[|s.taken|];
      SendWindowFacts(s, o);
      assert ThreadOk(s, o, s.threads[o]);
    }
  }

  /** A slot lap above the snapshot's lap betrays a stale snapshot. */
  lemma LessOnlyWhenStale<T>(s: Ring<T>, me: nat)
    requires Inv(s) && me < |s.threads| && (s.threads[me].SLap? || s.threads[me].RLap?)
    ensures IdxOf(s.threads[me].snap.meta) < |s.slots|
    ensures LapOf(s.threads[me].snap.meta) < s.slots[IdxOf(s.threads[me].snap.meta)].lap ==>
      s.threads[me].snap.seen < if s.threads[me].SLap? then |s.sent| else |s.taken|
  {
    assert ThreadOk(s, me, s.threads[me]);
    var snap := s.threads[me].snap;
    if s.threads[me].SLap? {
      SendSnapCurrent(s, snap);
    } else {
      RecvSnapCurrent(s, snap);
    }
    ServingTicket(s, snap.seen);
    assert SlotOk(s, SlotOf(snap.seen, |s.slots|));
  }

  // ---------------------------------------------------------------- closing

  /** Blocking `recv` gives up only on a closed queue, and then every accepted message has a claimant unless the head's sender is in flight. */
  lemma RecvErrorMeaning<T>(s: Ring<T>, a: Action<T>)
    requires Inv(s) && a.me < |s.threads|
    requires s.threads[a.me] != RDone(RecvError) && Next(s, a).threads[a.me] == RDone(RecvError)
    ensures IsClosed(s)
    ensures Contents(s) == [] || Unpublished(s, |s.taken|)
  {
    assert a.Advance? && s.threads[a.me].RRelap?;
    assert ThreadOk(s, a.me, s.threads[a.me]);
    EmptyExact(s, a.me);
  }

  /**
   Closing freezes the accepted set. From a closed state on, W never moves; and once no sender is
   in flight, a receive finds nothing exactly when all accepted messages have been claimed.
   */
  lemma {:induction false} CloseFreezes<T>(s: Ring<T>, run: seq<Action<T>>, me: nat)
    requires Inv(s) && IsClosed(s)
    ensures var s' := Exec(s, run);
      && Inv(s') && IsClosed(s') && s'.sent == s.sent
      && (me < |s'.threads| && s'.threads[me].RRelap?
          && (forall o :: 0 <= o < |s'.threads| ==> !s'.threads[o].SWrite? && !s'.threads[o].SPublish?) ==>
            (Next(s', Advance(me)).threads[me] == NothingToRead(s'.threads[me].blocking, s'.threads[me].sawClosed)
             <==> s'.threads[me].snap.seen == |s'.taken| && Contents(s') == []))
  {
    RunGrows(s, run);
    RunKeepsInv(s, run);
    var s' := Exec(s, run);
    if me < |s'.threads| && s'.threads[me].RRelap? {
      EmptyExact(s', me);
    }
  }

  /** `try_send` fails with Disconnected only on a closed queue, and always does when it starts on one. */
  lemma DisconnectedExact<T>(s: Ring<T>, me: nat, msg: T)
    requires Inv(s) && me < |s.threads|
    ensures s.threads[me] == SDone(Disconnected(msg)) ==> IsClosed(s)
    ensures s.threads[me].SLoad? && s.threads[me].msg == msg ==>
      (Next(s, Advance(me)).threads[me] == SDone(Disconnected(msg)) <==> IsClosed(s))
  {
    assert ThreadOk(s, me, s.threads[me]);
  }

  // ---------------------------------------------------------------- the lap bound

  ghost predicate NoCloser<T>(s: Ring<T>)
    requires Shape(s)
  {
    && s.writeMeta == WriteMetaAt(|s.sent|, |s.slots|)
    && forall o :: 0 <= o < |s.threads| ==> !s.threads[o].CLoad? && !s.threads[o].CCas?
  }

  lemma StepKeepsNoCloser<T>(s: Ring<T>, a: Action<T>)
    requires Inv(s) && NoCloser(s) && !a.StartClose?
    ensures Shape(Next(s, a)) && NoCloser(Next(s, a))
  {
    StepKeepsInv(s, a);
    StepEffect(s, a);
    if WinsSend(s, a) {
      ClaimSendFits(s, a.me, s.threads[a.me].snap);
      BumpWriteMeta(|s.sent|, |s.slots|);
    }
  }

  /**
   An MPMC queue that nobody closes closes itself at send number cap * 2^30, and not before:
   there the lap increment sets the closed bit.
   */
  lemma {:induction false} SelfCloseExact<T>(cap: U32, threads: nat, run: seq<Action<T>>)
    requires cap <= MAX_CAPACITY
    requires forall k :: 0 <= k < |run| ==> !run[k].StartClose?
    ensures var s := Exec(Init(cap, threads), run);
      && Inv(s) && NoCloser(s)
      && |s.sent| <= MAX_ROUNDS * |s.slots|
      && (IsClosed(s) <==> |s.sent| == MAX_ROUNDS * |s.slots|)
  {
    if run == [] {
      InitInv<T>(cap, threads);
      TicketRoundTrip(0, 0, 0, |Init<T>(cap, threads).slots|);
      RoundBound(0, |Init<T>(cap, threads).slots|, 0);
    } else {
      var pre := run[..|run| - 1];
      SelfCloseExact(cap, threads, pre);
      StepKeepsInv(Exec(Init(cap, threads), pre), run[|run| - 1]);
      StepKeepsNoCloser(Exec(Init(cap, threads), pre), run[|run| - 1]);
    }
    var s := Exec(Init(cap, threads), run);
    WriteMetaFacts(s);
    WriteMetaFits(|s.sent|, |s.slots|);
  }

  /** Slot laps stay at or below 2^31. */
  lemma SlotLapBound<T>(s: Ring<T>, i: nat)
    requires Inv(s) && i < |s.slots|
    ensures s.slots[i].lap <= MASK32
  {
    assert SlotOk(s, i);
    ServingFacts(s, i);
    RoundBound(Serving(s, i), |s.slots|, MAX_ROUNDS + 1);
    RoundBound(Serving(s, i), |s.slots|, MAX_ROUNDS);
  }

  /** Lap arithmetic never wraps: a claim moves its meta up by exactly one index or two laps. */
  lemma LapsNeverWrap<T>(s: Ring<T>, a: Action<T>)
    requires Inv(s)
    ensures WinsSend(s, a) ==> BumpsExactly(s.writeMeta, Next(s, a).writeMeta, |s.slots|)
    ensures WinsRecv(s, a) ==> BumpsExactly(s.readMeta, Next(s, a).readMeta, |s.slots|)
  {
    StepEffect(s, a);
    if WinsSend(s, a) {
      ClaimSendFits(s, a.me, s.threads[a.me].snap);
      BumpWithoutWrap(s.writeMeta, |s.slots|);
    } else if WinsRecv(s, a) {
      ClaimRecvFits(s, a.me, s.threads[a.me].snap);
      RoundBound(|s.taken|, |s.slots|, MAX_ROUNDS);
      BumpWithoutWrap(s.readMeta, |s.slots|);
    }
  }

  // ---------------------------------------------------------------- what the accesses of a call do

  lemma {:induction false} ExecSnoc<T>(s: Ring<T>, run: seq<Action<T>>, a: Action<T>)
    ensures Exec(s, run + [a]) == Next(Exec(s, run), a)
  {
    assert (run + [a])[..|run|] == run;
  }

  lemma UnreleasedMoves<T>(s: Ring<T>, me: nat, pc: Pc<T>, t: int)
    requires Shape(s) && me < |s.threads| && !InWindow(s.threads[me])
    ensures Unreleased(s, t) ==> Unreleased(Goto(s, me, pc), t)
  {
  }

  lemma UnpublishedMoves<T>(s: Ring<T>, me: nat, pc: Pc<T>, t: int)
    requires Shape(s) && me < |s.threads| && !InWindow(s.threads[me])
    ensures Unpublished(s, t) ==> Unpublished(Goto(s, me, pc), t)
  {
  }

  lemma LapStep<T>(s: Ring<T>, me: nat)
    requires me < |s.threads|
    requires s.threads[me].SLap? || s.threads[me].SRelap? || s.threads[me].RLap? || s.threads[me].RRelap?
    ensures Next(s, Advance(me)) == LoadLap(s, me, IdxOf(s.threads[me].snap.meta))
  {
  }

  lemma SendCasStep<T>(s: Ring<T>, me: nat)
    requires me < |s.threads| && s.threads[me].SCas?
    ensures Next(s, Advance(me)) ==
      if s.writeMeta == s.threads[me].snap.meta then ClaimSend(s, me, s.threads[me].msg, s.threads[me].snap)
      else Goto(s, me, SendTop(s, s.threads[me].msg, s.threads[me].blocking))
  {
  }

  lemma RecvCasStep<T>(s: Ring<T>, me: nat)
    requires me < |s.threads| && s.threads[me].RCas?
    ensures Next(s, Advance(me)) ==
      if s.readMeta == s.threads[me].snap.meta then ClaimRecv(s, me, s.threads[me].snap)
      else Goto(s, me, RecvTop(s, s.threads[me].blocking, s.threads[me].sawClosed))
  {
  }

  lemma LapMeaningBefore<T>(s: Ring<T>, me: nat)
    requires Inv(s) && me < |s.threads|
    requires s.threads[me].SLap? || s.threads[me].SRelap? || s.threads[me].RLap? || s.threads[me].RRelap?
    ensures var lap, snap := LapOf(s.threads[me].snap.meta), s.threads[me].snap;
      && IdxOf(snap.meta) < |s.slots|
      && (s.threads[me].SLap? && lap < s.slots[IdxOf(snap.meta)].lap ==> snap.seen < |s.sent|)
      && (s.threads[me].RLap? && lap < s.slots[IdxOf(snap.meta)].lap ==> snap.seen < |s.taken|)
      && (s.threads[me].SRelap? && lap > s.slots[IdxOf(snap.meta)].lap ==>
            |Contents(s)| == |s.slots| || Unreleased(s, |s.sent| - |s.slots|))
      && (s.threads[me].RRelap? && lap > s.slots[IdxOf(snap.meta)].lap ==>
            Contents(s) == [] || Unpublished(s, |s.taken|))
  {
    assert ThreadOk(s, me, s.threads[me]);
    if s.threads[me].SLap? || s.threads[me].SRelap? {
      SendSnapCurrent(s, s.threads[me].snap);
    } else {
      RecvSnapCurrent(s, s.threads[me].snap);
    }
    match s.threads[me] {
      case SLap(_, _, _) => LessOnlyWhenStale(s, me);
      case RLap(_, _, _) => LessOnlyWhenStale(s, me);
      case SRelap(_, _, _) => FullExact(s, me);
      case RRelap(_, _, _) => EmptyExact(s, me);
    }
  }

  /** What a lap load tells a selection about the ring at that instant. */
  lemma LapMeaning<T>(s: Ring<T>, me: nat)
    requires Inv(s) && me < |s.threads|
    requires s.threads[me].SLap? || s.threads[me].SRelap? || s.threads[me].RLap? || s.threads[me].RRelap?
    ensures var lap, snap, s' := LapOf(s.threads[me].snap.meta), s.threads[me].snap, Next(s, Advance(me));
      && IdxOf(snap.meta) < |s.slots|
      && s' == Goto(s, me, AfterLap(s.threads[me], s.slots[IdxOf(snap.meta)].lap))
      && (s.threads[me].SLap? && lap < s.slots[IdxOf(snap.meta)].lap ==> snap.seen < |s.sent|)
      && (s.threads[me].RLap? && lap < s.slots[IdxOf(snap.meta)].lap ==> snap.seen < |s.taken|)
      && (s.threads[me].SRelap? && lap > s.slots[IdxOf(snap.meta)].lap ==>
            |Contents(s')| == |s.slots| || Unreleased(s', |s.sent| - |s.slots|))
      && (s.threads[me].RRelap? && lap > s.slots[IdxOf(snap.meta)].lap ==>
            Contents(s') == [] || Unpublished(s', |s.taken|))
  {
    LapMeaningBefore(s, me);
    LapStep(s, me);
    var pc := AfterLap(s.threads[me], s.slots[IdxOf(s.threads[me].snap.meta)].lap);
    UnreleasedMoves(s, me, pc, |s.sent| - |s.slots|);
    UnpublishedMoves(s, me, pc, |s.taken|);
  }
}
