/** When a blocking call of the SPSC ring, or a `try_recv`, comes back by its own steps, and with what. */
module SpscProgress {
  import opened Words
  import opened Options
  import opened Elem
  import opened SpscRing
  import opened SpscInvariant
  import opened SpscTheorems

  /** n steps of the receiver, with nobody else moving. */
  function RecvAlone<T>(s: Ring<T>, n: nat): Ring<T> {
    if n == 0 then s else AdvanceRecv(RecvAlone(s, n - 1))
  }

  /** The next message in order has been published. */
  ghost predicate Readable<T>(s: Ring<T>) {
    R(s) < P(s)
  }

  /** A receive that its own steps bring to an end. */
  ghost predicate RecvEnds<T>(s: Ring<T>) {
    match s.receiver
    case RLap(blocking, _) => !blocking || s.closed || Readable(s)
    case RRelap(blocking, _) => !blocking || s.closed || Readable(s)
    case RWait => s.closed
    case RRead(_) => true
    case RRelease(_, _) => true
    case RDone(_) => true
    case _ => false
  }

  ghost predicate Receiving<T>(s: Ring<T>) {
    s.receiver.RLap? || s.receiver.RRelap? || s.receiver.RWait? || s.receiver.RRead? || s.receiver.RRelease? || s.receiver.RDone?
  }

  /** What it answers then. */
  ghost function RecvAnswer<T>(s: Ring<T>): RecvResult<T>
    requires Inv(s) && Receiving(s)
  {
    match s.receiver
    case RDone(r) => r
    case RRelease(_, msg) => Received(msg)
    case RRead(_) => Received(s.sent[|s.received|])
    case RLap(blocking, _) => if Readable(s) then Received(s.sent[|s.received|]) else if blocking then RecvError else RecvResult.Empty
    case RRelap(blocking, _) => if Readable(s) then Received(s.sent[|s.received|]) else if blocking then RecvError else RecvResult.Empty
    case RWait => if Readable(s) then Received(s.sent[|s.received|]) else RecvError
  }

  /** What has been received by then. */
  ghost function ReceivedThen<T>(s: Ring<T>): seq<T>
    requires Inv(s)
  {
    if s.receiver.RRead? || (Readable(s) && (s.receiver.RLap? || s.receiver.RRelap? || s.receiver.RWait?))
    then s.received + [s.sent[|s.received|]] else s.received
  }

  /** How far it is from its end. */
  ghost function RecvRank<T>(s: Ring<T>): (n: nat)
    ensures n <= 8
  {
    match s.receiver
    case RLap(_, sawClosed) => if sawClosed then 4 else 7
    case RRelap(_, sawClosed) => if Readable(s) then 8 else if sawClosed then 3 else 6
    case RWait => 5
    case RRead(_) => 2
    case RRelease(_, _) => 1
    case _ => 0
  }

  /** The receiver's step leaves the sending side alone. */
  lemma SenderKept<T>(s: Ring<T>)
    ensures var s' := AdvanceRecv(s); s'.sender == s.sender && s'.sent == s.sent && s'.closed == s.closed
  {
  }

  lemma LookNears<T>(s: Ring<T>)
    requires Inv(s) && Inv(AdvanceRecv(s)) && RecvEnds(s) && (s.receiver.RLap? || s.receiver.RRelap?)
    ensures var s' := AdvanceRecv(s);
      RecvEnds(s') && RecvRank(s') < RecvRank(s) && RecvAnswer(s') == RecvAnswer(s) && ReceivedThen(s') == ReceivedThen(s)
  {
    RecvDecision(s);
    SenderKept(s);
    LookKeepsReceived(s);
    hide Inv, AdvanceRecv;
  }

  lemma LookKeepsReceived<T>(s: Ring<T>)
    requires s.receiver.RLap? || s.receiver.RRelap?
    ensures AdvanceRecv(s).received == s.received
    ensures s.receiver.RLap? && AdvanceRecv(s).receiver.RRelap? ==> AdvanceRecv(s).receiver == RRelap(s.receiver.blocking, s.receiver.sawClosed)
  {
  }

  lemma MoveNears<T>(s: Ring<T>)
    requires Inv(s) && Inv(AdvanceRecv(s)) && (s.receiver.RRead? || s.receiver.RRelease? || (s.receiver.RWait? && s.closed))
    ensures var s' := AdvanceRecv(s);
      RecvEnds(s') && RecvRank(s') < RecvRank(s) && RecvAnswer(s') == RecvAnswer(s) && ReceivedThen(s') == ReceivedThen(s)
  {
    assert TicketOk(s, Q(s));
  }

  /** Each of its steps brings it nearer, with the same answer to come. */
  lemma RecvNears<T>(s: Ring<T>)
    requires Inv(s) && RecvEnds(s) && !s.receiver.RDone?
    ensures var s' := AdvanceRecv(s);
      && Inv(s') && RecvEnds(s') && RecvRank(s') < RecvRank(s)
      && RecvAnswer(s') == RecvAnswer(s) && ReceivedThen(s') == ReceivedThen(s)
  {
    StepKeepsInv(s, StepRecv);
    hide Inv, AdvanceRecv, RecvAnswer, ReceivedThen, RecvRank;
    if s.receiver.RLap? || s.receiver.RRelap? {
      LookNears(s);
    } else {
      MoveNears(s);
    }
  }

  lemma RecvAloneFirst<T>(s: Ring<T>, n: nat)
    ensures RecvAlone(s, n + 1) == RecvAlone(AdvanceRecv(s), n)
  {
    if n > 0 {
      RecvAloneFirst(s, n - 1);
    }
  }

  lemma {:induction false} EndsWithin<T>(s: Ring<T>, n: nat)
    requires Inv(s) && RecvEnds(s) && RecvRank(s) <= n
    ensures RecvAlone(s, n).receiver == RDone(RecvAnswer(s)) && RecvAlone(s, n).received == ReceivedThen(s)
    decreases n
  {
    if n > 0 {
      RecvAloneFirst(s, n - 1);
      if s.receiver.RDone? {
        assert AdvanceRecv(s) == s;
      } else {
        RecvNears(s);
      }
      hide Inv, AdvanceRecv;
      EndsWithin(AdvanceRecv(s), n - 1);
    } else {
      RankZero(s);
    }
  }

  lemma RankZero<T>(s: Ring<T>)
    requires Inv(s) && RecvEnds(s) && RecvRank(s) == 0
    ensures s.receiver == RDone(RecvAnswer(s)) && s.received == ReceivedThen(s)
  {
  }

  /** A blocking receive of an open ring with nothing to read goes on and waits; once it waits it needs the flag, or its wake-up. */
  ghost predicate Blocks<T>(s: Ring<T>) {
    && !s.closed
    && (s.receiver.RWait? || (s.receiver.RLap? && s.receiver.blocking && !Readable(s)) || (s.receiver.RRelap? && s.receiver.blocking && !Readable(s)))
  }

  lemma {:induction false} BlocksOn<T>(s: Ring<T>, n: nat)
    requires Inv(s) && Blocks(s)
    ensures Inv(RecvAlone(s, n)) && Blocks(RecvAlone(s, n))
  {
    if n > 0 {
      BlocksOn(s, n - 1);
      var pre := RecvAlone(s, n - 1);
      StepKeepsInv(pre, StepRecv);
      SenderKept(pre);
      BlockedStep(pre);
    }
  }

  lemma BlockedStep<T>(s: Ring<T>)
    requires Inv(s) && Blocks(s)
    ensures Blocks(AdvanceRecv(s))
  {
    if !s.receiver.RWait? {
      RecvDecision(s);
      SenderKept(s);
      LookKeepsReceived(s);
      if s.receiver.RRelap? {
        assert s.receiver.sawClosed ==> s.closed;
      }
      hide Inv, AdvanceRecv;
    }
  }

  /**
   `recv` running alone, from its first access, comes back if and only if the next message is published or the queue is
   closed: with that message, or with the error. It takes at most eight steps.
   */
  lemma RecvComesBack<T>(s: Ring<T>)
    requires Inv(s) && s.receiver == RLap(true, false)
    ensures (exists n :: RecvAlone(s, n).receiver.RDone?) <==> s.closed || R(s) < P(s)
    ensures R(s) < P(s) ==>
      && |s.received| < |s.sent|
      && RecvAlone(s, 8).receiver == RDone(Received(s.sent[|s.received|]))
      && RecvAlone(s, 8).received == s.received + [s.sent[|s.received|]]
    ensures s.closed && R(s) == P(s) ==> RecvAlone(s, 8).receiver == RDone(RecvError) && RecvAlone(s, 8).received == s.received
  {
    if s.closed || Readable(s) {
      EndsWithin(s, 8);
    } else {
      forall n: nat ensures !RecvAlone(s, n).receiver.RDone? {
        BlocksOn(s, n);
      }
    }
  }

  /**
   A `recv` that waits comes back by itself if and only if the queue is closed, with the next message if it is published,
   else with the error. On an open queue, when it is woken or looks again, it goes on as from its first access.
   */
  lemma WaitingRecvComesBack<T>(s: Ring<T>)
    requires Inv(s) && s.receiver.RWait?
    ensures (exists n :: RecvAlone(s, n).receiver.RDone?) <==> s.closed
    ensures s.closed && R(s) < P(s) ==>
      && |s.received| < |s.sent|
      && RecvAlone(s, 8).receiver == RDone(Received(s.sent[|s.received|]))
      && RecvAlone(s, 8).received == s.received + [s.sent[|s.received|]]
    ensures s.closed && R(s) == P(s) ==> RecvAlone(s, 8).receiver == RDone(RecvError) && RecvAlone(s, 8).received == s.received
    ensures Inv(Next(s, ResumeRecv)) && Next(s, ResumeRecv) == s.(receiver := RLap(true, false))
  {
    StepKeepsInv(s, ResumeRecv);
    if s.closed {
      EndsWithin(s, 8);
    } else {
      forall n: nat ensures !RecvAlone(s, n).receiver.RDone? {
        BlocksOn(s, n);
      }
    }
  }

  /** `try_recv` running alone always comes back: with the next message if it is published, else with Empty. */
  lemma TryRecvComesBack<T>(s: Ring<T>)
    requires Inv(s) && s.receiver == RLap(false, false)
    ensures R(s) < P(s) ==>
      && |s.received| < |s.sent|
      && RecvAlone(s, 8).receiver == RDone(Received(s.sent[|s.received|]))
      && RecvAlone(s, 8).received == s.received + [s.sent[|s.received|]]
    ensures R(s) == P(s) ==> RecvAlone(s, 8).receiver == RDone(RecvResult.Empty) && RecvAlone(s, 8).received == s.received
  {
    EndsWithin(s, 8);
  }

  // ---------------------------------------------------------------- blocking sends

  /** Nothing the sender does alone ends this call: no room, and nobody has closed the ring. */
  ghost predicate SendBlocks<T>(s: Ring<T>) {
    && !s.closed && TailUnread(s)
    && (s.sender.SWait? || ((s.sender.SCheck? || s.sender.SLap? || s.sender.SRelap?) && s.sender.blocking))
  }

  lemma SendBlockedStep<T>(s: Ring<T>)
    requires Inv(s) && SendBlocks(s)
    ensures SendBlocks(AdvanceSend(s))
  {
    if s.sender.SLap? {
      SendDecision(s);
    } else if s.sender.SRelap? {
      FullExact(s);
    }
    SlotsKept(s);
  }

  lemma SlotsKept<T>(s: Ring<T>)
    requires s.sender.SCheck? || s.sender.SLap? || s.sender.SRelap? || s.sender.SWait?
    ensures var s' := AdvanceSend(s); s'.slots == s.slots && s'.received == s.received && s'.receiver == s.receiver && s'.closed == s.closed
    ensures var s' := AdvanceSend(s); s.sender.SLap? && s'.sender.SRelap? ==> s'.sender.blocking == s.sender.blocking
    ensures var s' := AdvanceSend(s); s.sender.SLap? && s'.sender.SCheck? ==> s'.sender.blocking == s.sender.blocking
  {
  }

  lemma {:induction false} SendBlocksOn<T>(s: Ring<T>, n: nat)
    requires Inv(s) && SendBlocks(s)
    ensures Inv(SendAlone(s, n)) && SendBlocks(SendAlone(s, n))
  {
    if n > 0 {
      SendBlocksOn(s, n - 1);
      StepKeepsInv(SendAlone(s, n - 1), StepSend);
      SendBlockedStep(SendAlone(s, n - 1));
    }
  }

  /**
   `send` running alone, from its first access, comes back if and only if the queue is closed or its tail slot is free:
   with its message, or with the message sent. It takes at most four steps.
   */
  lemma SendComesBack<T>(s: Ring<T>)
    requires Inv(s) && s.sender.SCheck? && s.sender.blocking
    ensures (exists n :: SendAlone(s, n).sender.SDone?) <==> s.closed || !TailUnread(s)
    ensures s.closed ==> SendAlone(s, 4).sender == SDone(Disconnected(s.sender.msg)) && SendAlone(s, 4).sent == s.sent
    ensures !s.closed && !TailUnread(s) ==> SendAlone(s, 4).sender == SDone(Sent) && SendAlone(s, 4).sent == s.sent + [s.sender.msg]
  {
    if s.closed {
      SendAloneTwice(s, 3);
      AtRestStays(AdvanceSend(s), 3);
    } else if !TailUnread(s) {
      var s1 := AdvanceSend(s);
      var s2 := AdvanceSend(s1);
      StepKeepsInv(s, StepSend);
      SendAloneTwice(s, 3);
      SendDecision(s1);
      StepKeepsInv(s1, StepSend);
      SendAloneTwice(s1, 2);
      FinishClaim(s2);
    } else {
      forall n: nat ensures !SendAlone(s, n).sender.SDone? {
        SendBlocksOn(s, n);
      }
    }
  }

  /** A `send` that waits comes back by itself if and only if the queue is closed; else, woken, it goes on as from its first access. */
  lemma WaitingSendComesBack<T>(s: Ring<T>)
    requires Inv(s) && s.sender.SWait?
    ensures (exists n :: SendAlone(s, n).sender.SDone?) <==> s.closed
    ensures s.closed ==> SendAlone(s, 1).sender == SDone(Disconnected(s.sender.msg)) && SendAlone(s, 1).sent == s.sent
    ensures Inv(Next(s, ResumeSend)) && Next(s, ResumeSend) == s.(sender := SCheck(s.sender.msg, true))
  {
    StepKeepsInv(s, ResumeSend);
    hide Inv;
    if s.closed {
      SendAloneTwice(s, 0);
      var n: nat := 0 + 1;
      assert SendAlone(s, n).sender.SDone?;
    } else {
      hide AdvanceSend;
      forall n: nat ensures !SendAlone(s, n).sender.SDone? {
        WaitsOn(s, n);
      }
    }
  }

  lemma {:induction false} WaitsOn<T>(s: Ring<T>, n: nat)
    requires s.sender.SWait? && !s.closed
    ensures SendAlone(s, n) == s
  {
    if n > 0 {
      WaitsOn(s, n - 1);
    }
  }

  // ---------------------------------------------------------------- try_send, from any of its accesses

  ghost predicate Trying<T>(s: Ring<T>) {
    || ((s.sender.SCheck? || s.sender.SLap? || s.sender.SRelap?) && !s.sender.blocking)
    || s.sender.SWrite? || s.sender.SPublish? || s.sender.SDone?
  }

  /** Not caught in the wrapped lap. */
  ghost predicate TryEnds<T>(s: Ring<T>)
    requires |s.slots| > 0
  {
    s.sender.SCheck? || s.sender.SLap? || s.sender.SRelap? ==> s.closed || !LapWrapped(s)
  }

  ghost function TryRank<T>(s: Ring<T>): (n: nat)
    requires |s.slots| > 0
    ensures n <= 5
  {
    match s.sender
    case SCheck(_, _) => if s.closed then 1 else 4
    case SLap(_, _) => if LapWrapped(s) then 2 else 3
    case SRelap(_, _) => if TailUnread(s) && !LapWrapped(s) then 2 else 5
    case SWrite(_, _) => 2
    case SPublish(_) => 1
    case _ => 0
  }

  lemma TryLooks<T>(s: Ring<T>)
    requires Inv(s) && Trying(s) && TryEnds(s) && (s.sender.SCheck? || s.sender.SLap? || s.sender.SRelap?)
    ensures var s' := AdvanceSend(s); |s'.slots| == |s.slots| && Trying(s') && TryEnds(s') && TryRank(s') < TryRank(s)
  {
    if s.sender.SLap? {
      SendDecision(s);
    } else if s.sender.SRelap? {
      FullExact(s);
    }
    SlotsKept(s);
  }

  lemma TryWrites<T>(s: Ring<T>)
    requires Inv(s) && (s.sender.SWrite? || s.sender.SPublish?)
    ensures var s' := AdvanceSend(s); |s'.slots| == |s.slots| && Trying(s') && TryEnds(s') && TryRank(s') < TryRank(s)
  {
    assert TicketOk(s, P(s));
  }

  lemma TryNears<T>(s: Ring<T>)
    requires Inv(s) && Trying(s) && TryEnds(s) && !s.sender.SDone?
    ensures var s' := AdvanceSend(s);
      && Inv(s') && Trying(s') && TryEnds(s') && TryRank(s') < TryRank(s) && s'.closed == s.closed
      && s'.receiver == s.receiver && s'.received == s.received
  {
    StepKeepsInv(s, StepSend);
    SendKeeps(s);
    hide Inv, AdvanceSend, Trying, TryRank;
    if s.sender.SWrite? || s.sender.SPublish? {
      TryWrites(s);
    } else {
      assert s.sender.SCheck? || s.sender.SLap? || s.sender.SRelap? by {
        StillTrying(s);
      }
      TryLooks(s);
    }
  }

  lemma StillTrying<T>(s: Ring<T>)
    requires Trying(s) && !s.sender.SDone? && !s.sender.SWrite? && !s.sender.SPublish?
    ensures s.sender.SCheck? || s.sender.SLap? || s.sender.SRelap?
  {
  }

  lemma SendKeeps<T>(s: Ring<T>)
    ensures var s' := AdvanceSend(s); s'.closed == s.closed && s'.receiver == s.receiver && s'.received == s.received
  {
  }
}
