/** One ring's steps, as the chain sees them. */
module SpscChainRings {
  import opened Words
  import opened Options
  import opened Elem
  import opened SpscRing
  import I = SpscInvariant
  import Th = SpscTheorems

  /** A `try_send` of msg that has not yet claimed. */
  ghost predicate Trying<T>(pc: SendPc<T>, msg: T) {
    pc == SCheck(msg, false) || pc == SLap(msg, false) || pc == SRelap(msg, false)
  }

  /** One that has. */
  ghost predicate Claimed<T>(pc: SendPc<T>, msg: T) {
    (pc.SWrite? && pc.msg == msg) || pc.SPublish? || pc == SDone(Sent)
  }

  /** One that gave up. */
  ghost predicate GaveUp<T>(pc: SendPc<T>, msg: T) {
    pc == SDone(SendResult.Full(msg)) || pc == SDone(Disconnected(msg))
  }

  /** A blocking `recv` that has not yet moved a message out. */
  ghost predicate Waiting<T>(pc: RecvPc<T>) {
    (pc.RLap? && pc.blocking) || (pc.RRelap? && pc.blocking) || pc.RWait? || pc.RRead? || pc == RDone(RecvError)
  }

  /** One that has moved out msg. */
  ghost predicate HasMsg<T>(pc: RecvPc<T>, msg: T) {
    (pc.RRelease? && pc.msg == msg) || pc == RDone(Received(msg))
  }

  predicate SenderAtRest<T>(pc: SendPc<T>) {
    pc.SIdle? || pc.SDone?
  }

  predicate ReceiverAtRest<T>(pc: RecvPc<T>) {
    pc.RIdle? || pc.RDone?
  }

  ghost predicate SameReceiver<T>(r: Ring<T>, r': Ring<T>) {
    r'.receiver == r.receiver && r'.received == r.received && |r'.slots| == |r.slots|
  }

  /** A sender's step inside the ring. */
  ghost predicate SendMoves<T>(r: Ring<T>, r': Ring<T>, msg: T) {
    && SameReceiver(r, r') && r'.closed == r.closed
    && (Claimed(r.sender, msg) ==> Claimed(r'.sender, msg) && r'.sent == r.sent)
    && (Trying(r.sender, msg) ==>
          || (Claimed(r'.sender, msg) && r'.sent == r.sent + [msg] && !r.sender.SCheck?)
          || ((Trying(r'.sender, msg) || GaveUp(r'.sender, msg)) && r'.sent == r.sent))
    && (r'.sender == SDone(SendResult.Full(msg)) ==> r.sent != [])
    && (r'.sender == SDone(Disconnected(msg)) ==> r.closed)
    && (r.sender.SCheck? && r.closed ==> r'.sender == SDone(Disconnected(msg)))
  }

  lemma TryingMoves<T>(r: Ring<T>, msg: T)
    requires I.Inv(r) && Trying(r.sender, msg)
    ensures SendMoves(r, AdvanceSend(r), msg)
  {
    match r.sender {
      case SLap(_, _) => Th.SendDecision(r);
      case SRelap(_, _) => Th.FullExact(r);
      case _ =>
    }
    hide I.Inv;
  }

  lemma ClaimedMoves<T>(r: Ring<T>, msg: T)
    requires I.Inv(r) && Claimed(r.sender, msg) && !r.sender.SDone?
    ensures SendMoves(r, AdvanceSend(r), msg)
  {
    assert I.TicketOk(r, I.P(r));
  }

  lemma SendStep<T>(r: Ring<T>, msg: T)
    requires I.Inv(r) && (Trying(r.sender, msg) || Claimed(r.sender, msg)) && !r.sender.SDone?
    ensures I.Inv(Next(r, StepSend)) && SendMoves(r, Next(r, StepSend), msg)
  {
    I.StepKeepsInv(r, StepSend);
    if Trying(r.sender, msg) {
      TryingMoves(r, msg);
    } else {
      ClaimedMoves(r, msg);
    }
  }

  /** On an open ring into which nothing was sent, `try_send` cannot but claim. */
  lemma FirstSendStep<T>(r: Ring<T>, msg: T)
    requires I.Inv(r) && !r.closed && r.sent == [] && (r.sender == SCheck(msg, false) || r.sender == SLap(msg, false))
    ensures Next(r, StepSend).sender == SLap(msg, false) || Claimed(Next(r, StepSend).sender, msg)
  {
    if r.sender.SLap? {
      Th.SendDecision(r);
    }
  }

  lemma SenderCall<T>(r: Ring<T>, msg: T)
    requires I.Inv(r) && SenderAtRest(r.sender)
    ensures var r' := Next(r, StartSend(msg, false));
      I.Inv(r') && SameReceiver(r, r') && r'.closed == r.closed && r'.sent == r.sent && r'.sender == SCheck(msg, false)
  {
    I.StepKeepsInv(r, StartSend(msg, false));
  }

  lemma CloseStep<T>(r: Ring<T>)
    requires I.Inv(r)
    ensures I.Inv(Next(r, Close)) && Next(r, Close) == r.(closed := true)
  {
    I.StepKeepsInv(r, Close);
  }

  ghost predicate SameSender<T>(r: Ring<T>, r': Ring<T>) {
    r'.sender == r.sender && r'.sent == r.sent && |r'.slots| == |r.slots| && r'.closed == r.closed
  }

  /** A receiver's step inside the ring. A `recv` that gives up leaves a closed ring with nothing unread behind. */
  ghost predicate RecvMoves<T>(r: Ring<T>, r': Ring<T>) {
    && SameSender(r, r') && r'.received <= r'.sent
    && (r.receiver.RRelease? ==> r'.receiver == RDone(Received(r.receiver.msg)) && r'.received == r.received)
    && (Waiting(r.receiver) ==>
          || (Waiting(r'.receiver) && r'.received == r.received)
          || (r'.receiver.RRelease? && r'.received == r.received + [r'.receiver.msg]))
    && (r'.receiver == RDone(RecvError) ==> r.closed && (I.SendWindow(r) || r.received == r.sent))
  }

  lemma LookMoves<T>(r: Ring<T>)
    requires I.Inv(r) && Waiting(r.receiver) && (r.receiver.RLap? || r.receiver.RRelap?)
    ensures RecvMoves(r, Next(r, StepRecv))
  {
    Th.RecvDecision(r);
    assert r.received <= r.sent && I.R(r) <= I.P(r) && (r.receiver.sawClosed ==> r.closed);
    LookFrame(r);
    hide I.Inv, AdvanceRecv;
  }

  /** A look at the head's lap moves nothing but the receiver and its meta. */
  lemma LookFrame<T>(r: Ring<T>)
    requires r.receiver.RLap? || r.receiver.RRelap?
    ensures AdvanceRecv(r) == r.(receiver := AdvanceRecv(r).receiver, readMeta := AdvanceRecv(r).readMeta)
  {
    hide Bump, LapOf, IdxOf;
  }

  lemma TakeMoves<T>(r: Ring<T>)
    requires I.Inv(r) && (r.receiver.RRead? || r.receiver.RRelease?)
    ensures RecvMoves(r, Next(r, StepRecv))
  {
    assert I.TicketOk(r, I.Q(r));
  }

  lemma WaitMoves<T>(r: Ring<T>)
    requires I.Inv(r) && r.receiver.RWait?
    ensures RecvMoves(r, Next(r, StepRecv))
  {
  }

  lemma RecvStep<T>(r: Ring<T>)
    requires I.Inv(r) && !r.receiver.RDone? && (Waiting(r.receiver) || r.receiver.RRelease?)
    ensures I.Inv(Next(r, StepRecv)) && RecvMoves(r, Next(r, StepRecv))
  {
    I.StepKeepsInv(r, StepRecv);
    hide I.Inv, Next, RecvMoves;
    if r.receiver.RWait? {
      WaitMoves(r);
    } else if r.receiver.RLap? || r.receiver.RRelap? {
      LookMoves(r);
    } else {
      TakeMoves(r);
    }
  }

  lemma RecvResume<T>(r: Ring<T>)
    requires I.Inv(r) && !r.receiver.RDone? && (Waiting(r.receiver) || r.receiver.RRelease?)
    ensures var r' := Next(r, ResumeRecv);
      && I.Inv(r') && SameSender(r, r') && r'.received == r.received && !r'.receiver.RDone?
      && (Waiting(r.receiver) ==> Waiting(r'.receiver))
      && (r.receiver.RRelease? ==> r'.receiver == r.receiver)
  {
    I.StepKeepsInv(r, ResumeRecv);
  }

  lemma ReceiverCall<T>(r: Ring<T>)
    requires I.Inv(r) && ReceiverAtRest(r.receiver)
    ensures var r' := Next(r, StartRecv(true));
      I.Inv(r') && SameSender(r, r') && r'.received == r.received && r'.receiver == RLap(true, false)
  {
    I.StepKeepsInv(r, StartRecv(true));
  }

  lemma ReceivedIsPrefix<T>(r: Ring<T>)
    requires I.Inv(r)
    ensures r.received <= r.sent
  {
  }
}
