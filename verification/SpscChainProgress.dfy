/** When a call of the unbounded SPSC queue comes back by its own steps, and with what. */
module SpscChainProgress {
  import opened Words
  import opened Options
  import opened SpscChain
  import opened SpscChainInvariant
  import opened SpscChainSteps
  import opened SpscChainTheorems
  import SpscChainRings
  import R = SpscRing
  import RI = SpscInvariant
  import Th = SpscTheorems
  import P = SpscProgress

  /** n steps of the sender, with nobody else moving. */
  function SendAlone<T>(c: Chain<T>, n: nat): Chain<T> {
    if n == 0 then c else AdvanceSend(SendAlone(c, n - 1))
  }

  function RecvAlone<T>(c: Chain<T>, n: nat): Chain<T> {
    if n == 0 then c else AdvanceRecv(RecvAlone(c, n - 1))
  }

  lemma SendAloneFirst<T>(c: Chain<T>, n: nat)
    ensures SendAlone(c, n + 1) == SendAlone(AdvanceSend(c), n)
  {
    hide AdvanceSend;
    if n > 0 {
      SendAloneFirst(c, n - 1);
    }
  }

  lemma RecvAloneFirst<T>(c: Chain<T>, n: nat)
    ensures RecvAlone(c, n + 1) == RecvAlone(AdvanceRecv(c), n)
  {
    hide AdvanceRecv;
    if n > 0 {
      RecvAloneFirst(c, n - 1);
    }
  }

  /** The pointers of the calls lead to nodes, and the nodes' rings are rings. */
  lemma NodesThere<T>(c: Chain<T>)
    requires Inv(c)
    ensures c.tail < |c.nodes| && c.head < |c.nodes|
    ensures c.sender.SInRing? || c.sender.SFirst? ==> c.sender.node == Current(c) < |c.nodes| && Live(c, c.sender.node)
    ensures c.sender.SLoadTail? ==> c.tail == Current(c) && Live(c, c.tail)
    ensures c.sender.SCloseRing? || c.sender.SLink? ==> Live(c, c.sender.node) && c.sender.node == Current(c) && !c.userClosed
    ensures c.sender.SLink? ==> c.nodes[c.sender.node].next == None
    ensures forall j :: 0 <= j < |c.nodes| ==> RI.Inv(c.nodes[j].ring) && |c.nodes[j].ring.slots| > 0
  {
    forall j | 0 <= j < |c.nodes| ensures RI.Inv(c.nodes[j].ring) && |c.nodes[j].ring.slots| > 0 {
      assert NodeOk(c, j);
    }
    assert NodeOk(c, Current(c));
    hide RI.Inv;
  }

  // ---------------------------------------------------------------- send

  /** A send that its own steps bring to an end: it is not caught in the wrapped lap of its ring. */
  ghost predicate SendEnds<T>(c: Chain<T>) {
    match c.sender
    case SLoadTail(_) => c.tail < |c.nodes| && |c.nodes[c.tail].ring.slots| > 0 && (c.nodes[c.tail].ring.closed || !Th.LapWrapped(c.nodes[c.tail].ring))
    case SInRing(j, _) => j < |c.nodes| && |c.nodes[j].ring.slots| > 0 && P.Trying(c.nodes[j].ring) && P.TryEnds(c.nodes[j].ring)
    case SCloseRing(_, _) => true
    case SLink(_, _) => true
    case SFirst(j, _) => j < |c.nodes| && |c.nodes[j].ring.slots| > 0 && P.Trying(c.nodes[j].ring) && P.TryEnds(c.nodes[j].ring)
    case SStoreTail(_, _) => true
    case SDone(_, _) => true
    case _ => false
  }

  ghost function SendRank<T>(c: Chain<T>): nat
    requires SendEnds(c)
  {
    match c.sender
    case SLoadTail(_) => 16
    case SInRing(j, _) => 10 + P.TryRank(c.nodes[j].ring)
    case SCloseRing(_, _) => 9
    case SLink(_, _) => 8
    case SFirst(j, _) => 2 + P.TryRank(c.nodes[j].ring)
    case SStoreTail(_, _) => 1
    case _ => 0
  }

  ghost predicate Nearer<T>(c: Chain<T>, c': Chain<T>) {
    && SendEnds(c) && SendEnds(c') && SendRank(c') < SendRank(c) && c'.userClosed == c.userClosed
    && SCall(c') == SCall(c)
  }

  function SCall<T>(c: Chain<T>): Option<Call<T>> {
    match c.sender
    case SLoadTail(call) => Some(call)
    case SInRing(_, call) => Some(call)
    case SCloseRing(_, call) => Some(call)
    case SLink(_, call) => Some(call)
    case SFirst(_, call) => Some(call)
    case SStoreTail(_, call) => Some(call)
    case SDone(call, _) => Some(call)
    case _ => None
  }

  lemma LoadNears<T>(c: Chain<T>)
    requires Inv(c) && c.sender.SLoadTail? && SendEnds(c)
    ensures Nearer(c, AdvanceSend(c))
  {
    NodesThere(c);
    var r := c.nodes[c.tail].ring;
    assert NodeOk(c, c.tail);
    hide Inv, NodeOk;
    CallStarts(r, c.sender.call.msg);
    hide R.Next, RI.Inv, Th.LapWrapped;
  }

  lemma CallStarts<T>(r: R.Ring<T>, msg: T)
    requires |r.slots| > 0 && SpscChainRings.SenderAtRest(r.sender)
    ensures var r' := R.Next(r, R.StartSend(msg, false));
      && |r'.slots| == |r.slots| && r'.closed == r.closed && P.Trying(r') && P.TryRank(r') <= 4
      && r'.sender == R.SCheck(msg, false) && (Th.LapWrapped(r') <==> Th.LapWrapped(r))
  {
  }

  lemma RingNears<T>(c: Chain<T>)
    requires Inv(c) && (c.sender.SInRing? || c.sender.SFirst?) && SendEnds(c) && !c.nodes[c.sender.node].ring.sender.SDone?
    ensures Nearer(c, AdvanceSend(c))
  {
    NodesThere(c);
    var r := c.nodes[c.sender.node].ring;
    P.TryNears(r);
    hide Inv, R.AdvanceSend, P.Trying, P.TryEnds, P.TryRank, RI.Inv;
    RingSize(r);
  }

  lemma RingSize<T>(r: R.Ring<T>)
    ensures |R.AdvanceSend(r).slots| == |r.slots|
  {
  }

  lemma LeaveNears<T>(c: Chain<T>)
    requires Inv(c) && c.sender.SInRing? && SendEnds(c) && c.nodes[c.sender.node].ring.sender.SDone?
    ensures Nearer(c, AdvanceSend(c))
  {
    NodesThere(c);
    hide Inv, RI.Inv, P.Trying, P.TryEnds;
    var c' := AdvanceSend(c);
    assert c' == c.(sender := c'.sender) && (c'.sender.SDone? || c'.sender.SCloseRing?);
    hide AdvanceSend;
  }

  lemma LeaveFirstNears<T>(c: Chain<T>)
    requires Inv(c) && c.sender.SFirst? && SendEnds(c) && c.nodes[c.sender.node].ring.sender.SDone?
    ensures Nearer(c, AdvanceSend(c))
  {
    NodesThere(c);
    hide Inv, RI.Inv, P.Trying, P.TryEnds;
    assert AdvanceSend(c) == c.(sender := SStoreTail(c.sender.node, c.sender.call));
    hide AdvanceSend;
  }

  /** The tail ring was full: it is closed and a fresh one takes the message. */
  lemma LinkNears<T>(c: Chain<T>)
    requires Inv(c) && (c.sender.SCloseRing? || c.sender.SLink? || c.sender.SStoreTail?)
    ensures Nearer(c, AdvanceSend(c))
  {
    NodesThere(c);
    hide Inv;
    if c.sender.SLink? {
      CallStarts(R.Init<T>(SUB_QUEUE_SIZE), c.sender.call.msg);
      FreshIsOpen<T>(c.sender.call.msg);
      hide R.Next;
    }
  }

  lemma FreshIsOpen<T>(msg: T)
    ensures |R.Init<T>(SUB_QUEUE_SIZE).slots| > 0 && !Th.LapWrapped(R.Init<T>(SUB_QUEUE_SIZE))
  {
  }

  /** Each step of its own brings it nearer. */
  lemma SendNears<T>(c: Chain<T>)
    requires Inv(c) && SendEnds(c) && !c.sender.SDone?
    ensures Inv(AdvanceSend(c)) && Nearer(c, AdvanceSend(c))
  {
    SendKeepsInv(c);
    hide Inv, AdvanceSend, Nearer;
    if c.sender.SLoadTail? {
      LoadNears(c);
    } else if c.sender.SInRing? || c.sender.SFirst? {
      if c.nodes[c.sender.node].ring.sender.SDone? {
        if c.sender.SInRing? {
          LeaveNears(c);
        } else {
          LeaveFirstNears(c);
        }
      } else {
        RingNears(c);
      }
    } else {
      LinkNears(c);
    }
  }

  lemma {:induction false} SendEndsWithin<T>(c: Chain<T>, n: nat)
    requires Inv(c) && SendEnds(c) && SendRank(c) <= n
    ensures var c' := SendAlone(c, n); Inv(c') && c'.sender.SDone? && SCall(c') == SCall(c) && c'.userClosed == c.userClosed
    decreases n
  {
    hide Inv, AdvanceSend, SendEnds, SendRank, SCall;
    AtSendEnd(c);
    if n > 0 {
      SendAloneFirst(c, n - 1);
      if !c.sender.SDone? {
        SendNears(c);
      }
      SendEndsWithin(AdvanceSend(c), n - 1);
    }
  }

  lemma AtSendEnd<T>(c: Chain<T>)
    requires SendEnds(c)
    ensures SendRank(c) == 0 ==> c.sender.SDone?
    ensures c.sender.SDone? ==> SendRank(c) == 0 && AdvanceSend(c) == c
  {
  }

  /** Caught: going round on an unread slot of the wrapped lap. */
  ghost predicate Caught<T>(c: Chain<T>) {
    match c.sender
    case SLoadTail(_) => c.tail < |c.nodes| && |c.nodes[c.tail].ring.slots| > 0 && !c.nodes[c.tail].ring.closed && Th.LapWrapped(c.nodes[c.tail].ring)
    case SInRing(j, _) => j < |c.nodes| && |c.nodes[j].ring.slots| > 0 && Th.Spinning(c.nodes[j].ring)
    case _ => false
  }

  lemma CaughtStep<T>(c: Chain<T>)
    requires Inv(c) && Caught(c)
    ensures Inv(AdvanceSend(c)) && Caught(AdvanceSend(c))
  {
    SendKeepsInv(c);
    NodesThere(c);
    if c.sender.SLoadTail? {
      assert NodeOk(c, c.tail);
      hide Inv, NodeOk;
      CallStarts(c.nodes[c.tail].ring, c.sender.call.msg);
      hide R.Next, RI.Inv, Th.LapWrapped;
    } else {
      var r := c.nodes[c.sender.node].ring;
      hide Inv;
      P.SendKeeps(r);
      assert RI.Q(R.AdvanceSend(r)) == RI.Q(r);
      Th.SpinStep(r, R.StepSend);
      hide R.AdvanceSend, RI.Inv, Th.LapWrapped;
    }
  }

  lemma {:induction false} CaughtOn<T>(c: Chain<T>, n: nat)
    requires Inv(c) && Caught(c)
    ensures Inv(SendAlone(c, n)) && Caught(SendAlone(c, n))
  {
    hide Inv, Caught, AdvanceSend;
    if n > 0 {
      CaughtOn(c, n - 1);
      CaughtStep(SendAlone(c, n - 1));
    }
  }

  lemma AtTail<T>(c: Chain<T>)
    requires Inv(c) && c.sender.SLoadTail?
    ensures c.tail < |c.nodes| && |c.nodes[c.tail].ring.slots| > 0
    ensures c.nodes[c.tail].ring.closed == c.userClosed && c.accepted == c.sender.call.before
  {
    NodesThere(c);
    assert NodeOk(c, Current(c));
    hide RI.Inv;
  }

  /**
   `send` running alone comes back if and only if the queue is closed or its tail ring is not full in the wrapped lap. On an
   open queue its message is then accepted, through a fresh ring if the tail's is full; else it is handed back. It takes at
   most sixteen steps.
   */
  lemma SendComesBack<T>(c: Chain<T>)
    requires Inv(c) && c.sender.SLoadTail?
    ensures c.tail < |c.nodes| && |c.nodes[c.tail].ring.slots| > 0
    ensures (exists n :: SendAlone(c, n).sender.SDone?) <==> c.userClosed || !Th.LapWrapped(c.nodes[c.tail].ring)
    ensures !c.userClosed && !Th.LapWrapped(c.nodes[c.tail].ring) ==>
      SendAlone(c, 16).sender == SDone(c.sender.call, Accepted) && SendAlone(c, 16).accepted == c.accepted + [c.sender.call.msg]
    ensures c.userClosed ==>
      SendAlone(c, 16).sender == SDone(c.sender.call, Refused(c.sender.call.msg)) && SendAlone(c, 16).accepted == c.accepted
  {
    AtTail(c);
    hide Inv, Th.LapWrapped, AdvanceSend;
    if c.userClosed || !Th.LapWrapped(c.nodes[c.tail].ring) {
      SendEndsWithin(c, 16);
      SendSaid(SendAlone(c, 16));
    } else {
      forall n: nat ensures !SendAlone(c, n).sender.SDone? {
        CaughtOn(c, n);
      }
    }
  }

  // ---------------------------------------------------------------- recv

  /** A `recv` just begun on this ring, from which nothing was received, ends. */
  ghost predicate RingReady<T>(r: R.Ring<T>) {
    r.closed || RI.P(r) > 0
  }

  /** There is a next node, and in it something, or the end. */
  ghost predicate NextReady<T>(c: Chain<T>, j: nat) {
    j + 1 < |c.nodes| && RingReady(c.nodes[j + 1].ring)
  }

  /** A receive that its own steps bring to an end. */
  ghost predicate RecvEnds<T>(c: Chain<T>)
    requires Inv(c)
  {
    match c.receiver
    case RInRing(j, hopped, _) =>
      && j < |c.nodes| && P.RecvEnds(c.nodes[j].ring)
      && (GivesUp(c, j) && !hopped ==> c.closed || NextReady(c, j))
    case RCheckClosed(j, _) => c.closed || NextReady(c, j)
    case RLoadNext(j, _) => NextReady(c, j)
    case RHop(j, _, _) => NextReady(c, j)
    case RFree(j, _, _) => NextReady(c, j)
    case RDone(_, _) => true
    case _ => false
  }

  /** The `recv` inside ring j is going to find it closed and drained. */
  ghost predicate GivesUp<T>(c: Chain<T>, j: nat)
    requires Inv(c)
  {
    j < |c.nodes| && RI.Inv(c.nodes[j].ring) && P.RecvEnds(c.nodes[j].ring) && P.RecvAnswer(c.nodes[j].ring).RecvError?
  }

  ghost function RecvRank<T>(c: Chain<T>): nat {
    match c.receiver
    case RInRing(j, hopped, _) => (if hopped then 1 else 20) + if j < |c.nodes| then P.RecvRank(c.nodes[j].ring) else 0
    case RCheckClosed(_, _) => 19
    case RLoadNext(_, _) => 18
    case RHop(_, _, _) => 17
    case RFree(_, _, _) => 16
    case _ => 0
  }

  predicate InRecv<T>(c: Chain<T>) {
    !c.receiver.RIdle? && !c.receiver.RUndefined?
  }

  /** A step neither saves a receive nor strands it, and one that ends comes nearer. */
  ghost predicate RecvMoves<T>(c: Chain<T>, c': Chain<T>) {
    && Inv(c) && Inv(c') && InRecv(c')
    && (RecvEnds(c') <==> RecvEnds(c))
    && (RecvEnds(c) ==> RecvRank(c') < RecvRank(c))
    && c'.accepted == c.accepted && GotBefore(c') == GotBefore(c)
  }

  function GotBefore<T>(c: Chain<T>): seq<T> {
    match c.receiver
    case RInRing(_, _, got) => got
    case RCheckClosed(_, got) => got
    case RLoadNext(_, got) => got
    case RHop(_, _, got) => got
    case RFree(_, _, got) => got
    case RDone(got, _) => got
    case _ => []
  }

  /** The receiver's pointers. */
  lemma ReceiverThere<T>(c: Chain<T>)
    requires Inv(c)
    ensures c.receiver.RInRing? ==> c.receiver.node == c.head && Live(c, c.head)
    ensures c.receiver.RCheckClosed? ==> c.receiver.node == c.head
    ensures c.receiver.RLoadNext? || c.receiver.RHop? ==> c.receiver.node == c.head && Live(c, c.head) && !c.userClosed
    ensures c.receiver.RHop? ==> c.receiver.next == c.head + 1
    ensures c.receiver.RFree? ==> c.receiver.next == c.head == c.receiver.node + 1 && Live(c, c.head) && Live(c, c.receiver.node)
    ensures c.head < |c.nodes| && RI.Inv(c.nodes[c.head].ring)
    ensures c.nodes[c.head].next == if c.head + 1 < |c.nodes| then Some(c.head + 1) else None
  {
    assert NodeOk(c, c.head);
    if c.receiver.RFree? {
      assert NodeOk(c, c.receiver.node);
    }
    hide RI.Inv;
  }

  /** Of the ring, in a chain: what the receiver inside it is doing. */
  lemma InsideRing<T>(c: Chain<T>)
    requires Inv(c) && c.receiver.RInRing?
    ensures c.head < |c.nodes| && P.Receiving(c.nodes[c.head].ring)
    ensures
      var r := c.nodes[c.head].ring;
      && (r.receiver.RLap? || r.receiver.RRelap? ==> r.receiver.blocking)
      && (r.receiver.RDone? ==> !r.receiver.recvResult.Empty?)
      && (r.receiver.RLap? || r.receiver.RRelap? ==> (r.receiver.sawClosed ==> r.closed))
  {
    assert NodeOk(c, c.head);
    InsideRead(c.nodes[c.head].ring);
    hide RI.Inv;
  }

  lemma InsideRead<T>(r: R.Ring<T>)
    requires RI.Inv(r)
    ensures r.receiver.RLap? || r.receiver.RRelap? ==> (r.receiver.sawClosed ==> r.closed)
  {
  }

  lemma RingRecvMoves<T>(c: Chain<T>)
    requires Inv(c) && Inv(AdvanceRecv(c)) && c.receiver.RInRing? && !c.nodes[c.receiver.node].ring.receiver.RDone?
    ensures RecvMoves(c, AdvanceRecv(c))
  {
    ReceiverThere(c);
    InsideRing(c);
    var r, c' := c.nodes[c.head].ring, AdvanceRecv(c);
    var r' := R.Next(r, R.StepRecv);
    RingStepKeeps(c);
    ReceiverThere(c');
    InsideRing(c');
    hide Inv, R.AdvanceRecv, AdvanceRecv, NextReady, P.RecvRank, P.RecvAnswer;
    if P.RecvEnds(r) {
      P.RecvNears(r);
      hide RI.Inv;
    } else {
      BlockedMoves(r);
      hide RI.Inv;
    }
  }

  lemma BlockedMoves<T>(r: R.Ring<T>)
    requires RI.Inv(r) && P.Receiving(r) && !P.RecvEnds(r)
    ensures P.Blocks(r) && P.Blocks(R.AdvanceRecv(r)) && !P.RecvEnds(R.AdvanceRecv(r))
  {
    P.BlockedStep(r);
  }

  /** What the receiver's step inside its ring leaves as it is. */
  lemma RingStepKeeps<T>(c: Chain<T>)
    requires Inv(c) && c.receiver.RInRing? && c.receiver.node == c.head && Live(c, c.head) && !c.nodes[c.head].ring.receiver.RDone?
    ensures
      var c', r := AdvanceRecv(c), c.nodes[c.head].ring;
      && c'.receiver == c.receiver && c'.head == c.head && c'.closed == c.closed && c'.accepted == c.accepted && |c'.nodes| == |c.nodes|
      && c'.nodes[c.head].ring == R.AdvanceRecv(r) && (NextReady(c', c.head) <==> NextReady(c, c.head))
  {
    P.SenderKept(c.nodes[c.head].ring);
    hide R.AdvanceRecv, Inv;
  }

  lemma LeaveRingMoves<T>(c: Chain<T>)
    requires Inv(c) && Inv(AdvanceRecv(c)) && c.receiver.RInRing? && c.nodes[c.receiver.node].ring.receiver.RDone?
    ensures RecvMoves(c, AdvanceRecv(c))
  {
    ReceiverThere(c);
    InsideRing(c);
    hide Inv, RI.Inv, R.Next;
  }

  lemma LooksMove<T>(c: Chain<T>)
    requires Inv(c) && Inv(AdvanceRecv(c)) && (c.receiver.RCheckClosed? || c.receiver.RLoadNext? || c.receiver.RHop?)
    requires c.receiver.RLoadNext? ==> RecvEnds(c)
    ensures RecvMoves(c, AdvanceRecv(c))
  {
    ReceiverThere(c);
    hide Inv, RI.Inv, R.Next;
  }

  lemma FreeMoves<T>(c: Chain<T>)
    requires Inv(c) && Inv(AdvanceRecv(c)) && c.receiver.RFree?
    ensures RecvMoves(c, AdvanceRecv(c))
  {
    ReceiverThere(c);
    var r, c' := c.nodes[c.head].ring, AdvanceRecv(c);
    FreshRecv(c);
    hide Inv, R.Next, RI.Inv;
  }

  /** The `recv` begun on the next ring. */
  lemma FreshRecv<T>(c: Chain<T>)
    requires Inv(c) && c.receiver.RFree? && c.head < |c.nodes|
    ensures
      var r := c.nodes[c.head].ring;
      var r' := R.Next(r, R.StartRecv(true));
      && r'.sent == r.sent && r'.received == r.received && r'.receiver == R.RLap(true, false) && r'.closed == r.closed
      && (P.RecvEnds(r') <==> RingReady(r)) && P.RecvRank(r') <= 8
  {
    assert NodeOk(c, c.head);
  }

  lemma RecvSteps<T>(c: Chain<T>)
    requires Inv(c) && InRecv(c) && !c.receiver.RDone? && (c.receiver.RLoadNext? ==> RecvEnds(c))
    ensures RecvMoves(c, AdvanceRecv(c))
  {
    RecvKeepsInv(c);
    hide Inv, RecvMoves, AdvanceRecv;
    if c.receiver.RInRing? {
      ReceiverThere(c);
      if c.nodes[c.receiver.node].ring.receiver.RDone? {
        LeaveRingMoves(c);
      } else {
        RingRecvMoves(c);
      }
    } else if c.receiver.RFree? {
      FreeMoves(c);
    } else {
      LooksMove(c);
    }
  }

  lemma {:induction false} RecvEndsWithin<T>(c: Chain<T>, n: nat)
    requires Inv(c) && InRecv(c) && RecvEnds(c) && RecvRank(c) <= n
    ensures var c' := RecvAlone(c, n); Inv(c') && c'.receiver.RDone? && c'.accepted == c.accepted && GotBefore(c') == GotBefore(c)
    decreases n
  {
    if n > 0 {
      RecvAloneFirst(c, n - 1);
      if c.receiver.RDone? {
        assert AdvanceRecv(c) == c;
      } else {
        RecvSteps(c);
      }
      hide Inv, AdvanceRecv, RecvEnds;
      RecvEndsWithin(AdvanceRecv(c), n - 1);
    } else {
      NoRank(c);
    }
  }

  lemma NoRank<T>(c: Chain<T>)
    requires Inv(c) && InRecv(c) && RecvEnds(c) && RecvRank(c) == 0
    ensures c.receiver.RDone?
  {
    hide Inv;
  }

  lemma StuckStep<T>(c: Chain<T>)
    requires Inv(c) && InRecv(c) && !RecvEnds(c)
    ensures var c' := AdvanceRecv(c); Inv(c') && InRecv(c') && !RecvEnds(c')
  {
    if c.receiver.RLoadNext? {
      RecvKeepsInv(c);
      ReceiverThere(c);
      if c.nodes[c.head].next.Some? {
        NextLinked(c);
      }
    } else {
      RecvSteps(c);
    }
  }

  lemma NextLinked<T>(c: Chain<T>)
    requires Inv(c) && Inv(AdvanceRecv(c)) && c.receiver.RLoadNext? && c.receiver.node == c.head && Live(c, c.head)
    ensures InRecv(AdvanceRecv(c)) && (RecvEnds(AdvanceRecv(c)) ==> RecvEnds(c))
  {
    hide Inv;
  }

  lemma {:induction false} StuckOn<T>(c: Chain<T>, n: nat)
    requires Inv(c) && InRecv(c) && !RecvEnds(c)
    ensures var c' := RecvAlone(c, n); Inv(c') && InRecv(c') && !RecvEnds(c')
  {
    hide Inv, RecvEnds, InRecv, AdvanceRecv;
    if n > 0 {
      StuckOn(c, n - 1);
      StuckStep(RecvAlone(c, n - 1));
    }
  }

  // What is there to receive.

  /** How many messages have been sent and published, in all rings. */
  ghost function Published<T>(c: Chain<T>): int {
    |c.accepted| - if (c.sender.SInRing? || c.sender.SFirst?) && c.sender.node < |c.nodes| && RI.SendWindow(c.nodes[c.sender.node].ring) then 1 else 0
  }

  /** In a ring: what is published is all, but for a send in its window, which only the current ring can hold. */
  lemma RingPublished<T>(c: Chain<T>, j: nat)
    requires Inv(c) && j < |c.nodes|
    ensures var r := c.nodes[j].ring;
      && RI.P(r) == |r.sent| - (if j == Current(c) then |c.accepted| - Published(c) else 0)
      && 0 <= |c.accepted| - Published(c) <= 1 && |r.received| <= RI.P(r)
      && (RI.P(r) == |r.sent| || |r.sent| >= 1)
  {
    assert NodeOk(c, j);
    assert NodeOk(c, Current(c));
    PublishedBounds(c.nodes[j].ring);
    hide RI.Inv;
  }

  lemma PublishedBounds<T>(r: R.Ring<T>)
    requires RI.Inv(r)
    ensures |r.received| <= RI.P(r) <= |r.sent| && (RI.SendWindow(r) ==> |r.sent| >= 1)
  {
  }

  /** The head is the current ring. */
  lemma AtCurrent<T>(c: Chain<T>)
    requires Inv(c) && c.head == Current(c)
    ensures c.head < |c.nodes| && Published(c) - |c.delivered| == RI.P(c.nodes[c.head].ring) - |c.nodes[c.head].ring.received|
  {
    RingPublished(c, Current(c));
    SentIntoTail(c);
    hide RI.Inv, Published;
  }

  /** There are rings behind the head: the next holds something published if any does. */
  lemma BehindHead<T>(c: Chain<T>)
    requires Inv(c) && c.head < Current(c)
    ensures c.head + 1 < |c.nodes|
    ensures var r := c.nodes[c.head].ring;
      && (|r.received| < |r.sent| ==> Published(c) > |c.delivered|)
      && (|r.received| == |r.sent| ==> (Published(c) > |c.delivered| <==> RI.P(c.nodes[c.head + 1].ring) > 0))
  {
    var h, k := c.head, Current(c);
    RingPublished(c, k);
    RingPublished(c, h + 1);
    assert NodeOk(c, h) && NodeOk(c, h + 1);
    SentIntoTail(c);
    hide RI.Inv, Published;
    SentIntoPrefix(c.nodes, h, h + 1);
    SentIntoPrefix(c.nodes, h + 1, k);
    ReceivedIn(c);
  }

  lemma ReceivedIn<T>(c: Chain<T>)
    requires Inv(c) && c.head < |c.nodes|
    ensures |c.delivered| == |SentInto(c.nodes, c.head)| + |c.nodes[c.head].ring.received|
    ensures |SentInto(c.nodes, c.head + 1)| == |SentInto(c.nodes, c.head)| + |c.nodes[c.head].ring.sent|
  {
    hide RI.Inv, NodeOk;
  }

  lemma SentIntoTail<T>(c: Chain<T>)
    requires Inv(c)
    ensures 0 <= Current(c) < |c.nodes| && SentInto(c.nodes, Current(c)) + c.nodes[Current(c)].ring.sent == SentInto(c.nodes, |c.nodes|) == c.accepted
  {
    if c.userClosed {
      assert NodeOk(c, |c.nodes| - 1);
    }
    hide RI.Inv;
  }

  lemma BegunEnds<T>(c: Chain<T>)
    requires Inv(c) && c.head < |c.nodes| && c.receiver == RInRing(c.head, false, c.delivered) && c.nodes[c.head].ring.receiver == R.RLap(true, false)
    ensures RecvEnds(c) <==> |c.delivered| < Published(c) || (c.closed && c.nodes[c.head].ring.closed)
  {
    var h, r := c.head, c.nodes[c.head].ring;
    RingPublished(c, h);
    assert NodeOk(c, h);
    if h == Current(c) {
      AtCurrent(c);
    } else {
      BehindHead(c);
      RingPublished(c, h + 1);
      assert NodeOk(c, h + 1);
    }
    hide RI.Inv, SentInto;
    assert P.Readable(r) <==> |r.received| < RI.P(r);
  }

  lemma WindowClosed<T>(c: Chain<T>)
    requires Inv(c) && c.userClosed
    ensures Published(c) == |c.accepted|
  {
    hide RI.Inv, NodeOk;
  }

  /**
   `recv` running alone, from its first access, comes back if and only if some message sent and published is undelivered,
   or `close` has set its flag and closed the head ring. It then delivers the next message, over a hop if the head ring
   is drained, else ends. It takes at most twenty-eight steps.
   */
  lemma RecvComesBack<T>(c: Chain<T>)
    requires Inv(c) && c.head < |c.nodes| && c.receiver == RInRing(c.head, false, c.delivered) && c.nodes[c.head].ring.receiver == R.RLap(true, false)
    ensures (exists n :: RecvAlone(c, n).receiver.RDone?) <==> |c.delivered| < Published(c) || (c.closed && c.nodes[c.head].ring.closed)
    ensures |c.delivered| < Published(c) ==>
      && |c.delivered| < |c.accepted|
      && RecvAlone(c, 28).receiver == RDone(c.delivered, Got(c.accepted[|c.delivered|]))
      && RecvAlone(c, 28).delivered == c.delivered + [c.accepted[|c.delivered|]]
    ensures |c.delivered| >= Published(c) && c.closed && c.nodes[c.head].ring.closed ==>
      RecvAlone(c, 28).receiver == RDone(c.delivered, Ended) && RecvAlone(c, 28).delivered == c.delivered == c.accepted
  {
    BegunEnds(c);
    RingPublished(c, c.head);
    hide Inv, RecvEnds, AdvanceRecv, Published, RecvAlone;
    if RecvEnds(c) {
      RecvFinishes(c);
    } else {
      forall n: nat ensures !RecvAlone(c, n).receiver.RDone? {
        StuckOn(c, n);
        if RecvAlone(c, n).receiver.RDone? {
          DoneEnds(RecvAlone(c, n));
        }
      }
    }
  }

  /** What it says in the end is settled by what there was to receive. */
  lemma RecvFinishes<T>(c: Chain<T>)
    requires Inv(c) && RecvEnds(c) && c.receiver == RInRing(c.head, false, c.delivered)
    ensures var c' := RecvAlone(c, 28);
      && c'.receiver.RDone?
      && (|c.delivered| < Published(c) ==>
           |c.delivered| < |c.accepted| && c'.receiver == RDone(c.delivered, Got(c.accepted[|c.delivered|]))
           && c'.delivered == c.delivered + [c.accepted[|c.delivered|]])
      && (c.closed && |c.delivered| >= Published(c) ==> c'.receiver == RDone(c.delivered, Ended) && c'.delivered == c.delivered == c.accepted)
  {
    if c.closed {
      ClosedIsMarked(c);
      WindowClosed(c);
    }
    RingPublished(c, c.head);
    var c' := RecvAlone(c, 28);
    RankBound(c);
    RecvEndsWithin(c, 28);
    RecvSaid(c');
    hide Inv, RecvEnds, RecvAlone, Published;
    assert c'.receiver == RDone(c.delivered, c'.receiver.recvOutcome);
    Settled(c, c', Published(c));
  }

  lemma Settled<T>(c: Chain<T>, c': Chain<T>, published: int)
    requires c'.receiver.RDone? && c'.receiver.got == c.delivered && c'.accepted == c.accepted && published <= |c.accepted|
    requires c.closed ==> published == |c.accepted|
    requires if c'.receiver.recvOutcome.Got? then c'.delivered == c.delivered + [c'.receiver.recvOutcome.msg] && c'.delivered <= c'.accepted
      else c'.closed && c'.delivered == c.delivered == c'.accepted
    ensures |c.delivered| < published ==>
      && |c.delivered| < |c.accepted| && c'.receiver == RDone(c.delivered, Got(c.accepted[|c.delivered|]))
      && c'.delivered == c.delivered + [c.accepted[|c.delivered|]]
    ensures c.closed && |c.delivered| >= published ==> c'.receiver == RDone(c.delivered, Ended) && c'.delivered == c.delivered == c.accepted
  {
  }

  lemma RankBound<T>(c: Chain<T>)
    requires Inv(c) && c.receiver.RInRing?
    ensures RecvRank(c) <= 28 && InRecv(c) && c.head < |c.nodes|
  {
    ReceiverThere(c);
    hide Inv;
  }

  lemma ClosedIsMarked<T>(c: Chain<T>)
    requires Inv(c)
    ensures c.closed ==> c.userClosed
  {
    hide RI.Inv, NodeOk;
  }

  lemma DoneEnds<T>(c: Chain<T>)
    requires Inv(c) && c.receiver.RDone?
    ensures RecvEnds(c)
  {
    hide Inv;
  }
}
