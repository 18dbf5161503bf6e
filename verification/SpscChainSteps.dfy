/** Every step of the SPSC chain keeps its invariant; hence so does every run. */
module SpscChainSteps {
  import opened Words
  import opened Options
  import opened SpscChain
  import opened SpscChainRings
  import opened SpscChainInvariant
  import RI = SpscInvariant

  // ---------------------------------------------------------------- steps of a thread by itself

  /** A sender's step that moves nothing but its own place, the tail or the closed flag. */
  lemma SenderLocal<T>(c: Chain<T>, c': Chain<T>)
    requires Inv(c) && c' == c.(sender := c'.sender, tail := c'.tail, closed := c'.closed)
    requires Pointers(c') && SenderOk(c')
    requires SenderInside(c', Current(c)) || SenderAtRest(c.nodes[Current(c)].ring.sender)
    requires CurrentClosed(c') == CurrentClosed(c) && (c.closed ==> c'.closed)
    ensures Inv(c')
  {
    hide RI.Inv;
    forall j | 0 <= j < |c'.nodes| ensures NodeOk(c', j) {
      assert NodeOk(c, j);
    }
  }

  lemma StartSendKeepsInv<T>(c: Chain<T>, msg: T)
    requires Inv(c)
    ensures Inv(Next(c, StartSend(msg)))
  {
    if AtRest(c.sender) {
      assert NodeOk(c, Current(c));
      SenderLocal(c, Next(c, StartSend(msg)));
    }
  }

  lemma StartCloseKeepsInv<T>(c: Chain<T>)
    requires Inv(c)
    ensures Inv(Next(c, StartClose))
  {
    if Next(c, StartClose) != c {
      assert NodeOk(c, Current(c));
      SenderLocal(c, Next(c, StartClose));
    }
  }

  /** The sender leaves a ring. */
  lemma LeaveKeepsInv<T>(c: Chain<T>)
    requires Inv(c)
    requires (c.sender.SInRing? || c.sender.SFirst?) && c.nodes[c.sender.node].ring.sender.SDone?
    ensures Inv(AdvanceSend(c))
  {
    assert NodeOk(c, Current(c));
    hide RI.Inv;
    SenderLocal(c, AdvanceSend(c));
  }

  lemma StoreKeepsInv<T>(c: Chain<T>)
    requires Inv(c) && (c.sender.SStoreTail? || c.sender.KMark?)
    ensures Inv(AdvanceSend(c))
  {
    assert NodeOk(c, Current(c));
    hide RI.Inv;
    SenderLocal(c, AdvanceSend(c));
  }

  // ---------------------------------------------------------------- the sender inside rings

  /** The sender's ring step at the current node. */
  lemma SenderRingStep<T>(c: Chain<T>, c': Chain<T>, j: nat, r': R.Ring<T>)
    requires Inv(c) && j == Current(c)
    requires c' == c.(nodes := c.nodes[j := c.nodes[j].(ring := r')], sender := c'.sender, accepted := c'.accepted)
    requires RI.Inv(r') && SameReceiver(c.nodes[j].ring, r') && r'.closed == c.nodes[j].ring.closed
    requires SenderInside(c', j) && Pointers(c') && SenderOk(c')
    requires CurrentClosed(c') == CurrentClosed(c)
    requires (r'.sent == c.nodes[j].ring.sent && c'.accepted == c.accepted)
          || (!c.userClosed && exists m :: r'.sent == c.nodes[j].ring.sent + [m] && c'.accepted == c.accepted + [m])
    requires r'.sent != c.nodes[j].ring.sent ==> !r'.closed
    ensures Inv(c')
  {
    hide RI.Inv;
    assert NodeOk(c, j);
    forall i | 0 <= i < |c'.nodes| ensures NodeOk(c', i) {
      assert NodeOk(c, i);
    }
    if r'.sent == c.nodes[j].ring.sent {
      SentIntoSame(c.nodes, c'.nodes, |c.nodes|);
    } else {
      var m :| r'.sent == c.nodes[j].ring.sent + [m] && c'.accepted == c.accepted + [m];
      SentIntoAppend(c.nodes, c'.nodes, j, |c.nodes|, m);
    }
    SentIntoSame(c.nodes, c'.nodes, c.head);
    SenderRingReceiver(c, c', j);
  }

  /** What the receiver relies on survives a sender's ring step. */
  lemma SenderRingReceiver<T>(c: Chain<T>, c': Chain<T>, j: nat)
    requires Pointers(c) && Pointers(c') && ReceiverOk(c) && j == Current(c)
    requires NodeOk(c, j)
    requires c' == c.(nodes := c'.nodes, sender := c'.sender, accepted := c'.accepted) && |c'.nodes| == |c.nodes|
    requires c'.nodes == c.nodes[j := c.nodes[j].(ring := c'.nodes[j].ring)]
    requires SameReceiver(c.nodes[j].ring, c'.nodes[j].ring) && c'.nodes[j].ring.closed == c.nodes[j].ring.closed
    requires c'.nodes[j].ring.sent != c.nodes[j].ring.sent ==> !c.nodes[j].ring.closed
    requires c'.nodes[j].ring.sent == c.nodes[j].ring.sent ==> c'.accepted == c.accepted
    requires CurrentClosed(c') == CurrentClosed(c)
    ensures ReceiverOk(c')
  {
    hide RI.Inv;
  }

  lemma SenderInRingStep<T>(c: Chain<T>)
    requires Inv(c) && (c.sender.SInRing? || c.sender.SFirst?) && !c.nodes[c.sender.node].ring.sender.SDone?
    ensures Inv(AdvanceSend(c))
  {
    hide RI.Inv, R.Next;
    var j, call := c.sender.node, c.sender.call;
    var r := c.nodes[j].ring;
    assert NodeOk(c, j);
    SendStep(r, call.msg);
    if c.sender.SFirst? && !Claimed(r.sender, call.msg) {
      FirstSendStep(r, call.msg);
    }
    var r' := R.Next(r, R.StepSend);
    if |r'.sent| > |r.sent| {
      assert r'.sent[|r.sent|..] == [call.msg];
    }
    SenderRingStep(c, AdvanceSend(c), j, r');
  }

  lemma LoadTailStep<T>(c: Chain<T>)
    requires Inv(c) && c.sender.SLoadTail?
    ensures Inv(AdvanceSend(c))
  {
    hide RI.Inv, R.Next;
    var j := c.tail;
    assert NodeOk(c, j);
    SenderCall(c.nodes[j].ring, c.sender.call.msg);
    SenderRingStep(c, AdvanceSend(c), j, R.Next(c.nodes[j].ring, R.StartSend(c.sender.call.msg, false)));
  }

  // ---------------------------------------------------------------- closing and linking

  /** Closing node j's ring, by the sender about to link or by the user. */
  lemma CloseRingStep<T>(c: Chain<T>, c': Chain<T>, j: nat)
    requires Inv(c) && j < |c.nodes| && j >= Current(c)
    requires c' == c.(nodes := c.nodes[j := c.nodes[j].(ring := c.nodes[j].ring.(closed := true))], sender := c'.sender)
    requires Pointers(c') && SenderOk(c') && !c'.sender.SInRing? && !c'.sender.SFirst?
    requires !c.sender.SInRing? && !c.sender.SFirst?
    requires if j == Current(c) then CurrentClosed(c') else CurrentClosed(c') == CurrentClosed(c)
    ensures Inv(c')
  {
    assert NodeOk(c, j);
    CloseStep(c.nodes[j].ring);
    hide RI.Inv;
    forall i | 0 <= i < |c'.nodes| ensures NodeOk(c', i) {
      assert NodeOk(c, i);
    }
    SentIntoSame(c.nodes, c'.nodes, |c.nodes|);
    SentIntoSame(c.nodes, c'.nodes, c.head);
  }

  lemma CloseFullKeepsInv<T>(c: Chain<T>)
    requires Inv(c) && c.sender.SCloseRing?
    ensures Inv(AdvanceSend(c))
  {
    assert NodeOk(c, Current(c));
    CloseStep(c.nodes[Current(c)].ring);
    hide RI.Inv;
    CloseRingStep(c, AdvanceSend(c), Current(c));
  }

  lemma CloseHeadKeepsInv<T>(c: Chain<T>)
    requires Inv(c) && c.sender.KHead?
    ensures Inv(AdvanceSend(c))
  {
    assert NodeOk(c, c.head);
    CloseStep(c.nodes[c.head].ring);
    hide RI.Inv;
    CloseRingStep(c, AdvanceSend(c), c.head);
  }

  lemma CloseDummyKeepsInv<T>(c: Chain<T>)
    requires Inv(c) && c.sender.KNext?
    ensures Inv(AdvanceSend(c))
  {
    assert NodeOk(c, c.head) && NodeOk(c, c.head + 1);
    CloseStep(c.nodes[c.head + 1].ring);
    hide RI.Inv;
    CloseRingStep(c, AdvanceSend(c), c.head + 1);
  }

  /** A node with nothing in it goes behind the last one. */
  ghost predicate Appends<T>(c: Chain<T>, c': Chain<T>, node: Node<T>)
    requires 0 <= Current(c) < |c.nodes|
  {
    && !c.userClosed
    && c' == c.(nodes := c.nodes[Current(c) := c.nodes[Current(c)].(next := Some(|c.nodes|))] + [node], sender := c'.sender, userClosed := c'.userClosed)
    && RI.Inv(node.ring) && node.next == None && !node.freed
    && node.ring.sent == [] && node.ring.received == [] && ReceiverAtRest(node.ring.receiver)
    && ((c.sender.SLink? && c'.sender.SFirst? && !c'.userClosed && c'.sender.node == |c.nodes| && !node.ring.closed)
        || (c.sender.KLink? && c'.sender.KMark? && c'.userClosed && node.ring.closed && SenderAtRest(node.ring.sender)))
  }

  lemma AppendedNodeOk<T>(c: Chain<T>, c': Chain<T>, node: Node<T>, i: nat)
    requires Pointers(c) && SenderOk(c) && Appends(c, c', node) && i < |c'.nodes|
    requires i < |c.nodes| ==> NodeOk(c, i)
    ensures NodeOk(c', i)
  {
    hide RI.Inv;
  }

  lemma AppendKeepsFlow<T>(c: Chain<T>, c': Chain<T>, node: Node<T>)
    requires Pointers(c) && Pointers(c') && Appends(c, c', node) && Flow(c)
    ensures Flow(c')
  {
    hide RI.Inv;
    SentIntoSame(c.nodes, c'.nodes, |c.nodes|);
    SentIntoSame(c.nodes, c'.nodes, c.head);
    assert SentInto(c'.nodes, |c'.nodes|) == SentInto(c'.nodes, |c.nodes|) + [];
  }

  lemma AppendNode<T>(c: Chain<T>, c': Chain<T>, node: Node<T>)
    requires Inv(c) && Appends(c, c', node)
    requires Pointers(c') && SenderOk(c')
    ensures Inv(c')
  {
    assert NodeOk(c, c.head) && NodeOk(c, Current(c));
    assert ReceiverOk(c') by { hide RI.Inv, Flow, SenderOk; }
    AppendKeepsFlow(c, c', node);
    hide RI.Inv, NodeOk, Flow, SenderOk, ReceiverOk;
    forall i | 0 <= i < |c'.nodes| ensures NodeOk(c', i) {
      AppendedNodeOk(c, c', node, i);
    }
  }

  lemma LinkKeepsInv<T>(c: Chain<T>)
    requires Inv(c) && c.sender.SLink?
    ensures Inv(AdvanceSend(c))
  {
    var j := Current(c);
    assert NodeOk(c, j);
    RI.InitInv<T>(SUB_QUEUE_SIZE);
    SenderCall(R.Init<T>(SUB_QUEUE_SIZE), c.sender.call.msg);
    hide RI.Inv;
    var c' := Link(c, j, c.sender.call);
    AppendNode(c, c', c'.nodes[|c.nodes|]);
  }

  lemma LinkDummyKeepsInv<T>(c: Chain<T>)
    requires Inv(c) && c.sender.KLink?
    ensures Inv(AdvanceSend(c))
  {
    var j := Current(c);
    assert NodeOk(c, j);
    RI.InitInv<T>(1);
    CloseStep(R.Init<T>(1));
    hide RI.Inv;
    var c' := LinkDummy(c, j);
    AppendNode(c, c', c'.nodes[|c.nodes|]);
  }

  lemma SendKeepsInv<T>(c: Chain<T>)
    requires Inv(c)
    ensures Inv(AdvanceSend(c))
  {
    match c.sender {
      case SLoadTail(_) => LoadTailStep(c);
      case SInRing(j, _) => if c.nodes[j].ring.sender.SDone? { LeaveKeepsInv(c); } else { SenderInRingStep(c); }
      case SFirst(j, _) => if c.nodes[j].ring.sender.SDone? { LeaveKeepsInv(c); } else { SenderInRingStep(c); }
      case SStoreTail(_, _) => StoreKeepsInv(c);
      case KMark => StoreKeepsInv(c);
      case SLink(_, _) => LinkKeepsInv(c);
      case KLink => LinkDummyKeepsInv(c);
      case SCloseRing(_, _) => CloseFullKeepsInv(c);
      case KHead => CloseHeadKeepsInv(c);
      case KNext(_) => CloseDummyKeepsInv(c);
      case _ =>
    }
  }

  // ---------------------------------------------------------------- the receiver

  /** The receiver's ring step at the head. */
  lemma ReceiverRingStep<T>(c: Chain<T>, c': Chain<T>, r': R.Ring<T>)
    requires Inv(c)
    requires c' == c.(nodes := c.nodes[c.head := c.nodes[c.head].(ring := r')], receiver := c'.receiver, delivered := c'.delivered)
    requires RI.Inv(r') && SameSender(c.nodes[c.head].ring, r')
    requires c'.receiver.RInRing? && c'.receiver.node == c.head && !c.receiver.RFree?
    requires c'.delivered == SentInto(c.nodes, c.head) + r'.received
    requires ReceiverOk(c')
    ensures Inv(c')
  {
    hide RI.Inv;
    assert NodeOk(c, c.head);
    forall i | 0 <= i < |c'.nodes| ensures NodeOk(c', i) {
      assert NodeOk(c, i);
    }
    SentIntoSame(c.nodes, c'.nodes, |c.nodes|);
    SentIntoSame(c.nodes, c'.nodes, c.head);
  }

  lemma ReceiverInRingStep<T>(c: Chain<T>, a: R.Action<T>)
    requires Inv(c) && c.receiver.RInRing? && !c.nodes[c.head].ring.receiver.RDone?
    requires a.StepRecv? || a.ResumeRecv?
    ensures Inv(RingStep(c, c.head, a))
  {
    hide RI.Inv, R.Next;
    assert NodeOk(c, c.head);
    var r := c.nodes[c.head].ring;
    if a.StepRecv? {
      RecvStep(r);
    } else {
      RecvResume(r);
    }
    var r' := R.Next(r, a);
    if |r'.received| > |r.received| {
      assert r'.received[|r.received|..] == [r'.receiver.msg];
    }
    HeadNotInWindow(c);
    ReceiverRingStep(c, RingStep(c, c.head, a), r');
  }

  /** A closed head ring has no send in flight. */
  lemma HeadNotInWindow<T>(c: Chain<T>)
    requires Inv(c)
    ensures c.nodes[c.head].ring.closed ==> !RI.SendWindow(c.nodes[c.head].ring)
  {
    assert NodeOk(c, c.head);
  }

  /** The receiver enters `recv` on the head ring. */
  lemma EnterRing<T>(c: Chain<T>, hopped: bool)
    requires Inv(c) && (c.receiver.RIdle? || c.receiver.RDone?)
    requires hopped ==> c.nodes[c.head].ring.received == []
    ensures Live(c, c.head)
    ensures Inv(RingStep(c, c.head, R.StartRecv(true)).(receiver := RInRing(c.head, hopped, c.delivered)))
  {
    assert NodeOk(c, c.head);
    var r := c.nodes[c.head].ring;
    ReceiverCall(r);
    hide RI.Inv, R.Next;
    ReceiverRingStep(c, RingStep(c, c.head, R.StartRecv(true)).(receiver := RInRing(c.head, hopped, c.delivered)), R.Next(r, R.StartRecv(true)));
  }

  lemma StartRecvKeepsInv<T>(c: Chain<T>)
    requires Inv(c)
    ensures Inv(Next(c, StartRecv))
  {
    if c.receiver.RIdle? || c.receiver.RDone? {
      EnterRing(c, false);
    }
  }

  /** A receiver's step that moves nothing but its own place. */
  lemma ReceiverLocal<T>(c: Chain<T>, pc: RecvPc<T>)
    requires Inv(c) && !c.receiver.RFree? && !pc.RFree?
    requires ReceiverAtRest(c.nodes[c.head].ring.receiver)
    requires ReceiverOk(c.(receiver := pc))
    ensures Inv(c.(receiver := pc))
  {
    hide RI.Inv;
    var c' := c.(receiver := pc);
    forall i | 0 <= i < |c'.nodes| ensures NodeOk(c', i) {
      assert NodeOk(c, i);
    }
  }

  lemma LeaveRingKeepsInv<T>(c: Chain<T>)
    requires Inv(c) && c.receiver.RInRing? && c.nodes[c.head].ring.receiver.RDone?
    ensures Inv(AdvanceRecv(c))
  {
    assert NodeOk(c, c.head);
    hide RI.Inv;
    if c.nodes[c.head].ring.receiver == R.RDone(R.RecvError) {
      EndedMeans(c);
    }
    ReceiverLocal(c, AdvanceRecv(c).receiver);
  }

  /** When the head ring is closed and drained, either the user closed the queue or the sender moved on from a ring that held something. */
  lemma EndedMeans<T>(c: Chain<T>)
    requires Inv(c) && c.nodes[c.head].ring.closed && c.nodes[c.head].ring.received == c.nodes[c.head].ring.sent
    ensures c.userClosed ==> c.closed && CurrentClosed(c) && c.delivered == c.accepted
    ensures !c.userClosed ==> c.nodes[c.head].ring.sent != [] && (c.head < Current(c) || c.sender.SLink?)
  {
    assert NodeOk(c, c.head);
    if c.userClosed {
      assert NodeOk(c, c.head + 1);
      assert SentInto(c.nodes, c.head + 2) == SentInto(c.nodes, c.head + 1) + c.nodes[c.head + 1].ring.sent;
      assert SentInto(c.nodes, c.head + 1) == SentInto(c.nodes, c.head) + c.nodes[c.head].ring.sent;
    }
  }

  lemma LookRoundKeepsInv<T>(c: Chain<T>)
    requires Inv(c) && (c.receiver.RCheckClosed? || c.receiver.RLoadNext?)
    ensures Inv(AdvanceRecv(c))
  {
    assert NodeOk(c, c.head);
    hide RI.Inv;
    EndedMeans(c);
    if AdvanceRecv(c) != c {
      ReceiverLocal(c, AdvanceRecv(c).receiver);
    }
  }

  lemma HopKeepsInv<T>(c: Chain<T>)
    requires Inv(c) && c.receiver.RHop?
    ensures Inv(AdvanceRecv(c))
  {
    hide RI.Inv;
    var c' := AdvanceRecv(c);
    assert NodeOk(c, c.head) && NodeOk(c, c.head + 1);
    forall i | 0 <= i < |c'.nodes| ensures NodeOk(c', i) {
      assert NodeOk(c, i);
    }
  }

  /** The old head is freed. */
  lemma FreeNode<T>(c: Chain<T>)
    requires Inv(c) && c.receiver.RFree?
    ensures c.receiver.next == c.head == c.receiver.node + 1 < |c.nodes| && Live(c, c.receiver.node) && Live(c, c.head)
    ensures c.nodes[c.head].ring.received == [] && c.delivered == c.receiver.got
    ensures Inv(c.(nodes := c.nodes[c.receiver.node := c.nodes[c.receiver.node].(freed := true)], receiver := RIdle))
  {
    var j := c.receiver.node;
    var c' := c.(nodes := c.nodes[j := c.nodes[j].(freed := true)], receiver := RIdle);
    assert NodeOk(c, j) && NodeOk(c, c.head);
    forall i | 0 <= i < |c'.nodes| ensures NodeOk(c', i) {
      assert NodeOk(c, i);
      hide RI.Inv, Flow, SenderOk;
    }
    hide RI.Inv, NodeOk;
    SentIntoSame(c.nodes, c'.nodes, |c.nodes|);
    SentIntoSame(c.nodes, c'.nodes, c.head);
  }

  lemma FreeKeepsInv<T>(c: Chain<T>)
    requires Inv(c) && c.receiver.RFree?
    ensures Inv(AdvanceRecv(c))
  {
    hide RI.Inv, R.Next, Inv;
    FreeNode(c);
    var j := c.receiver.node;
    var c1 := c.(nodes := c.nodes[j := c.nodes[j].(freed := true)], receiver := RIdle);
    EnterRing(c1, true);
    assert AdvanceRecv(c) == RingStep(c1, c.head, R.StartRecv(true)).(receiver := RInRing(c.head, true, c1.delivered));
  }

  lemma RecvKeepsInv<T>(c: Chain<T>)
    requires Inv(c)
    ensures Inv(AdvanceRecv(c))
  {
    assert NodeOk(c, c.head);
    match c.receiver {
      case RInRing(j, _, _) =>
        if c.nodes[j].ring.receiver.RDone? { LeaveRingKeepsInv(c); } else { ReceiverInRingStep(c, R.StepRecv); }
      case RCheckClosed(_, _) => LookRoundKeepsInv(c);
      case RLoadNext(_, _) => LookRoundKeepsInv(c);
      case RHop(_, _, _) => HopKeepsInv(c);
      case RFree(_, _, _) => FreeKeepsInv(c);
      case _ =>
    }
  }

  lemma ResumeKeepsInv<T>(c: Chain<T>)
    requires Inv(c)
    ensures Inv(Next(c, ResumeRecv))
  {
    if c.receiver.RInRing? {
      assert NodeOk(c, c.head);
      if c.nodes[c.head].ring.receiver.RDone? {
        assert RingStep(c, c.head, R.ResumeRecv).nodes == c.nodes;
      } else {
        ReceiverInRingStep(c, R.ResumeRecv);
      }
    }
  }

  lemma StepKeepsInv<T>(c: Chain<T>, a: Action<T>)
    requires Inv(c)
    ensures Inv(Next(c, a))
  {
    match a
    case StartSend(msg) => StartSendKeepsInv(c, msg);
    case StartClose => StartCloseKeepsInv(c);
    case StepSend => SendKeepsInv(c);
    case StartRecv => StartRecvKeepsInv(c);
    case StepRecv => RecvKeepsInv(c);
    case ResumeRecv => ResumeKeepsInv(c);
  }

  lemma {:induction false} RunKeepsInv<T>(c: Chain<T>, run: seq<Action<T>>)
    requires Inv(c)
    ensures Inv(Exec(c, run))
  {
    if run != [] {
      RunKeepsInv(c, run[..|run| - 1]);
      StepKeepsInv(Exec(c, run[..|run| - 1]), run[|run| - 1]);
    }
  }
}
