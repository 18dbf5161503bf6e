/** The chain of rings is one FIFO queue, never touches a freed node, and closes cleanly. */
module SpscChainTheorems {
  import opened Words
  import opened Options
  import opened SpscChain
  import opened SpscChainRings
  import opened SpscChainInvariant
  import opened SpscChainSteps
  import RI = SpscInvariant

  // ---------------------------------------------------------------- one queue

  /** What lies unread in the first k rings, in order. */
  ghost function Unread<T>(nodes: seq<Node<T>>, k: nat): seq<T>
    requires k <= |nodes|
    requires forall j :: 0 <= j < k ==> |nodes[j].ring.received| <= |nodes[j].ring.sent|
  {
    if k == 0 then [] else Unread(nodes, k - 1) + nodes[k - 1].ring.sent[|nodes[k - 1].ring.received|..]
  }

  /** Rings before the head are drained, those behind it untouched. */
  ghost predicate HeadSplits<T>(nodes: seq<Node<T>>, h: nat) {
    && h < |nodes|
    && (forall j :: 0 <= j < |nodes| ==> nodes[j].ring.received <= nodes[j].ring.sent)
    && (forall j :: 0 <= j < h ==> nodes[j].ring.received == nodes[j].ring.sent)
    && (forall j :: h < j < |nodes| ==> nodes[j].ring.received == [])
  }

  lemma {:induction false} UnreadSplit<T>(nodes: seq<Node<T>>, h: nat, k: nat)
    requires HeadSplits(nodes, h) && k <= |nodes|
    ensures if k <= h then Unread(nodes, k) == []
            else SentInto(nodes, k) == SentInto(nodes, h) + nodes[h].ring.received + Unread(nodes, k)
  {
    if k > 0 {
      UnreadSplit(nodes, h, k - 1);
      var r := nodes[k - 1].ring;
      if k - 1 == h {
        assert r.sent == r.received + r.sent[|r.received|..];
        Regroup(SentInto(nodes, h), r.received, [], r.sent[|r.received|..]);
      } else if k - 1 > h {
        assert r.sent[|r.received|..] == r.sent;
        Regroup(SentInto(nodes, h), nodes[h].ring.received, Unread(nodes, k - 1), r.sent);
      }
    }
  }

  lemma Regroup<T>(a: seq<T>, b: seq<T>, c: seq<T>, d: seq<T>)
    ensures a + b + c + d == a + b + (c + d) == a + (b + c + d)
    ensures [] + d == d && b + [] == b
  {
  }

  lemma InvHeadSplits<T>(c: Chain<T>)
    requires Inv(c)
    ensures HeadSplits(c.nodes, c.head)
  {
    forall j | 0 <= j < |c.nodes|
      ensures c.nodes[j].ring.received <= c.nodes[j].ring.sent
      ensures j < c.head ==> c.nodes[j].ring.received == c.nodes[j].ring.sent
      ensures j > c.head ==> c.nodes[j].ring.received == []
    {
      assert NodeOk(c, j);
    }
  }

  /** The queue the user sees: every accepted message not yet delivered. */
  lemma {:induction false} OneQueue<T>(run: seq<Action<T>>)
    ensures var c := Exec(Init(), run);
      && (forall j :: 0 <= j < |c.nodes| ==> |c.nodes[j].ring.received| <= |c.nodes[j].ring.sent|)
      && c.accepted == c.delivered + Unread(c.nodes, |c.nodes|)
  {
    InitInv<T>();
    RunKeepsInv(Init<T>(), run);
    var c := Exec(Init<T>(), run);
    InvHeadSplits(c);
    UnreadSplit(c.nodes, c.head, |c.nodes|);
  }

  /**
   The answers. `send` accepts its own message behind all earlier ones, or hands it back, which happens only after
   `close`. `recv` hands out the next message, or ends, which happens only after `close` and with everything delivered.
   */
  lemma {:induction false} Answers<T>(run: seq<Action<T>>)
    ensures var c := Exec(Init(), run);
      && (c.sender.SDone? ==>
           if c.sender.sendOutcome.Accepted? then c.accepted == c.sender.call.before + [c.sender.call.msg]
           else c.userClosed && c.accepted == c.sender.call.before && c.sender.sendOutcome.msg == c.sender.call.msg)
      && (c.receiver.RDone? ==>
           if c.receiver.recvOutcome.Got? then c.delivered == c.receiver.got + [c.receiver.recvOutcome.msg]
           else c.closed && c.delivered == c.receiver.got == c.accepted)
  {
    InitInv<T>();
    RunKeepsInv(Init<T>(), run);
  }

  // ---------------------------------------------------------------- hops and links

  /**
   The receiver leaves a ring only when it is closed and drained; the try_send into a fresh ring,
   whose result is discarded, always succeeds; and the link CAS never fails.
   */
  lemma {:induction false} HopsAndLinks<T>(run: seq<Action<T>>)
    ensures var c := Exec(Init(), run);
      && (c.receiver.RHop? ==>
           && c.receiver.node == c.head < |c.nodes| && c.receiver.next == c.head + 1 < |c.nodes|
           && c.nodes[c.head].ring.closed && c.nodes[c.head].ring.received == c.nodes[c.head].ring.sent)
      && (c.sender.SFirst? ==>
           && c.sender.node < |c.nodes|
           && (c.nodes[c.sender.node].ring.sender.SDone? ==> c.nodes[c.sender.node].ring.sender == R.SDone(R.Sent)))
      && !c.sender.STakeTail?
  {
    InitInv<T>();
    RunKeepsInv(Init<T>(), run);
  }

  /** No step follows a pointer to a freed node, and none frees twice: such a step would lead to an undefined state. */
  lemma {:induction false} NoUseAfterFree<T>(run: seq<Action<T>>)
    ensures var c := Exec(Init(), run);
      && !c.sender.SUndefined? && !c.receiver.RUndefined?
      && Live(c, c.head) && (c.tail < c.head ==> c.sender.SStoreTail? || c.sender.SFirst?)
      && forall j :: 0 <= j < |c.nodes| ==> (c.nodes[j].freed ==> j < c.head)
  {
    InitInv<T>();
    RunKeepsInv(Init<T>(), run);
    var c := Exec(Init<T>(), run);
    assert NodeOk(c, c.head);
    forall j | 0 <= j < |c.nodes| ensures c.nodes[j].freed ==> j < c.head {
      assert NodeOk(c, j);
    }
  }

  /** What no step undoes. A link, once set, stays; so does a free; and the dummy's link freezes what was accepted. */
  ghost predicate Grows<T>(c: Chain<T>, c': Chain<T>) {
    && |c.nodes| <= |c'.nodes|
    && (forall j :: 0 <= j < |c.nodes| ==> (c.nodes[j].next.Some? ==> c'.nodes[j].next == c.nodes[j].next))
    && (forall j :: 0 <= j < |c.nodes| ==> (c.nodes[j].freed ==> c'.nodes[j].freed))
    && c.accepted <= c'.accepted && c.delivered <= c'.delivered
    && c.head <= c'.head
    && (c.closed ==> c'.closed)
    && (c.userClosed ==> c'.userClosed && c'.accepted == c.accepted)
  }

  lemma RingStepGrows<T>(c: Chain<T>, j: nat, a: R.Action<T>)
    requires j < |c.nodes|
    requires a.StepSend? && c.userClosed ==> |R.Next(c.nodes[j].ring, a).sent| <= |c.nodes[j].ring.sent|
    requires !a.StepSend? ==> R.Next(c.nodes[j].ring, a).sent == c.nodes[j].ring.sent
    ensures Grows(c, RingStep(c, j, a))
  {
  }

  lemma OnlySendersSend<T>(r: R.Ring<T>, a: R.Action<T>)
    ensures !a.StepSend? ==> R.Next(r, a).sent == r.sent
  {
  }

  lemma InRingGrows<T>(c: Chain<T>)
    requires Inv(c) && (c.sender.SInRing? || c.sender.SFirst?)
    ensures Grows(c, AdvanceSend(c))
  {
    var j, call := c.sender.node, c.sender.call;
    assert NodeOk(c, Current(c));
    if !c.nodes[j].ring.sender.SDone? {
      SendStep(c.nodes[j].ring, call.msg);
      hide R.Next, RI.Inv;
      RingStepGrows(c, j, R.StepSend);
    }
  }

  lemma LoadTailGrows<T>(c: Chain<T>)
    requires Inv(c) && c.sender.SLoadTail?
    ensures Grows(c, AdvanceSend(c))
  {
    assert NodeOk(c, c.tail);
    OnlySendersSend(c.nodes[c.tail].ring, R.StartSend(c.sender.call.msg, false));
    hide R.Next, RI.Inv;
    RingStepGrows(c, c.tail, R.StartSend(c.sender.call.msg, false));
  }

  lemma CloseStepsGrow<T>(c: Chain<T>)
    requires Inv(c) && (c.sender.SCloseRing? || c.sender.KHead? || c.sender.KNext?)
    ensures Grows(c, AdvanceSend(c))
  {
    var j := if c.sender.SCloseRing? then c.sender.node else c.head;
    var k := if c.sender.KNext? && j < |c.nodes| && c.nodes[j].next.Some? then c.nodes[j].next.value else j;
    assert NodeOk(c, Current(c)) && NodeOk(c, c.head);
    hide RI.Inv, NodeOk, Flow, ReceiverOk;
    if k < |c.nodes| {
      OnlySendersSend(c.nodes[k].ring, R.Close);
      hide R.Next;
      RingStepGrows(c, k, R.Close);
    }
  }

  lemma LinksGrow<T>(c: Chain<T>)
    requires Inv(c) && (c.sender.SLink? || c.sender.KLink?)
    ensures Grows(c, AdvanceSend(c))
  {
    assert NodeOk(c, Current(c));
    hide NodeOk, RI.Inv, ReceiverOk, Flow, R.Next;
  }

  lemma StoresGrow<T>(c: Chain<T>)
    requires Inv(c)
    requires !c.sender.SLoadTail? && !c.sender.SInRing? && !c.sender.SFirst? && !c.sender.SCloseRing?
      && !c.sender.KHead? && !c.sender.KNext? && !c.sender.SLink? && !c.sender.KLink?
    ensures Grows(c, AdvanceSend(c))
  {
    hide NodeOk, RI.Inv, ReceiverOk, Flow, R.Next, RingStep, Link, LinkDummy;
  }

  lemma SendGrows<T>(c: Chain<T>)
    requires Inv(c)
    ensures Grows(c, AdvanceSend(c))
  {
    hide Inv, Grows, AdvanceSend;
    if c.sender.SInRing? || c.sender.SFirst? {
      InRingGrows(c);
    } else if c.sender.SLoadTail? {
      LoadTailGrows(c);
    } else if c.sender.SCloseRing? || c.sender.KHead? || c.sender.KNext? {
      CloseStepsGrow(c);
    } else if c.sender.SLink? || c.sender.KLink? {
      LinksGrow(c);
    } else {
      StoresGrow(c);
    }
  }

  lemma InRecvGrows<T>(c: Chain<T>)
    requires Inv(c) && c.receiver.RInRing?
    ensures Grows(c, AdvanceRecv(c))
  {
    assert NodeOk(c, c.head);
    OnlySendersSend(c.nodes[c.head].ring, R.StepRecv);
    hide R.Next, RI.Inv;
    RingStepGrows(c, c.head, R.StepRecv);
  }

  lemma RecvGrows<T>(c: Chain<T>)
    requires Inv(c)
    ensures Grows(c, AdvanceRecv(c))
  {
    hide R.Next, RI.Inv;
    if c.receiver.RInRing? {
      InRecvGrows(c);
    } else if c.receiver.RFree? {
      OnlySendersSend(c.nodes[c.receiver.next].ring, R.StartRecv(true));
    }
  }

  lemma StepGrows<T>(c: Chain<T>, a: Action<T>)
    requires Inv(c)
    ensures Grows(c, Next(c, a))
  {
    match a
    case StepSend => SendGrows(c);
    case StepRecv => RecvGrows(c);
    case StartRecv =>
      OnlySendersSend(c.nodes[c.head].ring, R.StartRecv(true));
    case ResumeRecv =>
      if c.receiver.RInRing? {
        OnlySendersSend(c.nodes[c.head].ring, R.ResumeRecv);
      }
    case _ =>
  }

  lemma GrowsTrans<T>(c: Chain<T>, c1: Chain<T>, c2: Chain<T>)
    requires Grows(c, c1) && Grows(c1, c2)
    ensures Grows(c, c2)
  {
    forall j | 0 <= j < |c.nodes|
      ensures c.nodes[j].next.Some? ==> c2.nodes[j].next == c.nodes[j].next
      ensures c.nodes[j].freed ==> c2.nodes[j].freed
    {
      assert c.nodes[j].next.Some? ==> c1.nodes[j].next == c.nodes[j].next;
      assert c.nodes[j].freed ==> c1.nodes[j].freed;
    }
  }

  /** Over any run: links are written once, nothing freed comes back, accepted and delivered messages stay, and after the dummy's link nothing more is accepted. */
  lemma {:induction false} RunGrows<T>(c: Chain<T>, run: seq<Action<T>>)
    requires Inv(c)
    ensures Inv(Exec(c, run)) && Grows(c, Exec(c, run))
  {
    RunKeepsInv(c, run);
    if run != [] {
      var mid := Exec(c, run[..|run| - 1]);
      RunGrows(c, run[..|run| - 1]);
      StepGrows(mid, run[|run| - 1]);
      GrowsTrans(c, mid, Next(mid, run[|run| - 1]));
    }
  }

  /** A send begun after `close` hands its message back, in three steps. */
  lemma SendAfterClose<T>(c: Chain<T>)
    requires Inv(c) && c.userClosed && c.sender.SLoadTail?
    ensures AdvanceSend(AdvanceSend(AdvanceSend(c))).sender == SDone(c.sender.call, Refused(c.sender.call.msg))
  {
    assert NodeOk(c, c.tail);
    var c1 := AdvanceSend(c);
    SendKeepsInv(c);
    assert NodeOk(c1, c.tail);
    SenderCall(c.nodes[c.tail].ring, c.sender.call.msg);
    SendStep(c1.nodes[c.tail].ring, c.sender.call.msg);
    hide R.Next, RI.Inv;
    SendKeepsInv(c1);
    assert NodeOk(AdvanceSend(c1), c.tail);
  }

  /** The answer of a send that is over. */
  lemma SendSaid<T>(c: Chain<T>)
    requires Inv(c) && c.sender.SDone?
    ensures c.sender.sendOutcome == if c.userClosed then Refused(c.sender.call.msg) else Accepted
    ensures c.accepted == if c.userClosed then c.sender.call.before else c.sender.call.before + [c.sender.call.msg]
  {
    hide RI.Inv, NodeOk;
  }

  /** And of a receive. */
  lemma RecvSaid<T>(c: Chain<T>)
    requires Inv(c) && c.receiver.RDone?
    ensures if c.receiver.recvOutcome.Got? then c.delivered == c.receiver.got + [c.receiver.recvOutcome.msg] && c.delivered <= c.accepted
      else c.closed && c.delivered == c.receiver.got == c.accepted
  {
    DeliveredIsPrefix(c);
    hide RI.Inv;
  }

  lemma DeliveredIsPrefix<T>(c: Chain<T>)
    requires Inv(c)
    ensures c.delivered <= c.accepted
  {
    assert NodeOk(c, c.head);
    ReceivedIsPrefix(c.nodes[c.head].ring);
    hide RI.Inv;
    SentIntoPrefix(c.nodes, c.head, |c.nodes|);
  }
}
