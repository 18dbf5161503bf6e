/** What every step of the SPSC chain keeps. */
module SpscChainInvariant {
  import opened Words
  import opened Options
  import opened SpscChain
  import opened SpscChainRings
  import RI = SpscInvariant

  /** The node the sender's next message belongs to: the last one, or the one before the dummy. */
  ghost function Current<T>(c: Chain<T>): int {
    |c.nodes| - if c.userClosed then 2 else 1
  }

  /** Everything sent into the first k rings, in order. */
  ghost function SentInto<T>(nodes: seq<Node<T>>, k: nat): seq<T>
    requires k <= |nodes|
  {
    if k == 0 then [] else SentInto(nodes, k - 1) + nodes[k - 1].ring.sent
  }

  ghost predicate SenderInside<T>(c: Chain<T>, j: nat) {
    (c.sender.SInRing? || c.sender.SFirst?) && c.sender.node == j
  }

  ghost predicate ReceiverInside<T>(c: Chain<T>, j: nat) {
    c.receiver.RInRing? && c.receiver.node == j
  }

  /** The current ring has been closed: by the sender about to link, or by the user. */
  ghost predicate CurrentClosed<T>(c: Chain<T>) {
    c.sender.SLink? || (c.userClosed && !c.sender.KMark? && !c.sender.KHead?)
  }

  ghost predicate NodeOk<T>(c: Chain<T>, j: nat)
    requires j < |c.nodes|
  {
    var n := c.nodes[j];
    && RI.Inv(n.ring)
    && n.next == (if j + 1 < |c.nodes| then Some(j + 1) else None)
    && (n.freed <==> j < c.head && !(c.receiver.RFree? && j + 1 == c.head))
    && (SenderInside(c, j) || SenderAtRest(n.ring.sender))
    && (ReceiverInside(c, j) || ReceiverAtRest(n.ring.receiver))
    && (j < c.head ==> n.ring.received == n.ring.sent)
    && (j > c.head ==> n.ring.received == [])
    && (j < Current(c) ==> n.ring.closed && n.ring.sent != [])
    && (j == Current(c) ==> (n.ring.closed <==> CurrentClosed(c)))
    && (j > Current(c) ==> n.ring.closed && n.ring.sent == [])
  }

  ghost predicate Pointers<T>(c: Chain<T>) {
    && 0 <= Current(c)
    && c.head <= Current(c)
    && c.tail == Current(c) - (if c.sender.SFirst? || c.sender.SStoreTail? then 1 else 0)
    && (c.userClosed ==> c.head == Current(c))
    && (c.closed <==> c.userClosed && !c.sender.KMark?)
  }

  ghost predicate SenderOk<T>(c: Chain<T>)
    requires Pointers(c)
  {
    match c.sender
    case SLoadTail(call) => c.accepted == call.before
    case SInRing(j, call) =>
      && j == Current(c)
      && InRingOk(c, c.nodes[j].ring, call)
      && (c.nodes[j].ring.sender == R.SDone(R.Full(call.msg)) ==> c.nodes[j].ring.sent != [])
      && (c.nodes[j].ring.sender == R.SDone(R.Disconnected(call.msg)) ==> c.userClosed)
      && (c.userClosed ==> c.nodes[j].ring.sender == R.SCheck(call.msg, false) || c.nodes[j].ring.sender == R.SDone(R.Disconnected(call.msg)))
    case SCloseRing(j, call) => j == Current(c) && !c.userClosed && c.nodes[j].ring.sent != [] && c.accepted == call.before
    case SLink(j, call) => j == Current(c) && !c.userClosed && c.nodes[j].ring.sent != [] && c.accepted == call.before
    case STakeTail(_, _) => false
    case SFirst(j, call) =>
      && j == Current(c) && !c.userClosed && InRingOk(c, c.nodes[j].ring, call)
      && (((c.nodes[j].ring.sender == R.SCheck(call.msg, false) || c.nodes[j].ring.sender == R.SLap(call.msg, false)) && c.nodes[j].ring.sent == [])
          || Claimed(c.nodes[j].ring.sender, call.msg))
    case SStoreTail(j, call) => j == Current(c) && !c.userClosed && c.accepted == call.before + [call.msg]
    case SDone(call, Accepted) => c.accepted == call.before + [call.msg] && !c.userClosed
    case SDone(call, Refused(msg)) => msg == call.msg && c.accepted == call.before && c.userClosed
    case KLink => !c.userClosed && c.head == Current(c)
    case KMark => c.userClosed
    case KHead => c.userClosed
    case KNext(j) => c.userClosed && j == c.head
    case KDone => c.userClosed
    case SUndefined => false
    case SIdle => true
  }

  /** A call inside a ring: what it has added so far. */
  ghost predicate InRingOk<T>(c: Chain<T>, r: R.Ring<T>, call: Call<T>) {
    || ((Trying(r.sender, call.msg) || GaveUp(r.sender, call.msg)) && c.accepted == call.before)
    || (Claimed(r.sender, call.msg) && c.accepted == call.before + [call.msg])
  }

  /** The head ring is closed and everything sent into it has been received. */
  ghost predicate Drained<T>(c: Chain<T>)
    requires Pointers(c)
  {
    var r := c.nodes[c.head].ring;
    r.closed && r.received == r.sent && ReceiverAtRest(r.receiver)
  }

  ghost predicate ReceiverOk<T>(c: Chain<T>)
    requires Pointers(c)
  {
    match c.receiver
    case RIdle => true
    case RInRing(j, hopped, got) =>
      && j == c.head
      && (var r := c.nodes[j].ring;
        || (Waiting(r.receiver) && c.delivered == got && (hopped ==> r.received == [])
            && (r.receiver == R.RDone(R.RecvError) ==> r.closed && r.received == r.sent))
        || (r.receiver.RRelease? && HasMsg(r.receiver, r.receiver.msg) && c.delivered == got + [r.receiver.msg])
        || (r.receiver.RDone? && r.receiver.recvResult.Received? && c.delivered == got + [r.receiver.recvResult.msg]))
    case RCheckClosed(j, got) => j == c.head && Drained(c) && c.delivered == got
    case RLoadNext(j, got) => j == c.head && !c.userClosed && Drained(c) && c.delivered == got
    case RHop(j, v, got) => j == c.head && v == j + 1 <= Current(c) && !c.userClosed && Drained(c) && c.delivered == got
    case RFree(j, v, got) => v == c.head == j + 1 && c.nodes[v].ring.received == [] && c.delivered == got
    case RDone(got, Got(msg)) => c.delivered == got + [msg]
    case RDone(got, Ended) => c.closed && c.delivered == got && c.delivered == c.accepted && CurrentClosed(c)
    case RUndefined => false
  }

  ghost predicate Flow<T>(c: Chain<T>)
    requires Pointers(c)
  {
    && c.accepted == SentInto(c.nodes, |c.nodes|)
    && c.delivered == SentInto(c.nodes, c.head) + c.nodes[c.head].ring.received
  }

  ghost predicate Inv<T>(c: Chain<T>) {
    && Pointers(c) && SenderOk(c) && ReceiverOk(c) && Flow(c)
    && forall j :: 0 <= j < |c.nodes| ==> NodeOk(c, j)
  }

  lemma InitInv<T>()
    ensures Inv(Init<T>())
  {
    RI.InitInv<T>(SUB_QUEUE_SIZE);
    assert SentInto(Init<T>().nodes, 1) == SentInto(Init<T>().nodes, 0) + [];
  }

  // ---------------------------------------------------------------- what has been sent into which ring

  lemma {:induction false} SentIntoSame<T>(nodes: seq<Node<T>>, nodes': seq<Node<T>>, k: nat)
    requires k <= |nodes| && k <= |nodes'|
    requires forall j :: 0 <= j < k ==> nodes'[j].ring.sent == nodes[j].ring.sent
    ensures SentInto(nodes', k) == SentInto(nodes, k)
  {
    if k > 0 {
      SentIntoSame(nodes, nodes', k - 1);
    }
  }

  /** Sending into the last ring that holds anything appends to the whole. */
  lemma {:induction false} SentIntoAppend<T>(nodes: seq<Node<T>>, nodes': seq<Node<T>>, j: nat, k: nat, msg: T)
    requires j < k <= |nodes| == |nodes'|
    requires forall i :: 0 <= i < k && i != j ==> nodes'[i].ring.sent == nodes[i].ring.sent
    requires forall i :: j < i < k ==> nodes[i].ring.sent == []
    requires nodes'[j].ring.sent == nodes[j].ring.sent + [msg]
    ensures SentInto(nodes', k) == SentInto(nodes, k) + [msg]
  {
    if k - 1 == j {
      SentIntoSame(nodes, nodes', j);
    } else {
      SentIntoAppend(nodes, nodes', j, k - 1, msg);
    }
  }

  lemma {:induction false} SentIntoPrefix<T>(nodes: seq<Node<T>>, j: nat, k: nat)
    requires j <= k <= |nodes|
    ensures SentInto(nodes, j) <= SentInto(nodes, k)
    ensures j < k ==> SentInto(nodes, j) + nodes[j].ring.sent <= SentInto(nodes, k)
  {
    if j < k {
      SentIntoPrefix(nodes, j, k - 1);
    }
  }
}
