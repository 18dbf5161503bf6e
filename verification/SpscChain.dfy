/**
 The unbounded SPSC queue as a step system: rings linked by `next` pointers. The sender closes a full
 ring and links a fresh one; the receiver drains, hops and frees. A step inside a ring is a step of
 that ring. `close` is called by the sending thread, while head and tail are the same node.
 */
module SpscChain {
  import opened Words
  import opened Options
  import R = SpscRing

  /** Capacity of every ring of a chain. */
  const SUB_QUEUE_SIZE: U32 := 1024

  datatype Node<T> = Node(ring: R.Ring<T>, next: Option<nat>, freed: bool)

  datatype SendOutcome<T> = Accepted | Refused(msg: T)

  datatype RecvOutcome<T> = Got(msg: T) | Ended

  /** One call of `send`: its message, and what had been accepted when it began (no step reads that). */
  datatype Call<T> = Call(msg: T, before: seq<T>)

  datatype SendPc<T> =
    | SIdle
    | SLoadTail(call: Call<T>)
    | SInRing(node: nat, call: Call<T>)     // inside `try_send` on the tail ring
    | SCloseRing(node: nat, call: Call<T>)  // the ring was full: before closing it
    | SLink(node: nat, call: Call<T>)       // before linking a fresh node
    | STakeTail(node: nat, call: Call<T>)   // the link CAS failed
    | SFirst(node: nat, call: Call<T>)      // inside `try_send` on the fresh ring
    | SStoreTail(node: nat, call: Call<T>)
    | SDone(call: Call<T>, sendOutcome: SendOutcome<T>)
    | KLink                                 // `close`: before linking the closed dummy node
    | KMark                                 // before storing the closed flag
    | KHead                                 // before closing the head ring
    | KNext(node: nat)                      // before closing the dummy's ring
    | KDone
    | SUndefined

  /** `got` is what had been delivered when the call of `recv` began; no step reads it. */
  datatype RecvPc<T> =
    | RIdle
    | RInRing(node: nat, hopped: bool, got: seq<T>)  // inside `recv` on the head ring
    | RCheckClosed(node: nat, got: seq<T>)
    | RLoadNext(node: nat, got: seq<T>)
    | RHop(node: nat, next: nat, got: seq<T>)        // before setting head
    | RFree(node: nat, next: nat, got: seq<T>)       // before freeing the old head
    | RDone(got: seq<T>, recvOutcome: RecvOutcome<T>)
    | RUndefined

  /** `nodes` are all nodes ever linked, in order. Histories: `accepted`, `delivered`, and whether the dummy was linked. */
  datatype Chain<T> = Chain(
    nodes: seq<Node<T>>,
    head: nat,
    tail: nat,
    closed: bool,
    sender: SendPc<T>,
    receiver: RecvPc<T>,
    accepted: seq<T>,
    delivered: seq<T>,
    userClosed: bool)

  datatype Action<T> =
    | StartSend(msg: T)
    | StartClose
    | StepSend
    | StartRecv
    | StepRecv
    | ResumeRecv

  function Fresh<T>(): Node<T> {
    Node(R.Init(SUB_QUEUE_SIZE), None, false)
  }

  function Init<T>(): Chain<T> {
    Chain([Fresh()], 0, 0, false, SIdle, RIdle, [], [], false)
  }

  /** A pointer may be followed while its node is not freed. */
  predicate Live<T>(c: Chain<T>, j: nat) {
    j < |c.nodes| && !c.nodes[j].freed
  }

  /** Node j's ring takes a step; what it claims or hands out goes to the histories. */
  function RingStep<T>(c: Chain<T>, j: nat, a: R.Action<T>): Chain<T>
    requires j < |c.nodes|
  {
    var r, r' := c.nodes[j].ring, R.Next(c.nodes[j].ring, a);
    c.(nodes := c.nodes[j := c.nodes[j].(ring := r')],
       accepted := if |r'.sent| > |r.sent| then c.accepted + r'.sent[|r.sent|..] else c.accepted,
       delivered := if |r'.received| > |r.received| then c.delivered + r'.received[|r.received|..] else c.delivered)
  }

  /** A fresh node behind node j, with the pending message on its way into it. */
  function Link<T>(c: Chain<T>, j: nat, call: Call<T>): Chain<T>
    requires j < |c.nodes|
  {
    var node := Fresh().(ring := R.Next(R.Init(SUB_QUEUE_SIZE), R.StartSend(call.msg, false)));
    c.(nodes := c.nodes[j := c.nodes[j].(next := Some(|c.nodes|))] + [node], sender := SFirst(|c.nodes|, call))
  }

  function LinkDummy<T>(c: Chain<T>, j: nat): Chain<T>
    requires j < |c.nodes|
  {
    var dummy := Node(R.Next(R.Init<T>(1), R.Close), None, false);
    c.(nodes := c.nodes[j := c.nodes[j].(next := Some(|c.nodes|))] + [dummy], userClosed := true, sender := KMark)
  }

  function AdvanceSend<T>(c: Chain<T>): Chain<T> {
    match c.sender
    case SLoadTail(call) =>
      if !Live(c, c.tail) then c.(sender := SUndefined)
      else RingStep(c, c.tail, R.StartSend(call.msg, false)).(sender := SInRing(c.tail, call))
    case SInRing(j, call) =>
      if !Live(c, j) then c.(sender := SUndefined)
      else if c.nodes[j].ring.sender.SDone? then
        match c.nodes[j].ring.sender.sendResult
        case Sent => c.(sender := SDone(call, Accepted))
        case Disconnected(msg) => c.(sender := SDone(call, Refused(msg)))
        case Full(_) => c.(sender := SCloseRing(j, call))
      else RingStep(c, j, R.StepSend)
    case SCloseRing(j, call) =>
      if !Live(c, j) then c.(sender := SUndefined)
      else RingStep(c, j, R.Close).(sender := SLink(j, call))
    case SLink(j, call) =>
      if !Live(c, j) then c.(sender := SUndefined)
      else if c.nodes[j].next.Some? then c.(sender := STakeTail(c.nodes[j].next.value, call))
      else Link(c, j, call)
    case STakeTail(v, call) => c.(tail := v, sender := SDone(call, Refused(call.msg)))
    case SFirst(j, call) =>
      if !Live(c, j) then c.(sender := SUndefined)
      else if c.nodes[j].ring.sender.SDone? then c.(sender := SStoreTail(j, call))
      else RingStep(c, j, R.StepSend)
    case SStoreTail(j, call) => c.(tail := j, sender := SDone(call, Accepted))
    case KLink =>
      if !Live(c, c.tail) then c.(sender := SUndefined)
      else if c.nodes[c.tail].next.Some? then c
      else LinkDummy(c, c.tail)
    case KMark => c.(closed := true, sender := KHead)
    case KHead =>
      if !Live(c, c.head) then c.(sender := SUndefined)
      else RingStep(c, c.head, R.Close).(sender := KNext(c.head))
    case KNext(j) =>
      if !Live(c, j) || c.nodes[j].next.None? || !Live(c, c.nodes[j].next.value) then c.(sender := SUndefined)
      else RingStep(c, c.nodes[j].next.value, R.Close).(sender := KDone)
    case _ => c
  }

  function AdvanceRecv<T>(c: Chain<T>): Chain<T> {
    match c.receiver
    case RInRing(j, hopped, got) =>
      if !Live(c, j) then c.(receiver := RUndefined)
      else if c.nodes[j].ring.receiver.RDone? then
        match c.nodes[j].ring.receiver.recvResult
        case Received(msg) => c.(receiver := RDone(got, Got(msg)))
        case RecvError => c.(receiver := if hopped then RDone(got, Ended) else RCheckClosed(j, got))
        case Empty => c.(receiver := RUndefined)
      else RingStep(c, j, R.StepRecv)
    case RCheckClosed(j, got) => c.(receiver := if c.closed then RDone(got, Ended) else RLoadNext(j, got))
    case RLoadNext(j, got) =>
      if !Live(c, j) then c.(receiver := RUndefined)
      else if c.nodes[j].next.None? then c
      else c.(receiver := RHop(j, c.nodes[j].next.value, got))
    case RHop(j, v, got) => c.(head := v, receiver := RFree(j, v, got))
    case RFree(j, v, got) =>
      if !Live(c, j) || !Live(c, v) || j == v then c.(receiver := RUndefined)
      else RingStep(c.(nodes := c.nodes[j := c.nodes[j].(freed := true)]), v, R.StartRecv(true)).(receiver := RInRing(v, true, got))
    case _ => c
  }

  predicate AtRest<T>(pc: SendPc<T>) {
    pc.SIdle? || pc.SDone? || pc.KDone?
  }

  function Next<T>(c: Chain<T>, a: Action<T>): Chain<T> {
    match a
    case StartSend(msg) => if AtRest(c.sender) then c.(sender := SLoadTail(Call(msg, c.accepted))) else c
    case StartClose => if AtRest(c.sender) && c.head == c.tail && !c.userClosed then c.(sender := KLink) else c
    case StepSend => AdvanceSend(c)
    case StartRecv =>
      if !c.receiver.RIdle? && !c.receiver.RDone? then c
      else if !Live(c, c.head) then c.(receiver := RUndefined)
      else RingStep(c, c.head, R.StartRecv(true)).(receiver := RInRing(c.head, false, c.delivered))
    case StepRecv => AdvanceRecv(c)
    case ResumeRecv =>
      if c.receiver.RInRing? && Live(c, c.receiver.node) then RingStep(c, c.receiver.node, R.ResumeRecv) else c
  }

  function Exec<T>(c: Chain<T>, run: seq<Action<T>>): Chain<T> {
    if run == [] then c else Next(Exec(c, run[..|run| - 1]), run[|run| - 1])
  }
}
