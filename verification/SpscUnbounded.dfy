/**
 The unbounded SPSC queue's own loops, over mutable pointers and nodes. A pointer is an index into `nodes`. Inside a
 ring the calls go step by step as the ring does. Before each access of a call the other thread takes any number of
 steps; what it will still do is the arbitrary finite `schedule`.
 */
module SpscUnbounded {
  import opened Words
  import opened Options
  import opened SpscChain
  import opened SpscChainRings
  import opened SpscChainInvariant
  import opened SpscChainSteps
  import opened SpscChainTheorems
  import R = SpscRing
  import opened Moments
  import RI = SpscInvariant
  import RP = SpscProgress
  import Th = SpscTheorems
  import G = SpscChainProgress

  datatype Side = Sender | Receiver

  predicate IsOf<T>(side: Side, a: Action<T>) {
    match side
    case Sender => a.StartSend? || a.StartClose? || a.StepSend?
    case Receiver => a.StartRecv? || a.StepRecv? || a.ResumeRecv?
  }

  lemma SendersDoNotReceive<T>(r: R.Ring<T>, a: R.Action<T>)
    ensures a.StartSend? || a.StepSend? || a.Close? ==> R.Next(r, a).received == r.received && R.Next(r, a).receiver == r.receiver
  {
  }

  lemma ReceiverKeepsSender<T>(c: Chain<T>, a: Action<T>)
    requires IsOf(Receiver, a)
    ensures Next(c, a).sender == c.sender && Next(c, a).accepted == c.accepted
  {
    var j := if c.receiver.RInRing? then c.receiver.node else if c.receiver.RFree? then c.receiver.next else c.head;
    if j < |c.nodes| {
      OnlySendersSend(c.nodes[j].ring, R.StartRecv(true));
      OnlySendersSend(c.nodes[j].ring, R.StepRecv);
      OnlySendersSend(c.nodes[j].ring, R.ResumeRecv);
    }
    if c.head < |c.nodes| {
      OnlySendersSend(c.nodes[c.head].ring, R.StartRecv(true));
    }
    hide R.Next;
  }

  lemma RingKeepsReceived<T>(c: Chain<T>, j: nat, a: R.Action<T>)
    requires j < |c.nodes| && (a.StartSend? || a.StepSend? || a.Close?)
    ensures RingStep(c, j, a).delivered == c.delivered && RingStep(c, j, a).receiver == c.receiver
    ensures KeepsRings(c.nodes, RingStep(c, j, a).nodes)
  {
    SendersDoNotReceive(c.nodes[j].ring, a);
    hide R.Next;
  }

  /** The receiving sides of the rings are as they were. */
  ghost predicate KeepsRings<T>(nodes: seq<Node<T>>, nodes': seq<Node<T>>) {
    |nodes| <= |nodes'|
    && forall i :: 0 <= i < |nodes| ==> nodes'[i].ring.receiver == nodes[i].ring.receiver && nodes'[i].ring.received == nodes[i].ring.received
  }

  lemma KeepsSelf<T>(nodes: seq<Node<T>>)
    ensures KeepsRings(nodes, nodes)
  {
  }

  lemma KeepsTrans<T>(a: seq<Node<T>>, b: seq<Node<T>>, c: seq<Node<T>>)
    requires KeepsRings(a, b) && KeepsRings(b, c)
    ensures KeepsRings(a, c)
  {
  }

  lemma SenderKeepsReceiver<T>(c: Chain<T>, a: Action<T>)
    requires IsOf(Sender, a)
    ensures Next(c, a).receiver == c.receiver && Next(c, a).delivered == c.delivered
    ensures KeepsRings(c.nodes, Next(c, a).nodes)
  {
    hide R.Next, KeepsRings, RingStep, Link, LinkDummy;
    KeepsSelf(c.nodes);
    if a.StepSend? {
      match c.sender
      case SLoadTail(call) => if Live(c, c.tail) { RingKeepsReceived(c, c.tail, R.StartSend(call.msg, false)); }
      case SInRing(j, _) => if Live(c, j) { RingKeepsReceived(c, j, R.StepSend); }
      case SFirst(j, _) => if Live(c, j) { RingKeepsReceived(c, j, R.StepSend); }
      case SCloseRing(j, _) => if Live(c, j) { RingKeepsReceived(c, j, R.Close); }
      case SLink(j, call) => if Live(c, j) { LinkKeepsReceived(c, j, call); }
      case KLink => if Live(c, c.tail) { DummyKeepsReceived(c, c.tail); }
      case KHead => if Live(c, c.head) { RingKeepsReceived(c, c.head, R.Close); }
      case KNext(j) => if Live(c, j) && c.nodes[j].next.Some? && Live(c, c.nodes[j].next.value) { RingKeepsReceived(c, c.nodes[j].next.value, R.Close); }
      case _ =>
    }
  }

  lemma LinkKeepsReceived<T>(c: Chain<T>, j: nat, call: Call<T>)
    requires j < |c.nodes|
    ensures var c' := Link(c, j, call); c'.receiver == c.receiver && c'.delivered == c.delivered && KeepsRings(c.nodes, c'.nodes)
  {
    hide R.Next;
  }

  lemma DummyKeepsReceived<T>(c: Chain<T>, j: nat)
    requires j < |c.nodes|
    ensures var c' := LinkDummy(c, j); c'.receiver == c.receiver && c'.delivered == c.delivered && KeepsRings(c.nodes, c'.nodes)
  {
    hide R.Next;
  }

  /** How far a `try_send` inside a ring is from its end, going round aside. */
  function SendRank<T>(pc: R.SendPc<T>): (n: nat)
    ensures n <= 5
  {
    match pc
    case SCheck(_, _) => 4
    case SLap(_, _) => 3
    case SRelap(_, _) => 2
    case SWrite(_, _) => 2
    case SPublish(_) => 1
    case SWait(_) => 5
    case _ => 0
  }

  lemma SendRankDrops<T>(r: R.Ring<T>, msg: T)
    requires Trying(r.sender, msg) || Claimed(r.sender, msg)
    requires !r.sender.SDone?
    ensures var r' := R.Next(r, R.StepSend); SendRank(r'.sender) < SendRank(r.sender) || r'.sender == R.SCheck(msg, false)
  {
  }

  /** A `recv` inside a ring before its selection is over. */
  predicate Selecting<T>(pc: R.RecvPc<T>) {
    pc.RLap? || pc.RRelap?
  }

  // What a call that is still at it has found, round by round.

  /** The step before this moment ended a round of `try_send` on the tail ring. */
  ghost function RoundAt<T>(): seq<Action<T>> -> bool {
    (run: seq<Action<T>>) =>
      && run != []
      && var c, c' := Exec(Init(), run[..|run| - 1]), Exec(Init(), run);
        c.sender.SInRing? && c'.sender == c.sender && c.sender.node < |c.nodes| && c.sender.node < |c'.nodes|
        && !c.nodes[c.sender.node].ring.sender.SCheck? && c'.nodes[c.sender.node].ring.sender.SCheck?
  }

  /** Nothing was published in the receiver's ring that it had not taken. */
  ghost function EmptyAt<T>(): seq<Action<T>> -> bool {
    (run: seq<Action<T>>) =>
      var c := Exec(Init(), run);
      c.receiver.RInRing? && c.receiver.node < |c.nodes| && !RP.Readable(c.nodes[c.receiver.node].ring)
  }

  ghost function OpenAt<T>(): seq<Action<T>> -> bool {
    (run: seq<Action<T>>) =>
      var c := Exec(Init(), run);
      c.receiver.RInRing? && c.receiver.node < |c.nodes| && !c.nodes[c.receiver.node].ring.closed
  }

  /** The drained ring had no next node. */
  ghost function UnlinkedAt<T>(): seq<Action<T>> -> bool {
    (run: seq<Action<T>>) =>
      var c := Exec(Init(), run);
      c.receiver.RLoadNext? && c.receiver.node < |c.nodes| && c.nodes[c.receiver.node].next == None
  }

  // ---------------------------------------------------------------- what the invariant says at each access

  /** The sender's pointers may be followed, and a link it is about to set is unset. */
  lemma SenderLive<T>(c: Chain<T>)
    requires Inv(c)
    ensures c.sender.SLoadTail? || c.sender.KLink? ==> Live(c, c.tail)
    ensures c.sender.SInRing? || c.sender.SFirst? || c.sender.SCloseRing? || c.sender.SLink? ==> Live(c, c.sender.node)
    ensures c.sender.SLink? ==> c.nodes[c.sender.node].next == None
    ensures c.sender.KLink? ==> c.nodes[c.tail].next == None
  {
    assert NodeOk(c, Current(c));
    hide RI.Inv;
  }

  lemma HeadLive<T>(c: Chain<T>)
    requires Inv(c) && (c.receiver.RIdle? || c.receiver.RDone?)
    ensures Live(c, c.head)
  {
    assert NodeOk(c, c.head);
    hide RI.Inv;
  }

  lemma ReceiverLive<T>(c: Chain<T>)
    requires Inv(c)
    ensures c.receiver.RInRing? || c.receiver.RLoadNext? ==> Live(c, c.receiver.node)
  {
    assert NodeOk(c, c.head);
    hide RI.Inv;
  }

  /** A step of `try_send` comes nearer its end, except that on a used ring it may go round. */
  lemma TryNears<T>(c: Chain<T>)
    requires Inv(c) && (c.sender.SInRing? || c.sender.SFirst?) && c.sender.node < |c.nodes| && !c.nodes[c.sender.node].ring.sender.SDone?
    ensures var r, r' := c.nodes[c.sender.node].ring, R.Next(c.nodes[c.sender.node].ring, R.StepSend);
      SendRank(r'.sender) < SendRank(r.sender) || (c.sender.SInRing? && r'.sender.SCheck? && !r.sender.SCheck?)
  {
    var r := c.nodes[c.sender.node].ring;
    assert NodeOk(c, Current(c));
    SendRankDrops(r, c.sender.call.msg);
    if c.sender.SFirst? && !Claimed(r.sender, c.sender.call.msg) {
      FirstSendStep(r, c.sender.call.msg);
    }
    hide RI.Inv, R.Next;
  }

  /** A `try_send` alone, not caught in the wrapped lap, does not go round. */
  ghost predicate Calm<T>(c: Chain<T>) {
    && (c.sender.SInRing? || c.sender.SFirst?) && c.sender.node < |c.nodes|
    && G.SendEnds(c) && RP.TryRank(c.nodes[c.sender.node].ring) <= 4
  }

  lemma CalmStep<T>(c: Chain<T>)
    requires Inv(c) && Calm(c) && !c.nodes[c.sender.node].ring.sender.SDone?
    ensures var c' := AdvanceSend(c);
      Calm(c') && (c.sender.SInRing? && c'.nodes[c.sender.node].ring.sender.SCheck? ==> c.nodes[c.sender.node].ring.sender.SCheck?)
  {
    G.NodesThere(c);
    G.RingNears(c);
    assert NodeOk(c, Current(c));
    var r := c.nodes[c.sender.node].ring;
    assert AdvanceSend(c).nodes[c.sender.node].ring == R.AdvanceSend(r) && AdvanceSend(c).sender == c.sender;
    RP.SendKeeps(r);
    hide RI.Inv, R.AdvanceSend, Th.LapWrapped, Th.TailUnread, RP.Trying, RP.TryEnds;
    assert c.sender.SInRing? && r.closed ==> c.userClosed;
  }

  /** Each access of a selection brings a `recv` nearer; a wait begins with nothing to read. */
  lemma SelectNears<T>(r: R.Ring<T>)
    requires RI.Inv(r) && Selecting(r.receiver) && r.receiver.blocking
    ensures var r' := R.Next(r, R.StepRecv);
      && RP.RecvRank(r') < RP.RecvRank(r)
      && (Selecting(r'.receiver) ==> r'.receiver.blocking && r'.receiver.sawClosed == r.receiver.sawClosed)
      && (r'.receiver.RWait? ==> !RP.Readable(r') && !r.receiver.sawClosed)
      && (Selecting(r'.receiver) || r'.receiver.RWait? || r'.receiver.RRead? || r'.receiver == R.RDone(R.RecvError))
  {
    Th.RecvDecision(r);
    RP.SenderKept(r);
    RP.LookKeepsReceived(r);
    RI.StepKeepsInv(r, R.StepRecv);
    hide RI.Inv, R.AdvanceRecv;
  }

  lemma StillTrying<T>(c: Chain<T>)
    requires Inv(c) && c.sender.SInRing? && c.sender.node < |c.nodes| && c.nodes[c.sender.node].ring.sender.SCheck?
    ensures c.accepted == c.sender.call.before
  {
    hide RI.Inv;
  }

  lemma NotEmpty<T>(c: Chain<T>)
    requires Inv(c) && c.receiver.RInRing? && c.receiver.node < |c.nodes| && c.nodes[c.receiver.node].ring.receiver.RDone?
    ensures !c.nodes[c.receiver.node].ring.receiver.recvResult.Empty?
  {
    hide RI.Inv;
  }

  lemma StillReceiving<T>(c: Chain<T>)
    requires Inv(c) && (c.receiver.RInRing? || c.receiver.RLoadNext?)
    requires c.receiver.RInRing? ==> c.receiver.node < |c.nodes| && c.nodes[c.receiver.node].ring.receiver.RWait?
    ensures c.delivered == c.receiver.got
  {
    hide RI.Inv;
  }

  lemma FreeLive<T>(c: Chain<T>)
    requires Inv(c) && c.receiver.RFree?
    ensures Live(c, c.receiver.node) && Live(c, c.receiver.next) && c.receiver.node != c.receiver.next
  {
    assert NodeOk(c, c.head) && NodeOk(c, c.head - 1);
    hide RI.Inv;
  }

  lemma CloserLive<T>(c: Chain<T>)
    requires Inv(c) && (c.sender.KHead? || c.sender.KNext?)
    ensures Live(c, c.head)
    ensures c.sender.KNext? ==> c.sender.node == c.head && c.nodes[c.head].next.Some? && Live(c, c.nodes[c.head].next.value)
  {
    assert NodeOk(c, c.head);
    if c.sender.KNext? {
      assert NodeOk(c, c.head + 1);
    }
    hide RI.Inv;
  }

  lemma ClosedAll<T>(c: Chain<T>)
    requires Inv(c) && c.sender.KDone?
    ensures c.userClosed && c.closed
  {
    hide RI.Inv;
  }

  lemma GrowsSelf<T>(c: Chain<T>)
    ensures Grows(c, c)
  {
  }

  /** The tail ring is full in its wrapped lap. */
  ghost predicate TailWrapped<T>(c: Chain<T>) {
    c.tail < |c.nodes| && |c.nodes[c.tail].ring.slots| > 0 && Th.LapWrapped(c.nodes[c.tail].ring)
  }

  lemma LoadIsCalm<T>(c: Chain<T>, start: Chain<T>)
    requires Inv(c) && c.sender.SLoadTail?
    requires c == start.(sender := c.sender) && (start.userClosed || !TailWrapped(start))
    ensures Calm(AdvanceSend(c))
  {
    G.AtTail(c);
    G.LoadNears(c);
    SenderLive(c);
    assert NodeOk(c, c.tail);
    hide Inv, NodeOk;
    G.CallStarts(c.nodes[c.tail].ring, c.sender.call.msg);
    hide R.Next, RI.Inv, Th.LapWrapped;
  }

  /** A receive that is still at it: waiting in a ring it found empty and open round after round, or for the next node. */
  ghost predicate StillAt<T>(c: Chain<T>, run: seq<Action<T>>, from: nat, patience: nat, unlinked: seq<nat>, empties: seq<nat>, opens: seq<nat>) {
    if c.receiver.RInRing? then
      && c.receiver.node < |c.nodes| && c.nodes[c.receiver.node].ring.receiver.RWait?
      && |empties| == |opens| == patience + 1 && At(run, empties, from, EmptyAt()) && At(run, opens, from, OpenAt())
    else c.receiver.RLoadNext? && |unlinked| == patience + 1 && At(run, unlinked, from, UnlinkedAt())
  }

  lemma StillSooner<T>(c: Chain<T>, run: seq<Action<T>>, from: nat, earlier: nat, patience: nat, unlinked: seq<nat>, empties: seq<nat>, opens: seq<nat>)
    requires earlier <= from && StillAt(c, run, from, patience, unlinked, empties, opens)
    ensures StillAt(c, run, earlier, patience, unlinked, empties, opens)
  {
  }

  lemma NoMoments<T>(run: seq<Action<T>>, from: nat)
    ensures At(run, [], from, EmptyAt()) && At(run, [], from, OpenAt())
  {
  }

  /** `close` has set its flag and closed the head ring. */
  ghost predicate HeadClosed<T>(c: Chain<T>) {
    c.closed && c.head < |c.nodes| && c.nodes[c.head].ring.closed
  }

  lemma RingInv<T>(c: Chain<T>, j: nat)
    requires Inv(c) && j < |c.nodes|
    ensures RI.Inv(c.nodes[j].ring)
  {
    assert NodeOk(c, j);
  }

  lemma ReadGoesOn<T>(r: R.Ring<T>)
    requires RI.Inv(r)
    ensures r.receiver.RRead? ==> R.Next(r, R.StepRecv).receiver.RRelease?
    ensures r.receiver.RRelease? ==> R.Next(r, R.StepRecv).receiver.RDone?
  {
    assert RI.TicketOk(r, RI.Q(r));
  }

  lemma LookGoesOn<T>(r: R.Ring<T>)
    requires r.receiver.RWait? && r.closed
    ensures R.Next(r, R.StepRecv).receiver == R.RLap(true, true)
  {
  }

  lemma FreeBegins<T>(c: Chain<T>)
    requires Inv(c) && c.receiver.RFree?
    ensures var c' := AdvanceRecv(c); c.receiver.next < |c'.nodes| && c'.nodes[c.receiver.next].ring.receiver == R.RLap(true, false)
  {
    FreeLive(c);
    G.ReceiverThere(c);
    G.FreshRecv(c);
    hide Inv, R.Next;
  }

  /** A `recv` begun by the receiver's first access. */
  lemma EnterBegins<T>(c: Chain<T>)
    requires Inv(c) && (c.receiver.RIdle? || c.receiver.RDone?)
    ensures var c' := Next(c, StartRecv);
      && Inv(c') && c'.receiver == RInRing(c.head, false, c.delivered) && c.head < |c'.nodes| && c'.nodes[c.head].ring.receiver == R.RLap(true, false)
      && (|c.delivered| < G.Published(c) || HeadClosed(c) ==> G.RecvEnds(c'))
  {
    HeadLive(c);
    StepKeepsInv(c, StartRecv);
    var r, c' := c.nodes[c.head].ring, Next(c, StartRecv);
    RingInv(c, c.head);
    assert NodeOk(c, c.head);
    ReceiverCall(r);
    hide Inv, NodeOk, R.Next, RI.Inv;
    assert c'.delivered == c.delivered && c'.nodes[c.head].ring == R.Next(r, R.StartRecv(true));
    assert G.Published(c') == G.Published(c);
    hide Next, G.Published, G.RecvEnds;
    G.BegunEnds(c');
  }

  lemma NoRounds<T>(run: seq<Action<T>>, from: nat)
    ensures At(run, [], from, RoundAt())
  {
  }

  lemma NoteRound<T>(before: seq<Action<T>>, run: seq<Action<T>>, rounds: seq<nat>, from: nat)
    requires before <= run && |before| < |run| && from <= |run| && At(before, rounds, from, RoundAt()) && RoundAt()(run)
    ensures At(run, rounds + [|run|], from, RoundAt())
  {
    hide RoundAt;
    WholeRun(run);
    Note(before, run, rounds, |run|, from, RoundAt());
  }

  class SpscUnbounded<T> {
    var nodes: seq<Node<T>>
    var head: nat
    var tail: nat
    var closed: bool

    // Where the two threads stand, and the histories.
    var sender: SendPc<T>
    var receiver: RecvPc<T>
    var accepted: seq<T>
    var delivered: seq<T>
    var userClosed: bool

    // What the other thread will still do.
    var schedule: seq<Action<T>>

    // All steps since the queue was created.
    ghost var run: seq<Action<T>>

    function View(): Chain<T>
      reads this
    {
      Chain(nodes, head, tail, closed, sender, receiver, accepted, delivered, userClosed)
    }

    ghost predicate Valid()
      reads this
    {
      View() == Exec(Init(), run) && Inv(View())
    }

    /** The queue has run on from `start`, and nothing was undone. */
    ghost predicate Since(start: Chain<T>)
      reads this
    {
      Valid() && Grows(start, View())
    }

    constructor (schedule: seq<Action<T>>)
      ensures Valid() && accepted == delivered == [] && !closed && this.schedule == schedule
    {
      nodes, head, tail, closed := [Fresh()], 0, 0, false;
      sender, receiver, accepted, delivered, userClosed := SIdle, RIdle, [], [], false;
      this.schedule, run := schedule, [];
      new;
      InitInv<T>();
    }

    // -------------------------------------------------------------- steps

    /** Ends an access that turned `before` into the present state by action a. */
    ghost method Record(before: Chain<T>, a: Action<T>, start: Chain<T>)
      requires Inv(before) && before == Exec(Init(), run) && View() == Next(before, a) && Grows(start, before)
      modifies this`run
      ensures Since(start) && run == old(run) + [a]
    {
      hide Grows, Inv, Next;
      StepKeepsInv(before, a);
      StepGrows(before, a);
      GrowsTrans(start, before, View());
      assert (run + [a])[..|run|] == run;
      run := run + [a];
    }

    /** One step of either thread. */
    method Apply(a: Action<T>, ghost start: Chain<T>)
      requires Since(start)
      modifies this
      ensures Since(start) && old(run) <= run && View() == Next(old(View()), a) && schedule == old(schedule)
    {
      hide Grows, Inv, Next;
      ghost var before := View();
      var c := Next(View(), a);
      nodes, head, tail, closed, sender, receiver := c.nodes, c.head, c.tail, c.closed, c.sender, c.receiver;
      accepted, delivered, userClosed := c.accepted, c.delivered, c.userClosed;
      assert View() == c;
      Record(before, a, start);
    }

    /** The next scheduled step, if it is the other thread's. */
    method OtherStep(side: Side, ghost start: Chain<T>)
      requires Since(start) && schedule != []
      modifies this
      ensures Since(start) && old(run) <= run && |schedule| == old(|schedule|) - 1
      ensures side.Sender? ==> sender == old(sender) && accepted == old(accepted)
      ensures side.Receiver? ==> receiver == old(receiver) && delivered == old(delivered) && KeepsRings(old(nodes), nodes)
    {
      hide Grows, Inv, Next, Exec;
      var a := schedule[0];
      schedule := schedule[1..];
      if !IsOf(side, a) {
        if side.Sender? {
          ReceiverKeepsSender(View(), a);
        } else {
          SenderKeepsReceiver(View(), a);
        }
        Apply(a, start);
      }
    }

    method Interfere(side: Side, ghost start: Chain<T>)
      requires Since(start)
      modifies this
      ensures Since(start) && old(run) <= run && |schedule| <= old(|schedule|)
      ensures |schedule| == old(|schedule|) ==> View() == old(View())
      ensures side.Sender? ==> sender == old(sender) && accepted == old(accepted)
      ensures side.Receiver? ==> receiver == old(receiver) && delivered == old(delivered) && KeepsRings(old(nodes), nodes)
    {
      hide Grows, Inv, Next, Exec, KeepsRings;
      ghost var entry := View();
      KeepsSelf(nodes);
      var n: nat :| n <= |schedule|;
      while n > 0
        invariant n <= |schedule| <= old(|schedule|)
        invariant Since(start) && old(run) <= run
        invariant |schedule| == old(|schedule|) ==> View() == entry
        invariant side.Sender? ==> sender == old(sender) && accepted == old(accepted)
        invariant side.Receiver? ==> receiver == old(receiver) && delivered == old(delivered) && KeepsRings(entry.nodes, nodes)
      {
        ghost var before := nodes;
        OtherStep(side, start);
        if side.Receiver? {
          KeepsTrans(entry.nodes, before, nodes);
        }
        n := n - 1;
      }
    }

    /** A step of node j's ring. */
    method RingDo(j: nat, a: R.Action<T>)
      requires j < |nodes|
      modifies this`nodes, this`accepted, this`delivered
      ensures View() == RingStep(old(View()), j, a)
    {
      var ring := R.Next(nodes[j].ring, a);
      hide R.Next;
      if |ring.sent| > |nodes[j].ring.sent| {
        accepted := accepted + ring.sent[|nodes[j].ring.sent|..];
      }
      if |ring.received| > |nodes[j].ring.received| {
        delivered := delivered + ring.received[|nodes[j].ring.received|..];
      }
      nodes := nodes[j := nodes[j].(ring := ring)];
    }

    // -------------------------------------------------------------- send

    method EnterSend(msg: T, ghost start: Chain<T>)
      requires Since(start) && AtRest(sender)
      modifies this`sender, this`run
      ensures Since(start) && old(run) <= run && sender == SLoadTail(Call(msg, accepted))
    {
      hide Grows, Inv;
      ghost var before := View();
      sender := SLoadTail(Call(msg, accepted));
      Record(before, StartSend(msg), start);
    }

    /** Loads the tail and calls `try_send` on its ring. */
    method LoadTail(ghost start: Chain<T>) returns (j: nat)
      requires Since(start) && sender.SLoadTail?
      modifies this`nodes, this`accepted, this`delivered, this`sender, this`run
      ensures Since(start) && old(run) <= run && sender == SInRing(j, old(sender).call) && View() == AdvanceSend(old(View()))
    {
      ghost var before := View();
      SenderLive(before);
      hide Grows, Inv, R.Next;
      j := tail;
      RingDo(j, R.StartSend(sender.call.msg, false));
      sender := SInRing(j, sender.call);
      Record(before, StepSend, start);
    }

    /** One step of the `try_send` the sender is inside of. */
    method StepTrySend(j: nat, ghost start: Chain<T>)
      requires Since(start) && (sender.SInRing? || sender.SFirst?) && sender.node == j < |nodes| && !nodes[j].ring.sender.SDone?
      modifies this`nodes, this`accepted, this`delivered, this`run
      ensures Since(start) && run == old(run) + [StepSend] && |nodes| == old(|nodes|) && View() == AdvanceSend(old(View()))
      ensures SendRank(nodes[j].ring.sender) < SendRank(old(nodes[j].ring.sender))
        || (sender.SInRing? && nodes[j].ring.sender.SCheck? && !old(nodes[j].ring.sender).SCheck?)
    {
      ghost var before := View();
      SenderLive(before);
      TryNears(before);
      hide Grows, Inv, R.Next;
      RingDo(j, R.StepSend);
      Record(before, StepSend, start);
    }

    /** The others' steps before an access inside a ring. */
    method SenderPause(j: nat, ghost start: Chain<T>)
      requires Since(start) && (sender.SInRing? || sender.SFirst?) && sender.node == j
      modifies this
      ensures Since(start) && old(run) <= run && sender == old(sender) && j < |nodes|
      ensures |schedule| <= old(|schedule|) && (|schedule| == old(|schedule|) ==> View() == old(View()))
    {
      hide Grows, Inv, Exec, Next, R.Next;
      Interfere(Sender, start);
      SenderLive(View());
    }

    /** An access of `try_send` after others' steps. It may end a round. */
    method TryAccess(j: nat, ghost start: Chain<T>) returns (done: bool, again: bool)
      requires Since(start) && (sender.SInRing? || sender.SFirst?) && sender.node == j < |nodes|
      modifies this
      ensures Since(start) && old(run) <= run && sender == old(sender) && j < |nodes| && |schedule| <= old(|schedule|)
      ensures done <==> nodes[j].ring.sender.SDone?
      ensures done ==> !again
      ensures again ==> |old(run)| < |run| && RoundAt()(run) && sender.SInRing? && nodes[j].ring.sender.SCheck?
      ensures !done && !again && |schedule| == old(|schedule|) ==> SendRank(nodes[j].ring.sender) < SendRank(old(nodes[j].ring.sender))
      ensures old(schedule) == [] && Calm(old(View())) ==> schedule == [] && !again && Calm(View())
    {
      hide Grows, Inv, Exec, Next, R.Next, Calm;
      SenderPause(j, start);
      again, done := false, nodes[j].ring.sender.SDone?;
      if done {
        return;
      }
      if Calm(View()) {
        CalmStep(View());
      }
      var rank := SendRank(nodes[j].ring.sender);
      ghost var before := run;
      StepTrySend(j, start);
      assert run[..|run| - 1] == before;
      again, done := SendRank(nodes[j].ring.sender) >= rank, nodes[j].ring.sender.SDone?;
    }

    /** The accesses of one round of `try_send`: to its end, or until it goes round. */
    method TryRound(j: nat, ghost start: Chain<T>) returns (done: bool)
      requires Since(start) && (sender.SInRing? || sender.SFirst?) && sender.node == j < |nodes|
      modifies this
      ensures Since(start) && old(run) <= run && sender == old(sender) && j < |nodes|
      ensures done <==> nodes[j].ring.sender.SDone?
      ensures !done ==> |old(run)| < |run| && RoundAt()(run) && sender.SInRing? && nodes[j].ring.sender.SCheck?
      ensures old(schedule) == [] && Calm(old(View())) ==> schedule == [] && done
    {
      hide Grows, Inv, Exec, Next, R.Next, Calm, RoundAt, SendRank;
      var again := false;
      done := nodes[j].ring.sender.SDone?;
      while !done && !again
        invariant Since(start) && old(run) <= run && sender == old(sender) && j < |nodes|
        invariant done <==> nodes[j].ring.sender.SDone?
        invariant again ==> |old(run)| < |run| && RoundAt()(run) && sender.SInRing? && nodes[j].ring.sender.SCheck?
        invariant old(schedule) == [] && Calm(old(View())) ==> schedule == [] && Calm(View()) && !again
        decreases !done && !again, |schedule|, SendRank(nodes[j].ring.sender)
      {
        done, again := TryAccess(j, start);
      }
    }

    /** The ring's `try_send`. No result: it has gone round once more than `patience`, at the moments in `rounds`. */
    method TrySendIn(j: nat, patience: nat, ghost start: Chain<T>) returns (r: Option<R.SendResult<T>>, ghost rounds: seq<nat>)
      requires Since(start) && (sender.SInRing? || sender.SFirst?) && sender.node == j
      modifies this
      ensures Since(start) && old(run) <= run && sender == old(sender) && j < |nodes|
      ensures if r.Some? then nodes[j].ring.sender == R.SDone(r.value) else sender.SInRing? && nodes[j].ring.sender.SCheck?
      ensures r == None ==> |rounds| == patience + 1 && At(run, rounds, |old(run)|, RoundAt())
      ensures old(schedule) == [] && Calm(old(View())) ==> schedule == [] && r.Some?
    {
      SenderLive(View());
      hide Grows, Inv, Exec, Next, R.Next, Calm, RoundAt, At;
      rounds := [];
      NoRounds(run, |old(run)|);
      for n := 0 to patience + 1
        invariant Since(start) && old(run) <= run && sender == old(sender) && j < |nodes|
        invariant n > 0 ==> sender.SInRing? && nodes[j].ring.sender.SCheck?
        invariant |rounds| == n && At(run, rounds, |old(run)|, RoundAt())
        invariant old(schedule) == [] && Calm(old(View())) ==> n == 0 && schedule == [] && View() == old(View())
      {
        ghost var before := run;
        var done := TryRound(j, start);
        if done {
          return Some(nodes[j].ring.sender.sendResult), rounds;
        }
        NoteRound(before, run, rounds, |old(run)|);
        rounds := rounds + [|run|];
      }
      r := None;
    }

    /** Looks at what `try_send` answered. */
    method TakeAnswer(j: nat, r: R.SendResult<T>, ghost start: Chain<T>)
      requires Since(start) && sender.SInRing? && sender.node == j < |nodes| && nodes[j].ring.sender == R.SDone(r)
      modifies this`sender, this`run
      ensures Since(start) && old(run) <= run
      ensures r.Sent? ==> sender == SDone(old(sender).call, Accepted)
      ensures r.Disconnected? ==> sender == SDone(old(sender).call, Refused(r.msg))
      ensures r.Full? ==> sender == SCloseRing(j, old(sender).call)
    {
      ghost var before := View();
      SenderLive(before);
      hide Grows, Inv, R.Next;
      match r {
        case Sent => sender := SDone(sender.call, Accepted);
        case Disconnected(msg) => sender := SDone(sender.call, Refused(msg));
        case Full(_) => sender := SCloseRing(j, sender.call);
      }
      Record(before, StepSend, start);
    }

    method CloseFull(j: nat, ghost start: Chain<T>)
      requires Since(start) && sender.SCloseRing? && sender.node == j
      modifies this`nodes, this`accepted, this`delivered, this`sender, this`run
      ensures Since(start) && old(run) <= run && sender == SLink(j, old(sender).call)
    {
      ghost var before := View();
      SenderLive(before);
      hide Grows, Inv, R.Next;
      RingDo(j, R.Close);
      sender := SLink(j, sender.call);
      Record(before, StepSend, start);
    }

    /** The link CAS, which cannot fail here, and the call of `try_send` on the fresh ring. */
    method LinkFresh(j: nat, ghost start: Chain<T>) returns (fresh': nat)
      requires Since(start) && sender.SLink? && sender.node == j
      modifies this`nodes, this`sender, this`run
      ensures Since(start) && old(run) <= run && sender == SFirst(fresh', old(sender).call)
    {
      ghost var before := View();
      SenderLive(before);
      hide Grows, Inv, R.Next;
      assert nodes[j].next == None;
      fresh' := |nodes|;
      var node := Fresh().(ring := R.Next(R.Init(SUB_QUEUE_SIZE), R.StartSend(sender.call.msg, false)));
      nodes := nodes[j := nodes[j].(next := Some(fresh'))] + [node];
      sender := SFirst(fresh', sender.call);
      Record(before, StepSend, start);
    }

    method LeaveFirst(j: nat, ghost start: Chain<T>)
      requires Since(start) && sender.SFirst? && sender.node == j < |nodes| && nodes[j].ring.sender.SDone?
      modifies this`sender, this`run
      ensures Since(start) && old(run) <= run && sender == SStoreTail(j, old(sender).call)
    {
      ghost var before := View();
      SenderLive(before);
      hide Grows, Inv, R.Next;
      sender := SStoreTail(j, sender.call);
      Record(before, StepSend, start);
    }

    method StoreTail(j: nat, ghost start: Chain<T>)
      requires Since(start) && sender.SStoreTail? && sender.node == j
      modifies this`tail, this`sender, this`run
      ensures Since(start) && old(run) <= run && sender == SDone(old(sender).call, Accepted)
    {
      ghost var before := View();
      hide Grows, Inv, R.Next;
      tail := j;
      sender := SDone(sender.call, Accepted);
      Record(before, StepSend, start);
    }

    /** Enters the call and, in the tail ring, `try_send`. */
    method BeginTry(msg: T, ghost start: Chain<T>) returns (j: nat)
      requires Since(start) && AtRest(sender) && View() == start
      modifies this
      ensures Since(start) && old(run) <= run && sender == SInRing(j, Call(msg, old(accepted)))
      ensures old(schedule) == [] && (old(userClosed) || !TailWrapped(start)) ==> schedule == [] && Calm(View())
    {
      hide Inv, Exec, Next, R.Next, Calm, TailWrapped, Grows, AdvanceSend;
      EnterSend(msg, start);
      ghost var entered := View();
      Interfere(Sender, start);
      if schedule == [] && View() == entered && (start.userClosed || !TailWrapped(start)) {
        LoadIsCalm(View(), start);
      }
      j := LoadTail(start);
    }

    /** The tail ring was full: it is closed, and a fresh one is linked and takes the message. */
    method SendOn(j: nat, patience: nat, ghost start: Chain<T>)
      requires Since(start) && sender.SCloseRing? && sender.node == j
      modifies this
      ensures Since(start) && old(run) <= run && sender == SDone(old(sender).call, Accepted)
    {
      hide Inv, Exec, Next, R.Next, RoundAt, Calm, Grows;
      Interfere(Sender, start);
      CloseFull(j, start);
      Interfere(Sender, start);
      var next := LinkFresh(j, start);
      var _, _ := TrySendIn(next, patience, start);
      LeaveFirst(next, start);
      Interfere(Sender, start);
      StoreTail(next, start);
    }

    /**
     `send`. No result: the call has gone round once more than `patience` in the tail ring, at the moments in `rounds`, and
     goes on. With nothing scheduled that takes the tail ring full in its wrapped lap.
     */
    method Send(msg: T, patience: nat) returns (r: Option<SendOutcome<T>>, ghost rounds: seq<nat>)
      requires Valid() && AtRest(sender)
      modifies this
      ensures Since(old(View())) && old(run) <= run
      ensures r == Some(Accepted) ==> accepted == old(accepted) + [msg]
      ensures r != Some(Accepted) ==> accepted == old(accepted)
      ensures r.Some? && r.value.Refused? ==> r.value.msg == msg && userClosed
      ensures r.Some? ==> AtRest(sender)
      ensures r == None ==> sender.SInRing? && sender.call.msg == msg && |rounds| == patience + 1 && At(run, rounds, |old(run)|, RoundAt())
      ensures old(schedule) == [] && (old(userClosed) || !TailWrapped(old(View()))) ==> r.Some?
    {
      hide Inv, Exec, Next, R.Next, RoundAt, Calm, TailWrapped, At;
      ghost var start := View();
      GrowsSelf(start);
      hide Grows;
      var j := BeginTry(msg, start);
      ghost var inside := run;
      var answer;
      answer, rounds := TrySendIn(j, patience, start);
      if answer == None {
        StillTrying(View());
        Sooner(run, rounds, |inside|, |old(run)|, RoundAt<T>());
        return None, rounds;
      }
      TakeAnswer(j, answer.value, start);
      if answer.value.Full? {
        SendOn(j, patience, start);
      }
      SendSaid(View());
      r := Some(sender.sendOutcome);
    }

    // -------------------------------------------------------------- recv

    /** Loads the head and calls `recv` on its ring. */
    method EnterRecv(ghost start: Chain<T>) returns (j: nat)
      requires Since(start) && (receiver.RIdle? || receiver.RDone?)
      modifies this`nodes, this`accepted, this`delivered, this`receiver, this`run
      ensures Since(start) && old(run) <= run && receiver == RInRing(j, false, old(delivered))
      ensures j < |nodes| && nodes[j].ring.receiver == R.RLap(true, false)
      ensures |old(delivered)| < G.Published(old(View())) || HeadClosed(old(View())) ==> G.RecvEnds(View())
    {
      ghost var before := View();
      HeadLive(before);
      EnterBegins(before);
      hide Grows, Inv, R.Next, G.RecvEnds, G.Published, HeadClosed;
      j := head;
      var got := delivered;
      RingDo(j, R.StartRecv(true));
      receiver := RInRing(j, false, got);
      Record(before, StartRecv, start);
    }

    /** One step of the `recv` the receiver is inside of. */
    method StepRingRecv(j: nat, ghost start: Chain<T>)
      requires Since(start) && receiver.RInRing? && receiver.node == j < |nodes| && !nodes[j].ring.receiver.RDone?
      modifies this`nodes, this`accepted, this`delivered, this`run
      ensures Since(start) && run == old(run) + [StepRecv] && |nodes| == old(|nodes|)
      ensures nodes[j].ring == R.Next(old(nodes[j].ring), R.StepRecv)
      ensures G.RecvEnds(old(View())) ==> G.RecvEnds(View())
    {
      ghost var before := View();
      ReceiverLive(before);
      G.RecvSteps(before);
      hide Grows, Inv, R.Next, G.RecvEnds;
      RingDo(j, R.StepRecv);
      Record(before, StepRecv, start);
    }

    method ReceiverPause(j: nat, ghost start: Chain<T>)
      requires Since(start) && receiver.RInRing? && receiver.node == j < |nodes|
      modifies this
      ensures Since(start) && old(run) <= run && receiver == old(receiver) && j < |nodes|
      ensures nodes[j].ring.receiver == old(nodes[j].ring.receiver)
      ensures |schedule| <= old(|schedule|) && (|schedule| == old(|schedule|) ==> View() == old(View()))
    {
      hide Grows, Inv, Exec, Next, R.Next;
      Interfere(Receiver, start);
    }

    /** An access of a selection, after others' steps. */
    method SelectAccess(j: nat, ghost start: Chain<T>)
      requires Since(start) && receiver.RInRing? && receiver.node == j < |nodes|
      requires var pc := nodes[j].ring.receiver; Selecting(pc) && pc.blocking
      modifies this
      ensures Since(start) && old(run) <= run && |old(run)| < |run| && receiver == old(receiver) && j < |nodes| && |schedule| <= old(|schedule|)
      ensures |schedule| == old(|schedule|) ==> RP.RecvRank(nodes[j].ring) < RP.RecvRank(old(nodes[j].ring))
      ensures
        var pc := nodes[j].ring.receiver;
        && (Selecting(pc) ==> pc.blocking && pc.sawClosed == old(nodes[j].ring.receiver).sawClosed)
        && (pc.RWait? ==> !old(nodes[j].ring.receiver).sawClosed && EmptyAt()(run))
        && (Selecting(pc) || pc.RWait? || pc.RRead? || pc == R.RDone(R.RecvError))
      ensures old(schedule) == [] && G.RecvEnds(old(View())) ==> schedule == [] && G.RecvEnds(View())
    {
      hide Grows, Inv, Exec, Next, R.Next, G.RecvEnds, RP.RecvRank, RP.Readable, R.AdvanceRecv;
      ReceiverPause(j, start);
      RingInv(View(), j);
      SelectNears(nodes[j].ring);
      StepRingRecv(j, start);
    }

    /** `select_bucket_4_recv` inside the ring: a claim, or nothing to read. */
    method SelectIn(j: nat, ghost start: Chain<T>)
      requires Since(start) && receiver.RInRing? && receiver.node == j < |nodes|
      requires var pc := nodes[j].ring.receiver; Selecting(pc) && pc.blocking
      modifies this
      ensures Since(start) && old(run) <= run && |old(run)| < |run| && receiver == old(receiver) && j < |nodes|
      ensures
        var pc := nodes[j].ring.receiver;
        && (pc.RWait? ==> !old(nodes[j].ring.receiver).sawClosed && EmptyAt()(run))
        && (pc.RWait? || pc.RRead? || pc == R.RDone(R.RecvError))
      ensures old(schedule) == [] && G.RecvEnds(old(View())) ==> schedule == [] && G.RecvEnds(View())
    {
      hide Grows, Inv, Exec, Next, R.Next, G.RecvEnds, EmptyAt, RP.RecvRank;
      SelectAccess(j, start);
      while Selecting(nodes[j].ring.receiver)
        invariant Since(start) && old(run) <= run && |old(run)| < |run| && receiver == old(receiver) && j < |nodes|
        invariant
          var pc := nodes[j].ring.receiver;
          && (Selecting(pc) ==> pc.blocking && pc.sawClosed == old(nodes[j].ring.receiver).sawClosed)
          && (pc.RWait? ==> !old(nodes[j].ring.receiver).sawClosed && EmptyAt()(run))
          && (Selecting(pc) || pc.RWait? || pc.RRead? || pc == R.RDone(R.RecvError))
        invariant old(schedule) == [] && G.RecvEnds(old(View())) ==> schedule == [] && G.RecvEnds(View())
        decreases |schedule|, RP.RecvRank(nodes[j].ring)
      {
        SelectAccess(j, start);
      }
    }

    /** The message of the claimed slot moves out, then the lap is stored. */
    method ReadIn(j: nat, ghost start: Chain<T>)
      requires Since(start) && receiver.RInRing? && receiver.node == j < |nodes| && nodes[j].ring.receiver.RRead?
      modifies this
      ensures Since(start) && old(run) <= run && receiver == old(receiver) && j < |nodes|
      ensures nodes[j].ring.receiver.RDone?
      ensures old(schedule) == [] && G.RecvEnds(old(View())) ==> schedule == [] && G.RecvEnds(View())
    {
      hide Grows, Inv, Exec, Next, R.Next, G.RecvEnds;
      ReceiverPause(j, start);
      RingInv(View(), j);
      ReadGoesOn(nodes[j].ring);
      StepRingRecv(j, start);
      ReceiverPause(j, start);
      RingInv(View(), j);
      ReadGoesOn(nodes[j].ring);
      StepRingRecv(j, start);
    }

    /** Others' steps, and the flag load of a waiting receiver, made after step `at`. */
    method LooksIn(j: nat, look: bool, ghost start: Chain<T>) returns (sawClosed: bool, ghost at: nat)
      requires Since(start) && receiver.RInRing? && receiver.node == j < |nodes| && nodes[j].ring.receiver.RWait?
      modifies this
      ensures Since(start) && old(run) <= run && receiver == old(receiver) && j < |nodes| && |old(run)| <= at <= |run|
      ensures nodes[j].ring.receiver == if sawClosed then R.RLap(true, true) else R.RWait
      ensures look && !sawClosed ==> OpenAt()(run[..at])
      ensures old(schedule) == [] && G.RecvEnds(old(View())) ==> schedule == [] && G.RecvEnds(View()) && (look ==> sawClosed)
    {
      hide Grows, Inv, Exec, Next, R.Next;
      ReceiverPause(j, start);
      at := |run|;
      WholeRun(run);
      sawClosed := look && nodes[j].ring.closed;
      if sawClosed {
        LookGoesOn(nodes[j].ring);
        StepRingRecv(j, start);
      }
    }

    /** How the wait ends: as in the bounded queue. */
    method AwaitIn(j: nat, mayGo: bool, ghost start: Chain<T>) returns (sawClosed: bool, ghost at: nat)
      requires Since(start) && receiver.RInRing? && receiver.node == j < |nodes| && nodes[j].ring.receiver.RWait?
      modifies this
      ensures Since(start) && old(run) <= run && receiver == old(receiver) && j < |nodes| && |old(run)| <= at <= |run|
      ensures nodes[j].ring.receiver == if sawClosed then R.RLap(true, true) else if mayGo then R.RLap(true, false) else R.RWait
      ensures !sawClosed ==> OpenAt()(run[..at])
      ensures old(schedule) == [] && G.RecvEnds(old(View())) ==> schedule == [] && G.RecvEnds(View()) && sawClosed
    {
      hide Grows, Inv, Exec, Next, R.Next, G.RecvEnds, OpenAt;
      sawClosed, at := LooksIn(j, true, start);
      ghost var upTo := run;
      if !sawClosed {
        var again: bool := *;
        var seen, _ := LooksIn(j, again, start);
        sawClosed := seen;
      }
      if !sawClosed && mayGo {
        ResumeIn(j, start);
      }
      assert run[..at] == upTo[..at];
    }

    method ResumeIn(j: nat, ghost start: Chain<T>)
      requires Since(start) && receiver.RInRing? && receiver.node == j < |nodes| && nodes[j].ring.receiver.RWait?
      modifies this`nodes, this`accepted, this`delivered, this`run
      ensures Since(start) && run == old(run) + [ResumeRecv] && |nodes| == old(|nodes|)
      ensures nodes[j].ring.receiver == R.RLap(true, false)
    {
      ghost var before := View();
      ReceiverLive(before);
      hide Grows, Inv;
      RingDo(j, R.ResumeRecv);
      Record(before, ResumeRecv, start);
    }

    /** A round of the ring's `recv`: a selection, the read if it claimed, else the wait. */
    method RoundIn(j: nat, mayGo: bool, ghost start: Chain<T>) returns (done: bool, sawClosed: bool, ghost empty: nat, ghost open: nat)
      requires Since(start) && receiver.RInRing? && receiver.node == j < |nodes|
      requires nodes[j].ring.receiver.RLap? && nodes[j].ring.receiver.blocking
      modifies this
      ensures Since(start) && old(run) <= run && receiver == old(receiver) && j < |nodes|
      ensures old(nodes[j].ring.receiver).sawClosed ==> done
      ensures done ==> nodes[j].ring.receiver.RDone?
      ensures !done ==>
        nodes[j].ring.receiver == if sawClosed then R.RLap(true, true) else if mayGo then R.RLap(true, false) else R.RWait
      ensures !done ==> |old(run)| < empty <= |run| && EmptyAt()(run[..empty])
      ensures !done && !sawClosed ==> |old(run)| < open <= |run| && OpenAt()(run[..open])
      ensures old(schedule) == [] && G.RecvEnds(old(View())) ==> schedule == [] && G.RecvEnds(View()) && (done || sawClosed)
    {
      hide Grows, Inv, Exec, Next, R.Next, G.RecvEnds, EmptyAt, OpenAt;
      SelectIn(j, start);
      done, sawClosed, empty, open := !nodes[j].ring.receiver.RWait?, false, |run|, |run|;
      if nodes[j].ring.receiver.RRead? {
        ReadIn(j, start);
        return;
      }
      if !done {
        WholeRun(run);
        ghost var upTo := run;
        ghost var at;
        sawClosed, at := AwaitIn(j, mayGo, start);
        open := at;
        assert run[..empty] == upTo[..empty];
      }
    }

    /**
     The ring's `recv`. No result: it waits after one selection more than `patience`, each of which found nothing to read at
     the moment in `empties` and was followed by a look that found the ring open, in `opens`.
     */
    method RecvIn(j: nat, patience: nat, ghost start: Chain<T>)
      returns (r: Option<R.RecvResult<T>>, ghost empties: seq<nat>, ghost opens: seq<nat>)
      requires Since(start) && receiver.RInRing? && receiver.node == j < |nodes| && nodes[j].ring.receiver == R.RLap(true, false)
      modifies this
      ensures Since(start) && old(run) <= run && receiver == old(receiver) && j < |nodes|
      ensures if r.Some? then nodes[j].ring.receiver == R.RDone(r.value) else nodes[j].ring.receiver.RWait?
      ensures r == None ==> |empties| == |opens| == patience + 1
      ensures r == None ==> At(run, empties, |old(run)|, EmptyAt()) && At(run, opens, |old(run)|, OpenAt())
      ensures old(schedule) == [] && G.RecvEnds(old(View())) ==> schedule == [] && r.Some? && G.RecvEnds(View())
    {
      hide Grows, Inv, Exec, Next, R.Next, G.RecvEnds, EmptyAt, OpenAt, At;
      empties, opens := [], [];
      NoMoments(run, |old(run)|);
      for waits := 0 to patience + 1
        invariant Since(start) && old(run) <= run && receiver == old(receiver) && j < |nodes|
        invariant nodes[j].ring.receiver == if waits <= patience then R.RLap(true, false) else R.RWait
        invariant |empties| == |opens| == waits
        invariant At(run, empties, |old(run)|, EmptyAt()) && At(run, opens, |old(run)|, OpenAt())
        invariant old(schedule) == [] && G.RecvEnds(old(View())) ==> waits == 0 && schedule == [] && G.RecvEnds(View())
      {
        ghost var before := run;
        var done, sawClosed;
        ghost var empty, open;
        done, sawClosed, empty, open := RoundIn(j, waits < patience, start);
        if sawClosed && !done {
          var ended, _, _, _ := RoundIn(j, false, start);
          done := ended;
        }
        if done {
          return Some(nodes[j].ring.receiver.recvResult), empties, opens;
        }
        Note(before, run, empties, empty, |old(run)|, EmptyAt());
        Note(before, run, opens, open, |old(run)|, OpenAt());
        empties, opens := empties + [empty], opens + [open];
      }
      r := None;
    }

    /** Looks at what the ring's `recv` answered. */
    method TakeReceived(j: nat, r: R.RecvResult<T>, ghost start: Chain<T>)
      requires Since(start) && receiver.RInRing? && receiver.node == j < |nodes| && nodes[j].ring.receiver == R.RDone(r)
      modifies this`receiver, this`run
      ensures Since(start) && old(run) <= run
      ensures r.Received? ==> receiver == RDone(old(receiver).got, Got(r.msg))
      ensures !r.Received? ==> receiver == if old(receiver).hopped then RDone(old(receiver).got, Ended) else RCheckClosed(j, old(receiver).got)
      ensures G.RecvEnds(old(View())) ==> G.RecvEnds(View())
    {
      ghost var before := View();
      ReceiverLive(before);
      NotEmpty(before);
      G.RecvSteps(before);
      hide Grows, Inv, R.Next, G.RecvEnds;
      if r.Received? {
        receiver := RDone(receiver.got, Got(r.msg));
      } else if receiver.hopped {
        receiver := RDone(receiver.got, Ended);
      } else {
        receiver := RCheckClosed(j, receiver.got);
      }
      Record(before, StepRecv, start);
    }

    method CheckClosed(ghost start: Chain<T>) returns (isClosed: bool)
      requires Since(start) && receiver.RCheckClosed?
      modifies this`receiver, this`run
      ensures Since(start) && old(run) <= run
      ensures receiver == if isClosed then RDone(old(receiver).got, Ended) else RLoadNext(old(receiver).node, old(receiver).got)
      ensures G.RecvEnds(old(View())) ==> G.RecvEnds(View())
    {
      ghost var before := View();
      G.RecvSteps(before);
      hide Grows, Inv, R.Next, G.RecvEnds;
      isClosed := closed;
      receiver := if closed then RDone(receiver.got, Ended) else RLoadNext(receiver.node, receiver.got);
      Record(before, StepRecv, start);
    }

    /** A look at the drained ring's next pointer. */
    method LoadNext(j: nat, ghost start: Chain<T>) returns (next: Option<nat>)
      requires Since(start) && receiver.RLoadNext? && receiver.node == j
      modifies this`receiver, this`run
      ensures Since(start) && run == old(run) + [StepRecv]
      ensures receiver == if next.Some? then RHop(j, next.value, old(receiver).got) else old(receiver)
      ensures j < |nodes| && next == nodes[j].next && View() == AdvanceRecv(old(View()))
    {
      ghost var before := View();
      ReceiverLive(before);
      hide Grows, Inv, R.Next, Exec;
      next := nodes[j].next;
      if next.Some? {
        receiver := RHop(j, next.value, receiver.got);
      }
      Record(before, StepRecv, start);
    }

    /** The same after others' steps; it is made after step `at`. */
    method LookNext(j: nat, ghost start: Chain<T>) returns (next: Option<nat>, ghost at: nat)
      requires Since(start) && receiver.RLoadNext? && receiver.node == j
      modifies this
      ensures Since(start) && old(run) <= run && |old(run)| <= at < |run|
      ensures receiver == if next.Some? then RHop(j, next.value, old(receiver).got) else old(receiver)
      ensures next == None ==> UnlinkedAt()(run[..at])
      ensures old(schedule) == [] && G.RecvEnds(old(View())) ==> schedule == [] && next.Some? && G.RecvEnds(View())
    {
      hide Grows, Inv, R.Next, Exec, AdvanceRecv;
      Interfere(Receiver, start);
      G.ReceiverThere(View());
      if G.RecvEnds(View()) {
        G.RecvSteps(View());
      }
      at := |run|;
      WholeRun(run);
      ghost var upTo := run;
      next := LoadNext(j, start);
      assert run[..at] == upTo;
    }

    /** Spins until the next node is linked. No result: not after one look more than `patience`, at the moments in `unlinked`. */
    method AwaitNext(j: nat, patience: nat, ghost start: Chain<T>) returns (next: Option<nat>, ghost unlinked: seq<nat>)
      requires Since(start) && receiver.RLoadNext? && receiver.node == j
      modifies this
      ensures Since(start) && old(run) <= run
      ensures receiver == if next.Some? then RHop(j, next.value, old(receiver).got) else old(receiver)
      ensures next == None ==> |unlinked| == patience + 1 && At(run, unlinked, |old(run)|, UnlinkedAt())
      ensures old(schedule) == [] && G.RecvEnds(old(View())) ==> schedule == [] && next.Some? && G.RecvEnds(View())
    {
      hide Grows, Inv, Exec, Next, R.Next, G.RecvEnds, UnlinkedAt;
      unlinked := [];
      for looks := 0 to patience + 1
        invariant Since(start) && old(run) <= run && receiver == old(receiver)
        invariant |unlinked| == looks && At(run, unlinked, |old(run)|, UnlinkedAt())
        invariant forall i :: 0 <= i < |unlinked| ==> unlinked[i] < |run|
        invariant old(schedule) == [] && G.RecvEnds(old(View())) ==> looks == 0 && schedule == [] && G.RecvEnds(View())
      {
        ghost var before := run;
        ghost var at;
        next, at := LookNext(j, start);
        if next.Some? {
          return;
        }
        Later(before, run, unlinked, |old(run)|, UnlinkedAt());
        OneMore(run, unlinked, at, |old(run)|, UnlinkedAt());
        unlinked := unlinked + [at];
      }
      next := None;
    }

    method SetHead(next: nat, ghost start: Chain<T>)
      requires Since(start) && receiver.RHop? && receiver.next == next
      modifies this`head, this`receiver, this`run
      ensures Since(start) && old(run) <= run && receiver == RFree(old(receiver).node, next, old(receiver).got)
      ensures G.RecvEnds(old(View())) ==> G.RecvEnds(View())
    {
      ghost var before := View();
      G.RecvSteps(before);
      hide Grows, Inv, R.Next, G.RecvEnds;
      head := next;
      receiver := RFree(receiver.node, next, receiver.got);
      Record(before, StepRecv, start);
    }

    /** Frees the old head and calls `recv` on the next node's ring. */
    method FreeOld(j: nat, next: nat, ghost start: Chain<T>)
      requires Since(start) && receiver.RFree? && receiver.node == j && receiver.next == next
      modifies this`nodes, this`accepted, this`delivered, this`receiver, this`run
      ensures Since(start) && old(run) <= run && receiver == RInRing(next, true, old(receiver).got)
      ensures View() == AdvanceRecv(old(View()))
    {
      ghost var before := View();
      FreeLive(before);
      hide Grows, Inv, R.Next, Exec;
      nodes := nodes[j := nodes[j].(freed := true)];
      RingDo(next, R.StartRecv(true));
      receiver := RInRing(next, true, receiver.got);
      Record(before, StepRecv, start);
    }

    /** The second half of `recv`: the head ring is closed and drained. */
    method Hop(j: nat, patience: nat, ghost start: Chain<T>)
      returns (done: bool, ghost unlinked: seq<nat>, ghost empties: seq<nat>, ghost opens: seq<nat>)
      requires Since(start) && receiver.RLoadNext? && receiver.node == j
      modifies this
      ensures Since(start) && old(run) <= run
      ensures done ==> receiver.RDone? && receiver.got == old(receiver).got
      ensures !done ==> delivered == old(receiver).got && StillAt(View(), run, |old(run)|, patience, unlinked, empties, opens)
      ensures old(schedule) == [] && G.RecvEnds(old(View())) ==> done
    {
      hide Inv, Exec, Next, R.Next, Grows, G.RecvEnds, EmptyAt, OpenAt, UnlinkedAt, At, AdvanceRecv;
      empties, opens := [], [];
      var next;
      next, unlinked := AwaitNext(j, patience, start);
      if next == None {
        StillReceiving(View());
        return false, unlinked, empties, opens;
      }
      Interfere(Receiver, start);
      SetHead(next.value, start);
      Interfere(Receiver, start);
      FreeBegins(View());
      G.RecvSteps(View());
      FreeOld(j, next.value, start);
      ghost var inside := run;
      var answer;
      answer, empties, opens := RecvIn(next.value, patience, start);
      if answer == None {
        StillReceiving(View());
        Sooner(run, empties, |inside|, |old(run)|, EmptyAt<T>());
        Sooner(run, opens, |inside|, |old(run)|, OpenAt<T>());
        return false, unlinked, empties, opens;
      }
      TakeReceived(next.value, answer.value, start);
      done := true;
    }

    /** The ring's `recv` gave up: the end, if the queue is closed, or the next node. */
    method RecvOn(j: nat, patience: nat, ghost start: Chain<T>)
      returns (done: bool, ghost unlinked: seq<nat>, ghost empties: seq<nat>, ghost opens: seq<nat>)
      requires Since(start) && receiver.RCheckClosed? && receiver.node == j
      modifies this
      ensures Since(start) && old(run) <= run
      ensures done ==> receiver.RDone? && receiver.got == old(receiver).got
      ensures !done ==> delivered == old(receiver).got && StillAt(View(), run, |old(run)|, patience, unlinked, empties, opens)
      ensures old(schedule) == [] && G.RecvEnds(old(View())) ==> done
    {
      hide Inv, Exec, Next, R.Next, Grows, G.RecvEnds, StillAt;
      unlinked, empties, opens := [], [], [];
      Interfere(Receiver, start);
      done := CheckClosed(start);
      if !done {
        ghost var here := run;
        done, unlinked, empties, opens := Hop(j, patience, start);
        if !done {
          StillSooner(View(), run, |here|, |old(run)|, patience, unlinked, empties, opens);
        }
      }
    }

    /**
     `recv`. No result: it is blocked in a ring, or spins for the next node, and `StillAt` says what its rounds found. With
     nothing scheduled that takes an open queue, or one about to be closed, with nothing published to deliver.
     */
    method Recv(patience: nat) returns (r: Option<RecvOutcome<T>>, ghost unlinked: seq<nat>, ghost empties: seq<nat>, ghost opens: seq<nat>)
      requires Valid() && (receiver.RIdle? || receiver.RDone?)
      modifies this
      ensures Since(old(View())) && old(run) <= run
      ensures r.Some? && r.value.Got? ==> delivered == old(delivered) + [r.value.msg] && delivered <= accepted
      ensures r == Some(Ended) ==> closed && delivered == old(delivered) == accepted
      ensures r == None ==> delivered == old(delivered) && StillAt(View(), run, |old(run)|, patience, unlinked, empties, opens)
      ensures r.Some? ==> receiver.RDone?
      ensures old(schedule) == [] && (|old(delivered)| < G.Published(old(View())) || HeadClosed(old(View()))) ==> r.Some?
    {
      hide Inv, Exec, Next, R.Next, G.RecvEnds, EmptyAt, OpenAt, UnlinkedAt, G.Published, HeadClosed;
      ghost var start := View();
      GrowsSelf(start);
      hide Grows;
      unlinked := [];
      var j := EnterRecv(start);
      ghost var inside := run;
      var answer;
      answer, empties, opens := RecvIn(j, patience, start);
      if answer == None {
        StillReceiving(View());
        Sooner(run, empties, |inside|, |old(run)|, EmptyAt<T>());
        Sooner(run, opens, |inside|, |old(run)|, OpenAt<T>());
        return None, unlinked, empties, opens;
      }
      TakeReceived(j, answer.value, start);
      if receiver.RCheckClosed? {
        ghost var here := run;
        var done;
        done, unlinked, empties, opens := RecvOn(j, patience, start);
        if !done {
          StillSooner(View(), run, |here|, |old(run)|, patience, unlinked, empties, opens);
          return None, unlinked, empties, opens;
        }
      }
      RecvSaid(View());
      r := Some(receiver.recvOutcome);
    }

    // -------------------------------------------------------------- close

    /** The dummy's link, which cannot fail here. */
    method LinkClosed(ghost start: Chain<T>)
      requires Since(start) && sender.KLink?
      modifies this`nodes, this`userClosed, this`sender, this`run
      ensures Since(start) && old(run) <= run && sender == KMark && userClosed
    {
      ghost var before := View();
      SenderLive(before);
      hide Grows, Inv, R.Next;
      var dummy := Node(R.Next(R.Init<T>(1), R.Close), None, false);
      nodes := nodes[tail := nodes[tail].(next := Some(|nodes|))] + [dummy];
      userClosed, sender := true, KMark;
      Record(before, StepSend, start);
    }

    method MarkClosed(ghost start: Chain<T>)
      requires Since(start) && sender.KMark?
      modifies this`closed, this`sender, this`run
      ensures Since(start) && old(run) <= run && sender == KHead && closed
    {
      ghost var before := View();
      hide Grows, Inv, R.Next;
      closed, sender := true, KHead;
      Record(before, StepSend, start);
    }

    method CloseHead(ghost start: Chain<T>) returns (j: nat)
      requires Since(start) && sender.KHead?
      modifies this`nodes, this`accepted, this`delivered, this`sender, this`run
      ensures Since(start) && old(run) <= run && sender == KNext(j) && accepted == old(accepted)
    {
      ghost var before := View();
      CloserLive(before);
      OnlySendersSend(nodes[head].ring, R.Close);
      hide Grows, Inv, R.Next;
      j := head;
      RingDo(j, R.Close);
      sender := KNext(j);
      Record(before, StepSend, start);
    }

    method CloseNext(j: nat, ghost start: Chain<T>)
      requires Since(start) && sender.KNext? && sender.node == j
      modifies this`nodes, this`accepted, this`delivered, this`sender, this`run
      ensures Since(start) && old(run) <= run && sender == KDone && accepted == old(accepted)
    {
      ghost var before := View();
      CloserLive(before);
      OnlySendersSend(nodes[nodes[j].next.value].ring, R.Close);
      hide Grows, Inv, R.Next;
      RingDo(nodes[j].next.value, R.Close);
      sender := KDone;
      Record(before, StepSend, start);
    }

    /** `close`, by the sending thread, once, with head and tail the same node. */
    method Close()
      requires Valid() && AtRest(sender) && head == tail && !userClosed
      modifies this
      ensures Since(old(View())) && old(run) <= run && sender == KDone && userClosed && closed && accepted == old(accepted)
    {
      hide Inv, Exec, Next, R.Next;
      ghost var start := View();
      GrowsSelf(start);
      hide Grows;
      EnterClose(start);
      Interfere(Sender, start);
      LinkClosed(start);
      Interfere(Sender, start);
      MarkClosed(start);
      Interfere(Sender, start);
      var j := CloseHead(start);
      Interfere(Sender, start);
      CloseNext(j, start);
      ClosedAll(View());
    }

    method EnterClose(ghost start: Chain<T>)
      requires Since(start) && AtRest(sender) && head == tail && !userClosed
      modifies this`sender, this`run
      ensures Since(start) && old(run) <= run && sender == KLink
    {
      ghost var before := View();
      hide Grows, Inv, R.Next;
      sender := KLink;
      Record(before, StartClose, start);
    }
  }
}
