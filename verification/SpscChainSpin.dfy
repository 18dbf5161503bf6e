/** A `send` of the unbounded queue can go round for ever: its only ring may come full in the wrapped lap. */
module SpscChainSpin {
  import opened Words
  import opened Options
  import opened SpscChain
  import opened SpscChainInvariant
  import opened SpscChainSteps
  import opened SpscChainProgress
  import SpscChainRings
  import R = SpscRing
  import RI = SpscInvariant
  import Th = SpscTheorems
  import P = SpscProgress

  lemma {:induction false} ExecConcat<T>(c: Chain<T>, run: seq<Action<T>>, more: seq<Action<T>>)
    ensures Exec(c, run + more) == Exec(Exec(c, run), more)
  {
    if more == [] {
      assert run + more == run;
    } else {
      hide Next;
      assert (run + more)[..|run + more| - 1] == run + more[..|more| - 1];
      ExecConcat(c, run, more[..|more| - 1]);
    }
  }

  lemma {:induction false} ExecSends<T>(c: Chain<T>, n: nat)
    ensures Exec(c, seq(n, _ => StepSend)) == SendAlone(c, n)
  {
    hide AdvanceSend;
    if n > 0 {
      assert seq(n, _ => Action<T>.StepSend)[..n - 1] == seq(n - 1, _ => Action<T>.StepSend);
      ExecSends(c, n - 1);
    }
  }

  lemma {:induction false} ExecRecvs<T>(c: Chain<T>, n: nat)
    ensures Exec(c, seq(n, _ => StepRecv)) == RecvAlone(c, n)
  {
    hide AdvanceRecv;
    if n > 0 {
      assert seq(n, _ => Action<T>.StepRecv)[..n - 1] == seq(n - 1, _ => Action<T>.StepRecv);
      ExecRecvs(c, n - 1);
    }
  }

  lemma ExecCall<T>(c: Chain<T>, a: Action<T>, n: nat)
    ensures Exec(c, [a] + seq(n, _ => StepSend)) == SendAlone(Next(c, a), n)
    ensures Exec(c, [a] + seq(n, _ => StepRecv)) == RecvAlone(Next(c, a), n)
  {
    hide Next, AdvanceSend, AdvanceRecv, SendAlone, RecvAlone;
    assert Exec(c, [a]) == Next(Exec(c, []), a);
    ExecConcat(c, [a], seq(n, _ => StepSend));
    ExecConcat(c, [a], seq(n, _ => StepRecv));
    ExecSends(Next(c, a), n);
    ExecRecvs(Next(c, a), n);
  }

  /** One ring, and both threads between calls. */
  ghost predicate OneRing<T>(c: Chain<T>) {
    && Inv(c) && |c.nodes| == 1 && !c.userClosed
    && (c.sender.SIdle? || c.sender.SDone?) && (c.receiver.RIdle? || c.receiver.RDone?)
  }

  lemma OneRingRests<T>(c: Chain<T>)
    requires OneRing(c)
    ensures c.head == c.tail == 0 && Live(c, 0) && Th.Resting(c.nodes[0].ring)
  {
    assert NodeOk(c, 0);
    hide RI.Inv;
  }

  // ---------------------------------------------------------------- one send

  /** The first moment at which the ring's `try_send` is over. */
  lemma {:induction false} FirstSent<T>(r: R.Ring<T>, n: nat) returns (k: nat)
    requires Th.SendAlone(r, n).sender.SDone?
    ensures k <= n && Th.SendAlone(r, k) == Th.SendAlone(r, n) && forall i :: 0 <= i < k ==> !Th.SendAlone(r, i).sender.SDone?
  {
    hide R.AdvanceSend;
    k := 0;
    while !Th.SendAlone(r, k).sender.SDone?
      invariant k <= n && forall i :: 0 <= i < k ==> !Th.SendAlone(r, i).sender.SDone?
      decreases n - k
    {
      k := k + 1;
    }
    SentStays(r, k, n);
  }

  lemma {:induction false} SentStays<T>(r: R.Ring<T>, k: nat, n: nat)
    requires k <= n && Th.SendAlone(r, k).sender.SDone?
    ensures Th.SendAlone(r, n) == Th.SendAlone(r, k)
  {
    if k < n {
      SentStays(r, k, n - 1);
    }
  }

  /** The one node's ring is r', and the rest of the calls is as it was. */
  ghost predicate Inside<T>(c: Chain<T>, c': Chain<T>, r': R.Ring<T>) {
    && |c.nodes| == |c'.nodes| == 1 && c'.nodes[0] == c.nodes[0].(ring := r')
    && c'.sender == c.sender && c'.receiver == c.receiver && c'.userClosed == c.userClosed
  }

  lemma {:induction false} InRingAlone<T>(c: Chain<T>, k: nat)
    requires |c.nodes| == 1 && !c.nodes[0].freed && c.sender.SInRing? && c.sender.node == 0
    requires forall i :: 0 <= i < k ==> !Th.SendAlone(c.nodes[0].ring, i).sender.SDone?
    ensures Inside(c, SendAlone(c, k), Th.SendAlone(c.nodes[0].ring, k))
  {
    hide R.AdvanceSend, AdvanceSend;
    if k > 0 {
      InRingAlone(c, k - 1);
      InRingStep(SendAlone(c, k - 1));
    }
  }

  lemma InRingStep<T>(c: Chain<T>)
    requires |c.nodes| == 1 && !c.nodes[0].freed && c.sender.SInRing? && c.sender.node == 0 && !c.nodes[0].ring.sender.SDone?
    ensures Inside(c, AdvanceSend(c), R.AdvanceSend(c.nodes[0].ring))
  {
    hide R.AdvanceSend;
  }

  lemma StartedIn<T>(c: Chain<T>, msg: T)
    requires OneRing(c)
    ensures var c2, r := SendAlone(Next(c, StartSend(msg)), 1), R.Next(c.nodes[0].ring, R.StartSend(msg, false));
      && |c2.nodes| == 1 && c2.nodes[0] == c.nodes[0].(ring := r) && !c2.nodes[0].freed && c2.sender.SInRing? && c2.sender.node == 0
      && c2.receiver == c.receiver && c2.userClosed == c.userClosed
      && RI.Inv(r) && r.sender == R.SCheck(msg, false) && r.sent == c.nodes[0].ring.sent && r.received == c.nodes[0].ring.received
      && r.closed == c.nodes[0].ring.closed && |r.slots| == |c.nodes[0].ring.slots| && (Th.TailUnread(r) <==> Th.TailUnread(c.nodes[0].ring))
  {
    OneRingRests(c);
    RI.StepKeepsInv(c.nodes[0].ring, R.StartSend(msg, false));
    hide Inv, RI.Inv;
    assert SendAlone(Next(c, StartSend(msg)), 1) == AdvanceSend(SendAlone(Next(c, StartSend(msg)), 0));
  }

  /** A send with room. */
  lemma SendOne<T>(c: Chain<T>, msg: T) returns (run: seq<Action<T>>)
    requires OneRing(c) && !Th.TailUnread(c.nodes[0].ring)
    ensures
      var c' := Exec(c, run);
      && OneRing(c')
      && c'.nodes[0].ring.sent == c.nodes[0].ring.sent + [msg] && c'.nodes[0].ring.received == c.nodes[0].ring.received
      && |c'.nodes[0].ring.slots| == |c.nodes[0].ring.slots|
  {
    var n := SendSteps(c, msg);
    run := [StartSend(msg)] + seq(n, _ => StepSend);
    ExecCall(c, StartSend(msg), n);
    RunKeepsInv(c, run);
    hide Inv, Next, Exec;
  }

  lemma SendSteps<T>(c: Chain<T>, msg: T) returns (n: nat)
    requires OneRing(c) && !Th.TailUnread(c.nodes[0].ring)
    ensures
      var c' := SendAlone(Next(c, StartSend(msg)), n);
      && |c'.nodes| == 1 && !c'.userClosed && c'.sender.SDone? && c'.receiver == c.receiver
      && c'.nodes[0].ring.sent == c.nodes[0].ring.sent + [msg] && c'.nodes[0].ring.received == c.nodes[0].ring.received
      && |c'.nodes[0].ring.slots| == |c.nodes[0].ring.slots|
  {
    var c1 := Next(c, StartSend(msg));
    var c2, r := SendAlone(c1, 1), R.Next(c.nodes[0].ring, R.StartSend(msg, false));
    OneRingRests(c);
    StartedIn(c, msg);
    hide Inv, OneRing, Next, R.Next, SendAlone, RI.Inv, Th.TailUnread, Live;
    var k := FromRing(c2);
    SendSplit(c1, k);
    n := k + 2;
  }

  lemma FromRing<T>(c: Chain<T>) returns (k: nat)
    requires |c.nodes| == 1 && !c.nodes[0].freed && c.sender.SInRing? && c.sender.node == 0
    requires var r := c.nodes[0].ring; RI.Inv(r) && r.sender.SCheck? && !r.sender.blocking && !r.closed && !Th.TailUnread(r)
    ensures
      var c', r := AdvanceSend(SendAlone(c, k)), c.nodes[0].ring;
      && |c'.nodes| == 1 && c'.userClosed == c.userClosed && c'.sender.SDone? && c'.receiver == c.receiver
      && c'.nodes[0].ring.sent == r.sent + [r.sender.msg] && c'.nodes[0].ring.received == r.received
      && |c'.nodes[0].ring.slots| == |r.slots|
  {
    var r := c.nodes[0].ring;
    RingTakes(r);
    k := FirstSent(r, 5);
    InRingAlone(c, k);
    hide RI.Inv, SendAlone, Th.SendAlone, AdvanceSend, Th.TailUnread;
    SentWhole(SendAlone(c, k));
  }

  lemma RingTakes<T>(r: R.Ring<T>)
    requires RI.Inv(r) && r.sender.SCheck? && !r.sender.blocking && !r.closed && !Th.TailUnread(r)
    ensures var r' := Th.SendAlone(r, 5);
      r'.sender == R.SDone(R.Sent) && r'.sent == r.sent + [r.sender.msg] && r'.received == r.received && |r'.slots| == |r.slots|
  {
    Th.TrySendComesBack(r);
    SameSlots(r, 5);
    hide RI.Inv;
  }

  lemma {:induction false} SameSlots<T>(r: R.Ring<T>, n: nat)
    ensures |Th.SendAlone(r, n).slots| == |r.slots| && Th.SendAlone(r, n).received == r.received
  {
    if n > 0 {
      SameSlots(r, n - 1);
    }
  }

  lemma SendSplit<T>(c1: Chain<T>, k: nat)
    ensures SendAlone(c1, k + 2) == AdvanceSend(SendAlone(SendAlone(c1, 1), k))
  {
    hide AdvanceSend;
    SendAloneFirst(c1, k + 1);
    SendAloneFirst(c1, 0);
  }

  lemma SentWhole<T>(c: Chain<T>)
    requires |c.nodes| == 1 && !c.nodes[0].freed && c.sender.SInRing? && c.sender.node == 0 && c.nodes[0].ring.sender == R.SDone(R.Sent)
    ensures AdvanceSend(c) == c.(sender := SDone(c.sender.call, Accepted))
  {
  }

  // ---------------------------------------------------------------- one receive

  lemma {:induction false} FirstReceived<T>(r: R.Ring<T>, n: nat) returns (k: nat)
    requires P.RecvAlone(r, n).receiver.RDone?
    ensures k <= n && P.RecvAlone(r, k) == P.RecvAlone(r, n) && forall i :: 0 <= i < k ==> !P.RecvAlone(r, i).receiver.RDone?
  {
    hide R.AdvanceRecv;
    k := 0;
    while !P.RecvAlone(r, k).receiver.RDone?
      invariant k <= n && forall i :: 0 <= i < k ==> !P.RecvAlone(r, i).receiver.RDone?
      decreases n - k
    {
      k := k + 1;
    }
    ReceivedStays(r, k, n);
  }

  lemma {:induction false} ReceivedStays<T>(r: R.Ring<T>, k: nat, n: nat)
    requires k <= n && P.RecvAlone(r, k).receiver.RDone?
    ensures P.RecvAlone(r, n) == P.RecvAlone(r, k)
  {
    if k < n {
      ReceivedStays(r, k, n - 1);
    }
  }

  lemma {:induction false} InRingReceives<T>(c: Chain<T>, k: nat)
    requires |c.nodes| == 1 && !c.nodes[0].freed && c.receiver.RInRing? && c.receiver.node == 0
    requires forall i :: 0 <= i < k ==> !P.RecvAlone(c.nodes[0].ring, i).receiver.RDone?
    ensures Inside(c, RecvAlone(c, k), P.RecvAlone(c.nodes[0].ring, k))
  {
    hide R.AdvanceRecv, AdvanceRecv;
    if k > 0 {
      InRingReceives(c, k - 1);
      OutRingStep(RecvAlone(c, k - 1));
    }
  }

  lemma OutRingStep<T>(c: Chain<T>)
    requires |c.nodes| == 1 && !c.nodes[0].freed && c.receiver.RInRing? && c.receiver.node == 0 && !c.nodes[0].ring.receiver.RDone?
    ensures Inside(c, AdvanceRecv(c), R.AdvanceRecv(c.nodes[0].ring))
  {
    hide R.AdvanceRecv;
  }

  lemma StartedOut<T>(c: Chain<T>)
    requires OneRing(c)
    ensures var c1, r := Next(c, StartRecv), R.Next(c.nodes[0].ring, R.StartRecv(true));
      && |c1.nodes| == 1 && c1.nodes[0] == c.nodes[0].(ring := r) && !c1.nodes[0].freed && c1.receiver.RInRing? && c1.receiver.node == 0
      && c1.sender == c.sender && c1.userClosed == c.userClosed
      && RI.Inv(r) && r.receiver == R.RLap(true, false) && r.sent == c.nodes[0].ring.sent && r.received == c.nodes[0].ring.received
      && |r.slots| == |c.nodes[0].ring.slots| && RI.R(r) == |r.received| && RI.P(r) == |r.sent|
  {
    OneRingRests(c);
    RI.StepKeepsInv(c.nodes[0].ring, R.StartRecv(true));
    hide Inv, RI.Inv;
  }

  lemma {:induction false} SameSent<T>(r: R.Ring<T>, n: nat)
    ensures |P.RecvAlone(r, n).slots| == |r.slots| && P.RecvAlone(r, n).sent == r.sent
  {
    if n > 0 {
      SameSent(r, n - 1);
      P.SenderKept(P.RecvAlone(r, n - 1));
      RecvSize(P.RecvAlone(r, n - 1));
      hide R.AdvanceRecv;
    }
  }

  lemma RecvSize<T>(r: R.Ring<T>)
    ensures |R.AdvanceRecv(r).slots| == |r.slots|
  {
  }

  lemma ReceivedWhole<T>(c: Chain<T>)
    requires |c.nodes| == 1 && !c.nodes[0].freed && c.receiver.RInRing? && c.receiver.node == 0
    requires c.nodes[0].ring.receiver.RDone? && c.nodes[0].ring.receiver.recvResult.Received?
    ensures AdvanceRecv(c) == c.(receiver := RDone(c.receiver.got, Got(c.nodes[0].ring.receiver.recvResult.msg)))
  {
  }

  lemma RecvOne<T>(c: Chain<T>) returns (run: seq<Action<T>>)
    requires OneRing(c) && |c.nodes[0].ring.received| < |c.nodes[0].ring.sent|
    ensures
      var c' := Exec(c, run);
      && OneRing(c')
      && c'.nodes[0].ring.sent == c.nodes[0].ring.sent && |c'.nodes[0].ring.received| == |c.nodes[0].ring.received| + 1
      && |c'.nodes[0].ring.slots| == |c.nodes[0].ring.slots|
  {
    var n := RecvSteps(c);
    run := [StartRecv] + seq(n, _ => StepRecv);
    ExecCall(c, StartRecv, n);
    RunKeepsInv(c, run);
    hide Inv, Next, Exec;
  }

  lemma RecvSteps<T>(c: Chain<T>) returns (n: nat)
    requires OneRing(c) && |c.nodes[0].ring.received| < |c.nodes[0].ring.sent|
    ensures
      var c' := RecvAlone(Next(c, StartRecv), n);
      && |c'.nodes| == 1 && !c'.userClosed && c'.receiver.RDone? && c'.sender == c.sender
      && c'.nodes[0].ring.sent == c.nodes[0].ring.sent && |c'.nodes[0].ring.received| == |c.nodes[0].ring.received| + 1
      && |c'.nodes[0].ring.slots| == |c.nodes[0].ring.slots|
  {
    var c1, r := Next(c, StartRecv), R.Next(c.nodes[0].ring, R.StartRecv(true));
    StartedOut(c);
    hide Inv, OneRing, Next, R.Next, AdvanceRecv, RI.Inv, RI.R, RI.P;
    var k := OutOfRing(c1);
    n := k + 1;
  }

  lemma OutOfRing<T>(c: Chain<T>) returns (k: nat)
    requires |c.nodes| == 1 && !c.nodes[0].freed && c.receiver.RInRing? && c.receiver.node == 0
    requires var r := c.nodes[0].ring; RI.Inv(r) && r.receiver == R.RLap(true, false) && RI.R(r) < RI.P(r)
    ensures
      var c', r := AdvanceRecv(RecvAlone(c, k)), c.nodes[0].ring;
      && |c'.nodes| == 1 && c'.userClosed == c.userClosed && c'.receiver.RDone? && c'.sender == c.sender
      && c'.nodes[0].ring.sent == r.sent && |c'.nodes[0].ring.received| == |r.received| + 1
      && |c'.nodes[0].ring.slots| == |r.slots|
  {
    var r := c.nodes[0].ring;
    P.RecvComesBack(r);
    SameSent(r, 8);
    k := FirstReceived(r, 8);
    InRingReceives(c, k);
    hide RI.Inv, RecvAlone, P.RecvAlone, AdvanceRecv, RI.R, RI.P;
    ReceivedWhole(RecvAlone(c, k));
  }

  // ---------------------------------------------------------------- up to the wrapped lap

  /** k messages sent and received one at a time. */
  lemma {:induction false} RoundTrips<T>(c: Chain<T>, msg: T, k: nat) returns (run: seq<Action<T>>)
    requires OneRing(c) && |c.nodes[0].ring.sent| == |c.nodes[0].ring.received|
    ensures
      var c' := Exec(c, run);
      && OneRing(c')
      && |c'.nodes[0].ring.sent| == |c'.nodes[0].ring.received| == |c.nodes[0].ring.sent| + k
      && |c'.nodes[0].ring.slots| == |c.nodes[0].ring.slots|
    decreases k
  {
    run := [];
    if k > 0 {
      var pre := RoundTrips(c, msg, k - 1);
      var c1 := Exec(c, pre);
      RoomAfterTrip(c1);
      hide OneRing, Exec, Th.TailUnread;
      var send := SendOne(c1, msg);
      var recv := RecvOne(Exec(c1, send));
      ExecConcat(c1, send, recv);
      run := pre + (send + recv);
      ExecConcat(c, pre, send + recv);
    }
  }

  lemma RoomAfterTrip<T>(c: Chain<T>)
    requires OneRing(c)
    requires |c.nodes[0].ring.sent| == |c.nodes[0].ring.received| || |c.nodes[0].ring.sent| < |c.nodes[0].ring.received| + |c.nodes[0].ring.slots|
    ensures !Th.TailUnread(c.nodes[0].ring)
  {
    OneRingRests(c);
    assert RI.Counts(c.nodes[0].ring);
    hide Inv;
  }

  lemma {:induction false} Sends<T>(c: Chain<T>, msg: T, k: nat) returns (run: seq<Action<T>>)
    requires OneRing(c) && |c.nodes[0].ring.sent| + k <= |c.nodes[0].ring.received| + |c.nodes[0].ring.slots|
    ensures
      var c' := Exec(c, run);
      && OneRing(c')
      && |c'.nodes[0].ring.sent| == |c.nodes[0].ring.sent| + k && |c'.nodes[0].ring.received| == |c.nodes[0].ring.received|
      && |c'.nodes[0].ring.slots| == |c.nodes[0].ring.slots|
    decreases k
  {
    run := [];
    if k > 0 {
      var pre := Sends(c, msg, k - 1);
      RoomAfterTrip(Exec(c, pre));
      hide OneRing, Exec, Th.TailUnread;
      var send := SendOne(Exec(c, pre), msg);
      run := pre + send;
      ExecConcat(c, pre, send);
    }
  }

  lemma InitOneRing<T>()
    ensures OneRing(Init<T>()) && |Init<T>().nodes[0].ring.slots| == SUB_QUEUE_SIZE
    ensures Init<T>().nodes[0].ring.sent == [] && Init<T>().nodes[0].ring.received == []
  {
    InitInv<T>();
  }

  lemma StartSpinning<T>(c: Chain<T>, msg: T)
    requires OneRing(c) && |c.nodes[0].ring.slots| > 0 && Th.LapWrapped(c.nodes[0].ring)
    ensures var c' := Next(c, StartSend(msg));
      c'.sender == SLoadTail(Call(msg, c.accepted)) && !c'.userClosed && forall n :: !SendAlone(c', n).sender.SDone?
  {
    var c' := Next(c, StartSend(msg));
    OneRingRests(c);
    StartSendKeepsInv(c, msg);
    SendComesBack(c');
  }

  /**
   One ring can take more than 2^31 turns of it: messages sent and received one at a time never fill it. Filled in its wrapped
   lap it makes the next `send`, alone and on an open queue, go round for ever where it should link a fresh ring.
   */
  lemma SpinReachable<T>(msg: T) returns (run: seq<Action<T>>)
    ensures var c := Exec(Init(), run);
      c.sender.SLoadTail? && c.sender.call.msg == msg && !c.userClosed && forall n :: !SendAlone(c, n).sender.SDone?
  {
    hide Next, Exec, OneRing, Th.LapWrapped;
    var init := Init<T>();
    InitOneRing<T>();
    var rounds := RoundTrips(init, msg, 0x7FFF_FFFF * SUB_QUEUE_SIZE);
    var fill := Sends(Exec(init, rounds), msg, SUB_QUEUE_SIZE);
    ExecConcat(init, rounds, fill);
    var c := Exec(init, rounds + fill);
    OneRingRests(c);
    Th.FullTurnsWrap(c.nodes[0].ring);
    StartSpinning(c, msg);
    run := (rounds + fill) + [StartSend(msg)];
    ExecConcat(init, rounds + fill, [StartSend(msg)]);
    assert Exec(c, [StartSend(msg)]) == Next(c, StartSend(msg)) by {
      ExecCall(c, StartSend(msg), 0);
      assert [StartSend(msg)] + seq(0, _ => StepSend) == [StartSend(msg)];
    }
  }
}
