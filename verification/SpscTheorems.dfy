/** What the SPSC ring promises over runs of any length, and exactly when `try_send` comes back. */
module SpscTheorems {
  import opened Words
  import opened Options
  import opened Elem
  import opened Tickets
  import opened SpscRing
  import opened SpscInvariant

  // ---------------------------------------------------------------- runs

  /** What no step undoes. */
  ghost predicate Grows<T>(s: Ring<T>, s': Ring<T>) {
    && |s'.slots| == |s.slots|
    && s.sent <= s'.sent && s.received <= s'.received
    && Q(s) <= Q(s')
    && (s.closed ==> s'.closed)
  }

  lemma StepGrows<T>(s: Ring<T>, a: Action<T>)
    requires Inv(s)
    ensures Grows(s, Next(s, a))
  {
    if a.StepRecv? {
      RecvGrows(s);
    } else if a.StepSend? {
      assert Q(AdvanceSend(s)) == Q(s);
    }
  }

  lemma RecvGrows<T>(s: Ring<T>)
    requires Inv(s)
    ensures Grows(s, AdvanceRecv(s))
  {
    if s.receiver.RRead? {
      assert TicketOk(s, Q(s));
    } else if !s.receiver.RRelease? {
      HeadLap(s);
    }
  }

  lemma {:induction false} RunGrows<T>(s: Ring<T>, run: seq<Action<T>>)
    requires Inv(s)
    ensures Grows(s, Exec(s, run))
  {
    if run != [] {
      RunGrows(s, run[..|run| - 1]);
      RunKeepsInv(s, run[..|run| - 1]);
      StepGrows(Exec(s, run[..|run| - 1]), run[|run| - 1]);
    }
  }

  /**
   FIFO and no undefined behaviour in runs of any length: what was received is a prefix of what was sent,
   at most one turn behind; the two claim windows never share a slot; a write finds its slot
   empty and a read finds the message of its ticket.
   */
  lemma {:induction false} Fifo<T>(cap: U32, run: seq<Action<T>>)
    requires cap <= MAX_CAPACITY
    ensures var s := Exec(Init(cap), run);
      && |s.slots| == (if cap > 0 then cap else 1)
      && s.received <= s.sent && |s.sent| <= R(s) + |s.slots|
      && !s.sender.SUndefined? && !s.receiver.RUndefined?
      && (SendWindow(s) ==> s.sender.claim.idx < |s.slots|)
      && (RecvWindow(s) ==> s.receiver.claim.idx < |s.slots|)
      && (s.sender.SWrite? ==> s.slots[s.sender.claim.idx].msg == None)
      && (s.receiver.RRead? ==> |s.received| < |s.sent| && s.slots[s.receiver.claim.idx].msg == Some(s.sent[|s.received|]))
      && (SendWindow(s) && RecvWindow(s) ==> s.sender.claim.idx != s.receiver.claim.idx)
  {
    InitInv<T>(cap);
    RunKeepsInv(Init<T>(cap), run);
    RunGrows(Init<T>(cap), run);
    var s := Exec(Init<T>(cap), run);
    assert TicketOk(s, Q(s));
    if SendWindow(s) {
      assert TicketOk(s, P(s));
      if RecvWindow(s) {
        OtherSlots(s, Q(s), P(s));
      }
    }
  }

  // ---------------------------------------------------------------- what the answers mean

  /** The slot at the tail still belongs to the ticket one turn back. */
  ghost predicate TailUnread<T>(s: Ring<T>) {
    |s.sent| == Q(s) + |s.slots|
  }

  /** The 32-bit write lap of the tail is 0 although the ring has been round: its slot's unread lap is 2^32 - 1. */
  ghost predicate LapWrapped<T>(s: Ring<T>)
    requires |s.slots| > 0
  {
    TailUnread(s) && WriteLap(|s.sent|, |s.slots|) == 0
  }

  /** A lap load of an open send: claim, recheck or go round, by the state of the tail slot alone. */
  lemma SendDecision<T>(s: Ring<T>)
    requires Inv(s) && s.sender.SLap?
    ensures AdvanceSend(s).sender.SWrite? <==> !TailUnread(s)
    ensures AdvanceSend(s).sender.SRelap? <==> TailUnread(s) && !LapWrapped(s)
    ensures AdvanceSend(s).sender.SCheck? <==> LapWrapped(s)
    ensures AdvanceSend(s).sent == if TailUnread(s) then s.sent else s.sent + [s.sender.msg]
  {
    TailLap(s);
  }

  /** Full is reported exactly when the tail slot is unread, except in the wrapped lap. */
  lemma FullExact<T>(s: Ring<T>)
    requires Inv(s) && s.sender.SRelap?
    ensures AdvanceSend(s).sender == NoRoom(s.sender.msg, s.sender.blocking) <==> TailUnread(s) && !LapWrapped(s)
    ensures AdvanceSend(s).sender == SCheck(s.sender.msg, s.sender.blocking) <==> !TailUnread(s) || LapWrapped(s)
  {
    TailLap(s);
  }

  /** Receiving is exact in every lap: a claim if the head ticket is published, else Empty; it never goes round. */
  lemma RecvDecision<T>(s: Ring<T>)
    requires Inv(s) && (s.receiver.RLap? || s.receiver.RRelap?)
    ensures s.receiver.RLap? ==> (AdvanceRecv(s).receiver.RRead? <==> R(s) < P(s))
    ensures s.receiver.RLap? ==> (AdvanceRecv(s).receiver.RRelap? <==> R(s) == P(s))
    ensures s.receiver.RRelap? ==>
      (AdvanceRecv(s).receiver == NothingToRead(s.receiver.blocking, s.receiver.sawClosed) <==> R(s) == P(s))
    ensures s.receiver.RRelap? ==> (AdvanceRecv(s).receiver == RLap(s.receiver.blocking, s.receiver.sawClosed) <==> R(s) < P(s))
  {
    HeadLap(s);
  }

  /** `recv` gives up only on a closed queue, and then has received everything but a send still in flight. */
  lemma RecvErrorMeaning<T>(s: Ring<T>, a: Action<T>)
    requires Inv(s) && s.receiver != RDone(RecvError) && Next(s, a).receiver == RDone(RecvError)
    ensures s.closed
    ensures SendWindow(s) || s.received == s.sent
  {
    assert a.StepRecv? && s.receiver.RRelap?;
    RecvDecision(s);
  }

  /** The sender took a step. */
  predicate Stepped<T>(run: seq<Action<T>>) {
    exists i :: 0 <= i < |run| && run[i].StepSend?
  }

  lemma SteppedSnoc<T>(run: seq<Action<T>>)
    requires run != []
    ensures Stepped(run) <==> Stepped(run[..|run| - 1]) || run[|run| - 1].StepSend?
  {
    if Stepped(run) && !run[|run| - 1].StepSend? {
      var i :| 0 <= i < |run| && run[i].StepSend?;
      assert run[..|run| - 1][i].StepSend?;
    }
  }

  /** A send that began on a closed queue: turned away, or still to look at the flag. */
  ghost predicate TurnsAway<T>(s: Ring<T>, msg: T, blocking: bool, stepped: bool) {
    s.closed && s.sender == if stepped then SDone(Disconnected(msg)) else SCheck(msg, blocking)
  }

  lemma TurnsAwayStep<T>(s: Ring<T>, msg: T, blocking: bool, stepped: bool, a: Action<T>)
    requires TurnsAway(s, msg, blocking, stepped) && !a.StartSend?
    ensures TurnsAway(Next(s, a), msg, blocking, stepped || a.StepSend?) && Next(s, a).sent == s.sent
  {
  }

  /**
   A send begun on a closed queue, blocking or not, comes back with its message as soon as it takes a step, whatever
   the receiver and the closers do meanwhile; nothing is sent.
   */
  lemma {:induction false} SendStartedAfterClose<T>(s: Ring<T>, msg: T, blocking: bool, run: seq<Action<T>>)
    requires s.closed && (s.sender.SIdle? || s.sender.SDone?)
    requires forall i :: 0 <= i < |run| ==> !run[i].StartSend?
    ensures TurnsAway(Exec(Next(s, StartSend(msg, blocking)), run), msg, blocking, Stepped(run))
    ensures Exec(Next(s, StartSend(msg, blocking)), run).sent == s.sent
  {
    if run != [] {
      var n := |run| - 1;
      SendStartedAfterClose(s, msg, blocking, run[..n]);
      hide TurnsAway, Next, Stepped;
      SteppedSnoc(run);
      TurnsAwayStep(Exec(Next(s, StartSend(msg, blocking)), run[..n]), msg, blocking, Stepped(run[..n]), run[n]);
    }
  }

  /** What was claimed, and the send that has passed its look at the closed flag. */
  ghost function Promised<T>(s: Ring<T>): nat {
    |s.sent| + if s.sender.SLap? then 1 else 0
  }

  lemma StepKeepsPromise<T>(s: Ring<T>, a: Action<T>)
    requires Inv(s) && s.closed
    ensures Next(s, a).closed && Promised(Next(s, a)) <= Promised(s)
  {
    if a.StepSend? && s.sender.SLap? {
      SendDecision(s);
    }
  }

  /** So a close does not stop all sends: the one, if any, that had looked at the flag before may still succeed, and no other. */
  lemma {:induction false} SendsPastClose<T>(s: Ring<T>, run: seq<Action<T>>)
    requires Inv(s) && s.closed
    ensures Exec(s, run).closed && s.sent <= Exec(s, run).sent
    ensures |Exec(s, run).sent| <= |s.sent| + if s.sender.SLap? then 1 else 0
  {
    RunGrows(s, run);
    PromiseKept(s, run);
  }

  lemma {:induction false} PromiseKept<T>(s: Ring<T>, run: seq<Action<T>>)
    requires Inv(s) && s.closed
    ensures Exec(s, run).closed && Promised(Exec(s, run)) <= Promised(s)
  {
    if run != [] {
      PromiseKept(s, run[..|run| - 1]);
      RunKeepsInv(s, run[..|run| - 1]);
      StepKeepsPromise(Exec(s, run[..|run| - 1]), run[|run| - 1]);
    }
  }

  /** And it does succeed exactly when its slot is free. */
  lemma SendPastCloseExact<T>(s: Ring<T>, a: Action<T>)
    requires Inv(s) && s.closed
    ensures Next(s, a).sent != s.sent <==> a.StepSend? && s.sender.SLap? && !TailUnread(s)
  {
    if a.StepSend? && s.sender.SLap? {
      SendDecision(s);
    }
  }

  // ---------------------------------------------------------------- when try_send comes back

  /** The sender going round its loop on an unread slot in the wrapped lap of an open queue. */
  ghost predicate Spinning<T>(s: Ring<T>)
    requires |s.slots| > 0
  {
    !s.closed && LapWrapped(s) && (s.sender.SCheck? || s.sender.SLap?)
  }

  /** Whatever happens, it goes round until the slot is released or the queue is closed. */
  lemma {:induction false} SpinsOn<T>(s: Ring<T>, run: seq<Action<T>>)
    requires Inv(s) && Spinning(s)
    ensures Inv(Exec(s, run))
    ensures Q(Exec(s, run)) == Q(s) && !Exec(s, run).closed ==>
      Spinning(Exec(s, run)) && Exec(s, run).sender.msg == s.sender.msg
  {
    RunKeepsInv(s, run);
    if run != [] {
      var pre, a := run[..|run| - 1], run[|run| - 1];
      SpinsOn(s, pre);
      RunGrows(s, pre);
      StepGrows(Exec(s, pre), a);
      if Q(Exec(s, run)) == Q(s) && !Exec(s, run).closed {
        SpinStep(Exec(s, pre), a);
      }
    }
  }

  lemma SpinStep<T>(s: Ring<T>, a: Action<T>)
    requires Inv(s) && Spinning(s) && Q(Next(s, a)) == Q(s) && !Next(s, a).closed
    ensures |Next(s, a).slots| > 0 && Spinning(Next(s, a)) && Next(s, a).sender.msg == s.sender.msg
  {
    StepKeepsInv(s, a);
    if a.StepSend? && s.sender.SLap? {
      SendDecision(s);
    }
    TailLap(s);
    assert Next(s, a).sent == s.sent;
  }

  /** n steps of the sender, with nobody else moving. */
  function SendAlone<T>(s: Ring<T>, n: nat): Ring<T> {
    if n == 0 then s else AdvanceSend(SendAlone(s, n - 1))
  }

  lemma {:induction false} SpinsAlone<T>(s: Ring<T>, n: nat)
    requires Inv(s) && Spinning(s)
    ensures Inv(SendAlone(s, n)) && Spinning(SendAlone(s, n))
  {
    if n > 0 {
      SpinsAlone(s, n - 1);
      var pre := SendAlone(s, n - 1);
      StepKeepsInv(pre, StepSend);
      TailLap(pre);
      SpinStep(pre, StepSend);
    }
  }

  /**
   `try_send` running alone comes back if and only if the queue is closed, or its tail slot is free, or
   its write lap is not the wrapped one. It then answers by those conditions, in at most five steps.
   */
  lemma TrySendComesBack<T>(s: Ring<T>)
    requires Inv(s) && s.sender.SCheck? && !s.sender.blocking
    ensures (exists n :: SendAlone(s, n).sender.SDone?) <==> s.closed || !LapWrapped(s)
    ensures s.closed || !LapWrapped(s) ==>
      && SendAlone(s, 5).sender == SDone(if s.closed then Disconnected(s.sender.msg) else if TailUnread(s) then SendResult.Full(s.sender.msg) else Sent)
      && SendAlone(s, 5).sent == if s.closed || TailUnread(s) then s.sent else s.sent + [s.sender.msg]
  {
    if s.closed || !LapWrapped(s) {
      FiveSteps(s);
    } else {
      forall n: nat ensures !SendAlone(s, n).sender.SDone? {
        SpinsAlone(s, n);
      }
    }
  }

  lemma SendAloneTwice<T>(s: Ring<T>, n: nat)
    ensures SendAlone(s, n + 1) == SendAlone(AdvanceSend(s), n)
  {
    if n > 0 {
      SendAloneTwice(s, n - 1);
    }
  }

  /** From the claim on, a send needs two more steps. */
  lemma FinishClaim<T>(s: Ring<T>)
    requires Inv(s) && s.sender.SWrite?
    ensures SendAlone(s, 2).sender == SDone(Sent) && SendAlone(s, 2).sent == s.sent
    ensures SendAlone(s, 3) == SendAlone(s, 2)
  {
    assert TicketOk(s, P(s));
    assert SendAlone(s, 1) == AdvanceSend(SendAlone(s, 0));
  }

  lemma FiveSteps<T>(s: Ring<T>)
    requires Inv(s) && s.sender.SCheck? && !s.sender.blocking && (s.closed || !LapWrapped(s))
    ensures SendAlone(s, 5).sender == SDone(if s.closed then Disconnected(s.sender.msg) else if TailUnread(s) then SendResult.Full(s.sender.msg) else Sent)
    ensures SendAlone(s, 5).sent == if s.closed || TailUnread(s) then s.sent else s.sent + [s.sender.msg]
  {
    var s1 := AdvanceSend(s);
    SendAloneTwice(s, 4);
    StepKeepsInv(s, StepSend);
    if s.closed {
      AtRestStays(s1, 4);
    } else {
      FourSteps(s1);
    }
  }

  lemma FourSteps<T>(s: Ring<T>)
    requires Inv(s) && s.sender.SLap? && !s.sender.blocking && !LapWrapped(s)
    ensures SendAlone(s, 4).sender == SDone(if TailUnread(s) then SendResult.Full(s.sender.msg) else Sent)
    ensures SendAlone(s, 4).sent == if TailUnread(s) then s.sent else s.sent + [s.sender.msg]
  {
    var s1 := AdvanceSend(s);
    SendAloneTwice(s, 3);
    SendDecision(s);
    StepKeepsInv(s, StepSend);
    if TailUnread(s) {
      RecheckSteps(s1);
    } else {
      FinishClaim(s1);
    }
  }

  lemma RecheckSteps<T>(s: Ring<T>)
    requires Inv(s) && s.sender.SRelap? && !s.sender.blocking && TailUnread(s) && !LapWrapped(s)
    ensures SendAlone(s, 3).sender == SDone(SendResult.Full(s.sender.msg)) && SendAlone(s, 3).sent == s.sent
  {
    SendAloneTwice(s, 2);
    FullExact(s);
    AtRestStays(AdvanceSend(s), 2);
  }

  lemma AtRestStays<T>(s: Ring<T>, n: nat)
    requires s.sender.SDone?
    ensures SendAlone(s, n) == s
  {
    if n > 0 {
      AtRestStays(s, n - 1);
    }
  }

  // ---------------------------------------------------------------- the wrapped lap is reached

  lemma {:induction false} ExecConcat<T>(s: Ring<T>, run: seq<Action<T>>, more: seq<Action<T>>)
    ensures Exec(s, run + more) == Exec(Exec(s, run), more)
  {
    if more == [] {
      assert run + more == run;
    } else {
      assert (run + more)[..|run + more| - 1] == run + more[..|more| - 1];
      ExecConcat(s, run, more[..|more| - 1]);
    }
  }

  lemma ExecSendAlone<T>(s: Ring<T>, n: nat)
    ensures Exec(s, seq(n, _ => StepSend)) == SendAlone(s, n)
    ensures SendAlone(s, n) == s.(slots := SendAlone(s, n).slots, writeMeta := SendAlone(s, n).writeMeta, sender := SendAlone(s, n).sender, sent := SendAlone(s, n).sent)
  {
    if n > 0 {
      assert seq(n, _ => Action<T>.StepSend)[..n - 1] == seq(n - 1, _ => Action<T>.StepSend);
      ExecSendAlone(s, n - 1);
    }
  }

  /** The send that a close does not stop occurs, at every capacity: look, close, claim. */
  lemma {:induction false} SendPastCloseReachable<T>(cap: U32, msg: T)
    requires cap <= MAX_CAPACITY
    ensures var s := Exec(Init(cap), [StartSend(msg, false), StepSend, Close]);
      s.closed && s.sent == [] && Next(s, StepSend).sent == [msg]
  {
    var init := Init<T>(cap);
    var run := [StartSend(msg, false), StepSend, Close];
    assert run == [] + [StartSend(msg, false)] + [StepSend] + [Close];
    ExecSnoc(init, [], StartSend(msg, false));
    ExecSnoc(init, [] + [StartSend(msg, false)], StepSend);
    ExecSnoc(init, [] + [StartSend(msg, false)] + [StepSend], Close);
    InitInv<T>(cap);
    RunKeepsInv(init, run);
    var s := Exec(init, run);
    SendDecision(s);
  }

  /** Both threads between calls, on an open queue. */
  ghost predicate Resting<T>(s: Ring<T>) {
    && Inv(s) && !s.closed
    && (s.sender.SIdle? || s.sender.SDone?) && (s.receiver.RIdle? || s.receiver.RDone?)
  }

  /** A `try_send` with room. */
  lemma SendOne<T>(s: Ring<T>, msg: T) returns (run: seq<Action<T>>)
    requires Resting(s) && !TailUnread(s)
    ensures Resting(Exec(s, run)) && Exec(s, run).sent == s.sent + [msg] && Exec(s, run).received == s.received
    ensures |Exec(s, run).slots| == |s.slots|
  {
    var start := Next(s, StartSend(msg, false));
    StepKeepsInv(s, StartSend(msg, false));
    run := [StartSend(msg, false)] + seq(5, _ => StepSend);
    assert Exec(s, [StartSend(msg, false)]) == Next(Exec(s, []), StartSend(msg, false));
    ExecConcat(s, [StartSend(msg, false)], seq(5, _ => StepSend));
    ExecSendAlone(start, 5);
    FiveSteps(start);
    RunKeepsInv(s, run);
    RunGrows(s, run);
  }

  lemma {:induction false} ExecSnoc<T>(s: Ring<T>, run: seq<Action<T>>, a: Action<T>)
    ensures Exec(s, run + [a]) == Next(Exec(s, run), a)
  {
    assert (run + [a])[..|run|] == run;
  }

  lemma ExecFour<T>(s: Ring<T>, a: Action<T>, b: Action<T>, c: Action<T>, d: Action<T>)
    ensures Exec(s, [] + [a] + [b] + [c] + [d]) == Next(Next(Next(Next(s, a), b), c), d)
  {
    hide Next;
    ExecSnoc(s, [], a);
    ExecSnoc(s, [] + [a], b);
    ExecSnoc(s, [] + [a] + [b], c);
    ExecSnoc(s, [] + [a] + [b] + [c], d);
  }

  /** From the claim on, a receive needs two more steps. */
  lemma FinishRecv<T>(s: Ring<T>)
    requires Inv(s) && s.receiver.RRead?
    ensures |s.received| < |s.sent|
    ensures AdvanceRecv(AdvanceRecv(s)).receiver == RDone(Received(s.sent[|s.received|]))
    ensures AdvanceRecv(AdvanceRecv(s)).received == s.received + [s.sent[|s.received|]]
    ensures AdvanceRecv(AdvanceRecv(s)).sent == s.sent && AdvanceRecv(AdvanceRecv(s)).sender == s.sender
    ensures AdvanceRecv(AdvanceRecv(s)).closed == s.closed && |AdvanceRecv(AdvanceRecv(s)).slots| == |s.slots|
  {
    assert TicketOk(s, Q(s));
  }

  /** A `try_recv` with a message published. */
  lemma RecvOne<T>(s: Ring<T>) returns (run: seq<Action<T>>)
    requires Resting(s) && |s.received| < |s.sent|
    ensures Resting(Exec(s, run)) && Exec(s, run).sent == s.sent && Exec(s, run).received == s.received + [s.sent[|s.received|]]
    ensures |Exec(s, run).slots| == |s.slots|
  {
    var start := Next(s, StartRecv(false));
    StepKeepsInv(s, StartRecv(false));
    RecvDecision(start);
    StepKeepsInv(start, StepRecv);
    FinishRecv(AdvanceRecv(start));
    run := [] + [StartRecv(false)] + [StepRecv] + [StepRecv] + [StepRecv];
    ExecFour(s, StartRecv(false), StepRecv, StepRecv, StepRecv);
    RunKeepsInv(s, run);
  }

  /** k messages sent and received one at a time. */
  lemma {:induction false} RoundTrips<T>(s: Ring<T>, msg: T, k: nat) returns (run: seq<Action<T>>)
    requires Resting(s) && s.sent == s.received
    ensures Resting(Exec(s, run)) && |Exec(s, run).sent| == |s.sent| + k && Exec(s, run).sent == Exec(s, run).received
    ensures |Exec(s, run).slots| == |s.slots|
    decreases k
  {
    run := [];
    if k > 0 {
      var pre := RoundTrips(s, msg, k - 1);
      var s1 := Exec(s, pre);
      var send := SendOne(s1, msg);
      var s2 := Exec(s1, send);
      var recv := RecvOne(s2);
      ExecConcat(s1, send, recv);
      run := pre + (send + recv);
      ExecConcat(s, pre, send + recv);
    }
  }

  lemma {:induction false} Sends<T>(s: Ring<T>, msg: T, k: nat) returns (run: seq<Action<T>>)
    requires Resting(s) && |s.sent| + k <= |s.received| + |s.slots|
    ensures Resting(Exec(s, run)) && |Exec(s, run).sent| == |s.sent| + k && Exec(s, run).received == s.received
    ensures |Exec(s, run).slots| == |s.slots|
    decreases k
  {
    run := [];
    if k > 0 {
      var pre := Sends(s, msg, k - 1);
      var send := SendOne(Exec(s, pre), msg);
      run := pre + send;
      ExecConcat(s, pre, send);
    }
  }

  lemma StartSpinning<T>(s: Ring<T>, msg: T)
    requires Resting(s) && LapWrapped(s)
    ensures var s' := Next(s, StartSend(msg, false));
      |s'.slots| > 0 && Spinning(s') && s'.sender == SCheck(msg, false) && forall n :: !SendAlone(s', n).sender.SDone?
  {
    var s' := Next(s, StartSend(msg, false));
    StepKeepsInv(s, StartSend(msg, false));
    TrySendComesBack(s');
  }

  lemma FullTurnsWrap<T>(s: Ring<T>)
    requires Resting(s) && |s.sent| == 0x8000_0000 * |s.slots| && |s.received| == 0x7FFF_FFFF * |s.slots|
    ensures LapWrapped(s)
  {
    RoundBound(|s.sent|, |s.slots|, 0x8000_0000);
  }

  /** The spin is real: at every capacity a run of single sends and receives ends in a `try_send` that never comes back by itself. */
  lemma SpinReachable<T>(cap: U32, msg: T) returns (run: seq<Action<T>>)
    requires cap <= MAX_CAPACITY
    ensures var s := Exec(Init(cap), run);
      |s.slots| > 0 && Spinning(s) && s.sender == SCheck(msg, false) && forall n :: !SendAlone(s, n).sender.SDone?
  {
    hide Next, Exec, Inv, Spinning;
    var init := Init<T>(cap);
    InitInv<T>(cap);
    var c := |init.slots|;
    var rounds := RoundTrips(init, msg, 0x7FFF_FFFF * c);
    var fill := Sends(Exec(init, rounds), msg, c);
    ExecConcat(init, rounds, fill);
    FullTurnsWrap(Exec(init, rounds + fill));
    StartSpinning(Exec(init, rounds + fill), msg);
    run := (rounds + fill) + [StartSend(msg, false)];
    ExecSnoc(init, rounds + fill, StartSend(msg, false));
  }
}
