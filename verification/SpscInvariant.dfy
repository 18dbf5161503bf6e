/** What every step of the SPSC ring keeps, however often its 32-bit laps have wrapped. */
module SpscInvariant {
  import opened Words
  import opened Options
  import opened Elem
  import opened Tickets
  import opened SpscRing

  ghost function WriteLap(t: nat, cap: nat): U32
    requires cap > 0
  {
    (2 * RoundOf(t, cap)) % TWO32
  }

  ghost function ReadLap(t: nat, cap: nat): U32
    requires cap > 0
  {
    (2 * RoundOf(t, cap) + 1) % TWO32
  }

  ghost predicate SendWindow<T>(s: Ring<T>) {
    s.sender.SWrite? || s.sender.SPublish?
  }

  ghost predicate RecvWindow<T>(s: Ring<T>) {
    s.receiver.RRead? || s.receiver.RRelease?
  }

  // W, R: tickets claimed. P: tickets published. Q: tickets released.

  ghost function W<T>(s: Ring<T>): nat {
    |s.sent|
  }

  ghost function P<T>(s: Ring<T>): int {
    |s.sent| - if SendWindow(s) then 1 else 0
  }

  ghost function R<T>(s: Ring<T>): nat {
    |s.received| + if s.receiver.RRead? then 1 else 0
  }

  ghost function Q<T>(s: Ring<T>): int {
    R(s) - if RecvWindow(s) then 1 else 0
  }

  ghost predicate Counts<T>(s: Ring<T>) {
    && 0 < |s.slots| <= MAX_CAPACITY
    && 0 <= Q(s) <= R(s) <= P(s) <= W(s) <= Q(s) + |s.slots|
    && s.received <= s.sent
  }

  ghost predicate Metas<T>(s: Ring<T>)
    requires |s.slots| > 0
  {
    && s.writeMeta == Pack(WriteLap(W(s), |s.slots|), SlotOf(W(s), |s.slots|))
    && s.readMeta == Pack(ReadLap(R(s), |s.slots|), SlotOf(R(s), |s.slots|))
  }

  /** The slot of ticket t, for the tickets from the first unreleased one on: published ones are unread, the others released. */
  ghost predicate TicketOk<T>(s: Ring<T>, t: nat)
    requires Counts(s)
  {
    var i := SlotOf(t, |s.slots|);
    && i < |s.slots|
    && if t < P(s)
       then s.slots[i].lap == ReadLap(t, |s.slots|) && s.slots[i].msg == (if t < |s.received| then None else Some(s.sent[t]))
       else s.slots[i].lap == WriteLap(t, |s.slots|) && s.slots[i].msg == (if t < W(s) && s.sender.SPublish? then Some(s.sent[t]) else None)
  }

  ghost predicate SenderOk<T>(s: Ring<T>)
    requires Counts(s)
  {
    match s.sender
    case SWrite(msg, claim) => claim == Claim(WriteLap(P(s), |s.slots|), SlotOf(P(s), |s.slots|)) && msg == s.sent[P(s)]
    case SPublish(claim) => claim == Claim(WriteLap(P(s), |s.slots|), SlotOf(P(s), |s.slots|))
    case SDone(Disconnected(_)) => s.closed
    case SUndefined => false
    case _ => true
  }

  ghost predicate ReceiverOk<T>(s: Ring<T>)
    requires Counts(s)
  {
    match s.receiver
    case RLap(_, sawClosed) => sawClosed ==> s.closed
    case RRelap(_, sawClosed) => sawClosed ==> s.closed
    case RRead(claim) => claim == Claim(ReadLap(Q(s), |s.slots|), SlotOf(Q(s), |s.slots|))
    case RRelease(claim, msg) =>
      && claim == Claim(ReadLap(Q(s), |s.slots|), SlotOf(Q(s), |s.slots|))
      && Q(s) < |s.received| && msg == s.received[Q(s)]
    case RDone(Received(msg)) => s.received != [] && msg == s.received[|s.received| - 1]
    case RDone(RecvError) => s.closed
    case RUndefined => false
    case _ => true
  }

  ghost predicate Inv<T>(s: Ring<T>) {
    && Counts(s) && Metas(s) && SenderOk(s) && ReceiverOk(s)
    && forall t :: Q(s) <= t < Q(s) + |s.slots| ==> TicketOk(s, t)
  }

  lemma InitInv<T>(cap: U32)
    requires cap <= MAX_CAPACITY
    ensures Inv(Init<T>(cap))
  {
    var s := Init<T>(cap);
    RoundBound(0, |s.slots|, 0);
    forall t | 0 <= t < |s.slots| ensures TicketOk(s, t) {
      TicketRoundTrip(t, 0, 0, |s.slots|);
      RoundBound(t, |s.slots|, 0);
      RoundBound(t, |s.slots|, 1);
    }
    TicketRoundTrip(0, 0, 0, |s.slots|);
  }

  // ---------------------------------------------------------------- laps and metas

  /** Laps of one ticket, and of the ticket one turn later, modulo 2^32. */
  lemma LapFacts(t: nat, cap: nat)
    requires cap > 0
    ensures ReadLap(t, cap) == WriteLap(t, cap) + 1
    ensures WriteLap(t, cap) % 2 == 0
    ensures ReadLap(t, cap) == WrapAdd32(WriteLap(t, cap), 1)
    ensures WriteLap(t + cap, cap) == WrapAdd32(ReadLap(t, cap), 1)
    ensures WriteLap(t + cap, cap) == (if ReadLap(t, cap) == TWO32 - 1 then 0 else ReadLap(t, cap) + 1)
  {
    TurnTicket(t, cap);
    WrapLaps(RoundOf(t, cap));
  }

  lemma BumpWriteMeta(t: nat, cap: nat)
    requires 0 < cap <= MAX_CAPACITY
    ensures SlotOf(t, cap) < cap && 0 <= Pack(WriteLap(t, cap), SlotOf(t, cap)) < TWO64
    ensures LapOf(Pack(WriteLap(t, cap), SlotOf(t, cap))) == WriteLap(t, cap)
    ensures IdxOf(Pack(WriteLap(t, cap), SlotOf(t, cap))) == SlotOf(t, cap)
    ensures Bump(Pack(WriteLap(t, cap), SlotOf(t, cap)), cap) == Pack(WriteLap(t + 1, cap), SlotOf(t + 1, cap))
  {
    TicketRoundTrip(t, 0, 0, cap);
    SuccTicket(t, cap);
    WrapLaps(RoundOf(t, cap));
    Unpack(WriteLap(t, cap), SlotOf(t, cap));
    BumpPack(WriteLap(t, cap), SlotOf(t, cap), cap);
  }

  lemma BumpReadMeta(t: nat, cap: nat)
    requires 0 < cap <= MAX_CAPACITY
    ensures SlotOf(t, cap) < cap && 0 <= Pack(ReadLap(t, cap), SlotOf(t, cap)) < TWO64
    ensures LapOf(Pack(ReadLap(t, cap), SlotOf(t, cap))) == ReadLap(t, cap)
    ensures IdxOf(Pack(ReadLap(t, cap), SlotOf(t, cap))) == SlotOf(t, cap)
    ensures Bump(Pack(ReadLap(t, cap), SlotOf(t, cap)), cap) == Pack(ReadLap(t + 1, cap), SlotOf(t + 1, cap))
  {
    TicketRoundTrip(t, 0, 0, cap);
    SuccTicket(t, cap);
    WrapLaps(RoundOf(t, cap));
    Unpack(ReadLap(t, cap), SlotOf(t, cap));
    BumpPack(ReadLap(t, cap), SlotOf(t, cap), cap);
  }

  lemma BumpPack(lap: U32, idx: U32, cap: nat)
    requires idx < cap <= MAX_CAPACITY
    ensures 0 <= Pack(lap, idx) < TWO64
    ensures Bump(Pack(lap, idx), cap) == if idx + 1 < cap then Pack(lap, idx + 1) else Pack(WrapAdd32(lap, 2), 0)
  {
    Unpack(lap, idx);
    if idx + 1 < cap {
      Unpack(lap, idx + 1);
    }
  }

  /** The sender's slot carries its write lap exactly when it is released, else the lap one before. */
  lemma TailLap<T>(s: Ring<T>)
    requires Inv(s) && !SendWindow(s)
    ensures IdxOf(s.writeMeta) < |s.slots| && LapOf(s.writeMeta) == WriteLap(W(s), |s.slots|)
    ensures var lap, elemLap := LapOf(s.writeMeta), s.slots[IdxOf(s.writeMeta)].lap;
      if W(s) < Q(s) + |s.slots| then elemLap == lap && s.slots[IdxOf(s.writeMeta)].msg == None
      else elemLap == if lap == 0 then TWO32 - 1 else lap - 1
  {
    var cap := |s.slots|;
    BumpWriteMeta(W(s), cap);
    if W(s) < Q(s) + cap {
      assert TicketOk(s, W(s));
    } else {
      assert TicketOk(s, Q(s));
      TurnTicket(Q(s), cap);
      LapFacts(Q(s), cap);
    }
  }

  /** The receiver's slot carries its read lap exactly when it is published, else the lap one before. */
  lemma HeadLap<T>(s: Ring<T>)
    requires Inv(s) && !RecvWindow(s)
    ensures IdxOf(s.readMeta) < |s.slots| && LapOf(s.readMeta) == ReadLap(R(s), |s.slots|) >= 1
    ensures s.slots[IdxOf(s.readMeta)].lap == LapOf(s.readMeta) - if R(s) < P(s) then 0 else 1
    ensures R(s) < P(s) ==> s.slots[IdxOf(s.readMeta)].msg == Some(s.sent[R(s)])
  {
    BumpReadMeta(R(s), |s.slots|);
    assert TicketOk(s, R(s));
    LapFacts(R(s), |s.slots|);
  }

  // ---------------------------------------------------------------- steps

  lemma ClaimSendKeepsInv<T>(s: Ring<T>)
    requires Inv(s) && s.sender.SLap? && IdxOf(s.writeMeta) < |s.slots| && s.slots[IdxOf(s.writeMeta)].lap == LapOf(s.writeMeta)
    ensures Inv(ClaimSend(s, s.sender.msg))
  {
    var s' := ClaimSend(s, s.sender.msg);
    TailLap(s);
    BumpWriteMeta(W(s), |s.slots|);
    assert s'.sent[..W(s)] == s.sent;
    forall t | Q(s') <= t < Q(s') + |s'.slots| ensures TicketOk(s', t) {
      assert TicketOk(s, t);
    }
  }

  lemma ClaimRecvKeepsInv<T>(s: Ring<T>)
    requires Inv(s) && s.receiver.RLap? && IdxOf(s.readMeta) < |s.slots| && s.slots[IdxOf(s.readMeta)].lap == LapOf(s.readMeta)
    ensures Inv(ClaimRecv(s))
  {
    var s' := ClaimRecv(s);
    HeadLap(s);
    BumpReadMeta(R(s), |s.slots|);
    forall t | Q(s') <= t < Q(s') + |s'.slots| ensures TicketOk(s', t) {
      assert TicketOk(s, t);
    }
  }

  /** Tickets of the window other than u have other slots. */
  lemma OtherSlots<T>(s: Ring<T>, u: nat, t: nat)
    requires Inv(s) && Q(s) <= u < Q(s) + |s.slots| && Q(s) <= t < Q(s) + |s.slots| && t != u
    ensures SlotOf(t, |s.slots|) != SlotOf(u, |s.slots|)
  {
    if t < u { SlotsDistinct(t, u, |s.slots|); } else { SlotsDistinct(u, t, |s.slots|); }
  }

  lemma WriteKeepsInv<T>(s: Ring<T>)
    requires Inv(s) && s.sender.SWrite?
    ensures Inv(AdvanceSend(s))
  {
    var s' := AdvanceSend(s);
    assert TicketOk(s, P(s));
    forall t | Q(s') <= t < Q(s') + |s'.slots| ensures TicketOk(s', t) {
      assert TicketOk(s, t);
      if t != P(s) { OtherSlots(s, P(s), t); }
    }
  }

  lemma PublishTicket<T>(s: Ring<T>, t: nat)
    requires Inv(s) && s.sender.SPublish? && Q(s) <= t < Q(s) + |s.slots|
    ensures Counts(AdvanceSend(s)) && TicketOk(AdvanceSend(s), t)
  {
    hide WrapAdd32, WriteLap, ReadLap, SlotOf;
    assert TicketOk(s, P(s)) && TicketOk(s, t);
    if t == P(s) {
      LapFacts(t, |s.slots|);
    } else {
      OtherSlots(s, P(s), t);
    }
  }

  lemma PublishKeepsInv<T>(s: Ring<T>)
    requires Inv(s) && s.sender.SPublish?
    ensures Inv(AdvanceSend(s))
  {
    var s' := AdvanceSend(s);
    assert TicketOk(s, P(s));
    forall t | Q(s') <= t < Q(s') + |s'.slots| ensures TicketOk(s', t) {
      PublishTicket(s, t);
    }
  }

  lemma ReadKeepsInv<T>(s: Ring<T>)
    requires Inv(s) && s.receiver.RRead?
    ensures Inv(AdvanceRecv(s))
  {
    var s' := AdvanceRecv(s);
    assert TicketOk(s, Q(s));
    assert s'.received == s.sent[..Q(s) + 1];
    forall t | Q(s') <= t < Q(s') + |s'.slots| ensures TicketOk(s', t) {
      assert TicketOk(s, t);
      if t != Q(s) { OtherSlots(s, Q(s), t); }
    }
  }

  lemma ReleaseKeepsInv<T>(s: Ring<T>)
    requires Inv(s) && s.receiver.RRelease?
    ensures Inv(AdvanceRecv(s))
  {
    var s', u, cap := AdvanceRecv(s), Q(s), |s.slots|;
    assert TicketOk(s, u);
    LapFacts(u, cap);
    TurnTicket(u, cap);
    forall t | Q(s') <= t < Q(s') + cap ensures TicketOk(s', t) {
      if t < u + cap {
        assert TicketOk(s, t);
        OtherSlots(s, u, t);
      }
    }
  }

  /** Steps that leave slots, metas, histories and windows alone. */
  lemma LocalStep<T>(s: Ring<T>, s': Ring<T>)
    requires Inv(s)
    requires s' == s.(closed := s'.closed, sender := s'.sender, receiver := s'.receiver)
    requires s'.sender == s.sender || (!SendWindow(s) && !SendWindow(s'))
    requires s'.receiver == s.receiver || (!RecvWindow(s) && !RecvWindow(s'))
    requires SenderOk(s) ==> Counts(s') ==> SenderOk(s')
    requires ReceiverOk(s) ==> Counts(s') ==> ReceiverOk(s')
    ensures Inv(s')
  {
    forall t | Q(s') <= t < Q(s') + |s'.slots| ensures TicketOk(s', t) {
      assert TicketOk(s, t);
    }
  }

  lemma SendKeepsInv<T>(s: Ring<T>)
    requires Inv(s)
    ensures Inv(AdvanceSend(s))
  {
    if s.sender.SWrite? {
      WriteKeepsInv(s);
    } else if s.sender.SPublish? {
      PublishKeepsInv(s);
    } else {
      TailLap(s);
      if s.sender.SLap? && s.slots[IdxOf(s.writeMeta)].lap == LapOf(s.writeMeta) {
        ClaimSendKeepsInv(s);
      } else {
        LocalStep(s, AdvanceSend(s));
      }
    }
  }

  lemma RecvKeepsInv<T>(s: Ring<T>)
    requires Inv(s)
    ensures Inv(AdvanceRecv(s))
  {
    if s.receiver.RRead? {
      ReadKeepsInv(s);
    } else if s.receiver.RRelease? {
      ReleaseKeepsInv(s);
    } else {
      HeadLap(s);
      if s.receiver.RLap? && s.slots[IdxOf(s.readMeta)].lap == LapOf(s.readMeta) {
        ClaimRecvKeepsInv(s);
      } else {
        LocalStep(s, AdvanceRecv(s));
      }
    }
  }

  lemma StepKeepsInv<T>(s: Ring<T>, a: Action<T>)
    requires Inv(s)
    ensures Inv(Next(s, a))
  {
    match a
    case StepSend => SendKeepsInv(s);
    case StepRecv => RecvKeepsInv(s);
    case _ => LocalStep(s, Next(s, a));
  }

  lemma {:induction false} RunKeepsInv<T>(s: Ring<T>, run: seq<Action<T>>)
    requires Inv(s)
    ensures Inv(Exec(s, run))
  {
    if run != [] {
      RunKeepsInv(s, run[..|run| - 1]);
      StepKeepsInv(Exec(s, run[..|run| - 1]), run[|run| - 1]);
    }
  }
}
