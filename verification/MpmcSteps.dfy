/** Every step of the MPMC ring keeps its invariant; hence so does every run. */
module MpmcSteps {
  import opened Words
  import opened Options
  import opened Elem
  import opened Tickets
  import opened MpmcRing
  import opened MpmcInvariant

  lemma WindowIdx<T>(s: Ring<T>, o: nat)
    requires Inv(s) && o < |s.threads| && InWindow(s.threads[o])
    ensures s.threads[o].claim.idx < |s.slots|
  {
    assert ThreadOk(s, o, s.threads[o]);
    TicketRoundTrip(s.threads[o].claim.ticket, 0, 0, |s.slots|);
  }

  /** A step that leaves the slots and thread o alone. */
  lemma OtherThreadStable<T>(s: Ring<T>, s': Ring<T>, o: nat)
    requires Inv(s) && Shape(s') && Grows(s, s') && s'.slots == s.slots
    requires s.taken <= s'.taken
    requires o < |s.threads| && s'.threads[o] == s.threads[o]
    ensures ThreadOk(s', o, s'.threads[o])
  {
    assert ThreadOk(s, o, s.threads[o]);
    if InWindow(s.threads[o]) {
      WindowIdx(s, o);
    }
    ThreadStable(s, s', o, s.threads[o]);
  }

  /** A step that only moves a thread outside its claim windows. */
  lemma LocalStep<T>(s: Ring<T>, me: nat, pc: Pc<T>)
    requires Inv(s) && me < |s.threads|
    requires !InWindow(s.threads[me]) && !InWindow(pc) && ThreadOk(s, me, pc)
    ensures Inv(Goto(s, me, pc))
  {
    var s' := Goto(s, me, pc);
    forall i | 0 <= i < |s'.slots| ensures SlotOk(s', i) {
      assert SlotOk(s, i);
    }
    forall t | 0 <= t < |s'.taken| ensures TakenOk(s', t) {
      assert TakenOk(s, t);
    }
    forall o | 0 <= o < |s'.threads| && o != me ensures ThreadOk(s', o, s'.threads[o]) {
      OtherThreadStable(s, s', o);
    }
  }

  /** Facts tying a slot to the ticket it serves. */
  lemma ServingFacts<T>(s: Ring<T>, i: nat)
    requires Shape(s) && i < |s.slots|
    ensures SlotOf(Serving(s, i), |s.slots|) == i && RoundOf(Serving(s, i), |s.slots|) == s.slots[i].lap / 2
    ensures SlotOf(Serving(s, i) + |s.slots|, |s.slots|) == i
  {
    TicketRoundTrip(0, s.slots[i].lap / 2, i, |s.slots|);
    TurnTicket(Serving(s, i), |s.slots|);
  }

  /** A ticket whose lap the slot shows is the one the slot serves. */
  lemma ServingTicket<T>(s: Ring<T>, t: nat)
    requires Shape(s)
    ensures SlotOf(t, |s.slots|) < |s.slots|
    ensures s.slots[SlotOf(t, |s.slots|)].lap / 2 == RoundOf(t, |s.slots|) ==> Serving(s, SlotOf(t, |s.slots|)) == t
    ensures s.slots[SlotOf(t, |s.slots|)].lap / 2 > RoundOf(t, |s.slots|) ==> t + |s.slots| <= Serving(s, SlotOf(t, |s.slots|))
    ensures s.slots[SlotOf(t, |s.slots|)].lap / 2 < RoundOf(t, |s.slots|) ==> Serving(s, SlotOf(t, |s.slots|)) + |s.slots| <= t
  {
    TicketRoundTrip(t, 0, 0, |s.slots|);
    var i := SlotOf(t, |s.slots|);
    if s.slots[i].lap / 2 > RoundOf(t, |s.slots|) {
      RoundGap(RoundOf(t, |s.slots|), s.slots[i].lap / 2, i, |s.slots|);
    } else if s.slots[i].lap / 2 < RoundOf(t, |s.slots|) {
      RoundGap(s.slots[i].lap / 2, RoundOf(t, |s.slots|), i, |s.slots|);
    }
  }

  /** A winning CAS finds its slot released by the previous round, with no claim on it. */
  lemma ClaimSendFits<T>(s: Ring<T>, me: nat, snap: Snapshot)
    requires Inv(s) && me < |s.threads| && s.threads[me].SCas? && s.threads[me].snap == snap
    requires s.writeMeta == snap.meta
    ensures snap.seen == |s.sent| < MAX_ROUNDS * |s.slots| && |s.sent| < |s.taken| + |s.slots|
    ensures snap.meta == WriteMetaAt(|s.sent|, |s.slots|)
    ensures LapOf(snap.meta) == 2 * RoundOf(|s.sent|, |s.slots|) && IdxOf(snap.meta) == SlotOf(|s.sent|, |s.slots|) < |s.slots|
    ensures s.slots[IdxOf(snap.meta)] == Slot(LapOf(snap.meta), None)
    ensures Serving(s, IdxOf(snap.meta)) == |s.sent|
  {
    assert ThreadOk(s, me, s.threads[me]);
    SendSnapCurrent(s, snap);
    ServingTicket(s, |s.sent|);
    assert SlotOk(s, IdxOf(snap.meta));
  }

  lemma ClaimSendSlot<T>(s: Ring<T>, me: nat, msg: T, snap: Snapshot, i: nat)
    requires Inv(s) && me < |s.threads| && s.threads[me].SCas? && s.threads[me].snap == snap
    requires s.writeMeta == snap.meta && i < |s.slots|
    ensures Shape(ClaimSend(s, me, msg, snap)) && SlotOk(ClaimSend(s, me, msg, snap), i)
  {
    ClaimSendFits(s, me, snap);
    var s' := ClaimSend(s, me, msg, snap);
    assert SlotOk(s, i);
    ServingFacts(s, i);
    assert Serving(s', i) == Serving(s, i);
  }

  lemma ClaimSendKeepsInv<T>(s: Ring<T>, me: nat, msg: T, snap: Snapshot)
    requires Inv(s) && me < |s.threads| && s.threads[me].SCas? && s.threads[me].snap == snap
    requires s.threads[me].msg == msg
    requires s.writeMeta == snap.meta
    ensures Inv(ClaimSend(s, me, msg, snap))
  {
    var s' := ClaimSend(s, me, msg, snap);
    ClaimSendFits(s, me, snap);
    BumpWriteMeta(|s.sent|, |s.slots|);
    WriteMetaFacts(s);
    forall i | 0 <= i < |s'.slots| ensures SlotOk(s', i) {
      ClaimSendSlot(s, me, msg, snap, i);
    }
    forall t | 0 <= t < |s'.taken| ensures TakenOk(s', t) {
      assert TakenOk(s, t);
    }
    forall o | 0 <= o < |s'.threads| && o != me ensures ThreadOk(s', o, s'.threads[o]) {
      OtherThreadStable(s, s', o);
    }
  }

  /** A winning receive CAS finds its slot published, and its message not yet moved out. */
  lemma ClaimRecvFits<T>(s: Ring<T>, me: nat, snap: Snapshot)
    requires Inv(s) && me < |s.threads| && s.threads[me].RCas? && s.threads[me].snap == snap
    requires s.readMeta == snap.meta
    ensures snap.seen == |s.taken| < |s.sent|
    ensures snap.meta == ReadMetaAt(|s.taken|, |s.slots|)
    ensures LapOf(snap.meta) == 2 * RoundOf(|s.taken|, |s.slots|) + 1 && IdxOf(snap.meta) == SlotOf(|s.taken|, |s.slots|) < |s.slots|
    ensures s.slots[IdxOf(snap.meta)] == Slot(LapOf(snap.meta), Some(s.sent[|s.taken|]))
    ensures Serving(s, IdxOf(snap.meta)) == |s.taken|
  {
    assert ThreadOk(s, me, s.threads[me]);
    RecvSnapCurrent(s, snap);
    ServingTicket(s, |s.taken|);
    assert SlotOk(s, IdxOf(snap.meta));
  }

  lemma ClaimRecvSlot<T>(s: Ring<T>, me: nat, snap: Snapshot, i: nat)
    requires Inv(s) && me < |s.threads| && s.threads[me].RCas? && s.threads[me].snap == snap
    requires s.readMeta == snap.meta && i < |s.slots|
    ensures Shape(ClaimRecv(s, me, snap)) && SlotOk(ClaimRecv(s, me, snap), i)
  {
    ClaimRecvFits(s, me, snap);
    var s' := ClaimRecv(s, me, snap);
    assert SlotOk(s, i);
    ServingFacts(s, i);
    assert Serving(s', i) == Serving(s, i);
  }

  lemma ClaimRecvKeepsInv<T>(s: Ring<T>, me: nat, snap: Snapshot)
    requires Inv(s) && me < |s.threads| && s.threads[me].RCas? && s.threads[me].snap == snap
    requires s.readMeta == snap.meta
    ensures Inv(ClaimRecv(s, me, snap))
  {
    var s' := ClaimRecv(s, me, snap);
    ClaimRecvFits(s, me, snap);
    BumpReadMeta(|s.taken|, |s.slots|);
    forall i | 0 <= i < |s'.slots| ensures SlotOk(s', i) {
      ClaimRecvSlot(s, me, snap, i);
    }
    forall t | 0 <= t < |s'.taken| ensures TakenOk(s', t) {
      if t < |s.taken| { assert TakenOk(s, t); }
    }
    forall o | 0 <= o < |s'.threads| && o != me ensures ThreadOk(s', o, s'.threads[o]) {
      OtherThreadStable(s, s', o);
    }
  }

  /** Two threads in claim windows never share a slot. */
  lemma WindowsExclusive<T>(s: Ring<T>, o: nat, p: nat)
    requires Inv(s) && o < |s.threads| && p < |s.threads| && o != p
    requires InWindow(s.threads[o]) && InWindow(s.threads[p])
    ensures s.threads[o].claim.idx != s.threads[p].claim.idx
  {
    assert ThreadOk(s, o, s.threads[o]) && ThreadOk(s, p, s.threads[p]);
    TicketRoundTrip(s.threads[o].claim.ticket, 0, 0, |s.slots|);
    TicketRoundTrip(s.threads[p].claim.ticket, 0, 0, |s.slots|);
  }

  /** A step inside a claim window that changes the claimed slot, and perhaps ends the window. */
  lemma WindowStep<T>(s: Ring<T>, s': Ring<T>, me: nat, slot: Slot<T>, pc: Pc<T>, taken: seq<Option<T>>)
    requires Inv(s) && me < |s.threads| && InWindow(s.threads[me])
    requires ThreadOk(s, me, s.threads[me])
    requires s.threads[me].claim.idx < |s.slots|
    requires s' == WriteSlot(s, me, s.threads[me].claim.idx, slot, pc).(taken := taken)
    requires |taken| == |s.taken|
    requires forall t :: 0 <= t < |taken| && !(s.threads[me].RRead? && t == s.threads[me].claim.ticket) ==> taken[t] == s.taken[t]
    requires slot.lap >= s.slots[s.threads[me].claim.idx].lap
    requires SlotOk(s', s.threads[me].claim.idx)
    requires ThreadOk(s', me, pc)
    requires s.threads[me].RRead? ==> taken[s.threads[me].claim.ticket] == Some(s.sent[s.threads[me].claim.ticket])
    ensures Inv(s')
  {
    var idx := s.threads[me].claim.idx;
    forall i | 0 <= i < |s'.slots| ensures SlotOk(s', i) {
      assert SlotOk(s, i);
      if i != idx {
        assert Serving(s', i) == Serving(s, i);
      }
    }
    forall t | 0 <= t < |s'.taken| ensures TakenOk(s', t) {
      assert TakenOk(s, t);
    }
    forall o | 0 <= o < |s'.threads| ensures ThreadOk(s', o, s'.threads[o]) {
      if o != me {
        assert ThreadOk(s, o, s.threads[o]);
        if InWindow(s.threads[o]) {
          WindowIdx(s, o);
          WindowsExclusive(s, o, me);
        }
        ThreadStable(s, s', o, s.threads[o]);
      }
    }
  }

  lemma SendWindowFacts<T>(s: Ring<T>, me: nat)
    requires Inv(s) && me < |s.threads| && (s.threads[me].SWrite? || s.threads[me].SPublish?)
    ensures var claim := s.threads[me].claim;
      && claim.idx < |s.slots| && claim.ticket < |s.sent|
      && claim.lap % 2 == 0 && claim.lap < MASK32 && (claim.lap + 1) / 2 == claim.lap / 2 && s.slots[claim.idx].lap == claim.lap
      && TicketAt(claim.lap / 2, claim.idx, |s.slots|) == claim.ticket
      && |s.taken| <= claim.ticket && |s.sent| <= claim.ticket + |s.slots|
      && s.senders[claim.ticket] == me
      && s.slots[claim.idx].msg == if s.threads[me].SWrite? then None else Some(s.sent[claim.ticket])
  {
    var claim := s.threads[me].claim;
    assert ThreadOk(s, me, s.threads[me]);
    TicketRoundTrip(claim.ticket, 0, 0, |s.slots|);
    TicketLaps(claim.ticket, |s.slots|, claim.lap);
    RoundBound(claim.ticket, |s.slots|, MAX_ROUNDS);
    assert SlotOk(s, claim.idx);
  }

  lemma RecvWindowFacts<T>(s: Ring<T>, me: nat)
    requires Inv(s) && me < |s.threads| && (s.threads[me].RRead? || s.threads[me].RRelease?)
    ensures var claim := s.threads[me].claim;
      && claim.idx < |s.slots| && claim.ticket < |s.taken|
      && claim.lap % 2 == 1 && claim.lap < MASK32 && s.slots[claim.idx].lap == claim.lap
      && TicketAt(claim.lap / 2, claim.idx, |s.slots|) == claim.ticket
      && TicketAt((claim.lap + 1) / 2, claim.idx, |s.slots|) == claim.ticket + |s.slots|
      && |s.sent| <= claim.ticket + |s.slots|
      && s.readers[claim.ticket] == me
      && s.slots[claim.idx].msg == if s.threads[me].RRead? then Some(s.sent[claim.ticket]) else None
  {
    var claim := s.threads[me].claim;
    assert ThreadOk(s, me, s.threads[me]);
    TicketRoundTrip(claim.ticket, 0, 0, |s.slots|);
    TicketLaps(claim.ticket, |s.slots|, claim.lap);
    TicketLaps(claim.ticket, |s.slots|, claim.lap + 1);
    RoundBound(claim.ticket, |s.slots|, MAX_ROUNDS);
    assert SlotOk(s, claim.idx);
  }

  lemma WindowLap<T>(s: Ring<T>, me: nat)
    requires Inv(s) && me < |s.threads| && InWindow(s.threads[me])
    ensures s.threads[me].claim.idx < |s.slots|
    ensures s.threads[me].claim.lap == s.slots[s.threads[me].claim.idx].lap < MASK32
    ensures WrapAdd32(s.threads[me].claim.lap, 1) == s.threads[me].claim.lap + 1
  {
    if s.threads[me].SWrite? || s.threads[me].SPublish? {
      SendWindowFacts(s, me);
    } else {
      RecvWindowFacts(s, me);
    }
  }

  lemma WriteKeepsInv<T>(s: Ring<T>, me: nat)
    requires Inv(s) && me < |s.threads| && s.threads[me].SWrite?
    ensures Inv(AdvanceSend(s, me))
  {
    var s', claim := AdvanceSend(s, me), s.threads[me].claim;
    SendWindowFacts(s, me);
    assert ThreadOk(s, me, s.threads[me]);
    WindowStep(s, s', me, s'.slots[claim.idx], s'.threads[me], s.taken);
  }

  lemma PublishSlot<T>(s: Ring<T>, me: nat, s': Ring<T>)
    requires Inv(s) && me < |s.threads| && s.threads[me].SPublish?
    requires Shape(s') && |s'.slots| == |s.slots| && s'.sent == s.sent && s'.taken == s.taken
    requires s.threads[me].claim.idx < |s.slots|
    requires s'.slots[s.threads[me].claim.idx].lap == s.threads[me].claim.lap + 1
    requires s'.slots[s.threads[me].claim.idx].msg == s.slots[s.threads[me].claim.idx].msg
    ensures SlotOk(s', s.threads[me].claim.idx)
  {
    SendWindowFacts(s, me);
  }

  lemma PublishKeepsInv<T>(s: Ring<T>, me: nat)
    requires Inv(s) && me < |s.threads| && s.threads[me].SPublish?
    ensures Inv(AdvanceSend(s, me))
  {
    var s', claim := AdvanceSend(s, me), s.threads[me].claim;
    WindowLap(s, me);
    PublishSlot(s, me, s');
    assert ThreadOk(s, me, s.threads[me]);
    WindowStep(s, s', me, s'.slots[claim.idx], s'.threads[me], s.taken);
  }

  lemma ReadKeepsInv<T>(s: Ring<T>, me: nat)
    requires Inv(s) && me < |s.threads| && s.threads[me].RRead?
    ensures Inv(AdvanceRecv(s, me))
  {
    var s', claim := AdvanceRecv(s, me), s.threads[me].claim;
    RecvWindowFacts(s, me);
    assert ThreadOk(s, me, s.threads[me]);
    WindowStep(s, s', me, s'.slots[claim.idx], s'.threads[me], s'.taken);
  }

  lemma ReleaseSlot<T>(s: Ring<T>, me: nat, s': Ring<T>)
    requires Inv(s) && me < |s.threads| && s.threads[me].RRelease?
    requires Shape(s') && |s'.slots| == |s.slots| && s'.sent == s.sent && s'.taken == s.taken
    requires s.threads[me].claim.idx < |s.slots|
    requires s'.slots[s.threads[me].claim.idx].lap == s.threads[me].claim.lap + 1
    requires s'.slots[s.threads[me].claim.idx].msg == s.slots[s.threads[me].claim.idx].msg
    ensures SlotOk(s', s.threads[me].claim.idx)
  {
    RecvWindowFacts(s, me);
  }

  lemma ReleaseKeepsInv<T>(s: Ring<T>, me: nat)
    requires Inv(s) && me < |s.threads| && s.threads[me].RRelease?
    ensures Inv(AdvanceRecv(s, me))
  {
    var claim, msg := s.threads[me].claim, s.threads[me].msg;
    WindowLap(s, me);
    var slot, pc := Slot(claim.lap + 1, s.slots[claim.idx].msg), RDone(Received(claim.ticket, msg));
    var s' := WriteSlot(s, me, claim.idx, slot, pc);
    ReleaseSlot(s, me, s');
    assert ThreadOk(s, me, s.threads[me]);
    assert ThreadOk(s', me, pc);
    WindowStep(s, s', me, slot, pc, s.taken);
    assert AdvanceRecv(s, me) == s';
  }

  lemma CloseKeepsInv<T>(s: Ring<T>, me: nat)
    requires Inv(s) && me < |s.threads| && (s.threads[me].CLoad? || s.threads[me].CCas?)
    ensures Inv(AdvanceClose(s, me))
  {
    WriteMetaFacts(s);
    if s.threads[me].CCas? && s.writeMeta == s.threads[me].meta {
      var s1 := s.(writeMeta := SetClosedBit(s.writeMeta));
      assert Inv(s1) by {
        WriteMetaFits(|s.sent|, |s.slots|);
        forall i | 0 <= i < |s1.slots| ensures SlotOk(s1, i) { assert SlotOk(s, i); assert Serving(s1, i) == Serving(s, i); }
        forall t | 0 <= t < |s1.taken| ensures TakenOk(s1, t) { assert TakenOk(s, t); }
        forall o | 0 <= o < |s1.threads| ensures ThreadOk(s1, o, s1.threads[o]) { OtherThreadStable(s, s1, o); }
      }
      LocalStep(s1, me, CDone);
      assert AdvanceClose(s, me) == Goto(s1, me, CDone);
    } else {
      LocalStep(s, me, AdvanceClose(s, me).threads[me]);
    }
  }

  lemma SendSelectKeepsInv<T>(s: Ring<T>, me: nat)
    requires Inv(s) && me < |s.threads|
    requires s.threads[me].SLoad? || s.threads[me].SLap? || s.threads[me].SRelap? || s.threads[me].SCas? || s.threads[me].SWait?
    ensures Inv(AdvanceSend(s, me))
  {
    WriteMetaFacts(s);
    assert ThreadOk(s, me, s.threads[me]);
    if !s.threads[me].SLoad? && !s.threads[me].SWait? {
      SendSnapCurrent(s, s.threads[me].snap);
    }
    if s.threads[me].SCas? && s.writeMeta == s.threads[me].snap.meta {
      ClaimSendKeepsInv(s, me, s.threads[me].msg, s.threads[me].snap);
    } else {
      LocalStep(s, me, AdvanceSend(s, me).threads[me]);
      assert AdvanceSend(s, me) == Goto(s, me, AdvanceSend(s, me).threads[me]);
    }
  }

  lemma RecvSelectKeepsInv<T>(s: Ring<T>, me: nat)
    requires Inv(s) && me < |s.threads|
    requires s.threads[me].RLoad? || s.threads[me].RLap? || s.threads[me].RRelap? || s.threads[me].RCas? || s.threads[me].RWait?
    ensures Inv(AdvanceRecv(s, me))
  {
    assert ThreadOk(s, me, s.threads[me]);
    if !s.threads[me].RLoad? && !s.threads[me].RWait? {
      RecvSnapCurrent(s, s.threads[me].snap);
    }
    if s.threads[me].RCas? && s.readMeta == s.threads[me].snap.meta {
      ClaimRecvKeepsInv(s, me, s.threads[me].snap);
    } else {
      LocalStep(s, me, AdvanceRecv(s, me).threads[me]);
      assert AdvanceRecv(s, me) == Goto(s, me, AdvanceRecv(s, me).threads[me]);
    }
  }

  lemma WindowKeepsInv<T>(s: Ring<T>, me: nat)
    requires Inv(s) && me < |s.threads| && InWindow(s.threads[me])
    ensures Inv(Next(s, Advance(me)))
  {
    match s.threads[me] {
      case SWrite(_, _) => WriteKeepsInv(s, me);
      case SPublish(_) => PublishKeepsInv(s, me);
      case RRead(_) => ReadKeepsInv(s, me);
      case RRelease(_, _) => ReleaseKeepsInv(s, me);
    }
  }

  lemma StepKeepsInv<T>(s: Ring<T>, a: Action<T>)
    requires Inv(s)
    ensures Inv(Next(s, a))
  {
    if a.me < |s.threads| && Next(s, a) != s {
      var pc := s.threads[a.me];
      match a
      case Advance(me) =>
        if pc.CLoad? || pc.CCas? {
          CloseKeepsInv(s, me);
        } else if InWindow(pc) {
          WindowKeepsInv(s, me);
        } else if pc.SLoad? || pc.SLap? || pc.SRelap? || pc.SCas? || pc.SWait? {
          SendSelectKeepsInv(s, me);
        } else {
          RecvSelectKeepsInv(s, me);
        }
      case _ =>
        LocalStep(s, a.me, Next(s, a).threads[a.me]);
    }
  }

  lemma {:induction false} RunKeepsInv<T>(s: Ring<T>, run: seq<Action<T>>)
    requires Inv(s)
    ensures Inv(Exec(s, run))
  {
    if run != [] {
      RunKeepsInv(s, run[..|run| - 1]);
      StepKeepsInv(Exec(s, run[..|run| - 1]), run[|run| - 1]);
    }
  }
}
