/** What every step of the MPMC ring keeps. */
module MpmcInvariant {
  import opened Words
  import opened Options
  import opened Elem
  import opened Tickets
  import opened MpmcRing

  /** Rounds a slot can serve before the lap increment reaches the closed bit (2^30). */
  const MAX_ROUNDS: nat := 0x4000_0000

  /** Metas, as numbers, of the two sides before their claim number t. */
  ghost function WriteMetaAt(t: nat, cap: nat): int
    requires cap > 0
  {
    Pack(2 * RoundOf(t, cap), SlotOf(t, cap))
  }

  ghost function ReadMetaAt(t: nat, cap: nat): int
    requires cap > 0
  {
    Pack(2 * RoundOf(t, cap) + 1, SlotOf(t, cap))
  }

  ghost predicate Shape<T>(s: Ring<T>) {
    && 0 < |s.slots| <= MAX_CAPACITY
    && |s.senders| == |s.sent| && |s.readers| == |s.taken|
    && |s.taken| <= |s.sent| <= |s.taken| + |s.slots|
    && |s.sent| <= MAX_ROUNDS * |s.slots|
  }

  ghost predicate Metas<T>(s: Ring<T>)
    requires Shape(s)
  {
    && s.readMeta == ReadMetaAt(|s.taken|, |s.slots|)
    && (s.writeMeta == WriteMetaAt(|s.sent|, |s.slots|)
        || (|s.sent| < MAX_ROUNDS * |s.slots| && s.writeMeta == WriteMetaAt(|s.sent|, |s.slots|) + MASK64))
  }

  /** The write claim on ticket t, slot i, is between its CAS and its lap store. */
  ghost predicate WriteWindow<T>(s: Ring<T>, t: nat, i: nat)
    requires Shape(s) && t < |s.sent| && i < |s.slots|
  {
    var o := s.senders[t];
    && o < |s.threads|
    && ((s.threads[o].SWrite? && s.slots[i].msg == None) || (s.threads[o].SPublish? && s.slots[i].msg == Some(s.sent[t])))
    && s.threads[o].claim.ticket == t && s.threads[o].claim.idx == i
  }

  ghost predicate ReadWindow<T>(s: Ring<T>, t: nat, i: nat)
    requires Shape(s) && t < |s.taken| && i < |s.slots|
  {
    var o := s.readers[t];
    && o < |s.threads|
    && ((s.threads[o].RRead? && s.slots[i].msg == Some(s.sent[t])) || (s.threads[o].RRelease? && s.slots[i].msg == None))
    && s.threads[o].claim.ticket == t && s.threads[o].claim.idx == i
  }

  /** The ticket a slot is serving, or waits for. */
  ghost function Serving<T>(s: Ring<T>, i: nat): nat
    requires i < |s.slots|
  {
    TicketAt(s.slots[i].lap / 2, i, |s.slots|)
  }

  ghost predicate SlotOk<T>(s: Ring<T>, i: nat)
    requires Shape(s) && i < |s.slots|
  {
    var t := Serving(s, i);
    && t < |s.taken| + |s.slots|
    && |s.sent| <= t + |s.slots|
    && if s.slots[i].lap % 2 == 0
       then |s.taken| <= t && if |s.sent| <= t then s.slots[i].msg == None else WriteWindow(s, t, i)
       else t < |s.sent| && if |s.taken| <= t then s.slots[i].msg == Some(s.sent[t]) else ReadWindow(s, t, i)
  }

  ghost predicate SendSnapOk<T>(s: Ring<T>, snap: Snapshot)
    requires Shape(s)
  {
    snap.seen <= |s.sent| && snap.meta < MASK64 && snap.meta == WriteMetaAt(snap.seen, |s.slots|)
  }

  ghost predicate RecvSnapOk<T>(s: Ring<T>, snap: Snapshot)
    requires Shape(s)
  {
    snap.seen <= |s.taken| && snap.meta == ReadMetaAt(snap.seen, |s.slots|)
  }

  ghost predicate SendClaimOk<T>(s: Ring<T>, o: nat, claim: Claim)
    requires Shape(s)
  {
    && claim.ticket < |s.sent| && s.senders[claim.ticket] == o
    && claim.lap == 2 * RoundOf(claim.ticket, |s.slots|) && claim.idx == SlotOf(claim.ticket, |s.slots|)
    && s.slots[claim.idx].lap == claim.lap
  }

  ghost predicate RecvClaimOk<T>(s: Ring<T>, o: nat, claim: Claim)
    requires Shape(s)
  {
    && claim.ticket < |s.taken| && s.readers[claim.ticket] == o
    && claim.lap == 2 * RoundOf(claim.ticket, |s.slots|) + 1 && claim.idx == SlotOf(claim.ticket, |s.slots|)
    && s.slots[claim.idx].lap == claim.lap
  }

  /** What thread o, standing at pc, may rely on. */
  ghost predicate ThreadOk<T>(s: Ring<T>, o: nat, pc: Pc<T>)
    requires Shape(s)
  {
    match pc
    case SLap(_, _, snap) => SendSnapOk(s, snap)
    case SRelap(_, _, snap) => SendSnapOk(s, snap)
    case SCas(_, _, snap) => SendSnapOk(s, snap) && s.slots[SlotOf(snap.seen, |s.slots|)].lap >= LapOf(snap.meta)
    case SWrite(msg, claim) => SendClaimOk(s, o, claim) && msg == s.sent[claim.ticket] && s.slots[claim.idx].msg == None
    case SPublish(claim) => SendClaimOk(s, o, claim) && s.slots[claim.idx].msg == Some(s.sent[claim.ticket])
    case SDone(Sent(t)) => t < |s.sent| && s.senders[t] == o
    case SDone(Disconnected(_)) => IsClosed(s)
    case RLoad(_, sawClosed) => sawClosed ==> IsClosed(s)
    case RLap(_, sawClosed, snap) => RecvSnapOk(s, snap) && (sawClosed ==> IsClosed(s))
    case RRelap(_, sawClosed, snap) => RecvSnapOk(s, snap) && (sawClosed ==> IsClosed(s))
    case RCas(_, sawClosed, snap) =>
      && RecvSnapOk(s, snap) && (sawClosed ==> IsClosed(s))
      && s.slots[SlotOf(snap.seen, |s.slots|)].lap >= LapOf(snap.meta)
    case RRead(claim) => RecvClaimOk(s, o, claim) && s.slots[claim.idx].msg == Some(s.sent[claim.ticket]) && s.taken[claim.ticket] == None
    case RRelease(claim, msg) => RecvClaimOk(s, o, claim) && s.slots[claim.idx].msg == None && s.taken[claim.ticket] == Some(msg)
    case RDone(Received(t, msg)) => t < |s.taken| && s.readers[t] == o && s.taken[t] == Some(msg)
    case RDone(RecvError) => IsClosed(s)
    case CDone => IsClosed(s)
    case Undefined => false
    case _ => true
  }

  /** A claimed read ticket yields the message of the same write ticket, or its claimant has yet to move it out. */
  ghost predicate TakenOk<T>(s: Ring<T>, t: nat)
    requires Shape(s) && t < |s.taken|
  {
    var o := s.readers[t];
    s.taken[t] == Some(s.sent[t])
    || (s.taken[t] == None && o < |s.threads| && s.threads[o].RRead? && s.threads[o].claim.ticket == t)
  }

  ghost predicate Inv<T>(s: Ring<T>) {
    && Shape(s)
    && Metas(s)
    && (forall i :: 0 <= i < |s.slots| ==> SlotOk(s, i))
    && (forall o :: 0 <= o < |s.threads| ==> ThreadOk(s, o, s.threads[o]))
    && (forall t :: 0 <= t < |s.taken| ==> TakenOk(s, t))
  }

  predicate InWindow<T>(pc: Pc<T>) {
    pc.SWrite? || pc.SPublish? || pc.RRead? || pc.RRelease?
  }

  lemma InitInv<T>(cap: U32, threads: nat)
    requires cap <= MAX_CAPACITY
    ensures Inv(Init<T>(cap, threads))
  {
    var s := Init<T>(cap, threads);
    TicketRoundTrip(0, 0, 0, |s.slots|);
    RoundBound(0, |s.slots|, 0);
    forall i | 0 <= i < |s.slots| ensures SlotOk(s, i) {
      assert s.slots[i] == Slot(0, None);
      assert Serving(s, i) == i;
    }
  }

  /** What no step undoes: histories only grow, laps only rise, and closing freezes the accepted messages. */
  ghost predicate Grows<T>(s: Ring<T>, s': Ring<T>) {
    && |s'.slots| == |s.slots| && |s'.threads| == |s.threads|
    && s.sent <= s'.sent && s.senders <= s'.senders
    && |s.taken| <= |s'.taken| && s.readers <= s'.readers
    && (forall t :: 0 <= t < |s.taken| && s.taken[t].Some? ==> s'.taken[t] == s.taken[t])
    && (forall i :: 0 <= i < |s.slots| ==> s.slots[i].lap <= s'.slots[i].lap)
    && (IsClosed(s) ==> IsClosed(s') && s'.sent == s.sent)
  }

  /** Steps of other threads leave intact what a thread relies on. */
  lemma ThreadStable<T>(s: Ring<T>, s': Ring<T>, o: nat, pc: Pc<T>)
    requires Shape(s) && Shape(s') && Grows(s, s')
    requires ThreadOk(s, o, pc)
    requires InWindow(pc) ==> pc.claim.idx < |s.slots| && s'.slots[pc.claim.idx] == s.slots[pc.claim.idx]
    requires pc.RRead? && pc.claim.ticket < |s.taken| ==> s'.taken[pc.claim.ticket] == s.taken[pc.claim.ticket]
    ensures ThreadOk(s', o, pc)
  {
    if pc.SCas? || pc.RCas? {
      TicketRoundTrip(pc.snap.seen, 0, 0, |s.slots|);
    }
  }

  // ---------------------------------------------------------------- metas

  lemma WriteMetaFits(t: nat, cap: nat)
    requires 0 < cap <= MAX_CAPACITY && t <= MAX_ROUNDS * cap
    ensures 0 <= WriteMetaAt(t, cap) <= MASK64
    ensures t < MAX_ROUNDS * cap <==> WriteMetaAt(t, cap) < MASK64
    ensures LapOf(WriteMetaAt(t, cap)) == 2 * RoundOf(t, cap) && IdxOf(WriteMetaAt(t, cap)) == SlotOf(t, cap) < cap
    ensures t == MAX_ROUNDS * cap ==> WriteMetaAt(t, cap) == MASK64
  {
    TicketRoundTrip(t, 0, 0, cap);
    RoundBound(t, cap, MAX_ROUNDS);
    RoundBound(t, cap, MAX_ROUNDS + 1);
    Unpack(2 * RoundOf(t, cap), SlotOf(t, cap));
  }

  lemma ReadMetaFits(t: nat, cap: nat)
    requires 0 < cap <= MAX_CAPACITY && t <= MAX_ROUNDS * cap
    ensures 0 <= ReadMetaAt(t, cap) < TWO64
    ensures LapOf(ReadMetaAt(t, cap)) == 2 * RoundOf(t, cap) + 1 && IdxOf(ReadMetaAt(t, cap)) == SlotOf(t, cap) < cap
  {
    TicketRoundTrip(t, 0, 0, cap);
    RoundBound(t, cap, MAX_ROUNDS + 1);
    Unpack(2 * RoundOf(t, cap) + 1, SlotOf(t, cap));
  }

  /** Bumping the write meta of ticket t gives the write meta of ticket t + 1, without any wrap. */
  lemma BumpWriteMeta(t: nat, cap: nat)
    requires 0 < cap <= MAX_CAPACITY && t < MAX_ROUNDS * cap
    ensures 0 <= WriteMetaAt(t, cap) < TWO64
    ensures Bump(WriteMetaAt(t, cap), cap) == WriteMetaAt(t + 1, cap)
  {
    WriteMetaFits(t, cap);
    WriteMetaFits(t + 1, cap);
    SuccTicket(t, cap);
  }

  lemma BumpReadMeta(t: nat, cap: nat)
    requires 0 < cap <= MAX_CAPACITY && t < MAX_ROUNDS * cap
    ensures 0 <= ReadMetaAt(t, cap) < TWO64
    ensures Bump(ReadMetaAt(t, cap), cap) == ReadMetaAt(t + 1, cap)
  {
    ReadMetaFits(t, cap);
    ReadMetaFits(t + 1, cap);
    SuccTicket(t, cap);
  }

  /** The closed bit is the only difference between the write meta and its ticket's meta. */
  lemma WriteMetaFacts<T>(s: Ring<T>)
    requires Shape(s) && Metas(s)
    ensures IsClosed(s) <==> s.writeMeta >= MASK64
    ensures IdxOf(s.writeMeta) == SlotOf(|s.sent|, |s.slots|) < |s.slots|
    ensures !IsClosed(s) ==> s.writeMeta == WriteMetaAt(|s.sent|, |s.slots|) && |s.sent| < MAX_ROUNDS * |s.slots|
  {
    WriteMetaFits(|s.sent|, |s.slots|);
    ClosedBit(s.writeMeta);
    if s.writeMeta != WriteMetaAt(|s.sent|, |s.slots|) {
      ClosedBit(WriteMetaAt(|s.sent|, |s.slots|));
    }
  }

  /** A write snapshot that still matches was taken at the current ticket. */
  lemma SendSnapCurrent<T>(s: Ring<T>, snap: Snapshot)
    requires Shape(s) && Metas(s) && SendSnapOk(s, snap)
    ensures s.writeMeta == snap.meta ==> snap.seen == |s.sent| && !IsClosed(s)
    ensures snap.seen < MAX_ROUNDS * |s.slots|
    ensures LapOf(snap.meta) == 2 * RoundOf(snap.seen, |s.slots|) && IdxOf(snap.meta) == SlotOf(snap.seen, |s.slots|) < |s.slots|
  {
    WriteMetaFacts(s);
    WriteMetaFits(snap.seen, |s.slots|);
    WriteMetaFits(|s.sent|, |s.slots|);
    TicketRoundTrip(snap.seen, 0, 0, |s.slots|);
    TicketRoundTrip(|s.sent|, 0, 0, |s.slots|);
  }

  lemma RecvSnapCurrent<T>(s: Ring<T>, snap: Snapshot)
    requires Shape(s) && Metas(s) && RecvSnapOk(s, snap)
    ensures s.readMeta == snap.meta ==> snap.seen == |s.taken|
    ensures LapOf(snap.meta) == 2 * RoundOf(snap.seen, |s.slots|) + 1 && IdxOf(snap.meta) == SlotOf(snap.seen, |s.slots|) < |s.slots|
  {
    ReadMetaFits(snap.seen, |s.slots|);
    ReadMetaFits(|s.taken|, |s.slots|);
    TicketRoundTrip(snap.seen, 0, 0, |s.slots|);
    TicketRoundTrip(|s.taken|, 0, 0, |s.slots|);
  }
}
