/**
 The bounded MPMC ring as a step system: any number of threads, one step per
 atomic access, any interleaving. A run is any sequence of actions; an action
 that its thread cannot take changes nothing.
 */
module MpmcRing {
  import opened Words
  import opened Options
  import opened Elem
  import opened Tickets

  datatype SendResult<T> = Sent(ticket: nat) | Full(msg: T) | Disconnected(msg: T)

  datatype RecvResult<T> = Received(ticket: nat, msg: T) | Empty | RecvError

  /** A loaded meta word. `seen` records how many claims its side had made at the load; no step reads it. */
  datatype Snapshot = Snapshot(meta: U64, seen: nat)

  /** What a winning CAS hands to its thread. `ticket` numbers the claim; only the histories use it. */
  datatype Claim = Claim(lap: U32, idx: U32, ticket: nat)

  /** Where a thread stands: before which atomic access, with which local variables. */
  datatype Pc<T> =
    | Idle
    | SLoad(msg: T, blocking: bool)                   // before loading write_meta
    | SLap(msg: T, blocking: bool, snap: Snapshot)    // before loading the slot's lap
    | SRelap(msg: T, blocking: bool, snap: Snapshot)  // lap was greater: before loading it again
    | SCas(msg: T, blocking: bool, snap: Snapshot)    // lap was equal: before the CAS
    | SWrite(msg: T, claim: Claim)                    // claimed: before writing the message
    | SPublish(claim: Claim)                          // written: before storing the lap
    | SWait(msg: T)                                   // blocking send that found the queue full
    | SDone(sendResult: SendResult<T>)
    | RLoad(blocking: bool, sawClosed: bool)
    | RLap(blocking: bool, sawClosed: bool, snap: Snapshot)
    | RRelap(blocking: bool, sawClosed: bool, snap: Snapshot)
    | RCas(blocking: bool, sawClosed: bool, snap: Snapshot)
    | RRead(claim: Claim)
    | RRelease(claim: Claim, msg: T)
    | RWait                                           // blocking receive that found the queue empty
    | RDone(recvResult: RecvResult<T>)
    | CLoad
    | CCas(meta: U64)
    | CDone
    | Undefined                                       // undefined behaviour happened

  /**
   The shared words and slots, the threads, and four histories that no step reads:
   `sent[t]` is the message of write ticket t and `senders[t]` the thread that claimed it;
   `taken[t]` is what the claimant of read ticket t moved out and `readers[t]` that claimant.
   */
  datatype Ring<T> = Ring(
    slots: seq<Slot<T>>,
    writeMeta: U64,
    readMeta: U64,
    threads: seq<Pc<T>>,
    sent: seq<T>,
    senders: seq<nat>,
    taken: seq<Option<T>>,
    readers: seq<nat>)

  datatype Action<T> =
    | StartSend(me: nat, msg: T, blocking: bool)
    | StartRecv(me: nat, blocking: bool)
    | StartClose(me: nat)
    | Advance(me: nat)  // the thread's next atomic access
    | Resume(me: nat)   // a waiting thread goes round its loop without having seen the queue closed

  predicate AtRest<T>(pc: Pc<T>) {
    pc.Idle? || pc.SDone? || pc.RDone? || pc.CDone?
  }

  function Init<T>(cap: U32, threads: nat): (s: Ring<T>)
    requires cap <= MAX_CAPACITY
  {
    var rawCap := if cap > 0 then cap else 1;
    Ring(seq(rawCap, _ => Slot(0, None)), 0, TWO32, seq(threads, _ => Idle), [], [], [], [])
  }

  function Goto<T>(s: Ring<T>, me: nat, pc: Pc<T>): Ring<T>
    requires me < |s.threads|
  {
    s.(threads := s.threads[me := pc])
  }

  predicate ClosedMeta(meta: U64) {
    LapOf(meta) >= MASK32
  }

  predicate IsClosed<T>(s: Ring<T>) {
    ClosedMeta(s.writeMeta)
  }

  /** Top of the send loop, with `s.writeMeta` just read: the closed test uses the word at hand. */
  function SendTop<T>(s: Ring<T>, msg: T, blocking: bool): Pc<T> {
    if ClosedMeta(s.writeMeta) then SDone(Disconnected(msg))
    else SLap(msg, blocking, Snapshot(s.writeMeta, |s.sent|))
  }

  function RecvTop<T>(s: Ring<T>, blocking: bool, sawClosed: bool): Pc<T> {
    RLap(blocking, sawClosed, Snapshot(s.readMeta, |s.taken|))
  }

  /** A failed selection: `try_send` gives up, `send` waits. */
  function NoRoom<T>(msg: T, blocking: bool): Pc<T> {
    if blocking then SWait(msg) else SDone(SendResult.Full(msg))
  }

  /** A failed selection: `try_recv` gives up, `recv` gives up only after it saw the queue closed. */
  function NothingToRead<T>(blocking: bool, sawClosed: bool): Pc<T> {
    if !blocking then RDone(RecvResult.Empty) else if sawClosed then RDone(RecvError) else RWait
  }

  /** Where a selection goes once it has loaded its slot's lap. */
  function AfterLap<T>(pc: Pc<T>, elemLap: U32): Pc<T> {
    match pc
    case SLap(msg, blocking, snap) =>
      if LapOf(snap.meta) == elemLap then SCas(msg, blocking, snap)
      else if LapOf(snap.meta) > elemLap then SRelap(msg, blocking, snap)
      else SLoad(msg, blocking)
    case SRelap(msg, blocking, snap) =>
      if LapOf(snap.meta) > elemLap then NoRoom(msg, blocking) else SLoad(msg, blocking)
    case RLap(blocking, sawClosed, snap) =>
      if LapOf(snap.meta) == elemLap then RCas(blocking, sawClosed, snap)
      else if LapOf(snap.meta) > elemLap then RRelap(blocking, sawClosed, snap)
      else RLoad(blocking, sawClosed)
    case RRelap(blocking, sawClosed, snap) =>
      if LapOf(snap.meta) > elemLap then NothingToRead(blocking, sawClosed) else RLoad(blocking, sawClosed)
    case _ => pc
  }

  function LoadLap<T>(s: Ring<T>, me: nat, idx: U32): Ring<T>
    requires me < |s.threads|
  {
    Goto(s, me, if idx < |s.slots| then AfterLap(s.threads[me], s.slots[idx].lap) else Undefined)
  }

  function ClaimOf(snap: Snapshot): Claim {
    Claim(LapOf(snap.meta), IdxOf(snap.meta), snap.seen)
  }

  /** A winning CAS of the send side. */
  function ClaimSend<T>(s: Ring<T>, me: nat, msg: T, snap: Snapshot): Ring<T>
    requires me < |s.threads|
  {
    s.(writeMeta := Bump(snap.meta, |s.slots|),
       sent := s.sent + [msg],
       senders := s.senders + [me],
       threads := s.threads[me := SWrite(msg, ClaimOf(snap).(ticket := |s.sent|))])
  }

  /** A winning CAS of the receive side. */
  function ClaimRecv<T>(s: Ring<T>, me: nat, snap: Snapshot): Ring<T>
    requires me < |s.threads|
  {
    s.(readMeta := Bump(snap.meta, |s.slots|),
       taken := s.taken + [None],
       readers := s.readers + [me],
       threads := s.threads[me := RRead(ClaimOf(snap).(ticket := |s.taken|))])
  }

  function WriteSlot<T>(s: Ring<T>, me: nat, idx: nat, slot: Slot<T>, pc: Pc<T>): Ring<T>
    requires me < |s.threads| && idx < |s.slots|
  {
    s.(slots := s.slots[idx := slot], threads := s.threads[me := pc])
  }

  function AdvanceSend<T>(s: Ring<T>, me: nat): Ring<T>
    requires me < |s.threads|
  {
    match s.threads[me]
    case SLoad(msg, blocking) => Goto(s, me, SendTop(s, msg, blocking))
    case SLap(_, _, snap) => LoadLap(s, me, IdxOf(snap.meta))
    case SRelap(_, _, snap) => LoadLap(s, me, IdxOf(snap.meta))
    case SCas(msg, blocking, snap) =>
      if s.writeMeta == snap.meta then ClaimSend(s, me, msg, snap)
      else Goto(s, me, SendTop(s, msg, blocking))
    case SWrite(msg, claim) =>
      if claim.idx >= |s.slots| then Goto(s, me, Undefined)
      else WriteSlot(s, me, claim.idx, s.slots[claim.idx].(msg := Some(msg)), SPublish(claim))
    case SPublish(claim) =>
      if claim.idx >= |s.slots| then Goto(s, me, Undefined)
      else WriteSlot(s, me, claim.idx, s.slots[claim.idx].(lap := WrapAdd32(claim.lap, 1)), SDone(Sent(claim.ticket)))
    case SWait(msg) =>
      if IsClosed(s) then Goto(s, me, SDone(Disconnected(msg))) else s
    case _ => s
  }

  function AdvanceRecv<T>(s: Ring<T>, me: nat): Ring<T>
    requires me < |s.threads|
  {
    match s.threads[me]
    case RLoad(blocking, sawClosed) => Goto(s, me, RecvTop(s, blocking, sawClosed))
    case RLap(_, _, snap) => LoadLap(s, me, IdxOf(snap.meta))
    case RRelap(_, _, snap) => LoadLap(s, me, IdxOf(snap.meta))
    case RCas(blocking, sawClosed, snap) =>
      if s.readMeta == snap.meta then ClaimRecv(s, me, snap)
      else Goto(s, me, RecvTop(s, blocking, sawClosed))
    case RRead(claim) =>
      if claim.idx >= |s.slots| || claim.ticket >= |s.taken| || s.slots[claim.idx].msg.None? then Goto(s, me, Undefined)
      else
        var msg := s.slots[claim.idx].msg.value;
        WriteSlot(s, me, claim.idx, s.slots[claim.idx].(msg := None), RRelease(claim, msg))
        .(taken := s.taken[claim.ticket := Some(msg)])
    case RRelease(claim, msg) =>
      if claim.idx >= |s.slots| then Goto(s, me, Undefined)
      else WriteSlot(s, me, claim.idx, s.slots[claim.idx].(lap := WrapAdd32(claim.lap, 1)), RDone(Received(claim.ticket, msg)))
    case RWait =>
      if IsClosed(s) then Goto(s, me, RLoad(true, true)) else s
    case _ => s
  }

  function AdvanceClose<T>(s: Ring<T>, me: nat): Ring<T>
    requires me < |s.threads|
  {
    match s.threads[me]
    case CLoad => Goto(s, me, if s.writeMeta >= MASK64 then CDone else CCas(s.writeMeta))
    case CCas(meta) =>
      if s.writeMeta == meta then Goto(s, me, CDone).(writeMeta := SetClosedBit(meta))
      else Goto(s, me, CCas(s.writeMeta))
    case _ => s
  }

  function Next<T>(s: Ring<T>, a: Action<T>): Ring<T> {
    if a.me >= |s.threads| then s else
    var pc := s.threads[a.me];
    match a
    case StartSend(me, msg, blocking) => if AtRest(pc) then Goto(s, me, SLoad(msg, blocking)) else s
    case StartRecv(me, blocking) => if AtRest(pc) then Goto(s, me, RLoad(blocking, false)) else s
    case StartClose(me) => if AtRest(pc) then Goto(s, me, CLoad) else s
    case Resume(me) =>
      if pc.SWait? then Goto(s, me, SLoad(pc.msg, true))
      else if pc.RWait? then Goto(s, me, RLoad(true, false))
      else s
    case Advance(me) =>
      if pc.CLoad? || pc.CCas? then AdvanceClose(s, me)
      else if pc.RLoad? || pc.RLap? || pc.RRelap? || pc.RCas? || pc.RRead? || pc.RRelease? || pc.RWait? then AdvanceRecv(s, me)
      else AdvanceSend(s, me)
  }

  /** The state after a run. */
  function Exec<T>(s: Ring<T>, run: seq<Action<T>>): Ring<T> {
    if run == [] then s else Next(Exec(s, run[..|run| - 1]), run[|run| - 1])
  }
}
