/**
 The bounded SPSC ring as a step system: one sending thread, one receiving thread, and closers,
 one step per access to a shared word, any interleaving. Laps wrap modulo 2^32.
 The metas are private to their side, so a claim is part of the lap load that decides it.
 */
module SpscRing {
  import opened Words
  import opened Options
  import opened Elem

  datatype SendResult<T> = Sent | Full(msg: T) | Disconnected(msg: T)

  datatype RecvResult<T> = Received(msg: T) | Empty | RecvError

  datatype Claim = Claim(lap: U32, idx: U32)

  datatype SendPc<T> =
    | SIdle
    | SCheck(msg: T, blocking: bool)  // before loading the closed flag
    | SLap(msg: T, blocking: bool)    // before loading the slot's lap
    | SRelap(msg: T, blocking: bool)  // lap was greater: before loading it again
    | SWrite(msg: T, claim: Claim)    // claimed: before writing the message
    | SPublish(claim: Claim)          // written: before storing the lap
    | SWait(msg: T)                   // blocking send that found the queue full
    | SDone(sendResult: SendResult<T>)
    | SUndefined

  datatype RecvPc<T> =
    | RIdle
    | RLap(blocking: bool, sawClosed: bool)
    | RRelap(blocking: bool, sawClosed: bool)
    | RRead(claim: Claim)
    | RRelease(claim: Claim, msg: T)
    | RWait
    | RDone(recvResult: RecvResult<T>)
    | RUndefined

  /** Histories: `sent` lists the claimed sends, `received` the messages moved out, both in order. */
  datatype Ring<T> = Ring(
    slots: seq<Slot<T>>,
    writeMeta: U64,
    readMeta: U64,
    closed: bool,
    sender: SendPc<T>,
    receiver: RecvPc<T>,
    sent: seq<T>,
    received: seq<T>)

  datatype Action<T> =
    | StartSend(msg: T, blocking: bool)
    | StepSend
    | ResumeSend  // a waiting sender goes round its loop without having seen the queue closed
    | StartRecv(blocking: bool)
    | StepRecv
    | ResumeRecv
    | Close

  function Init<T>(cap: U32): Ring<T>
    requires cap <= MAX_CAPACITY
  {
    Ring(seq(if cap > 0 then cap else 1, _ => Slot(0, None)), 0, TWO32, false, SIdle, RIdle, [], [])
  }

  function NoRoom<T>(msg: T, blocking: bool): SendPc<T> {
    if blocking then SWait(msg) else SDone(SendResult.Full(msg))
  }

  function NothingToRead<T>(blocking: bool, sawClosed: bool): RecvPc<T> {
    if !blocking then RDone(RecvResult.Empty) else if sawClosed then RDone(RecvError) else RWait
  }

  function ClaimSend<T>(s: Ring<T>, msg: T): Ring<T> {
    s.(writeMeta := Bump(s.writeMeta, |s.slots|), sent := s.sent + [msg],
       sender := SWrite(msg, Claim(LapOf(s.writeMeta), IdxOf(s.writeMeta))))
  }

  function ClaimRecv<T>(s: Ring<T>): Ring<T> {
    s.(readMeta := Bump(s.readMeta, |s.slots|),
       receiver := RRead(Claim(LapOf(s.readMeta), IdxOf(s.readMeta))))
  }

  function AdvanceSend<T>(s: Ring<T>): Ring<T> {
    var idx, lap := IdxOf(s.writeMeta), LapOf(s.writeMeta);
    match s.sender
    case SCheck(msg, blocking) => s.(sender := if s.closed then SDone(Disconnected(msg)) else SLap(msg, blocking))
    case SLap(msg, blocking) =>
      if idx >= |s.slots| then s.(sender := SUndefined)
      else if lap == s.slots[idx].lap then ClaimSend(s, msg)
      else if lap > s.slots[idx].lap then s.(sender := SRelap(msg, blocking))
      else s.(sender := SCheck(msg, blocking))
    case SRelap(msg, blocking) =>
      if idx >= |s.slots| then s.(sender := SUndefined)
      else if lap > s.slots[idx].lap then s.(sender := NoRoom(msg, blocking))
      else s.(sender := SCheck(msg, blocking))
    case SWrite(msg, claim) =>
      if claim.idx >= |s.slots| then s.(sender := SUndefined)
      else s.(slots := s.slots[claim.idx := s.slots[claim.idx].(msg := Some(msg))], sender := SPublish(claim))
    case SPublish(claim) =>
      if claim.idx >= |s.slots| then s.(sender := SUndefined)
      else s.(slots := s.slots[claim.idx := s.slots[claim.idx].(lap := WrapAdd32(claim.lap, 1))], sender := SDone(Sent))
    case SWait(msg) => if s.closed then s.(sender := SDone(Disconnected(msg))) else s
    case _ => s
  }

  function AdvanceRecv<T>(s: Ring<T>): Ring<T> {
    var idx, lap := IdxOf(s.readMeta), LapOf(s.readMeta);
    match s.receiver
    case RLap(blocking, sawClosed) =>
      if idx >= |s.slots| then s.(receiver := RUndefined)
      else if lap == s.slots[idx].lap then ClaimRecv(s)
      else if lap > s.slots[idx].lap then s.(receiver := RRelap(blocking, sawClosed))
      else s
    case RRelap(blocking, sawClosed) =>
      if idx >= |s.slots| then s.(receiver := RUndefined)
      else if lap > s.slots[idx].lap then s.(receiver := NothingToRead(blocking, sawClosed))
      else s.(receiver := RLap(blocking, sawClosed))
    case RRead(claim) =>
      if claim.idx >= |s.slots| || s.slots[claim.idx].msg.None? then s.(receiver := RUndefined)
      else
        var msg := s.slots[claim.idx].msg.value;
        s.(slots := s.slots[claim.idx := s.slots[claim.idx].(msg := None)],
           received := s.received + [msg], receiver := RRelease(claim, msg))
    case RRelease(claim, msg) =>
      if claim.idx >= |s.slots| then s.(receiver := RUndefined)
      else s.(slots := s.slots[claim.idx := s.slots[claim.idx].(lap := WrapAdd32(claim.lap, 1))], receiver := RDone(Received(msg)))
    case RWait => if s.closed then s.(receiver := RLap(true, true)) else s
    case _ => s
  }

  function Next<T>(s: Ring<T>, a: Action<T>): Ring<T> {
    match a
    case StartSend(msg, blocking) => if s.sender.SIdle? || s.sender.SDone? then s.(sender := SCheck(msg, blocking)) else s
    case StepSend => AdvanceSend(s)
    case ResumeSend => if s.sender.SWait? then s.(sender := SCheck(s.sender.msg, true)) else s
    case StartRecv(blocking) => if s.receiver.RIdle? || s.receiver.RDone? then s.(receiver := RLap(blocking, false)) else s
    case StepRecv => AdvanceRecv(s)
    case ResumeRecv => if s.receiver.RWait? then s.(receiver := RLap(true, false)) else s
    case Close => s.(closed := true)
  }

  /** The state after a run. */
  function Exec<T>(s: Ring<T>, run: seq<Action<T>>): Ring<T> {
    if run == [] then s else Next(Exec(s, run[..|run| - 1]), run[|run| - 1])
  }
}
