/**
 The bounded MPMC queue as a whole: its ring and its two wakers, any number of threads, whole calls. One step per
 access to a shared word. A step of a thread inside the ring is a step of `MpmcRing`, one inside a waker a step of
 `Waker`; what the waker asks of the watched slot is answered by the ring.
 */
module MpmcQueue {
  import opened Words
  import opened Elem
  import M = MpmcRing
  import W = Waker
  import U = WakerUse

  /** What a thread is doing. */
  datatype Phase =
    | InRing
    | WaitsWriter      // `send` found no room: retrying, registering, asleep or unregistering
    | WaitsReader
    | NotifiesReaders  // a send has published: `wake_one` on the readers' waker
    | NotifiesWriters
    | ClosesWriters    // `close` has set the bit
    | ClosesReaders

  /** The slot a selection looked at, and the lap it found there first: what a waiter made from it watches. */
  datatype Watch = Watch(idx: U32, lap: U32)

  /** Histories: some `close` has returned; one that closed the two wakers has. */
  datatype Queue<T> = Queue(
    ring: M.Ring<T>,
    writers: W.State,
    readers: W.State,
    phases: seq<Phase>,
    watch: seq<Watch>,
    returned: bool,
    through: bool)

  datatype Action<T> =
    | Start(call: M.Action<T>)
    | Step(me: nat)
    | GiveUp(me: nat)    // the retries are used up
    | Spurious(me: nat)  // a futex wait may return for no reason

  function Init<T>(cap: U32, threads: nat): Queue<T>
    requires cap <= MAX_CAPACITY
  {
    Queue(M.Init(cap, threads), W.Init(threads), W.Init(threads), seq(threads, _ => InRing), seq(threads, _ => Watch(0, 0)), false, false)
  }

  /** There is a thread me, in each part. */
  predicate Has<T>(q: Queue<T>, me: nat) {
    me < |q.phases| && me < |q.watch| && me < |q.ring.threads| && me < |q.writers.threads| && me < |q.readers.threads|
  }

  /** In no call. */
  predicate Free<T>(q: Queue<T>, me: nat)
    requires Has(q, me)
  {
    q.phases[me].InRing? && M.AtRest(q.ring.threads[me])
  }

  predicate IsCall<T>(a: M.Action<T>) {
    a.StartSend? || a.StartRecv? || a.StartClose?
  }

  /** The closed bit is one word; the wakers' checkers read it. */
  function Flagged(w: W.State, me: nat, closed: bool): W.State {
    if closed && !w.queueClosed then W.Next(w, W.RaiseFlag(me)) else w
  }

  /** Has the lap of the watched slot changed? */
  predicate Ready<T>(q: Queue<T>, me: nat)
    requires Has(q, me)
  {
    q.watch[me].idx < |q.ring.slots| && q.ring.slots[q.watch[me].idx].lap != q.watch[me].lap
  }

  function Watched<T>(q: Queue<T>, me: nat): seq<Watch>
    requires Has(q, me)
  {
    var pc := q.ring.threads[me];
    if (pc.SLap? || pc.RLap?) && IdxOf(pc.snap.meta) < |q.ring.slots|
    then q.watch[me := Watch(IdxOf(pc.snap.meta), q.ring.slots[IdxOf(pc.snap.meta)].lap)]
    else q.watch
  }

  function Move<T>(q: Queue<T>, me: nat, phase: Phase): Queue<T>
    requires Has(q, me)
  {
    q.(phases := q.phases[me := phase])
  }

  /** The ring's step alone, seen by the wakers' checkers. */
  function InnerStep<T>(q: Queue<T>, me: nat): Queue<T>
    requires Has(q, me)
  {
    var ring := M.Next(q.ring, M.Advance(me));
    q.(ring := ring, watch := Watched(q, me),
       writers := Flagged(q.writers, me, M.IsClosed(ring)), readers := Flagged(q.readers, me, M.IsClosed(ring)))
  }

  /** A step in the ring, and where it leads. */
  function RingStep<T>(q: Queue<T>, me: nat): (r: Queue<T>)
    requires Has(q, me)
    ensures |r.phases| == |q.phases| && r.phases == q.phases[me := r.phases[me]]
  {
    var pc, q' := q.ring.threads[me], InnerStep(q, me);
    if M.AtRest(pc) || pc.Undefined? then q
    else if pc.SWait? then Move(q, me, WaitsWriter).(writers := W.Next(q.writers, W.StartWait(me)))
    else if pc.RWait? then Move(q, me, WaitsReader).(readers := W.Next(q.readers, W.StartWait(me)))
    else if pc.SPublish? then q'.(phases := q.phases[me := NotifiesReaders], readers := W.Next(q'.readers, W.StartWakeOne(me)))
    else if pc.RRelease? then q'.(phases := q.phases[me := NotifiesWriters], writers := W.Next(q'.writers, W.StartWakeOne(me)))
    else if pc.CCas? && q.ring.writeMeta == pc.meta then q'.(phases := q.phases[me := ClosesWriters], writers := U.Enter(q'.writers, me))
    else if pc.CLoad? && q.ring.writeMeta >= MASK64 then q'.(returned := true)
    else q'
  }

  /** How a wait that is over goes on in the ring. */
  function Onward<T>(me: nat, out: W.Outcome): M.Action<T> {
    if out.Closed? then M.Advance(me) else M.Resume(me)
  }

  function WriterStep<T>(q: Queue<T>, me: nat): (r: Queue<T>)
    requires Has(q, me)
    ensures |r.phases| == |q.phases| && r.phases == q.phases[me := r.phases[me]]
  {
    var pc := q.writers.threads[me];
    match q.phases[me]
    case WaitsWriter =>
      if pc.WaitDone? then Move(q, me, InRing).(ring := M.Next(q.ring, Onward(me, pc.out)))
      else q.(writers := W.Next(q.writers, W.Step(me, Ready(q, me))))
    case NotifiesWriters => if pc.NoteDone? then Move(q, me, InRing) else q.(writers := W.Next(q.writers, W.Step(me, false)))
    case ClosesWriters =>
      if pc.CloseDone? then Move(q, me, ClosesReaders).(readers := U.Enter(q.readers, me))
      else q.(writers := W.Next(q.writers, W.Step(me, false)))
    case _ => q
  }

  function ReaderStep<T>(q: Queue<T>, me: nat): (r: Queue<T>)
    requires Has(q, me)
    ensures |r.phases| == |q.phases| && r.phases == q.phases[me := r.phases[me]]
  {
    var pc := q.readers.threads[me];
    match q.phases[me]
    case WaitsReader =>
      if pc.WaitDone? then Move(q, me, InRing).(ring := M.Next(q.ring, Onward(me, pc.out)))
      else q.(readers := W.Next(q.readers, W.Step(me, Ready(q, me))))
    case NotifiesReaders => if pc.NoteDone? then Move(q, me, InRing) else q.(readers := W.Next(q.readers, W.Step(me, false)))
    case ClosesReaders =>
      if pc.CloseDone? then Move(q, me, InRing).(returned := true, through := true)
      else q.(readers := W.Next(q.readers, W.Step(me, false)))
    case _ => q
  }

  /** An action of the wakers' own, taken by a waiting thread. */
  function WaitAction<T>(q: Queue<T>, me: nat, a: W.Action): (r: Queue<T>)
    requires Has(q, me)
    ensures r.phases == q.phases && r.ring == q.ring
  {
    match q.phases[me]
    case WaitsWriter => q.(writers := W.Next(q.writers, a))
    case WaitsReader => q.(readers := W.Next(q.readers, a))
    case _ => q
  }

  predicate AtWriters(p: Phase) {
    p.WaitsWriter? || p.NotifiesWriters? || p.ClosesWriters?
  }

  predicate AtReaders(p: Phase) {
    p.WaitsReader? || p.NotifiesReaders? || p.ClosesReaders?
  }

  function Next<T>(q: Queue<T>, a: Action<T>): Queue<T> {
    match a
    case Start(call) => if IsCall(call) && Has(q, call.me) && Free(q, call.me) then q.(ring := M.Next(q.ring, call)) else q
    case Step(me) =>
      if !Has(q, me) then q
      else if AtWriters(q.phases[me]) then WriterStep(q, me)
      else if AtReaders(q.phases[me]) then ReaderStep(q, me)
      else RingStep(q, me)
    case GiveUp(me) => if Has(q, me) then WaitAction(q, me, W.GiveUpRetry(me)) else q
    case Spurious(me) => if Has(q, me) then WaitAction(q, me, W.Spurious(me)) else q
  }

  function Exec<T>(q: Queue<T>, run: seq<Action<T>>): Queue<T> {
    if run == [] then q else Next(Exec(q, run[..|run| - 1]), run[|run| - 1])
  }

  /** The thread that takes an action. */
  function By<T>(a: Action<T>): nat {
    match a
    case Start(call) => call.me
    case Step(me) => me
    case GiveUp(me) => me
    case Spurious(me) => me
  }
}
