# Omango queues and synchronisers, verified

Omango is a crate of ring queues in the style of Dmitry Vyukov, with channels and small blocking tools built on them.
This project models its hard core and proves what the crate is for: that each queue is one FIFO queue in every
interleaving, what its answers mean under stale snapshots, what closing does, and that its waiting protocols
do not forget anybody.

Each concurrent part appears twice.

- A **step system** (`MpmcRing`, `SpscRing`, `SpscChain`, `Waker`, `MpmcQueue`, `WaitGroups`, `SourceGroups`): one step per access
  to a shared word, any interleaving of the threads, a run being any sequence of actions. An action its thread cannot take
  changes nothing. Undefined behaviour (an access outside the buffer, a read of an unwritten message, a pointer to a freed
  node) is a state of its own, and is proved unreachable. Histories such as `sent` or `taken` are read by no step.
- The **source's own loops** as classes over mutable fields and arrays (`MpmcBounded`, `SpscBounded`, `SpscUnbounded`,
  `WakerCalls`, `WaiterList`, `WaitGroup`, `SourceGroup`). Except in `WaiterList`, whose list lives behind a lock, the other threads
  take any number of steps before each shared access; what they will still do is an arbitrary finite `schedule`, and every
  result is tied to the step system by `Valid` (the present state is the state after the recorded run). A call that
  the source lets go round without bound takes a `patience`, an arbitrary number of rounds. When it returns no result it names
  the moments of the run at which its rounds found nothing (`Moments`): no room, nothing to read, the flag unset, the lock held.

| module | what it holds |
|---|---|
| `Words`, `Options`, `Tickets`, `Elem`, `Moments` | machine words with their wrap-around, packing of lap and index, ticket arithmetic, a slot, moments of a run |
| `MpmcRing`, `MpmcInvariant`, `MpmcSteps`, `MpmcTheorems`, `MpmcSelfClose`, `MpmcBounded` | the bounded MPMC ring, any number of threads |
| `SpscRing`, `SpscInvariant`, `SpscTheorems`, `SpscProgress`, `SpscBounded` | the bounded SPSC ring, whose laps wrap modulo 2^32 |
| `SpscChain`, `SpscChainRings`, `SpscChainInvariant`, `SpscChainSteps`, `SpscChainTheorems`, `SpscChainProgress`, `SpscChainSpin`, `SpscUnbounded` | the unbounded SPSC queue built from rings |
| `Waker`, `WakerTheorems`, `WakerSteps`, `WakerNotes`, `WakerClosing`, `WakerCalls`, `WaiterList` | one waker: parking, waking, and its close; its calls and its list as objects |
| `WakerUse`, `MpmcQueue`, `MpmcQueueInvariant`, `MpmcQueueTheorems`, `MpmcQueueLeft`, `MpmcQueueWitness`, `MpmcQueueEnds`, `MpmcQueueWakes`, `MpmcQueueWatch`, `MpmcQueueServed`, `MpmcQueueHandover` | the MPMC ring and its two wakers as one system of whole calls: whom a notification wakes and what the woken call gets, what a close ends, and whom it can leave asleep |
| `WaitGroups`, `WaitGroup` | the wait group |
| `SourceGroups`, `SourceGroupTheorems`, `SourceGroupOutcomes`, `SourceGroup` | the source group, over the wait group |

Notation. W and R count the write and the read claims. Ticket t lies in slot `t % cap`, with write lap `2 * (t / cap)` and
read lap one more. A claim window lies between a winning CAS (in SPSC, the step on the private meta) and the
lap store that follows it.

Assumptions. Memory is sequentially consistent. A CAS does not fail spuriously (a spurious failure at
src/queue/unbounded.rs:147 would drop a node and refuse the message). A futex wait compares and sleeps in one step and may
return for no reason. A queue is made with a capacity of at most 2^30, as its constructor asserts, and capacity 0 becomes
1. An SPSC queue has one thread on each side.

Where the code and its documentation differ, the model follows the code.

- After `close`, "all" sends should fail (src/queue/bounded.rs:150-155). In SPSC one send that had already looked at
  the flag may still succeed: `SpscTheorems.SendsPastClose` and `SpscTheorems.SendPastCloseExact` say exactly which,
  `SpscTheorems.SendPastCloseReachable` that it occurs.
- `try_send` is non-blocking by its description. In SPSC it goes round for ever on an unread slot in the wrapped lap:
  `SpscTheorems.TrySendComesBack` says exactly when it comes back, `SpscTheorems.SpinReachable` that the case occurs.
- The unbounded SPSC `send` is described as not blocking (src/queue/spsc.rs:519), and links a fresh ring when the tail ring is
  full (src/queue/unbounded.rs:143-160). One ring can stay in
  use for any number of turns, and when it comes full in its wrapped lap the `try_send` inside it goes round instead of
  answering Full: `SpscChainProgress.SendComesBack` and `SpscChainSpin.SpinReachable`.
- An MPMC queue that nobody closes closes itself at send number cap * 2^30: `MpmcTheorems.SelfCloseExact`, and
  `MpmcSelfClose.SelfCloseReachable`. From then on `close` returns at once (src/queue/bounded.rs:419-421). The send that
  sets the bit still makes its one notification, which wakes a sleeper it reaches; but a reader that has looked at the bit
  and the slot and not yet stored its parked word is not reached, and then sleeps for good:
  `MpmcQueueWitness.AbandonsIff`, `MpmcQueueLeft.AbandonedForGood`. A close that sets the bit itself, and an SPSC close
  (src/queue/bounded.rs:230-234), which has no such test, go through both wakers, and after those nobody is parked:
  `MpmcQueueTheorems.NobodyParkedAfterClose`, `WakerTheorems.NoParkingAfterClose`.
- `WaitGroup::wait` "blocks until the counter is zero". When two threads wait, one may be left asleep at zero, with two
  threads in all and as its own example has them: `WaitGroups.StrandsIffTwoWait`.
- `WaitGroup::add` is documented to take negative deltas and to panic below zero; the code takes a `u32` and wraps.

## Model

| member | source | states |
|---|---|---|
| `MpmcTheorems.Fifo` | src/queue/bounded.rs:456-573 | over any run of any number of threads, the receiver that claimed read ticket t gets the message of write ticket t; R <= W <= R + cap; every answer of a receive carries its own ticket's message |
| `MpmcTheorems.SafeAccess` | src/queue/elem.rs:50-69 | no run meets undefined behaviour; two claim windows never share a slot; `write` finds the slot empty, `read` finds its ticket's message |
| `MpmcSteps.WindowsExclusive` | src/queue/bounded.rs:480-486 | threads in claim windows stand on different slots |
| `MpmcSteps.RunKeepsInv` | src/queue/bounded.rs:456-573 | the ring invariant (slot laps, tickets, snapshots, claims) holds in every reachable state |
| `MpmcSteps.ClaimSendFits` | src/queue/bounded.rs:471-487 | a CAS that would win finds a current snapshot, room in the ring, and an empty slot at the write lap of ticket W |
| `MpmcSteps.ClaimRecvFits` | src/queue/bounded.rs:528-544 | a CAS that would win finds a current snapshot and the published message of ticket R |
| `MpmcTheorems.RunRefinesQueue` | src/queue/bounded.rs:456-573 | over any run, the winning CASes replayed on a plain queue of the same capacity never append to a full or remove from an empty one, and leave there exactly the accepted, unclaimed messages |
| `MpmcTheorems.StepApplies` | src/queue/bounded.rs:456-573 | every step is a step of an abstract bounded queue: nothing, one append by a winning send CAS, or one removal at the front by a winning receive CAS |
| `MpmcTheorems.RunGrows` | src/queue/bounded.rs:417-573 | over any run accepted messages keep their tickets, delivered ones stay delivered, slot laps only rise, and a closed queue accepts nothing more |
| `MpmcTheorems.StepEffect` | src/queue/bounded.rs:480-486 | only a winning CAS claims a ticket, only a claim or a closer moves the write meta, and slots change only inside claim windows |
| `MpmcTheorems.AcceptedIsHeld` | src/queue/elem.rs:50-56 | an accepted, unclaimed ticket lies published in its slot, or its sender is still between CAS and lap store |
| `MpmcTheorems.NothingLost` | src/queue/elem.rs:50-69 | with no thread inside a window, each accepted message was delivered or lies in its slot |
| `MpmcTheorems.FullExact` | src/queue/bounded.rs:493-497 | at the second lap load, Full if and only if the snapshot is current and W - R = cap or the reader of ticket W - cap still owns its slot |
| `MpmcTheorems.EmptyExact` | src/queue/bounded.rs:550-554 | Empty if and only if the snapshot is current and W = R or the sender of ticket R has not published |
| `MpmcTheorems.LessOnlyWhenStale` | src/queue/bounded.rs:507-511 | a slot lap above the snapshot's lap means that the own side has claimed since the snapshot |
| `MpmcTheorems.CloseFreezes` | src/queue/bounded.rs:417-444 | from a closed state on W never moves; with no sender in flight a receive fails if and only if every accepted ticket is claimed |
| `MpmcTheorems.DisconnectedExact` | src/queue/bounded.rs:465-467 | a send is refused as disconnected only on a closed queue, and always when it starts on one |
| `MpmcTheorems.RecvErrorMeaning` | src/queue/bounded.rs:121-148 | `recv` gives up only on a closed queue, with every accepted message claimed or the head's sender in flight |
| `MpmcTheorems.SelfCloseExact` | src/queue/bounded.rs:473-479 | without a closer W <= cap * 2^30 in every run, and the queue is closed if and only if W = cap * 2^30 |
| `MpmcSelfClose.SelfCloseReachable` | src/queue/bounded.rs:473-479 | at every capacity, and with one thread or more, a run without a closer gets there, with every message received |
| `MpmcTheorems.LapsNeverWrap` | src/queue/bounded.rs:473-479 | every claim moves its meta by exactly one index, or to index 0 two laps on: no carry, no wrap |
| `MpmcTheorems.SlotLapBound` | src/queue/elem.rs:55-67 | slot laps never pass 2^31 |
| `MpmcBounded.MpmcBounded.constructor` | src/queue/bounded.rs:386-408 | an open, empty ring of capacity 1 for 0, else of the capacity asked |
| `MpmcBounded.MpmcBounded.SelectForSend` | src/queue/bounded.rs:456-515 | the loop ends with a claim on the last ticket, with Closed or with Full as it then is; each round but the last saw, inside it, a write claim, a close or a release by another thread |
| `MpmcBounded.MpmcBounded.SelectForRecv` | src/queue/bounded.rs:517-573 | the same for receives: a claim on the last read ticket, or nothing to read at that instant; each round but the last saw a read claim or a publication by another thread |
| `MpmcBounded.RoundsBounded` | src/queue/bounded.rs:460-572 | so a selection makes at most one round more than there were such steps, and one round when there are none |
| `MpmcBounded.MpmcBounded.Write` | src/queue/elem.rs:50-56 | the claimed slot gets the message and then the lap, and the call is answered with its ticket |
| `MpmcBounded.MpmcBounded.Read` | src/queue/elem.rs:59-69 | what is moved out is the message of the claimed ticket |
| `MpmcBounded.MpmcBounded.TrySend` | src/queue/bounded.rs:54-67 | success puts exactly this message under a new ticket; each refusal hands it back and tells why at that instant |
| `MpmcBounded.MpmcBounded.TryRecv` | src/queue/bounded.rs:72-80 | success delivers the message of a newly claimed ticket; Empty tells why at that instant |
| `MpmcBounded.MpmcBounded.Send` | src/queue/bounded.rs:86-116 | never answers Full; accepted under a new ticket, or disconnected with the message back; unanswered only while waiting, after one selection more than `patience`, each of which found no room at a named moment and was followed by a look that found the queue open |
| `MpmcBounded.MpmcBounded.Recv` | src/queue/bounded.rs:121-148 | never answers Empty; a message of a new ticket, or an error on a closed queue with nothing to read; unanswered only while waiting, after one selection more than `patience`, each of which found nothing to read and was followed by a look that found the queue open |
| `MpmcBounded.MpmcBounded.Close` | src/queue/bounded.rs:417-440 | sets the closed bit, in at most one round more than other threads moved |
| `Tickets.TicketRoundTrip` | src/queue/bounded.rs:461-463 | a ticket and its pair of round and slot determine each other |
| `Words.BumpWithoutWrap` | src/queue/bounded.rs:473-479 | below the last two laps the increment of a meta neither carries into the lap nor wraps |
| `Words.WrapLaps` | src/queue/bounded.rs:264-268 | write and read laps of successive rounds modulo 2^32, with parity and order kept except at the wrap |
| `SpscInvariant.RunKeepsInv` | src/queue/bounded.rs:246-326 | the ring invariant, with slot laps congruent modulo 2^32 to the lap of their ticket's phase, holds in runs of any length |
| `SpscTheorems.Fifo` | src/queue/bounded.rs:246-326 | across any number of lap wraps: received is a prefix of sent, at most cap behind; the two windows never share a slot; `write` finds it empty and `read` finds the next message; no undefined behaviour |
| `SpscTheorems.RunGrows` | src/queue/bounded.rs:230-326 | sent, received and the closed flag only grow |
| `SpscTheorems.SendDecision` | src/queue/bounded.rs:259-284 | an open send claims, rechecks or goes round by the state of the tail slot alone, the last exactly in the wrapped lap |
| `SpscTheorems.FullExact` | src/queue/bounded.rs:271-280 | Full if and only if the tail slot is unread and the write lap is not the wrapped 0 |
| `SpscTheorems.RecvDecision` | src/queue/bounded.rs:296-319 | a receive claims if and only if the head ticket is published, else finds nothing; it never goes round on a wrapped lap |
| `SpscTheorems.RecvErrorMeaning` | src/queue/bounded.rs:121-148 | `recv` gives up only on a closed queue, with everything received but a send in flight |
| `SpscTheorems.SendStartedAfterClose` | src/queue/bounded.rs:250-257 | a send begun on a closed queue is turned away with its message as soon as it takes a step, whatever the others do over any run, and nothing is sent |
| `SpscTheorems.SendsPastClose` | src/queue/bounded.rs:230-270 | after a close at most one more send succeeds, and only if it had passed its look at the flag |
| `SpscTheorems.SendPastCloseExact` | src/queue/bounded.rs:255-270 | on a closed queue a step sends if and only if it is that sender's lap load and its slot is free |
| `SpscTheorems.SendPastCloseReachable` | src/queue/bounded.rs:255-270 | at every capacity a run of look, close and claim sends past the close |
| `SpscTheorems.TrySendComesBack` | src/queue/bounded.rs:246-287 | running alone, `try_send` comes back if and only if the queue is closed, or the tail slot is free, or the lap is not the wrapped one; then in five steps, with the answer those conditions give |
| `SpscTheorems.SpinsOn` | src/queue/bounded.rs:281-284 | in the wrapped lap it goes round, whatever others do, until the slot is released or the queue closed |
| `SpscTheorems.SpinReachable` | src/queue/bounded.rs:246-287 | for every capacity a run leads there |
| `SpscProgress.RecvComesBack` | src/queue/bounded.rs:121-148 | `recv` running alone comes back if and only if the next message is published or the queue is closed: with that message, else with the error, in at most eight steps |
| `SpscProgress.WaitingRecvComesBack` | src/queue/waker.rs:84-98 | one that waits comes back by itself if and only if the queue is closed, with the next message if it is published, else with the error; woken on an open queue it goes on as from its first access |
| `SpscProgress.TryRecvComesBack` | src/queue/bounded.rs:72-80 | `try_recv` running alone always comes back, with the next message or with Empty as it is published or not |
| `SpscProgress.SendComesBack` | src/queue/bounded.rs:86-116 | `send` running alone comes back if and only if the queue is closed or the tail slot is free, in at most four steps |
| `SpscProgress.WaitingSendComesBack` | src/queue/waker.rs:84-98 | one that waits comes back by itself if and only if the queue is closed; woken on an open queue it goes on as from its first access |
| `SpscBounded.SpscBounded.constructor` | src/queue/bounded.rs:200-226 | an open, empty ring of capacity 1 for 0, else of the capacity asked |
| `SpscBounded.SpscBounded.SelectForSend` | src/queue/bounded.rs:246-287 | claim, Closed or Full as the tail slot then is; the Less branch is taken in the wrapped lap only, any number of times and whether or not others move; besides those at most two rounds, a second one only if the slot was unread at the call |
| `SpscBounded.SpscBounded.SelectForRecv` | src/queue/bounded.rs:289-326 | claim on the head, or everything published already received; at most two rounds, a second one only if nothing unread was published at the call |
| `SpscBounded.SpscBounded.Write` | src/queue/elem.rs:50-56 | the claimed slot is written and published, and nothing else is sent |
| `SpscBounded.SpscBounded.Read` | src/queue/elem.rs:59-69 | the head's message is appended to what was received and is the answer |
| `SpscBounded.SpscBounded.TrySend` | src/queue/bounded.rs:54-67 | success appends exactly this message; each refusal hands it back and tells why; unanswered only after `patience` spins in the wrapped lap, never on a closed queue, nor undisturbed outside that lap |
| `SpscBounded.SpscBounded.TryRecv` | src/queue/bounded.rs:72-80 | success delivers the next message in order; Empty means everything published was received |
| `SpscBounded.SpscBounded.Send` | src/queue/bounded.rs:86-116 | appends the message, or hands it back on a closed queue; never Full; a call on a closed queue, or undisturbed with the tail slot free, has an answer; without one it has spun `patience` times in the wrapped lap, or waits after `patience` + 1 selections that found no room, each followed by a look that found the queue open |
| `SpscBounded.SpscBounded.Recv` | src/queue/bounded.rs:121-148 | delivers the next message, or fails on a closed queue with everything published received; never Empty; a call on a closed queue, or undisturbed with something published, has an answer; without one it waits after `patience` + 1 selections that found nothing to read, each followed by a look that found the queue open |
| `SpscBounded.SpscBounded.CloseQueue` | src/queue/bounded.rs:230-231 | the flag is set and nothing else changes |
| `SpscChainSteps.RunKeepsInv` | src/queue/unbounded.rs:135-202 | the chain invariant (rings before the head drained and closed, links in order, frees behind the head) holds over any run |
| `SpscChainTheorems.OneQueue` | src/queue/unbounded.rs:135-192 | over any run and any number of hops: accepted = delivered followed by the unread contents of the rings in order |
| `SpscChainTheorems.Answers` | src/queue/unbounded.rs:135-192 | `send` appends its message or hands it back, the latter only after `close`; `recv` delivers the next message, or ends after `close` with everything accepted delivered |
| `SpscChainTheorems.HopsAndLinks` | src/queue/unbounded.rs:143-191 | the receiver hops only from a closed, drained ring; the discarded `try_send` into a fresh ring succeeds; the link CAS finds a null pointer |
| `SpscChainTheorems.NoUseAfterFree` | src/queue/unbounded.rs:169-191 | no step follows a pointer to a freed node or frees one twice; the head is never freed |
| `SpscChainTheorems.RunGrows` | src/queue/unbounded.rs:39-59 | a link is written once and stays; frees, accepted and delivered only grow; after the dummy's link nothing more is accepted |
| `SpscChainTheorems.SendAfterClose` | src/queue/unbounded.rs:61-76 | a send begun after `close` hands back its own message, in three steps |
| `SpscChainProgress.SendComesBack` | src/queue/unbounded.rs:135-167 | `send` running alone comes back if and only if the queue is closed or its tail ring is not full in the wrapped lap; on an open queue the message is then accepted, through a fresh ring if the tail ring is full; in at most sixteen steps |
| `SpscChainProgress.RecvComesBack` | src/queue/unbounded.rs:169-192 | `recv` running alone comes back if and only if a message sent and published is undelivered, or `close` has set its flag and closed the head ring; then with the next message, over a hop if need be, else with the end; in at most twenty-eight steps |
| `SpscChainSpin.SpinReachable` | src/queue/unbounded.rs:135-167 | a run of one open ring, filled in its wrapped lap, leads to a `send` that goes round for ever where it should link a fresh ring |
| `SpscUnbounded.SpscUnbounded.constructor` | src/queue/unbounded.rs:121-131 | an open, empty queue |
| `SpscUnbounded.SpscUnbounded.Send` | src/queue/unbounded.rs:135-167 | through the tail ring or a freshly linked one, this message is appended; or it comes back after `close`; unanswered only after going round `patience` + 1 times in the tail ring, at named moments, and with nothing scheduled only on a tail ring full in its wrapped lap |
| `SpscUnbounded.SpscUnbounded.Recv` | src/queue/unbounded.rs:169-192 | from the head ring or the next one, the next message; or the end, after `close`, with everything accepted delivered; unanswered only in a ring it found empty and open, or without a next node, `patience` + 1 times at named moments, and with nothing scheduled only if nothing published is undelivered and the head ring is not closed for good |
| `SpscUnbounded.SpscUnbounded.Close` | src/queue/unbounded.rs:194-202 | called by the sending thread with head and tail one node: the queue is closed and what was accepted stays |
| `WakerTheorems.RunKeepsInv` | src/queue/waker.rs:203-251 | the waker invariant over any run of waiters, notifiers and closers |
| `WakerTheorems.NoParkingAfterClose` | src/queue/waker.rs:241-251 | once some `close` has returned, no thread is asleep or past its last look at the flag, then or in any later state |
| `WakerTheorems.MarkExact` | src/queue/waker.rs:241-251 | over any run the metadata's closed mark is set if and only if some `close` found somebody in the list |
| `WakerTheorems.ListIsSound` | src/queue/waker.rs:119-170 | over any run: the list holds exactly the threads between a successful `register` and `unregister`, once each; `start` is within it, so `notify` cannot fail; with the lock free the empty flag is exact |
| `WakerTheorems.LockExcludes` | src/queue/waker.rs:203-251 | two threads are never inside together |
| `WakerTheorems.ParkingOnlyShrinksRun` | src/queue/waker.rs:63-98 | once the queue's flag is set, no run takes a thread into parking that was not there |
| `WakerTheorems.SweepStarts` | src/queue/waker.rs:241-246 | the sweep of a `close` that found somebody has every sleeper before it |
| `WakerTheorems.SweepWakesAll` | src/queue/waker.rs:163-170 | run on its own, the sweep leaves nobody asleep |
| `WakerClosing.CloseComesBack` | src/queue/waker.rs:241-251 | with the lock free, a close running alone comes back if and only if nobody is in the list; else it sweeps round for ever |
| `WakerClosing.WaitersLeave` | src/queue/waker.rs:241-251 | once the flag is set, over any run without new waits, the waiting threads get on at most 12 times each; when they have nothing left to do the list is empty, which is when `close` comes back |
| `WakerCalls.SharedWaker.Wait` | src/queue/bounded.rs:98-114 | `retry`, `register`, `sleep`, `unregister` in turn, among other threads' steps: when the wait is over its waiter is out of the list, and Closed is answered only with the flag set, and at once if it was set at the call; else it is asleep, or was about to park `patience` times, or found the lock held `patience` times |
| `WakerCalls.SharedWaker.Register` | src/queue/waker.rs:203-216 | behind the lock: in the list and about to sleep, or refused and outside; undecided only if the lock was held at each of `patience` tries |
| `WakerCalls.SharedWaker.Sleep` | src/queue/waker.rs:84-98 | ends unparked on the flag or a changed slot, and at once if the flag was set; otherwise it came to park in each turn, after both looks, and is asleep or has used its turns |
| `WakerCalls.SharedWaker.WakeOne` | src/queue/waker.rs:232-236 | the empty flag, then `notify` behind the lock; it is short of its end only if the lock was held at each of `patience` tries |
| `WakerCalls.SharedWaker.Close` | src/queue/waker.rs:241-251 | when the loop ends the flag is set and no thread is asleep or past its last look, whatever the others did in between; otherwise it swept `patience` lists with somebody in them, or found the lock held `patience` times |
| `MpmcQueueInvariant.RunKeepsInv` | src/queue/bounded.rs:417-444 | over any run of whole calls the ring's and both wakers' invariants hold together, every thread is in the waker call its own call calls for, and the wakers' flag is the ring's bit |
| `MpmcQueueTheorems.RingRuns` | src/queue/bounded.rs:86-148 | in any run of the whole queue its ring makes a run of the ring, so that waits, wake-ups and closes add nothing to it |
| `MpmcQueueTheorems.WholeQueueRefines` | src/queue/bounded.rs:456-573 | over any run of whole calls the winning CASes replay on a plain bounded queue, with its contents, and every receive is in order |
| `MpmcQueueTheorems.NobodyParkedAfterClose` | src/queue/bounded.rs:417-444 | once a close that was not turned back by the bit has returned, nobody is parked on either waker, then or in any later state |
| `MpmcQueueTheorems.LeftBehindMeans` | src/queue/bounded.rs:419-421 | when a close has returned, none is in flight and somebody is parked, then the queue had closed itself: W = cap * 2^30, and no close went through the wakers |
| `MpmcQueueEnds.BlockedRecvEnds` | src/queue/bounded.rs:121-148 | with the bit set, a `recv` inside its wait, not parked and with the readers' lock free or its own, ends by its own steps |
| `MpmcQueueEnds.BlockedSendEnds` | src/queue/bounded.rs:86-116 | so does a `send` inside its wait, with the writers' lock |
| `MpmcQueueEnds.AllBlockedEnd` | src/queue/bounded.rs:417-444 | in every state after a close that was not turned back, a blocked call ends by its own steps, given its waker's lock |
| `MpmcQueueWakes.PublishWakes` | src/queue/waker.rs:144-157 | a send before its lap store, run alone to its end with the readers' lock free, leaves none of the readers asleep that were reached before, nor the next one in the list; a single sleeper is awake |
| `MpmcQueueWakes.ReleaseWakes` | src/queue/bounded.rs:72-80 | a receive before its lap store, likewise for the writers |
| `MpmcQueueWatch.NobodyWatchesInVain` | src/queue/bounded.rs:133-146 | in every reachable state, when the next message is accepted, unclaimed and published, the lap that a waiting `recv` watches has changed; when the next slot is free, the lap that a waiting `send` watches |
| `MpmcQueueServed.WaitingRecvServed` | src/queue/bounded.rs:121-148 | a waiting `recv`, not past its last look, with its waker's lock free and the next message there, is delivered that message by its own steps |
| `MpmcQueueServed.WaitingSendServed` | src/queue/bounded.rs:86-116 | a waiting `send` of an open queue, likewise with the next slot free: its message is accepted under the next ticket |
| `MpmcQueueHandover.SendHandsOver` | src/queue/bounded.rs:86-148 | a send about to publish the head's message, alone to its end, and then a `recv` asleep among those its notification reaches, alone: that `recv` is delivered that message |
| `MpmcQueueHandover.RecvLetsIn` | src/queue/bounded.rs:86-148 | a receive about to release the next slot, alone to its end, and then a `send` asleep among those reached, alone: its message is accepted there |
| `MpmcQueueHandover.RecvNeedsNotice` | src/queue/waker.rs:84-98 | with the next message there and the lock free, a waiting `recv` comes back by itself if and only if it has another look before the futex |
| `MpmcQueueHandover.SendNeedsNotice` | src/queue/waker.rs:84-98 | so does a waiting `send` with the next slot free |
| `MpmcQueueWitness.TwoThreadsAbandon` | src/queue/bounded.rs:417-421 | the run, at any capacity: messages up to the last claim are sent and received, a reader looks and stops before its parked store, the last send sets the bit, publishes and notifies in vain, the reader sleeps, a close returns at once |
| `MpmcQueueWitness.AbandonsIff` | src/queue/waker.rs:91-96 | a run can leave a reader asleep after a returned close, with no close, no send past its claim and no notification of readers in flight, if and only if there are two threads or more |
| `MpmcQueueLeft.AbandonedForGood` | src/queue/bounded.rs:417-421 | that lasts over any further run, whatever anybody calls, unless the sleeper wakes spuriously |
| `WaiterList.Deque.Register` | src/queue/waker.rs:119-121 | the waiter stands last in the list |
| `WaiterList.Deque.Unregister` | src/queue/waker.rs:125-138 | the first entry of the waiter goes, and `start` stays within the list |
| `WaiterList.Deque.Notify` | src/queue/waker.rs:144-157 | reaches one waiter more and wakes exactly the parked ones among those reached, in order |
| `WaiterList.Deque.Close` | src/queue/waker.rs:163-170 | wakes everybody in the list and sets the mark |
| `WaiterList.ParkedAmongMembers` | src/queue/waker.rs:149-156 | a waiter is woken if and only if it is parked and among those reached |
| `WaiterList.UnregisterUndoesRegister` | src/queue/waker.rs:119-138 | registering and unregistering a new waiter leaves every other in its place |
| `WaitGroups.CountIsBalance` | src/wg.rs:108-121 | over any run the count is the initial one plus the deltas of all calls of `add`, less the number of calls of `done`, summed over the run, modulo 2^32 |
| `WaitGroups.MisuseExact` | src/wg.rs:108-121 | a call past an end is noted if and only if that balance once left 0 to 2^32 - 1; until then the count is the balance itself |
| `WaitGroups.ReturnsAfterZero` | src/wg.rs:136-146 | a thread leaves `wait` only through a moment at which the count is zero |
| `WaitGroups.WaitJoins` | src/wg.rs:119-141 | with the balance in range throughout, `wait` returns only through a moment at which as many calls of `done` had been made as members added |
| `WaitGroups.OneWaiterNeverStranded` | src/wg.rs:119-141 | if one thread waits, whichever it is, over any number of rounds, it is never asleep at count zero with no `done` between its decrement and its `wake_all` |
| `WaitGroups.DoneWakes` | src/wg.rs:126-127 | in any run in which that `done` gets to its end there is a moment at which nobody is asleep |
| `WaitGroups.StrandsIffTwoWait` | src/wg.rs:136-141 | for any number of threads and of initial members, a run within range can strand a waiter if and only if two different threads or more wait |
| `WaitGroups.TwoWaitersStrand` | src/wg.rs:119-141 | the run, for any two threads: one is done, waits and resets the flag before the other sleeps on it |
| `WaitGroups.StrandedStays` | src/wg.rs:136-141 | a stranded waiter stays so while the others only wait |
| `WaitGroup.WaitGroup.Add` | src/wg.rs:108-110 | one access, which adds n in 32 bits to the count it finds and touches nothing else |
| `WaitGroup.WaitGroup.Done` | src/wg.rs:119-128 | the assertion holds if and only if its decrement found the count above zero; if it found one, then nobody is asleep at its end |
| `WaitGroup.WaitGroup.Wait` | src/wg.rs:136-141 | returns only through a moment of this call at which the count was zero, whatever the others do between its accesses, and undisturbed returns when it is zero; else it is asleep, or made `patience` rounds, the count being above zero at each look |
| `SourceGroupTheorems.RunKeepsInv` | src/single/source.rs:131-150 | the group invariant over any run of fewer than 2^32 calls of `add` |
| `SourceGroupTheorems.SlotsAndCount` | src/single/source.rs:131-150 | concurrent `add`s hold different slots, no `done` finds the count at zero, and the count is the number of unfinished sources |
| `SourceGroupTheorems.SumJoins` | src/single/source.rs:212-214 | when some `sum` has returned all n slots hold the key and the outcome of the `add` that took them |
| `SourceGroupTheorems.SlotsFrozen` | src/single/source.rs:131-150 | from then on no slot changes, whatever is called |
| `SourceGroupTheorems.GetAfterSum` | src/single/source.rs:194-203 | after `sum`, `get` never reads an unwritten result; an unknown key is an error; otherwise it gives the outcome recorded by the first `add` of that key in slot order |
| `SourceGroupOutcomes.GetAnswersTheEnding` | src/single/source.rs:131-203 | for every `add` of any run: once some `sum` has returned its slot holds its key and what its function ended with, value, error or panic case by case, and `get` answers with that unless a slot before has the same key |
| `SourceGroupTheorems.WgRuns` | src/single/source.rs:149-214 | what a source group does to its wait group is a run of that wait group |
| `SourceGroupTheorems.SumNotStranded` | src/single/source.rs:212-214 | a single caller of `sum`, whichever thread it is, is never left asleep with every source done |
| `SourceGroup.SourceGroup.Add` | src/single/source.rs:131-150 | among any interleaved calls, refused only when every slot is taken; else at its return some slot counted done holds its key and its outcome: a value as that value, an error in its printed form with the prefix, a panic as the fixed message |
| `SourceGroup.SourceGroup.Sum` | src/single/source.rs:212-214 | when it returns every slot is filled; undisturbed at count zero it returns; else it is asleep, or made `patience` rounds, the count being above zero at each look |
| `SourceGroup.SourceGroup.Get` | src/single/source.rs:194-203 | the loop finds the first slot with the key, or none |

## Left out

- `MpmcUnbounded` (src/queue/unbounded.rs:244-333): a receiver can find a ring closed and empty, hop and free it while a sender still holds a claimed, unwritten slot, so nothing like `SpscChainTheorems.OneQueue` holds of it.
- SpscUnbounded.SpscUnbounded.Close: only by the sending thread, once, and with head and tail one node. On a chain of several rings only the head and its successor get closed, and a second call can spin for ever (src/queue/unbounded.rs:39-76).
- SpscUnbounded.SpscUnbounded.Send: nodes and their rings are values in a sequence; a pointer is an index, so aliasing of nodes is modelled by indices, and inside a ring the call takes the ring's steps rather than calling an object. The same holds of `Recv`.
- MpmcBounded.MpmcBounded.TrySend: the class stops before the wake-up of a reader after success; `MpmcQueue` makes it.
- MpmcBounded.MpmcBounded.TryRecv: the class stops before the wake-up of a writer after success; `MpmcQueue` makes it.
- MpmcBounded.MpmcBounded.Send: in the class a wait is `Await`, which looks at the flag first and then may end at any time, or with the flag seen; the wait as it is, and the wake-up after success, are in `MpmcQueue`.
- MpmcBounded.MpmcBounded.Recv: likewise.
- MpmcBounded.MpmcBounded.Close: the class stops before the wakers; `MpmcQueue` closes them.
- SpscBounded.SpscBounded.TrySend: without the wake-up of the reader after success.
- SpscBounded.SpscBounded.TryRecv: without the wake-up of the sender after success.
- SpscBounded.SpscBounded.Send: waits by `AwaitRoom`, as in the MPMC class.
- SpscBounded.SpscBounded.Recv: waits by `AwaitMessage`, as in the MPMC class.
- SpscBounded.SpscBounded.CloseQueue: stops before the wakers, as in the MPMC class.
- The SPSC ring and its wakers in one system: `Waker` leaves to the environment when the slot's lap changes and who notifies.
- MpmcQueueEnds.AllBlockedEnd: says nothing of a thread that never gets its waker's lock; the mutex is not assumed fair.
- Lost-wakeup freedom of `notify`: a notification between the last look at the slot and the parked store is missed (src/queue/waker.rs:91-96), so it is not claimed; `MpmcQueueHandover.RecvNeedsNotice` says which waiting calls then depend on a further one.
- WakerTheorems.SweepWakesAll: about a sweep without interference; a waiter past its last look when the sweep passes it is reached by the next round of `close` only.
- Strict linearizability of Empty and Full in MPMC: a stalled claimant at the head hides later completed sends; the exact meanings are proved instead.
- `length()` (src/queue/bounded.rs:237-244, 447-454): it is not an element count.
- `src/single/flight.rs`: lookup and insertion are under separate locks, so one execution per key is not kept.
- `source::Group::reset`: it sets the index to n, so the next `add` fails its assertion.
- SourceGroupTheorems.GetAfterSum: about the first `get` of a key; the source moves the result out without marking it, so a second one is undefined.
- `ElemArr::drop`, weak memory orderings, backoff timing, cache padding, the handles of `mpmc.rs` and `spsc.rs`, error formatting, benchmarks, and the insides of the futex and the lock.
