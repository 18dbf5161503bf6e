/**
 The MPMC queue's own loops, over mutable words and a mutable buffer, one thread's call at a time.
 Before each of the call's atomic accesses the other threads take any number of steps of the step
 system (`Interfere`); what they will still do is the arbitrary finite `schedule`.
 */
module MpmcBounded {
  import opened Words
  import opened Options
  import opened Elem
  import opened Tickets
  import opened MpmcRing
  import opened MpmcInvariant
  import opened MpmcSteps
  import opened MpmcTheorems
  import opened Moments

  // What can send a selection round again: on the send side a write claim, a close or a release, on the
  // receive side a read claim or a publication. A lap's half, rounded down, counts the releases of its slot, and
  // rounded up the publications.

  /** No write claim, no close and no release. */
  predicate SendQuiet<T>(s: Ring<T>, s': Ring<T>) {
    && s'.writeMeta == s.writeMeta && |s'.sent| == |s.sent| && |s'.slots| == |s.slots|
    && forall i :: 0 <= i < |s.slots| ==> s'.slots[i].lap / 2 == s.slots[i].lap / 2
  }

  /** No read claim and no publication. */
  predicate RecvQuiet<T>(s: Ring<T>, s': Ring<T>) {
    && s'.readMeta == s.readMeta && |s'.taken| == |s.taken| && |s'.slots| == |s.slots|
    && forall i :: 0 <= i < |s.slots| ==> (s'.slots[i].lap + 1) / 2 == (s.slots[i].lap + 1) / 2
  }

  lemma QuietSelf<T>(s: Ring<T>)
    ensures SendQuiet(s, s) && RecvQuiet(s, s) && Grows(s, s)
  {
  }

  lemma QuietTrans<T>(s: Ring<T>, s1: Ring<T>, s2: Ring<T>)
    ensures SendQuiet(s, s1) && SendQuiet(s1, s2) ==> SendQuiet(s, s2)
    ensures RecvQuiet(s, s1) && RecvQuiet(s1, s2) ==> RecvQuiet(s, s2)
  {
  }

  /** A slot behind a write lap stays behind it without a release, one behind a read lap without a publication. */
  lemma QuietSlot<T>(s: Ring<T>, s': Ring<T>, i: nat, lap: U32)
    requires i < |s.slots| == |s'.slots| && s.slots[i].lap < lap
    ensures SendQuiet(s, s') && lap % 2 == 0 ==> s'.slots[i].lap < lap
    ensures RecvQuiet(s, s') && lap % 2 == 1 ==> s'.slots[i].lap < lap
  {
  }

  lemma TwiceIsEven(r: nat)
    ensures (2 * r) % 2 == 0 && (2 * r + 1) % 2 == 1
  {
  }

  /** Write laps are even, read laps odd. */
  lemma SnapshotParity<T>(s: Ring<T>, me: nat)
    requires Inv(s) && me < |s.threads| && (s.threads[me].SRelap? || s.threads[me].RRelap?)
    ensures LapOf(s.threads[me].snap.meta) % 2 == if s.threads[me].SRelap? then 0 else 1
  {
    assert ThreadOk(s, me, s.threads[me]);
    var snap := s.threads[me].snap;
    TwiceIsEven(RoundOf(snap.seen, |s.slots|));
    if s.threads[me].SRelap? {
      assert SendSnapOk(s, snap) && Metas(s);
      hide Inv, SendSnapOk, Metas, LapOf, RoundOf;
      SendSnapCurrent(s, snap);
    } else {
      assert RecvSnapOk(s, snap) && Metas(s);
      hide Inv, RecvSnapOk, Metas, LapOf, RoundOf;
      RecvSnapCurrent(s, snap);
    }
  }

  /** `marks` are the counts of moves at the start of each round, from `first` on: each round but the last saw at least one move of its own. */
  ghost predicate RoundsPaid(marks: seq<nat>, first: nat) {
    marks != [] && first <= marks[0] && forall i :: 0 <= i < |marks| - 1 ==> marks[i] < marks[i + 1]
  }

  lemma FirstRound(first: nat, now: nat)
    requires first <= now
    ensures RoundsPaid([now], first)
  {
  }

  lemma PaidRound(marks: seq<nat>, first: nat, now: nat)
    requires RoundsPaid(marks, first) && marks[|marks| - 1] < now
    ensures RoundsPaid(marks + [now], first)
  {
  }

  /** So there are no more rounds than moves, and one. */
  lemma {:induction false} RoundsBounded(marks: seq<nat>, first: nat)
    requires RoundsPaid(marks, first)
    ensures |marks| <= 1 + marks[|marks| - 1] - first
  {
    if |marks| > 1 {
      RoundsBounded(marks[..|marks| - 1], first);
    }
  }

  // What a call that is still at it has found, round by round.

  ghost function NoRoomAt<T>(cap: U32, threads: nat): seq<Action<T>> -> bool
    requires cap <= MAX_CAPACITY
  {
    (run: seq<Action<T>>) =>
      var s := Exec(Init(cap, threads), run);
      Shape(s) && (|Contents(s)| == |s.slots| || Unreleased(s, |s.sent| - |s.slots|))
  }

  ghost function NothingAt<T>(cap: U32, threads: nat): seq<Action<T>> -> bool
    requires cap <= MAX_CAPACITY
  {
    (run: seq<Action<T>>) =>
      var s := Exec(Init(cap, threads), run);
      Shape(s) && (Contents(s) == [] || Unpublished(s, |s.taken|))
  }

  ghost function OpenAt<T>(cap: U32, threads: nat): seq<Action<T>> -> bool
    requires cap <= MAX_CAPACITY
  {
    (run: seq<Action<T>>) => !IsClosed(Exec(Init<T>(cap, threads), run))
  }

  lemma NoMoments<T>(run: seq<Action<T>>, from: nat, cap: U32, threads: nat)
    requires cap <= MAX_CAPACITY
    ensures At(run, [], from, NoRoomAt(cap, threads)) && At(run, [], from, NothingAt(cap, threads)) && At(run, [], from, OpenAt(cap, threads))
  {
  }

  /** A moment in the life of a queue. */
  datatype Mark<T> = Mark(view: Ring<T>, run: seq<Action<T>>, sendMoves: nat, recvMoves: nat, left: nat)

  lemma GaveUpClosed<T>(s: Ring<T>, me: nat)
    requires Inv(s) && me < |s.threads| && s.threads[me] == RDone(RecvError)
    ensures IsClosed(s)
  {
    assert ThreadOk(s, me, s.threads[me]);
  }

  class MpmcBounded<T> {
    var readMeta: U64
    var writeMeta: U64
    const buffer: array<Slot<T>>
    const capacity: U32

    // The rest of the step system's state: where all threads stand, and the histories.
    var threads: seq<Pc<T>>
    var sent: seq<T>
    var senders: seq<nat>
    var taken: seq<Option<T>>
    var readers: seq<nat>

    // What the other threads will still do, and how many of their steps could send a selection round again, on each side.
    var schedule: seq<Action<T>>
    var sendMoves: nat
    var recvMoves: nat

    // All steps since the queue was created.
    ghost var run: seq<Action<T>>

    function View(): Ring<T>
      reads this, buffer
    {
      Ring(buffer[..], writeMeta, readMeta, threads, sent, senders, taken, readers)
    }

    ghost predicate Valid()
      reads this, buffer
    {
      && 0 < capacity <= MAX_CAPACITY && buffer.Length == capacity
      && View() == Exec(Init(capacity, |threads|), run)
      && Inv(View())
    }

    ghost function Now(): Mark<T>
      reads this, buffer
    {
      Mark(View(), run, sendMoves, recvMoves, |schedule|)
    }

    /** The queue has run on from mark m: nothing was undone, and every move was a scheduled step. */
    ghost predicate Since(m: Mark<T>)
      reads this, buffer
    {
      && Valid() && |threads| == |m.view.threads|
      && m.run <= run && Grows(m.view, View())
      && m.sendMoves <= sendMoves && sendMoves - m.sendMoves <= m.left - |schedule|
      && m.recvMoves <= recvMoves && recvMoves - m.recvMoves <= m.left - |schedule|
    }

    lemma SinceTrans(m: Mark<T>, n: Mark<T>)
      requires Since(n) && |n.view.threads| == |m.view.threads|
      requires m.run <= n.run && Grows(m.view, n.view)
      requires m.sendMoves <= n.sendMoves && n.sendMoves - m.sendMoves <= m.left - n.left
      requires m.recvMoves <= n.recvMoves && n.recvMoves - m.recvMoves <= m.left - n.left
      ensures Since(m)
    {
      GrowsTrans(m.view, n.view, View());
    }

    /** `MpmcBounded::new` */
    constructor (cap: U32, threadCount: nat, schedule: seq<Action<T>>)
      requires cap <= MAX_CAPACITY
      ensures Valid() && fresh(buffer)
      ensures capacity == (if cap > 0 then cap else 1) && |threads| == threadCount
      ensures Contents(View()) == [] && !IsClosed(View()) && this.schedule == schedule
    {
      var rawCap: U32 := if cap > 0 then cap else 1;
      capacity := rawCap;
      buffer := new Slot<T>[rawCap](_ => Slot(0, None));
      readMeta, writeMeta := TWO32, 0;
      threads := seq(threadCount, _ => Idle);
      sent, senders, taken, readers := [], [], [], [];
      this.schedule, sendMoves, recvMoves, run := schedule, 0, 0, [];
      new;
      InitInv<T>(capacity, threadCount);
      assert View() == Init(capacity, threadCount);
    }

    // -------------------------------------------------------------- steps

    /** One step of any thread, recorded in the run. */
    method Step(a: Action<T>)
      requires Valid()
      modifies this, buffer
      ensures Valid() && View() == Next(old(View()), a) && run == old(run) + [a]
      ensures Grows(old(View()), View())
      ensures schedule == old(schedule) && sendMoves == old(sendMoves) && recvMoves == old(recvMoves)
    {
      var s' := Next(View(), a);
      StepKeepsInv(View(), a);
      StepGrows(View(), a);
      ExecSnoc(Init(capacity, |threads|), run, a);
      forall i | 0 <= i < buffer.Length {
        buffer[i] := s'.slots[i];
      }
      writeMeta, readMeta, threads := s'.writeMeta, s'.readMeta, s'.threads;
      sent, senders, taken, readers := s'.sent, s'.senders, s'.taken, s'.readers;
      run := run + [a];
      assert View() == s';
    }

    /** A step of another thread. */
    method TakeStep(a: Action<T>, me: nat)
      requires Valid() && me < |threads| && a.me != me
      modifies this, buffer
      ensures Valid() && Grows(old(View()), View()) && |threads| == |old(threads)| && threads[me] == old(threads)[me] && old(run) <= run
      ensures schedule == old(schedule) && sendMoves == old(sendMoves) && recvMoves == old(recvMoves)
    {
      hide Exec, Next, Inv, Grows, Init;
      StepEffect(View(), a);
      Step(a);
    }

    /** The other threads' next scheduled step. */
    method OtherStep(me: nat)
      requires Valid() && me < |threads| && schedule != []
      modifies this, buffer
      ensures Since(old(Now())) && threads[me] == old(threads[me])
      ensures |schedule| == old(|schedule|) - 1
      ensures sendMoves == old(sendMoves) + if SendQuiet(old(View()), View()) then 0 else 1
      ensures recvMoves == old(recvMoves) + if RecvQuiet(old(View()), View()) then 0 else 1
    {
      hide Exec, Next, Inv, Grows, SendQuiet, RecvQuiet, Init;
      var a, before := schedule[0], View();
      schedule := schedule[1..];
      QuietSelf(before);
      if a.me != me {
        TakeStep(a, me);
      }
      if !SendQuiet(before, View()) {
        sendMoves := sendMoves + 1;
      }
      if !RecvQuiet(before, View()) {
        recvMoves := recvMoves + 1;
      }
    }

    /** The other threads take any number of scheduled steps. */
    method Interfere(me: nat, ghost start: Mark<T>)
      requires Since(start) && me < |threads|
      modifies this, buffer
      ensures Since(start) && old(run) <= run && Grows(old(View()), View()) && threads[me] == old(threads[me])
      ensures old(sendMoves) <= sendMoves && sendMoves + |schedule| <= old(sendMoves + |schedule|)
      ensures old(recvMoves) <= recvMoves && recvMoves + |schedule| <= old(recvMoves + |schedule|)
      ensures sendMoves == old(sendMoves) ==> SendQuiet(old(View()), View())
      ensures recvMoves == old(recvMoves) ==> RecvQuiet(old(View()), View())
    {
      ghost var entry := Now();
      var n: nat :| n <= |schedule|;
      while n > 0
        invariant n <= |schedule|
        invariant Since(entry) && threads[me] == old(threads[me])
        invariant sendMoves == entry.sendMoves ==> SendQuiet(entry.view, View())
        invariant recvMoves == entry.recvMoves ==> RecvQuiet(entry.view, View())
      {
        ghost var before := Now();
        OtherStep(me);
        SinceTrans(entry, before);
        QuietTrans(entry.view, before.view, View());
        n := n - 1;
      }
      SinceTrans(start, entry);
    }

    // -------------------------------------------------------------- the call's own atomic accesses

    /** Ends an atomic access that turned `before` into the present words and slots: the thread now stands at pc. */
    method MoveTo(me: nat, ghost before: Ring<T>, pc: Pc<T>, ghost start: Mark<T>)
      requires 0 < capacity <= MAX_CAPACITY && buffer.Length == capacity && me < |threads|
      requires threads == before.threads && Inv(before) && before == Exec(Init(capacity, |threads|), run)
      requires |threads| == |start.view.threads| && Grows(start.view, before) && start.run <= run
      requires start.sendMoves <= sendMoves && sendMoves - start.sendMoves <= start.left - |schedule|
      requires start.recvMoves <= recvMoves && recvMoves - start.recvMoves <= start.left - |schedule|
      requires Goto(View(), me, pc) == Next(before, Advance(me))
      modifies this`threads, this`run
      ensures Since(start) && run == old(run) + [Advance(me)] && Grows(before, View()) && View() == Next(before, Advance(me))
      ensures threads == old(threads)[me := pc]
    {
      StepKeepsInv(before, Advance(me));
      StepGrows(before, Advance(me));
      GrowsTrans(start.view, before, Next(before, Advance(me)));
      ExecSnoc(Init(capacity, |threads|), run, Advance(me));
      threads := threads[me := pc];
      run := run + [Advance(me)];
    }

    method LoadWriteMeta(me: nat, ghost start: Mark<T>) returns (meta: U64)
      requires Since(start) && me < |threads| && threads[me].SLoad?
      modifies this`threads, this`run
      ensures Since(start) && old(run) <= run && |old(run)| < |run| && meta == writeMeta
      ensures threads[me] == SendTop(View(), old(threads[me].msg), old(threads[me].blocking))
    {
      meta := writeMeta;
      MoveTo(me, View(), SendTop(View(), threads[me].msg, threads[me].blocking), start);
    }

    method LoadReadMeta(me: nat, ghost start: Mark<T>) returns (meta: U64)
      requires Since(start) && me < |threads| && threads[me].RLoad?
      modifies this`threads, this`run
      ensures Since(start) && old(run) <= run && |old(run)| < |run| && meta == readMeta
      ensures threads[me] == RecvTop(View(), old(threads[me].blocking), old(threads[me].sawClosed))
    {
      meta := readMeta;
      MoveTo(me, View(), RecvTop(View(), threads[me].blocking, threads[me].sawClosed), start);
    }

    /** `load_lap`, by a selection whose snapshot points at the slot. */
    method LoadLap(me: nat, idx: U32, ghost start: Mark<T>) returns (lap: U32)
      requires Since(start) && me < |threads|
      requires threads[me].SLap? || threads[me].SRelap? || threads[me].RLap? || threads[me].RRelap?
      requires IdxOf(threads[me].snap.meta) == idx
      modifies this`threads, this`run
      ensures Since(start) && old(run) <= run && idx < capacity && lap == buffer[idx].lap
      ensures threads[me] == AfterLap(old(threads[me]), lap)
      ensures LapTells(old(threads[me]), lap)
    {
      hide Exec, Next, Grows;
      ghost var before := View();
      LapMeaning(before, me);
      lap := buffer[idx].lap;
      MoveTo(me, before, AfterLap(threads[me], lap), start);
    }

    /** What a lap load, by a thread that stood at pc, says about the ring at that instant. */
    ghost predicate LapTells(pc: Pc<T>, lap: U32)
      reads this, buffer
    {
      && (pc.SLap? && LapOf(pc.snap.meta) < lap ==> pc.snap.seen < |sent|)
      && (pc.RLap? && LapOf(pc.snap.meta) < lap ==> pc.snap.seen < |taken|)
      && (pc.SRelap? && LapOf(pc.snap.meta) > lap ==> NoRoomNow())
      && (pc.RRelap? && LapOf(pc.snap.meta) > lap ==> NothingToReadNow())
    }

    /** A full turn of messages, or the reader one turn back still owns the tail slot. */
    ghost predicate NoRoomNow()
      reads this, buffer
    {
      Shape(View()) && (|Contents(View())| == capacity || Unreleased(View(), |sent| - capacity))
    }

    /** No accepted message without a claimant, or the head's sender has yet to publish. */
    ghost predicate NothingToReadNow()
      reads this, buffer
    {
      Shape(View()) && (Contents(View()) == [] || Unpublished(View(), |taken|))
    }

    /** `write_meta.compare_exchange`: on failure it hands back the word it found. */
    method CompareExchangeWriteMeta(me: nat, meta: U64, newMeta: U64, ghost start: Mark<T>) returns (won: bool, found: U64)
      requires Since(start) && me < |threads| && threads[me].SCas?
      requires threads[me].snap.meta == meta && newMeta == Bump(meta, capacity)
      modifies this`writeMeta, this`sent, this`senders, this`threads, this`run
      ensures Since(start) && old(run) <= run
      ensures won <==> old(writeMeta) == meta
      ensures won ==> writeMeta == newMeta && sent == old(sent) + [old(threads[me].msg)] && senders == old(senders) + [me]
      ensures won ==> threads[me] == SWrite(old(threads[me].msg), Claim(LapOf(meta), IdxOf(meta), old(|sent|)))
      ensures !won ==> writeMeta == found == old(writeMeta)
      ensures !won ==> threads[me] == SendTop(View(), old(threads[me].msg), old(threads[me].blocking))
    {
      ghost var before := View();
      SendCasStep(before, me);
      won, found := writeMeta == meta, writeMeta;
      var msg, pc := threads[me].msg, SendTop(View(), threads[me].msg, threads[me].blocking);
      if won {
        pc := SWrite(msg, Claim(LapOf(meta), IdxOf(meta), |sent|));
        writeMeta := newMeta;
        sent, senders := sent + [msg], senders + [me];
      }
      MoveTo(me, before, pc, start);
    }

    method CompareExchangeReadMeta(me: nat, meta: U64, newMeta: U64, ghost start: Mark<T>) returns (won: bool, found: U64)
      requires Since(start) && me < |threads| && threads[me].RCas?
      requires threads[me].snap.meta == meta && newMeta == Bump(meta, capacity)
      modifies this`readMeta, this`taken, this`readers, this`threads, this`run
      ensures Since(start) && old(run) <= run
      ensures won <==> old(readMeta) == meta
      ensures won ==> readMeta == newMeta && taken == old(taken) + [None] && readers == old(readers) + [me]
      ensures won ==> threads[me] == RRead(Claim(LapOf(meta), IdxOf(meta), old(|taken|)))
      ensures !won ==> readMeta == found == old(readMeta)
      ensures !won ==> threads[me] == RecvTop(View(), old(threads[me].blocking), old(threads[me].sawClosed))
    {
      ghost var before := View();
      RecvCasStep(before, me);
      won, found := readMeta == meta, readMeta;
      var pc := RecvTop(View(), threads[me].blocking, threads[me].sawClosed);
      if won {
        pc := RRead(Claim(LapOf(meta), IdxOf(meta), |taken|));
        readMeta := newMeta;
        taken, readers := taken + [None], readers + [me];
      }
      MoveTo(me, before, pc, start);
    }

    // -------------------------------------------------------------- selecting a bucket

    /** The first lap load of a round, right after the meta load. */
    method PeekForSend(me: nat, meta: U64, ghost start: Mark<T>) returns (elemLap: U32)
      requires Since(start) && me < |threads| && threads[me].SLap? && meta == writeMeta
      requires threads[me].snap == Snapshot(meta, |sent|)
      modifies this, buffer
      ensures Since(start) && old(run) <= run && IdxOf(meta) < capacity
      ensures old(sendMoves) <= sendMoves && sendMoves + |schedule| <= old(sendMoves + |schedule|)
      ensures LapOf(meta) == elemLap ==>
        && threads[me] == SCas(old(threads[me].msg), old(threads[me].blocking), old(threads[me].snap))
        && (sendMoves > old(sendMoves) || writeMeta == meta)
      ensures LapOf(meta) > elemLap ==>
        && threads[me] == SRelap(old(threads[me].msg), old(threads[me].blocking), old(threads[me].snap))
        && buffer[IdxOf(meta)].lap == elemLap
      ensures LapOf(meta) < elemLap ==>
        && threads[me] == SLoad(old(threads[me].msg), old(threads[me].blocking))
        && sendMoves > old(sendMoves)
    {
      Interfere(me, start);
      elemLap := LoadLap(me, IdxOf(meta), start);
    }

    /** The Equal branch: claim, or go on with the meta found instead. */
    method ClaimForSend(me: nat, meta: U64, newMeta: U64, ghost start: Mark<T>) returns (won: bool, found: U64)
      requires Since(start) && me < |threads| && threads[me].SCas?
      requires threads[me].snap.meta == meta && newMeta == Bump(meta, capacity)
      modifies this, buffer
      ensures Since(start) && old(run) <= run
      ensures old(sendMoves) <= sendMoves && sendMoves + |schedule| <= old(sendMoves + |schedule|)
      ensures won ==>
        && |sent| > |start.view.sent| && sent[|sent| - 1] == old(threads[me].msg)
        && threads[me] == SWrite(old(threads[me].msg), Claim(LapOf(meta), IdxOf(meta), |sent| - 1))
      ensures !won ==> found == writeMeta && threads[me] == SendTop(View(), old(threads[me].msg), old(threads[me].blocking))
      ensures !won ==> sendMoves > old(sendMoves) || old(writeMeta) != meta
    {
      Interfere(me, start);
      won, found := CompareExchangeWriteMeta(me, meta, newMeta, start);
    }

    /** The Less branch, and every other reload. */
    method ReloadForSend(me: nat, ghost start: Mark<T>) returns (meta: U64)
      requires Since(start) && me < |threads| && threads[me].SLoad?
      modifies this, buffer
      ensures Since(start) && old(run) <= run
      ensures old(sendMoves) <= sendMoves && sendMoves + |schedule| <= old(sendMoves + |schedule|)
      ensures |old(run)| < |run| && meta == writeMeta && threads[me] == SendTop(View(), old(threads[me].msg), old(threads[me].blocking))
    {
      Interfere(me, start);
      meta := LoadWriteMeta(me, start);
    }

    /** The Greater branch: give up if the slot is still behind, else go on with the meta of now. */
    method RecheckForSend(me: nat, idx: U32, lap: U32, ghost start: Mark<T>) returns (full: bool, meta: U64)
      requires Since(start) && me < |threads| && threads[me].SRelap? && idx < capacity
      requires IdxOf(threads[me].snap.meta) == idx && LapOf(threads[me].snap.meta) == lap && buffer[idx].lap < lap
      modifies this, buffer
      ensures Since(start) && old(run) <= run
      ensures old(sendMoves) <= sendMoves && sendMoves + |schedule| <= old(sendMoves + |schedule|)
      ensures full ==> threads[me] == NoRoom(old(threads[me].msg), old(threads[me].blocking)) && NoRoomNow()
      ensures !full ==> meta == writeMeta && threads[me] == SendTop(View(), old(threads[me].msg), old(threads[me].blocking))
      ensures !full ==> sendMoves > old(sendMoves)
    {
      hide Exec, Next, Inv, Grows, Shape, Init, Contents, Unpublished, Unreleased, LapOf, IdxOf, Bump, NoRoomNow, View;
      full := RelapForSend(me, idx, lap, start);
      meta := 0;
      if !full {
        meta := ReloadForSend(me, start);
      }
    }

    /** Its lap load. */
    method RelapForSend(me: nat, idx: U32, lap: U32, ghost start: Mark<T>) returns (full: bool)
      requires Since(start) && me < |threads| && threads[me].SRelap? && idx < capacity
      requires IdxOf(threads[me].snap.meta) == idx && LapOf(threads[me].snap.meta) == lap && buffer[idx].lap < lap
      modifies this, buffer
      ensures Since(start) && old(run) <= run
      ensures old(sendMoves) <= sendMoves && sendMoves + |schedule| <= old(sendMoves + |schedule|)
      ensures full ==> threads[me] == NoRoom(old(threads[me].msg), old(threads[me].blocking)) && NoRoomNow()
      ensures !full ==> threads[me] == SLoad(old(threads[me].msg), old(threads[me].blocking))
      ensures !full ==> sendMoves > old(sendMoves)
    {
      SnapshotParity(View(), me);
      hide Exec, Next, Inv, Grows, Shape, Init, Contents, Unpublished, Unreleased, LapOf, IdxOf, Bump, SendQuiet, RecvQuiet;
      ghost var before := View();
      Interfere(me, start);
      QuietSlot(before, View(), idx, lap);
      var again := LoadLap(me, idx, start);
      full := lap > again;
    }

    /** One round of the selection: it ends it, or found the snapshot stale and goes on with the meta of now. */
    method RoundForSend(me: nat, meta: U64, ghost msg: T, ghost blocking: bool, ghost start: Mark<T>)
      returns (elemLap: U32, ended: bool, state: State, found: U64)
      requires Since(start) && me < |threads| && meta == writeMeta && threads[me] == SendTop(View(), msg, blocking)
      modifies this, buffer
      ensures Since(start) && old(run) <= run && old(sendMoves) <= sendMoves && sendMoves + |schedule| <= old(sendMoves + |schedule|)
      ensures ended && state.Success? ==>
        && |sent| > |start.view.sent| && sent[|sent| - 1] == msg
        && threads[me] == SWrite(msg, Claim(elemLap, IdxOf(meta), |sent| - 1))
      ensures ended && state.Closed? ==> threads[me] == SDone(Disconnected(msg)) && ClosedMeta(writeMeta)
      ensures ended && state.Failed? ==> threads[me] == NoRoom(msg, blocking) && NoRoomNow()
      ensures !ended ==> found == writeMeta && threads[me] == SendTop(View(), msg, blocking) && sendMoves > old(sendMoves)
    {
      hide Exec, Next, Inv, Grows, Shape, Init, Contents, Unpublished, Unreleased, LapOf, IdxOf, Bump, NoRoomNow;
      var idx, lap := IdxOf(meta), LapOf(meta);
      elemLap, ended, state, found := 0, true, Closed, meta;
      if lap >= MASK32 {
        return;
      }
      elemLap := PeekForSend(me, meta, start);
      if lap == elemLap {
        var newTail := Bump(meta, capacity);
        ended, found := ClaimForSend(me, meta, newTail, start);
        state := Success;
      } else if lap > elemLap {
        ended, found := RecheckForSend(me, idx, lap, start);
        state := Failed;
      } else {
        ended := false;
        found := ReloadForSend(me, start);
      }
    }

    /**
     `select_bucket_4_send`. Every round but the last saw a write claim, a close or a release by another thread; `marks`
     tells them apart.
     */
    method SelectForSend(me: nat, ghost start: Mark<T>) returns (idx: U32, elemLap: U32, state: State, rounds: nat, ghost marks: seq<nat>)
      requires Since(start) && me < |threads| && threads[me].SLoad?
      modifies this, buffer
      ensures Since(start) && old(run) <= run && |old(run)| < |run|
      ensures |marks| == rounds && RoundsPaid(marks, old(sendMoves)) && marks[rounds - 1] <= sendMoves
      ensures state.Success? ==>
        && |sent| > |start.view.sent| && sent[|sent| - 1] == old(threads[me].msg)
        && threads[me] == SWrite(old(threads[me].msg), Claim(elemLap, idx, |sent| - 1))
      ensures state.Closed? ==> threads[me] == SDone(Disconnected(old(threads[me].msg))) && ClosedMeta(writeMeta)
      ensures state.Failed? ==> threads[me] == NoRoom(old(threads[me].msg), old(threads[me].blocking)) && NoRoomNow()
    {
      hide Exec, Next, Inv, Grows, Shape, Init, LapOf, IdxOf, RoundsPaid, NoRoomNow, View;
      ghost var msg, blocking := threads[me].msg, threads[me].blocking;
      var meta := ReloadForSend(me, start);
      rounds, marks := 1, [sendMoves];
      FirstRound(old(sendMoves), sendMoves);
      while true
        invariant Since(start) && old(run) <= run && |old(run)| < |run|
        invariant meta == writeMeta && threads[me] == SendTop(View(), msg, blocking)
        invariant |marks| == rounds && RoundsPaid(marks, old(sendMoves)) && marks[rounds - 1] == sendMoves
        decreases |schedule|
      {
        idx := IdxOf(meta);
        var ended;
        elemLap, ended, state, meta := RoundForSend(me, meta, msg, blocking, start);
        if ended {
          return;
        }
        PaidRound(marks, old(sendMoves), sendMoves);
        rounds, marks := rounds + 1, marks + [sendMoves];
      }
    }

    method PeekForRecv(me: nat, meta: U64, ghost start: Mark<T>) returns (elemLap: U32)
      requires Since(start) && me < |threads| && threads[me].RLap? && meta == readMeta
      requires threads[me].snap == Snapshot(meta, |taken|)
      modifies this, buffer
      ensures Since(start) && old(run) <= run && IdxOf(meta) < capacity
      ensures old(recvMoves) <= recvMoves && recvMoves + |schedule| <= old(recvMoves + |schedule|)
      ensures LapOf(meta) == elemLap ==>
        && threads[me] == RCas(old(threads[me].blocking), old(threads[me].sawClosed), old(threads[me].snap))
        && (recvMoves > old(recvMoves) || readMeta == meta)
      ensures LapOf(meta) > elemLap ==>
        && threads[me] == RRelap(old(threads[me].blocking), old(threads[me].sawClosed), old(threads[me].snap))
        && buffer[IdxOf(meta)].lap == elemLap
      ensures LapOf(meta) < elemLap ==>
        && threads[me] == RLoad(old(threads[me].blocking), old(threads[me].sawClosed))
        && recvMoves > old(recvMoves)
    {
      Interfere(me, start);
      elemLap := LoadLap(me, IdxOf(meta), start);
    }

    method ClaimForRecv(me: nat, meta: U64, newMeta: U64, ghost start: Mark<T>) returns (won: bool, found: U64)
      requires Since(start) && me < |threads| && threads[me].RCas?
      requires threads[me].snap.meta == meta && newMeta == Bump(meta, capacity)
      modifies this, buffer
      ensures Since(start) && old(run) <= run
      ensures old(recvMoves) <= recvMoves && recvMoves + |schedule| <= old(recvMoves + |schedule|)
      ensures won ==>
        && |taken| > |start.view.taken|
        && threads[me] == RRead(Claim(LapOf(meta), IdxOf(meta), |taken| - 1))
      ensures !won ==> found == readMeta && threads[me] == RecvTop(View(), old(threads[me].blocking), old(threads[me].sawClosed))
      ensures !won ==> recvMoves > old(recvMoves) || old(readMeta) != meta
    {
      Interfere(me, start);
      won, found := CompareExchangeReadMeta(me, meta, newMeta, start);
    }

    method ReloadForRecv(me: nat, ghost start: Mark<T>) returns (meta: U64)
      requires Since(start) && me < |threads| && threads[me].RLoad?
      modifies this, buffer
      ensures Since(start) && old(run) <= run
      ensures old(recvMoves) <= recvMoves && recvMoves + |schedule| <= old(recvMoves + |schedule|)
      ensures |old(run)| < |run| && meta == readMeta && threads[me] == RecvTop(View(), old(threads[me].blocking), old(threads[me].sawClosed))
    {
      Interfere(me, start);
      meta := LoadReadMeta(me, start);
    }

    method RecheckForRecv(me: nat, idx: U32, lap: U32, ghost start: Mark<T>) returns (empty: bool, meta: U64)
      requires Since(start) && me < |threads| && threads[me].RRelap? && idx < capacity
      requires IdxOf(threads[me].snap.meta) == idx && LapOf(threads[me].snap.meta) == lap && buffer[idx].lap < lap
      modifies this, buffer
      ensures Since(start) && old(run) <= run
      ensures old(recvMoves) <= recvMoves && recvMoves + |schedule| <= old(recvMoves + |schedule|)
      ensures empty ==> threads[me] == NothingToRead(old(threads[me].blocking), old(threads[me].sawClosed)) && NothingToReadNow()
      ensures !empty ==> meta == readMeta && threads[me] == RecvTop(View(), old(threads[me].blocking), old(threads[me].sawClosed))
      ensures !empty ==> recvMoves > old(recvMoves)
    {
      hide Exec, Next, Inv, Grows, Shape, Init, Contents, Unpublished, Unreleased, LapOf, IdxOf, Bump, NothingToReadNow, View;
      empty := RelapForRecv(me, idx, lap, start);
      meta := 0;
      if !empty {
        meta := ReloadForRecv(me, start);
      }
    }

    /** Its lap load. */
    method RelapForRecv(me: nat, idx: U32, lap: U32, ghost start: Mark<T>) returns (empty: bool)
      requires Since(start) && me < |threads| && threads[me].RRelap? && idx < capacity
      requires IdxOf(threads[me].snap.meta) == idx && LapOf(threads[me].snap.meta) == lap && buffer[idx].lap < lap
      modifies this, buffer
      ensures Since(start) && old(run) <= run
      ensures old(recvMoves) <= recvMoves && recvMoves + |schedule| <= old(recvMoves + |schedule|)
      ensures empty ==> threads[me] == NothingToRead(old(threads[me].blocking), old(threads[me].sawClosed)) && NothingToReadNow()
      ensures !empty ==> threads[me] == RLoad(old(threads[me].blocking), old(threads[me].sawClosed))
      ensures !empty ==> recvMoves > old(recvMoves)
    {
      SnapshotParity(View(), me);
      hide Exec, Next, Inv, Grows, Shape, Init, Contents, Unpublished, Unreleased, LapOf, IdxOf, Bump, SendQuiet, RecvQuiet;
      ghost var before := View();
      Interfere(me, start);
      QuietSlot(before, View(), idx, lap);
      var again := LoadLap(me, idx, start);
      empty := lap > again;
    }

    /** One round of the selection: it ends it, or found the snapshot stale and goes on with the meta of now. */
    method RoundForRecv(me: nat, meta: U64, ghost blocking: bool, ghost sawClosed: bool, ghost start: Mark<T>)
      returns (elemLap: U32, ended: bool, success: bool, found: U64)
      requires Since(start) && me < |threads| && meta == readMeta && threads[me] == RecvTop(View(), blocking, sawClosed)
      modifies this, buffer
      ensures Since(start) && old(run) <= run && old(recvMoves) <= recvMoves
      ensures recvMoves + |schedule| <= old(recvMoves + |schedule|)
      ensures ended && success ==> |taken| > |start.view.taken| && threads[me] == RRead(Claim(elemLap, IdxOf(meta), |taken| - 1))
      ensures ended && !success ==> threads[me] == NothingToRead(blocking, sawClosed) && NothingToReadNow()
      ensures !ended ==> found == readMeta && threads[me] == RecvTop(View(), blocking, sawClosed) && recvMoves > old(recvMoves)
    {
      hide Exec, Next, Inv, Grows, Shape, Init, Contents, Unpublished, Unreleased, LapOf, IdxOf, Bump, NothingToReadNow;
      var idx, lap := IdxOf(meta), LapOf(meta);
      ended, success, found := false, false, meta;
      elemLap := PeekForRecv(me, meta, start);
      if lap == elemLap {
        var newData := Bump(meta, capacity);
        ended, found := ClaimForRecv(me, meta, newData, start);
        success := ended;
      } else if lap > elemLap {
        ended, found := RecheckForRecv(me, idx, lap, start);
      } else {
        found := ReloadForRecv(me, start);
      }
    }

    /** `select_bucket_4_recv`. Every round but the last saw a read claim or a publication by another thread. */
    method SelectForRecv(me: nat, ghost start: Mark<T>) returns (idx: U32, elemLap: U32, success: bool, rounds: nat, ghost marks: seq<nat>)
      requires Since(start) && me < |threads| && threads[me].RLoad?
      modifies this, buffer
      ensures Since(start) && old(run) <= run && |old(run)| < |run|
      ensures |marks| == rounds && RoundsPaid(marks, old(recvMoves)) && marks[rounds - 1] <= recvMoves
      ensures success ==> |taken| > |start.view.taken| && threads[me] == RRead(Claim(elemLap, idx, |taken| - 1))
      ensures !success ==> threads[me] == NothingToRead(old(threads[me].blocking), old(threads[me].sawClosed)) && NothingToReadNow()
    {
      hide Exec, Next, Inv, Grows, Shape, Init, LapOf, IdxOf, RoundsPaid, NothingToReadNow, View;
      ghost var blocking, sawClosed := threads[me].blocking, threads[me].sawClosed;
      var meta := ReloadForRecv(me, start);
      rounds, marks := 1, [recvMoves];
      FirstRound(old(recvMoves), recvMoves);
      while true
        invariant Since(start) && old(run) <= run && |old(run)| < |run|
        invariant meta == readMeta && threads[me] == RecvTop(View(), blocking, sawClosed)
        invariant |marks| == rounds && RoundsPaid(marks, old(recvMoves)) && marks[rounds - 1] == recvMoves
        decreases |schedule|
      {
        idx := IdxOf(meta);
        var ended;
        elemLap, ended, success, meta := RoundForRecv(me, meta, blocking, sawClosed, start);
        if ended {
          return;
        }
        PaidRound(marks, old(recvMoves), recvMoves);
        rounds, marks := rounds + 1, marks + [recvMoves];
      }
    }

    // -------------------------------------------------------------- the element

    /** `ElemArr::write`: the message, then the lap. */
    method Write(me: nat, idx: U32, lap: U32, msg: T, ghost start: Mark<T>)
      requires Since(start) && me < |threads| && threads[me].SWrite? && threads[me].msg == msg
      requires threads[me].claim.idx == idx && lap == WrapAdd32(threads[me].claim.lap, 1)
      modifies this, buffer
      ensures Since(start) && old(run) <= run && threads[me] == SDone(Sent(old(threads[me].claim.ticket)))
      ensures old(threads[me].claim.ticket) < |sent| && sent[old(threads[me].claim.ticket)] == msg
    {
      hide Exec, Next, Inv, Init, LapOf, IdxOf;
      Interfere(me, start);
      WriteMsg(me, idx, msg, start);
      Interfere(me, start);
      StoreLap(me, idx, lap, SDone(Sent(threads[me].claim.ticket)), start);
    }

    method WriteMsg(me: nat, idx: U32, msg: T, ghost start: Mark<T>)
      requires Since(start) && me < |threads| && threads[me].SWrite? && threads[me].msg == msg
      requires threads[me].claim.idx == idx
      modifies this`threads, this`run, buffer
      ensures Since(start) && old(run) <= run && threads[me] == SPublish(old(threads[me].claim))
      ensures threads[me].claim.ticket < |sent| && sent[threads[me].claim.ticket] == msg
    {
      ghost var before := View();
      SendWindowFacts(before, me);
      assert ThreadOk(before, me, before.threads[me]);
      buffer[idx] := buffer[idx].(msg := Some(msg));
      MoveTo(me, before, SPublish(threads[me].claim), start);
    }

    /** The lap store that ends a claim window, on either side. */
    method StoreLap(me: nat, idx: U32, lap: U32, pc: Pc<T>, ghost start: Mark<T>)
      requires Since(start) && me < |threads| && (threads[me].SPublish? || threads[me].RRelease?)
      requires threads[me].claim.idx == idx && lap == WrapAdd32(threads[me].claim.lap, 1)
      requires threads[me].SPublish? ==> pc == SDone(Sent(threads[me].claim.ticket))
      requires threads[me].RRelease? ==> pc == RDone(Received(threads[me].claim.ticket, threads[me].msg))
      modifies this`threads, this`run, buffer
      ensures Since(start) && old(run) <= run && Grows(old(View()), View()) && threads[me] == pc
    {
      ghost var before := View();
      WindowLap(before, me);
      buffer[idx] := buffer[idx].(lap := lap);
      MoveTo(me, before, pc, start);
    }

    /** `ElemArr::read`: the message moves out, then the lap. */
    method Read(me: nat, idx: U32, lap: U32, ghost start: Mark<T>) returns (msg: T)
      requires Since(start) && me < |threads| && threads[me].RRead?
      requires threads[me].claim.idx == idx && lap == WrapAdd32(threads[me].claim.lap, 1)
      modifies this, buffer
      ensures Since(start) && old(run) <= run && threads[me] == RDone(Received(old(threads[me].claim.ticket), msg))
      ensures old(threads[me].claim.ticket) < |sent| && sent[old(threads[me].claim.ticket)] == msg
    {
      hide Exec, Next, Inv, Init, LapOf, IdxOf;
      Interfere(me, start);
      msg := ReadMsg(me, idx, start);
      Interfere(me, start);
      StoreLap(me, idx, lap, RDone(Received(threads[me].claim.ticket, msg)), start);
    }

    method ReadMsg(me: nat, idx: U32, ghost start: Mark<T>) returns (msg: T)
      requires Since(start) && me < |threads| && threads[me].RRead?
      requires threads[me].claim.idx == idx
      modifies this`threads, this`taken, this`run, buffer
      ensures Since(start) && old(run) <= run && threads[me] == RRelease(old(threads[me].claim), msg)
      ensures threads[me].claim.ticket < |sent| && sent[threads[me].claim.ticket] == msg
    {
      ghost var before := View();
      RecvWindowFacts(before, me);
      msg := buffer[idx].msg.value;
      buffer[idx] := buffer[idx].(msg := None);
      taken := taken[threads[me].claim.ticket := Some(msg)];
      MoveTo(me, before, RRelease(threads[me].claim, msg), start);
    }

    // -------------------------------------------------------------- the calls

    /** A thread at rest enters a call. */
    method Enter(a: Action<T>)
      requires Valid() && a.me < |threads| && AtRest(threads[a.me]) && !a.Advance? && !a.Resume?
      modifies this, buffer
      ensures Since(old(Now())) && sendMoves == old(sendMoves) && recvMoves == old(recvMoves) && schedule == old(schedule)
      ensures sent == old(sent) && taken == old(taken)
      ensures a.StartSend? ==> threads[a.me] == SLoad(a.msg, a.blocking)
      ensures a.StartRecv? ==> threads[a.me] == RLoad(a.blocking, false)
      ensures a.StartClose? ==> threads[a.me] == CLoad
    {
      Step(a);
    }

    /** `try_send`, up to the wake-up of a reader. The message comes back with every refusal. */
    method TrySend(me: nat, msg: T) returns (r: SendResult<T>)
      requires Valid() && me < |threads| && AtRest(threads[me])
      modifies this, buffer
      ensures Since(old(Now())) && threads[me] == SDone(r)
      ensures r.Sent? ==> old(|sent|) <= r.ticket < |sent| && sent[r.ticket] == msg
      ensures r.Full? ==> r.msg == msg && NoRoomNow()
      ensures r.Disconnected? ==> r.msg == msg && ClosedMeta(writeMeta)
    {
      hide Exec, Next, Inv, Init;
      ghost var start := Now();
      Enter(StartSend(me, msg, false));
      var idx, lap, state, _, _ := SelectForSend(me, start);
      if state == Success {
        var ticket := threads[me].claim.ticket;
        Write(me, idx, WrapAdd32(lap, 1), msg, start);
        r := Sent(ticket);
      } else if state == Closed {
        r := Disconnected(msg);
      } else {
        r := SendResult.Full(msg);
      }
    }

    /** `try_recv`, up to the wake-up of a writer. */
    method TryRecv(me: nat) returns (r: RecvResult<T>)
      requires Valid() && me < |threads| && AtRest(threads[me])
      modifies this, buffer
      ensures Since(old(Now())) && threads[me] == RDone(r) && !r.RecvError?
      ensures r.Received? ==> old(|taken|) <= r.ticket < |sent| && sent[r.ticket] == r.msg
      ensures r.Empty? ==> NothingToReadNow()
    {
      hide Exec, Next, Inv, Init;
      ghost var start := Now();
      Enter(StartRecv(me, false));
      var idx, lap, success, _, _ := SelectForRecv(me, start);
      if !success {
        return RecvResult.Empty;
      }
      var ticket := threads[me].claim.ticket;
      var msg := Read(me, idx, WrapAdd32(lap, 1), start);
      r := Received(ticket, msg);
    }

    /** A waiting thread goes round its loop. */
    method GoRound(me: nat, ghost start: Mark<T>)
      requires Since(start) && me < |threads| && (threads[me].SWait? || threads[me].RWait?)
      modifies this, buffer
      ensures Since(start) && old(run) <= run
      ensures threads[me] == if old(threads[me]).SWait? then SLoad(old(threads[me]).msg, true) else RLoad(true, false)
    {
      ghost var entry := Now();
      Step(Resume(me));
      hide Exec, Next, Inv, Grows, Shape, Init;
      SinceTrans(start, entry);
    }

    /** The flag load of a waiting thread that finds the queue closed. */
    method SeeClosed(me: nat, ghost start: Mark<T>)
      requires Since(start) && me < |threads| && (threads[me].SWait? || threads[me].RWait?) && ClosedMeta(writeMeta)
      modifies this`threads, this`run
      ensures Since(start) && old(run) <= run
      ensures threads[me] == if old(threads[me]).SWait? then SDone(Disconnected(old(threads[me]).msg)) else RLoad(true, true)
    {
      MoveTo(me, View(), if threads[me].SWait? then SDone(Disconnected(threads[me].msg)) else RLoad(true, true), start);
    }

    /** Others' steps, and the flag load of a waiting thread, made after step `at`. */
    method Looks(me: nat, look: bool, ghost start: Mark<T>) returns (sawClosed: bool, ghost at: nat)
      requires Since(start) && me < |threads| && (threads[me].SWait? || threads[me].RWait?)
      modifies this, buffer
      ensures Since(start) && old(run) <= run && |old(run)| <= at <= |run|
      ensures sawClosed ==> ClosedMeta(writeMeta)
      ensures threads[me] == if !sawClosed then old(threads)[me]
        else if old(threads)[me].SWait? then SDone(Disconnected(old(threads)[me].msg)) else RLoad(true, true)
      ensures look && !sawClosed ==> OpenAt(capacity, |threads|)(run[..at])
      ensures look && old(ClosedMeta(writeMeta)) ==> sawClosed
    {
      hide Exec, Next, Inv, Shape, Init, LapOf;
      Interfere(me, start);
      hide Grows;
      at := |run|;
      WholeRun(run);
      sawClosed := look && ClosedMeta(writeMeta);
      if sawClosed {
        SeeClosed(me, start);
      }
    }

    /**
     How a wait ends. The thread looks at the flag before anything else, and may look again, woken or not. It goes round if it
     may, or it saw the queue closed, or it still waits. Unless it saw that, the queue was open at its first look.
     */
    method Await(me: nat, mayGo: bool, ghost start: Mark<T>) returns (state: State, ghost at: nat)
      requires Since(start) && me < |threads| && (threads[me].SWait? || threads[me].RWait?)
      modifies this, buffer
      ensures Since(start) && old(run) <= run && |old(run)| <= at <= |run|
      ensures state.Success? ==> mayGo
      ensures state.Success? ==>
        threads[me] == if old(threads[me]).SWait? then SLoad(old(threads[me]).msg, true) else RLoad(true, false)
      ensures state.Closed? ==>
        threads[me] == if old(threads[me]).SWait? then SDone(Disconnected(old(threads[me]).msg)) else RLoad(true, true)
      ensures state.Closed? ==> ClosedMeta(writeMeta)
      ensures state.Failed? ==> !mayGo && threads[me] == old(threads[me])
      ensures !state.Closed? ==> OpenAt(capacity, |threads|)(run[..at])
      ensures old(ClosedMeta(writeMeta)) ==> state.Closed?
    {
      hide Exec, Next, Inv, Grows, Shape, Init, LapOf, OpenAt;
      var sawClosed;
      sawClosed, at := Looks(me, true, start);
      ghost var upTo := run;
      if !sawClosed {
        var again: bool := *;
        var seen, _ := Looks(me, again, start);
        sawClosed := seen;
      }
      state := if sawClosed then Closed else if mayGo then Success else Failed;
      if state == Success {
        GoRound(me, start);
      }
      assert run[..at] == upTo[..at];
    }

    /**
     A round of `send`: a selection, the write if it claimed, else the wait. If it waited at all there was no room after step
     `full`, and the queue was open after step `open`, or it saw it closed.
     */
    method SendRound(me: nat, msg: T, mayGo: bool, ghost start: Mark<T>) returns (r: Option<SendResult<T>>, ghost full: nat, ghost open: nat)
      requires Since(start) && me < |threads| && threads[me] == SLoad(msg, true)
      modifies this, buffer
      ensures Since(start) && old(run) <= run
      ensures r.Some? ==> threads[me] == SDone(r.value) && !r.value.Full?
      ensures r.Some? && r.value.Sent? ==> |start.view.sent| <= r.value.ticket < |sent| && sent[r.value.ticket] == msg
      ensures r.Some? && r.value.Disconnected? ==> r.value.msg == msg && ClosedMeta(writeMeta)
      ensures r == None ==> threads[me] == if mayGo then SLoad(msg, true) else SWait(msg)
      ensures r == None ==> |old(run)| < full <= |run| && |old(run)| < open <= |run|
      ensures r == None ==> NoRoomAt(capacity, |threads|)(run[..full]) && OpenAt(capacity, |threads|)(run[..open])
    {
      hide Exec, Next, Inv, Init, Grows, Shape, LapOf, Contents, Unpublished, Unreleased, OpenAt, RoundsPaid;
      var idx, lap, state, _, _ := SelectForSend(me, start);
      r, full, open := None, |run|, |run|;
      if state == Success {
        var ticket := threads[me].claim.ticket;
        Write(me, idx, WrapAdd32(lap, 1), msg, start);
        r := Some(Sent(ticket));
      } else if state == Closed {
        r := Some(Disconnected(msg));
      } else {
        WholeRun(run);
        ghost var upTo := run;
        var ended, at := Await(me, mayGo, start);
        open := at;
        assert run[..full] == upTo[..full];
        if ended == Closed {
          r := Some(Disconnected(msg));
        }
      }
    }

    /**
     `send`, with the waker's part left to `Await`. No result: it waits after one selection more than `patience`, each of which
     found no room at the moment in `fulls` and was followed by a look that found the queue open, in `opens`.
     */
    method Send(me: nat, msg: T, patience: nat) returns (r: Option<SendResult<T>>, ghost fulls: seq<nat>, ghost opens: seq<nat>)
      requires Valid() && me < |threads| && AtRest(threads[me])
      modifies this, buffer
      ensures Since(old(Now()))
      ensures r.Some? ==> threads[me] == SDone(r.value) && !r.value.Full?
      ensures r.Some? && r.value.Sent? ==> old(|sent|) <= r.value.ticket < |sent| && sent[r.value.ticket] == msg
      ensures r.Some? && r.value.Disconnected? ==> r.value.msg == msg && ClosedMeta(writeMeta)
      ensures r == None ==> threads[me] == SWait(msg) && |fulls| == |opens| == patience + 1
      ensures r == None ==> At(run, fulls, |old(run)|, NoRoomAt(capacity, |threads|)) && At(run, opens, |old(run)|, OpenAt(capacity, |threads|))
    {
      hide Exec, Next, Inv, Init, Grows, Shape, LapOf, At, NoRoomAt, OpenAt;
      ghost var start := Now();
      Enter(StartSend(me, msg, true));
      fulls, opens := [], [];
      NoMoments(run, |old(run)|, capacity, |threads|);
      for waits := 0 to patience + 1
        invariant Since(start) && |threads| == old(|threads|) && threads[me] == if waits <= patience then SLoad(msg, true) else SWait(msg)
        invariant |fulls| == |opens| == waits
        invariant At(run, fulls, |old(run)|, NoRoomAt(capacity, |threads|)) && At(run, opens, |old(run)|, OpenAt(capacity, |threads|))
      {
        ghost var before := run;
        ghost var full, open;
        r, full, open := SendRound(me, msg, waits < patience, start);
        if r.Some? {
          return;
        }
        Note(before, run, fulls, full, |old(run)|, NoRoomAt(capacity, |threads|));
        Note(before, run, opens, open, |old(run)|, OpenAt(capacity, |threads|));
        fulls, opens := fulls + [full], opens + [open];
      }
      r := None;
    }

    /** A round of `recv`: a selection, the read if it claimed, else the wait; `saw`, by the last wait, that the queue is closed. */
    method RecvRound(me: nat, saw: bool, mayGo: bool, ghost start: Mark<T>)
      returns (r: Option<RecvResult<T>>, seesClosed: bool, ghost empty: nat, ghost open: nat)
      requires Since(start) && me < |threads| && threads[me] == RLoad(true, saw)
      modifies this, buffer
      ensures Since(start) && old(run) <= run
      ensures r.Some? ==> threads[me] == RDone(r.value) && !r.value.Empty?
      ensures r.Some? && r.value.Received? ==> |start.view.taken| <= r.value.ticket < |sent| && sent[r.value.ticket] == r.value.msg
      ensures r == Some(RecvError) ==> ClosedMeta(writeMeta) && NothingToReadNow()
      ensures saw ==> r.Some?
      ensures r == None ==> threads[me] == if seesClosed then RLoad(true, true) else if mayGo then RLoad(true, false) else RWait
      ensures r == None ==> |old(run)| < empty <= |run| && |old(run)| < open <= |run|
      ensures r == None ==> NothingAt(capacity, |threads|)(run[..empty]) && (seesClosed || OpenAt(capacity, |threads|)(run[..open]))
    {
      hide Exec, Next, Init, Inv, Grows, Shape, LapOf, Contents, Unpublished, Unreleased, OpenAt, RoundsPaid;
      var idx, lap, success, _, _ := SelectForRecv(me, start);
      r, seesClosed, empty, open := None, false, |run|, |run|;
      if success {
        var ticket := threads[me].claim.ticket;
        var msg := Read(me, idx, WrapAdd32(lap, 1), start);
        r := Some(Received(ticket, msg));
      } else if saw {
        GaveUpClosed(View(), me);
        r := Some(RecvError);
      } else {
        WholeRun(run);
        ghost var upTo := run;
        var state, at := Await(me, mayGo, start);
        open := at;
        assert run[..empty] == upTo[..empty];
        seesClosed := state == Closed;
      }
    }

    /**
     `recv`, likewise. It gives up only after it saw the queue closed and a later selection failed. No result: it waits after
     one selection more than `patience`, each of which found nothing to read and was followed by a look that found the queue open.
     */
    method Recv(me: nat, patience: nat) returns (r: Option<RecvResult<T>>, ghost empties: seq<nat>, ghost opens: seq<nat>)
      requires Valid() && me < |threads| && AtRest(threads[me])
      modifies this, buffer
      ensures Since(old(Now()))
      ensures r.Some? ==> threads[me] == RDone(r.value) && !r.value.Empty?
      ensures r.Some? && r.value.Received? ==> old(|taken|) <= r.value.ticket < |sent| && sent[r.value.ticket] == r.value.msg
      ensures r == Some(RecvError) ==> ClosedMeta(writeMeta) && NothingToReadNow()
      ensures r == None ==> threads[me] == RWait && |empties| == |opens| == patience + 1
      ensures r == None ==> At(run, empties, |old(run)|, NothingAt(capacity, |threads|)) && At(run, opens, |old(run)|, OpenAt(capacity, |threads|))
    {
      hide Exec, Next, Init, Inv, Grows, Shape, LapOf, At, NothingAt, OpenAt;
      ghost var start := Now();
      Enter(StartRecv(me, true));
      empties, opens := [], [];
      NoMoments(run, |old(run)|, capacity, |threads|);
      for waits := 0 to patience + 1
        invariant Since(start) && |threads| == old(|threads|) && threads[me] == if waits <= patience then RLoad(true, false) else RWait
        invariant |empties| == |opens| == waits
        invariant At(run, empties, |old(run)|, NothingAt(capacity, |threads|)) && At(run, opens, |old(run)|, OpenAt(capacity, |threads|))
      {
        ghost var before := run;
        var sawClosed;
        ghost var empty, open;
        r, sawClosed, empty, open := RecvRound(me, false, waits < patience, start);
        if sawClosed && r == None {
          var last, _, _, _ := RecvRound(me, true, false, start);
          r := last;
        }
        if r.Some? {
          return;
        }
        Note(before, run, empties, empty, |old(run)|, NothingAt(capacity, |threads|));
        Note(before, run, opens, open, |old(run)|, OpenAt(capacity, |threads|));
        empties, opens := empties + [empty], opens + [open];
      }
      r := None;
    }

    /** The closer's CAS. */
    method CompareExchangeClosed(me: nat, meta: U64, ghost start: Mark<T>) returns (won: bool, found: U64)
      requires Since(start) && me < |threads| && threads[me] == CCas(meta)
      modifies this`writeMeta, this`threads, this`run
      ensures Since(start) && old(run) <= run
      ensures won <==> old(writeMeta) == meta
      ensures won ==> threads[me] == CDone && ClosedMeta(writeMeta)
      ensures !won ==> writeMeta == found == old(writeMeta) && threads[me] == CCas(found)
    {
      ghost var before := View();
      won, found := writeMeta == meta, writeMeta;
      if won {
        writeMeta := SetClosedBit(meta);
        ClosedBit(writeMeta);
      }
      MoveTo(me, before, if won then CDone else CCas(found), start);
    }

    method LoadForClose(me: nat, ghost start: Mark<T>) returns (meta: U64)
      requires Since(start) && me < |threads| && threads[me].CLoad?
      modifies this`threads, this`run
      ensures Since(start) && old(run) <= run && meta == writeMeta
      ensures threads[me] == if meta >= MASK64 then CDone else CCas(meta)
    {
      meta := writeMeta;
      MoveTo(me, View(), if meta >= MASK64 then CDone else CCas(meta), start);
    }

    /** A round of `close`: the CAS fails only for a write claim or another close since the word was found. */
    method TryToClose(me: nat, meta: U64, ghost start: Mark<T>) returns (won: bool, found: U64)
      requires Since(start) && me < |threads| && threads[me] == CCas(meta) && meta == writeMeta
      modifies this, buffer
      ensures Since(start) && old(run) <= run && old(sendMoves) <= sendMoves && sendMoves + |schedule| <= old(sendMoves + |schedule|)
      ensures if won then ClosedMeta(writeMeta) else threads[me] == CCas(found) && found == writeMeta && sendMoves > old(sendMoves)
    {
      hide Exec, Next, Inv, Grows, Shape, Init, LapOf;
      Interfere(me, start);
      won, found := CompareExchangeClosed(me, meta, start);
    }

    /** `close`, up to the closing of the two wakers. */
    method Close(me: nat) returns (rounds: nat)
      requires Valid() && me < |threads| && AtRest(threads[me])
      modifies this, buffer
      ensures Since(old(Now())) && ClosedMeta(writeMeta)
      ensures rounds <= 1 + sendMoves - old(sendMoves)
    {
      hide Exec, Next, Inv, Grows, Shape, Init, Contents, Unpublished, Unreleased, LapOf, IdxOf, Bump;
      ghost var start := Now();
      Enter(StartClose(me));
      Interfere(me, start);
      var meta: U64 := LoadForClose(me, start);
      rounds := 0;
      if meta >= MASK64 {
        ClosedBit(meta);
        return;
      }
      var won := false;
      while !won
        invariant Since(start) && old(run) <= run
        invariant if won then ClosedMeta(writeMeta) else threads[me] == CCas(meta) && meta == writeMeta
        invariant rounds <= (if won then 1 else 0) + sendMoves - start.sendMoves && sendMoves + |schedule| <= start.sendMoves + start.left
        decreases |schedule|, !won
      {
        won, meta := TryToClose(me, meta, start);
        rounds := rounds + 1;
      }
    }
  }
}
