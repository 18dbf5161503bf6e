/**
 The SPSC queue's own loops, over mutable words and a mutable buffer. Before each access of a call
 to a shared word the other side and the closers take any number of steps; what they will still do is
 the arbitrary finite `schedule`.
 */
module SpscBounded {
  import opened Words
  import opened Options
  import opened Elem
  import opened Tickets
  import opened SpscRing
  import opened SpscInvariant
  import opened SpscTheorems
  import opened Moments

  /** Which of the two threads is inside a call. */
  datatype Side = Sender | Receiver

  predicate IsOf<T>(side: Side, a: Action<T>) {
    match side
    case Sender => a.StartSend? || a.StepSend? || a.ResumeSend?
    case Receiver => a.StartRecv? || a.StepRecv? || a.ResumeRecv?
  }

  lemma OtherSideKeeps<T>(s: Ring<T>, a: Action<T>)
    requires Inv(s)
    ensures !IsOf(Sender, a) ==> Next(s, a).sender == s.sender && Next(s, a).sent == s.sent && Next(s, a).writeMeta == s.writeMeta
    ensures !IsOf(Receiver, a) ==> Next(s, a).receiver == s.receiver && Next(s, a).received == s.received && Next(s, a).readMeta == s.readMeta
  {
  }

  /** What one side has found, no step of the other undoes: a free tail slot, a published head. */
  ghost predicate StillSo<T>(side: Side, s: Ring<T>, s': Ring<T>) {
    && |s'.slots| == |s.slots|
    && (side.Sender? && !TailUnread(s) ==> !TailUnread(s'))
    && (side.Receiver? && R(s) < P(s) ==> R(s') < P(s'))
  }

  lemma StaysSo<T>(side: Side, s: Ring<T>, a: Action<T>)
    requires Inv(s) && !IsOf(side, a)
    ensures StillSo(side, s, Next(s, a))
  {
    OtherSideKeeps(s, a);
    StepGrows(s, a);
    StepKeepsInv(s, a);
    assert Counts(s) && Counts(Next(s, a));
    if side.Receiver? {
      PublishedGrows(s, a);
    }
    hide Inv, Next, Counts;
    assert |s.sent| <= Q(s) + |s.slots|;
  }

  lemma StaysClosed<T>(s: Ring<T>, a: Action<T>)
    ensures s.closed ==> Next(s, a).closed
  {
  }

  lemma PublishedGrows<T>(s: Ring<T>, a: Action<T>)
    requires Inv(s)
    ensures P(s) <= P(Next(s, a))
  {
  }

  lemma GrowsTrans<T>(s: Ring<T>, s1: Ring<T>, s2: Ring<T>)
    requires Grows(s, s1) && Grows(s1, s2)
    ensures Grows(s, s2)
  {
  }

  lemma GaveUpClosed<T>(s: Ring<T>)
    requires Inv(s) && s.receiver == RDone(RecvError)
    ensures s.closed
  {
  }

  lemma WrappedLap<T>(s: Ring<T>)
    requires |s.slots| > 0 && LapWrapped(s)
    ensures WriteLap(|s.sent|, |s.slots|) == 0
  {
  }

  lemma NoMoreThanPublished<T>(s: Ring<T>)
    requires Inv(s)
    ensures |s.received| <= P(s)
  {
  }

  lemma ReceivedFirst<T>(s: Ring<T>)
    requires Inv(s)
    ensures s.received <= s.sent
  {
  }

  /** The other side and the flag are as they were. */
  ghost predicate Undisturbed<T>(side: Side, s: Ring<T>, s': Ring<T>) {
    && |s'.slots| == |s.slots| && s'.closed == s.closed
    && (side.Sender? ==> s'.receiver == s.receiver && s'.received == s.received)
    && (side.Receiver? ==> s'.sender == s.sender && s'.sent == s.sent)
  }

  lemma SamePublished<T>(s: Ring<T>, s': Ring<T>)
    requires Undisturbed(Receiver, s, s')
    ensures P(s') == P(s)
  {
  }

  // What a call that is still at it has found, round by round.

  ghost function NothingReadable<T>(cap: U32): seq<Action<T>> -> bool
    requires cap <= MAX_CAPACITY
  {
    (run: seq<Action<T>>) => var s := Exec(Init(cap), run); R(s) == P(s)
  }

  ghost function NoRoomAt<T>(cap: U32): seq<Action<T>> -> bool
    requires cap <= MAX_CAPACITY
  {
    (run: seq<Action<T>>) => TailUnread(Exec(Init(cap), run))
  }

  ghost function OpenAt<T>(cap: U32): seq<Action<T>> -> bool
    requires cap <= MAX_CAPACITY
  {
    (run: seq<Action<T>>) => !Exec(Init<T>(cap), run).closed
  }

  lemma AtWait<T>(s: Ring<T>)
    requires s.receiver.RWait? && |s.received| == P(s)
    ensures R(s) == P(s)
  {
  }

  lemma NoMoments<T>(run: seq<Action<T>>, from: nat, cap: U32)
    requires cap <= MAX_CAPACITY
    ensures At(run, [], from, NoRoomAt(cap)) && At(run, [], from, OpenAt(cap)) && At(run, [], from, NothingReadable(cap))
  {
  }

  lemma KeepMoments<T>(run: seq<Action<T>>, later: seq<Action<T>>, fulls: seq<nat>, opens: seq<nat>, from: nat, cap: U32)
    requires run <= later && cap <= MAX_CAPACITY && At(run, fulls, from, NoRoomAt(cap)) && At(run, opens, from, OpenAt(cap))
    ensures At(later, fulls, from, NoRoomAt(cap)) && At(later, opens, from, OpenAt(cap))
  {
    Later(run, later, fulls, from, NoRoomAt(cap));
    Later(run, later, opens, from, OpenAt(cap));
  }

  lemma KeepEmpties<T>(run: seq<Action<T>>, later: seq<Action<T>>, empties: seq<nat>, opens: seq<nat>, from: nat, cap: U32)
    requires run <= later && cap <= MAX_CAPACITY && At(run, empties, from, NothingReadable(cap)) && At(run, opens, from, OpenAt(cap))
    ensures At(later, empties, from, NothingReadable(cap)) && At(later, opens, from, OpenAt(cap))
  {
    Later(run, later, empties, from, NothingReadable(cap));
    Later(run, later, opens, from, OpenAt(cap));
  }

  /** A call that found no room, undisturbed, began with none. */
  lemma UnreadStill<T>(s: Ring<T>, s': Ring<T>)
    requires |s'.slots| > 0 && (TailUnread(s') || LapWrapped(s')) && s'.sent == s.sent
    ensures TailUnread(s') && (Undisturbed(Sender, s, s') ==> TailUnread(s))
  {
  }

  lemma StillWrapped<T>(s: Ring<T>, s': Ring<T>)
    requires |s'.slots| == |s.slots| > 0 && LapWrapped(s') && s'.sent == s.sent
    ensures Undisturbed(Sender, s, s') ==> LapWrapped(s)
  {
  }

  lemma SameTailFrom<T>(s: Ring<T>, s': Ring<T>)
    ensures Undisturbed(Sender, s, s') && s'.sent == s.sent ==> TailUnread(s') == TailUnread(s)
  {
  }

  lemma SamePublishedFrom<T>(s: Ring<T>, s': Ring<T>)
    ensures Undisturbed(Receiver, s, s') ==> P(s') == P(s)
  {
  }

  class SpscBounded<T> {
    var readMeta: U64
    var writeMeta: U64
    var closed: bool
    const buffer: array<Slot<T>>
    const capacity: U32

    // Where the two threads stand, and the histories.
    var sender: SendPc<T>
    var receiver: RecvPc<T>
    var sent: seq<T>
    var received: seq<T>

    // What the other side and the closers will still do.
    var schedule: seq<Action<T>>

    // All steps since the queue was created.
    ghost var run: seq<Action<T>>

    function View(): Ring<T>
      reads this, buffer
    {
      Ring(buffer[..], writeMeta, readMeta, closed, sender, receiver, sent, received)
    }

    ghost predicate Valid()
      reads this, buffer
    {
      && 0 < capacity <= MAX_CAPACITY && buffer.Length == capacity
      && View() == Exec(Init(capacity), run)
      && Inv(View())
    }

    /** The queue has run on from `start`, and nothing was undone. */
    ghost predicate Since(start: Ring<T>)
      reads this, buffer
    {
      Valid() && Grows(start, View())
    }

    /** `SpscBounded::new` */
    constructor (cap: U32, schedule: seq<Action<T>>)
      requires cap <= MAX_CAPACITY
      ensures Valid() && fresh(buffer)
      ensures capacity == (if cap > 0 then cap else 1)
      ensures sent == received == [] && !closed && this.schedule == schedule
    {
      var rawCap: U32 := if cap > 0 then cap else 1;
      capacity := rawCap;
      buffer := new Slot<T>[rawCap](_ => Slot(0, None));
      readMeta, writeMeta, closed := TWO32, 0, false;
      sender, receiver, sent, received := SIdle, RIdle, [], [];
      this.schedule, run := schedule, [];
      new;
      InitInv<T>(capacity);
      assert View() == Init(capacity);
    }

    // -------------------------------------------------------------- steps

    /** Ends an access that turned `before` into the present state by action a. */
    ghost method Record(before: Ring<T>, a: Action<T>, start: Ring<T>)
      requires 0 < capacity <= MAX_CAPACITY && buffer.Length == capacity
      requires Inv(before) && before == Exec(Init(capacity), run) && View() == Next(before, a)
      requires Grows(start, before)
      modifies this`run
      ensures Since(start) && run == old(run) + [a]
    {
      StepKeepsInv(before, a);
      StepGrows(before, a);
      GrowsTrans(start, before, View());
      ExecSnoc(Init(capacity), run, a);
      run := run + [a];
    }

    /** One step of any thread. */
    method Apply(a: Action<T>, ghost start: Ring<T>)
      requires Since(start)
      modifies this, buffer
      ensures Since(start) && old(run) <= run && View() == Next(old(View()), a) && schedule == old(schedule)
    {
      ghost var before := View();
      StepGrows(before, a);
      var s' := Next(View(), a);
      forall i | 0 <= i < buffer.Length {
        buffer[i] := s'.slots[i];
      }
      writeMeta, readMeta, closed := s'.writeMeta, s'.readMeta, s'.closed;
      sender, receiver, sent, received := s'.sender, s'.receiver, s'.sent, s'.received;
      assert View() == s';
      Record(before, a, start);
    }

    /** The next scheduled step of anybody but the calling side. */
    method OtherStep(side: Side, ghost start: Ring<T>)
      requires Since(start) && schedule != []
      modifies this, buffer
      ensures Since(start) && old(run) <= run && |schedule| == old(|schedule|) - 1
      ensures side.Sender? ==> sender == old(sender) && sent == old(sent) && writeMeta == old(writeMeta)
      ensures side.Receiver? ==> receiver == old(receiver) && received == old(received) && readMeta == old(readMeta)
      ensures StillSo(side, old(View()), View()) && (old(closed) ==> closed)
    {
      hide Exec, Next, Grows;
      var a := schedule[0];
      schedule := schedule[1..];
      if !IsOf(side, a) {
        OtherSideKeeps(View(), a);
        StaysSo(side, View(), a);
        StaysClosed(View(), a);
        Apply(a, start);
      }
    }

    method Interfere(side: Side, ghost start: Ring<T>)
      requires Since(start)
      modifies this, buffer
      ensures Since(start) && old(run) <= run && |schedule| <= old(|schedule|)
      ensures |schedule| == old(|schedule|) ==> View() == old(View())
      ensures side.Sender? ==> sender == old(sender) && sent == old(sent) && writeMeta == old(writeMeta)
      ensures side.Receiver? ==> receiver == old(receiver) && received == old(received) && readMeta == old(readMeta)
      ensures StillSo(side, old(View()), View()) && (old(closed) ==> closed)
    {
      ghost var entry := View();
      var n: nat :| n <= |schedule|;
      while n > 0
        invariant n <= |schedule| <= old(|schedule|)
        invariant Since(start) && old(run) <= run
        invariant |schedule| == old(|schedule|) ==> View() == entry
        invariant StillSo(side, entry, View()) && (old(closed) ==> closed)
        invariant side.Sender? ==> sender == old(sender) && sent == old(sent) && writeMeta == old(writeMeta)
        invariant side.Receiver? ==> receiver == old(receiver) && received == old(received) && readMeta == old(readMeta)
      {
        OtherStep(side, start);
        n := n - 1;
      }
    }

    // -------------------------------------------------------------- sending

    method LoadClosed(ghost start: Ring<T>) returns (r: bool)
      requires Since(start) && sender.SCheck?
      modifies this`sender, this`run
      ensures Since(start) && old(run) <= run && |old(run)| < |run| && r == closed && StillSo(Sender, old(View()), View())
      ensures sender == if r then SDone(Disconnected(old(sender.msg))) else SLap(old(sender.msg), old(sender.blocking))
    {
      ghost var before := View();
      r := closed;
      sender := if r then SDone(Disconnected(sender.msg)) else SLap(sender.msg, sender.blocking);
      Record(before, StepSend, start);
    }

    /** The lap load of a round and, if the laps agree, the claim on the private meta. */
    method PeekAndClaim(idx: U32, lap: U32, ghost start: Ring<T>) returns (elemLap: U32)
      requires Since(start) && sender.SLap? && idx == IdxOf(writeMeta) && lap == LapOf(writeMeta)
      modifies this`sender, this`writeMeta, this`sent, this`run
      ensures Since(start) && old(run) <= run && idx < capacity && elemLap == buffer[idx].lap
      ensures lap == elemLap ==> sender == SWrite(old(sender.msg), Claim(lap, idx)) && sent == old(sent) + [old(sender.msg)]
      ensures lap == elemLap ==> writeMeta == Bump(old(writeMeta), capacity)
      ensures lap != elemLap ==> sent == old(sent) && writeMeta == old(writeMeta)
      ensures lap > elemLap ==> sender == SRelap(old(sender.msg), old(sender.blocking))
      ensures lap != elemLap ==> TailUnread(old(View())) && StillSo(Sender, old(View()), View())
      ensures lap < elemLap ==> sender == SCheck(old(sender.msg), old(sender.blocking)) && LapWrapped(View())
    {
      ghost var before := View();
      TailLap(before);
      SendDecision(before);
      elemLap := buffer[idx].lap;
      if lap == elemLap {
        sent := sent + [sender.msg];
        writeMeta := if idx + 1 < capacity then WrapAdd64(writeMeta, 1) else WrapAdd32(lap, 2) * TWO32;
        sender := SWrite(sender.msg, Claim(lap, idx));
      } else if lap > elemLap {
        sender := SRelap(sender.msg, sender.blocking);
      } else {
        sender := SCheck(sender.msg, sender.blocking);
      }
      Record(before, StepSend, start);
    }

    /** The second lap load. */
    method RecheckTail(idx: U32, lap: U32, ghost start: Ring<T>) returns (full: bool)
      requires Since(start) && sender.SRelap? && idx == IdxOf(writeMeta) && lap == LapOf(writeMeta) && lap > 0
      modifies this`sender, this`run
      ensures Since(start) && old(run) <= run && idx < capacity && StillSo(Sender, old(View()), View())
      ensures full <==> lap > buffer[idx].lap
      ensures full ==> sender == NoRoom(old(sender.msg), old(sender.blocking)) && TailUnread(View()) && !LapWrapped(View())
      ensures !full ==> sender == SCheck(old(sender.msg), old(sender.blocking)) && !TailUnread(View())
    {
      ghost var before := View();
      TailLap(before);
      FullExact(before);
      full := lap > buffer[idx].lap;
      sender := if full then NoRoom(sender.msg, sender.blocking) else SCheck(sender.msg, sender.blocking);
      Record(before, StepSend, start);
    }

    // The same accesses with the others' steps before them, from a state `entry` of the same call.

    method LookAtFlag(ghost entry: Ring<T>, ghost start: Ring<T>) returns (r: bool)
      requires Since(start) && sender.SCheck? && StillSo(Sender, entry, View())
      modifies this, buffer
      ensures Since(start) && old(run) <= run && |schedule| <= old(|schedule|) && StillSo(Sender, entry, View()) && StillSo(Sender, old(View()), View())
      ensures writeMeta == old(writeMeta) && sent == old(sent) && r == closed && (old(closed) ==> r)
      ensures |old(run)| < |run|
      ensures old(schedule) == [] ==> schedule == [] && Undisturbed(Sender, old(View()), View())
      ensures sender == if r then SDone(Disconnected(old(sender.msg))) else SLap(old(sender.msg), old(sender.blocking))
    {
      hide Exec, Next, Inv, Grows, TailUnread, R, P;
      Interfere(Sender, start);
      r := LoadClosed(start);
    }

    method TryClaim(idx: U32, lap: U32, ghost entry: Ring<T>, ghost start: Ring<T>) returns (elemLap: U32)
      requires Since(start) && sender.SLap? && idx == IdxOf(writeMeta) && lap == LapOf(writeMeta) && StillSo(Sender, entry, View())
      modifies this, buffer
      ensures old(schedule) == [] ==> schedule == [] && Undisturbed(Sender, old(View()), View())
      ensures Since(start) && old(run) <= run && |schedule| <= old(|schedule|)
      ensures lap == elemLap ==> sender == SWrite(old(sender.msg), Claim(lap, idx)) && sent == old(sent) + [old(sender.msg)]
      ensures lap != elemLap ==> sent == old(sent) && writeMeta == old(writeMeta) && StillSo(Sender, entry, View())
      ensures lap != elemLap ==> TailUnread(entry) && TailUnread(old(View()))
      ensures lap > elemLap ==> sender == SRelap(old(sender.msg), old(sender.blocking))
      ensures lap < elemLap ==> sender == SCheck(old(sender.msg), old(sender.blocking)) && LapWrapped(View())
    {
      hide Exec, Next, Inv, Grows, TailUnread, R, P, LapWrapped, LapOf, IdxOf, Bump;
      Interfere(Sender, start);
      elemLap := PeekAndClaim(idx, lap, start);
    }

    method RecheckRoom(idx: U32, lap: U32, ghost entry: Ring<T>, ghost start: Ring<T>) returns (full: bool)
      requires Since(start) && sender.SRelap? && idx == IdxOf(writeMeta) && lap == LapOf(writeMeta) && lap > 0
      requires StillSo(Sender, entry, View())
      modifies this, buffer
      ensures old(schedule) == [] ==> schedule == [] && Undisturbed(Sender, old(View()), View())
      ensures Since(start) && old(run) <= run && |schedule| <= old(|schedule|) && StillSo(Sender, entry, View()) && sent == old(sent) && writeMeta == old(writeMeta)
      ensures full ==> sender == NoRoom(old(sender.msg), old(sender.blocking)) && TailUnread(View()) && !LapWrapped(View())
      ensures !full ==> sender == SCheck(old(sender.msg), old(sender.blocking)) && !TailUnread(View())
    {
      hide Exec, Next, Inv, Grows, TailUnread, R, P, LapWrapped, LapOf, IdxOf;
      Interfere(Sender, start);
      full := RecheckTail(idx, lap, start);
    }

    /** One round of the selection. No state: it goes round, `spun` by the Less branch, else after a slot that was released. */
    method RoundForSend(idx: U32, lap: U32, ghost entry: Ring<T>, ghost start: Ring<T>)
      returns (elemLap: U32, state: Option<State>, spun: bool)
      requires Since(start) && sender.SCheck? && idx == IdxOf(writeMeta) && lap == LapOf(writeMeta) && StillSo(Sender, entry, View())
      modifies this, buffer
      ensures Since(start) && old(run) <= run && |old(run)| < |run| && |schedule| <= old(|schedule|)
      ensures state == Some(Success) ==> sender == SWrite(old(sender.msg), Claim(elemLap, idx)) && sent == old(sent) + [old(sender.msg)]
      ensures state != Some(Success) ==> sent == old(sent) && writeMeta == old(writeMeta)
      ensures state == Some(Closed) ==> closed && sender == SDone(Disconnected(old(sender.msg)))
      ensures state == Some(Failed) ==>
        TailUnread(View()) && !LapWrapped(View()) && sender == NoRoom(old(sender.msg), old(sender.blocking))
      ensures state == Some(Success) <==> sender.SWrite?
      ensures state == None ==> sender == old(sender) && TailUnread(entry) && TailUnread(old(View())) && StillSo(Sender, entry, View())
      ensures state == None ==> if spun then LapWrapped(View()) else !TailUnread(View())
      ensures old(closed) ==> state == Some(Closed)
      ensures old(schedule) == [] ==> schedule == [] && Undisturbed(Sender, old(View()), View()) && (!old(closed) ==> state != Some(Closed))
    {
      hide Exec, Next, Inv, Bump, Grows, WriteLap, TailUnread, LapWrapped, LapOf, IdxOf, R, P;
      elemLap, state, spun := 0, None, false;
      var isClosed := LookAtFlag(entry, start);
      if isClosed {
        state := Some(Closed);
        return;
      }
      elemLap := TryClaim(idx, lap, entry, start);
      if lap == elemLap {
        state := Some(Success);
      } else if lap > elemLap {
        var full := RecheckRoom(idx, lap, entry, start);
        state := if full then Some(Failed) else None;
      } else {
        spun := true;
      }
    }

    /**
     `select_bucket_4_send`. `spins` counts the rounds that took the Less branch, which only the wrapped lap does, and
     `patience` bounds them; besides these there is the last round and at most one more, after a second lap load that found
     the tail slot released. A round after the first means that the slot was unread at the call. No outcome: out of patience.
     */
    method SelectForSend(patience: nat, ghost start: Ring<T>)
      returns (idx: U32, elemLap: U32, outcome: Option<State>, rounds: nat, spins: nat)
      requires Since(start) && sender.SCheck?
      modifies this, buffer
      ensures Since(start) && old(run) <= run && |schedule| <= old(|schedule|)
      ensures 1 <= rounds <= 2 + spins && spins <= patience
      ensures rounds > 1 ==> TailUnread(old(View()))
      ensures spins > 0 ==> WriteLap(|old(sent)|, capacity) == 0
      ensures outcome == Some(Success) <==> sender.SWrite?
      ensures outcome == Some(Success) ==> sender == SWrite(old(sender.msg), Claim(elemLap, idx)) && sent == old(sent) + [old(sender.msg)]
      ensures outcome != Some(Success) ==> sent == old(sent)
      ensures outcome == Some(Closed) ==> closed && sender == SDone(Disconnected(old(sender.msg)))
      ensures outcome == Some(Failed) ==>
        TailUnread(View()) && !LapWrapped(View()) && sender == NoRoom(old(sender.msg), old(sender.blocking))
      ensures outcome == None ==> spins == patience && LapWrapped(View()) && sender == SCheck(old(sender.msg), old(sender.blocking))
      ensures |old(run)| < |run|
      ensures old(schedule) == [] ==> schedule == [] && Undisturbed(Sender, old(View()), View())
      ensures old(closed) ==> outcome == Some(Closed)
      ensures old(schedule) == [] && !old(closed) ==> outcome != Some(Closed)
    {
      hide Exec, Next, Inv, Bump, Grows, WriteLap, TailUnread, LapWrapped, LapOf, IdxOf, R, P;
      ghost var entry := View();
      idx, elemLap, rounds, spins := IdxOf(writeMeta), 0, 1, 0;
      var lap := LapOf(writeMeta);
      ghost var released := false;
      while true
        invariant Since(start) && old(run) <= run && |schedule| <= old(|schedule|)
        invariant sender == old(sender) && sent == old(sent)
        invariant idx == IdxOf(writeMeta) && lap == LapOf(writeMeta)
        invariant StillSo(Sender, entry, View())
        invariant rounds == 1 + spins + (if released then 1 else 0) && spins <= patience
        invariant released ==> !TailUnread(View())
        invariant rounds > 1 ==> TailUnread(entry)
        invariant spins > 0 ==> WriteLap(|entry.sent|, capacity) == 0
        invariant old(schedule) == [] ==> schedule == [] && Undisturbed(Sender, entry, View())
        invariant old(closed) ==> closed && rounds == 1
        decreases !released, patience - spins
      {
        var spun;
        elemLap, outcome, spun := RoundForSend(idx, lap, entry, start);
        if outcome.Some? {
          return;
        }
        if spun {
          WrappedLap(View());
          if spins == patience {
            return;
          }
          spins := spins + 1;
        } else {
          released := true;
        }
        rounds := rounds + 1;
      }
    }

    /** `ElemArr::write`: the message, then the lap. */
    method Write(idx: U32, lap: U32, msg: T, ghost start: Ring<T>)
      requires Since(start) && sender.SWrite? && sender.msg == msg && sender.claim.idx == idx && lap == WrapAdd32(sender.claim.lap, 1)
      modifies this, buffer
      ensures Since(start) && old(run) <= run && sender == SDone(Sent) && sent == old(sent)
    {
      Interfere(Sender, start);
      WriteMsg(idx, msg, start);
      Interfere(Sender, start);
      PublishLap(idx, lap, start);
    }

    method WriteMsg(idx: U32, msg: T, ghost start: Ring<T>)
      requires Since(start) && sender.SWrite? && sender.msg == msg && sender.claim.idx == idx
      modifies this`sender, this`run, buffer
      ensures Since(start) && old(run) <= run && sender == SPublish(old(sender.claim))
    {
      ghost var before := View();
      assert TicketOk(before, P(before));
      buffer[idx] := buffer[idx].(msg := Some(msg));
      sender := SPublish(sender.claim);
      Record(before, StepSend, start);
    }

    method PublishLap(idx: U32, lap: U32, ghost start: Ring<T>)
      requires Since(start) && sender.SPublish? && sender.claim.idx == idx && lap == WrapAdd32(sender.claim.lap, 1)
      modifies this`sender, this`run, buffer
      ensures Since(start) && old(run) <= run && sender == SDone(Sent)
    {
      ghost var before := View();
      assert TicketOk(before, P(before));
      buffer[idx] := buffer[idx].(lap := lap);
      sender := SDone(Sent);
      Record(before, StepSend, start);
    }

    method EnterSend(msg: T, blocking: bool, ghost start: Ring<T>)
      requires Since(start) && (sender.SIdle? || sender.SDone?)
      modifies this`sender, this`run
      ensures Since(start) && old(run) <= run && sender == SCheck(msg, blocking)
    {
      ghost var before := View();
      sender := SCheck(msg, blocking);
      Record(before, StartSend(msg, blocking), start);
    }

    /** `try_send`, up to the wake-up of the reader. No result: after `patience` rounds it still spins in the wrapped lap. */
    method TrySend(msg: T, patience: nat) returns (r: Option<SendResult<T>>, spins: nat)
      requires Valid() && (sender.SIdle? || sender.SDone?)
      modifies this, buffer
      ensures Since(old(View())) && old(run) <= run
      ensures r == Some(Sent) ==> sent == old(sent) + [msg]
      ensures r != Some(Sent) ==> sent == old(sent)
      ensures r.Some? ==> sender == SDone(r.value)
      ensures r.Some? && r.value.Full? ==> r.value.msg == msg && TailUnread(View()) && !LapWrapped(View())
      ensures r.Some? && r.value.Disconnected? ==> r.value.msg == msg && closed
      ensures r == None ==> LapWrapped(View()) && sender == SCheck(msg, false) && spins == patience
      ensures old(closed) || (old(schedule) == [] && !LapWrapped(old(View()))) ==> r.Some?
    {
      hide Exec, Next, Inv, WriteLap, TailUnread;
      ghost var start := View();
      EnterSend(msg, false, start);
      var idx, lap, outcome, _, spun := SelectForSend(patience, start);
      spins := spun;
      if outcome == None && schedule == [] {
        StillWrapped(start, View());
      }
      match outcome
      case Some(Success) =>
        Write(idx, WrapAdd32(lap, 1), msg, start);
        r := Some(Sent);
      case Some(Closed) => r := Some(Disconnected(msg));
      case Some(Failed) => r := Some(SendResult.Full(msg));
      case None => r := None;
    }

    // -------------------------------------------------------------- receiving

    /** The lap load of a round and, if the laps agree, the claim on the private meta. */
    method PeekAndTake(idx: U32, lap: U32, ghost start: Ring<T>) returns (elemLap: U32)
      requires Since(start) && receiver.RLap? && idx == IdxOf(readMeta) && lap == LapOf(readMeta)
      modifies this`receiver, this`readMeta, this`run
      ensures Since(start) && old(run) <= run && idx < capacity && elemLap == buffer[idx].lap
      ensures lap == elemLap ==> receiver == RRead(Claim(lap, idx)) && readMeta == Bump(old(readMeta), capacity)
      ensures lap != elemLap ==> readMeta == old(readMeta)
      ensures lap > elemLap ==> receiver == RRelap(old(receiver.blocking), old(receiver.sawClosed))
      ensures lap > elemLap ==> |received| >= P(old(View())) && received == old(received)
      ensures lap >= elemLap && |old(run)| < |run|
    {
      ghost var before := View();
      HeadLap(before);
      elemLap := buffer[idx].lap;
      if lap == elemLap {
        readMeta := if idx + 1 < capacity then WrapAdd64(readMeta, 1) else WrapAdd32(lap, 2) * TWO32;
        receiver := RRead(Claim(lap, idx));
      } else {
        receiver := RRelap(receiver.blocking, receiver.sawClosed);
      }
      Record(before, StepRecv, start);
    }

    method RecheckHead(idx: U32, lap: U32, ghost start: Ring<T>) returns (empty: bool)
      requires Since(start) && receiver.RRelap? && idx == IdxOf(readMeta) && lap == LapOf(readMeta)
      modifies this`receiver, this`run
      ensures Since(start) && old(run) <= run && idx < capacity
      ensures empty <==> lap > buffer[idx].lap
      ensures empty ==> receiver == NothingToRead(old(receiver.blocking), old(receiver.sawClosed)) && |received| == P(View())
      ensures !empty ==> receiver == RLap(old(receiver.blocking), old(receiver.sawClosed)) && |received| < P(View())
    {
      ghost var before := View();
      HeadLap(before);
      RecvDecision(before);
      empty := lap > buffer[idx].lap;
      receiver := if empty then NothingToRead(receiver.blocking, receiver.sawClosed) else RLap(receiver.blocking, receiver.sawClosed);
      Record(before, StepRecv, start);
    }

    /**
     `select_bucket_4_recv`. Its Less branch is never taken, and there is at most one round after the first, when the
     second lap load found the head published that was not at the call.
     */
    method SelectForRecv(ghost start: Ring<T>) returns (idx: U32, elemLap: U32, success: bool, rounds: nat)
      requires Since(start) && receiver.RLap?
      modifies this, buffer
      ensures Since(start) && old(run) <= run && received == old(received) && |schedule| <= old(|schedule|)
      ensures 1 <= rounds <= 2
      ensures rounds > 1 ==> success && |received| == P(old(View()))
      ensures success ==> receiver == RRead(Claim(elemLap, idx))
      ensures !success ==> receiver == NothingToRead(old(receiver.blocking), old(receiver.sawClosed)) && |received| == P(View())
      ensures |old(run)| < |run| && (old(closed) ==> closed)
      ensures old(schedule) == [] ==> schedule == [] && Undisturbed(Receiver, old(View()), View())
    {
      hide Exec, Next, Inv, Bump, Grows, ReadLap, P, LapOf, IdxOf;
      ghost var blocking, sawClosed, entry := receiver.blocking, receiver.sawClosed, View();
      idx, rounds := IdxOf(readMeta), 1;
      var lap := LapOf(readMeta);
      while true
        invariant Since(start) && old(run) <= run && |schedule| <= old(|schedule|)
        invariant receiver == RLap(blocking, sawClosed) && received == old(received)
        invariant idx == IdxOf(readMeta) && lap == LapOf(readMeta)
        invariant StillSo(Receiver, entry, View())
        invariant 1 <= rounds <= 2
        invariant rounds == 2 ==> |received| < P(View()) && |received| >= P(entry)
        invariant old(schedule) == [] ==> schedule == [] && Undisturbed(Receiver, entry, View())
        invariant old(closed) ==> closed
        decreases 2 - rounds
      {
        Interfere(Receiver, start);
        elemLap := PeekAndTake(idx, lap, start);
        if lap == elemLap {
          success := true;
          if rounds == 2 {
            NoMoreThanPublished(entry);
          }
          return;
        }
        Interfere(Receiver, start);
        var empty := RecheckHead(idx, lap, start);
        if empty {
          success := false;
          return;
        }
        rounds := rounds + 1;
      }
    }

    /** `ElemArr::read`: the message moves out, then the lap. */
    method Read(idx: U32, lap: U32, ghost start: Ring<T>) returns (msg: T)
      requires Since(start) && receiver.RRead? && receiver.claim.idx == idx && lap == WrapAdd32(receiver.claim.lap, 1)
      modifies this, buffer
      ensures Since(start) && old(run) <= run && receiver == RDone(Received(msg)) && received == old(received) + [msg]
    {
      Interfere(Receiver, start);
      msg := ReadMsg(idx, start);
      Interfere(Receiver, start);
      ReleaseLap(idx, lap, start);
    }

    method ReadMsg(idx: U32, ghost start: Ring<T>) returns (msg: T)
      requires Since(start) && receiver.RRead? && receiver.claim.idx == idx
      modifies this`receiver, this`received, this`run, buffer
      ensures Since(start) && old(run) <= run && receiver == RRelease(old(receiver.claim), msg) && received == old(received) + [msg]
    {
      ghost var before := View();
      assert TicketOk(before, Q(before));
      msg := buffer[idx].msg.value;
      buffer[idx] := buffer[idx].(msg := None);
      received := received + [msg];
      receiver := RRelease(receiver.claim, msg);
      Record(before, StepRecv, start);
    }

    method ReleaseLap(idx: U32, lap: U32, ghost start: Ring<T>)
      requires Since(start) && receiver.RRelease? && receiver.claim.idx == idx && lap == WrapAdd32(receiver.claim.lap, 1)
      modifies this`receiver, this`run, buffer
      ensures Since(start) && old(run) <= run && receiver == RDone(Received(old(receiver.msg)))
    {
      ghost var before := View();
      assert TicketOk(before, Q(before));
      buffer[idx] := buffer[idx].(lap := lap);
      receiver := RDone(Received(receiver.msg));
      Record(before, StepRecv, start);
    }

    method EnterRecv(blocking: bool, ghost start: Ring<T>)
      requires Since(start) && (receiver.RIdle? || receiver.RDone?)
      modifies this`receiver, this`run
      ensures Since(start) && old(run) <= run && receiver == RLap(blocking, false)
    {
      ghost var before := View();
      receiver := RLap(blocking, false);
      Record(before, StartRecv(blocking), start);
    }

    /** `try_recv`, up to the wake-up of the sender. */
    method TryRecv() returns (r: RecvResult<T>)
      requires Valid() && (receiver.RIdle? || receiver.RDone?)
      modifies this, buffer
      ensures Since(old(View())) && old(run) <= run && receiver == RDone(r) && !r.RecvError?
      ensures r.Received? ==> received == old(received) + [r.msg] && received <= sent
      ensures r.Empty? ==> received == old(received) && |received| == P(View())
    {
      hide Exec, Next, P;
      ghost var start := View();
      EnterRecv(false, start);
      var idx, lap, success, _ := SelectForRecv(start);
      if !success {
        return RecvResult.Empty;
      }
      var msg := Read(idx, WrapAdd32(lap, 1), start);
      r := Received(msg);
    }

    // -------------------------------------------------------------- the blocking calls

    /** A waiting thread goes round its loop. */
    method SendRound(ghost start: Ring<T>)
      requires Since(start) && sender.SWait?
      modifies this`sender, this`run
      ensures Since(start) && old(run) <= run && sender == SCheck(old(sender).msg, true)
    {
      ghost var before := View();
      sender := SCheck(sender.msg, true);
      Record(before, ResumeSend, start);
    }

    method RecvRound(ghost start: Ring<T>)
      requires Since(start) && receiver.RWait?
      modifies this`receiver, this`run
      ensures Since(start) && old(run) <= run && receiver == RLap(true, false)
    {
      ghost var before := View();
      receiver := RLap(true, false);
      Record(before, ResumeRecv, start);
    }

    /** The flag load of a waiting thread that finds the queue closed. */
    method SendSeesClosed(ghost start: Ring<T>)
      requires Since(start) && sender.SWait? && closed
      modifies this`sender, this`run
      ensures Since(start) && old(run) <= run && sender == SDone(Disconnected(old(sender).msg))
    {
      ghost var before := View();
      sender := SDone(Disconnected(sender.msg));
      Record(before, StepSend, start);
    }

    method RecvSeesClosed(ghost start: Ring<T>)
      requires Since(start) && receiver.RWait? && closed
      modifies this`receiver, this`run
      ensures Since(start) && old(run) <= run && receiver == RLap(true, true)
    {
      ghost var before := View();
      receiver := RLap(true, true);
      Record(before, StepRecv, start);
    }

    /** Others' steps, and the flag load of a waiting sender. The load is made after step `at`. */
    method SendLooks(look: bool, ghost start: Ring<T>) returns (sawClosed: bool, ghost at: nat)
      requires Since(start) && sender.SWait?
      modifies this, buffer
      ensures Since(start) && old(run) <= run && sent == old(sent) && |old(run)| <= at <= |run|
      ensures if sawClosed then closed && sender == SDone(Disconnected(old(sender).msg)) else sender == old(sender)
      ensures look && !sawClosed ==> OpenAt(capacity)(run[..at])
      ensures look && old(closed) ==> sawClosed
      ensures old(schedule) == [] ==> schedule == [] && Undisturbed(Sender, old(View()), View())
    {
      hide Exec, Next, Inv, Grows;
      Interfere(Sender, start);
      at := |run|;
      WholeRun(run);
      sawClosed := look && closed;
      if sawClosed {
        SendSeesClosed(start);
      }
    }

    method RecvLooks(look: bool, ghost start: Ring<T>) returns (sawClosed: bool, ghost at: nat)
      requires Since(start) && receiver.RWait?
      modifies this, buffer
      ensures Since(start) && old(run) <= run && received == old(received) && |old(run)| <= at <= |run|
      ensures if sawClosed then closed && receiver == RLap(true, true) else receiver == old(receiver)
      ensures look && !sawClosed ==> OpenAt(capacity)(run[..at])
      ensures look && old(closed) ==> sawClosed
      ensures old(schedule) == [] ==> schedule == [] && Undisturbed(Receiver, old(View()), View())
    {
      hide Exec, Next, Inv, Grows;
      Interfere(Receiver, start);
      at := |run|;
      WholeRun(run);
      sawClosed := look && closed;
      if sawClosed {
        RecvSeesClosed(start);
      }
    }

    /**
     How a sender's wait ends. It looks at the flag before anything else, and may look again, woken or not. It goes round if
     it may, or it saw the queue closed, or it still waits. Unless it saw that, the queue was open at its first look.
     */
    method AwaitRoom(mayGo: bool, ghost start: Ring<T>) returns (state: State, ghost at: nat)
      requires Since(start) && sender.SWait?
      modifies this, buffer
      ensures Since(start) && old(run) <= run && sent == old(sent) && |old(run)| <= at <= |run|
      ensures state.Success? ==> mayGo && sender == SCheck(old(sender).msg, true)
      ensures state.Closed? ==> closed && sender == SDone(Disconnected(old(sender).msg))
      ensures state.Failed? ==> !mayGo && sender == old(sender)
      ensures !state.Closed? ==> OpenAt(capacity)(run[..at])
      ensures old(closed) ==> state.Closed?
      ensures old(schedule) == [] ==> schedule == [] && Undisturbed(Sender, old(View()), View())
    {
      hide Exec, Next, Inv, Grows, OpenAt;
      var sawClosed;
      sawClosed, at := SendLooks(true, start);
      ghost var upTo := run;
      if !sawClosed {
        var again: bool := *;
        var seen, _ := SendLooks(again, start);
        sawClosed := seen;
      }
      assert run[..at] == upTo[..at];
      if sawClosed {
        return Closed, at;
      }
      if !mayGo {
        return Failed, at;
      }
      ghost var later := run;
      SendRound(start);
      assert run[..at] == later[..at];
      return Success, at;
    }

    method AwaitMessage(mayGo: bool, ghost start: Ring<T>) returns (state: State, ghost at: nat)
      requires Since(start) && receiver.RWait?
      modifies this, buffer
      ensures Since(start) && old(run) <= run && received == old(received) && |old(run)| <= at <= |run|
      ensures state.Success? ==> mayGo && receiver == RLap(true, false)
      ensures state.Closed? ==> closed && receiver == RLap(true, true)
      ensures state.Failed? ==> !mayGo && receiver.RWait?
      ensures !state.Closed? ==> OpenAt(capacity)(run[..at])
      ensures old(closed) ==> state.Closed?
      ensures old(schedule) == [] ==> schedule == [] && Undisturbed(Receiver, old(View()), View())
    {
      hide Exec, Next, Inv, Grows, OpenAt;
      var sawClosed;
      sawClosed, at := RecvLooks(true, start);
      ghost var upTo := run;
      if !sawClosed {
        var again: bool := *;
        var seen, _ := RecvLooks(again, start);
        sawClosed := seen;
      }
      assert run[..at] == upTo[..at];
      if sawClosed {
        return Closed, at;
      }
      if !mayGo {
        return Failed, at;
      }
      ghost var later := run;
      RecvRound(start);
      assert run[..at] == later[..at];
      return Success, at;
    }

    /**
     A round of `send`: a selection, the write if it claimed, else the wait. No result and no Failed: it goes round. If it
     waited at all there was no room after step `full` and the queue was open after step `open`, or it saw it closed.
     */
    method SendRoundOnce(msg: T, mayGo: bool, patience: nat, ghost start: Ring<T>)
      returns (r: Option<SendResult<T>>, spun: bool, spins: nat, ghost full: nat, ghost open: nat)
      requires Since(start) && sender == SCheck(msg, true)
      modifies this, buffer
      ensures Since(start) && old(run) <= run
      ensures sent == if r == Some(Sent) then old(sent) + [msg] else old(sent)
      ensures r.Some? ==> sender == SDone(r.value) && !r.value.Full? && (r.value.Disconnected? ==> r.value.msg == msg && closed)
      ensures r == None ==> if spun then LapWrapped(View()) && sender == SCheck(msg, true) else
        sender == (if mayGo then SCheck(msg, true) else SWait(msg))
      ensures r == None && !spun ==> |old(run)| < full <= |run| && |old(run)| < open <= |run|
      ensures r == None && !spun ==> NoRoomAt(capacity)(run[..full]) && OpenAt(capacity)(run[..open])
      ensures old(schedule) == [] && r == None ==> schedule == [] && Undisturbed(Sender, old(View()), View())
      ensures old(closed) ==> r.Some?
      ensures old(schedule) == [] && r == None ==> TailUnread(old(View()))
      ensures spun ==> r == None && spins == patience
    {
      hide Exec, Next, Inv, WriteLap, TailUnread, Grows, LapWrapped, OpenAt;
      ghost var entry := View();
      var idx, lap, outcome, _, spinCount := SelectForSend(patience, start);
      r, spun, spins, full, open := None, false, spinCount, |run|, |run|;
      if outcome == Some(Success) {
        Write(idx, WrapAdd32(lap, 1), msg, start);
        r := Some(Sent);
        return;
      }
      if outcome == Some(Closed) {
        r := Some(Disconnected(msg));
        return;
      }
      assert outcome == None || outcome.value.Failed?;
      UnreadStill(entry, View());
      if outcome == None {
        spun := true;
        return;
      }
      WholeRun(run);
      ghost var upTo := run;
      var state, at := AwaitRoom(mayGo, start);
      open := at;
      assert run[..full] == upTo[..full];
      if state == Closed {
        r := Some(Disconnected(msg));
      }
    }

    /**
     `send`, with the waker's part left to `AwaitRoom`. It waits at most `patience` times and spins at most `patience`
     times a selection. No result: it has spun so often in the wrapped lap, or waits after one selection more than `patience`,
     each of which found no room at the moment in `fulls` and was followed by a look that found the queue open, in `opens`.
     */
    method Send(msg: T, patience: nat) returns (r: Option<SendResult<T>>, spins: nat, ghost fulls: seq<nat>, ghost opens: seq<nat>)
      requires Valid() && (sender.SIdle? || sender.SDone?)
      modifies this, buffer
      ensures Since(old(View())) && old(run) <= run
      ensures sent == if r == Some(Sent) then old(sent) + [msg] else old(sent)
      ensures r.Some? ==> sender == SDone(r.value) && !r.value.Full? && (r.value.Disconnected? ==> r.value.msg == msg && closed)
      ensures r == None ==> if sender.SWait? then sender.msg == msg && |fulls| == |opens| == patience + 1 else LapWrapped(View()) && sender == SCheck(msg, true) && spins == patience
      ensures At(run, fulls, |old(run)|, NoRoomAt(capacity)) && At(run, opens, |old(run)|, OpenAt(capacity))
      ensures old(closed) || (old(schedule) == [] && !TailUnread(old(View()))) ==> r.Some?
    {
      hide Exec, Next, Inv, WriteLap, TailUnread, Grows, LapWrapped, At, OpenAt, NoRoomAt;
      ghost var start := View();
      SinceItself();
      EnterSend(msg, true, start);
      fulls, opens, spins := [], [], 0;
      NoMoments(run, |old(run)|, capacity);
      for waits := 0 to patience + 1
        invariant Since(start) && old(run) <= run && sent == old(sent) && sender == if waits <= patience then SCheck(msg, true) else SWait(msg)
        invariant |fulls| == |opens| == waits
        invariant At(run, fulls, |old(run)|, NoRoomAt(capacity)) && At(run, opens, |old(run)|, OpenAt(capacity))
        invariant old(schedule) == [] ==> schedule == [] && Undisturbed(Sender, start, View()) && (waits > 0 ==> TailUnread(start))
        invariant old(closed) ==> closed && waits == 0
      {
        ghost var before, entry := run, View();
        var spun;
        ghost var full, open;
        r, spun, spins, full, open := SendRoundOnce(msg, waits < patience, patience, start);
        if r.Some? || spun {
          KeepMoments(before, run, fulls, opens, |old(run)|, capacity);
          SameTailFrom(start, entry);
          return;
        }
        SameTailFrom(start, entry);
        Note(before, run, fulls, full, |old(run)|, NoRoomAt(capacity));
        Note(before, run, opens, open, |old(run)|, OpenAt(capacity));
        fulls, opens := fulls + [full], opens + [open];
      }
      r := None;
    }

    /** A round of `recv`: a selection, the read if it claimed, else the wait; `sawClosed`, by the last wait and by this one. */
    method RecvRoundOnce(sawClosed: bool, mayGo: bool, ghost start: Ring<T>)
      returns (r: Option<RecvResult<T>>, seesClosed: bool, ghost empty: nat, ghost open: nat)
      requires Since(start) && receiver == RLap(true, sawClosed)
      modifies this, buffer
      ensures Since(start) && old(run) <= run
      ensures r.Some? ==> receiver == RDone(r.value) && !r.value.Empty?
      ensures r.Some? && r.value.Received? ==> received == old(received) + [r.value.msg] && received <= sent
      ensures r == Some(RecvError) ==> closed && received == old(received) && |received| == P(View())
      ensures sawClosed ==> r.Some?
      ensures r == None ==> received == old(received) && receiver == (if seesClosed then RLap(true, true) else if mayGo then RLap(true, false) else RWait)
      ensures r == None ==> |old(run)| < empty <= |run| && |old(run)| < open <= |run|
      ensures r == None ==> NothingReadable(capacity)(run[..empty]) && (seesClosed || OpenAt(capacity)(run[..open]))
      ensures old(schedule) == [] && r == None ==> schedule == [] && Undisturbed(Receiver, old(View()), View())
      ensures r == None && old(closed) ==> closed && seesClosed
      ensures old(schedule) == [] && r == None ==> |received| >= P(old(View()))
    {
      hide Exec, Next, Inv, P, Grows, OpenAt;
      ghost var entry := View();
      var idx, lap, success, _ := SelectForRecv(start);
      r, seesClosed, empty, open := None, false, |run|, |run|;
      if success {
        var msg := Read(idx, WrapAdd32(lap, 1), start);
        ReceivedFirst(View());
        r := Some(Received(msg));
        return;
      }
      if sawClosed {
        GaveUpClosed(View());
        r := Some(RecvError);
        return;
      }
      if old(schedule) == [] {
        SamePublished(entry, View());
      }
      AtWait(View());
      WholeRun(run);
      ghost var upTo := run;
      var state, at := AwaitMessage(mayGo, start);
      open := at;
      assert run[..empty] == upTo[..empty];
      seesClosed := state == Closed;
    }

    /**
     `recv`, likewise. It gives up only after it saw the queue closed and a later selection failed. No result: it waits after
     one selection more than `patience`, each of which found nothing to read and was followed by a look that found the queue open.
     */
    method Recv(patience: nat) returns (r: Option<RecvResult<T>>, ghost empties: seq<nat>, ghost opens: seq<nat>)
      requires Valid() && (receiver.RIdle? || receiver.RDone?)
      modifies this, buffer
      ensures Since(old(View())) && old(run) <= run
      ensures r.Some? ==> receiver == RDone(r.value) && !r.value.Empty?
      ensures r.Some? && r.value.Received? ==> received == old(received) + [r.value.msg] && received <= sent
      ensures r == Some(RecvError) ==> closed && received == old(received) && |received| == P(View())
      ensures r == None ==> receiver.RWait? && received == old(received) && |empties| == |opens| == patience + 1
      ensures At(run, empties, |old(run)|, NothingReadable(capacity)) && At(run, opens, |old(run)|, OpenAt(capacity))
      ensures old(closed) || (old(schedule) == [] && |old(received)| < P(old(View()))) ==> r.Some?
    {
      hide Exec, Next, Inv, P, Grows, At, OpenAt, NothingReadable;
      ghost var start := View();
      SinceItself();
      EnterRecv(true, start);
      empties, opens := [], [];
      NoMoments(run, |old(run)|, capacity);
      for waits := 0 to patience + 1
        invariant Since(start) && old(run) <= run && received == old(received)
        invariant receiver == if waits <= patience then RLap(true, false) else RWait
        invariant |empties| == |opens| == waits
        invariant At(run, empties, |old(run)|, NothingReadable(capacity)) && At(run, opens, |old(run)|, OpenAt(capacity))
        invariant old(schedule) == [] ==> schedule == [] && Undisturbed(Receiver, start, View())
        invariant old(schedule) == [] && waits > 0 ==> |received| >= P(start)
        invariant old(closed) ==> closed && waits == 0
      {
        ghost var before, entry := run, View();
        var sawClosed;
        ghost var empty, open;
        r, sawClosed, empty, open := RecvRoundOnce(false, waits < patience, start);
        SamePublishedFrom(start, entry);
        if sawClosed && r == None {
          var last, _, _, _ := RecvRoundOnce(true, false, start);
          r := last;
        }
        if r.Some? {
          KeepEmpties(before, run, empties, opens, |old(run)|, capacity);
          return;
        }
        Note(before, run, empties, empty, |old(run)|, NothingReadable(capacity));
        Note(before, run, opens, open, |old(run)|, OpenAt(capacity));
        empties, opens := empties + [empty], opens + [open];
      }
      r := None;
    }

    lemma SinceItself()
      requires Valid()
      ensures Since(View())
    {
    }

    /** `close`, up to the closing of the two wakers. */
    method CloseQueue()
      requires Valid()
      modifies this`closed, this`run
      ensures Since(old(View())) && old(run) <= run && closed
    {
      ghost var before := View();
      closed := true;
      Record(before, Close, before);
    }
  }
}
