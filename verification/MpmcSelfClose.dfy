/** An MPMC ring that nobody closes does close itself: a run of single sends and receives gets there. */
module MpmcSelfClose {
  import opened Words
  import opened Options
  import opened Elem
  import opened Tickets
  import opened MpmcRing
  import opened MpmcInvariant
  import opened MpmcSteps
  import opened MpmcTheorems

  /** No thread is in a claim window. */
  ghost predicate Calm<T>(s: Ring<T>) {
    Inv(s) && |s.threads| > 0 && forall o :: 0 <= o < |s.threads| ==> !InWindow(s.threads[o])
  }

  lemma {:induction false} ExecConcat<T>(s: Ring<T>, run: seq<Action<T>>, more: seq<Action<T>>)
    ensures Exec(s, run + more) == Exec(Exec(s, run), more)
  {
    if more == [] {
      assert run + more == run;
    } else {
      assert (run + more)[..|run + more| - 1] == run + more[..|more| - 1];
      ExecConcat(s, run, more[..|more| - 1]);
    }
  }

  predicate NobodyCloses<T>(run: seq<Action<T>>) {
    forall k :: 0 <= k < |run| ==> !run[k].StartClose?
  }

  /** n steps of one thread. */
  function After<T>(s: Ring<T>, n: nat, me: nat := 0): Ring<T> {
    if n == 0 then s else Next(After(s, n - 1, me), Advance(me))
  }

  /** A call of thread 0 that takes n steps, with nobody else moving. */
  function Call<T>(start: Action<T>, n: nat): (run: seq<Action<T>>) {
    [start] + seq(n, _ => Advance(0))
  }

  lemma {:induction false} ExecCall<T>(s: Ring<T>, start: Action<T>, n: nat)
    ensures Exec(s, Call(start, n)) == After(Next(s, start), n)
  {
    hide Next;
    if n == 0 {
      ExecSnoc(s, [], start);
      assert Call(start, 0) == [] + [start];
    } else {
      ExecCall(s, start, n - 1);
      ExecSnoc(s, Call(start, n - 1), Advance(0));
      assert Call(start, n) == Call(start, n - 1) + [Advance(0)];
    }
  }

  // ---------------------------------------------------------------- one send

  ghost predicate Room<T>(s: Ring<T>) {
    |s.sent| < |s.taken| + |s.slots|
  }

  lemma CalmNotHeld<T>(s: Ring<T>)
    requires Calm(s)
    ensures Room(s) ==> |Contents(s)| != |s.slots| && !Unreleased(s, |s.sent| - |s.slots|)
    ensures |s.taken| < |s.sent| ==> Contents(s) != [] && !Unpublished(s, |s.taken|)
  {
  }

  /** With nobody in a window the slot at the tail is ready when there is room. */
  lemma TailReady<T>(s: Ring<T>, msg: T)
    requires Calm(s) && Room(s) && s.threads[0] == SLap(msg, false, Snapshot(s.writeMeta, |s.sent|))
    ensures Next(s, Advance(0)) == Goto(s, 0, SCas(msg, false, Snapshot(s.writeMeta, |s.sent|)))
  {
    LessOnlyWhenStale(s, 0);
    LapStep(s, 0);
    var s' := Next(s, Advance(0));
    if s'.threads[0].SRelap? {
      StepKeepsInv(s, Advance(0));
      CalmNotHeld(s');
      hide Inv, Next, Contents, Unreleased;
      LapMeaning(s', 0);
      assert false;
    }
  }

  /** The same ring with its thread 0 elsewhere, outside the windows. */
  lemma MovesCalmly<T>(s: Ring<T>, a: Action<T>, pc: Pc<T>)
    requires Calm(s) && !InWindow(pc) && Next(s, a) == Goto(s, 0, pc)
    ensures Calm(Next(s, a))
  {
    StepKeepsInv(s, a);
    hide Inv, Next;
  }

  /** Thread 0 between calls. */
  ghost predicate Ready<T>(s: Ring<T>) {
    Calm(s) && AtRest(s.threads[0])
  }

  /** From the call to the CAS. */
  lemma SendToCas<T>(s: Ring<T>, msg: T)
    requires Ready(s) && Room(s) && !IsClosed(s)
    ensures var s1 := Next(s, StartSend(0, msg, false));
      && s1 == Goto(s, 0, SLoad(msg, false)) && Calm(s1)
      && After(s1, 1) == Goto(s1, 0, SLap(msg, false, Snapshot(s.writeMeta, |s.sent|)))
      && After(s1, 2) == Goto(s, 0, SCas(msg, false, Snapshot(s.writeMeta, |s.sent|))) && Calm(After(s1, 2))
  {
    var a := Advance(0);
    var s1 := Next(s, StartSend(0, msg, false));
    assert s1 == Goto(s, 0, SLoad(msg, false));
    MovesCalmly(s, StartSend(0, msg, false), SLoad(msg, false));
    var s2 := Next(s1, a);
    assert s2 == Goto(s1, 0, SLap(msg, false, Snapshot(s.writeMeta, |s.sent|)));
    MovesCalmly(s1, a, s2.threads[0]);
    hide Next, Inv;
    TailReady(s2, msg);
    MovesCalmly(s2, a, SCas(msg, false, Snapshot(s.writeMeta, |s.sent|)));
    AfterIs(s1);
  }

  lemma AfterIs<T>(s: Ring<T>)
    ensures var a := Advance(0);
      After(s, 0) == s && After(s, 1) == Next(s, a) && After(s, 2) == Next(Next(s, a), a) && After(s, 3) == Next(Next(Next(s, a), a), a)
  {
    hide Next;
    var a := Action<T>.Advance(0);
    assert After(s, 1) == Next(After(s, 0), a);
    assert After(s, 2) == Next(After(s, 1), a);
    assert After(s, 3) == Next(After(s, 2), a);
  }

  lemma AfterNext<T>(s: Ring<T>, n: nat, me: nat := 0)
    requires n > 0
    ensures After(s, n, me) == Next(After(s, n - 1, me), Advance(me))
  {
  }

  lemma {:induction false} AfterAfter<T>(s: Ring<T>, m: nat, n: nat)
    ensures After(After(s, m), n) == After(s, m + n)
  {
    hide Next, After;
    if n > 0 {
      AfterAfter(s, m, n - 1);
      AfterNext(After(s, m), n);
      AfterNext(s, m + n);
    } else {
      AfterNone(After(s, m));
    }
  }

  lemma AfterNone<T>(s: Ring<T>)
    ensures After(s, 0) == s
  {
    hide Next;
  }

  /** From a CAS that wins to the end. */
  lemma CasToSent<T>(s: Ring<T>)
    requires Calm(s) && s.threads[0].SCas? && s.threads[0].snap.meta == s.writeMeta
    ensures |After(s, 1).threads| == |After(s, 2).threads| == |s.threads|
    ensures After(s, 1).threads[0].SWrite? && After(s, 2).threads[0].SPublish?
    ensures var s' := After(s, 3);
      Ready(s') && |s'.sent| == |s.sent| + 1 && |s'.taken| == |s.taken| && |s'.slots| == |s.slots| && |s'.threads| == |s.threads|
  {
    var a := Advance(0);
    SendCasStep(s, 0);
    var s1 := Next(s, a);
    StepKeepsInv(s, a);
    SendWindowFacts(s1, 0);
    var s2 := Next(s1, a);
    StepKeepsInv(s1, a);
    WriteStep(s1);
    SendWindowFacts(s2, 0);
    StepKeepsInv(s2, a);
    PublishStep(s2);
    AfterIs(s);
  }

  lemma WriteStep<T>(s: Ring<T>)
    requires |s.threads| > 0 && s.threads[0].SWrite? && s.threads[0].claim.idx < |s.slots|
    ensures var s' := Next(s, Advance(0));
      s' == s.(slots := s'.slots, threads := s.threads[0 := SPublish(s.threads[0].claim)]) && |s'.slots| == |s.slots|
  {
  }

  lemma PublishStep<T>(s: Ring<T>)
    requires |s.threads| > 0 && s.threads[0].SPublish? && s.threads[0].claim.idx < |s.slots|
    ensures var s' := Next(s, Advance(0));
      s' == s.(slots := s'.slots, threads := s.threads[0 := SDone(Sent(s.threads[0].claim.ticket))]) && |s'.slots| == |s.slots|
  {
  }

  /** Where a send stands before each of its five steps. */
  ghost predicate SendPlaces<T>(s: Ring<T>) {
    && (forall k :: 0 <= k <= 5 ==> |After(s, k).threads| == |s.threads| > 0)
    && After(s, 0).threads[0].SLoad? && After(s, 1).threads[0].SLap? && After(s, 2).threads[0].SCas?
    && After(s, 3).threads[0].SWrite? && After(s, 4).threads[0].SPublish?
  }

  lemma SendWalk<T>(s: Ring<T>, msg: T)
    requires Ready(s) && Room(s) && !IsClosed(s)
    ensures var s1 := Next(s, StartSend(0, msg, false)); SendPlaces(s1) && After(s1, 2).writeMeta == s.writeMeta
    ensures var s' := After(Next(s, StartSend(0, msg, false)), 5);
      Ready(s') && |s'.sent| == |s.sent| + 1 && |s'.taken| == |s.taken| && |s'.slots| == |s.slots|
  {
    SendToCas(s, msg);
    var s1 := Next(s, StartSend(0, msg, false));
    hide Next, Calm, Ready;
    AfterAfter(s1, 2, 1);
    AfterAfter(s1, 2, 2);
    AfterAfter(s1, 2, 3);
    CasToSent(After(s1, 2));
    AfterIs(s1);
    forall k | 0 <= k <= 5 ensures |After(s1, k).threads| == |s1.threads| {
      AfterSize(s1, k);
    }
  }

  lemma NextSize<T>(s: Ring<T>, a: Action<T>)
    ensures |Next(s, a).threads| == |s.threads|
  {
    hide Next;
    StepEffect(s, a);
  }

  lemma {:induction false} AfterSize<T>(s: Ring<T>, n: nat)
    ensures |After(s, n).threads| == |s.threads|
  {
    if n > 0 {
      AfterSize(s, n - 1);
      AfterNext(s, n);
      NextSize(After(s, n - 1), Advance(0));
      hide Next, After;
    }
  }

  lemma SendOne<T>(s: Ring<T>, msg: T) returns (run: seq<Action<T>>)
    requires Ready(s) && Room(s) && !IsClosed(s)
    ensures NobodyCloses(run)
    ensures var s' := Exec(s, run);
      Ready(s') && |s'.sent| == |s.sent| + 1 && |s'.taken| == |s.taken| && |s'.slots| == |s.slots|
  {
    hide Next, Inv, Ready, Room, SendPlaces;
    run := Call(StartSend(0, msg, false), 5);
    SendWalk(s, msg);
    ExecCall(s, StartSend(0, msg, false), 5);
  }

  // ---------------------------------------------------------------- one receive

  lemma HeadReady<T>(s: Ring<T>)
    requires Calm(s) && |s.taken| < |s.sent| && s.threads[0] == RLap(false, false, Snapshot(s.readMeta, |s.taken|))
    ensures Next(s, Advance(0)) == Goto(s, 0, RCas(false, false, Snapshot(s.readMeta, |s.taken|)))
  {
    LessOnlyWhenStale(s, 0);
    LapStep(s, 0);
    var s' := Next(s, Advance(0));
    if s'.threads[0].RRelap? {
      StepKeepsInv(s, Advance(0));
      CalmNotHeld(s');
      hide Inv, Next, Contents, Unpublished;
      LapMeaning(s', 0);
      assert false;
    }
  }

  lemma RecvToCas<T>(s: Ring<T>)
    requires Ready(s) && |s.taken| < |s.sent|
    ensures var s1 := Next(s, StartRecv(0, false));
      && s1 == Goto(s, 0, RLoad(false, false)) && Calm(s1)
      && After(s1, 1) == Goto(s1, 0, RLap(false, false, Snapshot(s.readMeta, |s.taken|)))
      && After(s1, 2) == Goto(s, 0, RCas(false, false, Snapshot(s.readMeta, |s.taken|))) && Calm(After(s1, 2))
  {
    var a := Advance(0);
    var s1 := Next(s, StartRecv(0, false));
    assert s1 == Goto(s, 0, RLoad(false, false));
    MovesCalmly(s, StartRecv(0, false), RLoad(false, false));
    var s2 := Next(s1, a);
    assert s2 == Goto(s1, 0, RLap(false, false, Snapshot(s.readMeta, |s.taken|)));
    MovesCalmly(s1, a, s2.threads[0]);
    hide Next, Inv;
    HeadReady(s2);
    MovesCalmly(s2, a, RCas(false, false, Snapshot(s.readMeta, |s.taken|)));
    AfterIs(s1);
  }

  lemma CasToReceived<T>(s: Ring<T>)
    requires Calm(s) && s.threads[0].RCas? && s.threads[0].snap.meta == s.readMeta
    ensures |After(s, 1).threads| == |After(s, 2).threads| == |s.threads|
    ensures After(s, 1).threads[0].RRead? && After(s, 2).threads[0].RRelease?
    ensures var s' := After(s, 3);
      Ready(s') && |s'.sent| == |s.sent| && |s'.taken| == |s.taken| + 1 && |s'.slots| == |s.slots| && |s'.threads| == |s.threads|
  {
    var a := Advance(0);
    RecvCasStep(s, 0);
    var s1 := Next(s, a);
    StepKeepsInv(s, a);
    RecvWindowFacts(s1, 0);
    var s2 := Next(s1, a);
    StepKeepsInv(s1, a);
    ReadStep(s1);
    RecvWindowFacts(s2, 0);
    StepKeepsInv(s2, a);
    ReleaseStep(s2);
    AfterIs(s);
  }

  lemma ReadStep<T>(s: Ring<T>)
    requires |s.threads| > 0 && s.threads[0].RRead? && s.threads[0].claim.idx < |s.slots| && s.threads[0].claim.ticket < |s.taken|
    requires s.slots[s.threads[0].claim.idx].msg.Some?
    ensures var s' := Next(s, Advance(0));
      && s' == s.(slots := s'.slots, taken := s'.taken, threads := s.threads[0 := RRelease(s.threads[0].claim, s.slots[s.threads[0].claim.idx].msg.value)])
      && |s'.slots| == |s.slots| && |s'.taken| == |s.taken|
  {
  }

  lemma ReleaseStep<T>(s: Ring<T>)
    requires |s.threads| > 0 && s.threads[0].RRelease? && s.threads[0].claim.idx < |s.slots|
    ensures var s' := Next(s, Advance(0));
      s' == s.(slots := s'.slots, threads := s.threads[0 := RDone(Received(s.threads[0].claim.ticket, s.threads[0].msg))]) && |s'.slots| == |s.slots|
  {
  }

  ghost predicate RecvPlaces<T>(s: Ring<T>) {
    && (forall k :: 0 <= k <= 5 ==> |After(s, k).threads| == |s.threads| > 0)
    && After(s, 0).threads[0].RLoad? && After(s, 1).threads[0].RLap? && After(s, 2).threads[0].RCas?
    && After(s, 3).threads[0].RRead? && After(s, 4).threads[0].RRelease?
  }

  lemma RecvWalk<T>(s: Ring<T>)
    requires Ready(s) && |s.taken| < |s.sent|
    ensures RecvPlaces(Next(s, StartRecv(0, false)))
    ensures var s' := After(Next(s, StartRecv(0, false)), 5);
      Ready(s') && |s'.sent| == |s.sent| && |s'.taken| == |s.taken| + 1 && |s'.slots| == |s.slots|
  {
    RecvToCas(s);
    var s1 := Next(s, StartRecv(0, false));
    hide Next, Calm, Ready;
    AfterAfter(s1, 2, 1);
    AfterAfter(s1, 2, 2);
    AfterAfter(s1, 2, 3);
    CasToReceived(After(s1, 2));
    AfterIs(s1);
    forall k | 0 <= k <= 5 ensures |After(s1, k).threads| == |s1.threads| {
      AfterSize(s1, k);
    }
  }

  lemma RecvOne<T>(s: Ring<T>) returns (run: seq<Action<T>>)
    requires Ready(s) && |s.taken| < |s.sent|
    ensures NobodyCloses(run)
    ensures var s' := Exec(s, run);
      Ready(s') && |s'.sent| == |s.sent| && |s'.taken| == |s.taken| + 1 && |s'.slots| == |s.slots|
  {
    hide Next, Inv, Ready, RecvPlaces;
    run := Call(StartRecv(0, false), 5);
    RecvWalk(s);
    ExecCall(s, StartRecv(0, false), 5);
  }

  // ---------------------------------------------------------------- the whole run

  /** k messages sent and received one at a time, from the start. */
  lemma {:induction false} RoundTrips<T>(cap: U32, threads: nat, msg: T, k: nat) returns (run: seq<Action<T>>)
    requires cap <= MAX_CAPACITY && threads > 0 && k <= MAX_ROUNDS * (if cap > 0 then cap else 1)
    ensures NobodyCloses(run)
    ensures var s := Exec(Init(cap, threads), run);
      Ready(s) && |s.sent| == |s.taken| == k && |s.slots| == if cap > 0 then cap else 1
    decreases k
  {
    var init := Init<T>(cap, threads);
    run := [];
    if k == 0 {
      InitInv<T>(cap, threads);
    } else {
      var pre := RoundTrips(cap, threads, msg, k - 1);
      var s1 := Exec(init, pre);
      SelfCloseExact(cap, threads, pre);
      hide Next, Inv, Ready, NoCloser, IsClosed;
      var send := SendOne(s1, msg);
      var recv := RecvOne(Exec(s1, send));
      ExecConcat(s1, send, recv);
      run := pre + (send + recv);
      ExecConcat(init, pre, send + recv);
    }
  }

  /** A queue that nobody ever closes gets closed: at every capacity, with one thread or more. */
  lemma {:induction false} SelfCloseReachable<T>(cap: U32, threads: nat, msg: T) returns (run: seq<Action<T>>)
    requires cap <= MAX_CAPACITY && threads > 0
    ensures NobodyCloses(run)
    ensures var s := Exec(Init(cap, threads), run);
      IsClosed(s) && |s.sent| == |s.taken| == MAX_ROUNDS * |s.slots|
  {
    run := RoundTrips(cap, threads, msg, MAX_ROUNDS * (if cap > 0 then cap else 1));
    SelfCloseExact(cap, threads, run);
  }
}
