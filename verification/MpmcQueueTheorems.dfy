/** What closing does to the whole queue, and that nothing of the ring is lost in it. */
module MpmcQueueTheorems {
  import opened Words
  import opened Options
  import opened MpmcQueue
  import opened MpmcQueueInvariant
  import M = MpmcRing
  import I = MpmcInvariant
  import R = MpmcTheorems
  import C = MpmcSelfClose
  import W = Waker
  import T = WakerTheorems
  import U = WakerUse

  // ---------------------------------------------------------------- the ring inside

  /** The ring's action in a step of the whole queue, if it takes one. */
  function RingActions<T>(q: Queue<T>, a: Action<T>): (r: seq<M.Action<T>>) {
    match a
    case Start(call) => if IsCall(call) && Has(q, call.me) && Free(q, call.me) then [call] else []
    case Step(me) =>
      if !Has(q, me) then [] else
      var phase, pc := q.phases[me], q.ring.threads[me];
      if phase.WaitsWriter? then if q.writers.threads[me].WaitDone? then [Onward(me, q.writers.threads[me].out)] else []
      else if phase.WaitsReader? then if q.readers.threads[me].WaitDone? then [Onward(me, q.readers.threads[me].out)] else []
      else if phase.InRing? && !M.AtRest(pc) && !pc.Undefined? && !pc.SWait? && !pc.RWait? then [M.Advance(me)]
      else []
    case _ => []
  }

  function RingRun<T>(q: Queue<T>, run: seq<Action<T>>): seq<M.Action<T>> {
    if run == [] then []
    else RingRun(q, run[..|run| - 1]) + RingActions(Exec(q, run[..|run| - 1]), run[|run| - 1])
  }

  lemma RingTakes<T>(q: Queue<T>, a: Action<T>)
    ensures Next(q, a).ring == M.Exec(q.ring, RingActions(q, a))
  {
    hide M.Next, W.Next, U.Enter;
    var acts := RingActions(q, a);
    if acts != [] {
      assert acts[..0] == [];
      assert M.Exec(q.ring, acts) == M.Next(M.Exec(q.ring, []), acts[0]);
    }
  }

  /** In any run of the whole queue its ring makes a run of the ring: whatever holds of those holds of it. */
  lemma {:induction false} RingRuns<T>(q: Queue<T>, run: seq<Action<T>>)
    ensures Exec(q, run).ring == M.Exec(q.ring, RingRun(q, run))
  {
    if run == [] {
      assert M.Exec(q.ring, []) == q.ring;
    } else {
      var pre, a := run[..|run| - 1], run[|run| - 1];
      hide Next, M.Next, RingActions;
      RingRuns(q, pre);
      RingTakes(Exec(q, pre), a);
      C.ExecConcat(q.ring, RingRun(q, pre), RingActions(Exec(q, pre), a));
    }
  }

  /** So the whole queue, waits, wake-ups and closes included, is the plain bounded queue its winning CASes replay, and every receive is in order. */
  lemma {:induction false} WholeQueueRefines<T>(cap: U32, threads: nat, run: seq<Action<T>>)
    requires cap <= MAX_CAPACITY
    ensures var r := Exec(Init<T>(cap, threads), run).ring;
      && R.InOrder(r) && I.Shape(r)
      && R.Replay([], R.Ops(M.Init(cap, threads), RingRun(Init(cap, threads), run)), if cap > 0 then cap else 1) == Some(R.Contents(r))
  {
    RingRuns(Init<T>(cap, threads), run);
    R.Fifo(cap, threads, RingRun(Init<T>(cap, threads), run));
    R.RunRefinesQueue(cap, threads, RingRun(Init<T>(cap, threads), run));
  }

  // ---------------------------------------------------------------- closing

  /** Asleep on either waker, or past the last look at the bit before sleeping. */
  ghost predicate Parked<T>(q: Queue<T>, o: nat) {
    Has(q, o) && (T.Parking(q.writers.threads[o]) || T.Parking(q.readers.threads[o]))
  }

  lemma NotParked<T>(q: Queue<T>, o: nat)
    requires Inv(q) && q.through
    ensures !Parked(q, o)
  {
    if o < |q.phases| {
      U.ClosedMeans(q.writers, o);
      U.ClosedMeans(q.readers, o);
    }
  }

  lemma Histories<T>(q: Queue<T>, a: Action<T>)
    ensures q.through ==> Next(q, a).through
    ensures q.returned ==> Next(q, a).returned
    ensures |Next(q, a).phases| == |q.phases|
  {
    hide M.Next, W.Next, U.Enter;
  }

  lemma {:induction false} ThroughStays<T>(q: Queue<T>, more: seq<Action<T>>)
    ensures q.through ==> Exec(q, more).through
    ensures q.returned ==> Exec(q, more).returned
    ensures |Exec(q, more).phases| == |q.phases|
  {
    if more != [] {
      hide Next;
      ThroughStays(q, more[..|more| - 1]);
      Histories(Exec(q, more[..|more| - 1]), more[|more| - 1]);
    }
  }

  lemma {:induction false} ExecAppend<T>(q: Queue<T>, run: seq<Action<T>>, more: seq<Action<T>>)
    ensures Exec(Exec(q, run), more) == Exec(q, run + more)
  {
    if more == [] {
      assert run + more == run;
    } else {
      hide Next;
      assert (run + more)[..|run + more| - 1] == run + more[..|more| - 1];
      ExecAppend(q, run, more[..|more| - 1]);
    }
  }

  /** A close that was not turned back by the bit leaves nobody parked on either waker, then or in any later state. */
  lemma {:induction false} NobodyParkedAfterClose<T>(cap: U32, threads: nat, run: seq<Action<T>>, more: seq<Action<T>>, o: nat)
    requires cap <= MAX_CAPACITY && Exec(Init<T>(cap, threads), run).through
    ensures !Parked(Exec(Exec(Init<T>(cap, threads), run), more), o)
  {
    ThroughStays(Exec(Init<T>(cap, threads), run), more);
    ExecAppend(Init<T>(cap, threads), run, more);
    RunKeepsInv(cap, threads, run + more);
    NotParked(Exec(Init<T>(cap, threads), run + more), o);
  }

  /** Nobody is between setting the bit, or being about to, and the end of its close. */
  ghost predicate NoCloser<T>(q: Queue<T>) {
    forall o :: 0 <= o < |q.phases| && Has(q, o) ==> !Closes(q.phases[o]) && !q.ring.threads[o].CCas?
  }

  /** When a close has returned, none is in flight and somebody is parked, then the queue had closed itself: every claim there is was made. */
  lemma {:induction false} LeftBehindMeans<T>(cap: U32, threads: nat, run: seq<Action<T>>, o: nat)
    requires cap <= MAX_CAPACITY
    requires var q := Exec(Init<T>(cap, threads), run); q.returned && NoCloser(q) && Parked(q, o)
    ensures var q := Exec(Init<T>(cap, threads), run); UsedUp(q.ring) && !q.through
  {
    var q := Exec(Init<T>(cap, threads), run);
    RunKeepsInv(cap, threads, run);
    if q.through {
      NotParked(q, o);
    }
    assert Sizes(q) && Flags(q);
    assert !Working(q);
  }

  lemma ExecSnoc<T>(q: Queue<T>, run: seq<Action<T>>, a: Action<T>)
    ensures Exec(q, run + [a]) == Next(Exec(q, run), a)
  {
    assert (run + [a])[..|run|] == run;
  }

  function Steps<T>(me: nat, n: nat): (run: seq<Action<T>>) {
    seq(n, _ => Step(me))
  }

  // ---------------------------------------------------------------- steps inside the ring

  /** A place whose step stays in the ring. */
  predicate Plain<T>(pc: M.Pc<T>) {
    !M.AtRest(pc) && !pc.Undefined? && !pc.SWait? && !pc.RWait? && !pc.SPublish? && !pc.RRelease? && !pc.CLoad? && !pc.CCas?
  }

  /** The wakers but for their flag, and the places of all threads in them. */
  ghost predicate OnlyFlagged<T>(q: Queue<T>, q': Queue<T>) {
    && q'.writers == q.writers.(queueClosed := M.IsClosed(q'.ring)) && q'.readers == q.readers.(queueClosed := M.IsClosed(q'.ring))
    && q'.phases == q.phases && q'.returned == q.returned && q'.through == q.through
  }

  lemma PlainStep<T>(q: Queue<T>, me: nat)
    requires Inv(q) && me < |q.phases| && q.phases[me].InRing? && Plain(q.ring.threads[me])
    ensures Next(q, Step(me)) == InnerStep(q, me) && Inv(Next(q, Step(me))) && OnlyFlagged(q, Next(q, Step(me)))
    ensures Next(q, Step(me)).ring == M.Next(q.ring, M.Advance(me)) && Next(q, Step(me)).watch == Watched(q, me)
  {
    StepKeepsInv(q, Step(me));
    InnerMoves(q, me);
    InnerRing(q, me);
    InnerWatch(q, me);
    hide M.Next, W.Next, Inv, M.IsClosed, InnerStep, U.Enter, I.Inv, U.WakerOk;
  }

  lemma InnerWatch<T>(q: Queue<T>, me: nat)
    requires Has(q, me)
    ensures InnerStep(q, me).watch == Watched(q, me)
  {
    hide M.Next, W.Next;
  }

  lemma {:induction false} PlainSteps<T>(q: Queue<T>, me: nat, n: nat)
    requires Inv(q) && me < |q.phases| && q.phases[me].InRing?
    requires forall k :: 0 <= k < n ==> me < |C.After(q.ring, k, me).threads| && Plain(C.After(q.ring, k, me).threads[me])
    ensures var q' := Exec(q, Steps(me, n)); Inv(q') && OnlyFlagged(q, q') && q'.ring == C.After(q.ring, n, me)
  {
    hide M.Next, W.Next, Inv, M.IsClosed, InnerStep, U.Enter, Next, Plain;
    if n == 0 {
      SameFlags(q);
    } else {
      PlainSteps(q, me, n - 1);
      var q1 := Exec(q, Steps(me, n - 1));
      assert Steps<T>(me, n) == Steps(me, n - 1) + [Step(me)];
      ExecSnoc(q, Steps(me, n - 1), Step(me));
      PlainStep(q1, me);
      C.AfterNext(q.ring, n, me);
    }
  }

  lemma SameFlags<T>(q: Queue<T>)
    requires Inv(q)
    ensures OnlyFlagged(q, q)
  {
    hide M.IsClosed;
  }
}
