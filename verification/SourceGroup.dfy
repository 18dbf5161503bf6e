/**
 The source group's own methods, over its mutable words and its array of calls. Before each access of a call to a shared
 word the other threads take any number of steps; what they will still do is the arbitrary finite `schedule`.
 */
module SourceGroup {
  import opened Words
  import opened Options
  import opened SourceGroups
  import opened SourceGroupTheorems
  import opened SourceGroupOutcomes
  import opened Moments
  import WG = WaitGroups

  lemma ExecSnoc<V>(s: Group<V>, run: seq<Action<V>>, a: Action<V>)
    ensures Exec(s, run + [a]) == Next(Exec(s, run), a)
  {
    assert (run + [a])[..|run|] == run;
  }

  lemma TicketsStep<V>(s: Group<V>, n: U32, a: Action<V>)
    requires Inv(s, n)
    ensures Next(s, a).tickets == s.tickets || (a.StartAdd? && Next(s, a).tickets == s.tickets + 1)
    ensures |Next(s, a).threads| == |s.threads| == |Next(s, a).wg.threads| && |Next(s, a).calls| == |s.calls|
  {
    hide WG.Next;
  }

  /** Some finished slot holds this key and this outcome. */
  ghost predicate Collected<V>(s: Group<V>, key: string, out: Outcome<V>) {
    exists k: nat :: k in s.finished && Filled(s, k) && s.asked[k] == key && s.outs[k] == out
  }

  /** How far a `done` is from its end. */
  function DoneRank(pc: WG.Pc): nat {
    if pc.DoneStore? then 2 else if pc.DoneWake? then 1 else 0
  }

  lemma DoneMoves(g: WG.Group, me: nat)
    requires me < |g.threads| && (g.threads[me].DoneStore? || g.threads[me].DoneWake?)
    ensures DoneRank(WG.Next(g, WG.Step(me)).threads[me]) < DoneRank(g.threads[me])
    ensures |WG.Next(g, WG.Step(me)).threads| == |g.threads|
  {
  }

  lemma TakesNext<V>(s: Group<V>, n: U32, me: nat)
    requires Inv(s, n) && me < |s.threads|
    ensures |s.asked| <= n == |s.calls| && s.index == s.tickets
    ensures if s.index < n then s.index as nat == |s.asked| else |s.asked| == n
  {
  }

  /** The slot a thread holds is in the array; one inside `done` stands where `done` stands. */
  lemma OwnsSlot<V>(s: Group<V>, n: U32, me: nat)
    requires Inv(s, n) && me < |s.threads| == |s.wg.threads|
    ensures Owns(s.threads[me]) ==> s.threads[me].idx < |s.calls|
    ensures s.threads[me].FinishDone? && !WG.AtRest(s.wg.threads[me]) ==> s.wg.threads[me].DoneStore? || s.wg.threads[me].DoneWake?
  {
    assert ThreadOk(s, me);
  }

  lemma WgSize<V>(s: Group<V>, a: WG.Action)
    ensures |WG.Next(s.wg, a).threads| == |s.wg.threads|
  {
    hide WG.Next;
  }

  /** The count was above zero. */
  ghost function Above<V>(s: Group<V>): seq<Action<V>> -> bool {
    (run: seq<Action<V>>) => Exec(s, run).wg.count > 0
  }

  lemma EntersWait<V>(s: Group<V>, n: U32, me: nat)
    requires Inv(s, n) && me < |s.threads| && AtRest(s.threads[me])
    ensures var g := WG.Next(s.wg, WG.Wait(me));
      |g.threads| == |s.wg.threads| && g.threads[me].Looking? && g.count == s.wg.count
  {
    assert ThreadOk(s, me);
  }

  /** The steps of a wait, and what the others may make of them. */
  lemma WaitSteps(g: WG.Group, me: nat)
    requires me < |g.threads|
    ensures var g' := WG.Next(g, WG.Step(me));
      && |g'.threads| == |g.threads|
      && (g.threads[me].Looking? ==> g'.threads[me] == if g.count > 0 then WG.Futex else WG.Reset)
      && (g.threads[me].Futex? ==> g'.threads[me].Looking? || g'.threads[me].Asleep?)
      && (g.threads[me].Reset? ==> g'.threads[me].Returned?)
    ensures g.threads[me].Asleep? ==> WG.Next(g, WG.Spurious(me)).threads[me].Looking?
  {
  }

  lemma FinishedIsFilled<V>(s: Group<V>, n: U32, k: nat)
    requires Inv(s, n) && k in s.finished
    ensures Filled(s, k)
  {
  }

  class SourceGroup<V> {
    const calls: array<Call<V>>
    var index: U32
    var wg: WG.Group

    // Where the threads stand, and the histories.
    var threads: seq<Pc<V>>
    var tickets: nat
    var asked: seq<string>
    var outs: map<nat, Outcome<V>>
    var finished: set<nat>
    var wgRun: seq<WG.Action>

    // What the other threads will still do.
    var schedule: seq<Action<V>>

    // All steps since the group was created.
    ghost var run: seq<Action<V>>

    function View(): Group<V>
      reads this, calls
    {
      Group(calls[..], index, wg, threads, tickets, asked, outs, finished, wgRun)
    }

    /** With what is still to come there are fewer than 2^32 calls of `add`. */
    ghost predicate Valid()
      reads this, calls
    {
      && calls.Length < TWO32 && |threads| == |wg.threads|
      && View() == Exec(Init(|threads|, calls.Length), run)
      && Inv(View(), calls.Length)
      && tickets + |schedule| < TWO32
    }

    constructor (n: U32, threadCount: nat, schedule: seq<Action<V>>)
      requires |schedule| < TWO32
      ensures Valid() && fresh(calls) && calls.Length == n && |threads| == threadCount && this.schedule == schedule
    {
      calls := new Call<V>[n](_ => Call("", None));
      index, wg, threads := 0, WG.Init(threadCount, n), seq(threadCount, _ => Idle);
      tickets, asked, outs, finished, wgRun := 0, [], map[], {}, [];
      this.schedule, run := schedule, [];
      new;
      InitInv<V>(threadCount, n);
      assert View() == Init(threadCount, n);
    }

    /** Ends an access that turned `before` into the present state by action a. */
    ghost method Record(before: Group<V>, a: Action<V>)
      requires calls.Length < TWO32 && |before.threads| == |threads| == |wg.threads|
      requires before == Exec(Init(|threads|, calls.Length), run) && View() == Next(before, a)
      requires Inv(before, calls.Length) && tickets + |schedule| < TWO32
      modifies this`run
      ensures Valid() && run == old(run) + [a]
    {
      hide Exec, Next, Inv;
      StepKeepsInv(before, calls.Length, a);
      ExecSnoc(Init(|threads|, calls.Length), run, a);
      run := run + [a];
    }

    method Apply(a: Action<V>)
      requires Valid() && (a.StartAdd? ==> tickets + |schedule| + 1 < TWO32)
      modifies this, calls
      ensures Valid() && old(run) <= run && View() == Next(old(View()), a) && schedule == old(schedule)
    {
      ghost var before := View();
      var g := Next(View(), a);
      TicketsStep(before, calls.Length, a);
      forall i | 0 <= i < calls.Length {
        calls[i] := g.calls[i];
      }
      index, wg, threads, tickets := g.index, g.wg, g.threads, g.tickets;
      asked, outs, finished, wgRun := g.asked, g.outs, g.finished, g.wgRun;
      hide Exec, Next, Inv;
      assert View() == g;
      Record(before, a);
    }

    /** The next scheduled step, if it is another thread's. */
    method OtherStep(me: nat)
      requires Valid() && me < |threads| && schedule != []
      modifies this, calls
      ensures Valid() && old(run) <= run && |threads| == |old(threads)| && |schedule| == |old(schedule)| - 1
      ensures KeepsMine(old(View()), View(), me) && WG.Kept(old(wg).threads[me], wg.threads[me])
      ensures tickets + |schedule| <= old(tickets + |schedule|)
    {
      hide Exec, Next, Inv, KeepsMine;
      var a := schedule[0];
      schedule := schedule[1..];
      KeepsSelf(View(), me);
      if a.me != me {
        OthersWait(View(), a, me);
        OthersKeepMine(View(), calls.Length, a, me);
        Apply(a);
      }
    }

    method Interfere(me: nat)
      requires Valid() && me < |threads|
      modifies this, calls
      ensures Valid() && old(run) <= run && |threads| == |old(threads)| && |schedule| <= |old(schedule)| && threads[me] == old(threads)[me]
      ensures old(schedule) == [] ==> wg == old(wg)
      ensures KeepsMine(old(View()), View(), me) && WG.Kept(old(wg).threads[me], wg.threads[me])
      ensures tickets + |schedule| <= old(tickets + |schedule|)
    {
      hide Exec, Next, Inv;
      ghost var entry := View();
      KeepsSelf(entry, me);
      var n: nat :| n <= |schedule|;
      while n > 0
        invariant n <= |schedule| <= |old(schedule)| && old(run) <= run
        invariant old(schedule) == [] ==> wg == old(wg)
        invariant Valid() && |threads| == |old(threads)|
        invariant KeepsMine(entry, View(), me) && WG.Kept(entry.wg.threads[me], wg.threads[me])
        invariant tickets + |schedule| <= old(tickets + |schedule|)
      {
        ghost var before := View();
        OtherStep(me);
        KeepsTrans(entry, before, View(), me);
        n := n - 1;
      }
    }

    // -------------------------------------------------------------- add

    /** `fetch_add` on the index, and the assertion. */
    method TakeSlot(me: nat, key: string) returns (ok: bool)
      requires Valid() && me < |threads| && AtRest(threads[me]) && tickets + |schedule| + 1 < TWO32
      modifies this`index, this`threads, this`tickets, this`asked, this`run
      ensures Valid() && |threads| == |old(threads)| && |asked| <= calls.Length
      ensures if ok then threads[me] == Calling(old(index), key) && old(index) as nat == |old(asked)| && asked == old(asked) + [key]
        else threads[me] == Refused && |asked| == calls.Length
    {
      ghost var before := View();
      TakesNext(before, calls.Length, me);
      ok := index < calls.Length;
      threads := threads[me := if ok then Calling(index, key) else Refused];
      asked := if ok then asked + [key] else asked;
      index, tickets := WrapAdd32(index, 1), tickets + 1;
      hide Exec, Inv;
      Record(before, StartAdd(me, key));
    }

    /** The user's function ends; its panic is caught. */
    method RunSource(me: nat, ending: Ending<V>)
      requires Valid() && me < |threads| && threads[me].Calling?
      modifies this`threads, this`run
      ensures Valid() && threads == old(threads)[me := WriteKey(old(threads)[me].idx, old(threads)[me].key, Recorded(ending))]
    {
      hide Exec, Inv;
      ghost var before := View();
      threads := threads[me := WriteKey(threads[me].idx, threads[me].key, Recorded(ending))];
      Record(before, Return(me, ending));
    }

    method StoreKey(me: nat)
      requires Valid() && me < |threads| && threads[me].WriteKey?
      modifies this`threads, this`run, calls
      ensures Valid() && threads == old(threads)[me := WriteResult(old(threads)[me].idx, old(threads)[me].out)]
    {
      ghost var before := View();
      OwnsSlot(before, calls.Length, me);
      hide Exec, Inv;
      var i := threads[me].idx;
      calls[i] := calls[i].(key := threads[me].key);
      threads := threads[me := WriteResult(i, threads[me].out)];
      Record(before, Step(me));
    }

    method StoreResult(me: nat)
      requires Valid() && me < |threads| && threads[me].WriteResult?
      modifies this`threads, this`outs, this`run, calls
      ensures Valid() && threads == old(threads)[me := CallDone(old(threads)[me].idx)]
      ensures outs == old(outs)[old(threads)[me].idx as nat := old(threads)[me].out]
    {
      ghost var before := View();
      OwnsSlot(before, calls.Length, me);
      hide Exec, Inv;
      var i := threads[me].idx;
      calls[i] := calls[i].(result := Some(threads[me].out));
      outs := outs[i as nat := threads[me].out];
      threads := threads[me := CallDone(i)];
      Record(before, Step(me));
    }

    /** The first step of `done`. */
    method CountDone(me: nat)
      requires Valid() && me < |threads| && threads[me].CallDone?
      modifies this`threads, this`wg, this`wgRun, this`finished, this`run
      ensures Valid() && threads == old(threads)[me := FinishDone] && old(wg.count) > 0
      ensures finished == old(finished) + {old(threads)[me].idx as nat}
    {
      ghost var before := View();
      DoneKeepsInv(before, calls.Length, me);
      WgSize(before, WG.Done(me));
      hide Exec, Inv, WG.Next;
      var i := threads[me].idx;
      wg, wgRun, finished := WG.Next(wg, WG.Done(me)), wgRun + [WG.Done(me)], finished + {i as nat};
      threads := threads[me := FinishDone];
      Record(before, Step(me));
    }

    method StepDone(me: nat)
      requires Valid() && me < |threads| && threads[me].FinishDone? && !WG.AtRest(wg.threads[me])
      modifies this`wg, this`wgRun, this`run
      ensures Valid() && |wg.threads| == |old(wg).threads| && DoneRank(wg.threads[me]) < DoneRank(old(wg).threads[me])
    {
      ghost var before := View();
      OwnsSlot(before, calls.Length, me);
      DoneMoves(wg, me);
      hide Exec, Inv, WG.Next;
      wg, wgRun := WG.Next(wg, WG.Step(me)), wgRun + [WG.Step(me)];
      Record(before, Step(me));
    }

    method LeaveAdd(me: nat)
      requires Valid() && me < |threads| && threads[me].FinishDone? && WG.AtRest(wg.threads[me])
      modifies this`threads, this`run
      ensures Valid() && threads == old(threads)[me := Added]
    {
      hide Exec, Inv;
      ghost var before := View();
      threads := threads[me := Added];
      Record(before, Step(me));
    }

    /** The rest of `done`. */
    method Finish(me: nat, ghost k: nat)
      requires Valid() && me < |threads| && threads[me].FinishDone? && k in finished && k < |asked| && k in outs
      modifies this, calls
      ensures Valid() && |threads| == |old(threads)| && threads[me] == Added
      ensures k in finished && k < |asked| && asked[k] == old(asked)[k] && k in outs && outs[k] == old(outs)[k]
    {
      hide Exec, Next, Inv;
      ghost var entry := View();
      KeepsSelf(entry, me);
      assert Settled(entry, me, k);
      while !WG.AtRest(wg.threads[me])
        invariant Valid() && |threads| == |old(threads)| && KeepsMine(entry, View(), me)
        decreases DoneRank(wg.threads[me])
      {
        ghost var before := View();
        Interfere(me);
        KeepsTrans(entry, before, View(), me);
        OwnsSlot(View(), calls.Length, me);
        StepDone(me);
      }
      LeaveAdd(me);
    }

    /** The user's function runs, and its key and outcome go into slot k. */
    method Fill(me: nat, ending: Ending<V>, ghost k: nat)
      requires Valid() && me < |threads| && threads[me].Calling? && threads[me].idx == k < |asked|
      modifies this, calls
      ensures Valid() && |threads| == |old(threads)| && threads[me].CallDone? && threads[me].idx == k
      ensures k < |asked| && asked[k] == old(asked)[k] && k in outs && outs[k] == Recorded(ending)
    {
      hide Exec, Next, Inv, Recorded;
      ghost var s1 := View();
      Interfere(me);
      assert Settled(s1, me, k);
      RunSource(me, ending);
      ghost var s2 := View();
      Interfere(me);
      assert Settled(s2, me, k);
      StoreKey(me);
      ghost var s3 := View();
      Interfere(me);
      assert Settled(s3, me, k);
      StoreResult(me);
    }

    /**
     `add`, with the ending of the user's function. It is refused only when every slot is taken; otherwise, when it
     returns, some slot counted done holds its key and the outcome, and the assertion in `done` held.
     */
    method Add(me: nat, key: string, ending: Ending<V>) returns (ok: bool)
      requires Valid() && me < |threads| && AtRest(threads[me]) && tickets + |schedule| + 1 < TWO32
      modifies this, calls
      ensures Valid() && |threads| == |old(threads)|
      ensures ok ==> threads[me] == Added
      ensures ok && ending.Returned? ==> Collected(View(), key, Data(ending.value))
      ensures ok && ending.Failed? ==> Collected(View(), key, Error("error: " + ending.message))
      ensures ok && ending.Panics? ==> Collected(View(), key, Error("function of user panic"))
      ensures !ok ==> threads[me] == Refused && |asked| == calls.Length
    {
      hide Exec, Next, Inv, Recorded;
      Interfere(me);
      ok := TakeSlot(me, key);
      if !ok {
        return;
      }
      ghost var k := |asked| - 1;
      Fill(me, ending, k);
      ghost var s1 := View();
      Interfere(me);
      assert Settled(s1, me, k);
      CountDone(me);
      Finish(me, k);
      FinishedIsFilled(View(), calls.Length, k);
      assert Collected(View(), key, Recorded(ending));
      RecordedIs(ending);
    }

    // -------------------------------------------------------------- sum and get

    /** Enters the wait. */
    method StartSumming(me: nat)
      requires Valid() && me < |threads| && AtRest(threads[me])
      modifies this`threads, this`wg, this`wgRun, this`run
      ensures Valid() && old(run) <= run && threads == old(threads)[me := Summing]
      ensures wg.threads[me].Looking? && wg.count == old(wg).count
    {
      ghost var before := View();
      EntersWait(before, calls.Length, me);
      hide Exec, Inv, WG.Next;
      wg, wgRun, threads := WG.Next(wg, WG.Wait(me)), wgRun + [WG.Wait(me)], threads[me := Summing];
      Record(before, StartSum(me));
    }

    /** One access of the wait. */
    method StepWait(me: nat)
      requires Valid() && me < |threads| && threads[me].Summing? && !wg.threads[me].Returned?
      modifies this`wg, this`wgRun, this`run
      ensures Valid() && old(run) <= run && run != old(run) && wg == WG.Next(old(wg), WG.Step(me))
    {
      ghost var before := View();
      WgSize(before, WG.Step(me));
      hide Exec, Inv, WG.Next;
      wg, wgRun := WG.Next(wg, WG.Step(me)), wgRun + [WG.Step(me)];
      Record(before, Step(me));
    }

    /** The futex wait returns for no reason. */
    method WakeUp(me: nat)
      requires Valid() && me < |threads| && threads[me].Summing? && wg.threads[me].Asleep?
      modifies this`wg, this`wgRun, this`run
      ensures Valid() && old(run) <= run && wg.threads[me].Looking?
    {
      ghost var before := View();
      WgSize(before, WG.Spurious(me));
      WaitSteps(wg, me);
      hide Exec, Inv, WG.Next;
      wg, wgRun := WG.Next(wg, WG.Spurious(me)), wgRun + [WG.Spurious(me)];
      Record(before, Spurious(me));
    }

    /** The wait is over. */
    method LeaveSum(me: nat)
      requires Valid() && me < |threads| && threads[me].Summing? && wg.threads[me].Returned?
      modifies this`threads, this`run
      ensures Valid() && old(run) <= run && threads == old(threads)[me := Summed]
    {
      hide Exec, Inv;
      ghost var before := View();
      threads := threads[me := Summed];
      Record(before, Step(me));
    }

    /** A round of the wait: the look at the count, step `at` of the run, and the futex, unless the count was zero. */
    method SumRound(me: nat) returns (ended: bool, ghost at: nat)
      requires Valid() && me < |threads| && threads[me].Summing? && wg.threads[me].Looking?
      modifies this, calls
      ensures Valid() && old(run) <= run && |threads| == |old(threads)| && |old(run)| <= at < |run|
      ensures threads[me] == if ended then Summed else Summing
      ensures !ended ==> wg.threads[me].Looking? || wg.threads[me].Asleep?
      ensures !ended ==> Above(Init(|threads|, calls.Length))(run[..at])
      ensures old(schedule) == [] && old(wg).count == 0 ==> ended
    {
      hide Exec, Next, Inv, WG.Next, KeepsMine;
      Interfere(me);
      at := |run|;
      ghost var upTo := run;
      WaitSteps(wg, me);
      StepWait(me);
      Interfere(me);
      WaitSteps(wg, me);
      StepWait(me);
      Interfere(me);
      ended := wg.threads[me].Returned?;
      if ended {
        LeaveSum(me);
      } else {
        var spurious: bool := *;
        if spurious && wg.threads[me].Asleep? {
          WakeUp(me);
        }
      }
      assert run[..at] == upTo;
    }

    /**
     `sum`, for at most `patience` rounds of its wait. When it returns, every slot is filled. Without a return it is asleep,
     or has made `patience` rounds, at each of which the count was above zero.
     */
    method Sum(me: nat, patience: nat) returns (returned: bool, ghost marks: seq<nat>)
      requires Valid() && me < |threads| && AtRest(threads[me])
      modifies this, calls
      ensures Valid() && |threads| == |old(threads)| && old(run) <= run
      ensures returned ==> threads[me] == Summed && |asked| == calls.Length && forall k :: 0 <= k < calls.Length ==> Filled(View(), k)
      ensures !returned ==> threads[me] == Summing && At(run, marks, |old(run)|, Above(Init(|threads|, calls.Length)))
      ensures !returned ==> if wg.threads[me].Asleep? then marks != [] else wg.threads[me].Looking? && |marks| == patience
      ensures old(schedule) == [] && old(wg).count == 0 && patience > 0 ==> returned
    {
      hide Exec, Next, Inv, Above, WG.Next;
      returned, marks := false, [];
      StartSumming(me);
      for n := 0 to patience
        invariant Valid() && |threads| == |old(threads)| && old(run) <= run && threads[me] == Summing && wg.threads[me].Looking?
        invariant |marks| == n && At(run, marks, |old(run)|, Above(Init(|threads|, calls.Length)))
        invariant forall i :: 0 <= i < |marks| ==> marks[i] < |run|
        invariant old(schedule) == [] && old(wg).count == 0 ==> n == 0 && schedule == [] && wg.count == 0
      {
        ghost var before := run;
        ghost var at;
        returned, at := SumRound(me);
        if returned {
          SummedIsFilled(View(), calls.Length, me);
          return;
        }
        Later(before, run, marks, |old(run)|, Above(Init(|threads|, calls.Length)));
        OneMore(run, marks, at, |old(run)|, Above(Init(|threads|, calls.Length)));
        marks := marks + [at];
        if wg.threads[me].Asleep? {
          return;
        }
      }
    }

    /** `get` */
    method Get(key: string) returns (out: Option<Outcome<V>>)
      ensures out == Got(calls[..], key)
    {
      for i := 0 to calls.Length
        invariant forall k :: 0 <= k < i ==> calls[k].key != key
      {
        if calls[i].key == key {
          FirstIs(calls[..], key, i);
          return calls[i].result;
        }
      }
      FirstIs(calls[..], key, calls.Length);
      return Some(Error("key doesn't exist"));
    }
  }

  lemma {:induction false} FirstIs<V>(calls: seq<Call<V>>, key: string, i: nat)
    requires i <= |calls| && (i < |calls| ==> calls[i].key == key)
    requires forall k :: 0 <= k < i ==> calls[k].key != key
    ensures FirstWith(calls, key) == i
  {
    if i > 0 {
      FirstIs(calls[1..], key, i - 1);
    }
  }
}
