/**
 The wait group's own methods, over its mutable words. Before each access of a call to a shared word the other threads
 take any number of steps; what they will still do is the arbitrary finite `schedule`.
 */
module WaitGroup {
  import opened Words
  import opened WaitGroups
  import opened Moments

  lemma {:induction false} LeavesThroughZero(s: Group, run: seq<Action>, more: seq<Action>, w: nat)
    requires run <= more && w < |s.threads| && Exec(s, run).threads[w].Looking? && Exec(s, more).threads[w].Returned?
    ensures exists k :: |run| <= k <= |more| && Exec(s, more[..k]).count == 0
  {
    hide Next, Exec, Waits;
    var rest := more[|run|..];
    assert more == run + rest;
    ExecAppend(s, run, rest);
    LookingWaits(Exec(s, run).threads[w], Exec(s, more).threads[w]);
    ReturnsAfterZero(Exec(s, run), rest, w);
    var k :| 0 <= k < |rest| && Exec(Exec(s, run), rest[..k]).count == 0;
    ExecAppend(s, run, rest[..k]);
    assert run + rest[..k] == more[..|run| + k];
  }

  /** The count was above zero. */
  ghost function Above(s: Group): seq<Action> -> bool {
    (run: seq<Action>) => Exec(s, run).count > 0
  }

  class WaitGroup {
    var count: U32
    var flag: bool
    const initial: U32

    // Where the threads stand, and the histories.
    var threads: seq<Pc>
    var wrapped: bool
    var stray: bool

    // What the other threads will still do.
    var schedule: seq<Action>

    // All steps since the group was created.
    ghost var run: seq<Action>

    function View(): Group
      reads this
    {
      Group(count, flag, threads, wrapped, stray)
    }

    ghost predicate Valid()
      reads this
    {
      View() == Exec(Init(|threads|, initial), run)
    }

    /** The group has run on. */
    ghost predicate Since(start: seq<Action>, n: nat)
      reads this
    {
      Valid() && start <= run && |threads| == n
    }

    constructor (n: U32, threadCount: nat, schedule: seq<Action>)
      ensures Valid() && count == n && !flag && |threads| == threadCount && this.schedule == schedule
    {
      count, flag, initial, threads := n, false, n, seq(threadCount, _ => Idle);
      wrapped, stray := false, false;
      this.schedule, run := schedule, [];
    }

    /** Ends an access that turned `before` into the present state by action a. */
    ghost method Record(before: Group, a: Action)
      requires before == Exec(Init(|threads|, initial), run) && View() == Next(before, a)
      modifies this`run
      ensures Valid() && run == old(run) + [a]
    {
      ExecSnoc(Init(|threads|, initial), run, a);
      run := run + [a];
    }

    method Apply(a: Action)
      requires Valid()
      modifies this
      ensures Since(old(run), |old(threads)|) && View() == Next(old(View()), a) && schedule == old(schedule)
    {
      ghost var before := View();
      var g := Next(View(), a);
      count, flag, threads, wrapped, stray := g.count, g.flag, g.threads, g.wrapped, g.stray;
      Record(before, a);
    }

    /** The other threads take any number of scheduled steps; they may wake this one. */
    method Interfere(me: nat)
      requires Valid() && me < |threads|
      modifies this
      ensures Since(old(run), |old(threads)|) && Kept(old(threads)[me], threads[me]) && |schedule| <= old(|schedule|)
      ensures old(schedule) == [] ==> View() == old(View())
    {
      hide Next, Exec;
      var n: nat :| n <= |schedule|;
      while n > 0
        invariant n <= |schedule| <= old(|schedule|)
        invariant old(schedule) == [] ==> View() == old(View())
        invariant Since(old(run), |old(threads)|) && Kept(old(threads)[me], threads[me])
      {
        var a := schedule[0];
        schedule := schedule[1..];
        if a.me != me {
          OthersKept(View(), a);
          Apply(a);
        }
        n := n - 1;
      }
    }

    /** `add`: one access, which adds n in 32 bits to what it finds. */
    method Add(me: nat, n: U32)
      requires Valid() && me < |threads| && AtRest(threads[me])
      modifies this
      ensures Since(old(run), |old(threads)|) && threads[me] == old(threads)[me]
      ensures run != [] && run[|run| - 1] == WaitGroups.Add(me, n)
      ensures
        var before := Exec(Init(|threads|, initial), run[..|run| - 1]);
        count == (before.count + n) % TWO32 && flag == before.flag && threads == before.threads
    {
      hide Exec;
      Interfere(me);
      ghost var before := View();
      wrapped := wrapped || count + n >= TWO32;
      count := WrapAdd32(count, n);
      Record(before, WaitGroups.Add(me, n));
    }

    /** `fetch_sub`; `was` is what it returned. */
    method FetchSub(me: nat) returns (was: U32)
      requires Valid() && me < |threads| && AtRest(threads[me])
      modifies this
      ensures Valid() && |threads| == |old(threads)| && run == old(run) + [WaitGroups.Done(me)]
      ensures threads[me] == if was == 0 then Panicked else if was == 1 then DoneStore else Idle
      ensures was == old(count) && (was == 0 ==> stray)
    {
      hide Exec;
      ghost var before := View();
      was := count;
      assert Next(before, WaitGroups.Done(me)) == Sub(before, me);
      threads := threads[me := if was == 0 then Panicked else if was == 1 then DoneStore else Idle];
      stray := stray || was == 0;
      count := (count - 1) % TWO32;
      Record(before, WaitGroups.Done(me));
    }

    method StoreFlag(me: nat)
      requires Valid() && me < |threads| && (threads[me].DoneStore? || threads[me].Reset?)
      modifies this
      ensures Since(old(run), |old(threads)|) && schedule == old(schedule) && flag == old(threads)[me].DoneStore?
      ensures threads[me] == if flag then DoneWake else Returned
    {
      ghost var before := View();
      flag := threads[me].DoneStore?;
      threads := threads[me := if flag then DoneWake else Returned];
      Record(before, Step(me));
    }

    method WakeAll(me: nat)
      requires Valid() && me < |threads| && threads[me].DoneWake?
      modifies this
      ensures Since(old(run), |old(threads)|) && threads[me] == Idle && forall o :: 0 <= o < |threads| ==> !threads[o].Asleep?
    {
      ghost var before := View();
      var ts := threads;
      threads := seq(|ts|, i requires 0 <= i < |ts| => if i == me then Idle else Awake(ts[i]));
      Record(before, Step(me));
    }

    /** `ok` is false where the assertion fails. The last member raises the flag and wakes everybody. Step `at` took it off the count. */
    method Done(me: nat) returns (ok: bool, last: bool, ghost at: nat)
      requires Valid() && me < |threads| && AtRest(threads[me])
      modifies this
      ensures Since(old(run), |old(threads)|) && threads[me] == if ok then Idle else Panicked
      ensures !ok ==> stray && !last
      ensures last ==> forall o :: 0 <= o < |threads| ==> !threads[o].Asleep?
      ensures |old(run)| <= at < |run| && run[at] == WaitGroups.Done(me)
      ensures ok <==> Exec(Init(|threads|, initial), run[..at]).count >= 1
      ensures last <==> Exec(Init(|threads|, initial), run[..at]).count == 1
    {
      hide Next, Exec;
      Interfere(me);
      at := |run|;
      ghost var upTo := run;
      var was := FetchSub(me);
      ghost var after := run;
      ok, last := was >= 1, was == 1;
      if was == 1 {
        Interfere(me);
        StoreFlag(me);
        Interfere(me);
        WakeAll(me);
      }
      assert after <= run && after == upTo + [WaitGroups.Done(me)];
      assert run[..at] == after[..at] == upTo && run[at] == after[at];
    }

    /** `should_wait`: the count's load. */
    method Look(me: nat) returns (wait: bool)
      requires Valid() && me < |threads| && threads[me].Looking?
      modifies this
      ensures Since(old(run), |old(threads)|) && run != old(run) && schedule == old(schedule) && wait == (count > 0) && count == old(count) && threads[me] == if wait then Futex else Reset
    {
      ghost var before := View();
      wait := count > 0;
      threads := threads[me := if wait then Futex else Reset];
      Record(before, Step(me));
    }

    method FutexWait(me: nat) returns (sleeps: bool)
      requires Valid() && me < |threads| && threads[me].Futex?
      modifies this
      ensures Since(old(run), |old(threads)|) && schedule == old(schedule) && sleeps == !flag && threads[me] == if sleeps then Asleep else Looking
    {
      ghost var before := View();
      sleeps := !flag;
      threads := threads[me := if sleeps then Asleep else Looking];
      Record(before, Step(me));
    }

    method Enter(me: nat)
      requires Valid() && me < |threads| && AtRest(threads[me])
      modifies this
      ensures Valid() && |threads| == |old(threads)| && run == old(run) + [WaitGroups.Wait(me)] && threads[me] == Looking
      ensures count == old(count) && schedule == old(schedule)
    {
      hide Exec;
      ghost var before := View();
      threads := threads[me := Looking];
      Record(before, WaitGroups.Wait(me));
    }

    /** A futex wait returns for no reason. */
    method WakeUp(me: nat)
      requires Valid() && me < |threads| && threads[me].Asleep?
      modifies this
      ensures Since(old(run), |old(threads)|) && schedule == old(schedule) && threads[me] == Looking
    {
      hide Exec;
      ghost var before := View();
      threads := threads[me := Looking];
      Record(before, Spurious(me));
    }

    /**
     A round of `wait`, after others' steps: the look at the count, and the futex. Ended, gone round, or asleep. If it is
     not the end, the count was above zero at the look, which is step `at`.
     */
    method Round(me: nat) returns (ended: bool, ghost at: nat)
      requires Valid() && me < |threads| && threads[me].Looking?
      modifies this
      ensures Since(old(run), |old(threads)|) && |old(run)| <= at < |run|
      ensures if ended then threads[me].Returned? else threads[me].Asleep? || threads[me].Looking?
      ensures !ended ==> Above(Init(|threads|, initial))(run[..at])
      ensures old(schedule) == [] ==> schedule == [] && (ended <==> old(count) == 0)
    {
      hide Next, Exec;
      Interfere(me);
      at := |run|;
      ghost var upTo := run;
      var wait := Look(me);
      Interfere(me);
      if !wait {
        StoreFlag(me);
        return true, at;
      }
      ended := false;
      var sleeps := FutexWait(me);
      Interfere(me);
      var spurious: bool := *;
      if spurious && threads[me].Asleep? {
        WakeUp(me);
      }
      assert run[..at] == upTo;
    }

    /**
     `wait`, for at most `patience` rounds. It returns only through a moment of this call at which the count was zero;
     without a return it is asleep, or has made `patience` rounds, at each of which the count was above zero.
     */
    method Wait(me: nat, patience: nat) returns (returned: bool, ghost marks: seq<nat>)
      requires Valid() && me < |threads| && AtRest(threads[me])
      modifies this
      ensures Since(old(run), |old(threads)|)
      ensures returned ==> threads[me].Returned? && exists k :: |old(run)| < k <= |run| && Exec(Init(|threads|, initial), run[..k]).count == 0
      ensures !returned ==> At(run, marks, |old(run)|, Above(Init(|threads|, initial)))
      ensures !returned ==> if threads[me].Asleep? then marks != [] else threads[me].Looking? && |marks| == patience
      ensures old(schedule) == [] && old(count) == 0 && patience > 0 ==> returned
    {
      hide Next, Exec, Above;
      Enter(me);
      ghost var entry := run;
      marks := [];
      returned := false;
      for n := 0 to patience
        invariant Since(entry, |old(threads)|) && threads[me].Looking?
        invariant |marks| == n && At(run, marks, |old(run)|, Above(Init(|threads|, initial)))
        invariant forall i :: 0 <= i < |marks| ==> marks[i] < |run|
        invariant old(schedule) == [] && old(count) == 0 ==> n == 0 && schedule == [] && count == 0
      {
        ghost var before := run;
        ghost var at;
        returned, at := Round(me);
        if returned {
          LeavesThroughZero(Init(|threads|, initial), entry, run, me);
          return;
        }
        Later(before, run, marks, |old(run)|, Above(Init(|threads|, initial)));
        OneMore(run, marks, at, |old(run)|, Above(Init(|threads|, initial)));
        marks := marks + [at];
        if threads[me].Asleep? {
          return;
        }
      }
    }
  }
}
