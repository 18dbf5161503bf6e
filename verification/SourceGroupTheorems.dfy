/** What the source group keeps, over all interleavings of fewer than 2^32 calls of `add`. */
module SourceGroupTheorems {
  import opened Words
  import opened Options
  import opened SourceGroups
  import WG = WaitGroups

  /** The thread holds a slot it has not yet counted done. */
  predicate Owns<V>(pc: Pc<V>) {
    pc.Calling? || pc.WriteKey? || pc.WriteResult? || pc.CallDone?
  }

  ghost predicate OwnerOk<V>(s: Group<V>, pc: Pc<V>)
    requires |s.asked| <= |s.calls|
  {
    Owns(pc) ==>
      && pc.idx < |s.asked| && pc.idx as nat !in s.finished
      && (pc.Calling? || pc.WriteKey? ==> pc.key == s.asked[pc.idx])
      && (pc.WriteResult? || pc.CallDone? ==> s.calls[pc.idx].key == s.asked[pc.idx])
      && (pc.CallDone? ==> Filled(s, pc.idx))
  }

  /** The slot holds what its `add` was asked and found. */
  ghost predicate Filled<V>(s: Group<V>, k: nat) {
    k < |s.calls| && k < |s.asked| && k in s.outs && s.calls[k] == Call(s.asked[k], Some(s.outs[k]))
  }

  predicate WgOk(pc: WG.Pc, mine: bool, sums: bool) {
    if sums then WG.Waits(pc) || pc.Returned? else (mine && (pc.DoneStore? || pc.DoneWake?)) || WG.AtRest(pc)
  }

  ghost predicate ThreadOk<V>(s: Group<V>, o: nat)
    requires o < |s.threads| == |s.wg.threads| && |s.asked| <= |s.calls|
  {
    && OwnerOk(s, s.threads[o])
    && WgOk(s.wg.threads[o], s.threads[o].FinishDone?, s.threads[o].Summing?)
    && (s.threads[o].Summed? || (s.threads[o].Summing? && (s.wg.threads[o].Reset? || s.wg.threads[o].Returned?)) ==> s.wg.count == 0)
  }

  ghost predicate Shared<V>(s: Group<V>, n: U32) {
    && |s.calls| == n && |s.wg.threads| == |s.threads|
    && s.tickets < TWO32 && s.index == s.tickets && |s.asked| == (if s.index < n then s.index else n)
    && (forall k :: k in s.finished ==> k < |s.asked| && Filled(s, k))
    && !s.wg.wrapped && !s.wg.stray && s.wg.count == n - |s.finished|
  }

  ghost predicate Apart<V>(s: Group<V>) {
    forall o, p :: 0 <= o < |s.threads| && 0 <= p < |s.threads| && o != p && Owns(s.threads[o]) && Owns(s.threads[p])
      ==> s.threads[o].idx != s.threads[p].idx
  }

  ghost predicate Inv<V>(s: Group<V>, n: U32) {
    Shared(s, n) && Apart(s) && forall o :: 0 <= o < |s.threads| ==> ThreadOk(s, o)
  }

  lemma InitInv<V>(threads: nat, n: U32)
    ensures Inv<V>(Init(threads, n), n)
  {
  }

  lemma SubsetSize(n: nat, a: set<nat>)
    requires forall k :: k in a ==> k < n
    ensures |a| <= n
    ensures |a| == n ==> forall k :: 0 <= k < n ==> k in a
  {
    var all := Below(n);
    assert a <= all;
    SubsetIsSmaller(a, all);
    if |a| == n {
      SameSize(a, all);
    }
  }

  function Below(n: nat): (r: set<nat>)
    ensures |r| == n && forall k :: k in r <==> 0 <= k < n
  {
    if n == 0 then {} else Below(n - 1) + {n - 1}
  }

  lemma {:induction false} SubsetIsSmaller(a: set<nat>, b: set<nat>)
    requires a <= b
    ensures |a| <= |b|
  {
    if a != {} {
      var x :| x in a;
      SubsetIsSmaller(a - {x}, b - {x});
    }
  }

  lemma SameSize(a: set<nat>, b: set<nat>)
    requires a <= b && |a| == |b|
    ensures a == b
  {
    if a != b {
      var x :| x in b && x !in a;
      SubsetIsSmaller(a, b - {x});
    }
  }

  // ---------------------------------------------------------------- steps

  /** A call of `add` takes the next slot, or none. */
  lemma TakeKeepsInv<V>(s: Group<V>, n: U32, me: nat, key: string)
    requires Inv(s, n) && me < |s.threads| && AtRest(s.threads[me]) && s.tickets + 1 < TWO32
    ensures Inv(TakeIndex(s, me, key), n)
  {
    var s' := TakeIndex(s, me, key);
    assert ThreadOk(s, me);
    forall o | 0 <= o < |s'.threads| ensures ThreadOk(s', o) {
      assert ThreadOk(s, o);
    }
    forall o | 0 <= o < |s.threads| && Owns(s.threads[o]) ensures s.threads[o].idx < |s.asked| {
      assert ThreadOk(s, o);
    }
  }

  /** The user's function ends, or the key or the result is written. */
  lemma WriteKeepsInv<V>(s: Group<V>, n: U32, a: Action<V>)
    requires Inv(s, n) && a.me < |s.threads|
    requires (a.Return? && s.threads[a.me].Calling?) || (a.Step? && (s.threads[a.me].WriteKey? || s.threads[a.me].WriteResult?))
    ensures Inv(Next(s, a), n)
  {
    var s', me := Next(s, a), a.me;
    assert ThreadOk(s, me);
    forall o | 0 <= o < |s'.threads| ensures ThreadOk(s', o) {
      assert ThreadOk(s, o);
    }
  }

  /** The first step of `done` finds the count above zero. */
  lemma DoneKeepsInv<V>(s: Group<V>, n: U32, me: nat)
    requires Inv(s, n) && me < |s.threads| && s.threads[me].CallDone?
    ensures s.wg.count > 0 && Inv(Access(s, me), n)
  {
    var s' := Access(s, me);
    CountsOneDone(s, n, me);
    forall o | 0 <= o < |s'.threads| ensures ThreadOk(s', o) {
      if o != me {
        DoneLeavesOthers(s, n, me, o);
        hide ThreadOk, WG.Sub;
      }
    }
    assert Apart(s') by {
      hide WG.Sub, Shared, ThreadOk;
    }
    hide Apart, Access, Filled;
  }

  lemma CountsOneDone<V>(s: Group<V>, n: U32, me: nat)
    requires Inv(s, n) && me < |s.threads| && s.threads[me].CallDone?
    ensures var s', idx := Access(s, me), s.threads[me].idx;
      && s.wg.count > 0 && Shared(s', n) && ThreadOk(s', me)
      && s' == Goto(s, me, FinishDone).(wg := WG.Sub(s.wg, me), finished := s.finished + {idx as nat}, wgRun := s.wgRun + [WG.Done(me)])
  {
    hide Apart;
    var idx := s.threads[me].idx;
    assert ThreadOk(s, me);
    assert Filled(s, idx);
    SubsetSize(n, s.finished + {idx as nat});
    SubIs(s.wg, me);
    hide WG.Sub, WG.Next;
  }

  lemma SubIs(g: WG.Group, me: nat)
    requires me < |g.threads| && WG.AtRest(g.threads[me])
    ensures WG.Next(g, WG.Done(me)) == WG.Sub(g, me)
    ensures g.count > 0 ==> WG.Sub(g, me) == g.(count := g.count - 1, threads := g.threads[me := if g.count == 1 then WG.DoneStore else WG.Idle])
  {
  }

  lemma DoneLeavesOthers<V>(s: Group<V>, n: U32, me: nat, o: nat)
    requires Inv(s, n) && me < |s.threads| && s.threads[me].CallDone? && o < |s.threads| && o != me && s.wg.count > 0
    ensures var s' := Goto(s, me, FinishDone).(wg := WG.Sub(s.wg, me), finished := s.finished + {s.threads[me].idx as nat});
      ThreadOk(s', o)
  {
    assert ThreadOk(s, o) && ThreadOk(s, me);
  }

  /** What the wait group's steps inside `done` and `wait` leave as it is. */
  lemma WgQuiet(g: WG.Group, a: WG.Action)
    requires a.me < |g.threads| && (a.Step? || a.Spurious? || a.Wait?)
    ensures WG.Next(g, a) == g.(threads := WG.Next(g, a).threads, flag := WG.Next(g, a).flag)
    ensures forall o :: 0 <= o < |g.threads| && o != a.me ==> WG.Kept(g.threads[o], WG.Next(g, a).threads[o])
  {
    WG.OthersKept(g, a);
  }

  /** What it does to the thread that takes it. */
  lemma WgOwn(g: WG.Group, a: WG.Action, mine: bool, sums: bool)
    requires a.me < |g.threads| && WgOk(g.threads[a.me], mine, sums)
    requires if sums then a.Step? || a.Spurious? else mine && a.Step?
    ensures var pc, pc' := g.threads[a.me], WG.Next(g, a).threads[a.me];
      && WgOk(pc', mine, sums)
      && (pc'.Reset? || pc'.Returned? ==> g.count == 0 || pc.Reset? || pc.Returned? || !sums)
  {
  }

  /** A step of the wait group alone. */
  lemma WgMoveKeepsInv<V>(s: Group<V>, s': Group<V>, n: U32, a: WG.Action)
    requires Inv(s, n) && a.me < |s.threads| && (s.threads[a.me].FinishDone? || s.threads[a.me].Summing?)
    requires a.Step? || (a.Spurious? && s.threads[a.me].Summing?)
    requires s' == WgDo(s, a)
    ensures Inv(s', n)
  {
    hide WG.Next;
    var me := a.me;
    assert ThreadOk(s, me);
    WgQuiet(s.wg, a);
    WgOwn(s.wg, a, s.threads[me].FinishDone?, s.threads[me].Summing?);
    forall o | 0 <= o < |s'.threads| ensures ThreadOk(s', o) {
      assert ThreadOk(s, o);
    }
  }

  /** `sum` starts or ends, or `done` ends. */
  lemma EndsKeepInv<V>(s: Group<V>, n: U32, a: Action<V>)
    requires Inv(s, n) && a.me < |s.threads|
    requires (a.StartSum? && AtRest(s.threads[a.me]))
      || (a.Step? && s.threads[a.me].FinishDone? && WG.AtRest(s.wg.threads[a.me]))
      || (a.Step? && s.threads[a.me].Summing? && s.wg.threads[a.me].Returned?)
    ensures Inv(Next(s, a), n)
  {
    var s' := Next(s, a);
    assert ThreadOk(s, a.me);
    forall o | 0 <= o < |s'.threads| ensures ThreadOk(s', o) {
      assert ThreadOk(s, o);
    }
  }

  lemma WgKeepsInv<V>(s: Group<V>, n: U32, a: Action<V>)
    requires Inv(s, n) && a.me < |s.threads| && Next(s, a) != s
    requires a.StartSum? || a.Spurious? || (a.Step? && (s.threads[a.me].FinishDone? || s.threads[a.me].Summing?))
    ensures Inv(Next(s, a), n)
  {
    var me := a.me;
    hide Inv, Shared;
    if a.Spurious? {
      WgMoveKeepsInv(s, Next(s, a), n, WG.Spurious(me));
    } else if a.StartSum? || (if s.threads[me].FinishDone? then WG.AtRest(s.wg.threads[me]) else s.wg.threads[me].Returned?) {
      EndsKeepInv(s, n, a);
    } else {
      WgMoveKeepsInv(s, Next(s, a), n, WG.Step(me));
    }
  }

  lemma StepKeepsInv<V>(s: Group<V>, n: U32, a: Action<V>)
    requires Inv(s, n) && Next(s, a).tickets < TWO32
    ensures Inv(Next(s, a), n)
  {
    if a.me < |s.threads| && Next(s, a) != s {
      match a
      case StartAdd(me, key) => TakeKeepsInv(s, n, me, key);
      case Return(_, _) => WriteKeepsInv(s, n, a);
      case StartSum(_) | Spurious(_) => WgKeepsInv(s, n, a);
      case Step(me) =>
        if s.threads[me].CallDone? {
          DoneKeepsInv(s, n, me);
        } else if s.threads[me].WriteKey? || s.threads[me].WriteResult? {
          WriteKeepsInv(s, n, a);
        } else {
          WgKeepsInv(s, n, a);
        }
    }
  }

  lemma {:induction false} RunKeepsInv<V>(threads: nat, n: U32, run: seq<Action<V>>)
    requires Exec(Init(threads, n), run).tickets < TWO32
    ensures Inv(Exec(Init(threads, n), run), n)
  {
    if run == [] {
      InitInv<V>(threads, n);
    } else {
      var before := Exec(Init<V>(threads, n), run[..|run| - 1]);
      TicketsGrow(before, run[|run| - 1]);
      RunKeepsInv(threads, n, run[..|run| - 1]);
      StepKeepsInv(before, n, run[|run| - 1]);
    }
  }

  // ---------------------------------------------------------------- main results

  /** Two `add`s inside never hold the same slot, and no `done` finds the count at zero. */
  lemma {:induction false} SlotsAndCount<V>(threads: nat, n: U32, run: seq<Action<V>>)
    requires Exec(Init(threads, n), run).tickets < TWO32
    ensures var s := Exec(Init(threads, n), run);
      Apart(s) && !s.wg.stray && !s.wg.wrapped && s.wg.count == n - |s.finished|
  {
    RunKeepsInv(threads, n, run);
  }

  lemma SummedIsFilled<V>(s: Group<V>, n: U32, me: nat)
    requires Inv(s, n) && me < |s.threads| && s.threads[me].Summed?
    ensures |s.asked| == |s.calls| == n && forall k :: 0 <= k < n ==> Filled(s, k)
  {
    assert ThreadOk(s, me);
    SubsetSize(n, s.finished);
    assert n > 0 ==> (n - 1) as nat in s.finished;
  }

  /** When some `sum` has returned, every slot holds the key and the outcome of the `add` that took it. */
  lemma {:induction false} SumJoins<V>(threads: nat, n: U32, run: seq<Action<V>>, w: nat)
    requires w < |Exec(Init<V>(threads, n), run).threads| && Exec(Init<V>(threads, n), run).threads[w].Summed?
    requires Exec(Init(threads, n), run).tickets < TWO32
    ensures var s := Exec(Init(threads, n), run);
      |s.calls| == |s.asked| == n && forall k :: 0 <= k < n ==> Filled(s, k)
  {
    RunKeepsInv(threads, n, run);
    SummedIsFilled(Exec(Init<V>(threads, n), run), n, w);
  }

  /** From then on no slot changes any more, whatever is called. */
  lemma {:induction false} SlotsFrozen<V>(threads: nat, n: U32, run: seq<Action<V>>, more: seq<Action<V>>, w: nat)
    requires w < |Exec(Init<V>(threads, n), run).threads| && Exec(Init<V>(threads, n), run).threads[w].Summed?
    requires Exec(Init(threads, n), run + more).tickets < TWO32
    ensures Exec(Init(threads, n), run + more).calls == Exec(Init(threads, n), run).calls
    ensures Exec(Init(threads, n), run + more).wg.count == 0
  {
    if more == [] {
      assert run + more == run;
      RunKeepsInv(threads, n, run);
      assert ThreadOk(Exec(Init<V>(threads, n), run), w);
    } else {
      var m := |more| - 1;
      assert (run + more)[..|run + more| - 1] == run + more[..m];
      var before := Exec(Init<V>(threads, n), run + more[..m]);
      TicketsGrow(before, more[m]);
      SlotsFrozen(threads, n, run, more[..m], w);
      RunKeepsInv(threads, n, run + more[..m]);
      FrozenStep(before, n, more[m]);
    }
  }

  lemma TicketsGrow<V>(s: Group<V>, a: Action<V>)
    ensures s.tickets <= Next(s, a).tickets
  {
  }

  lemma FrozenStep<V>(s: Group<V>, n: U32, a: Action<V>)
    requires Inv(s, n) && s.wg.count == 0
    ensures Next(s, a).calls == s.calls && Next(s, a).wg.count == 0
  {
    SubsetSize(n, s.finished);
    if a.me < |s.threads| {
      assert ThreadOk(s, a.me);
      assert !Owns(s.threads[a.me]);
      if Next(s, a).wgRun != s.wgRun {
        WgQuiet(s.wg, Next(s, a).wgRun[|s.wgRun|]);
      }
    }
  }

  /** So `get` then never reads an unwritten result, and for a key asked once gives what that `add` recorded. */
  lemma {:induction false} GetAfterSum<V>(threads: nat, n: U32, run: seq<Action<V>>, w: nat, key: string)
    requires w < |Exec(Init<V>(threads, n), run).threads| && Exec(Init<V>(threads, n), run).threads[w].Summed?
    requires Exec(Init(threads, n), run).tickets < TWO32
    ensures var s := Exec(Init(threads, n), run);
      && Got(s.calls, key).Some?
      && (key !in s.asked ==> Got(s.calls, key) == Some(Error("key doesn't exist")))
      && (forall k :: 0 <= k < |s.asked| && s.asked[k] == key && key !in s.asked[..k] ==> k in s.outs && Got(s.calls, key) == Some(s.outs[k]))
  {
    SumJoins(threads, n, run, w);
    var s := Exec(Init<V>(threads, n), run);
    assert forall k :: 0 <= k < n ==> Filled(s, k);
    var i := FirstWith(s.calls, key);
    assert i < |s.calls| ==> Filled(s, i) && s.asked[i] == key;
    forall k | 0 <= k < |s.asked| && s.asked[k] == key && key !in s.asked[..k] ensures k == i && Filled(s, k) {
      assert Filled(s, k) && s.calls[k].key == key;
    }
  }

  lemma {:induction false} WgRuns<V>(threads: nat, n: U32, run: seq<Action<V>>)
    ensures var s := Exec(Init(threads, n), run); s.wg == WG.Exec(WG.Init(threads, n), s.wgRun)
  {
    if run != [] {
      WgRuns(threads, n, run[..|run| - 1]);
      WgStep(Exec(Init<V>(threads, n), run[..|run| - 1]), run[|run| - 1], WG.Init(threads, n));
    }
  }

  lemma WgStep<V>(s: Group<V>, a: Action<V>, init: WG.Group)
    requires s.wg == WG.Exec(init, s.wgRun)
    ensures Next(s, a).wg == WG.Exec(init, Next(s, a).wgRun)
  {
    hide WG.Next, WG.Exec, Recorded;
    if Next(s, a).wgRun != s.wgRun {
      WG.ExecSnoc(init, s.wgRun, Next(s, a).wgRun[|s.wgRun|]);
    }
  }

  /** Only thread w calls `sum`. */
  predicate OneSums<V>(run: seq<Action<V>>, w: nat) {
    forall i :: 0 <= i < |run| && run[i].StartSum? ==> run[i].me == w
  }

  lemma {:induction false} OneSumsOneWaits<V>(threads: nat, n: U32, run: seq<Action<V>>, w: nat)
    requires OneSums(run, w)
    ensures WG.WaitersIn(Exec(Init(threads, n), run).wgRun, {w})
  {
    if run != [] {
      OneSumsOneWaits(threads, n, run[..|run| - 1], w);
    }
  }

  /** A single caller of `sum`, whichever thread it is, is never left asleep with every source done. */
  lemma {:induction false} SumNotStranded<V>(threads: nat, n: U32, run: seq<Action<V>>, w: nat, o: nat)
    requires OneSums(run, w) && Exec(Init(threads, n), run).tickets < TWO32
    ensures !WG.Stranded(Exec(Init(threads, n), run).wg, o)
  {
    RunKeepsInv(threads, n, run);
    WgRuns(threads, n, run);
    OneSumsOneWaits(threads, n, run, w);
    WG.OneWaiterNeverStranded(threads, n, Exec(Init(threads, n), run).wgRun, {w}, w, o);
  }
}
