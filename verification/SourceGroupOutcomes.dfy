/** What becomes of one `add`: its outcome is what `get` answers after `sum`, over any run of the others. */
module SourceGroupOutcomes {
  import opened Words
  import opened Options
  import opened SourceGroups
  import opened SourceGroupTheorems
  import WG = WaitGroups

  lemma RecordedIs<V>(e: Ending<V>)
    ensures e.Returned? ==> Recorded(e) == Data(e.value)
    ensures e.Failed? ==> Recorded(e) == Error("error: " + e.message)
    ensures e.Panics? ==> Recorded(e) == Error("function of user panic")
  {
  }

  lemma OthersWait<V>(s: Group<V>, a: Action<V>, me: nat)
    requires me < |s.threads| == |s.wg.threads| && a.me != me
    ensures |Next(s, a).threads| == |Next(s, a).wg.threads| == |s.threads| && |Next(s, a).calls| == |s.calls|
    ensures Next(s, a).threads[me] == s.threads[me] && WG.Kept(s.wg.threads[me], Next(s, a).wg.threads[me])
    ensures s.tickets <= Next(s, a).tickets <= s.tickets + 1
  {
    hide WG.Next;
    WG.OthersKept(s.wg, WG.Done(a.me));
    WG.OthersKept(s.wg, WG.Step(a.me));
    WG.OthersKept(s.wg, WG.Wait(a.me));
    WG.OthersKept(s.wg, WG.Spurious(a.me));
  }

  /** Slot k has been counted done, or is the one thread me holds. */
  ghost predicate Settled<V>(s: Group<V>, me: nat, k: nat)
    requires me < |s.threads|
  {
    k < |s.asked| && (k in s.finished || (Owns(s.threads[me]) && s.threads[me].idx == k))
  }

  /** Such a slot keeps its key and its outcome. */
  ghost predicate KeepsMine<V>(s: Group<V>, s': Group<V>, me: nat)
    requires me < |s.threads| == |s'.threads|
  {
    && s'.threads[me] == s.threads[me] && s.finished <= s'.finished
    && forall k: nat :: Settled(s, me, k) ==>
      k < |s'.asked| && s'.asked[k] == s.asked[k] && (k in s.outs ==> k in s'.outs && s'.outs[k] == s.outs[k])
  }

  lemma OthersKeepMine<V>(s: Group<V>, n: U32, a: Action<V>, me: nat)
    requires Inv(s, n) && me < |s.threads| && a.me != me
    ensures |Next(s, a).threads| == |s.threads| && KeepsMine(s, Next(s, a), me)
  {
    OthersWait(s, a, me);
    hide WG.Next;
    if a.me < |s.threads| {
      assert ThreadOk(s, a.me);
    }
  }

  lemma KeepsTrans<V>(s: Group<V>, s1: Group<V>, s2: Group<V>, me: nat)
    requires me < |s.threads| == |s1.threads| == |s2.threads| && KeepsMine(s, s1, me) && KeepsMine(s1, s2, me)
    ensures KeepsMine(s, s2, me)
  {
    forall k: nat | Settled(s, me, k)
      ensures k < |s2.asked| && s2.asked[k] == s.asked[k] && (k in s.outs ==> k in s2.outs && s2.outs[k] == s.outs[k])
    {
      assert Settled(s1, me, k);
    }
  }

  lemma KeepsSelf<V>(s: Group<V>, me: nat)
    requires me < |s.threads|
    ensures KeepsMine(s, s, me)
  {
  }

  // ---------------------------------------------------------------- one outcome, over a run

  /** The outcome is on its way into slot k, or there. */
  ghost predicate Carried<V>(s: Group<V>, me: nat, k: nat, key: string, out: Outcome<V>) {
    && me < |s.threads| && Settled(s, me, k) && s.asked[k] == key
    && ((s.threads[me].WriteKey? && s.threads[me].idx == k && s.threads[me].out == out)
        || (s.threads[me].WriteResult? && s.threads[me].idx == k && s.threads[me].out == out)
        || (k in s.outs && s.outs[k] == out && (k in s.finished || s.threads[me].CallDone?)))
  }

  /** A step of the thread itself. */
  lemma CarrierSteps<V>(s: Group<V>, n: U32, a: Action<V>, k: nat, key: string, out: Outcome<V>)
    requires Inv(s, n) && Carried(s, a.me, k, key, out)
    ensures Carried(Next(s, a), a.me, k, key, out)
  {
    hide WG.Next;
    assert ThreadOk(s, a.me);
    assert k in s.finished ==> Filled(s, k);
    if a.Step? {
      assert Owns(s.threads[a.me]) && s.threads[a.me].idx != k ==> k in s.finished;
    }
  }

  lemma CarriedStep<V>(s: Group<V>, n: U32, a: Action<V>, me: nat, k: nat, key: string, out: Outcome<V>)
    requires Inv(s, n) && Carried(s, me, k, key, out)
    ensures Carried(Next(s, a), me, k, key, out)
  {
    if a.me == me {
      CarrierSteps(s, n, a, k, key, out);
    } else {
      OthersKeepMine(s, n, a, me);
      hide Inv, Next;
    }
  }

  /** Step p of the run: the user's function of an `add` ends. */
  ghost predicate EndsAt<V>(threads: nat, n: U32, run: seq<Action<V>>, p: nat) {
    && p < |run| && run[p].Return?
    && var s := Exec(Init(threads, n), run[..p]); run[p].me < |s.threads| && s.threads[run[p].me].Calling?
  }

  lemma EndCarries<V>(s: Group<V>, n: U32, me: nat, ending: Ending<V>)
    requires Inv(s, n) && me < |s.threads| && s.threads[me].Calling?
    ensures Carried(Next(s, Return(me, ending)), me, s.threads[me].idx, s.threads[me].key, Recorded(ending))
  {
    assert ThreadOk(s, me);
    hide WG.Next, Recorded;
  }

  lemma {:induction false} RunCarries<V>(threads: nat, n: U32, run: seq<Action<V>>, p: nat)
    requires EndsAt(threads, n, run, p) && Exec(Init(threads, n), run).tickets < TWO32
    ensures var c := Exec(Init(threads, n), run[..p]).threads[run[p].me];
      Carried(Exec(Init(threads, n), run), run[p].me, c.idx, c.key, Recorded(run[p].ending))
  {
    hide Next, Inv, Carried, Recorded;
    var m := |run| - 1;
    var before := Exec(Init<V>(threads, n), run[..m]);
    TicketsGrow(before, run[m]);
    RunKeepsInv(threads, n, run[..m]);
    if p == m {
      EndCarries(before, n, run[p].me, run[p].ending);
    } else {
      assert run[..m][..p] == run[..p];
      RunCarries(threads, n, run[..m], p);
      var c := Exec(Init(threads, n), run[..p]).threads[run[p].me];
      CarriedStep(before, n, run[m], run[p].me, c.idx, c.key, Recorded(run[p].ending));
    }
  }

  lemma CarriedIsThere<V>(s: Group<V>, n: U32, me: nat, k: nat, key: string, out: Outcome<V>)
    requires Inv(s, n) && Carried(s, me, k, key, out) && k < |s.calls| && Filled(s, k) && k in s.finished
    ensures k < |s.asked| && s.asked[k] == key && s.calls[k] == Call(key, Some(out))
  {
    assert ThreadOk(s, me);
  }

  lemma SummedIsFinished<V>(s: Group<V>, n: U32, w: nat)
    requires Inv(s, n) && w < |s.threads| && s.threads[w].Summed?
    ensures forall k: nat :: k < n ==> k in s.finished
  {
    assert ThreadOk(s, w);
    SubsetSize(n, s.finished);
  }

  /**
   For every `add` of any run: once some `sum` has returned, its slot holds its key and what its function ended with, a
   value as that value, an error in its printed form, a panic as the fixed message; and `get` answers with it unless a
   slot before has the same key.
   */
  lemma {:induction false} GetAnswersTheEnding<V>(threads: nat, n: U32, run: seq<Action<V>>, p: nat, w: nat)
    requires EndsAt(threads, n, run, p) && Exec(Init(threads, n), run).tickets < TWO32
    requires w < |Exec(Init<V>(threads, n), run).threads| && Exec(Init<V>(threads, n), run).threads[w].Summed?
    ensures
      var c, calls, ending := Exec(Init(threads, n), run[..p]).threads[run[p].me], Exec(Init(threads, n), run).calls, run[p].ending;
      && c.idx < |calls| && calls[c.idx].key == c.key
      && (ending.Returned? ==> calls[c.idx].result == Some(Data(ending.value)))
      && (ending.Failed? ==> calls[c.idx].result == Some(Error("error: " + ending.message)))
      && (ending.Panics? ==> calls[c.idx].result == Some(Error("function of user panic")))
      && ((forall i :: 0 <= i < c.idx ==> calls[i].key != c.key) ==> Got(calls, c.key) == calls[c.idx].result)
  {
    var s, c := Exec(Init<V>(threads, n), run), Exec(Init(threads, n), run[..p]).threads[run[p].me];
    RunKeepsInv(threads, n, run);
    RunCarries(threads, n, run, p);
    SummedIsFilled(s, n, w);
    SummedIsFinished(s, n, w);
    hide Inv, Next, Exec, Recorded, Carried;
    SettledSlot(s, run[p].me, c.idx, c.key, Recorded(run[p].ending));
    CarriedIsThere(s, n, run[p].me, c.idx, c.key, Recorded(run[p].ending));
    RecordedIs(run[p].ending);
    var i := FirstWith(s.calls, c.key);
  }

  lemma SettledSlot<V>(s: Group<V>, me: nat, k: nat, key: string, out: Outcome<V>)
    requires Carried(s, me, k, key, out)
    ensures k < |s.asked|
  {
  }
}
