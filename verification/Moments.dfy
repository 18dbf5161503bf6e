/** Moments of a run at which something held. A call that reports no result names the moments of its rounds. */
module Moments {
  /** The marks are moments of the run, in order and not before `from`, and `held` is true of the run up to each. */
  ghost predicate At<A>(run: seq<A>, marks: seq<nat>, from: nat, held: seq<A> -> bool) {
    && (forall i :: 0 <= i < |marks| ==> from <= marks[i] <= |run| && held(run[..marks[i]]))
    && (forall i, j :: 0 <= i < j < |marks| ==> marks[i] < marks[j])
  }

  lemma Later<A>(run: seq<A>, later: seq<A>, marks: seq<nat>, from: nat, held: seq<A> -> bool)
    requires run <= later && At(run, marks, from, held)
    ensures At(later, marks, from, held)
  {
    forall i | 0 <= i < |marks| ensures marks[i] <= |later| && held(later[..marks[i]]) {
      assert later[..marks[i]] == run[..marks[i]];
    }
  }

  /** One more moment: the present one, or an earlier one after all others. */
  lemma OneMore<A>(run: seq<A>, marks: seq<nat>, m: nat, from: nat, held: seq<A> -> bool)
    requires At(run, marks, from, held) && from <= m <= |run| && held(run[..m])
    requires forall i :: 0 <= i < |marks| ==> marks[i] < m
    ensures At(run, marks + [m], from, held)
  {
  }

  /** The run has gone on, and one of its later moments is one more. */
  lemma Note<A>(before: seq<A>, run: seq<A>, marks: seq<nat>, m: nat, from: nat, held: seq<A> -> bool)
    requires before <= run && At(before, marks, from, held) && |before| < m <= |run| && from <= m && held(run[..m])
    ensures At(run, marks + [m], from, held)
  {
    Later(before, run, marks, from, held);
  }

  lemma Sooner<A>(run: seq<A>, marks: seq<nat>, from: nat, earlier: nat, held: seq<A> -> bool)
    requires earlier <= from && At(run, marks, from, held)
    ensures At(run, marks, earlier, held)
  {
  }

  lemma WholeRun<A>(run: seq<A>)
    ensures run[..|run|] == run
  {
  }
}
