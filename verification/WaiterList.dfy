/** The list of waiters behind the lock, as the object the source mutates. */
module WaiterList {
  import opened Waker

  /** The waiters among the first n whose word says parked, in order. */
  function ParkedAmong(ws: seq<nat>, parked: set<nat>, n: nat): seq<nat>
    requires n <= |ws|
  {
    if n == 0 then [] else ParkedAmong(ws, parked, n - 1) + (if ws[n - 1] in parked then [ws[n - 1]] else [])
  }

  lemma {:induction false} ParkedAmongMembers(ws: seq<nat>, parked: set<nat>, n: nat, w: nat)
    requires n <= |ws|
    ensures w in ParkedAmong(ws, parked, n) <==> w in ws[..n] && w in parked
  {
    if n > 0 {
      ParkedAmongMembers(ws, parked, n - 1, w);
      assert ws[..n] == ws[..n - 1] + [ws[n - 1]];
    }
  }

  class Deque {
    var waiters: seq<nat>
    var start: nat
    var closed: bool

    /** What `get(idx).unwrap()` in `Notify` needs. */
    predicate Valid()
      reads this
    {
      start <= |waiters|
    }

    function View(): Metadata
      reads this
    {
      Metadata(waiters, start, closed)
    }

    constructor ()
      ensures Valid() && View() == Metadata([], 0, false)
    {
      waiters, start, closed := [], 0, false;
    }

    method Register(w: nat)
      requires Valid()
      modifies this
      ensures Valid() && View() == Waker.Register(old(View()), w)
    {
      waiters := waiters + [w];
    }

    method Find(w: nat) returns (i: nat)
      ensures i == IndexOf(waiters, w)
    {
      i := 0;
      while i < |waiters| && waiters[i] != w
        invariant 0 <= i <= |waiters| && w !in waiters[..i]
      {
        i := i + 1;
      }
      FoundFirst(waiters, w, i);
    }

    method Unregister(w: nat)
      requires Valid()
      modifies this
      ensures Valid() && View() == Waker.Unregister(old(View()), w)
      ensures w !in old(waiters) ==> View() == old(View())
    {
      var i := Find(w);
      if i < |waiters| {
        waiters := waiters[..i] + waiters[i + 1..];
        if start > 0 {
          start := start - 1;
        }
      }
    }

    /** `woken` lists whom the futex is asked to wake, given who is parked. */
    method Notify(parked: set<nat>) returns (woken: seq<nat>)
      requires Valid()
      modifies this
      ensures Valid() && View() == Reach(old(View()))
      ensures woken == ParkedAmong(waiters, parked, start)
      ensures waiters != [] ==> start > 0
    {
      if start < |waiters| {
        start := start + 1;
      }
      woken := [];
      for idx := 0 to start
        invariant woken == ParkedAmong(waiters, parked, idx)
      {
        if waiters[idx] in parked {
          woken := woken + [waiters[idx]];
        }
      }
    }

    method Close() returns (woken: seq<nat>)
      requires Valid()
      modifies this
      ensures Valid() && View() == old(View()).(closed := true)
      ensures woken == waiters
    {
      closed := true;
      woken := [];
      for i := 0 to |waiters|
        invariant woken == waiters[..i]
      {
        woken := woken + [waiters[i]];
      }
    }
  }

  lemma {:induction false} FoundFirst(ws: seq<nat>, w: nat, i: nat)
    requires i <= |ws| && w !in ws[..i] && (i < |ws| ==> ws[i] == w)
    ensures IndexOf(ws, w) == i
  {
    if i > 0 {
      assert ws[..i][0] == ws[0] && ws[1..][..i - 1] == ws[..i][1..];
      FoundFirst(ws[1..], w, i - 1);
    }
  }

  /** A waiter whose pointer is unregistered is gone, when it stood there once; every other keeps its place in line. */
  lemma UnregisterUndoesRegister(m: Metadata, w: nat)
    requires w !in m.waiters
    ensures Waker.Unregister(Waker.Register(m, w), w) == m.(start := if m.start > 0 then m.start - 1 else 0)
  {
    FoundFirst(m.waiters + [w], w, |m.waiters|);
  }
}
