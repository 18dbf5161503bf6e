/**
 The wait group as a step system: any number of threads add, call `done` and wait, one step per access to the
 count, the flag or the futex.
 */
module WaitGroups {
  import opened Words

  datatype Pc =
    | Idle
    | DoneStore  // the count went to zero: before the flag store
    | DoneWake   // before waking all
    | Looking    // `wait`: before loading the count
    | Futex      // the count was not zero: before the futex wait on flag 0
    | Asleep
    | Reset      // the count was zero: before storing flag 0
    | Returned
    | Panicked   // `done` found the count at zero

  /** Histories: `wrapped` and `stray` note calls past either end of the count. */
  datatype Group = Group(
    count: U32,
    flag: bool,
    threads: seq<Pc>,
    wrapped: bool,  // an add went past 2^32 - 1
    stray: bool)    // a `done` found the count at zero

  datatype Action =
    | Add(me: nat, n: U32)
    | Done(me: nat)
    | Wait(me: nat)
    | Step(me: nat)
    | Spurious(me: nat)  // a futex wait may return for no reason

  function Init(threads: nat, n: U32): Group {
    Group(n, false, seq(threads, _ => Idle), false, false)
  }

  predicate AtRest(pc: Pc) {
    pc.Idle? || pc.Returned? || pc.Panicked?
  }

  /** Inside `wait`. */
  predicate Waits(pc: Pc) {
    pc.Looking? || pc.Futex? || pc.Asleep? || pc.Reset?
  }

  function Goto(s: Group, me: nat, pc: Pc): Group
    requires me < |s.threads|
  {
    s.(threads := s.threads[me := pc])
  }

  function Awake(pc: Pc): Pc {
    if pc.Asleep? then Looking else pc
  }

  /** `fetch_sub(1)`, and the branches on what it returned. */
  function Sub(s: Group, me: nat): Group
    requires me < |s.threads|
  {
    Goto(s, me, if s.count == 0 then Panicked else if s.count == 1 then DoneStore else Idle)
    .(count := (s.count - 1) % TWO32, stray := s.stray || s.count == 0)
  }

  function Access(s: Group, me: nat): (r: Group)
    requires me < |s.threads|
    ensures |r.threads| == |s.threads|
  {
    match s.threads[me]
    case DoneStore => Goto(s, me, DoneWake).(flag := true)
    case DoneWake => s.(threads := seq(|s.threads|, i requires 0 <= i < |s.threads| => if i == me then Idle else Awake(s.threads[i])))
    case Looking => Goto(s, me, if s.count > 0 then Futex else Reset)
    case Futex => Goto(s, me, if s.flag then Looking else Asleep)
    case Reset => Goto(s, me, Returned).(flag := false)
    case _ => s
  }

  function Next(s: Group, a: Action): (r: Group)
    ensures |r.threads| == |s.threads|
  {
    if a.me >= |s.threads| then s else
    match a
    case Add(me, n) =>
      if AtRest(s.threads[me])
      then s.(count := WrapAdd32(s.count, n), wrapped := s.wrapped || s.count + n >= TWO32)
      else s
    case Done(me) => if AtRest(s.threads[me]) then Sub(s, me) else s
    case Wait(me) => if AtRest(s.threads[me]) then Goto(s, me, Looking) else s
    case Step(me) => Access(s, me)
    case Spurious(me) => if s.threads[me].Asleep? then Goto(s, me, Looking) else s
  }

  function Exec(s: Group, run: seq<Action>): (r: Group)
    ensures |r.threads| == |s.threads|
  {
    if run == [] then s else Next(Exec(s, run[..|run| - 1]), run[|run| - 1])
  }

  lemma {:induction false} ExecSnoc(s: Group, run: seq<Action>, a: Action)
    ensures Exec(s, run + [a]) == Next(Exec(s, run), a)
  {
    assert (run + [a])[..|run|] == run;
  }

  // ---------------------------------------------------------------- counting

  /** What a call adds, if its thread is free to make it. */
  ghost function Gives(s: Group, a: Action): nat {
    if a.Add? && a.me < |s.threads| && AtRest(s.threads[a.me]) then a.n else 0
  }

  ghost function Takes(s: Group, a: Action): nat {
    if a.Done? && a.me < |s.threads| && AtRest(s.threads[a.me]) then 1 else 0
  }

  /** The sum of the deltas of all calls of `add` in the run. */
  ghost function Added(s: Group, run: seq<Action>): nat {
    if run == [] then 0 else Added(s, run[..|run| - 1]) + Gives(Exec(s, run[..|run| - 1]), run[|run| - 1])
  }

  /** The number of calls of `done` in the run. */
  ghost function Dones(s: Group, run: seq<Action>): nat {
    if run == [] then 0 else Dones(s, run[..|run| - 1]) + Takes(Exec(s, run[..|run| - 1]), run[|run| - 1])
  }

  /** How many members there should be. */
  ghost function Balance(threads: nat, n: U32, run: seq<Action>): int {
    n + Added(Init(threads, n), run) - Dones(Init(threads, n), run)
  }

  /** At no moment of the run was there a member too many, or one done too often. */
  ghost predicate InRange(threads: nat, n: U32, run: seq<Action>) {
    forall k :: 0 <= k <= |run| ==> 0 <= Balance(threads, n, run[..k]) < TWO32
  }

  lemma ModStep(a: int, b: int)
    ensures (a % TWO32 + b) % TWO32 == (a + b) % TWO32
  {
    var q := a / TWO32;
    assert a == q * TWO32 + a % TWO32;
    var c := a % TWO32 + b;
    assert a + b == q * TWO32 + c;
    assert c == (c / TWO32) * TWO32 + c % TWO32;
    assert a + b == (q + c / TWO32) * TWO32 + c % TWO32;
    ModUnique(a + b, q + c / TWO32, c % TWO32);
  }

  lemma ModUnique(a: int, q: int, r: int)
    requires a == q * TWO32 + r && 0 <= r < TWO32
    ensures a % TWO32 == r
  {
  }

  /** A call moves the count by what it gives and takes, in 32 bits, and notes what does not fit. */
  lemma StepCounts(s: Group, a: Action)
    ensures Next(s, a).count == (s.count + Gives(s, a) - Takes(s, a)) % TWO32
    ensures WellUsed(Next(s, a)) <==> WellUsed(s) && 0 <= s.count + Gives(s, a) - Takes(s, a) < TWO32
  {
  }

  /** Over any run the count is the initial one and all deltas, less all calls of `done`, in 32 bits. */
  lemma {:induction false} CountIsBalance(threads: nat, n: U32, run: seq<Action>)
    ensures Exec(Init(threads, n), run).count == Balance(threads, n, run) % TWO32
  {
    if run != [] {
      var pre, a, init := run[..|run| - 1], run[|run| - 1], Init(threads, n);
      CountIsBalance(threads, n, pre);
      StepCounts(Exec(init, pre), a);
      ModStep(Balance(threads, n, pre), Gives(Exec(init, pre), a) - Takes(Exec(init, pre), a));
      hide Next;
    }
  }

  /** Misuse is noted exactly when the balance leaves the range; until then the count is the balance itself. */
  lemma {:induction false} MisuseExact(threads: nat, n: U32, run: seq<Action>)
    ensures WellUsed(Exec(Init(threads, n), run)) <==> InRange(threads, n, run)
    ensures InRange(threads, n, run) ==> Exec(Init(threads, n), run).count == Balance(threads, n, run)
  {
    CountIsBalance(threads, n, run);
    assert run[..|run|] == run;
    if run != [] {
      var pre, a, init := run[..|run| - 1], run[|run| - 1], Init(threads, n);
      MisuseExact(threads, n, pre);
      StepCounts(Exec(init, pre), a);
      hide Next;
      RangeSnoc(threads, n, run);
    }
  }

  lemma {:induction false} RangeSnoc(threads: nat, n: U32, run: seq<Action>)
    requires run != []
    ensures InRange(threads, n, run) <==> InRange(threads, n, run[..|run| - 1]) && 0 <= Balance(threads, n, run) < TWO32
  {
    hide Balance;
    var pre := run[..|run| - 1];
    assert run[..|run|] == run;
    forall k | 0 <= k <= |pre| ensures pre[..k] == run[..k] {
    }
    if InRange(threads, n, run) {
      forall k | 0 <= k <= |pre| ensures 0 <= Balance(threads, n, pre[..k]) < TWO32 {
        assert pre[..k] == run[..k];
      }
    }
    if InRange(threads, n, pre) && 0 <= Balance(threads, n, run) < TWO32 {
      forall k | 0 <= k <= |run| ensures 0 <= Balance(threads, n, run[..k]) < TWO32 {
        if k < |run| {
          assert pre[..k] == run[..k];
        }
      }
    }
  }

  // ---------------------------------------------------------------- what a return of `wait` means

  /** A thread inside `wait` leaves it only through a moment at which the count is zero. */
  lemma {:induction false} ReturnsAfterZero(s: Group, run: seq<Action>, w: nat)
    requires w < |s.threads| && Waits(s.threads[w]) && !s.threads[w].Reset?
    requires !Waits(Exec(s, run).threads[w]) || Exec(s, run).threads[w].Reset?
    ensures exists k :: 0 <= k < |run| && Exec(s, run[..k]).count == 0
  {
    if run != [] {
      var n := |run| - 1;
      var t := Exec(s, run[..n]);
      if Waits(t.threads[w]) && !t.threads[w].Reset? {
        assert t.count == 0;
      } else {
        ReturnsAfterZero(s, run[..n], w);
        var k :| 0 <= k < n && Exec(s, run[..n][..k]).count == 0;
        assert run[..n][..k] == run[..k];
      }
    }
  }

  /** With no call past an end, that is a moment at which as many calls of `done` were made as members had been added. */
  lemma {:induction false} WaitJoins(threads: nat, n: U32, run: seq<Action>, more: seq<Action>, w: nat)
    requires w < threads && Exec(Init(threads, n), run).threads[w].Looking?
    requires Exec(Exec(Init(threads, n), run), more).threads[w].Returned? && InRange(threads, n, run + more)
    ensures exists k :: 0 <= k < |more| && Joined(threads, n, run + more[..k])
  {
    hide Next, Exec, Waits, Joined, InRange;
    var s := Exec(Init(threads, n), run);
    LookingWaits(s.threads[w], Exec(s, more).threads[w]);
    ReturnsAfterZero(s, more, w);
    var k :| 0 <= k < |more| && Exec(s, more[..k]).count == 0;
    ZeroIsJoined(threads, n, run, more, k);
  }

  lemma LookingWaits(pc: Pc, pc': Pc)
    requires pc.Looking? && pc'.Returned?
    ensures Waits(pc) && !pc.Reset? && !Waits(pc')
  {
  }

  lemma {:induction false} ZeroIsJoined(threads: nat, n: U32, run: seq<Action>, more: seq<Action>, k: nat)
    requires k <= |more| && Exec(Exec(Init(threads, n), run), more[..k]).count == 0 && InRange(threads, n, run + more)
    ensures Joined(threads, n, run + more[..k])
  {
    hide Next, Exec, Init;
    ExecAppend(Init(threads, n), run, more[..k]);
    CountIsBalance(threads, n, run + more[..k]);
    assert (run + more)[..|run| + k] == run + more[..k];
  }

  /** Everything added so far is done. */
  ghost predicate Joined(threads: nat, n: U32, run: seq<Action>) {
    n + Added(Init(threads, n), run) == Dones(Init(threads, n), run)
  }

  lemma {:induction false} ExecAppend(s: Group, run: seq<Action>, more: seq<Action>)
    ensures Exec(Exec(s, run), more) == Exec(s, run + more)
  {
    if more == [] {
      assert run + more == run;
    } else {
      ExecAppend(s, run, more[..|more| - 1]);
      assert (run + more)[..|run + more| - 1] == run + more[..|more| - 1];
    }
  }

  // ---------------------------------------------------------------- stranding

  /** Some `done` has brought the count to zero and not yet set the flag. */
  ghost predicate WillStore(s: Group) {
    exists d :: 0 <= d < |s.threads| && s.threads[d].DoneStore?
  }

  /** Some `done` has set the flag and not yet woken the sleepers. */
  ghost predicate WillWake(s: Group) {
    exists d :: 0 <= d < |s.threads| && s.threads[d].DoneWake?
  }

  /** Asleep with nothing to wait for, and nobody on the way to wake it. */
  ghost predicate Stranded(s: Group, w: nat) {
    w < |s.threads| && s.threads[w].Asleep? && s.count == 0 && !WillStore(s) && !WillWake(s)
  }

  /** Only thread w waits. */
  ghost predicate OneWaits(s: Group, w: nat) {
    forall o :: 0 <= o < |s.threads| && o != w ==> !Waits(s.threads[o])
  }

  ghost predicate Served(s: Group, w: nat)
    requires w < |s.threads|
  {
    s.count == 0 ==>
      && (s.threads[w].Futex? ==> s.flag || WillStore(s))
      && (s.threads[w].Asleep? ==> WillStore(s) || WillWake(s))
  }

  /** What a step may do to a thread that does not take it. */
  predicate Kept(pc: Pc, pc': Pc) {
    pc' == pc || (pc.Asleep? && pc'.Looking?)
  }

  lemma OthersKept(s: Group, a: Action)
    ensures forall o :: 0 <= o < |s.threads| && o != a.me ==> Kept(s.threads[o], Next(s, a).threads[o])
  {
  }

  lemma WaiterServes(s: Group, a: Action)
    requires a.me < |s.threads| && Served(s, a.me) && !Next(s, a).wrapped
    ensures Served(Next(s, a), a.me)
  {
    var s', w := Next(s, a), a.me;
    if s' != s && s'.threads[w].Asleep? {
      assert a.Step? && s.threads[w].Futex? && !s.flag && s' == Goto(s, w, Asleep);
      hide Next;
      if s.count == 0 {
        var d :| 0 <= d < |s.threads| && s.threads[d].DoneStore?;
        assert s'.threads[d].DoneStore?;
      }
    } else if s' != s && s'.threads[w].Futex? {
      assert s'.count > 0;
    }
  }

  /** What a step of another thread does to those the waiter counts on. */
  lemma OtherKeepsDoers(s: Group, a: Action, w: nat)
    requires w < |s.threads| && a.me < |s.threads| && a.me != w && !Waits(s.threads[a.me])
    ensures s.flag ==> Next(s, a).flag
    ensures WillStore(s) ==> WillStore(Next(s, a)) || (Next(s, a).flag && WillWake(Next(s, a)))
    ensures WillWake(s) ==> WillWake(Next(s, a)) || !Next(s, a).threads[w].Asleep?
  {
    var s' := Next(s, a);
    OthersKept(s, a);
    if WillStore(s) {
      var d :| 0 <= d < |s.threads| && s.threads[d].DoneStore?;
      assert if d == a.me && a.Step? then s'.threads[d].DoneWake? else s'.threads[d].DoneStore?;
    }
    if WillWake(s) {
      var d :| 0 <= d < |s.threads| && s.threads[d].DoneWake?;
      assert if d == a.me && a.Step? then !s'.threads[w].Asleep? else s'.threads[d].DoneWake?;
    }
  }

  lemma OtherCount(s: Group, a: Action)
    requires s.count > 0 && Next(s, a).count == 0 && !Next(s, a).wrapped
    ensures WillStore(Next(s, a))
  {
    assert Next(s, a).threads[a.me].DoneStore?;
  }

  lemma StepServes(s: Group, a: Action, w: nat)
    requires w < |s.threads| && OneWaits(s, w) && Served(s, w) && (a.Wait? && a.me < |s.threads| ==> a.me == w) && !Next(s, a).wrapped
    ensures OneWaits(Next(s, a), w) && Served(Next(s, a), w)
  {
    OthersKept(s, a);
    if a.me == w {
      WaiterServes(s, a);
    } else if a.me < |s.threads| {
      OtherKeepsDoers(s, a, w);
      if s.count > 0 && Next(s, a).count == 0 {
        OtherCount(s, a);
      }
      hide WillStore, WillWake;
    }
  }

  /** The calls of `wait` in the run are by threads of ws. */
  predicate WaitersIn(run: seq<Action>, ws: set<nat>) {
    forall i :: 0 <= i < |run| && run[i].Wait? ==> run[i].me in ws
  }

  /** Of the threads below n at most w is in ws. */
  predicate NoneBut(ws: set<nat>, n: nat, w: nat) {
    forall o :: o in ws && o < n ==> o == w
  }

  lemma {:induction false} OneWaiterServed(threads: nat, n: U32, run: seq<Action>, ws: set<nat>, w: nat)
    requires WaitersIn(run, ws) && NoneBut(ws, threads, w) && w < threads && !Exec(Init(threads, n), run).wrapped
    ensures var s := Exec(Init(threads, n), run); OneWaits(s, w) && Served(s, w)
  {
    if run != [] {
      var before := Exec(Init(threads, n), run[..|run| - 1]);
      assert !before.wrapped;
      OneWaiterServed(threads, n, run[..|run| - 1], ws, w);
      StepServes(before, run[|run| - 1], w);
    }
  }

  lemma {:induction false} NobodyWaits(threads: nat, n: U32, run: seq<Action>, ws: set<nat>)
    requires WaitersIn(run, ws) && forall o :: o in ws ==> o >= threads
    ensures forall o :: 0 <= o < threads ==> !Waits(Exec(Init(threads, n), run).threads[o])
  {
    if run != [] {
      var before := Exec(Init(threads, n), run[..|run| - 1]);
      NobodyWaits(threads, n, run[..|run| - 1], ws);
      OthersKept(before, run[|run| - 1]);
    }
  }

  /** A single waiter, whichever thread it is, is never stranded, over any number of rounds, whoever adds and whoever calls `done`. */
  lemma {:induction false} OneWaiterNeverStranded(threads: nat, n: U32, run: seq<Action>, ws: set<nat>, w: nat, o: nat)
    requires WaitersIn(run, ws) && NoneBut(ws, threads, w) && !Exec(Init(threads, n), run).wrapped
    ensures !Stranded(Exec(Init(threads, n), run), o)
  {
    if w < threads {
      OneWaiterServed(threads, n, run, ws, w);
    } else {
      NobodyWaits(threads, n, run, ws);
    }
  }

  /** In any run in which a `done` on its way gets to its end, there is a moment at which nobody is asleep. */
  lemma {:induction false} DoneWakes(s: Group, run: seq<Action>, d: nat)
    requires d < |s.threads| && (s.threads[d].DoneStore? || s.threads[d].DoneWake?)
    requires !Exec(s, run).threads[d].DoneStore? && !Exec(s, run).threads[d].DoneWake?
    ensures exists k :: 0 < k <= |run| && NobodyAsleep(Exec(s, run[..k]))
  {
    if run != [] {
      var n := |run| - 1;
      var t := Exec(s, run[..n]);
      if t.threads[d].DoneStore? || t.threads[d].DoneWake? {
        OthersKept(t, run[n]);
        assert NobodyAsleep(Next(t, run[n])) && run[..n + 1] == run;
      } else {
        DoneWakes(s, run[..n], d);
        var k :| 0 < k <= n && NobodyAsleep(Exec(s, run[..n][..k]));
        assert run[..n][..k] == run[..k];
      }
    }
  }

  ghost predicate NobodyAsleep(s: Group) {
    forall o :: 0 <= o < |s.threads| ==> !s.threads[o].Asleep?
  }

  lemma Play3(s: Group, a: Action, b: Action, c: Action)
    ensures Exec(s, [a, b, c]) == Next(Next(Next(s, a), b), c)
  {
    hide Next;
    assert [a, b, c] == [] + [a] + [b] + [c];
    ExecSnoc(s, [], a);
    ExecSnoc(s, [] + [a], b);
    ExecSnoc(s, [] + [a] + [b], c);
  }

  /** Nothing has gone wrong, everybody is idle, and one member is missing. */
  ghost predicate OneMissing(s: Group) {
    s.count == 1 && !s.flag && !s.wrapped && !s.stray && forall o :: 0 <= o < |s.threads| ==> s.threads[o] == Idle
  }

  /** Thread d brings the count of a fresh group to one. */
  lemma {:induction false} DownToOne(threads: nat, n: U32, d: nat) returns (run: seq<Action>)
    requires d < threads
    ensures WaitersIn(run, {}) && OneMissing(Exec(Init(threads, n), run)) && |Exec(Init(threads, n), run).threads| == threads
  {
    var s := Init(threads, n);
    run := [];
    if n == 0 {
      ExecSnoc(s, [], Add(d, 1));
      run := [] + [Add(d, 1)];
    } else {
      var left := n;
      while left > 1
        invariant 1 <= left <= n && WaitersIn(run, {})
        invariant OneMissing(Exec(s, run).(count := 1)) && Exec(s, run).count == left
      {
        ExecSnoc(s, run, Done(d));
        run := run + [Done(d)];
        left := left - 1;
      }
    }
  }

  /** Thread a is about to sleep when thread b is done, and b then waits as well. */
  lemma FirstHalf(s: Group, a: nat, b: nat) returns (run: seq<Action>)
    requires OneMissing(s) && a < |s.threads| && b < |s.threads| && a != b
    ensures WaitersIn(run, {a, b})
    ensures Exec(s, run) == s.(count := 0, flag := true, threads := s.threads[a := Futex][b := DoneWake])
  {
    var s1 := Next(Next(Next(s, Wait(a)), Step(a)), Done(b));
    assert s1 == s.(count := 0, threads := s.threads[a := Futex][b := DoneStore]);
    Play3(s, Wait(a), Step(a), Done(b));
    ExecSnoc(s, [Wait(a), Step(a), Done(b)], Step(b));
    run := [Wait(a), Step(a), Done(b)] + [Step(b)];
  }

  /** The flag is up and b is to wake the sleepers; b waits, returns and lowers the flag, and a goes to sleep on it. */
  lemma SecondHalf(s: Group, a: nat, b: nat) returns (run: seq<Action>)
    requires a < |s.threads| && b < |s.threads| && a != b && s.count == 0 && s.threads[a] == Futex && s.threads[b] == DoneWake
    requires forall o :: 0 <= o < |s.threads| && o != a && o != b ==> s.threads[o] == Idle
    ensures WaitersIn(run, {a, b})
    ensures Exec(s, run) == s.(flag := false, threads := s.threads[a := Asleep][b := Returned])
  {
    var s1 := s.(threads := s.threads[b := Idle]);
    assert Next(s, Step(b)).threads == s1.threads;
    Play3(s, Step(b), Wait(b), Step(b));
    var s2 := Exec(s, [Step(b), Wait(b), Step(b)]);
    assert s2 == s.(threads := s.threads[b := Reset]);
    hide Exec;
    ExecSnoc(s, [Step(b), Wait(b), Step(b)], Step(b));
    ExecSnoc(s, [Step(b), Wait(b), Step(b)] + [Step(b)], Step(a));
    run := [Step(b), Wait(b), Step(b)] + [Step(b)] + [Step(a)];
    assert s.threads[b := Reset][b := Returned][a := Asleep] == s.threads[a := Asleep][b := Returned];
  }

  /** Two threads are enough, whatever the group was made with: the one that was done last waits too, and resets the flag before the other sleeps. */
  lemma TwoWaitersStrand(threads: nat, n: U32, a: nat, b: nat) returns (run: seq<Action>)
    requires a < threads && b < threads && a != b
    ensures WaitersIn(run, {a, b}) && WellUsed(Exec(Init(threads, n), run)) && Stranded(Exec(Init(threads, n), run), a)
  {
    var s := Init(threads, n);
    var run0 := DownToOne(threads, n, b);
    var run1 := FirstHalf(Exec(s, run0), a, b);
    var run2 := SecondHalf(Exec(Exec(s, run0), run1), a, b);
    hide Next, Exec;
    ExecAppend(s, run0, run1);
    ExecAppend(s, run0 + run1, run2);
    run := run0 + run1 + run2;
  }

  /** No add went past 2^32 - 1 and no `done` below zero. */
  predicate WellUsed(s: Group) {
    !s.wrapped && !s.stray
  }

  /** Some well-behaved run in which only threads of ws wait strands one. */
  ghost predicate CanStrand(threads: nat, n: U32, ws: set<nat>) {
    exists run, o :: WaitersIn(run, ws) && WellUsed(Exec(Init(threads, n), run)) && Stranded(Exec(Init(threads, n), run), o)
  }

  ghost predicate TwoOf(ws: set<nat>, threads: nat) {
    exists a, b :: a in ws && b in ws && a < b < threads
  }

  /** A waiter can be stranded exactly when two threads or more wait, whatever the number of threads and members. */
  lemma StrandsIffTwoWait(threads: nat, n: U32, ws: set<nat>)
    ensures CanStrand(threads, n, ws) <==> TwoOf(ws, threads)
  {
    if TwoOf(ws, threads) {
      var a, b :| a in ws && b in ws && a < b < threads;
      var run := TwoWaitersStrand(threads, n, a, b);
      assert WaitersIn(run, ws);
    } else if CanStrand(threads, n, ws) {
      var run, o :| WaitersIn(run, ws) && WellUsed(Exec(Init(threads, n), run)) && Stranded(Exec(Init(threads, n), run), o);
      var w := if exists x :: x in ws && x < threads then var x :| x in ws && x < threads; x else threads;
      assert NoneBut(ws, threads, w);
      OneWaiterNeverStranded(threads, n, run, ws, w, o);
      assert false;
    }
  }

  /** And a stranded waiter stays so while the others only wait: no step of theirs ends it. */
  lemma {:induction false} StrandedStays(s: Group, more: seq<Action>, w: nat)
    requires Stranded(s, w)
    requires forall i :: 0 <= i < |more| ==> more[i].Wait? || more[i].Step? || (more[i].Spurious? && more[i].me != w)
    ensures Stranded(Exec(s, more), w)
  {
    if more != [] {
      StrandedStays(s, more[..|more| - 1], w);
    }
  }
}
