/**
 The source group as a step system over a wait group: any number of threads add sources and call `sum`, one step per
 access to a shared word. Its wait group is the one of `WaitGroups`, and its steps are that group's steps.
 */
module SourceGroups {
  import opened Words
  import opened Options
  import WG = WaitGroups

  /** How the user's function ends. */
  datatype Ending<V> = Returned(value: V) | Failed(message: string) | Panics

  datatype Outcome<V> = Data(value: V) | Error(message: string)

  datatype Call<V> = Call(key: string, result: Option<Outcome<V>>)

  /** What `add` stores. An error is stored in its printed form, which carries a prefix. */
  function Recorded<V>(e: Ending<V>): Outcome<V> {
    match e
    case Returned(v) => Data(v)
    case Failed(m) => Error("error: " + m)
    case Panics => Error("function of user panic")
  }

  datatype Pc<V> =
    | Idle
    | Calling(idx: U32, key: string)                 // index taken and checked: the user's function runs
    | WriteKey(idx: U32, key: string, out: Outcome<V>)
    | WriteResult(idx: U32, out: Outcome<V>)
    | CallDone(idx: U32)                             // before the first step of `wg.done`
    | FinishDone                                     // inside `wg.done`
    | Added
    | Refused                                        // no slot left: the assertion failed
    | Summing                                        // inside `wg.wait`
    | Summed

  /**
   History: `tickets` counts the calls of `add`; `asked` and `outs` hold, per slot, the key and the outcome of the
   `add` that took it; `finished` the slots whose `add` has counted itself done; `wgRun` the wait group's run.
   */
  datatype Group<V> = Group(
    calls: seq<Call<V>>,
    index: U32,
    wg: WG.Group,
    threads: seq<Pc<V>>,
    tickets: nat,
    asked: seq<string>,
    outs: map<nat, Outcome<V>>,
    finished: set<nat>,
    wgRun: seq<WG.Action>)

  datatype Action<V> =
    | StartAdd(me: nat, key: string)
    | Return(me: nat, ending: Ending<V>)
    | StartSum(me: nat)
    | Step(me: nat)
    | Spurious(me: nat)

  function Init<V>(threads: nat, n: U32): Group<V> {
    Group(seq(n, _ => Call("", None)), 0, WG.Init(threads, n), seq(threads, _ => Idle), 0, [], map[], {}, [])
  }

  predicate AtRest<V>(pc: Pc<V>) {
    pc.Idle? || pc.Added? || pc.Refused? || pc.Summed?
  }

  function Goto<V>(s: Group<V>, me: nat, pc: Pc<V>): Group<V>
    requires me < |s.threads|
  {
    s.(threads := s.threads[me := pc])
  }

  /** A step of the wait group. */
  function WgDo<V>(s: Group<V>, a: WG.Action): Group<V> {
    s.(wg := WG.Next(s.wg, a), wgRun := s.wgRun + [a])
  }

  /** The index is taken by `fetch_add`, in 32 bits, and only then checked against the number of slots. */
  function TakeIndex<V>(s: Group<V>, me: nat, key: string): Group<V>
    requires me < |s.threads|
  {
    Goto(s, me, if s.index < |s.calls| then Calling(s.index, key) else Refused)
    .(index := WrapAdd32(s.index, 1), tickets := s.tickets + 1, asked := if s.index < |s.calls| then s.asked + [key] else s.asked)
  }

  function Access<V>(s: Group<V>, me: nat): Group<V>
    requires me < |s.threads| == |s.wg.threads|
  {
    match s.threads[me]
    case WriteKey(idx, key, out) =>
      if idx >= |s.calls| then s
      else Goto(s, me, WriteResult(idx, out)).(calls := s.calls[idx := s.calls[idx].(key := key)])
    case WriteResult(idx, out) =>
      if idx >= |s.calls| then s
      else Goto(s, me, CallDone(idx)).(calls := s.calls[idx := s.calls[idx].(result := Some(out))], outs := s.outs[idx := out])
    case CallDone(idx) => Goto(WgDo(s, WG.Done(me)), me, FinishDone).(finished := s.finished + {idx as nat})
    case FinishDone => if WG.AtRest(s.wg.threads[me]) then Goto(s, me, Added) else WgDo(s, WG.Step(me))
    case Summing => if s.wg.threads[me].Returned? then Goto(s, me, Summed) else WgDo(s, WG.Step(me))
    case _ => s
  }

  function Next<V>(s: Group<V>, a: Action<V>): Group<V> {
    if a.me >= |s.threads| || |s.threads| != |s.wg.threads| then s else
    match a
    case StartAdd(me, key) => if AtRest(s.threads[me]) then TakeIndex(s, me, key) else s
    case Return(me, ending) =>
      if s.threads[me].Calling? then Goto(s, me, WriteKey(s.threads[me].idx, s.threads[me].key, Recorded(ending))) else s
    case StartSum(me) => if AtRest(s.threads[me]) then Goto(WgDo(s, WG.Wait(me)), me, Summing) else s
    case Step(me) => Access(s, me)
    case Spurious(me) => if s.threads[me].Summing? then WgDo(s, WG.Spurious(me)) else s
  }

  function Exec<V>(s: Group<V>, run: seq<Action<V>>): Group<V> {
    if run == [] then s else Next(Exec(s, run[..|run| - 1]), run[|run| - 1])
  }

  /** `get`'s scan: the first slot with the key, if any. */
  function FirstWith<V>(calls: seq<Call<V>>, key: string): (i: nat)
    ensures i <= |calls| && (i < |calls| ==> calls[i].key == key)
    ensures forall k :: 0 <= k < i ==> calls[k].key != key
  {
    if calls == [] || calls[0].key == key then 0 else 1 + FirstWith(calls[1..], key)
  }

  /** What `get` answers; None stands for reading a result that was never written. */
  function Got<V>(calls: seq<Call<V>>, key: string): Option<Outcome<V>> {
    var i := FirstWith(calls, key);
    if i < |calls| then calls[i].result else Some(Error("key doesn't exist"))
  }
}
