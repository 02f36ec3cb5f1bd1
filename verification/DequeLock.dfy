// The lock discipline of a thread-safe deque (deque.c) as a state machine. Any number of threads add
// and poll; a step is one action of one thread: taking or giving back the read-write lock, or one
// access to the shared size or list. A poll reads the size under the read lock, gives the lock back,
// and only later takes the write lock, so the list may have changed in between. The ghost log is the
// order in which the operations take effect.

module DequeLock {
  import opened Bytes
  import opened Values

  type Thread = nat

  datatype Side = First | Last

  /** Where a thread is in its operation. */
  datatype Pc =
    | Idle
    | AddWaiting(v: Value)                // before the write lock
    | AddLocked(v: Value)
    | AddCounted(v: Value)                // after size++
    | AddLinked                           // after the node is in the list
    | PollWaiting(side: Side)             // before the read lock of pgvictoria_deque_size
    | PollReading(side: Side)
    | PollRead(side: Side, size: nat)     // after reading the size
    | PollSized(side: Side, size: nat)    // after giving the read lock back
    | PollLocked(side: Side)              // after taking the write lock
    | PollEmpty                           // no node between the sentinels
    | PollUnlinked(v: Value)              // after the node is out of the list
    | PollCounted(v: Value)               // after size--

  datatype Event =
    | Added(who: Thread, v: Value)
    | Taken(who: Thread, side: Side, v: Value)
    | FoundEmpty(who: Thread, side: Side)

  datatype State = State(
    list: seq<Value>,
    size: nat,
    writer: Option<Thread>,
    readers: set<Thread>,
    pcs: map<Thread, Pc>,
    results: map<Thread, seq<Option<Value>>>,  // what a thread's polls have returned
    log: seq<Event>)

  datatype Action = CallAdd(v: Value) | CallPoll(side: Side) | Continue

  const Init := State([], 0, None, {}, map[], map[], [])

  function PcOf(s: State, t: Thread): Pc {
    if t in s.pcs then s.pcs[t] else Idle
  }

  function ResultsOf(s: State, t: Thread): seq<Option<Value>> {
    if t in s.results then s.results[t] else []
  }

  function Goto(s: State, t: Thread, pc: Pc): State {
    s.(pcs := s.pcs[t := pc])
  }

  function Return(s: State, t: Thread, r: Option<Value>): State {
    Goto(s.(results := s.results[t := ResultsOf(s, t) + [r]]), t, Idle)
  }

  /** One action of a thread; a thread that cannot get the lock stays where it is. */
  function Step(s: State, t: Thread, a: Action): State {
    match PcOf(s, t)
    case Idle =>
      (match a
       case CallAdd(v) => if v.vtype == VALUE_NONE then s else Goto(s, t, AddWaiting(v))
       case CallPoll(side) => Goto(s, t, PollWaiting(side))
       case Continue => s)
    case AddWaiting(v) =>
      if s.writer.None? && s.readers == {} then Goto(s.(writer := Some(t)), t, AddLocked(v)) else s
    case AddLocked(v) => Goto(s.(size := s.size + 1), t, AddCounted(v))
    case AddCounted(v) => Goto(s.(list := s.list + [v], log := s.log + [Added(t, v)]), t, AddLinked)
    case AddLinked => Goto(s.(writer := None), t, Idle)
    case PollWaiting(side) =>
      if s.writer.None? then Goto(s.(readers := s.readers + {t}), t, PollReading(side)) else s
    case PollReading(side) =>
      Goto(if s.size == 0 then s.(log := s.log + [FoundEmpty(t, side)]) else s, t, PollRead(side, s.size))
    case PollRead(side, n) => Goto(s.(readers := s.readers - {t}), t, PollSized(side, n))
    case PollSized(side, n) =>
      if n == 0 then Return(s, t, None)
      else if s.writer.None? && s.readers == {} then Goto(s.(writer := Some(t)), t, PollLocked(side))
      else s
    case PollLocked(side) =>
      if s.list == [] then Goto(s.(log := s.log + [FoundEmpty(t, side)]), t, PollEmpty)
      else
        var v := Item(s.list, side);
        Goto(s.(list := Others(s.list, side), log := s.log + [Taken(t, side, v)]), t, PollUnlinked(v))
    case PollEmpty => Return(s.(writer := None), t, None)
    case PollUnlinked(v) => Goto(s.(size := if s.size > 0 then s.size - 1 else 0), t, PollCounted(v))
    case PollCounted(v) => Return(s.(writer := None), t, Some(v))
  }

  function Item(list: seq<Value>, side: Side): Value
    requires list != []
  {
    if side == First then list[0] else list[|list| - 1]
  }

  function Others(list: seq<Value>, side: Side): seq<Value>
    requires list != []
  {
    if side == First then list[1..] else list[..|list| - 1]
  }

  /** A run: any threads, in any order. */
  function Run(s: State, schedule: seq<(Thread, Action)>): State
    decreases |schedule|
  {
    if schedule == [] then s
    else
      var before := Run(s, schedule[..|schedule| - 1]);
      Step(before, schedule[|schedule| - 1].0, schedule[|schedule| - 1].1)
  }

  // ----- what the log means: a sequential deque -----

  /** The list after the operations of a log, one after the other; none if a poll took a value that
      was not at its end of the list, or found a list empty that was not. */
  function Replay(log: seq<Event>): Option<seq<Value>> {
    if log == [] then Some([])
    else
      var list := Replay(log[..|log| - 1]);
      if list.None? then None else Apply(list.value, log[|log| - 1])
  }

  function Apply(list: seq<Value>, e: Event): Option<seq<Value>> {
    match e
    case Added(_, v) => Some(list + [v])
    case FoundEmpty(_, _) => if list == [] then Some([]) else None
    case Taken(_, First, v) => if list != [] && list[0] == v then Some(list[1..]) else None
    case Taken(_, Last, v) => if list != [] && list[|list| - 1] == v then Some(list[..|list| - 1]) else None
  }

  /** What the polls of one thread give, according to the log. */
  function Given(log: seq<Event>, t: Thread): seq<Option<Value>> {
    if log == [] then []
    else Given(log[..|log| - 1], t) + Gives(log[|log| - 1], t)
  }

  function Gives(e: Event, t: Thread): seq<Option<Value>> {
    if e.who != t || e.Added? then [] else if e.Taken? then [Some(e.v)] else [None]
  }

  /** The calls of one thread that have taken effect, in the order in which they did. */
  function CallsIn(log: seq<Event>, t: Thread): seq<Action> {
    if log == [] then []
    else CallsIn(log[..|log| - 1], t) + CallIn(log[|log| - 1], t)
  }

  function CallIn(e: Event, t: Thread): seq<Action> {
    if e.who != t then [] else if e.Added? then [CallAdd(e.v)] else [CallPoll(e.side)]
  }

  function AddedIn(log: seq<Event>): seq<Value> {
    if log == [] then []
    else AddedIn(log[..|log| - 1]) + OneAdded(log[|log| - 1])
  }

  function TakenIn(log: seq<Event>): seq<Value> {
    if log == [] then []
    else TakenIn(log[..|log| - 1]) + OneTaken(log[|log| - 1])
  }

  // ----- the invariant -----

  predicate Writes(pc: Pc) {
    pc.AddLocked? || pc.AddCounted? || pc.AddLinked? || pc.PollLocked? || pc.PollEmpty? || pc.PollUnlinked? || pc.PollCounted?
  }

  predicate Reads(pc: Pc) {
    pc.PollReading? || pc.PollRead?
  }

  /** What a thread has decided to return but not returned yet. */
  function Pending(pc: Pc): seq<Option<Value>> {
    match pc
    case PollRead(_, 0) => [None]
    case PollSized(_, 0) => [None]
    case PollEmpty => [None]
    case PollUnlinked(v) => [Some(v)]
    case PollCounted(v) => [Some(v)]
    case _ => []
  }

  /** How far the size is ahead of the list while a writer is at work. */
  function Ahead(pc: Pc): nat {
    if pc.AddCounted? || pc.PollUnlinked? then 1 else 0
  }

  ghost predicate LockInv(s: State) {
    && (forall t: Thread :: Writes(PcOf(s, t)) <==> s.writer == Some(t))
    && (forall t: Thread :: Reads(PcOf(s, t)) <==> t in s.readers)
    && (s.writer.Some? ==> s.readers == {})
  }

  ghost predicate SizeInv(s: State) {
    s.size == |s.list| + (if s.writer.Some? then Ahead(PcOf(s, s.writer.value)) else 0)
  }

  ghost predicate LogInv(s: State) {
    && Replay(s.log) == Some(s.list)
    && forall t: Thread :: Decided(s, t) == Given(s.log, t)
  }

  ghost predicate Inv(s: State) {
    LockInv(s) && SizeInv(s) && LogInv(s)
  }

  lemma LogGrows(log: seq<Event>, e: Event, list: seq<Value>, t: Thread)
    requires Replay(log) == Some(list)
    ensures Replay(log + [e]) == Apply(list, e)
    ensures Given(log + [e], t) == Given(log, t) + Gives(e, t)
  {
    assert (log + [e])[..|log|] == log;
  }

  lemma LockOwn(s: State, t: Thread, a: Action)
    requires LockInv(s)
    ensures var n := Step(s, t, a);
            && (Writes(PcOf(n, t)) <==> n.writer == Some(t)) && (Reads(PcOf(n, t)) <==> t in n.readers)
            && (n.writer.Some? ==> n.readers == {})
  {
    hide Item;
    hide Others;
    hide ResultsOf;
    assert Writes(PcOf(s, t)) <==> s.writer == Some(t);
    assert Reads(PcOf(s, t)) <==> t in s.readers;
  }

  lemma LockOther(s: State, t: Thread, a: Action, u: Thread)
    requires LockInv(s) && u != t
    ensures var n := Step(s, t, a);
            && PcOf(n, u) == PcOf(s, u) && (n.writer == Some(u) <==> s.writer == Some(u))
            && (u in n.readers <==> u in s.readers)
  {
    hide Item;
    hide Others;
    hide ResultsOf;
    assert Writes(PcOf(s, t)) <==> s.writer == Some(t);
    hide LockInv;
  }

  lemma StepKeepsLock(s: State, t: Thread, a: Action)
    requires LockInv(s)
    ensures LockInv(Step(s, t, a))
  {
    hide Step;
    hide PcOf;
    var n := Step(s, t, a);
    LockOwn(s, t, a);
    forall u: Thread ensures (Writes(PcOf(n, u)) <==> n.writer == Some(u)) && (Reads(PcOf(n, u)) <==> u in n.readers) {
      if u != t { LockOther(s, t, a, u); }
    }
  }

  lemma StepKeepsSize(s: State, t: Thread, a: Action)
    requires LockInv(s) && SizeInv(s)
    ensures SizeInv(Step(s, t, a))
  {
    assert Writes(PcOf(s, t)) <==> s.writer == Some(t);
  }

  /** What a step adds to the log. */
  function Logs(s: State, t: Thread): seq<Event> {
    match PcOf(s, t)
    case AddCounted(v) => [Added(t, v)]
    case PollReading(side) => if s.size == 0 then [FoundEmpty(t, side)] else []
    case PollLocked(side) => if s.list == [] then [FoundEmpty(t, side)] else [Taken(t, side, Item(s.list, side))]
    case _ => []
  }

  lemma StepLogs(s: State, t: Thread, a: Action)
    requires LockInv(s) && SizeInv(s)
    ensures Logs(s, t) == [] ==> Step(s, t, a).list == s.list && Step(s, t, a).log == s.log
    ensures Logs(s, t) != [] ==>
              && Logs(s, t)[0].who == t && Step(s, t, a).log == s.log + [Logs(s, t)[0]]
              && Apply(s.list, Logs(s, t)[0]) == Some(Step(s, t, a).list)
  {
    assert Reads(PcOf(s, t)) <==> t in s.readers;
  }

  /** What a thread's polls have returned or will return, as far as it is decided. */
  function Decided(s: State, t: Thread): seq<Option<Value>> {
    ResultsOf(s, t) + Pending(PcOf(s, t))
  }

  /** What a step adds to the results of its thread. */
  function Returns(pc: Pc): seq<Option<Value>> {
    match pc
    case PollSized(_, 0) => [None]
    case PollEmpty => [None]
    case PollCounted(v) => [Some(v)]
    case _ => []
  }

  lemma StepReturns(s: State, t: Thread, a: Action)
    ensures ResultsOf(Step(s, t, a), t) == ResultsOf(s, t) + Returns(PcOf(s, t))
  {
    hide PcOf;
    hide Item;
    hide Others;
  }

  lemma StepDecides(s: State, t: Thread, a: Action)
    ensures Returns(PcOf(s, t)) + Pending(PcOf(Step(s, t, a), t)) ==
            Pending(PcOf(s, t)) + if Logs(s, t) == [] then [] else Gives(Logs(s, t)[0], t)
  {
    hide ResultsOf;
    hide Item;
    hide Others;
  }

  lemma StepGives(s: State, t: Thread, a: Action)
    ensures Logs(s, t) == [] ==> Decided(Step(s, t, a), t) == Decided(s, t)
    ensures Logs(s, t) != [] ==> Decided(Step(s, t, a), t) == Decided(s, t) + Gives(Logs(s, t)[0], t)
  {
    hide Step;
    hide PcOf;
    hide ResultsOf;
    hide Returns;
    hide Pending;
    hide Logs;
    hide Gives;
    StepReturns(s, t, a);
    StepDecides(s, t, a);
    var results, returned := ResultsOf(s, t), Returns(PcOf(s, t));
    var pending, after := Pending(PcOf(s, t)), Pending(PcOf(Step(s, t, a), t));
    var given := if Logs(s, t) == [] then [] else Gives(Logs(s, t)[0], t);
    assert (results + returned) + after == results + (returned + after);
    assert (results + pending) + given == results + (pending + given);
  }

  lemma StepOthers(s: State, t: Thread, a: Action, u: Thread)
    requires u != t
    ensures Decided(Step(s, t, a), u) == Decided(s, u) && PcOf(Step(s, t, a), u) == PcOf(s, u)
  {
    hide Pending;
    hide Item;
    hide Others;
    hide ResultsOf;
    OtherResults(s, t, a, u);
    assert PcOf(Step(s, t, a), u) == PcOf(s, u);
  }

  lemma OtherResults(s: State, t: Thread, a: Action, u: Thread)
    requires u != t
    ensures ResultsOf(Step(s, t, a), u) == ResultsOf(s, u)
  {
    hide PcOf;
    hide Item;
    hide Others;
  }

  lemma StepKeepsLog(s: State, t: Thread, a: Action)
    requires Inv(s)
    ensures LogInv(Step(s, t, a))
  {
    hide Step;
    hide Logs;
    hide Replay;
    hide Given;
    hide Apply;
    hide Decided;
    hide LockInv;
    hide SizeInv;
    StepLogs(s, t, a);
    var n := Step(s, t, a);
    forall u: Thread ensures Decided(n, u) == Given(n.log, u) {
      if Logs(s, t) != [] {
        LogGrows(s.log, Logs(s, t)[0], s.list, u);
      }
      if u == t { StepGives(s, t, a); } else { StepOthers(s, t, a, u); }
    }
    if Logs(s, t) != [] {
      LogGrows(s.log, Logs(s, t)[0], s.list, t);
    }
  }

  lemma StepKeeps(s: State, t: Thread, a: Action)
    requires Inv(s)
    ensures Inv(Step(s, t, a))
  {
    hide Step;
    hide LockInv;
    hide SizeInv;
    hide LogInv;
    StepKeepsLock(s, t, a);
    StepKeepsSize(s, t, a);
    StepKeepsLog(s, t, a);
  }

  lemma {:induction false} RunKeeps(schedule: seq<(Thread, Action)>)
    ensures Inv(Run(Init, schedule))
    decreases |schedule|
  {
    if schedule != [] {
      hide Step;
      hide Inv;
      var k := |schedule| - 1;
      RunKeeps(schedule[..k]);
      StepKeeps(Run(Init, schedule[..k]), schedule[k].0, schedule[k].1);
    }
  }

  // ----- what the threads asked for -----

  /** The calls one thread has made in a run, in its program order: a thread calls when it is idle, and
      a call to add a value without a type is none. */
  function Asked(schedule: seq<(Thread, Action)>, t: Thread): seq<Action>
    decreases |schedule|
  {
    if schedule == [] then []
    else
      var k := |schedule| - 1;
      Asked(schedule[..k], t) + Asks(Run(Init, schedule[..k]), schedule[k].0, schedule[k].1, t)
  }

  function Asks(s: State, t: Thread, a: Action, u: Thread): seq<Action> {
    if u == t && PcOf(s, t) == Idle && a != Continue && !(a.CallAdd? && a.v.vtype == VALUE_NONE) then [a] else []
  }

  /** The call a thread is in, as long as it has not taken effect. */
  function Open(pc: Pc): seq<Action> {
    match pc
    case AddWaiting(v) => [CallAdd(v)]
    case AddLocked(v) => [CallAdd(v)]
    case AddCounted(v) => [CallAdd(v)]
    case PollWaiting(side) => [CallPoll(side)]
    case PollReading(side) => [CallPoll(side)]
    case PollRead(side, n) => if n == 0 then [] else [CallPoll(side)]
    case PollSized(side, n) => if n == 0 then [] else [CallPoll(side)]
    case PollLocked(side) => [CallPoll(side)]
    case _ => []
  }

  lemma StepLog(s: State, t: Thread, a: Action)
    ensures Step(s, t, a).log == s.log + Logs(s, t) && |Logs(s, t)| <= 1
    ensures Logs(s, t) != [] ==> Logs(s, t)[0].who == t
  {
    hide PcOf;
    hide ResultsOf;
    hide Item;
    hide Others;
  }

  lemma CallsGrow(log: seq<Event>, more: seq<Event>, t: Thread)
    requires |more| <= 1
    ensures CallsIn(log + more, t) == CallsIn(log, t) + if more == [] then [] else CallIn(more[0], t)
  {
    if more == [] {
      assert log + more == log;
    } else {
      assert (log + more)[..|log|] == log;
    }
  }

  lemma StepOpens(s: State, t: Thread, a: Action)
    ensures (if Logs(s, t) == [] then [] else CallIn(Logs(s, t)[0], t)) + Open(PcOf(Step(s, t, a), t)) ==
            Open(PcOf(s, t)) + Asks(s, t, a, t)
  {
    hide ResultsOf;
    hide Item;
    hide Others;
  }

  /** One step of one thread: for every thread, the calls that have taken effect and the one it is in
      grow by what it calls. */
  lemma StepAsks(s: State, t: Thread, a: Action, u: Thread)
    ensures var n := Step(s, t, a);
            CallsIn(n.log, u) + Open(PcOf(n, u)) == CallsIn(s.log, u) + Open(PcOf(s, u)) + Asks(s, t, a, u)
  {
    hide Step;
    hide Logs;
    hide Open;
    hide CallsIn;
    hide PcOf;
    StepLog(s, t, a);
    CallsGrow(s.log, Logs(s, t), u);
    if u == t {
      StepOpens(s, t, a);
      Regroup(CallsIn(s.log, u), if Logs(s, t) == [] then [] else CallIn(Logs(s, t)[0], u),
              Open(PcOf(Step(s, t, a), u)), Open(PcOf(s, u)), Asks(s, t, a, u));
    } else {
      StepOthers(s, t, a, u);
      assert CallsIn(s.log, u) + [] == CallsIn(s.log, u);
    }
  }

  lemma Regroup(calls: seq<Action>, a: seq<Action>, b: seq<Action>, c: seq<Action>, d: seq<Action>)
    requires a + b == c + d
    ensures calls + a + b == calls + c + d
  {
    assert calls + a + b == calls + (a + b);
    assert calls + c + d == calls + (c + d);
  }

  lemma {:induction false} RunAsks(schedule: seq<(Thread, Action)>, t: Thread)
    ensures var s := Run(Init, schedule);
            CallsIn(s.log, t) + Open(PcOf(s, t)) == Asked(schedule, t)
    decreases |schedule|
  {
    if schedule != [] {
      hide Step;
      hide Open;
      hide CallsIn;
      hide Asks;
      var k := |schedule| - 1;
      RunAsks(schedule[..k], t);
      StepAsks(Run(Init, schedule[..k]), schedule[k].0, schedule[k].1, t);
    }
  }

  // ----- what the invariant means -----

  lemma {:induction false} ReplayConserves(log: seq<Event>)
    requires Replay(log).Some?
    ensures multiset(AddedIn(log)) == multiset(Replay(log).value) + multiset(TakenIn(log))
    decreases |log|
  {
    if log != [] {
      var k := |log| - 1;
      var before := log[..k];
      ReplayConserves(before);
      Unfolded(log);
      hide Replay;
      hide Apply;
      hide AddedIn;
      hide TakenIn;
      ApplyConserves(Replay(before).value, log[k]);
      Balance(multiset(AddedIn(before)), multiset(Replay(before).value), multiset(TakenIn(before)),
              multiset(OneAdded(log[k])), multiset(OneTaken(log[k])), multiset(Replay(log).value));
    }
  }

  function OneAdded(e: Event): seq<Value> { if e.Added? then [e.v] else [] }

  function OneTaken(e: Event): seq<Value> { if e.Taken? then [e.v] else [] }

  lemma Unfolded(log: seq<Event>)
    requires log != [] && Replay(log).Some?
    ensures var before, e := log[..|log| - 1], log[|log| - 1];
            && Replay(before).Some? && Replay(log) == Apply(Replay(before).value, e)
            && multiset(AddedIn(log)) == multiset(AddedIn(before)) + multiset(OneAdded(e))
            && multiset(TakenIn(log)) == multiset(TakenIn(before)) + multiset(OneTaken(e))
  {
    hide Apply;
  }

  lemma Balance(a: multiset<Value>, l: multiset<Value>, t: multiset<Value>, x: multiset<Value>, y: multiset<Value>, m: multiset<Value>)
    requires a == l + t && l + x == m + y
    ensures a + x == m + (t + y)
  {
    assert a + x == l + x + t;
  }

  lemma ApplyConserves(list: seq<Value>, e: Event)
    requires Apply(list, e).Some?
    ensures multiset(list) + multiset(OneAdded(e)) == multiset(Apply(list, e).value) + multiset(OneTaken(e))
  {
    if e.Taken? {
      var k := |list| - 1;
      assert list == [list[0]] + list[1..] && list == list[..k] + [list[k]];
    }
  }

  /** In every run of any number of threads: the operations take effect one after the other as they
      would on a sequential deque; in this order every thread's calls, adds and polls alike, stand in
      its program order, each once, up to the call it is in, and the values added are those it asked
      to add; what a thread's polls have returned is what this order gives them; no value added is lost
      and none is taken more often than it was added; and whenever no thread holds the write lock the
      size is the length of the list, so also whenever a thread reads the size. */
  lemma EveryRun(schedule: seq<(Thread, Action)>, t: Thread)
    ensures var s := Run(Init, schedule);
            && Replay(s.log) == Some(s.list)
            && CallsIn(s.log, t) + Open(PcOf(s, t)) == Asked(schedule, t)
            && (PcOf(s, t) == Idle ==> CallsIn(s.log, t) == Asked(schedule, t))
            && ResultsOf(s, t) <= Given(s.log, t)
            && (PcOf(s, t) == Idle ==> ResultsOf(s, t) == Given(s.log, t))
            && multiset(AddedIn(s.log)) == multiset(s.list) + multiset(TakenIn(s.log))
            && (s.writer.None? ==> s.size == |s.list|)
            && (PcOf(s, t).PollReading? ==> s.size == |s.list|)
  {
    RunKeeps(schedule);
    RunAsks(schedule, t);
    hide Run;
    hide Replay;
    hide Given;
    hide CallsIn;
    hide Asked;
    var s := Run(Init, schedule);
    ReplayConserves(s.log);
    assert Reads(PcOf(s, t)) <==> t in s.readers;
    assert Decided(s, t) == Given(s.log, t);
    if PcOf(s, t) == Idle {
      assert ResultsOf(s, t) + [] == ResultsOf(s, t);
    }
  }
}
