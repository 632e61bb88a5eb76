/** Deadlock freedom of the gateway's mutexes, for any number of threads. */
module LockOrder {

  /** A critical section and those nested in it, in order. */
  datatype Section<M> = Section(m: M, body: seq<Section<M>>)

  datatype Action<M> = Acquire(m: M) | Release(m: M)

  datatype Thread<M> = Thread(held: set<M>, rest: seq<Action<M>>)

  /** The locking and unlocking done by a sequence of sections. */
  function Flatten<M>(ss: seq<Section<M>>): seq<Action<M>> {
    if ss == [] then [] else [Acquire(ss[0].m)] + Flatten(ss[0].body) + [Release(ss[0].m)] + Flatten(ss[1..])
  }

  /** Sections nest only as `nest` allows. */
  ghost predicate Obeys<M>(nest: (M, M) -> bool, ss: seq<Section<M>>) {
    ss != [] ==>
      && Obeys(nest, ss[0].body)
      && (forall s <- ss[0].body :: nest(ss[0].m, s.m))
      && Obeys(nest, ss[1..])
  }

  /** The rank goes up along every permitted nesting. */
  ghost predicate Consistent<M(!new)>(nest: (M, M) -> bool, rank: M -> nat) {
    forall a, b :: nest(a, b) ==> rank(a) < rank(b)
  }

  // ---------- threads ----------

  datatype Step<M> = Begin(t: nat, program: seq<Section<M>>) | Advance(t: nat)

  ghost predicate Blocks<M>(s: seq<Thread<M>>, t: nat, u: nat) {
    t < |s| && u < |s| && s[t].rest != [] && s[t].rest[0].Acquire? && s[t].rest[0].m in s[u].held
  }

  /** A thread outside any program may start one; one inside goes on unless its next mutex is taken. */
  ghost predicate CanStep<M>(s: seq<Thread<M>>, t: nat) {
    t < |s| && forall u: nat :: !Blocks(s, t, u)
  }

  ghost function Next<M>(nest: (M, M) -> bool, s: seq<Thread<M>>, step: Step<M>): (r: seq<Thread<M>>)
    ensures |r| == |s|
  {
    match step
    case Begin(t, program) =>
      if t < |s| && s[t].rest == [] && Obeys(nest, program) then s[t := s[t].(rest := Flatten(program))] else s
    case Advance(t) =>
      if !CanStep(s, t) || s[t].rest == [] then s
      else match s[t].rest[0]
           case Acquire(m) => s[t := Thread(s[t].held + {m}, s[t].rest[1..])]
           case Release(m) => s[t := Thread(s[t].held - {m}, s[t].rest[1..])]
  }

  /** `count` threads after an interleaving. */
  ghost function Reached<M>(nest: (M, M) -> bool, count: nat, steps: seq<Step<M>>): (s: seq<Thread<M>>)
    ensures |s| == count
  {
    if steps == [] then seq(count, _ => Thread({}, []))
    else Next(nest, Reached(nest, count, steps[..|steps| - 1]), steps[|steps| - 1])
  }

  // ---------- what a program promises ----------

  ghost predicate Above<M>(rank: M -> nat, held: set<M>, m: M) {
    forall h <- held :: rank(h) < rank(m)
  }

  /** From `held` on, every mutex is acquired above all those held, and none is left in the end. */
  ghost predicate Orderly<M>(rank: M -> nat, held: set<M>, acts: seq<Action<M>>, left: set<M>)
    decreases |acts|
  {
    if acts == [] then held == left
    else match acts[0]
         case Acquire(m) => Above(rank, held, m) && Orderly(rank, held + {m}, acts[1..], left)
         case Release(m) => m in held && Orderly(rank, held - {m}, acts[1..], left)
  }

  lemma {:induction false} OrderlyAppend<M>(rank: M -> nat, held: set<M>, a: seq<Action<M>>, mid: set<M>, b: seq<Action<M>>, left: set<M>)
    requires Orderly(rank, held, a, mid) && Orderly(rank, mid, b, left)
    ensures Orderly(rank, held, a + b, left)
    decreases |a|
  {
    if a == [] {
      assert a + b == b;
    } else {
      assert (a + b)[0] == a[0] && (a + b)[1..] == a[1..] + b;
      var next := if a[0].Acquire? then held + {a[0].m} else held - {a[0].m};
      OrderlyAppend(rank, next, a[1..], mid, b, left);
    }
  }

  /** One section, given that what stands in it and what follows it is orderly. */
  lemma SectionIsOrderly<M>(rank: M -> nat, held: set<M>, m: M, inside: seq<Action<M>>, behind: seq<Action<M>>)
    requires m !in held && Above(rank, held, m)
    requires Orderly(rank, held + {m}, inside, held + {m}) && Orderly(rank, held, behind, held)
    ensures Orderly(rank, held, [Acquire(m)] + inside + [Release(m)] + behind, held)
  {
    assert held + {m} - {m} == held;
    var tail := [Release(m)] + behind;
    assert tail[1..] == behind && Orderly(rank, held + {m}, tail, held);
    OrderlyAppend(rank, held + {m}, inside, held + {m}, tail, held);
    var all := [Acquire(m)] + (inside + tail);
    assert all[1..] == inside + tail;
    assert [Acquire(m)] + inside + [Release(m)] + behind == all;
  }

  lemma {:induction false} NestedIsOrderly<M(!new)>(nest: (M, M) -> bool, rank: M -> nat, held: set<M>, ss: seq<Section<M>>)
    requires Consistent(nest, rank) && Obeys(nest, ss) && forall s <- ss :: Above(rank, held, s.m)
    ensures Orderly(rank, held, Flatten(ss), held)
    decreases ss
  {
    if ss != [] {
      hide Orderly;
      var m, body := ss[0].m, ss[0].body;
      assert ss[0] in ss;
      assert m !in held;
      NestedIsOrderly(nest, rank, held + {m}, body);
      NestedIsOrderly(nest, rank, held, ss[1..]);
      SectionIsOrderly(rank, held, m, Flatten(body), Flatten(ss[1..]));
    }
  }

  // ---------- every interleaving ----------

  ghost predicate Inv<M(!new)>(rank: M -> nat, s: seq<Thread<M>>) {
    && (forall t :: 0 <= t < |s| ==> Orderly(rank, s[t].held, s[t].rest, {}))
    && (forall t, u :: 0 <= t < u < |s| ==> s[t].held !! s[u].held)
  }

  lemma StepKeeps<M(!new)>(nest: (M, M) -> bool, rank: M -> nat, s: seq<Thread<M>>, step: Step<M>)
    requires Consistent(nest, rank) && Inv(rank, s)
    ensures Inv(rank, Next(nest, s, step))
  {
    hide Flatten, Consistent, Obeys;
    match step
    case Begin(t, program) =>
      if t < |s| && s[t].rest == [] && Obeys(nest, program) {
        assert Orderly(rank, s[t].held, [], {});
        NestedIsOrderly(nest, rank, {}, program);
      }
    case Advance(t) =>
      if CanStep(s, t) && s[t].rest != [] && s[t].rest[0].Acquire? {
        forall u: nat | u < |s|
          ensures s[t].rest[0].m !in s[u].held
        {
          assert !Blocks(s, t, u);
        }
      }
  }

  lemma {:induction false} EveryInterleaving<M(!new)>(nest: (M, M) -> bool, rank: M -> nat, count: nat, steps: seq<Step<M>>)
    requires Consistent(nest, rank)
    ensures Inv(rank, Reached(nest, count, steps))
    decreases |steps|
  {
    if steps != [] {
      EveryInterleaving(nest, rank, count, steps[..|steps| - 1]);
      StepKeeps(nest, rank, Reached(nest, count, steps[..|steps| - 1]), steps[|steps| - 1]);
    }
  }

  /** No mutex is ever held by two threads. */
  lemma MutualExclusion<M(!new)>(nest: (M, M) -> bool, rank: M -> nat, count: nat, steps: seq<Step<M>>, t: nat, u: nat)
    requires Consistent(nest, rank) && t < count && u < count && t != u
    ensures Reached(nest, count, steps)[t].held !! Reached(nest, count, steps)[u].held
  {
    hide Reached, Consistent;
    EveryInterleaving(nest, rank, count, steps);
  }

  /** The rank of the mutex a thread is about to take. */
  function WantedRank<M>(rank: M -> nat, s: seq<Thread<M>>, t: nat): nat {
    if t < |s| && s[t].rest != [] then rank(s[t].rest[0].m) else 0
  }

  /** Waiting goes strictly upwards in rank. */
  lemma WaitsUpwards<M(!new)>(rank: M -> nat, s: seq<Thread<M>>, t: nat, u: nat, v: nat)
    requires Inv(rank, s) && Blocks(s, t, u) && Blocks(s, u, v)
    ensures WantedRank(rank, s, t) < WantedRank(rank, s, u)
  {
    assert Orderly(rank, s[u].held, s[u].rest, {});
  }

  /** Threads each of which is blocked by the next, and the last by the first. */
  ghost predicate WaitCycle<M>(s: seq<Thread<M>>, cycle: seq<nat>) {
    cycle != [] && forall i :: 0 <= i < |cycle| ==> Blocks(s, cycle[i], cycle[Behind(i, |cycle|)])
  }

  function Behind(i: nat, n: nat): (j: nat)
    requires i < n
    ensures j < n
  {
    if i + 1 < n then i + 1 else 0
  }

  lemma {:induction false} RanksClimb<M(!new)>(rank: M -> nat, s: seq<Thread<M>>, cycle: seq<nat>, i: nat)
    requires Inv(rank, s) && WaitCycle(s, cycle) && i < |cycle|
    ensures WantedRank(rank, s, cycle[i]) >= WantedRank(rank, s, cycle[0]) + i
  {
    if i > 0 {
      RanksClimb(rank, s, cycle, i - 1);
      assert Blocks(s, cycle[i - 1], cycle[Behind(i - 1, |cycle|)]);
      WaitsUpwards(rank, s, cycle[i - 1], cycle[i], cycle[Behind(i, |cycle|)]);
    }
  }

  /** Any number of threads, any interleaving: no threads wait for each other in a circle. */
  lemma NoWaitCycle<M(!new)>(nest: (M, M) -> bool, rank: M -> nat, count: nat, steps: seq<Step<M>>, cycle: seq<nat>)
    requires Consistent(nest, rank)
    ensures !WaitCycle(Reached(nest, count, steps), cycle)
  {
    hide Reached, Consistent, Inv;
    var s := Reached(nest, count, steps);
    EveryInterleaving(nest, rank, count, steps);
    if WaitCycle(s, cycle) {
      var last := |cycle| - 1;
      RanksClimb(rank, s, cycle, last);
      assert Blocks(s, cycle[last], cycle[Behind(last, |cycle|)]);
      WaitsUpwards(rank, s, cycle[last], cycle[0], cycle[Behind(0, |cycle|)]);
    }
  }

  /** A chain of threads, each blocked by the next. */
  ghost predicate WaitChain<M>(s: seq<Thread<M>>, chain: seq<nat>) {
    forall i :: 0 < i < |chain| ==> Blocks(s, chain[i - 1], chain[i])
  }

  /** Following whoever blocks `t` leads to a thread that can take its next step. */
  ghost predicate LeadsToRunner<M>(s: seq<Thread<M>>, t: nat) {
    exists chain :: WaitChain(s, chain) && chain != [] && chain[0] == t && CanStep(s, chain[|chain| - 1])
  }

  lemma {:induction false} ChainToRunner<M(!new)>(rank: M -> nat, top: nat, s: seq<Thread<M>>, t: nat)
    requires Inv(rank, s) && t < |s| && forall m :: rank(m) <= top
    ensures LeadsToRunner(s, t)
    decreases if CanStep(s, t) then 0 else 1 + top - WantedRank(rank, s, t)
  {
    if CanStep(s, t) {
      assert WaitChain(s, [t]) && [t][0] == t;
    } else {
      var u: nat :| Blocks(s, t, u);
      if !CanStep(s, u) {
        var v: nat :| Blocks(s, u, v);
        WaitsUpwards(rank, s, t, u, v);
      }
      ChainToRunner(rank, top, s, u);
      var tail :| WaitChain(s, tail) && tail != [] && tail[0] == u && CanStep(s, tail[|tail| - 1]);
      var chain := [t] + tail;
      forall i | 0 < i < |chain|
        ensures Blocks(s, chain[i - 1], chain[i])
      {
        if i > 1 {
          assert Blocks(s, tail[i - 2], tail[i - 1]);
        }
      }
      assert WaitChain(s, chain) && chain[|chain| - 1] == tail[|tail| - 1];
    }
  }

  // ---------- everybody can finish ----------

  /** How many actions all threads together have left. */
  function Work<M>(s: seq<Thread<M>>): nat {
    if s == [] then 0 else Work(s[..|s| - 1]) + |s[|s| - 1].rest|
  }

  lemma {:induction false} WorkLess<M>(s: seq<Thread<M>>, t: nat, u: Thread<M>)
    requires t < |s| && |u.rest| < |s[t].rest|
    ensures Work(s[t := u]) < Work(s)
    decreases |s|
  {
    var n := |s| - 1;
    if t < n {
      assert s[t := u][..n] == s[..n][t := u];
      WorkLess(s[..n], t, u);
    } else {
      assert s[t := u][..n] == s[..n];
    }
  }

  /** While anybody is inside a program, somebody inside a program can take the next action. */
  lemma SomebodyRuns<M(!new)>(rank: M -> nat, top: nat, s: seq<Thread<M>>, t: nat) returns (u: nat)
    requires Inv(rank, s) && t < |s| && s[t].rest != [] && forall m :: rank(m) <= top
    ensures u < |s| && CanStep(s, u) && s[u].rest != []
  {
    hide CanStep;
    ChainToRunner(rank, top, s, t);
    var chain :| WaitChain(s, chain) && chain != [] && chain[0] == t && CanStep(s, chain[|chain| - 1]);
    u := chain[|chain| - 1];
    if |chain| > 1 {
      assert Blocks(s, chain[|chain| - 2], chain[|chain| - 1]);
      assert Orderly(rank, s[u].held, s[u].rest, {});
    }
    InRange(s, u);
  }

  lemma InRange<M>(s: seq<Thread<M>>, u: nat)
    requires CanStep(s, u)
    ensures u < |s|
  {
  }

  lemma AdvanceWorks<M(!new)>(nest: (M, M) -> bool, s: seq<Thread<M>>, u: nat)
    requires u < |s| && CanStep(s, u) && s[u].rest != []
    ensures Work(Next(nest, s, Advance(u))) < Work(s)
  {
    var v := Next(nest, s, Step<M>.Advance(u))[u];
    assert Next(nest, s, Step<M>.Advance(u)) == s[u := v];
    WorkLess(s, u, v);
  }

  /** From every reachable state, whoever may have started what, the threads can go on until each of them is
      through its program and no mutex is held. */
  lemma {:induction false} EverybodyCanFinish<M(!new)>(nest: (M, M) -> bool, rank: M -> nat, top: nat, count: nat, steps: seq<Step<M>>)
    returns (more: seq<Step<M>>)
    requires Consistent(nest, rank) && forall m :: rank(m) <= top
    ensures forall t :: 0 <= t < count ==> Reached(nest, count, steps + more)[t] == Thread({}, [])
    ensures forall step <- more :: step.Advance?
    decreases Work(Reached(nest, count, steps))
  {
    hide Reached, Consistent, CanStep, Next;
    var s := Reached(nest, count, steps);
    EveryInterleaving(nest, rank, count, steps);
    if t: nat :| t < count && s[t].rest != [] {
      var u := SomebodyRuns(rank, top, s, t);
      AdvanceWorks(nest, s, u);
      ReachedMore(nest, count, steps, Step<M>.Advance(u));
      var rest := EverybodyCanFinish(nest, rank, top, count, steps + [Step<M>.Advance(u)]);
      more := [Step<M>.Advance(u)] + rest;
      assert (steps + [Step<M>.Advance(u)]) + rest == steps + more;
    } else {
      more := [];
      assert steps + more == steps;
      forall t | 0 <= t < count
        ensures s[t] == Thread({}, [])
      {
        assert Orderly(rank, s[t].held, s[t].rest, {});
      }
    }
  }

  lemma ReachedMore<M>(nest: (M, M) -> bool, count: nat, steps: seq<Step<M>>, step: Step<M>)
    ensures Reached(nest, count, steps + [step]) == Next(nest, Reached(nest, count, steps), step)
  {
    assert (steps + [step])[..|steps|] == steps;
  }

  // ---------- the gateway ----------

  datatype Mutex = DownloadProcess | BufferQuery | Packet | Upload | State | Download
                 | Config | Gate | GroupId | Wake(ch: nat) | CanWrite(ch: nat) | Counter | Event | TcpBuffer

  /** Which mutex the program takes while it holds which. */
  predicate MayNest(outer: Mutex, inner: Mutex) {
    match outer
    case DownloadProcess => inner in {Download, State, Event}
    case BufferQuery => inner == State
    case State => inner in {Config, Gate, GroupId} || inner.Wake?
    case Packet => inner in {Upload, Event} || inner.CanWrite?
    case Upload => inner in {Counter, Event}
    case _ => false
  }

  function Rank(m: Mutex): (r: nat)
    ensures r <= 2
  {
    match m
    case DownloadProcess => 0
    case BufferQuery => 0
    case Packet => 0
    case Upload => 1
    case State => 1
    case _ => 2
  }

  /** No interleaving of any number of gateway threads deadlocks, and whoever is blocked waits, in the end,
      for a thread that runs. */
  lemma GatewayNeverDeadlocks(count: nat, steps: seq<Step<Mutex>>, cycle: seq<nat>, t: nat)
    ensures !WaitCycle(Reached(MayNest, count, steps), cycle)
    ensures t < count ==> LeadsToRunner(Reached(MayNest, count, steps), t)
  {
    hide Reached, WaitCycle, LeadsToRunner;
    assert Consistent(MayNest, Rank);
    NoWaitCycle(MayNest, Rank, count, steps, cycle);
    if t < count {
      EveryInterleaving(MayNest, Rank, count, steps);
      ChainToRunner(Rank, 2, Reached(MayNest, count, steps), t);
    }
  }

  /** From every state the gateway's threads can reach, all of them can get through and release every mutex. */
  lemma GatewayCanFinish(count: nat, steps: seq<Step<Mutex>>) returns (more: seq<Step<Mutex>>)
    ensures forall t :: 0 <= t < count ==> Reached(MayNest, count, steps + more)[t] == Thread({}, [])
    ensures forall step <- more :: step.Advance?
  {
    hide Reached;
    assert Consistent(MayNest, Rank);
    more := EverybodyCanFinish(MayNest, Rank, 2, count, steps);
  }

  // ---------- the program's own lock sequences ----------

  function Alone(m: Mutex): Section<Mutex> {
    Section(m, [])
  }

  /** The wake mutex of each channel of `chs` in turn. */
  function Wakes(chs: seq<nat>): seq<Section<Mutex>> {
    if chs == [] then [] else [Alone(Wake(chs[0]))] + Wakes(chs[1..])
  }

  function Repeated(m: Mutex, times: nat): seq<Section<Mutex>> {
    if times == 0 then [] else [Alone(m)] + Repeated(m, times - 1)
  }

  /** What one payload of a download batch comes to. */
  datatype Item = Refused | Queued | Reported | Silent

  function ItemLocks(item: Item): seq<Section<Mutex>> {
    match item
    case Refused => [Section(State, [Alone(Gate)])]
    case Queued => [Section(State, [Alone(Gate), Alone(GroupId)])]
    case Reported => [Alone(Event)]
    case Silent => []
  }

  function Batch(items: seq<Item>): seq<Section<Mutex>> {
    if items == [] then [] else ItemLocks(items[0]) + Batch(items[1..])
  }

  /** Each frame of a complete group is written; a failed write is reported on both other ports. */
  function SendFrames(ch: nat, failures: seq<bool>): seq<Section<Mutex>> {
    if failures == [] then []
    else [Alone(CanWrite(ch))] + (if failures[0] then [Alone(Upload), Alone(Event)] else []) + SendFrames(ch, failures[1..])
  }

  /** Each frame of a simulator reply is written; a failed write is reported as an event. */
  function ReplyFrames(ch: nat, failures: seq<bool>): seq<Section<Mutex>> {
    if failures == [] then []
    else [Alone(CanWrite(ch))] + (if failures[0] then [Alone(Event)] else []) + ReplyFrames(ch, failures[1..])
  }

  /** The ways through the code that take a mutex: for the program's state, for CAN frames, for answers and
      reports. `UseUpload` and `ReportEvent` also stand for the handlers of ports 9010 and 9011. */
  datatype Path = ApplyConfig(channels: seq<nat>)
                | SecondPulse(woken: seq<nat>)
                | TakeGroup(ch: nat)
                | LookForWake(ch: nat)
                | SendGroup(ch: nat, writes: nat, failed: bool)
                | QueryBuffers(times: nat)
                | ReportBuffers(times: nat)
                | ReplaceDownload
                | DownloadBatch(items: seq<Item>)
                | WithdrawDownload
                | FinishPackets(ch: nat, failures: seq<bool>)
                | SingleFrame(ch: nat, failed: bool)
                | SimulatorReply(ch: nat, failures: seq<bool>)
                | ConfigAnswer
                | InfoResponse
                | UploadFrame(failed: bool)
                | UseUpload
                | ReportEvent
                | UseTcpBuffer
                | StoreMask

  function Program(p: Path): seq<Section<Mutex>> {
    match p
    case ApplyConfig(channels) => [Section(State, [Alone(Config)] + Wakes(channels) + [Alone(Gate)])]
    case SecondPulse(woken) => [Section(State, [Alone(Gate), Alone(Config)] + Wakes(woken))]
    case TakeGroup(ch) => [Section(State, [Alone(Wake(ch))])]
    case LookForWake(ch) => [Alone(Wake(ch))]
    case SendGroup(ch, writes, failed) => Repeated(CanWrite(ch), writes) + if failed then [Alone(Event)] else []
    case QueryBuffers(times) => [Section(BufferQuery, Repeated(State, times)), Alone(Upload)]
    case ReportBuffers(times) => [Alone(TcpBuffer), Alone(TcpBuffer)] + Repeated(State, times) + [Alone(Download)]
    case ReplaceDownload => [Section(DownloadProcess, [Alone(Download)])]
    case DownloadBatch(items) => [Section(DownloadProcess, [Alone(Download)] + Batch(items))]
    case WithdrawDownload => [Alone(Download)]
    case FinishPackets(ch, failures) => [Section(Packet, SendFrames(ch, failures))]
    case SingleFrame(ch, failed) => SendFrames(ch, [failed])
    case SimulatorReply(ch, failures) => ReplyFrames(ch, failures)
    case ConfigAnswer => [Alone(Counter), Alone(Upload)]
    case InfoResponse => [Section(Upload, [Alone(Counter)])]
    case UploadFrame(failed) => [Section(Upload, if failed then [Alone(Event)] else [])]
    case UseUpload => [Alone(Upload)]
    case ReportEvent => [Alone(Event)]
    case UseTcpBuffer => [Alone(TcpBuffer)]
    case StoreMask => [Alone(Config)]
  }

  lemma {:induction false} ObeysAppend<M>(nest: (M, M) -> bool, a: seq<Section<M>>, b: seq<Section<M>>)
    requires Obeys(nest, a) && Obeys(nest, b)
    ensures Obeys(nest, a + b)
    decreases |a|
  {
    if a == [] {
      assert a + b == b;
    } else {
      ObeysAppend(nest, a[1..], b);
      assert (a + b)[0] == a[0] && (a + b)[1..] == a[1..] + b;
    }
  }

  /** Sections that may all stand inside `outer`, and nest properly themselves. */
  ghost predicate Inside(outer: Mutex, ss: seq<Section<Mutex>>) {
    Obeys(MayNest, ss) && forall s <- ss :: MayNest(outer, s.m)
  }

  lemma InsideAppend(outer: Mutex, a: seq<Section<Mutex>>, b: seq<Section<Mutex>>)
    requires Inside(outer, a) && Inside(outer, b)
    ensures Inside(outer, a + b)
  {
    ObeysAppend(MayNest, a, b);
  }

  lemma AloneInside(outer: Mutex, m: Mutex)
    requires MayNest(outer, m)
    ensures Inside(outer, [Alone(m)])
  {
  }

  lemma AroundObeys(outer: Mutex, body: seq<Section<Mutex>>)
    requires Inside(outer, body)
    ensures Obeys(MayNest, [Section(outer, body)])
  {
  }

  lemma {:induction false} WakesInside(chs: seq<nat>)
    ensures Inside(State, Wakes(chs))
  {
    if chs != [] {
      WakesInside(chs[1..]);
      InsideAppend(State, [Alone(Wake(chs[0]))], Wakes(chs[1..]));
    }
  }

  lemma {:induction false} RepeatedInside(outer: Mutex, m: Mutex, times: nat)
    requires MayNest(outer, m)
    ensures Inside(outer, Repeated(m, times))
    decreases times
  {
    if times > 0 {
      RepeatedInside(outer, m, times - 1);
      InsideAppend(outer, [Alone(m)], Repeated(m, times - 1));
    }
  }

  lemma {:induction false} BatchInside(items: seq<Item>)
    ensures Inside(DownloadProcess, Batch(items))
  {
    if items != [] {
      BatchInside(items[1..]);
      InsideAppend(DownloadProcess, ItemLocks(items[0]), Batch(items[1..]));
    }
  }

  lemma {:induction false} FramesInside(ch: nat, failures: seq<bool>)
    ensures Inside(Packet, SendFrames(ch, failures))
  {
    if failures != [] {
      FramesInside(ch, failures[1..]);
      var report := if failures[0] then [Alone(Upload), Alone(Event)] else [];
      InsideAppend(Packet, [Alone(CanWrite(ch))], report);
      InsideAppend(Packet, [Alone(CanWrite(ch))] + report, SendFrames(ch, failures[1..]));
    }
  }

  lemma {:induction false} RepliesInside(ch: nat, failures: seq<bool>)
    ensures Inside(Packet, ReplyFrames(ch, failures))
  {
    if failures != [] {
      RepliesInside(ch, failures[1..]);
      var report := if failures[0] then [Alone(Event)] else [];
      InsideAppend(Packet, [Alone(CanWrite(ch))], report);
      InsideAppend(Packet, [Alone(CanWrite(ch))] + report, ReplyFrames(ch, failures[1..]));
    }
  }

  lemma InsideObeys(outer: Mutex, ss: seq<Section<Mutex>>)
    requires Inside(outer, ss)
    ensures Obeys(MayNest, ss)
  {
  }

  lemma NothingInside(outer: Mutex)
    ensures Inside(outer, [])
  {
  }

  lemma AloneObeys(m: Mutex)
    ensures Obeys(MayNest, [Alone(m)])
  {
  }

  /** `body` inside `outer`, behind one section and in front of another. */
  lemma ThreeInside(outer: Mutex, first: Mutex, body: seq<Section<Mutex>>, last: Mutex)
    requires MayNest(outer, first) && MayNest(outer, last) && Inside(outer, body)
    ensures Inside(outer, [Alone(first)] + body) && Inside(outer, [Alone(first)] + body + [Alone(last)])
  {
    hide Inside, Obeys;
    AloneInside(outer, first);
    AloneInside(outer, last);
    InsideAppend(outer, [Alone(first)], body);
    InsideAppend(outer, [Alone(first)] + body, [Alone(last)]);
  }

  /** Every way through the code nests its mutexes as the documented order allows. */
  lemma PathsKeepTheOrder(p: Path)
    ensures Obeys(MayNest, Program(p))
  {
    hide Obeys, Inside, Wakes, Repeated, Batch, SendFrames, ReplyFrames;
    match p
    case ApplyConfig(channels) =>
      WakesInside(channels);
      ThreeInside(State, Config, Wakes(channels), Gate);
      AroundObeys(State, [Alone(Config)] + Wakes(channels) + [Alone(Gate)]);
    case SecondPulse(woken) =>
      WakesInside(woken);
      AloneInside(State, Gate);
      ThreeInside(State, Config, Wakes(woken), Gate);
      InsideAppend(State, [Alone(Gate)], [Alone(Config)] + Wakes(woken));
      assert [Alone(Gate)] + ([Alone(Config)] + Wakes(woken)) == [Alone(Gate), Alone(Config)] + Wakes(woken);
      AroundObeys(State, [Alone(Gate), Alone(Config)] + Wakes(woken));
    case TakeGroup(ch) =>
      AloneInside(State, Wake(ch));
      AroundObeys(State, [Alone(Wake(ch))]);
    case LookForWake(ch) =>
      AloneObeys(Wake(ch));
    case SendGroup(ch, writes, failed) =>
      RepeatedInside(Packet, CanWrite(ch), writes);
      AloneInside(Packet, Event);
      NothingInside(Packet);
      InsideAppend(Packet, Repeated(CanWrite(ch), writes), if failed then [Alone(Event)] else []);
      InsideObeys(Packet, Program(p));
    case QueryBuffers(times) =>
      RepeatedInside(BufferQuery, State, times);
      AroundObeys(BufferQuery, Repeated(State, times));
      AloneObeys(Upload);
      ObeysAppend(MayNest, [Section(BufferQuery, Repeated(State, times))], [Alone(Upload)]);
      assert Program(p) == [Section(BufferQuery, Repeated(State, times))] + [Alone(Upload)];
    case ReportBuffers(times) =>
      RepeatedInside(BufferQuery, State, times);
      InsideObeys(BufferQuery, Repeated(State, times));
      AloneObeys(TcpBuffer);
      AloneObeys(Download);
      ObeysAppend(MayNest, [Alone(TcpBuffer)], [Alone(TcpBuffer)]);
      ObeysAppend(MayNest, [Alone(TcpBuffer)] + [Alone(TcpBuffer)], Repeated(State, times));
      ObeysAppend(MayNest, [Alone(TcpBuffer)] + [Alone(TcpBuffer)] + Repeated(State, times), [Alone(Download)]);
      assert [Alone(TcpBuffer)] + [Alone(TcpBuffer)] == [Alone(TcpBuffer), Alone(TcpBuffer)];
    case ReplaceDownload =>
      AloneInside(DownloadProcess, Download);
      AroundObeys(DownloadProcess, [Alone(Download)]);
    case DownloadBatch(items) =>
      BatchInside(items);
      ThreeInside(DownloadProcess, Download, Batch(items), Event);
      AroundObeys(DownloadProcess, [Alone(Download)] + Batch(items));
    case WithdrawDownload =>
      AloneObeys(Download);
    case FinishPackets(ch, failures) =>
      FramesInside(ch, failures);
      AroundObeys(Packet, SendFrames(ch, failures));
    case SingleFrame(ch, failed) =>
      FramesInside(ch, [failed]);
      InsideObeys(Packet, SendFrames(ch, [failed]));
    case SimulatorReply(ch, failures) =>
      RepliesInside(ch, failures);
      InsideObeys(Packet, ReplyFrames(ch, failures));
    case ConfigAnswer =>
      AloneObeys(Counter);
      AloneObeys(Upload);
      ObeysAppend(MayNest, [Alone(Counter)], [Alone(Upload)]);
      assert [Alone(Counter)] + [Alone(Upload)] == Program(p);
    case UseUpload =>
      AloneObeys(Upload);
    case UseTcpBuffer =>
      AloneObeys(TcpBuffer);
    case StoreMask =>
      AloneObeys(Config);
    case InfoResponse =>
      AloneInside(Upload, Counter);
      AroundObeys(Upload, [Alone(Counter)]);
    case UploadFrame(failed) =>
      AloneInside(Upload, Event);
      NothingInside(Upload);
      AroundObeys(Upload, if failed then [Alone(Event)] else []);
    case ReportEvent =>
      AloneObeys(Event);
  }

  /** The order of the program, and the one nesting its own comment forbids. */
  predicate WithBackwards(outer: Mutex, inner: Mutex) {
    MayNest(outer, inner) || (outer.Wake? && inner == State)
  }

  lemma Begun<M>(nest: (M, M) -> bool, count: nat, steps: seq<Step<M>>, t: nat, program: seq<Section<M>>)
    requires t < count && Obeys(nest, program) && Reached(nest, count, steps)[t].rest == []
    ensures var s := Reached(nest, count, steps);
            Reached(nest, count, steps + [Begin(t, program)]) == s[t := s[t].(rest := Flatten(program))]
  {
    hide Obeys, Flatten;
    assert (steps + [Begin(t, program)])[..|steps|] == steps;
  }

  lemma Acquired<M>(nest: (M, M) -> bool, count: nat, steps: seq<Step<M>>, t: nat)
    requires t < count && CanStep(Reached(nest, count, steps), t)
    requires Reached(nest, count, steps)[t].rest != [] && Reached(nest, count, steps)[t].rest[0].Acquire?
    ensures var s := Reached(nest, count, steps);
            Reached(nest, count, steps + [Advance(t)]) == s[t := Thread(s[t].held + {s[t].rest[0].m}, s[t].rest[1..])]
  {
    hide CanStep;
    assert (steps + [Step<M>.Advance(t)])[..|steps|] == steps;
  }

  /** The order matters: let one thread take the state mutex while it holds a wake mutex, and two threads
      can wait for each other for ever. */
  lemma WakeBeforeStateDeadlocks() returns (steps: seq<Step<Mutex>>, cycle: seq<nat>)
    ensures WaitCycle(Reached(WithBackwards, 2, steps), cycle)
  {
    hide Reached;
    var claim, backwards := [Section(State, [Alone(Wake(0))])], [Section(Wake(0), [Alone(State)])];
    var p, q := [Acquire(State), Acquire(Wake(0)), Release(Wake(0)), Release(State)],
                [Acquire(Wake(0)), Acquire(State), Release(State), Release(Wake(0))];
    assert Obeys(WithBackwards, claim) && Flatten(claim) == p by {
      assert Flatten([Alone(Wake(0))]) == [Acquire(Wake(0)), Release(Wake(0))];
      assert Obeys(WithBackwards, [Alone(Wake(0))]);
    }
    assert Obeys(WithBackwards, backwards) && Flatten(backwards) == q by {
      assert Flatten([Alone(State)]) == [Acquire(State), Release(State)];
      assert Obeys(WithBackwards, [Alone(State)]);
    }
    steps := [];
    NobodyYet(WithBackwards, 2);
    Begun(WithBackwards, 2, steps, 0, claim);
    steps := steps + [Begin(0, claim)];
    Begun(WithBackwards, 2, steps, 1, backwards);
    steps := steps + [Begin(1, backwards)];
    Acquired(WithBackwards, 2, steps, 0);
    steps := steps + [Advance(0)];
    Acquired(WithBackwards, 2, steps, 1);
    steps := steps + [Advance(1)];
    cycle := [0, 1];
    var s := Reached(WithBackwards, 2, steps);
    assert Blocks(s, 0, 1) && Blocks(s, 1, 0);
  }

  lemma NobodyYet<M>(nest: (M, M) -> bool, count: nat)
    ensures Reached(nest, count, []) == seq(count, _ => Thread({}, []))
  {
  }

  /** Somewhere in `ss` a section of `inner` stands directly in one of `outer`. */
  ghost predicate Nests<M>(ss: seq<Section<M>>, outer: M, inner: M) {
    ss != [] &&
      (|| (ss[0].m == outer && exists s <- ss[0].body :: s.m == inner)
       || Nests(ss[0].body, outer, inner)
       || Nests(ss[1..], outer, inner))
  }

  lemma {:induction false} NestsAsObeyed<M>(nest: (M, M) -> bool, ss: seq<Section<M>>, outer: M, inner: M)
    requires Obeys(nest, ss) && Nests(ss, outer, inner)
    ensures nest(outer, inner)
    decreases ss
  {
    if Nests(ss[0].body, outer, inner) {
      NestsAsObeyed(nest, ss[0].body, outer, inner);
    } else if Nests(ss[1..], outer, inner) {
      NestsAsObeyed(nest, ss[1..], outer, inner);
    }
  }

  /** A way through the code on which `inner` is taken directly under `outer`. */
  function WayWith(outer: Mutex, inner: Mutex): Path {
    match outer
    case DownloadProcess =>
      if inner == Download then ReplaceDownload else if inner == State then DownloadBatch([Queued]) else DownloadBatch([Reported])
    case BufferQuery => QueryBuffers(1)
    case State =>
      if inner == Config then ApplyConfig([]) else if inner == Gate then SecondPulse([])
      else if inner == GroupId then DownloadBatch([Queued]) else TakeGroup(if inner.Wake? then inner.ch else 0)
    case Packet =>
      if inner.CanWrite? then FinishPackets(inner.ch, [false]) else FinishPackets(0, [true])
    case _ => if inner == Counter then InfoResponse else UploadFrame(true)
  }

  lemma StateNests(inner: Mutex)
    requires MayNest(State, inner)
    ensures Nests(Program(WayWith(State, inner)), State, inner)
  {
  }

  lemma PacketNests(inner: Mutex)
    requires MayNest(Packet, inner)
    ensures Nests(Program(WayWith(Packet, inner)), Packet, inner)
  {
  }

  lemma WayNests(outer: Mutex, inner: Mutex)
    requires MayNest(outer, inner)
    ensures Nests(Program(WayWith(outer, inner)), outer, inner)
  {
    if outer == State {
      StateNests(inner);
    } else if outer == Packet {
      PacketNests(inner);
    }
  }

  /** The order allows nothing in vain: `inner` may be taken directly under `outer` exactly if some way through
      the code does it. */
  lemma MayNestIffSomeWayDoes(outer: Mutex, inner: Mutex)
    ensures MayNest(outer, inner) <==> exists p :: Nests(Program(p), outer, inner)
  {
    hide Nests, Program, MayNest;
    if MayNest(outer, inner) {
      WayNests(outer, inner);
    }
    if p :| Nests(Program(p), outer, inner) {
      PathsKeepTheOrder(p);
      NestsAsObeyed(MayNest, Program(p), outer, inner);
    }
  }
}
