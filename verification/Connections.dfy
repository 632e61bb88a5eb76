/** Who owns the sockets of ports 9010, 9011 and 9012, for any number of connections and with descriptor
    numbers reused by the operating system as soon as they are closed. */
module Connections {
  import opened Basics

  datatype Port = Upload | Events | Download

  datatype PerPort<T> = PerPort(upload: T, events: T, download: T) {
    function Get(p: Port): T {
      match p
      case Upload => upload
      case Events => events
      case Download => download
    }

    function Set(p: Port, v: T): PerPort<T> {
      match p
      case Upload => this.(upload := v)
      case Events => this.(events := v)
      case Download => this.(download := v)
    }
  }

  /** A connection is accepted by the listener and then belongs to its handler, except when no handler
      thread can be started. Only a registered connection is ever the global socket of its port. */
  datatype Phase = Accepted | Orphaned | Starting | Refused | Registered | Ending | Withdrawn | Closed

  datatype Conn = Conn(port: Port, fd: nat, phase: Phase)

  /** What a descriptor number stands for at the moment of a system call. */
  datatype Target = Connection(id: nat) | Foreign | Nothing

  datatype Event = Sent(port: Port, meant: Option<nat>, hit: Target)
                 | ShutDown(port: Port, meant: Option<nat>, hit: Target)
                 | ClosedBy(id: nat, listener: bool, hit: Target)
                 | Batch(id: nat)

  /** `sock` are the three global sockets, `holder` the connections that set them, `batch` the connection
      inside the download mutex; `others` are descriptors opened by the rest of the program. */
  datatype State = State(conns: seq<Conn>, others: set<nat>, sock: PerPort<int>, holder: PerPort<Option<nat>>,
                         batch: Option<nat>, log: seq<Event>)

  datatype Step = Accept(port: Port, fd: nat)
                | SpawnFails(id: nat) | ListenerCloses(id: nat)
                | HandlerStarts(id: nat) | AllocationFails(id: nat) | RefusedCloses(id: nat)
                | Register(id: nat)
                | Send(port: Port, complete: bool)
                | BatchBegins(id: nat) | BatchEnds(id: nat)
                | ReceiveEnds(id: nat) | Withdraw(id: nat) | HandlerCloses(id: nat)
                | OtherOpens(fd: nat) | OtherCloses(fd: nat)

  function Start(): State {
    State([], {}, PerPort(-1, -1, -1), PerPort(None, None, None), None, [])
  }

  predicate IsOpen(c: Conn) {
    !c.phase.Closed?
  }

  /** The open connection a descriptor number belongs to. */
  function FindOpen(conns: seq<Conn>, fd: int): (r: Option<nat>)
    ensures r.Some? ==> r.value < |conns| && conns[r.value].fd == fd && IsOpen(conns[r.value])
  {
    if conns == [] then None
    else
      var last := |conns| - 1;
      if conns[last].fd == fd && IsOpen(conns[last]) then Some(last) else FindOpen(conns[..last], fd)
  }

  function Names(s: State, fd: int): Target {
    match FindOpen(s.conns, fd)
    case Some(id) => Connection(id)
    case None => if fd >= 0 && fd in s.others then Foreign else Nothing
  }

  function InUse(s: State): set<int> {
    (set c <- s.conns | IsOpen(c) :: c.fd as int) + (set fd <- s.others :: fd as int)
  }

  predicate InPhase(s: State, id: nat, phase: Phase) {
    id < |s.conns| && s.conns[id].phase == phase
  }

  function Enter(s: State, id: nat, phase: Phase): State
    requires id < |s.conns|
  {
    s.(conns := s.conns[id := s.conns[id].(phase := phase)])
  }

  function CloseFd(s: State, id: nat, listener: bool): State
    requires id < |s.conns|
  {
    Enter(s, id, Closed).(log := s.log + [ClosedBy(id, listener, Names(s, s.conns[id].fd))])
  }

  /** One step of the listeners, the handlers, the senders or the rest of the program; a step that is
      not enabled changes nothing. */
  function Next(s: State, step: Step): State {
    match step
    case Accept(port, fd) => if fd as int in InUse(s) then s else s.(conns := s.conns + [Conn(port, fd, Accepted)])
    case SpawnFails(id) => if InPhase(s, id, Accepted) then Enter(s, id, Orphaned) else s
    case ListenerCloses(id) => if InPhase(s, id, Orphaned) then CloseFd(s, id, true) else s
    case HandlerStarts(id) => if InPhase(s, id, Accepted) then Enter(s, id, Starting) else s
    case AllocationFails(id) =>
      if InPhase(s, id, Starting) && s.conns[id].port.Download? then Enter(s, id, Refused) else s
    case RefusedCloses(id) => if InPhase(s, id, Refused) then CloseFd(s, id, false) else s
    case Register(id) =>
      if InPhase(s, id, Starting) && (s.conns[id].port.Download? ==> s.batch.None?) then
        var p, fd := s.conns[id].port, s.conns[id].fd;
        Enter(s, id, Registered).(
          sock := s.sock.Set(p, fd), holder := s.holder.Set(p, Some(id)),
          log := if s.sock.Get(p) == -1 then s.log else s.log + [ShutDown(p, s.holder.Get(p), Names(s, s.sock.Get(p)))])
      else s
    case Send(port, complete) =>
      var fd, meant := s.sock.Get(port), s.holder.Get(port);
      if fd == -1 then s
      else if complete then s.(log := s.log + [Sent(port, meant, Names(s, fd))])
      else s.(log := s.log + [Sent(port, meant, Names(s, fd)), ShutDown(port, meant, Names(s, fd))],
              sock := s.sock.Set(port, -1), holder := s.holder.Set(port, None))
    case BatchBegins(id) =>
      if InPhase(s, id, Registered) && s.conns[id].port.Download? && s.batch.None? then
        if s.sock.Get(Download) == s.conns[id].fd then s.(batch := Some(id), log := s.log + [Batch(id)])
        else Enter(s, id, Ending)
      else s
    case BatchEnds(id) => if s.batch == Some(id) then s.(batch := None) else s
    case ReceiveEnds(id) => if InPhase(s, id, Registered) && s.batch != Some(id) then Enter(s, id, Ending) else s
    case Withdraw(id) =>
      if InPhase(s, id, Ending) then
        var p := s.conns[id].port;
        if s.sock.Get(p) == s.conns[id].fd
        then Enter(s, id, Withdrawn).(sock := s.sock.Set(p, -1), holder := s.holder.Set(p, None))
        else Enter(s, id, Withdrawn)
      else s
    case HandlerCloses(id) => if InPhase(s, id, Withdrawn) then CloseFd(s, id, false) else s
    case OtherOpens(fd) => if fd as int in InUse(s) then s else s.(others := s.others + {fd})
    case OtherCloses(fd) => s.(others := s.others - {fd})
  }

  function Reached(steps: seq<Step>): State {
    if steps == [] then Start() else Next(Reached(steps[..|steps| - 1]), steps[|steps| - 1])
  }

  // ---------- the invariant ----------

  /** No two open files share a number. */
  predicate Distinct(s: State) {
    && (forall i, j :: 0 <= i < j < |s.conns| && IsOpen(s.conns[i]) && IsOpen(s.conns[j]) ==> s.conns[i].fd != s.conns[j].fd)
    && (forall i :: 0 <= i < |s.conns| && IsOpen(s.conns[i]) ==> s.conns[i].fd !in s.others)
  }

  /** A global socket is -1, or the descriptor of the connection that set it: one of this port, still open,
      whose handler is registered and has not withdrawn it. */
  predicate OwnedSocket(s: State, p: Port) {
    match s.holder.Get(p)
    case None => s.sock.Get(p) == -1
    case Some(id) =>
      && id < |s.conns| && s.conns[id].port == p && s.conns[id].fd == s.sock.Get(p)
      && (s.conns[id].phase == Registered || s.conns[id].phase == Ending)
  }

  /** While a batch runs no other connection is the download socket. */
  predicate BatchOwned(s: State) {
    match s.batch
    case None => true
    case Some(id) =>
      && InPhase(s, id, Registered) && s.conns[id].port.Download?
      && (s.holder.download == None || s.holder.download == Some(id))
  }

  predicate Inv(s: State) {
    Distinct(s) && OwnedSocket(s, Upload) && OwnedSocket(s, Events) && OwnedSocket(s, Download) && BatchOwned(s)
  }

  lemma {:induction false} FindsTheOwner(conns: seq<Conn>, fd: int, id: nat)
    requires forall i, j :: 0 <= i < j < |conns| && IsOpen(conns[i]) && IsOpen(conns[j]) ==> conns[i].fd != conns[j].fd
    requires id < |conns| && IsOpen(conns[id]) && conns[id].fd == fd
    ensures FindOpen(conns, fd) == Some(id)
    decreases |conns|
  {
    var last := |conns| - 1;
    if id < last {
      FindsTheOwner(conns[..last], fd, id);
    }
  }

  lemma NamesTheOwner(s: State, id: nat)
    requires Distinct(s) && id < |s.conns| && IsOpen(s.conns[id])
    ensures Names(s, s.conns[id].fd) == Connection(id)
  {
    FindsTheOwner(s.conns, s.conns[id].fd, id);
  }

  lemma FreshNumber(s: State, fd: nat)
    requires fd as int !in InUse(s)
    ensures fd !in s.others && forall i :: 0 <= i < |s.conns| && IsOpen(s.conns[i]) ==> s.conns[i].fd != fd
  {
    forall i | 0 <= i < |s.conns| && IsOpen(s.conns[i])
      ensures s.conns[i].fd != fd
    {
      assert s.conns[i] in s.conns;
    }
  }

  lemma DistinctKept(s: State, step: Step)
    requires Distinct(s)
    ensures Distinct(Next(s, step))
  {
    hide Names, InUse;
    match step
    case Accept(_, fd) => if fd as int !in InUse(s) { FreshNumber(s, fd); }
    case OtherOpens(fd) => if fd as int !in InUse(s) { FreshNumber(s, fd); }
    case _ =>
  }

  lemma OwnedKept(s: State, step: Step, p: Port)
    requires OwnedSocket(s, p)
    ensures OwnedSocket(Next(s, step), p)
  {
    hide Names, InUse;
  }

  lemma BatchKept(s: State, step: Step)
    requires Distinct(s) && OwnedSocket(s, Download) && BatchOwned(s)
    ensures BatchOwned(Next(s, step))
  {
    hide Names, InUse;
  }

  lemma StepKeeps(s: State, step: Step)
    requires Inv(s)
    ensures Inv(Next(s, step))
  {
    hide Next, Distinct, OwnedSocket, BatchOwned;
    DistinctKept(s, step);
    OwnedKept(s, step, Upload);
    OwnedKept(s, step, Events);
    OwnedKept(s, step, Download);
    BatchKept(s, step);
  }

  lemma {:induction false} EveryRun(steps: seq<Step>)
    ensures Inv(Reached(steps))
    decreases |steps|
  {
    hide Next, Inv;
    if steps == [] {
      NobodyYet();
    } else {
      EveryRun(steps[..|steps| - 1]);
      StepKeeps(Reached(steps[..|steps| - 1]), steps[|steps| - 1]);
    }
  }

  lemma NobodyYet()
    ensures Inv(Start())
  {
  }

  // ---------- what the run shows ----------

  /** Each global socket is -1 or an open descriptor, and the one open file of that number is the connection
      that set it: of this port, registered, and not yet withdrawn by its handler. */
  lemma GlobalSocketIsOwned(steps: seq<Step>, p: Port)
    ensures var s := Reached(steps);
            s.sock.Get(p) == -1 ||
            exists id: nat :: id < |s.conns| && s.holder.Get(p) == Some(id) && s.conns[id].port == p
                              && (s.conns[id].phase == Registered || s.conns[id].phase == Ending)
                              && Names(s, s.sock.Get(p)) == Connection(id)
  {
    hide Next, Names;
    EveryRun(steps);
    var s := Reached(steps);
    assert OwnedSocket(s, p);
    if s.sock.Get(p) != -1 {
      NamesTheOwner(s, s.holder.Get(p).value);
    }
  }

  /** Whom a logged system call was meant for, and whether the descriptor named that connection. */
  predicate OnTarget(e: Event) {
    match e
    case Sent(_, meant, hit) => meant.Some? && hit == Connection(meant.value)
    case ShutDown(_, meant, hit) => meant.Some? && hit == Connection(meant.value)
    case ClosedBy(id, _, hit) => hit == Connection(id)
    case Batch(_) => true
  }

  lemma StepOnTarget(s: State, step: Step)
    requires Inv(s)
    ensures s.log <= Next(s, step).log
    ensures forall k :: |s.log| <= k < |Next(s, step).log| ==> OnTarget(Next(s, step).log[k])
  {
    hide Names, InUse;
    match step
    case Register(id) =>
      if InPhase(s, id, Starting) && s.sock.Get(s.conns[id].port) != -1 {
        assert OwnedSocket(s, s.conns[id].port);
        NamesTheOwner(s, s.holder.Get(s.conns[id].port).value);
      }
    case Send(p, _) =>
      if s.sock.Get(p) != -1 {
        assert OwnedSocket(s, p);
        NamesTheOwner(s, s.holder.Get(p).value);
      }
    case ListenerCloses(id) => if InPhase(s, id, Orphaned) { NamesTheOwner(s, id); }
    case RefusedCloses(id) => if InPhase(s, id, Refused) { NamesTheOwner(s, id); }
    case HandlerCloses(id) => if InPhase(s, id, Withdrawn) { NamesTheOwner(s, id); }
    case _ =>
  }

  /** However descriptor numbers are reused, every send and every shutdown reaches the connection that was
      registered as the global socket, and every close closes the closer's own connection. */
  lemma {:induction false} CallsReachTheirConnection(steps: seq<Step>)
    ensures forall e <- Reached(steps).log :: OnTarget(e)
    decreases |steps|
  {
    if steps != [] {
      hide Next, Inv, OnTarget;
      var s, step := Reached(steps[..|steps| - 1]), steps[|steps| - 1];
      CallsReachTheirConnection(steps[..|steps| - 1]);
      EveryRun(steps[..|steps| - 1]);
      StepOnTarget(s, step);
      var log := Next(s, step).log;
      forall e | e in log
        ensures OnTarget(e)
      {
        var k :| 0 <= k < |log| && log[k] == e;
        if k < |s.log| {
          assert log[k] == s.log[k];
          assert s.log[k] in s.log;
        }
      }
    }
  }

  /** How often connection `id` has been closed, by anybody. */
  function Closes(log: seq<Event>, id: nat): nat {
    if log == [] then 0
    else Closes(log[..|log| - 1], id) + if log[|log| - 1].ClosedBy? && log[|log| - 1].id == id then 1 else 0
  }

  lemma ClosesOneMore(log: seq<Event>, e: Event, id: nat)
    ensures Closes(log + [e], id) == Closes(log, id) + if e.ClosedBy? && e.id == id then 1 else 0
  {
    assert (log + [e])[..|log|] == log;
  }

  lemma StepCloses(s: State, step: Step, id: nat)
    ensures var t := Next(s, step);
            && |s.conns| <= |t.conns|
            && (id < |s.conns| && s.conns[id].phase == Closed ==> t.conns[id].phase == Closed)
            && Closes(t.log, id) - Closes(s.log, id) ==
               (if id < |s.conns| && s.conns[id].phase != Closed && t.conns[id].phase == Closed then 1 else 0)
            && (id >= |s.conns| && id < |t.conns| ==> t.conns[id].phase == Accepted)
  {
    hide Names, InUse, Closes;
    var t := Next(s, step);
    if |t.log| == |s.log| + 1 {
      assert t.log == s.log + [t.log[|s.log|]];
      ClosesOneMore(s.log, t.log[|s.log|], id);
    } else if |t.log| == |s.log| + 2 {
      ClosesOneMore(s.log, t.log[|s.log|], id);
      ClosesOneMore(s.log + [t.log[|s.log|]], t.log[|s.log| + 1], id);
      assert t.log == s.log + [t.log[|s.log|]] + [t.log[|s.log| + 1]];
    }
  }

  /** No connection is ever closed twice, and its descriptor is released exactly when it is closed. */
  lemma {:induction false} ClosedExactlyOnce(steps: seq<Step>, id: nat)
    ensures var s := Reached(steps);
            Closes(s.log, id) == if id < |s.conns| && s.conns[id].phase == Closed then 1 else 0
    decreases |steps|
  {
    if steps != [] {
      hide Next, Closes;
      ClosedExactlyOnce(steps[..|steps| - 1], id);
      StepCloses(Reached(steps[..|steps| - 1]), steps[|steps| - 1], id);
    }
  }

  /** The next step of whoever is to close connection `id`: its handler or the listener. A handler that waits
      for the download mutex first lets the batch in progress end. */
  function OwnStep(s: State, id: nat): Step
    requires id < |s.conns|
  {
    match s.conns[id].phase
    case Accepted => HandlerStarts(id)
    case Orphaned => ListenerCloses(id)
    case Starting =>
      if s.conns[id].port.Download? && s.batch.Some? then BatchEnds(s.batch.value) else Register(id)
    case Refused => RefusedCloses(id)
    case Registered => if s.batch == Some(id) then BatchEnds(id) else ReceiveEnds(id)
    case Ending => Withdraw(id)
    case Withdrawn => HandlerCloses(id)
    case Closed => HandlerCloses(id)
  }

  /** At most this many such steps remain. */
  function StepsLeft(s: State, id: nat): nat
    requires id < |s.conns|
  {
    match s.conns[id].phase
    case Accepted => 7
    case Orphaned => 1
    case Starting => if s.batch.Some? then 6 else 5
    case Refused => 1
    case Registered => if s.batch.Some? then 4 else 3
    case Ending => 2
    case Withdrawn => 1
    case Closed => 0
  }

  lemma OwnStepLeads(s: State, id: nat)
    requires id < |s.conns| && s.conns[id].phase != Closed
    ensures var t := Next(s, OwnStep(s, id));
            |t.conns| == |s.conns| && StepsLeft(t, id) < StepsLeft(s, id)
  {
    hide Names, InUse;
  }

  /** The steps that bring connection `id` to its close. */
  function ToClose(s: State, id: nat, fuel: nat): seq<Step>
    decreases fuel
  {
    if id >= |s.conns| || s.conns[id].phase == Closed || fuel == 0 then []
    else [OwnStep(s, id)] + ToClose(Next(s, OwnStep(s, id)), id, fuel - 1)
  }

  lemma ToCloseUnfolds(s: State, id: nat, fuel: nat)
    requires id < |s.conns| && StepsLeft(s, id) <= fuel
    ensures s.conns[id].phase == Closed ==> ToClose(s, id, fuel) == []
    ensures s.conns[id].phase != Closed ==>
              fuel > 0 && ToClose(s, id, fuel) == [OwnStep(s, id)] + ToClose(Next(s, OwnStep(s, id)), id, fuel - 1)
  {
    hide Next, OwnStep;
  }

  lemma {:induction false} OwnStepsClose(steps: seq<Step>, id: nat, fuel: nat)
    requires id < |Reached(steps).conns| && StepsLeft(Reached(steps), id) <= fuel
    ensures InPhase(Reached(steps + ToClose(Reached(steps), id, fuel)), id, Closed)
    decreases fuel
  {
    hide Next, Reached, OwnStep, StepsLeft, ToClose;
    var s := Reached(steps);
    ToCloseUnfolds(s, id, fuel);
    if s.conns[id].phase == Closed {
      assert steps + [] == steps;
    } else {
      OwnStepLeads(s, id);
      var step := OwnStep(s, id);
      ReachedStep(steps + [step]);
      assert (steps + [step])[..|steps|] == steps;
      OwnStepsClose(steps + [step], id, fuel - 1);
      assert (steps + [step]) + ToClose(Next(s, step), id, fuel - 1) == steps + ToClose(s, id, fuel);
    }
  }

  /** From every reachable state the handler's own steps, or the listener's, lead to the one close of a
      connection: at most seven, of which one lets another connection's batch end. */
  lemma EveryConnectionCanClose(steps: seq<Step>, id: nat)
    requires id < |Reached(steps).conns|
    ensures var all := steps + ToClose(Reached(steps), id, 7);
            InPhase(Reached(all), id, Closed) && Closes(Reached(all).log, id) == 1
  {
    hide Next, Reached, Closes;
    OwnStepsClose(steps, id, 7);
    ClosedExactlyOnce(steps + ToClose(Reached(steps), id, 7), id);
  }

  /** A connection behind registration that is not the global socket of its port. */
  predicate OutOfOffice(s: State, id: nat) {
    && id < |s.conns|
    && s.conns[id].phase in {Registered, Ending, Withdrawn, Closed}
    && s.holder.Get(s.conns[id].port) != Some(id)
  }

  lemma StaysOut(s: State, step: Step, id: nat)
    requires OutOfOffice(s, id)
    ensures OutOfOffice(Next(s, step), id)
  {
    hide Names, InUse, IsOpen;
  }

  /** The events a step adds are no batches of a connection out of office. */
  lemma NoBatchFrom(s: State, step: Step, id: nat)
    requires Inv(s) && OutOfOffice(s, id)
    ensures s.log <= Next(s, step).log
    ensures forall k :: |s.log| <= k < |Next(s, step).log| ==> Next(s, step).log[k] != Batch(id)
  {
    hide Names, InUse;
  }

  /** Once replaced or withdrawn, a download connection starts no further batch. */
  lemma {:induction false} ReplacedStartsNoBatch(before: seq<Step>, after: seq<Step>, id: nat)
    requires OutOfOffice(Reached(before), id)
    ensures OutOfOffice(Reached(before + after), id)
    ensures NoBatchBehind(Reached(before).log, Reached(before + after).log, id)
    decreases |after|
  {
    if after == [] {
      assert before + after == before;
    } else {
      hide Next, Inv, OutOfOffice, Reached;
      var all, step := before + after[..|after| - 1], after[|after| - 1];
      assert (before + after)[..|before + after| - 1] == all && (before + after)[|before + after| - 1] == step;
      ReplacedStartsNoBatch(before, after[..|after| - 1], id);
      EveryRun(all);
      ReachedStep(before + after);
      StaysOut(Reached(all), step, id);
      NoBatchFrom(Reached(all), step, id);
    }
  }

  /** `log` goes on from `was`, without a batch of `id`. */
  predicate NoBatchBehind(was: seq<Event>, log: seq<Event>, id: nat) {
    was <= log && forall k :: |was| <= k < |log| ==> log[k] != Batch(id)
  }

  lemma ReachedStep(steps: seq<Step>)
    requires steps != []
    ensures Reached(steps) == Next(Reached(steps[..|steps| - 1]), steps[|steps| - 1])
  {
  }

  /** A batch in progress belongs to a connection nobody has replaced: at worst its socket was withdrawn. */
  lemma BatchIsCurrent(steps: seq<Step>)
    ensures var s := Reached(steps);
            s.batch.Some? ==>
              && s.batch.value < |s.conns| && s.conns[s.batch.value].port == Download
              && s.conns[s.batch.value].phase == Registered
              && (s.sock.download == -1 || Names(s, s.sock.download) == Connection(s.batch.value))
  {
    hide Next, Names;
    EveryRun(steps);
    var s := Reached(steps);
    assert OwnedSocket(s, Download);
    if s.batch.Some? {
      NamesTheOwner(s, s.batch.value);
    }
  }

  // ---------- what each step is for ----------

  lemma OneMore(steps: seq<Step>, step: Step)
    ensures Inv(Reached(steps)) && Inv(Reached(steps + [step]))
    ensures Reached(steps + [step]) == Next(Reached(steps), step)
  {
    hide Inv, Next;
    EveryRun(steps);
    EveryRun(steps + [step]);
    assert (steps + [step])[..|steps|] == steps;
  }

  predicate MayRegister(s: State, id: nat) {
    InPhase(s, id, Starting) && (s.conns[id].port == Download ==> s.batch == None)
  }

  /** The ports other than `p` keep their sockets. */
  predicate OtherPortsKeep(s: State, t: State, p: Port) {
    forall q: Port :: q != p ==> t.sock.Get(q) == s.sock.Get(q) && t.holder.Get(q) == s.holder.Get(q)
  }

  /** Only connection `id` moves on, to `phase`. */
  predicate OnlyMoves(s: State, t: State, id: nat, phase: Phase)
    requires id < |s.conns|
  {
    t.conns == s.conns[id := s.conns[id].(phase := phase)] && t.others == s.others
  }

  /** Registering makes a connection the global socket of its port. The connection that was it before, if any,
      is shut down, and no other call is made. */
  lemma RegisterPublishes(steps: seq<Step>, id: nat)
    requires MayRegister(Reached(steps), id)
    ensures var s, t := Reached(steps), Reached(steps + [Register(id)]);
            var p := s.conns[id].port;
            && OnlyMoves(s, t, id, Registered) && t.batch == s.batch && OtherPortsKeep(s, t, p)
            && t.sock.Get(p) == s.conns[id].fd && t.holder.Get(p) == Some(id)
            && Names(t, t.sock.Get(p)) == Connection(id)
            && t.log == s.log + match s.holder.Get(p) {
                                  case None => []
                                  case Some(was) => [ShutDown(p, Some(was), Connection(was))] }
  {
    hide Reached, Names, InUse;
    OneMore(steps, Register(id));
    var s, t := Reached(steps), Reached(steps + [Register(id)]);
    var p := s.conns[id].port;
    assert OwnedSocket(s, p);
    NamesTheOwner(t, id);
    if s.holder.Get(p).Some? {
      NamesTheOwner(s, s.holder.Get(p).value);
    }
  }

  /** A send reaches the connection that is the global socket; one that fails shuts it down and takes the
      socket away. Without a global socket nothing is sent. */
  lemma SendReachesHolder(steps: seq<Step>, p: Port, complete: bool)
    ensures var s, t := Reached(steps), Reached(steps + [Send(p, complete)]);
            && t.conns == s.conns && t.others == s.others && t.batch == s.batch && OtherPortsKeep(s, t, p)
            && match s.holder.Get(p) {
                 case None => t == s
                 case Some(id) =>
                   id < |s.conns| &&
                   if complete then
                     && t.log == s.log + [Sent(p, Some(id), Connection(id))]
                     && t.sock.Get(p) == s.conns[id].fd && t.holder.Get(p) == Some(id)
                   else
                     && t.log == s.log + [Sent(p, Some(id), Connection(id)), ShutDown(p, Some(id), Connection(id))]
                     && t.sock.Get(p) == -1 && t.holder.Get(p) == None }
  {
    hide Reached, Names, InUse;
    OneMore(steps, Send(p, complete));
    var s := Reached(steps);
    assert OwnedSocket(s, p);
    if s.holder.Get(p).Some? {
      NamesTheOwner(s, s.holder.Get(p).value);
    }
  }

  /** An open connection recognises itself as the global socket of its port by comparing numbers. */
  lemma NumberTellsHolder(s: State, id: nat)
    requires Inv(s) && id < |s.conns| && IsOpen(s.conns[id])
    ensures var p := s.conns[id].port; s.sock.Get(p) == s.conns[id].fd <==> s.holder.Get(p) == Some(id)
  {
    hide Names, InUse, BatchOwned;
    assert OwnedSocket(s, s.conns[id].port);
  }

  /** With the download mutex free, a registered download connection starts a batch if it still is the global
      socket, and otherwise leaves its loop. The mutex is held until that batch ends. */
  lemma BatchIffHolder(steps: seq<Step>, id: nat)
    requires var s := Reached(steps); InPhase(s, id, Registered) && s.conns[id].port == Download && s.batch == None
    ensures var s, t := Reached(steps), Reached(steps + [BatchBegins(id)]);
            && t.sock == s.sock && t.holder == s.holder
            && (if s.holder.download == Some(id)
                then t.conns == s.conns && t.others == s.others && t.batch == Some(id) && t.log == s.log + [Batch(id)]
                else OnlyMoves(s, t, id, Ending) && t.batch == None && t.log == s.log)
    ensures var s, u := Reached(steps), Reached(steps + [BatchBegins(id)] + [BatchEnds(id)]);
            s.holder.download == Some(id) ==> u == s.(log := s.log + [Batch(id)])
  {
    hide Reached, Names, InUse, Inv;
    OneMore(steps, BatchBegins(id));
    OneMore(steps + [BatchBegins(id)], BatchEnds(id));
    NumberTellsHolder(Reached(steps), id);
  }

  /** A connection stops being the global socket of its port in three ways only: another one registers on that
      port, a send fails, or its own handler withdraws it. */
  lemma WhatTakesTheSocket(steps: seq<Step>, step: Step, p: Port, id: nat)
    requires Reached(steps).holder.Get(p) == Some(id)
    ensures var s, t := Reached(steps), Reached(steps + [step]);
            t.holder.Get(p) != Some(id) ==>
              || (step == Send(p, false) && t.sock.Get(p) == -1)
              || (step == Withdraw(id) && t.sock.Get(p) == -1)
              || (step.Register? && step.id != id && MayRegister(s, step.id) && s.conns[step.id].port == p)
  {
    hide Reached, Names, InUse, Distinct, BatchOwned;
    OneMore(steps, step);
    var s := Reached(steps);
    assert OwnedSocket(s, p);
    if step.Withdraw? && InPhase(s, step.id, Ending) {
      NumberTellsHolder(s, step.id);
    }
  }

  /** A handler that ends takes its own socket away and leaves that of a successor alone. */
  lemma WithdrawsOwnSocketOnly(steps: seq<Step>, id: nat)
    requires InPhase(Reached(steps), id, Ending)
    ensures var s, t := Reached(steps), Reached(steps + [Withdraw(id)]);
            var p := s.conns[id].port;
            && OnlyMoves(s, t, id, Withdrawn) && t.batch == s.batch && t.log == s.log && OtherPortsKeep(s, t, p)
            && (if s.holder.Get(p) == Some(id) then t.sock.Get(p) == -1 && t.holder.Get(p) == None
                else t.sock.Get(p) == s.sock.Get(p) && t.holder.Get(p) == s.holder.Get(p))
  {
    hide Reached, Names, InUse, Inv;
    OneMore(steps, Withdraw(id));
    NumberTellsHolder(Reached(steps), id);
  }

  /** A number no open file has. */
  predicate IsFree(s: State, fd: nat) {
    fd !in s.others && forall c <- s.conns :: IsOpen(c) ==> c.fd != fd
  }

  lemma FreeIff(s: State, fd: nat)
    ensures IsFree(s, fd) <==> fd as int !in InUse(s)
  {
    if !IsFree(s, fd) && fd !in s.others {
      var c :| c in s.conns && IsOpen(c) && c.fd == fd;
      assert c.fd as int in InUse(s);
    }
  }

  lemma ClosedIsFree(s: State, fd: nat)
    requires Inv(s) && fd in s.others
    ensures !IsFree(s, fd) && IsFree(s.(others := s.others - {fd}), fd)
  {
  }

  /** A new connection gets a number no open file has. */
  lemma ConnectionsGetFreeNumbers(steps: seq<Step>, p: Port, fd: nat)
    ensures var s := Reached(steps);
            Reached(steps + [Accept(p, fd)]) ==
              if IsFree(s, fd) then s.(conns := s.conns + [Conn(p, fd, Accepted)]) else s
  {
    hide Reached, Names, InUse, Inv, IsFree;
    OneMore(steps, Accept(p, fd));
    FreeIff(Reached(steps), fd);
  }

  /** So does the rest of the program. */
  lemma OthersGetFreeNumbers(steps: seq<Step>, fd: nat)
    ensures var s := Reached(steps);
            Reached(steps + [OtherOpens(fd)]) == if IsFree(s, fd) then s.(others := s.others + {fd}) else s
  {
    hide Reached, Names, InUse, Inv, IsFree;
    OneMore(steps, OtherOpens(fd));
    FreeIff(Reached(steps), fd);
  }

  /** A number is free again as soon as its file is closed. */
  lemma ClosedNumbersAreFree(steps: seq<Step>, fd: nat)
    requires fd in Reached(steps).others
    ensures var s, t := Reached(steps), Reached(steps + [OtherCloses(fd)]);
            t == s.(others := s.others - {fd}) && !IsFree(s, fd) && IsFree(t, fd)
  {
    hide Reached, Names, InUse, Inv, IsFree;
    OneMore(steps, OtherCloses(fd));
    ClosedIsFree(Reached(steps), fd);
  }

  /** The moves of listener and handler that touch neither a socket nor the log. */
  lemma QuietMoves(steps: seq<Step>, id: nat)
    requires id < |Reached(steps).conns|
    ensures var s := Reached(steps);
            var c := s.conns[id];
            && (c.phase == Accepted ==> Reached(steps + [HandlerStarts(id)]) == Enter(s, id, Starting))
            && (c.phase == Accepted ==> Reached(steps + [SpawnFails(id)]) == Enter(s, id, Orphaned))
            && (c.phase == Starting && c.port == Download ==> Reached(steps + [AllocationFails(id)]) == Enter(s, id, Refused))
            && (c.phase == Registered && s.batch != Some(id) ==> Reached(steps + [ReceiveEnds(id)]) == Enter(s, id, Ending))
  {
    hide Reached, Inv, Names, InUse;
    OneMore(steps, HandlerStarts(id));
    OneMore(steps, SpawnFails(id));
    OneMore(steps, AllocationFails(id));
    OneMore(steps, ReceiveEnds(id));
  }

  /** A state with connection `id` closed by listener or handler, and nothing else changed. */
  predicate ClosedSince(s: State, t: State, id: nat, listener: bool)
    requires id < |s.conns|
  {
    && OnlyMoves(s, t, id, Closed) && t.sock == s.sock && t.holder == s.holder && t.batch == s.batch
    && t.log == s.log + [ClosedBy(id, listener, Connection(id))]
    && IsFree(t, s.conns[id].fd)
  }

  lemma ClosingFrees(s: State, id: nat, listener: bool)
    requires Inv(s) && id < |s.conns| && IsOpen(s.conns[id])
    ensures ClosedSince(s, CloseFd(s, id, listener), id, listener)
  {
    hide Names, InUse;
    NamesTheOwner(s, id);
  }

  /** The listener closes what no handler was started for; the handler closes the rest, behind its withdrawal
      or without ever having registered. */
  lemma CloserCloses(steps: seq<Step>, id: nat)
    requires id < |Reached(steps).conns|
    ensures var s := Reached(steps);
            && (s.conns[id].phase == Orphaned ==> ClosedSince(s, Reached(steps + [ListenerCloses(id)]), id, true))
            && (s.conns[id].phase == Refused ==> ClosedSince(s, Reached(steps + [RefusedCloses(id)]), id, false))
            && (s.conns[id].phase == Withdrawn ==> ClosedSince(s, Reached(steps + [HandlerCloses(id)]), id, false))
  {
    hide Reached, Inv, Names, InUse, ClosedSince, CloseFd;
    var s := Reached(steps);
    OneMore(steps, ListenerCloses(id));
    OneMore(steps, RefusedCloses(id));
    OneMore(steps, HandlerCloses(id));
    if IsOpen(s.conns[id]) {
      ClosingFrees(s, id, true);
      ClosingFrees(s, id, false);
    }
  }

  /** What the code does for connection `id`, from the accept to the close: with every step in its place, with no
      thread to be had, and with no memory to be had. */
  datatype Visit = Served | NoThread | NoMemory

  function BatchSteps(p: Port, id: nat): seq<Step> {
    if p.Download? then [BatchBegins(id), BatchEnds(id)] else []
  }

  function StepsOf(visit: Visit, p: Port, fd: nat, id: nat): seq<Step> {
    match visit
    case Served =>
      [Accept(p, fd), HandlerStarts(id), Register(id)] + BatchSteps(p, id)
      + [ReceiveEnds(id), Withdraw(id), HandlerCloses(id)]
    case NoThread => [Accept(p, fd), SpawnFails(id), ListenerCloses(id)]
    case NoMemory => [Accept(p, fd), HandlerStarts(id), AllocationFails(id), RefusedCloses(id)]
  }

  /** The calls of such a visit: a served connection first shuts its predecessor down. */
  function CallsOf(visit: Visit, p: Port, id: nat, was: Option<nat>): seq<Event> {
    match visit
    case Served =>
      (if was.Some? then [ShutDown(p, was, Connection(was.value))] else [])
      + (if p.Download? then [Batch(id)] else []) + [ClosedBy(id, false, Connection(id))]
    case NoThread => [ClosedBy(id, true, Connection(id))]
    case NoMemory => [ClosedBy(id, false, Connection(id))]
  }

  /** `t` is `s` behind a visit: one more connection, closed, and its number free again. */
  predicate Visited(s: State, t: State, visit: Visit, p: Port, fd: nat) {
    && t.conns == s.conns + [Conn(p, fd, Closed)] && t.others == s.others && t.batch == None && IsFree(t, fd)
    && OtherPortsKeep(s, t, p)
    && (if visit.Served? then t.sock.Get(p) == -1 && t.holder.Get(p) == None
        else t.sock.Get(p) == s.sock.Get(p) && t.holder.Get(p) == s.holder.Get(p))
    && t.log == s.log + CallsOf(visit, p, |s.conns|, s.holder.Get(p))
  }

  /** `t` is `s` with one more connection, registered, its predecessor shut down and its batch done. */
  predicate Arrived(s: State, t: State, p: Port, fd: nat) {
    && t.conns == s.conns + [Conn(p, fd, Registered)] && t.others == s.others && t.batch == None
    && OtherPortsKeep(s, t, p) && t.holder.Get(p) == Some(|s.conns|)
    && t.log + [ClosedBy(|s.conns|, false, Connection(|s.conns|))] == s.log + CallsOf(Served, p, |s.conns|, s.holder.Get(p))
  }

  lemma Arrives(steps: seq<Step>, p: Port, fd: nat)
    requires Reached(steps).batch == None && IsFree(Reached(steps), fd)
    ensures var s := Reached(steps);
            Arrived(s, Reached(steps + [Accept(p, fd)] + [HandlerStarts(|s.conns|)] + [Register(|s.conns|)] + BatchSteps(p, |s.conns|)), p, fd)
  {
    hide Reached, Names, IsFree, InUse, Inv;
    var id := |Reached(steps).conns|;
    var a := steps + [Accept(p, fd)];
    ConnectionsGetFreeNumbers(steps, p, fd);
    var b := a + [HandlerStarts(id)];
    QuietMoves(a, id);
    var c := b + [Register(id)];
    RegisterPublishes(b, id);
    if p.Download? {
      BatchIffHolder(c, id);
      assert c + BatchSteps(p, id) == c + [BatchBegins(id)] + [BatchEnds(id)];
    } else {
      assert c + BatchSteps(p, id) == c;
    }
  }

  lemma Leaves(steps: seq<Step>, s: State, p: Port, fd: nat)
    requires Arrived(s, Reached(steps), p, fd)
    ensures var id := |s.conns|;
            Visited(s, Reached(steps + [ReceiveEnds(id)] + [Withdraw(id)] + [HandlerCloses(id)]), Served, p, fd)
  {
    hide Reached, Names, IsFree, InUse, Inv, CallsOf;
    var id := |s.conns|;
    var e := steps + [ReceiveEnds(id)];
    QuietMoves(steps, id);
    WithdrawsOwnSocketOnly(e, id);
    CloserCloses(e + [Withdraw(id)], id);
  }

  lemma ServedVisit(steps: seq<Step>, p: Port, fd: nat)
    requires Reached(steps).batch == None && IsFree(Reached(steps), fd)
    ensures var s := Reached(steps); Visited(s, Reached(steps + StepsOf(Served, p, fd, |s.conns|)), Served, p, fd)
  {
    hide Reached, IsFree, Arrived, Visited;
    var s := Reached(steps);
    var id := |s.conns|;
    var here := steps + [Accept(p, fd)] + [HandlerStarts(id)] + [Register(id)] + BatchSteps(p, id);
    Arrives(steps, p, fd);
    Leaves(here, s, p, fd);
    assert steps + StepsOf(Served, p, fd, id) == here + [ReceiveEnds(id)] + [Withdraw(id)] + [HandlerCloses(id)];
  }

  lemma FailedVisit(steps: seq<Step>, visit: Visit, p: Port, fd: nat)
    requires Reached(steps).batch == None && IsFree(Reached(steps), fd)
    requires visit.NoThread? || (visit.NoMemory? && p.Download?)
    ensures var s := Reached(steps); Visited(s, Reached(steps + StepsOf(visit, p, fd, |s.conns|)), visit, p, fd)
  {
    hide Reached, Names, IsFree, InUse, Inv;
    var id := |Reached(steps).conns|;
    var a := steps + [Accept(p, fd)];
    ConnectionsGetFreeNumbers(steps, p, fd);
    QuietMoves(a, id);
    if visit.NoThread? {
      CloserCloses(a + [SpawnFails(id)], id);
      assert steps + StepsOf(visit, p, fd, id) == a + [SpawnFails(id)] + [ListenerCloses(id)];
    } else {
      var b := a + [HandlerStarts(id)];
      QuietMoves(b, id);
      CloserCloses(b + [AllocationFails(id)], id);
      assert steps + StepsOf(visit, p, fd, id) == b + [AllocationFails(id)] + [RefusedCloses(id)];
    }
  }

  /** From every reachable state without a batch in progress, a visit makes exactly its calls, every one of them
      hitting the connection it is meant for, and leaves the number of the connection free. */
  lemma VisitMakesItsCalls(steps: seq<Step>, visit: Visit, p: Port, fd: nat)
    requires Reached(steps).batch == None && IsFree(Reached(steps), fd) && (visit.NoMemory? ==> p.Download?)
    ensures var s := Reached(steps); Visited(s, Reached(steps + StepsOf(visit, p, fd, |s.conns|)), visit, p, fd)
  {
    hide Reached, Visited, StepsOf;
    if visit.Served? {
      ServedVisit(steps, p, fd);
    } else {
      FailedVisit(steps, visit, p, fd);
    }
  }
}
