/** The broadcast scheduler as threads interleave it. Any number of threads configure, pulse and enqueue;
    one sender per channel looks for a wake, parks, and claims. Every access to shared state is a step of
    its own; the state mutex is the only thing that keeps the steps of one transaction together. */
module BroadcastThreads {
  import opened Basics
  import opened BroadcastSpec
  import opened BroadcastSafety

  /** What is left to do under the state mutex. */
  datatype Pc = CfgWrite(cfg: Config) | CfgRing(cfg: Config, k: nat) | CfgWake(cfg: Config, k: nat) | CfgGate(cfg: Config)
              | PpsGate | PpsSelect(now: nat) | PpsNotify(now: nat, mask: set<nat>, k: nat)
              | EnqGate(ch: nat, frames: seq<CanFrame>)
              | EnqRoom(ch: nat, frames: seq<CanFrame>, now: nat)
              | EnqId(ch: nat, frames: seq<CanFrame>, now: nat)
              | EnqPut(ch: nat, frames: seq<CanFrame>, now: nat, id: nat)
              | Claiming(ch: nat)
              | Finished(op: Op, outcome: Outcome)

  datatype Lock = Free | Held(tid: nat, pc: Pc)

  /** A sender between two looks at its counter, waiting on its condition variable, or on its way to the
      state mutex because it has seen a wake. */
  datatype Sender = Looking | Parked | Observed | Serving

  datatype State = State(sh: Shared, lock: Lock, senders: seq<Sender>, isOpen: seq<bool>, clock: nat,
                         log: seq<Op>, outcomes: seq<Outcome>)

  datatype Step = Tick(elapsed: nat)
                | Toggle(ch: nat)
                | LockConfig(tid: nat, cfg: Config)
                | LockPps(tid: nat)
                | LockEnqueue(tid: nat, ch: nat, frames: seq<CanFrame>)
                | LockClaim(ch: nat)
                | Run
                | Unlock
                | Look(ch: nat)
                | Spurious(ch: nat)

  function Start(n: Size): (s: State) {
    State(Initial(n), Free, seq(n, _ => Looking), seq(n, _ => false), 0, [], [])
  }

  predicate Shape(s: State, n: Size) {
    Fits(s.sh, n) && |s.senders| == |s.isOpen| == n && |s.outcomes| == |s.log|
  }

  /** One access of the mutex holder: the new shared state, what is left, and whom it signals. */
  function Access(sh: Shared, n: Size, depth: Size, pc: Pc, clock: nat, isOpen: seq<bool>): (r: (Shared, Pc, set<nat>))
    requires Fits(sh, n) && |isOpen| == n
    ensures Fits(r.0, n)
  {
    match pc
    case CfgWrite(c) => (sh.(cfg := c), CfgRing(c, 0), {})
    case CfgRing(c, k) =>
      if k >= n then (sh, CfgGate(c), {}) else (sh.(rings := sh.rings[k := []]), CfgWake(c, k), {})
    case CfgWake(c, k) =>
      if k >= n then (sh, CfgGate(c), {}) else (sh.(pending := sh.pending[k := 0]), CfgRing(c, k + 1), {})
    case CfgGate(c) => (sh.(gateOpen := false, gateUntil := 0), Finished(Configure(c), Configured), {})
    case PpsGate => (sh.(gateOpen := true, gateUntil := clock + RX_WINDOW_MS), PpsSelect(clock), {})
    case PpsSelect(now) => var (mask, c) := Select(sh.cfg, n); (sh.(cfg := c), PpsNotify(now, mask, 0), {})
    case PpsNotify(now, mask, k) =>
      if k >= n then (sh, Finished(Pps(now), Woken(mask)), {})
      else if k in mask
      then (sh.(pending := sh.pending[k := (sh.pending[k] + 1) % U32]), PpsNotify(now, mask, k + 1), {k})
      else (sh, PpsNotify(now, mask, k + 1), {})
    case EnqGate(ch, frames) =>
      if GateAdmits(sh, clock) then (sh, EnqRoom(ch, frames, clock), {})
      else (sh.(gateOpen := false, gateUntil := 0), Finished(Enqueue(ch, frames, clock), GateClosed), {})
    case EnqRoom(ch, frames, now) =>
      if ch >= n || |sh.rings[ch]| >= depth then (sh, Finished(Enqueue(ch, frames, now), RingFull), {})
      else (sh, EnqId(ch, frames, now), {})
    case EnqId(ch, frames, now) =>
      var id := NextId(sh.lastId); (sh.(lastId := id), EnqPut(ch, frames, now, id), {})
    case EnqPut(ch, frames, now, id) =>
      if ch >= n || |sh.rings[ch]| >= depth then (sh, Finished(Enqueue(ch, frames, now), RingFull), {})
      else (sh.(rings := sh.rings[ch := sh.rings[ch] + [Group(id, frames)]]),
            Finished(Enqueue(ch, frames, now), Accepted(Group(id, frames))), {})
    case Claiming(ch) =>
      if ch >= n then (sh, pc, {})
      else var (t, a) := ClaimGroup(sh, n, ch, isOpen[ch]); (t, Finished(Claim(ch, isOpen[ch]), a), {})
    case Finished(_, _) => (sh, pc, {})
  }

  /** Signalled senders wake up; a signal to a sender that is not parked is lost. */
  function Signal(senders: seq<Sender>, signalled: set<nat>): (r: seq<Sender>)
    ensures |r| == |senders|
  {
    seq(|senders|, c requires 0 <= c < |senders| => if c in signalled && senders[c].Parked? then Looking else senders[c])
  }

  function Acquired(s: State, tid: nat, pc: Pc): State {
    if s.lock.Free? then s.(lock := Held(tid, pc)) else s
  }

  /** One step of the machine; a step that is not enabled changes nothing. */
  function Next(s: State, n: Size, depth: Size, step: Step): (t: State)
    requires Shape(s, n)
    ensures Shape(t, n)
  {
    match step
    case Tick(elapsed) => s.(clock := s.clock + elapsed)
    case Toggle(ch) => if ch < n then s.(isOpen := s.isOpen[ch := !s.isOpen[ch]]) else s
    case LockConfig(tid, cfg) => Acquired(s, tid, CfgWrite(cfg))
    case LockPps(tid) => Acquired(s, tid, PpsGate)
    case LockEnqueue(tid, ch, frames) => if ch < n then Acquired(s, tid, EnqGate(ch, frames)) else s
    case LockClaim(ch) =>
      if ch < n && s.senders[ch].Observed? && s.lock.Free?
      then s.(lock := Held(ch, Claiming(ch)), senders := s.senders[ch := Serving]) else s
    case Run =>
      if s.lock.Free? then s
      else
        var (sh, pc, signalled) := Access(s.sh, n, depth, s.lock.pc, s.clock, s.isOpen);
        s.(sh := sh, lock := s.lock.(pc := pc), senders := Signal(s.senders, signalled))
    case Unlock =>
      if s.lock.Held? && s.lock.pc.Finished? then
        var op := s.lock.pc.op;
        s.(lock := Free, log := s.log + [op], outcomes := s.outcomes + [s.lock.pc.outcome],
           senders := if op.Claim? && op.ch < n then s.senders[op.ch := Looking] else s.senders)
      else s
    case Look(ch) =>
      if ch < n && s.senders[ch].Looking?
      then s.(senders := s.senders[ch := if s.sh.pending[ch] == 0 then Parked else Observed]) else s
    case Spurious(ch) =>
      if ch < n && s.senders[ch].Parked? then s.(senders := s.senders[ch := Looking]) else s
  }

  /** The state after an interleaving. */
  function Reached(n: Size, depth: Size, steps: seq<Step>): (s: State)
    ensures Shape(s, n)
  {
    if steps == [] then Start(n)
    else Next(Reached(n, depth, steps[..|steps| - 1]), n, depth, steps[|steps| - 1])
  }

  // ---------- every interleaving is a sequence of transactions ----------

  /** How far a half-done transaction has got: `sh` is `base` with exactly the accesses before `pc` made. */
  predicate HalfDone(base: Shared, sh: Shared, n: Size, depth: Size, pc: Pc)
    requires Fits(base, n)
  {
    match pc
    case CfgWrite(_) => sh == base
    case CfgRing(c, k) => k <= n && sh == base.(cfg := c, rings := RingsCleared(base.rings, k), pending := PendingCleared(base.pending, k))
    case CfgWake(c, k) => k < n && sh == base.(cfg := c, rings := RingsCleared(base.rings, k + 1), pending := PendingCleared(base.pending, k))
    case CfgGate(c) => sh == base.(cfg := c, rings := RingsCleared(base.rings, n), pending := PendingCleared(base.pending, n))
    case PpsGate => sh == base
    case PpsSelect(now) => sh == base.(gateOpen := true, gateUntil := now + RX_WINDOW_MS)
    case PpsNotify(now, mask, k) =>
      k <= n && mask == Select(base.cfg, n).0 &&
      sh == base.(gateOpen := true, gateUntil := now + RX_WINDOW_MS, cfg := Select(base.cfg, n).1, pending := Notified(base.pending, mask, k))
    case EnqGate(ch, _) => sh == base && ch < n
    case EnqRoom(ch, _, now) => sh == base && ch < n && GateAdmits(base, now)
    case EnqId(ch, _, now) => sh == base && ch < n && GateAdmits(base, now) && |base.rings[ch]| < depth
    case EnqPut(ch, _, now, id) =>
      ch < n && GateAdmits(base, now) && |base.rings[ch]| < depth && id == NextId(base.lastId) && sh == base.(lastId := id)
    case Claiming(ch) => sh == base && ch < n
    case Finished(op, a) => Apply(base, n, depth, op) == (sh, a) && InRange(n, op)
  }

  lemma AccessAdvances(base: Shared, sh: Shared, n: Size, depth: Size, pc: Pc, clock: nat, isOpen: seq<bool>)
    requires Fits(base, n) && Fits(sh, n) && |isOpen| == n && HalfDone(base, sh, n, depth, pc)
    ensures var (t, next, _) := Access(sh, n, depth, pc, clock, isOpen); HalfDone(base, t, n, depth, next)
  {
    hide Select;
  }

  /** The clock reading a transaction has taken, or may still take. */
  function ReadingOf(pc: Pc, clock: nat): nat {
    match pc
    case PpsSelect(now) => now
    case PpsNotify(now, _, _) => now
    case EnqRoom(_, _, now) => now
    case EnqId(_, _, now) => now
    case EnqPut(_, _, now, _) => now
    case Finished(op, _) => TimeOf(op, clock)
    case _ => clock
  }

  predicate IsClaimOf(pc: Pc, ch: nat) {
    (pc.Claiming? && pc.ch == ch) || (pc.Finished? && pc.op.Claim? && pc.op.ch == ch)
  }

  ghost predicate Logged(n: Size, depth: Size, log: seq<Op>, outcomes: seq<Outcome>) {
    |outcomes| == |log| && forall i :: 0 <= i < |log| ==> outcomes[i] == AnswerAt(n, depth, log, i)
  }

  ghost predicate LockInv(s: State, n: Size, depth: Size) {
    match s.lock
    case Free => s.sh == After(n, depth, s.log) && TimesUpTo(s.log, s.clock)
    case Held(_, pc) =>
      && HalfDone(After(n, depth, s.log), s.sh, n, depth, pc)
      && ReadingOf(pc, s.clock) <= s.clock && TimesUpTo(s.log, ReadingOf(pc, s.clock))
  }

  /** A parked sender has no wake waiting; a serving one holds the mutex. */
  predicate SenderInv(s: State, n: Size)
    requires Shape(s, n)
  {
    forall ch :: 0 <= ch < n ==>
      && (s.senders[ch].Parked? ==> s.sh.pending[ch] == 0)
      && (s.senders[ch].Serving? ==> s.lock.Held? && IsClaimOf(s.lock.pc, ch))
  }

  ghost predicate Inv(s: State, n: Size, depth: Size) {
    Shape(s, n) && Logged(n, depth, s.log, s.outcomes) && Monotone(s.log) && LockInv(s, n, depth) && SenderInv(s, n)
  }

  lemma LoggedOneMore(n: Size, depth: Size, log: seq<Op>, outcomes: seq<Outcome>, op: Op, a: Outcome)
    requires Logged(n, depth, log, outcomes) && Apply(After(n, depth, log), n, depth, op).1 == a
    ensures Logged(n, depth, log + [op], outcomes + [a])
    ensures After(n, depth, log + [op]) == Apply(After(n, depth, log), n, depth, op).0
  {
    hide Apply, Answer;
    var all := log + [op];
    assert Front(all) == log;
    Unfold(n, depth, all, 0);
    forall i | 0 <= i < |all|
      ensures (outcomes + [a])[i] == AnswerAt(n, depth, all, i)
    {
      if i < |log| {
        assert all[..i + 1] == log[..i + 1];
      } else {
        assert all[..i + 1] == all;
      }
    }
  }

  /** Accesses of the mutex holder keep parked senders without a wake. */
  lemma AccessSignals(sh: Shared, n: Size, depth: Size, pc: Pc, clock: nat, isOpen: seq<bool>, ch: nat)
    requires Fits(sh, n) && |isOpen| == n && ch < n
    ensures var (t, next, signalled) := Access(sh, n, depth, pc, clock, isOpen);
            && (sh.pending[ch] == 0 && ch !in signalled ==> t.pending[ch] == 0)
            && (IsClaimOf(pc, ch) ==> IsClaimOf(next, ch))
            && ReadingOf(next, clock) == ReadingOf(pc, clock)
  {
    hide Select;
  }

  lemma RunKeeps(s: State, n: Size, depth: Size)
    requires Inv(s, n, depth) && s.lock.Held?
    ensures Inv(Next(s, n, depth, Run), n, depth)
  {
    hide Apply, After, Access, HalfDone, ReadingOf, IsClaimOf, Logged, Monotone, TimesUpTo;
    AccessAdvances(After(n, depth, s.log), s.sh, n, depth, s.lock.pc, s.clock, s.isOpen);
    forall ch: nat | ch < n
      ensures var (t, next, signalled) := Access(s.sh, n, depth, s.lock.pc, s.clock, s.isOpen);
            && (s.sh.pending[ch] == 0 && ch !in signalled ==> t.pending[ch] == 0)
            && (IsClaimOf(s.lock.pc, ch) ==> IsClaimOf(next, ch))
    {
      AccessSignals(s.sh, n, depth, s.lock.pc, s.clock, s.isOpen, ch);
    }
    AccessSignals(s.sh, n, depth, s.lock.pc, s.clock, s.isOpen, 0);
  }

  lemma UnlockKeeps(s: State, n: Size, depth: Size)
    requires Inv(s, n, depth) && s.lock.Held? && s.lock.pc.Finished?
    ensures Inv(Next(s, n, depth, Unlock), n, depth)
  {
    hide Apply, After, Logged;
    LoggedOneMore(n, depth, s.log, s.outcomes, s.lock.pc.op, s.lock.pc.outcome);
  }

  lemma OtherKeeps(s: State, n: Size, depth: Size, step: Step)
    requires Inv(s, n, depth) && !step.Run? && !step.Unlock?
    ensures Inv(Next(s, n, depth, step), n, depth)
  {
    hide Apply, After, Logged, Monotone;
  }

  lemma {:induction false} EveryInterleaving(n: Size, depth: Size, steps: seq<Step>)
    ensures Inv(Reached(n, depth, steps), n, depth)
    decreases |steps|
  {
    if steps == [] {
      Empty(n, depth, 0);
    } else {
      hide Inv, Access;
      var s, step := Reached(n, depth, steps[..|steps| - 1]), steps[|steps| - 1];
      EveryInterleaving(n, depth, steps[..|steps| - 1]);
      if step.Run? {
        if s.lock.Held? {
          RunKeeps(s, n, depth);
        }
      } else if step.Unlock? {
        if s.lock.Held? && s.lock.pc.Finished? {
          UnlockKeeps(s, n, depth);
        }
      } else {
        OtherKeeps(s, n, depth, step);
      }
    }
  }

  /** Whatever the interleaving, the outcomes the threads saw are those of the logged transactions run one
      after the other, and between transactions the shared state is theirs. */
  lemma Serialisable(n: Size, depth: Size, steps: seq<Step>)
    ensures var s := Reached(n, depth, steps);
            && Logged(n, depth, s.log, s.outcomes) && Monotone(s.log)
            && (s.lock.Free? ==> s.sh == After(n, depth, s.log))
  {
    hide After, Reached, Logged, Monotone;
    EveryInterleaving(n, depth, steps);
  }

  /** Generation safety for threads: what a claim takes was put in, and woken for, after the latest
      configuration, however the steps of senders, pulses and configurations interleave. */
  lemma ThreadsKeepGenerations(n: Size, depth: Size, steps: seq<Step>, i: nat)
    requires i < |Reached(n, depth, steps).log|
    requires Reached(n, depth, steps).log[i].Claim?
    ensures var (log, outcomes) := (Reached(n, depth, steps).log, Reached(n, depth, steps).outcomes);
            && (UsesWake(outcomes[i]) ==>
                  exists w: nat :: w < i && NoConfig(log, w, i) && log[w].Pps? && outcomes[w].Woken? && log[i].ch in outcomes[w].mask)
            && (outcomes[i].Delivered? ==>
                  exists j: nat :: j < i && NoConfig(log, j, i) && log[j].Enqueue? && log[j].ch == log[i].ch &&
                                   outcomes[j] == Accepted(outcomes[i].group))
  {
    hide After, AnswerAt, Reached, NoConfig;
    Serialisable(n, depth, steps);
    var log, outcomes := Reached(n, depth, steps).log, Reached(n, depth, steps).outcomes;
    if UsesWake(outcomes[i]) {
      NoStaleWake(n, depth, log, i);
      var w: nat :| w < i && NoConfig(log, w, i) && WokenAt(n, depth, log, w, log[i].ch);
      assert outcomes[w] == AnswerAt(n, depth, log, w);
    }
    if outcomes[i].Delivered? {
      GenerationSafety(n, depth, log, i);
      var j: nat :| j < i && NoConfig(log, j, i) && AcceptedAt(n, depth, log, j, log[i].ch, outcomes[i].group);
      assert outcomes[j] == AnswerAt(n, depth, log, j);
    }
  }

  /** An accepted group was let in within the window of a pulse that no configuration followed. */
  lemma ThreadsKeepWindow(n: Size, depth: Size, steps: seq<Step>, i: nat)
    requires i < |Reached(n, depth, steps).log|
    requires Reached(n, depth, steps).outcomes[i].Accepted?
    ensures var log := Reached(n, depth, steps).log;
            && log[i].Enqueue?
            && exists j: nat :: j < i && log[j].Pps? && NoConfig(log, j, i) && log[j].now <= log[i].now <= log[j].now + 1000
  {
    hide After, Reached, Apply;
    Serialisable(n, depth, steps);
    var log := Reached(n, depth, steps).log;
    assert Reached(n, depth, steps).outcomes[i] == AnswerAt(n, depth, log, i);
    assert Last(log[..i + 1]) == log[i] && Front(log[..i + 1]) == log[..i];
    AcceptedIsEnqueue(n, depth, log[..i + 1]);
    EnqueueAdmittedIffPulse(n, depth, log, i);
    var j: nat :| PulseInWindow(log[..i], j, log[i].now);
    assert log[..i][j] == log[j];
    assert NoConfig(log, j, i) by {
      forall k | j < k <= i
        ensures !log[k].Configure?
      {
        if k < i {
          assert log[..i][k] == log[k];
        }
      }
    }
  }

  lemma AcceptedIsEnqueue(n: Size, depth: Size, ops: seq<Op>)
    requires ops != [] && Answer(n, depth, ops).Accepted?
    ensures Last(ops).Enqueue? && Last(ops).ch < n
  {
  }

  /** The put behind the room test never fails, in any interleaving, so that no id is handed out in vain. */
  lemma PutNeverFails(n: Size, depth: Size, steps: seq<Step>)
    ensures var s := Reached(n, depth, steps);
            s.lock.Held? && s.lock.pc.EnqPut? ==>
              var (t, next, _) := Access(s.sh, n, depth, s.lock.pc, s.clock, s.isOpen);
              && s.lock.pc.ch < n && |s.sh.rings[s.lock.pc.ch]| < depth
              && next.Finished? && next.outcome.Accepted? && next.outcome.group.id == s.sh.lastId
  {
    hide Reached, After, Logged, Monotone, TimesUpTo;
    EveryInterleaving(n, depth, steps);
  }

  // ---------- progress ----------

  /** How many more accesses the mutex holder makes. */
  function Remaining(pc: Pc, n: Size): nat {
    match pc
    case CfgWrite(_) => 2 * n + 3
    case CfgRing(_, k) => if k < n then 2 * (n - k) + 2 else 2
    case CfgWake(_, k) => if k < n then 2 * (n - k) + 1 else 2
    case CfgGate(_) => 1
    case PpsGate => n + 3
    case PpsSelect(_) => n + 2
    case PpsNotify(_, _, k) => if k < n then n - k + 1 else 1
    case EnqGate(_, _) => 4
    case EnqRoom(_, _, _) => 3
    case EnqId(_, _, _) => 2
    case EnqPut(_, _, _, _) => 1
    case Claiming(_) => 1
    case Finished(_, _) => 0
  }

  lemma AccessProgresses(sh: Shared, n: Size, depth: Size, pc: Pc, clock: nat, isOpen: seq<bool>)
    requires Fits(sh, n) && |isOpen| == n && !pc.Finished? && (pc.Claiming? ==> pc.ch < n)
    ensures Remaining(Access(sh, n, depth, pc, clock, isOpen).1, n) < Remaining(pc, n)
  {
    hide Select;
  }

  /** The steps that let the mutex holder finish. */
  function Finish(s: State, n: Size, depth: Size, fuel: nat): seq<Step>
    requires Shape(s, n)
    decreases fuel
  {
    if s.lock.Free? then []
    else if s.lock.pc.Finished? then [Unlock]
    else if fuel == 0 then []
    else [Run] + Finish(Next(s, n, depth, Run), n, depth, fuel - 1)
  }

  lemma ReachedStep(n: Size, depth: Size, steps: seq<Step>, step: Step)
    ensures Reached(n, depth, steps + [step]) == Next(Reached(n, depth, steps), n, depth, step)
  {
    assert (steps + [step])[..|steps|] == steps;
  }

  /** Nobody waits for ever: from every reachable state the mutex holder, taking its own steps only,
      gets to its end and releases the mutex. */
  lemma {:induction false} MutexIsReleased(n: Size, depth: Size, steps: seq<Step>, fuel: nat)
    requires var s := Reached(n, depth, steps); s.lock.Held? ==> Remaining(s.lock.pc, n) <= fuel
    ensures Reached(n, depth, steps + Finish(Reached(n, depth, steps), n, depth, fuel)).lock.Free?
    decreases fuel
  {
    hide Access, Reached, Remaining, Inv, HalfDone;
    var s := Reached(n, depth, steps);
    if s.lock.Free? {
      assert steps + [] == steps;
    } else if s.lock.pc.Finished? {
      ReachedStep(n, depth, steps, Unlock);
    } else {
      EveryInterleaving(n, depth, steps);
      HolderCanRun(s, n, depth);
      AccessProgresses(s.sh, n, depth, s.lock.pc, s.clock, s.isOpen);
      ReachedStep(n, depth, steps, Run);
      var rest := Finish(Next(s, n, depth, Run), n, depth, fuel - 1);
      MutexIsReleased(n, depth, steps + [Run], fuel - 1);
      assert (steps + [Run]) + rest == steps + ([Run] + rest);
    }
  }

  lemma HolderCanRun(s: State, n: Size, depth: Size)
    requires Inv(s, n, depth) && s.lock.Held?
    ensures s.lock.pc.Claiming? ==> s.lock.pc.ch < n
  {
    hide After, Logged, Monotone;
  }

  /** A wake is never stranded: with the mutex free and a wake waiting, the sender of the channel is not
      parked, and by its own steps alone it makes a claim that uses up a wake. */
  lemma WakeIsClaimed(n: Size, depth: Size, steps: seq<Step>, ch: nat)
    requires ch < n
    requires var s := Reached(n, depth, steps); s.lock.Free? && s.sh.pending[ch] > 0
    ensures !Reached(n, depth, steps).senders[ch].Parked?
    ensures var s := Reached(n, depth, steps);
            var t := Reached(n, depth, steps + [Look(ch), LockClaim(ch), Run, Unlock]);
            && t.lock.Free? && t.log == s.log + [Claim(ch, s.isOpen[ch])]
            && UsesWake(t.outcomes[|s.log|])
            && t.sh.pending[ch] == s.sh.pending[ch] - 1
  {
    hide Reached, After, HalfDone, Logged, Monotone;
    EveryInterleaving(n, depth, steps);
    ReachedStep(n, depth, steps, Look(ch));
    ReachedStep(n, depth, steps + [Look(ch)], LockClaim(ch));
    ReachedStep(n, depth, steps + [Look(ch), LockClaim(ch)], Run);
    ReachedStep(n, depth, steps + [Look(ch), LockClaim(ch), Run], Unlock);
    assert (steps + [Look(ch)]) + [LockClaim(ch)] == steps + [Look(ch), LockClaim(ch)];
    assert (steps + [Look(ch), LockClaim(ch)]) + [Run] == steps + [Look(ch), LockClaim(ch), Run];
    assert (steps + [Look(ch), LockClaim(ch), Run]) + [Unlock] == steps + [Look(ch), LockClaim(ch), Run, Unlock];
  }

  // ---------- what each transaction comes to ----------

  /** The transaction a mutex holder is in. */
  function Intent(pc: Pc, clock: nat, isOpen: seq<bool>): Op {
    match pc
    case CfgWrite(c) => Configure(c)
    case CfgRing(c, _) => Configure(c)
    case CfgWake(c, _) => Configure(c)
    case CfgGate(c) => Configure(c)
    case PpsGate => Pps(clock)
    case PpsSelect(now) => Pps(now)
    case PpsNotify(now, _, _) => Pps(now)
    case EnqGate(ch, frames) => Enqueue(ch, frames, clock)
    case EnqRoom(ch, frames, now) => Enqueue(ch, frames, now)
    case EnqId(ch, frames, now) => Enqueue(ch, frames, now)
    case EnqPut(ch, frames, now, _) => Enqueue(ch, frames, now)
    case Claiming(ch) => Claim(ch, ch < |isOpen| && isOpen[ch])
    case Finished(op, _) => op
  }

  lemma AccessKeepsIntent(sh: Shared, n: Size, depth: Size, pc: Pc, clock: nat, isOpen: seq<bool>)
    requires Fits(sh, n) && |isOpen| == n
    ensures Intent(Access(sh, n, depth, pc, clock, isOpen).1, clock, isOpen) == Intent(pc, clock, isOpen)
  {
    hide Select, ClaimGroup;
  }

  /** `t` is `s` with one more transaction done and the mutex free. */
  predicate OneMore(s: State, t: State, op: Op) {
    && t.lock.Free? && t.log == s.log + [op] && t.clock == s.clock && t.isOpen == s.isOpen
    && |t.outcomes| == |s.outcomes| + 1 && t.outcomes[..|s.outcomes|] == s.outcomes
  }

  /** The mutex holder, taking its own steps only, finishes the transaction it is in and nothing else. */
  lemma {:induction false} HolderDoesItsOwn(n: Size, depth: Size, steps: seq<Step>, fuel: nat)
    requires var s := Reached(n, depth, steps); s.lock.Held? && Remaining(s.lock.pc, n) <= fuel
    ensures var s := Reached(n, depth, steps);
            OneMore(s, Reached(n, depth, steps + Finish(s, n, depth, fuel)), Intent(s.lock.pc, s.clock, s.isOpen))
    decreases fuel
  {
    hide Access, Reached, Remaining, Inv, HalfDone, Intent;
    var s := Reached(n, depth, steps);
    if s.lock.pc.Finished? {
      ReachedStep(n, depth, steps, Unlock);
      IntentOfFinished(s.lock.pc, s.clock, s.isOpen);
    } else {
      EveryInterleaving(n, depth, steps);
      HolderCanRun(s, n, depth);
      AccessProgresses(s.sh, n, depth, s.lock.pc, s.clock, s.isOpen);
      AccessKeepsIntent(s.sh, n, depth, s.lock.pc, s.clock, s.isOpen);
      ReachedStep(n, depth, steps, Run);
      var rest := Finish(Next(s, n, depth, Run), n, depth, fuel - 1);
      HolderDoesItsOwn(n, depth, steps + [Run], fuel - 1);
      assert (steps + [Run]) + rest == steps + ([Run] + rest);
    }
  }

  lemma IntentOfFinished(pc: Pc, clock: nat, isOpen: seq<bool>)
    requires pc.Finished?
    ensures Intent(pc, clock, isOpen) == pc.op
  {
  }

  /** A thread's lock step followed by its own steps up to the release. */
  function Whole(n: Size, depth: Size, steps: seq<Step>, lock: Step): seq<Step> {
    steps + [lock] + Finish(Reached(n, depth, steps + [lock]), n, depth, 2 * n + 4)
  }

  /** The transaction a lock step begins. */
  function Begun(lock: Step, clock: nat): Option<Op> {
    match lock
    case LockConfig(_, cfg) => Some(Configure(cfg))
    case LockPps(_) => Some(Pps(clock))
    case LockEnqueue(_, ch, frames) => Some(Enqueue(ch, frames, clock))
    case _ => None
  }

  lemma LockBegins(n: Size, depth: Size, s: State, lock: Step)
    requires Shape(s, n) && s.lock.Free? && Begun(lock, s.clock).Some? && InRange(n, Begun(lock, s.clock).value)
    ensures var t := Next(s, n, depth, lock);
            && t.lock.Held? && t == s.(lock := t.lock) && Remaining(t.lock.pc, n) <= 2 * n + 4
            && Intent(t.lock.pc, t.clock, t.isOpen) == Begun(lock, s.clock).value
  {
  }

  /** From every reachable state with the mutex free, a lock step and the thread's own steps make exactly the
      transaction asked for, with the present clock, and free the mutex again. */
  lemma TransactionRuns(n: Size, depth: Size, steps: seq<Step>, lock: Step, op: Op)
    requires Reached(n, depth, steps).lock.Free?
    requires Begun(lock, Reached(n, depth, steps).clock) == Some(op) && InRange(n, op)
    ensures var s, t := Reached(n, depth, steps), Reached(n, depth, Whole(n, depth, steps, lock));
            OneMore(s, t, op) && (t.sh, t.outcomes[|s.log|]) == Apply(s.sh, n, depth, op)
  {
    hide Reached, Intent, Remaining, Begun, Inv, Next;
    var s, all := Reached(n, depth, steps), Whole(n, depth, steps, lock);
    LockBegins(n, depth, s, lock);
    ReachedStep(n, depth, steps, lock);
    HolderDoesItsOwn(n, depth, steps + [lock], 2 * n + 4);
    Serialisable(n, depth, steps);
    Serialisable(n, depth, all);
    LoggedLast(n, depth, s, Reached(n, depth, all), op);
  }

  lemma LoggedLast(n: Size, depth: Size, s: State, t: State, op: Op)
    requires Shape(s, n) && Shape(t, n) && OneMore(s, t, op) && s.sh == After(n, depth, s.log)
    requires Logged(n, depth, t.log, t.outcomes) && t.sh == After(n, depth, t.log)
    ensures (t.sh, t.outcomes[|s.log|]) == Apply(s.sh, n, depth, op)
  {
    hide Apply;
    assert t.log[..|s.log| + 1] == t.log && Front(t.log) == s.log;
    Unfold(n, depth, t.log, 0);
  }

  /** A configuring thread installs its configuration and leaves nothing queued, no wake waiting and the gate shut. */
  lemma ConfigurationRuns(n: Size, depth: Size, steps: seq<Step>, tid: nat, cfg: Config)
    requires Reached(n, depth, steps).lock.Free?
    ensures var s, t := Reached(n, depth, steps), Reached(n, depth, Whole(n, depth, steps, LockConfig(tid, cfg)));
            && OneMore(s, t, Configure(cfg)) && t.outcomes[|s.log|] == Configured
            && t.sh.cfg == cfg && !t.sh.gateOpen && t.sh.lastId == s.sh.lastId
            && forall c :: 0 <= c < n ==> t.sh.rings[c] == [] && t.sh.pending[c] == 0
  {
    hide Reached, Whole, OneMore;
    TransactionRuns(n, depth, steps, LockConfig(tid, cfg), Configure(cfg));
  }

  /** A pulsing thread takes the clock once, opens the gate from then on, and wakes the channels selected. */
  lemma PulseRuns(n: Size, depth: Size, steps: seq<Step>, tid: nat)
    requires Reached(n, depth, steps).lock.Free?
    ensures var s, t := Reached(n, depth, steps), Reached(n, depth, Whole(n, depth, steps, LockPps(tid)));
            && OneMore(s, t, Pps(s.clock)) && t.outcomes[|s.log|] == Woken(Select(s.sh.cfg, n).0)
            && t.sh.cfg == Select(s.sh.cfg, n).1 && t.sh.rings == s.sh.rings
            && t.sh.gateOpen && t.sh.gateUntil == s.clock + 1000
            && forall c :: 0 <= c < n ==>
                 t.sh.pending[c] == (s.sh.pending[c] + if c in Select(s.sh.cfg, n).0 then 1 else 0) % 0x1_0000_0000
  {
    hide Reached, Whole, OneMore, Select;
    TransactionRuns(n, depth, steps, LockPps(tid), Pps(Reached(n, depth, steps).clock));
    PendingBounded(n, depth, steps);
  }

  lemma CountersFit(n: Size, depth: Size, ops: seq<Op>, ch: nat)
    requires ch < n
    ensures After(n, depth, ops).pending[ch] < 0x1_0000_0000
  {
    WakesConserved(n, depth, ops, ch);
  }

  lemma PendingBounded(n: Size, depth: Size, steps: seq<Step>)
    requires Reached(n, depth, steps).lock.Free?
    ensures forall c :: 0 <= c < n ==> Reached(n, depth, steps).sh.pending[c] < 0x1_0000_0000
  {
    hide Reached, After, Logged, Monotone;
    Serialisable(n, depth, steps);
    forall c: nat | c < n
      ensures Reached(n, depth, steps).sh.pending[c] < 0x1_0000_0000
    {
      CountersFit(n, depth, Reached(n, depth, steps).log, c);
    }
  }

  /** An enqueuing thread gets its frames into the ring exactly when a pulse lies in the window of the clock it
      takes and the ring has room, and is told which of the two was missing otherwise. */
  lemma EnqueueRuns(n: Size, depth: Size, steps: seq<Step>, tid: nat, ch: nat, frames: seq<CanFrame>)
    requires ch < n && Reached(n, depth, steps).lock.Free?
    ensures var s, t := Reached(n, depth, steps), Reached(n, depth, Whole(n, depth, steps, LockEnqueue(tid, ch, frames)));
            && OneMore(s, t, Enqueue(ch, frames, s.clock))
            && EnqueuedOr(s, t, ch, frames, depth, exists j: nat :: PulseInWindow(s.log, j, s.clock))
  {
    hide Reached, Whole, PulseInWindow, Monotone, Logged, TimesUpTo, After, HalfDone;
    var s, op := Reached(n, depth, steps), Enqueue(ch, frames, Reached(n, depth, steps).clock);
    TransactionRuns(n, depth, steps, LockEnqueue(tid, ch, frames), op);
    EveryInterleaving(n, depth, steps);
    GateIsPulseWindow(n, depth, s.log, s.clock);
    GroupsConserved(n, depth, s.log, ch);
  }

  /** What an enqueue on `ch` comes to, with and without a pulse in the window. */
  predicate EnqueuedOr(s: State, t: State, ch: nat, frames: seq<CanFrame>, depth: Size, pulse: bool)
    requires |s.outcomes| < |t.outcomes| && ch < |s.sh.rings|
  {
    var a := t.outcomes[|s.outcomes|];
    if !pulse then a == GateClosed && t.sh.rings == s.sh.rings
    else if |s.sh.rings[ch]| == depth then a == RingFull && t.sh.rings == s.sh.rings
    else a.Accepted? && a.group.frames == frames && t.sh.rings == s.sh.rings[ch := s.sh.rings[ch] + [a.group]]
  }

  /** While one thread holds the mutex no other gets it. */
  lemma OthersWait(n: Size, depth: Size, steps: seq<Step>, step: Step)
    requires Reached(n, depth, steps).lock.Held?
    requires step.LockConfig? || step.LockPps? || step.LockEnqueue? || step.LockClaim?
    ensures Reached(n, depth, steps + [step]) == Reached(n, depth, steps)
  {
    hide Reached;
    ReachedStep(n, depth, steps, step);
  }

  /** The clock goes on, channels are opened and closed, and senders look and park, beside whatever transaction
      is in progress. A sender that finds no wake parks; one that finds a wake is on its way to claim it. */
  lemma BesideTransactions(n: Size, depth: Size, steps: seq<Step>, elapsed: nat, ch: nat)
    requires ch < n
    ensures var s := Reached(n, depth, steps);
            && Reached(n, depth, steps + [Tick(elapsed)]) == s.(clock := s.clock + elapsed)
            && Reached(n, depth, steps + [Toggle(ch)]) == s.(isOpen := s.isOpen[ch := !s.isOpen[ch]])
            && (s.senders[ch] == Looking ==>
                  Reached(n, depth, steps + [Look(ch)]) ==
                    s.(senders := s.senders[ch := if s.sh.pending[ch] == 0 then Parked else Observed]))
            && (s.senders[ch] == Parked ==>
                  Reached(n, depth, steps + [Spurious(ch)]) == s.(senders := s.senders[ch := Looking]))
  {
    hide Reached;
    ReachedStep(n, depth, steps, Tick(elapsed));
    ReachedStep(n, depth, steps, Toggle(ch));
    ReachedStep(n, depth, steps, Look(ch));
    ReachedStep(n, depth, steps, Spurious(ch));
  }
}
