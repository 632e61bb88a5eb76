/** The broadcast scheduler as a sequence of atomic transactions, for any number of channels. */
module BroadcastSpec {
  import opened Basics
  import opened Bytes
  import opened Polling

  const RX_WINDOW_MS: nat := 1000
  const SIMULTANEOUS: nat := 1
  const POLLING: nat := 2
  const AB_ALTERNATE: nat := 3

  /** The number of channels, and the number of groups a ring holds. */
  type Size = n: nat | n > 0 witness 1

  /** A frame as it is written to the CAN device; data words are byte-swapped on the way. */
  datatype CanFrame = CanFrame(canId: seq<byte>, dlc: seq<byte>, data0: seq<byte>, data1: seq<byte>, timestamp: seq<byte>)

  datatype Group = Group(id: nat, frames: seq<CanFrame>)

  datatype Config = Config(enabled: bool, mode: nat, currentGroup: nat, pollNext: nat,
                           active: set<nat>, groupA: set<nat>, groupB: set<nat>)

  /** Everything the state mutex guards: one ring and one pending counter per channel. */
  datatype Shared = Shared(cfg: Config, rings: seq<seq<Group>>, pending: seq<nat>,
                           gateOpen: bool, gateUntil: nat, lastId: nat)

  datatype Op = Configure(cfg: Config)
              | Pps(now: nat)
              | Enqueue(ch: nat, frames: seq<CanFrame>, now: nat)
              | Claim(ch: nat, isOpen: bool)

  datatype Outcome = Configured | Woken(mask: set<nat>)
                   | Accepted(group: Group) | GateClosed | RingFull
                   | NoWake | Discarded | Delivered(group: Group)
                   | Refused

  /** The channels a second pulse wakes, and the configuration after it. */
  function Select(cfg: Config, n: Size): (r: (set<nat>, Config)) {
    if !cfg.enabled then ({}, cfg)
    else if cfg.mode == SIMULTANEOUS then (cfg.active, cfg)
    else if cfg.mode == POLLING then
      match PollFrom(cfg.active, cfg.pollNext, n, 0)
      case None => ({}, cfg)
      case Some(ch) => ({ch}, cfg.(pollNext := (ch + 1) % n))
    else if cfg.mode == AB_ALTERNATE then
      if cfg.currentGroup == 0 then (cfg.groupA, cfg.(currentGroup := 1)) else (cfg.groupB, cfg.(currentGroup := 0))
    else ({}, cfg)
  }

  /** The 32-bit pending counters after the first `k` channels of `mask` have been woken. */
  function Notified(pending: seq<nat>, mask: set<nat>, k: nat): (r: seq<nat>)
    ensures |r| == |pending|
  {
    seq(|pending|, c requires 0 <= c < |pending| => if c < k && c in mask then (pending[c] + 1) % U32 else pending[c])
  }

  /** The first `k` channels' rings, or counters, cleared. */
  function RingsCleared(rings: seq<seq<Group>>, k: nat): (r: seq<seq<Group>>)
    ensures |r| == |rings|
  {
    seq(|rings|, c requires 0 <= c < |rings| => if c < k then [] else rings[c])
  }

  function PendingCleared(pending: seq<nat>, k: nat): (r: seq<nat>)
    ensures |r| == |pending|
  {
    seq(|pending|, c requires 0 <= c < |pending| => if c < k then 0 else pending[c])
  }

  function ResetAll(s: Shared): Shared {
    s.(rings := RingsCleared(s.rings, |s.rings|), pending := PendingCleared(s.pending, |s.pending|),
       gateOpen := false, gateUntil := 0)
  }

  predicate GateAdmits(s: Shared, now: nat) {
    s.gateOpen && now <= s.gateUntil
  }

  /** Group ids count up from 1 and skip 0 when they wrap. */
  function NextId(id: nat): nat {
    if id == 0xFFFFFFFF then 1 else id + 1
  }

  /** The program refuses channel numbers out of range before it takes the mutex. */
  predicate InRange(n: Size, op: Op) {
    match op
    case Enqueue(ch, _, _) => ch < n
    case Claim(ch, _) => ch < n
    case _ => true
  }

  predicate Fits(s: Shared, n: Size) {
    |s.rings| == |s.pending| == n
  }

  /** Takes a wake of the channel and, if the channel is open, its oldest group. */
  function ClaimGroup(s: Shared, n: Size, ch: nat, isOpen: bool): (r: (Shared, Outcome))
    requires Fits(s, n) && ch < n
    ensures Fits(r.0, n)
  {
    if s.pending[ch] == 0 then (s, NoWake)
    else
      var t := s.(pending := s.pending[ch := s.pending[ch] - 1]);
      if !isOpen || s.rings[ch] == [] then (t, Discarded)
      else (t.(rings := t.rings[ch := t.rings[ch][1..]]), Delivered(s.rings[ch][0]))
  }

  /** One transaction. A claim uses up a wake even when the channel is closed or its ring is empty;
      a pulse opens the gate whether or not broadcasting is enabled. */
  function Apply(s: Shared, n: Size, depth: Size, op: Op): (r: (Shared, Outcome))
    requires Fits(s, n)
    ensures Fits(r.0, n)
  {
    if !InRange(n, op) then (s, Refused)
    else match op
    case Configure(cfg) => (ResetAll(s.(cfg := cfg)), Configured)
    case Pps(now) =>
      var (mask, cfg) := Select(s.cfg, n);
      (s.(gateOpen := true, gateUntil := now + RX_WINDOW_MS, cfg := cfg, pending := Notified(s.pending, mask, n)), Woken(mask))
    case Enqueue(ch, frames, now) =>
      if !GateAdmits(s, now) then (s.(gateOpen := false, gateUntil := 0), GateClosed)
      else if |s.rings[ch]| >= depth then (s, RingFull)
      else
        var g := Group(NextId(s.lastId), frames);
        (s.(lastId := g.id, rings := s.rings[ch := s.rings[ch] + [g]]), Accepted(g))
    case Claim(ch, isOpen) => ClaimGroup(s, n, ch, isOpen)
  }

  // ---------- histories ----------

  /** At start-up nothing is configured, queued or awaited, and the gate is shut. */
  function Initial(n: Size): (s: Shared)
    ensures Fits(s, n)
  {
    Shared(Config(false, 0, 0, 0, {}, {}, {}), seq(n, _ => []), seq(n, _ => 0), false, 0, 0)
  }

  function Last<T>(s: seq<T>): T
    requires s != []
  {
    s[|s| - 1]
  }

  function Front<T>(s: seq<T>): seq<T>
    requires s != []
  {
    s[..|s| - 1]
  }

  /** The shared state after a history of transactions. */
  function After(n: Size, depth: Size, ops: seq<Op>): (s: Shared)
    ensures Fits(s, n)
  {
    if ops == [] then Initial(n) else Apply(After(n, depth, Front(ops)), n, depth, Last(ops)).0
  }

  /** What the last transaction of a history answered. */
  function Answer(n: Size, depth: Size, ops: seq<Op>): Outcome
    requires ops != []
  {
    Apply(After(n, depth, Front(ops)), n, depth, Last(ops)).1
  }

  /** The answer to transaction `i` of a history. */
  function AnswerAt(n: Size, depth: Size, ops: seq<Op>, i: nat): Outcome
    requires i < |ops|
  {
    Answer(n, depth, ops[..i + 1])
  }

  // ---------- what has happened to a channel since the last configuration ----------

  /** Groups accepted for `ch`, in order. */
  function EnqueuedSince(n: Size, depth: Size, ops: seq<Op>, ch: nat): seq<Group>
  {
    if ops == [] || Last(ops).Configure? then []
    else
      EnqueuedSince(n, depth, Front(ops), ch) +
      if Last(ops).Enqueue? && Last(ops).ch == ch && Answer(n, depth, ops).Accepted?
      then [Answer(n, depth, ops).group] else []
  }

  /** Groups handed to the sender of `ch`, in order. */
  function DeliveredSince(n: Size, depth: Size, ops: seq<Op>, ch: nat): seq<Group>
  {
    if ops == [] || Last(ops).Configure? then []
    else
      DeliveredSince(n, depth, Front(ops), ch) +
      if Last(ops).Claim? && Last(ops).ch == ch && Answer(n, depth, ops).Delivered?
      then [Answer(n, depth, ops).group] else []
  }

  /** Wakes issued to `ch`. */
  function WakesSince(n: Size, depth: Size, ops: seq<Op>, ch: nat): nat
  {
    if ops == [] || Last(ops).Configure? then 0
    else
      WakesSince(n, depth, Front(ops), ch) +
      if Last(ops).Pps? && Answer(n, depth, ops).Woken? && ch in Answer(n, depth, ops).mask then 1 else 0
  }

  predicate UsesWake(a: Outcome) {
    a.Delivered? || a.Discarded?
  }

  /** Claims of `ch` that used up a wake, with or without a group. */
  function ClaimsSince(n: Size, depth: Size, ops: seq<Op>, ch: nat): nat
  {
    if ops == [] || Last(ops).Configure? then 0
    else
      ClaimsSince(n, depth, Front(ops), ch) +
      if Last(ops).Claim? && Last(ops).ch == ch && UsesWake(Answer(n, depth, ops)) then 1 else 0
  }

  /** Of those, the ones that came away without a group. */
  function DiscardsSince(n: Size, depth: Size, ops: seq<Op>, ch: nat): nat
  {
    if ops == [] || Last(ops).Configure? then 0
    else
      DiscardsSince(n, depth, Front(ops), ch) +
      if Last(ops).Claim? && Last(ops).ch == ch && Answer(n, depth, ops).Discarded? then 1 else 0
  }

  /** The counts of an empty history, and how the last transaction changes them. */
  lemma Empty(n: Size, depth: Size, ch: nat)
    ensures After(n, depth, []) == Initial(n)
    ensures EnqueuedSince(n, depth, [], ch) == DeliveredSince(n, depth, [], ch) == []
    ensures WakesSince(n, depth, [], ch) == ClaimsSince(n, depth, [], ch) == DiscardsSince(n, depth, [], ch) == 0
  {
  }

  lemma Unfold(n: Size, depth: Size, ops: seq<Op>, ch: nat)
    requires ops != []
    ensures var was, op, a := Front(ops), Last(ops), Answer(n, depth, ops);
            var mine := (op.Enqueue? || op.Claim?) && op.ch == ch;
            && (After(n, depth, ops), a) == Apply(After(n, depth, was), n, depth, op)
            && EnqueuedSince(n, depth, ops, ch) ==
               (if op.Configure? then []
                else EnqueuedSince(n, depth, was, ch) + if op.Enqueue? && mine && a.Accepted? then [a.group] else [])
            && DeliveredSince(n, depth, ops, ch) ==
               (if op.Configure? then []
                else DeliveredSince(n, depth, was, ch) + if op.Claim? && mine && a.Delivered? then [a.group] else [])
            && WakesSince(n, depth, ops, ch) ==
               (if op.Configure? then 0
                else WakesSince(n, depth, was, ch) + if op.Pps? && a.Woken? && ch in a.mask then 1 else 0)
            && ClaimsSince(n, depth, ops, ch) ==
               (if op.Configure? then 0
                else ClaimsSince(n, depth, was, ch) + if op.Claim? && mine && UsesWake(a) then 1 else 0)
            && DiscardsSince(n, depth, ops, ch) ==
               (if op.Configure? then 0
                else DiscardsSince(n, depth, was, ch) + if op.Claim? && mine && a.Discarded? then 1 else 0)
  {
    hide Apply;
  }

  // ---------- conservation ----------

  /** What one transaction does to the ring of one channel. */
  lemma RingStep(s: Shared, n: Size, depth: Size, op: Op, ch: nat)
    requires Fits(s, n) && ch < n
    ensures var (t, a) := Apply(s, n, depth, op);
            if op.Configure? then t.rings[ch] == []
            else if op.Enqueue? && op.ch == ch && a.Accepted? then t.rings[ch] == s.rings[ch] + [a.group] && |s.rings[ch]| < depth
            else if op.Claim? && op.ch == ch && a.Delivered? then [a.group] + t.rings[ch] == s.rings[ch]
            else t.rings[ch] == s.rings[ch]
  {
    hide Select;
  }

  /** What one transaction does to the pending counter of one channel. */
  lemma PendingStep(s: Shared, n: Size, depth: Size, op: Op, ch: nat)
    requires Fits(s, n) && ch < n
    ensures var (t, a) := Apply(s, n, depth, op);
            if op.Configure? then t.pending[ch] == 0
            else if op.Pps? && a.Woken? && ch in a.mask then t.pending[ch] == (s.pending[ch] + 1) % U32
            else if op.Claim? && op.ch == ch && UsesWake(a) then t.pending[ch] + 1 == s.pending[ch]
            else t.pending[ch] == s.pending[ch]
  {
    hide Select;
  }

  /** Groups accepted = groups delivered followed by groups queued, in order; at most `depth` queued. */
  lemma {:induction false} GroupsConserved(n: Size, depth: Size, ops: seq<Op>, ch: nat)
    requires ch < n
    ensures EnqueuedSince(n, depth, ops, ch) == DeliveredSince(n, depth, ops, ch) + After(n, depth, ops).rings[ch]
    ensures |After(n, depth, ops).rings[ch]| <= depth
    decreases |ops|
  {
    hide Apply, After, Answer, EnqueuedSince, DeliveredSince, WakesSince, ClaimsSince, DiscardsSince;
    if ops == [] {
      Empty(n, depth, ch);
    } else {
      GroupsConserved(n, depth, Front(ops), ch);
      Unfold(n, depth, ops, ch);
      RingStep(After(n, depth, Front(ops)), n, depth, Last(ops), ch);
    }
  }

  /** Wakes issued = wakes pending + claims. The counter is 32 bits wide: whole multiples of 2^32 may
      get lost, and only when that many wakes are unclaimed. */
  lemma {:induction false} WakesConserved(n: Size, depth: Size, ops: seq<Op>, ch: nat)
    requires ch < n
    ensures ClaimsSince(n, depth, ops, ch) == |DeliveredSince(n, depth, ops, ch)| + DiscardsSince(n, depth, ops, ch)
    ensures var open := WakesSince(n, depth, ops, ch) - ClaimsSince(n, depth, ops, ch);
            open >= 0 && After(n, depth, ops).pending[ch] == open % U32
    decreases |ops|
  {
    hide Apply, After, Answer, EnqueuedSince, DeliveredSince, WakesSince, ClaimsSince, DiscardsSince;
    if ops == [] {
      Empty(n, depth, ch);
    } else {
      WakesConserved(n, depth, Front(ops), ch);
      Unfold(n, depth, ops, ch);
      PendingStep(After(n, depth, Front(ops)), n, depth, Last(ops), ch);
      Wrapped(WakesSince(n, depth, Front(ops), ch) - ClaimsSince(n, depth, Front(ops), ch));
    }
  }

  lemma Wrapped(open: int)
    ensures (open % U32 + 1) % U32 == (open + 1) % U32
    ensures open % U32 > 0 ==> open % U32 - 1 == (open - 1) % U32
    ensures open >= 0 ==> open >= open % U32
  {
  }

  /** While fewer than 2^32 wakes are unclaimed, the counter is exactly their number. */
  lemma PendingIsExact(n: Size, depth: Size, ops: seq<Op>, ch: nat)
    requires ch < n
    requires WakesSince(n, depth, ops, ch) - ClaimsSince(n, depth, ops, ch) < U32
    ensures WakesSince(n, depth, ops, ch) ==
            After(n, depth, ops).pending[ch] + |DeliveredSince(n, depth, ops, ch)| + DiscardsSince(n, depth, ops, ch)
  {
    hide Apply, After, Answer, EnqueuedSince, DeliveredSince, WakesSince, ClaimsSince, DiscardsSince;
    WakesConserved(n, depth, ops, ch);
  }
}
