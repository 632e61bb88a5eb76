/** What holds of every history of broadcast transactions. */
module BroadcastSafety {
  import opened Basics
  import opened BitMath
  import opened Polling
  import opened BroadcastSpec

  /** No configuration among transactions `after + 1 .. upTo`. */
  predicate NoConfig(ops: seq<Op>, after: int, upTo: int) {
    forall k :: after < k <= upTo && 0 <= k < |ops| ==> !ops[k].Configure?
  }

  // ---------- generation safety ----------

  ghost predicate AcceptedAt(n: Size, depth: Size, ops: seq<Op>, j: nat, ch: nat, g: Group)
  {
    j < |ops| && ops[j].Enqueue? && ops[j].ch == ch && AnswerAt(n, depth, ops, j) == Accepted(g)
  }

  ghost predicate WokenAt(n: Size, depth: Size, ops: seq<Op>, w: nat, ch: nat)
  {
    w < |ops| && ops[w].Pps? && AnswerAt(n, depth, ops, w).Woken? && ch in AnswerAt(n, depth, ops, w).mask
  }

  /** Positions in a prefix of a history keep their answers in the whole. */
  lemma AcceptedInPrefix(n: Size, depth: Size, ops: seq<Op>, m: nat, j: nat, ch: nat, g: Group)
    requires m <= |ops| && AcceptedAt(n, depth, ops[..m], j, ch, g)
    ensures AcceptedAt(n, depth, ops, j, ch, g)
  {
    hide Apply, After, Answer, EnqueuedSince, DeliveredSince, WakesSince, ClaimsSince, DiscardsSince;
    assert ops[..m][..j + 1] == ops[..j + 1];
  }

  lemma WokenInPrefix(n: Size, depth: Size, ops: seq<Op>, m: nat, w: nat, ch: nat)
    requires m <= |ops| && WokenAt(n, depth, ops[..m], w, ch)
    ensures WokenAt(n, depth, ops, w, ch)
  {
    hide Apply, After, Answer, EnqueuedSince, DeliveredSince, WakesSince, ClaimsSince, DiscardsSince;
    assert ops[..m][..w + 1] == ops[..w + 1];
  }

  lemma {:induction false} EnqueuedOrigin(n: Size, depth: Size, ops: seq<Op>, ch: nat, q: nat)
    requires q < |EnqueuedSince(n, depth, ops, ch)|
    ensures exists j: nat :: AcceptedAt(n, depth, ops, j, ch, EnqueuedSince(n, depth, ops, ch)[q]) && NoConfig(ops, j, |ops| - 1)
    decreases |ops|
  {
    hide Apply, After, Answer, EnqueuedSince, DeliveredSince, WakesSince, ClaimsSince, DiscardsSince;
    if ops == [] {
      Empty(n, depth, ch);
    } else {
      Unfold(n, depth, ops, ch);
      var last, g := |ops| - 1, EnqueuedSince(n, depth, ops, ch)[q];
      assert ops[..last + 1] == ops && Front(ops) == ops[..last];
      if q < |EnqueuedSince(n, depth, Front(ops), ch)| {
        EnqueuedOrigin(n, depth, Front(ops), ch, q);
        var j: nat :| AcceptedAt(n, depth, Front(ops), j, ch, g) && NoConfig(Front(ops), j, last - 1);
        AcceptedInPrefix(n, depth, ops, last, j, ch, g);
        assert NoConfig(ops, j, last);
      } else {
        assert AcceptedAt(n, depth, ops, last, ch, g) && NoConfig(ops, last, last);
      }
    }
  }

  lemma {:induction false} WakeOrigin(n: Size, depth: Size, ops: seq<Op>, ch: nat)
    requires WakesSince(n, depth, ops, ch) > 0
    ensures exists w: nat :: WokenAt(n, depth, ops, w, ch) && NoConfig(ops, w, |ops| - 1)
    decreases |ops|
  {
    hide Apply, After, Answer, EnqueuedSince, DeliveredSince, WakesSince, ClaimsSince, DiscardsSince;
    if ops == [] {
      Empty(n, depth, ch);
    } else {
      Unfold(n, depth, ops, ch);
      var last := |ops| - 1;
      assert ops[..last + 1] == ops && Front(ops) == ops[..last];
      if WakesSince(n, depth, Front(ops), ch) > 0 {
        WakeOrigin(n, depth, Front(ops), ch);
        var w: nat :| WokenAt(n, depth, Front(ops), w, ch) && NoConfig(Front(ops), w, last - 1);
        WokenInPrefix(n, depth, ops, last, w, ch);
        assert NoConfig(ops, w, last);
      } else {
        assert WokenAt(n, depth, ops, last, ch) && NoConfig(ops, last, last);
      }
    }
  }

  /** Up to and including a delivery: in order, and paid for with a wake of the same generation. */
  lemma DeliveryBalances(n: Size, depth: Size, past: seq<Op>)
    requires past != [] && Last(past).Claim? && Answer(n, depth, past).Delivered?
    ensures var ch, d := Last(past).ch, DeliveredSince(n, depth, past, Last(past).ch);
            && d != [] && Last(d) == Answer(n, depth, past).group
            && d <= EnqueuedSince(n, depth, past, ch)
            && 0 < ClaimsSince(n, depth, past, ch) <= WakesSince(n, depth, past, ch)
  {
    ClaimInRange(n, depth, past);
    hide Apply, After, Answer, EnqueuedSince, DeliveredSince, WakesSince, ClaimsSince, DiscardsSince;
    GroupsConserved(n, depth, past, Last(past).ch);
    WakesConserved(n, depth, past, Last(past).ch);
    Unfold(n, depth, past, Last(past).ch);
  }

  /** A delivered group was accepted after the latest configuration, it is the oldest one accepted
      since then and not yet delivered, and the claim uses up a wake issued since then. */
  lemma GenerationSafety(n: Size, depth: Size, ops: seq<Op>, i: nat)
    requires i < |ops| && ops[i].Claim? && AnswerAt(n, depth, ops, i).Delivered?
    ensures exists j: nat :: j < i && NoConfig(ops, j, i) &&
              AcceptedAt(n, depth, ops, j, ops[i].ch, AnswerAt(n, depth, ops, i).group)
    ensures exists w: nat :: w < i && NoConfig(ops, w, i) && WokenAt(n, depth, ops, w, ops[i].ch)
    ensures DeliveredSince(n, depth, ops[..i + 1], ops[i].ch) <= EnqueuedSince(n, depth, ops[..i + 1], ops[i].ch)
    ensures ClaimsSince(n, depth, ops[..i + 1], ops[i].ch) <= WakesSince(n, depth, ops[..i + 1], ops[i].ch)
  {
    hide Apply, After, Answer, EnqueuedSince, DeliveredSince, WakesSince, ClaimsSince, DiscardsSince;
    var past, ch, g := ops[..i + 1], ops[i].ch, AnswerAt(n, depth, ops, i).group;
    assert Last(past) == ops[i];
    DeliveryBalances(n, depth, past);
    var d := |DeliveredSince(n, depth, past, ch)| - 1;
    EnqueuedOrigin(n, depth, past, ch, d);
    var j: nat :| AcceptedAt(n, depth, past, j, ch, g) && NoConfig(past, j, i);
    AcceptedInPrefix(n, depth, ops, i + 1, j, ch, g);
    assert j < i && NoConfig(ops, j, i);
    WakeOrigin(n, depth, past, ch);
    var w: nat :| WokenAt(n, depth, past, w, ch) && NoConfig(past, w, i);
    WokenInPrefix(n, depth, ops, i + 1, w, ch);
    assert w < i && NoConfig(ops, w, i);
  }

  /** Whoever saw a wake before a configuration finds none after it: a claim that uses up a wake uses one
      issued since the latest configuration, with or without a group. */
  lemma NoStaleWake(n: Size, depth: Size, ops: seq<Op>, i: nat)
    requires i < |ops| && ops[i].Claim? && UsesWake(AnswerAt(n, depth, ops, i))
    ensures exists w: nat :: w < i && NoConfig(ops, w, i) && WokenAt(n, depth, ops, w, ops[i].ch)
  {
    hide Apply, After, Answer, EnqueuedSince, DeliveredSince, WakesSince, ClaimsSince, DiscardsSince;
    var past, ch := ops[..i + 1], ops[i].ch;
    assert Last(past) == ops[i];
    ClaimInRange(n, depth, past);
    Unfold(n, depth, past, ch);
    WakesConserved(n, depth, past, ch);
    WakeOrigin(n, depth, past, ch);
    var w: nat :| WokenAt(n, depth, past, w, ch) && NoConfig(past, w, i);
    WokenInPrefix(n, depth, ops, i + 1, w, ch);
    assert w < i && NoConfig(ops, w, i);
  }

  lemma ClaimInRange(n: Size, depth: Size, ops: seq<Op>)
    requires ops != [] && Last(ops).Claim? && UsesWake(Answer(n, depth, ops))
    ensures Last(ops).ch < n
  {
  }

  // ---------- the receive gate ----------

  /** The clock reading of a transaction; configurations and claims read none. */
  function TimeOf(op: Op, otherwise: nat): nat {
    match op
    case Pps(now) => now
    case Enqueue(_, _, now) => now
    case _ => otherwise
  }

  predicate TimesUpTo(ops: seq<Op>, now: nat) {
    forall i :: 0 <= i < |ops| ==> TimeOf(ops[i], 0) <= now
  }

  /** The clock never runs backwards. */
  predicate Monotone(ops: seq<Op>) {
    forall i, j :: 0 <= i < j < |ops| ==> TimeOf(ops[i], 0) <= TimeOf(ops[j], TimeOf(ops[i], 0))
  }

  /** A pulse no more than the window before `now`, not followed by a configuration. */
  ghost predicate PulseInWindow(ops: seq<Op>, j: nat, now: nat) {
    j < |ops| && ops[j].Pps? && ops[j].now <= now <= ops[j].now + 1000 && NoConfig(ops, j, |ops| - 1)
  }

  lemma GateStep(s: Shared, n: Size, depth: Size, op: Op, now: nat)
    requires Fits(s, n) && TimeOf(op, now) <= now
    ensures GateAdmits(Apply(s, n, depth, op).0, now) ==
            if op.Configure? then false
            else if op.Pps? then now <= op.now + RX_WINDOW_MS
            else if op.Enqueue? && !GateAdmits(s, op.now) then false
            else GateAdmits(s, now)
  {
    hide Select;
  }

  /** A pulse still in the window now was in the window at the last enqueue. */
  lemma PulseShrinks(ops: seq<Op>, j: nat, now: nat)
    requires ops != [] && Last(ops).Enqueue? && Monotone(ops) && Last(ops).now <= now
    requires PulseInWindow(ops, j, now)
    ensures PulseInWindow(Front(ops), j, Last(ops).now)
  {
    assert TimeOf(ops[j], 0) <= TimeOf(ops[|ops| - 1], TimeOf(ops[j], 0));
    assert Front(ops)[j] == ops[j];
  }

  /** The gate admits a group exactly when a second pulse opened it recently enough. */
  lemma {:induction false} GateIsPulseWindow(n: Size, depth: Size, ops: seq<Op>, now: nat)
    requires Monotone(ops) && TimesUpTo(ops, now)
    ensures GateAdmits(After(n, depth, ops), now) <==> exists j: nat :: PulseInWindow(ops, j, now)
    decreases |ops|
  {
    if ops != [] {
      hide Apply;
      var past, op, last := Front(ops), Last(ops), |ops| - 1;
      assert TimeOf(ops[last], now) <= now;
      GateStep(After(n, depth, past), n, depth, op, now);
      GateIsPulseWindow(n, depth, past, now);
      if op.Enqueue? && !GateAdmits(After(n, depth, past), op.now) {
        forall i | 0 <= i < |past|
          ensures TimeOf(past[i], 0) <= op.now
        {
          assert past[i] == ops[i] && TimeOf(ops[i], 0) <= TimeOf(ops[last], TimeOf(ops[i], 0));
        }
        GateIsPulseWindow(n, depth, past, op.now);
        forall j: nat | PulseInWindow(ops, j, now)
          ensures false
        {
          PulseShrinks(ops, j, now);
        }
      } else if op.Pps? {
        if now <= op.now + RX_WINDOW_MS {
          assert PulseInWindow(ops, last, now);
        }
        forall j: nat | PulseInWindow(ops, j, now)
          ensures now <= op.now + RX_WINDOW_MS
        {
          assert j == last || TimeOf(ops[j], 0) <= TimeOf(ops[last], TimeOf(ops[j], 0));
        }
      } else if op.Configure? {
        forall j: nat
          ensures !PulseInWindow(ops, j, now)
        {
          assert j < last ==> !NoConfig(ops, j, last);
        }
      } else {
        WindowUnchanged(ops, now);
      }
    }
  }

  /** Enqueues and claims neither open nor shut a pulse's window. */
  lemma WindowUnchanged(ops: seq<Op>, now: nat)
    requires ops != [] && (Last(ops).Enqueue? || Last(ops).Claim?)
    ensures (exists j: nat :: PulseInWindow(ops, j, now)) <==> (exists j: nat :: PulseInWindow(Front(ops), j, now))
  {
    var past, last := Front(ops), |ops| - 1;
    forall j: nat
      ensures PulseInWindow(ops, j, now) <==> PulseInWindow(past, j, now)
    {
      if PulseInWindow(ops, j, now) {
        assert past[j] == ops[j];
        assert NoConfig(past, j, last - 1);
      }
      if PulseInWindow(past, j, now) {
        assert NoConfig(ops, j, last);
      }
    }
  }

  /** Whether an enqueue finds the gate open, from the history alone. */
  lemma EnqueueAdmittedIffPulse(n: Size, depth: Size, ops: seq<Op>, i: nat)
    requires Monotone(ops) && i < |ops| && ops[i].Enqueue? && ops[i].ch < n
    ensures AnswerAt(n, depth, ops, i) != GateClosed <==>
            exists j: nat :: PulseInWindow(ops[..i], j, ops[i].now)
  {
    var past := ops[..i];
    assert Front(ops[..i + 1]) == past && Last(ops[..i + 1]) == ops[i];
    forall k | 0 <= k < |past|
      ensures TimeOf(past[k], 0) <= ops[i].now
    {
      assert TimeOf(ops[k], 0) <= TimeOf(ops[i], TimeOf(ops[k], 0));
    }
    assert Monotone(past);
    GateIsPulseWindow(n, depth, past, ops[i].now);
  }

  /** How many groups are queued for a channel. */
  function Queued(n: Size, depth: Size, ops: seq<Op>, ch: nat): int {
    |EnqueuedSince(n, depth, ops, ch)| - |DeliveredSince(n, depth, ops, ch)|
  }

  /** The answer to an enqueue, from the history alone: a group is let in, with its frames, exactly when a pulse
      lies in the window and fewer than `depth` groups are queued. */
  lemma EnqueueOutcome(n: Size, depth: Size, ops: seq<Op>, i: nat)
    requires Monotone(ops) && i < |ops| && ops[i].Enqueue? && ops[i].ch < n
    ensures var a, queued := AnswerAt(n, depth, ops, i), Queued(n, depth, ops[..i], ops[i].ch);
            var pulse := exists j: nat :: PulseInWindow(ops[..i], j, ops[i].now);
            && (a == GateClosed <==> !pulse)
            && (a == RingFull <==> pulse && queued == depth)
            && (a.Accepted? <==> pulse && queued < depth)
            && (a.Accepted? ==> a.group.frames == ops[i].frames)
  {
    hide After, EnqueuedSince, DeliveredSince, PulseInWindow, Monotone;
    assert Front(ops[..i + 1]) == ops[..i] && Last(ops[..i + 1]) == ops[i];
    EnqueueAdmittedIffPulse(n, depth, ops, i);
    GroupsConserved(n, depth, ops[..i], ops[i].ch);
  }

  /** The answer to a claim: with a wake left it is the oldest group still queued, or nothing if the channel is
      closed or has none queued. */
  lemma ClaimOutcome(n: Size, depth: Size, ops: seq<Op>, i: nat)
    requires i < |ops| && ops[i].Claim? && ops[i].ch < n
    ensures var a, past, ch := AnswerAt(n, depth, ops, i), ops[..i], ops[i].ch;
            var wakes := WakesSince(n, depth, past, ch) - ClaimsSince(n, depth, past, ch);
            var serves := ops[i].isOpen && Queued(n, depth, past, ch) > 0;
            && (a == NoWake <==> wakes % 0x1_0000_0000 == 0)
            && (a == Discarded <==> wakes % 0x1_0000_0000 != 0 && !serves)
            && (a.Delivered? <==> wakes % 0x1_0000_0000 != 0 && serves)
            && (a.Delivered? ==> a.group == EnqueuedSince(n, depth, past, ch)[|DeliveredSince(n, depth, past, ch)|])
  {
    hide After, EnqueuedSince, DeliveredSince, WakesSince, ClaimsSince;
    assert Front(ops[..i + 1]) == ops[..i] && Last(ops[..i + 1]) == ops[i];
    GroupsConserved(n, depth, ops[..i], ops[i].ch);
    WakesConserved(n, depth, ops[..i], ops[i].ch);
  }

  // ---------- group ids ----------

  /** Groups accepted on any channel since start-up. */
  function AcceptedCount(n: Size, depth: Size, ops: seq<Op>): nat
  {
    if ops == [] then 0
    else AcceptedCount(n, depth, Front(ops)) + if Answer(n, depth, ops).Accepted? then 1 else 0
  }

  /** The id of the `m`-th accepted group, counting from 0: never 0, and every id before any repeats. */
  function IdOf(m: nat): (id: nat)
    ensures 1 <= id < U32
  {
    m % 0xFFFFFFFF + 1
  }

  lemma IdStep(s: Shared, n: Size, depth: Size, op: Op)
    requires Fits(s, n)
    ensures var (t, a) := Apply(s, n, depth, op);
            if a.Accepted? then t.lastId == NextId(s.lastId) == a.group.id else t.lastId == s.lastId
  {
    hide Select;
  }

  /** Ids are handed out in sequence to accepted groups only; a rejected enqueue uses none up. */
  lemma {:induction false} IdsCountAcceptedGroups(n: Size, depth: Size, ops: seq<Op>)
    ensures var m := AcceptedCount(n, depth, ops);
            After(n, depth, ops).lastId == if m == 0 then 0 else IdOf(m - 1)
    ensures ops != [] && Answer(n, depth, ops).Accepted? ==>
              Answer(n, depth, ops).group.id == IdOf(AcceptedCount(n, depth, Front(ops)))
    decreases |ops|
  {
    hide Apply;
    if ops != [] {
      IdsCountAcceptedGroups(n, depth, Front(ops));
      IdStep(After(n, depth, Front(ops)), n, depth, Last(ops));
    }
  }

  /** Among 2^32 - 1 accepted groups in a row no two have the same id. */
  lemma IdsDiffer(a: nat, b: nat)
    requires a < b < a + 0xFFFFFFFF
    ensures IdOf(a) != IdOf(b)
  {
  }

  lemma {:induction false} AcceptedOnlyMore(n: Size, depth: Size, ops: seq<Op>, i: nat, j: nat)
    requires i <= j <= |ops|
    ensures AcceptedCount(n, depth, ops[..i]) <= AcceptedCount(n, depth, ops[..j])
    decreases j
  {
    hide Answer;
    if i < j {
      AcceptedOnlyMore(n, depth, ops, i, j - 1);
      assert Front(ops[..j]) == ops[..j - 1];
    }
  }

  /** In every history, two accepted groups with fewer than 2^32 - 2 accepted between them have different ids. */
  lemma NoIdRepeats(n: Size, depth: Size, ops: seq<Op>, i: nat, j: nat)
    requires i < j < |ops| && AnswerAt(n, depth, ops, i).Accepted? && AnswerAt(n, depth, ops, j).Accepted?
    requires AcceptedCount(n, depth, ops[..j]) - AcceptedCount(n, depth, ops[..i]) < 0xFFFFFFFF
    ensures AnswerAt(n, depth, ops, i).group.id != AnswerAt(n, depth, ops, j).group.id
  {
    hide Answer, After, IdOf;
    assert Front(ops[..i + 1]) == ops[..i] && Front(ops[..j + 1]) == ops[..j];
    IdsCountAcceptedGroups(n, depth, ops[..i + 1]);
    IdsCountAcceptedGroups(n, depth, ops[..j + 1]);
    AcceptedOnlyMore(n, depth, ops, i + 1, j);
    IdsDiffer(AcceptedCount(n, depth, ops[..i]), AcceptedCount(n, depth, ops[..j]));
  }

  // ---------- when a queued group leaves ----------

  /** Claims of `ch` in `ops`, made behind `before` while the channel was open, that used up a wake. */
  function OpenClaims(n: Size, depth: Size, before: seq<Op>, ops: seq<Op>, ch: nat): nat
    decreases |ops|
  {
    if ops == [] then 0
    else
      assert before + Front(ops) == (before + ops)[..|before + ops| - 1];
      OpenClaims(n, depth, before, Front(ops), ch) +
      if Last(ops).Claim? && Last(ops).ch == ch && Last(ops).isOpen && UsesWake(Answer(n, depth, before + ops)) then 1 else 0
  }

  lemma ClaimStep(s: Shared, n: Size, depth: Size, op: Op, ch: nat)
    requires Fits(s, n) && ch < n && !op.Configure?
    ensures var (t, a) := Apply(s, n, depth, op);
            if op.Claim? && op.ch == ch && op.isOpen && UsesWake(a) && s.rings[ch] != []
            then a == Delivered(s.rings[ch][0]) && t.rings[ch] == s.rings[ch][1..]
            else s.rings[ch] <= t.rings[ch]
  {
    hide Select;
  }

  lemma OpenClaimsStep(n: Size, depth: Size, before: seq<Op>, ops: seq<Op>, ch: nat)
    requires ops != []
    ensures OpenClaims(n, depth, before, ops, ch) == OpenClaims(n, depth, before, Front(ops), ch) +
            if Last(ops) == Claim(ch, true) && UsesWake(Answer(n, depth, before + ops)) then 1 else 0
  {
    hide Answer;
  }

  /** `g` is at place `p` of the ring, unless the `m` groups that left include it. */
  predicate MovedUp(ring: seq<Group>, g: Group, p: nat, m: nat) {
    m <= p ==> p - m < |ring| && ring[p - m] == g
  }

  lemma OneTurn(s: Shared, n: Size, depth: Size, op: Op, ch: nat, g: Group, p: nat, m: nat)
    requires Fits(s, n) && ch < n && !op.Configure? && MovedUp(s.rings[ch], g, p, m)
    ensures var (t, a) := Apply(s, n, depth, op);
            var leaves := op == Claim(ch, true) && UsesWake(a);
            MovedUp(t.rings[ch], g, p, m + if leaves then 1 else 0) && (m == p && leaves ==> a == Delivered(g))
  {
    hide Apply;
    ClaimStep(s, n, depth, op, ch);
  }

  /** A group with `p` others ahead of it moves up by one at every claim that uses up a wake while the
      channel is open, and leaves at the next such claim once it is in front. */
  lemma {:induction false} LeavesInTurn(n: Size, depth: Size, before: seq<Op>, ops: seq<Op>, ch: nat, p: nat)
    requires ch < n
    requires NoConfig(ops, -1, |ops| - 1)
    requires p < |After(n, depth, before).rings[ch]|
    ensures var g, m := After(n, depth, before).rings[ch][p], OpenClaims(n, depth, before, ops, ch);
            && MovedUp(After(n, depth, before + ops).rings[ch], g, p, m)
            && (m == p + 1 && ops != [] && Last(ops) == Claim(ch, true) && UsesWake(Answer(n, depth, before + ops)) ==>
                  Answer(n, depth, before + ops) == Delivered(g))
    decreases |ops|
  {
    hide Apply, After, Answer, OpenClaims, MovedUp, EnqueuedSince, DeliveredSince, WakesSince, ClaimsSince, DiscardsSince;
    var g := After(n, depth, before).rings[ch][p];
    if ops == [] {
      assert before + ops == before;
      StartsAt(n, depth, before, ch, g, p);
    } else {
      var all := before + ops;
      assert Front(all) == before + Front(ops) && Last(all) == Last(ops) == ops[|ops| - 1];
      Unfold(n, depth, all, ch);
      OpenClaimsStep(n, depth, before, ops, ch);
      LeavesInTurn(n, depth, before, Front(ops), ch, p);
      OneTurn(After(n, depth, Front(all)), n, depth, Last(all), ch, g, p, OpenClaims(n, depth, before, Front(ops), ch));
    }
  }

  lemma StartsAt(n: Size, depth: Size, before: seq<Op>, ch: nat, g: Group, p: nat)
    requires ch < n && p < |After(n, depth, before).rings[ch]| && g == After(n, depth, before).rings[ch][p]
    ensures OpenClaims(n, depth, before, [], ch) == 0
    ensures MovedUp(After(n, depth, before).rings[ch], g, p, 0)
  {
    hide After;
  }

  // ---------- fairness ----------

  /** Second pulses in a history. */
  function Pulses(ops: seq<Op>): nat {
    if ops == [] then 0 else Pulses(Front(ops)) + if Last(ops).Pps? then 1 else 0
  }

  predicate PollingSetUp(s: Shared, n: Size) {
    Fits(s, n) && s.cfg.pollNext < n && s.cfg.enabled && s.cfg.mode == 2 && Rank(s.cfg.active, n) > 0
  }

  /** The place in the round at which the next pulse continues, among `Rank(active, n)` places. */
  function Turn(s: Shared, n: Size): nat
    requires PollingSetUp(s, n)
  {
    Rank(s.cfg.active, s.cfg.pollNext) % Rank(s.cfg.active, n)
  }

  /** The place of an active channel in the round. */
  predicate IsTurnOf(s: Shared, n: Size, turn: nat, ch: nat) {
    ch in s.cfg.active && turn == Rank(s.cfg.active, ch)
  }

  lemma PollStep(s: Shared, n: Size, depth: Size, op: Op, ch: nat)
    requires PollingSetUp(s, n) && !op.Configure? && ch < n
    ensures var (t, a) := Apply(s, n, depth, op);
            && PollingSetUp(t, n) && t.cfg.active == s.cfg.active
            && (op.Pps? ==> a.Woken? && (ch in a.mask <==> IsTurnOf(s, n, Turn(s, n), ch)))
            && Turn(t, n) == if op.Pps? then (Turn(s, n) + 1) % Rank(s.cfg.active, n) else Turn(s, n)
  {
    if op.Pps? {
      PollSelects(s.cfg.active, s.cfg.pollNext, n);
      var sel := PollFrom(s.cfg.active, s.cfg.pollNext, n, 0).value;
      NextRank(s.cfg.active, sel, n);
      if ch in s.cfg.active && Rank(s.cfg.active, ch) == Rank(s.cfg.active, sel) {
        RankInjective(s.cfg.active, ch, sel);
      }
    }
  }

  /** In polling mode the wakes of each active channel are those of a round-robin over the active
      channels; an inactive channel is never woken. */
  lemma {:induction false} PollingIsRoundRobin(n: Size, depth: Size, before: seq<Op>, ops: seq<Op>, ch: nat)
    requires ch < n
    requires NoConfig(ops, -1, |ops| - 1) && PollingSetUp(After(n, depth, before), n)
    ensures var s, t := After(n, depth, before), After(n, depth, before + ops);
            var active, k := s.cfg.active, Rank(s.cfg.active, n);
            && PollingSetUp(t, n) && t.cfg.active == active
            && Turn(t, n) == (Turn(s, n) + Pulses(ops)) % k
            && WakesSince(n, depth, before + ops, ch) == WakesSince(n, depth, before, ch) +
               if ch in active then Hits(Turn(s, n), Pulses(ops), k, Rank(active, ch)) else 0
    decreases |ops|
  {
    hide Apply, Rank, Turn, After, Answer, EnqueuedSince, DeliveredSince, WakesSince, ClaimsSince, DiscardsSince;
    var s := After(n, depth, before);
    var k := Rank(s.cfg.active, n);
    if ops == [] {
      assert before + ops == before;
      TurnInRound(s, n);
    } else {
      var all := before + ops;
      assert Front(all) == before + Front(ops) && Last(all) == Last(ops) == ops[|ops| - 1];
      PollingIsRoundRobin(n, depth, before, Front(ops), ch);
      Unfold(n, depth, all, ch);
      PollStep(After(n, depth, Front(all)), n, depth, Last(all), ch);
      NextResidue(Turn(s, n) + Pulses(Front(ops)), k);
    }
  }

  lemma TurnInRound(s: Shared, n: Size)
    requires PollingSetUp(s, n)
    ensures Turn(s, n) % Rank(s.cfg.active, n) == Turn(s, n)
  {
    ModUnique(Turn(s, n), Rank(s.cfg.active, n), 0, Turn(s, n));
  }

  lemma NextResidue(x: nat, k: nat)
    requires k > 0
    ensures (x % k + 1) % k == (x + 1) % k
  {
    Split(x, k);
    if x % k + 1 < k {
      ModUnique(x + 1, k, x / k, x % k + 1);
      ModUnique(x % k + 1, k, 0, x % k + 1);
    } else {
      MulDist(k, x / k, 1);
      ModUnique(x + 1, k, x / k + 1, 0);
      ModUnique(k, k, 1, 0);
    }
  }

  /** With `k` active channels, each is woken by `m` pulses `m / k` times, rounded down or up, and an
      inactive one never; in particular exactly once in any `k` consecutive pulses. */
  lemma PollingIsFair(n: Size, depth: Size, before: seq<Op>, ops: seq<Op>, ch: nat)
    requires ch < n
    requires NoConfig(ops, -1, |ops| - 1) && PollingSetUp(After(n, depth, before), n)
    ensures var active, m := After(n, depth, before).cfg.active, Pulses(ops);
            var k, wakes := Rank(active, n), WakesSince(n, depth, before + ops, ch) - WakesSince(n, depth, before, ch);
            && (ch in active ==> m / k <= wakes <= (m + k - 1) / k)
            && (ch in active && m == k ==> wakes == 1)
            && (ch !in active ==> wakes == 0)
  {
    hide Apply, Rank, Turn, Hits, Pulses, After, Answer, EnqueuedSince, DeliveredSince, WakesSince, ClaimsSince, DiscardsSince;
    PollingIsRoundRobin(n, depth, before, ops, ch);
    var s := After(n, depth, before);
    if ch in s.cfg.active {
      OnceAndFair(Turn(s, n), Pulses(ops), s.cfg.active, ch, n);
    }
  }

  lemma OnceAndFair(start: nat, m: nat, active: set<nat>, ch: nat, n: nat)
    requires ch < n && ch in active
    ensures var k := Rank(active, n);
            && k > Rank(active, ch)
            && m / k <= Hits(start, m, k, Rank(active, ch)) <= (m + k - 1) / k
            && (m == k ==> Hits(start, m, k, Rank(active, ch)) == 1)
  {
    RankLess(active, ch, n);
    HitsAreFair(start, m, Rank(active, n), Rank(active, ch));
    HitsOncePerRound(start, Rank(active, n), Rank(active, ch));
  }

  /** Between two selections of one channel every other active channel is selected exactly once: after the
      pulse that woke `ch`, the next `k - 1` pulses wake each other active channel once and `ch` not at all,
      and the pulse behind them wakes `ch` again. */
  lemma EveryOtherInBetween(n: Size, depth: Size, before: seq<Op>, ops: seq<Op>, ch: nat, other: nat)
    requires ch < n && other < n && before != [] && Last(before).Pps?
    requires PollingSetUp(After(n, depth, Front(before)), n)
    requires Answer(n, depth, before) == Woken({ch}) && other in After(n, depth, before).cfg.active
    requires NoConfig(ops, -1, |ops| - 1) && Pulses(ops) == Rank(After(n, depth, before).cfg.active, n) - 1
    ensures WakesSince(n, depth, before + ops, other) - WakesSince(n, depth, before, other) == if other == ch then 0 else 1
    ensures var t := After(n, depth, before + ops);
            PollingSetUp(t, n) && IsTurnOf(t, n, Turn(t, n), ch)
  {
    hide Apply, Rank, Turn, Hits, Pulses, After, Answer, EnqueuedSince, DeliveredSince, WakesSince, ClaimsSince, DiscardsSince;
    Unfold(n, depth, before, ch);
    PollStep(After(n, depth, Front(before)), n, depth, Last(before), ch);
    var was, s := After(n, depth, Front(before)), After(n, depth, before);
    var k, x, r := Rank(s.cfg.active, n), Turn(was, n), Rank(s.cfg.active, other);
    assert ch in {ch} && x == Rank(s.cfg.active, ch);
    PollingIsRoundRobin(n, depth, before, ops, other);
    RankLess(s.cfg.active, other, n);
    RankLess(s.cfg.active, ch, n);
    OneShortOfARound(x, k, r);
    if other != ch && r == x {
      RankInjective(s.cfg.active, other, ch);
    }
  }

  lemma OneShortOfARound(x: nat, k: nat, r: nat)
    requires x < k && r < k
    ensures Hits((x + 1) % k, k - 1, k, r) == if r == x then 0 else 1
    ensures ((x + 1) % k + (k - 1)) % k == x
  {
    var t := (x + 1) % k;
    if x + 1 < k {
      ModUnique(x + 1, k, 0, x + 1);
      ModUnique(t + (k - 1), k, 1, x);
    } else {
      ModUnique(x + 1, k, 1, 0);
      ModUnique(t + (k - 1), k, 0, x);
    }
    HitsOncePerRound(t, k, r);
  }

  predicate SimultaneousSetUp(s: Shared, n: Size) {
    Fits(s, n) && s.cfg.enabled && s.cfg.mode == 1
  }

  /** Broadcasting is off, its mode unknown, or polling has no channel to poll. */
  predicate IdleSetUp(s: Shared, n: Size) {
    Fits(s, n) && (!s.cfg.enabled || s.cfg.mode !in {1, 2, 3} || (s.cfg.mode == 2 && Rank(s.cfg.active, n) == 0))
  }

  lemma {:induction false} NothingToPoll(active: set<nat>, next: nat, n: Size, step: nat)
    requires Rank(active, n) == 0
    ensures PollFrom(active, next, n, step) == None
    decreases n - step
  {
    if step < n {
      var c := (next + step) % n;
      if c in active {
        RankLess(active, c, n);
      }
      NothingToPoll(active, next, n, step + 1);
    }
  }

  /** Neither set-up changes but by a configuration; in the first a pulse wakes all active channels, in the
      second nobody. */
  lemma SteadyStep(s: Shared, n: Size, depth: Size, op: Op)
    requires (SimultaneousSetUp(s, n) || IdleSetUp(s, n)) && !op.Configure?
    ensures var (t, a) := Apply(s, n, depth, op);
            && t.cfg == s.cfg
            && (op.Pps? ==> a == Woken(if SimultaneousSetUp(s, n) then s.cfg.active else {}))
  {
    hide Rank;
    if op.Pps? && IdleSetUp(s, n) && s.cfg.enabled && s.cfg.mode == 2 {
      NothingToPoll(s.cfg.active, s.cfg.pollNext, n, 0);
    }
  }

  lemma {:induction false} SteadyWakes(n: Size, depth: Size, before: seq<Op>, ops: seq<Op>, ch: nat)
    requires NoConfig(ops, -1, |ops| - 1)
    requires SimultaneousSetUp(After(n, depth, before), n) || IdleSetUp(After(n, depth, before), n)
    ensures var s := After(n, depth, before);
            var mask := if SimultaneousSetUp(s, n) then s.cfg.active else {};
            && After(n, depth, before + ops).cfg == s.cfg
            && (ops != [] && Last(ops).Pps? ==> Answer(n, depth, before + ops) == Woken(mask))
            && WakesSince(n, depth, before + ops, ch) == WakesSince(n, depth, before, ch) + if ch in mask then Pulses(ops) else 0
    decreases |ops|
  {
    hide Apply, Rank, After, Answer, EnqueuedSince, DeliveredSince, WakesSince, ClaimsSince, DiscardsSince;
    if ops == [] {
      assert before + ops == before;
    } else {
      var all := before + ops;
      assert Front(all) == before + Front(ops) && Last(all) == Last(ops) == ops[|ops| - 1];
      Unfold(n, depth, all, ch);
      SteadyWakes(n, depth, before, Front(ops), ch);
      SteadyStep(After(n, depth, Front(all)), n, depth, Last(all));
    }
  }

  /** In mode 1 every pulse until the next configuration wakes exactly the active channels. */
  lemma SimultaneousWakesAll(n: Size, depth: Size, before: seq<Op>, ops: seq<Op>, ch: nat)
    requires NoConfig(ops, -1, |ops| - 1)
    requires After(n, depth, before).cfg.enabled && After(n, depth, before).cfg.mode == 1
    ensures var cfg := After(n, depth, before).cfg;
            && After(n, depth, before + ops).cfg == cfg
            && (ops != [] && Last(ops).Pps? ==> Answer(n, depth, before + ops) == Woken(cfg.active))
            && WakesSince(n, depth, before + ops, ch) - WakesSince(n, depth, before, ch) == if ch in cfg.active then Pulses(ops) else 0
  {
    hide After, Answer, WakesSince, Pulses;
    SteadyWakes(n, depth, before, ops, ch);
  }

  /** While broadcasting is off, or in a mode that does not exist, pulses wake nobody and change no setting. */
  lemma IdleWakesNobody(n: Size, depth: Size, before: seq<Op>, ops: seq<Op>, ch: nat)
    requires NoConfig(ops, -1, |ops| - 1) && IdleSetUp(After(n, depth, before), n)
    ensures After(n, depth, before + ops).cfg == After(n, depth, before).cfg
    ensures ops != [] && Last(ops).Pps? ==> Answer(n, depth, before + ops) == Woken({})
    ensures WakesSince(n, depth, before + ops, ch) == WakesSince(n, depth, before, ch)
  {
    hide After, Answer, WakesSince, Pulses, Rank;
    SteadyWakes(n, depth, before, ops, ch);
  }

  /** At start-up broadcasting is off. */
  lemma StartsIdle(n: Size, depth: Size)
    ensures IdleSetUp(After(n, depth, []), n) && After(n, depth, []).cfg.enabled == false
  {
  }

  predicate AlternatingSetUp(s: Shared, n: Size) {
    Fits(s, n) && s.cfg.enabled && s.cfg.mode == 3 && s.cfg.currentGroup < 2
  }

  lemma AlternateStep(s: Shared, n: Size, depth: Size, op: Op)
    requires AlternatingSetUp(s, n) && !op.Configure?
    ensures var (t, a) := Apply(s, n, depth, op);
            && AlternatingSetUp(t, n) && t.cfg.groupA == s.cfg.groupA && t.cfg.groupB == s.cfg.groupB
            && t.cfg.currentGroup == (if op.Pps? then 1 - s.cfg.currentGroup else s.cfg.currentGroup)
            && (op.Pps? ==> a == Woken(if s.cfg.currentGroup == 0 then s.cfg.groupA else s.cfg.groupB))
  {
  }

  lemma {:induction false} AlternatingState(n: Size, depth: Size, before: seq<Op>, ops: seq<Op>)
    requires NoConfig(ops, -1, |ops| - 1) && AlternatingSetUp(After(n, depth, before), n)
    ensures var s, t := After(n, depth, before), After(n, depth, before + ops);
            && AlternatingSetUp(t, n) && t.cfg.groupA == s.cfg.groupA && t.cfg.groupB == s.cfg.groupB
            && t.cfg.currentGroup == (s.cfg.currentGroup + Pulses(ops)) % 2
    decreases |ops|
  {
    hide Apply, After, Answer, EnqueuedSince, DeliveredSince, WakesSince, ClaimsSince, DiscardsSince;
    if ops == [] {
      assert before + ops == before;
    } else {
      var all := before + ops;
      assert Front(all) == before + Front(ops) && Last(all) == Last(ops) == ops[|ops| - 1];
      Unfold(n, depth, all, 0);
      AlternatingState(n, depth, before, Front(ops));
      AlternateStep(After(n, depth, Front(all)), n, depth, Last(all));
    }
  }

  /** In alternating mode the pulses wake group A and group B in turn: pulse number `m` since `before`
      wakes A or B by the parity of `m`. */
  lemma AlternatesAB(n: Size, depth: Size, before: seq<Op>, ops: seq<Op>)
    requires NoConfig(ops, -1, |ops| - 1) && AlternatingSetUp(After(n, depth, before), n)
    requires ops != [] && Last(ops).Pps?
    ensures var s := After(n, depth, before);
            Answer(n, depth, before + ops) ==
            Woken(if (s.cfg.currentGroup + Pulses(ops)) % 2 == 1 then s.cfg.groupA else s.cfg.groupB)
  {
    hide Apply, After, Answer, EnqueuedSince, DeliveredSince, WakesSince, ClaimsSince, DiscardsSince;
    var all := before + ops;
    assert Front(all) == before + Front(ops) && Last(all) == Last(ops) == ops[|ops| - 1];
    Unfold(n, depth, all, 0);
    AlternatingState(n, depth, before, Front(ops));
    AlternateStep(After(n, depth, Front(all)), n, depth, Last(all));
  }
}
