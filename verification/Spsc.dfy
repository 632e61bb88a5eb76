/** One producer thread and one consumer thread sharing a ring without a lock, interleaved step by
    step: a step loads one shared counter, copies one byte, or publishes one counter. */
module Spsc {
  import opened Basics
  import opened Bytes
  import opened BitMath
  import opened RingBuffer

  /** The producer checks for room, `put` checks again, copies byte `done` after byte, publishes. */
  datatype Producer = PIdle | PRoomSeen(x: seq<byte>) | PCopying(x: seq<byte>, done: nat)

  /** The consumer waits for an element, `get` checks again, copies into `buf`, gives the slot back. */
  datatype Consumer = CIdle | CElementSeen | CCopying(buf: seq<byte>)

  /** The shared ring, both threads, and what has been published and taken since the start. */
  datatype State = State(esize: nat, cap: nat, d: seq<byte>, inn: nat, out: nat, p: Producer, c: Consumer,
                         published: seq<seq<byte>>, taken: seq<seq<byte>>, putFailed: bool, getFailed: bool)

  datatype Action = Offer(x: seq<byte>) | PutCheck | PutByte | Publish | Poll | GetCheck | GetByte | Release

  predicate Shape(s: State) {
    Geometry(s.d, s.esize, s.cap) && s.inn < U32 && s.out < U32
  }

  predicate Enabled(s: State, a: Action) {
    && Shape(s)
    && match a
       case Offer(x) => s.p.PIdle? && |x| == s.esize
       case PutCheck => s.p.PRoomSeen?
       case PutByte => s.p.PCopying? && s.p.done < s.esize == |s.p.x|
       case Publish => s.p.PCopying? && s.p.done == s.esize
       case Poll => s.c.CIdle?
       case GetCheck => s.c.CElementSeen?
       case GetByte => s.c.CCopying? && |s.c.buf| < s.esize
       case Release => s.c.CCopying? && |s.c.buf| == s.esize
  }

  /** The address of byte `i` in the slot a counter points to. */
  function Address(s: State, counter: nat, i: nat): (b: nat)
    requires Shape(s) && i < s.esize
    ensures b < |s.d|
  {
    SlotFits(s.d, s.esize, s.cap, counter % s.cap);
    counter % s.cap * s.esize + i
  }

  function Apply(s: State, a: Action): State
    requires Enabled(s, a)
  {
    match a
    case Offer(x) => if s.cap - CountBetween(s.inn, s.out) == 0 then s else s.(p := PRoomSeen(x))
    case PutCheck =>
      if 1 > s.cap - CountBetween(s.inn, s.out) then s.(p := PIdle, putFailed := true)
      else s.(p := PCopying(s.p.x, 0))
    case PutByte =>
      s.(d := s.d[Address(s, s.inn, s.p.done) := s.p.x[s.p.done]], p := PCopying(s.p.x, s.p.done + 1))
    case Publish => s.(inn := (s.inn + 1) % U32, p := PIdle, published := s.published + [s.p.x])
    case Poll => if CountBetween(s.inn, s.out) == 0 then s else s.(c := CElementSeen)
    case GetCheck =>
      if CountBetween(s.inn, s.out) == 0 then s.(c := CIdle, getFailed := true) else s.(c := CCopying([]))
    case GetByte => s.(c := CCopying(s.c.buf + [s.d[Address(s, s.out, |s.c.buf|)]]))
    case Release => s.(out := (s.out + 1) % U32, c := CIdle, taken := s.taken + [s.c.buf])
  }

  ghost predicate Init(s: State) {
    && Shape(s) && Capacity(s.cap) && s.inn == s.out
    && s.p == PIdle && s.c == CIdle && s.published == s.taken == [] && !s.putFailed && !s.getFailed
  }

  /** One thread does one step. */
  ghost predicate Follows(s: State, t: State) {
    exists a :: Enabled(s, a) && t == Apply(s, a)
  }

  ghost predicate StepAt(run: seq<State>, i: nat) {
    i + 1 < |run| && Follows(run[i], run[i + 1])
  }

  /** Any interleaving of the two threads, of any length. */
  ghost predicate Behaviour(run: seq<State>) {
    run != [] && Init(run[0]) && forall i :: 0 <= i < |run| - 1 ==> StepAt(run, i)
  }

  function Live(s: State): seq<seq<byte>>
    requires Shape(s)
  {
    Queue(s.d, s.esize, s.cap, s.inn, s.out)
  }

  ghost predicate Ok(s: State) {
    && Shape(s) && Capacity(s.cap) && Counters(s.cap, s.inn, s.out)
    && s.published == s.taken + Live(s)
    && !s.putFailed && !s.getFailed
    && (s.p.PIdle? || CountBetween(s.inn, s.out) < s.cap)
    && (s.p.PRoomSeen? ==> |s.p.x| == s.esize)
    && (s.p.PCopying? ==>
          && |s.p.x| == s.esize && s.p.done <= s.esize
          && Slot(s.d, s.esize, s.cap, s.inn % s.cap)[..s.p.done] == s.p.x[..s.p.done])
    && (s.c.CIdle? || CountBetween(s.inn, s.out) > 0)
    && (s.c.CCopying? ==> |s.c.buf| <= s.esize && s.c.buf == Slot(s.d, s.esize, s.cap, s.out % s.cap)[..|s.c.buf|])
  }

  /** The slot being filled is none of the slots that hold a published element. */
  lemma FreeSlotIsNotLive(s: State, i: nat)
    requires Shape(s) && Capacity(s.cap) && CountBetween(s.inn, s.out) < s.cap && i < CountBetween(s.inn, s.out)
    ensures s.inn % s.cap != (s.out + i) % s.cap
  {
    InPosition(s.cap, s.inn, s.out);
    DistinctSlots(s.out + i, CountBetween(s.inn, s.out) - i, s.cap);
  }

  /** Writing one byte of a slot leaves every other slot alone. */
  lemma ByteInSlot(d: seq<byte>, esize: nat, cap: nat, j: nat, i: nat, b: byte, q: nat)
    requires Geometry(d, esize, cap) && j < cap && q < cap && i < esize
    ensures 0 <= j * esize + i < |d|
    ensures Slot(d[j * esize + i := b], esize, cap, q) ==
            if q == j then Slot(d, esize, cap, j)[i := b] else Slot(d, esize, cap, q)
  {
    SlotIsSlice(d, esize, cap, j);
    SlotIsSlice(d, esize, cap, q);
    SlotIsSlice(d[j * esize + i := b], esize, cap, q);
    if q < j {
      Below(esize, q, j);
    } else if j < q {
      Below(esize, j, q);
    }
  }

  lemma SlotByte(d: seq<byte>, esize: nat, cap: nat, j: nat, i: nat)
    requires Geometry(d, esize, cap) && j < cap && i < esize
    ensures 0 <= j * esize + i < |d| && Slot(d, esize, cap, j)[i] == d[j * esize + i]
  {
    SlotIsSlice(d, esize, cap, j);
  }

  lemma PutByteKeeps(s: State)
    requires Ok(s) && Enabled(s, PutByte)
    ensures Ok(Apply(s, PutByte)) && Live(Apply(s, PutByte)) == Live(s)
  {
    hide Slot, Capacity;
    var t, j := Apply(s, PutByte), s.inn % s.cap;
    assert t.d == s.d[j * s.esize + s.p.done := s.p.x[s.p.done]];
    forall i | 0 <= i < CountBetween(s.inn, s.out)
      ensures Live(t)[i] == Live(s)[i]
    {
      FreeSlotIsNotLive(s, i);
      ByteInSlot(s.d, s.esize, s.cap, j, s.p.done, s.p.x[s.p.done], (s.out + i) % s.cap);
    }
    if CountBetween(s.inn, s.out) > 0 {
      assert Live(t)[0] == Live(s)[0];
    }
    ByteInSlot(s.d, s.esize, s.cap, j, s.p.done, s.p.x[s.p.done], j);
    assert s.p.x[..s.p.done + 1] == s.p.x[..s.p.done] + [s.p.x[s.p.done]];
  }

  lemma PublishKeeps(s: State)
    requires Ok(s) && Enabled(s, Publish)
    ensures Ok(Apply(s, Publish)) && Live(Apply(s, Publish)) == Live(s) + [s.p.x]
  {
    hide Slot, Capacity, Stored;
    var j, x := s.inn % s.cap, s.p.x;
    assert Slot(s.d, s.esize, s.cap, j) == x by {
      assert x[..s.esize] == x && Slot(s.d, s.esize, s.cap, j)[..s.esize] == Slot(s.d, s.esize, s.cap, j);
    }
    PutAppends(s.d, s.esize, s.cap, s.inn, s.out, x);
    CapacityBound(s.cap);
    CountAdd(s.inn, s.out, 1);
    StoreWhatIsThere(s.d, s.esize, s.cap, j);
    assert (s.taken + Live(s)) + [x] == s.taken + (Live(s) + [x]);
  }

  lemma StoreWhatIsThere(d: seq<byte>, esize: nat, cap: nat, j: nat)
    requires Geometry(d, esize, cap) && j < cap
    ensures 0 <= j * esize < |d| && Stored(d, j * esize, Slot(d, esize, cap, j)) == d
  {
    SlotIsSlice(d, esize, cap, j);
    var o, x := j * esize, d[j * esize..j * esize + esize];
    forall b | 0 <= b < |d|
      ensures Stored(d, o, x)[b] == d[b]
    {
      if Distance(o, b, |d|) < |x| {
        assert x[Distance(o, b, |d|)] == d[b];
      }
    }
  }

  lemma GetByteKeeps(s: State)
    requires Ok(s) && Enabled(s, GetByte)
    ensures Ok(Apply(s, GetByte)) && Live(Apply(s, GetByte)) == Live(s)
  {
    hide Slot, Capacity;
    var n, head := |s.c.buf|, Slot(s.d, s.esize, s.cap, s.out % s.cap);
    SlotByte(s.d, s.esize, s.cap, s.out % s.cap, n);
    assert head[..n + 1] == head[..n] + [head[n]];
  }

  lemma ReleaseKeeps(s: State)
    requires Ok(s) && Enabled(s, Release)
    ensures Ok(Apply(s, Release)) && [s.c.buf] + Live(Apply(s, Release)) == Live(s)
  {
    hide Slot, Capacity;
    GetRemoves(s.d, s.esize, s.cap, s.inn, s.out);
    var head := Live(s)[0];
    assert head == Slot(s.d, s.esize, s.cap, s.out % s.cap) && head[..s.esize] == head;
    assert s.taken + Live(s) == (s.taken + [head]) + Live(s)[1..];
  }

  /** Every step keeps the invariant and is, seen from outside, nothing, an enqueue, or a dequeue of
      the oldest element. */
  lemma StepLinearises(s: State, a: Action)
    requires Ok(s) && Enabled(s, a)
    ensures Ok(Apply(s, a))
    ensures match a
            case Publish => Live(Apply(s, a)) == Live(s) + [s.p.x]
            case Release => [s.c.buf] + Live(Apply(s, a)) == Live(s)
            case _ => Live(Apply(s, a)) == Live(s)
  {
    match a
    case PutByte => PutByteKeeps(s);
    case Publish => PublishKeeps(s);
    case GetByte => GetByteKeeps(s);
    case Release => ReleaseKeeps(s);
    case _ =>
  }

  lemma InitOk(s: State)
    requires Init(s)
    ensures Ok(s)
  {
    assert Live(s) == [];
  }

  lemma {:induction false} AlwaysOk(run: seq<State>, n: nat)
    requires Behaviour(run) && n < |run|
    ensures Ok(run[n])
  {
    if n == 0 {
      InitOk(run[0]);
    } else {
      hide Ok, Apply, Enabled;
      AlwaysOk(run, n - 1);
      assert StepAt(run, n - 1);
      var a :| Enabled(run[n - 1], a) && run[n] == Apply(run[n - 1], a);
      StepLinearises(run[n - 1], a);
    }
  }

  lemma OkMeans(s: State)
    requires Ok(s)
    ensures s.taken <= s.published && |s.published| - |s.taken| <= s.cap && !s.putFailed && !s.getFailed
    ensures !s.p.PIdle? ==> |s.published| - |s.taken| < s.cap
    ensures !s.c.CIdle? ==> |s.taken| < |s.published|
    ensures s.c.CCopying? ==> s.c.buf <= s.published[|s.taken|]
  {
    hide Slot, Capacity;
    if s.c.CCopying? {
      assert s.published[|s.taken|] == Live(s)[0] == Slot(s.d, s.esize, s.cap, s.out % s.cap);
    }
  }

  /** In every interleaving the consumer takes exactly the published elements, whole and in order,
      never more than fit the ring are outstanding, and neither the producer's `put` after its check
      nor the consumer's `get` after its check ever fails, wrapped counters or not: from the check on there is
      room for one more, or an element to take. */
  lemma FifoInEveryInterleaving(run: seq<State>, n: nat)
    requires Behaviour(run) && n < |run|
    ensures run[n].taken <= run[n].published
    ensures |run[n].published| - |run[n].taken| <= run[n].cap
    ensures !run[n].putFailed && !run[n].getFailed
    ensures !run[n].p.PIdle? ==> |run[n].published| - |run[n].taken| < run[n].cap
    ensures !run[n].c.CIdle? ==> |run[n].taken| < |run[n].published|
    ensures run[n].c.CCopying? ==> run[n].c.buf <= run[n].published[|run[n].taken|]
  {
    AlwaysOk(run, n);
    OkMeans(run[n]);
  }

  /** The actions that make up a run. */
  ghost predicate Trace(run: seq<State>, actions: seq<Action>) {
    && run != [] && Init(run[0]) && |actions| == |run| - 1
    && forall i :: 0 <= i < |actions| ==> TakenAt(run, actions, i)
  }

  ghost predicate TakenAt(run: seq<State>, actions: seq<Action>, i: nat) {
    i < |actions| && i + 1 < |run| && Enabled(run[i], actions[i]) && run[i + 1] == Apply(run[i], actions[i])
  }

  /** Fewer elements wait than the ring holds. */
  predicate HasRoom(s: State) {
    |s.published| - |s.taken| < s.cap
  }

  /** The elements offered before step `n` while there was room. */
  function OfferedInTime(run: seq<State>, actions: seq<Action>, n: nat): seq<seq<byte>>
    requires n <= |actions| && n <= |run|
  {
    if n == 0 then []
    else
      OfferedInTime(run, actions, n - 1)
      + if actions[n - 1].Offer? && HasRoom(run[n - 1]) then [actions[n - 1].x] else []
  }

  /** The element the producer is at. */
  function InHand(p: Producer): seq<seq<byte>> {
    match p
    case PIdle => []
    case PRoomSeen(x) => [x]
    case PCopying(x, _) => [x]
  }

  lemma {:induction false} TraceIsBehaviour(run: seq<State>, actions: seq<Action>)
    requires Trace(run, actions)
    ensures Behaviour(run)
  {
    hide Init, Enabled, Apply;
    forall i | 0 <= i < |run| - 1
      ensures StepAt(run, i)
    {
      assert TakenAt(run, actions, i);
    }
  }

  /** Every run is the trace of some actions. */
  lemma {:induction false} ActionsOf(run: seq<State>) returns (actions: seq<Action>)
    requires Behaviour(run)
    ensures Trace(run, actions)
    decreases |run|
  {
    hide Init, Enabled, Apply;
    if |run| == 1 {
      actions := [];
    } else {
      var n, front := |run| - 2, run[..|run| - 1];
      forall i | 0 <= i < |front| - 1
        ensures StepAt(front, i)
      {
        assert StepAt(run, i);
      }
      var before := ActionsOf(front);
      assert StepAt(run, n);
      var a :| Enabled(run[n], a) && run[n + 1] == Apply(run[n], a);
      actions := before + [a];
      forall i | 0 <= i < |actions|
        ensures TakenAt(run, actions, i)
      {
        if i < n {
          assert TakenAt(front, before, i);
        }
      }
    }
  }

  lemma OfferStep(s: State, a: Action)
    requires Ok(s) && Enabled(s, a)
    ensures var t := Apply(s, a);
            t.published + InHand(t.p) ==
              s.published + InHand(s.p) + if a.Offer? && HasRoom(s) then [a.x] else []
  {
    hide Slot, Capacity, Address;
    RoomLeft(s);
  }

  /** What is published, with the element in the producer's hands behind it, is exactly what was offered while
      there was room, byte for byte and in order. */
  lemma {:induction false} PublishedAsOffered(run: seq<State>, actions: seq<Action>, n: nat)
    requires Trace(run, actions) && n < |run|
    ensures run[n].published + InHand(run[n].p) == OfferedInTime(run, actions, n)
    decreases n
  {
    TraceIsBehaviour(run, actions);
    hide Ok, Apply, Enabled, HasRoom, Behaviour;
    if n > 0 {
      PublishedAsOffered(run, actions, n - 1);
      assert TakenAt(run, actions, n - 1);
      AlwaysOk(run, n - 1);
      OfferStep(run[n - 1], actions[n - 1]);
    }
  }

  lemma AddressSlot(s: State, counter: nat, i: nat)
    requires Shape(s) && i < s.esize
    ensures Address(s, counter, i) / s.esize == counter % s.cap
  {
    ModUnique(Address(s, counter, i), s.esize, counter % s.cap, i);
  }

  lemma FreshAddress(s: State, i: nat)
    requires Ok(s) && Enabled(s, PutByte) && i < CountBetween(s.inn, s.out)
    ensures Address(s, s.inn, s.p.done) / s.esize != (s.out + i) % s.cap
  {
    hide Slot, Capacity, Address;
    FreeSlotIsNotLive(s, i);
    AddressSlot(s, s.inn, s.p.done);
  }

  /** While the producer copies, the bytes it writes belong to no published element. */
  lemma WritesNothingLive(run: seq<State>, n: nat, i: nat)
    requires Behaviour(run) && n < |run| && Enabled(run[n], PutByte) && i < CountBetween(run[n].inn, run[n].out)
    ensures Address(run[n], run[n].inn, run[n].p.done) / run[n].esize != (run[n].out + i) % run[n].cap
  {
    hide Behaviour, Ok;
    AlwaysOk(run, n);
    FreshAddress(run[n], i);
  }

  // ---------- a third thread that reads the counters ----------

  /** A step publishes and takes at most one element, and moves the counters accordingly. */
  lemma StepCounts(s: State, t: State)
    requires Follows(s, t)
    ensures t.cap == s.cap
    ensures (t.published == s.published && t.inn == s.inn) || (|t.published| == |s.published| + 1 && t.inn == (s.inn + 1) % U32)
    ensures (t.taken == s.taken && t.out == s.out) || (|t.taken| == |s.taken| + 1 && t.out == (s.out + 1) % U32)
  {
    hide Address, Geometry;
  }

  /** The counters are the numbers of elements published and taken, modulo 2^32. */
  lemma {:induction false} CountersCount(run: seq<State>, n: nat)
    requires Behaviour(run) && n < |run|
    ensures run[n].cap == run[0].cap
    ensures run[n].inn == (run[0].inn + |run[n].published|) % U32
    ensures run[n].out == (run[0].inn + |run[n].taken|) % U32
  {
    hide Capacity, Follows;
    if n > 0 {
      CountersCount(run, n - 1);
      assert StepAt(run, n - 1);
      StepCounts(run[n - 1], run[n]);
      OneMore(run[0].inn + |run[n - 1].published|);
      OneMore(run[0].inn + |run[n - 1].taken|);
    }
  }

  lemma OneMore(x: nat)
    ensures (x % U32 + 1) % U32 == (x + 1) % U32
  {
  }

  lemma {:induction false} OnlyMore(run: seq<State>, i: nat, j: nat)
    requires Behaviour(run) && i <= j < |run|
    ensures |run[i].published| <= |run[j].published| && |run[i].taken| <= |run[j].taken|
    decreases j
  {
    hide Follows, Init;
    if i < j {
      OnlyMore(run, i, j - 1);
      assert StepAt(run, j - 1);
      StepCounts(run[j - 1], run[j]);
    }
  }

  /** The length that the difference of the two counters comes to, and the free room reported for it; both
      subtractions are 32 bits wide. */
  function ReportedFree(cap: nat, inn: nat, out: nat): nat {
    (cap - CountBetween(inn, out)) % U32
  }

  lemma ReportOfCounts(start: nat, cap: nat, published: nat, taken: nat)
    requires cap < U32 && published < taken + U32 && taken < published + U32
    ensures var inn, out := (start + published) % U32, (start + taken) % U32;
            && CountBetween(inn, out) == (if published >= taken then published - taken else published - taken + U32)
            && (CountBetween(inn, out) <= cap ==> ReportedFree(cap, inn, out) == cap - CountBetween(inn, out))
            && (CountBetween(inn, out) > cap ==> ReportedFree(cap, inn, out) == cap + U32 - CountBetween(inn, out) > cap)
  {
  }

  /** Fewer elements than the counters can tell apart pass through between two steps. */
  predicate NoLap(s: State, t: State) {
    |t.taken| - |s.taken| < U32 - s.cap
  }

  lemma LengthOfCounts(start: nat, published: nat, taken: nat)
    ensures CountBetween((start + published) % U32, (start + taken) % U32) == (published - taken) % U32
  {
  }

  /** For every run: a report that loads the write counter at step `i` and the read counter at step `j >= i`
      sees the difference of elements published by `i` and taken by `j`, in 32 bits. Unless the counters lap
      each other in between, it stays within the ring if and only if no more have been taken by `j` than had
      been published by `i`; if not, it claims more free room than the ring has. */
  lemma WriteCounterFirst(run: seq<State>, i: nat, j: nat)
    requires Behaviour(run) && i <= j < |run|
    ensures CountBetween(run[i].inn, run[j].out) == (|run[i].published| - |run[j].taken|) % U32
    ensures var cap, free := run[0].cap, ReportedFree(run[0].cap, run[i].inn, run[j].out);
            NoLap(run[i], run[j]) ==>
              && (CountBetween(run[i].inn, run[j].out) <= cap <==> |run[j].taken| <= |run[i].published|)
              && (|run[j].taken| <= |run[i].published| ==> free == cap - (|run[i].published| - |run[j].taken|))
              && (|run[j].taken| > |run[i].published| ==> free == cap + (|run[j].taken| - |run[i].published|))
  {
    Capacities(run, i, j);
    hide Capacity, Behaviour, CountBetween, ReportedFree;
    LengthOfCounts(run[0].inn, |run[i].published|, |run[j].taken|);
    if NoLap(run[i], run[j]) {
      ReportOfCounts(run[0].inn, run[0].cap, |run[i].published|, |run[j].taken|);
    }
  }

  /** The other order of the two loads, which the C expression leaves open: within the ring if and only if
      the elements published by `j` exceed those taken by `i` by no more than the capacity; if not, it again
      claims more free room than the ring has. */
  lemma ReadCounterFirst(run: seq<State>, i: nat, j: nat)
    requires Behaviour(run) && i <= j < |run|
    ensures CountBetween(run[j].inn, run[i].out) == (|run[j].published| - |run[i].taken|) % U32
    ensures var cap, free := run[0].cap, ReportedFree(run[0].cap, run[j].inn, run[i].out);
            var seen := |run[j].published| - |run[i].taken|;
            NoLap(run[i], run[j]) ==>
              && (CountBetween(run[j].inn, run[i].out) <= cap <==> seen <= cap)
              && (seen <= cap ==> free == cap - seen)
              && (seen > cap ==> free == U32 - (seen - cap) > cap)
  {
    Capacities(run, i, j);
    hide Capacity, Behaviour, CountBetween, ReportedFree;
    LengthOfCounts(run[0].inn, |run[j].published|, |run[i].taken|);
    if NoLap(run[i], run[j]) {
      ReportOfCounts(run[0].inn, run[0].cap, |run[j].published|, |run[i].taken|);
    }
  }

  lemma Capacities(run: seq<State>, i: nat, j: nat)
    requires Behaviour(run) && i <= j < |run|
    ensures 0 < run[0].cap < U32 && run[i].cap == run[0].cap
    ensures run[i].inn == (run[0].inn + |run[i].published|) % U32 && run[i].out == (run[0].inn + |run[i].taken|) % U32
    ensures run[j].inn == (run[0].inn + |run[j].published|) % U32 && run[j].out == (run[0].inn + |run[j].taken|) % U32
    ensures |run[i].taken| <= |run[i].published| <= |run[j].published| && |run[i].taken| <= |run[j].taken|
    ensures |run[i].published| - |run[i].taken| <= run[0].cap && |run[j].published| - |run[j].taken| <= run[0].cap
  {
    hide Behaviour;
    CountersCount(run, i);
    CountersCount(run, j);
    OnlyMore(run, i, j);
    FifoInEveryInterleaving(run, i);
    FifoInEveryInterleaving(run, j);
    StartCapacity(run);
  }

  lemma StartCapacity(run: seq<State>)
    requires Behaviour(run)
    ensures 0 < run[0].cap < U32
  {
    CapacityBound(run[0].cap);
  }

  /** A behaviour goes on with any step that is enabled. */
  lemma GoesOn(run: seq<State>, a: Action, next: State)
    requires Behaviour(run) && Enabled(run[|run| - 1], a) && next == Apply(run[|run| - 1], a)
    ensures Behaviour(run + [next])
  {
    hide Init, Follows;
    Witness(run[|run| - 1], a);
    var more := run + [next];
    forall i | 0 <= i < |more| - 1
      ensures StepAt(more, i)
    {
      if i < |run| - 1 {
        assert StepAt(run, i);
      }
    }
  }

  lemma Witness(s: State, a: Action)
    requires Enabled(s, a)
    ensures Follows(s, Apply(s, a))
  {
  }

  /** Both threads are between two elements. */
  predicate AtRest(s: State) {
    s.p.PIdle? && s.c.CIdle?
  }

  /** What has passed through the ring since `s`: nothing but the numbers of elements matters here. */
  predicate Passed(s: State, t: State, put: nat, taken: nat) {
    && t.esize == s.esize && t.cap == s.cap
    && |t.published| == |s.published| + put && |t.taken| == |s.taken| + taken
  }

  ghost predicate Extends(run: seq<State>, more: seq<State>) {
    Behaviour(more) && |run| <= |more| && run == more[..|run|]
  }

  function End(run: seq<State>): State
    requires run != []
  {
    run[|run| - 1]
  }

  /** One more step at the end of a run. */
  lemma Step(run: seq<State>, a: Action) returns (more: seq<State>)
    requires Behaviour(run) && Enabled(End(run), a)
    ensures Extends(run, more) && End(more) == Apply(End(run), a)
  {
    hide Enabled, Apply;
    more := run + [Apply(End(run), a)];
    GoesOn(run, a, Apply(End(run), a));
  }

  lemma ExtendsAll(a: seq<State>, b: seq<State>, c: seq<State>)
    requires Extends(a, b) && Extends(b, c)
    ensures Extends(a, c)
  {
    hide Behaviour;
  }

  lemma AtTheEnd(run: seq<State>)
    requires Behaviour(run)
    ensures run != [] && Ok(End(run)) && Extends(run, run)
  {
    AlwaysOk(run, |run| - 1);
  }

  /** The producer's copy loop. */
  lemma {:induction false} CopiesIn(run: seq<State>) returns (more: seq<State>)
    requires Behaviour(run) && End(run).p.PCopying?
    ensures Extends(run, more) && End(more) == End(run).(d := End(more).d, p := PCopying(End(run).p.x, End(run).esize))
    decreases End(run).esize - End(run).p.done
  {
    AtTheEnd(run);
    hide Behaviour, Extends;
    OkCopying(End(run));
    if End(run).p.done == End(run).esize {
      more := run;
    } else {
      var next := Step(run, PutByte);
      ExtendsIsBehaviour(run, next);
      more := CopiesIn(next);
      ExtendsAll(run, next, more);
    }
  }

  lemma ExtendsIsBehaviour(run: seq<State>, more: seq<State>)
    requires Extends(run, more)
    ensures Behaviour(more) && more != []
  {
  }

  /** The consumer's copy loop. */
  lemma {:induction false} CopiesOut(run: seq<State>) returns (more: seq<State>)
    requires Behaviour(run) && End(run).c.CCopying?
    ensures Extends(run, more) && End(more).c.CCopying? && |End(more).c.buf| == End(run).esize
    ensures End(more) == End(run).(c := End(more).c)
    decreases End(run).esize - |End(run).c.buf|
  {
    AtTheEnd(run);
    hide Behaviour, Extends;
    OkCopying(End(run));
    if |End(run).c.buf| == End(run).esize {
      more := run;
    } else {
      var next := Step(run, GetByte);
      ExtendsIsBehaviour(run, next);
      more := CopiesOut(next);
      ExtendsAll(run, next, more);
    }
  }

  lemma OkCopying(s: State)
    requires Ok(s)
    ensures Shape(s)
    ensures s.p.PCopying? ==> |s.p.x| == s.esize && s.p.done <= s.esize
    ensures s.c.CCopying? ==> |s.c.buf| <= s.esize
  {
  }

  /** The producer puts one more element into a ring that has room. */
  lemma PutsOne(run: seq<State>) returns (more: seq<State>)
    requires Behaviour(run) && AtRest(End(run)) && |End(run).published| - |End(run).taken| < End(run).cap
    ensures Extends(run, more) && AtRest(End(more)) && Passed(End(run), End(more), 1, 0)
  {
    AtTheEnd(run);
    RoomLeft(End(run));
    OkCopying(End(run));
    hide Behaviour, Extends, Ok, Capacity;
    var x: seq<byte> := seq(End(run).esize, _ => 0);
    var r1 := Step(run, Offer(x));
    ExtendsIsBehaviour(run, r1);
    var r2 := Step(r1, PutCheck);
    ExtendsIsBehaviour(r1, r2);
    var r3 := CopiesIn(r2);
    ExtendsIsBehaviour(r2, r3);
    AtTheEnd(r3);
    OkCopying(End(r3));
    more := Step(r3, Publish);
    ExtendsAll(run, r1, r2);
    ExtendsAll(run, r2, r3);
    ExtendsAll(run, r3, more);
  }

  lemma RoomLeft(s: State)
    requires Ok(s)
    ensures |s.published| - |s.taken| == CountBetween(s.inn, s.out) <= s.cap < U32
  {
    CapacityBound(s.cap);
  }

  /** The consumer takes one element out of a ring that has one. */
  lemma TakesOne(run: seq<State>) returns (more: seq<State>)
    requires Behaviour(run) && AtRest(End(run)) && |End(run).published| > |End(run).taken|
    ensures Extends(run, more) && AtRest(End(more)) && Passed(End(run), End(more), 0, 1)
  {
    AtTheEnd(run);
    RoomLeft(End(run));
    OkCopying(End(run));
    hide Behaviour, Extends, Ok, Capacity;
    var r1 := Step(run, Poll);
    ExtendsIsBehaviour(run, r1);
    var r2 := Step(r1, GetCheck);
    ExtendsIsBehaviour(r1, r2);
    var r3 := CopiesOut(r2);
    ExtendsIsBehaviour(r2, r3);
    AtTheEnd(r3);
    OkCopying(End(r3));
    more := Step(r3, Release);
    ExtendsAll(run, r1, r2);
    ExtendsAll(run, r2, r3);
    ExtendsAll(run, r3, more);
  }

  lemma {:induction false} PutsMany(run: seq<State>, k: nat) returns (more: seq<State>)
    requires Behaviour(run) && AtRest(End(run)) && |End(run).published| - |End(run).taken| + k <= End(run).cap
    ensures Extends(run, more) && AtRest(End(more)) && Passed(End(run), End(more), k, 0)
    decreases k
  {
    AtTheEnd(run);
    hide Behaviour, Extends, Ok;
    if k == 0 {
      more := run;
    } else {
      var next := PutsOne(run);
      ExtendsIsBehaviour(run, next);
      more := PutsMany(next, k - 1);
      ExtendsAll(run, next, more);
    }
  }

  /** From any start: one element passes through, the ring is filled, one element leaves and another comes. */
  lemma FillAndPass(start: State) returns (run: seq<State>, a: nat, b: nat, c: nat)
    requires Init(start)
    ensures Behaviour(run) && run[0] == start && a <= b <= c < |run|
    ensures Passed(start, run[a], 1, 1) && Passed(start, run[b], start.cap + 1, 1) && Passed(start, run[c], start.cap + 2, 2)
  {
    var r0 := [start];
    AtTheEnd(r0);
    StartBound(start);
    hide Init, Behaviour, Extends, Ok, Capacity;
    var r1 := PutsOne(r0);
    ExtendsIsBehaviour(r0, r1);
    var r2 := TakesOne(r1);
    ExtendsIsBehaviour(r1, r2);
    var r3 := PutsMany(r2, start.cap);
    ExtendsIsBehaviour(r2, r3);
    var r4 := TakesOne(r3);
    ExtendsIsBehaviour(r3, r4);
    run := PutsOne(r4);
    ExtendsIsBehaviour(r4, run);
    ExtendsAll(r3, r4, run);
    ExtendsAll(r2, r3, run);
    ExtendsAll(r1, r2, run);
    ExtendsAll(r0, r1, run);
    a, b, c := |r2| - 1, |r3| - 1, |run| - 1;
    Prefix(r0, run);
    Prefix(r2, run);
    Prefix(r3, run);
    Lengths(r2, r3, run);
  }

  /** Both failures happen, in rings of every capacity and element size and from any start of the counters. A
      report that loads the write counter at the start and the read counter at step `a`, after one element has
      passed through, claims one place more than the ring has. One that loads the read counter at step `b`,
      while the ring is full, and the write counter at step `c`, after one element left and another came, claims
      2^32 - 1 places. */
  lemma BothOrdersFail(start: State) returns (run: seq<State>, a: nat, b: nat, c: nat)
    requires Init(start)
    ensures Behaviour(run) && run[0] == start && a <= b <= c < |run|
    ensures ReportedFree(start.cap, run[0].inn, run[a].out) == start.cap + 1
    ensures ReportedFree(start.cap, run[c].inn, run[b].out) == U32 - 1
  {
    StartBound(start);
    hide Behaviour, Capacity, ReportedFree, CountBetween;
    run, a, b, c := FillAndPass(start);
    WriteCounterFirst(run, 0, a);
    ReadCounterFirst(run, b, c);
  }

  lemma StartBound(start: State)
    requires Init(start)
    ensures 0 < start.cap <= U32 / 2 && AtRest(start) && start.published == start.taken == []
  {
    var k: nat :| k < 32 && start.cap == Pow2(k);
    Pow2Monotone(k, 31);
    CapacityBound(start.cap);
    Powers();
    assert Pow2(32) == 2 * Pow2(31);
  }

  lemma Prefix(run: seq<State>, more: seq<State>)
    requires run != [] && Extends(run, more)
    ensures |run| <= |more| && more[|run| - 1] == End(run)
  {
    hide Behaviour;
    assert more[|run| - 1] == more[..|run|][|run| - 1];
  }

  lemma Lengths(a: seq<State>, b: seq<State>, c: seq<State>)
    requires Extends(a, b) && Extends(b, c)
    ensures |a| <= |b| <= |c|
  {
    hide Behaviour;
  }

  /** The rings the program reports on are such rings: 131072 elements of 48 bytes. */
  lemma ReportedRingStarts(d: seq<byte>)
    requires |d| == 131072 * 48
    ensures Init(State(48, 131072, d, 0, 0, PIdle, CIdle, [], [], false, false))
  {
    Powers();
    assert Pow2(17) == 2 * Pow2(16);
  }
}
