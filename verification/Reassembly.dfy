/** Multi-packet frames of one CAN channel: collected in order, sent when complete. */
module Reassembly {
  import opened Bytes
  import opened Checksum
  import opened PcFrame

  const MAX_PACKETS: nat := 10

  /** A frame from the channel's ring, and when it is looked at: milliseconds on the wall clock. */
  datatype Input = Input(frame: seq<byte>, at: int)

  /** The clock reading the program takes has whole seconds only. */
  function Seconds(at: int): int {
    at / 1000
  }

  predicate Acceptable(f: seq<byte>, channel: nat) {
    |f| == FRAME_SIZE && FirstWord(f[..4]) == PC_STATUS_HEAD && FrameChannel(f) == channel
  }

  /** Packet number and count as the program keeps them: the 16-bit fields cut to 8 bits. */
  function Sequence(f: seq<byte>): nat
    requires |f| == FRAME_SIZE
  {
    PacketNumber(f) % 0x100
  }

  function Total(f: seq<byte>): nat
    requires |f| == FRAME_SIZE
  {
    PacketCount(f) % 0x100
  }

  lemma LowByte(b: seq<byte>)
    requires |b| == 2
    ensures LittleEndian16(b) % 0x100 == b[0] as nat
  {
    LowDigit(b[0] as nat, b[1] as nat);
  }

  lemma LowDigit(a: nat, b: nat)
    requires a < 0x100
    ensures (a + b * 0x100) % 0x100 == a
  {
  }

  /** What the program looks at, byte by byte: the length, the four head bytes and the channel of a frame, and
      the low bytes of its number and count. */
  lemma LooksAtBytes(f: seq<byte>, channel: nat)
    ensures Acceptable(f, channel) <==> |f| == 48 && f[..4] == [0xD2, 0x02, 0x96, 0x49] && f[7] as nat == channel
    ensures |f| == 48 ==> Sequence(f) == f[34] as nat && Total(f) == f[32] as nat
  {
    hide Load, LittleEndian16;
    if |f| == 48 {
      HeadWord();
      if f[..4] != [0xD2, 0x02, 0x96, 0x49] {
        FirstWordsDiffer(f[..4], [0xD2, 0x02, 0x96, 0x49]);
      }
      LowByte(f[34..36]);
      LowByte(f[32..34]);
    }
  }

  /** The cut changes nothing exactly as long as the field is below 256. */
  lemma CutIsExactBelow256(f: seq<byte>)
    requires |f| == FRAME_SIZE
    ensures Sequence(f) == PacketNumber(f) <==> PacketNumber(f) < 0x100
    ensures Total(f) == PacketCount(f) <==> PacketCount(f) < 0x100
  {
  }

  /** The program's comparison, on clock readings. */
  predicate TimedOut(last: int, now: int) {
    (now - last) * 1000 > 1000
  }

  /** The time-out of 1000 ms, measured on whole seconds: it strikes exactly when the milliseconds since the
      last packet, counted from the beginning of the second in which that one came, reach 2000. */
  lemma TimeoutIff(last: int, now: int)
    ensures TimedOut(Seconds(last), Seconds(now)) <==> now - last + last % 1000 >= 2000
    ensures now - last <= 1000 ==> !TimedOut(Seconds(last), Seconds(now))
    ensures now - last >= 2000 ==> TimedOut(Seconds(last), Seconds(now))
  {
  }

  // ---------- one frame ----------

  datatype Buffer = Idle | Collecting(total: nat, got: seq<seq<byte>>, last: int)

  predicate Sound(b: Buffer) {
    b.Collecting? ==> 2 <= b.total <= MAX_PACKETS && 0 < |b.got| < b.total
  }

  /** Takes one frame; the second result is what is sent on the CAN bus. */
  function Step(b: Buffer, input: Input, channel: nat): (r: (Buffer, seq<seq<byte>>))
    requires Sound(b)
    ensures Sound(r.0)
  {
    var f := input.frame;
    if !Acceptable(f, channel) then (b, [])
    else if Total(f) == 1 then (b, [f])
    else
      var kept := if b.Collecting? && TimedOut(b.last, Seconds(input.at)) then Idle else b;
      if Sequence(f) == 0 then
        if Total(f) == 0 || Total(f) > MAX_PACKETS then (kept, []) else (Collecting(Total(f), [f], Seconds(input.at)), [])
      else if kept.Idle? || Sequence(f) >= kept.total then (kept, [])
      else if Sequence(f) != |kept.got| then (Idle, [])
      else if |kept.got| + 1 == kept.total then (Idle, kept.got + [f])
      else (Collecting(kept.total, kept.got + [f], Seconds(input.at)), [])
  }

  function After(inputs: seq<Input>, channel: nat): (b: Buffer)
    ensures Sound(b)
  {
    if inputs == [] then Idle else Step(After(inputs[..|inputs| - 1], channel), inputs[|inputs| - 1], channel).0
  }

  /** What the last frame of a run makes the channel send. */
  function Sent(inputs: seq<Input>, channel: nat): seq<seq<byte>>
    requires inputs != []
  {
    Step(After(inputs[..|inputs| - 1], channel), inputs[|inputs| - 1], channel).1
  }

  // ---------- the program's buffer ----------

  class PacketBuffer {
    const channel: nat
    const frames: array<seq<byte>>
    var totalPackets: nat
    var receivedPackets: nat
    var isActive: bool
    var lastReceiveTime: int

    ghost predicate Valid()
      reads this
    {
      && frames.Length == MAX_PACKETS
      && (isActive ==> 2 <= totalPackets <= MAX_PACKETS && 0 < receivedPackets < totalPackets)
      && (!isActive ==> totalPackets == receivedPackets == 0)
    }

    ghost function Model(): (b: Buffer)
      requires Valid()
      reads this, frames
      ensures Sound(b)
    {
      if isActive then Collecting(totalPackets, frames[..receivedPackets], lastReceiveTime) else Idle
    }

    constructor (channel: nat)
      ensures Valid() && Model() == Idle && this.channel == channel && fresh(frames)
    {
      this.channel := channel;
      frames := new seq<byte>[MAX_PACKETS](_ => []);
      totalPackets, receivedPackets, isActive, lastReceiveTime := 0, 0, false, 0;
    }

    method Clear()
      modifies this`totalPackets, this`receivedPackets, this`isActive, this`lastReceiveTime
      ensures totalPackets == receivedPackets == 0 && !isActive
    {
      totalPackets, receivedPackets, isActive, lastReceiveTime := 0, 0, false, 0;
    }

    /** Handles one frame; every index into the array is in bounds. */
    method Handle(input: Input) returns (sent: seq<seq<byte>>)
      requires Valid()
      modifies this, frames
      ensures Valid()
      ensures (Model(), sent) == Step(old(Model()), input, channel)
    {
      hide Acceptable, TimedOut, Sequence, Total, Seconds;
      sent := [];
      var f := input.frame;
      if !Acceptable(f, channel) {
        return;
      }
      LengthOf(f, channel);
      var sequence, total := Sequence(f), Total(f);
      if total == 1 {
        return [f];
      }
      var now := Seconds(input.at);
      if isActive && TimedOut(lastReceiveTime, now) {
        Clear();
      }
      if sequence == 0 {
        if total == 0 || total > MAX_PACKETS {
          return;
        }
        Clear();
        totalPackets, isActive := total, true;
      }
      if !isActive || sequence >= totalPackets {
        return;
      }
      if sequence != receivedPackets {
        Clear();
        return;
      }
      frames[sequence] := f;
      assert frames[..sequence + 1] == old(frames[..sequence]) + [f];
      assert sequence == 0 ==> frames[..sequence + 1] == [f];
      receivedPackets := receivedPackets + 1;
      lastReceiveTime := now;
      if receivedPackets == totalPackets {
        for j := 0 to totalPackets
          invariant sent == frames[..j]
        {
          sent := sent + [frames[j]];
        }
        Clear();
      }
    }
  }

  lemma LengthOf(f: seq<byte>, channel: nat)
    requires Acceptable(f, channel)
    ensures |f| == FRAME_SIZE
  {
  }

  // ---------- which groups are sent ----------

  /** The first packet of a group of `total`. */
  predicate Opens(input: Input, channel: nat, total: nat) {
    Acceptable(input.frame, channel) && Sequence(input.frame) == 0 && Total(input.frame) == total && 2 <= total <= 10
  }

  /** The packet that continues a group which has `k` packets, the last at time `last`; whatever total it
      claims, except 1, is not looked at. */
  predicate Continues(input: Input, channel: nat, k: nat, last: int) {
    Acceptable(input.frame, channel) && Sequence(input.frame) == k && Total(input.frame) != 1 && Seconds(input.at) - last <= 1
  }

  /** A frame that leaves a group of `total`, last heard of at time `last`, as it is. */
  predicate Neutral(input: Input, channel: nat, total: nat, last: int) {
    Acceptable(input.frame, channel) && Total(input.frame) != 1 ==>
      && Seconds(input.at) - last <= 1
      && if Sequence(input.frame) == 0 then Total(input.frame) == 0 || Total(input.frame) > 10
         else Sequence(input.frame) >= total
  }

  /** Nothing that disturbs the group happens strictly between two places. */
  ghost predicate Quiet(inputs: seq<Input>, channel: nat, total: nat, from: nat, to: nat)
    requires from < |inputs| && to <= |inputs|
  {
    forall j :: from < j < to ==> Neutral(inputs[j], channel, total, Seconds(inputs[from].at))
  }

  /** `at[k]` is where packet `k` is found. */
  ghost predicate Link(inputs: seq<Input>, channel: nat, total: nat, at: seq<nat>, k: nat)
    requires k < |at|
  {
    && at[k] < |inputs|
    && if k == 0 then Opens(inputs[at[0]], channel, total)
       else
         && at[k - 1] < at[k]
         && Continues(inputs[at[k]], channel, k, Seconds(inputs[at[k - 1]].at))
         && Quiet(inputs, channel, total, at[k - 1], at[k])
  }

  /** The frames at `at` are packets 0, 1, ... of one group of `total`: in order, each within a second of the
      one before it, with nothing but neutral frames between them and behind the last. */
  ghost predicate Chain(inputs: seq<Input>, channel: nat, total: nat, at: seq<nat>) {
    && 0 < |at| <= total
    && (forall k :: 0 <= k < |at| ==> Link(inputs, channel, total, at, k))
    && Last(at) < |inputs| && Quiet(inputs, channel, total, Last(at), |inputs|)
  }

  function Last(at: seq<nat>): nat
    requires at != []
  {
    at[|at| - 1]
  }

  function FramesAt(inputs: seq<Input>, at: seq<nat>): (fs: seq<seq<byte>>)
    requires forall k :: 0 <= k < |at| ==> at[k] < |inputs|
    ensures |fs| == |at|
  {
    seq(|at|, k requires 0 <= k < |at| => inputs[at[k]].frame)
  }

  lemma {:induction false} Ascending(inputs: seq<Input>, channel: nat, total: nat, at: seq<nat>, a: nat, b: nat)
    requires a <= b < |at| && forall k :: 0 <= k < |at| ==> Link(inputs, channel, total, at, k)
    ensures at[b] < |inputs| && if a < b then at[a] < at[b] else at[a] == at[b]
    decreases b
  {
    hide Opens, Continues, Neutral;
    assert Link(inputs, channel, total, at, b);
    if a < b {
      Ascending(inputs, channel, total, at, a, b - 1);
    }
  }

  /** Links depend on the inputs up to their own place only. */
  lemma LinkInPrefix(inputs: seq<Input>, channel: nat, total: nat, at: seq<nat>, k: nat, m: nat, some: seq<nat>)
    requires k < |at| && k < |some| && at[..k + 1] == some[..k + 1] && at[k] < m <= |inputs|
    ensures Link(inputs, channel, total, at, k) <==> Link(inputs[..m], channel, total, some, k)
  {
    hide Opens, Continues, Neutral;
    assert some[k] == some[..k + 1][k] == at[..k + 1][k] == at[k];
    if k > 0 {
      assert some[k - 1] == some[..k + 1][k - 1] == at[..k + 1][k - 1] == at[k - 1];
    }
  }

  /** A chain, seen without the last input. */
  lemma ChainShrinks(inputs: seq<Input>, channel: nat, total: nat, at: seq<nat>)
    requires inputs != [] && Chain(inputs, channel, total, at)
    ensures var last, front := |inputs| - 1, inputs[..|inputs| - 1];
            if Last(at) == last then
              if |at| == 1 then Opens(inputs[last], channel, total)
              else
                && Chain(front, channel, total, at[..|at| - 1]) && at[|at| - 2] < last
                && Continues(inputs[last], channel, |at| - 1, Seconds(inputs[at[|at| - 2]].at))
            else Chain(front, channel, total, at) && Neutral(inputs[last], channel, total, Seconds(inputs[Last(at)].at))
  {
    hide Sequence, Total, Seconds, Link;
    var last, front := |inputs| - 1, inputs[..|inputs| - 1];
    var some := if Last(at) == last then at[..|at| - 1] else at;
    forall k | 0 <= k < |some|
      ensures Link(front, channel, total, some, k)
    {
      Ascending(inputs, channel, total, at, k, |at| - 1);
      LinkInPrefix(inputs, channel, total, at, k, last, some);
    }
    LastLink(inputs, channel, total, at, |at| - 1);
  }

  lemma LastLink(inputs: seq<Input>, channel: nat, total: nat, at: seq<nat>, k: nat)
    requires k < |at| && Link(inputs, channel, total, at, k)
    ensures at[k] < |inputs|
    ensures if k == 0 then Opens(inputs[at[0]], channel, total)
            else at[k - 1] < at[k] && Continues(inputs[at[k]], channel, k, Seconds(inputs[at[k - 1]].at)) &&
                 Quiet(inputs, channel, total, at[k - 1], at[k])
  {
  }

  lemma ChainOpens(inputs: seq<Input>, channel: nat, total: nat)
    requires inputs != [] && Opens(inputs[|inputs| - 1], channel, total)
    ensures Chain(inputs, channel, total, [|inputs| - 1])
  {
  }

  /** One more packet at the end of the inputs. */
  lemma ChainContinues(inputs: seq<Input>, channel: nat, total: nat, at: seq<nat>)
    requires inputs != [] && Chain(inputs[..|inputs| - 1], channel, total, at) && |at| < total
    requires Continues(inputs[|inputs| - 1], channel, |at|, Seconds(inputs[Last(at)].at))
    ensures Chain(inputs, channel, total, at + [|inputs| - 1])
  {
    var last, front, more := |inputs| - 1, inputs[..|inputs| - 1], at + [|inputs| - 1];
    forall k | 0 <= k < |at|
      ensures Link(inputs, channel, total, more, k)
    {
      assert Link(front, channel, total, at, k);
      LinkInPrefix(inputs, channel, total, more, k, last, at);
    }
    assert Quiet(inputs, channel, total, Last(at), last);
    assert Link(inputs, channel, total, more, |at|);
  }

  /** One more neutral frame at the end of the inputs. */
  lemma ChainWaits(inputs: seq<Input>, channel: nat, total: nat, at: seq<nat>)
    requires inputs != [] && Chain(inputs[..|inputs| - 1], channel, total, at)
    requires Neutral(inputs[|inputs| - 1], channel, total, Seconds(inputs[Last(at)].at))
    ensures Chain(inputs, channel, total, at)
  {
    var last, front := |inputs| - 1, inputs[..|inputs| - 1];
    forall k | 0 <= k < |at|
      ensures Link(inputs, channel, total, at, k)
    {
      assert Link(front, channel, total, at, k);
      LinkInPrefix(inputs, channel, total, at, k, last, at);
    }
  }

  lemma Places(inputs: seq<Input>, channel: nat, total: nat, at: seq<nat>)
    requires Chain(inputs, channel, total, at)
    ensures inputs != [] && 0 < |at| <= total && 2 <= total <= MAX_PACKETS
    ensures forall k :: 0 <= k < |at| ==> at[k] < |inputs|
  {
    forall k | 0 <= k < |at|
      ensures at[k] < |inputs|
    {
      assert Link(inputs, channel, total, at, k);
    }
    assert Link(inputs, channel, total, at, 0);
  }

  /** An unfinished chain is what the buffer holds. */
  lemma {:induction false} ChainIsHeld(inputs: seq<Input>, channel: nat, total: nat, at: seq<nat>)
    requires Chain(inputs, channel, total, at) && |at| < total
    ensures forall k :: 0 <= k < |at| ==> at[k] < |inputs|
    ensures After(inputs, channel) == Collecting(total, FramesAt(inputs, at), Seconds(inputs[Last(at)].at))
    decreases |inputs|
  {
    hide Sequence, Total, Seconds, Acceptable, Chain;
    Places(inputs, channel, total, at);
    ChainShrinks(inputs, channel, total, at);
    var last, front := |inputs| - 1, inputs[..|inputs| - 1];
    if Last(at) != last {
      ChainIsHeld(front, channel, total, at);
      assert FramesAt(front, at) == FramesAt(inputs, at);
    } else if |at| > 1 {
      var less := at[..|at| - 1];
      ChainIsHeld(front, channel, total, less);
      assert FramesAt(inputs, at) == FramesAt(front, less) + [inputs[last].frame];
    } else {
      assert FramesAt(inputs, at) == [inputs[last].frame];
    }
  }

  ghost predicate HoldsChain(inputs: seq<Input>, channel: nat, total: nat) {
    exists at :: Chain(inputs, channel, total, at) && |at| < total
  }

  /** What the buffer holds is an unfinished chain. */
  lemma {:induction false} HeldIsChain(inputs: seq<Input>, channel: nat)
    requires After(inputs, channel).Collecting?
    ensures HoldsChain(inputs, channel, After(inputs, channel).total)
    decreases |inputs|
  {
    hide Sequence, Total, Seconds, Acceptable, Chain;
    var last, front := |inputs| - 1, inputs[..|inputs| - 1];
    var was, now, input := After(front, channel), After(inputs, channel), inputs[last];
    if Opens(input, channel, now.total) {
      ChainOpens(inputs, channel, now.total);
      assert |[last]| < now.total;
    } else {
      HeldIsChain(front, channel);
      var at :| Chain(front, channel, was.total, at) && |at| < was.total;
      ChainIsHeld(front, channel, was.total, at);
      if now == was {
        assert Neutral(input, channel, was.total, was.last);
        ChainWaits(inputs, channel, was.total, at);
      } else {
        ChainContinues(inputs, channel, was.total, at);
        assert |at + [last]| < now.total;
      }
    }
  }

  /** The group `g` is complete with the last input, its packets are the frames at `at`. */
  ghost predicate Completed(inputs: seq<Input>, channel: nat, at: seq<nat>, g: seq<seq<byte>>) {
    && Chain(inputs, channel, |at|, at) && Last(at) == |inputs| - 1
    && (forall k :: 0 <= k < |at| ==> at[k] < |inputs|) && g == FramesAt(inputs, at)
  }

  lemma CompletedIsSent(inputs: seq<Input>, channel: nat, at: seq<nat>, g: seq<seq<byte>>)
    requires Completed(inputs, channel, at, g)
    ensures inputs != [] && Sent(inputs, channel) == g && |g| >= 2 && After(inputs, channel) == Idle
  {
    hide Sequence, Total, Seconds, Acceptable, Chain;
    Places(inputs, channel, |at|, at);
    ChainShrinks(inputs, channel, |at|, at);
    var front, less := inputs[..|inputs| - 1], at[..|at| - 1];
    ChainIsHeld(front, channel, |at|, less);
    assert FramesAt(inputs, at) == FramesAt(front, less) + [inputs[|inputs| - 1].frame];
  }

  lemma SentIsCompleted(inputs: seq<Input>, channel: nat)
    requires inputs != [] && |Sent(inputs, channel)| >= 2
    ensures exists at :: Completed(inputs, channel, at, Sent(inputs, channel))
  {
    hide Sequence, Total, Seconds, Acceptable, Chain;
    var last, front := |inputs| - 1, inputs[..|inputs| - 1];
    var was := After(front, channel);
    HeldIsChain(front, channel);
    var less :| Chain(front, channel, was.total, less) && |less| < was.total;
    ChainIsHeld(front, channel, was.total, less);
    ChainContinues(inputs, channel, was.total, less);
    var at := less + [last];
    Places(inputs, channel, was.total, at);
    assert FramesAt(inputs, at) == FramesAt(front, less) + [inputs[last].frame];
    assert Completed(inputs, channel, at, Sent(inputs, channel));
  }

  /** For every run: several frames are sent exactly when the last frame completes a group, and they are that
      group's packets 0, 1, ... in order. */
  lemma GroupSentIffComplete(inputs: seq<Input>, channel: nat, g: seq<seq<byte>>)
    requires inputs != []
    ensures |g| >= 2 && Sent(inputs, channel) == g <==> exists at :: Completed(inputs, channel, at, g)
  {
    hide Completed, Sent;
    if |g| >= 2 && Sent(inputs, channel) == g {
      SentIsCompleted(inputs, channel);
    }
    if at :| Completed(inputs, channel, at, g) {
      CompletedIsSent(inputs, channel, at, g);
    }
  }

  /** Anything else that is sent is a frame that says it is the only one of its group. */
  lemma SingleSentIff(inputs: seq<Input>, channel: nat)
    requires inputs != []
    ensures var f := inputs[|inputs| - 1].frame;
            |Sent(inputs, channel)| == 1 <==> Acceptable(f, channel) && Total(f) == 1
    ensures |Sent(inputs, channel)| == 1 ==> Sent(inputs, channel) == [inputs[|inputs| - 1].frame]
  {
    hide Sequence, Total, Seconds, Acceptable;
    if |Sent(inputs, channel)| >= 2 {
      SentIsCompleted(inputs, channel);
    }
  }

  /** A chain that started before `m` has an unfinished part by then. */
  lemma {:induction false} ChainPrefix(inputs: seq<Input>, channel: nat, total: nat, at: seq<nat>, m: nat) returns (k: nat)
    requires Chain(inputs, channel, total, at) && at[0] < m <= |inputs|
    ensures 0 < k <= |at| && Chain(inputs[..m], channel, total, at[..k])
    ensures Last(at) >= m ==> k < |at|
    decreases |inputs|
  {
    hide Chain;
    Places(inputs, channel, total, at);
    if m == |inputs| {
      assert inputs[..m] == inputs && at[..|at|] == at;
      k := |at|;
    } else {
      ChainShrinks(inputs, channel, total, at);
      var front := inputs[..|inputs| - 1];
      assert front[..m] == inputs[..m];
      if Last(at) == |inputs| - 1 {
        var less := at[..|at| - 1];
        k := ChainPrefix(front, channel, total, less, m);
        assert less[..k] == at[..k];
      } else {
        k := ChainPrefix(front, channel, total, at, m);
      }
    }
  }

  /** No frame is sent in two groups, and nothing of a group is sent with another: a group that completes
      later starts later than the earlier one ended. */
  lemma GroupsDoNotOverlap(inputs: seq<Input>, channel: nat, i: nat, c: seq<nat>, j: nat, d: seq<nat>, g: seq<seq<byte>>, h: seq<seq<byte>>)
    requires i < j < |inputs|
    requires Completed(inputs[..i + 1], channel, c, g) && Completed(inputs[..j + 1], channel, d, h)
    ensures Last(c) < d[0]
  {
    hide Chain, After;
    CompletedIsSent(inputs[..i + 1], channel, c, g);
    Places(inputs[..j + 1], channel, |d|, d);
    if d[0] <= i {
      var k := ChainPrefix(inputs[..j + 1], channel, |d|, d, i + 1);
      assert inputs[..j + 1][..i + 1] == inputs[..i + 1];
      ChainIsHeld(inputs[..i + 1], channel, |d|, d[..k]);
    }
  }

  /** A frame of a group is never also sent on its own. */
  lemma GroupFramesAreNotSingles(inputs: seq<Input>, channel: nat, at: seq<nat>, g: seq<seq<byte>>, k: nat)
    requires Completed(inputs, channel, at, g) && k < |at|
    ensures |Sent(inputs[..at[k] + 1], channel)| != 1
  {
    hide Sequence, Total, Seconds, Acceptable;
    assert Link(inputs, channel, |at|, at, k);
    assert Link(inputs, channel, |at|, at, 0);
    SingleSentIff(inputs[..at[k] + 1], channel);
  }

  // ---------- where the code falls short ----------

  /** What the sending thread finds in a frame the peer has built. */
  lemma PacketIsAcceptable(channel: nat, number: nat, count: nat)
    requires channel < 0x100 && number < 0x1_0000 && count < 0x1_0000
    ensures var f := Packet(channel, number, count);
            Acceptable(f, channel) && PacketNumber(f) == number && PacketCount(f) == count
  {
    hide Packet;
    PacketFields(channel, number, count);
  }

  /** Packet number 256 is taken for packet 0: it opens a group of two, and packet 257 completes it. */
  lemma NumbersAreCut(channel: nat, at: int)
    requires channel < 0x100
    ensures var f, g := Packet(channel, 256, 2), Packet(channel, 257, 2);
            Sent([Input(f, at), Input(g, at)], channel) == [f, g]
  {
    hide Packet;
    PacketIsAcceptable(channel, 256, 2);
    PacketIsAcceptable(channel, 257, 2);
    TwoPackets(Input(Packet(channel, 256, 2), at), Input(Packet(channel, 257, 2), at), channel);
  }

  /** What becomes of two packets that make up a group, by the clock alone. */
  lemma TwoPackets(first: Input, second: Input, channel: nat)
    requires Opens(first, channel, 2) && Acceptable(second.frame, channel)
    requires Sequence(second.frame) == 1 && Total(second.frame) != 1
    ensures Sent([first, second], channel) ==
            if TimedOut(Seconds(first.at), Seconds(second.at)) then [] else [first.frame, second.frame]
  {
    hide Acceptable;
    assert [first, second][..1] == [first] && [first][..0] == [];
    assert After([first], channel) == Collecting(2, [first.frame], Seconds(first.at));
  }

  /** Packets 1998 ms apart can still make up a group, and packets 1001 ms apart may not. */
  lemma TimeoutIsCoarse(channel: nat)
    requires channel < 0x100
    ensures var f, g := Packet(channel, 0, 2), Packet(channel, 1, 2);
            && Sent([Input(f, 1000), Input(g, 2998)], channel) == [f, g]
            && Sent([Input(f, 1999), Input(g, 3000)], channel) == []
  {
    hide Packet;
    PacketIsAcceptable(channel, 0, 2);
    PacketIsAcceptable(channel, 1, 2);
    var f, g := Packet(channel, 0, 2), Packet(channel, 1, 2);
    TwoPackets(Input(f, 1000), Input(g, 2998), channel);
    TwoPackets(Input(f, 1999), Input(g, 3000), channel);
  }

  /** Only the first packet's count is looked at: a second packet that claims to be one of seven completes a
      group of two all the same. */
  lemma LaterCountsAreIgnored(channel: nat, at: int)
    requires channel < 0x100
    ensures var f, g := Packet(channel, 0, 2), Packet(channel, 1, 7);
            Sent([Input(f, at), Input(g, at)], channel) == [f, g]
  {
    hide Packet;
    PacketIsAcceptable(channel, 0, 2);
    PacketIsAcceptable(channel, 1, 7);
    TwoPackets(Input(Packet(channel, 0, 2), at), Input(Packet(channel, 1, 7), at), channel);
  }

  /** A group as its sender means it, by the whole 16-bit fields: packets 0, 1, ... in order, as many as the
      first one says. */
  predicate AsMeant(g: seq<seq<byte>>) {
    && (forall k :: 0 <= k < |g| ==> |g[k]| == FRAME_SIZE)
    && g != [] && PacketCount(g[0]) == |g| && forall k :: 0 <= k < |g| ==> PacketNumber(g[k]) == k
  }

  /** A group that is sent is one its sender meant if and only if no field that is looked at was cut. */
  lemma AsMeantIff(inputs: seq<Input>, channel: nat, at: seq<nat>, g: seq<seq<byte>>)
    requires Completed(inputs, channel, at, g)
    ensures forall k :: 0 <= k < |g| ==> |g[k]| == FRAME_SIZE
    ensures g != []
    ensures AsMeant(g) <==> PacketCount(g[0]) < 0x100 && forall k :: 0 <= k < |g| ==> PacketNumber(g[k]) < 0x100
  {
    hide Sequence, Total, PacketCount, PacketNumber, Chain;
    Places(inputs, channel, |at|, at);
    forall k | 0 <= k < |at|
      ensures |g[k]| == FRAME_SIZE && Sequence(g[k]) == k && (k == 0 ==> Total(g[k]) == |at|)
    {
      FieldsOfLink(inputs, channel, at, k);
    }
    forall k | 0 <= k < |at|
      ensures Sequence(g[k]) == PacketNumber(g[k]) <==> PacketNumber(g[k]) < 0x100
    {
      CutIsExactBelow256(g[k]);
    }
    CutIsExactBelow256(g[0]);
  }

  lemma FieldsOfLink(inputs: seq<Input>, channel: nat, at: seq<nat>, k: nat)
    requires Chain(inputs, channel, |at|, at) && k < |at|
    ensures at[k] < |inputs| && |inputs[at[k]].frame| == FRAME_SIZE && Sequence(inputs[at[k]].frame) == k
    ensures k == 0 ==> Total(inputs[at[k]].frame) == |at|
  {
    hide Sequence, Total, Seconds;
    assert Link(inputs, channel, |at|, at, k);
  }

  /** In milliseconds: neighbouring packets of a group that was sent are less than two seconds apart. */
  lemma NeighboursInTime(inputs: seq<Input>, channel: nat, at: seq<nat>, g: seq<seq<byte>>, k: nat)
    requires Completed(inputs, channel, at, g) && 0 < k < |at|
    ensures inputs[at[k]].at - inputs[at[k - 1]].at + inputs[at[k - 1]].at % 1000 < 2000
  {
    hide Acceptable;
    assert Link(inputs, channel, |at|, at, k);
    TimeoutIff(inputs[at[k - 1]].at, inputs[at[k]].at);
  }
}
