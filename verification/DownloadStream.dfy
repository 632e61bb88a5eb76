/** The download port 9012: packets are taken by offset and the buffer is compacted once per batch. */
module DownloadStream {
  import opened Basics
  import opened Bytes
  import opened Checksum
  import opened Framing
  import opened Headers
  import opened PcFrame

  const BUFFER_SIZE_1: nat := 1048628
  const CAPACITY: nat := 2 * BUFFER_SIZE_1
  const HEADER: nat := 20
  const PC_ARM_DATA_WORD: nat := 0x04CCF0FF
  const AXICAN_MAX: nat := 6
  const SIMULATOR_SIZE: nat := 288
  const PULSE_SIZE: nat := 9
  const MAX_FRAMES_PER_GROUP: nat := 128

  ghost function Downloads(): Format {
    PacketFormat(PC_ARM_DATA_WORD, HEADER, CAPACITY)
  }

  lemma DownloadsFacts()
    ensures WellFormed(Downloads()) && Downloads().headerLen == HEADER && Downloads().maxTotal == CAPACITY
  {
    PacketFormatWellFormed(PC_ARM_DATA_WORD, HEADER, CAPACITY);
  }

  /** The declarative scan of a download stream. */
  ghost function ScanDownloads(s: seq<byte>): Scanned {
    DownloadsFacts();
    Scan(Downloads(), s)
  }

  /** An untrustworthy header: wrong word, wrong checksum, or a length no buffer could ever hold. */
  predicate BadHeader(now: seq<byte>) {
    !SyncMatches(PC_ARM_DATA_WORD, now) || !SumMatches(now) || PayloadLength(now) > CAPACITY - HEADER
  }

  lemma FrontStep(now: seq<byte>)
    ensures |now| < HEADER ==> ScanDownloads(now) == Scanned([], now)
    ensures |now| >= HEADER && BadHeader(now) ==> ScanDownloads(now) == ScanDownloads(now[1..])
    ensures |now| >= HEADER && !BadHeader(now) && HEADER + PayloadLength(now) > |now| ==>
              ScanDownloads(now) == Scanned([], now) && |now| < CAPACITY
    ensures |now| >= HEADER && !BadHeader(now) && HEADER + PayloadLength(now) <= |now| ==>
              ScanDownloads(now) ==
              Before(now[..HEADER + PayloadLength(now)], ScanDownloads(now[HEADER + PayloadLength(now)..]))
  {
    hide Scan, SyncMatches, SumMatches, PayloadLength, Downloads, Judge;
    JudgeByFieldsHere(now);
    DownloadsFacts();
    JudgeIsScanStep(Downloads(), now);
  }

  lemma JudgeByFieldsHere(now: seq<byte>)
    ensures Judge(Downloads(), now) ==
            if |now| < HEADER then Wait
            else if BadHeader(now) then Reject
            else if HEADER + PayloadLength(now) > |now| then Wait
            else Take(HEADER + PayloadLength(now))
  {
    hide SyncMatches, SumMatches, PayloadLength, Judge;
    JudgeByFields(PC_ARM_DATA_WORD, HEADER, CAPACITY, now);
  }

  lemma MoreDownloads(stream: seq<byte>, taken: nat, n: nat)
    requires taken + n <= |stream|
    ensures var was := ScanDownloads(stream[..taken]);
            var now := ScanDownloads(was.rest + stream[taken..taken + n]);
            ScanDownloads(stream[..taken + n]) == Scanned(was.packets + now.packets, now.rest)
  {
    DownloadsFacts();
    hide Scan, Downloads;
    ScanMore(Downloads(), stream, taken, n);
  }

  // ---------- what a packet asks for ----------

  datatype Ring = NormalRing | SimulatorRing | PulseRing

  function ElementSize(r: Ring): nat {
    match r
    case NormalRing => FRAME_SIZE
    case SimulatorRing => SIMULATOR_SIZE
    case PulseRing => PULSE_SIZE
  }

  function Channels(r: Ring): nat {
    if r.NormalRing? then AXICAN_MAX else 32
  }

  /** Store one element in a ring, queue a group for broadcast, or nothing. */
  datatype Action = Store(ring: Ring, channel: nat, element: seq<byte>)
                  | Broadcast(channel: nat, frames: seq<seq<byte>>)
                  | Drop

  function Frames(payload: seq<byte>): (fs: seq<seq<byte>>)
    requires |payload| % FRAME_SIZE == 0
    ensures |fs| * FRAME_SIZE == |payload|
    ensures forall i :: 0 <= i < |fs| ==> |fs[i]| == FRAME_SIZE
  {
    if payload == [] then []
    else [payload[..FRAME_SIZE]] + Frames(payload[FRAME_SIZE..])
  }

  /** One normal frame, or one to 128 broadcast frames that stay together. */
  function FramePayload(payload: seq<byte>, channel: nat, valid: set<nat>): (a: Action)
    requires |payload| % FRAME_SIZE == 0
    ensures a.Broadcast? ==> a.channel < AXICAN_MAX && a.channel == channel && Concat(a.frames) == payload
    ensures a.Broadcast? ==> 0 < |a.frames| <= MAX_FRAMES_PER_GROUP
    ensures a.Broadcast? ==> forall i :: 0 <= i < |a.frames| ==> FrameValid(a.frames[i]) && FrameType(a.frames[i]) == 2
    ensures a.Store? ==> a.ring == NormalRing && a.element == payload && FrameValid(payload) && FrameType(payload) == 1
  {
    hide WordSum, FrameValid;
    var fs := Frames(payload);
    FramesConcat(payload);
    if |fs| == 0 || |fs| > MAX_FRAMES_PER_GROUP then Drop
    else if exists i | 0 <= i < |fs| :: !FrameValid(fs[i]) then Drop
    else if |fs| == 1 then
      assert fs[0] == payload;
      if FrameType(fs[0]) == 1 then
        if FrameChannel(fs[0]) < AXICAN_MAX && FrameChannel(fs[0]) in valid
        then Store(NormalRing, FrameChannel(fs[0]), fs[0]) else Drop
      else if FrameType(fs[0]) == 2 then
        if channel >= AXICAN_MAX then Drop else Broadcast(channel, fs)
      else Drop
    else if exists i | 0 <= i < |fs| :: FrameType(fs[i]) != 2 then Drop
    else if channel >= AXICAN_MAX then Drop
    else Broadcast(channel, fs)
  }

  /** Nothing damaged is routed: every frame of a broadcast and every stored frame starts with the head bytes
      and has a total XOR of zero. */
  lemma RoutedFramesAreIntact(payload: seq<byte>, channel: nat, valid: set<nat>)
    requires |payload| % FRAME_SIZE == 0
    ensures var a := FramePayload(payload, channel, valid);
            && (a.Broadcast? ==> forall i :: 0 <= i < |a.frames| ==> Intact(a.frames[i]))
            && (a.Store? ==> Intact(a.element))
  {
    hide WordSum, FrameValid;
    var a := FramePayload(payload, channel, valid);
    if a.Broadcast? {
      forall i | 0 <= i < |a.frames|
        ensures Intact(a.frames[i])
      {
        FrameValidIff(a.frames[i]);
      }
    } else if a.Store? {
      FrameValidIff(a.element);
    }
  }

  predicate Intact(f: seq<byte>) {
    |f| == 48 && f[..4] == [0xD2, 0x02, 0x96, 0x49] && WordSum(f) == 0
  }

  lemma {:induction false} FramesConcat(payload: seq<byte>)
    requires |payload| % FRAME_SIZE == 0
    ensures Concat(Frames(payload)) == payload
    decreases |payload|
  {
    if payload != [] {
      FramesConcat(payload[FRAME_SIZE..]);
    }
  }

  /** Frames of one group, concatenated by the sender, are read back in order. */
  lemma {:induction false} FramesOfConcat(fs: seq<seq<byte>>)
    requires forall i :: 0 <= i < |fs| ==> |fs[i]| == FRAME_SIZE
    ensures |Concat(fs)| % FRAME_SIZE == 0 && Frames(Concat(fs)) == fs
    decreases |fs|
  {
    if fs != [] {
      FramesOfConcat(fs[1..]);
      var p := Concat(fs);
      assert p[..FRAME_SIZE] == fs[0] && p[FRAME_SIZE..] == Concat(fs[1..]);
    }
  }

  /** A well-formed group of broadcast frames is routed whole and in order. */
  lemma GroupIsRoutedWhole(fs: seq<seq<byte>>, channel: nat, valid: set<nat>)
    requires 1 <= |fs| <= 128 && channel < 6
    requires forall i :: 0 <= i < |fs| ==> FrameValid(fs[i]) && FrameType(fs[i]) == 2
    ensures |Concat(fs)| % FRAME_SIZE == 0
    ensures FramePayload(Concat(fs), channel, valid) == Broadcast(channel, fs)
  {
    FramesOfConcat(fs);
  }

  /** Exactly when a payload of whole frames is stored, and exactly when it is queued for broadcast. */
  lemma FramePayloadIff(payload: seq<byte>, channel: nat, valid: set<nat>, ring: Ring, ch: nat, element: seq<byte>, fs: seq<seq<byte>>)
    requires |payload| % FRAME_SIZE == 0
    ensures FramePayload(payload, channel, valid) == Store(ring, ch, element) <==>
            && FrameValid(payload) && FrameType(payload) == 1
            && ring == NormalRing && ch == FrameChannel(payload) < 6 && ch in valid && element == payload
    ensures FramePayload(payload, channel, valid) == Broadcast(ch, fs) <==>
            && 1 <= |fs| <= 128 && payload == Concat(fs) && ch == channel < 6
            && forall i :: 0 <= i < |fs| ==> FrameValid(fs[i]) && FrameType(fs[i]) == 2
  {
    hide WordSum;
    if FrameValid(payload) {
      assert Concat([payload]) == payload;
      FramesOfConcat([payload]);
    }
    if payload == Concat(fs) && forall i :: 0 <= i < |fs| ==> FrameValid(fs[i]) {
      FramesOfConcat(fs);
    }
  }

  /** One frame of a group that was sent with a total XOR of zero arrives damaged inside one aligned word:
      the whole payload is dropped. */
  lemma DamagedGroupIsDropped(fs: seq<seq<byte>>, k: nat, pre: seq<byte>, a: seq<byte>, b: seq<byte>, post: seq<byte>,
                              channel: nat, valid: set<nat>)
    requires (forall i :: 0 <= i < |fs| ==> |fs[i]| == 48) && k < |fs| && fs[k] == pre + b + post
    requires WordSum(pre + a + post) == 0 && |pre| % 4 == 0 && |a| == |b| == 4 && a != b
    ensures |Concat(fs)| % FRAME_SIZE == 0 && FramePayload(Concat(fs), channel, valid) == Drop
  {
    hide WordSum, FrameValid;
    FramesOfConcat(fs);
    OneWordDamageDetected(pre, a, b, post);
    FrameValidIff(fs[k]);
  }

  /** The older single-structure payloads. DMA data is recognised but has no ring. */
  function LegacyPayload(command: nat, payload: seq<byte>, valid: set<nat>): (a: Action)
    ensures !a.Broadcast?
    ensures a.Store? ==>
              && ElementSize(a.ring) <= |payload|
              && a.element == payload[..ElementSize(a.ring)]
              && a.channel < Channels(a.ring)
  {
    if command == 1 then
      if |payload| < FRAME_SIZE then Drop
      else
        var length := payload[6] as nat;
        if length < FRAME_SIZE || length > |payload| || length % 4 != 0 then Drop
        else if FirstWord(payload[..4]) != PC_STATUS_HEAD then Drop
        else if FirstWord(payload[44..48]) != WordSum(payload[..length - 4]) then Drop
        else if payload[7] as nat >= AXICAN_MAX || payload[7] as nat !in valid then Drop
        else Store(NormalRing, payload[7] as nat, payload[..FRAME_SIZE])
    else if command == 3 then
      if |payload| < SIMULATOR_SIZE then Drop
      else if payload[8] as nat >= 32 || LittleEndian16(payload[29..31]) > 256 then Drop
      else if FirstWord(payload[..4]) != PC_STATUS_HEAD then Drop
      else Store(SimulatorRing, payload[8] as nat, payload[..SIMULATOR_SIZE])
    else if command == 2 then
      if |payload| < PULSE_SIZE then Drop else Store(PulseRing, 0, payload[..PULSE_SIZE])
    else Drop
  }

  // ---------- older frames ----------

  /** An older frame, byte for byte. Its length byte may say more than 48; its checksum field stays where it is,
      and is then inside the bytes that are summed. */
  predicate OlderFrame(p: seq<byte>, valid: set<nat>) {
    && |p| >= 48 && p[..4] == [0xD2, 0x02, 0x96, 0x49]
    && 48 <= p[6] as nat <= |p| && p[6] as nat % 4 == 0
    && p[7] as nat < 6 && p[7] as nat in valid
    && (if p[6] == 48 then WordSum(p[..48]) == 0 else WordSum(p[..44]) == WordSum(p[48..p[6] as nat - 4]))
  }

  lemma SumAround(pre: seq<byte>, mid: seq<byte>, post: seq<byte>)
    requires |pre| % 4 == 0 && |mid| == 4
    ensures FirstWord(mid) == WordSum(pre + mid + post) <==> WordSum(pre) == WordSum(post)
  {
    hide WordSum, FirstWord, Xor32;
    WordSumAppend(pre + mid, post);
    WordSumAppend(pre, mid);
    ShortSum(mid);
    Cancels(WordSum(pre), FirstWord(mid), WordSum(post));
  }

  lemma Cancels(x: bv32, y: bv32, z: bv32)
    ensures y == Xor32(Xor32(x, y), z) <==> x == z
  {
    hide Xor32;
    Shuffled(x, y, z);
    OnlyZero(y, Xor32(x, z));
    XorEqual(x, z);
  }

  lemma Shuffled(x: bv32, y: bv32, z: bv32)
    ensures Xor32(Xor32(x, y), z) == Xor32(y, Xor32(x, z))
  {
  }

  lemma OnlyZero(y: bv32, w: bv32)
    ensures y == Xor32(y, w) <==> w == 0
  {
  }

  lemma OlderSum(p: seq<byte>, length: nat)
    requires 48 <= length <= |p| && length % 4 == 0
    ensures FirstWord(p[44..48]) == WordSum(p[..length - 4]) <==>
            if length == 48 then WordSum(p[..48]) == 0 else WordSum(p[..44]) == WordSum(p[48..length - 4])
  {
    hide WordSum, FirstWord;
    if length == 48 {
      assert p[..44] + p[44..48] == p[..48];
      TrailerMatchesIffZero(p[..44], p[44..48]);
    } else {
      assert p[..44] + p[44..48] + p[48..length - 4] == p[..length - 4];
      SumAround(p[..44], p[44..48], p[48..length - 4]);
    }
  }

  /** What is stored of a payload of command 1 that is not made of whole frames. */
  lemma OlderFrameIff(p: seq<byte>, valid: set<nat>)
    ensures LegacyPayload(1, p, valid) ==
            if OlderFrame(p, valid) then Store(NormalRing, p[7] as nat, p[..48]) else Drop
  {
    hide Load, WordSum;
    if |p| >= 48 {
      HeadWord();
      if p[..4] != [0xD2, 0x02, 0x96, 0x49] {
        FirstWordsDiffer(p[..4], [0xD2, 0x02, 0x96, 0x49]);
      }
      var length := p[6] as nat;
      if 48 <= length <= |p| && length % 4 == 0 {
        OlderSum(p, length);
      }
    }
  }

  /** A frame that says it is longer than 48 bytes is not protected by its checksum field: whatever stands
      there, the verdict is the same. With the length 48 any change of the field is detected. */
  lemma LongFramesIgnoreTheirChecksum(front: seq<byte>, sum: seq<byte>, other: seq<byte>, back: seq<byte>, valid: set<nat>)
    requires |front| == 44 && |sum| == |other| == 4 && sum != other
    ensures front[6] != 48 ==>
              (LegacyPayload(1, front + sum + back, valid) == Drop <==> LegacyPayload(1, front + other + back, valid) == Drop)
    ensures front[6] == 48 && LegacyPayload(1, front + sum + back, valid) != Drop ==>
              LegacyPayload(1, front + other + back, valid) == Drop
  {
    hide WordSum, LegacyPayload;
    var p, q := front + sum + back, front + other + back;
    OlderFrameIff(p, valid);
    OlderFrameIff(q, valid);
    assert p[..44] == front == q[..44] && p[48..] == back == q[48..];
    assert p[..4] == p[..44][..4] && q[..4] == q[..44][..4];
    var length := front[6] as nat;
    if front[6] == 48 {
      assert p[..48] == front + sum + [] && q[..48] == front + other + [];
      if WordSum(p[..48]) == 0 {
        OneWordDamageDetected(front, sum, other, []);
      }
    } else if 52 <= length <= |p| {
      assert p[48..length - 4] == p[48..][..length - 52] && q[48..length - 4] == q[48..][..length - 52];
    }
  }

  // ---------- what older payloads come to, said of what the sender puts in ----------

  /** The fields of a simulator payload. */
  datatype Simulator = Simulator(front: seq<byte>, channel: nat, middle: seq<byte>, sendLength: nat, back: seq<byte>)

  predicate SimulatorFits(x: Simulator) {
    |x.front| == 4 && x.channel < 0x100 && |x.middle| == 20 && x.sendLength < 0x1_0000 && |x.back| == 257
  }

  function BuiltSimulator(x: Simulator): (p: seq<byte>)
    requires SimulatorFits(x)
    ensures |p| == 288
  {
    [0xD2, 0x02, 0x96, 0x49] + x.front + [ToByte(x.channel)] + x.middle
    + [ToByte(x.sendLength % 0x100), ToByte(x.sendLength / 0x100)] + x.back
  }

  /** Simulator data goes to the simulator ring of its own channel, whole, exactly when the channel is below
      32 and the length it wants sent at most 256. */
  lemma SimulatorIsStored(x: Simulator, valid: set<nat>)
    requires SimulatorFits(x)
    ensures LegacyPayload(3, BuiltSimulator(x), valid) ==
            if x.channel < 32 && x.sendLength <= 256 then Store(SimulatorRing, x.channel, BuiltSimulator(x)) else Drop
  {
    hide Load;
    var p := BuiltSimulator(x);
    HeadWord();
    assert p[..4] == [0xD2, 0x02, 0x96, 0x49] && p[8] == ToByte(x.channel) && p[..SIMULATOR_SIZE] == p;
    assert p[29..31] == [ToByte(x.sendLength % 0x100), ToByte(x.sendLength / 0x100)];
    TwoBytes(x.sendLength);
  }

  /** With any other head it is dropped. */
  lemma WrongHeadIsDropped(payload: seq<byte>, valid: set<nat>)
    requires |payload| >= 4 && payload[..4] != [0xD2, 0x02, 0x96, 0x49]
    ensures LegacyPayload(3, payload, valid) == Drop && LegacyPayload(1, payload, valid) == Drop
  {
    hide Load, WordSum;
    HeadWord();
    FirstWordsDiffer(payload[..4], [0xD2, 0x02, 0x96, 0x49]);
  }

  /** Second-pulse data needs nine bytes and goes to channel 0 of its ring. */
  lemma PulseIsStored(payload: seq<byte>, valid: set<nat>)
    ensures LegacyPayload(2, payload, valid) == if |payload| >= 9 then Store(PulseRing, 0, payload[..9]) else Drop
  {
  }

  /** A normal frame with more bytes behind it is stored without them, in the ring of its channel, exactly
      when its channel is below six and valid and its total XOR is zero. */
  lemma FrameWithTailIsStored(f: seq<byte>, tail: seq<byte>, valid: set<nat>)
    requires |f| == 48 && f[..4] == [0xD2, 0x02, 0x96, 0x49] && f[6] == 48
    ensures LegacyPayload(1, f + tail, valid) ==
            if WordSum(f) == 0 && FrameChannel(f) < 6 && FrameChannel(f) in valid
            then Store(NormalRing, FrameChannel(f), f) else Drop
  {
    hide Load, WordSum;
    var p := f + tail;
    FrameValidIff(f);
    assert p[..4] == f[..4] && p[44..48] == f[44..48] && p[..44] == f[..44] && p[..48] == f;
  }

  function Route(packet: seq<byte>, valid: set<nat>): (a: Action)
    requires |packet| >= HEADER
    ensures a.Store? ==> |a.element| == ElementSize(a.ring) && a.channel < Channels(a.ring)
    ensures a.Broadcast? ==> a.channel < AXICAN_MAX && Concat(a.frames) == packet[HEADER..]
  {
    var command, channel, payload := BigEndian16(packet[10..12]), BigEndian32(packet[16..20]), packet[HEADER..];
    if (command == 1 || command == 2) && |payload| >= FRAME_SIZE && |payload| % FRAME_SIZE == 0
    then FramePayload(payload, channel, valid)
    else LegacyPayload(command, payload, valid)
  }

  /** Which channels are valid may change at any time: `valid(i)` are those found valid for packet `i`. */
  function Router(valid: nat -> set<nat>): (nat, seq<byte>) -> Action {
    (i: nat, packet: seq<byte>) => if |packet| >= HEADER then Route(packet, valid(i)) else Drop
  }

  lemma NothingYet(valid: nat -> set<nat>)
    ensures ScanDownloads([]) == Scanned([], []) && RouteEach(Router(valid), 0, []) == []
  {
  }

  // ---------- the connection ----------

  /** One `recv` of the handler, and whether the connection is still the current one afterwards. */
  datatype Recv = Data(atMost: nat, current: bool) | Interrupted | Failed

  /** No call fails or brings nothing, and the connection is never replaced; any may be interrupted. */
  predicate NeverFails(calls: seq<Recv>) {
    forall i :: 0 <= i < |calls| ==> calls[i] != Failed && (calls[i].Data? ==> calls[i].atMost > 0 && calls[i].current)
  }

  /** How many calls bring data. */
  function Arrivals(calls: seq<Recv>): nat {
    if calls == [] then 0 else Arrivals(calls[..|calls| - 1]) + if calls[|calls| - 1].Data? then 1 else 0
  }

  class DownloadConnection {
    const bytes: array<byte>
    const valid: nat -> set<nat>
    var used: nat
    var actions: seq<Action>
    var handled: nat

    ghost predicate Valid()
      reads this
    {
      bytes.Length == CAPACITY && used <= CAPACITY
    }

    ghost function Pending(): seq<byte>
      requires Valid()
      reads this, bytes
    {
      bytes[..used]
    }

    constructor (valid: nat -> set<nat>)
      ensures Valid() && fresh(bytes) && used == 0 && actions == [] && handled == 0 && this.valid == valid
    {
      bytes := new byte[CAPACITY];
      this.valid := valid;
      used := 0;
      actions := [];
      handled := 0;
    }

    method Append(chunk: seq<byte>)
      requires Valid() && used + |chunk| <= CAPACITY
      modifies this`used, bytes
      ensures Valid() && Pending() == old(Pending()) + chunk
    {
      forall i | 0 <= i < |chunk| {
        bytes[used + i] := chunk[i];
      }
      used := used + |chunk|;
    }

    /** Drops the first `offset` bytes with one memory move. */
    method Compact(offset: nat)
      requires Valid() && offset <= used
      modifies this`used, bytes
      ensures Valid() && Pending() == old(Pending())[offset..]
    {
      if offset > 0 {
        if offset < used {
          var remaining := used - offset;
          forall i | 0 <= i < remaining {
            bytes[i] := bytes[i + offset];
          }
          used := remaining;
        } else {
          used := 0;
        }
      }
    }

    /** Takes every packet the buffer holds, in order, and keeps what the scan leaves: never a full
        buffer. */
    method ProcessBatch()
      requires Valid()
      modifies this`used, this`actions, this`handled, bytes
      ensures Valid() && used < CAPACITY
      ensures Pending() == ScanDownloads(old(Pending())).rest
      ensures actions == old(actions) + RouteEach(Router(valid), old(handled), ScanDownloads(old(Pending())).packets)
      ensures handled == old(handled) + |ScanDownloads(old(Pending())).packets|
    {
      hide ScanDownloads, BadHeader, Route, RouteEach, PayloadLength;
      NothingYet(valid);
      var offset := 0;
      ghost var all := Pending();
      ghost var taken: seq<seq<byte>> := [];
      ghost var left := ScanDownloads(all);
      assert [] + left.packets == left.packets && all[0..] == all;
      while offset + HEADER <= used
        invariant Valid() && offset <= used && used == old(used) && Pending() == all
        invariant left == ScanDownloads(all[offset..])
        invariant ScanDownloads(all) == Scanned(taken + left.packets, left.rest)
        invariant actions == old(actions) + RouteEach(Router(valid), old(handled), taken)
        invariant handled == old(handled) + |taken|
        decreases used - offset
      {
        var now := bytes[offset..used];
        assert now == all[offset..];
        FrontStep(now);
        if BadHeader(now) {
          offset := offset + 1;
          assert now[1..] == all[offset..];
        } else {
          var total := HEADER + PayloadLength(now);
          if total > used - offset {
            break;
          }
          var packet := now[..total];
          actions := actions + [Route(packet, valid(handled))];
          handled := handled + 1;
          offset := offset + total;
          assert now[total..] == all[offset..];
          TakenOneMore(Router(valid), old(handled), taken, packet, ScanDownloads(all[offset..]));
          taken := taken + [packet];
        }
        left := ScanDownloads(all[offset..]);
      }
      FrontStep(all[offset..]);
      assert taken + [] == taken;
      Compact(offset);
    }

    /** The connection loop. A connection that was replaced stops without looking at its last bytes. */
    method Serve(stream: seq<byte>, calls: seq<Recv>) returns (taken: nat, replaced: bool)
      requires Valid() && used == 0 && actions == [] && handled == 0
      modifies this`used, this`actions, this`handled, bytes
      ensures Valid() && taken <= |stream|
      ensures actions == RouteEach(Router(valid), 0, ScanDownloads(stream[..taken]).packets)
      ensures !replaced ==> used < CAPACITY && Pending() == ScanDownloads(stream[..taken]).rest
      ensures replaced ==> exists k :: 0 <= k < |calls| && calls[k].Data? && !calls[k].current
      ensures NeverFails(calls) ==> !replaced && (taken == |stream| || taken >= Arrivals(calls))
    {
      hide RouteEach, ScanDownloads;
      taken, replaced := 0, false;
      NothingYet(valid);
      assert stream[..0] == [];
      for k := 0 to |calls|
        invariant Valid() && used < CAPACITY && taken <= |stream| && !replaced
        invariant Pending() == ScanDownloads(stream[..taken]).rest
        invariant actions == RouteEach(Router(valid), 0, ScanDownloads(stream[..taken]).packets)
        invariant handled == |ScanDownloads(stream[..taken]).packets|
        invariant NeverFails(calls) ==> taken == |stream| || taken >= Arrivals(calls[..k])
      {
        assert calls[..k + 1][..k] == calls[..k];
        if calls[k] == Interrupted {
          continue;
        }
        if calls[k] == Failed {
          break;
        }
        var n := Min(calls[k].atMost, Min(Min(CAPACITY - used, BUFFER_SIZE_1), |stream| - taken));
        if n == 0 {
          break;
        }
        MoreDownloads(stream, taken, n);
        RouteEachAppend(Router(valid), 0, ScanDownloads(stream[..taken]).packets,
                        ScanDownloads(Pending() + stream[taken..taken + n]).packets);
        Append(stream[taken..taken + n]);
        if !calls[k].current {
          replaced := true;
          break;
        }
        ProcessBatch();
        taken := taken + n;
      }
      assert calls[..|calls|] == calls;
    }
  }

  ghost predicate IsDownload(p: seq<byte>) {
    exists counter: nat, command: nat, channel: nat, payload: seq<byte> ::
      && counter < 0x1_0000 && command < 0x1_0000 && channel < 0x1_0000_0000 && |payload| <= 2097236
      && p == MakePacket(PC_ARM_DATA_WORD, counter, command, Put32(channel), payload)
  }

  /** The command number, the channel and the payload that the parser reads from a packet. */
  predicate Carries(p: seq<byte>, command: nat, channel: nat, payload: seq<byte>) {
    |p| >= HEADER && BigEndian16(p[10..12]) == command && BigEndian32(p[16..20]) == channel && p[HEADER..] == payload
  }

  /** A download packet as a peer builds it carries what the peer put in. */
  lemma MadeIsDownload(counter: nat, command: nat, channel: nat, payload: seq<byte>)
    requires counter < 0x1_0000 && command < 0x1_0000 && channel < 0x1_0000_0000 && |payload| <= CAPACITY - HEADER
    ensures IsDownload(MakePacket(PC_ARM_DATA_WORD, counter, command, Put32(channel), payload))
    ensures Carries(MakePacket(PC_ARM_DATA_WORD, counter, command, Put32(channel), payload), command, channel, payload)
  {
    hide MakePacket, BigEndian16, BigEndian32, PacketFormat;
    MakePacketIsPacket(PC_ARM_DATA_WORD, counter, command, Put32(channel), payload, CAPACITY);
    DownloadsFacts();
    MakePacketExtra(PC_ARM_DATA_WORD, counter, command, Put32(channel), payload);
  }

  /** Packets of the other commands, as a peer builds them. */
  lemma OtherPacketsAreRouted(counter: nat, channel: nat, x: Simulator, pulse: seq<byte>, f: seq<byte>, tail: seq<byte>,
                              valid: nat -> set<nat>, i: nat)
    requires counter < 0x1_0000 && channel < 0x1_0000_0000
    requires SimulatorFits(x) && 9 <= |pulse| < 48 && FrameValid(f) && 0 < |tail| < 48
    ensures Router(valid)(i, MakePacket(PC_ARM_DATA_WORD, counter, 3, Put32(channel), BuiltSimulator(x))) ==
            if x.channel < 32 && x.sendLength <= 256 then Store(SimulatorRing, x.channel, BuiltSimulator(x)) else Drop
    ensures Router(valid)(i, MakePacket(PC_ARM_DATA_WORD, counter, 2, Put32(channel), pulse)) == Store(PulseRing, 0, pulse[..9])
    ensures Router(valid)(i, MakePacket(PC_ARM_DATA_WORD, counter, 1, Put32(channel), f + tail)) ==
            if FrameChannel(f) < 6 && FrameChannel(f) in valid(i) then Store(NormalRing, FrameChannel(f), f) else Drop
  {
    hide MakePacket, BuiltSimulator, BigEndian16, BigEndian32, LegacyPayload, FramePayload, WordSum, FrameValid;
    MadeIsDownload(counter, 3, channel, BuiltSimulator(x));
    SimulatorIsStored(x, valid(i));
    MadeIsDownload(counter, 2, channel, pulse);
    PulseIsStored(pulse, valid(i));
    FrameValidIff(f);
    MadeIsDownload(counter, 1, channel, f + tail);
    FrameWithTailIsStored(f, tail, valid(i));
  }

  lemma DownloadIsPacket(p: seq<byte>)
    requires IsDownload(p)
    ensures IsPacket(Downloads(), p)
  {
    hide MakePacket, IsPacket;
    var counter: nat, command: nat, channel: nat, payload: seq<byte> :|
      && counter < 0x1_0000 && command < 0x1_0000 && channel < 0x1_0000_0000 && |payload| <= 2097236
      && p == MakePacket(PC_ARM_DATA_WORD, counter, command, Put32(channel), payload);
    MakePacketIsPacket(PC_ARM_DATA_WORD, counter, command, Put32(channel), payload, CAPACITY);
  }

  /** A download packet byte for byte: 04 CC F0 FF, the length, the checksum, and at most 2097256 bytes. */
  lemma DownloadsOnTheWire(p: seq<byte>)
    ensures IsPacket(Downloads(), p) <==> OnTheWire(4, 20, p) && |p| <= 2097256
  {
    hide PacketFormat, OnTheWire, IsPacket;
    PacketIffOnTheWire(4, 20, 2097256, p);
  }

  /** Packets built by a peer arrive as sent, however the stream is cut. */
  lemma DownloadsRoundTrip(ps: seq<seq<byte>>, cut: seq<seq<byte>>)
    requires forall i :: 0 <= i < |ps| ==> IsDownload(ps[i])
    requires Concat(cut) == Concat(ps)
    ensures FeedAll(Downloads(), [], cut) == Scanned(ps, [])
  {
    DownloadsFacts();
    hide Downloads, IsDownload;
    forall i | 0 <= i < |ps|
      ensures IsPacket(Downloads(), ps[i])
    {
      DownloadIsPacket(ps[i]);
    }
    ScanConcat(Downloads(), ps);
    FeedAllIsScan(Downloads(), [], cut);
    assert [] + Concat(cut) == Concat(cut);
  }
}
