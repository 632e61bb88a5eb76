/** The parts put together: from the bytes of two connections to the scheduler and the normal rings. */
module Gateway {
  import opened Basics
  import opened Bytes
  import opened Framing
  import opened Headers
  import opened PcFrame
  import opened BroadcastSpec
  import opened BroadcastCode
  import opened CanSender
  import opened ChannelSet
  import Commands = CommandStream
  import Downloads = DownloadStream
  import Reassembly

  const BROADCAST_CONFIG: nat := 0x0104

  // ---------- configuration commands ----------

  /** A configuration as a peer sends it. */
  datatype Order = Order(cfg: Config, count: seq<byte>, timestamp: seq<byte>, counter: nat)

  predicate OrderFits(o: Order) {
    ConfigFits(o.cfg, CHANNELS) && |o.count| == 4 && |o.timestamp| == 8 && o.counter < 0x1_0000
  }

  function OrderPayload(o: Order): (p: seq<byte>)
    ensures OrderFits(o) ==> |p| == CONFIG_SIZE && ParseConfig(p) == Some(o.cfg)
  {
    if OrderFits(o) then
      ConfigRoundTrip(o.cfg, o.count, o.timestamp);
      MakeConfig(o.cfg, o.count, o.timestamp)
    else []
  }

  function OrderPacket(o: Order): seq<byte> {
    if OrderFits(o) then MakePacket(Commands.REQ_SYNC_WORD, o.counter, BROADCAST_CONFIG, [], OrderPayload(o)) else []
  }

  function Packets<T>(packet: T -> seq<byte>, items: seq<T>): (ps: seq<seq<byte>>)
    ensures |ps| == |items| && forall i :: 0 <= i < |items| ==> ps[i] == packet(items[i])
  {
    seq(|items|, i requires 0 <= i < |items| => packet(items[i]))
  }

  lemma OrderIsRouted(o: Order)
    requires OrderFits(o)
    ensures Commands.IsCommand(OrderPacket(o))
    ensures Commands.Router()(0, OrderPacket(o)) == Commands.Handle(Commands.BroadcastConfig, OrderPayload(o))
  {
    hide MakePacket, OrderPayload, BigEndian16;
    Commands.MadeIsCommand(o.counter, BROADCAST_CONFIG, OrderPayload(o));
  }

  /** Whatever pieces the bytes of the orders arrive in, the connection hands on exactly their payloads. */
  method ReceiveOrders(orders: seq<Order>, calls: seq<Commands.Recv>) returns (ds: seq<Commands.Dispatch>)
    requires forall o <- orders :: OrderFits(o)
    requires Commands.NeverFails(calls) && Commands.Arrivals(calls) >= |Concat(Packets(OrderPacket, orders))|
    ensures |ds| == |orders|
    ensures forall i :: 0 <= i < |orders| ==> ds[i] == Commands.Handle(Commands.BroadcastConfig, OrderPayload(orders[i]))
  {
    hide OrderPacket, OrderPayload, OrderFits, Commands.IsCommand, Commands.ScanCommands, Commands.Router, Commands.RouteAll;
    var packets := Packets(OrderPacket, orders);
    var stream := Concat(packets);
    var connection := new Commands.CommandConnection();
    var taken := connection.Serve(stream, calls);
    ds := connection.dispatched;
    assert stream[..taken] == stream;
    forall i | 0 <= i < |orders|
      ensures Commands.IsCommand(packets[i])
      ensures Commands.Router()(0, packets[i]) == Commands.Handle(Commands.BroadcastConfig, OrderPayload(orders[i]))
    {
      OrderIsRouted(orders[i]);
    }
    ScannedCommands(packets);
    CommandsRoutedAlike(packets);
  }

  lemma ScannedCommands(packets: seq<seq<byte>>)
    requires forall i :: 0 <= i < |packets| ==> Commands.IsCommand(packets[i])
    ensures Commands.ScanCommands(Concat(packets)).packets == packets
  {
    hide Commands.IsCommand, Commands.Commands;
    Commands.CommandsFacts();
    assert Concat([Concat(packets)]) == Concat(packets);
    Commands.CommandsRoundTrip(packets, [Concat(packets)]);
    OneChunk(Commands.Commands(), Concat(packets));
  }

  lemma OneChunk(f: Format, s: seq<byte>)
    requires WellFormed(f)
    ensures FeedAll(f, [], [s]).packets == Scan(f, s).packets
  {
    hide Scan;
    assert [] + s == s && [s][1..] == [];
  }

  lemma CommandsRoutedAlike(packets: seq<seq<byte>>)
    ensures forall i :: 0 <= i < |packets| ==> Commands.RouteAll(packets)[i] == Commands.Router()(0, packets[i])
  {
  }

  // ---------- downloads ----------

  /** What a peer sends on the download port: a group for broadcast, or one normal frame. */
  datatype Parcel = GroupOf(channel: nat, frames: seq<seq<byte>>, counter: nat)
                  | OneFrame(frame: seq<byte>, channel: nat, counter: nat)

  predicate ParcelFits(p: Parcel) {
    p.counter < 0x1_0000 &&
    match p
    case GroupOf(channel, frames, _) =>
      && channel < Downloads.AXICAN_MAX && 1 <= |frames| <= Downloads.MAX_FRAMES_PER_GROUP
      && forall i :: 0 <= i < |frames| ==> FrameValid(frames[i]) && FrameType(frames[i]) == 2
    case OneFrame(frame, channel, _) =>
      channel < U32 && FrameValid(frame) && FrameType(frame) == 1 && FrameChannel(frame) < Downloads.AXICAN_MAX
  }

  function ParcelPayload(p: Parcel): seq<byte> {
    match p
    case GroupOf(_, frames, _) => Concat(frames)
    case OneFrame(frame, _, _) => frame
  }

  function ParcelPacket(p: Parcel): seq<byte> {
    if ParcelFits(p) && |ParcelPayload(p)| <= Downloads.CAPACITY - Downloads.HEADER
    then MakePacket(Downloads.PC_ARM_DATA_WORD, p.counter, 2, Put32(p.channel), ParcelPayload(p)) else []
  }

  /** What is to become of a parcel when the channels of `valid` are valid. */
  function ParcelAction(p: Parcel, valid: set<nat>): Downloads.Action {
    match p
    case GroupOf(channel, frames, _) => Downloads.Broadcast(channel, frames)
    case OneFrame(frame, _, _) =>
      if |frame| == FRAME_SIZE && FrameChannel(frame) in valid
      then Downloads.Store(Downloads.NormalRing, FrameChannel(frame), frame) else Downloads.Drop
  }

  lemma {:induction false} ConcatLength(frames: seq<seq<byte>>)
    requires forall i :: 0 <= i < |frames| ==> |frames[i]| == FRAME_SIZE
    ensures |Concat(frames)| == |frames| * FRAME_SIZE
    decreases |frames|
  {
    if frames != [] {
      ConcatLength(frames[1..]);
    }
  }

  lemma FrameIsRouted(frame: seq<byte>, channel: nat, valid: set<nat>)
    requires FrameValid(frame) && FrameType(frame) == 1 && FrameChannel(frame) < Downloads.AXICAN_MAX
    ensures Downloads.FramePayload(frame, channel, valid) ==
            if FrameChannel(frame) in valid then Downloads.Store(Downloads.NormalRing, FrameChannel(frame), frame) else Downloads.Drop
  {
    assert Concat([frame]) == frame;
    Downloads.FramesOfConcat([frame]);
  }

  lemma ParcelIsRouted(p: Parcel, valid: nat -> set<nat>, i: nat)
    requires ParcelFits(p)
    ensures Downloads.IsDownload(ParcelPacket(p))
    ensures Downloads.Router(valid)(i, ParcelPacket(p)) == ParcelAction(p, valid(i))
  {
    hide MakePacket, BigEndian16, BigEndian32, FrameValid, Downloads.FramePayload;
    if p.GroupOf? {
      SizesOfFrames(p.frames);
      ConcatLength(p.frames);
      Downloads.GroupIsRoutedWhole(p.frames, p.channel, valid(i));
    } else {
      SizesOfFrames([p.frame]);
      assert [p.frame][0] == p.frame;
      FrameIsRouted(p.frame, p.channel, valid(i));
    }
    Downloads.MadeIsDownload(p.counter, 2, p.channel, ParcelPayload(p));
  }

  lemma SizesOfFrames(frames: seq<seq<byte>>)
    requires forall i :: 0 <= i < |frames| ==> FrameValid(frames[i])
    ensures forall i :: 0 <= i < |frames| ==> |frames[i]| == FRAME_SIZE
  {
  }

  /** Every packet of a multi-packet group, whatever its number and count, is a parcel a peer may send: the
      download port accepts it and stores it in the ring of its channel. */
  lemma PacketIsParcel(channel: nat, number: nat, count: nat, valid: set<nat>)
    requires channel < Downloads.AXICAN_MAX && number < 0x1_0000 && count < 0x1_0000 && channel in valid
    ensures var p := OneFrame(Packet(channel, number, count), channel, 0);
            ParcelFits(p) && ParcelAction(p, valid) == Downloads.Store(Downloads.NormalRing, channel, p.frame)
  {
    hide Packet, FrameValid;
    PacketFields(channel, number, count);
  }

  /** Whatever pieces the bytes of the parcels arrive in, the connection asks for exactly the parcels' actions,
      each with the channels that are valid when its packet is looked at. */
  method ReceiveParcels(parcels: seq<Parcel>, valid: nat -> set<nat>, calls: seq<Downloads.Recv>)
    returns (actions: seq<Downloads.Action>)
    requires forall p <- parcels :: ParcelFits(p)
    requires Downloads.NeverFails(calls) && Downloads.Arrivals(calls) >= |Concat(Packets(ParcelPacket, parcels))|
    ensures |actions| == |parcels|
    ensures forall i :: 0 <= i < |parcels| ==> actions[i] == ParcelAction(parcels[i], valid(i))
  {
    hide ParcelPacket, ParcelFits, ParcelAction, Downloads.IsDownload, Downloads.ScanDownloads, Downloads.Router, RouteEach;
    var packets := Packets(ParcelPacket, parcels);
    var stream := Concat(packets);
    var connection := new Downloads.DownloadConnection(valid);
    var taken, replaced := connection.Serve(stream, calls);
    actions := connection.actions;
    assert stream[..taken] == stream;
    forall i | 0 <= i < |parcels|
      ensures Downloads.IsDownload(packets[i])
      ensures Downloads.Router(valid)(i, packets[i]) == ParcelAction(parcels[i], valid(i))
    {
      ParcelIsRouted(parcels[i], valid, i);
    }
    ScannedDownloads(packets);
    DownloadsRoutedAlike(valid, packets);
  }

  lemma ScannedDownloads(packets: seq<seq<byte>>)
    requires forall i :: 0 <= i < |packets| ==> Downloads.IsDownload(packets[i])
    ensures Downloads.ScanDownloads(Concat(packets)).packets == packets
  {
    hide Downloads.IsDownload, Downloads.Downloads;
    Downloads.DownloadsFacts();
    assert Concat([Concat(packets)]) == Concat(packets);
    Downloads.DownloadsRoundTrip(packets, [Concat(packets)]);
    OneChunk(Downloads.Downloads(), Concat(packets));
  }

  lemma DownloadsRoutedAlike(valid: nat -> set<nat>, packets: seq<seq<byte>>)
    ensures forall i :: 0 <= i < |packets| ==>
              RouteEach(Downloads.Router(valid), 0, packets)[i] == Downloads.Router(valid)(i, packets[i])
  {
    hide Downloads.Router;
  }

  // ---------- the whole way ----------

  /** Whose turn it is: the next command, the next download packet at some time, a second pulse, a broadcast
      sender, or the sending thread of a channel. */
  datatype Turn = Command | Download(now: nat) | SecondPulse(now: nat)
                | Sender(ch: nat, isOpen: bool) | Transmit(ch: nat, isOpen: bool, at: int)

  function CommandsIn(turns: seq<Turn>): nat {
    if turns == [] then 0 else CommandsIn(Front(turns)) + if Last(turns).Command? then 1 else 0
  }

  function DownloadsIn(turns: seq<Turn>): nat {
    if turns == [] then 0 else DownloadsIn(Front(turns)) + if Last(turns).Download? then 1 else 0
  }

  /** The transaction a parcel comes to. */
  function ParcelOp(p: Parcel, valid: set<nat>, now: nat): seq<Op> {
    if ParcelFits(p) && p.GroupOf? && p.channel in valid then
      SizesOfFrames(p.frames);
      [Enqueue(p.channel, ToCanFrames(p.frames), now)]
    else []
  }

  /** The transactions of a schedule, said of what the peers meant. */
  function Meant(turns: seq<Turn>, orders: seq<Order>, parcels: seq<Parcel>, valid: nat -> set<nat>): seq<Op> {
    if turns == [] then []
    else
      Meant(Front(turns), orders, parcels, valid) + NewOps(Front(turns), Last(turns), orders, parcels, valid)
  }

  /** The normal frames for channel `c` among the parcels a schedule gets to. */
  function FramesFor(c: nat, turns: seq<Turn>, parcels: seq<Parcel>, valid: nat -> set<nat>): seq<seq<byte>> {
    if turns == [] then []
    else
      FramesFor(c, Front(turns), parcels, valid) + NewFrame(c, Front(turns), Last(turns), parcels, valid)
  }

  /** What one more turn adds to them. */
  function NewFrame(c: nat, turns: seq<Turn>, t: Turn, parcels: seq<Parcel>, valid: nat -> set<nat>): (fs: seq<seq<byte>>)
    ensures |fs| <= 1
  {
    var j := DownloadsIn(turns);
    if t.Download? && j < |parcels| then FrameFor(c, ParcelAction(parcels[j], valid(j))) else []
  }

  /** What one more turn adds to the transactions. */
  function NewOps(turns: seq<Turn>, t: Turn, orders: seq<Order>, parcels: seq<Parcel>, valid: nat -> set<nat>): (ops: seq<Op>)
    ensures |ops| <= 1
  {
    var i, j := CommandsIn(turns), DownloadsIn(turns);
    match t
    case Command => if i < |orders| then [Configure(orders[i].cfg)] else []
    case Download(now) => if j < |parcels| then ParcelOp(parcels[j], valid(j), now) else []
    case SecondPulse(now) => [Pps(now)]
    case Sender(ch, isOpen) => [Claim(ch, isOpen)]
    case Transmit(_, _, _) => []
  }

  function FrameFor(c: nat, a: Downloads.Action): (fs: seq<seq<byte>>)
    ensures |fs| <= 1
  {
    if a.Store? && a.ring.NormalRing? && a.channel == c then [a.element] else []
  }

  /** A ring of `cap` places behind an element was offered: without room it is dropped. */
  function Offered(q: seq<seq<byte>>, cap: nat, xs: seq<seq<byte>>): seq<seq<byte>> {
    if |q| < cap then q + xs else q
  }

  /** One channel's way from the ring to the bus: frames the ring accepted, frames its sending thread has
      looked at and when, frames still queued, frames written. */
  datatype Lane = Lane(accepted: seq<seq<byte>>, looked: seq<Reassembly.Input>, queue: seq<seq<byte>>, written: seq<seq<byte>>)

  /** What one turn does to the lane of channel `c` when the frames of `offer` arrive for it. */
  function LaneStep(l: Lane, c: nat, cap: nat, t: Turn, offer: seq<seq<byte>>): Lane {
    if t.Transmit? && t.ch == c && t.isOpen && l.queue != [] then
      var looked := l.looked + [Reassembly.Input(l.queue[0], t.at)];
      l.(looked := looked, queue := l.queue[1..], written := l.written + Reassembly.Sent(looked, c))
    else l.(accepted := if |l.queue| < cap then l.accepted + offer else l.accepted, queue := Offered(l.queue, cap, offer))
  }

  function LaneAfter(c: nat, cap: nat, turns: seq<Turn>, parcels: seq<Parcel>, valid: nat -> set<nat>): Lane {
    if turns == [] then Lane([], [], [], [])
    else
      LaneStep(LaneAfter(c, cap, Front(turns), parcels, valid), c, cap, Last(turns),
               NewFrame(c, Front(turns), Last(turns), parcels, valid))
  }

  function FramesOf(inputs: seq<Reassembly.Input>): (fs: seq<seq<byte>>)
    ensures |fs| == |inputs|
  {
    seq(|inputs|, i requires 0 <= i < |inputs| => inputs[i].frame)
  }

  lemma FramesOfMore(inputs: seq<Reassembly.Input>, more: Reassembly.Input)
    ensures FramesOf(inputs + [more]) == FramesOf(inputs) + [more.frame]
  {
  }

  /** What was looked at, followed by what is queued, is what was accepted, in order; and what is written is
      what the reassembly sends for the frames looked at. */
  predicate Flowing(l: Lane, c: nat, cap: nat) {
    l.accepted == FramesOf(l.looked) + l.queue && |l.queue| <= cap && l.written == AllSent(l.looked, c)
  }

  lemma KeepsFlowing(l: Lane, c: nat, cap: nat, t: Turn, offer: seq<seq<byte>>)
    requires Flowing(l, c, cap) && |offer| <= 1
    ensures Flowing(LaneStep(l, c, cap, t, offer), c, cap)
  {
    hide Reassembly.Sent;
    if t.Transmit? && t.ch == c && t.isOpen && l.queue != [] {
      var input := Reassembly.Input(l.queue[0], t.at);
      FramesOfMore(l.looked, input);
      assert (l.looked + [input])[..|l.looked|] == l.looked;
      assert l.queue == [l.queue[0]] + l.queue[1..];
    } else {
      assert FramesOf(l.looked) + l.queue + offer == FramesOf(l.looked) + (l.queue + offer);
    }
  }

  lemma {:induction false} LaneFlows(c: nat, cap: nat, turns: seq<Turn>, parcels: seq<Parcel>, valid: nat -> set<nat>)
    ensures Flowing(LaneAfter(c, cap, turns, parcels, valid), c, cap)
    decreases |turns|
  {
    if turns != [] {
      hide NewFrame, LaneStep, Flowing;
      LaneFlows(c, cap, Front(turns), parcels, valid);
      KeepsFlowing(LaneAfter(c, cap, Front(turns), parcels, valid), c, cap, Last(turns),
                   NewFrame(c, Front(turns), Last(turns), parcels, valid));
    }
  }

  /** No frame meant for channel `c` finds its ring full. */
  predicate NeverFull(c: nat, cap: nat, turns: seq<Turn>, parcels: seq<Parcel>, valid: nat -> set<nat>) {
    turns != [] ==>
      && NeverFull(c, cap, Front(turns), parcels, valid)
      && (NewFrame(c, Front(turns), Last(turns), parcels, valid) != [] ==>
            |LaneAfter(c, cap, Front(turns), parcels, valid).queue| < cap)
  }

  /** The ring accepts exactly the frames the peers meant for the channel, in order, if and only if none of
      them finds it full; and none does as long as there are no more of them than places. */
  lemma {:induction false} NothingLostIff(c: nat, cap: nat, turns: seq<Turn>, parcels: seq<Parcel>, valid: nat -> set<nat>)
    ensures var accepted, meant := LaneAfter(c, cap, turns, parcels, valid).accepted, FramesFor(c, turns, parcels, valid);
            && |accepted| <= |meant|
            && (accepted == meant <==> NeverFull(c, cap, turns, parcels, valid))
            && (|accepted| == |meant| ==> accepted == meant)
            && (|meant| <= cap ==> accepted == meant)
    decreases |turns|
  {
    hide ParcelAction, Reassembly.Sent;
    if turns != [] {
      NothingLostIff(c, cap, Front(turns), parcels, valid);
      LaneFlows(c, cap, Front(turns), parcels, valid);
    }
  }

  /** With a ring that is never full and drained in the end, the channel writes what the reassembly makes of
      exactly the frames the peers meant for it, in the order in which they sent them. */
  lemma AllArrive(c: nat, cap: nat, turns: seq<Turn>, parcels: seq<Parcel>, valid: nat -> set<nat>)
    requires NeverFull(c, cap, turns, parcels, valid) && LaneAfter(c, cap, turns, parcels, valid).queue == []
    ensures var l := LaneAfter(c, cap, turns, parcels, valid);
            FramesOf(l.looked) == FramesFor(c, turns, parcels, valid) && l.written == AllSent(l.looked, c)
  {
    hide NeverFull, LaneAfter, FramesFor;
    LaneFlows(c, cap, turns, parcels, valid);
    NothingLostIff(c, cap, turns, parcels, valid);
    var l := LaneAfter(c, cap, turns, parcels, valid);
    assert FramesOf(l.looked) + l.queue == FramesOf(l.looked);
  }

  lemma AfterMore(n: Size, depth: Size, ops: seq<Op>, more: seq<Op>)
    requires |more| <= 1
    ensures After(n, depth, ops + more) ==
            if more == [] then After(n, depth, ops) else Apply(After(n, depth, ops), n, depth, more[0]).0
  {
    if more == [] {
      assert ops + more == ops;
    } else {
      assert Front(ops + more) == ops && Last(ops + more) == more[0];
    }
  }

  /** Puts one normal frame in its ring if there is room, as the program does after its room check. */
  method StoreFrame(rings: RingSet, a: Downloads.Action)
    requires rings.Valid() && rings.elemSize == FRAME_SIZE && rings.maxChannel >= Downloads.AXICAN_MAX
    requires a.Store? && a.ring.NormalRing? ==> |a.element| == FRAME_SIZE && a.channel < Downloads.AXICAN_MAX
    modifies rings.channels, rings.Footprint()
    ensures rings.Valid()
    ensures forall c :: 0 <= c < |rings.channels| ==>
              rings.channels[c].Contents() == Offered(old(rings.channels[c].Contents()), rings.bufCapacity, FrameFor(c, a))
  {
    OfferedNothing(rings.bufCapacity);
    if a.Store? && a.ring.NormalRing? {
      Bounded(rings);
      var n := rings.Put(a.channel, a.element, 32);
    }
  }

  lemma OfferedNothing(cap: nat)
    ensures forall q :: Offered(q, cap, []) == q
  {
    forall q
      ensures Offered(q, cap, []) == q
    {
      assert q + [] == q;
    }
  }

  lemma Bounded(rings: RingSet)
    requires rings.Valid()
    ensures forall c :: 0 <= c < |rings.channels| ==> |rings.channels[c].Contents()| <= rings.bufCapacity
  {
  }

  ghost function RingMemory(rings: RingSet): set<object>
    reads rings
  {
    {rings as object} + (set i | 0 <= i < |rings.channels| && rings.channels[i] != null :: rings.channels[i] as object) + rings.Footprint()
  }

  ghost function SchedulerMemory(s: Scheduler): set<object>
    reads s
  {
    {s as object, s.rings, s.pending}
  }

  ghost function ThreadMemory(threads: seq<SendingThread>): set<object> {
    (set t <- threads :: t as object) + (set t <- threads :: t.buffer as object) + (set t <- threads :: t.buffer.frames as object)
  }

  /** The memory of the scheduler, the rings and the sending threads does not overlap, nor that of two threads. */
  ghost predicate Apart(s: Scheduler, rings: RingSet, threads: seq<SendingThread>)
    reads s, rings
  {
    && SchedulerMemory(s) !! RingMemory(rings)
    && SchedulerMemory(s) !! ThreadMemory(threads)
    && RingMemory(rings) !! ThreadMemory(threads)
    && ThreadsApart(threads)
  }

  ghost predicate ThreadsApart(threads: seq<SendingThread>) {
    forall i, j :: 0 <= i < j < |threads| ==>
      threads[i] != threads[j] && threads[i].buffer != threads[j].buffer && threads[i].buffer.frames != threads[j].buffer.frames
  }

  /** Carries out the action of a parcel: a group goes to the scheduler. */
  method SendGroup(s: Scheduler, p: Parcel, valid: set<nat>, now: nat)
    requires s.Valid() && s.n == CHANNELS && ParcelFits(p)
    modifies s, s.rings, s.pending
    ensures s.Valid() && s.rings == old(s.rings) && s.pending == old(s.pending)
    ensures var more := ParcelOp(p, valid, now);
            s.State() == if more == [] then old(s.State()) else Apply(old(s.State()), s.n, s.depth, more[0]).0
  {
    hide Apply, FrameValid;
    match ParcelAction(p, valid) {
      case Broadcast(channel, frames) =>
        SizesOfFrames(frames);
        var a := s.EnqueueGroup(channel, frames, valid, now);
      case _ =>
    }
  }

  lemma OneTurnMore(turns: seq<Turn>, t: Turn, orders: seq<Order>, parcels: seq<Parcel>, valid: nat -> set<nat>, cap: nat)
    ensures Meant(turns + [t], orders, parcels, valid) ==
            Meant(turns, orders, parcels, valid) + NewOps(turns, t, orders, parcels, valid)
    ensures forall c: nat ::
              LaneAfter(c, cap, turns + [t], parcels, valid) ==
              LaneStep(LaneAfter(c, cap, turns, parcels, valid), c, cap, t, NewFrame(c, turns, t, parcels, valid))
  {
    hide NewOps, NewFrame, LaneStep;
    assert Front(turns + [t]) == turns && Last(turns + [t]) == t;
  }

  /** Ring, reassembly buffer and output of each channel are those of its lane. */
  ghost predicate RingsInLane(rings: RingSet, turns: seq<Turn>, parcels: seq<Parcel>, valid: nat -> set<nat>)
    requires rings.Valid()
    reads rings, rings.channels, rings.Footprint()
  {
    forall c :: 0 <= c < |rings.channels| ==>
      rings.channels[c].Contents() == LaneAfter(c, rings.bufCapacity, turns, parcels, valid).queue
  }

  ghost predicate ThreadsInLane(threads: seq<SendingThread>, cap: nat, turns: seq<Turn>, parcels: seq<Parcel>, valid: nat -> set<nat>)
    reads ThreadMemory(threads)
  {
    forall c :: 0 <= c < |threads| ==>
      var l := LaneAfter(c, cap, turns, parcels, valid);
      && threads[c].Valid() && threads[c].buffer.channel == c
      && threads[c].buffer.Model() == Reassembly.After(l.looked, c) && threads[c].written == l.written
  }

  /** The part of a turn that concerns the scheduler: one transaction, or none. */
  method SchedulerTurn(s: Scheduler, turns: seq<Turn>, t: Turn, ds: seq<Commands.Dispatch>,
                       orders: seq<Order>, parcels: seq<Parcel>, valid: nat -> set<nat>)
    requires s.Valid() && s.n == CHANNELS
    requires (forall o <- orders :: OrderFits(o)) && (forall p <- parcels :: ParcelFits(p))
    requires |ds| == |orders|
    requires forall i :: 0 <= i < |orders| ==> ds[i] == Commands.Handle(Commands.BroadcastConfig, OrderPayload(orders[i]))
    requires s.State() == After(CHANNELS, s.depth, Meant(turns, orders, parcels, valid))
    modifies s, s.rings, s.pending
    ensures s.Valid() && s.rings == old(s.rings) && s.pending == old(s.pending)
    ensures s.State() == After(CHANNELS, s.depth, Meant(turns + [t], orders, parcels, valid))
  {
    hide OrderFits, OrderPayload, ParcelFits, ParcelOp, Apply, After, Meant, LaneAfter, ParseConfig;
    OneTurnMore(turns, t, orders, parcels, valid, 0);
    AfterMore(CHANNELS, s.depth, Meant(turns, orders, parcels, valid), NewOps(turns, t, orders, parcels, valid));
    var i, j := CommandsIn(turns), DownloadsIn(turns);
    match t {
      case Command =>
        if i < |ds| {
          var code := s.HandleBroadcastConfig(ds[i].payload);
        }
      case Download(now) =>
        if j < |parcels| {
          SendGroup(s, parcels[j], valid(j), now);
        }
      case SecondPulse(now) =>
        s.ProcessPps(now);
      case Sender(ch, isOpen) =>
        var a := s.TakeGroup(ch, isOpen);
      case Transmit(_, _, _) =>
    }
  }

  lemma ActionFits(p: Parcel, valid: set<nat>)
    requires ParcelFits(p)
    ensures var a := ParcelAction(p, valid);
            a.Store? && a.ring.NormalRing? ==> |a.element| == FRAME_SIZE && a.channel < Downloads.AXICAN_MAX
  {
  }

  /** The part of a download turn that concerns the normal rings. */
  method DownloadTurn(rings: RingSet, turns: seq<Turn>, t: Turn, actions: seq<Downloads.Action>,
                      parcels: seq<Parcel>, valid: nat -> set<nat>)
    requires rings.Valid() && rings.elemSize == FRAME_SIZE && rings.maxChannel >= Downloads.AXICAN_MAX
    requires |actions| == |parcels| && forall p <- parcels :: ParcelFits(p)
    requires forall j :: 0 <= j < |parcels| ==> actions[j] == ParcelAction(parcels[j], valid(j))
    requires RingsInLane(rings, turns, parcels, valid) && !t.Transmit?
    modifies rings.channels, rings.Footprint()
    ensures rings.Valid() && RingsInLane(rings, turns + [t], parcels, valid)
  {
    hide LaneAfter, FrameFor, ParcelAction, ParcelFits, Offered;
    OneTurnMore(turns, t, [], parcels, valid, rings.bufCapacity);
    OfferedNothing(rings.bufCapacity);
    var j := DownloadsIn(turns);
    if t.Download? && j < |parcels| {
      ActionFits(parcels[j], valid(j));
      StoreFrame(rings, actions[j]);
    }
  }

  lemma ReassemblyMore(looked: seq<Reassembly.Input>, input: Reassembly.Input, c: nat)
    ensures (Reassembly.After(looked + [input], c), Reassembly.Sent(looked + [input], c)) ==
            Reassembly.Step(Reassembly.After(looked, c), input, c)
  {
    hide Reassembly.Step;
    assert (looked + [input])[..|looked|] == looked;
  }

  /** What a turn of sending thread `t.ch` does to the lanes. */
  lemma TransmitInLane(t: Turn, c: nat, cap: nat, turns: seq<Turn>, parcels: seq<Parcel>, valid: nat -> set<nat>)
    requires t.Transmit?
    ensures var was, now := LaneAfter(c, cap, turns, parcels, valid), LaneAfter(c, cap, turns + [t], parcels, valid);
            if t.ch != c || !t.isOpen || was.queue == []
            then now.queue == was.queue && now.looked == was.looked && now.written == was.written
            else
              && now.queue == was.queue[1..]
              && var (b, sent) := Reassembly.Step(Reassembly.After(was.looked, c), Reassembly.Input(was.queue[0], t.at), c);
                 Reassembly.After(now.looked, c) == b && now.written == was.written + sent
  {
    hide LaneAfter, Reassembly.Step, Reassembly.After, Reassembly.Sent;
    OneTurnMore(turns, t, [], parcels, valid, cap);
    OfferedNothing(cap);
    var was := LaneAfter(c, cap, turns, parcels, valid);
    if t.ch == c && t.isOpen && was.queue != [] {
      ReassemblyMore(was.looked, Reassembly.Input(was.queue[0], t.at), c);
    }
  }

  lemma OthersApart(rings: RingSet, threads: seq<SendingThread>, ch: nat)
    requires RingMemory(rings) !! ThreadMemory(threads) && ThreadsApart(threads) && ch < |threads|
    ensures var t := threads[ch];
            && t as object !in rings.channels && t.buffer as object !in rings.channels && t.buffer.frames as object !in rings.Footprint()
            && {t as object, t.buffer, t.buffer.frames} <= ThreadMemory(threads)
    ensures forall c :: 0 <= c < |threads| && c != ch ==>
              threads[c] != threads[ch] && threads[c].buffer != threads[ch].buffer && threads[c].buffer.frames != threads[ch].buffer.frames
  {
    assert threads[ch] in threads;
  }

  /** A turn of the sending thread of a channel. */
  method TransmitTurn(rings: RingSet, threads: seq<SendingThread>, turns: seq<Turn>, t: Turn, parcels: seq<Parcel>, valid: nat -> set<nat>)
    requires rings.Valid() && rings.elemSize == FRAME_SIZE && |threads| == Downloads.AXICAN_MAX <= rings.maxChannel
    requires RingMemory(rings) !! ThreadMemory(threads) && ThreadsApart(threads)
    requires t.Transmit? && t.ch < |threads|
    requires RingsInLane(rings, turns, parcels, valid) && ThreadsInLane(threads, rings.bufCapacity, turns, parcels, valid)
    modifies rings.channels, ThreadMemory(threads)
    ensures rings.Valid()
    ensures RingsInLane(rings, turns + [t], parcels, valid) && ThreadsInLane(threads, rings.bufCapacity, turns + [t], parcels, valid)
  {
    hide LaneAfter, LaneStep, Reassembly.Step, Reassembly.After, RingMemory, ThreadsApart;
    forall c: nat
      ensures var was, now := LaneAfter(c, rings.bufCapacity, turns, parcels, valid), LaneAfter(c, rings.bufCapacity, turns + [t], parcels, valid);
              c != t.ch ==> now.queue == was.queue && now.looked == was.looked && now.written == was.written
    {
      TransmitInLane(t, c, rings.bufCapacity, turns, parcels, valid);
    }
    TransmitInLane(t, t.ch, rings.bufCapacity, turns, parcels, valid);
    OthersApart(rings, threads, t.ch);
    threads[t.ch].Round(rings, t.isOpen, t.at);
  }

  /** Other turns leave the sending threads alone. */
  lemma ThreadsKeepLane(threads: seq<SendingThread>, cap: nat, turns: seq<Turn>, t: Turn, parcels: seq<Parcel>, valid: nat -> set<nat>)
    requires !t.Transmit? && ThreadsInLane(threads, cap, turns, parcels, valid)
    ensures ThreadsInLane(threads, cap, turns + [t], parcels, valid)
  {
    hide LaneAfter, Reassembly.After;
    OneTurnMore(turns, t, [], parcels, valid, cap);
  }

  /** From end to end: peers send orders and parcels, the two connections receive their bytes in arbitrary
      pieces, and command handler, download handler, second pulses, broadcast senders and the sending threads of
      the six channels take turns in any order. The scheduler is then where the transactions the peers meant take
      it, and the ring, the reassembly buffer and the output of each channel are those of its lane. */
  method Run(s: Scheduler, rings: RingSet, threads: seq<SendingThread>,
             orders: seq<Order>, parcels: seq<Parcel>, valid: nat -> set<nat>,
             commandCalls: seq<Commands.Recv>, downloadCalls: seq<Downloads.Recv>, turns: seq<Turn>)
    requires (forall o <- orders :: OrderFits(o)) && (forall p <- parcels :: ParcelFits(p))
    requires Commands.NeverFails(commandCalls) && Commands.Arrivals(commandCalls) >= |Concat(Packets(OrderPacket, orders))|
    requires Downloads.NeverFails(downloadCalls) && Downloads.Arrivals(downloadCalls) >= |Concat(Packets(ParcelPacket, parcels))|
    requires s.Valid() && s.n == CHANNELS && s.State() == Initial(CHANNELS)
    requires rings.Valid() && rings.elemSize == FRAME_SIZE && |threads| == Downloads.AXICAN_MAX <= rings.maxChannel
    requires Apart(s, rings, threads)
    requires RingsInLane(rings, [], parcels, valid) && ThreadsInLane(threads, rings.bufCapacity, [], parcels, valid)
    requires forall t <- turns :: t.Transmit? ==> t.ch < Downloads.AXICAN_MAX
    modifies s, s.rings, s.pending, rings.channels, rings.Footprint(), ThreadMemory(threads)
    ensures s.Valid() && rings.Valid()
    ensures s.State() == After(CHANNELS, s.depth, Meant(turns, orders, parcels, valid))
    ensures RingsInLane(rings, turns, parcels, valid)
    ensures ThreadsInLane(threads, rings.bufCapacity, turns, parcels, valid)
  {
    hide OrderFits, ParcelFits, OrderPayload, ParcelAction, Meant, LaneAfter, Packets, ParcelPacket, OrderPacket;
    hide RingSet.Valid, Concat, After, Initial, RingsInLane, ThreadsInLane, ThreadsApart;
    var ds := ReceiveOrders(orders, commandCalls);
    var actions := ReceiveParcels(parcels, valid, downloadCalls);
    NoTurnYet(s.depth, orders, parcels, valid);
    assert turns[..0] == [];
    for k := 0 to |turns|
      invariant s.Valid() && rings.Valid() && Apart(s, rings, threads) && s.rings == old(s.rings) && s.pending == old(s.pending)
      invariant s.State() == After(CHANNELS, s.depth, Meant(turns[..k], orders, parcels, valid))
      invariant RingsInLane(rings, turns[..k], parcels, valid)
      invariant ThreadsInLane(threads, rings.bufCapacity, turns[..k], parcels, valid)
    {
      assert turns[..k + 1] == turns[..k] + [turns[k]];
      SchedulerTurn(s, turns[..k], turns[k], ds, orders, parcels, valid);
      if turns[k].Transmit? {
        assert turns[k] in turns;
        TransmitTurn(rings, threads, turns[..k], turns[k], parcels, valid);
      } else {
        DownloadTurn(rings, turns[..k], turns[k], actions, parcels, valid);
        ThreadsKeepLane(threads, rings.bufCapacity, turns[..k], turns[k], parcels, valid);
      }
    }
    assert turns[..|turns|] == turns;
  }

  lemma NoTurnYet(depth: Size, orders: seq<Order>, parcels: seq<Parcel>, valid: nat -> set<nat>)
    ensures After(CHANNELS, depth, Meant([], orders, parcels, valid)) == Initial(CHANNELS)
  {
  }

  // ---------- one of each, from peer to bus ----------

  /** A group sent within a second of a pulse, with its channel woken by that pulse, is the next group its
      sender is given, and carries the sender's fields. */
  lemma GroupEndToEnd(o: Order, p: Parcel, valid: nat -> set<nat>, depth: Size, pulse: nat, now: nat)
    requires OrderFits(o) && o.cfg.enabled && o.cfg.mode == 1
    requires ParcelFits(p) && p.GroupOf? && p.channel in o.cfg.active && p.channel in valid(0)
    requires pulse <= now <= pulse + 1000
    ensures var ops := Meant([Command, SecondPulse(pulse), Download(now), Sender(p.channel, true)], [o], [p], valid);
            && |ops| == 4
            && AnswerAt(CHANNELS, depth, ops, 1) == Woken(o.cfg.active)
            && AnswerAt(CHANNELS, depth, ops, 3).Delivered?
            && GroupCarries(AnswerAt(CHANNELS, depth, ops, 3).group, p.frames)
  {
    hide GroupCarries, OrderFits, FrameValid, ToCanFrames, Select, Apply, After;
    SizesOfFrames(p.frames);
    var t1, t2, t3, t4 := Command, SecondPulse(pulse), Download(now), Sender(p.channel, true);
    FourTurns(t1, t2, t3, t4, [o], [p], valid);
    assert Front([t1, t2]) == [t1] && Front([t1]) == [];
    assert NewOps([], t1, [o], [p], valid) == [Configure(o.cfg)];
    assert NewOps([t1], t2, [o], [p], valid) == [Pps(pulse)];
    assert DownloadsIn([t1]) == 0;
    assert DownloadsIn([t1, t2]) == 0;
    assert NewOps([t1, t2], t3, [o], [p], valid) == ParcelOp(p, valid(0), now);
    assert NewOps([t1, t2, t3], t4, [o], [p], valid) == [Claim(p.channel, true)];
    assert Meant([t1, t2, t3, t4], [o], [p], valid) ==
           [Configure(o.cfg), Pps(pulse), Enqueue(p.channel, ToCanFrames(p.frames), now), Claim(p.channel, true)];
    ConvertedCarries(1, p.frames);
    FourSteps(o.cfg, ToCanFrames(p.frames), p.channel, depth, pulse, now);
  }

  lemma FourTurns(a: Turn, b: Turn, c: Turn, d: Turn, orders: seq<Order>, parcels: seq<Parcel>, valid: nat -> set<nat>)
    ensures Meant([a, b, c, d], orders, parcels, valid) ==
            NewOps([], a, orders, parcels, valid) + NewOps([a], b, orders, parcels, valid)
            + NewOps([a, b], c, orders, parcels, valid) + NewOps([a, b, c], d, orders, parcels, valid)
  {
    hide NewOps;
    OneTurnMore([], a, orders, parcels, valid, 0);
    OneTurnMore([a], b, orders, parcels, valid, 0);
    OneTurnMore([a, b], c, orders, parcels, valid, 0);
    OneTurnMore([a, b, c], d, orders, parcels, valid, 0);
    assert [] + [a] == [a] && [a] + [b] == [a, b] && [a, b] + [c] == [a, b, c] && [a, b, c] + [d] == [a, b, c, d];
  }

  lemma AnswerMore(depth: Size, ops: seq<Op>, op: Op, all: seq<Op>)
    requires ops + [op] <= all
    ensures After(CHANNELS, depth, ops + [op]) == Apply(After(CHANNELS, depth, ops), CHANNELS, depth, op).0
    ensures AnswerAt(CHANNELS, depth, all, |ops|) == Apply(After(CHANNELS, depth, ops), CHANNELS, depth, op).1
  {
    hide Apply;
    assert Front(ops + [op]) == ops && all[..|ops| + 1] == ops + [op];
  }

  lemma FourSteps(cfg: Config, frames: seq<CanFrame>, ch: nat, depth: Size, pulse: nat, now: nat)
    requires cfg.enabled && cfg.mode == 1 && ch in cfg.active && ch < CHANNELS && pulse <= now <= pulse + 1000
    ensures var ops := [Configure(cfg), Pps(pulse), Enqueue(ch, frames, now), Claim(ch, true)];
            && AnswerAt(CHANNELS, depth, ops, 1) == Woken(cfg.active)
            && AnswerAt(CHANNELS, depth, ops, 3) == Delivered(Group(1, frames))
  {
    var a, b, c, d := Configure(cfg), Pps(pulse), Enqueue(ch, frames, now), Claim(ch, true);
    hide After;
    NoTurnYet(depth, [], [], _ => {});
    AnswerMore(depth, [], a, [a, b, c, d]);
    AnswerMore(depth, [a], b, [a, b, c, d]);
    AnswerMore(depth, [a, b], c, [a, b, c, d]);
    AnswerMore(depth, [a, b, c], d, [a, b, c, d]);
    assert [] + [a] == [a] && [a] + [b] == [a, b] && [a, b] + [c] == [a, b, c];
  }

  /** What a download turn brings for a channel: the frame of its parcel, if that is a frame for this channel
      and the channel is valid then. */
  lemma FrameMeantFor(c: nat, turns: seq<Turn>, now: nat, parcels: seq<Parcel>, valid: nat -> set<nat>)
    requires forall p <- parcels :: ParcelFits(p)
    ensures var j := DownloadsIn(turns);
            && (j < |parcels| && parcels[j].OneFrame? ==> |parcels[j].frame| == 48)
            && FramesFor(c, turns + [Download(now)], parcels, valid) ==
               FramesFor(c, turns, parcels, valid)
               + if j < |parcels| && parcels[j].OneFrame? && FrameChannel(parcels[j].frame) == c && c in valid(j)
                 then [parcels[j].frame] else []
  {
    assert Front(turns + [Download(now)]) == turns;
    var j := DownloadsIn(turns);
    if j < |parcels| {
      assert parcels[j] in parcels;
    }
  }
}
