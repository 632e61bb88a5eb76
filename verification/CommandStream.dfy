/** The command port 9009: one bounded buffer per connection, one memory move per packet or per
    rejected byte. */
module CommandStream {
  import opened Basics
  import opened Bytes
  import opened Checksum
  import opened Framing
  import opened Headers

  const BUFFER_SIZE: nat := 4096
  const HEADER: nat := 16
  const REQ_SYNC_WORD: nat := 0x03CCF0FF

  ghost function Commands(): Format {
    PacketFormat(REQ_SYNC_WORD, HEADER, BUFFER_SIZE)
  }

  datatype ParseStatus = Success | ErrSync | ErrLen | ErrChecksum | NeedMore

  /** Judges the bytes at the front of the buffer, in the order in which the program tests them. */
  function ParseRequestPacket(buffer: seq<byte>): (status: ParseStatus) {
    if |buffer| < HEADER then NeedMore
    else if BigEndian32(buffer[..4]) != REQ_SYNC_WORD then ErrSync
    else if FirstWord(buffer[12..16]) != ThreeWordSum(buffer) then ErrChecksum
    else
      var payloadLen := PayloadLength(buffer);
      if payloadLen > BUFFER_SIZE - HEADER then ErrLen
      else if payloadLen > |buffer| - HEADER then NeedMore
      else Success
  }

  lemma CommandsFacts()
    ensures WellFormed(Commands()) && Commands().headerLen == HEADER && Commands().maxTotal == BUFFER_SIZE
  {
    PacketFormatWellFormed(REQ_SYNC_WORD, HEADER, BUFFER_SIZE);
  }

  /** The declarative scan of a command stream. */
  ghost function ScanCommands(s: seq<byte>): Scanned {
    CommandsFacts();
    Scan(Commands(), s)
  }

  /** The verdict is exactly one step of the declarative scan. */
  lemma ParseIsJudge(buffer: seq<byte>)
    ensures match ParseRequestPacket(buffer)
            case NeedMore => Judge(Commands(), buffer) == Wait
            case Success => Judge(Commands(), buffer) == Take(HEADER + PayloadLength(buffer))
            case _ => Judge(Commands(), buffer) == Reject
  {
    hide ThreeWordSum, SumMatches, BigEndian32, FirstWord, Judge;
    JudgeByFields(REQ_SYNC_WORD, HEADER, BUFFER_SIZE, buffer);
    if |buffer| >= HEADER {
      ThreeWords(buffer);
    }
  }

  lemma FrontStep(now: seq<byte>)
    ensures match ParseRequestPacket(now)
            case NeedMore => ScanCommands(now) == Scanned([], now) && |now| < BUFFER_SIZE
            case Success =>
              && HEADER <= HEADER + PayloadLength(now) <= |now|
              && ScanCommands(now) ==
                 Before(now[..HEADER + PayloadLength(now)], ScanCommands(now[HEADER + PayloadLength(now)..]))
            case _ => |now| >= HEADER && ScanCommands(now) == ScanCommands(now[1..])
  {
    hide Scan, ParseRequestPacket, PayloadLength, Commands, Judge;
    CommandsFacts();
    ParseIsJudge(now);
    JudgeIsScanStep(Commands(), now);
  }

  lemma MoreCommands(stream: seq<byte>, taken: nat, n: nat)
    requires taken + n <= |stream|
    ensures var was := ScanCommands(stream[..taken]);
            var now := ScanCommands(was.rest + stream[taken..taken + n]);
            ScanCommands(stream[..taken + n]) == Scanned(was.packets + now.packets, now.rest)
  {
    CommandsFacts();
    hide Scan, Commands;
    ScanMore(Commands(), stream, taken, n);
  }

  datatype Handler = CanConfig | CanInfoQuery | CanBufQuery | CanStartStop | BroadcastConfig | VersionQuery

  /** What the program does with one packet. */
  datatype Dispatch = TooShort(command: nat) | Unknown(command: nat) | Handle(handler: Handler, payload: seq<byte>)

  function CommandMinPayloadSize(command: nat): nat {
    match command
    case 0x0101 => 48
    case 0x0102 => 4
    case 0x0100 => 4
    case 0x0103 => 8
    case 0x0104 => 40
    case _ => 0
  }

  /** No handler is given fewer bytes than the structure it reads. */
  function Route(packet: seq<byte>): (d: Dispatch)
    requires |packet| >= HEADER
    ensures d.Handle? ==>
              |d.payload| >= match d.handler
                             case CanConfig => 48
                             case CanInfoQuery => 4
                             case CanBufQuery => 4
                             case CanStartStop => 8
                             case BroadcastConfig => 40
                             case VersionQuery => 0
  {
    var command, payload := BigEndian16(packet[10..12]), packet[HEADER..];
    if |payload| < CommandMinPayloadSize(command) then TooShort(command)
    else match command
         case 0x0101 => Handle(CanConfig, payload)
         case 0x0102 => Handle(CanInfoQuery, payload)
         case 0x0100 => Handle(CanBufQuery, payload)
         case 0x0103 => Handle(CanStartStop, payload)
         case 0x0104 => Handle(BroadcastConfig, payload)
         case 0xFF05 => Handle(VersionQuery, payload)
         case _ => Unknown(command)
  }

  /** Commands are routed alike wherever in the connection they stand. */
  function Router(): (nat, seq<byte>) -> Dispatch {
    (_: nat, packet: seq<byte>) => if |packet| >= HEADER then Route(packet) else TooShort(0)
  }

  /** What a connection does for its packets. */
  function RouteAll(packets: seq<seq<byte>>): (ds: seq<Dispatch>)
    ensures |ds| == |packets|
  {
    RouteEach(Router(), 0, packets)
  }

  lemma RouteAllAppend(a: seq<seq<byte>>, b: seq<seq<byte>>)
    ensures RouteAll(a + b) == RouteAll(a) + RouteAll(b)
  {
  }

  lemma NothingYet()
    ensures ScanCommands([]) == Scanned([], []) && RouteAll([]) == []
  {
  }

  lemma ShortIsRest(now: seq<byte>)
    ensures |now| < HEADER ==> ScanCommands(now) == Scanned([], now)
  {
  }

  /** What one `recv` call does: bytes arrive, a signal interrupts it, or it reports failure. */
  datatype Recv = Data(atMost: nat) | Interrupted | Failed

  /** No call fails or brings nothing; any may be interrupted. */
  predicate NeverFails(calls: seq<Recv>) {
    forall i :: 0 <= i < |calls| ==> calls[i] != Failed && (calls[i].Data? ==> calls[i].atMost > 0)
  }

  /** How many calls bring data. */
  function Arrivals(calls: seq<Recv>): nat {
    if calls == [] then 0 else Arrivals(calls[..|calls| - 1]) + if calls[|calls| - 1].Data? then 1 else 0
  }

  class CommandConnection {
    const bytes: array<byte>
    var buffered: nat
    var dispatched: seq<Dispatch>

    ghost predicate Valid()
      reads this
    {
      bytes.Length == BUFFER_SIZE && buffered <= BUFFER_SIZE
    }

    ghost function Pending(): seq<byte>
      requires Valid()
      reads this, bytes
    {
      bytes[..buffered]
    }

    constructor ()
      ensures Valid() && fresh(bytes) && buffered == 0 && dispatched == []
    {
      bytes := new byte[BUFFER_SIZE];
      buffered := 0;
      dispatched := [];
    }

    /** Moves the buffer content down over its first `n` bytes. */
    method Discard(n: nat)
      requires Valid() && n <= buffered
      modifies this`buffered, bytes
      ensures Valid() && Pending() == old(Pending())[n..]
    {
      buffered := buffered - n;
      forall i | 0 <= i < buffered {
        bytes[i] := bytes[i + n];
      }
    }

    /** Stores received bytes behind the ones already there. */
    method Append(chunk: seq<byte>)
      requires Valid() && buffered + |chunk| <= BUFFER_SIZE
      modifies this`buffered, bytes
      ensures Valid() && Pending() == old(Pending()) + chunk
    {
      forall i | 0 <= i < |chunk| {
        bytes[buffered + i] := chunk[i];
      }
      buffered := buffered + |chunk|;
    }

    /** Takes every packet the buffer holds, in order, and leaves what the scan leaves: never a full
        buffer, so the next `recv` always has room. */
    method Drain()
      requires Valid()
      modifies this`buffered, this`dispatched, bytes
      ensures Valid() && buffered < BUFFER_SIZE
      ensures Pending() == ScanCommands(old(Pending())).rest
      ensures dispatched == old(dispatched) + RouteAll(ScanCommands(old(Pending())).packets)
    {
      hide ScanCommands, ParseRequestPacket, Route, RouteEach, PayloadLength;
      NothingYet();
      ghost var all := Pending();
      ghost var taken: seq<seq<byte>> := [];
      ghost var left := ScanCommands(all);
      assert [] + left.packets == left.packets;
      while buffered >= HEADER
        invariant Valid()
        invariant left == ScanCommands(Pending())
        invariant ScanCommands(all) == Scanned(taken + left.packets, left.rest)
        invariant dispatched == old(dispatched) + RouteAll(taken)
        decreases buffered
      {
        var now := bytes[..buffered];
        var status := ParseRequestPacket(now);
        FrontStep(now);
        if status == NeedMore {
          break;
        }
        if status != Success {
          Discard(1);
        } else {
          var packetLen := HEADER + PayloadLength(now);
          var packet := now[..packetLen];
          dispatched := dispatched + [Route(packet)];
          Discard(packetLen);
          TakenOneMore(Router(), 0, taken, packet, ScanCommands(Pending()));
          taken := taken + [packet];
        }
        left := ScanCommands(Pending());
      }
      ShortIsRest(Pending());
      assert taken + [] == taken;
    }

    /** The connection loop: `calls` says how each `recv` behaves, the bytes come from `stream`. */
    method Serve(stream: seq<byte>, calls: seq<Recv>) returns (taken: nat)
      requires Valid() && buffered == 0 && dispatched == []
      modifies this`buffered, this`dispatched, bytes
      ensures Valid() && buffered < BUFFER_SIZE && taken <= |stream|
      ensures dispatched == RouteAll(ScanCommands(stream[..taken]).packets)
      ensures Pending() == ScanCommands(stream[..taken]).rest
      ensures NeverFails(calls) ==>
                taken == |stream| || taken >= Arrivals(calls)
    {
      hide RouteAll, ScanCommands;
      taken := 0;
      NothingYet();
      assert stream[..0] == [];
      for k := 0 to |calls|
        invariant Valid() && buffered < BUFFER_SIZE && taken <= |stream|
        invariant Pending() == ScanCommands(stream[..taken]).rest
        invariant dispatched == RouteAll(ScanCommands(stream[..taken]).packets)
        invariant NeverFails(calls) ==>
                    taken == |stream| || taken >= Arrivals(calls[..k])
      {
        assert calls[..k + 1][..k] == calls[..k];
        if calls[k] == Interrupted {
          continue;
        }
        if calls[k] == Failed {
          break;
        }
        var n := Min(calls[k].atMost, Min(BUFFER_SIZE - buffered, |stream| - taken));
        if n == 0 {
          break;
        }
        MoreCommands(stream, taken, n);
        RouteAllAppend(ScanCommands(stream[..taken]).packets, ScanCommands(Pending() + stream[taken..taken + n]).packets);
        Append(stream[taken..taken + n]);
        Drain();
        taken := taken + n;
      }
      assert calls[..|calls|] == calls;
    }
  }

  ghost predicate IsCommand(p: seq<byte>) {
    exists counter: nat, command: nat, payload: seq<byte> ::
      && counter < 0x1_0000 && command < 0x1_0000 && |payload| <= BUFFER_SIZE - HEADER
      && p == MakePacket(REQ_SYNC_WORD, counter, command, [], payload)
  }

  /** The command number and the payload that the parser reads from a packet. */
  predicate Carries(p: seq<byte>, command: nat, payload: seq<byte>) {
    |p| >= HEADER && BigEndian16(p[10..12]) == command && p[HEADER..] == payload
  }

  /** A command as a peer builds it carries what the peer put in. */
  lemma MadeIsCommand(counter: nat, command: nat, payload: seq<byte>)
    requires counter < 0x1_0000 && command < 0x1_0000 && |payload| <= BUFFER_SIZE - HEADER
    ensures IsCommand(MakePacket(REQ_SYNC_WORD, counter, command, [], payload))
    ensures Carries(MakePacket(REQ_SYNC_WORD, counter, command, [], payload), command, payload)
  {
    hide MakePacket, BigEndian16, PacketFormat;
    MakePacketIsPacket(REQ_SYNC_WORD, counter, command, [], payload, BUFFER_SIZE);
    CommandsFacts();
  }

  lemma CommandIsPacket(p: seq<byte>)
    requires IsCommand(p)
    ensures IsPacket(Commands(), p)
  {
    hide MakePacket, IsPacket;
    var counter: nat, command: nat, payload: seq<byte> :|
      && counter < 0x1_0000 && command < 0x1_0000 && |payload| <= BUFFER_SIZE - HEADER
      && p == MakePacket(REQ_SYNC_WORD, counter, command, [], payload);
    MakePacketIsPacket(REQ_SYNC_WORD, counter, command, [], payload, BUFFER_SIZE);
  }

  /** Commands built by a peer arrive as sent, however the stream is cut. */
  lemma CommandsRoundTrip(ps: seq<seq<byte>>, cut: seq<seq<byte>>)
    requires forall i :: 0 <= i < |ps| ==> IsCommand(ps[i])
    requires Concat(cut) == Concat(ps)
    ensures FeedAll(Commands(), [], cut) == Scanned(ps, [])
  {
    CommandsFacts();
    hide Commands, IsCommand;
    forall i | 0 <= i < |ps|
      ensures IsPacket(Commands(), ps[i])
    {
      CommandIsPacket(ps[i]);
    }
    ScanConcat(Commands(), ps);
    FeedAllIsScan(Commands(), [], cut);
    assert [] + Concat(cut) == Concat(cut);
  }

  /** Command number and handler, and the size of the structure the handler reads. */
  predicate Serves(command: nat, handler: Handler, size: nat) {
    match handler
    case CanBufQuery => command == 256 && size == 4
    case CanConfig => command == 257 && size == 48
    case CanInfoQuery => command == 258 && size == 4
    case CanStartStop => command == 259 && size == 8
    case BroadcastConfig => command == 260 && size == 40
    case VersionQuery => command == 65285 && size == 0
  }

  /** A packet whose bytes 10 and 11, most significant first, are the number of a handler reaches it with its
      whole payload if that is long enough for it, and is refused otherwise; a number without a handler is
      refused as unknown. */
  lemma CommandsReachTheirHandlers(p: seq<byte>, command: nat, handler: Handler, size: nat)
    requires |p| >= 16 && command == Value(p[10]) * 256 + Value(p[11])
    ensures Serves(command, handler, size) ==>
              Route(p) == if |p| - 16 >= size then Handle(handler, p[16..]) else TooShort(command)
    ensures (forall h: Handler, n: nat :: !Serves(command, h, n)) ==> Route(p) == Unknown(command)
  {
    hide BigEndian16, Value;
    NumberOnTheWire(p);
    assert Serves(256, CanBufQuery, 4) && Serves(257, CanConfig, 48) && Serves(258, CanInfoQuery, 4);
    assert Serves(259, CanStartStop, 8) && Serves(260, BroadcastConfig, 40) && Serves(65285, VersionQuery, 0);
  }

  lemma NumberOnTheWire(p: seq<byte>)
    requires |p| >= 16
    ensures BigEndian16(p[10..12]) == Value(p[10]) * 256 + Value(p[11])
  {
  }

  /** A peer that builds a command puts its number into these bytes, and the payload behind the header. */
  lemma MadeIsRouted(counter: nat, command: nat, payload: seq<byte>)
    requires counter < 0x1_0000 && command < 0x1_0000 && |payload| <= 4080
    ensures var p := MakePacket(REQ_SYNC_WORD, counter, command, [], payload);
            |p| == 16 + |payload| && Value(p[10]) * 256 + Value(p[11]) == command && p[16..] == payload
  {
    hide BigEndian16, Value, MakePacket;
    MadeIsCommand(counter, command, payload);
    NumberOnTheWire(MakePacket(REQ_SYNC_WORD, counter, command, [], payload));
  }

  /** Each result of the parser, said of the bytes in the buffer: half a header or half a packet, a wrong word,
      a wrong checksum, an impossible length, in this order, or a whole packet. */
  lemma ParseByBytes(b: seq<byte>)
    ensures ParseRequestPacket(b) ==
            if |b| < 16 then NeedMore
            else if b[..4] != [3, 0xCC, 0xF0, 0xFF] then ErrSync
            else if !SumStands(b) then ErrChecksum
            else if StatedLength(b) > 4080 then ErrLen
            else if 16 + StatedLength(b) > |b| then NeedMore
            else Success
  {
    hide BigEndian32, FirstWord, ThreeWordSum, SumMatches, SumStands, StatedLength;
    if |b| >= 16 {
      WordOnTheWire(REQ_SYNC_WORD, 3, b);
      SumByBytes(b);
      ThreeWords(b);
      LengthOnTheWire(b);
    }
  }

  /** A command packet byte for byte: 03 CC F0 FF, the length, the checksum, and at most 4096 bytes. */
  lemma CommandsOnTheWire(p: seq<byte>)
    ensures IsPacket(Commands(), p) <==> OnTheWire(3, 16, p) && |p| <= 4096
  {
    hide PacketFormat, OnTheWire, IsPacket;
    PacketIffOnTheWire(3, 16, 4096, p);
  }
}
