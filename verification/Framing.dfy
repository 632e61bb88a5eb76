/** Framing of a byte stream into packets, independent of any one protocol: what a parser that
    resynchronises byte by byte and keeps half packets has to dispatch. */
module Framing {
  import opened Bytes

  /** A packet starts with `headerLen` bytes. `accepts` says whether such bytes are a trustworthy
      header, and `total` how long the whole packet is according to a trustworthy header. */
  datatype Format = Format(headerLen: nat, maxTotal: nat, accepts: seq<byte> -> bool, total: seq<byte> -> nat)

  ghost predicate WellFormed(f: Format) {
    && 0 < f.headerLen <= f.maxTotal
    && forall h: seq<byte> :: |h| == f.headerLen && f.accepts(h) ==> f.headerLen <= f.total(h) <= f.maxTotal
  }

  datatype Scanned = Scanned(packets: seq<seq<byte>>, rest: seq<byte>)

  /** One packet found in front of an already scanned tail. */
  function Before(p: seq<byte>, r: Scanned): Scanned {
    Scanned([p] + r.packets, r.rest)
  }

  /** The declarative scan: drop a byte on a bad header, stop on a half packet, take a whole one. */
  ghost function Scan(f: Format, s: seq<byte>): (r: Scanned)
    requires WellFormed(f)
    ensures |r.rest| < f.maxTotal
    decreases |s|
  {
    if |s| < f.headerLen then Scanned([], s)
    else if !f.accepts(s[..f.headerLen]) then Scan(f, s[1..])
    else
      var n := f.total(s[..f.headerLen]);
      if |s| < n then Scanned([], s) else Before(s[..n], Scan(f, s[n..]))
  }

  /** What the scan does with the front of a buffer. */
  datatype Verdict = Wait | Reject | Take(length: nat)

  function Judge(f: Format, s: seq<byte>): Verdict {
    if |s| < f.headerLen then Wait
    else if !f.accepts(s[..f.headerLen]) then Reject
    else if |s| < f.total(s[..f.headerLen]) then Wait
    else Take(f.total(s[..f.headerLen]))
  }

  lemma JudgeIsScanStep(f: Format, s: seq<byte>)
    requires WellFormed(f)
    ensures match Judge(f, s)
            case Wait => Scan(f, s) == Scanned([], s) && |s| < f.maxTotal
            case Reject => |s| >= f.headerLen && Scan(f, s) == Scan(f, s[1..])
            case Take(n) => 0 < n <= |s| && n >= f.headerLen && Scan(f, s) == Before(s[..n], Scan(f, s[n..]))
  {
  }

  // ---------- segmentation independence ----------

  /** What a scan yields when `b` arrives after `r` was already scanned. */
  ghost function Resume(f: Format, r: Scanned, b: seq<byte>): Scanned
    requires WellFormed(f)
  {
    var next := Scan(f, r.rest + b);
    Scanned(r.packets + next.packets, next.rest)
  }

  lemma ResumeBefore(f: Format, p: seq<byte>, r: Scanned, b: seq<byte>)
    requires WellFormed(f)
    ensures Resume(f, Before(p, r), b) == Before(p, Resume(f, r, b))
  {
    var next := Scan(f, r.rest + b).packets;
    assert ([p] + r.packets) + next == [p] + (r.packets + next);
  }

  /** Scanning can be interrupted after any prefix and resumed on what it left over. */
  lemma {:induction false} ScanAppend(f: Format, a: seq<byte>, b: seq<byte>)
    requires WellFormed(f)
    ensures Scan(f, a + b) == Resume(f, Scan(f, a), b)
    decreases |a|
  {
    if |a| < f.headerLen {
      assert [] + Scan(f, a + b).packets == Scan(f, a + b).packets;
    } else {
      var h := a[..f.headerLen];
      assert (a + b)[..f.headerLen] == h;
      if !f.accepts(h) {
        assert (a + b)[1..] == a[1..] + b;
        ScanAppend(f, a[1..], b);
      } else if f.total(h) <= |a| {
        var n := f.total(h);
        assert (a + b)[..n] == a[..n] && (a + b)[n..] == a[n..] + b;
        ScanAppend(f, a[n..], b);
        ResumeBefore(f, a[..n], Scan(f, a[n..]), b);
      } else {
        assert [] + Scan(f, a + b).packets == Scan(f, a + b).packets;
      }
    }
  }

  /** The next `n` bytes of a stream, scanned behind what an earlier scan left over. */
  lemma ScanMore(f: Format, stream: seq<byte>, taken: nat, n: nat)
    requires WellFormed(f) && taken + n <= |stream|
    ensures var was := Scan(f, stream[..taken]);
            var now := Scan(f, was.rest + stream[taken..taken + n]);
            Scan(f, stream[..taken + n]) == Scanned(was.packets + now.packets, now.rest)
  {
    assert stream[..taken + n] == stream[..taken] + stream[taken..taken + n];
    ScanAppend(f, stream[..taken], stream[taken..taken + n]);
  }

  /** A parser that buffers what it could not use and scans again after every chunk. */
  ghost function FeedAll(f: Format, buffered: seq<byte>, chunks: seq<seq<byte>>): Scanned
    requires WellFormed(f)
    decreases |chunks|
  {
    if chunks == [] then Scanned([], buffered)
    else
      var now := Scan(f, buffered + chunks[0]);
      var later := FeedAll(f, now.rest, chunks[1..]);
      Scanned(now.packets + later.packets, later.rest)
  }

  function Concat(chunks: seq<seq<byte>>): seq<byte> {
    if chunks == [] then [] else chunks[0] + Concat(chunks[1..])
  }

  /** Whatever was scanned once leaves nothing more to find. */
  lemma {:induction false} ScanRest(f: Format, s: seq<byte>)
    requires WellFormed(f)
    ensures Scan(f, Scan(f, s).rest) == Scanned([], Scan(f, s).rest)
  {
    ScanAppend(f, s, []);
    var r := Scan(f, s).rest;
    assert s + [] == s && r + [] == r;
    assert |Scan(f, s).packets + Scan(f, r).packets| == |Scan(f, s).packets|;
  }

  lemma {:induction false} FeedAllIsScan(f: Format, buffered: seq<byte>, chunks: seq<seq<byte>>)
    requires WellFormed(f)
    requires Scan(f, buffered) == Scanned([], buffered)
    ensures FeedAll(f, buffered, chunks) == Scan(f, buffered + Concat(chunks))
    decreases |chunks|
  {
    if chunks == [] {
      assert buffered + Concat(chunks) == buffered;
    } else {
      var now := Scan(f, buffered + chunks[0]);
      assert buffered + Concat(chunks) == (buffered + chunks[0]) + Concat(chunks[1..]);
      ScanAppend(f, buffered + chunks[0], Concat(chunks[1..]));
      ScanRest(f, buffered + chunks[0]);
      FeedAllIsScan(f, now.rest, chunks[1..]);
    }
  }

  /** What is dispatched and what is kept depends on the bytes only, never on how they were cut. */
  lemma {:induction false} SegmentationIndependence(f: Format, cut1: seq<seq<byte>>, cut2: seq<seq<byte>>)
    requires WellFormed(f) && Concat(cut1) == Concat(cut2)
    ensures FeedAll(f, [], cut1) == FeedAll(f, [], cut2) == Scan(f, Concat(cut1))
  {
    FeedAllIsScan(f, [], cut1);
    FeedAllIsScan(f, [], cut2);
    assert [] + Concat(cut1) == Concat(cut1);
  }

  // ---------- routing ----------

  /** What is done with each of a connection's packets; `from` of them came before. */
  function RouteEach<T>(route: (nat, seq<byte>) -> T, from: nat, packets: seq<seq<byte>>): (ts: seq<T>)
    ensures |ts| == |packets|
  {
    seq(|packets|, i requires 0 <= i < |packets| => route(from + i, packets[i]))
  }

  lemma RouteEachAppend<T>(route: (nat, seq<byte>) -> T, from: nat, a: seq<seq<byte>>, b: seq<seq<byte>>)
    ensures RouteEach(route, from, a + b) == RouteEach(route, from, a) + RouteEach(route, from + |a|, b)
  {
  }

  /** A parser that has `taken` packets takes the next one. */
  lemma TakenOneMore<T>(route: (nat, seq<byte>) -> T, from: nat, taken: seq<seq<byte>>, packet: seq<byte>, next: Scanned)
    ensures taken + Before(packet, next).packets == (taken + [packet]) + next.packets
    ensures RouteEach(route, from, taken + [packet]) == RouteEach(route, from, taken) + [route(from + |taken|, packet)]
  {
    assert taken + ([packet] + next.packets) == (taken + [packet]) + next.packets;
  }

  // ---------- canonical scan ----------

  predicate HeaderAt(f: Format, s: seq<byte>, o: nat) {
    o + f.headerLen <= |s| && f.accepts(s[o..o + f.headerLen])
  }

  /** Where the packet whose trustworthy header is at `o` ends. */
  function EndAt(f: Format, s: seq<byte>, o: nat): nat {
    if HeaderAt(f, s, o) then o + f.total(s[o..o + f.headerLen]) else o
  }

  predicate PacketAt(f: Format, s: seq<byte>, o: nat) {
    HeaderAt(f, s, o) && EndAt(f, s, o) <= |s|
  }

  /** Whole packets, in order and disjoint, all of them between `from` and `stop`. */
  ghost predicate InOrder(f: Format, s: seq<byte>, from: nat, starts: seq<nat>, stop: nat) {
    && (forall i :: 0 <= i < |starts| ==> from <= starts[i] && PacketAt(f, s, starts[i]) && EndAt(f, s, starts[i]) <= stop)
    && (forall i, j :: 0 <= i < j < |starts| ==> EndAt(f, s, starts[i]) <= starts[j])
  }

  /** Offset `o` lies inside one of the packets that begin at `starts`. */
  ghost predicate Covered(f: Format, s: seq<byte>, starts: seq<nat>, o: nat) {
    exists i :: 0 <= i < |starts| && starts[i] <= o < EndAt(f, s, starts[i])
  }

  /** Every byte that is given up begins a complete but untrustworthy header. */
  ghost predicate OnlyBadSkipped(f: Format, s: seq<byte>, from: nat, starts: seq<nat>, stop: nat) {
    forall o :: from <= o < stop && !Covered(f, s, starts, o) ==> o + f.headerLen <= |s| && !HeaderAt(f, s, o)
  }

  /** The parser stops only in front of half a header or half a packet. */
  predicate AtRest(f: Format, s: seq<byte>, stop: nat) {
    stop <= |s| && (stop + f.headerLen <= |s| ==> HeaderAt(f, s, stop) && !PacketAt(f, s, stop))
  }

  /** Which packet positions of `s` at or behind `from` have to be taken, and where parsing has to
      stop, said without an algorithm. */
  ghost predicate Canonical(f: Format, s: seq<byte>, from: nat, starts: seq<nat>, stop: nat) {
    && from <= stop
    && InOrder(f, s, from, starts, stop)
    && OnlyBadSkipped(f, s, from, starts, stop)
    && AtRest(f, s, stop)
  }

  /** The packet positions found by the scan, and where it stops. */
  ghost function Layout(f: Format, s: seq<byte>, from: nat): (r: (seq<nat>, nat))
    requires WellFormed(f) && from <= |s|
    decreases |s| - from
  {
    if from + f.headerLen > |s| then ([], from)
    else if !HeaderAt(f, s, from) then Layout(f, s, from + 1)
    else if !PacketAt(f, s, from) then ([], from)
    else
      var r := Layout(f, s, EndAt(f, s, from));
      ([from] + r.0, r.1)
  }

  /** The packets of `s` that begin at `starts`. */
  function Cut(f: Format, s: seq<byte>, starts: seq<nat>): (ps: seq<seq<byte>>) {
    if starts == [] then []
    else
      var p := if PacketAt(f, s, starts[0]) then s[starts[0]..EndAt(f, s, starts[0])] else [];
      [p] + Cut(f, s, starts[1..])
  }

  lemma CoveredBySplit(f: Format, s: seq<byte>, first: nat, rest: seq<nat>, o: nat)
    ensures Covered(f, s, [first] + rest, o) <==> first <= o < EndAt(f, s, first) || Covered(f, s, rest, o)
  {
    var starts := [first] + rest;
    assert starts[0] == first;
    assert forall i :: 0 <= i < |rest| ==> starts[i + 1] == rest[i];
    assert forall i :: 1 <= i < |starts| ==> starts[i] == rest[i - 1];
  }

  lemma {:induction false} LayoutIsCanonical(f: Format, s: seq<byte>, from: nat)
    requires WellFormed(f) && from <= |s|
    ensures Canonical(f, s, from, Layout(f, s, from).0, Layout(f, s, from).1)
    decreases |s| - from
  {
    hide EndAt, HeaderAt, Covered;
    var (starts, stop) := Layout(f, s, from);
    if from + f.headerLen <= |s| {
      if !HeaderAt(f, s, from) {
        LayoutIsCanonical(f, s, from + 1);
      } else if PacketAt(f, s, from) {
        EndBounds(f, s, from);
        var next := EndAt(f, s, from);
        LayoutIsCanonical(f, s, next);
        var rest := Layout(f, s, next).0;
        assert forall i :: 1 <= i < |starts| ==> starts[i] == rest[i - 1];
        forall o | from <= o < stop && !Covered(f, s, starts, o)
          ensures o + f.headerLen <= |s| && !HeaderAt(f, s, o)
        {
          CoveredBySplit(f, s, from, rest, o);
        }
      } else {
        NothingCovered(f, s);
      }
    } else {
      NothingCovered(f, s);
    }
  }

  lemma NothingCovered(f: Format, s: seq<byte>)
    ensures forall o :: !Covered(f, s, [], o)
  {
  }

  lemma EndBounds(f: Format, s: seq<byte>, o: nat)
    requires WellFormed(f) && HeaderAt(f, s, o)
    ensures o + f.headerLen <= EndAt(f, s, o) <= o + f.maxTotal
  {
  }

  lemma {:induction false} CanonicalIsLayout(f: Format, s: seq<byte>, from: nat, starts: seq<nat>, stop: nat)
    requires WellFormed(f) && Canonical(f, s, from, starts, stop)
    ensures (starts, stop) == Layout(f, s, from)
    decreases |s| - from
  {
    hide EndAt, HeaderAt;
    if starts != [] {
      EndBounds(f, s, starts[0]);
    }
    if from + f.headerLen > |s| || (HeaderAt(f, s, from) && !PacketAt(f, s, from)) {
      NotCoveredUnlessTaken(f, s, from, starts, stop);
    } else if !HeaderAt(f, s, from) {
      CanonicalIsLayout(f, s, from + 1, starts, stop);
    } else {
      NotCoveredUnlessTaken(f, s, from, starts, stop);
      EndBounds(f, s, from);
      WithoutFirst(f, s, from, starts, stop);
      CanonicalIsLayout(f, s, EndAt(f, s, from), starts[1..], stop);
      assert starts == [from] + starts[1..];
    }
  }

  lemma WithoutFirst(f: Format, s: seq<byte>, from: nat, starts: seq<nat>, stop: nat)
    requires WellFormed(f) && Canonical(f, s, from, starts, stop)
    requires starts != [] && starts[0] == from
    ensures Canonical(f, s, EndAt(f, s, from), starts[1..], stop)
  {
    hide EndAt, HeaderAt, Covered;
    var next, rest := EndAt(f, s, from), starts[1..];
    assert starts == [from] + rest;
    EndBounds(f, s, from);
    forall o | next <= o < stop && !Covered(f, s, rest, o)
      ensures o + f.headerLen <= |s| && !HeaderAt(f, s, o)
    {
      CoveredBySplit(f, s, from, rest, o);
    }
  }

  /** The first offset is either where parsing stopped, or given up, or where the first packet starts. */
  lemma NotCoveredUnlessTaken(f: Format, s: seq<byte>, from: nat, starts: seq<nat>, stop: nat)
    requires WellFormed(f) && Canonical(f, s, from, starts, stop)
    ensures from == stop || (from + f.headerLen <= |s| && !HeaderAt(f, s, from)) || (starts != [] && starts[0] == from)
    ensures from == stop ==> starts == []
  {
    hide EndAt, HeaderAt;
    if starts != [] {
      EndBounds(f, s, starts[0]);
    }
    if from < stop && Covered(f, s, starts, from) {
      assert forall k :: 0 < k < |starts| ==> from < EndAt(f, s, starts[0]) <= starts[k];
      var i :| 0 <= i < |starts| && starts[i] <= from < EndAt(f, s, starts[i]);
    }
  }

  /** One step of the scan at offset `o` of a buffer. */
  lemma ScanStep(f: Format, s: seq<byte>, o: nat)
    requires WellFormed(f) && o <= |s|
    ensures AtRest(f, s, o) ==> Scan(f, s[o..]) == Scanned([], s[o..])
    ensures o + f.headerLen <= |s| && !HeaderAt(f, s, o) ==> Scan(f, s[o..]) == Scan(f, s[o + 1..])
    ensures PacketAt(f, s, o) ==>
              Scan(f, s[o..]) == Before(s[o..EndAt(f, s, o)], Scan(f, s[EndAt(f, s, o)..]))
  {
    var t := s[o..];
    if o + f.headerLen <= |s| {
      assert t[..f.headerLen] == s[o..o + f.headerLen];
      assert t[1..] == s[o + 1..];
      if PacketAt(f, s, o) {
        var n := EndAt(f, s, o) - o;
        assert t[..n] == s[o..o + n] && t[n..] == s[o + n..];
      }
    }
  }

  lemma {:induction false} LayoutIsScan(f: Format, s: seq<byte>, from: nat)
    requires WellFormed(f) && from <= |s|
    ensures Layout(f, s, from).1 <= |s|
    ensures Scan(f, s[from..]) == Scanned(Cut(f, s, Layout(f, s, from).0), s[Layout(f, s, from).1..])
    decreases |s| - from
  {
    hide Scan, HeaderAt, EndAt;
    ScanStep(f, s, from);
    if from + f.headerLen <= |s| {
      if !HeaderAt(f, s, from) {
        LayoutIsScan(f, s, from + 1);
      } else if PacketAt(f, s, from) {
        EndBounds(f, s, from);
        LayoutIsScan(f, s, EndAt(f, s, from));
        assert Layout(f, s, from).0[1..] == Layout(f, s, EndAt(f, s, from)).0;
      }
    }
  }

  /** The dispatched packets are exactly the ones at the unique canonical positions. */
  lemma {:induction false} ScanIsCanonical(f: Format, s: seq<byte>, starts: seq<nat>, stop: nat)
    requires WellFormed(f) && Canonical(f, s, 0, starts, stop)
    ensures Scan(f, s) == Scanned(Cut(f, s, starts), s[stop..])
    ensures forall other, end :: Canonical(f, s, 0, other, end) ==> other == starts && end == stop
  {
    CanonicalIsLayout(f, s, 0, starts, stop);
    LayoutIsScan(f, s, 0);
    assert s[0..] == s;
    forall other, end | Canonical(f, s, 0, other, end)
      ensures other == starts && end == stop
    {
      CanonicalIsLayout(f, s, 0, other, end);
    }
  }

  lemma CanonicalExists(f: Format, s: seq<byte>)
    requires WellFormed(f)
    ensures exists starts, stop :: Canonical(f, s, 0, starts, stop)
  {
    LayoutIsCanonical(f, s, 0);
  }

  // ---------- round trip ----------

  ghost predicate IsPacket(f: Format, p: seq<byte>) {
    |p| >= f.headerLen && f.accepts(p[..f.headerLen]) && f.total(p[..f.headerLen]) == |p|
  }

  /** Packets sent back to back come out as sent, with nothing left over. */
  lemma {:induction false} ScanConcat(f: Format, ps: seq<seq<byte>>)
    requires WellFormed(f)
    requires forall i :: 0 <= i < |ps| ==> IsPacket(f, ps[i])
    ensures Scan(f, Concat(ps)) == Scanned(ps, [])
    decreases |ps|
  {
    if ps != [] {
      var p, s := ps[0], Concat(ps);
      assert IsPacket(f, p);
      assert s[..f.headerLen] == p[..f.headerLen];
      assert s[..|p|] == p && s[|p|..] == Concat(ps[1..]);
      ScanConcat(f, ps[1..]);
      assert [p] + ps[1..] == ps;
    }
  }
}
