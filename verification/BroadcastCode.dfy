/** The broadcast scheduler as the program runs it: fields updated in place, one method per function.
    Each method that runs under the state mutex is proved to be one transaction of `BroadcastSpec`. */
module BroadcastCode {
  import opened Basics
  import opened BitMath
  import opened Bytes
  import opened Checksum
  import opened Headers
  import opened PcFrame
  import opened Polling
  import opened BroadcastSpec
  import Downloads = DownloadStream
  import Safety = BroadcastSafety

  const CHANNELS: Size := 6
  /** The length of the message, and of the part its checksum covers. */
  const CONFIG_SIZE: nat := 40
  const CHECKED: nat := 36

  // ---------- the configuration message ----------

  function PutLittle32(n: nat): (b: seq<byte>)
    requires n < U32
    ensures |b| == 4 && LittleEndian32(b) == n
  {
    var p := Put32(n);
    var b := [p[3], p[2], p[1], p[0]];
    assert [b[3], b[2], b[1], b[0]] == p;
    b
  }

  /** The channels whose bits are set in a mask of `n` bits. */
  function Members(mask: nat, n: nat): (s: set<nat>)
    ensures forall c <- s :: c < n
  {
    if n == 0 then {}
    else Members(mask, n - 1) + if BitSet(mask, Pow2(n - 1)) then {n - 1} else {}
  }

  predicate BitSet(mask: nat, unit: nat)
    requires unit > 0
  {
    mask / unit % 2 == 1
  }

  /** The mask in which exactly the bits of `s` below `n` are set. */
  function Mask(s: set<nat>, n: nat): (mask: nat)
    ensures mask < Pow2(n)
  {
    if n == 0 then 0 else Mask(s, n - 1) + if n - 1 in s then Pow2(n - 1) else 0
  }

  lemma {:induction false} LowBits(mask: nat, high: nat, n: nat)
    ensures Members(mask + high * Pow2(n), n) == Members(mask, n)
    decreases n
  {
    if n > 0 {
      assert high * Pow2(n) == (2 * high) * Pow2(n - 1);
      LowBits(mask, 2 * high, n - 1);
      ShiftedBit(mask, high, Pow2(n - 1));
    }
  }

  lemma ShiftedBit(mask: nat, high: nat, unit: nat)
    requires unit > 0
    ensures BitSet(mask + 2 * high * unit, unit) == BitSet(mask, unit)
  {
    var q := mask / unit;
    Split(mask, unit);
    MulDist(unit, q, 2 * high);
    assert 2 * high * unit == unit * (2 * high);
    ModUnique(mask + 2 * high * unit, unit, q + 2 * high, mask % unit);
  }

  lemma {:induction false} MaskRoundTrip(s: set<nat>, n: nat)
    requires Below(s, n)
    ensures Members(Mask(s, n), n) == s
  {
    MembersOfMask(s, n);
    assert s == set c | c in s && c < n;
  }

  lemma {:induction false} MembersOfMask(s: set<nat>, n: nat)
    ensures Members(Mask(s, n), n) == set c | c in s && c < n
  {
    if n > 0 {
      MembersOfMask(s, n - 1);
      MaskStep(Mask(s, n - 1), n, n - 1 in s);
    }
  }

  lemma MaskStep(low: nat, n: nat, top: bool)
    requires n > 0 && low < Pow2(n - 1)
    ensures Members(low + if top then Pow2(n - 1) else 0, n) == Members(low, n - 1) + if top then {n - 1} else {}
  {
    hide Pow2, BitSet;
    TopBit(low, Pow2(n - 1));
    if top {
      LowBits(low, 1, n - 1);
      assert 1 * Pow2(n - 1) == Pow2(n - 1);
    }
  }

  lemma TopBit(low: nat, unit: nat)
    requires low < unit
    ensures BitSet(low + unit, unit) && !BitSet(low, unit)
  {
    ModUnique(low + unit, unit, 1, low);
    ModUnique(low, unit, 0, low);
  }

  /** Channel `c` is meant by bit `c` of a mask. */
  lemma {:induction false} MembersAreBits(mask: nat, n: nat, c: nat)
    ensures Pow2(c) > 0 && (c in Members(mask, n) <==> c < n && mask / Pow2(c) % 2 == 1)
  {
    if n > 0 {
      MembersAreBits(mask, n - 1, c);
    }
  }

  predicate Below(s: set<nat>, n: nat) {
    forall c <- s :: c < n
  }

  /** What a configuration may hold. */
  predicate ConfigFits(c: Config, n: Size) {
    && (c.enabled ==> SIMULTANEOUS <= c.mode <= AB_ALTERNATE)
    && c.mode < 0x100 && c.currentGroup <= 1 && c.pollNext < n
    && Below(c.active, n) && Below(c.groupA, n) && Below(c.groupB, n)
  }

  /** The checks on the fields of a configuration, once its frame is known to be intact. */
  function CheckFields(enable: nat, mode: nat, group: nat, start: nat, active: nat, a: nat, b: nat): (r: Option<Config>)
    requires mode < 0x100
    ensures r.Some? ==> ConfigFits(r.value, CHANNELS)
  {
    if enable != 0 && enable != 1 then None
    else if enable == 1 && !(SIMULTANEOUS <= mode <= AB_ALTERNATE) then None
    else if active >= Pow2(CHANNELS) || a >= Pow2(CHANNELS) || b >= Pow2(CHANNELS) then None
    else if start >= CHANNELS || group > 1 then None
    else Some(Config(enable == 1, mode, group, start, Members(active, CHANNELS), Members(a, CHANNELS), Members(b, CHANNELS)))
  }

  /** Reads the 40-byte payload of a configuration command, in the order in which it is checked. */
  function ParseConfig(p: seq<byte>): (r: Option<Config>)
    requires |p| >= CONFIG_SIZE
    ensures r.Some? ==> ConfigFits(r.value, CHANNELS)
  {
    hide Load, WordSum, BigEndian32, Members;
    if FirstWord(p[..4]) != PC_STATUS_HEAD || p[4] != 0 || p[6] != 40 then None
    else if FirstWord(p[36..40]) != WordSum(p[..CHECKED]) then None
    else CheckFields(p[12] as nat, p[13] as nat, p[14] as nat, p[15] as nat,
                     LittleEndian32(p[16..20]), LittleEndian32(p[20..24]), LittleEndian32(p[24..28]))
  }

  /** The payload a peer sends for a configuration; the time stamp and the count are not looked at. */
  function MakeConfig(c: Config, count: seq<byte>, timestamp: seq<byte>): (p: seq<byte>)
    requires ConfigFits(c, CHANNELS) && |count| == 4 && |timestamp| == 8
    ensures |p| == CONFIG_SIZE
  {
    var body := ConfigBody(c, count, timestamp);
    body + Stored(body)
  }

  function ConfigBody(c: Config, count: seq<byte>, timestamp: seq<byte>): (p: seq<byte>)
    requires ConfigFits(c, CHANNELS) && |count| == 4 && |timestamp| == 8
    ensures |p| == CHECKED
  {
    PowersHere();
    [0xD2, 0x02, 0x96, 0x49, 0, 0, 40, 0] + count
    + [if c.enabled then 1 else 0, ToByte(c.mode), ToByte(c.currentGroup), ToByte(c.pollNext)]
    + PutLittle32(Mask(c.active, CHANNELS)) + PutLittle32(Mask(c.groupA, CHANNELS)) + PutLittle32(Mask(c.groupB, CHANNELS))
    + timestamp
  }

  lemma PowersHere()
    ensures Pow2(CHANNELS) == 64
  {
    assert Pow2(3) == 8;
  }

  /** The bytes of a body, field by field. */
  lemma BodyFields(c: Config, count: seq<byte>, timestamp: seq<byte>)
    requires ConfigFits(c, CHANNELS) && |count| == 4 && |timestamp| == 8
    ensures var b := ConfigBody(c, count, timestamp);
            && b[..4] == [0xD2, 0x02, 0x96, 0x49] && b[4] == 0 && b[6] == 40
            && b[12] == (if c.enabled then 1 else 0) && b[13] as nat == c.mode
            && b[14] as nat == c.currentGroup && b[15] as nat == c.pollNext
            && LittleEndian32(b[16..20]) == Mask(c.active, CHANNELS)
            && LittleEndian32(b[20..24]) == Mask(c.groupA, CHANNELS)
            && LittleEndian32(b[24..28]) == Mask(c.groupB, CHANNELS)
  {
    hide LittleEndian32, PutLittle32, Mask, ToByte;
    PowersHere();
    var b := ConfigBody(c, count, timestamp);
    assert b[..4] == [0xD2, 0x02, 0x96, 0x49];
    assert b[16..20] == PutLittle32(Mask(c.active, CHANNELS));
    assert b[20..24] == PutLittle32(Mask(c.groupA, CHANNELS));
    assert b[24..28] == PutLittle32(Mask(c.groupB, CHANNELS));
  }

  /** Every configuration a peer may ask for is understood as it was meant. */
  lemma ConfigRoundTrip(c: Config, count: seq<byte>, timestamp: seq<byte>)
    requires ConfigFits(c, CHANNELS) && |count| == 4 && |timestamp| == 8
    ensures ParseConfig(MakeConfig(c, count, timestamp)) == Some(c)
  {
    hide ConfigBody, LittleEndian32, Mask, Members, Load, WordSum, LaneSum;
    PowersHere();
    BodyFields(c, count, timestamp);
    var b, p := ConfigBody(c, count, timestamp), MakeConfig(c, count, timestamp);
    assert p[..CHECKED] == b && p[36..40] == Stored(b);
    assert p[..4] == b[..4] && p[16..20] == b[16..20] && p[20..24] == b[20..24] && p[24..28] == b[24..28];
    HeadWord();
    WordSumIsLaneSums(b);
    MaskRoundTrip(c.active, CHANNELS);
    MaskRoundTrip(c.groupA, CHANNELS);
    MaskRoundTrip(c.groupB, CHANNELS);
  }

  /** An accepted configuration brings about what the results on its mode ask for, whatever went before it. */
  lemma AcceptedConfigSetsUp(payload: seq<byte>, depth: Size, ops: seq<Op>)
    requires |payload| >= CONFIG_SIZE && ParseConfig(payload).Some?
    ensures var c := ParseConfig(payload).value;
            var s := After(CHANNELS, depth, ops + [Configure(c)]);
            && s.cfg == c && !s.gateOpen
            && (forall ch :: 0 <= ch < CHANNELS ==> s.rings[ch] == [] && s.pending[ch] == 0)
            && (c.enabled && c.mode == 1 ==> Safety.SimultaneousSetUp(s, CHANNELS))
            && (c.enabled && c.mode == 2 && c.active != {} ==> Safety.PollingSetUp(s, CHANNELS))
            && (c.enabled && c.mode == 3 ==> Safety.AlternatingSetUp(s, CHANNELS))
            && (!c.enabled ==> Safety.IdleSetUp(s, CHANNELS))
  {
    hide ParseConfig, After, Apply;
    var c := ParseConfig(payload).value;
    var all := ops + [Configure(c)];
    assert Front(all) == ops && Last(all) == Configure(c);
    Unfold(CHANNELS, depth, all, 0);
    ConfigureApplied(After(CHANNELS, depth, ops), depth, c);
    if c.active != {} {
      var ch :| ch in c.active;
      RankLess(c.active, ch, CHANNELS);
    }
  }

  lemma ConfigureApplied(s: Shared, depth: Size, c: Config)
    requires Fits(s, CHANNELS)
    ensures Apply(s, CHANNELS, depth, Configure(c)).0 == ResetAll(s.(cfg := c))
  {
  }

  lemma {:induction false} MaskOfMembers(mask: nat, n: nat)
    requires mask < Pow2(n)
    ensures Mask(Members(mask, n), n) == mask
    decreases n
  {
    if n > 0 {
      hide Pow2, BitSet;
      Doubled(n);
      var top, low := TopAndRest(mask, Pow2(n - 1));
      MaskOfMembers(low, n - 1);
      MembersBelow(mask, low, top, n - 1);
      MaskIgnores(Members(mask, n), Members(low, n - 1), n - 1);
    }
  }

  lemma Doubled(n: nat)
    requires n > 0
    ensures Pow2(n) == 2 * Pow2(n - 1) && Pow2(n - 1) > 0
  {
  }

  lemma TopAndRest(mask: nat, unit: nat) returns (top: bool, low: nat)
    requires unit > 0 && mask < 2 * unit
    ensures low < unit && mask == low + if top then unit else 0
    ensures BitSet(mask, unit) <==> top
  {
    hide BitSet;
    top := mask >= unit;
    low := if top then mask - unit else mask;
    TopBit(low, unit);
  }

  lemma MembersBelow(mask: nat, low: nat, top: bool, n: nat)
    requires mask == low + if top then Pow2(n) else 0
    ensures Members(mask, n) == Members(low, n)
  {
    hide Pow2, BitSet, Members;
    LowBits(low, if top then 1 else 0, n);
    assert 1 * Pow2(n) == Pow2(n) && 0 * Pow2(n) == 0;
  }

  /** Members from `n` on do not matter for a mask of `n` bits. */
  lemma {:induction false} MaskIgnores(s: set<nat>, t: set<nat>, n: nat)
    requires forall c: nat :: c < n ==> (c in s <==> c in t)
    ensures Mask(s, n) == Mask(t, n)
    decreases n
  {
    if n > 0 {
      MaskIgnores(s, t, n - 1);
    }
  }

  /** That the first 40 bytes of a payload ask for configuration `c`, intact. */
  predicate AsksFor(p: seq<byte>, c: Config)
    requires |p| >= CONFIG_SIZE
  {
    && ConfigFits(c, CHANNELS) && WordSum(p[..40]) == 0
    && p[..4] == [0xD2, 0x02, 0x96, 0x49] && p[4] == 0 && p[6] == 40
    && p[12] as nat == (if c.enabled then 1 else 0) && p[13] as nat == c.mode
    && p[14] as nat == c.currentGroup && p[15] as nat == c.pollNext
    && LittleEndian32(p[16..20]) == Mask(c.active, CHANNELS)
    && LittleEndian32(p[20..24]) == Mask(c.groupA, CHANNELS)
    && LittleEndian32(p[24..28]) == Mask(c.groupB, CHANNELS)
  }

  /** A payload is read as configuration `c` if and only if it asks for `c`: head, direction, length, every
      field, every permitted range, and a total XOR of zero. */
  lemma ParseConfigIff(p: seq<byte>, c: Config)
    requires |p| >= CONFIG_SIZE
    ensures ParseConfig(p) == Some(c) <==> AsksFor(p, c)
  {
    hide Load, WordSum, LittleEndian32, CheckFields, ConfigFits, Mask;
    HeadWord();
    if p[..4] != [0xD2, 0x02, 0x96, 0x49] {
      FirstWordsDiffer(p[..4], [0xD2, 0x02, 0x96, 0x49]);
    }
    assert p[..36] + p[36..40] == p[..40];
    TrailerMatchesIffZero(p[..36], p[36..40]);
    CheckFieldsIff(p[12] as nat, p[13] as nat, p[14] as nat, p[15] as nat,
                   LittleEndian32(p[16..20]), LittleEndian32(p[20..24]), LittleEndian32(p[24..28]), c);
  }

  lemma CheckFieldsIff(enable: nat, mode: nat, group: nat, start: nat, active: nat, a: nat, b: nat, c: Config)
    requires mode < 0x100
    ensures CheckFields(enable, mode, group, start, active, a, b) == Some(c) <==>
            && ConfigFits(c, CHANNELS) && enable == (if c.enabled then 1 else 0) && mode == c.mode && group == c.currentGroup
            && start == c.pollNext && active == Mask(c.active, CHANNELS) && a == Mask(c.groupA, CHANNELS) && b == Mask(c.groupB, CHANNELS)
  {
    hide Mask, Members, Pow2;
    if active < Pow2(CHANNELS) && a < Pow2(CHANNELS) && b < Pow2(CHANNELS) {
      MaskOfMembers(active, CHANNELS);
      MaskOfMembers(a, CHANNELS);
      MaskOfMembers(b, CHANNELS);
    }
    if ConfigFits(c, CHANNELS) {
      MaskRoundTrip(c.active, CHANNELS);
      MaskRoundTrip(c.groupA, CHANNELS);
      MaskRoundTrip(c.groupB, CHANNELS);
    }
  }

  /** A configuration damaged inside one aligned word is refused. */
  lemma DamagedConfigIsRefused(p: seq<byte>, q: seq<byte>, pre: seq<byte>, a: seq<byte>, b: seq<byte>, post: seq<byte>)
    requires |p| >= CONFIG_SIZE && |q| >= CONFIG_SIZE && ParseConfig(p).Some?
    requires p[..40] == pre + a + post && q[..40] == pre + b + post && |pre| % 4 == 0 && |a| == |b| == 4 && a != b
    ensures ParseConfig(q).None?
  {
    hide ParseConfig, WordSum;
    ParseConfigIff(p, ParseConfig(p).value);
    OneWordDamageDetected(pre, a, b, post);
    if ParseConfig(q).Some? {
      ParseConfigIff(q, ParseConfig(q).value);
    }
  }

  // ---------- frames ----------

  /** The CAN frame written for a 48-byte payload frame: the two data words with their bytes reversed. */
  function ToCanFrame(f: seq<byte>): CanFrame
    requires |f| == FRAME_SIZE
  {
    CanFrame(f[16..20], f[20..24], [f[27], f[26], f[25], f[24]], [f[31], f[30], f[29], f[28]], f[36..44])
  }

  function ToCanFrames(fs: seq<seq<byte>>): (cs: seq<CanFrame>)
    requires forall i :: 0 <= i < |fs| ==> |fs[i]| == FRAME_SIZE
    ensures |cs| == |fs|
  {
    seq(|fs|, i requires 0 <= i < |fs| => ToCanFrame(fs[i]))
  }

  /** That a CAN frame carries what the sender of a frame put in: both data words as numbers, the byte order
      of the wire undone. */
  predicate CarriesFields(c: CanFrame, x: Fields) {
    && c.canId == x.id && c.dlc == x.dlc && c.timestamp == x.timestamp
    && |c.data0| == |c.data1| == |x.word1| == |x.word2| == 4
    && LittleEndian32(c.data0) == BigEndian32(x.word1) && LittleEndian32(c.data1) == BigEndian32(x.word2)
  }

  lemma BuiltIsConverted(x: Fields)
    requires FieldsFit(x)
    ensures CarriesFields(ToCanFrame(Built(x)), x)
  {
    hide Built, BigEndian32;
    BuiltFields(x);
    var f := Built(x);
    assert [f[24], f[25], f[26], f[27]] == f[24..28] && [f[28], f[29], f[30], f[31]] == f[28..32];
  }

  function BuiltAll(xs: seq<Fields>): (fs: seq<seq<byte>>)
    ensures |fs| == |xs| && forall i :: 0 <= i < |xs| ==> fs[i] == Built(xs[i])
  {
    seq(|xs|, i requires 0 <= i < |xs| => Built(xs[i]))
  }

  predicate AllFit(xs: seq<Fields>) {
    forall i :: 0 <= i < |xs| ==> FieldsFit(xs[i])
  }

  /** That a group carries, frame by frame, what the sender of `frames` put in, whoever built them. */
  ghost predicate GroupCarries(g: Group, frames: seq<seq<byte>>) {
    forall xs :: AllFit(xs) && frames == BuiltAll(xs) ==>
      |g.frames| == |xs| && forall i :: 0 <= i < |xs| ==> CarriesFields(g.frames[i], xs[i])
  }

  lemma ConvertedCarries(id: nat, frames: seq<seq<byte>>)
    requires forall i :: 0 <= i < |frames| ==> |frames[i]| == FRAME_SIZE
    ensures GroupCarries(Group(id, ToCanFrames(frames)), frames)
  {
    hide CarriesFields, ToCanFrame, Built, FieldsFit;
    forall xs | AllFit(xs) && frames == BuiltAll(xs)
      ensures |ToCanFrames(frames)| == |xs| && forall i :: 0 <= i < |xs| ==> CarriesFields(ToCanFrames(frames)[i], xs[i])
    {
      forall i | 0 <= i < |xs|
        ensures CarriesFields(ToCanFrames(frames)[i], xs[i])
      {
        BuiltIsConverted(xs[i]);
      }
    }
  }

  // ---------- the scheduler ----------

  class Scheduler {
    const n: Size
    const depth: Size
    var cfg: Config
    var rings: array<seq<Group>>
    var pending: array<nat>
    var gateOpen: bool
    var gateUntil: nat
    var lastId: nat

    ghost predicate Valid()
      reads this
    {
      rings.Length == pending.Length == n && rings as object != pending as object
    }

    ghost function State(): (s: Shared)
      reads this, rings, pending
      requires Valid()
      ensures Fits(s, n)
    {
      Shared(cfg, rings[..], pending[..], gateOpen, gateUntil, lastId)
    }

    constructor (n: Size, depth: Size)
      ensures Valid() && this.n == n && this.depth == depth && fresh(rings) && fresh(pending)
      ensures State() == Initial(n)
    {
      this.n, this.depth := n, depth;
      cfg := Config(false, 0, 0, 0, {}, {}, {});
      rings := new seq<Group>[n](_ => []);
      pending := new nat[n](_ => 0);
      gateOpen, gateUntil, lastId := false, 0, 0;
      new;
      assert State() == Initial(n);
    }

    /** Empties every ring, forgets every wake and shuts the gate. */
    method ResetBroadcastBuffers()
      requires Valid()
      modifies this`gateOpen, this`gateUntil, rings, pending
      ensures Valid() && State() == ResetAll(old(State()))
    {
      for ch := 0 to n
        invariant rings[..] == RingsCleared(old(rings[..]), ch)
        invariant pending[..] == PendingCleared(old(pending[..]), ch)
      {
        rings[ch] := [];
        pending[ch] := 0;
      }
      gateOpen := false;
      gateUntil := 0;
    }

    /** A configuration command is carried out whole, or refused without effect. */
    method HandleBroadcastConfig(payload: seq<byte>) returns (code: nat)
      requires Valid() && n == CHANNELS && |payload| >= CONFIG_SIZE
      modifies this, rings, pending
      ensures Valid() && rings == old(rings) && pending == old(pending)
      ensures code == 0 <==> ParseConfig(payload).Some?
      ensures State() == if code == 0 then Apply(old(State()), n, depth, Configure(ParseConfig(payload).value)).0
                         else old(State())
    {
      var parsed := ParseConfig(payload);
      if parsed.None? {
        return 1;
      }
      cfg := parsed.value;
      ResetBroadcastBuffers();
      code := 0;
    }

    method SetRxGate(isOpen: bool, now: nat)
      modifies this`gateOpen, this`gateUntil
      ensures gateOpen == isOpen && gateUntil == if isOpen then now + RX_WINDOW_MS else 0
    {
      gateOpen := isOpen;
      gateUntil := if isOpen then now + RX_WINDOW_MS else 0;
    }

    /** Looks at the gate, and shuts it for good once its time is over. */
    method IsRxGateOpen(now: nat) returns (isOpen: bool)
      requires Valid()
      modifies this`gateOpen, this`gateUntil
      ensures isOpen == GateAdmits(old(State()), now)
      ensures State() == if isOpen then old(State()) else old(State()).(gateOpen := false, gateUntil := 0)
    {
      isOpen := gateOpen && now <= gateUntil;
      if !isOpen {
        gateOpen := false;
        gateUntil := 0;
      }
    }

    method NextBroadcastGroupId() returns (id: nat)
      modifies this`lastId
      ensures id == lastId == NextId(old(lastId))
    {
      lastId := if lastId == 0xFFFFFFFF then 1 else lastId + 1;
      id := lastId;
    }

    /** Chooses whom to wake, and moves the polling position or the alternating group on. */
    method SelectMaskOnPps() returns (mask: set<nat>)
      modifies this`cfg
      ensures (mask, cfg) == Select(old(cfg), n)
    {
      mask := {};
      if !cfg.enabled {
        return;
      }
      if cfg.mode == SIMULTANEOUS {
        mask := cfg.active;
      } else if cfg.mode == POLLING {
        var active, next := cfg.active, cfg.pollNext;
        for step := 0 to n
          invariant mask == {} && cfg == old(cfg)
          invariant PollFrom(active, next, n, 0) == PollFrom(active, next, n, step)
        {
          var ch := (next + step) % n;
          if ch in active {
            mask := {ch};
            cfg := cfg.(pollNext := (ch + 1) % n);
            return;
          }
        }
      } else if cfg.mode == AB_ALTERNATE {
        if cfg.currentGroup == 0 {
          mask := cfg.groupA;
          cfg := cfg.(currentGroup := 1);
        } else {
          mask := cfg.groupB;
          cfg := cfg.(currentGroup := 0);
        }
      }
    }

    /** Adds a wake to every channel of `mask`. */
    method NotifyChannels(mask: set<nat>)
      requires Valid()
      modifies pending
      ensures pending[..] == Notified(old(pending[..]), mask, n)
    {
      for ch := 0 to n
        invariant pending[..] == Notified(old(pending[..]), mask, ch)
      {
        if ch !in mask {
          continue;
        }
        pending[ch] := (pending[ch] + 1) % U32;
      }
    }

    method ProcessPps(now: nat)
      requires Valid()
      modifies this`gateOpen, this`gateUntil, this`cfg, pending
      ensures Valid() && State() == Apply(old(State()), n, depth, Pps(now)).0
    {
      hide Select;
      SetRxGate(true, now);
      var mask := SelectMaskOnPps();
      if mask != {} {
        NotifyChannels(mask);
      }
      assert pending[..] == Notified(old(pending[..]), mask, n);
    }

    /** The ring's own put: room for one more, or nothing. */
    method PutGroup(ch: nat, g: Group) returns (count: nat)
      requires Valid() && ch < n
      modifies rings
      ensures count == if |old(rings[ch])| < depth then 1 else 0
      ensures rings[..] == if count == 1 then old(rings[..])[ch := old(rings[ch]) + [g]] else old(rings[..])
    {
      if |rings[ch]| >= depth {
        return 0;
      }
      rings[ch] := rings[ch] + [g];
      count := 1;
    }

    /** Queues one to 128 frames as one group, or leaves every ring as it was. */
    method EnqueueGroup(ch: nat, frames: seq<seq<byte>>, valid: set<nat>, now: nat) returns (a: Outcome)
      requires Valid() && forall i :: 0 <= i < |frames| ==> |frames[i]| == FRAME_SIZE
      modifies this`gateOpen, this`gateUntil, this`lastId, rings
      ensures Valid()
      ensures if |frames| == 0 || |frames| > Downloads.MAX_FRAMES_PER_GROUP || ch !in valid
              then State() == old(State()) && a == Refused
              else (State(), a) == Apply(old(State()), n, depth, Enqueue(ch, ToCanFrames(frames), now))
      ensures a.Accepted? ==> GroupCarries(a.group, frames)
    {
      hide GroupCarries;
      if |frames| == 0 || |frames| > Downloads.MAX_FRAMES_PER_GROUP {
        return Refused;
      }
      if ch >= n || ch !in valid {
        return Refused;
      }
      var isOpen := IsRxGateOpen(now);
      if !isOpen {
        return GateClosed;
      }
      if |rings[ch]| >= depth {
        return RingFull;
      }
      var id := NextBroadcastGroupId();
      var converted: seq<CanFrame> := [];
      for i := 0 to |frames|
        invariant converted == ToCanFrames(frames)[..i]
      {
        converted := converted + [ToCanFrame(frames[i])];
      }
      assert converted == ToCanFrames(frames);
      var count := PutGroup(ch, Group(id, converted));
      ConvertedCarries(id, frames);
      a := if count == 1 then Accepted(Group(id, converted)) else RingFull;
    }

    /** Uses up a wake, and takes the oldest group with it if the channel is open. */
    method TakeGroup(ch: nat, isOpen: bool) returns (a: Outcome)
      requires Valid()
      modifies rings, pending
      ensures Valid() && (State(), a) == Apply(old(State()), n, depth, Claim(ch, isOpen))
    {
      if ch >= n {
        return Refused;
      }
      a := NoWake;
      if pending[ch] != 0 {
        pending[ch] := pending[ch] - 1;
        a := Discarded;
        if isOpen && rings[ch] != [] {
          a := Delivered(rings[ch][0]);
          rings[ch] := rings[ch][1..];
        }
      }
    }

    /** What becomes of a payload of whole frames: a well-formed broadcast group enters one ring whole and
        in order, or not at all, and nothing else in any ring changes. */
    method ProcessPayloadFrames(payload: seq<byte>, channel: nat, valid: set<nat>, now: nat) returns (a: Outcome)
      requires Valid() && n == Downloads.AXICAN_MAX && |payload| % FRAME_SIZE == 0
      modifies this`gateOpen, this`gateUntil, this`lastId, rings
      ensures Valid()
      ensures a.Accepted? ==>
                && channel < n && 0 < |a.group.frames| <= Downloads.MAX_FRAMES_PER_GROUP
                && a.group.frames == ToCanFrames(Downloads.Frames(payload)) && GroupCarries(a.group, Downloads.Frames(payload))
                && rings[..] == old(rings[..])[channel := old(rings[..])[channel] + [a.group]]
      ensures !a.Accepted? ==> rings[..] == old(rings[..]) && lastId == old(lastId)
      ensures a.Accepted? <==>
                && Downloads.FramePayload(payload, channel, valid).Broadcast? && channel in valid
                && GateAdmits(old(State()), now) && |old(rings[..])[channel]| < depth
    {
      a := Refused;
      hide FrameValid, Downloads.Frames, GroupCarries;
      match Downloads.FramePayload(payload, channel, valid) {
        case Broadcast(ch, frames) =>
          a := EnqueueGroup(ch, frames, valid, now);
        case _ =>
      }
    }
  }
}
