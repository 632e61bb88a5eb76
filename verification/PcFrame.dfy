/** The 48-byte frame in which the PC hands over one CAN frame. */
module PcFrame {
  import opened Bytes
  import opened Checksum

  const PC_STATUS_HEAD: bv32 := 0x499602D2
  const FRAME_SIZE: nat := 48

  lemma HeadWord()
    ensures FirstWord([0xD2, 0x02, 0x96, 0x49]) == PC_STATUS_HEAD
  {
  }

  function FrameType(f: seq<byte>): byte
    requires |f| == FRAME_SIZE
  {
    f[5]
  }

  function FrameChannel(f: seq<byte>): nat
    requires |f| == FRAME_SIZE
  {
    f[7] as nat
  }

  /** How many packets the group of this frame has, a 16-bit field. */
  function PacketCount(f: seq<byte>): nat
    requires |f| == FRAME_SIZE
  {
    LittleEndian16(f[32..34])
  }

  /** Which packet of its group this frame is, a 16-bit field. */
  function PacketNumber(f: seq<byte>): nat
    requires |f| == FRAME_SIZE
  {
    LittleEndian16(f[34..36])
  }

  /** A frame that carries its own length and checksum. */
  predicate FrameValid(f: seq<byte>) {
    && |f| == FRAME_SIZE
    && FirstWord(f[..4]) == PC_STATUS_HEAD
    && f[6] as nat == FRAME_SIZE
    && FirstWord(f[44..48]) == WordSum(f[..44])
  }

  /** What validity means, said without words or checksum fields: length, the four head bytes, the length
      byte, and a total XOR of zero. */
  lemma FrameValidIff(f: seq<byte>)
    ensures FrameValid(f) <==>
            |f| == 48 && f[..4] == [0xD2, 0x02, 0x96, 0x49] && f[6] == 48 && WordSum(f) == 0
  {
    hide Load, WordSum;
    if |f| == 48 {
      HeadWord();
      if f[..4] != [0xD2, 0x02, 0x96, 0x49] {
        FirstWordsDiffer(f[..4], [0xD2, 0x02, 0x96, 0x49]);
      }
      assert f[..44] + f[44..48] == f;
      TrailerMatchesIffZero(f[..44], f[44..48]);
    }
  }

  /** Damage inside one aligned word of a valid frame makes it invalid. */
  lemma DamagedFrameIsInvalid(pre: seq<byte>, a: seq<byte>, b: seq<byte>, post: seq<byte>)
    requires FrameValid(pre + a + post) && |pre| % 4 == 0 && |a| == |b| == 4 && a != b
    ensures !FrameValid(pre + b + post)
  {
    hide FrameValid, WordSum;
    FrameValidIff(pre + a + post);
    FrameValidIff(pre + b + post);
    OneWordDamageDetected(pre, a, b, post);
  }

  // ---------- the sender's side ----------

  /** The fields of a frame; byte sequences are in the order in which they are sent. */
  datatype Fields = Fields(kind: byte, channel: nat, counts: seq<byte>, id: seq<byte>, dlc: seq<byte>,
                           word1: seq<byte>, word2: seq<byte>, count: nat, number: nat, timestamp: seq<byte>)

  predicate FieldsFit(x: Fields) {
    && x.channel < 0x100 && x.count < 0x1_0000 && x.number < 0x1_0000
    && |x.counts| == |x.timestamp| == 8 && |x.id| == |x.dlc| == |x.word1| == |x.word2| == 4
  }

  function BuiltBody(x: Fields): (f: seq<byte>)
    requires FieldsFit(x)
    ensures |f| == 44
  {
    [0xD2, 0x02, 0x96, 0x49, 0, x.kind, 48, ToByte(x.channel)] + x.counts + x.id + x.dlc + x.word1 + x.word2
    + [ToByte(x.count % 0x100), ToByte(x.count / 0x100), ToByte(x.number % 0x100), ToByte(x.number / 0x100)] + x.timestamp
  }

  /** A frame as the PC builds it. */
  function Built(x: Fields): (f: seq<byte>)
    ensures FieldsFit(x) ==> |f| == FRAME_SIZE
  {
    if FieldsFit(x) then BuiltBody(x) + Stored(BuiltBody(x)) else []
  }

  /** Where the fields lie in a body. */
  lemma BodySlices(x: Fields)
    requires FieldsFit(x)
    ensures var b := BuiltBody(x);
            && b[..4] == [0xD2, 0x02, 0x96, 0x49] && b[5] == x.kind && b[6] == 48 && b[7] as nat == x.channel
            && b[16..20] == x.id && b[20..24] == x.dlc && b[24..28] == x.word1 && b[28..32] == x.word2
            && b[32..34] == [ToByte(x.count % 0x100), ToByte(x.count / 0x100)]
            && b[34..36] == [ToByte(x.number % 0x100), ToByte(x.number / 0x100)] && b[36..44] == x.timestamp
  {
  }

  lemma SameSlice(body: seq<byte>, f: seq<byte>, i: nat, j: nat)
    requires i <= j <= |body| && body <= f
    ensures f[i..j] == body[i..j]
  {
  }

  /** Such a frame is valid, and its fields are read back as they were put in. */
  lemma BuiltFields(x: Fields)
    requires FieldsFit(x)
    ensures var f := Built(x);
            && FrameValid(f) && FrameType(f) == x.kind && FrameChannel(f) == x.channel
            && PacketNumber(f) == x.number && PacketCount(f) == x.count
            && f[16..20] == x.id && f[20..24] == x.dlc && f[24..28] == x.word1 && f[28..32] == x.word2 && f[36..44] == x.timestamp
  {
    hide Load, WordSum, LaneSum, BuiltBody, LittleEndian16;
    var body, f := BuiltBody(x), Built(x);
    BodySlices(x);
    assert f[..44] == body && f[44..48] == Stored(body);
    assert body <= f;
    StoredIsSum(body);
    HeadWord();
    SameSlice(body, f, 0, 4);
    SameSlice(body, f, 16, 20);
    SameSlice(body, f, 20, 24);
    SameSlice(body, f, 24, 28);
    SameSlice(body, f, 28, 32);
    SameSlice(body, f, 32, 34);
    SameSlice(body, f, 34, 36);
    SameSlice(body, f, 36, 44);
    TwoBytes(x.count);
    TwoBytes(x.number);
  }

  lemma TwoBytes(n: nat)
    requires n < 0x1_0000
    ensures LittleEndian16([ToByte(n % 0x100), ToByte(n / 0x100)]) == n
  {
  }

  function ZeroBytes(n: nat): (z: seq<byte>)
    ensures |z| == n
  {
    seq(n, _ => 0)
  }

  /** A normal frame of packet `number` out of `count`, data all zero. */
  function Packet(channel: nat, number: nat, count: nat): (f: seq<byte>)
    requires channel < 0x100 && number < 0x1_0000 && count < 0x1_0000
    ensures |f| == FRAME_SIZE
  {
    Built(Fields(1, channel, ZeroBytes(8), ZeroBytes(4), ZeroBytes(4), ZeroBytes(4), ZeroBytes(4), count, number, ZeroBytes(8)))
  }

  lemma PacketFields(channel: nat, number: nat, count: nat)
    requires channel < 0x100 && number < 0x1_0000 && count < 0x1_0000
    ensures var f := Packet(channel, number, count);
            && FrameValid(f) && FrameType(f) == 1 && FrameChannel(f) == channel
            && PacketNumber(f) == number && PacketCount(f) == count && FirstWord(f[..4]) == PC_STATUS_HEAD
  {
    hide Built;
    BuiltFields(Fields(1, channel, ZeroBytes(8), ZeroBytes(4), ZeroBytes(4), ZeroBytes(4), ZeroBytes(4), count, number, ZeroBytes(8)));
  }
}
