/** The header layout shared by the command port and the download port. */
module Headers {
  import opened Bytes
  import opened Checksum
  import opened Framing

  /** Bytes 0-3 synchronisation word, 4-7 payload length, 8-9 counter, 10-11 command, 12-15 the XOR
      of the three words before it. Longer headers carry further fields the checksum ignores. */
  const CHECKED: nat := 12

  predicate SyncMatches(sync: nat, h: seq<byte>) {
    |h| >= 16 && BigEndian32(h[..4]) == sync
  }

  predicate SumMatches(h: seq<byte>) {
    |h| >= 16 && FirstWord(h[12..16]) == WordSum(h[..CHECKED])
  }

  function PayloadLength(h: seq<byte>): nat {
    if |h| >= 16 then BigEndian32(h[4..8]) else 0
  }

  /** A header field is the same in the header and in the buffer that starts with it. */
  lemma FieldsOfPrefix(buffer: seq<byte>, headerLen: nat, sync: nat)
    requires 16 <= headerLen <= |buffer|
    ensures PayloadLength(buffer[..headerLen]) == PayloadLength(buffer)
    ensures SyncMatches(sync, buffer[..headerLen]) == SyncMatches(sync, buffer)
    ensures SumMatches(buffer[..headerLen]) == SumMatches(buffer)
  {
    hide BigEndian32, FirstWord, WordSum;
    var h := buffer[..headerLen];
    assert h[..4] == buffer[..4] && h[4..8] == buffer[4..8] && h[..12] == buffer[..12] && h[12..16] == buffer[12..16];
  }

  function PacketFormat(sync: nat, headerLen: nat, maxTotal: nat): Format {
    Format(headerLen, maxTotal,
           h => SyncMatches(sync, h) && SumMatches(h) && headerLen + PayloadLength(h) <= maxTotal,
           h => headerLen + PayloadLength(h))
  }

  /** The scan's verdict on a buffer, read off the buffer itself. */
  lemma JudgeByFields(sync: nat, headerLen: nat, maxTotal: nat, buffer: seq<byte>)
    requires 16 <= headerLen <= maxTotal
    ensures Judge(PacketFormat(sync, headerLen, maxTotal), buffer) ==
            if |buffer| < headerLen then Wait
            else if !SyncMatches(sync, buffer) || !SumMatches(buffer) then Reject
            else if headerLen + PayloadLength(buffer) > maxTotal then Reject
            else if headerLen + PayloadLength(buffer) > |buffer| then Wait
            else Take(headerLen + PayloadLength(buffer))
  {
    hide SyncMatches, SumMatches, PayloadLength;
    if |buffer| >= headerLen {
      FieldsOfPrefix(buffer, headerLen, sync);
    }
  }

  lemma PacketFormatWellFormed(sync: nat, headerLen: nat, maxTotal: nat)
    requires 16 <= headerLen <= maxTotal
    ensures WellFormed(PacketFormat(sync, headerLen, maxTotal))
  {
  }

  /** The sum of the three checked words as the command parser computes it. */
  function ThreeWordSum(h: seq<byte>): bv32
    requires |h| >= 16
  {
    Xor32(Xor32(FirstWord(h[..4]), FirstWord(h[4..8])), FirstWord(h[8..12]))
  }

  /** The command parser adds up the three checked words by hand, the download parser by the
      checksum routine; both test the same thing. */
  lemma ThreeWords(h: seq<byte>)
    requires |h| >= 16
    ensures FirstWord(h[12..16]) == ThreeWordSum(h) <==> SumMatches(h)
  {
    hide Load, Xor32;
    var s := h[..12];
    assert AfterWord(s) == h[4..12] && AfterWord(h[4..12]) == h[8..12];
    SameWord(s, h[..4]);
    SameWord(h[4..12], h[4..8]);
    ShortSum(h[8..12]);
    assert WordSum(h[4..12]) == Xor32(FirstWord(h[4..8]), WordSum(h[8..12]));
    assert WordSum(s) == Xor32(FirstWord(h[..4]), WordSum(h[4..12]));
    XorAssociates(FirstWord(h[..4]), FirstWord(h[4..8]), FirstWord(h[8..12]));
  }

  lemma SameWord(s: seq<byte>, t: seq<byte>)
    requires |s| >= 4 && |t| >= 4 && s[..4] == t[..4]
    ensures FirstWord(s) == FirstWord(t)
  {
    hide Load;
    assert forall k :: 0 <= k < 4 ==> At(s, k) == s[..4][k] == At(t, k);
  }

  // ---------- packets as they lie on the wire ----------

  function Value(b: byte): nat {
    b as nat
  }

  /** Byte for byte: the synchronisation word `first` CC F0 FF, the payload length with its most significant
      byte first, and a checksum each byte of which is the XOR of the three bytes above it. */
  predicate OnTheWire(first: byte, headerLen: nat, p: seq<byte>) {
    && |p| >= headerLen >= 16
    && p[0] == first && p[1] == 0xCC && p[2] == 0xF0 && p[3] == 0xFF
    && |p| - headerLen == StatedLength(p)
    && SumStands(p)
  }

  function StatedLength(p: seq<byte>): nat
    requires |p| >= 16
  {
    Value(p[4]) * 16777216 + Value(p[5]) * 65536 + Value(p[6]) * 256 + Value(p[7])
  }

  predicate SumStands(p: seq<byte>)
    requires |p| >= 16
  {
    && p[12] == p[0] ^ p[4] ^ p[8] && p[13] == p[1] ^ p[5] ^ p[9]
    && p[14] == p[2] ^ p[6] ^ p[10] && p[15] == p[3] ^ p[7] ^ p[11]
  }

  lemma WordDigits(b: seq<byte>, first: byte)
    requires |b| == 4
    ensures BigEndian32(b) == Value(first) * 16777216 + 0xCCF0FF <==>
            b[0] == first && b[1] == 0xCC && b[2] == 0xF0 && b[3] == 0xFF
  {
    hide BigEndian32, Value;
    FieldDigits(b);
    SameValue(b[0], first);
    SameValue(b[1], 0xCC);
    SameValue(b[2], 0xF0);
    SameValue(b[3], 0xFF);
    TailValues();
    if BigEndian32(b) == Value(first) * 16777216 + 0xCCF0FF {
      SameDigits(Value(b[0]), Value(b[1]), Value(b[2]), Value(b[3]), Value(first), 0xCC, 0xF0, 0xFF);
    }
  }

  lemma FieldDigits(b: seq<byte>)
    requires |b| == 4
    ensures BigEndian32(b) == Value(b[0]) * 16777216 + Value(b[1]) * 65536 + Value(b[2]) * 256 + Value(b[3])
  {
  }

  lemma TailValues()
    ensures Value(0xCC) == 0xCC && Value(0xF0) == 0xF0 && Value(0xFF) == 0xFF
  {
  }

  lemma SameValue(a: byte, b: byte)
    ensures Value(a) < 256 && Value(b) < 256 && (Value(a) == Value(b) <==> a == b)
  {
  }

  lemma SameDigits(a: nat, b: nat, c: nat, d: nat, e: nat, f: nat, g: nat, h: nat)
    requires a < 256 && b < 256 && c < 256 && d < 256 && e < 256 && f < 256 && g < 256 && h < 256
    requires a * 16777216 + b * 65536 + c * 256 + d == e * 16777216 + f * 65536 + g * 256 + h
    ensures a == e && b == f && c == g && d == h
  {
    assert b * 65536 + c * 256 + d < 16777216 && f * 65536 + g * 256 + h < 16777216;
  }

  lemma SumByBytes(h: seq<byte>)
    requires |h| >= 16
    ensures SumMatches(h) <==> SumStands(h)
  {
    hide Load, Xor32, SumMatches;
    ThreeWords(h);
    LoadXor(h[0], h[1], h[2], h[3], h[4], h[5], h[6], h[7]);
    LoadXor(Xor8(h[0], h[4]), Xor8(h[1], h[5]), Xor8(h[2], h[6]), Xor8(h[3], h[7]), h[8], h[9], h[10], h[11]);
    if FirstWord(h[12..16]) == ThreeWordSum(h) {
      LoadInjective(h[12], h[13], h[14], h[15],
                    Xor8(Xor8(h[0], h[4]), h[8]), Xor8(Xor8(h[1], h[5]), h[9]),
                    Xor8(Xor8(h[2], h[6]), h[10]), Xor8(Xor8(h[3], h[7]), h[11]));
    }
  }

  /** The packets of a format are exactly those byte sequences, up to its greatest length. */
  lemma PacketIffOnTheWire(first: byte, headerLen: nat, maxTotal: nat, p: seq<byte>)
    requires 16 <= headerLen <= maxTotal
    ensures IsPacket(PacketFormat(Value(first) * 16777216 + 0xCCF0FF, headerLen, maxTotal), p) <==>
            OnTheWire(first, headerLen, p) && |p| <= maxTotal
  {
    hide BigEndian32, SumMatches, SyncMatches, SumStands, StatedLength;
    var sync := Value(first) * 16777216 + 0xCCF0FF;
    if |p| >= headerLen {
      FieldsOfPrefix(p, headerLen, sync);
      SumByBytes(p);
      WordOnTheWire(sync, first, p);
      LengthOnTheWire(p);
    }
  }

  lemma WordOnTheWire(sync: nat, first: byte, p: seq<byte>)
    requires |p| >= 16 && sync == Value(first) * 16777216 + 0xCCF0FF
    ensures SyncMatches(sync, p) <==> p[0] == first && p[1] == 0xCC && p[2] == 0xF0 && p[3] == 0xFF
  {
    hide BigEndian32, Value;
    WordDigits(p[..4], first);
  }

  lemma LengthOnTheWire(p: seq<byte>)
    requires |p| >= 16
    ensures PayloadLength(p) == StatedLength(p)
  {
    hide BigEndian32, Value;
    FieldDigits(p[4..8]);
  }

  // ---------- the sender's side ----------

  /** A packet as a peer builds it: header fields, their checksum, `extra` header bytes, payload. */
  function MakePacket(sync: nat, counter: nat, command: nat, extra: seq<byte>, payload: seq<byte>): seq<byte>
    requires sync < 0x1_0000_0000 && counter < 0x1_0000 && command < 0x1_0000 && |payload| < 0x1_0000_0000
  {
    var checked := CheckedFields(sync, |payload|, counter, command);
    checked + Stored(checked) + extra + payload
  }

  function CheckedFields(sync: nat, length: nat, counter: nat, command: nat): (b: seq<byte>)
    requires sync < 0x1_0000_0000 && length < 0x1_0000_0000 && counter < 0x1_0000 && command < 0x1_0000
    ensures |b| == 12 && BigEndian32(b[..4]) == sync && BigEndian32(b[4..8]) == length && BigEndian16(b[10..12]) == command
  {
    hide BigEndian32, BigEndian16;
    var b := Put32(sync) + Put32(length) + Put16(counter) + Put16(command);
    assert b[..4] == Put32(sync) && b[4..8] == Put32(length) && b[10..12] == Put16(command);
    b
  }

  lemma MakePacketIsPacket(sync: nat, counter: nat, command: nat, extra: seq<byte>, payload: seq<byte>, maxTotal: nat)
    requires sync < 0x1_0000_0000 && counter < 0x1_0000 && command < 0x1_0000 && |payload| < 0x1_0000_0000
    requires 16 + |extra| + |payload| <= maxTotal
    ensures IsPacket(PacketFormat(sync, 16 + |extra|, maxTotal), MakePacket(sync, counter, command, extra, payload))
    ensures BigEndian16(MakePacket(sync, counter, command, extra, payload)[10..12]) == command
    ensures MakePacket(sync, counter, command, extra, payload)[16 + |extra|..] == payload
  {
    hide Load, Xor32, Xor8, BigEndian32, BigEndian16, WordSum, CheckedFields;
    var checked := CheckedFields(sync, |payload|, counter, command);
    var p := MakePacket(sync, counter, command, extra, payload);
    var h := p[..16 + |extra|];
    assert h[..12] == checked && h[12..16] == Stored(checked);
    assert h[..4] == checked[..4] && h[4..8] == checked[4..8] && p[10..12] == checked[10..12];
    StoredIsSum(checked);
    assert |p| == 16 + |extra| + |payload|;
  }

  /** The additional header bytes stand behind the checksum. */
  lemma MakePacketExtra(sync: nat, counter: nat, command: nat, extra: seq<byte>, payload: seq<byte>)
    requires sync < 0x1_0000_0000 && counter < 0x1_0000 && command < 0x1_0000 && |payload| < 0x1_0000_0000
    ensures var p := MakePacket(sync, counter, command, extra, payload);
            |p| == 16 + |extra| + |payload| && p[16..16 + |extra|] == extra
  {
    hide CheckedFields, Stored;
  }
}
