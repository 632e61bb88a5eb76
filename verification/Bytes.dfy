/** Bytes as they travel on the wire, and the integer fields read from them. */
module Bytes {

  type byte = bv8

  /** The 32-bit value of a field that the peer sends most significant byte first. */
  function BigEndian32(b: seq<byte>): (n: nat)
    requires |b| == 4
    ensures n < 0x1_0000_0000
  {
    (b[0] as nat) * 0x100_0000 + (b[1] as nat) * 0x1_0000 + (b[2] as nat) * 0x100 + (b[3] as nat)
  }

  function BigEndian16(b: seq<byte>): (n: nat)
    requires |b| == 2
    ensures n < 0x1_0000
  {
    (b[0] as nat) * 0x100 + (b[1] as nat)
  }

  /** Fields that are sent least significant byte first. */
  function LittleEndian16(b: seq<byte>): (n: nat)
    requires |b| == 2
    ensures n < 0x1_0000
  {
    (b[0] as nat) + (b[1] as nat) * 0x100
  }

  function LittleEndian32(b: seq<byte>): (n: nat)
    requires |b| == 4
    ensures n < 0x1_0000_0000
  {
    BigEndian32([b[3], b[2], b[1], b[0]])
  }

  function ToByte(n: nat): (b: byte)
    requires n < 0x100
    ensures b as nat == n
  {
    assert n % 0x100 == n;
    n as byte
  }

  lemma Digits(n: nat)
    requires n < 0x1_0000_0000
    ensures n / 0x100_0000 < 0x100
    ensures n == n / 0x100_0000 * 0x100_0000 + n / 0x1_0000 % 0x100 * 0x1_0000 + n / 0x100 % 0x100 * 0x100 + n % 0x100
  {
    var a, b := n / 0x100, n / 0x1_0000;
    assert b == a / 0x100 && n / 0x100_0000 == b / 0x100;
  }

  function Put32(n: nat): (b: seq<byte>)
    requires n < 0x1_0000_0000
    ensures |b| == 4 && BigEndian32(b) == n
  {
    Digits(n);
    [ToByte(n / 0x100_0000), ToByte(n / 0x1_0000 % 0x100), ToByte(n / 0x100 % 0x100), ToByte(n % 0x100)]
  }

  function Put16(n: nat): (b: seq<byte>)
    requires n < 0x1_0000
    ensures |b| == 2 && BigEndian16(b) == n
  {
    [ToByte(n / 0x100), ToByte(n % 0x100)]
  }
}
