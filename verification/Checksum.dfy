/** The XOR checksum that guards command headers, download headers and CAN payloads. */
module Checksum {
  import opened Bytes

  /** The 32-bit word the little-endian processor reads from four bytes of memory. */
  function Load(a: byte, b: byte, c: byte, d: byte): bv32 {
    (a as bv32) | ((b as bv32) << 8) | ((c as bv32) << 16) | ((d as bv32) << 24)
  }

  function Xor32(x: bv32, y: bv32): bv32 {
    x ^ y
  }

  function Xor8(x: byte, y: byte): byte {
    x ^ y
  }

  /** Byte `k` of `s`, or the zero padding behind its end. */
  function At(s: seq<byte>, k: nat): byte {
    if k < |s| then s[k] else 0
  }

  /** The word at the front of `s`, padded with zero bytes when fewer than four are left. */
  function FirstWord(s: seq<byte>): bv32 {
    Load(At(s, 0), At(s, 1), At(s, 2), At(s, 3))
  }

  function AfterWord(s: seq<byte>): (t: seq<byte>)
    ensures s != [] ==> |t| < |s|
  {
    if |s| < 4 then [] else s[4..]
  }

  /** XOR of all words of `s`. */
  function WordSum(s: seq<byte>): bv32
    decreases |s|
  {
    if s == [] then 0 else Xor32(FirstWord(s), WordSum(AfterWord(s)))
  }

  /** XOR of the bytes of `s` whose index is `lane` modulo four: no words and no padding. */
  function LaneSum(s: seq<byte>, lane: nat): byte
    requires lane < 4
    decreases |s|
  {
    if |s| <= lane then 0 else Xor8(s[lane], LaneSum(AfterWord(s), lane))
  }

  function Lanes(s: seq<byte>): bv32 {
    Load(LaneSum(s, 0), LaneSum(s, 1), LaneSum(s, 2), LaneSum(s, 3))
  }

  /** The sum of `w` as it lies in memory. */
  function Stored(w: seq<byte>): (b: seq<byte>)
    ensures |b| == 4
  {
    [LaneSum(w, 0), LaneSum(w, 1), LaneSum(w, 2), LaneSum(w, 3)]
  }

  lemma StoredIsSum(w: seq<byte>)
    ensures FirstWord(Stored(w)) == WordSum(w)
  {
    hide Load;
    WordSumIsLaneSums(w);
  }

  lemma LoadXor(a: byte, b: byte, c: byte, d: byte, e: byte, f: byte, g: byte, h: byte)
    ensures Xor32(Load(a, b, c, d), Load(e, f, g, h)) == Load(Xor8(a, e), Xor8(b, f), Xor8(c, g), Xor8(d, h))
  {
  }

  lemma LoadInjective(a: byte, b: byte, c: byte, d: byte, e: byte, f: byte, g: byte, h: byte)
    requires Load(a, b, c, d) == Load(e, f, g, h)
    ensures a == e && b == f && c == g && d == h
  {
  }

  lemma Zeros(x: bv32)
    ensures Xor32(x, 0) == x && Xor32(0, x) == x
    ensures Xor8(0, 0) == 0 && Load(0, 0, 0, 0) == 0
  {
  }

  lemma XorAssociates(x: bv32, y: bv32, z: bv32)
    ensures Xor32(Xor32(x, y), z) == Xor32(x, Xor32(y, z))
  {
  }

  lemma XorEqual(x: bv32, y: bv32)
    ensures Xor32(x, y) == 0 <==> x == y
  {
  }

  lemma XorDistinct(p: bv32, x: bv32, y: bv32, q: bv32)
    requires x != y
    ensures Xor32(p, Xor32(x, q)) != Xor32(p, Xor32(y, q))
  {
  }

  lemma LaneStep(s: seq<byte>, lane: nat)
    requires lane < 4
    ensures LaneSum(s, lane) == Xor8(At(s, lane), LaneSum(AfterWord(s), lane))
  {
  }

  /** The word-wise sum, stored back to memory, is the four lane sums. */
  lemma {:induction false} WordSumIsLaneSums(s: seq<byte>)
    ensures WordSum(s) == Lanes(s)
    decreases |s|
  {
    hide Load, Xor32, Xor8;
    Zeros(0);
    if s != [] {
      var t := AfterWord(s);
      WordSumIsLaneSums(t);
      LaneStep(s, 0);
      LaneStep(s, 1);
      LaneStep(s, 2);
      LaneStep(s, 3);
      LoadXor(At(s, 0), At(s, 1), At(s, 2), At(s, 3),
              LaneSum(t, 0), LaneSum(t, 1), LaneSum(t, 2), LaneSum(t, 3));
    }
  }

  lemma EmptySum()
    ensures WordSum([]) == 0 && FirstWord([]) == 0
  {
    Zeros(0);
  }

  /** The empty and the one-word buffer. */
  lemma ShortSum(s: seq<byte>)
    requires |s| <= 4
    ensures WordSum(s) == FirstWord(s)
  {
    hide Load, Xor32;
    Zeros(FirstWord(s));
  }

  lemma {:induction false} WordSumAppend(s: seq<byte>, t: seq<byte>)
    requires |s| % 4 == 0
    ensures WordSum(s + t) == Xor32(WordSum(s), WordSum(t))
    decreases |s|
  {
    hide Load, Xor32;
    if s == [] {
      assert s + t == t;
      Zeros(WordSum(t));
    } else {
      assert AfterWord(s + t) == s[4..] + t;
      assert FirstWord(s + t) == FirstWord(s);
      WordSumAppend(s[4..], t);
      XorAssociates(FirstWord(s), WordSum(s[4..]), WordSum(t));
    }
  }

  lemma WordSumTriple(pre: seq<byte>, a: seq<byte>, post: seq<byte>)
    requires |pre| % 4 == 0 && 0 < |a| <= 4 && (|a| == 4 || post == [])
    ensures WordSum(pre + a + post) == Xor32(WordSum(pre), Xor32(FirstWord(a), WordSum(post)))
  {
    EmptySum();
    hide Load, Xor32, FirstWord, WordSum;
    assert pre + a + post == pre + (a + post);
    WordSumAppend(pre, a + post);
    ShortSum(a);
    if |a| == 4 {
      WordSumAppend(a, post);
    } else {
      assert a + post == a;
      Zeros(FirstWord(a));
    }
  }

  lemma FirstWordsDiffer(a: seq<byte>, b: seq<byte>)
    requires |a| == |b| <= 4 && a != b
    ensures FirstWord(a) != FirstWord(b)
  {
    hide Load;
    if FirstWord(a) == FirstWord(b) {
      LoadInjective(At(a, 0), At(a, 1), At(a, 2), At(a, 3), At(b, 0), At(b, 1), At(b, 2), At(b, 3));
      assert forall k :: 0 <= k < |a| ==> a[k] == At(a, k) == At(b, k) == b[k];
    }
  }

  /** Damage confined to one aligned word is always detected. */
  lemma OneWordDamageDetected(pre: seq<byte>, a: seq<byte>, b: seq<byte>, post: seq<byte>)
    requires |pre| % 4 == 0 && |a| == |b| && 0 < |a| <= 4 && a != b
    requires |a| == 4 || post == []
    ensures WordSum(pre + a + post) != WordSum(pre + b + post)
  {
    hide Load, Xor32;
    WordSumTriple(pre, a, post);
    WordSumTriple(pre, b, post);
    FirstWordsDiffer(a, b);
    XorDistinct(WordSum(pre), FirstWord(a), FirstWord(b), WordSum(post));
  }

  /** A frame that ends in its own checksum is intact exactly when everything XORs to zero. */
  lemma TrailerMatchesIffZero(s: seq<byte>, trailer: seq<byte>)
    requires |s| % 4 == 0 && |trailer| == 4
    ensures FirstWord(trailer) == WordSum(s) <==> WordSum(s + trailer) == 0
  {
    hide Load, Xor32;
    WordSumAppend(s, trailer);
    ShortSum(trailer);
    XorEqual(WordSum(s), FirstWord(trailer));
  }

  lemma SumStep(s: seq<byte>)
    requires s != []
    ensures WordSum(s) == Xor32(FirstWord(s[..if |s| < 4 then |s| else 4]), WordSum(AfterWord(s)))
  {
    hide Load, Xor32;
    assert forall k :: 0 <= k < 4 ==> At(s[..if |s| < 4 then |s| else 4], k) == At(s, k);
  }

  /** Runs the loop of the program: one word at a time, the last one zero padded. The index is an
      unsigned 32-bit counter, so a length above 0xFFFF_FFFC would make it wrap and never end. */
  method CalculateXorChecksum(data: seq<byte>) returns (res: bv32)
    requires |data| <= 0xFFFF_FFFC
    ensures res == Lanes(data)
  {
    hide Load, Xor32, FirstWord, WordSum, Lanes;
    res := 0;
    var i := 0;
    ghost var left := data;
    Zeros(WordSum(data));
    while i < |data|
      invariant 0 <= i <= 0xFFFF_FFFC && i % 4 == 0
      invariant left == if i < |data| then data[i..] else []
      invariant WordSum(data) == Xor32(res, WordSum(left))
      decreases |data| - i
    {
      var remaining := |data| - i;
      var word := FirstWord(data[i..i + if remaining < 4 then remaining else 4]);
      assert left[..if remaining < 4 then remaining else 4] == data[i..i + if remaining < 4 then remaining else 4];
      SumStep(left);
      XorAssociates(res, word, WordSum(AfterWord(left)));
      left := AfterWord(left);
      res := Xor32(res, word);
      i := (i + 4) % 0x1_0000_0000;
    }
    Zeros(res);
    EmptySum();
    WordSumIsLaneSums(data);
  }
}
