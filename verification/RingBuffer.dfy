/** The ring buffer: free-running 32-bit counters, a power-of-two mask, byte-wise copies that may wrap. */
module RingBuffer {
  import opened Basics
  import opened Bytes
  import opened BitMath

  // ---------- copies into and out of a circle of bytes ----------

  function Wrap(x: nat, total: nat): nat {
    if x < total then x else x - total
  }

  /** How far `p` lies behind `o` when going round forwards. */
  function Distance(o: nat, p: nat, total: nat): nat
    requires o < total && p < total
  {
    if p >= o then p - o else p + total - o
  }

  /** The circle `d` after `src` has been written from position `o` on. */
  function Stored(d: seq<byte>, o: nat, src: seq<byte>): (r: seq<byte>)
    requires o < |d| && |src| <= |d|
    ensures |r| == |d|
  {
    seq(|d|, b requires 0 <= b < |d| =>
      if Distance(o, b, |d|) < |src| then src[Distance(o, b, |d|)] else d[b])
  }

  /** The `n` bytes of the circle `d` from position `o` on. */
  function Loaded(d: seq<byte>, o: nat, n: nat): (r: seq<byte>)
    requires o < |d| && n <= |d|
    ensures |r| == n
  {
    seq(n, i requires 0 <= i < n => d[Wrap(o + i, |d|)])
  }

  /** Any stretch of what was written is read back. */
  lemma LoadInside(d: seq<byte>, o: nat, src: seq<byte>, m: nat, n: nat)
    requires o < |d| && |src| <= |d| && m + n <= |src| && m < |d|
    ensures Loaded(Stored(d, o, src), Wrap(o + m, |d|), n) == src[m..m + n]
  {
    var p, r := Wrap(o + m, |d|), Stored(d, o, src);
    forall i | 0 <= i < n
      ensures Loaded(r, p, n)[i] == src[m..m + n][i]
    {
      assert Distance(o, Wrap(p + i, |d|), |d|) == m + i;
    }
  }

  /** Bytes outside the written stretch keep their values. */
  lemma LoadOutside(d: seq<byte>, o: nat, src: seq<byte>, p: nat, n: nat)
    requires o < |d| && p < |d| && |src| <= Distance(o, p, |d|) && Distance(o, p, |d|) + n <= |d|
    ensures Loaded(Stored(d, o, src), p, n) == Loaded(d, p, n)
  {
    var r := Stored(d, o, src);
    forall i | 0 <= i < n
      ensures Loaded(r, p, n)[i] == Loaded(d, p, n)[i]
    {
      assert Distance(o, Wrap(p + i, |d|), |d|) == Distance(o, p, |d|) + i;
    }
  }

  // ---------- elements ----------

  predicate Geometry(d: seq<byte>, esize: nat, cap: nat) {
    esize > 0 && cap > 0 && |d| == cap * esize
  }

  lemma SlotFits(d: seq<byte>, esize: nat, cap: nat, j: nat)
    requires Geometry(d, esize, cap) && j < cap
    ensures 0 <= j * esize && j * esize + esize <= |d|
  {
    MulMono(esize, j + 1, cap);
    MulDist(esize, j, 1);
  }

  function Slot(d: seq<byte>, esize: nat, cap: nat, j: nat): (e: seq<byte>)
    requires Geometry(d, esize, cap) && j < cap
    ensures |e| == esize
  {
    SlotFits(d, esize, cap, j);
    Loaded(d, j * esize, esize)
  }

  lemma SlotIsSlice(d: seq<byte>, esize: nat, cap: nat, j: nat)
    requires Geometry(d, esize, cap) && j < cap
    ensures 0 <= j * esize && j * esize + esize <= |d|
    ensures Slot(d, esize, cap, j) == d[j * esize..j * esize + esize]
  {
    SlotFits(d, esize, cap, j);
    var o := j * esize;
    forall i | 0 <= i < esize
      ensures Slot(d, esize, cap, j)[i] == d[o..o + esize][i]
    {
      assert Wrap(o + i, |d|) == o + i;
    }
  }

  /** Writing one element changes its own slot and no other. */
  lemma StoreOne(d: seq<byte>, esize: nat, cap: nat, j: nat, x: seq<byte>, q: nat)
    requires Geometry(d, esize, cap) && j < cap && q < cap && |x| == esize
    ensures j * esize < |d| && |x| <= |d|
    ensures Slot(Stored(d, j * esize, x), esize, cap, q) == if q == j then x else Slot(d, esize, cap, q)
  {
    SlotFits(d, esize, cap, j);
    SlotFits(d, esize, cap, q);
    if q == j {
      LoadInside(d, j * esize, x, 0, esize);
      assert x[0..esize] == x;
    } else {
      Apart(esize, cap, j, q);
      LoadOutside(d, j * esize, x, q * esize, esize);
    }
  }

  lemma Below(esize: nat, a: nat, b: nat)
    requires a < b
    ensures 0 <= a * esize && a * esize + esize <= b * esize
  {
    MulMono(esize, a + 1, b);
    MulDist(esize, a, 1);
  }

  lemma Apart(esize: nat, cap: nat, j: nat, q: nat)
    requires esize > 0 && j < cap && q < cap && j != q
    ensures j * esize < cap * esize && q * esize < cap * esize
    ensures esize <= Distance(j * esize, q * esize, cap * esize) <= cap * esize - esize
  {
    Below(esize, j, cap);
    Below(esize, q, cap);
    if j < q {
      Below(esize, j, q);
    } else {
      Below(esize, q, j);
    }
  }

  /** Going `k` elements on from an element position is the same on bytes as on elements. */
  lemma WrapSlots(esize: nat, cap: nat, off: nat, k: nat)
    requires esize > 0 && k < cap
    ensures off % cap * esize + k * esize >= 0
    ensures (off + k) % cap * esize == Wrap(off % cap * esize + k * esize, cap * esize)
  {
    var j := off % cap;
    Split(off, cap);
    MulDist(esize, j, k);
    if j + k < cap {
      ModUnique(off + k, cap, off / cap, j + k);
      Below(esize, j + k, cap);
    } else {
      MulDist(cap, off / cap, 1);
      ModUnique(off + k, cap, off / cap + 1, j + k - cap);
      MulDist(esize, j + k, cap);
      MulMono(esize, cap, j + k);
    }
  }

  /** A copy of several elements is a store of each of them at its position modulo the capacity. */
  lemma StoreMany(d: seq<byte>, esize: nat, cap: nat, off: nat, src: seq<byte>, len: nat, k: nat)
    requires Geometry(d, esize, cap) && len <= cap && |src| == len * esize && k < len
    ensures off % cap * esize < |d| && |src| <= |d|
    ensures 0 <= k * esize && k * esize + esize <= |src|
    ensures Slot(Stored(d, off % cap * esize, src), esize, cap, (off + k) % cap) == src[k * esize..k * esize + esize]
  {
    hide Stored, Loaded, Wrap;
    SlotFits(d, esize, cap, off % cap);
    MulMono(esize, len, cap);
    Below(esize, k, len);
    Below(esize, k, cap);
    WrapSlots(esize, cap, off, k);
    LoadInside(d, off % cap * esize, src, k * esize, esize);
  }

  /** Two segments, the second one at the start of the circle, make up a store ... */
  lemma TwoSegmentsStored(d: seq<byte>, o: nat, src: seq<byte>, first: nat, r: seq<byte>)
    requires o < |d| && |src| <= |d| == |r|
    requires first == if |src| < |d| - o then |src| else |d| - o
    requires forall i :: 0 <= i < first ==> r[o + i] == src[i]
    requires forall i :: 0 <= i < |src| - first ==> r[i] == src[first + i]
    requires forall b :: |src| - first <= b < |d| && !(o <= b < o + first) ==> r[b] == d[b]
    ensures r == Stored(d, o, src)
  {
    forall b | 0 <= b < |d|
      ensures r[b] == Stored(d, o, src)[b]
    {
      if o <= b < o + first {
        assert r[o + (b - o)] == src[b - o];
      } else if b < |src| - first {
        assert r[b] == src[first + b];
      }
    }
  }

  /** ... and a load. */
  lemma TwoSegmentsLoaded(d: seq<byte>, o: nat, n: nat, first: nat)
    requires o < |d| && n <= |d|
    requires first == if n < |d| - o then n else |d| - o
    ensures d[o..o + first] + d[..n - first] == Loaded(d, o, n)
  {
    var a, b := d[o..o + first], d[..n - first];
    assert |a + b| == n;
    forall i | 0 <= i < n
      ensures (a + b)[i] == d[Wrap(o + i, |d|)]
    {
      assert (a + b)[i] == if i < first then a[i] else b[i - first];
    }
  }

  // ---------- the counters ----------

  /** The difference of two 32-bit counters. */
  function CountBetween(inn: nat, out: nat): nat {
    (inn - out) % U32
  }

  /** The queue a ring stands for. */
  function Queue(d: seq<byte>, esize: nat, cap: nat, inn: nat, out: nat): (q: seq<seq<byte>>)
    requires Geometry(d, esize, cap)
    ensures |q| == CountBetween(inn, out)
  {
    seq(CountBetween(inn, out), i requires 0 <= i < CountBetween(inn, out) => Slot(d, esize, cap, (out + i) % cap))
  }

  predicate Counters(cap: nat, inn: nat, out: nat) {
    inn < U32 && out < U32 && CountBetween(inn, out) <= cap
  }

  ghost predicate Capacity(cap: nat) {
    exists k: nat :: k < 32 && cap == Pow2(k)
  }

  lemma CapacityBound(cap: nat)
    requires Capacity(cap)
    ensures 0 < cap < U32
  {
    var k: nat :| k < 32 && cap == Pow2(k);
    Pow2Monotone(k, 31);
    Powers();
    assert Pow2(32) == 2 * Pow2(31);
  }

  lemma MaskIsMod(off: nat, cap: nat)
    requires Capacity(cap)
    ensures And(off, cap - 1) == off % cap
  {
    var k: nat :| k < 32 && cap == Pow2(k);
    AndMask(off, k);
  }

  lemma CountAdd(inn: nat, out: nat, a: nat)
    requires inn < U32 && out < U32 && CountBetween(inn, out) + a < U32
    ensures CountBetween((inn + a) % U32, out) == CountBetween(inn, out) + a
  {
  }

  lemma CountDrop(inn: nat, out: nat, a: nat)
    requires inn < U32 && out < U32 && a <= CountBetween(inn, out)
    ensures CountBetween(inn, (out + a) % U32) == CountBetween(inn, out) - a
  {
  }

  /** The write counter points `count` slots behind the read counter even after either has wrapped. */
  lemma InPosition(cap: nat, inn: nat, out: nat)
    requires Capacity(cap) && inn < U32 && out < U32
    ensures inn % cap == (out + CountBetween(inn, out)) % cap
  {
    var k: nat :| k < 32 && cap == Pow2(k);
    Powers();
    var x := out + CountBetween(inn, out);
    assert x % U32 == inn;
    ModOfMod(x, k, 32);
  }

  /** Storing at the write counter and advancing it appends to the queue. */
  lemma PutAppends(d: seq<byte>, esize: nat, cap: nat, inn: nat, out: nat, x: seq<byte>)
    requires Geometry(d, esize, cap) && Capacity(cap) && Counters(cap, inn, out)
    requires CountBetween(inn, out) < cap && |x| == esize
    ensures inn % cap * esize < |d| && |x| <= |d| && Counters(cap, (inn + 1) % U32, out)
    ensures Queue(Stored(d, inn % cap * esize, x), esize, cap, (inn + 1) % U32, out) ==
            Queue(d, esize, cap, inn, out) + [x]
  {
    hide Stored, Slot;
    var n, j := CountBetween(inn, out), inn % cap;
    SlotFits(d, esize, cap, j);
    CapacityBound(cap);
    CountAdd(inn, out, 1);
    InPosition(cap, inn, out);
    var after := Queue(Stored(d, j * esize, x), esize, cap, (inn + 1) % U32, out);
    forall i | 0 <= i < n + 1
      ensures after[i] == (Queue(d, esize, cap, inn, out) + [x])[i]
    {
      StoreOne(d, esize, cap, j, x, (out + i) % cap);
      if i < n {
        DistinctSlots(out + i, n - i, cap);
      }
    }
  }

  lemma NextPosition(cap: nat, out: nat, i: nat)
    requires Capacity(cap) && out < U32
    ensures ((out + 1) % U32 + i) % cap == (out + (i + 1)) % cap
  {
    var k: nat :| k < 32 && cap == Pow2(k);
    Powers();
    var x, y := (out + 1) % U32 + i, out + (i + 1);
    assert x == y || x == y - U32;
    assert x % U32 == y % U32;
    hide Pow2;
    ModOfMod(x, k, 32);
    ModOfMod(y, k, 32);
  }

  /** Advancing the read counter removes the head, which is what lies at the read counter. */
  lemma GetRemoves(d: seq<byte>, esize: nat, cap: nat, inn: nat, out: nat)
    requires Geometry(d, esize, cap) && Capacity(cap) && Counters(cap, inn, out) && CountBetween(inn, out) > 0
    ensures Counters(cap, inn, (out + 1) % U32)
    ensures Slot(d, esize, cap, out % cap) == Queue(d, esize, cap, inn, out)[0]
    ensures Queue(d, esize, cap, inn, (out + 1) % U32) == Queue(d, esize, cap, inn, out)[1..]
  {
    hide Slot, Capacity, Geometry;
    CountDrop(inn, out, 1);
    hide CountBetween;
    var before, after := Queue(d, esize, cap, inn, out), Queue(d, esize, cap, inn, (out + 1) % U32);
    forall i | 0 <= i < |after|
      ensures after[i] == before[i + 1]
    {
      NextPosition(cap, out, i);
    }
  }

  // ---------- the ring itself ----------

  class Ring {
    const data: array<byte>
    const mask: nat
    const esize: nat
    var inn: nat
    var out: nat

    ghost predicate Valid()
      reads this, data
    {
      Capacity(mask + 1) && Geometry(data[..], esize, mask + 1) && data.Length < U32 && Counters(mask + 1, inn, out)
    }

    /** The elements stored and not yet taken, oldest first. */
    ghost function Contents(): (q: seq<seq<byte>>)
      requires Valid()
      reads this, data
      ensures |q| <= mask + 1
    {
      Queue(data[..], esize, mask + 1, inn, out)
    }

    constructor (elemCount: nat, esize: nat)
      requires Capacity(elemCount) && esize > 0 && elemCount * esize < U32
      ensures Valid() && fresh(data) && mask + 1 == elemCount && this.esize == esize
      ensures Contents() == []
    {
      CapacityBound(elemCount);
      MulMono(elemCount, 0, esize);
      data := new byte[elemCount * esize](_ => 0);
      mask := elemCount - 1;
      this.esize := esize;
      inn, out := 0, 0;
    }

    /** Copies `len` elements into the ring in at most two segments. */
    method CopyIn(src: seq<byte>, len: nat, off: nat)
      requires Valid() && len <= mask + 1 && |src| == len * esize
      modifies data
      ensures off % (mask + 1) * esize < data.Length && |src| <= data.Length
      ensures data[..] == Stored(old(data[..]), off % (mask + 1) * esize, src)
    {
      hide Stored, Loaded, And, Capacity;
      var total, copyBytes := data.Length, len * esize;
      MaskIsMod(off, mask + 1);
      var offBytes := And(off, mask) * esize;
      SlotFits(data[..], esize, mask + 1, off % (mask + 1));
      MulMono(esize, len, mask + 1);
      var firstCopy := if copyBytes < total - offBytes then copyBytes else total - offBytes;
      ghost var was := data[..];
      forall i | 0 <= i < firstCopy {
        data[offBytes + i] := src[i];
      }
      forall i | 0 <= i < copyBytes - firstCopy {
        data[i] := src[firstCopy + i];
      }
      TwoSegmentsStored(was, offBytes, src, firstCopy, data[..]);
    }

    /** Copies `len` elements out of the ring in at most two segments. */
    method CopyOut(len: nat, off: nat) returns (dst: seq<byte>)
      requires Valid() && len <= mask + 1
      ensures off % (mask + 1) * esize < data.Length && 0 <= len * esize <= data.Length
      ensures dst == Loaded(data[..], off % (mask + 1) * esize, len * esize)
    {
      hide Stored, Loaded, And, Capacity;
      var total, copyBytes := data.Length, len * esize;
      MaskIsMod(off, mask + 1);
      var offBytes := And(off, mask) * esize;
      SlotFits(data[..], esize, mask + 1, off % (mask + 1));
      MulMono(esize, len, mask + 1);
      MulMono(esize, 0, len);
      var firstCopy := if copyBytes < total - offBytes then copyBytes else total - offBytes;
      dst := data[offBytes..offBytes + firstCopy] + data[..copyBytes - firstCopy];
      TwoSegmentsLoaded(data[..], offBytes, copyBytes, firstCopy);
      assert data[offBytes..offBytes + firstCopy] == data[..][offBytes..offBytes + firstCopy];
      assert data[..copyBytes - firstCopy] == data[..][..copyBytes - firstCopy];
    }

    /** Appends one element, or reports 0 and leaves everything as it was: exactly when the ring is
        full or `len`, multiplied by the element size in 32 bits, is less than one element. */
    method Put(buf: seq<byte>, len: nat) returns (n: nat)
      requires Valid() && |buf| == esize && len < U32
      modifies this`inn, data
      ensures Valid()
      ensures n == if len == 0 || len * esize % U32 < esize || |old(Contents())| == mask + 1 then 0 else 1
      ensures Contents() == old(Contents()) + if n == 1 then [buf] else []
      ensures n == 0 ==> inn == old(inn) && data[..] == old(data[..])
    {
      if len == 0 {
        return 0;
      }
      n := if len * esize % U32 >= esize then 1 else 0;
      if n == 0 {
        return;
      }
      var unused := (mask + 1 - (inn - out) % U32) % U32;
      CapacityBound(mask + 1);
      if n > unused {
        return 0;
      }
      PutAppends(data[..], esize, mask + 1, inn, out, buf);
      CopyIn(buf, 1, inn);
      inn := (inn + n) % U32;
    }

    /** Takes the oldest element, or reports 0 and changes nothing. */
    method Get(len: nat) returns (n: nat, buf: seq<byte>)
      requires Valid() && len < U32
      modifies this`out
      ensures Valid()
      ensures n == if len == 0 || len * esize % U32 < esize || old(Contents()) == [] then 0 else 1
      ensures n == 1 ==> [buf] + Contents() == old(Contents())
      ensures n == 0 ==> buf == [] && Contents() == old(Contents())
    {
      n, buf := 0, [];
      if len == 0 || len * esize % U32 < esize {
        return;
      }
      var used := (inn - out) % U32;
      if used == 0 {
        return;
      }
      GetRemoves(data[..], esize, mask + 1, inn, out);
      buf := CopyOut(1, out);
      n := 1;
      out := (out + n) % U32;
    }

    lemma OneElement()
      requires Valid()
      ensures 1 * esize % U32 >= esize > 0
    {
      CapacityBound(mask + 1);
      Below(esize, 0, mask + 1);
    }

    method Len() returns (n: nat)
      requires Valid()
      ensures n == |Contents()|
    {
      n := (inn - out) % U32;
    }

    method Avail() returns (n: nat)
      requires Valid()
      ensures n + |Contents()| == mask + 1
    {
      CapacityBound(mask + 1);
      var len := Len();
      n := (mask + 1 - len) % U32;
    }

    method IsFull() returns (b: bool)
      requires Valid()
      ensures b <==> |Contents()| == mask + 1
    {
      var len := Len();
      b := len >= mask + 1;
    }

    method IsEmpty() returns (b: bool)
      requires Valid()
      ensures b <==> Contents() == []
    {
      b := inn == out;
    }

    method Reset()
      requires Valid()
      modifies this`inn, this`out
      ensures Valid() && Contents() == []
    {
      inn, out := 0, 0;
    }
  }
}
