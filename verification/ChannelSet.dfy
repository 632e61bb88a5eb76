/** A set of rings, one per channel, created together or not at all. */
module ChannelSet {
  import opened Basics
  import opened Bytes
  import opened BitMath
  import opened RingBuffer

  /** The allocator: `grants` says which of the coming requests succeed (all others do), `live` counts blocks in use. */
  class Heap {
    var grants: seq<bool>
    var live: int

    method Malloc() returns (ok: bool)
      modifies this
      ensures live == old(live) + if ok then 1 else 0
      ensures ok == (old(grants) == [] || old(grants)[0])
      ensures grants == if old(grants) == [] then [] else old(grants)[1..]
    {
      ok := true;
      if grants != [] {
        ok := grants[0];
        grants := grants[1..];
      }
      if ok {
        live := live + 1;
      }
    }

    method Free()
      modifies this`live
      ensures live == old(live) - 1
    {
      live := live - 1;
    }
  }

  /** The next `k` requests succeed. */
  predicate Granted(grants: seq<bool>, k: nat) {
    forall i :: 0 <= i < k && i < |grants| ==> grants[i]
  }

  /** What the allocator answers behind the next `k` requests. */
  function Later(grants: seq<bool>, k: nat): seq<bool> {
    if |grants| <= k then [] else grants[k..]
  }

  lemma GrantedInTurn(grants: seq<bool>, j: nat, k: nat)
    ensures Granted(grants, j + k) <==> Granted(grants, j) && Granted(Later(grants, j), k)
    ensures Later(Later(grants, j), k) == Later(grants, j + k)
  {
    if Granted(grants, j) && Granted(Later(grants, j), k) {
      forall i | 0 <= i < j + k && i < |grants|
        ensures grants[i]
      {
        if i >= j {
          assert Later(grants, j)[i - j] == grants[i];
        }
      }
    }
  }

  lemma NothingAsked(grants: seq<bool>)
    ensures Granted(grants, 0) && Later(grants, 0) == grants
  {
  }

  lemma OneAsked(grants: seq<bool>)
    ensures Granted(grants, 1) <==> grants == [] || grants[0]
    ensures Later(grants, 1) == if grants == [] then [] else grants[1..]
  {
  }

  function RoundToPower(n: nat): nat {
    if IsPowerOf2(n) then n else RounddownPowOfTwo(n)
  }

  /** How many elements a ring of `size` bytes is given. */
  function ElementCount(size: nat, esize: nat): nat
    requires esize > 0
  {
    var m := RoundToPower(size / esize);
    if m == 0 then 1 else m
  }

  lemma ElementCountFits(size: nat, esize: nat)
    requires 0 < esize < U32 && size < U32
    ensures Capacity(ElementCount(size, esize)) && ElementCount(size, esize) * esize < U32
    ensures size / esize > 0 ==> ElementCount(size, esize) <= size / esize < 2 * ElementCount(size, esize)
  {
    hide RoundToPower, Capacity;
    var n := size / esize;
    if n == 0 {
      RoundZero();
    } else {
      CountAtMost(n, esize, size);
      RoundedCapacity(n);
      CapacityBound(RoundToPower(n));
      MulMono(esize, RoundToPower(n), n);
    }
  }

  lemma RoundZero()
    ensures RoundToPower(0) == 0 && Capacity(1)
  {
    assert Pow2(0) == 1;
  }

  lemma CountAtMost(n: nat, esize: nat, size: nat)
    requires esize > 0 && n == size / esize
    ensures n <= size && esize * n <= size
  {
    Split(size, esize);
    MulMono(n, 1, esize);
  }

  /** Between a power of two and its double lies no other power of two. */
  lemma PowerBetween(n: nat, t: nat)
    requires IsPowerOf2(n) && Pow2(t) <= n < 2 * Pow2(t)
    ensures n == Pow2(t)
  {
    AndZeroIsPower(n);
    var k: nat :| n == Pow2(k);
    if k > t {
      Pow2Monotone(t + 1, k);
    } else if k < t {
      Pow2Monotone(k + 1, t);
    }
  }

  /** Allocates a control block and a data block, and gives back the first when the second fails. */
  method Create(heap: Heap, size: nat, esize: nat) returns (rb: Ring?)
    requires size < U32 && esize < U32
    modifies heap
    ensures heap.live == old(heap.live) + if rb == null then 0 else 2
    ensures rb != null <==> size > 0 && esize > 0 && Granted(old(heap.grants), 2)
    ensures rb != null ==> heap.grants == Later(old(heap.grants), 2)
    ensures rb != null ==>
              && fresh(rb) && fresh(rb.data) && rb.Valid() && rb.Contents() == []
              && rb.esize == esize && rb.mask + 1 == ElementCount(size, esize)
  {
    if esize == 0 || size == 0 {
      return null;
    }
    var gotControl := heap.Malloc();
    if !gotControl {
      return null;
    }
    ElementCountFits(size, esize);
    var gotData := heap.Malloc();
    if !gotData {
      heap.Free();
      return null;
    }
    rb := new Ring(ElementCount(size, esize), esize);
  }

  /** Two blocks for every ring that exists. */
  function Blocks(rings: seq<Ring?>): nat {
    if rings == [] then 0
    else Blocks(rings[..|rings| - 1]) + if rings[|rings| - 1] == null then 0 else 2
  }

  lemma {:induction false} BlocksOfNulls(n: nat)
    ensures Blocks(seq(n, _ => null)) == 0
  {
    if n > 0 {
      var s: seq<Ring?> := seq(n, _ => null);
      assert s[..n - 1] == seq(n - 1, _ => null);
      BlocksOfNulls(n - 1);
    }
  }

  lemma {:induction false} BlocksUpdate(rings: seq<Ring?>, i: nat, r: Ring)
    requires i < |rings| && rings[i] == null
    ensures Blocks(rings[i := r]) == Blocks(rings) + 2
    decreases |rings|
  {
    var n := |rings| - 1;
    if i < n {
      assert rings[i := r][..n] == rings[..n][i := r];
      BlocksUpdate(rings[..n], i, r);
    } else {
      assert rings[i := r][..n] == rings[..n];
    }
  }

  class RingSet {
    var channels: seq<Ring?>
    var hasArray: bool
    var maxChannel: nat
    var elemSize: nat
    var bufCapacity: nat

    /** The blocks this set holds: the channel array and two per ring. */
    ghost function Held(): nat
      reads this
    {
      if hasArray then 1 + Blocks(channels) else 0
    }

    ghost predicate Cleared()
      reads this
    {
      !hasArray && channels == [] && maxChannel == 0 && elemSize == 0 && bufCapacity == 0
    }

    ghost function Footprint(): set<object>
      reads this
    {
      set i | 0 <= i < |channels| && channels[i] != null :: channels[i].data
    }

    /** Ready for use: every channel has its own empty-able ring of the agreed element size. */
    ghost predicate Valid()
      reads this, channels, Footprint()
    {
      && hasArray && |channels| == maxChannel
      && (forall i :: 0 <= i < |channels| ==>
            channels[i] != null && channels[i].Valid() && channels[i].esize == elemSize && channels[i].mask + 1 == bufCapacity)
      && (forall i, j :: 0 <= i < j < |channels| ==>
            channels[i] != channels[j] && channels[i].data != channels[j].data)
    }

    constructor ()
      ensures Cleared()
    {
      channels, hasArray, maxChannel, elemSize, bufCapacity := [], false, 0, 0, 0;
    }

    /** Gives back every block the set holds and clears it; doing it twice is harmless. */
    method Destroy(heap: Heap)
      requires hasArray ==> |channels| == maxChannel
      modifies this, heap`live
      ensures Cleared() && heap.live == old(heap.live) - old(Held())
    {
      if hasArray {
        assert channels[..maxChannel] == channels;
        for i := 0 to maxChannel
          invariant unchanged(this)
          invariant heap.live == old(heap.live) - Blocks(channels[..i])
        {
          assert channels[..i + 1][..i] == channels[..i];
          if channels[i] != null {
            heap.Free();
            heap.Free();
          }
        }
        heap.Free();
      }
      channels, hasArray, maxChannel, elemSize, bufCapacity := [], false, 0, 0, 0;
    }

    /** All rings or none: whichever allocation fails, no block stays behind and the set is empty. */
    method Init(heap: Heap, elementSize: nat, capacity: nat, channelCount: nat) returns (ok: bool)
      requires Cleared() && elementSize < U32 && capacity < U32 && channelCount < 256
      modifies this, heap
      ensures heap.live == old(heap.live) + Held()
      ensures ok ==>
                && Valid() && fresh(channels) && fresh(Footprint())
                && maxChannel == channelCount && elemSize == elementSize
                && bufCapacity <= capacity < 2 * bufCapacity
                && forall i :: 0 <= i < maxChannel ==> channels[i].Contents() == []
      ensures !ok ==> Cleared()
      ensures ok <==>
                && elementSize > 0 && capacity > 0 && channelCount > 0
                && SizeFits(RoundToPower(capacity), elementSize) && Granted(old(heap.grants), 1 + 2 * channelCount)
    {
      if elementSize == 0 || capacity == 0 || channelCount == 0 {
        return false;
      }
      hide RoundToPower, Capacity, Queue, Geometry, Counters, ElementCount, SizeFits, Ring.Valid, Ring.Contents, Granted, Later;
      OneAsked(heap.grants);
      GrantedInTurn(heap.grants, 1, 2 * channelCount);
      var actual := RoundToPower(capacity);
      RoundedCapacity(capacity);
      SizeFitsIff(actual, elementSize);
      if actual > (U32 - 1) / elementSize {
        return false;
      }
      var gotArray := heap.Malloc();
      if !gotArray {
        return false;
      }
      elemSize, maxChannel, bufCapacity := elementSize, channelCount, actual;
      channels, hasArray := seq(channelCount, _ => null), true;
      BlocksOfNulls(channelCount);
      ExactElementCount(actual, elementSize);
      var bufSize := actual * elementSize;
      ok := AddRings(heap, bufSize);
      if !ok {
        Destroy(heap);
      }
    }

    /** Gives every channel its ring, or stops at the first that cannot be allocated. */
    method AddRings(heap: Heap, bufSize: nat) returns (ok: bool)
      requires Partial(0) && 0 < elemSize < U32 && 0 < bufSize < U32 && ElementCount(bufSize, elemSize) == bufCapacity
      modifies this`channels, heap
      ensures hasArray && |channels| == maxChannel
      ensures heap.live - Held() == old(heap.live - Held())
      ensures ok <==> Granted(old(heap.grants), 2 * maxChannel)
      ensures ok ==> Partial(maxChannel) && fresh(Footprint()) && forall j :: 0 <= j < maxChannel ==> fresh(channels[j])
    {
      hide Blocks, ElementCount, Ring.Valid, Ring.Contents, Granted, Later;
      NothingAsked(heap.grants);
      for i := 0 to maxChannel
        invariant Partial(i) && heap.live - Held() == old(heap.live - Held())
        invariant Granted(old(heap.grants), 2 * i) && heap.grants == Later(old(heap.grants), 2 * i)
        invariant forall j :: 0 <= j < i ==> fresh(channels[j]) && fresh(channels[j].data)
      {
        GrantedInTurn(old(heap.grants), 2 * i, 2);
        GrantedInTurn(old(heap.grants), 2 * i + 2, 2 * (maxChannel - i - 1));
        ok := AddRing(heap, i, bufSize);
        if !ok {
          return;
        }
      }
      ok := true;
    }

    /** The first `i` channels have their rings, the others none yet. */
    ghost predicate Partial(i: nat)
      reads this, channels, Footprint()
    {
      && hasArray && i <= |channels| == maxChannel
      && (forall j :: i <= j < maxChannel ==> channels[j] == null)
      && (forall j :: 0 <= j < i ==>
            channels[j] != null && channels[j].Valid() && channels[j].Contents() == [] &&
            channels[j].esize == elemSize && channels[j].mask + 1 == bufCapacity)
      && (forall j, k :: 0 <= j < k < i ==> channels[j] != channels[k] && channels[j].data != channels[k].data)
    }

    method AddRing(heap: Heap, i: nat, bufSize: nat) returns (added: bool)
      requires Partial(i) && i < maxChannel && 0 < elemSize < U32 && bufSize < U32
      requires ElementCount(bufSize, elemSize) == bufCapacity
      modifies this`channels, heap
      ensures !added ==> channels == old(channels) && heap.live == old(heap.live)
      ensures added <==> bufSize > 0 && Granted(old(heap.grants), 2)
      ensures added ==> heap.grants == Later(old(heap.grants), 2)
      ensures added ==> Partial(i + 1) && heap.live == old(heap.live) + 2 && Blocks(channels) == old(Blocks(channels)) + 2
      ensures added ==> channels == old(channels)[i := channels[i]] && fresh(channels[i]) && fresh(channels[i].data)
    {
      var rb := Create(heap, bufSize, elemSize);
      if rb == null {
        return false;
      }
      BlocksUpdate(channels, i, rb);
      channels := channels[i := rb];
      return true;
    }

    /** Only a channel inside both the caller's limit and the allocated range is touched. */
    predicate ChannelValid(ch: nat, limit: nat)
      reads this
    {
      hasArray && ch < limit && ch < maxChannel && ch < |channels| && channels[ch] != null
    }

    method Put(ch: nat, data: seq<byte>, limit: nat) returns (n: nat)
      requires hasArray ==> Valid() && |data| == elemSize
      modifies channels, Footprint()
      ensures hasArray == old(hasArray) && channels == old(channels)
      ensures !ChannelValid(ch, limit) ==> n == 0
      ensures hasArray ==>
                && Valid()
                && (forall i :: 0 <= i < |channels| && !(i == ch && n == 1) ==> channels[i].Contents() == old(channels[i].Contents()))
                && (ChannelValid(ch, limit) ==>
                      && n == (if |old(channels[ch].Contents())| == bufCapacity then 0 else 1)
                      && (n == 1 ==> channels[ch].Contents() == old(channels[ch].Contents()) + [data]))
    {
      if !ChannelValid(ch, limit) {
        return 0;
      }
      channels[ch].OneElement();
      hide Queue, Capacity, Geometry, Counters;
      n := channels[ch].Put(data, 1);
    }

    method Get(ch: nat, limit: nat) returns (n: nat, data: seq<byte>)
      requires hasArray ==> Valid()
      modifies channels
      ensures hasArray == old(hasArray) && channels == old(channels)
      ensures !ChannelValid(ch, limit) ==> n == 0
      ensures hasArray ==>
                && Valid()
                && (forall i :: 0 <= i < |channels| && !(i == ch && n == 1) ==> channels[i].Contents() == old(channels[i].Contents()))
                && (ChannelValid(ch, limit) ==>
                      && n == (if old(channels[ch].Contents()) == [] then 0 else 1)
                      && (n == 1 ==> [data] + channels[ch].Contents() == old(channels[ch].Contents())))
    {
      if !ChannelValid(ch, limit) {
        return 0, [];
      }
      channels[ch].OneElement();
      hide Queue, Capacity, Geometry, Counters;
      n, data := channels[ch].Get(1);
    }
  }

  /** The byte size of a ring does not overflow 32 bits. */
  predicate SizeFits(count: nat, esize: nat) {
    count * esize < U32
  }

  /** How the program tests it without computing the product. */
  lemma SizeFitsIff(count: nat, esize: nat)
    requires esize > 0
    ensures SizeFits(count, esize) <==> count <= (U32 - 1) / esize
    ensures SizeFits(count, esize) && count > 0 ==> count * esize > 0
  {
    if count * esize <= U32 - 1 {
      QuotientAtLeast(U32 - 1, esize, count);
    } else {
      QuotientBelow(U32 - 1, esize, count);
    }
    MulMono(count, 1, esize);
  }

  lemma RoundedCapacity(capacity: nat)
    requires 0 < capacity < U32
    ensures Capacity(RoundToPower(capacity)) && RoundToPower(capacity) <= capacity < 2 * RoundToPower(capacity)
  {
    var t := RounddownIsHighestPower(capacity);
    if IsPowerOf2(capacity) {
      PowerBetween(capacity, t);
    }
  }

  /** A size that is a power of two of elements is not rounded any further. */
  lemma ExactElementCount(actual: nat, esize: nat)
    requires Capacity(actual) && 0 < esize < U32 && actual <= (U32 - 1) / esize
    ensures 0 <= actual * esize < U32 && ElementCount(actual * esize, esize) == actual
  {
    var k: nat :| k < 32 && actual == Pow2(k);
    Split(U32 - 1, esize);
    MulMono(esize, actual, (U32 - 1) / esize);
    MulMono(esize, 0, actual);
    ModUnique(actual * esize, esize, actual, 0);
    PowerIsAndZero(k);
  }
}
