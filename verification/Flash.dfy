/** The flash programmer: erase, write in padded 64 KB blocks, read back and compare. */
module Flash {
  import opened Basics
  import opened Bytes
  import opened BitMath

  const BUFSIZE: nat := 65536
  const MAX_RETRY_CNT: nat := 10000

  /** How a system call behaves: it moves at most `most` bytes, is interrupted by a signal, or fails. A write
      with a non-empty `fault` leaves those bytes in the cells it touches instead of programming them. */
  datatype Call = Transfer(most: nat, fault: seq<byte>) | Interrupted | Failed

  predicate Faithful(script: seq<Call>) {
    forall c <- script :: c.Transfer? ==> c.fault == []
  }

  /** No call fails, is interrupted, moves nothing or damages a cell; calls may still be short. */
  predicate Willing(script: seq<Call>) {
    forall c <- script :: c.Transfer? && c.most > 0 && c.fault == []
  }

  // ---------- the device ----------

  /** Programming only clears bits. */
  function Programmed(cell: byte, b: byte): byte {
    cell & b
  }

  lemma ProgramOnes(b: byte)
    ensures Programmed(0xFF, b) == b && Programmed(b, 0xFF) == b
  {
  }

  function ProgramAt(mem: seq<byte>, at: nat, data: seq<byte>): (m: seq<byte>)
    requires at + |data| <= |mem|
    ensures |m| == |mem|
    ensures forall i :: 0 <= i < |mem| ==> m[i] == if at <= i < at + |data| then Programmed(mem[i], data[i - at]) else mem[i]
  {
    seq(|mem|, i requires 0 <= i < |mem| => if at <= i < at + |data| then Programmed(mem[i], data[i - at]) else mem[i])
  }

  function StoreAt(mem: seq<byte>, at: nat, data: seq<byte>): (m: seq<byte>)
    requires at + |data| <= |mem|
    ensures |m| == |mem|
  {
    mem[..at] + data + mem[at + |data|..]
  }

  function Ones(n: nat): (s: seq<byte>)
    ensures |s| == n && forall i :: 0 <= i < n ==> s[i] == 0xFF
  {
    seq(n, _ => 0xFF)
  }

  class Device {
    const eraseSize: nat
    var mem: seq<byte>
    var pos: nat
    var script: seq<Call>

    predicate Valid()
      reads this
    {
      pos <= |mem| < U32 && 0 < eraseSize < U32
    }

    constructor (mem: seq<byte>, eraseSize: nat, script: seq<Call>)
      requires |mem| < U32 && 0 < eraseSize < U32
      ensures Valid() && this.mem == mem && this.eraseSize == eraseSize && this.script == script && pos == 0
    {
      this.mem, this.eraseSize, this.script, pos := mem, eraseSize, script, 0;
    }

    method NextCall() returns (c: Call)
      modifies this`script
      ensures (c, script) == if old(script) == [] then (Failed, []) else (old(script)[0], old(script)[1..])
    {
      if script == [] {
        return Failed;
      }
      c := script[0];
      script := script[1..];
    }

    /** `read`: from the current position into `buf[off..]`. */
    method Read(buf: array<byte>, off: nat, count: nat) returns (n: int, interrupted: bool)
      requires Valid() && off + count <= buf.Length
      modifies this`pos, this`script, buf
      ensures Valid()
      ensures var (c, rest) := if old(script) == [] then (Failed, []) else (old(script)[0], old(script)[1..]);
              && script == rest
              && interrupted == (c == Interrupted)
              && n == (if c.Transfer? then Min(c.most, Min(count, |mem| - old(pos))) else -1)
      ensures n >= 0 ==> pos == old(pos) + n && buf[..] == StoreAt(old(buf[..]), off, mem[old(pos)..pos])
      ensures n < 0 ==> pos == old(pos) && buf[..] == old(buf[..])
    {
      var c := NextCall();
      interrupted := c == Interrupted;
      if !c.Transfer? {
        return -1, interrupted;
      }
      n := Min(c.most, Min(count, |mem| - pos));
      forall i | 0 <= i < n {
        buf[off + i] := mem[pos + i];
      }
      pos := pos + n;
    }

    /** `write`: `data` at the current position. */
    method Write(data: seq<byte>) returns (n: int, interrupted: bool)
      requires Valid()
      modifies this`mem, this`pos, this`script
      ensures Valid() && |mem| == old(|mem|)
      ensures var (c, rest) := if old(script) == [] then (Failed, []) else (old(script)[0], old(script)[1..]);
              && script == rest
              && interrupted == (c == Interrupted)
              && n == (if c.Transfer? then Min(c.most, Min(|data|, |mem| - old(pos))) else -1)
              && pos == old(pos) + (if n < 0 then 0 else n)
              && mem == (if n < 0 then old(mem)
                         else if |c.fault| == n then StoreAt(old(mem), old(pos), c.fault)
                         else ProgramAt(old(mem), old(pos), data[..n]))
    {
      var c := NextCall();
      interrupted := c == Interrupted;
      if !c.Transfer? {
        return -1, interrupted;
      }
      n := Min(c.most, Min(|data|, |mem| - pos));
      mem := if |c.fault| == n then StoreAt(mem, pos, c.fault) else ProgramAt(mem, pos, data[..n]);
      pos := pos + n;
    }

    /** The erase call: one whole block, set to 0xFF. */
    method Erase(start: nat) returns (ok: bool)
      requires Valid()
      modifies this`mem, this`script
      ensures Valid() && |mem| == old(|mem|)
      ensures script == if old(script) == [] then [] else old(script)[1..]
      ensures ok <==> old(script) != [] && old(script)[0].Transfer? && start + eraseSize <= |mem|
      ensures ok ==> mem == StoreAt(old(mem), start, Ones(eraseSize))
      ensures !ok ==> mem == old(mem)
    {
      var c := NextCall();
      ok := c.Transfer? && start + eraseSize <= |mem|;
      if ok {
        mem := StoreAt(mem, start, Ones(eraseSize));
      }
    }

    method Seek()
      requires Valid()
      modifies this`pos
      ensures Valid() && pos == 0
    {
      pos := 0;
    }
  }

  // ---------- transfers that retry ----------

  /** The calls left once interrupted ones have been retried, and how much the deciding one moves. */
  function Settled(script: seq<Call>, errors: nat): (r: (Call, seq<Call>))
    ensures !r.0.Interrupted? && |r.1| <= |script|
    ensures Faithful(script) ==> Faithful(r.1) && (r.0.Transfer? ==> r.0.fault == [])
    decreases |script|
  {
    if script == [] then (Failed, [])
    else if script[0].Interrupted? then
      if errors + 1 > MAX_RETRY_CNT then (Failed, script[1..]) else Settled(script[1..], errors + 1)
    else (script[0], script[1..])
  }

  /** A script that begins with `k` interruptions. */
  predicate InterruptedFirst(script: seq<Call>, k: nat) {
    k <= |script| && forall i :: 0 <= i < k ==> script[i].Interrupted?
  }

  lemma {:induction false} SettledBehind(script: seq<Call>, errors: nat, k: nat)
    requires InterruptedFirst(script, k) && errors <= 10000
    ensures k + errors <= 10000 && k < |script| && !script[k].Interrupted? ==>
              Settled(script, errors) == (script[k], script[k + 1..])
    ensures k + errors == 10001 ==> Settled(script, errors) == (Failed, script[k..])
    ensures k + errors <= 10000 && k == |script| ==> Settled(script, errors) == (Failed, [])
    decreases k
  {
    if k > 0 && errors < 10000 {
      var rest := script[1..];
      assert forall i :: 0 <= i < k - 1 ==> rest[i] == script[i + 1];
      SettledBehind(rest, errors + 1, k - 1);
      assert rest[k - 1..] == script[k..];
      if k < |script| {
        assert rest[k - 1] == script[k] && rest[k..] == script[k + 1..];
      }
    }
  }

  /** Up to 10000 interruptions of one transfer are retried and leave no trace; the 10001st makes it fail, with
      the calls behind it still to come. */
  lemma InterruptionsAreRetried(script: seq<Call>, k: nat)
    requires InterruptedFirst(script, k)
    ensures k <= 10000 && k < |script| && !script[k].Interrupted? ==> Settled(script, 0) == (script[k], script[k + 1..])
    ensures k == 10001 ==> Settled(script, 0) == (Failed, script[10001..])
  {
    SettledBehind(script, 0, k);
  }

  /** How many bytes a transfer of `count` moves in the end when the device has `room` left. */
  function Moved(script: seq<Call>, room: nat, count: nat): (r: (nat, seq<Call>))
    ensures r.0 <= count && r.0 <= room
    decreases count
  {
    if count == 0 then (0, script)
    else
      var (c, rest) := Settled(script, 0);
      if c.Failed? then (0, rest)
      else
        var n := Min(c.most, Min(count, room));
        if n == 0 then (0, rest)
        else
          var (more, left) := Moved(rest, room - n, count - n);
          (n + more, left)
  }

  /** A willing device moves everything, in at most one call a byte. */
  lemma {:induction false} WillingMovesAll(script: seq<Call>, room: nat, count: nat)
    requires Willing(script) && count <= room && count <= |script|
    ensures var (k, rest) := Moved(script, room, count);
            k == count && Willing(rest) && |rest| >= |script| - count
    decreases count
  {
    if count > 0 {
      assert script[0] in script;
      var n := Min(script[0].most, Min(count, room));
      assert Settled(script, 0) == (script[0], script[1..]);
      WillingMovesAll(script[1..], room - n, count - n);
    }
  }

  method SafeRead(d: Device, buf: array<byte>, off: nat, count: nat) returns (n: int)
    requires d.Valid() && 0 < count && off + count <= buf.Length
    modifies d`pos, d`script, buf
    ensures d.Valid()
    ensures var (c, rest) := Settled(old(d.script), 0);
            && d.script == rest
            && n == (if c.Transfer? then Min(c.most, Min(count, |d.mem| - old(d.pos))) else -1)
    ensures n >= 0 ==> d.pos == old(d.pos) + n && buf[..] == StoreAt(old(buf[..]), off, d.mem[old(d.pos)..d.pos])
    ensures n < 0 ==> d.pos == old(d.pos) && buf[..] == old(buf[..])
  {
    var errors := 0;
    while true
      invariant d.Valid() && d.pos == old(d.pos) && buf[..] == old(buf[..]) && errors <= MAX_RETRY_CNT
      invariant Settled(old(d.script), 0) == Settled(d.script, errors)
      decreases MAX_RETRY_CNT - errors
    {
      var interrupted;
      n, interrupted := d.Read(buf, off, count);
      if n >= 0 || !interrupted {
        return;
      }
      errors := errors + 1;
      if errors > MAX_RETRY_CNT {
        return -1;
      }
    }
  }

  method SafeWrite(d: Device, data: seq<byte>) returns (n: int)
    requires d.Valid() && 0 < |data|
    modifies d`mem, d`pos, d`script
    ensures d.Valid() && |d.mem| == old(|d.mem|)
    ensures var (c, rest) := Settled(old(d.script), 0);
            && d.script == rest
            && n == (if c.Transfer? then Min(c.most, Min(|data|, |d.mem| - old(d.pos))) else -1)
            && d.pos == old(d.pos) + (if n < 0 then 0 else n)
            && (n < 0 ==> d.mem == old(d.mem))
            && (n >= 0 && c.fault == [] ==> d.mem == ProgramAt(old(d.mem), old(d.pos), data[..n]))
  {
    var errors := 0;
    while true
      invariant d.Valid() && d.pos == old(d.pos) && d.mem == old(d.mem) && errors <= MAX_RETRY_CNT
      invariant Settled(old(d.script), 0) == Settled(d.script, errors)
      decreases MAX_RETRY_CNT - errors
    {
      var interrupted;
      n, interrupted := d.Write(data);
      if n >= 0 || !interrupted {
        if n == 0 {
          NothingProgrammed(old(d.mem), old(d.pos), data[..0]);
        }
        return;
      }
      errors := errors + 1;
      if errors > MAX_RETRY_CNT {
        return -1;
      }
    }
  }

  lemma NothingProgrammed(mem: seq<byte>, at: nat, none: seq<byte>)
    requires at <= |mem| && none == []
    ensures ProgramAt(mem, at, none) == mem == StoreAt(mem, at, none)
  {
  }

  /** The first bytes of a transfer, then the others. */
  function Behind(n: nat, m: (nat, seq<Call>)): (nat, seq<Call>) {
    (n + m.0, m.1)
  }

  lemma MovedStep(script: seq<Call>, room: nat, count: nat)
    requires count > 0
    ensures var (c, rest) := Settled(script, 0);
            var n := if c.Transfer? then Min(c.most, Min(count, room)) else 0;
            Moved(script, room, count) == if n == 0 then (0, rest) else Behind(n, Moved(rest, room - n, count - n))
  {
    hide Settled;
  }

  lemma ProgramInPieces(mem: seq<byte>, at: nat, a: seq<byte>, b: seq<byte>)
    requires at + |a| + |b| <= |mem|
    ensures ProgramAt(ProgramAt(mem, at, a), at + |a|, b) == ProgramAt(mem, at, a + b)
  {
    hide Programmed;
  }

  lemma WrittenSoFar(first: seq<byte>, at: nat, data: seq<byte>, total: nat, more: nat)
    requires at + total + more <= |first| && total + more <= |data|
    ensures ProgramAt(ProgramAt(first, at, data[..total]), at + total, data[total..][..more]) == ProgramAt(first, at, data[..total + more])
  {
    hide ProgramAt;
    assert data[..total] + data[total..][..more] == data[..total + more];
    ProgramInPieces(first, at, data[..total], data[total..][..more]);
  }

  /** Writes until everything is written or the device gives up; on a faithful device exactly the bytes
      counted are programmed. */
  method FullWrite(d: Device, data: seq<byte>) returns (total: int)
    requires d.Valid()
    modifies d`mem, d`pos, d`script
    ensures d.Valid() && |d.mem| == old(|d.mem|)
    ensures var (k, rest) := Moved(old(d.script), old(|d.mem| - d.pos), |data|);
            && d.script == rest && d.pos == old(d.pos) + k
            && (total == k || (k == 0 && total == -1))
            && (Faithful(old(d.script)) ==> Faithful(rest) && d.mem == ProgramAt(old(d.mem), old(d.pos), data[..k]))
  {
    hide Settled, Moved, Faithful, ProgramAt, Min;
    total := 0;
    NothingProgrammed(d.mem, d.pos, data[..0]);
    while total < |data|
      invariant d.Valid() && |d.mem| == old(|d.mem|) && 0 <= total <= |data| && d.pos == old(d.pos) + total
      invariant Moved(old(d.script), old(|d.mem| - d.pos), |data|) == Behind(total, Moved(d.script, |d.mem| - d.pos, |data| - total))
      invariant Faithful(old(d.script)) ==> Faithful(d.script) && d.mem == ProgramAt(old(d.mem), old(d.pos), data[..total])
    {
      MovedStep(d.script, |d.mem| - d.pos, |data| - total);
      var cc := SafeWrite(d, data[total..]);
      if cc < 0 {
        return if total > 0 then total else cc;
      }
      if Faithful(old(d.script)) {
        WrittenSoFar(old(d.mem), old(d.pos), data, total, cc);
      }
      if cc == 0 {
        break;
      }
      total := total + cc;
    }
    MovedNothing(d.script, |d.mem| - d.pos);
  }

  lemma MovedNothing(script: seq<Call>, room: nat)
    ensures Moved(script, room, 0) == (0, script)
  {
  }

  lemma ReadSoFar(buf: seq<byte>, mem: seq<byte>, at: nat, total: nat, more: nat)
    requires at + total + more <= |mem| && total + more <= |buf|
    ensures StoreAt(StoreAt(buf, 0, mem[at..at + total]), total, mem[at + total..at + total + more]) ==
            StoreAt(buf, 0, mem[at..at + total + more])
  {
    hide StoreAt;
    StoreInPieces(buf, mem[at..at + total], mem[at + total..at + total + more]);
    assert mem[at..at + total] + mem[at + total..at + total + more] == mem[at..at + total + more];
  }

  lemma StoreNothing(buf: seq<byte>, none: seq<byte>)
    requires none == []
    ensures StoreAt(buf, 0, none) == buf
  {
  }

  lemma StoreInPieces(buf: seq<byte>, a: seq<byte>, b: seq<byte>)
    requires |a| + |b| <= |buf|
    ensures StoreAt(StoreAt(buf, 0, a), |a|, b) == StoreAt(buf, 0, a + b)
  {
  }

  /** Reads until the buffer is full or the device gives up; what was not read keeps its old bytes. */
  method FullRead(d: Device, buf: array<byte>, len: nat) returns (total: int)
    requires d.Valid() && len <= buf.Length
    modifies d`pos, d`script, buf
    ensures d.Valid()
    ensures var (k, rest) := Moved(old(d.script), |d.mem| - old(d.pos), len);
            && d.script == rest && d.pos == old(d.pos) + k
            && (total == k || (k == 0 && total == -1))
            && buf[..] == StoreAt(old(buf[..]), 0, d.mem[old(d.pos)..old(d.pos) + k])
  {
    hide Settled, Moved, StoreAt, Min;
    total := 0;
    StoreNothing(buf[..], d.mem[d.pos..d.pos]);
    while total < len
      invariant d.Valid() && 0 <= total <= len && d.pos == old(d.pos) + total
      invariant Moved(old(d.script), |d.mem| - old(d.pos), len) == Behind(total, Moved(d.script, |d.mem| - d.pos, len - total))
      invariant buf[..] == StoreAt(old(buf[..]), 0, d.mem[old(d.pos)..d.pos])
    {
      MovedStep(d.script, |d.mem| - d.pos, len - total);
      var cc := SafeRead(d, buf, total, len - total);
      if cc < 0 {
        return if total > 0 then total else cc;
      }
      ReadSoFar(old(buf[..]), d.mem, old(d.pos), total, cc);
      if cc == 0 {
        break;
      }
      total := total + cc;
    }
    MovedNothing(d.script, |d.mem| - d.pos);
  }

  // ---------- erase ----------

  /** The sum is 32 bits wide. */
  function EraseCount(size: nat, eraseSize: nat): nat
    requires eraseSize > 0
  {
    (size + eraseSize - 1) % U32 / eraseSize
  }

  function Span(blocks: nat, block: nat): nat {
    blocks * block
  }

  /** The device with everything before `limit` erased. */
  function Erased(was: seq<byte>, limit: nat): (mem: seq<byte>)
    requires limit <= |was|
    ensures |mem| == |was|
  {
    Ones(limit) + was[limit..]
  }

  /** The erased blocks cover the image exactly when the sum does not wrap; they never exceed it by a block. */
  lemma EraseCovers(size: nat, eraseSize: nat)
    requires 0 < size < U32 && 0 < eraseSize < U32
    ensures Span(EraseCount(size, eraseSize), eraseSize) >= size <==> size + eraseSize - 1 < U32
    ensures Span(EraseCount(size, eraseSize), eraseSize) < size + eraseSize
  {
    var sum := (size + eraseSize - 1) % U32;
    Split(sum, eraseSize);
    assert sum / eraseSize * eraseSize == eraseSize * (sum / eraseSize);
    if size + eraseSize - 1 >= U32 {
      ModUnique(size + eraseSize - 1, U32, 1, size + eraseSize - 1 - U32);
    } else {
      ModUnique(size + eraseSize - 1, U32, 0, size + eraseSize - 1);
    }
  }

  /** It does wrap: an image that fills a device of 21845 blocks of 192 KB makes the program erase nothing. */
  lemma EraseWraps()
    ensures var eraseSize, size := 0x30000, 0xFFFF0000;
            size == 21845 * eraseSize < U32 && EraseCount(size, eraseSize) == 0 && Span(0, eraseSize) < size
  {
    ModUnique(0xFFFF0000 + 0x30000 - 1, U32, 1, 0x1FFFF);
    ModUnique(0x1FFFF, 0x30000, 0, 0x1FFFF);
  }

  /** A device of whole blocks whose size divides 2^32 never makes the sum wrap. */
  lemma WholeBlocksDoNotWrap(size: nat, flash: nat, eraseSize: nat, blocks: nat, perRange: nat)
    requires size <= flash < U32 && flash == blocks * eraseSize && eraseSize * perRange == U32 && eraseSize > 0
    ensures size + eraseSize - 1 < U32
  {
    if blocks >= perRange {
      MulMono(eraseSize, perRange, blocks);
    } else {
      MulMono(eraseSize, blocks + 1, perRange);
      MulDist(eraseSize, blocks, 1);
    }
  }

  /** Nothing from `limit` on has changed. */
  predicate SameBeyond(was: seq<byte>, now: seq<byte>, limit: nat) {
    |was| == |now| && forall i :: limit <= i < |now| ==> now[i] == was[i]
  }

  method ErasePhase(d: Device, size: nat) returns (ok: bool)
    requires d.Valid() && 0 < size < U32
    modifies d`mem, d`script
    ensures d.Valid()
    ensures Faithful(old(d.script)) ==> Faithful(d.script)
    ensures SameBeyond(old(d.mem), d.mem, Span(EraseCount(size, d.eraseSize), d.eraseSize))
    ensures var limit := Span(EraseCount(size, d.eraseSize), d.eraseSize);
            && (ok ==> limit <= |d.mem| && d.mem == Erased(old(d.mem), limit))
            && (Willing(old(d.script)) && |old(d.script)| >= EraseCount(size, d.eraseSize) && limit <= |d.mem| ==>
                  ok && Willing(d.script) && |d.script| == |old(d.script)| - EraseCount(size, d.eraseSize))
  {
    hide EraseCount, Span, Erased, StoreAt, Faithful, Willing, SameBeyond;
    var count, start := EraseCount(size, d.eraseSize), 0;
    FirstBlock(d.eraseSize, d.mem);
    for i := 0 to count
      invariant d.Valid() && start == Span(i, d.eraseSize) <= |d.mem| == old(|d.mem|)
      invariant d.mem == Erased(old(d.mem), start)
      invariant Faithful(old(d.script)) ==> Faithful(d.script)
      invariant Willing(old(d.script)) && |old(d.script)| >= count ==> Willing(d.script) && |d.script| == |old(d.script)| - i
    {
      BlockFits(d.eraseSize, i, count);
      AfterFirst(d.script);
      ErasedSame(old(d.mem), start, Span(count, d.eraseSize));
      ok := d.Erase(start);
      if !ok {
        return;
      }
      ErasedOneMore(old(d.mem), start, d.eraseSize);
      start := (start + d.eraseSize) % U32;
    }
    ErasedSame(old(d.mem), start, start);
    ok := true;
  }

  lemma ErasedSame(was: seq<byte>, start: nat, limit: nat)
    requires start <= |was| && start <= limit
    ensures SameBeyond(was, Erased(was, start), limit)
  {
  }

  lemma ErasedOneMore(was: seq<byte>, start: nat, block: nat)
    requires start + block <= |was|
    ensures StoreAt(Erased(was, start), start, Ones(block)) == Erased(was, start + block)
  {
  }

  lemma FirstBlock(block: nat, was: seq<byte>)
    ensures Span(0, block) == 0 && Erased(was, 0) == was
  {
  }

  lemma BlockFits(block: nat, i: nat, count: nat)
    requires i < count
    ensures Span(i + 1, block) == Span(i, block) + block <= Span(count, block)
  {
    MulMono(block, i + 1, count);
    MulDist(block, i, 1);
  }

  lemma AfterFirst(script: seq<Call>)
    ensures Faithful(script) ==> Faithful(if script == [] then [] else script[1..])
    ensures Willing(script) && script != [] ==> script[0].Transfer? && Willing(script[1..])
  {
  }

  // ---------- write ----------

  function RoundUp(n: nat): (r: nat)
    ensures n <= r < n + 65536 && r % 65536 == 0
  {
    if n % BUFSIZE == 0 then n else n - n % BUFSIZE + BUFSIZE
  }

  function Padded(image: seq<byte>): (p: seq<byte>)
    ensures |p| == RoundUp(|image|)
  {
    image + Ones(RoundUp(|image|) - |image|)
  }

  /** The block of 64 KB that starts at `done`. */
  function Block(image: seq<byte>, done: nat): (b: seq<byte>)
    requires done < |image|
    ensures |b| == BUFSIZE
  {
    var count := Min(BUFSIZE, |image| - done);
    image[done..done + count] + Ones(BUFSIZE - count)
  }

  method WriteBlock(d: Device, image: seq<byte>, done: nat) returns (ok: bool)
    requires d.Valid() && d.pos == done < |image| <= |d.mem|
    modifies d`mem, d`pos, d`script
    ensures d.Valid() && |d.mem| == old(|d.mem|)
    ensures ok ==> d.pos == done + BUFSIZE
    ensures Faithful(old(d.script)) ==>
              && Faithful(d.script) && SameBeyond(old(d.mem), d.mem, |image|)
              && (ok ==> done + BUFSIZE <= |d.mem| && d.mem == ProgramAt(old(d.mem), done, Block(image, done)))
    ensures Willing(old(d.script)) && BUFSIZE <= |old(d.script)| && done + BUFSIZE <= |d.mem| ==>
              ok && Willing(d.script) && |d.script| >= |old(d.script)| - BUFSIZE
  {
    hide Moved, Faithful, Willing, ProgramAt, SameBeyond, Block;
    var block := Block(image, done);
    if Willing(d.script) && BUFSIZE <= |d.script| && done + BUFSIZE <= |d.mem| {
      WillingMovesAll(d.script, |d.mem| - done, BUFSIZE);
    }
    var written := FullWrite(d, block);
    OnlyOnesBeyond(image, done);
    SameAtFirst(old(d.mem), |image|);
    WriteKeepsBeyond(old(d.mem), old(d.mem), done, block[..d.pos - done], |image|);
    assert block[..BUFSIZE] == block;
    ok := written == BUFSIZE;
  }

  /** Block by block, the last one filled up with 0xFF. */
  method WritePhase(d: Device, image: seq<byte>) returns (ok: bool)
    requires d.Valid() && d.pos == 0 && |image| <= |d.mem|
    modifies d`mem, d`pos, d`script
    ensures d.Valid() && |d.mem| == old(|d.mem|)
    ensures ok ==> RoundUp(|image|) <= |d.mem|
    ensures Faithful(old(d.script)) ==> Faithful(d.script) && SameBeyond(old(d.mem), d.mem, |image|)
    ensures Faithful(old(d.script)) && ok ==> d.mem == ProgramAt(old(d.mem), 0, Padded(image))
    ensures Willing(old(d.script)) && |old(d.script)| >= RoundUp(|image|) && RoundUp(|image|) <= |d.mem| ==>
              ok && Willing(d.script) && |d.script| >= |old(d.script)| - RoundUp(|image|)
  {
    hide Moved, Faithful, Willing, ProgramAt, SameBeyond, Block, Padded, RoundUp, StartsBlock;
    var done := 0;
    NothingProgrammed(d.mem, 0, Padded(image)[..0]);
    SameAtFirst(d.mem, |image|);
    NextBlock(image, 0);
    while done < |image|
      invariant 0 <= done <= |image| && (StartsBlock(done) || done == |image|)
      invariant d.Valid() && |d.mem| == old(|d.mem|) && d.pos == if done < |image| then done else RoundUp(|image|)
      invariant Faithful(old(d.script)) ==>
                  Faithful(d.script) && SameBeyond(old(d.mem), d.mem, |image|) && d.mem == ProgramAt(old(d.mem), 0, Padded(image)[..d.pos])
      invariant Willing(old(d.script)) && |old(d.script)| >= RoundUp(|image|) && RoundUp(|image|) <= |d.mem| ==>
                  Willing(d.script) && |d.script| >= |old(d.script)| - d.pos
    {
      NextBlock(image, done);
      ghost var was := d.mem;
      ok := WriteBlock(d, image, done);
      if Faithful(old(d.script)) {
        SameThrough(old(d.mem), was, d.mem, |image|, |image|);
      }
      if !ok {
        return;
      }
      if Faithful(old(d.script)) {
        ProgramInPieces(old(d.mem), 0, Padded(image)[..done], Block(image, done));
      }
      done := done + Min(BUFSIZE, |image| - done);
    }
    ok := true;
    assert Padded(image)[..RoundUp(|image|)] == Padded(image);
  }

  lemma SameThrough(first: seq<byte>, mid: seq<byte>, last: seq<byte>, a: nat, limit: nat)
    requires SameBeyond(first, mid, limit) && SameBeyond(mid, last, a) && a <= limit
    ensures SameBeyond(first, last, limit)
  {
  }

  lemma SameAtFirst(mem: seq<byte>, limit: nat)
    ensures SameBeyond(mem, mem, limit)
  {
  }

  predicate StartsBlock(done: nat) {
    done % BUFSIZE == 0
  }

  /** What one block adds to what has been written. */
  lemma NextBlock(image: seq<byte>, done: nat)
    requires done == 0 || StartsBlock(done)
    ensures StartsBlock(done) && (image == [] ==> RoundUp(|image|) == 0)
    ensures done < |image| ==>
              && done + BUFSIZE <= RoundUp(|image|)
              && Padded(image)[..done] + Block(image, done) == Padded(image)[..done + BUFSIZE]
              && if done + BUFSIZE < |image| then StartsBlock(done + BUFSIZE) else done + BUFSIZE == RoundUp(|image|)
  {
  }

  /** The part of a block that lies behind the image is all ones. */
  lemma OnlyOnesBeyond(image: seq<byte>, done: nat)
    requires done < |image|
    ensures forall j :: 0 <= j < BUFSIZE && done + j >= |image| ==> Block(image, done)[j] == 0xFF
  {
  }

  lemma WriteKeepsBeyond(first: seq<byte>, mem: seq<byte>, at: nat, data: seq<byte>, limit: nat)
    requires at + |data| <= |mem| && SameBeyond(first, mem, limit)
    requires forall j :: 0 <= j < |data| && at + j >= limit ==> data[j] == 0xFF
    ensures SameBeyond(first, ProgramAt(mem, at, data), limit)
  {
    hide Programmed;
    var m := ProgramAt(mem, at, data);
    forall i | limit <= i < |m|
      ensures m[i] == first[i]
    {
      ProgramOnes(mem[i]);
    }
  }

  // ---------- verify ----------

  /** The buffer behind one read of `count` bytes. */
  function Held(mem: seq<byte>, pos: nat, script: seq<Call>, count: nat, buf: seq<byte>): (held: seq<byte>)
    requires pos <= |mem| && count <= |buf|
    ensures |held| == |buf|
  {
    StoreAt(buf, 0, mem[pos..pos + Moved(script, |mem| - pos, count).0])
  }

  function Plus(short: nat, r: (int, nat)): (int, nat) {
    (r.0, short + r.1)
  }

  /** Reading back: a short read is reported but not treated as an error, and the comparison looks at
      whatever the static buffer holds. The result is the code and the number of short reads. */
  function Verified(mem: seq<byte>, pos: nat, script: seq<Call>, image: seq<byte>, done: nat, buf: seq<byte>): (r: (int, nat))
    requires pos <= |mem| && |buf| == BUFSIZE
    ensures r.0 == 0 || r.0 == -5
    decreases |image| - done
  {
    if done >= |image| then (0, 0)
    else
      var count := Min(BUFSIZE, |image| - done);
      var (k, rest) := Moved(script, |mem| - pos, count);
      var held := Held(mem, pos, script, count, buf);
      var short := if k < count then 1 else 0;
      if held[..count] != image[done..done + count] then (-5, short)
      else
        Plus(short, Verified(mem, pos + k, rest, image, done + count, held))
  }

  lemma VerifiedStep(mem: seq<byte>, pos: nat, script: seq<Call>, image: seq<byte>, done: nat, buf: seq<byte>)
    requires pos <= |mem| && |buf| == BUFSIZE && done < |image|
    ensures var count := Min(BUFSIZE, |image| - done);
            var (k, rest) := Moved(script, |mem| - pos, count);
            var held := Held(mem, pos, script, count, buf);
            var short := if k < count then 1 else 0;
            Verified(mem, pos, script, image, done, buf) ==
            if held[..count] != image[done..done + count] then (-5, short)
            else Plus(short, Verified(mem, pos + k, rest, image, done + count, held))
  {
    hide Moved, StoreAt;
  }

  lemma FullyHeld(mem: seq<byte>, pos: nat, script: seq<Call>, count: nat, buf: seq<byte>)
    requires pos + count <= |mem| && count <= |buf| && Moved(script, |mem| - pos, count).0 == count
    ensures Held(mem, pos, script, count, buf)[..count] == mem[pos..pos + count]
  {
    hide Moved;
  }

  lemma EqualInPieces(mem: seq<byte>, image: seq<byte>, done: nat, count: nat)
    requires done + count <= |image| <= |mem|
    ensures mem[done..|image|] == image[done..] <==>
            mem[done..done + count] == image[done..done + count] && mem[done + count..|image|] == image[done + count..]
  {
    assert mem[done..|image|] == mem[done..done + count] + mem[done + count..|image|];
    assert image[done..] == image[done..done + count] + image[done + count..];
  }

  method VerifyPhase(d: Device, image: seq<byte>, buf: array<byte>) returns (code: int, shortReads: nat)
    requires d.Valid() && d.pos == 0 && buf.Length == BUFSIZE
    modifies d`pos, d`script, buf
    ensures d.Valid()
    ensures (code, shortReads) == Verified(d.mem, 0, old(d.script), image, 0, old(buf[..]))
  {
    hide Moved, StoreAt, Verified;
    var done := 0;
    code, shortReads := 0, 0;
    while done < |image|
      invariant d.Valid() && 0 <= done <= |image| && code == 0
      invariant Verified(d.mem, 0, old(d.script), image, 0, old(buf[..])) ==
                Plus(shortReads, Verified(d.mem, d.pos, d.script, image, done, buf[..]))
    {
      VerifiedStep(d.mem, d.pos, d.script, image, done, buf[..]);
      var count := Min(BUFSIZE, |image| - done);
      var size := FullRead(d, buf, count);
      if size != count {
        shortReads := shortReads + 1;
      }
      if buf[..count] != image[done..done + count] {
        code := -5;
        return;
      }
      done := done + count;
    }
    VerifiedEnd(d.mem, d.pos, d.script, image, done, buf[..]);
  }

  lemma VerifiedEnd(mem: seq<byte>, pos: nat, script: seq<Call>, image: seq<byte>, done: nat, buf: seq<byte>)
    requires pos <= |mem| && |buf| == BUFSIZE && done >= |image|
    ensures Verified(mem, pos, script, image, done, buf) == (0, 0)
  {
  }

  /** As long as no read comes up short, the verdict is exactly whether the flash holds the image, whatever
      the device did when it was written. */
  lemma {:induction false} VerifyIsComparison(mem: seq<byte>, script: seq<Call>, image: seq<byte>, done: nat, buf: seq<byte>)
    requires done <= |image| <= |mem| && |buf| == BUFSIZE
    requires Verified(mem, done, script, image, done, buf).1 == 0
    ensures Verified(mem, done, script, image, done, buf).0 == 0 <==> mem[done..|image|] == image[done..]
    decreases |image| - done
  {
    hide Moved, Held, Verified;
    if done == |image| {
      VerifiedEnd(mem, done, script, image, done, buf);
    } else {
      var count := Min(BUFSIZE, |image| - done);
      VerifiedStep(mem, done, script, image, done, buf);
      FullyHeld(mem, done, script, count, buf);
      EqualInPieces(mem, image, done, count);
      var held := Held(mem, done, script, count, buf);
      if held[..count] == image[done..done + count] {
        VerifyIsComparison(mem, Moved(script, |mem| - done, count).1, image, done + count, held);
      }
    }
  }

  lemma {:induction false} WillingReadsAll(mem: seq<byte>, script: seq<Call>, image: seq<byte>, done: nat, buf: seq<byte>)
    requires done <= |image| <= |mem| && |buf| == BUFSIZE && Willing(script) && |script| >= |image| - done
    ensures Verified(mem, done, script, image, done, buf).1 == 0
    decreases |image| - done
  {
    hide Moved, Held, Verified, Willing;
    if done == |image| {
      VerifiedEnd(mem, done, script, image, done, buf);
    } else {
      var count := Min(BUFSIZE, |image| - done);
      VerifiedStep(mem, done, script, image, done, buf);
      WillingMovesAll(script, |mem| - done, count);
      WillingReadsAll(mem, Moved(script, |mem| - done, count).1, image, done + count, Held(mem, done, script, count, buf));
    }
  }

  // ---------- when short reads go unnoticed ----------

  /** No read of the comparison comes up short; `room` bytes lie behind the read position. */
  predicate AllComplete(script: seq<Call>, room: nat, image: seq<byte>, done: nat)
    decreases |image| - done
  {
    done < |image| ==>
      var count := Min(BUFSIZE, |image| - done);
      var (k, rest) := Moved(script, room, count);
      k == count && AllComplete(rest, room - k, image, done + count)
  }

  /** From byte `k` on, the block at `done` is the same as the block before it. */
  predicate TailRepeats(image: seq<byte>, done: nat, k: nat)
    requires BUFSIZE <= done < |image| && k <= Min(BUFSIZE, |image| - done)
  {
    var end := done + Min(BUFSIZE, |image| - done);
    image[done + k..end] == image[done + k - BUFSIZE..end - BUFSIZE]
  }

  /** Behind the first block, every read that comes up short does so where the block repeats the one before. */
  predicate NeverCaught(script: seq<Call>, room: nat, image: seq<byte>, done: nat)
    decreases |image| - done
  {
    done < |image| ==>
      var count := Min(BUFSIZE, |image| - done);
      var (k, rest) := Moved(script, room, count);
      (done < BUFSIZE || TailRepeats(image, done, k)) && NeverCaught(rest, room - k, image, done + count)
  }

  /** The bytes actually read are those of the image at the places they are compared with. */
  predicate ReadsMatch(mem: seq<byte>, pos: nat, script: seq<Call>, image: seq<byte>, done: nat)
    requires pos <= |mem|
    decreases |image| - done
  {
    done < |image| ==>
      var count := Min(BUFSIZE, |image| - done);
      var (k, rest) := Moved(script, |mem| - pos, count);
      mem[pos..pos + k] == image[done..done + k] && ReadsMatch(mem, pos + k, rest, image, done + count)
  }

  /** What the buffer holds while the block at `done` is read: the block before it, once there is one. */
  predicate HoldsBlockBefore(image: seq<byte>, done: nat, buf: seq<byte>) {
    |buf| == BUFSIZE && (0 < done < |image| ==> done >= BUFSIZE && buf == image[done - BUFSIZE..done])
  }

  /** Nothing else of the first block is compared with leftovers than what its read did not bring. */
  predicate LeftoverMatches(script: seq<Call>, room: nat, image: seq<byte>, buf: seq<byte>)
    requires |buf| == BUFSIZE
  {
    var count := Min(BUFSIZE, |image|);
    var k := Moved(script, room, count).0;
    buf[k..count] == image[k..count]
  }

  lemma BlockPasses(mem: seq<byte>, pos: nat, script: seq<Call>, image: seq<byte>, done: nat, buf: seq<byte>)
    requires pos <= |mem| && done < |image| && |buf| == BUFSIZE
    ensures var count := Min(BUFSIZE, |image| - done);
            var k := Moved(script, |mem| - pos, count).0;
            var held := Held(mem, pos, script, count, buf);
            && (held[..count] == image[done..done + count] <==>
                  mem[pos..pos + k] == image[done..done + k] && buf[k..count] == image[done + k..done + count])
            && (held[..count] == image[done..done + count] ==> HoldsBlockBefore(image, done + count, held))
  {
    hide Moved;
    var count := Min(BUFSIZE, |image| - done);
    var k := Moved(script, |mem| - pos, count).0;
    var held := Held(mem, pos, script, count, buf);
    assert held[..count] == mem[pos..pos + k] + buf[k..count];
    assert image[done..done + count] == image[done..done + k] + image[done + k..done + count];
    EqualParts(mem[pos..pos + k], buf[k..count], image[done..done + k], image[done + k..done + count]);
    if held[..count] == image[done..done + count] && done + count < |image| {
      assert held == held[..count] == image[done + count - BUFSIZE..done + count];
    }
  }

  lemma EqualParts(a: seq<byte>, b: seq<byte>, c: seq<byte>, d: seq<byte>)
    requires |a| == |c| && |b| == |d|
    ensures a + b == c + d <==> a == c && b == d
  {
    assert (a + b)[..|a|] == a && (a + b)[|a|..] == b;
    assert (c + d)[..|a|] == c && (c + d)[|a|..] == d;
  }

  lemma SliceOfSlice(s: seq<byte>, a: nat, b: nat, i: nat, j: nat)
    requires a <= b <= |s| && i <= j <= b - a
    ensures s[a..b][i..j] == s[a + i..a + j]
  {
    var t, u := s[a..b][i..j], s[a + i..a + j];
    assert |t| == |u|;
    forall k | 0 <= k < |t|
      ensures t[k] == u[k]
    {
      assert t[k] == s[a..b][i + k] == s[a + i + k];
    }
    assert t == u;
  }

  /** When a block passes, said of the block's own bytes. */
  lemma BlockPassesIff(mem: seq<byte>, pos: nat, script: seq<Call>, image: seq<byte>, done: nat, buf: seq<byte>)
    requires pos <= |mem| && done < |image| && HoldsBlockBefore(image, done, buf) && (done == 0 || done >= BUFSIZE)
    ensures var count := Min(BUFSIZE, |image| - done);
            var k := Moved(script, |mem| - pos, count).0;
            var held := Held(mem, pos, script, count, buf);
            && (held[..count] == image[done..done + count] <==>
                  && mem[pos..pos + k] == image[done..done + k]
                  && if done == 0 then LeftoverMatches(script, |mem| - pos, image, buf) else TailRepeats(image, done, k))
            && (held[..count] == image[done..done + count] ==> HoldsBlockBefore(image, done + count, held))
  {
    hide Moved, Held;
    BlockPasses(mem, pos, script, image, done, buf);
    if done > 0 {
      var count := Min(BUFSIZE, |image| - done);
      var k := Moved(script, |mem| - pos, count).0;
      SliceOfSlice(image, done - BUFSIZE, done, k, count);
    }
  }

  /** Exactly when the comparison accepts, for every flash, image, device behaviour and buffer: the bytes read
      are the image's, the leftovers in the first block match, and no later short read is caught. */
  lemma {:induction false} AcceptsIff(mem: seq<byte>, pos: nat, script: seq<Call>, image: seq<byte>, done: nat, buf: seq<byte>)
    requires pos <= |mem| && HoldsBlockBefore(image, done, buf) && (done == 0 || done >= BUFSIZE || done >= |image|)
    ensures Verified(mem, pos, script, image, done, buf).0 == 0 <==>
            && ReadsMatch(mem, pos, script, image, done) && NeverCaught(script, |mem| - pos, image, done)
            && (done == 0 ==> LeftoverMatches(script, |mem| - pos, image, buf))
    decreases |image| - done
  {
    hide Moved, Held, Verified, LeftoverMatches, TailRepeats, HoldsBlockBefore;
    BufferSize(image, done, buf);
    if done >= |image| {
      VerifiedEnd(mem, pos, script, image, done, buf);
      if image == [] {
        NothingLeft(script, |mem| - pos, image, buf);
      }
    } else {
      var count := Min(BUFSIZE, |image| - done);
      var (k, rest) := Moved(script, |mem| - pos, count);
      var held := Held(mem, pos, script, count, buf);
      VerifiedStep(mem, pos, script, image, done, buf);
      BlockPassesIff(mem, pos, script, image, done, buf);
      if held[..count] == image[done..done + count] {
        AcceptsIff(mem, pos + k, rest, image, done + count, held);
      }
    }
  }

  lemma BufferSize(image: seq<byte>, done: nat, buf: seq<byte>)
    requires HoldsBlockBefore(image, done, buf)
    ensures |buf| == BUFSIZE
  {
  }

  lemma NothingLeft(script: seq<Call>, room: nat, image: seq<byte>, buf: seq<byte>)
    requires |buf| == BUFSIZE && image == []
    ensures LeftoverMatches(script, room, image, buf)
  {
  }

  /** Code 0 can be trusted: whatever the flash and the static buffer hold, it means that the flash holds the image. */
  ghost predicate Trustworthy(script: seq<Call>, size: nat, image: seq<byte>) {
    forall mem: seq<byte>, buf: seq<byte> ::
      |mem| == size && |buf| == BUFSIZE && Verified(mem, 0, script, image, 0, buf).0 == 0 ==> image <= mem
  }

  /** The bytes a flash has to deliver, read by read, to be taken for the image. */
  function Deceptive(script: seq<Call>, room: nat, image: seq<byte>, done: nat): (b: seq<byte>)
    requires done <= |image|
    ensures |b| <= room && |b| <= |image| - done
    ensures |b| == |image| - done ==> AllComplete(script, room, image, done)
    decreases |image| - done
  {
    if done >= |image| then []
    else
      var count := Min(BUFSIZE, |image| - done);
      var (k, rest) := Moved(script, room, count);
      image[done..done + k] + Deceptive(rest, room - k, image, done + count)
  }

  lemma DeceptiveStep(script: seq<Call>, room: nat, image: seq<byte>, done: nat)
    requires done < |image|
    ensures var (k, rest) := Moved(script, room, Min(BUFSIZE, |image| - done));
            Deceptive(script, room, image, done) ==
            image[done..done + k] + Deceptive(rest, room - k, image, done + Min(BUFSIZE, |image| - done))
  {
    hide Moved;
  }

  lemma {:induction false} DeceptiveMatches(mem: seq<byte>, pos: nat, script: seq<Call>, image: seq<byte>, done: nat)
    requires pos <= |mem| && done <= |image|
    requires Deceptive(script, |mem| - pos, image, done) <= mem[pos..]
    ensures ReadsMatch(mem, pos, script, image, done)
    decreases |image| - done
  {
    hide Moved, Deceptive;
    if done < |image| {
      var count := Min(BUFSIZE, |image| - done);
      var (k, rest) := Moved(script, |mem| - pos, count);
      DeceptiveStep(script, |mem| - pos, image, done);
      DeliversInOrder(mem, pos, image[done..done + k], Deceptive(rest, |mem| - (pos + k), image, done + count));
      DeceptiveMatches(mem, pos + k, rest, image, done + count);
    }
  }

  lemma DeliversInOrder(mem: seq<byte>, pos: nat, a: seq<byte>, b: seq<byte>)
    requires pos + |a| <= |mem| && a + b <= mem[pos..]
    ensures mem[pos..pos + |a|] == a && b <= mem[pos + |a|..]
  {
    assert mem[pos..][..|a|] == (a + b)[..|a|] && mem[pos..][|a|..][..|b|] == (a + b)[|a|..];
    assert mem[pos..][|a|..] == mem[pos + |a|..];
  }

  /** For every device behaviour, flash size and image: code 0 can be trusted if and only if no read comes up
      short, or some read behind the first block comes up short where the block differs from the one before. */
  lemma TrustworthyIff(script: seq<Call>, size: nat, image: seq<byte>)
    requires |image| <= size
    ensures Trustworthy(script, size, image) <==> AllComplete(script, size, image, 0) || !NeverCaught(script, size, image, 0)
  {
    hide Moved, Verified, AllComplete, NeverCaught, ReadsMatch, Deceptive, LeftoverMatches;
    if AllComplete(script, size, image, 0) || !NeverCaught(script, size, image, 0) {
      forall mem: seq<byte>, buf: seq<byte> | |mem| == size && |buf| == BUFSIZE && Verified(mem, 0, script, image, 0, buf).0 == 0
        ensures image <= mem
      {
        AcceptsIff(mem, 0, script, image, 0, buf);
        CompleteIsNotShort(mem, 0, script, image, 0, buf);
        VerifyIsComparison(mem, script, image, 0, buf);
        assert mem[0..|image|] == mem[..|image|] && image[0..] == image;
      }
    } else {
      var b := Deceptive(script, size, image, 0);
      CompleteWhenEmpty(script, size, image);
      var other: byte := if image[|b|] == 0 then 1 else 0;
      var mem := b + [other] + seq(size - |b| - 1, _ => 0);
      var count := Min(BUFSIZE, |image|);
      var buf := image[..count] + seq(BUFSIZE - count, _ => 0);
      assert b <= mem[0..];
      DeceptiveMatches(mem, 0, script, image, 0);
      LeftoverOfImage(script, size, image, buf);
      AcceptsIff(mem, 0, script, image, 0, buf);
      assert mem[|b|] != image[|b|];
    }
  }

  lemma CompleteWhenEmpty(script: seq<Call>, size: nat, image: seq<byte>)
    ensures var b := Deceptive(script, size, image, 0);
            !AllComplete(script, size, image, 0) ==> |b| < |image|
  {
  }

  lemma LeftoverOfImage(script: seq<Call>, size: nat, image: seq<byte>, buf: seq<byte>)
    requires |buf| == BUFSIZE && buf[..Min(BUFSIZE, |image|)] == image[..Min(BUFSIZE, |image|)]
    ensures LeftoverMatches(script, size, image, buf)
  {
    hide Moved;
    var count := Min(BUFSIZE, |image|);
    var k := Moved(script, size, count).0;
    assert buf[k..count] == buf[..count][k..] && image[k..count] == image[..count][k..];
  }

  lemma {:induction false} CompleteIsNotShort(mem: seq<byte>, pos: nat, script: seq<Call>, image: seq<byte>, done: nat, buf: seq<byte>)
    requires pos <= |mem| && |buf| == BUFSIZE
    ensures AllComplete(script, |mem| - pos, image, done) ==> Verified(mem, pos, script, image, done, buf).1 == 0
    decreases |image| - done
  {
    hide Moved, Held, Verified;
    if done >= |image| {
      VerifiedEnd(mem, pos, script, image, done, buf);
    } else {
      var count := Min(BUFSIZE, |image| - done);
      var (k, rest) := Moved(script, |mem| - pos, count);
      VerifiedStep(mem, pos, script, image, done, buf);
      CompleteIsNotShort(mem, pos + k, rest, image, done + count, Held(mem, pos, script, count, buf));
    }
  }

  /** A leftover from an earlier run: when the only read fails and the static buffer still holds the image, any
      flash content is reported as good. */
  lemma StaleBufferAccepted(mem: seq<byte>, image: seq<byte>, buf: seq<byte>)
    requires |buf| == BUFSIZE && 0 < |image| <= BUFSIZE && buf[..|image|] == image
    ensures Verified(mem, 0, [Failed], image, 0, buf) == (0, 1)
  {
    var (k, rest) := Moved([Failed], |mem|, |image|);
    assert Settled([Failed], 0) == (Failed, []);
    assert StoreAt(buf, 0, mem[0..0]) == buf;
  }

  /** Nothing stale is needed: with an image of two equal blocks, one complete read and one that fails, the
      second block of the flash may hold anything. */
  lemma RepeatedBlockAccepted(mem: seq<byte>, block: seq<byte>, buf: seq<byte>)
    requires |buf| == |block| == BUFSIZE && |mem| >= 2 * BUFSIZE && mem[..BUFSIZE] == block
    ensures Verified(mem, 0, [Transfer(BUFSIZE, []), Failed], block + block, 0, buf) == (0, 1)
  {
    hide Moved, Held, Verified;
    var script, image := [Transfer(BUFSIZE, []), Failed], block + block;
    FirstWholeThenNone(script, |mem|);
    SecondOfTwo(mem, block);
    VerifiedStep(mem, 0, script, image, 0, buf);
    FullyHeld(mem, 0, script, BUFSIZE, buf);
    var held := Held(mem, 0, script, BUFSIZE, buf);
    assert held == held[..BUFSIZE] == mem[0..BUFSIZE] == block == image[0..BUFSIZE];
  }

  lemma SecondOfTwo(mem: seq<byte>, block: seq<byte>)
    requires |block| == BUFSIZE && |mem| >= 2 * BUFSIZE
    ensures Verified(mem, BUFSIZE, [Failed], block + block, BUFSIZE, block) == (0, 1)
  {
    hide Moved, Held, Verified;
    var image := block + block;
    FirstWholeThenNone([Transfer(BUFSIZE, []), Failed], |mem|);
    VerifiedStep(mem, BUFSIZE, [Failed], image, BUFSIZE, block);
    NothingHeld(mem, BUFSIZE, [Failed], BUFSIZE, block);
    assert block[..BUFSIZE] == block == image[BUFSIZE..2 * BUFSIZE];
    VerifiedEnd(mem, BUFSIZE, [], image, 2 * BUFSIZE, block);
  }

  lemma FirstWholeThenNone(script: seq<Call>, size: nat)
    requires script == [Transfer(BUFSIZE, []), Failed] && size >= 2 * BUFSIZE
    ensures Moved(script, size, BUFSIZE) == (BUFSIZE, [Failed])
    ensures Moved([Failed], size - BUFSIZE, BUFSIZE) == (0, [])
  {
    assert Settled(script, 0) == (script[0], [Failed]) && Settled([Failed], 0) == (Failed, []);
    assert Moved([Failed], size - BUFSIZE, 0) == (0, [Failed]);
  }

  lemma NothingHeld(mem: seq<byte>, pos: nat, script: seq<Call>, count: nat, buf: seq<byte>)
    requires pos <= |mem| && count <= |buf| && Moved(script, |mem| - pos, count).0 == 0
    ensures Held(mem, pos, script, count, buf) == buf
  {
    hide Moved;
  }

  // ---------- when the erase sum wraps ----------

  function Uniform(n: nat, b: byte): (s: seq<byte>)
    ensures |s| == n && forall i :: 0 <= i < n ==> s[i] == b
  {
    seq(n, _ => b)
  }

  predicate AllFail(script: seq<Call>) {
    forall c <- script :: c.Failed?
  }

  lemma NothingMoves(script: seq<Call>, room: nat, count: nat)
    requires AllFail(script)
    ensures Moved(script, room, count).0 == 0 && AllFail(Moved(script, room, count).1)
  {
    if script != [] {
      assert script[0] in script;
    }
  }

  /** On failing reads an image of equal bytes is compared with itself, once the buffer holds one block of it. */
  lemma {:induction false} UniformPasses(mem: seq<byte>, script: seq<Call>, n: nat, b: byte, done: nat)
    requires AllFail(script)
    ensures Verified(mem, 0, script, Uniform(n, b), done, Uniform(BUFSIZE, b)).0 == 0
    decreases n - done
  {
    hide Moved, Verified;
    var image, buf := Uniform(n, b), Uniform(BUFSIZE, b);
    if done >= n {
      VerifiedEnd(mem, 0, script, image, done, buf);
    } else {
      var count := Min(BUFSIZE, n - done);
      NothingMoves(script, |mem|, count);
      NothingHeld(mem, 0, script, count, buf);
      VerifiedStep(mem, 0, script, image, done, buf);
      assert buf[..count] == image[done..done + count];
      UniformPasses(mem, Moved(script, |mem|, count).1, n, b, done + count);
    }
  }

  lemma ZerosStay(n: nat, data: seq<byte>)
    requires |data| <= n
    ensures ProgramAt(Uniform(n, 0), 0, data) == Uniform(n, 0)
  {
    assert forall b: byte :: Programmed(0, b) == 0;
  }

  /** With a wrapped sum even a faithful device is misjudged: an image of the size in `EraseWraps`, all bytes 1,
      goes to a flash of zeros; nothing is erased, programming leaves zeros, and when every read fails and the static
      buffer holds bytes 1 from an earlier run the comparison reports success. */
  lemma WrappedRunAccepted(script: seq<Call>)
    requires AllFail(script)
    ensures var eraseSize, size := 0x30000, 0xFFFF0000;
            var image, flash := Uniform(size, 1), Uniform(size, 0);
            && Span(EraseCount(size, eraseSize), eraseSize) == 0 && RoundUp(size) == size
            && ProgramAt(Erased(flash, 0), 0, Padded(image)) == flash != image
            && Verified(flash, 0, script, image, 0, Uniform(BUFSIZE, 1)).0 == 0
  {
    hide Verified, ProgramAt;
    var size := 0xFFFF0000;
    var image, flash := Uniform(size, 1), Uniform(size, 0);
    EraseWraps();
    assert Erased(flash, 0) == flash;
    ZerosStay(size, Padded(image));
    UniformPasses(flash, script, size, 1, 0);
    assert flash[0] != image[0];
  }

  // ---------- the whole run ----------

  /** What a faithful device holds behind a complete run: the image, then the rest of the erased blocks,
      then everything it held before. */
  function Flashed(was: seq<byte>, image: seq<byte>, limit: nat): seq<byte>
    requires |image| <= limit <= |was|
  {
    image + Ones(limit - |image|) + was[limit..]
  }

  lemma WrittenIsFlashed(was: seq<byte>, image: seq<byte>, limit: nat)
    requires |image| <= limit <= |was| && RoundUp(|image|) <= |was|
    ensures ProgramAt(Erased(was, limit), 0, Padded(image)) == Flashed(was, image, limit)
  {
    hide Programmed;
    var m := Erased(was, limit);
    forall i | 0 <= i < |was|
      ensures ProgramAt(m, 0, Padded(image))[i] == Flashed(was, image, limit)[i]
    {
      ProgramOnes(m[i]);
      if i < |image| {
        ProgramOnes(image[i]);
      }
    }
  }

  /** When the run is sure to succeed: the image is not empty, its erased blocks and its padded blocks fit the
      device, and the device answers every call it is asked for. */
  predicate Succeeds(mem: seq<byte>, eraseSize: nat, script: seq<Call>, image: seq<byte>)
    requires eraseSize > 0
  {
    && image != []
    && |image| <= Span(EraseCount(|image|, eraseSize), eraseSize) <= |mem| && RoundUp(|image|) <= |mem|
    && Willing(script) && |script| >= EraseCount(|image|, eraseSize) + RoundUp(|image|) + |image|
  }

  lemma WillingIsFaithful(script: seq<Call>)
    requires Willing(script)
    ensures Faithful(script)
  {
  }

  lemma FlashedHoldsImage(was: seq<byte>, image: seq<byte>, limit: nat)
    requires |image| <= limit <= |was|
    ensures Flashed(was, image, limit)[0..|image|] == image[0..]
  {
  }

  /** Erases, writes and verifies. `buf` is the static read buffer, which outlives the call. If no read came
      up short, code 0 means that the flash holds the image, on any device. If the erase sum does not wrap, so
      that the erased blocks cover the image, then on a faithful device code 0 means so whatever the reads do,
      and nothing beyond the erased blocks changes, not even when the run fails half way or the padded last
      block reaches beyond them. Each error code says which step failed. */
  method FlashCp(d: Device, image: seq<byte>, opens: bool, isMtd: bool, buf: array<byte>) returns (code: int, shortReads: nat)
    requires d.Valid() && |image| < U32 && buf.Length == BUFSIZE
    modifies d`mem, d`pos, d`script, buf
    ensures -5 <= code <= 0 && |d.mem| == old(|d.mem|)
    ensures code == -1 <==> image == [] || !opens
    ensures code == -2 <==> image != [] && opens && (!isMtd || |image| > |d.mem|)
    ensures code == -1 || code == -2 ==> d.mem == old(d.mem)
    ensures code == 0 ==> 0 < |image| <= RoundUp(|image|) <= |d.mem|
    ensures code == 0 && shortReads == 0 ==> d.mem[..|image|] == image
    ensures code == -5 && shortReads == 0 ==> |image| <= |d.mem| && d.mem[..|image|] != image
    ensures var limit := Span(EraseCount(|image|, d.eraseSize), d.eraseSize);
            code != -1 && code != -2 ==>
              && (limit > |d.mem| ==> code == -3)
              && (Willing(old(d.script)) && |old(d.script)| >= EraseCount(|image|, d.eraseSize) && limit <= |d.mem| < RoundUp(|image|)
                  ==> code == -4)
    ensures var limit := Span(EraseCount(|image|, d.eraseSize), d.eraseSize);
            Faithful(old(d.script)) && limit >= |image| ==>
              && SameBeyond(old(d.mem), d.mem, limit)
              && (code == 0 ==> limit <= |d.mem| && d.mem == Flashed(old(d.mem), image, limit))
    ensures Succeeds(old(d.mem), d.eraseSize, old(d.script), image) && opens && isMtd ==> code == 0 && shortReads == 0
  {
    hide EraseCount, Faithful, Willing, ProgramAt, SameBeyond, Verified, Flashed;
    shortReads := 0;
    SameAtFirst(d.mem, Span(EraseCount(|image|, d.eraseSize), d.eraseSize));
    if |image| == 0 || !opens {
      return -1, 0;
    }
    if !isMtd || |image| > |d.mem| {
      return -2, 0;
    }
    ghost var limit := Span(EraseCount(|image|, d.eraseSize), d.eraseSize);
    var erased := ErasePhase(d, |image|);
    SameLength(old(d.mem), d.mem, limit);
    if !erased {
      return -3, 0;
    }
    d.Seek();
    ghost var blank := d.mem;
    var written := WritePhase(d, image);
    if Faithful(old(d.script)) && limit >= |image| {
      SameThrough(old(d.mem), blank, d.mem, |image|, limit);
      if written {
        WrittenIsFlashed(old(d.mem), image, limit);
      }
    }
    if !written {
      return -4, 0;
    }
    d.Seek();
    ghost var script, was := d.script, buf[..];
    if Succeeds(old(d.mem), d.eraseSize, old(d.script), image) {
      WillingIsFaithful(old(d.script));
      WillingReadsAll(d.mem, script, image, 0, was);
      FlashedHoldsImage(old(d.mem), image, limit);
    }
    code, shortReads := VerifyPhase(d, image, buf);
    if shortReads == 0 {
      VerifyIsComparison(d.mem, script, image, 0, was);
    }
  }

  lemma SameLength(was: seq<byte>, now: seq<byte>, limit: nat)
    requires SameBeyond(was, now, limit)
    ensures |was| == |now|
  {
  }
}
