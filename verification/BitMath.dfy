/** Bitwise operations on unsigned numbers, and what they mean for powers of two. */
module BitMath {

  function Pow2(k: nat): (n: nat)
    ensures n > 0
  {
    if k == 0 then 1 else 2 * Pow2(k - 1)
  }

  function And(a: nat, b: nat): nat {
    if a == 0 || b == 0 then 0
    else (if a % 2 == 1 && b % 2 == 1 then 1 else 0) + 2 * And(a / 2, b / 2)
  }

  function Or(a: nat, b: nat): nat
    decreases a + b
  {
    if a == 0 then b
    else if b == 0 then a
    else (if a % 2 == 1 || b % 2 == 1 then 1 else 0) + 2 * Or(a / 2, b / 2)
  }

  predicate IsPowerOf2(n: nat) {
    n != 0 && And(n, n - 1) == 0
  }

  /** Masking with a power of two less one is the remainder. */
  lemma {:induction false} AndMask(a: nat, k: nat)
    ensures And(a, Pow2(k) - 1) == a % Pow2(k)
  {
    if k > 0 && a > 0 {
      var p := Pow2(k - 1);
      var b := 2 * p - 1;
      AndMask(a / 2, k - 1);
      assert b / 2 == p - 1 && b % 2 == 1;
      assert And(a, b) == a % 2 + 2 * And(a / 2, p - 1);
      HalfMod(a, p);
    } else if a == 0 {
      ModUnique(0, Pow2(k), 0, 0);
    }
  }

  lemma HalfMod(a: nat, p: nat)
    requires p > 0
    ensures a % (2 * p) == a % 2 + 2 * (a / 2 % p)
  {
    var q, r := a / 2 / p, a / 2 % p;
    Split(a / 2, p);
    assert a == 2 * (p * q + r) + a % 2;
    MulAssoc(2, p, q);
    ModUnique(a, 2 * p, q, a % 2 + 2 * r);
  }

  lemma Split(n: int, p: nat)
    requires p > 0
    ensures n == p * (n / p) + n % p && 0 <= n % p < p
  {
  }

  lemma MulAssoc(a: int, b: int, c: int)
    ensures a * (b * c) == (a * b) * c
  {
  }

  lemma MulDist(a: int, b: int, c: int)
    ensures a * (b + c) == a * b + a * c && a * (b - c) == a * b - a * c
  {
  }

  lemma MulMono(p: nat, a: int, b: int)
    requires a <= b
    ensures p * a <= p * b
  {
  }

  lemma QuotientAtLeast(n: int, p: nat, l: int)
    requires p > 0 && p * l <= n
    ensures n / p >= l
  {
    Split(n, p);
    if n / p + 1 <= l {
      MulMono(p, n / p + 1, l);
      MulDist(p, n / p, 1);
    }
  }

  lemma QuotientBelow(n: int, p: nat, u: int)
    requires p > 0 && n < p * u
    ensures n / p < u
  {
    Split(n, p);
    if n / p >= u {
      MulMono(p, u, n / p);
    }
  }

  lemma ModUnique(a: int, m: nat, q: int, r: int)
    requires m > 0 && 0 <= r < m && a == m * q + r
    ensures a % m == r && a / m == q
  {
    QuotientAtLeast(a, m, q);
    MulDist(m, q, 1);
    QuotientBelow(a, m, q + 1);
    Split(a, m);
  }

  lemma {:induction false} AndZeroIsPower(n: nat)
    requires IsPowerOf2(n)
    ensures exists k: nat :: n == Pow2(k)
  {
    if n == 1 {
      assert n == Pow2(0);
    } else if n % 2 == 1 {
      // both end in a one bit above the lowest one
      assert (n - 1) / 2 == n / 2;
      AndSelf(n / 2);
    } else {
      assert (n - 1) % 2 == 1 && (n - 1) / 2 == n / 2 - 1;
      AndZeroIsPower(n / 2);
      var k: nat :| n / 2 == Pow2(k);
      assert n == Pow2(k + 1);
    }
  }

  lemma {:induction false} AndSelf(n: nat)
    ensures And(n, n) == n
  {
    if n > 0 {
      AndSelf(n / 2);
    }
  }

  lemma {:induction false} PowerIsAndZero(k: nat)
    ensures IsPowerOf2(Pow2(k))
  {
    if k > 0 {
      var p := Pow2(k - 1);
      PowerIsAndZero(k - 1);
      assert (2 * p - 1) / 2 == p - 1;
    }
  }

  lemma {:induction false} Pow2Add(a: nat, b: nat)
    ensures Pow2(a + b) == Pow2(a) * Pow2(b)
  {
    if a > 0 {
      Pow2Add(a - 1, b);
    }
  }

  lemma {:induction false} Pow2Monotone(a: nat, b: nat)
    requires a <= b
    ensures Pow2(a) <= Pow2(b)
  {
    if a < b {
      Pow2Monotone(a, b - 1);
    }
  }

  // ---------- rounding down to a power of two ----------

  /** The program's bit smearing: every bit below the highest one is set, then the lower half removed. */
  function RounddownPowOfTwo(n: nat): nat {
    if n == 0 then 0
    else
      var n1 := Or(n, n / 2);
      var n2 := Or(n1, n1 / 4);
      var n4 := Or(n2, n2 / 16);
      var n8 := Or(n4, n4 / 256);
      var n16 := Or(n8, n8 / 65536);
      n16 - n16 / 2
  }

  /** The `w` highest of the bits `0..t` are set, or all of them. */
  predicate Smeared(n: nat, t: nat, w: nat) {
    Pow2(t + 1) - Pow2(if w > t + 1 then 0 else t + 1 - w) <= n < Pow2(t + 1)
  }

  lemma {:induction false} OrBounds(a: nat, b: nat, m: nat)
    requires a < Pow2(m) && b < Pow2(m)
    ensures a <= Or(a, b) < Pow2(m) && b <= Or(a, b)
    decreases m
  {
    if a != 0 && b != 0 {
      OrBounds(a / 2, b / 2, m - 1);
    }
  }

  lemma HighHalf(h: nat, low: nat, m: nat)
    requires m > 0
    ensures (h * Pow2(m) + low) / 2 == h * Pow2(m - 1) + low / 2
    ensures (h * Pow2(m) + low) % 2 == low % 2
    ensures h > 0 ==> h * Pow2(m) + low > 0
  {
    var p := Pow2(m - 1);
    MulAssoc(h, 2, p);
    assert h * Pow2(m) == 2 * (h * p);
    if h > 0 {
      MulMono(Pow2(m), 1, h);
    }
  }

  /** High bits that only the first operand has stay in front. */
  lemma {:induction false} OrHigh(h: nat, low: nat, b: nat, m: nat)
    requires low < Pow2(m) && b < Pow2(m)
    ensures Or(h * Pow2(m) + low, b) == h * Pow2(m) + Or(low, b)
    decreases m
  {
    if m > 0 && b > 0 && (low > 0 || h > 0) {
      HighHalf(h, low, m);
      HighHalf(h, Or(low, b), m);
      OrHigh(h, low / 2, b / 2, m - 1);
      assert Or(low, b) / 2 == Or(low / 2, b / 2);
    }
  }

  lemma SmearStep(n: nat, t: nat, w: nat)
    requires w > 0 && Smeared(n, t, w)
    ensures Smeared(Or(n, n / Pow2(w)), t, 2 * w)
  {
    hide Or, Pow2;
    var x := n / Pow2(w);
    if w > t {
      MulMono(n + 1, 1, Pow2(w));
      QuotientBelow(n, Pow2(w), n + 1);
      OrBounds(n, x, t + 1);
    } else {
      SmearUpper(n, t, w, t + 1 - w);
    }
  }

  lemma SmearUpper(n: nat, t: nat, w: nat, m: nat)
    requires w > 0 && m > 0 && t + 1 == w + m
    requires Pow2(t + 1) - Pow2(m) <= n < Pow2(t + 1)
    ensures Pow2(t + 1) - Pow2(if w > m then 0 else m - w) <= Or(n, n / Pow2(w)) < Pow2(t + 1)
  {
    hide Or, Pow2;
    var x, h, low := n / Pow2(w), Pow2(w) - 1, n - (Pow2(t + 1) - Pow2(m));
    Pow2Add(w, m);
    MulDist(Pow2(m), Pow2(w), 1);
    assert n == h * Pow2(m) + low;
    QuotientBounds(n, w, m);
    OrHigh(h, low, x, m);
    OrBounds(low, x, m);
  }

  lemma QuotientBounds(n: nat, w: nat, m: nat)
    requires w > 0 && Pow2(w + m) - Pow2(m) <= n < Pow2(w + m)
    ensures Pow2(m) - Pow2(if w > m then 0 else m - w) <= n / Pow2(w) < Pow2(m)
  {
    var p := Pow2(w);
    Pow2Add(w, m);
    QuotientBelow(n, p, Pow2(m));
    if w <= m {
      Pow2Add(w, m - w);
      MulDist(p, Pow2(m), Pow2(m - w));
      QuotientAtLeast(n, p, Pow2(m) - Pow2(m - w));
    } else {
      Pow2Monotone(m, w);
      MulDist(p, Pow2(m), 1);
      QuotientAtLeast(n, p, Pow2(m) - 1);
    }
  }

  lemma {:induction false} HighestBit(n: nat)
    requires n > 0
    ensures exists t: nat :: Pow2(t) <= n < Pow2(t + 1)
  {
    if n == 1 {
      assert Pow2(0) <= n < Pow2(1);
    } else {
      HighestBit(n / 2);
      var t: nat :| Pow2(t) <= n / 2 < Pow2(t + 1);
      assert Pow2(t + 1) <= n < Pow2(t + 2);
    }
  }

  lemma Powers()
    ensures Pow2(1) == 2 && Pow2(2) == 4 && Pow2(4) == 16 && Pow2(8) == 256 && Pow2(16) == 65536
    ensures Pow2(32) == 0x1_0000_0000
  {
    assert Pow2(1) == 2 && Pow2(2) == 4 && Pow2(3) == 8;
    assert Pow2(4) == 16 && Pow2(5) == 32 && Pow2(6) == 64;
    assert Pow2(7) == 128 && Pow2(8) == 256;
    hide Pow2;
    Pow2Add(8, 8);
    assert Pow2(16) == 65536;
    Pow2Add(16, 16);
  }

  /** The result is the largest power of two not above a 32-bit number. */
  lemma RounddownIsHighestPower(n: nat) returns (t: nat)
    requires 0 < n < 0x1_0000_0000
    ensures RounddownPowOfTwo(n) == Pow2(t) && Pow2(t) <= n < 2 * Pow2(t) && t < 32
  {
    HighestBit(n);
    t :| Pow2(t) <= n < Pow2(t + 1);
    Powers();
    if t >= 32 {
      Pow2Monotone(32, t);
    }
    assert Pow2(t + 1) == 2 * Pow2(t);
    hide Or, Smeared, Pow2;
    SmearedAtFirst(n, t);
    var n1 := Or(n, n / 2);
    SmearStep(n, t, 1);
    var n2 := Or(n1, n1 / 4);
    SmearStep(n1, t, 2);
    var n4 := Or(n2, n2 / 16);
    SmearStep(n2, t, 4);
    var n8 := Or(n4, n4 / 256);
    SmearStep(n4, t, 8);
    SmearStep(n8, t, 16);
    SmearedAtLast(Or(n8, n8 / 65536), t);
  }

  lemma SmearedAtFirst(n: nat, t: nat)
    requires Pow2(t) <= n < Pow2(t + 1)
    ensures Smeared(n, t, 1)
  {
  }

  lemma SmearedAtLast(n: nat, t: nat)
    requires t < 32 && Smeared(n, t, 32)
    ensures n == 2 * Pow2(t) - 1
  {
    assert (if 32 > t + 1 then 0 else t + 1 - 32) == 0;
  }

  // ---------- counters that wrap ----------

  /** A count taken modulo 2^32 has the same remainder by any capacity that is a power of two. */
  lemma ModOfMod(x: int, k: nat, j: nat)
    requires k <= j
    ensures x % Pow2(j) % Pow2(k) == x % Pow2(k)
  {
    var p, c := Pow2(j - k), Pow2(k);
    Pow2Add(k, j - k);
    RemainderOfMultiple(x, c, p);
  }

  lemma RemainderOfMultiple(x: int, c: nat, p: nat)
    requires c > 0 && p > 0 && c * p > 0
    ensures x % (c * p) % c == x % c
  {
    var q, r := x / (c * p), x % (c * p);
    Split(x, c * p);
    Split(r, c);
    MulAssoc(c, p, q);
    MulDist(c, p * q, r / c);
    ModUnique(x, c, p * q + r / c, r % c);
  }

  /** Two counts less than the capacity apart fall on different slots. */
  lemma DistinctSlots(x: int, d: int, cap: nat)
    requires 0 < d < cap
    ensures x % cap != (x + d) % cap
  {
    var q, r := x / cap, x % cap;
    Split(x, cap);
    if r + d < cap {
      ModUnique(x + d, cap, q, r + d);
    } else {
      MulDist(cap, q, 1);
      ModUnique(x + d, cap, q + 1, r + d - cap);
    }
  }
}
