/** Which channel the polling mode wakes at each second pulse, for any number of channels. */
module Polling {
  import opened Basics
  import opened BitMath

  /** The search loop: the first active channel from `next` on, going round once. */
  function PollFrom(active: set<nat>, next: nat, n: nat, step: nat): Option<nat>
    requires n > 0
    decreases n - step
  {
    if step >= n then None
    else if (next + step) % n in active then Some((next + step) % n)
    else PollFrom(active, next, n, step + 1)
  }

  /** How many active channels lie below `c`. */
  function Rank(active: set<nat>, c: nat): nat {
    if c == 0 then 0 else Rank(active, c - 1) + if c - 1 in active then 1 else 0
  }

  lemma {:induction false} RankMonotone(active: set<nat>, a: nat, b: nat)
    requires a <= b
    ensures Rank(active, a) <= Rank(active, b)
    decreases b
  {
    if a < b {
      RankMonotone(active, a, b - 1);
    }
  }

  lemma RankLess(active: set<nat>, a: nat, b: nat)
    requires a in active && a < b
    ensures Rank(active, a) < Rank(active, b)
  {
    RankMonotone(active, a + 1, b);
  }

  /** An active channel is determined by its rank. */
  lemma RankInjective(active: set<nat>, a: nat, b: nat)
    requires a in active && b in active && Rank(active, a) == Rank(active, b)
    ensures a == b
  {
    if a < b {
      RankLess(active, a, b);
    } else if b < a {
      RankLess(active, b, a);
    }
  }

  /** The searched part of the circle holds no active channel. */
  predicate Searched(active: set<nat>, next: nat, n: nat, step: nat) {
    if next + step < n then Rank(active, next + step) == Rank(active, next)
    else next + step - n <= n && Rank(active, next) == Rank(active, n) && Rank(active, next + step - n) == 0
  }

  function Place(next: nat, n: nat, step: nat): nat
    requires next < n && step < n
  {
    if next + step < n then next + step else next + step - n
  }

  lemma PlaceIsMod(next: nat, n: nat, step: nat)
    requires next < n && step < n
    ensures (next + step) % n == Place(next, n, step)
  {
    ModUnique(next + step, n, if next + step < n then 0 else 1, Place(next, n, step));
  }

  lemma SearchedStep(active: set<nat>, next: nat, n: nat, step: nat)
    requires next < n && step < n && Searched(active, next, n, step) && Place(next, n, step) !in active
    ensures Searched(active, next, n, step + 1)
  {
  }

  lemma FoundRank(active: set<nat>, next: nat, n: nat, step: nat)
    requires next < n && step < n && Searched(active, next, n, step) && Place(next, n, step) in active
    ensures Rank(active, n) > 0
    ensures Rank(active, Place(next, n, step)) == Rank(active, next) % Rank(active, n)
  {
    var c, k := Place(next, n, step), Rank(active, n);
    RankLess(active, c, n);
    if next + step < n {
      ModUnique(Rank(active, next), k, 0, Rank(active, next));
    } else {
      ModUnique(k, k, 1, 0);
    }
  }

  lemma {:induction false} PollFromRank(active: set<nat>, next: nat, n: nat, step: nat)
    requires next < n && step <= n && Rank(active, n) > 0 && Searched(active, next, n, step)
    ensures var r := PollFrom(active, next, n, step);
            r.Some? && r.value < n && r.value in active &&
            Rank(active, r.value) == Rank(active, next) % Rank(active, n)
    decreases n - step
  {
    hide Rank;
    if step == n {
      assert false;
    } else {
      PlaceIsMod(next, n, step);
      if Place(next, n, step) in active {
        FoundRank(active, next, n, step);
      } else {
        SearchedStep(active, next, n, step);
        PollFromRank(active, next, n, step + 1);
      }
    }
  }

  /** One poll selects the active channel whose rank is that of the start position, modulo their number. */
  lemma PollSelects(active: set<nat>, next: nat, n: nat)
    requires next < n && Rank(active, n) > 0
    ensures var r := PollFrom(active, next, n, 0);
            r.Some? && r.value < n && r.value in active &&
            Rank(active, r.value) == Rank(active, next) % Rank(active, n)
  {
    PollFromRank(active, next, n, 0);
  }

  /** The position behind a selected channel has the next rank. */
  lemma NextRank(active: set<nat>, ch: nat, n: nat)
    requires ch < n && ch in active
    ensures Rank(active, n) > 0
    ensures Rank(active, (ch + 1) % n) % Rank(active, n) == (Rank(active, ch) + 1) % Rank(active, n)
  {
    RankMonotone(active, ch + 1, n);
    var k := Rank(active, n);
    if ch + 1 < n {
      ModUnique(ch + 1, n, 0, ch + 1);
    } else {
      ModUnique(n, n, 1, 0);
      ModUnique(k, k, 1, 0);
      ModUnique(0, k, 0, 0);
    }
  }

  // ---------- counting ----------

  /** How often residue `r` is met among the `n` numbers from `start` on, modulo `k`. */
  function Hits(start: nat, n: nat, k: nat, r: nat): nat
    requires k > 0
  {
    if n == 0 then 0 else Hits(start, n - 1, k, r) + if (start + (n - 1)) % k == r then 1 else 0
  }

  lemma {:induction false} HitsClosedForm(start: nat, n: nat, k: nat, r: nat)
    requires r < k
    ensures Hits(start, n, k, r) == (start + n + (k - 1 - r)) / k - (start + (k - 1 - r)) / k
  {
    if n > 0 {
      HitsClosedForm(start, n - 1, k, r);
      QuotientStep(start + (n - 1), k, r);
    }
  }

  lemma QuotientStep(m: nat, k: nat, r: nat)
    requires r < k
    ensures (m + 1 + (k - 1 - r)) / k - (m + (k - 1 - r)) / k == if m % k == r then 1 else 0
  {
    var q, s := m / k, m % k;
    Split(m, k);
    MulDist(k, q, 1);
    if s < r {
      ModUnique(m + 1 + (k - 1 - r), k, q, s + 1 + (k - 1 - r));
      ModUnique(m + (k - 1 - r), k, q, s + (k - 1 - r));
    } else if s == r {
      ModUnique(m + 1 + (k - 1 - r), k, q + 1, 0);
      ModUnique(m + (k - 1 - r), k, q, k - 1);
    } else {
      ModUnique(m + 1 + (k - 1 - r), k, q + 1, s - r);
      ModUnique(m + (k - 1 - r), k, q + 1, s - r - 1);
    }
  }

  /** Every residue is met `n / k` times, rounded down or up. */
  lemma HitsAreFair(start: nat, n: nat, k: nat, r: nat)
    requires r < k
    ensures n / k <= Hits(start, n, k, r) <= (n + k - 1) / k
  {
    HitsClosedForm(start, n, k, r);
    var a := start + (k - 1 - r);
    var qa, qn := a / k, n / k;
    Split(a, k);
    Split(n, k);
    MulDist(k, qa, qn);
    QuotientAtLeast(a + n, k, qa + qn);
    if n % k == 0 {
      MulDist(k, qa + qn, 1);
      QuotientBelow(a + n, k, qa + qn + 1);
      QuotientAtLeast(n + k - 1, k, qn);
    } else {
      MulDist(k, qa + qn, 2);
      QuotientBelow(a + n, k, qa + qn + 2);
      MulDist(k, qn, 1);
      QuotientAtLeast(n + k - 1, k, qn + 1);
    }
  }

  /** In any `k` consecutive steps every residue is met exactly once. */
  lemma HitsOncePerRound(start: nat, k: nat, r: nat)
    requires r < k
    ensures Hits(start, k, k, r) == 1
  {
    HitsAreFair(start, k, k, r);
    ModUnique(k, k, 1, 0);
    ModUnique(k + k - 1, k, 1, k - 1);
  }
}
