/** The order in which double hashing visits a table of prime size. */
module Probing {

  predicate Prime(p: nat) {
    p > 1 && forall d :: 2 <= d < p ==> p % d != 0
  }

  /** The slot visited after `k` steps of `incr` from `idx`. */
  function Slot(idx: nat, incr: nat, size: nat, k: nat): (s: nat)
    requires size > 0
    ensures s < size
  {
    (idx + k * incr) % size
  }

  lemma Remainder(n: int, q: int, r: nat, size: nat)
    requires n == q * size + r && r < size
    ensures n % size == r
  {
    var d := n / size;
    assert n == d * size + n % size;
    assert (d - q) * size == r - n % size;
    Multiples(d - q, size);
  }

  lemma Multiples(d: int, size: int)
    requires size > 0
    ensures d >= 1 ==> d * size >= size
    ensures d <= -1 ==> d * size <= -size
  {
    if d >= 1 {
      assert (d - 1) * size >= 0;
    } else if d <= -1 {
      assert (-1 - d) * size >= 0;
    }
  }

  /** The step of the probe, which never leaves the table nor overflows, moves
      to the next slot of the sequence. */
  lemma NextSlot(idx: nat, incr: nat, size: nat, k: nat)
    requires 0 < incr < size
    ensures var s := Slot(idx, incr, size, k);
      Slot(idx, incr, size, k + 1) == if s >= size - incr then s - (size - incr) else s + incr
  {
    var n := idx + k * incr;
    var s, q := n % size, n / size;
    assert n == q * size + s;
    assert idx + (k + 1) * incr == n + incr;
    if s >= size - incr {
      assert (q + 1) * size == q * size + size;
      Remainder(n + incr, q + 1, s + incr - size, size);
    } else {
      Remainder(n + incr, q, s + incr, size);
    }
  }

  /** After `size` steps the same slots come again. */
  lemma SlotPeriodic(idx: nat, incr: nat, size: nat, k: nat)
    requires size > 0
    ensures Slot(idx, incr, size, k) == Slot(idx, incr, size, k % size)
  {
    var n, q := idx + k % size * incr, k / size;
    Rearranged(k / size, k % size, size, incr);
    Remainder(idx + k * incr, n / size + q * incr, n % size, size);
  }

  lemma Rearranged(q: nat, r: nat, size: nat, incr: nat)
    ensures (q * size + r) * incr == q * incr * size + r * incr
  {
  }

  /** A prime divides no product of two smaller numbers. */
  lemma {:induction false} Euclid(p: nat, a: nat, b: nat, q: int)
    requires Prime(p) && 0 < a < p && 0 < b < p
    ensures a * b != q * p
    decreases b
  {
    if b == 1 {
      Multiples(q, p);
    } else {
      var n, r := p / b, p % b;
      if a * b == q * p {
        calc {
          a * r;
          a * (p - n * b);
          { assert n * b * a == n * (a * b); }
          a * p - n * (a * b);
          a * p - n * (q * p);
          (a - n * q) * p;
        }
      }
      Euclid(p, a, r, a - n * q);
    }
  }

  lemma SlotsDistinct(idx: nat, incr: nat, p: nat, j: nat, k: nat)
    requires Prime(p) && 0 < incr < p && j < k < p
    ensures Slot(idx, incr, p, j) != Slot(idx, incr, p, k)
  {
    var m, n := idx + j * incr, idx + k * incr;
    assert m == m / p * p + m % p && n == n / p * p + n % p;
    assert incr * (k - j) == n - m;
    Euclid(p, incr, k - j, n / p - m / p);
    assert (n / p - m / p) * p == n / p * p - m / p * p;
  }

  ghost function Visited(idx: nat, incr: nat, p: nat, k: nat): set<nat>
    requires p > 0
  {
    set i | 0 <= i < k :: Slot(idx, incr, p, i)
  }

  lemma {:induction false} VisitedCount(idx: nat, incr: nat, p: nat, k: nat)
    requires Prime(p) && 0 < incr < p && k <= p
    ensures |Visited(idx, incr, p, k)| == k
  {
    hide Slot;
    if k > 0 {
      VisitedCount(idx, incr, p, k - 1);
      forall j | 0 <= j < k - 1
        ensures Slot(idx, incr, p, j) != Slot(idx, incr, p, k - 1)
      {
        SlotsDistinct(idx, incr, p, j, k - 1);
      }
      assert Visited(idx, incr, p, k) == Visited(idx, incr, p, k - 1) + {Slot(idx, incr, p, k - 1)};
    }
  }

  ghost function Below(n: nat): (r: set<nat>)
    ensures |r| == n && forall i :: i in r <==> 0 <= i < n
  {
    if n == 0 then {} else Below(n - 1) + {n - 1}
  }

  lemma SameSize(a: set<nat>, b: set<nat>)
    requires a <= b && |a| == |b|
    ensures a == b
  {
    assert |b - a| == 0;
  }

  /** Within `p` steps every slot is visited. */
  lemma SlotsCover(idx: nat, incr: nat, p: nat, e: nat) returns (k: nat)
    requires Prime(p) && 0 < incr < p && e < p
    ensures k < p && Slot(idx, incr, p, k) == e
  {
    hide Slot;
    VisitedCount(idx, incr, p, p);
    SameSize(Visited(idx, incr, p, p), Below(p));
    assert e in Visited(idx, incr, p, p);
    k :| 0 <= k < p && Slot(idx, incr, p, k) == e;
  }
}
