/** The order in which RingBuffer tickets visit the slots (RingBuffer.h). */
module Tickets {
  import opened Arithmetic

  /** The slot of the k-th ticket: positions advance by 9 and are masked with size - 1. */
  function SlotOf(k: nat, size: nat): (i: nat)
    requires size > 0
    ensures i < size
  {
    (9 * k) % size
  }

  /** Masking the wrapped word gives the same slot as the unbounded position, as the size divides the word. */
  lemma WrapKeepsSlot(x: nat, n: nat)
    requires n <= 63
    ensures (x % WORD) % Pow2(n) == x % Pow2(n)
  {
    WordIsPow2();
    Pow2Add(64 - n, n);
    var q, r, p := x / WORD, x % WORD, Pow2(64 - n);
    assert x == r + q * WORD;
    Regroup(q, p, Pow2(n));
    ModPlusMultiple(r, q * p, Pow2(n));
  }

  lemma Halve(d: nat, w: nat)
    requires 9 * d == 2 * w
    ensures d % 2 == 0 && 9 * (d / 2) == w
  {}

  /** 9 is invertible modulo a power of two. */
  lemma {:induction false} NineDivides(n: nat, d: nat)
    requires (9 * d) % Pow2(n) == 0
    ensures d % Pow2(n) == 0
  {
    if n > 0 {
      var p, q := Pow2(n - 1), (9 * d) / Pow2(n);
      assert 9 * d == q * (2 * p);
      Regroup(2, q, p);
      Regroup(q, 2, p);
      Halve(d, q * p);
      MultipleMod(q, p);
      NineDivides(n - 1, d / 2);
      var r := (d / 2) / p;
      assert d / 2 == r * p;
      Regroup(r, 2, p);
      Regroup(2, r, p);
      MultipleMod(r, 2 * p);
    }
  }

  lemma SameSlot(n: nat, i: nat, j: nat)
    requires i <= j && SlotOf(i, Pow2(n)) == SlotOf(j, Pow2(n))
    ensures (j - i) % Pow2(n) == 0
  {
    var m := Pow2(n);
    var a, b, r := (9 * i) / m, (9 * j) / m, SlotOf(i, m);
    assert 9 * i == a * m + r && 9 * j == b * m + r;
    var d := b - a;
    assert 9 * (j - i) == d * m;
    ModPlusMultiple(0, d, m);
    NineDivides(n, j - i);
  }

  /** Two tickets less than a full round apart never share a slot. */
  lemma SlotsDistinct(n: nat, i: nat, j: nat)
    requires i < j < i + Pow2(n)
    ensures SlotOf(i, Pow2(n)) != SlotOf(j, Pow2(n))
  {
    if SlotOf(i, Pow2(n)) == SlotOf(j, Pow2(n)) {
      SameSlot(n, i, j);
      DivModUnique(j - i, 0, j - i, Pow2(n));
    }
  }

  /** How many of the first k tickets use slot i. */
  ghost function Visits(i: nat, k: nat, size: nat): nat
    requires size > 0
  {
    if k == 0 then 0 else Visits(i, k - 1, size) + if SlotOf(k - 1, size) == i then 1 else 0
  }

  lemma {:induction false} VisitsGrow(i: nat, h: nat, t: nat, size: nat)
    requires h <= t && size > 0
    ensures Visits(i, h, size) <= Visits(i, t, size)
  {
    if h < t {
      VisitsGrow(i, h, t - 1, size);
    }
  }

  lemma {:induction false} NoVisitBelow(i: nat, h: nat, j: nat, k: nat, n: nat)
    requires h <= j <= k < h + Pow2(n) && SlotOf(k, Pow2(n)) == i
    ensures Visits(i, j, Pow2(n)) == Visits(i, h, Pow2(n))
  {
    if h < j {
      NoVisitBelow(i, h, j - 1, k, n);
      SlotsDistinct(n, j - 1, k);
    }
  }

  /** In a window of at most one round every slot is visited at most once. */
  lemma {:induction false} WindowVisits(i: nat, h: nat, t: nat, n: nat)
    requires h <= t <= h + Pow2(n)
    ensures Visits(i, h, Pow2(n)) <= Visits(i, t, Pow2(n)) <= Visits(i, h, Pow2(n)) + 1
  {
    if h < t {
      if SlotOf(t - 1, Pow2(n)) == i {
        NoVisitBelow(i, h, t - 1, t - 1, n);
      } else {
        WindowVisits(i, h, t - 1, n);
      }
    }
  }
}
