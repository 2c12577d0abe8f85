/** Powers of two and division, shared by the modules that reason about machine words. */
module Arithmetic {

  /** The number of values of a size_t, which all counters wrap at. */
  const WORD: nat := 0x1_0000_0000_0000_0000

  function Pow2(n: nat): (p: nat)
    ensures p >= 1
  {
    if n == 0 then 1 else 2 * Pow2(n - 1)
  }

  lemma {:induction false} Pow2Add(a: nat, b: nat)
    ensures Pow2(a + b) == Pow2(a) * Pow2(b)
  {
    if b > 0 {
      Pow2Add(a, b - 1);
      assert Pow2(a + b) == 2 * (Pow2(a) * Pow2(b - 1)) == Pow2(a) * (2 * Pow2(b - 1));
    }
  }

  lemma {:induction false} Pow2Mono(a: nat, b: nat)
    requires a <= b
    ensures Pow2(a) <= Pow2(b)
  {
    if a < b {
      Pow2Mono(a, b - 1);
    }
  }

  lemma {:induction false} Pow2Doubled(a: nat, v: nat)
    requires Pow2(a) == v
    ensures Pow2(2 * a) == v * v
  {
    Pow2Add(a, a);
  }

  lemma WordIsPow2()
    ensures Pow2(64) == WORD && Pow2(63) == WORD / 2
  {
    assert Pow2(64) == 2 * Pow2(63) && Pow2(1) == 2;
    hide Pow2;
    Pow2Doubled(1, 2);
    Pow2Doubled(2, 4);
    Pow2Doubled(4, 16);
    Pow2Doubled(8, 256);
    Pow2Doubled(16, 0x1_0000);
    Pow2Doubled(32, 0x1_0000_0000);
  }

  /** Quotient and remainder are unique. */
  lemma DivModUnique(a: int, q: int, r: int, m: nat)
    requires 0 <= r < m && a == q * m + r
    ensures a / m == q && a % m == r
  {
    var q', r' := a / m, a % m;
    assert a == q' * m + r';
    assert (q' - q) * m == r - r';
    assert (q - q') * m == r' - r;
    if q' - q >= 1 {
      MulAtLeast(q' - q, m);
    } else if q - q' >= 1 {
      MulAtLeast(q - q', m);
    }
  }

  lemma MulAtLeast(d: int, m: nat)
    requires d >= 1
    ensures d * m >= m
  {
    assert d * m == m + (d - 1) * m;
  }

  lemma ModPlusMultiple(a: int, q: int, m: nat)
    requires m > 0
    ensures (a + q * m) % m == a % m
  {
    var d, r := a / m, a % m;
    assert a == d * m + r;
    assert a + q * m == (d + q) * m + r;
    DivModUnique(a + q * m, d + q, r, m);
    DivModUnique(a, d, r, m);
  }

  lemma Regroup(a: int, b: int, c: int)
    ensures a * (b * c) == (a * b) * c
  {}

  lemma MultipleMod(q: nat, m: nat)
    requires m > 0
    ensures (q * m) % m == 0
  {
    DivModUnique(q * m, q, 0, m);
  }
}
