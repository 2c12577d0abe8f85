/** The bits of 64-bit words, and the bitwise operators that BitArray.cpp uses. */
module Bits {
  import opened Arithmetic
  import opened Counting

  type Word = x: nat | x < WORD

  /** Bit j, counted from the least significant one. */
  function Bit(a: nat, j: nat): bool {
    if j == 0 then a % 2 == 1 else Bit(a / 2, j - 1)
  }

  function And(a: nat, b: nat): (r: nat)
    ensures r <= a
    decreases a
  {
    if a == 0 then 0 else One(a % 2 == 1 && b % 2 == 1) + 2 * And(a / 2, b / 2)
  }

  function Or(a: nat, b: nat): nat
    decreases a + b
  {
    if a == 0 && b == 0 then 0 else One(a % 2 == 1 || b % 2 == 1) + 2 * Or(a / 2, b / 2)
  }

  function Not(a: Word): Word {
    WORD - 1 - a
  }

  /** a >> k */
  function Shr(a: nat, k: nat): (r: nat)
    ensures r <= a
  {
    if k == 0 then a else Shr(a / 2, k - 1)
  }

  /** a << k, where bits beyond the word are lost. */
  function Shl(a: Word, k: nat): Word {
    if k == 0 then a else (2 * Shl(a, k - 1)) % WORD
  }

  // ----- What the operators do to each bit -----

  lemma {:induction false} BitZero(j: nat)
    ensures !Bit(0, j)
  {
    if j > 0 {
      BitZero(j - 1);
    }
  }

  lemma {:induction false} BitAnd(a: nat, b: nat, j: nat)
    ensures Bit(And(a, b), j) <==> Bit(a, j) && Bit(b, j)
    decreases j
  {
    if a == 0 {
      BitZero(j);
    } else if j > 0 {
      BitAnd(a / 2, b / 2, j - 1);
    }
  }

  lemma {:induction false} BitOr(a: nat, b: nat, j: nat)
    ensures Bit(Or(a, b), j) <==> Bit(a, j) || Bit(b, j)
    decreases j
  {
    if a == 0 && b == 0 {
      BitZero(j);
    } else if j > 0 {
      BitOr(a / 2, b / 2, j - 1);
    }
  }

  lemma {:induction false} BitComplement(a: nat, n: nat, j: nat)
    requires a < Pow2(n) && j < n
    ensures Bit(Pow2(n) - 1 - a, j) <==> !Bit(a, j)
    decreases n
  {
    var c := Pow2(n) - 1 - a;
    if j > 0 {
      BitComplement(a / 2, n - 1, j - 1);
      assert c / 2 == Pow2(n - 1) - 1 - a / 2;
    }
  }

  lemma BitNot(a: Word, j: nat)
    requires j < 64
    ensures Bit(Not(a), j) <==> !Bit(a, j)
  {
    WordIsPow2();
    BitComplement(a, 64, j);
  }

  lemma {:induction false} BitShr(a: nat, k: nat, j: nat)
    ensures Bit(Shr(a, k), j) <==> Bit(a, j + k)
    decreases k
  {
    if k > 0 {
      BitShr(a / 2, k - 1, j);
    }
  }

  lemma {:induction false} BitMod(a: nat, n: nat, j: nat)
    requires j < n
    ensures Bit(a % Pow2(n), j) <==> Bit(a, j)
    decreases n
  {
    ModHalf(a, Pow2(n - 1));
    if j > 0 {
      BitMod(a / 2, n - 1, j - 1);
    }
  }

  lemma ModHalf(a: nat, p: nat)
    requires p > 0
    ensures (a % (2 * p)) % 2 == a % 2 && (a % (2 * p)) / 2 == (a / 2) % p
  {
    var q, r := a / (2 * p), a % (2 * p);
    assert a == q * (2 * p) + r;
    Regroup(q, 2, p);
    Regroup(2, q, p);
    var t := q * p;
    assert a == 2 * t + r && r < 2 * p;
    assert a / 2 == q * p + r / 2;
    DivModUnique(a / 2, q, r / 2, p);
  }

  lemma {:induction false} BitShl(a: Word, k: nat, j: nat)
    requires j < 64
    ensures Bit(Shl(a, k), j) <==> j >= k && Bit(a, j - k)
    decreases k
  {
    if k > 0 {
      var x: nat := Shl(a, k - 1);
      WordIsPow2();
      BitMod(2 * x, 64, j);
      if j > 0 {
        BitShl(a, k - 1, j - 1);
        assert Bit(2 * x, j) == Bit(x, j - 1);
      }
    }
  }

  lemma {:induction false} BitAbove(a: nat, n: nat, j: nat)
    requires a < Pow2(n) && j >= n
    ensures !Bit(a, j)
    decreases n
  {
    if n == 0 {
      BitZero(j);
    } else {
      BitAbove(a / 2, n - 1, j - 1);
    }
  }

  /** Words with the same bits are the same. */
  lemma {:induction false} SameBits(a: nat, b: nat, n: nat)
    requires a < Pow2(n) && b < Pow2(n) && forall j :: 0 <= j < n ==> Bit(a, j) == Bit(b, j)
    ensures a == b
    decreases n
  {
    if n > 0 {
      forall j | 0 <= j < n - 1
        ensures Bit(a / 2, j) == Bit(b / 2, j)
      {
        assert Bit(a, j + 1) == Bit(b, j + 1);
      }
      SameBits(a / 2, b / 2, n - 1);
      assert Bit(a, 0) == Bit(b, 0);
    }
  }

  lemma {:induction false} ShlOne(k: nat)
    requires k < 64
    ensures Shl(1, k) == Pow2(k)
  {
    PowInWord(k);
    if k > 0 {
      ShlOne(k - 1);
    }
  }

  lemma PowInWord(k: nat)
    requires k < 64
    ensures Pow2(k) < WORD
  {
    WordIsPow2();
    Pow2Mono(k, 63);
  }

  /** The mask (1 << k) - 1 has exactly the k lowest bits. */
  lemma BitMask(k: nat, j: nat)
    requires k < 64 && j < 64
    ensures Shl(1, k) >= 1 && (Bit(Shl(1, k) - 1, j) <==> j < k)
  {
    ShlOne(k);
    BitOnes(k, j);
  }

  lemma {:induction false} BitOnes(k: nat, j: nat)
    ensures Bit(Pow2(k) - 1, j) <==> j < k
  {
    if k == 0 {
      BitZero(j);
    } else if j > 0 {
      BitOnes(k - 1, j - 1);
      assert (Pow2(k) - 1) / 2 == Pow2(k - 1) - 1;
    }
  }

  lemma {:induction false} OrBelow(a: nat, b: nat, n: nat)
    requires a < Pow2(n) && b < Pow2(n)
    ensures Or(a, b) < Pow2(n)
    decreases n
  {
    if n > 0 {
      OrBelow(a / 2, b / 2, n - 1);
    }
  }

  function OrWord(a: Word, b: Word): Word {
    WordIsPow2();
    OrBelow(a, b, 64);
    Or(a, b)
  }
}
