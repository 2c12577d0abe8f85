/** 32-bit words: wrapping arithmetic, exclusive or, and the inverses that randutils.hpp relies on. */
module Words {
  import opened Arithmetic

  const M: nat := 0x1_0000_0000
  const HALF: nat := 0x1_0000

  type Word = x: nat | x < M

  function Mul(a: Word, b: Word): Word {
    (a * b) % M
  }

  function Add(a: Word, b: Word): Word {
    (a + b) % M
  }

  function Sub(a: Word, b: Word): Word {
    (a - b) % M
  }

  /** Exclusive or, bit by bit. */
  function Xor(a: nat, b: nat): nat
    decreases a + b
  {
    if a == 0 && b == 0 then 0 else (a + b) % 2 + 2 * Xor(a / 2, b / 2)
  }

  lemma {:induction false} XorBelow(a: nat, b: nat, n: nat)
    requires a < Pow2(n) && b < Pow2(n)
    ensures Xor(a, b) < Pow2(n)
  {
    if n > 0 {
      XorBelow(a / 2, b / 2, n - 1);
    }
  }

  lemma XorDef(a: nat, b: nat)
    ensures Xor(a, b) == (a + b) % 2 + 2 * Xor(a / 2, b / 2)
  {}

  /** Exclusive or with the same word twice changes nothing. */
  lemma {:induction false} XorTwice(a: nat, b: nat)
    ensures Xor(Xor(a, b), b) == a
    decreases a + b
  {
    hide Xor;
    XorDef(a, b);
    var x := Xor(a, b);
    XorDef(x, b);
    if a > 0 || b > 0 {
      XorTwice(a / 2, b / 2);
      assert x / 2 == Xor(a / 2, b / 2) && (x + b) % 2 == a % 2;
    } else {
      XorZero(0);
    }
  }

  /** The bits above those of b stay as they are. */
  lemma {:induction false} XorLow(h: nat, l: nat, b: nat, n: nat)
    requires l < Pow2(n) && b < Pow2(n)
    ensures Xor(h * Pow2(n) + l, b) == h * Pow2(n) + Xor(l, b)
  {
    hide Xor, Pow2;
    PowersOfTwo(n);
    if n == 0 {
      XorZero(h);
      XorZero(0);
    } else {
      XorLow(h, l / 2, b / 2, n - 1);
      DoubleProduct(h, Pow2(n - 1));
      XorStep(h * Pow2(n - 1), l, b);
    }
  }

  lemma DoubleProduct(h: nat, p: nat)
    ensures h * (2 * p) == 2 * (h * p)
  {}

  /** An even number added above the bits of l and b stays apart from them. */
  lemma XorStep(w: nat, l: nat, b: nat)
    requires Xor(w + l / 2, b / 2) == w + Xor(l / 2, b / 2)
    ensures Xor(2 * w + l, b) == 2 * w + Xor(l, b)
  {
    hide Xor;
    var a := 2 * w + l;
    XorDef(a, b);
    XorDef(l, b);
    assert a / 2 == w + l / 2 && (a + b) % 2 == (l + b) % 2;
  }

  lemma {:induction false} XorZero(h: nat)
    ensures Xor(h, 0) == h
  {
    if h > 0 {
      XorZero(h / 2);
    }
  }

  lemma WordPow()
    ensures Pow2(32) == M && Pow2(16) == HALF
  {
    assert Pow2(1) == 2;
    Pow2Doubled(1, 2);
    Pow2Doubled(2, 4);
    Pow2Doubled(4, 16);
    Pow2Doubled(8, 256);
    Pow2Doubled(16, HALF);
  }

  function XorWord(a: Word, b: Word): Word {
    WordPow();
    XorBelow(a, b, 32);
    Xor(a, b)
  }

  /** value ^= value >> XSHIFT, by half the width of a word. */
  function XorShift(v: Word): Word {
    XorWord(v, v / HALF)
  }

  /** A shift by half the width undoes itself. */
  lemma XorShiftTwice(v: Word)
    ensures XorShift(XorShift(v)) == v
  {
    hide Xor, Pow2;
    WordPow();
    var h, l := v / HALF, v % HALF;
    XorBelow(l, h, 16);
    XorLow(h, l, h, 16);
    XorLow(h, Xor(l, h), h, 16);
    XorTwice(l, h);
  }

  lemma {:induction false} XorSwapped(a: nat, b: nat)
    ensures Xor(a, b) == Xor(b, a)
    decreases a + b
  {
    if a > 0 || b > 0 {
      XorSwapped(a / 2, b / 2);
    }
  }

  /** The low bits of an exclusive or depend on the low bits alone. */
  lemma {:induction false} XorLowBits(a: nat, a': nat, b: nat, n: nat)
    requires a % Pow2(n) == a' % Pow2(n)
    ensures Xor(a, b) % Pow2(n) == Xor(a', b) % Pow2(n)
  {
    hide Xor, Pow2;
    PowersOfTwo(n);
    if n > 0 {
      HalvesSame(a, a', Pow2(n - 1));
      XorLowBits(a / 2, a' / 2, b / 2, n - 1);
      XorHalves(a, b, Pow2(n - 1));
      XorHalves(a', b, Pow2(n - 1));
      SameParity(a, a', b);
    }
  }

  lemma HalvesSame(a: nat, a': nat, p: nat)
    requires p > 0 && a % (2 * p) == a' % (2 * p)
    ensures a % 2 == a' % 2 && (a / 2) % p == (a' / 2) % p
  {
    HalvesMod(a, p);
    HalvesMod(a', p);
    var u, u' := (a / 2) % p, (a' / 2) % p;
    assert a % 2 + 2 * u == a' % 2 + 2 * u';
  }

  lemma SameParity(a: nat, a': nat, b: nat)
    requires a % 2 == a' % 2
    ensures (a + b) % 2 == (a' + b) % 2
  {}

  lemma XorHalves(a: nat, b: nat, p: nat)
    requires p > 0
    ensures Xor(a, b) % (2 * p) == (a + b) % 2 + 2 * (Xor(a / 2, b / 2) % p)
  {
    hide Xor;
    XorDef(a, b);
    DoubledMod((a + b) % 2, Xor(a / 2, b / 2), p);
  }

  lemma DoubledMod(bit: nat, y: nat, p: nat)
    requires p > 0 && bit < 2
    ensures (bit + 2 * y) % (2 * p) == bit + 2 * (y % p)
  {
    var q, r := y / p, y % p;
    assert y == q * p + r;
    assert 2 * (q * p) == q * (2 * p);
    DivModUnique(bit + 2 * y, q, bit + 2 * r, 2 * p);
  }

  lemma HalvesMod(a: nat, p: nat)
    requires p > 0
    ensures a % (2 * p) == a % 2 + 2 * ((a / 2) % p)
  {
    DoubledMod(a % 2, a / 2, p);
  }

  /** The shift takes a difference in the upper half into the lower half. */
  lemma ShiftReachesLow(x: Word, y: Word)
    requires x % HALF == y % HALF && x != y
    ensures XorShift(x) % HALF != XorShift(y) % HALF
  {
    hide Xor, Pow2;
    WordPow();
    ShiftedLow(x);
    ShiftedLow(y);
    var l := x % HALF;
    XorSwapped(l, x / HALF);
    XorSwapped(l, y / HALF);
    XorTwice(x / HALF, l);
    XorTwice(y / HALF, l);
  }

  lemma ShiftedLow(x: Word)
    ensures XorShift(x) % HALF == Xor(x % HALF, x / HALF)
  {
    hide Xor, Pow2;
    WordPow();
    var h, l := x / HALF, x % HALF;
    XorBelow(l, h, 16);
    XorLow(h, l, h, 16);
  }

  /** The low bits of a difference depend on the low bits of what it is taken from, and on what is taken. */
  lemma SubLowBits(a: Word, a': Word, c: Word)
    requires a % HALF == a' % HALF
    ensures Sub(a, c) % HALF == Sub(a', c) % HALF
  {
    BorrowedLow(a, c);
    BorrowedLow(a', c);
    var d := a / HALF - a' / HALF;
    assert a - c == (a' - c) + d * HALF;
    ModPlusMultiple(a' - c, d, HALF);
  }

  lemma BorrowedLow(a: Word, c: Word)
    ensures Sub(a, c) % HALF == (a - c) % HALF
  {
    if a < c {
      DivModUnique(a - c, -1, a - c + M, M);
      ModPlusMultiple(a - c, HALF, HALF);
    } else {
      DivModUnique(a - c, 0, a - c, M);
    }
  }

  /** The low bits of a product depend on the low bits of its factors alone. */
  lemma MulLowBits(a: Word, a': Word, b: Word)
    requires a % HALF == a' % HALF
    ensures Mul(a, b) % HALF == Mul(a', b) % HALF
  {
    WordPow();
    MulMod(a, b, 16);
    MulMod(a', b, 16);
    ModTimes(a, b, HALF);
    ModTimes(a', b, HALF);
  }

  // ----- Multiplication -----

  lemma ModTimes(a: nat, b: nat, m: nat)
    requires m > 0
    ensures ((a % m) * b) % m == (a * b) % m
  {
    var q, r := a / m, a % m;
    assert a == q * m + r;
    assert a * b == r * b + (q * b) * m;
    ModPlusMultiple(r * b, q * b, m);
  }

  lemma MulComm(a: Word, b: Word)
    ensures Mul(a, b) == Mul(b, a)
  {
    assert a * b == b * a;
  }

  lemma MulAssoc(a: Word, b: Word, c: Word)
    ensures Mul(Mul(a, b), c) == Mul(a, Mul(b, c))
  {
    ModTimes(a * b, c, M);
    ModTimes(b * c, a, M);
    assert (a * b) * c == (b * c) * a;
    assert a * Mul(b, c) == Mul(b, c) * a;
  }

  function Pow(x: Word, n: nat): Word {
    if n == 0 then 1 else Mul(x, Pow(x, n - 1))
  }

  lemma {:induction false} PowAdd(x: Word, a: nat, b: nat)
    ensures Pow(x, a + b) == Mul(Pow(x, a), Pow(x, b))
  {
    hide Mul;
    if a > 0 {
      PowAdd(x, a - 1, b);
      MulAssoc(x, Pow(x, a - 1), Pow(x, b));
    } else {
      OneTimes(Pow(x, b));
    }
  }

  lemma {:induction false} PowSquare(x: Word, k: nat)
    ensures Pow(x, 2 * k) == Pow(Mul(x, x), k)
  {
    if k > 0 {
      PowSquare(x, k - 1);
      assert Pow(x, 2 * k) == Mul(x, Mul(x, Pow(x, 2 * (k - 1))));
      MulAssoc(x, x, Pow(x, 2 * (k - 1)));
    }
  }

  lemma SquareOfOneMod(y: nat, p: nat)
    requires p > 0 && y % (2 * p) == 1
    ensures (y * y) % (4 * p) == 1
  {
    var q := y / (2 * p);
    assert y == q * (2 * p) + 1;
    var t := q * p;
    assert q * (2 * p) == 2 * t;
    assert y == 2 * t + 1;
    assert y * y == 4 * (t * t) + 4 * t + 1;
    assert t * t == (t * q) * p;
    assert y * y == 1 + (t * q + q) * (4 * p);
    ModPlusMultiple(1, t * q + q, 4 * p);
    DivModUnique(1, 0, 1, 4 * p);
  }

  lemma ModOfMod(a: nat, k: nat)
    requires k <= 32
    ensures (a % M) % Pow2(k) == a % Pow2(k)
  {
    WordPow();
    Pow2Add(32 - k, k);
    var q, r, p := a / M, a % M, Pow2(32 - k);
    assert a == r + q * M;
    Regroup(q, p, Pow2(k));
    ModPlusMultiple(r, q * p, Pow2(k));
  }

  /** The 2^k-th power of an odd word is 1 modulo 2^(k+1). */
  lemma {:induction false} OddPower(x: Word, k: nat)
    requires x % 2 == 1 && k <= 31
    ensures Pow(x, Pow2(k)) % Pow2(k + 1) == 1
  {
    hide Pow, Mul;
    PowersOfTwo(k);
    if k == 0 {
      PowOne(x);
    } else {
      OddPower(x, k - 1);
      OddSquare(x, Pow2(k - 1), k);
    }
  }

  lemma PowersOfTwo(k: nat)
    ensures Pow2(k + 1) == 2 * Pow2(k) && Pow2(0) == 1 && (k > 0 ==> Pow2(k) == 2 * Pow2(k - 1))
  {}

  lemma PowOne(x: Word)
    ensures Pow(x, 1) == x
  {
    assert Pow(x, 1) == Mul(x, Pow(x, 0));
  }

  lemma OddSquare(x: Word, p: nat, k: nat)
    requires 0 < k <= 31 && Pow2(k) == 2 * p && Pow2(k + 1) == 4 * p && Pow(x, p) % (2 * p) == 1
    ensures Pow(x, 2 * p) % (4 * p) == 1
  {
    hide Pow, Pow2, Mul;
    var y := Pow(x, p);
    PowAdd(x, p, p);
    SquareOfOneMod(y, p);
    MulMod(y, y, k + 1);
  }

  lemma MulMod(a: Word, b: Word, k: nat)
    requires k <= 32
    ensures Mul(a, b) % Pow2(k) == (a * b) % Pow2(k)
  {
    ModOfMod(a * b, k);
  }

  /** Every odd word has order dividing 2^32, so its power 2^32 - 1 is its inverse. */
  lemma OddInverse(x: Word)
    requires x % 2 == 1
    ensures Pow(x, M) == 1 && Mul(x, Pow(x, M - 1)) == 1
  {
    hide Pow, Pow2;
    WordPow();
    PowersOfTwo(31);
    OddPower(x, 31);
    PowAdd(x, Pow2(31), Pow2(31));
    PowAdd(x, 1, M - 1);
    PowOne(x);
  }

  lemma {:induction false} PowRounds(x: Word, q: nat, r: nat)
    requires x % 2 == 1
    ensures Pow(x, q * M + r) == Pow(x, r)
  {
    hide Pow, Mul;
    if q > 0 {
      PowRounds(x, q - 1, r);
      assert q * M + r == M + ((q - 1) * M + r);
      PowAdd(x, M, (q - 1) * M + r);
      OddInverse(x);
      OneTimes(Pow(x, r));
    }
  }

  /** An exponent may be truncated to a word. */
  lemma PowTruncated(x: Word, n: nat)
    requires x % 2 == 1
    ensures Pow(x, n % M) == Pow(x, n)
  {
    PowRounds(x, n / M, n % M);
  }

  lemma OneTimes(v: Word)
    ensures Mul(1, v) == v == Mul(v, 1)
  {}

  lemma Cancel(a: Word, i: Word, v: Word)
    requires Mul(a, i) == 1
    ensures Mul(Mul(v, a), i) == v && Mul(Mul(v, i), a) == v
  {
    hide Mul;
    MulAssoc(v, a, i);
    MulAssoc(v, i, a);
    MulComm(a, i);
    OneTimes(v);
  }

  lemma {:induction false} OddPow(x: Word, n: nat)
    requires x % 2 == 1
    ensures Pow(x, n) % 2 == 1
  {
    if n > 0 {
      OddPow(x, n - 1);
      OddTimesOdd(x, Pow(x, n - 1));
    }
  }

  lemma OddTimesOdd(a: Word, b: Word)
    requires a % 2 == 1 && b % 2 == 1
    ensures Mul(a, b) % 2 == 1
  {
    var k, j := a / 2, b / 2;
    assert a * b == 2 * (2 * (k * j) + k + j) + 1;
  }
}
