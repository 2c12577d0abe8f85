/** BitArray: n-bit values packed across 64-bit words, most significant bit first (BitArray.cpp). */
module BitArray {
  import opened Arithmetic
  import opened Counting
  import opened Bits

  /** Bit p of the array, counted from the most significant bit of the first word. */
  ghost predicate Stream(words: seq<Word>, p: nat)
    requires p < 64 * |words|
  {
    Bit(words[p / 64], 63 - p % 64)
  }

  /** The number that n bits from bit f on spell out. */
  ghost function Value(words: seq<Word>, f: nat, n: nat): (v: nat)
    requires f + n <= 64 * |words|
    ensures v < Pow2(n)
  {
    if n == 0 then 0 else 2 * Value(words, f, n - 1) + One(Stream(words, f + n - 1))
  }

  lemma {:induction false} ValueBit(words: seq<Word>, f: nat, n: nat, j: nat)
    requires f + n <= 64 * |words| && j < n
    ensures Bit(Value(words, f, n), j) <==> Stream(words, f + n - 1 - j)
  {
    hide Stream;
    if j > 0 {
      ValueBit(words, f, n - 1, j - 1);
      assert Value(words, f, n) / 2 == Value(words, f, n - 1);
    }
  }

  /** A value whose bits are the n bits from f on is the number that they spell. */
  lemma ValueIs(words: seq<Word>, f: nat, n: nat, v: Word)
    requires f + n <= 64 * |words| && n <= 64
    requires forall j :: 0 <= j < 64 ==> (Bit(v, j) <==> j < n && Stream(words, f + n - 1 - j))
    ensures Value(words, f, n) == v
  {
    hide Stream, Bit, Value;
    var x := Value(words, f, n);
    WordIsPow2();
    Pow2Mono(n, 64);
    forall j | 0 <= j < 64
      ensures Bit(x, j) == Bit(v, j)
    {
      if j < n {
        ValueBit(words, f, n, j);
      } else {
        BitAbove(x, n, j);
      }
    }
    SameBits(x, v, 64);
  }

  lemma {:induction false} ValueSame(words: seq<Word>, words': seq<Word>, f: nat, n: nat)
    requires f + n <= 64 * |words| && f + n <= 64 * |words'|
    requires forall p :: f <= p < f + n ==> Stream(words', p) == Stream(words, p)
    ensures Value(words', f, n) == Value(words, f, n)
  {
    hide Stream;
    if n > 0 {
      ValueSame(words, words', f, n - 1);
    }
  }

  // ----- Masks and positions -----

  /** The mask for the bits lo to hi of a word. */
  function Mask(hi: nat, lo: nat): Word
    requires lo <= hi < 64
  {
    ShlOne(if hi == 63 then 0 else hi + 1);
    ShlOne(lo);
    var m: Word := if hi == 63 then WORD - 1 else Shl(1, hi + 1) - 1;
    if lo > 0 then And(m, Not(Shl(1, lo) - 1)) else m
  }

  lemma BitWordMax(j: nat)
    requires j < 64
    ensures Bit(WORD - 1, j)
  {
    WordIsPow2();
    BitOnes(64, j);
  }

  lemma MaskBits(hi: nat, lo: nat, j: nat)
    requires lo <= hi < 64 && j < 64
    ensures Bit(Mask(hi, lo), j) <==> lo <= j <= hi
  {
    hide Bit, Shl, And, Not;
    BitWordMax(j);
    if hi < 63 {
      BitMask(hi + 1, j);
    }
    if lo > 0 {
      BitMask(lo, j);
      BitNot(Shl(1, lo) - 1, j);
      BitAnd(if hi == 63 then WORD - 1 else Shl(1, hi + 1) - 1, Not(Shl(1, lo) - 1), j);
    }
  }

  /** All bits from b up. */
  function HighMask(b: nat): Word
    requires 0 < b < 64
  {
    ShlOne(b);
    Not(Shl(1, b) - 1)
  }

  function LowMask(b: nat): Word
    requires b < 64
  {
    ShlOne(b);
    Shl(1, b) - 1
  }

  lemma HighMaskBits(b: nat, j: nat)
    requires 0 < b < 64 && j < 64
    ensures Bit(HighMask(b), j) <==> j >= b
  {
    hide Bit, Shl, Not;
    BitMask(b, j);
    BitNot(Shl(1, b) - 1, j);
  }

  lemma LowMaskBits(b: nat, j: nat)
    requires b < 64 && j < 64
    ensures Bit(LowMask(b), j) <==> j < b
  {
    hide Bit, Shl, Not;
    BitMask(b, j);
  }

  lemma BitBeyond(a: Word, j: nat)
    requires j >= 64
    ensures !Bit(a, j)
  {
    WordIsPow2();
    BitAbove(a, 64, j);
  }

  // ----- Reading -----

  function GetSame(w: Word, hi: nat, lo: nat): Word
    requires lo <= hi < 64
  {
    Shr(And(w, Mask(hi, lo)), lo)
  }

  lemma GetSameBits(w: Word, hi: nat, lo: nat, j: nat)
    requires lo <= hi < 64 && j < 64
    ensures Bit(GetSame(w, hi, lo), j) <==> j <= hi - lo && Bit(w, lo + j)
  {
    hide Bit, And, Shr, Mask;
    BitShr(And(w, Mask(hi, lo)), lo, j);
    if j + lo < 64 {
      BitAnd(w, Mask(hi, lo), j + lo);
      MaskBits(hi, lo, j + lo);
    } else {
      BitBeyond(And(w, Mask(hi, lo)), j + lo);
    }
  }

  function GetSpan(w0: Word, w1: Word, bits0: nat, bits1: nat): Word
    requires 0 < bits0 < 64 && 0 < bits1 < 64
  {
    OrWord(Shl(And(w0, LowMask(bits0)), bits1), Shr(And(w1, HighMask(64 - bits1)), 64 - bits1))
  }

  lemma GetSpanBits(w0: Word, w1: Word, bits0: nat, bits1: nat, j: nat)
    requires 0 < bits0 < 64 && 0 < bits1 < 64 && j < 64
    ensures Bit(GetSpan(w0, w1, bits0, bits1), j) <==>
      if j < bits1 then Bit(w1, 64 - bits1 + j) else j < bits0 + bits1 && Bit(w0, j - bits1)
  {
    hide Bit, And, Shr, Shl, LowMask, HighMask, Or;
    var b := 64 - bits1;
    var a0, a1 := And(w0, LowMask(bits0)), And(w1, HighMask(b));
    BitOr(Shl(a0, bits1), Shr(a1, b), j);
    BitShl(a0, bits1, j);
    BitShr(a1, b, j);
    if j >= bits1 {
      BitAnd(w0, LowMask(bits0), j - bits1);
      LowMaskBits(bits0, j - bits1);
      BitBeyond(a1, j + b);
    } else {
      BitAnd(w1, HighMask(b), j + b);
      HighMaskBits(b, j + b);
    }
  }

  // ----- Writing -----

  function SetSame(w: Word, hi: nat, lo: nat, val: Word): Word
    requires lo <= hi < 64
  {
    OrWord(And(w, Not(Mask(hi, lo))), Shl(val, lo))
  }

  lemma SetSameBits(w: Word, hi: nat, lo: nat, val: Word, j: nat)
    requires lo <= hi < 64 && j < 64 && val < Pow2(hi - lo + 1)
    ensures Bit(SetSame(w, hi, lo, val), j) <==> if lo <= j <= hi then Bit(val, j - lo) else Bit(w, j)
  {
    hide Bit, And, Shl, Mask, Not, Or, Pow2;
    BitOr(And(w, Not(Mask(hi, lo))), Shl(val, lo), j);
    BitAnd(w, Not(Mask(hi, lo)), j);
    BitNot(Mask(hi, lo), j);
    MaskBits(hi, lo, j);
    BitShl(val, lo, j);
    if j > hi {
      BitAbove(val, hi - lo + 1, j - lo);
    }
  }

  function SetFirst(w0: Word, bits0: nat, bits1: nat, val: Word): Word
    requires 0 < bits0 < 64
  {
    OrWord(And(w0, Not(LowMask(bits0))), Shr(val, bits1))
  }

  function SetSecond(w1: Word, bits1: nat, val: Word): Word
    requires 0 < bits1 < 64
  {
    OrWord(And(w1, Not(HighMask(64 - bits1))), Shl(val, 64 - bits1))
  }

  lemma SetFirstBits(w0: Word, bits0: nat, bits1: nat, val: Word, j: nat)
    requires 0 < bits0 < 64 && j < 64 && val < Pow2(bits0 + bits1)
    ensures Bit(SetFirst(w0, bits0, bits1, val), j) <==> if j < bits0 then Bit(val, j + bits1) else Bit(w0, j)
  {
    hide Bit, And, Shr, LowMask, Not, Or, Pow2;
    BitOr(And(w0, Not(LowMask(bits0))), Shr(val, bits1), j);
    BitAnd(w0, Not(LowMask(bits0)), j);
    BitNot(LowMask(bits0), j);
    LowMaskBits(bits0, j);
    BitShr(val, bits1, j);
    if j >= bits0 {
      BitAbove(val, bits0 + bits1, j + bits1);
    }
  }

  lemma SetSecondBits(w1: Word, bits1: nat, val: Word, j: nat)
    requires 0 < bits1 < 64 && j < 64
    ensures Bit(SetSecond(w1, bits1, val), j) <==> if j >= 64 - bits1 then Bit(val, j - (64 - bits1)) else Bit(w1, j)
  {
    hide Bit, And, Shl, HighMask, Not, Or;
    var b := 64 - bits1;
    BitOr(And(w1, Not(HighMask(b))), Shl(val, b), j);
    BitAnd(w1, Not(HighMask(b)), j);
    BitNot(HighMask(b), j);
    HighMaskBits(b, j);
    BitShl(val, b, j);
  }

  // ----- Whole values -----

  /** The word and the place in it of the bits of a value that does not leave its word. */
  lemma WithinWord(f: nat, n: nat, p: nat)
    requires n > 0 && f <= p < f + n && f / 64 == (f + n - 1) / 64
    ensures p / 64 == f / 64 && p % 64 == f % 64 + (p - f)
  {}

  /** A value of fewer than 64 bits reaches at most into the next word. */
  lemma AcrossWords(f: nat, n: nat, p: nat)
    requires 0 < n < 64 && f <= p < f + n && f / 64 != (f + n - 1) / 64
    ensures (f + n - 1) / 64 == f / 64 + 1 && f % 64 + n - 64 == (f + n - 1) % 64 + 1
    ensures if p < f + (64 - f % 64) then p / 64 == f / 64 && p % 64 == f % 64 + (p - f)
            else p / 64 == f / 64 + 1 && p % 64 == f % 64 + (p - f) - 64
  {}

  lemma GetSameValue(words: seq<Word>, f: nat, n: nat)
    requires 0 < n < 64 && f + n <= 64 * |words| && f / 64 == (f + n - 1) / 64
    ensures 63 - f % 64 - (63 - (f + n - 1) % 64) == n - 1
    ensures GetSame(words[f / 64], 63 - f % 64, 63 - (f + n - 1) % 64) == Value(words, f, n)
  {
    hide GetSame, Bit, Value;
    WithinWord(f, n, f + n - 1);
    var w, hi, lo := words[f / 64], 63 - f % 64, 63 - (f + n - 1) % 64;
    forall j | 0 <= j < 64
      ensures Bit(GetSame(w, hi, lo), j) <==> j < n && Stream(words, f + n - 1 - j)
    {
      GetSameBits(w, hi, lo, j);
      if j < n {
        WithinWord(f, n, f + n - 1 - j);
      }
    }
    ValueIs(words, f, n, GetSame(w, hi, lo));
  }

  lemma GetSpanValue(words: seq<Word>, f: nat, n: nat)
    requires 0 < n < 64 && f + n <= 64 * |words| && f / 64 != (f + n - 1) / 64
    ensures 0 < 64 - f % 64 < n
    ensures GetSpan(words[f / 64], words[(f + n - 1) / 64], 64 - f % 64, n - (64 - f % 64)) == Value(words, f, n)
  {
    hide GetSpan, Bit, Value;
    AcrossWords(f, n, f);
    var w0, w1, bits0 := words[f / 64], words[(f + n - 1) / 64], 64 - f % 64;
    var r := GetSpan(w0, w1, bits0, n - bits0);
    forall j | 0 <= j < 64
      ensures Bit(r, j) <==> j < n && Stream(words, f + n - 1 - j)
    {
      GetSpanBits(w0, w1, bits0, n - bits0, j);
      if j < n {
        AcrossWords(f, n, f + n - 1 - j);
      }
    }
    ValueIs(words, f, n, r);
  }

  /** The n bits from f on have become those of val, and no other bit has changed. */
  ghost predicate Written(words: seq<Word>, words': seq<Word>, f: nat, n: nat, val: nat) {
    && |words'| == |words| && f + n <= 64 * |words|
    && forall p :: 0 <= p < 64 * |words| ==>
         (Stream(words', p) <==> if f <= p < f + n then Bit(val, f + n - 1 - p) else Stream(words, p))
  }

  lemma SetSameWritten(words: seq<Word>, f: nat, n: nat, val: Word)
    requires 0 < n < 64 && f + n <= 64 * |words| && f / 64 == (f + n - 1) / 64 && val < Pow2(n)
    ensures 63 - f % 64 - (63 - (f + n - 1) % 64) == n - 1
    ensures Written(words, words[f / 64 := SetSame(words[f / 64], 63 - f % 64, 63 - (f + n - 1) % 64, val)], f, n, val)
  {
    hide SetSame, Bit, Pow2;
    WithinWord(f, n, f + n - 1);
    var i, hi, lo := f / 64, 63 - f % 64, 63 - (f + n - 1) % 64;
    var words' := words[i := SetSame(words[i], hi, lo, val)];
    forall p | 0 <= p < 64 * |words|
      ensures Stream(words', p) <==> if f <= p < f + n then Bit(val, f + n - 1 - p) else Stream(words, p)
    {
      if p / 64 == i {
        SetSameBits(words[i], hi, lo, val, 63 - p % 64);
      }
    }
  }

  lemma SetSpanWritten(words: seq<Word>, f: nat, n: nat, val: Word)
    requires 0 < n < 64 && f + n <= 64 * |words| && f / 64 != (f + n - 1) / 64 && val < Pow2(n)
    ensures 0 < 64 - f % 64 < n && (f + n - 1) / 64 == f / 64 + 1
    ensures var bits0, i := 64 - f % 64, f / 64;
      var first := words[i := SetFirst(words[i], bits0, n - bits0, val)];
      Written(words, first[i + 1 := SetSecond(words[i + 1], n - bits0, val)], f, n, val)
  {
    hide SetFirst, SetSecond, Bit, Pow2;
    AcrossWords(f, n, f);
    var i, bits0 := f / 64, 64 - f % 64;
    var first := words[i := SetFirst(words[i], bits0, n - bits0, val)];
    var words' := first[i + 1 := SetSecond(words[i + 1], n - bits0, val)];
    forall p | 0 <= p < 64 * |words|
      ensures Stream(words', p) <==> if f <= p < f + n then Bit(val, f + n - 1 - p) else Stream(words, p)
    {
      if p / 64 == i {
        SetFirstBits(words[i], bits0, n - bits0, val, 63 - p % 64);
      } else if p / 64 == i + 1 {
        SetSecondBits(words[i + 1], n - bits0, val, 63 - p % 64);
      }
    }
  }

  // ----- The array of values -----

  ghost function Contents(words: seq<Word>, n: nat, size: nat): (c: seq<nat>)
    requires size * n <= 64 * |words|
    ensures |c| == size
  {
    if size == 0 then [] else
      LastFits(size, n);
      Contents(words, n, size - 1) + [Value(words, (size - 1) * n, n)]
  }

  lemma LastFits(size: nat, n: nat)
    requires size > 0
    ensures 0 <= (size - 1) * n && (size - 1) * n + n == size * n
  {}

  lemma IndexFits(i: nat, size: nat, n: nat)
    requires i < size
    ensures 0 <= i * n && i * n + n <= size * n
  {
    assert size * n == i * n + n + (size - i - 1) * n;
    ProductNat(size - i - 1, n);
  }

  lemma ProductNat(a: nat, b: nat)
    ensures 0 <= a * b
  {}

  lemma {:induction false} ContentsAt(words: seq<Word>, n: nat, size: nat, i: nat)
    requires size * n <= 64 * |words| && i < size
    ensures 0 <= i * n && i * n + n <= 64 * |words| && Contents(words, n, size)[i] == Value(words, i * n, n)
    decreases size
  {
    hide Value;
    IndexFits(i, size, n);
    if i < size - 1 {
      LastFits(size, n);
      ContentsAt(words, n, size - 1, i);
    }
  }

  /** Values at different places have no bit in common. */
  lemma Apart(i: nat, j: nat, n: nat)
    requires i < j
    ensures i * n + n <= j * n
  {
    IndexFits(i, j, n);
  }

  /** Writing the bits of one value changes that value, and no other. */
  lemma WrittenContents(words: seq<Word>, words': seq<Word>, n: nat, size: nat, idx: nat, val: Word)
    requires 0 < n <= 64 && size * n <= 64 * |words| && idx < size && val < Pow2(n)
    requires 0 <= idx * n && Written(words, words', idx * n, n, val)
    ensures Contents(words', n, size) == Contents(words, n, size)[idx := val]
  {
    hide Contents, Value, Bit;
    var c, c' := Contents(words, n, size), Contents(words', n, size);
    forall i | 0 <= i < size
      ensures c'[i] == c[idx := val][i]
    {
      ContentsAt(words, n, size, i);
      ContentsAt(words', n, size, i);
      if i == idx {
        WrittenValue(words, words', idx * n, n, val);
      } else {
        if i < idx { Apart(i, idx, n); } else { Apart(idx, i, n); }
        ValueSame(words, words', i * n, n);
      }
    }
  }

  lemma WrittenValue(words: seq<Word>, words': seq<Word>, f: nat, n: nat, val: Word)
    requires n <= 64 && val < Pow2(n) && Written(words, words', f, n, val)
    ensures Value(words', f, n) == val
  {
    hide Stream, Bit, Pow2;
    forall j | 0 <= j < 64
      ensures Bit(val, j) <==> j < n && Stream(words', f + n - 1 - j)
    {
      if j < n {
        assert Stream(words', f + n - 1 - j) <==> Bit(val, j);
      } else {
        BitAbove(val, n, j);
      }
    }
    ValueIs(words', f, n, val);
  }

  /** All values of an array whose first words are the same are the same. */
  lemma {:induction false} ContentsPrefix(words: seq<Word>, words': seq<Word>, n: nat, size: nat)
    requires size * n <= 64 * |words| && size * n <= 64 * |words'|
    requires forall k :: 0 <= k < |words| && k < |words'| ==> words'[k] == words[k]
    ensures Contents(words', n, size) == Contents(words, n, size)
  {
    hide Value, Bit;
    if size > 0 {
      LastFits(size, n);
      ContentsPrefix(words, words', n, size - 1);
      ValueSame(words, words', (size - 1) * n, n);
    }
  }

  lemma {:induction false} ContentsTake(words: seq<Word>, n: nat, size: nat, k: nat)
    requires size * n <= 64 * |words| && k <= size
    ensures k * n <= 64 * |words| && Contents(words, n, size)[..k] == Contents(words, n, k)
    decreases size
  {
    hide Value;
    if k < size {
      LastFits(size, n);
      ContentsTake(words, n, size - 1, k);
    } else {
      assert Contents(words, n, size)[..k] == Contents(words, n, k);
    }
  }

  /** With all words zero, or all words full, every value is zero, or the greatest of n bits. */
  lemma {:induction false} ContentsUniform(words: seq<Word>, n: nat, size: nat, full: bool)
    requires size * n <= 64 * |words|
    requires forall k :: 0 <= k < |words| ==> words[k] == if full then WORD - 1 else 0
    ensures forall i :: 0 <= i < size ==> Contents(words, n, size)[i] == if full then Pow2(n) - 1 else 0
  {
    hide Value, Bit;
    if size > 0 {
      LastFits(size, n);
      ContentsUniform(words, n, size - 1, full);
      ValueUniform(words, (size - 1) * n, n, full);
    }
  }

  lemma {:induction false} ValueUniform(words: seq<Word>, f: nat, n: nat, full: bool)
    requires f + n <= 64 * |words|
    requires forall k :: 0 <= k < |words| ==> words[k] == if full then WORD - 1 else 0
    ensures Value(words, f, n) == if full then Pow2(n) - 1 else 0
  {
    hide Bit;
    if n > 0 {
      ValueUniform(words, f, n - 1, full);
      BitWordMax(63 - (f + n - 1) % 64);
      BitZero(63 - (f + n - 1) % 64);
    }
  }

  /** Where all words from one on are zero, so are the values whose bits all lie there. */
  lemma ContentsBeyond(words: seq<Word>, n: nat, size: nat, from: nat)
    requires size * n <= 64 * |words| && forall k :: from <= k < |words| ==> words[k] == 0
    ensures forall i :: 0 <= i < size && i * n >= 64 * from ==> Contents(words, n, size)[i] == 0
  {
    hide Contents, Value;
    forall i | 0 <= i < size && i * n >= 64 * from
      ensures Contents(words, n, size)[i] == 0
    {
      ContentsAt(words, n, size, i);
      ValueBeyond(words, i * n, n, from);
    }
  }

  lemma {:induction false} ValueBeyond(words: seq<Word>, f: nat, n: nat, from: nat)
    requires 64 * from <= f && f + n <= 64 * |words| && forall k :: from <= k < |words| ==> words[k] == 0
    ensures Value(words, f, n) == 0
  {
    hide Bit;
    if n > 0 {
      ValueBeyond(words, f, n - 1, from);
      BitZero(63 - (f + n - 1) % 64);
    }
  }

  /** nextMultipleOfPow2(64, x) / 64 words are enough for x bits, and no fewer are. */
  function WordsFor(x: nat): (k: nat)
    ensures x <= 64 * k < x + 64
  {
    (x + 63) / 64
  }

  /** A new word array, zeroed, with as many of the old words as fit. */
  method Resized(from: array<Word>, length: nat) returns (words: array<Word>)
    ensures fresh(words) && words.Length == length
    ensures forall k :: 0 <= k < length ==> words[k] == if k < from.Length then from[k] else 0
  {
    words := new Word[length](_ => 0);
    var copySize := if from.Length < length then from.Length else length;
    for k := 0 to copySize
      invariant forall j :: 0 <= j < length ==> words[j] == if j < k then from[j] else 0
    {
      words[k] := from[k];
    }
  }

  class BitArray {
    var numBits: nat
    var size: nat
    var words: array<Word>

    ghost predicate Valid()
      reads this, words
    {
      && numBits < 64 && words.Length == WordsFor(size * numBits) && (size > 0 ==> numBits > 0)
    }

    /** The values, in order. */
    ghost function Values(): seq<nat>
      reads this, words
      requires Valid()
    {
      Contents(words[..], numBits, size)
    }

    /** initialize(): all values are zero. */
    constructor (size: nat, numBits: nat)
      requires size > 0 ==> 0 < numBits < 64 && size * numBits + 63 < WORD
      ensures Valid() && fresh(words) && this.size == size && this.numBits == if size == 0 then 0 else numBits
      ensures |Values()| == size && forall i :: 0 <= i < size ==> Values()[i] == 0
    {
      hide Value, Contents, Pow2;
      if size == 0 {
        this.size, this.numBits := 0, 0;
        words := new Word[0](_ => 0);
      } else {
        this.size, this.numBits := size, numBits;
        words := new Word[WordsFor(size * numBits)](_ => 0);
      }
      new;
      ContentsUniform(words[..], this.numBits, size, false);
    }

    /** get() */
    method Get(idx: nat) returns (val: Word)
      requires Valid() && idx < size
      ensures val == Values()[idx]
    {
      hide GetSame, GetSpan, Value, Contents;
      ContentsAt(words[..], numBits, size, idx);
      ghost var f := idx * numBits;
      var firstBit, lastBit := Bits(idx);
      var firstBitIdx, lastBitIdx := firstBit / 64, lastBit / 64;
      var firstBitPos, lastBitPos := 63 - firstBit % 64, 63 - lastBit % 64;
      if firstBitIdx == lastBitIdx {
        GetSameValue(words[..], f, numBits);
        val := GetSame(words[firstBitIdx], firstBitPos, lastBitPos);
      } else {
        GetSpanValue(words[..], f, numBits);
        var bits0 := firstBitPos + 1;
        val := GetSpan(words[firstBitIdx], words[lastBitIdx], bits0, numBits - bits0);
      }
    }

    /** The first and the last bit of a value, both inside the word array. */
    method Bits(idx: nat) returns (firstBit: nat, lastBit: nat)
      requires Valid() && idx < size
      ensures firstBit == idx * numBits && lastBit == firstBit + numBits - 1
      ensures firstBit <= lastBit && lastBit / 64 < words.Length
    {
      IndexFits(idx, size, numBits);
      firstBit := idx * numBits;
      lastBit := (idx + 1) * numBits - 1;
    }

    /** set() */
    method Set(idx: nat, val: Word)
      requires Valid() && idx < size && val < Pow2(numBits)
      modifies words
      ensures Valid() && Values() == old(Values())[idx := val]
    {
      hide SetSame, SetFirst, SetSecond, Contents, Written, Pow2;
      var firstBit, lastBit := Bits(idx);
      ghost var before := words[..];
      var firstBitIdx, lastBitIdx := firstBit / 64, lastBit / 64;
      var firstBitPos, lastBitPos := 63 - firstBit % 64, 63 - lastBit % 64;
      if firstBitIdx == lastBitIdx {
        SetSameWritten(before, firstBit, numBits, val);
        words[firstBitIdx] := SetSame(words[firstBitIdx], firstBitPos, lastBitPos, val);
      } else {
        SetSpanWritten(before, firstBit, numBits, val);
        var bits0 := firstBitPos + 1;
        var bits1 := numBits - bits0;
        words[firstBitIdx] := SetFirst(words[firstBitIdx], bits0, bits1, val);
        words[lastBitIdx] := SetSecond(words[lastBitIdx], bits1, val);
      }
      WrittenContents(before, words[..], numBits, size, idx, val);
    }

    /** setAll(): both shortcuts do what the loop would. */
    method SetAll(val: Word)
      requires Valid() && (val == 0 || val < Pow2(numBits))
      modifies words
      ensures Valid() && |Values()| == size && forall i :: 0 <= i < size ==> Values()[i] == val
    {
      hide Contents, Value, Bit;
      ShlOne(numBits);
      if val == 0 {
        Fill(0);
        ContentsUniform(words[..], numBits, size, false);
      } else if val == Shl(1, numBits) - 1 {
        Fill(WORD - 1);
        ContentsUniform(words[..], numBits, size, true);
      } else {
        for idx := 0 to size
          invariant Valid() && |Values()| == size && forall i :: 0 <= i < idx ==> Values()[i] == val
        {
          Set(idx, val);
        }
      }
    }

    /** memset() */
    method Fill(w: Word)
      modifies words
      ensures forall k :: 0 <= k < words.Length ==> words[k] == w
    {
      for i := 0 to words.Length
        invariant forall k :: 0 <= k < i ==> words[k] == w
      {
        words[i] := w;
      }
    }

    /**
     * setSize(): the values that remain are kept. An array that was initialized with no values has no number of bits,
     * and is no longer an array of values once it gets a size.
     */
    method SetSize(newSize: nat)
      requires Valid() && newSize * numBits + 63 < WORD
      modifies this
      ensures numBits == old(numBits) && size == newSize && (words == old(words) || fresh(words))
      ensures Valid() <==> numBits > 0 || newSize == 0
      ensures Valid() ==> forall i :: 0 <= i < newSize && i < old(size) ==> Values()[i] == old(Values())[i]
      ensures Valid() ==> forall i :: 0 <= i < newSize && i * numBits >= 64 * old(words.Length) ==> Values()[i] == 0
    {
      hide Contents;
      var oldWords := words;
      ghost var oldSize := size;
      size := newSize;
      var arraySize := WordsFor(newSize * numBits);
      if arraySize != oldWords.Length {
        words := Resized(oldWords, arraySize);
      }
      if numBits > 0 || newSize == 0 {
        var both := if oldSize < newSize then oldSize else newSize;
        ContentsTake(oldWords[..], numBits, oldSize, both);
        ContentsTake(words[..], numBits, newSize, both);
        ContentsPrefix(oldWords[..], words[..], numBits, both);
        ContentsBeyond(words[..], numBits, newSize, oldWords.Length);
      }
    }
  }

  /** An array that starts with no values gets a size, but no bits to keep the values in. */
  method SizeWithoutBits(numBits: nat, newSize: nat) returns (b: BitArray)
    requires newSize > 0
    ensures fresh(b) && b.size == newSize && b.numBits == 0 && !b.Valid()
  {
    b := new BitArray(0, numBits);
    b.SetSize(newSize);
  }
}
