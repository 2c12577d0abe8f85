/**
 * seed_seq_fe with 32-bit words (randutils.hpp): seeding mixes the input words into the state, and param() runs the
 * mixer backwards.
 */
module SeedSeq {
  import opened Arithmetic
  import opened Words

  const INIT_A: Word := 0x43b0d7e5
  const MULT_A: Word := 0x931e8875
  const MIX_MULT_L: Word := 0xca01f9dd
  const MIX_MULT_R: Word := 0x4973f715

  /** The mixer array, and the running hash constant. */
  datatype Mixer = Mixer(words: seq<Word>, hc: Word)

  /** The value that hash() gives with the constant hc; the constant then becomes hc * MULT_A. */
  function Hash(v: Word, hc: Word): Word {
    XorShift(Mul(XorWord(v, hc), Mul(hc, MULT_A)))
  }

  function Mix(x: Word, y: Word): Word {
    XorShift(Sub(Mul(MIX_MULT_L, x), Mul(MIX_MULT_R, y)))
  }

  // ----- Seeding -----

  /** The first i components, filled with hashed input, or with hashed zeros once the input has run out. */
  function Filled(input: seq<Word>, i: nat): (m: Mixer)
    ensures |m.words| == i
  {
    if i == 0 then Mixer([], INIT_A)
    else
      var m := Filled(input, i - 1);
      Mixer(m.words + [Hash(At(input, i - 1), m.hc)], Mul(m.hc, MULT_A))
  }

  function At(input: seq<Word>, i: nat): Word {
    if i < |input| then input[i] else 0
  }

  /** One step of the nested loops: component src is mixed into component dest. */
  function Cell(m: Mixer, src: nat, dest: nat): (m': Mixer)
    requires src < |m.words| && dest < |m.words|
    ensures |m'.words| == |m.words|
  {
    if src == dest then m
    else Mixer(m.words[dest := Mix(m.words[dest], Hash(m.words[src], m.hc))], Mul(m.hc, MULT_A))
  }

  /** Component src has been mixed into the first d components. */
  function Row(m: Mixer, src: nat, d: nat): (m': Mixer)
    requires src < |m.words| && d <= |m.words|
    ensures |m'.words| == |m.words|
  {
    if d == 0 then m else Cell(Row(m, src, d - 1), src, d - 1)
  }

  /** The first s components have been mixed into all others. */
  function Rows(m: Mixer, s: nat): (m': Mixer)
    requires s <= |m.words|
    ensures |m'.words| == |m.words|
  {
    if s == 0 then m else Row(Rows(m, s - 1), s - 1, |m.words|)
  }

  /** One further input word, beyond the number of components, is mixed into the first d components. */
  function Spread(m: Mixer, v: Word, d: nat): (m': Mixer)
    requires d <= |m.words|
    ensures |m'.words| == |m.words|
  {
    if d == 0 then m
    else
      var p := Spread(m, v, d - 1);
      Mixer(p.words[d - 1 := Mix(p.words[d - 1], Hash(v, p.hc))], Mul(p.hc, MULT_A))
  }

  function Spreads(m: Mixer, extra: seq<Word>): (m': Mixer)
    ensures |m'.words| == |m.words|
  {
    if extra == [] then m
    else
      var p := Spreads(m, extra[..|extra| - 1]);
      Spread(p, extra[|extra| - 1], |p.words|)
  }

  function Extra(input: seq<Word>, count: nat): seq<Word> {
    if |input| <= count then [] else input[count..]
  }

  function Mixed(input: seq<Word>, count: nat): Mixer {
    Spreads(Rows(Filled(input, count), count), Extra(input, count))
  }

  /** The words after mix_entropy. */
  function MixedWords(input: seq<Word>, count: nat): (words: seq<Word>)
    ensures |words| == count
  {
    Mixed(input, count).words
  }

  /** The state after mixing `rounds` times: first the input, then the state itself. */
  function Seeded(input: seq<Word>, count: nat, rounds: nat): (words: seq<Word>)
    requires rounds >= 1
    ensures |words| == count
  {
    if rounds == 1 then MixedWords(input, count) else MixedWords(Seeded(input, count, rounds - 1), count)
  }

  /** The state after seed(), which mixes at least once. */
  function AfterSeed(input: seq<Word>, count: nat, rounds: nat): seq<Word> {
    Seeded(input, count, if rounds == 0 then 1 else rounds)
  }

  // ----- Running the mixer backwards -----

  function Unmix(z: Word, y: Word): Word {
    Mul(Add(XorShift(z), Mul(MIX_MULT_R, y)), Pow(MIX_MULT_L, M - 1))
  }

  function Back(hc: Word): Word {
    Mul(hc, Pow(MULT_A, M - 1))
  }

  /** Undoes hash(), where hc is the constant after it. */
  function Unhash(h: Word, hc: Word): Word {
    XorWord(Mul(XorShift(h), Pow(hc, M - 1)), Back(hc))
  }

  function Uncell(m: Mixer, src: nat, dest: nat): (m': Mixer)
    requires src < |m.words| && dest < |m.words|
    ensures |m'.words| == |m.words|
  {
    if src == dest then m
    else Mixer(m.words[dest := Unmix(m.words[dest], Hash(m.words[src], Back(m.hc)))], Back(m.hc))
  }

  function Unrow(m: Mixer, src: nat, d: nat): (m': Mixer)
    requires src < |m.words| && d <= |m.words|
    ensures |m'.words| == |m.words|
    decreases d
  {
    if d == 0 then m else Unrow(Uncell(m, src, d - 1), src, d - 1)
  }

  function Unrows(m: Mixer, s: nat): (m': Mixer)
    requires s <= |m.words|
    ensures |m'.words| == |m.words|
    decreases s
  {
    if s == 0 then m else Unrows(Unrow(m, s - 1, |m.words|), s - 1)
  }

  /** Undoes the filling of the first i components. */
  function Unfilled(m: Mixer, i: nat): (m': Mixer)
    requires i <= |m.words|
    ensures |m'.words| == |m.words|
    decreases i
  {
    if i == 0 then m
    else Unfilled(Mixer(m.words[i - 1 := Unhash(m.words[i - 1], m.hc)], Back(m.hc)), i - 1)
  }

  /** The hash constant after k hashes. */
  function HashConstant(k: nat): Word {
    Mul(INIT_A, Pow(MULT_A, k))
  }

  /** One round of param(). */
  function Unmixed(words: seq<Word>): (r: seq<Word>)
    ensures |r| == |words|
  {
    Unfilled(Unrows(Mixer(words, HashConstant(|words| * |words|)), |words|), |words|).words
  }

  function Unmixes(words: seq<Word>, rounds: nat): (r: seq<Word>)
    ensures |r| == |words|
    decreases rounds
  {
    if rounds == 0 then words else Unmixes(Unmixed(words), rounds - 1)
  }

  /** The input, cut off or padded with zeros to the number of components. */
  function Padded(input: seq<Word>, count: nat): (r: seq<Word>)
    ensures |r| == count
  {
    if count == 0 then [] else Padded(input, count - 1) + [At(input, count - 1)]
  }

  // ----- Each piece undone -----

  lemma BackAgain(hc: Word)
    ensures Back(Mul(hc, MULT_A)) == hc && Mul(Back(hc), MULT_A) == hc
  {
    hide Mul, Pow;
    OddInverse(MULT_A);
    Cancel(MULT_A, Pow(MULT_A, M - 1), hc);
  }

  lemma UnhashHash(v: Word, hc: Word)
    requires hc % 2 == 1
    ensures Unhash(Hash(v, hc), Mul(hc, MULT_A)) == v
  {
    hide Mul, Pow, XorShift;
    var k := Mul(hc, MULT_A);
    OddTimesOdd(hc, MULT_A);
    OddInverse(k);
    BackAgain(hc);
    XorShiftTwice(Mul(XorWord(v, hc), k));
    Cancel(k, Pow(k, M - 1), XorWord(v, hc));
    XorTwice(v, hc);
  }

  lemma HashUnhash(h: Word, k: Word)
    requires k % 2 == 1
    ensures Hash(Unhash(h, k), Back(k)) == h
  {
    hide Mul, Pow, XorShift;
    OddInverse(k);
    BackAgain(k);
    var x := Mul(XorShift(h), Pow(k, M - 1));
    XorTwice(x, Back(k));
    Cancel(k, Pow(k, M - 1), XorShift(h));
    XorShiftTwice(h);
  }

  lemma SubAdd(a: Word, b: Word)
    ensures Add(Sub(a, b), b) == a && Sub(Add(a, b), b) == a
  {}

  lemma UnmixMix(x: Word, y: Word)
    ensures Unmix(Mix(x, y), y) == x
  {
    hide Mul, Pow, XorShift, Add, Sub;
    var a, b := Mul(MIX_MULT_L, x), Mul(MIX_MULT_R, y);
    XorShiftTwice(Sub(a, b));
    SubAdd(a, b);
    OddInverse(MIX_MULT_L);
    MulComm(MIX_MULT_L, x);
    Cancel(MIX_MULT_L, Pow(MIX_MULT_L, M - 1), x);
  }

  lemma MixUnmix(z: Word, y: Word)
    ensures Mix(Unmix(z, y), y) == z
  {
    hide Mul, Pow, XorShift, Add, Sub;
    var i := Pow(MIX_MULT_L, M - 1);
    var b := Mul(MIX_MULT_R, y);
    var c := Add(XorShift(z), b);
    OddInverse(MIX_MULT_L);
    Cancel(MIX_MULT_L, i, c);
    MulComm(MIX_MULT_L, Mul(c, i));
    SubAdd(XorShift(z), b);
    XorShiftTwice(z);
  }

  lemma UncellCell(m: Mixer, src: nat, dest: nat)
    requires src < |m.words| && dest < |m.words|
    ensures Uncell(Cell(m, src, dest), src, dest) == m
  {
    hide Mul, Hash, Mix, Unmix, Back;
    if src != dest {
      BackAgain(m.hc);
      UnmixMix(m.words[dest], Hash(m.words[src], m.hc));
    }
  }

  lemma CellUncell(m: Mixer, src: nat, dest: nat)
    requires src < |m.words| && dest < |m.words|
    ensures Cell(Uncell(m, src, dest), src, dest) == m
  {
    hide Mul, Hash, Mix, Unmix, Back;
    if src != dest {
      BackAgain(m.hc);
      MixUnmix(m.words[dest], Hash(m.words[src], Back(m.hc)));
    }
  }

  lemma {:induction false} UnrowRow(m: Mixer, src: nat, d: nat)
    requires src < |m.words| && d <= |m.words|
    ensures Unrow(Row(m, src, d), src, d) == m
  {
    hide Cell, Uncell;
    if d > 0 {
      UncellCell(Row(m, src, d - 1), src, d - 1);
      UnrowRow(m, src, d - 1);
    }
  }

  lemma {:induction false} RowUnrow(m: Mixer, src: nat, d: nat)
    requires src < |m.words| && d <= |m.words|
    ensures Row(Unrow(m, src, d), src, d) == m
    decreases d
  {
    hide Cell, Uncell;
    if d > 0 {
      RowUnrow(Uncell(m, src, d - 1), src, d - 1);
      CellUncell(m, src, d - 1);
    }
  }

  lemma {:induction false} UnrowsRows(m: Mixer, s: nat)
    requires s <= |m.words|
    ensures Unrows(Rows(m, s), s) == m
  {
    hide Row, Unrow;
    if s > 0 {
      UnrowRow(Rows(m, s - 1), s - 1, |m.words|);
      UnrowsRows(m, s - 1);
    }
  }

  lemma {:induction false} RowsUnrows(m: Mixer, s: nat)
    requires s <= |m.words|
    ensures Rows(Unrows(m, s), s) == m
    decreases s
  {
    hide Row, Unrow;
    if s > 0 {
      RowsUnrows(Unrow(m, s - 1, |m.words|), s - 1);
      RowUnrow(m, s - 1, |m.words|);
    }
  }

  // ----- The hash constant -----

  lemma NextConstant(k: nat)
    ensures Mul(HashConstant(k), MULT_A) == HashConstant(k + 1)
    ensures Back(HashConstant(k + 1)) == HashConstant(k)
  {
    hide Mul, Pow;
    PowAdd(MULT_A, k, 1);
    PowOne(MULT_A);
    MulAssoc(INIT_A, Pow(MULT_A, k), MULT_A);
    BackAgain(HashConstant(k));
  }

  lemma ConstantOdd(k: nat)
    ensures HashConstant(k) % 2 == 1
  {
    hide Mul, Pow;
    OddPow(MULT_A, k);
    OddTimesOdd(INIT_A, Pow(MULT_A, k));
  }

  lemma ConstantStart()
    ensures HashConstant(0) == INIT_A
  {
    OneTimes(INIT_A);
  }

  /** Component src is hashed for every component but itself. */
  lemma {:induction false} RowConstant(m: Mixer, src: nat, d: nat, k: nat)
    requires src < |m.words| && d <= |m.words| && m.hc == HashConstant(k)
    ensures Row(m, src, d).hc == HashConstant(k + d - if src < d then 1 else 0)
  {
    hide HashConstant, Mul, Hash, Mix;
    if d > 0 {
      RowConstant(m, src, d - 1, k);
      NextConstant(k + d - 1 - if src < d - 1 then 1 else 0);
    }
  }

  lemma {:induction false} RowsConstant(m: Mixer, s: nat, k: nat)
    requires s <= |m.words| && m.hc == HashConstant(k)
    ensures Rows(m, s).hc == HashConstant(k + s * (|m.words| - 1))
  {
    hide HashConstant, Row;
    if s > 0 {
      var c := |m.words|;
      RowsConstant(m, s - 1, k);
      RowConstant(Rows(m, s - 1), s - 1, c, k + (s - 1) * (c - 1));
      assert (s - 1) * (c - 1) + (c - 1) == s * (c - 1);
    }
  }

  lemma {:induction false} UnrowConstant(m: Mixer, src: nat, d: nat, k: nat)
    requires src < |m.words| && d <= |m.words| && m.hc == HashConstant(k + d - if src < d then 1 else 0)
    ensures Unrow(m, src, d).hc == HashConstant(k)
    decreases d
  {
    hide HashConstant, Mul, Hash, Unmix, Back;
    if d > 0 {
      NextConstant(k + d - 1 - if src < d - 1 then 1 else 0);
      UnrowConstant(Uncell(m, src, d - 1), src, d - 1, k);
    }
  }

  lemma {:induction false} UnrowsConstant(m: Mixer, s: nat, k: nat)
    requires s <= |m.words| && m.hc == HashConstant(k + s * (|m.words| - 1))
    ensures Unrows(m, s).hc == HashConstant(k)
    decreases s
  {
    hide HashConstant, Unrow;
    if s > 0 {
      var c := |m.words|;
      assert (s - 1) * (c - 1) + (c - 1) == s * (c - 1);
      UnrowConstant(m, s - 1, c, k + (s - 1) * (c - 1));
      UnrowsConstant(Unrow(m, s - 1, c), s - 1, k);
    }
  }

  lemma {:induction false} FilledConstant(input: seq<Word>, i: nat)
    ensures Filled(input, i).hc == HashConstant(i)
  {
    hide HashConstant, Hash, Mul;
    if i == 0 {
      ConstantStart();
    } else {
      FilledConstant(input, i - 1);
      NextConstant(i - 1);
    }
  }

  /** As many hashes are made in all as param() starts from. */
  lemma AllHashes(input: seq<Word>, count: nat)
    ensures Rows(Filled(input, count), count).hc == HashConstant(count * count)
  {
    hide HashConstant, Rows, Filled;
    FilledConstant(input, count);
    RowsConstant(Filled(input, count), count, count);
    assert count + count * (count - 1) == count * count;
  }

  // ----- Filling undone -----

  lemma {:induction false} UnfilledFilled(input: seq<Word>, i: nat, rest: seq<Word>)
    ensures Unfilled(Mixer(Filled(input, i).words + rest, Filled(input, i).hc), i).words == Padded(input, i) + rest
    decreases i
  {
    hide Hash, Unhash, Mul, Back, HashConstant;
    if i == 0 {
      assert Filled(input, 0).words + rest == rest == Padded(input, 0) + rest;
    } else {
      var f, v := Filled(input, i - 1), At(input, i - 1);
      var m := Mixer(Filled(input, i).words + rest, Filled(input, i).hc);
      FilledConstant(input, i - 1);
      ConstantOdd(i - 1);
      UnhashHash(v, f.hc);
      BackAgain(f.hc);
      assert m.words[i - 1 := v] == f.words + ([v] + rest);
      UnfilledFilled(input, i - 1, [v] + rest);
      assert Padded(input, i - 1) + ([v] + rest) == Padded(input, i) + rest;
    }
  }

  lemma {:induction false} UnfilledAbove(m: Mixer, i: nat, j: nat)
    requires i <= j < |m.words|
    ensures Unfilled(m, i).words[j] == m.words[j]
    decreases i
  {
    hide Unhash, Back;
    if i > 0 {
      UnfilledAbove(Mixer(m.words[i - 1 := Unhash(m.words[i - 1], m.hc)], Back(m.hc)), i - 1, j);
    }
  }

  lemma {:induction false} FilledUnfilled(m: Mixer, i: nat)
    requires i <= |m.words| && m.hc == HashConstant(i)
    ensures Filled(Unfilled(m, i).words, i).words == m.words[..i]
    decreases i
  {
    hide Hash, Unhash, Mul, Back, HashConstant;
    if i > 0 {
      var m' := Mixer(m.words[i - 1 := Unhash(m.words[i - 1], m.hc)], Back(m.hc));
      var u := Unfilled(m', i - 1).words;
      NextConstant(i - 1);
      FilledUnfilled(m', i - 1);
      UnfilledAbove(m', i - 1, i - 1);
      FilledConstant(u, i - 1);
      ConstantOdd(i);
      HashUnhash(m.words[i - 1], m.hc);
      assert m'.words[..i - 1] == m.words[..i - 1];
    }
  }

  // ----- Round trips -----

  /** One round of param() gives back the input of mix_entropy, padded with zeros. */
  lemma UnmixedMixedWords(input: seq<Word>, count: nat)
    requires |input| <= count
    ensures Unmixed(MixedWords(input, count)) == Padded(input, count)
  {
    hide Filled, Rows, Unrows, Unfilled, HashConstant;
    var f := Filled(input, count);
    AllHashes(input, count);
    UnrowsRows(f, count);
    UnfilledFilled(input, count, []);
    assert f.words + [] == f.words;
    assert Padded(input, count) + [] == Padded(input, count);
  }

  /** And mix_entropy gives back the state that one round of param() ran on. */
  lemma MixedWordsUnmixed(words: seq<Word>)
    ensures MixedWords(Unmixed(words), |words|) == words
  {
    hide Filled, Rows, Unrows, Unfilled, HashConstant;
    var c := |words|;
    var m := Mixer(words, HashConstant(c * c));
    var u := Unrows(m, c);
    assert c + c * (c - 1) == c * c;
    UnrowsConstant(m, c, c);
    FilledUnfilled(u, c);
    FilledConstant(Unmixed(words), c);
    assert u.words[..c] == u.words;
    RowsUnrows(m, c);
  }

  lemma {:induction false} PaddedSame(input: seq<Word>, k: nat)
    requires k <= |input|
    ensures Padded(input, k) == input[..k]
  {
    if k > 0 {
      PaddedSame(input, k - 1);
    }
  }

  /**
   * param() after seed() returns the input padded with zeros, for every number of components, every number of mixing
   * rounds from one up, and every input that is no longer than the state.
   */
  lemma {:induction false} ParamAfterSeed(input: seq<Word>, count: nat, rounds: nat)
    requires |input| <= count && rounds >= 1
    ensures Unmixes(Seeded(input, count, rounds), rounds) == Padded(input, count)
  {
    hide MixedWords, Unmixed, Padded;
    if rounds == 1 {
      UnmixedMixedWords(input, count);
      assert Unmixes(Unmixed(Seeded(input, count, 1)), 0) == Padded(input, count);
    } else {
      var p := Seeded(input, count, rounds - 1);
      UnmixedMixedWords(p, count);
      PaddedSame(p, count);
      assert p[..count] == p;
      ParamAfterSeed(input, count, rounds - 1);
    }
  }

  /** seed() after param() gives back the state: seeding with exactly as many words as there are components is onto. */
  lemma {:induction false} SeedAfterParam(words: seq<Word>, rounds: nat)
    requires rounds >= 1
    ensures Seeded(Unmixes(words, rounds), |words|, rounds) == words
    decreases rounds
  {
    hide MixedWords, Unmixed;
    MixedWordsUnmixed(words);
    if rounds == 1 {
      assert Unmixes(words, 1) == Unmixes(Unmixed(words), 0);
    } else {
      SeedAfterParam(Unmixed(words), rounds - 1);
    }
  }

  // ----- Inputs longer than the state -----

  lemma {:induction false} SpreadConstant(m: Mixer, m': Mixer, v: Word, d: nat)
    requires d <= |m.words| == |m'.words| && m.hc == m'.hc
    ensures Spread(m, v, d).hc == Spread(m', v, d).hc
  {
    hide Mix, Hash, Mul;
    if d > 0 {
      SpreadConstant(m, m', v, d - 1);
    }
  }

  lemma {:induction false} SpreadInjective(m: Mixer, m': Mixer, v: Word, d: nat)
    requires d <= |m.words| == |m'.words| && m.hc == m'.hc && Spread(m, v, d).words == Spread(m', v, d).words
    ensures m == m'
  {
    hide Mix, Hash, Mul, Unmix;
    if d > 0 {
      var p, p' := Spread(m, v, d - 1), Spread(m', v, d - 1);
      SpreadConstant(m, m', v, d - 1);
      UnmixMix(p.words[d - 1], Hash(v, p.hc));
      UnmixMix(p'.words[d - 1], Hash(v, p.hc));
      assert Spread(m, v, d).words[d - 1] == Spread(m', v, d).words[d - 1];
      SameButOne(p.words, p'.words, d - 1, Mix(p.words[d - 1], Hash(v, p.hc)));
      SpreadInjective(m, m', v, d - 1);
    }
  }

  lemma SameButOne(a: seq<Word>, b: seq<Word>, i: nat, x: Word)
    requires i < |a| == |b| && a[i] == b[i] && a[i := x] == b[i := x]
    ensures a == b
  {
    forall j | 0 <= j < |a|
      ensures a[j] == b[j]
    {
      assert a[i := x][j] == b[i := x][j];
    }
  }

  lemma {:induction false} SpreadsInjective(m: Mixer, m': Mixer, extra: seq<Word>)
    requires |m.words| == |m'.words| && m.hc == m'.hc && Spreads(m, extra).words == Spreads(m', extra).words
    ensures m == m'
  {
    hide Spread;
    if extra != [] {
      var init, v := extra[..|extra| - 1], extra[|extra| - 1];
      SpreadsConstant(m, m', init);
      SpreadInjective(Spreads(m, init), Spreads(m', init), v, |m.words|);
      SpreadsInjective(m, m', init);
    }
  }

  lemma {:induction false} SpreadsConstant(m: Mixer, m': Mixer, extra: seq<Word>)
    requires |m.words| == |m'.words| && m.hc == m'.hc
    ensures Spreads(m, extra).hc == Spreads(m', extra).hc
  {
    hide Spread;
    if extra != [] {
      var init := extra[..|extra| - 1];
      SpreadsConstant(m, m', init);
      SpreadConstant(Spreads(m, init), Spreads(m', init), extra[|extra| - 1], |m.words|);
    }
  }

  lemma MixedWordsInjective(a: seq<Word>, b: seq<Word>, tail: seq<Word>)
    requires |a| == |b| && MixedWords(a + tail, |a|) == MixedWords(b + tail, |a|)
    ensures a == b
  {
    hide Rows, Spreads, HashConstant, Filled;
    var c := |a|;
    FilledPrefix(a, tail, c);
    FilledPrefix(b, tail, c);
    assert Extra(a + tail, c) == tail == Extra(b + tail, c);
    AllHashes(a, c);
    AllHashes(b, c);
    SpreadsInjective(Rows(Filled(a, c), c), Rows(Filled(b, c), c), tail);
    UnmixedMixedWords(a, c);
    UnmixedMixedWords(b, c);
    PaddedSame(a, c);
    PaddedSame(b, c);
    assert a[..c] == a && b[..c] == b;
  }

  lemma {:induction false} FilledPrefix(a: seq<Word>, tail: seq<Word>, i: nat)
    requires i <= |a|
    ensures Filled(a + tail, i) == Filled(a, i)
  {
    hide Hash, Mul;
    if i > 0 {
      FilledPrefix(a, tail, i - 1);
    }
  }

  /** With any fixed words after them, the words that fill the state still determine it one to one. */
  lemma {:induction false} SeedInjective(a: seq<Word>, b: seq<Word>, tail: seq<Word>, rounds: nat)
    requires |a| == |b| && rounds >= 1 && Seeded(a + tail, |a|, rounds) == Seeded(b + tail, |a|, rounds)
    ensures a == b
  {
    hide MixedWords;
    if rounds == 1 {
      MixedWordsInjective(a, b, tail);
    } else {
      var p, q := Seeded(a + tail, |a|, rounds - 1), Seeded(b + tail, |a|, rounds - 1);
      assert p + [] == p && q + [] == q;
      MixedWordsInjective(p, q, []);
      SeedInjective(a, b, tail, rounds - 1);
    }
  }

  // ----- Upper halves reach lower halves -----

  /** hash() takes a difference in the upper half of a word alone into the lower half. */
  lemma HashReachesLow(v: Word, w: Word, hc: Word)
    requires hc % 2 == 1 && v != w && v % HALF == w % HALF
    ensures Hash(v, hc) % HALF != Hash(w, hc) % HALF
  {
    hide Mul, XorShift, Xor;
    var k := Mul(hc, MULT_A);
    HashInjective(v, w, hc);
    WordPow();
    XorLowBits(v, w, hc, 16);
    MulLowBits(XorWord(v, hc), XorWord(w, hc), k);
    ShiftReachesLow(Mul(XorWord(v, hc), k), Mul(XorWord(w, hc), k));
  }

  /** And so does mix(). */
  lemma MixReachesLow(x: Word, x': Word, y: Word)
    requires x != x' && x % HALF == x' % HALF
    ensures Mix(x, y) % HALF != Mix(x', y) % HALF
  {
    hide Mul, XorShift, Sub;
    var a, a', b := Mul(MIX_MULT_L, x), Mul(MIX_MULT_L, x'), Mul(MIX_MULT_R, y);
    MixInjective(x, x', y);
    MulComm(MIX_MULT_L, x);
    MulComm(MIX_MULT_L, x');
    MulLowBits(x, x', MIX_MULT_L);
    SubLowBits(a, a', b);
    ShiftReachesLow(Sub(a, b), Sub(a', b));
  }

  // ----- Every state occurs equally often -----

  lemma {:induction false} SpreadOnto(m': Mixer, v: Word, d: nat, k: nat) returns (m: Mixer)
    requires d <= |m'.words| && m'.hc == HashConstant(k + d)
    ensures |m.words| == |m'.words| && m.hc == HashConstant(k) && Spread(m, v, d) == m'
    decreases d
  {
    hide Mix, Unmix, Hash, Mul, Back, HashConstant;
    if d == 0 {
      m := m';
    } else {
      var hc := Back(m'.hc);
      NextConstant(k + d - 1);
      MixUnmix(m'.words[d - 1], Hash(v, hc));
      m := SpreadOnto(Mixer(m'.words[d - 1 := Unmix(m'.words[d - 1], Hash(v, hc))], hc), v, d - 1, k);
    }
  }

  lemma {:induction false} SpreadsOnto(m': Mixer, extra: seq<Word>, k: nat) returns (m: Mixer)
    requires m'.hc == HashConstant(k + |m'.words| * |extra|)
    ensures |m.words| == |m'.words| && m.hc == HashConstant(k) && Spreads(m, extra) == m'
    decreases |extra|
  {
    hide Spread, HashConstant;
    if extra == [] {
      m := m';
    } else {
      var c, init := |m'.words|, extra[..|extra| - 1];
      assert c * |extra| == c * |init| + c;
      var p := SpreadOnto(m', extra[|extra| - 1], c, k + c * |init|);
      m := SpreadsOnto(p, init, k);
    }
  }

  /** With any fixed further words, every state is the outcome of some words that fill it. */
  lemma MixedWordsOnto(words: seq<Word>, tail: seq<Word>) returns (a: seq<Word>)
    ensures |a| == |words| && MixedWords(a + tail, |a|) == words
  {
    hide Rows, Spreads, HashConstant, Filled, Unmixed;
    var c := |words|;
    var m := SpreadsOnto(Mixer(words, HashConstant(c * c + c * |tail|)), tail, c * c);
    a := Unmixed(m.words);
    MixedWordsUnmixed(m.words);
    assert a + [] == a;
    MixedParts(a, []);
    MixedParts(a, tail);
    AllHashes(a, c);
    NoneSpread(Rows(Filled(a, c), c));
  }

  lemma NoneSpread(m: Mixer)
    ensures Spreads(m, []) == m
  {}

  /**
   * With any fixed further words, and any number of mixing rounds from one up, every state is the outcome of some words
   * that fill it; by SeedInjective of exactly one choice of them, so that all states occur equally often.
   */
  lemma {:induction false} SeedOnto(words: seq<Word>, tail: seq<Word>, rounds: nat) returns (a: seq<Word>)
    requires rounds >= 1
    ensures |a| == |words| && Seeded(a + tail, |a|, rounds) == words
    decreases rounds
  {
    hide MixedWords, Unmixed;
    if rounds == 1 {
      a := MixedWordsOnto(words, tail);
    } else {
      MixedWordsUnmixed(words);
      a := SeedOnto(Unmixed(words), tail, rounds - 1);
    }
  }

  // ----- Every input word matters -----

  /** Two mixers that differ in every component, and agree on the hash constant. */
  ghost predicate AllDiffer(m: Mixer, m': Mixer) {
    && |m.words| == |m'.words| && m.hc == m'.hc && m.hc % 2 == 1
    && forall i :: 0 <= i < |m.words| ==> m.words[i] != m'.words[i]
  }

  /** Two different words, mixed into the same state, make a difference in every component that is reached. */
  lemma {:induction false} SpreadDiffers(m: Mixer, v: Word, w: Word, d: nat)
    requires d <= |m.words| && m.hc % 2 == 1 && v != w
    ensures Spread(m, v, d).hc == Spread(m, w, d).hc && Spread(m, v, d).hc % 2 == 1
    ensures forall i :: 0 <= i < d ==> Spread(m, v, d).words[i] != Spread(m, w, d).words[i]
    ensures forall i :: d <= i < |m.words| ==> Spread(m, v, d).words[i] == Spread(m, w, d).words[i]
  {
    hide Mix, Hash, Mul;
    if d > 0 {
      var p := Spread(m, v, d - 1);
      SpreadDiffers(m, v, w, d - 1);
      OddTimesOdd(p.hc, MULT_A);
      HashInjective(v, w, p.hc);
      MixInjectiveRight(p.words[d - 1], Hash(v, p.hc), Hash(w, p.hc));
    }
  }

  /** The same word mixed into both leaves every difference. */
  lemma {:induction false} SpreadKeepsApart(m: Mixer, m': Mixer, u: Word, d: nat)
    requires AllDiffer(m, m') && d <= |m.words|
    ensures AllDiffer(Spread(m, u, d), Spread(m', u, d))
  {
    hide Mix, Hash, Mul;
    if d > 0 {
      var p, p' := Spread(m, u, d - 1), Spread(m', u, d - 1);
      SpreadKeepsApart(m, m', u, d - 1);
      OddTimesOdd(p.hc, MULT_A);
      MixInjective(p.words[d - 1], p'.words[d - 1], Hash(u, p.hc));
    }
  }

  lemma {:induction false} SpreadsOdd(m: Mixer, extra: seq<Word>)
    requires m.hc % 2 == 1
    ensures Spreads(m, extra).hc % 2 == 1
  {
    hide Spread;
    if extra != [] {
      var init := extra[..|extra| - 1];
      SpreadsOdd(m, init);
      SpreadOdd(Spreads(m, init), extra[|extra| - 1], |m.words|);
    }
  }

  lemma {:induction false} SpreadOdd(m: Mixer, v: Word, d: nat)
    requires m.hc % 2 == 1 && d <= |m.words|
    ensures Spread(m, v, d).hc % 2 == 1
  {
    hide Mix, Hash, Mul;
    if d > 0 {
      SpreadOdd(m, v, d - 1);
      OddTimesOdd(Spread(m, v, d - 1).hc, MULT_A);
    }
  }

  lemma SpreadsSnoc(m: Mixer, extra: seq<Word>, v: Word)
    ensures Spreads(m, extra + [v]) == Spread(Spreads(m, extra), v, |m.words|)
  {
    hide Spread;
    assert (extra + [v])[..|extra|] == extra;
  }

  lemma {:induction false} SpreadsDiffer(m: Mixer, pre: seq<Word>, v: Word, w: Word, tail: seq<Word>)
    requires m.hc % 2 == 1 && v != w
    ensures AllDiffer(Spreads(m, pre + [v] + tail), Spreads(m, pre + [w] + tail))
  {
    hide Spread, Spreads, AllDiffer;
    if tail == [] {
      assert pre + [v] + tail == pre + [v] && pre + [w] + tail == pre + [w];
      SpreadsSnoc(m, pre, v);
      SpreadsSnoc(m, pre, w);
      SpreadsOdd(m, pre);
      SpreadsApart(Spreads(m, pre), v, w);
    } else {
      var init, u := tail[..|tail| - 1], tail[|tail| - 1];
      assert pre + [v] + tail == (pre + [v] + init) + [u] && pre + [w] + tail == (pre + [w] + init) + [u];
      SpreadsDiffer(m, pre, v, w, init);
      SpreadsSnoc(m, pre + [v] + init, u);
      SpreadsSnoc(m, pre + [w] + init, u);
      SpreadKeepsApart(Spreads(m, pre + [v] + init), Spreads(m, pre + [w] + init), u, |m.words|);
    }
  }

  lemma SpreadsApart(m: Mixer, v: Word, w: Word)
    requires m.hc % 2 == 1 && v != w
    ensures AllDiffer(Spread(m, v, |m.words|), Spread(m, w, |m.words|))
  {
    SpreadDiffers(m, v, w, |m.words|);
  }

  /** A word beyond the number of components changes every component of the state. */
  lemma FurtherWordSpreads(a: seq<Word>, pre: seq<Word>, v: Word, w: Word, tail: seq<Word>)
    requires v != w
    ensures forall i :: 0 <= i < |a| ==>
      MixedWords(a + pre + [v] + tail, |a|)[i] != MixedWords(a + pre + [w] + tail, |a|)[i]
  {
    hide Rows, Spreads, HashConstant, Filled;
    var c := |a|;
    var m := Rows(Filled(a, c), c);
    AllHashes(a, c);
    ConstantOdd(c * c);
    MixedParts(a, pre + [v] + tail);
    MixedParts(a, pre + [w] + tail);
    assert a + pre + [v] + tail == a + (pre + [v] + tail) && a + pre + [w] + tail == a + (pre + [w] + tail);
    SpreadsDiffer(m, pre, v, w, tail);
  }

  lemma MixedParts(a: seq<Word>, extra: seq<Word>)
    ensures Mixed(a + extra, |a|) == Spreads(Rows(Filled(a, |a|), |a|), extra)
  {
    hide Rows, Spreads, Filled;
    FilledPrefix(a, extra, |a|);
    assert Extra(a + extra, |a|) == extra;
  }

  /** Different states stay different through further mixing rounds. */
  lemma {:induction false} RoundsKeepApart(x: seq<Word>, y: seq<Word>, count: nat, rounds: nat)
    requires rounds >= 1 && MixedWords(x, count) != MixedWords(y, count)
    ensures Seeded(x, count, rounds) != Seeded(y, count, rounds)
  {
    hide MixedWords;
    if rounds > 1 {
      var p, q := Seeded(x, count, rounds - 1), Seeded(y, count, rounds - 1);
      RoundsKeepApart(x, y, count, rounds - 1);
      assert p + [] == p && q + [] == q;
      if MixedWords(p, count) == MixedWords(q, count) {
        MixedWordsInjective(p, q, []);
      }
    }
  }

  /** Varying any one word of the input, however long it is, varies the seeded state. */
  lemma EveryWordMatters(x: seq<Word>, y: seq<Word>, i: nat, count: nat, rounds: nat)
    requires i < |x| == |y| && x[i] != y[i] && count >= 1 && rounds >= 1
    requires forall k :: 0 <= k < |x| && k != i ==> x[k] == y[k]
    ensures Seeded(x, count, rounds) != Seeded(y, count, rounds)
  {
    hide MixedWords, Seeded, Unmixes;
    if |x| <= count {
      ParamAfterSeed(x, count, rounds);
      ParamAfterSeed(y, count, rounds);
      PaddedAt(x, count, i);
      PaddedAt(y, count, i);
    } else if i < count {
      assert x == x[..count] + x[count..] && y == y[..count] + x[count..];
      assert x[..count][i] != y[..count][i];
      if Seeded(x, count, rounds) == Seeded(y, count, rounds) {
        SeedInjective(x[..count], y[..count], x[count..], rounds);
      }
    } else {
      var a, pre, tail := x[..count], x[count..i], x[i + 1..];
      assert x == a + pre + [x[i]] + tail && y == a + pre + [y[i]] + tail;
      FurtherWordSpreads(a, pre, x[i], y[i], tail);
      assert MixedWords(x, count)[0] != MixedWords(y, count)[0];
      RoundsKeepApart(x, y, count, rounds);
    }
  }

  lemma {:induction false} PaddedAt(input: seq<Word>, count: nat, i: nat)
    requires i < |input| <= count
    ensures Padded(input, count)[i] == input[i]
  {
    if i < count - 1 {
      if |input| < count {
        PaddedAt(input, count - 1, i);
      } else {
        PaddedSame(input, count);
      }
    }
  }

  // ----- No mixing rounds -----

  ghost predicate ComesBack(input: seq<Word>, count: nat, rounds: nat) {
    Unmixes(AfterSeed(input, count, rounds), rounds) == Padded(input, count)
  }

  /** param() gives back every input no longer than the state, exactly when there is a mixing round, or no state. */
  lemma ComesBackIff(count: nat, rounds: nat)
    ensures (forall input :: |input| <= count ==> ComesBack(input, count, rounds)) <==> rounds >= 1 || count == 0
  {
    hide ComesBack;
    if rounds >= 1 || count == 0 {
      forall input: seq<Word> | |input| <= count
        ensures ComesBack(input, count, rounds)
      {
        AlwaysBack(input, count, rounds);
      }
    } else {
      var _ := NoRounds(count);
    }
  }

  lemma AlwaysBack(input: seq<Word>, count: nat, rounds: nat)
    requires |input| <= count && (rounds >= 1 || count == 0)
    ensures ComesBack(input, count, rounds)
  {
    hide MixedWords, Unmixed;
    if rounds >= 1 {
      ParamAfterSeed(input, count, rounds);
    } else {
      assert AfterSeed(input, 0, 0) == [] == Unmixes([], 0);
    }
  }

  /** With no mixing rounds at all param() would not undo the one mixing that seed() still does. */
  lemma NoRounds(count: nat) returns (input: seq<Word>)
    requires count >= 1
    ensures |input| == count && !ComesBack(input, count, 0)
  {
    hide MixedWords, Hash, Padded;
    if count == 1 {
      input := [0];
      OneWord(0);
      HashOfZero(INIT_A);
      OnePadded(0);
    } else {
      var a := seq(count, _ => 0);
      var b := a[count - 2 := 1];
      LastChanges(a, b, count);
      PaddedSame(a, count);
      PaddedSame(b, count);
      assert a[..count] == a && b[..count] == b && a[count - 1] == b[count - 1];
      input := if ComesBack(a, count, 0) then b else a;
    }
  }

  /** Two mixers that differ in component j and in nothing else. */
  predicate Differ(m: Mixer, m': Mixer, j: nat) {
    && j < |m.words| == |m'.words| && m.hc == m'.hc && m.hc % 2 == 1
    && m.words[j] != m'.words[j] && forall k :: 0 <= k < |m.words| && k != j ==> m.words[k] == m'.words[k]
  }

  /** Mixing two inputs that differ in the last component but one changes the last component. */
  lemma LastChanges(a: seq<Word>, b: seq<Word>, count: nat)
    requires |a| == |b| == count >= 2 && a[count - 2] != b[count - 2]
    requires forall k :: 0 <= k < count && k != count - 2 ==> a[k] == b[k]
    ensures MixedWords(a, count)[count - 1] != MixedWords(b, count)[count - 1]
  {
    hide Filled, Row, Differ;
    var j := count - 2;
    var f, g := Filled(a, count), Filled(b, count);
    WordReachesAll(a, b, j);
    RowKeeps(Rows(f, j + 1), j + 1, count, j + 1);
    RowKeeps(Rows(g, j + 1), j + 1, count, j + 1);
  }

  lemma {:induction false} FilledDiffer(a: seq<Word>, b: seq<Word>, j: nat, i: nat)
    requires j < |a| == |b| && a[j] != b[j] && i <= |a|
    requires forall k :: 0 <= k < |a| && k != j ==> a[k] == b[k]
    ensures if i <= j then Filled(a, i) == Filled(b, i) else Differ(Filled(a, i), Filled(b, i), j)
  {
    hide Hash, Mul;
    if i > 0 {
      var f := Filled(a, i - 1);
      FilledDiffer(a, b, j, i - 1);
      FilledConstant(a, i - 1);
      ConstantOdd(i - 1);
      OddTimesOdd(f.hc, MULT_A);
      HashInjective(a[i - 1], b[i - 1], f.hc);
    }
  }

  lemma HashInjective(v: Word, w: Word, hc: Word)
    requires hc % 2 == 1
    ensures Hash(v, hc) == Hash(w, hc) <==> v == w
  {
    hide Hash, Unhash, Mul;
    UnhashHash(v, hc);
    UnhashHash(w, hc);
  }

  lemma MixInjective(x: Word, x': Word, y: Word)
    ensures Mix(x, y) == Mix(x', y) <==> x == x'
  {
    hide Mix, Unmix;
    UnmixMix(x, y);
    UnmixMix(x', y);
  }

  lemma MixInjectiveRight(x: Word, y: Word, y': Word)
    ensures Mix(x, y) == Mix(x, y') <==> y == y'
  {
    hide Mul, Pow, XorShift, Sub;
    var a, b, b' := Mul(MIX_MULT_L, x), Mul(MIX_MULT_R, y), Mul(MIX_MULT_R, y');
    XorShiftTwice(Sub(a, b));
    XorShiftTwice(Sub(a, b'));
    SubInjective(a, b, b');
    OddInverse(MIX_MULT_R);
    MulComm(MIX_MULT_R, y);
    MulComm(MIX_MULT_R, y');
    Cancel(MIX_MULT_R, Pow(MIX_MULT_R, M - 1), y);
    Cancel(MIX_MULT_R, Pow(MIX_MULT_R, M - 1), y');
  }

  lemma SubInjective(a: Word, b: Word, b': Word)
    ensures Sub(a, b) == Sub(a, b') <==> b == b'
  {}

  lemma CellDiffer(m: Mixer, m': Mixer, src: nat, dest: nat, j: nat)
    requires Differ(m, m', j) && src < |m.words| && dest < |m.words| && src != j
    ensures Differ(Cell(m, src, dest), Cell(m', src, dest), j)
  {
    hide Mix, Hash, Mul;
    OddTimesOdd(m.hc, MULT_A);
    MixInjective(m.words[dest], m'.words[dest], Hash(m.words[src], m.hc));
  }

  /** As long as component j is not the source, it influences no other. */
  lemma {:induction false} RowDiffer(m: Mixer, m': Mixer, src: nat, d: nat, j: nat)
    requires Differ(m, m', j) && src < |m.words| && d <= |m.words| && src != j
    ensures Differ(Row(m, src, d), Row(m', src, d), j)
  {
    hide Cell;
    if d > 0 {
      RowDiffer(m, m', src, d - 1, j);
      CellDiffer(Row(m, src, d - 1), Row(m', src, d - 1), src, d - 1, j);
    }
  }

  lemma {:induction false} RowsDiffer(m: Mixer, m': Mixer, s: nat, j: nat)
    requires Differ(m, m', j) && s <= j
    ensures Differ(Rows(m, s), Rows(m', s), j)
  {
    hide Row;
    if s > 0 {
      RowsDiffer(m, m', s - 1, j);
      RowDiffer(Rows(m, s - 1), Rows(m', s - 1), s - 1, |m.words|, j);
    }
  }

  /** Neither the source itself nor the components further on have changed yet. */
  lemma {:induction false} RowKeeps(m: Mixer, src: nat, d: nat, k: nat)
    requires src < |m.words| && d <= |m.words| && k < |m.words| && (k == src || k >= d)
    ensures Row(m, src, d).words[k] == m.words[k]
  {
    hide Mix, Hash, Mul;
    if d > 0 {
      RowKeeps(m, src, d - 1, k);
    }
  }

  /** A difference in component src alone reaches every component that it is mixed into. */
  lemma {:induction false} RowSpreads(m: Mixer, m': Mixer, src: nat, d: nat)
    requires Differ(m, m', src) && d <= |m.words|
    ensures Row(m, src, d).hc == Row(m', src, d).hc && Row(m, src, d).hc % 2 == 1
    ensures forall k :: 0 <= k < |m.words| ==>
      (Row(m, src, d).words[k] != Row(m', src, d).words[k] <==> k == src || k < d)
  {
    hide Mix, Hash, Mul;
    if d > 0 {
      var p, p' := Row(m, src, d - 1), Row(m', src, d - 1);
      RowSpreads(m, m', src, d - 1);
      OddTimesOdd(p.hc, MULT_A);
      HashInjective(p.words[src], p'.words[src], p.hc);
      MixInjectiveRight(p.words[d - 1], Hash(p.words[src], p.hc), Hash(p'.words[src], p.hc));
    }
  }

  /**
   * An input word that fills a component influences no other component before its turn as a source, and every component
   * with it: late words affect early components as well.
   */
  lemma WordReachesAll(a: seq<Word>, b: seq<Word>, j: nat)
    requires j < |a| == |b| && a[j] != b[j] && forall k :: 0 <= k < |a| && k != j ==> a[k] == b[k]
    ensures var f, g := Filled(a, |a|), Filled(b, |b|);
      Differ(Rows(f, j), Rows(g, j), j) && AllDiffer(Rows(f, j + 1), Rows(g, j + 1))
  {
    hide Filled, Row;
    var f, g := Filled(a, |a|), Filled(b, |b|);
    FilledDiffer(a, b, j, |a|);
    RowsDiffer(f, g, j, j);
    RowSpreads(Rows(f, j), Rows(g, j), j, |a|);
  }

  lemma OnePadded(v: Word)
    ensures Padded([v], 1) == [v]
  {
    assert Padded([v], 0) == [];
  }

  lemma HashOfZero(hc: Word)
    requires hc % 2 == 1
    ensures Hash(0, hc) != 0
  {
    hide Mul, XorShift, Xor;
    var x := Mul(XorWord(0, hc), Mul(hc, MULT_A));
    XorDef(0, hc);
    OddTimesOdd(hc, MULT_A);
    OddTimesOdd(XorWord(0, hc), Mul(hc, MULT_A));
    XorShiftTwice(x);
    XorShiftZero();
  }

  lemma XorShiftZero()
    ensures XorShift(0) == 0
  {}

  lemma OneWord(v: Word)
    ensures MixedWords([v], 1) == [Hash(v, INIT_A)]
  {
    hide Hash, Mix, Mul;
    var f := Filled([v], 1);
    assert f == Mixer(Filled([v], 0).words + [Hash(v, INIT_A)], Mul(INIT_A, MULT_A));
    assert Rows(f, 1) == Row(Rows(f, 0), 0, 1) == Cell(Row(f, 0, 0), 0, 0) == f;
  }

  // ----- The class -----

  /** fast_exp(): powers by repeated squaring. */
  method FastExp(x: Word, power: Word) returns (result: Word)
    ensures result == Pow(x, power)
  {
    hide Mul, Pow;
    result := 1;
    var multiplier, p := x, power;
    OneTimes(Pow(x, power));
    while p != 0
      invariant Mul(result, Pow(multiplier, p)) == Pow(x, power)
      decreases p
    {
      SquareStep(result, multiplier, p);
      if p % 2 == 1 {
        result := Mul(result, multiplier);
      }
      p := p / 2;
      multiplier := Mul(multiplier, multiplier);
    }
    PowNone(multiplier);
    OneTimes(result);
  }

  lemma PowNone(x: Word)
    ensures Pow(x, 0) == 1
  {}

  lemma SquareStep(result: Word, m: Word, p: nat)
    requires p > 0
    ensures Mul(result, Pow(m, p)) == Mul(if p % 2 == 1 then Mul(result, m) else result, Pow(Mul(m, m), p / 2))
  {
    hide Mul, Pow;
    var k := p / 2;
    PowSquare(m, k);
    if p % 2 == 1 {
      assert p == 1 + 2 * k;
      PowAdd(m, 1, 2 * k);
      PowOne(m);
      MulAssoc(result, m, Pow(m, 2 * k));
    } else {
      assert p == 2 * k;
    }
  }

  class SeedSeqFe {
    const count: nat
    const mixRounds: nat
    const mixer: array<Word>

    ghost predicate Valid() {
      mixer.Length == count
    }

    constructor (count: nat, mixRounds: nat, input: seq<Word>)
      ensures Valid() && fresh(mixer) && this.count == count && this.mixRounds == mixRounds
      ensures mixer[..] == AfterSeed(input, count, mixRounds)
    {
      this.count, this.mixRounds := count, mixRounds;
      mixer := new Word[count](_ => 0);
      new;
      Seed(input);
    }

    method MixEntropy(input: seq<Word>)
      requires Valid()
      modifies mixer
      ensures mixer[..] == MixedWords(input, count)
    {
      hide Hash, Mix, Mul;
      var hc, current := Fill(input);
      ghost var f := Filled(input, count);
      hc := MixAll(f, hc);
      ghost var r := Rows(f, count);
      ghost var extra := Extra(input, count);
      assert extra[..0] == [];
      while current != |input|
        invariant |input| > count ==> count <= current <= |input|
        invariant |input| <= count ==> current == |input|
        invariant Mixer(mixer[..], hc) == Spreads(r, if |input| > count then extra[..current - count] else [])
        decreases |input| - current
      {
        ghost var k := current - count;
        assert extra[..k + 1][..k] == extra[..k];
        hc := MixOne(Spreads(r, extra[..k]), input[current], hc);
        current := current + 1;
      }
      assert |input| > count ==> extra[..|input| - count] == extra;
    }

    /** The first loop: every component is filled with a hashed input word, or with a hashed zero. */
    method Fill(input: seq<Word>) returns (hc: Word, current: nat)
      requires Valid()
      modifies mixer
      ensures Mixer(mixer[..], hc) == Filled(input, count) && current == if count <= |input| then count else |input|
    {
      hide Hash, Mul;
      hc, current := INIT_A, 0;
      for i := 0 to count
        invariant current == if i <= |input| then i else |input|
        invariant mixer[..i] == Filled(input, i).words && hc == Filled(input, i).hc
      {
        var v := 0;
        if current != |input| {
          v := input[current];
          current := current + 1;
        }
        mixer[i] := Hash(v, hc);
        hc := Mul(hc, MULT_A);
        assert mixer[..i + 1] == mixer[..i] + [Hash(v, Filled(input, i).hc)];
      }
      assert mixer[..] == mixer[..count];
    }

    /** The nested loops: every component is mixed into every other one. */
    method MixAll(ghost f: Mixer, hc0: Word) returns (hc: Word)
      requires Valid() && f == Mixer(mixer[..], hc0)
      modifies mixer
      ensures Mixer(mixer[..], hc) == Rows(f, count)
    {
      hide Hash, Mix, Mul;
      hc := hc0;
      for src := 0 to count
        invariant Mixer(mixer[..], hc) == Rows(f, src)
      {
        ghost var m := Rows(f, src);
        for dest := 0 to count
          invariant Mixer(mixer[..], hc) == Row(m, src, dest)
        {
          if src != dest {
            mixer[dest] := Mix(mixer[dest], Hash(mixer[src], hc));
            hc := Mul(hc, MULT_A);
          }
        }
      }
    }

    /** A further input word is mixed into every component. */
    method MixOne(ghost m: Mixer, v: Word, hc0: Word) returns (hc: Word)
      requires Valid() && m == Mixer(mixer[..], hc0)
      modifies mixer
      ensures Mixer(mixer[..], hc) == Spread(m, v, count)
    {
      hide Hash, Mix, Mul;
      hc := hc0;
      for dest := 0 to count
        invariant Mixer(mixer[..], hc) == Spread(m, v, dest)
      {
        mixer[dest] := Mix(mixer[dest], Hash(v, hc));
        hc := Mul(hc, MULT_A);
      }
    }

    /** The words are read one by one, each just before it is overwritten, so the state may be its own input. */
    method Stir()
      requires Valid()
      modifies mixer
      ensures mixer[..] == MixedWords(old(mixer[..]), count)
    {
      MixEntropy(mixer[..]);
    }

    method Seed(input: seq<Word>)
      requires Valid()
      modifies mixer
      ensures mixer[..] == AfterSeed(input, count, mixRounds)
    {
      hide MixedWords;
      MixEntropy(input);
      var i := 1;
      while i < mixRounds
        invariant 1 <= i && (i == 1 || i <= mixRounds) && mixer[..] == Seeded(input, count, i)
      {
        Stir();
        i := i + 1;
      }
    }

    /** param(): the mixer run backwards on a copy of the state. */
    method Param() returns (dest: seq<Word>)
      requires Valid()
      ensures dest == Unmixes(mixer[..], mixRounds)
      ensures mixRounds >= 1 ==>
        forall input: seq<Word> :: |input| <= count && mixer[..] == Seeded(input, count, mixRounds)
          ==> dest == Padded(input, count)
    {
      hide Unmixed, Padded, Seeded, Pow;
      var copy := new Word[count](i requires 0 <= i < mixer.Length reads mixer => mixer[i]);
      assert copy[..] == mixer[..];
      for round := 0 to mixRounds
        invariant Unmixes(copy[..], mixRounds - round) == Unmixes(mixer[..], mixRounds)
      {
        UnmixOnce(copy);
      }
      dest := copy[..];
      forall input: seq<Word> | |input| <= count && mixRounds >= 1 && mixer[..] == Seeded(input, count, mixRounds)
        ensures dest == Padded(input, count)
      {
        ParamAfterSeed(input, count, mixRounds);
      }
    }
  }

  /** One round of the loop in param(). */
  method UnmixOnce(copy: array<Word>)
    modifies copy
    ensures copy[..] == Unmixed(old(copy[..]))
  {
    hide Mul, Pow, Unrows, Unfilled;
    var count := copy.Length;
    var power := FastExp(MULT_A, (count * count) % M);
    PowTruncated(MULT_A, count * count);
    var hc := Mul(INIT_A, power);
    ghost var m0 := Mixer(copy[..], hc);
    hc := UnmixAll(copy, hc, m0);
    UnfillAll(copy, hc, Unrows(m0, count));
  }

  method UnmixAll(copy: array<Word>, hc0: Word, ghost m0: Mixer) returns (hc: Word)
    requires m0 == Mixer(copy[..], hc0)
    modifies copy
    ensures Mixer(copy[..], hc) == Unrows(m0, copy.Length)
  {
    hide Hash, Unmix, Back;
    hc := hc0;
    var src := copy.Length;
    while src > 0
      invariant 0 <= src <= copy.Length && Unrows(Mixer(copy[..], hc), src) == Unrows(m0, copy.Length)
    {
      src := src - 1;
      ghost var m := Mixer(copy[..], hc);
      var dest := copy.Length;
      while dest > 0
        invariant 0 <= dest <= copy.Length && Unrow(Mixer(copy[..], hc), src, dest) == Unrow(m, src, copy.Length)
      {
        dest := dest - 1;
        if src != dest {
          hc := UnmixCell(copy, src, dest, hc);
        }
      }
    }
  }

  /** The reversed hash of src, taken out of dest again. */
  method UnmixCell(copy: array<Word>, src: nat, dest: nat, hc0: Word) returns (hc: Word)
    requires src < copy.Length && dest < copy.Length && src != dest
    modifies copy
    ensures Mixer(copy[..], hc) == Uncell(Mixer(old(copy[..]), hc0), src, dest)
  {
    hide Mul, Pow, XorShift, XorWord, Add;
    var invA := FastExp(MULT_A, M - 1);
    var mixInvL := FastExp(MIX_MULT_L, M - 1);
    var revhashed := copy[src];
    hc := Mul(hc0, invA);
    BackAgain(hc0);
    revhashed := XorShift(Mul(XorWord(revhashed, hc), hc0));
    var unmixed := XorShift(copy[dest]);
    unmixed := Add(unmixed, Mul(MIX_MULT_R, revhashed));
    copy[dest] := Mul(unmixed, mixInvL);
  }

  method UnfillAll(copy: array<Word>, hc0: Word, ghost m: Mixer)
    requires m == Mixer(copy[..], hc0)
    modifies copy
    ensures copy[..] == Unfilled(m, copy.Length).words
  {
    hide Mul, Pow, XorShift, XorWord;
    var invA := FastExp(MULT_A, M - 1);
    var hc, i := hc0, copy.Length;
    while i > 0
      invariant 0 <= i <= copy.Length && Unfilled(Mixer(copy[..], hc), i) == Unfilled(m, copy.Length)
    {
      i := i - 1;
      var inverse := FastExp(hc, M - 1);
      var unhashed := Mul(XorShift(copy[i]), inverse);
      ghost var before := Mixer(copy[..], hc);
      hc := Mul(hc, invA);
      copy[i] := XorWord(unhashed, hc);
      assert Mixer(copy[..], hc) == Mixer(before.words[i := Unhash(before.words[i], before.hc)], Back(before.hc));
    }
  }
}
