/**
 * Deque: a ring of blocks that holds a sequence (Deque.cpp). It grows when the position behind the last object would
 * meet the begin, or when the begin would move into the block of that position, even if no object is there yet.
 */
module Deque {
  import opened Arithmetic
  import opened Objects

  const BLOCK_SIZE: nat := 1024

  /** The i-th block from block b on, around the ring. */
  function Around(b: nat, i: nat, numBlocks: nat): (r: nat)
    requires b < numBlocks && i <= numBlocks
    ensures r < numBlocks
  {
    if b + i < numBlocks then b + i else b + i - numBlocks
  }

  /** The block and the place in it of slot j, counted from the start of block b around the ring. */
  function Row(b: nat, j: nat, numBlocks: nat): (r: nat)
    requires b < numBlocks && j < BLOCK_SIZE * numBlocks
    ensures r < numBlocks
  {
    Around(b, j / BLOCK_SIZE, numBlocks)
  }

  function Column(j: nat): (r: nat)
    ensures r < BLOCK_SIZE
  {
    j % BLOCK_SIZE
  }

  lemma InFirstBlock(b: nat, pos: nat, numBlocks: nat)
    requires b < numBlocks && pos < BLOCK_SIZE
    ensures Row(b, pos, numBlocks) == b && Column(pos) == pos
  {}

  /** Masking with numBlocks - 1 is going around the ring. */
  lemma MaskAround(b: nat, i: nat, numBlocks: nat)
    requires b < numBlocks && i < numBlocks
    ensures (b + i) % numBlocks == Around(b, i, numBlocks)
  {
    if b + i < numBlocks {
      DivModUnique(b + i, 0, b + i, numBlocks);
    } else {
      DivModUnique(b + i, 1, b + i - numBlocks, numBlocks);
    }
  }

  /**
   * The slots of all blocks in ring order, from the start of the begin block on: the queue starts at pos, and all other
   * slots are null.
   */
  ghost predicate Laid(cells: seq<Slot>, pos: nat, queue: seq<Object>) {
    && pos + |queue| <= |cells|
    && forall j :: 0 <= j < |cells| ==> cells[j] == if pos <= j < pos + |queue| then Full(queue[j - pos]) else Null
  }

  lemma LaidBack(cells: seq<Slot>, pos: nat, queue: seq<Object>, v: Object)
    requires Laid(cells, pos, queue) && pos + |queue| < |cells|
    ensures Laid(cells[pos + |queue| := Full(v)], pos, queue + [v])
  {}

  lemma LaidFront(cells: seq<Slot>, pos: nat, queue: seq<Object>, v: Object)
    requires Laid(cells, pos, queue) && pos > 0
    ensures Laid(cells[pos - 1 := Full(v)], pos - 1, [v] + queue)
  {}

  lemma UnlaidFront(cells: seq<Slot>, pos: nat, queue: seq<Object>)
    requires Laid(cells, pos, queue) && queue != []
    ensures cells[pos] == Full(queue[0]) && Laid(cells[pos := Null], pos + 1, queue[1..])
  {}

  lemma UnlaidBack(cells: seq<Slot>, pos: nat, queue: seq<Object>)
    requires Laid(cells, pos, queue) && queue != []
    ensures cells[pos + |queue| - 1] == Full(queue[|queue| - 1])
    ensures Laid(cells[pos + |queue| - 1 := Null], pos, queue[..|queue| - 1])
  {}

  /** The ring seen from one block later: the first block is all null and becomes the last. */
  lemma Rotated(cells: seq<Slot>, pos: nat, queue: seq<Object>)
    requires Laid(cells, pos, queue) && pos == BLOCK_SIZE <= |cells|
    ensures Laid(cells[BLOCK_SIZE..] + cells[..BLOCK_SIZE], 0, queue)
  {}

  /** And from one block earlier: the last block is all null and becomes the first. */
  lemma RotatedBack(cells: seq<Slot>, queue: seq<Object>)
    requires Laid(cells, 0, queue) && |queue| + BLOCK_SIZE <= |cells|
    ensures Laid(cells[|cells| - BLOCK_SIZE..] + cells[..|cells| - BLOCK_SIZE], BLOCK_SIZE, queue)
  {}

  lemma Grown(cells: seq<Slot>, pos: nat, queue: seq<Object>, more: seq<Slot>)
    requires Laid(cells, pos, queue) && forall j :: 0 <= j < |more| ==> more[j] == Null
    ensures Laid(cells + more, pos, queue)
  {}

  ghost predicate Distinct(blocks: seq<array<Slot>>) {
    && (forall i :: 0 <= i < |blocks| ==> blocks[i].Length == BLOCK_SIZE)
    && (forall i, j :: 0 <= i < j < |blocks| ==> blocks[i] != blocks[j])
  }

  /** The blocks, in ring order from block b on, hold the cells. */
  ghost predicate Mapped(blocks: seq<array<Slot>>, b: nat, cells: seq<Slot>)
    reads blocks
    requires Distinct(blocks)
  {
    && b < |blocks| && |cells| == BLOCK_SIZE * |blocks|
    && forall i :: 0 <= i < |blocks| ==>
         blocks[Around(b, i, |blocks|)][..] == cells[BLOCK_SIZE * i..BLOCK_SIZE * (i + 1)]
  }

  lemma CellOf(blocks: seq<array<Slot>>, b: nat, cells: seq<Slot>, j: nat)
    requires Distinct(blocks) && Mapped(blocks, b, cells) && j < |cells|
    ensures b < |blocks| && |cells| == BLOCK_SIZE * |blocks|
    ensures var block := blocks[Row(b, j, |blocks|)];
      block.Length == BLOCK_SIZE && block[Column(j)] == cells[j]
  {
    var i := j / BLOCK_SIZE;
    assert blocks[Around(b, i, |blocks|)][..] == cells[BLOCK_SIZE * i..BLOCK_SIZE * (i + 1)];
    assert cells[BLOCK_SIZE * i..BLOCK_SIZE * (i + 1)][j % BLOCK_SIZE] == cells[j];
  }

  method Put(
      blocks: seq<array<Slot>>, block: nat, pos: nat, v: Slot, ghost b: nat, ghost cells: seq<Slot>, ghost j: nat)
    requires Distinct(blocks) && Mapped(blocks, b, cells) && j < |cells|
    requires block == Row(b, j, |blocks|) && pos == Column(j)
    modifies blocks
    ensures Mapped(blocks, b, cells[j := v])
  {
    ghost var k := j / BLOCK_SIZE;
    ghost var cells' := cells[j := v];
    blocks[block][pos] := v;
    forall i | 0 <= i < |blocks|
      ensures blocks[Around(b, i, |blocks|)][..] == cells'[BLOCK_SIZE * i..BLOCK_SIZE * (i + 1)]
    {
      assert old(blocks[Around(b, i, |blocks|)][..]) == cells[BLOCK_SIZE * i..BLOCK_SIZE * (i + 1)];
      if i == k {
        assert cells'[BLOCK_SIZE * i..BLOCK_SIZE * (i + 1)] == cells[BLOCK_SIZE * i..BLOCK_SIZE * (i + 1)][pos := v];
      } else {
        assert Around(b, i, |blocks|) != block;
        assert cells'[BLOCK_SIZE * i..BLOCK_SIZE * (i + 1)] == cells[BLOCK_SIZE * i..BLOCK_SIZE * (i + 1)];
      }
    }
  }

  /** Two stretches of a block's length are the same when their slots are. */
  lemma SameBlock(a: seq<Slot>, i: nat, b: seq<Slot>, k: nat)
    requires BLOCK_SIZE * (i + 1) <= |a| && BLOCK_SIZE * (k + 1) <= |b|
    requires forall j :: BLOCK_SIZE * i <= j < BLOCK_SIZE * (i + 1) ==> a[j] == b[j + BLOCK_SIZE * (k - i)]
    ensures a[BLOCK_SIZE * i..BLOCK_SIZE * (i + 1)] == b[BLOCK_SIZE * k..BLOCK_SIZE * (k + 1)]
  {
    var x, y := a[BLOCK_SIZE * i..BLOCK_SIZE * (i + 1)], b[BLOCK_SIZE * k..BLOCK_SIZE * (k + 1)];
    forall c | 0 <= c < BLOCK_SIZE
      ensures x[c] == y[c]
    {
      assert x[c] == a[BLOCK_SIZE * i + c] && y[c] == b[BLOCK_SIZE * k + c];
    }
  }

  /** The same blocks, seen from one block later. */
  lemma MappedLater(blocks: seq<array<Slot>>, b: nat, cells: seq<Slot>)
    requires Distinct(blocks) && Mapped(blocks, b, cells)
    ensures Mapped(blocks, if b + 1 == |blocks| then 0 else b + 1, cells[BLOCK_SIZE..] + cells[..BLOCK_SIZE])
  {
    var n := |blocks|;
    var b' := if b + 1 == n then 0 else b + 1;
    var cells' := cells[BLOCK_SIZE..] + cells[..BLOCK_SIZE];
    forall i | 0 <= i < n
      ensures blocks[Around(b', i, n)][..] == cells'[BLOCK_SIZE * i..BLOCK_SIZE * (i + 1)]
    {
      var k := if i + 1 == n then 0 else i + 1;
      assert Around(b', i, n) == Around(b, k, n);
      SameBlock(cells', i, cells, k);
    }
  }

  lemma MappedEarlier(blocks: seq<array<Slot>>, b: nat, cells: seq<Slot>)
    requires Distinct(blocks) && Mapped(blocks, b, cells)
    ensures var b' := if b == 0 then |blocks| - 1 else b - 1;
      Mapped(blocks, b', cells[|cells| - BLOCK_SIZE..] + cells[..|cells| - BLOCK_SIZE])
  {
    var n := |blocks|;
    var b' := if b == 0 then n - 1 else b - 1;
    var cells' := cells[|cells| - BLOCK_SIZE..] + cells[..|cells| - BLOCK_SIZE];
    forall i | 0 <= i < n
      ensures blocks[Around(b', i, n)][..] == cells'[BLOCK_SIZE * i..BLOCK_SIZE * (i + 1)]
    {
      var k := if i == 0 then n - 1 else i - 1;
      assert Around(b', i, n) == Around(b, k, n);
      SameBlock(cells', i, cells, k);
    }
  }

  /** The block pointers copied in ring order, and as many new blocks behind them. */
  lemma MappedGrown(blocks: seq<array<Slot>>, b: nat, cells: seq<Slot>, more: seq<array<Slot>>, nulls: seq<Slot>)
    requires Distinct(blocks) && Mapped(blocks, b, cells)
    requires |more| == |blocks| && |nulls| == |cells| && forall j :: 0 <= j < |nulls| ==> nulls[j] == Null
    requires Distinct(blocks[b..] + blocks[..b] + more)
    requires forall i :: 0 <= i < |more| ==>
      more[i].Length == BLOCK_SIZE && forall c :: 0 <= c < BLOCK_SIZE ==> more[i][c] == Null
    ensures Mapped(blocks[b..] + blocks[..b] + more, 0, cells + nulls)
  {
    var n := |blocks|;
    var all, cells' := blocks[b..] + blocks[..b] + more, cells + nulls;
    forall i | 0 <= i < 2 * n
      ensures all[Around(0, i, 2 * n)][..] == cells'[BLOCK_SIZE * i..BLOCK_SIZE * (i + 1)]
    {
      if i < n {
        assert all[i] == blocks[Around(b, i, n)];
        SameBlock(cells', i, cells, i);
      } else {
        assert all[i] == more[i - n];
        SameBlock(cells', i, nulls, i - n);
      }
    }
  }

  /** The position of the slot behind the last object. */
  predicate EndsAt(b: nat, pos: nat, len: nat, numBlocks: nat, endBlock: nat, endPos: nat) {
    && b < numBlocks && pos < BLOCK_SIZE && pos + len < BLOCK_SIZE * numBlocks
    && endBlock == Row(b, pos + len, numBlocks) && endPos == Column(pos + len)
  }

  function NextBlock(block: nat, pos: nat, numBlocks: nat): nat {
    if pos + 1 < BLOCK_SIZE then block else if block + 1 == numBlocks then 0 else block + 1
  }

  function PrevBlock(block: nat, pos: nat, numBlocks: nat): nat
    requires numBlocks > 0
  {
    if pos > 0 then block else if block == 0 then numBlocks - 1 else block - 1
  }

  function NextPos(pos: nat): nat {
    if pos + 1 < BLOCK_SIZE then pos + 1 else 0
  }

  function PrevPos(pos: nat): nat {
    if pos > 0 then pos - 1 else BLOCK_SIZE - 1
  }

  /** Dropping the first object moves the begin, and not the end. */
  lemma EndsAtFront(b: nat, pos: nat, len: nat, numBlocks: nat, endBlock: nat, endPos: nat)
    requires EndsAt(b, pos, len, numBlocks, endBlock, endPos) && len > 0
    ensures EndsAt(NextBlock(b, pos, numBlocks), NextPos(pos), len - 1, numBlocks, endBlock, endPos)
  {}

  /** Adding one in front does the converse, where there is room. */
  lemma EndsAtNewFront(b: nat, pos: nat, len: nat, numBlocks: nat, endBlock: nat, endPos: nat)
    requires EndsAt(b, pos, len, numBlocks, endBlock, endPos) && PrevPos(pos) + len + 1 < BLOCK_SIZE * numBlocks
    ensures EndsAt(PrevBlock(b, pos, numBlocks), PrevPos(pos), len + 1, numBlocks, endBlock, endPos)
  {}

  lemma EndsAtBack(b: nat, pos: nat, len: nat, numBlocks: nat, endBlock: nat, endPos: nat)
    requires EndsAt(b, pos, len, numBlocks, endBlock, endPos) && len > 0
    ensures EndsAt(b, pos, len - 1, numBlocks, PrevBlock(endBlock, endPos, numBlocks), PrevPos(endPos))
  {}

  lemma EndsAtNewBack(b: nat, pos: nat, len: nat, numBlocks: nat, endBlock: nat, endPos: nat)
    requires EndsAt(b, pos, len, numBlocks, endBlock, endPos) && pos + len + 1 < BLOCK_SIZE * numBlocks
    ensures EndsAt(b, pos, len + 1, numBlocks, NextBlock(endBlock, endPos, numBlocks), NextPos(endPos))
  {}

  /** pushBack() grows a ring of this many blocks, with this many objects in it. */
  predicate GrowsBack(pos: nat, len: nat, numBlocks: nat) {
    pos + len + 1 == BLOCK_SIZE * numBlocks
  }

  predicate GrowsFront(pos: nat, len: nat, numBlocks: nat) {
    pos == 0 && len + BLOCK_SIZE >= BLOCK_SIZE * numBlocks
  }

  /** The condition in pushBack(): the live range has reached the last slot of the last block of the ring. */
  lemma FullAtBack(b: nat, pos: nat, len: nat, numBlocks: nat, endBlock: nat, endPos: nat)
    requires EndsAt(b, pos, len, numBlocks, endBlock, endPos)
    ensures NextPos(endPos) == 0 && NextBlock(endBlock, endPos, numBlocks) == b <==> GrowsBack(pos, len, numBlocks)
    ensures PrevPos(NextPos(endPos)) == endPos
            && PrevBlock(NextBlock(endBlock, endPos, numBlocks), NextPos(endPos), numBlocks) == endBlock
  {}

  /** The condition in pushFront(): the begin would move into the block that the live range ends in. */
  lemma FullAtFront(b: nat, pos: nat, len: nat, numBlocks: nat, endBlock: nat, endPos: nat)
    requires EndsAt(b, pos, len, numBlocks, endBlock, endPos)
    ensures PrevPos(pos) == BLOCK_SIZE - 1 && PrevBlock(b, pos, numBlocks) == endBlock
            <==> GrowsFront(pos, len, numBlocks)
    ensures NextPos(PrevPos(pos)) == pos && NextBlock(PrevBlock(b, pos, numBlocks), PrevPos(pos), numBlocks) == b
  {}

  /** Slot j, counted from the start of the begin block, is in block i from there. */
  predicate InBlock(j: nat, i: nat) {
    j / BLOCK_SIZE == i
  }

  /** Block i from there has an object in it. */
  ghost predicate Touches(pos: nat, len: nat, i: nat) {
    exists j :: pos <= j < pos + len && InBlock(j, i)
  }

  ghost predicate TouchesAll(pos: nat, len: nat, numBlocks: nat) {
    forall i :: 0 <= i < numBlocks ==> Touches(pos, len, i)
  }

  /** When pushBack() grows the ring, the objects, the new one included, are in every block. */
  lemma GrowsBackTouching(pos: nat, len: nat, numBlocks: nat)
    requires pos < BLOCK_SIZE && len > 0 && GrowsBack(pos, len - 1, numBlocks)
    ensures TouchesAll(pos, len, numBlocks)
  {
    forall i | 0 <= i < numBlocks
      ensures Touches(pos, len, i)
    {
      assert InBlock(BLOCK_SIZE * i + BLOCK_SIZE - 1, i);
    }
  }

  /** When pushFront() grows it, they are in every block unless the end is at the start of its block. */
  lemma GrowsFrontTouching(b: nat, pos: nat, len: nat, numBlocks: nat, endBlock: nat, endPos: nat)
    requires EndsAt(b, pos, len, numBlocks, endBlock, endPos) && GrowsFront(pos, len, numBlocks)
    ensures TouchesAll(pos, len, numBlocks) <==> endPos != 0
  {
    if endPos != 0 {
      forall i | 0 <= i < numBlocks
        ensures Touches(pos, len, i)
      {
        assert InBlock(BLOCK_SIZE * i, i);
      }
    } else {
      assert !Touches(pos, len, numBlocks - 1);
    }
  }

  /** The ordering finds an object equal to the key in the queue. */
  ghost predicate Contains(cmp: Ordering, queue: seq<Object>, key: Object) {
    exists k :: 0 <= k < |queue| && cmp(queue[k], key) == 0
  }

  class Deque {
    const cmp: Ordering
    const multiSet: bool
    var blocks: seq<array<Slot>>
    var beginBlock: nat
    var beginPos: nat
    var endBlock: nat
    var endPos: nat
    var items: nat

    /** 2^n blocks, and what they hold in ring order from the begin block on. */
    ghost var n: nat
    ghost var cells: seq<Slot>
    ghost var queue: seq<Object>

    ghost function Repr(): set<array<Slot>>
      reads this
    {
      set x | x in blocks
    }

    ghost predicate Valid()
      reads this, blocks
    {
      && |blocks| == Pow2(n) && Distinct(blocks) && Mapped(blocks, beginBlock, cells)
      && beginPos < BLOCK_SIZE && items == |queue| && Laid(cells, beginPos, queue)
      && EndsAt(beginBlock, beginPos, |queue|, |blocks|, endBlock, endPos)
    }

    constructor (cmp: Ordering, multiSet: bool)
      ensures Valid() && queue == [] && fresh(blocks) && this.cmp == cmp && this.multiSet == multiSet
      ensures |blocks| == 1 && beginPos == 0
    {
      this.cmp, this.multiSet := cmp, multiSet;
      var block := new Slot[BLOCK_SIZE](_ => Null);
      blocks := [block];
      beginBlock, beginPos, endBlock, endPos, items := 0, 0, 0, 0, 0;
      n, cells, queue := 0, seq(BLOCK_SIZE, _ => Null), [];
      new;
      assert blocks[0][..] == cells[BLOCK_SIZE * 0..BLOCK_SIZE * 1];
    }

    /** next() */
    method Next(block: nat, pos: nat) returns (block': nat, pos': nat)
      requires block < |blocks| && pos < BLOCK_SIZE
      ensures block' == NextBlock(block, pos, |blocks|) && pos' == NextPos(pos)
    {
      block', pos' := block, pos + 1;
      if pos' == BLOCK_SIZE {
        pos', block' := 0, block + 1;
        if block' == |blocks| {
          block' := 0;
        }
      }
    }

    /** prev() */
    method Prev(block: nat, pos: nat) returns (block': nat, pos': nat)
      requires block < |blocks| && pos < BLOCK_SIZE
      ensures block' == PrevBlock(block, pos, |blocks|) && pos' == PrevPos(pos)
    {
      if pos > 0 {
        block', pos' := block, pos - 1;
      } else {
        pos' := BLOCK_SIZE - 1;
        block' := if block > 0 then block - 1 else |blocks| - 1;
      }
    }

    /** get() */
    method Get(idx: nat) returns (v: Object)
      requires Valid() && idx < items
      ensures v == queue[idx]
    {
      hide Laid, Mapped, Distinct, Pow2;
      LaidAt(cells, beginPos, queue, idx);
      var pos := beginPos + idx;
      CellOf(blocks, beginBlock, cells, pos);
      var blockIdx, blockPos := pos / BLOCK_SIZE, pos % BLOCK_SIZE;
      MaskAround(beginBlock, blockIdx, |blocks|);
      v := blocks[(beginBlock + blockIdx) % |blocks|][blockPos].value;
    }

    /** The ring is seen from where the begin position moves to. */
    ghost method Rotate()
      requires Distinct(blocks) && Mapped(blocks, beginBlock, cells) && Laid(cells, BLOCK_SIZE, queue)
      modifies this`cells
      ensures Mapped(blocks, NextBlock(beginBlock, BLOCK_SIZE - 1, |blocks|), cells) && Laid(cells, 0, queue)
    {
      hide Laid, Mapped, Distinct;
      LaidSize(cells, BLOCK_SIZE, queue);
      Rotated(cells, BLOCK_SIZE, queue);
      MappedLater(blocks, beginBlock, cells);
      cells := cells[BLOCK_SIZE..] + cells[..BLOCK_SIZE];
    }

    ghost method RotateBack(b: nat)
      requires Distinct(blocks) && Mapped(blocks, b, cells) && Laid(cells, 0, queue) && |queue| + BLOCK_SIZE <= |cells|
      modifies this`cells
      ensures Mapped(blocks, PrevBlock(b, 0, |blocks|), cells) && Laid(cells, BLOCK_SIZE, queue)
    {
      hide Laid, Mapped, Distinct;
      RotatedBack(cells, queue);
      MappedEarlier(blocks, b, cells);
      cells := cells[|cells| - BLOCK_SIZE..] + cells[..|cells| - BLOCK_SIZE];
    }

    /** popFront() */
    method PopFront() returns (r: Slot)
      requires Valid()
      modifies this, blocks
      ensures Valid() && blocks == old(blocks)
      ensures old(queue) == if r.Full? then [r.value] + queue else queue
      ensures r == Null <==> old(queue) == []
    {
      hide Laid, Mapped, Distinct, Pow2, EndsAt, Row, Column, NextBlock, NextPos;
      if items == 0 {
        return Null;
      }
      LaidSize(cells, beginPos, queue);
      EndSlot(beginBlock, beginPos, |queue|, |blocks|, endBlock, endPos);
      CellOf(blocks, beginBlock, cells, beginPos);
      InFirstBlock(beginBlock, beginPos, |blocks|);
      UnlaidFront(cells, beginPos, queue);
      r := blocks[beginBlock][beginPos];
      Put(blocks, beginBlock, beginPos, Null, beginBlock, cells, beginPos);
      EndsAtFront(beginBlock, beginPos, |queue|, |blocks|, endBlock, endPos);
      cells, queue, items := cells[beginPos := Null], queue[1..], items - 1;
      AdvanceBegin();
    }

    /** popFront(), the begin position: it moves on. */
    method AdvanceBegin()
      requires |blocks| == Pow2(n) && Distinct(blocks) && Mapped(blocks, beginBlock, cells)
      requires beginBlock < |blocks| && beginPos < BLOCK_SIZE && items == |queue| && Laid(cells, beginPos + 1, queue)
      requires EndsAt(
        NextBlock(beginBlock, beginPos, |blocks|), NextPos(beginPos), |queue|, |blocks|, endBlock, endPos)
      modifies this`beginBlock, this`beginPos, this`cells
      ensures Valid()
    {
      hide Laid, Mapped, Distinct, Pow2, EndsAt, Row, Column;
      if beginPos + 1 == BLOCK_SIZE {
        Rotate();
      }
      beginBlock, beginPos := Next(beginBlock, beginPos);
    }

    /** removeFront() */
    method RemoveFront() returns (ok: bool)
      requires Valid()
      modifies this, blocks
      ensures Valid() && blocks == old(blocks) && (ok <==> old(queue) != [])
      ensures queue == if ok then old(queue)[1..] else old(queue)
    {
      var r := PopFront();
      ok := r != Null;
    }

    /** popBack() */
    method PopBack() returns (r: Slot)
      requires Valid()
      modifies this, blocks
      ensures Valid() && blocks == old(blocks)
      ensures old(queue) == if r.Full? then queue + [r.value] else queue
      ensures r == Null <==> old(queue) == []
    {
      hide Laid, Mapped, Distinct, Pow2, Row, Column;
      if items == 0 {
        return Null;
      }
      LaidSize(cells, beginPos, queue);
      ghost var j := beginPos + |queue| - 1;
      EndsAtBack(beginBlock, beginPos, |queue|, |blocks|, endBlock, endPos);
      endBlock, endPos := Prev(endBlock, endPos);
      CellOf(blocks, beginBlock, cells, j);
      UnlaidBack(cells, beginPos, queue);
      r := blocks[endBlock][endPos];
      Put(blocks, endBlock, endPos, Null, beginBlock, cells, j);
      cells, queue, items := cells[j := Null], queue[..|queue| - 1], items - 1;
    }

    /** removeBack() */
    method RemoveBack() returns (ok: bool)
      requires Valid()
      modifies this, blocks
      ensures Valid() && blocks == old(blocks) && (ok <==> old(queue) != [])
      ensures queue == if ok then old(queue)[..|old(queue)| - 1] else old(queue)
    {
      var r := PopBack();
      ok := r != Null;
    }

    /**
     * grow(): twice as many blocks, the old ones first, in ring order from the begin block on. It is called when the
     * end position is in the last block of the ring, so that the end stays where it was behind the begin.
     */
    method Grow(ghost len: nat)
      requires Distinct(blocks) && Mapped(blocks, beginBlock, cells) && Laid(cells, beginPos, queue)
      requires |blocks| == Pow2(n) && EndsAt(beginBlock, beginPos, len, |blocks|, endBlock, endPos)
      requires beginPos + len + BLOCK_SIZE >= BLOCK_SIZE * |blocks|
      modifies this
      ensures Distinct(blocks) && Mapped(blocks, beginBlock, cells) && Laid(cells, beginPos, queue)
      ensures |blocks| == 2 * old(|blocks|) == Pow2(n)
      ensures EndsAt(beginBlock, beginPos, len, |blocks|, endBlock, endPos)
      ensures fresh(Repr() - old(Repr()))
      ensures beginBlock == 0 && endBlock == old(|blocks|) - 1
      ensures unchanged(`beginPos, `endPos, `items, `queue)
    {
      hide Laid, Mapped, Row, Column, EndsAt;
      EndSlot(beginBlock, beginPos, len, |blocks|, endBlock, endPos);
      EndBlockLast(beginPos + len, |blocks|);
      var more := NewBlocks(|blocks|);
      ghost var nulls := seq(|cells|, _ => Null);
      Grown(cells, beginPos, queue, nulls);
      DistinctGrown(blocks, beginBlock, more);
      MappedSize(blocks, beginBlock, cells);
      MappedGrown(blocks, beginBlock, cells, more, nulls);
      blocks, cells, n := blocks[beginBlock..] + blocks[..beginBlock] + more, cells + nulls, n + 1;
      endBlock := |more| - 1;
      beginBlock := 0;
      EndSlot(beginBlock, beginPos, len, |blocks|, endBlock, endPos);
    }

    /** pushBack(), the end position: it moves on, after growing where it would catch up with the begin. */
    method AdvanceEnd()
      requires |blocks| == Pow2(n) && Distinct(blocks) && Mapped(blocks, beginBlock, cells)
      requires items == |queue| > 0 && Laid(cells, beginPos, queue)
      requires EndsAt(beginBlock, beginPos, |queue| - 1, |blocks|, endBlock, endPos)
      modifies this
      ensures Valid() && unchanged(`queue, `items, `beginPos)
      ensures fresh(Repr() - old(Repr()))
      ensures |blocks| == if old(GrowsBack(beginPos, |queue| - 1, |blocks|)) then 2 * old(|blocks|) else old(|blocks|)
    {
      hide Laid, Mapped, Distinct, Pow2, Row, Column, EndsAt, NextBlock, PrevBlock, NextPos, PrevPos;
      ghost var len := |queue| - 1;
      EndSlot(beginBlock, beginPos, len, |blocks|, endBlock, endPos);
      FullAtBack(beginBlock, beginPos, len, |blocks|, endBlock, endPos);
      endBlock, endPos := Next(endBlock, endPos);
      if endPos == 0 && beginBlock == endBlock {
        endBlock, endPos := Prev(endBlock, endPos);
        Grow(len);
        EndsAtNewBack(beginBlock, beginPos, len, |blocks|, endBlock, endPos);
        endBlock, endPos := Next(endBlock, endPos);
      } else {
        EndsAtNewBack(beginBlock, beginPos, len, |blocks|, old(endBlock), old(endPos));
      }
    }

    /** has(): a linear search. */
    method Has(key: Object) returns (found: bool)
      requires Valid()
      ensures found <==> Contains(cmp, queue, key)
    {
      found := false;
      for k := 0 to items
        invariant !found && !Contains(cmp, queue[..k], key)
      {
        var v := Get(k);
        if cmp(v, key) == 0 {
          return true;
        }
        assert queue[..k + 1] == queue[..k] + [v];
      }
      assert queue[..items] == queue;
    }

    /** pushBack(): an equal object is turned away, unless the collection is a multiset. */
    method PushBack(v: Object) returns (ok: bool)
      requires Valid()
      modifies this, blocks
      ensures Valid() && fresh(Repr() - old(Repr()))
      ensures ok <==> multiSet || !Contains(cmp, old(queue), v)
      ensures queue == if ok then old(queue) + [v] else old(queue)
      ensures |blocks| == if ok && old(GrowsBack(beginPos, |queue|, |blocks|)) then 2 * old(|blocks|) else old(|blocks|)
    {
      hide Laid, Mapped, Distinct, Pow2, Row, Column, EndsAt, Contains;
      if !multiSet {
        var found := Has(v);
        if found {
          return false;
        }
      }
      ok := true;
      ghost var j := beginPos + |queue|;
      MappedSize(blocks, beginBlock, cells);
      EndSlot(beginBlock, beginPos, |queue|, |blocks|, endBlock, endPos);
      LaidBack(cells, beginPos, queue, v);
      Put(blocks, endBlock, endPos, Full(v), beginBlock, cells, j);
      cells, queue, items := cells[j := Full(v)], queue + [v], items + 1;
      AdvanceEnd();
    }

    /** pushFront(), the begin position: it moves back, after growing where it would run into the end's block. */
    method RetreatBegin()
      requires Valid()
      modifies this
      ensures |blocks| == Pow2(n) && Distinct(blocks) && Mapped(blocks, beginBlock, cells)
      ensures Laid(cells, beginPos + 1, queue) && unchanged(`queue, `items)
      ensures EndsAt(beginBlock, beginPos, |queue| + 1, |blocks|, endBlock, endPos)
      ensures fresh(Repr() - old(Repr()))
      ensures |blocks| == if old(GrowsFront(beginPos, |queue|, |blocks|)) then 2 * old(|blocks|) else old(|blocks|)
    {
      hide Laid, Mapped, Distinct, Pow2, Row, Column, EndsAt, NextBlock;
      ghost var len := |queue|;
      MappedSize(blocks, beginBlock, cells);
      EndSlot(beginBlock, beginPos, len, |blocks|, endBlock, endPos);
      FullAtFront(beginBlock, beginPos, len, |blocks|, endBlock, endPos);
      beginBlock, beginPos := Prev(beginBlock, beginPos);
      if beginPos == BLOCK_SIZE - 1 && beginBlock == endBlock {
        beginBlock, beginPos := Next(beginBlock, beginPos);
        Grow(len);
        EndsAtNewFront(beginBlock, beginPos, len, |blocks|, endBlock, endPos);
        MappedSize(blocks, beginBlock, cells);
        RotateBack(beginBlock);
        beginBlock, beginPos := Prev(beginBlock, beginPos);
      } else {
        EndsAtNewFront(old(beginBlock), old(beginPos), len, |blocks|, endBlock, endPos);
        if old(beginPos) == 0 {
          RotateBack(old(beginBlock));
        }
      }
    }

    /** pushFront(): likewise. */
    method PushFront(v: Object) returns (ok: bool)
      requires Valid()
      modifies this, blocks
      ensures Valid() && fresh(Repr() - old(Repr()))
      ensures ok <==> multiSet || !Contains(cmp, old(queue), v)
      ensures queue == if ok then [v] + old(queue) else old(queue)
      ensures |blocks| ==
        if ok && old(GrowsFront(beginPos, |queue|, |blocks|)) then 2 * old(|blocks|) else old(|blocks|)
    {
      hide Laid, Mapped, Distinct, Pow2, Row, Column, EndsAt, Contains;
      if !multiSet {
        var found := Has(v);
        if found {
          return false;
        }
      }
      ok := true;
      RetreatBegin();
      MappedSize(blocks, beginBlock, cells);
      EndSlot(beginBlock, beginPos, |queue| + 1, |blocks|, endBlock, endPos);
      InFirstBlock(beginBlock, beginPos, |blocks|);
      LaidFront(cells, beginPos + 1, queue, v);
      Put(blocks, beginBlock, beginPos, Full(v), beginBlock, cells, beginPos);
      cells, queue, items := cells[beginPos := Full(v)], [v] + queue, items + 1;
    }
  }

  /** The first pushFront() on a new deque finds no object in any block, and grows nevertheless. */
  method GrowsEmpty(cmp: Ordering, multiSet: bool, v: Object) returns (d: Deque)
    ensures fresh(d) && d.Valid() && d.queue == [v] && |d.blocks| == 2
  {
    d := new Deque(cmp, multiSet);
    var ok := d.PushFront(v);
    assert ok by {
      assert !Contains(cmp, [], v);
    }
  }

  /** A slot in the last block of the ring: seen from there, in block numBlocks - 1. */
  lemma EndBlockLast(j: nat, numBlocks: nat)
    requires numBlocks > 0 && j < BLOCK_SIZE * numBlocks <= j + BLOCK_SIZE
    ensures Row(0, j, 2 * numBlocks) == numBlocks - 1
  {}

  /** New blocks, all null. */
  method NewBlocks(count: nat) returns (more: seq<array<Slot>>)
    ensures |more| == count && fresh(more) && Distinct(more)
    ensures forall i :: 0 <= i < count ==> forall c :: 0 <= c < BLOCK_SIZE ==> more[i][c] == Null
  {
    more := [];
    for i := 0 to count
      invariant |more| == i && fresh(more) && Distinct(more)
      invariant forall k :: 0 <= k < i ==> forall c :: 0 <= c < BLOCK_SIZE ==> more[k][c] == Null
    {
      var block := new Slot[BLOCK_SIZE](_ => Null);
      more := more + [block];
    }
  }

  lemma DistinctGrown(blocks: seq<array<Slot>>, b: nat, more: seq<array<Slot>>)
    requires Distinct(blocks) && Distinct(more) && b < |blocks|
    requires forall i, k :: 0 <= i < |blocks| && 0 <= k < |more| ==> blocks[i] != more[k]
    ensures Distinct(blocks[b..] + blocks[..b] + more)
  {}

  lemma MappedSize(blocks: seq<array<Slot>>, b: nat, cells: seq<Slot>)
    requires Distinct(blocks) && Mapped(blocks, b, cells)
    ensures b < |blocks| && |cells| == BLOCK_SIZE * |blocks|
  {}

  lemma EndSlot(b: nat, pos: nat, len: nat, numBlocks: nat, endBlock: nat, endPos: nat)
    ensures EndsAt(b, pos, len, numBlocks, endBlock, endPos) <==>
      && b < numBlocks && pos < BLOCK_SIZE && pos + len < BLOCK_SIZE * numBlocks
      && endBlock == Row(b, pos + len, numBlocks) && endPos == Column(pos + len)
  {}

  lemma LaidSize(cells: seq<Slot>, pos: nat, queue: seq<Object>)
    requires Laid(cells, pos, queue)
    ensures pos + |queue| <= |cells|
  {}

  lemma LaidAt(cells: seq<Slot>, pos: nat, queue: seq<Object>, k: nat)
    requires Laid(cells, pos, queue) && k < |queue|
    ensures pos + k < |cells| && cells[pos + k] == Full(queue[k])
  {}
}
