/**
 HRingBuf: a ring from which blocks are allocated at the tail and freed at the head, in order. A block
 never straddles the end of the buffer; when the room there is too short, it is skipped.
 */
module RingBuffer {
  import opened Bytes

  datatype Block = Block(off: nat, len: nat) {
    function End(): nat { off + len }
  }

  predicate Apart(a: Block, b: Block) {
    a.End() <= b.off || b.End() <= a.off
  }

  function EndOf(blocks: seq<Block>, start: nat): nat {
    if blocks == [] then start else blocks[|blocks| - 1].End()
  }

  /** Non-empty blocks laid end to end from `start`. */
  ghost predicate Contiguous(blocks: seq<Block>, start: nat) {
    blocks != [] ==>
      var init, last := blocks[..|blocks| - 1], blocks[|blocks| - 1];
      last.len > 0 && last.off == EndOf(init, start) && Contiguous(init, start)
  }

  function SumLen(blocks: seq<Block>): nat {
    if blocks == [] then 0 else SumLen(blocks[..|blocks| - 1]) + blocks[|blocks| - 1].len
  }

  /** Positions wrap from the end of the buffer to its beginning. */
  function Norm(pos: nat, cap: nat): nat {
    if pos == cap then 0 else pos
  }

  /**
   The live blocks in order of allocation: `a` runs from `head` toward the end of the buffer, `b` from
   the beginning of the buffer toward `head`. When `b` is not empty, its first block did not fit into
   what was left behind `a`.
   */
  ghost predicate Layout(a: seq<Block>, b: seq<Block>, cap: nat, head: nat, tail: nat) {
    && (head < cap || head == 0)
    && Contiguous(a, head) && EndOf(a, head) <= cap
    && Contiguous(b, 0) && EndOf(b, 0) <= head
    && (if b == [] then tail == Norm(EndOf(a, head), cap)
        else tail == EndOf(b, 0) && b[0].len > cap - EndOf(a, head))
  }

  lemma {:induction false} ContiguousTail(blocks: seq<Block>, start: nat)
    requires Contiguous(blocks, start) && blocks != []
    ensures blocks[0].off == start
    ensures Contiguous(blocks[1..], blocks[0].End())
    ensures EndOf(blocks[1..], blocks[0].End()) == EndOf(blocks, start)
  {
    if |blocks| > 1 {
      var init := blocks[..|blocks| - 1];
      ContiguousTail(init, start);
      assert blocks[1..][..|blocks[1..]| - 1] == init[1..];
    } else {
      assert blocks[..0] == [];
    }
  }

  lemma ContiguousSnoc(blocks: seq<Block>, start: nat, x: Block)
    requires Contiguous(blocks, start) && x.off == EndOf(blocks, start) && x.len > 0
    ensures Contiguous(blocks + [x], start) && EndOf(blocks + [x], start) == x.End()
  {
    assert (blocks + [x])[..|blocks|] == blocks;
  }

  lemma {:induction false} ContiguousWithin(blocks: seq<Block>, start: nat, i: nat)
    requires Contiguous(blocks, start) && i < |blocks|
    ensures start <= blocks[i].off && blocks[i].End() <= EndOf(blocks, start)
  {
    var init := blocks[..|blocks| - 1];
    if init != [] {
      ContiguousWithin(init, start, if i < |init| then i else 0);
    }
  }

  lemma {:induction false} ContiguousOrdered(blocks: seq<Block>, start: nat, i: nat, j: nat)
    requires Contiguous(blocks, start) && i < j < |blocks|
    ensures blocks[i].End() <= blocks[j].off
  {
    if j == |blocks| - 1 {
      ContiguousWithin(blocks[..|blocks| - 1], start, i);
    } else {
      ContiguousOrdered(blocks[..|blocks| - 1], start, i, j);
    }
  }

  /** Live blocks lie inside the buffer and are pairwise disjoint, also across the wrap. */
  lemma LayoutSeparates(a: seq<Block>, b: seq<Block>, cap: nat, head: nat, tail: nat, i: nat, j: nat)
    requires Layout(a, b, cap, head, tail) && i < j < |a| + |b|
    ensures Apart((a + b)[i], (a + b)[j])
  {
    hide Contiguous;
    if i < |a| {
      ContiguousWithin(a, head, i);
    } else {
      ContiguousWithin(b, 0, i - |a|);
    }
    if j < |a| {
      ContiguousWithin(a, head, j);
      ContiguousOrdered(a, head, i, j);
    } else {
      ContiguousWithin(b, 0, j - |a|);
      if i >= |a| {
        ContiguousOrdered(b, 0, i - |a|, j - |a|);
      }
    }
  }

  lemma BlockInside(a: seq<Block>, b: seq<Block>, cap: nat, head: nat, tail: nat, i: nat)
    requires Layout(a, b, cap, head, tail) && i < |a| + |b|
    ensures (a + b)[i].End() <= cap
  {
    hide Contiguous;
    if i < |a| {
      ContiguousWithin(a, head, i);
    } else {
      ContiguousWithin(b, 0, i - |a|);
    }
  }

  /** A new block between the end of a stretch and its limit is apart from the stretch. */
  lemma ApartFromStretch(blocks: seq<Block>, start: nat, x: Block)
    requires Contiguous(blocks, start)
    requires EndOf(blocks, start) <= x.off || x.End() <= start
    ensures forall k :: 0 <= k < |blocks| ==> Apart(blocks[k], x)
  {
    forall k | 0 <= k < |blocks|
      ensures Apart(blocks[k], x)
    {
      ContiguousWithin(blocks, start, k);
    }
  }

  /** A stretch has no holes: an interval reaching into it meets one of its blocks. */
  lemma {:induction false} MeetsStretch(blocks: seq<Block>, start: nat, x: Block)
    requires Contiguous(blocks, start) && x.len > 0
    requires start < x.End() && x.off < EndOf(blocks, start) && blocks != []
    ensures exists k :: 0 <= k < |blocks| && !Apart(blocks[k], x)
  {
    var last := blocks[|blocks| - 1];
    if x.End() > last.off {
      assert !Apart(last, x);
    } else {
      var init := blocks[..|blocks| - 1];
      MeetsStretch(init, start, x);
      var k :| 0 <= k < |init| && !Apart(init[k], x);
      assert !Apart(blocks[k], x);
    }
  }

  lemma {:induction false} SumWithoutFirst(blocks: seq<Block>)
    requires blocks != []
    ensures SumLen(blocks) == blocks[0].len + SumLen(blocks[1..])
  {
    if |blocks| > 1 {
      var init := blocks[..|blocks| - 1];
      SumWithoutFirst(init);
      assert blocks[1..][..|blocks[1..]| - 1] == init[1..];
    }
  }

  // ---- The five ways the layout changes ----

  lemma AppendBehind(a: seq<Block>, cap: nat, head: nat, tail: nat, len: nat)
    requires Layout(a, [], cap, head, tail) && (head < tail || a == []) && 0 < len <= cap - tail
    ensures Layout(a + [Block(tail, len)], [], cap, head, Norm(tail + len, cap))
    ensures Misses(a, Block(tail, len))
  {
    hide Contiguous;
    ContiguousSnoc(a, head, Block(tail, len));
    ApartFromStretch(a, head, Block(tail, len));
  }

  lemma WrapToFront(a: seq<Block>, cap: nat, head: nat, tail: nat, len: nat)
    requires Layout(a, [], cap, head, tail) && (head < tail || a == []) && cap - tail < len <= head
    ensures Layout(a, [Block(0, len)], cap, head, len)
    ensures Misses(a, Block(0, len))
  {
    ApartFromStretch(a, head, Block(0, len));
  }

  lemma AppendInFront(a: seq<Block>, b: seq<Block>, cap: nat, head: nat, tail: nat, len: nat)
    requires Layout(a, b, cap, head, tail) && a + b != [] && tail <= head && 0 < len <= head - tail
    ensures Layout(a, b + [Block(tail, len)], cap, head, tail + len)
    ensures Misses(a + b, Block(tail, len))
  {
    hide Contiguous;
    if b == [] {
      ContiguousWithin(a, head, 0);
      NonEmptyEnd(a, head);
    }
    ContiguousSnoc(b, 0, Block(tail, len));
    ApartFromStretch(a, head, Block(tail, len));
    ApartFromStretch(b, 0, Block(tail, len));
  }

  lemma NonEmptyEnd(blocks: seq<Block>, start: nat)
    requires Contiguous(blocks, start) && blocks != []
    ensures start < EndOf(blocks, start)
  {
    ContiguousWithin(blocks, start, |blocks| - 1);
  }

  lemma DropBehind(a: seq<Block>, b: seq<Block>, cap: nat, head: nat, tail: nat)
    requires Layout(a, b, cap, head, tail) && a != []
    ensures a[0].off == head && head + a[0].len <= cap
    ensures if head + a[0].len < cap then Layout(a[1..], b, cap, head + a[0].len, tail)
            else a[1..] == [] && Layout(b, [], cap, 0, tail)
  {
    hide Contiguous;
    ContiguousTail(a, head);
    ContiguousWithin(a, head, 0);
    if a[1..] != [] {
      NonEmptyEnd(a[1..], a[0].End());
    }
    EmptyContiguous(0);
  }

  lemma EmptyContiguous(start: nat)
    ensures Contiguous([], start)
  {
  }

  lemma DropInFront(b: seq<Block>, cap: nat, head: nat, tail: nat)
    requires Layout([], b, cap, head, tail) && b != []
    ensures b[0].len > cap - head && b[0].off == 0
    ensures Layout(b[1..], [], cap, b[0].len, tail)
  {
    hide Contiguous;
    ContiguousTail(b, 0);
    ContiguousWithin(b, 0, 0);
    EmptyContiguous(0);
  }

  // ---- Where a block goes, and what a refusal means ----

  /** The place alloc chooses: behind the tail, else at the front; no stretch is ever reordered. */
  function Place(cap: nat, head: nat, tail: nat, size: nat, len: nat): Option<nat> {
    if head < tail || size == 0 then
      if tail + len <= cap then Some(tail) else if len <= head then Some(0) else None
    else if tail + len <= head then Some(tail)
    else None
  }

  /** Some stretch of this length lies inside the buffer and meets no live block. */
  ghost predicate FreePlace(live: seq<Block>, cap: nat, len: nat) {
    exists x: Block :: x.len == len && x.End() <= cap && Misses(live, x)
  }

  ghost predicate Misses(live: seq<Block>, x: Block) {
    forall k :: 0 <= k < |live| ==> Apart(live[k], x)
  }

  /** The end of the highest live block. */
  function HighEnd(live: seq<Block>): nat {
    if live == [] then 0
    else
      var h, e := HighEnd(live[..|live| - 1]), live[|live| - 1].End();
      if h < e then e else h
  }

  lemma {:induction false} HighEndIs(live: seq<Block>, m: nat)
    requires forall i :: 0 <= i < |live| ==> live[i].End() <= m
    ensures HighEnd(live) <= m
    ensures (exists i :: 0 <= i < |live| && live[i].End() == m) ==> HighEnd(live) == m
    ensures forall i :: 0 <= i < |live| ==> live[i].End() <= HighEnd(live)
  {
    if live != [] {
      var init := live[..|live| - 1];
      assert forall i :: 0 <= i < |init| ==> init[i] == live[i];
      HighEndIs(init, m);
    }
  }

  lemma LayoutHighEnd(a: seq<Block>, b: seq<Block>, cap: nat, head: nat, tail: nat)
    requires Layout(a, b, cap, head, tail)
    ensures HighEnd(a + b) == if a != [] then EndOf(a, head) else EndOf(b, 0)
    ensures forall i :: 0 <= i < |a + b| ==> (a + b)[i].End() <= HighEnd(a + b)
  {
    hide Contiguous;
    var high := if a != [] then EndOf(a, head) else EndOf(b, 0);
    forall i | 0 <= i < |a + b|
      ensures (a + b)[i].End() <= high
    {
      if i < |a| {
        ContiguousWithin(a, head, i);
      } else {
        ContiguousWithin(b, 0, i - |a|);
        if a != [] {
          NonEmptyEnd(a, head);
        }
      }
    }
    HighEndIs(a + b, high);
    if a != [] {
      assert (a + b)[|a| - 1].End() == high;
    } else if b != [] {
      assert (a + b)[|b| - 1].End() == high;
    }
  }

  /** Below the highest live block a refused length meets a live block wherever it is put. */
  lemma RefusedMeets(a: seq<Block>, b: seq<Block>, cap: nat, head: nat, tail: nat, x: Block)
    requires Layout(a, b, cap, head, tail) && x.len > 0 && x.End() <= cap
    requires if b == [] && (head < tail || a == []) then cap < tail + x.len && head < x.len else head < tail + x.len
    requires x.off < if a != [] then EndOf(a, head) else EndOf(b, 0)
    ensures !Misses(a + b, x)
  {
    hide Contiguous;
    if a != [] {
      NonEmptyEnd(a, head);
    }
    if a != [] && head < x.End() {
      MeetsStretch(a, head, x);
      var k :| 0 <= k < |a| && !Apart(a[k], x);
      assert (a + b)[k] == a[k];
    } else {
      MeetsStretch(b, 0, x);
      var k :| 0 <= k < |b| && !Apart(b[k], x);
      assert (a + b)[|a| + k] == b[k];
    }
  }

  class HRingBuf {
    const cap: nat
    var head: nat
    var tail: nat
    var size: nat
    /** Live blocks before and after the wrap, oldest first. */
    ghost var a: seq<Block>
    ghost var b: seq<Block>

    ghost predicate Valid()
      reads this
    {
      Layout(a, b, cap, head, tail) && size == SumLen(a + b)
    }

    ghost function Live(): seq<Block>
      reads this
    {
      a + b
    }

    constructor (cap: nat)
      ensures Valid() && Live() == [] && this.cap == cap
      ensures head == tail == size == 0
    {
      this.cap := cap;
      head, tail, size := 0, 0, 0;
      a, b := [], [];
    }

    /** The empty ring keeps its position, and with it head == tail. */
    lemma EmptyMeets()
      requires Valid()
      ensures Live() == [] ==> head == tail && size == 0
      ensures Live() != [] ==> size > 0
    {
      if a + b != [] {
        SumWithoutFirst(a + b);
        assert (a + b)[0] == if a != [] then a[0] else b[0];
      } else {
        assert a == [] && b == [];
      }
    }

    /** At any time, all live blocks lie inside the buffer and no two of them meet. */
    lemma LiveBlocksApart()
      requires Valid()
      ensures forall i :: 0 <= i < |Live()| ==> Live()[i].End() <= cap
      ensures forall i, j :: 0 <= i < j < |Live()| ==> Apart(Live()[i], Live()[j])
      ensures size == SumLen(Live())
    {
      hide Layout, Apart, SumLen;
      forall i | 0 <= i < |Live()|
        ensures Live()[i].End() <= cap
      {
        BlockInside(a, b, cap, head, tail, i);
      }
      forall i, j | 0 <= i < j < |Live()|
        ensures Apart(Live()[i], Live()[j])
      {
        LayoutSeparates(a, b, cap, head, tail, i, j);
      }
    }

    method Alloc(len: nat) returns (r: Option<nat>)
      requires Valid() && len > 0
      modifies this
      ensures Valid()
      // When there is room: behind the newest block, else at the beginning of the buffer.
      ensures var n := if old(Live()) == [] then old(head) else old(Live())[|old(Live())| - 1].End();
              if old(Live()) == [] || n > old(head) then
                && (r.Some? <==> n + len <= cap || len <= old(head))
                && (r.Some? ==> r.value == if n + len <= cap then n else 0)
              else
                && (r.Some? <==> n + len <= old(head))
                && (r.Some? ==> r.value == n)
      ensures r == Place(cap, old(head), old(tail), old(size), len)
      ensures head == old(head)
      ensures tail == (if r.None? then old(tail) else if r.value + len == cap then 0 else r.value + len)
      ensures size == old(size) + (if r.Some? then len else 0)
      ensures Live() == old(Live()) + (if r.Some? then [Block(r.value, len)] else [])
      ensures r.Some? ==> r.value + len <= cap && Misses(old(Live()), Block(r.value, len))
      // A refusal leaves a free place exactly when the block would fit behind the highest live one.
      ensures r.None? ==> (FreePlace(Live(), cap, len) <==> HighEnd(Live()) + len <= cap)
    {
      hide Layout, EndOf, Apart, FreePlace, HighEnd, Misses, Contiguous;
      EmptyMeets();
      BehindOnly();
      PlaceByBlocks(len);
      ghost var live := a + b;
      assert b == [] ==> live == a;
      r := None;
      if head < tail || size == 0 {
        if cap - tail >= len {
          r := Some(tail);
          AppendBehind(a, cap, head, tail, len);
          a := a + [Block(tail, len)];
          tail := tail + len;
          if tail == cap {
            tail := 0;
          }
        } else if head >= len {
          r := Some(0);
          WrapToFront(a, cap, head, tail, len);
          b := [Block(0, len)];
          tail := len;
        }
      } else {
        if head - tail >= len {
          r := Some(tail);
          AppendInFront(a, b, cap, head, tail, len);
          b := b + [Block(tail, len)];
          tail := tail + len;
        }
      }
      size := size + if r.Some? then len else 0;
      if r.Some? {
        assert a + b == live + [Block(r.value, len)];
        assert (live + [Block(r.value, len)])[..|live|] == live;
      } else {
        RefusalIff(len);
        assert a + b == live + [];
      }
    }

    /** The head is at the oldest block, unless that is at the beginning because it did not fit behind the head. */
    lemma HeadAtOldest()
      requires Valid() && Live() != []
      ensures var first, n := Live()[0], Live()[|Live()| - 1].End();
              head == first.off || (first.off == 0 && n <= head && first.len > cap - head)
    {
      hide Contiguous;
      if a != [] {
        ContiguousTail(a, head);
      } else {
        ContiguousTail(b, 0);
      }
    }

    /** Where alloc puts a block, in terms of the live blocks: the tail is where the newest one ends. */
    lemma PlaceByBlocks(len: nat)
      requires Valid() && len > 0
      ensures var n := if Live() == [] then head else Live()[|Live()| - 1].End();
              Place(cap, head, tail, size, len) ==
              if Live() == [] || n > head then
                if n + len <= cap then Some(n) else if len <= head then Some(0) else None
              else if n + len <= head then Some(n)
              else None
    {
      hide Contiguous;
      EmptyMeets();
      if a != [] {
        NonEmptyEnd(a, head);
      }
    }

    /** The test that chooses the first branch of alloc: no block lies in front of the head. */
    lemma BehindOnly()
      requires Valid()
      ensures head < tail || size == 0 ==> b == []
      ensures tail <= cap
      ensures head < cap || head == 0
    {
      EmptyMeets();
    }

    /**
     A refused length has a free place exactly when it would fit behind the highest live block: that room is
     not used in an empty ring, which keeps its position, nor once the end of the buffer was skipped.
     */
    lemma {:induction false} RefusalIff(len: nat)
      requires Valid() && len > 0 && Place(cap, head, tail, size, len).None?
      ensures FreePlace(Live(), cap, len) <==> HighEnd(Live()) + len <= cap
    {
      hide Layout, Apart, HighEnd;
      EmptyMeets();
      BehindOnly();
      LayoutHighEnd(a, b, cap, head, tail);
      var high := HighEnd(Live());
      if high + len <= cap {
        var x := Block(high, len);
        BehindMisses(Live(), x);
        assert x.End() <= cap;
      } else if FreePlace(Live(), cap, len) {
        var x: Block :| x.len == len && x.End() <= cap && Misses(Live(), x);
        if Live() != [] {
          SecondBranch();
          RefusedMeets(a, b, cap, head, tail, x);
        }
        assert false;
      }
    }

    /** When alloc takes its second branch, no room is left behind the tail. */
    lemma SecondBranch()
      requires Valid() && Live() != []
      ensures b == [] && !(head < tail) ==> tail == 0 && EndOf(a, head) == cap
      ensures b != [] ==> tail <= head
    {
      hide Contiguous;
      EmptyMeets();
      if a != [] {
        NonEmptyEnd(a, head);
      }
    }

    /** Frees the oldest block; the caller passes the length it was allocated with. */
    method Free(len: nat)
      requires Valid() && Live() != [] && len == Live()[0].len
      modifies this
      ensures Valid()
      ensures Live() == old(Live())[1..]
      ensures head == (if old(head) + len < cap then old(head) + len else if old(head) + len == cap then 0 else len)
      ensures tail == old(tail) && size == old(size) - len
    {
      hide Layout, Contiguous, EndOf;
      ghost var live := a + b;
      SumWithoutFirst(live);
      assert live[0] == if a != [] then a[0] else b[0];
      if a != [] {
        DropBehind(a, b, cap, head, tail);
        a := a[1..];
      } else {
        DropInFront(b, cap, head, tail);
        a, b := b[1..], [];
      }
      size := size - len;
      if len <= cap - head {
        head := head + len;
        if head == cap {
          head := 0;
          a, b := b, [];
        }
      } else {
        head := len;
      }
      assert a + b == live[1..];
    }

    method Clear()
      modifies this
      ensures Valid() && Live() == []
      ensures head == tail == size == 0
    {
      head, tail, size := 0, 0, 0;
      a, b := [], [];
    }
  }

  lemma BehindMisses(live: seq<Block>, x: Block)
    requires forall i :: 0 <= i < |live| ==> live[i].End() <= x.off
    ensures Misses(live, x)
  {
  }

  /** An empty ring of ten bytes that refuses ten bytes, because its position is in the middle. */
  method UncompactedRing() returns (ring: HRingBuf, r: Option<nat>)
    ensures ring.Valid() && ring.cap == 10 && ring.Live() == []
    ensures r == None && Place(ring.cap, ring.head, ring.tail, ring.size, 10) == None
  {
    ring := new HRingBuf(10);
    var _ := ring.Alloc(4);
    ring.Free(4);
    r := ring.Alloc(10);
  }

  /** A ring whose only live block is [0, 3) and that refuses six bytes, although [3, 9) is free. */
  method SkippedEndUnused() returns (ring: HRingBuf, r: Option<nat>)
    ensures ring.Valid() && ring.cap == 10 && ring.Live() == [Block(0, 3)]
    ensures r == None && Place(ring.cap, ring.head, ring.tail, ring.size, 6) == None
    ensures FreePlace(ring.Live(), 10, 6)
  {
    hide Layout, HighEnd, Misses, SumLen;
    ring := new HRingBuf(10);
    var _ := ring.Alloc(4);
    var _ := ring.Alloc(4);
    ring.Free(4);
    var _ := ring.Alloc(3);
    ring.Free(4);
    r := ring.Alloc(6);
    BehindMisses(ring.Live(), Block(3, 6));
    assert Block(3, 6).End() <= 10;
  }
}
