// The bump heap (kernel/mem/alloc.cpp) over the abstract memory machine: where
// its pointers go, which of its pages are mapped, and to what.
module Heap {
  import opened Bits
  import opened Options
  import opened PhysicalMemory
  import opened PageTables
  import opened MemoryStack

  datatype Pointers = Pointers(start: u64, current: u64, end: u64)

  const HEAP_ATTRIBUTES: nat := Or(PTE_WRITABLE, PTE_PRESENT)

  // 64-bit addition.
  function Plus(x: u64, y: nat): u64 { (x + y) % U64_LIMIT }

  // ------------------------------------------------------------- operations

  // AllocatePageAt, n times, each a page above the last returned address.
  ghost function Grow(a: Abs, last: u64, n: nat): (Abs, u64, bool)
    decreases n
  {
    if n == 0 then (a, last, true)
    else
      var (a1, ok) := AbsAllocateAt(a, Vpn(Plus(last, PAGE_SIZE)));
      if ok then Grow(a1, Plus(last, PAGE_SIZE), n - 1) else (a1, last, false)
  }

  predicate Overflowing(h: Pointers, amount: u64) {
    Plus(h.current, amount) >= h.end
  }

  function NeededPages(h: Pointers, amount: u64): nat {
    if Overflowing(h, amount) then Plus(amount, 4095) / PAGE_SIZE else 0
  }

  // None is a panic: the heap is not set up, or memory has run out.
  ghost function Kmalloc(a: Abs, h: Pointers, amount: u64): (Abs, Pointers, Option<u64>) {
    if h.start == 0 then (a, h, None)
    else
      var (a1, end, ok) := Grow(a, h.end, NeededPages(h, amount));
      if !ok then (a1, h.(end := end), None)
      else (a1, Pointers(h.start, Plus(h.current, amount), end), Some(h.current))
  }

  // ------------------------------------------------------------- pointers

  lemma {:induction false} GrowEnd(a: Abs, last: u64, n: nat)
    requires Grow(a, last, n).2
    ensures Grow(a, last, n).1 == Plus(last, PAGE_SIZE * n)
    decreases n
  {
    hide AbsAllocateAt;
    if n > 0 {
      var (a1, ok) := AbsAllocateAt(a, Vpn(Plus(last, PAGE_SIZE)));
      GrowEnd(a1, Plus(last, PAGE_SIZE), n - 1);
      PlusPlus(last, PAGE_SIZE, PAGE_SIZE * (n - 1));
      assert PAGE_SIZE + PAGE_SIZE * (n - 1) == PAGE_SIZE * n;
    }
  }

  lemma PlusPlus(x: u64, y: nat, z: nat)
    ensures Plus(Plus(x, y), z) == Plus(x, y + z)
  {
  }

  predicate Ordered(h: Pointers) {
    PAGE_SIZE <= h.start <= h.current <= h.end
  }

  // What a caller can check before the call: the block ends below 2^64, and so
  // does the heap's new end if the block does not fit.
  predicate NoWrapAround(h: Pointers, amount: u64) {
    && h.current + amount < U64_LIMIT
    && (h.current + amount < h.end || h.end + PAGE_SIZE * ((amount + 4095) / PAGE_SIZE) < U64_LIMIT)
  }

  // A successful kmalloc returns the old current pointer and keeps
  // Start <= Current <= End with Current moved by amount, exactly when no
  // address wraps around.  In particular rounding up to whole pages is always
  // enough growth.
  lemma KmallocOrderedIff(a: Abs, h: Pointers, amount: u64)
    requires Ordered(h) && Kmalloc(a, h, amount).2.Some?
    ensures Kmalloc(a, h, amount).2.value == h.current
    ensures var h' := Kmalloc(a, h, amount).1;
      NoWrapAround(h, amount) <==> Ordered(h') && h'.current == h.current + amount
    ensures NoWrapAround(h, amount) && h.current < h.end ==> Kmalloc(a, h, amount).1.current < Kmalloc(a, h, amount).1.end
  {
    GrowEnd(a, h.end, NeededPages(h, amount));
    PlusCases(h.current, amount);
    PlusCases(amount, 4095);
    var p := (amount + 4095) / PAGE_SIZE;
    if h.current + amount < U64_LIMIT && h.end <= h.current + amount {
      assert NeededPages(h, amount) == p;
      assert amount <= PAGE_SIZE * p < U64_LIMIT;
    }
    PlusCases(h.end, PAGE_SIZE * NeededPages(h, amount));
  }

  lemma PlusCases(x: u64, y: nat)
    requires y < U64_LIMIT
    ensures Plus(x, y) == if x + y < U64_LIMIT then x + y else x + y - U64_LIMIT
  {
  }

  // The check for a full heap answers "it fits" for exactly the blocks that end
  // below the heap's end, if and only if the block does not wrap round to an
  // address below it.
  lemma OverflowCheckRightIff(h: Pointers, amount: u64)
    ensures (!Overflowing(h, amount) <==> h.current + amount < h.end)
       <==> !(U64_LIMIT <= h.current + amount < U64_LIMIT + h.end)
  {
    PlusCases(h.current, amount);
  }

  // Without the guard the heap pointer moves backwards: a block larger than
  // the rest of the address space is "allocated" over the heap's beginning.
  lemma KmallocWraps(a: Abs)
    ensures var h := Pointers(0xFFFF_FFFF_8030_0000, 0xFFFF_FFFF_8030_0000, 0xFFFF_FFFF_8031_0000);
      var amount: u64 := 0xFFFF_FFFF_FFFF_F000;
      Ordered(h) && Kmalloc(a, h, amount).2.Some? && Kmalloc(a, h, amount).1.current < h.start
  {
  }

  // ------------------------------------------------------------- blocks

  datatype Block = Block(at: u64, size: u64)

  // The blocks of a run of kmalloc calls, until the first panic.
  ghost function Blocks(a: Abs, h: Pointers, amounts: seq<u64>): (Abs, Pointers, seq<Block>, bool)
    decreases |amounts|
  {
    if amounts == [] then (a, h, [], true)
    else
      var (a1, h1, at) := Kmalloc(a, h, amounts[0]);
      match at
      case None => (a1, h1, [], false)
      case Some(p) =>
        var (a2, h2, rest, ok) := Blocks(a1, h1, amounts[1..]);
        (a2, h2, [Block(p, amounts[0])] + rest, ok)
  }

  // Every call of the run passes the guard.
  ghost predicate Guarded(a: Abs, h: Pointers, amounts: seq<u64>)
    decreases |amounts|
  {
    amounts == [] ||
    (NoWrapAround(h, amounts[0]) &&
     var (a1, h1, at) := Kmalloc(a, h, amounts[0]);
     at.None? || Guarded(a1, h1, amounts[1..]))
  }

  // bs are adjacent blocks from `from` to `to`.
  predicate Tile(bs: seq<Block>, from: nat, to: nat)
    decreases |bs|
  {
    if bs == [] then from == to
    else bs[0].at == from && Tile(bs[1..], from + bs[0].size, to)
  }

  // The blocks of any guarded run tile the heap from the old to the new current
  // pointer, across growth, and the pointers stay ordered; the heap is never
  // quite full, if it was not at first.
  lemma {:induction false} BlocksTile(a: Abs, h: Pointers, amounts: seq<u64>)
    requires Ordered(h) && Guarded(a, h, amounts)
    ensures var (_, h', bs, ok) := Blocks(a, h, amounts);
      && Ordered(h') && h'.start == h.start && Tile(bs, h.current, h'.current)
      && (h.current < h.end ==> h'.current < h'.end)
      && (ok ==> |bs| == |amounts| && forall k :: 0 <= k < |bs| ==> bs[k].size == amounts[k])
    decreases |amounts|
  {
    if amounts != [] {
      var (a1, h1, at) := Kmalloc(a, h, amounts[0]);
      if at.Some? {
        KmallocOrderedIff(a, h, amounts[0]);
        BlocksTile(a1, h1, amounts[1..]);
        var bs := Blocks(a, h, amounts).2;
        assert bs[1..] == Blocks(a1, h1, amounts[1..]).2;
      } else {
        PanicKeepsOrder(a, h.end, NeededPages(h, amounts[0]), h);
      }
    }
  }

  // Growth that panics half-way has not moved the end past the guard.
  lemma {:induction false} PanicKeepsOrder(a: Abs, last: u64, n: nat, h: Pointers)
    requires Ordered(h) && h.end <= last && last + PAGE_SIZE * n < U64_LIMIT
    ensures h.end <= Grow(a, last, n).1
    decreases n
  {
    if n > 0 {
      var (a1, ok) := AbsAllocateAt(a, Vpn(Plus(last, PAGE_SIZE)));
      if ok { PanicKeepsOrder(a1, Plus(last, PAGE_SIZE), n - 1, h); }
    }
  }

  // Tiling blocks do not overlap.
  lemma {:induction false} TilesApart(bs: seq<Block>, from: nat, to: nat, j: nat, k: nat)
    requires Tile(bs, from, to) && j < k < |bs|
    ensures from <= bs[j].at && bs[j].at + bs[j].size <= bs[k].at && bs[k].at + bs[k].size <= to
    decreases |bs|
  {
    if j > 0 {
      TilesApart(bs[1..], from + bs[0].size, to, j - 1, k - 1);
    } else {
      TileRange(bs[1..], from + bs[0].size, to, k - 1);
    }
  }

  lemma {:induction false} TileRange(bs: seq<Block>, from: nat, to: nat, k: nat)
    requires Tile(bs, from, to) && k < |bs|
    ensures from <= bs[k].at && bs[k].at + bs[k].size <= to
    decreases |bs|
  {
    if k > 0 { TileRange(bs[1..], from + bs[0].size, to, k - 1); } else { TileOrder(bs[1..], from + bs[0].size, to); }
  }

  lemma {:induction false} TileOrder(bs: seq<Block>, from: nat, to: nat)
    requires Tile(bs, from, to)
    ensures from <= to
    decreases |bs|
  {
    if bs != [] { TileOrder(bs[1..], from + bs[0].size, to); }
  }
}
