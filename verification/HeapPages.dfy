// Which pages the heap maps (kernel/mem/alloc.cpp): Allocator::Init maps the
// pages after the first one up to the heap's end, growth maps one page further
// on each time, so that exactly one page inside a grown heap is left out.
module HeapPages {
  import opened Bits
  import opened Options
  import opened PhysicalMemory
  import opened PageAllocator
  import opened PageTables
  import opened MemoryStack
  import opened MemoryRuns
  import opened Heap

  // The loop bound of Allocator::Init, one less than the heap's pages in 64 bits.
  function FirstPages(heapBytes: u64): nat {
    (heapBytes / PAGE_SIZE + U64_LIMIT - 1) % U64_LIMIT
  }

  // Allocator::Init: the first page is taken as mapped by the loader.  A panic
  // leaves the end pointer as it was.
  ghost function Init(a: Abs, start: u64, heapBytes: u64, oldEnd: u64): (Abs, Pointers, bool)
  {
    var (a1, last, ok) := Grow(a, start, FirstPages(heapBytes));
    (a1, Pointers(start, start, if ok then Plus(last, PAGE_SIZE) else oldEnd), ok)
  }

  predicate NoRepeats(s: seq<nat>) {
    forall j, k :: 0 <= j < k < |s| ==> s[j] != s[k]
  }

  predicate Suffix(s: seq<nat>, t: seq<nat>) {
    |s| <= |t| && s == t[|t| - |s|..]
  }

  // ------------------------------------------------------------- when it succeeds

  // Growth as a run of page allocations.
  function GrowOps(last: u64, n: nat): (ops: seq<Op>)
    ensures |ops| == n
    decreases n
  {
    if n == 0 then [] else [TakePageAt(Plus(last, PAGE_SIZE))] + GrowOps(Plus(last, PAGE_SIZE), n - 1)
  }

  lemma {:induction false} GrowIsRun(a: Abs, last: u64, n: nat)
    ensures (Grow(a, last, n).0, Grow(a, last, n).2) == AbsRun(a, GrowOps(last, n))
    ensures Taken(GrowOps(last, n)) == n
    decreases n
  {
    hide AbsAllocateAt;
    if n > 0 {
      var ops := GrowOps(last, n);
      assert ops[0] == TakePageAt(Plus(last, PAGE_SIZE)) && ops[1..] == GrowOps(Plus(last, PAGE_SIZE), n - 1);
      var (a1, ok) := AbsAllocateAt(a, Vpn(Plus(last, PAGE_SIZE)));
      GrowIsRun(a1, Plus(last, PAGE_SIZE), n - 1);
    }
  }

  // A call succeeds exactly when the heap is set up and there is a free page for
  // each page it grows by and each table missing on the way; on a heap that is
  // not set up nothing changes.
  lemma KmallocSucceedsIff(a: Abs, h: Pointers, amount: u64)
    ensures Kmalloc(a, h, amount).2.Some? <==>
      h.start != 0 && NeededPages(h, amount) + |Missing(a.linked, Prefixes(GrowOps(h.end, NeededPages(h, amount))))| <= |a.free|
    ensures h.start == 0 ==> Kmalloc(a, h, amount) == (a, h, None)
  {
    var n := NeededPages(h, amount);
    GrowIsRun(a, h.end, n);
    RunAccounting(a, GrowOps(h.end, n));
  }

  // So does set-up.
  lemma InitSucceedsIff(a: Abs, start: u64, heapBytes: u64, oldEnd: u64)
    requires heapBytes >= PAGE_SIZE
    ensures var n := heapBytes / 4096 - 1;
      Init(a, start, heapBytes, oldEnd).2 <==> n + |Missing(a.linked, Prefixes(GrowOps(start, n)))| <= |a.free|
  {
    var n := heapBytes / 4096 - 1;
    assert FirstPages(heapBytes) == n;
    GrowIsRun(a, start, n);
    RunAccounting(a, GrowOps(start, n));
  }

  // ------------------------------------------------------------- mapped pages

  // Page w is mapped writable to a data page that was free in a0.
  ghost predicate Owned(a0: Abs, a: Abs, w: nat)
    requires w in a.space
  {
    a.space[w].Some? && a.space[w].value.attributes == HEAP_ATTRIBUTES
    && a.space[w].value.frame in a0.free && a.space[w].value.frame !in a.free
    && a.space[w].value.frame in a.data
  }

  ghost predicate Total(a: Abs) {
    forall w: nat :: w in a.space <==> w < VPN_LIMIT
  }

  // Every state of the machine meets these conditions.
  lemma MachineAbs(s: State, data: set<nat>)
    requires Sound(s)
    ensures Total(AbsOf(s, data)) && NoRepeats(AbsOf(s, data).free) && |AbsOf(s, data).free| <= FRAME_LIMIT
  {
    FreeFromSorted(s.ram, s.bitmap, s.totalPages, 0);
    FreeFromLength(s.ram, s.bitmap, s.totalPages, 0);
  }

  // The pages after lo up to hi, except one.
  predicate IsHeapPage(lo: nat, hi: nat, hole: nat, w: nat) {
    lo < w <= hi && w != hole
  }

  // Since a0, exactly those pages were mapped, each to a data page of its own.
  ghost predicate Mapped(a0: Abs, a: Abs, lo: nat, hi: nat, hole: nat) {
    && Total(a0) && Total(a) && NoRepeats(a0.free) && Suffix(a.free, a0.free)
    && (forall w: nat :: w < VPN_LIMIT && !IsHeapPage(lo, hi, hole, w) ==> a.space[w] == a0.space[w])
    && (forall w: nat :: w < VPN_LIMIT && IsHeapPage(lo, hi, hole, w) ==> Owned(a0, a, w))
    && (forall v: nat, w: nat :: v < w < VPN_LIMIT && IsHeapPage(lo, hi, hole, v) && IsHeapPage(lo, hi, hole, w) ==>
          a.space[v] != a.space[w])
  }

  // ------------------------------------------------------------- one page

  lemma AllocateAtEffect(a: Abs, v: nat)
    ensures var (a', ok) := AbsAllocateAt(a, v);
      && Suffix(a'.free, a.free) && a.data <= a'.data
      && (!ok ==> a'.space == a.space)
      && (ok ==> a.free != [] && |a'.free| < |a.free| && a'.data == a.data + {a.free[0]}
                 && a'.space == a.space[v := Some(Mapping(a.free[0], HEAP_ATTRIBUTES))])
  {
    if a.free != [] {
      var a1 := a.(free := a.free[1..], data := a.data + {a.free[0]});
      DescendEffect(a1, v, 0);
      var n := |Missing(a1.linked, PathsBelow(v, 0))|;
      if n <= |a1.free| { assert a1.free[n..] == a.free[n + 1..]; }
    }
  }

  lemma SuffixTransitive(x: seq<nat>, y: seq<nat>, z: seq<nat>)
    requires Suffix(x, y) && Suffix(y, z)
    ensures Suffix(x, z)
  {
  }

  lemma SuffixMembers(x: seq<nat>, y: seq<nat>)
    requires Suffix(x, y)
    ensures forall f :: f in x ==> f in y
  {
  }

  // A page at the front of a list without repetition is not in a proper suffix.
  lemma FrontNotInSuffix(x: seq<nat>, y: seq<nat>, z: seq<nat>)
    requires NoRepeats(z) && Suffix(y, z) && y != [] && Suffix(x, y) && |x| < |y|
    ensures y[0] !in x && y[0] in y && y[0] in z
  {
    var d := |z| - |y|;
    assert y[0] == z[d];
    forall k | 0 <= k < |x| ensures x[k] != y[0] {
      assert x[k] == z[|z| - |x| + k];
    }
  }

  lemma MappedStep(a0: Abs, a: Abs, lo: nat, hi: nat, hole: nat)
    requires Mapped(a0, a, lo, hi, hole) && lo <= hi && hi + 1 < VPN_LIMIT && hi + 1 != hole
    ensures var (a', ok) := AbsAllocateAt(a, hi + 1);
      Mapped(a0, a', lo, if ok then hi + 1 else hi, hole)
  {
    hide AbsAllocateAt, Suffix, NoRepeats;
    var (a', ok) := AbsAllocateAt(a, hi + 1);
    AllocateAtEffect(a, hi + 1);
    SuffixTransitive(a'.free, a.free, a0.free);
    SuffixMembers(a'.free, a.free);
    if ok { FrontNotInSuffix(a'.free, a.free, a0.free); }
    forall w: nat | w < VPN_LIMIT && IsHeapPage(lo, hi, hole, w)
      ensures Owned(a0, a', w) && (ok ==> a'.space[w] != a'.space[hi + 1])
    {
      assert Owned(a0, a, w);
    }
  }

  // ------------------------------------------------------------- growth

  // n more pages after `last` stay within the 2^48 addresses around it.
  predicate Room(last: u64, n: nat) {
    last % 0x1_0000_0000_0000 + PAGE_SIZE * n < 0x1_0000_0000_0000
  }

  lemma RoomStep(last: u64, n: nat)
    requires Room(last, n) && n > 0
    ensures Plus(last, PAGE_SIZE) == last + PAGE_SIZE && Room(last + PAGE_SIZE, n - 1)
    ensures Vpn(last + PAGE_SIZE) == Vpn(last) + 1
  {
    var q, r := last / 0x1_0000_0000_0000, last % 0x1_0000_0000_0000;
    assert last == 0x1_0000_0000_0000 * q + r;
    assert last / PAGE_SIZE == VPN_LIMIT * q + r / PAGE_SIZE;
    assert (last + PAGE_SIZE) / PAGE_SIZE == last / PAGE_SIZE + 1;
    assert r / PAGE_SIZE + 1 < VPN_LIMIT;
  }

  // Growth by page number: how many pages above v it got to map.
  ghost function GrowPages(a: Abs, v: nat, n: nat): (Abs, nat, bool)
    decreases n
  {
    if n == 0 then (a, 0, true)
    else
      var (a1, ok) := AbsAllocateAt(a, v + 1);
      if !ok then (a1, 0, false)
      else
        var (a2, k, ok2) := GrowPages(a1, v + 1, n - 1);
        (a2, k + 1, ok2)
  }

  lemma {:induction false} GrowByPage(a: Abs, last: u64, n: nat)
    requires Room(last, n)
    ensures var (a', k, ok) := GrowPages(a, Vpn(last), n);
      k <= n && (ok ==> k == n) && last + PAGE_SIZE * k < U64_LIMIT
      && Grow(a, last, n) == (a', last + PAGE_SIZE * k, ok)
    decreases n
  {
    hide AbsAllocateAt;
    if n > 0 {
      RoomStep(last, n);
      var (a1, ok) := AbsAllocateAt(a, Vpn(last) + 1);
      if ok { GrowByPage(a1, last + PAGE_SIZE, n - 1); }
    }
  }

  // Growth maps the pages above hi that it gets to, each to a page of its own.
  lemma {:induction false} GrowMaps(a0: Abs, a: Abs, lo: nat, hi: nat, hole: nat, n: nat)
    requires Mapped(a0, a, lo, hi, hole) && lo <= hi && hi + n < VPN_LIMIT
    requires hole <= hi || hole > hi + n
    ensures Mapped(a0, GrowPages(a, hi, n).0, lo, hi + GrowPages(a, hi, n).1, hole)
    decreases n
  {
    hide AbsAllocateAt;
    if n > 0 {
      var (a1, ok) := AbsAllocateAt(a, hi + 1);
      MappedStep(a0, a, lo, hi, hole);
      if ok { GrowMaps(a0, a1, lo, hi + 1, hole, n - 1); }
    }
  }

  // The page at the hole may be counted in or not.
  lemma SkipHole(a0: Abs, a: Abs, lo: nat, hole: nat)
    requires lo < hole && Mapped(a0, a, lo, hole - 1, hole)
    ensures Mapped(a0, a, lo, hole, hole)
  {
    assert forall w: nat :: IsHeapPage(lo, hole, hole, w) <==> IsHeapPage(lo, hole - 1, hole, w);
  }

  // A heap of n pages at `start` that has grown by g pages since a0.
  ghost predicate HeapAt(a0: Abs, a: Abs, h: Pointers, n: nat, g: nat) {
    && Room(h.start, n + g) && h.end == h.start + PAGE_SIZE * (n + g)
    && Mapped(a0, a, Vpn(h.start), Vpn(h.start) + n + g, Vpn(h.start) + n)
  }

  // After Init the heap has N pages, of which the second to the last are mapped
  // writable to distinct data pages; every other page is as before.  A panic has
  // mapped the first k of them.
  lemma InitMaps(a0: Abs, start: u64, heapBytes: u64, oldEnd: u64) returns (k: nat)
    requires heapBytes >= PAGE_SIZE && Room(start, heapBytes / PAGE_SIZE)
    requires Total(a0) && NoRepeats(a0.free)
    ensures var (a, h, ok) := Init(a0, start, heapBytes, oldEnd);
      var n := heapBytes / PAGE_SIZE;
      && (ok ==> h == Pointers(start, start, start + PAGE_SIZE * n) && HeapAt(a0, a, h, n, 0))
      && (!ok ==> h == Pointers(start, start, oldEnd) && k < n
                  && Mapped(a0, a, Vpn(start), Vpn(start) + k, Vpn(start) + n))
  {
    hide AbsAllocateAt, GrowPages, Grow, Mapped;
    var n := heapBytes / PAGE_SIZE;
    var v := Vpn(start);
    InitRoom(start, n);
    assert FirstPages(heapBytes) == n - 1;
    GrowByPage(a0, start, n - 1);
    NothingMapped(a0, v, v + n);
    GrowMaps(a0, a0, v, v, v + n, n - 1);
    k := GrowPages(a0, v, n - 1).1;
    if k == n - 1 { SkipHole(a0, GrowPages(a0, v, n - 1).0, v, v + n); }
  }

  // With less than one page the loop bound wraps round, and Init always panics.
  lemma SmallHeapPanics(a: Abs, start: u64, heapBytes: u64, oldEnd: u64)
    requires heapBytes < PAGE_SIZE && |a.free| <= FRAME_LIMIT
    ensures !Init(a, start, heapBytes, oldEnd).2
  {
    assert FirstPages(heapBytes) == U64_LIMIT - 1;
    if Init(a, start, heapBytes, oldEnd).2 { GrowTakes(a, start, U64_LIMIT - 1); }
  }

  lemma {:induction false} GrowTakes(a: Abs, last: u64, n: nat)
    requires Grow(a, last, n).2
    ensures n <= |a.free|
    decreases n
  {
    hide AbsAllocateAt;
    if n > 0 {
      AllocateAtEffect(a, Vpn(Plus(last, PAGE_SIZE)));
      GrowTakes(AbsAllocateAt(a, Vpn(Plus(last, PAGE_SIZE))).0, Plus(last, PAGE_SIZE), n - 1);
    }
  }

  lemma NothingMapped(a0: Abs, v: nat, hole: nat)
    requires Total(a0) && NoRepeats(a0.free)
    ensures Mapped(a0, a0, v, v, hole)
  {
    assert forall w: nat :: !IsHeapPage(v, v, hole, w);
  }

  lemma InitRoom(start: u64, n: nat)
    requires Room(start, n) && n > 0
    ensures Room(start, n - 1) && Vpn(start) + n < VPN_LIMIT
    ensures start + PAGE_SIZE * (n - 1) < U64_LIMIT && start + PAGE_SIZE * n < U64_LIMIT
    ensures Plus(start + PAGE_SIZE * (n - 1), PAGE_SIZE) == start + PAGE_SIZE * n
  {
    VpnPlus(start, n);
  }

  // ------------------------------------------------------------- whole runs

  // The request fits the 2^48 addresses around the heap.
  predicate Roomy(h: Pointers, amount: u64) {
    h.end % 0x1_0000_0000_0000 + amount + 4095 < 0x1_0000_0000_0000
  }

  lemma RoomyPages(h: Pointers, amount: u64)
    requires Roomy(h, amount)
    ensures Room(h.end, NeededPages(h, amount))
  {
    assert amount + 4095 < U64_LIMIT;
  }

  lemma VpnPlus(start: u64, k: nat)
    requires Room(start, k)
    ensures start + PAGE_SIZE * k < U64_LIMIT && Vpn(start + PAGE_SIZE * k) == Vpn(start) + k
  {
    var q, r := start / 0x1_0000_0000_0000, start % 0x1_0000_0000_0000;
    assert start == 0x1_0000_0000_0000 * q + r;
    assert start / PAGE_SIZE == VPN_LIMIT * q + r / PAGE_SIZE;
    assert (start + PAGE_SIZE * k) / PAGE_SIZE == start / PAGE_SIZE + k;
    assert r / PAGE_SIZE + k < VPN_LIMIT;
  }

  lemma RoomAdds(start: u64, k: nat, m: nat, p: nat)
    requires Room(start, k) && start + PAGE_SIZE * k < U64_LIMIT && Room(start + PAGE_SIZE * k, p) && m <= p
    ensures Room(start, k + m)
  {
    var r := start % 0x1_0000_0000_0000;
    assert (start + PAGE_SIZE * k) % 0x1_0000_0000_0000 == r + PAGE_SIZE * k;
  }

  // kmalloc keeps the heap's shape, whether it succeeds or panics.
  lemma KmallocMaps(a0: Abs, a: Abs, h: Pointers, n: nat, g: nat, amount: u64) returns (g': nat)
    requires HeapAt(a0, a, h, n, g) && Roomy(h, amount)
    ensures g <= g'
    ensures var (a', h', _) := Kmalloc(a, h, amount); h'.start == h.start && HeapAt(a0, a', h', n, g')
  {
    hide AbsAllocateAt, GrowPages, Grow, Mapped;
    g' := g;
    if h.start != 0 {
      var p, v := NeededPages(h, amount), Vpn(h.start);
      KmallocRoom(h, n + g, amount);
      GrowByPage(a, h.end, p);
      GrowMaps(a0, a, v, v + n + g, v + n, p);
      var m := GrowPages(a, v + n + g, p).1;
      RoomAdds(h.start, n + g, m, p);
      g' := g + m;
    }
  }

  lemma KmallocRoom(h: Pointers, k: nat, amount: u64)
    requires Room(h.start, k) && h.end == h.start + PAGE_SIZE * k && Roomy(h, amount)
    ensures Room(h.end, NeededPages(h, amount)) && Vpn(h.end) == Vpn(h.start) + k
    ensures Vpn(h.end) + NeededPages(h, amount) < VPN_LIMIT
  {
    RoomyPages(h, amount);
    VpnPlus(h.start, k);
    VpnPlus(h.end, NeededPages(h, amount));
  }

  // Every call of the run passes Roomy.
  ghost predicate AllRoomy(a: Abs, h: Pointers, amounts: seq<u64>)
    decreases |amounts|
  {
    amounts == [] ||
    (Roomy(h, amounts[0]) &&
     var (a1, h1, at) := Kmalloc(a, h, amounts[0]);
     at.None? || AllRoomy(a1, h1, amounts[1..]))
  }

  lemma {:induction false} RunMaps(a0: Abs, a: Abs, h: Pointers, n: nat, g: nat, amounts: seq<u64>) returns (g': nat)
    requires HeapAt(a0, a, h, n, g) && AllRoomy(a, h, amounts)
    ensures g <= g'
    ensures var (a', h', _, _) := Blocks(a, h, amounts); h'.start == h.start && HeapAt(a0, a', h', n, g')
    decreases |amounts|
  {
    if amounts == [] {
      g' := g;
    } else {
      var (a1, h1, at) := Kmalloc(a, h, amounts[0]);
      g' := KmallocMaps(a0, a, h, n, g, amounts[0]);
      if at.Some? { g' := RunMaps(a0, a1, h1, n, g', amounts[1..]); }
    }
  }

  // Growth maps the page after the end instead of the page at the end, so the
  // page just past the initial heap is never mapped: memory in the heap is
  // mapped, byte for byte, exactly when it does not touch that page.
  lemma MappedIff(a0: Abs, a: Abs, h: Pointers, n: nat, g: nat, at: nat, size: nat)
    requires HeapAt(a0, a, h, n, g) && n > 0
    requires PageMapped(a0, Vpn(h.start)) && !PageMapped(a0, Vpn(h.start) + n)
    requires h.start <= at && at + size <= h.end && size > 0
    ensures (forall b: u64 :: at <= b < at + size ==> PageMapped(a, Vpn(b)))
       <==> (forall b: u64 :: at <= b < at + size ==> Vpn(b) != Vpn(h.start) + n)
  {
    VpnPlus(h.start, n + g);
    forall b: u64 | at <= b < at + size ensures PageMapped(a, Vpn(b)) <==> Vpn(b) != Vpn(h.start) + n {
      BytePage(h.start, n + g, b);
      HeapPageMapped(a0, a, h, n, g, Vpn(b));
    }
  }

  ghost predicate PageMapped(a: Abs, w: nat) {
    w in a.space && a.space[w].Some?
  }

  // The block that a successful call returns is mapped, byte for byte, exactly
  // when it misses the page just past the initial heap.
  lemma KmallocMappedIff(a0: Abs, a: Abs, h: Pointers, n: nat, g: nat, amount: u64)
    requires HeapAt(a0, a, h, n, g) && n > 0 && Ordered(h) && Roomy(h, amount) && amount > 0
    requires PageMapped(a0, Vpn(h.start)) && !PageMapped(a0, Vpn(h.start) + n)
    requires Kmalloc(a, h, amount).2.Some?
    ensures var (a', _, block) := Kmalloc(a, h, amount);
      (forall b: u64 :: block.value <= b < block.value + amount ==> PageMapped(a', Vpn(b)))
      <==> (forall b: u64 :: h.current <= b < h.current + amount ==> Vpn(b) != Vpn(h.start) + n)
  {
    hide Kmalloc, Mapped, HeapAt, PageMapped;
    var (a', h', _) := Kmalloc(a, h, amount);
    RoomyNoWrap(h, amount);
    KmallocOrderedIff(a, h, amount);
    var g' := KmallocMaps(a0, a, h, n, g, amount);
    MappedIff(a0, a', h', n, g', h.current, amount);
  }

  lemma RoomyNoWrap(h: Pointers, amount: u64)
    requires Roomy(h, amount) && Ordered(h)
    ensures NoWrapAround(h, amount)
  {
  }

  // A one-page heap, set up and asked for 4095 bytes and then for two: both
  // calls succeed, and the second block's second byte is not mapped.
  lemma UnmappedBlock(a0: Abs, start: u64, oldEnd: u64)
    requires Total(a0) && NoRepeats(a0.free) && |a0.free| >= 4
    requires PAGE_SIZE <= start && Room(start, 3) && !PageMapped(a0, Vpn(start) + 1)
    ensures start + PAGE_SIZE < U64_LIMIT
    ensures var (a1, h1, up) := Init(a0, start, PAGE_SIZE, oldEnd);
      var (a, h, bs, ok) := Blocks(a1, h1, [4095, 2]);
      && up && ok && bs == [Block(start, 4095), Block(start + 4095, 2)]
      && !PageMapped(a, Vpn(start + PAGE_SIZE))
  {
    VpnPlus(start, 1);
    VpnPlus(start, 2);
    var end := start + PAGE_SIZE;
    SetUpOnePage(a0, start, oldEnd);
    var h1, h2 := Pointers(start, start, end), Pointers(start, start + 4095, end);
    FirstBlock(a0, start);
    SecondBlock(a0, start);
    hide *;
    TwoBlocks(a0, h1, 4095, 2);
  }

  lemma FirstBlock(a0: Abs, start: u64)
    requires PAGE_SIZE <= start && start + PAGE_SIZE < U64_LIMIT
    ensures var end := start + PAGE_SIZE;
      Kmalloc(a0, Pointers(start, start, end), 4095) == (a0, Pointers(start, start + 4095, end), Some(start))
  {
  }

  lemma SecondBlock(a0: Abs, start: u64)
    requires Total(a0) && |a0.free| >= 4
    requires PAGE_SIZE <= start && Room(start, 3) && !PageMapped(a0, Vpn(start) + 1)
    ensures start + PAGE_SIZE < U64_LIMIT
    ensures var (a, _, at) := Kmalloc(a0, Pointers(start, start + 4095, start + PAGE_SIZE), 2);
      at == Some(start + 4095) && !PageMapped(a, Vpn(start + PAGE_SIZE))
  {
    VpnPlus(start, 1);
    VpnPlus(start, 2);
    var end := start + PAGE_SIZE;
    var v := Vpn(Plus(end, PAGE_SIZE));
    assert v == Vpn(start) + 2;
    EnoughPages(a0, v);
    AllocateAtEffect(a0, v);
    GrowOne(a0, end);
    hide AbsAllocateAt, Grow;
    var h := Pointers(start, start + 4095, end);
    assert Overflowing(h, 2) && NeededPages(h, 2) == 1;
  }

  lemma SetUpOnePage(a0: Abs, start: u64, oldEnd: u64)
    requires start + PAGE_SIZE < U64_LIMIT
    ensures Init(a0, start, PAGE_SIZE, oldEnd) == (a0, Pointers(start, start, start + PAGE_SIZE), true)
  {
    assert FirstPages(PAGE_SIZE) == 0;
  }

  lemma TwoBlocks(a: Abs, h: Pointers, x: u64, y: u64)
    ensures var (a1, h1, p) := Kmalloc(a, h, x);
      var (a2, h2, q) := Kmalloc(a1, h1, y);
      p.Some? && q.Some? ==> Blocks(a, h, [x, y]) == (a2, h2, [Block(p.value, x), Block(q.value, y)], true)
  {
    hide Kmalloc;
    var (a1, h1, p) := Kmalloc(a, h, x);
    var (a2, h2, q) := Kmalloc(a1, h1, y);
    if p.Some? && q.Some? {
      OneBlock(a1, h1, y);
      assert [x, y][1..] == [y];
      assert [Block(p.value, x)] + [Block(q.value, y)] == [Block(p.value, x), Block(q.value, y)];
    }
  }

  lemma OneBlock(a: Abs, h: Pointers, y: u64)
    requires Kmalloc(a, h, y).2.Some?
    ensures var (a', h', q) := Kmalloc(a, h, y);
      Blocks(a, h, [y]) == (a', h', [Block(q.value, y)], true)
  {
    hide Kmalloc;
    var (a', h', q) := Kmalloc(a, h, y);
    var rest := [y][1..];
    assert rest == [];
    assert Blocks(a', h', rest) == (a', h', [], true);
    assert [Block(q.value, y)] + [] == [Block(q.value, y)];
  }

  lemma GrowOne(a: Abs, last: u64)
    requires AbsAllocateAt(a, Vpn(Plus(last, PAGE_SIZE))).1
    ensures Grow(a, last, 1) == (AbsAllocateAt(a, Vpn(Plus(last, PAGE_SIZE))).0, Plus(last, PAGE_SIZE), true)
  {
    hide AbsAllocateAt;
    var a1 := AbsAllocateAt(a, Vpn(Plus(last, PAGE_SIZE))).0;
    assert Grow(a1, Plus(last, PAGE_SIZE), 0) == (a1, Plus(last, PAGE_SIZE), true);
  }

  // Four free pages are enough for a data page and its tables.
  lemma EnoughPages(a: Abs, v: nat)
    requires |a.free| >= 4
    ensures AbsAllocateAt(a, v).1
  {
    var a1 := a.(free := a.free[1..], data := a.data + {a.free[0]});
    DescendEffect(a1, v, 0);
    ThreePaths(a1.linked, v);
  }

  lemma HeapPageMapped(a0: Abs, a: Abs, h: Pointers, n: nat, g: nat, w: nat)
    requires HeapAt(a0, a, h, n, g) && n > 0 && w < VPN_LIMIT
    requires PageMapped(a0, Vpn(h.start)) && !PageMapped(a0, Vpn(h.start) + n)
    requires Vpn(h.start) <= w <= Vpn(h.start) + n + g
    ensures PageMapped(a, w) <==> w != Vpn(h.start) + n
  {
    var v := Vpn(h.start);
    assert IsHeapPage(v, v + n + g, v + n, w) <==> w != v && w != v + n;
    if w != v && w != v + n { assert Owned(a0, a, w); }
  }

  lemma BytePage(start: u64, k: nat, b: u64)
    requires Room(start, k) && start <= b <= start + PAGE_SIZE * k
    ensures Vpn(start) <= Vpn(b) <= Vpn(start) + k
  {
    var top := 0x1_0000_0000_0000;
    var q, r := start / top, start % top;
    var s := b - top * q;
    SplitAddress(start, q, r);
    SplitAddress(b, q, s);
  }

  // Address q * 2^48 + r is on page r / 4096 of its 2^48 bytes.
  lemma SplitAddress(b: u64, q: nat, r: nat)
    requires b == 0x1_0000_0000_0000 * q + r && r < 0x1_0000_0000_0000
    ensures Vpn(b) == r / PAGE_SIZE
  {
    assert b / PAGE_SIZE == VPN_LIMIT * q + r / PAGE_SIZE;
  }
}
