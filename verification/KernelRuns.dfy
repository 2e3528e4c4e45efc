// The memory stack from the boot loader's hand-over on: what set-up, allocator
// and mapper guarantee together after any run of the kernel.
module KernelRuns {
  import opened Options
  import opened PhysicalMemory
  import opened PageTables
  import opened MemoryStack
  import opened MemoryRuns
  import opened MemoryMap
  import opened Machine
  import Heap
  import HeapPages
  import opened Bits

  // f was free or a data page in a.
  ghost predicate Available(a: Abs, f: nat) { f in a.free || f in a.data }

  lemma TailAvailable(a: Abs, a': Abs, n: nat)
    requires n <= |a.free| && a'.free == a.free[n..] && a'.data == a.data
    ensures forall f: nat :: Available(a', f) ==> Available(a, f)
  {
  }

  lemma DescendAvailable(a: Abs, v: nat)
    ensures forall f: nat :: Available(AbsDescend(a, v, 0).0, f) ==> Available(a, f)
  {
    DescendEffect(a, v, 0);
    var (a', ok) := AbsDescend(a, v, 0);
    if ok { TailAvailable(a, a', |Missing(a.linked, PathsBelow(v, 0))|); }
  }

  lemma AllocateAtAvailable(a: Abs, v: nat)
    ensures forall f: nat :: Available(AbsAllocateAt(a, v).0, f) ==> Available(a, f)
  {
    hide AbsDescend;
    if a.free != [] {
      var a1 := a.(free := a.free[1..], data := a.data + {a.free[0]});
      assert forall f: nat :: Available(a1, f) ==> Available(a, f);
      DescendAvailable(a1, v);
    }
  }

  // An operation hands out free pages only.
  lemma StepAvailable(a: Abs, op: Op)
    ensures forall f: nat :: Available(AbsStep(a, op).0, f) ==> Available(a, f)
  {
    hide AbsDescend, AbsAllocateAt;
    match op
    case TakePage =>
    case MapAt(virt, _, _) => DescendAvailable(a, Vpn(virt));
    case TakePageAt(virt) => AllocateAtAvailable(a, Vpn(virt));
  }

  lemma {:induction false} RunAvailable(a: Abs, ops: seq<Op>)
    ensures forall f: nat :: Available(AbsRun(a, ops).0, f) ==> Available(a, f)
    decreases |ops|
  {
    if ops != [] {
      StepAvailable(a, ops[0]);
      var (a1, ok) := AbsStep(a, ops[0]);
      if ok { RunAvailable(a1, ops[1..]); }
    }
  }

  // Page v translates as under the boot loader's tables in the upper half, and
  // not at all in the lower half.
  ghost predicate AsLoaded(s0: State, s: State, v: nat)
    requires v < VPN_LIMIT
  {
    Space(Frames(s.ram), s.root)[v] == if Index(v, 0) < 256 then None else Space(Frames(s0.ram), s0.root)[v]
  }

  // No frame of data holds a byte of an entry that is not usable.
  ghost predicate Clean(entries: seq<Entry>, data: set<nat>) {
    forall k: nat, b: nat :: 0 <= k < |entries| && InEntry(entries[k], b) ==> b / PAGE_SIZE !in data
  }

  predicate Untouched(ops: seq<Op>, v: nat) {
    forall k :: 0 <= k < |ops| ==> Target(ops[k]) != Some(v)
  }

  ghost predicate AllAllowed(s: State, ops: seq<Op>)
    requires Sound(s)
  {
    forall k :: 0 <= k < |ops| ==> Allowed(AbsOf(s, {}).large, ops[k])
  }

  lemma RunKeeps(s: State, ops: seq<Op>, v: nat)
    requires Valid(s, {}) && AllAllowed(s, ops) && Run(s, {}, ops).2 && v < VPN_LIMIT && Untouched(ops, v)
    ensures v in Space(Frames(s.ram), s.root)
    ensures v in Space(Frames(Run(s, {}, ops).0.ram), Run(s, {}, ops).0.root)
    ensures Space(Frames(Run(s, {}, ops).0.ram), Run(s, {}, ops).0.root)[v] == Space(Frames(s.ram), s.root)[v]
  {
    hide Run, AbsRun, Tree, Translate, Allowed;
    RunRefines(s, {}, ops);
    RunTranslation(AbsOf(s, {}), ops, v);
  }

  lemma RunData(entries: seq<Entry>, s: State, ops: seq<Op>)
    requires WellFormedMap(entries) && Valid(s, {}) && AllAllowed(s, ops)
    requires forall f: nat :: f in Free(s) ==> ShouldBeFree(entries, f)
    ensures Valid(Run(s, {}, ops).0, Run(s, {}, ops).1) && Clean(entries, Run(s, {}, ops).1)
  {
    hide Run, AbsRun, Tree, Translate, Allowed, WellFormedMap, Usable, Locked;
    var data := Run(s, {}, ops).1;
    RunRefines(s, {}, ops);
    RunAvailable(AbsOf(s, {}), ops);
    forall k: nat, b: nat | 0 <= k < |entries| && InEntry(entries[k], b) ensures b / PAGE_SIZE !in data {
      if b / PAGE_SIZE in data {
        assert Available(AbsOf(Run(s, {}, ops).0, data), b / PAGE_SIZE);
        HoldsReservedByte(entries[k], b / PAGE_SIZE);
        UsablePageIsClean(entries, b / PAGE_SIZE, k);
      }
    }
  }

  // From EarlyInit on, after any run: memory is still partitioned, no page ever
  // handed out as data holds a byte of an entry that is not usable, and every
  // page that no operation targeted translates as the loader had it.
  lemma BootedRun(entries: seq<Entry>, s0: State, s: State, ops: seq<Op>)
    requires WellFormedMap(entries) && Booted(entries, s0, s) && AllAllowed(s, ops)
    ensures var (s', data, ok) := Run(s, {}, ops);
      && Valid(s', data) && Clean(entries, data)
      && (ok ==> forall v: nat :: v < VPN_LIMIT && Untouched(ops, v) ==> AsLoaded(s0, s', v))
  {
    hide Run, Tree, Translate, Allowed, WellFormedMap, ShouldBeFree, Clean, Untouched, Free;
    RunData(entries, s, ops);
    forall v: nat | v < VPN_LIMIT && Untouched(ops, v) && Run(s, {}, ops).2
      ensures AsLoaded(s0, Run(s, {}, ops).0, v)
    {
      RunKeeps(s, ops, v);
    }
  }

  // ------------------------------------------------------------- the heap

  // A run within the heap's 2^48 addresses never wraps.
  lemma {:induction false} RoomyGuarded(a: Abs, h: Heap.Pointers, amounts: seq<u64>)
    requires Heap.Ordered(h) && HeapPages.AllRoomy(a, h, amounts)
    ensures Heap.Guarded(a, h, amounts)
    decreases |amounts|
  {
    hide Heap.Kmalloc, Heap.NoWrapAround, HeapPages.Roomy, Heap.Ordered;
    if amounts != [] {
      HeapPages.RoomyNoWrap(h, amounts[0]);
      var (a1, h1, at) := Heap.Kmalloc(a, h, amounts[0]);
      if at.Some? {
        Heap.KmallocOrderedIff(a, h, amounts[0]);
        RoomyGuarded(a1, h1, amounts[1..]);
      }
    }
  }

  // Page w leads to a frame that holds no byte of an entry that is not usable.
  ghost predicate CleanPage(entries: seq<Entry>, a: Abs, w: nat) {
    w in a.space && a.space[w].Some?
    && forall k :: 0 <= k < |entries| ==> !HoldsReserved(entries[k], a.space[w].value.frame)
  }

  // Page w translates in a as under the boot loader's tables.
  ghost predicate LoadedPage(s0: State, a: Abs, w: nat)
    requires w < VPN_LIMIT
  {
    w in a.space && a.space[w] == if Index(w, 0) < 256 then None else Space(Frames(s0.ram), s0.root)[w]
  }

  // From EarlyInit through the heap's set-up and any run of kmalloc: the blocks
  // tile the heap, which is never quite full; the heap's pages but its first and
  // the one past the initial heap lead to data pages of their own that hold
  // nothing of an entry that is not usable; every other page translates as the
  // loader had it.
  lemma BootedHeap(entries: seq<Entry>, s0: State, s: State, start: u64, heapBytes: u64, oldEnd: u64, amounts: seq<u64>)
    returns (g: nat)
    requires WellFormedMap(entries) && Booted(entries, s0, s)
    requires heapBytes >= PAGE_SIZE && start >= PAGE_SIZE && HeapPages.Room(start, heapBytes / PAGE_SIZE)
    requires HeapPages.Init(AbsOf(s, {}), start, heapBytes, oldEnd).2
    requires var (a1, h1, _) := HeapPages.Init(AbsOf(s, {}), start, heapBytes, oldEnd);
      HeapPages.AllRoomy(a1, h1, amounts)
    ensures var (a1, h1, _) := HeapPages.Init(AbsOf(s, {}), start, heapBytes, oldEnd);
      var (a, h, bs, _) := Heap.Blocks(a1, h1, amounts);
      var n := heapBytes / PAGE_SIZE;
      && h.start == start && Heap.Ordered(h) && h.current < h.end && Heap.Tile(bs, start, h.current)
      && HeapPages.HeapAt(AbsOf(s, {}), a, h, n, g)
      && forall w: nat :: w < VPN_LIMIT ==>
           if HeapPages.IsHeapPage(Vpn(start), Vpn(start) + n + g, Vpn(start) + n, w) then CleanPage(entries, a, w)
           else LoadedPage(s0, a, w)
  {
    hide HeapPages.Init, Heap.Blocks, Heap.Tile, HeapPages.Mapped, HeapPages.AllRoomy, HeapPages.Room, AbsOf, Tree, Free,
         HeapPages.IsHeapPage, Heap.Guarded;
    var a0 := AbsOf(s, {});
    var (a1, h1, _) := HeapPages.Init(a0, start, heapBytes, oldEnd);
    var n := heapBytes / PAGE_SIZE;
    HeapPages.MachineAbs(s, {});
    var _ := HeapPages.InitMaps(a0, start, heapBytes, oldEnd);
    RoomyGuarded(a1, h1, amounts);
    Heap.BlocksTile(a1, h1, amounts);
    g := HeapPages.RunMaps(a0, a1, h1, n, 0, amounts);
    var a := Heap.Blocks(a1, h1, amounts).0;
    forall w: nat | w < VPN_LIMIT
      ensures if HeapPages.IsHeapPage(Vpn(start), Vpn(start) + n + g, Vpn(start) + n, w) then CleanPage(entries, a, w)
              else LoadedPage(s0, a, w)
    {
      HeapPageOrigin(entries, s0, s, a, Vpn(start), Vpn(start) + n + g, Vpn(start) + n, w);
    }
  }

  lemma HeapPageOrigin(entries: seq<Entry>, s0: State, s: State, a: Abs, lo: nat, hi: nat, hole: nat, w: nat)
    requires WellFormedMap(entries) && Booted(entries, s0, s) && w < VPN_LIMIT
    requires HeapPages.Mapped(AbsOf(s, {}), a, lo, hi, hole)
    ensures if HeapPages.IsHeapPage(lo, hi, hole, w) then CleanPage(entries, a, w) else LoadedPage(s0, a, w)
  {
    hide Tree, Translate, Locked;
    if HeapPages.IsHeapPage(lo, hi, hole, w) {
      assert HeapPages.Owned(AbsOf(s, {}), a, w);
      var f := a.space[w].value.frame;
      forall k | 0 <= k < |entries| ensures !HoldsReserved(entries[k], f) { UsablePageIsClean(entries, f, k); }
    }
  }
}
