// The bump heap as it runs: its three pointers over the machine
// (kernel/mem/alloc.cpp).
module KernelHeap {
  import opened Bits
  import opened Options
  import opened PhysicalMemory
  import opened PageTables
  import opened MemoryStack
  import opened Machine
  import opened Heap
  import HeapPages

  class KernelHeap {
    const machine: Machine
    var start: u64
    var current: u64
    var end: u64

    constructor (machine: Machine)
      ensures this.machine == machine && Pointers() == Heap.Pointers(0, 0, 0)
    {
      this.machine := machine;
      start, current, end := 0, 0, 0;
    }

    ghost function Pointers(): Pointers
      reads this
    {
      Heap.Pointers(start, current, end)
    }

    ghost function View(data: set<nat>): Abs
      reads machine, machine.ram
      requires Sound(machine.View())
    {
      AbsOf(machine.View(), data)
    }

    // No large page where the heap's next n pages go.
    ghost predicate RoomAbove(last: u64, n: nat, data: set<nat>)
      reads machine, machine.ram
      requires Sound(machine.View())
    {
      forall k :: 1 <= k <= n ==> Clear(View(data), Vpn(Plus(last, PAGE_SIZE * k)))
    }

    method IsOverflowingHeap(amount: u64) returns (overflowing: bool)
      ensures overflowing == Overflowing(Pointers(), amount)
      ensures current + amount < U64_LIMIT ==> (overflowing <==> end <= current + amount)
      ensures current + amount >= U64_LIMIT ==> (overflowing <==> U64_LIMIT + end <= current + amount)
    {
      PlusCases(current, amount);
      overflowing := Plus(current, amount) >= end;
    }

    // The caller's block, or None when the kernel panics.
    method Kmalloc(amount: u64, ghost data: set<nat>) returns (block: Option<u64>, ghost data': set<nat>)
      requires Valid(machine.View(), data) && RoomAbove(end, NeededPages(Pointers(), amount), data)
      modifies this, machine.ram
      ensures Valid(machine.View(), data')
      ensures (View(data'), Pointers(), block) == Heap.Kmalloc(old(View(data)), old(Pointers()), amount)
    {
      hide AbsAllocateAt, AbsOf, Sound, Tree;
      data' := data;
      if start == 0 { return None, data; }
      var overflowing := IsOverflowingHeap(amount);
      if overflowing {
        var pages := Plus(amount, 4095) / PAGE_SIZE;
        var ok;
        ok, end, data' := GrowBy(end, pages, data);
        if !ok { return None, data'; }
      }
      current := Plus(current, amount);
      PlusMinus(old(current), amount);
      block := Some(Plus(current, U64_LIMIT - amount));
    }

    // The page-mapping loop of kmalloc and Init: pages one after the other
    // above `last`; `top` is the last address returned.
    method GrowBy(last: u64, pages: nat, ghost data: set<nat>) returns (ok: bool, top: u64, ghost data': set<nat>)
      requires Valid(machine.View(), data) && RoomAbove(last, pages, data)
      modifies machine.ram
      ensures Valid(machine.View(), data')
      ensures (View(data'), top, ok) == Grow(old(View(data)), last, pages)
    {
      hide AbsAllocateAt, AbsOf, Sound, Tree, MemoryStack.AllocatePageAt, Vpn;
      ghost var a := View(data);
      top, data' := last, data;
      for i := 0 to pages
        invariant Valid(machine.View(), data') && View(data').large == a.large
        invariant top == Plus(last, PAGE_SIZE * i)
        invariant Grow(View(data'), top, pages - i) == Grow(a, last, pages)
      {
        PlusPlus(last, PAGE_SIZE * i, PAGE_SIZE);
        assert Plus(top, PAGE_SIZE) == Plus(last, PAGE_SIZE * (i + 1));
        ghost var before := View(data');
        assert Clear(a, Vpn(Plus(last, PAGE_SIZE * (i + 1))));
        var at;
        at, data' := machine.AllocatePageAt(Plus(top, PAGE_SIZE), data');
        AllocateKeepsLarge(before, Vpn(Plus(top, PAGE_SIZE)));
        if at.None? { return false, top, data'; }
        top := at.value;
      }
      ok := true;
    }

    // Sets the heap up at `start'`, the end of the kernel image.
    method Init(start': u64, heapBytes: u64, ghost data: set<nat>) returns (ok: bool, ghost data': set<nat>)
      requires Valid(machine.View(), data) && RoomAbove(start', HeapPages.FirstPages(heapBytes), data)
      modifies this, machine.ram
      ensures Valid(machine.View(), data')
      ensures (View(data'), Pointers(), ok) == HeapPages.Init(old(View(data)), start', heapBytes, old(end))
    {
      hide AbsAllocateAt, AbsOf, Sound, Tree, Grow;
      start := start';
      current := start;
      var last;
      ok, last, data' := GrowBy(start, (heapBytes / PAGE_SIZE + U64_LIMIT - 1) % U64_LIMIT, data);
      if ok { end := Plus(last, PAGE_SIZE); }
    }
  }

  lemma PlusMinus(x: u64, y: u64)
    ensures Plus(Plus(x, y), U64_LIMIT - y) == x
  {
    PlusPlus(x, y, U64_LIMIT - y);
  }

  lemma AllocateKeepsLarge(a: Abs, v: nat)
    ensures AbsAllocateAt(a, v).0.large == a.large
  {
    if a.free != [] {
      DescendKeepsLarge(a.(free := a.free[1..], data := a.data + {a.free[0]}), v, 0);
    }
  }

  lemma {:induction false} DescendKeepsLarge(a: Abs, v: nat, d: nat)
    requires d <= 3
    ensures AbsDescend(a, v, d).0.large == a.large
    decreases 3 - d
  {
    if d < 3 {
      var q := PathOf(v)[..d + 1];
      if q in a.linked {
        DescendKeepsLarge(a, v, d + 1);
      } else if a.free != [] {
        DescendKeepsLarge(WithLink(a, q), v, d + 1);
      }
    }
  }
}
