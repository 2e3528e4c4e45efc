// The kernel's memory code as it runs: the physical memory, the allocator's
// globals and CR3, and the functions of pmm.cpp, vmm.cpp and alloc-backend.cpp
// that change them.
module Machine {
  import opened Bits
  import opened Options
  import opened PhysicalMemory
  import opened PageAllocator
  import opened PageTables
  import opened MemoryStack
  import opened LargePages
  import opened MemoryMap
  import opened MemoryBoot

  class Machine {
    const ram: array<u8>   // physical memory, byte by byte
    var bitmap: nat        // physical address of the bitmap
    var totalPages: nat
    var bitmapSize: nat
    var cr3: u64

    constructor (size: nat)
      ensures fresh(ram) && ram.Length == size
    {
      ram := new u8[size];
      bitmap, totalPages, bitmapSize, cr3 := 0, 0, 0, 0;
    }

    // The memory stack's state; the walk starts at the frame CR3 names.
    ghost function View(): State
      reads this, ram
    {
      State(ram[..], bitmap, totalPages, FrameOf(cr3))
    }

    // ----------------------------------------------------------- bitmap bits

    method SetBit(p: nat)
      requires BitByte(bitmap, p) < ram.Length
      modifies ram
      ensures ram[..] == SetMark(old(ram[..]), bitmap, p)
    {
      MarkFits(ram[bitmap + p / 8], p);
      ram[bitmap + p / 8] := Or(ram[bitmap + p / 8], Pow2(p % 8));
    }

    method ClearBit(p: nat)
      requires BitByte(bitmap, p) < ram.Length
      modifies ram
      ensures ram[..] == ClearMark(old(ram[..]), bitmap, p)
    {
      ByteComplementBit(p % 8, 0);
      AndBelow(ram[bitmap + p / 8], 255 - Pow2(p % 8));
      ram[bitmap + p / 8] := And(ram[bitmap + p / 8], 255 - Pow2(p % 8));
    }

    method TestBit(p: nat) returns (set': bool)
      requires BitByte(bitmap, p) < ram.Length
      ensures set' == Marked(ram[..], bitmap, p)
    {
      AndPower(ram[bitmap + p / 8], p % 8);
      set' := And(ram[bitmap + p / 8], Pow2(p % 8)) != 0;
    }

    // ----------------------------------------------------------- allocation

    // The physical address of the lowest free page, now marked; None is the
    // panic, which changes nothing.
    method AllocatePage() returns (page: Option<nat>)
      requires InBounds(View().ram, bitmap, totalPages)
      modifies ram
      ensures match page
              case None => old(Free(View())) == [] && ram[..] == old(ram[..])
              case Some(a) => old(Free(View())) != [] && a == PAGE_SIZE * old(Free(View()))[0]
                              && Allocate(old(View())) == Some((View(), a / PAGE_SIZE))
    {
      for i := 0 to totalPages
        invariant ram[..] == old(ram[..])
        invariant forall q :: 0 <= q < i ==> Marked(ram[..], bitmap, q)
      {
        var used := TestBit(i);
        if !used {
          TakeFirst(ram[..], bitmap, totalPages, i);
          SetBit(i);
          return Some(PAGE_SIZE * i);
        }
      }
      FreeFromSkip(ram[..], bitmap, totalPages, 0, totalPages);
      return None;
    }

    // ----------------------------------------------------------- PMM::Init

    // Utils::memset at a physical address.
    method Memset(dest: nat, ch: u8, count: nat)
      requires dest + count <= ram.Length
      modifies ram
      ensures forall a :: 0 <= a < ram.Length ==> ram[a] == if dest <= a < dest + count then ch else old(ram[a])
    {
      for i := 0 to count
        invariant forall a :: 0 <= a < ram.Length ==> ram[a] == if dest <= a < dest + i then ch else old(ram[a])
      {
        ram[dest + i] := ch;
      }
    }

    // Every change init makes to bits stays within the first `pages` bits.
    ghost predicate BitsFit(pages: nat)
      reads this
    {
      bitmap + (pages + 7) / 8 <= ram.Length
    }

    twostate predicate OnlyBits(pages: nat)
      reads this, ram
    {
      forall a :: 0 <= a < ram.Length && !(bitmap <= a < bitmap + (pages + 7) / 8) ==> ram[a] == old(ram[a])
    }

    // SetBit on count pages from start, below the given limit.
    method LockPages(start: nat, count: nat, limit: nat, ghost pages: nat)
      requires BitsFit(pages) && (forall p: nat :: InPages(p, start, count) && p < limit ==> p < pages)
      modifies ram
      ensures forall p :: 0 <= p < pages ==>
        (Marked(ram[..], bitmap, p) <==> (InPages(p, start, count) && p < limit) || Marked(old(ram[..]), bitmap, p))
      ensures OnlyBits(pages)
    {
      for k := 0 to count
        invariant forall p :: 0 <= p < pages ==>
          (Marked(ram[..], bitmap, p) <==> (InPages(p, start, k) && p < limit) || Marked(old(ram[..]), bitmap, p))
        invariant OnlyBits(pages)
      {
        if start + k < limit {
          assert InPages(start + k, start, count);
          ghost var before := ram[..];
          SetBit(start + k);
          forall p | 0 <= p < pages
            ensures Marked(ram[..], bitmap, p) <==> p == start + k || Marked(before, bitmap, p)
          {
            SetMarkBit(before, bitmap, start + k, p);
          }
          assert forall a :: 0 <= a < ram.Length && a != bitmap + (start + k) / 8 ==> ram[..][a] == before[a];
        }
      }
    }

    method OpenPages(start: nat, count: nat, ghost pages: nat)
      requires BitsFit(pages) && (forall p: nat :: InPages(p, start, count) ==> p < pages)
      modifies ram
      ensures forall p :: 0 <= p < pages ==>
        (Marked(ram[..], bitmap, p) <==> !InPages(p, start, count) && Marked(old(ram[..]), bitmap, p))
      ensures OnlyBits(pages)
    {
      for k := 0 to count
        invariant forall p :: 0 <= p < pages ==>
          (Marked(ram[..], bitmap, p) <==> !InPages(p, start, k) && Marked(old(ram[..]), bitmap, p))
        invariant OnlyBits(pages)
      {
        assert InPages(start + k, start, count);
        ghost var before := ram[..];
        ClearBit(start + k);
        forall p | 0 <= p < pages
          ensures Marked(ram[..], bitmap, p) <==> p != start + k && Marked(before, bitmap, p)
        {
          ClearMarkBit(before, bitmap, start + k, p);
        }
        assert forall a :: 0 <= a < ram.Length && a != bitmap + (start + k) / 8 ==> ram[..][a] == before[a];
      }
    }

    method LockEntry(e: Entry, ghost pages: nat)
      requires BitsFit(pages) && totalPages <= pages && e.length + 4095 < U64_LIMIT
      modifies ram
      ensures forall p :: 0 <= p < pages ==>
        (Marked(ram[..], bitmap, p) <==> (Closes(e, p) && p < totalPages) || Marked(old(ram[..]), bitmap, p))
      ensures forall p :: 0 <= p < totalPages && !e.usable && e.base / 4096 <= p < e.base / 4096 + (e.length + 4095) / 4096 ==>
        Marked(ram[..], bitmap, p)
      ensures OnlyBits(pages)
    {
      if !e.usable {
        LockPages(e.base / PAGE_SIZE, (e.length + 4095) / PAGE_SIZE, totalPages, pages);
      }
    }

    method OpenEntry(e: Entry, ghost pages: nat)
      requires BitsFit(pages) && forall p: nat :: Opens(e, p) ==> p < pages
      modifies ram
      ensures forall p :: 0 <= p < pages ==>
        (Marked(ram[..], bitmap, p) <==> !Opens(e, p) && Marked(old(ram[..]), bitmap, p))
      ensures OnlyBits(pages)
    {
      if e.usable {
        assert forall p: nat :: InPages(p, e.base / PAGE_SIZE, e.length / PAGE_SIZE) ==> Opens(e, p);
        OpenPages(e.base / PAGE_SIZE, e.length / PAGE_SIZE, pages);
      }
    }

    // Sizes the bitmap and places it in the first usable entry that can hold it.
    method PlaceBitmap(entries: seq<Entry>)
      requires NoWrap(entries)
      modifies this`bitmap, this`totalPages, this`bitmapSize
      ensures totalPages == Pages(entries) && bitmapSize == BitmapBytes(entries) && bitmap == BitmapBase(entries)
    {
      var highest := 0;
      for i := 0 to |entries|
        invariant highest == Highest(entries[..i])
      {
        assert entries[..i + 1][..i] == entries[..i];
        if entries[i].usable {
          var top := entries[i].base + entries[i].length;
          if top > highest { highest := top; }
        }
      }
      assert entries[..|entries|] == entries;
      totalPages := highest / PAGE_SIZE;
      bitmapSize := totalPages / 8;

      bitmap := 0;
      for i := 0 to |entries|
        invariant bitmap == 0 && Spot(entries, bitmapSize, i) == Spot(entries, bitmapSize, 0)
        invariant totalPages == Pages(entries) && bitmapSize == BitmapBytes(entries)
      {
        if entries[i].usable && entries[i].length >= bitmapSize && entries[i].base > 0 {
          bitmap := entries[i].base;
          break;
        }
      }
    }

    ghost predicate Placed(entries: seq<Entry>)
      reads this
    {
      && totalPages == Pages(entries) && bitmapSize == BitmapBytes(entries) && bitmap == BitmapBase(entries)
      && BitsFit(TouchedPages(entries))
    }

    // Locks everything, then opens the usable entries' pages.
    method OpenUsable(entries: seq<Entry>)
      requires Placed(entries)
      modifies ram
      ensures OnlyBits(TouchedPages(entries))
      ensures forall p :: 0 <= p < TouchedPages(entries) ==>
        (Marked(ram[..], bitmap, p) <==>
         !Usable(entries, p) && (p / 8 < bitmapSize || Marked(old(ram[..]), bitmap, p)))
    {
      ghost var pages := TouchedPages(entries);
      Memset(bitmap, 0xFF, bitmapSize);
      forall p | 0 <= p < pages
        ensures Marked(ram[..], bitmap, p) <==> p / 8 < bitmapSize || Marked(old(ram[..]), bitmap, p)
      {
        AllOnesByte(p % 8);
      }
      for i := 0 to |entries|
        invariant forall p :: 0 <= p < pages ==>
          (Marked(ram[..], bitmap, p) <==>
           !Usable(entries[..i], p) && (p / 8 < bitmapSize || Marked(old(ram[..]), bitmap, p)))
        invariant OnlyBits(pages)
      {
        forall p: nat | Opens(entries[i], p) ensures p < pages { OpenedInRange(entries, i, p); }
        OpenEntry(entries[i], pages);
        UsableStep(entries, i);
      }
      assert entries[..|entries|] == entries;
    }

    // Locks page 0, the bitmap's own pages, the first 256 pages and every entry
    // that is not usable.
    method LockReserved(entries: seq<Entry>)
      requires WellFormedMap(entries) && NoWrap(entries) && Placed(entries)
      modifies ram
      ensures OnlyBits(TouchedPages(entries))
      ensures forall p :: 0 <= p < totalPages ==>
        (Marked(ram[..], bitmap, p) <==> Locked(entries, p) || Marked(old(ram[..]), bitmap, p))
      ensures forall p, k :: 0 <= p < totalPages && 0 <= k < |entries| && !entries[k].usable
                             && entries[k].base / 4096 <= p < entries[k].base / 4096 + (entries[k].length + 4095) / 4096
                             ==> Marked(ram[..], bitmap, p)
    {
      ghost var pages := TouchedPages(entries);
      LockPages(0, 1, 1, pages);
      var start, count := bitmap / PAGE_SIZE, (bitmapSize + 4095) / PAGE_SIZE;
      forall p: nat | InPages(p, start, count) ensures p < pages { MapPageInRange(entries, p); }
      LockPages(start, count, start + count, pages);
      LockPages(0, 256, 256, pages);
      for i := 0 to |entries|
        invariant forall p :: 0 <= p < totalPages ==>
          (Marked(ram[..], bitmap, p) <==>
           p < 256 || HoldsMap(entries, p) || Reserved(entries[..i], p) || Marked(old(ram[..]), bitmap, p))
        invariant OnlyBits(pages)
      {
        LockEntry(entries[i], pages);
        ReservedStep(entries, i);
      }
      assert entries[..|entries|] == entries;
      forall p, k | 0 <= p < totalPages && 0 <= k < |entries| && !entries[k].usable
                    && entries[k].base / 4096 <= p < entries[k].base / 4096 + (entries[k].length + 4095) / 4096
        ensures Marked(ram[..], bitmap, p)
      {
        assert Closes(entries[k], p);
      }
    }

    // Leaves exactly the bits FreeAfterInit describes clear; nothing outside
    // the bitmap's bytes changes.
    method PmmInit(entries: seq<Entry>)
      requires WellFormedMap(entries) && NoWrap(entries) && MapFits(entries, ram.Length)
      modifies this`bitmap, this`totalPages, this`bitmapSize, ram
      ensures Placed(entries) && OnlyBits(TouchedPages(entries))
      ensures forall p :: 0 <= p < totalPages ==>
        (!Marked(ram[..], bitmap, p) <==> FreeAfterInit(entries, p, Marked(old(ram[..]), bitmap, p)))
      ensures forall p, k :: 0 <= p < totalPages && 0 <= k < |entries| && !entries[k].usable
                             && entries[k].base / 4096 <= p < entries[k].base / 4096 + (entries[k].length + 4095) / 4096
                             ==> Marked(ram[..], bitmap, p)
      ensures LoadableMap(entries, ram.Length) ==> (Sound(View()) <==> TailNotFree(entries))
    {
      ghost var before := ram[..];
      PlaceBitmap(entries);
      OpenUsable(entries);
      LockReserved(entries);
      if LoadableMap(entries, ram.Length) {
        assert AfterInit(entries, View(), before);
        InitSoundIff(entries, View(), before);
      }
    }

    // ----------------------------------------------------------- page tables

    // One 64-bit load and one 64-bit store, as the processor does them.
    method ReadEntry(f: nat, i: nat) returns (e: u64)
      requires f < ram.Length / PAGE_SIZE && i < ENTRIES
      ensures e == Load64(ram[..], EntryAddress(f, i))
    {
      var a := EntryAddress(f, i);
      assert ram[..][a..a + 8] == ram[a..a + 8];
      FromBytesBelow(ram[a..a + 8]);
      assert Bound(8) == U64_LIMIT;
      e := FromBytes(ram[a..a + 8]);
    }

    method WriteEntry(f: nat, i: nat, e: u64)
      requires f < ram.Length / PAGE_SIZE && i < ENTRIES
      modifies ram
      ensures ram[..] == Store64(old(ram[..]), EntryAddress(f, i), e)
    {
      var a := EntryAddress(f, i);
      var bytes := ToBytes(e, 8);
      forall k | 0 <= k < 8 {
        ram[a + k] := bytes[k];
      }
    }

    method ZeroPage(page: nat)
      requires page % PAGE_SIZE == 0 && page + PAGE_SIZE <= ram.Length
      modifies ram
      ensures ram[..] == ZeroFrame(old(ram[..]), page / PAGE_SIZE)
    {
      for i := 0 to PAGE_SIZE
        invariant forall a :: page <= a < page + i ==> ram[a] == 0
        invariant forall a :: 0 <= a < page || page + i <= a < ram.Length ==> ram[a] == old(ram[a])
      {
        ram[page + i] := 0;
      }
    }

    // The source's null check after AllocatePage has no counterpart: page 0 is
    // never free in a sound state, so an allocation that returns is not null.
    method GetNextTable(f: nat, i: nat) returns (table: Option<nat>)
      requires Sound(View()) && f < ram.Length / PAGE_SIZE && i < ENTRIES
      modifies ram
      ensures (View(), table) == NextTable(old(View()), f, i)
    {
      var e := ReadEntry(f, i);
      if And(e, PTE_PRESENT) == 0 {
        var page := AllocatePage();
        match page {
          case None => return None;
          case Some(phys) =>
            ghost var s1 := View();
            var g := phys / PAGE_SIZE;
            assert g < FRAME_LIMIT && g < FrameCount(s1.ram) by {
              FreeFromMember(old(View()).ram, bitmap, totalPages, 0, g);
            }
            ZeroPage(phys);
            TableEntryLink(g, 0);
            assert TableEntry(g) == Or(Or(phys, PTE_PRESENT), PTE_WRITABLE);
            WriteEntry(f, i, Or(Or(phys, PTE_PRESENT), PTE_WRITABLE));
            EntryReadBack(ZeroFrame(s1.ram, g), f, i, TableEntry(g));
        }
      }
      e := ReadEntry(f, i);
      table := Some(And(e, ADDRESS_MASK) / PAGE_SIZE);
    }

    // MapPage's three GetNextTable calls, whatever entries they meet; they must
    // not lead outside memory.
    method FindTable(pml4: nat, virt: u64) returns (pt: Option<nat>)
      requires Sound(View()) && pml4 == FrameOf(cr3) && !Calls(View(), pml4, 0, Vpn(virt)).Astray?
      modifies ram
      ensures match old(Calls(View(), pml4, 0, Vpn(virt)))
              case Found(s, f) => View() == s && pt == Some(f) && f < FrameCount(s.ram)
              case Panicked(s) => View() == s && pt == None
              case Astray(_) => false
    {
      hide Sound, NextTable, Vpn, Index, Calls;
      ghost var s := View();
      ghost var v := Vpn(virt);
      ShiftedIndex(virt);
      CallsUnfold(s, pml4, 0, v);
      var pdpt := GetNextTable(pml4, And(virt / 0x80_0000_0000, 0x1FF));
      if pdpt.None? { return None; }
      ghost var s1 := View();
      CallsUnfold(s1, pdpt.value, 1, v);
      var pd := GetNextTable(pdpt.value, And(virt / 0x4000_0000, 0x1FF));
      if pd.None? { return None; }
      ghost var s2 := View();
      CallsUnfold(s2, pd.value, 2, v);
      pt := GetNextTable(pd.value, And(virt / 0x20_0000, 0x1FF));
      if pt.Some? { CallsEnd(View(), pt.value, v); }
    }

    // Maps the page of virt to the page of phys under the table root pml4;
    // false is the panic of an allocation.  With no large page on the way the
    // machine has done what the abstract machine does: no other page's
    // translation changed.
    method MapPage(pml4: nat, virt: u64, phys: u64, flags: u64, ghost data: set<nat>) returns (ok: bool)
      requires Sound(View()) && pml4 == FrameOf(cr3) && !MapCall(View(), virt, phys, flags).Astray?
      modifies ram
      ensures View() == old(MapCall(View(), virt, phys, flags)).s && ok == old(MapCall(View(), virt, phys, flags)).Found?
      ensures old(Valid(View(), data) && Clear(AbsOf(View(), data), Vpn(virt))) ==>
        Valid(View(), data)
        && (AbsOf(View(), data), ok) == AbsMap(old(AbsOf(View(), data)), Vpn(virt), LeafMapping(phys, flags))
    {
      ghost var s := View();
      if Valid(s, data) && Clear(AbsOf(s, data), Vpn(virt)) {
        MapPageRefines(s, data, virt, phys, flags);
        ClearCall(s, virt, phys, flags);
      }
      hide Valid, Clear, AbsOf, Sound, Vpn, Index, Calls, MemoryStack.MapPage, AbsMap, LeafMapping;
      var pt := FindTable(pml4, virt);
      if pt.None? { return false; }
      ShiftedIndex(virt);
      WriteEntry(pt.value, And(virt / 0x1000, 0x1FF), Or(Or(And(phys, ADDRESS_MASK), flags), PTE_PRESENT));
      return true;
    }

    // Allocates a page and maps it writable at virt.
    method AllocatePageAt(virt: u64, ghost data: set<nat>) returns (at: Option<u64>, ghost data': set<nat>)
      requires Valid(View(), data) && Clear(AbsOf(View(), data), Vpn(virt))
      modifies ram
      ensures Valid(View(), data')
      ensures (AbsOf(View(), data'), at.Some?) == AbsAllocateAt(old(AbsOf(View(), data)), Vpn(virt))
      ensures at.Some? ==> at.value == virt
      ensures (View(), data', at.Some?) == MemoryStack.AllocatePageAt(old(View()), data, virt)
    {
      ghost var s := View();
      AllocatePageAtRefines(s, data, virt);
      data' := data;
      var page := AllocatePage();
      if page.None? { return None, data; }
      AllocateStep(s, data);
      data' := data + {page.value / PAGE_SIZE};
      ClearFor(View(), data', virt);
      ClearCall(View(), virt, page.value, PTE_WRITABLE);
      var ok := MapPage(And(cr3, ADDRESS_MASK) / PAGE_SIZE, virt, page.value, PTE_WRITABLE, data');
      at := if ok then Some(virt) else None;
    }

    // Maps a given physical page writable at virt.
    method MapVirtual(virt: u64, phys: u64, ghost data: set<nat>) returns (ok: bool)
      requires Sound(View()) && !MapCall(View(), virt, phys, PTE_WRITABLE).Astray?
      modifies ram
      ensures View() == old(MapCall(View(), virt, phys, PTE_WRITABLE)).s
      ensures ok == old(MapCall(View(), virt, phys, PTE_WRITABLE)).Found?
      ensures old(Valid(View(), data) && Clear(AbsOf(View(), data), Vpn(virt))) ==>
        Valid(View(), data)
        && (AbsOf(View(), data), ok)
           == AbsMap(old(AbsOf(View(), data)), Vpn(virt), Mapping(FrameOf(phys), Or(PTE_WRITABLE, PTE_PRESENT)))
    {
      PageAddressFrame(0);
      LeafMappingIff(phys, PTE_WRITABLE);
      ok := MapPage(And(cr3, ADDRESS_MASK) / PAGE_SIZE, virt, phys, PTE_WRITABLE, data);
    }

    // ----------------------------------------------------------- Arch::EarlyInit

    // Fills frame new' with the clone of the table in frame root.
    method BuildPml4(new': nat, root: nat)
      requires new' < ram.Length / PAGE_SIZE && root < ram.Length / PAGE_SIZE && new' != root
      modifies ram
      ensures |Frames(ram[..])| == |old(Frames(ram[..]))|
      ensures forall f :: 0 <= f < ram.Length / PAGE_SIZE && f != new' ==> Frames(ram[..])[f] == old(Frames(ram[..]))[f]
      ensures Cloned(Frames(ram[..])[new'], old(Frames(ram[..]))[root])
      ensures forall a :: 0 <= a < ram.Length && a / PAGE_SIZE != new' ==> ram[a] == old(ram[a])
    {
      ghost var t := Frames(ram[..]);
      ghost var table := t[new'];
      for i := 0 to ENTRIES
        invariant Frames(ram[..]) == t[new' := table]
        invariant forall j :: 0 <= j < i ==> table[j] == 0
        invariant forall a :: 0 <= a < ram.Length && a / PAGE_SIZE != new' ==> ram[a] == old(ram[a])
      {
        StoreOneEntry(ram[..], new', i, 0);
        StoreLocal(ram[..], new', i, 0);
        WriteEntry(new', i, 0);
        table := table[i := 0];
      }
      for i := 256 to ENTRIES
        invariant Frames(ram[..]) == t[new' := table]
        invariant forall j :: 0 <= j < i ==> table[j] == if j < 256 then 0 else t[root][j]
        invariant forall a :: 0 <= a < ram.Length && a / PAGE_SIZE != new' ==> ram[a] == old(ram[a])
      {
        var e := ReadEntry(root, i);
        assert e == Frames(ram[..])[root][i];
        StoreOneEntry(ram[..], new', i, e);
        StoreLocal(ram[..], new', i, e);
        WriteEntry(new', i, e);
        table := table[i := e];
      }
    }

    // Sets up the allocator, builds the kernel's PML4 in the lowest free page
    // and switches to it; false is the panic of that allocation.  The result is
    // the intended one exactly when the bitmap's tail page is not handed out.
    method EarlyInit(entries: seq<Entry>) returns (ok: bool)
      requires LoadableMap(entries, ram.Length) && NoStaleBits(entries)
      requires Tree(Frames(ram[..]), FrameOf(cr3), UsableFrames(entries))
      modifies this, ram
      ensures ok <==> exists p: nat :: p < Pages(entries) && ShouldBeFree(entries, p)
      ensures ok ==> (Booted(entries, old(View()), View()) <==> TailNotFree(entries))
    {
      ghost var s0 := View();
      LoadableFits(entries, ram.Length);
      PmmInit(entries);
      ghost var s1 := View();
      PrepareRoot(entries, s0, s1);
      ok := SwitchRoot(entries, s0);
    }

    // EarlyInit's second half: the root table and CR3.
    method SwitchRoot(entries: seq<Entry>, ghost s0: State) returns (ok: bool)
      requires Prepared(entries, s0, View())
      modifies `cr3, ram
      ensures ok <==> exists p: nat :: p < Pages(entries) && ShouldBeFree(entries, p)
      ensures ok ==> (Booted(entries, s0, View()) <==> TailNotFree(entries))
    {
      hide Prepared, Booted, TailNotFree, Tree, Cloned, Frames, ShouldBeFree, BitmapFrames;
      ghost var s1 := View();
      FreeIffAny(entries, s0, s1);
      var page := AllocatePage();
      if page.None? { return false; }
      ghost var s2 := View();
      var pml4 := page.value / PAGE_SIZE;
      RootFrame(entries, s0, s1, s2, pml4);
      BuildPml4(pml4, And(cr3, ADDRESS_MASK) / PAGE_SIZE);
      cr3 := page.value;
      PageAddressFrame(pml4);
      BootIff(entries, s0, s1, s2, View());
      return true;
    }
  }

  // Every page whose bit the 0xFF fill misses is set by a later step; by
  // InitExactIff this is when init does not depend on what memory held.
  predicate NoStaleBits(entries: seq<Entry>) {
    forall p :: 8 * BitmapBytes(entries) <= p < Pages(entries) ==> Usable(entries, p) || Locked(entries, p)
  }

  // What EarlyInit achieves: a valid memory stack whose root was free and is in
  // no table of the loader's, whose free pages are the intended ones but the
  // root, and whose address space is the loader's upper half.
  ghost predicate Booted(entries: seq<Entry>, s0: State, s: State) {
    && s.totalPages == Pages(entries) && Valid(s, {})
    && ShouldBeFree(entries, s.root)
    && (forall q :: IsPath(q) ==> Walk(Frames(s0.ram), s0.root, q) != Some(s.root))
    && (forall p: nat :: p in Free(s) <==> p < Pages(entries) && ShouldBeFree(entries, p) && p != s.root)
    && (forall p: nat :: p in Free(s) ==> s.root < p)
    && (forall v: nat :: v < VPN_LIMIT ==>
          Space(Frames(s.ram), s.root)[v] == if Index(v, 0) < 256 then None else Space(Frames(s0.ram), s0.root)[v])
  }

  // The state s1 that init leaves of s0, with the loader's root still in place.
  ghost predicate Prepared(entries: seq<Entry>, s0: State, s1: State) {
    && WellFormedMap(entries) && BitmapBase(entries) > 0
    && Tree(Frames(s0.ram), s0.root, UsableFrames(entries))
    && |s1.ram| == |s0.ram| && s1.root == s0.root < FrameCount(s0.ram) && s0.root !in UsableFrames(entries)
    && s1.totalPages == Pages(entries) && s1.bitmap == BitmapBase(entries)
    && InBounds(s1.ram, s1.bitmap, s1.totalPages) && PAGE_SIZE * s1.totalPages <= |s1.ram| <= PAGE_SIZE * FRAME_LIMIT
    && (Sound(s1) <==> TailNotFree(entries)) && BitmapFrames(s1) <= UsableFrames(entries)
    && (forall p: nat :: p in Free(s1) <==> p < Pages(entries) && ShouldBeFree(entries, p))
    && (forall f :: 0 <= f < FrameCount(s0.ram) && f !in UsableFrames(entries) ==> Frames(s1.ram)[f] == Frames(s0.ram)[f])
  }

  lemma PrepareRoot(entries: seq<Entry>, s0: State, s1: State)
    requires LoadableMap(entries, |s0.ram|) && NoStaleBits(entries) && AfterInit(entries, s1, s0.ram)
    requires Tree(Frames(s0.ram), s0.root, UsableFrames(entries)) && s1.root == s0.root
    requires forall a :: 0 <= a < |s0.ram| && !(s1.bitmap <= a < s1.bitmap + (TouchedPages(entries) + 7) / 8) ==>
                           s1.ram[a] == s0.ram[a]
    ensures Prepared(entries, s0, s1)
  {
    assert Walk(Frames(s0.ram), s0.root, []) == Some(s0.root);
    LoadableFits(entries, |s0.ram|);
    InitSoundIff(entries, s1, s0.ram);
    FreeAfter(entries, s1, s0.ram);
    FramesOutside(s0.ram, s1.ram, s1.bitmap, s1.bitmap + (TouchedPages(entries) + 7) / 8, UsableFrames(entries));
    InitFree(entries, s1, s0.ram);
  }

  lemma FreeIffAny(entries: seq<Entry>, s0: State, s1: State)
    requires Prepared(entries, s0, s1)
    ensures InBounds(s1.ram, s1.bitmap, s1.totalPages)
    ensures Free(s1) != [] <==> exists p: nat :: p < Pages(entries) && ShouldBeFree(entries, p)
  {
    if Free(s1) != [] { assert Free(s1)[0] in Free(s1); }
  }

  lemma RootFrame(entries: seq<Entry>, s0: State, s1: State, s2: State, g: nat)
    requires Prepared(entries, s0, s1) && Allocate(s1) == Some((s2, g))
    ensures g < FrameCount(s2.ram) && g < FRAME_LIMIT && g != s0.root
    ensures |s2.ram| == |s1.ram| && s1.root == s0.root < FrameCount(s2.ram)
  {
    TakenRoot(entries, s1, s2, g);
  }

  lemma BootIff(entries: seq<Entry>, s0: State, s1: State, s2: State, s3: State)
    requires Prepared(entries, s0, s1) && Allocate(s1) == Some((s2, s3.root))
    requires s3 == s2.(ram := s3.ram, root := s3.root) && |s3.ram| == |s2.ram| == |s1.ram|
    requires forall f :: 0 <= f < FrameCount(s2.ram) && f != s3.root ==> Frames(s3.ram)[f] == Frames(s2.ram)[f]
    requires s3.root < FrameCount(s3.ram) && Cloned(Frames(s3.ram)[s3.root], Frames(s2.ram)[s0.root])
    requires forall a :: 0 <= a < |s2.ram| && a / PAGE_SIZE != s3.root ==> s3.ram[a] == s2.ram[a]
    ensures Booted(entries, s0, s3) <==> TailNotFree(entries)
  {
    if TailNotFree(entries) {
      BootFinish(entries, s0, s1, s2, s3);
    } else {
      BootFails(entries, s1, s2, s3);
    }
  }

  lemma InitFree(entries: seq<Entry>, s1: State, before: Ram)
    requires NoStaleBits(entries) && s1.totalPages == Pages(entries) && InBounds(s1.ram, s1.bitmap, s1.totalPages)
    requires s1.bitmap == BitmapBase(entries) && |before| == |s1.ram|
    requires forall p :: p in Free(s1) <==>
      0 <= p < s1.totalPages && FreeAfterInit(entries, p, Marked(before, s1.bitmap, p))
    ensures forall p: nat :: p in Free(s1) <==> p < Pages(entries) && ShouldBeFree(entries, p)
  {
    InitExactIff(entries);
  }

  lemma TakenRoot(entries: seq<Entry>, s1: State, s2: State, g: nat)
    requires InBounds(s1.ram, s1.bitmap, s1.totalPages) && PAGE_SIZE * s1.totalPages <= |s1.ram| <= PAGE_SIZE * FRAME_LIMIT
    requires Allocate(s1) == Some((s2, g)) && BitmapFrames(s1) <= UsableFrames(entries)
    ensures g < FrameCount(s1.ram) && g < FRAME_LIMIT && g in Free(s1)
    ensures |s2.ram| == |s1.ram| && Free(s1) == [g] + Free(s2)
    ensures forall f :: 0 <= f < FrameCount(s1.ram) && f !in UsableFrames(entries) ==> Frames(s2.ram)[f] == Frames(s1.ram)[f]
  {
    FirstIsFirst(s1);
    TakeFirst(s1.ram, s1.bitmap, s1.totalPages, g);
    MarkByteInBitmap(s1, g);
    ByteStoreLocal(s1.ram, BitByte(s1.bitmap, g), s2.ram[BitByte(s1.bitmap, g)]);
  }

  lemma BootFinish(entries: seq<Entry>, s0: State, s1: State, s2: State, s3: State)
    requires Tree(Frames(s0.ram), s0.root, UsableFrames(entries)) && s0.root < FrameCount(s0.ram)
    requires |s1.ram| == |s0.ram| && s1.root == s0.root && s1.totalPages == Pages(entries)
    requires forall f :: 0 <= f < FrameCount(s0.ram) && f !in UsableFrames(entries) ==> Frames(s1.ram)[f] == Frames(s0.ram)[f]
    requires Sound(s1) && BitmapFrames(s1) <= UsableFrames(entries) && Allocate(s1) == Some((s2, s3.root))
    requires forall p: nat :: p in Free(s1) <==> p < Pages(entries) && ShouldBeFree(entries, p)
    requires s3 == s2.(ram := s3.ram, root := s3.root) && |s3.ram| == |s2.ram| == |s1.ram|
    requires forall f :: 0 <= f < FrameCount(s2.ram) && f != s3.root ==> Frames(s3.ram)[f] == Frames(s2.ram)[f]
    requires s3.root < FrameCount(s3.ram) && Cloned(Frames(s3.ram)[s3.root], Frames(s2.ram)[s0.root])
    requires forall a :: 0 <= a < |s2.ram| && a / PAGE_SIZE != s3.root ==> s3.ram[a] == s2.ram[a]
    ensures Booted(entries, s0, s3)
  {
    var g := s3.root;
    TakenRoot(entries, s1, s2, g);
    assert g in Free(s1);
    assert s0.root !in UsableFrames(entries) by {
      assert Walk(Frames(s0.ram), s0.root, []) == Some(s0.root);
    }
    var t0, t3 := Frames(s0.ram), Frames(s3.ram);
    assert CloneStep(t0, t3, s0.root, UsableFrames(entries), g);
    CloneTree(t0, t3, s0.root, UsableFrames(entries), g);
    forall v: nat | v < VPN_LIMIT
      ensures Space(t3, g)[v] == if Index(v, 0) < 256 then None else Space(t0, s0.root)[v]
    {
      CloneSpace(t0, t3, s0.root, UsableFrames(entries), g, v);
    }
    FrameOffBitmap(s2, s3, g);
    TailOfFree(s1);
    FreeFromSorted(s1.ram, s1.bitmap, s1.totalPages, 0);
    assert BitmapFrames(s2) == BitmapFrames(s1);
    BootValid(entries, s3);
  }

  // A free tail page ends up holding bitmap bits and being free, or being the
  // root table.
  lemma BootFails(entries: seq<Entry>, s1: State, s2: State, s3: State)
    requires WellFormedMap(entries) && BitmapBase(entries) > 0 && !TailNotFree(entries)
    requires InBounds(s1.ram, s1.bitmap, s1.totalPages) && PAGE_SIZE * s1.totalPages <= |s1.ram| <= PAGE_SIZE * FRAME_LIMIT
    requires s1.totalPages == Pages(entries) && s1.bitmap == BitmapBase(entries)
    requires forall p: nat :: p in Free(s1) <==> p < Pages(entries) && ShouldBeFree(entries, p)
    requires BitmapFrames(s1) <= UsableFrames(entries) && Allocate(s1) == Some((s2, s3.root))
    requires s3 == s2.(ram := s3.ram, root := s3.root) && |s3.ram| == |s2.ram|
    requires forall a :: 0 <= a < |s2.ram| && a / PAGE_SIZE != s3.root ==> s3.ram[a] == s2.ram[a]
    ensures !Valid(s3, {})
  {
    var g, tail := s3.root, TailPage(entries);
    TakenRoot(entries, s1, s2, g);
    BitmapFramesAre(entries, s1, tail);
    BitmapFramesAre(entries, s1, g);
    assert BitmapFrames(s2) == BitmapFrames(s1);
    if g == tail {
      assert BitmapFrames(s3) == BitmapFrames(s1);
      assert Walk(Frames(s3.ram), g, []) == Some(g);
    } else {
      assert tail in Free(s1);
      FrameOffBitmap(s2, s3, g);
      assert tail in Free(s3) && tail in BitmapFrames(s3);
    }
  }

  // One GetNextTable call is one step of the calls.
  lemma CallsUnfold(s: State, f: nat, d: nat, v: nat)
    requires Sound(s) && d < 3 && !Calls(s, f, d, v).Astray?
    ensures f < FrameCount(s.ram)
    ensures match NextTable(s, f, Index(v, d))
            case (s1, None) => Calls(s, f, d, v) == Panicked(s1)
            case (s1, Some(g)) => Sound(s1) && Calls(s, f, d, v) == Calls(s1, g, d + 1, v)
  {
  }

  lemma CallsEnd(s: State, f: nat, v: nat)
    requires Sound(s) && !Calls(s, f, 3, v).Astray?
    ensures Calls(s, f, 3, v) == Found(s, f) && f < FrameCount(s.ram)
  {
  }

  lemma ClearFor(s: State, data: set<nat>, virt: u64)
    requires Valid(s, data) && Clear(AbsOf(s, data), Vpn(virt))
    ensures Valid(s, {}) && Clear(AbsOf(s, {}), Vpn(virt))
  {
    Weaken(s, data);
  }

  lemma StoreLocal(ram: Ram, f: nat, i: nat, e: u64)
    requires f < FrameCount(ram) && i < ENTRIES
    ensures forall a :: 0 <= a < |ram| && a / PAGE_SIZE != f ==> Store64(ram, EntryAddress(f, i), e)[a] == ram[a]
  {
  }

  lemma EntryReadBack(ram: Ram, f: nat, i: nat, e: u64)
    requires f < FrameCount(ram) && i < ENTRIES
    ensures Load64(Store64(ram, EntryAddress(f, i), e), EntryAddress(f, i)) == e
  {
    var r := Store64(ram, EntryAddress(f, i), e);
    StoreOneEntry(ram, f, i, e);
    assert Frames(r)[f][i] == e;
  }
}
