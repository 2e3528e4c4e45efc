// From the boot loader's memory to the kernel's own: what PMM::Init's bitmap
// means for the allocator, and what cloning the upper half of the loader's
// PML4 (kernel/arch/x86_64/init.cpp) does to the address space.
module MemoryBoot {
  import opened Options
  import opened PhysicalMemory
  import opened PageAllocator
  import opened PageTables
  import opened MemoryStack
  import opened MemoryMap

  // ------------------------------------------------------------- the bitmap's tail

  // The page after the bitmap's whole bytes.
  function TailPage(entries: seq<Entry>): nat {
    (BitmapBase(entries) + BitmapBytes(entries)) / PAGE_SIZE
  }

  // The bitmap's last byte lies in the pages that init reserves for it.  This
  // fails when the page count is not a multiple of eight and the rounded size
  // fills its last page: then the tail page holds the last bits.
  predicate TailCovered(entries: seq<Entry>) {
    Pages(entries) % 8 == 0 || BitmapBytes(entries) % PAGE_SIZE != 0
  }

  // Init does not hand the tail page out.
  predicate TailNotFree(entries: seq<Entry>) {
    TailCovered(entries) || !(TailPage(entries) < Pages(entries) && ShouldBeFree(entries, TailPage(entries)))
  }

  // The tail page belongs to usable memory.
  predicate TailInUsable(entries: seq<Entry>) {
    TailCovered(entries) || TailPage(entries) in UsableFrames(entries)
  }

  // The frames init and the allocator may write.
  function UsableFrames(entries: seq<Entry>): set<nat> {
    set p: nat | p < Pages(entries) && Usable(entries, p)
  }

  // Which page holds page q's bit.
  lemma BitPage(entries: seq<Entry>, q: nat)
    requires WellFormedMap(entries) && BitmapBase(entries) > 0 && q < TouchedPages(entries)
    ensures BitmapBase(entries) % PAGE_SIZE == 0
    ensures var f := BitByte(BitmapBase(entries), q) / PAGE_SIZE;
      HoldsMap(entries, f)
      || (q < Pages(entries) && q / 8 == BitmapBytes(entries) && !TailCovered(entries) && f == TailPage(entries))
      || f < 256 || Pages(entries) < 256
  {
    SpotIsUsable(entries, BitmapBytes(entries), 0);
  }

  // The code's bitmap and its free pages are apart on exactly these maps.
  lemma BitmapApartIff(entries: seq<Entry>)
    requires WellFormedMap(entries) && BitmapBase(entries) > 0
    ensures (forall p, q :: 0 <= p < Pages(entries) && 0 <= q < Pages(entries) && ShouldBeFree(entries, p) ==>
               BitByte(BitmapBase(entries), q) / PAGE_SIZE != p)
       <==> TailNotFree(entries)
  {
    if TailNotFree(entries) {
      forall p, q | 0 <= p < Pages(entries) && 0 <= q < Pages(entries) && ShouldBeFree(entries, p)
        ensures BitByte(BitmapBase(entries), q) / PAGE_SIZE != p
      {
        BitPage(entries, q);
      }
    } else {
      var q := 8 * BitmapBytes(entries);
      assert q < Pages(entries) && BitByte(BitmapBase(entries), q) / PAGE_SIZE == TailPage(entries);
    }
  }

  // A machine with 128 MiB and one page: the first free page, which EarlyInit
  // takes for its root table, holds the bit of page 32768.
  lemma BitmapHandedOut()
    ensures var entries := [Entry(0x10_0000, 0x7F0_1000, true)];
      && WellFormedMap(entries) && NoWrap(entries) && Pages(entries) == 32769 && BitmapBase(entries) == 0x10_0000
      && ShouldBeFree(entries, 257) && (forall p: nat :: p < 257 ==> !ShouldBeFree(entries, p))
      && BitByte(BitmapBase(entries), 32768) / PAGE_SIZE == 257
  {
    var entries := [Entry(0x10_0000, 0x7F0_1000, true)];
    assert entries[..0] == [] && Highest([]) == 0;
    assert Highest(entries) == 0x800_1000;
    assert CanHold(entries[0], 4096);
    assert Opens(entries[0], 257);
    assert HoldsMap(entries, 256);
  }

  // Every byte whose bits init may touch lies in a usable frame, on exactly
  // these maps.
  lemma BitmapInUsableIff(entries: seq<Entry>)
    requires WellFormedMap(entries) && BitmapBase(entries) > 0
    ensures (forall a :: BitmapBase(entries) <= a < BitmapBase(entries) + (TouchedPages(entries) + 7) / 8 ==>
                           a / PAGE_SIZE in UsableFrames(entries))
       <==> TailInUsable(entries)
  {
    forall a | BitmapBase(entries) <= a < BitmapBase(entries) + (TouchedPages(entries) + 7) / 8
      ensures a / PAGE_SIZE in UsableFrames(entries) || (!TailCovered(entries) && a / PAGE_SIZE == TailPage(entries))
    {
      TouchedByte(entries, a);
    }
    if !TailCovered(entries) {
      TailIsTouched(entries);
    }
  }

  lemma TouchedByte(entries: seq<Entry>, a: nat)
    requires WellFormedMap(entries) && BitmapBase(entries) > 0
    requires BitmapBase(entries) <= a < BitmapBase(entries) + (TouchedPages(entries) + 7) / 8
    ensures a / PAGE_SIZE in UsableFrames(entries) || (!TailCovered(entries) && a / PAGE_SIZE == TailPage(entries))
  {
    var base, bytes := BitmapBase(entries), BitmapBytes(entries);
    SpotIsUsable(entries, bytes, 0);
    var j :| 0 <= j < |entries| && CanHold(entries[j], bytes) && entries[j].base == base;
    if a < base + entries[j].length {
      assert Opens(entries[j], a / PAGE_SIZE);
      OpenedInRange(entries, j, a / PAGE_SIZE);
    } else {
      assert (TouchedPages(entries) + 7) / 8 <= bytes + 1 || TouchedPages(entries) == 256;
      assert a == base + bytes;
    }
  }

  lemma TailIsTouched(entries: seq<Entry>)
    requires !TailCovered(entries)
    ensures BitmapBytes(entries) < (TouchedPages(entries) + 7) / 8
    ensures (BitmapBase(entries) + BitmapBytes(entries)) / PAGE_SIZE == TailPage(entries)
  {
  }

  // ------------------------------------------------------------- after init

  // A map init can work with: well formed, all usable memory present, with an
  // entry for the bitmap, whose tail is in usable memory.
  predicate LoadableMap(entries: seq<Entry>, size: nat) {
    && WellFormedMap(entries) && NoWrap(entries) && TailInUsable(entries)
    && Highest(entries) <= size <= PAGE_SIZE * FRAME_LIMIT
    && BitmapBase(entries) > 0
  }

  lemma LoadableFits(entries: seq<Entry>, size: nat)
    requires LoadableMap(entries, size)
    ensures MapFits(entries, size) && BitmapBase(entries) % PAGE_SIZE == 0
    ensures forall a :: BitmapBase(entries) <= a < BitmapBase(entries) + (TouchedPages(entries) + 7) / 8 ==>
                          a / PAGE_SIZE in UsableFrames(entries)
  {
    BitmapInUsableIff(entries);
    SpotIsUsable(entries, BitmapBytes(entries), 0);
    var last := BitmapBase(entries) + (TouchedPages(entries) + 7) / 8 - 1;
    assert last / PAGE_SIZE in UsableFrames(entries);
  }

  // What init's bits mean for the allocator's state.
  ghost predicate AfterInit(entries: seq<Entry>, s: State, before: Ram) {
    && |before| == |s.ram| && MapFits(entries, |s.ram|)
    && s.totalPages == Pages(entries) && s.bitmap == BitmapBase(entries)
    && forall p :: 0 <= p < s.totalPages ==>
         (!Marked(s.ram, s.bitmap, p) <==> FreeAfterInit(entries, p, Marked(before, s.bitmap, p)))
  }

  lemma FreeAfter(entries: seq<Entry>, s: State, before: Ram)
    requires AfterInit(entries, s, before)
    ensures forall p: nat :: p in Free(s) <==>
      p < s.totalPages && FreeAfterInit(entries, p, Marked(before, s.bitmap, p))
  {
    forall p: nat
      ensures p in Free(s) <==> p < s.totalPages && FreeAfterInit(entries, p, Marked(before, s.bitmap, p))
    {
      FreeFromMember(s.ram, s.bitmap, s.totalPages, 0, p);
    }
  }

  // The frames that hold the bitmap are the ones init reserves, and the tail page.
  lemma BitmapFramesAre(entries: seq<Entry>, s: State, f: nat)
    requires WellFormedMap(entries) && BitmapBase(entries) > 0
    requires s.totalPages == Pages(entries) && s.bitmap == BitmapBase(entries)
    ensures f in BitmapFrames(s) <==>
      Pages(entries) > 0 && (HoldsMap(entries, f) || (!TailCovered(entries) && f == TailPage(entries)))
  {
    SpotIsUsable(entries, BitmapBytes(entries), 0);
  }

  // After init the allocator is sound, whatever memory held before, exactly when
  // the tail page is not free.
  lemma InitSoundIff(entries: seq<Entry>, s: State, before: Ram)
    requires LoadableMap(entries, |s.ram|) && AfterInit(entries, s, before)
    ensures Sound(s) <==> TailNotFree(entries)
    ensures BitmapFrames(s) <= UsableFrames(entries)
  {
    FreeAfter(entries, s, before);
    LoadableFits(entries, |s.ram|);
    forall f | f in BitmapFrames(s) ensures f in UsableFrames(entries) {
      assert s.totalPages > 0;
      assert s.bitmap <= PAGE_SIZE * f < s.bitmap + (TouchedPages(entries) + 7) / 8;
      assert PAGE_SIZE * f / PAGE_SIZE == f;
    }
    forall p: nat | p in Free(s) && p in BitmapFrames(s) ensures !TailNotFree(entries) {
      BitmapFramesAre(entries, s, p);
    }
    if !TailNotFree(entries) {
      BitmapFramesAre(entries, s, TailPage(entries));
      assert TailPage(entries) in Free(s) && TailPage(entries) in BitmapFrames(s);
    }
  }

  // ------------------------------------------------------------- the clone

  // The new PML4: lower half empty, upper half the loader's entries.
  predicate Cloned(fresh': Table, old': Table) {
    forall i :: 0 <= i < ENTRIES ==> fresh'[i] == if i < 256 then 0 else old'[i]
  }

  // t' differs from t only on the frames of `avoid`; there, frame new' holds
  // the clone of the old root.
  ghost predicate CloneStep(t: seq<Table>, t': seq<Table>, root: nat, avoid: set<nat>, new': nat) {
    && Tree(t, root, avoid) && |t'| == |t| && new' < |t| && new' in avoid && root < |t|
    && (forall f :: 0 <= f < |t| && f !in avoid ==> t'[f] == t[f])
    && Cloned(t'[new'], t[root])
  }

  lemma {:induction false} WalkCloned(t: seq<Table>, t': seq<Table>, root: nat, avoid: set<nat>, new': nat, q: Path)
    requires CloneStep(t, t', root, avoid, new') && IsPath(q) && q != []
    ensures Slot(t', new', q) == if q[0] < 256 then Absent else Slot(t, root, q)
    ensures Walk(t', new', q) == if q[0] < 256 then None else Walk(t, root, q)
    decreases |q|
  {
    var q0 := q[..|q| - 1];
    if q0 == [] {
      assert Walk(t, root, []) == Some(root) && Walk(t', new', []) == Some(new');
      if q[0] < 256 { assert t'[new'][q[0]] == 0; }
    } else {
      WalkCloned(t, t', root, avoid, new', q0);
      assert q0[0] == q[0];
    }
  }

  lemma CloneTree(t: seq<Table>, t': seq<Table>, root: nat, avoid: set<nat>, new': nat)
    requires CloneStep(t, t', root, avoid, new')
    ensures Tree(t', new', avoid - {new'})
    ensures forall p :: IsPath(p) ==> Walk(t, root, p) != Some(new')
  {
    forall q | IsPath(q) && q != []
      ensures Walk(t', new', q) == if q[0] < 256 then None else Walk(t, root, q)
    {
      WalkCloned(t, t', root, avoid, new', q);
    }
    assert Walk(t', new', []) == Some(new');
  }

  // Upper-half pages translate as under the loader's tables, lower-half pages
  // do not translate.
  lemma CloneSpace(t: seq<Table>, t': seq<Table>, root: nat, avoid: set<nat>, new': nat, v: nat)
    requires CloneStep(t, t', root, avoid, new') && v < VPN_LIMIT
    ensures Translate(t', new', 0, v) == if Index(v, 0) < 256 then None else Translate(t, root, 0, v)
  {
    var e := t[root][Index(v, 0)];
    if Index(v, 0) < 256 {
      assert t'[new'][Index(v, 0)] == 0;
    } else {
      assert t'[new'][Index(v, 0)] == e;
      assert Walk(t, root, PathOf(v)[..0]) == Some(root);
      if Present(e) {
        StepDown(t, root, root, 0, v);
        TranslateOffTree(t, t', root, avoid, FrameOf(e), 1, v);
      }
    }
  }

  // Two memories that differ only in bytes of the given frames.
  lemma FramesOutside(ram: Ram, ram': Ram, lo: nat, hi: nat, frames: set<nat>)
    requires |ram'| == |ram|
    requires forall a :: 0 <= a < |ram| && !(lo <= a < hi) ==> ram'[a] == ram[a]
    requires forall a :: lo <= a < hi ==> a / PAGE_SIZE in frames
    ensures forall f :: 0 <= f < FrameCount(ram) && f !in frames ==> Frames(ram')[f] == Frames(ram)[f]
  {
    forall f | 0 <= f < FrameCount(ram) && f !in frames ensures Frames(ram')[f] == Frames(ram)[f] {
      forall a | PAGE_SIZE * f <= a < PAGE_SIZE * (f + 1) ensures ram[a] == ram'[a] {
        assert a / PAGE_SIZE == f;
      }
      TableFrame(ram, ram', f);
    }
  }

  // Writing one frame leaves the bitmap alone unless it holds part of it.
  lemma FrameOffBitmap(s: State, s': State, g: nat)
    requires InBounds(s.ram, s.bitmap, s.totalPages) && g !in BitmapFrames(s)
    requires s' == s.(ram := s'.ram, root := s'.root) && |s'.ram| == |s.ram|
    requires forall a :: 0 <= a < |s.ram| && a / PAGE_SIZE != g ==> s'.ram[a] == s.ram[a]
    ensures Free(s') == Free(s) && BitmapFrames(s') == BitmapFrames(s)
  {
    forall p | 0 <= p < s.totalPages ensures Marked(s'.ram, s.bitmap, p) <==> Marked(s.ram, s.bitmap, p) {
      MarkByteInBitmap(s, p);
    }
    FreeFromSame(s.ram, s'.ram, s.bitmap, s.totalPages, 0);
    assert forall f :: HoldsBitmap(s', f) <==> HoldsBitmap(s, f);
  }

  // The free pages and the bitmap all lie in usable frames, so a tree that
  // avoids those avoids them.
  lemma BootValid(entries: seq<Entry>, s: State)
    requires Sound(s) && s.totalPages == Pages(entries)
    requires BitmapFrames(s) <= UsableFrames(entries)
    requires forall p :: p in Free(s) ==> p < Pages(entries) && Usable(entries, p)
    requires exists g :: g !in Free(s) && g !in BitmapFrames(s) && Tree(Frames(s.ram), s.root, UsableFrames(entries) - {g})
    ensures Valid(s, {})
  {
    var g :| g !in Free(s) && g !in BitmapFrames(s) && Tree(Frames(s.ram), s.root, UsableFrames(entries) - {g});
    assert Avoid(s, {}) <= UsableFrames(entries) - {g};
  }
}
