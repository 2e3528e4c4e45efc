// The allocator and the page-table mapper over one physical memory: what
// AllocatePage, GetNextTable, MapPage and AllocatePageAt do to the bytes, and
// the abstract machine that every run of them refines.
module MemoryStack {
  import opened Bits
  import opened Options
  import opened PhysicalMemory
  import opened PageAllocator
  import opened PageTables

  datatype State = State(ram: Ram, bitmap: nat, totalPages: nat, root: nat)

  // ------------------------------------------------------------- invariant

  function Free(s: State): seq<nat>
    requires InBounds(s.ram, s.bitmap, s.totalPages)
  {
    FreeFrom(s.ram, s.bitmap, s.totalPages, 0)
  }

  // The frames that hold the bitmap.
  function BitmapFrames(s: State): set<nat> {
    set f: nat | f < s.bitmap + s.totalPages + PAGE_SIZE && HoldsBitmap(s, f)
  }

  predicate HoldsBitmap(s: State, f: nat) {
    s.bitmap / PAGE_SIZE <= f < (s.bitmap + (s.totalPages + 7) / 8 + PAGE_SIZE - 1) / PAGE_SIZE
  }

  // Pages the allocator may hand out exist, are not below 1 MiB and do not
  // hold the bitmap.
  predicate Sound(s: State) {
    && InBounds(s.ram, s.bitmap, s.totalPages)
    && PAGE_SIZE * s.totalPages <= |s.ram| <= PAGE_SIZE * FRAME_LIMIT
    && forall p :: p in Free(s) ==> p >= 256 && p !in BitmapFrames(s)
  }

  function Avoid(s: State, data: set<nat>): set<nat>
    requires Sound(s)
  {
    (set p | p in Free(s)) + BitmapFrames(s) + data
  }

  // data: the frames handed out as data pages.  Free pages, bitmap frames, data
  // frames and live tables are pairwise disjoint, and the tables form a tree.
  ghost predicate Valid(s: State, data: set<nat>) {
    && Sound(s)
    && Tree(Frames(s.ram), s.root, Avoid(s, data))
    && forall p :: p in data ==> p !in Free(s) && p !in BitmapFrames(s)
  }

  // ------------------------------------------------------------- operations

  // AllocatePage: the lowest free page; None is the panic.
  function Allocate(s: State): Option<(State, nat)>
    requires InBounds(s.ram, s.bitmap, s.totalPages)
  {
    if Free(s) == [] then None
    else
      var p := Free(s)[0];
      FreeFromMember(s.ram, s.bitmap, s.totalPages, 0, p);
      Some((s.(ram := SetMark(s.ram, s.bitmap, p)), p))
  }

  // GetNextTable: the table that entry i of the table in frame f leads to,
  // created if the entry is not present.
  function NextTable(s: State, f: nat, i: nat): (State, Option<nat>)
    requires Sound(s) && f < FrameCount(s.ram) && i < ENTRIES
  {
    var e := Load64(s.ram, EntryAddress(f, i));
    if Present(e) then (s, Some(FrameOf(e)))
    else match Allocate(s)
      case None => (s, None)
      case Some((s1, g)) =>
        FreeFromMember(s.ram, s.bitmap, s.totalPages, 0, g);
        (s1.(ram := Store64(ZeroFrame(s1.ram, g), EntryAddress(f, i), TableEntry(g))), Some(g))
  }

  // ------------------------------------------------------------- abstract machine

  // Which paths have tables, which of their links grant writing and user access,
  // which have large pages, how every page translates, the free pages in
  // ascending order, and the data frames.
  datatype Abs = Abs(linked: iset<Path>, writable: iset<Path>, user: iset<Path>, large: iset<Path>,
                     space: map<nat, Option<Mapping>>, free: seq<nat>, data: set<nat>)

  predicate Grants(link: Link, write: bool) {
    link.Next? && if write then link.writable else link.user
  }

  ghost function AbsOf(s: State, data: set<nat>): Abs
    requires Sound(s)
  {
    Abs((iset p | IsPath(p) && Walk(Frames(s.ram), s.root, p).Some?),
        (iset p | IsPath(p) && p != [] && Grants(Slot(Frames(s.ram), s.root, p), true)),
        (iset p | IsPath(p) && p != [] && Grants(Slot(Frames(s.ram), s.root, p), false)),
        (iset p | IsPath(p) && p != [] && Slot(Frames(s.ram), s.root, p) == Large),
        Space(Frames(s.ram), s.root), Free(s), data)
  }

  // One more table, at path q, in the lowest free page.
  ghost function WithLink(a: Abs, q: Path): Abs
    requires a.free != []
  {
    a.(linked := a.linked + iset{q}, writable := a.writable + iset{q}, free := a.free[1..])
  }

  // Make sure page v has tables at depths d+1 to 3, taking free pages in order.
  ghost function AbsDescend(a: Abs, v: nat, d: nat): (Abs, bool)
    requires d <= 3
    decreases 3 - d
  {
    if d == 3 then (a, true)
    else
      var q := PathOf(v)[..d + 1];
      if q in a.linked then AbsDescend(a, v, d + 1)
      else if a.free == [] then (a, false)
      else AbsDescend(WithLink(a, q), v, d + 1)
  }

  ghost function AbsMap(a: Abs, v: nat, m: Mapping): (Abs, bool) {
    var (a1, ok) := AbsDescend(a, v, 0);
    if ok then (a1.(space := a1.space[v := Some(m)]), true) else (a1, false)
  }

  // No large page on the way to v.
  ghost predicate Clear(a: Abs, v: nat) {
    forall d :: 1 <= d <= 3 ==> PathOf(v)[..d] !in a.large
  }

  // ------------------------------------------------------------- one allocation

  // Taking a page marks it and touches nothing outside the bitmap's frames.
  lemma AllocateStep(s: State, data: set<nat>)
    requires Valid(s, data) && Free(s) != []
    ensures Allocate(s).Some?
    ensures var (s1, p) := Allocate(s).value;
      && p == Free(s)[0] && 256 <= p < s.totalPages && p !in BitmapFrames(s) && p !in data
      && s1 == s.(ram := s1.ram) && |s1.ram| == |s.ram|
      && Tree(Frames(s1.ram), s.root, Avoid(s, data))
      && Valid(s1, data + {p})
      && AbsOf(s1, data + {p}) == AbsOf(s, data).(free := Free(s)[1..], data := data + {p})
  {
    var (s1, p) := Allocate(s).value;
    FreeFromMember(s.ram, s.bitmap, s.totalPages, 0, p);
    FirstIsFirst(s);
    TakeFirst(s.ram, s.bitmap, s.totalPages, p);
    TailOfFree(s);
    assert Free(s1) == Free(s)[1..];
    AllocateLocal(s, data);
    TreeOffTree(Frames(s.ram), Frames(s1.ram), s.root, Avoid(s, data));
    AllocatedAbs(s, s1, data, p);
  }

  lemma AllocatedAbs(s: State, s1: State, data: set<nat>, p: nat)
    requires Valid(s, data) && Free(s) != [] && p == Free(s)[0]
    requires s1 == s.(ram := s1.ram) && |s1.ram| == |s.ram| && Free(s1) == Free(s)[1..]
    requires Tree(Frames(s1.ram), s.root, Avoid(s, data)) && Space(Frames(s1.ram), s.root) == Space(Frames(s.ram), s.root)
    requires forall q | IsPath(q) :: Walk(Frames(s1.ram), s.root, q) == Walk(Frames(s.ram), s.root, q)
    requires forall q | IsPath(q) && q != [] :: Slot(Frames(s1.ram), s.root, q) == Slot(Frames(s.ram), s.root, q)
    ensures Valid(s1, data + {p})
    ensures AbsOf(s1, data + {p}) == AbsOf(s, data).(free := Free(s)[1..], data := data + {p})
  {
    TailOfFree(s);
    assert BitmapFrames(s1) == BitmapFrames(s);
    assert Sound(s1);
    assert Avoid(s1, data + {p}) == Avoid(s, data);
    assert AbsOf(s1, data + {p}).linked == AbsOf(s, data).linked;
    assert AbsOf(s1, data + {p}).large == AbsOf(s, data).large;
    assert AbsOf(s1, data + {p}).writable == AbsOf(s, data).writable;
    assert AbsOf(s1, data + {p}).user == AbsOf(s, data).user;
  }

  lemma MarkByteInBitmap(s: State, p: nat)
    requires p < s.totalPages
    ensures BitByte(s.bitmap, p) / PAGE_SIZE in BitmapFrames(s)
  {
  }

  lemma FirstIsFirst(s: State)
    requires InBounds(s.ram, s.bitmap, s.totalPages) && Free(s) != []
    ensures Free(s)[0] < s.totalPages && !Marked(s.ram, s.bitmap, Free(s)[0])
    ensures forall q :: 0 <= q < Free(s)[0] ==> Marked(s.ram, s.bitmap, q)
  {
    var p := Free(s)[0];
    FreeFromMember(s.ram, s.bitmap, s.totalPages, 0, p);
    FreeFromSorted(s.ram, s.bitmap, s.totalPages, 0);
    forall q | 0 <= q < p ensures Marked(s.ram, s.bitmap, q) {
      FreeFromMember(s.ram, s.bitmap, s.totalPages, 0, q);
    }
  }

  // ------------------------------------------------------------- one table step

  // GetNextTable either follows a link, panics, or links exactly one new table
  // and takes exactly one page, leaving every translation as it was.
  lemma NextTableStep(s: State, data: set<nat>, p: Path, i: nat, f: nat)
    requires Valid(s, data) && IsPath(p) && |p| <= 2 && i < ENTRIES
    requires Walk(Frames(s.ram), s.root, p) == Some(f)
    requires Slot(Frames(s.ram), s.root, p + [i]) != Large
    ensures f < FrameCount(s.ram)
    ensures var (s', o) := NextTable(s, f, i);
      && Valid(s', data) && s' == s.(ram := s'.ram) && |s'.ram| == |s.ram|
      && o.Some? == (p + [i] in AbsOf(s, data).linked || Free(s) != [])
      && (o.Some? ==> Walk(Frames(s'.ram), s.root, p + [i]) == o)
      && AbsOf(s', data) ==
         if p + [i] in AbsOf(s, data).linked || Free(s) == [] then AbsOf(s, data)
         else WithLink(AbsOf(s, data), p + [i])
  {
    var t := Frames(s.ram);
    var e := Load64(s.ram, EntryAddress(f, i));
    assert t[f][i] == e;
    assert (p + [i])[..|p|] == p;
    assert Slot(t, s.root, p + [i]) == LinkOf(e, |p|);
    if !Present(e) && Free(s) != [] {
      CreateTable(s, data, p, i, f);
    }
  }

  // s' is s with one more table, in frame g, at path r.
  ghost predicate Linked(s: State, s': State, data: set<nat>, r: Path, g: nat)
    requires Sound(s)
  {
    && s' == s.(ram := s'.ram) && |s'.ram| == |s.ram|
    && IsPath(r) && r != [] && Free(s) != [] && g == Free(s)[0] && Free(s') == Free(s)[1..]
    && Tree(Frames(s'.ram), s.root, Avoid(s, data) - {g})
    && Space(Frames(s'.ram), s.root) == Space(Frames(s.ram), s.root)
    && (forall q | IsPath(q) ::
          Walk(Frames(s'.ram), s.root, q) == if q == r then Some(g) else Walk(Frames(s.ram), s.root, q))
    && (forall q | IsPath(q) && q != [] ::
          Slot(Frames(s'.ram), s.root, q) == if q == r then NewTable(g) else Slot(Frames(s.ram), s.root, q))
  }

  // The frames after GetNextTable created a table, as one WithTable step.
  lemma CreatedFrames(s: State, data: set<nat>, p: Path, i: nat, f: nat)
    requires Valid(s, data) && IsPath(p) && |p| <= 2 && i < ENTRIES
    requires Walk(Frames(s.ram), s.root, p) == Some(f) && f < FrameCount(s.ram)
    requires !Present(Load64(s.ram, EntryAddress(f, i))) && Free(s) != []
    requires Slot(Frames(s.ram), s.root, p + [i]) == Absent
    ensures NextTable(s, f, i).1 == Some(Free(s)[0])
    ensures Linked(s, NextTable(s, f, i).0, data, p + [i], Free(s)[0])
  {
    var (s', o) := NextTable(s, f, i);
    var (s1, g) := Allocate(s).value;
    AllocateStep(s, data);
    var t1 := Frames(s1.ram);
    AllocateLocal(s, data);
    TreeOffTree(Frames(s.ram), t1, s.root, Avoid(s, data));
    var r2 := ZeroFrame(s1.ram, g);
    ZeroOneFrame(s1.ram, g);
    StoreOneEntry(r2, f, i, TableEntry(g));
    assert Frames(s'.ram) == WithTable(t1, f, i, g);
    LinkTable(t1, s.root, Avoid(s, data), p, i, f, g);
    BitmapKept(s1, s', g, f, i);
  }

  lemma CreateTable(s: State, data: set<nat>, p: Path, i: nat, f: nat)
    requires Valid(s, data) && IsPath(p) && |p| <= 2 && i < ENTRIES
    requires Walk(Frames(s.ram), s.root, p) == Some(f) && f < FrameCount(s.ram)
    requires !Present(Load64(s.ram, EntryAddress(f, i))) && Free(s) != []
    requires Slot(Frames(s.ram), s.root, p + [i]) == Absent
    ensures var (s', o) := NextTable(s, f, i);
      && Valid(s', data) && s' == s.(ram := s'.ram) && |s'.ram| == |s.ram|
      && o.Some? && Walk(Frames(s'.ram), s.root, p + [i]) == o
      && AbsOf(s', data) == WithLink(AbsOf(s, data), p + [i])
  {
    CreatedFrames(s, data, p, i, f);
    LinkedStep(s, NextTable(s, f, i).0, data, p + [i], Free(s)[0]);
  }

  lemma LinkedStep(s: State, s': State, data: set<nat>, r: Path, g: nat)
    requires Valid(s, data) && Linked(s, s', data, r, g) && Slot(Frames(s.ram), s.root, r) == Absent
    ensures Valid(s', data)
    ensures AbsOf(s', data) == WithLink(AbsOf(s, data), r)
  {
    TailOfFree(s);
    assert forall q :: q in Free(s') ==> q in Free(s);
    assert forall q :: q in Free(s) ==> q == g || q in Free(s');
    assert BitmapFrames(s') == BitmapFrames(s);
    assert Sound(s');
    assert Avoid(s', data) == Avoid(s, data) - {g};
    assert AbsOf(s', data).linked == AbsOf(s, data).linked + iset{r};
    assert AbsOf(s', data).large == AbsOf(s, data).large;
    assert AbsOf(s', data).writable == AbsOf(s, data).writable + iset{r};
    assert AbsOf(s', data).user == AbsOf(s, data).user;
  }

  lemma TailOfFree(s: State)
    requires InBounds(s.ram, s.bitmap, s.totalPages) && Free(s) != []
    ensures Free(s)[0] !in Free(s)[1..]
    ensures forall q :: q in Free(s) <==> q == Free(s)[0] || q in Free(s)[1..]
  {
    FreeFromSorted(s.ram, s.bitmap, s.totalPages, 0);
    assert Free(s) == [Free(s)[0]] + Free(s)[1..];
  }

  lemma AllocateLocal(s: State, data: set<nat>)
    requires Valid(s, data) && Free(s) != []
    ensures var (s1, p) := Allocate(s).value;
      |Frames(s1.ram)| == |Frames(s.ram)|
      && forall f :: 0 <= f < FrameCount(s.ram) && f !in Avoid(s, data) ==> Frames(s1.ram)[f] == Frames(s.ram)[f]
  {
    var (s1, p) := Allocate(s).value;
    FirstIsFirst(s);
    MarkByteInBitmap(s, p);
    ByteStoreLocal(s.ram, BitByte(s.bitmap, p), s1.ram[BitByte(s.bitmap, p)]);
  }

  // Zeroing a new table and linking it leaves the bitmap alone.
  lemma BitmapKept(s1: State, s': State, g: nat, f: nat, i: nat)
    requires InBounds(s1.ram, s1.bitmap, s1.totalPages)
    requires g < FrameCount(s1.ram) && f < FrameCount(s1.ram) && g < FRAME_LIMIT && i < ENTRIES
    requires g !in BitmapFrames(s1) && f !in BitmapFrames(s1)
    requires s' == s1.(ram := Store64(ZeroFrame(s1.ram, g), EntryAddress(f, i), TableEntry(g)))
    ensures Free(s') == Free(s1)
  {
    forall p | 0 <= p < s1.totalPages
      ensures Marked(s'.ram, s1.bitmap, p) <==> Marked(s1.ram, s1.bitmap, p)
    {
      MarkByteInBitmap(s1, p);
      var a := BitByte(s1.bitmap, p);
      assert a / PAGE_SIZE != g && a / PAGE_SIZE != f;
      assert s'.ram[a] == s1.ram[a];
    }
    FreeFromSame(s1.ram, s'.ram, s1.bitmap, s1.totalPages, 0);
  }

  // ------------------------------------------------------------- MapPage

  lemma Weaken(s: State, data: set<nat>)
    requires Valid(s, data)
    ensures Valid(s, {})
  {
  }

  lemma StepOnPath(s: State, data: set<nat>, f: nat, d: nat, v: nat)
    requires Valid(s, data) && Clear(AbsOf(s, data), v) && d < 3
    requires Walk(Frames(s.ram), s.root, PathOf(v)[..d]) == Some(f)
    ensures f < FrameCount(s.ram)
    ensures var (s', o) := NextTable(s, f, Index(v, d));
      var q := PathOf(v)[..d + 1];
      && Valid(s', data) && s' == s.(ram := s'.ram) && |s'.ram| == |s.ram|
      && o.Some? == (q in AbsOf(s, data).linked || Free(s) != [])
      && (o.Some? ==> Walk(Frames(s'.ram), s.root, q) == o)
      && AbsOf(s', data) ==
         if q in AbsOf(s, data).linked || Free(s) == [] then AbsOf(s, data)
         else WithLink(AbsOf(s, data), q)
  {
    var q := PathOf(v)[..d + 1];
    assert q == PathOf(v)[..d] + [Index(v, d)];
    assert q !in AbsOf(s, data).large;
    NextTableStep(s, data, PathOf(v)[..d], Index(v, d), f);
  }

  // The three GetNextTable calls, from the table in frame f at depth d.
  ghost function Descend(s: State, f: nat, d: nat, v: nat): (State, Option<nat>)
    requires Valid(s, {}) && Clear(AbsOf(s, {}), v) && d <= 3
    requires Walk(Frames(s.ram), s.root, PathOf(v)[..d]) == Some(f)
    decreases 3 - d
  {
    if d == 3 then (s, Some(f))
    else
      StepOnPath(s, {}, f, d, v);
      var (s1, o) := NextTable(s, f, Index(v, d));
      match o
      case None => (s1, None)
      case Some(g) => Descend(s1, g, d + 1, v)
  }

  lemma {:induction false} DescendRefines(s: State, data: set<nat>, f: nat, d: nat, v: nat)
    requires Valid(s, data) && Valid(s, {}) && Clear(AbsOf(s, data), v) && d <= 3
    requires Walk(Frames(s.ram), s.root, PathOf(v)[..d]) == Some(f)
    ensures var (s', o) := Descend(s, f, d, v);
      && Valid(s', data) && s' == s.(ram := s'.ram) && |s'.ram| == |s.ram|
      && (o.Some? ==> Walk(Frames(s'.ram), s.root, PathOf(v)) == o)
      && (AbsOf(s', data), o.Some?) == AbsDescend(AbsOf(s, data), v, d)
    decreases 3 - d
  {
    if d == 3 {
      assert PathOf(v)[..3] == PathOf(v);
    } else {
      StepOnPath(s, {}, f, d, v);
      StepOnPath(s, data, f, d, v);
      var (s1, o) := NextTable(s, f, Index(v, d));
      if o.Some? { DescendRefines(s1, data, o.value, d + 1, v); }
    }
  }

  // MapPage: false is the panic of an allocation on the way.
  ghost function MapPage(s: State, virt: u64, phys: u64, flags: u64): (State, bool)
    requires Valid(s, {}) && Clear(AbsOf(s, {}), Vpn(virt))
  {
    var v := Vpn(virt);
    DescendRefines(s, {}, s.root, 0, v);
    var (s1, o) := Descend(s, s.root, 0, v);
    match o
    case None => (s1, false)
    case Some(f) =>
      assert f < FrameCount(s1.ram);
      (s1.(ram := Store64(s1.ram, EntryAddress(f, Index(v, 3)), LeafEntry(phys, flags))), true)
  }

  // Storing the leaf updates one page's translation and nothing else.
  lemma StoreLeaf(s: State, data: set<nat>, f: nat, v: nat, e: u64)
    requires Valid(s, data) && v < VPN_LIMIT && Present(e)
    requires Walk(Frames(s.ram), s.root, PathOf(v)) == Some(f) && f < FrameCount(s.ram)
    ensures var s' := s.(ram := Store64(s.ram, EntryAddress(f, Index(v, 3)), e));
      && Valid(s', data)
      && AbsOf(s', data) ==
         AbsOf(s, data).(space := AbsOf(s, data).space[v := Some(Mapping(FrameOf(e), AttributesOf(e)))])
  {
    var i := Index(v, 3);
    var s' := s.(ram := Store64(s.ram, EntryAddress(f, i), e));
    StoreOneEntry(s.ram, f, i, e);
    assert Frames(s'.ram) == WithLeaf(Frames(s.ram), f, v, e);
    SetLeaf(Frames(s.ram), s.root, Avoid(s, data), f, v, e);
    LeafKeepsBitmap(s, s', f, i, e);
    assert BitmapFrames(s') == BitmapFrames(s);
    assert Avoid(s', data) == Avoid(s, data);
    assert AbsOf(s', data).linked == AbsOf(s, data).linked;
    assert AbsOf(s', data).large == AbsOf(s, data).large;
    assert AbsOf(s', data).writable == AbsOf(s, data).writable;
    assert AbsOf(s', data).user == AbsOf(s, data).user;
  }

  lemma LeafKeepsBitmap(s: State, s': State, f: nat, i: nat, e: u64)
    requires InBounds(s.ram, s.bitmap, s.totalPages)
    requires f < FrameCount(s.ram) && i < ENTRIES && f !in BitmapFrames(s)
    requires s' == s.(ram := Store64(s.ram, EntryAddress(f, i), e))
    ensures Free(s') == Free(s)
  {
    forall p | 0 <= p < s.totalPages ensures Marked(s'.ram, s.bitmap, p) <==> Marked(s.ram, s.bitmap, p) {
      MarkByteInBitmap(s, p);
      assert BitByte(s.bitmap, p) / PAGE_SIZE != f;
      assert s'.ram[BitByte(s.bitmap, p)] == s.ram[BitByte(s.bitmap, p)];
    }
    FreeFromSame(s.ram, s'.ram, s.bitmap, s.totalPages, 0);
  }

  // MapPage refines one update of the address space, taking pages from the
  // front of the free list for the tables that were missing; when the pages run
  // out it panics with every translation as it was.
  lemma MapPageRefines(s: State, data: set<nat>, virt: u64, phys: u64, flags: u64)
    requires Valid(s, data) && Clear(AbsOf(s, data), Vpn(virt))
    ensures Valid(s, {}) && Clear(AbsOf(s, {}), Vpn(virt))
    ensures var (s', ok) := MapPage(s, virt, phys, flags);
      && Valid(s', data) && s' == s.(ram := s'.ram) && |s'.ram| == |s.ram|
      && (AbsOf(s', data), ok) == AbsMap(AbsOf(s, data), Vpn(virt), LeafMapping(phys, flags))
  {
    var v := Vpn(virt);
    Weaken(s, data);
    DescendRefines(s, data, s.root, 0, v);
    DescendRefines(s, {}, s.root, 0, v);
    var (s1, o) := Descend(s, s.root, 0, v);
    if o.Some? {
      LeafPresent(phys, flags);
      StoreLeaf(s1, data, o.value, v, LeafEntry(phys, flags));
    }
  }

  // ------------------------------------------------------------- AllocatePageAt

  // The data set gains the page as soon as it is allocated.
  ghost function AllocatePageAt(s: State, data: set<nat>, virt: u64): (State, set<nat>, bool)
    requires Valid(s, data) && Clear(AbsOf(s, data), Vpn(virt))
  {
    match Allocate(s)
    case None => (s, data, false)
    case Some((s1, p)) =>
      AllocateStep(s, data);
      Weaken(s1, data + {p});
      assert AbsOf(s1, {}).large == AbsOf(s1, data + {p}).large;
      var (s2, ok) := MapPage(s1, virt, PAGE_SIZE * p, PTE_WRITABLE);
      (s2, data + {p}, ok)
  }

  ghost function AbsAllocateAt(a: Abs, v: nat): (Abs, bool) {
    if a.free == [] then (a, false)
    else AbsMap(a.(free := a.free[1..], data := a.data + {a.free[0]}), v,
                Mapping(a.free[0], Or(PTE_WRITABLE, PTE_PRESENT)))
  }

  lemma AllocatePageAtRefines(s: State, data: set<nat>, virt: u64)
    requires Valid(s, data) && Clear(AbsOf(s, data), Vpn(virt))
    ensures var (s', data', ok) := AllocatePageAt(s, data, virt);
      && Valid(s', data') && s' == s.(ram := s'.ram) && |s'.ram| == |s.ram|
      && (AbsOf(s', data'), ok) == AbsAllocateAt(AbsOf(s, data), Vpn(virt))
  {
    if Free(s) != [] {
      AllocateStep(s, data);
      var (s1, p) := Allocate(s).value;
      WritableLeaf(p);
      hide LeafMapping, Valid, Clear, AbsOf, MapPage, AbsMap;
      MapPageRefines(s1, data + {p}, virt, PAGE_SIZE * p, PTE_WRITABLE);
    }
  }

  lemma WritableLeaf(p: nat)
    requires p < FRAME_LIMIT
    ensures LeafMapping(PAGE_SIZE * p, PTE_WRITABLE) == Mapping(p, Or(PTE_WRITABLE, PTE_PRESENT))
  {
    PageAddressFrame(p);
    LeafMappingIff(PAGE_SIZE * p, PTE_WRITABLE);
  }

  lemma PageAddressFrame(p: nat)
    requires p < FRAME_LIMIT
    ensures FrameOf(PAGE_SIZE * p) == p && And(PTE_WRITABLE, ADDRESS_MASK) == 0
  {
    PageUnderMask(p, ADDRESS_MASK, 0xFF_FFFF_FFFF);
    Low40(p);
  }
}
