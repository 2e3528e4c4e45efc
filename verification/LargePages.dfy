// MapPage on any path, large pages included: kernel/arch/x86_64/mem/vmm.cpp
// never tests the large-page bit and takes a large page's memory for a table.
module LargePages {
  import opened Bits
  import opened Options
  import opened PhysicalMemory
  import opened PageTables
  import opened MemoryStack

  // Where the calls of MapPage end: at the table for the leaf, in a panic, or
  // with a table address outside memory.
  datatype Outcome = Found(s: State, f: nat) | Panicked(s: State) | Astray(s: State)

  // The GetNextTable calls that are left, from the table in frame f at depth d.
  function Calls(s: State, f: nat, d: nat, v: nat): Outcome
    requires Sound(s) && d <= 3
    decreases 3 - d
  {
    if f >= FrameCount(s.ram) then Astray(s)
    else if d == 3 then Found(s, f)
    else
      var (s1, o) := NextTable(s, f, Index(v, d));
      match o
      case None => Panicked(s1)
      case Some(g) => if Sound(s1) then Calls(s1, g, d + 1, v) else Astray(s1)
  }

  // MapPage, whatever is on the path.
  function MapCall(s: State, virt: u64, phys: u64, flags: u64): Outcome
    requires Sound(s)
  {
    match Calls(s, s.root, 0, Vpn(virt))
    case Found(s1, f) =>
      Found(s1.(ram := Store64(s1.ram, EntryAddress(f, Index(Vpn(virt), 3)), LeafEntry(phys, flags))), f)
    case o => o
  }

  // ------------------------------------------------------------- no large page

  lemma {:induction false} CallsDescend(s: State, f: nat, d: nat, v: nat)
    requires Valid(s, {}) && Clear(AbsOf(s, {}), v) && d <= 3
    requires Walk(Frames(s.ram), s.root, PathOf(v)[..d]) == Some(f)
    ensures match Descend(s, f, d, v)
            case (s', None) => Calls(s, f, d, v) == Panicked(s')
            case (s', Some(g)) => Calls(s, f, d, v) == Found(s', g)
    decreases 3 - d
  {
    if d < 3 {
      StepOnPath(s, {}, f, d, v);
      var (s1, o) := NextTable(s, f, Index(v, d));
      if o.Some? { CallsDescend(s1, o.value, d + 1, v); }
    } else {
      assert f !in Avoid(s, {});
    }
  }

  // With no large page on the path the call is the refined MapPage.
  lemma ClearCall(s: State, virt: u64, phys: u64, flags: u64)
    requires Valid(s, {}) && Clear(AbsOf(s, {}), Vpn(virt))
    ensures match MapPage(s, virt, phys, flags)
            case (s', true) => MapCall(s, virt, phys, flags).Found? && MapCall(s, virt, phys, flags).s == s'
            case (s', false) => MapCall(s, virt, phys, flags) == Panicked(s')
  {
    DescendRefines(s, {}, s.root, 0, Vpn(virt));
    CallsDescend(s, s.root, 0, Vpn(virt));
  }

  // ------------------------------------------------------------- off the tree

  // Frame f is in memory, holds no part of the bitmap and is no live table.
  ghost predicate Stray(s: State, f: nat) {
    f < FrameCount(s.ram) && f !in BitmapFrames(s)
    && forall p :: IsPath(p) ==> Walk(Frames(s.ram), s.root, p) != Some(f)
  }

  // s' has the walks and the translations of s, and is valid.
  ghost predicate SameTree(s: State, s': State, data': set<nat>) {
    && s' == s.(ram := s'.ram) && |s'.ram| == |s.ram| && Valid(s', data')
    && Space(Frames(s'.ram), s.root) == Space(Frames(s.ram), s.root)
    && forall p :: IsPath(p) ==> Walk(Frames(s'.ram), s.root, p) == Walk(Frames(s.ram), s.root, p)
  }

  // A store into such a frame.
  lemma StrayStore(s: State, data: set<nat>, f: nat, i: nat, e: u64)
    requires Valid(s, data) && Stray(s, f) && i < ENTRIES
    ensures var s' := s.(ram := Store64(s.ram, EntryAddress(f, i), e));
      SameTree(s, s', data) && Free(s') == Free(s)
  {
    var s' := s.(ram := Store64(s.ram, EntryAddress(f, i), e));
    StoreOneEntry(s.ram, f, i, e);
    var avoid := Avoid(s, data) + {f};
    assert Tree(Frames(s.ram), s.root, avoid);
    TreeOffTree(Frames(s.ram), Frames(s'.ram), s.root, avoid);
    LeafKeepsBitmap(s, s', f, i, e);
    StillValid(s, s', data, avoid);
  }

  lemma StillValid(s: State, s': State, data: set<nat>, avoid: set<nat>)
    requires Valid(s, data) && s' == s.(ram := s'.ram) && |s'.ram| == |s.ram| && Free(s') == Free(s)
    requires Avoid(s, data) <= avoid && Tree(Frames(s'.ram), s.root, avoid)
    ensures Valid(s', data)
  {
    hide Tree;
    assert BitmapFrames(s') == BitmapFrames(s);
    assert Avoid(s', data) == Avoid(s, data);
    SmallerAvoid(Frames(s'.ram), s.root, avoid, Avoid(s, data));
  }

  lemma SmallerAvoid(t: seq<Table>, root: nat, avoid: set<nat>, less: set<nat>)
    requires Tree(t, root, avoid) && less <= avoid
    ensures Tree(t, root, less)
  {
  }

  // GetNextTable on such a frame: it follows what the frame holds, or spends a
  // page; no walk and no translation changes.
  lemma StrayNext(s: State, data: set<nat>, f: nat, i: nat)
    requires Valid(s, data) && Stray(s, f) && i < ENTRIES
    ensures var (s', o) := NextTable(s, f, i);
      var e := Load64(s.ram, EntryAddress(f, i));
      && (Present(e) ==> s' == s && o == Some(FrameOf(e)))
      && (!Present(e) && Free(s) == [] ==> s' == s && o == None)
      && (!Present(e) && Free(s) != [] ==>
            o == Some(Free(s)[0]) && SameTree(s, s', data + {Free(s)[0]}) && Free(s') == Free(s)[1..] && Stray(s', Free(s)[0]))
  {
    if !Present(Load64(s.ram, EntryAddress(f, i))) && Free(s) != [] {
      StrayCreate(s, data, f, i);
    }
  }

  lemma StrayCreate(s: State, data: set<nat>, f: nat, i: nat)
    requires Valid(s, data) && Stray(s, f) && i < ENTRIES
    requires !Present(Load64(s.ram, EntryAddress(f, i))) && Free(s) != []
    ensures var (s', o) := NextTable(s, f, i);
      o == Some(Free(s)[0]) && SameTree(s, s', data + {Free(s)[0]}) && Free(s') == Free(s)[1..] && Stray(s', Free(s)[0])
  {
    var (s', _) := NextTable(s, f, i);
    AllocateStep(s, data);
    AllocateLocal(s, data);
    var (s1, p) := Allocate(s).value;
    var t, t' := Frames(s.ram), Frames(s'.ram);
    TwoFrames(s1.ram, p, f, i);
    assert BitmapFrames(s1) == BitmapFrames(s);
    BitmapKept(s1, s', p, f, i);
    var avoid := Avoid(s, data) + {f};
    hide WithLeaf, ZeroFrame, Store64, Slot;
    assert Tree(t, s.root, avoid);
    TreeOffTree(t, t', s.root, avoid);
    assert Avoid(s1, data + {p}) == Avoid(s, data) by { TailOfFree(s); }
    StillValid(s1, s', data + {p}, avoid);
  }

  // Zeroing frame p and storing an entry into frame f touches no other frame.
  lemma TwoFrames(ram: Ram, p: nat, f: nat, i: nat)
    requires p < FrameCount(ram) && p < FRAME_LIMIT && f < FrameCount(ram) && i < ENTRIES
    ensures var ram' := Store64(ZeroFrame(ram, p), EntryAddress(f, i), TableEntry(p));
      |ram'| == |ram| && forall g :: 0 <= g < FrameCount(ram) && g != p && g != f ==> Frames(ram')[g] == Frames(ram)[g]
  {
    ZeroOneFrame(ram, p);
    StoreOneEntry(ZeroFrame(ram, p), f, i, TableEntry(p));
  }

  // ------------------------------------------------------------- a large page

  // The calls so far have followed page v's existing tables down to depth d.
  lemma {:induction false} CallsFollow(s: State, data: set<nat>, d: nat, v: nat, f: nat)
    requires Valid(s, data) && d <= 3 && Walk(Frames(s.ram), s.root, PathOf(v)[..d]) == Some(f)
    ensures Calls(s, s.root, 0, v) == Calls(s, f, d, v)
    decreases d
  {
    if d > 0 {
      var q := PathOf(v)[..d];
      assert q[..d - 1] == PathOf(v)[..d - 1];
      var h := Walk(Frames(s.ram), s.root, PathOf(v)[..d - 1]).value;
      CallsFollow(s, data, d - 1, v, h);
      assert h !in Avoid(s, data);
      StepDown(Frames(s.ram), s.root, h, d - 1, v);
    }
  }

  // The frame that the large-page entry at depth d of page v's walk names.
  ghost function LargeFrame(s: State, d: nat, v: nat): nat
    requires 1 <= d <= 2 && Slot(Frames(s.ram), s.root, PathOf(v)[..d + 1]) == Large
  {
    assert PathOf(v)[..d + 1][..d] == PathOf(v)[..d];
    FrameOf(Frames(s.ram)[Walk(Frames(s.ram), s.root, PathOf(v)[..d]).value][Index(v, d)])
  }

  // The memory that the calls take for tables below that entry is not a table
  // and holds no part of the bitmap.
  ghost predicate PageApart(s: State, d: nat, v: nat)
    requires 1 <= d <= 2 && Slot(Frames(s.ram), s.root, PathOf(v)[..d + 1]) == Large
  {
    var g := LargeFrame(s, d, v);
    && Stray(s, g)
    && (d == 1 ==>
          var e := Load64(s.ram, EntryAddress(g, Index(v, 2)));
          Present(e) ==> Stray(s, FrameOf(e)))
  }

  // A call under a large page leaves every translation as it was, its own page's
  // included; under a 1 GiB page it may spend a page, or panic for want of one.
  lemma LargeCall(s: State, data: set<nat>, d: nat, virt: u64, phys: u64, flags: u64)
    requires Valid(s, data) && 1 <= d <= 2
    requires Slot(Frames(s.ram), s.root, PathOf(Vpn(virt))[..d + 1]) == Large && PageApart(s, d, Vpn(virt))
    ensures match MapCall(s, virt, phys, flags)
            case Found(s', f) =>
              Space(Frames(s'.ram), s'.root) == Space(Frames(s.ram), s.root) && Sound(s')
              && (Free(s') == Free(s) || (d == 1 && Free(s) != [] && Free(s') == Free(s)[1..]))
            case Panicked(s') => s' == s && d == 1 && Free(s) == []
            case Astray(_) => false
  {
    var v := Vpn(virt);
    LargeStep(s, data, d, v);
    var g := LargeFrame(s, d, v);
    if d == 2 {
      StrayStore(s, data, g, Index(v, 3), LeafEntry(phys, flags));
    } else {
      StrayNext(s, data, g, Index(v, 2));
      var (s1, o) := NextTable(s, g, Index(v, 2));
      if o.Some? {
        var data1 := if s1 == s then data else data + {o.value};
        assert Valid(s1, data1);
        StrayStore(s1, data1, o.value, Index(v, 3), LeafEntry(phys, flags));
      }
    }
  }

  // The step at the large-page entry.
  lemma LargeStep(s: State, data: set<nat>, d: nat, v: nat)
    requires Valid(s, data) && 1 <= d <= 2 && Slot(Frames(s.ram), s.root, PathOf(v)[..d + 1]) == Large
    ensures Calls(s, s.root, 0, v) == Calls(s, LargeFrame(s, d, v), d + 1, v)
  {
    var t := Frames(s.ram);
    assert PathOf(v)[..d + 1][..d] == PathOf(v)[..d];
    var f := Walk(t, s.root, PathOf(v)[..d]).value;
    assert f !in Avoid(s, data);
    CallsFollow(s, data, d, v, f);
    StepDown(t, s.root, f, d, v);
    assert t[f][Index(v, d)] == Load64(s.ram, EntryAddress(f, Index(v, d)));
  }

  // A call that finds its table maps its page if and only if no large page is on
  // the path, unless the page was mapped so before.
  lemma MapCallIff(s: State, data: set<nat>, virt: u64, phys: u64, flags: u64)
    requires Valid(s, data) && MapCall(s, virt, phys, flags).Found?
    requires forall d | 1 <= d <= 2 && Slot(Frames(s.ram), s.root, PathOf(Vpn(virt))[..d + 1]) == Large ::
      PageApart(s, d, Vpn(virt))
    ensures Vpn(virt) in Space(Frames(s.ram), s.root)
    ensures var s' := MapCall(s, virt, phys, flags).s;
      Vpn(virt) in Space(Frames(s'.ram), s'.root)
      && (Space(Frames(s'.ram), s'.root)[Vpn(virt)] == Some(LeafMapping(phys, flags))
          <==> Clear(AbsOf(s, data), Vpn(virt)) || Space(Frames(s.ram), s.root)[Vpn(virt)] == Some(LeafMapping(phys, flags)))
  {
    if Clear(AbsOf(s, data), Vpn(virt)) {
      ClearMaps(s, data, virt, phys, flags);
    } else {
      LargeKeeps(s, data, virt, phys, flags);
    }
  }

  lemma ClearMaps(s: State, data: set<nat>, virt: u64, phys: u64, flags: u64)
    requires Valid(s, data) && MapCall(s, virt, phys, flags).Found? && Clear(AbsOf(s, data), Vpn(virt))
    ensures var s' := MapCall(s, virt, phys, flags).s;
      Vpn(virt) in Space(Frames(s'.ram), s'.root)
      && Space(Frames(s'.ram), s'.root)[Vpn(virt)] == Some(LeafMapping(phys, flags))
    ensures Vpn(virt) in Space(Frames(s.ram), s.root)
  {
    MapPageRefines(s, data, virt, phys, flags);
    hide MapCall, Space, LeafMapping, Tree;
    ClearCall(s, virt, phys, flags);
    InSpace(Frames(s.ram), s.root, Vpn(virt));
  }

  lemma LargeKeeps(s: State, data: set<nat>, virt: u64, phys: u64, flags: u64)
    requires Valid(s, data) && MapCall(s, virt, phys, flags).Found? && !Clear(AbsOf(s, data), Vpn(virt))
    requires forall d | 1 <= d <= 2 && Slot(Frames(s.ram), s.root, PathOf(Vpn(virt))[..d + 1]) == Large ::
      PageApart(s, d, Vpn(virt))
    ensures var s' := MapCall(s, virt, phys, flags).s;
      Space(Frames(s'.ram), s'.root) == Space(Frames(s.ram), s.root)
    ensures Vpn(virt) in Space(Frames(s.ram), s.root)
  {
    hide MapCall, Space, PageApart;
    var v := Vpn(virt);
    var d :| 1 <= d <= 3 && PathOf(v)[..d] in AbsOf(s, data).large;
    NotAtRoot(s, v, d);
    LargeCall(s, data, d - 1, virt, phys, flags);
    InSpace(Frames(s.ram), s.root, v);
  }

  // The PML4 holds no large pages.
  lemma NotAtRoot(s: State, v: nat, d: nat)
    requires 1 <= d <= 3 && Slot(Frames(s.ram), s.root, PathOf(v)[..d]) == Large
    ensures d >= 2
  {
  }

  lemma InSpace(t: seq<Table>, root: nat, v: nat)
    requires v < VPN_LIMIT
    ensures v in Space(t, root)
  {
  }
}
