// The four-level page-table tree: the hardware's walk over it (long-mode page
// translation, section 5.3 of the AMD64 Architecture Programmer's Manual
// Volume 2), the invariant that keeps it a tree, and what the two writes that
// kernel/arch/x86_64/mem/vmm.cpp makes do to it.
module PageTables {
  import opened Bits
  import BitFields
  import opened Options
  import opened PhysicalMemory

  const PTE_PRESENT: u64 := 1
  const PTE_WRITABLE: u64 := 2
  const PTE_USER: u64 := 4
  const PTE_LARGE: u64 := 128

  const ADDRESS_MASK: u64 := 0x000F_FFFF_FFFF_F000
  const ATTRIBUTE_MASK: u64 := 0xFFF0_0000_0000_0FFF
  const MASK_1G: u64 := 0x000F_FFFF_C000_0000
  const MASK_2M: u64 := 0x000F_FFFF_FFE0_0000

  const VPN_LIMIT: nat := 0x10_0000_0000
  const FRAME_LIMIT: nat := 0x100_0000_0000

  // ------------------------------------------------------------- entries

  predicate Present(e: u64) { And(e, PTE_PRESENT) != 0 }

  function FrameOf(e: u64): nat { And(e, ADDRESS_MASK) / PAGE_SIZE }

  function AttributesOf(e: u64): nat { And(e, ATTRIBUTE_MASK) }

  // What an entry of a table at the given depth (0 = PML4) leads to; a table
  // with the rights its entry grants to everything below it.
  datatype Link = Absent | Large | Next(frame: nat, writable: bool, user: bool)

  function LinkOf(e: u64, depth: nat): Link {
    if !Present(e) then Absent
    else if depth >= 1 && And(e, PTE_LARGE) != 0 then Large
    else Next(FrameOf(e), And(e, PTE_WRITABLE) != 0, And(e, PTE_USER) != 0)
  }

  // The entry GetNextTable writes for a new table in frame g.
  function TableEntry(g: nat): u64
    requires g < FRAME_LIMIT
  {
    OrFits(PAGE_SIZE * g, PTE_PRESENT);
    OrFits(Or(PAGE_SIZE * g, PTE_PRESENT), PTE_WRITABLE);
    Or(Or(PAGE_SIZE * g, PTE_PRESENT), PTE_WRITABLE)
  }

  // Kernel code gives every new table the write right and not the user right.
  function NewTable(g: nat): Link { Next(g, true, false) }

  // The entry MapPage writes.
  function LeafEntry(phys: u64, flags: u64): u64 {
    AndBelow(phys, ADDRESS_MASK);
    OrFits(And(phys, ADDRESS_MASK), flags);
    OrFits(Or(And(phys, ADDRESS_MASK), flags), PTE_PRESENT);
    Or(Or(And(phys, ADDRESS_MASK), flags), PTE_PRESENT)
  }

  lemma OrFits(x: nat, y: nat)
    requires x < U64_LIMIT && y < U64_LIMIT
    ensures Or(x, y) < U64_LIMIT
  {
    PowersOfTwo();
    OrBelow(x, y, 64);
  }

  lemma TableEntryLink(g: nat, depth: nat)
    requires g < FRAME_LIMIT
    ensures LinkOf(TableEntry(g), depth) == NewTable(g)
  {
    TableEntryBits(g);
    MaskTableEntry(g, ADDRESS_MASK, 0xFF_FFFF_FFFF);
    Low40(g);
  }

  lemma TableEntryBits(g: nat)
    requires g < FRAME_LIMIT
    ensures Present(TableEntry(g)) && And(TableEntry(g), PTE_LARGE) == 0
    ensures And(TableEntry(g), PTE_WRITABLE) != 0 && And(TableEntry(g), PTE_USER) == 0
  {
    AndCommutes(g, 0);
    MaskTableEntry(g, PTE_PRESENT, 0);
    MaskTableEntry(g, PTE_LARGE, 0);
    MaskTableEntry(g, PTE_WRITABLE, 0);
    MaskTableEntry(g, PTE_USER, 0);
  }

  lemma MaskTableEntry(g: nat, z: nat, m: nat)
    requires g < FRAME_LIMIT && z / PAGE_SIZE == m
    ensures And(TableEntry(g), z) == Or(Or(PAGE_SIZE * And(g, m), And(1, z)), And(2, z))
  {
    AndOverOr(Or(PAGE_SIZE * g, 1), 2, z);
    AndOverOr(PAGE_SIZE * g, 1, z);
    PageUnderMask(g, z, m);
  }

  // An entry in numbers: bit 0 is present, bit 1 writable, bit 2 user, bit 7
  // large page; bits 12 to 51 are the frame, the rest the attributes.
  lemma EntryInNumbers(e: u64)
    ensures Present(e) <==> e % 2 == 1
    ensures And(e, PTE_WRITABLE) != 0 <==> e / 2 % 2 == 1
    ensures And(e, PTE_USER) != 0 <==> e / 4 % 2 == 1
    ensures And(e, PTE_LARGE) != 0 <==> e / 128 % 2 == 1
    ensures FrameOf(e) == e / 4096 % 0x100_0000_0000
    ensures AttributesOf(e) == e - 4096 * FrameOf(e)
  {
    BitInNumbers(e, 0, 1);
    BitInNumbers(e, 1, 2);
    BitInNumbers(e, 2, 4);
    BitInNumbers(e, 7, 128);
    FrameInNumbers(e);
    AttributesInNumbers(e);
  }

  // The addresses in large-page entries: bits 30 to 51 and bits 21 to 51.
  lemma LargeInNumbers(e: u64)
    ensures And(e, MASK_1G) == e / 0x4000_0000 % 0x40_0000 * 0x4000_0000
    ensures And(e, MASK_2M) == e / 0x20_0000 % 0x8000_0000 * 0x20_0000
  {
    PowersOfTwo();
    assert Pow2(22) == 2 * Pow2(21) && Pow2(31) == 2 * Pow2(30);
    BitFields.MaskedField(e, 30, 22, MASK_1G);
    BitFields.MaskedField(e, 21, 31, MASK_2M);
  }

  lemma BitInNumbers(e: u64, k: nat, mask: nat)
    requires k <= 7 && (k == 0 ==> mask == 1) && (k == 1 ==> mask == 2) && (k == 2 ==> mask == 4) && (k == 7 ==> mask == 128)
    requires k == 0 || k == 1 || k == 2 || k == 7
    ensures And(e, mask) != 0 <==> e / mask % 2 == 1
  {
    assert Pow2(0) == 1 && Pow2(1) == 2 && Pow2(2) == 4 && Pow2(3) == 8 && Pow2(4) == 16 && Pow2(5) == 32;
    assert Pow2(6) == 64 && Pow2(7) == 128;
    AndPower(e, k);
    BitByDivision(e, k);
  }

  lemma FrameInNumbers(e: u64)
    ensures And(e, ADDRESS_MASK) == 4096 * (e / 4096 % 0x100_0000_0000)
  {
    AndCommutes(e, ADDRESS_MASK);
    PageUnderMask(0xFF_FFFF_FFFF, e, e / 4096);
    AndCommutes(0xFF_FFFF_FFFF, e / 4096);
    Low40(e / 4096);
  }

  lemma AttributesInNumbers(e: u64)
    ensures And(e, ADDRESS_MASK) + And(e, ATTRIBUTE_MASK) == e
  {
    MasksCover();
    DisjointMasks();
    Low64(e);
    AndCommutes(e, Or(ADDRESS_MASK, ATTRIBUTE_MASK));
    AndOverOr(ADDRESS_MASK, ATTRIBUTE_MASK, e);
    AndCommutes(ADDRESS_MASK, e);
    AndCommutes(ATTRIBUTE_MASK, e);
    AndAssoc(And(e, ADDRESS_MASK), e, ATTRIBUTE_MASK);
    PartsApart(e);
    OrDisjoint(And(e, ADDRESS_MASK), And(e, ATTRIBUTE_MASK));
  }

  lemma PartsApart(e: u64)
    ensures And(And(e, ADDRESS_MASK), And(e, ATTRIBUTE_MASK)) == 0
  {
    AndCommutes(e, ADDRESS_MASK);
    AndAssoc(ADDRESS_MASK, e, And(e, ATTRIBUTE_MASK));
    AndAssoc(e, e, ATTRIBUTE_MASK);
    AndSelf(e);
    AndCommutes(e, ATTRIBUTE_MASK);
    AndAssoc(ADDRESS_MASK, ATTRIBUTE_MASK, e);
    DisjointMasks();
  }

  // MapPage's leaf holds exactly the frame of phys and the given flags, plus
  // the present bit, when flags has no address bits.
  lemma LeafEntryParts(phys: u64, flags: u64)
    requires And(flags, ADDRESS_MASK) == 0
    ensures Present(LeafEntry(phys, flags))
    ensures FrameOf(LeafEntry(phys, flags)) == FrameOf(phys)
    ensures AttributesOf(LeafEntry(phys, flags)) == Or(flags, PTE_PRESENT)
  {
    LeafMasks();
    MaskLeafEntry(phys, flags, PTE_PRESENT);
    MaskLeafEntry(phys, flags, ADDRESS_MASK);
    MaskLeafEntry(phys, flags, ATTRIBUTE_MASK);
    MasksCover();
    Low64(flags);
    KeepBits(flags, ADDRESS_MASK, ATTRIBUTE_MASK);
    AndCommutes(phys, 0);
  }

  // What MapPage's leaf says for any flags.
  function LeafMapping(phys: u64, flags: u64): Mapping {
    Mapping(FrameOf(LeafEntry(phys, flags)), AttributesOf(LeafEntry(phys, flags)))
  }

  lemma LeafPresent(phys: u64, flags: u64)
    ensures Present(LeafEntry(phys, flags))
  {
    LeafMasks();
    MaskLeafEntry(phys, flags, PTE_PRESENT);
    AndCommutes(phys, 0);
    OrOne(And(flags, 1));
  }

  lemma OrOne(x: nat)
    ensures Or(x, 1) != 0
  {
  }

  // The page gets the frame it was given and exactly the given flags if and only
  // if the flags hold no address bits.
  lemma LeafMappingIff(phys: u64, flags: u64)
    ensures LeafMapping(phys, flags) == Mapping(FrameOf(phys), Or(flags, PTE_PRESENT))
       <==> And(flags, ADDRESS_MASK) == 0
  {
    if And(flags, ADDRESS_MASK) == 0 {
      LeafEntryParts(phys, flags);
    } else {
      LeafMasks();
      AndAssoc(LeafEntry(phys, flags), ATTRIBUTE_MASK, ADDRESS_MASK);
      AndCommutes(ATTRIBUTE_MASK, ADDRESS_MASK);
      AndCommutes(LeafEntry(phys, flags), 0);
      AndOverOr(flags, PTE_PRESENT, ADDRESS_MASK);
    }
  }

  // Flags with the lowest address bit move page 0 to another frame.
  lemma FlagsMoveFrame()
    ensures LeafMapping(0, 0x1000) != Mapping(FrameOf(0), Or(0x1000, PTE_PRESENT))
  {
    LeafMappingIff(0, 0x1000);
    PageUnderMask(1, ADDRESS_MASK, 0xFF_FFFF_FFFF);
    Low40(1);
  }

  // The rights a leaf grants are the flags' own, address bits or not.
  lemma LeafRights(phys: u64, flags: u64, right: u64)
    requires right == PTE_WRITABLE || right == PTE_USER
    ensures And(AttributesOf(LeafEntry(phys, flags)), right) == And(flags, right)
  {
    RightMasks();
    AndAssoc(LeafEntry(phys, flags), ATTRIBUTE_MASK, right);
    MaskLeafEntry(phys, flags, right);
    AndCommutes(phys, 0);
  }

  lemma RightMasks()
    ensures And(ATTRIBUTE_MASK, PTE_WRITABLE) == PTE_WRITABLE && And(ATTRIBUTE_MASK, PTE_USER) == PTE_USER
    ensures And(ADDRESS_MASK, PTE_WRITABLE) == 0 && And(ADDRESS_MASK, PTE_USER) == 0
    ensures And(1, PTE_WRITABLE) == 0 && And(1, PTE_USER) == 0
  {
  }

  lemma LeafMasks()
    ensures And(ADDRESS_MASK, ADDRESS_MASK) == ADDRESS_MASK && And(1, ADDRESS_MASK) == 0
    ensures And(ADDRESS_MASK, PTE_PRESENT) == 0 && And(1, PTE_PRESENT) == 1
    ensures And(ADDRESS_MASK, ATTRIBUTE_MASK) == 0 && And(1, ATTRIBUTE_MASK) == 1
  {
    AndSelf(ADDRESS_MASK);
    DisjointMasks();
  }

  lemma MaskLeafEntry(phys: u64, flags: u64, z: nat)
    ensures And(LeafEntry(phys, flags), z)
         == Or(Or(And(phys, And(ADDRESS_MASK, z)), And(flags, z)), And(1, z))
  {
    var a := And(phys, ADDRESS_MASK);
    AndOverOr(Or(a, flags), 1, z);
    AndOverOr(a, flags, z);
    AndAssoc(phys, ADDRESS_MASK, z);
  }

  lemma DisjointMasks()
    ensures And(ADDRESS_MASK, ATTRIBUTE_MASK) == 0
  {
    FrameMaskDisjoint(0xFF_FFFF_FFFF, ADDRESS_MASK, ATTRIBUTE_MASK);
  }

  lemma MasksCover()
    ensures Or(ADDRESS_MASK, ATTRIBUTE_MASK) == 0xFFFF_FFFF_FFFF_FFFF
  {
    DisjointMasks();
    OrDisjoint(ADDRESS_MASK, ATTRIBUTE_MASK);
  }

  // ------------------------------------------------------------- indices

  // The 9-bit index that virtual page number v selects at depth d.
  function Index(v: nat, d: nat): (i: nat)
    requires d < 4
    ensures i < ENTRIES
  {
    if d == 0 then v / 0x800_0000 % 512
    else if d == 1 then v / 0x4_0000 % 512
    else if d == 2 then v / 512 % 512
    else v % 512
  }

  function Vpn(virt: u64): (v: nat)
    ensures v < VPN_LIMIT
  {
    virt / PAGE_SIZE % VPN_LIMIT
  }

  // The source's shifts and masks compute these indices.
  lemma ShiftedIndex(virt: u64)
    ensures And(virt / 0x80_0000_0000, 0x1FF) == Index(Vpn(virt), 0)
    ensures And(virt / 0x4000_0000, 0x1FF) == Index(Vpn(virt), 1)
    ensures And(virt / 0x20_0000, 0x1FF) == Index(Vpn(virt), 2)
    ensures And(virt / 0x1000, 0x1FF) == Index(Vpn(virt), 3)
  {
    PageIndex0(virt);
    PageIndex1(virt);
    PageIndex2(virt);
    Low9(virt / 0x1000);
    MultipleOf512(0x800_0000 * (virt / PAGE_SIZE / VPN_LIMIT), Vpn(virt));
  }

  lemma PageIndex0(virt: u64)
    ensures And(virt / 0x80_0000_0000, 0x1FF) == Index(Vpn(virt), 0)
  {
    Low9(virt / 0x80_0000_0000);
    var x, v := virt / PAGE_SIZE, Vpn(virt);
    var q := x / VPN_LIMIT;
    assert x / 0x800_0000 == 512 * q + v / 0x800_0000;
    assert virt / 0x80_0000_0000 == x / 0x800_0000;
    MultipleOf512(q, v / 0x800_0000);
  }

  lemma PageIndex1(virt: u64)
    ensures And(virt / 0x4000_0000, 0x1FF) == Index(Vpn(virt), 1)
  {
    Low9(virt / 0x4000_0000);
    var x, v := virt / PAGE_SIZE, Vpn(virt);
    var q := x / VPN_LIMIT;
    assert x / 0x4_0000 == 0x4_0000 * q + v / 0x4_0000;
    assert virt / 0x4000_0000 == x / 0x4_0000;
    MultipleOf512(512 * q, v / 0x4_0000);
  }

  lemma PageIndex2(virt: u64)
    ensures And(virt / 0x20_0000, 0x1FF) == Index(Vpn(virt), 2)
  {
    Low9(virt / 0x20_0000);
    var x, v := virt / PAGE_SIZE, Vpn(virt);
    var q := x / VPN_LIMIT;
    assert x / 512 == 0x800_0000 * q + v / 512;
    assert virt / 0x20_0000 == x / 512;
    MultipleOf512(0x4_0000 * q, v / 512);
  }

  lemma MultipleOf512(k: nat, y: nat)
    ensures (512 * k + y) % 512 == y % 512
  {
  }

  lemma IndicesDetermine(v: nat, w: nat)
    requires v < VPN_LIMIT && w < VPN_LIMIT
    requires forall d | 0 <= d < 4 :: Index(v, d) == Index(w, d)
    ensures v == w
  {
    IndicesCompose(v);
    IndicesCompose(w);
    assert Index(v, 0) == Index(w, 0) && Index(v, 1) == Index(w, 1);
    assert Index(v, 2) == Index(w, 2) && Index(v, 3) == Index(w, 3);
  }

  lemma IndicesCompose(v: nat)
    requires v < VPN_LIMIT
    ensures v == 0x800_0000 * Index(v, 0) + 0x4_0000 * Index(v, 1) + 512 * Index(v, 2) + Index(v, 3)
  {
    var a := v / 512;
    var b := a / 512;
    var c := b / 512;
    assert b == v / 0x4_0000 && c == v / 0x800_0000;
    assert c < 512;
    assert v == 512 * a + v % 512 && a == 512 * b + a % 512 && b == 512 * c + b % 512;
  }

  // ------------------------------------------------------------- paths

  // The indices that lead from the root to a table: at most three of them.
  type Path = seq<nat>

  predicate IsPath(p: Path) {
    |p| <= 3 && forall i :: 0 <= i < |p| ==> p[i] < ENTRIES
  }

  function PathOf(v: nat): (p: Path)
    ensures IsPath(p) && |p| == 3
    ensures forall d :: 0 <= d < 3 ==> p[d] == Index(v, d)
  {
    [Index(v, 0), Index(v, 1), Index(v, 2)]
  }

  // The link that non-empty path p ends with, and the table path p reaches.
  function Slot(t: seq<Table>, root: nat, p: Path): Link
    requires IsPath(p) && p != []
    decreases |p|, 0
  {
    match Walk(t, root, p[..|p| - 1])
    case Some(f) => if f < |t| then LinkOf(t[f][p[|p| - 1]], |p| - 1) else Absent
    case None => Absent
  }

  function Walk(t: seq<Table>, root: nat, p: Path): Option<nat>
    requires IsPath(p)
    decreases |p|, 1
  {
    if p == [] then Some(root)
    else match Slot(t, root, p)
      case Next(f, _, _) => Some(f)
      case _ => None
  }

  // The tables form a tree that stays inside memory and off the frames to avoid.
  ghost predicate Tree(t: seq<Table>, root: nat, avoid: set<nat>) {
    && (forall p :: IsPath(p) && Walk(t, root, p).Some? ==>
          Walk(t, root, p).value < |t| && Walk(t, root, p).value !in avoid)
    && (forall p, q ::
          IsPath(p) && IsPath(q) && Walk(t, root, p).Some? && Walk(t, root, p) == Walk(t, root, q) ==> p == q)
  }

  lemma {:induction false} UnlinkedBelow(t: seq<Table>, root: nat, p: Path, q: Path)
    requires IsPath(q) && p <= q && Walk(t, root, p).None?
    ensures Walk(t, root, q).None?
    ensures p != q ==> Slot(t, root, q) == Absent
    decreases |q|
  {
    if p != q { UnlinkedBelow(t, root, p, q[..|q| - 1]); }
  }

  // ------------------------------------------------------------- translation

  datatype Mapping = Mapping(frame: nat, attributes: nat)

  // The processor's walk for page v, from the table in frame f at depth d.
  function Translate(t: seq<Table>, f: nat, d: nat, v: nat): Option<Mapping>
    requires d < 4
    decreases 4 - d
  {
    if f >= |t| then None
    else
      var e := t[f][Index(v, d)];
      if !Present(e) then None
      else if d == 3 then Some(Mapping(FrameOf(e), AttributesOf(e)))
      else if d == 1 && And(e, PTE_LARGE) != 0 then
        Some(Mapping(And(e, MASK_1G) / PAGE_SIZE + v % 0x4_0000, AttributesOf(e)))
      else if d == 2 && And(e, PTE_LARGE) != 0 then
        Some(Mapping(And(e, MASK_2M) / PAGE_SIZE + v % 512, AttributesOf(e)))
      else Translate(t, FrameOf(e), d + 1, v)
  }

  // The whole address space as a map from virtual page numbers.
  function Space(t: seq<Table>, root: nat): map<nat, Option<Mapping>> {
    map v: nat | v < VPN_LIMIT :: Translate(t, root, 0, v)
  }

  // ------------------------------------------------------------- frame property

  // Writing only frames the tree avoids changes no walk ...
  lemma {:induction false} WalkOffTree(t: seq<Table>, t': seq<Table>, root: nat, avoid: set<nat>, p: Path)
    requires IsPath(p) && Tree(t, root, avoid) && |t'| == |t|
    requires forall f :: 0 <= f < |t| && f !in avoid ==> t'[f] == t[f]
    ensures Walk(t', root, p) == Walk(t, root, p)
    ensures p != [] ==> Slot(t', root, p) == Slot(t, root, p)
    decreases |p|
  {
    if p != [] { WalkOffTree(t, t', root, avoid, p[..|p| - 1]); }
  }

  // ... and no translation.
  lemma {:induction false} TranslateOffTree(t: seq<Table>, t': seq<Table>, root: nat, avoid: set<nat>, f: nat, d: nat, v: nat)
    requires d < 4 && Tree(t, root, avoid) && |t'| == |t|
    requires forall f :: 0 <= f < |t| && f !in avoid ==> t'[f] == t[f]
    requires Walk(t, root, PathOf(v)[..d]) == Some(f)
    ensures Translate(t', f, d, v) == Translate(t, f, d, v)
    decreases 4 - d
  {
    var e := t[f][Index(v, d)];
    if d < 3 && LinkOf(e, d).Next? {
      StepDown(t, root, f, d, v);
      TranslateOffTree(t, t', root, avoid, FrameOf(e), d + 1, v);
    }
  }

  // One level of page v's walk.
  lemma StepDown(t: seq<Table>, root: nat, f: nat, d: nat, v: nat)
    requires d < 3 && Walk(t, root, PathOf(v)[..d]) == Some(f) && f < |t|
    ensures Slot(t, root, PathOf(v)[..d + 1]) == LinkOf(t[f][Index(v, d)], d)
  {
    assert PathOf(v)[..d + 1][..d] == PathOf(v)[..d];
  }

  // A tree is told by its walks.
  lemma TreeByWalks(t: seq<Table>, t': seq<Table>, root: nat, avoid: set<nat>)
    requires Tree(t, root, avoid) && |t'| == |t|
    requires forall q :: IsPath(q) ==> Walk(t', root, q) == Walk(t, root, q)
    ensures Tree(t', root, avoid)
  {
    hide Walk, Slot;
  }

  lemma TreeOffTree(t: seq<Table>, t': seq<Table>, root: nat, avoid: set<nat>)
    requires Tree(t, root, avoid) && |t'| == |t|
    requires forall f :: 0 <= f < |t| && f !in avoid ==> t'[f] == t[f]
    ensures Tree(t', root, avoid) && Space(t', root) == Space(t, root)
    ensures forall q :: IsPath(q) ==> Walk(t', root, q) == Walk(t, root, q)
    ensures forall q :: IsPath(q) && q != [] ==> Slot(t', root, q) == Slot(t, root, q)
  {
    forall q | IsPath(q)
      ensures Walk(t', root, q) == Walk(t, root, q)
      ensures q != [] ==> Slot(t', root, q) == Slot(t, root, q)
    {
      WalkOffTree(t, t', root, avoid, q);
    }
    TreeByWalks(t, t', root, avoid);
    forall v: nat | v < VPN_LIMIT ensures Translate(t', root, 0, v) == Translate(t, root, 0, v) {
      TranslateOffTree(t, t', root, avoid, root, 0, v);
    }
  }

  // ------------------------------------------------------------- a new table

  // Zero frame g and link it as entry i of the table in frame f.
  function WithTable(t: seq<Table>, f: nat, i: nat, g: nat): seq<Table>
    requires f < |t| && g < |t| && g < FRAME_LIMIT && i < ENTRIES
  {
    t[g := ZeroTable()][f := t[f][i := TableEntry(g)]]
  }

  // The situation GetNextTable is in when it has to create a table.
  ghost predicate CanLink(t: seq<Table>, root: nat, avoid: set<nat>, p: Path, i: nat, f: nat, g: nat) {
    && Tree(t, root, avoid)
    && IsPath(p) && |p| <= 2 && i < ENTRIES
    && Walk(t, root, p) == Some(f) && f < |t| && Slot(t, root, p + [i]) == Absent
    && g in avoid && g < |t| && g < FRAME_LIMIT
  }

  lemma {:induction false} WalkWithTable(t: seq<Table>, root: nat, avoid: set<nat>, p: Path, i: nat, f: nat, g: nat, q: Path)
    requires CanLink(t, root, avoid, p, i, f, g) && IsPath(q)
    ensures Walk(WithTable(t, f, i, g), root, q) == if q == p + [i] then Some(g) else Walk(t, root, q)
    decreases |q|
  {
    if q != [] {
      WalkWithTable(t, root, avoid, p, i, f, g, q[..|q| - 1]);
      SlotWithTable(t, root, avoid, p, i, f, g, q);
      WalkFromSlot(t, root, q);
      WalkFromSlot(WithTable(t, f, i, g), root, q);
    }
  }

  lemma WalkFromSlot(t: seq<Table>, root: nat, q: Path)
    requires IsPath(q) && q != []
    ensures Walk(t, root, q) == match Slot(t, root, q) case Next(f, _, _) => Some(f) case _ => None
  {
  }

  // One level: the slot at q once the walk to its table is known.
  lemma SlotWithTable(t: seq<Table>, root: nat, avoid: set<nat>, p: Path, i: nat, f: nat, g: nat, q: Path)
    requires CanLink(t, root, avoid, p, i, f, g) && IsPath(q) && q != []
    requires Walk(WithTable(t, f, i, g), root, q[..|q| - 1]) ==
      if q[..|q| - 1] == p + [i] then Some(g) else Walk(t, root, q[..|q| - 1])
    ensures Slot(WithTable(t, f, i, g), root, q) == if q == p + [i] then NewTable(g) else Slot(t, root, q)
  {
    var q0, j := q[..|q| - 1], q[|q| - 1];
    var t' := WithTable(t, f, i, g);
    assert q == q0 + [j];
    if q0 == p + [i] {
      assert t'[g] == ZeroTable();
      UnlinkedBelow(t, root, p + [i], q);
    } else if q == p + [i] {
      TableEntryLink(g, |p|);
    } else if Walk(t, root, q0).Some? {
      var h := Walk(t, root, q0).value;
      assert h != g;
      assert !(h == f && j == i);
      assert t'[h][j] == t[h][j];
    }
  }

  // Every page translates as before: the new table is empty and the slot it
  // fills was absent.
  lemma {:induction false} TranslateWithTable(t: seq<Table>, root: nat, avoid: set<nat>, p: Path, i: nat, f: nat, g: nat, h: nat, d: nat, v: nat)
    requires CanLink(t, root, avoid, p, i, f, g) && d < 4
    requires Walk(t, root, PathOf(v)[..d]) == Some(h)
    ensures Translate(WithTable(t, f, i, g), h, d, v) == Translate(t, h, d, v)
    decreases 4 - d
  {
    var t' := WithTable(t, f, i, g);
    var e := t[h][Index(v, d)];
    if h == f && Index(v, d) == i {
      assert PathOf(v)[..d] == p;
      StepDown(t, root, f, d, v);
      assert PathOf(v)[..d + 1] == p + [i];
      TableEntryLink(g, d);
      assert Translate(t', g, d + 1, v) == None;
    } else {
      assert t'[h][Index(v, d)] == e;
      if d < 3 && LinkOf(e, d).Next? {
        StepDown(t, root, h, d, v);
        TranslateWithTable(t, root, avoid, p, i, f, g, FrameOf(e), d + 1, v);
      }
    }
  }

  lemma LinkTable(t: seq<Table>, root: nat, avoid: set<nat>, p: Path, i: nat, f: nat, g: nat)
    requires CanLink(t, root, avoid, p, i, f, g)
    ensures Tree(WithTable(t, f, i, g), root, avoid - {g})
    ensures Space(WithTable(t, f, i, g), root) == Space(t, root)
    ensures forall q :: IsPath(q) ==>
      Walk(WithTable(t, f, i, g), root, q) == if q == p + [i] then Some(g) else Walk(t, root, q)
    ensures forall q :: IsPath(q) && q != [] ==>
      Slot(WithTable(t, f, i, g), root, q) == if q == p + [i] then NewTable(g) else Slot(t, root, q)
  {
    var t' := WithTable(t, f, i, g);
    LinkedWalks(t, root, avoid, p, i, f, g);
    OneMoreTable(t, t', root, avoid, p + [i], g);
    forall v: nat | v < VPN_LIMIT ensures Translate(t', root, 0, v) == Translate(t, root, 0, v) {
      TranslateWithTable(t, root, avoid, p, i, f, g, root, 0, v);
    }
  }

  lemma LinkedWalks(t: seq<Table>, root: nat, avoid: set<nat>, p: Path, i: nat, f: nat, g: nat)
    requires CanLink(t, root, avoid, p, i, f, g)
    ensures forall q :: IsPath(q) ==>
      Walk(WithTable(t, f, i, g), root, q) == if q == p + [i] then Some(g) else Walk(t, root, q)
    ensures forall q :: IsPath(q) && q != [] ==>
      Slot(WithTable(t, f, i, g), root, q) == if q == p + [i] then NewTable(g) else Slot(t, root, q)
  {
    var t' := WithTable(t, f, i, g);
    forall q | IsPath(q)
      ensures Walk(t', root, q) == if q == p + [i] then Some(g) else Walk(t, root, q)
      ensures q != [] ==> Slot(t', root, q) == if q == p + [i] then NewTable(g) else Slot(t, root, q)
    {
      WalkWithTable(t, root, avoid, p, i, f, g, q);
      if q != [] {
        WalkWithTable(t, root, avoid, p, i, f, g, q[..|q| - 1]);
        SlotWithTable(t, root, avoid, p, i, f, g, q);
      }
    }
  }

  // A tree with one more path, to a frame that it avoided, is a tree.
  lemma OneMoreTable(t: seq<Table>, t': seq<Table>, root: nat, avoid: set<nat>, r: Path, g: nat)
    requires Tree(t, root, avoid) && |t'| == |t| && g in avoid && g < |t|
    requires forall q :: IsPath(q) ==> Walk(t', root, q) == if q == r then Some(g) else Walk(t, root, q)
    ensures Tree(t', root, avoid - {g})
  {
    hide Walk, Slot;
  }

  // ------------------------------------------------------------- the leaf write

  function WithLeaf(t: seq<Table>, f: nat, v: nat, e: u64): seq<Table>
    requires f < |t|
  {
    t[f := t[f][Index(v, 3) := e]]
  }

  lemma {:induction false} WalkWithLeaf(t: seq<Table>, root: nat, avoid: set<nat>, f: nat, v: nat, e: u64, q: Path)
    requires Tree(t, root, avoid) && Walk(t, root, PathOf(v)) == Some(f) && IsPath(q)
    ensures Walk(WithLeaf(t, f, v, e), root, q) == Walk(t, root, q)
    ensures q != [] ==> Slot(WithLeaf(t, f, v, e), root, q) == Slot(t, root, q)
    decreases |q|
  {
    if q != [] {
      var q0 := q[..|q| - 1];
      WalkWithLeaf(t, root, avoid, f, v, e, q0);
      assert q0 != PathOf(v);
    }
  }

  lemma {:induction false} TranslateWithLeaf(t: seq<Table>, root: nat, avoid: set<nat>, f: nat, v: nat, e: u64, h: nat, d: nat, w: nat)
    requires Tree(t, root, avoid) && Walk(t, root, PathOf(v)) == Some(f) && d < 4
    requires v < VPN_LIMIT && w < VPN_LIMIT && Present(e)
    requires Walk(t, root, PathOf(w)[..d]) == Some(h)
    ensures Translate(WithLeaf(t, f, v, e), h, d, w) ==
      if w == v then Some(Mapping(FrameOf(e), AttributesOf(e))) else Translate(t, h, d, w)
    decreases 4 - d
  {
    if d == 3 {
      TranslateAtLeaf(t, root, avoid, f, v, e, h, w);
    } else {
      var x := t[h][Index(w, d)];
      DepthsDiffer(t, root, avoid, PathOf(w)[..d], PathOf(v));
      StepDown(t, root, h, d, w);
      if w == v {
        LinkedAbove(t, root, PathOf(v), d + 1);
      }
      if LinkOf(x, d).Next? {
        TranslateWithLeaf(t, root, avoid, f, v, e, FrameOf(x), d + 1, w);
      }
    }
  }

  lemma TranslateAtLeaf(t: seq<Table>, root: nat, avoid: set<nat>, f: nat, v: nat, e: u64, h: nat, w: nat)
    requires Tree(t, root, avoid) && Walk(t, root, PathOf(v)) == Some(f)
    requires v < VPN_LIMIT && w < VPN_LIMIT && Present(e)
    requires Walk(t, root, PathOf(w)[..3]) == Some(h)
    ensures Translate(WithLeaf(t, f, v, e), h, 3, w) ==
      if w == v then Some(Mapping(FrameOf(e), AttributesOf(e))) else Translate(t, h, 3, w)
  {
    assert PathOf(w)[..3] == PathOf(w);
    if h == f && Index(w, 3) == Index(v, 3) {
      assert forall k :: 0 <= k < 3 ==> PathOf(w)[k] == PathOf(v)[k];
      IndicesDetermine(v, w);
    }
  }

  // Tables at different depths are different frames.
  lemma DepthsDiffer(t: seq<Table>, root: nat, avoid: set<nat>, p: Path, q: Path)
    requires Tree(t, root, avoid) && IsPath(p) && IsPath(q) && |p| != |q|
    requires Walk(t, root, p).Some?
    ensures Walk(t, root, p) != Walk(t, root, q)
  {
  }

  // Every table on the way to a linked table is linked.
  lemma {:induction false} LinkedAbove(t: seq<Table>, root: nat, p: Path, d: nat)
    requires IsPath(p) && Walk(t, root, p).Some? && d <= |p|
    ensures Walk(t, root, p[..d]).Some?
    ensures d > 0 ==> Slot(t, root, p[..d]).Next? && Slot(t, root, p[..d]).frame == Walk(t, root, p[..d]).value
    decreases |p|
  {
    if d < |p| {
      LinkedAbove(t, root, p[..|p| - 1], d);
      assert p[..|p| - 1][..d] == p[..d];
    } else {
      assert p[..d] == p;
    }
  }

  lemma SetLeaf(t: seq<Table>, root: nat, avoid: set<nat>, f: nat, v: nat, e: u64)
    requires Tree(t, root, avoid) && Walk(t, root, PathOf(v)) == Some(f)
    requires v < VPN_LIMIT && Present(e)
    ensures Tree(WithLeaf(t, f, v, e), root, avoid)
    ensures Space(WithLeaf(t, f, v, e), root) == Space(t, root)[v := Some(Mapping(FrameOf(e), AttributesOf(e)))]
    ensures forall q :: IsPath(q) ==> Walk(WithLeaf(t, f, v, e), root, q) == Walk(t, root, q)
    ensures forall q :: IsPath(q) && q != [] ==> Slot(WithLeaf(t, f, v, e), root, q) == Slot(t, root, q)
  {
    var t' := WithLeaf(t, f, v, e);
    forall q | IsPath(q)
      ensures Walk(t', root, q) == Walk(t, root, q)
      ensures q != [] ==> Slot(t', root, q) == Slot(t, root, q)
    {
      WalkWithLeaf(t, root, avoid, f, v, e, q);
    }
    TreeByWalks(t, t', root, avoid);
    forall w: nat | w < VPN_LIMIT
      ensures Translate(t', root, 0, w) ==
        if w == v then Some(Mapping(FrameOf(e), AttributesOf(e))) else Translate(t, root, 0, w)
    {
      TranslateWithLeaf(t, root, avoid, f, v, e, root, 0, w);
    }
  }
}
