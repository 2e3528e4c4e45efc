// The boot loader's memory map and which pages the allocator should start with
// (kernel/arch/x86_64/mem/pmm.cpp, PMM::Init).
module MemoryMap {
  import opened Bits
  import opened PhysicalMemory

  datatype Entry = Entry(base: u64, length: u64, usable: bool)

  // base + length rounded up never wraps a 64-bit address.
  predicate NoWrap(entries: seq<Entry>) {
    forall k :: 0 <= k < |entries| ==> entries[k].base + entries[k].length + 4095 < U64_LIMIT
  }

  // The Memory Map guarantee of the Limine Boot Protocol: usable entries are
  // page-aligned, not empty, and overlap no other entry.
  predicate WellFormedMap(entries: seq<Entry>) {
    && (forall k :: 0 <= k < |entries| && entries[k].usable ==>
          entries[k].base % PAGE_SIZE == 0 && entries[k].length % PAGE_SIZE == 0 && entries[k].length > 0)
    && (forall j, k :: 0 <= j < |entries| && 0 <= k < |entries| && j != k && entries[j].usable ==>
          Apart(entries[j], entries[k]))
  }

  predicate Apart(e: Entry, d: Entry) {
    e.base + e.length <= d.base || d.base + d.length <= e.base
  }

  // ------------------------------------------------------------- sizes

  function Highest(entries: seq<Entry>): nat {
    if entries == [] then 0
    else
      var e := entries[|entries| - 1];
      var h := Highest(entries[..|entries| - 1]);
      if e.usable && e.base + e.length > h then e.base + e.length else h
  }

  lemma {:induction false} HighestCovers(entries: seq<Entry>, k: nat)
    requires k < |entries| && entries[k].usable
    ensures entries[k].base + entries[k].length <= Highest(entries)
  {
    if k < |entries| - 1 { HighestCovers(entries[..|entries| - 1], k); }
  }

  lemma {:induction false} HighestReached(entries: seq<Entry>)
    ensures Highest(entries) == 0 || exists k :: 0 <= k < |entries| && entries[k].usable
                                                 && entries[k].base + entries[k].length == Highest(entries)
  {
    if entries != [] {
      var n := |entries| - 1;
      HighestReached(entries[..n]);
      if Highest(entries) != 0 && Highest(entries) == Highest(entries[..n]) {
        var k :| 0 <= k < n && entries[..n][k].usable && entries[..n][k].base + entries[..n][k].length == Highest(entries);
        assert entries[k] == entries[..n][k];
      }
    }
  }

  function Pages(entries: seq<Entry>): nat { Highest(entries) / PAGE_SIZE }

  function BitmapBytes(entries: seq<Entry>): nat { Pages(entries) / 8 }

  predicate CanHold(e: Entry, bytes: nat) { e.usable && e.length >= bytes && e.base > 0 }

  // The base of the first entry from k on that can hold the bitmap, or 0.
  function Spot(entries: seq<Entry>, bytes: nat, k: nat): nat
    requires k <= |entries|
    decreases |entries| - k
  {
    if k == |entries| then 0
    else if CanHold(entries[k], bytes) then entries[k].base
    else Spot(entries, bytes, k + 1)
  }

  lemma {:induction false} SpotIsUsable(entries: seq<Entry>, bytes: nat, k: nat)
    requires k <= |entries|
    ensures Spot(entries, bytes, k) > 0 ==>
      exists j :: 0 <= j < |entries| && CanHold(entries[j], bytes) && entries[j].base == Spot(entries, bytes, k)
    decreases |entries| - k
  {
    if k < |entries| && !CanHold(entries[k], bytes) { SpotIsUsable(entries, bytes, k + 1); }
  }

  function BitmapBase(entries: seq<Entry>): nat { Spot(entries, BitmapBytes(entries), 0) }

  // ------------------------------------------------------------- page classes

  predicate InPages(p: nat, start: nat, count: nat) { start <= p < start + count }

  // The whole pages that init frees for a usable entry.
  predicate Opens(e: Entry, p: nat) {
    e.usable && InPages(p, e.base / PAGE_SIZE, e.length / PAGE_SIZE)
  }

  // The page range that init locks for an entry that is not usable.
  predicate Closes(e: Entry, p: nat) {
    !e.usable && InPages(p, e.base / PAGE_SIZE, (e.length + 4095) / PAGE_SIZE)
  }

  predicate Usable(entries: seq<Entry>, p: nat) {
    exists k :: 0 <= k < |entries| && Opens(entries[k], p)
  }

  predicate Reserved(entries: seq<Entry>, p: nat) {
    exists k :: 0 <= k < |entries| && Closes(entries[k], p)
  }

  predicate HoldsMap(entries: seq<Entry>, p: nat) {
    InPages(p, BitmapBase(entries) / PAGE_SIZE, (BitmapBytes(entries) + 4095) / PAGE_SIZE)
  }

  predicate Locked(entries: seq<Entry>, p: nat) {
    p < 256 || HoldsMap(entries, p) || Reserved(entries, p)
  }

  // The pages that should be free after init.
  predicate ShouldBeFree(entries: seq<Entry>, p: nat) {
    Usable(entries, p) && !Locked(entries, p)
  }

  // ------------------------------------------------------------- the bitmap's tail

  // What init leaves in page p's bit, when the bit was `stale` before init: the
  // 0xFF fill covers the whole bytes of Pages/8 only.
  predicate FreeAfterInit(entries: seq<Entry>, p: nat, stale: bool) {
    !Locked(entries, p) && (Usable(entries, p) || (p / 8 >= BitmapBytes(entries) && !stale))
  }

  // Init's result is the intended one whatever memory held before, exactly when
  // every page past the last whole bitmap byte lies in a usable entry (or is locked
  // for another reason).  That holds in particular when the page count is a
  // multiple of eight.
  lemma InitExactIff(entries: seq<Entry>)
    ensures (forall p, stale :: 0 <= p < Pages(entries) ==>
               (FreeAfterInit(entries, p, stale) <==> ShouldBeFree(entries, p)))
       <==> (forall p :: 8 * BitmapBytes(entries) <= p < Pages(entries) ==> Usable(entries, p) || Locked(entries, p))
  {
    if forall p, stale :: 0 <= p < Pages(entries) ==> (FreeAfterInit(entries, p, stale) <==> ShouldBeFree(entries, p)) {
      forall p | 8 * BitmapBytes(entries) <= p < Pages(entries) ensures Usable(entries, p) || Locked(entries, p) {
        assert FreeAfterInit(entries, p, false) <==> ShouldBeFree(entries, p);
      }
    }
  }

  // A map whose last partial byte covers a hole: page 256 is not in any entry,
  // yet init leaves it free when its byte held zeros.
  lemma InitTailCounterexample()
    ensures var entries := [Entry(0x1000, 0x9_F000, true), Entry(0x10_1000, 0x1000, true)];
      && Pages(entries) == 258
      && FreeAfterInit(entries, 256, false) && !ShouldBeFree(entries, 256)
  {
    var entries := [Entry(0x1000, 0x9_F000, true), Entry(0x10_1000, 0x1000, true)];
    var one := entries[..1];
    assert one == [entries[0]] && one[..0] == [];
    assert Highest(one) == 0xA_0000;
    assert entries[..2 - 1] == one;
    assert Highest(entries) == 0x10_2000;
    assert CanHold(entries[0], 32);
    assert Spot(entries, 32, 0) == 0x1000;
    assert !Opens(entries[0], 256) && !Opens(entries[1], 256);
  }

  // ------------------------------------------------------------- bounds

  // How many pages' bits init may touch.
  function TouchedPages(entries: seq<Entry>): nat {
    if Pages(entries) > 256 then Pages(entries) else 256
  }

  // The bytes of those bits lie in memory of the given size.
  predicate MapFits(entries: seq<Entry>, size: nat) {
    BitmapBase(entries) + (TouchedPages(entries) + 7) / 8 <= size
  }

  lemma OpenedInRange(entries: seq<Entry>, k: nat, p: nat)
    requires k < |entries| && Opens(entries[k], p)
    ensures p < Pages(entries)
  {
    HighestCovers(entries, k);
  }

  lemma MapPageInRange(entries: seq<Entry>, p: nat)
    requires WellFormedMap(entries) && HoldsMap(entries, p)
    ensures p < TouchedPages(entries)
  {
    SpotIsUsable(entries, BitmapBytes(entries), 0);
    if BitmapBase(entries) > 0 {
      var j :| 0 <= j < |entries| && CanHold(entries[j], BitmapBytes(entries)) && entries[j].base == BitmapBase(entries);
      HighestCovers(entries, j);
      WholePages(entries[j].base / PAGE_SIZE, BitmapBytes(entries), entries[j].length / PAGE_SIZE, Highest(entries), p);
    }
  }

  // A range of bytes rounded up to pages stays inside whole pages that hold it.
  lemma WholePages(start: nat, bytes: nat, pages: nat, top: nat, p: nat)
    requires bytes <= PAGE_SIZE * pages && PAGE_SIZE * (start + pages) <= top
    requires InPages(p, start, (bytes + 4095) / PAGE_SIZE)
    ensures p < top / PAGE_SIZE
  {
  }

  lemma UsableStep(entries: seq<Entry>, i: nat)
    requires i < |entries|
    ensures forall p: nat :: Usable(entries[..i + 1], p) <==> Usable(entries[..i], p) || Opens(entries[i], p)
  {
    forall p: nat ensures Usable(entries[..i + 1], p) <==> Usable(entries[..i], p) || Opens(entries[i], p) {
      assert forall k :: 0 <= k < i ==> entries[..i + 1][k] == entries[..i][k];
      assert entries[..i + 1][i] == entries[i];
    }
  }

  lemma ReservedStep(entries: seq<Entry>, i: nat)
    requires i < |entries|
    ensures forall p: nat :: Reserved(entries[..i + 1], p) <==> Reserved(entries[..i], p) || Closes(entries[i], p)
  {
    forall p: nat ensures Reserved(entries[..i + 1], p) <==> Reserved(entries[..i], p) || Closes(entries[i], p) {
      assert forall k :: 0 <= k < i ==> entries[..i + 1][k] == entries[..i][k];
      assert entries[..i + 1][i] == entries[i];
    }
  }

  // ------------------------------------------------------------- consequences

  // Byte b belongs to an entry that is not usable.
  predicate InEntry(e: Entry, b: nat) { !e.usable && e.base <= b < e.base + e.length }

  // Page p holds such a byte.
  predicate HoldsReserved(e: Entry, p: nat) {
    !e.usable && e.length > 0 && e.base / PAGE_SIZE <= p <= (e.base + e.length - 1) / PAGE_SIZE
  }

  lemma HoldsReservedByte(e: Entry, p: nat)
    ensures HoldsReserved(e, p) <==> exists b: nat :: InEntry(e, b) && b / PAGE_SIZE == p
  {
    if HoldsReserved(e, p) {
      var b := if e.base >= PAGE_SIZE * p then e.base else PAGE_SIZE * p;
      assert InEntry(e, b) && b / PAGE_SIZE == p;
    }
  }

  // A page of a usable entry holds no byte of an entry that is not usable: the
  // map alone sees to that.
  lemma UsablePageIsClean(entries: seq<Entry>, p: nat, k: nat)
    requires WellFormedMap(entries) && Usable(entries, p) && k < |entries|
    ensures !HoldsReserved(entries[k], p)
  {
    var j :| 0 <= j < |entries| && Opens(entries[j], p);
    assert j == k || Apart(entries[j], entries[k]);
  }

  // ------------------------------------------------------------- init in numbers

  // The page count is the highest usable address in pages, the bitmap's size an
  // eighth of it, rounded down.
  lemma SizesInNumbers(entries: seq<Entry>)
    requires WellFormedMap(entries)
    ensures forall k :: 0 <= k < |entries| && entries[k].usable ==> entries[k].base + entries[k].length <= 4096 * Pages(entries)
    ensures Pages(entries) == 0 || exists k :: 0 <= k < |entries| && entries[k].usable
                                               && entries[k].base + entries[k].length == 4096 * Pages(entries)
    ensures 8 * BitmapBytes(entries) <= Pages(entries) < 8 * BitmapBytes(entries) + 8
  {
    HighestReached(entries);
    forall k | 0 <= k < |entries| && entries[k].usable ensures entries[k].base + entries[k].length <= Highest(entries) {
      HighestCovers(entries, k);
    }
  }

  // The bitmap goes to the first usable entry above address 0 that is long
  // enough, and nowhere if there is none.
  lemma {:induction false} SpotIsFirst(entries: seq<Entry>, bytes: nat, k: nat)
    requires k <= |entries|
    ensures Spot(entries, bytes, k) == 0 <==>
      forall j :: k <= j < |entries| ==> !(entries[j].usable && entries[j].length >= bytes && entries[j].base > 0)
    ensures Spot(entries, bytes, k) > 0 ==>
      exists j :: k <= j < |entries| && entries[j].usable && entries[j].length >= bytes
                  && entries[j].base == Spot(entries, bytes, k)
                  && forall i :: k <= i < j ==> !(entries[i].usable && entries[i].length >= bytes && entries[i].base > 0)
    decreases |entries| - k
  {
    if k < |entries| && !CanHold(entries[k], bytes) { SpotIsFirst(entries, bytes, k + 1); }
  }

  // Which pages init leaves free, from the entries' numbers: none below page 256,
  // none that holds a byte of the bitmap, none in the rounded page range of an
  // entry that is not usable; otherwise those that lie in a usable entry, and
  // past the filled bytes those whose bit was clear before.
  lemma FreeInNumbers(entries: seq<Entry>, p: nat, stale: bool)
    requires WellFormedMap(entries)
    ensures FreeAfterInit(entries, p, stale) <==>
      && p >= 256
      && !(BitmapBase(entries) < 4096 * p + 4096 && 4096 * p < BitmapBase(entries) + BitmapBytes(entries))
      && (forall k :: 0 <= k < |entries| && !entries[k].usable ==>
            !(entries[k].base / 4096 <= p < entries[k].base / 4096 + (entries[k].length + 4095) / 4096))
      && ((exists k :: 0 <= k < |entries| && entries[k].usable
                       && entries[k].base <= 4096 * p && 4096 * p + 4096 <= entries[k].base + entries[k].length)
          || (8 * BitmapBytes(entries) <= p && !stale))
  {
    MapInNumbers(entries, p);
    forall k | 0 <= k < |entries|
      ensures Opens(entries[k], p) <==>
        entries[k].usable && entries[k].base <= 4096 * p && 4096 * p + 4096 <= entries[k].base + entries[k].length
    {
      OpensInNumbers(entries[k], p);
    }
    assert (exists k :: 0 <= k < |entries| && entries[k].usable
                        && entries[k].base <= 4096 * p && 4096 * p + 4096 <= entries[k].base + entries[k].length)
      <==> Usable(entries, p);
    assert (forall k :: 0 <= k < |entries| && !entries[k].usable ==>
              !(entries[k].base / 4096 <= p < entries[k].base / 4096 + (entries[k].length + 4095) / 4096))
      <==> !Reserved(entries, p);
  }

  lemma OpensInNumbers(e: Entry, p: nat)
    requires e.usable ==> e.base % 4096 == 0 && e.length % 4096 == 0
    ensures Opens(e, p) <==> e.usable && e.base <= 4096 * p && 4096 * p + 4096 <= e.base + e.length
  {
  }

  lemma MapInNumbers(entries: seq<Entry>, p: nat)
    requires WellFormedMap(entries)
    ensures HoldsMap(entries, p) <==>
      BitmapBase(entries) < 4096 * p + 4096 && 4096 * p < BitmapBase(entries) + BitmapBytes(entries)
  {
    SpotIsUsable(entries, BitmapBytes(entries), 0);
    assert BitmapBase(entries) % 4096 == 0;
  }

  // ------------------------------------------------------------- reserved bytes

  // Page p is the last page of an entry that does not start on a page boundary,
  // and just past the range that init locks for it.
  predicate MissedLast(e: Entry, p: nat) {
    && !e.usable && e.length > 0 && e.base % 4096 != 0
    && p == (e.base + e.length - 1) / 4096 == e.base / 4096 + (e.length + 4095) / 4096
  }

  // A page with bytes of an entry that is not usable is locked, or it is the one
  // page that the rounding misses.
  lemma ReservedIsLocked(entries: seq<Entry>, k: nat, p: nat)
    requires k < |entries| && HoldsReserved(entries[k], p)
    ensures Locked(entries, p) || MissedLast(entries[k], p)
  {
    var e := entries[k];
    if !Closes(e, p) { assert p >= e.base / 4096 + (e.length + 4095) / 4096; }
  }

  // No page past the last whole bitmap byte is one that the rounding misses and
  // that no other step of init locks.
  predicate NoneMissed(entries: seq<Entry>) {
    forall p, k :: 8 * BitmapBytes(entries) <= p < Pages(entries) && 0 <= k < |entries| && MissedLast(entries[k], p) ==>
                     p < 256
                     || (BitmapBase(entries) < 4096 * p + 4096 && 4096 * p < BitmapBase(entries) + BitmapBytes(entries))
                     || exists j :: 0 <= j < |entries| && !entries[j].usable
                                    && entries[j].base / 4096 <= p < entries[j].base / 4096 + (entries[j].length + 4095) / 4096
  }

  // The pages that init leaves free hold no byte of an entry that is not usable,
  // whatever memory held before, exactly when the rounding misses no page there.
  lemma InitCleanIff(entries: seq<Entry>)
    requires WellFormedMap(entries)
    ensures (forall p, stale, k :: 0 <= p < Pages(entries) && 0 <= k < |entries| && FreeAfterInit(entries, p, stale) ==>
               !HoldsReserved(entries[k], p))
       <==> NoneMissed(entries)
  {
    if NoneMissed(entries) {
      forall p, stale, k | 0 <= p < Pages(entries) && 0 <= k < |entries| && FreeAfterInit(entries, p, stale)
        ensures !HoldsReserved(entries[k], p)
      {
        FreeInNumbers(entries, p, stale);
        if Usable(entries, p) {
          UsablePageIsClean(entries, p, k);
        } else if HoldsReserved(entries[k], p) {
          ReservedIsLocked(entries, k, p);
        }
      }
    } else {
      var p, k :| 8 * BitmapBytes(entries) <= p < Pages(entries) && 0 <= k < |entries| && MissedLast(entries[k], p)
                  && p >= 256
                  && !(BitmapBase(entries) < 4096 * p + 4096 && 4096 * p < BitmapBase(entries) + BitmapBytes(entries))
                  && !exists j :: 0 <= j < |entries| && !entries[j].usable
                                  && entries[j].base / 4096 <= p < entries[j].base / 4096 + (entries[j].length + 4095) / 4096;
      FreeInNumbers(entries, p, false);
      assert HoldsReserved(entries[k], p);
    }
  }

  // Hence no free page holds a byte of an entry that starts on a page boundary.
  lemma AlignedEntryIsClean(entries: seq<Entry>, k: nat, b: nat, stale: bool)
    requires WellFormedMap(entries) && k < |entries| && !entries[k].usable && entries[k].base % 4096 == 0
    requires entries[k].base <= b < entries[k].base + entries[k].length
    ensures !FreeAfterInit(entries, b / 4096, stale)
  {
    FreeInNumbers(entries, b / 4096, stale);
  }

  // An entry of one page's length that starts in the middle of page 256: init
  // locks that page only, and leaves page 257 free when its byte held zeros.
  lemma ReservedLeftFree()
    ensures var entries := [Entry(0x1000, 0x9_F000, true), Entry(0x10_0800, 0x1000, false), Entry(0x10_2000, 0x1000, true)];
      && WellFormedMap(entries) && NoWrap(entries) && Pages(entries) == 259 && BitmapBase(entries) == 0x1000
      && FreeAfterInit(entries, 257, false) && HoldsReserved(entries[1], 257)
  {
    var entries := [Entry(0x1000, 0x9_F000, true), Entry(0x10_0800, 0x1000, false), Entry(0x10_2000, 0x1000, true)];
    var one, two := entries[..1], entries[..2];
    assert one == [entries[0]] && one[..0] == [];
    assert Highest(one) == 0xA_0000;
    assert two == [entries[0], entries[1]] && two[..1] == one;
    assert Highest(two) == 0xA_0000;
    assert entries[..3 - 1] == two;
    assert Highest(entries) == 0x10_3000;
    assert CanHold(entries[0], 32);
    assert Spot(entries, 32, 0) == 0x1000;
    assert !Closes(entries[0], 257) && !Closes(entries[1], 257) && !Closes(entries[2], 257);
  }
}
