// The physical page allocator's meaning: a bitmap of one bit a page, kept in
// the very memory it manages (kernel/arch/x86_64/mem/pmm.cpp).  A clear bit is
// a free page.
module PageAllocator {
  import opened Bits
  import opened PhysicalMemory

  // Byte address of page p's bit in a bitmap at byte address bm.
  function BitByte(bm: nat, p: nat): nat { bm + p / 8 }

  predicate Marked(ram: Ram, bm: nat, p: nat)
    requires BitByte(bm, p) < |ram|
  {
    Bit(ram[BitByte(bm, p)], p % 8)
  }

  function SetMark(ram: Ram, bm: nat, p: nat): (r: Ram)
    requires BitByte(bm, p) < |ram|
    ensures |r| == |ram|
  {
    MarkFits(ram[BitByte(bm, p)], p);
    ram[BitByte(bm, p) := Or(ram[BitByte(bm, p)], Pow2(p % 8))]
  }

  function ClearMark(ram: Ram, bm: nat, p: nat): (r: Ram)
    requires BitByte(bm, p) < |ram|
    ensures |r| == |ram|
  {
    ByteComplementBit(p % 8, 0);
    AndBelow(ram[BitByte(bm, p)], 255 - Pow2(p % 8));
    ram[BitByte(bm, p) := And(ram[BitByte(bm, p)], 255 - Pow2(p % 8))]
  }

  lemma MarkFits(b: u8, p: nat)
    ensures Pow2(p % 8) < 256 && Or(b, Pow2(p % 8)) < 256
  {
    assert Pow2(8) == 256;
    ByteComplementBit(p % 8, 0);
    OrBelow(b, Pow2(p % 8), 8);
  }

  // SetBit and ClearBit change one page's bit and no other's.
  lemma SetMarkBit(ram: Ram, bm: nat, p: nat, q: nat)
    requires BitByte(bm, p) < |ram| && BitByte(bm, q) < |ram|
    ensures Marked(SetMark(ram, bm, p), bm, q) <==> q == p || Marked(ram, bm, q)
  {
    OrBit(ram[BitByte(bm, p)], Pow2(p % 8), q % 8);
    PowerBit(p % 8, q % 8);
  }

  lemma ClearMarkBit(ram: Ram, bm: nat, p: nat, q: nat)
    requires BitByte(bm, p) < |ram| && BitByte(bm, q) < |ram|
    ensures Marked(ClearMark(ram, bm, p), bm, q) <==> q != p && Marked(ram, bm, q)
  {
    ByteComplementBit(p % 8, q % 8);
    AndBit(ram[BitByte(bm, p)], 255 - Pow2(p % 8), q % 8);
  }

  // Page p's bit in numbers: bit p % 8 of byte p / 8.
  lemma MarkedInNumbers(ram: Ram, bm: nat, p: nat)
    requires bm + p / 8 < |ram|
    ensures Marked(ram, bm, p) <==> ram[bm + p / 8] / Pow2(p % 8) % 2 == 1
  {
    BitByDivision(ram[bm + p / 8], p % 8);
  }

  // ------------------------------------------------------------- free pages

  // The bitmap's accesses for pages below total stay inside memory.
  predicate InBounds(ram: Ram, bm: nat, total: nat) {
    bm + (total + 7) / 8 <= |ram|
  }

  // The free pages from i up, in ascending order.
  function FreeFrom(ram: Ram, bm: nat, total: nat, i: nat): seq<nat>
    requires InBounds(ram, bm, total)
    decreases total - i
  {
    if i >= total then []
    else if Marked(ram, bm, i) then FreeFrom(ram, bm, total, i + 1)
    else [i] + FreeFrom(ram, bm, total, i + 1)
  }

  lemma {:induction false} FreeFromMember(ram: Ram, bm: nat, total: nat, i: nat, p: nat)
    requires InBounds(ram, bm, total)
    ensures p in FreeFrom(ram, bm, total, i) <==> i <= p < total && !Marked(ram, bm, p)
    decreases total - i
  {
    hide Marked;
    if i < total {
      FreeFromMember(ram, bm, total, i + 1, p);
      InCons(i, FreeFrom(ram, bm, total, i + 1), p);
    }
  }

  lemma InCons(x: nat, rest: seq<nat>, p: nat)
    ensures p in [x] + rest <==> p == x || p in rest
  {
  }

  // Ascending, hence without repetition.
  lemma {:induction false} FreeFromSorted(ram: Ram, bm: nat, total: nat, i: nat)
    requires InBounds(ram, bm, total)
    ensures forall j, k :: 0 <= j < k < |FreeFrom(ram, bm, total, i)| ==>
                             FreeFrom(ram, bm, total, i)[j] < FreeFrom(ram, bm, total, i)[k]
    decreases total - i
  {
    hide Marked;
    if i < total {
      var rest := FreeFrom(ram, bm, total, i + 1);
      FreeFromSorted(ram, bm, total, i + 1);
      forall k | 0 <= k < |rest| ensures i < rest[k] {
        FreeFromMember(ram, bm, total, i + 1, rest[k]);
      }
    }
  }

  lemma {:induction false} FreeFromLength(ram: Ram, bm: nat, total: nat, i: nat)
    requires InBounds(ram, bm, total)
    ensures i <= total ==> |FreeFrom(ram, bm, total, i)| <= total - i
    ensures i > total ==> |FreeFrom(ram, bm, total, i)| == 0
    decreases total - i
  {
    hide Marked;
    if i < total { FreeFromLength(ram, bm, total, i + 1); }
  }

  lemma {:induction false} FreeFromSame(ram: Ram, ram': Ram, bm: nat, total: nat, i: nat)
    requires InBounds(ram, bm, total) && InBounds(ram', bm, total)
    requires forall p :: i <= p < total ==> (Marked(ram', bm, p) <==> Marked(ram, bm, p))
    ensures FreeFrom(ram', bm, total, i) == FreeFrom(ram, bm, total, i)
    decreases total - i
  {
    hide Marked;
    if i < total { FreeFromSame(ram, ram', bm, total, i + 1); }
  }

  // Below the first free page every page is marked.
  lemma {:induction false} FreeFromSkip(ram: Ram, bm: nat, total: nat, i: nat, j: nat)
    requires InBounds(ram, bm, total) && i <= j <= total
    requires forall p :: i <= p < j ==> Marked(ram, bm, p)
    ensures FreeFrom(ram, bm, total, i) == FreeFrom(ram, bm, total, j)
    decreases j - i
  {
    hide Marked;
    if i < j { FreeFromSkip(ram, bm, total, i + 1, j); }
  }

  // Marking the first free page drops exactly the head of the free list.
  lemma TakeFirst(ram: Ram, bm: nat, total: nat, p: nat)
    requires InBounds(ram, bm, total) && p < total
    requires !Marked(ram, bm, p) && forall q :: 0 <= q < p ==> Marked(ram, bm, q)
    ensures FreeFrom(ram, bm, total, 0) == [p] + FreeFrom(SetMark(ram, bm, p), bm, total, 0)
  {
    var ram' := SetMark(ram, bm, p);
    forall q | 0 <= q < total ensures Marked(ram', bm, q) <==> q == p || Marked(ram, bm, q) {
      SetMarkBit(ram, bm, p, q);
    }
    FreeFromSkip(ram, bm, total, 0, p);
    FreeFromSkip(ram', bm, total, 0, p + 1);
    FreeFromSame(ram, ram', bm, total, p + 1);
  }
}
