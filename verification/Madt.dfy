// The walk over the MADT's variable-length entries
// (kernel/arch/x86_64/apic/ioapic.cpp; section 5.2.12 of the ACPI
// Specification).
module Madt {
  import opened Bits
  import opened Options
  import opened PhysicalMemory

  const ENTRIES_AT: nat := 44      // header, local APIC address, flags
  const IOAPIC: nat := 1
  const INTERRUPT_BASE_AT: nat := 8

  // Selected: the position of the chosen I/O APIC entry, if any.  A zero length
  // makes the loop stand still; a header or base beyond the bytes is not
  // readable.
  datatype Walk = Selected(at: Option<nat>) | Hangs | Unreadable

  function InterruptBase(bytes: seq<u8>, i: nat): nat
    requires i + INTERRUPT_BASE_AT + 4 <= |bytes|
  {
    FromBytes(bytes[i + INTERRUPT_BASE_AT..i + INTERRUPT_BASE_AT + 4])
  }

  function WalkFrom(bytes: seq<u8>, i: nat, end: nat, chosen: Option<nat>): Walk
    decreases end - i
  {
    if i >= end then Selected(chosen)
    else if i + 2 > |bytes| then Unreadable
    else if bytes[i] == IOAPIC && i + INTERRUPT_BASE_AT + 4 > |bytes| then Unreadable
    else if bytes[i + 1] == 0 then Hangs
    else
      WalkFrom(bytes, i + bytes[i + 1], end,
               if bytes[i] == IOAPIC && InterruptBase(bytes, i) == 0 then Some(i) else chosen)
  }

  // The table's own length field bounds the walk.
  method ParseMADT(bytes: seq<u8>, length: nat, chosen: Option<nat>) returns (walk: Walk)
    ensures walk == WalkFrom(bytes, 44, length, chosen)
  {
    var current := ENTRIES_AT;
    var ioapic := chosen;
    while current < length
      invariant WalkFrom(bytes, current, length, ioapic) == WalkFrom(bytes, ENTRIES_AT, length, chosen)
      decreases length - current
    {
      if current + 2 > |bytes| { return Unreadable; }
      if bytes[current] == IOAPIC {
        if current + INTERRUPT_BASE_AT + 4 > |bytes| { return Unreadable; }
        if InterruptBase(bytes, current) == 0 { ioapic := Some(current); }
      }
      if bytes[current + 1] == 0 { return Hangs; }
      current := current + bytes[current + 1];
    }
    walk := Selected(ioapic);
  }

  // ------------------------------------------------------------- entry lists

  datatype Entry = Entry(kind: u8, body: seq<u8>)

  // The length byte holds the entry's length; an I/O APIC entry has its fields.
  predicate Proper(e: Entry) {
    |e.body| + 2 < 256 && (e.kind == IOAPIC ==> |e.body| >= 10)
  }

  predicate AllProper(es: seq<Entry>) {
    forall k :: 0 <= k < |es| ==> Proper(es[k])
  }

  function EncodeEntry(e: Entry): (s: seq<u8>)
    requires Proper(e)
    ensures |s| == |e.body| + 2
  {
    [e.kind, |e.body| + 2] + e.body
  }

  function Encode(es: seq<Entry>): seq<u8>
    requires AllProper(es)
  {
    if es == [] then [] else EncodeEntry(es[0]) + Encode(es[1..])
  }

  // The I/O APIC that serves the first interrupts.
  predicate IsFirst(e: Entry) {
    Proper(e) && e.kind == IOAPIC && FromBytes(e.body[6..10]) == 0
  }

  // Where entry k starts in an encoding at position i.
  function Position(es: seq<Entry>, i: nat, k: nat): nat
    requires k < |es|
  {
    if k == 0 then i else Position(es[1..], i + |es[0].body| + 2, k - 1)
  }

  // Keeping the position of the latest first-interrupt I/O APIC seen.
  function Latest(es: seq<Entry>, i: nat, chosen: Option<nat>): Option<nat> {
    if es == [] then chosen
    else Latest(es[1..], i + |es[0].body| + 2, if IsFirst(es[0]) then Some(i) else chosen)
  }

  lemma {:induction false} WalkKeepsLatest(bytes: seq<u8>, i: nat, es: seq<Entry>, chosen: Option<nat>)
    requires AllProper(es) && i + |Encode(es)| == |bytes| && bytes[i..] == Encode(es)
    ensures WalkFrom(bytes, i, |bytes|, chosen) == Selected(Latest(es, i, chosen))
    decreases |es|
  {
    if es != [] {
      FirstEntry(bytes, i, es);
      WalkKeepsLatest(bytes, i + |es[0].body| + 2, es[1..], if IsFirst(es[0]) then Some(i) else chosen);
    }
  }

  lemma {:induction false} LatestIsLast(es: seq<Entry>, i: nat, chosen: Option<nat>, k: nat)
    requires k < |es| && IsFirst(es[k]) && forall j :: k < j < |es| ==> !IsFirst(es[j])
    ensures Latest(es, i, chosen) == Some(Position(es, i, k))
    decreases |es|
  {
    var rest := es[1..];
    var next := if IsFirst(es[0]) then Some(i) else chosen;
    assert forall j :: 0 <= j < |rest| ==> rest[j] == es[j + 1];
    if k == 0 {
      LatestIsOld(rest, i + |es[0].body| + 2, next);
    } else {
      LatestIsLast(rest, i + |es[0].body| + 2, next, k - 1);
    }
  }

  lemma {:induction false} LatestIsOld(es: seq<Entry>, i: nat, chosen: Option<nat>)
    requires forall k :: 0 <= k < |es| ==> !IsFirst(es[k])
    ensures Latest(es, i, chosen) == chosen
    decreases |es|
  {
    if es != [] { LatestIsOld(es[1..], i + |es[0].body| + 2, chosen); }
  }

  // An I/O APIC entry, of kind 1, whose interrupt base field is zero.
  lemma FirstInNumbers(e: Entry)
    requires Proper(e)
    ensures IsFirst(e) <==> e.kind == 1 && |e.body| >= 10 && e.body[6..10] == [0, 0, 0, 0]
  {
    if e.kind == 1 {
      var s := e.body[6..10];
      FirstByte(s, s[1..]);
      FirstByte(s[1..], s[2..]);
      FirstByte(s[2..], s[3..]);
      FirstByte(s[3..], []);
      assert FromBytes([]) == 0;
    }
  }

  // Where entry k starts: after the entries before it.
  lemma {:induction false} PositionIsLength(es: seq<Entry>, i: nat, k: nat)
    requires AllProper(es) && k < |es|
    ensures Position(es, i, k) == i + |Encode(es[..k])|
    decreases k
  {
    if k > 0 {
      assert es[..k][0] == es[0] && es[..k][1..] == es[1..][..k - 1];
      PositionIsLength(es[1..], i + |es[0].body| + 2, k - 1);
    }
  }

  // A table of 36 bytes of header, 4 of local APIC address, 4 of flags and an
  // encoded entry list: the walk ends, with the last I/O APIC entry (kind 1) of
  // interrupt base 0 selected, or the old selection if there is none.
  lemma WalkSelectsLast(header: seq<u8>, address: seq<u8>, flags: seq<u8>, es: seq<Entry>, chosen: Option<nat>)
    requires |header| == 36 && |address| == 4 && |flags| == 4
    requires forall k :: 0 <= k < |es| ==> |es[k].body| <= 253 && (es[k].kind == 1 ==> |es[k].body| >= 10)
    ensures AllProper(es)
    ensures var bytes := header + address + flags + Encode(es);
      var walk := WalkFrom(bytes, 44, |bytes|, chosen);
      && ((forall k :: 0 <= k < |es| ==> !(es[k].kind == 1 && es[k].body[6..10] == [0, 0, 0, 0])) ==> walk == Selected(chosen))
      && (forall k | 0 <= k < |es| && es[k].kind == 1 && es[k].body[6..10] == [0, 0, 0, 0]
                     && (forall j :: k < j < |es| ==> !(es[j].kind == 1 && es[j].body[6..10] == [0, 0, 0, 0])) ::
            walk == Selected(Some(44 + |Encode(es[..k])|)))
  {
    var bytes := header + address + flags + Encode(es);
    assert bytes[44..] == Encode(es);
    WalkKeepsLatest(bytes, 44, es, chosen);
    forall k | 0 <= k < |es| ensures IsFirst(es[k]) <==> es[k].kind == 1 && es[k].body[6..10] == [0, 0, 0, 0] {
      FirstInNumbers(es[k]);
    }
    if forall k :: 0 <= k < |es| ==> !IsFirst(es[k]) { LatestIsOld(es, 44, chosen); }
    forall k | 0 <= k < |es| && IsFirst(es[k]) && (forall j :: k < j < |es| ==> !IsFirst(es[j]))
      ensures Latest(es, 44, chosen) == Some(44 + |Encode(es[..k])|)
    {
      LatestIsLast(es, 44, chosen, k);
      PositionIsLength(es, 44, k);
    }
  }

  // The bytes of the first entry of an encoding.
  lemma FirstEntry(bytes: seq<u8>, i: nat, es: seq<Entry>)
    requires AllProper(es) && es != [] && i + |Encode(es)| == |bytes| && bytes[i..] == Encode(es)
    ensures var n := |es[0].body| + 2;
      && i + n <= |bytes| && bytes[i] == es[0].kind && bytes[i + 1] == n
      && bytes[i + n..] == Encode(es[1..])
      && (es[0].kind == IOAPIC ==> InterruptBase(bytes, i) == FromBytes(es[0].body[6..10]))
  {
    var t, u := EncodeEntry(es[0]), Encode(es[1..]);
    var n := |t|;
    assert bytes[i..] == t + u;
    assert bytes[i] == bytes[i..][0] == t[0];
    assert bytes[i + 1] == bytes[i..][1] == t[1];
    assert bytes[i + n..] == bytes[i..][n..] == u;
    if es[0].kind == IOAPIC {
      assert bytes[i + 8..i + 12] == bytes[i..][8..12] == t[8..12] == es[0].body[6..10];
    }
  }

  predicate Readable(bytes: seq<u8>, i: nat) {
    i + 2 <= |bytes| && (bytes[i] == IOAPIC ==> i + INTERRUPT_BASE_AT + 4 <= |bytes|)
  }

  // Following non-zero lengths from i, the walk comes by p.
  predicate Reaches(bytes: seq<u8>, i: nat, end: nat, p: nat)
    decreases end - i
  {
    i == p || (i < end && Readable(bytes, i) && bytes[i + 1] != 0 && Reaches(bytes, i + bytes[i + 1], end, p))
  }

  predicate StuckAt(bytes: seq<u8>, i: nat, end: nat, p: nat) {
    p < end && Reaches(bytes, i, end, p) && Readable(bytes, p) && bytes[p + 1] == 0
  }

  // The loop never ends exactly when it comes by an entry of length zero.
  lemma {:induction false} HangsIff(bytes: seq<u8>, i: nat, end: nat, chosen: Option<nat>)
    ensures WalkFrom(bytes, i, end, chosen) == Hangs <==> exists p :: StuckAt(bytes, i, end, p)
    decreases end - i
  {
    if i < end && Readable(bytes, i) && bytes[i + 1] != 0 {
      var next := i + bytes[i + 1];
      var chosen' := if bytes[i] == IOAPIC && InterruptBase(bytes, i) == 0 then Some(i) else chosen;
      HangsIff(bytes, next, end, chosen');
      forall p ensures StuckAt(bytes, i, end, p) <==> StuckAt(bytes, next, end, p) {
        if StuckAt(bytes, next, end, p) && p == i { NextIsLater(bytes, next, end, i); }
      }
    } else {
      forall p | StuckAt(bytes, i, end, p) ensures p == i {}
      assert i < end && Readable(bytes, i) ==> StuckAt(bytes, i, end, i);
    }
  }

  lemma {:induction false} NextIsLater(bytes: seq<u8>, i: nat, end: nat, p: nat)
    requires Reaches(bytes, i, end, p)
    ensures p >= i
    decreases end - i
  {
    if i != p { NextIsLater(bytes, i + bytes[i + 1], end, p); }
  }
}
