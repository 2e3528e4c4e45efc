// Physical memory as bytes, and the same memory seen as frames of 512
// little-endian 64-bit entries, which is how the page walker reads it.
module PhysicalMemory {
  import opened Bits

  const PAGE_SIZE: nat := 4096
  const ENTRIES: nat := 512

  type Ram = seq<u8>
  type Table = t: seq<u64> | |t| == ENTRIES witness seq(ENTRIES, _ => 0)

  function ZeroTable(): Table { seq(ENTRIES, _ => 0) }

  // ------------------------------------------------------------- little endian

  function ToBytes(v: nat, n: nat): (s: seq<u8>)
    ensures |s| == n
  {
    if n == 0 then [] else [v % 256] + ToBytes(v / 256, n - 1)
  }

  function FromBytes(s: seq<u8>): nat {
    if s == [] then 0 else s[0] + 256 * FromBytes(s[1..])
  }

  function Bound(n: nat): nat {
    if n == 0 then 1 else 256 * Bound(n - 1)
  }

  lemma {:induction false} BytesRoundTrip(v: nat, n: nat)
    requires v < Bound(n)
    ensures FromBytes(ToBytes(v, n)) == v
  {
    if n > 0 {
      BytesRoundTrip(v / 256, n - 1);
      assert ToBytes(v, n)[1..] == ToBytes(v / 256, n - 1);
    }
  }

  // The lowest byte first.
  lemma FirstByte(s: seq<u8>, rest: seq<u8>)
    requires s != [] && rest == s[1..]
    ensures FromBytes(s) == s[0] as nat + 256 * FromBytes(rest)
  {
  }

  lemma {:induction false} FromBytesBelow(s: seq<u8>)
    ensures FromBytes(s) < Bound(|s|)
  {
    if s != [] { FromBytesBelow(s[1..]); }
  }

  lemma {:induction false} FromZeroBytes(s: seq<u8>)
    requires forall i :: 0 <= i < |s| ==> s[i] == 0
    ensures FromBytes(s) == 0
  {
    if s != [] { FromZeroBytes(s[1..]); }
  }

  // ------------------------------------------------------------- 64-bit accesses

  function Load64(ram: Ram, a: nat): (v: u64)
    requires a + 8 <= |ram|
  {
    FromBytesBelow(ram[a..a + 8]);
    assert Bound(8) == U64_LIMIT;
    FromBytes(ram[a..a + 8])
  }

  function Store64(ram: Ram, a: nat, v: u64): (r: Ram)
    requires a + 8 <= |ram|
    ensures |r| == |ram|
  {
    ram[..a] + ToBytes(v, 8) + ram[a + 8..]
  }

  // All 4096 bytes of frame g cleared.
  function ZeroFrame(ram: Ram, g: nat): (r: Ram)
    requires PAGE_SIZE * (g + 1) <= |ram|
    ensures |r| == |ram|
  {
    ram[..PAGE_SIZE * g] + seq(PAGE_SIZE, _ => 0) + ram[PAGE_SIZE * (g + 1)..]
  }

  // ------------------------------------------------------------- frames of entries

  function FrameCount(ram: Ram): nat { |ram| / PAGE_SIZE }

  function EntryAddress(f: nat, i: nat): nat { PAGE_SIZE * f + 8 * i }

  function TableAt(ram: Ram, f: nat): Table
    requires PAGE_SIZE * (f + 1) <= |ram|
  {
    seq(ENTRIES, i requires 0 <= i < ENTRIES => Load64(ram, EntryAddress(f, i)))
  }

  function Frames(ram: Ram): (t: seq<Table>)
    ensures |t| == FrameCount(ram)
  {
    seq(FrameCount(ram), f requires 0 <= f < FrameCount(ram) => TableAt(ram, f))
  }

  // Entry i of frame f is the eight bytes from 4096 f + 8 i on, the lowest first.
  lemma EntryBytes(ram: Ram, f: nat, i: nat)
    requires f < FrameCount(ram) && i < 512
    ensures 4096 * f + 8 * i + 8 <= |ram|
    ensures var a := 4096 * f + 8 * i;
      Frames(ram)[f][i]
      == ram[a] as nat + 0x100 * (ram[a + 1] as nat) + 0x1_0000 * (ram[a + 2] as nat) + 0x100_0000 * (ram[a + 3] as nat)
         + 0x1_0000_0000 * (ram[a + 4] as nat) + 0x100_0000_0000 * (ram[a + 5] as nat)
         + 0x1_0000_0000_0000 * (ram[a + 6] as nat) + 0x100_0000_0000_0000 * (ram[a + 7] as nat)
  {
    var a := 4096 * f + 8 * i;
    assert Frames(ram)[f][i] == FromBytes(ram[a..a + 8]);
    FirstByte(ram[a..a + 8], ram[a + 1..a + 8]);
    FirstByte(ram[a + 1..a + 8], ram[a + 2..a + 8]);
    FirstByte(ram[a + 2..a + 8], ram[a + 3..a + 8]);
    FirstByte(ram[a + 3..a + 8], ram[a + 4..a + 8]);
    FirstByte(ram[a + 4..a + 8], ram[a + 5..a + 8]);
    FirstByte(ram[a + 5..a + 8], ram[a + 6..a + 8]);
    FirstByte(ram[a + 6..a + 8], ram[a + 7..a + 8]);
    FirstByte(ram[a + 7..a + 8], []);
    assert FromBytes([]) == 0;
  }

  // A frame's entries depend on the frame's bytes only.
  lemma TableFrame(ram: Ram, ram': Ram, f: nat)
    requires PAGE_SIZE * (f + 1) <= |ram| == |ram'|
    requires forall a :: PAGE_SIZE * f <= a < PAGE_SIZE * (f + 1) ==> ram[a] == ram'[a]
    ensures TableAt(ram, f) == TableAt(ram', f)
  {
    forall i | 0 <= i < ENTRIES ensures TableAt(ram, f)[i] == TableAt(ram', f)[i] {
      var a := EntryAddress(f, i);
      assert ram[a..a + 8] == ram'[a..a + 8];
    }
  }

  lemma StoreBytes(ram: Ram, a: nat, v: u64)
    requires a + 8 <= |ram|
    ensures Store64(ram, a, v)[a..a + 8] == ToBytes(v, 8)
    ensures forall x :: 0 <= x < |ram| && !(a <= x < a + 8) ==> Store64(ram, a, v)[x] == ram[x]
  {
  }

  // One 64-bit store changes one entry of one frame.
  lemma StoreOneEntry(ram: Ram, f: nat, i: nat, v: u64)
    requires f < FrameCount(ram) && i < ENTRIES
    ensures Frames(Store64(ram, EntryAddress(f, i), v)) == Frames(ram)[f := Frames(ram)[f][i := v]]
  {
    var a := EntryAddress(f, i);
    var ram' := Store64(ram, a, v);
    StoreBytes(ram, a, v);
    hide Store64;
    forall g | 0 <= g < FrameCount(ram) && g != f ensures TableAt(ram', g) == TableAt(ram, g) {
      TableFrame(ram, ram', g);
    }
    forall j | 0 <= j < ENTRIES
      ensures TableAt(ram', f)[j] == if j == i then v else TableAt(ram, f)[j]
    {
      var b := EntryAddress(f, j);
      if j == i {
        assert Bound(8) == U64_LIMIT;
        BytesRoundTrip(v, 8);
      } else {
        assert ram'[b..b + 8] == ram[b..b + 8];
      }
    }
    assert TableAt(ram', f) == TableAt(ram, f)[i := v];
  }

  lemma ZeroOneFrame(ram: Ram, g: nat)
    requires g < FrameCount(ram)
    ensures Frames(ZeroFrame(ram, g)) == Frames(ram)[g := ZeroTable()]
  {
    var ram' := ZeroFrame(ram, g);
    forall f | 0 <= f < FrameCount(ram) && f != g ensures TableAt(ram', f) == TableAt(ram, f) {
      TableFrame(ram, ram', f);
    }
    forall j | 0 <= j < ENTRIES ensures TableAt(ram', g)[j] == 0 {
      var b := EntryAddress(g, j);
      FromZeroBytes(ram'[b..b + 8]);
    }
    assert TableAt(ram', g) == ZeroTable();
  }

  // One byte store touches the frame that holds it and no other.
  lemma ByteStoreLocal(ram: Ram, a: nat, b: u8)
    requires a < |ram|
    ensures |Frames(ram[a := b])| == |Frames(ram)|
    ensures forall f :: 0 <= f < FrameCount(ram) && f != a / PAGE_SIZE ==> Frames(ram[a := b])[f] == Frames(ram)[f]
  {
    forall f | 0 <= f < FrameCount(ram) && f != a / PAGE_SIZE
      ensures Frames(ram[a := b])[f] == Frames(ram)[f]
    {
      TableFrame(ram, ram[a := b], f);
    }
  }
}
