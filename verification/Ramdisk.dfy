// The ramdisk as an array of 512-byte sectors (kernel/block/ramdisk.cpp).
module Ramdisk {
  import opened Bits

  const SECTOR_SIZE: nat := 512

  type Sector = s: seq<u8> | |s| == SECTOR_SIZE witness seq(SECTOR_SIZE, _ => 0)

  // The disk's bytes as whole sectors; a partial last sector is not one.
  function Sectors(bytes: seq<u8>): (r: seq<Sector>)
    ensures |r| == |bytes| / SECTOR_SIZE
  {
    seq(|bytes| / SECTOR_SIZE, k requires 0 <= k < |bytes| / SECTOR_SIZE => bytes[SECTOR_SIZE * k..SECTOR_SIZE * (k + 1)])
  }

  // Utils::memcpy between two buffers that do not overlap.
  method Memcpy(dest: array<u8>, d: nat, src: array<u8>, s: nat, n: nat)
    requires dest != src && d + n <= dest.Length && s + n <= src.Length
    modifies dest
    ensures forall i :: 0 <= i < dest.Length ==> dest[i] == if d <= i < d + n then src[s + i - d] else old(dest[i])
  {
    for i := 0 to n
      invariant forall j :: 0 <= j < dest.Length ==> dest[j] == if d <= j < d + i then src[s + j - d] else old(dest[j])
    {
      dest[d + i] := src[s + i];
    }
  }

  // A block device; no memory means that it was never set up.
  class BlockDevice {
    var memory: array?<u8>

    // Reads one sector into the caller's buffer.
    method ReadSector(buffer: array<u8>, sector: nat) returns (ok: bool)
      requires buffer.Length >= SECTOR_SIZE && buffer != memory
      requires memory != null ==> sector < memory.Length / SECTOR_SIZE
      modifies buffer
      ensures ok == (memory != null)
      ensures ok ==> buffer[..] == Sectors(memory[..])[sector] + old(buffer[SECTOR_SIZE..])
      ensures ok ==> forall i :: 0 <= i < 512 ==> buffer[i] == memory[512 * sector + i]
      ensures !ok ==> buffer[..] == old(buffer[..])
    {
      if memory == null { return false; }
      Memcpy(buffer, 0, memory, sector * SECTOR_SIZE, SECTOR_SIZE);
      assert buffer[..] == Sectors(memory[..])[sector] + old(buffer[SECTOR_SIZE..]);
      ok := true;
    }

    // Writes the buffer's first 512 bytes to one sector.
    method WriteSector(buffer: array<u8>, sector: nat) returns (ok: bool)
      requires buffer.Length >= SECTOR_SIZE && buffer != memory
      requires memory != null ==> sector < memory.Length / SECTOR_SIZE
      modifies memory
      ensures ok == (memory != null)
      ensures ok ==> Sectors(memory[..]) == old(Sectors(memory[..]))[sector := buffer[..SECTOR_SIZE]]
      ensures ok ==> forall i :: 0 <= i < memory.Length ==>
        memory[i] == if 512 * sector <= i < 512 * sector + 512 then buffer[i - 512 * sector] else old(memory[i])
      ensures ok ==> forall i :: SECTOR_SIZE * |Sectors(memory[..])| <= i < memory.Length ==> memory[i] == old(memory[i])
    {
      if memory == null { return false; }
      Memcpy(memory, sector * SECTOR_SIZE, buffer, 0, SECTOR_SIZE);
      WriteOne(old(memory[..]), memory[..], sector, buffer[..SECTOR_SIZE]);
      ok := true;
    }
  }

  // Replacing a sector's bytes replaces that sector and no other.
  lemma WriteOne(before: seq<u8>, after: seq<u8>, sector: nat, data: Sector)
    requires |after| == |before| && sector < |before| / SECTOR_SIZE
    requires forall i :: 0 <= i < |before| ==>
      after[i] == if SECTOR_SIZE * sector <= i < SECTOR_SIZE * (sector + 1) then data[i - SECTOR_SIZE * sector] else before[i]
    ensures Sectors(after) == Sectors(before)[sector := data]
  {
    forall k | 0 <= k < |before| / SECTOR_SIZE
      ensures Sectors(after)[k] == if k == sector then data else Sectors(before)[k]
    {
      var lo, hi := SECTOR_SIZE * k, SECTOR_SIZE * (k + 1);
      assert after[lo..hi] == if k == sector then data else before[lo..hi];
    }
  }

  // ------------------------------------------------------------- runs

  datatype Write = Write(sector: nat, data: Sector)

  // The disk after a run of writes; reads change nothing.
  function AfterWrites(disk: seq<Sector>, ws: seq<Write>): (r: seq<Sector>)
    requires forall j :: 0 <= j < |ws| ==> ws[j].sector < |disk|
    ensures |r| == |disk|
    decreases |ws|
  {
    if ws == [] then disk else AfterWrites(disk[ws[0].sector := ws[0].data], ws[1..])
  }

  // After any run a sector holds what the last write to it wrote, or its old
  // content if there was none.
  lemma {:induction false} LastWriteStays(disk: seq<Sector>, ws: seq<Write>, k: nat)
    requires k < |disk| && forall j :: 0 <= j < |ws| ==> ws[j].sector < |disk|
    ensures (forall j :: 0 <= j < |ws| ==> ws[j].sector != k) ==> AfterWrites(disk, ws)[k] == disk[k]
    ensures forall j :: 0 <= j < |ws| && ws[j].sector == k && (forall i :: j < i < |ws| ==> ws[i].sector != k) ==>
                          AfterWrites(disk, ws)[k] == ws[j].data
    decreases |ws|
  {
    if ws != [] {
      var rest := ws[1..];
      assert forall i :: 0 <= i < |rest| ==> rest[i] == ws[i + 1];
      assert forall i :: 1 <= i < |ws| ==> ws[i] == rest[i - 1];
      LastWriteStays(disk[ws[0].sector := ws[0].data], rest, k);
    }
  }
}
