/** The disk image as the tools reach it through rdSector and wrSector: a
    sequence of 512-byte sectors. A read past the last whole sector fails
    (the tools stop with "cannot read sector"); a write past the end
    extends the image, and the sectors skipped over read as zeros. */
module Sectors {
  import opened Bytes
  import opened Layout

  type Image = seq<seq<byte>>

  predicate WellFormed(d: Image)
  {
    forall n :: 0 <= n < |d| ==> |d[n]| == SectorSize
  }

  /** The image after wrSector(n, data). */
  function Written(d: Image, n: nat, data: seq<byte>): (r: Image)
    ensures |r| == if n < |d| then |d| else n + 1
  {
    if n < |d| then d[n := data] else d + seq(n - |d|, _ => Zeros(SectorSize)) + [data]
  }

  /** A write replaces sector n, keeps every other sector of the image and
      fills a hole in front of n with zero sectors. */
  lemma WrittenAt(d: Image, n: nat, data: seq<byte>, m: int)
    requires 0 <= m < |Written(d, n, data)|
    ensures Written(d, n, data)[m] == if m == n then data else if m < |d| then d[m] else Zeros(SectorSize)
  {
  }

  lemma WrittenWellFormed(d: Image, n: nat, data: seq<byte>)
    requires WellFormed(d) && |data| == SectorSize
    ensures WellFormed(Written(d, n, data))
  {
    forall m | 0 <= m < |Written(d, n, data)|
      ensures |Written(d, n, data)[m]| == SectorSize
    {
      WrittenAt(d, n, data, m);
    }
  }

  /** Sector s of a 32-sector partition array that starts at lba: the
      sector number is computed in unsigned 32-bit arithmetic. */
  function TableSector(lba: int, s: int): u32
  {
    Wrap32(lba + s)
  }

  /** The first k sectors of the array starting at lba can be read. */
  predicate ReadableBelow(d: Image, lba: int, k: int)
  {
    forall s :: 0 <= s < k ==> TableSector(lba, s) < |d|
  }

  /** Every sector of the array starting at lba can be read. */
  predicate TableReadable(d: Image, lba: int)
  {
    ReadableBelow(d, lba, NumberPartSectors)
  }

  /** One sector that cannot be read makes the whole array unreadable. */
  lemma UnreadableAt(d: Image, lba: int, k: int)
    requires 0 <= k < NumberPartSectors && TableSector(lba, k) >= |d|
    ensures !TableReadable(d, lba)
  {
  }

  /** The first k sectors of the array starting at lba, as the read loop
      lays them out in the buffer. */
  function TablePrefix(d: Image, lba: int, k: nat): (t: seq<byte>)
    requires WellFormed(d) && ReadableBelow(d, lba, k)
    ensures |t| == k * SectorSize
  {
    if k == 0 then [] else TablePrefix(d, lba, k - 1) + d[TableSector(lba, k - 1)]
  }

  /** The 16384-byte partition array read from the sectors at lba. */
  function TableImage(d: Image, lba: int): (t: seq<byte>)
    requires WellFormed(d) && TableReadable(d, lba)
    ensures |t| == NumberPartBytes
  {
    TablePrefix(d, lba, NumberPartSectors)
  }

  /** The image after the write loop has stored the first k sectors of
      table at lba. */
  function TableWritten(d: Image, lba: int, table: seq<byte>, k: nat): Image
    requires |table| == NumberPartBytes && k <= NumberPartSectors
  {
    if k == 0 then d
    else Written(TableWritten(d, lba, table, k - 1), TableSector(lba, k - 1),
                 table[(k - 1) * SectorSize..k * SectorSize])
  }

  /** The array write never shortens the image and keeps it well formed. */
  lemma {:induction false} TableWrittenWellFormed(d: Image, lba: int, table: seq<byte>, k: nat)
    requires WellFormed(d) && |table| == NumberPartBytes && k <= NumberPartSectors
    ensures WellFormed(TableWritten(d, lba, table, k)) && |TableWritten(d, lba, table, k)| >= |d|
  {
    if k > 0 {
      TableWrittenWellFormed(d, lba, table, k - 1);
      WrittenWellFormed(TableWritten(d, lba, table, k - 1), TableSector(lba, k - 1),
                        table[(k - 1) * SectorSize..k * SectorSize]);
    }
  }

  /** Where the array write leaves what: when the 32 sector numbers do not
      wrap, sector lba + s holds chunk s of table for s < k, and every
      other sector of the image keeps its contents. */
  lemma {:induction false} TableWrittenAt(d: Image, lba: int, table: seq<byte>, k: nat, m: int)
    requires |table| == NumberPartBytes && k <= NumberPartSectors
    requires 0 <= lba && lba + NumberPartSectors <= 0x1_0000_0000 && 0 <= m
    ensures lba <= m < lba + k ==>
      && m < |TableWritten(d, lba, table, k)|
      && TableWritten(d, lba, table, k)[m] == table[(m - lba) * SectorSize..(m - lba + 1) * SectorSize]
    ensures !(lba <= m < lba + k) && m < |d| ==>
      && m < |TableWritten(d, lba, table, k)|
      && TableWritten(d, lba, table, k)[m] == d[m]
  {
    if k > 0 {
      TableWrittenAt(d, lba, table, k - 1, m);
      var prev := TableWritten(d, lba, table, k - 1);
      var n := TableSector(lba, k - 1);
      assert n == lba + k - 1;
      if m == n || m < |prev| {
        WrittenAt(prev, n, table[(k - 1) * SectorSize..k * SectorSize], m);
      }
    }
  }

  /** Sector s of the array at lba holds chunk s of table, for all 32. */
  predicate HoldsTable(d: Image, lba: int, table: seq<byte>)
    requires |table| == NumberPartBytes
  {
    forall s :: 0 <= s < NumberPartSectors ==>
      TableSector(lba, s) < |d| && d[TableSector(lba, s)] == table[s * SectorSize..(s + 1) * SectorSize]
  }

  lemma {:induction false} TablePrefixOfChunks(d: Image, lba: int, table: seq<byte>, k: nat)
    requires WellFormed(d) && |table| == NumberPartBytes && k <= NumberPartSectors && HoldsTable(d, lba, table)
    ensures ReadableBelow(d, lba, k) && TablePrefix(d, lba, k) == table[..k * SectorSize]
  {
    if k > 0 {
      TablePrefixOfChunks(d, lba, table, k - 1);
      assert table[..k * SectorSize] == table[..(k - 1) * SectorSize] + table[(k - 1) * SectorSize..k * SectorSize];
    }
  }

  /** Sectors that hold the chunks of table read back as table. */
  lemma TableImageOfChunks(d: Image, lba: int, table: seq<byte>)
    requires WellFormed(d) && |table| == NumberPartBytes && HoldsTable(d, lba, table)
    ensures TableReadable(d, lba) && TableImage(d, lba) == table
  {
    TablePrefixOfChunks(d, lba, table, NumberPartSectors);
  }

  /** Chunk s of the bytes read from the array at lba is sector lba + s
      (taken modulo 2^32). */
  lemma {:induction false} TablePrefixChunk(d: Image, lba: int, k: nat, s: int)
    requires WellFormed(d) && ReadableBelow(d, lba, k) && 0 <= s < k
    ensures TablePrefix(d, lba, k)[s * SectorSize..(s + 1) * SectorSize] == d[TableSector(lba, s)]
  {
    var p := TablePrefix(d, lba, k - 1);
    assert TablePrefix(d, lba, k) == p + d[TableSector(lba, k - 1)];
    if s < k - 1 {
      TablePrefixChunk(d, lba, k - 1, s);
      assert (s + 1) * SectorSize <= |p|;
      assert (p + d[TableSector(lba, k - 1)])[s * SectorSize..(s + 1) * SectorSize] == p[s * SectorSize..(s + 1) * SectorSize];
    } else {
      assert |p| == s * SectorSize;
    }
  }

  /** The image file: its whole sectors. */
  class Disk {
    var sectors: Image

    ghost predicate Valid()
      reads this
    {
      WellFormed(sectors)
    }

    constructor (image: Image)
      requires WellFormed(image)
      ensures Valid() && sectors == image
    {
      sectors := image;
    }

    /** rdSector: copy sector n into buf at off, or report that it cannot
        be read (buf is then left as it was). */
    method ReadSector(n: u32, buf: array<byte>, off: int) returns (ok: bool)
      requires Valid() && 0 <= off && off + SectorSize <= buf.Length
      modifies buf
      ensures ok <==> n < |sectors|
      ensures buf[..] == if ok then Splice(old(buf[..]), off, sectors[n]) else old(buf[..])
    {
      if n >= |sectors| {
        return false;
      }
      CopyInto(buf, off, sectors[n]);
      ok := true;
    }

    /** wrSector: store the 512 bytes of buf at off as sector n. */
    method WriteSector(n: u32, buf: array<byte>, off: int)
      requires Valid() && 0 <= off && off + SectorSize <= buf.Length
      modifies this
      ensures Valid() && sectors == Written(old(sectors), n, buf[off..off + SectorSize])
    {
      WrittenWellFormed(sectors, n, buf[off..off + SectorSize]);
      sectors := Written(sectors, n, buf[off..off + SectorSize]);
    }
  }

  /** rdSector into a buffer of exactly one sector. */
  method ReadWhole(disk: Disk, n: u32, buf: array<byte>) returns (ok: bool)
    requires disk.Valid() && buf.Length == SectorSize
    modifies buf
    ensures ok <==> n < |disk.sectors|
    ensures buf[..] == if ok then disk.sectors[n] else old(buf[..])
  {
    ghost var before := buf[..];
    ok := disk.ReadSector(n, buf, 0);
    if ok {
      SpliceWhole(before, disk.sectors[n]);
    }
  }

  /** The read loop of checkValidGPT, gptRead and shgpt's main: sector
      lba + s into bytes s * 512 .. s * 512 + 511 of buf, for s < 32,
      stopping at the first sector that cannot be read. */
  method ReadTable(disk: Disk, buf: array<byte>, lba: int) returns (ok: bool)
    requires disk.Valid() && buf.Length == NumberPartBytes
    modifies buf
    ensures ok <==> TableReadable(disk.sectors, lba)
    ensures ok ==> buf[..] == TableImage(disk.sectors, lba)
  {
    ghost var d := disk.sectors;
    var s := 0;
    while s < NumberPartSectors
      invariant 0 <= s <= NumberPartSectors && ReadableBelow(d, lba, s)
      invariant buf[..s * SectorSize] == TablePrefix(d, lba, s)
    {
      ok := ReadTableSector(disk, buf, lba, s);
      if !ok {
        return;
      }
      s := s + 1;
    }
    assert buf[..s * SectorSize] == buf[..];
    ok := true;
  }

  /** One turn of the read loop: sector lba + s is appended to the bytes
      read so far, or the array is found unreadable. */
  method ReadTableSector(disk: Disk, buf: array<byte>, lba: int, s: nat) returns (ok: bool)
    requires disk.Valid() && buf.Length == NumberPartBytes && s < NumberPartSectors
    requires ReadableBelow(disk.sectors, lba, s)
    requires buf[..s * SectorSize] == TablePrefix(disk.sectors, lba, s)
    modifies buf
    ensures ok ==> ReadableBelow(disk.sectors, lba, s + 1)
    ensures ok ==> buf[..(s + 1) * SectorSize] == TablePrefix(disk.sectors, lba, s + 1)
    ensures !ok ==> !TableReadable(disk.sectors, lba)
  {
    ok := disk.ReadSector(TableSector(lba, s), buf, s * SectorSize);
    if !ok {
      UnreadableAt(disk.sectors, lba, s);
    }
  }

  /** The write loop of writeValidGPT, gptWrite and mkgpt's main: bytes
      s * 512 .. s * 512 + 511 of table to sector lba + s, for s < 32. */
  method WriteTable(disk: Disk, table: array<byte>, lba: int)
    requires disk.Valid() && table.Length == NumberPartBytes
    modifies disk
    ensures disk.Valid() && disk.sectors == TableWritten(old(disk.sectors), lba, table[..], NumberPartSectors)
  {
    var s := 0;
    while s < NumberPartSectors
      invariant 0 <= s <= NumberPartSectors && disk.Valid()
      invariant disk.sectors == TableWritten(old(disk.sectors), lba, table[..], s)
    {
      disk.WriteSector(TableSector(lba, s), table, s * SectorSize);
      s := s + 1;
    }
  }
}
