/** mkgpt: write a fresh GUID partition table onto a disk image: the
    protective MBR (optionally carrying boot code), an empty primary array
    behind the primary header, the backup array and header at the end of
    the disk, and optionally the boot manager code in the sectors between
    the primary array and the first usable sector. */
module Mkgpt {
  import opened Bytes
  import opened Layout
  import Crc32
  import opened Mbr
  import opened Header
  import opened Entries
  import opened Sectors
  import Shgpt

  /** A file name that may be absent from the command line. */
  datatype Option<T> = None | Some(value: T)

  // ---- readMngrCode ----

  /** The number of sectors the manager code occupies: its size rounded up
      to whole sectors, none for an empty file. */
  function MngrSectors(size: nat): (r: nat)
    ensures r == 0 <==> size == 0
  {
    (size + SectorSize - 1) / SectorSize
  }

  /** MngrSectors is the least number of sectors that holds size bytes. */
  lemma MngrSectorsIsCeiling(size: nat)
    ensures size <= MngrSectors(size) * SectorSize
    ensures MngrSectors(size) == 0 || (MngrSectors(size) - 1) * SectorSize < size
  {
    var q, r := (size + SectorSize - 1) / SectorSize, (size + SectorSize - 1) % SectorSize;
    assert q * SectorSize + r == size + SectorSize - 1;
  }

  /** The manager code is accepted exactly when it fits in the 2014
      sectors between the primary array and the first usable sector. */
  lemma MngrCodeFits(size: nat)
    ensures MngrSectors(size) <= MaxMngrSectors <==> size <= MaxMngrSectors * SectorSize
  {
    MngrSectorsIsCeiling(size);
  }

  /** readMngrCode once the file has been read into mngr: reject code that
      needs more than 2014 sectors, otherwise copy it to the front of the
      manager buffer and return its sector count. */
  method ReadMngrCode(code: array<byte>, mngr: seq<byte>) returns (r: Result<nat>)
    requires code.Length == MaxMngrSectors * SectorSize
    modifies code
    ensures r.Ok? <==> MngrSectors(|mngr|) <= MaxMngrSectors
    ensures r.Ok? ==> r.value == MngrSectors(|mngr|) && code[..] == Splice(old(code[..]), 0, mngr)
    ensures r.Err? ==> r.fault == MngrCodeTooBig && code[..] == old(code[..])
  {
    var sectors := (|mngr| + SectorSize - 1) / SectorSize;
    if sectors > MaxMngrSectors {
      return Err(MngrCodeTooBig);
    }
    MngrCodeFits(|mngr|);
    CopyInto(code, 0, mngr);
    r := Ok(sectors);
  }

  // ---- makePartTable ----

  /** The array makePartTable builds: 16384 zero bytes. */
  function EmptyTable(): (t: seq<byte>)
    ensures |t| == NumberPartBytes
  {
    Zeros(NumberPartBytes)
  }

  /** A sequence of zero bytes is the zero sequence of its length. */
  lemma AllZero(s: seq<byte>)
    requires IsZero(s)
    ensures s == Zeros(|s|)
  {
    assert forall i :: 0 <= i < |s| ==> s[i] == Zeros(|s|)[i];
  }

  /** makePartTable: clear the 128 slots one after the other and return
      the CRC of the cleared array. */
  method MakePartTable(buf: array<byte>, crc: Crc32.Crc32Table) returns (tableCrc: u32)
    requires buf.Length == NumberPartBytes && crc.Ready()
    modifies buf
    ensures buf[..] == EmptyTable() && tableCrc == Crc32.Crc32(EmptyTable())
  {
    var i := 0;
    while i < NumberPartEntries
      invariant 0 <= i <= NumberPartEntries
      invariant IsZero(buf[..i * SizeofPartEntry])
    {
      ghost var prev := buf[..];
      ZeroFill(buf, i * SizeofPartEntry, SizeofPartEntry);
      SplicePrefix(prev, i * SizeofPartEntry, Zeros(SizeofPartEntry), i * SizeofPartEntry);
      i := i + 1;
    }
    assert buf[..i * SizeofPartEntry] == buf[..];
    AllZero(buf[..]);
    tableCrc := crc.Sum(buf[..]);
  }

  /** The empty array has no used slot, so shgpt lists no partition. */
  lemma EmptyTableListsNothing()
    ensures forall k :: 0 <= k < NumberPartEntries ==> !SlotUsed(EmptyTable(), k)
    ensures Shgpt.Listing(EmptyTable()) == []
  {
    var t := EmptyTable();
    forall k | 0 <= k < NumberPartEntries
      ensures !SlotUsed(t, k)
    {
      var slot := t[SlotBase(k)..SlotBase(k) + 16];
      assert forall i :: 0 <= i < 16 ==> slot[i] == t[SlotBase(k) + i];
    }
    Shgpt.ListingEmpty(t, NumberPartEntries);
  }

  /** Slice k of the empty array is a zero sector. */
  lemma ZeroChunk(k: int)
    requires 0 <= k < NumberPartSectors
    ensures EmptyTable()[k * SectorSize..(k + 1) * SectorSize] == Zeros(SectorSize)
  {
    var c := EmptyTable()[k * SectorSize..(k + 1) * SectorSize];
    assert forall i :: 0 <= i < |c| ==> c[i] == EmptyTable()[k * SectorSize + i];
    AllZero(c);
  }

  /** Sectors lba .. lba + k - 1 exist and are zero. */
  predicate ZeroSectors(d: Image, lba: int, k: int)
  {
    && 0 <= lba && lba + k <= |d|
    && forall m :: lba <= m < lba + k ==> d[m] == Zeros(SectorSize)
  }

  /** Readable zero sectors at lba, lba + 1, ... read as zero bytes. */
  lemma {:induction false} ZeroSectorsPrefix(d: Image, lba: int, k: nat)
    requires WellFormed(d) && k <= NumberPartSectors
    requires 0 <= lba && lba + NumberPartSectors <= 0x1_0000_0000
    requires ZeroSectors(d, lba, k)
    ensures ReadableBelow(d, lba, k) && TablePrefix(d, lba, k) == Zeros(k * SectorSize)
  {
    if k > 0 {
      assert d[lba + k - 1] == Zeros(SectorSize);
      ZeroSectorsPrefix(d, lba, k - 1);
      assert TableSector(lba, k - 1) == lba + k - 1;
      assert ReadableBelow(d, lba, k);
      var p := TablePrefix(d, lba, k);
      assert p == Zeros((k - 1) * SectorSize) + Zeros(SectorSize);
      assert IsZero(p);
      AllZero(p);
    }
  }

  /** Thirty-two zero sectors at lba hold the empty array. */
  lemma ZeroTableImage(d: Image, lba: int)
    requires WellFormed(d) && 0 <= lba && lba + NumberPartSectors <= 0x1_0000_0000
    requires ZeroSectors(d, lba, NumberPartSectors)
    ensures TableReadable(d, lba) && TableImage(d, lba) == EmptyTable()
  {
    ZeroSectorsPrefix(d, lba, NumberPartSectors);
  }

  // ---- the disk main writes ----

  /** The manager loop of main: sector 34 + s from bytes s * 512 .. of
      code, for s < count. */
  function MngrWritten(d: Image, code: seq<byte>, count: nat): Image
    requires |code| == MaxMngrSectors * SectorSize && count <= MaxMngrSectors
  {
    if count == 0 then d
    else Written(MngrWritten(d, code, count - 1), FirstMngrSector + count - 1,
                 code[(count - 1) * SectorSize..count * SectorSize])
  }

  /** The manager loop puts chunk s of the code in sector 34 + s and keeps
      every other sector, and the image stays well formed. */
  lemma {:induction false} MngrWrittenAt(d: Image, code: seq<byte>, count: nat, m: int)
    requires WellFormed(d) && |code| == MaxMngrSectors * SectorSize && count <= MaxMngrSectors && 0 <= m
    ensures WellFormed(MngrWritten(d, code, count)) && |MngrWritten(d, code, count)| >= |d|
    ensures FirstMngrSector <= m < FirstMngrSector + count ==>
      && m < |MngrWritten(d, code, count)|
      && MngrWritten(d, code, count)[m] == code[(m - FirstMngrSector) * SectorSize..(m - FirstMngrSector + 1) * SectorSize]
    ensures !(FirstMngrSector <= m < FirstMngrSector + count) && m < |d| ==>
      && m < |MngrWritten(d, code, count)|
      && MngrWritten(d, code, count)[m] == d[m]
  {
    if count > 0 {
      MngrWrittenAt(d, code, count - 1, m);
      var prev := MngrWritten(d, code, count - 1);
      var chunk := code[(count - 1) * SectorSize..count * SectorSize];
      WrittenWellFormed(prev, FirstMngrSector + count - 1, chunk);
      if m == FirstMngrSector + count - 1 || m < |prev| {
        WrittenAt(prev, FirstMngrSector + count - 1, chunk, m);
      }
    }
  }

  /** The MBR mkgpt writes: the protective MBR, with the boot code over
      its start when a boot file is named. */
  function MbrImage(numSectors: u32, boot: Option<seq<byte>>, mngrSectors: u32, patch: bool): (r: seq<byte>)
    requires boot.Some? ==> |boot.value| <= MaxBootCode
    ensures |r| == SectorSize
  {
    if boot.None? then ProtectiveMbrImage(numSectors)
    else BootImage(ProtectiveMbrImage(numSectors), boot.value, mngrSectors, patch)
  }

  /** Whatever boot code is loaded, the MBR passes the MBR check without a
      warning. */
  lemma MbrImageAccepted(numSectors: u32, boot: Option<seq<byte>>, mngrSectors: u32, patch: bool)
    requires boot.Some? ==> |boot.value| <= MaxBootCode
    ensures CheckProtMbr(MbrImage(numSectors, boot, mngrSectors, patch)) == Pass([])
  {
    ProtectiveMbrAccepted(numSectors);
    if boot.Some? {
      BootCodeKeepsProtection(ProtectiveMbrImage(numSectors), boot.value, mngrSectors, patch);
    }
  }

  /** The MBR in sector 0 and the empty primary array at LBA 2. */
  function PrimaryWritten(d: Image, mbr: seq<byte>): Image
  {
    TableWritten(Written(d, 0, mbr), 2, EmptyTable(), NumberPartSectors)
  }

  /** The primary header in sector 1, the backup array in the 32 sectors in
      front of the last one, and the backup header in the last sector. */
  function HeadersWritten(d: Image, numSectors: u32, diskGuid: seq<byte>): Image
    requires |diskGuid| == 16
  {
    var primary := PrimaryHeaderImage(numSectors, diskGuid, Crc32.Crc32(EmptyTable()));
    Written(TableWritten(Written(d, 1, primary), BackupTableLba(numSectors), EmptyTable(), NumberPartSectors),
            Shgpt.LastSector(numSectors), BackupHeaderImage(primary, numSectors))
  }

  /** The image main leaves behind: disk/mkgpt writes the manager sectors
      first (mngrFirst); disk-GPT/mkgpt writes them between the primary
      array and the primary header. */
  function MkgptImage(d: Image, numSectors: u32, mbr: seq<byte>, code: seq<byte>, count: nat,
                      diskGuid: seq<byte>, mngrFirst: bool): Image
    requires |code| == MaxMngrSectors * SectorSize && count <= MaxMngrSectors && |diskGuid| == 16
  {
    if mngrFirst then HeadersWritten(PrimaryWritten(MngrWritten(d, code, count), mbr), numSectors, diskGuid)
    else HeadersWritten(MngrWritten(PrimaryWritten(d, mbr), code, count), numSectors, diskGuid)
  }

  /** After the MBR and primary array writes: sector 0 holds the MBR and
      sectors 2..33 are zero. */
  lemma PrimaryWrittenSectors(d: Image, mbr: seq<byte>)
    requires WellFormed(d) && |mbr| == SectorSize
    ensures var x := PrimaryWritten(d, mbr);
      && WellFormed(x) && |x| >= 2 + NumberPartSectors && x[0] == mbr
      && forall m :: 2 <= m < 2 + NumberPartSectors ==> x[m] == Zeros(SectorSize)
  {
    var y := Written(d, 0, mbr);
    WrittenWellFormed(d, 0, mbr);
    WrittenAt(d, 0, mbr, 0);
    TableWrittenWellFormed(y, 2, EmptyTable(), NumberPartSectors);
    TableWrittenAt(y, 2, EmptyTable(), NumberPartSectors, 0);
    forall m | 2 <= m < 2 + NumberPartSectors
      ensures m < |PrimaryWritten(d, mbr)| && PrimaryWritten(d, mbr)[m] == Zeros(SectorSize)
    {
      TableWrittenAt(y, 2, EmptyTable(), NumberPartSectors, m);
      ZeroChunk(m - 2);
    }
  }

  /** Before the headers are written, in either order of the manager
      writes: sector 0 holds the MBR and sectors 2..33 are zero. */
  lemma GptBeforeHeaders(d: Image, mbr: seq<byte>, code: seq<byte>, count: nat, mngrFirst: bool)
    requires WellFormed(d) && |mbr| == SectorSize && |code| == MaxMngrSectors * SectorSize && count <= MaxMngrSectors
    ensures var x := if mngrFirst then PrimaryWritten(MngrWritten(d, code, count), mbr)
                     else MngrWritten(PrimaryWritten(d, mbr), code, count);
      && WellFormed(x) && |x| >= 2 + NumberPartSectors && x[0] == mbr
      && forall m :: 2 <= m < 2 + NumberPartSectors ==> x[m] == Zeros(SectorSize)
  {
    if mngrFirst {
      MngrWrittenAt(d, code, count, 0);
      PrimaryWrittenSectors(MngrWritten(d, code, count), mbr);
    } else {
      var y := PrimaryWritten(d, mbr);
      PrimaryWrittenSectors(d, mbr);
      MngrWrittenAt(y, code, count, 0);
      forall m | 2 <= m < 2 + NumberPartSectors
        ensures MngrWritten(y, code, count)[m] == Zeros(SectorSize)
      {
        MngrWrittenAt(y, code, count, m);
      }
    }
  }

  /** After the header writes: sectors 0 and 2..33 as they were, the
      primary header in sector 1, zero sectors in front of the last one
      and the backup header in the last sector. */
  lemma HeadersWrittenSectors(x: Image, numSectors: u32, diskGuid: seq<byte>)
    requires WellFormed(x) && |diskGuid| == 16 && numSectors >= MinNumberSectors
    requires |x| >= 2 + NumberPartSectors
    ensures var h := HeadersWritten(x, numSectors, diskGuid);
      var p := PrimaryHeaderImage(numSectors, diskGuid, Crc32.Crc32(EmptyTable()));
      && WellFormed(h) && numSectors <= |h|
      && h[0] == x[0] && h[1] == p && h[Shgpt.LastSector(numSectors)] == BackupHeaderImage(p, numSectors)
      && (forall m :: 2 <= m < 2 + NumberPartSectors ==> h[m] == x[m])
      && (forall m :: BackupTableLba(numSectors) <= m < BackupTableLba(numSectors) + NumberPartSectors ==> h[m] == Zeros(SectorSize))
  {
    var p := PrimaryHeaderImage(numSectors, diskGuid, Crc32.Crc32(EmptyTable()));
    var b := BackupHeaderImage(p, numSectors);
    var bl := BackupTableLba(numSectors);
    var last := Shgpt.LastSector(numSectors);
    assert bl == numSectors - 1 - NumberPartSectors && last == numSectors - 1;
    var x1 := Written(x, 1, p);
    var x2 := TableWritten(x1, bl, EmptyTable(), NumberPartSectors);
    WrittenWellFormed(x, 1, p);
    TableWrittenWellFormed(x1, bl, EmptyTable(), NumberPartSectors);
    TableWrittenAt(x1, bl, EmptyTable(), NumberPartSectors, last);
    WrittenWellFormed(x2, last, b);
    WrittenAt(x2, last, b, last);
    forall m | 0 <= m < 2 + NumberPartSectors
      ensures HeadersWritten(x, numSectors, diskGuid)[m] == if m == 1 then p else x[m]
    {
      WrittenAt(x, 1, p, m);
      TableWrittenAt(x1, bl, EmptyTable(), NumberPartSectors, m);
      WrittenAt(x2, last, b, m);
    }
    forall m | bl <= m < bl + NumberPartSectors
      ensures HeadersWritten(x, numSectors, diskGuid)[m] == Zeros(SectorSize)
    {
      TableWrittenAt(x1, bl, EmptyTable(), NumberPartSectors, m);
      ZeroChunk(m - bl);
      WrittenAt(x2, last, b, m);
    }
  }

  /** The backup mkgpt derives agrees with its primary on the disk GUID and
      the array CRC. */
  lemma HeadersAgree(p: seq<byte>, numSectors: u32)
    requires |p| == SectorSize
    ensures var b := BackupHeaderImage(p, numSectors);
      && p[OffDiskGuid..OffDiskGuid + 16] == b[OffDiskGuid..OffDiskGuid + 16]
      && Get4LE(p, OffTableCrc) == Get4LE(b, OffTableCrc)
  {
    var b := BackupHeaderImage(p, numSectors);
    BackupAgreesWithPrimary(p, numSectors);
    forall i | OffDiskGuid <= i < OffDiskGuid + 16
      ensures b[i] == p[i]
    {
      assert b[i] == BackupByte(p, numSectors, i);
    }
    BackupKeepsWord(b, p, numSectors, OffTableCrc);
  }

  /** The two headers mkgpt writes pass their checks without a warning,
      agree on the disk GUID and both carry the CRC of the empty array. */
  lemma FreshHeadersClean(numSectors: u32, diskGuid: seq<byte>)
    requires |diskGuid| == 16
    ensures var p := PrimaryHeaderImage(numSectors, diskGuid, Crc32.Crc32(EmptyTable()));
      var b := BackupHeaderImage(p, numSectors);
      && PrimaryHeaderCheck(p, numSectors) == Pass([]) && BackupHeaderCheck(b, numSectors) == Pass([])
      && p[OffDiskGuid..OffDiskGuid + 16] == b[OffDiskGuid..OffDiskGuid + 16]
      && Get4LE(p, OffTableCrc) == Crc32.Crc32(EmptyTable()) && Get4LE(b, OffTableCrc) == Crc32.Crc32(EmptyTable())
  {
    var tableCrc := Crc32.Crc32(EmptyTable());
    PrimaryHeaderAccepted(numSectors, diskGuid, tableCrc);
    BackupHeaderAccepted(numSectors, diskGuid, tableCrc);
    ImageTableValues(numSectors, diskGuid, tableCrc);
    HeadersAgree(PrimaryHeaderImage(numSectors, diskGuid, tableCrc), numSectors);
  }

  /** Everything shgpt demands of the disk: an MBR and two headers that
      pass without a warning, headers that agree, and two arrays that hash
      to the headers' array CRC. */
  predicate CleanGpt(h: Image, numSectors: u32, tableCrc: u32)
    requires WellFormed(h)
  {
    && MinNumberSectors <= numSectors <= |h|
    && CleanTables(h, numSectors, tableCrc)
    && CleanHeaders(h, numSectors, tableCrc)
  }

  /** Both arrays can be read and hash to tableCrc. */
  predicate CleanTables(h: Image, numSectors: u32, tableCrc: u32)
    requires WellFormed(h)
  {
    && TableReadable(h, 2) && Crc32.Crc32(TableImage(h, 2)) == tableCrc
    && TableReadable(h, BackupTableLba(numSectors))
    && Crc32.Crc32(TableImage(h, BackupTableLba(numSectors))) == tableCrc
  }

  /** The MBR and both headers pass without a warning, agree on the disk
      GUID and both carry tableCrc. */
  predicate CleanHeaders(h: Image, numSectors: u32, tableCrc: u32)
    requires WellFormed(h) && 1 < numSectors <= |h|
  {
    var b := h[Shgpt.LastSector(numSectors)];
    && Get4LE(h[1], OffTableCrc) == tableCrc && Get4LE(b, OffTableCrc) == tableCrc
    && h[1][OffDiskGuid..OffDiskGuid + 16] == b[OffDiskGuid..OffDiskGuid + 16]
    && CheckProtMbr(h[0]) == Pass([])
    && PrimaryHeaderCheck(h[1], numSectors) == Pass([])
    && BackupHeaderCheck(b, numSectors) == Pass([])
  }

  /** Clean headers pass every header check shgpt makes. */
  lemma CleanHeadersPass(h: Image, numSectors: u32, tableCrc: u32)
    requires WellFormed(h) && 1 < numSectors <= |h| && CleanHeaders(h, numSectors, tableCrc)
    ensures CheckProtMbr(h[0]).Pass? && PrimaryHeaderCheck(h[1], numSectors).Pass?
    ensures BackupHeaderCheck(h[Shgpt.LastSector(numSectors)], numSectors).Pass?
    ensures Get4LE(h[1], OffTableCrc) == Get4LE(h[Shgpt.LastSector(numSectors)], OffTableCrc)
    ensures h[1][OffDiskGuid..OffDiskGuid + 16] == h[Shgpt.LastSector(numSectors)][OffDiskGuid..OffDiskGuid + 16]
  {
  }

  /** Clean headers give shgpt nothing to warn about. */
  lemma CleanHeadersQuiet(h: Image, numSectors: u32, tableCrc: u32)
    requires WellFormed(h) && 1 < numSectors <= |h| && CleanHeaders(h, numSectors, tableCrc)
    ensures RecordWarnings(h[0], 1) == []
    ensures UsableWarnings(h[1], numSectors).warnings == []
    ensures UsableWarnings(h[Shgpt.LastSector(numSectors)], numSectors).warnings == []
  {
  }

  /** Clean arrays pass the array checks shgpt makes against clean headers. */
  lemma CleanTablesPass(h: Image, numSectors: u32, tableCrc: u32)
    requires WellFormed(h) && MinNumberSectors <= numSectors <= |h| && CleanTables(h, numSectors, tableCrc)
    requires Get4LE(h[1], OffTableCrc) == tableCrc && Get4LE(h[Shgpt.LastSector(numSectors)], OffTableCrc) == tableCrc
    ensures TableReadable(h, 2) && Crc32.Crc32(TableImage(h, 2)) == Get4LE(h[1], OffTableCrc)
    ensures TableReadable(h, BackupTableLba(numSectors))
    ensures Crc32.Crc32(TableImage(h, BackupTableLba(numSectors))) == Get4LE(h[Shgpt.LastSector(numSectors)], OffTableCrc)
  {
  }

  /** Each condition shgpt checks, one by one, makes the disk accepted. */
  lemma AcceptedFromParts(h: Image, numSectors: u32)
    requires WellFormed(h) && MinNumberSectors <= numSectors <= |h|
    requires CheckProtMbr(h[0]).Pass? && PrimaryHeaderCheck(h[1], numSectors).Pass?
    requires BackupHeaderCheck(h[Shgpt.LastSector(numSectors)], numSectors).Pass?
    requires Get4LE(h[1], OffTableCrc) == Get4LE(h[Shgpt.LastSector(numSectors)], OffTableCrc)
    requires h[1][OffDiskGuid..OffDiskGuid + 16] == h[Shgpt.LastSector(numSectors)][OffDiskGuid..OffDiskGuid + 16]
    requires TableReadable(h, 2) && Crc32.Crc32(TableImage(h, 2)) == Get4LE(h[1], OffTableCrc)
    requires TableReadable(h, BackupTableLba(numSectors))
    requires Crc32.Crc32(TableImage(h, BackupTableLba(numSectors))) == Get4LE(h[Shgpt.LastSector(numSectors)], OffTableCrc)
    ensures Shgpt.Accepted(h, numSectors)
  {
  }

  /** An accepted disk with nothing to warn about passes shgpt with no
      warning. */
  lemma QuietFromParts(h: Image, numSectors: u32)
    requires WellFormed(h) && MinNumberSectors <= numSectors <= |h| && Shgpt.Accepted(h, numSectors)
    requires RecordWarnings(h[0], 1) == []
    requires UsableWarnings(h[1], numSectors).warnings == []
    requires UsableWarnings(h[Shgpt.LastSector(numSectors)], numSectors).warnings == []
    ensures Shgpt.ShowVerdict(h, numSectors) == Pass([])
  {
    Shgpt.ShowVerdictPass(h, numSectors);
    Shgpt.ShowVerdictWarnings(h, numSectors);
  }

  /** A clean disk passes shgpt without a warning. */
  lemma CleanGptAccepted(h: Image, numSectors: u32, tableCrc: u32)
    requires WellFormed(h) && CleanGpt(h, numSectors, tableCrc)
    ensures Shgpt.ShowVerdict(h, numSectors) == Pass([])
  {
    CleanHeadersPass(h, numSectors, tableCrc);
    CleanHeadersQuiet(h, numSectors, tableCrc);
    CleanTablesPass(h, numSectors, tableCrc);
    AcceptedFromParts(h, numSectors);
    QuietFromParts(h, numSectors);
  }

  /** shgpt accepts every disk mkgpt writes, in either order of the manager
      writes and whatever boot and manager code it carries, without a
      warning, and lists no partition on it. */
  lemma MkgptImageAccepted(d: Image, numSectors: u32, mbr: seq<byte>, code: seq<byte>, count: nat,
                           diskGuid: seq<byte>, mngrFirst: bool)
    requires WellFormed(d) && numSectors >= MinNumberSectors && |diskGuid| == 16
    requires |mbr| == SectorSize && CheckProtMbr(mbr) == Pass([])
    requires |code| == MaxMngrSectors * SectorSize && count <= MaxMngrSectors
    ensures var h := MkgptImage(d, numSectors, mbr, code, count, diskGuid, mngrFirst);
      && WellFormed(h) && Shgpt.ShowVerdict(h, numSectors) == Pass([])
      && TableReadable(h, 2) && Shgpt.Listing(TableImage(h, 2)) == []
  {
    var x := if mngrFirst then PrimaryWritten(MngrWritten(d, code, count), mbr)
             else MngrWritten(PrimaryWritten(d, mbr), code, count);
    GptBeforeHeaders(d, mbr, code, count, mngrFirst);
    HeadersWrittenSectors(x, numSectors, diskGuid);
    var h := HeadersWritten(x, numSectors, diskGuid);
    assert h == MkgptImage(d, numSectors, mbr, code, count, diskGuid, mngrFirst);
    ZeroTableImage(h, 2);
    ZeroTableImage(h, BackupTableLba(numSectors));
    FreshHeadersClean(numSectors, diskGuid);
    assert CleanGpt(h, numSectors, Crc32.Crc32(EmptyTable()));
    CleanGptAccepted(h, numSectors, Crc32.Crc32(EmptyTable()));
    EmptyTableListsNothing();
  }

  // ---- main ----

  /** The manager loop of main: chunk s of the code to sector 34 + s, for
      s < count. */
  method WriteMngr(disk: Disk, code: array<byte>, count: nat)
    requires disk.Valid() && code.Length == MaxMngrSectors * SectorSize && count <= MaxMngrSectors
    modifies disk
    ensures disk.Valid() && disk.sectors == MngrWritten(old(disk.sectors), code[..], count)
  {
    var s := 0;
    while s < count
      invariant 0 <= s <= count && disk.Valid()
      invariant disk.sectors == MngrWritten(old(disk.sectors), code[..], s)
    {
      assert code[s * SectorSize..s * SectorSize + SectorSize] == code[..][s * SectorSize..(s + 1) * SectorSize];
      disk.WriteSector(FirstMngrSector + s, code, s * SectorSize);
      s := s + 1;
    }
  }

  /** "write protective MBR": build the protective MBR, load the boot code
      over its start when a boot file is named, and write it to sector 0. */
  method WriteMbr(disk: Disk, numSectors: u32, boot: Option<seq<byte>>, mngrSectors: nat, patch: bool)
    returns (c: Check)
    requires disk.Valid() && mngrSectors <= MaxMngrSectors
    modifies disk
    ensures disk.Valid() && c.warnings == []
    ensures c.Pass? <==> (boot.Some? ==> |boot.value| <= MaxBootCode)
    ensures c.Fail? ==> c.fault == BootCodeTooBig && disk.sectors == old(disk.sectors)
    ensures c.Pass? ==> disk.sectors == Written(old(disk.sectors), 0, MbrImage(numSectors, boot, mngrSectors, patch))
  {
    var protMbr := new byte[SectorSize];
    MakeProtectiveMbr(protMbr, numSectors);
    if boot.Some? {
      c := ReadBootCode(protMbr, boot.value, mngrSectors, patch);
      if c.Fail? {
        return;
      }
    } else {
      c := Pass([]);
    }
    assert protMbr[0..SectorSize] == MbrImage(numSectors, boot, mngrSectors, patch);
    disk.WriteSector(0, protMbr, 0);
  }

  /** "write primary partition table": build the empty array and write it
      to sectors 2..33. */
  method WritePrimaryTable(disk: Disk, crc: Crc32.Crc32Table) returns (partTable: array<byte>, tableCrc: u32)
    requires disk.Valid() && crc.Ready()
    modifies disk
    ensures fresh(partTable) && partTable.Length == NumberPartBytes
    ensures partTable[..] == EmptyTable() && tableCrc == Crc32.Crc32(EmptyTable())
    ensures disk.Valid() && disk.sectors == TableWritten(old(disk.sectors), 2, EmptyTable(), NumberPartSectors)
  {
    partTable := new byte[NumberPartBytes];
    tableCrc := MakePartTable(partTable, crc);
    WriteTable(disk, partTable, 2);
  }

  /** "write primary partition table header": build the header over the
      array's CRC and write it to sector 1. */
  method WritePrimaryHeader(disk: Disk, numSectors: u32, diskGuid: seq<byte>, tableCrc: u32, crc: Crc32.Crc32Table)
    returns (partTblHdr: array<byte>)
    requires disk.Valid() && |diskGuid| == 16 && crc.Ready()
    modifies disk
    ensures fresh(partTblHdr) && partTblHdr.Length == SectorSize
    ensures partTblHdr[..] == PrimaryHeaderImage(numSectors, diskGuid, tableCrc)
    ensures disk.Valid() && disk.sectors == Written(old(disk.sectors), 1, partTblHdr[..])
  {
    partTblHdr := new byte[SectorSize];
    MakePartTblHdr(partTblHdr, numSectors, diskGuid, tableCrc, crc);
    assert partTblHdr[0..SectorSize] == partTblHdr[..];
    disk.WriteSector(1, partTblHdr, 0);
  }

  /** "write backup partition table" and "write backup partition table
      header": the array to the 32 sectors in front of the last one, then
      the backup built from the primary header to the last sector. */
  method WriteBackup(disk: Disk, numSectors: u32, table: array<byte>, partTblHdr: array<byte>, crc: Crc32.Crc32Table)
    requires disk.Valid() && crc.Ready()
    requires table.Length == NumberPartBytes && partTblHdr.Length == SectorSize
    modifies disk
    ensures disk.Valid()
    ensures disk.sectors == Written(TableWritten(old(disk.sectors), BackupTableLba(numSectors), table[..], NumberPartSectors),
                                    Shgpt.LastSector(numSectors), BackupHeaderImage(partTblHdr[..], numSectors))
  {
    WriteTable(disk, table, BackupTableLba(numSectors));
    var backupTblHdr := new byte[SectorSize];
    MakeBackupTblHdr(backupTblHdr, partTblHdr, numSectors, crc);
    assert backupTblHdr[0..SectorSize] == backupTblHdr[..];
    disk.WriteSector(Shgpt.LastSector(numSectors), backupTblHdr, 0);
  }

  /** The end of main: the primary header, the backup array and the
      backup header. */
  method WriteHeaders(disk: Disk, numSectors: u32, diskGuid: seq<byte>, partTable: array<byte>, tableCrc: u32,
                      crc: Crc32.Crc32Table)
    requires disk.Valid() && |diskGuid| == 16 && crc.Ready()
    requires partTable.Length == NumberPartBytes && partTable[..] == EmptyTable() && tableCrc == Crc32.Crc32(EmptyTable())
    modifies disk
    ensures disk.Valid() && disk.sectors == HeadersWritten(old(disk.sectors), numSectors, diskGuid)
  {
    var partTblHdr := WritePrimaryHeader(disk, numSectors, diskGuid, tableCrc, crc);
    WriteBackup(disk, numSectors, partTable, partTblHdr, crc);
  }

  /** main of disk/mkgpt once the disk is open and its sector count known:
      the manager code first, then the MBR (boot code patched with the
      manager's sector count), the primary array, the headers and the
      backup array. The first check that fails stops it; a run that
      succeeds leaves a disk shgpt accepts without a warning and on which
      it lists no partition. */
  method MkgptMain(disk: Disk, numSectors: u32, boot: Option<seq<byte>>, mngr: Option<seq<byte>>,
                   diskGuid: seq<byte>, mngrCode: array<byte>) returns (c: Check)
    requires disk.Valid() && |diskGuid| == 16 && mngrCode.Length == MaxMngrSectors * SectorSize
    modifies disk, mngrCode
    ensures disk.Valid() && c.warnings == []
    ensures c.Pass? <==>
      && numSectors >= MinNumberSectors
      && (mngr.Some? ==> MngrSectors(|mngr.value|) <= MaxMngrSectors)
      && (boot.Some? ==> |boot.value| <= MaxBootCode)
    ensures c.Fail? ==>
      c.fault == (if numSectors < MinNumberSectors then DiskTooSmall
                  else if mngr.Some? && MngrSectors(|mngr.value|) > MaxMngrSectors then MngrCodeTooBig
                  else BootCodeTooBig)
    ensures c.Fail? && c.fault != BootCodeTooBig ==> disk.sectors == old(disk.sectors)
    ensures c.Pass? ==>
      var count := if mngr.Some? then MngrSectors(|mngr.value|) else 0;
      && mngrCode[..] == (if mngr.Some? then Splice(old(mngrCode[..]), 0, mngr.value) else old(mngrCode[..]))
      && disk.sectors == MkgptImage(old(disk.sectors), numSectors, MbrImage(numSectors, boot, count, true),
                                    mngrCode[..], count, diskGuid, true)
    ensures c.Pass? ==> WellFormed(disk.sectors) && Shgpt.ShowVerdict(disk.sectors, numSectors) == Pass([])
    ensures c.Pass? ==> TableReadable(disk.sectors, 2) && Shgpt.Listing(TableImage(disk.sectors, 2)) == []
  {
    var crc := new Crc32.Crc32Table();
    crc.Init();
    if numSectors < MinNumberSectors {
      return Fail([], DiskTooSmall);
    }
    ghost var d0 := disk.sectors;
    var count := 0;
    if mngr.Some? {
      var r := ReadMngrCode(mngrCode, mngr.value);
      if r.Err? {
        return Fail([], r.fault);
      }
      count := r.value;
      WriteMngr(disk, mngrCode, count);
    }
    c := WriteMbr(disk, numSectors, boot, count, true);
    if c.Fail? {
      return;
    }
    var partTable, tableCrc := WritePrimaryTable(disk, crc);
    WriteHeaders(disk, numSectors, diskGuid, partTable, tableCrc, crc);
    MbrImageAccepted(numSectors, boot, count, true);
    MkgptImageAccepted(d0, numSectors, MbrImage(numSectors, boot, count, true), mngrCode[..], count, diskGuid, true);
  }

  /** main of disk-GPT/mkgpt once the disk is open and its sector count
      known: the MBR (boot code not patched) and the primary array first,
      then all 2014 sectors of the manager buffer, then the headers and the
      backup array. */
  method MkgptMainFullMngr(disk: Disk, numSectors: u32, boot: Option<seq<byte>>, mngr: Option<seq<byte>>,
                           diskGuid: seq<byte>, mngrCode: array<byte>) returns (c: Check)
    requires disk.Valid() && |diskGuid| == 16 && mngrCode.Length == MaxMngrSectors * SectorSize
    modifies disk, mngrCode
    ensures disk.Valid() && c.warnings == []
    ensures c.Pass? <==>
      && numSectors >= MinNumberSectors
      && (boot.Some? ==> |boot.value| <= MaxBootCode)
      && (mngr.Some? ==> MngrSectors(|mngr.value|) <= MaxMngrSectors)
    ensures c.Fail? ==>
      c.fault == (if numSectors < MinNumberSectors then DiskTooSmall
                  else if boot.Some? && |boot.value| > MaxBootCode then BootCodeTooBig
                  else MngrCodeTooBig)
    ensures c.Fail? && c.fault != MngrCodeTooBig ==> disk.sectors == old(disk.sectors)
    ensures c.Pass? ==>
      var count := if mngr.Some? then MaxMngrSectors else 0;
      && mngrCode[..] == (if mngr.Some? then Splice(old(mngrCode[..]), 0, mngr.value) else old(mngrCode[..]))
      && disk.sectors == MkgptImage(old(disk.sectors), numSectors, MbrImage(numSectors, boot, 0, false),
                                    mngrCode[..], count, diskGuid, false)
    ensures c.Pass? ==> WellFormed(disk.sectors) && Shgpt.ShowVerdict(disk.sectors, numSectors) == Pass([])
    ensures c.Pass? ==> TableReadable(disk.sectors, 2) && Shgpt.Listing(TableImage(disk.sectors, 2)) == []
  {
    var crc := new Crc32.Crc32Table();
    crc.Init();
    if numSectors < MinNumberSectors {
      return Fail([], DiskTooSmall);
    }
    ghost var d0 := disk.sectors;
    c := WriteMbr(disk, numSectors, boot, 0, false);
    if c.Fail? {
      return;
    }
    var ok := WriteAfterMbr(disk, numSectors, mngr, diskGuid, mngrCode, crc);
    if !ok {
      return Fail([], MngrCodeTooBig);
    }
    ghost var count := if mngr.Some? then MaxMngrSectors else 0;
    assert disk.sectors == MkgptImage(d0, numSectors, MbrImage(numSectors, boot, 0, false), mngrCode[..], count, diskGuid, false);
    MbrImageAccepted(numSectors, boot, 0, false);
    MkgptImageAccepted(d0, numSectors, MbrImage(numSectors, boot, 0, false), mngrCode[..], count, diskGuid, false);
  }

  /** What disk-GPT/mkgpt's main does after the MBR: the primary array,
      then, when a manager file is named, its code into the buffer and all
      2014 sectors of the buffer to the disk, then the headers and the
      backup array. A manager file too large for the buffer stops it after
      the primary array. */
  method WriteAfterMbr(disk: Disk, numSectors: u32, mngr: Option<seq<byte>>, diskGuid: seq<byte>,
                       mngrCode: array<byte>, crc: Crc32.Crc32Table) returns (ok: bool)
    requires disk.Valid() && |diskGuid| == 16 && mngrCode.Length == MaxMngrSectors * SectorSize && crc.Ready()
    modifies disk, mngrCode
    ensures disk.Valid()
    ensures ok <==> (mngr.Some? ==> MngrSectors(|mngr.value|) <= MaxMngrSectors)
    ensures ok ==>
      && mngrCode[..] == (if mngr.Some? then Splice(old(mngrCode[..]), 0, mngr.value) else old(mngrCode[..]))
      && disk.sectors == HeadersWritten(MngrWritten(TableWritten(old(disk.sectors), 2, EmptyTable(), NumberPartSectors),
                                                    mngrCode[..], if mngr.Some? then MaxMngrSectors else 0),
                                        numSectors, diskGuid)
  {
    var partTable, tableCrc := WritePrimaryTable(disk, crc);
    var count := 0;
    if mngr.Some? {
      var r := ReadMngrCode(mngrCode, mngr.value);
      if r.Err? {
        return false;
      }
      count := MaxMngrSectors;
      WriteMngr(disk, mngrCode, count);
    }
    WriteHeaders(disk, numSectors, diskGuid, partTable, tableCrc, crc);
    ok := true;
  }
}
