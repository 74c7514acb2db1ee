/** The GPT header sector (section 5.3.2 of the UEFI Specification): its
    field layout, the header CRC, the checks shgpt applies to the primary
    and the backup copy, and the two builders of mkgpt.

    Every 8-byte LBA field is read as two 4-byte words; the tools demand a
    zero high word and compare the low word. */
module Header {
  import opened Bytes
  import opened Layout
  import Crc32
  import Guid

  const OffRevision := 8
  const OffHeaderSize := 12
  const OffHeaderCrc := 16
  const OffReserved := 20
  const OffMyLba := 24
  const OffAltLba := 32
  const OffFirstUsable := 40
  const OffLastUsable := 48
  const OffDiskGuid := 56
  const OffTableLba := 72
  const OffNumEntries := 80
  const OffEntrySize := 84
  const OffTableCrc := 88
  /** Bytes covered by the header CRC; everything after them is padding. */
  const HeaderSize := 92
  const Revision: u32 := 0x0001_0000

  /** "EFI PART" */
  const EfiPart: seq<byte> := [0x45, 0x46, 0x49, 0x20, 0x50, 0x41, 0x52, 0x54]

  /** strncpy of the first eight bytes into a zeroed buffer, then strcmp
      against "EFI PART". */
  predicate SignatureOk(h: seq<byte>)
    requires |h| == SectorSize
  {
    CString(h[..8]) == EfiPart
  }

  /** The C-string comparison accepts exactly the sectors that begin with
      the eight signature bytes. */
  lemma SignatureOkIff(h: seq<byte>)
    requires |h| == SectorSize
    ensures SignatureOk(h) <==> h[..8] == EfiPart
  {
    var r := CString(h[..8]);
    assert |r| == 8 ==> r == h[..8];
  }

  /** LBA field at off: high word zero, low word lo. */
  predicate LbaIs(h: seq<byte>, off: int, lo: u32)
    requires |h| == SectorSize && 0 <= off <= SectorSize - 8
  {
    Get4LE(h, off + 4) == 0 && Get4LE(h, off) == lo
  }

  /** CRC-32 of the first 92 bytes with the CRC field taken as zero. */
  function HeaderCrc(h: seq<byte>): u32
    requires |h| == SectorSize
  {
    Crc32.Crc32(Splice(h, OffHeaderCrc, Le4(0))[..HeaderSize])
  }

  predicate HeaderCrcOk(h: seq<byte>)
    requires |h| == SectorSize
  {
    Get4LE(h, OffHeaderCrc) == HeaderCrc(h)
  }

  /** Fill in the header CRC field. */
  function Seal(h: seq<byte>): (r: seq<byte>)
    requires |h| == SectorSize
    ensures |r| == SectorSize
  {
    Splice(h, OffHeaderCrc, Le4(HeaderCrc(h)))
  }

  /** A sealed header carries a valid CRC, and sealing touches only the
      four CRC bytes. */
  lemma SealOk(h: seq<byte>)
    requires |h| == SectorSize
    ensures HeaderCrcOk(Seal(h))
    ensures forall i :: 0 <= i < SectorSize && !(OffHeaderCrc <= i < OffHeaderCrc + 4) ==> Seal(h)[i] == h[i]
  {
    SpliceTwice(h, OffHeaderCrc, Le4(HeaderCrc(h)), Le4(0));
    Get4LEOfSplice(h, OffHeaderCrc, HeaderCrc(h));
    forall i | 0 <= i < SectorSize && !(OffHeaderCrc <= i < OffHeaderCrc + 4)
      ensures Seal(h)[i] == h[i]
    {
      SpliceAt(h, OffHeaderCrc, Le4(HeaderCrc(h)), i);
    }
  }

  /** The first four tests of either header: signature, revision, header
      size and header CRC. */
  function IdentityCheck(h: seq<byte>, role: Role): (c: Check)
    requires |h| == SectorSize
    ensures c.Pass? <==>
      && SignatureOk(h)
      && Get4LE(h, OffRevision) == Revision
      && Get4LE(h, OffHeaderSize) == HeaderSize
      && HeaderCrcOk(h)
    ensures c.warnings == []
    ensures !SignatureOk(h) ==> c == Fail([], HdrSignature(role))
  {
    Require(SignatureOk(h), HdrSignature(role))
      .Then(Require(Get4LE(h, OffRevision) == Revision, HdrRevision))
      .Then(Require(Get4LE(h, OffHeaderSize) == HeaderSize, HdrSize))
      .Then(Require(HeaderCrcOk(h), HdrCrc(role)))
  }

  /** The two usable-area tests, which only warn. */
  function UsableWarnings(h: seq<byte>, numSectors: u32): (c: Check)
    requires |h| == SectorSize
    ensures c.Pass?
    ensures c.warnings ==
      (if LbaIs(h, OffFirstUsable, FirstUsableSector) then [] else [FirstUsableUnexpected]) +
      (if LbaIs(h, OffLastUsable, Wrap32(numSectors - 2 - NumberPartSectors)) then [] else [LastUsableUnexpected])
  {
    Warn(LbaIs(h, OffFirstUsable, FirstUsableSector), FirstUsableUnexpected)
      .Then(Warn(LbaIs(h, OffLastUsable, Wrap32(numSectors - 2 - NumberPartSectors)), LastUsableUnexpected))
  }

  /** The last four tests of either header: where the array starts, its
      shape, and the zero padding after the 92 header bytes. */
  function TableFieldsCheck(h: seq<byte>, tableLba: u32): (c: Check)
    requires |h| == SectorSize
    ensures c.Pass? <==>
      && LbaIs(h, OffTableLba, tableLba)
      && Get4LE(h, OffNumEntries) == NumberPartEntries
      && Get4LE(h, OffEntrySize) == SizeofPartEntry
      && IsZero(h[HeaderSize..])
    ensures c.warnings == []
  {
    Require(LbaIs(h, OffTableLba, tableLba), HdrTableStart)
      .Then(Require(Get4LE(h, OffNumEntries) == NumberPartEntries, HdrEntryCount))
      .Then(Require(Get4LE(h, OffEntrySize) == SizeofPartEntry, HdrEntrySize))
      .Then(Require(IsZero(h[HeaderSize..]), HdrPadding))
  }

  /** Reserved word and self/alternate LBAs of the primary header. */
  function PrimaryPlacementCheck(h: seq<byte>, numSectors: u32): (c: Check)
    requires |h| == SectorSize
    ensures c.Pass? <==>
      && IsZero(h[OffReserved..OffReserved + 4])
      && LbaIs(h, OffMyLba, 1)
      && LbaIs(h, OffAltLba, Wrap32(numSectors - 1))
    ensures c.warnings == []
  {
    Require(IsZero(h[OffReserved..OffReserved + 4]), HdrReserved)
      .Then(Require(LbaIs(h, OffMyLba, 1), HdrMyLba(Primary)))
      .Then(Require(LbaIs(h, OffAltLba, Wrap32(numSectors - 1)), HdrAltLba))
  }

  /** Reserved word and self/alternate LBAs of the backup header: it sits in
      the last sector and points back to LBA 1. */
  function BackupPlacementCheck(h: seq<byte>, numSectors: u32): (c: Check)
    requires |h| == SectorSize
    ensures c.Pass? <==>
      && Get4LE(h, OffReserved) == 0
      && LbaIs(h, OffMyLba, Wrap32(numSectors - 1))
      && LbaIs(h, OffAltLba, 1)
    ensures c.warnings == []
  {
    Require(Get4LE(h, OffReserved) == 0, HdrReserved)
      .Then(Require(LbaIs(h, OffMyLba, Wrap32(numSectors - 1)), HdrMyLba(Backup)))
      .Then(Require(LbaIs(h, OffAltLba, 1), HdrAltLba))
  }

  /** showPartTblHdr: all tests of the primary header, fatal and non-fatal,
      in program order. */
  function PrimaryHeaderCheck(h: seq<byte>, numSectors: u32): (c: Check)
    requires |h| == SectorSize
    ensures c.Pass? <==>
      && IdentityCheck(h, Primary).Pass?
      && PrimaryPlacementCheck(h, numSectors).Pass?
      && TableFieldsCheck(h, 2).Pass?
    ensures c.Pass? ==> c.warnings == UsableWarnings(h, numSectors).warnings
    ensures !SignatureOk(h) ==> c == Fail([], HdrSignature(Primary))
  {
    IdentityCheck(h, Primary)
      .Then(PrimaryPlacementCheck(h, numSectors))
      .Then(UsableWarnings(h, numSectors))
      .Then(TableFieldsCheck(h, 2))
  }

  /** showBackupTblHdr: the same sequence for the backup header, whose array
      ends just before it. */
  function BackupHeaderCheck(h: seq<byte>, numSectors: u32): (c: Check)
    requires |h| == SectorSize
    ensures c.Pass? <==>
      && IdentityCheck(h, Backup).Pass?
      && BackupPlacementCheck(h, numSectors).Pass?
      && TableFieldsCheck(h, BackupTableLba(numSectors)).Pass?
    ensures c.Pass? ==> c.warnings == UsableWarnings(h, numSectors).warnings
    ensures !SignatureOk(h) ==> c == Fail([], HdrSignature(Backup))
  {
    IdentityCheck(h, Backup)
      .Then(BackupPlacementCheck(h, numSectors))
      .Then(UsableWarnings(h, numSectors))
      .Then(TableFieldsCheck(h, BackupTableLba(numSectors)))
  }

  /** The primary tests the reserved word byte by byte (isZero), the backup
      as a number (get4LE); both accept the same sectors. */
  lemma ReservedTestsAgree(h: seq<byte>)
    requires |h| == SectorSize
    ensures IsZero(h[OffReserved..OffReserved + 4]) <==> Get4LE(h, OffReserved) == 0
  {
    if Get4LE(h, OffReserved) == 0 {
      assert h[20] == 0 && h[21] == 0 && h[22] == 0 && h[23] == 0;
    }
  }

  // ---- mkgpt's builders ----

  /** Bytes 0..23 as makePartTblHdr writes them: signature, revision,
      header size, a zero CRC field and the zero reserved word. */
  function HeaderIdentity(): (a: seq<byte>)
    ensures |a| == OffMyLba
  {
    EfiPart + Le4(Revision) + Le4(HeaderSize) + Le4(0) + Le4(0)
  }

  /** Bytes 24..55: myLBA, altLBA, first and last usable LBA. */
  function HeaderLbas(numSectors: u32): (b: seq<byte>)
    ensures |b| == OffDiskGuid - OffMyLba
  {
    Le8(1) + Le8(Wrap32(numSectors - 1))
      + Le8(FirstUsableSector) + Le8(Wrap32(numSectors - 2 - NumberPartSectors))
  }

  /** Bytes 56..91: disk GUID, array LBA, entry count and size, array CRC. */
  function HeaderTable(diskGuid: seq<byte>, tableCrc: u32): (t: seq<byte>)
    requires |diskGuid| == 16
    ensures |t| == HeaderSize - OffDiskGuid
  {
    Guid.CopyLE(diskGuid) + Le8(2)
      + Le4(NumberPartEntries) + Le4(SizeofPartEntry) + Le4(tableCrc)
  }

  /** makePartTblHdr's sector in layout order, with the header CRC field
      still zero. */
  function PrimaryHeaderFields(numSectors: u32, diskGuid: seq<byte>, tableCrc: u32): (h: seq<byte>)
    requires |diskGuid| == 16
    ensures |h| == SectorSize
  {
    HeaderIdentity() + HeaderLbas(numSectors) + HeaderTable(diskGuid, tableCrc)
      + Zeros(SectorSize - HeaderSize)
  }

  /** The primary header sector as makePartTblHdr leaves it. */
  function PrimaryHeaderImage(numSectors: u32, diskGuid: seq<byte>, tableCrc: u32): (h: seq<byte>)
    requires |diskGuid| == 16
    ensures |h| == SectorSize
  {
    Seal(PrimaryHeaderFields(numSectors, diskGuid, tableCrc))
  }

  /** The backup header sector before its CRC is computed: the primary with
      myLBA and altLBA exchanged (xchg8LE, two 4-byte exchanges), the array
      moved to the end of the disk and the CRC field zeroed. */
  function BackupFields(primary: seq<byte>, numSectors: u32): (z: seq<byte>)
    requires |primary| == SectorSize
    ensures |z| == SectorSize
  {
    var swapped := SwapRanges(SwapRanges(primary, OffMyLba, OffAltLba, 4), OffMyLba + 4, OffAltLba + 4, 4);
    var moved := Splice(swapped, OffTableLba, Le8(BackupTableLba(numSectors)));
    Splice(moved, OffHeaderCrc, Le4(0))
  }

  /** The backup header sector as makeBackupTblHdr derives it from the
      primary, CRC included. */
  function BackupHeaderImage(primary: seq<byte>, numSectors: u32): (h: seq<byte>)
    requires |primary| == SectorSize
    ensures |h| == SectorSize
  {
    Seal(BackupFields(primary, numSectors))
  }

  /** The array LBA of the backup copy: numSectors - 1 - 32, in unsigned
      arithmetic. */
  function BackupTableLba(numSectors: u32): u32
  {
    Wrap32(numSectors - 1 - NumberPartSectors)
  }

  /** Byte i of the backup outside the CRC field, stated independently of
      how makeBackupTblHdr produces it: myLBA and altLBA exchanged, the new
      array LBA, everything else the primary's. */
  function BackupByte(primary: seq<byte>, numSectors: u32, i: int): byte
    requires |primary| == SectorSize && 0 <= i < SectorSize
  {
    if OffMyLba <= i < OffAltLba then primary[i + 8]
    else if OffAltLba <= i < OffAltLba + 8 then primary[i - 8]
    else if OffTableLba <= i < OffTableLba + 8 then Le8(BackupTableLba(numSectors))[i - OffTableLba]
    else if OffHeaderCrc <= i < OffHeaderCrc + 4 then 0
    else primary[i]
  }

  /** b agrees with BackupByte everywhere but in the CRC field. */
  predicate BackupOutsideCrc(b: seq<byte>, primary: seq<byte>, numSectors: u32)
    requires |b| == SectorSize && |primary| == SectorSize
  {
    forall i :: 0 <= i < SectorSize && !(OffHeaderCrc <= i < OffHeaderCrc + 4) ==> b[i] == BackupByte(primary, numSectors, i)
  }

  lemma Get4LEOfLe8(s: seq<byte>, off: int, v: u32)
    requires 0 <= off && off + 8 <= |s| && s[off..off + 8] == Le8(v)
    ensures Get4LE(s, off) == v && Get4LE(s, off + 4) == 0
  {
    assert s[off..off + 4] == s[off..off + 8][..4] == Le4(v);
    assert s[off + 4..off + 8] == s[off..off + 8][4..] == Le4(0);
    Get4LEOfLe4(v);
    Get4LEOfLe4(0);
    Get4LEOfSlice(s, off, Le4(v));
    Get4LEOfSlice(s, off + 4, Le4(0));
  }

  lemma Get4LEOfField(s: seq<byte>, off: int, v: u32)
    requires 0 <= off && off + 4 <= |s| && s[off..off + 4] == Le4(v)
    ensures Get4LE(s, off) == v
  {
    Get4LEOfLe4(v);
    Get4LEOfSlice(s, off, Le4(v));
  }

  /** A word inside a part that s holds at base reads as the part's word. */
  lemma Get4LEWithin(s: seq<byte>, base: int, part: seq<byte>, k: int)
    requires 0 <= base && base + |part| <= |s| && s[base..base + |part|] == part
    requires 0 <= k && k + 4 <= |part|
    ensures Get4LE(s, base + k) == Get4LE(part, k)
  {
    var w := s[base..base + |part|];
    assert s[base + k] == w[k] && s[base + k + 1] == w[k + 1];
    assert s[base + k + 2] == w[k + 2] && s[base + k + 3] == w[k + 3];
  }

  lemma IdentityValues()
    ensures var a := HeaderIdentity();
      && a[..8] == EfiPart
      && Get4LE(a, OffRevision) == Revision
      && Get4LE(a, OffHeaderSize) == HeaderSize
      && a[OffHeaderCrc..OffHeaderCrc + 4] == Le4(0)
      && a[OffReserved..OffReserved + 4] == Le4(0)
  {
    var a := HeaderIdentity();
    Get4LEOfField(a, OffRevision, Revision);
    Get4LEOfField(a, OffHeaderSize, HeaderSize);
  }

  lemma LbaValues(numSectors: u32)
    ensures var b := HeaderLbas(numSectors);
      && Get4LE(b, 0) == 1 && Get4LE(b, 4) == 0
      && Get4LE(b, 8) == Wrap32(numSectors - 1) && Get4LE(b, 12) == 0
      && Get4LE(b, 16) == FirstUsableSector && Get4LE(b, 20) == 0
      && Get4LE(b, 24) == Wrap32(numSectors - 2 - NumberPartSectors) && Get4LE(b, 28) == 0
  {
    var b := HeaderLbas(numSectors);
    var p0, p1 := Le8(1), Le8(Wrap32(numSectors - 1));
    var p2, p3 := Le8(FirstUsableSector), Le8(Wrap32(numSectors - 2 - NumberPartSectors));
    assert b == p0 + p1 + p2 + p3;
    assert b[0..8] == p0 && b[8..16] == p1 && b[16..24] == p2 && b[24..32] == p3;
    Get4LEOfLe8(b, 0, 1);
    Get4LEOfLe8(b, 8, Wrap32(numSectors - 1));
    Get4LEOfLe8(b, 16, FirstUsableSector);
    Get4LEOfLe8(b, 24, Wrap32(numSectors - 2 - NumberPartSectors));
  }

  lemma TableValues(diskGuid: seq<byte>, tableCrc: u32)
    requires |diskGuid| == 16
    ensures var t := HeaderTable(diskGuid, tableCrc);
      && t[..16] == Guid.CopyLE(diskGuid)
      && Get4LE(t, 16) == 2 && Get4LE(t, 20) == 0
      && Get4LE(t, 24) == NumberPartEntries
      && Get4LE(t, 28) == SizeofPartEntry
      && Get4LE(t, 32) == tableCrc
  {
    var t := HeaderTable(diskGuid, tableCrc);
    Get4LEOfLe8(t, 16, 2);
    assert t[32..36] == Le4(tableCrc);
    Get4LEOfField(t, 24, NumberPartEntries);
    Get4LEOfField(t, 28, SizeofPartEntry);
    Get4LEOfField(t, 32, tableCrc);
  }

  /** Where the parts sit in the sealed primary sector: everything but the
      CRC field is as makePartTblHdr laid it out. */
  lemma ImageParts(numSectors: u32, diskGuid: seq<byte>, tableCrc: u32)
    requires |diskGuid| == 16
    ensures var h := PrimaryHeaderImage(numSectors, diskGuid, tableCrc);
      var a := HeaderIdentity();
      && HeaderCrcOk(h)
      && h[..OffHeaderCrc] == a[..OffHeaderCrc]
      && h[OffReserved..OffMyLba] == a[OffReserved..OffMyLba]
      && h[OffMyLba..OffDiskGuid] == HeaderLbas(numSectors)
      && h[OffDiskGuid..HeaderSize] == HeaderTable(diskGuid, tableCrc)
      && h[HeaderSize..] == Zeros(SectorSize - HeaderSize)
  {
    var f := PrimaryHeaderFields(numSectors, diskGuid, tableCrc);
    var a, b, t := HeaderIdentity(), HeaderLbas(numSectors), HeaderTable(diskGuid, tableCrc);
    assert f[..OffMyLba] == a;
    assert f[OffMyLba..OffDiskGuid] == b;
    assert f[OffDiskGuid..HeaderSize] == t;
    assert f[HeaderSize..] == Zeros(SectorSize - HeaderSize);
    SealOk(f);
    var h := PrimaryHeaderImage(numSectors, diskGuid, tableCrc);
    assert h[..OffHeaderCrc] == f[..OffHeaderCrc];
    assert h[OffReserved..OffMyLba] == f[OffReserved..OffMyLba];
    assert h[OffMyLba..OffDiskGuid] == f[OffMyLba..OffDiskGuid];
    assert h[OffDiskGuid..HeaderSize] == f[OffDiskGuid..HeaderSize];
    assert h[HeaderSize..] == f[HeaderSize..];
  }

  /** Signature, revision, size, CRC, reserved word and padding of the sealed
      primary sector. */
  lemma ImageIdentityValues(numSectors: u32, diskGuid: seq<byte>, tableCrc: u32)
    requires |diskGuid| == 16
    ensures var h := PrimaryHeaderImage(numSectors, diskGuid, tableCrc);
      && h[..8] == EfiPart
      && Get4LE(h, OffRevision) == Revision
      && Get4LE(h, OffHeaderSize) == HeaderSize
      && HeaderCrcOk(h)
      && IsZero(h[OffReserved..OffReserved + 4])
      && IsZero(h[HeaderSize..])
  {
    var h := PrimaryHeaderImage(numSectors, diskGuid, tableCrc);
    var a := HeaderIdentity();
    ImageParts(numSectors, diskGuid, tableCrc);
    IdentityValues();
    assert h[..8] == a[..OffHeaderCrc][..8];
    Get4LEWithin(h, 0, a[..OffHeaderCrc], OffRevision);
    Get4LEWithin(a, 0, a[..OffHeaderCrc], OffRevision);
    Get4LEWithin(h, 0, a[..OffHeaderCrc], OffHeaderSize);
    Get4LEWithin(a, 0, a[..OffHeaderCrc], OffHeaderSize);
  }

  /** The four LBA fields of the sealed primary sector. */
  lemma ImageLbaValues(numSectors: u32, diskGuid: seq<byte>, tableCrc: u32)
    requires |diskGuid| == 16
    ensures var h := PrimaryHeaderImage(numSectors, diskGuid, tableCrc);
      && LbaIs(h, OffMyLba, 1)
      && LbaIs(h, OffAltLba, Wrap32(numSectors - 1))
      && LbaIs(h, OffFirstUsable, FirstUsableSector)
      && LbaIs(h, OffLastUsable, Wrap32(numSectors - 2 - NumberPartSectors))
  {
    var h := PrimaryHeaderImage(numSectors, diskGuid, tableCrc);
    var b := HeaderLbas(numSectors);
    ImageParts(numSectors, diskGuid, tableCrc);
    LbaValues(numSectors);
    Get4LEWithin(h, OffMyLba, b, 0);
    Get4LEWithin(h, OffMyLba, b, 4);
    Get4LEWithin(h, OffMyLba, b, 8);
    Get4LEWithin(h, OffMyLba, b, 12);
    Get4LEWithin(h, OffMyLba, b, 16);
    Get4LEWithin(h, OffMyLba, b, 20);
    Get4LEWithin(h, OffMyLba, b, 24);
    Get4LEWithin(h, OffMyLba, b, 28);
  }

  /** Disk GUID, array LBA, entry count and size, and array CRC of the
      sealed primary sector. */
  lemma ImageTableValues(numSectors: u32, diskGuid: seq<byte>, tableCrc: u32)
    requires |diskGuid| == 16
    ensures var h := PrimaryHeaderImage(numSectors, diskGuid, tableCrc);
      && h[OffDiskGuid..OffDiskGuid + 16] == Guid.CopyLE(diskGuid)
      && LbaIs(h, OffTableLba, 2)
      && Get4LE(h, OffNumEntries) == NumberPartEntries
      && Get4LE(h, OffEntrySize) == SizeofPartEntry
      && Get4LE(h, OffTableCrc) == tableCrc
  {
    var h := PrimaryHeaderImage(numSectors, diskGuid, tableCrc);
    var t := HeaderTable(diskGuid, tableCrc);
    ImageParts(numSectors, diskGuid, tableCrc);
    TableValues(diskGuid, tableCrc);
    assert h[OffDiskGuid..OffDiskGuid + 16] == t[..16];
    Get4LEWithin(h, OffDiskGuid, t, 16);
    Get4LEWithin(h, OffDiskGuid, t, 20);
    Get4LEWithin(h, OffDiskGuid, t, 24);
    Get4LEWithin(h, OffDiskGuid, t, 28);
    Get4LEWithin(h, OffDiskGuid, t, 32);
  }

  /** mkgpt's primary header passes showPartTblHdr without a warning. */
  lemma PrimaryHeaderAccepted(numSectors: u32, diskGuid: seq<byte>, tableCrc: u32)
    requires |diskGuid| == 16
    ensures PrimaryHeaderCheck(PrimaryHeaderImage(numSectors, diskGuid, tableCrc), numSectors) == Pass([])
  {
    var h := PrimaryHeaderImage(numSectors, diskGuid, tableCrc);
    ImageIdentityValues(numSectors, diskGuid, tableCrc);
    ImageLbaValues(numSectors, diskGuid, tableCrc);
    ImageTableValues(numSectors, diskGuid, tableCrc);
    SignatureOkIff(h);
    assert IdentityCheck(h, Primary).Pass?;
    assert PrimaryPlacementCheck(h, numSectors).Pass?;
    assert TableFieldsCheck(h, 2).Pass?;
    assert UsableWarnings(h, numSectors).warnings == [];
  }

  /** The unsealed backup, byte by byte. */
  lemma BackupFieldsAt(primary: seq<byte>, numSectors: u32, i: int)
    requires |primary| == SectorSize && 0 <= i < SectorSize
    ensures BackupFields(primary, numSectors)[i] == BackupByte(primary, numSectors, i)
  {
    var swapped := SwapRanges(SwapRanges(primary, OffMyLba, OffAltLba, 4), OffMyLba + 4, OffAltLba + 4, 4);
    var x := Le8(BackupTableLba(numSectors));
    var moved := Splice(swapped, OffTableLba, x);
    SpliceAt(moved, OffHeaderCrc, Le4(0), i);
    SpliceAt(swapped, OffTableLba, x, i);
    SwapPairAt(primary, OffMyLba, OffAltLba, i);
  }

  /** makeBackupTblHdr's result differs from the primary only in the
      exchanged myLBA/altLBA, the array start N-33 and a recomputed, valid
      header CRC. */
  lemma BackupAgreesWithPrimary(primary: seq<byte>, numSectors: u32)
    requires |primary| == SectorSize
    ensures var b := BackupHeaderImage(primary, numSectors);
      HeaderCrcOk(b) && BackupOutsideCrc(b, primary, numSectors)
  {
    var z := BackupFields(primary, numSectors);
    SealOk(z);
    forall i | 0 <= i < SectorSize
      ensures z[i] == BackupByte(primary, numSectors, i)
    {
      BackupFieldsAt(primary, numSectors, i);
    }
  }

  /** Word-level agreement from byte-level agreement. */
  lemma Get4LEAgree(s: seq<byte>, at: int, t: seq<byte>, bt: int)
    requires 0 <= at && at + 4 <= |s| && 0 <= bt && bt + 4 <= |t|
    requires s[at] == t[bt] && s[at + 1] == t[bt + 1] && s[at + 2] == t[bt + 2] && s[at + 3] == t[bt + 3]
    ensures Get4LE(s, at) == Get4LE(t, bt)
  {
  }

  /** A word outside the rewritten fields is copied from the primary. */
  lemma BackupKeepsWord(b: seq<byte>, p: seq<byte>, numSectors: u32, at: int)
    requires |b| == SectorSize && |p| == SectorSize && BackupOutsideCrc(b, p, numSectors)
    requires (0 <= at && at + 4 <= OffHeaderCrc) || (OffReserved <= at && at + 4 <= OffMyLba)
      || (OffFirstUsable <= at && at + 4 <= OffTableLba) || (OffNumEntries <= at && at + 4 <= SectorSize)
    ensures Get4LE(b, at) == Get4LE(p, at)
  {
    assert b[at] == BackupByte(p, numSectors, at);
    assert b[at + 1] == BackupByte(p, numSectors, at + 1);
    assert b[at + 2] == BackupByte(p, numSectors, at + 2);
    assert b[at + 3] == BackupByte(p, numSectors, at + 3);
    Get4LEAgree(b, at, p, at);
  }

  /** A word of myLBA in the backup is the matching word of altLBA in the
      primary, and the other way round. */
  lemma BackupSwapsWord(b: seq<byte>, p: seq<byte>, numSectors: u32, at: int)
    requires |b| == SectorSize && |p| == SectorSize && BackupOutsideCrc(b, p, numSectors)
    requires OffMyLba <= at && at + 4 <= OffAltLba
    ensures Get4LE(b, at) == Get4LE(p, at + 8)
    ensures Get4LE(b, at + 8) == Get4LE(p, at)
  {
    assert b[at] == BackupByte(p, numSectors, at);
    assert b[at + 1] == BackupByte(p, numSectors, at + 1);
    assert b[at + 2] == BackupByte(p, numSectors, at + 2);
    assert b[at + 3] == BackupByte(p, numSectors, at + 3);
    Get4LEAgree(b, at, p, at + 8);
    assert b[at + 8] == BackupByte(p, numSectors, at + 8);
    assert b[at + 9] == BackupByte(p, numSectors, at + 9);
    assert b[at + 10] == BackupByte(p, numSectors, at + 10);
    assert b[at + 11] == BackupByte(p, numSectors, at + 11);
    Get4LEAgree(b, at + 8, p, at);
  }

  /** The words of the backup that makeBackupTblHdr copies unchanged. */
  lemma BackupWordsKept(b: seq<byte>, p: seq<byte>, numSectors: u32)
    requires |b| == SectorSize && |p| == SectorSize && BackupOutsideCrc(b, p, numSectors)
    ensures b[..8] == p[..8]
    ensures Get4LE(b, OffRevision) == Get4LE(p, OffRevision)
    ensures Get4LE(b, OffHeaderSize) == Get4LE(p, OffHeaderSize)
    ensures Get4LE(b, OffReserved) == Get4LE(p, OffReserved)
    ensures Get4LE(b, OffFirstUsable) == Get4LE(p, OffFirstUsable)
    ensures Get4LE(b, OffFirstUsable + 4) == Get4LE(p, OffFirstUsable + 4)
    ensures Get4LE(b, OffLastUsable) == Get4LE(p, OffLastUsable)
    ensures Get4LE(b, OffLastUsable + 4) == Get4LE(p, OffLastUsable + 4)
    ensures Get4LE(b, OffNumEntries) == Get4LE(p, OffNumEntries)
    ensures Get4LE(b, OffEntrySize) == Get4LE(p, OffEntrySize)
    ensures b[HeaderSize..] == p[HeaderSize..]
  {
    assert b[..8] == p[..8] by {
      forall i | 0 <= i < 8
        ensures b[i] == p[i]
      {
        assert b[i] == BackupByte(p, numSectors, i);
      }
    }
    BackupKeepsWord(b, p, numSectors, OffRevision);
    BackupKeepsWord(b, p, numSectors, OffHeaderSize);
    BackupKeepsWord(b, p, numSectors, OffReserved);
    BackupKeepsWord(b, p, numSectors, OffFirstUsable);
    BackupKeepsWord(b, p, numSectors, OffFirstUsable + 4);
    BackupKeepsWord(b, p, numSectors, OffLastUsable);
    BackupKeepsWord(b, p, numSectors, OffLastUsable + 4);
    BackupKeepsWord(b, p, numSectors, OffNumEntries);
    BackupKeepsWord(b, p, numSectors, OffEntrySize);
    assert b[HeaderSize..] == p[HeaderSize..] by {
      forall i | HeaderSize <= i < SectorSize
        ensures b[i] == p[i]
      {
        assert b[i] == BackupByte(p, numSectors, i);
      }
    }
  }

  /** The words of the backup that makeBackupTblHdr rewrites. */
  lemma BackupWordsMoved(b: seq<byte>, p: seq<byte>, numSectors: u32)
    requires |b| == SectorSize && |p| == SectorSize && BackupOutsideCrc(b, p, numSectors)
    ensures Get4LE(b, OffMyLba) == Get4LE(p, OffAltLba)
    ensures Get4LE(b, OffMyLba + 4) == Get4LE(p, OffAltLba + 4)
    ensures Get4LE(b, OffAltLba) == Get4LE(p, OffMyLba)
    ensures Get4LE(b, OffAltLba + 4) == Get4LE(p, OffMyLba + 4)
    ensures LbaIs(b, OffTableLba, BackupTableLba(numSectors))
  {
    var x := Le8(BackupTableLba(numSectors));
    BackupSwapsWord(b, p, numSectors, OffMyLba);
    BackupSwapsWord(b, p, numSectors, OffMyLba + 4);
    forall i | 0 <= i < 8
      ensures b[OffTableLba..OffTableLba + 8][i] == x[i]
    {
      assert b[OffTableLba + i] == BackupByte(p, numSectors, OffTableLba + i);
    }
    Get4LEOfLe8(b, OffTableLba, BackupTableLba(numSectors));
  }

  /** Any primary header that showPartTblHdr accepts without a warning
      yields, through makeBackupTblHdr, a backup that showBackupTblHdr
      accepts without a warning. */
  lemma BackupOfCleanPrimary(primary: seq<byte>, numSectors: u32)
    requires |primary| == SectorSize
    requires PrimaryHeaderCheck(primary, numSectors) == Pass([])
    ensures BackupHeaderCheck(BackupHeaderImage(primary, numSectors), numSectors) == Pass([])
  {
    var p := primary;
    var b := BackupHeaderImage(p, numSectors);
    BackupAgreesWithPrimary(p, numSectors);
    CleanBackup(b, p, numSectors);
  }

  /** The backup check, on any sector that agrees with a clean primary the
      way makeBackupTblHdr's output does and has a valid CRC. */
  lemma CleanBackup(b: seq<byte>, p: seq<byte>, numSectors: u32)
    requires |b| == SectorSize && |p| == SectorSize
    requires PrimaryHeaderCheck(p, numSectors) == Pass([])
    requires BackupOutsideCrc(b, p, numSectors) && HeaderCrcOk(b)
    ensures BackupHeaderCheck(b, numSectors) == Pass([])
  {
    CleanBackupIdentity(b, p, numSectors);
    CleanBackupPlacement(b, p, numSectors);
    CleanBackupTable(b, p, numSectors);
    CleanBackupUsable(b, p, numSectors);
  }

  lemma CleanBackupIdentity(b: seq<byte>, p: seq<byte>, numSectors: u32)
    requires |b| == SectorSize && |p| == SectorSize
    requires IdentityCheck(p, Primary).Pass?
    requires BackupOutsideCrc(b, p, numSectors) && HeaderCrcOk(b)
    ensures IdentityCheck(b, Backup).Pass?
  {
    BackupWordsKept(b, p, numSectors);
    SignatureOkIff(b);
    SignatureOkIff(p);
  }

  lemma CleanBackupPlacement(b: seq<byte>, p: seq<byte>, numSectors: u32)
    requires |b| == SectorSize && |p| == SectorSize
    requires PrimaryPlacementCheck(p, numSectors).Pass?
    requires BackupOutsideCrc(b, p, numSectors)
    ensures BackupPlacementCheck(b, numSectors).Pass?
  {
    BackupWordsKept(b, p, numSectors);
    BackupWordsMoved(b, p, numSectors);
    ReservedTestsAgree(p);
  }

  lemma CleanBackupTable(b: seq<byte>, p: seq<byte>, numSectors: u32)
    requires |b| == SectorSize && |p| == SectorSize
    requires TableFieldsCheck(p, 2).Pass?
    requires BackupOutsideCrc(b, p, numSectors)
    ensures TableFieldsCheck(b, BackupTableLba(numSectors)).Pass?
  {
    BackupWordsKept(b, p, numSectors);
    BackupWordsMoved(b, p, numSectors);
    assert IsZero(p[HeaderSize..]);
  }

  lemma CleanBackupUsable(b: seq<byte>, p: seq<byte>, numSectors: u32)
    requires |b| == SectorSize && |p| == SectorSize
    requires UsableWarnings(p, numSectors).warnings == []
    requires BackupOutsideCrc(b, p, numSectors)
    ensures UsableWarnings(b, numSectors).warnings == []
  {
    BackupWordsKept(b, p, numSectors);
    assert LbaIs(p, OffFirstUsable, FirstUsableSector);
    assert LbaIs(p, OffLastUsable, Wrap32(numSectors - 2 - NumberPartSectors));
  }

  /** The backup header mkgpt derives from its own primary passes
      showBackupTblHdr without a warning. */
  lemma BackupHeaderAccepted(numSectors: u32, diskGuid: seq<byte>, tableCrc: u32)
    requires |diskGuid| == 16
    ensures var p := PrimaryHeaderImage(numSectors, diskGuid, tableCrc);
      BackupHeaderCheck(BackupHeaderImage(p, numSectors), numSectors) == Pass([])
  {
    PrimaryHeaderAccepted(numSectors, diskGuid, tableCrc);
    BackupOfCleanPrimary(PrimaryHeaderImage(numSectors, diskGuid, tableCrc), numSectors);
  }

  /** With the CRC field already zero, sealing stores the CRC of the first
      92 bytes as they stand. */
  lemma SealZeroed(h: seq<byte>)
    requires |h| == SectorSize && h[OffHeaderCrc..OffHeaderCrc + 4] == Le4(0)
    ensures Seal(h) == Splice(h, OffHeaderCrc, Le4(Crc32.Crc32(h[..HeaderSize])))
  {
    SpliceSame(h, OffHeaderCrc, 4);
  }

  /** The unsealed primary holds zero in the CRC field. */
  lemma FieldsCrcZero(numSectors: u32, diskGuid: seq<byte>, tableCrc: u32)
    requires |diskGuid| == 16
    ensures PrimaryHeaderFields(numSectors, diskGuid, tableCrc)[OffHeaderCrc..OffHeaderCrc + 4] == Le4(0)
  {
    var f := PrimaryHeaderFields(numSectors, diskGuid, tableCrc);
    IdentityValues();
    assert f[..OffMyLba] == HeaderIdentity();
    assert f[OffHeaderCrc..OffHeaderCrc + 4] == HeaderIdentity()[OffHeaderCrc..OffHeaderCrc + 4];
  }

  /** makePartTblHdr, bytes 0..23: signature (strcpy also writes the NUL at
      8, which the revision then overwrites), revision, header size, a zero
      CRC field and the reserved word. */
  method PutHeaderIdentity(buf: array<byte>)
    requires buf.Length == SectorSize
    modifies buf
    ensures buf[..] == Splice(old(buf[..]), 0, HeaderIdentity())
  {
    ghost var s0 := buf[..];
    CopyInto(buf, 0, EfiPart + [0]);
    Put4LE(buf, OffRevision, Revision);
    SpliceExtend(s0, 0, EfiPart + [0], 8, Le4(Revision));
    assert (EfiPart + [0])[..8] == EfiPart;
    ghost var acc := EfiPart + Le4(Revision);
    Put4LE(buf, OffHeaderSize, HeaderSize);
    SpliceAppend(s0, 0, acc, Le4(HeaderSize));
    acc := acc + Le4(HeaderSize);
    Put4LE(buf, OffHeaderCrc, 0);
    SpliceAppend(s0, 0, acc, Le4(0));
    acc := acc + Le4(0);
    Put4LE(buf, OffReserved, 0);
    SpliceAppend(s0, 0, acc, Le4(0));
  }

  /** makePartTblHdr, bytes 24..55: my LBA, alternate LBA, first and last
      usable LBA. */
  method PutHeaderLbas(buf: array<byte>, numSectors: u32)
    requires buf.Length == SectorSize
    modifies buf
    ensures buf[..] == Splice(old(buf[..]), OffMyLba, HeaderLbas(numSectors))
  {
    ghost var s1 := buf[..];
    Put8LE(buf, OffMyLba, 1);
    ghost var acc := Le8(1);
    Put8LE(buf, OffAltLba, Wrap32(numSectors - 1));
    SpliceAppend(s1, OffMyLba, acc, Le8(Wrap32(numSectors - 1)));
    acc := acc + Le8(Wrap32(numSectors - 1));
    Put8LE(buf, OffFirstUsable, FirstUsableSector);
    SpliceAppend(s1, OffMyLba, acc, Le8(FirstUsableSector));
    acc := acc + Le8(FirstUsableSector);
    Put8LE(buf, OffLastUsable, Wrap32(numSectors - 2 - NumberPartSectors));
    SpliceAppend(s1, OffMyLba, acc, Le8(Wrap32(numSectors - 2 - NumberPartSectors)));
  }

  /** makePartTblHdr, bytes 56..91: disk GUID, array LBA, entry count and
      size, array CRC. */
  method PutHeaderTable(buf: array<byte>, diskGuid: seq<byte>, tableCrc: u32)
    requires buf.Length == SectorSize && |diskGuid| == 16
    modifies buf
    ensures buf[..] == Splice(old(buf[..]), OffDiskGuid, HeaderTable(diskGuid, tableCrc))
  {
    ghost var s2 := buf[..];
    Guid.UuidCopyLE(buf, OffDiskGuid, diskGuid);
    ghost var acc := Guid.CopyLE(diskGuid);
    Put8LE(buf, OffTableLba, 2);
    SpliceAppend(s2, OffDiskGuid, acc, Le8(2));
    acc := acc + Le8(2);
    Put4LE(buf, OffNumEntries, NumberPartEntries);
    SpliceAppend(s2, OffDiskGuid, acc, Le4(NumberPartEntries));
    acc := acc + Le4(NumberPartEntries);
    Put4LE(buf, OffEntrySize, SizeofPartEntry);
    SpliceAppend(s2, OffDiskGuid, acc, Le4(SizeofPartEntry));
    acc := acc + Le4(SizeofPartEntry);
    Put4LE(buf, OffTableCrc, tableCrc);
    SpliceAppend(s2, OffDiskGuid, acc, Le4(tableCrc));
  }

  /** makePartTblHdr: fill the header sector field by field in place, then
      compute the CRC over the 92 header bytes and store it. uuid_generate
      is replaced by the diskGuid parameter. */
  method MakePartTblHdr(buf: array<byte>, numSectors: u32, diskGuid: seq<byte>, tableCrc: u32, crc: Crc32.Crc32Table)
    requires buf.Length == SectorSize && |diskGuid| == 16 && crc.Ready()
    modifies buf
    ensures buf[..] == PrimaryHeaderImage(numSectors, diskGuid, tableCrc)
  {
    ghost var s0 := buf[..];
    PutHeaderIdentity(buf);
    PutHeaderLbas(buf, numSectors);
    PutHeaderTable(buf, diskGuid, tableCrc);
    ZeroFill(buf, HeaderSize, SectorSize - HeaderSize);
    ghost var a, b, t := HeaderIdentity(), HeaderLbas(numSectors), HeaderTable(diskGuid, tableCrc);
    SpliceAppend(s0, 0, a, b);
    SpliceAppend(s0, 0, a + b, t);
    SpliceAppend(s0, 0, a + b + t, Zeros(SectorSize - HeaderSize));
    SpliceWhole(s0, a + b + t + Zeros(SectorSize - HeaderSize));
    ghost var f := PrimaryHeaderFields(numSectors, diskGuid, tableCrc);
    assert buf[..] == f;
    var headerCrc := crc.Sum(buf[..HeaderSize]);
    FieldsCrcZero(numSectors, diskGuid, tableCrc);
    SealZeroed(f);
    Put4LE(buf, OffHeaderCrc, headerCrc);
  }

  /** makeBackupTblHdr: copy the primary, exchange myLBA and altLBA, point
      the array at the end of the disk, and recompute the header CRC. */
  method MakeBackupTblHdr(buf: array<byte>, partTblHdr: array<byte>, numSectors: u32, crc: Crc32.Crc32Table)
    requires buf.Length == SectorSize && partTblHdr.Length == SectorSize && buf != partTblHdr
    requires crc.Ready()
    modifies buf
    ensures buf[..] == BackupHeaderImage(partTblHdr[..], numSectors)
  {
    CopyInto(buf, 0, partTblHdr[..]);
    assert buf[..] == partTblHdr[..];
    Xchg8LE(buf, OffMyLba, OffAltLba);
    Put8LE(buf, OffTableLba, BackupTableLba(numSectors));
    ghost var moved := buf[..];
    Put4LE(buf, OffHeaderCrc, 0);
    SpliceTwice(moved, OffHeaderCrc, Le4(0), Le4(0));
    var backupCrc := crc.Sum(buf[..HeaderSize]);
    Put4LE(buf, OffHeaderCrc, backupCrc);
  }
}
