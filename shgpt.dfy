/** shgpt: check and show the GUID partition table of a disk image. The
    tool reads the protective MBR, the primary header at LBA 1 and the
    backup header in the last sector, cross-checks the two headers, reads
    both partition arrays and compares their CRCs with the stored ones,
    and finally lists the used slots of the primary array. The first fatal
    condition stops the tool; warnings are collected in order. */
module Shgpt {
  import opened Bytes
  import opened Layout
  import Crc32
  import opened Mbr
  import opened Header
  import opened Entries
  import opened Sectors
  import Session

  // ---- what the tool decides ----

  /** The sector of the backup header: numSectors - 1. */
  function LastSector(numSectors: u32): (n: u32)
    ensures 0 < numSectors ==> n == numSectors - 1
    ensures numSectors == 0 ==> n == TwoTo32 - 1
  {
    Wrap32(numSectors - 1)
  }

  /** The checks in main between the two headers: the same disk GUID
      (bytes 56..71), then the same array CRC. */
  function CrossCheck(h: seq<byte>, b: seq<byte>): (c: Check)
    requires |h| == SectorSize && |b| == SectorSize
    ensures c.warnings == []
    ensures c.Pass? <==>
      h[OffDiskGuid..OffDiskGuid + 16] == b[OffDiskGuid..OffDiskGuid + 16] && Get4LE(h, OffTableCrc) == Get4LE(b, OffTableCrc)
    ensures c.Fail? ==>
      c.fault == if h[OffDiskGuid..OffDiskGuid + 16] != b[OffDiskGuid..OffDiskGuid + 16] then DiskUuidMismatch else TableCrcMismatch
  {
    Require(h[OffDiskGuid..OffDiskGuid + 16] == b[OffDiskGuid..OffDiskGuid + 16], DiskUuidMismatch)
      .Then(Require(Get4LE(h, OffTableCrc) == Get4LE(b, OffTableCrc), TableCrcMismatch))
  }

  /** Both arrays: the primary at LBA 2 against the primary's array CRC,
      then the backup in the 32 sectors in front of the last one against
      the backup's. */
  function TablesCheck(d: Image, numSectors: u32, primaryCrc: u32, backupCrc: u32): Check
    requires WellFormed(d)
  {
    Session.TableVerdict(d, 2, primaryCrc, Primary)
      .Then(Session.TableVerdict(d, BackupTableLba(numSectors), backupCrc, Backup))
  }

  /** Everything from the read of the backup header on, once the primary
      header h has passed. */
  function BackupSide(d: Image, numSectors: u32, h: seq<byte>): Check
    requires WellFormed(d) && |h| == SectorSize
  {
    var n := LastSector(numSectors);
    if n >= |d| then Fail([], SectorUnreadable)
    else
      BackupHeaderCheck(d[n], numSectors)
        .Then(CrossCheck(h, d[n]))
        .Then(TablesCheck(d, numSectors, Get4LE(h, OffTableCrc), Get4LE(d[n], OffTableCrc)))
  }

  /** Everything from the read of the primary header on. */
  function GptSide(d: Image, numSectors: u32): Check
    requires WellFormed(d)
  {
    if |d| <= 1 then Fail([], SectorUnreadable)
    else PrimaryHeaderCheck(d[1], numSectors).Then(BackupSide(d, numSectors, d[1]))
  }

  /** The verdict of shgpt on a disk of numSectors sectors whose whole
      sectors are d: too small a disk, then the MBR, then the GPT. */
  function ShowVerdict(d: Image, numSectors: u32): (c: Check)
    requires WellFormed(d)
    ensures c.Pass? ==> numSectors >= MinNumberSectors && 1 < |d| && LastSector(numSectors) < |d|
  {
    if numSectors < MinNumberSectors then Fail([], DiskTooSmall)
    else if |d| == 0 then Fail([], SectorUnreadable)
    else CheckProtMbr(d[0]).Then(GptSide(d, numSectors))
  }

  /** Everything the tool demands of a disk. */
  predicate Accepted(d: Image, numSectors: u32)
    requires WellFormed(d)
  {
    var n := LastSector(numSectors);
    && numSectors >= MinNumberSectors && n < |d|
    && CheckProtMbr(d[0]).Pass?
    && PrimaryHeaderCheck(d[1], numSectors).Pass?
    && BackupHeaderCheck(d[n], numSectors).Pass?
    && d[1][OffDiskGuid..OffDiskGuid + 16] == d[n][OffDiskGuid..OffDiskGuid + 16]
    && Get4LE(d[1], OffTableCrc) == Get4LE(d[n], OffTableCrc)
    && TableReadable(d, 2) && Crc32.Crc32(TableImage(d, 2)) == Get4LE(d[1], OffTableCrc)
    && TableReadable(d, BackupTableLba(numSectors))
    && Crc32.Crc32(TableImage(d, BackupTableLba(numSectors))) == Get4LE(d[n], OffTableCrc)
  }

  /** Both arrays pass exactly when each can be read and hashes to its
      CRC; they never warn. */
  lemma TablesCheckPass(d: Image, numSectors: u32, primaryCrc: u32, backupCrc: u32)
    requires WellFormed(d)
    ensures TablesCheck(d, numSectors, primaryCrc, backupCrc).warnings == []
    ensures TablesCheck(d, numSectors, primaryCrc, backupCrc).Pass? <==>
      && TableReadable(d, 2) && Crc32.Crc32(TableImage(d, 2)) == primaryCrc
      && TableReadable(d, BackupTableLba(numSectors)) && Crc32.Crc32(TableImage(d, BackupTableLba(numSectors))) == backupCrc
  {
    Session.TableVerdictPass(d, 2, primaryCrc, Primary);
    Session.TableVerdictPass(d, BackupTableLba(numSectors), backupCrc, Backup);
  }

  /** The backup half passes exactly when the last sector can be read,
      holds a header that passes, agrees with h and both arrays match;
      its warnings are then the backup's usable-area warnings. */
  lemma BackupSidePass(d: Image, numSectors: u32, h: seq<byte>)
    requires WellFormed(d) && |h| == SectorSize
    ensures var n := LastSector(numSectors);
      BackupSide(d, numSectors, h).Pass? <==>
        && n < |d| && BackupHeaderCheck(d[n], numSectors).Pass?
        && CrossCheck(h, d[n]).Pass?
        && TablesCheck(d, numSectors, Get4LE(h, OffTableCrc), Get4LE(d[n], OffTableCrc)).Pass?
    ensures var n := LastSector(numSectors);
      BackupSide(d, numSectors, h).Pass? ==> BackupSide(d, numSectors, h).warnings == UsableWarnings(d[n], numSectors).warnings
  {
    var n := LastSector(numSectors);
    if n < |d| {
      TablesCheckPass(d, numSectors, Get4LE(h, OffTableCrc), Get4LE(d[n], OffTableCrc));
    }
  }

  /** shgpt accepts a disk exactly when it is large enough, the MBR and
      both headers pass their checks, the headers agree on the disk GUID
      and the array CRC, and each array hashes to its header's CRC. */
  lemma ShowVerdictPass(d: Image, numSectors: u32)
    requires WellFormed(d)
    ensures ShowVerdict(d, numSectors).Pass? <==> Accepted(d, numSectors)
  {
    if numSectors >= MinNumberSectors && |d| > 1 {
      var n := LastSector(numSectors);
      BackupSidePass(d, numSectors, d[1]);
      if n < |d| {
        TablesCheckPass(d, numSectors, Get4LE(d[1], OffTableCrc), Get4LE(d[n], OffTableCrc));
      }
    }
  }

  /** When the GPT half passes, its warnings are the usable-area warnings
      of the primary header, then those of the backup header. */
  lemma GptSideWarnings(d: Image, numSectors: u32)
    requires WellFormed(d) && GptSide(d, numSectors).Pass?
    ensures 1 < |d| && LastSector(numSectors) < |d|
    ensures GptSide(d, numSectors).warnings ==
      UsableWarnings(d[1], numSectors).warnings + UsableWarnings(d[LastSector(numSectors)], numSectors).warnings
  {
    BackupSidePass(d, numSectors, d[1]);
  }

  /** The warnings of an accepted disk: those of the MBR records, then the
      usable-area warnings of the primary and of the backup header. */
  lemma ShowVerdictWarnings(d: Image, numSectors: u32)
    requires WellFormed(d) && ShowVerdict(d, numSectors).Pass?
    ensures 1 < |d| && LastSector(numSectors) < |d|
    ensures ShowVerdict(d, numSectors).warnings ==
      RecordWarnings(d[0], 1) + (UsableWarnings(d[1], numSectors).warnings
        + UsableWarnings(d[LastSector(numSectors)], numSectors).warnings)
  {
    GptSideWarnings(d, numSectors);
  }

  /** Two headers that each pass but carry different disk GUIDs stop the
      tool with DiskUuidMismatch, whatever the arrays hold. */
  lemma DiskGuidsMustAgree(d: Image, numSectors: u32)
    requires WellFormed(d) && numSectors >= MinNumberSectors && LastSector(numSectors) < |d|
    requires CheckProtMbr(d[0]).Pass? && PrimaryHeaderCheck(d[1], numSectors).Pass?
    requires BackupHeaderCheck(d[LastSector(numSectors)], numSectors).Pass?
    requires d[1][OffDiskGuid..OffDiskGuid + 16] != d[LastSector(numSectors)][OffDiskGuid..OffDiskGuid + 16]
    ensures ShowVerdict(d, numSectors).Fail? && ShowVerdict(d, numSectors).fault == DiskUuidMismatch
  {
    var n := LastSector(numSectors);
    var x := BackupHeaderCheck(d[n], numSectors).Then(CrossCheck(d[1], d[n]));
    assert x.Fail? && x.fault == DiskUuidMismatch;
    var b := BackupSide(d, numSectors, d[1]);
    assert b.Fail? && b.fault == DiskUuidMismatch;
    assert GptSide(d, numSectors).Fail? && GptSide(d, numSectors).fault == DiskUuidMismatch;
  }

  /** gptWrite refreshes a header that shgpt accepts into one it accepts
      with the same warnings and the same disk GUID. */
  lemma RefreshedHeaderChecks(h: seq<byte>, tableCrc: u32, numSectors: u32)
    requires |h| == SectorSize
    ensures var r := Session.Refreshed(h, tableCrc);
      && (PrimaryHeaderCheck(h, numSectors).Pass? ==> PrimaryHeaderCheck(r, numSectors) == PrimaryHeaderCheck(h, numSectors))
      && (BackupHeaderCheck(h, numSectors).Pass? ==> BackupHeaderCheck(r, numSectors) == BackupHeaderCheck(h, numSectors))
      && r[OffDiskGuid..OffDiskGuid + 16] == h[OffDiskGuid..OffDiskGuid + 16]
  {
    var r := Session.Refreshed(h, tableCrc);
    RefreshedSlices(h, tableCrc);
    RefreshedIdentity(h, tableCrc);
    RefreshedPlacement(h, tableCrc, numSectors);
    RefreshedUsable(h, tableCrc, numSectors);
    RefreshedTableFields(h, tableCrc, 2);
    RefreshedTableFields(h, tableCrc, BackupTableLba(numSectors));
  }

  /** The byte ranges shgpt compares that gptWrite's refresh leaves alone:
      the signature, the reserved word, the disk GUID and the padding. */
  lemma RefreshedSlices(h: seq<byte>, tableCrc: u32)
    requires |h| == SectorSize
    ensures var r := Session.Refreshed(h, tableCrc);
      && r[..8] == h[..8]
      && r[OffReserved..OffReserved + 4] == h[OffReserved..OffReserved + 4]
      && r[HeaderSize..] == h[HeaderSize..]
      && r[OffDiskGuid..OffDiskGuid + 16] == h[OffDiskGuid..OffDiskGuid + 16]
  {
    var r := Session.Refreshed(h, tableCrc);
    Session.RefreshedFields(h, tableCrc);
    assert r[..8] == h[..8];
    assert r[OffReserved..OffReserved + 4] == h[OffReserved..OffReserved + 4];
    assert r[HeaderSize..] == h[HeaderSize..];
    assert r[OffDiskGuid..OffDiskGuid + 16] == h[OffDiskGuid..OffDiskGuid + 16];
  }

  /** A header that passes the identity tests still passes them after the
      refresh, which re-seals it. */
  lemma RefreshedIdentity(h: seq<byte>, tableCrc: u32)
    requires |h| == SectorSize
    ensures forall role: Role :: IdentityCheck(h, role).Pass? ==>
      IdentityCheck(Session.Refreshed(h, tableCrc), role) == IdentityCheck(h, role)
  {
    RefreshedSlices(h, tableCrc);
    Session.RefreshedFields(h, tableCrc);
    Session.RefreshedWord(h, tableCrc, OffRevision);
    Session.RefreshedWord(h, tableCrc, OffHeaderSize);
  }

  /** The refresh keeps the reserved word and both LBAs, so both placement
      checks decide as before. */
  lemma RefreshedPlacement(h: seq<byte>, tableCrc: u32, numSectors: u32)
    requires |h| == SectorSize
    ensures var r := Session.Refreshed(h, tableCrc);
      && PrimaryPlacementCheck(r, numSectors) == PrimaryPlacementCheck(h, numSectors)
      && BackupPlacementCheck(r, numSectors) == BackupPlacementCheck(h, numSectors)
  {
    RefreshedSlices(h, tableCrc);
    Session.RefreshedWord(h, tableCrc, OffReserved);
    Session.RefreshedWord(h, tableCrc, OffMyLba);
    Session.RefreshedWord(h, tableCrc, OffMyLba + 4);
    Session.RefreshedWord(h, tableCrc, OffAltLba);
    Session.RefreshedWord(h, tableCrc, OffAltLba + 4);
  }

  /** The refresh keeps the usable-area fields, so the warnings stay. */
  lemma RefreshedUsable(h: seq<byte>, tableCrc: u32, numSectors: u32)
    requires |h| == SectorSize
    ensures UsableWarnings(Session.Refreshed(h, tableCrc), numSectors) == UsableWarnings(h, numSectors)
  {
    Session.RefreshedWord(h, tableCrc, OffFirstUsable);
    Session.RefreshedWord(h, tableCrc, OffFirstUsable + 4);
    Session.RefreshedWord(h, tableCrc, OffLastUsable);
    Session.RefreshedWord(h, tableCrc, OffLastUsable + 4);
  }

  /** The refresh keeps the array fields and the padding, so the array
      tests decide as before. */
  lemma RefreshedTableFields(h: seq<byte>, tableCrc: u32, tableLba: u32)
    requires |h| == SectorSize
    ensures TableFieldsCheck(Session.Refreshed(h, tableCrc), tableLba) == TableFieldsCheck(h, tableLba)
  {
    RefreshedSlices(h, tableCrc);
    Session.RefreshedWord(h, tableCrc, OffTableLba);
    Session.RefreshedWord(h, tableCrc, OffTableLba + 4);
    Session.RefreshedWord(h, tableCrc, OffNumEntries);
    Session.RefreshedWord(h, tableCrc, OffEntrySize);
  }

  /** shgpt on a disk x that keeps sector 0 of the accepted disk d, whose
      headers pass the same header checks as those of d, agree on the disk
      GUID and carry the CRC of the array table, which x holds in front of
      or behind them, decides as it did on d. */
  lemma SameChecksShown(d: Image, x: Image, numSectors: u32, table: seq<byte>)
    requires WellFormed(d) && WellFormed(x) && |table| == NumberPartBytes && Accepted(d, numSectors)
    requires var n := LastSector(numSectors);
      && n < |x| && x[0] == d[0]
      && PrimaryHeaderCheck(x[1], numSectors) == PrimaryHeaderCheck(d[1], numSectors)
      && BackupHeaderCheck(x[n], numSectors) == BackupHeaderCheck(d[n], numSectors)
      && x[1][OffDiskGuid..OffDiskGuid + 16] == x[n][OffDiskGuid..OffDiskGuid + 16]
      && Get4LE(x[1], OffTableCrc) == Crc32.Crc32(table) && Get4LE(x[n], OffTableCrc) == Crc32.Crc32(table)
      && HoldsTable(x, 2, table) && HoldsTable(x, BackupTableLba(numSectors), table)
    ensures ShowVerdict(x, numSectors) == ShowVerdict(d, numSectors)
  {
    assert Accepted(x, numSectors) by {
      TableImageOfChunks(x, 2, table);
      TableImageOfChunks(x, BackupTableLba(numSectors), table);
    }
    ShowVerdictPass(d, numSectors);
    ShowVerdictPass(x, numSectors);
    ShowVerdictWarnings(d, numSectors);
    ShowVerdictWarnings(x, numSectors);
  }

  /** gptWrite of headers h and b that pass the same header checks as
      those of the accepted disk d, agree on the disk GUID and carry the
      CRC of table: shgpt decides on the written disk as it did on d. */
  lemma SameChecksWrittenShown(d: Image, numSectors: u32, table: seq<byte>, h: seq<byte>, b: seq<byte>)
    requires WellFormed(d) && |table| == NumberPartBytes && Accepted(d, numSectors)
    requires |h| == SectorSize && |b| == SectorSize && Get4LE(h, OffAltLba) == LastSector(numSectors)
    requires PrimaryHeaderCheck(h, numSectors) == PrimaryHeaderCheck(d[1], numSectors)
    requires BackupHeaderCheck(b, numSectors) == BackupHeaderCheck(d[LastSector(numSectors)], numSectors)
    requires h[OffDiskGuid..OffDiskGuid + 16] == b[OffDiskGuid..OffDiskGuid + 16]
    requires Get4LE(h, OffTableCrc) == Crc32.Crc32(table) && Get4LE(b, OffTableCrc) == Crc32.Crc32(table)
    ensures var x := Session.WrittenGpt(d, table, h, b);
      WellFormed(x) && ShowVerdict(x, numSectors) == ShowVerdict(d, numSectors)
  {
    WrittenAtLast(d, numSectors, table, h, b);
    SameChecksShown(d, Session.WrittenGpt(d, table, h, b), numSectors, table);
  }

  /** gptWrite with the backup header in the last sector of a disk of at
      least 4096 sectors: both headers and both arrays where shgpt reads
      them, and sector 0 as it was. */
  lemma WrittenAtLast(d: Image, numSectors: u32, table: seq<byte>, h: seq<byte>, b: seq<byte>)
    requires WellFormed(d) && |d| > 0 && numSectors >= MinNumberSectors && |table| == NumberPartBytes
    requires |h| == SectorSize && |b| == SectorSize && Get4LE(h, OffAltLba) == LastSector(numSectors)
    ensures var x := Session.WrittenGpt(d, table, h, b);
      var n := LastSector(numSectors);
      && WellFormed(x) && n < |x| && x[0] == d[0] && x[1] == h && x[n] == b
      && HoldsTable(x, 2, table) && HoldsTable(x, BackupTableLba(numSectors), table)
  {
    BackupTableBehindLast(numSectors);
    Session.WrittenGptSectors(d, table, h, b);
  }

  /** On a disk of at least 4096 sectors the backup array sits in the 32
      sectors in front of the last one, far behind the primary copy. */
  lemma BackupTableBehindLast(numSectors: u32)
    requires numSectors >= MinNumberSectors
    ensures LastSector(numSectors) == numSectors - 1
    ensures BackupTableLba(numSectors) == LastSector(numSectors) - NumberPartSectors
  {
  }

  /** gptWrite on a disk shgpt accepts, with both headers refreshed for
      any array table: the backup header is in the last sector, so the
      copies do not overlap, and shgpt decides on the written disk as it
      did before, warnings included. */
  lemma WrittenGptShown(d: Image, numSectors: u32, table: seq<byte>)
    requires WellFormed(d) && |table| == NumberPartBytes && Accepted(d, numSectors)
    ensures var c := Crc32.Crc32(table);
      var n := LastSector(numSectors);
      && Get4LE(d[1], OffAltLba) == n
      && var x := Session.WrittenGpt(d, table, Session.Refreshed(d[1], c), Session.Refreshed(d[n], c));
         WellFormed(x) && ShowVerdict(x, numSectors) == ShowVerdict(d, numSectors)
  {
    var c := Crc32.Crc32(table);
    var n := LastSector(numSectors);
    assert PrimaryPlacementCheck(d[1], numSectors).Pass?;
    Session.RefreshedWord(d[1], c, OffAltLba);
    RefreshedHeaderChecks(d[1], c, numSectors);
    RefreshedHeaderChecks(d[n], c, numSectors);
    Session.RefreshedFields(d[1], c);
    Session.RefreshedFields(d[n], c);
    SameChecksWrittenShown(d, numSectors, table, Session.Refreshed(d[1], c), Session.Refreshed(d[n], c));
  }

  // ---- the listing of showPartTable ----

  /** One listed partition: its number, the entry as decoded, and the high
      words of the start, end and attribute fields, which are printed
      too. */
  datatype Row = Row(number: int, entry: Entry, startHi: u32, endHi: u32, attrHi: u32)

  /** The row for slot k. */
  function RowOf(t: seq<byte>, k: int): (r: Row)
    requires |t| == NumberPartBytes && 0 <= k < NumberPartEntries
    ensures r.number == k + 1 && r.entry == DecodeEntry(t, SlotBase(k))
  {
    var p := SlotBase(k);
    Row(k + 1, DecodeEntry(t, p), Get4LE(t, p + StartOffset + 4), Get4LE(t, p + EndOffset + 4), Get4LE(t, p + AttrOffset + 4))
  }

  /** The rows for the used slots among the first k, in slot order. */
  function ListingBelow(t: seq<byte>, k: int): (rows: seq<Row>)
    requires |t| == NumberPartBytes && 0 <= k <= NumberPartEntries
    ensures |rows| <= k
  {
    if k == 0 then []
    else ListingBelow(t, k - 1) + (if SlotUsed(t, k - 1) then [RowOf(t, k - 1)] else [])
  }

  /** What showPartTable prints: a row per used slot. */
  function Listing(t: seq<byte>): seq<Row>
    requires |t| == NumberPartBytes
  {
    ListingBelow(t, NumberPartEntries)
  }

  /** r is the row of a used slot. */
  predicate RowOfUsed(t: seq<byte>, r: Row)
    requires |t| == NumberPartBytes
  {
    1 <= r.number <= NumberPartEntries && SlotUsed(t, r.number - 1) && r == RowOf(t, r.number - 1)
  }

  /** Every row below k is the row of a used slot below k. */
  lemma {:induction false} ListingBelowRows(t: seq<byte>, k: int)
    requires |t| == NumberPartBytes && 0 <= k <= NumberPartEntries
    ensures forall i :: 0 <= i < |ListingBelow(t, k)| ==> RowOfUsed(t, ListingBelow(t, k)[i]) && ListingBelow(t, k)[i].number <= k
  {
    if k > 0 {
      ListingBelowRows(t, k - 1);
      var prev := ListingBelow(t, k - 1);
      var rows := ListingBelow(t, k);
      forall i | 0 <= i < |rows|
        ensures RowOfUsed(t, rows[i]) && rows[i].number <= k
      {
        if i < |prev| {
          assert rows[i] == prev[i];
        } else {
          assert rows[i] == RowOf(t, k - 1);
        }
      }
    }
  }

  /** The rows below k are numbered from 1 to k. */
  lemma {:induction false} ListingBelowNumbers(t: seq<byte>, k: int)
    requires |t| == NumberPartBytes && 0 <= k <= NumberPartEntries
    ensures forall i :: 0 <= i < |ListingBelow(t, k)| ==> 1 <= ListingBelow(t, k)[i].number <= k
  {
    if k > 0 {
      ListingBelowNumbers(t, k - 1);
      var prev := ListingBelow(t, k - 1);
      var rows := ListingBelow(t, k);
      forall i | 0 <= i < |rows|
        ensures 1 <= rows[i].number <= k
      {
        if i < |prev| {
          assert rows[i] == prev[i];
        } else {
          assert rows[i] == RowOf(t, k - 1);
        }
      }
    }
  }

  /** The rows below k have strictly ascending numbers. */
  lemma {:induction false} ListingBelowAscending(t: seq<byte>, k: int)
    requires |t| == NumberPartBytes && 0 <= k <= NumberPartEntries
    ensures forall i, j :: 0 <= i < j < |ListingBelow(t, k)| ==> ListingBelow(t, k)[i].number < ListingBelow(t, k)[j].number
  {
    if k > 0 {
      ListingBelowAscending(t, k - 1);
      ListingBelowNumbers(t, k - 1);
      var prev := ListingBelow(t, k - 1);
      var rows := ListingBelow(t, k);
      forall i, j | 0 <= i < j < |rows|
        ensures rows[i].number < rows[j].number
      {
        assert rows[i] == prev[i];
        if j < |prev| {
          assert rows[j] == prev[j];
        } else {
          assert rows[j] == RowOf(t, k - 1);
        }
      }
    }
  }

  /** Every used slot below k has its row below k. */
  lemma {:induction false} ListingBelowComplete(t: seq<byte>, k: int)
    requires |t| == NumberPartBytes && 0 <= k <= NumberPartEntries
    ensures forall m :: 0 <= m < k && SlotUsed(t, m) ==> RowOf(t, m) in ListingBelow(t, k)
  {
    if k > 0 {
      ListingBelowComplete(t, k - 1);
      var prev := ListingBelow(t, k - 1);
      var rows := ListingBelow(t, k);
      forall m | 0 <= m < k && SlotUsed(t, m)
        ensures RowOf(t, m) in rows
      {
        if m < k - 1 {
          var i :| 0 <= i < |prev| && prev[i] == RowOf(t, m);
          assert rows[i] == prev[i];
        } else {
          assert rows[|prev|] == RowOf(t, m);
        }
      }
    }
  }

  /** showPartTable lists exactly the used slots, each once, in ascending
      order, with the entry decoded from its slot. */
  lemma ListingExact(t: seq<byte>)
    requires |t| == NumberPartBytes
    ensures forall i :: 0 <= i < |Listing(t)| ==>
      1 <= Listing(t)[i].number <= NumberPartEntries && SlotUsed(t, Listing(t)[i].number - 1)
      && Listing(t)[i].entry == DecodeEntry(t, SlotBase(Listing(t)[i].number - 1))
    ensures forall i, j :: 0 <= i < j < |Listing(t)| ==> Listing(t)[i].number < Listing(t)[j].number
    ensures forall m :: 0 <= m < NumberPartEntries ==> (SlotUsed(t, m) <==> RowOf(t, m) in Listing(t))
  {
    ListingBelowRows(t, NumberPartEntries);
    ListingBelowAscending(t, NumberPartEntries);
    ListingBelowComplete(t, NumberPartEntries);
    forall m | 0 <= m < NumberPartEntries && RowOf(t, m) in Listing(t)
      ensures SlotUsed(t, m)
    {
      var i :| 0 <= i < |Listing(t)| && Listing(t)[i] == RowOf(t, m);
      assert RowOfUsed(t, Listing(t)[i]);
    }
  }

  /** "-- no entries --" is printed exactly when every slot is unused. */
  lemma {:induction false} ListingEmpty(t: seq<byte>, k: int)
    requires |t| == NumberPartBytes && 0 <= k <= NumberPartEntries
    ensures ListingBelow(t, k) == [] <==> forall m :: 0 <= m < k ==> !SlotUsed(t, m)
  {
    if k > 0 {
      ListingEmpty(t, k - 1);
      var prev := ListingBelow(t, k - 1);
      if SlotUsed(t, k - 1) {
        assert |ListingBelow(t, k)| == |prev| + 1;
      } else {
        assert ListingBelow(t, k) == prev;
      }
    }
  }

  // ---- the tool ----

  /** The header CRC test of showPartTblHdr: remember the stored CRC, zero
      the field, sum the first 92 bytes, put the stored value back. */
  method HeaderCrcMatches(crc: Crc32.Crc32Table, buf: array<byte>, ghost h: seq<byte>) returns (ok: bool)
    requires crc.Ready() && buf.Length == SectorSize && buf[..] == h
    modifies buf
    ensures ok == HeaderCrcOk(h) && buf[..] == h
  {
    var hdrCrc := Get4LE(buf[..], OffHeaderCrc);
    Put4LE(buf, OffHeaderCrc, 0);
    var newCrc := crc.Sum(buf[..HeaderSize]);
    Put4LE(buf, OffHeaderCrc, hdrCrc);
    Session.RestoreField(h);
    ok := hdrCrc == newCrc;
  }

  /** showPartTblHdr (role Primary) and showBackupTblHdr (role Backup) on
      the sector h held in buf; buf is left as it was read. */
  method ShowHeader(crc: Crc32.Crc32Table, buf: array<byte>, ghost h: seq<byte>, numSectors: u32, role: Role)
    returns (c: Check)
    requires crc.Ready() && buf.Length == SectorSize && buf[..] == h
    modifies buf
    ensures buf[..] == h
    ensures c == if role == Primary then PrimaryHeaderCheck(h, numSectors) else BackupHeaderCheck(h, numSectors)
  {
    c := Require(Header.SignatureOk(buf[..]), HdrSignature(role))
      .Then(Require(Get4LE(buf[..], OffRevision) == Revision, HdrRevision))
      .Then(Require(Get4LE(buf[..], OffHeaderSize) == HeaderSize, HdrSize));
    if c.Fail? {
      return;
    }
    var ok := HeaderCrcMatches(crc, buf, h);
    c := c.Then(Require(ok, HdrCrc(role)));
    if c.Fail? {
      return;
    }
    var hdr := buf[..];
    if role == Primary {
      c := c.Then(PrimaryPlacementCheck(hdr, numSectors)).Then(UsableWarnings(hdr, numSectors)).Then(TableFieldsCheck(hdr, 2));
    } else {
      c := c.Then(BackupPlacementCheck(hdr, numSectors)).Then(UsableWarnings(hdr, numSectors))
            .Then(TableFieldsCheck(hdr, BackupTableLba(numSectors)));
    }
  }

  /** Read the array at lba into buf, sector by sector, and compare its CRC
      with the value stored in its header. */
  method ReadCheckedTable(crc: Crc32.Crc32Table, disk: Disk, buf: array<byte>, lba: int, stored: u32, role: Role)
    returns (c: Check)
    requires crc.Ready() && disk.Valid() && buf.Length == NumberPartBytes
    modifies buf
    ensures c == Session.TableVerdict(disk.sectors, lba, stored, role)
    ensures c.Pass? ==> TableReadable(disk.sectors, lba) && buf[..] == TableImage(disk.sectors, lba)
  {
    var ok := ReadTable(disk, buf, lba);
    if !ok {
      return Fail([], SectorUnreadable);
    }
    var sum := crc.Sum(buf[..]);
    c := Require(sum == stored, TableCrc(role));
  }

  /** showPartTable: the rows of the used slots, and whether there were
      none. */
  method ShowPartTable(buf: array<byte>) returns (rows: seq<Row>, empty: bool)
    requires buf.Length == NumberPartBytes
    ensures rows == Listing(buf[..])
    ensures empty <==> forall m :: 0 <= m < NumberPartEntries ==> !SlotUsed(buf[..], m)
  {
    rows := [];
    empty := true;
    var i := 0;
    while i < NumberPartEntries
      invariant 0 <= i <= NumberPartEntries
      invariant rows == ListingBelow(buf[..], i)
      invariant empty <==> rows == []
    {
      var p := SlotBase(i);
      var zero := IsZeroScan(buf[p..p + 16]);
      if !zero {
        empty := false;
        var e := GetFields(buf, p);
        rows := rows + [Row(i + 1, e, Get4LE(buf[..], p + StartOffset + 4), Get4LE(buf[..], p + EndOffset + 4),
                            Get4LE(buf[..], p + AttrOffset + 4))];
      }
      i := i + 1;
    }
    ListingEmpty(buf[..], NumberPartEntries);
  }

  /** The two arrays, and the listing of the primary one when both match
      their CRCs. */
  method ShowTables(crc: Crc32.Crc32Table, disk: Disk, numSectors: u32, primaryCrc: u32, backupCrc: u32)
    returns (c: Check, rows: seq<Row>)
    requires crc.Ready() && disk.Valid()
    ensures c == TablesCheck(disk.sectors, numSectors, primaryCrc, backupCrc)
    ensures c.Pass? ==> TableReadable(disk.sectors, 2) && rows == Listing(TableImage(disk.sectors, 2))
  {
    rows := [];
    var partTable := new byte[NumberPartBytes];
    c := ReadCheckedTable(crc, disk, partTable, 2, primaryCrc, Primary);
    if c.Fail? {
      return;
    }
    var backupTable := new byte[NumberPartBytes];
    var b := ReadCheckedTable(crc, disk, backupTable, BackupTableLba(numSectors), backupCrc, Backup);
    c := c.Then(b);
    if c.Pass? {
      var empty;
      rows, empty := ShowPartTable(partTable);
    }
  }

  /** From the read of the backup header on, once the primary header h in
      partTblHdr has passed. */
  method ShowBackupSide(crc: Crc32.Crc32Table, disk: Disk, numSectors: u32, partTblHdr: array<byte>, ghost h: seq<byte>)
    returns (c: Check, rows: seq<Row>)
    requires crc.Ready() && disk.Valid() && partTblHdr.Length == SectorSize && partTblHdr[..] == h
    ensures c == BackupSide(disk.sectors, numSectors, h)
    ensures c.Pass? ==> TableReadable(disk.sectors, 2) && rows == Listing(TableImage(disk.sectors, 2))
  {
    rows := [];
    ghost var d := disk.sectors;
    var backupTblHdr := new byte[SectorSize];
    var ok := ReadWhole(disk, LastSector(numSectors), backupTblHdr);
    if !ok {
      return Fail([], SectorUnreadable), [];
    }
    c := ShowHeader(crc, backupTblHdr, d[LastSector(numSectors)], numSectors, Backup);
    if c.Fail? {
      return;
    }
    c := c.Then(CrossCheck(partTblHdr[..], backupTblHdr[..]));
    if c.Fail? {
      return;
    }
    var t;
    t, rows := ShowTables(crc, disk, numSectors, Get4LE(partTblHdr[..], OffTableCrc), Get4LE(backupTblHdr[..], OffTableCrc));
    c := c.Then(t);
  }

  /** shgpt's main once the disk size is known: numSectors whole sectors
      of the image, d its sectors. On success it yields the listing of the
      primary array. */
  method ShowGpt(disk: Disk, numSectors: u32) returns (c: Check, rows: seq<Row>)
    requires disk.Valid()
    ensures c == ShowVerdict(disk.sectors, numSectors)
    ensures c.Pass? ==> TableReadable(disk.sectors, 2) && rows == Listing(TableImage(disk.sectors, 2))
  {
    rows := [];
    ghost var d := disk.sectors;
    var crc := new Crc32.Crc32Table();
    crc.Init();
    if numSectors < MinNumberSectors {
      return Fail([], DiskTooSmall), [];
    }
    var protMbr := new byte[SectorSize];
    var ok := ReadWhole(disk, 0, protMbr);
    if !ok {
      return Fail([], SectorUnreadable), [];
    }
    c := CheckProtMbr(protMbr[..]);
    if c.Fail? {
      return;
    }
    var partTblHdr := new byte[SectorSize];
    ok := ReadWhole(disk, 1, partTblHdr);
    if !ok {
      c := c.Then(Fail([], SectorUnreadable));
      return;
    }
    var p := ShowHeader(crc, partTblHdr, d[1], numSectors, Primary);
    if p.Fail? {
      c := c.Then(p);
      return;
    }
    var b;
    b, rows := ShowBackupSide(crc, disk, numSectors, partTblHdr, d[1]);
    c := c.Then(p.Then(b));
  }
}
