/** The read-modify-write session over a disk's GUID partition table that
    src/gpt.c offers (gptRead, gptWrite, gptGetEntry, gptSetEntry) and
    mkpart runs (checkValidGPT, writeValidGPT): both keep the primary and
    the backup header sector and partition array in static buffers and
    check or refresh them with the same steps. */
module Session {
  import opened Bytes
  import opened Layout
  import Crc32
  import opened Mbr
  import opened Header
  import opened Entries
  import opened Sectors

  // ---- what gptRead / checkValidGPT decide ----

  /** checkProtMBR on sector 0. */
  function MbrVerdict(d: Image): (c: Check)
    requires WellFormed(d)
    ensures c.Pass? <==> |d| > 0 && d[0][OsTypeOffset] == GptProtective && Mbr.SignatureOk(d[0])
  {
    if |d| == 0 then Fail([], SectorUnreadable) else CheckProtMbr(d[0])
  }

  /** Reading the 32 sectors of an array at lba and comparing its CRC with
      the value stored in its header. */
  function TableVerdict(d: Image, lba: int, stored: u32, role: Role): (c: Check)
    requires WellFormed(d)
    ensures c.warnings == []
  {
    if !TableReadable(d, lba) then Fail([], SectorUnreadable)
    else Require(Crc32.Crc32(TableImage(d, lba)) == stored, TableCrc(role))
  }

  /** The tests both header reads start with: the signature, then the
      header CRC. */
  function HeaderTests(h: seq<byte>, role: Role): (c: Check)
    requires |h| == SectorSize
    ensures c.warnings == []
    ensures c.Pass? <==> Header.SignatureOk(h) && HeaderCrcOk(h)
    ensures c.Fail? ==> c.fault == if Header.SignatureOk(h) then HdrCrc(role) else HdrSignature(role)
  {
    Require(Header.SignatureOk(h), HdrSignature(role)).Then(Require(HeaderCrcOk(h), HdrCrc(role)))
  }

  /** The primary header: myLBA must be 1; an altLBA other than the last
      sector only warns. */
  function PrimaryTests(h: seq<byte>, numSectors: u32): (c: Check)
    requires |h| == SectorSize
    ensures c.Pass? <==> HeaderTests(h, Primary).Pass? && LbaIs(h, OffMyLba, 1)
    ensures c.Fail? && HeaderTests(h, Primary).Pass? ==> c == Fail([], HdrMyLba(Primary))
    ensures c.Pass? ==> c.warnings == if LbaIs(h, OffAltLba, Wrap32(numSectors - 1)) then [] else [BackupNotAtEnd]
  {
    HeaderTests(h, Primary)
      .Then(Require(LbaIs(h, OffMyLba, 1), HdrMyLba(Primary)))
      .Then(Warn(LbaIs(h, OffAltLba, Wrap32(numSectors - 1)), BackupNotAtEnd))
  }

  /** The backup header: its myLBA must be the primary's altLBA, given as
      low and high word. */
  function BackupTests(b: seq<byte>, lo: u32, hi: u32): (c: Check)
    requires |b| == SectorSize
    ensures c.warnings == []
    ensures c.Pass? <==> HeaderTests(b, Backup).Pass? && Get4LE(b, OffMyLba) == lo && Get4LE(b, OffMyLba + 4) == hi
    ensures c.Fail? && HeaderTests(b, Backup).Pass? ==> c.fault == HdrMyLba(Backup)
  {
    HeaderTests(b, Backup)
      .Then(Require(Get4LE(b, OffMyLba + 4) == hi && Get4LE(b, OffMyLba) == lo, HdrMyLba(Backup)))
  }

  /** The primary half: the header at LBA 1, then the array at LBA 2
      against the header's array CRC. */
  function PrimaryVerdict(d: Image, numSectors: u32): Check
    requires WellFormed(d)
  {
    if |d| <= 1 then Fail([], SectorUnreadable)
    else PrimaryTests(d[1], numSectors).Then(TableVerdict(d, 2, Get4LE(d[1], OffTableCrc), Primary))
  }

  /** The backup half: the header at the primary's altLBA (low word), then
      the array in the 32 sectors in front of it against that header's
      array CRC. */
  function BackupVerdict(d: Image): Check
    requires WellFormed(d)
  {
    if |d| <= 1 then Fail([], SectorUnreadable)
    else BackupAt(d, Get4LE(d[1], OffAltLba), Get4LE(d[1], OffAltLba + 4))
  }

  /** The backup GPT expected at LBA lo (low word) and hi (high word). */
  function BackupAt(d: Image, lo: u32, hi: u32): Check
    requires WellFormed(d)
  {
    if lo >= |d| then Fail([], SectorUnreadable)
    else
      BackupTests(d[lo], lo, hi)
        .Then(TableVerdict(d, lo - NumberPartSectors, Get4LE(d[lo], OffTableCrc), Backup))
  }

  /** An array passes exactly when all 32 sectors can be read and their
      CRC is the stored one; an unreadable sector is reported before a
      CRC mismatch. */
  lemma TableVerdictPass(d: Image, lba: int, stored: u32, role: Role)
    requires WellFormed(d)
    ensures TableVerdict(d, lba, stored, role).Pass? <==> TableReadable(d, lba) && Crc32.Crc32(TableImage(d, lba)) == stored
    ensures TableVerdict(d, lba, stored, role).Fail? ==>
      TableVerdict(d, lba, stored, role).fault == if TableReadable(d, lba) then TableCrc(role) else SectorUnreadable
  {
  }

  /** The primary half passes exactly when sector 1 holds a header with
      signature, valid CRC and myLBA 1, and the array at LBA 2 matches its
      array CRC; its only possible warning is BackupNotAtEnd, drawn exactly
      when altLBA is not the last sector. */
  lemma PrimaryVerdictPass(d: Image, numSectors: u32)
    requires WellFormed(d)
    ensures var c := PrimaryVerdict(d, numSectors);
      && (c.Pass? <==>
          && |d| > 1
          && Header.SignatureOk(d[1])
          && HeaderCrcOk(d[1])
          && LbaIs(d[1], OffMyLba, 1)
          && TableReadable(d, 2) && Crc32.Crc32(TableImage(d, 2)) == Get4LE(d[1], OffTableCrc))
      && c.warnings ==
           if && |d| > 1
              && Header.SignatureOk(d[1]) && HeaderCrcOk(d[1])
              && LbaIs(d[1], OffMyLba, 1)
              && !LbaIs(d[1], OffAltLba, Wrap32(numSectors - 1))
           then [BackupNotAtEnd] else []
  {
    if |d| > 1 {
      TableVerdictPass(d, 2, Get4LE(d[1], OffTableCrc), Primary);
    }
  }

  /** The backup half passes exactly when the primary's altLBA names a
      sector holding a header with signature and valid CRC whose myLBA is
      that altLBA, and the 32 sectors in front of it match its array CRC;
      it never warns. */
  lemma BackupVerdictPass(d: Image)
    requires WellFormed(d)
    ensures BackupVerdict(d).warnings == []
    ensures BackupVerdict(d).Pass? <==>
      && |d| > 1 && Get4LE(d[1], OffAltLba) < |d|
      && var lo := Get4LE(d[1], OffAltLba);
         && Header.SignatureOk(d[lo])
         && HeaderCrcOk(d[lo])
         && Get4LE(d[lo], OffMyLba) == lo && Get4LE(d[lo], OffMyLba + 4) == Get4LE(d[1], OffAltLba + 4)
         && TableReadable(d, lo - NumberPartSectors)
         && Crc32.Crc32(TableImage(d, lo - NumberPartSectors)) == Get4LE(d[lo], OffTableCrc)
  {
    if |d| > 1 && Get4LE(d[1], OffAltLba) < |d| {
      var lo := Get4LE(d[1], OffAltLba);
      TableVerdictPass(d, lo - NumberPartSectors, Get4LE(d[lo], OffTableCrc), Backup);
    }
  }

  /** The primary GPT, then the backup GPT. */
  function GptVerdict(d: Image, numSectors: u32): Check
    requires WellFormed(d)
  {
    PrimaryVerdict(d, numSectors).Then(BackupVerdict(d))
  }

  /** checkValidGPT / gptRead: protective MBR, then the primary, then the
      backup GPT; the first fatal condition stops the run. */
  function ReadVerdict(d: Image, numSectors: u32): (c: Check)
    requires WellFormed(d)
    ensures c.Pass? ==> |d| > 1 && TableReadable(d, 2) && Get4LE(d[1], OffAltLba) < |d|
  {
    MbrVerdict(d).Then(GptVerdict(d, numSectors))
  }

  /** gptRead accepts a disk exactly when the MBR, both headers and both
      arrays pass; its warnings are those of the MBR records (when the
      MBR has the protective type) followed by those of the primary
      header (when the MBR passed), and the backup half adds none. */
  lemma ReadVerdictPass(d: Image, numSectors: u32)
    requires WellFormed(d)
    ensures ReadVerdict(d, numSectors).Pass? <==>
      MbrVerdict(d).Pass? && PrimaryVerdict(d, numSectors).Pass? && BackupVerdict(d).Pass?
    ensures ReadVerdict(d, numSectors).warnings ==
      (if |d| > 0 && d[0][OsTypeOffset] == GptProtective then RecordWarnings(d[0], 1) else [])
      + (if MbrVerdict(d).Pass? then PrimaryVerdict(d, numSectors).warnings else [])
  {
    BackupVerdictPass(d);
  }

  /** The buffers hold the primary header and array as they are on disk. */
  predicate PrimaryLoaded(d: Image, hdr: seq<byte>, table: seq<byte>)
    requires WellFormed(d)
  {
    |d| > 1 && hdr == d[1] && TableReadable(d, 2) && table == TableImage(d, 2)
  }

  /** The buffers hold the backup header at LBA lo and the array in front
      of it as they are on disk. */
  predicate BackupLoaded(d: Image, lo: int, hdr: seq<byte>, table: seq<byte>)
    requires WellFormed(d)
  {
    && 0 <= lo < |d| && hdr == d[lo]
    && TableReadable(d, lo - NumberPartSectors) && table == TableImage(d, lo - NumberPartSectors)
  }

  // ---- what gptWrite / writeValidGPT produce ----

  /** A header after gptWrite: the array CRC stored at 88, then the header
      CRC recomputed over the first 92 bytes. */
  function Refreshed(h: seq<byte>, tableCrc: u32): (r: seq<byte>)
    requires |h| == SectorSize
    ensures |r| == SectorSize
  {
    Seal(Splice(h, OffTableCrc, Le4(tableCrc)))
  }

  /** A refreshed header carries the given array CRC and a valid header
      CRC, and differs from the old one in no other byte. */
  lemma RefreshedFields(h: seq<byte>, tableCrc: u32)
    requires |h| == SectorSize
    ensures Get4LE(Refreshed(h, tableCrc), OffTableCrc) == tableCrc
    ensures HeaderCrcOk(Refreshed(h, tableCrc))
    ensures forall i | 0 <= i < SectorSize && !(OffHeaderCrc <= i < OffHeaderCrc + 4) && !(OffTableCrc <= i < OffTableCrc + 4)
              :: Refreshed(h, tableCrc)[i] == h[i]
  {
    var t := Splice(h, OffTableCrc, Le4(tableCrc));
    SealOk(t);
    Get4LEOfSplice(h, OffTableCrc, tableCrc);
    Get4LEOfSpliceElsewhere(t, OffHeaderCrc, Le4(HeaderCrc(t)), OffTableCrc);
    forall i | 0 <= i < SectorSize && !(OffHeaderCrc <= i < OffHeaderCrc + 4) && !(OffTableCrc <= i < OffTableCrc + 4)
      ensures Refreshed(h, tableCrc)[i] == h[i]
    {
      SpliceAt(h, OffTableCrc, Le4(tableCrc), i);
    }
  }

  /** The disk after gptWrite: the array at LBA 2, the primary header at
      LBA 1, the array again in front of the backup header's LBA (the
      primary's altLBA) and the backup header there. */
  function WrittenGpt(d: Image, table: seq<byte>, hdr: seq<byte>, backupHdr: seq<byte>): Image
    requires |table| == NumberPartBytes && |hdr| == SectorSize
  {
    var lo := Get4LE(hdr, OffAltLba);
    CopyWritten(CopyWritten(d, table, 2, 1, hdr), table, lo - NumberPartSectors, lo, backupHdr)
  }

  /** The disk after one copy of the GPT is written: the array at lba,
      then the header at sector at. */
  function CopyWritten(d: Image, table: seq<byte>, lba: int, at: nat, hdr: seq<byte>): Image
    requires |table| == NumberPartBytes
  {
    Written(TableWritten(d, lba, table, NumberPartSectors), at, hdr)
  }

  /** gptWrite keeps the image well formed, wherever altLBA points. */
  lemma WrittenGptWellFormed(d: Image, table: seq<byte>, hdr: seq<byte>, backupHdr: seq<byte>)
    requires WellFormed(d) && |table| == NumberPartBytes && |hdr| == SectorSize && |backupHdr| == SectorSize
    ensures WellFormed(WrittenGpt(d, table, hdr, backupHdr))
  {
    var lo := Get4LE(hdr, OffAltLba);
    var y1 := TableWritten(d, 2, table, NumberPartSectors);
    TableWrittenWellFormed(d, 2, table, NumberPartSectors);
    WrittenWellFormed(y1, 1, hdr);
    var y2 := Written(y1, 1, hdr);
    TableWrittenWellFormed(y2, lo - NumberPartSectors, table, NumberPartSectors);
    WrittenWellFormed(TableWritten(y2, lo - NumberPartSectors, table, NumberPartSectors), lo, backupHdr);
  }

  /** The backup array, the 32 sectors in front of the primary's altLBA,
      lies behind the MBR, the primary header and the primary array. */
  predicate BackupClear(d: Image)
    requires WellFormed(d)
  {
    |d| > 1 && 2 + 2 * NumberPartSectors <= Get4LE(d[1], OffAltLba)
  }

  /** One copy written: the header at sector at, the array in the 32
      sectors from lba (which do not wrap and miss at), and every other
      sector of the image as it was. */
  lemma CopyWrittenSectors(d: Image, table: seq<byte>, lba: int, at: nat, hdr: seq<byte>)
    requires WellFormed(d) && |table| == NumberPartBytes && |hdr| == SectorSize
    requires 0 <= lba && lba + NumberPartSectors <= TwoTo32 && (at < lba || lba + NumberPartSectors <= at)
    ensures var x := CopyWritten(d, table, lba, at, hdr);
      && WellFormed(x) && |d| <= |x| && at < |x| && x[at] == hdr
      && (forall m :: lba <= m < lba + NumberPartSectors ==>
            m < |x| && x[m] == table[(m - lba) * SectorSize..(m - lba + 1) * SectorSize])
      && (forall m :: 0 <= m < |d| && m != at && !(lba <= m < lba + NumberPartSectors) ==> x[m] == d[m])
  {
    var y := TableWritten(d, lba, table, NumberPartSectors);
    TableWrittenWellFormed(d, lba, table, NumberPartSectors);
    WrittenWellFormed(y, at, hdr);
    WrittenAt(y, at, hdr, at);
    forall m | lba <= m < lba + NumberPartSectors
      ensures m < |CopyWritten(d, table, lba, at, hdr)|
      ensures CopyWritten(d, table, lba, at, hdr)[m] == table[(m - lba) * SectorSize..(m - lba + 1) * SectorSize]
    {
      TableWrittenAt(d, lba, table, NumberPartSectors, m);
      WrittenAt(y, at, hdr, m);
    }
    forall m | 0 <= m < |d| && m != at && !(lba <= m < lba + NumberPartSectors)
      ensures CopyWritten(d, table, lba, at, hdr)[m] == d[m]
    {
      TableWrittenAt(d, lba, table, NumberPartSectors, m);
      WrittenAt(y, at, hdr, m);
    }
  }

  /** Where gptWrite leaves what when the backup copy lies clear of the
      primary one: sector 0 as it was, both headers at their LBAs, and
      both arrays in front of them. */
  lemma WrittenGptSectors(d: Image, table: seq<byte>, hdr: seq<byte>, backupHdr: seq<byte>)
    requires WellFormed(d) && |table| == NumberPartBytes && |hdr| == SectorSize && |backupHdr| == SectorSize
    requires 2 + 2 * NumberPartSectors <= Get4LE(hdr, OffAltLba)
    ensures var lo := Get4LE(hdr, OffAltLba);
      var x := WrittenGpt(d, table, hdr, backupHdr);
      && WellFormed(x) && |d| <= |x| && lo < |x|
      && (|d| > 0 ==> x[0] == d[0])
      && x[1] == hdr && x[lo] == backupHdr
      && HoldsTable(x, 2, table) && HoldsTable(x, lo - NumberPartSectors, table)
  {
    var lo := Get4LE(hdr, OffAltLba);
    var bl := lo - NumberPartSectors;
    var y := CopyWritten(d, table, 2, 1, hdr);
    var x := CopyWritten(y, table, bl, lo, backupHdr);
    assert x == WrittenGpt(d, table, hdr, backupHdr);
    CopyWrittenSectors(d, table, 2, 1, hdr);
    CopyWrittenSectors(y, table, bl, lo, backupHdr);
    assert x[1] == y[1];
    forall s | 0 <= s < NumberPartSectors
      ensures TableSector(2, s) < |x| && x[TableSector(2, s)] == table[s * SectorSize..(s + 1) * SectorSize]
    {
      assert TableSector(2, s) == 2 + s;
      assert x[2 + s] == y[2 + s];
    }
    forall s | 0 <= s < NumberPartSectors
      ensures TableSector(bl, s) < |x| && x[TableSector(bl, s)] == table[s * SectorSize..(s + 1) * SectorSize]
    {
      assert TableSector(bl, s) == bl + s;
    }
  }

  /** A refreshed header keeps every 32-bit field outside the two CRC
      fields. */
  lemma RefreshedWord(h: seq<byte>, tableCrc: u32, off: int)
    requires |h| == SectorSize
    requires 0 <= off && off + 4 <= SectorSize
    requires off + 4 <= OffHeaderCrc || OffHeaderCrc + 4 <= off
    requires off + 4 <= OffTableCrc || OffTableCrc + 4 <= off
    ensures Get4LE(Refreshed(h, tableCrc), off) == Get4LE(h, off)
  {
    RefreshedFields(h, tableCrc);
  }

  /** A refreshed header passes the signature and header CRC tests
      whenever the old one carried the signature, carries the new array
      CRC, and keeps its myLBA and altLBA. */
  lemma RefreshedHeaderTests(h: seq<byte>, tableCrc: u32, role: Role)
    requires |h| == SectorSize && Header.SignatureOk(h)
    ensures var r := Refreshed(h, tableCrc);
      && HeaderTests(r, role).Pass?
      && Get4LE(r, OffTableCrc) == tableCrc
      && Get4LE(r, OffMyLba) == Get4LE(h, OffMyLba) && Get4LE(r, OffMyLba + 4) == Get4LE(h, OffMyLba + 4)
      && Get4LE(r, OffAltLba) == Get4LE(h, OffAltLba) && Get4LE(r, OffAltLba + 4) == Get4LE(h, OffAltLba + 4)
  {
    RefreshedFields(h, tableCrc);
    assert Refreshed(h, tableCrc)[..8] == h[..8];
    RefreshedWord(h, tableCrc, OffMyLba);
    RefreshedWord(h, tableCrc, OffMyLba + 4);
    RefreshedWord(h, tableCrc, OffAltLba);
    RefreshedWord(h, tableCrc, OffAltLba + 4);
  }

  /** The primary half of gptRead on a disk x that holds at LBA 1 a
      header h that passes the header tests, keeps myLBA and altLBA of d's
      and carries the CRC of the array x holds at LBA 2: the same verdict
      as on d. */
  lemma PrimaryReadsBack(d: Image, x: Image, numSectors: u32, table: seq<byte>, h: seq<byte>)
    requires WellFormed(d) && |table| == NumberPartBytes && |h| == SectorSize
    requires PrimaryVerdict(d, numSectors).Pass? && |d| > 1
    requires HeaderTests(h, Primary).Pass? && Get4LE(h, OffTableCrc) == Crc32.Crc32(table)
    requires Get4LE(h, OffMyLba) == Get4LE(d[1], OffMyLba) && Get4LE(h, OffMyLba + 4) == Get4LE(d[1], OffMyLba + 4)
    requires Get4LE(h, OffAltLba) == Get4LE(d[1], OffAltLba) && Get4LE(h, OffAltLba + 4) == Get4LE(d[1], OffAltLba + 4)
    requires WellFormed(x) && |x| > 1 && x[1] == h && HoldsTable(x, 2, table)
    ensures PrimaryVerdict(x, numSectors) == PrimaryVerdict(d, numSectors)
  {
    PrimaryVerdictPass(d, numSectors);
    PrimaryVerdictPass(x, numSectors);
    TableImageOfChunks(x, 2, table);
  }

  /** The backup half of gptRead on a disk x that holds at LBA 1 a header
      h keeping the altLBA words of d's, and there a header b that passes
      the header tests, keeps myLBA and carries the CRC of the array x
      holds in front of it: the same verdict as on d. */
  lemma BackupReadsBack(d: Image, x: Image, table: seq<byte>, h: seq<byte>, b: seq<byte>)
    requires WellFormed(d) && |table| == NumberPartBytes && |h| == SectorSize && |b| == SectorSize
    requires BackupVerdict(d).Pass? && |d| > 1
    requires Get4LE(h, OffAltLba) == Get4LE(d[1], OffAltLba) && Get4LE(h, OffAltLba + 4) == Get4LE(d[1], OffAltLba + 4)
    requires var lo := Get4LE(d[1], OffAltLba);
      && lo < |d|
      && HeaderTests(b, Backup).Pass? && Get4LE(b, OffTableCrc) == Crc32.Crc32(table)
      && Get4LE(b, OffMyLba) == Get4LE(d[lo], OffMyLba) && Get4LE(b, OffMyLba + 4) == Get4LE(d[lo], OffMyLba + 4)
    requires WellFormed(x) && |x| > 1 && x[1] == h
    requires var lo := Get4LE(h, OffAltLba);
      lo < |x| && x[lo] == b && HoldsTable(x, lo - NumberPartSectors, table)
    ensures BackupVerdict(x) == BackupVerdict(d)
  {
    BackupVerdictPass(d);
    BackupVerdictPass(x);
    TableImageOfChunks(x, Get4LE(h, OffAltLba) - NumberPartSectors, table);
  }

  /** gptWrite of headers h and b, after gptRead accepted d whose backup
      copy lies clear of the primary one: when h and b pass the header
      tests, keep the LBA fields of d's headers and carry the CRC of
      table, gptRead decides on the written disk as it did on d. */
  lemma SameTestsReadBack(d: Image, numSectors: u32, table: seq<byte>, h: seq<byte>, b: seq<byte>)
    requires WellFormed(d) && |table| == NumberPartBytes && |h| == SectorSize && |b| == SectorSize
    requires ReadVerdict(d, numSectors).Pass? && BackupClear(d)
    requires HeaderTests(h, Primary).Pass? && Get4LE(h, OffTableCrc) == Crc32.Crc32(table)
    requires Get4LE(h, OffMyLba) == Get4LE(d[1], OffMyLba) && Get4LE(h, OffMyLba + 4) == Get4LE(d[1], OffMyLba + 4)
    requires Get4LE(h, OffAltLba) == Get4LE(d[1], OffAltLba) && Get4LE(h, OffAltLba + 4) == Get4LE(d[1], OffAltLba + 4)
    requires var lo := Get4LE(d[1], OffAltLba);
      && lo < |d|
      && HeaderTests(b, Backup).Pass? && Get4LE(b, OffTableCrc) == Crc32.Crc32(table)
      && Get4LE(b, OffMyLba) == Get4LE(d[lo], OffMyLba) && Get4LE(b, OffMyLba + 4) == Get4LE(d[lo], OffMyLba + 4)
    ensures var x := WrittenGpt(d, table, h, b);
      WellFormed(x) && ReadVerdict(x, numSectors) == ReadVerdict(d, numSectors)
  {
    WrittenGptSectors(d, table, h, b);
    SameTestsReadBackAt(d, WrittenGpt(d, table, h, b), numSectors, table, h, b);
  }

  /** gptRead on a disk x that keeps sector 0 of the accepted disk d,
      holds h at LBA 1 and b at d's altLBA, and holds table behind the one
      and in front of the other, where h and b pass the header tests, keep
      the LBA fields of d's headers and carry the CRC of table: the same
      verdict as on d. */
  lemma SameTestsReadBackAt(d: Image, x: Image, numSectors: u32, table: seq<byte>, h: seq<byte>, b: seq<byte>)
    requires WellFormed(d) && |table| == NumberPartBytes && |h| == SectorSize && |b| == SectorSize
    requires ReadVerdict(d, numSectors).Pass? && BackupClear(d)
    requires HeaderTests(h, Primary).Pass? && Get4LE(h, OffTableCrc) == Crc32.Crc32(table)
    requires Get4LE(h, OffMyLba) == Get4LE(d[1], OffMyLba) && Get4LE(h, OffMyLba + 4) == Get4LE(d[1], OffMyLba + 4)
    requires Get4LE(h, OffAltLba) == Get4LE(d[1], OffAltLba) && Get4LE(h, OffAltLba + 4) == Get4LE(d[1], OffAltLba + 4)
    requires var lo := Get4LE(d[1], OffAltLba);
      && lo < |d|
      && HeaderTests(b, Backup).Pass? && Get4LE(b, OffTableCrc) == Crc32.Crc32(table)
      && Get4LE(b, OffMyLba) == Get4LE(d[lo], OffMyLba) && Get4LE(b, OffMyLba + 4) == Get4LE(d[lo], OffMyLba + 4)
    requires WellFormed(x) && |x| > 1 && x[0] == d[0] && x[1] == h && HoldsTable(x, 2, table)
    requires var lo := Get4LE(h, OffAltLba);
      lo < |x| && x[lo] == b && HoldsTable(x, lo - NumberPartSectors, table)
    ensures ReadVerdict(x, numSectors) == ReadVerdict(d, numSectors)
  {
    assert MbrVerdict(x) == MbrVerdict(d);
    ReadVerdictPass(d, numSectors);
    PrimaryReadsBack(d, x, numSectors, table, h);
    BackupReadsBack(d, x, table, h, b);
  }

  /** gptWrite after gptRead, with both headers refreshed for the array
      table: when the backup copy lies clear of the primary one, gptRead
      accepts the written disk again, with the same warnings. */
  lemma WrittenGptReadsBack(d: Image, numSectors: u32, table: seq<byte>)
    requires WellFormed(d) && |table| == NumberPartBytes
    requires ReadVerdict(d, numSectors).Pass? && BackupClear(d)
    ensures var c := Crc32.Crc32(table);
      var lo := Get4LE(d[1], OffAltLba);
      && lo < |d|
      && var x := WrittenGpt(d, table, Refreshed(d[1], c), Refreshed(d[lo], c));
         WellFormed(x) && ReadVerdict(x, numSectors) == ReadVerdict(d, numSectors)
  {
    var c := Crc32.Crc32(table);
    assert Get4LE(d[1], OffAltLba) < |d| && Header.SignatureOk(d[1]) && Header.SignatureOk(d[Get4LE(d[1], OffAltLba)]) by {
      ReadVerdictPass(d, numSectors);
      PrimaryVerdictPass(d, numSectors);
      BackupVerdictPass(d);
    }
    var lo := Get4LE(d[1], OffAltLba);
    RefreshedHeaderTests(d[1], c, Primary);
    RefreshedHeaderTests(d[lo], c, Backup);
    SameTestsReadBack(d, numSectors, table, Refreshed(d[1], c), Refreshed(d[lo], c));
  }

  /** Finding: gptRead only warns when altLBA is not the last sector, so a
      backup header at LBA 40 is accepted; gptWrite then writes the backup
      array over sectors 8..39, and the primary array left at LBA 2 is no
      longer the one whose CRC it stored. */
  lemma BackupArrayOverPrimary(d: Image, table: seq<byte>, hdr: seq<byte>, backupHdr: seq<byte>)
    requires WellFormed(d) && |table| == NumberPartBytes && |hdr| == SectorSize && |backupHdr| == SectorSize
    requires Get4LE(hdr, OffAltLba) == 40
    requires table[..SectorSize] != table[6 * SectorSize..7 * SectorSize]
    ensures var x := WrittenGpt(d, table, hdr, backupHdr);
      WellFormed(x) && TableReadable(x, 2) && TableImage(x, 2) != table
  {
    var y := CopyWritten(d, table, 2, 1, hdr);
    var x := CopyWritten(y, table, 8, 40, backupHdr);
    assert x == WrittenGpt(d, table, hdr, backupHdr);
    CopyWrittenSectors(d, table, 2, 1, hdr);
    CopyWrittenSectors(y, table, 8, 40, backupHdr);
    assert x[8] == table[..SectorSize];
    assert TableReadable(x, 2) by {
      forall s | 0 <= s < NumberPartSectors
        ensures TableSector(2, s) < |x|
      {
      }
    }
    TablePrefixChunk(x, 2, NumberPartSectors, 6);
    assert TableSector(2, 6) == 8;
  }


  /** The restore step of the header CRC test: writing the saved CRC back
      over the zeroed field gives the sector as it was read. */
  lemma RestoreField(h: seq<byte>)
    requires |h| == SectorSize
    ensures Splice(Splice(h, OffHeaderCrc, Le4(0)), OffHeaderCrc, Le4(Get4LE(h, OffHeaderCrc))) == h
  {
    Le4OfGet4LE(h, OffHeaderCrc);
    SpliceTwice(h, OffHeaderCrc, Le4(0), Le4(Get4LE(h, OffHeaderCrc)));
    SpliceSame(h, OffHeaderCrc, 4);
  }

  /** The static state of src/gpt.c (and the globals of mkpart): both
      header sectors, both arrays and the lazily built CRC table. */
  class GptSession {
    const primaryTblHdr: array<byte>
    const primaryTable: array<byte>
    const backupTblHdr: array<byte>
    const backupTable: array<byte>
    const crc: Crc32.LazyCrc32

    ghost predicate Valid()
      reads this, crc, crc.table, crc.table.entries
    {
      && primaryTblHdr.Length == SectorSize && backupTblHdr.Length == SectorSize
      && primaryTable.Length == NumberPartBytes && backupTable.Length == NumberPartBytes
      && primaryTblHdr != backupTblHdr && primaryTable != backupTable
      && primaryTblHdr != primaryTable && primaryTblHdr != backupTable
      && backupTblHdr != primaryTable && backupTblHdr != backupTable
      && crc.Valid()
    }

    constructor ()
      ensures Valid() && !crc.initDone
      ensures fresh(primaryTblHdr) && fresh(primaryTable) && fresh(backupTblHdr) && fresh(backupTable)
    {
      primaryTblHdr := new byte[SectorSize](_ => 0);
      primaryTable := new byte[NumberPartBytes](_ => 0);
      backupTblHdr := new byte[SectorSize](_ => 0);
      backupTable := new byte[NumberPartBytes](_ => 0);
      crc := new Crc32.LazyCrc32();
    }

    /** The header CRC test: save the stored CRC, zero the field, sum the
        first 92 bytes, and put the saved value back, so the sector is
        unchanged afterwards. */
    method HeaderCrcMatches(hdr: array<byte>) returns (ok: bool)
      requires Valid() && hdr.Length == SectorSize
      modifies hdr, crc, crc.table.entries
      ensures Valid() && crc.table == old(crc.table)
      ensures ok == HeaderCrcOk(old(hdr[..]))
      ensures hdr[..] == old(hdr[..])
    {
      ghost var h := hdr[..];
      var oldCrc := Get4LE(hdr[..], OffHeaderCrc);
      Put4LE(hdr, OffHeaderCrc, 0);
      var newCrc := crc.Sum(hdr[..HeaderSize]);
      Put4LE(hdr, OffHeaderCrc, oldCrc);
      RestoreField(h);
      ok := oldCrc == newCrc;
    }

    /** The sealing step of gptWrite: zero the CRC field, sum the first 92
        bytes, store the sum. */
    method SealHeader(hdr: array<byte>)
      requires Valid() && hdr.Length == SectorSize
      modifies hdr, crc, crc.table.entries
      ensures Valid() && crc.table == old(crc.table)
      ensures hdr[..] == Seal(old(hdr[..]))
    {
      ghost var h := hdr[..];
      Put4LE(hdr, OffHeaderCrc, 0);
      var sum := crc.Sum(hdr[..HeaderSize]);
      Put4LE(hdr, OffHeaderCrc, sum);
      SpliceTwice(h, OffHeaderCrc, Le4(0), Le4(sum));
    }

    /** The signature and header CRC tests of gptRead on a loaded header;
        the header is left as it was read. */
    method CheckHeader(hdr: array<byte>, role: Role) returns (c: Check)
      requires Valid() && hdr.Length == SectorSize
      modifies hdr, crc, crc.table.entries
      ensures Valid() && crc.table == old(crc.table)
      ensures c == HeaderTests(old(hdr[..]), role) && hdr[..] == old(hdr[..])
    {
      if !Header.SignatureOk(hdr[..]) {
        return Fail([], HdrSignature(role));
      }
      var ok := HeaderCrcMatches(hdr);
      c := Require(ok, HdrCrc(role));
    }

    /** Read the array at lba into buf and compare its CRC with the stored
        value. */
    method ReadCheckedTable(disk: Disk, ghost d: Image, buf: array<byte>, lba: int, stored: u32, role: Role) returns (c: Check)
      requires Valid() && disk.Valid() && disk.sectors == d && buf.Length == NumberPartBytes
      modifies buf, crc, crc.table.entries
      ensures Valid() && crc.table == old(crc.table)
      ensures c == TableVerdict(d, lba, stored, role)
      ensures c.Pass? ==> TableReadable(d, lba) && buf[..] == TableImage(d, lba)
    {
      var ok := ReadTable(disk, buf, lba);
      if !ok {
        return Fail([], SectorUnreadable);
      }
      var sum := crc.Sum(buf[..]);
      c := Require(sum == stored, TableCrc(role));
    }

    /** The tests gptRead runs on the primary header once it is loaded. */
    method CheckPrimaryHeader(ghost h: seq<byte>, numSectors: u32) returns (c: Check, tableCrc: u32)
      requires Valid() && primaryTblHdr[..] == h
      modifies primaryTblHdr, crc, crc.table.entries
      ensures Valid() && crc.table == old(crc.table)
      ensures c == PrimaryTests(h, numSectors) && primaryTblHdr[..] == h
      ensures tableCrc == Get4LE(h, OffTableCrc)
    {
      tableCrc := Get4LE(primaryTblHdr[..], OffTableCrc);
      c := CheckHeader(primaryTblHdr, Primary);
      if c.Pass? {
        c := c.Then(Require(LbaIs(primaryTblHdr[..], OffMyLba, 1), HdrMyLba(Primary)))
              .Then(Warn(LbaIs(primaryTblHdr[..], OffAltLba, Wrap32(numSectors - 1)), BackupNotAtEnd));
      }
    }

    /** The tests gptRead runs on the backup header once it is loaded. */
    method CheckBackupHeader(ghost b: seq<byte>, lo: u32, hi: u32) returns (c: Check, tableCrc: u32)
      requires Valid() && backupTblHdr[..] == b
      modifies backupTblHdr, crc, crc.table.entries
      ensures Valid() && crc.table == old(crc.table)
      ensures c == BackupTests(b, lo, hi) && backupTblHdr[..] == b
      ensures tableCrc == Get4LE(b, OffTableCrc)
    {
      tableCrc := Get4LE(backupTblHdr[..], OffTableCrc);
      c := CheckHeader(backupTblHdr, Backup);
      if c.Pass? {
        c := c.Then(Require(Get4LE(backupTblHdr[..], OffMyLba + 4) == hi && Get4LE(backupTblHdr[..], OffMyLba) == lo,
                            HdrMyLba(Backup)));
      }
    }

    /** The primary half of gptRead; on success it also yields the two
        words of the backup header's LBA. */
    method ReadPrimary(disk: Disk, numSectors: u32) returns (c: Check, altLo: u32, altHi: u32)
      requires Valid() && disk.Valid()
      modifies primaryTblHdr, primaryTable, crc, crc.table.entries
      ensures Valid() && crc.table == old(crc.table)
      ensures c == PrimaryVerdict(disk.sectors, numSectors)
      ensures c.Pass? ==> PrimaryLoaded(disk.sectors, primaryTblHdr[..], primaryTable[..])
      ensures c.Pass? ==> altLo == Get4LE(disk.sectors[1], OffAltLba) && altHi == Get4LE(disk.sectors[1], OffAltLba + 4)
    {
      altLo, altHi := 0, 0;
      ghost var d := disk.sectors;
      var ok := ReadWhole(disk, 1, primaryTblHdr);
      if !ok {
        c := Fail([], SectorUnreadable);
      } else {
        var tableCrc;
        c, tableCrc := CheckPrimaryHeader(d[1], numSectors);
        altLo := Get4LE(primaryTblHdr[..], OffAltLba);
        altHi := Get4LE(primaryTblHdr[..], OffAltLba + 4);
        if c.Pass? {
          var t := ReadCheckedTable(disk, d, primaryTable, 2, tableCrc, Primary);
          c := c.Then(t);
        }
      }
    }

    /** The backup half of gptRead: the header at LBA lo, given with the
        high word hi its myLBA must carry, and the array in front of it. */
    method ReadBackup(disk: Disk, lo: u32, hi: u32) returns (c: Check)
      requires Valid() && disk.Valid()
      modifies backupTblHdr, backupTable, crc, crc.table.entries
      ensures Valid() && crc.table == old(crc.table)
      ensures c == BackupAt(disk.sectors, lo, hi)
      ensures c.Pass? ==> BackupLoaded(disk.sectors, lo, backupTblHdr[..], backupTable[..])
    {
      ghost var d := disk.sectors;
      var ok := ReadWhole(disk, lo, backupTblHdr);
      if !ok {
        c := Fail([], SectorUnreadable);
      } else {
        var tableCrc;
        c, tableCrc := CheckBackupHeader(d[lo], lo, hi);
        if c.Pass? {
          var t := ReadCheckedTable(disk, d, backupTable, lo - NumberPartSectors, tableCrc, Backup);
          c := c.Then(t);
        }
      }
    }

    /** gptRead / checkValidGPT: on success the buffers hold both headers
        and both arrays as they are on the disk. */
    method Read(disk: Disk, numSectors: u32) returns (c: Check)
      requires Valid() && disk.Valid()
      modifies primaryTblHdr, primaryTable, backupTblHdr, backupTable, crc, crc.table.entries
      ensures Valid() && crc.table == old(crc.table)
      ensures c == ReadVerdict(disk.sectors, numSectors)
      ensures c.Pass? ==> PrimaryLoaded(disk.sectors, primaryTblHdr[..], primaryTable[..])
      ensures c.Pass? ==> BackupLoaded(disk.sectors, Get4LE(disk.sectors[1], OffAltLba), backupTblHdr[..], backupTable[..])
    {
      var m := CheckMbr(disk);
      if m.Fail? {
        return m;
      }
      var g := ReadGpt(disk, numSectors);
      c := m.Then(g);
    }

    /** The part of gptRead after the MBR: the primary GPT, then the
        backup GPT at the primary's altLBA. */
    method ReadGpt(disk: Disk, numSectors: u32) returns (c: Check)
      requires Valid() && disk.Valid()
      modifies primaryTblHdr, primaryTable, backupTblHdr, backupTable, crc, crc.table.entries
      ensures Valid() && crc.table == old(crc.table)
      ensures c == GptVerdict(disk.sectors, numSectors)
      ensures c.Pass? ==> PrimaryLoaded(disk.sectors, primaryTblHdr[..], primaryTable[..])
      ensures c.Pass? ==> BackupLoaded(disk.sectors, Get4LE(disk.sectors[1], OffAltLba), backupTblHdr[..], backupTable[..])
    {
      ghost var d := disk.sectors;
      var p, altLo, altHi := ReadPrimary(disk, numSectors);
      if p.Fail? {
        return p;
      }
      var b := ReadBackup(disk, altLo, altHi);
      assert b == BackupVerdict(d);
      c := p.Then(b);
    }

    /** gptWrite / writeValidGPT: store the primary array's CRC in both
        headers, write the array, seal and write the primary header, write
        the array again in front of the backup header's LBA, seal and
        write the backup header. */
    method Write(disk: Disk)
      requires Valid() && disk.Valid()
      modifies primaryTblHdr, backupTblHdr, crc, crc.table.entries, disk
      ensures Valid() && crc.table == old(crc.table) && disk.Valid()
      ensures primaryTblHdr[..] == Refreshed(old(primaryTblHdr[..]), Crc32.Crc32(primaryTable[..]))
      ensures backupTblHdr[..] == Refreshed(old(backupTblHdr[..]), Crc32.Crc32(primaryTable[..]))
      ensures disk.sectors == WrittenGpt(old(disk.sectors), primaryTable[..], primaryTblHdr[..], backupTblHdr[..])
    {
      var tableCrc := crc.Sum(primaryTable[..]);
      Put4LE(primaryTblHdr, OffTableCrc, tableCrc);
      Put4LE(backupTblHdr, OffTableCrc, tableCrc);
      WriteCopies(disk);
    }

    /** The writing half of gptWrite: both copies of the GPT, the backup
        one at the LBA the primary header names as altLBA. */
    method WriteCopies(disk: Disk)
      requires Valid() && disk.Valid()
      modifies primaryTblHdr, backupTblHdr, crc, crc.table.entries, disk
      ensures Valid() && crc.table == old(crc.table) && disk.Valid()
      ensures primaryTblHdr[..] == Seal(old(primaryTblHdr[..]))
      ensures backupTblHdr[..] == Seal(old(backupTblHdr[..]))
      ensures disk.sectors == WrittenGpt(old(disk.sectors), primaryTable[..], primaryTblHdr[..], backupTblHdr[..])
    {
      WriteCopy(disk, primaryTblHdr, 2, 1);
      var lo := Get4LE(primaryTblHdr[..], OffAltLba);
      WriteCopy(disk, backupTblHdr, lo - NumberPartSectors, lo);
    }

    /** One copy of the GPT as gptWrite stores it: the primary array at
        lba, then the header, sealed, at sector at. */
    method WriteCopy(disk: Disk, hdr: array<byte>, lba: int, at: u32)
      requires Valid() && disk.Valid() && hdr.Length == SectorSize
      modifies hdr, crc, crc.table.entries, disk
      ensures Valid() && crc.table == old(crc.table) && disk.Valid()
      ensures hdr[..] == Seal(old(hdr[..]))
      ensures disk.sectors == CopyWritten(old(disk.sectors), primaryTable[..], lba, at, hdr[..])
    {
      WriteTable(disk, primaryTable, lba);
      SealHeader(hdr);
      disk.WriteSector(at, hdr, 0);
      assert hdr[0..SectorSize] == hdr[..];
    }

    /** gptGetEntry: partition numbers run from 1 to 128; the entry is
        decoded from slot partNumber - 1. */
    method GetEntry(partNumber: int) returns (r: Result<Entry>)
      requires Valid()
      ensures !(1 <= partNumber <= NumberPartEntries) ==> r == Err(PartNumberOutOfRange)
      ensures 1 <= partNumber <= NumberPartEntries ==>
              r == Ok(DecodeEntry(primaryTable[..], SlotBase(partNumber - 1)))
    {
      if partNumber < 1 || partNumber > NumberPartEntries {
        return Err(PartNumberOutOfRange);
      }
      var e := GetFields(primaryTable, SlotBase(partNumber - 1));
      r := Ok(e);
    }

    /** gptSetEntry: partition numbers run from 1 to 128; slot
        partNumber - 1 is cleared and filled with the entry. */
    method SetEntry(partNumber: int, e: Entry) returns (c: Check)
      requires Valid() && GuidsOk(e)
      modifies primaryTable
      ensures !(1 <= partNumber <= NumberPartEntries) ==>
              c == Fail([], PartNumberOutOfRange) && primaryTable[..] == old(primaryTable[..])
      ensures 1 <= partNumber <= NumberPartEntries ==>
              c == Pass([]) && primaryTable[..] == Splice(old(primaryTable[..]), SlotBase(partNumber - 1), EncodeEntry(e))
    {
      if partNumber < 1 || partNumber > NumberPartEntries {
        return Fail([], PartNumberOutOfRange);
      }
      PutEntry(primaryTable, SlotBase(partNumber - 1), e);
      c := Pass([]);
    }
  }

  /** checkProtMBR: read sector 0 into a local buffer and check it. */
  method CheckMbr(disk: Disk) returns (c: Check)
    requires disk.Valid()
    ensures c == MbrVerdict(disk.sectors)
  {
    var mbr := new byte[SectorSize];
    var ok := ReadWhole(disk, 0, mbr);
    if !ok {
      return Fail([], SectorUnreadable);
    }
    c := CheckProtMbr(mbr[..]);
  }

  /** gptGetEntry after gptSetEntry on the same partition number returns
      the GUIDs, sectors and attributes that were set, and the name cut
      to 35 characters; every other slot reads as before. */
  lemma SetThenGet(table: seq<byte>, k: int, e: Entry, j: int)
    requires |table| == NumberPartBytes && 0 <= k < NumberPartEntries && 0 <= j < NumberPartEntries
    requires GuidsOk(e)
    ensures var t := Splice(table, SlotBase(k), EncodeEntry(e));
      DecodeEntry(t, SlotBase(j)) == if j == k then e.(name := StoredName(e.name)) else DecodeEntry(table, SlotBase(j))
  {
    if j == k {
      DecodeEncoded(table, SlotBase(k), e);
    } else {
      DecodeOtherSlot(table, SlotBase(k), EncodeEntry(e), SlotBase(j));
    }
  }
}
