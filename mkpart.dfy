/** mkpart: add one entry to the partition array of a disk that already
    carries a valid GPT. The slot is the one asked for or the lowest
    unused one; the place is the first gap big enough or a caller-chosen
    sector that must start enough free space. */
module Mkpart {
  import opened Bytes
  import opened Layout
  import opened Guid
  import opened Entries
  import opened Allocator
  import opened Sectors
  import Crc32
  import opened Header
  import opened Session
  import Shgpt

  /** The lowest unused slot at or after k, or 128 when slots k..127 are
      all in use. */
  function FreeSlot(table: seq<byte>, k: nat): (i: nat)
    requires |table| == NumberPartBytes && k <= NumberPartEntries
    ensures k <= i <= NumberPartEntries
    ensures i < NumberPartEntries ==> !SlotUsed(table, i)
    ensures forall j :: k <= j < i ==> SlotUsed(table, j)
    decreases NumberPartEntries - k
  {
    if k == NumberPartEntries then NumberPartEntries
    else if !SlotUsed(table, k) then k
    else FreeSlot(table, k + 1)
  }

  /** The slot mkPartition fills: for partition number 0 the lowest unused
      slot, else slot partNumber - 1, which must be unused. */
  function SlotChoice(table: seq<byte>, partNumber: int): (r: Result<int>)
    requires |table| == NumberPartBytes && 0 <= partNumber <= NumberPartEntries
    ensures r.Ok? ==> 0 <= r.value < NumberPartEntries && !SlotUsed(table, r.value)
    ensures partNumber == 0 && r.Ok? ==> forall j :: 0 <= j < r.value ==> SlotUsed(table, j)
    ensures partNumber == 0 && r.Err? ==>
              r.fault == NoFreeSlot && forall j :: 0 <= j < NumberPartEntries ==> SlotUsed(table, j)
    ensures partNumber > 0 ==>
              r == if SlotUsed(table, partNumber - 1) then Err(SlotInUse(partNumber)) else Ok(partNumber - 1)
  {
    if partNumber == 0 then
      var i := FreeSlot(table, 0);
      if i == NumberPartEntries then Err(NoFreeSlot) else Ok(i)
    else if SlotUsed(table, partNumber - 1) then Err(SlotInUse(partNumber))
    else Ok(partNumber - 1)
  }

  /** Every recorded gap starts below 2^32: it is non-empty and ends by
      lastSector + 1. */
  lemma GapAddrBound(s: seq<Extent>, first: nat, last: u32, i: int)
    requires GapsFrom(s, first, last).Ok? && 0 <= i < |GapsFrom(s, first, last).value|
    ensures GapsFrom(s, first, last).value[i].addr < TwoTo32
  {
    GapsSpaced(s, first, last);
  }

  /** The first sector mkPartition gives the partition: errors of the gap
      table pass through; start 0 asks findGap, whose 0 means no gap is
      big enough; any other start must pass checkGap. */
  function StartChoice(sorted: seq<Extent>, partStart: u32, partSize: u32, first: u32, last: u32): (r: Result<u32>)
    ensures partStart != 0 && r.Ok? ==> r.value == partStart
    ensures partStart == 0 && r.Ok? ==> r.value != 0
  {
    match GapsFrom(sorted, first, last)
    case Err(f) => Err(f)
    case Ok(g) =>
      if partStart == 0 then
        var i := FitIndex(g, partSize);
        if i == |g| then Err(NoGap)
        else
          GapAddrBound(sorted, first, last, i);
          if g[i].addr == 0 then Err(NoGap) else Ok(g[i].addr)
      else if FitsAt(g, partStart, partSize) then Ok(partStart)
      else Err(NotEnoughSpace)
  }

  /** The entry mkPartition writes: the GUIDs, the first sector, the last
      sector partStart + partSize - 1 in 32 bits, attributes 0 and the
      name. */
  function NewEntry(typeGuid: seq<byte>, uniqGuid: seq<byte>, start: u32, size: u32, name: seq<byte>): (e: Entry)
    ensures e.attr == 0 && e.start == start
  {
    Entry(typeGuid, uniqGuid, start, Wrap32(start + size - 1), 0, name)
  }

  /** Sector x lies in the extent of a used slot. */
  predicate Occupied(table: seq<byte>, x: int)
    requires |table| == NumberPartBytes
  {
    exists j :: 0 <= j < NumberPartEntries && SlotUsed(table, j) && ExtentOf(table, j).start <= x <= ExtentOf(table, j).end
  }

  /** Sector x may be given to a new partition: it lies in [firstSector,
      lastSector] and in no used partition. */
  predicate Available(table: seq<byte>, first: int, last: int, x: int)
    requires |table| == NumberPartBytes
  {
    first <= x <= last && !Occupied(table, x)
  }

  /** Sorting keeps the extents, so an extent is in the sorted list
      exactly when it is in the input. */
  lemma SortedHas(u: seq<Extent>, e: Extent)
    ensures e in SortByStart(u) <==> e in u
  {
    var s := SortByStart(u);
    SortByStartSorts(u);
    assert e in s <==> e in multiset(s);
    assert e in u <==> e in multiset(u);
  }

  /** Sorting the used extents changes nothing about which sectors they
      cover. */
  lemma SortedUsedIff(table: seq<byte>, x: int)
    requires |table| == NumberPartBytes
    ensures InUsed(SortByStart(Used(table)), x) <==> Occupied(table, x)
  {
    var u := Used(table);
    var s := SortByStart(u);
    if InUsed(s, x) {
      var i :| 0 <= i < |s| && s[i].start <= x <= s[i].end;
      SortedHas(u, s[i]);
      UsedBeforeHas(table, NumberPartEntries, s[i]);
    }
    if Occupied(table, x) {
      var j :| 0 <= j < NumberPartEntries && SlotUsed(table, j) && ExtentOf(table, j).start <= x <= ExtentOf(table, j).end;
      var e := ExtentOf(table, j);
      UsedBeforeHas(table, NumberPartEntries, e);
      SortedHas(u, e);
      var i :| 0 <= i < |s| && s[i] == e;
    }
  }

  /** The first sector chosen lies in a gap with room for the whole
      partition, so every sector given to it is free. */
  lemma StartIsFree(sorted: seq<Extent>, partStart: u32, partSize: u32, first: u32, last: u32)
    requires StartChoice(sorted, partStart, partSize, first, last).Ok?
    ensures var a := StartChoice(sorted, partStart, partSize, first, last).value;
            forall x :: a <= x < a + partSize ==> Free(sorted, first, last, x)
  {
    if partStart == 0 {
      FirstFitIsFree(sorted, first, last, partSize);
    } else {
      FitsAtIsFree(sorted, first, last, partStart, partSize);
    }
  }

  /** The sectors given to the new partition lie in [firstSector,
      lastSector] and in no used partition, and for a non-empty partition
      the last sector is computed without wrapping. */
  lemma ChosenStartIsFree(table: seq<byte>, partStart: u32, partSize: u32, first: u32, last: u32)
    requires |table| == NumberPartBytes
    requires StartChoice(SortByStart(Used(table)), partStart, partSize, first, last).Ok?
    ensures var a := StartChoice(SortByStart(Used(table)), partStart, partSize, first, last).value;
            forall x :: a <= x < a + partSize ==> Available(table, first, last, x)
    ensures var a := StartChoice(SortByStart(Used(table)), partStart, partSize, first, last).value;
            partSize > 0 ==> a + partSize - 1 <= last && Wrap32(a + partSize - 1) == a + partSize - 1
  {
    var s := SortByStart(Used(table));
    var a := StartChoice(s, partStart, partSize, first, last).value;
    StartIsFree(s, partStart, partSize, first, last);
    forall x | a <= x < a + partSize
      ensures Available(table, first, last, x)
    {
      assert Free(s, first, last, x);
      SortedUsedIff(table, x);
    }
    if partSize > 0 {
      assert Free(s, first, last, a + partSize - 1);
    }
  }

  /** A slot that is all zero still reads as all zero after uuid_copyLE. */
  lemma CopyLEOfZero(z: seq<byte>)
    requires |z| == 16 && IsZero(z)
    ensures IsZero(CopyLE(z))
  {
    CopyLEReversesFields(z);
  }

  /** With a non-zero type GUID the filled slot is in use afterwards, so a
      later run does not hand it out again. */
  lemma FilledSlotUsed(table: seq<byte>, k: int, e: Entry)
    requires |table| == NumberPartBytes && 0 <= k < NumberPartEntries && GuidsOk(e)
    requires !IsZero(e.typeGuid)
    ensures SlotUsed(Splice(table, SlotBase(k), EncodeEntry(e)), k)
  {
    var t := Splice(table, SlotBase(k), EncodeEntry(e));
    var x := EncodeEntry(e);
    SpliceSlice(table, SlotBase(k), x);
    assert t[SlotBase(k)..SlotBase(k) + 16] == x[0..16];
    EncodedHead(e);
    if IsZero(x[0..16]) {
      CopyLEOfZero(x[0..16]);
      assert false;
    }
  }

  /** The free-slot search of mkPartition: the first slot whose type GUID
      is all zero, or 128. */
  method FindFreeSlot(table: array<byte>) returns (i: int)
    requires table.Length == NumberPartBytes
    ensures i == FreeSlot(table[..], 0)
  {
    i := 0;
    while i < NumberPartEntries
      invariant 0 <= i <= NumberPartEntries
      invariant FreeSlot(table[..], i) == FreeSlot(table[..], 0)
    {
      var zero := SlotIsFree(table, i);
      if zero {
        break;
      }
      i := i + 1;
    }
  }

  /** isZero on the type GUID of slot k. */
  method SlotIsFree(table: array<byte>, k: int) returns (zero: bool)
    requires table.Length == NumberPartBytes && 0 <= k < NumberPartEntries
    ensures zero <==> !SlotUsed(table[..], k)
  {
    var base := SlotBase(k);
    assert table[base..base + 16] == table[..][SlotBase(k)..SlotBase(k) + 16];
    zero := IsZeroScan(table[base..base + 16]);
  }

  /** The slot part of mkPartition: the free-slot search for partition
      number 0, the in-use test otherwise. */
  method ChooseSlot(table: array<byte>, partNumber: int) returns (r: Result<int>)
    requires table.Length == NumberPartBytes && 0 <= partNumber <= NumberPartEntries
    ensures r == SlotChoice(table[..], partNumber)
  {
    if partNumber == 0 {
      var i := FindFreeSlot(table);
      if i == NumberPartEntries {
        return Err(NoFreeSlot);
      }
      return Ok(i);
    }
    var zero := SlotIsFree(table, partNumber - 1);
    if !zero {
      return Err(SlotInUse(partNumber));
    }
    r := Ok(partNumber - 1);
  }

  /** The gap part of mkPartition: buildGapTable, then findGap for start
      0 or checkGap for a given start. */
  method ChooseStart(gt: GapTable, table: array<byte>, ghost t: seq<byte>, partStart: u32, partSize: u32, first: u32, last: u32)
    returns (r: Result<u32>)
    requires gt.Valid() && table.Length == NumberPartBytes && table[..] == t
    modifies gt, gt.gaps
    ensures gt.Valid()
    ensures r == StartChoice(SortByStart(Used(t)), partStart, partSize, first, last)
  {
    var c := gt.BuildGapTable(table, first, last);
    if c.Fail? {
      return Err(c.fault);
    }
    if partStart == 0 {
      var addr := gt.FindGap(partSize);
      if addr == 0 {
        return Err(NoGap);
      }
      GapAddrBound(gt.sorted, first, last, FitIndex(gt.gaps[..gt.numGaps], partSize));
      return Ok(addr);
    }
    var ok := gt.CheckGap(partStart, partSize);
    if !ok {
      return Err(NotEnoughSpace);
    }
    r := Ok(partStart);
  }

  /** What mkPartition reports and leaves in the array t once the slot
      choice k and the start choice a are made: the first fault with t
      unchanged, or the 1-based partition number with slot k filled. */
  function Filling(t: seq<byte>, k: Result<int>, a: Result<u32>, typeGuid: seq<byte>, uniqGuid: seq<byte>,
                   name: seq<byte>, partSize: u32): (Result<int>, seq<byte>)
    requires |t| == NumberPartBytes && (k.Ok? ==> 0 <= k.value < NumberPartEntries)
    requires |typeGuid| == 16 && |uniqGuid| == 16
  {
    if k.Err? then (Err(k.fault), t)
    else if a.Err? then (Err(a.fault), t)
    else (Ok(k.value + 1), Splice(t, SlotBase(k.value), EncodeEntry(NewEntry(typeGuid, uniqGuid, a.value, partSize, name))))
  }

  /** mkPartition: choose the slot, build the gap table, choose the first
      sector and fill the slot. The type GUID, the partition GUID and the
      name come from the type database and uuid_generate and are passed
      in. The source clears the slot and writes the GUIDs, both sector
      numbers and the name, leaving the attributes 0; that is the encoding
      of the entry with attributes 0. */
  method MkPartition(table: array<byte>, gt: GapTable, ghost t: seq<byte>, partNumber: int, typeGuid: seq<byte>, uniqGuid: seq<byte>,
                     name: seq<byte>, partStart: u32, partSize: u32, first: u32, last: u32)
    returns (r: Result<int>)
    requires table.Length == NumberPartBytes && table[..] == t && gt.Valid() && 0 <= partNumber <= NumberPartEntries
    requires |typeGuid| == 16 && |uniqGuid| == 16
    modifies table, gt, gt.gaps
    ensures gt.Valid()
    ensures (r, table[..]) ==
              Filling(t, SlotChoice(t, partNumber), StartChoice(SortByStart(Used(t)), partStart, partSize, first, last),
                      typeGuid, uniqGuid, name, partSize)
  {
    var slot := ChooseSlot(table, partNumber);
    if slot.Err? {
      return Err(slot.fault);
    }
    var start := ChooseStart(gt, table, t, partStart, partSize, first, last);
    if start.Err? {
      return Err(start.fault);
    }
    PutEntry(table, SlotBase(slot.value), NewEntry(typeGuid, uniqGuid, start.value, partSize, name));
    r := Ok(slot.value + 1);
  }

  /** The disk after writeValidGPT, once the entry e is in slot k of the
      array t read from disk d: both headers get the new array CRC and a
      new header CRC, and both copies of the array are written. */
  function Added(d: Image, t: seq<byte>, k: int, e: Entry): Image
    requires WellFormed(d) && |d| > 1 && Get4LE(d[1], OffAltLba) < |d|
    requires |t| == NumberPartBytes && 0 <= k < NumberPartEntries && GuidsOk(e)
  {
    var t' := Splice(t, SlotBase(k), EncodeEntry(e));
    var lo := Get4LE(d[1], OffAltLba);
    WrittenGpt(d, t', Refreshed(d[1], Crc32.Crc32(t')), Refreshed(d[lo], Crc32.Crc32(t')))
  }

  /** What mkpart does to a disk whose GPT checks out: the partition
      number it reports and the disk it leaves, or the fault. */
  function AddOutcome(d: Image, t: seq<byte>, partNumber: int, typeGuid: seq<byte>, uniqGuid: seq<byte>,
                      name: seq<byte>, partStart: u32, partSize: u32): Result<(int, Image)>
    requires WellFormed(d) && |d| > 1 && Get4LE(d[1], OffAltLba) < |d| && |t| == NumberPartBytes
    requires 0 <= partNumber <= NumberPartEntries && |typeGuid| == 16 && |uniqGuid| == 16
  {
    Outcome(d, t, SlotChoice(t, partNumber),
            StartChoice(SortByStart(Used(t)), partStart, partSize, Get4LE(d[1], OffFirstUsable), Get4LE(d[1], OffLastUsable)),
            typeGuid, uniqGuid, name, partSize)
  }

  /** The outcome once the slot choice k and the start choice a are made:
      the first fault, or slot k filled with an entry starting at a. */
  function Outcome(d: Image, t: seq<byte>, k: Result<int>, a: Result<u32>, typeGuid: seq<byte>, uniqGuid: seq<byte>,
                   name: seq<byte>, partSize: u32): Result<(int, Image)>
    requires WellFormed(d) && |d| > 1 && Get4LE(d[1], OffAltLba) < |d| && |t| == NumberPartBytes
    requires k.Ok? ==> 0 <= k.value < NumberPartEntries
    requires |typeGuid| == 16 && |uniqGuid| == 16
  {
    if k.Err? then Err(k.fault)
    else if a.Err? then Err(a.fault)
    else Ok((k.value + 1, Added(d, t, k.value, NewEntry(typeGuid, uniqGuid, a.value, partSize, name))))
  }

  /** The disk mkpart leaves passes the checks its input passed: gptRead
      decides as before when the backup copy lies clear of the primary
      one, and shgpt decides as before on every disk it accepted. */
  lemma AddedReadsBack(d: Image, numSectors: u32, t: seq<byte>, k: int, e: Entry)
    requires WellFormed(d) && |d| > 1 && Get4LE(d[1], OffAltLba) < |d|
    requires |t| == NumberPartBytes && 0 <= k < NumberPartEntries && GuidsOk(e)
    ensures var x := Added(d, t, k, e);
      && WellFormed(x)
      && (ReadVerdict(d, numSectors).Pass? && BackupClear(d) ==> ReadVerdict(x, numSectors) == ReadVerdict(d, numSectors))
      && (Shgpt.Accepted(d, numSectors) ==> Shgpt.ShowVerdict(x, numSectors) == Shgpt.ShowVerdict(d, numSectors))
  {
    var t' := Splice(t, SlotBase(k), EncodeEntry(e));
    var c := Crc32.Crc32(t');
    var lo := Get4LE(d[1], OffAltLba);
    WrittenGptWellFormed(d, t', Refreshed(d[1], c), Refreshed(d[lo], c));
    if ReadVerdict(d, numSectors).Pass? && BackupClear(d) {
      WrittenGptReadsBack(d, numSectors, t');
    }
    if Shgpt.Accepted(d, numSectors) {
      Shgpt.WrittenGptShown(d, numSectors, t');
    }
  }

  /** mkpart's main after the arguments are parsed: the partition number
      must lie in 0..128 and the disk must hold at least 4096 sectors; then
      checkValidGPT, mkPartition with the usable range read from bytes 40
      and 48 of the primary header, and writeValidGPT. Any error stops the
      run before anything is written. */
  method MkpartMain(s: GptSession, gt: GapTable, disk: Disk, numSectors: u32, partNumber: int,
                    typeGuid: seq<byte>, uniqGuid: seq<byte>, name: seq<byte>, partStart: u32, partSize: u32)
    returns (r: Result<int>)
    requires s.Valid() && gt.Valid() && disk.Valid() && |typeGuid| == 16 && |uniqGuid| == 16
    modifies s.primaryTblHdr, s.primaryTable, s.backupTblHdr, s.backupTable, s.crc, s.crc.table.entries
    modifies gt, gt.gaps, disk
    ensures r.Err? ==> disk.sectors == old(disk.sectors)
    ensures !(0 <= partNumber <= NumberPartEntries) ==> r == Err(PartNumberOutOfRange)
    ensures 0 <= partNumber <= NumberPartEntries && numSectors < MinNumberSectors ==> r == Err(DiskTooSmall)
    ensures var c := ReadVerdict(old(disk.sectors), numSectors);
            0 <= partNumber <= NumberPartEntries && numSectors >= MinNumberSectors && c.Fail? ==> r == Err(c.fault)
    ensures var d := old(disk.sectors);
            0 <= partNumber <= NumberPartEntries && numSectors >= MinNumberSectors && ReadVerdict(d, numSectors).Pass? ==>
              |d| > 1 && TableReadable(d, 2) && Get4LE(d[1], OffAltLba) < |d| &&
              var o := AddOutcome(d, TableImage(d, 2), partNumber, typeGuid, uniqGuid, name, partStart, partSize);
              (o.Err? ==> r == Err(o.fault)) && (o.Ok? ==> r == Ok(o.value.0) && disk.sectors == o.value.1)
    ensures var d := old(disk.sectors);
            r.Ok? ==>
              && WellFormed(disk.sectors)
              && (ReadVerdict(d, numSectors).Pass? && BackupClear(d) ==> ReadVerdict(disk.sectors, numSectors) == ReadVerdict(d, numSectors))
              && (Shgpt.Accepted(d, numSectors) ==> Shgpt.ShowVerdict(disk.sectors, numSectors) == Shgpt.ShowVerdict(d, numSectors))
  {
    if partNumber < 0 || partNumber > NumberPartEntries {
      return Err(PartNumberOutOfRange);
    }
    if numSectors < MinNumberSectors {
      return Err(DiskTooSmall);
    }
    var c := s.Read(disk, numSectors);
    if c.Fail? {
      return Err(c.fault);
    }
    ghost var d := disk.sectors;
    ReadVerdictPass(d, numSectors);
    r := AddPartition(s, gt, disk, d, s.primaryTable[..], partNumber, typeGuid, uniqGuid, name, partStart, partSize);
    if r.Ok? {
      ghost var t := TableImage(d, 2);
      ghost var k := SlotChoice(t, partNumber);
      ghost var a := StartChoice(SortByStart(Used(t)), partStart, partSize, Get4LE(d[1], OffFirstUsable), Get4LE(d[1], OffLastUsable));
      AddedReadsBack(d, numSectors, t, k.value, NewEntry(typeGuid, uniqGuid, a.value, partSize, name));
    }
  }

  /** mkPartition and writeValidGPT on a disk whose GPT has been read
      and checked. */
  method AddPartition(s: GptSession, gt: GapTable, disk: Disk, ghost d: Image, ghost t: seq<byte>, partNumber: int,
                      typeGuid: seq<byte>, uniqGuid: seq<byte>, name: seq<byte>, partStart: u32, partSize: u32)
    returns (r: Result<int>)
    requires s.Valid() && gt.Valid() && disk.Valid() && disk.sectors == d
    requires 0 <= partNumber <= NumberPartEntries && |typeGuid| == 16 && |uniqGuid| == 16
    requires |d| > 1 && s.primaryTblHdr[..] == d[1] && s.primaryTable[..] == t
    requires 0 <= Get4LE(d[1], OffAltLba) < |d| && s.backupTblHdr[..] == d[Get4LE(d[1], OffAltLba)]
    modifies s.primaryTblHdr, s.primaryTable, s.backupTblHdr, s.crc, s.crc.table.entries, gt, gt.gaps, disk
    ensures var o := AddOutcome(d, t, partNumber, typeGuid, uniqGuid, name, partStart, partSize);
            && (o.Err? ==> r == Err(o.fault) && disk.sectors == d)
            && (o.Ok? ==> r == Ok(o.value.0) && disk.sectors == o.value.1)
  {
    var first := Get4LE(s.primaryTblHdr[..], OffFirstUsable);
    var last := Get4LE(s.primaryTblHdr[..], OffLastUsable);
    assert first == Get4LE(d[1], OffFirstUsable) && last == Get4LE(d[1], OffLastUsable);
    ghost var kr := SlotChoice(t, partNumber);
    ghost var ar := StartChoice(SortByStart(Used(t)), partStart, partSize, first, last);
    r := MkPartition(s.primaryTable, gt, t, partNumber, typeGuid, uniqGuid, name, partStart, partSize, first, last);
    if r.Err? {
      return;
    }
    ghost var k := kr.value;
    ghost var a := ar.value;
    WriteAdded(s, disk, d, t, k, NewEntry(typeGuid, uniqGuid, a, partSize, name));
  }

  /** writeValidGPT after mkPartition filled slot k of the array read from
      disk d. */
  method WriteAdded(s: GptSession, disk: Disk, ghost d: Image, ghost t: seq<byte>, ghost k: int, ghost e: Entry)
    requires s.Valid() && disk.Valid() && disk.sectors == d
    requires |d| > 1 && s.primaryTblHdr[..] == d[1]
    requires 0 <= Get4LE(d[1], OffAltLba) < |d| && s.backupTblHdr[..] == d[Get4LE(d[1], OffAltLba)]
    requires |t| == NumberPartBytes && 0 <= k < NumberPartEntries && GuidsOk(e)
    requires s.primaryTable[..] == Splice(t, SlotBase(k), EncodeEntry(e))
    modifies s.primaryTblHdr, s.backupTblHdr, s.crc, s.crc.table.entries, disk
    ensures disk.sectors == Added(d, t, k, e)
  {
    s.Write(disk);
  }

  /** The entry mkPartition stores in slot k, with a non-zero type, is what
      shgpt then lists as partition k + 1 (its name as stored). */
  lemma ListingShowsAdded(table: seq<byte>, k: int, e: Entry)
    requires |table| == NumberPartBytes && 0 <= k < NumberPartEntries && GuidsOk(e) && !IsZero(e.typeGuid)
    ensures var t := Splice(table, SlotBase(k), EncodeEntry(e));
      exists i :: 0 <= i < |Shgpt.Listing(t)| && Shgpt.Listing(t)[i].number == k + 1
        && Shgpt.Listing(t)[i].entry == e.(name := StoredName(e.name))
  {
    var t := Splice(table, SlotBase(k), EncodeEntry(e));
    FilledSlotUsed(table, k, e);
    SetThenGet(table, k, e, k);
    var r := Shgpt.RowOf(t, k);
    assert r.number == k + 1 && r.entry == e.(name := StoredName(e.name));
    Shgpt.ListingExact(t);
    assert r in Shgpt.Listing(t);
  }
}
