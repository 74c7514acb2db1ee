/** The protective MBR in sector 0 (section 5.2.3 of the UEFI Specification):
    one partition record of OS type 0xEE covering the whole disk behind the
    MBR, three empty records, and the 0x55 0xAA signature. */
module Mbr {
  import opened Bytes
  import opened Layout

  const RecordBase := 446
  const RecordSize := 16
  const OsTypeOffset := 450
  const GptProtective: byte := 0xEE

  /** MBR partition record r, 0 <= r < 4. */
  function Record(mbr: seq<byte>, r: int): seq<byte>
    requires |mbr| == SectorSize && 0 <= r < 4
  {
    mbr[RecordBase + RecordSize * r..RecordBase + RecordSize * r + RecordSize]
  }

  predicate SignatureOk(mbr: seq<byte>)
    requires |mbr| == SectorSize
  {
    mbr[510] == 0x55 && mbr[511] == 0xAA
  }

  /** The record makeProtectiveMBR puts first: not bootable, CHS 0x000200 to
      0xFFFFFF, OS type 0xEE, starting at LBA 1 and numSectors - 1 long. */
  function ProtectiveRecord(numSectors: u32): (rec: seq<byte>)
    ensures |rec| == RecordSize
  {
    [0x00, 0x00, 0x02, 0x00, GptProtective, 0xFF, 0xFF, 0xFF] + Le4(1) + Le4(Wrap32(numSectors - 1))
  }

  /** The sector makeProtectiveMBR builds, in layout order: boot code, disk
      signature and the two unknown bytes all zero, the protective record,
      three empty records, the signature. */
  function ProtectiveMbrImage(numSectors: u32): (mbr: seq<byte>)
    ensures |mbr| == SectorSize
  {
    Zeros(RecordBase) + ProtectiveRecord(numSectors) + Zeros(3 * RecordSize) + [0x55, 0xAA]
  }

  /** The fields of the built MBR, as the protective MBR layout demands. */
  lemma ProtectiveMbrFields(numSectors: u32)
    ensures var mbr := ProtectiveMbrImage(numSectors);
      && IsZero(mbr[..RecordBase])
      && mbr[OsTypeOffset] == GptProtective
      && Get4LE(mbr, 454) == 1
      && Get4LE(mbr, 458) == Wrap32(numSectors - 1)
      && (forall r :: 1 <= r < 4 ==> IsZero(Record(mbr, r)))
      && SignatureOk(mbr)
  {
    var mbr := ProtectiveMbrImage(numSectors);
    assert mbr[454..462] == Le4(1) + Le4(Wrap32(numSectors - 1));
    Get4LEOfLe4(1);
    Get4LEOfLe4(Wrap32(numSectors - 1));
    Get4LEOfSlice(mbr, 454, Le4(1));
    Get4LEOfSlice(mbr, 458, Le4(Wrap32(numSectors - 1)));
    assert mbr[RecordBase + RecordSize..510] == Zeros(3 * RecordSize);
  }

  /** A sector assembled from the four parts of the image is the image. */
  lemma ImageFromParts(s: seq<byte>, numSectors: u32)
    requires |s| == SectorSize
    requires s[..RecordBase] == Zeros(RecordBase)
    requires s[RecordBase..RecordBase + RecordSize] == ProtectiveRecord(numSectors)
    requires forall j :: RecordBase + RecordSize <= j < 510 ==> s[j] == 0
    requires s[510] == 0x55 && s[511] == 0xAA
    ensures s == ProtectiveMbrImage(numSectors)
  {
    var img := ProtectiveMbrImage(numSectors);
    forall j | 0 <= j < SectorSize
      ensures s[j] == img[j]
    {
      if j < RecordBase {
        assert s[j] == s[..RecordBase][j];
      } else if j < RecordBase + RecordSize {
        assert s[j] == s[RecordBase..RecordBase + RecordSize][j - RecordBase];
      }
    }
  }

  /** The protective partition record at offset 446: eight single bytes,
      then the starting LBA and the size through put4LE. */
  method PutProtectiveRecord(buf: array<byte>, numSectors: u32)
    requires buf.Length == SectorSize
    modifies buf
    ensures buf[..] == Splice(old(buf[..]), RecordBase, ProtectiveRecord(numSectors))
  {
    ghost var s0 := buf[..];
    ghost var head: seq<byte> := [0x00, 0x00, 0x02, 0x00, GptProtective, 0xFF, 0xFF, 0xFF];
    buf[446] := 0x00;
    buf[447] := 0x00;
    buf[448] := 0x02;
    buf[449] := 0x00;
    buf[450] := GptProtective;
    buf[451] := 0xFF;
    buf[452] := 0xFF;
    buf[453] := 0xFF;
    SpliceOfParts(s0, RecordBase, head, buf[..]);
    Put4LE(buf, 454, 1);
    SpliceAppend(s0, RecordBase, head, Le4(1));
    Put4LE(buf, 458, Wrap32(numSectors - 1));
    SpliceAppend(s0, RecordBase, head + Le4(1), Le4(Wrap32(numSectors - 1)));
  }

  /** makeProtectiveMBR: fill the 512-byte buffer field by field. */
  method MakeProtectiveMbr(buf: array<byte>, numSectors: u32)
    requires buf.Length == SectorSize
    modifies buf
    ensures buf[..] == ProtectiveMbrImage(numSectors)
  {
    // boot code, MBR disk signature, two unknown bytes
    var i := 0;
    while i < 440
      invariant 0 <= i <= 440
      invariant forall j :: 0 <= j < i ==> buf[j] == 0
    {
      buf[i] := 0x00;
      i := i + 1;
    }
    i := 440;
    while i < 444
      invariant 440 <= i <= 444
      invariant forall j :: 0 <= j < i ==> buf[j] == 0
    {
      buf[i] := 0x00;
      i := i + 1;
    }
    buf[444] := 0x00;
    buf[445] := 0x00;
    ghost var head := buf[..];
    assert head[..RecordBase] == Zeros(RecordBase);
    // the protective partition record
    PutProtectiveRecord(buf, numSectors);
    ghost var rec := buf[..];
    SplicePrefix(head, RecordBase, ProtectiveRecord(numSectors), RecordBase);
    // three empty records
    i := 462;
    while i < SectorSize - 2
      invariant 462 <= i <= SectorSize - 2
      invariant buf[..462] == rec[..462]
      invariant forall j :: 462 <= j < i ==> buf[j] == 0
    {
      buf[i] := 0x00;
      i := i + 1;
    }
    buf[SectorSize - 2] := 0x55;
    buf[SectorSize - 1] := 0xAA;
    assert buf[..462] == rec[..462];
    assert buf[..][RecordBase..RecordBase + RecordSize] == rec[..462][RecordBase..];
    ImageFromParts(buf[..], numSectors);
  }

  /** The warnings for the non-empty MBR records r..3, in record order. */
  function RecordWarnings(mbr: seq<byte>, r: int): (w: seq<Warning>)
    requires |mbr| == SectorSize && 1 <= r <= 4
    ensures |w| <= 4 - r
    decreases 4 - r
  {
    if r == 4 then []
    else (if IsZero(Record(mbr, r)) then [] else [MbrRecordNotEmpty(r + 1)]) + RecordWarnings(mbr, r + 1)
  }

  /** Records r..3 draw a warning exactly when they are not all zero, and
      each warning names its record (numbered from 1). */
  lemma {:induction false} RecordWarningsExact(mbr: seq<byte>, r: int)
    requires |mbr| == SectorSize && 1 <= r <= 4
    ensures forall k :: r <= k < 4 ==> (MbrRecordNotEmpty(k + 1) in RecordWarnings(mbr, r) <==> !IsZero(Record(mbr, k)))
    ensures forall x :: x in RecordWarnings(mbr, r) ==> x.MbrRecordNotEmpty? && r + 1 <= x.record <= 4
    decreases 4 - r
  {
    if r < 4 {
      RecordWarningsExact(mbr, r + 1);
    }
  }

  /** checkProtMBR / showProtectiveMBR: the OS type of record 1 is checked
      first, then each of records 2..4 that is not all zero draws a warning,
      then the signature is checked. */
  function CheckProtMbr(mbr: seq<byte>): (c: Check)
    requires |mbr| == SectorSize
    ensures c.Pass? <==> mbr[OsTypeOffset] == GptProtective && SignatureOk(mbr)
    ensures mbr[OsTypeOffset] != GptProtective ==> c == Fail([], MbrOsType)
    ensures mbr[OsTypeOffset] == GptProtective ==> c.warnings == RecordWarnings(mbr, 1)
    ensures mbr[OsTypeOffset] == GptProtective && c.Fail? ==> c.fault == MbrSignature
  {
    Require(mbr[OsTypeOffset] == GptProtective, MbrOsType)
      .Then(Pass(RecordWarnings(mbr, 1)))
      .Then(Require(SignatureOk(mbr), MbrSignature))
  }

  /** The MBR check warns about exactly the non-empty records 2..4 of a
      protective MBR, and about nothing else. */
  lemma CheckProtMbrWarnings(mbr: seq<byte>)
    requires |mbr| == SectorSize
    ensures mbr[OsTypeOffset] == GptProtective ==>
      forall k :: 1 <= k < 4 ==> (MbrRecordNotEmpty(k + 1) in CheckProtMbr(mbr).warnings <==> !IsZero(Record(mbr, k)))
    ensures forall x :: x in CheckProtMbr(mbr).warnings ==> x.MbrRecordNotEmpty? && 2 <= x.record <= 4
  {
    RecordWarningsExact(mbr, 1);
  }

  /** A freshly built protective MBR passes the check without a warning. */
  lemma ProtectiveMbrAccepted(numSectors: u32)
    ensures CheckProtMbr(ProtectiveMbrImage(numSectors)) == Pass([])
  {
    var mbr := ProtectiveMbrImage(numSectors);
    ProtectiveMbrFields(numSectors);
  }

  /** The MBR after readBootCode: the boot code over the start of the sector
      and, in the disk/ copy of mkgpt, the number of manager sectors
      big-endian in bytes 4..7 (the boot code runs on a big-endian CPU). */
  function BootImage(mbr: seq<byte>, boot: seq<byte>, mngrSectors: u32, patch: bool): (r: seq<byte>)
    requires |mbr| == SectorSize && |boot| <= MaxBootCode
    ensures |r| == SectorSize
  {
    var withCode := Splice(mbr, 0, boot);
    if patch then Splice(withCode, 4, Be4(mngrSectors)) else withCode
  }

  /** Two sectors that agree from byte 440 on draw the same verdict from
      the MBR check: it reads nothing in front of the disk signature. */
  lemma CheckProtMbrReadsTail(a: seq<byte>, b: seq<byte>)
    requires |a| == SectorSize && |b| == SectorSize
    requires forall i :: MaxBootCode <= i < SectorSize ==> a[i] == b[i]
    ensures CheckProtMbr(a) == CheckProtMbr(b)
  {
    forall k | 0 <= k < 4
      ensures Record(a, k) == Record(b, k)
    {
      var base := RecordBase + RecordSize * k;
      forall j | 0 <= j < RecordSize
        ensures Record(a, k)[j] == Record(b, k)[j]
      {
        assert Record(a, k)[j] == a[base + j];
        assert Record(b, k)[j] == b[base + j];
      }
    }
    assert RecordWarnings(a, 3) == RecordWarnings(b, 3);
    assert RecordWarnings(a, 2) == RecordWarnings(b, 2);
    assert RecordWarnings(a, 1) == RecordWarnings(b, 1);
  }

  /** Loading boot code leaves the partition records and the signature alone,
      so it does not change the verdict of the MBR check. */
  lemma BootCodeKeepsProtection(mbr: seq<byte>, boot: seq<byte>, mngrSectors: u32, patch: bool)
    requires |mbr| == SectorSize && |boot| <= MaxBootCode
    ensures forall i :: MaxBootCode <= i < SectorSize ==> BootImage(mbr, boot, mngrSectors, patch)[i] == mbr[i]
    ensures CheckProtMbr(BootImage(mbr, boot, mngrSectors, patch)) == CheckProtMbr(mbr)
  {
    var r := BootImage(mbr, boot, mngrSectors, patch);
    forall i | MaxBootCode <= i < SectorSize
      ensures r[i] == mbr[i]
    {
      SpliceAt(mbr, 0, boot, i);
      if patch {
        SpliceAt(Splice(mbr, 0, boot), 4, Be4(mngrSectors), i);
      }
    }
    CheckProtMbrReadsTail(r, mbr);
  }

  /** The patched bytes 4..7 read back, big-endian, as the manager sector count;
      the rest of the boot code is stored as given. */
  lemma BootPatchReadsBack(mbr: seq<byte>, boot: seq<byte>, mngrSectors: u32)
    requires |mbr| == SectorSize && |boot| <= MaxBootCode
    ensures BigEndian(BootImage(mbr, boot, mngrSectors, true)[4..8]) == mngrSectors
    ensures forall i :: 0 <= i < |boot| && !(4 <= i < 8) ==> BootImage(mbr, boot, mngrSectors, true)[i] == boot[i]
    ensures BootImage(mbr, boot, mngrSectors, false)[..|boot|] == boot
  {
    BigEndianOfBe4(mngrSectors);
    forall i | 0 <= i < |boot| && !(4 <= i < 8)
      ensures BootImage(mbr, boot, mngrSectors, true)[i] == boot[i]
    {
      SpliceAt(mbr, 0, boot, i);
      SpliceAt(Splice(mbr, 0, boot), 4, Be4(mngrSectors), i);
    }
  }

  /** readBootCode, once the file has been read into boot: reject code
      larger than 440 bytes, copy it over the start of the MBR and, when
      patch is set (disk/mkgpt), store the manager sector count big-endian
      in bytes 4..7. */
  method ReadBootCode(mbr: array<byte>, boot: seq<byte>, mngrSectors: int, patch: bool) returns (c: Check)
    requires mbr.Length == SectorSize && 0 <= mngrSectors <= MaxMngrSectors
    modifies mbr
    ensures c.warnings == []
    ensures c.Pass? <==> |boot| <= MaxBootCode
    ensures c.Fail? ==> c.fault == BootCodeTooBig && mbr[..] == old(mbr[..])
    ensures c.Pass? ==> mbr[..] == BootImage(old(mbr[..]), boot, mngrSectors, patch)
  {
    if |boot| > MaxBootCode {
      return Fail([], BootCodeTooBig);
    }
    CopyInto(mbr, 0, boot);
    if patch {
      ghost var before := mbr[..];
      mbr[4] := (mngrSectors / 0x100_0000 % 256) as byte;
      mbr[5] := (mngrSectors / 0x1_0000 % 256) as byte;
      mbr[6] := (mngrSectors / 0x100 % 256) as byte;
      mbr[7] := (mngrSectors % 256) as byte;
      forall i | 0 <= i < SectorSize
        ensures mbr[i] == Splice(before, 4, Be4(mngrSectors))[i]
      {
        SpliceAt(before, 4, Be4(mngrSectors), i);
      }
    }
    c := Pass([]);
  }
}
