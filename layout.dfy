/** Disk geometry shared by every GPT tool, and the outcomes of their checks.

    The tools stop the process on the first fatal condition (error) and print
    a line for each non-fatal one (warning); here a check yields the warnings
    it printed, in order, and either passes or fails with the fault that
    stopped it. */
module Layout {

  const SectorSize := 512
  const MinNumberSectors := 4096
  const NumberPartEntries := 128
  const SizeofPartEntry := 128
  const NumberPartBytes := NumberPartEntries * SizeofPartEntry
  const NumberPartSectors := NumberPartBytes / SectorSize
  const FirstMngrSector := 2 + NumberPartSectors
  const MaxMngrSectors := 2014
  const FirstUsableSector := FirstMngrSector + MaxMngrSectors
  /** Largest boot code that fits in front of the MBR disk signature. */
  const MaxBootCode := 440

  /** Which of the two GPT copies a message is about. */
  datatype Role = Primary | Backup

  datatype Warning =
    | MbrRecordNotEmpty(record: int)   // MBR partition 2..4 holds data
    | BackupNotAtEnd                   // primary altLBA is not the last sector
    | FirstUsableUnexpected
    | LastUsableUnexpected

  datatype Fault =
    | SectorUnreadable
    | MbrOsType
    | MbrSignature
    | HdrSignature(role: Role)
    | HdrRevision
    | HdrSize
    | HdrCrc(role: Role)
    | HdrReserved
    | HdrMyLba(role: Role)
    | HdrAltLba
    | HdrTableStart
    | HdrEntryCount
    | HdrEntrySize
    | HdrPadding
    | DiskUuidMismatch
    | TableCrcMismatch
    | TableCrc(role: Role)
    | PartNumberOutOfRange
    | NoFreeSlot
    | SlotInUse(partNumber: int)
    | Overlapping
    | TooBig
    | BadExtent
    | NoGap
    | NotEnoughSpace
    | BootCodeTooBig
    | MngrCodeTooBig
    | DiskTooSmall

  datatype Result<T> = Ok(value: T) | Err(fault: Fault)

  datatype Check = Pass(warnings: seq<Warning>) | Fail(warnings: seq<Warning>, fault: Fault)
  {
    /** Sequencing: next runs only when this check passed; warnings accumulate. */
    function Then(next: Check): (r: Check)
      ensures r.Pass? <==> this.Pass? && next.Pass?
      ensures this.Fail? ==> r == this
      ensures this.Pass? ==> r.warnings == this.warnings + next.warnings
      ensures this.Pass? && next.Fail? ==> r.fault == next.fault
    {
      if this.Fail? then this
      else if next.Pass? then Pass(warnings + next.warnings)
      else Fail(warnings + next.warnings, next.fault)
    }
  }

  /** error(...) unless cond holds. */
  function Require(cond: bool, f: Fault): (c: Check)
    ensures c.Pass? <==> cond
    ensures c.warnings == []
    ensures c.Fail? ==> c.fault == f
  {
    if cond then Pass([]) else Fail([], f)
  }

  /** warning(...) unless cond holds; never fatal. */
  function Warn(cond: bool, w: Warning): (c: Check)
    ensures c.Pass?
    ensures c.warnings == if cond then [] else [w]
  {
    if cond then Pass([]) else Pass([w])
  }
}
