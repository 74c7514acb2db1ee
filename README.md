# GPT structural engine of the ECO32 disk tools

This project models the code that the ECO32 partitioning tools share for the
GUID partition table (GPT) of a disk image. The layout is the one that chapter 5
of the UEFI Specification fixes:

- section 5.2.3: the protective MBR;
- section 5.3.2: the GPT header;
- section 5.3.3: the partition entry array.

The tools are:

- **mkgpt** (`disk/mkgpt/mkgpt.c`, `disk-GPT/mkgpt/mkgpt.c`) writes a fresh GPT:
  - a protective MBR, optionally with boot code;
  - an empty primary array and header;
  - the backup array and header at the end of the disk;
  - optionally the boot manager in sectors 34 to 2047.
- **shgpt** (`disk/shgpt/shgpt.c`, `disk-GPT/shgpt/shgpt.c`) checks every field of the MBR and both headers, cross-checks the headers and both arrays, and lists the used partition slots.
- **mkpart** (`disk-GPT/mkpart/mkpart.c`) adds one partition:
  1. It checks the GPT (checkValidGPT).
  2. It builds a sorted list of free gaps from the used entries.
  3. It places the partition first-fit, or at a start sector that was asked for.
  4. It fills the slot.
  5. It rewrites both copies with fresh CRCs (writeValidGPT).
- **src/gpt.c** keeps the same read/check/write session in static buffers (gptRead, gptWrite), plus an entry codec (gptGetEntry, gptSetEntry).

The near-duplicate files share one model:

- the two shgpt copies differ only in a macro name;
- the two mkgpt copies differ in the order of the writes and in the boot-code patch;
- `src/gpt.c` repeats the read/write half of mkpart.

## How the model is built

The modules follow the structure of the source:

| module | file | models |
|---|---|---|
| `Bytes` | bytes.dfy | bytes and `unsigned int` values; get4LE/put4LE/put8LE, xchg4LE/xchg8LE and isZero; memset/memcpy as writes into arrays |
| `Layout` | layout.dfy | the size and position constants, and a `Check` outcome (`Pass(warnings)` or `Fail(warnings, fault)`) standing for `warning()`/`error()` |
| `Crc32` | crc32.dfy | the table-driven CRC-32, a bit-serial reference, the eager table and the lazily initialised table of src/gpt.c |
| `Guid` | guid.dfy | uuid_copyLE |
| `Mbr` | mbr.dfy | makeProtectiveMBR, checkProtMBR/showProtectiveMBR, readBootCode |
| `Header` | header.dfy | makePartTblHdr, makeBackupTblHdr, showPartTblHdr, showBackupTblHdr |
| `Entries` | entries.dfy | the 128-byte slot codec of gptSetEntry/gptGetEntry/mkPartition/showPartTable |
| `Sectors` | disk.dfy | the disk image as a sequence of 512-byte sectors behind rdSector/wrSector, and the 32-sector array read and write loops |
| `Session` | session.dfy | the static buffers of src/gpt.c and mkpart as a class: checkValidGPT/gptRead, writeValidGPT/gptWrite, gptGetEntry/gptSetEntry |
| `Allocator` | allocator.dfy | buildSortedTable, recordGaps, buildGapTable, findGap, checkGap, with gapTable/numGaps as fields of a class |
| `Shgpt` | shgpt.dfy | shgpt's verdict on a disk and its listing of the partition array |
| `Mkpart` | mkpart.dfy | mkPartition and mkpart's main |
| `Mkgpt` | mkgpt.dfy | readMngrCode, makePartTable and both mains of mkgpt |

### Modelling choices

**Buffers.**

- The builders fill caller-owned `array<byte>` buffers in place, as the C code does.
- Each builder's `ensures` ties the new contents to a specification function of the inputs. For example, `buf[..] == PrimaryHeaderImage(numSectors, diskGuid, tableCrc)`.
- The field-level facts the source promises are lemmas about those functions.

**Errors.**

- `error()` ends a run with a `Fault`, and `warning()` adds a `Warning`.
- Each verdict is a function of the disk image and is proved equal to a plain statement of what it demands. For example, `ShowVerdictPass` says that shgpt accepts exactly the disks that meet `Accepted`.

**Integers.** C `unsigned int` arithmetic is written out with `Wrap32` wherever the source can wrap:

- `numSectors - 1`;
- `prevTop = end + 1`;
- `partStart + partSize - 1`;
- checkGap's `base + size`.

**The alternate-LBA test.** shgpt treats an alternate LBA other than N−1 in the primary header as fatal. checkValidGPT and gptRead only warn about it. The model follows each tool.

## Model

| member | source | states |
|---|---|---|
| Bytes.Get4LEOfLe4 | disk/mkgpt/mkgpt.c:85-98 | get4LE reads back the value put4LE stored |
| Bytes.Le4OfGet4LE | disk-GPT/mkpart/mkpart.c:99-113 | put4LE of the value get4LE read gives back the same four bytes, so the codec is a bijection on 4-byte fields |
| Bytes.Get4LEOfSplice | disk-GPT/mkpart/mkpart.c:99-113 | after put4LE(v) into any buffer, get4LE at the same offset returns v |
| Bytes.Get4LEOfSpliceElsewhere | disk-GPT/mkpart/mkpart.c:99-113 | a write that does not overlap a field leaves get4LE of that field unchanged |
| Bytes.Put4LE | disk/mkgpt/mkgpt.c:93-98 | put4LE changes exactly bytes off..off+3, to the little-endian bytes of v |
| Bytes.Put8LE | disk/mkgpt/mkgpt.c:101-104 | put8LE writes v into the low word and 0 into the high word and changes nothing else |
| Header.Get4LEOfLe8 | disk/mkgpt/mkgpt.c:101-104 | the 8-byte field put8LE wrote reads back as v in the low word and 0 in the high word |
| Bytes.IsZeroScan | disk-GPT/mkpart/mkpart.c:115-125 | the OR loop of isZero returns true exactly when every byte is zero |
| Bytes.OrZero | disk-GPT/mkpart/mkpart.c:115-125 | the OR of two values is zero exactly when both are zero, which is why the accumulated OR detects any non-zero byte |
| Bytes.Xchg4LE | disk/mkgpt/mkgpt.c:107-114 | xchg4LE exchanges the two 4-byte fields and leaves every other byte alone |
| Bytes.SwapRangesTwice | disk/mkgpt/mkgpt.c:107-114 | exchanging the same two fields twice restores the buffer |
| Bytes.Xchg8LE | disk/mkgpt/mkgpt.c:117-120 | xchg8LE is the low-word exchange followed by the high-word exchange |
| Bytes.SwapPairAt | disk/mkgpt/mkgpt.c:117-120 | the two word exchanges of xchg8LE, byte by byte, exchange the two whole 8-byte fields; bytes outside both fields are unchanged |
| Bytes.SwapPairTwice | disk/mkgpt/mkgpt.c:117-120 | xchg8LE applied twice to the same fields gives the original buffer |
| Bytes.ZeroFill | disk/mkgpt/mkgpt.c:271-273 | memset of len bytes zeroes exactly that range |
| Bytes.CopyInto | disk/mkgpt/mkgpt.c:334 | memcpy puts src at off and leaves the rest of the buffer alone |
| Bytes.BigEndianOfBe4 | disk/mkgpt/mkgpt.c:226-229 | the four bytes stored most significant first read back, big-endian, as the stored value |
| Crc32.Crc32 | disk-GPT/mkpart/mkpart.c:84-97 | the CRC of an empty buffer is 0, because the final XOR undoes the initial 0xFFFFFFFF |
| Crc32.FoldAppend | disk-GPT/mkpart/mkpart.c:84-97 | the crc32Sum loop is a left fold: the register after a + b is the register after a, run on through b |
| Crc32.UpdateIsBitwise | disk-GPT/mkpart/mkpart.c:66-91 | one table-driven step (crc >> 8) ^ table[(crc ^ b) & 0xFF] equals eight bit-serial steps with the reflected polynomial 0xEDB88320 |
| Crc32.FoldIsBitwise | disk-GPT/mkpart/mkpart.c:84-91 | the table-driven loop over any buffer equals the bit-serial loop |
| Crc32.Crc32IsBitwise | disk-GPT/mkpart/mkpart.c:66-97 | crc32Sum is the standard reflected CRC-32 (init and final XOR 0xFFFFFFFF) computed one bit at a time |
| Crc32.StepsLinear | disk-GPT/mkpart/mkpart.c:66-81 | the eight shift-and-XOR steps of crc32Init are linear over XOR, which is what lets one table entry per byte stand for eight bit steps |
| Crc32.Crc32Table.Init | disk-GPT/mkpart/mkpart.c:66-81 | crc32Init fills entry n with n run through eight conditional shift-and-XOR steps |
| Crc32.Crc32Table.Sum | disk-GPT/mkpart/mkpart.c:84-97 | crc32Sum over a filled table returns the CRC-32 of the buffer |
| Crc32.LazyCrc32.constructor | src/gpt.c:84-88 | the table starts out not initialised |
| Crc32.LazyCrc32.Sum | src/gpt.c:84-98 | the lazily initialised crc32Sum returns the same CRC as the eager version and leaves the table filled with initDone set |
| Guid.CopyLE | disk-GPT/mkpart/mkpart.c:130-144 | uuid_copyLE copies bytes 8..15 unchanged |
| Guid.CopyLEReversesFields | disk-GPT/mkpart/mkpart.c:130-144 | uuid_copyLE reverses the 4-, 2- and 2-byte leading fields and keeps the rest |
| Guid.CopyLETwice | disk-GPT/mkpart/mkpart.c:130-144 | uuid_copyLE is an involution: applied twice it gives the original 16 bytes |
| Guid.TimeLowIsLittleEndian | disk-GPT/mkpart/mkpart.c:130-137 | the stored first field read little-endian equals the uuid_t first field read big-endian |
| Guid.UuidCopyLE | disk/mkgpt/mkgpt.c:126-140 | the byte moves and the copy loop write CopyLE(src) at off and nothing else |
| Mbr.ProtectiveMbrFields | disk/mkgpt/mkgpt.c:159-195 | the built MBR has bytes 0..445 zero, OS type 0xEE at 450, start LBA 1, size N−1 (32-bit), records 2..4 zero and the 55 AA signature |
| Mbr.PutProtectiveRecord | disk/mkgpt/mkgpt.c:179-188 | the record stores write 00, 00 02 00, EE, FF FF FF, LBA 1 and N−1 at 446..461 and nothing else |
| Mbr.MakeProtectiveMbr | disk-GPT/mkgpt/mkgpt.c:159-195 | makeProtectiveMBR leaves the buffer equal to the protective MBR image for numSectors, whatever it held before |
| Mbr.RecordWarningsExact | disk-GPT/shgpt/shgpt.c:190-194 | the warning for MBR partition k+1 is issued exactly when record k is not all zero, and no other warning is issued |
| Mbr.CheckProtMbr | disk-GPT/shgpt/shgpt.c:187-197 | the MBR check fails exactly when byte 450 is not 0xEE or bytes 510/511 are not 55 AA; the OS type is tested first; the warnings are those of records 2..4 |
| Mbr.CheckProtMbrWarnings | disk/shgpt/shgpt.c:187-197 | the check warns about exactly the non-empty records 2..4 and never about anything else |
| Mbr.ProtectiveMbrAccepted | disk-GPT/mkpart/mkpart.c:180-197 | the MBR makeProtectiveMBR builds passes checkProtMBR with no warning |
| Mbr.CheckProtMbrReadsTail | disk-GPT/mkpart/mkpart.c:180-197 | the MBR check depends only on bytes 440..511 |
| Mbr.BootCodeKeepsProtection | disk/mkgpt/mkgpt.c:213-220 | boot code of at most 440 bytes leaves bytes 440..511, and so the MBR verdict, unchanged |
| Mbr.BootPatchReadsBack | disk/mkgpt/mkgpt.c:224-229 | after the patch, bytes 4..7 read big-endian give mngrSectors and all other boot bytes are the file's; without the patch the boot code is stored as read |
| Mbr.ReadBootCode | disk/mkgpt/mkgpt.c:198-230 | boot code over 440 bytes is rejected with the buffer untouched; otherwise it is stored at offset 0, and patched with the manager sector count when patch is set (disk-GPT/mkgpt/mkgpt.c:198-222 has no patch) |
| Header.SignatureOkIff | disk-GPT/shgpt/shgpt.c:224-261 | the strncpy/strcmp signature test accepts exactly the headers whose first eight bytes are "EFI PART" |
| Header.SealOk | disk-GPT/mkpart/mkpart.c:296-298 | a sealed header carries a correct header CRC, and sealing changes only bytes 16..19 |
| Header.IdentityCheck | disk-GPT/shgpt/shgpt.c:259-273 | the signature, revision 0x00010000, header size 92 and header CRC tests pass exactly when all four hold; a bad signature is reported first |
| Header.UsableWarnings | disk-GPT/shgpt/shgpt.c:285-292 | a first usable LBA other than 2048 or a last usable LBA other than N−34 (32-bit) only adds a warning, each one separately |
| Header.TableFieldsCheck | disk-GPT/shgpt/shgpt.c:294-307 | array start at the expected LBA, 128 entries of 128 bytes and zero bytes 92..511 are all required |
| Header.PrimaryPlacementCheck | disk-GPT/shgpt/shgpt.c:274-284 | zero reserved bytes 20..23, myLBA 1 and altLBA N−1 (high words 0) are all required |
| Header.BackupPlacementCheck | disk-GPT/shgpt/shgpt.c:381-391 | a zero reserved word, myLBA N−1 and altLBA 1 are all required |
| Header.PrimaryHeaderCheck | disk-GPT/shgpt/shgpt.c:259-307 | showPartTblHdr passes exactly when the identity, placement and array-field tests pass; a passing header's only warnings are the usable-LBA ones |
| Header.BackupHeaderCheck | disk/shgpt/shgpt.c:366-414 | showBackupTblHdr passes exactly when the identity, backup placement and array-at-N−33 tests pass; a passing header's only warnings are the usable-LBA ones |
| Header.ReservedTestsAgree | disk-GPT/shgpt/shgpt.c:381-383 | the primary's byte-wise isZero test of bytes 20..23 and the backup's get4LE test accept the same headers |
| Header.IdentityValues | disk/mkgpt/mkgpt.c:287-297 | bytes 0..23 hold "EFI PART", revision 0x00010000, size 92, a zero CRC field and a zero reserved word |
| Header.LbaValues | disk/mkgpt/mkgpt.c:298-305 | bytes 24..55 hold myLBA 1, altLBA N−1, first usable 2048 and last usable N−34, each with a zero high word |
| Header.TableValues | disk/mkgpt/mkgpt.c:306-318 | bytes 56..91 hold the GUID through uuid_copyLE, array LBA 2, 128 entries, entry size 128 and the array CRC |
| Header.ImageParts | disk/mkgpt/mkgpt.c:287-325 | the sealed primary sector carries a correct header CRC, keeps every field outside the CRC as written, and has zero padding 92..511 |
| Header.ImageIdentityValues | disk/mkgpt/mkgpt.c:287-325 | the sealed primary header has the signature, revision, size, a correct CRC, a zero reserved word and zero padding |
| Header.ImageLbaValues | disk/mkgpt/mkgpt.c:298-305 | the sealed primary header has myLBA 1, altLBA N−1, first usable 2048 and last usable N−34 |
| Header.ImageTableValues | disk/mkgpt/mkgpt.c:306-318 | the sealed primary header has the disk GUID, array LBA 2, 128 by 128 entries and the given array CRC |
| Header.PrimaryHeaderAccepted | disk/mkgpt/mkgpt.c:279-326 | the header makePartTblHdr builds passes showPartTblHdr with no warning |
| Header.BackupFieldsAt | disk/mkgpt/mkgpt.c:334-336 | byte by byte, the unsealed backup is the primary with myLBA and altLBA exchanged and the array LBA set to N−33 |
| Header.BackupAgreesWithPrimary | disk/mkgpt/mkgpt.c:329-340 | the backup carries a correct header CRC and equals the primary except in the CRC field, the exchanged LBAs and the array LBA |
| Header.BackupWordsKept | disk/mkgpt/mkgpt.c:334-336 | signature, revision, size, reserved word, usable LBAs, entry count and size, and the padding are copied from the primary |
| Header.BackupWordsMoved | disk/mkgpt/mkgpt.c:335-336 | the backup's myLBA is the primary's altLBA and the reverse; its array LBA is N−33 |
| Header.BackupOfCleanPrimary | disk-GPT/mkgpt/mkgpt.c:319-330 | the backup derived from any primary that passes showPartTblHdr without a warning passes showBackupTblHdr without a warning |
| Header.CleanBackup | disk/shgpt/shgpt.c:366-414 | any sector that agrees with a clean primary the way makeBackupTblHdr's result does, and whose CRC is correct, passes showBackupTblHdr without a warning |
| Header.BackupHeaderAccepted | disk/mkgpt/mkgpt.c:329-340 | the backup mkgpt derives from its own primary passes showBackupTblHdr with no warning |
| Header.SealZeroed | disk/mkgpt/mkgpt.c:323-325 | with the CRC field zero, sealing stores the CRC-32 of bytes 0..91 at offset 16 |
| Header.FieldsCrcZero | disk/mkgpt/mkgpt.c:293-295 | before sealing the header CRC field holds 0 |
| Header.PutHeaderIdentity | disk/mkgpt/mkgpt.c:287-297 | the first stores write bytes 0..23 as HeaderIdentity and nothing else |
| Header.PutHeaderLbas | disk/mkgpt/mkgpt.c:298-305 | the four put8LE calls write bytes 24..55 and nothing else |
| Header.PutHeaderTable | disk/mkgpt/mkgpt.c:306-318 | the GUID, array LBA, entry count, entry size and array CRC stores write bytes 56..91 and nothing else |
| Header.MakePartTblHdr | disk/mkgpt/mkgpt.c:279-326 | makePartTblHdr leaves the buffer equal to the primary header image for numSectors, GUID and array CRC |
| Header.MakeBackupTblHdr | disk/mkgpt/mkgpt.c:329-340 | makeBackupTblHdr leaves the buffer equal to the backup derived from the primary |
| Entries.NameFrom | disk-GPT/shgpt/shgpt.c:456-462 | the name a reader collects holds only non-zero bytes taken from the even offsets 56+2j, and stops at a NUL unless 36 units are used |
| Entries.StoredName | src/gpt.c:369-375 | the stored name is the C string cut to at most 35 characters; a shorter string is stored whole |
| Entries.NameFieldAt | src/gpt.c:369-375 | the 72-byte name area holds character j/2 at even offsets and zero everywhere else |
| Entries.EncodeEntry | src/gpt.c:360-375 | the bytes gptSetEntry stores for an entry always fill exactly one 128-byte slot |
| Entries.DecodeEntry | src/gpt.c:333-347 | gptGetEntry yields two 16-byte GUIDs, so every entry it reads can be stored again by gptSetEntry |
| Entries.DecodeReadsSlot | src/gpt.c:333-347 | gptGetEntry depends on nothing but the slot's 128 bytes |
| Entries.EncodedHead | src/gpt.c:360-368 | the encoded slot decodes, through uuid_copyLE, to the type and unique GUIDs, and get4LE gives start, end and attributes |
| Entries.EncodedName | src/gpt.c:369-375 | the name read from an encoded slot is the stored (truncated) name |
| Entries.DecodeOfEncode | src/gpt.c:324-376 | decoding an encoded entry gives the entry back, with the name as stored |
| Entries.DecodeEncoded | src/gpt.c:324-376 | gptGetEntry on a slot written by gptSetEntry returns the same GUIDs, start, end and attributes and the name cut to 35 characters, wherever the slot lies |
| Entries.DecodeOtherSlot | src/gpt.c:360-375 | writing one slot leaves every other slot decoding as before |
| Entries.HeadWrites | src/gpt.c:361-368 | the memset followed by the GUID and field stores gives the entry head followed by a cleared name area |
| Entries.PutName | src/gpt.c:369-375 | the name loop over a cleared area writes the stored name at even offsets and changes nothing else |
| Entries.PutEntry | src/gpt.c:360-375 | clearing and filling a slot leaves exactly the 128 encoded bytes there and changes no other byte |
| Entries.ReadName | src/gpt.c:341-347 | the reading loop returns the name NameFrom describes |
| Entries.GetFields | src/gpt.c:333-347 | the reading steps return the decoded entry of the slot |
| Sectors.WrittenAt | disk-GPT/mkpart/mkpart.c:160-167 | wrSector(n) replaces sector n, keeps every other sector, and extends the image with zero sectors when n lies beyond its end |
| Sectors.TableWrittenAt | disk-GPT/mkpart/mkpart.c:291-294 | the array write loop puts chunk s of the array into sector lba+s and keeps every sector outside the range |
| Sectors.TableImageOfChunks | disk-GPT/mkpart/mkpart.c:238-241 | 32 sectors that hold the 512-byte chunks of an array, in order from lba, are read back by the read loop as that array |
| Sectors.TablePrefixChunk | disk-GPT/mkpart/mkpart.c:238-241 | bytes s·512..s·512+511 of what the read loop collects are sector lba + s (32-bit) |
| Sectors.Disk.ReadSector | disk-GPT/mkpart/mkpart.c:150-157 | rdSector succeeds exactly when the sector exists, copying its 512 bytes into the buffer; a failed read changes nothing |
| Sectors.Disk.WriteSector | disk-GPT/mkpart/mkpart.c:160-167 | wrSector stores the 512 bytes of the buffer as sector n |
| Sectors.ReadWhole | disk-GPT/mkpart/mkpart.c:214 | a one-sector read into a sector buffer fills it with the sector |
| Sectors.ReadTable | disk-GPT/mkpart/mkpart.c:238-241 | the 32-sector read loop succeeds exactly when every sector of the array exists, and then the buffer holds the array read from the disk |
| Sectors.ReadTableSector | disk-GPT/mkpart/mkpart.c:239-240 | one turn of the read loop extends the filled prefix by one sector, or shows that the array cannot be read |
| Sectors.WriteTable | disk-GPT/mkpart/mkpart.c:291-294 | the 32-sector write loop leaves the image written as TableWritten describes |
| Session.MbrVerdict | src/gpt.c:185-202 | checkProtMBR passes exactly when sector 0 exists with OS type 0xEE and the 55 AA signature |
| Session.HeaderTests | src/gpt.c:219-231 | a header read passes exactly when the signature and header CRC are right; a bad signature is reported before a bad CRC |
| Session.PrimaryTests | src/gpt.c:219-242 | the primary needs myLBA 1 (fatal); an altLBA other than N−1 only warns |
| Session.BackupTests | src/gpt.c:254-272 | the backup needs a good signature and CRC and a myLBA equal, in both words, to the primary's altLBA |
| Session.TableVerdictPass | src/gpt.c:243-251 | an array passes exactly when all 32 sectors can be read and hash to the stored CRC; otherwise the fault names the failed read or the CRC |
| Session.PrimaryVerdictPass | src/gpt.c:218-252 | the primary half passes exactly when sector 1 holds a header with signature, CRC and myLBA 1 and the array at LBA 2 hashes to its CRC; its only warning is BackupNotAtEnd |
| Session.BackupVerdictPass | src/gpt.c:253-282 | the backup half passes exactly when the primary's altLBA names an existing sector holding a correct header whose myLBA is that LBA, and the array in the 32 sectors in front of it hashes to its CRC |
| Session.ReadVerdictPass | src/gpt.c:205-283 | gptRead accepts a disk exactly when the MBR, primary and backup verdicts pass, and lists the MBR warnings followed by the primary's |
| Session.ReadVerdict | src/gpt.c:205-283 | a disk gptRead accepts has sector 1, a readable array at LBA 2 and an existing sector at the primary's altLBA |
| Session.RefreshedFields | src/gpt.c:291-303 | after gptWrite's stores a header carries the array CRC at 88 and a correct header CRC, and every other byte is unchanged |
| Session.RefreshedWord | src/gpt.c:291-303 | the refresh keeps every 32-bit field of a header outside the header CRC and the array CRC |
| Session.RefreshedHeaderTests | src/gpt.c:291-303 | a refreshed header that carried the signature passes gptRead's signature and CRC tests, stores the new array CRC and keeps myLBA and altLBA |
| Session.WrittenGptWellFormed | src/gpt.c:286-318 | gptWrite leaves an image of whole sectors, wherever altLBA points |
| Session.CopyWrittenSectors | src/gpt.c:296-304 | one copy written: the header at its sector, chunk s of the array at lba + s, and every other sector unchanged, when the 32 sectors miss the header |
| Session.WrittenGptSectors | disk-GPT/mkpart/mkpart.c:290-311 | with altLBA at least 66, gptWrite leaves sector 0 as it was, the primary header at 1, the array at 2..33, the array again at altLBA − 32.. and the backup header at altLBA |
| Session.PrimaryReadsBack | src/gpt.c:218-252 | the primary half decides as before on a disk whose sector 1 passes the header tests, keeps the LBAs and stores the CRC of the array at LBA 2 |
| Session.BackupReadsBack | src/gpt.c:253-282 | the backup half decides as before on a disk whose header at altLBA passes the header tests, keeps its myLBA and stores the CRC of the array in front of it |
| Session.SameTestsReadBackAt | src/gpt.c:205-283 | gptRead decides as before on a disk that keeps sector 0 and holds such headers and arrays at both copies |
| Session.SameTestsReadBack | src/gpt.c:286-318 | gptWrite of headers that pass the tests, keep the LBAs and store the array CRC leaves a disk gptRead decides on as before |
| Session.WrittenGptReadsBack | src/gpt.c:205-318 | after gptRead accepts a disk whose backup copy lies at LBA 66 or above, gptWrite of any array leaves a disk gptRead accepts with the same warnings |
| Session.BackupArrayOverPrimary | disk-GPT/mkpart/mkpart.c:302-308 | with altLBA 40 the backup array lands on sectors 8..39, over the primary array, so the array read back at LBA 2 is not the array whose CRC the header stores |
| Session.RestoreField | src/gpt.c:225-228 | zeroing the CRC field and writing the saved value back restores the header exactly |
| Session.GptSession.HeaderCrcMatches | src/gpt.c:225-231 | the CRC test answers whether the stored header CRC is right and leaves the header buffer as it was |
| Session.GptSession.SealHeader | src/gpt.c:301-303 | zeroing the CRC field, summing 92 bytes and storing the sum seals the header |
| Session.GptSession.CheckHeader | src/gpt.c:219-231 | the signature and CRC tests on a loaded header return HeaderTests and leave the buffer unchanged |
| Session.GptSession.ReadCheckedTable | src/gpt.c:243-251 | reading an array and comparing its CRC returns TableVerdict; on success the buffer holds the array |
| Session.GptSession.CheckPrimaryHeader | src/gpt.c:219-242 | the primary header tests return PrimaryTests and the stored array CRC |
| Session.GptSession.CheckBackupHeader | src/gpt.c:254-272 | the backup header tests return BackupTests and the stored array CRC |
| Session.GptSession.ReadPrimary | src/gpt.c:218-252 | the primary half returns PrimaryVerdict; on success the buffers hold sector 1 and the array at LBA 2, and the altLBA words are returned |
| Session.GptSession.ReadBackup | src/gpt.c:253-282 | the backup half returns BackupAt; on success the buffers hold the backup header and its array |
| Session.GptSession.Read | src/gpt.c:205-283 | gptRead / checkValidGPT returns ReadVerdict; on success the four buffers hold both headers and both arrays as on disk |
| Session.GptSession.ReadGpt | src/gpt.c:218-282 | the part after the MBR returns GptVerdict and loads the four buffers |
| Session.GptSession.Write | src/gpt.c:286-318 | gptWrite / writeValidGPT refreshes both headers with the primary array's CRC and writes the primary array at 2, the primary header at 1, the array again in front of the altLBA and the backup header at the altLBA |
| Session.GptSession.WriteCopies | src/gpt.c:295-317 | both copies are written in source order, each header sealed before it is written |
| Session.GptSession.WriteCopy | src/gpt.c:296-304 | one copy: the array at lba, then the sealed header at its sector |
| Session.GptSession.GetEntry | src/gpt.c:324-348 | gptGetEntry rejects numbers outside 1..128 and otherwise decodes slot number − 1 |
| Session.GptSession.SetEntry | src/gpt.c:351-376 | gptSetEntry rejects numbers outside 1..128 with the array unchanged and otherwise replaces exactly slot number − 1 with the encoded entry |
| Session.CheckMbr | src/gpt.c:185-202 | checkProtMBR returns MbrVerdict of the disk |
| Session.SetThenGet | src/gpt.c:324-376 | gptGetEntry after gptSetEntry returns the entry, name truncated, for the same number and the old entry for any other number |
| Allocator.UsedBeforeHas | disk-GPT/mkpart/mkpart.c:355-363 | the collected extents are exactly the extents of slots whose type GUID is not zero |
| Allocator.SortByStartSorts | disk-GPT/mkpart/mkpart.c:332-365 | the sorted table is ascending by first sector and a permutation of the used extents |
| Allocator.GapsOkIff | disk-GPT/mkpart/mkpart.c:378-398 | recordGaps succeeds exactly when each extent starts at or after the previous end + 1 (the first at or after firstSector), no extent ends more than one sector before it starts, and the last ends by lastSector |
| Allocator.ExtentsWithin | disk-GPT/mkpart/mkpart.c:378-398 | after a successful run every extent lies within [firstSector, lastSector] |
| Allocator.GapsTile | disk-GPT/mkpart/mkpart.c:369-406 | after a successful run a sector is in a gap exactly when it lies in [firstSector, lastSector] and in no used extent |
| Allocator.GapsSpaced | disk-GPT/mkpart/mkpart.c:369-406 | every gap is non-empty and inside [firstSector, lastSector], the gaps are strictly ascending and disjoint, and there are at most one more than the extents |
| Allocator.AsWrittenAgrees | disk-GPT/mkpart/mkpart.c:369-406 | when no end is 0xFFFFFFFF, no extent ends more than one sector before it starts and lastSector < 0xFFFFFFFF, the 32-bit recordGaps and the corrected one agree |
| Allocator.GapsFrom | disk-GPT/mkpart/mkpart.c:328-406 | the corrected recordGaps records at most one gap more than there are extents, so the 129-entry gapTable never overflows |
| Allocator.GapsAsWrittenFrom | disk-GPT/mkpart/mkpart.c:328-406 | recordGaps as written, in 32-bit arithmetic, also records at most one gap more than there are extents |
| Allocator.LastSectorWraps | disk-GPT/mkpart/mkpart.c:394-398 | with lastSector 0xFFFFFFFF the code as written wraps currBase to 0 and stops with "too big", where the corrected version records the final gap up to 2^32 |
| Allocator.WrapHidesOverrun | disk-GPT/mkpart/mkpart.c:392-398 | an entry ending at 0xFFFFFFFF wraps prevTop to 0: the overrun is not reported and a gap covers a used sector |
| Allocator.BackwardExtentHidesUse | disk-GPT/mkpart/mkpart.c:381-392 | an entry whose end lies before its start moves prevTop backwards, so a later gap covers a used sector |
| Allocator.FitIndex | disk-GPT/mkpart/mkpart.c:429-440 | findGap's index is that of the first gap with size at least size; every earlier gap is smaller |
| Allocator.FitIndexIs | disk-GPT/mkpart/mkpart.c:429-440 | an index with a big enough gap and only smaller gaps in front of it is the first-fit index |
| Allocator.FirstFitIsFree | disk-GPT/mkpart/mkpart.c:429-440 | the size sectors from the first-fit address are all free |
| Allocator.FitsAtIff | disk-GPT/mkpart/mkpart.c:443-462 | for recorded gaps checkGap is true exactly when some gap holds addr and has at least size sectors from addr on |
| Allocator.FitsAtInGap | disk-GPT/mkpart/mkpart.c:443-462 | when checkGap accepts, [addr, addr + size) lies inside one gap |
| Allocator.FitsAtIsFree | disk-GPT/mkpart/mkpart.c:443-462 | the size sectors checkGap accepts are all free |
| Allocator.CollectUsed | disk-GPT/mkpart/mkpart.c:355-363 | the collecting loop returns the extents of the used slots in slot order |
| Allocator.EqualStartsOrderDecides | disk-GPT/mkpart/mkpart.c:365-398 | two orders of the same table that qsort may leave: an empty extent [10, 9] and [10, 20]; recordGaps (as written and corrected) succeeds on one and reports Overlapping on the other, and the model's sort keeps slot order |
| Allocator.GapTable.BuildSortedTable | disk-GPT/mkpart/mkpart.c:350-366 | the sorted table becomes the used extents sorted by first sector |
| Allocator.GapTable.RecordGaps | disk-GPT/mkpart/mkpart.c:369-406 | the gap loop fills gapTable[0..numGaps) with the corrected gap list or returns its fault |
| Allocator.GapTable.BuildGapTable | disk-GPT/mkpart/mkpart.c:420-426 | buildGapTable sorts the used extents and records their gaps |
| Allocator.GapTable.FindGap | disk-GPT/mkpart/mkpart.c:429-440 | findGap returns the address of the first gap with at least size sectors, or 0 |
| Allocator.GapTable.CheckGap | disk-GPT/mkpart/mkpart.c:443-462 | checkGap returns FitsAt over the recorded gaps |
| Shgpt.LastSector | disk-GPT/shgpt/shgpt.c:529 | the backup header sector numSectors − 1, wrapping to 0xFFFFFFFF for 0 |
| Shgpt.CrossCheck | disk-GPT/shgpt/shgpt.c:531-540 | the headers pass the cross-checks exactly when their disk GUIDs and array CRCs agree; a GUID mismatch is reported first |
| Shgpt.ShowVerdict | disk-GPT/shgpt/shgpt.c:515-558 | a disk shgpt accepts has at least 4096 sectors and holds both sector 1 and the last sector |
| Shgpt.TablesCheckPass | disk-GPT/shgpt/shgpt.c:541-558 | both arrays pass exactly when each can be read and hashes to the CRC its header stores |
| Shgpt.BackupSidePass | disk-GPT/shgpt/shgpt.c:528-558 | the backup half passes exactly when the last sector holds a header that passes showBackupTblHdr and the cross-checks, and both arrays pass |
| Shgpt.ShowVerdictPass | disk-GPT/shgpt/shgpt.c:515-558 | shgpt accepts a disk exactly when it has at least 4096 sectors, the MBR and both headers pass, the headers agree, and both arrays hash to the stored CRC |
| Shgpt.GptSideWarnings | disk-GPT/shgpt/shgpt.c:526-530 | when the GPT half passes, its warnings are the primary's usable-LBA warnings followed by the backup's |
| Shgpt.ShowVerdictWarnings | disk/shgpt/shgpt.c:515-558 | the warnings of an accepted disk are the MBR record warnings, then the usable-LBA warnings of both headers |
| Shgpt.DiskGuidsMustAgree | disk-GPT/shgpt/shgpt.c:531-534 | two headers that pass on their own but carry different disk GUIDs make shgpt fail with the GUID mismatch |
| Shgpt.RefreshedHeaderChecks | disk-GPT/mkpart/mkpart.c:286-310 | writeValidGPT's refresh turns a header that passes showPartTblHdr or showBackupTblHdr into one that passes with the same warnings and the same disk GUID |
| Shgpt.RefreshedSlices | disk-GPT/mkpart/mkpart.c:286-310 | the refresh leaves the signature, the reserved word, the disk GUID and the padding alone |
| Shgpt.RefreshedIdentity | disk-GPT/shgpt/shgpt.c:259-273 | a header that passes the signature, revision, size and CRC tests still passes them after the refresh |
| Shgpt.RefreshedPlacement | disk-GPT/shgpt/shgpt.c:274-284 | the reserved-word and LBA tests of both headers decide as before after the refresh |
| Shgpt.RefreshedUsable | disk-GPT/shgpt/shgpt.c:285-292 | the usable-LBA warnings are the same after the refresh |
| Shgpt.RefreshedTableFields | disk-GPT/shgpt/shgpt.c:294-307 | the array-field and padding tests decide as before after the refresh |
| Shgpt.SameChecksShown | disk-GPT/shgpt/shgpt.c:515-558 | shgpt decides as before on a disk that keeps sector 0, whose headers pass the same checks and agree, and that holds the array their CRC names at LBA 2 and N − 33 |
| Shgpt.WrittenAtLast | disk-GPT/mkpart/mkpart.c:290-311 | with altLBA N − 1 on a disk of at least 4096 sectors, writeValidGPT puts both headers and both arrays where shgpt reads them and keeps sector 0 |
| Shgpt.BackupTableBehindLast | disk-GPT/shgpt/shgpt.c:551-554 | on a disk of at least 4096 sectors the backup array starts at N − 33, the 32 sectors in front of the last one |
| Shgpt.SameChecksWrittenShown | disk-GPT/mkpart/mkpart.c:283-312 | writeValidGPT of headers that pass the same checks and store the array CRC leaves a disk shgpt decides on as before |
| Shgpt.WrittenGptShown | disk-GPT/mkpart/mkpart.c:283-312 | on a disk shgpt accepts, writeValidGPT of any array leaves a disk shgpt accepts with the same warnings |
| Shgpt.RowOf | disk-GPT/shgpt/shgpt.c:446-469 | the row for slot k has number k + 1 and the entry decoded from that slot |
| Shgpt.ListingExact | disk-GPT/shgpt/shgpt.c:439-470 | showPartTable lists exactly the used slots, each once, in ascending order, each with its decoded entry |
| Shgpt.ListingEmpty | disk-GPT/shgpt/shgpt.c:438-473 | "-- no entries --" is printed exactly when no slot is used |
| Shgpt.HeaderCrcMatches | disk-GPT/shgpt/shgpt.c:268-273 | the header CRC test answers whether the stored CRC is right and leaves the buffer byte-identical |
| Shgpt.ShowHeader | disk/shgpt/shgpt.c:204-415 | showPartTblHdr/showBackupTblHdr return the header verdict and leave the buffer unchanged |
| Shgpt.ReadCheckedTable | disk-GPT/shgpt/shgpt.c:541-549 | reading an array and comparing its CRC returns the array verdict; on success the buffer holds the array |
| Shgpt.ShowPartTable | disk-GPT/shgpt/shgpt.c:421-474 | the loop returns the listing of the array and reports empty exactly when no slot is used |
| Shgpt.ShowTables | disk-GPT/shgpt/shgpt.c:541-560 | the two array checks return TablesCheck, and on success the listing of the primary array |
| Shgpt.ShowBackupSide | disk-GPT/shgpt/shgpt.c:528-560 | the part from the backup read on returns BackupSide and the listing |
| Shgpt.ShowGpt | disk-GPT/shgpt/shgpt.c:515-561 | main returns ShowVerdict of the disk, and on success lists the primary array |
| Mkpart.FreeSlot | disk-GPT/mkpart/mkpart.c:484-489 | the search stops at the lowest unused slot at or after k, every slot it passes is used, and 128 means all are used |
| Mkpart.SlotChoice | disk-GPT/mkpart/mkpart.c:482-500 | partition number 0 takes the lowest unused slot or fails when all 128 are used; an explicit number must name an unused slot |
| Mkpart.StartChoice | disk-GPT/mkpart/mkpart.c:511-524 | a given start is kept when checkGap accepts it; a searched start is never 0 |
| Mkpart.SortedUsedIff | disk-GPT/mkpart/mkpart.c:350-366 | a sector lies in a sorted extent exactly when it lies in the extent of a used slot |
| Mkpart.StartIsFree | disk-GPT/mkpart/mkpart.c:511-524 | the chosen start is followed by partSize free sectors of the gap table |
| Mkpart.ChosenStartIsFree | disk-GPT/mkpart/mkpart.c:511-533 | the new partition lies inside [firstSector, lastSector] and overlaps no used partition, and its end partStart + partSize − 1 does not wrap |
| Mkpart.FilledSlotUsed | disk-GPT/mkpart/mkpart.c:526-531 | a slot filled with a non-zero type GUID counts as used afterwards |
| Mkpart.FindFreeSlot | disk-GPT/mkpart/mkpart.c:484-489 | the search loop returns FreeSlot from 0 |
| Mkpart.SlotIsFree | disk-GPT/mkpart/mkpart.c:496-497 | the isZero test on the slot's type GUID answers whether the slot is unused |
| Mkpart.ChooseSlot | disk-GPT/mkpart/mkpart.c:482-500 | the slot part of mkPartition returns SlotChoice |
| Mkpart.ChooseStart | disk-GPT/mkpart/mkpart.c:511-524 | the gap part returns StartChoice over the sorted used extents |
| Mkpart.MkPartition | disk-GPT/mkpart/mkpart.c:468-542 | mkPartition returns the first fault with the array unchanged, or the partition number with only the chosen slot replaced by the entry (start, end = start + size − 1, attributes 0, name) |
| Mkpart.AddPartition | disk-GPT/mkpart/mkpart.c:644-649 | mkPartition then writeValidGPT: on a fault the disk is unchanged, otherwise the disk is the one AddOutcome describes |
| Mkpart.WriteAdded | disk-GPT/mkpart/mkpart.c:281-313 | writeValidGPT after the slot is filled leaves both copies of the new array and both refreshed headers on disk |
| Mkpart.AddedReadsBack | disk-GPT/mkpart/mkpart.c:644-649 | the disk mkpart leaves is well formed; checkValidGPT decides on it as before when the backup copy lies at LBA 66 or above, and shgpt decides on it as before whenever shgpt accepted the input |
| Mkpart.MkpartMain | disk-GPT/mkpart/mkpart.c:611-649 | the part number range, then the 4096-sector minimum, then checkValidGPT are checked in order, and any fault leaves the disk unchanged; otherwise the partition is added within the usable range of the primary header, and the result is re-validated: checkValidGPT decides as before when the backup copy lies at LBA 66 or above, and shgpt decides as before on a disk it accepted |
| Mkpart.ListingShowsAdded | disk-GPT/mkpart/mkpart.c:526-540 | shgpt lists the partition mkPartition added, with its number, GUIDs, sectors and truncated name |
| Mkgpt.MngrSectorsIsCeiling | disk/mkgpt/mkgpt.c:247 | the manager sector count is the least number of sectors that holds the file |
| Mkgpt.MngrSectors | disk/mkgpt/mkgpt.c:247 | an empty manager file takes no sector and any other file at least one |
| Mkgpt.MngrCodeFits | disk/mkgpt/mkgpt.c:247-251 | the manager code is accepted exactly when it is at most 2014 × 512 bytes |
| Mkgpt.ReadMngrCode | disk/mkgpt/mkgpt.c:233-261 | code of more than 2014 sectors is rejected with the buffer untouched; otherwise it is stored at offset 0 and its sector count returned |
| Mkgpt.MakePartTable | disk/mkgpt/mkgpt.c:267-276 | makePartTable zeroes all 16384 bytes and returns their CRC |
| Mkgpt.EmptyTableListsNothing | disk-GPT/mkgpt/mkgpt.c:257-266 | no slot of the empty array is used, so shgpt lists no partition |
| Mkgpt.MngrWrittenAt | disk/mkgpt/mkgpt.c:400-402 | the manager loop puts chunk s of the code into sector 34 + s and keeps every other sector |
| Mkgpt.MbrImageAccepted | disk/mkgpt/mkgpt.c:407-411 | whatever boot code is loaded, patched or not, the MBR mkgpt writes passes the MBR check with no warning |
| Mkgpt.PrimaryWrittenSectors | disk/mkgpt/mkgpt.c:407-416 | after the MBR and array writes sector 0 is the MBR and sectors 2..33 are zero |
| Mkgpt.GptBeforeHeaders | disk-GPT/mkgpt/mkgpt.c:386-402 | in either order of the manager writes, sector 0 is the MBR and sectors 2..33 are zero before the headers are written |
| Mkgpt.HeadersWrittenSectors | disk/mkgpt/mkgpt.c:417-427 | the header writes put the primary in sector 1, zero sectors N−33..N−2 and the backup in sector N−1, and keep sectors 0 and 2..33 |
| Mkgpt.HeadersAgree | disk/mkgpt/mkgpt.c:329-340 | the backup mkgpt derives has the primary's disk GUID and array CRC |
| Mkgpt.FreshHeadersClean | disk/mkgpt/mkgpt.c:279-340 | both headers mkgpt writes pass their checks with no warning, agree on the disk GUID, and store the empty array's CRC |
| Mkgpt.CleanGptAccepted | disk-GPT/shgpt/shgpt.c:515-558 | a disk with a clean MBR, clean agreeing headers and arrays that hash to their CRC passes shgpt with no warning |
| Mkgpt.MkgptImageAccepted | disk/mkgpt/mkgpt.c:397-427 | whatever the disk held before and in either write order, shgpt accepts the disk mkgpt leaves with no warning and lists no partition |
| Mkgpt.WriteMngr | disk/mkgpt/mkgpt.c:400-402 | the loop writes the first count chunks of the code to sectors 34.. |
| Mkgpt.WriteMbr | disk/mkgpt/mkgpt.c:406-411 | the MBR step fails, with the disk unchanged, exactly when the boot code is over 440 bytes; otherwise sector 0 is the MBR image |
| Mkgpt.WritePrimaryTable | disk/mkgpt/mkgpt.c:412-416 | the empty array is built and written to sectors 2..33, and its CRC returned |
| Mkgpt.WritePrimaryHeader | disk/mkgpt/mkgpt.c:417-419 | the primary header is built and written to sector 1 |
| Mkgpt.WriteBackup | disk/mkgpt/mkgpt.c:420-427 | the array is written in front of the last sector and the derived backup header in the last sector |
| Mkgpt.WriteHeaders | disk/mkgpt/mkgpt.c:417-427 | the header writes leave the disk as HeadersWritten describes |
| Mkgpt.WriteAfterMbr | disk-GPT/mkgpt/mkgpt.c:392-413 | after the MBR: the empty array at 2..33, then the manager file into the buffer and all 2014 buffer sectors to the disk, then the headers and backup array; a manager file over 2014 sectors stops it after the array |
| Mkgpt.MkgptMain | disk/mkgpt/mkgpt.c:378-431 | main fails exactly on a disk under 4096 sectors, manager code over 2014 sectors or boot code over 440 bytes, in that order; the first two leave the disk unchanged; on success the disk is the mkgpt image with the manager first and a patched MBR, and shgpt accepts it with no warning and no partition |
| Mkgpt.MkgptMainFullMngr | disk-GPT/mkgpt/mkgpt.c:336-418 | the disk-GPT main checks size, boot code and manager code in that order; the first two faults leave the disk unchanged; on success all 2014 manager sectors follow the array, the MBR is unpatched, and shgpt accepts the disk with no warning |

## Left out

- File I/O is not modelled: fopen, fseek/ftell, fread, fwrite and fclose. rdSector and wrSector act on an in-memory sequence of 512-byte sectors. A sector past the end cannot be read, and writing past the end extends the image with zero sectors.
- The disk-size probing is not modelled. numSectors is a parameter, and the "not a multiple of sector size" notice is only printed, so it is dropped.
- The boot and manager files are parameters (`Option<seq<byte>>`, None when no file is named). The open and short-read errors are not modelled.
- libuuid is not modelled. `uuid_generate` results are 16-byte parameters. The text forms that `uuid_parse` and `uuid_unparse_upper` convert are left out: entries carry GUID bytes.
- Session.GptSession.GetEntry: returns the GUID bytes after uuid_copyLE rather than the upper-case text that gptGetEntry builds with uuid_unparse_upper.
- printf output is left out. The show* functions return their verdict and the listed rows instead of printing them. showGaps and the debugGaps switch are also left out.
- The partition-type lookup in mkPartition and listPartTypes are left out: parttypes.h is not part of this model. The type GUID and the name are inputs, so the "type code not found" error is not modelled.
- Command-line parsing is left out: argc checks, strtoul, the 'M' suffix and the usage message. mkpart's partition number, start and size arrive as numbers.
- Allocator.GapTable.BuildSortedTable: specifies qsort by a stable insertion sort that keeps slot order among entries with the same first sector, where qsort may leave any order. The order can decide whether recordGaps succeeds. mkpart accepts a size of 0, and such an entry is the empty extent [s, s − 1], so a later entry may also start at s. With the empty entry first recordGaps succeeds; with it second it stops with "overlapping partitions" (`Allocator.EqualStartsOrderDecides`). The model decides such a table by slot order.
- Allocator.GapTable.RecordGaps: models the corrected recordGaps (see Findings). The 32-bit version as written is `Allocator.GapsAsWrittenFrom`. `Allocator.AsWrittenAgrees` proves that the two agree whenever no entry ends at 0xFFFFFFFF, none ends more than one sector before it starts and lastSector < 0xFFFFFFFF.
- Mkpart.StartChoice: builds its free gaps with the corrected recordGaps (`Allocator.GapsFrom`), so it departs from the source in three corner cases. An entry ending at 0xFFFFFFFF gives Err(TooBig), where the source wraps prevTop to 0 and goes on. An entry ending more than one sector before its start gives Err(BadExtent), where the source records gaps over used sectors. A lastSector of 0xFFFFFFFF gets a final gap up to 2^32, where the source wraps currBase to 0: it then stops with "too big" when prevTop is above 0 and records no final gap when prevTop is 0 (`Allocator.LastSectorWraps`). checkValidGPT never checks the last usable LBA, so a header can carry that value; the case is also a row under Findings. The model's gap sizes are unbounded, so with firstSector 0 and no partition it records one gap of 2^32 sectors, a size no 32-bit field holds.
- Mkpart.ChooseStart: returns StartChoice, so it shares the three corner cases listed for Mkpart.StartChoice.
- Mkpart.MkPartition: chooses the start through Mkpart.ChooseStart, so it shares the three corner cases listed for Mkpart.StartChoice.
- Mkpart.AddPartition: runs Mkpart.MkPartition, so it shares the three corner cases listed for Mkpart.StartChoice.
- Mkpart.MkpartMain: runs Mkpart.AddPartition, so it shares the three corner cases listed for Mkpart.StartChoice. It promises that checkValidGPT accepts its result again only when the backup copy lies at LBA 66 or above (`Session.BackupClear`). A backup header further down is only warned about, and the backup array write can then overwrite the primary array (see Findings).
- Mkgpt.MkgptMain: does not state the disk left behind when the boot code is too big. By then the manager sectors have been written, because main reads the boot code after the manager.
- Mkgpt.MkgptMainFullMngr: does not state the disk left behind when the manager code is too big. By then the MBR and the primary array have been written.
- Mkgpt.ReadMngrCode: stores the file over the caller's buffer. Bytes past the end of the file keep whatever the buffer held, which in the source is uninitialised stack memory; the disk-GPT main writes them out in all 2014 sectors.
- Mkgpt.MngrSectors: rounds up on unbounded integers. The source's `unsigned long` sum cannot wrap for a file that fits on the disk, and the int result is at most 2014 whenever the code is accepted.
- `error()` ends the process in the source. The model ends the operation with a Fault instead, and the caller stops at the first fault as the process would.
- Concurrency and signals are not modelled. The tools are single-threaded.

## Findings

| source | as written | input that shows it | evidently intended | confidence | as-written member | corrected member |
|---|---|---|---|---|---|---|
| disk-GPT/mkpart/mkpart.c:392-398 | `prevTop = get4LE(p + 40) + 1` is 32-bit, so an entry ending at 0xFFFFFFFF makes prevTop 0 and the "topmost partition is too big" test passes | one used entry [10, 0xFFFFFFFF], firstSector 0, lastSector 100: the gaps come out as [0,10) and [0,101), and the last covers used sector 20 | report the overrun ("topmost partition is too big for disk") | not executed | Allocator.GapsAsWrittenFrom | Allocator.GapTable.RecordGaps |
| disk-GPT/mkpart/mkpart.c:381-392 | an entry whose end lies more than one sector before its start sets prevTop below that entry's start, so later gaps can cover earlier partitions | entries [10,50], [60,5], [70,80], firstSector 0, lastSector 100: the gap [6,70) covers used sector 20 | refuse such an entry instead of recording gaps over used sectors | not executed | Allocator.GapsAsWrittenFrom | Allocator.GapTable.RecordGaps |
| disk-GPT/mkpart/mkpart.c:394-398 | `currBase = lastSector + 1` is 32-bit, so a last usable LBA of 0xFFFFFFFF makes currBase 0 | first usable LBA 2048, last usable LBA 0xFFFFFFFF (a field checkValidGPT does not check), one partition [2048, 4095]: prevTop is 4096 > 0 = currBase, so mkpart stops with "topmost partition is too big for disk" although the partition fits | record the final gap from prevTop up to the last usable sector | not executed | Allocator.GapsAsWrittenFrom | Allocator.GapTable.RecordGaps |
| disk-GPT/mkpart/mkpart.c:233-236 | checkValidGPT only warns when the primary's altLBA is not numSectors − 1, and writeValidGPT then writes the backup array to the 32 sectors in front of altLBA, wherever that is (mkpart.c:302-306; src/gpt.c:238-241 and 307-311 do the same) | a disk accepted with that warning whose primary header has altLBA 40 and whose backup header is in sector 40; adding a partition to slot 0 writes the new array to sectors 2..33 and then again to sectors 8..39, so sector 8 holds chunk 0 where the primary array needs chunk 6, and the primary array no longer matches its stored CRC | refuse a backup copy that overlaps the primary one, so that the written disk passes checkValidGPT again | not executed | Session.BackupArrayOverPrimary | Session.WrittenGptReadsBack |

For the first three rows, the 32-bit recordGaps as written is `Allocator.GapsAsWrittenFrom`.
`Allocator.WrapHidesOverrun`, `Allocator.BackwardExtentHidesUse` and `Allocator.LastSectorWraps`
exhibit the three inputs on it.
The corrected recordGaps (`Allocator.GapsFrom`, used by `Allocator.GapTable.RecordGaps` and so by
mkPartition) computes prevTop and currBase without wrap-around and refuses a backward extent.
`Allocator.GapsTile` and `Allocator.GapsSpaced` prove the intended property for it: the gaps are
disjoint, ascending and non-empty, and they are exactly the sectors of [firstSector, lastSector]
that no used partition covers.

For the fourth row, the write itself (`Session.GptSession.Write`, `Session.WrittenGpt`) is kept as
written. The correction is the condition that the backup copy lie at LBA 66 or above
(`Session.BackupClear`). Under it, `Session.WrittenGptReadsBack` proves that gptRead accepts the
written disk again with the same warnings, and `Mkpart.MkpartMain` promises the same for its result.
shgpt needs no such condition, because it requires the backup header in the last sector
(`Shgpt.WrittenGptShown`).
