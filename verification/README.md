# Verification models for the FDC+ drive server

Dafny models of the parts of the server that hold state worth reasoning
about, with proofs that they do what the code and its documentation promise.
Each module follows one source file or one concern; every model takes the
branches, constants and error cases of the code it cites. Check the whole
project with `dafny verify dfyconfig.toml`.

## What is modelled

**The CP/M filesystem** (`src/cpm-filesystem.ts`). `Cpm.CpmFilesystem` is a
class over one mutable byte array. It is proved, layer by layer, against
specification functions: sectors with two framings and two skews
(`DiskGeometry`, `SectorFraming`), allocation blocks (`BlockStore`), the
directory of 32-byte entries (`Directory`; FCB layout of section 5.2 and disk
parameters of section 6.10 of the CP/M Operating System Manual), files and
the volume they make up (`FileView`, `FileLayout`, `FileSize`, `Lookup`,
`Names`), the allocator (`Allocation`) and the write and delete operations
(`DirectoryPlan`, `FileOps`). `Runs` concludes that the class behaves as a
map from user and 8.3 name to bytes over any sequence of operations, from
formatting a disk to listing it and reading its files. `StandardFiles` takes
the files CP/M itself has recorded, whose entries the writer here would number
otherwise, and `DiskLayout` gives each byte its place on the disk in plain
numbers, apart from the functions the other modules use.

**The XMODEM sender** (`src/xmodem-sender.ts`). `Crc` and `XorAlgebra` treat
the CRC as a linear register machine over messages of any length. `Xmodem`
and `StopAndWait` run the sender against a receiver over a line that may
lose, damage or pass each packet and each answer, with an operator who may
cancel at any time. The receiver is the one of the XMODEM/YMODEM Protocol
Reference, chapters 7 and 8: it takes the valid block it waits for and
acknowledges a duplicate again. `XmodemInput` models how the sender waits for
an answer: a byte buffer and a queue of handlers that outlive their timeouts.
`XmodemTrace` tells the outcome of a transfer from the log of its packets and
answers, `XmodemFates` from the fates of its transmissions. `CrcDivision`
shows that the CRC is the remainder of a division of polynomials over the
bits.

**Copy-on-write drives** (`src/drive-session.ts`, `src/mount-registry.ts`,
`src/client-mount-registry.ts`). Classes over an abstract store from paths to
bytes (`FileStore`), with file operations that fail where the code handles
failure. `CopyOnWrite` shows that many sessions, some of them the master
client's, interleaved in any way, are indistinguishable from a system in which
a master write goes to the image itself and every other drive follows its
image until its first write and is a private copy from then on. `SessionRuns`
draws the conclusions for whole runs: what every read returns, and what of a
drive outlives its session. `SyncSound` shows what a sync achieves and that a
second one does nothing.

**The shared drives** (`src/drive.ts`). `DriveManager` is the class; `Rack`
its runs with an explicit clock and the swap window; `TransientMasters` what
may change an image and which scratch copies are left behind; `TrackRuns`
that a track reads as last written; `EjectRuns` what an unmount and a mount
do to all reads and writes that follow.

**The wire** (`src/serial.ts`, `src/ws-transport.ts`, `src/protocol.ts`,
`src/server.ts`): checksummed frames, byte queues fed by chunks of any size,
and the STAT, READ and WRIT handlers.

**Two codecs** (`src/replay-engine.ts`, `create-boot-disk.js`): line endings
and the chunked sender, boot images and Intel HEX.

## Where the code and its promises differ

The models follow the code. These statements show where it falls short of
its own comments or documentation, each with the exact condition or the
family of states in which it happens.

- The writer stores the first logical extent of an entry and a record count
  modulo 128, while the reader takes the sub-extent from that field. A file
  reads back whole if and only if its last entry holds at most 128 records
  (`FileOps.ReadsBackWhole`); `Runs.FiveBlockFileLosesRecords` is a file
  of the 8 MB format that does not. Formats with one logical extent per entry
  are not affected.
- A user byte above 31 is taken from a file name's prefix and written as
  given, but afterwards only a delete looks for it. Such a write reports
  success, and there is no file and no space taken
  (`FileOps.ReadsBackWhole`, `FileOps.HiddenWriteTakesNoSpace`).
- An XMODEM wait that times out leaves its handler queued, and the handler
  swallows the next byte that comes. A late answer is made up for by a retry
  (`XmodemInput.LateAnswerIsMadeUp`), but a lost one is not: a transfer
  completes only when every answer has come, so that one lost answer makes it
  fail although each block is tried ten times
  (`XmodemInput.CompletedHasEveryAnswer`, `XmodemInput.LostAnswerIsFinal`;
  exactly when it completes: `XmodemInput.CompletesExactly`).
- A change of write protection whose re-open fails leaves the drive unmounted
  without a swap window, so the next image can be read at once
  (`Rack.FailedReopenSkipsWindow`). That is the only way an image leaves a
  ready drive without a window (`Rack.LeavesUnnoticedExactly`, with the
  condition on the call in `Rack.FailedReopen`), and
  `Rack.ReadsOfTwoImagesApart` excludes exactly that event.
- A session forgets a drive, and with it the swap window, when the drive is
  ejected or its new image cannot be opened. The next image then appears
  without a window (`SyncSound.SwapUnnoticedExactly`).
- A drive that a sync could not open is opened by the next sync although no
  mount has changed (`SyncSound.SecondSyncDoesNothing`).
- A session acknowledges a write without looking at how much of it was
  stored (`DriveSession.AcknowledgedReadsBack`); the shared drives do look.
- A WRIT whose data does not arrive intact is answered with the error code of
  the last transaction that reached any drive, which may be OK: the
  controller is then told that the track was written
  (`FdcServer.StatusOkExactly`).
- The handlers of a WebSocket connection stay when another takes its place,
  and its bytes are mixed into the new connection's
  (`WsTransport.OwnBytesExactly`).
- A mount that makes a scratch copy and then cannot open it does not remove
  the copy, although a comment says so, because the drive does not record the
  path before the open; the same happens on a change to read-only. A copy
  that is given up and cannot be removed is forgotten all the same
  (`TransientMasters.MountStraysExactly`, `TransientMasters.MountStraysOld`,
  `TransientMasters.ProtectStraysExactly`; these are all the ways:
  `TransientMasters.RunStraysExactly`).
- The wire checksum is a plain sum: it notices any single altered byte but no
  exchange of bytes (`Wire.ExchangedBytesAccepted`).

## Hypotheses

- Filesystem: 128-byte records, 32 to a track, block sizes of 1K to 16K, a
  directory that lies on the disk, and sizes at which extent numbers fit
  their eleven bits (`DiskGeometry.ValidParams`; the three formats satisfy
  it). Names are printable ASCII and users are bytes.
- XMODEM: for `Xmodem.Delivery`, at most one answer per packet and none
  pending when a packet goes out; a packet's damage is confined to two
  adjacent bytes in CRC mode and to one byte in checksum mode, and does not
  turn number and complement into another matching pair. An answer swallowed
  by a handler left over is one of the lost answers there. `XmodemInput` takes
  each transmission to have one answer byte, which may come in any later wait
  or never; transfers start with nothing buffered and an answer owed for no
  more than the handlers left over, and the operator does not cancel them.
- Sessions: a client id whose copies are recorded has one session at a time,
  and client ids stay distinct after sanitising. An image may also be replaced
  from outside the sessions, as a commit does, but not removed. Images do not
  lie under `.splinter` or `.transient`, which the type of paths expresses.
  Throwaway copies get names no file has. The database works; opens, forks,
  writes and removals of files may fail.
- Shared drives: a path always leads to the current bytes of a file, so a
  handle kept open over a rename is not modelled; the clock never goes back.
  `TransientMasters.CleanKept` and `TransientMasters.CleanScratchIsImage`
  assume that no write fails after storing some bytes, the latter also that no
  image is mounted on two drives. New scratch copies get names no file has, a
  copy that fails leaves no file, and a commit's temporary can be removed.
- Listing: names are compared by the locale, which is a parameter. The order of
  the listing is that of `Lookup.InOrder` when the comparison is a total preorder.

## Model

| member | source | states |
|---|---|---|
| `DiskGeometry.EightInchIsValid` | src/cpm-filesystem.ts:85-94 | The 8-inch format is a valid geometry: 150 blocks, one directory block, one logical extent per entry |
| `DiskGeometry.MinidiskIsValid` | src/cpm-filesystem.ts:96-105 | The minidisk format is valid: 60 blocks, one directory block, one logical extent per entry |
| `DiskGeometry.EightMegabyteIsValid` | src/cpm-filesystem.ts:107-116 | The 8 MB format is valid: 2042 blocks, eight directory blocks, two logical extents per entry |
| `DiskGeometry.SkewTable` | src/cpm-filesystem.ts:167-174 | The closed form used for the boot skew is the published 32-entry interleave table, entry by entry |
| `DiskGeometry.DataSkewTable` | src/cpm-filesystem.ts:176-181 | The data-track skew is ((base - 1) * 17) mod 32 over the same table |
| `DiskGeometry.SkewIsPermutation` | src/cpm-filesystem.ts:167-204 | Both skews are permutations of 0..31, with the reverse map as inverse on both sides |
| `DiskGeometry.RecordIndexInjective` | src/cpm-filesystem.ts:187-190 | No two CP/M sectors share a physical record, across boot and data framing |
| `DiskGeometry.RecordIndexSurjective` | src/cpm-filesystem.ts:187-190 | Every record past the boot tracks holds some CP/M sector |
| `SectorFraming.FrameCorrect` | src/cpm-filesystem.ts:307-344 | Whatever a record held, a sector write makes it well framed for its track (track byte, stop byte, sector id, checksum over the preserved bytes too) and readable as exactly the data written |
| `SectorFraming.SectorWriteIsolated` | src/cpm-filesystem.ts:287-344 | In the image, writing one CP/M sector changes that sector and no other |
| `SectorFraming.SectorWriteKeepsBootArea` | src/cpm-filesystem.ts:307-344 | Writing a CP/M sector changes no byte of the reserved boot tracks |
| `SectorFraming.FormattedIsFramed` | src/cpm-filesystem.ts:1102-1146 | Every record of a formatted image carries the framing of its track |
| `SectorFraming.FormattedSectors` | src/cpm-filesystem.ts:1102-1146 | Every CP/M sector of a formatted image reads as 128 bytes of 0xE5 |
| `SectorFraming.FrameLayout` | src/cpm-filesystem.ts:307-344 | Byte by byte: track byte with the top bit set, data from byte 3 or 7, stop byte, sum, and on a data track a sector number from which 17 times gives the physical sector back; which bytes are preserved |
| `DiskLayout.FormattedRecord` | src/cpm-filesystem.ts:1102-1146 | Every byte of a formatted record of either kind |
| `DiskLayout.SystemTracksOfFormats` | src/cpm-filesystem.ts:85-116 | Six boot-framed tracks on 8-inch disks, all tracks on the others; 16-bit pointers on the 8 MB format alone |
| `DiskLayout.PointerWidth` | src/cpm-filesystem.ts:262-266 | Pointers take two bytes if and only if the data area has room for 256 blocks |
| `DiskLayout.BlockByte` | src/cpm-filesystem.ts:167-190 | Each byte of each block lies at its literal place in the image: by track, interleave table, and framing |
| `DiskLayout.EntryPlace` | src/cpm-filesystem.ts:395-414 | Entry k of the directory is the 32 bytes at 32 * k, its blocks taken in order |
| `DiskLayout.RoomBehindEntries` | src/cpm-filesystem.ts:419-436 | A directory written leaves 0xE5 behind its last entry |
| `DiskLayout.ChunkByte` | src/cpm-filesystem.ts:730-755 | Each byte of a written block: the file, then 26 up to the end of the record, then zero |
| `Cpm.CpmFilesystem.constructor` | src/cpm-filesystem.ts:257-267 | The instance works on a copy of the image and uses 16-bit pointers exactly above 255 blocks |
| `Cpm.CpmFilesystem.ReadSector` | src/cpm-filesystem.ts:287-302 | The 128 data bytes at the skewed record, or an error exactly when they lie beyond the image |
| `Cpm.CpmFilesystem.WriteSector` | src/cpm-filesystem.ts:307-344 | Replaces the skewed record by the framing of the data; wrong size and out of bounds are errors that change nothing |
| `Cpm.SectorWritePreserves` | src/cpm-filesystem.ts:307-344 | A sector write keeps a framed image framed, keeps the boot tracks, and is a one-sector update of the CP/M view |
| `BlockStore.BlockWritten` | src/cpm-filesystem.ts:369-385 | Writing all sectors of a block is replacing that block in the block store, whatever the geometry; a block beyond the disk changes no block |
| `Cpm.BlockIsItsSectors` | src/cpm-filesystem.ts:350-364 | A block is its sectors in order, all of them in the data area |
| `Cpm.CpmFilesystem.ReadBlock` | src/cpm-filesystem.ts:350-364 | Returns the block of the store |
| `Cpm.CpmFilesystem.WriteBlock` | src/cpm-filesystem.ts:369-385 | Updates one block of the store and no other, keeps framing and boot tracks; a wrong size changes nothing |
| `Directory.ParseEncode` | src/cpm-filesystem.ts:441-532 | Parsing a serialised well-formed entry gives it back, for 8- and 16-bit pointers |
| `Directory.EncodeParse` | src/cpm-filesystem.ts:441-532 | Serialising a parsed entry reproduces all 32 bytes but for the high bits of the eight name bytes |
| `Directory.EntryLayout` | src/cpm-filesystem.ts:441-497 | Every field of an entry by the byte it lies in, the attribute bits and both pointer widths included |
| `Directory.MissingPointersAreZero` | src/cpm-filesystem.ts:502-532 | Pointers an entry does not have are written as zeros |
| `Directory.DirRoundTrip` | src/cpm-filesystem.ts:395-436 | Reading the directory just written gives it back, over any number of directory blocks |
| `Directory.DirRewrite` | src/cpm-filesystem.ts:395-436 | Writing back the directory just read changes an entry only in its eight name high bits |
| `Directory.DirViewFrame` | src/cpm-filesystem.ts:395-414 | The directory depends on the directory blocks alone |
| `Cpm.CpmFilesystem.ParseDirEntry` | src/cpm-filesystem.ts:441-497 | The imperative parser computes the entry the codec lemmas speak of |
| `Cpm.CpmFilesystem.SerializeDirEntry` | src/cpm-filesystem.ts:502-532 | Writes exactly the 32 encoded bytes at the offset and nothing else |
| `Cpm.CpmFilesystem.ReadDirectory` | src/cpm-filesystem.ts:395-414 | Returns the directory the store holds |
| `Cpm.CpmFilesystem.WriteDirectory` | src/cpm-filesystem.ts:419-436 | The store afterwards is the old one with the directory blocks encoding these entries; data blocks, framing and boot tracks are kept |
| `FileView.SortRecoversOrder` | src/cpm-filesystem.ts:557-563 | Sorting by extent number restores the original order of a file's entries from any permutation of them |
| `Allocation.FirstFreeLength` | src/cpm-filesystem.ts:895-912 | Allocation hands out what was asked for exactly when that many blocks are free |
| `Allocation.FirstFreeLowest` | src/cpm-filesystem.ts:895-912 | The blocks handed out are the lowest free ones, in rising order |
| `Allocation.BitmapAfterUse` | src/cpm-filesystem.ts:847-890 | Once exactly the first free blocks have been taken up by entries, the bitmap is the old one with those bits set, gap rule included |
| `Cpm.CpmFilesystem.BuildAllocationBitmap` | src/cpm-filesystem.ts:847-890 | The scan with its gap rule computes: directory blocks, blocks named by live entries, and everything below the lowest named one |
| `Cpm.CpmFilesystem.AllocateBlocks` | src/cpm-filesystem.ts:895-912 | The first free blocks of that bitmap, or an error exactly when there are too few |
| `Cpm.CpmFilesystem.GetFreeSpace` | src/cpm-filesystem.ts:917-937 | The whole report: free and used blocks and bytes of the bitmap, and free directory slots as those no file of the 32 user areas takes |
| `Cpm.CountLiveIs` | src/cpm-filesystem.ts:917-937 | The slots reported as used are those whose status is one of the 32 user areas |
| `FileSize.FileEntriesOrdered` | src/cpm-filesystem.ts:757-810 | The entries written for a file bear strictly rising extent numbers that fit the two extent bytes |
| `FileSize.FileEntriesPointers` | src/cpm-filesystem.ts:757-810 | The entries written for a file name exactly its blocks, in file order |
| `FileSize.StoredSizeExact` | src/cpm-filesystem.ts:577-645 | The listed size never exceeds the padded size, and equals it if and only if the last entry holds at most 128 records |
| `FileSize.SingleExtentExact` | src/cpm-filesystem.ts:577-645 | With one logical extent per entry that is so for every file |
| `FileSize.FileEntriesRead` | src/cpm-filesystem.ts:671-696 | A file whose blocks and entries are as written reads back as its padded data cut to the listed size, all flags clear |
| `StandardFiles.StandardFileIsRead` | src/cpm-filesystem.ts:577-696 | On every format, a file as CP/M itself records it (its last entry numbered by the last logical extent, with the records in that extent and optionally the bytes of the last record) is listed and read in full, with the flags of its first entry, whatever slots its entries lie in |
| `StandardFiles.WrittenIsStandard` | src/cpm-filesystem.ts:757-810 | The entries a write makes are those CP/M would record if and only if the last one describes at most 128 records |
| `StandardFiles.FullEntriesCount` | src/cpm-filesystem.ts:795-805 | Every entry but the last is full and says so |
| `StandardFiles.LastEntryCounts` | src/cpm-filesystem.ts:795-805 | The last one counts 1 to 128 records, those of its last logical extent |
| `StandardFiles.EmptyEntrySize` | src/cpm-filesystem.ts:633-645 | An entry without records is an empty file whatever its byte count |
| `DirectoryPlan.PlaceSucceeds` | src/cpm-filesystem.ts:757-810 | Entering a file succeeds exactly when there are as many deleted slots as entries, and uses that many |
| `DirectoryPlan.PlaceInOrder` | src/cpm-filesystem.ts:757-810 | Whatever slots were free, the new entries stand in the directory in file order |
| `DirectoryPlan.PlaceKeepsOthers` | src/cpm-filesystem.ts:757-810 | Entering a file leaves the entries of every other file as they were |
| `DirectoryPlan.EraseExtents` | src/cpm-filesystem.ts:817-837 | Erasing a file leaves every other file its entries in order |
| `FileOps.DeleteRemoves` | src/cpm-filesystem.ts:817-837 | On every sound disk: deleting a name gives the volume without it, nothing else changed; a missing name is reported and changes nothing. Entries under a status byte that is no user area can be deleted too |
| `FileOps.DeleteErases` | src/cpm-filesystem.ts:817-837 | A delete marks every entry under the name, under whatever user byte, and changes nothing else of it and no other entry; it reports a missing name exactly when there was none |
| `FileOps.WriteReplaces` | src/cpm-filesystem.ts:701-811 | On every sound disk and geometry and for every user byte: after a write the volume maps the name to the data as stored if the user is one of the 32 areas; after disk full or directory full, and for any other user, there is no file of that name; no other file changes in content, size or flags in any outcome, and the disk stays sound (pointers distinct, in range, outside the directory) |
| `FileOps.HiddenWriteTakesNoSpace` | src/cpm-filesystem.ts:845-890 | What is written under a user byte above 31 still counts as free space, so the next write may take its blocks |
| `FileOps.WriteSucceeds` | src/cpm-filesystem.ts:701-811 | Exactly when a write reports disk full, and exactly when it succeeds, in free blocks and free slots without the old file |
| `FileOps.PlacedSound` | src/cpm-filesystem.ts:757-810 | After a write no block is used twice, none is a directory block or beyond the disk, and all pointers fit the 8 or 16 bits of the format |
| `FileOps.WriteTakesSpace` | src/cpm-filesystem.ts:895-937 | Writing a new name lowers the free blocks by exactly ceil(n / blocksize), and each block it takes lies above some block in use, if any is |
| `FileOps.DeleteRestoresSpace` | src/cpm-filesystem.ts:817-890 | Deleting the file just written restores the allocation bitmap bit for bit |
| `FileOps.ReadsBackWhole` | src/cpm-filesystem.ts:671-696 | After a successful write the file is there if and only if the user is one of the 32 areas, and reads back as the whole padded data if and only if besides its last entry holds at most 128 records |
| `Cpm.CpmFilesystem.ListFiles` | src/cpm-filesystem.ts:541-665 | Lists every live file exactly once, sorted by user and then by name as the locale compares names, with its entries in extent order, its size and its flags |
| `Cpm.CpmFilesystem.ReadFile` | src/cpm-filesystem.ts:671-696 | Returns the content of the file whose user and trimmed names agree with those asked for, or reports that there is none |
| `Cpm.CpmFilesystem.DeleteFile` | src/cpm-filesystem.ts:817-837 | The disk afterwards is the one the delete lemmas describe; framing and boot tracks are kept |
| `Cpm.CpmFilesystem.WriteFile` | src/cpm-filesystem.ts:701-811 | The disk and the outcome are those the write lemmas describe; framing and boot tracks are kept whatever the outcome |
| `Cpm.ResultsTell` | src/cpm-filesystem.ts:701-837 | Success, missing file, full disk and full directory are each reported as themselves |
| `Cpm.CpmFilesystem.FormatImage` | src/cpm-filesystem.ts:1102-1146 | Every record of the new image is the format pattern of its track |
| `Names.ListedIsAsked` | src/cpm-filesystem.ts:671-680 | A listed file is taken for the one asked for exactly when user and trimmed names agree |
| `Names.WriteKeyIsFileKey` | src/cpm-filesystem.ts:701-710 | The file a write deletes first is the file it creates |
| `Names.PlainNameIsFound` | src/cpm-filesystem.ts:1061-1079 | A file written under a plain upper-case 8.3 name is found under that name |
| `Names.AnyCaseIsFound` | src/cpm-filesystem.ts:1061-1074 | A plain name written in any case is found under its capitals |
| `Names.UpperIsCapital` | src/cpm-filesystem.ts:1069-1071 | Small letters become the capitals of the same place in the alphabet, nothing else changes |
| `Names.PrefixIsDropped` | src/cpm-filesystem.ts:1061-1067 | A user prefix of at most two characters is no part of the name written |
| `Names.LaterColonStays` | src/cpm-filesystem.ts:1061-1067 | A colon further back is |
| `Names.SecondDotEnds` | src/cpm-filesystem.ts:1069-1073 | The type ends at a second dot |
| `Names.LongNameIsCut` | src/cpm-filesystem.ts:1069-1073 | Longer names are cut behind the eighth character and longer types behind the third |
| `Names.BlanksAreTrimmed` | src/cpm-filesystem.ts:671-680 | Names are compared without the blanks behind them: space and the characters 9 to 13, and no others |
| `Lookup.LookupFinds` | src/cpm-filesystem.ts:671-696 | The search of the listing stops at the file asked for, or shows there is none |
| `Lookup.ListingAgrees` | src/cpm-filesystem.ts:541-665 | The listing and the volume agree on size and flags |
| `Lookup.ListingOrder` | src/cpm-filesystem.ts:659-664 | Users rise along a listing, and the names of one user are collated as name, dot and type |
| `Runs.FormattedIsEmpty` | src/cpm-filesystem.ts:1102-1146 | A formatted disk is a sound volume without files |
| `Runs.StepRefines` | src/cpm-filesystem.ts:541-837 | One write or delete on the disk, for any user byte and in whatever outcome, is the same step on a map from (user, name) to bytes |
| `Runs.RunRefines` | src/cpm-filesystem.ts:541-837 | On every format, over any sequence of writes and deletes, successful or failing, the disk is that map, each file stored as the format holds it |
| `Runs.RunIsWhole` | src/cpm-filesystem.ts:541-837 | That map holds whole files, padded to records, when each file written meets the 128-record condition |
| `Runs.FormattedRunRefines` | src/cpm-filesystem.ts:541-1146 | So it is from a formatted disk of any format |
| `Runs.FloppyRunRefines` | src/cpm-filesystem.ts:541-1146 | From a formatted disk with one logical extent per entry all files whatsoever are stored whole |
| `Runs.Execute` | src/cpm-filesystem.ts:252-1146 | Any sequence of calls on the class is the run of the model, call by call with the results it reports, and keeps the framing and the boot tracks |
| `Runs.FormatRunAndLook` | src/cpm-filesystem.ts:252-1146 | On every format, from formatting through any sequence of writes and deletes to listing and reading: the files listed, in order, and the bytes read are those of the map the successful calls make |
| `Runs.FormattedWriteSucceeds` | src/cpm-filesystem.ts:701-811 | On a formatted disk a write succeeds if and only if the file needs no more blocks than the data area has and no more entries than the directory has |
| `Runs.FiveBlockFileLosesRecords` | src/cpm-filesystem.ts:800-801 | A failure through the code: on every formatted 8 MB disk the write of 129 records succeeds, and the file then lists as 128 bytes and reads as its first record |
| `Crc.ComputeCrc16` | src/xmodem-sender.ts:38-48 | The nested loop computes the register machine the algebra speaks of |
| `Crc.CrcOfXor` | src/xmodem-sender.ts:38-48 | The CRC of the exclusive or of two equally long messages is the exclusive or of their CRCs |
| `Crc.Residue` | src/xmodem-sender.ts:342-351 | Any data followed by its CRC, high byte first, has CRC zero |
| `Crc.AdjacentCorruptionDetected` | src/xmodem-sender.ts:38-48 | Any change confined to two adjacent bytes of data and CRC, of any length, is detected |
| `CrcDivision.CrcIsRemainder` | src/xmodem-sender.ts:38-48 | The CRC is what division says it is: for every message some quotient q has data(x) * x^16 + crc(x) = q(x) * (x^16 + x^12 + x^5 + 1) over the bits |
| `CrcDivision.RemainderUnique` | src/xmodem-sender.ts:38-48 | No other sixteen bits are |
| `Xmodem.BuildPacket` | src/xmodem-sender.ts:339-361 | Start byte, number, complement, data, then CRC high and low byte or checksum |
| `Xmodem.ByteChangeRefused` | src/xmodem-sender.ts:53-59 | In checksum mode a packet with one byte changed is not taken for valid |
| `Xmodem.PairChangeRefused` | src/xmodem-sender.ts:339-361 | In CRC mode a packet with two adjacent bytes changed is not taken for valid, except where number and complement still match |
| `Xmodem.XmodemSender.Send` | src/xmodem-sender.ts:77-307 | The transfer loop is the stop-and-wait run over the line, with its outcome; a cancellation by the operator, whenever it comes, is looked at where the code does, and tells the receiver; a port that is not open or fails ends the transfer |
| `Xmodem.XmodemSender.SendPacket` | src/xmodem-sender.ts:178-236 | One block: repeated until acknowledged, cancelled, tried ten times or the port fails |
| `Xmodem.XmodemSender.SendEndOfTransmission` | src/xmodem-sender.ts:251-278 | The end mark: repeated until acknowledged, at most ten times, or until the port fails |
| `Xmodem.TransmitBlock` | src/xmodem-sender.ts:194-224 | One transmission of a block leaves the receiver with that block taken or not, and taken once it is acknowledged |
| `Xmodem.Delivery` | src/xmodem-sender.ts:157-287 | For every file and every behaviour of the line and the operator: completion means the receiver holds exactly the padded file, although block numbers wrap at 256; in every outcome it holds a prefix |
| `Xmodem.EachBlockAtMostTenTimes` | src/xmodem-sender.ts:177-278 | In every transfer each block, and the end mark, is transmitted ten times at most |
| `Xmodem.StagesEnd` | src/xmodem-sender.ts:157-278 | The stages so bounded make up the whole transfer |
| `Xmodem.CancelIsHeeded` | src/xmodem-sender.ts:160-191 | No block goes out after the operator cancels; only the end mark may, ten times at most; the receiver is told exactly when the outcome is cancelled by the operator |
| `Xmodem.CleanLineCompletes` | src/xmodem-sender.ts:157-287 | On a line without faults each block goes out once and the transfer completes |
| `XmodemFates.CompletesAsFated` | src/xmodem-sender.ts:157-278 | Over a line that damages and loses what it likes, with an operator who waits and a port that works: a transfer completes if and only if each block and the end mark has an acknowledged transmission among its ten consecutive fates, and how many transmissions it then took |
| `XmodemTrace.EndsAsAnswered` | src/xmodem-sender.ts:157-287 | Over every port the outcome is told by the log of transmissions: completed exactly when the end mark is acknowledged last, cancelled by the receiver exactly when a block is answered with CAN last, a port error exactly when the port fails last; a failure only after ten tries in a row of one packet without an answer that ends it |
| `XmodemTrace.TransferIsTraced` | src/xmodem-sender.ts:157-287 | Each packet in that log is tried up to ten times, and the next one follows an acknowledgement and nothing else |
| `XmodemTrace.PacketLayout` | src/xmodem-sender.ts:339-361 | Every byte of every packet of a file, and the number of packets |
| `XmodemTrace.OpeningDecides` | src/xmodem-sender.ts:78-157 | What each opening byte, a closed port and an empty file lead to; the first packet carries a CRC exactly when C came and CRC is wanted |
| `StopAndWait.SendAllKeeps` | src/xmodem-sender.ts:159-249 | For any link whose exchanges keep the invariant, blocks arrive in order and each once |
| `XmodemInput.Input.HandleIncomingData` | src/xmodem-sender.ts:367-378 | A chunk is appended and handed byte by byte to the queued handlers while there are both |
| `XmodemInput.Input.WaitForByte` | src/xmodem-sender.ts:384-440 | The buffer is searched first; otherwise a handler is queued, which stays queued when the wait times out |
| `XmodemInput.ChunksMakeNoDifference` | src/xmodem-sender.ts:367-378 | How an answer is cut into chunks makes no difference to what the handlers do |
| `XmodemInput.WaitBehindStale` | src/xmodem-sender.ts:384-440 | A wait behind n handlers left over from timeouts loses the first n bytes to them and is decided by the first expected byte after those |
| `XmodemInput.BufferedIsTaken` | src/xmodem-sender.ts:389-406 | An awaited byte that came before the wait is taken at once, with all before it; what is behind it stays |
| `XmodemInput.NothingComes` | src/xmodem-sender.ts:384-440 | A wait in which nothing comes leaves the bytes before it and its own handler |
| `XmodemInput.AnswerDecides` | src/xmodem-sender.ts:208-274 | The first of the bytes 6, 21 and 24 is the answer to a block; for the end mark only 6 and 21 are |
| `XmodemInput.NoAnswerTimesOut` | src/xmodem-sender.ts:208-274 | Without such a byte in time there is no answer |
| `XmodemInput.WaitAnsweredExactly` | src/xmodem-sender.ts:384-440 | With one answer per transmission, which may come in any wait or never: a wait is answered if and only if an answer is owed for every handler left over, all of those and its own come while it lasts, and its own is an expected byte |
| `XmodemInput.CompletedHasEveryAnswer` | src/xmodem-sender.ts:177-278 | When a transfer completes, every answer to every transmission has come |
| `XmodemInput.LostAnswerIsFinal` | src/xmodem-sender.ts:177-278 | So one answer lost for good makes the transfer fail at a block or at the end mark, whatever comes afterwards and however often it is repeated |
| `XmodemInput.CompletesExactly` | src/xmodem-sender.ts:177-278 | For a receiver that acknowledges everything, however late: the transfer completes if and only if for each block and the end mark, in one of its ten tries, there is a wait by whose end every answer so far has come |
| `XmodemInput.LateAnswerIsMadeUp` | src/xmodem-sender.ts:177-278 | A late answer alone does no harm: with a first answer that comes one wait late, every transfer of a file with content completes although its first wait times out |
| `Registries.EpochsNeverReused` | src/mount-registry.ts:30-44 | In any run of a mount table, entries seen at any two times bear the same epoch only if they are the same entry in the same place |
| `Registries.HistoryStamped` | src/mount-registry.ts:25-60 | At every time of a run no two entries share an epoch |
| `Registries.MountRegistry.Set` | src/mount-registry.ts:30-33 | Stamps the entry with a new epoch; the table stays stamped |
| `Registries.MountRegistry.SetReadonly` | src/mount-registry.ts:35-40 | A changed flag gets a new epoch, an unchanged one or a missing drive changes nothing |
| `Registries.MountRegistry.Clear` | src/mount-registry.ts:42-44 | Removes the entry and hands out no epoch |
| `Registries.ClientMountRegistry.Set` | src/client-mount-registry.ts:26-34 | Sets one override of one client with a new epoch |
| `Registries.ClientMountRegistry.Clear` | src/client-mount-registry.ts:36-42 | Removes one override of one client |
| `Registries.ClientMountRegistry.ClearClient` | src/client-mount-registry.ts:44-46 | Removes all overrides of one client and no other |
| `Registries.ClientMountRegistry.ClearByBasename` | src/client-mount-registry.ts:59-67 | Removes exactly the overrides of images of that base name, of all clients |
| `Registries.ClientMountRegistry.RenameByBasename` | src/client-mount-registry.ts:69-79 | Points exactly the overrides of that base name at the new path, each with a new epoch |
| `Registries.NoneOfThatName` | src/client-mount-registry.ts:59-67 | After the removal the overrides are exactly those of other names, unchanged |
| `Registries.AllOfThatName` | src/client-mount-registry.ts:69-79 | After the renaming exactly the overrides of that name are on the new image, as read-only as before and with epochs above all earlier ones |
| `Registries.EmptyClientGoes` | src/client-mount-registry.ts:36-67 | A client without overrides is not kept |
| `DriveSession.DriveSession.Sync` | src/drive-session.ts:94-123 | Drives and files afterwards are those of the sync of drives 0 to 15 in turn, with opens and removals that may fail |
| `DriveSession.DriveSession.Open` | src/drive-session.ts:150-192 | Re-attaches a recorded copy of the same base name, drops a stale or unreadable one, and else opens the image; a drive whose open fails is closed |
| `DriveSession.DriveSession.Fork` | src/drive-session.ts:273-301 | Copies the image and moves the drive over to the copy; a failure leaves the drive as the code leaves it |
| `DriveSession.DriveSession.Write` | src/drive-session.ts:248-270 | The first write forks; every write lands in the drive's own file, in whole or in part, and is acknowledged unless it throws |
| `DriveSession.AcknowledgedReadsBack` | src/drive-session.ts:259-270 | An acknowledged write reads back as sent if and only if the file already held the bytes it did not store |
| `DriveSession.DriveSession.Read` | src/drive-session.ts:230-246 | Reads the drive's own file into a zeroed buffer |
| `DriveSession.DriveSession.Dispose` | src/drive-session.ts:321-325 | Closes every drive and removes exactly the throwaway copies |
| `DriveSession.DisconnectLeaves` | src/drive-session.ts:303-325 | A file is gone after a disconnect if and only if it is a copy of one of the session's drives, can be removed, and the session is a master or has no client id or no database |
| `DriveSession.CloseLeaves` | src/drive-session.ts:303-313 | So it is when one drive is closed |
| `DriveSession.FirstWriteForks` | src/drive-session.ts:248-301 | A first write leaves the image and makes a copy with the data in it, recorded under client and drive exactly for a client with a database and an id that is not empty |
| `DriveSession.LaterWriteStays` | src/drive-session.ts:248-270 | Later writes, and all of a master session, go to the drive's own file and nowhere else |
| `DriveSession.FailedForkIsRepeated` | src/drive-session.ts:273-301 | A fork that fails leaves the image and the records; the drive may have lost its file, and the next write forks again |
| `DriveSession.OpenedOn` | src/drive-session.ts:150-228 | A drive is opened on the recorded copy of an image of that name if it can be attached, else on the image; which record is dropped and which file removed; how changed it counts, and its window |
| `FileStore.ReadAfterWrite` | src/drive-session.ts:230-270 | A read back sees the data written, and reads elsewhere see what was there |
| `CopyOnWrite.StepSimulates` | src/drive-session.ts:94-325 | Any connect, sync, write (whole, partial or failed) or disconnect of one of many sessions, and any change of an image by the master client, is the same step in a system where each drive follows its image until its first write and is a private copy from then on |
| `CopyOnWrite.MasterWriteLands` | src/drive-session.ts:248-270 | One write of a master session on an open image stores the data in that image and in nothing else |
| `SessionRuns.RunSimulates` | src/drive-session.ts:94-325 | So is every interleaving of such steps |
| `SessionRuns.RunReadsAreOwn` | src/drive-session.ts:230-325 | In every run from no sessions, every read that succeeds returns the content of the reader's own view |
| `SessionRuns.ReadsFollowThenKeep` | src/drive-session.ts:230-301 | What a session that is not the master reads, from any time on while the drive stays open: the image as it is now, with all master writes so far, until the drive's first write, and from then on the image as it was at that write with exactly the drive's own writes laid over it, the last on top |
| `SessionRuns.ImagesOnlyByMaster` | src/drive-session.ts:248-301 | In every run an image changes only by a write of a master session that has it open, or by a change from outside the sessions |
| `SessionRuns.MasterWritesImage` | src/drive-session.ts:248-270 | In every run, such a write leaves that image as its bytes before with the data stored over them; the drive has no copy, and all other files, records and drives stay |
| `SessionRuns.MasterReadsImage` | src/drive-session.ts:150-246 | A master session reads the images themselves, always |
| `SessionRuns.ReadsAreOwn` | src/drive-session.ts:230-246 | When a read of a session succeeds, is refused, or fails, and what it returns |
| `SessionRuns.OthersStepsUnseen` | src/drive-session.ts:230-325 | No step of one session changes any read of another, unless it is a master write to the image the other still follows |
| `SessionRuns.KeptViewStays` | src/drive-session.ts:163-184 | A client's forked drive outlives its sessions: as long as nothing writes to it and it is opened only on images of that base name, then whenever it is open, in whatever session, it is forked and reads as it did |
| `SessionRuns.KeptViewComesBack` | src/drive-session.ts:163-184 | The sync that mounts an image of that base name brings it back so, after any number of syncs, re-opens, disconnects and reconnects |
| `SessionRuns.ReconnectedClientReadsItsWrite` | src/drive-session.ts:94-325 | For every such client, image and write there is a run: connect, sync, write, disconnect, connect, sync; the new session reads what the old one wrote |
| `SyncSound.SyncOpensExactly` | src/drive-session.ts:94-143 | After a sync a drive is open if and only if it has a mount and was open on it already, or its recorded copy or its image could be opened; it is on that mount's image and version, and exactly the drives that were open and are re-opened get a swap window. Its mount is the client's own override, else nothing for a self-contained client and the global mount for any other |
| `SyncSound.SyncDependsOn` | src/drive-session.ts:94-143 | What a sync makes of the drives depends on nothing else in the tables: not on other clients, nor for a self-contained client on the global table |
| `SyncSound.SecondSyncDoesNothing` | src/drive-session.ts:94-123 | With the tables unchanged a second sync changes no drive, file or record if and only if no drive the first could not open can be opened by then |
| `SyncSound.SwapUnnoticedExactly` | src/drive-session.ts:94-123 | When a session's drive goes from one image to another it gets no swap window if and only if the sync that took the first image away found the drive ejected or could not open the new mount |
| `SyncSound.SwapNoticed` | src/drive-session.ts:94-123 | Over any part of a run without such a sync, no image leaves a drive without a window |
| `SyncSound.SameVersionSameImage` | src/drive-session.ts:133-143 | In a run, a drive whose version is the resolved one is on the resolved image |
| `SyncSound.EverySyncIsSound` | src/drive-session.ts:94-143 | In every run of table changes, syncs, writes and changes of the files by others: after every sync each drive is open exactly so, and a second sync in which the same opens fail is without effect |
| `DriveManager.DriveManager.Mount` | src/drive.ts:175-267 | Closes and discards, opens the window, opens the new file with the backing its flag and policy call for; a failure leaves the drive marked |
| `DriveManager.DriveManager.Unmount` | src/drive.ts:272-313 | Discards the scratch copy, clears the table entry and stamps the window; a failed close leaves the drive mounted without a file |
| `DriveManager.DriveManager.WriteProtect` | src/drive.ts:405-427 | Sets the flag and re-opens a mounted drive in the new mode; keeps the mount table's flag in step |
| `DriveManager.DriveManager.RemountWithMode` | src/drive.ts:352-399 | Re-decides the backing; a failed open leaves the drive unmounted without a window |
| `DriveManager.DriveManager.Read` | src/drive.ts:432-498 | Refused in a window, unmounted or short; otherwise the bytes of the open file |
| `DriveManager.DriveManager.Write` | src/drive.ts:503-649 | Refused in a window, unmounted, read-only or with bad arguments; otherwise up to three attempts, of which each may stop after some bytes, and a transient drive is dirty once one has stored the data |
| `DriveManager.AttemptsLeave` | src/drive.ts:582-641 | If an attempt succeeds the file is as after one good write, whatever the failed ones before had stored; if none does, a front of the data is in place, as far as the longest attempt came, and nothing else has changed |
| `DriveManager.SucceedsInThree` | src/drive.ts:586-650 | A write succeeds if and only if one of its first three attempts does, and those before it failed with errors worth another |
| `DriveManager.TrackLengths` | src/drive.ts:553-563 | Tracks of 1 to 4384 bytes can be written and no others |
| `DriveManager.TransfersLoadHead` | src/drive.ts:432-650 | Which reads and writes get to the file, what they note on the drive, and with which error the others are refused |
| `DriveManager.CommitExactly` | src/drive.ts:697-712 | When a commit succeeds, and all it changes: the image, the clean mark, and nothing else of the drive or any file |
| `DriveManager.FailedMountMarks` | src/drive.ts:255-266 | What a failed mount leaves of a drive |
| `DriveManager.ReadyOutsideWindow` | src/drive.ts:660-680 | A drive is ready if and only if it is mounted and its window, if it has one, is over |
| `TrackRuns.ReadsLastWrite` | src/drive.ts:432-649 | In every run a read of a track gives the data of the last acknowledged write of it, at any later time, until the drive's disk is changed, the image is written from another drive, or that track is tried to write again |
| `DriveManager.DriveManager.Commit` | src/drive.ts:697-712 | The image becomes the scratch copy and the drive clean, or nothing changes but the temporary |
| `DriveManager.DriveManager.Reload` | src/drive.ts:722-729 | Mounts a mounted drive's file again |
| `DriveManager.DriveManager.CanWrite` | src/drive.ts:735-767 | Ready, with a writable file, and not plainly read-only |
| `Rack.ReadsOfTwoImagesApart` | src/drive.ts:186-213 | In every run: two successful reads of one drive from different images are separated by 2500 ms on end, opened by some event between them, during which the drive is not ready and refuses reads, writes and the write check |
| `Rack.ReopenUnmounts` | src/drive.ts:352-399 | When a change of write protection unmounts a drive, as a condition on the call |
| `Rack.LeavingOpensWindow` | src/drive.ts:307-312 | An image leaves a drive only with a window opening at that moment, unless a re-open failed |
| `Rack.LeavesUnnoticedExactly` | src/drive.ts:393-397 | A ready drive leaves its image without a window if and only if that re-open failed |
| `Rack.FailedReopenSkipsWindow` | src/drive.ts:393-397 | After a failed re-open there is no window: from every ready drive, another image mounted at once is read at once |
| `EjectRuns.EjectedUntilMounted` | src/drive.ts:272-313 | From a successful unmount until the next mount of the drive, in every run: it is not ready, has no file, refuses every read and write, and no write on it changes a file; if it was mounted its window lasts until 2500 ms after the unmount |
| `EjectRuns.FailedCloseKeeps` | src/drive.ts:281-291 | An unmount whose close fails leaves the drive marked as mounted, without a file, and refusing everything |
| `EjectRuns.MountLands` | src/drive.ts:175-267 | A mount succeeds if and only if the image is there and the operations its backing takes work; it then leaves the drive on that image, with a file that holds its bytes, a copy exactly for a read-only drive the policy redirects, writable as it should be |
| `EjectRuns.MountWindow` | src/drive.ts:186-213 | A mount over an image, or in a window, starts a window of its own; any other keeps what there was |
| `EjectRuns.MountedImageIsRead` | src/drive.ts:175-498 | In every run: once the window is over, any track of a mounted image reads as it was at the mount, until the track or the image is written or another disk mounted |
| `EjectRuns.ReadsWithinFile` | src/drive.ts:432-498 | A read of a mounted drive succeeds if and only if it is outside the window and within the file, and gives the bytes of the file |
| `EjectRuns.ProtectedMountWrites` | src/drive.ts:405-427 | An image mounted in an empty drive after a change of write protection can be written if and only if the drive is not protected or redirects writes |
| `EjectRuns.ProtectReopens` | src/drive.ts:352-427 | When a change of write protection of a mounted drive succeeds, what it opens then, and all it leaves as it was: position, name and window; when it fails the drive has no file |
| `EjectRuns.ProtectLeaves` | src/drive.ts:405-421 | Without a change or a disk it sets the flag and nothing else |
| `TransientMasters.EventGood` | src/drive.ts:175-427 | Every command keeps a drive's records in order: a file is open only while mounted, it is the scratch copy exactly for a transient drive, and writable unless plainly read-only |
| `TransientMasters.RunImagesChangeOnlySo` | src/drive.ts:503-712 | At every event of every run from empty drives: an image's bytes change only by a write on a drive that mounts it read-write, or by a commit, which makes it equal the scratch copy |
| `TransientMasters.CleanKept` | src/drive.ts:114-137 | The scratch copy of a clean transient drive holds what its image held when copied or last committed |
| `TransientMasters.CleanScratchIsImage` | src/drive.ts:175-427 | In every run with no image on two drives, a clean transient drive's scratch copy equals its image |
| `TransientMasters.MountStraysExactly` | src/drive.ts:214-266 | A mount leaves its new scratch copy known to no drive if and only if it is of a read-only image the policy redirects, the copy is made, and its open fails |
| `TransientMasters.MountStraysOld` | src/drive.ts:130-137 | It leaves the copy the drive had so if and only if that copy cannot be removed |
| `TransientMasters.ProtectStraysExactly` | src/drive.ts:374-398 | A change of write protection does if and only if it is to read-only, of such an image, and the copy's open fails |
| `TransientMasters.RunStraysExactly` | src/drive.ts:130-427 | In every run from empty drives all scratch copies are known to their drives if and only if no event so far was a mount or change to read-only whose copy could not be opened, or gave up a copy that could not be removed |
| `Wire.CalculateChecksum` | src/serial.ts:344-353 | The sum of the bytes modulo 65536 |
| `Wire.ChecksumAdds` | src/serial.ts:344-353 | It is zero for no data, a byte for itself, and additive over parts; that fixes it |
| `Wire.SendBuffer` | src/serial.ts:297-339 | The data followed by its checksum, low byte first |
| `Wire.RunNobodyWaits` | src/serial.ts:130-143 | In every run of data, requests, timeouts and flushes, bytes and readers are never both left waiting |
| `Wire.RunConserves` | src/serial.ts:130-242 | Between flushes delivered plus buffered bytes are the bytes that arrived, in order; without timeouts readers are served in the order they asked |
| `Wire.ChunksJoin` | src/serial.ts:130-143 | How bytes are cut into chunks makes no difference to the queue |
| `Wire.TimeoutLeaves` | src/serial.ts:209-242 | A reader that times out waits no longer, and the others keep their order |
| `Wire.FlushDrops` | src/serial.ts:356-385 | A flush drops the buffered bytes and nothing else |
| `Wire.SerialPort.ReceiveByte` | src/serial.ts:209-242 | The first byte buffered or arriving before the timeout; the others stay buffered |
| `Wire.SerialPort.ReceiveBuffer` | src/serial.ts:247-292 | The result is the judgement on the bytes taken, and the rest stays buffered |
| `Wire.TakeCompletes` | src/serial.ts:247-292 | All bytes asked for are taken if and only if each of them is buffered or has arrived before its timeout |
| `Wire.FrameIsReceived` | src/serial.ts:247-339 | A frame sent is received as sent, under any chunking, if and only if none of its bytes is late; it is never received wrong |
| `Wire.FrameAtOnceIsReceived` | src/serial.ts:247-339 | A frame that has all arrived when the receive starts is received as sent |
| `Wire.AcceptedExactly` | src/serial.ts:281-291 | Bytes are accepted exactly when the last two are the checksum of the others |
| `Wire.ReportedSo` | src/serial.ts:247-292 | What is reported of bytes received: how many data bytes came if not all did, a missing checksum, or the two sums |
| `Wire.TimeoutTakesAll` | src/serial.ts:209-292 | A receive that times out has taken every byte there was |
| `Wire.AlteredByteRefused` | src/serial.ts:281-291 | A frame of any length with one byte altered is refused |
| `Wire.ExchangedBytesAccepted` | src/serial.ts:344-353 | Two exchanged bytes always go unnoticed: the checksum is a plain sum |
| `WsTransport.WsTransportManager.ReceiveBuffer` | src/ws-transport.ts:95-134 | The loop over messages, close and deadline computes the receive |
| `WsTransport.ReceiveConserves` | src/ws-transport.ts:26-134 | Whatever comes of a receive, from whatever connections, what it returns and what stays buffered is what was there and what came, or what came since the last connection was accepted |
| `WsTransport.ReceiveEnds` | src/ws-transport.ts:95-134 | A receive ends at the first point with enough bytes, without a connection, or past the deadline; enough bytes are served even when the connection is gone |
| `WsTransport.EventsDo` | src/ws-transport.ts:22-41 | What each event does to buffer and connection; the end of a connection that has been replaced does nothing |
| `WsTransport.OwnBytesExactly` | src/ws-transport.ts:22-41 | A connection just accepted is served its own bytes and none but them if and only if no connection before it still sends any |
| `WsTransport.ReceiveSucceeds` | src/ws-transport.ts:95-134 | While only messages come, a receive succeeds exactly when they hold enough bytes |
| `WsTransport.ReceiveChunksFree` | src/ws-transport.ts:29-41 | Neither the bytes received nor those left depend on how they were cut into messages |
| `FdcServer.BlockRoundTrip` | src/protocol.ts:93-119 | Decoding an encoded command block gives it back |
| `FdcServer.BufferRoundTrip` | src/protocol.ts:93-119 | Encoding a decoded block gives the eight bytes back but for the high bits of the four characters |
| `FdcServer.BlockLayout` | src/protocol.ts:93-119 | Every byte of a command block |
| `FdcServer.CommandNames` | src/protocol.ts:20-60 | The four commands are spelled as their names |
| `FdcServer.DriveAndTrack` | src/server.ts:215-224 | The drive is the upper four bits of the first parameter and the track the lower twelve |
| `FdcServer.FdcServer.HandleStat` | src/server.ts:160-209 | Sets one head or lifts all, and answers with a word whose bit i is set exactly when drive i is ready |
| `FdcServer.HeadsAfterStat` | src/server.ts:160-194 | Which heads are loaded after a STAT: the one addressed, or none |
| `FdcServer.FdcServer.HandleRead` | src/server.ts:215-256 | Sends the track, or nothing when it cannot be read |
| `FdcServer.FdcServer.HandleWrite` | src/server.ts:262-337 | The responses, the drive, the files and the error code after a WRIT |
| `FdcServer.StatusOkExactly` | src/server.ts:215-336 | In any run of READs, WRITs and operator commands the final status of a WRIT is OK if and only if its data arrived and was written, or did not arrive and the last transaction before it that reached any drive had worked |
| `FdcServer.ToldIsCode` | src/server.ts:340-350 | The controller reads the error code from the response, and different errors have different codes |
| `FdcServer.CodesDiffer` | src/protocol.ts:20-60 | The codes are 0 for success, 1 for not ready, 2 for a checksum, 3 for a write error |
| `FdcServer.RefusedWrit` | src/server.ts:262-306 | A WRIT to a drive that takes no writes is answered once, with not ready, and changes no file |
| `FdcServer.WritTold` | src/server.ts:308-336 | A WRIT let through whose data came is answered twice: with 0, and with 0 if it was written and 3 if not |
| `FdcServer.TrackNoted` | src/server.ts:215-290 | Whatever comes of a READ or WRIT, the drive it names is at the track it names, and no other drive changes |
| `FdcServer.WrittenTrackIsRead` | src/server.ts:215-337 | The data of a WRIT that is written is what every later READ of that track and length sends, whatever READs, WRITs of other tracks and drives and operator commands that leave its disk come in between |
| `FdcServer.OtherTracksUnchanged` | src/server.ts:215-337 | Writing a track, successfully or not, leaves what a READ of any other track of that length sends |
| `LineEndings.ConvertLineEndings` | src/replay-engine.ts:49-80 | The scanning loop renders the text's lines with the target ending |
| `LineEndings.RenderThenRead` | src/replay-engine.ts:45-80 | Lines written with any one ending read back as the same lines |
| `LineEndings.ConvertTwice` | src/replay-engine.ts:45-80 | Converting to s and then to t is converting straight to t, for every buffer |
| `LineEndings.ConvertedIsNormal` | src/replay-engine.ts:45-80 | Conversion leaves a buffer unchanged exactly when all its line endings are of that form |
| `LineEndings.ConvertedEndings` | src/replay-engine.ts:49-80 | After conversion every ending is the target: no LF, no CR, or each CR followed by an LF and each LF after a CR |
| `LineEndings.EndingsByByte` | src/replay-engine.ts:45-80 | The lines are those a byte-by-byte reading finds: a CR ends one, and so does an LF that is not right behind a CR |
| `LineEndings.ChunkSizeClamps` | src/replay-engine.ts:105 | The chunk size is what was asked for between 1 and 16, and 1 when nothing was |
| `LineEndings.NextChunk` | src/replay-engine.ts:173-194 | A chunk is part of one line, ended by its whole line ending exactly when the sender pauses, and never ends inside a CRLF |
| `LineEndings.ChunkBytes` | src/replay-engine.ts:173-194 | Byte by byte: a chunk has line ending bytes only at its end, and no boundary lies between a CR and its LF |
| `LineEndings.Replay` | src/replay-engine.ts:157-212 | The chunks sent are the front of the text, all of it exactly on completion; none divides a CRLF or goes past a line ending |
| `BootDisk.CreateDiskImage` | create-boot-disk.js:137-191 | Every sector of the image is the boot sector of its place in loading order; too long code is an error |
| `BootDisk.RankAndSlot` | create-boot-disk.js:152-157 | Even-then-odd order visits every sector once, track by track |
| `BootDisk.BootRoundTrip` | create-boot-disk.js:137-191 | Reading payloads in loading order and cutting at the stored count returns the code, below 65536 bytes |
| `BootDisk.CountIsLength` | create-boot-disk.js:162-164 | The stored count is the length exactly below 65536 bytes |
| `BootDisk.ChecksumsValid` | create-boot-disk.js:166-179 | Every sector's checksum is the sum of its data, and its first byte names its track |
| `BootDisk.SectorBytes` | create-boot-disk.js:137-186 | Every byte of the image: on each track the 16 even sectors take up the code before the odd ones |
| `IntelHex.ParseLine` | create-boot-disk.js:46-61 | A line gives the record it spells exactly when its checksum is right |
| `IntelHex.HexDigits` | create-boot-disk.js:46-52 | Digits are read in either case |
| `IntelHex.LineLayout` | create-boot-disk.js:46-52 | The bytes of a line: length, address with the high byte first, kind, data |
| `IntelHex.ParseIntelHex` | create-boot-disk.js:35-117 | At each address the image has the byte of the last data record covering it, or zero, up to the highest address; the first line with a wrong checksum, no data records, and an address below zero are the errors |
| `IntelHex.LastByteIsLast` | create-boot-disk.js:101-104 | That byte is the one of a covering record no later record covers |
| `IntelHex.PiecesAre` | create-boot-disk.js:75-82 | A data record covers the addresses from the base before it on |
| `IntelHex.UncoveredIsZero` | create-boot-disk.js:99-104 | It is zero where no record covers the address |
| `IntelHex.TopIsHighest` | create-boot-disk.js:78-99 | The image ends where the highest data record ends |
| `IntelHex.LineRoundTrip` | create-boot-disk.js:46-61 | A line written from a record spells that record with a right checksum |
| `IntelHex.GoodLineSumsToZero` | create-boot-disk.js:53-61 | A line is accepted if and only if all its bytes sum to zero modulo 256 |
| `IntelHex.AddressRecords` | create-boot-disk.js:75-92 | Records of kind 2 and 4 set the base to 16 and 65536 times their value |
| `IntelHex.BaseIsLastSet` | create-boot-disk.js:86-92 | The base is zero until the first address record, and then what the last one made it |
| `IntelHex.FileRoundTrip` | create-boot-disk.js:35-117 | A file written from records reads as those records |
| `IntelHex.OtherLinesAreSkipped` | create-boot-disk.js:42-44 | Lines that do not begin with a colon count for nothing |
| `IntelHex.RecordsAreUnique` | create-boot-disk.js:35-117 | Lines read as one list of records at most |

## Left out

- IntelHex.ParseLine: covers lines whose record part is hexadecimal digits throughout and long enough; how the number parser treats malformed digits, and values of address records beyond 53 bits, is not modelled.
- IntelHex.ParseIntelHex: covers files of such lines.
- Cpm.CpmFilesystem.constructor: takes images at least as long as the parameters say, with parameters given; the guess of a format from the bytes is a heuristic without a stated guarantee.
- Cpm.CpmFilesystem.WriteFile: names are printable ASCII, because case mapping and encoding of other characters are not modelled.
- Xmodem.XmodemSender.Send: the refusal of a second transfer while one is running is not modelled.
- Xmodem.Delivery: does not claim that a timeout is recovered from; XmodemInput.CompletesExactly says when it is.
- DriveManager.DriveManager.Write: the delays between attempts are not modelled, and the file does not change during them.
- The readiness queries of a session (`isMounted`, `isInSwapWindow`, `canWrite`), which read fields the model keeps, and STAT, READ and WRIT served from a session.
- Guessing the format of an image (`detectParams`, `validateDirectory`, `inferFormatFromSize`).
- Parsing of `user:name.ext` parameters.
- The raw attribute bytes an entry also carries in memory; they are never written back.
- The command loop around the three handlers (pausing, unknown commands, back-off), logging, progress reports and the track buffer kept for compatibility.
- Concurrency inside one operation: each method is one step. What a second request does between the file operations of one method is not modelled.
- The database beyond the table of recorded copies; real files, serial ports, timers and promises; routes, tools, configuration, authentication and the user interface.
- The virtual machine engine and the connection manager.
