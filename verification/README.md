# lux-kernel: verified models

This project models the stateful core of lux-kernel and proves what its parts are for.

* **LuxFS** (`LuxFilesystem.dfy` and the `Lux*.dfy` files around it): the file system over a sector disk
  whose transfers may fail in any pattern. The class `LuxFs` keeps superblock, inode table and both
  bitmaps in memory and writes them through. Its state means a `Volume`: a tree of directories and
  files (`LuxVolume.dfy`). Every operation is tied to an operation on volumes.
  Four layers of invariants: `Valid` holds in every run; `Healthy` (no leaked block, a tree) holds
  besides as long as no transfer fails; the ghost field `lag` names the metadata sectors whose disk
  copy may be behind memory; `NoHoles` says that every file is dense.
* **The shell's use of it** (`ShellPaths.dfy`, `ShellRedirection.dfy`): working directory, relative
  paths, and output redirection over a whole run.
* **The kernel heap** (`HeapBlocks.dfy`, `HeapMemory.dfy`, `KernelHeap.dfy`): headers live in the bytes
  of one arena; a ghost list of blocks says what they mean.
* **The terminal** (`TtyPixels.dfy`, `TtyFrames.dfy`, `TtyScreen.dfy`) and off-screen surfaces
  (`TermSurface.dfy`): cells, framebuffer and the four VGA bitplanes. The font is an arbitrary table.
* **The line editor** (`LineEditing.dfy`, `ShellInput.dfy`) and what it draws on the terminal
  (`PromptDrawing.dfy`), **64-bit division** (`Division64.dfy`),
  **number printing and parsing** (`Numbers.dfy`) and **memmove** (`MemoryMove.dfy`).

Statements that do not hold as one might expect, and what does hold:

* A truncating write at offset 512 or later leaves a hole at which reads stop
  (`LuxVolume.TruncatingWriteDense`, if and only if; `TruncatingWriteHole` is a concrete one). The file
  system's own contracts cover files with holes too: contents are a sequence of optional bytes. Redirection
  is stated for volumes without holes, which all other writes keep free of them (`LuxSessions.HistoryDense`).
* A write that runs out of blocks may already have overwritten part of its range, namely the bytes before the
  first that needs one block more than were free (`LuxWriting.RunsOut`, in every contract up to
  `LuxFs.Write`; `LuxOutcome.PartialOverwrite` is a concrete one). The visible bytes are as before if and only if those it
  overwrote were the same (`LuxStops.OverwrittenSame`); for an append they always are.
* Such a write leaves the inode on disk behind the one in memory, so that a reboot finds another volume, unless no
  block was free before and a truncation took back the blocks it freed. Both directions are proved
  (`LuxStops.StoppedUnchanged`, `LuxStops.RefilledUnchanged`, `LuxFs.Write`). Refused writes do no harm, and a run
  persists if every such write is followed by a successful one of the same table sector (`LuxSessions.Left` in
  `LuxSessions.Run` and `LuxSessions.Lifetime`).
* A mount reformats a disk with a valid volume when one of the nineteen reads of its metadata fails, and only then
  (`LuxFs.Mount`, `LuxSessions.Reboot`, in both directions). `LuxFaults.FailedReadReformats` loses any volume to any one of
  these reads.
* A write reports failure with all its data in place when only its last transfer fails; when an earlier one fails, the
  bytes before it are in place, and a hole in the block at hand may show what the disk held there before
  (`LuxOutcome.WriteRun`, which says for every pattern of failures which case it is). An append that fails so is
  invisible (`LuxWriting.CutAppendInvisible`).
* A directory append is visible in memory exactly when the transfers that lay the record succeed, also when the next one,
  of the inode, fails and the call reports failure (`LuxFs.AppendRecord`); creating a node then leaves a record that names
  a free inode (`LuxFs.Create`). `LuxFaults.FailedAppendShows` and `LuxFaults.FailedCreateLeavesRecord` are such runs.
* A redirection that appends keeps what the file holds only if the size can be found out: when the resolution of its path
  fails for a transfer a second time after the file was opened, it starts at offset zero and overwrites
  (`ShellRedirection.FileWriter.SeekEnd`, if and only if; `ShellRedirection.OverwrittenFromStart`).
* A resolved path is not terminated when the working directory is asked for and the buffer is too small for it, though
  success is reported (`ShellPaths.Shell.ResolvePath`, if and only if); the shell's own buffers are always large enough.
  `ShellPaths.HomeCutShort` is such a call.
* `align_up` wraps for sizes above 2^32 - 8 (`KernelHeap.AlignUpMeaning`); for a product there `calloc` is served from
  a block too small for what it zeroes, and for no other (`KernelHeap.OverlongProduct`).
* `term_surface_resize` asks for fewer cells than the surface has when their number exceeds 32 bits. Its copy stays inside
  what it was granted if and only if the last index it copies does (`TermSurface.CopyStaysInside`);
  `TermSurface.ResizeWraps` gives sizes for which two cells are granted and the index 3 is copied.
* Tab completion leaves the cursor before what it appended (`LineEditing.SecondTabDoesNothing`).
* The terminal has no bell: the character is put on the screen and the cursor moves on. A key after which the line fits
  the row leaves it shown, with the cursor in place, if and only if it does not sound the bell where nothing takes it
  away again (`PromptDrawing.DrawnShows`); `PromptDrawing.LeftSpoils` is the arrow to the left on an empty line.
* A relative path that is short enough alone may be refused once joined (`ShellPaths.JoinTooDeep`, exactly when;
  `ShellPaths.JoinedNine` from a directory at depth eight).
* The documentation of `fs_touch` says that it fails if an existing entry is not a regular file. The name is looked up
  twice, and a lookup that fails for a transfer counts as one that found nothing. On a directory whose name may be given
  to a new file it succeeds without making anything exactly when the first lookup fails so, the reads that then find the
  directory above succeed, and so does the second lookup; when that fails too it may make a second node of the name,
  and the volume is no tree any more (`LuxNamespace.TouchedDirectory`; `LuxNamespace.MakeRun` says for every pattern of
  failures what `fs_touch` and `fs_mkdir` do). `LuxFaults.FailedLookupTouchesDirectory` and `LuxFaults.FailedLookupsDuplicate` are
  such runs.

`Reliable` on a disk means that it is ready and that no transfer fails; contracts that mention it say what is
guaranteed then, all others hold for every pattern of failures.

## Model

| member | source | states |
|---|---|---|
| `Bytes.WordsRoundTrip` | src/kernel/fs/fs.c:322-328 | words stored in a metadata sector are the words loaded from it |
| `Bytes.WordPlace` | src/kernel/fs/fs.c:322-328 | word k of an array takes the four bytes from 4k on |
| `Bytes.WordBytes` | src/kernel/fs/fs.c:322-328 | the least significant byte of a word comes first |
| `Bitmap.BitWeights` | src/kernel/fs/fs.c:243-263 | bit k of a byte has the weight 2^k |
| `Bitmap.BitPlace` | src/kernel/fs/fs.c:243-263 | bit 8q + r of a bitmap is bit r of byte q |
| `Bitmap.PutBitOnly` | src/kernel/fs/fs.c:243-263 | setting a bit of the packed bitmap changes that bit and no other of any byte |
| `Bitmap.Extensional` | src/kernel/fs/fs.c:243-263 | two bitmaps that test alike at every index are the same bytes |
| `LuxFormat.SuperRoundTrip` | src/kernel/fs/fs.c:322-328 | a superblock written to its sector loads as the same superblock |
| `LuxFormat.SuperPlace` | src/kernel/fs/fs.c:28-39 | the ten fields of the superblock are its first ten words, in order |
| `LuxFormat.Geometry` | src/kernel/fs/fs.c:510-541 | the one superblock that is accepted, in numbers, but for the root inode; 128 inodes, eight a sector, data from sector 19 on, 4096 bytes in the largest file |
| `LuxFormat.InodeRoundTrip` | src/kernel/fs/fs.c:47-55 | all fields of an inode, padding included, survive the sector |
| `LuxFormat.InodePlace` | src/kernel/fs/fs.c:47-55 | at which bytes of its 60 an inode has its kind, size, parent and pointers |
| `LuxFormat.TableRoundTrip` | src/kernel/fs/fs.c:365-378 | an inode-table sector loads as exactly the eight inodes it was written from |
| `LuxFormat.TablePlace` | src/kernel/fs/fs.c:365-378 | inode j of table sector k takes the 60 bytes from 60j on |
| `LuxFormat.RecordRoundTrip` | src/kernel/fs/fs.c:57-60 | a directory record survives its 36 bytes |
| `LuxFormat.RecordPlace` | src/kernel/fs/fs.c:57-60 | a record is the inode number and the 32 bytes of the name field |
| `LuxFormat.NameFieldRoundTrip` | src/kernel/fs/fs.c:100-116 | a name copied into a zeroed record is read back as the same C string |
| `LuxVolume.FindRecordSound` | src/kernel/fs/fs.c:175-190 | a lookup fails exactly when no record has the name, and finds a record that has it |
| `LuxVolume.WalkConcat` | src/kernel/fs/fs.c:924-937 | resolving a path is resolving its first part and then the rest from there, `..` included |
| `LuxVolume.WalkBehind` | src/kernel/fs/fs.c:924-937 | one more component of a path: `..` leads to the parent of whatever was reached, a name to the first record of that name in a directory |
| `LuxVolume.WalkDirsMeaning` | src/kernel/fs/fs.c:971-988 | the walk to the directory above a path ends where the plain walk does, exactly if every name on the way leads to a directory |
| `LuxVolume.OneRecordEach` | src/kernel/fs/fs.c:1081-1096 | in the tree every node but the root lies in exactly one record, in the directory its parent field names |
| `LuxVolume.PathToResolves` | src/kernel/fs/fs.c:924-937 | every node is reachable: the names on its parent chain spell a path that resolves to it |
| `LuxVolume.WalkStaysInTree` | src/kernel/fs/fs.c:913-940 | a resolved path never ends at a free inode |
| `LuxVolume.AddNodeKeepsTree` | src/kernel/fs/fs.c:1081-1096 | a new node under a fresh valid name keeps the tree: unique names, unique records, parents before children, allocated inodes a prefix |
| `LuxVolume.AddedNode` | src/kernel/fs/fs.c:1081-1096 | a new node is empty and of the kind asked for, its record comes last in the directory, nothing else changes |
| `LuxVolume.OldPathsKept` | src/kernel/fs/fs.c:1057-1099 | after a create every path that resolved still resolves to the same inode |
| `LuxVolume.NewPathResolves` | src/kernel/fs/fs.c:1057-1099 | after a create the new path resolves to the new inode |
| `LuxVolume.NewPathsUseNewRecord` | src/kernel/fs/fs.c:1057-1099 | a path that newly resolves has a prefix that reaches the directory and is followed there by the new name |
| `LuxVolume.WalkIgnoresContents` | src/kernel/fs/fs.c:1328-1421 | changing a file's bytes changes no path |
| `LuxVolume.ReadIsSlice` | src/kernel/fs/fs.c:1264-1308 | reading a file without holes is slicing its bytes |
| `LuxVolume.WriteIsSplice` | src/kernel/fs/fs.c:1371-1420 | writing inside a file without holes is splicing, and leaves no hole |
| `LuxVolume.ReadAfterWrite` | src/kernel/fs/fs.c:1248-1421 | a read after a write returns old prefix, new data and old suffix |
| `LuxVolume.TruncatingWriteDense` | src/kernel/fs/fs.c:1360-1365 | a truncating write leaves a hole if and only if it starts at 512 or later; below that it reads as zeros and the data |
| `LuxVolume.TruncatingWriteHole` | src/kernel/fs/fs.c:1360-1365 | a concrete file whose bytes cannot be read from its start: one byte written at 512 with truncation |
| `LuxPaths.SegmentsJoin` | src/kernel/fs/fs.c:869-898 | two paths joined with a slash have the components of both |
| `LuxPaths.OnePiece` | src/kernel/fs/fs.c:880-887 | what lies between slashes is one piece, however long |
| `LuxPaths.SegmentsSpelled` | src/kernel/fs/fs.c:869-898 | a path spelled from pieces of any length has exactly these |
| `LuxPaths.SlashesVanish` | src/kernel/fs/fs.c:870-876 | slashes in front, behind or beside one another make no difference |
| `LuxPaths.TokensSpelled` | src/kernel/fs/fs.c:860-901 | a path spelled from pieces without `.` is accepted exactly if they are at most eight of at most 31 bytes, and these are its components |
| `LuxPaths.DotVanishes` | src/kernel/fs/fs.c:889-891 | a `.` that something follows makes no difference |
| `LuxPaths.FitsIffNoRun` | src/kernel/fs/fs.c:880-884 | a path has a piece that is too long exactly if it has 32 bytes in a row without a slash |
| `LuxPaths.AcceptedBytes` | src/kernel/fs/fs.c:860-901 | an accepted path has no such run and at most eight components; one of at most eight pieces without such a run is accepted |
| `LuxPaths.TokensAreNames` | src/kernel/fs/fs.c:860-901 | an accepted path has at most eight components, each `..` or a name that a record can hold |
| `LuxPaths.ReadComponent` | src/kernel/fs/fs.c:880-887 | one component is read, all its bytes up to the slash or the end, or refused when 32 bytes follow without a slash |
| `LuxPaths.Tokenize` | src/kernel/fs/fs.c:860-901 | accepts exactly the paths whose pieces fit and are no deeper than the limit, and yields their pieces without `.` |
| `SectorDisk.Disk.Initialize` | src/kernel/drivers/storage/ata_pio.c:182-221 | reports and records whether the drive is present |
| `SectorDisk.Disk.Read` | src/kernel/fs/fs.c:271-274 | a sector read returns the sector or fails |
| `SectorDisk.Disk.Write` | src/kernel/fs/fs.c:283-286 | a sector write stores exactly the buffer or fails and changes nothing |
| `SectorDisk.Disk.ReadData` | src/kernel/fs/fs.c:294-300 | data blocks outside the data region are refused |
| `SectorDisk.Disk.WriteData` | src/kernel/fs/fs.c:309-315 | data blocks outside the data region are refused; others are written to the data region only |
| `LuxLayout.NodeFrame` | src/kernel/fs/fs.c:681-745 | what an inode holds depends on its own data blocks alone |
| `LuxLayout.BytePlace` | src/kernel/fs/fs.c:1283-1302 | byte p of a file is byte p mod 512 of the sector that slot p / 512 points to, counted from sector 19 |
| `LuxLayout.MetaPlace` | src/kernel/fs/fs.c:23-26 | the superblock is in the first sector, the inode bitmap in the second, the block bitmap in the third |
| `LuxLayout.InodeOnDisk` | src/kernel/fs/fs.c:365-378 | inode 8k + j lies in sector 3 + k at byte 60j |
| `LuxLayout.MarkedIffOwned` | src/kernel/fs/fs.c:580-664 | with the two ownership invariants the block bitmap marks exactly the blocks that some inode points to |
| `LuxLayout.AssignBlock` | src/kernel/fs/fs.c:1384-1392 | giving a fresh block to an empty slot keeps pointers distinct, in range and marked, and leaks nothing |
| `LuxLayout.MarkOnly` | src/kernel/fs/fs.c:583-589 | a block whose bitmap write failed is marked and lost, but ownership holds |
| `LuxLayout.ReleaseBlocks` | src/kernel/fs/fs.c:625-642 | releasing an inode's blocks keeps ownership and leaks nothing |
| `LuxLayout.OverlaidConcat` | src/kernel/fs/fs.c:1376-1414 | two adjacent block writes are one write of the concatenation |
| `LuxLayout.OverlaidFile` | src/kernel/fs/fs.c:1376-1420 | bytes laid block by block, with the size raised, make the abstract file write |
| `LuxLayout.OverlaidPartly` | src/kernel/fs/fs.c:1384-1388 | a write that stopped early shows its bytes only as far as the old size reaches |
| `LuxLayout.OverlaidDirectory` | src/kernel/fs/fs.c:784-841 | 36 bytes laid at a directory's end, across a sector boundary or not, are one more record behind the old ones |
| `LuxUpdates.AllocThenFree` | src/kernel/fs/fs.c:652-664 | giving an inode out and taking it back restores the inode table and both bitmaps exactly |
| `LuxUpdates.NewInodeSteps` | src/kernel/fs/fs.c:550-570 | allocating an inode keeps the invariants and changes one node, whatever became of its sector writes |
| `LuxUpdates.FreedInodeSteps` | src/kernel/fs/fs.c:652-664 | freeing an inode keeps the invariants and frees one node, whatever became of its sector writes |
| `LuxUpdates.ChangedInode` | src/kernel/fs/fs.c:385-393 | changing an inode in memory makes no more than its own table sector lag behind |
| `LuxDirectories.UpToFinds` | src/kernel/fs/fs.c:755-772 | stopping at the first record with the name finds what a lookup in the whole directory finds |
| `LuxDirectories.UpToStop` | src/kernel/fs/fs.c:681-745 | records are delivered up to the first at which the callback stops, that one included |
| `LuxDirectories.UpToAll` | src/kernel/fs/fs.c:681-745 | all records are delivered if the callback never stops |
| `LuxDirectories.DeliveredMore` | src/kernel/fs/fs.c:718-741 | gathering the next piece of a sector yields the next record byte for byte when 36 bytes are complete |
| `LuxDirectories.MoreToRead` | src/kernel/fs/fs.c:681-745 | as long as the callback has not stopped, the next block has to be read |
| `LuxDirectories.ReadingMore` | src/kernel/fs/fs.c:1293-1302 | appending one block's part of a file continues the abstract read |
| `LuxDirectories.ReadingEnds` | src/kernel/fs/fs.c:1285-1288 | the read ends at the first hole, as the abstract read does |
| `LuxDirectories.BlockInRun` | src/kernel/fs/fs.c:1283-1302 | what the loop takes from a block belongs, all of it, to what the abstract read delivers there |
| `LuxStorage.NewBlock` | src/kernel/fs/fs.c:1384-1392 | a block taken into use disturbs no other inode's data |
| `LuxStorage.StoreExisting` | src/kernel/fs/fs.c:1394-1410 | rewriting part of an inode's block disturbs no other inode and no metadata sector |
| `LuxStorage.RoomIsCount` | src/kernel/fs/fs.c:784-841 | a directory is full at exactly 113 records |
| `LuxStorage.LayingMore` | src/kernel/fs/fs.c:800-837 | one more chunk of a record laid keeps all invariants, and only the last chunk can have taken a block |
| `LuxStorage.LaidMore` | src/kernel/fs/fs.c:800-837 | how many transfers lay a record: two for each block it reaches into, four for one that has to be allocated |
| `LuxStorage.NotAppended` | src/kernel/fs/fs.c:800-837 | an append that gave up leaves the visible records as they were |
| `LuxSpace.MissingGrows` | src/kernel/fs/fs.c:1376-1392 | how many blocks a longer write has to allocate |
| `LuxSpace.MissingConcat` | src/kernel/fs/fs.c:1376-1392 | what a write misses after another has filled its slots is what the two miss together less what the first did |
| `LuxSpace.AccountedStep` | src/kernel/fs/fs.c:580-593 | the blocks allocated so far are exactly those the bitmap lost |
| `LuxSpace.InOrderStep` | src/kernel/fs/fs.c:580-593 | new slots receive ascending blocks, each the lowest free one at the time |
| `LuxSpace.NotEnough` | src/kernel/fs/fs.c:1384-1388 | a write that finds no free block needed more than there were at the start |
| `LuxSpace.NewVolumeFree` | src/kernel/fs/fs.c:461-501 | a new volume has 4077 free blocks |
| `LuxSpace.RoomIsGrowth` | src/kernel/fs/fs.c:784-841 | a directory has room for a record exactly when it is not full and as many blocks are free as it would have to grow by, which is one if its last slot is empty |
| `LuxSpace.LaidAppends` | src/kernel/fs/fs.c:784-841 | a laid record takes as many blocks as the directory had to grow by, and changes no other inode |
| `LuxWriting.WritingMore` | src/kernel/fs/fs.c:1376-1414 | one round of the write loop lays exactly the next chunk and accounts for its block |
| `LuxWriting.WritingDone` | src/kernel/fs/fs.c:1416-1420 | after the last round the file holds the spliced bytes and everything else is untouched |
| `LuxWriting.WritingStopped` | src/kernel/fs/fs.c:1384-1388 | running out of blocks: exactly the bytes before the first that needs one block more than were free are in place, the size is the old one, and the space was not enough |
| `LuxWriting.StoppedAppendInvisible` | src/kernel/fs/fs.c:1384-1388 | an append that ran out of blocks has changed nothing that can be read |
| `LuxWriting.WritingDamaged` | src/kernel/fs/fs.c:1394-1410 | a failed transfer in the middle of a write damages that file's contents only |
| `LuxWriting.WritingCut` | src/kernel/fs/fs.c:1376-1414 | a write that ended early for a failed transfer: the bytes before are in place, and nothing else changed but a hole in the block at hand |
| `LuxWriting.CutAppendInvisible` | src/kernel/fs/fs.c:1376-1414 | an append that ended early, for whatever reason, has changed nothing that can be read |
| `LuxWriting.TruncatedOk` | src/kernel/fs/fs.c:1360-1365 | truncation leaves an empty file, no leak and every other node unchanged |
| `LuxStops.OverwrittenSame` | src/kernel/fs/fs.c:1376-1388 | a stopped write leaves the bytes of a file without holes as they were if and only if the part of the data that falls inside the file was there already |
| `LuxStops.OverwrittenWithHoles` | src/kernel/fs/fs.c:1376-1388 | the same for a file with holes: besides, the blocks touched must have none |
| `LuxStops.StoppedUnchanged` | src/kernel/fs/fs.c:1384-1388 | slots are filled before a write runs out if and only if a block was free |
| `LuxStops.RefilledUnchanged` | src/kernel/fs/fs.c:1360-1388 | truncating and refilling until no block is left restores the inode if and only if none was free and its blocks were ascending from the slot of the offset |
| `LuxStops.TakenBack` | src/kernel/fs/fs.c:580-642 | blocks taken when only the inode's own are free are those, in the same slots |
| `LuxStops.AbreastIff` | src/kernel/fs/fs.c:365-378 | when only one inode and the block bitmap changed, the table on disk still matches if and only if the inode is as it was |
| `LuxOutcome.SuppliedMore` | src/kernel/fs/fs.c:1371-1420 | after a write that found space, one behind it finds space if and only if one write of both would have, and leaves the same slots |
| `LuxOutcome.SpaceMeans` | src/kernel/fs/fs.c:1376-1392 | a write needs no block where all that it reaches into are there, and as many as it reaches into where it truncates or the file has none |
| `LuxOutcome.PartialOverwrite` | src/kernel/fs/fs.c:1376-1388 | a concrete partial overwrite: 513 bytes over a file of one block on a full disk fail after 512, which have replaced the old ones |
| `LuxOutcome.PlainRanOut` | src/kernel/fs/fs.c:1376-1388 | a write that ran out of blocks without truncating has left the inode as it was if and only if no block was free |
| `LuxOutcome.TruncatedRanOut` | src/kernel/fs/fs.c:1360-1388 | one that truncated has, if and only if no block was free and the file was empty with its blocks in the slots and the order in which they are taken again |
| `LuxOutcome.RanOutAbreast` | src/kernel/fs/fs.c:1360-1388 | whether the disk is as far abreast of memory after a write that ran out as before, from what a caller can see before the call |
| `LuxOutcome.TruncatedWrite` | src/kernel/fs/fs.c:1360-1420 | a truncation and the write behind it are one truncating write, also when the truncation fails |
| `LuxNamespace.AbsentTarget` | src/kernel/fs/fs.c:1063-1078 | when the parent resolves, the path is absent exactly when its last component is a valid name that the directory lacks |
| `LuxNamespace.TargetMeaning` | src/kernel/fs/fs.c:954-992 | in a tree the directory above a path and its last component are found exactly if the path tokenizes to components all of whose prefixes but the whole lead to directories, through `..` too |
| `LuxNamespace.MakeableIff` | src/kernel/fs/fs.c:1057-1152 | a node can be made exactly if every proper prefix of the path walks to a directory, the last component is a name that the directory reached lacks, and an inode and room are left |
| `LuxNamespace.CreateExtends` | src/kernel/fs/fs.c:1057-1152 | a create is a conservative extension of the namespace and keeps the tree |
| `LuxNamespace.CreateAddsNothingElse` | src/kernel/fs/fs.c:1057-1152 | a path that newly resolves goes through the new record |
| `LuxNamespace.TouchedDirectory` | src/kernel/fs/fs.c:1063-1078 | on a path that names a directory under a name that a file may have: fs_touch succeeds and makes nothing exactly when the lookup fails for a transfer, the reads that find the directory above succeed and the second lookup succeeds; it makes something only if that fails too, and then the volume is no tree |
| `LuxNamespace.TwiceTheName` | src/kernel/fs/fs.c:1076-1096 | a second record of a name in a directory is no tree |
| `LuxNamespace.LowestFree` | src/kernel/fs/fs.c:552-553 | the inode allocated is the number of nodes in the tree |
| `LuxNamespace.CreateOutcomes` | src/kernel/fs/fs.c:1057-1152 | success or failure of a create on a sound volume leaves a sound volume, with the new node or exactly as before; success takes exactly the blocks by which the directory has to grow |
| `LuxNamespace.WriteKeepsTree` | src/kernel/fs/fs.c:1328-1421 | a write keeps the tree and every path |
| `LuxNamespace.WrittenDense` | src/kernel/fs/fs.c:1328-1421 | writes other than a truncating one at 512 or later leave no hole, also when they stop early |
| `LuxNamespace.CreateExtendsVolume` | src/kernel/fs/fs.c:1057-1152 | a create keeps every resolved path, its kind, and freedom from holes |
| `LuxNamespace.WriteExtendsVolume` | src/kernel/fs/fs.c:1328-1421 | a write keeps every resolved path, its kind, and freedom from holes |
| `LuxMounting.PersistedMetaLoads` | src/kernel/fs/fs.c:403-432 | metadata that is entirely on disk loads as what it was in memory |
| `LuxMounting.FreshSound` | src/kernel/fs/fs.c:461-501 | a freshly formatted volume is sound and holds an empty root directory, whatever the data sectors hold |
| `LuxFilesystem.LuxFs.constructor` | src/kernel/fs/fs.c:77 | a freshly booted kernel has no volume mounted |
| `LuxFilesystem.LuxFs.LoadMetadata` | src/kernel/fs/fs.c:403-432 | memory becomes what the metadata sectors say exactly when the nineteen transfers succeed, or the load fails |
| `LuxFilesystem.LuxFs.Format` | src/kernel/fs/fs.c:461-501 | leaves a sound empty volume, all of it on disk, exactly when its nineteen transfers succeed, or fails unmounted |
| `LuxFilesystem.LuxFs.Mount` | src/kernel/fs/fs.c:1003-1035 | for every pattern of failed transfers: mounts exactly what the disk holds, without writing, if its metadata can be read and its superblock is valid, and otherwise formats the disk, also when only a read failed; a mounted volume is left alone, and without a disk nothing happens |
| `LuxFaults.FailedReadReformats` | src/kernel/fs/fs.c:1019-1024 | any volume that is entirely on disk is lost at the next mount when any one read of its metadata fails |
| `LuxFilesystem.LuxFs.FlushInode` | src/kernel/fs/fs.c:365-393 | the inode's table sector no longer lags behind memory; no data sector changes |
| `LuxFilesystem.LuxFs.AllocInode` | src/kernel/fs/fs.c:550-570 | the lowest free inode becomes an empty node, or none is free and nothing changes; succeeds exactly when one is free and both transfers succeed, and a failed transfer leaves the inode taken |
| `LuxFilesystem.LuxFs.AllocBlock` | src/kernel/fs/fs.c:580-593 | the lowest free block is marked, or none is free |
| `LuxFilesystem.LuxFs.FreeBlock` | src/kernel/fs/fs.c:601-613 | exactly that block is unmarked; out of range it fails and changes nothing |
| `LuxFilesystem.LuxFs.ReleaseInodeBlocks` | src/kernel/fs/fs.c:625-642 | all the inode's blocks become free again and no other; the inode is empty; succeeds exactly when the transfers do, one for each block |
| `LuxFilesystem.LuxFs.MarkInodeFree` | src/kernel/fs/fs.c:652-664 | the inode, its bit and its blocks are given back; every other node is unchanged |
| `LuxFilesystem.LuxFs.DirIterate` | src/kernel/fs/fs.c:681-745 | delivers exactly the directory's records, in order, up to the first at which the callback stops, and succeeds exactly when the blocks that hold these can be read |
| `LuxReading.DeliverChunk` | src/kernel/fs/fs.c:718-741 | cuts one block's bytes into records, carrying a partial one over |
| `LuxReading.IterateBlocks` | src/kernel/fs/fs.c:681-745 | delivers the records up to the first at which the callback stops; succeeds exactly when the blocks that hold them can be read, and reads no other |
| `LuxSearches.WalkedOn` | src/kernel/fs/fs.c:924-937 | one more lookup of a path's resolution: with its reads, it goes on or the whole resolution has failed |
| `LuxFilesystem.LuxFs.DirFind` | src/kernel/fs/fs.c:755-772 | finds the inode of the first record with the name; fails exactly when there is none or one of the blocks up to the one that holds it cannot be read |
| `LuxFilesystem.LuxFs.AppendRecord` | src/kernel/fs/fs.c:784-841 | for every pattern of failed transfers: the record is appended behind the others exactly when there is room and the transfers that lay it succeed, success is reported exactly when the one of the inode does too; without failed transfers a failure changes no metadata; a record that is laid takes exactly the blocks by which the directory has to grow |
| `LuxFaults.FailedAppendShows` | src/kernel/fs/fs.c:784-841 | a run in which the append of a record to an empty root fails and the record is there |
| `LuxFilesystem.LuxFs.Resolve` | src/kernel/fs/fs.c:913-940 | finds the inode that walking the components from the root reaches; for every pattern of failed transfers, fails exactly when the walk does or one of the blocks read on the way fails |
| `LuxFilesystem.LuxFs.ResolveParent` | src/kernel/fs/fs.c:954-992 | finds the directory above the last component, and that component; fails exactly when there is none or one of the blocks on the way fails |
| `LuxFilesystem.LuxFs.Create` | src/kernel/fs/fs.c:1081-1098 | for every pattern of failed transfers, exactly which of four outcomes: a new node and its record, everything as before, an inode lost, or a record left that names a free inode; without failures only the first two, decided by whether an inode and room for the record are left; no file is touched; success takes the lowest free inode, and the blocks by which the directory has to grow |
| `LuxFaults.FailedCreateLeavesRecord` | src/kernel/fs/fs.c:1081-1098 | a run in which creating a file fails and leaves a record that names a free inode |
| `LuxFilesystem.LuxFs.Mkdir` | src/kernel/fs/fs.c:1111-1152 | on a sound volume without failed transfers: creates the directory exactly when every proper prefix of the path walks to a directory, also through `..`, the last component is a name that this directory lacks, and an inode and room for a record are left; as a conservative extension, else it changes nothing; for every pattern of failed transfers, exactly what it does, from the lookups on |
| `LuxFilesystem.LuxFs.Touch` | src/kernel/fs/fs.c:1057-1099 | the same for files, and succeeds on a path that names a file; for every pattern of failed transfers exactly when it succeeds and what it makes |
| `LuxFaults.FailedLookupTouchesDirectory` | src/kernel/fs/fs.c:1063-1078 | a run in which fs_touch succeeds on a path that names a directory |
| `LuxFaults.FailedLookupsDuplicate` | src/kernel/fs/fs.c:1063-1096 | a run in which fs_touch makes a file beside a directory of the same name |
| `LuxFilesystem.LuxFs.ReadInode` | src/kernel/fs/fs.c:1264-1308 | the same for an inode of the volume: for every pattern of failed transfers it returns exactly what is there, or fails because one of the blocks on the way cannot be read |
| `LuxReading.ReadBlocks` | src/kernel/fs/fs.c:1264-1308 | for any inode with pointers in range, the bytes from the offset up to the length, the end or the first hole; succeeds exactly when the blocks up to there can be read, and reads no other |
| `LuxReading.BlockAhead` | src/kernel/fs/fs.c:1283-1302 | while bytes remain and the slot is no hole, the block at hand is one of those that the read transfers, and is the next of them |
| `LuxFilesystem.LuxFs.Read` | src/kernel/fs/fs.c:1248-1309 | reads the contents of the file that the path names; for every pattern of failed transfers it fails exactly when the path names no file or a transfer of its resolution or of the blocks read fails |
| `LuxFilesystem.LuxFs.Stat` | src/kernel/fs/fs.c:1215-1230 | kind and size of the node that the path names: the bytes of a file, 36 for each record of a directory; fails exactly when there is none or a transfer of its resolution fails |
| `LuxFilesystem.LuxFs.WriteInode` | src/kernel/fs/fs.c:1371-1420 | splices the data into the file, or stops at the first block that cannot be allocated or transferred, the bytes before it in place; succeeds exactly when the blocks it misses are no more than the free ones and all transfers succeed, two for each block and one for the inode; when only the last fails all data is in place |
| `LuxFilesystem.LuxFs.Truncate` | src/kernel/fs/fs.c:1360-1365 | the file is empty and its blocks are free; succeeds exactly when the transfers do, one for each block |
| `LuxFilesystem.LuxFs.WriteFile` | src/kernel/fs/fs.c:1360-1420 | the file holds the old or empty contents with the data spliced in; otherwise with the data up to the first block that could not be allocated or transferred, and, when it was space that lacked, the inode is as before exactly when none was free and, if truncated, it was refilled; for every pattern of failed transfers, exactly which |
| `LuxFilesystem.LuxFs.Write` | src/kernel/fs/fs.c:1328-1421 | accepts exactly writes that end within 4096 bytes and start within the file or truncate it, refuses all others and then changes nothing, changes that file's contents only, splices exactly, succeeds exactly when there is space and all transfers succeed, from the path's resolution to the inode, and else stops exactly at the first block that is missing or fails; keeps a sound volume sound; a disk abreast of memory stays so if and only if the write is not one that is accepted, lacks space and changes its inode |
| `LuxSessions.Run` | src/kernel/fs/fs.c:1057-1421 | over every sequence of calls and every pattern of failed transfers ownership and consistency hold; without failures the volume stays a sound tree, each call does what is promised of it in the state it finds, and at the end only those table sectors are behind memory that were before or that writes lacking space have left behind since a successful write last brought them up to date |
| `LuxSessions.LeftNothing` | src/kernel/fs/fs.c:1384-1421 | if no call is a write that is accepted, lacks space and changes its inode, nothing is left behind |
| `LuxSessions.HistoryExtends` | src/kernel/fs/fs.c:1057-1421 | over every such run each resolved path keeps its node and kind |
| `LuxSessions.HistoryDense` | src/kernel/fs/fs.c:1057-1421 | and no hole appears unless a write truncates and starts at 512 or later |
| `LuxSessions.Reboot` | src/kernel/fs/fs.c:1003-1035 | a new mount of a disk that is abreast of memory finds the identical superblock, bitmaps, inode table and volume, and does not reformat, if the reads of the metadata succeed, and finds an empty volume or none if one fails |
| `LuxSessions.Lifetime` | src/kernel/fs/fs.c:1003-1035 | a blank disk formatted, used by any calls that leave nothing behind in the end, and rebooted shows the volume those calls made of an empty one |
| `ShellPaths.Normalize` | src/kernel/shell/shell.c:656-666 | drops trailing slashes and nothing else, and never changes the path's components |
| `ShellPaths.Shell.ResolvePath` | src/kernel/shell/shell.c:1439-1479 | fails exactly when the buffer is too small for the path; the result has the components of the path seen from the working directory, and is cut short without a NUL exactly when the working directory is asked for and does not fit; the result is the path itself, or the working directory, a slash and the path, less slashes at the end |
| `ShellPaths.HomeCutShort` | src/kernel/shell/shell.c:1445-1452 | the working directory /home asked for into three bytes is cut short, and success is reported |
| `ShellPaths.RelativeWalk` | src/kernel/shell/shell.c:1465-1478 | whenever the joined path tokenizes, it resolves to what walking the relative path from the working directory reaches |
| `ShellPaths.JoinTooDeep` | src/kernel/shell/shell.c:1465-1478 | exactly when a relative path that tokenizes alone is refused once joined |
| `ShellPaths.JoinedNine` | src/kernel/shell/shell.c:1465-1478 | a name that is accepted alone and refused from a working directory at depth eight |
| `ShellPaths.Shell.SetCwdString` | src/kernel/shell/shell.c:677-689 | the new directory string has the same components when it fits, and is absolute exactly if the given one was |
| `ShellPaths.Shell.SetCwd` | src/kernel/shell/shell.c:1491-1509 | without failed transfers succeeds exactly when the path, seen from the working directory, fits and names a directory |
| `ShellPaths.CwdStays` | src/kernel/shell/shell.c:1491-1509 | no later call takes the working directory away |
| `ShellRedirection.FileWriter.Init` | src/kernel/shell/shell.c:359-395 | on a sound volume without failed transfers succeeds exactly when the path fits and the target is a file or can be created, and else changes nothing; then the target exists with its old contents, the writer stands at its end or is about to truncate, and a new target has no blocks and has taken those by which its directory grew; in every run, a target that is found is opened so |
| `ShellRedirection.OpenableMeans` | src/kernel/shell/shell.c:381-385 | a target can be opened exactly if it walks to a file or a node can be made there |
| `ShellRedirection.FileWriter.SeekEnd` | src/kernel/shell/shell.c:387-392 | appending starts at the end of the file exactly when no read of the stat fails, and at its start otherwise |
| `ShellRedirection.OverwrittenFromStart` | src/kernel/shell/shell.c:387-392 | then the first chunk written replaces the beginning of the text that was to be kept |
| `ShellRedirection.FileWriter.Emit` | src/kernel/shell/shell.c:409-425 | a chunk lands behind what is there; for every pattern of failed transfers exactly what the file holds then: the chunk is there if there was room and none but perhaps the last transfer failed, and otherwise what was there before, or nothing if it was truncated; a failing one, once something was written and without failed transfers, leaves the visible contents as they were |
| `ShellRedirection.EmitLeaves` | src/kernel/shell/shell.c:409-425 | in every run what a chunk leaves: text and chunk, what was there before, or nothing, decided by room and transfers |
| `ShellRedirection.FileWriter.Finalize` | src/kernel/shell/shell.c:436-446 | a truncation still pending empties the file, in every run in which its path can be resolved, whatever else fails |
| `ShellRedirection.EmitOutcome` | src/kernel/shell/shell.c:409-425 | what one write of the redirection leaves in the file, on success and on failure |
| `ShellRedirection.EmitHasRoom` | src/kernel/shell/shell.c:409-425 | one write of the redirection finds room exactly if the whole text so far and its data had room at the start |
| `ShellRedirection.Redirect` | src/kernel/shell/shell.c:1334-1412 | over a whole run, begun exactly when the path fits and the target is a file or can be created, the target holds the old text (none when truncating) and all chunks exactly if there is room for them, judged from before the call: in the target's own blocks and the free ones, or, for a new target, in the free ones less those its directory grows by; else those before the first without room, or, when that is the first of a truncation, nothing, or the old text if the chunk exceeds the largest file. In every run in which the target is found: the old text and the chunks before the one that failed, perhaps with it, or what it held if the truncation was never made |
| `ShellRedirection.RedirectedFrom` | src/kernel/shell/shell.c:359-395 | the room after the opening is the room that could be seen before it |
| `ShellRedirection.NewTargetRoom` | src/kernel/shell/shell.c:359-395 | a new target takes all of a text exactly if it is no longer than the largest file and reaches into no more blocks than are free once its directory has grown |
| `HeapBlocks.Ordered` | src/kernel/lib/malloc.c:15-20 | earlier blocks end before later ones begin |
| `HeapBlocks.PayloadsDisjoint` | src/kernel/lib/malloc.c:15-20 | payloads are disjoint, and no header lies in a payload |
| `HeapBlocks.Aligned` | src/kernel/lib/malloc.c:29-33 | every payload is aligned to eight and inside the arena |
| `HeapBlocks.FirstFit` | src/kernel/lib/malloc.c:91-101 | the first free block that is large enough, if any |
| `HeapBlocks.CarveKeeps` | src/kernel/lib/malloc.c:43-67 | allocation keeps the tiling of the arena and leaves no two free neighbours |
| `HeapBlocks.CarveUsed` | src/kernel/lib/malloc.c:117-136 | allocation adds exactly one block to those in use and moves none |
| `HeapBlocks.CarveTakes` | src/kernel/lib/malloc.c:43-67 | an allocation of n bytes takes the block whole if at most 24 more are there, and otherwise exactly n, with the rest less 16 a free block behind; used and free bytes and blocks change by just that |
| `HeapBlocks.ReleaseKeeps` | src/kernel/lib/malloc.c:69-89 | freeing keeps the tiling and leaves no two free neighbours |
| `HeapBlocks.ReleaseUsed` | src/kernel/lib/malloc.c:138-151 | freeing takes exactly one block from those in use and moves none |
| `HeapBlocks.ReleaseStatistics` | src/kernel/lib/malloc.c:138-151 | freeing turns exactly the bytes of the block from used into free ones, and the headers that vanish |
| `HeapBlocks.ReleaseUndoesCarve` | src/kernel/lib/malloc.c:43-89 | freeing a block right after its allocation restores the list exactly, split or not |
| `HeapBlocks.ReleaseAllIsInitial` | src/kernel/lib/malloc.c:138-151 | freeing all blocks in use, in any order, ends with the single initial free block |
| `HeapBlocks.StatisticsAddUp` | src/kernel/lib/malloc.c:197-243 | used, free and header bytes add up to the total reported |
| `HeapBlocks.FitIffLargest` | src/kernel/lib/malloc.c:91-101 | a block is found exactly when the size is at most the largest free block |
| `HeapMemory.Assigned` | src/kernel/lib/malloc.c:15-20 | storing one header field changes that field of that header and no other header |
| `HeapMemory.SplitRepresents` | src/kernel/lib/malloc.c:43-67 | the stores of split_block make the headers of the split list and touch no other payload |
| `HeapMemory.MergeRepresents` | src/kernel/lib/malloc.c:69-89 | the stores of either half of coalesce make the headers of the merged list and touch no payload |
| `HeapMemory.MarkRepresents` | src/kernel/lib/malloc.c:134 | storing the free flag touches no payload and no link |
| `HeapMemory.PayloadWrite` | src/kernel/lib/malloc.c:176 | whatever the owner of a block writes into its payload, the list and every other payload survive |
| `KernelHeap.AlignUpMeaning` | src/kernel/lib/malloc.c:29-33 | rounding up is exact if and only if the size is at most 2^32 - 8; above, it wraps to zero |
| `KernelHeap.Heap.Init` | src/kernel/lib/malloc.c:103-115 | the first use makes the single free block; later calls change nothing |
| `KernelHeap.Heap.FindBlock` | src/kernel/lib/malloc.c:91-101 | walks the links to the first fitting block |
| `KernelHeap.Heap.SplitBlock` | src/kernel/lib/malloc.c:43-67 | splits exactly when more than a minimal block, of 24 bytes with its header, is left over; no other payload changes |
| `KernelHeap.Heap.Coalesce` | src/kernel/lib/malloc.c:69-89 | joins a freed block with free neighbours on both sides; no payload changes |
| `KernelHeap.Heap.Malloc` | src/kernel/lib/malloc.c:117-136 | takes the lowest fitting block, succeeds exactly when the rounded size is at most the largest free block; the block has at most 24 bytes more than the rounded size, what is left over is a free block behind it, and the statistics change by that; changes no payload in use |
| `KernelHeap.UsedKeptMeans` | src/kernel/lib/malloc.c:43-67 | what is kept is every byte of every payload in use |
| `KernelHeap.Heap.Free` | src/kernel/lib/malloc.c:138-151 | releases the block; null, foreign addresses and blocks already free change nothing; no payload changes |
| `KernelHeap.Heap.Calloc` | src/kernel/lib/malloc.c:160-178 | refuses exactly the products that overflow; otherwise as malloc, with every byte of the product zeroed |
| `KernelHeap.OverlongProduct` | src/kernel/lib/malloc.c:160-178 | the block that serves a product is large enough for it exactly up to 2^32 - 8 |
| `KernelHeap.OverlongProductServed` | src/kernel/lib/malloc.c:160-178 | 2^32 - 1 bytes, as 65535 times 65537, are served by a block of none |
| `KernelHeap.Heap.GetStats` | src/kernel/lib/malloc.c:197-243 | the sums and maxima over the blocks, also before the heap is initialised |
| `KernelHeap.InitialStatistics` | src/kernel/lib/malloc.c:197-243 | an unused heap has one free block of 65520 bytes |
| `KernelHeap.MallocThenFree` | src/kernel/lib/malloc.c:117-151 | a block freed at once: the list is what it was and payloads in use are unchanged |
| `KernelHeap.FreeEvery` | src/kernel/lib/malloc.c:138-151 | freeing every block in use, in any order, ends with the one initial block |
| `KernelHeap.OverflowCheck` | src/kernel/lib/malloc.c:166-169 | the division check is true exactly for products below 2^32 |
| `Division64.DivMod` | src/kernel/lib/div64.c:17-43 | quotient and remainder of every 64-bit pair in wrapping arithmetic; zero for a zero divisor |
| `Division64.NoBitLost` | src/kernel/lib/div64.c:32 | the shift of the remainder never loses a bit, even for divisors above 2^63 |
| `Division64.Step` | src/kernel/lib/div64.c:31-37 | one round keeps the division of the bits handled so far, and or-ing in a quotient bit is adding it |
| `Numbers.DigitRoundTrip` | src/kernel/shell/commands/printf.c:15-27 | digit_value inverts both digit tables |
| `Numbers.DigitAlphabet` | src/kernel/shell/commands/printf.c:15-27 | the digits are those of ASCII, with letters of the case asked for |
| `Numbers.DigitAccepted` | src/kernel/shell/commands/printf.c:15-27 | a character that counts as a digit is one of either case |
| `Numbers.DigitsValue` | src/kernel/lib/printf.c:60-84 | printed digits denote the number printed |
| `Numbers.DigitsCanonical` | src/kernel/lib/printf.c:60-84 | no leading zero, and digits of one case |
| `Numbers.PrintedValue` | src/kernel/shell/commands/printf.c:145-170 | a text without leading zeros in the right case is what its value prints as |
| `Numbers.FewDigits` | src/kernel/lib/printf.c:64 | a value below 2^k has at most k digits in any base |
| `Numbers.WriteUnsigned` | src/kernel/lib/printf.c:60-84 | writes a text without leading zeros in the base and case asked for whose value there is the number; a base outside 2..16 counts as ten; at most 64 digits, so the 65-byte buffer never truncates |
| `Numbers.WriteSigned` | src/kernel/shell/commands/printf.c:181-190 | a minus sign exactly for negative values, and the decimal digits of the magnitude, also for the least value |
| `Numbers.ParseUnsigned` | src/kernel/shell/commands/printf.c:38-56 | succeeds exactly on non-empty digit texts and yields their value modulo 2^64 |
| `Numbers.ParseAuto` | src/kernel/shell/commands/printf.c:66-76 | hexadecimal with a prefix that something follows, else decimal |
| `Numbers.NumberTexts` | src/kernel/shell/commands/printf.c:66-76 | which texts are numbers, and of which value: decimal digits, or hexadecimal ones behind 0x or 0X; a prefix alone is none |
| `Numbers.ParseHex` | src/kernel/shell/commands/printf.c:84-93 | hexadecimal with an optional prefix |
| `Numbers.ParseSigned` | src/kernel/shell/commands/printf.c:102-131 | an optional sign and a number; the value as the casts make it |
| `Numbers.SignedTexts` | src/kernel/shell/commands/printf.c:102-131 | with a sign in front the value is the number or its negative, modulo 2^64 |
| `Numbers.UnsignedRoundTrip` | src/kernel/shell/commands/printf.c:38-56 | every 64-bit value printed in any base and case parses back without wrapping |
| `Numbers.SignedRoundTrip` | src/kernel/shell/commands/printf.c:102-190 | every signed value printed in decimal parses back; for -2^63 this takes the negation to be two's complement, which C leaves undefined |
| `Numbers.PointerRoundTrip` | src/kernel/shell/commands/printf.c:197-201 | a printed pointer parses back |
| `Numbers.BufferContext.Emit` | src/kernel/lib/printf.c:241-253 | a character is stored while there is room for it and the terminator, and counted always |
| `Numbers.FormatInto` | src/kernel/lib/printf.c:268-287 | as much text as fits and a terminator are stored, nothing behind is touched, and the full length is returned |
| `MemoryMove.MemMove` | src/kernel/lib/string.c:27-49 | the destination receives what the source held before, also when they overlap, and nothing else changes |
| `MemoryMove.MovedMeans` | src/kernel/lib/string.c:27-49 | element by element: inside the destination what lay at the same place of the source, elsewhere what was there |
| `TtyPixels.BitReverseBits` | src/kernel/drivers/video/tty.c:106-111 | bit k of the reversed byte is bit 7 - k |
| `TtyPixels.CursorVisible` | src/kernel/drivers/video/tty.c:229-233 | the cursor's colour differs from the background it stands on |
| `TtyPixels.PixelIsFontBit` | src/kernel/drivers/video/tty.c:178-208 | a pixel has the low four bits of the colour byte where the font has a bit and the high four elsewhere; NUL looks like a space |
| `TtyPixels.CursorBits` | src/kernel/drivers/video/tty.c:229-233 | the cursor has the colour of the glyph, or its complement where both colours are the same |
| `TtyPixels.PlaneByteIsFontByte` | src/kernel/drivers/video/tty.c:120-208 | the font's bit reversal and the packing order cancel: a plane's byte is the font byte, its complement, all ones or all zeros, as bits p and p + 4 of the colour byte say |
| `TtyFrames.ShownIsRender` | src/kernel/drivers/video/tty.c:278-289 | the drawn state is: every pixel of the screen is the one a full render puts there |
| `TtyFrames.VideoMemoryIsFont` | src/kernel/drivers/video/tty.c:141-208 | every byte of video memory, at offset 80 (16 row + line) + column of a plane, is the font byte of the character or its complement, all ones or all zeros, as bits p and p + 4 of the colour byte select; under the cursor, the last two lines, all ones or zeros |
| `TtyFrames.RedrawnPacked` | src/kernel/drivers/video/tty.c:141-168 | redrawing and flushing one cell keeps all planes the packing of the framebuffer |
| `TtyFrames.RedrawnPlain` | src/kernel/drivers/video/tty.c:178-208 | drawing one cell disturbs no other |
| `TtyScreen.Tty.constructor` | src/kernel/drivers/video/tty.c:340-361 | a blank screen, fully drawn, with the cursor at the top left |
| `TtyScreen.Tty.WriteVga` | src/kernel/drivers/video/tty.c:162-163 | a byte written to video memory reaches exactly the planes of the map mask |
| `TtyScreen.Tty.PackRow` | src/kernel/drivers/video/tty.c:152-159 | eight pixels become four bytes, one bit of colour each |
| `TtyScreen.Tty.FlushCell` | src/kernel/drivers/video/tty.c:141-168 | the cell's bytes in all planes become the packing of its pixels, and no other byte changes |
| `TtyScreen.Tty.DrawGlyph` | src/kernel/drivers/video/tty.c:178-208 | the cell shows its glyph in its colours, in framebuffer and planes; no other cell changes |
| `TtyScreen.Tty.DrawCursorBlock` | src/kernel/drivers/video/tty.c:223-247 | the cell shows the cursor block over its glyph |
| `TtyScreen.Tty.RedrawCursor` | src/kernel/drivers/video/tty.c:256-269 | from any state in which only the old overlay's cell may be wrong, the screen becomes a full render |
| `TtyScreen.Tty.RenderScreen` | src/kernel/drivers/video/tty.c:278-289 | from any pixels at all, the screen becomes a full render |
| `TtyScreen.Tty.Scroll` | src/kernel/drivers/video/tty.c:299-329 | rows move up, blanks appear below, and the screen is a full render; nothing happens while the cursor is on screen |
| `TtyScreen.Tty.Putc` | src/kernel/drivers/video/tty.c:384-434 | cells and cursor change as the character says and the screen is a full render, through line ends, scrolling and backspace |
| `TtyScreen.TypedMeans` | src/kernel/drivers/video/tty.c:384-434 | on 30 rows of 80: a carriage return goes to the start of the row, a newline to that of the next, a backspace back by one cell, which it blanks, any other character fills the cell and goes on; beyond the last row the rows move up |
| `TtyScreen.Tty.Write` | src/kernel/drivers/video/tty.c:442-447 | a buffer is its characters one after the other |
| `TtyScreen.Tty.Clear` | src/kernel/drivers/video/tty.c:469-482 | all cells blank in the current colour, fully drawn |
| `TtyScreen.Tty.WriteCell` | src/kernel/drivers/video/tty.c:516-530 | exactly that cell changes, the cursor stays drawn; off the screen nothing happens |
| `TtyScreen.Tty.GetCell` | src/kernel/drivers/video/tty.c:539-562 | the cell, or a zero cell off the screen |
| `TtyScreen.Tty.SetCursorPosition` | src/kernel/drivers/video/tty.c:577-589 | the cursor moves to the clamped position and is the only one drawn |
| `TtyScreen.Tty.SetColor` | src/kernel/drivers/video/tty.c:368-371 | later characters are drawn in the colour, what is on the screen stays |
| `TtyScreen.BackspaceTakesBack` | src/kernel/drivers/video/tty.c:384-434 | a backspace takes back a printed character across line ends and scrolls: cursor back on its cell, that cell blank, all others as before |
| `TermSurface.ScrollComposes` | src/kernel/drivers/video/term.c:324-394 | scrolling by a and then b in one direction is scrolling by a + b |
| `TermSurface.ScrollBackLoses` | src/kernel/drivers/video/term.c:324-394 | scrolling back does not undo: what left the region is blank |
| `TermSurface.Surface.ScrollRegion` | src/kernel/drivers/video/term.c:324-394 | the rows of the region move, also where source and destination overlap, vacated rows are filled, rows outside stay |
| `TermSurface.ScrolledRows` | src/kernel/drivers/video/term.c:324-394 | a positive distance moves the rows up, a negative one down, and blank ones follow or come before |
| `TermSurface.Surface.Resize` | src/kernel/drivers/video/term.c:127-161 | the overlap is kept, new cells are zero, the cursor is moved inside; without memory nothing changes; a granted allocation is of a number of cells that fits 32 bits |
| `TermSurface.FittedCells` | src/kernel/drivers/video/term.c:127-161 | a resized surface has the old cells where both have some, and zeros elsewhere |
| `TermSurface.CopyStaysInside` | src/kernel/drivers/video/term.c:147-151 | the copy stays inside the cells granted if and only if its last index does |
| `TermSurface.ResizeWraps` | src/kernel/drivers/video/term.c:139-151 | the cells granted hold what is copied whenever their number fits 32 bits, and sizes for which they do not |
| `TermSurface.GrowAndShrink` | src/kernel/drivers/video/term.c:127-161 | growing and shrinking back restores the contents |
| `TermSurface.Surface.FlushRegion` | src/kernel/drivers/video/term.c:421-447 | inside the rectangle the terminal shows the surface, outside it nothing changes, though only differing cells are written |
| `TermSurface.RegionFlushed` | src/kernel/drivers/video/term.c:421-447 | cell by cell: those of the rectangle that the surface has are shown, all others are as before |
| `TermSurface.Surface.Flush` | src/kernel/drivers/video/term.c:456-464 | the terminal shows the whole surface and its cursor |
| `ShellInput.History.Add` | src/kernel/shell/shell.c:543-574 | a line with a byte other than a space or a tab among its first 127 becomes, cut to these, the newest entry and the oldest of sixteen gives way; any other changes nothing |
| `ShellInput.RememberedMeans` | src/kernel/shell/shell.c:543-574 | the same of the list of lines |
| `ShellInput.History.Get` | src/kernel/shell/shell.c:582-589 | the entry that many lines back, or none |
| `ShellInput.NewestSixteen` | src/kernel/shell/shell.c:543-589 | after any lines the ring holds the newest sixteen that were not blank, newest first |
| `LineEditing.Pressed` | src/kernel/shell/shell.c:1040-1219 | after every key the cursor is in the text, the text fits, and a line is saved exactly while history is shown |
| `LineEditing.KeysMove` | src/kernel/shell/shell.c:1064-1214 | left and right move the cursor by one within the text, Home and End to its start and end; the text stays |
| `LineEditing.StepsReachEnds` | src/kernel/shell/shell.c:1064-1214 | k times left or right move the cursor by k, or to the end of the text |
| `LineEditing.KeysEdit` | src/kernel/shell/shell.c:1064-1214 | which byte backspace, delete and a typed character take out or put in, when they do nothing, and that they leave the history |
| `LineEditing.BackspaceUndoesInsert` | src/kernel/shell/shell.c:1179-1214 | a backspace takes out what was inserted |
| `LineEditing.DeleteIsRightBackspace` | src/kernel/shell/shell.c:1139-1152 | delete is a step right and a backspace |
| `LineEditing.TypingSplices` | src/kernel/shell/shell.c:1202-1214 | typing splices the text in at the cursor |
| `LineEditing.Ups` | src/kernel/shell/shell.c:1064-1092 | k times up shows the k-th newest line and keeps the typed one |
| `LineEditing.UpsAndDowns` | src/kernel/shell/shell.c:1064-1117 | k times up and k times down restore the typed line |
| `LineEditing.SharedIsLongest` | src/kernel/shell/shell.c:964-985 | what completion computes is the longest common prefix of all matching commands |
| `LineEditing.CompletionIsShared` | src/kernel/shell/shell.c:940-1025 | the completed text is a prefix of every matching command, the longest that fits, or the one command and a space |
| `LineEditing.CompletedWhen` | src/kernel/shell/shell.c:940-1025 | nothing is completed on an empty line, behind a space or without a match; a single match that fits is completed and gets a space |
| `LineEditing.SecondTabDoesNothing` | src/kernel/shell/shell.c:993-1009 | completion does not move the cursor past what it appends, so a second Tab at once changes no text |
| `ShellInput.Editor.Press` | src/kernel/shell/shell.c:1064-1214 | the buffer, cursor and history state change as the key says |
| `ShellInput.Editor.FindMatches` | src/kernel/shell/shell.c:964-985 | the matching commands and the length they share |
| `ShellInput.ReadLine` | src/kernel/shell/shell.c:1040-1219 | the accepted line is what the keys before the first newline make of an empty line, terminated in the buffer; Ctrl-C discards it |
| `PromptDrawing.TypedInRow` | src/kernel/shell/shell.c:847-853 | a text that ends before the end of the row is put there, and nothing else on the screen changes |
| `PromptDrawing.RefreshShows` | src/kernel/shell/shell.c:870-893 | refreshing the line shows the prompt and the text, blanks behind them, and the cursor where it is in the text |
| `PromptDrawing.AllTypedFresh` | src/kernel/shell/shell.c:903-914 | typing where nothing is behind the cursor leaves nothing behind it, through line ends and scrolling |
| `PromptDrawing.ListShows` | src/kernel/shell/shell.c:903-914 | after a list of matches the prompt and the text are on a row of their own |
| `PromptDrawing.BellThenRefresh` | src/kernel/shell/shell.c:952-960 | a bell inside the text is redrawn over; behind the text it stays, unless it was put in the last column |
| `PromptDrawing.TabShows` | src/kernel/shell/shell.c:940-1025 | Tab leaves the line shown exactly if it does not sound the bell behind the text |
| `PromptDrawing.DrawnShows` | src/kernel/shell/shell.c:1040-1219 | a key leaves the line shown if and only if it does not sound the bell where that stays and the new text leaves room in the row |
| `PromptDrawing.LeftSpoils` | src/kernel/shell/shell.c:1118-1126 | the arrow to the left on an empty line puts a character behind the prompt and moves the cursor behind it |
| `PromptDrawing.KeysShow` | src/kernel/shell/shell.c:1040-1219 | the row shows the line after any keys none of which spoils it |
| `PromptDrawing.PromptShows` | src/kernel/shell/shell.c:763-767 | the prompt at the start of a row shows the empty line |
| `PromptDrawing.RefreshPromptLine` | src/kernel/shell/shell.c:870-893 | draws the prompt, the text and blanks over what was left, and puts the cursor back |
| `PromptDrawing.ListMatches` | src/kernel/shell/shell.c:903-914 | draws the matching names one a line, then the prompt and the text |
| `PromptDrawing.LinesConcat` | src/kernel/shell/shell.c:903-914 | every listed name is on a line of its own, in order |
| `PromptDrawing.BellRings` | src/kernel/shell/shell.c:1064-1214 | which keys print the bell and change nothing else, and which draw nothing |
| `PromptDrawing.TabDraws` | src/kernel/shell/shell.c:940-1025 | Tab lists all commands on an empty line, and prints the bell behind a space, inside the text or without a match |
| `PromptDrawing.PressDrawn` | src/kernel/shell/shell.c:1064-1214 | line and screen after a key |
| `PromptDrawing.PressShown` | src/kernel/shell/shell.c:1064-1214 | a row that shows the line before the key shows it afterwards if and only if the key does not spoil it and the text fits |
| `PromptDrawing.ReadLineShown` | src/kernel/shell/shell.c:1040-1219 | the line accepted and the whole screen after the keys that arrive |

## Left out

- LuxFilesystem.LuxFs: the inode table and the bitmaps are fields of type `seq` that the methods reassign, not arrays changed in place; aliasing between them is not modelled.
- SectorDisk.Disk: the ATA registers, timeouts and multi-sector transfers are reduced to a sector that is transferred exactly or not at all; the drive's IDENTIFY exchange is reduced to its outcome.
- LuxFilesystem.LuxFs.Mount: an image with a valid superblock and inconsistent other metadata is mounted as the code does, and nothing is claimed about it.
- LuxFilesystem.LuxFs.Touch: in runs with failed transfers nothing is claimed if the path leads to an inode that is not a directory, as in an image with inconsistent parents.
- LuxFilesystem.LuxFs.Mkdir: as for Touch.
- LuxFilesystem.LuxFs.WriteInode: what a block that was allocated and could not be written shows in place of a hole is left open; it is what the disk held there.
- LuxSessions.Run: only an upper bound of the sectors behind memory; a later write that lacks space may by chance restore an inode that an earlier one changed.
- SectorDisk.Disk.Initialize: only the outcome of the IDENTIFY exchange is modelled; the number of sectors it reports is a constant of the disk.
- Crash consistency: reboots happen after completed calls; LuxFS has no journal.
- fs_list: the entries it builds from the records that DirIterate delivers.
- Several loops and halves of functions are methods of their own (`SetUpInode`, `Enter`, `MkdirMounted`, `Allocate`, `LayChunk`, `WriteChunk`, `EmitAll`, `WriteBlocks`, `CutOff`, `PaintRow` and others); they have no counterpart in the source.
- ShellPaths.Normalize: works on a value, not on the character buffer in place; so do the path buffers of the shell.
- ShellRedirection.Redirect: the output of a command is given as its chunks; parsing and running pipelines is not modelled (a pipeline with an empty or unknown command, or an interrupted one, ends before the finalization). With failed transfers nothing is claimed if the target is new or a read that finds it fails; FileWriter.Emit and FileWriter.Finalize say then what each step does.
- KernelHeap.Heap.Free: addresses inside the heap that belong to no block are excluded; the source reads a header from whatever bytes lie there.
- KernelHeap.Heap.Calloc: products from 2^32 - 7 to 2^32 - 1 are excluded; align_up wraps, and the source zeroes bytes past the block (OverlongProduct).
- Numbers.ParseSigned: negation of -2^63 is two's complement here; C leaves it undefined.
- Numbers.FormatInto: format directives of kvprintf are not modelled, only the characters they emit.
- TermSurface.Surface.Resize: the outcome of the allocation is a parameter; an allocation granted for a number of cells that wraps in 32 bits, past which the source copies, is excluded (ResizeWraps).
- The VGA palette and port programming, the font tables, keyboard layouts, interrupts, the pager and the small shell commands.
- ShellInput.Editor.Press: the text, cursor and history only; what the key draws is in PromptDrawing.PressDrawn.
- ShellInput.ReadLine: keys that arrive are a given sequence; when it ends without a newline or Ctrl-C the call is waiting. What is drawn is in PromptDrawing.ReadLineShown.
- PromptDrawing.DrawnShows: texts that leave no room for the cursor behind them in the prompt's row are not described further; neither are keys after one that spoiled the row.
- src/kernel/fs/swap.c: a thin buffer over malloc and the file system.
