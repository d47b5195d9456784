# Cromwell boot firmware: a verified model

The firmware is C that mostly pokes hardware. This project models the parts of it that are
algorithms with state, each in its own module, and proves what they are for:

| module | what it models |
|---|---|
| `Disk` | `rawread` and `devread` over a flat disk some of whose sectors may be unreadable; the global `errnum` |
| `ReiserJournal` | the ReiserFS journal overlay: a table in memory for the first transactions, the disk for the rest |
| `LongJournal`, `SmallJournal`, `WideJournal`, `TornJournal` | partitions whose journal has too many transactions for that overlay, or too wide a one, or a last one that was torn by a power failure |
| `ReiserNode`, `ReiserTree` | the blocks of the ReiserFS tree, read through the journal; the cursor over a small cache of them |
| `ReiserFile`, `ReiserReader` | files of direct and indirect items; `reiserfs_read` over the cursor |
| `ReiserFormat`, `ReiserPlain`, `ReiserExample`, `ReiserTall` | blocks, keys and items laid out field by field, against what is read of them; a partition of one leaf and one of three blocks, and runs on both |
| `Fat`, `LongName` | the FAT12/16/32 cluster cursor with its window of the table; the assembly of long names |
| `FatFormat`, `DirFormat` | allocation tables, chains and directory entries laid out field by field, and runs on them |
| `Ext2` | the ext2 block map with its two aliased buffers, inode loading, file and directory reads |
| `Ext2Format`, `Ext2Deep` | superblock, descriptors, inodes and pointer blocks laid out field by field; a partition with a file under all three indirect pointers |
| `BlockList` | GRUB block-list files and their incremental cursor |
| `Fatx` | opening a FATX partition and loading a file |
| `ElfLoader` | the resumable ELF segment loader and the skip debt of `load_block` in front of it |
| `ElfFormat` | ELF headers laid out field by field; a file with two segments |
| `Tftp` | the TFTP client, and the protocol it plays with a server over a channel that loses, duplicates and reorders |
| `NetBoot` | client and loader together: the image in memory depends on the file alone |
| `Checksum`, `UdpPacket` | the Internet checksum, the checksum of a loaded image; packets built against packets accepted |
| `Flash` | erasing and programming a flash chip that is itself a command state machine |
| `List`, `Adler`, `Random` | intrusive rings, Adler-32 with deferred reduction, the overflow-free generator |
| `Division`, `Content`, `Encoding` | shared: block arithmetic; what a reader has put into a buffer against the contents of a file; how words and tables lie in bytes |

The pattern is the same throughout. What the code updates in place is a class with the same
fields, and each method is proved against a specification that knows nothing of caches, windows,
cursors, retries or blocks: the fold of all committed transactions, the in-order list of the
leaves' items, the chain walked from its first cluster, the pointer tree read afresh, the
concatenation of the runs, the image that the program headers ask for, the stop-and-wait file.
The class invariants (`Valid`) hold after every operation, so the statements are about every
sequence of calls.

A specification also has to mean the right bytes. The modules named after formats lay out headers,
inodes, keys, tables and directory entries from their fields, by the encoders of `Encoding` and
without the functions that read them, and prove that each field is read back from its own place;
a literal partition, file or drive with a run on it goes with each.

Conventions:

* `rawread` reports success even when a sector could not be read, so the file systems' results
  are stated "as long as `errnum` is clear", and for a sound disk it is also stated when it is.
  Caches are only trusted while `errnum` has stayed clear: the code marks a window or a buffer as
  loaded before or although the read failed, and what follows such an error until the next mount,
  open or inode load is not described.
* Shifts and masks by the logarithm of a block size are `Quot`, `Rem` and `Product` of `Division`.
* Numbers are unbounded; 32-bit and 16-bit wrap-around and signed reinterpretation are written out
  where the code depends on them (transaction ids, the 16-bit transaction count, the test for room
  in the journal table, sectors of blocks, TFTP block numbers, pointers read as `int`, the sums over
  ELF headers, the unsigned last sector of `devread`, checksums, the generator's products).

What the proofs turned up in the code:

* `Disk`: the sector of a block is a 32-bit product, so a block number that is too large is read from
  the place of a smaller one (`Disk.BlockSectorIs`, `Disk.SectorsRepeat`). In `Ext2.WrappedExample`
  that is block 1 for block 2^30 + 1; `Ext2.WrappedIsRight` says when it does no harm.
* `Ext2`: a pointer of 0 is followed to block 0 of the partition, at every level. A file is read as
  ext2 means it where no pointer on the way is 0 or wraps (`Ext2.Ext2Fs.Read`); holes are read as zeros on
  exactly those partitions whose block 0 is all zero (`Ext2.HolesNeedZeroFirst`), which with blocks
  of 2048 bytes or more is none (`Ext2.FirstIsNotZero`). `Ext2.SparseExample` is a sparse inode on a
  partition that can be mounted.
* `Ext2`: a double-indirect pointer of 0xffffffff equals the tag of an empty DATABLOCK2, so the
  lookup returns whatever lies in that buffer, without an error. `Ext2.Ext2Fs.BlockMap` says exactly
  when, `Ext2.Ext2Fs.MistakenIsWrong` that the tree has no block there, and `Ext2.MistakenRun` is a
  run from mounting a partition through loading an inode to such a lookup.
* `Ext2`: the place of an inode in its table block is taken from its number, not from its place in
  its group; the two agree for all inodes exactly if groups fill whole blocks (`Ext2.SlotsAgree`).
* `ElfLoader`: the ends of segments and of the program headers are summed up in 32 bits. The probe
  makes the test it is meant to make exactly where none of these sums wraps
  (`ElfLoader.ProbeIsAccurate`); `ElfLoader.WrappedHeaderPasses` and
  `ElfLoader.WrappedSegmentPasses` are inputs that pass and should not.
* `ElfLoader`: a file that ends before its segments are complete is started exactly if its last block
  reaches beyond what is still to be skipped (`ElfLoader.OsLoader.LoadImage`), and then lacks bytes
  (`ElfLoader.TruncatedLacksBytes`); otherwise the download ends with nothing started.
  `ElfLoader.StartedTruncated` and `ElfLoader.NeverStarted` are files for the two outcomes.
* `Tftp`: a block is taken for the next one exactly if the two numbers agree modulo 2^16
  (`Tftp.AcceptanceIsModular`), hence the bound on staleness in the protocol.
* `ReiserJournal`: the transaction count is kept in 16 bits. With 65536 transactions or more only the
  first of them, their number modulo 65536, are looked at: a block is read from its newest copy
  exactly if none of the others logs it (`ReiserJournal.Journal.NewestIsRead`). In
  `LongJournal.ReadsTheWrongCopy` a logged block is read from its home.
* `ReiserJournal`: the test for room in the table adds up addresses in 32 bits. It is the one intended
  exactly where the sum does not wrap to below the table's end (`ReiserJournal.RoomTestIsRight`), as it
  may for transactions that claim close to 2^30 blocks or more; `journal_init` stays inside the table
  exactly if no transaction of the log does that while the table has room
  (`ReiserJournal.Journal.JournalInit`). In `WideJournal.LeavesTheTable` it does not.
* `ReiserFile`: a hole is read as the beginning of the partition (`ReiserFile.HoleIsRight`).
* `Fatx`: loading a file reports success whether or not its clusters can be read
  (`Fatx.Partition.LoadFromDisk`). In `Fatx.LoadsUnread` the second of two is not even on the drive.
* `Random`: the generator falls back to 0 exactly from the seeds 0 and plus or minus the modulus
  (`Random.ZeroOnlyFromZero`), which only a first seed can be.
* `LongName`: a long name is always found where its parts stand right before its entry
  (`LongName.LongNamesAreTaken`), but they need not stand there: what is taken is a name of the format
  exactly if the entries right before it are all parts, as many as its first part says
  (`LongName.TakenIsLongName`), and another file between two parts does not end an
  assembly (`LongName.TakenAcrossFile`). A deleted part begins with 0xE5, which has the start bit set,
  so it begins an assembly of 37 parts and loses one that is under way
  (`LongName.DeletedPartBegins`, `LongName.LostToDeleted`).

## Model

| member | source | states |
|---|---|---|
| Disk.Device.RawRead | fs/grub/disk_io.c:130-159 | sector by sector the read gives exactly the bytes asked for, or sets an error exactly if a sector under it is unreadable; it reports success either way |
| Disk.Device.DevRead | fs/grub/disk_io.c:302-337 | reads crossing the partition boundary are refused, and so is a read of nothing at its very beginning, whose last sector is compared as an unsigned number; all others are those bytes of the partition or an error, nothing else in the buffer changes, and a pending error stops every read |
| Disk.BlockSectorIs | fs/grub/fsys_ext2fs.c:274-281 | the sector computed for a block is where the block starts exactly if that is below 2^31 |
| Disk.SectorsRepeat | fs/grub/fsys_ext2fs.c:274-281 | the sectors computed repeat with every 2^32 sectors |
| Disk.SignedIs | fs/grub/fsys_ext2fs.c:274-281 | a word taken as an `int` is in range, and off by nothing or by 2^32 |
| Division.QuotIsDivision | fs/grub/fsys_fat.c:220-221 | the shift and the mask of a position by a block size are its quotient and remainder |
| ReiserJournal.Id32IsModulo | fs/grub/fsys_reiserfs.c:485-510 | transaction ids are the unbounded count taken modulo 2^32 |
| ReiserJournal.Id32Differs | fs/grub/fsys_reiserfs.c:498-557 | ids less than 2^32 steps apart differ, so a descriptor block matches one transaction only |
| ReiserJournal.WrapIsModulo | fs/grub/fsys_reiserfs.c:420-463 | the ring position is the position modulo the ring size |
| ReiserJournal.MaskIsWrap | fs/grub/fsys_reiserfs.c:635-640 | for the rings that are accepted, of a power of two of blocks, that is what the mask leaves |
| ReiserJournal.ChainFits | fs/grub/fsys_reiserfs.c:485-557 | a run of valid transactions has no more members than the ring has blocks: no block can hold two of them |
| ReiserJournal.ChainIsScanned | fs/grub/fsys_reiserfs.c:498-557 | a run of valid transactions is what a scan of the ring lists first |
| ReiserJournal.ScanIsBounded | fs/grub/fsys_reiserfs.c:485-557 | however long the scan goes on, on every disk image it finds at most as many transactions as the journal has blocks: the loop terminates |
| ReiserJournal.NewestCopyWins | fs/grub/fsys_reiserfs.c:396-463 | the place found is the entry of the last transaction that logs the block, whatever the earlier ones say |
| ReiserJournal.UnloggedStaysHome | fs/grub/fsys_reiserfs.c:396-463 | a block no transaction logs is read from its home |
| ReiserJournal.CachedStays | fs/grub/fsys_reiserfs.c:512-545 | what the table says of a transaction survives every later entry |
| ReiserJournal.EncodesMore | fs/grub/fsys_reiserfs.c:512-545 | appending one transaction's list makes the table encode one transaction more |
| ReiserJournal.EncodesClosed | fs/grub/fsys_reiserfs.c:512-545 | the 0xffffffff marker closes the table: the rest of the log is to be looked up on the disk |
| ReiserJournal.ChainStep | fs/grub/fsys_reiserfs.c:498-557 | a committed descriptor at the end of a run makes a run one longer, and the next descriptor follows it |
| ReiserJournal.RoomTestIsRight | fs/grub/fsys_reiserfs.c:520-527 | the test for room, on addresses of 32 bits, is the one intended exactly where the address does not wrap to below the end of the table, and for all lengths below 0x3ffe4000 |
| ReiserJournal.OverrunsNext | fs/grub/fsys_reiserfs.c:520-545 | caching one transaction more runs over if it did before or if that one wraps where the table still has room |
| ReiserJournal.ShortNeverOverruns | fs/grub/fsys_reiserfs.c:520-545 | logs without a transaction of close to 2^30 blocks or more never run over |
| ReiserJournal.Journal.CacheTransaction | fs/grub/fsys_reiserfs.c:512-545 | copies a transaction's list of blocks from descriptor and commit block, in order and complete, if it fits; goes on beyond the end of the table exactly if the wrapped address of its end lies below that of the table's |
| ReiserJournal.Journal.RecordTransaction | fs/grub/fsys_reiserfs.c:512-545 | a transaction goes into the table if it fits and otherwise closes it; the table passes its end exactly at one whose address wraps so |
| ReiserJournal.Journal.TakeTransaction | fs/grub/fsys_reiserfs.c:498-557 | one turn of the scan takes a transaction exactly if it is the valid one with the expected id |
| ReiserJournal.Journal.CollectTransactions | fs/grub/fsys_reiserfs.c:498-564 | the scan ends with the whole log collected, part of it in the table, exactly if no transaction of it runs over the table |
| ReiserJournal.Journal.JournalInit | fs/grub/fsys_reiserfs.c:473-564 | on every disk image the scan ends; it stays inside the table exactly if caching the log does not run over, and then the table and the disk together hold exactly the log of the ring, as long as no error is reported, and a sound disk gives none |
| ReiserJournal.Journal.SearchLogged | fs/grub/fsys_reiserfs.c:428-447 | a search on the disk finds the first entry for the block, in the descriptor or in the commit block, exactly if there is one |
| ReiserJournal.Journal.SearchTransaction | fs/grub/fsys_reiserfs.c:409-461 | one turn of the search: the answer for one transaction more, whether that is in the table or on the disk |
| ReiserJournal.Journal.TranslateBlock | fs/grub/fsys_reiserfs.c:396-461 | the search ends with the fold of all transactions from the oldest to the newest, the last writer winning |
| ReiserJournal.Journal.BlockRead | fs/grub/fsys_reiserfs.c:396-463 | reads the bytes of the newest committed copy of the block, or of its home, by its 32-bit sector, and leaves the journal's state alone |
| ReiserJournal.Journal.WholeLogIsUsed | fs/grub/fsys_reiserfs.c:562-564 | the stored 16-bit count is the true one exactly if that is below 65536, so always for a journal of fewer blocks, and then every block is read from its newest copy |
| ReiserJournal.Journal.LateCopiesAreMissed | fs/grub/fsys_reiserfs.c:562-564 | with more transactions, a block that only those left out by the count log is read from its home |
| ReiserJournal.PlacesDiffer | fs/grub/fsys_reiserfs.c:448-461 | in a log that does not run over its own beginning no two copies of a block share a place |
| ReiserJournal.PrefixSuffices | fs/grub/fsys_reiserfs.c:396-463 | the fold over a part of the log finds the newest copy exactly if no transaction behind that part logs the block |
| ReiserJournal.Journal.NewestIsRead | fs/grub/fsys_reiserfs.c:396-463 | whatever the number of transactions, a block outside the journal is read from its newest copy exactly if none of those that the 16-bit count leaves out logs it |
| ReiserJournal.LogIsCommitted | fs/grub/fsys_reiserfs.c:498-557 | every transaction of the log has on the disk a descriptor with the magic, the mount id and the next id modulo 2^32, and at `(desc + length + 1) % count` a commit block with that id and length; it follows the one before it, and its home blocks are the words listed in these two blocks |
| ReiserJournal.LogStops | fs/grub/fsys_reiserfs.c:498-564 | and the log ends only where no such pair of blocks follows, of whatever length |
| ReiserJournal.RingIsRead | fs/grub/fsys_reiserfs.c:88-117 | the words and the magic of a journal block, by their bytes in the partition |
| LongJournal.LongLog | fs/grub/fsys_reiserfs.c:498-557 | a ring of 65536 committed transactions of three blocks each has them all in its log |
| LongJournal.PartIsLong | fs/grub/fsys_reiserfs.c:498-557 | a partition, byte by byte, that has such a ring |
| LongJournal.PartExists | fs/grub/fsys_reiserfs.c:498-557 | and there is such a partition |
| LongJournal.ReadsTheWrongCopy | fs/grub/fsys_reiserfs.c:396-564 | a run on it from `journal_init` to a read that returns, without an error, the old contents of a logged block |
| WideJournal.WideOverruns | fs/grub/fsys_reiserfs.c:498-545 | a ring whose log begins with a committed transaction of 2^30 blocks: caching it runs over the table |
| WideJournal.LeavesTheTable | fs/grub/fsys_reiserfs.c:473-564 | a run of `journal_init` on a partition with that ring leaves the table, without any error |
| TornJournal.TornIsLeftOut | fs/grub/fsys_reiserfs.c:507-513 | a ring whose last transaction has its descriptor but not its commit block: only the transaction before it is in the log |
| TornJournal.ReadsCommitted | fs/grub/fsys_reiserfs.c:396-564 | a run on a partition with that ring, from `journal_init` to two reads: the block of the committed transaction comes from its copy, that of the torn one from its home |
| ReiserNode.BlockStore.ReadBytes | fs/grub/fsys_reiserfs.c:396-463 | a whole block by way of the journal; where a sector cannot be read, success with any bytes and an error pending |
| ReiserNode.BlockStore.BlockRead | fs/grub/fsys_reiserfs.c:692-723 | the node in the newest committed copy of a block, or any node and an error pending |
| ReiserFormat.InternalIsRead | fs/grub/fsys_reiserfs.c:225-231 | an internal block laid out from its head, keys and children is read as just these keys and the block numbers of these children |
| ReiserFormat.LeafIsRead | fs/grub/fsys_reiserfs.c:191-213 | a leaf laid out from its head, item heads and bodies is read as just these items, and its right delimiting key |
| ReiserTree.LeftmostSeesAll | fs/grub/fsys_reiserfs.c:783-797 | the leaf at the left edge of a subtree and what comes after it are all the items of the subtree |
| ReiserTree.TurnAt | fs/grub/fsys_reiserfs.c:742-797 | turning to the next child skips nothing: what was still to come is the new leaf and what comes after that |
| ReiserTree.TurnSkipsNothing | fs/grub/fsys_reiserfs.c:742-797 | and so it is seen from the top of the tree |
| ReiserTree.PickedChild | fs/grub/fsys_reiserfs.c:836-858 | the child picked by the key comparison contains the stat item if the node does |
| ReiserTree.PathCuts | fs/grub/fsys_reiserfs.c:729-807 | a path cuts the items of the tree into those before, those of its leaf, and those after |
| ReiserTree.Cursor.ReadTreeNode | fs/grub/fsys_reiserfs.c:692-723 | while no error is pending the slot of a depth holds the node asked for, and what the slots of the path above hold stays true, also for the slot that several depths share; after a failed read it may report success and hold anything |
| ReiserTree.Cursor.DescendTo | fs/grub/fsys_reiserfs.c:821-861 | descends along the children that can hold the key, noting the next child of each node, or 0 for none |
| ReiserTree.Cursor.SearchStat | fs/grub/fsys_reiserfs.c:820-884 | finds the stat item exactly if the tree has it; with items before and after it, it makes up the whole tree in order |
| ReiserTree.Cursor.Climb | fs/grub/fsys_reiserfs.c:742-757 | stops at the lowest depth with a next child; below it there is none |
| ReiserTree.Cursor.NextLeaf | fs/grub/fsys_reiserfs.c:736-803 | moves to the first item of the next leaf, or to the right delimiter if there is none |
| ReiserTree.Cursor.NextKey | fs/grub/fsys_reiserfs.c:728-807 | takes exactly the next item of the in-order sequence, and the delimiter exactly at its end, for every cache size |
| ReiserTree.Cursor.Walk | fs/grub/fsys_reiserfs.c:728-884 | calling `next_key` to the end visits exactly the items still to come, in order and once each |
| ReiserTree.Cursor.CurrentHead | fs/grub/fsys_reiserfs.c:728-807 | the head that is looked at behind the last item is the right delimiter of the last leaf |
| ReiserFile.ByteOfItem | fs/grub/fsys_reiserfs.c:911-980 | the bytes of a file are those of its items one after another |
| ReiserFile.PointerIsRight | fs/grub/fsys_reiserfs.c:937-962 | a pointer that is not 0, and whose sector does not wrap, leads to the byte that is meant |
| ReiserFile.HoleIsRight | fs/grub/fsys_reiserfs.c:937-962 | a byte of a hole is right exactly if that byte of block 0 is 0 |
| ReiserFormat.PointersAreRead | fs/grub/fsys_reiserfs.c:937-954 | block `q` of an indirect item is the `q`th word of its body, for every body |
| ReiserFormat.V2IsRead | fs/grub/fsys_reiserfs.c:143-158 | keys of version 2 hold the offset in 60 bits and the type in the four above |
| ReiserFormat.V1IsRead | fs/grub/fsys_reiserfs.c:126-141 | keys of version 1 hold offset and type in a word each |
| ReiserFile.Located | fs/grub/fsys_reiserfs.c:898-903 | an item with the object id of the file is one of its items, and what comes after it in the tree comes after it in the file |
| ReiserFile.ItemStarts | fs/grub/fsys_reiserfs.c:911-914 | the offset in the key of an item leads to the place in it |
| ReiserReader.Reader.ReadPiece | fs/grub/fsys_reiserfs.c:945-962 | what is wanted of one block of an indirect item; no error if the disk is sound and the partition has it |
| ReiserReader.Reader.ReadItem | fs/grub/fsys_reiserfs.c:916-978 | what is wanted of an item, direct or indirect, up to its end |
| ReiserReader.Reader.FindPlace | fs/grub/fsys_reiserfs.c:898-903 | wherever the cursor stood, it comes to an item of the file that does not lie behind the position |
| ReiserReader.Reader.ReadFile | fs/grub/fsys_reiserfs.c:886-984 | for every file of direct and indirect items, and over any sequence of positions and lengths, exactly the slice of the file, with every block of the tree in its newest committed copy; fewer bytes only at the file's end, 0 if there is an error, and none if the disk is sound and the partition has the bytes |
| ReiserExample.HasTheFile | fs/grub/fsys_reiserfs.c:886-984 | the items of a leaf, byte by byte, make up a file |
| ReiserExample.ReadsHello | fs/grub/fsys_reiserfs.c:820-984 | a run on a partition from its first block to the text of that file |
| ReiserTall.TreeIsTall | fs/grub/fsys_reiserfs.c:783-861 | a root with two leaves: the items of both in order |
| ReiserTall.IsTheFile | fs/grub/fsys_reiserfs.c:937-962 | the indirect item of the second leaf has the bytes of its two blocks, one after another |
| ReiserTall.ReadsAcross | fs/grub/fsys_reiserfs.c:820-984 | a run on that partition, from its blocks to the two bytes on both sides of the border of these blocks, as literals |
| ElfLoader.LoadedIsUnique | etherboot/core/elf_loader.c:230-315 | file, headers and former memory determine the image, also where the file ends too early, so it cannot depend on how the file was cut |
| ElfLoader.TruncatedLacksBytes | etherboot/core/elf_loader.c:304-315 | an image from a file that ends too early has a segment whose last byte is what was in memory before |
| ElfLoader.ProbeIsAccurate | etherboot/core/elf_loader.c:165-222 | the tests on headers and segments, made in 32 bits, are the intended ones exactly if none of the sums wraps |
| ElfLoader.WrappedHeaderPasses | etherboot/core/elf_loader.c:165-174 | a first block with an e_phoff for which the sum wraps: the probe accepts it by what lies in front of it in memory |
| ElfLoader.WrappedSegmentPasses | etherboot/core/elf_loader.c:204-222 | a first block with a segment whose end wraps: the probe accepts it although the segment does not fit, and bss is cleared from below it |
| ElfLoader.CopyStep | etherboot/core/elf_loader.c:240-256 | copying a stretch of one segment keeps all settled segments, the cleared bss and the memory outside |
| ElfLoader.SegmentSettled | etherboot/core/elf_loader.c:270-300 | a segment that is complete joins the settled ones |
| ElfLoader.ElfState.FindSegment | etherboot/core/elf_loader.c:262-281 | picks the segment with the lowest file offset not yet passed; if there is none every segment is complete |
| ElfLoader.ElfState.CopyBytes | etherboot/core/elf_loader.c:240-256 | keeps the equation between file position, padding, what is still to be read and the target address |
| ElfLoader.ElfState.LoadLoop | etherboot/core/elf_loader.c:230-307 | a block is consumed completely, or every segment is over by its end and in place, and the image is started |
| ElfLoader.ElfState.SkipIsGap | etherboot/core/elf_loader.c:293-306 | in the middle of a download the padding still to be skipped is the distance to the nearest byte that any segment needs |
| ElfLoader.ElfState.Download | etherboot/core/elf_loader.c:230-315 | starts the image exactly when no segment needs anything behind this block, or the file ends, and then with all that the file has of it in place; otherwise the position moves on by the block and the whole sectors of padding left to the caller |
| ElfLoader.ElfState.PrepSegment | etherboot/core/osloader.c:164-255 | accepts a segment exactly if its middle is not above its end and start and end lie in one region of RAM, and then clears what lies between middle and end and nothing else |
| ElfLoader.PreparedIsReady | etherboot/core/elf_loader.c:204-222 | clearing the bss of all segments leaves the rest of every target as it was |
| ElfLoader.ElfState.Probe | etherboot/core/elf_loader.c:139-228 | accepts exactly the files with a valid header that pass the tests, whose sums are taken in 32 bits; where none of them wraps, every bss is zero and the download can begin |
| ElfLoader.OsLoader.PayDebt | etherboot/core/osloader.c:355-392 | a skip debt falls by exactly the length of the block, without underflow, and stays below a sector in bytes |
| ElfLoader.OsLoader.LoadBlock | etherboot/core/osloader.c:330-420 | for every block of every cutting of a file: the image has been started, or the loader stands at the block's end with a debt that is a function of the file and the cutting alone |
| ElfLoader.OsLoader.LoadImage | etherboot/core/osloader.c:330-420 | for every cutting of a file, complete or not, with acceptable headers in its first block: the image is started exactly if the file has all its bytes or the last block reaches beyond what is to be skipped, with every byte that the file has of its segments at its address, bss zero and all else unchanged |
| ElfFormat.EhdrIsRead | etherboot/include/elf.h:165-180 | an ELF header laid out field by field is read field by field, and passes exactly if it is that of a 32-bit little-endian i386 or i486 executable |
| ElfFormat.PhdrsAreRead | etherboot/core/elf_loader.c:165-187 | whatever up to 32 program headers are laid out where the ELF header says, those are the ones taken, each from its own record, with the low 28 bits of its address |
| ElfFormat.SegmentIsInPlace | etherboot/core/elf_loader.c:204-315 | every byte of a loaded memory in a segment, by the fields of that segment's own header: the file's byte, or 0 behind `p_filesz`, or what was there where the file ends too early |
| ElfFormat.TwoAreAccepted | etherboot/core/elf_loader.c:139-222 | a file with two different segments, laid out so, is accepted |
| ElfFormat.LoadsTwo | etherboot/core/elf_loader.c:230-315 | a run that loads it: the whole memory as literal bytes, each segment with its own lengths |
| ElfLoader.StartedTruncated | etherboot/core/elf_loader.c:304-315 | a file of 522 bytes whose segment begins at 600: it is started |
| ElfLoader.NeverStarted | etherboot/core/osloader.c:395-403 | a file of 522 bytes whose segment begins at 2048: it is accepted and never started |
| ElfLoader.ExampleHeaders | etherboot/core/elf_loader.c:139-228 | the headers of these files are accepted |
| Checksum.IpChksum | etherboot/core/xbox_misc.c:11-36 | the byte-wise fold is the checksum of section 1 of RFC 1071 |
| Checksum.SumAtOdd | etherboot/core/xbox_misc.c:38-55 | at an odd offset a piece counts 256-fold |
| Checksum.SwapIsTimes256 | etherboot/core/xbox_misc.c:44-50 | swapping the bytes of a sum multiplies it by 256 |
| Checksum.AddIsConcat | etherboot/core/xbox_misc.c:38-55 | combining the checksums of two byte strings gives exactly that of their concatenation, for odd and even lengths |
| Checksum.ImageChecksum | etherboot/core/elf_loader.c:317-350 | the loader's running fold is the checksum of header, program headers and segments in a row |
| UdpPacket.ComplementCancels | etherboot/core/nic.c:403-418 | storing the complement of the sum makes the checksum zero |
| UdpPacket.SumOfUpdate | etherboot/core/nic.c:403-418 | changing one byte changes the sum by what that byte counts |
| UdpPacket.BuildIpHdr | etherboot/core/nic.c:384-401 | every field of the header is in place, its checksum is zero, and nothing behind it has changed |
| UdpPacket.BuildUdpHdr | etherboot/core/nic.c:403-418 | both headers are in place and the stored UDP checksum is never zero and checks, also where the computed one is 0 and goes out as 0xffff |
| UdpPacket.BuiltIsAccepted | etherboot/core/nic.c:1028-1073 | every datagram built that fits the MTU passes all header, fragment, length and checksum tests of the receiver, whatever follows it in memory and however the frame was padded |
| UdpPacket.DeliveredExactly | etherboot/core/nic.c:1028-1073 | a frame without IP options is delivered as a datagram exactly if it is one, by its bytes: type, version, header sum, fragment bits, lengths and, if it has one, checksum |
| UdpPacket.OptionsAreCut | etherboot/core/nic.c:1041-1060 | of a frame with options the UDP checks see what it is without them |
| UdpPacket.ErrorIsSeen | etherboot/core/xbox_misc.c:11-36 | one wrong byte anywhere makes a sum that was right wrong |
| UdpPacket.DatagramErrorIsSeen | etherboot/core/nic.c:829-848 | the checksum of a datagram covers both addresses, both ports, itself and all the data |
| UdpPacket.WrongFrameIsRefused | etherboot/core/nic.c:1028-1073 | no frame with one wrong byte under a checksum is delivered as a datagram in place of one that would be |
| UdpPacket.RfcExample | etherboot/core/xbox_misc.c:11-36 | the example of section 3 of RFC 1071 |
| UdpPacket.DatagramIsRight | etherboot/core/nic.c:829-848 | a whole datagram as literal bytes: both its checksums are right |
| Tftp.Low16Tells | etherboot/core/nic.c:575-600 | two numbers less than 2^16 apart are equal if their low halves are |
| Tftp.RunIsSound | etherboot/core/nic.c:492-611 | whatever arrives, from whatever server, what is handed on is numbered 1, 2, 3, ..., came in packets with these numbers modulo 2^16, and has the end marked on the last one only |
| Tftp.TftpClient.Loop | etherboot/core/nic.c:492-611 | so it is for the loop with its 16-bit numbers, on every sequence of packets and timeouts |
| Tftp.RunHasEvents | etherboot/core/nic.c:492-611 | in every run of the protocol there is a sequence of events that the client has seen |
| Tftp.SeenIsRun | etherboot/core/nic.c:492-611 | its part of the run, variables, acknowledgements and deliveries, is that of its own loop on these events |
| Tftp.TftpClient.Transfer | etherboot/core/nic.c:492-611 | so in every run of the protocol the loop ends with exactly the first blocks of the served file handed on, all of them if it returns success, and acknowledges only what it has |
| Tftp.BlockInv | etherboot/core/nic.c:575-611 | a data packet, new, repeated or late, keeps the protocol invariant |
| Tftp.OptionInv | etherboot/core/nic.c:531-567 | so does an option acknowledgement, repeated ones too |
| Tftp.TimeoutInv | etherboot/core/nic.c:500-529 | a timeout sends and hands on nothing; it at most ends the transfer |
| Tftp.DisturbInv | etherboot/core/nic.c:524-586 | so do error packets, malformed option acknowledgements and unknown opcodes |
| Tftp.NextInv | etherboot/core/nic.c:492-611 | every step of client, server and network keeps the invariant |
| Tftp.AcceptanceIsModular | etherboot/core/nic.c:575-600 | the client takes a block for the next exactly if the numbers agree modulo 2^16 |
| Tftp.TransferIsSafe | etherboot/core/nic.c:492-611 | in every run the payloads handed on are the file's blocks 1, 2, 3, ... with none skipped or repeated, the last number is the count modulo 2^16, success means the whole file, and no acknowledgement names a block not received |
| Tftp.RunAnswers | etherboot/core/nic.c:560-599 | over any events, every block and every option acknowledgement that is in order is answered at once, by exactly one acknowledgement, of the newest block the client then has, and nothing else is answered |
| Tftp.EveryBlockIsAnswered | etherboot/core/nic.c:587-599 | in every state of every run, the next block is answered by the acknowledgement of that block and any other by the last one again |
| Tftp.OptionIsAnswered | etherboot/core/nic.c:534-560 | an option acknowledgement before the first block is answered as block 0, with the size agreed |
| Tftp.TurnEnds | etherboot/core/nic.c:492-611 | a turn ends the transfer exactly on an error packet, a refused option, a delivery that fails or is the last, or too many timeouts, with the result that goes with each |
| Tftp.GivesUp | etherboot/core/nic.c:500-511 | a request that is never answered is repeated twenty times, and then the transfer fails |
| Tftp.TransferCanSucceed | etherboot/core/nic.c:492-611 | for every file, with or without options, there is a run from the start in which the client returns success with exactly the blocks of the file delivered |
| NetBoot.GivenAreBlocks | etherboot/core/nic.c:595-611 | in every state of every run `load_block` has been given the first blocks of the file in order, with their numbers and the end marked |
| NetBoot.Boot | etherboot/core/osloader.c:330-420 | what has been handed over in any state of any run leaves the loader either in step with the file, not started, or started with every byte that the served file has of its segments at its address, and it says exactly when, whatever the network lost, doubled or reordered |
| NetBoot.HeadersOfPrefix | etherboot/core/elf_loader.c:139-228 | headers that lie in the first block are the headers of the whole file |
| NetBoot.CuttingDoesNotMatter | etherboot/core/elf_loader.c:230-315 | images loaded from one file by its headers, however it was cut and complete or not, are the same |
| NetBoot.BootTwice | etherboot/core/osloader.c:330-420 | two machines alike that take one file in blocks of any sizes: each accepts it exactly by its first block; if both do and the file is complete both start it, and whenever both start it their memories are the same |
| Fat.DecodeIsNibbles | fs/grub/fsys_fat.c:253-260 | the load, shift and mask pick out the 3, 4 or 8 nibbles of an entry, also where a 12-bit entry starts or ends inside a byte |
| Fat.DecodeIsEntry | fs/grub/fsys_fat.c:240-260 | an entry inside the window is decoded as the table on the disk has it, whatever lies behind the window in memory |
| FatFormat.TwelvesAreRead | fs/grub/fsys_fat.c:233-256 | every 12-bit entry of a table packed two in three bytes |
| FatFormat.SixteensAreRead | fs/grub/fsys_fat.c:233-258 | every entry of a table of 16-bit words |
| FatFormat.WordsAreEntries | fs/grub/fsys_fat.c:233-250 | every entry of a table of 32-bit words |
| Fat.WalkStays | fs/grub/fsys_fat.c:262-268 | a chain that has ended or is corrupt does not go on |
| Fat.FatFs.constructor | fs/grub/fsys_fat.c:192-194 | the window position left by mounting is one that no entry of the table hits |
| Fat.FatFs.FillWindow | fs/grub/fsys_fat.c:238-252 | afterwards the entry lies in the window with all its nibbles, straddling entries included, and the window equals the disk |
| Fat.FatFs.StepOn | fs/grub/fsys_fat.c:235-272 | one step of the cursor is one step of the uncached walk; an error is reported exactly if the chain is corrupt |
| Fat.FatFs.Advance | fs/grub/fsys_fat.c:232-272 | wherever the cursor was, it ends at the cluster that a walk from the first one gives |
| Fat.FatFs.FatRead | fs/grub/fsys_fat.c:200-292 | over any sequence of opens, seeks and reads the bytes are those of the chain walked from its first cluster; fewer arrive exactly where it ends, and a sound disk gives an error only where the chain is corrupt |
| FatFormat.ClustersAreInOrder | fs/grub/fsys_fat.c:271-273 | cluster 2 is the first of the data area and the others follow it one after another |
| FatFormat.FileIsWalked | fs/grub/fsys_fat.c:233-269 | clusters each of whose entries is the number of the next, the last an end marker, are walked in this order, and nothing comes after them |
| FatFormat.FileIsInPlace | fs/grub/fsys_fat.c:219-292 | byte by byte, such a file is the data that stands in these clusters |
| FatFormat.ReadsAcross | fs/grub/fsys_fat.c:200-292 | a run on a FAT12 partition, from its bytes to the two bytes on both sides of the border of two clusters, as literals |
| Fat.FatFs.ReadRoot | fs/grub/fsys_fat.c:209-220 | the root directory of FAT12 and FAT16 is read up to its end; a sound disk gives an error exactly where it does not lie in the partition |
| LongName.RunIsChain | fs/grub/fsys_fat.c:366-412 | an assembly under way consists of parts n down to k+1 in order with one checksum and no other part between |
| LongName.ChainIsRun | fs/grub/fsys_fat.c:366-412 | every such chain of parts is followed, also with volume labels, deleted short entries and, before its last part, other files between |
| LongName.LongNamesAreTaken | fs/grub/fsys_fat.c:379-441 | a long name as the format has it, all parts in order right before the entry, is always the one compared |
| LongName.TakenIsLongName | fs/grub/fsys_fat.c:379-441 | a name that is compared is one the format has exactly if as many entries as its first part says stand right before the entry and are all parts |
| LongName.DeletedPartBegins | fs/grub/fsys_fat.c:394-410 | a deleted part begins an assembly of 37 parts, whatever was under way |
| LongName.LostToDeleted | fs/grub/fsys_fat.c:394-410 | a name with a deleted part between its parts is lost |
| LongName.TakenAcrossFile | fs/grub/fsys_fat.c:422-441 | a name with another file between its parts is taken, although the format has no such name |
| LongName.LettersAreParts | fs/grub/fsys_fat.c:366-412 | for every checksum there are entries as in these two cases |
| LongName.UptoIs | fs/grub/fsys_fat.c:352-364 | what a search has seen is the entries before it and those it has read |
| LongName.EachPassed | fs/grub/fsys_fat.c:352-474 | every single entry before the one found has been passed by |
| LongName.DirSearch.AddPart | fs/grub/fsys_fat.c:399-412 | while parts k+1 to n have come, the buffer holds exactly their text from 13k to 13n |
| LongName.DirSearch.ProcessLong | fs/grub/fsys_fat.c:366-412 | a part is added exactly if it is the next one; the first begins an assembly anew, any other ends it |
| LongName.DirSearch.FinishedName | fs/grub/fsys_fat.c:417-438 | a finished assembly leaves the concatenated text of parts 1 to n in the buffer as a string |
| LongName.DirSearch.PutShort | fs/grub/fsys_fat.c:441-459 | the 8.3 name is written without touching an assembly that has not come to its first part |
| LongName.DirSearch.TryLong | fs/grub/fsys_fat.c:417-438 | a long name is compared only if its parts are complete and their checksum is that of the short entry |
| LongName.DirSearch.Substring | fs/grub/char_io.c:151-167 | 0 exactly for equal strings, -1 exactly for a proper prefix |
| LongName.DirSearch.LookUp | fs/grub/fsys_fat.c:352-474 | stops with the first entry that goes by the name, by its whole and matching long name or its short one, or where the directory ends |
| DirFormat.PartIsRead | fs/grub/fsys_fat.c:303-308 | a part of a long name laid out field by field is read with its number, checksum and thirteen characters |
| DirFormat.ShortIsRead | fs/grub/fat.h:72-94 | an entry with attributes is looked at exactly unless it is a volume label, deleted or the end |
| DirFormat.ShortNameIsRead | fs/grub/fsys_fat.c:441-459 | an 8.3 name filled up with blanks is read in lower case with a dot, and without one if it has no extension |
| DirFormat.LongNameIsRead | fs/grub/fsys_fat.c:366-441 | every long name laid out in parts before its entry is the name of that entry, whatever comes before |
| DirFormat.FindsLongName | fs/grub/fsys_fat.c:352-474 | a search that comes to such parts and their entry ends with that entry, for every name and from every state |
| DirFormat.ReadmeSum | fs/grub/fsys_fat.c:428-431 | the checksum of a literal short name |
| Ext2.FilesAreReached | fs/grub/fsys_ext2fs.c:321-385 | every block of a file below 2^31 bytes is within the triple-indirect tree, so no index leaves its block |
| Ext2.DenseIsRight | fs/grub/fsys_ext2fs.c:288-388 | where no pointer on the way is 0, or leads to a sector that wraps, the pointers lead to the bytes of the file |
| Ext2.HoleIsRight | fs/grub/fsys_ext2fs.c:420-440 | in a hole under pointers that are not 0 a byte is right exactly if that byte of block 0 is 0 |
| Ext2.ZeroFirstIsRight | fs/grub/fsys_ext2fs.c:288-388 | if block 0 is all zero every byte of every file is right where no sector wraps, holes at any level included |
| Ext2.HolesNeedZeroFirst | fs/grub/fsys_ext2fs.c:288-453 | and only then: otherwise there is a sparse inode that is read wrong |
| Ext2.FirstIsNotZero | fs/grub/fsys_ext2fs.c:254-270 | with blocks of 2048 bytes or more block 0 contains the superblock, so it is never all zero |
| Ext2.SparseExample | fs/grub/fsys_ext2fs.c:420-440 | an inode on a partition that can be mounted: the boot block is read in place of its hole |
| Ext2.WrappedIsRight | fs/grub/fsys_ext2fs.c:420-440 | under a direct pointer whose sector wraps a byte is right exactly if the wrapped sector is outside the partition too |
| Ext2.WrappedExample | fs/grub/fsys_ext2fs.c:420-440 | with blocks of 2048 bytes, block 1 is read for block 2^30 + 1 |
| Ext2.NoLastBlock | fs/grub/fsys_ext2fs.c:274-281 | there is no block 0xffffffff, whatever the block size |
| Ext2.Ext2Fs.Load1 | fs/grub/fsys_ext2fs.c:326-350 | DATABLOCK1 holds the indirect block wanted, read or already there, and nothing else has changed |
| Ext2.Ext2Fs.Second | fs/grub/fsys_ext2fs.c:347-360 | an entry of a second-level block comes from that block, but for the pointer that equals the tag of an empty buffer |
| Ext2.Ext2Fs.MapDouble | fs/grub/fsys_ext2fs.c:339-360 | the double-indirect lookup agrees with the uncached tree, whatever the two buffers held |
| Ext2.Ext2Fs.MapTriple | fs/grub/fsys_ext2fs.c:361-387 | so does the triple-indirect one, although it reuses DATABLOCK2 twice |
| Ext2.Ext2Fs.BlockMap | fs/grub/fsys_ext2fs.c:288-388 | over any interleaving of lookups the result is that of the uncached pointer tree, exactly unless a double-indirect pointer of 0xffffffff meets an empty DATABLOCK2; a sound disk gives an error exactly where the tree leads outside the partition |
| Ext2.Ext2Fs.MistakenIsWrong | fs/grub/fsys_ext2fs.c:347-360 | in that one case the tree has no block at all |
| Ext2.MistakenRun | fs/grub/fsys_ext2fs.c:254-572 | a run on a partition, from mounting through loading an inode to a lookup that answers without an error where the tree has no block |
| Ext2.Ext2Fs.Mount | fs/grub/fsys_ext2fs.c:254-270 | mounts exactly the partitions that are long enough and have the magic, with the superblock in its buffer |
| Ext2.Ext2Fs.LoadInode | fs/grub/fsys_ext2fs.c:520-572 | loads the inode's 128 bytes by way of its group descriptor and restores the cache invariant, although the table block was read over DATABLOCK1; with a sound disk it succeeds exactly if both blocks lie in the partition; it is the inode in its place in its group where groups fill whole blocks |
| Ext2.SlotsAgree | fs/grub/fsys_ext2fs.c:564-566 | taking the slot from the inode number itself is right for all inodes exactly if groups fill whole table blocks |
| Ext2.Ext2Fs.DirBlock | fs/grub/fsys_ext2fs.c:729-741 | reads the directory's block over DATABLOCK2 and keeps the cache invariant |
| Ext2.Ext2Fs.Read | fs/grub/fsys_ext2fs.c:391-453 | for every inode without a pointer of 0xffffffff, returns exactly the slice of what the pointers lead to, which is the slice of the file where none of them is 0 or wraps; shorter only at a pointer of 2^31 or more; with a sound disk and every block in the partition, all of it |
| Ext2Format.PointersAreRead | fs/grub/fsys_ext2fs.c:98-130 | all fifteen pointers of an inode laid out field by field are read, each from its own place |
| Ext2Format.BlockOfPointers | fs/grub/fsys_ext2fs.c:326-350 | and those of a block of pointers |
| Ext2Format.InodeIsFound | fs/grub/fsys_ext2fs.c:533-566 | inode `i` of a group is looked for by way of that group's own descriptor, in its place in the table that this names |
| Ext2Format.SingleIs | fs/grub/fsys_ext2fs.c:317-338 | behind twelve direct blocks a file has those of the single-indirect block |
| Ext2Format.DoubleIs | fs/grub/fsys_ext2fs.c:339-360 | then row by row those under the double-indirect block |
| Ext2Format.TripleIs | fs/grub/fsys_ext2fs.c:361-387 | then those under the triple-indirect block, at each of the three levels |
| Ext2Deep.DeepTree | fs/grub/fsys_ext2fs.c:288-388 | an inode with a block under each of its three indirect pointers |
| Ext2Deep.ReadsDeep | fs/grub/fsys_ext2fs.c:254-453 | a run on that partition, from mounting to the bytes of these three blocks, as literals |
| Flash.Programmer.WaitToggle | drivers/flash/BootFlash.c:214-234 | the polling loop ends, and only when the part has finished |
| Flash.Programmer.PollErase | drivers/flash/BootFlash.c:185-197 | the 256 reads made in any case outlast the lag of a 28xxx part: the last status is the true one |
| Flash.Programmer.PollProgram | drivers/flash/BootFlash.c:337-346 | ends within its time limit, and a status taken before that is the true one |
| Flash.Programmer.Pass29 | drivers/flash/BootFlash.c:208-262 | a pass makes one to three erases at its address; the whole chip only if the whole chip is the region |
| Flash.Programmer.EraseMinimalRegion | drivers/flash/BootFlash.c:150-300 | terminates with at most four passes in a 4K block; true means the whole region reads 0xff, cells only ever become 0xff, and with an obedient chip only the user can make it fail |
| Flash.Programmer.BootFlashProgram | drivers/flash/BootFlash.c:305-416 | terminates with at most four attempts at a byte, each with its own value; true means the region equals the data, nothing outside changes, bits are only cleared; an obedient chip succeeds exactly where clearing bits suffices |
| Flash.Programmer.Verify | drivers/flash/BootFlash.c:396-412 | true exactly if the region equals the data |
| Flash.Programmer.ErasedIsProgrammable | drivers/flash/BootFlash.c:150-416 | after a successful erase anything can be programmed |
| Flash.CommandsAreWhole29 | drivers/flash/BootFlash.c:214-262 | over every sequence of writes a 29xxx part erases only behind the five cycles of an erase command, and programs only behind the three of a program command |
| Flash.CommandsAreHeard29 | drivers/flash/BootFlash.c:214-262 | and from rest each of these commands is understood |
| Flash.CommandsAreWhole28 | drivers/flash/BootFlash.c:185-199 | a 28xxx part erases exactly on 0xd0 behind 0x20, and programs exactly behind 0x40 |
| BlockList.ContentsAt | fs/grub/disk_io.c:1653-1710 | byte by byte the file is its runs one after another |
| BlockList.BytesAreContents | fs/grub/disk_io.c:1653-1710 | where all runs lie in the partition, what a read is measured against is the concatenation of the runs |
| BlockList.BlockFile.GrubSeek | fs/grub/disk_io.c:1723-1732 | moves the file position exactly if the target is within the file, and never the cursor |
| BlockList.BlockFile.StepOn | fs/grub/disk_io.c:1672-1681 | a step keeps the blocks in earlier runs plus the block number equal to the position in sectors |
| BlockList.BlockFile.RunUp | fs/grub/disk_io.c:1659-1685 | ends with the cursor in the sector of the file position, even where its own position has overshot |
| BlockList.BlockFile.GrubRead | fs/grub/disk_io.c:1627-1710 | for any sequence of seeks and reads the requested slice of the concatenated runs, with out-of-range positions and lengths cut down as the code does |
| BlockList.BlockFile.AskedIsSane | fs/grub/disk_io.c:1627-1640 | what is asked for inside the file is what is read; everything else comes down to the rest of the file, or to nothing behind its end |
| Fatx.ChainIsUnique | fs/fatx/BootFATX.c:344-372 | from one cluster there is at most one chain that ends |
| Fatx.ChainIsAcyclic | fs/fatx/BootFATX.c:344-372 | a chain that ends never returns to a cluster |
| Fatx.RawRead | fs/fatx/BootFATX.c:621-660 | returns the exact slice of the drive, or 0 exactly if a sector cannot be read; every caller asks for whole sectors, so the branch for an unaligned offset is dead |
| Fatx.Partition.GetNextClusterInChain | fs/fatx/BootFATX.c:558-602 | the next cluster of 16-bit and 32-bit maps with both end markers |
| Fatx.Partition.LoadCluster | fs/fatx/BootFATX.c:604-618 | loads the bytes of the cluster, at a sector boundary for every size of the map |
| Fatx.Partition.LoadFromDisk | fs/fatx/BootFATX.c:344-381 | true exactly if the chain covers the file; read and remaining add up to the size, every byte of every cluster that can be read is in its place, and nothing beyond the size is touched |
| Fatx.Partition.AllBytes | fs/fatx/BootFATX.c:344-381 | where the clusters that the file reaches into can be read, the buffer has them in order, cut at the size |
| Fatx.LoadsUnread | fs/fatx/BootFATX.c:344-381 | a run that reports success for a file whose second cluster is not on the drive |
| Fatx.HalvesAreFollowed | fs/fatx/BootFATX.c:558-602 | a chain written into a map of 16-bit entries, with either end marker, is the chain that is followed |
| Fatx.WordsAreFollowed | fs/fatx/BootFATX.c:558-602 | and one in a map of 32-bit entries |
| Fatx.MapSize | fs/fatx/BootFATX.c:185-195 | entries of four bytes begin with 65524 clusters, and the map has room for every whole cluster |
| Fatx.LoadsBoth | fs/fatx/BootFATX.c:131-381 | a run on a drive, from opening the partition to bytes of two clusters that lie there in reverse order, as literals |
| Fatx.OpenPartition | fs/fatx/BootFATX.c:131-225 | opens exactly the partitions with a readable header and the right magic, with the whole chain map loaded |
| List.LinksAreInverse | include/list.h:11-13 | in a ring both links are inverse to each other |
| List.RingIsUnique | include/list.h:11-13 | the links determine the ring |
| List.Rotate | include/list.h:11-13 | a ring may be read from any of its nodes |
| List.ListAdd | include/list.h:43-54 | the new node comes right after the head, all others stay in order |
| List.ListAddTail | include/list.h:56-67 | the new node comes last |
| List.ListDelInit | include/list.h:92-101 | the node leaves its ring, wherever in it, and makes one of its own |
| List.ListDel | include/list.h:82-90 | the node leaves its ring and points nowhere |
| List.ListMove | include/list.h:103-113 | within a ring the node comes right after the head |
| List.ListMoveOver | include/list.h:103-113 | from one ring to another: both are rings afterwards |
| List.ListMoveTail | include/list.h:115-125 | within a ring the node comes last |
| List.MovesPermute | include/list.h:103-125 | moving only changes the order of the nodes |
| List.ListSplice | include/list.h:136-159 | the elements of one list come before those of the other, for rings of any length |
| List.ListSpliceInit | include/list.h:161-175 | the same, and the emptied list is a ring of its own |
| Adler.NmaxIsLargest | include/zutil.h:73-75 | 5552 is the largest number of bytes after which the sums still fit 32 bits, for reduced sums and for all that come in |
| Adler.ZlibAdler32 | include/zutil.h:98-124 | for every incoming 32-bit value, with reduction put off over whole chunks, the result is that of reducing after every byte, and neither sum ever exceeds 32 bits |
| Adler.AdlerIsIncremental | include/zutil.h:82-97 | continuing from the checksum of one buffer gives that of both in a row |
| Adler.AdlerOfAbc | include/zutil.h:98-124 | the checksum of a literal buffer |
| Adler.AdlerAtModulus | include/zutil.h:98-124 | and one of a byte that takes the first sum to the modulus |
| Random.StepMultiplies | etherboot/core/xbox_misc.c:62-74 | for every 32-bit seed the split multiplication is 40014 times the seed modulo 2147483563, with no overflow in any intermediate value |
| Random.ZeroOnlyFromZero | etherboot/core/xbox_misc.c:62-74 | the result is 0 exactly for the seeds 0 and plus or minus the modulus |
| Random.StepIsInvertible | etherboot/core/xbox_misc.c:62-74 | multiplying by 2082061899 undoes a step, so the generator permutes the seeds |
| Random.RunStays | etherboot/core/xbox_misc.c:62-74 | over a whole run the seed is the first one times a power of 40014, in range and never 0 |
| Random.RunsDoNotMerge | etherboot/core/xbox_misc.c:62-74 | two runs that meet were the same from the start |
| Random.Generator.Draw | etherboot/core/xbox_misc.c:62-74 | drawing any number of values never reinitialises the generator |

## Left out

- ReiserReader.Reader.ReadFile: the search for a name in `reiserfs_dir`, symbolic links and the reading hook are left out; the file's object id is given.
- ReiserTree.Cursor.SearchStat: assumes well-formed nodes with sorted keys, as an intact tree has them.
- ReiserJournal.Journal.BlockRead: assumes that no transaction of the log lists more than the 2036 blocks two halves can hold; for longer ones the search on the disk runs over the commit block.
- ReiserJournal.Journal.CacheTransaction: what becomes of the memory behind the table once it has gone beyond its end is not described.
- ElfLoader.ElfState.Probe: the notes segment, the entry point and the machine-dependent checks behind it are left out; program headers from a position that has wrapped are any values.
- ElfLoader.OsLoader.LoadBlock: assumes that no sum over the headers of an accepted file wraps, since after that the loader reads and writes outside of block and memory, and that segments are apart in the file and in memory, as the format demands; the FreeBSD hooks, which this configuration compiles to nothing, and image formats other than 32-bit ELF are left out.
- UdpPacket.BuiltIsAccepted: a frame shorter than the IP options it claims to carry is not modelled; built packets have none.
- Tftp.TftpClient.Loop: the text of option acknowledgements, the first request, ports, timeouts and back-off appear only as events; the server's side is the stop-and-wait sender of section 2 of RFC 1350; files of more than 2^31 blocks, for which the `int` counter of blocks overflows, are not modelled.
- Fat.FatFs.FatRead: the reading of the BIOS parameter block in `fat_mount` is not modelled; a geometry with one of the three entry sizes is assumed, and 32-bit entries whose reserved top four bits are zero.
- LongName.DirSearch.LookUp: listing completions, path names and the attribute checks around the loop; the entries of all directories of one call are one stream.
- Ext2.Ext2Fs.Read: symbolic links and path names are left out.
- Ext2.Ext2Fs.Mount: the fields of the superblock other than those used are not modelled, and the block size is fixed beforehand.
- Flash.Programmer.EraseMinimalRegion: progress callbacks appear only as the user's decision to go on; error texts and the detection of the chip are left out.
- BlockList.BlockFile.constructor: the parsing of the file name in `grub_open` is left out; what it guarantees is the precondition.
- Fatx.Partition.LoadFromDisk: assumes a chain that ends and stays inside the map.
- Disk.Device.DevRead: overflow of byte counts beyond 2^31 is not modelled.
- Device handshakes, video, menus, decompression, hashing, DHCP, ARP, NFS and the other file systems: input and output, fixed tables, or file formats not part of this model.
