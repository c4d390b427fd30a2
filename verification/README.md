# A verified model of chfs

chfs is a single-node file system on numbered inodes. Everything it knows lies on one array of equal
blocks:

| blocks | contents |
|---|---|
| 0 | super block |
| 1 .. | inode table: one 8-byte block id per inode number, 0 if the number is not in use |
| .. | inode bitmap |
| .. | block bitmap |
| the rest | inodes, indirect blocks and file data, mixed |

A file is an inode block with a header and a row of slots; each slot but the last names a data block, and the
last names an indirect block once the others do not suffice. A directory is a file whose bytes are the text
`name:id/name:id/...`.

The project models the whole stack as imperative Dafny over one byte array, in the form the C++ has: classes
for the block device, the bitmap, the allocator, the inode manager, the inode, the super block and the file
operations; loops where the source loops. Block size, number of blocks and number of inodes are symbolic.

## How the proof is built

* `BlockDevice`, `Bitmaps`, `Regions`, `Allocator`, `Inodes`, `InodeManagers`, `SuperBlocks` give each
  operation of the lower layers an exact effect on `bm.disk`, the sequence of blocks the byte array stands for.
* `Layout` says when such a sequence of blocks is a volume holding given files: the predicate `Consistent`. No
  block belongs to two files, no block of a file is free, both bitmaps and the inode table agree with the
  files, and every inode and indirect block is the image of its file. What an indirect block holds past the
  last data block is left open, since the code never clears it.
* `AbstractFs` and `AbstractDirs` describe the file system as callers see it: a map from inode numbers to
  kind, bytes and time stamp, and the number of free blocks. Each operation is a function on that.
* `FileBlocks` and `FileSystem` prove that every operation on the device does and returns exactly what the
  function says, for every valid volume, every argument and every outcome. `DirectoryOps` does the same for
  directories on top of the text functions of `DirectoryText`.
* `Geometry`, `CallLaws` and `TextLaws` say what each call does and returns in numbers and bytes alone: sizes and
  costs from the block size, the metadata as the least that holds what it has to, attributes, errors, windows,
  texts character by character, and the calls on directories as other calls in a row. `OnDisk` says where every
  byte of a volume is.
* `Runs` lifts this to sequences of calls, with the device reopened at any point, and with any number of handles
  on it used in any order.
* `Outcomes` says what a caller can know before a call: when an entry can be made or unlinked, which error a
  failed call returns, what it leaves behind, and how many blocks it loses.
* `AbstractRuns`, `Accounting`, `FileLaws`, `EntryLists`, `Namespace` and `Forest` prove what callers rely on over
  whole runs: conservation of blocks, frames, failure atomicity, sequence algebra of reads and writes, the
  namespace invariant with the exact condition under which each call keeps it, and the tree that directories
  make of the files. `UnexpectedRuns` holds a run on a new volume for each way in which a call fails halfway or
  loses blocks, and for a name that is accepted although the text cannot carry it.

Two results stand for what the error codes of the source do not cover. `Thrown` is the exception of `unwrap`
on an error. `Fault` stands for an access to memory that the code does not own, or to memory it was not meant
to touch: the single operation that would make it ends there without a change, and what the original does from
there on is not claimed. A caller inside the model handles a `Fault` like any other error: a lookup in
directory 0 ends in one, and making an entry there goes on to allocate an inode, as it does after every failed
lookup.

## Where the code does not do what one expects

These are stated with the exact condition under which the expected behaviour holds.

* The last two inode numbers are handed out but never served, since reading rejects `id >= max - 1`
  (`FileLaws.NewFile`, `FileLaws.AllNumbersGivenOut`).
* Removing a file with an indirect block reads that block into a vector of length 0. Removal works exactly if
  the data fits the direct slots, and a file that violates this can be made on every new volume with room for
  it (`Accounting.RemoveSucceeds`, `FileLaws.IndirectRemoveFaults`).
* A write that runs out of blocks keeps all blocks it took: they are neither free nor of any file afterwards,
  although no file changes. Whether a call loses blocks, and how many, can be told before it
  (`Outcomes.LosesBlocks`): a write loses all free blocks exactly if its contents are within the size limit and
  take more blocks than the file has and are free; an allocation loses one exactly if a block is left but no number.
  Blocks are conserved exactly by the other calls (`Accounting.StepAccounts`, `Accounting.RunAccounts`); losing runs
  are `UnexpectedRuns.FullWriteLosesBlocks` and `UnexpectedRuns.NoNumberLosesBlock`.
* Making an entry that fails leaves the new, empty file behind exactly if the name was not found and a block
  and a number were left (`Outcomes.MkHelperExact`): the parent could not be read
  (`UnexpectedRuns.MkHelperWithoutParent`), or the longer text did not fit it (`UnexpectedRuns.MkHelperLeavesFile`).
  If the parent is not there but has the very number that is handed out, the new file is its own parent
  (`UnexpectedRuns.OwnParent`). For clean names that is the only way in which making an entry puts a directory
  below itself (`Forest.CleanEntryAcyclic`).
* Unlinking that fails leaves the file removed exactly if the name led to a served file, not a directory, whose
  data fits the direct slots (`Outcomes.UnlinkExact`): the file was its own parent, or the text without the
  entry did not fit. `UnexpectedRuns.OwnEntryUnlinked` and `UnexpectedRuns.EntryOutlivesFile` are such runs.
  With directories changed by making and unlinking entries only it cannot happen
  (`Namespace.UnlinkAllOrNothing`).
* Names with a slash or a colon are accepted but not kept apart from the text around them. Such a name can be
  made again and again and is never found (`Namespace.UncleanNeverFound`). What its entry holds when it is read
  back are other entries, and the names of those are found afterwards if they were not found before
  (`Namespace.MkHelperLookups`): making `x:9` makes `x` lead to inode 9, whether or not there is one
  (`UnexpectedRuns.ForgedEntry`). Making an entry keeps the namespace tidy exactly if the entries that it holds are
  printed as they were written, their names and ids are new to the directory, and their ids are those of files that
  no other directory lists (`Namespace.MkHelperTidy`). All of this can be told before the call, and clean names
  always meet it (`Namespace.CleanEntryKeeps`).
* The bounded bit search honours its bound only within the bitmap, or if both bounds leave the same remainder
  of a word (`Bitmaps.ScanLimitExact`). All callers stay within the bitmap.
* Comments that disagree with the code: `nblocks` of the super block is described as the number of free blocks
  but holds the number of all blocks; the offset given to `BlockIterator::next` is described as the one to go
  to but is added to the current one; `unlink` is described as freeing the blocks of the file, which holds for
  files without an indirect block. The model follows the code.

## Model

| member | source | states |
|---|---|---|
| `Bytes.FromToBytes` | src/metadata/manager.cc:120-131 | A 64-bit id stored as bytes and read back is the id. |
| `BlockDevice.BlockManager.WritePartialBlock` | src/block/manager.cc:84-93 | Exactly the given bytes of the given block change, and no other block. |
| `BlockDevice.BlockManager.WriteBlock` | src/block/manager.cc:75-82 | The block holds the buffer; every other block is as before. |
| `BlockDevice.BlockManager.ReadBlock` | src/block/manager.cc:95-102 | The buffer holds the block; the device is as before. |
| `BlockDevice.BlockManager.ZeroBlock` | src/block/manager.cc:104-111 | The block is all zeros; every other block is as before. |
| `BlockDevice.BlockIterator.constructor` | src/block/manager.cc:123-140 | The iterator starts on the first block with that block in its buffer. |
| `BlockDevice.BlockIterator.HasNextInside` | src/include/block/manager.h:153-156 | There is a next block exactly while the iterator stands before the end of its range. |
| `BlockDevice.BlockIterator.AtBlock` | src/include/block/manager.h:153-156 | After k steps of a whole block the iterator stands on block k of its range, and goes on exactly while the range has that many. |
| `BlockDevice.BlockIterator.Walk` | src/metadata/manager.cc:81-82 | A loop in steps of a whole block ends, stands on each block of its range exactly once, in order, and finds each of them in its buffer. |
| `BlockDevice.BlockIterator.Next` | src/block/manager.cc:143-164 | Moving on reads the new block, if it is another one and not past the end; the buffer stays in step with the device, and past the end the result is DONE. |
| `BlockDevice.BlockIterator.FlushCurBlock` | src/include/block/manager.h:158-165 | Only the current block of the device changes, to what the buffer holds, and it lies in the range. |
| `Bitmaps.PutBitAtBit` | src/include/common/bitmap.h:46-68 | Setting or clearing a bit changes that bit and no other. |
| `Bitmaps.PutBitZeros` | src/include/common/bitmap.h:46-68 | Setting a clear bit lowers the count of clear bits by one, clearing a set one raises it by one, and nothing else changes it. |
| `Bitmaps.Bitmap.Set` | src/include/common/bitmap.h:50-53 | The buffer is the old one with that bit set. |
| `Bitmaps.Bitmap.Clear` | src/include/common/bitmap.h:59-62 | The buffer is the old one with that bit clear. |
| `Bitmaps.Bitmap.Check` | src/include/common/bitmap.h:68-71 | Tells whether the bit is set. |
| `Bitmaps.Bitmap.CountOnes` | src/include/common/bitmap.h:78-86 | The ones and the zeros add up to all bits. |
| `Bitmaps.Bitmap.CountZeros` | src/include/common/bitmap.h:88-91 | Counts the clear bits. |
| `Bitmaps.Bitmap.CountZerosToBound` | src/include/common/bitmap.h:98-106 | Counts the clear bits below the bound. |
| `Bitmaps.FullWord` | src/include/common/bitmap.h:126-139 | A word equal to all ones holds no clear bit, so skipping it loses nothing. |
| `Bitmaps.Bitmap.FindFirstFreeWithBound` | src/include/common/bitmap.h:124-156 | The word-skipping search finds the least clear bit below its limit, or says that there is none. |
| `Bitmaps.Bitmap.FindFirstFree` | src/include/common/bitmap.h:113-115 | The same over the whole bitmap. |
| `Bitmaps.ScanLimitExact` | src/include/common/bitmap.h:124-156 | The limit of the search is the smaller of the bound and the bitmap exactly if the bound lies within the bitmap or leaves the same remainder of a word. |
| `Regions.Region.Put` | src/block/allocator.cc:149-173 | Storing one bit of a bitmap that spans several blocks puts one place in or out of the free set and leaves every other place and block alone. |
| `Regions.Region.CountAll` | src/block/allocator.cc:70-91 | The clear bits counted block by block, the last block only up to its bound, are the free set. |
| `Allocator.BlockAllocator.constructor` | src/block/allocator.cc:10-67 | For every geometry that passes the checks, exactly the blocks past the bitmap are free afterwards, and only the blocks of the bitmap were written. |
| `Allocator.BlockAllocator.Initialize` | src/block/allocator.cc:38-67 | The loop that flushes on a change of block leaves exactly the first bits set, across all bitmap blocks. |
| `Allocator.BlockAllocator.Allocate` | src/block/allocator.cc:94-146 | Returns the least free block and takes it, and it alone, from the free set; fails exactly if no block is free. |
| `Allocator.BlockAllocator.Deallocate` | src/block/allocator.cc:149-173 | Puts exactly that block back; rejects blocks that are free already or not on the device, without a change. |
| `Allocator.BlockAllocator.FreeBlockCnt` | src/block/allocator.cc:70-91 | The number of free blocks, with a last bitmap block that is only partly used. |
| `Inodes.Inode.Reads` | src/include/metadata/inode.h:107-147 | The getters give the kind, times, size and slot counts of the file the buffer is the inode of, and the size limit of the geometry. |
| `Inodes.Inode.Format` | src/include/metadata/inode.h:100-164 | A new inode in a buffer with any contents is that of an empty file, with every slot cleared. |
| `Inodes.Inode.SetBlock` | src/include/metadata/inode.h:174-177 | One slot changes; header and other slots stay. |
| `Inodes.Inode.GetOrInsertIndirectBlock` | src/include/metadata/inode.h:203-214 | Gives the indirect block of the inode, and takes the least free block for it if there is none. |
| `Inodes.Inode.InvalidIndirectBlockId` | src/include/metadata/inode.h:222-224 | The last slot is cleared and nothing else. |
| `Inodes.Inode.WriteIndirectBlock` | src/metadata/inode.cc:11-18 | The buffer goes to the block the last slot names; without one the call is invalid and changes nothing. |
| `InodeManagers.InodeManager.constructor` | src/metadata/manager.cc:16-48 | The number of inodes is rounded up to whole bitmap blocks, all of them are unused, and only the table and the bitmap were written. |
| `InodeManagers.InodeManager.FromBlockManager` | src/metadata/manager.cc:50-67 | From the recorded number of inodes, the same geometry again. |
| `InodeManagers.InodeManager.SetTable` | src/metadata/manager.cc:120-131 | One entry of the table changes, the others and all other blocks stay. |
| `InodeManagers.InodeManager.Get` | src/metadata/manager.cc:134-147 | The entry of the id, with ids counted from 1 and entries from 0; for an unchecked id past the table, what stands in the blocks behind it. |
| `InodeManagers.InodeManager.ReadInode` | src/metadata/manager.cc:205-225 | The block of the inode and its contents, or an error for the last two ids and for ids not in use. |
| `InodeManagers.InodeManager.AllocateInode` | src/metadata/manager.cc:70-117 | Takes the least unused number across all bitmap blocks, lays out an empty inode in the given block and enters it; fails without a change exactly if every number is in use. |
| `InodeManagers.InodeManager.FreeInode` | src/metadata/manager.cc:228-251 | The number is unused again and its entry cleared; other numbers and entries stay. |
| `InodeManagers.InodeManager.FreeInodeCnt` | src/metadata/manager.cc:149-170 | Counts the unused numbers. |
| `SuperBlocks.SuperBlock.Flush` | src/include/metadata/superblock.h:69-72 | The front of the block records block size, block count and inode count; no other block changes. |
| `SuperBlocks.SuperBlock.FromExisting` | src/metadata/superblock.cc:16-27 | The record in memory is the front of the block. |
| `Layout.OwnershipOnDisk` | src/filesystem/data_op.cc:97-204 | On every volume the blocks of a file are data blocks, marked as taken, shared with no other file and as many as its size takes; direct slots past the last block hold 0, and the last slot holds 0 exactly if the direct slots suffice. |
| `Layout.NumbersOnDisk` | src/metadata/manager.cc:87-112 | For every inode number the bitmap is set exactly if the table has an entry, which is exactly if there is a file. |
| `Layout.LayoutUnique` | src/filesystem/control_op.cc:16-39 | The bytes of a volume determine its files. |
| `Layout.Remarked` | src/filesystem/data_op.cc:114-131 | Taking blocks that no file gets, as failed writes do, changes no file. |
| `Layout.Replaced` | src/filesystem/data_op.cc:97-281 | Giving a file new blocks from its old ones and the free ones keeps every other file, and the free count changes by the difference in cost. |
| `Layout.Added` | src/metadata/manager.cc:87-112 | Entering a new file keeps every other file and the free blocks. |
| `Layout.Removed` | src/metadata/manager.cc:228-251 | Taking a file out of the tables keeps every other file and the free blocks. |
| `Layout.NewVolume` | src/filesystem/control_op.cc:6-14 | Empty tables, the block bitmap after its initialisation and a super block make a volume without files whose free blocks are all data blocks. |
| `Layout.UnusedCount` | src/metadata/manager.cc:149-170 | The clear bits of the inode bitmap are as many as the numbers without a file. |
| `Geometry.InodeRoom` | src/include/metadata/inode.h:100-147 | An inode has as many slots as fit behind its 44 bytes, an indirect block as many ids as fit, and the size limit is what they name: `((bs - 44) / 8 - 1 + bs / 8) * bs`. |
| `Geometry.LegalSizes` | src/include/metadata/inode.h:100-105 | The block sizes that are modelled: 52 bytes and more, for an inode with a slot, below 2^29. |
| `Geometry.BlocksOfFile` | src/filesystem/data_op.cc:36-38 | A file takes one block for each block size begun, and one more once the slots for data blocks do not suffice. |
| `Geometry.MetadataLeast` | src/metadata/manager.cc:16-48 | No part of the metadata could be smaller: fewer blocks would not hold an 8-byte entry for each inode, a bit for each inode, or a bit for each block; the inodes are the least multiple of the bits of a block that is no smaller than what was asked for. |
| `Geometry.MetadataUsed` | src/metadata/manager.cc:16-48 | No block before the data is left unused. |
| `Geometry.MetadataSizes` | src/metadata/manager.cc:16-48 | The same sizes as quotients, rounded up. |
| `OnDisk.LittleEndian` | src/metadata/manager.cc:120-131 | 32- and 64-bit numbers, byte by byte. |
| `OnDisk.BitOrder` | src/include/common/bitmap.h:46-71 | Which bit of which byte a bit of a bitmap is. |
| `OnDisk.SizesOnDisk` | src/include/metadata/superblock.h:19-32 | The super block holds block size, block count and inode count in bytes 0, 8 and 16 on, and these are the sizes of the volume. |
| `OnDisk.Starts` | src/include/metadata/manager.h:26-30 | The inode table begins at block 1, the inode bitmap right after it, and the block bitmap right after that. |
| `OnDisk.TableOnDisk` | src/metadata/manager.cc:120-147 | Which bytes of which block hold the table entry of an inode number: the block of its inode, or 0. |
| `OnDisk.InodeMapOnDisk` | src/metadata/manager.cc:87-112 | Which bit of which block tells that there is a file of that number. |
| `OnDisk.BlockMapOnDisk` | src/block/allocator.cc:94-173 | Which bit of which block is clear for a free block. |
| `OnDisk.InodeOnDisk` | src/include/metadata/inode.h:79-91 | The inode of a file, field by field and slot by slot, and its indirect block, entry by entry. |
| `OnDisk.ByteOnDisk` | src/filesystem/data_op.cc:284-353 | Which byte of which block a byte of a file is. |
| `OnDisk.ViewOnDisk` | src/include/filesystem/operations.h:67-178 | What the callers see is what is there. |
| `FileBlocks.BlockStart` | src/filesystem/data_op.cc:36-38 | The computed number of blocks is the one for which block k starts inside the file exactly if k is below it. |
| `FileBlocks.BlockLimit` | src/include/metadata/inode.h:141-147 | A size is within the limit exactly if its blocks fit the direct slots and one indirect block. |
| `FileBlocks.WriteRefines` | src/filesystem/data_op.cc:97-277 | New blocks, new contents and the new inode together are what the abstract write does. |
| `FileBlocks.FailedWriteRefines` | src/filesystem/data_op.cc:114-131 | A write that runs out of blocks only takes all free ones. |
| `FileSystem.FileOperation.constructor` | src/filesystem/control_op.cc:6-14 | A new volume has no files, the rounded-up number of inodes, and every block free that is not metadata. |
| `FileSystem.FileOperation.CreateFromRaw` | src/filesystem/control_op.cc:16-39 | Opening a volume changes nothing on the device and finds the only files the device can hold. |
| `FileSystem.FileOperation.Reopens` | src/filesystem/control_op.cc:16-39 | Every volume in use can be opened again. |
| `FileSystem.FileOperation.HandlesAgree` | src/filesystem/control_op.cc:16-39 | Two handles on one device agree on the geometry, the files and the free blocks. |
| `FileSystem.FileOperation.GetFreeBlocksNum` | src/filesystem/control_op.cc:45-47 | The number of free blocks. |
| `FileSystem.FileOperation.GetFreeInodeNum` | src/filesystem/control_op.cc:41-43 | The number of inodes less the number of files. |
| `FileSystem.FileOperation.OpenInode` | src/metadata/manager.cc:205-225 | A served id leads to the block and the inode of its file; other ids fail as they should. |
| `FileSystem.FileOperation.GetTypeAttr` | src/metadata/manager.cc:192-202 | Kind, times and size of the file behind the id. |
| `FileSystem.FileOperation.GetAttr` | src/metadata/manager.cc:172-180 | Its times and size. |
| `FileSystem.FileOperation.GetKind` | src/metadata/manager.cc:182-190 | Its kind. |
| `FileSystem.FileOperation.BlockId` | src/filesystem/data_op.cc:317-339 | The id of block k of a file, from the inode or the indirect block, which is read the first time it is needed. |
| `FileSystem.FileOperation.ReadContents` | src/filesystem/data_op.cc:307-347 | The loop collects the bytes of the file, block by block. |
| `FileSystem.FileOperation.ReadFile` | src/filesystem/data_op.cc:284-353 | Returns exactly the bytes of the file. |
| `FileSystem.FileOperation.AddBlock` | src/filesystem/data_op.cc:114-146 | Growing by a block takes a free block, and a second one where the direct slots end; it fails exactly if there are too few, and none is free then. |
| `FileSystem.FileOperation.AllocateBlocks` | src/filesystem/data_op.cc:99-147 | Growing succeeds exactly if the free blocks suffice for the difference in cost. |
| `FileSystem.FileOperation.DropBlock` | src/filesystem/data_op.cc:150-186 | Dropping a block frees it and clears its slot or entry. |
| `FileSystem.FileOperation.FreeBlocks` | src/filesystem/data_op.cc:148-203 | Shrinking frees exactly the blocks past the new end, with the indirect block if it is no longer needed, and never fails. |
| `FileSystem.FileOperation.Reblock` | src/filesystem/data_op.cc:97-204 | Any change of size brings the block list to the new length exactly if the free blocks allow it, across the direct and indirect parts. |
| `FileSystem.FileOperation.WriteContents` | src/filesystem/data_op.cc:210-257 | The loop puts the content into the blocks of the file and changes no other block. |
| `FileSystem.FileOperation.WriteBlocks` | src/filesystem/data_op.cc:89-277 | Either the file has the new content, block list, size and times on the device, or only the block bitmap changed and no block is free. |
| `FileSystem.FileOperation.WriteFile` | src/filesystem/data_op.cc:61-281 | Does and returns what the abstract write says, for every old and new size; if it fails, no block outside the block bitmap changes. |
| `FileSystem.FileOperation.WriteFileAt` | src/filesystem/data_op.cc:40-58 | Overwrites a window of the file, zeros in a gap before it; if it fails, no block outside the block bitmap changes. |
| `FileSystem.FileOperation.ReadFileAt` | src/filesystem/data_op.cc:355-365 | Returns the window of the file, which has to lie inside it. |
| `FileSystem.FileOperation.Resize` | src/filesystem/data_op.cc:367-392 | Cuts the file or fills it up with zeros; if it fails, no block outside the block bitmap changes. |
| `FileSystem.FileOperation.AllocInode` | src/filesystem/data_op.cc:8-21 | A new, empty file under the least unused number costs one block; without a free block it throws, and without a number it loses the block. |
| `FileSystem.FileOperation.CollectDirect` | src/filesystem/control_op.cc:65-70 | Stopping at the first empty slot collects exactly the blocks of the file. |
| `FileSystem.FileOperation.DeallocateAll` | src/filesystem/control_op.cc:103-109 | All collected blocks become free, in any order, and none is rejected. |
| `FileSystem.FileOperation.RemoveFile` | src/filesystem/control_op.cc:49-114 | Does and returns what the abstract removal says; if it fails, nothing on the device changes. |
| `TextLaws.DigitsAt` | src/filesystem/directory_op.cc:18-22 | Ids are written in decimal: digit i is 48 plus the decimal digit of the id at that place. |
| `TextLaws.DigitsCount` | src/filesystem/directory_op.cc:18-22 | There are no leading zeros, and as many digits as the id takes. |
| `TextLaws.IdRead` | src/filesystem/directory_op.cc:11-16 | Ids are read past spaces, a sign and leading zeros, up to the first character that is no digit; too large ones are the largest, negative ones count down from 2^64. |
| `TextLaws.NoIdRead` | src/filesystem/directory_op.cc:11-16 | Without digits the id is 0. |
| `TextLaws.TextWritten` | src/filesystem/directory_op.cc:24-51 | How entries are written, in literal characters: `name:id`, slashes between entries. |
| `TextLaws.TextRead` | src/filesystem/directory_op.cc:53-81 | How any text is read: in pieces between slashes, each up to its first colon and from there on; pieces without a colon are passed over. |
| `TextLaws.Filtered` | src/filesystem/directory_op.cc:83-94 | Removing a name keeps all other entries in their order, and none of that name. |
| `TextLaws.FirstFound` | src/filesystem/directory_op.cc:118-122 | The entry found is the first with the name. |
| `DirectoryText.ParseDigits` | src/filesystem/directory_op.cc:11-22 | Printed ids are read back. |
| `DirectoryText.DirListToString` | src/filesystem/directory_op.cc:25-37 | Prints the entries with a slash between one and the next. |
| `DirectoryText.ParseDirectory` | src/filesystem/directory_op.cc:54-81 | The cursor loop reads the entries between the slashes, for every text. |
| `DirectoryText.RemoveName` | src/filesystem/directory_op.cc:84-93 | Parsing, dropping the entries with the name and printing the rest gives the text of the entries with other names. |
| `DirectoryText.ParseConcat` | src/filesystem/directory_op.cc:54-81 | Reading a text is reading what is before and what is after any slash. |
| `DirectoryText.ParsePrint` | src/filesystem/directory_op.cc:25-81 | Printing and reading a list with clean names gives the list back. |
| `DirectoryText.ParsedNamesClean` | src/filesystem/directory_op.cc:54-81 | Whatever is read has clean names. |
| `DirectoryText.AppendEntries` | src/filesystem/directory_op.cc:40-51 | Appending an entry with any name adds to what the text holds what the printed entry holds by itself. |
| `DirectoryText.AppendParsed` | src/filesystem/directory_op.cc:40-51 | Appending an entry to any text, with or without a final slash, appends it to the entries exactly if its name is clean. |
| `DirectoryText.AppendPrinted` | src/filesystem/directory_op.cc:40-51 | Appending to a printed list prints the longer list. |
| `DirectoryText.RmParsed` | src/filesystem/directory_op.cc:84-93 | Removing a name from any text leaves the entries with other names, in order. |
| `DirectoryText.RmShrinks` | src/filesystem/directory_op.cc:84-93 | A printed list gets strictly shorter when a name in it is removed. |
| `DirectoryOps.ReadDirectory` | src/filesystem/directory_op.cc:98-108 | The entries in the bytes of the file. |
| `DirectoryOps.Lookup` | src/filesystem/directory_op.cc:111-124 | The id of the first entry with the name. |
| `DirectoryOps.MkHelper` | src/filesystem/directory_op.cc:127-167 | Does and returns what the abstract operation says, in all its partial failures. |
| `DirectoryOps.Unlink` | src/filesystem/directory_op.cc:170-204 | Does and returns what the abstract operation says, in all its partial failures. |
| `EntryLists.FindConcat` | src/filesystem/directory_op.cc:111-124 | The first of two lists of entries is searched first. |
| `EntryLists.FindAppended` | src/filesystem/directory_op.cc:118-122 | An appended entry is found exactly if no entry before it has the name. |
| `EntryLists.FindWithout` | src/filesystem/directory_op.cc:84-93 | A removed name is not found; other names are found as before. |
| `EntryLists.WithoutIds` | src/filesystem/directory_op.cc:84-93 | Among distinct entries, removing a name removes exactly the id that was found under it. |
| `AbstractFs.FirstUnusedIsLeast` | src/metadata/manager.cc:81-113 | The number of a new inode is the least one not in use. |
| `CallLaws.Served` | src/metadata/manager.cc:205-225 | Reading succeeds exactly for the ids of files that are not among the last two; id 0 is a fault, every other id invalid. |
| `CallLaws.Refused` | src/metadata/manager.cc:205-225 | An id that cannot be read is refused by every call, for the same reason, without a change. |
| `CallLaws.Attributes` | src/metadata/manager.cc:172-202 | For a served file, kind and attributes, together or one by one, are its kind, its time three times, and the number of its bytes. |
| `CallLaws.AttributesTogether` | src/metadata/manager.cc:172-202 | For every id, asking for both gives the pair of what asking for each gives, or their error. |
| `CallLaws.WindowRead` | src/filesystem/data_op.cc:355-365 | A window inside the file is that slice of it. |
| `CallLaws.Counted` | src/filesystem/control_op.cc:41-47 | The counters give the free blocks and the numbers without a file. |
| `CallLaws.ContentsWritten` | src/filesystem/data_op.cc:61-281 | A write, from the block size alone: it succeeds exactly if the contents are no longer than `((bs - 44) / 8 - 1 + bs / 8) * bs` and the blocks they take no more than the file has and are free; the file, the free blocks and the error in each case. |
| `CallLaws.WindowWritten` | src/filesystem/data_op.cc:40-59 | Writing a window is writing the whole file with the window in it; it returns the length of the window, and succeeds exactly if the window ends below 2^64 and the longer of file and window can be written. |
| `CallLaws.SizeChanged` | src/filesystem/data_op.cc:367-392 | Resizing is writing the bytes cut or filled up; the attributes returned have the new size, which is then that of the file, and the times from before. |
| `CallLaws.Made` | src/filesystem/data_op.cc:8-21 | A new file gets the least number not in use, one block and the time of the call. |
| `CallLaws.NotMade` | src/filesystem/data_op.cc:8-21 | Without a block the call throws; without a number it fails, and a block is lost. |
| `CallLaws.Removed` | src/filesystem/control_op.cc:49-114 | Removing, from the block size alone: it works exactly if the size is no more than `((bs - 44) / 8 - 1) * bs`, and frees one block for each block size begun and one more. |
| `CallLaws.LookedUp` | src/filesystem/directory_op.cc:111-124 | A name leads where the first entry with it says. |
| `CallLaws.EntryInARow` | src/filesystem/directory_op.cc:127-167 | Making an entry does and returns what looking up, allocating, reading and writing do one after the other, with the text of the new entry in literal characters. |
| `CallLaws.UnlinkInARow` | src/filesystem/directory_op.cc:170-204 | Unlinking does and returns what looking up, asking for the kind, removing, reading and writing do one after the other. |
| `Outcomes.WriteOutcome` | src/filesystem/data_op.cc:89-204 | A write to a served file succeeds exactly if the contents are within the limit and the blocks suffice; if it fails it loses all free blocks, or none if it was refused for its size. |
| `Outcomes.NumberLeft` | src/metadata/manager.cc:149-170 | An allocation finds a number exactly if the counter of free inodes is not zero. |
| `Outcomes.MkHelperExact` | src/filesystem/directory_op.cc:127-167 | When making an entry succeeds, which error it returns otherwise, and exactly when a failed call leaves the new file, and how many blocks, behind. |
| `Outcomes.UnlinkExact` | src/filesystem/directory_op.cc:170-204 | When unlinking succeeds, which error it returns otherwise, and exactly when a failed call leaves the file removed. |
| `AbstractRuns.StepChanges` | src/include/filesystem/operations.h:67-178 | Every call, also one that fails, is at most two elementary changes, to files it has to do with. |
| `AbstractRuns.StepProper` | src/include/filesystem/operations.h:67-178 | Inode numbers and file sizes stay within their limits. |
| `Runs.ViewProper` | src/filesystem/data_op.cc:89-95 | Every volume on a device is within the limits. |
| `Runs.Remount` | src/filesystem/control_op.cc:16-39 | A new handle on the device of an old one shows the same volume, with nothing on the device changed. |
| `Runs.Perform` | src/include/filesystem/operations.h:37-178 | One call on the device is one step of the abstract file system. |
| `Runs.PerformAll` | src/include/filesystem/operations.h:37-178 | Any sequence of calls on a device, reopened at any point, leaves the volume and returns the results that the abstract run says. |
| `Runs.PerformAmong` | src/include/filesystem/operations.h:37-178 | The same with any number of handles on the device, calls going to them in any order: the results are those of one abstract run, and every handle shows its volume. |
| `Runs.NewVolumeCounts` | src/filesystem/control_op.cc:6-14 | The inodes and the free blocks of a new volume, as numbers. |
| `Runs.SampleVolume` | test/filessytem/common.h:21-24 | With the sizes of the tests: 139 blocks of metadata, 32629 free blocks and 8192 inodes. |
| `Runs.MakeAndPerformAll` | src/filesystem/control_op.cc:6-39 | From a new volume, every run is a run of the abstract file system; metadata, free blocks, the blocks of the files and those lost are the whole device, none being lost exactly if no call was one that loses blocks; the directories are tidy and without circles if every call was one that keeps them so. |
| `Accounting.ChangeAccounts` | src/filesystem/data_op.cc:97-204 | Elementary changes keep the sum of free blocks and blocks of files, except for blocks that are lost. |
| `Accounting.StepAccounts` | src/filesystem/data_op.cc:114-131 | Free blocks and blocks of files after a call fall short of those before by exactly what the call was known to lose; they are conserved exactly by the calls that lose none, and only calls that run out of resources do. |
| `Accounting.RunAccounts` | src/filesystem/data_op.cc:89-204 | The same over every run: the sum is conserved exactly if no call of the run was one that loses blocks. |
| `Accounting.FreeIsTheRest` | src/filesystem/data_op.cc:89-204 | Over every run on a new volume, the free count is what no file takes exactly if no call was one that loses blocks. |
| `Accounting.CostMono` | src/filesystem/data_op.cc:36-38 | A longer file never takes fewer blocks. |
| `Accounting.NoGrowthSucceeds` | src/filesystem/data_op.cc:148-203 | A write that does not make the file longer never fails. |
| `Accounting.WriteUndone` | src/filesystem/data_op.cc:97-204 | A successful write can always be taken back, with every block where it was counted before. |
| `Accounting.AllocUndone` | src/filesystem/control_op.cc:49-114 | Creating and removing a file leaves nothing behind, exactly if the file is served. |
| `Accounting.RemoveSucceeds` | src/filesystem/control_op.cc:65-92 | Removing a served file works exactly if its data fits the direct slots. |
| `Accounting.RemoveFrees` | src/filesystem/control_op.cc:94-109 | It frees the data blocks, one block more and one inode; the id is dead and every other id reads as before. |
| `FileLaws.StepFrame` | src/include/filesystem/operations.h:67-178 | A call leaves a live file it does not touch as it is, whether it succeeds or fails. |
| `FileLaws.RunFrame` | src/include/filesystem/operations.h:67-178 | The same over every run. |
| `FileLaws.ReadYourWrite` | src/filesystem/data_op.cc:61-353 | What was written is read back after any run that does not touch the file, with kind, size and times. |
| `FileLaws.StepDead` | src/metadata/manager.cc:205-225 | A number without a file gets one only when a file is created under it. |
| `FileLaws.RunDead` | src/filesystem/control_op.cc:94-109 | A removed file stays away over every run that creates none under its number. |
| `FileLaws.NewFile` | src/metadata/manager.cc:70-117 | A new file is empty, has the kind and time asked for and the least unused number, disturbs no other, and is served exactly if it is not one of the last two. |
| `FileLaws.AllNumbersGivenOut` | src/metadata/manager.cc:205-233 | A new volume hands out its numbers in order, also the last two, which are never served. |
| `FileLaws.IndirectRemoveFaults` | src/filesystem/control_op.cc:72-92 | On every new volume with room for it, a file one byte longer than the direct slots hold cannot be removed. |
| `FileLaws.FailureKeepsFiles` | src/filesystem/data_op.cc:260-281 | A failed call leaves all files as they were exactly if it is neither making an entry that got as far as the new file nor unlinking that got as far as removing the file; those leave exactly one empty file more, or that file less. |
| `UnexpectedRuns.FullWriteLosesBlocks` | src/filesystem/data_op.cc:99-131 | On new volumes that one file can fill, a run whose failed write loses every block but that of the inode. |
| `UnexpectedRuns.MkHelperLeavesFile` | src/filesystem/directory_op.cc:139-164 | On new volumes with two data blocks, a run in which making an entry in a readable directory fails and leaves the file. |
| `UnexpectedRuns.NoNumberLosesBlock` | src/filesystem/data_op.cc:8-21 | On new volumes with more data blocks than numbers, a run in which all numbers are given out and one more file is refused and costs a block. |
| `UnexpectedRuns.MkHelperWithoutParent` | src/filesystem/directory_op.cc:139-164 | A run in which making an entry in a directory that is not there fails and leaves a file without an entry. |
| `UnexpectedRuns.OwnParent` | src/filesystem/directory_op.cc:139-164 | A run in which the new file becomes its own parent, and a directory lies below itself. |
| `UnexpectedRuns.ForgedEntry` | src/filesystem/directory_op.cc:40-51 | A run in which making `name:k` makes `name` lead to `k`; names stay those of live files exactly if there is a file `k`. |
| `UnexpectedRuns.OwnEntryUnlinked` | src/filesystem/directory_op.cc:185-197 | A run in which a file is unlinked from itself: the call fails and the file is gone. |
| `UnexpectedRuns.EntryOutlivesFile` | src/filesystem/directory_op.cc:185-204 | A run in which unlinking fails because the new text is longer: the file is gone and its entry is still found. |
| `FileLaws.OverwrittenAt` | src/filesystem/data_op.cc:40-58 | Byte by byte, what writing a window makes of a file. |
| `FileLaws.ResizedAt` | src/filesystem/data_op.cc:367-392 | Byte by byte, what resizing makes of a file. |
| `FileLaws.SplitWindow` | src/filesystem/data_op.cc:40-58 | Two adjacent windows are as good as one. |
| `FileLaws.WindowsCommute` | src/filesystem/data_op.cc:40-58 | Windows that do not overlap can be written in either order. |
| `FileLaws.ReadAfterWriteAt` | src/filesystem/data_op.cc:355-365 | Any window read after a write at an offset is that slice of the overwritten bytes; the window written gives the data. |
| `FileLaws.WriteInParts` | src/filesystem/data_op.cc:40-58 | If there is room to write at once, writing in two parts succeeds and leaves the same volume. |
| `FileLaws.ResizeBack` | src/filesystem/data_op.cc:367-392 | Growing a file and cutting it again gives back its bytes and all blocks it took. |
| `FileLaws.GrowAndCut` | test/filessytem/indirect_file_write_test.cc:93-108 | Writing longer contents and cutting the file to its old size gives back all blocks the write took. |
| `Namespace.StepTidy` | src/filesystem/directory_op.cc:127-204 | Every call on a tidy volume, failing ones too, leaves it tidy (every directory printed as it reads, names unique, every entry the only one that names a live file) exactly if a condition on the state before it holds: no call that removes a file finds it named by another directory, and what a call writes to a directory, text or entry, can be listed there. |
| `Namespace.RunTidy` | src/filesystem/directory_op.cc:127-204 | A run is tidy throughout exactly if each of its calls was one that keeps it so. |
| `Namespace.DisciplinedKeeps` | src/filesystem/directory_op.cc:127-204 | Calls that change directories by making and unlinking entries only, with clean names, and that remove no file with an entry otherwise, are such calls. |
| `Namespace.NewIsTidy` | src/filesystem/control_op.cc:6-14 | A new volume is tidy. |
| `Namespace.MkHelperTidy` | src/filesystem/directory_op.cc:127-167 | Making an entry, with any name, keeps the invariant exactly if it fails, goes to a file that is no directory, or what the printed entry holds is printed as it reads and can be listed: names and ids not there twice, ids live and in no other directory. |
| `Namespace.CleanEntryKeeps` | src/filesystem/directory_op.cc:127-167 | Names without slashes and colons always meet that condition. |
| `Namespace.WriteTidy` | src/filesystem/data_op.cc:61-281 | Writing to a directory keeps the invariant exactly if the write fails or the text is printed as it reads and its entries can be listed. |
| `Namespace.MkHelperLookups` | src/filesystem/directory_op.cc:127-167 | For any name: a made entry leads to a new file exactly if its name is clean; another name is found as before exactly if it was found before or does not stand in what the printed entry holds, and otherwise leads where that says; other files are as before. |
| `Namespace.UncleanNeverFound` | src/filesystem/directory_op.cc:111-124 | Names with a slash or a colon are never found. |
| `Namespace.UnlinkAllOrNothing` | src/filesystem/directory_op.cc:170-204 | Unlinking removes file and entry or changes nothing; it succeeds exactly if the name leads to a served file, not a directory, whose data fits the direct slots, since the shorter text always fits. |
| `Namespace.UnlinkLookups` | src/filesystem/directory_op.cc:170-204 | Afterwards the name does not exist, other names are found as before, the file is dead and every other file untouched. |
| `Namespace.DirectoryLookup` | src/filesystem/directory_op.cc:111-124 | Looking a name up in a tidy directory finds its entry. |
| `Forest.AcyclicListed` | src/filesystem/directory_op.cc:147-164 | Listing more entries in a directory closes a circle exactly if one of them leads to it. |
| `Forest.StepAcyclic` | src/filesystem/directory_op.cc:127-204 | A call on files without circles closes none exactly if nothing that it writes to a directory, text or entry, leads there; whether or not the directories are tidy. |
| `Forest.RunAcyclic` | src/filesystem/directory_op.cc:127-204 | The same over every run. |
| `Forest.CleanEntryAcyclic` | src/filesystem/directory_op.cc:127-167 | Making an entry with a clean name in a directory closes a circle exactly if the new file is its own parent, which never happens if the parent is there. |
| `Forest.StepRoots` | src/filesystem/directory_op.cc:127-204 | Which files have no entry after a call, from the state before it: they come from new inodes, from making entries that fail halfway or go to files that are no directories, and from directories that are removed or written to; and from nothing else. |
| `Forest.RootAbove` | src/filesystem/directory_op.cc:111-124 | On a tidy volume without circles, every file is reached from a file without an entry. |
| `Forest.OneWay` | src/filesystem/directory_op.cc:111-124 | On a tidy volume it is reached from one such file only, and in one way. |

## Left out

- The FUSE adaptor and the logger: foreign callbacks, mostly stubs.
- The file-backed device (`open`, `ftruncate`, `mmap`): calls into the operating system; the in-memory array is modelled.
- Clocks: each call takes one arbitrary time, which stands for all readings of the clock during that call.
- Id 0: the original computes the index 2^64 - 1 and reads far outside the table, for block sizes that are powers of two at an address that wraps around into the super block; the model ends the reading of inode 0 in `Fault`.
- Ids without text: for an entry whose id is empty or blank the original returns an uninitialised variable; the model reads 0. An entry made with a name like `a:/b` has such an id.
- Names: any bytes here; those of the source are C strings, which hold no zero byte.
- Windows that end at 2^64 or beyond, and reads past the end of a file: the original leaves its buffers; the model ends the call in `Fault`.
- Running out of memory: a very large window or size makes the original throw from `resize` of its buffer; the model fails such a call with the size limit instead.
- `remove_file` on a file with an indirect block, as written: the original reads into a vector of length 0; the model ends the call in `Fault` with the device unchanged, and says exactly when that happens.
- Block sizes below 52, where an inode has no slot, and of 2^29 or more, where a block has more bits than the source's 32-bit sizes can count; devices of 2^32 blocks or more; volumes for 0 inodes. The source checks only the first, and less strictly.
- The number of inodes a volume is made for is small enough that its tables fit the device, as the source verifies; the multiplication there is not modelled modulo 2^64.
- The field of the super block for the size of the file system: the source never sets it.
- `InodeIterator`, which no operation uses, and the remaining getters, which read one field each.
- Crash consistency and concurrency: the source has no journal and says that it is not thread-safe.
