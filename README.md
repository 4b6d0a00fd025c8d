# A verified model of the FSO toy block file system

This project models the read side of a small teaching file system (`fs.c`). The file
system lives on a disk of 2048-byte blocks:

- Block 0 holds the superblock, which carries the magic number 0xf50f5024, the inode
  count, and the position and size of the inode region.
- The inode region packs 64 inodes of 32 bytes into each block.
- An inode has a type (FREE, directory 4, regular file 8), a size, 11 direct block
  numbers and one indirect block of 1024 16-bit block numbers.
- A directory block holds 32 entries of 64 bytes: a 16-bit inode number and a name of at
  most 62 bytes.

A mounted file system consists of the global superblock `rootSB` and a table of 512 open
files. Each open file holds a copy of its inode, an in-use flag, its open mode and its
offset.

The model has eight modules:

- `Layout` holds the constants and the byte-level decoding of blocks. Fields are
  little-endian.
- `Disk` is the block device.
- `Names` holds `name_validity` and `name_extractor`.
- `InodeStore` holds `inode_load` and `inode_save` as functions of the disk image.
- `AddressMap` holds `offset2block`.
- `Directory` holds `find_inode` and `print_ls` as functions, with their first-hit and
  exact-listing characterisations.
- `ReadPath` holds the copy loop of `fs_read` as a function.
- `FileSystem` is the mounted file system as a class. Its fields are the superblock and
  the open-file table. `check_rootSB` is a function of the superblock. The methods are
  `fs_mount`, the state change of `fs_debug`, `inode_load`, `inode_save`, `find_inode`,
  `print_ls`, `fs_ls`, `fs_open`, `fs_close` and `fs_read`, each written with the loops
  of the C code and proved against the functions above.

Behaviour of the code that the model keeps:

- The inode bound is `(unsigned)n > inode_cnt * 64`. It multiplies the inode count by 64,
  and with `>` the bound itself is accepted.
- `find_inode` does not walk the path. It reloads `rootSB` from block 0 (except for
  `"/"`), takes the text after the last `/`, and returns the first acceptable entry of
  that name. The scan runs over every directory inode of the inode region, in the order
  inode block, inode slot, direct block, entry.
- `fs_mount` returns 0 for an unformatted disk but mounts nothing.
- `fs_read` visits only the 11 direct slots, in order. It copies from a slot only when
  that slot's block number equals the block `offset2block` gives for the current offset.
  A byte in the indirect range is therefore read only when its indirect entry names the
  same block number as a direct slot the loop has not yet passed. A block number that
  appears in two slots is matched by number.
- `fs_close` clears the in-use flag and the offset, and keeps the inode and the mode.
- `print_ls` ignores the result of loading each child inode. The entry filter demands
  `d_ino < inode_cnt`, so that load never fails.

The class invariant `Valid()` says that the table has 512 slots and every offset lies
within its file. The constructor establishes it, and every method that changes the
table (`Open`, `OpenSlot`, `Close`, `Read`) keeps it. The other methods leave the table
alone. `Read` relies on it, as the C code relies on `fs_open` and `fs_close` (offset 0)
and `fs_read` being the only writers of offsets.

## Model

| member | source | states |
|---|---|---|
| Layout.InodeRoundTrip | fs.c:76-82 | decoding the 32-byte little-endian record of an inode gives back its type, link count, size, 11 direct block numbers and indirect block number |
| Layout.WithInodeSlots | fs.c:184-187 | after `block.inode[slot] = *ino` the written slot decodes to the saved inode and every other of the 64 slots decodes as before |
| Layout.CStringAtSpan | fs.c:85-88 | an entry name is the run of bytes from `d_name` up to the first NUL, or up to the end of the block when there is no NUL |
| Names.NameValidity | fs.c:267-281 | name_validity returns only 0 or -1, and accepts only names of 1 to 62 bytes |
| Names.PrintableFromIff | fs.c:276-278 | the character loop of name_validity finds no offending byte exactly when every byte lies in 32..126 |
| Names.NameValidityIff | fs.c:267-281 | name_validity returns only 0 or -1, and returns 0 exactly for names of 1 to 62 bytes that are all printable ASCII |
| Names.NameExtractor | fs.c:319-330 | the extracted name is no longer than the path and contains no '/' |
| Names.BaseStartAfterSlash | fs.c:321-327 | the pointer loop ends with the name start at 0 or just after a '/', with no '/' from there to the end |
| Names.NameExtractorSuffix | fs.c:319-330 | name_extractor returns a suffix of the path that contains no '/' and is either the whole path or preceded by a '/' |
| Names.NameExtractorUnique | fs.c:319-330 | any suffix with those three properties is the one name_extractor returns: it is the text after the last '/' |
| InodeStore.Unsigned | fs.c:162 | the `(unsigned)` cast keeps nonnegative numbers and sends negative ones to 2^31 or more |
| InodeStore.RejectedExactly | fs.c:162 | a number is rejected exactly when it is negative or greater than inode_cnt * 64; inode_cnt * 64 itself is accepted |
| InodeStore.LoadInode | fs.c:159-171 | inode_load fails exactly on a rejected number |
| InodeStore.SaveInode | fs.c:177-189 | inode_save keeps the disk size and leaves the disk unchanged for a rejected number |
| InodeStore.SaveThenLoad | fs.c:177-189 | loading an inode just saved, whose block lies on the disk, gives back the saved inode |
| InodeStore.SaveKeepsOtherInodes | fs.c:177-189 | saving inode n leaves every other inode number loading as before, including the 63 others in the same block |
| InodeStore.SaveKeepsOtherBlocks | fs.c:184-187 | a save changes no block but the one holding inode n |
| AddressMap.OffsetToBlock | fs.c:134-151 | offset2block returns -1 or a 16-bit block number |
| AddressMap.BlockMap | fs.c:137-146 | the logical block list of a file has 11 + 1024 entries and starts with the direct slots |
| AddressMap.OffsetToBlockIsLookup | fs.c:134-151 | offset2block is a lookup of `offset / 2048` in the direct slots followed by the indirect entries, and gives -1 past the end |
| AddressMap.OffsetToBlockRanges | fs.c:134-151 | the three ranges: a direct offset does not depend on the disk, an indirect offset depends only on the indirect block, and the result is -1 exactly from logical block 1035 on |
| AddressMap.SameBlock | fs.c:535-545 | the bytes of one copy, which stay within a block, map to the same logical block and to consecutive positions in it |
| Directory.SearchEntries | fs.c:367-377 | the entry loop returns -1 or an inode number between 1 and inode_cnt - 1 |
| Directory.SearchEntriesFirst | fs.c:367-377 | the entry loop returns -1 exactly when no later entry is acceptable and named like the target, and otherwise the inode number of the first such entry |
| Directory.SearchDirectoryFirst | fs.c:360-379 | the direct-block loop returns -1 exactly when no scanned direct block of the directory holds a hit, and otherwise the first hit in slot, entry order |
| Directory.SearchSlotsFirst | fs.c:353-381 | the same for the 64 inode slots of one block, where only directories are searched |
| Directory.SearchRegionFirst | fs.c:348-384 | the same for the inode blocks of the region from block i on |
| Directory.SearchDirectory | fs.c:360-379 | the direct-block loop over a directory returns -1 or an inode number between 1 and inode_cnt - 1 |
| Directory.SearchSlot | fs.c:356-380 | the body of the slot loop returns -1 or an inode number between 1 and inode_cnt - 1 |
| Directory.SearchSlots | fs.c:353-381 | the slot loop over one inode block returns -1 or an inode number between 1 and inode_cnt - 1 |
| Directory.SearchRegion | fs.c:348-384 | the loop over the inode region returns -1 or an inode number between 1 and inode_cnt - 1 |
| Directory.FindInodeSpec | fs.c:332-385 | find_inode gives inode 0 for "/", and otherwise -1 or an inode number below the inode_cnt of the reloaded superblock |
| Directory.FindInodeFirstHit | fs.c:332-385 | for any path but "/", find_inode returns -1 exactly when no acceptable entry in a directory of the inode region carries the last path component, and otherwise the inode number of the first one in scan order |
| Directory.FirstHitIsHit | fs.c:364-375 | the first hit is an acceptable entry named like the target in a direct block 0 < blk < disk_size of a directory inode, and its inode number lies in 1..inode_cnt - 1 |
| Directory.EntryRow | fs.c:302-307 | a row exists only for an acceptable entry, and carries its number, its name and the letter D or F |
| Directory.ListSpec | fs.c:283-315 | print_ls fails exactly when inode n is rejected by inode_load |
| Directory.Present | fs.c:299-308 | the printed rows are exactly the rows present among the entry positions |
| Directory.SlotScan | fs.c:295-311 | the positions of direct slot k are its block's entries when 0 < blk < disk_size and nothing otherwise |
| Directory.ListPrefixStep | fs.c:295-312 | the rows printed after slots 0..k are those printed after slots 0..k-1 followed by those of slot k |
| Directory.EntryRowIsRowFor | fs.c:303-307 | a printed row carries the entry's number and name, and the type letter and size of a directory or file inode that loads; every entry that passes the filter and names such an inode is printed |
| Directory.ListedRowFromEntry | fs.c:295-312 | every printed row comes from an entry of a scanned direct block |
| Directory.EntryListed | fs.c:295-312 | every entry that passes the filter in a scanned direct block and names a directory or file is printed |
| Directory.ListRowsExact | fs.c:283-315 | print_ls prints exactly the acceptable entries of the scanned direct blocks whose inode is a directory or a regular file, each with 'D' or 'F' and the inode's size |
| ReadPath.CopyStep | fs.c:530-547 | one iteration of the copy loop advances the output and the offset by the same amount, never past the file size or `length` |
| ReadPath.ReadLoop | fs.c:526-550 | the copy loop from direct slot k, ending after slot 10 or once `length` bytes are copied; ReadLoopBounds states its bounds |
| ReadPath.ReadSpec | fs.c:519-550 | the offset after the copy loop lies between the starting offset and the size, and has grown by exactly the bytes copied |
| ReadPath.ReadLoopBounds | fs.c:526-550 | the whole loop keeps the bounds of each step |
| ReadPath.ReadBounds | fs.c:519-559 | fs_read past its guards returns nothing for length <= 0, otherwise at most `length` bytes, and moves the offset by exactly the number returned, never beyond the size |
| ReadPath.CopyStepFromFile | fs.c:530-547 | a copy keeps the loop invariant: the current block is offset2block of the offset, and every byte copied is the file's byte at its offset |
| ReadPath.ReadLoopFromFile | fs.c:526-550 | the loop invariant holds after the whole loop |
| ReadPath.ReadFromFile | fs.c:519-559 | every byte fs_read returns is the byte at its file offset, taken from a direct block on the disk at the position offset2block gives |
| ReadPath.ReadAtEnd | fs.c:499-559 | at end of file fs_read returns 0 bytes and keeps the offset |
| ReadPath.ReadLoopAtEnd | fs.c:526-550 | once the offset equals the size, no iteration changes the cursor |
| ReadPath.ReadLoopWhole | fs.c:526-550 | from a block boundary, the loop copies as much as the request, the size and the remaining direct blocks allow |
| ReadPath.ReadFromStart | fs.c:519-559 | with all direct slots on the disk, a read from offset 0 returns min(length, size, 11 * 2048) bytes: nothing past the direct blocks is read |
| ReadPath.ReadLoopFrom | fs.c:526-550 | from a slot at or before the offset's block, the loop carries the read on until the request or the file is exhausted |
| ReadPath.ReadFromOffset | fs.c:499-559 | for a file within its direct blocks, all of them on the disk, a read from any offset o returns min(length, size - o) bytes: repeated reads give back the whole file and then 0 |
| FileSystem.MountSpec | fs.c:247-262 | fs_mount returns 0 or -1; a failure keeps the superblock, and any change installs block 0 decoded and carrying FS_MAGIC |
| FileSystem.MountOutcome | fs.c:247-262 | fs_mount fails exactly when a disk is mounted or the device does not open, and then changes nothing; it mounts exactly a formatted block 0, and an unformatted one returns 0 with nothing mounted |
| FileSystem.MountOnce | fs.c:250-253 | after a successful mount every later fs_mount returns -1 and changes nothing |
| FileSystem.FirstFreeFrom | fs.c:445-451 | the free-slot search returns the lowest slot not in use, and -1 exactly when every slot is in use |
| FileSystem.Closed | fs.c:492-494 | fs_close clears the in-use flag and the offset of slot fd, keeps its inode and mode, and changes no other slot |
| FileSystem.CloseFrees | fs.c:482-496 | closing a descriptor in use makes a slot no higher than it free, and closing the descriptor fs_open just returned makes the next fs_open pick it again |
| FileSystem.OpenTarget | fs.c:457-468 | the inode fs_open opens is a regular file that find_inode found |
| FileSystem.OpenTargetIsFile | fs.c:457-468 | an opened inode is a regular file, found by find_inode, that inode_load succeeds on |
| FileSystem.ReadRefused | fs.c:504-516 | fs_read refuses a descriptor opened O_WR only, and passes a mounted disk, a descriptor in range and in use, opened O_RD or O_RD with O_WR, on a regular file |
| FileSystem.FileSystem.constructor | fs.c:100-114 | before any mount the superblock is zero and all 512 slots are free |
| FileSystem.FileSystem.CheckRootSB | fs.c:122-128 | check_rootSB returns 0 exactly when the mounted superblock carries FS_MAGIC, and -1 otherwise |
| FileSystem.FileSystem.Mount | fs.c:247-262 | the new superblock and the result follow MountSpec for the old superblock, the result of disk_init and block 0 |
| FileSystem.FileSystem.Debug | fs.c:214-221 | when check_rootSB passes, fs_debug reloads the mounted superblock from block 0, as find_inode does; otherwise it changes nothing |
| FileSystem.FileSystem.InodeLoad | fs.c:159-171 | a rejected number gives -1 and the caller's inode typed FREE; otherwise 0 and the inode stored at that number |
| FileSystem.FileSystem.InodeSave | fs.c:177-189 | the disk afterwards is SaveInode of the disk before; the result is -1 exactly for a rejected number |
| FileSystem.FileSystem.ScanEntries | fs.c:367-377 | the entry loop returns the first hit of the block, or -1 |
| FileSystem.FileSystem.ScanDirBlock | fs.c:364-378 | direct slot k is searched only when 0 < blk < disk_size |
| FileSystem.FileSystem.ScanDirectory | fs.c:360-379 | the direct-block loop returns the directory's first hit, or -1 |
| FileSystem.FileSystem.ScanSlot | fs.c:356-380 | only a slot typed IFDIR is searched |
| FileSystem.FileSystem.ScanSlots | fs.c:353-381 | the slot loop returns the first hit of the inode block, or -1 |
| FileSystem.FileSystem.ScanInodeBlock | fs.c:349-353 | inode block i is read from first_inodeblk + i |
| FileSystem.FileSystem.ScanRegion | fs.c:348-384 | the region loop returns the first hit of the inode region, or -1 |
| FileSystem.FileSystem.FindInode | fs.c:332-385 | "/" leaves rootSB alone and gives 0; any other path reloads rootSB from block 0 and returns the first hit (FindInodeFirstHit) |
| FileSystem.FileSystem.EntryRowOf | fs.c:302-307 | the row printed for one entry, as characterised by EntryRowIsRowFor |
| FileSystem.FileSystem.ListEntries | fs.c:299-309 | the entry loop prints the rows present among the block's 32 entries, in order |
| FileSystem.FileSystem.ListSlot | fs.c:296-311 | direct slot k contributes rows only when 0 < blk < disk_size |
| FileSystem.FileSystem.PrintLs | fs.c:283-315 | -1 with no rows when inode n does not load; otherwise 0 and the rows of ListSpec (ListRowsExact) |
| FileSystem.FileSystem.Ls | fs.c:389-396 | -1 without change when no disk is mounted; otherwise find_inode's reload of rootSB, -1 when the name is not found, and print_ls of the inode found |
| FileSystem.FileSystem.FreeSlot | fs.c:445-451 | the loop returns the lowest free slot, or -1 (FirstFreeFrom) |
| FileSystem.FileSystem.OpenSlot | fs.c:457-475 | once a slot is chosen: -1 with the table unchanged unless the name resolves to a regular file; otherwise that slot alone receives the inode, in use, the mode and offset 0 |
| FileSystem.FileSystem.Open | fs.c:436-476 | fs_open returns -1 with the table unchanged when no disk is mounted, the mode is not O_RD, O_WR or both, every slot is in use, or the name is not a regular file; otherwise the lowest free slot alone is filled and returned |
| FileSystem.FileSystem.Close | fs.c:482-496 | fs_close returns -1 with the table unchanged exactly for a descriptor out of range or not in use; otherwise 0, and only that slot changes, to free with offset 0 |
| FileSystem.FileSystem.Read | fs.c:503-560 | fs_read returns -1 and changes nothing when a guard fails; otherwise it returns ReadSpec's byte count with those bytes at the front of `data`, the rest of `data` untouched, and only the slot's offset changed, to ReadSpec's offset |
| FileSystem.FileSystem.ReadFile | fs.c:519-553 | the copy loop's bytes and final offset are those of ReadSpec |
| FileSystem.FileSystem.ReadStep | fs.c:530-547 | one iteration of the loop performs CopyStep on the buffer, the offset and the current block |
| FileSystem.FileSystem.CopyBlock | fs.c:532-543 | the bytes of one copy are appended to the output and the offset advances by their number |
| FileSystem.Memcpy | fs.c:541 | memcpy writes the source bytes at `data + bytes_read` and nothing else |

## Left out

- `fso-sh.c`, the shell that calls these operations, is not part of this model.
- `fs.h` is not part of this model, apart from O_RD = 1 and O_WR = 2.
- `disk.c` and `disk.h` are not part of this model. The device is an in-memory array of
  blocks (`Disk.BlockDevice`). `disk_init` becomes the boolean `initOk` of `Mount`, and
  the device name and size arguments of `fs_mount` are dropped. The device's behaviour on
  a block number outside the disk is not visible; the model reads such a block as zeros
  and drops a write to it.
- `dumpSB` and the free-block bitmap are left out: they only print. Of `fs_debug` the
  model keeps only the state change (`FileSystem.FileSystem.Debug`): when a file system is
  mounted it reloads `rootSB` from block 0. Its listing of the bitmap and of the inodes in
  use is printing only and is left out.
- Every `printf` is left out, including the listing text of `print_ls`. The model returns
  the listed rows (number, type letter, size, name) in print order instead.
- The commented-out code after the `return` in `fs_ls` is left out, because it never
  runs.
- `Layout.CStringAt`: `strlen` and `strcmp` on a 62-byte `d_name` with no NUL run into
  the following entry. The model follows them, but only up to the end of the block.
  Past the end of the block the C reads beyond the buffer, which is undefined.
- `FileSystem.FileSystem.Read`: the C converts the unsigned 32-bit size to an `int`, so
  a size of 2^31 or more becomes negative and leads to a `memcpy` of negative length.
  The model treats sizes and offsets as nonnegative integers and does not model that
  overflow.
- `FileSystem.FileSystem.Read`: the model requires the buffer to hold at least `length`
  bytes. That is the caller's obligation in C.
- `FileSystem.FileSystem.Read` requires `Valid()`: every offset in the table lies within
  its file's size. Only `fs_open` and `fs_close` (offset 0) and `fs_read` write offsets,
  so this holds in every reachable state.
- `FileSystem.FileSystem.InodeLoad`: `print_ls` passes an uninitialised `child_inode`,
  which the model replaces by a zero inode. The load cannot fail there, so the value is
  never used.
- `ReadPath.ReadFromOffset` covers only files that fit in their 11 direct blocks, with
  every slot on the disk. Past 22528 bytes fs_read copies a byte only when the indirect
  entry for its offset names the block of a direct slot the loop has not yet passed. When
  a slot lies off the disk the copy stops there. In both cases the count can fall short
  of min(length, size - o), so no count is promised there.
  `ReadPath.ReadFromStart` gives that count for reads from offset 0.
- Concurrency is left out. The model has a single caller, as the C code does.
