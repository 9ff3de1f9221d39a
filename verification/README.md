# OS/161 kernel: a Dafny model

A model in Dafny of the parts of this OS/161 kernel whose correctness is hard to see from
the code, with proofs of what they promise. `dafny verify dfyconfig.toml` checks all of it.

Five components and two pieces of arithmetic are modelled.

- **SFS** (`Sfs*.dfy`, `Bitmap.dfy`, `Uio.dfy`). The disk is a sequence of 512-byte blocks.
  Superblock, inodes, indirect blocks, directory entries and the freemap are bytes on it.
  Vnodes are cached inodes with reference counts and dirty flags. The invariant says who owns
  each block. On top of it every run from a fresh image is shown to be a run of a small
  specification: names lead to files, files are byte sequences.
- **The kernel heap** (`KHeap*.dfy`). Memory is explicit: the freelists are words in the free
  blocks. Every run of kmalloc and kfree is shown to hand out private memory, to take a page
  only when it must and to give it back with its last block.
- **Paging** (`Paging*.dfy`, `CoreMap.dfy`, `FrameLists.dfy`). Frame table, doubly linked free
  list, second-chance clock, swap slots and page tables. Every run is shown to keep at each
  page what was last stored there, and to end early only for a reason; the clock is followed
  from one search to the next.
- **The four-way intersection** (`Intersection*.dfy`). A state machine over any number of cars,
  with locks that do what `synch.h` documents. It is shown safe, free of deadlock, and finite;
  every car goes through the quadrants between its two roads.
- **Threads, scheduler and semaphores** (`RingQueue.dfy`, `PtrArray.dfy`, `Thread*.dfy`,
  `Semaphore.dfy`), with interrupts off. Every thread is shown to be in one place, to run in
  turn, and to sleep on its address until that address is woken.
- **Arithmetic**: the Park-Miller generator (`PseudoRand.dfy`), and printing integers against
  reading them back (`NumberText.dfy`, `NumberRoundTrip.dfy`), as sections 7.19.6.1 and
  7.20.1.2 of ISO/IEC 9899:1999 describe them.

Code that updates state is a class or a method, proved against a function of the old state;
what the code promises is proved of those functions. Ghost fields such as `owner` and `book`
record what the links and tables stand for. `SfsOwnership.ExactlyOneRole`,
`PagingState.FrameRole` and their like say it again without them.

Where the code does not do what its comments or a reader would expect, the code is modelled as
it is and the exact condition is proved.

- `sfs_truncate` compares with `<` where `<=` would be expected, so one block can stay mapped
  past the end: `SfsVnodeOps.CleanExactly` says exactly when, and `SfsLeftover.LeftMapped` is
  such a file. It also does not zero the rest of the last block, so a later write past the end
  can bring old bytes back: `SfsBytes.TruncateTail` and `SfsBytes.FlatIffZeroTail` say exactly
  when. Every caller in this kernel truncates to 0.
- `sfs_link` and `vfs_link` let the root directory be linked, and `sfs_rename` asserts that what
  it renames is a file. `SfsNames.Rename` and `SfsRun.Run` say that this assertion fails exactly
  for a name of the root, and `SfsRun.RenameRoot` is such a run.
- A kernel request for several frames keeps its count only if its first frame was not free:
  `PagingRun.RequestAndRelease`.
- Comments in `thread.c` say that preallocation makes later additions safe. For sleepers, for
  wakeups by a running thread and for the thread being forked this is so:
  `ThreadRoom.SleepNeedsNone`, `ThreadRoom.WakeNeedsNone`, `ThreadRoom.ForkNeedsNone`. It is not
  so for a yield, for a wakeup on an idle machine and for an exit: each call fails exactly if it
  adds to a list without room and there is no memory, and `ThreadShortage.YieldFails` and
  `ThreadShortage.ExitFails` are runs that do.
- `%-0Nd` pads with zeros on the right, where the standard ignores the 0 flag:
  `NumberRoundTrip.RoundTrip`.

## Model

| member | source | states |
|---|---|---|
| `SfsLayout.WordsOfBytes` | os161-1.11/kern/include/kern/sfs.h:45-55 | a block of 128 words stored big-endian in 512 bytes reads back as the same words |
| `SfsLayout.InodeRoundTrip` | os161-1.11/kern/include/kern/sfs.h:45-55 | an inode written to its block and read back is the same inode, all 15 direct pointers and the indirect one included |
| `SfsLayout.InodeLayout` | os161-1.11/kern/include/kern/sfs.h:45-55 | size at byte 0, type at 4, link count at 6, the direct pointers from 8 on, the indirect one at 68, all big-endian, and zeros behind |
| `SfsLayout.ZeroInodeDecodes` | os161-1.11/kern/include/kern/sfs.h:45-55 | a zeroed block reads as the inode with no pointer, size, link or type |
| `SfsLayout.EncodeSuper` | os161-1.11/sbin/mksfs/mksfs.c:41-58 | the superblock mksfs writes has the magic number and the number of blocks, then the volume name byte by byte and zeros to the end of its field |
| `SfsBlocks.MapCoversDisk` | os161-1.11/kern/include/kern/sfs.h:16-25 | the freemap has a bit for every block of the disk |
| `Bitmaps.Bitmap.constructor` | os161-1.11/kern/lib/bitmap.c:31-64 | a new bitmap has no bit set below nbits and every leftover bit of the last byte set |
| `Bitmaps.Bitmap.MarkLeftover` | os161-1.11/kern/lib/bitmap.c:50-61 | the leftover loop sets exactly the bits past nbits |
| `Bitmaps.Bitmap.Alloc` | os161-1.11/kern/lib/bitmap.c:73-94 | allocation sets one bit that was clear, below nbits and the first in scan order; it fails exactly when every bit is set |
| `Bitmaps.Bitmap.Mark` | os161-1.11/kern/lib/bitmap.c:108-118 | marking a clear bit adds that bit and no other |
| `Bitmaps.Bitmap.Unmark` | os161-1.11/kern/lib/bitmap.c:121-131 | unmarking a set bit removes that bit and no other |
| `Bitmaps.Bitmap.IsSet` | os161-1.11/kern/lib/bitmap.c:135-142 | the test says whether the bit is in the set the bytes stand for |
| `SfsBlocks.AllocStep` | os161-1.11/kern/fs/sfs/sfs_vnode.c:62-78 | giving a block nobody owns the role "just allocated" and clearing it keeps block ownership and every file |
| `SfsBlocks.AttachDirectStep` | os161-1.11/kern/fs/sfs/sfs_vnode.c:149-158 | entering a fresh zeroed block as a direct pointer keeps block ownership and no file changes: the hole read as zeros before |
| `SfsBlocks.AttachIndirectStep` | os161-1.11/kern/fs/sfs/sfs_vnode.c:203-223 | entering a fresh zeroed block as the indirect block keeps block ownership and no file changes |
| `SfsBlocks.AttachEntryStep` | os161-1.11/kern/fs/sfs/sfs_vnode.c:237-252 | entering a fresh zeroed block in the indirect block keeps block ownership and no file changes |
| `SfsCore.SfsFs.Balloc` | os161-1.11/kern/fs/sfs/sfs_vnode.c:62-78 | the lowest block without a role, never block 0 and never past the end, zeroed and marked; failure changes nothing and means every block has a role |
| `SfsCore.SfsFs.Bused` | os161-1.11/kern/fs/sfs/sfs_vnode.c:96-103 | the test agrees with ownership, and the out-of-range panic is not reached |
| `SfsCore.SfsFs.CheckUsed` | os161-1.11/kern/fs/sfs/sfs_vnode.c:254-258 | the panic for a mapped block that is marked free is unreachable |
| `SfsCore.SfsFs.BmapDirect` | os161-1.11/kern/fs/sfs/sfs_vnode.c:137-169 | the block behind a direct pointer, allocated on demand; no file content changes |
| `SfsCore.SfsFs.BmapIndirect` | os161-1.11/kern/fs/sfs/sfs_vnode.c:171-260 | the block behind the indirect block, both allocated on demand; out of space after the first allocation still leaves ownership whole |
| `SfsCore.SfsFs.EnterEntry` | os161-1.11/kern/fs/sfs/sfs_vnode.c:244-251 | the new entry is in the indirect block on disk, the block is owned by that file position, and no file changes |
| `SfsCore.SfsFs.Bmap` | os161-1.11/kern/fs/sfs/sfs_vnode.c:117-261 | EINVAL exactly at block 143 and beyond; otherwise the pointer of that position, non-zero if allocation was asked for; ENOSPC only at a hole, when every block has a role; files and reference counts unchanged; every block keeps its role, and what is allocated is for that position or its indirect block |
| `SfsOwnership.ExactlyOneRole` | os161-1.11/kern/fs/sfs/sfs_vnode.c:60-261 | between operations a freemap bit is set if and only if its block has a role (superblock, freemap, beyond the disk, inode, indirect block, data block), and then exactly one; the roles are read off the disk and the vnode table, an inode counting only if it is the root, a directory entry names it or it is in hand, so no block is shared, lost or kept for a file nothing leads to |
| `SfsOwnership.RoleIsOwner` | os161-1.11/kern/fs/sfs/sfs_vnode.c:60-261 | the role read off the disk is the role in the bookkeeping, both ways |
| `SfsOwnership.LedIsLive` | os161-1.11/kern/fs/sfs/sfs_vnode.c:60-261 | the inode blocks in use are exactly those the root directory, the vnode table or the root itself leads to |
| `Uios.Uio.Move` | os161-1.11/kern/userprog/uio.c:12-82 | bytes go between the kernel buffer and the uio at its position, nothing else changes, and offset, resid and the iovec advance by the amount moved |
| `Uios.Uio.MoveZeros` | os161-1.11/kern/userprog/uio.c:85-108 | zeros are delivered sixteen at a time or fewer and the uio advances by the whole length |
| `SfsBytes.WriteIsFlat` | os161-1.11/kern/fs/sfs/sfs_vnode.c:419-513 | writing to a file that stores only zeros past its end is a flat overlay, the gap reading as zeros, and the file again stores only zeros past its end |
| `SfsBytes.FlatIffZeroTail` | os161-1.11/kern/fs/sfs/sfs_vnode.c:419-513 | every write to a file is a flat overlay if and only if the file stores only zeros past its end |
| `SfsBytes.OverlayInBlock` | os161-1.11/kern/fs/sfs/sfs_vnode.c:279-347 | a write inside one block changes that stretch of the file and nothing else |
| `SfsBytes.OverlayTwice` | os161-1.11/kern/fs/sfs/sfs_vnode.c:419-513 | a write done in two adjoining pieces is the write of the joined bytes |
| `SfsBytes.TruncateKeepsPrefix` | os161-1.11/kern/fs/sfs/sfs_vnode.c:1065-1157 | truncation to any length keeps every byte below both sizes |
| `SfsBytes.TruncateTail` | os161-1.11/kern/fs/sfs/sfs_vnode.c:1065-1157 | after truncation only zeros are stored past the end if and only if the bytes cut off in the blocks kept were zeros already |
| `SfsBytes.TruncateToZero` | os161-1.11/kern/fs/sfs/sfs_vnode.c:882-888 | truncation to 0 leaves the empty file with no stored byte |
| `SfsBytes.StaleByteReturns` | os161-1.11/kern/fs/sfs/sfs_vnode.c:1065-1157 | truncating two bytes to one and writing past the cut brings the cut byte back: truncation does not zero the tail of the last block |
| `SfsIo.PartialIo` | os161-1.11/kern/fs/sfs/sfs_vnode.c:279-347 | the stretch of one block is delivered or overlaid exactly; holes read as zeros; errors change nothing; an already mapped block cannot fail |
| `SfsIo.RwBlock` | os161-1.11/kern/fs/sfs/sfs_vnode.c:354-412 | a device block is read into or written from the uio at its position |
| `SfsIo.BlockIo` | os161-1.11/kern/fs/sfs/sfs_vnode.c:354-412 | one whole block is delivered or overlaid exactly; errors change nothing |
| `SfsIo.DeviceMove` | os161-1.11/kern/fs/sfs/sfs_vnode.c:389-411 | pointing the uio at the device block and back moves one block and advances the uio by 512 |
| `SfsIo.WholeBlocks` | os161-1.11/kern/fs/sfs/sfs_vnode.c:475-485 | the loop over whole blocks delivers or overlays the bytes up to where it stopped |
| `SfsIo.LeadingPart` | os161-1.11/kern/fs/sfs/sfs_vnode.c:447-468 | the leading partial block ends on a block boundary or at the end of the request |
| `SfsIo.TrailingPart` | os161-1.11/kern/fs/sfs/sfs_vnode.c:487-497 | the trailing partial block completes the request |
| `SfsIo.Transfer` | os161-1.11/kern/fs/sfs/sfs_vnode.c:419-513 | leading, whole and trailing parts together move one contiguous stretch; it is cut short only where the block map ends or at a hole with no block free; blocks are allocated only for the stretch of a write |
| `SfsIo.MovedTwice` | os161-1.11/kern/fs/sfs/sfs_vnode.c:419-513 | two transfers in a row, reading or writing, are one transfer of the sum of their lengths |
| `SfsIo.Read` | os161-1.11/kern/fs/sfs/sfs_vnode.c:419-513 | a read delivers exactly the bytes from the offset to the end of the request or of the file, none past the end, and fails only at the end of the block map; it changes no file and allocates nothing |
| `SfsIo.Write` | os161-1.11/kern/fs/sfs/sfs_vnode.c:419-513 | a write overlays exactly the bytes it accepted, moves the size to the end of what was written if that is further, and touches no other file; it stops only where the block map ends or at a hole with no block free, and allocates blocks only for the stretch written |
| `SfsTruncate.TruncateStep` | os161-1.11/kern/fs/sfs/sfs_vnode.c:1065-1157 | truncation to any length keeps block ownership, gives back exactly the released blocks, and the file keeps what it should |
| `SfsVnodeOps.CutDirectBlocks` | os161-1.11/kern/fs/sfs/sfs_vnode.c:1089-1100 | the first loop frees exactly the direct blocks at and past the new length |
| `SfsVnodeOps.CutEntries` | os161-1.11/kern/fs/sfs/sfs_vnode.c:1120-1133 | the second loop frees exactly the entries its strict comparison selects, and tells whether an entry is left |
| `SfsVnodeOps.CutIndirectBlock` | os161-1.11/kern/fs/sfs/sfs_vnode.c:1102-1148 | the indirect block is written back if it changed and freed exactly when no entry is left |
| `SfsVnodeOps.TruncateFile` | os161-1.11/kern/fs/sfs/sfs_vnode.c:1065-1157 | truncation to any non-negative length: exactly the released blocks lose their role, the file is cut, no other file and no reference changes |
| `SfsVnodeOps.MappedPastEnd` | os161-1.11/kern/fs/sfs/sfs_vnode.c:1124 | past the end at most one block stays mapped, at index DIVROUNDUP(len,512) and only if that is at least 15; to length 0 neither a data block nor the indirect block stays |
| `SfsVnodeOps.CleanExactly` | os161-1.11/kern/fs/sfs/sfs_vnode.c:1124 | after a truncation every block past the end is unmapped if and only if block DIVROUNDUP(len,512) was not mapped or is below 15 or at least 143 |
| `SfsLeftover.LeftMapped` | os161-1.11/kern/fs/sfs/sfs_vnode.c:1065-1157 | on a disk of eight blocks, a file whose sixteenth block is mapped still has it mapped after a cut to 7680 bytes |
| `SfsSteps.SyncStep` | os161-1.11/kern/fs/sfs/sfs_vnode.c:40-51 | writing an inode back keeps ownership and every file, and the vnode is clean |
| `SfsVnodeOps.SyncInode` | os161-1.11/kern/fs/sfs/sfs_vnode.c:40-51 | the inode on disk is the inode in memory afterwards; nothing observable changes |
| `SfsVnodeOps.CheckTable` | os161-1.11/kern/fs/sfs/sfs_vnode.c:1558-1578 | every vnode in memory sits in an allocated block: the free-block panic of the search is unreachable |
| `SfsVnodeOps.LoadVnode` | os161-1.11/kern/fs/sfs/sfs_vnode.c:1547-1651 | one more reference to the file, whether it was in memory or not, and no file changes |
| `SfsVnodeOps.InstallInode` | os161-1.11/kern/fs/sfs/sfs_vnode.c:1547-1651 | a forced type makes the zeroed block an empty file with one reference |
| `SfsVnodeOps.MakeObj` | os161-1.11/kern/fs/sfs/sfs_vnode.c:763-783 | a new empty file in the lowest block nobody used, with one reference, and no other block changes its role; out of space changes nothing |
| `SfsSteps.FreeInodeStep` | os161-1.11/kern/fs/sfs/sfs_vnode.c:896-917 | removing an inode without blocks gives back its block and removes that file only |
| `SfsVnodeOps.Discard` | os161-1.11/kern/fs/sfs/sfs_vnode.c:858-924 | reclaiming an unlinked file removes it; its inode block is free again, and only blocks of that file lose their role |
| `SfsVnodeOps.Decref` | os161-1.11/kern/fs/vfs/vnode.c:74-98 | dropping a reference erases the file if and only if it was the last one and no link is left; otherwise only the count changes |
| `SfsDir.EntryRoundTrip` | os161-1.11/kern/include/kern/sfs.h:57-60 | a directory entry written to its 64 bytes and read back is the same entry |
| `SfsDir.EntryLayout` | os161-1.11/kern/include/kern/sfs.h:57-60 | the inode number is in the first four bytes, big-endian, then the name, then zeros |
| `SfsDir.WriteSlotEntries` | os161-1.11/kern/fs/sfs/sfs_vnode.c:558-584 | writing the 64 bytes of a slot sets that entry of the directory and no other, or appends it |
| `SfsDir.BindSlot` | os161-1.11/kern/fs/sfs/sfs_vnode.c:666-703 | filling an empty slot with a new name keeps names unique and adds that one binding |
| `SfsDir.UnbindSlot` | os161-1.11/kern/fs/sfs/sfs_vnode.c:710-720 | clearing a slot removes its name and no other binding |
| `SfsDir.LinksSet` | os161-1.11/kern/fs/sfs/sfs_vnode.c:666-720 | setting a slot moves one count: the links of the new inode rise by one, those of the old fall by one |
| `SfsDir.NamesCount` | os161-1.11/kern/fs/sfs/sfs_vnode.c:593-606 | a directory without an empty slot has as many names as slots |
| `SfsDirOps.ReadSlot` | os161-1.11/kern/fs/sfs/sfs_vnode.c:525-550 | reading a slot yields that entry of the directory |
| `SfsDirOps.WriteSlot` | os161-1.11/kern/fs/sfs/sfs_vnode.c:558-584 | writing a slot sets that entry; it needs a new block only when it appends and the last block is full, fails only for want of one or past 143 blocks, and then changes nothing |
| `SfsDirOps.EntryKeepsMapped` | os161-1.11/kern/fs/sfs/sfs_vnode.c:558-584 | every block the directory reaches into is mapped, and stays so when an entry is written |
| `SfsDirOps.UsedSlotMapped` | os161-1.11/kern/fs/sfs/sfs_vnode.c:710-720 | a slot in use is in a mapped block, so clearing it cannot fail |
| `SfsDirOps.FindName` | os161-1.11/kern/fs/sfs/sfs_vnode.c:616-658 | the scan finds the slot of the name if it is bound, says so if not, and reports the last empty slot |
| `SfsNames.ChooseSlot` | os161-1.11/kern/fs/sfs/sfs_vnode.c:672-686 | the checks of sfs_dir_link and the slot it picks: the last empty one, or one past the end if and only if none is empty |
| `SfsTree.LinkKeepsTree` | os161-1.11/kern/fs/sfs/sfs_vnode.c:1245-1264 | a new binding with its count keeps: unique names, link counts equal to the slots naming the inode (one more for the root), every name leading to a file, no unreferenced file without a link |
| `SfsTree.UnlinkKeepsTree` | os161-1.11/kern/fs/sfs/sfs_vnode.c:1271-1297 | clearing a slot with its count keeps the same, and removes that one name |
| `SfsTree.DropKeepsTree` | os161-1.11/kern/fs/vfs/vnode.c:74-98 | dropping a reference keeps the same; the file stays exactly if a reference or a link is left |
| `SfsTree.NewObjectKeepsTree` | os161-1.11/kern/fs/sfs/sfs_vnode.c:763-783 | a new unlinked file with one reference keeps the same |
| `SfsTree.ContentKeepsTree` | os161-1.11/kern/fs/sfs/sfs_vnode.c:943-948 | changing the content of a file other than the directory keeps the same |
| `SfsNames.DirLink` | os161-1.11/kern/fs/sfs/sfs_vnode.c:666-703 | EEXIST and ENAMETOOLONG exactly when the name is bound or 60 characters or longer; the entry goes to the last empty slot, at the end only if there is none; so ENOSPC only with every block in use, no empty slot and every block of the directory full, EINVAL only with 1144 names; failure changes nothing |
| `SfsNames.DirUnlink` | os161-1.11/kern/fs/sfs/sfs_vnode.c:710-720 | clearing a slot in use always succeeds and changes only that slot |
| `SfsNames.LookOnce` | os161-1.11/kern/fs/sfs/sfs_vnode.c:728-752 | a name is found exactly if it is bound, with one more reference to its file |
| `SfsNames.Lookup` | os161-1.11/kern/fs/sfs/sfs_vnode.c:1418-1436 | the same for a lookup from the root directory |
| `SfsNames.Link` | os161-1.11/kern/fs/sfs/sfs_vnode.c:1245-1264 | one more name for the file and one more link, or nothing at all; the four errors under the same conditions; the root directory can be linked |
| `SfsNames.CreateNew` | os161-1.11/kern/fs/sfs/sfs_vnode.c:1214-1236 | a new object linked under the name, or given up again with files, names and references as they were |
| `SfsNames.Creat` | os161-1.11/kern/fs/sfs/sfs_vnode.c:1185-1236 | the existing file, or a new empty one under the name with one link and one reference; any failure leaves files, names and references as they were, the new inode gone again; EEXIST exactly for an existing name with excl, EINVAL only with 1144 names, ENAMETOOLONG only for 60 characters or more, ENOSPC only if the files can fill the disk at 145 blocks each, the new one counted only if the entry needs a new block of the directory too |
| `SfsNames.Unbind` | os161-1.11/kern/fs/sfs/sfs_vnode.c:1284-1291 | the name goes and the link count drops by one, on a file in hand |
| `SfsNames.Remove` | os161-1.11/kern/fs/sfs/sfs_vnode.c:1271-1297 | the name goes; the file goes with it exactly if that was its last link and nobody holds it |
| `SfsNames.Rename` | os161-1.11/kern/fs/sfs/sfs_vnode.c:1307-1379 | one binding moves to the new name, no other binding and no file changes; the recovery path for a failing unlink is never taken; the assertion that only files are renamed fails if and only if the old name leads to the root directory; the other errors as for a link |
| `SfsSpace.FullIsCrowded` | os161-1.11/kern/fs/sfs/sfs_vnode.c:62-78 | a disk without a free block has files enough to fill it at 145 blocks each: an inode, an indirect block and 143 blocks of data |
| `SfsImage.WriteBitmap` | os161-1.11/sbin/mksfs/mksfs.c:88-114 | the bits set are those of the superblock, the root inode, the freemap blocks and the blocks beyond the disk, each clear before it is set |
| `SfsImage.MakeImage` | os161-1.11/sbin/mksfs/mksfs.c:38-114 | the superblock, the root inode and the freemap are on the disk as bytes, and the freemap marks exactly the blocks in use |
| `SfsMap.MapRoundTrip` | os161-1.11/kern/fs/sfs/sfs_fs.c:41-73 | freemap bytes written to their blocks and read back are the same |
| `SfsMap.LoadMap` | os161-1.11/kern/fs/sfs/sfs_fs.c:41-73 | the bitmap holds the bytes of the freemap blocks |
| `SfsMap.SaveMap` | os161-1.11/kern/fs/sfs/sfs_fs.c:41-73 | the freemap blocks hold the bytes of the bitmap and no other block changes |
| `SfsImage.ImageInv` | os161-1.11/sbin/mksfs/mksfs.c:60-114 | a fresh image meets the ownership invariant |
| `SfsImage.EmptyRoot` | os161-1.11/sbin/mksfs/mksfs.c:60-71 | a fresh image holds one file, the root directory, empty, with one link |
| `SfsCore.SfsFs.Mount` | os161-1.11/kern/fs/sfs/sfs_fs.c:210-311 | the number of blocks and the freemap are read from their blocks on disk; if these mark exactly the blocks in use, the mounted filesystem meets the invariant |
| `SfsCore.DoMount` | os161-1.11/kern/fs/sfs/sfs_fs.c:253-268 | EINVAL exactly without the magic number; otherwise the mounted filesystem, with no vnode loaded |
| `SfsSync.SyncVnodes` | os161-1.11/kern/fs/sfs/sfs_fs.c:119-124 | every loaded vnode is written back and no file changes |
| `SfsSync.MapStep` | os161-1.11/kern/fs/sfs/sfs_fs.c:126-133 | writing the freemap touches no file |
| `SfsSync.Sync` | os161-1.11/kern/fs/sfs/sfs_fs.c:82-145 | no file changes, every vnode is clean, and the freemap on disk marks exactly the blocks in use |
| `SfsSync.DropVnodes` | os161-1.11/kern/fs/sfs/sfs_fs.c:82-145 | with every vnode clean the disk alone gives the same files |
| `SfsSync.SyncAndRemount` | os161-1.11/kern/fs/sfs/sfs_fs.c:82-311 | a filesystem synced and mounted again from its disk has the same files |
| `SfsImage.MakeAndMount` | os161-1.11/sbin/mksfs/mksfs.c:117-165 | formatting, mounting from the bytes written and taking the root gives an empty directory, whatever was on the disk |
| `SfsRun.LinkedIffNamed` | os161-1.11/kern/fs/sfs/sfs_vnode.c:858-924 | a file has a link if and only if a name leads to it |
| `SfsRun.LivesIffLed` | os161-1.11/kern/fs/sfs/sfs_vnode.c:858-924 | a file exists if and only if a name or a reference leads to it |
| `SfsRun.PruneTo` | os161-1.11/kern/fs/sfs/sfs_vnode.c:858-924 | what is left after dropping links and references is exactly the files still led to |
| `SfsRun.Perform` | os161-1.11/kern/fs/sfs/sfs_vnode.c:856-1379 | every call is a step of the specification "name to inode, inode to bytes", which also says when each error may come, no space for a name only if the number of names is a multiple of eight, and keeps all invariants; it fails an assertion if and only if it renames a name of the root directory |
| `SfsRun.Run` | os161-1.11/kern/fs/sfs/sfs_vnode.c:115-1379 | every sequence of creat, link, lookup, remove, rename, read, write, erase and release from a fresh image is a run of that specification, reply by reply, links to the root directory included; it stops early only at a rename of a name of the root |
| `SfsRun.RootRenameHalts` | os161-1.11/kern/fs/sfs/sfs_vnode.c:1245-1379 | on a fresh disk of 200 blocks a link to the root directory succeeds, and a rename of it is then the failing call |
| `SfsRun.RenameRoot` | os161-1.11/kern/fs/sfs/sfs_vnode.c:1245-1379 | the code, run on that input, answers the link and stops at the rename |
| `KHeapState.LiveDisjoint` | os161-1.11/kern/lib/kheap.c:353-541 | blocks handed out are 16-byte aligned, pairwise disjoint, and have one size per address |
| `KHeapState.LeastIs` | os161-1.11/kern/lib/kheap.c:335-349 | the size class chosen is the least one that holds the request |
| `KHeapState.FreeIsInMemory` | os161-1.11/kern/lib/kheap.c:168-200 | the blocks found by following the links in memory from a pageref are the freelist |
| `KHeapState.PageOnOneChain` | os161-1.11/kern/lib/kheap.c:113-149 | the list of all pages is the disjoint union of the eight size chains, none listed twice, and an in-use bit is set exactly for the pagerefs on it |
| `KHeapSteps.TakeStep` | os161-1.11/kern/lib/kheap.c:381-408 | unlinking the first free block keeps all lists, and every assertion on that path holds |
| `KHeapSteps.TakeOut` | os161-1.11/kern/lib/kheap.c:381-408 | it hands out that block, which was not out, and no other |
| `KHeapSteps.GiveStep` | os161-1.11/kern/lib/kheap.c:508-527 | pushing a freed block keeps all lists: the other freelists, threaded through memory, are untouched |
| `KHeapSteps.GiveOut` | os161-1.11/kern/lib/kheap.c:508-527 | it takes back that block and no other |
| `KHeapSteps.StoreStep` | os161-1.11/kern/lib/kheap.c:353-461 | a store by the holder into a block handed out touches no freelist |
| `KHeapPages.AddStep` | os161-1.11/kern/lib/kheap.c:432-460 | a fresh page joins the lists with all of its blocks free |
| `KHeapPages.DropStep` | os161-1.11/kern/lib/kheap.c:310-331 | a page leaves both lists; every other page and block is as it was |
| `KHeapPages.OutCount` | os161-1.11/kern/lib/kheap.c:168-200 | on a page the blocks handed out and nfree add up to the blocks of the page |
| `KHeapPages.KeptPageInUse` | os161-1.11/kern/lib/kheap.c:529-535 | a page whose freelist is not full has a block handed out |
| `KHeaps.FullFreelist` | os161-1.11/kern/lib/kheap.c:529-535 | a freelist as long as the page has blocks holds every block of the page |
| `KHeaps.LastFills` | os161-1.11/kern/lib/kheap.c:529-535 | freeing a block fills the freelist of its page if and only if no other block of that page is live |
| `KHeaps.KHeap.AllocPageRef` | os161-1.11/kern/lib/kheap.c:113-134 | the lowest free pageref is claimed, and none is reported exactly if all are in use |
| `KHeaps.KHeap.ThreadPage` | os161-1.11/kern/lib/kheap.c:441-449 | the loop threads a freelist of all blocks through the page and writes nowhere else |
| `KHeaps.ClassOf` | os161-1.11/kern/lib/kheap.c:335-349 | the smallest size class that holds the request; the panic is not reached up to 2048 bytes |
| `KHeaps.KHeap.FindRoom` | os161-1.11/kern/lib/kheap.c:373-412 | a page of the class with a free block, if and only if there is one |
| `KHeaps.KHeap.AddPage` | os161-1.11/kern/lib/kheap.c:432-460 | the new page is first on its chain and on the list of all pages, the others behind it as they were, all of its blocks free |
| `KHeaps.KHeap.Kmalloc` | os161-1.11/kern/lib/kheap.c:353-461 | one block more, of the least size class that holds the request, at an address that was vacant: the first free block of the first page of its chain with room, or the first of a new page; a page is asked for if and only if no page of that size has a free block; it fails if and only if then there is no page to be had or no pageref left, changing nothing; every other live block keeps its place and its contents |
| `KHeaps.KHeap.FillDeadbeef` | os161-1.11/kern/lib/kheap.c:9-17 | the block is overwritten and nothing outside it |
| `KHeaps.KHeap.FindPage` | os161-1.11/kern/lib/kheap.c:482-499 | the page the address lies on, or that it lies on none |
| `KHeaps.KHeap.UnlinkFromSame` | os161-1.11/kern/lib/kheap.c:316-322 | the size chain without that page, the rest in order |
| `KHeaps.KHeap.UnlinkFromAll` | os161-1.11/kern/lib/kheap.c:324-330 | the list of all pages without that page, the rest in order |
| `KHeaps.KHeap.Kfree` | os161-1.11/kern/lib/kheap.c:465-541 | the block and no other is no longer live, is overwritten with 0xdeadbeef behind its link, and is first on its page's freelist; other live blocks keep their contents; the page goes back if and only if no other live block was on it; an address on no page changes nothing |
| `KHeapRun.ShownSeparate` | os161-1.11/kern/lib/kheap.c:353-541 | between calls live blocks are non-null, aligned and pairwise disjoint |
| `KHeapRun.PagePartition` | os161-1.11/kern/lib/kheap.c:168-200 | every block of a page is exactly one of a block some caller has, of the size of the page, and a block on the freelist that the words in memory spell out |
| `KHeapRun.PageCount` | os161-1.11/kern/lib/kheap.c:168-200 | on every page the blocks callers have and nfree add up to the blocks of the page, and callers have at least one |
| `KHeapRun.NoRoomIs` | os161-1.11/kern/lib/kheap.c:373-412 | no free block of a size means that every page with blocks of that size is full of blocks callers have |
| `KHeapRun.HeldFull` | os161-1.11/kern/lib/kheap.c:113-134 | with every pageref in use 256 pages are held |
| `KHeapRun.LastIsOnly` | os161-1.11/kern/lib/kheap.c:529-535 | a block is the last on its page if and only if callers have no other block there |
| `KHeapRun.TracksPaged` | os161-1.11/kern/lib/kheap.c:353-541 | every block callers have lies on a page held, and every page held has one |
| `KHeapRun.Run` | os161-1.11/kern/lib/kheap.c:353-541 | every sequence of kmalloc, kfree of live blocks, and stores and fetches of their words on a fresh heap behaves as private blocks on pages: a fetch returns what was last stored there, a page is taken only when all of that size are full of blocks in use and goes back with the last block on it, and kmalloc fails only without a page to be had or with 256 pages held |
| `FrameLists.Removed` | os161-1.11/kern/vm/coremap.c:114-135 | relinking both neighbours leaves the doubly linked list without that frame, at either end and in the middle |
| `PagingState.FrameRole` | os161-1.11/kern/vm/coremap.c:53-135 | every managed frame is exactly one of free (once on the list), kernel, or the frame of exactly one page whose pfn points back |
| `PagingState.SlotRole` | os161-1.11/kern/vm/swapfile.c:56-93 | every swap slot is on the free chain, once, or in exactly one page's sfn |
| `PagingSteps.EvictStep` | os161-1.11/kern/vm/coremap.c:206-221 | evicting a page keeps ownership and what every page shows |
| `PagingSteps.FillStep` | os161-1.11/kern/vm/pt.c:59-74 | loading a page into a frame, from swap or file, keeps ownership and what every page shows |
| `PagingSteps.TakeStep` | os161-1.11/kern/vm/coremap.c:90-112 | taking a frame off the free list keeps ownership and what every page shows |
| `PagingSteps.GiveStep` | os161-1.11/kern/vm/coremap.c:53-88 | putting a frame on the free list keeps ownership and what every page shows |
| `PagingSteps.WriteStep` | os161-1.11/kern/vm/pt.c:49-75 | a store changes what that page shows and no other |
| `PagingSteps.DropSlotPage` | os161-1.11/kern/vm/addrspace.c:130-152 | a page that goes gives back its slot, which was not free |
| `CoreMaps.CoreMap.constructor` | os161-1.11/kern/vm/coremap.c:20-51 | all managed frames are free, the highest first, and all slots are free in order |
| `CoreMaps.CoreMap.FreeFrameListAdd` | os161-1.11/kern/vm/coremap.c:53-69 | the frame is first on the list |
| `CoreMaps.CoreMap.FreeFrameListAddBack` | os161-1.11/kern/vm/coremap.c:71-88 | the frame is last on the list |
| `CoreMaps.CoreMap.FreeFrameListPop` | os161-1.11/kern/vm/coremap.c:90-112 | the first free frame leaves the list; none exactly if it is empty |
| `CoreMaps.CoreMap.FreeFrameListRemove` | os161-1.11/kern/vm/coremap.c:114-135 | that frame leaves the list, wherever it is, the others staying in order |
| `CoreMaps.CoreMap.SwapFreePage` | os161-1.11/kern/vm/swapfile.c:56-59 | the slot is first on the free chain |
| `CoreMaps.CoreMap.SwapWrite` | os161-1.11/kern/vm/swapfile.c:68-81 | the frame goes to the first free slot; "Out of swap space" exactly when there is none |
| `CoreMaps.CoreMap.SwapRead` | os161-1.11/kern/vm/swapfile.c:84-93 | the slot comes to the frame and is free again |
| `CoreMaps.CoreMap.FreeCore` | os161-1.11/kern/vm/coremap.c:206-221 | a writable page goes to a slot, a read-only one nowhere, and still shows what it showed; the panic comes exactly for a writable page when no slot is free |
| `PagingClock.StopsOnce` | os161-1.11/kern/vm/coremap.c:155-195 | the clock has one place to stop |
| `PagingClock.ClockCovers` | os161-1.11/kern/vm/coremap.c:137-139 | clock order visits every managed frame exactly once a turn |
| `PagingClock.SweptUse` | os161-1.11/kern/vm/coremap.c:155-195 | the use bits cleared are those of the user frames passed and no others |
| `PagingClock.UseAhead` | os161-1.11/kern/vm/coremap.c:155-195 | the bit at the next frame is as it was when the clock started: no page sits in two frames |
| `CoreMaps.CoreMap.FirstTurn` | os161-1.11/kern/vm/coremap.c:159-175 | the first loop stops at the first user frame with a clear use bit, or returns to its start with every user frame passed |
| `CoreMaps.CoreMap.SecondTurn` | os161-1.11/kern/vm/coremap.c:176-190 | the second loop stops at the first user frame, or finds only kernel frames |
| `CoreMaps.CoreMap.PushToSwap` | os161-1.11/kern/vm/coremap.c:155-195 | the victim is the first user frame in clock order with a clear use bit, or if all are set the first user frame after a whole turn that cleared them; the pointer stays at the victim; the panic for too many kernel pages comes if and only if every frame is the kernel's |
| `CoreMaps.CoreMap.GetPpage` | os161-1.11/kern/vm/coremap.c:141-153 | the first free frame, the clock where it was; or, if none is free, the clock's victim: the pointer stays at it, its page is out, written to the first free slot if it is writable, and the use bits are cleared of the frames passed and no others |
| `CoreMaps.CoreMap.Load` | os161-1.11/kern/vm/pt.c:59-74 | the page comes to the frame with what it showed: from its slot if it has one, else from the file |
| `CoreMaps.CoreMap.PageIn` | os161-1.11/kern/vm/pt.c:49-75 | the page is in memory with its use bit set, in the first free frame or the victim's; the clock stays or stops there, the page displaced is in swap or nowhere, and every other page is where it was with the use bit the clock left it; every page shows what it showed; it fails exactly when a frame is needed, none is free and none can be taken, or the victim is writable and swap is full |
| `PagingChance.UseBits` | os161-1.11/kern/vm/coremap.c:155-195 | after a page-in by the clock a page has its use bit set if and only if it had it, is not the one displaced and was not in a frame the clock passed |
| `PagingChance.NewestSpared` | os161-1.11/kern/vm/coremap.c:155-195 | with the pointer at the page just brought in, the next search takes it if and only if every page in memory has its use bit set |
| `PagingChance.EvictTwice` | os161-1.11/kern/vm/coremap.c:155-195 | two page-ins in a row with no free frame: the second search starts where the first stopped, and displaces the page just brought in if and only if every page in memory has its use bit set |
| `PagingLimits.SwappedCount` | os161-1.11/kern/vm/swapfile.c:56-93 | the pages in swap and the free slots add up to 1024 |
| `PagingLimits.ClockLimit` | os161-1.11/kern/vm/coremap.c:206-221 | a page-in finds no slot only if there are more than 1024 writable pages |
| `CoreMaps.CoreMap.UserWrite` | os161-1.11/kern/vm/pt.c:56 | the page shows what was stored; every other page shows what it showed |
| `CoreMaps.CoreMap.FindRun` | os161-1.11/kern/vm/coremap.c:229-241 | the first run of that many frames that are not the kernel's, if and only if there is one |
| `CoreMaps.CoreMap.ClaimFrame` | os161-1.11/kern/vm/coremap.c:249-257 | one frame of the run leaves the free list, or its page leaves it; a free first frame loses the count stored in it |
| `CoreMaps.CoreMap.RequestKframes` | os161-1.11/kern/vm/coremap.c:223-260 | the lowest run is claimed; pages in it are evicted, to slots from the head of the chain if writable, and every page shows what it showed; every other page, the clock and the order of the other free frames are as they were; the count kept in the first frame is 1 if that frame was free and num otherwise; swap runs out if and only if the writable pages in that run outnumber the free slots |
| `PagingClaims.ClearedTwice` | os161-1.11/kern/vm/coremap.c:249-257 | clearing two stretches of frames one after the other is clearing both: free frames leave the list, pages go to swap or nowhere, and the rest stays |
| `PagingLimits.SwapLimit` | os161-1.11/kern/vm/coremap.c:223-260 | a kernel request runs out of slots only if there are more than 1024 writable pages |
| `CoreMaps.CoreMap.ReleaseKframes` | os161-1.11/kern/vm/coremap.c:267-279 | any frame of the machine: as many frames as it records go to the end of the free list in order, and no page changes; the assertions fail if and only if one of these frames is not the kernel's; only requests that had some of the frames lose them |
| `PagingRun.RequestAndRelease` | os161-1.11/kern/vm/coremap.c:223-279 | a request gets the lowest idle run, and releasing it returns all of its frames if and only if it is for one frame or the first frame of that run is not free; each frame not returned stays the kernel's and can be released by itself |
| `PagingRun.LostFrame` | os161-1.11/kern/vm/coremap.c:223-279 | two frames requested of a fresh machine: releasing them returns one |
| `CoreMaps.CoreMap.PtCreate` | os161-1.11/kern/vm/pt.c:19-46 | the i-th new page has the address of the segment plus i pages, is not loaded, writable as the segment is, and shows what the file holds; every other page is as it was |
| `CoreMaps.CoreMap.ReleasePage` | os161-1.11/kern/vm/addrspace.c:139-144 | the page's frame or slot, whichever it has, is free again |
| `CoreMaps.CoreMap.FreeSegments` | os161-1.11/kern/vm/addrspace.c:130-152 | every page of the active segments goes and gives back its frame or slot; every other page is as it was |
| `PagingFacts.GaveBack` | os161-1.11/kern/vm/addrspace.c:139-144 | the frame or slot of every page that went is on its free list |
| `PagingRun.Run` | os161-1.11/kern/vm/pt.c:49-75 | over every sequence of page table creation, reads, stores, exits, kernel requests, releases of any frame and kernel stores, a read returns what was last stored in the page, or what the file holds if nothing was; kernel requests get the lowest frames the kernel does not have and never share one; the run ends early only for a reason seen from outside: the kernel has every frame, there are more writable pages than 1024 slots, or a frame released is not the kernel's |
| `Intersection.RoutesFollowRing` | os161-1.11/kern/asst1/stoplight_v2.c:86-1024 | the lock order of each of the twelve routes follows the ring NW, SW, SE, NE |
| `IntersectionCrossing.RoutesLeadThere` | os161-1.11/kern/asst1/stoplight_v2.c:86-1024 | each of the twelve routes starts at the quadrant a car comes into from its road and ends at the one it leaves from to the road its turn leads to |
| `IntersectionSafety.StepKeeps` | os161-1.11/kern/asst1/stoplight_v2.c:86-1121 | every step of every car keeps the invariant |
| `IntersectionSafety.RunsKeep` | os161-1.11/kern/asst1/stoplight_v2.c:86-1121 | the invariant holds all along every run, for any number of cars and any interleaving |
| `IntersectionSafety.OneCarInAQuadrant` | os161-1.11/kern/asst1/stoplight_v2.c:86-1024 | two cars are never in the same quadrant |
| `IntersectionCrossing.StandsAlone` | os161-1.11/kern/asst1/stoplight_v2.c:86-1024 | a car has the lock of the quadrant it entered last until it has left it, also while it waits for the next one, so two cars never stand in the same quadrant |
| `IntersectionSafety.FlagClear` | os161-1.11/kern/asst1/stoplight_v2.c:100-117 | a car that has just taken a quadrant lock finds the flag clear: the waiting loops are never entered |
| `IntersectionSafety.NoSignal` | os161-1.11/kern/asst1/stoplight_v2.c:143-153 | nobody ever queues for a quadrant, so no quadrant signal is ever sent |
| `IntersectionSafety.AtMostThree` | os161-1.11/kern/asst1/stoplight_v2.c:1065-1121 | never more than three cars are past the gate |
| `IntersectionSafety.NoLostWakeup` | os161-1.11/kern/asst1/stoplight_v2.c:1065-1121 | count is the length of queue4, a car is on it exactly while it sleeps, and while any car sleeps there limit plus the woken cars that have not rechecked is at least 3 |
| `IntersectionSafety.Blocked` | os161-1.11/kern/asst1/stoplight_v2.c:86-1024 | a crossing car that cannot step waits for a held quadrant lock and holds at most the quadrant before it in the ring |
| `IntersectionSafety.SomeCrossingCarSteps` | os161-1.11/kern/asst1/stoplight_v2.c:86-1024 | while any car is crossing, some crossing car can step: a circular wait would need four |
| `IntersectionLiveness.SomeCarSteps` | os161-1.11/kern/asst1/stoplight_v2.c:1065-1121 | while any car is not through, some car can step |
| `IntersectionLiveness.StepIsProgress` | os161-1.11/kern/asst1/stoplight_v2.c:1065-1121 | every step lowers a bound on the steps still to come, wakeups and newcomers included |
| `IntersectionCrossing.StepEnters` | os161-1.11/kern/asst1/stoplight_v2.c:86-1024 | a step takes a car into the next quadrant of its route or into none |
| `IntersectionCrossing.InOrder` | os161-1.11/kern/asst1/stoplight_v2.c:86-1024 | all along every run a car has been in the first quadrants of its route, each once and in order, and in no other |
| `IntersectionCrossing.EveryCarCrosses` | os161-1.11/kern/asst1/stoplight_v2.c:1080-1121 | a car that is through, having come from a direction and made a turn, was in exactly the quadrants whose locks that route takes, in that order |
| `IntersectionCrossing.AllRestored` | os161-1.11/kern/asst1/stoplight_v2.c:86-1121 | with every car through, no lock is held, no flag is set, and limit, counts and queues are as at first |
| `IntersectionLiveness.EveryRunFinishes` | os161-1.11/kern/asst1/stoplight_v2.c:1065-1121 | no run takes more than 22 steps a car, a run that cannot go on has brought every car through, and a car that is through has been in the quadrants of its route, all of them, once each and in order, and in no other |
| `IntersectionCrossing.GateFifo` | os161-1.11/kern/asst1/stoplight_v2.c:1065-1121 | a step adds one car at the tail of the queue at the gate, or takes its head and wakes it, or leaves it alone |
| `IntersectionCrossing.LeavingWakes` | os161-1.11/kern/asst1/stoplight_v2.c:1107-1121 | a car that leaves while others wait wakes the first of them |
| `IntersectionCrossing.GateInTurn` | os161-1.11/kern/asst1/stoplight_v2.c:1065-1121 | over every run a car that waits behind j others is the (j+1)-th woken, whoever comes |
| `RingQueues.FullAt` | os161-1.11/kern/lib/queue.c:91-108 | one slot always stays empty: a ring of n holds n - 1 entries |
| `RingQueues.DoubleUpTo` | os161-1.11/kern/lib/queue.c:17-51 | the size is doubled until it reaches the target, and no further |
| `RingQueues.Queue.constructor` | os161-1.11/kern/lib/queue.c:53-68 | a new ring is empty |
| `RingQueues.Queue.Empty` | os161-1.11/kern/lib/queue.c:83-88 | empty exactly if nothing is queued |
| `RingQueues.Queue.Addtail` | os161-1.11/kern/lib/queue.c:90-108 | the entry is queued last; a full ring, and no other, is grown to twice its size; it fails exactly if the ring is full and there is no memory, changing nothing |
| `RingQueues.Queue.Grow` | os161-1.11/kern/lib/queue.c:17-51 | growth keeps the entries in order, doubles the size until it reaches the target and no further, and the additions it makes never grow the ring again |
| `RingQueues.Queue.Preallocate` | os161-1.11/kern/lib/queue.c:70-81 | at least that many slots, less than twice as many if it grew, the entries as they were |
| `RingQueues.Queue.Remhead` | os161-1.11/kern/lib/queue.c:110-121 | the first entry leaves the queue |
| `PtrArrays.PtrArray.Preallocate` | os161-1.11/kern/lib/array.c:42-65 | room for at least that many, at most for twice as many if it grew, the entries as they were |
| `PtrArrays.PtrArray.SetSize` | os161-1.11/kern/lib/array.c:67-89 | the entries kept stay; it needs memory exactly if it grows past the slots there are; emptying more than 16 slots gives them back |
| `PtrArrays.PtrArray.Add` | os161-1.11/kern/lib/array.c:99-114 | the entry is last; it needs memory exactly if all slots are used, and then has twice the slots and two |
| `PtrArrays.PtrArray.Remove` | os161-1.11/kern/lib/array.c:116-127 | that entry goes and the later ones move down in order |
| `ThreadState.OnePlace` | os161-1.11/kern/thread/thread.c:374-457 | a thread that is not dead is running, once in the run queue, or once among the sleepers: exactly one of them |
| `ThreadState.SplitMembers` | os161-1.11/kern/thread/thread.c:551-579 | the threads woken are exactly those asleep on the address |
| `ThreadState.SplitAll` | os161-1.11/kern/thread/thread.c:551-579 | nobody is lost and nobody is doubled by a wakeup |
| `ThreadState.SplitJoins` | os161-1.11/kern/thread/thread.c:551-579 | the threads woken are queued in the order in which they went to sleep |
| `ThreadState.WakeSleeper` | os161-1.11/kern/thread/thread.c:551-579 | a wakeup on its address queues a sleeper, and a wakeup on another leaves it asleep |
| `ThreadState.SleepPuts` | os161-1.11/kern/thread/thread.c:536-545 | after thread_sleep the caller is asleep on that address, unless an interrupt on it came while the machine was idle, and then it is queued or runs |
| `ThreadState.IdlesExactly` | os161-1.11/kern/thread/scheduler.c:87-105 | the machine stays idle if and only if nobody is queued and no interrupt that comes is one somebody sleeps on |
| `ThreadState.FirstInterruptOnly` | os161-1.11/kern/thread/scheduler.c:87-105 | the idle loop ends with the first interrupt that wakes somebody: sleepers on later ones sleep on |
| `ThreadState.IdleKeeps` | os161-1.11/kern/thread/scheduler.c:87-105 | the idle loop, whatever its interrupts wake, keeps every thread in one place |
| `ThreadState.DispatchKeeps` | os161-1.11/kern/thread/thread.c:430-457 | dispatching keeps every thread in one place, and the thread dispatched is not among the dead that are destroyed |
| `ThreadState.StashKeeps` | os161-1.11/kern/thread/thread.c:403-428 | putting the running thread on its list keeps every thread in one place and numthreads their number |
| `ThreadState.ForkKeeps` | os161-1.11/kern/thread/thread.c:269-369 | a new thread is queued once and counted |
| `Threads.ThreadSystem.MakeRunnable` | os161-1.11/kern/thread/scheduler.c:111-118 | the thread is last in the run queue; it fails if and only if the ring is full and there is no memory |
| `Threads.ThreadSystem.Wakeup` | os161-1.11/kern/thread/thread.c:551-579 | the loop that removes while it iterates moves exactly the matching sleepers to the run queue, in order, and leaves the rest in order; it fails if and only if they do not fit and there is no memory |
| `Threads.ThreadSystem.Exorcise` | os161-1.11/kern/thread/thread.c:102-118 | the dead are destroyed, the running thread not being one of them, and shrinking the array never fails |
| `Threads.ThreadSystem.Scheduler` | os161-1.11/kern/thread/scheduler.c:87-105 | the head of the run queue once the idle loop has one; it fails if and only if what an interrupt wakes does not fit and there is no memory |
| `Threads.ThreadSystem.MiSwitch` | os161-1.11/kern/thread/thread.c:374-457 | the running thread goes on its list and the next thread in line runs, or the machine idles; it fails if and only if there is no memory and that list or the run queue is too small |
| `Threads.ThreadSystem.Yield` | os161-1.11/kern/thread/thread.c:513-523 | the thread is queued last; from the idle loop the call does nothing; it fails if and only if there is no memory, there are as many threads as ring slots and nobody sleeps |
| `Threads.ThreadSystem.Sleep` | os161-1.11/kern/thread/thread.c:536-545 | the caller is asleep on that address, unless an interrupt on it woke it while the machine was idle, and the next in line runs; it fails if and only if there is no memory and a list is too small |
| `Threads.ThreadSystem.Exit` | os161-1.11/kern/thread/thread.c:466-508 | the thread is counted out and never runs again; it fails if and only if there is no memory and the zombies array or the run queue is too small |
| `Threads.ThreadSystem.ForkThread` | os161-1.11/kern/thread/thread.c:269-369 | the new thread is queued and counted, or nothing changed; it fails exactly if one of the preallocations does, and what is queued then always fits |
| `ThreadRoom.WakeNeedsNone` | os161-1.11/kern/thread/thread.c:570-577 | a wakeup by a running thread never needs memory |
| `ThreadRoom.SleepNeedsNone` | os161-1.11/kern/thread/thread.c:417-423 | after the first fork a thread going to sleep never needs memory for the sleepers |
| `ThreadRoom.YieldNeeds` | os161-1.11/kern/thread/thread.c:409-414 | a yield fits the ring if and only if there are fewer threads than slots or somebody sleeps |
| `ThreadRoom.IdleWakeNeeds` | os161-1.11/kern/thread/scheduler.c:87-105 | on an idle machine a wakeup fits the ring if and only if there are fewer threads than slots or it leaves somebody asleep |
| `ThreadRoom.ForkNeedsNone` | os161-1.11/kern/thread/thread.c:325-345 | once the ring is preallocated the new thread fits |
| `ThreadShortage.YieldFails` | os161-1.11/kern/thread/thread.c:409-414 | boot and 31 forks fill the ring of 32 slots, and the next yield without memory fails |
| `ThreadShortage.ExitFails` | os161-1.11/kern/thread/thread.c:102-118 | after seventeen threads took a turn each the array for zombies has given its storage back, and an exit without memory fails |
| `Semaphores.Semaphore.P` | os161-1.11/kern/thread/synch.c:63-83 | with the count at 0 the thread is asleep on the semaphore, unless an interrupt on it woke it while the machine was idle; otherwise it takes one; it fails if and only if it has to sleep, there is no memory and a list is too small |
| `Semaphores.Semaphore.V` | os161-1.11/kern/thread/synch.c:85-96 | the count rises by one and everyone asleep on the semaphore is queued to run; called by a running thread it never needs memory |
| `Semaphores.StepTally` | os161-1.11/kern/thread/synch.c:63-96 | after every step a count is its initial value plus completed Vs minus completed Ps, never negative, and nobody sleeps on a semaphore whose count is positive |
| `Semaphores.StepKeeps` | os161-1.11/kern/thread/thread.c:269-579 | every step of fork, yield, sleep, exit, wakeup, idle, P and V keeps every thread in one place and every semaphore in order |
| `ThreadRun.RunsKeep` | os161-1.11/kern/thread/thread.c:269-579 | the same all along every run |
| `ThreadRun.Perform` | os161-1.11/kern/thread/thread.c:269-579 | every call of the code is such a step; it fails if and only if there is no memory and what it adds does not fit |
| `ThreadFifo.BootOk` | os161-1.11/kern/thread/thread.c:207-248 | the machine as it boots is in order |
| `ThreadFifo.StepFifo` | os161-1.11/kern/thread/scheduler.c:87-118 | every step adds threads at the tail of the run queue and takes at most its head |
| `ThreadFifo.InTurn` | os161-1.11/kern/thread/scheduler.c:87-118 | over every run a thread queued behind j others is the (j+1)-th thread dispatched, whatever is queued meanwhile |
| `ThreadLife.StepSleeper` | os161-1.11/kern/thread/thread.c:536-579 | a thread asleep on an address is queued by a wakeup or V on it, and stirs for nothing else but an interrupt on it while the machine idles |
| `ThreadLife.SleepsUntil` | os161-1.11/kern/thread/thread.c:536-579 | over every run a thread stays asleep on its address until a call or an interrupt on it |
| `ThreadLife.NextCallWakes` | os161-1.11/kern/thread/thread.c:536-579 | and the next wakeup or V on it queues the thread |
| `ThreadLife.PSleepsUntilV` | os161-1.11/kern/thread/synch.c:63-96 | a thread that finds a semaphore at 0 sleeps on it until the next V of it queues the thread |
| `ThreadLife.StepDead` | os161-1.11/kern/thread/thread.c:466-508 | a thread that exited does not run, wait or sleep after any step |
| `ThreadLife.StaysDead` | os161-1.11/kern/thread/thread.c:466-508 | over every run a thread that exited is never anywhere again |
| `ThreadLife.StepReaps` | os161-1.11/kern/thread/thread.c:102-118 | the dead are kept, the thread that exits as the last, until a thread that ran before gets the processor again, and then all of them are destroyed |
| `ThreadLife.CountAdds` | os161-1.11/kern/thread/synch.c:63-96 | over every run the count of a semaphore is what it was at first plus the Vs less the Ps that went through |
| `PseudoRand.Schrage` | os161-1.11/kern/dev/generic/pseudorand.c:26-31 | the decomposition computes 16807*seed mod (2^31-1) with every intermediate in range |
| `PseudoRand.PrevNext` | os161-1.11/kern/dev/generic/pseudorand.c:20-39 | the step has an inverse |
| `PseudoRand.NextIsSeed` | os161-1.11/kern/dev/generic/pseudorand.c:34-37 | a seed in 1..2^31-2 leads to a seed in 1..2^31-2, never 0 |
| `PseudoRand.NextInjective` | os161-1.11/kern/dev/generic/pseudorand.c:20-39 | two seeds never lead to the same one |
| `PseudoRand.PseudoRandom.Random` | os161-1.11/kern/dev/generic/pseudorand.c:20-39 | the new seed is 16807*seed mod (2^31-1), no intermediate leaves int32, and the value returned is at most randmax |
| `PseudoRand.NthKeeps` | os161-1.11/kern/dev/generic/pseudorand.c:20-48 | over every run the seed stays in range and runs from different seeds never meet |
| `NumberText.WordFits` | os161-1.11/lib/libc/__printf.c:54 | the digits of a 32-bit word in base 8, 10 or 16 and the terminator fit in NUMBER_BUF_SIZE, 12 bytes |
| `NumberRoundTrip.DigitsStandFor` | os161-1.11/lib/libc/__printf.c:380-425 | in every base from 2 to 16 the digits printed stand for the number |
| `NumberRoundTrip.NoLeadingZero` | os161-1.11/lib/libc/__printf.c:380-425 | only 0 is printed with a leading 0 |
| `NumberText.PrintNum` | os161-1.11/lib/libc/__printf.c:380-425 | the loop from right to left leaves the digits, most significant first, right before the terminator, and never leaves the buffer |
| `NumberText.PrintStuff` | os161-1.11/lib/libc/__printf.c:332-369 | blanks go before the prefixes, zeros after them, and left-aligned fields are padded on the right |
| `NumberText.PrintInt` | os161-1.11/lib/libc/__printf.c:215-456 | the text of %d is the sign and the digits in their field |
| `NumberRoundTrip.FieldLayout` | os161-1.11/lib/libc/__printf.c:332-369 | a field is as wide as asked, or as the number if that is wider; aligned to the left the number comes first, to the right it comes last, with blanks before its sign or zeros after it |
| `NumberText.Atoi` | os161-1.11/lib/libc/atoi.c:21-72 | blanks skipped, a sign, and the digits up to the first other character, in unsigned 32-bit arithmetic |
| `NumberRoundTrip.ValueOfAny` | os161-1.11/lib/libc/atoi.c:21-72 | blanks, a sign or none, digits and whatever follows: the value is the number the digits stand for modulo 2^32 with the sign, and a plus sign is as none |
| `NumberRoundTrip.PlusIsNone` | os161-1.11/lib/libc/atoi.c:32-39 | digits after a plus sign read as the digits alone |
| `NumberRoundTrip.AccumulateDigits` | os161-1.11/lib/libc/atoi.c:44-63 | reading the decimal digits of a word gives the word |
| `NumberRoundTrip.ZerosChange` | os161-1.11/lib/libc/atoi.c:44-63 | zeros appended to a number change what is read, modulo 2^32 too, unless the number is 0 |
| `NumberRoundTrip.RoundTrip` | os161-1.11/lib/libc/atoi.c:21-72 | atoi of the text of %d, with any width and flags, gives the value back if and only if the value is 0 or no zeros were padded on the right |
| `NumberRoundTrip.PlainRoundTrip` | os161-1.11/lib/libc/atoi.c:21-72 | atoi of plain %d gives every 32-bit value back, the minimum included |
| `NumberRoundTrip.ZeroPadded` | os161-1.11/lib/libc/__printf.c:365-368 | left-aligned with zero fill, 7 in a field of three prints as 700 and reads back as 700 |

## Left out

- Device errors, user-space copy faults, and running out of kernel memory inside SFS: disk I/O and kmalloc succeed there; running out of disk blocks is modelled.
- The dirty flags of the freemap and the superblock, and sfs_unmount: a sync always writes the freemap and never the superblock, which nothing changes.
- SfsCore.SfsFs.Mount: requires that the disk is in order, as the code does not check it beyond the magic number; SfsCore.DoMount covers a wrong magic number.
- SfsImage.MakeAndMount: requires a disk that mksfs can format and a volume name that fits; on others mksfs stops with an error or a failed assertion.
- The order of the vnode table and its array: loaded vnodes are a map by inode number.
- sfi_waste, the unused words of an inode: they read and write as zeros.
- File offsets past 2^31: requests end within off_t.
- SfsRun.Run: the caller keeps one reference to the root directory throughout, as each path lookup takes one for its duration; calls the operations table of a directory does not have, read, write and truncate of the root, change nothing.
- SfsNames.Creat: ENOSPC is tied to the number of files, and to the number of names being a multiple of eight where it is the entry that needs a block, not to the free blocks left, since the inode it gives up is free again when it returns.
- SfsBytes.WriteIsFlat: stated for writes within the 143 blocks a file can map; SfsRun.Run covers the others, which the code cuts short with an error.
- checksubpage, checksubpages and the statistics printing of kheap.c: they only check or print.
- kmalloc for requests of 2048 bytes and more, which go to whole pages: the heap model covers the subpage allocator.
- KHeaps.KHeap.Kfree: freeing an address on a heap page that is not a live block is left to the caller, as in the code, which does not detect a double free.
- Interleavings inside a page-in, where the code briefly turns interrupts on: each page-in, eviction, release or kernel request is one step.
- The translation buffer and its calls in paging: they do not change what is modelled.
- Loading a page from the executable: what the file holds for a page is a parameter.
- The index of a page in its table, (vaddr - vbase) / PAGE_SIZE: pages are named by their page_detail.
- CoreMaps.CoreMap.ReleaseKframes: requires a frame of the machine; the code does not check the number.
- Address space copying and the segment checks of addrspace.c other than as_free_segments.
- The bodies of locks and condition variables in synch.c: they are empty, so the intersection uses their documented contract.
- Which direction and turn a car draws at random: each car has any one of the twelve routes.
- Messages printed by the cars and the bound of twenty cars: any number of cars is covered.
- Thread stacks, names, address spaces and working directories: a thread is a number and its sleep address.
- Semaphores.Semaphore.P: one pass of its loop is one step, since a thread that sleeps goes on with the loop when it runs again.
- sem_destroy, thread_hassleepers, thread_panic and shutdown: they tear down or only look.
- 32-bit overflow of ring and array sizes: they are unbounded here.
- The format parser of printf: the %d path and the padding are modelled, not the scan of the format string.
- catmouse.c, the other stoplight versions, system calls, the virtual file system's name lookup, device drivers, user programs: not part of this model.
