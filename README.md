# assoofs metadata engine in Dafny

assoofs is a small Linux block-device filesystem. It supports at most 64 objects.

- Block 0 holds the superblock: version, magic number, block size, inode count and a 64-bit free-block bitmap.
- Block 1 holds the inode store, a flat array of inode records. The first `inodes_count` of them are live.
- Every other block belongs to one object. A directory's block is a table of entries (name, inode number, state flag). The first `dir_children_count` of these are its children.

This project models the engine that keeps that metadata:

- the mount-time superblock check and its write-back to block 0;
- first-fit block allocation from the bitmap;
- the inode store's append, search, overwrite and lookup;
- the directory entry scan;
- the five steps of `create` and `mkdir`:
  1. assign inode number `inodes_count + 1`;
  2. allocate a block;
  3. append the record;
  4. append the parent entry;
  5. save the parent with one more child.

Modules, in dependency order:

- `Layout`: constants, record datatypes, and the `file_size` / `dir_children_count` union as a tagged `Content`, with its encoding.
- `Superblock`: the mount check.
- `Allocator`: the bitmap as `bv64`, the first-fit scan, and the scan as written.
- `InodeStore`: the store read as a sequence, and first-match search.
- `Directory`: the entry table, lookup, and the entry write.
- `Creation`: the volume as a value and the effect of a creation on it (`CreateSpec`), with the lemmas about it.
- `Volume`: a class over the device.
  - Fields: the in-memory superblock, block 0, block 1 as an `array`, and the directory blocks.
  - Methods: one per C function. Each is proved against the functions of the modules above.

The device is abstract. Block 0 is a `SuperBlockInfo` value. Block 1 is read from 102 raw slots with the `file_size` / `dir_children_count` union decoded by the mode's S_ISDIR bits, into an array of 102 `InodeInfo` slots, which is 4096 bytes of 40-byte records. Each block from 2 to 63 is a sequence of 15 `DirRecordEntry` slots, which is 4096 bytes of 272-byte records. Regular files' data blocks are never read or written by the engine; the model reads every block as an entry table.

The source does not check several things that would corrupt the volume. The model checks them all before anything is written:

- NoSpace when `inodes_count` has reached 64. The source only logs this.
- NoSpace when the parent's block already holds 15 entries. The source writes past the block.
- NameTooLong for a name of 255 bytes or more. The source's `strcpy` into `char[255]` overflows. Names are byte sequences (`Layout.Name`), so the limit counts bytes as `strcpy` does.
- NotFound when the parent is not among the live inode records. The source's `memcpy` goes to NULL.
- NoSpace when no block in [2, 64) is free. The source hands out block 64.

## Model

| member | source | states |
|---|---|---|
| `Layout.LayoutFacts` | assoofs.h:1-25 | The superblock record (five u64 fields and 4056 padding bytes) is exactly one 4096-byte block. Blocks 0, 1, 2 are superblock, store and root directory. The last reserved block is the root block. Root inode and last reserved inode are 1. The store has room for all 64 objects. FREE and USED differ |
| `Layout.EncodeDecode` | assoofs.h:40-44 | Reading a raw record's union by the mode's S_ISDIR bits always gives a well-kinded record. Writing that record back reproduces the raw slot exactly |
| `Layout.DecodeEncode` | assoofs.h:34-46 | A record whose File/Dir tag agrees with its mode survives the round trip through the shared union slot |
| `Layout.DecodeEncodeIllKinded` | assoofs.h:40-44 | A record whose tag disagrees with its mode does not survive the round trip. It is read back as the other kind |
| `Layout.DecodeStore` | assoofs.h:34-46 | Reading block 1 slot by slot gives one record per slot. Every record read is well kinded, and writing it back reproduces its raw slot |
| `Layout.DirModeIsDir` | assoofs.c:372 | S_IFDIR OR mode is a directory mode whenever mode carries no file-type bits |
| `Superblock.FillSuper` | assoofs.c:436-447 | Mount succeeds exactly when magic is 0x20200406 and block size is 4096. On success the in-memory superblock is the record read from block 0. Otherwise the error is InvalidSuperblock |
| `Superblock.MountableAfterUpdate` | assoofs.c:436-440 | A superblock that passed the check still passes after its inode count and bitmap change |
| `Superblock.VersionIgnored` | assoofs.c:436 | The version field has no influence on mounting |
| `Allocator.ClearBit` | assoofs.c:48 | The bitmap update `free_blocks &= ~(1 << i)` with a 64-bit mask. Its meaning is stated by ClearBitSpec |
| `Allocator.ClearBitSpec` | assoofs.c:48 | After `free_blocks &= ~(1 << i)`, bit i is used and every other bit keeps its value |
| `Allocator.FirstFreeFrom` | assoofs.c:37-44 | The scan from index i, with a 64-bit mask, stopping at 64. A found index lies in [i, 64). FirstFreeFromSpec states the rest |
| `Allocator.FirstFree` | assoofs.c:37-45 | The scan as the source starts it, from block 2. FirstFreeFromSpec and FirstFreeIsLeast state what it finds |
| `Allocator.FirstFreeFromSpec` | assoofs.c:37-44 | The result is the least free index at or above i and below 64. It is None exactly when no such index is free |
| `Allocator.FindFreeBlock` | assoofs.c:37-45 | The scan loop returns first fit on the bitmap: the smallest free block in [2, 64), so never block 0 or 1. It returns None when there is none |
| `Allocator.FirstFreeIsLeast` | assoofs.c:37-45 | Every free block from 2 up lies at or above the one first fit hands out |
| `Allocator.AllocateTwiceDistinct` | assoofs.c:37-48 | After a block is taken, the next allocation returns a strictly higher block |
| `Allocator.IntShiftMask` | assoofs.c:39 | The mask `1 << i` as an int widened to 64 bits, as x86-64 computes it: shift count taken mod 32, sign-extended when bit 31 is set. IntShiftMaskLow and MasksAt31And40 state its values |
| `Allocator.IntShiftMaskLow` | assoofs.c:39 | For i below 31 the source's int mask `1 << i` is bit i of the 64-bit word |
| `Allocator.ScanAsWrittenFrom` | assoofs.c:37-44 | The as-written scan with the int mask stops at the first index whose mask meets the bitmap, or at 64 |
| `Allocator.ScanAsWrittenFirst` | assoofs.c:37-44 | No index before the stop of the as-written scan meets its mask. A stop at 64 therefore means no index from the start met its mask |
| `Allocator.GetAFreeBlockAsWritten` | assoofs.c:37-50 | The source's allocator as written: always success, the block the scan stopped at, and the bitmap with that index's int mask cleared. AsWrittenHandsOutUsedBlock and AsWrittenOverrunsBitmap state what it does wrong |
| `Allocator.ScanAsWrittenAgreesBelow31` | assoofs.c:37-45 | When the first free block is below 31, the as-written scan finds the same block as first fit |
| `Allocator.AsWrittenStopsAt31` | assoofs.c:37-44 | With only block 40 free, the as-written scan stops at index 31, where the sign-extended int mask meets bit 40 |
| `Allocator.FirstFitTakes40` | assoofs.c:37-45 | With only block 40 free, block 31 is in use and first fit hands out block 40 |
| `Allocator.AsWrittenHandsOutUsedBlock` | assoofs.c:37-48 | With only block 40 free, the as-written allocator hands out block 31, which is in use. Its clear of the sign-extended mask also empties the bitmap, so block 40 is lost. First fit gives 40 |
| `Allocator.AsWrittenOverrunsBitmap` | assoofs.c:37-50 | With no free block, the as-written allocator reports success with block 64, outside the bitmap. First fit reports nothing free |
| `InodeStore.FindSlotFrom` | assoofs.c:85-98 | The result is the first slot from i below the count whose record has the number. It is None exactly when no such slot has it |
| `InodeStore.FindSlot` | assoofs.c:85-98 | The bounded search from slot 0: the first live slot with the number. FindSlotFrom and FindSlotIsFirst state its meaning |
| `InodeStore.FindInode` | assoofs.c:135-147 | A copy of the record at the slot FindSlot finds, or None. GetInodeInfo states its meaning |
| `InodeStore.FindSlotIsFirst` | assoofs.c:85-98 | Any live slot holding the number lies at or after the slot the search returns |
| `InodeStore.FindAfterAppend` | assoofs.c:66-76 | After the record is written at slot inodes_count and counted, numbers already live are found where they were. The new number is found at the new slot. Others stay missing |
| `InodeStore.FindAfterOverwrite` | assoofs.c:110-115 | Overwriting the found slot with a record of the same number moves no lookup |
| `InodeStore.SearchAsWrittenFrom` | assoofs.c:85-98 | The as-written search returns a slot up to and including the count, which holds the number |
| `InodeStore.SearchAsWritten` | assoofs.c:85-98 | The source's search as written, from slot 0. SearchAsWrittenReadsPastCount states how it differs from FindSlot |
| `InodeStore.SearchAsWrittenReadsPastCount` | assoofs.c:85-98 | The as-written search agrees with the bounded search on a hit. When no live slot matches, it reports the dead slot inodes_count if that slot holds the number |
| `InodeStore.SearchAsWrittenFindsDeadSlot` | assoofs.c:85-98 | Take a store numbered in creation order, root at slot 0, whose slot inodes_count is zero-filled. A search for inode 0 answers that dead slot; the bounded search answers none |
| `Directory.FindEntryFrom` | assoofs.c:251-261 | The result is the first entry from i below the child count with the name. It is None exactly when none has it |
| `Directory.FindEntry` | assoofs.c:251-261 | The entry scan from slot 0 over the dir_children_count entries. FindEntryFrom states its meaning |
| `Directory.LookupEntry` | assoofs.c:251-261 | The inode number of the entry FindEntry finds, or None. Volume.Volume.Lookup and LookupAfterAppend state its meaning |
| `Directory.WriteEntry` | assoofs.c:321-325 | Slot k gets the name and the inode number and keeps its state flag. Every other slot is unchanged. The length is unchanged |
| `Directory.LookupAfterAppend` | assoofs.c:321-333 | Appending at the child count and counting it makes a fresh name resolve to the new inode. Every other name resolves as before |
| `Directory.LookupIgnoresSlotsPastCount` | assoofs.c:251 | Entries at or past the child count never affect a lookup |
| `Creation.NumberedFind` | assoofs.c:135-147 | When slot i holds inode i+1, inode ino is found exactly when 1 <= ino <= inodes_count, and then at slot ino - 1 |
| `Creation.DeadSlotFoundAsWritten` | assoofs.c:85-98 | On a mounted volume numbered in creation order whose slot inodes_count is still zero-filled, the source's search for inode 0 returns that dead slot. The bounded search returns none |
| `Creation.CreateError` | assoofs.c:283-312 | The guards of a creation, tested before anything is written: object limit, full parent block, name of 255 bytes or more, parent not in the store, no free block. CreateFailsCleanly states their effect |
| `Creation.NewRecord` | assoofs.c:298-301 | The record create fills in (mode as given, size 0), or mkdir (S_IFDIR OR mode, no children, lines 370-373). NewRecordKind states its properties |
| `Creation.CreateSpec` | assoofs.c:283-334 | A creation on the volume as a value: the error of CreateError with nothing changed, or the commit. CreateFailsCleanly, CreateSuperblockEffect, CreateStoreEffect and CreateThenLookup state its effect |
| `Creation.Commit` | assoofs.c:310-334 | The writes of a creation: count and bitmap updated and persisted, record appended, entry written, parent saved. CommitThenGet and CommitKeepsBlocksInUse state their effect |
| `Creation.CreateFailsCleanly` | assoofs.c:283-301 | A creation fails exactly when a check fails: object limit, full parent block, long name, missing parent, or no free block. It then changes nothing |
| `Creation.CreateUnfold` | assoofs.c:310-334 | A successful creation is the commit with the first free block and the parent's slot in the store |
| `Creation.CreatePreservesWellFormed` | assoofs.c:310-334 | Creation keeps the volume well formed: superblock persisted and mountable, store and directory blocks of whole size, count within the store |
| `Creation.CreateSuperblockEffect` | assoofs.c:283-314 | The new inode number is inodes_count + 1. The count rises by one. Exactly the first free block from 2 leaves the bitmap. Block 0 equals the in-memory superblock. Magic, block size and version are unchanged |
| `Creation.CreateStoreEffect` | assoofs.c:311-334 | The new record is at slot inodes_count. The parent's slot holds the parent with one more child. No other slot changes |
| `Creation.NewRecordKind` | assoofs.c:298-301 | A file keeps its mode and starts with size 0. A directory gets S_IFDIR OR mode and zero children, and is well kinded when mode has no type bits. Both carry the new number and block |
| `Creation.CreateThenLookup` | assoofs.c:316-334 | After creation, a name that no child had resolves in the updated parent to the new inode. Every other name and every other directory block is unchanged |
| `Creation.CreateThenGet` | assoofs.c:286-314 | Numbering in creation order is preserved. The new inode and the updated parent are found in the store. Every other number is found where it was |
| `Creation.CommitThenGet` | assoofs.c:310-334 | After the writes of a creation, numbering in creation order still holds. The new inode is found at slot inodes_count and the parent at its slot. Every other number is found where it was |
| `Creation.CreateKeepsBlocksInUse` | assoofs.c:310-314 | When the caller's parent copy is the stored one, every live record's block stays marked used. The new block was used by no live record |
| `Creation.CreateTwiceDistinct` | assoofs.c:283-334 | Two creations under the same parent get consecutive inode numbers and strictly increasing blocks. The parent ends with two more children |
| `Creation.CreateReturns` | assoofs.c:283-334 | A successful creation's new superblock and what it returns: inode inodes_count + 1 and the parent with one more child |
| `Volume.Volume.Mount` | assoofs.c:430-447 | A well-formed volume image mounts with the record of block 0 as its in-memory superblock. Block 1 is read with every union decoded by the mode, and each slot read writes back to its raw record |
| `Volume.Volume.SaveSbInfo` | assoofs.c:13-24 | Block 0 becomes the in-memory superblock |
| `Volume.Volume.GetAFreeBlock` | assoofs.c:30-51 | The first free block from 2 is cleared in the bitmap and persisted, and is returned. When none is free, NoSpace and nothing changes |
| `Volume.Volume.AddInodeInfo` | assoofs.c:53-77 | The record is written at slot inodes_count and no other slot changes. The count rises by one. The superblock is persisted |
| `Volume.Volume.SearchInodeInfo` | assoofs.c:79-99 | The result is the first live slot whose record has the target's number, as FindSlot says |
| `Volume.Volume.SaveInodeInfo` | assoofs.c:101-117 | Exactly the found slot is overwritten with the record. When there is no match, NotFound and the store is unchanged |
| `Volume.Volume.GetInodeInfo` | assoofs.c:119-148 | The result is a copy of the first live record with the number, or None exactly when no live record has it |
| `Volume.Volume.Lookup` | assoofs.c:250-261 | The result is the inode number of the first of the parent's children with the name, or None |
| `Volume.Volume.Create` | assoofs.c:268-336 | The new state and the result are those of CreateSpec for a regular file |
| `Volume.Volume.Mkdir` | assoofs.c:338-408 | The new state and the result are those of CreateSpec for a directory |
| `Volume.Volume.CreateObject` | assoofs.c:282-334 | The checks, allocation and writes shared by create and mkdir leave the volume exactly as CreateSpec says |
| `Volume.Volume.WriteDirEntry` | assoofs.c:318-328 | Only the parent's block changes: slot k gets the name and the inode number, as WriteEntry says, and the volume stays well formed |
| `Volume.Volume.FinishCreate` | assoofs.c:311-334 | Three writes: the record at slot inodes_count with the count increased, the entry at the child count of the parent's block, and the parent slot overwritten with one more child |

## Left out

- Module registration, mounting through `mount_bdev`, and the VFS inode and dentry wiring are not modelled. This covers `new_inode`, `i_op`/`i_fop`, `inode_init_owner`, `d_add`, `d_make_root`, timestamps and `assoofs_get_inode`. They build kernel objects and store no metadata.
- Buffer heads, `kmalloc`, `brelse` and the missing `brelse` are not modelled either. The device is modelled as decoded block contents. A write is an assignment to a block.
- `printk` logging is left out, as are the read, write and iterate stubs, which return 0 and do nothing.
- `kmalloc` leaves a new inode record's `state_flag` uninitialised. Its value is a parameter of create and mkdir.
- Bit-exact byte layout is not modelled. Records are datatypes, and their sizes enter only as the constants that give the slot counts: 102 inode records and 15 directory entries per block.
- Volume.Volume.Mount: models only a successful mount, which also presumes the image is well formed. The failing check is `Superblock.FillSuper`.
- Volume.Volume.SearchInodeInfo: stops at `inodes_count`, where the source also compares the dead slot after the live ones. The as-written search is `InodeStore.SearchAsWritten`.
- Volume.Volume.SaveInodeInfo: returns NotFound on a miss, where the source copies the record to a NULL pointer.
- Volume.Volume.GetAFreeBlock: returns NoSpace when no block in [2, 64) is free, and uses a 64-bit mask. The source hands out block 64, and shifts a 32-bit int.
- Volume.Volume.Lookup: requires the parent's child count to fit in one block, where the source would read past the buffer.
- Volume.Volume.AddInodeInfo: requires inodes_count below 102, the slots of block 1. The source has no bound and writes past the block after 102 records. Through create and mkdir the count stays at or below 64.
- Volume.Volume.CreateObject: checks the object limit, a full parent block, a name of 255 characters or more, a missing parent record and an empty bitmap up front, and writes nothing then. The source only logs the object limit and overruns in the other cases. Volume.Volume.Create and Volume.Volume.Mkdir return these same up-front errors, because CreateObject is all they do.
- Creation.CreateError: names are byte sequences without a NUL, as the kernel hands them over, so `strcmp` is sequence equality and the limit counts bytes. Names the kernel would not deliver, with an embedded NUL, are not modelled.
- Lookup does not construct the child's VFS inode: `Volume.Volume.Lookup` returns the inode number the entry names.

## Findings

| source | as written | input that shows it | evidently intended | confidence | as-written member | corrected member |
|---|---|---|---|---|---|---|
| assoofs.c:39 | `1 << i` is computed in a 32-bit int, so for i >= 31 the mask is sign-extended or wraps | `free_blocks` with only bit 40 set: the scan stops at 31 and hands out block 31, which is in use, and the clear `&= ~(1 << 31)` empties the bitmap, so block 40 is lost | bit i of the 64-bit bitmap | not executed | `Allocator.AsWrittenHandsOutUsedBlock` | `Allocator.FindFreeBlock` |
| assoofs.c:37-50 | when no bit is set the loop ends with i == 64, which is stored in `*block` and reported as success | `free_blocks == 0` | report that no block is free | not executed | `Allocator.AsWrittenOverrunsBitmap` | `Volume.Volume.GetAFreeBlock` |
| assoofs.c:85-91 | the loop stops at slot `inodes_count` and that slot, which is not live, is still compared | a volume numbered in creation order whose slot inodes_count is still zero-filled, searching for inode 0: the dead slot inodes_count is returned | search the live slots only | not executed | `Creation.DeadSlotFoundAsWritten` | `Volume.Volume.SearchInodeInfo` |
