# hellofs in Dafny

hellofs is a teaching file system for Linux: a kernel module (the driver) and a
user-space formatter, `mkfs-hellofs`. A hellofs volume is a block device laid out as

- block 0: the superblock record;
- block 1: the inode bitmap;
- block 2: the data-block bitmap;
- blocks 3 and on: the inode table, 32-byte records packed `blocksize / 32` to a block;
- the data region after the table: one block per file or directory.

A directory's block is an array of 264-byte records, each a 255-byte filename buffer
and a 64-bit inode number. A regular file's contents live in its one block. The
driver never frees anything.

This project models the block-level logic of both programs and proves what they
promise.

- **Bytes** holds the fixed-width integers of the on-disk structures. It defines
  little-endian encodings, C strings as `strcmp` and `strcpy` see them, and
  `memcpy` into a buffer.
- **HelloFs** (`hellofs.h`) holds the constants and the byte images of the three
  records (superblock 56 bytes, inode 32, directory record 264, as on an LP64
  build). It also holds the region arithmetic.
- **KHelloFs** (`khellofs.h`) holds the driver's locate arithmetic and the kernel
  objects.
  - A `struct super_block` is the class `SuperBlock`. It owns the device, modelled
    as a map from block number to that block's bytes, and the in-memory hellofs
    superblock (`s_fs_info`).
  - `hellofs_save_sb` is its method `SaveSb`.
  - The hellofs inode behind a VFS inode is a `CachedInode`.
- **Bitmap** is the first-fit scan shared by both allocators: bit `i` in byte
  `i / 8` under mask `1 << (i % 8)`.
- **DirBlock** holds the record slots of a directory block: the append of
  `add_dir_record`, lookup's first-match scan and readdir's listing.
- **Inodes** (`inode.c`) covers the inode table, the two allocators, directory
  appends, create/mkdir and lookup. Each operation is a method on the mounted
  `SuperBlock`. Its `ensures` ties the new state to a step function of the old
  state, and the lemmas prove what the step does.
- **File** (`file.c`) covers read and write within a file's one block.
- **Dir** (`dir.c`) covers readdir.
- **Super** (`super.c`) covers the mount-time check of block 0 and the
  installation of the superblock.
- **Mkfs** (`mkfs-hellofs.c`) covers the formatter: its buffers, and its ladder of
  ten writes and seeks on one file descriptor. The first failing step stops the
  ladder with its own code, from -1 to -10. Mkfs also proves what the ladder
  leaves on the device and what the driver then sees there:
  - the volume mounts;
  - inodes 0 and 1 are the root and the welcome file;
  - the root lists and looks up `wel_helo.txt`;
  - the file reads back the welcome text;
  - the first inode and the first data block the allocators hand out are the
    welcome file's own. This is the formatter's bitmap quirk: it marks bit 0 only
    while its counts say 2.

The driver's behaviour is kept as written.

- Nothing is rolled back when a later step of create fails.
- The new child's inode record is never written to the table; only the parent is
  saved.
- Allocation counters wrap at 2^64.
- `mkdir` ORs in `S_IFDIR`.
- readdir uses its position as a "done" flag.

## Model

| member | source | states |
|---|---|---|
| `Bytes.AddU64` | inode.c:62 | `count += 1` on a `uint64_t`: the true sum below 2^64, the sum minus 2^64 otherwise |
| `Bytes.LeValueOfBytes` | hellofs.h:37-47 | decoding the n little-endian bytes of x gives back x |
| `Bytes.LeBytesOfValue` | hellofs.h:37-47 | encoding the value of a byte string gives back the string |
| `Bytes.U64RoundTrip` | hellofs.h:17 | a `uint64_t` field reads back the value stored in it |
| `Bytes.U32RoundTrip` | hellofs.h:21 | the four-byte mode field reads back the value stored in it |
| `Bytes.U64BytesOfField` | hellofs.h:37-47 | re-encoding a field read from a buffer rewrites the same 8 bytes |
| `Bytes.ReadU64sOfU64s` | hellofs.h:37-47 | a struct of `uint64_t` members reads back member by member |
| `Bytes.U64sOfReadU64s` | hellofs.h:37-47 | any buffer of whole 8-byte fields is the image of the fields it reads as |
| `Bytes.LeValueInjective` | hellofs.h:37-47 | two equal-length byte strings with the same value are equal |
| `Bytes.Splice` | inode.c:105 | `memcpy` into a buffer: the length is kept and the target range holds the copied bytes |
| `Bytes.SpliceOutside` | inode.c:105 | `memcpy` changes no byte outside its target range |
| `Bytes.SpliceElsewhere` | inode.c:105 | a range disjoint from the target reads back unchanged |
| `Bytes.SpliceInside` | inode.c:105 | a range inside the target reads back the matching part of the copied bytes |
| `Bytes.CStr` | inode.c:280 | the string `strcmp` sees in a buffer: a NUL-free prefix, followed by a NUL when shorter than the buffer |
| `Bytes.CStrOfNoNul` | inode.c:280 | a buffer without a NUL is read whole |
| `Bytes.CStrOfTerminated` | inode.c:130 | what `strcpy` leaves (the name, a NUL, anything) reads back as the name |
| `HelloFs.EncodeSuperblock` | hellofs.h:37-47 | the superblock record is 56 bytes |
| `HelloFs.DecodeEncodeSuperblock` | hellofs.h:37-47 | decoding a written superblock gives back every field |
| `HelloFs.EncodeDecodeSuperblock` | hellofs.h:37-47 | every 56 bytes are the image of the superblock they decode to |
| `HelloFs.SuperblockMagicField` | hellofs.h:38-40 | magic is the field at bytes 8-15 and blocksize the field at bytes 16-23 |
| `HelloFs.EncodeInode` | hellofs.h:20-35 | the inode record is 32 bytes |
| `HelloFs.DecodeEncodeInode` | hellofs.h:20-35 | decoding a written inode gives back mode, number, data block and the size union |
| `HelloFs.EncodeDirRecord` | hellofs.h:15-18 | a directory record is 264 bytes: the 255-byte filename buffer, padding, the inode number |
| `HelloFs.InodesPerBlock` | hellofs.h:61-64 | the number of whole 32-byte inode records a block holds, at least one |
| `HelloFs.DataStart` | hellofs.h:66-71 | the data region starts after block 3 |
| `KHelloFs.InodeByteOffset` | khellofs.h:75-79 | an inode's byte offset is a multiple of the record size, and the record fits in its block |
| `KHelloFs.DirMaxRecord` | khellofs.h:81-85 | the number of whole directory records a block holds |
| `KHelloFs.InodeLocationInjective` | khellofs.h:70-79 | two inode numbers with the same table block and byte offset are equal |
| `KHelloFs.RegionsOrdered` | hellofs.h:49-71 | blocks 0 < 1 < 2 < 3, and every inode below the table size lies in a block from 3 up to the data start |
| `KHelloFs.GeometryAgrees` | khellofs.h:63-92 | superblocks with the same blocksize and table size locate every inode, the data region and the record capacity alike |
| `KHelloFs.RootInodeLocation` | hellofs.h:54-57 | the root (inode 0) is the first slot of block 3 |
| `KHelloFs.SaveSbImage` | super.c:78-88 | saving puts the in-memory record in the first 56 bytes of block 0; the rest of block 0 and every other block are kept |
| `KHelloFs.SaveSbSyncs` | super.c:78-88 | after a save, block 0 holds the in-memory superblock |
| `KHelloFs.SaveSbIdempotent` | super.c:78-88 | saving a superblock already on disk changes nothing, and a later decode of block 0 gives the saved superblock |
| `KHelloFs.SuperBlock.SaveSb` | super.c:78-88 | the method leaves the volume in the state `SaveSbImage` describes |
| `Bitmap.SetBit` | inode.c:61 | OR-ing the needle into its byte sets bit i, and every other bit keeps its value |
| `Bitmap.FirstFreeFrom` | inode.c:56-66 | the first clear bit from k on: it is clear and every bit before it is set; none means all are set |
| `Bitmap.FirstFree` | inode.c:56-66 | first fit over the first n bits: the lowest clear bit, or none when all n are set |
| `Bitmap.FirstFreeIs` | inode.c:56-66 | a clear bit with every lower bit set is the first-fit answer |
| `Bitmap.Scan` | inode.c:56-66 | the scan loop finds the first-fit bit and sets it alone, or leaves the bitmap as it was |
| `Bitmap.AllocationsAscend` | inode.c:56-66 | after a slot is handed out, the next first-fit answer is strictly larger |
| `Bitmap.PrefixAllocation` | inode.c:56-66 | from a bitmap whose first k bits are set, allocation hands out k and leaves k + 1 set |
| `DirBlock.RecordField` | dir.c:37 | the raw filename buffer of a slot is 255 bytes |
| `DirBlock.WriteRecord` | inode.c:127-130 | after the two stores, the slot's name reads back as the name and its inode number as the number |
| `DirBlock.WriteRecordOutside` | inode.c:127-130 | writing a slot changes no byte outside it |
| `DirBlock.SameSlot` | inode.c:127-130 | two blocks that agree on a slot's bytes hold the same name, buffer and inode number there |
| `DirBlock.WriteRecordOthers` | inode.c:127-130 | writing a slot leaves every other slot's name, buffer and inode number |
| `DirBlock.FindFrom` | inode.c:278-293 | the first slot from k on whose name matches; none when no slot matches |
| `DirBlock.FindRecord` | inode.c:278-293 | lookup's scan: the first of the directory's slots holding the name, or none |
| `DirBlock.FindRecordIs` | inode.c:278-293 | a matching slot with no match before it is the scan's answer |
| `DirBlock.FindRecordNone` | inode.c:278-298 | a name no slot holds is not found |
| `DirBlock.Listing` | dir.c:35-42 | readdir's entries, one per slot in slot order: the name buffer, the byte position and the inode number |
| `DirBlock.NamesBelowKept` | inode.c:127-130 | appending at slot `count` keeps the names of slots below it |
| `DirBlock.FindAfterExtend` | inode.c:278-293 | on a block that keeps the first names and holds a new name next, lookup keeps earlier matches and finds only the new name at the new slot |
| `DirBlock.AppendThenFind` | inode.c:127-136 | after an append, a name already present resolves to its old slot, a new name to the new slot, any other name to nothing |
| `DirBlock.ListingExtends` | dir.c:35-42 | a block that keeps the first entries lists them, then its next slot |
| `DirBlock.FieldHoldsName` | dir.c:36-38 | the name buffer readdir hands out reads, up to its NUL, as the name lookup compares, whenever that name fits the buffer |
| `DirBlock.ListingAfterAppend` | inode.c:127-136 | an append extends the listing by exactly one entry, whose name reads back as the stored name |
| `DirBlock.ListingAgreesWithFind` | dir.c:36-38 | the entry readdir lists at lookup's slot carries the looked-up name and the inode lookup follows |
| `Inodes.InodeSlot` | inode.c:83-86 | inode n's table slot is 32 bytes |
| `Inodes.StoreInode` | inode.c:94-110 | saving puts the record's image in the slot of its own inode number and changes no other block |
| `Inodes.StoreInodeOnlySlot` | inode.c:101-105 | saving changes no byte of the block outside the record's slot |
| `Inodes.LoadAfterStore` | inode.c:77-110 | loading an inode just saved gives back the saved record |
| `Inodes.LoadAfterStoreOther` | inode.c:77-110 | saving one inode does not change what any other inode number loads |
| `Inodes.StoreKeepsFixedBlocks` | inode.c:94-110 | saving an inode leaves the superblock and both bitmaps |
| `Inodes.GetInode` | inode.c:77-92 | a fresh cached copy of what the table holds for inode n |
| `Inodes.SaveInode` | inode.c:94-110 | the method leaves the volume as `StoreInode` describes |
| `Inodes.AllocInodeStep` | inode.c:38-75 | inode allocation touches only the superblock and the inode bitmap, changes no superblock field but the count, and answers below the table size; block 0 then holds the updated superblock |
| `Inodes.AllocInodeFirstFit` | inode.c:55-66 | success hands out the lowest clear bit, sets it alone and adds 1 (mod 2^64) to `inode_count`; failure means every bit is set and changes neither bitmap nor superblock |
| `Inodes.AllocDataStep` | inode.c:142-180 | data allocation touches only the superblock and the data bitmap, and answers an absolute block number inside the data region; block 0 then holds the updated superblock |
| `Inodes.AllocDataFirstFit` | inode.c:159-171 | success hands out data start + the lowest clear bit, sets it alone and adds 1 to `data_block_count`; failure means every bit is set and changes nothing |
| `Inodes.FullAllocatorIsNoop` | inode.c:55-71 | on a synced volume a failed allocation leaves the whole volume as it was |
| `Inodes.AllocInode` | inode.c:38-75 | the method returns 0 and the number, or -ENOSPC, and leaves the volume as `AllocInodeStep` describes |
| `Inodes.AllocDataBlock` | inode.c:142-180 | the method returns 0 and the block number, or -ENOSPC, and leaves the volume as `AllocDataStep` describes |
| `Inodes.AddRecordStep` | inode.c:112-140 | -ENOSPC exactly when the directory is full, and then nothing changes; on success the children count grows by 1 |
| `Inodes.AddRecordFrame` | inode.c:124-137 | an append changes only the directory's block and the block holding its inode |
| `Inodes.AddRecordBlock` | inode.c:127-130 | the directory block afterwards is the old one with the record written at slot `dir_children_count` |
| `Inodes.AddRecordAppends` | inode.c:127-136 | the listing grows by exactly the new entry, whose slot holds the added name and number |
| `Inodes.AddRecordFinds` | inode.c:127-136 | lookup in the grown directory agrees with lookup before, the new name resolving to the new slot |
| `Inodes.AddRecordSavesParent` | inode.c:136-137 | the parent's updated record is what the table holds afterwards |
| `Inodes.AddRecordKeepsOtherInodes` | inode.c:136-137 | an append does not change what any other inode number loads |
| `Inodes.AddDirRecord` | inode.c:112-140 | the method returns, updates the cached parent and leaves the volume as `AddRecordStep` describes |
| `Inodes.InitialSize` | inode.c:206-214 | a new directory or regular file starts with size 0 |
| `Inodes.CreateStep` | inode.c:182-247 | create returns 0, -ENOSPC or -ENOMEM, yields a child exactly on 0, and changes no superblock field but the two counts |
| `Inodes.CreateNoInode` | inode.c:195-202 | with the inode table full, create returns -ENOSPC before the data bitmap or any directory is touched |
| `Inodes.AllocationsKeep` | inode.c:195-224 | the two allocations leave every block after the bitmaps, including the parent's, unchanged |
| `Inodes.AllocationsKeepInode` | inode.c:195-224 | the two allocations do not change what any inode number loads |
| `Inodes.CreateSuccessSteps` | inode.c:195-246 | a successful create is inode allocation, then data allocation, then the append, and its child is the record built from their answers |
| `Inodes.CreateAfterAllocations` | inode.c:217-239 | once an inode is allocated, whatever fails later, the bitmaps and the superblock stay as the allocations left them |
| `Inodes.CreateKeepsInode` | inode.c:195-244 | once the inode bit is taken it stays taken and the count stays raised, whatever fails later |
| `Inodes.CreateKeepsDataBlock` | inode.c:217-244 | once the data bit is taken it stays taken and the count stays raised, whatever fails later |
| `Inodes.CreateDirFullLeaks` | inode.c:234-239 | in a full directory create returns -ENOSPC and leaves both allocations in place |
| `Inodes.CreateChild` | inode.c:203-217 | the child has the given mode, the first free inode number, a block in the data region, size 0 for directories and files; the parent's count grows by 1 |
| `Inodes.CreateListsChild` | inode.c:234-242 | after a create of a new name, lookup in the parent finds the name at the appended slot with the child's number |
| `Inodes.CreateNeverSavesChild` | inode.c:203-246 | the child's table slot holds what it held before: its record is never written |
| `Inodes.CreateInode` | inode.c:182-247 | the method returns, updates the parent and leaves the volume as `CreateStep` describes; a child object exists exactly on success |
| `Inodes.Create` | inode.c:249-252 | create is `CreateInode` with the given mode, ignoring `excl` |
| `Inodes.MkdirMode` | inode.c:258 | OR-ing in S_IFDIR: bit 14 of the result is set and every bit below and above it is the given mode's |
| `Inodes.MkdirModeIsDir` | inode.c:256-258 | the forced mode is a directory exactly when the given type was empty or a directory, and the permission bits are kept |
| `Inodes.Mkdir` | inode.c:254-260 | mkdir is `CreateInode` with the forced mode |
| `Inodes.LookupResult` | inode.c:262-299 | lookup binds a record exactly when some slot holds the name and the VFS inode can be allocated |
| `Inodes.Lookup` | inode.c:273-298 | the scan loop binds the record of the first matching slot, and nothing on a miss |
| `Inodes.LookupAfterAdd` | inode.c:278-290 | a name just appended is found at the new slot and binds what the table holds for its number |
| `File.ReadStep` | file.c:3-40 | a read returns at most `len` bytes, all within `file_size`, copied from the block at `pos`, and advances `pos` by the count; a fault is -EFAULT and moves nothing; a block that cannot be read gives 0 and moves nothing |
| `File.ReadAtEnd` | file.c:16-18 | a read at or past `file_size` returns 0 and leaves `pos` |
| `File.ReadInside` | file.c:27-39 | a read inside the file returns `min(file_size - pos, len)` bytes of the block from `pos` |
| `File.ReadStaysInFile` | file.c:28-38 | a read never moves `pos` past `file_size` |
| `File.Read` | file.c:3-40 | the method returns and moves the position as `ReadStep` describes |
| `File.WriteStep` | file.c:46-94 | a write returns 0, `len` or -EFAULT, changes nothing unless it returns `len`, and `file_size` never decreases nor exceeds the block |
| `File.WriteFailsCleanly` | file.c:66-80 | an unreadable block returns 0 and a fault returns -EFAULT, both changing nothing |
| `File.WriteSucceeds` | file.c:73-93 | a write returns `len`, advances `pos` by it, sets `file_size` to the larger of itself and the new position, and saves the record |
| `File.WriteBlock` | file.c:73-80 | the file's block afterwards is the old one with the data copied in at `pos` |
| `File.WriteKeepsOtherBytes` | file.c:73-80 | a write changes no byte of the block outside `[pos, pos + len)` |
| `File.WriteKeepsOthers` | file.c:83-89 | a write changes only the file's block and its inode's table block, and no other inode |
| `File.ReadAfterWrite` | file.c:73-89 | reading back what was just written at `pos` returns the written bytes |
| `File.Write` | file.c:46-94 | the method returns, updates the cached record and the position, and leaves the volume as `WriteStep` describes |
| `Dir.ReaddirStep` | dir.c:3-46 | a later call emits nothing; a non-directory at position 0 is -ENOTDIR; otherwise one entry per child, each its slot's entry, and the position moves past them |
| `Dir.ReaddirOnlyOnce` | dir.c:17-20 | listing again from the position the first listing left emits nothing |
| `Dir.ReaddirEntries` | dir.c:35-42 | entry k carries slot k's name buffer, byte position k * 264 and inode number |
| `Dir.ReaddirAfterAdd` | dir.c:35-42 | after an append, the listing is the old listing followed by the new entry, whose name reads back as the added name |
| `Dir.ReaddirListsLookup` | dir.c:36-38 | the entry at lookup's slot carries the looked-up name and the inode number lookup follows |
| `Dir.Readdir` | dir.c:3-46 | the loop emits and advances the position as `ReaddirStep` describes |
| `Super.CheckSuperblock` | super.c:10-25 | block 0 is accepted exactly when its magic is HELLOFS_MAGIC and its blocksize the device's, and then the superblock is the one those bytes encode |
| `Super.WrongMagicRejected` | super.c:13-19 | a wrong magic is refused whatever else the block holds, and the verdict depends only on the magic and blocksize fields |
| `Super.CheckAcceptsOwnImage` | super.c:13-29 | a written superblock with the right magic and blocksize is accepted and read back unchanged |
| `Super.FillSuper` | super.c:3-50 | a refused device returns 0 and changes nothing; an accepted one sets `s_fs_info`, `s_magic` and `s_maxbytes`, and installs the table's inode 0 as root; -ENOMEM when new_inode fails (root untouched) or d_make_root fails (root set to NULL) |
| `Super.AcceptedIsMounted` | super.c:27-29 | an accepted device whose geometry the driver can work with is a mounted volume in sync with block 0 |
| `Mkfs.MkfsBitmap` | mkfs-hellofs.c:35-43 | each bitmap is one 4096-byte block |
| `Mkfs.RootRecords` | mkfs-hellofs.c:68-74 | the root's records are one 264-byte record |
| `Mkfs.Overwrite` | mkfs-hellofs.c:79-80 | a write at the file offset puts the data there and extends the file when it runs past the end |
| `Mkfs.OverwriteKeeps` | mkfs-hellofs.c:79-80 | a write keeps every range of the file it does not cover |
| `Mkfs.Apply` | mkfs-hellofs.c:79-88 | a step never shrinks the device, and moves the offset past a write or to a seek's target |
| `Mkfs.Offsets` | mkfs-hellofs.c:76-153 | one offset before each step and one after the last, starting at the first |
| `Mkfs.Trace` | mkfs-hellofs.c:76-153 | one device image before each step and one after the last, starting with the first |
| `Mkfs.TraceStep` | mkfs-hellofs.c:76-153 | consecutive images of the trace are one step apart |
| `Mkfs.ImageFile.Write` | mkfs-hellofs.c:79-83 | a write that succeeds returns its size and performs the step; one that fails returns -1 and changes nothing |
| `Mkfs.ImageFile.Seek` | mkfs-hellofs.c:84-88 | a seek that succeeds returns the offset and moves there; one that fails returns -1 and changes nothing |
| `Mkfs.FormatOps` | mkfs-hellofs.c:76-153 | the ladder has ten steps |
| `Mkfs.FirstFailure` | mkfs-hellofs.c:76-153 | the first step that fails: every earlier step succeeds and it does not; the step count when none fails |
| `Mkfs.FirstFailureAt` | mkfs-hellofs.c:76-153 | walking the ladder: a step reached either succeeds or is the first failure |
| `Mkfs.Ladder` | mkfs-hellofs.c:76-156 | the outcome is 0 exactly when every step succeeds, and otherwise between -10 and -1 |
| `Mkfs.LadderWrite` | mkfs-hellofs.c:79-83 | a write at step k returns its size exactly when it succeeds, moving the device to image k + 1, or leaves image k |
| `Mkfs.LadderSeek` | mkfs-hellofs.c:84-88 | a seek at step k returns -1 exactly when it fails, moving the device to image k + 1 otherwise |
| `Mkfs.WriteLadder` | mkfs-hellofs.c:76-153 | the ladder returns the first failing step's code, or 0, and leaves the device after exactly the steps before it |
| `Mkfs.Mkfs` | mkfs-hellofs.c:12-157 | a failed open returns -1 and writes nothing; otherwise the ladder runs from offset 0 on main's buffers |
| `Mkfs.OffsetsStep` | mkfs-hellofs.c:76-153 | consecutive offsets are one step apart |
| `Mkfs.TraceOffsets` | mkfs-hellofs.c:76-153 | the device's offset before each step is the one the steps compute |
| `Mkfs.TraceKeepsByte` | mkfs-hellofs.c:76-153 | a byte no intervening write covers keeps its value |
| `Mkfs.FormatOffsets` | mkfs-hellofs.c:79-152 | the offset before each step: 0, after the superblock, blocksize, after each bitmap and inode, data start times blocksize, after the records, the next block |
| `Mkfs.WriteLands` | mkfs-hellofs.c:76-153 | in a ladder that only moves forward, each byte a write puts down is on the device at the end |
| `Mkfs.TraceGrows` | mkfs-hellofs.c:76-153 | steps never shrink the device |
| `Mkfs.RegionLands` | mkfs-hellofs.c:76-153 | a forward-only ladder leaves each write's whole buffer at the offset it was written at |
| `Mkfs.FormatForward` | mkfs-hellofs.c:76-153 | with buffers that fit their regions the ladder never seeks backwards |
| `Mkfs.FormatLength` | mkfs-hellofs.c:139-152 | the formatted device never shrinks and ends after the welcome text |
| `Mkfs.FormatLayoutHeader` | mkfs-hellofs.c:79-103 | the superblock is at byte 0 and the two bitmaps fill blocks 1 and 2 |
| `Mkfs.FormatLayoutInodes` | mkfs-hellofs.c:105-119 | the root inode is at byte 3 * blocksize and the welcome inode right after it |
| `Mkfs.FormatLayoutData` | mkfs-hellofs.c:121-152 | the records are at the first data block and the welcome text at the next one |
| `Mkfs.FormatKeepsGaps` | mkfs-hellofs.c:76-153 | bytes between the written regions keep whatever the device held |
| `Mkfs.LadderSucceeds` | mkfs-hellofs.c:76-156 | a ladder whose steps all succeed returns 0 and leaves the formatted device |
| `Mkfs.LadderStopsAt` | mkfs-hellofs.c:76-156 | a first failure at step k returns -(k + 1) with the device after k steps; at step 0 it returns -1 and the device is untouched |
| `Mkfs.MkfsBuffersFit` | mkfs-hellofs.c:25-74 | main's buffers have the record sizes, fit their regions, and the data region starts at block 12 |
| `Mkfs.BlockBound` | mkfs-hellofs.c:76-153 | a whole block below the device size ends inside it |
| `Mkfs.BlockAt` | mkfs-hellofs.c:76-153 | a device block is blocksize bytes |
| `Mkfs.DeviceBlocks` | mkfs-hellofs.c:76-153 | the driver's view of the device: its whole blocks, all of blocksize bytes |
| `Mkfs.DeviceBlockIs` | mkfs-hellofs.c:76-153 | a whole block of the device is readable and holds the device's bytes at its offset |
| `Mkfs.LaidOutBlocks` | mkfs-hellofs.c:76-153 | the formatted device's blocks up to the first data block are readable and hold what the ladder wrote |
| `Mkfs.LaidOutBytes` | mkfs-hellofs.c:76-153 | a range inside one of those blocks is the same range of the device |
| `Mkfs.LaidOutMounts` | mkfs-hellofs.c:79-88 | the formatted device passes the mount check, reads back the written superblock and is a mounted volume |
| `Mkfs.LaidOutInodes` | mkfs-hellofs.c:105-119 | the driver loads the root as inode 0 and the welcome file as inode 1 |
| `Mkfs.CStrOfNulEnded` | mkfs-hellofs.c:69-74 | a NUL after a buffer does not change the string it holds |
| `Mkfs.LaidOutRecord` | mkfs-hellofs.c:131-136 | the first data block starts with the written record's filename buffer and inode number |
| `Mkfs.LaidOutRootDir` | mkfs-hellofs.c:131-136 | readdir of the root lists the one record, and lookup of its name binds the inode it names |
| `Mkfs.LaidOutWelcomeFile` | mkfs-hellofs.c:139-152 | reading the welcome file from the start returns the welcome text, up to the length asked for |
| `Mkfs.LaidOutAllocatesWelcome` | mkfs-hellofs.c:35-43 | the first inode and data block the driver allocates are inode 1 and data start + 1, the welcome file's own |
| `Mkfs.MkfsLaysOut` | mkfs-hellofs.c:25-33 | main's buffers are laid out for its superblock: right magic, 4096-byte blocks, a usable geometry |
| `Mkfs.MkfsInodes` | mkfs-hellofs.c:45-66 | the root is a directory with one child in the first data block; the welcome file is a regular file of 19 bytes in the next |
| `Mkfs.MkfsRecordName` | mkfs-hellofs.c:69-74 | the root's record reads back as `wel_helo.txt` |

## Left out

- Locking: the `hellofs_sb_lock` mutex around each allocator. Each call is one
  sequential step.
- VFS plumbing: `hellofs_fill_inode`, `new_inode`, `d_add`, `d_make_root`,
  `inode_init_owner`, `mount_bdev`, `kill_block_super`, timestamps, and the
  registration glue of `khellofs.c`. A failure of `new_inode` or `d_make_root` is a
  boolean parameter (`vfsInodeOk` in create and lookup; `newInodeOk` and
  `makeRootOk` in `FillSuper`).
- Superblock geometry: every operation on a mounted volume assumes `GeometryOk`
  (`blocksize >= 56`, each table size at most `8 * blocksize` bits, and the data
  region ending below 2^64). `hellofs_fill_super` checks only the magic and the
  block size, so the driver also mounts superblocks outside these bounds. There the
  C reads past the bitmap block in the allocators' scan (an `inode_table_size`
  above 32768 with 4096-byte blocks) or wraps the data-start arithmetic; those
  out-of-bounds reads and wrap-arounds are not modelled.
- Logging: every `printk` is dropped.
- The buffer cache: `sb_bread`, `mark_buffer_dirty`, `sync_dirty_buffer` and
  `brelse` are reads and writes of the block map. A block sb_bread cannot read is
  a key missing from the map. Where the driver `BUG_ON`s a failed read, the block
  is required to be present.
- Saving the superblock: the `b_data` pointer swap in `hellofs_save_sb` is "the
  first 56 bytes of block 0 := the in-memory record".
- User copies: `copy_to_user` and `copy_from_user` faults are a boolean parameter
  whose failure is -EFAULT.
- Write checks: `generic_write_checks` is the precondition `pos + len <=
  blocksize`.
- Read size: reads require `file_size <= blocksize`. The driver relies on this,
  since a read past the block would run off the buffer.
- Integer width: `nbytes` in `hellofs_read` is an `int`. The count is at most one
  block, so no truncation is modelled.
- Names: `strcpy` of the dentry name is the precondition that the name is at most
  255 bytes and NUL-free. A 255-byte name gets its terminator in the padding byte,
  as in C.
- Struct padding: the layout is the LP64 one (mode, four bytes of padding, three
  64-bit fields; the filename, one byte of padding, the inode number). Padding is
  written as zeros.
- Modes: `mode` is carried verbatim; only the directory and regular-file tests on
  its type bits are modelled.
- The two data-start helpers: `HELLOFS_DATA_BLOCK_TABLE_START_BLOCK_NO` only reads
  `s_fs_info` and calls `HELLOFS_DATA_BLOCK_TABLE_START_BLOCK_NO_HSB`, so both are
  the one function `DataStart`.
- mkfs process handling: `argv`, the real file descriptor and `close` are out.
  The device is a byte sequence with a file offset, and writes past its end extend
  it.
- Short writes: a write that takes fewer bytes than asked is a failed step. Its
  partial bytes are not modelled, since the ladder stops there either way.
- Mkfs.Mkfs: its `ensures` states the ladder's result and the device content
  after it, not the file offset after `close`.
- The -1 collision: a failed `open` and a failed superblock write both return -1.
  `Mkfs.Mkfs` and `Mkfs.LadderStopsAt` state both cases, but no single code tells
  them apart.
- The concrete format: the lemmas about the formatted device are stated for any
  buffers laid out for a superblock (`LaysOut`). `MkfsLaysOut`, `MkfsInodes` and
  `MkfsRecordName` show that main's own buffers meet their preconditions. No single
  lemma restates the combined result for main's literal buffers, because unfolding
  those literal buffers is too costly for the solver.
