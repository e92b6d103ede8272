// inode.c: the inode table, the two bitmap allocators, directory appends, object
// creation (create and mkdir) and lookup. Each operation is a method on the mounted
// SuperBlock, specified by a function of the state it starts from.

module Inodes {
  import opened Wrappers
  import opened Bytes
  import opened HelloFs
  import opened KHelloFs
  import opened Bitmap
  import opened DirBlock

  // ---------------------------------------------------------------- inode table

  /** The 32 bytes of inode n's table slot. */
  function InodeSlot(fs: Fs, n: nat): (b: seq<byte>)
    requires WellFormed(fs) && InodeBlockNo(fs.hsb, n) in fs.disk
    ensures |b| == INODE_SIZE
  {
    var off := InodeByteOffset(fs.hsb, n);
    fs.disk[InodeBlockNo(fs.hsb, n)][off..off + INODE_SIZE]
  }

  /** What hellofs_get_hellofs_inode copies out of the table for inode n. */
  function LoadInode(fs: Fs, n: nat): Inode
    requires WellFormed(fs) && InodeBlockNo(fs.hsb, n) in fs.disk
  {
    DecodeInode(InodeSlot(fs, n))
  }

  /** hellofs_save_hellofs_inode: the record is copied into the slot of its own
      inode_no; no other byte of the device changes. */
  function StoreInode(fs: Fs, rec: Inode): (r: Fs)
    requires WellFormed(fs) && InodeBlockNo(fs.hsb, rec.inodeNo) in fs.disk
    ensures WellFormed(r) && r.hsb == fs.hsb && r.disk.Keys == fs.disk.Keys
    ensures InodeSlot(r, rec.inodeNo) == EncodeInode(rec)
    ensures forall b :: b in fs.disk && b != InodeBlockNo(fs.hsb, rec.inodeNo) ==> r.disk[b] == fs.disk[b]
  {
    var bn, off := InodeBlockNo(fs.hsb, rec.inodeNo), InodeByteOffset(fs.hsb, rec.inodeNo);
    Fs(fs.disk[bn := Splice(fs.disk[bn], off, EncodeInode(rec))], fs.hsb)
  }

  /** Saving a record changes no byte of its block outside the record's slot. */
  lemma StoreInodeOnlySlot(fs: Fs, rec: Inode)
    requires WellFormed(fs) && InodeBlockNo(fs.hsb, rec.inodeNo) in fs.disk
    ensures var bn, off := InodeBlockNo(fs.hsb, rec.inodeNo), InodeByteOffset(fs.hsb, rec.inodeNo);
            forall i :: 0 <= i < |fs.disk[bn]| && !(off <= i < off + INODE_SIZE) ==>
              StoreInode(fs, rec).disk[bn][i] == fs.disk[bn][i]
  {
    var bn, off := InodeBlockNo(fs.hsb, rec.inodeNo), InodeByteOffset(fs.hsb, rec.inodeNo);
    SpliceOutside(fs.disk[bn], off, EncodeInode(rec));
  }

  /** Saving a record and loading its number gives the record back. */
  lemma LoadAfterStore(fs: Fs, rec: Inode)
    requires WellFormed(fs) && InodeBlockNo(fs.hsb, rec.inodeNo) in fs.disk
    ensures LoadInode(StoreInode(fs, rec), rec.inodeNo) == rec
  {
    DecodeEncodeInode(rec);
  }

  /** Saving a record leaves every other inode as it was. */
  lemma LoadAfterStoreOther(fs: Fs, rec: Inode, m: nat)
    requires WellFormed(fs) && InodeBlockNo(fs.hsb, rec.inodeNo) in fs.disk
    requires InodeBlockNo(fs.hsb, m) in fs.disk && m != rec.inodeNo
    ensures LoadInode(StoreInode(fs, rec), m) == LoadInode(fs, m)
  {
    var r := StoreInode(fs, rec);
    var bn := InodeBlockNo(fs.hsb, rec.inodeNo);
    if InodeBlockNo(fs.hsb, m) == bn {
      var ipb := InodesPerBlock(fs.hsb);
      var a, c := rec.inodeNo % ipb, m % ipb;
      if a == c {
        InodeLocationInjective(fs.hsb, rec.inodeNo, m);
      }
      var off, offm := a * INODE_SIZE, c * INODE_SIZE;
      assert off + INODE_SIZE <= offm || offm + INODE_SIZE <= off;
      SpliceElsewhere(fs.disk[bn], off, EncodeInode(rec), offm, INODE_SIZE);
    }
  }

  /** The table region never holds blocks 0 to 2: saving an inode keeps the
      superblock and both bitmaps. */
  lemma StoreKeepsFixedBlocks(fs: Fs, rec: Inode)
    requires WellFormed(fs) && InodeBlockNo(fs.hsb, rec.inodeNo) in fs.disk
    ensures var r := StoreInode(fs, rec);
            r.disk[SUPERBLOCK_BLOCK_NO] == fs.disk[SUPERBLOCK_BLOCK_NO]
            && r.disk[INODE_BITMAP_BLOCK_NO] == fs.disk[INODE_BITMAP_BLOCK_NO]
            && r.disk[DATA_BLOCK_BITMAP_BLOCK_NO] == fs.disk[DATA_BLOCK_BITMAP_BLOCK_NO]
  {
  }

  /** hellofs_get_hellofs_inode: a fresh in-memory copy of inode n's record. */
  method GetInode(sb: SuperBlock, n: u64) returns (c: CachedInode)
    requires sb.Mounted() && InodeBlockNo(sb.fsInfo.value, n) in sb.disk
    ensures fresh(c) && c.rec == LoadInode(sb.State(), n)
  {
    var bh := sb.disk[InodeBlockNo(sb.fsInfo.value, n)];
    var off := InodeByteOffset(sb.fsInfo.value, n);
    c := new CachedInode(DecodeInode(bh[off..off + INODE_SIZE]));
  }

  /** hellofs_save_hellofs_inode on the mounted volume. */
  method SaveInode(sb: SuperBlock, c: CachedInode)
    requires sb.Mounted() && InodeBlockNo(sb.fsInfo.value, c.rec.inodeNo) in sb.disk
    modifies sb`disk
    ensures sb.Mounted()
    ensures sb.State() == StoreInode(old(sb.State()), c.rec)
  {
    var bn := InodeBlockNo(sb.fsInfo.value, c.rec.inodeNo);
    var off := InodeByteOffset(sb.fsInfo.value, c.rec.inodeNo);
    var bh := sb.disk[bn];
    bh := Splice(bh, off, EncodeInode(c.rec));
    sb.disk := sb.disk[bn := bh];
  }

  // ---------------------------------------------------------------- allocators

  /** An allocator's answer (the number handed out, if any) and the state after it. */
  datatype Alloc = Alloc(no: Option<nat>, fs: Fs)

  /** hellofs_alloc_hellofs_inode: first fit over the inode bitmap; on success the bit
      is set and inode_count goes up by one (as a uint64_t). The bitmap block is
      written back and the superblock saved whether or not a slot was found. */
  function AllocInodeStep(fs: Fs): (a: Alloc)
    requires WellFormed(fs)
    ensures WellFormed(a.fs) && a.fs.disk.Keys == fs.disk.Keys
    ensures a.fs.hsb == fs.hsb.(inodeCount := a.fs.hsb.inodeCount)
    ensures forall b :: b in fs.disk && b != SUPERBLOCK_BLOCK_NO && b != INODE_BITMAP_BLOCK_NO ==>
              a.fs.disk[b] == fs.disk[b]
    ensures a.no.Some? ==> a.no.value < fs.hsb.inodeTableSize
    ensures Synced(a.fs)
  {
    var bm := fs.disk[INODE_BITMAP_BLOCK_NO];
    match FirstFree(bm, fs.hsb.inodeTableSize)
    case None => Alloc(None, SaveSbImage(fs))
    case Some(i) =>
      var hsb := fs.hsb.(inodeCount := AddU64(fs.hsb.inodeCount, 1));
      Alloc(Some(i), SaveSbImage(Fs(fs.disk[INODE_BITMAP_BLOCK_NO := SetBit(bm, i)], hsb)))
  }

  /** The inode allocator hands out the lowest free number, marks exactly that bit
      and counts it; when every bit is taken it fails, the bitmap and the counters
      unchanged. */
  lemma AllocInodeFirstFit(fs: Fs)
    requires WellFormed(fs)
    ensures var a, bm := AllocInodeStep(fs), fs.disk[INODE_BITMAP_BLOCK_NO];
            var bm' := a.fs.disk[INODE_BITMAP_BLOCK_NO];
            a.no.Some? ==>
              && !BitSet(bm, a.no.value) && BitSet(bm', a.no.value)
              && (forall j :: 0 <= j < a.no.value ==> BitSet(bm, j))
              && (forall j: nat :: j / BITS_IN_BYTE < |bm| && j != a.no.value ==> BitSet(bm', j) == BitSet(bm, j))
              && a.fs.hsb.inodeCount == (fs.hsb.inodeCount + 1) % U64_MOD
    ensures var a, bm := AllocInodeStep(fs), fs.disk[INODE_BITMAP_BLOCK_NO];
            a.no.None? ==>
              && (forall j :: 0 <= j < fs.hsb.inodeTableSize ==> BitSet(bm, j))
              && a.fs.disk[INODE_BITMAP_BLOCK_NO] == bm && a.fs.hsb == fs.hsb
  {
  }

  /** hellofs_alloc_data_block: the same scan over the data bitmap; the answer is an
      absolute block number in the data region and data_block_count goes up by one. */
  function AllocDataStep(fs: Fs): (a: Alloc)
    requires WellFormed(fs)
    ensures WellFormed(a.fs) && a.fs.disk.Keys == fs.disk.Keys
    ensures a.fs.hsb == fs.hsb.(dataBlockCount := a.fs.hsb.dataBlockCount)
    ensures forall b :: b in fs.disk && b != SUPERBLOCK_BLOCK_NO && b != DATA_BLOCK_BITMAP_BLOCK_NO ==>
              a.fs.disk[b] == fs.disk[b]
    ensures a.no.Some? ==> DataStart(fs.hsb) <= a.no.value < DataStart(fs.hsb) + fs.hsb.dataBlockTableSize
    ensures Synced(a.fs)
  {
    var bm := fs.disk[DATA_BLOCK_BITMAP_BLOCK_NO];
    match FirstFree(bm, fs.hsb.dataBlockTableSize)
    case None => Alloc(None, SaveSbImage(fs))
    case Some(i) =>
      var hsb := fs.hsb.(dataBlockCount := AddU64(fs.hsb.dataBlockCount, 1));
      Alloc(Some(DataStart(fs.hsb) + i),
            SaveSbImage(Fs(fs.disk[DATA_BLOCK_BITMAP_BLOCK_NO := SetBit(bm, i)], hsb)))
  }

  /** The data allocator answers data start plus the lowest free bit, marks exactly
      that bit and counts it; when every bit is taken it fails, nothing counted. */
  lemma AllocDataFirstFit(fs: Fs)
    requires WellFormed(fs)
    ensures var a, bm := AllocDataStep(fs), fs.disk[DATA_BLOCK_BITMAP_BLOCK_NO];
            var bm' := a.fs.disk[DATA_BLOCK_BITMAP_BLOCK_NO];
            a.no.Some? ==>
              var i := a.no.value - DataStart(fs.hsb);
              && !BitSet(bm, i) && BitSet(bm', i)
              && (forall j :: 0 <= j < i ==> BitSet(bm, j))
              && (forall j: nat :: j / BITS_IN_BYTE < |bm| && j != i ==> BitSet(bm', j) == BitSet(bm, j))
              && a.fs.hsb.dataBlockCount == (fs.hsb.dataBlockCount + 1) % U64_MOD
    ensures var a, bm := AllocDataStep(fs), fs.disk[DATA_BLOCK_BITMAP_BLOCK_NO];
            a.no.None? ==>
              && (forall j :: 0 <= j < fs.hsb.dataBlockTableSize ==> BitSet(bm, j))
              && a.fs.disk[DATA_BLOCK_BITMAP_BLOCK_NO] == bm && a.fs.hsb == fs.hsb
  {
  }

  /** A failed allocation on a volume whose block 0 already holds the superblock
      leaves the device exactly as it was. */
  lemma FullAllocatorIsNoop(fs: Fs)
    requires WellFormed(fs) && Synced(fs)
    ensures AllocInodeStep(fs).no.None? ==> AllocInodeStep(fs).fs == fs
    ensures AllocDataStep(fs).no.None? ==> AllocDataStep(fs).fs == fs
  {
    SaveSbIdempotent(fs);
  }

  method AllocInode(sb: SuperBlock) returns (ret: int, no: u64)
    requires sb.Mounted()
    modifies sb`disk, sb`fsInfo
    ensures sb.Mounted()
    ensures var a := AllocInodeStep(old(sb.State()));
            (ret == 0 <==> a.no.Some?) && (ret != 0 ==> ret == -ENOSPC)
            && (a.no.Some? ==> no == a.no.value) && sb.State() == a.fs
  {
    var hsb := sb.fsInfo.value;
    var bitmap := sb.disk[INODE_BITMAP_BLOCK_NO];
    var found, bitmap' := Scan(bitmap, hsb.inodeTableSize);
    ret, no := -ENOSPC, 0;
    if found.Some? {
      no := found.value;
      sb.fsInfo := Some(hsb.(inodeCount := AddU64(hsb.inodeCount, 1)));
      ret := 0;
    }
    sb.disk := sb.disk[INODE_BITMAP_BLOCK_NO := bitmap'];
    sb.SaveSb();
  }

  method AllocDataBlock(sb: SuperBlock) returns (ret: int, no: u64)
    requires sb.Mounted()
    modifies sb`disk, sb`fsInfo
    ensures sb.Mounted()
    ensures var a := AllocDataStep(old(sb.State()));
            (ret == 0 <==> a.no.Some?) && (ret != 0 ==> ret == -ENOSPC)
            && (a.no.Some? ==> no == a.no.value) && sb.State() == a.fs
  {
    var hsb := sb.fsInfo.value;
    var bitmap := sb.disk[DATA_BLOCK_BITMAP_BLOCK_NO];
    var found, bitmap' := Scan(bitmap, hsb.dataBlockTableSize);
    ret, no := -ENOSPC, 0;
    if found.Some? {
      no := DataStart(hsb) + found.value;
      sb.fsInfo := Some(hsb.(dataBlockCount := AddU64(hsb.dataBlockCount, 1)));
      ret := 0;
    }
    sb.disk := sb.disk[DATA_BLOCK_BITMAP_BLOCK_NO := bitmap'];
    sb.SaveSb();
  }

  // ---------------------------------------------------------------- directory records

  /** A directory inode whose record slot and data block the driver can reach:
      the inode lies in the table and its block in the data region. */
  predicate Placed(fs: Fs, dir: Inode)
    requires WellFormed(fs)
  {
    && dir.inodeNo < fs.hsb.inodeTableSize
    && dir.size <= DirMaxRecord(fs.hsb)
    && DataStart(fs.hsb) <= dir.dataBlockNo
    && dir.dataBlockNo in fs.disk
    && InodeBlockNo(fs.hsb, dir.inodeNo) in fs.disk
  }

  datatype AddResult = AddResult(ret: int, parent: Inode, fs: Fs)

  /** hellofs_add_dir_record: refuse a full directory; otherwise write (name, ino)
      into slot dir_children_count of the parent's block, count it, save the parent. */
  function AddRecordStep(fs: Fs, parent: Inode, name: seq<byte>, ino: u64): (r: AddResult)
    requires WellFormed(fs) && ValidName(name)
    requires parent.size < DirMaxRecord(fs.hsb) ==>
               parent.dataBlockNo in fs.disk && InodeBlockNo(fs.hsb, parent.inodeNo) in fs.disk
    ensures WellFormed(r.fs) && r.fs.hsb == fs.hsb && r.fs.disk.Keys == fs.disk.Keys
    ensures r.ret == 0 || r.ret == -ENOSPC
    ensures r.ret == -ENOSPC <==> parent.size >= DirMaxRecord(fs.hsb)
    ensures r.ret == -ENOSPC ==> r.parent == parent && r.fs == fs
    ensures r.ret == 0 ==> r.parent == parent.(size := parent.size + 1)
  {
    if parent.size >= DirMaxRecord(fs.hsb) then AddResult(-ENOSPC, parent, fs)
    else
      var block := fs.disk[parent.dataBlockNo];
      var block' := WriteRecord(block, parent.size, name, ino);
      var parent' := parent.(size := parent.size + 1);
      AddResult(0, parent', StoreInode(Fs(fs.disk[parent.dataBlockNo := block'], fs.hsb), parent'))
  }

  /** An append writes nowhere but the directory block and the parent's table block. */
  lemma AddRecordFrame(fs: Fs, parent: Inode, name: seq<byte>, ino: u64)
    requires WellFormed(fs) && ValidName(name)
    requires parent.size < DirMaxRecord(fs.hsb) ==>
               parent.dataBlockNo in fs.disk && InodeBlockNo(fs.hsb, parent.inodeNo) in fs.disk
    ensures var r := AddRecordStep(fs, parent, name, ino);
            forall b :: b in fs.disk && b != parent.dataBlockNo && b != InodeBlockNo(fs.hsb, parent.inodeNo) ==>
              r.fs.disk[b] == fs.disk[b]
  {
  }

  /** For a placed parent the directory block ends up as the one record write:
      saving the parent does not land in it. */
  lemma AddRecordBlock(fs: Fs, parent: Inode, name: seq<byte>, ino: u64)
    requires WellFormed(fs) && ValidName(name) && Placed(fs, parent)
    requires parent.size < DirMaxRecord(fs.hsb)
    ensures AddRecordStep(fs, parent, name, ino).fs.disk[parent.dataBlockNo]
              == WriteRecord(fs.disk[parent.dataBlockNo], parent.size, name, ino)
  {
    RegionsOrdered(fs.hsb, parent.inodeNo);
  }

  /** A successful append: the directory block gains exactly the new entry at the
      old count, holding the name and the number. */
  lemma AddRecordAppends(fs: Fs, parent: Inode, name: seq<byte>, ino: u64)
    requires WellFormed(fs) && ValidName(name) && Placed(fs, parent)
    requires parent.size < DirMaxRecord(fs.hsb)
    ensures var block := fs.disk[parent.dataBlockNo];
            var block' := AddRecordStep(fs, parent, name, ino).fs.disk[parent.dataBlockNo];
            && Listing(block', parent.size + 1) == Listing(block, parent.size) + [Entry(block', parent.size)]
            && RecordName(block', parent.size) == name && RecordIno(block', parent.size) == ino
  {
    AddRecordBlock(fs, parent, name, ino);
    ListingAfterAppend(fs.disk[parent.dataBlockNo], parent.size, name, ino);
  }

  /** After a successful append lookups see the new record: an earlier slot with the
      same name still wins, the new name resolves to the new slot, other names as before. */
  lemma AddRecordFinds(fs: Fs, parent: Inode, name: seq<byte>, ino: u64, x: seq<byte>)
    requires WellFormed(fs) && ValidName(name) && Placed(fs, parent)
    requires parent.size < DirMaxRecord(fs.hsb)
    ensures var block := fs.disk[parent.dataBlockNo];
            var block' := AddRecordStep(fs, parent, name, ino).fs.disk[parent.dataBlockNo];
            && RecordIno(block', parent.size) == ino
            && FindRecord(block', parent.size + 1, x) ==
                 (if FindRecord(block, parent.size, x).Some? then FindRecord(block, parent.size, x)
                  else if x == name then Some(parent.size) else None)
  {
    AddRecordBlock(fs, parent, name, ino);
    AppendThenFind(fs.disk[parent.dataBlockNo], parent.size, name, ino, x);
  }

  /** A successful append leaves the parent's updated record in the table. */
  lemma AddRecordSavesParent(fs: Fs, parent: Inode, name: seq<byte>, ino: u64)
    requires WellFormed(fs) && ValidName(name) && Placed(fs, parent)
    requires parent.size < DirMaxRecord(fs.hsb)
    ensures var r := AddRecordStep(fs, parent, name, ino);
            r.ret == 0 && LoadInode(r.fs, parent.inodeNo) == r.parent
  {
    var r := AddRecordStep(fs, parent, name, ino);
    var block := fs.disk[parent.dataBlockNo];
    var fs1 := Fs(fs.disk[parent.dataBlockNo := WriteRecord(block, parent.size, name, ino)], fs.hsb);
    assert r.fs == StoreInode(fs1, r.parent);
    LoadAfterStore(fs1, r.parent);
  }

  /** An append leaves every inode of the table but the parent as it was. */
  lemma AddRecordKeepsOtherInodes(fs: Fs, parent: Inode, name: seq<byte>, ino: u64, m: nat)
    requires WellFormed(fs) && ValidName(name) && Placed(fs, parent)
    requires parent.size < DirMaxRecord(fs.hsb)
    requires m != parent.inodeNo && m < fs.hsb.inodeTableSize && InodeBlockNo(fs.hsb, m) in fs.disk
    ensures LoadInode(AddRecordStep(fs, parent, name, ino).fs, m) == LoadInode(fs, m)
  {
    var r := AddRecordStep(fs, parent, name, ino);
    var block' := WriteRecord(fs.disk[parent.dataBlockNo], parent.size, name, ino);
    var fs1 := Fs(fs.disk[parent.dataBlockNo := block'], fs.hsb);
    assert r.fs == StoreInode(fs1, r.parent);
    RegionsOrdered(fs.hsb, m);
    assert InodeSlot(fs1, m) == InodeSlot(fs, m);
    LoadAfterStoreOther(fs1, r.parent, m);
  }

  method AddDirRecord(sb: SuperBlock, dir: CachedInode, name: seq<byte>, ino: u64) returns (ret: int)
    requires sb.Mounted() && ValidName(name)
    requires dir.rec.size < DirMaxRecord(sb.fsInfo.value) ==>
               dir.rec.dataBlockNo in sb.disk && InodeBlockNo(sb.fsInfo.value, dir.rec.inodeNo) in sb.disk
    modifies sb`disk, dir
    ensures sb.Mounted()
    ensures var r := AddRecordStep(old(sb.State()), old(dir.rec), name, ino);
            ret == r.ret && dir.rec == r.parent && sb.State() == r.fs
  {
    if dir.rec.size >= DirMaxRecord(sb.fsInfo.value) {
      return -ENOSPC;
    }
    var bh := sb.disk[dir.rec.dataBlockNo];
    bh := WriteRecord(bh, dir.rec.size, name, ino);
    sb.disk := sb.disk[dir.rec.dataBlockNo := bh];
    dir.rec := dir.rec.(size := dir.rec.size + 1);
    SaveInode(sb, dir);
    ret := 0;
  }

  // ---------------------------------------------------------------- create, mkdir

  /** The outcome of hellofs_create_inode: the return code, the parent's cached
      record, the new object's cached record (when it got that far and succeeded)
      and the device. */
  datatype CreateResult = CreateResult(ret: int, parent: Inode, child: Option<Inode>, fs: Fs)

  /** The size field of a fresh record: zeroed for a directory or a regular file,
      otherwise whatever the allocated memory held (stale). */
  function InitialSize(mode: UMode, stale: u64): (s: u64)
    ensures (IsDir(mode) || IsReg(mode)) ==> s == 0
  {
    if IsDir(mode) then 0 else if IsReg(mode) then 0 else stale
  }

  /** hellofs_create_inode, step by step with its early returns. vfsInodeOk says
      whether new_inode succeeded; stale is the uninitialised size of a record that
      is neither a directory nor a regular file. Nothing is undone on failure, and
      the child's record is never written to the inode table. */
  function CreateStep(fs: Fs, parent: Inode, name: seq<byte>, mode: UMode,
                      vfsInodeOk: bool, stale: u64): (r: CreateResult)
    requires WellFormed(fs) && ValidName(name)
    requires parent.size < DirMaxRecord(fs.hsb) ==>
               parent.dataBlockNo in fs.disk && InodeBlockNo(fs.hsb, parent.inodeNo) in fs.disk
    ensures WellFormed(r.fs) && r.fs.disk.Keys == fs.disk.Keys
    ensures r.fs.hsb == fs.hsb.(inodeCount := r.fs.hsb.inodeCount, dataBlockCount := r.fs.hsb.dataBlockCount)
    ensures r.ret == 0 || r.ret == -ENOSPC || r.ret == -ENOMEM
    ensures r.ret == 0 <==> r.child.Some?
  {
    var ai := AllocInodeStep(fs);
    if ai.no.None? then CreateResult(-ENOSPC, parent, None, ai.fs)
    else
      var ad := AllocDataStep(ai.fs);
      if ad.no.None? then CreateResult(-ENOSPC, parent, None, ad.fs)
      else if !vfsInodeOk then CreateResult(-ENOMEM, parent, None, ad.fs)
      else
        var add := AddRecordStep(ad.fs, parent, name, ai.no.value);
        if add.ret != 0 then CreateResult(-ENOSPC, add.parent, None, add.fs)
        else CreateResult(0, add.parent,
                          Some(Inode(mode, ai.no.value, ad.no.value, InitialSize(mode, stale))), add.fs)
  }

  /** With the inode table full, create fails with -ENOSPC before the data bitmap is
      read: the data bitmap, the parent and every block but the superblock are untouched. */
  lemma CreateNoInode(fs: Fs, parent: Inode, name: seq<byte>, mode: UMode, vfsInodeOk: bool, stale: u64)
    requires WellFormed(fs) && ValidName(name)
    requires parent.size < DirMaxRecord(fs.hsb) ==>
               parent.dataBlockNo in fs.disk && InodeBlockNo(fs.hsb, parent.inodeNo) in fs.disk
    requires FirstFree(fs.disk[INODE_BITMAP_BLOCK_NO], fs.hsb.inodeTableSize).None?
    ensures var r := CreateStep(fs, parent, name, mode, vfsInodeOk, stale);
            && r.ret == -ENOSPC && r.child.None? && r.parent == parent
            && r.fs.hsb == fs.hsb
            && forall b :: b in fs.disk && b != SUPERBLOCK_BLOCK_NO ==> r.fs.disk[b] == fs.disk[b]
  {
  }

  /** The two allocations of create write only blocks 0 to 2, and keep the geometry. */
  lemma AllocationsKeep(fs: Fs, parent: Inode)
    requires WellFormed(fs) && Placed(fs, parent)
    ensures var ad := AllocDataStep(AllocInodeStep(fs).fs);
            && ad.fs.disk[parent.dataBlockNo] == fs.disk[parent.dataBlockNo]
            && Placed(ad.fs, parent)
            && (forall b :: b in fs.disk && b > DATA_BLOCK_BITMAP_BLOCK_NO ==> ad.fs.disk[b] == fs.disk[b])
  {
    var ai := AllocInodeStep(fs);
    var ad := AllocDataStep(ai.fs);
    assert DataStart(ad.fs.hsb) == DataStart(fs.hsb);
    assert InodeBlockNo(ad.fs.hsb, parent.inodeNo) == InodeBlockNo(fs.hsb, parent.inodeNo);
  }

  lemma AllocationsKeepInode(fs: Fs, parent: Inode, m: nat)
    requires WellFormed(fs) && Placed(fs, parent)
    requires m < fs.hsb.inodeTableSize && InodeBlockNo(fs.hsb, m) in fs.disk
    ensures var ad := AllocDataStep(AllocInodeStep(fs).fs);
            InodeBlockNo(ad.fs.hsb, m) == InodeBlockNo(fs.hsb, m) && LoadInode(ad.fs, m) == LoadInode(fs, m)
  {
    var ad := AllocDataStep(AllocInodeStep(fs).fs);
    AllocationsKeep(fs, parent);
    RegionsOrdered(fs.hsb, m);
    assert InodeBlockNo(ad.fs.hsb, m) == InodeBlockNo(fs.hsb, m);
    assert InodeByteOffset(ad.fs.hsb, m) == InodeByteOffset(fs.hsb, m);
  }

  /** How a successful create decomposes into its steps. */
  lemma CreateSuccessSteps(fs: Fs, parent: Inode, name: seq<byte>, mode: UMode, stale: u64)
    requires WellFormed(fs) && ValidName(name) && Placed(fs, parent)
    requires CreateStep(fs, parent, name, mode, true, stale).ret == 0
    ensures AllocInodeStep(fs).no.Some? && AllocDataStep(AllocInodeStep(fs).fs).no.Some?
    ensures var ai := AllocInodeStep(fs);
            var ad := AllocDataStep(ai.fs);
            var add := AddRecordStep(ad.fs, parent, name, ai.no.value);
            && add.ret == 0
            && CreateStep(fs, parent, name, mode, true, stale)
               == CreateResult(0, add.parent, Some(Inode(mode, ai.no.value, ad.no.value, InitialSize(mode, stale))), add.fs)
  {
  }

  /** Once the inode number is taken, whatever create does next leaves both bitmaps
      and the superblock as the two allocators left them. */
  lemma CreateAfterAllocations(fs: Fs, parent: Inode, name: seq<byte>, mode: UMode, vfsInodeOk: bool, stale: u64)
    requires WellFormed(fs) && ValidName(name) && Placed(fs, parent)
    requires AllocInodeStep(fs).no.Some?
    ensures var r := CreateStep(fs, parent, name, mode, vfsInodeOk, stale);
            var ad := AllocDataStep(AllocInodeStep(fs).fs);
            && r.fs.hsb == ad.fs.hsb
            && r.fs.disk[INODE_BITMAP_BLOCK_NO] == ad.fs.disk[INODE_BITMAP_BLOCK_NO]
            && r.fs.disk[DATA_BLOCK_BITMAP_BLOCK_NO] == ad.fs.disk[DATA_BLOCK_BITMAP_BLOCK_NO]
  {
    var ai := AllocInodeStep(fs);
    var ad := AllocDataStep(ai.fs);
    var r := CreateStep(fs, parent, name, mode, vfsInodeOk, stale);
    if ad.no.None? {
      assert r == CreateResult(-ENOSPC, parent, None, ad.fs);
    } else if !vfsInodeOk {
      assert r == CreateResult(-ENOMEM, parent, None, ad.fs);
    } else {
      AllocationsKeep(fs, parent);
      var add := AddRecordStep(ad.fs, parent, name, ai.no.value);
      assert r.fs == add.fs;
      AddRecordFrame(ad.fs, parent, name, ai.no.value);
    }
  }

  /** No rollback: once create has taken an inode number, the number stays taken
      and counted whatever fails later. */
  lemma CreateKeepsInode(fs: Fs, parent: Inode, name: seq<byte>, mode: UMode, vfsInodeOk: bool, stale: u64)
    requires WellFormed(fs) && ValidName(name) && Placed(fs, parent)
    requires FirstFree(fs.disk[INODE_BITMAP_BLOCK_NO], fs.hsb.inodeTableSize).Some?
    ensures var i := FirstFree(fs.disk[INODE_BITMAP_BLOCK_NO], fs.hsb.inodeTableSize).value;
            var r := CreateStep(fs, parent, name, mode, vfsInodeOk, stale);
            && BitSet(r.fs.disk[INODE_BITMAP_BLOCK_NO], i)
            && r.fs.hsb.inodeCount == (fs.hsb.inodeCount + 1) % U64_MOD
  {
    var ai := AllocInodeStep(fs);
    AllocInodeFirstFit(fs);
    var ad := AllocDataStep(ai.fs);
    assert ad.fs.disk[INODE_BITMAP_BLOCK_NO] == ai.fs.disk[INODE_BITMAP_BLOCK_NO];
    CreateAfterAllocations(fs, parent, name, mode, vfsInodeOk, stale);
  }

  /** No rollback, second half: once create has taken a data block, it stays taken
      and counted whatever fails later. */
  lemma CreateKeepsDataBlock(fs: Fs, parent: Inode, name: seq<byte>, mode: UMode, vfsInodeOk: bool, stale: u64)
    requires WellFormed(fs) && ValidName(name) && Placed(fs, parent)
    requires FirstFree(fs.disk[INODE_BITMAP_BLOCK_NO], fs.hsb.inodeTableSize).Some?
    requires FirstFree(fs.disk[DATA_BLOCK_BITMAP_BLOCK_NO], fs.hsb.dataBlockTableSize).Some?
    ensures var d := FirstFree(fs.disk[DATA_BLOCK_BITMAP_BLOCK_NO], fs.hsb.dataBlockTableSize).value;
            var r := CreateStep(fs, parent, name, mode, vfsInodeOk, stale);
            && BitSet(r.fs.disk[DATA_BLOCK_BITMAP_BLOCK_NO], d)
            && r.fs.hsb.dataBlockCount == (fs.hsb.dataBlockCount + 1) % U64_MOD
  {
    var ai := AllocInodeStep(fs);
    assert ai.fs.disk[DATA_BLOCK_BITMAP_BLOCK_NO] == fs.disk[DATA_BLOCK_BITMAP_BLOCK_NO];
    AllocDataFirstFit(ai.fs);
    CreateAfterAllocations(fs, parent, name, mode, vfsInodeOk, stale);
  }

  /** A directory that is full makes create fail after both allocations: the two
      numbers stay taken, the parent is unchanged. */
  lemma CreateDirFullLeaks(fs: Fs, parent: Inode, name: seq<byte>, mode: UMode, stale: u64)
    requires WellFormed(fs) && ValidName(name)
    requires parent.size >= DirMaxRecord(fs.hsb)
    requires FirstFree(fs.disk[INODE_BITMAP_BLOCK_NO], fs.hsb.inodeTableSize).Some?
    requires FirstFree(AllocInodeStep(fs).fs.disk[DATA_BLOCK_BITMAP_BLOCK_NO], fs.hsb.dataBlockTableSize).Some?
    ensures var r := CreateStep(fs, parent, name, mode, true, stale);
            var ad := AllocDataStep(AllocInodeStep(fs).fs);
            r.ret == -ENOSPC && r.parent == parent && r.child.None? && r.fs == ad.fs
  {
  }

  /** A successful create: the child has the first free inode number and a block of
      the data region, a zero size when it is a directory or a regular file, and the
      parent counts one more child. */
  lemma CreateChild(fs: Fs, parent: Inode, name: seq<byte>, mode: UMode, stale: u64)
    requires WellFormed(fs) && ValidName(name) && Placed(fs, parent)
    requires CreateStep(fs, parent, name, mode, true, stale).ret == 0
    ensures var r := CreateStep(fs, parent, name, mode, true, stale);
            var c := r.child.value;
            && c.mode == mode
            && Some(c.inodeNo as nat) == FirstFree(fs.disk[INODE_BITMAP_BLOCK_NO], fs.hsb.inodeTableSize)
            && DataStart(fs.hsb) <= c.dataBlockNo < DataStart(fs.hsb) + fs.hsb.dataBlockTableSize
            && ((IsDir(mode) || IsReg(mode)) ==> c.size == 0)
            && r.parent == parent.(size := parent.size + 1)
  {
    CreateSuccessSteps(fs, parent, name, mode, stale);
  }

  /** After a successful create of a name the directory did not hold, the parent's
      block lists the name in the old last-plus-one slot with the child's number. */
  lemma CreateListsChild(fs: Fs, parent: Inode, name: seq<byte>, mode: UMode, stale: u64)
    requires WellFormed(fs) && ValidName(name) && Placed(fs, parent)
    requires FindRecord(fs.disk[parent.dataBlockNo], parent.size, name).None?
    requires CreateStep(fs, parent, name, mode, true, stale).ret == 0
    ensures var r := CreateStep(fs, parent, name, mode, true, stale);
            var block' := r.fs.disk[parent.dataBlockNo];
            && r.ret == 0 && r.child.Some?
            && r.parent.size == parent.size + 1 && SlotsFit(block', r.parent.size)
            && FindRecord(block', r.parent.size, name) == Some(parent.size)
            && RecordIno(block', parent.size) == r.child.value.inodeNo
  {
    var ai := AllocInodeStep(fs);
    var ad := AllocDataStep(ai.fs);
    AllocationsKeep(fs, parent);
    CreateSuccessSteps(fs, parent, name, mode, stale);
    AddRecordFinds(ad.fs, parent, name, ai.no.value, name);
  }

  /** The new object's own table slot is never written: after a successful create,
      loading the child's number reads what the slot held before. */
  lemma CreateNeverSavesChild(fs: Fs, parent: Inode, name: seq<byte>, mode: UMode, stale: u64)
    requires WellFormed(fs) && ValidName(name) && Placed(fs, parent)
    requires BitSet(fs.disk[INODE_BITMAP_BLOCK_NO], parent.inodeNo)
    requires CreateStep(fs, parent, name, mode, true, stale).ret == 0
    ensures var r := CreateStep(fs, parent, name, mode, true, stale);
            r.child.Some? &&
            var n := r.child.value.inodeNo;
            InodeBlockNo(fs.hsb, n) in fs.disk ==>
              InodeBlockNo(r.fs.hsb, n) == InodeBlockNo(fs.hsb, n) && LoadInode(r.fs, n) == LoadInode(fs, n)
  {
    var ai := AllocInodeStep(fs);
    var ad := AllocDataStep(ai.fs);
    var i := ai.no.value;
    AllocInodeFirstFit(fs);
    assert i != parent.inodeNo;
    AllocationsKeep(fs, parent);
    CreateSuccessSteps(fs, parent, name, mode, stale);
    if InodeBlockNo(fs.hsb, i) in fs.disk {
      AllocationsKeepInode(fs, parent, i);
      AddRecordKeepsOtherInodes(ad.fs, parent, name, i, i);
    }
  }

  method CreateInode(sb: SuperBlock, dir: CachedInode, name: seq<byte>, mode: UMode,
                     vfsInodeOk: bool, stale: u64) returns (ret: int, child: CachedInode?)
    requires sb.Mounted() && ValidName(name)
    requires dir.rec.size < DirMaxRecord(sb.fsInfo.value) ==>
               dir.rec.dataBlockNo in sb.disk && InodeBlockNo(sb.fsInfo.value, dir.rec.inodeNo) in sb.disk
    modifies sb`disk, sb`fsInfo, dir
    ensures sb.Mounted()
    ensures var r := CreateStep(old(sb.State()), old(dir.rec), name, mode, vfsInodeOk, stale);
            && ret == r.ret && dir.rec == r.parent && sb.State() == r.fs
            && (child != null <==> r.child.Some?)
            && (child != null ==> fresh(child) && child.rec == r.child.value)
  {
    ghost var fs0, p0 := sb.State(), dir.rec;
    ghost var r0 := CreateStep(fs0, p0, name, mode, vfsInodeOk, stale);
    ghost var ai := AllocInodeStep(fs0);
    child := null;
    var inodeNo;
    ret, inodeNo := AllocInode(sb);
    if ret != 0 {
      assert r0 == CreateResult(-ENOSPC, p0, None, ai.fs);
      return -ENOSPC, null;
    }
    var size := InitialSize(mode, stale);
    ghost var ad := AllocDataStep(ai.fs);
    var dataBlockNo;
    ret, dataBlockNo := AllocDataBlock(sb);
    if ret != 0 {
      assert r0 == CreateResult(-ENOSPC, p0, None, ad.fs);
      return -ENOSPC, null;
    }
    var rec := Inode(mode, inodeNo, dataBlockNo, size);
    if !vfsInodeOk {
      assert r0 == CreateResult(-ENOMEM, p0, None, ad.fs);
      return -ENOMEM, null;
    }
    GeometryAgrees(fs0.hsb, ad.fs.hsb);
    ghost var add := AddRecordStep(ad.fs, p0, name, inodeNo);
    ret := AddDirRecord(sb, dir, name, inodeNo);
    if ret != 0 {
      assert r0 == CreateResult(-ENOSPC, add.parent, None, add.fs);
      return -ENOSPC, null;
    }
    assert r0 == CreateResult(0, add.parent, Some(rec), add.fs);
    child := new CachedInode(rec);
  }

  /** hellofs_create: create_inode with the mode the VFS passes. */
  method Create(sb: SuperBlock, dir: CachedInode, name: seq<byte>, mode: UMode, excl: bool,
                vfsInodeOk: bool, stale: u64) returns (ret: int, child: CachedInode?)
    requires sb.Mounted() && ValidName(name)
    requires dir.rec.size < DirMaxRecord(sb.fsInfo.value) ==>
               dir.rec.dataBlockNo in sb.disk && InodeBlockNo(sb.fsInfo.value, dir.rec.inodeNo) in sb.disk
    modifies sb`disk, sb`fsInfo, dir
    ensures sb.Mounted()
    ensures var r := CreateStep(old(sb.State()), old(dir.rec), name, mode, vfsInodeOk, stale);
            && ret == r.ret && dir.rec == r.parent && sb.State() == r.fs
            && (child != null <==> r.child.Some?)
            && (child != null ==> fresh(child) && child.rec == r.child.value)
  {
    ret, child := CreateInode(sb, dir, name, mode, vfsInodeOk, stale);
  }

  /** `mode |= S_IFDIR` on a 16-bit umode_t. */
  function MkdirMode(mode: UMode): (m: UMode)
    ensures (m / S_IFDIR) % 2 == 1
    ensures m % S_IFDIR == mode % S_IFDIR && m / (2 * S_IFDIR) == mode / (2 * S_IFDIR)
  {
    if (mode / S_IFDIR) % 2 == 1 then mode else mode + S_IFDIR
  }

  /** OR-ing in S_IFDIR yields a directory mode exactly when the mode had no file
      type or already was a directory; the permission bits are kept. */
  lemma MkdirModeIsDir(mode: UMode)
    ensures IsDir(MkdirMode(mode)) <==> (FileType(mode) == 0 || IsDir(mode))
    ensures MkdirMode(mode) % 0x1000 == mode % 0x1000
  {
    var t := mode / 0x1000;
    assert mode / S_IFDIR == t / 4;
    if (t / 4) % 2 == 0 {
      assert (mode + S_IFDIR) / 0x1000 == t + 4;
    }
  }

  /** hellofs_mkdir: create_inode with S_IFDIR forced into the mode. */
  method Mkdir(sb: SuperBlock, dir: CachedInode, name: seq<byte>, mode: UMode,
               vfsInodeOk: bool, stale: u64) returns (ret: int, child: CachedInode?)
    requires sb.Mounted() && ValidName(name)
    requires dir.rec.size < DirMaxRecord(sb.fsInfo.value) ==>
               dir.rec.dataBlockNo in sb.disk && InodeBlockNo(sb.fsInfo.value, dir.rec.inodeNo) in sb.disk
    modifies sb`disk, sb`fsInfo, dir
    ensures sb.Mounted()
    ensures var r := CreateStep(old(sb.State()), old(dir.rec), name, MkdirMode(mode), vfsInodeOk, stale);
            && ret == r.ret && dir.rec == r.parent && sb.State() == r.fs
            && (child != null <==> r.child.Some?)
            && (child != null ==> fresh(child) && child.rec == r.child.value)
  {
    ret, child := CreateInode(sb, dir, name, MkdirMode(mode), vfsInodeOk, stale);
  }

  // ---------------------------------------------------------------- lookup

  /** A directory block the driver can scan: present, and its records inside it. */
  predicate Scannable(fs: Fs, dir: Inode)
    requires WellFormed(fs)
  {
    dir.dataBlockNo in fs.disk && SlotsFit(fs.disk[dir.dataBlockNo], dir.size)
  }

  /** The record lookup binds the dentry to: the inode of the first slot holding the
      name, read from the table; None for a miss (a negative dentry) or when no VFS
      inode could be allocated. */
  function LookupResult(fs: Fs, dir: Inode, name: seq<byte>, vfsInodeOk: bool): (r: Option<Inode>)
    requires WellFormed(fs) && Scannable(fs, dir)
    requires var f := FindRecord(fs.disk[dir.dataBlockNo], dir.size, name);
             f.Some? ==> InodeBlockNo(fs.hsb, RecordIno(fs.disk[dir.dataBlockNo], f.value)) in fs.disk
    ensures r.Some? <==> vfsInodeOk && exists k :: 0 <= k < dir.size && RecordName(fs.disk[dir.dataBlockNo], k) == name
  {
    var block := fs.disk[dir.dataBlockNo];
    match FindRecord(block, dir.size, name)
    case None => None
    case Some(k) => if vfsInodeOk then Some(LoadInode(fs, RecordIno(block, k))) else None
  }

  /** hellofs_lookup's scan over the directory's slots. */
  method Lookup(sb: SuperBlock, dir: CachedInode, name: seq<byte>, vfsInodeOk: bool)
    returns (bound: Option<Inode>)
    requires sb.Mounted() && Scannable(sb.State(), dir.rec)
    requires var block := sb.disk[dir.rec.dataBlockNo];
             var f := FindRecord(block, dir.rec.size, name);
             f.Some? ==> InodeBlockNo(sb.fsInfo.value, RecordIno(block, f.value)) in sb.disk
    ensures bound == LookupResult(sb.State(), dir.rec, name, vfsInodeOk)
  {
    var block := sb.disk[dir.rec.dataBlockNo];
    var i: nat := 0;
    while i < dir.rec.size
      invariant i <= dir.rec.size
      invariant forall j :: 0 <= j < i ==> RecordName(block, j) != name
    {
      if RecordName(block, i) == name {
        FindRecordIs(block, dir.rec.size, name, i);
        var ino := RecordIno(block, i);
        if !vfsInodeOk {
          return None;
        }
        return Some(LoadInode(sb.State(), ino));
      }
      i := i + 1;
    }
    FindRecordNone(block, dir.rec.size, name);
    return None;
  }

  /** A name just added to a directory is found by the next lookup, and the inode it
      binds to is whatever the table holds for the new number. */
  lemma LookupAfterAdd(fs: Fs, parent: Inode, name: seq<byte>, ino: u64)
    requires WellFormed(fs) && ValidName(name) && Placed(fs, parent)
    requires parent.size < DirMaxRecord(fs.hsb)
    requires FindRecord(fs.disk[parent.dataBlockNo], parent.size, name).None?
    requires InodeBlockNo(fs.hsb, ino) in fs.disk
    ensures var r := AddRecordStep(fs, parent, name, ino);
            var block' := r.fs.disk[parent.dataBlockNo];
            && Scannable(r.fs, r.parent) && r.parent.dataBlockNo == parent.dataBlockNo
            && FindRecord(block', r.parent.size, name) == Some(parent.size)
            && RecordIno(block', parent.size) == ino
            && LookupResult(r.fs, r.parent, name, true) == Some(LoadInode(r.fs, ino))
  {
    var r := AddRecordStep(fs, parent, name, ino);
    AddRecordFinds(fs, parent, name, ino, name);
    var block' := r.fs.disk[parent.dataBlockNo];
    assert r.parent.dataBlockNo == parent.dataBlockNo && r.parent.size == parent.size + 1;
    assert FindRecord(block', r.parent.size, name) == Some(parent.size);
  }
}
