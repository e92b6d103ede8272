// The kernel side of hellofs (khellofs.h): the inode-table and directory arithmetic
// the driver uses, and the kernel objects it works on. A `struct super_block` becomes
// SuperBlock, which owns the block device (as the buffer cache presents it, one byte
// sequence per readable block) and the in-memory hellofs superblock; the hellofs inode
// a VFS inode carries in i_private becomes a CachedInode.

module KHelloFs {
  import opened Wrappers
  import opened Bytes
  import opened HelloFs

  const ENOMEM: int := 12
  const EFAULT: int := 14
  const ENOTDIR: int := 20
  const ENOSPC: int := 28

  /** umode_t: the 16-bit mode the VFS passes to create and mkdir. */
  type UMode = m: int | 0 <= m < 0x1_0000

  /** HELLOFS_INODE_BLOCK_OFFSET: which block of the inode table holds inode n. */
  function InodeBlockOffset(sb: Superblock, n: nat): nat
    requires sb.blocksize >= INODE_SIZE
  {
    n / InodesPerBlock(sb)
  }

  /** HELLOFS_INODE_BYTE_OFFSET: where inode n starts inside that block. */
  function InodeByteOffset(sb: Superblock, n: nat): (off: nat)
    requires sb.blocksize >= INODE_SIZE
    ensures off % INODE_SIZE == 0
    ensures off + INODE_SIZE <= sb.blocksize
  {
    var ipb := InodesPerBlock(sb);
    assert n % ipb + 1 <= ipb;
    (n % ipb) * INODE_SIZE
  }

  /** The absolute block the driver reads for inode n (inode.c adds the table start). */
  function InodeBlockNo(sb: Superblock, n: nat): nat
    requires sb.blocksize >= INODE_SIZE
  {
    INODE_TABLE_START_BLOCK_NO + InodeBlockOffset(sb, n)
  }

  /** HELLOFS_DIR_MAX_RECORD: how many whole directory records fit in a block. */
  function DirMaxRecord(sb: Superblock): (m: nat)
    ensures m * DIR_RECORD_SIZE <= sb.blocksize < (m + 1) * DIR_RECORD_SIZE
  {
    sb.blocksize / DIR_RECORD_SIZE
  }

  /** Two inode numbers never share a table slot: (block, byte offset) determines the number. */
  lemma InodeLocationInjective(sb: Superblock, n: nat, m: nat)
    requires sb.blocksize >= INODE_SIZE
    requires InodeBlockNo(sb, n) == InodeBlockNo(sb, m)
    requires InodeByteOffset(sb, n) == InodeByteOffset(sb, m)
    ensures n == m
  {
    var ipb := InodesPerBlock(sb);
    assert n % ipb == m % ipb;
    assert n / ipb == m / ipb;
    assert n == ipb * (n / ipb) + n % ipb;
    assert m == ipb * (m / ipb) + m % ipb;
  }

  lemma DivMonotone(a: nat, b: nat, d: nat)
    requires a <= b && d > 0
    ensures a / d <= b / d
  {
    var qa, qb := a / d, b / d;
    assert d * qa <= a;
    assert b < d * qb + d == d * (qb + 1);
    MulLtCancel(d, qa, qb + 1);
  }

  lemma MulLtCancel(d: nat, x: nat, y: nat)
    requires d > 0 && d * x < d * y
    ensures x < y
  {
    if x >= y {
      MulLe(d, y, x);
    }
  }

  lemma MulLe(d: nat, y: nat, x: nat)
    requires y <= x
    ensures d * y <= d * x
  {
  }

  /** The fixed blocks come first and in order, and the inode table ends before
      the data region starts: every inode of the table lies in a block in
      [INODE_TABLE_START_BLOCK_NO, DataStart). */
  lemma RegionsOrdered(sb: Superblock, n: nat)
    requires sb.blocksize >= INODE_SIZE
    requires n < sb.inodeTableSize
    ensures SUPERBLOCK_BLOCK_NO < INODE_BITMAP_BLOCK_NO < DATA_BLOCK_BITMAP_BLOCK_NO < INODE_TABLE_START_BLOCK_NO
    ensures INODE_TABLE_START_BLOCK_NO <= InodeBlockNo(sb, n) < DataStart(sb)
  {
    DivMonotone(n, sb.inodeTableSize, InodesPerBlock(sb));
  }

  /** Two superblocks with the same block size and table sizes locate everything alike
      (the allocators change only the counters). */
  lemma GeometryAgrees(a: Superblock, b: Superblock)
    requires a.blocksize == b.blocksize && a.blocksize >= INODE_SIZE
    requires a.inodeTableSize == b.inodeTableSize
    ensures InodesPerBlock(a) == InodesPerBlock(b) && DataStart(a) == DataStart(b)
    ensures DirMaxRecord(a) == DirMaxRecord(b)
    ensures forall n: nat :: InodeBlockNo(a, n) == InodeBlockNo(b, n) && InodeByteOffset(a, n) == InodeByteOffset(b, n)
  {
  }

  /** The root directory is inode 0 and sits in the first slot of the table. */
  lemma RootInodeLocation(sb: Superblock)
    requires sb.blocksize >= INODE_SIZE
    ensures InodeBlockNo(sb, ROOTDIR_INODE_NO) == INODE_TABLE_START_BLOCK_NO
    ensures InodeByteOffset(sb, ROOTDIR_INODE_NO) == 0
  {
  }

  /** The block device as the buffer cache presents it: the blocks sb_bread can read. */
  type Disk = map<nat, seq<byte>>

  /** The state the allocators and the inode table work on: the device and the
      in-memory superblock (s_fs_info). */
  datatype Fs = Fs(disk: Disk, hsb: Superblock)

  predicate BlocksSized(disk: Disk, blocksize: nat)
  {
    forall b :: b in disk ==> |disk[b]| == blocksize
  }

  /** What the driver silently relies on in a superblock: the record fits its block,
      each bitmap covers its table inside one block, and data block numbers fit 64 bits. */
  predicate GeometryOk(sb: Superblock)
  {
    && sb.blocksize >= SUPERBLOCK_SIZE
    && sb.inodeTableSize <= BITS_IN_BYTE * sb.blocksize
    && sb.dataBlockTableSize <= BITS_IN_BYTE * sb.blocksize
    && DataStart(sb) + sb.dataBlockTableSize <= U64_MOD
  }

  predicate WellFormed(fs: Fs)
  {
    && GeometryOk(fs.hsb)
    && BlocksSized(fs.disk, fs.hsb.blocksize)
    && SUPERBLOCK_BLOCK_NO in fs.disk
    && INODE_BITMAP_BLOCK_NO in fs.disk
    && DATA_BLOCK_BITMAP_BLOCK_NO in fs.disk
  }

  /** Block 0 holds the in-memory superblock. In the driver s_fs_info points into
      block 0's buffer, so this always holds there. */
  predicate Synced(fs: Fs)
    requires SUPERBLOCK_BLOCK_NO in fs.disk && |fs.disk[SUPERBLOCK_BLOCK_NO]| >= SUPERBLOCK_SIZE
  {
    fs.disk[SUPERBLOCK_BLOCK_NO][..SUPERBLOCK_SIZE] == EncodeSuperblock(fs.hsb)
  }

  /** hellofs_save_sb: block 0 is made to hold the in-memory superblock; the rest of
      block 0 and every other block keep their bytes. */
  function SaveSbImage(fs: Fs): (r: Fs)
    requires SUPERBLOCK_BLOCK_NO in fs.disk && |fs.disk[SUPERBLOCK_BLOCK_NO]| >= SUPERBLOCK_SIZE
    ensures r.hsb == fs.hsb && r.disk.Keys == fs.disk.Keys
    ensures |r.disk[SUPERBLOCK_BLOCK_NO]| == |fs.disk[SUPERBLOCK_BLOCK_NO]|
    ensures r.disk[SUPERBLOCK_BLOCK_NO][SUPERBLOCK_SIZE..] == fs.disk[SUPERBLOCK_BLOCK_NO][SUPERBLOCK_SIZE..]
    ensures forall b :: b in fs.disk && b != SUPERBLOCK_BLOCK_NO ==> r.disk[b] == fs.disk[b]
  {
    var b0 := fs.disk[SUPERBLOCK_BLOCK_NO];
    var b0' := Splice(b0, 0, EncodeSuperblock(fs.hsb));
    assert b0'[SUPERBLOCK_SIZE..] == b0[SUPERBLOCK_SIZE..];
    Fs(fs.disk[SUPERBLOCK_BLOCK_NO := b0'], fs.hsb)
  }

  /** After a save, block 0 holds the in-memory superblock. */
  lemma SaveSbSyncs(fs: Fs)
    requires SUPERBLOCK_BLOCK_NO in fs.disk && |fs.disk[SUPERBLOCK_BLOCK_NO]| >= SUPERBLOCK_SIZE
    ensures Synced(SaveSbImage(fs))
  {
  }

  /** Saving a superblock that is already on disk changes nothing, and what was saved
      is what a later mount decodes. */
  lemma SaveSbIdempotent(fs: Fs)
    requires SUPERBLOCK_BLOCK_NO in fs.disk && |fs.disk[SUPERBLOCK_BLOCK_NO]| >= SUPERBLOCK_SIZE
    ensures Synced(fs) ==> SaveSbImage(fs) == fs
    ensures DecodeSuperblock(SaveSbImage(fs).disk[SUPERBLOCK_BLOCK_NO][..SUPERBLOCK_SIZE]) == fs.hsb
  {
    var b0 := fs.disk[SUPERBLOCK_BLOCK_NO];
    var b0' := SaveSbImage(fs).disk[SUPERBLOCK_BLOCK_NO];
    if Synced(fs) {
      assert b0' == b0'[..SUPERBLOCK_SIZE] + b0'[SUPERBLOCK_SIZE..];
      assert b0 == b0[..SUPERBLOCK_SIZE] + b0[SUPERBLOCK_SIZE..];
      assert fs.disk[SUPERBLOCK_BLOCK_NO := b0'] == fs.disk;
    }
    DecodeEncodeSuperblock(fs.hsb);
  }

  /** The in-memory copy of one inode record (the object a VFS inode's i_private
      points to). The driver updates it in place and saves it to the table. */
  class CachedInode {
    var rec: Inode

    constructor (rec: Inode)
      ensures this.rec == rec
    {
      this.rec := rec;
    }
  }

  class SuperBlock {
    /** s_blocksize, the device block size set before hellofs is asked to mount. */
    const blocksize: nat
    /** The device, read and written through sb_bread and the dirty/sync calls. */
    var disk: Disk
    /** s_fs_info: the hellofs superblock, absent until the mount accepts the device. */
    var fsInfo: Option<Superblock>
    /** s_magic and s_maxbytes as the mount sets them. */
    var magic: nat
    var maxbytes: nat
    /** The hellofs inode behind s_root. */
    var root: CachedInode?

    constructor (blocksize: nat, disk: Disk)
      ensures this.blocksize == blocksize && this.disk == disk
      ensures fsInfo == None && magic == 0 && maxbytes == 0 && root == null
    {
      this.blocksize := blocksize;
      this.disk := disk;
      fsInfo := None;
      magic := 0;
      maxbytes := 0;
      root := null;
    }

    function State(): Fs
      reads this
      requires fsInfo.Some?
    {
      Fs(disk, fsInfo.value)
    }

    /** A mounted volume whose superblock agrees with the device and whose geometry
        the allocators can work with. */
    predicate Mounted()
      reads this
    {
      && fsInfo.Some?
      && fsInfo.value.blocksize == blocksize
      && WellFormed(State())
    }

    /** hellofs_save_sb (super.c): block 0 := the in-memory superblock record. */
    method SaveSb()
      requires fsInfo.Some?
      requires SUPERBLOCK_BLOCK_NO in disk && |disk[SUPERBLOCK_BLOCK_NO]| >= SUPERBLOCK_SIZE
      modifies this`disk
      ensures State() == SaveSbImage(old(State()))
    {
      var bh := disk[SUPERBLOCK_BLOCK_NO];
      bh := Splice(bh, 0, EncodeSuperblock(fsInfo.value));
      disk := disk[SUPERBLOCK_BLOCK_NO := bh];
    }
  }
}
