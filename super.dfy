// super.c: the mount-time check of block 0 and the installation of the hellofs
// superblock into the kernel's super_block. (hellofs_save_sb is SuperBlock.SaveSb.)

module Super {
  import opened Wrappers
  import opened Bytes
  import opened HelloFs
  import opened KHelloFs

  /** The verdict of hellofs_fill_super on the first bytes of block 0: the superblock
      they hold when its magic is HELLOFS_MAGIC and its blocksize is the device's,
      nothing otherwise. */
  function CheckSuperblock(b0: seq<byte>, deviceBlocksize: nat): (r: Option<Superblock>)
    requires |b0| == SUPERBLOCK_SIZE
    ensures r.Some? <==> ReadU64(b0, 8) == HELLOFS_MAGIC && ReadU64(b0, 16) == deviceBlocksize
    ensures r.Some? ==> EncodeSuperblock(r.value) == b0
  {
    var h := DecodeSuperblock(b0);
    SuperblockMagicField(b0);
    EncodeDecodeSuperblock(b0);
    if h.magic != HELLOFS_MAGIC then None
    else if deviceBlocksize != h.blocksize then None
    else Some(h)
  }

  /** The magic test comes first: a block whose magic is wrong is refused whatever
      else it holds, and the verdict on a block depends on no byte outside the magic
      and blocksize fields. */
  lemma WrongMagicRejected(b0: seq<byte>, c0: seq<byte>, deviceBlocksize: nat)
    requires |b0| == SUPERBLOCK_SIZE && |c0| == SUPERBLOCK_SIZE
    ensures ReadU64(b0, 8) != HELLOFS_MAGIC ==> CheckSuperblock(b0, deviceBlocksize).None?
    ensures b0[8..24] == c0[8..24] ==>
              CheckSuperblock(b0, deviceBlocksize).Some? == CheckSuperblock(c0, deviceBlocksize).Some?
  {
    assert b0[8..24][..8] == b0[8..16] && b0[8..24][8..] == b0[16..24];
    assert c0[8..24][..8] == c0[8..16] && c0[8..24][8..] == c0[16..24];
  }

  /** What a formatted superblock record passes: the right magic and the device's
      block size are accepted, and the mount reads back exactly that record. */
  lemma CheckAcceptsOwnImage(h: Superblock, deviceBlocksize: nat)
    requires h.magic == HELLOFS_MAGIC && h.blocksize == deviceBlocksize
    ensures CheckSuperblock(EncodeSuperblock(h), deviceBlocksize) == Some(h)
  {
    DecodeEncodeSuperblock(h);
    SuperblockMagicField(EncodeSuperblock(h));
  }

  /** hellofs_fill_super. newInodeOk and makeRootOk say whether new_inode and
      d_make_root succeed. A refused device leaves the super_block as it was and
      returns 0; an accepted one gets s_magic, s_fs_info and s_maxbytes, then the root
      record (inode 0) is read. Without a VFS inode the root is left alone; when
      d_make_root fails its NULL is stored as the root; otherwise the root is installed. */
  method FillSuper(sb: SuperBlock, newInodeOk: bool, makeRootOk: bool) returns (ret: int)
    requires SUPERBLOCK_BLOCK_NO in sb.disk && sb.blocksize >= SUPERBLOCK_SIZE
    requires BlocksSized(sb.disk, sb.blocksize)
    requires CheckSuperblock(sb.disk[SUPERBLOCK_BLOCK_NO][..SUPERBLOCK_SIZE], sb.blocksize).Some? ==>
               INODE_TABLE_START_BLOCK_NO in sb.disk
    modifies sb`fsInfo, sb`magic, sb`maxbytes, sb`root
    ensures var c := CheckSuperblock(sb.disk[SUPERBLOCK_BLOCK_NO][..SUPERBLOCK_SIZE], sb.blocksize);
            c.None? ==> ret == 0 && sb.fsInfo == old(sb.fsInfo) && sb.magic == old(sb.magic)
                        && sb.maxbytes == old(sb.maxbytes) && sb.root == old(sb.root)
    ensures var c := CheckSuperblock(sb.disk[SUPERBLOCK_BLOCK_NO][..SUPERBLOCK_SIZE], sb.blocksize);
            c.Some? ==> sb.fsInfo == c && sb.magic == HELLOFS_MAGIC && sb.maxbytes == sb.blocksize
                        && Synced(sb.State())
    ensures var c := CheckSuperblock(sb.disk[SUPERBLOCK_BLOCK_NO][..SUPERBLOCK_SIZE], sb.blocksize);
            c.Some? && newInodeOk && makeRootOk ==>
              ret == 0 && sb.root != null && fresh(sb.root)
              && sb.root.rec == DecodeInode(sb.disk[INODE_TABLE_START_BLOCK_NO][..INODE_SIZE])
    ensures var c := CheckSuperblock(sb.disk[SUPERBLOCK_BLOCK_NO][..SUPERBLOCK_SIZE], sb.blocksize);
            c.Some? && !newInodeOk ==> ret == -ENOMEM && sb.root == old(sb.root)
    ensures var c := CheckSuperblock(sb.disk[SUPERBLOCK_BLOCK_NO][..SUPERBLOCK_SIZE], sb.blocksize);
            c.Some? && newInodeOk && !makeRootOk ==> ret == -ENOMEM && sb.root == null
  {
    ret := 0;
    var bh := sb.disk[SUPERBLOCK_BLOCK_NO];
    var hsb := DecodeSuperblock(bh[..SUPERBLOCK_SIZE]);
    SuperblockMagicField(bh[..SUPERBLOCK_SIZE]);
    if hsb.magic != HELLOFS_MAGIC {
      return;
    }
    if sb.blocksize != hsb.blocksize {
      return;
    }
    sb.magic := hsb.magic;
    sb.fsInfo := Some(hsb);
    sb.maxbytes := hsb.blocksize;
    RootInodeLocation(hsb);
    var rootBh := sb.disk[InodeBlockNo(hsb, ROOTDIR_INODE_NO)];
    var off := InodeByteOffset(hsb, ROOTDIR_INODE_NO);
    var rootRec := DecodeInode(rootBh[off..off + INODE_SIZE]);
    if !newInodeOk {
      return -ENOMEM;
    }
    if !makeRootOk {
      sb.root := null;
      return -ENOMEM;
    }
    sb.root := new CachedInode(rootRec);
  }

  /** An accepted device whose superblock has a geometry the driver can work with,
      and whose bitmap blocks are readable, is a mounted volume. */
  lemma AcceptedIsMounted(disk: Disk, deviceBlocksize: nat)
    requires SUPERBLOCK_BLOCK_NO in disk && deviceBlocksize >= SUPERBLOCK_SIZE
    requires BlocksSized(disk, deviceBlocksize)
    requires INODE_BITMAP_BLOCK_NO in disk && DATA_BLOCK_BITMAP_BLOCK_NO in disk
    requires var c := CheckSuperblock(disk[SUPERBLOCK_BLOCK_NO][..SUPERBLOCK_SIZE], deviceBlocksize);
             c.Some? && GeometryOk(c.value)
    ensures var h := CheckSuperblock(disk[SUPERBLOCK_BLOCK_NO][..SUPERBLOCK_SIZE], deviceBlocksize).value;
            && h.blocksize == deviceBlocksize && WellFormed(Fs(disk, h)) && Synced(Fs(disk, h))
  {
    var b0 := disk[SUPERBLOCK_BLOCK_NO][..SUPERBLOCK_SIZE];
    SuperblockMagicField(b0);
  }
}
